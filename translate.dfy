/**
 * `descent` as values. `Descend` is what the walk prints, piece by piece,
 * and the panic that stops it; `Build` is the diagram the same walk
 * describes, built as a tree first. The two agree: the printed text is the
 * tree's expression, and the walk panics exactly when the tree cannot be
 * built, with the same panic.
 */
module Translate {
  import opened Wrappers
  import opened Text
  import opened RangeSets
  import opened Literals
  import opened Classes
  import opened Syntax
  import D = Diagrams

  /** The `≥` that starts the comment of an open-ended repetition. */
  const AtLeastSign: char := '\U{2265}'

  /** What `main` prints before the diagram expression. */
  const Preamble := "import sys\nfrom railroad import *\nComplexDiagram("

  /** What `main` prints after it. */
  const Trailer := ").writeSvg(sys.stdout.write)\n"

  /** What has been printed, and the panic that stopped the printing, if any. */
  datatype Trace = Trace(text: string, panic: Option<Panic>)

  function Emit(s: string): Trace
  {
    Trace(s, None)
  }

  function Fail(p: Panic): Trace
  {
    Trace("", Some(p))
  }

  /** `a` followed by `b`; after a panic nothing more is printed. */
  function Then(a: Trace, b: Trace): Trace
  {
    if a.panic.Some? then a else Trace(a.text + b.text, b.panic)
  }

  /** The label of a capture group: its name, or its index in decimal. */
  function Label(g: GroupKind): string
    requires !g.NonCapturing?
  {
    match g
    case CaptureName(name, _) => name
    case CaptureIndex(i) => Numeral(i, 10)
  }

  /** The comment on a counted repetition that a plain rail cannot show. */
  function CountNote(r: RepetitionRange): Option<string>
  {
    match r
    case Exactly(n) => if n >= 2 then Some("= " + Numeral(n, 10) + " times") else None
    case AtLeast(n) => if n >= 2 then Some([AtLeastSign] + " " + Numeral(n, 10) + " times") else None
    case Bounded(m, n) => if m >= 1 && n >= 2 then Some(Numeral(m, 10) + " ~ " + Numeral(n, 10) + " times") else None
  }

  /** The three rails of the `railroad` library a repetition can be drawn with. */
  datatype Rail = OneOrMoreRail | ZeroOrMoreRail | OptionalRail

  /** The start of a rail's call, up to its opening parenthesis. */
  function RailOpen(rail: Rail): string
  {
    match rail
    case OneOrMoreRail => "OneOrMore("
    case ZeroOrMoreRail => "ZeroOrMore("
    case OptionalRail => "Optional("
  }

  /** The plain rail for the bounds that have one. */
  function StandardRail(r: RepetitionRange): Option<Rail>
  {
    match r
    case AtLeast(1) => Some(OneOrMoreRail)
    case AtLeast(0) => Some(ZeroOrMoreRail)
    case Bounded(0, 1) => Some(OptionalRail)
    case _ => None
  }

  /** The rail of `+`, `*` and `?`. */
  function PlainRail(k: RepetitionKind): Rail
    requires !k.Range?
  {
    match k
    case OneOrMore => OneOrMoreRail
    case ZeroOrMore => ZeroOrMoreRail
    case ZeroOrOne => OptionalRail
  }

  /** How `descent` draws a repetition, decided from its kind alone. */
  datatype Drawing = Skipped | Bare | Counted(note: string) | Railed(rail: Rail) | Unreachable(range: RepetitionRange)

  /**
   * `{0}` is skipped and `{1}` is the child itself; other counted bounds
   * get a commented loop when they have a note, else a plain rail, else
   * they are unreachable.
   */
  function RepetitionDrawing(kind: RepetitionKind): Drawing
  {
    match kind
    case Range(Exactly(0)) => Skipped
    case Range(Exactly(1)) => Bare
    case Range(r) =>
      (match CountNote(r)
       case Some(note) => Counted(note)
       case None =>
         match StandardRail(r)
         case Some(rail) => Railed(rail)
         case None => Unreachable(r))
    case _ => Railed(PlainRail(kind))
  }

  /** How a Unicode class is drawn: by its shorthand, by its complement, or by its ranges. */
  datatype ClassForm = ByName(name: string) | ByComplement(text: string) | ByRanges

  /** The first of the three forms that applies to `cls`. */
  function ClassPolicy(cls: RangeSet, t: Shorthands): ClassForm
  {
    match CharClass(cls, t)
    case Some(name) => ByName(name)
    case None =>
      match EverythingExcept(cls)
      case Some(c) => ByComplement(c)
      case None => ByRanges
  }

  /** What the class branch prints for a class drawn in form `f`. */
  function ClassText(f: ClassForm, cls: RangeSet): string
  {
    match f
    case ByName(name) => Quoted(name)
    case ByComplement(c) => ComplementLiteral(c)
    case ByRanges => RangeChoice(cls)
  }

  /** `inner` between a fixed opening and a fixed closing. */
  function Wrapped(open: string, inner: Trace, close: string): Trace
  {
    Then(Then(Emit(open), inner), Emit(close))
  }

  /**
   * What the repetition branch prints in drawing `dr`, where `inner` is what
   * the walk of the child prints; a skipped or unreachable repetition
   * prints nothing of the child.
   */
  function Drawn(dr: Drawing, inner: Trace): Trace
  {
    match dr
    case Skipped => Emit("Skip()")
    case Bare => inner
    case Counted(note) => Wrapped("OneOrMore(", inner, ", Comment(" + Quoted(note) + "))")
    case Railed(rail) => Wrapped(RailOpen(rail), inner, ")")
    case Unreachable(r) => Fail(UnreachableBounds(r))
  }

  /** What `descent(h)` prints, and whether it panics. */
  function Descend(h: Hir, t: Shorthands): Trace
    decreases h, 0
  {
    match h
    case Alternation(hs) => Wrapped("Choice(0, ", DescendAll(hs, t), ")")
    case Group(g, sub) =>
      if g.NonCapturing? then Descend(sub, t)
      else Wrapped("Group(", Descend(sub, t), ", " + Quoted(Label(g)) + ")")
    case Literal(Byte(_)) => Fail(ByteLiteral)
    case Literal(Unicode(c)) => Emit(CharLiteral(c))
    case Repetition(kind, _, sub) => Drawn(RepetitionDrawing(kind), Descend(sub, t))
    case Concat(hs) => Wrapped("Sequence(", DescendAll(hs, t), ")")
    case Class(BytesClass(_)) => Fail(ByteClass)
    case Class(UnicodeClass(cls)) => Emit(ClassText(ClassPolicy(cls, t), cls))
    case Anchor(a) => Emit(if a == StartLine || a == StartText then "Start()" else "End()")
    case WordBoundary(_) => Emit(Quoted("\\\\b"))
    case Empty => Emit(Quoted(""))
  }

  /** The children of an alternation or a concatenation, in order, each followed by `, `. */
  function DescendAll(hs: seq<Hir>, t: Shorthands): Trace
    decreases hs, 1
  {
    if hs == [] then Emit("")
    else Then(Then(DescendAll(hs[..|hs| - 1], t), Descend(hs[|hs| - 1], t)), Emit(", "))
  }

  /** What `main` prints around the walk. */
  function Script(h: Hir, t: Shorthands): Trace
  {
    Then(Then(Emit(Preamble), Descend(h, t)), Emit(Trailer))
  }

  /** Bounds that no rail fits: `descent` reaches `unreachable!` on them. */
  predicate BadBounds(r: RepetitionRange)
  {
    r.Bounded? && !(r.min == 0 && r.max == 1) && !(r.min >= 1 && r.max >= 2)
  }

  /**
   * Trees `descent` draws to the end: no byte literal, no byte class and no
   * impossible bounds anywhere it looks. It never looks under `{0}`.
   */
  predicate Supported(h: Hir)
    decreases h
  {
    match h
    case Literal(lit) => lit.Unicode?
    case Class(c) => c.UnicodeClass?
    case Repetition(Range(Exactly(0)), _, _) => true
    case Repetition(Range(r), _, sub) => !BadBounds(r) && Supported(sub)
    case Repetition(_, _, sub) => Supported(sub)
    case Group(_, sub) => Supported(sub)
    case Concat(hs) => forall i :: 0 <= i < |hs| ==> Supported(hs[i])
    case Alternation(hs) => forall i :: 0 <= i < |hs| ==> Supported(hs[i])
    case _ => true
  }

  /** The first `k` ranges as literals, in order. */
  function Terminals(rs: seq<Range>, k: nat): seq<D.Diagram>
    requires k <= |rs|
  {
    seq(k, i requires 0 <= i < k => D.Terminal(RangeEntry(rs[i])))
  }

  /** The class fallback as a diagram: a choice among at most twenty ranges. */
  function Fallback(cls: RangeSet): D.Diagram
  {
    if |cls| <= MaxEntries then D.Choice(Terminals(cls, |cls|), false)
    else D.Choice(Terminals(cls, MaxEntries), true)
  }

  /** A Unicode class drawn in form `f`, as a diagram. */
  function ClassDiagram(f: ClassForm, cls: RangeSet): D.Diagram
  {
    match f
    case ByName(name) => D.Terminal(Quoted(name))
    case ByComplement(c) => D.Terminal(ComplementLiteral(c))
    case ByRanges => Fallback(cls)
  }

  /** The diagram `descent(h)` describes, built as a tree before anything is printed. */
  function Build(h: Hir, t: Shorthands): Result<D.Diagram, Panic>
    decreases h, 0
  {
    match h
    case Alternation(hs) =>
      var r := BuildAll(hs, t);
      if r.Ok? then Ok(D.Choice(r.value, false)) else Err(r.error)
    case Group(g, sub) =>
      var r := Build(sub, t);
      if g.NonCapturing? || r.Err? then r else Ok(D.Group(r.value, Label(g)))
    case Literal(Byte(_)) => Err(ByteLiteral)
    case Literal(Unicode(c)) => Ok(D.Terminal(CharLiteral(c)))
    case Repetition(kind, _, sub) => BuildDrawn(RepetitionDrawing(kind), Build(sub, t))
    case Concat(hs) =>
      var r := BuildAll(hs, t);
      if r.Ok? then Ok(D.Sequence(r.value)) else Err(r.error)
    case Class(BytesClass(_)) => Err(ByteClass)
    case Class(UnicodeClass(cls)) => Ok(ClassDiagram(ClassPolicy(cls, t), cls))
    case Anchor(a) => Ok(if a == StartLine || a == StartText then D.Start else D.End)
    case WordBoundary(_) => Ok(D.Terminal(Quoted("\\\\b")))
    case Empty => Ok(D.Terminal(Quoted("")))
  }

  /** The diagrams of `hs` in order, or the first panic among them. */
  function BuildAll(hs: seq<Hir>, t: Shorthands): Result<seq<D.Diagram>, Panic>
    decreases hs, 1
  {
    if hs == [] then Ok([]) else Appended(BuildAll(hs[..|hs| - 1], t), Build(hs[|hs| - 1], t))
  }

  /** One more diagram after `init`; the first panic wins. */
  function Appended(init: Result<seq<D.Diagram>, Panic>, last: Result<D.Diagram, Panic>): Result<seq<D.Diagram>, Panic>
  {
    if init.Err? then init
    else if last.Err? then Err(last.error)
    else Ok(init.value + [last.value])
  }

  /** The diagram of a repetition in drawing `dr`, where `inner` is the child's. */
  function BuildDrawn(dr: Drawing, inner: Result<D.Diagram, Panic>): Result<D.Diagram, Panic>
  {
    match dr
    case Skipped => Ok(D.Skip)
    case Unreachable(r) => Err(UnreachableBounds(r))
    case Bare => inner
    case Counted(note) => if inner.Err? then inner else Ok(D.OneOrMore(inner.value, Some(note)))
    case Railed(rail) => if inner.Err? then inner else Ok(RailDiagram(rail, inner.value))
  }

  /** `d` on a plain rail. */
  function RailDiagram(rail: Rail, d: D.Diagram): D.Diagram
  {
    match rail
    case OneOrMoreRail => D.OneOrMore(d, None)
    case ZeroOrMoreRail => D.ZeroOrMore(d)
    case OptionalRail => D.Optional(d)
  }

  /**
   * Which repetitions get which drawing: `{0}` and `{1}` are special, a
   * note is used exactly for the counts a plain rail cannot show, each rail
   * stands for its operator and for the bounds that mean the same, and
   * everything else is unreachable.
   */
  lemma DrawingSpec(kind: RepetitionKind)
    ensures RepetitionDrawing(kind) == Skipped <==> kind == Range(Exactly(0))
    ensures RepetitionDrawing(kind) == Bare <==> kind == Range(Exactly(1))
    ensures RepetitionDrawing(kind).Counted? <==> kind.Range? && CountNote(kind.range).Some?
    ensures RepetitionDrawing(kind).Counted? ==> Some(RepetitionDrawing(kind).note) == CountNote(kind.range)
    ensures RepetitionDrawing(kind) == Railed(OneOrMoreRail) <==> kind == OneOrMore || kind == Range(AtLeast(1))
    ensures RepetitionDrawing(kind) == Railed(ZeroOrMoreRail) <==> kind == ZeroOrMore || kind == Range(AtLeast(0))
    ensures RepetitionDrawing(kind) == Railed(OptionalRail) <==> kind == ZeroOrOne || kind == Range(Bounded(0, 1))
    ensures RepetitionDrawing(kind).Unreachable? <==> kind.Range? && BadBounds(kind.range)
    ensures RepetitionDrawing(kind).Unreachable? ==> RepetitionDrawing(kind).range == kind.range
  {
  }

  /** The children's diagrams, one per child and in order; or the panic of the first child that has one. */
  lemma BuildAllSpec(hs: seq<Hir>, t: Shorthands)
    ensures BuildAll(hs, t).Ok? <==> forall i :: 0 <= i < |hs| ==> Build(hs[i], t).Ok?
    ensures BuildAll(hs, t).Ok? ==>
              |BuildAll(hs, t).value| == |hs| &&
              forall i :: 0 <= i < |hs| ==> BuildAll(hs, t).value[i] == Build(hs[i], t).value
    ensures BuildAll(hs, t).Err? ==>
              exists i :: 0 <= i < |hs| && Build(hs[i], t) == Err(BuildAll(hs, t).error) &&
                          forall j :: 0 <= j < i ==> Build(hs[j], t).Ok?
  {
    if BuildAll(hs, t).Ok? {
      BuildAllValues(hs, t);
    } else {
      BuildAllFirstError(hs, t);
    }
  }

  lemma {:induction false} BuildAllValues(hs: seq<Hir>, t: Shorthands)
    requires BuildAll(hs, t).Ok?
    ensures |BuildAll(hs, t).value| == |hs|
    ensures forall i :: 0 <= i < |hs| ==> Build(hs[i], t).Ok? && BuildAll(hs, t).value[i] == Build(hs[i], t).value
    decreases |hs|
  {
    if hs != [] {
      var init := hs[..|hs| - 1];
      var v := BuildAll(init, t).value;
      BuildAllValues(init, t);
      var all := BuildAll(hs, t).value;
      assert all == v + [Build(hs[|hs| - 1], t).value];
      forall i | 0 <= i < |hs| ensures Build(hs[i], t).Ok? && all[i] == Build(hs[i], t).value {
        if i < |init| {
          assert hs[i] == init[i];
          assert all[i] == v[i];
        }
      }
    }
  }

  lemma {:induction false} BuildAllFirstError(hs: seq<Hir>, t: Shorthands)
    requires BuildAll(hs, t).Err?
    ensures exists i :: 0 <= i < |hs| && Build(hs[i], t) == Err(BuildAll(hs, t).error) &&
                        forall j :: 0 <= j < i ==> Build(hs[j], t).Ok?
    decreases |hs|
  {
    var init := hs[..|hs| - 1];
    var a := BuildAll(init, t);
    assert forall i :: 0 <= i < |init| ==> init[i] == hs[i];
    if a.Err? {
      assert BuildAll(hs, t) == a;
      BuildAllFirstError(init, t);
      var i :| 0 <= i < |init| && Build(init[i], t) == Err(a.error) &&
               forall j :: 0 <= j < i ==> Build(init[j], t).Ok?;
      assert Build(hs[i], t) == Err(BuildAll(hs, t).error);
    } else {
      BuildAllValues(init, t);
      assert Build(hs[|hs| - 1], t) == Err(BuildAll(hs, t).error);
    }
  }

  /** `descent` draws a tree to the end exactly when the tree is supported. */
  lemma {:induction false} SupportedIffBuilt(h: Hir, t: Shorthands)
    ensures Build(h, t).Ok? <==> Supported(h)
    decreases h
  {
    match h
    case Alternation(hs) =>
      BuildAllSpec(hs, t);
      forall i | 0 <= i < |hs| ensures Build(hs[i], t).Ok? <==> Supported(hs[i]) {
        SupportedIffBuilt(hs[i], t);
      }
    case Concat(hs) =>
      BuildAllSpec(hs, t);
      forall i | 0 <= i < |hs| ensures Build(hs[i], t).Ok? <==> Supported(hs[i]) {
        SupportedIffBuilt(hs[i], t);
      }
    case Group(_, sub) => SupportedIffBuilt(sub, t);
    case Repetition(kind, _, sub) =>
      DrawingSpec(kind);
      SupportedIffBuilt(sub, t);
    case _ =>
  }

  /** The first `k` range literals print as the first `k` entries of the fallback. */
  lemma {:induction false} TerminalsPrinted(rs: seq<Range>, k: nat)
    requires k <= |rs|
    ensures D.PrintAll(Terminals(rs, k)) == Entries(rs[..k])
  {
    if k > 0 {
      var e := RangeEntry(rs[k - 1]);
      var ts := Terminals(rs, k - 1);
      TerminalsPrinted(rs, k - 1);
      TerminalsSnoc(rs, k);
      PrintAllSnoc(ts, e);
      EntriesSnoc(rs, k);
      calc {
        D.PrintAll(Terminals(rs, k));
        D.PrintAll(ts + [D.Terminal(e)]);
        D.PrintAll(ts) + e + ", ";
        Entries(rs[..k - 1]) + e + ", ";
        Entries(rs[..k]);
      }
    }
  }

  lemma TerminalsSnoc(rs: seq<Range>, k: nat)
    requires 0 < k <= |rs|
    ensures Terminals(rs, k) == Terminals(rs, k - 1) + [D.Terminal(RangeEntry(rs[k - 1]))]
  {
  }

  lemma PrintAllSnoc(ds: seq<D.Diagram>, e: string)
    ensures D.PrintAll(ds + [D.Terminal(e)]) == D.PrintAll(ds) + e + ", "
  {
    assert (ds + [D.Terminal(e)])[..|ds|] == ds;
  }

  lemma EntriesSnoc(rs: seq<Range>, k: nat)
    requires 0 < k <= |rs|
    ensures Entries(rs[..k]) == Entries(rs[..k - 1]) + RangeEntry(rs[k - 1]) + ", "
  {
    assert rs[..k][..k - 1] == rs[..k - 1];
  }

  /** The class branch prints the class's diagram. */
  lemma ClassIsPrinted(f: ClassForm, cls: RangeSet)
    ensures D.Print(ClassDiagram(f, cls)) == ClassText(f, cls)
  {
    match f
    case ByName(n) =>
      assert ClassDiagram(f, cls) == D.Terminal(Quoted(n)) && ClassText(f, cls) == Quoted(n);
      TerminalPrinted(Quoted(n));
    case ByComplement(c) =>
      assert ClassDiagram(f, cls) == D.Terminal(ComplementLiteral(c)) && ClassText(f, cls) == ComplementLiteral(c);
      TerminalPrinted(ComplementLiteral(c));
    case ByRanges => FallbackPrinted(cls);
  }

  /** A terminal prints as its own text. */
  lemma TerminalPrinted(s: string)
    ensures D.Print(D.Terminal(s)) == s
  {
  }

  /** The fallback diagram prints as the fallback text. */
  lemma FallbackPrinted(cls: RangeSet)
    ensures D.Print(Fallback(cls)) == RangeChoice(cls)
  {
    if |cls| <= MaxEntries {
      TerminalsPrinted(cls, |cls|);
      assert cls[..|cls|] == cls;
    } else {
      TerminalsPrinted(cls, MaxEntries);
    }
  }

  /** A trace is the printing of a diagram, or panics as the diagram's construction does. */
  predicate Agrees(tr: Trace, b: Result<D.Diagram, Panic>)
  {
    (b.Ok? ==> tr == Emit(D.Print(b.value))) && (b.Err? ==> tr.panic == Some(b.error))
  }

  /** A piece printed between a fixed opening and a fixed closing. */
  lemma WrapIsPrinted(open: string, inner: Trace, close: string)
    ensures inner.panic.None? ==> Wrapped(open, inner, close) == Emit(open + inner.text + close)
    ensures inner.panic.Some? ==> Wrapped(open, inner, close).panic == inner.panic
  {
  }

  /**
   * Printing as the walk goes is printing the whole diagram at the end:
   * the text is the diagram's expression, and a panic is the tree's panic.
   */
  lemma {:induction false} DescendIsPrinted(h: Hir, t: Shorthands)
    ensures Build(h, t).Ok? ==> Descend(h, t) == Emit(D.Print(Build(h, t).value))
    ensures Build(h, t).Err? ==> Descend(h, t).panic == Some(Build(h, t).error)
    decreases h, 0
  {
    match h
    case Alternation(hs) =>
      DescendAllIsPrinted(hs, t);
      ChoiceAgrees(DescendAll(hs, t), BuildAll(hs, t));
    case Concat(hs) =>
      DescendAllIsPrinted(hs, t);
      SequenceAgrees(DescendAll(hs, t), BuildAll(hs, t));
    case Group(g, sub) =>
      DescendIsPrinted(sub, t);
      if !g.NonCapturing? {
        CapturedAgrees(Label(g), Descend(sub, t), Build(sub, t));
      }
    case Repetition(kind, _, sub) =>
      DescendIsPrinted(sub, t);
      DrawnAgrees(RepetitionDrawing(kind), Descend(sub, t), Build(sub, t));
    case Class(UnicodeClass(cls)) =>
      var f := ClassPolicy(cls, t);
      ClassIsPrinted(f, cls);
    case _ =>
  }

  lemma ChoiceAgrees(inner: Trace, r: Result<seq<D.Diagram>, Panic>)
    requires r.Ok? ==> inner == Emit(D.PrintAll(r.value))
    requires r.Err? ==> inner.panic == Some(r.error)
    ensures Agrees(Wrapped("Choice(0, ", inner, ")"), if r.Ok? then Ok(D.Choice(r.value, false)) else Err(r.error))
  {
    WrapIsPrinted("Choice(0, ", inner, ")");
    if r.Ok? {
      assert D.Print(D.Choice(r.value, false)) == "Choice(0, " + inner.text + ")";
    }
  }

  lemma SequenceAgrees(inner: Trace, r: Result<seq<D.Diagram>, Panic>)
    requires r.Ok? ==> inner == Emit(D.PrintAll(r.value))
    requires r.Err? ==> inner.panic == Some(r.error)
    ensures Agrees(Wrapped("Sequence(", inner, ")"), if r.Ok? then Ok(D.Sequence(r.value)) else Err(r.error))
  {
    WrapIsPrinted("Sequence(", inner, ")");
  }

  lemma CapturedAgrees(name: string, inner: Trace, b: Result<D.Diagram, Panic>)
    requires Agrees(inner, b)
    ensures Agrees(Wrapped("Group(", inner, ", " + Quoted(name) + ")"), if b.Err? then b else Ok(D.Group(b.value, name)))
  {
    WrapIsPrinted("Group(", inner, ", " + Quoted(name) + ")");
    if b.Ok? {
      var p := "Group(" + D.Print(b.value);
      ConcatAssoc(p, ", " + Quoted(name), ")");
      ConcatAssoc(p, ", ", Quoted(name));
    }
  }

  lemma DrawnAgrees(dr: Drawing, inner: Trace, b: Result<D.Diagram, Panic>)
    requires Agrees(inner, b)
    ensures Agrees(Drawn(dr, inner), BuildDrawn(dr, b))
  {
    match dr
    case Counted(note) => CountedAgrees(note, inner, b);
    case Railed(rail) => WrapIsPrinted(RailOpen(rail), inner, ")");
    case _ =>
  }

  lemma CountedAgrees(note: string, inner: Trace, b: Result<D.Diagram, Panic>)
    requires Agrees(inner, b)
    ensures Agrees(Drawn(Counted(note), inner), BuildDrawn(Counted(note), b))
  {
    var close := ", Comment(" + Quoted(note) + "))";
    WrapIsPrinted("OneOrMore(", inner, close);
    if b.Ok? {
      var p := "OneOrMore(" + D.Print(b.value);
      assert D.Print(D.OneOrMore(b.value, Some(note))) == p + ", Comment(" + Quoted(note) + "))";
      ConcatAssoc(p, ", Comment(" + Quoted(note), "))");
      ConcatAssoc(p, ", Comment(", Quoted(note));
    }
  }

  lemma {:induction false} DescendAllIsPrinted(hs: seq<Hir>, t: Shorthands)
    ensures BuildAll(hs, t).Ok? ==> DescendAll(hs, t) == Emit(D.PrintAll(BuildAll(hs, t).value))
    ensures BuildAll(hs, t).Err? ==> DescendAll(hs, t).panic == Some(BuildAll(hs, t).error)
    decreases hs, 1
  {
    if hs != [] {
      var init, last := hs[..|hs| - 1], hs[|hs| - 1];
      DescendAllIsPrinted(init, t);
      DescendIsPrinted(last, t);
      AppendedAgrees(DescendAll(init, t), BuildAll(init, t), Descend(last, t), Build(last, t));
    }
  }

  lemma AppendedAgrees(a: Trace, ra: Result<seq<D.Diagram>, Panic>, b: Trace, rb: Result<D.Diagram, Panic>)
    requires ra.Ok? ==> a == Emit(D.PrintAll(ra.value))
    requires ra.Err? ==> a.panic == Some(ra.error)
    requires Agrees(b, rb)
    ensures Appended(ra, rb).Ok? ==> Then(Then(a, b), Emit(", ")) == Emit(D.PrintAll(Appended(ra, rb).value))
    ensures Appended(ra, rb).Err? ==> Then(Then(a, b), Emit(", ")).panic == Some(Appended(ra, rb).error)
  {
    if Appended(ra, rb).Ok? {
      var v := Appended(ra, rb).value;
      assert v[..|v| - 1] == ra.value;
    }
  }

  /**
   * The class policy: the shorthand when one has the same members; else
   * the bracketed complement when `[^` and the complement fit in 48 bytes;
   * else the ranges.
   */
  lemma ClassPolicySpec(cls: RangeSet, t: Shorthands)
    ensures ClassPolicy(cls, t).ByName? <==> CharClass(cls, t).Some?
    ensures ClassPolicy(cls, t).ByName? ==> ClassPolicy(cls, t).name == CharClass(cls, t).value
    ensures ClassPolicy(cls, t).ByComplement? <==> CharClass(cls, t).None? && ByteLen(ComplementText(cls)) <= MaxLen
    ensures ClassPolicy(cls, t).ByComplement? ==> ClassPolicy(cls, t).text == ComplementText(cls) + "]"
    ensures ClassPolicy(cls, t).ByRanges? <==> CharClass(cls, t).None? && ByteLen(ComplementText(cls)) > MaxLen
  {
  }

  /** A class with the members of one of the seven shorthands is drawn as a shorthand. */
  lemma ShorthandIsUsed(t: Shorthands, i: nat)
    requires i < 7
    ensures ClassPolicy(Candidates(t)[i].1, t).ByName?
  {
    var cls := Candidates(t)[i].1;
    assert Members(cls) == Members(Candidates(t)[i].1);
  }

  /**
   * Such a class is drawn as the quoted name of that shorthand or of one
   * tried before it.
   */
  lemma ShorthandIsDrawn(t: Shorthands, i: nat)
    requires i < 7
    ensures exists j :: 0 <= j <= i && ClassPolicy(Candidates(t)[i].1, t) == ByName(Candidates(t)[j].0)
    ensures Descend(Class(UnicodeClass(Candidates(t)[i].1)), t) == Emit(Quoted(ClassPolicy(Candidates(t)[i].1, t).name))
  {
    var cls := Candidates(t)[i].1;
    ShorthandIsUsed(t, i);
    ShorthandIndex(cls, t, i);
    ClassDescend(cls, t);
  }

  lemma ShorthandIndex(cls: RangeSet, t: Shorthands, i: nat)
    requires i < 7 && Members(cls) == Members(Candidates(t)[i].1)
    ensures exists j :: 0 <= j <= i && ClassPolicy(cls, t) == ByName(Candidates(t)[j].0)
  {
    var name := CharClass(cls, t).value;
    var j :| 0 <= j < 7 && name == Candidates(t)[j].0 && Members(cls) == Members(Candidates(t)[j].1)
             && forall k :: 0 <= k < j ==> Members(cls) != Members(Candidates(t)[k].1);
    assert j <= i;
  }

  lemma ClassDescend(cls: RangeSet, t: Shorthands)
    ensures Descend(Class(UnicodeClass(cls)), t) == Emit(ClassText(ClassPolicy(cls, t), cls))
  {
  }

  /** The fallback choice lists the first ranges in order, at most twenty, and an ellipsis exactly when some are cut. */
  lemma FallbackSpec(cls: RangeSet)
    ensures Fallback(cls).Choice?
    ensures |Fallback(cls).items| == if |cls| <= MaxEntries then |cls| else MaxEntries
    ensures Fallback(cls).more <==> |cls| > MaxEntries
    ensures forall i :: 0 <= i < |Fallback(cls).items| ==> Fallback(cls).items[i] == D.Terminal(RangeEntry(cls[i]))
  {
  }

  /**
   * The drawing of each repetition: `{0}` is `Skip()` whatever the child,
   * even one that cannot be drawn; `{1}` is the child itself; a count a
   * rail cannot show gets a commented `OneOrMore`; the operators and the
   * bounds equal to them get their rails; any other bounds are unreachable.
   */
  lemma RepetitionShapes(kind: RepetitionKind, g: bool, sub: Hir, t: Shorthands)
    ensures kind == Range(Exactly(0)) ==> Build(Repetition(kind, g, sub), t) == Ok(D.Skip)
    ensures kind == Range(Exactly(1)) ==> Build(Repetition(kind, g, sub), t) == Build(sub, t)
    ensures kind.Range? && BadBounds(kind.range) ==>
              Build(Repetition(kind, g, sub), t) == Err(UnreachableBounds(kind.range))
    ensures Build(sub, t).Ok? && kind.Range? && CountNote(kind.range).Some? ==>
              Build(Repetition(kind, g, sub), t) == Ok(D.OneOrMore(Build(sub, t).value, CountNote(kind.range)))
    ensures Build(sub, t).Ok? && (kind == OneOrMore || kind == Range(AtLeast(1))) ==>
              Build(Repetition(kind, g, sub), t) == Ok(D.OneOrMore(Build(sub, t).value, None))
    ensures Build(sub, t).Ok? && (kind == ZeroOrMore || kind == Range(AtLeast(0))) ==>
              Build(Repetition(kind, g, sub), t) == Ok(D.ZeroOrMore(Build(sub, t).value))
    ensures Build(sub, t).Ok? && (kind == ZeroOrOne || kind == Range(Bounded(0, 1))) ==>
              Build(Repetition(kind, g, sub), t) == Ok(D.Optional(Build(sub, t).value))
  {
    assert Build(Repetition(kind, g, sub), t) == BuildDrawn(RepetitionDrawing(kind), Build(sub, t));
    DrawingSpec(kind);
    DrawnShapes(RepetitionDrawing(kind), Build(sub, t));
  }

  /** What each drawing builds around the child's diagram. */
  lemma DrawnShapes(dr: Drawing, b: Result<D.Diagram, Panic>)
    ensures dr == Skipped ==> BuildDrawn(dr, b) == Ok(D.Skip)
    ensures dr == Bare ==> BuildDrawn(dr, b) == b
    ensures dr.Unreachable? ==> BuildDrawn(dr, b) == Err(UnreachableBounds(dr.range))
    ensures b.Ok? && dr.Counted? ==> BuildDrawn(dr, b) == Ok(D.OneOrMore(b.value, Some(dr.note)))
    ensures b.Ok? && dr == Railed(OneOrMoreRail) ==> BuildDrawn(dr, b) == Ok(D.OneOrMore(b.value, None))
    ensures b.Ok? && dr == Railed(ZeroOrMoreRail) ==> BuildDrawn(dr, b) == Ok(D.ZeroOrMore(b.value))
    ensures b.Ok? && dr == Railed(OptionalRail) ==> BuildDrawn(dr, b) == Ok(D.Optional(b.value))
  {
  }

  /** A concatenation is a sequence of its children's diagrams: as many, in the same order. */
  lemma SequenceKeepsOrder(hs: seq<Hir>, t: Shorthands)
    ensures Build(Concat(hs), t).Ok? <==> forall i :: 0 <= i < |hs| ==> Build(hs[i], t).Ok?
    ensures Build(Concat(hs), t).Ok? ==>
              var d := Build(Concat(hs), t).value;
              d.Sequence? && |d.items| == |hs| &&
              forall i :: 0 <= i < |hs| ==> d.items[i] == Build(hs[i], t).value
  {
    BuildAllSpec(hs, t);
  }

  /** An alternation is a choice among its children's diagrams, defaulting to the first, in the same order. */
  lemma ChoiceKeepsOrder(hs: seq<Hir>, t: Shorthands)
    ensures Build(Alternation(hs), t).Ok? <==> forall i :: 0 <= i < |hs| ==> Build(hs[i], t).Ok?
    ensures Build(Alternation(hs), t).Ok? ==>
              var d := Build(Alternation(hs), t).value;
              d.Choice? && !d.more && |d.items| == |hs| &&
              forall i :: 0 <= i < |hs| ==> d.items[i] == Build(hs[i], t).value
  {
    BuildAllSpec(hs, t);
  }

  /**
   * What `main` prints: for a supported tree, the preamble, the diagram's
   * expression and the trailer; otherwise the walk panics with the tree's
   * panic, after the preamble and whatever it printed before the panic.
   */
  lemma ScriptSpec(h: Hir, t: Shorthands)
    ensures Script(h, t).panic.None? <==> Supported(h)
    ensures Build(h, t).Ok? <==> Supported(h)
    ensures Build(h, t).Ok? ==> Script(h, t).text == Preamble + D.Print(Build(h, t).value) + Trailer
    ensures Build(h, t).Err? ==> Script(h, t).panic == Some(Build(h, t).error) && Preamble <= Script(h, t).text
  {
    SupportedIffBuilt(h, t);
    DescendIsPrinted(h, t);
  }

  /**
   * A comment names its bounds: it is there exactly for the counts a plain
   * rail cannot show, and its numerals read back as the bounds.
   */
  lemma NoteNamesBounds(r: RepetitionRange)
    ensures CountNote(r).Some? <==>
              (r.Exactly? && r.count >= 2) || (r.AtLeast? && r.min >= 2) || (r.Bounded? && r.min >= 1 && r.max >= 2)
    ensures r.Exactly? && r.count >= 2 ==>
              exists s :: CountNote(r) == Some("= " + s + " times") && ValueOf(s, 10) == r.count
    ensures r.AtLeast? && r.min >= 2 ==>
              exists s :: CountNote(r) == Some([AtLeastSign] + " " + s + " times") && ValueOf(s, 10) == r.min
    ensures r.Bounded? && r.min >= 1 && r.max >= 2 ==>
              exists s, u :: CountNote(r) == Some(s + " ~ " + u + " times") && ValueOf(s, 10) == r.min && ValueOf(u, 10) == r.max
  {
    match r {
      case Exactly(n) =>
        NumeralRoundTrip(n, 10);
        if n >= 2 {
          assert CountNote(r) == Some("= " + Numeral(n, 10) + " times");
        }
      case AtLeast(n) =>
        NumeralRoundTrip(n, 10);
        if n >= 2 {
          assert CountNote(r) == Some([AtLeastSign] + " " + Numeral(n, 10) + " times");
        }
      case Bounded(m, n) =>
        NumeralRoundTrip(m, 10);
        NumeralRoundTrip(n, 10);
        if m >= 1 && n >= 2 {
          assert CountNote(r) == Some(Numeral(m, 10) + " ~ " + Numeral(n, 10) + " times");
        }
    }
  }

  /** A comment is quoted as it is, so it reads back from the script unchanged. */
  lemma NoteReadsBack(r: RepetitionRange)
    requires CountNote(r).Some?
    ensures Quoted(CountNote(r).value) == "'" + CountNote(r).value + "'"
    ensures PyRead(Quoted(CountNote(r).value)) == Value(CountNote(r).value)
  {
    var note := CountNote(r).value;
    NoteIsVerbatim(r);
    NoteIsUnslashed(r);
    QuotedPlain(note);
    QuotedRoundTrip(note);
  }

  /** A comment holds no backslash. */
  lemma NoteIsUnslashed(r: RepetitionRange)
    requires CountNote(r).Some?
    ensures Unslashed(CountNote(r).value)
  {
    match r {
      case Exactly(n) =>
        DecimalIsUnslashed(n);
        UnslashedConcat("= ", Numeral(n, 10));
        UnslashedConcat("= " + Numeral(n, 10), " times");
      case AtLeast(n) =>
        DecimalIsUnslashed(n);
        UnslashedConcat([AtLeastSign] + " ", Numeral(n, 10));
        UnslashedConcat([AtLeastSign] + " " + Numeral(n, 10), " times");
      case Bounded(m, n) =>
        DecimalIsUnslashed(m);
        DecimalIsUnslashed(n);
        UnslashedConcat(Numeral(m, 10), " ~ ");
        UnslashedConcat(Numeral(m, 10) + " ~ ", Numeral(n, 10));
        UnslashedConcat(Numeral(m, 10) + " ~ " + Numeral(n, 10), " times");
    }
  }

  /** A comment holds no quote and nothing written in hexadecimal. */
  lemma NoteIsVerbatim(r: RepetitionRange)
    requires CountNote(r).Some?
    ensures Verbatim(CountNote(r).value)
  {
    match r {
      case Exactly(n) =>
        DecimalIsVerbatim(n);
        VerbatimConcat("= ", Numeral(n, 10));
        VerbatimConcat("= " + Numeral(n, 10), " times");
      case AtLeast(n) =>
        DecimalIsVerbatim(n);
        VerbatimConcat([AtLeastSign] + " ", Numeral(n, 10));
        VerbatimConcat([AtLeastSign] + " " + Numeral(n, 10), " times");
      case Bounded(m, n) =>
        DecimalIsVerbatim(m);
        DecimalIsVerbatim(n);
        VerbatimConcat(Numeral(m, 10), " ~ ");
        VerbatimConcat(Numeral(m, 10) + " ~ ", Numeral(n, 10));
        VerbatimConcat(Numeral(m, 10) + " ~ " + Numeral(n, 10), " times");
    }
  }
}
