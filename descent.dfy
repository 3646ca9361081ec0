/**
 * `descent` and `main`'s printing as they run: a walk that writes the
 * diagram expression piece by piece to standard output and stops at the
 * first panic. Each method is proved to write exactly the text of the
 * `Descend` trace and to panic exactly as it does.
 */
module Emitter {
  import opened Wrappers
  import opened Text
  import opened RangeSets
  import opened Literals
  import opened Classes
  import opened Syntax
  import opened Translate

  /** Standard output: everything written so far. */
  class Output {
    var text: string

    constructor()
      ensures text == []
    {
      text := [];
    }

    /** `print!`: appends `s`. */
    method Write(s: string)
      modifies this
      ensures text == old(text) + s
    {
      text := text + s;
    }
  }

  /** `main` after parsing: the preamble, the walk, and the trailer unless the walk panicked. */
  method EmitScript(h: Hir, t: Shorthands, out: Output) returns (panic: Option<Panic>)
    modifies out
    ensures out.text == old(out.text) + Script(h, t).text
    ensures panic == Script(h, t).panic
  {
    out.Write(Preamble);
    panic := Descent(h, t, out);
    if panic.None? {
      out.Write(Trailer);
    }
    WrappedWritten(old(out.text), Preamble, Descend(h, t), Trailer, out.text);
  }

  /** `descent`: writes the expression of `h`, or panics partway. */
  method Descent(h: Hir, t: Shorthands, out: Output) returns (panic: Option<Panic>)
    modifies out
    ensures out.text == old(out.text) + Descend(h, t).text
    ensures panic == Descend(h, t).panic
    decreases h, 0
  {
    match h
    case Alternation(hs) =>
      panic := DescentList("Choice(0, ", hs, t, out);
    case Group(g, sub) =>
      if g.NonCapturing? {
        panic := Descent(sub, t, out);
      } else {
        panic := DescentGroup(g, sub, t, out);
      }
    case Literal(Byte(_)) =>
      panic := Some(ByteLiteral);
    case Literal(Unicode(c)) =>
      out.Write(CharLiteral(c));
      panic := None;
    case Repetition(kind, _, sub) =>
      panic := DescentRepetition(kind, sub, t, out);
    case Concat(hs) =>
      panic := DescentList("Sequence(", hs, t, out);
    case Class(BytesClass(_)) =>
      panic := Some(ByteClass);
    case Class(UnicodeClass(cls)) =>
      EmitClass(cls, t, out);
      panic := None;
    case Anchor(a) =>
      if a == StartLine || a == StartText {
        out.Write("Start()");
      } else {
        out.Write("End()");
      }
      panic := None;
    case WordBoundary(_) =>
      var q := PyStr("\\\\b");
      out.Write(q);
      panic := None;
    case Empty =>
      var q := PyStr("");
      out.Write(q);
      panic := None;
  }

  /** An alternation or a concatenation: the opening, each child followed by `, `, and `)`. */
  method DescentList(open: string, hs: seq<Hir>, t: Shorthands, out: Output) returns (panic: Option<Panic>)
    modifies out
    ensures out.text == old(out.text) + Wrapped(open, DescendAll(hs, t), ")").text
    ensures panic == Wrapped(open, DescendAll(hs, t), ")").panic
    decreases hs, 2
  {
    out.Write(open);
    panic := DescentEach(hs, t, out);
    if panic.None? {
      out.Write(")");
    }
    ConcatAssoc(old(out.text), open, DescendAll(hs, t).text);
  }

  /** The children in order, each followed by `, `, up to the first that panics. */
  method DescentEach(hs: seq<Hir>, t: Shorthands, out: Output) returns (panic: Option<Panic>)
    modifies out
    ensures out.text == old(out.text) + DescendAll(hs, t).text
    ensures panic == DescendAll(hs, t).panic
    decreases hs, 1
  {
    for i := 0 to |hs|
      invariant out.text == old(out.text) + DescendAll(hs[..i], t).text
      invariant DescendAll(hs[..i], t).panic.None?
    {
      ghost var before := out.text;
      var p := Descent(hs[i], t, out);
      EachStep(hs, i, t);
      if p.Some? {
        ConcatAssoc(old(out.text), DescendAll(hs[..i], t).text, Descend(hs[i], t).text);
        PanicSticks(hs, i + 1, t);
        return p;
      }
      out.Write(", ");
      ConcatAssoc(old(out.text), DescendAll(hs[..i], t).text, Descend(hs[i], t).text);
      ConcatAssoc(old(out.text), DescendAll(hs[..i], t).text + Descend(hs[i], t).text, ", ");
    }
    assert hs[..|hs|] == hs;
    panic := None;
  }

  /** One more child: its trace, then `, `, after the trace of those before it. */
  lemma EachStep(hs: seq<Hir>, i: nat, t: Shorthands)
    requires i < |hs|
    ensures DescendAll(hs[..i + 1], t) == Then(Then(DescendAll(hs[..i], t), Descend(hs[i], t)), Emit(", "))
  {
    assert hs[..i + 1][..i] == hs[..i];
  }

  /** Once a child panics, the later children change nothing. */
  lemma {:induction false} PanicSticks(hs: seq<Hir>, k: nat, t: Shorthands)
    requires k <= |hs| && DescendAll(hs[..k], t).panic.Some?
    ensures DescendAll(hs, t) == DescendAll(hs[..k], t)
    decreases |hs| - k
  {
    if k < |hs| {
      EachStep(hs, k, t);
      PanicSticks(hs, k + 1, t);
    } else {
      assert hs[..k] == hs;
    }
  }

  /** A capture group: `Group(`, the child, and the quoted name or index. */
  method DescentGroup(g: GroupKind, sub: Hir, t: Shorthands, out: Output) returns (panic: Option<Panic>)
    requires !g.NonCapturing?
    modifies out
    ensures out.text == old(out.text) + Wrapped("Group(", Descend(sub, t), ", " + Quoted(Label(g)) + ")").text
    ensures panic == Wrapped("Group(", Descend(sub, t), ", " + Quoted(Label(g)) + ")").panic
    decreases sub, 2
  {
    var name := if g.CaptureName? then g.name else Numeral(g.index, 10);
    var q := PyStr(name);
    panic := Wrap("Group(", sub, ", " + q + ")", t, out);
  }

  /** A repetition: `+`, `*` and `?` take their rail; counted bounds are decided by `DescentCounted`. */
  method DescentRepetition(kind: RepetitionKind, sub: Hir, t: Shorthands, out: Output) returns (panic: Option<Panic>)
    modifies out
    ensures out.text == old(out.text) + Drawn(RepetitionDrawing(kind), Descend(sub, t)).text
    ensures panic == Drawn(RepetitionDrawing(kind), Descend(sub, t)).panic
    decreases sub, 5
  {
    match kind
    case Range(range) =>
      panic := DescentCounted(range, sub, t, out);
    case _ =>
      assert RepetitionDrawing(kind) == Railed(PlainRail(kind));
      panic := StdRepeat(PlainRail(kind), sub, t, out);
  }

  /** Counted bounds: `{0}` is skipped, `{1}` is the child itself, the rest go to `DescentNoted`. */
  method DescentCounted(range: RepetitionRange, sub: Hir, t: Shorthands, out: Output) returns (panic: Option<Panic>)
    modifies out
    ensures out.text == old(out.text) + Drawn(RepetitionDrawing(Range(range)), Descend(sub, t)).text
    ensures panic == Drawn(RepetitionDrawing(Range(range)), Descend(sub, t)).panic
    decreases sub, 4
  {
    if range == Exactly(0) {
      assert RepetitionDrawing(Range(range)) == Skipped;
      out.Write("Skip()");
      panic := None;
    } else if range == Exactly(1) {
      assert RepetitionDrawing(Range(range)) == Bare;
      panic := Descent(sub, t, out);
    } else {
      panic := DescentNoted(range, sub, t, out);
    }
  }

  /** Other counted bounds: a commented loop when they have a note, else a plain rail, else unreachable. */
  method DescentNoted(range: RepetitionRange, sub: Hir, t: Shorthands, out: Output) returns (panic: Option<Panic>)
    requires range != Exactly(0) && range != Exactly(1)
    modifies out
    ensures out.text == old(out.text) + Drawn(RepetitionDrawing(Range(range)), Descend(sub, t)).text
    ensures panic == Drawn(RepetitionDrawing(Range(range)), Descend(sub, t)).panic
    decreases sub, 3
  {
    NotedDrawing(range);
    var msg := CountNote(range);
    match msg
    case Some(repeat) =>
      var q := PyStr(repeat);
      panic := Wrap("OneOrMore(", sub, ", Comment(" + q + "))", t, out);
    case None =>
      match StandardRail(range)
      case Some(rail) =>
        panic := StdRepeat(rail, sub, t, out);
      case None =>
        panic := Some(UnreachableBounds(range));
  }

  /** The drawing of counted bounds other than `{0}` and `{1}`, by the note and then the rail. */
  lemma NotedDrawing(range: RepetitionRange)
    requires range != Exactly(0) && range != Exactly(1)
    ensures CountNote(range).Some? ==> RepetitionDrawing(Range(range)) == Counted(CountNote(range).value)
    ensures CountNote(range).None? && StandardRail(range).Some? ==> RepetitionDrawing(Range(range)) == Railed(StandardRail(range).value)
    ensures CountNote(range).None? && StandardRail(range).None? ==> RepetitionDrawing(Range(range)) == Unreachable(range)
  {
  }

  /** `std_repeat`: the rail's call around the child. */
  method StdRepeat(rail: Rail, sub: Hir, t: Shorthands, out: Output) returns (panic: Option<Panic>)
    modifies out
    ensures out.text == old(out.text) + Wrapped(RailOpen(rail), Descend(sub, t), ")").text
    ensures panic == Wrapped(RailOpen(rail), Descend(sub, t), ")").panic
    decreases sub, 2
  {
    var open := match rail
      case OneOrMoreRail => "OneOrMore("
      case ZeroOrMoreRail => "ZeroOrMore("
      case OptionalRail => "Optional(";
    panic := Wrap(open, sub, ")", t, out);
  }

  /** The child between an opening and, unless it panicked, a closing. */
  method Wrap(open: string, sub: Hir, close: string, t: Shorthands, out: Output) returns (panic: Option<Panic>)
    modifies out
    ensures out.text == old(out.text) + Wrapped(open, Descend(sub, t), close).text
    ensures panic == Wrapped(open, Descend(sub, t), close).panic
    decreases sub, 1
  {
    out.Write(open);
    panic := Descent(sub, t, out);
    if panic.None? {
      out.Write(close);
    }
    WrappedWritten(old(out.text), open, Descend(sub, t), close, out.text);
  }

  /** Writing the opening, the child, and the closing after it unless it panicked, writes `Wrapped`. */
  lemma WrappedWritten(before: string, open: string, inner: Trace, close: string, after: string)
    requires inner.panic.None? ==> after == before + open + inner.text + close
    requires inner.panic.Some? ==> after == before + open + inner.text
    ensures after == before + Wrapped(open, inner, close).text
  {
    ConcatAssoc(before, open, inner.text);
    if inner.panic.None? {
      ConcatAssoc(before, open + inner.text, close);
    }
  }

  /** A Unicode class: its shorthand, else its complement, else its first ranges. */
  method EmitClass(cls: RangeSet, t: Shorthands, out: Output)
    modifies out
    ensures out.text == old(out.text) + ClassText(ClassPolicy(cls, t), cls)
  {
    ClassPolicySpec(cls, t);
    var c := CharClass(cls, t);
    if c.Some? {
      var q := PyStr(c.value);
      out.Write(q);
    } else {
      var e := IsEverythingExcept(cls);
      if e.Some? {
        out.Write(ComplementLiteral(e.value));
      } else {
        EmitRangeChoice(cls, out);
      }
    }
  }

  /** The fallback: a choice among the first twenty ranges, then the ellipsis if more remain. */
  method EmitRangeChoice(cls: RangeSet, out: Output)
    modifies out
    ensures out.text == old(out.text) + RangeChoice(cls)
  {
    out.Write("Choice(0, ");
    ghost var start := out.text;
    for i := 0 to |cls|
      invariant i <= MaxEntries
      invariant out.text == start + Entries(cls[..i])
    {
      if i >= MaxEntries {
        out.Write(Ellipsis);
        break;
      }
      var range := cls[i];
      if range.0 == range.1 {
        out.Write(CharLiteral(range.0) + ", ");
      } else {
        out.Write(DataQuoted([range.0, '-', range.1]) + ", ");
      }
      EntriesStep(cls, i);
      ConcatAssoc(start, Entries(cls[..i]), RangeEntry(cls[i]) + ", ");
    }
    out.Write(")");
    ChoiceWritten(old(out.text), cls, out.text);
  }

  /** What the loop above leaves written is the fallback's text. */
  lemma ChoiceWritten(before: string, cls: RangeSet, after: string)
    requires |cls| <= MaxEntries ==> after == before + "Choice(0, " + Entries(cls[..|cls|]) + ")"
    requires |cls| > MaxEntries ==> after == before + "Choice(0, " + Entries(cls[..MaxEntries]) + Ellipsis + ")"
    ensures after == before + RangeChoice(cls)
  {
    assert cls[..|cls|] == cls;
    var e := if |cls| <= MaxEntries then Entries(cls) else Entries(cls[..MaxEntries]) + Ellipsis;
    ConcatAssoc(before, "Choice(0, ", e);
    ConcatAssoc(before, "Choice(0, " + e, ")");
    if |cls| > MaxEntries {
      ConcatAssoc(before + "Choice(0, ", Entries(cls[..MaxEntries]), Ellipsis);
      ConcatAssoc("Choice(0, ", Entries(cls[..MaxEntries]), Ellipsis);
    }
  }

  lemma EntriesStep(rs: seq<Range>, i: nat)
    requires i < |rs|
    ensures Entries(rs[..i + 1]) == Entries(rs[..i]) + (RangeEntry(rs[i]) + ", ")
  {
    assert rs[..i + 1][..i] == rs[..i];
  }
}
