/**
 * The three ways a Unicode class is drawn: as a shorthand (`char_class`),
 * as the explicit list of what it leaves out (`is_everything_except`), or
 * as a choice among its first twenty ranges.
 */
module Classes {
  import opened Wrappers
  import opened Text
  import opened RangeSets
  import opened Literals

  /**
   * The canonical classes of the seven shorthands, as the regex parser
   * builds them from `\d`, `\w`, `\s`, `\S`, `\W`, `\D` and `.`. They come
   * from Unicode tables, so they are parameters here.
   */
  datatype Shorthands = Shorthands(
    digit: RangeSet, word: RangeSet, space: RangeSet,
    nonSpace: RangeSet, nonWord: RangeSet, nonDigit: RangeSet, any: RangeSet)

  /** The shorthands in the order `char_class` tries them, each with its class. */
  function Candidates(t: Shorthands): (cs: seq<(string, RangeSet)>)
    ensures |cs| == 7
  {
    [("\\d", t.digit), ("\\w", t.word), ("\\s", t.space), ("\\S", t.nonSpace),
     ("\\W", t.nonWord), ("\\D", t.nonDigit), (".", t.any)]
  }

  /** The test `char_class` makes: the symmetric difference has no range left. */
  predicate SameClass(a: RangeSet, b: RangeSet)
  {
    SymmetricDifference(a, b) == {}
  }

  /** The first candidate whose class is the same as `cls`. */
  function FirstShorthand(cls: RangeSet, cands: seq<(string, RangeSet)>): (r: Option<string>)
    ensures r.None? <==> forall i :: 0 <= i < |cands| ==> !SameClass(cls, cands[i].1)
    ensures r.Some? ==> exists i :: 0 <= i < |cands| && r.value == cands[i].0 && SameClass(cls, cands[i].1)
                                    && forall j :: 0 <= j < i ==> !SameClass(cls, cands[j].1)
  {
    if cands == [] then None
    else if SameClass(cls, cands[0].1) then Some(cands[0].0)
    else
      FirstShorthandShift(cls, cands);
      FirstShorthand(cls, cands[1..])
  }

  /** Skipping a first candidate that does not match shifts the match index by one. */
  lemma FirstShorthandShift(cls: RangeSet, cands: seq<(string, RangeSet)>)
    requires cands != [] && !SameClass(cls, cands[0].1)
    ensures (forall i :: 0 <= i < |cands[1..]| ==> !SameClass(cls, cands[1..][i].1))
            <==> (forall i :: 0 <= i < |cands| ==> !SameClass(cls, cands[i].1))
    ensures forall i :: 0 <= i < |cands[1..]| ==> cands[1..][i] == cands[i + 1]
  {
    assert forall i :: 0 <= i < |cands[1..]| ==> cands[1..][i] == cands[i + 1];
  }

  /**
   * `char_class`: the first of `\d \w \s \S \W \D .` whose canonical class
   * has the same members as `cls`, or None when no shorthand fits.
   */
  function CharClass(cls: RangeSet, t: Shorthands): (r: Option<string>)
    ensures r.None? <==> forall i :: 0 <= i < 7 ==> Members(cls) != Members(Candidates(t)[i].1)
    ensures r.Some? ==> exists i :: 0 <= i < 7 && r.value == Candidates(t)[i].0
                          && Members(cls) == Members(Candidates(t)[i].1)
                          && forall j :: 0 <= j < i ==> Members(cls) != Members(Candidates(t)[j].1)
  {
    FirstShorthand(cls, Candidates(t))
  }

  /** The byte length past which `is_everything_except` gives up. */
  const MaxLen := 48

  /** `[^` followed by every scalar value `cls` leaves out, in ascending order. */
  function ComplementText(cls: RangeSet): string
  {
    "[^" + Chars(Negate(cls))
  }

  /**
   * `is_everything_except` as the value it computes: the bracketed list of
   * everything outside `cls` when that list, before its closing bracket,
   * fits in 48 bytes of UTF-8; None otherwise.
   */
  function EverythingExcept(cls: RangeSet): (r: Option<string>)
    ensures r.Some? <==> ByteLen(ComplementText(cls)) <= MaxLen
    ensures r.Some? ==> |r.value| >= 3 && r.value[..2] == "[^" && r.value[|r.value| - 1] == ']'
    ensures r.Some? ==> ByteLen(r.value) <= MaxLen + 1
    ensures r.Some? ==> var listed := r.value[2..|r.value| - 1];
                        Ascending(listed) && forall c: char :: c in listed <==> c !in Members(cls)
  {
    var s := ComplementText(cls);
    if ByteLen(s) <= MaxLen then
      ByteLenConcat(s, "]");
      CharsSpec(Negate(cls));
      assert (s + "]")[2..|s|] == Chars(Negate(cls));
      Some(s + "]")
    else
      None
  }

  /** A longer range yields its shorter run of scalar values first. */
  lemma {:induction false} ScalarsPrefix(lo: int, mid: int, hi: int)
    requires mid <= hi
    ensures Scalars(lo, mid) <= Scalars(lo, hi)
    decreases hi - mid
  {
    if mid < hi && lo <= hi {
      if IsSurrogate(hi) {
        if mid <= 0xD7FF {
          ScalarsPrefix(lo, mid, 0xD7FF);
        } else {
          assert Scalars(lo, mid) == Scalars(lo, 0xD7FF);
        }
      } else {
        ScalarsPrefix(lo, mid, hi - 1);
      }
    }
  }

  /** The characters of the first `k` ranges come first among those of all of them. */
  lemma {:induction false} CharsPrefix(rs: seq<Range>, k: nat)
    requires k <= |rs|
    ensures CharsBefore(rs, k) <= Chars(rs)
    decreases |rs| - k
  {
    if k < |rs| {
      CharsPrefix(rs, k + 1);
    }
  }

  /** Everything appended up to code point `n` of range `i` starts the full listing. */
  lemma WalkedPrefix(rs: seq<Range>, i: nat, n: int)
    requires i < |rs| && n <= rs[i].1 as int
    ensures CharsBefore(rs, i) + Scalars(rs[i].0 as int, n) <= Chars(rs)
  {
    ScalarsPrefix(rs[i].0 as int, n, rs[i].1 as int);
    CharsPrefix(rs, i + 1);
  }

  /**
   * `is_everything_except`: negates the class, lists what the negation
   * holds and closes the bracket, or gives up once the text passes 48 bytes.
   */
  method IsEverythingExcept(cls: RangeSet) returns (r: Option<string>)
    ensures r == EverythingExcept(cls)
  {
    var nc := Negate(cls);
    var s, full := ListRanges(nc);
    if full {
      return None;
    }
    s := s + "]";
    return Some(s);
  }

  /**
   * The outer loop of `is_everything_except`: appends the characters of
   * each range in turn to `[^`, stopping once the text passes 48 bytes.
   */
  method ListRanges(rs: seq<Range>) returns (s: string, full: bool)
    requires forall i :: 0 <= i < |rs| ==> rs[i].0 <= rs[i].1
    ensures !full ==> s == "[^" + Chars(rs) && ByteLen(s) <= MaxLen
    ensures full ==> ByteLen("[^" + Chars(rs)) > MaxLen
  {
    s := "[^";
    for i := 0 to |rs|
      invariant s == "[^" + CharsBefore(rs, i)
      invariant ByteLen(s) <= MaxLen
    {
      ghost var stop;
      s, full, stop := PushRange(s, rs[i].0, rs[i].1);
      if full {
        PastTheBound(rs, i, stop, s);
        return;
      }
      ConcatAssoc("[^", CharsBefore(rs, i), Scalars(rs[i].0 as int, rs[i].1 as int));
    }
    full := false;
  }

  /**
   * The inner loop of `is_everything_except`: pushes the characters of one
   * range in ascending order and reports whether the text passed 48 bytes,
   * and at which character.
   */
  method PushRange(start: string, a: char, b: char) returns (s: string, full: bool, ghost stop: int)
    requires a <= b && ByteLen(start) <= MaxLen
    ensures !full ==> s == start + Scalars(a as int, b as int) && ByteLen(s) <= MaxLen
    ensures full ==> a as int <= stop <= b as int && s == start + Scalars(a as int, stop) && ByteLen(s) > MaxLen
    ensures full ==> ByteLen(start + Scalars(a as int, stop - 1)) <= MaxLen
  {
    s := start;
    for n := a as int to b as int + 1
      invariant s == start + Scalars(a as int, n - 1)
      invariant ByteLen(s) <= MaxLen
    {
      if IsScalar(n) {
        PushStep(start, a as int, n, s);
        s := s + [n as char];
        if ByteLen(s) > MaxLen {
          return s, true, n;
        }
      } else {
        ScalarsSkip(a as int, n);
      }
    }
    return s, false, b as int;
  }

  /** Pushing scalar value `n` extends the listing of `[a, n - 1]` to that of `[a, n]`. */
  lemma PushStep(start: string, a: int, n: int, s: string)
    requires a <= n && IsScalar(n) && s == start + Scalars(a, n - 1)
    ensures s + [n as char] == start + Scalars(a, n)
  {
    ConcatAssoc(start, Scalars(a, n - 1), [n as char]);
  }

  /** Once a prefix of the listing passes 48 bytes, the whole listing does too. */
  lemma PastTheBound(rs: seq<Range>, i: nat, n: int, s: string)
    requires i < |rs| && n <= rs[i].1 as int
    requires s == "[^" + CharsBefore(rs, i) + Scalars(rs[i].0 as int, n)
    ensures ByteLen("[^" + Chars(rs)) >= ByteLen(s)
  {
    ConcatAssoc("[^", CharsBefore(rs, i), Scalars(rs[i].0 as int, n));
    WalkedPrefix(rs, i, n);
    ByteLenPrefix(s, "[^" + Chars(rs));
  }

  /** What the enumeration as written ends in. */
  datatype Enumeration = Listed(text: string) | TooLong | Panicked

  /**
   * `is_everything_except` as written: walks every integer from a range's
   * start to its end and unwraps `char::from_u32` on each, which panics on
   * a surrogate code point.
   */
  function EnumerateAsWritten(cls: RangeSet): Enumeration
  {
    var nc := Negate(cls);
    WalkAsWritten("[^", nc, if nc == [] then 0 else nc[0].0 as int)
  }

  function WalkAsWritten(s: string, rs: seq<Range>, n: int): Enumeration
    decreases |rs|, if rs == [] || n > rs[0].1 as int then 0 else rs[0].1 as int + 1 - n
  {
    if rs == [] then Listed(s + "]")
    else if n > rs[0].1 as int then WalkAsWritten(s, rs[1..], if |rs| > 1 then rs[1].0 as int else 0)
    else if !IsScalar(n) then Panicked
    else
      var t := s + [n as char];
      if ByteLen(t) > MaxLen then TooLong else WalkAsWritten(t, rs, n + 1)
  }

  /**
   * The walk as written agrees with the corrected one wherever it does not
   * panic: it gives up exactly when the corrected listing passes 48 bytes
   * and otherwise lists the same text. It panics only on a class whose
   * complement has a range spanning the surrogate block.
   */
  lemma AsWrittenAgrees(cls: RangeSet)
    ensures EnumerateAsWritten(cls) == Panicked ==>
              exists k :: 0 <= k < |Negate(cls)| && Negate(cls)[k].0 as int < 0xD800 && 0xDFFF < Negate(cls)[k].1 as int
    ensures EnumerateAsWritten(cls) == TooLong ==> EverythingExcept(cls) == None
    ensures EnumerateAsWritten(cls).Listed? ==> EverythingExcept(cls) == Some(EnumerateAsWritten(cls).text)
  {
    var nc := Negate(cls);
    ByteLenSnoc("[", '^');
    ByteLenSnoc("", '[');
    assert "[" == "" + ['['] && "[^" == "[" + ['^'];
    var start := if nc == [] then 0 else nc[0].0 as int;
    WalkAgrees("[^", nc, start);
    if nc != [] {
      CharsCons(nc);
    }
    assert Unwalked(nc, start) == Chars(nc);
  }

  /** The scalar values of `rs` the walk has still to reach from code point `n`. */
  function Unwalked(rs: seq<Range>, n: int): seq<char>
  {
    if rs == [] then [] else Scalars(n, rs[0].1 as int) + Chars(rs[1..])
  }

  /**
   * What ending in `w` means for a walk from text `s` at code point `n` of
   * `rs`: giving up means the rest overflows, a listing is the rest closed
   * by `]`, and a panic needs a range across the surrogate block.
   */
  predicate WalkEnds(s: string, rs: seq<Range>, n: int, w: Enumeration)
  {
    && (w == TooLong ==> ByteLen(s + Unwalked(rs, n)) > MaxLen)
    && (w.Listed? ==> w.text == s + Unwalked(rs, n) + "]" && ByteLen(s + Unwalked(rs, n)) <= MaxLen)
    && (w == Panicked ==> exists k :: 0 <= k < |rs| && rs[k].0 as int < 0xD800 && 0xDFFF < rs[k].1 as int)
  }

  lemma {:induction false} WalkAgrees(s: string, rs: seq<Range>, n: int)
    requires ByteLen(s) <= MaxLen
    requires forall i :: 0 <= i < |rs| ==> rs[i].0 <= rs[i].1
    requires rs != [] ==> rs[0].0 as int <= n
    ensures WalkEnds(s, rs, n, WalkAsWritten(s, rs, n))
    decreases |rs|, if rs == [] || n > rs[0].1 as int then 0 else rs[0].1 as int + 1 - n
  {
    if rs == [] {
      assert WalkAsWritten(s, rs, n) == Listed(s + "]");
      assert s + Unwalked(rs, n) == s;
    } else if n > rs[0].1 as int {
      var next := if |rs| > 1 then rs[1].0 as int else 0;
      assert WalkAsWritten(s, rs, n) == WalkAsWritten(s, rs[1..], next);
      assert forall i :: 0 <= i < |rs[1..]| ==> rs[1..][i] == rs[i + 1];
      WalkAgrees(s, rs[1..], next);
      SkipEnds(s, rs, n, next, WalkAsWritten(s, rs[1..], next));
    } else if !IsScalar(n) {
      assert WalkAsWritten(s, rs, n) == Panicked;
      PanicEnds(s, rs, n);
    } else if ByteLen(s + [n as char]) > MaxLen {
      assert WalkAsWritten(s, rs, n) == TooLong;
      PushOverflows(s, rs, n);
    } else {
      assert WalkAsWritten(s, rs, n) == WalkAsWritten(s + [n as char], rs, n + 1);
      WalkAgrees(s + [n as char], rs, n + 1);
      PushEnds(s, rs, n, WalkAsWritten(s + [n as char], rs, n + 1));
    }
  }

  /** A code point inside a range that is not a scalar value is a surrogate, so the range spans the block. */
  lemma PanicEnds(s: string, rs: seq<Range>, n: int)
    requires rs != [] && rs[0].0 as int <= n <= rs[0].1 as int && !IsScalar(n)
    ensures WalkEnds(s, rs, n, Panicked)
  {
    assert rs[0].0 as int < 0xD800 && 0xDFFF < rs[0].1 as int;
  }

  /** Past the end of the first range, the walk goes on with the next one. */
  lemma SkipEnds(s: string, rs: seq<Range>, n: int, next: int, w: Enumeration)
    requires rs != [] && n > rs[0].1 as int
    requires next == if |rs| > 1 then rs[1].0 as int else 0
    requires WalkEnds(s, rs[1..], next, w)
    ensures WalkEnds(s, rs, n, w)
  {
    assert Unwalked(rs, n) == Chars(rs[1..]);
    if |rs| > 1 {
      CharsCons(rs[1..]);
    }
    if w == Panicked {
      var k :| 0 <= k < |rs[1..]| && rs[1..][k].0 as int < 0xD800 && 0xDFFF < rs[1..][k].1 as int;
      assert rs[k + 1] == rs[1..][k];
    }
  }

  /** Pushing the scalar value `n` moves it from what is left to what is written. */
  lemma PushMoves(s: string, rs: seq<Range>, n: int)
    requires rs != [] && IsScalar(n) && n <= rs[0].1 as int
    ensures s + Unwalked(rs, n) == (s + [n as char]) + Unwalked(rs, n + 1)
  {
    var hi := rs[0].1 as int;
    ScalarsCons(n, hi);
    ConcatAssoc([n as char], Scalars(n + 1, hi), Chars(rs[1..]));
    assert Unwalked(rs, n) == [n as char] + Unwalked(rs, n + 1);
    ConcatAssoc(s, [n as char], Unwalked(rs, n + 1));
  }

  lemma PushOverflows(s: string, rs: seq<Range>, n: int)
    requires rs != [] && IsScalar(n) && n <= rs[0].1 as int && ByteLen(s + [n as char]) > MaxLen
    ensures ByteLen(s + Unwalked(rs, n)) > MaxLen
  {
    PushMoves(s, rs, n);
    ByteLenPrefix(s + [n as char], s + Unwalked(rs, n));
  }

  lemma PushEnds(s: string, rs: seq<Range>, n: int, w: Enumeration)
    requires rs != [] && IsScalar(n) && n <= rs[0].1 as int
    requires WalkEnds(s + [n as char], rs, n + 1, w)
    ensures WalkEnds(s, rs, n, w)
  {
    PushMoves(s, rs, n);
  }

  /**
   * The class the parser builds for `[^\x{D7FF}-\x{E000}]` leaves out
   * exactly U+D7FF and U+E000, one range across the surrogate block. As
   * written, the walk reaches U+D800 after five bytes and panics; stepping
   * over surrogates lists the two characters.
   */
  lemma SurrogateGapPanics()
    ensures var cls: RangeSet := [('\0', '\U{D7FE}'), ('\U{E001}', '\U{10FFFF}')];
            && Negate(cls) == [('\U{D7FF}', '\U{E000}')]
            && EnumerateAsWritten(cls) == Panicked
            && EverythingExcept(cls) == Some("[^\U{D7FF}\U{E000}]")
  {
    var cls: RangeSet := [('\0', '\U{D7FE}'), ('\U{E001}', '\U{10FFFF}')];
    SurrogateGap(cls);
    SurrogateWalk();
    SurrogateListing(cls);
  }

  /** The complement of the example class is the one range U+D7FF..U+E000. */
  lemma SurrogateGap(cls: RangeSet)
    requires cls == [('\0', '\U{D7FE}'), ('\U{E001}', '\U{10FFFF}')]
    ensures Negate(cls) == [('\U{D7FF}', '\U{E000}')]
  {
    UpperGap();
    assert cls[1..] == [('\U{E001}', '\U{10FFFF}')];
    assert Span(0, -1) == [];
  }

  /** Past U+E000 the example class leaves nothing out. */
  lemma UpperGap()
    ensures Gaps(0xD7FF, [('\U{E001}', '\U{10FFFF}')]) == [('\U{D7FF}', '\U{E000}')]
  {
    assert Span(0x110000, MaxScalar) == [];
    assert Gaps(0x110000, []) == [];
    assert Span(0xD7FF, 0xE000) == [('\U{D7FF}', '\U{E000}')];
  }

  /** The walk as written pushes U+D7FF, then meets U+D800 and panics. */
  lemma SurrogateWalk()
    ensures WalkAsWritten("[^", [('\U{D7FF}', '\U{E000}')], 0xD7FF) == Panicked
  {
    var gap := [('\U{D7FF}', '\U{E000}')];
    var first := "[^" + ['\U{D7FF}'];
    ByteLenSnoc("[^", '\U{D7FF}');
    ByteLenSnoc("[", '^');
    ByteLenSnoc("", '[');
    assert "[" == "" + ['['] && "[^" == "[" + ['^'];
    assert ByteLen(first) == 5;
    assert WalkAsWritten(first, gap, 0xD800) == Panicked;
  }

  /** Stepping over the surrogates lists U+D7FF and U+E000, eight bytes in all. */
  lemma SurrogateListing(cls: RangeSet)
    requires Negate(cls) == [('\U{D7FF}', '\U{E000}')]
    ensures EverythingExcept(cls) == Some("[^\U{D7FF}\U{E000}]")
  {
    GapChars();
    GapBytes();
    var listed := "[^\U{D7FF}\U{E000}";
    assert ComplementText(cls) == listed;
    assert ByteLen(listed) <= MaxLen;
    assert listed + "]" == "[^\U{D7FF}\U{E000}]";
  }

  lemma GapChars()
    ensures Chars([('\U{D7FF}', '\U{E000}')]) == ['\U{D7FF}', '\U{E000}']
  {
    var gap := [('\U{D7FF}', '\U{E000}')];
    assert Scalars(0xD7FF, 0xD7FE) == [];
    assert Scalars(0xD7FF, 0xD7FF) == ['\U{D7FF}'];
    assert Scalars(0xD7FF, 0xDFFF) == ['\U{D7FF}'];
    assert Scalars(0xD7FF, 0xE000) == ['\U{D7FF}', '\U{E000}'];
    assert CharsBefore(gap, 1) == CharsBefore(gap, 0) + Scalars(0xD7FF, 0xE000);
  }

  lemma GapBytes()
    ensures ByteLen("[^\U{D7FF}\U{E000}") == 8
  {
    ByteLenSnoc("[^\U{D7FF}", '\U{E000}');
    ByteLenSnoc("[^", '\U{D7FF}');
    ByteLenSnoc("[", '^');
    ByteLenSnoc("", '[');
    assert "[" == "" + ['['] && "[^" == "[" + ['^'];
    assert "[^\U{D7FF}" == "[^" + ['\U{D7FF}'];
    assert "[^\U{D7FF}\U{E000}" == "[^\U{D7FF}" + ['\U{E000}'];
  }

  /**
   * The complement's literal as evidently intended: quoted with its
   * backslashes escaped, so Python reads back the bracketed text that
   * `is_everything_except` built. Where the text has no backslash it is
   * the literal `py_str` writes.
   */
  function ComplementLiteral(c: string): (r: string)
    ensures (forall i :: 0 <= i < |c| ==> !Hexed(c[i])) ==> PyRead(r) == Value(c)
    ensures Unslashed(c) ==> r == Quoted(c)
  {
    if forall i :: 0 <= i < |c| ==> !Hexed(c[i]) then
      DataRoundTrip(c);
      DataQuoted(c)
    else
      DataQuoted(c)
  }

  /**
   * The class of every character but `\` and `x` (the pattern `[^\\x]`)
   * leaves out exactly those two, which fit the bound, so it is drawn by its
   * complement `[^\x]`. `py_str` copies the backslash, and Python refuses the
   * literal `'[^\x]'` as a truncated `\x` escape; the corrected literal reads
   * back.
   */
  lemma ComplementEscapeBreaks()
    ensures var cls: RangeSet := [('\0', '['), (']', 'w'), ('y', '\U{10FFFF}')];
            && EverythingExcept(cls) == Some("[^\\x]")
            && PyRead(Quoted("[^\\x]")) == Invalid
            && PyRead(ComplementLiteral("[^\\x]")) == Value("[^\\x]")
  {
    var cls: RangeSet := [('\0', '['), (']', 'w'), ('y', '\U{10FFFF}')];
    SlashXGap(cls);
    SlashXListing(cls);
    SlashXRead();
    SlashXData();
  }

  lemma SlashXGap(cls: RangeSet)
    requires cls == [('\0', '['), (']', 'w'), ('y', '\U{10FFFF}')]
    ensures Negate(cls) == [('\\', '\\'), ('x', 'x')]
  {
    GapsStep(0, cls);
    assert cls[1..] == [(']', 'w'), ('y', '\U{10FFFF}')];
    SlashXMiddle();
    SpanEmpty(0, -1);
  }

  lemma SlashXMiddle()
    ensures Gaps(0x5C, [(']', 'w'), ('y', '\U{10FFFF}')]) == [('\\', '\\'), ('x', 'x')]
  {
    var rs: RangeSet := [(']', 'w'), ('y', '\U{10FFFF}')];
    var up: RangeSet := [('y', '\U{10FFFF}')];
    assert rs[0].0 as int - 1 == 0x5C && rs[0].1 as int + 1 == 0x78;
    assert rs[1..] == up;
    GapsStep(0x5C, rs);
    SlashXUpper();
    SpanPoint(0x5C);
    assert [('\\', '\\')] + [('x', 'x')] == [('\\', '\\'), ('x', 'x')];
  }

  lemma SlashXUpper()
    ensures Gaps(0x78, [('y', '\U{10FFFF}')]) == [('x', 'x')]
  {
    var rs := [('y', '\U{10FFFF}')];
    GapsStep(0x78, rs);
    assert rs[1..] == [];
    SpanEmpty(0x110000, MaxScalar);
    SpanPoint(0x78);
  }

  /** `Gaps` of a non-empty list: the gap below its first range, then the gaps above it. */
  lemma GapsStep(lo: int, rs: RangeSet)
    requires 0 <= lo <= MaxScalar + 1 && rs != [] && lo <= rs[0].0 as int
    ensures Valid(rs[1..])
    ensures Gaps(lo, rs) == Span(lo, rs[0].0 as int - 1) + Gaps(rs[0].1 as int + 1, rs[1..])
  {
    assert forall i :: 0 <= i < |rs[1..]| ==> rs[1..][i] == rs[i + 1];
  }

  lemma SpanPoint(n: int)
    requires IsScalar(n)
    ensures Span(n, n) == [(n as char, n as char)]
  {
  }

  lemma SpanEmpty(lo: int, hi: int)
    requires 0 <= lo && hi <= MaxScalar && hi < lo && !IsSurrogate(lo) && !IsSurrogate(hi)
    ensures Span(lo, hi) == []
  {
  }

  lemma SlashXListing(cls: RangeSet)
    requires Negate(cls) == [('\\', '\\'), ('x', 'x')]
    ensures EverythingExcept(cls) == Some("[^\\x]")
  {
    SlashXChars();
    SlashXBytes();
    assert ComplementText(cls) == "[^\\x";
    assert "[^\\x" + "]" == "[^\\x]";
  }

  lemma SlashXChars()
    ensures Chars([('\\', '\\'), ('x', 'x')]) == "\\x"
  {
    var rs := [('\\', '\\'), ('x', 'x')];
    assert Scalars(0x5C, 0x5C) == ['\\'] by { assert Scalars(0x5C, 0x5B) == []; }
    assert Scalars(0x78, 0x78) == ['x'] by { assert Scalars(0x78, 0x77) == []; }
    assert CharsBefore(rs, 1) == ['\\'];
  }

  lemma SlashXBytes()
    ensures ByteLen("[^\\x") == 4
  {
    ByteLenSnoc("[^\\", 'x');
    ByteLenSnoc("[^", '\\');
    ByteLenSnoc("[", '^');
    ByteLenSnoc("", '[');
    assert "[" == "" + ['['] && "[^" == "[" + ['^'];
    assert "[^\\" == "[^" + ['\\'] && "[^\\x" == "[^\\" + ['x'];
  }

  /** `py_str` copies `[^\\x]`, and the copied `\\x` is a truncated escape. */
  lemma SlashXRead()
    ensures PyRead(Quoted("[^\\x]")) == Invalid
  {
    var c := "[^\\x]";
    assert Verbatim(c) by {
      assert c == ['[', '^', '\\', 'x', ']'];
    }
    QuotedPlain(c);
    var tail := "\\x]'";
    assert ReadBody(tail) == Invalid by {
      assert Truncated(tail);
    }
    ReadsOver('^', tail);
    ReadsOver('[', "^" + tail);
    assert ("'" + c + "'")[1..] == "[" + ("^" + tail);
  }

  /** A plain character in front of a body that cannot be read leaves it unreadable. */
  lemma ReadsOver(c: char, rest: string)
    requires c != '\'' && c != '\\' && !LineBreak(c) && c != '\0' && ReadBody(rest) == Invalid
    ensures ReadBody([c] + rest) == Invalid
  {
    assert ([c] + rest)[1..] == rest;
  }

  lemma SlashXData()
    ensures PyRead(ComplementLiteral("[^\\x]")) == Value("[^\\x]")
  {
    var c := "[^\\x]";
    assert c == ['[', '^', '\\', 'x', ']'];
    assert forall i :: 0 <= i < |c| ==> !Hexed(c[i]);
  }

  /** How many ranges the fallback lists before giving up with an ellipsis. */
  const MaxEntries := 20

  /** `{:?}` of `"..."`: the ellipsis with its double quotes. */
  const Ellipsis := "\"...\""

  /**
   * One listed range as written: a single character through `py_char_str`,
   * a wider range as `start-end` through `py_str`.
   */
  function RangeEntryAsWritten(r: Range): (e: string)
    ensures r.0 != r.1 && r.1 == '\\' && !Hexed(r.0) ==> PyRead(e) == Invalid
  {
    if r.0 == r.1 then PyCharStr(r.0)
    else if r.1 == '\\' && !Hexed(r.0) then
      EndSlashBreaks(r.0);
      Quoted([r.0, '-', r.1])
    else Quoted([r.0, '-', r.1])
  }

  /**
   * A range ending in a backslash: `py_str` copies the backslash, which then
   * escapes the closing quote, so the literal never ends.
   */
  lemma EndSlashBreaks(a: char)
    requires !Hexed(a)
    ensures PyRead(Quoted([a, '-', '\\'])) == Invalid
  {
    EndSlashText(a);
    var tail := "-\\'";
    assert ReadBody(tail) == Invalid by {
      assert tail[1..] == "\\'" && tail[1..][2..] == [];
    }
    if a == '\\' {
      assert ReadBody(['\\'] + tail) == Invalid by {
        assert (['\\'] + tail)[2..] == tail[1..];
      }
    } else {
      ReadsEscape(a, tail);
    }
  }

  /** The text `py_str` writes for a range ending in a backslash. */
  lemma EndSlashText(a: char)
    requires !Hexed(a)
    ensures Quoted([a, '-', '\\'])[1..] == EscapeChar(a) + "-\\'"
  {
    EscapedCons(a, "-\\");
    assert Escaped("-\\") == "-\\" by {
      EscapedPlain("-\\");
    }
    assert [a] + "-\\" == [a, '-', '\\'];
  }

  /**
   * One listed range as evidently intended: a single character through the
   * corrected `py_char_str`, a wider range quoted with its backslashes
   * escaped, so that Python reads every entry back. It differs from the
   * entry as written only for a line break or NUL on its own and for a
   * range with a backslash end.
   */
  function RangeEntry(r: Range): (e: string)
    ensures r.0 == r.1 && !LineBreak(r.0) && r.0 != '\0' ==> e == RangeEntryAsWritten(r)
    ensures r.0 != r.1 && r.0 != '\\' && r.1 != '\\' ==> e == RangeEntryAsWritten(r)
  {
    if r.0 == r.1 then CharLiteral(r.0) else DataQuoted([r.0, '-', r.1])
  }

  /**
   * An entry reads back as what it lists: a single character as that
   * character, a wider range as its two ends around a dash, as long as
   * neither end is one that `py_str` writes in hexadecimal.
   */
  lemma RangeEntryReadsBack(r: Range)
    ensures r.0 == r.1 ==> PyRead(RangeEntry(r)) == Value([r.0])
    ensures r.0 != r.1 && !Hexed(r.0) && !Hexed(r.1) ==> PyRead(RangeEntry(r)) == Value([r.0, '-', r.1])
  {
    if r.0 != r.1 && !Hexed(r.0) && !Hexed(r.1) {
      DataRoundTrip([r.0, '-', r.1]);
    }
  }

  /** The range `A` to `\\`: as written its entry is not a literal; corrected, it reads back. */
  lemma BackslashEndBreaks()
    ensures PyRead(RangeEntryAsWritten(('A', '\\'))) == Invalid
    ensures PyRead(RangeEntry(('A', '\\'))) == Value("A-\\")
  {
    RangeEntryReadsBack(('A', '\\'));
  }

  /** The entries of `rs` in order, each followed by `, `. */
  function Entries(rs: seq<Range>): string
  {
    if rs == [] then "" else Entries(rs[..|rs| - 1]) + RangeEntry(rs[|rs| - 1]) + ", "
  }

  /** The fallback drawing: a choice among the first twenty ranges, then an ellipsis if more remain. */
  function RangeChoice(cls: RangeSet): string
  {
    if |cls| <= MaxEntries then "Choice(0, " + Entries(cls) + ")"
    else "Choice(0, " + Entries(cls[..MaxEntries]) + Ellipsis + ")"
  }
}
