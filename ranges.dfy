/**
 * Sets of Unicode scalar values held as ranges, the way `ClassUnicode`
 * holds them: inclusive `(start, end)` pairs, ascending and disjoint.
 * Dafny's `char` is a Unicode scalar value, as Rust's `char` is, so a
 * range's ends can never be surrogates; the code points between them can.
 */
module RangeSets {

  /** An inclusive range of scalar values, a `ClassUnicodeRange`. */
  type Range = (char, char)

  const MaxScalar := 0x10FFFF

  predicate IsSurrogate(n: int)
  {
    0xD800 <= n <= 0xDFFF
  }

  /** Code points that `char::from_u32` accepts. */
  predicate IsScalar(n: int)
  {
    0 <= n <= MaxScalar && !IsSurrogate(n)
  }

  /** The class invariant: non-empty ranges, ascending and pairwise disjoint. */
  predicate Valid(rs: seq<Range>)
  {
    && (forall i :: 0 <= i < |rs| ==> rs[i].0 <= rs[i].1)
    && (forall i, j :: 0 <= i < j < |rs| ==> rs[i].1 < rs[j].0)
  }

  type RangeSet = rs: seq<Range> | Valid(rs) witness []

  predicate Contains(rs: seq<Range>, c: char)
  {
    exists i :: 0 <= i < |rs| && rs[i].0 <= c <= rs[i].1
  }

  /** The scalar values a range list stands for. */
  function Members(rs: seq<Range>): set<char>
  {
    set c: char | Contains(rs, c)
  }

  /** The scalar values of `[lo, hi]`, as zero or one range. */
  function Span(lo: int, hi: int): (r: seq<Range>)
    requires 0 <= lo && hi <= MaxScalar
    ensures |r| <= 1 && Valid(r)
    ensures forall c: char :: Contains(r, c) <==> lo <= c as int <= hi
    ensures r != [] ==> lo <= r[0].0 as int && r[0].1 as int <= hi
  {
    var a := if IsSurrogate(lo) then 0xE000 else lo;
    var b := if IsSurrogate(hi) then 0xD7FF else hi;
    if a <= b then
      var r := [(a as char, b as char)];
      assert forall c: char :: Contains(r, c) <== lo <= c as int <= hi by {
        forall c: char | lo <= c as int <= hi ensures Contains(r, c) {
          assert r[0].0 <= c <= r[0].1;
        }
      }
      r
    else
      []
  }

  /**
   * The scalar values from `lo` up that `rs` leaves out, as ranges: the
   * gaps before, between and after the ranges of `rs`.
   */
  function Gaps(lo: int, rs: seq<Range>): (r: seq<Range>)
    requires 0 <= lo <= MaxScalar + 1
    requires Valid(rs) && (rs != [] ==> lo <= rs[0].0 as int)
    ensures Valid(r)
    ensures forall i :: 0 <= i < |r| ==> lo <= r[i].0 as int
    ensures forall c: char :: Contains(r, c) <==> lo <= c as int && !Contains(rs, c)
    decreases |rs|
  {
    if rs == [] then Span(lo, MaxScalar)
    else
      ValidTail(rs);
      var tail := Gaps(rs[0].1 as int + 1, rs[1..]);
      GapsJoin(lo, rs, tail);
      Span(lo, rs[0].0 as int - 1) + tail
  }

  /** Every range of `rs` starts at `lo` or later. */
  predicate StartsFrom(rs: seq<Range>, lo: int)
  {
    forall i :: 0 <= i < |rs| ==> lo <= rs[i].0 as int
  }

  lemma ValidTail(rs: seq<Range>)
    requires Valid(rs) && rs != []
    ensures Valid(rs[1..]) && (|rs| > 1 ==> rs[0].1 < rs[1].0)
  {
    assert forall i :: 0 <= i < |rs[1..]| ==> rs[1..][i] == rs[i + 1];
  }

  /** The gap before the first range, joined to the gaps after it, is again a set of gaps. */
  lemma GapsJoin(lo: int, rs: seq<Range>, tail: seq<Range>)
    requires 0 <= lo && rs != [] && Valid(rs) && lo <= rs[0].0 as int
    requires Valid(tail) && forall i :: 0 <= i < |tail| ==> rs[0].1 as int + 1 <= tail[i].0 as int
    requires forall c: char :: Contains(tail, c) <==> rs[0].1 as int + 1 <= c as int && !Contains(rs[1..], c)
    ensures Valid(Span(lo, rs[0].0 as int - 1) + tail)
    ensures StartsFrom(Span(lo, rs[0].0 as int - 1) + tail, lo)
    ensures forall c: char :: Contains(Span(lo, rs[0].0 as int - 1) + tail, c) <==> lo <= c as int && !Contains(rs, c)
  {
    var head := Span(lo, rs[0].0 as int - 1);
    ContainsTail(rs);
    ContainsConcat(head, tail);
    ValidConcat(head, tail);
    var r := head + tail;
    forall i | 0 <= i < |r| ensures lo <= r[i].0 as int {
      if i < |head| { assert r[i] == head[i]; } else { assert r[i] == tail[i - |head|]; }
    }
  }

  /** Membership in a range list is membership in its first range or in the rest. */
  lemma ContainsTail(rs: seq<Range>)
    requires rs != []
    ensures forall c: char :: Contains(rs, c) <==> rs[0].0 <= c <= rs[0].1 || Contains(rs[1..], c)
  {
    forall c: char | Contains(rs, c) ensures rs[0].0 <= c <= rs[0].1 || Contains(rs[1..], c) {
      var i :| 0 <= i < |rs| && rs[i].0 <= c <= rs[i].1;
      if i > 0 { assert rs[1..][i - 1] == rs[i]; }
    }
    forall c: char | Contains(rs[1..], c) ensures Contains(rs, c) {
      var i :| 0 <= i < |rs[1..]| && rs[1..][i].0 <= c <= rs[1..][i].1;
      assert rs[i + 1] == rs[1..][i];
    }
  }

  /** Two valid lists, the first wholly below the second, concatenate to a valid list. */
  lemma ValidConcat(a: seq<Range>, b: seq<Range>)
    requires Valid(a) && Valid(b)
    requires forall i, j :: 0 <= i < |a| && 0 <= j < |b| ==> a[i].1 < b[j].0
    ensures Valid(a + b)
  {
    var ab := a + b;
    forall i, j | 0 <= i < j < |ab| ensures ab[i].1 < ab[j].0 {
      if j < |a| { assert ab[i] == a[i] && ab[j] == a[j]; }
      else if i >= |a| { assert ab[i] == b[i - |a|] && ab[j] == b[j - |a|]; }
      else { assert ab[i] == a[i] && ab[j] == b[j - |a|]; }
    }
  }

  /** Membership in a concatenation of range lists. */
  lemma ContainsConcat(a: seq<Range>, b: seq<Range>)
    ensures forall c: char :: Contains(a + b, c) <==> Contains(a, c) || Contains(b, c)
  {
    forall c: char | Contains(a + b, c) ensures Contains(a, c) || Contains(b, c) {
      var i :| 0 <= i < |a + b| && (a + b)[i].0 <= c <= (a + b)[i].1;
      if i >= |a| { assert (a + b)[i] == b[i - |a|]; }
      else { assert (a + b)[i] == a[i]; }
    }
    forall c: char | Contains(a, c) ensures Contains(a + b, c) {
      var i :| 0 <= i < |a| && a[i].0 <= c <= a[i].1;
      assert (a + b)[i] == a[i];
    }
    forall c: char | Contains(b, c) ensures Contains(a + b, c) {
      var i :| 0 <= i < |b| && b[i].0 <= c <= b[i].1;
      assert (a + b)[i + |a|] == b[i];
    }
  }

  /**
   * `ClassUnicode::negate`: the complement within all scalar values, again
   * ascending and disjoint.
   */
  function Negate(rs: RangeSet): (r: RangeSet)
    ensures forall c: char :: Contains(r, c) <==> !Contains(rs, c)
    ensures Members(r) == Members([('\0', '\U{10FFFF}')]) - Members(rs)
  {
    var r := Gaps(0, rs);
    assert forall c: char :: Contains([('\0', '\U{10FFFF}')], c);
    r
  }

  /** The symmetric difference of two classes, as a set of scalar values. */
  function SymmetricDifference(a: RangeSet, b: RangeSet): (d: set<char>)
    ensures d == {} <==> Members(a) == Members(b)
  {
    (Members(a) - Members(b)) + (Members(b) - Members(a))
  }

  predicate Ascending(s: seq<char>)
  {
    forall i, j :: 0 <= i < j < |s| ==> s[i] < s[j]
  }

  /**
   * The scalar values of `[lo, hi]` in ascending order: what iterating the
   * characters of a range yields. The surrogate block is stepped over whole.
   */
  function Scalars(lo: int, hi: int): seq<char>
    decreases hi - lo
  {
    if lo > hi then []
    else if IsSurrogate(hi) then Scalars(lo, 0xD7FF)
    else if IsScalar(hi) then Scalars(lo, hi - 1) + [hi as char]
    else Scalars(lo, hi - 1)
  }

  /** `Scalars` lists exactly the scalar values between its bounds, ascending. */
  lemma {:induction false} ScalarsSpec(lo: int, hi: int)
    ensures forall c: char :: c in Scalars(lo, hi) <==> lo <= c as int <= hi
    ensures forall i :: 0 <= i < |Scalars(lo, hi)| ==> lo <= Scalars(lo, hi)[i] as int <= hi
    ensures Ascending(Scalars(lo, hi))
    decreases hi - lo
  {
    if lo <= hi {
      if IsSurrogate(hi) {
        ScalarsSpec(lo, 0xD7FF);
      } else {
        ScalarsSpec(lo, hi - 1);
      }
    }
  }

  /** A surrogate adds nothing to the scalar values below it. */
  lemma ScalarsSkip(lo: int, n: int)
    requires IsSurrogate(n)
    ensures Scalars(lo, n) == Scalars(lo, n - 1)
  {
    if lo <= n - 1 && IsSurrogate(n - 1) {
      assert Scalars(lo, n - 1) == Scalars(lo, 0xD7FF);
    }
  }

  /** Read from the bottom: a scalar value `n` comes first among those of `[n, hi]`. */
  lemma {:induction false} ScalarsCons(n: int, hi: int)
    requires IsScalar(n) && n <= hi
    ensures Scalars(n, hi) == [n as char] + Scalars(n + 1, hi)
    decreases hi - n
  {
    if n < hi {
      if IsSurrogate(hi) {
        ScalarsCons(n, 0xD7FF);
      } else if IsScalar(hi) {
        ScalarsCons(n, hi - 1);
      } else {
        ScalarsCons(n, hi - 1);
      }
    }
  }

  /** Every scalar value of a range list, range by range, in ascending order. */
  function Chars(rs: seq<Range>): seq<char>
  {
    CharsBefore(rs, |rs|)
  }

  /** The scalar values of the first `k` ranges, range by range. */
  function CharsBefore(rs: seq<Range>, k: nat): seq<char>
    requires k <= |rs|
  {
    if k == 0 then [] else CharsBefore(rs, k - 1) + Scalars(rs[k - 1].0 as int, rs[k - 1].1 as int)
  }

  /** Read from the front: the first range's values, then those of the rest. */
  lemma CharsCons(rs: seq<Range>)
    requires rs != []
    ensures Chars(rs) == Scalars(rs[0].0 as int, rs[0].1 as int) + Chars(rs[1..])
  {
    CharsBeforeCons(rs, |rs|);
  }

  lemma {:induction false} CharsBeforeCons(rs: seq<Range>, k: nat)
    requires 1 <= k <= |rs|
    ensures CharsBefore(rs, k) == Scalars(rs[0].0 as int, rs[0].1 as int) + CharsBefore(rs[1..], k - 1)
  {
    if k > 1 {
      CharsBeforeCons(rs, k - 1);
      assert rs[1..][k - 2] == rs[k - 1];
    }
  }

  /** `Chars` lists exactly the members of the list, ascending. */
  lemma CharsSpec(rs: RangeSet)
    ensures forall c: char :: c in Chars(rs) <==> Contains(rs, c)
    ensures Ascending(Chars(rs))
  {
    CharsMembers(rs, |rs|);
    CharsAscending(rs, |rs|);
  }

  lemma {:induction false} CharsMembers(rs: seq<Range>, k: nat)
    requires k <= |rs|
    ensures forall c: char :: c in CharsBefore(rs, k) <==> exists j :: 0 <= j < k && rs[j].0 <= c <= rs[j].1
  {
    if k > 0 {
      var last := rs[k - 1];
      CharsMembers(rs, k - 1);
      ScalarsSpec(last.0 as int, last.1 as int);
      assert CharsBefore(rs, k) == CharsBefore(rs, k - 1) + Scalars(last.0 as int, last.1 as int);
    }
  }

  lemma {:induction false} CharsAscending(rs: RangeSet, k: nat)
    requires k <= |rs|
    ensures Ascending(CharsBefore(rs, k))
    ensures k > 0 ==> forall i :: 0 <= i < |CharsBefore(rs, k)| ==> CharsBefore(rs, k)[i] <= rs[k - 1].1
  {
    if k > 0 {
      var last := rs[k - 1];
      CharsAscending(rs, k - 1);
      ScalarsSpec(last.0 as int, last.1 as int);
      var p, q := CharsBefore(rs, k - 1), Scalars(last.0 as int, last.1 as int);
      assert CharsBefore(rs, k) == p + q;
      assert forall i :: 0 <= i < |p| ==> p[i] < last.0 by {
        if k > 1 {
          assert rs[k - 2].1 < last.0;
        }
      }
      assert forall i :: |p| <= i < |p + q| ==> (p + q)[i] == q[i - |p|];
    }
  }
}
