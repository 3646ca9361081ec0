/**
 * What the translator prints for a few small patterns, given the trees the
 * regex parser builds for them.
 */
module Scenarios {
  import opened Wrappers
  import opened Text
  import opened Literals
  import opened Classes
  import opened Syntax
  import opened Translate

  /** The tree of a one-character pattern. */
  function Char(c: char): Hir
  {
    Literal(Unicode(c))
  }

  /** `a` is its character literal. */
  lemma PrintsLetter(t: Shorthands)
    ensures Descend(Char('a'), t) == Emit("'a'")
  {
  }

  /** `a*` is a `ZeroOrMore` around the literal, lazy or not. */
  lemma PrintsStar(t: Shorthands, greedy: bool)
    ensures Descend(Repetition(ZeroOrMore, greedy, Char('a')), t) == Emit("ZeroOrMore('a')")
  {
  }

  /** `a{3}` is a `OneOrMore` around the literal, with the comment `= 3 times`. */
  lemma PrintsExactCount(t: Shorthands)
    ensures Descend(Repetition(Range(Exactly(3)), true, Char('a')), t) == Emit("OneOrMore(" + "'a'" + ", Comment(" + "'= 3 times'" + "))")
  {
    ExactNote();
    PrintsCounted(Exactly(3), "= 3 times", Char('a'), t);
    CommentQuoted("= 3 times");
  }

  /** `a{2,4}` is a `OneOrMore` around the literal, with the comment `2 ~ 4 times`. */
  lemma PrintsBoundedCount(t: Shorthands)
    ensures Descend(Repetition(Range(Bounded(2, 4)), true, Char('a')), t) == Emit("OneOrMore(" + "'a'" + ", Comment(" + "'2 ~ 4 times'" + "))")
  {
    BoundedNote();
    PrintsCounted(Bounded(2, 4), "2 ~ 4 times", Char('a'), t);
    CommentQuoted("2 ~ 4 times");
  }

  lemma ExactNote()
    ensures RepetitionDrawing(Range(Exactly(3))) == Counted("= 3 times")
  {
    assert Numeral(3, 10) == "3";
    assert "= " + "3" + " times" == "= 3 times";
  }

  lemma BoundedNote()
    ensures RepetitionDrawing(Range(Bounded(2, 4))) == Counted("2 ~ 4 times")
  {
    assert Numeral(2, 10) == "2" && Numeral(4, 10) == "4";
    assert "2" + " ~ " + "4" + " times" == "2 ~ 4 times";
  }

  /** The comments of `{3}` and `{2,4}` are quoted as they are. */
  lemma CommentQuoted(note: string)
    requires note == "= 3 times" || note == "2 ~ 4 times"
    ensures Quoted(note) == "'" + note + "'"
    ensures note == "= 3 times" ==> Quoted(note) == "'= 3 times'"
    ensures note == "2 ~ 4 times" ==> Quoted(note) == "'2 ~ 4 times'"
  {
    assert Verbatim(note);
    if note == "= 3 times" {
      QuotedPlain("= 3 times");
    } else {
      QuotedPlain("2 ~ 4 times");
    }
  }

  /** A counted repetition of a one-character pattern. */
  lemma PrintsCounted(r: RepetitionRange, note: string, sub: Hir, t: Shorthands)
    requires RepetitionDrawing(Range(r)) == Counted(note) && sub == Char('a')
    ensures Descend(Repetition(Range(r), true, sub), t) == Emit("OneOrMore(" + "'a'" + ", Comment(" + Quoted(note) + "))")
  {
    assert Descend(sub, t) == Emit("'a'");
    WrapIsPrinted("OneOrMore(", Descend(sub, t), ", Comment(" + Quoted(note) + "))");
    var p := "OneOrMore(" + "'a'";
    ConcatAssoc(p, ", Comment(" + Quoted(note), "))");
    ConcatAssoc(p, ", Comment(", Quoted(note));
  }

  /** `a|b` is a choice that defaults to the first branch, each branch followed by `, `. */
  lemma PrintsAlternation(t: Shorthands)
    ensures Descend(Alternation([Char('a'), Char('b')]), t) == Emit("Choice(0, 'a', 'b', )")
  {
    var hs := [Char('a'), Char('b')];
    assert hs[..1] == [Char('a')];
    assert [Char('a')][..0] == [];
  }

  /** `\d` is the shorthand literal, not a list of digit ranges. */
  lemma PrintsDigitShorthand(t: Shorthands)
    ensures Descend(Class(UnicodeClass(t.digit)), t) == Emit("'\\d'")
  {
    ShorthandIsUsed(t, 0);
    QuotedPlain("\\d");
  }
}
