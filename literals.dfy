/**
 * The quoting rules for literals in the generated Python script:
 * `py_char_str` for one character and `py_str` for a string.
 */
module Literals {
  import opened Wrappers
  import opened Text

  /**
   * `py_char_str`: a quote and a backslash are escaped, any other character,
   * a control character included, stands between quotes as it is. Python
   * reads the literal back as the character, except for a line feed, a
   * carriage return or NUL, which no literal may hold raw.
   */
  function PyCharStr(c: char): (r: string)
    ensures |r| == (if c == '\'' || c == '\\' then 4 else 3)
    ensures r[0] == '\'' && r[|r| - 1] == '\''
    ensures !LineBreak(c) && c != '\0' ==> PyRead(r) == Value([c])
    ensures LineBreak(c) || c == '\0' ==> PyRead(r) == Invalid
  {
    if c == '\'' then ReadsPair('\'', '\''); "'\\''"
    else if c == '\\' then ReadsPair('\\', '\\'); "'\\\\'"
    else ReadsPlain(c); ['\'', c, '\'']
  }

  /**
   * `py_char_str` as evidently intended: a line feed, a carriage return and
   * NUL are written as the escapes `\n`, `\r` and `\0`, so every character
   * gives a literal that Python reads back as that character.
   */
  function CharLiteral(c: char): (r: string)
    ensures PyRead(r) == Value([c])
    ensures !LineBreak(c) && c != '\0' ==> r == PyCharStr(c)
  {
    if c == '\n' then ReadsPair('n', '\n'); "'\\n'"
    else if c == '\r' then ReadsPair('r', '\r'); "'\\r'"
    else if c == '\0' then ReadsNul(); "'\\0'"
    else PyCharStr(c)
  }

  /**
   * A line feed: as written its literal is cut by the line break; as
   * intended it is the escape `\n`, which reads back.
   */
  lemma NewlineLiteral()
    ensures PyCharStr('\n') == ['\'', '\n', '\'']
    ensures PyRead(PyCharStr('\n')) == Invalid
    ensures CharLiteral('\n') == "'\\n'"
    ensures PyRead(CharLiteral('\n')) == Value("\n")
  {
  }

  /** A literal holding one escape pair reads as the character it stands for. */
  lemma ReadsPair(e: char, v: char)
    requires SimpleEscape(e) == Some(v) && !OtherEscape(e)
    ensures PyRead(['\'', '\\', e, '\'']) == Value([v])
  {
    var b := ['\\', e, '\''];
    assert ['\'', '\\', e, '\''][1..] == b;
    assert b[2..] == "'";
    assert ReadBody(b[2..]) == Value([]);
    assert ReadBody(b) == Cons(v, ReadBody(b[2..]));
  }

  /** `\0` before the closing quote reads as NUL. */
  lemma ReadsNul()
    ensures PyRead("'\\0'") == Value(['\0'])
  {
    var b := ['\\', '0', '\''];
    assert "'\\0'"[1..] == b;
    assert b[2..] == "'";
    assert ReadBody(b[2..]) == Value([]);
    assert ReadBody(b) == Cons('\0', ReadBody(b[2..]));
  }

  /** One character between quotes reads as itself, or is refused if it breaks the line or is NUL. */
  lemma ReadsPlain(c: char)
    requires c != '\'' && c != '\\'
    ensures !LineBreak(c) && c != '\0' ==> PyRead(['\'', c, '\'']) == Value([c])
    ensures LineBreak(c) || c == '\0' ==> PyRead(['\'', c, '\'']) == Invalid
  {
    var b := [c, '\''];
    assert ['\'', c, '\''][1..] == b;
    assert b[1..] == "'";
    assert ReadBody(b[1..]) == Value([]);
  }

  /** Characters `py_str` replaces by their code point in hexadecimal. */
  predicate Hexed(c: char)
  {
    IsControl(c) || c as int >= 0xFFFF
  }

  /** What `py_str` writes for one character of its input. */
  function EscapeChar(c: char): string
  {
    if c == '\'' then "\\'"
    else if Hexed(c) then "<" + Numeral(c as int, 16) + ">"
    else [c]
  }

  /** One character's escape: no control or wide character, and a quote only right after a backslash. */
  lemma EscapeCharIsClean(c: char)
    ensures EscapeChar(c) != [] && EscapeChar(c)[0] != '\''
    ensures forall i :: 0 <= i < |EscapeChar(c)| ==> !Hexed(EscapeChar(c)[i])
    ensures forall i :: 0 <= i < |EscapeChar(c)| && EscapeChar(c)[i] == '\'' ==> i == 1 && EscapeChar(c)[0] == '\\'
  {
    if Hexed(c) && c != '\'' {
      var h := Numeral(c as int, 16);
      NumeralDigits(c as int, 16);
      var e := EscapeChar(c);
      assert e == "<" + h + ">";
      forall i | 0 <= i < |e| ensures !Hexed(e[i]) && e[i] != '\'' {
        if 0 < i < |e| - 1 {
          assert e[i] == h[i - 1];
          assert 0 <= DigitValue(h[i - 1]) < 16;
        }
      }
    }
  }

  /** The text between the quotes of `py_str(s)`: each character escaped, in order. */
  function Escaped(s: string): string
  {
    if s == [] then [] else Escaped(s[..|s| - 1]) + EscapeChar(s[|s| - 1])
  }

  /**
   * The text between the quotes holds no control character and no code
   * point from U+FFFF up, and every quote in it is escaped.
   */
  lemma {:induction false} EscapedIsClean(s: string)
    ensures forall i :: 0 <= i < |Escaped(s)| ==> !Hexed(Escaped(s)[i])
    ensures forall i :: 0 <= i < |Escaped(s)| && Escaped(s)[i] == '\'' ==> 0 < i && Escaped(s)[i - 1] == '\\'
    decreases |s|
  {
    if s != [] {
      var p := Escaped(s[..|s| - 1]);
      var e := EscapeChar(s[|s| - 1]);
      EscapedIsClean(s[..|s| - 1]);
      EscapeCharIsClean(s[|s| - 1]);
      assert Escaped(s) == p + e;
      assert forall i :: |p| <= i < |p + e| ==> (p + e)[i] == e[i - |p|];
    }
  }

  /** `py_str`'s result as a value: the escaped text between single quotes. */
  function Quoted(s: string): (r: string)
    ensures |r| >= 2 && r[0] == '\'' && r[|r| - 1] == '\''
    ensures r[1..|r| - 1] == Escaped(s)
  {
    "'" + Escaped(s) + "'"
  }

  /**
   * `py_str`: builds the literal character by character. A quote becomes
   * `\'`, a control character or a code point from U+FFFF up becomes
   * `<HEX>`, everything else, a backslash included, is copied.
   */
  method PyStr(s: string) returns (r: string)
    ensures r == Quoted(s)
  {
    r := "'";
    for i := 0 to |s|
      invariant r == "'" + Escaped(s[..i])
    {
      var c := s[i];
      ghost var done := r;
      if c == '\'' {
        r := r + "\\'";
      } else if IsControl(c) || c as int >= 0xFFFF {
        var hex := "<" + Numeral(c as int, 16) + ">";
        r := r + hex;
      } else {
        r := r + [c];
      }
      assert r == done + EscapeChar(c);
      EscapedSnoc(s, i);
      ConcatAssoc("'", Escaped(s[..i]), EscapeChar(c));
    }
    assert s[..|s|] == s;
    r := r + "'";
  }

  /** One more character of input adds its escape to the end. */
  lemma EscapedSnoc(s: string, i: nat)
    requires i < |s|
    ensures Escaped(s[..i + 1]) == Escaped(s[..i]) + EscapeChar(s[i])
  {
    assert s[..i + 1][..i] == s[..i];
  }

  /** Escaping distributes over concatenation. */
  lemma {:induction false} EscapedConcat(a: string, b: string)
    ensures Escaped(a + b) == Escaped(a) + Escaped(b)
    decreases |b|
  {
    if b == [] {
      assert a + b == a;
    } else {
      var init, last := b[..|b| - 1], b[|b| - 1];
      assert (a + b)[..|a + b| - 1] == a + init;
      EscapedConcat(a, init);
      ConcatAssoc(Escaped(a), Escaped(init), EscapeChar(last));
    }
  }

  /** Escaping a first character puts its escape first. */
  lemma EscapedCons(c: char, s: string)
    ensures Escaped([c] + s) == EscapeChar(c) + Escaped(s)
  {
    EscapedConcat([c], s);
    EscapedSingle(c);
  }

  lemma EscapedSingle(c: char)
    ensures Escaped([c]) == EscapeChar(c)
  {
    assert [c][..0] == [];
  }

  /**
   * What Python makes of the text of one single-quoted literal: the string
   * it denotes; `Invalid` when the text is not exactly one complete literal
   * (no closing quote, a quote before the end, a raw line break or NUL);
   * or an escape Python refuses: `\x`, `\u` and `\U` without two, four
   * or eight hex digits, `\N` without a braced name); `Undecoded` when it
   * uses a well-formed escape this reader does not decode (octal other than
   * `\0`, `\x`, `\N`, `\u`, `\U`, a line continuation).
   */
  datatype Reading = Value(s: string) | Invalid | Undecoded

  function Cons(c: char, r: Reading): Reading
  {
    if r.Value? then Value([c] + r.s) else r
  }

  predicate LineBreak(c: char)
  {
    c == '\n' || c == '\r'
  }

  /** The one-character escapes of Python string literals. */
  function SimpleEscape(c: char): Option<char>
  {
    match c
    case '\\' => Some('\\')
    case '\'' => Some('\'')
    case '"' => Some('"')
    case 'a' => Some('\U{7}')
    case 'b' => Some('\U{8}')
    case 'f' => Some('\U{C}')
    case 'n' => Some('\n')
    case 'r' => Some('\r')
    case 't' => Some('\t')
    case 'v' => Some('\U{B}')
    case _ => None
  }

  /** The escapes Python decodes that this reader leaves undecoded. */
  predicate OtherEscape(c: char)
  {
    ('0' <= c <= '7') || c == 'x' || c == 'N' || c == 'u' || c == 'U' || LineBreak(c)
  }

  predicate HexDigit(c: char)
  {
    '0' <= c <= '9' || 'a' <= c <= 'f' || 'A' <= c <= 'F'
  }

  /**
   * An escape Python refuses to compile: `\x`, `\u` or `\U` not followed by
   * two, four or eight hex digits, or `\N` not followed by `{`, a name and `}`.
   */
  predicate Truncated(b: string)
    requires |b| >= 2
  {
    var k := if b[1] == 'x' then 2 else if b[1] == 'u' then 4 else if b[1] == 'U' then 8 else 0;
    if b[1] == 'N' then !(|b| > 3 && b[2] == '{' && '}' in b[3..])
    else k > 0 && !(|b| >= 2 + k && forall i :: 2 <= i < 2 + k ==> HexDigit(b[i]))
  }

  /**
   * Reads the text after the opening quote up to the closing one, which
   * must end it. A backslash before any other character is kept with it.
   */
  function ReadBody(b: string): Reading
    decreases |b|
  {
    if b == [] then Invalid
    else if b[0] == '\'' then (if |b| == 1 then Value([]) else Invalid)
    else if LineBreak(b[0]) || b[0] == '\0' then Invalid
    else if b[0] != '\\' then Cons(b[0], ReadBody(b[1..]))
    else if |b| == 1 || b[1] == '\0' then Invalid
    else if b[1] == '0' && (|b| == 2 || !('0' <= b[2] <= '7')) then Cons('\0', ReadBody(b[2..]))
    else if OtherEscape(b[1]) then (if Truncated(b) then Invalid else Undecoded)
    else if SimpleEscape(b[1]).Some? then Cons(SimpleEscape(b[1]).value, ReadBody(b[2..]))
    else Cons('\\', Cons(b[1], ReadBody(b[2..])))
  }

  /** How Python reads `t` as one single-quoted literal. */
  function PyRead(t: string): Reading
  {
    if t != [] && t[0] == '\'' then ReadBody(t[1..]) else Invalid
  }

  /** One character of data as evidently intended: `py_str`'s escape, with a backslash doubled. */
  function EscapeData(c: char): string
  {
    if c == '\\' then "\\\\" else EscapeChar(c)
  }

  function DataEscaped(s: string): string
    decreases |s|
  {
    if s == [] then [] else EscapeData(s[0]) + DataEscaped(s[1..])
  }

  /**
   * `py_str` as evidently intended for text that is data rather than Python
   * source: a backslash is escaped too. It agrees with `py_str` on text
   * without backslashes.
   */
  function DataQuoted(s: string): (r: string)
    ensures (forall i :: 0 <= i < |s| ==> s[i] != '\\') ==> r == Quoted(s)
  {
    EscapedIsData(s);
    "'" + DataEscaped(s) + "'"
  }

  lemma {:induction false} EscapedIsData(s: string)
    ensures (forall i :: 0 <= i < |s| ==> s[i] != '\\') ==> Escaped(s) == DataEscaped(s)
    decreases |s|
  {
    if s != [] && forall i :: 0 <= i < |s| ==> s[i] != '\\' {
      assert s == [s[0]] + s[1..];
      EscapedCons(s[0], s[1..]);
      EscapedIsData(s[1..]);
    }
  }

  /** Python reads one escaped character back as that character. */
  lemma ReadsEscape(c: char, rest: string)
    requires !Hexed(c)
    ensures ReadBody(EscapeData(c) + rest) == Cons(c, ReadBody(rest))
  {
    var b := EscapeData(c) + rest;
    if c == '\'' || c == '\\' {
      assert b[2..] == rest;
    } else {
      assert b[1..] == rest;
    }
  }

  lemma {:induction false} ReadsEscaped(s: string)
    requires forall i :: 0 <= i < |s| ==> !Hexed(s[i])
    ensures ReadBody(DataEscaped(s) + "'") == Value(s)
    decreases |s|
  {
    if s != [] {
      ReadsEscaped(s[1..]);
      ConcatAssoc(EscapeData(s[0]), DataEscaped(s[1..]), "'");
      ReadsEscape(s[0], DataEscaped(s[1..]) + "'");
      assert [s[0]] + s[1..] == s;
    }
  }

  /**
   * Data quoting loses nothing: on text without control characters or code
   * points from U+FFFF up, Python reads the literal back as the text.
   */
  lemma DataRoundTrip(s: string)
    requires forall i :: 0 <= i < |s| ==> !Hexed(s[i])
    ensures PyRead(DataQuoted(s)) == Value(s)
  {
    var q := DataQuoted(s);
    assert q[1..] == DataEscaped(s) + "'";
    ReadsEscaped(s);
  }

  /**
   * `py_str` loses nothing on text without backslashes, control characters
   * or code points from U+FFFF up: Python reads the literal back as the text.
   */
  lemma QuotedRoundTrip(s: string)
    requires forall i :: 0 <= i < |s| ==> !Hexed(s[i]) && s[i] != '\\'
    ensures PyRead(Quoted(s)) == Value(s)
  {
    DataRoundTrip(s);
  }

  /** Text `py_str` copies as it is: no quote and nothing it writes in hexadecimal. */
  predicate Verbatim(s: string)
  {
    forall i :: 0 <= i < |s| ==> s[i] != '\'' && !Hexed(s[i])
  }

  /** Verbatim text is quoted as it is. */
  lemma QuotedPlain(s: string)
    requires Verbatim(s)
    ensures Quoted(s) == "'" + s + "'"
  {
    EscapedPlain(s);
  }

  lemma {:induction false} EscapedPlain(s: string)
    requires Verbatim(s)
    ensures Escaped(s) == s
    decreases |s|
  {
    if s != [] {
      EscapedPlain(s[..|s| - 1]);
      assert s[..|s| - 1] + [s[|s| - 1]] == s;
    }
  }

  lemma VerbatimConcat(a: string, b: string)
    ensures Verbatim(a + b) <==> Verbatim(a) && Verbatim(b)
  {
    if Verbatim(a + b) {
      assert forall i :: 0 <= i < |a| ==> a[i] == (a + b)[i];
      assert forall i :: 0 <= i < |b| ==> b[i] == (a + b)[|a| + i];
    }
  }

  /** A decimal numeral is verbatim text. */
  lemma DecimalIsVerbatim(n: nat)
    ensures Verbatim(Numeral(n, 10))
  {
    NumeralDigits(n, 10);
  }

  /** Text without a backslash. */
  predicate Unslashed(s: string)
  {
    forall i :: 0 <= i < |s| ==> s[i] != '\\'
  }

  lemma UnslashedConcat(a: string, b: string)
    ensures Unslashed(a + b) <==> Unslashed(a) && Unslashed(b)
  {
    if Unslashed(a + b) {
      assert forall i :: 0 <= i < |a| ==> a[i] == (a + b)[i];
      assert forall i :: 0 <= i < |b| ==> b[i] == (a + b)[|a| + i];
    }
  }

  /** A decimal numeral has no backslash. */
  lemma DecimalIsUnslashed(n: nat)
    ensures Unslashed(Numeral(n, 10))
  {
    NumeralDigits(n, 10);
  }
}
