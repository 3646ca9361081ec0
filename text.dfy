/**
 * Text formatting the translator relies on: Rust's `{}` and `{:X}` renderings
 * of an unsigned number, the UTF-8 width that `String::len` counts, and the
 * Unicode `Cc` category that `char::is_control` tests.
 */
module Text {

  const Digits := "0123456789ABCDEF"

  /** `char::is_control`: the general category Cc, U+0000-U+001F and U+007F-U+009F. */
  predicate IsControl(c: char)
  {
    c as int <= 0x1F || 0x7F <= c as int <= 0x9F
  }

  /** The digit for `d`, upper-case from ten on, as `{:X}` writes it. */
  function DigitChar(d: nat): char
    requires d < 16
  {
    Digits[d]
  }

  /** `DigitValue` reads back what `DigitChar` writes. */
  lemma DigitRoundTrip(d: nat)
    requires d < 16
    ensures DigitValue(DigitChar(d)) == d
  {
  }

  /** The value of a digit character, or -1 for any other character. */
  function DigitValue(c: char): int
  {
    if '0' <= c <= '9' then c as int - '0' as int
    else if 'A' <= c <= 'F' then c as int - 'A' as int + 10
    else -1
  }

  /**
   * The numeral of `n` in `base`, most significant digit first and without
   * leading zeros: `{}` is base 10, `{:X}` base 16.
   */
  function Numeral(n: nat, base: nat): (s: string)
    requires 2 <= base <= 16
    ensures |s| >= 1
    decreases n
  {
    if n < base then [DigitChar(n)]
    else
      DivideByBase(n, base);
      Numeral(n / base, base) + [DigitChar(n % base)]
  }

  /** One step of positional notation: `n` splits into `n / base` and a last digit. */
  lemma DivideByBase(n: nat, base: nat)
    requires 2 <= base <= 16 && n >= base
    ensures 1 <= n / base < n && n % base < base
    ensures n == n / base * base + n % base
  {
  }

  /** A numeral is made of digits below its base and has no leading zero. */
  lemma {:induction false} NumeralDigits(n: nat, base: nat)
    requires 2 <= base <= 16
    ensures forall i :: 0 <= i < |Numeral(n, base)| ==> 0 <= DigitValue(Numeral(n, base)[i]) < base
    ensures Numeral(n, base)[0] == '0' ==> n == 0
    decreases n
  {
    if n < base {
      DigitRoundTrip(n);
    } else {
      DivideByBase(n, base);
      DigitRoundTrip(n % base);
      NumeralDigits(n / base, base);
      var s := Numeral(n, base);
      assert s == Numeral(n / base, base) + [DigitChar(n % base)];
      assert s[0] == Numeral(n / base, base)[0];
    }
  }

  /** Reads a numeral back, as Horner's rule does. */
  function ValueOf(s: string, base: nat): int
  {
    if s == [] then 0
    else ValueOf(s[..|s| - 1], base) * base + DigitValue(s[|s| - 1])
  }

  /** `Numeral` loses nothing: reading the numeral back gives the number. */
  lemma {:induction false} NumeralRoundTrip(n: nat, base: nat)
    requires 2 <= base <= 16
    ensures ValueOf(Numeral(n, base), base) == n
    decreases n
  {
    var s := Numeral(n, base);
    if n < base {
      DigitRoundTrip(n);
    } else {
      DivideByBase(n, base);
      DigitRoundTrip(n % base);
      NumeralRoundTrip(n / base, base);
      assert s[..|s| - 1] == Numeral(n / base, base);
    }
  }

  /** Number of bytes `c` occupies in UTF-8. */
  function Utf8Width(c: char): (w: nat)
    ensures 1 <= w <= 4
    ensures w == 1 <==> c as int < 0x80
    ensures w == 4 <==> c as int >= 0x10000
  {
    if c as int < 0x80 then 1
    else if c as int < 0x800 then 2
    else if c as int < 0x10000 then 3
    else 4
  }

  /** `String::len`: the UTF-8 byte length of `s`, not its character count. */
  function ByteLen(s: string): nat
  {
    if s == [] then 0 else ByteLen(s[..|s| - 1]) + Utf8Width(s[|s| - 1])
  }

  /** Byte lengths add up under concatenation. */
  lemma {:induction false} ByteLenConcat(a: string, b: string)
    ensures ByteLen(a + b) == ByteLen(a) + ByteLen(b)
    decreases |b|
  {
    if b != [] {
      var ab := a + b;
      assert ab[..|ab| - 1] == a + b[..|b| - 1];
      ByteLenConcat(a, b[..|b| - 1]);
    } else {
      assert a + b == a;
    }
  }

  /** Concatenation regroups freely. */
  lemma ConcatAssoc<T>(a: seq<T>, b: seq<T>, c: seq<T>)
    ensures a + b + c == a + (b + c)
  {
  }

  /** One more character adds its own width. */
  lemma ByteLenSnoc(s: string, c: char)
    ensures ByteLen(s + [c]) == ByteLen(s) + Utf8Width(c)
  {
    assert (s + [c])[..|s|] == s;
  }

  /** A prefix never takes more bytes than the whole. */
  lemma ByteLenPrefix(a: string, b: string)
    requires a <= b
    ensures ByteLen(a) <= ByteLen(b)
  {
    assert b == a + b[|a|..];
    ByteLenConcat(a, b[|a|..]);
  }
}
