/**
 * Decimal rendering of Java ints, as string concatenation (`"" + x`,
 * `Integer.toString`) and `String.format("%2d", x)` produce it, with the
 * parsing that undoes it.
 */
module Text {

  predicate IsDigit(c: char) {
    '0' <= c <= '9'
  }

  predicate AllDigits(s: string) {
    forall i :: 0 <= i < |s| ==> IsDigit(s[i])
  }

  function DigitChar(d: nat): (c: char)
    requires d < 10
    ensures IsDigit(c) && c as int - '0' as int == d
  {
    (d + '0' as int) as char
  }

  /** Decimal digits of a natural number, most significant first, no leading zeros. */
  function NatToString(x: nat): (s: string)
    ensures 1 <= |s| && AllDigits(s)
    ensures |s| > 1 ==> s[0] != '0'
  {
    if x < 10 then [DigitChar(x)]
    else
      var s := NatToString(x / 10) + [DigitChar(x % 10)];
      assert s[0] == NatToString(x / 10)[0];
      s
  }

  /** Java's decimal rendering of an int: a minus sign for negatives, then the digits. */
  function IntToString(x: int): (s: string)
    ensures 1 <= |s|
    ensures s[0] == '-' <==> x < 0
    ensures AllDigits(s[1..])
    ensures forall i :: 0 <= i < |s| ==> IsDigit(s[i]) || s[i] == '-'
  {
    if x < 0 then "-" + NatToString(-x) else NatToString(x)
  }

  /** The value of a string of decimal digits. */
  function ParseNat(s: string): nat
    requires AllDigits(s)
  {
    if s == [] then 0
    else ParseNat(s[..|s| - 1]) * 10 + (s[|s| - 1] as int - '0' as int)
  }

  /** The value of an optionally signed string of decimal digits. */
  function ParseInt(s: string): int
    requires |s| > 0 && s[0] == '-' ==> AllDigits(s[1..])
    requires !(|s| > 0 && s[0] == '-') ==> AllDigits(s)
  {
    if |s| > 0 && s[0] == '-' then -(ParseNat(s[1..]) as int) else ParseNat(s)
  }

  lemma {:induction false} ParseNatToString(x: nat)
    ensures ParseNat(NatToString(x)) == x
  {
    if x >= 10 {
      var s := NatToString(x);
      ParseNatToString(x / 10);
      assert s[..|s| - 1] == NatToString(x / 10);
    }
  }

  /** Rendering a Java int and reading it back gives the int. */
  lemma ParseIntToString(x: int)
    ensures ParseInt(IntToString(x)) == x
  {
    if x < 0 {
      assert IntToString(x)[1..] == NatToString(-x);
      ParseNatToString(-x);
    } else {
      ParseNatToString(x);
    }
  }

  /** Different ints render differently. */
  lemma IntToStringInjective(a: int, b: int)
    requires IntToString(a) == IntToString(b)
    ensures a == b
  {
    ParseIntToString(a);
    ParseIntToString(b);
  }

  /** `s` right-aligned in a field of at least `width` characters. */
  function PadLeft(s: string, width: nat): (r: string)
    ensures |r| == if |s| >= width then |s| else width
    ensures forall i :: 0 <= i < |r| - |s| ==> r[i] == ' '
  {
    if |s| >= width then s else seq(width - |s|, _ => ' ') + s
  }

  /** Padding only prepends: the padded string ends with `s`. */
  lemma PadLeftSuffix(s: string, width: nat)
    ensures PadLeft(s, width)[|PadLeft(s, width)| - |s|..] == s
  {
    if |s| < width {
      assert (seq(width - |s|, _ => ' ') + s)[width - |s|..] == s;
    }
  }

  /** `String.format("%<width>d", x)`. */
  function FormatInt(x: int, width: nat): (r: string)
    ensures |r| >= width
  {
    PadLeft(IntToString(x), width)
  }

  /** Ints in [-9, 99] take at most two characters. */
  lemma {:induction false} ShortInt(x: int)
    requires -9 <= x <= 99
    ensures |IntToString(x)| <= 2
  {
    if x >= 10 {
      assert NatToString(x) == NatToString(x / 10) + [DigitChar(x % 10)];
      assert |NatToString(x / 10)| == 1;
    }
  }

  /** A `%2d` field of an int in [-9, 99] is exactly two characters wide. */
  lemma FormatTwoWide(x: int)
    requires -9 <= x <= 99
    ensures |FormatInt(x, 2)| == 2
  {
    ShortInt(x);
  }

  /** A `%2d` field of an int in [-9, 99] ends with the int's digits, which read back as the int. */
  lemma FormatTwoDigits(x: int)
    requires -9 <= x <= 99
    ensures |FormatInt(x, 2)| == 2
    ensures FormatInt(x, 2)[2 - |IntToString(x)|..] == IntToString(x)
    ensures ParseInt(FormatInt(x, 2)[2 - |IntToString(x)|..]) == x
  {
    FormatTwoWide(x);
    ShortInt(x);
    PadLeftSuffix(IntToString(x), 2);
    ParseIntToString(x);
  }
}
