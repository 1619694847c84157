/**
 * Decimal text of natural numbers: reading a string of ASCII digits as a
 * number, and the canonical rendering of a number (no leading zeros, "0"
 * for zero) that the arbitrary-precision integer type produces.
 */
module Decimal {
  import opened Validation

  function DigitValue(c: char): (d: nat)
    requires IsAsciiDigit(c)
    ensures d < 10
  {
    c as int - '0' as int
  }

  function DigitChar(d: nat): (c: char)
    requires d < 10
    ensures IsAsciiDigit(c) && DigitValue(c) == d
  {
    ('0' as int + d) as char
  }

  predicate AllDigits(s: string)
  {
    forall i :: 0 <= i < |s| ==> IsAsciiDigit(s[i])
  }

  /** Canonical decimal text: at least one digit, and no leading zero unless
      the text is exactly "0". */
  predicate IsCanonicalDecimal(s: string)
  {
    && |s| >= 1
    && AllDigits(s)
    && (s[0] == '0' ==> |s| == 1)
  }

  /** The value of a string of decimal digits, leading zeros allowed; the
      empty string reads as zero. */
  function ParseDecimal(s: string): nat
    requires AllDigits(s)
  {
    if s == [] then 0
    else ParseDecimal(s[..|s| - 1]) * 10 + DigitValue(s[|s| - 1])
  }

  /** The canonical decimal text of `n`. */
  function DecimalString(n: nat): (s: string)
    ensures IsCanonicalDecimal(s)
    ensures n >= 10 ==> |s| >= 2
  {
    if n < 10 then [DigitChar(n)]
    else DecimalString(n / 10) + [DigitChar(n % 10)]
  }

  /** Rendering and then reading gives the number back. */
  lemma {:induction false} ParseDecimalString(n: nat)
    ensures ParseDecimal(DecimalString(n)) == n
  {
    if n >= 10 {
      var s := DecimalString(n);
      assert s[..|s| - 1] == DecimalString(n / 10);
      ParseDecimalString(n / 10);
    }
  }

  /** Digit strings that do not start with '0' have a positive value. */
  lemma {:induction false} LeadingDigitPositive(s: string)
    requires |s| >= 1 && AllDigits(s) && s[0] != '0'
    ensures ParseDecimal(s) >= 1
  {
    if |s| > 1 {
      LeadingDigitPositive(s[..|s| - 1]);
    }
  }

  /** Reading and then rendering canonical text gives the text back: the two
      functions are inverse bijections between the naturals and canonical
      decimal text. */
  lemma {:induction false} DecimalStringParse(s: string)
    requires IsCanonicalDecimal(s)
    ensures DecimalString(ParseDecimal(s)) == s
  {
    if |s| > 1 {
      var p := s[..|s| - 1];
      assert p[0] == s[0];
      LeadingDigitPositive(p);
      DecimalStringParse(p);
    } else {
      assert s == [DigitChar(DigitValue(s[0]))];
    }
  }
}
