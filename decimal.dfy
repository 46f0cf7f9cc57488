/** Decimal text of integers, as Python's `str` renders an `int`. */
module Decimal {

  predicate IsDigit(c: char) {
    '0' <= c <= '9'
  }

  predicate IsDigits(s: string) {
    forall i :: 0 <= i < |s| ==> IsDigit(s[i])
  }

  /** Well-formed decimal text: an optional minus sign followed by at least one digit. */
  predicate IsDecimal(s: string) {
    |s| > 0 &&
    if s[0] == '-' then |s| > 1 && IsDigits(s[1..]) else IsDigits(s)
  }

  function DigitChar(d: nat): (c: char)
    requires d < 10
    ensures IsDigit(c)
  {
    (('0' as int) + d) as char
  }

  function DigitValue(c: char): (d: nat)
    requires IsDigit(c)
    ensures d < 10
  {
    (c as int) - ('0' as int)
  }

  /** The digits of `n`, most significant first, with no leading zero. */
  function DigitsOf(n: nat): (s: string)
    ensures |s| > 0 && IsDigits(s)
    ensures s[0] == '0' ==> n == 0 && s == "0"
  {
    if n < 10 then [DigitChar(n)] else DigitsOf(n / 10) + [DigitChar(n % 10)]
  }

  /** `str(n)` for a Python int: a minus sign for negative numbers, then the digits. */
  function DecimalString(n: int): (s: string)
    ensures IsDecimal(s)
    ensures s[0] == '-' <==> n < 0
    ensures s[0] == '0' ==> s == "0"
    ensures n < 0 ==> s[1] != '0'
  {
    if n < 0 then "-" + DigitsOf(-n) else DigitsOf(n)
  }

  /**
   * The form `str` gives an int: well-formed, no leading zero ("0" itself
   * aside), and no "-0".
   */
  predicate IsCanonical(s: string) {
    IsDecimal(s) &&
    (s[0] == '0' ==> s == "0") &&
    (s[0] == '-' ==> s[1] != '0')
  }

  /** The number a string of digits denotes (the inverse of DigitsOf). */
  function DigitsValue(s: string): nat
    requires IsDigits(s)
  {
    if |s| == 0 then 0 else DigitsValue(s[..|s| - 1]) * 10 + DigitValue(s[|s| - 1])
  }

  /** The integer that well-formed decimal text denotes (Python's `int(s)`). */
  function DecimalValue(s: string): int
    requires IsDecimal(s)
  {
    if s[0] == '-' then -(DigitsValue(s[1..]) as int) else DigitsValue(s)
  }

  lemma {:induction false} DigitsRoundTrip(n: nat)
    ensures DigitsValue(DigitsOf(n)) == n
  {
    if n >= 10 {
      var s := DigitsOf(n);
      DigitsRoundTrip(n / 10);
      assert s[..|s| - 1] == DigitsOf(n / 10);
      assert DigitValue(s[|s| - 1]) == n % 10;
    }
  }

  /** Parsing the rendered text gives the number back: `int(str(n)) == n`. */
  lemma DecimalRoundTrip(n: int)
    ensures DecimalValue(DecimalString(n)) == n
  {
    if n < 0 {
      DigitsRoundTrip(-n);
      assert DecimalString(n)[1..] == DigitsOf(-n);
    } else {
      DigitsRoundTrip(n);
    }
  }

  /** Distinct integers render as distinct text. */
  lemma DecimalStringInjective(a: int, b: int)
    ensures DecimalString(a) == DecimalString(b) <==> a == b
  {
    DecimalRoundTrip(a);
    DecimalRoundTrip(b);
  }

  /** A positive digit string starting with a non-zero digit denotes a positive number. */
  lemma {:induction false} LeadingDigitPositive(s: string)
    requires |s| > 0 && IsDigits(s) && s[0] != '0'
    ensures DigitsValue(s) > 0
  {
    if |s| > 1 {
      LeadingDigitPositive(s[..|s| - 1]);
    }
  }

  /** Digits without a leading zero are the digits of the number they denote. */
  lemma {:induction false} DigitsCanonical(s: string)
    requires |s| > 0 && IsDigits(s) && (s[0] == '0' ==> |s| == 1)
    ensures DigitsOf(DigitsValue(s)) == s
  {
    if |s| > 1 {
      var prefix := s[..|s| - 1];
      var d := DigitValue(s[|s| - 1]);
      DigitsCanonical(prefix);
      LeadingDigitPositive(prefix);
      var v := DigitsValue(s);
      assert v == DigitsValue(prefix) * 10 + d;
      assert v / 10 == DigitsValue(prefix) && v % 10 == d;
      assert DigitChar(d) == s[|s| - 1];
      assert s == prefix + [s[|s| - 1]];
    } else {
      assert DigitChar(DigitValue(s[0])) == s[0];
    }
  }

  /** The other round trip: canonical decimal text is exactly `str` of its value, `str(int(s)) == s`. */
  lemma CanonicalRoundTrip(s: string)
    requires IsCanonical(s)
    ensures DecimalString(DecimalValue(s)) == s
  {
    if s[0] == '-' {
      DigitsCanonical(s[1..]);
      LeadingDigitPositive(s[1..]);
      assert s == "-" + s[1..];
    } else {
      DigitsCanonical(s);
    }
  }
}
