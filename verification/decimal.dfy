/** Decimal rendering of a 64-bit signed integer, as Kotlin's `Long.toString()`
    produces it, together with an independent reader used to state what the
    rendered text means. */
module Decimal {
  import opened Wrappers

  const MinLong: int := -0x8000_0000_0000_0000
  const MaxLong: int :=  0x7FFF_FFFF_FFFF_FFFF

  /** Kotlin's `Long`. */
  type Long = x: int | MinLong <= x <= MaxLong

  predicate IsDigit(c: char) {
    '0' <= c <= '9'
  }

  predicate AllDigits(s: string) {
    forall i :: 0 <= i < |s| ==> IsDigit(s[i])
  }

  function DigitChar(d: int): (c: char)
    requires 0 <= d < 10
    ensures IsDigit(c)
  {
    (('0' as int) + d) as char
  }

  function DigitValue(c: char): (d: int)
    requires IsDigit(c)
    ensures 0 <= d < 10
  {
    c as int - '0' as int
  }

  /** The number a string of decimal digits denotes (most significant first). */
  function DigitsValue(s: string): (n: nat)
    requires AllDigits(s)
  {
    if |s| == 0 then 0
    else DigitsValue(s[..|s| - 1]) * 10 + DigitValue(s[|s| - 1])
  }

  /** A digit string with no leading zero, except the string "0" itself. */
  predicate CanonicalDigits(s: string) {
    |s| >= 1 && AllDigits(s) && (s[0] == '0' ==> s == "0")
  }

  /** The spelling `Long.toString()` uses: canonical digits, after a minus
      sign only when the number is non-zero (there is no "-0"). */
  predicate Canonical(s: string) {
    if |s| > 0 && s[0] == '-' then CanonicalDigits(s[1..]) && s[1] != '0'
    else CanonicalDigits(s)
  }

  /** The shortest decimal spelling of `n`: at least one digit, and no leading
      zero unless the number is zero itself, which is spelt "0". */
  function NatToDecimal(n: nat): (s: string)
    ensures CanonicalDigits(s)
    ensures s[0] == '0' <==> n == 0
    decreases n
  {
    if n < 10 then [DigitChar(n)]
    else NatToDecimal(n / 10) + [DigitChar(n % 10)]
  }

  /** Reads back a decimal integer with an optional leading minus sign;
      `None` for anything else. This is the reference against which the
      rendering is checked. */
  function ReadLong(s: string): Option<int> {
    if |s| > 0 && s[0] == '-' then
      if |s| > 1 && AllDigits(s[1..]) then Some(0 - DigitsValue(s[1..])) else None
    else if |s| > 0 && AllDigits(s) then Some(DigitsValue(s))
    else None
  }

  lemma {:induction false} NatToDecimalRoundTrip(n: nat)
    ensures DigitsValue(NatToDecimal(n)) == n
    decreases n
  {
    if n >= 10 {
      var prefix := NatToDecimal(n / 10);
      var s := NatToDecimal(n);
      assert s == prefix + [DigitChar(n % 10)];
      assert s[..|s| - 1] == prefix;
      NatToDecimalRoundTrip(n / 10);
    }
  }

  /** Kotlin's `Long.toString()`: a minus sign for negative values, then the
      digits of the magnitude. */
  function LongToString(n: Long): (s: string)
    ensures ReadLong(s) == Some(n as int)
    ensures Canonical(s)
    ensures n >= 0 <==> IsDigit(s[0])
  {
    var magnitude: nat := if n < 0 then -(n as int) else n as int;
    NatToDecimalRoundTrip(magnitude);
    if n < 0 then
      var digits := NatToDecimal(magnitude);
      assert ("-" + digits)[1..] == digits;
      "-" + digits
    else NatToDecimal(magnitude)
  }

  /** A non-empty digit string is worth at least its leading digit. */
  lemma {:induction false} LeadingDigitBound(s: string)
    requires |s| >= 1 && AllDigits(s)
    ensures DigitsValue(s) >= DigitValue(s[0])
    decreases |s|
  {
    if |s| > 1 {
      var p := s[..|s| - 1];
      assert p[0] == s[0];
      LeadingDigitBound(p);
    }
  }

  /** Canonical digits are the one spelling `NatToDecimal` gives their value. */
  lemma {:induction false} CanonicalDigitsUnique(s: string)
    requires CanonicalDigits(s)
    ensures NatToDecimal(DigitsValue(s)) == s
    decreases |s|
  {
    var n := DigitsValue(s);
    var c := s[|s| - 1];
    assert DigitChar(DigitValue(c)) == c;
    if |s| == 1 {
      assert s == [c];
    } else {
      var p := s[..|s| - 1];
      assert p[0] == s[0] != '0';
      assert CanonicalDigits(p);
      LeadingDigitBound(p);
      assert n == DigitsValue(p) * 10 + DigitValue(c) && DigitsValue(p) >= 1;
      assert n / 10 == DigitsValue(p) && n % 10 == DigitValue(c);
      CanonicalDigitsUnique(p);
      assert s == p + [c];
    }
  }

  /** `LongToString` is the only canonical spelling of its number: any
      canonical text that reads back as `n` is `LongToString(n)`. */
  lemma LongToStringUnique(t: string, n: Long)
    requires ReadLong(t) == Some(n as int) && Canonical(t)
    ensures t == LongToString(n)
  {
    if t[0] == '-' {
      var digits := t[1..];
      LeadingDigitBound(digits);
      CanonicalDigitsUnique(digits);
      assert t == "-" + digits;
    } else {
      CanonicalDigitsUnique(t);
    }
  }
}
