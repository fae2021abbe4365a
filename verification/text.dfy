/** Decimal rendering of integers, as a template literal prints an integral
    number, and the reading back that shows the rendering loses nothing. */
module Text {

  predicate IsDigit(c: char) {
    '0' <= c <= '9'
  }

  predicate AllDigits(s: string) {
    forall i :: 0 <= i < |s| ==> IsDigit(s[i])
  }

  function DigitChar(d: nat): (c: char)
    requires d < 10
    ensures IsDigit(c) && c as int - '0' as int == d
  {
    ('0' as int + d) as char
  }

  function DigitValue(c: char): nat
    requires IsDigit(c)
  {
    c as int - '0' as int
  }

  /** Decimal digits of `n`, most significant first, without leading zeros. */
  function NatText(n: nat): (s: string)
    ensures |s| >= 1 && AllDigits(s)
    ensures s[0] == '0' ==> n == 0 && |s| == 1
    decreases n
  {
    if n < 10 then [DigitChar(n)] else NatText(n / 10) + [DigitChar(n % 10)]
  }

  /** The number a string of decimal digits denotes. */
  function DigitsValue(s: string): nat
    requires AllDigits(s)
  {
    if |s| == 0 then 0 else DigitsValue(s[..|s| - 1]) * 10 + DigitValue(s[|s| - 1])
  }

  lemma {:induction false} NatTextRoundTrip(n: nat)
    ensures DigitsValue(NatText(n)) == n
    decreases n
  {
    if n >= 10 {
      var s := NatText(n);
      assert s[..|s| - 1] == NatText(n / 10);
      NatTextRoundTrip(n / 10);
    }
  }

  /** How an integral JavaScript number prints: a '-' before the digits of
      a negative value, nothing before a non-negative one. */
  function IntText(n: int): (s: string)
    ensures |s| >= 1
    ensures s[0] == '-' <==> n < 0
    ensures AllDigits(s[1..])
    ensures n >= 0 ==> AllDigits(s)
    // canonical: no leading zeros, and no "-0"
    ensures s[0] == '0' ==> s == "0"
    ensures n < 0 ==> |s| >= 2 && s[1] != '0'
  {
    if n < 0 then "-" + NatText(-n) else NatText(n)
  }

  /** Reads back an optionally '-'-prefixed digit string. */
  function SignedValue(s: string): int
    requires |s| >= 1 && AllDigits(s[1..]) && (s[0] == '-' || IsDigit(s[0]))
  {
    if s[0] == '-' then -(DigitsValue(s[1..]) as int) else DigitsValue(s) as int
  }

  /** Reads back a sign character followed by digits: negative after '-',
      positive after anything else (the '+' a gain is printed with). */
  function PrefixedValue(s: string): int
    requires |s| >= 1 && AllDigits(s[1..])
  {
    if s[0] == '-' then SignedValue(s) else DigitsValue(s[1..]) as int
  }

  lemma IntTextRoundTrip(n: int)
    ensures SignedValue(IntText(n)) == n
  {
    if n < 0 {
      assert IntText(n)[1..] == NatText(-n);
      NatTextRoundTrip(-n);
    } else {
      NatTextRoundTrip(n);
    }
  }

  /** Distinct numbers never print alike. */
  lemma IntTextInjective(a: int, b: int)
    requires IntText(a) == IntText(b)
    ensures a == b
  {
    IntTextRoundTrip(a);
    IntTextRoundTrip(b);
  }
}
