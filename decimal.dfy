/**
 * Decimal rendering of integers, as a JavaScript template literal `${n}` renders
 * an integral number (no exponent form; see README for the range left out).
 */
module Decimal {

  function DigitChar(d: nat): (c: char)
    requires d < 10
    ensures '0' <= c <= '9'
  {
    "0123456789"[d]
  }

  function DigitValue(c: char): nat
  {
    if '0' <= c <= '9' then (c as int - '0' as int) as nat else 0
  }

  predicate IsDigit(c: char) { '0' <= c <= '9' }

  /** The shortest decimal numeral of `n`. */
  function NatToString(n: nat): (s: string)
    ensures |s| >= 1
    ensures forall i :: 0 <= i < |s| ==> IsDigit(s[i])
    ensures s[0] == '0' ==> n == 0 && |s| == 1
    decreases n
  {
    if n < 10 then [DigitChar(n)] else NatToString(n / 10) + [DigitChar(n % 10)]
  }

  /** The numeral of `n`, with a leading minus sign when it is negative. */
  function IntToString(n: int): (s: string)
    ensures |s| >= 1
    ensures n < 0 <==> s[0] == '-'
  {
    if n < 0 then "-" + NatToString(-n) else NatToString(n)
  }

  /** Reads a string of decimal digits back as a number (the partner of NatToString). */
  function ParseNat(s: string): nat
  {
    if |s| == 0 then 0 else ParseNat(s[..|s| - 1]) * 10 + DigitValue(s[|s| - 1])
  }

  function ParseInt(s: string): int
  {
    if |s| > 0 && s[0] == '-' then -(ParseNat(s[1..]) as int) else ParseNat(s)
  }

  lemma {:induction false} NatRoundTrip(n: nat)
    ensures ParseNat(NatToString(n)) == n
    decreases n
  {
    var s := NatToString(n);
    if n < 10 {
      assert s[..|s| - 1] == [];
    } else {
      NatRoundTrip(n / 10);
      assert s[..|s| - 1] == NatToString(n / 10);
    }
  }

  lemma ParseNegative(t: string)
    ensures ParseInt("-" + t) == -(ParseNat(t) as int)
  {
    assert ("-" + t)[0] == '-' && ("-" + t)[1..] == t;
  }

  lemma ParseDigits(t: string)
    requires |t| > 0 && IsDigit(t[0])
    ensures ParseInt(t) == ParseNat(t)
  {
  }

  lemma NegativeRoundTrip(n: int)
    requires n < 0
    ensures ParseInt(IntToString(n)) == n
  {
    var m: nat := -n;
    var t := NatToString(m);
    assert IntToString(n) == "-" + t;
    NatRoundTrip(m);
    ParseNegative(t);
  }

  /** Reading back a rendered integer gives the integer: the rendering loses nothing. */
  lemma IntRoundTrip(n: int)
    ensures ParseInt(IntToString(n)) == n
  {
    if n < 0 {
      NegativeRoundTrip(n);
    } else {
      NatRoundTrip(n);
      ParseDigits(NatToString(n));
    }
  }

  /** Distinct integers render as distinct strings. */
  lemma IntToStringInjective(m: int, n: int)
    ensures IntToString(m) == IntToString(n) ==> m == n
  {
    IntRoundTrip(m);
    IntRoundTrip(n);
  }
}
