/** Python's decimal rendering of an integer (`str(t)`, as used inside an
    f-string), and the parser that reads it back. */
module Decimal {
  import opened Arith

  predicate IsDigit(c: char)
  {
    '0' <= c <= '9'
  }

  predicate AllDigits(s: string)
  {
    forall i :: 0 <= i < |s| ==> IsDigit(s[i])
  }

  function DigitChar(d: nat): (c: char)
    requires d < 10
  {
    (('0' as int) + d) as char
  }

  function DigitValue(c: char): nat
    requires IsDigit(c)
  {
    (c as int) - ('0' as int)
  }

  /** The decimal digits of n, most significant first, without leading zeros. */
  function NatToDecimal(n: nat): string
    decreases n
  {
    if n < 10 then [DigitChar(n)] else NatToDecimal(n / 10) + [DigitChar(n % 10)]
  }

  /** Decimal text of t, with a leading '-' when t is negative. It is the one
      canonical numeral for t: it reads back as t, "0" is the only text that
      starts with a zero, and no "-0" prefix occurs. */
  function IntToDecimal(t: int): (s: string)
    ensures IsDecimalInt(s) && ParseInt(s) == t
    ensures s[0] == '-' <==> t < 0
    ensures s[0] == '0' ==> s == "0" && t == 0
    ensures s[0] == '-' ==> s[1] != '0'
  {
    if t < 0 then
      NatToDecimalRoundTrip(-t);
      var s := "-" + NatToDecimal(-t);
      assert s[1..] == NatToDecimal(-t);
      s
    else
      NatToDecimalRoundTrip(t);
      assert IsDigit(NatToDecimal(t)[0]);
      NatToDecimal(t)
  }

  /** The value of a string of decimal digits. */
  function ParseNat(s: string): nat
    requires AllDigits(s)
  {
    if s == [] then 0 else 10 * ParseNat(s[..|s| - 1]) + DigitValue(s[|s| - 1])
  }

  /** A non-empty digit string, optionally preceded by '-'. */
  predicate IsDecimalInt(s: string)
  {
    (|s| > 0 && AllDigits(s)) || (|s| > 1 && s[0] == '-' && AllDigits(s[1..]))
  }

  function ParseInt(s: string): int
    requires IsDecimalInt(s)
  {
    if s[0] == '-' then -(ParseNat(s[1..]) as int) else ParseNat(s)
  }

  /** The digits of n read back as n, and they carry no leading zero. */
  lemma {:induction false} NatToDecimalRoundTrip(n: nat)
    ensures |NatToDecimal(n)| > 0 && AllDigits(NatToDecimal(n))
    ensures ParseNat(NatToDecimal(n)) == n
    ensures NatToDecimal(n)[0] == '0' ==> n == 0
    decreases n
  {
    if n >= 10 {
      NatToDecimalRoundTrip(n / 10);
      var s := NatToDecimal(n);
      assert s[..|s| - 1] == NatToDecimal(n / 10);
      assert s[0] == NatToDecimal(n / 10)[0];
    }
  }

  /** A positive n has k decimal digits exactly when 10^(k-1) <= n < 10^k. */
  lemma {:induction false} NatToDecimalLength(n: nat)
    requires n >= 1
    ensures Pow(10, |NatToDecimal(n)| - 1) <= n < Pow(10, |NatToDecimal(n)|)
    decreases n
  {
    if n >= 10 {
      NatToDecimalLength(n / 10);
      var k := |NatToDecimal(n / 10)|;
      assert |NatToDecimal(n)| == k + 1;
      assert Pow(10, k) == 10 * Pow(10, k - 1);
      assert Pow(10, k + 1) == 10 * Pow(10, k);
    }
  }
}
