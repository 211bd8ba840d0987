/** Decimal representation of natural numbers, the inverse of reading digits. */
module Decimals {
  import opened Powers
  import opened DigitSpec

  function DigitOf(n: nat): (c: char)
    requires n < 10
    ensures IsDigit(c) && c as int - '0' as int == n
  {
    '0' + (n as char)
  }

  /** The decimal digits of n, without leading zeros. */
  function Decimal(n: nat): (s: string)
    ensures |s| >= 1
  {
    if n < 10 then [DigitOf(n)] else Decimal(n / 10) + [DigitOf(n % 10)]
  }

  lemma {:induction false} DecimalReadsBack(n: nat)
    ensures AllDigits(Decimal(n)) && DecimalValue(Decimal(n)) == n
    ensures n > 0 ==> Decimal(n)[0] != '0'
  {
    if n < 10 {
      DecimalSnoc([], DigitOf(n));
      assert [] + [DigitOf(n)] == Decimal(n);
    } else {
      var q, r := n / 10, n % 10;
      DecimalReadsBack(q);
      OneMoreDigit(Decimal(q), q, r);
      assert n == 10 * q + r;
    }
  }

  lemma OneMoreDigit(s: string, n: nat, d: nat)
    requires |s| >= 1 && AllDigits(s) && DecimalValue(s) == n && s[0] != '0' && d < 10
    ensures AllDigits(s + [DigitOf(d)]) && DecimalValue(s + [DigitOf(d)]) == 10 * n + d
    ensures (s + [DigitOf(d)])[0] != '0'
  {
    DecimalSnoc(s, DigitOf(d));
  }

  lemma DecimalIsInjective(a: nat, b: nat)
    requires Decimal(a) == Decimal(b)
    ensures a == b
  {
    DecimalReadsBack(a);
    DecimalReadsBack(b);
  }

  lemma DecimalExtends(n: nat, d: nat)
    requires n >= 1 && d < 10
    ensures Decimal(10 * n + d) == Decimal(n) + [DigitOf(d)]
  {
    assert (10 * n + d) / 10 == n && (10 * n + d) % 10 == d;
  }

  lemma OneDigit(c: char)
    requires IsDigit(c)
    ensures DecimalValue([c]) == c as int - '0' as int && Decimal(c as int - '0' as int) == [c]
  {
    assert [c][..0] == [];
  }

  /** Digits without leading zeros are the decimal representation of their value. */
  lemma {:induction false} ReadingIsDecimal(s: string)
    requires |s| >= 1 && AllDigits(s) && s[0] != '0'
    ensures DecimalValue(s) >= 1 && s == Decimal(DecimalValue(s))
  {
    var n := |s| - 1;
    assert s == s[..n] + [s[n]];
    if n == 0 {
      OneDigit(s[0]);
    } else {
      ReadingIsDecimal(s[..n]);
      DecimalExtends(DecimalValue(s[..n]), s[n] as int - '0' as int);
    }
  }

  /** The number of decimal digits of n. */
  lemma {:induction false} DecimalLength(n: nat)
    ensures n < Pow(10, |Decimal(n)|)
    ensures n > 0 ==> Pow(10, |Decimal(n)| - 1) <= n
  {
    if n >= 10 {
      DecimalLength(n / 10);
    }
  }
}
