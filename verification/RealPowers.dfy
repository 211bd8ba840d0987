/**
 Powers of two and ten with integer exponents of either sign, for statements about the
 real numbers that floating-point and decimal notations denote.
 */
module RealPowers {
  import opened Powers

  /** The product of reals, as a function of its own (compare Powers.Mul). */
  function RMul(a: real, b: real): real {
    a * b
  }

  function Two(n: int): (r: real)
    ensures r > 0.0
    decreases if n < 0 then -n else n
  {
    if n == 0 then 1.0 else if n > 0 then 2.0 * Two(n - 1) else Two(n + 1) / 2.0
  }

  function Ten(n: int): (r: real)
    ensures r > 0.0
    decreases if n < 0 then -n else n
  {
    if n == 0 then 1.0 else if n > 0 then 10.0 * Ten(n - 1) else Ten(n + 1) / 10.0
  }

  lemma RMulIs(a: real, b: real)
    ensures RMul(a, b) == a * b
    ensures a > 0.0 && b > 0.0 ==> RMul(a, b) > 0.0
    ensures a >= 0.0 && b >= 0.0 ==> RMul(a, b) >= 0.0
  {
  }

  /** Multiplying the left factor by a constant. */
  lemma RMulScale(c: real, a: real, b: real)
    ensures RMul(c * a, b) == c * RMul(a, b)
    ensures RMul(a, c * b) == c * RMul(a, b)
  {
  }

  lemma RMulAdd(a: real, b: real, c: real)
    ensures RMul(a + b, c) == RMul(a, c) + RMul(b, c)
  {
  }

  lemma RMulSub(a: real, b: real, c: real)
    ensures RMul(a - b, c) == RMul(a, c) - RMul(b, c)
  {
  }

  lemma RMulCommutes(a: real, b: real)
    ensures RMul(a, b) == RMul(b, a)
  {
  }

  lemma RMulAssoc(a: real, b: real, c: real)
    ensures RMul(RMul(a, b), c) == RMul(a, RMul(b, c))
  {
  }

  lemma RMulMonotone(a: real, b: real, c: real)
    requires a <= b && c >= 0.0
    ensures RMul(a, c) <= RMul(b, c)
  {
    RMulSub(b, a, c);
    RMulIs(b - a, c);
  }

  lemma RMulCancel(a: real, b: real, c: real)
    requires c > 0.0
    ensures RMul(a, c) < RMul(b, c) <==> a < b
    ensures RMul(a, c) == RMul(b, c) <==> a == b
  {
    RMulSub(b, a, c);
    RMulSub(a, b, c);
    RMulIs(b - a, c);
    RMulIs(a - b, c);
  }

  lemma RealOfMul(a: int, b: int)
    ensures Mul(a, b) as real == RMul(a as real, b as real)
  {
  }

  lemma {:induction false} TwoAdd(m: int, n: int)
    ensures Two(m + n) == RMul(Two(m), Two(n))
    decreases if m < 0 then -m else m
  {
    if m == 0 {
      RMulIs(1.0, Two(n));
    } else if m > 0 {
      TwoAdd(m - 1, n);
      RMulScale(2.0, Two(m - 1), Two(n));
    } else {
      TwoAdd(m + 1, n);
      RMulScale(2.0, Two(m), Two(n));
    }
  }

  lemma {:induction false} TenAdd(m: int, n: int)
    ensures Ten(m + n) == RMul(Ten(m), Ten(n))
    decreases if m < 0 then -m else m
  {
    if m == 0 {
      RMulIs(1.0, Ten(n));
    } else if m > 0 {
      TenAdd(m - 1, n);
      RMulScale(10.0, Ten(m - 1), Ten(n));
    } else {
      TenAdd(m + 1, n);
      RMulScale(10.0, Ten(m), Ten(n));
    }
  }

  lemma {:induction false} TwoIsPow(n: nat)
    ensures Two(n) == Pow(2, n) as real
  {
    if n > 0 {
      TwoIsPow(n - 1);
    }
  }

  lemma {:induction false} TenIsPow(n: nat)
    ensures Ten(n) == Pow(10, n) as real
  {
    if n > 0 {
      TenIsPow(n - 1);
    }
  }

  lemma {:induction false} TwoMonotone(m: int, n: int)
    requires m <= n
    ensures Two(m) <= Two(n)
    decreases n - m
  {
    if m < n {
      TwoMonotone(m, n - 1);
    }
  }

  lemma {:induction false} TenMonotone(m: int, n: int)
    requires m <= n
    ensures Ten(m) <= Ten(n)
    decreases n - m
  {
    if m < n {
      TenMonotone(m, n - 1);
    }
  }
}
