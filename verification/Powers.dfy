/**
 Multiplication and powers of natural numbers, with the few facts about them that the
 arithmetic modules share.
 */
module Powers {

  const TWO_31 := 0x8000_0000
  const TWO_32 := 0x1_0000_0000
  const TWO_63 := 0x8000_0000_0000_0000
  const TWO_64 := 0x1_0000_0000_0000_0000

  /** A 64-bit unsigned integer: every assignment to one is free of wrap-around. */
  type U64 = x: int | 0 <= x < TWO_64

  /** The product, as a function of its own: proofs that only move products around state
      them with Mul and use the lemmas below, one law at a time. */
  function Mul(x: int, n: int): int {
    x * n
  }

  lemma MulIs(x: int, n: int)
    ensures Mul(x, n) == x * n
    ensures x >= 0 && n >= 0 ==> Mul(x, n) >= 0
  {
  }

  /** Equal factors give equal products, whatever shape the factors have. */
  lemma MulEqual(a: int, b: int, p: int)
    requires a == b
    ensures Mul(a, p) == Mul(b, p)
  {
  }

  lemma MulAdd(a: int, b: int, p: int)
    ensures Mul(a + b, p) == Mul(a, p) + Mul(b, p)
  {
    MulIs(a + b, p);
    MulIs(a, p);
    MulIs(b, p);
    Distribute(a, b, p);
  }

  lemma MulSub(a: int, b: int, p: int)
    ensures Mul(a - b, p) == Mul(a, p) - Mul(b, p)
  {
    MulAdd(a - b, b, p);
  }

  lemma MulOne(p: int)
    ensures Mul(1, p) == p && Mul(0, p) == 0
    ensures Mul(p, 1) == p
  {
    MulIs(1, p);
    MulIs(0, p);
    MulIs(p, 1);
  }

  lemma MulNext(a: int, p: int)
    ensures Mul(a + 1, p) == Mul(a, p) + p
  {
    MulAdd(a, 1, p);
    MulOne(p);
  }

  lemma MulAssoc(a: int, b: int, c: int)
    ensures Mul(Mul(a, b), c) == Mul(a, Mul(b, c))
  {
    MulIs(a, b);
    MulIs(b, c);
    MulIs(a * b, c);
    MulIs(a, b * c);
    TimesAssoc(a, b, c);
  }

  lemma MulCommutes(a: int, b: int)
    ensures Mul(a, b) == Mul(b, a)
  {
    MulIs(a, b);
    MulIs(b, a);
  }

  lemma MulSwap(a: int, b: int, c: int)
    ensures Mul(Mul(a, b), c) == Mul(Mul(a, c), b)
  {
    MulAssoc(a, b, c);
    MulAssoc(a, c, b);
    MulCommutes(b, c);
  }

  lemma MulMonotone(a: int, b: int, p: nat)
    requires a <= b
    ensures Mul(a, p) <= Mul(b, p)
  {
    MulSub(b, a, p);
  }

  lemma MulStrict(a: int, b: int, p: nat)
    requires a < b && 0 < p
    ensures Mul(a, p) < Mul(b, p)
  {
    MulMonotone(a + 1, b, p);
    MulNext(a, p);
  }

  lemma MulCancel(a: int, b: int, p: nat)
    requires 0 < p
    ensures Mul(a, p) < Mul(b, p) <==> a < b
    ensures Mul(a, p) == Mul(b, p) <==> a == b
  {
    if a < b { MulStrict(a, b, p); }
    if b < a { MulStrict(b, a, p); }
  }

  function Signum(x: int): int {
    if x > 0 then 1 else if x < 0 then -1 else 0
  }

  // ---------- the same laws for the built-in product ----------

  lemma Distribute(a: int, b: int, p: int)
    ensures (a + b) * p == a * p + b * p
    ensures (a - b) * p == a * p - b * p
  {
  }

  lemma TimesAssoc(a: int, b: int, c: int)
    ensures (a * b) * c == a * (b * c)
  {
  }

  lemma TimesMonotone(a: int, b: int, p: int)
    requires a <= b && 0 <= p
    ensures a * p <= b * p
  {
  }

  lemma TimesStrict(a: int, b: int, p: int)
    requires a < b && 0 < p
    ensures a * p < b * p
  {
  }

  // ---------- powers ----------

  function Pow(b: nat, n: nat): (r: nat)
    ensures b > 0 ==> r > 0
  {
    if n == 0 then 1 else b * Pow(b, n - 1)
  }

  lemma {:induction false} PowAdd(b: nat, m: nat, n: nat)
    ensures Pow(b, m + n) == Pow(b, m) * Pow(b, n)
  {
    if m > 0 {
      PowAdd(b, m - 1, n);
      TimesAssoc(b, Pow(b, m - 1), Pow(b, n));
    }
  }

  lemma TimesInterchange(a: int, b: int, x: int, y: int)
    ensures (a * b) * (x * y) == (a * x) * (b * y)
  {
    calc {
      (a * b) * (x * y);
      { TimesAssoc(a, b, x * y); }
      a * (b * (x * y));
      { TimesAssoc(x, y, b); }
      a * (x * (b * y));
      { TimesAssoc(a, x, b * y); }
      (a * x) * (b * y);
    }
  }

  lemma {:induction false} PowOfProduct(a: nat, b: nat, n: nat)
    ensures Pow(a * b, n) == Pow(a, n) * Pow(b, n)
  {
    if n > 0 {
      PowOfProduct(a, b, n - 1);
      TimesInterchange(a, b, Pow(a, n - 1), Pow(b, n - 1));
    }
  }

  lemma {:induction false} PowOfPow(b: nat, m: nat, n: nat)
    ensures Pow(Pow(b, m), n) == Pow(b, m * n)
  {
    if n == 0 {
      assert m * n == 0;
    } else {
      PowOfPow(b, m, n - 1);
      assert m * n == m + m * (n - 1);
      PowAdd(b, m, m * (n - 1));
    }
  }

  lemma {:induction false} PowMonotone(b: nat, m: nat, n: nat)
    requires b >= 1 && m <= n
    ensures Pow(b, m) <= Pow(b, n)
  {
    if m < n {
      PowMonotone(b, m, n - 1);
      TimesMonotone(1, b, Pow(b, n - 1));
    }
  }

  lemma PowStrict(b: nat, m: nat, n: nat)
    requires b >= 2 && m < n
    ensures Pow(b, m) < Pow(b, n)
  {
    PowMonotone(b, m, n - 1);
    TimesMonotone(2, b, Pow(b, n - 1));
  }

  lemma {:induction false} PowBaseMonotone(a: nat, b: nat, n: nat)
    requires a <= b
    ensures Pow(a, n) <= Pow(b, n)
  {
    if n > 0 {
      PowBaseMonotone(a, b, n - 1);
      TimesMonotone(Pow(a, n - 1), Pow(b, n - 1), a);
      TimesMonotone(a, b, Pow(b, n - 1));
    }
  }

  /** The literal powers of two that fixed-width code relies on. */
  lemma PowersOfTwo()
    ensures Pow(2, 10) == 0x400
    ensures Pow(2, 32) == 0x1_0000_0000
    ensures Pow(2, 63) == 0x8000_0000_0000_0000
    ensures Pow(2, 64) == 0x1_0000_0000_0000_0000
  {
    PowAdd(2, 5, 5);
    PowAdd(2, 10, 10);
    PowAdd(2, 20, 10);
    PowAdd(2, 30, 2);
    PowAdd(2, 32, 31);
    PowAdd(2, 31, 1);
  }

  /** The literal powers of ten that the tables hold. */
  lemma PowersOfTen()
    ensures Pow(10, 0) == 1
    ensures Pow(10, 1) == 10
    ensures Pow(10, 2) == 100
    ensures Pow(10, 3) == 1000
    ensures Pow(10, 4) == 10000
    ensures Pow(10, 5) == 100000
    ensures Pow(10, 6) == 1000000
    ensures Pow(10, 7) == 10000000
    ensures Pow(10, 8) == 100000000
    ensures Pow(10, 9) == 1000000000
    ensures Pow(10, 10) == 10000000000
    ensures Pow(10, 11) == 100000000000
    ensures Pow(10, 12) == 1000000000000
    ensures Pow(10, 13) == 10000000000000
    ensures Pow(10, 14) == 100000000000000
    ensures Pow(10, 15) == 1000000000000000
    ensures Pow(10, 16) == 10000000000000000
    ensures Pow(10, 17) == 100000000000000000
    ensures Pow(10, 18) == 1000000000000000000
    ensures Pow(10, 19) == 10000000000000000000
    ensures Pow(10, 20) == 100000000000000000000
  {
    PowAdd(10, 1, 1);
    PowAdd(10, 2, 1);
    PowAdd(10, 3, 1);
    PowAdd(10, 4, 1);
    PowAdd(10, 5, 1);
    PowAdd(10, 6, 1);
    PowAdd(10, 7, 1);
    PowAdd(10, 8, 1);
    PowAdd(10, 9, 1);
    PowAdd(10, 10, 1);
    PowAdd(10, 11, 1);
    PowAdd(10, 12, 1);
    PowAdd(10, 13, 1);
    PowAdd(10, 14, 1);
    PowAdd(10, 15, 1);
    PowAdd(10, 16, 1);
    PowAdd(10, 17, 1);
    PowAdd(10, 18, 1);
    PowAdd(10, 19, 1);
  }

  // ---------- division ----------

  lemma DivisionFact(a: nat, d: nat)
    requires d > 0
    ensures a == a / d * d + a % d && 0 <= a % d < d
    ensures a == Mul(a / d, d) + a % d
  {
    MulIs(a / d, d);
  }

  lemma UniqueDivision(q1: int, q2: int, s: nat, r1: int, r2: int)
    requires s > 0 && Mul(q1, s) + r1 == Mul(q2, s) + r2 && 0 <= r1 < s && 0 <= r2 < s
    ensures q1 == q2 && r1 == r2
  {
    if q1 < q2 {
      MulMonotone(q1 + 1, q2, s);
      MulNext(q1, s);
    } else if q2 < q1 {
      MulMonotone(q2 + 1, q1, s);
      MulNext(q2, s);
    }
  }

  lemma QuotientIs(a: nat, d: nat, q: nat)
    requires d > 0 && Mul(q, d) <= a < Mul(q, d) + d
    ensures a / d == q && a % d == a - Mul(q, d)
  {
    DivisionFact(a, d);
    UniqueDivision(a / d, q, d, a % d, a - Mul(q, d));
  }
}
