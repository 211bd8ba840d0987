/**
 The reals that read back as a given double, and how the integers of the digit loop
 stand for them.
 */
module RoundingInterval {
  import opened Powers
  import opened RealPowers
  import opened Floating
  import opened DigitSpec

  ghost function DoubleValue(u: nat): real {
    FpValue(DecodeDouble(u))
  }

  /** Halfway to the neighbouring doubles. */
  ghost function LowerBoundary(u: nat): real
    requires PositiveDouble(u)
  {
    (DoubleValue(u - 1) + DoubleValue(u)) / 2.0
  }

  ghost function UpperBoundary(u: nat): real
    requires PositiveDouble(u)
  {
    (DoubleValue(u) + DoubleValue(u + 1)) / 2.0
  }

  /** A halfway point rounds to the double with the even significand. */
  predicate Even(u: nat) {
    DecodeDouble(u).f % 2 == 0
  }

  /** q rounds to u, where lowerTies says whether the lower halfway point does. */
  ghost predicate RoundsTo(u: nat, q: real, lowerTies: bool)
    requires PositiveDouble(u)
  {
    && (q > LowerBoundary(u) || (lowerTies && q == LowerBoundary(u)))
    && (q < UpperBoundary(u) || (Even(u) && q == UpperBoundary(u)))
  }

  /** The decimal d * 10^e. */
  ghost function Decimal(d: int, e: int): real {
    RMul(d as real, Ten(e))
  }

  /** The rounding interval ends before the power of ten above 10^exp10. */
  ghost predicate LargeExponent(u: nat, exp10: int)
    requires PositiveDouble(u)
  {
    UpperBoundary(u) < Ten(exp10 + 1) || (!Even(u) && UpperBoundary(u) == Ten(exp10 + 1))
  }

  /** The rounding interval reaches 10^exp10. */
  ghost predicate SmallExponent(u: nat, exp10: int)
    requires PositiveDouble(u)
  {
    Ten(exp10) < UpperBoundary(u) || (Even(u) && Ten(exp10) == UpperBoundary(u))
  }

  /** exp10 is the exponent of the largest power of ten not beyond the rounding interval. */
  ghost predicate CorrectExponent(u: nat, exp10: int)
    requires PositiveDouble(u)
  {
    SmallExponent(u, exp10) && LargeExponent(u, exp10)
  }

  ghost function Abs(x: real): real {
    if x < 0.0 then -x else x
  }

  /** digits * 10^e reads back as u, no decimal with a larger exponent does, and no other
      one with this exponent that does is nearer to u. */
  ghost predicate ShortestAndClosest(u: nat, d: int, e: int, lowerTies: bool)
    requires PositiveDouble(u)
  {
    && RoundsTo(u, Decimal(d, e), lowerTies)
    && (forall d': int, e': int :: e' > e ==> !RoundsTo(u, Decimal(d', e'), lowerTies))
    && (forall d': int :: RoundsTo(u, Decimal(d', e), lowerTies)
          ==> Abs(Decimal(d, e) - DoubleValue(u)) <= Abs(Decimal(d', e) - DoubleValue(u)))
  }

  // ---------- from integers to reals ----------

  /** x stands for u times factor / 2^shift, relative to 10^exp10. */
  ghost predicate StandsFor(x: Scaled, u: nat, exp10: int, shift: nat, factor: nat) {
    && x.s > 0 && x.below > 0 && 1 <= shift <= 2
    && shift == (if PredecessorCloser(u) then 2 else 1)
    && x.n == Mul(DecodeDouble(u).f * Pow(2, shift), x.below)
    && x.above == (if shift == 1 then x.below else 2 * x.below)
    && RMul(Two(DecodeDouble(u).e), x.s as real)
    == RMul(factor as real, RMul(x.below as real, Ten(exp10)))
  }

  /** A quarter of the lower unit counted in units of x.below: n, n - below and n + above
      are the value and its boundaries. */
  lemma BoundaryIdentities(x: Scaled, u: nat, exp10: int, shift: nat)
    requires PositiveDouble(u) && StandsFor(x, u, exp10, shift, Pow(2, shift))
    ensures RMul(DoubleValue(u), x.s as real) == RMul(x.n as real, Ten(exp10))
    ensures RMul(LowerBoundary(u), x.s as real) == RMul((x.n - x.below) as real, Ten(exp10))
    ensures RMul(UpperBoundary(u), x.s as real) == RMul((x.n + x.above) as real, Ten(exp10))
  {
    BoundaryOffsets(u);
    ValueIdentity(x, DecodeDouble(u).f, Two(DecodeDouble(u).e), shift, exp10);
    Margins(DoubleValue(u), LowerBoundary(u), UpperBoundary(u), Two(DecodeDouble(u).e),
            x.s as real, x.n, x.below, x.above, shift, Ten(exp10));
  }

  lemma Margins(v: real, lo: real, hi: real, p: real, s: real,
                n: int, below: int, above: int, shift: nat, t: real)
    requires 1 <= shift <= 2 && above == (if shift == 1 then below else 2 * below)
    requires lo == v - (if shift == 1 then 0.5 else 0.25) * p && hi == v + 0.5 * p
    requires RMul(v, s) == RMul(n as real, t)
    requires RMul(p, s) == RMul(Pow(2, shift) as real, RMul(below as real, t))
    ensures RMul(lo, s) == RMul((n - below) as real, t)
    ensures RMul(hi, s) == RMul((n + above) as real, t)
  {
    UnitIdentity(RMul(p, s), shift, below as real, above as real, t);
    var c := if shift == 1 then 0.5 else 0.25;
    Margin(v, lo, p, s, -c, n as real, -(below as real), (n - below) as real, t);
    Margin(v, hi, p, s, 0.5, n as real, above as real, (n + above) as real, t);
  }

  lemma BoundaryOffsets(u: nat)
    requires PositiveDouble(u)
    ensures LowerBoundary(u)
         == DoubleValue(u) - (if PredecessorCloser(u) then 0.25 else 0.5) * Two(DecodeDouble(u).e)
    ensures UpperBoundary(u) == DoubleValue(u) + 0.5 * Two(DecodeDouble(u).e)
  {
    Neighbours(u);
  }

  lemma UnitIdentity(ps: real, shift: nat, below: real, above: real, t: real)
    requires 1 <= shift <= 2 && above == if shift == 1 then below else 2.0 * below
    requires ps == RMul(Pow(2, shift) as real, RMul(below, t))
    ensures (if shift == 1 then 0.5 else 0.25) * ps == RMul(below, t)
    ensures 0.5 * ps == RMul(above, t)
    ensures -(if shift == 1 then 0.5 else 0.25) * ps == RMul(-below, t)
  {
    assert Pow(2, shift) == if shift == 1 then 2 else 4;
    RMulIs(Pow(2, shift) as real, RMul(below, t));
    RMulScale(2.0, below, t);
    RMulScale(-1.0, below, t);
  }

  /** Moving the value by c units p moves its scaled numerator n by the margin b. */
  lemma Margin(v: real, y: real, p: real, s: real, c: real, n: real, b: real, m: real, t: real)
    requires y == v + c * p && m == n + b
    requires RMul(v, s) == RMul(n, t) && c * RMul(p, s) == RMul(b, t)
    ensures RMul(y, s) == RMul(m, t)
  {
    RMulScale(c, p, s);
    RMulAdd(v, c * p, s);
    RMulAdd(n, b, t);
  }

  lemma ValueIdentity(x: Scaled, f: nat, p: real, shift: nat, exp10: int)
    requires x.n == Mul(f * Pow(2, shift), x.below)
    requires RMul(p, x.s as real)
          == RMul(Pow(2, shift) as real, RMul(x.below as real, Ten(exp10)))
    ensures RMul(RMul(f as real, p), x.s as real) == RMul(x.n as real, Ten(exp10))
  {
    var c, b, t := Pow(2, shift) as real, x.below as real, Ten(exp10);
    RMulAssoc(f as real, p, x.s as real);
    RMulAssoc(f as real, c, RMul(b, t));
    RealOfMul(f, Pow(2, shift));
    MulIs(f, Pow(2, shift));
    RMulAssoc(RMul(f as real, c), b, t);
    RealOfMul(f * Pow(2, shift), x.below);
  }

  /** Order between a decimal and a boundary y, against order between integers. */
  lemma ScaledOrder(d: real, t: real, y: real, s: real, p: real, T: real, m: real)
    requires s > 0.0 && p > 0.0 && T > 0.0
    requires T == RMul(t, p) && RMul(y, s) == RMul(m, T)
    ensures RMul(d, t) < y <==> RMul(d, s) < RMul(m, p)
    ensures RMul(d, t) == y <==> RMul(d, s) == RMul(m, p)
    ensures RMul(RMul(RMul(d, t) - y, s), p) == RMul(RMul(d, s) - RMul(m, p), T)
  {
    var q := RMul(d, t);
    FourFactors(d, t, s, p);
    RMulAssoc(m, T, p);
    RMulCommutes(T, p);
    RMulAssoc(m, p, T);
    RMulCancel(q, y, s);
    RMulCancel(RMul(q, s), RMul(y, s), p);
    RMulCancel(RMul(d, s), RMul(m, p), T);
    RMulSub(q, y, s);
    RMulSub(RMul(q, s), RMul(y, s), p);
    RMulSub(RMul(d, s), RMul(m, p), T);
  }

  lemma FourFactors(d: real, t: real, s: real, p: real)
    ensures RMul(RMul(RMul(d, t), s), p) == RMul(RMul(d, s), RMul(t, p))
  {
    RMulAssoc(d, t, s);
    RMulCommutes(t, s);
    RMulAssoc(d, s, t);
    RMulAssoc(RMul(d, s), t, p);
  }

  /** The candidate d with k digits after the first, against an integer boundary m. */
  lemma CandidateOrder(x: Scaled, exp10: int, d: int, k: nat, y: real, m: int)
    requires x.s > 0 && RMul(y, x.s as real) == RMul(m as real, Ten(exp10))
    ensures Decimal(d, exp10 - k) < y <==> Mul(d, x.s) < Mul(m, Pow(10, k))
    ensures Decimal(d, exp10 - k) == y <==> Mul(d, x.s) == Mul(m, Pow(10, k))
    ensures RMul(RMul(Decimal(d, exp10 - k) - y, x.s as real), Pow(10, k) as real)
         == RMul((Mul(d, x.s) - Mul(m, Pow(10, k))) as real, Ten(exp10))
  {
    TenAdd(exp10 - k, k);
    TenIsPow(k);
    RealOfMul(d, x.s);
    RealOfMul(m, Pow(10, k));
    ScaledOrder(d as real, Ten(exp10 - k), y, x.s as real, Pow(10, k) as real, Ten(exp10), m as real);
  }

  /** A power of ten against a boundary. */
  lemma PowerOrder(x: Scaled, exp10: int, c: int, y: real, m: int)
    requires x.s > 0 && RMul(y, x.s as real) == RMul(m as real, Ten(exp10))
    ensures RMul(c as real, Ten(exp10)) < y <==> c * x.s < m
    ensures RMul(c as real, Ten(exp10)) == y <==> c * x.s == m
  {
    CandidateOrder(x, exp10, c, 0, y, m);
    MulIs(c, x.s);
    MulOne(m);
  }

  lemma CandidateInside(x: Scaled, u: nat, exp10: int, shift: nat, d: int, k: nat)
    requires PositiveDouble(u) && StandsFor(x, u, exp10, shift, Pow(2, shift))
    requires x.upperTies == Even(u)
    ensures x.Inside(d, k) <==> RoundsTo(u, Decimal(d, exp10 - k), x.lowerTies)
  {
    BoundaryIdentities(x, u, exp10, shift);
    CandidateOrder(x, exp10, d, k, LowerBoundary(u), x.n - x.below);
    CandidateOrder(x, exp10, d, k, UpperBoundary(u), x.n + x.above);
    MulSub(x.n, x.below, Pow(10, k));
    MulAdd(x.n, x.above, Pow(10, k));
  }

  /** Distances to the value compare as the integer distances do. */
  lemma CandidateDistance(x: Scaled, u: nat, exp10: int, shift: nat, d: int, d': int, k: nat)
    requires PositiveDouble(u) && StandsFor(x, u, exp10, shift, Pow(2, shift))
    requires x.Distance(d, k) <= x.Distance(d', k)
    ensures Abs(Decimal(d, exp10 - k) - DoubleValue(u))
         <= Abs(Decimal(d', exp10 - k) - DoubleValue(u))
  {
    BoundaryIdentities(x, u, exp10, shift);
    CandidateOrder(x, exp10, d, k, DoubleValue(u), x.n);
    CandidateOrder(x, exp10, d', k, DoubleValue(u), x.n);
    AbsOrder(Decimal(d, exp10 - k) - DoubleValue(u), Decimal(d', exp10 - k) - DoubleValue(u),
             x.s as real, Pow(10, k) as real, Ten(exp10),
             Mul(d, x.s) - Mul(x.n, Pow(10, k)), Mul(d', x.s) - Mul(x.n, Pow(10, k)));
  }

  lemma AbsOrder(a: real, b: real, s: real, p: real, t: real, i: int, j: int)
    requires s > 0.0 && p > 0.0 && t > 0.0
    requires RMul(RMul(a, s), p) == RMul(i as real, t) && RMul(RMul(b, s), p) == RMul(j as real, t)
    requires (if i < 0 then -i else i) <= (if j < 0 then -j else j)
    ensures Abs(a) <= Abs(b)
  {
    AbsScaled(a, s, p, t, i);
    AbsScaled(b, s, p, t, j);
    var i', j' := if i < 0 then -i else i, if j < 0 then -j else j;
    RMulMonotone(i' as real, j' as real, t);
    RMulCancel(Abs(b), Abs(a), s);
    RMulCancel(RMul(Abs(b), s), RMul(Abs(a), s), p);
  }

  lemma AbsScaled(a: real, s: real, p: real, t: real, i: int)
    requires s > 0.0 && p > 0.0 && t > 0.0 && RMul(RMul(a, s), p) == RMul(i as real, t)
    ensures RMul(RMul(Abs(a), s), p) == RMul((if i < 0 then -i else i) as real, t)
  {
    RMulScale(-1.0, a, s);
    RMulScale(-1.0, RMul(a, s), p);
    RMulScale(-1.0, i as real, t);
    RMulIs(0.0, s);
    RMulIs(0.0, p);
    RMulIs(0.0, t);
    RMulCancel(a, 0.0, s);
    RMulCancel(RMul(a, s), 0.0, p);
    RMulCancel(i as real, 0.0, t);
    RMulCancel(0.0, a, s);
    RMulCancel(0.0, RMul(a, s), p);
    RMulCancel(0.0, i as real, t);
  }

  /** Best among the scaled candidates is shortest and closest among all decimals. */
  lemma BestIsShortest(x: Scaled, u: nat, exp10: int, shift: nat, d: int, k: nat)
    requires PositiveDouble(u) && LargeExponent(u, exp10)
    requires StandsFor(x, u, exp10, shift, Pow(2, shift)) && x.upperTies == Even(u)
    requires x.Best(d, k)
    ensures ShortestAndClosest(u, d, exp10 - k, x.lowerTies)
  {
    var e := exp10 - k;
    CandidateInside(x, u, exp10, shift, d, k);
    forall d': int, e': int | e' > e
      ensures !RoundsTo(u, Decimal(d', e'), x.lowerTies)
    {
      if e' > exp10 {
        TooCoarse(u, exp10, d', e', x.lowerTies);
      } else {
        CandidateInside(x, u, exp10, shift, d', exp10 - e');
      }
    }
    forall d': int | RoundsTo(u, Decimal(d', e), x.lowerTies)
      ensures Abs(Decimal(d, e) - DoubleValue(u)) <= Abs(Decimal(d', e) - DoubleValue(u))
    {
      CandidateInside(x, u, exp10, shift, d', k);
      CandidateDistance(x, u, exp10, shift, d, d', k);
    }
  }

  /** Beyond 10^exp10 only zero and numbers past the upper boundary remain. */
  lemma TooCoarse(u: nat, exp10: int, d: int, e: int, lowerTies: bool)
    requires PositiveDouble(u) && LargeExponent(u, exp10) && e > exp10
    ensures !RoundsTo(u, Decimal(d, e), lowerTies)
  {
    var t := Ten(e);
    RMulIs(d as real, t);
    TenMonotone(exp10 + 1, e);
    LowerPositive(u);
    RMulIs(1.0, t);
    RMulIs(0.0, t);
    if d >= 1 {
      RMulMonotone(1.0, d as real, t);
    } else {
      RMulMonotone(d as real, 0.0, t);
    }
  }

  lemma LowerPositive(u: nat)
    requires PositiveDouble(u)
    ensures LowerBoundary(u) > 0.0 && UpperBoundary(u) > Two(DecodeDouble(u).e)
  {
    var x, y := DecodeDouble(u), DecodeDouble(u - 1);
    Neighbours(u);
    DecodedRange(u);
    RMulIs(y.f as real, Two(y.e));
    RMulIs(1.0, Two(x.e));
    RMulMonotone(1.0, x.f as real, Two(x.e));
  }

  // ---------- how long the shortest decimal is ----------

  /** The interval is wider than the seventeenth place of its upper end. */
  lemma IntervalIsWide(u: nat, t: real)
    requires PositiveDouble(u) && 10000000000000000.0 * t <= UpperBoundary(u)
    ensures t < UpperBoundary(u) - LowerBoundary(u)
  {
    DecodedRange(u);
    BoundaryOffsets(u);
    var x := DecodeDouble(u);
    var f, p := x.f as real, Two(x.e);
    RMulIs(f, p);
    RMulMonotone(f, if PredecessorCloser(u) then TWO_52 as real else 2.0 * (TWO_52 as real), p);
    RMulIs(TWO_52 as real, p);
    RMulIs(2.0 * (TWO_52 as real), p);
  }

  /** A multiple of t below y and at most t away from it. */
  lemma MultipleBelow(y: real, t: real) returns (m: int)
    requires t > 0.0
    ensures RMul(m as real, t) < y <= RMul((m + 1) as real, t)
  {
    var q := y / t;
    m := if q.Floor as real == q then q.Floor - 1 else q.Floor;
    RMulIs(q, t);
    assert q * t == y;
    RMulCancel(m as real, q, t);
    RMulCancel(q, (m + 1) as real, t);
  }

  /** So a shortest decimal is below 10^17. */
  lemma ShortestIsSmall(u: nat, d: int, e: int, lowerTies: bool)
    requires PositiveDouble(u) && ShortestAndClosest(u, d, e, lowerTies)
    ensures d < 100000000000000000
  {
    if d >= 100000000000000000 {
      var t := Ten(e + 1);
      RMulMonotone(100000000000000000.0, d as real, Ten(e));
      RMulIs(100000000000000000.0, Ten(e));
      TenAdd(1, e);
      RMulIs(10.0, Ten(e));
      IntervalIsWide(u, t);
      var m := MultipleBelow(UpperBoundary(u), t);
      RMulAdd(m as real, 1.0, t);
      RMulIs(1.0, t);
      assert Decimal(m, e + 1) == RMul(m as real, t);
      assert RoundsTo(u, Decimal(m, e + 1), lowerTies);
    }
  }
}
