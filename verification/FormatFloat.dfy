/**
 Shortest output of a double: Grisu on 64-bit approximations of the value and its
 boundaries, and the exact formatter when Grisu cannot tell.
 */
module FormatFloat {
  import opened Powers
  import opened RealPowers
  import opened Floating
  import opened RoundingInterval
  import opened BigInteger
  import opened DigitSpec
  import opened Grisu
  import opened GrisuShortest
  import Fallback = FallbackFormat

  /** An entry of the table of powers of ten: the normalized 64-bit significand nearest
      to 10^k. */
  ghost predicate CachedPower(c: Fp, k: int) {
    && TWO_63 <= c.f < TWO_64 && -348 <= k <= 340
    && 2.0 * Abs(FpValue(c) - Ten(k)) <= Two(c.e)
  }

  // ---------- the boundaries as integers ----------

  lemma ShiftedValue(f: nat, n: nat, e: int)
    ensures RMul((f * Pow(2, n)) as real, Two(e - n)) == RMul(f as real, Two(e))
  {
    TwoAdd(n, e - n);
    TwoIsPow(n);
    MulIs(f, Pow(2, n));
    RealOfMul(f, Pow(2, n));
    RMulAssoc(f as real, Two(n), Two(e - n));
  }

  /** f * p in units of a fraction q of p, moved by s units. */
  lemma FinerUnit(f: int, m: int, s: int, p: real, q: real)
    requires p == (m as real) * q
    ensures RMul((m * f + s) as real, q) == RMul(f as real, p) + (s as real) * q
  {
    MulIs(m, f);
    RealOfMul(m, f);
    RMulIs(m as real, f as real);
    RMulScale(m as real, f as real, q);
    RMulAdd((m * f) as real, s as real, q);
    RMulIs(s as real, q);
  }

  lemma OffsetSignificands(f: int, v: real, p: real, q: real, s: real)
    requires v == RMul(f as real, p) && p == 2.0 * q && q == 2.0 * s
    ensures v + 0.5 * p == RMul((2 * f + 1) as real, q)
    ensures v - 0.5 * p == RMul((2 * f - 1) as real, q)
    ensures v - 0.25 * p == RMul((4 * f - 1) as real, s)
  {
    FinerUnit(f, 2, 1, p, q);
    FinerUnit(f, 2, -1, p, q);
    FinerUnit(f, 4, -1, p, s);
  }

  lemma HalfwaySignificands(u: nat)
    requires PositiveDouble(u)
    ensures var x := DecodeDouble(u);
            && UpperBoundary(u) == RMul((2 * x.f + 1) as real, Two(x.e - 1))
            && LowerBoundary(u) == (if PredecessorCloser(u) then RMul((4 * x.f - 1) as real, Two(x.e - 2))
                                    else RMul((2 * x.f - 1) as real, Two(x.e - 1)))
  {
    var x := DecodeDouble(u);
    BoundaryOffsets(u);
    assert Two(x.e) == 2.0 * Two(x.e - 1) && Two(x.e - 1) == 2.0 * Two(x.e - 2);
    OffsetSignificands(x.f, DoubleValue(u), Two(x.e), Two(x.e - 1), Two(x.e - 2));
  }

  /** The significands of the value and its boundaries at one common binary exponent, the
      upper boundary normalized; the value is normalized at the same exponent. */
  ghost predicate Aligned(u: nat, value: nat, lower: nat, upper: nat, e: int)
    requires PositiveDouble(u)
  {
    && RMul(value as real, Two(e)) == DoubleValue(u)
    && RMul(lower as real, Two(e)) == LowerBoundary(u)
    && RMul(upper as real, Two(e)) == UpperBoundary(u)
    && TWO_63 <= value < upper < TWO_64
    && TWO_63 <= 2 * lower && value - lower >= 512 && upper - value >= 512
  }

  /** 2 * f + 1 normalizes with exactly one shift fewer than f. */
  lemma OneMoreShift(f: nat, b: nat)
    requires f > 0 && TWO_63 <= (2 * f + 1) * Pow(2, b) < TWO_64
    ensures TWO_63 <= f * Pow(2, b + 1) < TWO_64 && NormalShift(f) == b + 1
  {
    EvenPart(f, b);
    DoubledFactor(f, b);
    TimesAssoc(2, f, Pow(2, b));
    Distribute(2 * f, 1, Pow(2, b));
    NormalShiftIs(f, b + 1);
  }

  /** An odd multiple of 2^b that reaches 2^63 exceeds it by at least 2^b. */
  lemma EvenPart(f: nat, b: nat)
    requires f > 0 && TWO_63 <= (2 * f + 1) * Pow(2, b) < TWO_64
    ensures TWO_63 <= 2 * (f * Pow(2, b))
  {
    PowersOfTwo();
    if b >= 63 {
      PowMonotone(2, 63, b);
      TimesMonotone(3, 2 * f + 1, Pow(2, b));
    } else {
      PowAdd(2, 63 - b, b);
      var h := Pow(2, 62 - b);
      assert Pow(2, 63 - b) == 2 * h;
      MulIs(2 * h, Pow(2, b));
      MulIs(2 * f + 1, Pow(2, b));
      if 2 * f + 1 < 2 * h {
        MulStrict(2 * f + 1, 2 * h, Pow(2, b));
      }
      MulMonotone(2 * h, 2 * f, Pow(2, b));
      MulIs(2 * f, Pow(2, b));
      TimesAssoc(2, f, Pow(2, b));
    }
  }

  /** How far a significand is from having its top bit, bit 63, set. */
  ghost function NormalShift(f: nat): nat
    requires f > 0
    decreases TWO_64 - f
  {
    if f >= TWO_63 then 0 else 1 + NormalShift(2 * f)
  }

  lemma {:induction false} NormalShiftIs(f: nat, n: nat)
    requires f > 0 && TWO_63 <= f * Pow(2, n) < TWO_64
    ensures n == NormalShift(f)
    decreases n
  {
    if n > 0 {
      DoubledFactor(f, n - 1);
      TimesAssoc(2, f, Pow(2, n - 1));
      TimesMonotone(1, Pow(2, n - 1), 2 * f);
      NormalShiftIs(2 * f, n - 1);
    }
  }

  ghost function ValueSignificand(u: nat): nat
    requires PositiveDouble(u)
  {
    DecodeDouble(u).f * Pow(2, NormalShift(DecodeDouble(u).f))
  }

  ghost function NormalExponent(u: nat): int
    requires PositiveDouble(u)
  {
    DecodeDouble(u).e - NormalShift(DecodeDouble(u).f)
  }

  lemma AtLeastTen(f: nat, b: nat)
    requires 0 < f < 4 * TWO_52 && TWO_63 <= f * Pow(2, b)
    ensures b >= 10
  {
    if b < 10 {
      PowMonotone(2, b, 9);
      PowersOfTwo();
      assert Pow(2, 10) == 2 * Pow(2, 9);
      TimesMonotone(f, 4 * TWO_52 - 1, Pow(2, b));
      TimesMonotone(Pow(2, b), 512, 4 * TWO_52 - 1);
    }
  }

  lemma SpreadGaps(f: nat, a: nat, b: nat, closer: bool)
    requires f >= 1 && a == b + 1 && b >= 10
    ensures var lower := if closer then (4 * f - 1) * Pow(2, b - 1) else (2 * f - 1) * Pow(2, b);
            && f * Pow(2, a) - lower >= 512 && f * Pow(2, a) <= 2 * lower
            && (2 * f + 1) * Pow(2, b) - f * Pow(2, a) >= 512
  {
    PowersOfTwo();
    PowMonotone(2, 10, b);
    var p := Pow(2, b - 1);
    assert Pow(2, b) == 2 * p && Pow(2, a) == 4 * p && p >= 512;
    GapsInUnits(f, p);
  }

  lemma GapsInUnits(f: nat, p: nat)
    requires f >= 1
    ensures f * (4 * p) == 4 * (f * p) && (4 * f - 1) * p == 4 * (f * p) - p
    ensures (2 * f - 1) * (2 * p) == 4 * (f * p) - 2 * p
    ensures (2 * f + 1) * (2 * p) == 4 * (f * p) + 2 * p
    ensures f * p >= p
  {
    TimesAssoc(4, f, p);
    Distribute(4 * f, -1, p);
    Distribute(2 * f, -1, 2 * p);
    Distribute(2 * f, 1, 2 * p);
    TimesMonotone(1, f, p);
  }

  lemma BoundariesAligned(u: nat, lower: nat, upper: nat, b: nat)
    requires PositiveDouble(u) && b >= 10
    requires var f := DecodeDouble(u).f;
             && upper == (2 * f + 1) * Pow(2, b) && TWO_63 <= upper < TWO_64
             && lower == if PredecessorCloser(u) then (4 * f - 1) * Pow(2, b - 1)
                         else (2 * f - 1) * Pow(2, b)
    ensures Aligned(u, ValueSignificand(u), lower, upper, NormalExponent(u))
    ensures NormalShift(DecodeDouble(u).f) == b + 1
  {
    var f, e := DecodeDouble(u).f, DecodeDouble(u).e;
    DecodedRange(u);
    OneMoreShift(f, b);
    HalfwaySignificands(u);
    ShiftedValue(f, b + 1, e);
    ShiftedValue(2 * f + 1, b, e - 1);
    if PredecessorCloser(u) {
      ShiftedValue(4 * f - 1, b - 1, e - 2);
    } else {
      ShiftedValue(2 * f - 1, b, e - 1);
    }
    SpreadGaps(f, b + 1, b, PredecessorCloser(u));
  }

  /** Decodes a double and computes the halfway points to its neighbours, the upper one
      normalized. */
  method AssignWithBoundaries(u: nat) returns (value: Fp, lower: nat, upper: nat)
    requires PositiveDouble(u)
    ensures value == DecodeDouble(u)
    ensures Aligned(u, ValueSignificand(u), lower, upper, NormalExponent(u))
  {
    value := DecodeDouble(u);
    DecodedRange(u);
    var lo := if PredecessorCloser(u) then Fp(4 * value.f - 1, value.e - 2)
    else Fp(2 * value.f - 1, value.e - 1);
    assert Pow(2, 1) == 2;
    var up := Normalize(Fp(2 * value.f + 1, value.e - 1), 1);
    ghost var b := value.e - 1 - up.e;
    AtLeastTen(2 * value.f + 1, b);
    lower, upper := lo.f * Pow(2, lo.e - up.e), up.f;
    BoundariesAligned(u, lower, upper, b);
  }

  // ---------- the boundaries as multiples of a power of ten ----------

  /** y * 10^k in units of 1 / one, the fixed-point form digits are generated from. */
  ghost function FixedPoint(y: real, k: int, one: nat): real {
    RMul(RMul(y, Ten(k)), one as real)
  }

  lemma FixedPointOrder(y: real, z: real, k: int, one: nat)
    requires one > 0
    ensures FixedPoint(y, k, one) < FixedPoint(z, k, one) <==> y < z
    ensures FixedPoint(y, k, one) == FixedPoint(z, k, one) <==> y == z
  {
    RMulCancel(y, z, Ten(k));
    RMulCancel(RMul(y, Ten(k)), RMul(z, Ten(k)), one as real);
  }

  /** An integer standing for y with an error below one unit. */
  ghost predicate Near(w: int, y: real, k: int, one: nat) {
    w as real - 1.0 < FixedPoint(y, k, one) < w as real + 1.0
  }

  /** One rounded product with a cached power: rounding the power and rounding the product
      each contribute at most half a unit, the former less. */
  lemma ProductIsNear(x: U64, e: int, c: Fp, k: int, one: nat, y: real)
    requires CachedPower(c, k) && y == RMul(x as real, Two(e))
    requires e + c.e + 64 <= 0 && one == Pow(2, -(e + c.e + 64))
    ensures Near(MultiplyHalves(x, c.f), y, k, one)
  {
    MultiplyRounds(x, c.f);
    MulIs(x, c.f);
    RoundedProductIsNear(MultiplyHalves(x, c.f), x, e, c, k, one, y);
  }

  lemma RoundedProductIsNear(w: int, x: nat, e: int, c: Fp, k: int, one: nat, y: real)
    requires CachedPower(c, k) && x < TWO_64 && y == RMul(x as real, Two(e))
    requires e + c.e + 64 <= 0 && one == Pow(2, -(e + c.e + 64))
    requires -TWO_63 <= Mul(x, c.f) - w * TWO_64 < TWO_63
    ensures Near(w, y, k, one)
  {
    PowerInUnits(c, k);
    FixedPointIs(x, e, c.e, k, one, y);
    TwoIsPow(64);
    PowersOfTwo();
    RealOfMul(x, c.f);
    ErrorsAdd(x as real, c.f as real, RMul(Ten(k), Two(-c.e)), w as real,
              FixedPoint(y, k, one), Mul(x, c.f));
  }

  lemma PowerInUnits(c: Fp, k: int)
    requires CachedPower(c, k)
    ensures c.f as real - 0.5 <= RMul(Ten(k), Two(-c.e)) <= c.f as real + 0.5
  {
    var p, q := Two(c.e), Two(-c.e);
    TwoAdd(c.e, -c.e);
    RMulAssoc(c.f as real, p, q);
    RMulIs(c.f as real, 1.0);
    RMulScale(0.5, p, q);
    RMulAdd(FpValue(c), 0.5 * p, q);
    RMulSub(FpValue(c), 0.5 * p, q);
    RMulMonotone(Ten(k), FpValue(c) + 0.5 * p, q);
    RMulMonotone(FpValue(c) - 0.5 * p, Ten(k), q);
  }

  lemma FixedPointIs(x: nat, e: int, ce: int, k: int, one: nat, y: real)
    requires y == RMul(x as real, Two(e))
    requires e + ce + 64 <= 0 && one == Pow(2, -(e + ce + 64))
    ensures RMul(FixedPoint(y, k, one), Two(64)) == RMul(x as real, RMul(Ten(k), Two(-ce)))
  {
    var n := -(e + ce + 64);
    TwoIsPow(n);
    TwoAdd(e, n);
    TwoAdd(e + n, 64);
    GatherFactors(x as real, Two(e), Ten(k), Two(n), Two(64));
  }

  lemma GatherFactors(x: real, p: real, t: real, q: real, r: real)
    ensures RMul(RMul(RMul(RMul(x, p), t), q), r) == RMul(x, RMul(t, RMul(RMul(p, q), r)))
  {
    RMulAssoc(x, p, t);
    RMulCommutes(p, t);
    RMulAssoc(x, RMul(p, t), q);
    RMulAssoc(t, p, q);
    RMulAssoc(x, RMul(t, RMul(p, q)), r);
    RMulAssoc(t, RMul(p, q), r);
  }

  lemma ErrorsAdd(x: real, c: real, t: real, w: real, s: real, product: int)
    requires 0.0 <= x < TWO_64 as real && c - 0.5 <= t <= c + 0.5
    requires product as real == RMul(x, c)
    requires RMul(s, TWO_64 as real) == RMul(x, t)
    requires -(TWO_63 as real) <= product as real - w * (TWO_64 as real) < TWO_63 as real
    ensures w - 1.0 < s < w + 1.0
  {
    RMulIs(s, TWO_64 as real);
    RMulIs(x, c);
    RMulSub(t, c, x);
    RMulCommutes(t, x);
    RMulCommutes(c, x);
    RMulMonotone(t - c, 0.5, x);
    RMulMonotone(-0.5, t - c, x);
    RMulIs(0.5, x);
    RMulIs(-0.5, x);
  }

  /** The candidate d at place exp, in the units of the digit generator. */
  lemma CandidateFixedPoint(d: int, exp: int, k: int, one: nat)
    ensures RMul(FixedPoint(Decimal(d, exp - k), k, one), Unit(exp) as real)
         == Mul(d, Weight(one, exp)) as real
  {
    TenAdd(exp - k, k);
    RMulAssoc(d as real, Ten(exp - k), Ten(k));
    RMulAssoc(d as real, Ten(exp), one as real);
    RealOfMul(d, Weight(one, exp));
    if exp >= 0 {
      TenIsPow(exp);
      MulIs(Pow(10, exp), one);
      RealOfMul(Pow(10, exp), one);
      RMulIs(RMul(d as real, RMul(Ten(exp), one as real)), 1.0);
    } else {
      TenIsPow(-exp);
      TenAdd(exp, -exp);
      RMulCommutes(Ten(exp), one as real);
      RMulAssoc(d as real, RMul(one as real, Ten(exp)), Ten(-exp));
      RMulAssoc(one as real, Ten(exp), Ten(-exp));
      RMulIs(one as real, 1.0);
    }
  }

  lemma UnitOrder(s: real, m: int, unit: nat)
    requires unit > 0
    ensures RMul(s, unit as real) < Mul(m, unit) as real <==> s < m as real
    ensures RMul(s, unit as real) == Mul(m, unit) as real <==> s == m as real
  {
    RealOfMul(m, unit);
    RMulCancel(s, m as real, unit as real);
    RMulCancel(m as real, s, unit as real);
  }

  /** The integers handed to the digit generator bracket the boundaries of u. */
  ghost predicate Brackets(u: nat, k: int, one: nat, v: nat, error: nat, diff: nat)
    requires PositiveDouble(u)
  {
    && Near(v - diff, DoubleValue(u), k, one) && Near(v - 1, UpperBoundary(u), k, one)
    && Near(v - error + 1, LowerBoundary(u), k, one)
    && one > 0 && 1 <= diff < error <= v && error >= 4
  }

  /** Whatever reads back as u is between the two integer bounds. */
  lemma RoundsIsInRegion(u: nat, k: int, one: nat, v: nat, error: nat, diff: nat, exp: int, d: int)
    requires PositiveDouble(u) && Brackets(u, k, one, v, error, diff)
    requires RoundsTo(u, Decimal(d, exp - k), true)
    ensures InRegion(v, one, error, exp, d)
  {
    var y, unit := Decimal(d, exp - k), Unit(exp);
    var s := FixedPoint(y, k, one);
    WeightAtLeastOne(one, exp);
    CandidateFixedPoint(d, exp, k, one);
    FixedPointOrder(LowerBoundary(u), y, k, one);
    FixedPointOrder(y, UpperBoundary(u), k, one);
    MulSub(v, error, unit);
    UnitOrder(s, v, unit);
    UnitOrder(s, v - error, unit);
  }

  /** What the generator leaves two units clear of its bounds reads back as u. */
  lemma WellInsideRounds(u: nat, k: int, one: nat, v: nat, error: nat, diff: nat, exp: int, d: int)
    requires PositiveDouble(u) && Brackets(u, k, one, v, error, diff)
    requires Mul(d, Weight(one, exp)) <= Mul(v, Unit(exp)) - 2 * Unit(exp)
    requires Mul(v, Unit(exp)) - Mul(error, Unit(exp)) + 4 * Unit(exp) <= Mul(d, Weight(one, exp))
    ensures RoundsTo(u, Decimal(d, exp - k), false)
  {
    var y, unit := Decimal(d, exp - k), Unit(exp);
    var s := FixedPoint(y, k, one);
    WeightAtLeastOne(one, exp);
    CandidateFixedPoint(d, exp, k, one);
    FixedPointOrder(LowerBoundary(u), y, k, one);
    FixedPointOrder(y, UpperBoundary(u), k, one);
    MulIs(2, unit);
    MulIs(4, unit);
    MulSub(v, error, unit);
    MulSub(v, 2, unit);
    MulAdd(v - error, 4, unit);
    UnitOrder(s, v - 2, unit);
    UnitOrder(s, v - error + 4, unit);
  }

  lemma ScaledDistance(a: real, b: real, y: real, t: real, s: real, r: real)
    requires t > 0.0 && s > 0.0 && r > 0.0
    requires Abs(RMul(RMul(RMul(a, t), s), r) - RMul(RMul(RMul(y, t), s), r))
          <= Abs(RMul(RMul(RMul(b, t), s), r) - RMul(RMul(RMul(y, t), s), r))
    ensures Abs(a - y) <= Abs(b - y)
  {
    RMulIs(t, s);
    RMulIs(RMul(t, s), r);
    OneFactor(a, t, s, r);
    OneFactor(b, t, s, r);
    OneFactor(y, t, s, r);
    AbsFactor(a, y, RMul(RMul(t, s), r));
    AbsFactor(b, y, RMul(RMul(t, s), r));
    RMulCancel(Abs(b - y), Abs(a - y), RMul(RMul(t, s), r));
  }

  lemma OneFactor(a: real, t: real, s: real, r: real)
    ensures RMul(RMul(RMul(a, t), s), r) == RMul(a, RMul(RMul(t, s), r))
  {
    RMulAssoc(a, t, s);
    RMulAssoc(a, RMul(t, s), r);
  }

  lemma AbsFactor(a: real, y: real, f: real)
    requires f > 0.0
    ensures Abs(RMul(a, f) - RMul(y, f)) == RMul(Abs(a - y), f)
  {
    RMulSub(a, y, f);
    RMulSub(y, a, f);
    RMulCancel(a, y, f);
  }

  /** The generator's answer is closest to u among all that read back as u. */
  lemma ClosestTransfers(u: nat, k: int, one: nat, v: nat, error: nat, diff: nat,
                         exp: int, d: int, d': int)
    requires PositiveDouble(u) && Brackets(u, k, one, v, error, diff)
    requires ShortestInRegion(v, one, error, diff, exp, d)
    requires RoundsTo(u, Decimal(d', exp - k), true)
    ensures Abs(Decimal(d, exp - k) - DoubleValue(u)) <= Abs(Decimal(d', exp - k) - DoubleValue(u))
  {
    var y, unit, w := DoubleValue(u), Unit(exp), Weight(one, exp);
    var s := FixedPoint(y, k, one);
    var x := RMul(s, unit as real);
    WeightAtLeastOne(one, exp);
    RoundsIsInRegion(u, k, one, v, error, diff, exp, d');
    CandidateFixedPoint(d, exp, k, one);
    CandidateFixedPoint(d', exp, k, one);
    MulSub(v, diff + 1, unit);
    MulSub(v, diff - 1, unit);
    UnitOrder(s, v - (diff + 1), unit);
    UnitOrder(s, v - (diff - 1), unit);
    assert Distance(Mul(d, w), x) <= Distance(Mul(d', w), x);
    ScaledDistance(Decimal(d, exp - k), Decimal(d', exp - k), y, Ten(k), one as real, unit as real);
  }

  /** So it is the shortest and closest decimal, wherever the halfway points round. */
  lemma ShortestTransfers(u: nat, k: int, one: nat, v: nat, error: nat, diff: nat,
                          exp: int, d: int, lowerTies: bool)
    requires PositiveDouble(u) && Brackets(u, k, one, v, error, diff)
    requires ShortestInRegion(v, one, error, diff, exp, d)
    ensures ShortestAndClosest(u, d, exp - k, lowerTies)
  {
    var e := exp - k;
    WellInsideRounds(u, k, one, v, error, diff, exp, d);
    forall d': int, e': int | e' > e
      ensures !RoundsTo(u, Decimal(d', e'), lowerTies)
    {
      if RoundsTo(u, Decimal(d', e'), lowerTies) {
        RoundsIsInRegion(u, k, one, v, error, diff, e' + k, d');
      }
    }
    forall d': int | RoundsTo(u, Decimal(d', e), lowerTies)
      ensures Abs(Decimal(d, e) - DoubleValue(u)) <= Abs(Decimal(d', e) - DoubleValue(u))
    {
      ClosestTransfers(u, k, one, v, error, diff, exp, d, d');
    }
  }

  /** The exponent handed to the exact formatter is large enough. */
  lemma LeadingExponent(u: nat, k: int, one: nat, v: nat, error: nat, diff: nat, exp10: nat)
    requires PositiveDouble(u) && Brackets(u, k, one, v, error, diff)
    requires v < Pow(10, exp10) * one
    ensures UpperBoundary(u) < Ten(exp10 - k)
  {
    CandidateFixedPoint(1, exp10, k, one);
    MulOne(Weight(one, exp10));
    RMulIs(FixedPoint(Decimal(1, exp10 - k), k, one), 1.0);
    RMulIs(1.0, Ten(exp10 - k));
    FixedPointOrder(UpperBoundary(u), Decimal(1, exp10 - k), k, one);
  }

  // ---------- what the digit generator is given ----------

  /** The scaled upper bound in units of 1 / one, its distance to the scaled lower bound,
      and its distance to the scaled value. */
  datatype GrisuInput = GrisuInput(one: nat, v: nat, error: nat, diff: nat)

  /** Products by the cached power, widened by one unit at either end. */
  ghost predicate Prepared(u: nat, c: Fp, lower: nat, upper: nat, g: GrisuInput)
    requires PositiveDouble(u)
  {
    && Aligned(u, ValueSignificand(u), lower, upper, NormalExponent(u))
    && c.f < TWO_64 && NormalExponent(u) + c.e + 64 <= 0
    && g.one == Pow(2, -(NormalExponent(u) + c.e + 64))
    && g.v == MultiplyHalves(upper, c.f) + 1
    && g.error == g.v - (MultiplyHalves(lower, c.f) - 1)
    && g.diff == g.v - MultiplyHalves(ValueSignificand(u), c.f)
  }

  /** Products keep a gap, up to their roundings. */
  lemma ProductGap(x: U64, y: U64, c: U64, p: int, q: int)
    requires y - x >= 512 && c >= TWO_63
    requires -TWO_63 <= Mul(x, c) - p * TWO_64 < TWO_63
    requires -TWO_63 <= Mul(y, c) - q * TWO_64 < TWO_63
    ensures q - p >= 255
  {
    MulSub(y, x, c);
    MulMonotone(512, y - x, c);
    MulIs(512, c);
  }

  lemma ProductRange(x: U64, c: U64, p: int)
    requires c >= TWO_63 && TWO_63 <= 2 * x && -TWO_63 <= Mul(x, c) - p * TWO_64 < TWO_63
    ensures 1 <= p <= TWO_64 - 2 && (x >= TWO_63 ==> p >= TWO_63 / 2)
  {
    MulIs(x, c);
    MulIs(TWO_63, c);
    MulIs(TWO_63 / 2, c);
    MulMonotone(TWO_63 / 2, x, c);
    if x >= TWO_63 {
      MulMonotone(TWO_63, x, c);
    }
    MulMonotone(x, TWO_64 - 1, c);
    MulIs(TWO_64 - 1, c);
  }

  lemma Widened(u: nat, c: Fp, lower: nat, upper: nat)
    requires PositiveDouble(u) && TWO_63 <= c.f < TWO_64
    requires Aligned(u, ValueSignificand(u), lower, upper, NormalExponent(u))
    ensures 1 <= MultiplyHalves(lower, c.f) < MultiplyHalves(ValueSignificand(u), c.f)
    ensures MultiplyHalves(ValueSignificand(u), c.f) + 255 <= MultiplyHalves(upper, c.f)
    ensures MultiplyHalves(lower, c.f) + 255 <= MultiplyHalves(ValueSignificand(u), c.f)
    ensures TWO_63 / 2 <= MultiplyHalves(upper, c.f) <= TWO_64 - 2
  {
    var value := ValueSignificand(u);
    MultiplyRounds(value, c.f);
    MultiplyRounds(lower, c.f);
    MultiplyRounds(upper, c.f);
    MulIs(value, c.f);
    MulIs(lower, c.f);
    MulIs(upper, c.f);
    GapsAndRanges(lower, value, upper, c.f, MultiplyHalves(lower, c.f),
                  MultiplyHalves(value, c.f), MultiplyHalves(upper, c.f));
  }

  lemma PreparedRange(u: nat, c: Fp, lower: nat, upper: nat, g: GrisuInput)
    requires PositiveDouble(u) && Prepared(u, c, lower, upper, g) && c.f >= TWO_63
    ensures MultiplyHalves(lower, c.f) >= 1 && g.v < TWO_64 && g.v > TWO_63 / 2
    ensures 1 <= g.diff < g.error <= g.v && g.error >= 4
  {
    Widened(u, c, lower, upper);
  }

  lemma GapsAndRanges(x: U64, y: U64, z: U64, c: U64, p: int, q: int, r: int)
    requires y - x >= 512 && z - y >= 512 && TWO_63 <= 2 * x && y >= TWO_63 && c >= TWO_63
    requires -TWO_63 <= Mul(x, c) - p * TWO_64 < TWO_63
    requires -TWO_63 <= Mul(y, c) - q * TWO_64 < TWO_63
    requires -TWO_63 <= Mul(z, c) - r * TWO_64 < TWO_63
    ensures 1 <= p && q - p >= 255 && r - q >= 255 && TWO_63 / 2 <= r <= TWO_64 - 2
  {
    ProductGap(x, y, c, p, q);
    ProductGap(y, z, c, q, r);
    ProductRange(x, c, p);
    ProductRange(z, c, r);
  }

  lemma PreparedBrackets(u: nat, c: Fp, k: int, lower: nat, upper: nat, g: GrisuInput)
    requires PositiveDouble(u) && Prepared(u, c, lower, upper, g) && CachedPower(c, k)
    ensures Brackets(u, k, g.one, g.v, g.error, g.diff)
  {
    PreparedRange(u, c, lower, upper, g);
    ProductIsNear(ValueSignificand(u), NormalExponent(u), c, k, g.one, DoubleValue(u));
    ProductIsNear(lower, NormalExponent(u), c, k, g.one, LowerBoundary(u));
    ProductIsNear(upper, NormalExponent(u), c, k, g.one, UpperBoundary(u));
  }

  /** The contract of the table lookup: for every exponent asked for, an entry whose binary
      exponent is at most 28 above it. */
  ghost predicate PowerTable(powers: int -> (Fp, int)) {
    forall m :: -1100 <= m <= 1020
      ==> CachedPower(powers(m).0, powers(m).1) && m <= powers(m).0.e <= m + 28
  }

  lemma NormalExponentRange(u: nat)
    requires PositiveDouble(u) && TWO_63 <= ValueSignificand(u) < TWO_64
    ensures -1138 <= NormalExponent(u) <= 971
  {
    var f, n := DecodeDouble(u).f, NormalShift(DecodeDouble(u).f);
    DecodedRange(u);
    PowersOfTwo();
    if n >= 64 {
      PowMonotone(2, 64, n);
      TimesMonotone(1, f, Pow(2, n));
    }
  }

  /** Between 2^32 and 2^60 units make one. */
  lemma ScaleInRange(n: nat)
    requires 32 <= n <= 60
    ensures Scale(Pow(2, n))
  {
    PowMonotone(2, 32, n);
    PowMonotone(2, n, 60);
    PowersOfTwo();
    assert Pow(2, 63) == 2 * Pow(2, 62) && Pow(2, 62) == 2 * Pow(2, 61) && Pow(2, 61) == 2 * Pow(2, 60);
  }

  lemma IntegralPart(v: nat, one: nat)
    requires Scale(one) && TWO_63 / 2 <= v < TWO_64
    ensures 0 < v / one < TWO_32
  {
    DivisionFact(v, one);
    MulOne(one);
    if v / one >= TWO_32 {
      MulMonotone(TWO_32, v / one, one);
      MulIs(TWO_32, one);
    } else if v / one <= 0 {
      MulMonotone(v / one, 0, one);
    }
  }

  lemma TableEntry(powers: int -> (Fp, int), m: int)
    requires PowerTable(powers) && -1100 <= m <= 1020
    ensures CachedPower(powers(m).0, powers(m).1) && m <= powers(m).0.e <= m + 28
  {
  }

  method NormalizeDouble(ghost u: nat, value: Fp) returns (r: Fp)
    requires PositiveDouble(u) && value == DecodeDouble(u)
    ensures r == Fp(ValueSignificand(u), NormalExponent(u))
    ensures TWO_63 <= r.f < TWO_64 && -1138 <= r.e <= 971
  {
    DecodedRange(u);
    assert Pow(2, 0) == 1;
    r := Normalize(value, 0);
    NormalShiftIs(value.f, value.e - r.e);
    NormalExponentRange(u);
  }

  /** Scales the value and its boundaries by a cached power of ten. */
  method Prepare(u: nat, powers: int -> (Fp, int))
    returns (g: GrisuInput, k: int, ghost lower: nat, ghost upper: nat)
    requires PositiveDouble(u) && PowerTable(powers)
    ensures Prepared(u, powers(-124 - NormalExponent(u)).0, lower, upper, g)
    ensures k == powers(-124 - NormalExponent(u)).1 && -348 <= k <= 340
    ensures Brackets(u, k, g.one, g.v, g.error, g.diff)
    ensures g.v < TWO_64 && Scale(g.one) && 0 < g.v / g.one < TWO_32
  {
    var value, low, high := AssignWithBoundaries(u);
    var normalized := NormalizeDouble(u, value);
    TableEntry(powers, -124 - NormalExponent(u));
    var cached := powers(-60 - (normalized.e + 64));
    k := cached.1;
    lower, upper := low, high;
    g := Scaled(u, normalized.f, low, high, normalized.e + cached.0.e + 64, cached.0);
    PreparedBrackets(u, cached.0, k, lower, upper, g);
    PreparedRange(u, cached.0, lower, upper, g);
    ScaleInRange(-(normalized.e + cached.0.e + 64));
    IntegralPart(g.v, g.one);
  }

  method Scaled(ghost u: nat, value: nat, lower: nat, upper: nat, e: int, c: Fp)
    returns (g: GrisuInput)
    requires PositiveDouble(u) && TWO_63 <= c.f < TWO_64 && value == ValueSignificand(u)
    requires Aligned(u, value, lower, upper, NormalExponent(u))
    requires e == NormalExponent(u) + c.e + 64 <= 0
    ensures Prepared(u, c, lower, upper, g)
  {
    Widened(u, c, lower, upper);
    var scaled: U64 := MultiplyHalves(value, c.f);
    var scaledLower: U64 := MultiplyHalves(lower, c.f);
    var scaledUpper: U64 := MultiplyHalves(upper, c.f);
    scaledLower := scaledLower - 1;
    scaledUpper := scaledUpper + 1;
    g := GrisuInput(Pow(2, -e), scaledUpper, scaledUpper - scaledLower, scaledUpper - scaled);
  }

  // ---------- shortest output ----------

  /** The power of ten looked up for u. */
  ghost function PowerFor(u: nat, powers: int -> (Fp, int)): (Fp, int)
    requires PositiveDouble(u)
  {
    powers(-124 - NormalExponent(u))
  }

  /** The integers that the digit generator is given for u. */
  ghost predicate InputFor(u: nat, c: Fp, g: GrisuInput)
    requires PositiveDouble(u)
  {
    exists lower: nat, upper: nat :: Prepared(u, c, lower, upper, g)
  }

  lemma InputIsUnique(u: nat, c: Fp, g: GrisuInput, g': GrisuInput)
    requires PositiveDouble(u) && InputFor(u, c, g) && InputFor(u, c, g')
    ensures g == g'
  {
    var lower: nat, upper: nat :| Prepared(u, c, lower, upper, g);
    var lower': nat, upper': nat :| Prepared(u, c, lower', upper', g');
    RMulCancel(lower as real, lower' as real, Two(NormalExponent(u)));
    RMulCancel(upper as real, upper' as real, Two(NormalExponent(u)));
  }

  ghost predicate NoneCertain(g: GrisuInput) {
    exists exp, d :: NotCertain(g.v, g.one, g.error, g.diff, exp, d)
  }

  /** Whether Grisu cannot tell: its one candidate is not safely inside the region that the
      integers for u describe. */
  ghost predicate GrisuGivesUp(u: nat, powers: int -> (Fp, int))
    requires PositiveDouble(u)
  {
    exists g :: InputFor(u, PowerFor(u, powers).0, g) && NoneCertain(g)
  }

  lemma GivesUpIs(u: nat, powers: int -> (Fp, int), g: GrisuInput)
    requires PositiveDouble(u) && InputFor(u, PowerFor(u, powers).0, g)
    ensures GrisuGivesUp(u, powers) <==> NoneCertain(g)
  {
    if GrisuGivesUp(u, powers) {
      var g' :| InputFor(u, PowerFor(u, powers).0, g') && NoneCertain(g');
      InputIsUnique(u, PowerFor(u, powers).0, g, g');
    }
  }

  /** The scaled upper bound is two units or more above a power of ten, so that the rounding
      interval reaches the power that the bound reaches. */
  ghost predicate ClearOfPower(u: nat, powers: int -> (Fp, int))
    requires PositiveDouble(u)
  {
    exists g :: InputFor(u, PowerFor(u, powers).0, g) && Clear(g)
  }

  ghost predicate Clear(g: GrisuInput) {
    g.one > 0 && g.v >= Weight(g.one, GrisuCountDigits(g.v / g.one) - 1) + 2
  }

  /** What the digits of a double are: a shortest and closest decimal, exactly whether the
      lower halfway point counts as rounding to u or not, unless the exact formatter takes over
      and misses that point, or takes the misscaled branch. */
  ghost predicate ShortestOutput(u: nat, powers: int -> (Fp, int), digits: seq<char>, exp: int)
    requires PositiveDouble(u)
  {
    var d, exp10 := DecimalValue(digits), exp + |digits| - 1;
    if !GrisuGivesUp(u, powers) then
      && AllDigits(digits) && digits != [] && digits[0] != '0' && |digits| <= 17
      && ShortestAndClosest(u, d, exp, true) && ShortestAndClosest(u, d, exp, false)
    else if !Fallback.Misscaled(u) then
      && AllDigits(digits) && digits != []
      && (ClearOfPower(u, powers) ==> digits[0] != '0' && |digits| <= 17)
      && ShortestAndClosest(u, d, exp, Fallback.LowerTies(u, exp10))
      && (ShortestAndClosest(u, d, exp, Even(u))
          <==> Fallback.LowerTies(u, exp10) || !Even(u) || !Fallback.BoundaryIsShorter(u))
    else
      !RoundsTo(u, Decimal(d, exp), true)
  }

  /** The digits of a double and the decimal exponent of the last one: from Grisu if it is
      certain, otherwise from the exact formatter started at Grisu's first digit. */
  method FormatShortest(u: nat, powers: int -> (Fp, int)) returns (digits: seq<char>, exp: int)
    requires u < INFINITY_BITS && PowerTable(powers)
    ensures |digits| >= 1 && -400 <= exp + |digits| <= 400
    ensures forall i :: 1 <= i < |digits| ==> IsDigit(digits[i])
    ensures u == 0 ==> digits == "0" && exp == 0
    ensures u > 0 ==> ShortestOutput(u, powers, digits, exp)
    ensures u > 0 && GrisuGivesUp(u, powers) && Fallback.Misscaled(u) ==> exp + |digits| >= 1
  {
    if u == 0 {
      return "0", 0;
    }
    digits, exp := FormatPositive(u, powers);
  }

  method FormatPositive(u: nat, powers: int -> (Fp, int)) returns (digits: seq<char>, exp: int)
    requires PositiveDouble(u) && PowerTable(powers)
    ensures |digits| >= 1 && -400 <= exp + |digits| <= 400 && ShortestOutput(u, powers, digits, exp)
    ensures forall i :: 1 <= i < |digits| ==> IsDigit(digits[i])
    ensures GrisuGivesUp(u, powers) && Fallback.Misscaled(u) ==> exp + |digits| >= 1
  {
    var g, k;
    ghost var lower, upper;
    g, k, lower, upper := Prepare(u, powers);
    assert InputFor(u, PowerFor(u, powers).0, g);
    GivesUpIs(u, powers, g);
    var result;
    result, digits, exp := GenerateShortest(g.v, g.one, g.error, g.diff);
    if result == Error {
      digits, exp := FallBack(u, powers, k, g, exp + |digits|);
    } else {
      CertainOutput(u, k, g, exp, digits);
      exp := exp - k;
    }
  }

  lemma CertainOutput(u: nat, k: int, g: GrisuInput, exp: int, digits: seq<char>)
    requires PositiveDouble(u) && Brackets(u, k, g.one, g.v, g.error, g.diff)
    requires |digits| >= 1 && AllDigits(digits) && digits[0] != '0'
    requires ShortestInRegion(g.v, g.one, g.error, g.diff, exp, DecimalValue(digits))
    ensures ShortestAndClosest(u, DecimalValue(digits), exp - k, true)
    ensures ShortestAndClosest(u, DecimalValue(digits), exp - k, false)
    ensures |digits| <= 17
  {
    ShortestTransfers(u, k, g.one, g.v, g.error, g.diff, exp, DecimalValue(digits), true);
    ShortestTransfers(u, k, g.one, g.v, g.error, g.diff, exp, DecimalValue(digits), false);
    Fallback.SeventeenDigits(u, digits, exp - k, true);
  }

  /** The exact formatter, for a value whose scaled form has count digits before the point. */
  method FallBack(u: nat, ghost powers: int -> (Fp, int), k: int, ghost g: GrisuInput, count: int)
    returns (digits: seq<char>, exp: int)
    requires PositiveDouble(u) && Brackets(u, k, g.one, g.v, g.error, g.diff) && -348 <= k <= 340
    requires InputFor(u, PowerFor(u, powers).0, g) && GrisuGivesUp(u, powers)
    requires Scale(g.one) && 0 < g.v / g.one < TWO_32 && count == GrisuCountDigits(g.v / g.one)
    ensures |digits| >= 1 && -400 <= exp + |digits| <= 400 && ShortestOutput(u, powers, digits, exp)
    ensures forall i :: 1 <= i < |digits| ==> IsDigit(digits[i])
    ensures Fallback.Misscaled(u) ==> exp + |digits| >= 1
  {
    StartingExponent(u, k, g, count);
    ClearIs(u, powers, g);
    if Fallback.Misscaled(u) {
      Fallback.LargeDouble(u, count - k - 1);
    }
    digits, exp := Fallback.FallbackFormat(u, count - k - 1);
  }

  lemma ClearIs(u: nat, powers: int -> (Fp, int), g: GrisuInput)
    requires PositiveDouble(u) && InputFor(u, PowerFor(u, powers).0, g)
    ensures ClearOfPower(u, powers) ==> Clear(g)
  {
    if ClearOfPower(u, powers) {
      var g' :| InputFor(u, PowerFor(u, powers).0, g') && Clear(g');
      InputIsUnique(u, PowerFor(u, powers).0, g, g');
    }
  }

  /** The exponent given to the exact formatter puts the next power of ten beyond the rounding
      interval, and, with two units to spare, this one before its end. */
  lemma StartingExponent(u: nat, k: int, g: GrisuInput, count: int)
    requires PositiveDouble(u) && Brackets(u, k, g.one, g.v, g.error, g.diff)
    requires Scale(g.one) && 0 < g.v / g.one < TWO_32 && count == GrisuCountDigits(g.v / g.one)
    ensures 1 <= count <= 10 && LargeExponent(u, count - k - 1)
    ensures g.v >= Weight(g.one, count - 1) + 2 ==> SmallExponent(u, count - k - 1)
  {
    CountedDigits(g.v / g.one);
    DivisionFact(g.v, g.one);
    MulMonotone(g.v / g.one + 1, Pow(10, count), g.one);
    MulNext(g.v / g.one, g.one);
    MulIs(Pow(10, count), g.one);
    LeadingExponent(u, k, g.one, g.v, g.error, g.diff, count);
    ReachedPower(u, k, g.one, g.v, g.error, g.diff, count - 1);
  }

  lemma ReachedPower(u: nat, k: int, one: nat, v: nat, error: nat, diff: nat, exp: nat)
    requires PositiveDouble(u) && Brackets(u, k, one, v, error, diff)
    ensures v >= Weight(one, exp) + 2 ==> Ten(exp - k) < UpperBoundary(u)
  {
    CandidateFixedPoint(1, exp, k, one);
    MulOne(Weight(one, exp));
    RMulIs(FixedPoint(Decimal(1, exp - k), k, one), 1.0);
    RMulIs(1.0, Ten(exp - k));
    FixedPointOrder(Decimal(1, exp - k), UpperBoundary(u), k, one);
  }
}
