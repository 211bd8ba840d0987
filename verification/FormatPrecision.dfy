/**
 Output of a double with a given precision: Grisu on one 64-bit approximation of the value,
 or nothing when Grisu cannot tell and the C library is asked instead.
 */
module FormatPrecision {
  import opened Powers
  import opened RealPowers
  import opened Wrappers
  import opened Floating
  import opened RoundingInterval
  import opened DigitSpec
  import opened Grisu
  import opened GrisuFixed
  import opened FormatFloat
  import opened FloatWriter

  /** d * 10^e is a multiple of 10^place nearest to y. */
  ghost predicate NearestMultiple(y: real, d: int, e: int, place: int) {
    && 2.0 * Abs(Decimal(d, e) - y) <= Ten(place)
    && (exists m: int :: Decimal(m, place) == Decimal(d, e))
  }

  /** The number v / one * 10^-k, by which 64 bits approximate a double. */
  datatype Approximation = Approximation(v: int, one: nat, k: int)
  {
    ghost function Value(): real
      requires one > 0
    {
      RMul(v as real / one as real, Ten(-k))
    }
  }

  /** The approximation of u: its significand times that of a cached power of ten. */
  ghost function ApproximationOf(u: nat, powers: int -> (Fp, int)): Approximation
    requires PositiveDouble(u)
  {
    var (c, k) := PowerFor(u, powers);
    var e := NormalExponent(u) + c.e + 64;
    Approximation(if ValueSignificand(u) < TWO_64 && c.f < TWO_64 then MultiplyHalves(ValueSignificand(u), c.f) else 0,
                  if e <= 0 then Pow(2, -e) else 1, k)
  }

  // ---------- from scaled integers to the double ----------

  lemma HalfWeightTransfers(m: int, w: int, unit: nat, s: real, t: real)
    requires unit > 0 && HalfWeight(m, w, RMul(s, unit as real)) && RMul(t, unit as real) == m as real
    ensures RMul(2.0 * Abs(t - s), unit as real) <= w as real
  {
    RMulScale(2.0, Abs(t - s), unit as real);
    AbsFactor(t, s, unit as real);
  }

  /** A settled rounding of the scaled value is one of the double. */
  lemma NearestTransfers(u: nat, k: int, one: nat, v: nat, exp: int, d: int)
    requires PositiveDouble(u) && one > 0 && Near(v, DoubleValue(u), k, one)
    requires NearestToAll(v, one, exp, d)
    ensures 2.0 * Abs(Decimal(d, exp - k) - DoubleValue(u)) <= Ten(exp - k)
  {
    var unit, w := Unit(exp), Weight(one, exp);
    var s, t := FixedPoint(DoubleValue(u), k, one), FixedPoint(Decimal(d, exp - k), k, one);
    WeightAtLeastOne(one, exp);
    UnitInterval(s, v, unit);
    assert HalfWeight(Mul(d, w), w, RMul(s, unit as real));
    CandidateFixedPoint(d, exp, k, one);
    HalfWeightTransfers(Mul(d, w), w, unit, s, t);
    CandidateFixedPoint(1, exp, k, one);
    MulOne(w);
    RMulIs(1.0, Ten(exp - k));
    FixedPointDistance(Decimal(d, exp - k), DoubleValue(u), Ten(exp - k), k, one, unit);
  }

  lemma UnitInterval(s: real, v: nat, unit: nat)
    requires unit > 0 && v as real - 1.0 < s < v as real + 1.0
    ensures (Mul(v, unit) - unit) as real <= RMul(s, unit as real) <= (Mul(v, unit) + unit) as real
  {
    MulNext(v, unit);
    MulNext(v - 1, unit);
    UnitOrder(s, v + 1, unit);
    UnitOrder(s, v - 1, unit);
  }

  lemma FixedPointDistance(y: real, z: real, h: real, k: int, one: nat, unit: nat)
    requires one > 0 && unit > 0
    requires RMul(2.0 * Abs(FixedPoint(y, k, one) - FixedPoint(z, k, one)), unit as real)
          <= RMul(FixedPoint(h, k, one), unit as real)
    ensures 2.0 * Abs(y - z) <= h
  {
    var t, s := Ten(k), one as real;
    RMulCancel(FixedPoint(h, k, one), 2.0 * Abs(FixedPoint(y, k, one) - FixedPoint(z, k, one)), unit as real);
    AbsFactor(RMul(y, t), RMul(z, t), s);
    AbsFactor(y, z, t);
    RMulScale(2.0, RMul(Abs(y - z), t), s);
    RMulScale(2.0, Abs(y - z), t);
    FixedPointOrder(h, 2.0 * Abs(y - z), k, one);
  }

  /** The scaled value has as many digits before the point as the double has above 10^-k. */
  lemma LeadingDigitAt(u: nat, k: int, one: nat, v: nat)
    requires PositiveDouble(u) && Near(v, DoubleValue(u), k, one)
    requires Scale(one) && 0 < v / one < TWO_32 && v < TWO_64
    ensures var count := GrisuCountDigits(v / one);
            Ten(count - k - 1) < 2.0 * DoubleValue(u) && DoubleValue(u) < Ten(count - k)
  {
    var count := GrisuCountDigits(v / one);
    CountBounds(v, one);
    BetweenPowers(DoubleValue(u), k, one, v, count);
  }

  lemma BetweenPowers(y: real, k: int, one: nat, v: nat, count: nat)
    requires Near(v, y, k, one) && one > 0 && v >= 2 && count >= 1
    requires Weight(one, count - 1) <= v < Weight(one, count)
    ensures Ten(count - k - 1) < 2.0 * y && y < Ten(count - k)
  {
    PowerFixedPoint(count, k, one);
    PowerFixedPoint(count - 1, k, one);
    FixedPointTwice(y, k, one);
    NearBounds(FixedPoint(y, k, one), v, Weight(one, count - 1), Weight(one, count));
    FixedPointOrder(y, Ten(count - k), k, one);
    FixedPointOrder(Ten(count - 1 - k), 2.0 * y, k, one);
  }

  lemma NearBounds(s: real, v: nat, low: nat, high: nat)
    requires v as real - 1.0 < s < v as real + 1.0 && low <= v < high && v >= 2
    ensures low as real < 2.0 * s && s < high as real
  {
    assert v as real + 1.0 == (v + 1) as real <= high as real;
  }

  lemma FixedPointTwice(y: real, k: int, one: nat)
    ensures FixedPoint(2.0 * y, k, one) == 2.0 * FixedPoint(y, k, one)
  {
    RMulScale(2.0, y, Ten(k));
    RMulScale(2.0, RMul(y, Ten(k)), one as real);
  }

  lemma CountBounds(v: nat, one: nat)
    requires Scale(one) && 0 < v / one < TWO_32 && v < TWO_64
    ensures GrisuCountDigits(v / one) >= 1
    ensures Weight(one, GrisuCountDigits(v / one) - 1) <= v < Weight(one, GrisuCountDigits(v / one))
    ensures v >= TWO_32
  {
    StartFits(v, one);
  }

  lemma PowerFixedPoint(exp: nat, k: int, one: nat)
    ensures FixedPoint(Ten(exp - k), k, one) == Weight(one, exp) as real
  {
    CandidateFixedPoint(1, exp, k, one);
    MulOne(Weight(one, exp));
    RMulIs(1.0, Ten(exp - k));
    RMulIs(FixedPoint(Ten(exp - k), k, one), 1.0);
  }

  // ---------- output with a precision ----------

  /** Scales the value by a cached power of ten. */
  method ScaleValue(u: nat, powers: int -> (Fp, int)) returns (v: nat, one: nat, k: int, ghost j: nat)
    requires PositiveDouble(u) && PowerTable(powers)
    ensures ApproximationOf(u, powers) == Approximation(v, one, k) && Near(v, DoubleValue(u), k, one)
    ensures TWO_63 / 2 <= v < TWO_64 && Scale(one) && 0 < v / one < TWO_32
    ensures one == Pow(2, j) && j <= 60 && -348 <= k <= 340
  {
    var normalized := NormalizeDouble(u, DecodeDouble(u));
    TableEntry(powers, -124 - NormalExponent(u));
    var cached := powers(-60 - (normalized.e + 64));
    k := cached.1;
    j := -(normalized.e + cached.0.e + 64);
    one := Pow(2, -(normalized.e + cached.0.e + 64));
    v := ScaledValue(u, normalized, cached.0, k, one);
    ScaleInRange(j);
    IntegralPart(v, one);
  }

  method ScaledValue(ghost u: nat, normalized: Fp, c: Fp, ghost k: int, ghost one: nat) returns (v: nat)
    requires PositiveDouble(u) && CachedPower(c, k)
    requires TWO_63 <= normalized.f < TWO_64
    requires normalized == Fp(ValueSignificand(u), NormalExponent(u))
    requires normalized.e + c.e + 64 <= 0 && one == Pow(2, -(normalized.e + c.e + 64))
    ensures Near(v, DoubleValue(u), k, one) && TWO_63 / 2 <= v < TWO_64
    ensures v == MultiplyHalves(normalized.f, c.f)
  {
    MultiplyRounds(normalized.f, c.f);
    MulIs(normalized.f, c.f);
    ProductRange(normalized.f, c.f, MultiplyHalves(normalized.f, c.f));
    ShiftedValue(DecodeDouble(u).f, NormalShift(DecodeDouble(u).f), DecodeDouble(u).e);
    ProductIsNear(normalized.f, normalized.e, c, k, one, DoubleValue(u));
    v := MultiplyHalves(normalized.f, c.f);
  }

  /** Drops trailing zeros. */
  method RemoveTrailingZeros(buf: string, exp0: int) returns (digits: string, exp: int)
    ensures digits == Stripped(buf, 0) && exp == exp0 + |buf| - |digits|
  {
    var numDigits := |buf|;
    exp := exp0;
    assert buf[..numDigits] == buf;
    while numDigits > 0 && buf[numDigits - 1] == '0'
      invariant 0 <= numDigits <= |buf| && exp == exp0 + |buf| - numDigits
      invariant Stripped(buf[..numDigits], 0) == Stripped(buf, 0)
    {
      assert buf[..numDigits][..numDigits - 1] == buf[..numDigits - 1];
      numDigits := numDigits - 1;
      exp := exp + 1;
    }
    digits := buf[..numDigits];
  }

  lemma {:induction false} StrippedEnd(buf: string)
    requires AllDigits(buf)
    ensures AllDigits(Stripped(buf, 0))
    ensures Stripped(buf, 0) != "" ==> Stripped(buf, 0)[|Stripped(buf, 0)| - 1] != '0'
  {
    if |buf| > 0 && buf[|buf| - 1] == '0' {
      StrippedEnd(buf[..|buf| - 1]);
    }
  }

  lemma StrippedIsEqual(buf: string, e: int)
    ensures Decimal(DecimalValue(Stripped(buf, 0)), e + |buf| - |Stripped(buf, 0)|)
         == Decimal(DecimalValue(buf), e)
  {
    StrippedValue(buf, 0);
    ScaledBy(DecimalValue(Stripped(buf, 0)), e, |buf| - |Stripped(buf, 0)|);
  }

  lemma SettledIsCorrect(u: nat, k: int, one: nat, v: nat, place: int, buf: string, exp: int)
    requires PositiveDouble(u) && one > 0 && Near(v, DoubleValue(u), k, one)
    requires NearestToAll(v, one, place, DecimalValue(buf))
    requires exp == place || buf == []
    ensures NearestMultiple(DoubleValue(u), DecimalValue(buf), exp - k, place - k)
  {
    NearestTransfers(u, k, one, v, place, DecimalValue(buf));
    RMulIs(0.0, Ten(exp - k));
    RMulIs(0.0, Ten(place - k));
    assert Decimal(DecimalValue(buf), place - k) == Decimal(DecimalValue(buf), exp - k);
  }

  lemma ZerosAreZero(n: nat)
    ensures DecimalValue(Zeros(n)) == 0 && DecimalValue("0") == 0
  {
    TrailingZeros("", n);
    assert "" + Zeros(n) == Zeros(n);
    MulIs(0, Pow(10, n));
    assert "0"[..0] == "";
  }

  /** Where the requested digits end: relative to the decimal point in fixed notation,
      relative to the first digit otherwise. */
  ghost predicate RequestedEnd(y: real, precision: nat, fixed: bool, place: int) {
    if fixed then place + precision == 0
    else var first := place + if precision >= 1 then precision else 1;
         Ten(first - 1) < 2.0 * y && y < Ten(first)
  }

  // ---------- when the digits are right ----------

  /** Twice the point halfway between the m-th and the next multiple of 10^place. */
  ghost function TwiceHalfway(m: int, place: int): real {
    Decimal(2 * m + 1, place)
  }

  /** A halfway point separates y from its approximation a, which itself is rounded down from
      halfway points. */
  ghost predicate Separated(a: real, y: real, place: int) {
    exists m: int :: 2.0 * a <= TwiceHalfway(m, place) < 2.0 * y || 2.0 * y < TwiceHalfway(m, place) < 2.0 * a
  }

  lemma TwiceHalfwayIs(m: int, place: int)
    ensures TwiceHalfway(m, place) == 2.0 * Decimal(m, place) + Ten(place)
    ensures TwiceHalfway(m - 1, place) == 2.0 * Decimal(m, place) - Ten(place)
  {
    var t := Ten(place);
    RMulScale(2.0, m as real, t);
    RMulAdd(2.0 * (m as real), 1.0, t);
    RMulAdd(2.0 * (m as real), -1.0, t);
    RMulIs(1.0, t);
    RMulIs(-1.0, t);
  }

  lemma HalfwayOrder(m: int, n: int, place: int)
    ensures m < n <==> TwiceHalfway(m, place) < TwiceHalfway(n, place)
  {
    RMulCancel((2 * m + 1) as real, (2 * n + 1) as real, Ten(place));
  }

  /** The rounded approximation is a nearest multiple to y exactly if nothing separates them. */
  lemma NearestUnlessSeparated(a: real, y: real, d: int, place: int)
    requires TwiceHalfway(d - 1, place) < 2.0 * a <= TwiceHalfway(d, place)
    ensures 2.0 * Abs(Decimal(d, place) - y) <= Ten(place) <==> !Separated(a, y, place)
  {
    TwiceHalfwayIs(d, place);
    if Separated(a, y, place) {
      var m: int :| 2.0 * a <= TwiceHalfway(m, place) < 2.0 * y || 2.0 * y < TwiceHalfway(m, place) < 2.0 * a;
      HalfwayOrder(d - 1, m, place);
      HalfwayOrder(m, d, place);
      HalfwayOrder(d, m, place);
      HalfwayOrder(m, d - 1, place);
    }
  }

  /** An approximation that is a multiple itself is separated if it is too far away. */
  lemma ExactUnlessFar(a: real, y: real, d: int, place: int)
    requires a == Decimal(d, place)
    ensures Separated(a, y, place) <==> 2.0 * Abs(a - y) > Ten(place)
  {
    TwiceHalfwayIs(d, place);
    NearestUnlessSeparated(a, y, d, place);
  }

  lemma ApproximationIsFixedPoint(a: Approximation)
    requires a.one > 0
    ensures FixedPoint(a.Value(), a.k, a.one) == a.v as real
  {
    var q := a.v as real / a.one as real;
    RMulAssoc(q, Ten(-a.k), Ten(a.k));
    TenAdd(-a.k, a.k);
    RMulIs(q, 1.0);
    RMulIs(q, a.one as real);
  }

  /** Rounding the scaled integer is rounding the approximation, ties down. */
  lemma RoundedApproximation(a: Approximation, exp: int)
    requires a.v >= 0 && a.one > 0
    ensures var d := RoundedAt(a.v, a.one, exp);
            TwiceHalfway(d - 1, exp - a.k) < 2.0 * a.Value() <= TwiceHalfway(d, exp - a.k)
  {
    var w, m, d := Weight(a.one, exp), Mul(a.v, Unit(exp)), RoundedAt(a.v, a.one, exp);
    WeightAtLeastOne(a.one, exp);
    MulIs(a.v, Unit(exp));
    DivisionFact(m, w);
    MulNext(m / w, w);
    assert Mul(d, w) - w < 2 * m - Mul(d, w) <= Mul(d, w) + w;
    MulScale(d, w);
    HalfwayInUnits(a, exp, d, 2 * m);
    HalfwayInUnits(a, exp, d - 1, 2 * m);
  }

  lemma MulScale(d: int, w: int)
    ensures Mul(2 * d + 1, w) == 2 * Mul(d, w) + w && Mul(2 * d - 1, w) == 2 * Mul(d, w) - w
  {
    MulAdd(d, d, w);
    MulAdd(2 * d, 1, w);
    MulAdd(2 * d, -1, w);
    MulOne(w);
    MulIs(-1, w);
  }

  /** A halfway point against the approximation, both in the units of the digit generator. */
  lemma HalfwayInUnits(a: Approximation, exp: int, m: int, n: int)
    requires a.one > 0 && n == 2 * Mul(a.v, Unit(exp))
    ensures TwiceHalfway(m, exp - a.k) < 2.0 * a.Value() <==> Mul(2 * m + 1, Weight(a.one, exp)) < n
  {
    var h, y, unit := TwiceHalfway(m, exp - a.k), a.Value(), Unit(exp) as real;
    WeightAtLeastOne(a.one, exp);
    CandidateFixedPoint(2 * m + 1, exp, a.k, a.one);
    ApproximationIsFixedPoint(a);
    RealOfMul(a.v, Unit(exp));
    RMulScale(2.0, y, Ten(a.k));
    RMulScale(2.0, RMul(y, Ten(a.k)), a.one as real);
    RMulScale(2.0, a.v as real, unit);
    FixedPointOrder(h, 2.0 * y, a.k, a.one);
    RMulCancel(FixedPoint(h, a.k, a.one), FixedPoint(2.0 * y, a.k, a.one), unit);
  }

  /** From sixty scaled places on the digits are the approximation. */
  lemma ExactFromSixty(a: Approximation, exp: int, j: nat)
    requires a.v >= 0 && a.one == Pow(2, j) && j <= 60 && exp <= -60
    ensures a.one > 0 && Decimal(RoundedAt(a.v, a.one, exp), exp - a.k) == a.Value()
  {
    var d, unit := RoundedAt(a.v, a.one, exp), Unit(exp) as real;
    NothingRemains(a.v, a.one, j, exp);
    WeightAtLeastOne(a.one, exp);
    CandidateFixedPoint(d, exp, a.k, a.one);
    ApproximationIsFixedPoint(a);
    RealOfMul(a.v, Unit(exp));
    RMulCancel(FixedPoint(Decimal(d, exp - a.k), a.k, a.one), a.v as real, unit);
    FixedPointOrder(Decimal(d, exp - a.k), a.Value(), a.k, a.one);
  }

  // ---------- output with a precision ----------

  /** Digits of u down to a place, without trailing zeros unless fixed: the approximation,
      rounded to that place. They are right exactly if no halfway point separates it from u,
      which never happens up to nineteen places after the point of the scaled value; from sixty
      on they are the approximation itself. */
  ghost predicate RoundedDigits(u: nat, a: Approximation, place: int, fixed: bool, digits: string, exp: int)
    requires PositiveDouble(u) && a.one > 0 && a.v >= 0
  {
    var y, d := DoubleValue(u), DecimalValue(digits);
    && AllDigits(digits)
    && (!fixed && digits != "" ==> digits[|digits| - 1] != '0')
    && Decimal(d, exp) == Decimal(RoundedAt(a.v, a.one, place + a.k), place)
    && (NearestMultiple(y, d, exp, place) <==> !Separated(a.Value(), y, place))
    && (place + a.k >= -19 ==> !Separated(a.Value(), y, place))
    && (place + a.k <= -60
        ==> && Decimal(d, exp) == a.Value()
            && (NearestMultiple(y, d, exp, place) <==> 2.0 * Abs(a.Value() - y) <= Ten(place)))
  }

  method Finish(buf: string, exp0: int, fixed: bool, k: int) returns (digits: string, exp: int)
    requires AllDigits(buf)
    ensures AllDigits(digits) && digits <= buf && (!fixed && digits != "" ==> digits[|digits| - 1] != '0')
    ensures fixed ==> digits == buf
    ensures !fixed ==> digits == Stripped(buf, 0)
    ensures exp + |digits| == exp0 + |buf| - k
    ensures Decimal(DecimalValue(digits), exp) == Decimal(DecimalValue(buf), exp0 - k)
  {
    digits, exp := buf, exp0;
    if !fixed {
      StrippedEnd(buf);
      StrippedIsEqual(buf, exp0 - k);
      digits, exp := RemoveTrailingZeros(buf, exp0);
    }
    exp := exp - k;
  }

  lemma RoundedIsRight(u: nat, a: Approximation, j: nat, place: int, fixed: bool, digits: string, exp: int)
    requires PositiveDouble(u) && a.v >= 0 && a.one == Pow(2, j) && j <= 60
    requires AllDigits(digits) && (!fixed && digits != "" ==> digits[|digits| - 1] != '0')
    requires Decimal(DecimalValue(digits), exp) == Decimal(RoundedAt(a.v, a.one, place + a.k), place)
    requires place + a.k >= -19
         ==> 2.0 * Abs(Decimal(DecimalValue(digits), exp) - DoubleValue(u)) <= Ten(place)
    ensures RoundedDigits(u, a, place, fixed, digits, exp)
  {
    hide DoubleValue, RoundedAt, DecimalValue, Separated, NearestMultiple, TwiceHalfway, AllDigits;
    var y, d := DoubleValue(u), RoundedAt(a.v, a.one, place + a.k);
    RoundedApproximation(a, place + a.k);
    RoundedIsNearest(a.Value(), y, d, place, DecimalValue(digits), exp);
    if place + a.k <= -60 {
      ExactUnlessSeparated(a, j, place, y);
    }
  }

  lemma ExactUnlessSeparated(a: Approximation, j: nat, place: int, y: real)
    requires a.v >= 0 && a.one == Pow(2, j) && j <= 60 && place + a.k <= -60
    ensures a.one > 0 && Decimal(RoundedAt(a.v, a.one, place + a.k), place) == a.Value()
    ensures Separated(a.Value(), y, place) <==> 2.0 * Abs(a.Value() - y) > Ten(place)
  {
    ExactFromSixty(a, place + a.k, j);
    ExactUnlessFar(a.Value(), y, RoundedAt(a.v, a.one, place + a.k), place);
  }

  lemma RoundedIsNearest(a: real, y: real, d: int, place: int, d': int, exp: int)
    requires TwiceHalfway(d - 1, place) < 2.0 * a <= TwiceHalfway(d, place)
    requires Decimal(d', exp) == Decimal(d, place)
    ensures NearestMultiple(y, d', exp, place) <==> !Separated(a, y, place)
    ensures 2.0 * Abs(Decimal(d', exp) - y) <= Ten(place) ==> !Separated(a, y, place)
  {
    NearestUnlessSeparated(a, y, d, place);
  }

  // ---------- which digits, and how many ----------

  /** In fixed notation the digits end at the requested place, trailing zeros and all, or there
      are none because the first one would be beyond it; otherwise there are no more than
      requested. No digit is a leading zero, unless it is the only one. */
  ghost predicate WellFormed(precision: nat, fixed: bool, digits: string, exp: int) {
    && (digits != "" ==> digits[0] != '0' || digits == "0")
    && (fixed ==> if digits == "" then exp + precision < 0 else exp + precision == 0)
    && (!fixed ==> digits != "" && digits[0] != '0' && |digits| <= if precision >= 1 then precision else 1)
  }

  lemma {:induction false} CarriedZeros(buf: string)
    requires |buf| >= 1 && forall i :: 1 <= i < |buf| ==> buf[i] == '0'
    ensures |Stripped(buf, 0)| <= 1
  {
    if |buf| > 1 {
      CarriedZeros(buf[..|buf| - 1]);
    }
  }

  lemma {:induction false} FirstStays(buf: string)
    requires |buf| >= 1 && buf[0] != '0'
    ensures Stripped(buf, 0) != "" && Stripped(buf, 0)[0] == buf[0]
  {
    if buf[|buf| - 1] == '0' {
      FirstStays(buf[..|buf| - 1]);
    }
  }

  lemma StrippedForm(buf: string, precision: nat)
    requires Sized(buf, if precision >= 1 then precision else 1)
    ensures forall exp :: WellFormed(precision, false, Stripped(buf, 0), exp)
  {
    FirstStays(buf);
    if |buf| > 1 && |buf| > precision {
      CarriedZeros(buf);
    }
  }

  /** The form of what becomes of the generator's buffer. */
  lemma FormOf(kappa: int, place: int, buf: string, exp0: int, k: int, precision: nat, fixed: bool)
    requires place + k <= kappa ==> exp0 == place + k
    requires place + k < kappa ==> Sized(buf, kappa - (place + k))
    requires place + k == kappa ==> buf == "0" || buf == "1"
    requires place + k > kappa ==> exp0 == kappa && buf == []
    requires if fixed then place + precision == 0
             else place + k == kappa - if precision >= 1 then precision else 1
    ensures fixed ==> WellFormed(precision, true, buf, exp0 - k)
    ensures !fixed ==> forall exp :: WellFormed(precision, false, Stripped(buf, 0), exp)
  {
    if !fixed {
      StrippedForm(buf, precision);
    }
  }

  // ---------- the method ----------

  /** The place at which the requested digits end. */
  ghost function LastPlace(a: Approximation, precision: int, fixed: bool): int
    requires a.one > 0 && a.v >= 0
  {
    RequestedPlace(GrisuCountDigits(a.v / a.one), precision, -a.k, fixed) - a.k
  }

  method FormatPositive(u: nat, precision: nat, fixed: bool, powers: int -> (Fp, int))
    returns (r: Option<(string, int)>)
    requires PositiveDouble(u) && PowerTable(powers)
    ensures PrecisionOutput(u, ApproximationOf(u, powers), precision, fixed, r)
    ensures r.Some? ==> -400 <= r.value.1 + |r.value.0| <= 400
  {
    ghost var j;
    var v, one, k;
    v, one, k, j := ScaleValue(u, powers);
    LeadingDigitAt(u, k, one, v);
    DecidedFromSixtyFour(v, one, LastPlace(Approximation(v, one, k), precision, fixed) + k);
    if precision > 17 {
      return None;
    }
    r := RoundValue(u, j, v, one, k, precision, fixed);
  }

  /** Rounds the approximation v / one * 10^-k. */
  method RoundValue(ghost u: nat, ghost j: nat, v: U64, one: nat, k: int, precision: nat, fixed: bool)
    returns (r: Option<(string, int)>)
    requires PositiveDouble(u) && Near(v, DoubleValue(u), k, one)
    requires Scale(one) && 0 < v / one < TWO_32 && one == Pow(2, j) && j <= 60 && -348 <= k <= 340
    ensures r.Some? ==> -400 <= r.value.1 + |r.value.0| <= 400
    ensures var a := Approximation(v, one, k);
            var place := LastPlace(a, precision, fixed);
            && (r == None <==> !Decided(v, one, place + k))
            && (r.Some? ==> RoundedDigits(u, a, place, fixed, r.value.0, r.value.1))
            && (r.Some? ==> WellFormed(precision, fixed, r.value.0, r.value.1))
  {
    hide Decided, RoundedDigits, NearestToAll, DecimalValue, RoundedAt, Near;
    ghost var place := LastPlace(Approximation(v, one, k), precision, fixed);
    var result, buf, exp := GenerateFixed(v, one, precision, 0 - k, fixed);
    if result == DigitsResult.Error {
      return None;
    }
    FormOf(GrisuCountDigits(v / one), place, buf, exp, k, precision, fixed);
    ghost var exp0 := exp;
    var digits;
    digits, exp := Finish(buf, exp, fixed, k);
    FinishedIsRight(u, Approximation(v, one, k), j, place, fixed, buf, exp0, digits, exp);
    r := Some((digits, exp));
  }

  lemma FinishedIsRight(u: nat, a: Approximation, j: nat, place: int, fixed: bool, buf: string, exp0: int,
                        digits: string, exp: int)
    requires PositiveDouble(u) && a.v >= 0 && a.one == Pow(2, j) && j <= 60
    requires a.one > 0 && Near(a.v, DoubleValue(u), a.k, a.one) && (exp0 == place + a.k || buf == [])
    requires DecimalValue(buf) == RoundedAt(a.v, a.one, place + a.k)
    requires NearestToAll(a.v, a.one, place + a.k, DecimalValue(buf)) <==> place + a.k >= -19
    requires AllDigits(digits) && (!fixed && digits != "" ==> digits[|digits| - 1] != '0')
    requires Decimal(DecimalValue(digits), exp) == Decimal(DecimalValue(buf), exp0 - a.k)
    ensures RoundedDigits(u, a, place, fixed, digits, exp)
  {
    hide RoundedDigits, RoundedAt, DecimalValue, NearestToAll, Near, AllDigits;
    BufferIsRounded(buf, exp0, place + a.k, a.k);
    if place + a.k >= -19 {
      SettledIsCorrect(u, a.k, a.one, a.v, place + a.k, buf, exp0);
    }
    RoundedIsRight(u, a, j, place, fixed, digits, exp);
  }

  lemma DecidedFromSixtyFour(v: nat, one: nat, place: int)
    requires one > 0
    ensures place <= -64 ==> Decided(v, one, place)
  {
    if place <= -64 {
      ErrorVanishes(v, one, place);
    }
  }

  /** An empty buffer is zero at any place. */
  lemma BufferIsRounded(buf: string, exp: int, place: int, k: int)
    requires exp == place || buf == []
    ensures Decimal(DecimalValue(buf), exp - k) == Decimal(DecimalValue(buf), place - k)
  {
    RMulIs(0.0, Ten(exp - k));
    RMulIs(0.0, Ten(place - k));
  }

  /** The output for a double: None, for the C library, exactly if more than 17 digits are asked
      for or the approximation leaves open which way to round, which it never does from
      sixty-four scaled places on, as the error has wrapped to zero by then. */
  ghost predicate PrecisionOutput(u: nat, a: Approximation, precision: nat, fixed: bool,
                                  r: Option<(string, int)>)
    requires PositiveDouble(u)
  {
    && a.one > 0 && a.v >= 0
    && var place := LastPlace(a, precision, fixed);
       && RequestedEnd(DoubleValue(u), precision, fixed, place)
       && (r == None <==> precision > 17 || !Decided(a.v, a.one, place + a.k))
       && (place + a.k <= -64 && precision <= 17 ==> r.Some?)
       && (r.Some? ==> RoundedDigits(u, a, place, fixed, r.value.0, r.value.1))
       && (r.Some? ==> WellFormed(precision, fixed, r.value.0, r.value.1))
  }

  /** The digits of a double with a precision and the decimal exponent of the last one.
      None stands for the calls of the C library. */
  method FormatPrecision(u: nat, precision: nat, fixed: bool, powers: int -> (Fp, int))
    returns (r: Option<(string, int)>)
    requires u < INFINITY_BITS && PowerTable(powers)
    ensures u == 0
        ==> r.Some? && AllDigits(r.value.0) && DecimalValue(r.value.0) == 0
            && r.value.1 + (if fixed then precision else 0) == 0
            && |r.value.0| == (if precision > 0 && fixed then precision else 1)
    ensures u > 0 ==> PrecisionOutput(u, ApproximationOf(u, powers), precision, fixed, r)
    ensures r.Some? ==> -400 <= r.value.1 + |r.value.0| <= 400
  {
    if u == 0 {
      ZerosAreZero(precision);
      r := Some(if precision <= 0 || !fixed then ("0", 0) else (Zeros(precision), 0 - precision));
    } else {
      r := FormatPositive(u, precision, fixed, powers);
    }
  }
}
