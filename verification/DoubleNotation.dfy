/**
 Which doubles are written with an exponent: those below the one nearest to 10^-4, and those
 from 10^16 on.
 */
module DoubleNotation {
  import opened Powers
  import opened RealPowers
  import opened Wrappers
  import opened Floating
  import opened RoundingInterval
  import opened DigitSpec
  import opened FormatFloat
  import opened FloatWriter
  import opened WriteDouble
  import Fallback = FallbackFormat
  import Fixed = GrisuFixed

  /** The doubles nearest to 10^-4 and 10^16. */
  const TEN_TO_MINUS_4: nat := 0x3F1A_36E2_EB1C_432D
  const TEN_TO_16: nat := 0x4341_C379_37E0_8000

  /** 10^n lies inside the rounding interval of u. */
  ghost predicate Nearest(u: nat, n: int) {
    PositiveDouble(u) && LowerBoundary(u) < Ten(n) < UpperBoundary(u)
  }

  lemma NearestTo16()
    ensures Nearest(TEN_TO_16, 16)
  {
    PowersOfTen();
    TenIsPow(16);
    StepUp(TEN_TO_16);
    StepUp(TEN_TO_16 - 1);
    assert DecodeDouble(TEN_TO_16) == Fp(5000000000000000, 1);
    assert Two(1) == 2.0 * Two(0);
    RMulIs(5000000000000000.0, 2.0);
  }

  lemma NearestToMinus4()
    ensures Nearest(TEN_TO_MINUS_4, -4)
  {
    var f, u := 7378697629483821, TEN_TO_MINUS_4;
    assert DecodeDouble(u) == Fp(f, -66) && DecodeDouble(u - 1) == Fp(f - 1, -66);
    StepUp(u);
    StepUp(u - 1);
    TwoToMinus66();
    FourPlaces();
    RMulIs(f as real, Two(-66));
  }

  lemma TwoToMinus66()
    ensures 73786976294838206464.0 * Two(-66) == 1.0
  {
    TwoAdd(-66, 66);
    TwoIsPow(66);
    PowersOfTwo();
    assert Pow(2, 66) == 2 * Pow(2, 65) && Pow(2, 65) == 2 * Pow(2, 64);
    RMulIs(Two(-66), Two(66));
  }

  lemma FourPlaces()
    ensures Ten(-4) == 0.0001
  {
    assert Ten(-1) == Ten(0) / 10.0 && Ten(-2) == Ten(-1) / 10.0;
    assert Ten(-3) == Ten(-2) / 10.0 && Ten(-4) == Ten(-3) / 10.0;
  }

  // ---------- on which side of a power of ten ----------

  lemma BoundariesOrdered(u: nat, v: nat)
    requires PositiveDouble(u) && PositiveDouble(v) && u < v
    ensures UpperBoundary(u) <= LowerBoundary(v)
  {
    if u + 1 < v {
      DoublesIncrease(u, v - 1);
      DoublesIncrease(u + 1, v);
    }
  }

  /** The shortest decimal for a double reaches a power of ten exactly if the double is not
      below the one that the power rounds to. */
  lemma ReachesTogether(u: nat, d: int, e: int, lowerTies: bool, b: nat, n: int)
    requires PositiveDouble(u) && ShortestAndClosest(u, d, e, lowerTies) && Nearest(b, n)
    ensures Decimal(d, e) >= Ten(n) <==> u >= b
  {
    if u < b {
      BoundariesOrdered(u, b);
    } else if u > b {
      BoundariesOrdered(b, u);
    } else {
      RMulIs(1.0, Ten(n));
      assert RoundsTo(u, Decimal(1, n), lowerTies);
      assert e >= n;
      PositiveDecimal(u, d, e, lowerTies);
      TenMonotone(n, e);
      RMulMonotone(1.0, d as real, Ten(e));
      RMulIs(1.0, Ten(e));
    }
  }

  lemma PositiveDecimal(u: nat, d: int, e: int, lowerTies: bool)
    requires PositiveDouble(u) && RoundsTo(u, Decimal(d, e), lowerTies)
    ensures d >= 1
  {
    LowerPositive(u);
    if d <= 0 {
      RMulMonotone(d as real, 0.0, Ten(e));
      RMulIs(0.0, Ten(e));
    }
  }

  /** The first digit of a number without a leading zero tells its magnitude. */
  lemma FirstDigitPlace(digits: string, exp: int)
    requires AllDigits(digits) && |digits| >= 1 && digits[0] != '0'
    ensures Ten(|digits| + exp - 1) <= Decimal(DecimalValue(digits), exp) < Ten(|digits| + exp)
  {
    var n := |digits|;
    Fallback.LeadingDigitBound(digits);
    Fixed.DigitsBound(digits);
    TenIsPow(n);
    TenIsPow(n - 1);
    TenAdd(n, exp);
    TenAdd(n - 1, exp);
    RMulMonotone(Ten(n - 1), DecimalValue(digits) as real, Ten(exp));
    RMulCancel(DecimalValue(digits) as real, Ten(n), Ten(exp));
  }

  lemma PlaceReaches(f: int, y: real, n: int)
    requires Ten(f) <= y < Ten(f + 1)
    ensures f >= n <==> y >= Ten(n)
  {
    if f >= n {
      TenMonotone(n, f);
    } else {
      TenMonotone(f + 1, n);
    }
  }

  lemma LetterFor(u: nat, digits: string, exp: int, lowerTies: bool)
    requires PositiveDouble(u) && ShortestAndClosest(u, DecimalValue(digits), exp, lowerTies)
    requires AllDigits(digits) && |digits| >= 1 && digits[0] != '0'
    ensures Scientific(PLAIN, |digits| + exp - 1) <==> u < TEN_TO_MINUS_4 || u >= TEN_TO_16
  {
    var f, y := |digits| + exp - 1, Decimal(DecimalValue(digits), exp);
    FirstDigitPlace(digits, exp);
    PlaceReaches(f, y, 16);
    PlaceReaches(f, y, -4);
    NearestTo16();
    NearestToMinus4();
    ReachesTogether(u, DecimalValue(digits), exp, lowerTies, TEN_TO_16, 16);
    ReachesTogether(u, DecimalValue(digits), exp, lowerTies, TEN_TO_MINUS_4, -4);
  }

  /** The text of a double has an exponent exactly if the double is below the one nearest to
      10^-4 or not below 10^16, provided that its digits have no leading zero. */
  lemma UsesExponent(u: nat, powers: int -> (Fp, int), text: string)
    requires PositiveDouble(u) && Shows(u, powers, text) && !Misprinted(u, powers)
    requires !GrisuGivesUp(u, powers) || ClearOfPower(u, powers)
    ensures ShapeOf(text, '.').letter == if u < TEN_TO_MINUS_4 || u >= TEN_TO_16 then Some('e') else None
  {
    var digits, exp :| ShortestDigits(u, powers, digits, exp)
                       && ReadsAs(text, '.', DecimalValue(digits), exp) && LaidOut(text, '.', digits, exp, PLAIN);
    LetterFor(u, digits, exp,
              GrisuGivesUp(u, powers) && Fallback.LowerTies(u, exp + |digits| - 1));
  }
}
