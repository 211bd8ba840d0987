/**
 The exact formatter for doubles: it scales the value and the halves of the distances to
 the neighbouring doubles to integers and runs the digit loop on them.
 */
module FallbackFormat {
  import opened Powers
  import opened RealPowers
  import opened Floating
  import opened RoundingInterval
  import opened Bigits
  import opened BigintLemmas
  import opened BigInteger
  import opened DigitSpec
  import opened DigitLoop

  function Shift(u: nat): nat {
    if PredecessorCloser(u) then 2 else 1
  }

  /** The one branch whose scaling is off: the denominator is shifted by one bit although
      the numerator was shifted by two. */
  predicate Misscaled(u: nat) {
    DecodeDouble(u).e >= 0 && PredecessorCloser(u)
  }

  /** The lower halfway point is recognised only while both big integers of the comparison
      spell out the same trailing zero bigits. */
  predicate LowerTies(u: nat, exp10: int) {
    Even(u) && (DecodeDouble(u).e < 0 || DecodeDouble(u).e / 32 <= exp10 / 32)
  }

  // ---------- the scaled integers of the three branches ----------

  ghost function Unit(u: nat, exp10: int): nat {
    var e := DecodeDouble(u).e;
    if e >= 0 then Pow(2, e) else if exp10 < 0 then Pow(10, -exp10) else 1
  }

  ghost function Denominator(u: nat, exp10: int): nat
    requires DecodeDouble(u).e >= 0 ==> exp10 >= 0
  {
    var e := DecodeDouble(u).e;
    if e >= 0 then Pow(10, exp10) * Pow(2, 1)
    else if exp10 < 0 then Pow(2, Shift(u) - e)
    else Pow(10, exp10) * Pow(2, Shift(u) - e)
  }

  ghost function ScaledDouble(u: nat, exp10: int): Scaled
    requires DecodeDouble(u).e >= 0 ==> exp10 >= 0
  {
    var b := Unit(u, exp10);
    Scaled(DecodeDouble(u).f * Pow(2, Shift(u)) * b, Denominator(u, exp10), b,
           if Shift(u) == 1 then b else 2 * b, LowerTies(u, exp10), Even(u))
  }

  /** Half the distance to the double above is Unit / Denominator * 10^exp10, up to the
      shift by which the numerator is scaled. */
  lemma UnitRelation(u: nat, exp10: int)
    requires DecodeDouble(u).e >= 0 ==> exp10 >= 0
    ensures RMul(Two(DecodeDouble(u).e), Denominator(u, exp10) as real)
         == RMul((if DecodeDouble(u).e >= 0 then 2 else Pow(2, Shift(u))) as real,
                 RMul(Unit(u, exp10) as real, Ten(exp10)))
  {
    var e := DecodeDouble(u).e;
    if e >= 0 {
      TwoIsPow(e);
      TenIsPow(exp10);
      MulIs(Pow(10, exp10), 2);
      RealOfMul(Pow(10, exp10), 2);
      RMulScale(2.0, Two(e), Ten(exp10));
      RMulCommutes(Ten(exp10), 2.0);
      RMulIs(2.0, RMul(Two(e), Ten(exp10)));
      RMulIs(2.0, Ten(exp10));
      RMulScale(2.0, Two(e), Ten(exp10));
    } else if exp10 < 0 {
      TwoIsPow(Shift(u) - e);
      TwoIsPow(Shift(u));
      TenIsPow(-exp10);
      TwoAdd(e, Shift(u) - e);
      TenAdd(-exp10, exp10);
      RMulIs(Two(Shift(u)), 1.0);
    } else {
      TwoIsPow(Shift(u) - e);
      TwoIsPow(Shift(u));
      TenIsPow(exp10);
      TwoAdd(e, Shift(u) - e);
      MulIs(Pow(10, exp10), Pow(2, Shift(u) - e));
      RealOfMul(Pow(10, exp10), Pow(2, Shift(u) - e));
      RMulCommutes(Ten(exp10), Two(Shift(u) - e));
      RMulAssoc(Two(e), Two(Shift(u) - e), Ten(exp10));
      RMulIs(1.0, Ten(exp10));
    }
  }

  lemma ScaledStandsFor(u: nat, exp10: int)
    requires PositiveDouble(u) && (DecodeDouble(u).e >= 0 ==> exp10 >= 0)
    ensures StandsFor(ScaledDouble(u, exp10), u, exp10, Shift(u),
                      if DecodeDouble(u).e >= 0 then 2 else Pow(2, Shift(u)))
    ensures ScaledDouble(u, exp10).Valid()
  {
    var x := ScaledDouble(u, exp10);
    var m := DecodeDouble(u).f * Pow(2, Shift(u));
    UnitRelation(u, exp10);
    DecodedRange(u);
    assert Pow(2, Shift(u)) >= 2;
    TimesMonotone(1, DecodeDouble(u).f, Pow(2, Shift(u)));
    MulIs(m, x.below);
    TimesMonotone(2, m, x.below);
    DenominatorPositive(u, exp10);
  }

  lemma DenominatorPositive(u: nat, exp10: int)
    requires DecodeDouble(u).e >= 0 ==> exp10 >= 0
    ensures Denominator(u, exp10) > 0
  {
    var e := DecodeDouble(u).e;
    if e >= 0 {
      TimesStrict(0, Pow(10, exp10), Pow(2, 1));
    } else if exp10 >= 0 {
      TimesStrict(0, Pow(10, exp10), Pow(2, Shift(u) - e));
    }
  }

  // ---------- what a correct decimal exponent implies ----------

  ghost predicate ReachesPower(x: Scaled) {
    x.s < x.n + x.above || (x.upperTies && x.s == x.n + x.above)
  }

  lemma {:induction false} TenBelowTwo(k: int)
    requires k <= 0
    ensures Ten(k) <= Two(k)
    decreases -k
  {
    if k < 0 {
      TenBelowTwo(k + 1);
    }
  }

  lemma ExponentRange(u: nat, exp10: int)
    requires PositiveDouble(u) && LargeExponent(u, exp10)
    ensures DecodeDouble(u).e >= 0 ==> exp10 >= 0
    ensures exp10 < 0 ==> -exp10 <= -DecodeDouble(u).e
  {
    var e := DecodeDouble(u).e;
    LowerPositive(u);
    if exp10 < 0 {
      TenBelowTwo(exp10 + 1);
      if e >= exp10 + 1 {
        TwoMonotone(exp10 + 1, e);
      }
    }
  }

  /** The integers do not reach the next power of ten, and reach this one if the rounding
      interval does. */
  lemma ScaledRange(u: nat, exp10: int)
    requires PositiveDouble(u) && LargeExponent(u, exp10) && !Misscaled(u)
    ensures DecodeDouble(u).e >= 0 ==> exp10 >= 0
    ensures BelowNextPower(ScaledDouble(u, exp10))
    ensures ScaledDouble(u, exp10).n < 20 * ScaledDouble(u, exp10).s
    ensures SmallExponent(u, exp10) ==> ReachesPower(ScaledDouble(u, exp10))
  {
    ExponentRange(u, exp10);
    ScaledStandsFor(u, exp10);
    var x := ScaledDouble(u, exp10);
    assert Pow(2, 1) == 2;
    BoundaryIdentities(x, u, exp10, Shift(u));
    PowerOrder(x, exp10, 1, UpperBoundary(u), x.n + x.above);
    PowerOrder(x, exp10, 10, UpperBoundary(u), x.n + x.above);
    RMulIs(1.0, Ten(exp10));
    RMulIs(10.0, Ten(exp10));
    assert Ten(exp10 + 1) == 10.0 * Ten(exp10);
  }

  /** In the misscaled branch the integers stand for twice the double. */
  lemma MisscaledUpper(u: nat, exp10: int)
    requires PositiveDouble(u) && Misscaled(u) && exp10 >= 0
    ensures var x := ScaledDouble(u, exp10);
            var b := x.below;
            x.n == 4 * (TWO_52 * b)
            && RMul(UpperBoundary(u), x.s as real)
            == RMul((2 * (TWO_52 * b) + b) as real, Ten(exp10))
  {
    ScaledStandsFor(u, exp10);
    DecodedRange(u);
    var x := ScaledDouble(u, exp10);
    var p := Two(DecodeDouble(u).e);
    assert Pow(2, Shift(u)) == 4;
    FourTimes(TWO_52, x.below);
    BoundaryOffsets(u);
    RMulIs(TWO_52 as real, p);
    HalfwayAbove(UpperBoundary(u), p, x.s as real, x.below as real, Ten(exp10));
  }

  lemma FourTimes(f: nat, b: nat)
    ensures f * 4 * b == 4 * (f * b)
  {
    TimesAssoc(4, f, b);
  }

  lemma HalfwayAbove(y: real, p: real, s: real, b: real, t: real)
    requires y == (TWO_52 as real) * p + 0.5 * p && RMul(p, s) == RMul(2.0, RMul(b, t))
    ensures RMul(y, s) == RMul(2.0 * ((TWO_52 as real) * b) + b, t)
  {
    var c := TWO_52 as real + 0.5;
    RMulIs(2.0, RMul(b, t));
    RMulScale(c, p, s);
    RMulScale(2.0 * c, b, t);
    assert y == c * p;
  }

  lemma MisscaledRange(u: nat, exp10: int)
    requires PositiveDouble(u) && Misscaled(u) && LargeExponent(u, exp10)
    ensures exp10 >= 0 && ScaledDouble(u, exp10).n < 20 * ScaledDouble(u, exp10).s
  {
    ExponentRange(u, exp10);
    MisscaledUpper(u, exp10);
    ScaledStandsFor(u, exp10);
    var x := ScaledDouble(u, exp10);
    var m := 2 * (TWO_52 * x.below) + x.below;
    PowerOrder(x, exp10, 10, UpperBoundary(u), m);
    RMulIs(10.0, Ten(exp10));
    assert Ten(exp10 + 1) == 10.0 * Ten(exp10);
  }

  /** So nothing inside the doubled interval is a decimal for the double itself. */
  lemma MisscaledIsWrong(u: nat, exp10: int, d: int, k: nat)
    requires PositiveDouble(u) && Misscaled(u) && exp10 >= 0
    requires ScaledDouble(u, exp10).Inside(d, k)
    ensures !RoundsTo(u, Decimal(d, exp10 - k), true)
  {
    var x := ScaledDouble(u, exp10);
    var b, p := x.below, Pow(10, k);
    MisscaledUpper(u, exp10);
    ScaledStandsFor(u, exp10);
    CandidateOrder(x, exp10, d, k, UpperBoundary(u), 2 * (TWO_52 * b) + b);
    MulSub(x.n, b, p);
    MulStrict(2 * (TWO_52 * b) + b, x.n - b, p);
  }

  // ---------- no digit string is exactly a power of ten when exponents differ ----------

  lemma FiveTimesOdd(x: nat)
    requires x % 2 == 1
    ensures 5 * x % 2 == 1
  {
  }

  lemma {:induction false} PowerOfFiveIsOdd(j: nat)
    ensures Pow(5, j) % 2 == 1
  {
    if j > 0 {
      PowerOfFiveIsOdd(j - 1);
      FiveTimesOdd(Pow(5, j - 1));
    }
  }

  lemma NeverEqual(f: nat, a: nat, exp10: nat, k: nat)
    requires f >= 1 && a > exp10 + 1
    ensures (f * Pow(2, a)) * Pow(10, k) != Pow(10, exp10) * 2
  {
    if k > exp10 {
      PowMonotone(10, exp10 + 1, k);
      TimesMonotone(1, f, Pow(2, a));
      TimesMonotone(1, f * Pow(2, a), Pow(10, k));
    } else {
      var j := exp10 - k;
      PowAdd(10, j, k);
      TimesAssoc(Pow(10, j), Pow(10, k), 2);
      TimesAssoc(2, Pow(10, j), Pow(10, k));
      if (f * Pow(2, a)) * Pow(10, k) == Pow(10, exp10) * 2 {
        MulIs(f * Pow(2, a), Pow(10, k));
        MulIs(2 * Pow(10, j), Pow(10, k));
        MulCancel(f * Pow(2, a), 2 * Pow(10, j), Pow(10, k));
        EvenIsNotOdd(f, a, j);
        assert false;
      }
    }
  }

  lemma EvenIsNotOdd(f: nat, a: nat, j: nat)
    requires a > j + 1
    ensures f * Pow(2, a) != 2 * Pow(10, j)
  {
    PowOfProduct(2, 5, j);
    PowAdd(2, j + 2, a - j - 2);
    PowAdd(2, 2, j);
    var r := Pow(2, a - j - 2);
    assert Pow(2, a) == 4 * Pow(2, j) * r;
    PowerOfFiveIsOdd(j);
    OddFactor(f * r, Pow(5, j), Pow(2, j));
    ReorderFactors(f, Pow(2, j), r);
  }

  lemma ReorderFactors(f: int, p: int, r: int)
    ensures f * (4 * p * r) == 4 * ((f * r) * p)
  {
    TimesAssoc(4 * p, r, f);
    TimesAssoc(4, p, r * f);
    TimesAssoc(f, r, p);
  }

  lemma OddFactor(x: int, odd: int, p: int)
    requires odd % 2 == 1 && p > 0
    ensures 4 * (x * p) != 2 * (p * odd)
  {
    if 4 * (x * p) == 2 * (p * odd) {
      TimesAssoc(2, x, p);
      MulIs(2 * x, p);
      MulIs(odd, p);
      MulCancel(2 * x, odd, p);
    }
  }

  // ---------- how many digits ----------

  /** A shortest decimal without a leading zero has at most seventeen digits. */
  lemma SeventeenDigits(u: nat, digits: seq<char>, e: int, lowerTies: bool)
    requires PositiveDouble(u) && ShortestAndClosest(u, DecimalValue(digits), e, lowerTies)
    requires |digits| > 0 && AllDigits(digits) && digits[0] != '0'
    ensures |digits| <= 17
  {
    ShortestIsSmall(u, DecimalValue(digits), e, lowerTies);
    LeadingDigitBound(digits);
    PowersOfTen();
    if |digits| > 17 {
      PowMonotone(10, 17, |digits| - 1);
    }
  }

  lemma {:induction false} LeadingDigitBound(digits: seq<char>)
    requires |digits| >= 1 && AllDigits(digits) && digits[0] != '0'
    ensures DecimalValue(digits) >= Pow(10, |digits| - 1)
  {
    var prefix := digits[..|digits| - 1];
    if |digits| == 1 {
      assert prefix == [];
    } else {
      LeadingDigitBound(prefix);
    }
  }

  lemma {:induction false} LeadingZeroBound(digits: seq<char>)
    requires |digits| >= 1 && AllDigits(digits) && digits[0] == '0'
    ensures DecimalValue(digits) < Pow(10, |digits| - 1)
  {
    var prefix := digits[..|digits| - 1];
    if |digits| == 1 {
      assert prefix == [];
    } else {
      LeadingZeroBound(prefix);
    }
  }

  /** The leading digit is not zero. */
  lemma LeadingDigit(x: Scaled, digits: seq<char>)
    requires x.Valid() && Answer(x, digits) && AllDigits(digits)
    requires ReachesPower(x)
    ensures digits[0] != '0'
  {
    var k := |digits| - 1;
    if digits[0] == '0' {
      LeadingZeroBound(digits);
      LargeEnough(x, DecimalValue(digits), k);
    }
  }

  lemma LargeEnough(x: Scaled, d: int, k: nat)
    requires x.Valid() && x.Inside(d, k) && (k > 0 ==> !x.Low(0) && !x.High(0))
    requires ReachesPower(x)
    ensures d >= Pow(10, k)
  {
    var p := Pow(10, k);
    MulOne(x.n);
    MulOne(x.below);
    MulOne(x.above);
    MulOne(x.s);
    QuotientRemainder(x, 0);
    MulStrict(x.below, x.n, p);
    if k == 0 {
      if d <= 0 {
        MulMonotone(d, 0, x.s);
      }
    } else {
      if x.Quotient(0) >= 1 {
        MulMonotone(1, x.Quotient(0), x.s);
      } else {
        MulMonotone(x.Quotient(0), 0, x.s);
      }
      MulMonotone(x.s, x.n - x.below, p);
      MulSub(x.n, x.below, p);
      MulCommutes(x.s, p);
      MulCancel(d, p, x.s);
    }
  }

  // ---------- the formatter ----------

  /** Assigns the scaled integers. The upper margin shares the lower one's object unless
      the double below is closer. */
  method SetUp(u: nat, exp10: int)
    returns (numerator: Bigint, denominator: Bigint, lower: Bigint, upper: Bigint)
    requires PositiveDouble(u) && -MAX_BIGITS < exp10 < MAX_BIGITS
    requires DecodeDouble(u).e >= 0 ==> exp10 >= 0
    requires exp10 < 0 ==> -exp10 <= -DecodeDouble(u).e
    ensures fresh({numerator, denominator, lower, upper})
    ensures numerator != denominator && numerator != lower && numerator != upper
    ensures denominator != lower && denominator != upper
    ensures numerator.Normal() && denominator.Normal() && lower.Normal() && upper.Normal()
    ensures var x := ScaledDouble(u, exp10);
            && numerator.Value() == x.n && denominator.Value() == x.s
            && lower.Value() == x.below && upper.Value() == x.above
    ensures numerator.exp == lower.exp
    ensures if DecodeDouble(u).e < 0 then lower.exp <= denominator.exp
            else lower.exp == DecodeDouble(u).e / 32 && denominator.exp == exp10 / 32
  {
    numerator := new Bigint(0);
    denominator := new Bigint(0);
    lower := new Bigint(0);
    var upperStore := new Bigint(0);
    if DecodeDouble(u).e >= 0 {
      SetUpInteger(u, exp10, numerator, denominator, lower, upperStore);
    } else if exp10 < 0 {
      SetUpSmall(u, exp10, numerator, denominator, lower, upperStore);
    } else {
      SetUpFraction(u, exp10, numerator, denominator, lower, upperStore);
    }
    upper := if Shift(u) != 1 then upperStore else lower;
  }

  lemma SignificandFits(u: nat)
    requires PositiveDouble(u)
    ensures Pow(2, Shift(u)) == (if Shift(u) == 1 then 2 else 4) && Pow(2, 1) == 2
    ensures 0 < DecodeDouble(u).f * Pow(2, Shift(u)) < TWO_64
  {
    DecodedRange(u);
    assert Pow(2, 1) == 2 && Pow(2, 2) == 4;
  }

  method SetUpInteger(u: nat, exp10: nat, numerator: Bigint, denominator: Bigint,
                      lower: Bigint, upperStore: Bigint)
    requires PositiveDouble(u) && exp10 < MAX_BIGITS && DecodeDouble(u).e >= 0
    requires numerator != denominator && numerator != lower && numerator != upperStore
    requires denominator != lower && denominator != upperStore && lower != upperStore
    modifies numerator, denominator, lower, upperStore
    ensures numerator.Normal() && denominator.Normal() && lower.Normal()
    ensures numerator.Value() == DecodeDouble(u).f * Pow(2, Shift(u)) * Pow(2, DecodeDouble(u).e)
    ensures denominator.Value() == Pow(10, exp10) * Pow(2, 1)
    ensures lower.Value() == Pow(2, DecodeDouble(u).e)
    ensures Shift(u) != 1 ==> upperStore.Normal() && upperStore.Value() == 2 * lower.Value()
    ensures numerator.exp == lower.exp == DecodeDouble(u).e / 32 && denominator.exp == exp10 / 32
  {
    var value := DecodeDouble(u);
    SignificandFits(u);
    numerator.Assign(value.f * Pow(2, Shift(u)));
    numerator.ShiftLeft(value.e);
    lower.Assign(1);
    lower.ShiftLeft(value.e);
    if Shift(u) != 1 {
      upperStore.Assign(1);
      upperStore.ShiftLeft(value.e + 1);
    }
    denominator.AssignPow10(exp10);
    denominator.ShiftLeft(1);
  }

  method SetUpSmall(u: nat, exp10: int, numerator: Bigint, denominator: Bigint,
                    lower: Bigint, upperStore: Bigint)
    requires PositiveDouble(u) && -MAX_BIGITS < exp10 < 0 && -exp10 <= -DecodeDouble(u).e
    requires numerator != denominator && numerator != lower && numerator != upperStore
    requires denominator != lower && denominator != upperStore && lower != upperStore
    modifies numerator, denominator, lower, upperStore
    ensures numerator.Normal() && denominator.Normal() && lower.Normal()
    ensures numerator.Value() == DecodeDouble(u).f * Pow(2, Shift(u)) * Pow(10, -exp10)
    ensures denominator.Value() == Pow(2, Shift(u) - DecodeDouble(u).e)
    ensures lower.Value() == Pow(10, -exp10)
    ensures Shift(u) != 1 ==> upperStore.Normal() && upperStore.Value() == 2 * lower.Value()
    ensures numerator.exp == lower.exp <= denominator.exp
  {
    SignificandFits(u);
    numerator.AssignPow10(-exp10);
    lower.AssignFrom(numerator);
    if Shift(u) != 1 {
      upperStore.AssignFrom(numerator);
      upperStore.ShiftLeft(1);
    }
    var m := DecodeDouble(u).f * Pow(2, Shift(u));
    TimesCommute(Pow(10, -exp10), m);
    numerator.Multiply64(m);
    denominator.Assign(1);
    denominator.ShiftLeft(Shift(u) - DecodeDouble(u).e);
  }

  lemma TimesCommute(a: int, b: int)
    ensures a * b == b * a
  {
  }

  method SetUpFraction(u: nat, exp10: nat, numerator: Bigint, denominator: Bigint,
                       lower: Bigint, upperStore: Bigint)
    requires PositiveDouble(u) && exp10 < MAX_BIGITS && DecodeDouble(u).e < 0
    requires numerator != denominator && numerator != lower && numerator != upperStore
    requires denominator != lower && denominator != upperStore && lower != upperStore
    modifies numerator, denominator, lower, upperStore
    ensures numerator.Normal() && denominator.Normal() && lower.Normal()
    ensures numerator.Value() == DecodeDouble(u).f * Pow(2, Shift(u))
    ensures denominator.Value() == Pow(10, exp10) * Pow(2, Shift(u) - DecodeDouble(u).e)
    ensures lower.Value() == 1
    ensures Shift(u) != 1 ==> upperStore.Normal() && upperStore.Value() == 2 * lower.Value()
    ensures numerator.exp == lower.exp == 0
  {
    SignificandFits(u);
    numerator.Assign(DecodeDouble(u).f * Pow(2, Shift(u)));
    denominator.AssignPow10(exp10);
    denominator.ShiftLeft(Shift(u) - DecodeDouble(u).e);
    lower.Assign(1);
    if Shift(u) != 1 {
      upperStore.Assign(2);
    }
  }

  /** Formats a double given the decimal exponent of its first digit, returning the digits
      and the decimal exponent of the last one. */
  method FallbackFormat(u: nat, exp10: int) returns (digits: seq<char>, exp: int)
    requires PositiveDouble(u) && LargeExponent(u, exp10)
    requires -MAX_BIGITS < exp10 < MAX_BIGITS
    ensures |digits| > 0 && exp == exp10 - (|digits| - 1)
    ensures forall i :: 1 <= i < |digits| ==> IsDigit(digits[i])
    ensures !Misscaled(u) && SmallExponent(u, exp10) ==> digits[0] != '0' && |digits| <= 17
    ensures !Misscaled(u)
        ==> && AllDigits(digits)
            && ShortestAndClosest(u, DecimalValue(digits), exp, LowerTies(u, exp10))
            && (ShortestAndClosest(u, DecimalValue(digits), exp, Even(u))
                <==> LowerTies(u, exp10) || !Even(u) || !BoundaryIsShorter(u))
    ensures Misscaled(u) ==> !RoundsTo(u, Decimal(DecimalValue(digits), exp), true)
  {
    ExponentRange(u, exp10);
    ghost var x := ScaledDouble(u, exp10);
    ScaledStandsFor(u, exp10);
    if Misscaled(u) {
      MisscaledRange(u, exp10);
    } else {
      ScaledRange(u, exp10);
    }
    var numerator, denominator, lower, upper := SetUp(u, exp10);
    ReadyForDigits(x, numerator, denominator, lower, upper);
    ExponentsDiffer(u, exp10);
    digits := GenerateDigits(numerator, denominator, lower, upper, Even(u), x);
    exp := exp10 - (|digits| - 1);
    if Misscaled(u) {
      MisscaledIsWrong(u, exp10, DecimalValue(digits), |digits| - 1);
    } else {
      AnswerIsRight(u, exp10, x, digits);
      ShortestUnlessBoundary(u, exp10, DecimalValue(digits), exp);
    }
  }

  /** The digit loop's answer for the four integers, outside the misscaled branch. */
  lemma AnswerIsRight(u: nat, exp10: int, x: Scaled, digits: seq<char>)
    requires PositiveDouble(u) && LargeExponent(u, exp10) && !Misscaled(u)
    requires x.Valid() && Answer(x, digits) && AllDigits(digits)
    requires x.lowerTies == LowerTies(u, exp10) && x.upperTies == Even(u)
    requires StandsFor(x, u, exp10, Shift(u), if DecodeDouble(u).e >= 0 then 2 else Pow(2, Shift(u)))
    requires SmallExponent(u, exp10) ==> ReachesPower(x)
    ensures ShortestAndClosest(u, DecimalValue(digits), exp10 - (|digits| - 1), LowerTies(u, exp10))
    ensures SmallExponent(u, exp10) ==> digits[0] != '0' && |digits| <= 17
  {
    assert Pow(2, 1) == 2;
    BestIsShortest(x, u, exp10, Shift(u), DecimalValue(digits), |digits| - 1);
    if SmallExponent(u, exp10) {
      LeadingDigit(x, digits);
      SeventeenDigits(u, digits, exp10 - (|digits| - 1), LowerTies(u, exp10));
    }
  }

  lemma ReadyForDigits(x: Scaled, numerator: Bigint, denominator: Bigint, lower: Bigint, upper: Bigint)
    requires x.Valid() && x.n < 20 * x.s
    requires numerator.Normal() && denominator.Normal() && lower.Normal() && upper.Normal()
    requires numerator.Value() == x.n && denominator.Value() == x.s
    requires lower.Value() == x.below && upper.Value() == x.above
    requires numerator.exp == lower.exp
    ensures AtPlace(x, 0, numerator, denominator, lower, upper)
  {
    MulOne(x.n);
    MulOne(x.below);
    MulOne(x.above);
  }

  lemma ExponentsDiffer(u: nat, exp10: int)
    requires PositiveDouble(u)
    requires DecodeDouble(u).e >= 0 ==> exp10 >= 0
    ensures DecodeDouble(u).e >= 0 && DecodeDouble(u).e / 32 > exp10 / 32
        ==> forall k: nat :: Mul(ScaledDouble(u, exp10).n, Pow(10, k)) != ScaledDouble(u, exp10).s
  {
    var value, x := DecodeDouble(u), ScaledDouble(u, exp10);
    if value.e >= 0 && value.e / 32 > exp10 / 32 {
      DecodedRange(u);
      PowAdd(2, Shift(u), value.e);
      TimesAssoc(value.f, Pow(2, Shift(u)), Pow(2, value.e));
      forall k: nat
        ensures Mul(x.n, Pow(10, k)) != x.s
      {
        NeverEqual(value.f, Shift(u) + value.e, exp10, k);
        MulIs(x.n, Pow(10, k));
      }
    }
  }

  /** Doubles from 2^52 on have their first digit before the point. */
  lemma LargeDouble(u: nat, exp10: int)
    requires PositiveDouble(u) && Misscaled(u) && LargeExponent(u, exp10)
    ensures exp10 >= 0
  {
    ExponentRange(u, exp10);
  }

  // ---------- the lower halfway point ----------

  /** The lower halfway point is a decimal, and none as coarse lies inside the interval. */
  ghost predicate BoundaryIsShorter(u: nat)
    requires PositiveDouble(u)
  {
    exists d: int, e: int :: Decimal(d, e) == LowerBoundary(u) && NothingInside(u, e)
  }

  ghost predicate NothingInside(u: nat, e: int)
    requires PositiveDouble(u)
  {
    forall d': int, e': int :: e' >= e ==> !RoundsTo(u, Decimal(d', e'), false)
  }

  /** When the lower halfway point of an even significand is not recognised the answer is
      still the shortest one, exactly if that point is no shorter decimal. */
  lemma ShortestUnlessBoundary(u: nat, exp10: int, d: int, e: int)
    requires PositiveDouble(u) && !Misscaled(u)
    requires ShortestAndClosest(u, d, e, LowerTies(u, exp10))
    ensures ShortestAndClosest(u, d, e, Even(u))
       <==> LowerTies(u, exp10) || !Even(u) || !BoundaryIsShorter(u)
  {
    if Even(u) && !LowerTies(u, exp10) {
      if BoundaryIsShorter(u) {
        var d': int, e': int :| Decimal(d', e') == LowerBoundary(u) && NothingInside(u, e');
        LowerPositive(u);
        BoundaryOffsets(u);
        assert e < e' && RoundsTo(u, Decimal(d', e'), true);
      } else {
        ShortestWithBoundary(u, d, e);
      }
    }
  }

  lemma ShortestWithBoundary(u: nat, d: int, e: int)
    requires PositiveDouble(u) && Even(u) && !PredecessorCloser(u)
    requires ShortestAndClosest(u, d, e, false) && !BoundaryIsShorter(u)
    ensures ShortestAndClosest(u, d, e, true)
  {
    BoundaryOffsets(u);
    forall d': int, e': int | e' > e
      ensures !RoundsTo(u, Decimal(d', e'), true)
    {
      assert !RoundsTo(u, Decimal(d', e'), false);
      if Decimal(d', e') == LowerBoundary(u) {
        assert NothingInside(u, e');
      }
    }
    forall d': int | RoundsTo(u, Decimal(d', e), true)
      ensures Abs(Decimal(d, e) - DoubleValue(u)) <= Abs(Decimal(d', e) - DoubleValue(u))
    {
      assert RoundsTo(u, Decimal(d, e), false);
      if Decimal(d', e) != LowerBoundary(u) {
        assert RoundsTo(u, Decimal(d', e), false);
      }
    }
  }

  /** The double 7.1680000000000000004e25, whose lower halfway point is 7168 * 10^22. */
  const BOUNDARY_CASE: nat := 4993829437767693760

  /** For it the formatter's answer is longer than the four digits that would do. */
  lemma BoundaryCaseIsMissed()
    ensures PositiveDouble(BOUNDARY_CASE) && CorrectExponent(BOUNDARY_CASE, 25)
    ensures Even(BOUNDARY_CASE) && !LowerTies(BOUNDARY_CASE, 25) && !Misscaled(BOUNDARY_CASE)
    ensures RoundsTo(BOUNDARY_CASE, Decimal(7168, 22), true) && BoundaryIsShorter(BOUNDARY_CASE)
    ensures forall d: int, e: int :: ShortestAndClosest(BOUNDARY_CASE, d, e, false) ==> e < 22
  {
    assert DecodeDouble(BOUNDARY_CASE) == Fp(8344650268554688, 33);
    BoundaryCasePowers();
    BoundaryOffsets(BOUNDARY_CASE);
    RMulIs(8344650268554688.0, Two(33));
    RMulIs(7168.0, Ten(22));
    assert Decimal(7168, 22) == LowerBoundary(BOUNDARY_CASE);
    RMulIs(7169.0, Ten(22));
    forall d: int, e: int | e >= 22
      ensures !RoundsTo(BOUNDARY_CASE, Decimal(d, e), false)
    {
      BetweenMultiples(d, e, 7168, UpperBoundary(BOUNDARY_CASE));
    }
    assert NothingInside(BOUNDARY_CASE, 22);
  }

  /** A decimal with an exponent of at least 22 is a multiple of 10^22. */
  lemma BetweenMultiples(d: int, e: int, n: int, y: real)
    requires e >= 22 && y < RMul((n + 1) as real, Ten(22))
    ensures Decimal(d, e) <= RMul(n as real, Ten(22)) || Decimal(d, e) > y
  {
    var m := Mul(d, Pow(10, e - 22));
    TenAdd(e - 22, 22);
    TenIsPow(e - 22);
    RMulAssoc(d as real, Ten(e - 22), Ten(22));
    RealOfMul(d, Pow(10, e - 22));
    RMulCancel(n as real, m as real, Ten(22));
    if m > n {
      RMulMonotone((n + 1) as real, m as real, Ten(22));
    } else {
      RMulMonotone(m as real, n as real, Ten(22));
    }
  }

  lemma BoundaryCasePowers()
    ensures Two(33) == 8589934592.0
    ensures Ten(22) == 10000000000000000000000.0
    ensures Ten(25) == 1000.0 * Ten(22) && Ten(26) == 10000.0 * Ten(22)
  {
    PowersOfTwo();
    TwoIsPow(33);
    PowersOfTen();
    PowAdd(10, 20, 2);
    TenIsPow(22);
    assert Ten(23) == 10.0 * Ten(22) && Ten(24) == 10.0 * Ten(23);
  }

  /** The misscaled branch is reached, for instance by 2^52. */
  lemma MisscaledIsReached()
    ensures PositiveDouble(1075 * TWO_52) && Misscaled(1075 * TWO_52)
    ensures CorrectExponent(1075 * TWO_52, 15)
  {
    BoundaryOffsets(1075 * TWO_52);
    PowersOfTen();
    TenIsPow(15);
    TenIsPow(16);
    RMulIs(TWO_52 as real, Two(0));
  }
}
