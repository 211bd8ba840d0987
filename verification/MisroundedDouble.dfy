/**
 A double that is printed wrongly in fixed notation: for 10^80 the error that Grisu tracks has
 wrapped to zero, and the digits of its 64-bit approximation are printed as if they were exact.
 */
module MisroundedDouble {
  import opened Powers
  import opened RealPowers
  import opened Wrappers
  import opened Floating
  import opened RoundingInterval
  import opened DigitSpec
  import opened Grisu
  import opened FormatFloat
  import opened FormatPrecision

  /** The bits of the double nearest to 10^80, the table entry used for it, and its scaled
      significand. */
  const TEN_TO_80: nat := 5803729174622436191
  const SIGNIFICAND: nat := 7596454196607839
  const ENTRY := Fp(0xb94470938fa89bcf, -316)
  const SCALED: nat := 11258999068426240003

  lemma Decoded()
    ensures PositiveDouble(TEN_TO_80) && DecodeDouble(TEN_TO_80) == Fp(SIGNIFICAND, 213)
    ensures ValueSignificand(TEN_TO_80) == SIGNIFICAND * 2048 && NormalExponent(TEN_TO_80) == 202
  {
    PowersOfTwo();
    assert Pow(2, 11) == 2 * Pow(2, 10);
    assert TEN_TO_80 / TWO_52 == 1288 && TEN_TO_80 % TWO_52 == SIGNIFICAND - TWO_52;
    NormalShiftIs(SIGNIFICAND, 11);
  }

  lemma ApproximationHere(powers: int -> (Fp, int))
    requires powers(-326) == (ENTRY, -76)
    ensures PositiveDouble(TEN_TO_80)
    ensures ApproximationOf(TEN_TO_80, powers) == Approximation(SCALED, Pow(2, 50), -76)
  {
    Decoded();
    assert MultiplyHalves(SIGNIFICAND * 2048, ENTRY.f) == SCALED;
  }

  // ---------- how far off it is ----------

  const TWO_TO_263 := 14821387422376473014217086081112052205218558037201992197050570753012880593911808
  const TEN_TO_76 := 10000000000000000000000000000000000000000000000000000000000000000000000000000

  lemma SmallPowers()
    ensures Pow(2, 50) == 0x4_0000_0000_0000 && Pow(2, 7) == 128 && Pow(2, 64) == TWO_64
  {
    PowersOfTwo();
    assert Pow(2, 7) == 8 * Pow(2, 4);
    assert Pow(2, 8) == 2 * Pow(2, 7);
    PowAdd(2, 32, 10);
    PowAdd(2, 42, 8);
  }

  lemma TwoTo263()
    ensures Pow(2, 263) == TWO_TO_263
  {
    SmallPowers();
    PowAdd(2, 64, 64);
    PowAdd(2, 128, 128);
    PowAdd(2, 256, 7);
  }

  lemma TenTo76()
    ensures Pow(10, 76) == TEN_TO_76
  {
    PowersOfTen();
    PowAdd(10, 19, 19);
    PowAdd(10, 38, 38);
  }

  /** Over 2^50, the approximation is more than one away from the double. */
  lemma ScaledDifference()
    ensures Mul(SCALED, Pow(10, 76)) > Mul(SIGNIFICAND, Pow(2, 263)) + Pow(2, 50)
  {
    SmallPowers();
    TwoTo263();
    TenTo76();
    MulIs(SCALED, TEN_TO_76);
    MulIs(SIGNIFICAND, TWO_TO_263);
  }

  lemma FarInIntegers(f: nat, e: nat, v: nat, j: nat, n: nat)
    requires Mul(v, Pow(10, n)) > Mul(f, Pow(2, e + j)) + Pow(2, j)
    ensures Approximation(v, Pow(2, j), 0 - n).Value() > RMul(f as real, Two(e)) + 1.0
  {
    var x, y := Approximation(v, Pow(2, j), 0 - n).Value(), RMul(f as real, Two(e));
    TenIsPow(n);
    TwoIsPow(j);
    TwoIsPow(e + j);
    TwoAdd(e, j);
    RealOfMul(v, Pow(10, n));
    RealOfMul(f, Pow(2, e + j));
    RMulAssoc(f as real, Two(e), Two(j));
    FarApart(x, y, Two(j), v as real, Ten(n), Mul(f, Pow(2, e + j)) as real);
  }

  lemma FarApart(x: real, y: real, one: real, v: real, t: real, n: real)
    requires one > 0.0 && x == RMul(v / one, t) && RMul(y, one) == n && RMul(v, t) > n + one
    ensures x > y + 1.0
  {
    RMulCommutes(v / one, t);
    RMulAssoc(t, v / one, one);
    RMulIs(v / one, one);
    RMulCommutes(t, v);
    RMulAdd(y, 1.0, one);
    RMulIs(1.0, one);
    RMulCancel(y + 1.0, x, one);
  }

  lemma ApproximationIsFar()
    ensures PositiveDouble(TEN_TO_80) && Pow(2, 50) > 0
    ensures Approximation(SCALED, Pow(2, 50), -76).Value() > DoubleValue(TEN_TO_80) + 1.0
  {
    Decoded();
    ScaledDifference();
    FarInIntegers(SIGNIFICAND, 213, SCALED, 50, 76);
  }

  /** Whatever precision is asked for, up to 17, what is printed for 10^80 in fixed notation is
      not the nearest number with that many digits after the point. */
  method FormatTenTo80(precision: nat, powers: int -> (Fp, int)) returns (digits: string, exp: int)
    requires precision <= 17 && PowerTable(powers) && powers(-326) == (ENTRY, -76)
    ensures PositiveDouble(TEN_TO_80)
    ensures !NearestMultiple(DoubleValue(TEN_TO_80), DecimalValue(digits), exp, -(precision as int))
  {
    ApproximationHere(powers);
    ApproximationIsFar();
    TenMonotone(0 - precision, 0);
    var r := FormatPrecision.FormatPrecision(TEN_TO_80, precision, true, powers);
    digits, exp := r.value.0, r.value.1;
  }
}
