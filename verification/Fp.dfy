/**
 Handmade floating point: a 64-bit significand and a binary exponent. Decoding an IEEE 754
 double, scaling its significand up to 64 bits, and multiplying two significands.
 */
module Floating {
  import opened Powers
  import opened RealPowers

  const TWO_52 := 0x10_0000_0000_0000
  const INFINITY_BITS := 0x7FF0_0000_0000_0000

  /** The number f * 2^e. */
  datatype Fp = Fp(f: nat, e: int)

  ghost function FpValue(x: Fp): real {
    RMul(x.f as real, Two(x.e))
  }

  /** The bit patterns of positive finite doubles, in increasing order of value. */
  predicate PositiveDouble(u: nat) {
    0 < u < INFINITY_BITS
  }

  /** Splits a double into significand and exponent. */
  function DecodeDouble(u: nat): Fp {
    var fraction, biased := u % TWO_52, u / TWO_52;
    if biased == 0 then Fp(fraction, -1074) else Fp(TWO_52 + fraction, biased - 1075)
  }

  /** The decoder's second result: the double below is closer than the one above. */
  predicate PredecessorCloser(u: nat) {
    u % TWO_52 == 0 && u / TWO_52 > 1
  }

  lemma DecodedRange(u: nat)
    requires PositiveDouble(u)
    ensures var x := DecodeDouble(u); 0 < x.f < 2 * TWO_52 && -1074 <= x.e <= 971
    ensures PredecessorCloser(u) ==> DecodeDouble(u).f == TWO_52
  {
  }

  /** The distances to the neighbouring doubles, and when the lower one is half as large. */
  lemma Neighbours(u: nat)
    requires PositiveDouble(u)
    ensures FpValue(DecodeDouble(u + 1)) - FpValue(DecodeDouble(u)) == Two(DecodeDouble(u).e)
    ensures FpValue(DecodeDouble(u)) - FpValue(DecodeDouble(u - 1))
         == if PredecessorCloser(u) then Two(DecodeDouble(u).e) / 2.0 else Two(DecodeDouble(u).e)
  {
    StepUp(u);
    StepUp(u - 1);
    if u % TWO_52 == 0 {
      assert (u - 1) / TWO_52 == u / TWO_52 - 1;
    }
  }

  lemma StepUp(u: nat)
    requires u < INFINITY_BITS
    ensures FpValue(DecodeDouble(u + 1)) - FpValue(DecodeDouble(u)) == Two(DecodeDouble(u).e)
  {
    var x, y := DecodeDouble(u), DecodeDouble(u + 1);
    var p := Two(x.e);
    RMulAdd(x.f as real, 1.0, p);
    RMulIs(1.0, p);
    if y.e == x.e {
      assert y.f == x.f + 1;
    } else {
      assert y.e == x.e + 1 && 2 * y.f == x.f + 1;
      RMulScale(2.0, y.f as real, p);
      assert Two(y.e) == 2.0 * p;
      assert 2.0 * (y.f as real) == x.f as real + 1.0;
    }
  }

  /** Scales a significand of at most 53 + shift bits up until its top bit, bit 63, is set. */
  method Normalize(value: Fp, shift: nat) returns (r: Fp)
    requires shift <= 10 && 0 < value.f < 2 * TWO_52 * Pow(2, shift)
    ensures TWO_63 <= r.f < TWO_64
    ensures r.e <= value.e && r.f == value.f * Pow(2, value.e - r.e)
  {
    r := value;
    var implicitBit := TWO_52 * Pow(2, shift);
    while r.f / implicitBit % 2 == 0
      invariant 0 < r.f < 2 * implicitBit && r.e <= value.e
      invariant r.f == value.f * Pow(2, value.e - r.e)
      decreases 2 * implicitBit - r.f
    {
      SmallQuotient(r.f, implicitBit);
      DoubledFactor(value.f, value.e - r.e);
      r := Fp(2 * r.f, r.e - 1);
    }
    SmallQuotient(r.f, implicitBit);
    var offset := 64 - 52 - shift - 1;
    TopBit(shift);
    NormalizedBounds(r.f, shift);
    CombinedFactor(value.f, value.e - r.e, offset);
    r := Fp(r.f * Pow(2, offset), r.e - offset);
  }

  lemma SmallQuotient(a: nat, d: nat)
    requires 0 < d && a < 2 * d
    ensures a / d % 2 == 0 <==> a < d
  {
    if a < d {
      QuotientIs(a, d, 0);
    } else {
      MulOne(d);
      QuotientIs(a, d, 1);
    }
  }

  lemma DoubledFactor(f: nat, n: nat)
    ensures f * Pow(2, n + 1) == 2 * (f * Pow(2, n))
  {
    TimesAssoc(2, f, Pow(2, n));
    TimesAssoc(f, 2, Pow(2, n));
  }

  lemma CombinedFactor(f: nat, m: nat, n: nat)
    ensures f * Pow(2, m) * Pow(2, n) == f * Pow(2, m + n)
  {
    PowAdd(2, m, n);
    TimesAssoc(f, Pow(2, m), Pow(2, n));
  }

  lemma TopBit(shift: nat)
    requires shift <= 10
    ensures TWO_52 * Pow(2, shift) * Pow(2, 11 - shift) == TWO_63
  {
    PowAdd(2, shift, 11 - shift);
    TimesAssoc(TWO_52, Pow(2, shift), Pow(2, 11 - shift));
    PowAdd(2, 10, 1);
    PowersOfTwo();
  }

  lemma NormalizedBounds(f: nat, shift: nat)
    requires shift <= 10 && TWO_52 * Pow(2, shift) <= f < 2 * (TWO_52 * Pow(2, shift))
    ensures TWO_63 <= f * Pow(2, 11 - shift) < TWO_64
  {
    var b, p := TWO_52 * Pow(2, shift), Pow(2, 11 - shift);
    TopBit(shift);
    TimesMonotone(b, f, p);
    TimesStrict(f, 2 * b, p);
    TimesAssoc(2, b, p);
  }

  // ---------- multiplying significands ----------

  /** The product over 2^64, rounded to nearest with ties up, from a 128-bit product. */
  function MultiplyWide(lhs: U64, rhs: U64): int {
    var product := (lhs as int) * rhs;
    var f := product / TWO_64;
    if product % TWO_64 / TWO_63 % 2 != 0 then f + 1 else f
  }

  /** The same from 32-bit halves. */
  function MultiplyHalves(lhs: U64, rhs: U64): int {
    var a: int, b: int := lhs / TWO_32, lhs % TWO_32;
    var c: int, d: int := rhs / TWO_32, rhs % TWO_32;
    var ac, bc, ad, bd := a * c, b * c, a * d, b * d;
    var mid := bd / TWO_32 + ad % TWO_32 + bc % TWO_32 + TWO_31;
    ac + ad / TWO_32 + bc / TWO_32 + mid / TWO_32
  }

  lemma HalfProduct(x: int, y: int)
    requires 0 <= x < TWO_32 && 0 <= y < TWO_32
    ensures 0 <= x * y <= 0xFFFF_FFFE_0000_0001
  {
    TimesMonotone(0, x, y);
    TimesMonotone(x, TWO_32 - 1, y);
  }

  lemma FourProducts(a: int, b: int, c: int, d: int)
    ensures (a * TWO_32 + b) * (c * TWO_32 + d)
         == a * c * TWO_64 + (a * d + b * c) * TWO_32 + b * d
  {
    Distribute(a * TWO_32, b, c * TWO_32 + d);
    Distribute(c * TWO_32, d, a * TWO_32);
    Distribute(c * TWO_32, d, b);
    TimesAssoc(a, TWO_32, c * TWO_32);
    TimesAssoc(a, TWO_32, d);
    TimesAssoc(b, c, TWO_32);
    TimesAssoc(a, c, TWO_32);
  }

  /** Both forms round the exact product to nearest, ties up, and stay in 64 bits; so does
      every intermediate sum of the form built from halves. */
  lemma MultiplyRounds(lhs: U64, rhs: U64)
    ensures MultiplyWide(lhs, rhs) == MultiplyHalves(lhs, rhs)
    ensures 0 <= MultiplyHalves(lhs, rhs) < TWO_64
    ensures -TWO_63 <= (lhs as int) * rhs - MultiplyHalves(lhs, rhs) * TWO_64 < TWO_63
  {
    var a, b, c, d := lhs / TWO_32, lhs % TWO_32, rhs / TWO_32, rhs % TWO_32;
    HalfProduct(a, c);
    HalfProduct(a, d);
    HalfProduct(b, c);
    HalfProduct(b, d);
    FourProducts(a, b, c, d);
    assert lhs == a * TWO_32 + b && rhs == c * TWO_32 + d;
    HalvesRound(a * c, a * d, b * c, b * d);
    WideRounds((lhs as int) * rhs);
  }

  lemma WideRounds(p: nat)
    ensures (p / TWO_64) + (if p % TWO_64 / TWO_63 % 2 != 0 then 1 else 0) == (p + TWO_63) / TWO_64
  {
  }

  lemma HalvesRound(ac: nat, ad: nat, bc: nat, bd: nat)
    requires ac <= 0xFFFF_FFFE_0000_0001 && ad <= 0xFFFF_FFFE_0000_0001
    requires bc <= 0xFFFF_FFFE_0000_0001 && bd <= 0xFFFF_FFFE_0000_0001
    ensures var mid := bd / TWO_32 + ad % TWO_32 + bc % TWO_32 + TWO_31;
            var r := ac + ad / TWO_32 + bc / TWO_32 + mid / TWO_32;
            && mid < TWO_64
            && r == (ac * TWO_64 + (ad + bc) * TWO_32 + bd + TWO_63) / TWO_64
            && r < TWO_64
  {
    var mid := bd / TWO_32 + ad % TWO_32 + bc % TWO_32 + TWO_31;
    var r := ac + ad / TWO_32 + bc / TWO_32 + mid / TWO_32;
    var total := ac * TWO_64 + (ad + bc) * TWO_32 + bd + TWO_63;
    assert total == r * TWO_64 + mid % TWO_32 * TWO_32 + bd % TWO_32;
  }
}
