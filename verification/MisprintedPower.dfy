/**
 A double the shortest formatter misprints: for 2^81 Grisu is not certain, and the exact
 formatter it falls back to takes the branch whose denominator is short of one bit.
 */
module MisprintedPower {
  import opened Powers
  import opened RealPowers
  import opened Floating
  import opened RoundingInterval
  import opened DigitSpec
  import opened Grisu
  import opened GrisuShortest
  import opened FormatFloat
  import Fallback = FallbackFormat

  /** The bits of 2^81, the table entry used for it, and what the generator is given. */
  const TWO_TO_81: nat := 1104 * TWO_52
  const ENTRY := Fp(0xbce5086492111aeb, -130)
  const UPPER_BOUND: nat := 6805647338418770026
  const ERROR: nat := 1135
  const DIFF: nat := 756

  lemma PowersHere()
    ensures Pow(2, 9) == 512 && Pow(2, 11) == 2048
    ensures Pow(2, 48) == 0x1_0000_0000_0000
    ensures Pow(10, 11) == 100000000000 && Pow(10, 12) == 1000000000000
  {
    PowersOfTwo();
    assert Pow(2, 10) == 2 * Pow(2, 9) && Pow(2, 11) == 2 * Pow(2, 10);
    PowAdd(2, 10, 6);
    PowAdd(2, 32, 16);
    assert Pow(2, 6) == 64;
    PowersOfTen();
    assert Pow(10, 11) == 10 * Pow(10, 10) && Pow(10, 12) == 10 * Pow(10, 11);
  }

  lemma DecodedTwoTo81()
    ensures PositiveDouble(TWO_TO_81) && Fallback.Misscaled(TWO_TO_81)
    ensures DecodeDouble(TWO_TO_81) == Fp(TWO_52, 29)
    ensures ValueSignificand(TWO_TO_81) == TWO_63 && NormalExponent(TWO_TO_81) == 18
  {
    PowersHere();
    assert TWO_TO_81 / TWO_52 == 1104 && TWO_TO_81 % TWO_52 == 0;
    NormalShiftIs(TWO_52, 11);
  }

  lemma InputForTwoTo81()
    ensures PositiveDouble(TWO_TO_81)
    ensures InputFor(TWO_TO_81, ENTRY, GrisuInput(Pow(2, 48), UPPER_BOUND, ERROR, DIFF))
  {
    var lower, upper := (4 * TWO_52 - 1) * 512, (2 * TWO_52 + 1) * 1024;
    DecodedTwoTo81();
    PowersHere();
    PowersOfTwo();
    BoundariesAligned(TWO_TO_81, lower, upper, 10);
    assert MultiplyHalves(TWO_63, ENTRY.f) == UPPER_BOUND - DIFF;
    assert MultiplyHalves(lower, ENTRY.f) == UPPER_BOUND - ERROR + 1;
    assert MultiplyHalves(upper, ENTRY.f) == UPPER_BOUND - 1;
    assert Prepared(TWO_TO_81, ENTRY, lower, upper, GrisuInput(Pow(2, 48), UPPER_BOUND, ERROR, DIFF));
  }

  // ---------- no answer is certain ----------

  /** A candidate is also one at the next finer place. */
  lemma FinerPlace(v: nat, one: nat, error: nat, exp: int, d: int)
    requires InRegion(v, one, error, exp, d)
    ensures InRegion(v, one, error, exp - 1, 10 * d)
  {
    MulIs(10, d);
    if exp >= 1 {
      WeightAtLeastOne(one, exp);
      WeightAtLeastOne(one, exp - 1);
      MulIs(10, Pow(10, exp - 1));
      MulAssoc(10, Pow(10, exp - 1), one);
      MulIs(10, Weight(one, exp - 1));
      MulSwapTen(d, Weight(one, exp - 1));
    } else {
      UnitStep(v, exp);
      UnitStep(error, exp);
      MulAssoc(10, d, one);
      MulIs(10, Mul(d, one));
      OneIsTheWeight(one, exp);
    }
  }

  lemma MulSwapTen(d: int, w: int)
    ensures Mul(10 * d, w) == Mul(d, 10 * w)
  {
    MulIs(10 * d, w);
    MulIs(d, 10 * w);
    TimesAssoc(10, d, w);
    TimesAssoc(d, 10, w);
  }

  lemma OneIsTheWeight(one: nat, exp: int)
    requires exp <= 0
    ensures Weight(one, exp) == one && Weight(one, exp - 1) == one
  {
    assert Pow(10, 0) == 1;
  }

  /** At eleven places past the point, or fewer, nothing lies between the bounds. */
  lemma NothingAtEleven(d: int)
    ensures !InRegion(UPPER_BOUND, Pow(2, 48), ERROR, -11, d)
  {
    PowersHere();
    MulIs(d, Pow(2, 48));
    MulIs(UPPER_BOUND, Pow(10, 11));
    MulIs(ERROR, Pow(10, 11));
  }

  lemma {:induction false} NothingCoarser(exp: int, d: int)
    requires exp >= -11
    ensures !InRegion(UPPER_BOUND, Pow(2, 48), ERROR, exp, d)
    decreases exp + 11
  {
    if exp == -11 {
      NothingAtEleven(d);
    } else {
      NothingCoarser(exp - 1, 10 * d);
      if InRegion(UPPER_BOUND, Pow(2, 48), ERROR, exp, d) {
        FinerPlace(UPPER_BOUND, Pow(2, 48), ERROR, exp, d);
      }
    }
  }

  /** At twelve places this is the candidate, but the value may be nearer to the one below. */
  const CANDIDATE: nat := 24178516392292584

  lemma CandidateIsNotCertain()
    ensures NotCertain(UPPER_BOUND, Pow(2, 48), ERROR, DIFF, -12, CANDIDATE)
  {
    PowersHere();
    MulIs(CANDIDATE, Pow(2, 48));
    MulIs(UPPER_BOUND, Pow(10, 12));
    MulIs(ERROR, Pow(10, 12));
    MulIs(DIFF - 1, Pow(10, 12));
    MulIs(DIFF + 1, Pow(10, 12));
    assert InRegion(UPPER_BOUND, Pow(2, 48), ERROR, -12, CANDIDATE);
    forall exp, d | exp >= -11
      ensures !InRegion(UPPER_BOUND, Pow(2, 48), ERROR, exp, d)
    {
      NothingCoarser(exp, d);
    }
    assert NoneFrom(UPPER_BOUND, Pow(2, 48), ERROR, -11);
  }

  lemma GivesUpOnTwoTo81(powers: int -> (Fp, int))
    requires powers(-142) == (ENTRY, -20)
    ensures PositiveDouble(TWO_TO_81) && GrisuGivesUp(TWO_TO_81, powers)
  {
    DecodedTwoTo81();
    InputForTwoTo81();
    CandidateIsNotCertain();
    var g := GrisuInput(Pow(2, 48), UPPER_BOUND, ERROR, DIFF);
    assert NotCertain(g.v, g.one, g.error, g.diff, -12, CANDIDATE);
    assert InputFor(TWO_TO_81, PowerFor(TWO_TO_81, powers).0, g) && NoneCertain(g);
  }

  // ---------- so it is misprinted ----------

  /** Whatever is printed for 2^81 reads back as another double. */
  method FormatTwoTo81(powers: int -> (Fp, int)) returns (digits: seq<char>, exp: int)
    requires PowerTable(powers) && powers(-142) == (ENTRY, -20)
    ensures PositiveDouble(TWO_TO_81)
    ensures !RoundsTo(TWO_TO_81, Decimal(DecimalValue(digits), exp), true)
  {
    DecodedTwoTo81();
    GivesUpOnTwoTo81(powers);
    digits, exp := FormatShortest(TWO_TO_81, powers);
  }
}
