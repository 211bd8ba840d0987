/**
 The digit loop of the exact float formatter: repeated division of big integers, one
 decimal digit per turn, until truncating or rounding up stays in the rounding interval.
 */
module DigitLoop {
  import opened Powers
  import opened BigInteger
  import opened DigitSpec

  /** The upper end of the interval does not reach the next power of ten. */
  ghost predicate BelowNextPower(x: Scaled) {
    x.n + x.above < 10 * x.s || (!x.upperTies && x.n + x.above == 10 * x.s)
  }

  /** What the numerator holds when the digit at place k is about to be generated. */
  ghost function Pending(x: Scaled, k: nat): nat
    requires x.s > 0
  {
    if k == 0 then x.n else 10 * x.Remainder(k - 1)
  }

  ghost function Generated(x: Scaled, k: nat): nat
    requires x.s > 0
  {
    if k == 0 then 0 else x.Quotient(k - 1)
  }

  lemma DigitStep(x: Scaled, k: nat, q: nat, r: nat)
    requires x.s > 0 && Pending(x, k) == Mul(q, x.s) + r && r < x.s
    ensures x.Quotient(k) == 10 * Generated(x, k) + q && x.Remainder(k) == r
    ensures k > 0 ==> q <= 9
  {
    if k > 0 {
      NextDigit(x, k - 1, q, r);
    } else {
      MulOne(x.n);
      QuotientRemainder(x, 0);
      UniqueDivision(x.Quotient(0), q, x.s, x.Remainder(0), r);
    }
  }

  lemma RoundedDigit(x: Scaled, k: nat, q: nat)
    requires x.Valid() && x.Quotient(k) == 10 * Generated(x, k) + q
    requires if k > 0 then !x.High(k - 1) else BelowNextPower(x)
    ensures x.High(k) ==> q < 9
    ensures k == 0 ==> q <= 9
  {
    if k > 0 {
      if x.High(k) {
        NoCarryOutOfNine(x, k - 1);
      }
    } else {
      MulOne(x.n);
      MulOne(x.above);
      QuotientRemainder(x, 0);
      MulIs(9, x.s);
      MulIs(10, x.s);
      if q >= 9 {
        MulMonotone(if q > 9 then 10 else 9, q, x.s);
      }
    }
  }

  /** The registers when the digit at place k is about to be generated. */
  ghost predicate AtPlace(x: Scaled, k: nat, numerator: Bigint, denominator: Bigint,
                          lower: Bigint, upper: Bigint)
    requires x.s > 0
    reads numerator, denominator, lower, upper
  {
    && Registers(x, k, numerator, denominator, lower, upper)
    && numerator.Value() == Pending(x, k) < 20 * x.s
    && (numerator.exp > denominator.exp ==> numerator.Value() == Mul(x.n, Pow(10, k)))
  }

  ghost predicate Registers(x: Scaled, k: nat, numerator: Bigint, denominator: Bigint,
                            lower: Bigint, upper: Bigint)
    reads numerator, denominator, lower, upper
  {
    && numerator.Normal() && denominator.Normal() && lower.Normal() && upper.Normal()
    && denominator.Value() == x.s
    && lower.Value() == Mul(x.below, Pow(10, k)) > 0
    && upper.Value() == Mul(x.above, Pow(10, k)) > 0
    && numerator.exp <= lower.exp
    && (numerator.exp == lower.exp || numerator.exp == denominator.exp)
    && (numerator.Value() > 0 || numerator.exp <= denominator.exp)
  }

  /** Only the first character can be no digit, and that only if the interval reaches the next
      power of ten. */
  ghost predicate Spelled(x: Scaled, digits: seq<char>) {
    && (forall i :: 1 <= i < |digits| ==> IsDigit(digits[i]))
    && (BelowNextPower(x) ==> AllDigits(digits))
  }

  /** The digits emitted so far, none of which could have been the last. */
  ghost predicate Emitted(x: Scaled, digits: seq<char>)
    requires x.s > 0
  {
    && DecimalValue(digits) == Generated(x, |digits|)
    && Spelled(x, digits)
    && (forall k :: 0 <= k < |digits| ==> !x.Low(k) && !x.High(k))
  }

  /** The answer: the best candidate, spelled with decimal digits only. */
  ghost predicate Answer(x: Scaled, digits: seq<char>)
    requires x.s > 0
  {
    && |digits| > 0
    && x.Best(DecimalValue(digits), |digits| - 1)
    && Spelled(x, digits)
    && (forall k :: 0 <= k < |digits| - 1 ==> !x.Low(k) && !x.High(k))
  }

  method GenerateDigits(numerator: Bigint, denominator: Bigint, lower: Bigint, upper: Bigint,
                        even: bool, ghost x: Scaled)
    returns (digits: seq<char>)
    requires numerator != denominator && numerator != lower && numerator != upper
    requires denominator != lower && denominator != upper
    requires x.Valid() && x.n < 20 * x.s && x.upperTies == even
    requires x.lowerTies == (even && lower.exp <= denominator.exp)
    requires AtPlace(x, 0, numerator, denominator, lower, upper)
    requires lower.exp > denominator.exp ==> forall k: nat :: Mul(x.n, Pow(10, k)) != x.s
    modifies numerator, lower, upper
    ensures Answer(x, digits)
  {
    digits := [];
    while true
      invariant denominator.exp == old(denominator.exp) && lower.exp == old(lower.exp)
      invariant AtPlace(x, |digits|, numerator, denominator, lower, upper)
      invariant Emitted(x, digits)
      decreases x.s - Mul(x.below, Pow(10, |digits|))
    {
      var digit, low, high :=
        NextDecision(numerator, denominator, lower, upper, even, x, |digits|);
      if low || high {
        digits := LastDigit(numerator, denominator, digits, digit, low, high, x);
        return;
      }
      Extended(x, digits, digit);
      Progress(x, |digits|);
      ScaleByTen(numerator, denominator, lower, upper, x, |digits|);
      digits := digits + ['0' + (digit as char)];
    }
  }

  /** Appends the last digit, rounding it up when only that, or the nearer value, fits. */
  method LastDigit(numerator: Bigint, denominator: Bigint, prefix: seq<char>, digit: nat,
                   low: bool, high: bool, ghost x: Scaled)
    returns (digits: seq<char>)
    requires numerator.Normal() && denominator.Normal() && x.Valid()
    requires numerator.Value() > 0 || numerator.exp <= denominator.exp
    requires Emitted(x, prefix) && digit < 20 && (|prefix| > 0 ==> digit <= 9)
    requires x.Quotient(|prefix|) == 10 * Generated(x, |prefix|) + digit
    requires numerator.Value() == x.Remainder(|prefix|) && denominator.Value() == x.s
    requires low || high
    requires low <==> x.Low(|prefix|)
    requires high <==> x.High(|prefix|)
    ensures Answer(x, digits)
  {
    var roundUp := DecideRounding(numerator, denominator, digit, low, high, x, |prefix|);
    digits := WithLastDigit(prefix, digit, roundUp);
    Finished(x, prefix, digit, roundUp, digits);
  }

  method WithLastDigit(prefix: seq<char>, digit: nat, roundUp: bool) returns (digits: seq<char>)
    requires digit < 20
    ensures digits == prefix + ['0' + ((if roundUp then digit + 1 else digit) as char)]
  {
    digits := prefix + ['0' + (digit as char)];
    if roundUp {
      digits := digits[|digits| - 1 := digits[|digits| - 1] + (1 as char)];
    }
  }

  method DecideRounding(numerator: Bigint, denominator: Bigint, digit: nat,
                        low: bool, high: bool, ghost x: Scaled, ghost k: nat)
    returns (roundUp: bool)
    requires numerator.Normal() && denominator.Normal() && x.Valid()
    requires numerator.Value() > 0 || numerator.exp <= denominator.exp
    requires numerator.Value() == x.Remainder(k) && denominator.Value() == x.s
    requires low || high
    ensures roundUp <==> RoundsUp(low, high, Signum(2 * x.Remainder(k) - x.s), digit % 2 != 0)
  {
    roundUp := !low;
    if low && high {
      var result := AddCompare(numerator, numerator, denominator);
      roundUp := result > 0 || (result == 0 && digit % 2 != 0);
    }
  }

  lemma RoundedBest(x: Scaled, k: nat, digit: nat, roundUp: bool)
    requires x.Valid() && x.Quotient(k) == 10 * Generated(x, k) + digit
    requires x.Low(k) || x.High(k)
    requires forall k' :: 0 <= k' < k ==> !x.Low(k') && !x.High(k')
    requires roundUp <==> RoundsUp(x.Low(k), x.High(k), Signum(2 * x.Remainder(k) - x.s), digit % 2 != 0)
    ensures x.Best(x.Quotient(k) + (if roundUp then 1 else 0), k)
    ensures roundUp ==> x.High(k)
  {
    Parity(x.Quotient(k), Generated(x, k), digit);
    ChoiceIsBest(x, k, Signum(2 * x.Remainder(k) - x.s));
  }

  lemma Finished(x: Scaled, prefix: seq<char>, digit: nat, roundUp: bool, digits: seq<char>)
    requires x.Valid() && Emitted(x, prefix) && digit < 20 && (|prefix| > 0 ==> digit <= 9)
    requires x.Quotient(|prefix|) == 10 * Generated(x, |prefix|) + digit
    requires x.Low(|prefix|) || x.High(|prefix|)
    requires roundUp <==> RoundsUp(x.Low(|prefix|), x.High(|prefix|),
                                   Signum(2 * x.Remainder(|prefix|) - x.s), digit % 2 != 0)
    requires digits == prefix + ['0' + ((if roundUp then digit + 1 else digit) as char)]
    ensures Answer(x, digits)
  {
    RoundedBest(x, |prefix|, digit, roundUp);
    DigitFits(x, |prefix|, digit, roundUp);
    Appended(prefix, if roundUp then digit + 1 else digit);
    SpelledOneMore(x, prefix, if roundUp then digit + 1 else digit);
  }

  lemma DigitFits(x: Scaled, k: nat, digit: nat, roundUp: bool)
    requires x.Valid() && x.Quotient(k) == 10 * Generated(x, k) + digit && digit < 20
    requires k > 0 ==> !x.High(k - 1) && digit <= 9
    requires roundUp ==> x.High(k)
    ensures k > 0 || BelowNextPower(x) ==> (if roundUp then digit + 1 else digit) <= 9
  {
    if k > 0 || BelowNextPower(x) {
      RoundedDigit(x, k, digit);
    }
  }

  lemma SpelledOneMore(x: Scaled, prefix: seq<char>, digit: nat)
    requires Spelled(x, prefix) && digit <= 20 && (|prefix| > 0 || BelowNextPower(x) ==> digit <= 9)
    ensures Spelled(x, prefix + ['0' + (digit as char)])
  {
  }

  lemma Appended(prefix: seq<char>, digit: nat)
    requires digit <= 20
    ensures DecimalValue(prefix + ['0' + (digit as char)]) == 10 * DecimalValue(prefix) + digit
    ensures AllDigits(prefix) && digit <= 9 ==> AllDigits(prefix + ['0' + (digit as char)])
  {
    DecimalSnoc(prefix, '0' + (digit as char));
  }

  lemma Parity(q: int, g: int, digit: int)
    requires q == 10 * g + digit
    ensures q % 2 == digit % 2
  {
    LastBit(q, 5 * g + digit / 2, digit % 2);
  }

  lemma LastBit(q: int, k: int, r: int)
    requires q == 2 * k + r && 0 <= r < 2
    ensures q % 2 == r
  {
  }

  lemma Extended(x: Scaled, prefix: seq<char>, digit: nat)
    requires x.Valid() && Emitted(x, prefix)
    requires x.Quotient(|prefix|) == 10 * Generated(x, |prefix|) + digit
    requires digit < 20 && (|prefix| > 0 ==> digit <= 9)
    requires !x.Low(|prefix|) && !x.High(|prefix|)
    ensures Emitted(x, prefix + ['0' + (digit as char)])
  {
    Appended(prefix, digit);
    DigitFits(x, |prefix|, digit, false);
    SpelledOneMore(x, prefix, digit);
    var digits := prefix + ['0' + (digit as char)];
    assert |digits| == |prefix| + 1;
    assert Generated(x, |digits|) == x.Quotient(|prefix|);
  }

  /** While truncating does not suffice, the scaled interval has not caught up with s. */
  lemma Progress(x: Scaled, k: nat)
    requires x.Valid() && !x.Low(k)
    ensures 0 < x.s - Mul(x.below, Pow(10, k))
    ensures Mul(x.below, Pow(10, k)) < Mul(x.below, Pow(10, k + 1))
  {
    QuotientRemainder(x, k);
    TimesTen(x.below, k);
    MarginsPositive(x, k);
  }

  method ScaleByTen(numerator: Bigint, denominator: Bigint, lower: Bigint, upper: Bigint,
                    ghost x: Scaled, ghost k: nat)
    requires numerator != lower && numerator != upper
    requires denominator != numerator && denominator != lower && denominator != upper
    requires x.Valid() && Registers(x, k, numerator, denominator, lower, upper)
    requires numerator.Value() == x.Remainder(k)
    requires numerator.exp > denominator.exp ==> numerator.Value() == Mul(x.n, Pow(10, k))
    modifies numerator`bigits, lower`bigits, upper`bigits
    ensures AtPlace(x, k + 1, numerator, denominator, lower, upper)
  {
    numerator.Multiply32(10);
    lower.Multiply32(10);
    if upper != lower {
      upper.Multiply32(10);
    }
    TimesTen(x.below, k);
    TimesTen(x.above, k);
    TimesTen(x.n, k);
  }

  method NextDecision(numerator: Bigint, denominator: Bigint, lower: Bigint, upper: Bigint,
                      even: bool, ghost x: Scaled, ghost k: nat)
    returns (digit: nat, low: bool, high: bool)
    requires numerator != denominator && numerator != lower && numerator != upper
    requires x.Valid() && x.upperTies == even
    requires x.lowerTies == (even && lower.exp <= denominator.exp)
    requires AtPlace(x, k, numerator, denominator, lower, upper)
    requires lower.exp > denominator.exp ==> Mul(x.n, Pow(10, k)) != x.s
    modifies numerator
    ensures Registers(x, k, numerator, denominator, lower, upper)
    ensures numerator.Value() == x.Remainder(k)
    ensures numerator.exp > denominator.exp ==> numerator.Value() == Mul(x.n, Pow(10, k))
    ensures x.Quotient(k) == 10 * Generated(x, k) + digit && digit < 20
    ensures k > 0 ==> digit <= 9
    ensures low <==> x.Low(k)
    ensures high <==> x.High(k)
  {
    digit := numerator.DivmodAssign(denominator);
    MulIs(digit, x.s);
    DigitStep(x, k, digit, numerator.Value());
    if digit >= 20 {
      MulMonotone(20, digit, x.s);
      MulIs(20, x.s);
    }
    MulStrict(x.below, x.n, Pow(10, k));
    var order := Compare(numerator, lower);
    low := order - (if even then 1 else 0) < 0;
    var sum := AddCompare(numerator, upper, denominator);
    high := sum + (if even then 1 else 0) > 0;
  }
}
