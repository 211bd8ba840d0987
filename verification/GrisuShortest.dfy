/**
 Grisu with the shortest-representation handler. The value handed in is an upper bound;
 error is its distance to a lower bound and diff its distance to the number itself.
 */
module GrisuShortest {
  import opened Powers
  import opened DigitSpec
  import opened Grisu

  class ShortestHandler {
    var buf: seq<char>
    const diff: U64 // distance between the scaled value and the upper bound

    constructor (diff: U64)
      ensures buf == [] && this.diff == diff
    {
      buf, this.diff := [], diff;
    }

    /** Decrements the number in the buffer while that brings it nearer to d below the
        upper bound. */
    method Round(d: U64, divisor: U64, remainder: U64, error: U64)
      returns (r: U64, ghost steps: nat)
      requires |buf| >= 1 && IsDigit(buf[|buf| - 1]) && divisor > 0 && remainder < error
      requires error <= Mul(buf[|buf| - 1] as int - '0' as int, divisor) + remainder
      modifies this`buf
      ensures |buf| == old(|buf|) && steps <= old(buf)[|buf| - 1] as int - '0' as int
      ensures buf == old(buf)[..|buf| - 1] + [old(buf)[|buf| - 1] - (steps as char)]
      ensures r == remainder + Mul(steps, divisor) <= error
      ensures steps == 0 || LastStepHelped(r, divisor, d)
      ensures !NextStepHelps(r, divisor, d, error)
    {
      ghost var last := buf[|buf| - 1];
      r, steps := remainder, 0;
      MulOne(divisor);
      while r < d && error - r >= divisor
            && (r + divisor < d || d - r >= r + divisor - d)
        invariant |buf| == old(|buf|) && remainder <= r <= error
        invariant r == remainder + Mul(steps, divisor)
        invariant steps <= last as int - '0' as int
        invariant buf == old(buf)[..|buf| - 1] + [last - (steps as char)]
        invariant steps == 0 || LastStepHelped(r, divisor, d)
        decreases error - r
      {
        StepsBounded(last as int - '0' as int, steps, divisor, remainder, error);
        MulNext(steps, divisor);
        buf := buf[|buf| - 1 := buf[|buf| - 1] - (1 as char)];
        r := r + divisor;
        steps := steps + 1;
      }
    }

    /** Appends a digit; once the rest is within the error it settles the last digit and
        decides whether the result is certain. */
    method OnDigit(digit: char, divisor: U64, remainder: U64, error: U64, exp: int)
      returns (result: DigitsResult, ghost steps: nat)
      requires IsDigit(digit) && 0 <= remainder < divisor && diff >= 1
      requires error <= Mul(digit as int - '0' as int, divisor) + remainder
      requires Mul(diff + 1, Unit(exp)) <= error
      requires exp < 0 ==> -exp <= 19
      modifies this`buf
      ensures result == More <==> remainder >= error
      ensures steps <= digit as int - '0' as int && (result == More ==> steps == 0)
      ensures buf == old(buf) + [digit - (steps as char)]
      ensures result != More
          ==> Rounded(remainder, remainder + Mul(steps, divisor), divisor, error, diff, Unit(exp))
      ensures result == Done ==> SafelyInside(remainder + Mul(steps, divisor), divisor, error,
                                              Unit(exp), Mul(diff + 1, Unit(exp)))
      ensures result == Error && 4 * Unit(exp) <= error
          ==> !SafelyInside(remainder + Mul(steps, divisor), divisor, error,
                            Unit(exp), Mul(diff + 1, Unit(exp)))
    {
      MulOne(divisor);
      buf := buf + [digit];
      if remainder >= error {
        return More, 0;
      }
      var unit: U64 := UnitEntry(exp);
      var up, down := Uncertainty(diff, unit, error);
      var r: U64;
      r, steps := Round(up, divisor, remainder, error);
      result := Settle(r, divisor, error, unit, down);
    }
  }

  /** Whether the number that rounding left is certain: no farther from the far end of the
      uncertainty than the next lower one, and two units clear of both bounds. */
  method Settle(r: U64, divisor: U64, error: U64, unit: U64, down: U64)
    returns (result: DigitsResult)
    requires r <= error && 2 * unit <= error
    ensures result != More && (result == Done ==> SafelyInside(r, divisor, error, unit, down))
    ensures 4 * unit <= error && SafelyInside(r, divisor, error, unit, down) ==> result == Done
  {
    if r < down && error - r >= divisor
       && (r + divisor < down || down - r > r + divisor - down) {
      return Error;
    }
    result := if 2 * unit <= r && r <= (error - 4 * unit) % TWO_64 then Done else Error;
  }

  ghost predicate SafelyInside(r: int, divisor: int, error: int, unit: int, down: int) {
    && (r >= down || error - r < divisor || (r + divisor >= down && down - r <= r + divisor - down))
    && 2 * unit <= r <= error
    && (4 * unit <= error ==> r <= error - 4 * unit)
  }

  /** The ends of the region of uncertainty, below the upper bound. */
  method Uncertainty(diff: U64, unit: U64, ghost error: U64) returns (up: U64, down: U64)
    requires diff >= 1 && unit >= 1 && Mul(diff + 1, unit) <= error
    ensures up == Mul(diff - 1, unit) && down == Mul(diff + 1, unit) && 2 * unit <= error
  {
    UnitProducts(diff, unit, error);
    up, down := (diff - 1) * unit, (diff + 1) * unit;
  }

  /** The entry of the table of powers of ten; the integral part uses one. */
  method UnitEntry(exp: int) returns (unit: U64)
    requires exp < 0 ==> -exp <= 19
    ensures unit == Unit(exp) >= 1
  {
    PowersOfTen();
    WeightAtLeastOne(1, exp);
    if exp < 0 {
      PowMonotone(10, -exp, 19);
    }
    unit := if exp >= 0 then 1 else Pow(10, -exp);
  }

  lemma UnitProducts(diff: int, unit: int, error: int)
    requires diff >= 1 && unit >= 1 && Mul(diff + 1, unit) <= error
    ensures 0 <= (diff - 1) * unit <= error && 0 <= (diff + 1) * unit <= error
    ensures (diff - 1) * unit == Mul(diff - 1, unit) && (diff + 1) * unit == Mul(diff + 1, unit)
    ensures 2 * unit <= error
  {
    MulIs(diff - 1, unit);
    MulIs(diff + 1, unit);
    TimesMonotone(0, diff - 1, unit);
    TimesMonotone(diff - 1, diff + 1, unit);
    TimesMonotone(2, diff + 1, unit);
  }

  lemma StepsBounded(last: int, steps: nat, divisor: nat, remainder: int, error: int)
    requires divisor > 0 && error <= Mul(last, divisor) + remainder
    requires remainder + Mul(steps, divisor) + divisor <= error
    ensures steps < last
  {
    if steps >= last {
      MulMonotone(last, steps, divisor);
    }
  }

  // ---------- what a settled digit means ----------

  /** The decrement that led to remainder r brought it no farther from d. */
  ghost predicate LastStepHelped(r: int, divisor: int, d: int) {
    r - divisor < d && (r < d || d - (r - divisor) >= r - d)
  }

  /** One more decrement would stay within the error and bring it no farther from d. */
  ghost predicate NextStepHelps(r: int, divisor: int, d: int, error: int) {
    r < d && error - r >= divisor && (r + divisor < d || d - r >= r + divisor - d)
  }

  /** Remainder r was reached from r0 by all the decrements that bring it nearer to the near
      end of the region of uncertainty. */
  ghost predicate Rounded(r0: int, r: int, divisor: int, error: int, diff: int, unit: int) {
    && r0 <= r <= error && (r == r0 || LastStepHelped(r, divisor, Mul(diff - 1, unit)))
    && !NextStepHelps(r, divisor, Mul(diff - 1, unit), error)
  }

  /** It is also safely inside, and not beaten at the far end. */
  ghost predicate Certain(r0: int, r: int, divisor: int, error: int, diff: int, unit: int) {
    && Rounded(r0, r, divisor, error, diff, unit)
    && SafelyInside(r, divisor, error, unit, Mul(diff + 1, unit))
  }

  ghost function Distance(a: int, x: real): real {
    if x < a as real then a as real - x else x - a as real
  }

  /** No other candidate within the error is nearer to any number the value may stand for. */
  lemma CertainIsClosest(r0: int, r: int, divisor: int, error: int, diff: int, unit: int,
                         j: int, x: real)
    requires divisor > 0 && 0 <= r0 < divisor && Certain(r0, r, divisor, error, diff, unit)
    requires Mul(diff - 1, unit) as real <= x <= Mul(diff + 1, unit) as real
    requires 0 <= r + Mul(j, divisor) <= error
    ensures Distance(r, x) <= Distance(r + Mul(j, divisor), x)
  {
    MulOne(divisor);
    if j >= 1 {
      MulMonotone(1, j, divisor);
    } else if j <= -1 {
      MulMonotone(j, -1, divisor);
      MulIs(-1, divisor);
    }
  }

  // ---------- the digit generator ----------

  /** d at place exp lies between the two bounds, the upper one included. */
  ghost predicate InRegion(v: nat, one: nat, error: nat, exp: int, d: int) {
    && Mul(v, Unit(exp)) - Mul(error, Unit(exp)) < Mul(d, Weight(one, exp))
    && Mul(d, Weight(one, exp)) <= Mul(v, Unit(exp))
  }

  ghost predicate NoneFrom(v: nat, one: nat, error: nat, exp: int) {
    forall exp', d :: exp' >= exp ==> !InRegion(v, one, error, exp', d)
  }

  /** The digits are well inside the region, no decimal with fewer places is inside, and no
      other one with as many is nearer to any number within one unit of v - diff. */
  ghost predicate ShortestInRegion(v: nat, one: nat, error: nat, diff: nat, exp: int, d: int) {
    var w, u := Weight(one, exp), Unit(exp);
    && Mul(d, w) <= Mul(v, u) - 2 * u
    && (error >= 4 ==> Mul(v, u) - Mul(error, u) + 4 * u <= Mul(d, w))
    && Mul(v, u) - Mul(error, u) <= Mul(d, w)
    && NoneFrom(v, one, error, exp + 1)
    && (forall d', x: real :: Mul(v, u) - Mul(error, u) <= Mul(d', w) <= Mul(v, u)
          && (Mul(v, u) - Mul(diff + 1, u)) as real <= x <= (Mul(v, u) - Mul(diff - 1, u)) as real
          ==> Distance(Mul(d, w), x) <= Distance(Mul(d', w), x))
  }

  /** At the first place at which some decimal lies in the region, d is the largest one of
      them that further decrements would not bring nearer to the near end of the region of
      uncertainty. */
  ghost predicate Candidate(v: nat, one: nat, error: nat, diff: nat, exp: int, d: int) {
    var w, u := Weight(one, exp), Unit(exp);
    var r := Mul(v, u) - Mul(d, w);
    && NoneFrom(v, one, error, exp + 1) && (exists d' :: InRegion(v, one, error, exp, d'))
    && 0 <= r <= Mul(error, u)
    && (r < w || LastStepHelped(r, w, Mul(diff - 1, u)))
    && !NextStepHelps(r, w, Mul(diff - 1, u), Mul(error, u))
  }

  ghost predicate SafeAt(v: nat, one: nat, error: nat, diff: nat, exp: int, d: int) {
    SafelyInside(Mul(v, Unit(exp)) - Mul(d, Weight(one, exp)), Weight(one, exp), Mul(error, Unit(exp)),
                 Unit(exp), Mul(diff + 1, Unit(exp)))
  }

  /** The candidate is not safely inside. */
  ghost predicate NotCertain(v: nat, one: nat, error: nat, diff: nat, exp: int, d: int) {
    Candidate(v, one, error, diff, exp, d) && !SafeAt(v, one, error, diff, exp, d)
  }

  /** There is one candidate at most. */
  lemma CandidateIsUnique(v: nat, one: nat, error: nat, diff: nat, exp1: int, d1: int, exp2: int, d2: int)
    requires one > 0
    requires Candidate(v, one, error, diff, exp1, d1) && Candidate(v, one, error, diff, exp2, d2)
    ensures exp1 == exp2 && d1 == d2
  {
    var d1' :| InRegion(v, one, error, exp1, d1');
    var d2' :| InRegion(v, one, error, exp2, d2');
    assert exp1 == exp2;
    var w, u := Weight(one, exp1), Unit(exp1);
    WeightAtLeastOne(one, exp1);
    if d1 < d2 {
      RoundedIsUnique(Mul(v, u), Mul(error, u), Mul(diff - 1, u), w, d1, d2);
    } else if d2 < d1 {
      RoundedIsUnique(Mul(v, u), Mul(error, u), Mul(diff - 1, u), w, d2, d1);
    }
  }

  lemma RoundedIsUnique(vu: int, eu: int, near: int, w: nat, d1: int, d2: int)
    requires w > 0 && d1 < d2 && vu - Mul(d1, w) <= eu && vu - Mul(d2, w) >= 0
    requires vu - Mul(d1, w) < w || LastStepHelped(vu - Mul(d1, w), w, near)
    ensures NextStepHelps(vu - Mul(d2, w), w, near, eu)
  {
    MulMonotone(d1 + 1, d2, w);
    MulNext(d1, w);
  }

  lemma NothingLarger(v: nat, one: nat, error: nat)
    requires one > 0 && 0 < v / one < 0x1_0000_0000 && error <= v
    ensures NoneFrom(v, one, error, GrisuCountDigits(v / one))
  {
    var kappa := GrisuCountDigits(v / one);
    CountedDigits(v / one);
    forall exp', d | exp' >= kappa
      ensures !InRegion(v, one, error, exp', d)
    {
      var w := Weight(one, exp');
      PowMonotone(10, kappa, exp');
      WeightAtLeastOne(one, exp');
      DivisionFact(v, one);
      MulMonotone(v / one + 1, Pow(10, exp'), one);
      MulNext(v / one, one);
      MulOne(v);
      MulOne(error);
      MulOne(w);
      if d <= 0 {
        MulMonotone(d, 0, w);
      } else {
        MulMonotone(1, d, w);
      }
    }
  }

  lemma NoneHere(v: nat, one: nat, error: nat, exp: int, digits: int, remainder: int)
    requires NoneFrom(v, one, error, exp + 1) && AtPlace(v, one, exp, digits, remainder)
    requires remainder >= Mul(error, Unit(exp))
    ensures NoneFrom(v, one, error, exp)
  {
    var w := Weight(one, exp);
    forall exp', d | exp' >= exp
      ensures !InRegion(v, one, error, exp', d)
    {
      if exp' == exp {
        if d <= digits {
          MulMonotone(d, digits, w);
        } else {
          MulMonotone(digits + 1, d, w);
          MulNext(digits, w);
        }
      }
    }
  }

  /** From a settled last digit to the statement about decimals. */
  lemma SettledIsShortest(v: nat, one: nat, error: nat, diff: nat, exp: int,
                          digits: int, remainder: int, steps: nat)
    requires one > 0 && AtPlace(v, one, exp, digits, remainder) && NoneFrom(v, one, error, exp + 1)
    requires Certain(remainder, remainder + Mul(steps, Weight(one, exp)), Weight(one, exp),
                     Mul(error, Unit(exp)), diff, Unit(exp))
    ensures ShortestInRegion(v, one, error, diff, exp, digits - steps)
  {
    var w, u := Weight(one, exp), Unit(exp);
    var d := digits - steps;
    WeightAtLeastOne(one, exp);
    MulSub(digits, steps, w);
    if error >= 4 {
      MulMonotone(4, error, u);
      MulIs(4, u);
    }
    forall d', x: real | Mul(v, u) - Mul(error, u) <= Mul(d', w) <= Mul(v, u)
      && (Mul(v, u) - Mul(diff + 1, u)) as real <= x <= (Mul(v, u) - Mul(diff - 1, u)) as real
      ensures Distance(Mul(d, w), x) <= Distance(Mul(d', w), x)
    {
      SettledIsClosest(Mul(v, u), Mul(error, u), w, diff, u, remainder, d, d', x);
    }
  }

  /** What rounding leaves is the candidate. */
  lemma RoundedIsCandidate(v: nat, one: nat, error: nat, diff: nat, exp: int,
                           digits: int, remainder: int, steps: nat)
    requires one > 0 && AtPlace(v, one, exp, digits, remainder) && NoneFrom(v, one, error, exp + 1)
    requires remainder < Mul(error, Unit(exp))
    requires Rounded(remainder, remainder + Mul(steps, Weight(one, exp)), Weight(one, exp),
                     Mul(error, Unit(exp)), diff, Unit(exp))
    ensures Candidate(v, one, error, diff, exp, digits - steps)
    ensures SafeAt(v, one, error, diff, exp, digits - steps)
       <==> Safe(one, exp, error, diff, remainder, steps)
  {
    MulSub(digits, steps, Weight(one, exp));
    assert InRegion(v, one, error, exp, digits);
  }

  lemma SettledIsClosest(vu: int, eu: int, w: int, diff: int, u: int, r0: int,
                         d: int, d': int, x: real)
    requires w > 0 && 0 <= r0 < w && Certain(r0, vu - Mul(d, w), w, eu, diff, u)
    requires vu - eu <= Mul(d', w) <= vu
    requires (vu - Mul(diff + 1, u)) as real <= x <= (vu - Mul(diff - 1, u)) as real
    ensures Distance(Mul(d, w), x) <= Distance(Mul(d', w), x)
  {
    MulSub(d, d', w);
    CertainIsClosest(r0, vu - Mul(d, w), w, eu, diff, u, d - d', vu as real - x);
  }

  /** The places of a sequence of digits end up at exp, the first one being 10^(kappa - 1). */
  ghost predicate Produced(v: nat, one: nat, buf: seq<char>, exp: int)
    requires one > 0
  {
    && AllDigits(buf) && exp + |buf| == GrisuCountDigits(v / one)
    && (|buf| >= 2 ==> buf[0] != '0')
  }

  /** The answer of the generator for the number d whose last digit is at place exp. */
  ghost predicate Outcome(v: nat, one: nat, error: nat, diff: nat, exp: int, d: int, result: DigitsResult) {
    && Candidate(v, one, error, diff, exp, d)
    && (result == Done ==> ShortestInRegion(v, one, error, diff, exp, d) && SafeAt(v, one, error, diff, exp, d))
    && (result == Error && error >= 4 ==> !SafeAt(v, one, error, diff, exp, d))
  }

  /** Grisu digit generation for the shortest representation: stops at the first place at
      which some decimal lies within the error. */
  method GenerateShortest(v: U64, one: nat, error0: U64, diff: U64)
    returns (result: DigitsResult, buf: seq<char>, exp: int)
    requires Scale(one) && 0 < v / one < 0x1_0000_0000
    requires 1 <= diff < error0 <= v
    ensures result != More && |buf| >= 1 && Produced(v, one, buf, exp)
    ensures result == Done ==> ShortestInRegion(v, one, error0, diff, exp, DecimalValue(buf))
    ensures error0 >= 4
        ==> (result == Error <==> exists exp', d :: NotCertain(v, one, error0, diff, exp', d))
    ensures result == Done && error0 >= 4 ==> buf[0] != '0'
  {
    result, buf, exp := FindCandidate(v, one, error0, diff);
    if error0 >= 4 {
      Decided(v, one, error0, diff, exp, DecimalValue(buf), result);
      if result == Done {
        NotZero(v, one, error0, diff, exp, buf);
      }
    }
  }

  lemma Decided(v: nat, one: nat, error: nat, diff: nat, exp: int, d: int, result: DigitsResult)
    requires one > 0 && error >= 4 && result != More && Outcome(v, one, error, diff, exp, d, result)
    ensures result == Error <==> exists exp', d' :: NotCertain(v, one, error, diff, exp', d')
  {
    if result == Error {
      assert NotCertain(v, one, error, diff, exp, d);
    } else if exists exp', d' :: NotCertain(v, one, error, diff, exp', d') {
      var exp', d' :| NotCertain(v, one, error, diff, exp', d');
      CandidateIsUnique(v, one, error, diff, exp, d, exp', d');
    }
  }

  lemma NotZero(v: nat, one: nat, error: nat, diff: nat, exp: int, buf: seq<char>)
    requires one > 0 && 4 <= error <= v && |buf| >= 1 && Produced(v, one, buf, exp)
    requires ShortestInRegion(v, one, error, diff, exp, DecimalValue(buf))
    ensures buf[0] != '0'
  {
    WeightAtLeastOne(one, exp);
    MulMonotone(error, v, Unit(exp));
    MulIs(0, Weight(one, exp));
    assert buf[..0] == [];
    assert |buf| == 1 ==> DecimalValue(buf) == buf[0] as int - '0' as int;
  }

  method FindCandidate(v: U64, one: nat, error0: U64, diff: U64)
    returns (result: DigitsResult, buf: seq<char>, exp: int)
    requires Scale(one) && 0 < v / one < 0x1_0000_0000
    requires 1 <= diff < error0 <= v
    ensures result != More && |buf| >= 1 && Produced(v, one, buf, exp)
    ensures Outcome(v, one, error0, diff, exp, DecimalValue(buf), result)
  {
    var handler := new ShortestHandler(diff);
    var integral: nat := v / one;
    var fractional := v % one;
    exp := GrisuCountDigits(integral);
    IntegralStart(v, one);
    CountedDigits(integral);
    NothingLarger(v, one, error0);
    IntegralPlace(v, one, exp, 0, integral);
    while exp > 0
      invariant 0 <= exp <= 10 && fresh(handler) && handler.diff == diff
      invariant IntegralState(v, one, error0, exp, handler.buf, integral)
    {
      result, integral := TakeIntegralDigit(v, one, error0, handler, exp, integral, fractional);
      exp := exp - 1;
      if result != More {
        return result, handler.buf, exp;
      }
    }
    IntegralPlace(v, one, 0, DecimalValue(handler.buf), integral);
    MulOne(one);
    result, buf, exp := GenerateFraction(v, one, error0, diff, handler, fractional);
  }

  ghost predicate IntegralState(v: nat, one: nat, error0: nat, exp: nat, buf: seq<char>,
                                integral: nat)
    requires one > 0
  {
    && Integral(v, one, exp, DecimalValue(buf), integral)
    && Produced(v, one, buf, exp) && DecimalValue(buf) >= 0
    && NoneFrom(v, one, error0, exp) && Led(buf)
    && Mul(integral, one) + v % one >= error0
  }

  method TakeIntegralDigit(v: U64, one: nat, error0: U64, handler: ShortestHandler, place: nat,
                           integral: nat, fractional: nat)
    returns (result: DigitsResult, rest: nat)
    requires Scale(one) && 0 < v / one < 0x1_0000_0000 && fractional == v % one
    requires 1 <= handler.diff < error0 && place >= 1
    requires IntegralState(v, one, error0, place, handler.buf, integral)
    modifies handler`buf
    ensures |handler.buf| >= 1 && Produced(v, one, handler.buf, place - 1)
    ensures result == More ==> IntegralState(v, one, error0, place - 1, handler.buf, rest)
    ensures result != More
        ==> Outcome(v, one, error0, handler.diff, place - 1, DecimalValue(handler.buf), result)
  {
    ghost var before := handler.buf;
    var digit: nat;
    digit, rest := IntegralDigit(integral, place);
    var exp := place - 1;
    var divisor, remainder := Pow(10, exp) * one, rest * one + fractional;
    CountedPower(v, one, place);
    ShortestTurn(v, one, error0, handler.diff, exp, DecimalValue(before), integral, digit, rest, divisor, remainder);
    ghost var steps: nat;
    result, steps := handler.OnDigit('0' + (digit as char), divisor, remainder, error0, exp);
    LeadingDigitIsSome(v, one, place, before, integral, digit, rest);
    OutcomeHere(v, one, error0, handler.diff, exp, before, handler.buf, digit, divisor, remainder, steps, result);
    TurnDone(v, one, error0, exp, before, handler.buf, digit, rest, result);
  }

  /** One turn of the first loop, as the handler sees it. */
  lemma ShortestTurn(v: U64, one: nat, error0: U64, diff: nat, exp: nat, digits: nat, integral: nat,
                     digit: nat, rest: nat, divisor: int, remainder: int)
    requires one > 0 && LeadingPower(v, one, exp + 1)
    requires Integral(v, one, exp + 1, digits, integral) && Mul(integral, one) + v % one >= error0
    requires rest < Pow(10, exp) && integral == Mul(digit, Pow(10, exp)) + rest
    requires divisor == Pow(10, exp) * one && remainder == rest * one + v % one
    ensures 0 <= remainder < divisor <= v && Weight(one, exp) == divisor && remainder == Mul(rest, one) + v % one
    ensures AtPlace(v, one, exp, 10 * digits + digit, remainder) && Integral(v, one, exp, 10 * digits + digit, rest)
    ensures error0 <= Mul(digit, divisor) + remainder
    ensures Mul(diff + 1, Unit(exp)) == diff + 1 && Mul(error0, Unit(exp)) == error0
  {
    IntegralTurn(v, one, exp + 1, digits, integral, digit, rest);
    NoScaling(exp, diff + 1, error0);
  }

  lemma NoScaling(exp: nat, a: nat, b: nat)
    ensures Mul(a, Unit(exp)) == a && Mul(b, Unit(exp)) == b
  {
    MulOne(a);
    MulOne(b);
  }

  /** The state of the first loop after a turn. */
  lemma TurnDone(v: nat, one: nat, error0: nat, exp: nat, before: seq<char>, after: seq<char>, digit: nat, rest: nat,
                 result: DigitsResult)
    requires one > 0 && Produced(v, one, before, exp + 1) && Led(before) && (before == [] ==> digit >= 1)
    requires AllDigits(after) && |after| == |before| + 1
    requires Led(before) && (before == [] ==> digit >= 1) ==> (|after| >= 2 || result == More ==> after[0] != '0')
    requires result == More
         ==> && DecimalValue(after) >= 0 && Integral(v, one, exp, DecimalValue(after), rest)
             && NoneFrom(v, one, error0, exp) && Mul(rest, one) + v % one >= error0
    ensures |after| >= 1 && Produced(v, one, after, exp)
    ensures result == More ==> IntegralState(v, one, error0, exp, after, rest)
  {
  }

  /** The outcome of a turn where the error is not scaled yet. */
  lemma OutcomeHere(v: nat, one: nat, error0: nat, diff: nat, exp: nat, before: seq<char>, after: seq<char>,
                    digit: nat, divisor: nat, remainder: nat, steps: nat, result: DigitsResult)
    requires one > 0 && divisor == Weight(one, exp) && error0 == Mul(error0, Unit(exp))
    requires AtPlace(v, one, exp, 10 * DecimalValue(before) + digit, remainder)
    requires NoneFrom(v, one, error0, exp + 1) && AllDigits(before)
    requires Answered(before, after, digit, divisor, remainder, error0, diff, exp, steps, result)
    ensures AllDigits(after) && |after| == |before| + 1
    ensures DecimalValue(after) == 10 * DecimalValue(before) + digit - steps
    ensures result == More ==> NoneFrom(v, one, error0, exp) && steps == 0 && remainder >= error0
    ensures result != More ==> Outcome(v, one, error0, diff, exp, DecimalValue(after), result)
    ensures Led(before) && (before == [] ==> digit >= 1) ==> (|after| >= 2 || result == More ==> after[0] != '0')
  {
    TurnOutcome(v, one, error0, diff, exp, before, after, digit, steps, remainder, result);
  }

  /** The answer of the handler to a digit. */
  ghost predicate Answered(before: seq<char>, after: seq<char>, digit: nat, divisor: nat, remainder: nat,
                           error: nat, diff: nat, exp: int, steps: nat, result: DigitsResult) {
    && (result == More <==> remainder >= error)
    && steps <= digit <= 9 && (result == More ==> steps == 0)
    && after == before + ['0' + (digit as char) - (steps as char)]
    && (result != More
        ==> Rounded(remainder, remainder + Mul(steps, divisor), divisor, error, diff, Unit(exp)))
    && (result == Done ==> SafelyInside(remainder + Mul(steps, divisor), divisor, error, Unit(exp),
                                        Mul(diff + 1, Unit(exp))))
    && (result == Error && 4 * Unit(exp) <= error
        ==> !SafelyInside(remainder + Mul(steps, divisor), divisor, error, Unit(exp), Mul(diff + 1, Unit(exp))))
  }

  /** The endless second loop: it stops because the error grows tenfold each turn while
      the fraction stays below one. */
  method GenerateFraction(v: U64, one: nat, error0: U64, diff: U64, handler: ShortestHandler,
                          fraction0: nat)
    returns (result: DigitsResult, buf: seq<char>, exp: int)
    requires Scale(one) && 0 < v / one && 1 <= diff < error0 && handler.diff == diff
    requires AtPlace(v, one, 0, DecimalValue(handler.buf), fraction0) && fraction0 >= error0
    requires Produced(v, one, handler.buf, 0) && NoneFrom(v, one, error0, 0)
    requires Led(handler.buf) && |handler.buf| >= 1
    modifies handler`buf
    ensures result != More && |buf| >= 1 && Produced(v, one, buf, exp)
    ensures Outcome(v, one, error0, diff, exp, DecimalValue(buf), result)
  {
    var fractional, error: U64 := fraction0, error0;
    exp := 0;
    UnitStep(error0, 0);
    while true
      invariant 1 <= error < one && FractionalState(v, one, error0, exp, handler.buf, fractional, error)
      decreases one - error
    {
      result, fractional := TakeFractionDigit(v, one, error0, handler, exp, fractional, error);
      error := error * 10;
      exp := exp - 1;
      if result != More {
        return result, handler.buf, exp;
      }
    }
  }

  ghost predicate FractionalState(v: nat, one: nat, error0: nat, exp: int, buf: seq<char>,
                                  fractional: int, error: int)
    requires one > 0
  {
    && exp <= 0 && error == Mul(error0, Unit(exp)) <= fractional
    && AtPlace(v, one, exp, DecimalValue(buf), fractional)
    && Produced(v, one, buf, exp) && NoneFrom(v, one, error0, exp) && 0 <= fractional < one
    && Led(buf) && |buf| >= 1
  }

  method TakeFractionDigit(v: U64, one: nat, error0: U64, handler: ShortestHandler, place: int,
                           fraction: nat, error: nat)
    returns (result: DigitsResult, rest: nat)
    requires Scale(one) && 1 <= handler.diff < error0 && error < one
    requires FractionalState(v, one, error0, place, handler.buf, fraction, error)
    modifies handler`buf
    ensures |handler.buf| >= 1 && Produced(v, one, handler.buf, place - 1)
    ensures result == More
        ==> 10 * error < one && FractionalState(v, one, error0, place - 1, handler.buf, rest, 10 * error)
    ensures result != More
        ==> Outcome(v, one, error0, handler.diff, place - 1, DecimalValue(handler.buf), result)
  {
    ghost var before, diff := handler.buf, handler.diff;
    FractionFits(v, one, error0, place, before, fraction, error);
    var scaled: U64 := fraction * 10;
    var digit: nat;
    digit, rest := TopDigit(scaled, one);
    FractionTurn(v, one, error0, diff, place, before, fraction, error, digit, rest);
    ghost var steps: nat;
    result, steps := handler.OnDigit('0' + (digit as char), one, rest, error * 10, place - 1);
    FractionTurned(v, one, error0, diff, place, before, handler.buf, fraction, error, digit, rest, steps, result);
  }

  /** The digit before the point, and what follows it. */
  method TopDigit(scaled: U64, one: nat) returns (digit: nat, rest: nat)
    requires one > 0
    ensures scaled == Mul(digit, one) + rest && rest < one
  {
    digit, rest := scaled / one, scaled % one;
    DivisionFact(scaled, one);
  }

  lemma FractionFits(v: U64, one: nat, error0: U64, place: int, before: seq<char>, fraction: nat, error: nat)
    requires Scale(one) && FractionalState(v, one, error0, place, before, fraction, error)
    ensures fraction * 10 < TWO_64
  {
  }

  /** One turn of the second loop, as the handler sees it. */
  lemma FractionTurn(v: U64, one: nat, error0: U64, diff: nat, place: int, before: seq<char>, fraction: nat,
                     error: nat, digit: nat, rest: nat)
    requires Scale(one) && 1 <= diff < error0 && error < one
    requires FractionalState(v, one, error0, place, before, fraction, error)
    requires fraction * 10 == Mul(digit, one) + rest && rest < one
    ensures -(place - 1) <= 19 && digit <= 9 && error * 10 <= Mul(digit, one) + rest
    ensures AtPlace(v, one, place - 1, 10 * DecimalValue(before) + digit, rest)
    ensures Weight(one, place - 1) == one
    ensures Mul(diff + 1, Unit(place - 1)) <= Mul(error0, Unit(place - 1)) == error * 10
  {
    FractionStep(v, one, place, DecimalValue(before), fraction);
    QuotientIs(10 * fraction, one, digit);
    UnitStep(error0, place);
    UnitStep(diff + 1, place);
    MulMonotone(diff + 1, error0, Unit(place - 1));
    IndexInRange(error0, place - 1, error);
  }

  /** What the handler's answer means for the state of the second loop. */
  lemma FractionTurned(v: U64, one: nat, error0: U64, diff: nat, place: int, before: seq<char>, after: seq<char>,
                       fraction: nat, error: nat, digit: nat, rest: nat, steps: nat, result: DigitsResult)
    requires Scale(one) && 1 <= diff < error0 && error < one
    requires FractionalState(v, one, error0, place, before, fraction, error)
    requires fraction * 10 == Mul(digit, one) + rest && rest < one
    requires Answered(before, after, digit, one, rest, error * 10, diff, place - 1, steps, result)
    ensures |after| >= 1 && Produced(v, one, after, place - 1)
    ensures result == More
        ==> 10 * error < one && FractionalState(v, one, error0, place - 1, after, rest, 10 * error)
    ensures result != More ==> Outcome(v, one, error0, diff, place - 1, DecimalValue(after), result)
  {
    FractionTurn(v, one, error0, diff, place, before, fraction, error, digit, rest);
    TurnOutcome(v, one, error0, diff, place - 1, before, after, digit, steps, rest, result);
  }

  /** The error bounds the unit, so the table of twenty powers of ten suffices. */
  lemma IndexInRange(error0: nat, exp: int, error: nat)
    requires error0 >= 1 && exp < 0 && Mul(error0, Unit(exp)) == 10 * error
    requires error <= 0x1000_0000_0000_0000
    ensures -exp <= 19
  {
    MulMonotone(1, error0, Unit(exp));
    MulOne(Unit(exp));
    PowersOfTen();
    if -exp >= 20 {
      PowMonotone(10, 20, -exp);
    }
  }

  ghost predicate Safe(one: nat, exp: int, error: nat, diff: int, remainder: int, steps: nat) {
    SafelyInside(remainder + Mul(steps, Weight(one, exp)), Weight(one, exp), Mul(error, Unit(exp)),
                 Unit(exp), Mul(diff + 1, Unit(exp)))
  }

  /** What one answer of the handler means for the digits so far. */
  lemma TurnOutcome(v: nat, one: nat, error0: nat, diff: nat, exp: int, before: seq<char>,
                    after: seq<char>, digit: nat, steps: nat, remainder: nat, result: DigitsResult)
    requires one > 0 && AtPlace(v, one, exp, 10 * DecimalValue(before) + digit, remainder)
    requires NoneFrom(v, one, error0, exp + 1) && AllDigits(before)
    requires Answered(before, after, digit, Weight(one, exp), remainder, Mul(error0, Unit(exp)), diff, exp, steps,
                      result)
    ensures AllDigits(after)
    ensures DecimalValue(after) == 10 * DecimalValue(before) + digit - steps
    ensures result == More ==> NoneFrom(v, one, error0, exp)
    ensures result != More ==> Outcome(v, one, error0, diff, exp, DecimalValue(after), result)
    ensures Led(before) && (before == [] ==> digit >= 1) ==> (|after| >= 2 || result == More ==> after[0] != '0')
  {
    DigitAppended(before, after, digit, steps);
    if result == More {
      NoneHere(v, one, error0, exp, 10 * DecimalValue(before) + digit, remainder);
    } else {
      Settled(v, one, error0, diff, exp, 10 * DecimalValue(before) + digit, remainder, steps, result);
    }
  }

  lemma Settled(v: nat, one: nat, error: nat, diff: nat, exp: int, digits: int, remainder: nat,
                steps: nat, result: DigitsResult)
    requires one > 0 && AtPlace(v, one, exp, digits, remainder) && NoneFrom(v, one, error, exp + 1)
    requires result != More && remainder < Mul(error, Unit(exp))
    requires Rounded(remainder, remainder + Mul(steps, Weight(one, exp)), Weight(one, exp),
                     Mul(error, Unit(exp)), diff, Unit(exp))
    requires result == Done ==> Safe(one, exp, error, diff, remainder, steps)
    requires result == Error && 4 * Unit(exp) <= Mul(error, Unit(exp))
         ==> !Safe(one, exp, error, diff, remainder, steps)
    ensures Outcome(v, one, error, diff, exp, digits - steps, result)
  {
    RoundedIsCandidate(v, one, error, diff, exp, digits, remainder, steps);
    if result == Done {
      SettledIsShortest(v, one, error, diff, exp, digits, remainder, steps);
    } else if error >= 4 {
      MulMonotone(4, error, Unit(exp));
      MulIs(4, Unit(exp));
    }
  }
}
