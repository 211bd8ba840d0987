/**
 Grisu digit generation. A value is given as an integer v standing for v / one, where one
 is a power of two between 2^32 and 2^60, together with an error bound in the same units.
 After digits down to place 10^exp the digits so far times the weight of the last one,
 plus a remainder, equal the value, everything multiplied by 10^-exp once exp is negative.
 */
module Grisu {
  import opened Powers
  import opened DigitSpec

  datatype DigitsResult = More | Done | Error

  /** The weight of the last digit, in scaled units. */
  ghost function Weight(one: nat, exp: int): nat {
    if exp >= 0 then Pow(10, exp) * one else one
  }

  /** What all quantities have been multiplied by at place exp. */
  ghost function Unit(exp: int): nat {
    if exp >= 0 then 1 else Pow(10, -exp)
  }

  /** digits * weight + remainder is the scaled value. */
  ghost predicate AtPlace(v: nat, one: nat, exp: int, digits: int, remainder: int) {
    && Mul(digits, Weight(one, exp)) + remainder == Mul(v, Unit(exp))
    && 0 <= remainder < Weight(one, exp)
  }

  predicate Scale(one: nat) {
    0x1_0000_0000 <= one <= 0x1000_0000_0000_0000
  }

  lemma WeightAtLeastOne(one: nat, exp: int)
    ensures Weight(one, exp) >= one
    ensures exp >= 0 ==> Weight(one, exp) == Mul(Pow(10, exp), one)
    ensures Unit(exp) >= 1
  {
    if exp >= 0 {
      TimesMonotone(1, Pow(10, exp), one);
      MulIs(Pow(10, exp), one);
    }
  }

  // ---------- the integral digits ----------

  function GrisuCountDigits(n: nat): nat
  {
    if n < 10 then 1
    else if n < 100 then 2
    else if n < 1000 then 3
    else if n < 10000 then 4
    else if n < 100000 then 5
    else if n < 1000000 then 6
    else if n < 10000000 then 7
    else if n < 100000000 then 8
    else if n < 1000000000 then 9
    else 10
  }

  lemma CountedDigits(n: nat)
    requires 0 < n < 0x1_0000_0000
    ensures 1 <= GrisuCountDigits(n) <= 10
    ensures Pow(10, GrisuCountDigits(n) - 1) <= n < Pow(10, GrisuCountDigits(n))
  {
    PowersOfTen();
  }

  /** The next digit of an integral part that is below 10^exp. */
  method IntegralDigit(integral: nat, exp: nat) returns (digit: nat, rest: nat)
    requires exp >= 1 && integral < Pow(10, exp)
    ensures digit <= 9 && rest < Pow(10, exp - 1)
    ensures integral == Mul(digit, Pow(10, exp - 1)) + rest
  {
    var divisor := Pow(10, exp - 1);
    digit, rest := integral / divisor, integral % divisor;
    DivisionFact(integral, divisor);
    if digit >= 10 {
      MulMonotone(10, digit, divisor);
      MulIs(10, divisor);
    }
  }

  /** The integral digits so far account for the value down to their last place. */
  ghost predicate Integral(v: nat, one: nat, exp: nat, digits: int, integral: nat)
    requires one > 0
  {
    Mul(digits, Pow(10, exp)) + integral == v / one && integral < Pow(10, exp)
  }

  lemma IntegralStart(v: nat, one: nat)
    requires one > 0 && 0 < v / one < 0x1_0000_0000
    ensures Integral(v, one, GrisuCountDigits(v / one), 0, v / one)
  {
    CountedDigits(v / one);
    MulIs(0, Pow(10, GrisuCountDigits(v / one)));
  }

  lemma IntegralStep(v: nat, one: nat, exp: nat, digits: int, integral: nat, digit: nat, rest: nat)
    requires one > 0 && exp >= 1 && Integral(v, one, exp, digits, integral)
    requires rest < Pow(10, exp - 1) && integral == Mul(digit, Pow(10, exp - 1)) + rest
    ensures Integral(v, one, exp - 1, 10 * digits + digit, rest)
  {
    TimesTen(digits, exp - 1);
    TenQuotients(digits, digit, Pow(10, exp - 1));
  }

  lemma IntegralPlace(v: nat, one: nat, exp: nat, digits: int, integral: nat)
    requires one > 0 && Integral(v, one, exp, digits, integral)
    ensures AtPlace(v, one, exp, digits, Mul(integral, one) + v % one)
    ensures 0 <= Mul(integral, one) + v % one
    ensures digits == 0 ==> Mul(integral, one) + v % one == v
  {
    var p := Pow(10, exp);
    WeightAtLeastOne(one, exp);
    DivisionFact(v, one);
    MulAssoc(digits, p, one);
    MulAdd(Mul(digits, p), integral, one);
    MulEqual(v / one, Mul(digits, p) + integral, one);
    MulMonotone(integral + 1, p, one);
    MulNext(integral, one);
    MulIs(integral, one);
    MulOne(v);
    MulOne(p);
    MulOne(one);
  }

  /** The place above is not beyond the first digit. */
  ghost predicate LeadingPower(v: nat, one: nat, exp: nat)
    requires one > 0 && exp >= 1
  {
    Pow(10, exp - 1) <= v / one
  }

  lemma CountedPower(v: nat, one: nat, exp: nat)
    requires one > 0 && 0 < v / one < 0x1_0000_0000 && 1 <= exp <= GrisuCountDigits(v / one)
    ensures LeadingPower(v, one, exp)
  {
    CountedDigits(v / one);
    PowMonotone(10, exp - 1, GrisuCountDigits(v / one) - 1);
  }

  /** No leading zero. */
  ghost predicate Led(buf: seq<char>) {
    |buf| > 0 ==> buf[0] != '0'
  }

  /** The first digit is not a zero. */
  lemma LeadingDigitIsSome(v: nat, one: nat, place: nat, before: seq<char>, integral: nat, digit: nat, rest: nat)
    requires one > 0 && place >= 1 && LeadingPower(v, one, place)
    requires Integral(v, one, place, DecimalValue(before), integral)
    requires rest < Pow(10, place - 1) && integral == Mul(digit, Pow(10, place - 1)) + rest
    ensures before == [] ==> digit >= 1
  {
    MulIs(0, Pow(10, place));
    MulIs(0, Pow(10, place - 1));
  }

  /** One turn of the integral loop: the new place, its remainder, and that the 64-bit
      products formed in it do not overflow. */
  lemma IntegralTurn(v: U64, one: nat, exp: nat, digits: nat, pending: nat, digit: nat, rest: nat)
    requires one > 0 && exp >= 1 && LeadingPower(v, one, exp)
    requires Integral(v, one, exp, digits, pending)
    requires rest < Pow(10, exp - 1) && pending == Mul(digit, Pow(10, exp - 1)) + rest
    ensures Integral(v, one, exp - 1, 10 * digits + digit, rest)
    ensures AtPlace(v, one, exp - 1, 10 * digits + digit, rest * one + v % one)
    ensures exp >= 2 ==> LeadingPower(v, one, exp - 1)
    ensures Mul(rest, one) == rest * one
    ensures rest * one + v % one <= v && Pow(10, exp - 1) * one <= v
    ensures Mul(pending, one) + v % one
         == Mul(digit, Pow(10, exp - 1) * one) + (rest * one + v % one)
  {
    if exp >= 2 {
      PowMonotone(10, exp - 2, exp - 1);
    }
    IntegralStep(v, one, exp, digits, pending, digit, rest);
    IntegralPlace(v, one, exp - 1, 10 * digits + digit, rest);
    MulIs(rest, one);
    MulIs(Pow(10, exp - 1), one);
    PendingSplit(pending, digit, Pow(10, exp - 1), rest, one, v % one);
    SomeDigit(v, one, exp - 1, 10 * digits + digit, rest);
    PlaceFits(v, one, exp - 1, 10 * digits + digit, rest * one + v % one);
  }

  lemma SomeDigit(v: nat, one: nat, exp: nat, digits: int, rest: nat)
    requires one > 0 && Pow(10, exp) <= v / one
    requires Integral(v, one, exp, digits, rest)
    ensures digits >= 1
  {
    MulOne(Pow(10, exp));
    if digits <= 0 {
      MulMonotone(digits, 0, Pow(10, exp));
    }
  }

  lemma PlaceFits(v: U64, one: nat, exp: int, digits: int, remainder: int)
    requires one > 0 && digits >= 0 && exp >= 0 && AtPlace(v, one, exp, digits, remainder)
    ensures remainder <= v
    ensures digits >= 1 ==> Weight(one, exp) <= v
  {
    MulOne(v);
    MulIs(digits, Weight(one, exp));
    MulOne(Weight(one, exp));
    if digits >= 1 {
      MulMonotone(1, digits, Weight(one, exp));
    }
  }

  lemma PendingSplit(pending: int, digit: int, p: int, rest: int, one: int, fractional: int)
    requires pending == Mul(digit, p) + rest
    ensures Mul(pending, one) + fractional == Mul(digit, Mul(p, one)) + (Mul(rest, one) + fractional)
  {
    MulAdd(Mul(digit, p), rest, one);
    MulAssoc(digit, p, one);
  }

  // ---------- the fractional digits ----------

  lemma FractionStep(v: nat, one: nat, exp: int, digits: int, remainder: nat)
    requires one > 0 && exp <= 0 && AtPlace(v, one, exp, digits, remainder)
    ensures Weight(one, exp) == one
    ensures 0 <= 10 * remainder / one <= 9
    ensures AtPlace(v, one, exp - 1, 10 * digits + 10 * remainder / one, 10 * remainder % one)
    ensures 10 * remainder == Mul(10 * remainder / one, one) + 10 * remainder % one
  {
    MulOne(one);
    var q := 10 * remainder / one;
    DivisionFact(10 * remainder, one);
    TenQuotients(digits, q, one);
    MulOne(v);
    TimesTen(v, -exp);
    assert Unit(exp) == Pow(10, -exp);
    if q >= 10 {
      MulMonotone(10, q, one);
      MulIs(10, one);
    }
  }

  lemma UnitStep(m: nat, exp: int)
    requires exp <= 0
    ensures Mul(m, Unit(exp - 1)) == 10 * Mul(m, Unit(exp))
    ensures Mul(m, Unit(0)) == m
  {
    TimesTen(m, -exp);
    MulOne(m);
    assert Unit(exp) == Pow(10, -exp);
  }

  lemma DigitAppended(before: seq<char>, after: seq<char>, digit: nat, steps: nat)
    requires steps <= digit <= 9 && after == before + ['0' + (digit as char) - (steps as char)]
    ensures DecimalValue(after) == 10 * DecimalValue(before) + digit - steps
    ensures AllDigits(before) ==> AllDigits(after)
  {
    DecimalSnoc(before, '0' + (digit as char) - (steps as char));
  }
}
