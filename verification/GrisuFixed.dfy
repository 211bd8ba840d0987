/**
 Grisu with the fixed-precision handler: a requested number of digits, rounded when the
 error bound leaves no doubt about the direction.
 */
module GrisuFixed {
  import opened Powers
  import opened DigitSpec
  import opened Grisu

  datatype RoundDirection = Unknown | Up | Down

  /** Which way v rounds to a multiple of divisor, given v % divisor up to an error. The
      form of the comparisons keeps every intermediate result below divisor. */
  function GetRoundDirection(divisor: U64, remainder: U64, error: U64): (r: RoundDirection)
    requires remainder < divisor && error < divisor - error
    ensures r == Down <==> 2 * (remainder + error) <= divisor
    ensures r == Up <==> 2 * (remainder + error) > divisor && 2 * (remainder - error) >= divisor
  {
    if remainder <= divisor - remainder && error * 2 <= divisor - remainder * 2 then Down
    else if remainder >= error && remainder - error >= divisor - (remainder - error) then Up
    else Unknown
  }

  // ---------- carrying ----------

  lemma {:induction false} DecimalUpdate(s: seq<char>, i: nat, c: char)
    requires i < |s|
    ensures DecimalValue(s[i := c])
         == DecimalValue(s) + Mul(c as int - s[i] as int, Pow(10, |s| - 1 - i))
  {
    var t, n := s[i := c], |s| - 1;
    if i == n {
      assert t[..n] == s[..n];
      MulOne(c as int - s[i] as int);
    } else {
      assert t[..n] == s[..n][i := c];
      DecimalUpdate(s[..n], i, c);
      TimesTen(c as int - s[i] as int, n - 1 - i);
    }
  }

  /** n digits without a leading zero, or, when nines have been carried over, a one and n zeros. */
  ghost predicate Sized(buf: seq<char>, n: int) {
    && |buf| >= 1 && Led(buf)
    && (|buf| == n || (|buf| == n + 1 && forall i :: 1 <= i < |buf| ==> buf[i] == '0'))
  }

  /** Adds one to the number in a nonempty buffer of digits; all nines gain a digit. */
  method RippleCarry(s: seq<char>) returns (buf: seq<char>)
    requires |s| >= 1 && AllDigits(s)
    ensures AllDigits(buf) && DecimalValue(buf) == DecimalValue(s) + 1
    ensures |s| <= |buf| <= |s| + 1 && (s[0] != '0' ==> Sized(buf, |s|))
  {
    var n := |s|;
    buf := s[n - 1 := s[n - 1] + (1 as char)];
    DecimalUpdate(s, n - 1, s[n - 1] + (1 as char));
    MulOne(1);
    var i := n - 1;
    while i > 0 && buf[i] > '9'
      invariant 0 <= i < n == |buf| && '1' <= buf[i] <= ':'
      invariant forall j :: 0 <= j < n && j != i ==> IsDigit(buf[j])
      invariant (forall j :: 0 <= j < i ==> buf[j] == s[j]) && (forall j :: i < j < n ==> buf[j] == '0')
      invariant DecimalValue(buf) == DecimalValue(s) + 1
    {
      CarryOne(buf, i);
      buf := buf[i := '0'];
      buf := buf[i - 1 := buf[i - 1] + (1 as char)];
      i := i - 1;
    }
    if buf[0] > '9' {
      ExtraDigit(s, buf);
      buf := buf[0 := '1'];
      buf := buf + ['0'];
    }
  }

  lemma CarryOne(buf: seq<char>, i: nat)
    requires 0 < i < |buf| && buf[i] == ':' && IsDigit(buf[i - 1])
    ensures DecimalValue(buf[i := '0'][i - 1 := buf[i - 1] + (1 as char)]) == DecimalValue(buf)
  {
    var k := |buf| - 1 - i;
    DecimalUpdate(buf, i, '0');
    DecimalUpdate(buf[i := '0'], i - 1, buf[i - 1] + (1 as char));
    TimesTen(1, k);
    MulIs(-10, Pow(10, k));
    MulOne(Pow(10, k));
  }

  /** A first digit of ten means the digits were all nines. */
  lemma ExtraDigit(s: seq<char>, buf: seq<char>)
    requires |s| == |buf| >= 1 && AllDigits(s) && buf[0] == ':'
    requires forall j :: 0 < j < |buf| ==> IsDigit(buf[j])
    requires DecimalValue(buf) == DecimalValue(s) + 1
    ensures DecimalValue(buf[0 := '1'] + ['0']) == DecimalValue(s) + 1
  {
    var n := |buf|;
    DecimalUpdate(buf, 0, '0');
    DecimalUpdate(buf, 0, '1');
    DigitsBound(s);
    DigitsBound(buf[0 := '0']);
    MulIs(-10, Pow(10, n - 1));
    MulIs(-9, Pow(10, n - 1));
    assert Pow(10, n) == 10 * Pow(10, n - 1);
    DecimalSnoc(buf[0 := '1'], '0');
  }

  lemma {:induction false} DigitsBound(s: seq<char>)
    requires AllDigits(s)
    ensures 0 <= DecimalValue(s) < Pow(10, |s|)
  {
    if |s| > 0 {
      DigitsBound(s[..|s| - 1]);
    }
  }

  // ---------- what rounding means ----------

  /** d at place exp is a nearest multiple of its weight to every real within one unit of v. */
  ghost predicate NearestToAll(v: nat, one: nat, exp: int, d: int) {
    forall x: real :: (Mul(v, Unit(exp)) - Unit(exp)) as real <= x <= (Mul(v, Unit(exp)) + Unit(exp)) as real
      ==> HalfWeight(Mul(d, Weight(one, exp)), Weight(one, exp), x)
  }

  ghost predicate HalfWeight(m: int, w: int, x: real) {
    (2 * m - w) as real <= 2.0 * x <= (2 * m + w) as real
  }

  /** The error that the generator has after the digit at place exp: a 64-bit number that
      is multiplied by ten for every fractional digit. */
  ghost function TrackedError(exp: int): nat {
    Unit(exp) % TWO_64
  }

  /** The condition under which rounding at place exp is reported as settled. */
  ghost predicate Settles(w: int, r: int, error: int) {
    error < w - error && (2 * (r + error) <= w || 2 * (r - error) >= w)
  }

  ghost predicate SettlesAt(v: nat, one: nat, exp: int)
    requires one > 0
  {
    WeightAtLeastOne(one, exp);
    Settles(Weight(one, exp), Mul(v, Unit(exp)) % Weight(one, exp), TrackedError(exp))
  }

  lemma PlaceRemainder(v: nat, one: nat, exp: int, digits: int, remainder: int)
    requires one > 0 && AtPlace(v, one, exp, digits, remainder)
    ensures Weight(one, exp) > 0 && Mul(v, Unit(exp)) % Weight(one, exp) == remainder
  {
    var w, m := Weight(one, exp), Mul(v, Unit(exp));
    WeightAtLeastOne(one, exp);
    MulIs(v, Unit(exp));
    DivisionFact(m, w);
    UniqueDivision(digits, m / w, w, remainder, m % w);
  }

  /** v rounded to a multiple of the weight at place exp, ties down. */
  ghost function RoundedAt(v: nat, one: nat, exp: int): int
    requires one > 0
  {
    WeightAtLeastOne(one, exp);
    var w, m := Weight(one, exp), Mul(v, Unit(exp));
    if 2 * (m % w) <= w then m / w else m / w + 1
  }

  /** Whatever the tracked error has become, a settled direction is the one in which v itself
      is rounded. */
  lemma SettledIsRounded(v: nat, one: nat, exp: int, digits: int, remainder: int, error: nat)
    requires one > 0 && AtPlace(v, one, exp, digits, remainder)
    requires Settles(Weight(one, exp), remainder, error)
    ensures RoundedAt(v, one, exp)
         == if 2 * (remainder + error) <= Weight(one, exp) then digits else digits + 1
  {
    var w, m := Weight(one, exp), Mul(v, Unit(exp));
    WeightAtLeastOne(one, exp);
    MulIs(v, Unit(exp));
    DivisionFact(m, w);
    UniqueDivision(digits, m / w, w, remainder, m % w);
  }

  /** A power of ten is a multiple of a power of two. */
  lemma TenIsMultiple(j: nat, n: nat)
    requires j <= n
    ensures Pow(10, n) == Mul(Pow(2, n - j) * Pow(5, n), Pow(2, j))
  {
    PowOfProduct(2, 5, n);
    PowAdd(2, n - j, j);
    MulIs(Pow(2, n - j) * Pow(5, n), Pow(2, j));
    SwapFactors(Pow(2, n - j), Pow(2, j), Pow(5, n));
  }

  lemma SwapFactors(a: int, b: int, c: int)
    ensures a * b * c == a * c * b
  {
    TimesAssoc(a, b, c);
    TimesAssoc(a, c, b);
  }

  /** From sixty-four fractional digits on the tracked error is zero, and everything settles. */
  lemma ErrorVanishes(v: nat, one: nat, exp: int)
    requires one > 0 && exp <= -64
    ensures TrackedError(exp) == 0 && SettlesAt(v, one, exp)
  {
    TenIsMultiple(64, -exp);
    PowersOfTwo();
    QuotientIs(Pow(10, -exp), TWO_64, Pow(2, -exp - 64) * Pow(5, -exp));
    WeightAtLeastOne(one, exp);
  }

  /** From sixty on nothing remains to be rounded. */
  lemma NothingRemains(v: nat, one: nat, j: nat, exp: int)
    requires one == Pow(2, j) && j <= 60 && exp <= -60
    ensures one > 0 && Mul(RoundedAt(v, one, exp), Weight(one, exp)) == Mul(v, Unit(exp))
  {
    var q := Pow(2, -exp - j) * Pow(5, -exp);
    TenIsMultiple(j, -exp);
    MulAssoc(v, q, one);
    WholeIsExact(v, one, exp, Mul(v, q));
  }

  lemma WholeIsExact(v: nat, one: nat, exp: int, q: int)
    requires one > 0 && exp < 0 && Mul(v, Unit(exp)) == Mul(q, one)
    ensures Mul(RoundedAt(v, one, exp), Weight(one, exp)) == Mul(v, Unit(exp))
  {
    MulMonotone(0, v, Unit(exp));
    MulIs(0, Unit(exp));
    MulOne(one);
    MulIs(0, one);
    if q < 0 {
      MulMonotone(q, -1, one);
      MulIs(-1, one);
    }
    QuotientIs(Mul(v, Unit(exp)), one, q);
    WeightAtLeastOne(one, exp);
  }

  /** Up to nineteen fractional digits the tracked error is the real one, and a settled
      direction is right for every number the value may stand for. */
  lemma SettledIsNearest(v: nat, one: nat, exp: int, digits: int, remainder: int)
    requires one > 0 && AtPlace(v, one, exp, digits, remainder) && exp >= -19
    requires Settles(Weight(one, exp), remainder, TrackedError(exp))
    ensures 2 * (remainder + TrackedError(exp)) <= Weight(one, exp)
        ==> NearestToAll(v, one, exp, digits)
    ensures 2 * (remainder + TrackedError(exp)) > Weight(one, exp)
        ==> NearestToAll(v, one, exp, digits + 1)
  {
    ErrorIsUnit(exp);
    MulNext(digits, Weight(one, exp));
    NearestSides(v, one, exp, digits, remainder, Unit(exp));
  }

  lemma ErrorIsUnit(exp: int)
    requires exp >= -19
    ensures TrackedError(exp) == Unit(exp)
  {
    PowersOfTen();
    if exp < 0 {
      PowMonotone(10, -exp, 19);
    }
  }

  lemma NearestSides(v: nat, one: nat, exp: int, digits: int, remainder: int, u: nat)
    requires AtPlace(v, one, exp, digits, remainder) && u == Unit(exp)
    requires Settles(Weight(one, exp), remainder, u)
    requires Mul(digits + 1, Weight(one, exp)) == Mul(digits, Weight(one, exp)) + Weight(one, exp)
    ensures 2 * (remainder + u) <= Weight(one, exp) ==> NearestToAll(v, one, exp, digits)
    ensures 2 * (remainder + u) > Weight(one, exp) ==> NearestToAll(v, one, exp, digits + 1)
  {
    var w, m := Weight(one, exp), Mul(v, u);
    forall x: real | (m - u) as real <= x <= (m + u) as real
      ensures 2 * (remainder + u) <= w ==> HalfWeight(Mul(digits, w), w, x)
      ensures 2 * (remainder + u) > w ==> HalfWeight(Mul(digits + 1, w), w, x)
    {
      NearestSide(Mul(digits, w), w, remainder, u, x);
    }
  }

  lemma NearestSide(d: int, w: int, r: int, u: int, x: real)
    requires 0 <= r < w && Settles(w, r, u) && (d + r - u) as real <= x <= (d + r + u) as real
    ensures 2 * (r + u) <= w ==> HalfWeight(d, w, x)
    ensures 2 * (r + u) > w ==> HalfWeight(d + w, w, x)
  {
  }

  /** Beyond nineteen the error is at least as wide as the weight, so no multiple can be
      nearest to both of its ends, whatever the tracked error has become. */
  lemma TooManyDigits(v: nat, one: nat, exp: int, d: int)
    requires Scale(one) && exp < -19
    ensures !NearestToAll(v, one, exp, d)
  {
    PowersOfTen();
    PowMonotone(10, 20, -exp);
    var u, m, w := Unit(exp), Mul(v, Unit(exp)), Weight(one, exp);
    if NearestToAll(v, one, exp, d) {
      EndsTooFar(v, one, exp, d);
    }
  }

  lemma EndsTooFar(v: nat, one: nat, exp: int, d: int)
    requires NearestToAll(v, one, exp, d)
    ensures 2 * Unit(exp) <= Weight(one, exp)
  {
    var w, low, high := Weight(one, exp), (Mul(v, Unit(exp)) - Unit(exp)) as real,
                        (Mul(v, Unit(exp)) + Unit(exp)) as real;
    assert HalfWeight(Mul(d, w), w, low);
    assert HalfWeight(Mul(d, w), w, high);
  }

  /** The tracked error after one more digit. */
  lemma ErrorStep(exp: int)
    requires exp <= 0
    ensures TrackedError(exp - 1) == TrackedError(exp) * 10 % TWO_64
  {
    UnitStep(1, exp);
    MulOne(Unit(exp));
    MulOne(Unit(exp - 1));
    ModTimesTen(Unit(exp));
  }

  lemma ModTimesTen(x: nat)
    ensures x % TWO_64 * 10 % TWO_64 == 10 * x % TWO_64
  {
    var q, r := x / TWO_64, 10 * (x % TWO_64);
    DivisionFact(x, TWO_64);
    DivisionFact(r, TWO_64);
    MulIs(10 * q + r / TWO_64, TWO_64);
    QuotientIs(10 * x, TWO_64, 10 * q + r / TWO_64);
  }

  // ---------- the handler ----------

  class FixedHandler {
    var buf: seq<char>
    var precision: int
    const exp10: int
    const fixed: bool

    constructor (precision: int, exp10: int, fixed: bool)
      ensures buf == [] && this.precision == precision
      ensures this.exp10 == exp10 && this.fixed == fixed
    {
      buf, this.precision, this.exp10, this.fixed := [], precision, exp10, fixed;
    }

    /** Turns a precision after the decimal point into a number of digits, and settles the
        cases in which that leaves none to generate. */
    method OnStart(divisor: U64, remainder: U64, error: U64, exp: int) returns (result: DigitsResult)
      requires buf == [] && remainder < divisor && error < divisor - error
      modifies this
      ensures precision == old(precision) + (if fixed then exp + exp10 else 0)
      ensures result == More <==> !fixed || precision > 0
      ensures result == More || precision < 0 ==> buf == []
      ensures fixed && precision < 0 ==> result == Done
      ensures fixed && precision == 0
          ==> (result == Done <==> Settles(divisor, remainder, error))
      ensures fixed && precision == 0 && result == Done
          ==> buf == if 2 * (remainder + error) <= divisor then "0" else "1"
    {
      if !fixed {
        return More;
      }
      precision := precision + (exp + exp10);
      if precision > 0 {
        return More;
      }
      if precision < 0 {
        return Done;
      }
      var dir := GetRoundDirection(divisor, remainder, error);
      if dir == Unknown {
        return Error;
      }
      buf := buf + [if dir == Up then '1' else '0'];
      result := Done;
    }

    method OnDigit(digit: char, divisor: U64, remainder: U64, error: U64, integral: bool)
      returns (result: DigitsResult)
      requires AllDigits(buf) && IsDigit(digit) && remainder < divisor
      requires integral ==> error == 1 && divisor > 2
      modifies this`buf
      ensures AllDigits(buf) && |buf| >= 1
      ensures result == More <==> |old(buf)| + 1 < precision
      ensures result == More ==> buf == old(buf) + [digit]
      ensures result != More ==> (result == Done <==> Settles(divisor, remainder, error))
      ensures result == Done
          ==> (DecimalValue(buf) - DecimalValue(old(buf) + [digit])
               == if 2 * (remainder + error) <= divisor then 0 else 1)
      ensures result == Done && (old(buf) + [digit])[0] != '0' ==> Sized(buf, |old(buf)| + 1)
    {
      buf := buf + [digit];
      if |buf| < precision {
        return More;
      }
      if !integral {
        if error >= divisor || error >= divisor - error {
          return Error;
        }
      }
      var dir := GetRoundDirection(divisor, remainder, error);
      if dir != Up {
        return if dir == Down then Done else Error;
      }
      buf := RippleCarry(buf);
      result := Done;
    }
  }

  // ---------- the digit generator ----------

  /** The place at which the requested precision ends. */
  function RequestedPlace(kappa: int, precision: int, exp10: int, fixed: bool): int {
    if fixed then -(precision + exp10) else kappa - (if precision >= 1 then precision else 1)
  }

  /** Whether rounding at the requested place is settled: always if it is more than one place
      above the first digit, and by the start of the value if it is one place above. */
  ghost predicate Decided(v: nat, one: nat, place: int)
    requires one > 0
  {
    var kappa := GrisuCountDigits(v / one);
    if place < kappa then SettlesAt(v, one, place)
    else place > kappa || Settles(Pow(10, kappa - 1) * one, v / 10, 10)
  }

  /** Grisu digit generation for a requested precision. A reported success is right exactly
      if the request ends at most nineteen places after the scaled decimal point. */
  method GenerateFixed(v: U64, one: nat, precision: int, exp10: int, fixed: bool)
    returns (result: DigitsResult, buf: seq<char>, exp: int)
    requires Scale(one) && 0 < v / one < 0x1_0000_0000
    ensures result != More
    ensures var place := RequestedPlace(GrisuCountDigits(v / one), precision, exp10, fixed);
            && (result == Done ==> AllDigits(buf))
            && (result == Done ==> (NearestToAll(v, one, place, DecimalValue(buf)) <==> place >= -19))
            && (result == Done <==> Decided(v, one, place))
            && (result == Done ==> DecimalValue(buf) == RoundedAt(v, one, place))
            && (place < GrisuCountDigits(v / one)
                ==> exp == place && (result == Done ==> Sized(buf, GrisuCountDigits(v / one) - place)))
            && (place >= GrisuCountDigits(v / one)
                ==> && exp == GrisuCountDigits(v / one) && (exp < place ==> buf == [])
                    && (exp == place && result == Done ==> buf == "0" || buf == "1"))
  {
    var handler := new FixedHandler(precision, exp10, fixed);
    exp := GrisuCountDigits(v / one);
    StartFits(v, one);
    result := handler.OnStart(Pow(10, exp - 1) * one, v / 10, 10, exp);
    if result == More {
      FixedStart(v, one);
      result, exp := IntegralDigits(v, one, handler, exp);
      if result == More {
        result, exp := FixedFraction(v, one, handler, v % one);
      }
    } else {
      StartSettles(v, one, RequestedPlace(exp, precision, exp10, fixed));
    }
    buf := handler.buf;
  }

  /** The first loop: the digits of the integral part. */
  method IntegralDigits(v: U64, one: nat, handler: FixedHandler, kappa: nat)
    returns (result: DigitsResult, exp: nat)
    requires Scale(one) && kappa >= 1 && LeadingPower(v, one, kappa)
    requires handler.buf == [] && FixedState(v, one, kappa, [], v / one)
    modifies handler`buf
    ensures AllDigits(handler.buf)
    ensures result == More
        ==> |handler.buf| == kappa < handler.precision && Led(handler.buf)
            && AtPlace(v, one, 0, DecimalValue(handler.buf), v % one)
    ensures result != More
        ==> exp == kappa - (if handler.precision >= 1 then handler.precision else 1)
            && (result == Done <==> SettlesAt(v, one, exp))
    ensures result == Done
        ==> NearestToAll(v, one, exp, DecimalValue(handler.buf))
            && DecimalValue(handler.buf) == RoundedAt(v, one, exp) && Sized(handler.buf, kappa - exp)
  {
    var integral: nat := v / one;
    exp := kappa;
    result := More;
    while exp > 0
      invariant 0 <= exp <= kappa && FixedState(v, one, exp, handler.buf, integral)
      invariant result == More && (exp >= 1 ==> LeadingPower(v, one, exp))
      invariant |handler.buf| == kappa - exp
      invariant handler.buf == [] || |handler.buf| < handler.precision
    {
      result, integral := TakeIntegralDigit(v, one, handler, exp, integral);
      exp := exp - 1;
      if result != More {
        return;
      }
    }
    FixedMiddle(v, one, handler.buf, integral);
  }

  ghost predicate FixedState(v: U64, one: nat, exp: nat, buf: seq<char>, integral: nat)
    requires one > 0
  {
    Integral(v, one, exp, DecimalValue(buf), integral) && AllDigits(buf) && DecimalValue(buf) >= 0 && Led(buf)
  }

  lemma FixedStart(v: U64, one: nat)
    requires Scale(one) && 0 < v / one < 0x1_0000_0000
    ensures FixedState(v, one, GrisuCountDigits(v / one), [], v / one)
    ensures GrisuCountDigits(v / one) >= 1 && LeadingPower(v, one, GrisuCountDigits(v / one))
  {
    IntegralStart(v, one);
    CountedDigits(v / one);
    CountedPower(v, one, GrisuCountDigits(v / one));
  }

  lemma FixedMiddle(v: U64, one: nat, buf: seq<char>, integral: nat)
    requires one > 0 && FixedState(v, one, 0, buf, integral)
    ensures AtPlace(v, one, 0, DecimalValue(buf), v % one)
  {
    IntegralPlace(v, one, 0, DecimalValue(buf), integral);
    MulOne(one);
  }

  method TakeIntegralDigit(v: U64, one: nat, handler: FixedHandler, place: nat, integral: nat)
    returns (result: DigitsResult, rest: nat)
    requires Scale(one) && place >= 1 && LeadingPower(v, one, place)
    requires FixedState(v, one, place, handler.buf, integral)
    modifies handler`buf
    ensures AllDigits(handler.buf)
    ensures result == More <==> |old(handler.buf)| + 1 < handler.precision
    ensures result == More
        ==> |handler.buf| == |old(handler.buf)| + 1
            && FixedState(v, one, place - 1, handler.buf, rest)
            && (place >= 2 ==> LeadingPower(v, one, place - 1))
    ensures result != More ==> (result == Done <==> SettlesAt(v, one, place - 1))
    ensures result == Done
        ==> NearestToAll(v, one, place - 1, DecimalValue(handler.buf))
            && DecimalValue(handler.buf) == RoundedAt(v, one, place - 1)
            && Sized(handler.buf, |old(handler.buf)| + 1)
  {
    ghost var before := handler.buf;
    var digit: nat;
    digit, rest := IntegralDigit(integral, place);
    var next := '0' + (digit as char);
    ghost var d := DecimalValue(before + [next]);
    FixedTurn(v, one, place, before, integral, digit, rest);
    var divisor, remainder := Pow(10, place - 1) * one, rest * one + v % one;
    result := handler.OnDigit(next, divisor, remainder, 1, true);
    if result != More {
      Concluded(v, one, place - 1, d, remainder, result == Done, DecimalValue(handler.buf));
    }
  }

  /** One turn of the first loop, as the handler sees it. */
  lemma FixedTurn(v: U64, one: nat, place: nat, before: seq<char>, integral: nat, digit: nat, rest: nat)
    requires Scale(one) && place >= 1 && LeadingPower(v, one, place) && digit <= 9
    requires FixedState(v, one, place, before, integral)
    requires rest < Pow(10, place - 1) && integral == Mul(digit, Pow(10, place - 1)) + rest
    ensures place >= 2 ==> LeadingPower(v, one, place - 1)
    ensures FixedState(v, one, place - 1, before + ['0' + (digit as char)], rest)
    ensures (before + ['0' + (digit as char)])[0] != '0'
    ensures var divisor, remainder := Pow(10, place - 1) * one, rest * one + v % one;
            && 0 <= remainder < divisor <= v && divisor > 2 && Weight(one, place - 1) == divisor
            && AtPlace(v, one, place - 1, DecimalValue(before + ['0' + (digit as char)]), remainder)
    ensures TrackedError(place - 1) == 1
  {
    DigitAppended(before, before + ['0' + (digit as char)], digit, 0);
    LeadingDigitIsSome(v, one, place, before, integral, digit, rest);
    IntegralTurn(v, one, place, DecimalValue(before), integral, digit, rest);
    WeightAtLeastOne(one, place - 1);
    MulIs(Pow(10, place - 1), one);
    TimesMonotone(1, Pow(10, place - 1), one);
  }

  /** The second loop: nothing but the requested size stops it. */
  method FixedFraction(v: U64, one: nat, handler: FixedHandler, fraction0: nat)
    returns (result: DigitsResult, exp: int)
    requires Scale(one) && AllDigits(handler.buf) && 1 <= |handler.buf| < handler.precision && Led(handler.buf)
    requires AtPlace(v, one, 0, DecimalValue(handler.buf), fraction0)
    modifies handler`buf
    ensures result != More && exp == |old(handler.buf)| - handler.precision
    ensures result == Done ==> AllDigits(handler.buf) && Sized(handler.buf, handler.precision)
    ensures result == Done
        ==> (NearestToAll(v, one, exp, DecimalValue(handler.buf)) <==> exp >= -19)
            && DecimalValue(handler.buf) == RoundedAt(v, one, exp)
    ensures result == Done <==> SettlesAt(v, one, exp)
  {
    var fractional, error: U64 := fraction0, 1;
    exp := 0;
    ghost var size := |handler.buf|;
    result := More;
    while result == More
      invariant exp <= 0 && error == TrackedError(exp)
      invariant result == More
            ==> && AllDigits(handler.buf) && |handler.buf| == size - exp < handler.precision && Led(handler.buf)
                && AtPlace(v, one, exp, DecimalValue(handler.buf), fractional)
      invariant result != More ==> exp == size - handler.precision
      invariant result == Done ==> AllDigits(handler.buf) && Sized(handler.buf, handler.precision)
      invariant result == Done
            ==> (NearestToAll(v, one, exp, DecimalValue(handler.buf)) <==> exp >= -19)
                && DecimalValue(handler.buf) == RoundedAt(v, one, exp)
      invariant result != More ==> (result == Done <==> SettlesAt(v, one, exp))
      decreases (if result == More then 1 else 0), handler.precision - size + exp
    {
      result, fractional := TakeFractionDigit(v, one, handler, exp, fractional, error);
      ErrorStep(exp);
      error := error * 10 % TWO_64;
      exp := exp - 1;
    }
  }

  method TakeFractionDigit(v: U64, one: nat, handler: FixedHandler, place: int, fraction: nat,
                           error0: U64)
    returns (result: DigitsResult, fractional: nat)
    requires Scale(one) && place <= 0 && error0 == TrackedError(place)
    requires AllDigits(handler.buf) && |handler.buf| >= 1 && Led(handler.buf)
    requires AtPlace(v, one, place, DecimalValue(handler.buf), fraction)
    modifies handler`buf
    ensures AllDigits(handler.buf)
    ensures result == More <==> |old(handler.buf)| + 1 < handler.precision
    ensures result == More
        ==> |handler.buf| == |old(handler.buf)| + 1
            && AtPlace(v, one, place - 1, DecimalValue(handler.buf), fractional) && Led(handler.buf)
    ensures result != More ==> (result == Done <==> SettlesAt(v, one, place - 1))
    ensures result == Done
        ==> (NearestToAll(v, one, place - 1, DecimalValue(handler.buf)) <==> place - 1 >= -19)
            && DecimalValue(handler.buf) == RoundedAt(v, one, place - 1)
            && Sized(handler.buf, |old(handler.buf)| + 1)
  {
    ghost var before := handler.buf;
    FractionStep(v, one, place, DecimalValue(before), fraction);
    ErrorStep(place);
    var digit := fraction * 10 / one;
    fractional := fraction * 10 % one;
    ghost var d := 10 * DecimalValue(before) + digit;
    DigitAppended(before, before + ['0' + (digit as char)], digit, 0);
    result := handler.OnDigit('0' + (digit as char), one, fractional, error0 * 10 % TWO_64, false);
    if result != More {
      Concluded(v, one, place - 1, d, fractional, result == Done, DecimalValue(handler.buf));
    }
  }

  /** What a decision at place exp says, given how the handler rounded the digits. */
  lemma Concluded(v: nat, one: nat, exp: int, digits: int, remainder: int, done: bool, d: int)
    requires Scale(one) && AtPlace(v, one, exp, digits, remainder)
    requires done <==> Settles(Weight(one, exp), remainder, TrackedError(exp))
    requires done
         ==> d - digits == if 2 * (remainder + TrackedError(exp)) <= Weight(one, exp) then 0 else 1
    ensures done <==> SettlesAt(v, one, exp)
    ensures done ==> (NearestToAll(v, one, exp, d) <==> exp >= -19) && d == RoundedAt(v, one, exp)
  {
    PlaceRemainder(v, one, exp, digits, remainder);
    if done {
      SettledIsRounded(v, one, exp, digits, remainder, TrackedError(exp));
      if exp >= -19 {
        SettledIsNearest(v, one, exp, digits, remainder);
      } else {
        TooManyDigits(v, one, exp, d);
      }
    }
  }

  // ---------- requests that end before the first digit ----------

  lemma StartFits(v: U64, one: nat)
    requires Scale(one) && 0 < v / one < 0x1_0000_0000
    ensures var kappa := GrisuCountDigits(v / one);
            && kappa >= 1
            && one <= Pow(10, kappa - 1) * one <= v < 10 * (Pow(10, kappa - 1) * one)
            && Weight(one, kappa) == 10 * (Pow(10, kappa - 1) * one)
  {
    var kappa := GrisuCountDigits(v / one);
    CountedDigits(v / one);
    var p := Pow(10, kappa - 1);
    assert Pow(10, kappa) == 10 * p;
    DivisionFact(v, one);
    LeadingPlace(v, one, v / one, v % one, p);
  }

  lemma LeadingPlace(v: int, one: int, integral: int, fractional: int, p: int)
    requires v == integral * one + fractional && 0 <= fractional < one && 1 <= p <= integral < 10 * p
    ensures one <= p * one <= v < 10 * (p * one)
    ensures 10 * p * one == 10 * (p * one)
  {
    TimesMonotone(1, p, one);
    TimesMonotone(p, integral, one);
    TimesMonotone(integral + 1, 10 * p, one);
    TimesAssoc(10, p, one);
    Distribute(integral, 1, one);
  }

  /** Zero, or one unit of the place above the first digit, is nearest when reported. */
  lemma StartSettles(v: U64, one: nat, place: int)
    requires Scale(one) && 0 < v / one < 0x1_0000_0000 && place >= GrisuCountDigits(v / one)
    ensures place > GrisuCountDigits(v / one) ==> NearestToAll(v, one, place, 0) && RoundedAt(v, one, place) == 0
    ensures place == GrisuCountDigits(v / one)
        ==> var w := Pow(10, place - 1) * one;
            && (2 * (v / 10 + 10) <= w ==> NearestToAll(v, one, place, 0) && RoundedAt(v, one, place) == 0)
            && (2 * (v / 10 - 10) >= w ==> NearestToAll(v, one, place, 1) && RoundedAt(v, one, place) == 1)
    ensures DecimalValue([]) == 0 && DecimalValue("0") == 0 && DecimalValue("1") == 1
  {
    var kappa := GrisuCountDigits(v / one);
    StartFits(v, one);
    if place > kappa {
      WeightAbove(one, kappa, place);
    }
    SmallRounded(v, one, place);
    SmallNearest(v, one, place);
    assert "0"[..0] == [] && "1"[..0] == [];
  }

  lemma SmallNearest(v: nat, one: nat, place: nat)
    requires v < Weight(one, place)
    ensures 2 * (v + 1) <= Weight(one, place) ==> NearestToAll(v, one, place, 0)
    ensures 2 * (v - 1) >= Weight(one, place) ==> NearestToAll(v, one, place, 1)
  {
    MulOne(v);
    MulOne(Weight(one, place));
  }

  /** Ten times the weight for each place above. */
  lemma WeightAbove(one: nat, kappa: nat, place: nat)
    requires kappa < place
    ensures Weight(one, place) >= 10 * Weight(one, kappa)
  {
    PowMonotone(10, kappa + 1, place);
    MulMonotone(Pow(10, kappa + 1), Pow(10, place), one);
    TimesTen(one, kappa);
    MulCommutes(one, Pow(10, kappa + 1));
    MulCommutes(one, Pow(10, kappa));
  }

  lemma SmallRounded(v: nat, one: nat, place: nat)
    requires one > 0 && v < Weight(one, place)
    ensures RoundedAt(v, one, place) == if 2 * v <= Weight(one, place) then 0 else 1
  {
    MulOne(v);
    MulIs(0, Weight(one, place));
    QuotientIs(v, Weight(one, place), 0);
  }

  /** From sixty-four places on every direction is reported as settled, although no digits are
      right for all that the value may stand for. */
  lemma WrappedErrorIsReported(v: nat, one: nat, exp: int)
    requires Scale(one) && exp <= -64
    ensures SettlesAt(v, one, exp) && forall d :: !NearestToAll(v, one, exp, d)
  {
    ErrorVanishes(v, one, exp);
    forall d
      ensures !NearestToAll(v, one, exp, d)
    {
      TooManyDigits(v, one, exp, d);
    }
  }
}
