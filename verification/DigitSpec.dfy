/**
 What a printed decimal means, independently of how it is computed. A number is given
 scaled as n / s, its rounding interval as (n - below) / s to (n + above) / s, and a
 candidate with k digits after the first is an integer d standing for d / 10^k.
 */
module DigitSpec {
  import opened Powers

  datatype Scaled = Scaled(n: nat, s: nat, below: nat, above: nat,
                           lowerTies: bool, upperTies: bool)
  {
    ghost predicate Valid() {
      s > 0 && 0 < below < n && above > 0
    }

    /** The digits of n / s up to k places after the first, as one number. */
    ghost function Quotient(k: nat): nat
      requires s > 0
    {
      Mul(n, Pow(10, k)) / s
    }

    ghost function Remainder(k: nat): nat
      requires s > 0
    {
      Mul(n, Pow(10, k)) % s
    }

    /** d / 10^k lies in the rounding interval. */
    ghost predicate Inside(d: int, k: nat) {
      && (Mul(d, s) > Mul(n, Pow(10, k)) - Mul(below, Pow(10, k))
          || (lowerTies && Mul(d, s) == Mul(n, Pow(10, k)) - Mul(below, Pow(10, k))))
      && (Mul(d, s) < Mul(n, Pow(10, k)) + Mul(above, Pow(10, k))
          || (upperTies && Mul(d, s) == Mul(n, Pow(10, k)) + Mul(above, Pow(10, k))))
    }

    /** Truncating after k places stays inside. */
    ghost predicate Low(k: nat)
      requires s > 0
    {
      Remainder(k) < Mul(below, Pow(10, k)) || (lowerTies && Remainder(k) == Mul(below, Pow(10, k)))
    }

    /** Rounding up after k places stays inside. */
    ghost predicate High(k: nat)
      requires s > 0
    {
      Remainder(k) + Mul(above, Pow(10, k)) > s
      || (upperTies && Remainder(k) + Mul(above, Pow(10, k)) == s)
    }

    /** The distance of d / 10^k from the number, in units of 1 / (s * 10^k). */
    ghost function Distance(d: int, k: nat): int {
      if Mul(d, s) <= Mul(n, Pow(10, k)) then Mul(n, Pow(10, k)) - Mul(d, s) else Mul(d, s) - Mul(n, Pow(10, k))
    }

    /** d at k places is the answer: inside, no coarser candidate is inside, and no other
        candidate inside is nearer; a tie goes to the even one. */
    ghost predicate Best(d: int, k: nat) {
      && Inside(d, k)
      && (forall k', d' :: 0 <= k' < k ==> !Inside(d', k'))
      && (forall d' :: Inside(d', k) ==> Distance(d, k) <= Distance(d', k))
      && (forall d' :: Inside(d', k) && d' != d && Distance(d', k) == Distance(d, k)
                   ==> d % 2 == 0)
    }
  }

  lemma QuotientRemainder(x: Scaled, k: nat)
    requires x.s > 0
    ensures Mul(x.n, Pow(10, k)) == Mul(x.Quotient(k), x.s) + x.Remainder(k)
    ensures 0 <= x.Remainder(k) < x.s
  {
    MulIs(x.n, Pow(10, k));
    DivisionFact(Mul(x.n, Pow(10, k)), x.s);
  }

  lemma LowIsInside(x: Scaled, k: nat)
    requires x.Valid()
    ensures x.Low(k) <==> x.Inside(x.Quotient(k), k)
    ensures x.High(k) <==> x.Inside(x.Quotient(k) + 1, k)
  {
    QuotientRemainder(x, k);
    MulNext(x.Quotient(k), x.s);
    MarginsPositive(x, k);
  }

  lemma MarginsPositive(x: Scaled, k: nat)
    requires x.Valid()
    ensures Mul(x.above, Pow(10, k)) > 0 && Mul(x.below, Pow(10, k)) > 0
  {
    MulOne(Pow(10, k));
    MulStrict(0, x.above, Pow(10, k));
    MulStrict(0, x.below, Pow(10, k));
  }

  /** Candidates below the truncation, or above the next one, are inside only if it is. */
  lemma InsideIsConvex(x: Scaled, d: int, k: nat)
    requires x.Valid() && x.Inside(d, k)
    ensures d <= x.Quotient(k) ==> x.Low(k)
    ensures d > x.Quotient(k) ==> x.High(k)
  {
    QuotientRemainder(x, k);
    MulNext(x.Quotient(k), x.s);
    MarginsPositive(x, k);
    if d <= x.Quotient(k) {
      MulMonotone(d, x.Quotient(k), x.s);
    } else {
      MulMonotone(x.Quotient(k) + 1, d, x.s);
    }
  }

  /** Which of the two neighbours the digit loop settles on. */
  predicate RoundsUp(low: bool, high: bool, twice: int, odd: bool)
    requires low || high
  {
    !low || (high && (twice > 0 || (twice == 0 && odd)))
  }

  /** The choice of the digit loop is the best candidate, for every scaled number. */
  lemma ChoiceIsBest(x: Scaled, k: nat, twice: int)
    requires x.Valid() && (x.Low(k) || x.High(k))
    requires forall k' :: 0 <= k' < k ==> !x.Low(k') && !x.High(k')
    requires (twice > 0 <==> 2 * x.Remainder(k) > x.s) && (twice == 0 <==> 2 * x.Remainder(k) == x.s)
    ensures var q := x.Quotient(k);
            x.Best(if RoundsUp(x.Low(k), x.High(k), twice, q % 2 != 0) then q + 1 else q, k)
  {
    var q := x.Quotient(k);
    var d := if RoundsUp(x.Low(k), x.High(k), twice, q % 2 != 0) then q + 1 else q;
    LowIsInside(x, k);
    forall k', d' | 0 <= k' < k
      ensures !x.Inside(d', k')
    {
      if x.Inside(d', k') {
        InsideIsConvex(x, d', k');
      }
    }
    forall d' | x.Inside(d', k)
      ensures x.Distance(d, k) <= x.Distance(d', k)
      ensures d' != d && x.Distance(d', k) == x.Distance(d, k) ==> d % 2 == 0
    {
      InsideIsConvex(x, d', k);
      NearestOfTwo(x, k, d, d');
    }
  }

  lemma NearestOfTwo(x: Scaled, k: nat, d: int, d': int)
    requires x.Valid()
    requires d == x.Quotient(k) || d == x.Quotient(k) + 1
    requires d == x.Quotient(k) && d' > d ==> 2 * x.Remainder(k) <= x.s
    requires d == x.Quotient(k) && d' > d && 2 * x.Remainder(k) == x.s ==> d % 2 == 0
    requires d == x.Quotient(k) + 1 && d' < d ==> 2 * x.Remainder(k) >= x.s
    requires d == x.Quotient(k) + 1 && d' < d && 2 * x.Remainder(k) == x.s ==> d % 2 == 0
    ensures x.Distance(d, k) <= x.Distance(d', k)
    ensures d' != d && x.Distance(d', k) == x.Distance(d, k) ==> d % 2 == 0
  {
    QuotientRemainder(x, k);
    var q := x.Quotient(k);
    MulNext(q, x.s);
    if d' <= q {
      MulMonotone(d', q, x.s);
      if d' < q {
        MulMonotone(d' + 1, q, x.s);
        MulNext(d', x.s);
      }
    } else {
      MulMonotone(q + 1, d', x.s);
      if d' > q + 1 {
        MulMonotone(q + 2, d', x.s);
        MulAdd(q, 2, x.s);
        MulIs(2, x.s);
      }
    }
  }

  // ---------- digits ----------

  /** The number a run of digit characters spells. */
  function DecimalValue(digits: seq<char>): int {
    if |digits| == 0 then 0
    else 10 * DecimalValue(digits[..|digits| - 1]) + (digits[|digits| - 1] as int - '0' as int)
  }

  predicate IsDigit(c: char) {
    '0' <= c <= '9'
  }

  predicate AllDigits(digits: seq<char>) {
    forall i :: 0 <= i < |digits| ==> IsDigit(digits[i])
  }

  lemma DecimalSnoc(digits: seq<char>, c: char)
    ensures DecimalValue(digits + [c]) == 10 * DecimalValue(digits) + (c as int - '0' as int)
  {
    assert (digits + [c])[..|digits|] == digits;
  }

  lemma TimesTen(m: int, k: nat)
    ensures Mul(m, Pow(10, k + 1)) == 10 * Mul(m, Pow(10, k))
  {
    MulIs(10, Pow(10, k));
    MulAssoc(m, 10, Pow(10, k));
    MulIs(m, 10);
    MulAssoc(10, m, Pow(10, k));
    MulIs(10, m);
    MulIs(10, Mul(m, Pow(10, k)));
  }

  /** One more digit: the remainder times ten gives the next digit and remainder. */
  lemma NextDigit(x: Scaled, k: nat, q: nat, r: nat)
    requires x.s > 0 && 10 * x.Remainder(k) == Mul(q, x.s) + r && r < x.s
    ensures q <= 9
    ensures x.Quotient(k + 1) == 10 * x.Quotient(k) + q && x.Remainder(k + 1) == r
  {
    QuotientRemainder(x, k);
    QuotientRemainder(x, k + 1);
    TimesTen(x.n, k);
    TenQuotients(x.Quotient(k), q, x.s);
    UniqueDivision(x.Quotient(k + 1), 10 * x.Quotient(k) + q, x.s, x.Remainder(k + 1), r);
    if q >= 10 {
      MulMonotone(10, q, x.s);
      MulIs(10, x.s);
    }
  }

  lemma TenQuotients(a: int, q: int, s: int)
    ensures Mul(10 * a + q, s) == 10 * Mul(a, s) + Mul(q, s)
  {
    MulAdd(10 * a, q, s);
    MulAssoc(10, a, s);
    MulIs(10, a);
    MulIs(10, Mul(a, s));
  }

  /** A nine is never rounded up when the place before could not be. */
  lemma NoCarryOutOfNine(x: Scaled, k: nat)
    requires x.Valid() && x.High(k + 1) && !x.High(k)
    ensures x.Quotient(k + 1) - 10 * x.Quotient(k) < 9
  {
    QuotientRemainder(x, k);
    QuotientRemainder(x, k + 1);
    var q := x.Quotient(k + 1) - 10 * x.Quotient(k);
    TimesTen(x.n, k);
    TimesTen(x.above, k);
    TenQuotients(x.Quotient(k), q, x.s);
    MulEqual(10 * x.Quotient(k) + q, x.Quotient(k + 1), x.s);
    if q >= 9 {
      MulMonotone(9, q, x.s);
      MulIs(9, x.s);
    }
  }
}
