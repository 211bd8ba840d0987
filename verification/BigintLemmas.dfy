/**
 What the loops of the `bigint` operations establish, stated on the bigits they hold.
 */
module BigintLemmas {
  import opened Powers
  import opened Bigits
  import opened BigitLemmas

  const MAX_BIGITS := 0x4000_0000 // twice this many still fits an int

  type DoubleBigit = U64

  // ---------- subtraction ----------

  lemma AlignedFits(s: seq<Bigit>, e: nat, t: seq<Bigit>, te: nat)
    requires Normalized(s) && Normalized(t) && te >= e
    requires 0 < Denotes(t, te) <= Denotes(s, e)
    ensures te - e + |t| <= |s|
    ensures Mul(Val(t), B(te - e)) <= Val(s)
  {
    BAdd(te - e, e);
    MulAssoc(Val(t), B(te - e), B(e));
    MulCancel(Val(s), Mul(Val(t), B(te - e)), B(e));
    if |t| + te > |s| + e {
      ZeroOrMore(t, te, s, e);
    }
  }

  /** Writing the first bigit of the last part moves it to the middle part. */
  lemma BigitReplaced(s: seq<Bigit>, before: seq<Bigit>, off: nat, i: nat, mid: seq<Bigit>, x: Bigit)
    requires off + |mid| == i < |s| == |before| && before == s[..off] + mid + s[i..]
    ensures before[i] == s[i]
    ensures before[i := x] == s[..off] + (mid + [x]) + s[i + 1..]
  {
    assert s[i..] == [s[i]] + s[i + 1..];
  }

  /** After j columns: mid has taken the place of the bigits of s from off on, and makes up
      their difference with those of t. */
  ghost predicate Subtracted(s: seq<Bigit>, now: seq<Bigit>, off: nat, t: seq<Bigit>, j: nat, mid: seq<Bigit>,
                             borrow: nat) {
    && |mid| == j <= |t| && off + |t| <= |s| == |now| && now == s[..off] + mid + s[off + j..]
    && Val(mid) == Val(s[off..off + j]) - Val(t[..j]) + Mul(borrow, B(j))
  }

  lemma SubtractStep(s: seq<Bigit>, now: seq<Bigit>, off: nat, t: seq<Bigit>, j: nat, mid: seq<Bigit>, x: Bigit,
                     borrow: nat, borrow': nat)
    requires Subtracted(s, now, off, t, j, mid, borrow) && j < |t|
    requires x - borrow' * BASE == now[off + j] - t[j] - borrow
    ensures Subtracted(s, now[off + j := x], off, t, j + 1, mid + [x], borrow')
  {
    BigitReplaced(s, now, off, off + j, mid, x);
    TakeOfDrop(s, off, j);
    TakeOfDrop(s, off, j + 1);
    BorrowStep(s[off..], mid, t, x, j, borrow, borrow');
  }

  lemma TakeOfDrop(s: seq<Bigit>, off: nat, j: nat)
    requires off + j <= |s|
    ensures s[off..][..j] == s[off..off + j]
  {
  }

  lemma BorrowOut(slice: seq<Bigit>, t: seq<Bigit>, mid: seq<Bigit>, borrow: nat)
    requires |slice| == |t| == |mid| && borrow <= 1
    requires Val(mid) == Val(slice) - Val(t) + Mul(borrow, B(|t|))
    ensures borrow == 1 <==> Val(slice) < Val(t)
  {
    ValBound(mid);
    MulOne(B(|t|));
  }

  lemma BorrowFits(s: seq<Bigit>, t: seq<Bigit>, off: nat)
    requires off + |t| == |s| && Mul(Val(t), B(off)) <= Val(s)
    ensures Val(s[off..]) >= Val(t)
  {
    ValSplit(s, off);
    ValBound(s[..off]);
    HighPartBound(Val(s), Val(s[..off]), Val(s[off..]), Val(t), B(off));
  }

  lemma HighPartBound(v: nat, low: nat, h: nat, t: nat, p: nat)
    requires v == low + Mul(h, p) && low < p && Mul(t, p) <= v
    ensures t <= h
  {
    if h < t {
      MulMonotone(h + 1, t, p);
      MulNext(h, p);
    }
  }

  /** The value once the middle part b has been replaced by its difference with t. */
  lemma PartReplaced(a: seq<Bigit>, b: seq<Bigit>, b': seq<Bigit>, c: seq<Bigit>,
                     t: int, owed: nat, i: nat)
    requires |b| == |b'| && i == |a| + |b| && Val(b') == Val(b) - t + Mul(owed, B(|b|))
    ensures Val(a + b' + c) == Val(a + b + c) - Mul(t, B(|a|)) + Mul(owed, B(i))
  {
    ThreeParts(a, b, c, i);
    ThreeParts(a, b', c, i);
    BAdd(|b|, |a|);
    SliceArithmetic(Val(b), Val(b'), t, owed, B(|b|), B(|a|), B(i));
  }

  lemma SliceArithmetic(x: int, x': int, t: int, owed: int, q: int, p: int, w: int)
    requires x' == x - t + Mul(owed, q) && w == Mul(q, p)
    ensures Mul(x', p) == Mul(x, p) - Mul(t, p) + Mul(owed, w)
  {
    MulAdd(x - t, Mul(owed, q), p);
    MulSub(x, t, p);
    MulAssoc(owed, q, p);
  }

  lemma ScaledDifference(s: nat, t: nat, k: nat, off: nat, i: nat, e: nat)
    ensures Mul(s - Mul(t, B(off)) + Mul(k, B(i)), B(e))
         == Mul(s, B(e)) - Mul(t, B(off + e)) + Mul(k, B(i + e))
  {
    MulAdd(s - Mul(t, B(off)), Mul(k, B(i)), B(e));
    MulSub(s, Mul(t, B(off)), B(e));
    BAdd(off, e);
    BAdd(i, e);
    MulAssoc(t, B(off), B(e));
    MulAssoc(k, B(i), B(e));
  }

  /** What an aligned subtraction knows once its first loop is done: whether bigit i can
      pay the borrow. */
  lemma AfterFirstLoop(s: seq<Bigit>, off: nat, t: seq<Bigit>, mid: seq<Bigit>, owed: nat)
    requires off + |t| <= |s| && Mul(Val(t), B(off)) <= Val(s) && owed <= 1
    requires |mid| == |t| && Val(mid) == Val(s[off..off + |t|]) - Val(t) + Mul(owed, B(|t|))
    ensures owed == 1 ==> off + |t| < |s|
    ensures owed == 1 && s[off + |t|] == 0 <==> BorrowStalls(s, off, t)
  {
    BorrowOut(s[off..off + |t|], t, mid, owed);
    if off + |t| == |s| {
      assert s[off..] == s[off..off + |t|];
      BorrowFits(s, t, off);
    }
  }

  /** The number an aligned subtraction leaves once the borrow is paid; stalled says that
      the bigit above the middle part b was zero. */
  lemma AfterBorrow(a: seq<Bigit>, b: seq<Bigit>, c: seq<Bigit>, e: nat, t: seq<Bigit>,
                    mid: seq<Bigit>, owed: nat, stalled: bool, v: int)
    requires |b| == |mid| == |t| && Val(mid) == Val(b) - Val(t) + Mul(owed, B(|t|))
    requires owed <= 1 && (stalled ==> owed == 1)
    requires v == Val(a + mid + c) + (if owed == 0 then 0
                                      else if stalled then (BASE - 2) * B(|a| + |t|)
                                      else 0 - B(|a| + |t|))
    ensures Mul(v, B(e)) == Denotes(a + b + c, e) - Denotes(t, |a| + e)
                          + (if stalled then (BASE - 1) * B(|a| + |t| + e) else 0)
  {
    var i := |a| + |t|;
    var excess := if stalled then BASE - 1 else 0;
    PartReplaced(a, b, mid, c, Val(t), owed, i);
    BorrowPaid(Val(a + mid + c), owed, stalled, excess, B(i));
    BorrowPaid(0, 0, stalled, excess, B(i + e));
    ScaledDifference(Val(a + b + c), Val(t), excess, |a|, i, e);
    assert v == Val(a + b + c) - Mul(Val(t), B(|a|)) + Mul(excess, B(i));
  }

  lemma BorrowPaid(v: int, owed: nat, stalled: bool, excess: nat, p: nat)
    requires owed <= 1 && excess == if stalled then BASE - 1 else 0
    ensures Mul(excess, p) == if stalled then (BASE - 1) * p else 0
    ensures Mul(owed, p) == if owed == 0 then 0 else p
  {
    MulIs(BASE - 1, p);
    MulOne(p);
  }

  // ---------- multiplication ----------

  lemma MultiplyStep(s: seq<Bigit>, r: seq<Bigit>, i: nat, value: nat, carry: nat, carry': nat)
    requires i < |s| == |r|
    requires Val(r[..i]) + Mul(carry, B(i)) == Mul(Val(s[..i]), value)
    requires r[i] + carry' * BASE == (s[i] as int) * value + carry
    ensures Val(r[..i + 1]) + Mul(carry', B(i + 1)) == Mul(Val(s[..i + 1]), value)
  {
    ValTake(s, i);
    ValTake(r, i);
    MulIs(s[i], value);
    StepArithmetic(r[i], carry', Mul(s[i], value), carry, B(i));
    MulAdd(Val(s[..i]), Mul(s[i], B(i)), value);
    MulSwap(s[i], B(i), value);
  }

  lemma StepArithmetic(y: int, carry': nat, product: int, carry: int, p: nat)
    requires y + carry' * BASE == product + carry
    ensures Mul(y, p) + Mul(carry', BASE * p) == Mul(product, p) + Mul(carry, p)
  {
    MulAdd(y, BASE * carry', p);
    MulBase(carry', p);
    MulAdd(product, carry, p);
    MulEqual(y + BASE * carry', product + carry, p);
  }

  /** Multiplying one bigit by a 64-bit number through its two halves. */
  lemma WideStep(x: Bigit, value: DoubleBigit, lower: Bigit, upper: Bigit, carry: DoubleBigit)
    requires lower == value % BASE && upper == value / BASE
    ensures var result := (x as int) * lower + carry % BASE;
            var carry' := (x as int) * upper + result / BASE + carry / BASE;
            0 <= result < TWO_64 && 0 <= carry' < TWO_64
            && result % BASE + carry' * BASE == x * value + carry
  {
    ProductBound(x, lower);
    ProductBound(x, upper);
    assert value == lower + upper * BASE;
    Distribute(lower, (upper as int) * BASE, x);
    TimesAssoc(x, upper, BASE);
  }

  lemma SplitCarry(carry: nat, p: nat)
    ensures Mul(carry % BASE, p) + Mul(carry / BASE, BASE * p) == Mul(carry, p)
  {
    MulBase(carry / BASE, p);
    MulAdd(carry % BASE, BASE * (carry / BASE), p);
  }

  /** After a multiplication the top bigit, or the carry above it, is nonzero, and the
      result denotes the product. */
  lemma ProductTop(s: seq<Bigit>, value: nat, r: seq<Bigit>, carry: nat, e: nat)
    requires Normalized(s) && |r| == |s| && value > 0
    requires Val(r) + Mul(carry, B(|r|)) == Mul(Val(s), value)
    ensures carry == 0 ==> Normalized(r)
    ensures Mul(Val(r) + Mul(carry, B(|r|)), B(e)) == Denotes(s, e) * value
    ensures carry == 0 ==> Val(r) == Val(r) + Mul(carry, B(|r|))
  {
    MulSwap(Val(s), value, B(e));
    MulIs(Denotes(s, e), value);
    MulOne(B(|r|));
    if carry == 0 && |s| > 1 {
      TopWeight(s);
      MulCommutes(Val(s), value);
      MulMonotone(1, value, Val(s));
      MulOne(Val(s));
      TopNonzero(r);
    }
  }

  // ---------- shifting ----------

  lemma ShiftFactors(bits: nat)
    requires 0 < bits < 32
    ensures Pow(2, bits) * Pow(2, 32 - bits) == BASE
    ensures Pow(2, bits) > 1 && Pow(2, 32 - bits) > 1
  {
    PowersOfTwo();
    PowAdd(2, bits, 32 - bits);
    PowStrict(2, 0, bits);
    PowStrict(2, 0, 32 - bits);
  }

  lemma ShiftOneBigit(x: Bigit, factor: nat, cofactor: nat, carry: nat)
    requires factor > 1 && cofactor > 1 && factor * cofactor == BASE && carry < factor
    ensures 0 <= (x as int) * factor % BASE + carry < BASE
    ensures 0 <= x / cofactor < factor <= BASE
    ensures (x as int) * factor % BASE + carry + x / cofactor * BASE == (x as int) * factor + carry
  {
    var q, r := x / cofactor, x % cofactor;
    DivisionFact(x, cofactor);
    MulIs(q, cofactor);
    MulIs(factor, cofactor);
    if q >= factor {
      MulMonotone(factor, q, cofactor);
    }
    ShiftedProduct(q, cofactor, r, factor);
    MulIs(x, factor);
    QuotientIs(Mul(x, factor), BASE, q);
    MulIs(q, BASE);
    MulIs(1, factor);
    MulMonotone(1, cofactor, factor);
    MulCommutes(cofactor, factor);
  }

  lemma ShiftedProduct(q: nat, cofactor: nat, r: nat, factor: nat)
    requires r < cofactor && Mul(factor, cofactor) == BASE
    ensures Mul(Mul(q, cofactor) + r, factor) == Mul(q, BASE) + Mul(r, factor)
    ensures 0 <= Mul(r, factor) <= BASE - factor
  {
    MulAdd(Mul(q, cofactor), r, factor);
    MulAssoc(q, cofactor, factor);
    MulCommutes(cofactor, factor);
    MulMonotone(r + 1, cofactor, factor);
    MulNext(r, factor);
  }

  lemma WordShift(shift: nat, e: nat)
    ensures Mul(B(e + shift / 32), Pow(2, shift % 32)) == Mul(B(e), Pow(2, shift))
  {
    var q, r := shift / 32, shift % 32;
    PowersOfTwo();
    PowOfPow(2, 32, q);
    BIsPow(q);
    PowAdd(2, 32 * q, r);
    MulIs(B(q), Pow(2, r));
    BAdd(e, q);
    MulAssoc(B(e), B(q), Pow(2, r));
  }

  lemma ShiftedDenotes(s: seq<Bigit>, e: nat, r: seq<Bigit>, shift: nat)
    requires shift % 32 == 0 ==> r == s
    requires shift % 32 != 0
         ==> Denotes(r, e + shift / 32) == Denotes(s, e + shift / 32) * Pow(2, shift % 32)
    ensures Denotes(r, e + shift / 32) == Denotes(s, e) * Pow(2, shift)
  {
    var q, w := e + shift / 32, Pow(2, shift % 32);
    WordShift(shift, e);
    MulIs(Denotes(s, q), w);
    MulOne(Denotes(s, q));
    MulAssoc(Val(s), B(q), w);
    MulAssoc(Val(s), B(e), Pow(2, shift));
    MulIs(Denotes(s, e), Pow(2, shift));
  }

  // ---------- squaring and powers ----------

  lemma NextPair(n: seq<Bigit>, k: nat, i: nat)
    requires i < |n| < MAX_BIGITS && 0 <= k - i < |n|
    ensures Conv(n, k, i + 1) == Conv(n, k, i) + (n[i] as int) * n[k - i]
    ensures 0 <= (n[i] as int) * n[k - i] < TWO_64 && Conv(n, k, i + 1) < MAX_BIGITS * TWO_64
  {
    ProductBound(n[i], n[k - i]);
    ConvBound(n, k, i + 1);
  }

  lemma ColumnStep(n: seq<Bigit>, r: seq<Bigit>, k: nat, carry: nat, total: nat)
    requires k < |r| && total == carry + Conv(n, k, |n|) && r[k] == total % BASE
    requires Val(r[..k]) + Mul(carry, B(k)) == WeightedConv(n, k, |n|)
    ensures Val(r[..k + 1]) + Mul(total / BASE, B(k + 1)) == WeightedConv(n, k + 1, |n|)
  {
    ValTake(r, k);
    SplitCarry(total, B(k));
    MulAdd(carry, Conv(n, k, |n|), B(k));
  }

  lemma SquareComplete(n: seq<Bigit>, r: seq<Bigit>, sum: nat)
    requires |r| == 2 * |n|
    requires Val(r) + Mul(sum, B(|r|)) == WeightedConv(n, |r|, |n|)
    ensures Val(r) == Mul(Val(n), Val(n))
  {
    ConvolutionIsSquare(n);
    ValBound(n);
    MulMonotone(Val(n), B(|n|), Val(n));
    MulCommutes(B(|n|), Val(n));
    MulStrict(Val(n), B(|n|), B(|n|));
    BAdd(|n|, |n|);
    MulOne(B(|r|));
    if sum > 0 {
      MulMonotone(1, sum, B(|r|));
    }
  }

  lemma SquaredScale(v: nat, e: nat)
    ensures Mul(Mul(v, v), B(2 * e)) == Mul(v, B(e)) * Mul(v, B(e))
  {
    BAdd(e, e);
    MulAssoc(v, v, Mul(B(e), B(e)));
    MulAssoc(v, B(e), B(e));
    MulCommutes(v, Mul(Mul(v, B(e)), B(e)));
    MulSwap(Mul(v, B(e)), B(e), v);
    MulAssoc(Mul(v, B(e)), v, B(e));
    MulIs(Mul(v, B(e)), Mul(v, B(e)));
  }

  /** q is formed by the bits of a from the given one up. */
  ghost predicate Prefix(a: nat, log: nat, q: nat) {
    Mul(q, Pow(2, log)) <= a < Mul(q, Pow(2, log)) + Pow(2, log)
  }

  lemma TopPrefix(power: nat, log: nat)
    requires Pow(2, log) <= power < Pow(2, log + 1)
    ensures Prefix(power, log, 1)
  {
    MulOne(Pow(2, log));
  }

  /** Consuming one more bit of the exponent doubles the prefix and adds the bit. */
  lemma NextPrefix(power: nat, log: nat, q: nat, bitmask: nat)
    requires Prefix(power, log, q) && bitmask == Pow(2, log) / 2 != 0
    ensures log > 0 && bitmask == Pow(2, log - 1) && Prefix(power, log - 1, power / bitmask)
    ensures power / bitmask == 2 * q + power / bitmask % 2 && 2 * q <= power
  {
    DivisionFact(power, bitmask);
    HalvedDivisor(power, bitmask, 2 * bitmask, q, power / bitmask);
  }

  /** Halving the divisor doubles the quotient, or adds one more. */
  lemma HalvedDivisor(a: nat, h: nat, d: nat, q: nat, k: nat)
    requires h > 0 && d == 2 * h && Mul(q, d) <= a < Mul(q, d) + d && Mul(k, h) <= a < Mul(k, h) + h
    ensures k == 2 * q + k % 2 && 2 * q <= a
  {
    MulIs(2, h);
    MulAssoc(q, 2, h);
    MulIs(q, 2);
    MulNext(2 * q, h);
    MulNext(2 * q + 1, h);
    MulNext(k, h);
    MulCancel(2 * q, k + 1, h);
    MulCancel(k, 2 * q + 2, h);
    MulMonotone(1, h, 2 * q);
    MulOne(2 * q);
    MulCommutes(2 * q, h);
  }

  lemma NextPower(n: nat, odd: bool)
    ensures Pow(5, 2 * n + (if odd then 1 else 0))
         == Pow(5, n) * Pow(5, n) * (if odd then 5 else 1)
  {
    PowAdd(5, n, n);
    assert Pow(5, 2 * n + 1) == 5 * Pow(5, 2 * n);
  }

  lemma NoBitsLeft(power: nat, log: nat, q: nat)
    requires Pow(2, log) / 2 == 0 && Prefix(power, log, q)
    ensures log == 0 && q == power
  {
    MulOne(q);
  }

  lemma FiveFits(s: seq<Bigit>, n: nat)
    requires Normalized(s) && Denotes(s, 0) == Pow(5, n) && 2 * n < MAX_BIGITS
    ensures |s| < MAX_BIGITS
  {
    MulOne(Val(s));
    NormalizedRange(s);
    PowBaseMonotone(5, BASE, n);
    BIsPow(n);
    if |s| - 1 > n {
      BIsPow(|s| - 1);
      PowStrict(BASE, n, |s| - 1);
    }
  }

  // ---------- comparison and division ----------

  lemma SameSuffix(l: seq<Bigit>, r: seq<Bigit>, i: nat, j: nat)
    requires i < |l| && j < |r| && l[i] == r[j] && l[i + 1..] == r[j + 1..]
    ensures l[i..] == r[j..]
  {
    assert l[i..] == [l[i]] + l[i + 1..] && r[j..] == [r[j]] + r[j + 1..];
  }

  lemma SumTooShort(l1: seq<Bigit>, e1: nat, l2: seq<Bigit>, e2: nat, r: seq<Bigit>, e: nat)
    requires Normalized(r) && Denotes(r, e) > 0
    requires |l1| + e1 + 1 < |r| + e && |l2| + e2 + 1 < |r| + e
    ensures Denotes(l1, e1) + Denotes(l2, e2) < Denotes(r, e)
  {
    var m := |r| + e - 1;
    DenotesBelow(l1, e1, m - 1);
    DenotesBelow(l2, e2, m - 1);
    DenotesZero(r, e);
    DenotesAbove(r, e);
  }

  /** How much the bigits of r from position i up exceed those of the two summands. */
  ghost function HighGap(l1: seq<Bigit>, e1: nat, l2: seq<Bigit>, e2: nat,
                         r: seq<Bigit>, e: nat, i: nat): int
  {
    High(r, e, i) - High(l1, e1, i) - High(l2, e2, i)
  }

  /** One bigit further down the gap is a bigit larger, and a gap below zero or above one
      decides the comparison. */
  lemma GapStep(l1: seq<Bigit>, e1: nat, l2: seq<Bigit>, e2: nat, r: seq<Bigit>, e: nat, i: nat)
    ensures HighGap(l1, e1, l2, e2, r, e, i)
         == BASE * HighGap(l1, e1, l2, e2, r, e, i + 1)
          + GetBigit(r, e, i) - GetBigit(l1, e1, i) - GetBigit(l2, e2, i)
    ensures HighGap(l1, e1, l2, e2, r, e, i) < 0
        ==> Denotes(l1, e1) + Denotes(l2, e2) > Denotes(r, e)
    ensures HighGap(l1, e1, l2, e2, r, e, i) > 1
        ==> Denotes(l1, e1) + Denotes(l2, e2) < Denotes(r, e)
  {
    HighStep(l1, e1, i);
    HighStep(l2, e2, i);
    HighStep(r, e, i);
    HighBounds(l1, e1, i);
    HighBounds(l2, e2, i);
    HighBounds(r, e, i);
    GapArithmetic(High(l1, e1, i), High(l2, e2, i), High(r, e, i), B(i));
  }

  lemma GapArithmetic(h1: nat, h2: nat, h: nat, w: nat)
    ensures h1 + h2 > h ==> Mul(h1, w) + Mul(h2, w) >= Mul(h, w) + w
    ensures h1 + h2 + 1 < h ==> Mul(h1, w) + Mul(h2, w) + w + w <= Mul(h, w)
  {
    MulAdd(h1, h2, w);
    if h1 + h2 > h {
      MulMonotone(h + 1, h1 + h2, w);
      MulNext(h, w);
    }
    if h1 + h2 + 1 < h {
      MulMonotone(h1 + h2 + 2, h, w);
      MulAdd(h1 + h2, 2, w);
      MulIs(2, w);
    }
  }

  /** At and below the smallest exponent the bigits from position i up are the whole number. */
  lemma GapExact(l1: seq<Bigit>, e1: nat, l2: seq<Bigit>, e2: nat, r: seq<Bigit>, e: nat, i: nat)
    requires i <= e1 && i <= e2 && i <= e
    ensures Signum(Denotes(l1, e1) + Denotes(l2, e2) - Denotes(r, e))
         == Signum(-HighGap(l1, e1, l2, e2, r, e, i))
  {
    var h1, h2 := High(l1, e1, i), High(l2, e2, i);
    HighBounds(l1, e1, i);
    HighBounds(l2, e2, i);
    HighBounds(r, e, i);
    MulAdd(h1, h2, B(i));
    MulCancel(h1 + h2, High(r, e, i), B(i));
    MulCancel(High(r, e, i), h1 + h2, B(i));
  }

  /** The gaps at every position, and what each of them decides. */
  lemma AllGaps(l1: seq<Bigit>, e1: nat, l2: seq<Bigit>, e2: nat, r: seq<Bigit>, e: nat,
                minExp: nat)
    returns (gaps: seq<int>)
    requires |l1| + e1 <= |r| + e && |l2| + e2 <= |r| + e
    requires minExp <= e1 && minExp <= e2 && minExp <= e
    ensures |gaps| == |r| + e + 1 && gaps[|r| + e] == 0
    ensures forall i | 0 <= i < |r| + e ::
              && gaps[i] == BASE * gaps[i + 1]
                          + GetBigit(r, e, i) - GetBigit(l1, e1, i) - GetBigit(l2, e2, i)
              && (gaps[i] < 0 ==> Denotes(l1, e1) + Denotes(l2, e2) > Denotes(r, e))
              && (gaps[i] > 1 ==> Denotes(l1, e1) + Denotes(l2, e2) < Denotes(r, e))
    ensures Signum(Denotes(l1, e1) + Denotes(l2, e2) - Denotes(r, e)) == Signum(-gaps[minExp])
  {
    gaps := seq(|r| + e + 1, i requires i >= 0 => HighGap(l1, e1, l2, e2, r, e, i));
    forall i | 0 <= i < |r| + e
      ensures gaps[i] == BASE * gaps[i + 1]
                       + GetBigit(r, e, i) - GetBigit(l1, e1, i) - GetBigit(l2, e2, i)
      ensures gaps[i] < 0 ==> Denotes(l1, e1) + Denotes(l2, e2) > Denotes(r, e)
      ensures gaps[i] > 1 ==> Denotes(l1, e1) + Denotes(l2, e2) < Denotes(r, e)
    {
      GapStep(l1, e1, l2, e2, r, e, i);
    }
    GapExact(l1, e1, l2, e2, r, e, minExp);
  }

  /** The borrow of an aligned subtraction cannot stall when the quotient is small. */
  lemma NoStall(s: seq<Bigit>, e: nat, t: seq<Bigit>, te: nat)
    requires Normalized(s) && Normalized(t) && e <= te
    requires 0 < Denotes(t, te) <= Denotes(s, e) < TWO_31 * Denotes(t, te)
    ensures |s| + e <= |t| + te + 1
    ensures !BorrowStalls(s, te - e, t)
  {
    DenotesBelow(t, te, |t| + te);
    DenotesZero(s, e);
    DenotesAbove(s, e);
    if |s| + e > |t| + te + 1 {
      BMonotone(|t| + te + 1, |s| - 1 + e);
    }
  }

  lemma AlignedDenotes(s: seq<Bigit>, zeros: seq<Bigit>, e: nat)
    requires Normalized(s) && Denotes(s, e + |zeros|) > 0
    requires forall i :: 0 <= i < |zeros| ==> zeros[i] == 0
    ensures Normalized(zeros + s)
    ensures Denotes(zeros + s, e) == Denotes(s, e + |zeros|)
  {
    ValConcat(zeros, s);
    ValZeros(zeros);
    BAdd(|zeros|, e);
    MulAssoc(Val(s), B(|zeros|), B(e));
    DenotesZero(s, e + |zeros|);
    NormalizedRange(s);
    assert (zeros + s)[|zeros + s| - 1] == s[|s| - 1];
  }
}
