/**
 Facts about bigit sequences behind the individual `bigint` operations:
 comparison from the top bigit down, subtraction with a borrow, and the
 convolution that squaring computes.
 */
module BigitLemmas {
  import opened Powers
  import opened Bigits

  /** The number that bigits s stand for with exponent e. */
  ghost function Denotes(s: seq<Bigit>, e: nat): nat {
    Mul(Val(s), B(e))
  }

  // ---------- comparison ----------

  /** The bigits from position i up bound the number from both sides. */
  lemma HighPart(s: seq<Bigit>, e: nat, i: nat)
    requires i <= |s|
    ensures Mul(Val(s[i..]), B(i + e)) <= Denotes(s, e) < Mul(Val(s[i..]), B(i + e)) + B(i + e)
    ensures Denotes(s, e) == Mul(Val(s[..i]), B(e)) + Mul(Val(s[i..]), B(i + e))
  {
    ValSplit(s, i);
    ValBound(s[..i]);
    BAdd(i, e);
    MulAdd(Val(s[..i]), Mul(Val(s[i..]), B(i)), B(e));
    MulAssoc(Val(s[i..]), B(i), B(e));
    MulStrict(Val(s[..i]), B(i), B(e));
  }

  /** Two numbers agree above position i / j of equal weight and differ there. */
  lemma TopBigitDecides(l: seq<Bigit>, le: nat, r: seq<Bigit>, re: nat, i: nat, j: nat)
    requires i < |l| && j < |r| && i + le == j + re
    requires l[i + 1..] == r[j + 1..] && l[i] > r[j]
    ensures Denotes(l, le) > Denotes(r, re)
  {
    HighPart(l, le, i);
    HighPart(r, re, j);
    assert l[i..][1..] == l[i + 1..] && r[j..][1..] == r[j + 1..];
    MulMonotone(Val(r[j..]) + 1, Val(l[i..]), B(i + le));
    MulNext(Val(r[j..]), B(i + le));
  }

  lemma DenotesBelow(s: seq<Bigit>, e: nat, m: nat)
    requires |s| + e <= m
    ensures Denotes(s, e) < B(m)
  {
    ValBound(s);
    MulStrict(Val(s), B(|s|), B(e));
    BAdd(|s|, e);
    BMonotone(|s| + e, m);
  }

  lemma DenotesAbove(s: seq<Bigit>, e: nat)
    requires Normalized(s) && Val(s) != 0
    ensures Denotes(s, e) >= B(|s| - 1 + e)
  {
    NormalizedRange(s);
    MulMonotone(B(|s| - 1), Val(s), B(e));
    BAdd(|s| - 1, e);
  }

  lemma DenotesZero(s: seq<Bigit>, e: nat)
    ensures Denotes(s, e) == 0 <==> Val(s) == 0
  {
    MulOne(B(e));
    if Val(s) != 0 {
      MulMonotone(1, Val(s), B(e));
    }
  }

  /** With more bigits a number is the greater one, unless it is zero. */
  lemma ZeroOrMore(l: seq<Bigit>, le: nat, r: seq<Bigit>, re: nat)
    requires Normalized(l) && Normalized(r) && |l| + le > |r| + re
    ensures Denotes(l, le) > Denotes(r, re) || (Denotes(l, le) == 0 && le > re)
  {
    if Val(l) != 0 {
      DenotesAbove(l, le);
      DenotesBelow(r, re, |l| - 1 + le);
    } else {
      DenotesZero(l, le);
      TopWeight(l);
      assert B(|l| - 1) > 0;
    }
  }

  lemma SharedTop(l: seq<Bigit>, le: nat, r: seq<Bigit>, re: nat)
    requires |l| >= |r| && |l| + le == |r| + re && l[|l| - |r|..] == r
    ensures Denotes(l, le) >= Denotes(r, re)
    ensures |l| == |r| ==> Denotes(l, le) == Denotes(r, re)
  {
    HighPart(l, le, |l| - |r|);
    MulOne(B(le));
  }

  // ---------- the bigits seen from the top ----------

  function GetBigit(s: seq<Bigit>, e: nat, i: int): Bigit {
    if e <= i < e + |s| then s[i - e] else 0
  }

  /** The number formed by the bigits of weight i and above. */
  ghost function High(s: seq<Bigit>, e: nat, i: nat): nat {
    if i >= e + |s| then 0
    else if i >= e then Val(s[i - e..])
    else Denotes(s, e - i)
  }

  lemma HighStep(s: seq<Bigit>, e: nat, i: nat)
    ensures High(s, e, i) == GetBigit(s, e, i) + BASE * High(s, e, i + 1)
  {
    if e <= i < e + |s| {
      var rest := s[i - e + 1..];
      assert s[i - e..][1..] == rest;
      assert Val(s[i - e..]) == s[i - e] + BASE * Val(rest);
    } else if i < e {
      MulBase(Val(s), B(e - i - 1));
      if i + 1 == e {
        assert s[0..] == s;
        MulOne(Val(s));
      }
    }
  }

  lemma HighBounds(s: seq<Bigit>, e: nat, i: nat)
    ensures Mul(High(s, e, i), B(i)) <= Denotes(s, e) < Mul(High(s, e, i), B(i)) + B(i)
    ensures i <= e ==> Mul(High(s, e, i), B(i)) == Denotes(s, e)
  {
    if i >= e + |s| {
      MulOne(B(i));
      DenotesBelow(s, e, i);
      DenotesZero(s, e);
    } else if i >= e {
      HighPart(s, e, i - e);
      MulOne(B(e));
      assert i == e ==> s[..i - e] == [];
    } else {
      BAdd(e - i, i);
      MulAssoc(Val(s), B(e - i), B(i));
    }
  }

  // ---------- subtraction ----------

  /** One step of schoolbook subtraction, the borrows weighted by their positions. */
  lemma BorrowStep(s: seq<Bigit>, c: seq<Bigit>, t: seq<Bigit>, x: Bigit, j: nat,
                   borrow: nat, borrow': nat)
    requires j < |s| && j < |t| && |c| == j
    requires Val(c) == Val(s[..j]) - Val(t[..j]) + Mul(borrow, B(j))
    requires x - borrow' * BASE == s[j] - t[j] - borrow
    ensures Val(c + [x]) == Val(s[..j + 1]) - Val(t[..j + 1]) + Mul(borrow', B(j + 1))
  {
    ValSnoc(c, x);
    ValTake(s, j);
    ValTake(t, j);
    BorrowArithmetic(s[j], t[j], borrow, borrow', B(j));
  }

  lemma BorrowArithmetic(a: int, b: int, borrow: int, borrow': int, p: nat)
    ensures Mul(a - b - borrow + BASE * borrow', p)
         == Mul(a, p) - Mul(b, p) - Mul(borrow, p) + Mul(borrow', BASE * p)
  {
    MulAdd(a - b - borrow, BASE * borrow', p);
    MulBase(borrow', p);
    MulSub(a - b, borrow, p);
    MulSub(a, b, p);
  }

  /** Subtracting t at offset off borrows from a zero bigit above it. */
  ghost predicate BorrowStalls(s: seq<Bigit>, off: nat, t: seq<Bigit>) {
    off + |t| < |s| && Val(s[off..off + |t|]) < Val(t) && s[off + |t|] == 0
  }

  lemma CutInThree(s: seq<Bigit>, i: nat, j: nat)
    requires i <= j <= |s|
    ensures s[..i] + s[i..j] + s[j..] == s
  {
  }

  lemma ThreeParts(a: seq<Bigit>, b: seq<Bigit>, c: seq<Bigit>, i: nat)
    requires i == |a| + |b|
    ensures Val(a + b + c) == Val(a) + Mul(Val(b), B(|a|)) + Mul(Val(c), B(i))
  {
    ValConcat(a + b, c);
    ValConcat(a, b);
    assert |a + b| == i;
  }

  // ---------- squaring ----------

  function Coef(s: seq<Bigit>, k: int): Bigit {
    if 0 <= k < |s| then s[k] else 0
  }

  /** The first i terms of the k-th convolution sum of s with itself. */
  ghost function Conv(s: seq<Bigit>, k: int, i: nat): nat
    requires i <= |s|
  {
    if i == 0 then 0 else Conv(s, k, i - 1) + Mul(s[i - 1], Coef(s, k - (i - 1)))
  }

  /** The product of two bigits leaves room for a carry in 64 bits. */
  lemma ProductBound(x: Bigit, y: Bigit)
    ensures Mul(x, y) == (x as int) * y
    ensures 0 <= Mul(x, y) <= 0xFFFF_FFFE_0000_0001
  {
    MulIs(x, y);
    MulMonotone(x, BASE - 1, y);
    MulIs(BASE - 1, y);
  }

  lemma {:induction false} ConvBound(s: seq<Bigit>, k: int, i: nat)
    requires i <= |s|
    ensures Conv(s, k, i) <= i * 0xFFFF_FFFE_0000_0001
  {
    if i > 0 {
      ConvBound(s, k, i - 1);
      ProductBound(s[i - 1], Coef(s, k - (i - 1)));
    }
  }

  /** Terms whose partner index lies outside s vanish. */
  lemma {:induction false} ConvTail(s: seq<Bigit>, k: int, i: nat, n: nat)
    requires i <= n <= |s|
    requires k < i || k - n + 1 >= |s|
    ensures Conv(s, k, n) == Conv(s, k, i)
  {
    if i < n {
      ConvTail(s, k, i, n - 1);
    }
  }

  /** The first i terms of every convolution sum below position K, weighted. */
  ghost function WeightedConv(s: seq<Bigit>, K: nat, i: nat): nat
    requires i <= |s|
  {
    if K == 0 then 0 else WeightedConv(s, K - 1, i) + Mul(Conv(s, K - 1, i), B(K - 1))
  }

  /** s shifted up by i positions, cut off at position K. */
  ghost function Shifted(s: seq<Bigit>, K: nat, i: nat): nat {
    if K == 0 then 0 else Shifted(s, K - 1, i) + Mul(Coef(s, K - 1 - i), B(K - 1))
  }

  lemma {:induction false} ShiftedValue(s: seq<Bigit>, K: nat, i: nat)
    ensures Shifted(s, K, i)
         == Mul(Val(s[..if K <= i then 0 else if K - i <= |s| then K - i else |s|]), B(i))
  {
    MulOne(B(i));
    if K > 0 {
      ShiftedValue(s, K - 1, i);
      MulOne(B(K - 1));
      if i < K <= i + |s| {
        OneMoreTerm(s, K - 1 - i, i);
      }
    }
  }

  lemma OneMoreTerm(s: seq<Bigit>, m: nat, i: nat)
    requires m < |s|
    ensures Mul(Val(s[..m + 1]), B(i)) == Mul(Val(s[..m]), B(i)) + Mul(s[m], B(m + i))
  {
    ValTake(s, m);
    BAdd(m, i);
    MulAdd(Val(s[..m]), Mul(s[m], B(m)), B(i));
    MulAssoc(s[m], B(m), B(i));
  }

  lemma {:induction false} WeightedConvStep(s: seq<Bigit>, K: nat, i: nat)
    requires i < |s|
    ensures WeightedConv(s, K, i + 1) == WeightedConv(s, K, i) + Mul(Shifted(s, K, i), s[i])
  {
    if K == 0 {
      MulOne(s[i]);
    } else {
      WeightedConvStep(s, K - 1, i);
      ConvArithmetic(Conv(s, K - 1, i), s[i], Shifted(s, K - 1, i), Coef(s, K - 1 - i), B(K - 1));
    }
  }

  lemma ConvArithmetic(conv: nat, x: nat, sh: nat, c: nat, p: nat)
    ensures Mul(sh, x) + Mul(conv + Mul(x, c), p) == Mul(conv, p) + Mul(sh + Mul(c, p), x)
  {
    MulAdd(conv, Mul(x, c), p);
    MulCommutes(x, c);
    MulSwap(c, x, p);
    MulAdd(sh, Mul(c, p), x);
  }

  lemma {:induction false} WeightedConvPrefix(s: seq<Bigit>, i: nat)
    requires i <= |s|
    ensures WeightedConv(s, 2 * |s|, i) == Mul(Val(s[..i]), Val(s))
  {
    if i == 0 {
      WeightedConvZero(s, 2 * |s|);
      MulOne(Val(s));
    } else {
      var k := i - 1;
      WeightedConvPrefix(s, k);
      WeightedConvStep(s, 2 * |s|, k);
      ShiftedValue(s, 2 * |s|, k);
      assert s[..|s|] == s;
      ValTake(s, k);
      PrefixArithmetic(Val(s[..k]), s[k], B(k), Val(s));
    }
  }

  lemma PrefixArithmetic(low: nat, x: nat, p: nat, w: nat)
    ensures Mul(low + Mul(x, p), w) == Mul(low, w) + Mul(Mul(w, p), x)
  {
    MulAdd(low, Mul(x, p), w);
    MulSwap(x, p, w);
    MulSwap(w, p, x);
    MulCommutes(w, x);
  }

  lemma {:induction false} WeightedConvZero(s: seq<Bigit>, K: nat)
    ensures WeightedConv(s, K, 0) == 0
  {
    if K > 0 {
      WeightedConvZero(s, K - 1);
      MulOne(B(K - 1));
    }
  }

  /** The convolution sums, weighted, add up to the square. */
  lemma ConvolutionIsSquare(s: seq<Bigit>)
    ensures WeightedConv(s, 2 * |s|, |s|) == Mul(Val(s), Val(s))
  {
    WeightedConvPrefix(s, |s|);
    assert s[..|s|] == s;
  }
}
