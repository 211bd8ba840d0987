/**
 Numbers written in base 2^32, least significant big digit first, and the
 facts about such sequences that the `bigint` class needs.
 */
module Bigits {
  import opened Powers

  const BASE := 0x1_0000_0000

  type Bigit = x: int | 0 <= x < BASE

  /** The natural number a sequence of bigits denotes. */
  function Val(s: seq<Bigit>): nat {
    if |s| == 0 then 0 else s[0] + BASE * Val(s[1..])
  }

  /** The weight of the bigit at position i: BASE to the power i. */
  function B(i: nat): (r: nat)
    ensures r > 0
  {
    if i == 0 then 1 else BASE * B(i - 1)
  }

  /** No superfluous zero on top; the number zero keeps a single bigit. */
  predicate Normalized(s: seq<Bigit>) {
    |s| >= 1 && (|s| == 1 || s[|s| - 1] != 0)
  }

  /** Multiplying a weight by BASE, on either side of a product. */
  lemma MulBase(x: int, p: nat)
    ensures Mul(x, BASE * p) == BASE * Mul(x, p)
    ensures Mul(BASE * x, p) == BASE * Mul(x, p)
  {
    MulIs(x, p);
    MulIs(x, BASE * p);
    MulIs(BASE * x, p);
    TimesAssoc(BASE, x, p);
  }

  lemma {:induction false} BIsPow(i: nat)
    ensures B(i) == Pow(BASE, i)
  {
    if i > 0 {
      BIsPow(i - 1);
    }
  }

  lemma {:induction false} BAdd(m: nat, n: nat)
    ensures B(m + n) == Mul(B(m), B(n))
  {
    if m == 0 {
      MulOne(B(n));
    } else {
      BAdd(m - 1, n);
      MulBase(B(m - 1), B(n));
    }
  }

  lemma {:induction false} BMonotone(m: nat, n: nat)
    requires m <= n
    ensures B(m) <= B(n)
  {
    if m < n {
      BMonotone(m, n - 1);
    }
  }

  lemma TwoBigits(low: Bigit, high: Bigit)
    ensures Val([low]) == low && Val([low] + [high]) == low + BASE * high
  {
    assert [low][1..] == [];
    assert ([low] + [high])[1..] == [high] && [high][1..] == [];
  }

  lemma {:induction false} ValConcat(a: seq<Bigit>, b: seq<Bigit>)
    ensures Val(a + b) == Val(a) + Mul(Val(b), B(|a|))
  {
    if |a| == 0 {
      assert a + b == b;
      MulOne(Val(b));
    } else {
      ValConcat(a[1..], b);
      assert (a + b)[1..] == a[1..] + b;
      MulBase(Val(b), B(|a| - 1));
    }
  }

  lemma ValSnoc(a: seq<Bigit>, x: Bigit)
    ensures Val(a + [x]) == Val(a) + Mul(x, B(|a|))
  {
    ValConcat(a, [x]);
    assert [x][1..] == [];
    assert Val([x]) == x;
  }

  lemma ValTake(s: seq<Bigit>, i: nat)
    requires i < |s|
    ensures Val(s[..i + 1]) == Val(s[..i]) + Mul(s[i], B(i))
  {
    assert s[..i + 1] == s[..i] + [s[i]];
    ValSnoc(s[..i], s[i]);
  }

  lemma ValSplit(s: seq<Bigit>, i: nat)
    requires i <= |s|
    ensures Val(s) == Val(s[..i]) + Mul(Val(s[i..]), B(i))
  {
    assert s == s[..i] + s[i..];
    ValConcat(s[..i], s[i..]);
  }

  lemma {:induction false} ValBound(s: seq<Bigit>)
    ensures Val(s) < B(|s|)
  {
    if |s| > 0 {
      ValBound(s[1..]);
    }
  }

  /** Changing one bigit changes the value by the difference times its weight. */
  lemma {:induction false} ValUpdate(s: seq<Bigit>, i: nat, x: Bigit)
    requires i < |s|
    ensures Val(s[i := x]) == Val(s) + Mul(x - s[i], B(i))
  {
    var t := s[i := x];
    if i == 0 {
      assert t[1..] == s[1..];
      MulIs(x - s[0], 1);
    } else {
      ValUpdate(s[1..], i - 1, x);
      assert t[1..] == s[1..][i - 1 := x];
      MulBase(x - s[i], B(i - 1));
    }
  }

  lemma {:induction false} ValZeros(s: seq<Bigit>)
    requires forall i :: 0 <= i < |s| ==> s[i] == 0
    ensures Val(s) == 0
  {
    if |s| > 0 {
      ValZeros(s[1..]);
    }
  }

  /** The top bigit alone accounts for its weight. */
  lemma TopWeight(s: seq<Bigit>)
    requires |s| >= 1
    ensures s[|s| - 1] != 0 ==> Val(s) >= B(|s| - 1)
    ensures s[|s| - 1] == 0 ==> Val(s) < B(|s| - 1)
  {
    var top := |s| - 1;
    ValTake(s, top);
    assert s[..top + 1] == s;
    MulOne(B(top));
    if s[top] != 0 {
      MulMonotone(1, s[top], B(top));
    } else {
      ValBound(s[..top]);
    }
  }

  /** A normalized nonzero number lies between the weights around its top bigit. */
  lemma NormalizedRange(s: seq<Bigit>)
    requires Normalized(s) && Val(s) != 0
    ensures s[|s| - 1] != 0
    ensures B(|s| - 1) <= Val(s) < B(|s|)
  {
    ValBound(s);
    TopWeight(s);
  }

  lemma TopNonzero(s: seq<Bigit>)
    requires |s| >= 1 && Val(s) >= B(|s| - 1)
    ensures Normalized(s)
  {
    TopWeight(s);
  }
}
