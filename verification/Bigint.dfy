/**
 The arbitrary-precision unsigned integer of the formatting library: big
 digits of 32 bits, least significant first, times a power of 2^32. Every
 operation is specified by the natural number the object denotes.
 */
module BigInteger {
  import opened Powers
  import opened Bigits
  import opened BigitLemmas
  import opened BigintLemmas

  // ---------- two 64-bit words ----------

  lemma LowBigit(upper: nat, lower: nat)
    ensures (upper * TWO_64 + lower) % BASE == lower % BASE
  {
    DivisionFact(lower, BASE);
    MulIs(upper * BASE + lower / BASE, BASE);
    QuotientIs(upper * TWO_64 + lower, BASE, upper * BASE + lower / BASE);
  }

  lemma AddWords(upper: nat, lower: nat, n: nat)
    requires upper < TWO_64 && lower < TWO_64 && n < TWO_64
    ensures var low := (lower + n) % TWO_64;
            var high := if low < n then (upper + 1) % TWO_64 else upper;
            && high * TWO_64 + low == (upper * TWO_64 + lower + n) % (TWO_64 * TWO_64)
            && (upper * TWO_64 + lower + n < TWO_64 * TWO_64
                ==> high * TWO_64 + low == upper * TWO_64 + lower + n)
  {
    if lower + n < TWO_64 {
      assert (lower + n) % TWO_64 == lower + n;
    } else {
      assert (lower + n) % TWO_64 == lower + n - TWO_64;
    }
  }

  lemma ShiftWords(upper: nat, lower: nat)
    requires upper < TWO_64 && lower < TWO_64
    ensures (upper * BASE) % TWO_64 + lower / BASE < TWO_64
    ensures upper / BASE * TWO_64 + ((upper * BASE) % TWO_64 + lower / BASE) == (upper * TWO_64 + lower) / BASE
  {
    DivisionFact(upper, BASE);
    DivisionFact(lower, BASE);
    MulIs(upper / BASE, TWO_64);
    QuotientIs(upper * BASE, TWO_64, upper / BASE);
    MulIs(upper * BASE + lower / BASE, BASE);
    QuotientIs(upper * TWO_64 + lower, BASE, upper * BASE + lower / BASE);
  }

  /** A 128-bit sum kept in two 64-bit halves. */
  class Accumulator {
    var lower: DoubleBigit
    var upper: DoubleBigit

    ghost function Value(): nat
      reads this
    {
      upper * TWO_64 + lower
    }

    /** The conversion to a 32-bit integer. */
    function Low(): (r: Bigit)
      reads this
      ensures r == Value() % BASE
    {
      LowBigit(upper, lower);
      lower % BASE
    }

    constructor ()
      ensures Value() == 0
    {
      lower, upper := 0, 0;
    }

    /** Addition modulo 2^128, as a 128-bit integer would do it. */
    method Add(n: DoubleBigit)
      modifies this
      ensures Value() == (old(Value()) + n) % (TWO_64 * TWO_64)
      ensures old(Value()) + n < TWO_64 * TWO_64 ==> Value() == old(Value()) + n
    {
      AddWords(upper, lower, n);
      lower := (lower + n) % TWO_64;
      if lower < n {
        upper := (upper + 1) % TWO_64;
      }
    }

    method ShiftRight32()
      modifies this
      ensures Value() == old(Value()) / BASE
    {
      ShiftWords(upper, lower);
      lower := (upper * BASE) % TWO_64 + lower / BASE;
      upper := upper / BASE;
    }
  }

  class Bigint {
    var bigits: seq<Bigit>
    var exp: nat

    ghost function Value(): nat
      reads this
    {
      Denotes(bigits, exp)
    }

    ghost predicate Normal()
      reads this
    {
      Normalized(bigits)
    }

    constructor (n: DoubleBigit)
      ensures Value() == n && Normal() && exp == 0
    {
      bigits, exp := [], 0;
      new;
      Assign(n);
    }

    method Assign(n: DoubleBigit)
      modifies this
      ensures Value() == n && Normal() && exp == 0
    {
      // The do-while loop runs once or twice: zero still gets one bigit.
      var low: Bigit, high: Bigit := n % BASE, n / BASE;
      TwoBigits(low, high);
      bigits := if high != 0 then [low] + [high] else [low];
      exp := 0;
      MulOne(Val(bigits));
    }

    method AssignFrom(other: Bigint)
      modifies this
      ensures bigits == old(other.bigits) && exp == old(other.exp)
    {
      bigits, exp := other.bigits, other.exp;
    }

    function NumBigits(): nat
      reads this
    {
      |bigits| + exp
    }

    method RemoveLeadingZeros()
      requires |bigits| >= 1
      modifies this`bigits
      ensures Normal() && Val(bigits) == old(Val(bigits))
      ensures |bigits| <= old(|bigits|)
    {
      var top := |bigits| - 1;
      assert bigits[..top + 1] == bigits;
      while top > 0 && bigits[top] == 0
        invariant 0 <= top < |bigits| && bigits == old(bigits)
        invariant Val(bigits[..top + 1]) == Val(bigits)
      {
        ValTake(bigits, top);
        MulOne(B(top));
        top := top - 1;
      }
      bigits := bigits[..top + 1];
    }

    /** One bigit of a subtraction; the new borrow is the top bit of the 64-bit difference. */
    method SubtractBigits(index: nat, other: Bigit, borrow: nat) returns (newBorrow: nat)
      requires index < |bigits| && borrow <= 1
      modifies this`bigits
      ensures newBorrow <= 1 && |bigits| == old(|bigits|)
      ensures bigits == old(bigits)[index := bigits[index]]
      ensures bigits[index] - newBorrow * BASE == old(bigits[index]) - other - borrow
    {
      var result: DoubleBigit := (bigits[index] - other - borrow) % TWO_64;
      bigits := bigits[index := result % BASE];
      newBorrow := result / TWO_63;
    }

    /** Subtracts an aligned number that is not greater. When the borrow out of the
        aligned bigits meets a zero bigit, the final loop keeps borrowing from that same
        bigit instead of moving up, and the result is off by a known amount. */
    method SubtractAligned(other: Bigint)
      requires other != this && other.exp >= exp
      requires Normal() && other.Normal() && other.Value() > 0
      requires Value() >= other.Value()
      modifies this`bigits
      ensures Normal() && |bigits| <= old(|bigits|)
      ensures !old(BorrowStalls(bigits, other.exp - exp, other.bigits))
          ==> Value() == old(Value()) - other.Value()
      ensures old(BorrowStalls(bigits, other.exp - exp, other.bigits))
          ==> Value() == old(Value()) - other.Value() + (BASE - 1) * B(other.NumBigits())
    {
      ghost var s, t, off := bigits, other.bigits, other.exp - exp;
      AlignedFits(s, exp, t, other.exp);
      var i := other.exp - exp;
      ghost var mid;
      var borrow;
      borrow, mid := SubtractBitsOf(other, i);
      i := i + |other.bigits|;
      AfterFirstLoop(s, off, t, mid, borrow);
      FinishSubtraction(i, borrow, s, off, t, mid);
    }

    /** Pays the borrow left over from the aligned bigits and trims the result; s held the
        bigits before, and mid has replaced those that t was subtracted from. */
    method FinishSubtraction(i: nat, borrow: nat, ghost s: seq<Bigit>, ghost off: nat, ghost t: seq<Bigit>,
                             ghost mid: seq<Bigit>)
      requires i == off + |t| <= |s| && |mid| == |t| && |s| > 0
      requires bigits == s[..off] + mid + s[i..] && borrow <= 1 && (borrow == 1 ==> i < |s|)
      requires Val(mid) == Val(s[off..i]) - Val(t) + Mul(borrow, B(|t|))
      modifies this`bigits
      ensures Normal() && |bigits| <= |s|
      ensures Value() == Denotes(s, exp) - Denotes(t, off + exp)
            + (if borrow == 1 && s[i] == 0 then (BASE - 1) * B(i + exp) else 0)
    {
      ghost var a, b, c := s[..off], s[off..i], s[i..];
      CutInThree(s, off, i);
      assert borrow == 1 ==> bigits[i] == s[i];
      PayBorrow(i, borrow);
      AfterBorrow(a, b, c, exp, t, mid, borrow, borrow == 1 && s[i] == 0, Val(bigits));
      RemoveLeadingZeros();
    }

    /** The first loop of an aligned subtraction, on the bigits above position off: mid takes
        their place. */
    method SubtractBitsOf(other: Bigint, off: nat) returns (borrow: nat, ghost mid: seq<Bigit>)
      requires other != this && off + |other.bigits| <= |bigits|
      modifies this`bigits
      ensures borrow <= 1 && |mid| == |other.bigits|
      ensures bigits == old(bigits)[..off] + mid + old(bigits)[off + |other.bigits|..]
      ensures Val(mid) == Val(old(bigits)[off..off + |other.bigits|]) - Val(other.bigits)
                        + Mul(borrow, B(|other.bigits|))
    {
      ghost var s, t := bigits, other.bigits;
      borrow, mid := 0, [];
      var i := off;
      var j := 0;
      CutInThree(s, off, off);
      MulOne(B(0));
      while j != |other.bigits|
        invariant 0 <= j <= |t| && i == off + j && 0 <= borrow <= 1 && other.bigits == t
        invariant Subtracted(s, bigits, off, t, j, mid, borrow)
      {
        ghost var before, owed := bigits, borrow;
        borrow := SubtractBigits(i, other.bigits[j], borrow);
        SubtractStep(s, before, off, t, j, mid, bigits[i], owed, borrow);
        mid := mid + [bigits[i]];
        i, j := i + 1, j + 1;
      }
      assert t[..j] == t;
    }

    /** The second loop: it takes the borrow from bigit i until none is left. */
    method PayBorrow(i: nat, owed: nat)
      requires owed <= 1 && (owed == 1 ==> i < |bigits|)
      modifies this`bigits
      ensures |bigits| == old(|bigits|)
      ensures owed == 0 ==> bigits == old(bigits)
      ensures owed == 1 && old(bigits)[i] > 0 ==> Val(bigits) == old(Val(bigits)) - B(i)
      ensures owed == 1 && old(bigits)[i] == 0
          ==> Val(bigits) == old(Val(bigits)) + (BASE - 2) * B(i)
    {
      ghost var s := bigits;
      var borrow := owed;
      while borrow > 0
        invariant 0 <= borrow <= owed && |bigits| == |s|
        invariant if owed == 0 then bigits == s else bigits == s[i := bigits[i]]
        invariant borrow == 1 ==> bigits[i] == s[i] || (s[i] == 0 && bigits[i] == BASE - 1)
        invariant owed == 1 && borrow == 0
              ==> bigits[i] == if s[i] > 0 then s[i] - 1 else BASE - 2
        decreases borrow, if borrow == 1 && i < |bigits| && bigits[i] == 0 then 1 else 0
      {
        borrow := SubtractBigits(i, 0, borrow);
      }
      if owed == 1 {
        ValUpdate(s, i, bigits[i]);
        MulIs(-1, B(i));
        MulIs(BASE - 2, B(i));
      }
    }

    method Multiply32(value: Bigit)
      requires value > 0 && Normal()
      modifies this`bigits
      ensures Value() == old(Value()) * value && Normal()
      ensures |bigits| <= old(|bigits|) + 1
    {
      ghost var s := bigits;
      var carry: Bigit := 0;
      var i := 0;
      MulOne(value);
      MulOne(B(0));
      while i < |bigits|
        invariant 0 <= i <= |bigits| == |s| && bigits[i..] == s[i..]
        invariant Val(bigits[..i]) + Mul(carry, B(i)) == Mul(Val(s[..i]), value)
      {
        ProductBound(bigits[i], value);
        var result: DoubleBigit := bigits[i] * value + carry;
        ghost var before, c := bigits, carry;
        bigits := bigits[i := result % BASE];
        carry := result / BASE;
        assert before[..i] == bigits[..i];
        MultiplyStep(s, bigits, i, value, c, carry);
        i := i + 1;
      }
      assert s[..i] == s && bigits[..i] == bigits;
      ProductTop(s, value, bigits, carry, exp);
      if carry != 0 {
        ValSnoc(bigits, carry);
        bigits := bigits + [carry];
      }
    }

    method Multiply64(value: DoubleBigit)
      requires value > 0 && Normal()
      modifies this`bigits
      ensures Value() == old(Value()) * value && Normal()
      ensures |bigits| <= old(|bigits|) + 2
    {
      ghost var s := bigits;
      var lower: Bigit, upper: Bigit := value % BASE, value / BASE;
      var carry: DoubleBigit := 0;
      var i := 0;
      MulOne(value);
      MulOne(B(0));
      while i < |bigits|
        invariant 0 <= i <= |bigits| == |s| && bigits[i..] == s[i..]
        invariant Val(bigits[..i]) + Mul(carry, B(i)) == Mul(Val(s[..i]), value)
      {
        WideStep(bigits[i], value, lower, upper, carry);
        var result: DoubleBigit := bigits[i] * lower + carry % BASE;
        ghost var before, c := bigits, carry;
        carry := bigits[i] * upper + result / BASE + carry / BASE;
        bigits := bigits[i := result % BASE];
        assert before[..i] == bigits[..i];
        MultiplyStep(s, bigits, i, value, c, carry);
        i := i + 1;
      }
      assert s[..i] == s && bigits[..i] == bigits;
      ProductTop(s, value, bigits, carry, exp);
      PushCarry(carry);
    }

    method PushCarry(carry: DoubleBigit)
      requires carry == 0 ==> Normal()
      modifies this`bigits
      ensures Normal() && |bigits| <= old(|bigits|) + 2
      ensures Val(bigits) == old(Val(bigits)) + Mul(carry, old(B(|bigits|)))
    {
      ghost var n := |bigits|;
      var rest := carry;
      MulOne(B(n));
      while rest != 0
        invariant 0 <= rest <= carry && n <= |bigits| <= n + 2
        invariant (rest >= BASE ==> |bigits| == n) && (rest != 0 ==> |bigits| <= n + 1)
        invariant Val(bigits) + Mul(rest, B(|bigits|)) == old(Val(bigits)) + Mul(carry, B(n))
        invariant rest == 0 ==> Normal()
        decreases rest
      {
        var low: Bigit := rest % BASE;
        ValSnoc(bigits, low);
        SplitCarry(rest, B(|bigits|));
        bigits := bigits + [low];
        rest := rest / BASE;
      }
      MulOne(B(|bigits|));
    }

    method ShiftLeft(shift: nat)
      requires Normal()
      modifies this
      ensures Value() == old(Value()) * Pow(2, shift) && Normal()
      ensures exp == old(exp) + shift / 32
      ensures |bigits| <= old(|bigits|) + 1
    {
      ghost var s, e := bigits, exp;
      exp := exp + shift / 32;
      var bits := shift % 32;
      if bits != 0 {
        ShiftFactors(bits);
        ShiftBits(Pow(2, bits), Pow(2, 32 - bits));
      }
      ShiftedDenotes(s, e, bigits, shift);
    }

    /** Shifts within the bigits: a left shift of one bigit multiplies it by factor
        modulo 2^32, and the right shift that yields the carry divides by cofactor. */
    method ShiftBits(factor: nat, cofactor: nat)
      requires factor > 1 && cofactor > 1 && factor * cofactor == BASE && Normal()
      modifies this`bigits
      ensures Value() == old(Value()) * factor && Normal()
      ensures |bigits| <= old(|bigits|) + 1
    {
      ghost var s := bigits;
      var carry: Bigit := 0;
      var i := 0;
      MulOne(factor);
      MulOne(B(0));
      while i < |bigits|
        invariant 0 <= i <= |bigits| == |s| && bigits[i..] == s[i..]
        invariant carry < factor
        invariant Val(bigits[..i]) + Mul(carry, B(i)) == Mul(Val(s[..i]), factor)
      {
        ShiftOneBigit(bigits[i], factor, cofactor, carry);
        var c := bigits[i] / cofactor;
        var low: Bigit := bigits[i] * factor % BASE + carry;
        ghost var before, c0 := bigits, carry;
        bigits := bigits[i := low];
        carry := c;
        assert before[..i] == bigits[..i];
        MultiplyStep(s, bigits, i, factor, c0, carry);
        i := i + 1;
      }
      assert s[..i] == s && bigits[..i] == bigits;
      ProductTop(s, factor, bigits, carry, exp);
      if carry != 0 {
        ValSnoc(bigits, carry);
        bigits := bigits + [carry];
      }
    }

    /** Squares by adding up, position by position, the products of the bigit pairs whose
        indices sum to that position. */
    method Square()
      requires Normal() && |bigits| < MAX_BIGITS
      modifies this
      ensures Value() == old(Value()) * old(Value()) && Normal()
      ensures exp == 2 * old(exp) && |bigits| <= 2 * old(|bigits|)
    {
      var n := bigits;
      var numBigits := |n|;
      var sum := new Accumulator();
      bigits := seq(2 * numBigits, _ => 0);
      var k := 0;
      MulOne(B(0));
      while k < 2 * numBigits
        invariant 0 <= k <= 2 * numBigits == |bigits| && exp == old(exp)
        invariant fresh(sum) && sum.Value() < TWO_64
        invariant Val(bigits[..k]) + Mul(sum.Value(), B(k)) == WeightedConv(n, k, numBigits)
      {
        StoreColumn(n, k, sum);
        k := k + 1;
      }
      assert bigits[..k] == bigits;
      SquareComplete(n, bigits, sum.Value());
      RemoveLeadingZeros();
      exp := 2 * exp;
      SquaredScale(Val(n), old(exp));
    }

    /** Completes one bigit of a square and keeps the carry in sum. */
    method StoreColumn(n: seq<Bigit>, k: nat, sum: Accumulator)
      requires |n| < MAX_BIGITS && k < |bigits| == 2 * |n| && sum.Value() < TWO_64
      requires Val(bigits[..k]) + Mul(sum.Value(), B(k)) == WeightedConv(n, k, |n|)
      modifies this`bigits, sum
      ensures |bigits| == old(|bigits|) && sum.Value() < TWO_64
      ensures Val(bigits[..k + 1]) + Mul(sum.Value(), B(k + 1)) == WeightedConv(n, k + 1, |n|)
    {
      ghost var before, carry := bigits, sum.Value();
      AddPairs(n, k, sum);
      ghost var total := sum.Value();
      bigits := bigits[k := sum.Low()];
      sum.ShiftRight32();
      assert before[..k] == bigits[..k];
      ColumnStep(n, bigits, k, carry, total);
    }

    /** Assigns 10^power: 5^power by binary exponentiation, then a shift. */
    method AssignPow10(power: nat)
      requires power < MAX_BIGITS
      modifies this
      ensures Value() == Pow(10, power) && Normal()
      ensures exp == power / 32
    {
      if power == 0 {
        Assign(1);
        return;
      }
      var bitmask := 1;
      ghost var log := 0;
      while power >= bitmask
        invariant 0 < bitmask == Pow(2, log) && (log > 0 ==> power >= Pow(2, log - 1))
        decreases power - bitmask
      {
        bitmask := 2 * bitmask;
        log := log + 1;
      }
      bitmask, log := bitmask / 2, log - 1;
      TopPrefix(power, log);
      AssignPow5(power, bitmask, log);
      PowOfProduct(5, 2, power);
      ShiftLeft(power);
    }

    /** Consumes the bits of power below the top one: squares for each, and multiplies by
        five for each that is set. */
    method AssignPow5(power: nat, topBit: nat, ghost topLog: nat)
      requires 0 < power < MAX_BIGITS && topBit == Pow(2, topLog) <= power
      requires Prefix(power, topLog, 1)
      modifies this
      ensures Value() == Pow(5, power) && Normal() && exp == 0
    {
      Assign(5);
      assert Pow(5, 1) == 5 * Pow(5, 0);
      var bitmask := topBit / 2;
      ghost var log, prefix: nat := topLog, 1;
      while bitmask != 0
        invariant Normal() && exp == 0
        invariant log >= 0 && bitmask == Pow(2, log) / 2 && Prefix(power, log, prefix)
        invariant Value() == Pow(5, prefix)
        decreases log
      {
        NextPrefix(power, log, prefix, bitmask);
        NextPower(prefix, power / bitmask % 2 != 0);
        FiveFits(bigits, prefix);
        Square();
        if power / bitmask % 2 != 0 {
          Multiply32(5);
        }
        prefix := power / bitmask;
        bitmask, log := bitmask / 2, log - 1;
      }
      NoBitsLeft(power, log, prefix);
    }

    /** Divides by repeated subtraction, leaving the remainder. Equal operands of which
        this one has the larger exponent are the one case that is missed. */
    method DivmodAssign(divisor: Bigint) returns (quotient: nat)
      requires this != divisor && Normal() && divisor.Normal() && divisor.Value() > 0
      requires Value() > 0 || exp <= divisor.exp
      requires Value() < TWO_31 * divisor.Value()
      modifies this
      ensures Normal()
      ensures old(Value()) == divisor.Value() && old(exp) > divisor.exp
          ==> quotient == 0 && Value() == old(Value()) && exp == old(exp)
      ensures !(old(Value()) == divisor.Value() && old(exp) > divisor.exp)
          ==> old(Value()) == quotient * divisor.Value() + Value() && Value() < divisor.Value()
      ensures quotient > 0 ==> exp <= divisor.exp
      ensures exp == old(exp) || (exp == divisor.exp && old(exp) > divisor.exp)
    {
      var order := Compare(this, divisor);
      if order < 0 {
        return 0;
      }
      if exp > divisor.exp {
        AlignTo(divisor.exp);
      }
      quotient := 0;
      while order >= 0
        invariant Normal() && exp <= divisor.exp
        invariant exp == old(exp) || (exp == divisor.exp && old(exp) > divisor.exp)
        invariant order >= 0 <==> Value() >= divisor.Value()
        invariant order < 0 ==> quotient > 0
        invariant old(Value()) == quotient * divisor.Value() + Value()
        invariant Value() <= old(Value())
        decreases Value() + (if order < 0 then 0 else 1)
      {
        NoStall(bigits, exp, divisor.bigits, divisor.exp);
        SubtractAligned(divisor);
        Distribute(quotient, 1, divisor.Value());
        quotient := quotient + 1;
        order := Compare(this, divisor);
      }
    }

    /** Lowers the exponent to e by moving the bigits up and filling in zeros. */
    method AlignTo(e: nat)
      requires e < exp && Normal() && Value() > 0
      modifies this
      ensures Normal() && exp == e && Value() == old(Value())
    {
      ghost var s := bigits;
      MoveUp(exp - e);
      AlignedDenotes(s, bigits[..exp - e], e);
      exp := e;
    }

    /** Inserts n zero bigits below, moving the others up from the top one down. */
    method MoveUp(n: nat)
      modifies this`bigits
      ensures |bigits| == n + old(|bigits|)
      ensures bigits == bigits[..n] + old(bigits)
      ensures forall i :: 0 <= i < n ==> bigits[i] == 0
    {
      var numBigits := |bigits|;
      ghost var s := bigits;
      bigits := bigits + seq(n, _ => 0);
      var i, j := numBigits - 1, numBigits - 1 + n;
      while i >= 0
        invariant -1 <= i < numBigits && j == i + n && |bigits| == numBigits + n
        invariant forall t :: 0 <= t <= i ==> bigits[t] == s[t]
        invariant forall t :: i + n < t < numBigits + n ==> bigits[t] == s[t - n]
        decreases i
      {
        bigits := bigits[j := bigits[i]];
        i, j := i - 1, j - 1;
      }
      var zeros: seq<Bigit> := seq(n, _ => 0);
      assert bigits[n..] == s;
      bigits := zeros + bigits[n..];
    }
  }

  /** Adds one column of products. The lower half of the columns pairs indices up from
      zero, the upper half down from the top index. */
  method AddPairs(n: seq<Bigit>, k: nat, sum: Accumulator)
    requires |n| < MAX_BIGITS && k < 2 * |n| && sum.Value() < TWO_64
    modifies sum
    ensures sum.Value() == old(sum.Value()) + Conv(n, k, |n|)
    ensures sum.Value() < BASE * TWO_64
  {
    ConvBound(n, k, |n|);
    if k < |n| {
      AddLowPairs(n, k, sum);
    } else {
      AddHighPairs(n, k, sum);
    }
  }

  method AddLowPairs(n: seq<Bigit>, k: nat, sum: Accumulator)
    requires k < |n| < MAX_BIGITS && sum.Value() < TWO_64
    modifies sum
    ensures sum.Value() == old(sum.Value()) + Conv(n, k, |n|)
  {
    var i, j := 0, k as int;
    while j >= 0
      invariant 0 <= i <= k + 1 && j == k - i
      invariant sum.Value() == old(sum.Value()) + Conv(n, k, i)
      decreases j + 1
    {
      NextPair(n, k, i);
      sum.Add((n[i] as int) * n[j]);
      i, j := i + 1, j - 1;
    }
    ConvTail(n, k, i, |n|);
  }

  method AddHighPairs(n: seq<Bigit>, k: nat, sum: Accumulator)
    requires 1 <= |n| < MAX_BIGITS && |n| <= k < 2 * |n| && sum.Value() < TWO_64
    modifies sum
    ensures sum.Value() == old(sum.Value()) + Conv(n, k, |n|)
  {
    var j := |n| - 1;
    var i := k - j;
    ConvTail(n, k, 0, i);
    while i < |n|
      invariant 0 < i <= |n| && j == k - i
      invariant sum.Value() == old(sum.Value()) + Conv(n, k, i)
    {
      NextPair(n, k, i);
      sum.Add((n[i] as int) * n[j]);
      i, j := i + 1, j - 1;
    }
  }

  /** Compares from the top bigit down. On equal numbers the one that spells out more
      trailing zero bigits counts as the greater, and a zero with too large an exponent counts
      as more than it is. */
  method Compare(lhs: Bigint, rhs: Bigint) returns (r: int)
    requires lhs.Normal() && rhs.Normal()
    ensures -1 <= r <= 1
    ensures lhs.NumBigits() != rhs.NumBigits() ==> r == Signum(lhs.NumBigits() - rhs.NumBigits())
    ensures lhs.NumBigits() == rhs.NumBigits()
            || ((lhs.Value() > 0 || lhs.exp <= rhs.exp) && (rhs.Value() > 0 || rhs.exp <= lhs.exp))
        ==> r == if lhs.Value() != rhs.Value() then Signum(lhs.Value() - rhs.Value())
                 else Signum(rhs.exp - lhs.exp)
  {
    if lhs.NumBigits() != rhs.NumBigits() {
      if lhs.NumBigits() > rhs.NumBigits() {
        ZeroOrMore(lhs.bigits, lhs.exp, rhs.bigits, rhs.exp);
        return 1;
      } else {
        ZeroOrMore(rhs.bigits, rhs.exp, lhs.bigits, lhs.exp);
        return -1;
      }
    }
    r := CompareBigits(lhs, rhs);
  }

  method CompareBigits(lhs: Bigint, rhs: Bigint) returns (r: int)
    requires lhs.Normal() && rhs.Normal() && lhs.NumBigits() == rhs.NumBigits()
    ensures r == if lhs.Value() != rhs.Value() then Signum(lhs.Value() - rhs.Value())
                 else Signum(rhs.exp - lhs.exp)
  {
    var l, s := lhs.bigits, rhs.bigits;
    var i, j := |l| - 1, |s| - 1;
    var end := if i - j < 0 then 0 else i - j;
    while i >= end
      invariant i - j == |l| - |s| && end - 1 <= i < |l| && -1 <= j < |s|
      invariant l[i + 1..] == s[j + 1..]
      decreases i
    {
      if l[i] != s[j] {
        if l[i] > s[j] {
          TopBigitDecides(l, lhs.exp, s, rhs.exp, i, j);
          return 1;
        } else {
          TopBigitDecides(s, rhs.exp, l, lhs.exp, j, i);
          return -1;
        }
      }
      SameSuffix(l, s, i, j);
      i, j := i - 1, j - 1;
    }
    if |l| >= |s| {
      SharedTop(l, lhs.exp, s, rhs.exp);
    } else {
      SharedTop(s, rhs.exp, l, lhs.exp);
    }
    r := if i != j then if i > j then 1 else -1 else 0;
  }

  /** Compares a sum of two numbers with a third without forming the sum. */
  method AddCompare(lhs1: Bigint, lhs2: Bigint, rhs: Bigint) returns (r: int)
    requires lhs1.Normal() && lhs2.Normal() && rhs.Normal() && rhs.Value() > 0
    requires lhs1.Value() > 0 || lhs1.exp <= rhs.exp
    requires lhs2.Value() > 0 || lhs2.exp <= rhs.exp
    ensures r == Signum(lhs1.Value() + lhs2.Value() - rhs.Value())
  {
    var maxLhsBigits :=
      if lhs1.NumBigits() < lhs2.NumBigits() then lhs2.NumBigits() else lhs1.NumBigits();
    var numRhsBigits := rhs.NumBigits();
    if maxLhsBigits + 1 < numRhsBigits {
      SumTooShort(lhs1.bigits, lhs1.exp, lhs2.bigits, lhs2.exp, rhs.bigits, rhs.exp);
      return -1;
    }
    if maxLhsBigits > numRhsBigits {
      if lhs1.NumBigits() > numRhsBigits {
        ZeroOrMore(lhs1.bigits, lhs1.exp, rhs.bigits, rhs.exp);
      } else {
        ZeroOrMore(lhs2.bigits, lhs2.exp, rhs.bigits, rhs.exp);
      }
      return 1;
    }
    r := AddCompareBigits(lhs1, lhs2, rhs);
  }

  /** The bigit loop of the sum comparison: the running difference, at most one, is carried
      down as a borrow. */
  method AddCompareBigits(lhs1: Bigint, lhs2: Bigint, rhs: Bigint) returns (r: int)
    requires |rhs.bigits| >= 1
    requires lhs1.NumBigits() <= rhs.NumBigits() && lhs2.NumBigits() <= rhs.NumBigits()
    ensures r == Signum(lhs1.Value() + lhs2.Value() - rhs.Value())
  {
    var borrow: DoubleBigit := 0;
    var minExp := if lhs1.exp < lhs2.exp then lhs1.exp else lhs2.exp;
    minExp := if rhs.exp < minExp then rhs.exp else minExp;
    ghost var gaps :=
      AllGaps(lhs1.bigits, lhs1.exp, lhs2.bigits, lhs2.exp, rhs.bigits, rhs.exp, minExp);
    var i := rhs.NumBigits() - 1;
    while i >= minExp
      invariant minExp - 1 <= i < rhs.NumBigits()
      invariant 0 <= gaps[i + 1] <= 1 && borrow == gaps[i + 1] * BASE
      decreases i
    {
      var sum: DoubleBigit := (GetBigit(lhs1.bigits, lhs1.exp, i) as int)
                            + GetBigit(lhs2.bigits, lhs2.exp, i);
      var rhsBigit: int := GetBigit(rhs.bigits, rhs.exp, i);
      assert gaps[i] == rhsBigit + borrow - sum;
      if sum > rhsBigit + borrow {
        return 1;
      }
      borrow := rhsBigit + borrow - sum;
      if borrow > 1 {
        return -1;
      }
      borrow := borrow * BASE;
      i := i - 1;
    }
    return if borrow != 0 then -1 else 0;
  }
}
