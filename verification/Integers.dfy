/** Counting, printing and parsing the decimal digits of fixed-width integers. */
module Integers {
  import opened Powers
  import opened DigitSpec
  import opened Decimals
  import opened Wrappers

  // ---------- counting digits ----------

  lemma DigitCount(n: nat, k: nat)
    requires k >= 1 && n < Pow(10, k) && (k == 1 || Pow(10, k - 1) <= n)
    ensures |Decimal(n)| == k
  {
    DecimalLength(n);
    var d := |Decimal(n)|;
    if d < k {
      PowMonotone(10, d, k - 1);
    } else if d > k {
      PowMonotone(10, k, d - 1);
    }
  }

  /** The loop that divides by ten thousand. */
  method CountDigitsLoop(value: nat) returns (count: nat)
    ensures count == |Decimal(value)|
  {
    count := 1;
    var n := value;
    while true
      invariant |Decimal(value)| == |Decimal(n)| + count - 1 && count >= 1
      decreases n
    {
      SmallCount(n);
      if n < 10 { return; }
      if n < 100 { return count + 1; }
      if n < 1000 { return count + 2; }
      if n < 10000 { return count + 3; }
      FourFewer(n);
      n := n / 10000;
      count := count + 4;
    }
  }

  lemma SmallCount(n: nat)
    ensures n < 10000 ==> |Decimal(n)| == if n < 10 then 1 else if n < 100 then 2 else if n < 1000 then 3 else 4
  {
    if 10 <= n < 10000 {
      assert |Decimal(n)| == |Decimal(n / 10)| + 1;
      if n >= 100 {
        assert |Decimal(n / 10)| == |Decimal(n / 10 / 10)| + 1;
        if n >= 1000 {
          assert |Decimal(n / 10 / 10)| == |Decimal(n / 10 / 10 / 10)| + 1;
        }
      }
    }
  }

  lemma FourFewer(n: nat)
    requires n >= 10000
    ensures |Decimal(n)| == |Decimal(n / 10000)| + 4
  {
    assert n / 10 / 10 / 10 / 10 == n / 10000;
    assert |Decimal(n)| == |Decimal(n / 10)| + 1;
    assert |Decimal(n / 10)| == |Decimal(n / 10 / 10)| + 1;
    assert |Decimal(n / 10 / 10)| == |Decimal(n / 10 / 10 / 10)| + 1;
  }

  /** The number of bits of n, that is, 64 minus its leading zeros. */
  function BitLength(n: nat): (b: nat)
    ensures n < Pow(2, b) && (n > 0 ==> b >= 1 && Pow(2, b - 1) <= n)
  {
    if n == 0 then 0 else 1 + BitLength(n / 2)
  }

  /** n | 1 */
  function Or1(n: nat): nat {
    if n % 2 == 0 then n + 1 else n
  }

  const ZERO_OR_POWERS_OF_10_64: seq<U64> := [
    0, 10, 100, 1000, 10000, 100000, 1000000, 10000000, 100000000, 1000000000,
    10000000000, 100000000000, 1000000000000, 10000000000000, 100000000000000,
    1000000000000000, 10000000000000000, 100000000000000000, 1000000000000000000,
    10000000000000000000]

  /** The bit length estimates the logarithm, and one comparison corrects it. */
  method CountDigits(n: U64) returns (count: int)
    ensures count == |Decimal(n)|
  {
    var b := BitLength(Or1(n));
    BitsBound(n);
    var t := b * 1233 / 4096;
    EstimateIsClose(n, b, t);
    Corrected(n, t);
    count := t - (if n < ZERO_OR_POWERS_OF_10_64[t] then 1 else 0) + 1;
  }

  lemma Corrected(n: U64, t: nat)
    requires t < 20 && n < Pow(10, t + 1) && (t > 0 ==> Pow(10, t - 1) <= n)
    ensures |ZERO_OR_POWERS_OF_10_64| == 20
    ensures |Decimal(n)| == t - (if n < ZERO_OR_POWERS_OF_10_64[t] then 1 else 0) + 1
  {
    if t > 0 {
      TableIs(t);
    }
    DigitCount(n, if t > 0 && n < Pow(10, t) then t else t + 1);
  }

  lemma Twos()
    ensures Pow(2, 3) == 8
    ensures Pow(2, 6) == 64
    ensures Pow(2, 9) == 512
    ensures Pow(2, 13) == 8192
    ensures Pow(2, 16) == 65536
    ensures Pow(2, 19) == 524288
    ensures Pow(2, 23) == 8388608
    ensures Pow(2, 26) == 67108864
    ensures Pow(2, 29) == 536870912
    ensures Pow(2, 33) == 8589934592
    ensures Pow(2, 36) == 68719476736
    ensures Pow(2, 39) == 549755813888
    ensures Pow(2, 43) == 8796093022208
    ensures Pow(2, 46) == 70368744177664
    ensures Pow(2, 49) == 562949953421312
    ensures Pow(2, 53) == 9007199254740992
    ensures Pow(2, 56) == 72057594037927936
    ensures Pow(2, 59) == 576460752303423488
    ensures Pow(2, 63) == 9223372036854775808
    ensures Pow(2, 64) == 18446744073709551616
  {
    assert Pow(2, 3) == 8 && Pow(2, 4) == 16;
    PowAdd(2, 3, 3);
    PowAdd(2, 6, 3);
    PowAdd(2, 9, 4);
    PowAdd(2, 13, 3);
    PowAdd(2, 16, 3);
    PowAdd(2, 19, 4);
    PowAdd(2, 23, 3);
    PowAdd(2, 26, 3);
    PowAdd(2, 29, 4);
    PowAdd(2, 33, 3);
    PowAdd(2, 36, 3);
    PowAdd(2, 39, 4);
    PowAdd(2, 43, 3);
    PowAdd(2, 46, 3);
    PowAdd(2, 49, 4);
    PowAdd(2, 53, 3);
    PowAdd(2, 56, 3);
    PowAdd(2, 59, 4);
    PowAdd(2, 63, 1);
  }

  lemma TableIs(t: nat)
    requires 1 <= t < 20
    ensures |ZERO_OR_POWERS_OF_10_64| == 20 && ZERO_OR_POWERS_OF_10_64[t] == Pow(10, t)
  {
    PowersOfTen();
  }

  /** The bit lengths for which the estimate is t end here. */
  const ENDS: seq<nat> := [3, 6, 9, 13, 16, 19, 23, 26, 29, 33, 36, 39, 43, 46, 49, 53, 56, 59, 63, 64]

  lemma SegmentEnds(t: nat) returns (before: nat, end: nat)
    requires t < 20
    ensures Pow(2, end) <= Pow(10, t) * 10 && (if t == 19 then end == 64 else (end + 1) * 1233 / 4096 > t)
    ensures t > 0 ==> before * 1233 / 4096 == t - 1 && Pow(10, t - 1) <= Pow(2, before) && before >= 3
  {
    PowersOfTen();
    Twos();
    end := ENDS[t];
    before := if t > 0 then ENDS[t - 1] else 0;
  }

  /** A number with b bits has t or t + 1 decimal digits. */
  lemma EstimateIsClose(n: U64, b: nat, t: nat)
    requires b == BitLength(Or1(n)) <= 64 && t == b * 1233 / 4096 < 20
    ensures n < Pow(10, t + 1) && (t > 0 ==> Pow(10, t - 1) <= n)
  {
    var before, end := SegmentEnds(t);
    WithinSegment(b, before, end, t);
    BitsGiveBounds(n, b, before, end);
  }

  lemma BitsGiveBounds(n: nat, b: nat, before: nat, end: nat)
    requires b == BitLength(Or1(n)) <= end
    ensures n < Pow(2, end)
    ensures 3 <= before < b ==> Pow(2, before) <= n
  {
    PowMonotone(2, b, end);
    if 3 <= before < b {
      PowMonotone(2, before, b - 1);
      EvenPower(b - 1);
    }
  }

  lemma WithinSegment(b: nat, before: nat, end: nat, t: nat)
    requires b <= 64 && b * 1233 / 4096 == t && (t > 0 ==> before * 1233 / 4096 == t - 1)
    requires if t == 19 then end == 64 else (end + 1) * 1233 / 4096 > t
    ensures b <= end && (t > 0 ==> before < b)
  {
  }

  lemma EvenPower(k: nat)
    requires k >= 1
    ensures Pow(2, k) % 2 == 0
  {
  }

  lemma BitsBound(n: U64)
    ensures 1 <= BitLength(Or1(n)) <= 64 && BitLength(Or1(n)) * 1233 / 4096 < 20
  {
    PowersOfTwo();
    if BitLength(Or1(n)) > 64 {
      PowMonotone(2, 64, BitLength(Or1(n)) - 1);
    }
  }

  // ---------- printing ----------

  /** The entry of the table of digit pairs. */
  function Pair(n: nat): (s: string)
    requires n < 100
    ensures |s| == 2
  {
    [DigitOf(n / 10), DigitOf(n % 10)]
  }

  lemma TwoMore(n: nat)
    requires n >= 10
    ensures n >= 100 ==> Decimal(n) == Decimal(n / 100) + Pair(n % 100)
    ensures n < 100 ==> Decimal(n) == Pair(n)
  {
    if n >= 100 {
      assert n / 10 / 10 == n / 100 && n / 10 % 10 == n % 100 / 10 && n % 10 == n % 100 % 10;
      assert Decimal(n) == Decimal(n / 10) + [DigitOf(n % 10)];
      assert Decimal(n / 10) == Decimal(n / 100) + [DigitOf(n / 10 % 10)];
    }
  }

  lemma TwoMoreInFront(n: nat, tail: string)
    requires n >= 100
    ensures Decimal(n) + tail == Decimal(n / 100) + (Pair(n % 100) + tail)
    ensures |Decimal(n)| == |Decimal(n / 100)| + 2
  {
    TwoMore(n);
  }

  /** Writes the digits of a number backwards, two at a time, so that they end where the
      space of the given size ends. */
  method FormatDecimal(buf: array<char>, out: nat, value: nat, size: nat) returns (begin: nat, end: nat)
    requires |Decimal(value)| <= size && out + size <= buf.Length
    modifies buf
    ensures end == out + size && begin == end - |Decimal(value)| && buf[begin..end] == Decimal(value)
    ensures buf[..begin] == old(buf[..begin]) && buf[end..] == old(buf[end..])
  {
    begin, end := out + size, out + size;
    var n := value;
    ghost var s, tail := buf[..], "";
    assert s[..begin] + tail + s[end..] == s;
    while n >= 100
      invariant begin <= end && out + |Decimal(n)| <= begin
      invariant Decimal(value) == Decimal(n) + tail
      invariant Holds(buf[..], s, begin, tail, end)
    {
      TwoMoreInFront(n, tail);
      begin := begin - 2;
      Put2(buf, begin, Pair(n % 100), s, tail, end);
      tail := Pair(n % 100) + tail;
      n := n / 100;
    }
    if n < 10 {
      begin := begin - 1;
      InFront(buf[..], s, begin, DigitOf(n), tail, end);
      buf[begin] := DigitOf(n);
      Parts(buf[..], s, begin, Decimal(value), end);
      return;
    }
    TwoMore(n);
    begin := begin - 2;
    Put2(buf, begin, Pair(n), s, tail, end);
    Parts(buf[..], s, begin, Decimal(value), end);
  }

  /** The text stands between begin and end, and the rest is as it was. */
  ghost predicate Holds(t: string, s: string, begin: nat, text: string, end: nat) {
    begin + |text| == end <= |s| && t == s[..begin] + text + s[end..]
  }

  lemma Parts(t: string, s: string, begin: nat, text: string, end: nat)
    requires Holds(t, s, begin, text, end)
    ensures |t| == |s| && t[begin..end] == text && t[..begin] == s[..begin] && t[end..] == s[end..]
  {
  }

  lemma InFront(t: string, s: string, begin: nat, c: char, text: string, end: nat)
    requires Holds(t, s, begin + 1, text, end)
    ensures |t| == |s| && Holds(t[begin := c], s, begin, [c] + text, end)
  {
    assert s[..begin + 1][..begin] == s[..begin];
  }

  method Put2(buf: array<char>, p: nat, pair: string, ghost s: string, ghost tail: string, ghost end: nat)
    requires |pair| == 2 && buf.Length == |s| && Holds(buf[..], s, p + 2, tail, end)
    modifies buf
    ensures Holds(buf[..], s, p, pair + tail, end)
  {
    InFront(buf[..], s, p + 1, pair[1], tail, end);
    buf[p + 1] := pair[1];
    InFront(buf[..], s, p, pair[0], [pair[1]] + tail, end);
    buf[p] := pair[0];
    assert [pair[0]] + ([pair[1]] + tail) == pair + tail;
  }

  /** The decimal form of a signed number. */
  function Signed(n: int): string {
    if n < 0 then "-" + Decimal(-n) else Decimal(n)
  }

  const BUFFER_SIZE := 22 // std::numeric_limits<unsigned long long>::digits10 + 3

  lemma FitsBuffer(n: U64)
    ensures |Decimal(n)| <= 20
  {
    PowersOfTen();
    PowAdd(10, 19, 1);
    DecimalLength(n);
    if |Decimal(n)| > 20 {
      PowMonotone(10, 20, |Decimal(n)| - 1);
    }
  }

  predicate InRange(value: int, bits: nat) {
    (bits == 32 && -TWO_31 <= value < TWO_31) || (bits == 64 && -TWO_63 <= value < TWO_63)
  }

  /** The absolute value in unsigned arithmetic. */
  method Magnitude(value: int, bits: nat) returns (absValue: U64)
    requires InRange(value, bits)
    ensures absValue == if value < 0 then -value else value
  {
    var modulus := if bits == 32 then TWO_32 else TWO_64;
    absValue := if value < 0 then value + modulus else value;
    if value < 0 {
      absValue := (0 - absValue) % modulus;
    }
  }

  /** The fast integer formatter; its text is at the end of a buffer, before a place for a
      null character. */
  class FormatInt {
    const buffer: array<char>
    var str: nat

    ghost predicate Valid()
      reads this
    {
      buffer.Length == BUFFER_SIZE && str < BUFFER_SIZE
    }

    constructor Unsigned(value: U64)
      ensures Valid() && fresh(buffer) && Text() == Decimal(value)
    {
      buffer := new char[BUFFER_SIZE];
      str := 0;
      new;
      FormatUnsigned(value);
    }

    /** For 32-bit and 64-bit arguments, the negation wraps around in the unsigned type. */
    constructor SignedValue(value: int, bits: nat)
      requires InRange(value, bits)
      ensures Valid() && fresh(buffer) && Text() == Signed(value)
    {
      buffer := new char[BUFFER_SIZE];
      str := 0;
      new;
      var absValue := Magnitude(value, bits);
      FormatUnsigned(absValue);
      if value < 0 {
        WriteSign();
      }
    }

    method WriteSign()
      requires Valid() && str >= 1
      modifies this`str, buffer
      ensures Valid() && Text() == "-" + old(Text())
    {
      ghost var digits := Text();
      str := str - 1;
      buffer[str] := '-';
      assert Text() == [buffer[str]] + digits;
    }

    method FormatUnsigned(value: U64)
      requires buffer.Length == BUFFER_SIZE
      modifies this`str, buffer
      ensures Valid() && str >= 1 && Text() == Decimal(value)
    {
      FitsBuffer(value);
      var begin, _ := FormatDecimal(buffer, 0, value, BUFFER_SIZE - 1);
      str := begin;
    }

    function Size(): nat
      requires Valid()
      reads this
    {
      BUFFER_SIZE - 1 - str
    }

    /** The characters data() points to, size() of them. */
    ghost function Text(): string
      requires Valid()
      reads this, buffer
    {
      buffer[str..str + Size()]
    }
  }

  // ---------- parsing ----------

  const MAX_INT := 0x7FFF_FFFF

  /** The end of the digits that start at p. */
  function RunEnd(s: string, p: nat): (e: nat)
    requires p <= |s|
    ensures p <= e <= |s|
    decreases |s| - p
  {
    if p < |s| && IsDigit(s[p]) then RunEnd(s, p + 1) else p
  }

  lemma {:induction false} RunIsDigits(s: string, p: nat)
    requires p <= |s|
    ensures AllDigits(s[p..RunEnd(s, p)]) && (RunEnd(s, p) < |s| ==> !IsDigit(s[RunEnd(s, p)]))
    ensures p < |s| && IsDigit(s[p]) ==> RunEnd(s, p) > p
    decreases |s| - p
  {
    if p < |s| && IsDigit(s[p]) {
      RunIsDigits(s, p + 1);
      assert s[p..RunEnd(s, p)] == [s[p]] + s[p + 1..RunEnd(s, p)];
    }
  }

  /** The digits are a number that fits an int, or the format string is in error. */
  function IntegerAt(s: string, p: nat): Result<nat>
    requires p < |s| && IsDigit(s[p])
  {
    RunIsDigits(s, p);
    ReadsNonnegative(s[p..RunEnd(s, p)]);
    var n := DecimalValue(s[p..RunEnd(s, p)]);
    if n <= MAX_INT then Ok(n) else Error
  }

  lemma {:induction false} ReadsNonnegative(s: string)
    requires AllDigits(s)
    ensures DecimalValue(s) >= 0
  {
    if |s| > 0 {
      ReadsNonnegative(s[..|s| - 1]);
    }
  }

  lemma {:induction false} LongerIsLarger(s: string, p: nat)
    requires p < |s| && AllDigits(s)
    ensures DecimalValue(s) >= 10 * DecimalValue(s[..p]) >= 0
  {
    ReadsNonnegative(s[..p]);
    var n := |s| - 1;
    if p < n {
      LongerIsLarger(s[..n], p);
      assert s[..n][..p] == s[..p];
    }
  }

  /** All digits are taken, as every number of them but the last one is small enough for
      another digit. */
  predicate TakenWhole(s: string, p: nat)
    requires p < |s| && IsDigit(s[p])
  {
    RunIsDigits(s, p);
    DecimalValue(s[p..RunEnd(s, p) - 1]) <= MAX_INT / 10
  }

  /** Once the number of some of the digits is large, so is that of all but the last. */
  lemma LongerRun(s: string, p: nat, q: nat, e: nat)
    requires p < q < e <= |s| && AllDigits(s[p..e])
    ensures DecimalValue(s[p..e - 1]) >= DecimalValue(s[p..q])
    ensures DecimalValue(s[p..e]) >= 10 * DecimalValue(s[p..q]) >= 0
  {
    assert s[p..e][..q - p] == s[p..q];
    LongerIsLarger(s[p..e], q - p);
    if q < e - 1 {
      assert s[p..e - 1] == s[p..e][..e - 1 - p];
      assert s[p..e - 1][..q - p] == s[p..q];
      LongerIsLarger(s[p..e - 1], q - p);
    }
  }

  lemma OneMoreDigit(s: string, p: nat, q: nat)
    requires p <= q < |s|
    ensures DecimalValue(s[p..q + 1]) == 10 * DecimalValue(s[p..q]) + (s[q] as int - '0' as int)
  {
    assert s[p..q + 1] == s[p..q] + [s[q]];
    DecimalSnoc(s[p..q], s[q]);
  }

  /** After the digits up to q have been taken. */
  ghost predicate Taken(s: string, p: nat, q: nat, value: int)
    requires p <= |s|
  {
    && p <= q <= RunEnd(s, p) && RunEnd(s, q) == RunEnd(s, p)
    && 0 <= value < TWO_32 && value == DecimalValue(s[p..q])
    && (q > p ==> DecimalValue(s[p..q - 1]) <= MAX_INT / 10)
  }

  lemma OneMoreTaken(s: string, p: nat, q: nat, value: int)
    requires p <= q < |s| && IsDigit(s[q]) && Taken(s, p, q, value) && value <= MAX_INT / 10
    ensures Taken(s, p, q + 1, value * 10 + (s[q] as int - '0' as int))
  {
    OneMoreDigit(s, p, q);
  }

  method ParseNonnegativeInt(s: string, begin: nat) returns (r: Result<nat>, next: nat)
    requires begin < |s| && IsDigit(s[begin])
    ensures r == IntegerAt(s, begin) && (r.Ok? ==> next == RunEnd(s, begin))
    ensures begin < next <= RunEnd(s, begin) && (next == RunEnd(s, begin) <==> TakenWhole(s, begin))
  {
    RunIsDigits(s, begin);
    var value := 0; // 32 bits wide
    var big := MAX_INT / 10;
    next := begin;
    while next == begin || (next < |s| && IsDigit(s[next]))
      invariant Taken(s, begin, next, value)
      decreases |s| - next
    {
      if value > big {
        LongerRun(s, begin, next, RunEnd(s, begin));
        return Error, next;
      }
      OneMoreTaken(s, begin, next, value);
      value := value * 10 + (s[next] as int - '0' as int);
      next := next + 1;
    }
    r := if value > MAX_INT then Error else Ok(value);
  }

  /** Printing an int and parsing it back gives the number, whatever follows the digits. */
  lemma ParsingUndoesPrinting(n: nat, rest: string)
    requires n <= MAX_INT && (rest == "" || !IsDigit(rest[0]))
    ensures IsDigit((Decimal(n) + rest)[0]) && IntegerAt(Decimal(n) + rest, 0) == Ok(n)
    ensures RunEnd(Decimal(n) + rest, 0) == |Decimal(n)|
  {
    DecimalReadsBack(n);
    var s := Decimal(n) + rest;
    RunIs(s, 0, |Decimal(n)|);
    assert s[0..|Decimal(n)|] == Decimal(n);
  }

  lemma {:induction false} RunIs(s: string, p: nat, e: nat)
    requires p <= e <= |s| && AllDigits(s[p..e]) && (e < |s| ==> !IsDigit(s[e]))
    ensures RunEnd(s, p) == e
    decreases e - p
  {
    if p < e {
      assert s[p] == s[p..e][0];
      assert s[p..e][1..] == s[p + 1..e];
      RunIs(s, p + 1, e);
    }
  }
}
