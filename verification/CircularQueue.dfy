/**
 The ring buffer behind both the asynchronous queue and the ring-buffer sink: a bounded
 queue that drops its oldest item when it is over capacity.
 */
module CircularQueues {
  import opened Powers

  /** How an item left the queue. */
  datatype Fate<T> = Popped(item: T) | Dropped(item: T)

  /** The items of a bounded queue after one more has been pushed. */
  function Kept<T>(held: seq<T>, capacity: nat, item: T): (r: seq<T>)
    requires |held| <= capacity
    ensures |r| <= capacity
  {
    if |held| < capacity then held + [item] else (held + [item])[1..]
  }

  /** The oldest item, dropped when there is no room. */
  function Overrun<T>(held: seq<T>, capacity: nat, item: T): (r: seq<Fate<T>>)
    requires |held| <= capacity
  {
    if |held| < capacity then [] else [Dropped((held + [item])[0])]
  }

  function Items<T>(gone: seq<Fate<T>>): seq<T> {
    if |gone| == 0 then [] else Items(gone[..|gone| - 1]) + [gone[|gone| - 1].item]
  }

  function Drops<T>(gone: seq<Fate<T>>): nat {
    if |gone| == 0 then 0
    else Drops(gone[..|gone| - 1]) + if gone[|gone| - 1].Dropped? then 1 else 0
  }

  lemma GoneAppend<T>(gone: seq<Fate<T>>, fate: Fate<T>)
    ensures Drops(gone + [fate]) == Drops(gone) + if fate.Dropped? then 1 else 0
    ensures Items(gone + [fate]) == Items(gone) + [fate.item]
  {
    assert (gone + [fate])[..|gone|] == gone;
  }

  /** Everything pushed is, in order, either gone with its fate recorded or still held, and
      the counter is the number of drops in 64-bit arithmetic. */
  ghost predicate Accounted<T>(pushed: seq<T>, gone: seq<Fate<T>>, held: seq<T>, counter: U64) {
    pushed == Items(gone) + held && counter == Drops(gone) % TWO_64
  }

  lemma NextCount(drops: nat)
    ensures (drops % TWO_64 + 1) % TWO_64 == (drops + 1) % TWO_64
  {
  }

  lemma PushAccounted<T>(pushed: seq<T>, gone: seq<Fate<T>>, held: seq<T>, counter: U64,
                         capacity: nat, item: T)
    requires Accounted(pushed, gone, held, counter) && |held| <= capacity
    ensures Accounted(pushed + [item], gone + Overrun(held, capacity, item), Kept(held, capacity, item),
                      if |held| < capacity then counter else (counter + 1) % TWO_64)
  {
    NextCount(Drops(gone));
    if |held| < capacity {
      assert gone + [] == gone;
      assert pushed + [item] == Items(gone) + (held + [item]);
    } else {
      var all := held + [item];
      GoneAppend(gone, Dropped(all[0]));
      assert pushed + [item] == Items(gone) + all == Items(gone) + [all[0]] + all[1..];
    }
  }

  lemma PopAccounted<T>(pushed: seq<T>, gone: seq<Fate<T>>, held: seq<T>, counter: U64)
    requires Accounted(pushed, gone, held, counter) && |held| > 0
    ensures Accounted(pushed, gone + [Popped(held[0])], held[1..], counter)
  {
    GoneAppend(gone, Popped(held[0]));
    assert Items(gone) + held == Items(gone) + [held[0]] + held[1..];
  }

  // ---------- positions in the ring ----------

  lemma OnceAround(p: nat, slots: nat)
    requires p < 2 * slots
    ensures p % slots == if p < slots then p else p - slots
  {
    MulOne(slots);
    QuotientIs(p, slots, if p < slots then 0 else 1);
  }

  function NextSlot(p: nat, slots: nat): nat {
    if p + 1 < slots then p + 1 else 0
  }

  /** The position after p. */
  method Following(p: nat, slots: nat) returns (r: nat)
    requires p < slots
    ensures r == NextSlot(p, slots)
  {
    OnceAround(p + 1, slots);
    r := (p + 1) % slots;
  }

  /** The position n places after head. */
  function Position(head: nat, n: nat, slots: nat): nat {
    if head + n < slots then head + n else head + n - slots
  }

  lemma Wrapped(head: nat, i: nat, slots: nat)
    requires head < slots <= TWO_63 && i < slots
    ensures (head + i) % TWO_64 % slots == Position(head, i, slots) < slots
  {
    OnceAround(head + i, slots);
    OnceAround(head + i, TWO_64);
  }

  function Distance(head: nat, tail: nat, slots: nat): (n: nat)
    requires slots == 0 ==> head == tail
    requires slots > 0 ==> head < slots && tail < slots
    ensures slots > 0 ==> n < slots && tail == Position(head, n, slots)
    ensures n == 0 <==> head == tail
  {
    if tail >= head then tail - head else slots - (head - tail)
  }

  /** The n items from position head on, around the end. */
  ghost function Window<T>(v: seq<T>, head: nat, n: nat): (r: seq<T>)
    requires n <= |v| && (n > 0 ==> head < |v|)
    ensures |r| == n
  {
    if n == 0 then [] else Window(v, head, n - 1) + [v[Position(head, n - 1, |v|)]]
  }

  lemma {:induction false} WindowAt<T>(v: seq<T>, head: nat, n: nat, i: nat)
    requires head < |v| && i < n <= |v|
    ensures Window(v, head, n)[i] == v[Position(head, i, |v|)]
  {
    if i < n - 1 {
      WindowAt(v, head, n - 1, i);
    }
  }

  lemma {:induction false} WindowKeeps<T>(v: seq<T>, head: nat, tail: nat, m: nat, n: nat, item: T)
    requires head < |v| && m <= n < |v| && tail == Position(head, n, |v|)
    ensures Window(v[tail := item], head, m) == Window(v, head, m)
  {
    if m > 0 {
      WindowKeeps(v, head, tail, m - 1, n, item);
    }
  }

  lemma WindowPush<T>(v: seq<T>, head: nat, tail: nat, n: nat, item: T)
    requires head < |v| && n < |v| && tail == Position(head, n, |v|)
    ensures Window(v[tail := item], head, n + 1) == Window(v, head, n) + [item]
  {
    WindowKeeps(v, head, tail, n, n, item);
  }

  lemma FirstDropped<T>(s: seq<T>, x: T)
    requires |s| > 0
    ensures (s + [x])[1..] == s[1..] + [x]
  {
  }

  lemma {:induction false} WindowPop<T>(v: seq<T>, head: nat, n: nat)
    requires head < |v| && n < |v|
    ensures Window(v, NextSlot(head, |v|), n) == Window(v, head, n + 1)[1..]
  {
    if n > 0 {
      WindowPop(v, head, n - 1);
      FirstDropped(Window(v, head, n), v[Position(head, n, |v|)]);
      assert Position(NextSlot(head, |v|), n - 1, |v|) == Position(head, n, |v|);
    }
  }

  /** What writing at the tail and moving on does to the window, the head giving way when
      the tail catches up with it. */
  lemma WindowAfterPush<T>(v: seq<T>, head: nat, tail: nat, item: T, head': nat, tail': nat)
    requires head < |v| && tail < |v|
    requires tail' == NextSlot(tail, |v|) && head' == if tail' == head then NextSlot(head, |v|) else head
    ensures Window(v[tail := item], head', Distance(head', tail', |v|))
         == Kept(Window(v, head, Distance(head, tail, |v|)), |v| - 1, item)
    ensures tail' == head <==> Distance(head, tail, |v|) == |v| - 1
  {
    var n := Distance(head, tail, |v|);
    WindowPush(v, head, tail, n, item);
    if n == |v| - 1 {
      WindowPop(v[tail := item], head, n);
    }
  }

  class CircularQueue<T(0)> {
    var maxItems: nat // one more than the capacity; zero for a disabled queue
    var head: nat
    var tail: nat
    var overrunCounter: U64
    var v: array<T>

    ghost var pushed: seq<T> // everything pushed while enabled
    ghost var gone: seq<Fate<T>> // everything that has left, oldest first

    ghost predicate Valid()
      reads this, v
    {
      && Shape()
      && Accounted(pushed, gone, Contents(), overrunCounter)
    }

    predicate Shape()
      reads `maxItems, `head, `tail, `v
    {
      && maxItems <= TWO_63
      && (maxItems == 0 ==> head == tail == 0)
      && (maxItems > 0 ==> head < maxItems && tail < maxItems && v.Length == maxItems)
    }

    function Capacity(): nat
      reads `maxItems
    {
      if maxItems == 0 then 0 else maxItems - 1
    }

    /** The held items, oldest first. */
    ghost function Contents(): (r: seq<T>)
      requires Shape()
      reads `maxItems, `head, `tail, `v, v
      ensures |r| == Size() <= Capacity()
    {
      if maxItems == 0 then [] else Window(v[..], head, Size())
    }

    constructor Disabled()
      ensures Valid() && fresh(v) && Capacity() == 0 && Contents() == [] && pushed == [] && gone == []
    {
      maxItems, head, tail, overrunCounter := 0, 0, 0, 0;
      v := new T[0];
      pushed, gone := [], [];
    }

    /** A capacity of 2^64 - 1 wraps around to a disabled queue. */
    constructor (capacity: U64)
      requires (capacity + 1) % TWO_64 <= TWO_63
      ensures Valid() && fresh(v) && Contents() == [] && pushed == [] && gone == []
      ensures Capacity() == if capacity == TWO_64 - 1 then 0 else capacity
      ensures maxItems == 0 <==> capacity == TWO_64 - 1
    {
      var slots := (capacity + 1) % TWO_64;
      maxItems, head, tail, overrunCounter := slots, 0, 0, 0;
      v := new T[slots];
      pushed, gone := [], [];
    }

    /** A disabled queue ignores the item; one of capacity zero drops it at once. */
    method PushBack(item: T)
      requires Valid()
      modifies this, v
      ensures Valid() && v == old(v) && maxItems == old(maxItems)
      ensures maxItems == 0 ==> unchanged(this) && unchanged(v)
      ensures maxItems > 0 ==> Contents() == Kept(old(Contents()), Capacity(), item)
      ensures maxItems > 0 ==> pushed == old(pushed) + [item]
      ensures maxItems > 0 ==> gone == old(gone) + Overrun(old(Contents()), Capacity(), item)
    {
      if maxItems > 0 {
        Append(item);
      }
    }

    method Append(item: T)
      requires Valid() && maxItems > 0
      modifies this, v
      ensures Valid() && v == old(v) && maxItems == old(maxItems)
      ensures Contents() == Kept(old(Contents()), Capacity(), item)
      ensures pushed == old(pushed) + [item]
      ensures gone == old(gone) + Overrun(old(Contents()), Capacity(), item)
    {
      ghost var held := Contents();
      PushAccounted(pushed, gone, held, overrunCounter, Capacity(), item);
      pushed := pushed + [item];
      gone := gone + Overrun(held, Capacity(), item);
      Store(item);
    }

    method Store(item: T)
      requires Shape() && maxItems > 0
      modifies `head, `tail, `overrunCounter, v
      ensures Shape() && Contents() == Kept(old(Contents()), Capacity(), item)
      ensures overrunCounter == if |old(Contents())| < Capacity() then old(overrunCounter)
                                else (old(overrunCounter) + 1) % TWO_64
    {
      ghost var before, slot := v[..], tail;
      ghost var tail' := NextSlot(tail, maxItems);
      ghost var head' := if tail' == head then NextSlot(head, maxItems) else head;
      WindowAfterPush(before, head, tail, item, head', tail');
      v[tail] := item;
      assert v[..] == before[slot := item];
      Advance();
    }

    /** Moves the tail on, and the head if the tail catches up with it. */
    method Advance()
      requires maxItems > 0 && head < maxItems && tail < maxItems
      modifies `head, `tail, `overrunCounter
      ensures tail == NextSlot(old(tail), maxItems)
      ensures head == if tail == old(head) then NextSlot(old(head), maxItems) else old(head)
      ensures overrunCounter == if tail == old(head) then (old(overrunCounter) + 1) % TWO_64 else old(overrunCounter)
    {
      tail := Following(tail, maxItems);
      if tail == head {
        head := Following(head, maxItems);
        overrunCounter := (overrunCounter + 1) % TWO_64;
      }
    }

    function Front(): (r: T)
      requires Valid() && Size() > 0
      reads this, v
      ensures r == Contents()[0]
    {
      WindowAt(v[..], head, Size(), 0);
      v[head]
    }

    function Size(): (r: nat)
      requires Shape()
      reads `maxItems, `head, `tail, `v
      ensures r <= Capacity() && r == Distance(head, tail, maxItems)
    {
      if tail >= head then tail - head else maxItems - (head - tail)
    }

    method At(i: nat) returns (r: T)
      requires Shape() && i < Size()
      ensures r == Contents()[i]
    {
      Wrapped(head, i, maxItems);
      WindowAt(v[..], head, Size(), i);
      r := v[(head + i) % TWO_64 % maxItems];
    }

    method PopFront()
      requires Valid() && Size() > 0
      modifies this
      ensures Valid() && v == old(v) && maxItems == old(maxItems)
      ensures Contents() == old(Contents())[1..]
      ensures pushed == old(pushed) && gone == old(gone) + [Popped(old(Contents())[0])]
    {
      ghost var held := Contents();
      PopAccounted(pushed, gone, held, overrunCounter);
      gone := gone + [Popped(held[0])];
      Retire();
    }

    /** Moves the head on. */
    method Retire()
      requires Shape() && Size() > 0
      modifies `head
      ensures Shape() && Contents() == old(Contents())[1..]
    {
      WindowPop(v[..], head, Size() - 1);
      head := Following(head, maxItems);
    }

    predicate Empty()
      requires Valid()
      reads this, v
      ensures Empty() <==> Contents() == []
    {
      tail == head
    }

    /** A disabled queue is never full; one of capacity zero always is. */
    method Full() returns (full: bool)
      requires Valid()
      ensures full <==> maxItems > 0 && |Contents()| == Capacity()
    {
      if maxItems > 0 {
        var next := Following(tail, maxItems);
        return next == head;
      }
      return false;
    }

    /** Takes over the contents of another queue and leaves that one disabled. Moving a
        queue to itself loses its contents. */
    method CopyMoveable(other: CircularQueue<T>)
      requires other.Valid()
      modifies this, other
      ensures other != this ==> Valid() && Contents() == old(other.Contents())
      ensures other != this ==> Capacity() == old(other.Capacity())
      ensures other != this ==> pushed == old(other.pushed) && gone == old(other.gone)
      ensures other != this ==> v == old(other.v)
      ensures other.Valid() && other.maxItems == 0 && other.Contents() == [] && fresh(other.v)
    {
      maxItems := other.maxItems;
      head := other.head;
      tail := other.tail;
      overrunCounter := other.overrunCounter;
      v := other.v;
      pushed, gone := other.pushed, other.gone;
      other.Disable();
    }

    /** The state of a queue that has been moved from. */
    method Disable()
      modifies this
      ensures Valid() && maxItems == 0 && Contents() == [] && fresh(v)
    {
      maxItems := 0;
      head, tail := 0, 0;
      overrunCounter := 0;
      v := new T[0];
      pushed, gone := [], [];
    }
  }

  // ---------- the ring-buffer sink ----------

  /** The last n items, or all of them when there are fewer. */
  function Newest<T>(s: seq<T>, n: nat): (r: seq<T>) {
    s[|s| - (if n < |s| then n else |s|)..]
  }

  lemma NewestKept<T>(s: seq<T>, capacity: nat, item: T)
    ensures |Newest(s, capacity)| <= capacity
    ensures Kept(Newest(s, capacity), capacity, item) == Newest(s + [item], capacity)
  {
  }

  lemma NewestOfNewest<T>(s: seq<T>, m: nat, n: nat)
    requires n <= |Newest(s, m)|
    ensures Newest(Newest(s, m), n) == Newest(s, n)
    ensures Newest(s, |s|) == s
  {
  }

  lemma OneMoreCopied<T>(s: seq<T>, first: nat, i: nat)
    requires first <= i < |s|
    ensures s[first..i] + [s[i]] == s[first..i + 1]
  {
  }

  lemma AllCopied<T>(s: seq<T>, first: nat)
    requires first <= |s|
    ensures s[first..|s|] == s[first..]
  {
  }

  class RingbufferSink<T(0)> {
    const q: CircularQueue<T>
    ghost var logged: seq<T> // everything sent to the sink

    /** Nothing is ever popped, so the newest items logged are the ones held. */
    ghost predicate Valid()
      reads this, q, q.v
    {
      q.Valid() && q.Contents() == Newest(logged, q.Capacity())
    }

    constructor (items: U64)
      requires (items + 1) % TWO_64 <= TWO_63
      ensures Valid() && fresh(q) && fresh(q.v) && logged == []
      ensures q.Capacity() == if items == TWO_64 - 1 then 0 else items
    {
      q := new CircularQueue<T>(items);
      logged := [];
    }

    method SinkIt(msg: T)
      requires Valid()
      modifies this, q, q.v
      ensures Valid() && q.v == old(q.v) && q.Capacity() == old(q.Capacity())
      ensures logged == old(logged) + [msg]
    {
      NewestKept(logged, q.Capacity(), msg);
      logged := logged + [msg];
      q.PushBack(msg);
    }

    /** The newest messages logged, oldest of them first; a limit of zero means no limit. */
    method LastRaw(lim: U64) returns (ret: seq<T>)
      requires Valid()
      ensures ret == Newest(logged, if 0 < lim < q.Capacity() then lim else q.Capacity())
    {
      var available := q.Size();
      var n := if lim > 0 then (if lim < available then lim else available) else available;
      ret := CopyFrom(available - n, available);
      NewestOfNewest(logged, q.Capacity(), n);
    }

    method CopyFrom(first: nat, available: nat) returns (ret: seq<T>)
      requires q.Shape() && first <= available == q.Size()
      ensures ret == q.Contents()[first..]
    {
      ghost var held := q.Contents();
      ret := [];
      var i := first;
      while i < available
        invariant first <= i <= available && ret == held[first..i]
      {
        OneMoreCopied(held, first, i);
        var item := q.At(i);
        ret := ret + [item];
        i := i + 1;
      }
      AllCopied(held, first);
    }
  }
}
