/**
 The multi-producer, multi-consumer blocking queue. A section that holds the mutex is one
 atomic step; notify_one, called after the mutex is released, is a step of its own, so other
 threads can run between the two, take the mutex before a thread that has been woken, or
 wake up by themselves.
 */
module BlockingQueue {
  import opened Powers
  import opened CircularQueues
  import opened Wrappers

  // ---------- threads ----------

  datatype Status<M> =
    | Idle
    | WaitsToPush(item: M) // asleep on pop_cv_
    | WokenToPush(item: M) // awake, about to look again under the mutex
    | OwesPushNotice // has pushed and will call push_cv_.notify_one
    | WaitsToPop // asleep on push_cv_
    | WokenToPop(timedOut: bool)
    | OwesPopNotice(item: M) // has popped and will call pop_cv_.notify_one
    | Holds(item: M) // dequeue_for has returned the item
    | Exited

  datatype State<M> = State(capacity: nat, items: seq<M>, pushed: seq<M>, gone: seq<Fate<M>>,
                            threads: seq<Status<M>>)

  const NOBODY := -1

  datatype Action<M> =
    | Enqueue(item: M)
    | EnqueueNowait(item: M)
    | Dequeue
    | Recheck // a woken thread has the mutex again
    | Notify(woken: int, timedOut: bool) // notify_one; the woken thread may see a timeout as well
    | Wake(timedOut: bool) // a wait ends by itself, by timeout or spuriously
    | Return(next: Status<M>) // the caller has dealt with the item it was given

  predicate Enabled<M>(s: State<M>, t: nat, a: Action<M>) {
    t < |s.threads| &&
    match a
    case Enqueue(_) => s.threads[t].Idle?
    case EnqueueNowait(_) => s.threads[t].Idle?
    case Dequeue => s.threads[t].Idle?
    case Recheck => s.threads[t].WokenToPush? || s.threads[t].WokenToPop?
    case Notify(w, _) =>
      (s.threads[t].OwesPushNotice? && Wakes(s, SleepingConsumer, w))
      || (s.threads[t].OwesPopNotice? && Wakes(s, SleepingProducer, w))
    case Wake(_) => s.threads[t].WaitsToPush? || s.threads[t].WaitsToPop?
    case Return(next) => s.threads[t].Holds? && (next.Idle? || next.Exited?)
  }

  /** Some sleeper is woken if there is one. */
  predicate Wakes<M>(s: State<M>, kind: Kind, w: int) {
    if w == NOBODY then Count(s.threads, kind) == 0
    else 0 <= w < |s.threads| && Is(s.threads[w], kind)
  }

  function Become<M>(s: State<M>, t: nat, status: Status<M>): State<M>
    requires t < |s.threads|
  {
    s.(threads := s.threads[t := status])
  }

  function Push<M>(s: State<M>, item: M): State<M>
    requires |s.items| <= s.capacity
  {
    s.(items := Kept(s.items, s.capacity, item), pushed := s.pushed + [item],
       gone := s.gone + Overrun(s.items, s.capacity, item))
  }

  function TryPush<M>(s: State<M>, t: nat, item: M): State<M>
    requires t < |s.threads| && |s.items| <= s.capacity
  {
    if |s.items| < s.capacity then Become(Push(s, item), t, OwesPushNotice)
    else Become(s, t, WaitsToPush(item))
  }

  function TryPop<M>(s: State<M>, t: nat, timedOut: bool): State<M>
    requires t < |s.threads|
  {
    if |s.items| > 0 then
      Become(s.(items := s.items[1..], gone := s.gone + [Popped(s.items[0])]), t,
             OwesPopNotice(s.items[0]))
    else Become(s, t, if timedOut then Idle else WaitsToPop)
  }

  /** A thread whose wait has ended. */
  function Awake<M>(status: Status<M>, timedOut: bool): Status<M>
    requires status.WaitsToPush? || status.WaitsToPop?
  {
    if status.WaitsToPush? then WokenToPush(status.item) else WokenToPop(timedOut)
  }

  function Next<M>(s: State<M>, t: nat, a: Action<M>): (r: State<M>)
    requires Enabled(s, t, a) && |s.items| <= s.capacity
    ensures r.capacity == s.capacity && |r.items| <= r.capacity && |r.threads| == |s.threads|
  {
    match a
    case Enqueue(item) => TryPush(s, t, item)
    case EnqueueNowait(item) => Become(Push(s, item), t, OwesPushNotice)
    case Dequeue => TryPop(s, t, false)
    case Recheck =>
      if s.threads[t].WokenToPush? then TryPush(s, t, s.threads[t].item)
      else TryPop(s, t, s.threads[t].timedOut)
    case Notify(w, timedOut) =>
      var s' := if w == NOBODY then s else Become(s, w, Awake(s.threads[w], timedOut));
      Become(s', t, if s.threads[t].OwesPushNotice? then Idle else Holds(s.threads[t].item))
    case Wake(timedOut) => Become(s, t, Awake(s.threads[t], timedOut))
    case Return(next) => Become(s, t, next)
  }

  // ---------- the sections under the mutex ----------

  /** The shared state itself. Each section below does to it what the step of the same name
      does, on behalf of thread t. */
  class MpmcBlockingQueue<T(0)> {
    const q: CircularQueue<T>

    ghost predicate Valid()
      reads this, q, q.v
    {
      q.Valid() && q.maxItems > 0
    }

    ghost predicate Shows(s: State<T>)
      requires Valid()
      reads this, q, q.v
    {
      q.Contents() == s.items && q.Capacity() == s.capacity && q.pushed == s.pushed && q.gone == s.gone
    }

    constructor (maxItems: U64)
      requires maxItems + 1 <= TWO_63
      ensures Valid() && fresh(q) && fresh(q.v)
      ensures forall threads :: Shows(State(maxItems, [], [], [], threads))
    {
      q := new CircularQueue<T>(maxItems);
    }

    /** What enqueue does each time it has the mutex: false sends it (back) to sleep. */
    method Enqueue(item: T, ghost s: State<T>, ghost t: nat) returns (done: bool)
      requires Valid() && Shows(s) && t < |s.threads|
      modifies q, q.v
      ensures Valid() && q.v == old(q.v) && |s.items| <= s.capacity && Shows(TryPush(s, t, item))
      ensures TryPush(s, t, item).threads[t] == if done then OwesPushNotice else WaitsToPush(item)
    {
      var full := q.Full();
      if full {
        return false;
      }
      q.PushBack(item);
      done := true;
    }

    method EnqueueNowait(item: T, ghost s: State<T>)
      requires Valid() && Shows(s)
      modifies q, q.v
      ensures Valid() && q.v == old(q.v) && |s.items| <= s.capacity && Shows(Push(s, item))
    {
      q.PushBack(item);
    }

    /** What dequeue_for does each time it has the mutex. */
    method Dequeue(timedOut: bool, ghost s: State<T>, ghost t: nat) returns (item: Option<T>)
      requires Valid() && Shows(s) && t < |s.threads|
      modifies q
      ensures Valid() && q.v == old(q.v) && Shows(TryPop(s, t, timedOut))
      ensures item.Some? ==> TryPop(s, t, timedOut).threads[t] == OwesPopNotice(item.value)
      ensures item.None? ==> TryPop(s, t, timedOut).threads[t] == if timedOut then Idle else WaitsToPop
    {
      if q.Empty() {
        return None;
      }
      item := Some(q.Front());
      q.PopFront();
    }
  }

  // ---------- no wake-up is lost ----------

  datatype Kind = SleepingProducer | StirringProducer | SleepingConsumer | StirringConsumer

  /** A producer stirs for a free slot when it is about to look for one, or when a consumer
      is about to wake one up; likewise for consumers and items. */
  predicate Is<M>(status: Status<M>, kind: Kind) {
    match kind
    case SleepingProducer => status.WaitsToPush?
    case StirringProducer => status.WokenToPush? || status.OwesPopNotice?
    case SleepingConsumer => status.WaitsToPop?
    case StirringConsumer => status.WokenToPop? || status.OwesPushNotice?
  }

  function One<M>(status: Status<M>, kind: Kind): nat {
    if Is(status, kind) then 1 else 0
  }

  function Count<M>(threads: seq<Status<M>>, kind: Kind): nat {
    if |threads| == 0 then 0
    else Count(threads[..|threads| - 1], kind) + One(threads[|threads| - 1], kind)
  }

  lemma {:induction false} CountUpdate<M>(threads: seq<Status<M>>, t: nat, status: Status<M>, kind: Kind)
    requires t < |threads|
    ensures Count(threads[t := status], kind)
         == Count(threads, kind) - One(threads[t], kind) + One(status, kind)
  {
    var n := |threads| - 1;
    if t == n {
      assert threads[t := status][..n] == threads[..n];
    } else {
      assert threads[t := status][..n] == threads[..n][t := status];
      CountUpdate(threads[..n], t, status, kind);
    }
  }

  lemma {:induction false} CountIsPositive<M>(threads: seq<Status<M>>, kind: Kind)
    ensures Count(threads, kind) > 0 <==> exists t :: 0 <= t < |threads| && Is(threads[t], kind)
  {
    if |threads| > 0 {
      CountIsPositive(threads[..|threads| - 1], kind);
      if Count(threads[..|threads| - 1], kind) > 0 {
        var t :| 0 <= t < |threads| - 1 && Is(threads[..|threads| - 1][t], kind);
        assert Is(threads[t], kind);
      }
    }
  }

  /** While a producer sleeps, every free slot has somebody stirring for it, and while a
      consumer sleeps, every item has. */
  ghost predicate NoLostWakeup<M>(s: State<M>) {
    && (Count(s.threads, SleepingProducer) > 0
        ==> s.capacity - |s.items| <= Count(s.threads, StirringProducer))
    && (Count(s.threads, SleepingConsumer) > 0
        ==> |s.items| <= Count(s.threads, StirringConsumer))
  }

  ghost predicate Inv<M>(s: State<M>) {
    && |s.items| <= s.capacity
    && s.pushed == Items(s.gone) + s.items
    && NoLostWakeup(s)
  }

  lemma Start<M>(capacity: nat, threads: seq<Status<M>>)
    requires forall t :: 0 <= t < |threads| ==> threads[t] == Idle
    ensures Inv(State(capacity, [], [], [], threads))
  {
    CountIsPositive(threads, SleepingProducer);
    CountIsPositive(threads, SleepingConsumer);
  }

  lemma BecomeCounts<M>(s: State<M>, t: nat, status: Status<M>)
    requires t < |s.threads|
    ensures forall kind :: Count(Become(s, t, status).threads, kind)
                        == Count(s.threads, kind) - One(s.threads[t], kind) + One(status, kind)
  {
    forall kind
      ensures Count(Become(s, t, status).threads, kind)
           == Count(s.threads, kind) - One(s.threads[t], kind) + One(status, kind)
    {
      CountUpdate(s.threads, t, status, kind);
    }
  }

  lemma PushKeeps<M>(s: State<M>, t: nat, item: M)
    requires Inv(s) && t < |s.threads|
    requires s.threads[t].Idle? || (s.threads[t].WokenToPush? && |s.items| < s.capacity)
    ensures Inv(Become(Push(s, item), t, OwesPushNotice))
  {
    BecomeCounts(Push(s, item), t, OwesPushNotice);
    PushAccounted(s.pushed, s.gone, s.items, Drops(s.gone) % TWO_64, s.capacity, item);
  }

  lemma PopKeeps<M>(s: State<M>, t: nat, timedOut: bool)
    requires Inv(s) && t < |s.threads| && (s.threads[t].Idle? || s.threads[t].WokenToPop?)
    ensures Inv(TryPop(s, t, timedOut))
  {
    if |s.items| > 0 {
      PopAccounted(s.pushed, s.gone, s.items, Drops(s.gone) % TWO_64);
      BecomeCounts(s, t, OwesPopNotice(s.items[0]));
    } else {
      BecomeCounts(s, t, if timedOut then Idle else WaitsToPop);
    }
  }

  lemma NotifyKeeps<M>(s: State<M>, t: nat, w: int, timedOut: bool)
    requires Inv(s) && Enabled(s, t, Notify(w, timedOut))
    ensures Inv(Next(s, t, Notify(w, timedOut)))
  {
    var after := if s.threads[t].OwesPushNotice? then Idle else Holds(s.threads[t].item);
    if w == NOBODY {
      BecomeCounts(s, t, after);
    } else {
      WakingKeeps(s, t, w, Awake(s.threads[w], timedOut), after);
    }
  }

  /** The duty to notify passes to the thread that is woken. */
  lemma WakingKeeps<M>(s: State<M>, t: nat, w: nat, awake: Status<M>, after: Status<M>)
    requires Inv(s) && t < |s.threads| && w < |s.threads| && w != t
    requires after.Idle? || after.Holds?
    requires || (s.threads[t].OwesPushNotice? && s.threads[w].WaitsToPop? && awake.WokenToPop?)
             || (s.threads[t].OwesPopNotice? && s.threads[w].WaitsToPush? && awake.WokenToPush?)
    ensures Inv(Become(Become(s, w, awake), t, after))
  {
    BecomeCounts(s, w, awake);
    BecomeCounts(Become(s, w, awake), t, after);
  }

  /** Every step of every thread keeps the invariant. */
  lemma StepKeeps<M>(s: State<M>, t: nat, a: Action<M>)
    requires Inv(s) && Enabled(s, t, a)
    ensures Inv(Next(s, t, a))
  {
    match a
    case Enqueue(item) =>
      if |s.items| < s.capacity {
        PushKeeps(s, t, item);
      } else {
        BecomeCounts(s, t, WaitsToPush(item));
      }
    case EnqueueNowait(item) => PushKeeps(s, t, item);
    case Dequeue => PopKeeps(s, t, false);
    case Recheck =>
      if s.threads[t].WokenToPop? {
        PopKeeps(s, t, s.threads[t].timedOut);
      } else if |s.items| < s.capacity {
        PushKeeps(s, t, s.threads[t].item);
      } else {
        BecomeCounts(s, t, WaitsToPush(s.threads[t].item));
      }
    case Notify(w, timedOut) => NotifyKeeps(s, t, w, timedOut);
    case Wake(timedOut) => BecomeCounts(s, t, Awake(s.threads[t], timedOut));
    case Return(next) => BecomeCounts(s, t, next);
  }

  // ---------- runs ----------

  datatype Turn<M> = Turn(thread: nat, action: Action<M>)

  ghost predicate Legal<M>(s: State<M>, run: seq<Turn<M>>)
    requires |s.items| <= s.capacity
    decreases |run|
  {
    |run| > 0 ==>
      && Enabled(s, run[0].thread, run[0].action)
      && Legal(Next(s, run[0].thread, run[0].action), run[1..])
  }

  ghost function After<M>(s: State<M>, run: seq<Turn<M>>): State<M>
    requires |s.items| <= s.capacity && Legal(s, run)
    decreases |run|
  {
    if |run| == 0 then s else After(Next(s, run[0].thread, run[0].action), run[1..])
  }

  /** In every state that any run reaches, no wake-up is lost and nothing pushed is. */
  lemma {:induction false} RunKeeps<M>(s: State<M>, run: seq<Turn<M>>)
    requires Inv(s) && Legal(s, run)
    ensures Inv(After(s, run))
    decreases |run|
  {
    if |run| > 0 {
      StepKeeps(s, run[0].thread, run[0].action);
      RunKeeps(Next(s, run[0].thread, run[0].action), run[1..]);
    }
  }

  /** A sleeper whose condition holds is never alone: some thread is about to look or to
      notify. So when nobody stirs any more, the producers that sleep find the queue full
      and the consumers that sleep find it empty. */
  lemma SleepersAreServed<M>(s: State<M>, t: nat)
    requires Inv(s) && t < |s.threads|
    ensures s.threads[t].WaitsToPush? && |s.items| < s.capacity
        ==> exists u :: 0 <= u < |s.threads| && Is(s.threads[u], StirringProducer)
    ensures s.threads[t].WaitsToPop? && |s.items| > 0
        ==> exists u :: 0 <= u < |s.threads| && Is(s.threads[u], StirringConsumer)
  {
    if s.threads[t].WaitsToPush? {
      assert Is(s.threads[t], SleepingProducer);
    } else if s.threads[t].WaitsToPop? {
      assert Is(s.threads[t], SleepingConsumer);
    }
    CountIsPositive(s.threads, SleepingProducer);
    CountIsPositive(s.threads, StirringProducer);
    CountIsPositive(s.threads, SleepingConsumer);
    CountIsPositive(s.threads, StirringConsumer);
  }

  /** What a wait for an item comes to that ends by itself: an item if there is one, and
      otherwise nothing on a time-out, or else more waiting. */
  lemma WaitForItemEnds<M>(s: State<M>, t: nat, timedOut: bool)
    requires t < |s.threads| && s.threads[t].WaitsToPop? && |s.items| <= s.capacity
    ensures Enabled(s, t, Wake(timedOut)) && Enabled(Next(s, t, Wake(timedOut)), t, Recheck)
    ensures var s' := Next(Next(s, t, Wake(timedOut)), t, Recheck);
            if |s.items| > 0 then
              s'.threads[t] == OwesPopNotice(s.items[0]) && s'.items == s.items[1..]
              && s'.gone == s.gone + [Popped(s.items[0])]
            else
              s'.threads[t] == (if timedOut then Idle else WaitsToPop) && s'.items == s.items && s'.gone == s.gone
  {
  }

  /** A wait for room ends only when there is room; a time-out makes no difference to it. */
  lemma WaitForRoomEnds<M>(s: State<M>, t: nat, timedOut: bool)
    requires t < |s.threads| && s.threads[t].WaitsToPush? && |s.items| <= s.capacity
    ensures Enabled(s, t, Wake(timedOut)) && Enabled(Next(s, t, Wake(timedOut)), t, Recheck)
    ensures var m, s' := s.threads[t].item, Next(Next(s, t, Wake(timedOut)), t, Recheck);
            if |s.items| < s.capacity then
              s'.threads[t] == OwesPushNotice && s'.items == s.items + [m] && s'.pushed == s.pushed + [m]
            else
              s'.threads[t] == s.threads[t] && s'.items == s.items && s'.pushed == s.pushed
  {
  }

  /** The variant that notifies before releasing the mutex takes two of these steps at once. */
  lemma NotifyingUnderTheMutexKeeps<M>(s: State<M>, t: nat, a: Action<M>, w: int, timedOut: bool)
    requires Inv(s) && Enabled(s, t, a) && Enabled(Next(s, t, a), t, Notify(w, timedOut))
    ensures Inv(Next(s, t, a)) && Inv(Next(Next(s, t, a), t, Notify(w, timedOut)))
  {
    StepKeeps(s, t, a);
    StepKeeps(Next(s, t, a), t, Notify(w, timedOut));
  }
}
