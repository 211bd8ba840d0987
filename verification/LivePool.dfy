/**
 The thread pool before its destructor posts anything: whatever has been posted, or is being
 posted, is processed, without a further post and without a wait that times out.
 */
module LivePool {
  import opened CircularQueues
  import opened ThreadPool
  import Queue = BlockingQueue

  /** A step that is no new post, gives no reference back, and ends no wait by itself. */
  predicate Quiet(e: Event) {
    e.Step? && !e.action.Enqueue? && !e.action.EnqueueNowait? && !e.action.Wake?
  }

  ghost predicate QuietRun(run: seq<Event>) {
    forall i :: 0 <= i < |run| ==> Quiet(run[i])
  }

  /** No terminate message has been posted, nor is one on its way. */
  ghost predicate Live(p: Pool) {
    && PoolInv(p) && Terminate !in p.q.pushed
    && (p.Stopping() ==> Total(p.q.threads, Posting) == 0)
  }

  lemma RunningIsLive(p: Pool)
    requires PoolInv(p) && !p.Stopping()
    ensures Live(p)
  {
  }

  /** Nothing is queued, no worker has a message, and no post is under way. */
  ghost predicate Drained(p: Pool) {
    && p.q.items == []
    && (forall t :: 0 <= t < |p.q.threads| ==> Hand(p.q.threads[t]) == [] && Posting(p.q.threads[t]) == 0)
  }

  // ---------- a live pool stays live ----------

  /** A thread that is no post under way does not become one by a quiet step. */
  lemma NoNewPost(p: Pool, e: Event)
    requires |p.q.items| <= p.q.capacity && Allowed(p, e) && Quiet(e)
    requires Total(p.q.threads, Posting) == 0
    ensures Total(After(p, e).q.threads, Posting) == 0 && Posted(p, e) == []
  {
    TotalZero(p.q.threads, Posting);
    assert Posting(p.q.threads[e.thread]) == 0;
    NextTotal(p.q, e.thread, e.action, Posting);
  }

  lemma LiveKeeps(p: Pool, e: Event)
    requires Live(p) && Allowed(p, e) && Quiet(e)
    ensures Live(After(p, e)) && After(p, e).workers == p.workers && After(p, e).q.capacity == p.q.capacity
  {
    PoolStepKeeps(p, e);
    StepPushed(p, e);
    if p.Stopping() {
      NoNewPost(p, e);
    } else {
      QueuedIsPushed(p);
      StepPosts(p, e);
      StepPosting(p, e);
    }
  }

  lemma QueuedIsPushed(p: Pool)
    requires PoolInv(p) && Terminate !in p.q.pushed
    ensures Terminate !in p.q.items
  {
    if Terminate in p.q.items {
      ItemsArePushed(p.q, Terminate);
    }
  }

  /** No worker has exited, since each that has took a terminate message. */
  lemma NobodyLeft(p: Pool, t: nat)
    requires Live(p) && t < |p.q.threads|
    ensures !p.q.threads[t].Exited?
  {
    NothingTaken(p.q.pushed, p.q.gone, p.q.items, p.processed, InHand(p.q.threads));
    ExitedIsCounted(p.q.threads, t);
  }

  lemma ExitedIsCounted(threads: seq<Queue.Status<Msg>>, t: nat)
    requires t < |threads|
    ensures threads[t].Exited? ==> InHand(threads)[Terminate] >= 1
  {
    if threads[t].Exited? {
      HandIsInHand(threads, t);
      OneIsCounted(Hand(threads[t]), InHand(threads));
    }
  }

  lemma OneIsCounted(hand: seq<Msg>, hands: multiset<Msg>)
    requires hand == [Terminate] && multiset(hand) <= hands
    ensures hands[Terminate] >= 1
  {
    assert multiset(hand)[Terminate] == 1;
  }

  lemma NothingTaken(pushed: seq<Msg>, gone: seq<Fate<Msg>>, items: seq<Msg>, processed: seq<Msg>,
                     hands: multiset<Msg>)
    requires pushed == Items(gone) + items && Terminate !in pushed
    requires multiset(Taken(gone)) == multiset(processed) + hands
    ensures hands[Terminate] == 0
  {
    EverythingHasAFate(gone);
    assert multiset(pushed) == multiset(Items(gone)) + multiset(items);
    assert multiset(pushed)[Terminate] == 0;
  }

  // ---------- somebody can go on ----------

  /** A thread that is awake with something left to do, without posting anything new. */
  predicate CanStir(p: Pool, t: nat)
    requires t < |p.q.threads|
  {
    match p.q.threads[t]
    case Idle => t < p.workers
    case WaitsToPush(_) => false
    case WaitsToPop => false
    case Exited => false
    case _ => true
  }

  lemma StirringThreadsMove(p: Pool, t: nat)
    requires Live(p) && t < |p.q.threads| && CanStir(p, t)
    ensures Allowed(p, Step(t, Turn(p, t))) && Quiet(Step(t, Turn(p, t)))
  {
    assert InRole(p, t);
  }

  /** In a live pool with work to do some thread can go on: nothing waits for a time-out, for
      another post, or for the destructor. */
  lemma LiveMoves(p: Pool) returns (t: nat)
    requires Live(p) && p.q.capacity >= 1 && p.workers >= 1 && !Drained(p)
    ensures t < |p.q.threads| && CanStir(p, t)
    ensures Allowed(p, Step(t, Turn(p, t))) && Quiet(Step(t, Turn(p, t)))
  {
    if exists u :: 0 <= u < |p.q.threads| && CanStir(p, u) {
      t :| 0 <= t < |p.q.threads| && CanStir(p, t);
      StirringThreadsMove(p, t);
    } else {
      NobodyStirs(p);
      assert false;
    }
  }

  lemma NobodyStirs(p: Pool)
    requires Live(p) && p.q.capacity >= 1 && p.workers >= 1
    requires forall u :: 0 <= u < |p.q.threads| ==> !CanStir(p, u)
    ensures Drained(p)
  {
    forall u | 0 <= u < |p.q.threads|
      ensures !Queue.Is(p.q.threads[u], Queue.StirringProducer) && !Queue.Is(p.q.threads[u], Queue.StirringConsumer)
    {
      assert !CanStir(p, u);
    }
    NobodyLeft(p, 0);
    assert !CanStir(p, 0) && InRole(p, 0);
    Queue.SleepersAreServed(p.q, 0);
    forall u | 0 <= u < |p.q.threads|
      ensures Hand(p.q.threads[u]) == [] && Posting(p.q.threads[u]) == 0
    {
      NobodyLeft(p, u);
      assert !CanStir(p, u);
      Queue.SleepersAreServed(p.q, u);
    }
  }

  // ---------- and not for ever ----------

  /** What is left to do for a thread; a post under way has all of its message's way to go. */
  function LiveWeight(status: Queue.Status<Msg>): nat {
    match status
    case WaitsToPush(_) => 8
    case WokenToPush(_) => 9
    case _ => Weight(status)
  }

  function LiveAhead(p: Pool): nat {
    4 * |p.q.items| + Total(p.q.threads, LiveWeight)
  }

  lemma LiveGain(p: Pool, e: Event)
    requires Roles(p) && |p.q.items| <= p.q.capacity && Allowed(p, e) && Quiet(e)
    ensures var t, a := e.thread, e.action;
            var status := Queue.Next(p.q, t, a).threads[t];
            LiveWeight(status) - LiveWeight(p.q.threads[t]) + 4 * |After(p, e).q.items| - 4 * |p.q.items|
            + (if a.Notify? && a.woken != Queue.NOBODY
               then LiveWeight(Queue.Awake(p.q.threads[a.woken], a.timedOut)) - LiveWeight(p.q.threads[a.woken]) else 0)
            <= -1
  {
    assert InRole(p, e.thread);
  }

  lemma LiveAdvances(p: Pool, e: Event)
    requires Live(p) && Allowed(p, e) && Quiet(e)
    ensures LiveAhead(After(p, e)) < LiveAhead(p)
  {
    NextTotal(p.q, e.thread, e.action, LiveWeight);
    LiveGain(p, e);
  }

  // ---------- where the messages go ----------

  /** One for a post of m that is waiting for room. */
  function Awaited(m: Msg): Queue.Status<Msg> -> nat {
    (status: Queue.Status<Msg>) => if (status.WaitsToPush? || status.WokenToPush?) && status.item == m then 1 else 0
  }

  /** How often m has been processed, is being processed, is queued, or waits for room. */
  ghost function Owed(p: Pool, m: Msg): nat {
    multiset(p.processed)[m] + InHand(p.q.threads)[m] + multiset(p.q.items)[m] + Total(p.q.threads, Awaited(m))
  }

  lemma OwedIs(p: Pool, m: Msg)
    requires PoolInv(p)
    ensures Owed(p, m) == multiset(p.q.pushed)[m] - multiset(Lost(p.q.gone))[m] + Total(p.q.threads, Awaited(m))
  {
    EverythingHasAFate(p.q.gone);
    assert multiset(p.q.pushed) == multiset(Items(p.q.gone)) + multiset(p.q.items);
  }

  lemma StepAwaited(p: Pool, e: Event, m: Msg)
    requires |p.q.items| <= p.q.capacity && Allowed(p, e) && Quiet(e)
    ensures Total(After(p, e).q.threads, Awaited(m))
         == Total(p.q.threads, Awaited(m)) - multiset(Posted(p, e))[m]
  {
    NextTotal(p.q, e.thread, e.action, Awaited(m));
    AwaitedGain(p, e, m);
  }

  lemma AwaitedGain(p: Pool, e: Event, m: Msg)
    requires |p.q.items| <= p.q.capacity && Allowed(p, e) && Quiet(e)
    ensures Awaited(m)(Queue.Next(p.q, e.thread, e.action).threads[e.thread])
         == Awaited(m)(p.q.threads[e.thread]) - multiset(Posted(p, e))[m]
    ensures e.action.Notify? && e.action.woken != Queue.NOBODY
        ==> (Awaited(m)(Queue.Awake(p.q.threads[e.action.woken], e.action.timedOut))
             == Awaited(m)(p.q.threads[e.action.woken]))
  {
  }

  /** A quiet step loses no message and adds none. */
  lemma QuietStepOwes(p: Pool, e: Event, m: Msg)
    requires PoolInv(p) && Allowed(p, e) && Quiet(e)
    ensures Owed(After(p, e), m) == Owed(p, m)
  {
    hide Roles, Farewells, Work, Owed, Posted;
    PoolStepKeeps(p, e);
    OwedIs(p, m);
    OwedIs(After(p, e), m);
    StepLog(p, e);
    StepAwaited(p, e, m);
    assert multiset(p.q.pushed + Posted(p, e)) == multiset(p.q.pushed) + multiset(Posted(p, e));
    assert LostNow(p, e) == [] && Lost(p.q.gone) + [] == Lost(p.q.gone);
  }

  ghost predicate SameDebts(p: Pool, p': Pool) {
    forall m :: Owed(p', m) == Owed(p, m)
  }

  lemma StepOwesTheSame(p: Pool, e: Event)
    requires PoolInv(p) && Allowed(p, e) && Quiet(e)
    ensures SameDebts(p, After(p, e))
  {
    forall m
      ensures Owed(After(p, e), m) == Owed(p, m)
    {
      QuietStepOwes(p, e, m);
    }
  }

  // ---------- runs ----------

  /** However threads are scheduled: a run without new posts, releases or waits that end by
      themselves is bounded, accounts for every message, and unless everything has been
      processed by its end it can go on. */
  lemma QuietRunDrains(p: Pool, run: seq<Event>)
    requires Live(p) && p.q.capacity >= 1 && p.workers >= 1 && LegalRun(p, run) && QuietRun(run)
    ensures Live(AfterRun(p, run)) && |run| + LiveAhead(AfterRun(p, run)) <= LiveAhead(p)
    ensures SameDebts(p, AfterRun(p, run))
    ensures Drained(AfterRun(p, run))
         || exists t: nat :: && t < |AfterRun(p, run).q.threads| && CanStir(AfterRun(p, run), t)
                             && LegalRun(p, run + [Step(t, Turn(AfterRun(p, run), t))])
                             && QuietRun(run + [Step(t, Turn(AfterRun(p, run), t))])
    decreases |run|
  {
    RunKeeps(p, run);
    if !Drained(AfterRun(p, run)) {
      var t := LiveMoves(AfterRun(p, run));
      LongerRun(p, run, Step(t, Turn(AfterRun(p, run), t)));
      QuietLonger(run, Step(t, Turn(AfterRun(p, run), t)));
    }
  }

  lemma QuietLonger(run: seq<Event>, e: Event)
    requires QuietRun(run) && Quiet(e)
    ensures QuietRun(run + [e]) && QuietRun([e] + run)
  {
  }

  lemma FirstStep(p: Pool, e: Event, rest: seq<Event>)
    requires |p.q.items| <= p.q.capacity && Allowed(p, e) && LegalRun(After(p, e), rest)
    ensures LegalRun(p, [e] + rest) && AfterRun(p, [e] + rest) == AfterRun(After(p, e), rest)
  {
    assert ([e] + rest)[0] == e && ([e] + rest)[1..] == rest;
  }

  lemma {:induction false} RunKeeps(p: Pool, run: seq<Event>)
    requires Live(p) && LegalRun(p, run) && QuietRun(run)
    ensures Live(AfterRun(p, run)) && |run| + LiveAhead(AfterRun(p, run)) <= LiveAhead(p)
    ensures AfterRun(p, run).workers == p.workers && AfterRun(p, run).q.capacity == p.q.capacity
    ensures SameDebts(p, AfterRun(p, run))
    decreases |run|
  {
    hide LiveAhead, Owed, Allowed, Roles, Farewells, Work;
    if |run| > 0 {
      var next := After(p, run[0]);
      LiveKeeps(p, run[0]);
      LiveAdvances(p, run[0]);
      RunKeeps(next, run[1..]);
      StepOwesTheSame(p, run[0]);
    }
  }

  /** So from every state of a live pool some such run processes everything. */
  lemma {:induction false} LivePoolDrains(p: Pool) returns (run: seq<Event>)
    requires Live(p) && p.q.capacity >= 1 && p.workers >= 1
    ensures LegalRun(p, run) && QuietRun(run) && |run| <= LiveAhead(p)
    ensures Live(AfterRun(p, run)) && Drained(AfterRun(p, run))
    ensures Settled(p, AfterRun(p, run).processed)
    decreases LiveAhead(p)
  {
    if Drained(p) {
      run := [];
      AllProcessed(p);
    } else {
      var t := LiveMoves(p);
      var e := Step(t, Turn(p, t));
      LiveKeeps(p, e);
      LiveAdvances(p, e);
      StepOwesTheSame(p, e);
      var rest := LivePoolDrains(After(p, e));
      FirstStep(p, e, rest);
      QuietLonger(rest, e);
      run := [e] + rest;
    }
  }

  /** The processed messages are all that were owed. */
  ghost predicate Settled(p: Pool, processed: seq<Msg>) {
    forall m :: multiset(processed)[m] == Owed(p, m)
  }

  lemma AllProcessed(p: Pool)
    requires Drained(p)
    ensures Settled(p, p.processed)
  {
    EmptyHanded(p.q.threads);
    forall m
      ensures multiset(p.processed)[m] == Owed(p, m)
    {
      forall t | 0 <= t < |p.q.threads|
        ensures Awaited(m)(p.q.threads[t]) == 0
      {
        assert Posting(p.q.threads[t]) == 0;
      }
      TotalZero(p.q.threads, Awaited(m));
    }
  }

  lemma {:induction false} EmptyHanded(threads: seq<Queue.Status<Msg>>)
    requires forall t :: 0 <= t < |threads| ==> Hand(threads[t]) == []
    ensures InHand(threads) == multiset{}
  {
    if |threads| > 0 {
      var n := |threads| - 1;
      assert forall t :: 0 <= t < n ==> threads[..n][t] == threads[t];
      EmptyHanded(threads[..n]);
    }
  }

  // ---------- posts ----------

  /** A message that an idle thread posts, waiting for room or overrunning the oldest one, is
      processed in some run without further posts or time-outs. */
  lemma PostIsProcessed(p: Pool, t: nat, m: Msg, a: Queue.Action<Msg>) returns (run: seq<Event>)
    requires PoolInv(p) && !p.Stopping() && p.q.capacity >= 1 && p.workers >= 1
    requires p.workers <= t < |p.q.threads| && p.q.threads[t].Idle? && m != Terminate
    requires a == Queue.Enqueue(m) || a == Queue.EnqueueNowait(m)
    ensures |run| > 0 && run[0] == Step(t, a) && QuietRun(run[1..]) && LegalRun(p, run)
    ensures Drained(AfterRun(p, run)) && m in AfterRun(p, run).processed
  {
    var e := Step(t, a);
    assert Allowed(p, e);
    PoolStepKeeps(p, e);
    PostStarts(p, t, m, a);
    RunningIsLive(After(p, e));
    var rest := LivePoolDrains(After(p, e));
    FirstStep(p, e, rest);
    run := [e] + rest;
    assert run[1..] == rest;
    assert multiset(AfterRun(p, run).processed)[m] == Owed(After(p, e), m);
  }

  lemma PostStarts(p: Pool, t: nat, m: Msg, a: Queue.Action<Msg>)
    requires PoolInv(p) && !p.Stopping() && p.q.capacity >= 1
    requires p.workers <= t < |p.q.threads| && p.q.threads[t].Idle? && m != Terminate
    requires a == Queue.Enqueue(m) || a == Queue.EnqueueNowait(m)
    ensures Allowed(p, Step(t, a)) && !After(p, Step(t, a)).Stopping() && Owed(After(p, Step(t, a)), m) >= 1
  {
    var next := After(p, Step(t, a));
    if next.q.threads[t].WaitsToPush? {
      TotalZero(next.q.threads, Awaited(m));
      assert Awaited(m)(next.q.threads[t]) == 1;
    } else {
      NewestIsHeld(p.q.items, p.q.capacity, m);
      assert m in next.q.items;
    }
  }

  lemma NewestIsHeld(items: seq<Msg>, capacity: nat, m: Msg)
    requires |items| <= capacity && capacity >= 1
    ensures m in Kept(items, capacity, m)
  {
    var kept := Kept(items, capacity, m);
    assert kept[|kept| - 1] == m;
  }

  // ---------- from beginning to end ----------

  lemma {:induction false} RunsJoin(p: Pool, first: seq<Event>, second: seq<Event>)
    requires |p.q.items| <= p.q.capacity && LegalRun(p, first)
    requires |AfterRun(p, first).q.items| <= AfterRun(p, first).q.capacity && LegalRun(AfterRun(p, first), second)
    ensures LegalRun(p, first + second) && AfterRun(p, first + second) == AfterRun(AfterRun(p, first), second)
    decreases |first|
  {
    if |first| > 0 {
      assert (first + second)[0] == first[0] && (first + second)[1..] == first[1..] + second;
      RunsJoin(After(p, first[0]), first[1..], second);
    } else {
      assert first + second == second;
    }
  }

  /** When no post is under way, only the owners keep the destructor from starting. */
  lemma {:induction false} OwnersLetGo(p: Pool) returns (run: seq<Event>)
    requires PoolInv(p) && (p.Stopping() || Total(p.q.threads, Posting) == 0)
    ensures |run| == p.refs && LegalRun(p, run) && forall i :: 0 <= i < |run| ==> run[i] == Release
    ensures PoolInv(AfterRun(p, run)) && AfterRun(p, run).Stopping()
    ensures AfterRun(p, run).q == p.q && AfterRun(p, run).workers == p.workers
    ensures AfterRun(p, run).processed == p.processed
    decreases p.refs
  {
    if p.Stopping() {
      run := [];
    } else {
      PoolStepKeeps(p, Release);
      var rest := OwnersLetGo(After(p, Release));
      FirstStep(p, Release, rest);
      run := [Release] + rest;
    }
  }

  /** Every pool can come to its end: what is left to do is done, the owners let go, and the
      destructor sees all workers off, after which the books balance. */
  lemma EveryPoolEnds(p: Pool) returns (work: seq<Event>, farewell: seq<Event>)
    requires Live(p) && p.q.capacity >= 1 && p.workers >= 1
    ensures QuietRun(work) && LegalRun(p, work + farewell) && Wakes(farewell) == 0
    ensures LegalRun(p, work) && Settled(p, AfterRun(p, work).processed)
    ensures var end := AfterRun(p, work + farewell);
            && AllExited(end.q.threads, p.workers) && end.q.items == []
            && multiset(end.q.pushed)[Terminate := 0] == multiset(end.processed) + multiset(Lost(end.q.gone))
  {
    work := LivePoolDrains(p);
    var idle := AfterRun(p, work);
    RunKeeps(p, work);
    NoPosts(idle);
    var releases := OwnersLetGo(idle);
    var last := ShutdownFinishes(AfterRun(idle, releases));
    farewell := releases + last;
    RunsJoin(idle, releases, last);
    RunsJoin(p, work, farewell);
    ShutdownIsComplete(AfterRun(AfterRun(idle, releases), last));
    NobodyWakes(releases, last);
  }

  lemma {:induction false} NobodyWakes(releases: seq<Event>, last: seq<Event>)
    requires (forall i :: 0 <= i < |releases| ==> releases[i] == Release) && Wakes(last) == 0
    ensures Wakes(releases + last) == 0
  {
    if |releases| > 0 {
      assert (releases + last)[0] == Release && (releases + last)[1..] == releases[1..] + last;
      NobodyWakes(releases[1..], last);
    } else {
      assert releases + last == last;
    }
  }

  lemma NoPosts(p: Pool)
    requires Drained(p)
    ensures Total(p.q.threads, Posting) == 0
  {
    TotalZero(p.q.threads, Posting);
  }
}
