/**
 The thread pool behind asynchronous logging: N workers and any number of posting threads on
 one blocking queue. Threads 0 to N - 1 are the workers; thread N is the one that will run
 the destructor. The destructor starts when the last reference to the pool is gone, and a
 post holds a reference while it lasts.
 */
module ThreadPool {
  import opened Powers
  import opened CircularQueues
  import opened BlockingQueue

  datatype Msg = Log(id: int) | Flush(id: int) | Terminate

  datatype Pool = Pool(q: State<Msg>, workers: nat, owners: nat, refs: nat, processed: seq<Msg>)
  {
    predicate Stopping() {
      refs == 0
    }
  }

  datatype Event = Step(thread: nat, action: Action<Msg>) | Release

  /** Workers run worker_loop_; other threads post, at first whatever they like, and in the
      destructor one terminate message per worker. */
  predicate Allowed(p: Pool, e: Event) {
    match e
    case Release => p.owners > 0 && p.refs > 0
    case Step(t, a) =>
      && Enabled(p.q, t, a)
      && if t < p.workers then
           match a
           case Enqueue(_) => false
           case EnqueueNowait(_) => false
           case Return(next) => next.Exited? <==> p.q.threads[t].item == Terminate
           case _ => true
         else
           match a
           case Enqueue(m) =>
             if p.Stopping() then t == p.workers && m == Terminate && Terminates(p.q.pushed) < p.workers
             else m != Terminate
           case EnqueueNowait(m) => !p.Stopping() && m != Terminate
           case Dequeue => false
           case Return(_) => false
           case _ => true
  }

  /** References held: a post takes one when it starts and gives it back when it is over. */
  function RefsAfter(p: Pool, e: Event): nat
    requires Allowed(p, e)
  {
    if p.Stopping() then 0
    else match e
      case Release => p.refs - 1
      case Step(t, a) =>
        if a.Enqueue? || a.EnqueueNowait? then p.refs + 1
        else if a.Notify? && p.q.threads[t].OwesPushNotice? then p.refs - 1
        else p.refs
  }

  function After(p: Pool, e: Event): Pool
    requires Allowed(p, e) && |p.q.items| <= p.q.capacity
  {
    var p' := p.(refs := RefsAfter(p, e));
    match e
    case Release => p'.(owners := p.owners - 1)
    case Step(t, a) =>
      p'.(q := Next(p.q, t, a),
          processed := p.processed + if a.Return? && a.next.Idle? then [p.q.threads[t].item] else [])
  }

  // ---------- counting ----------

  function Terminates(s: seq<Msg>): nat {
    multiset(s)[Terminate]
  }

  function Total<M>(threads: seq<Status<M>>, f: Status<M> -> nat): nat {
    if |threads| == 0 then 0
    else Total(threads[..|threads| - 1], f) + f(threads[|threads| - 1])
  }

  lemma UpdateBelow<T>(s: seq<T>, t: nat, x: T)
    requires t < |s| - 1
    ensures s[t := x][..|s| - 1] == s[..|s| - 1][t := x] && s[t := x][|s| - 1] == s[|s| - 1]
    ensures s[..|s| - 1][t] == s[t]
  {
  }

  lemma {:induction false} TotalUpdate<M>(threads: seq<Status<M>>, t: nat, status: Status<M>,
                                          f: Status<M> -> nat)
    requires t < |threads|
    ensures Total(threads[t := status], f) == Total(threads, f) - f(threads[t]) + f(status)
  {
    var n := |threads| - 1;
    if t == n {
      assert threads[t := status][..n] == threads[..n];
    } else {
      UpdateBelow(threads, t, status);
      TotalUpdate(threads[..n], t, status, f);
    }
  }

  lemma {:induction false} TotalZero<M>(threads: seq<Status<M>>, f: Status<M> -> nat)
    ensures Total(threads, f) == 0 <==> forall t :: 0 <= t < |threads| ==> f(threads[t]) == 0
  {
    if |threads| > 0 {
      TotalZero(threads[..|threads| - 1], f);
      assert forall t :: 0 <= t < |threads| - 1 ==> threads[..|threads| - 1][t] == threads[t];
    }
  }

  function Posting(status: Status<Msg>): nat {
    if status.WaitsToPush? || status.WokenToPush? || status.OwesPushNotice? then 1 else 0
  }

  /** The message a worker has taken and not finished with; an exited one keeps its terminate. */
  function Hand(status: Status<Msg>): seq<Msg> {
    match status
    case OwesPopNotice(m) => [m]
    case Holds(m) => [m]
    case Exited => [Terminate]
    case _ => []
  }

  function InHand(threads: seq<Status<Msg>>): multiset<Msg> {
    if |threads| == 0 then multiset{}
    else InHand(threads[..|threads| - 1]) + multiset(Hand(threads[|threads| - 1]))
  }

  lemma {:induction false} InHandUpdate(threads: seq<Status<Msg>>, t: nat, status: Status<Msg>)
    requires t < |threads|
    ensures InHand(threads[t := status]) + multiset(Hand(threads[t]))
         == InHand(threads) + multiset(Hand(status))
  {
    var n := |threads| - 1;
    if t == n {
      assert threads[t := status][..n] == threads[..n];
      BagsSwap(InHand(threads[..n]), multiset(Hand(status)), multiset(Hand(threads[n])));
    } else {
      UpdateBelow(threads, t, status);
      InHandUpdate(threads[..n], t, status);
      BagsWith(InHand(threads[t := status][..n]), InHand(threads[..n]), multiset(Hand(threads[t])),
               multiset(Hand(status)), multiset(Hand(threads[n])));
    }
  }

  lemma BagsSwap(a: multiset<Msg>, x: multiset<Msg>, y: multiset<Msg>)
    ensures a + x + y == a + y + x
  {
  }

  lemma BagsWith(a: multiset<Msg>, b: multiset<Msg>, x: multiset<Msg>, y: multiset<Msg>,
                 z: multiset<Msg>)
    requires a + x == b + y
    ensures (a + z) + x == (b + z) + y
  {
    assert (a + z) + x == (a + x) + z;
    assert (b + z) + y == (b + y) + z;
  }

  /** The messages taken from the queue, in the order in which they were. */
  function Taken(gone: seq<Fate<Msg>>): seq<Msg> {
    if |gone| == 0 then [] else
    Taken(gone[..|gone| - 1]) + (if gone[|gone| - 1].Popped? then [gone[|gone| - 1].item] else [])
  }

  function Lost(gone: seq<Fate<Msg>>): seq<Msg> {
    if |gone| == 0 then [] else
    Lost(gone[..|gone| - 1]) + (if gone[|gone| - 1].Dropped? then [gone[|gone| - 1].item] else [])
  }

  lemma TakenAppend(gone: seq<Fate<Msg>>, fate: Fate<Msg>)
    ensures Taken(gone + [fate]) == Taken(gone) + if fate.Popped? then [fate.item] else []
    ensures Lost(gone + [fate]) == Lost(gone) + if fate.Dropped? then [fate.item] else []
  {
    assert (gone + [fate])[..|gone|] == gone;
  }

  lemma {:induction false} EverythingHasAFate(gone: seq<Fate<Msg>>)
    ensures multiset(Items(gone)) == multiset(Taken(gone)) + multiset(Lost(gone))
  {
    if |gone| > 0 {
      EverythingHasAFate(gone[..|gone| - 1]);
    }
  }

  // ---------- the invariant ----------

  /** Terminate messages come after all others. */
  ghost predicate TerminatesLast(s: seq<Msg>) {
    |s| > 0 ==>
      && TerminatesLast(s[..|s| - 1])
      && (Terminate in s[..|s| - 1] ==> s[|s| - 1] == Terminate)
  }

  /** Workers only take, other threads only post, and only the destructor posts terminates. */
  predicate InRole(p: Pool, t: nat)
    requires t < |p.q.threads|
  {
    match p.q.threads[t]
    case Idle => true
    case OwesPushNotice => t >= p.workers && (p.Stopping() ==> t == p.workers)
    case WaitsToPush(m) =>
      t >= p.workers && (if p.Stopping() then t == p.workers && m == Terminate else m != Terminate)
    case WokenToPush(m) =>
      t >= p.workers && (if p.Stopping() then t == p.workers && m == Terminate else m != Terminate)
    case _ => t < p.workers
  }

  ghost predicate Roles(p: Pool) {
    && p.workers < |p.q.threads|
    && (forall t :: 0 <= t < |p.q.threads| ==> InRole(p, t))
    && (if p.Stopping() then p.owners == 0 else p.refs == p.owners + Total(p.q.threads, Posting))
  }

  /** The destructor has posted at most one terminate per worker, and fewer while it is
      waiting to post another one. */
  ghost predicate Farewells(p: Pool)
    requires p.workers < |p.q.threads|
  {
    && TerminatesLast(p.q.pushed)
    && Terminate !in Lost(p.q.gone)
    && (!p.Stopping() ==> Terminate !in p.q.pushed)
    && Terminates(p.q.pushed) <= p.workers
    && (p.Stopping() && Awaiting(p.q.threads[p.workers])
        ==> Terminates(p.q.pushed) < p.workers)
  }

  ghost predicate Work(p: Pool) {
    && multiset(Taken(p.q.gone)) == multiset(p.processed) + InHand(p.q.threads)
    && Terminate !in p.processed
    && (p.workers == 1 && |p.q.threads| > 0 ==> Taken(p.q.gone) == p.processed + Hand(p.q.threads[0]))
  }

  ghost predicate PoolInv(p: Pool) {
    Inv(p.q) && Roles(p) && Farewells(p) && Work(p)
  }

  lemma PoolStart(capacity: nat, workers: nat, owners: nat, threads: seq<Status<Msg>>)
    requires owners >= 1 && workers < |threads|
    requires forall t :: 0 <= t < |threads| ==> threads[t] == Idle
    ensures PoolInv(Pool(State(capacity, [], [], [], threads), workers, owners, owners, []))
  {
    Start(capacity, threads);
    TotalZero(threads, Posting);
    NothingInHand(threads);
  }

  lemma {:induction false} NothingInHand(threads: seq<Status<Msg>>)
    requires forall t :: 0 <= t < |threads| ==> threads[t] == Idle
    ensures InHand(threads) == multiset{}
  {
    if |threads| > 0 {
      NothingInHand(threads[..|threads| - 1]);
    }
  }

  // ---------- every step keeps the invariant ----------

  lemma BecomePosting(s: State<Msg>, t: nat, status: Status<Msg>)
    requires t < |s.threads|
    ensures Total(Become(s, t, status).threads, Posting)
         == Total(s.threads, Posting) - Posting(s.threads[t]) + Posting(status)
  {
    TotalUpdate(s.threads, t, status, Posting);
  }

  /** Only the thread that steps, and one that it wakes, change. */
  lemma NextThreads(s: State<Msg>, t: nat, a: Action<Msg>, u: nat)
    requires Enabled(s, t, a) && |s.items| <= s.capacity && u < |s.threads| && u != t
    ensures var status := BlockingQueue.Next(s, t, a).threads[u];
            if a.Notify? && u == a.woken then status == Awake(s.threads[u], a.timedOut)
            else status == s.threads[u]
  {
  }

  lemma NextPosting(s: State<Msg>, t: nat, a: Action<Msg>)
    requires Enabled(s, t, a) && |s.items| <= s.capacity
    ensures Total(BlockingQueue.Next(s, t, a).threads, Posting)
         == Total(s.threads, Posting) - Posting(s.threads[t])
          + Posting(BlockingQueue.Next(s, t, a).threads[t])
  {
    var status := BlockingQueue.Next(s, t, a).threads[t];
    BecomePosting(s, t, status);
    if a.Notify? && a.woken != NOBODY {
      var awake := Awake(s.threads[a.woken], a.timedOut);
      BecomePosting(s, a.woken, awake);
      BecomePosting(Become(s, a.woken, awake), t, status);
    }
  }

  lemma StepPosting(p: Pool, e: Event)
    requires Roles(p) && |p.q.items| <= p.q.capacity && Allowed(p, e)
    ensures !p.Stopping() ==> After(p, e).refs == After(p, e).owners + Total(After(p, e).q.threads, Posting)
  {
    if e.Step? {
      NextPosting(p.q, e.thread, e.action);
      assert InRole(p, e.thread);
    }
  }

  lemma StepRole(p: Pool, e: Event, u: nat)
    requires Roles(p) && |p.q.items| <= p.q.capacity && Allowed(p, e) && u < |p.q.threads|
    requires !p.Stopping() && After(p, e).Stopping() ==> Posting(After(p, e).q.threads[u]) == 0
    ensures InRole(After(p, e), u)
  {
    assert InRole(p, u);
    if e.Step? && u != e.thread {
      NextThreads(p.q, e.thread, e.action, u);
    }
  }

  lemma StepRoles(p: Pool, e: Event)
    requires Roles(p) && |p.q.items| <= p.q.capacity && Allowed(p, e)
    ensures Roles(After(p, e))
  {
    StepPosting(p, e);
    TotalZero(After(p, e).q.threads, Posting);
    forall u | 0 <= u < |After(p, e).q.threads|
      ensures InRole(After(p, e), u)
    {
      StepRole(p, e, u);
    }
  }

  /** The message that a step adds to the queue. */
  function Posted(p: Pool, e: Event): seq<Msg>
    requires Allowed(p, e)
  {
    if e.Release? then []
    else match e.action
      case Enqueue(m) => if |p.q.items| < p.q.capacity then [m] else []
      case EnqueueNowait(m) => [m]
      case Recheck =>
        if p.q.threads[e.thread].WokenToPush? && |p.q.items| < p.q.capacity then
          [p.q.threads[e.thread].item]
        else []
      case _ => []
  }

  /** The message that a step takes from the queue. */
  function TakenNow(p: Pool, e: Event): seq<Msg>
    requires Allowed(p, e)
  {
    if |p.q.items| > 0 && e.Step?
       && (e.action.Dequeue? || (e.action.Recheck? && p.q.threads[e.thread].WokenToPop?))
    then [p.q.items[0]] else []
  }

  function LostNow(p: Pool, e: Event): seq<Msg>
    requires Allowed(p, e)
  {
    if e.Step? && e.action.EnqueueNowait? && |p.q.items| >= p.q.capacity then
      [(p.q.items + [e.action.item])[0]]
    else []
  }

  lemma StepLog(p: Pool, e: Event)
    requires |p.q.items| <= p.q.capacity && Allowed(p, e)
    ensures After(p, e).q.pushed == p.q.pushed + Posted(p, e)
    ensures Taken(After(p, e).q.gone) == Taken(p.q.gone) + TakenNow(p, e)
    ensures Lost(After(p, e).q.gone) == Lost(p.q.gone) + LostNow(p, e)
  {
    StepPushed(p, e);
    StepGone(p, e);
  }

  lemma StepPushed(p: Pool, e: Event)
    requires |p.q.items| <= p.q.capacity && Allowed(p, e)
    ensures After(p, e).q.pushed == p.q.pushed + Posted(p, e)
  {
  }

  lemma StepGone(p: Pool, e: Event)
    requires |p.q.items| <= p.q.capacity && Allowed(p, e)
    ensures Taken(After(p, e).q.gone) == Taken(p.q.gone) + TakenNow(p, e)
    ensures Lost(After(p, e).q.gone) == Lost(p.q.gone) + LostNow(p, e)
  {
    if TakenNow(p, e) != [] {
      TakenAppend(p.q.gone, Popped(p.q.items[0]));
    } else if LostNow(p, e) != [] {
      TakenAppend(p.q.gone, Dropped((p.q.items + [e.action.item])[0]));
    } else {
      assert After(p, e).q.gone == p.q.gone;
    }
  }

  /** Before the destructor starts no terminate is posted; from then on nothing else is, and
      nothing is overrun. */
  lemma StepPosts(p: Pool, e: Event)
    requires Roles(p) && |p.q.items| <= p.q.capacity && Allowed(p, e)
    requires !p.Stopping() ==> Terminate !in p.q.items
    requires p.Stopping() && Awaiting(p.q.threads[p.workers]) ==> Terminates(p.q.pushed) < p.workers
    ensures p.Stopping()
        ==> Posted(p, e) == [] || (Posted(p, e) == [Terminate] && Terminates(p.q.pushed) < p.workers)
    ensures p.Stopping() ==> LostNow(p, e) == []
    ensures !p.Stopping() ==> Terminate !in Posted(p, e) && Terminate !in LostNow(p, e)
  {
    if e.Step? {
      assert InRole(p, e.thread);
    }
  }

  lemma ItemsArePushed(s: State<Msg>, m: Msg)
    requires s.pushed == Items(s.gone) + s.items && m in s.items
    ensures m in s.pushed
  {
  }

  lemma FarewellsGoOn(p: Pool, p': Pool, posted: seq<Msg>, lost: seq<Msg>)
    requires p.workers < |p.q.threads| && Farewells(p)
    requires p'.workers == p.workers && |p'.q.threads| == |p.q.threads|
    requires p.Stopping() ==> p'.Stopping()
    requires p'.q.pushed == p.q.pushed + posted && Lost(p'.q.gone) == Lost(p.q.gone) + lost
    requires if p.Stopping() then posted == [] || (posted == [Terminate] && Terminates(p.q.pushed) < p.workers)
             else Terminate !in posted
    requires Terminate !in lost
    requires p'.Stopping() && Awaiting(p'.q.threads[p.workers])
        ==> Terminates(p.q.pushed) < p.workers && posted == []
    ensures Farewells(p')
  {
    assert multiset(p.q.pushed + posted) == multiset(p.q.pushed) + multiset(posted);
    if !p.Stopping() {
      NoneIsLast(p.q.pushed + posted);
    } else if posted == [Terminate] {
      assert (p.q.pushed + posted)[..|p.q.pushed|] == p.q.pushed;
    } else {
      assert p.q.pushed + posted == p.q.pushed;
    }
  }

  lemma {:induction false} NoneIsLast(s: seq<Msg>)
    requires Terminate !in s
    ensures TerminatesLast(s)
  {
    if |s| > 0 {
      NoneIsLast(s[..|s| - 1]);
    }
  }

  lemma StepFarewells(p: Pool, e: Event)
    requires PoolInv(p) && Allowed(p, e)
    ensures After(p, e).workers < |After(p, e).q.threads| && Farewells(After(p, e))
  {
    StepLog(p, e);
    if Terminate in p.q.items {
      ItemsArePushed(p.q, Terminate);
    }
    StepPosts(p, e);
    StepOwner(p, e);
    StepDone(p, e);
    FarewellsGoOn(p, After(p, e), Posted(p, e), LostNow(p, e));
  }

  /** The destructor waits to post only while terminates are missing. */
  lemma StepOwner(p: Pool, e: Event)
    requires PoolInv(p) && Allowed(p, e)
    ensures After(p, e).Stopping() && Awaiting(After(p, e).q.threads[p.workers])
            ==> Terminates(p.q.pushed) < p.workers && Posted(p, e) == []
  {
    if p.Stopping() {
      if Awaiting(After(p, e).q.threads[p.workers]) {
        OwnerWaits(p, e);
      }
    } else {
      StepPosting(p, e);
      TotalZero(After(p, e).q.threads, Posting);
    }
  }

  predicate Awaiting(status: Status<Msg>) {
    status.WaitsToPush? || status.WokenToPush?
  }

  lemma OwnerWaits(p: Pool, e: Event)
    requires |p.q.items| <= p.q.capacity && Roles(p) && p.Stopping() && Allowed(p, e)
    requires Awaiting(p.q.threads[p.workers]) ==> Terminates(p.q.pushed) < p.workers
    requires Awaiting(After(p, e).q.threads[p.workers])
    ensures Terminates(p.q.pushed) < p.workers && Posted(p, e) == []
  {
    assert InRole(p, p.workers) && InRole(p, e.thread);
    if e.thread != p.workers {
      NextThreads(p.q, e.thread, e.action, p.workers);
    }
  }

  function Done(p: Pool, e: Event): seq<Msg>
    requires Allowed(p, e)
  {
    if e.Step? && e.action.Return? && e.action.next.Idle? then [p.q.threads[e.thread].item] else []
  }

  /** Each thread's step keeps what it has in hand, takes a message, or finishes with one. */
  lemma StepHand(p: Pool, e: Event, u: nat)
    requires Roles(p) && |p.q.items| <= p.q.capacity && Allowed(p, e) && u < |p.q.threads|
    ensures e.Step? && u == e.thread
        ==> Hand(p.q.threads[u]) + TakenNow(p, e) == Done(p, e) + Hand(After(p, e).q.threads[u])
    ensures e.Release? || u != e.thread
        ==> Hand(After(p, e).q.threads[u]) == Hand(p.q.threads[u])
  {
    assert InRole(p, u);
    if e.Step? && u != e.thread {
      NextThreads(p.q, e.thread, e.action, u);
    }
  }

  lemma InHandSame(threads: seq<Status<Msg>>, t: nat, status: Status<Msg>)
    requires t < |threads| && Hand(threads[t]) == Hand(status) == []
    ensures InHand(threads[t := status]) == InHand(threads)
  {
    InHandUpdate(threads, t, status);
    BagsCancel(InHand(threads[t := status]), InHand(threads), multiset(Hand(status)));
  }

  lemma BagsCancel(a: multiset<Msg>, b: multiset<Msg>, x: multiset<Msg>)
    requires a + x == b + x
    ensures a == b
  {
    forall m
      ensures a[m] == b[m]
    {
      assert (a + x)[m] == (b + x)[m];
    }
  }

  lemma NextInHand(s: State<Msg>, t: nat, a: Action<Msg>)
    requires Enabled(s, t, a) && |s.items| <= s.capacity
    ensures InHand(BlockingQueue.Next(s, t, a).threads) + multiset(Hand(s.threads[t]))
         == InHand(s.threads) + multiset(Hand(BlockingQueue.Next(s, t, a).threads[t]))
  {
    var status := BlockingQueue.Next(s, t, a).threads[t];
    if a.Notify? && a.woken != NOBODY {
      var awake := Awake(s.threads[a.woken], a.timedOut);
      assert BlockingQueue.Next(s, t, a).threads == s.threads[a.woken := awake][t := status];
      InHandSame(s.threads, a.woken, awake);
      InHandUpdate(s.threads[a.woken := awake], t, status);
    } else {
      assert BlockingQueue.Next(s, t, a).threads == s.threads[t := status];
      InHandUpdate(s.threads, t, status);
    }
  }

  lemma StepHands(p: Pool, e: Event)
    requires Roles(p) && |p.q.items| <= p.q.capacity && Allowed(p, e)
    ensures InHand(After(p, e).q.threads) + multiset(Done(p, e))
         == InHand(p.q.threads) + multiset(TakenNow(p, e))
  {
    if e.Step? {
      var t := e.thread;
      NextInHand(p.q, t, e.action);
      StepHand(p, e, t);
      BagsMove(InHand(p.q.threads), InHand(After(p, e).q.threads), Hand(p.q.threads[t]),
               TakenNow(p, e), Done(p, e), Hand(After(p, e).q.threads[t]));
    }
  }

  lemma BagsMove(a: multiset<Msg>, b: multiset<Msg>, h: seq<Msg>, taken: seq<Msg>, done: seq<Msg>,
                 h': seq<Msg>)
    requires b + multiset(h) == a + multiset(h') && h + taken == done + h'
    ensures b + multiset(done) == a + multiset(taken)
  {
    assert multiset(h) + multiset(taken) == multiset(h + taken);
    assert multiset(done) + multiset(h') == multiset(done + h');
    forall m
      ensures (b + multiset(done))[m] == (a + multiset(taken))[m]
    {
      assert (b + multiset(h))[m] == (a + multiset(h'))[m];
      assert (multiset(h) + multiset(taken))[m] == (multiset(done) + multiset(h'))[m];
    }
  }

  lemma BagsGrow(taken: seq<Msg>, processed: seq<Msg>, a: multiset<Msg>, b: multiset<Msg>,
                 now: seq<Msg>, done: seq<Msg>)
    requires multiset(taken) == multiset(processed) + a && b + multiset(done) == a + multiset(now)
    ensures multiset(taken + now) == multiset(processed + done) + b
  {
    assert multiset(taken + now) == multiset(taken) + multiset(now);
    assert multiset(processed + done) == multiset(processed) + multiset(done);
    forall m
      ensures multiset(taken + now)[m] == (multiset(processed + done) + b)[m]
    {
      assert (b + multiset(done))[m] == (a + multiset(now))[m];
    }
  }

  /** A single worker finishes messages in the order in which it took them. */
  lemma StepInOrder(p: Pool, e: Event)
    requires PoolInv(p) && Allowed(p, e) && p.workers == 1
    ensures Taken(p.q.gone) + TakenNow(p, e)
         == p.processed + Done(p, e) + Hand(After(p, e).q.threads[0])
  {
    OnlyTheWorker(p, e);
    HandedOn(p.processed, Hand(p.q.threads[0]), TakenNow(p, e), Done(p, e),
             Hand(After(p, e).q.threads[0]));
  }

  lemma OnlyTheWorker(p: Pool, e: Event)
    requires Roles(p) && |p.q.items| <= p.q.capacity && Allowed(p, e) && p.workers == 1
    ensures Hand(p.q.threads[0]) + TakenNow(p, e) == Done(p, e) + Hand(After(p, e).q.threads[0])
  {
    StepHand(p, e, 0);
    if e.Step? && e.thread != 0 {
      assert InRole(p, e.thread);
      assert TakenNow(p, e) == [] && Done(p, e) == [];
    }
  }

  lemma HandedOn(processed: seq<Msg>, hand: seq<Msg>, now: seq<Msg>, done: seq<Msg>, hand': seq<Msg>)
    requires hand + now == done + hand'
    ensures (processed + hand) + now == (processed + done) + hand'
  {
    assert (processed + hand) + now == processed + (hand + now);
    assert (processed + done) + hand' == processed + (done + hand');
  }

  lemma StepDone(p: Pool, e: Event)
    requires Allowed(p, e) && |p.q.items| <= p.q.capacity
    ensures After(p, e).processed == p.processed + Done(p, e) && Terminate !in Done(p, e)
    ensures After(p, e).workers == p.workers && |After(p, e).q.threads| == |p.q.threads|
  {
  }

  lemma WorkGoesOn(p: Pool, p': Pool, now: seq<Msg>, done: seq<Msg>)
    requires Work(p) && p'.workers == p.workers && |p.q.threads| == |p'.q.threads| > p.workers
    requires Taken(p'.q.gone) == Taken(p.q.gone) + now
    requires p'.processed == p.processed + done && Terminate !in done
    requires InHand(p'.q.threads) + multiset(done) == InHand(p.q.threads) + multiset(now)
    requires p.workers == 1 ==> Taken(p.q.gone) + now == p.processed + done + Hand(p'.q.threads[0])
    ensures Work(p')
  {
    BagsGrow(Taken(p.q.gone), p.processed, InHand(p.q.threads), InHand(p'.q.threads), now, done);
  }

  lemma StepWork(p: Pool, e: Event)
    requires PoolInv(p) && Allowed(p, e)
    ensures Work(After(p, e))
  {
    StepLog(p, e);
    StepHands(p, e);
    StepDone(p, e);
    if p.workers == 1 {
      StepInOrder(p, e);
    }
    WorkGoesOn(p, After(p, e), TakenNow(p, e), Done(p, e));
  }

  lemma PoolStepKeeps(p: Pool, e: Event)
    requires PoolInv(p) && Allowed(p, e)
    ensures PoolInv(After(p, e))
  {
    if e.Step? {
      StepKeeps(p.q, e.thread, e.action);
    }
    StepRoles(p, e);
    StepFarewells(p, e);
    StepWork(p, e);
  }

  // ---------- shutdown ----------

  lemma {:induction false} OneEach(threads: seq<Status<Msg>>, workers: nat)
    requires workers <= |threads|
    requires forall t :: 0 <= t < |threads| ==> Hand(threads[t]) == if t < workers then [Terminate] else []
    ensures InHand(threads) == multiset{}[Terminate := workers]
  {
    var n := |threads| - 1;
    if n >= 0 {
      var fewer, hand := if workers > n then n else workers, Hand(threads[n]);
      Shorter(threads, n, workers, fewer);
      OneEach(threads[..n], fewer);
      OneMore(fewer, hand);
      assert workers == fewer + |hand|;
    }
  }

  lemma Shorter(threads: seq<Status<Msg>>, n: nat, workers: nat, fewer: nat)
    requires |threads| == n + 1 && fewer == if workers > n then n else workers
    requires forall t :: 0 <= t < |threads| ==> Hand(threads[t]) == if t < workers then [Terminate] else []
    ensures forall t :: 0 <= t < n ==> Hand(threads[..n][t]) == if t < fewer then [Terminate] else []
  {
  }

  lemma OneMore(n: nat, hand: seq<Msg>)
    requires hand == [Terminate] || hand == []
    ensures multiset{}[Terminate := n] + multiset(hand) == multiset{}[Terminate := n + |hand|]
  {
  }

  ghost predicate AllExited(threads: seq<Status<Msg>>, workers: nat) {
    forall t :: 0 <= t < workers ==> t < |threads| && threads[t] == Exited
  }

  /** Once all workers have exited each has taken exactly one terminate, the queue is empty,
      no terminate was overrun, and every message posted was processed or overrun. */
  lemma ShutdownIsComplete(p: Pool)
    requires PoolInv(p) && p.workers >= 1
    requires AllExited(p.q.threads, p.workers)
    ensures p.Stopping() && p.q.items == []
    ensures Terminates(p.q.pushed) == Terminates(Taken(p.q.gone)) == p.workers
    ensures Terminate !in Lost(p.q.gone)
    ensures multiset(p.q.pushed)[Terminate := 0] == multiset(p.processed) + multiset(Lost(p.q.gone))
  {
    OneTerminateEach(p);
    Accounts(p.q.pushed, p.q.gone, p.q.items, p.processed, p.workers);
  }

  lemma OneTerminateEach(p: Pool)
    requires Roles(p)
    requires AllExited(p.q.threads, p.workers)
    ensures InHand(p.q.threads) == multiset{}[Terminate := p.workers]
  {
    forall t | 0 <= t < |p.q.threads|
      ensures Hand(p.q.threads[t]) == if t < p.workers then [Terminate] else []
    {
      assert InRole(p, t);
    }
    OneEach(p.q.threads, p.workers);
  }

  /** The books at the end: with as many terminates taken as may be posted at all. */
  lemma Accounts(pushed: seq<Msg>, gone: seq<Fate<Msg>>, items: seq<Msg>, processed: seq<Msg>,
                 workers: nat)
    requires pushed == Items(gone) + items && TerminatesLast(pushed) && Terminate !in Lost(gone)
    requires Terminate !in processed && 1 <= workers && Terminates(pushed) <= workers
    requires multiset(Taken(gone)) == multiset(processed) + multiset{}[Terminate := workers]
    ensures items == [] && Terminate in pushed
    ensures Terminates(pushed) == Terminates(Taken(gone)) == workers
    ensures multiset(pushed)[Terminate := 0] == multiset(processed) + multiset(Lost(gone))
  {
    EverythingHasAFate(gone);
    assert multiset(pushed) == multiset(Items(gone)) + multiset(items);
    Books(multiset(pushed), multiset(Taken(gone)), multiset(Lost(gone)), multiset(items),
          multiset(processed), workers);
    assert Terminate in multiset(Items(gone));
    NoneLeft(gone, items);
  }

  lemma Books(pushed: multiset<Msg>, taken: multiset<Msg>, lost: multiset<Msg>, items: multiset<Msg>,
              processed: multiset<Msg>, workers: nat)
    requires pushed == taken + lost + items && taken == processed + multiset{}[Terminate := workers]
    requires processed[Terminate] == lost[Terminate] == 0 && pushed[Terminate] <= workers
    ensures taken[Terminate] == pushed[Terminate] == workers && items[Terminate] == 0
    ensures items == multiset{} ==> pushed[Terminate := 0] == processed + lost
  {
    assert pushed[Terminate] == taken[Terminate] + lost[Terminate] + items[Terminate];
  }

  lemma NoneLeft(gone: seq<Fate<Msg>>, items: seq<Msg>)
    requires TerminatesLast(Items(gone) + items) && Terminate in Items(gone) && Terminate !in items
    ensures items == [] && multiset(items) == multiset{}
  {
    AllTerminates(gone, items);
  }

  lemma {:induction false} AllTerminates(gone: seq<Fate<Msg>>, items: seq<Msg>)
    requires TerminatesLast(Items(gone) + items) && Terminate in Items(gone)
    ensures forall k :: 0 <= k < |items| ==> items[k] == Terminate
  {
    if |items| > 0 {
      var n := |items| - 1;
      assert (Items(gone) + items)[..|Items(gone)| + n] == Items(gone) + items[..n];
      AllTerminates(gone, items[..n]);
    }
  }

  /** What a thread can do next, other than sleep on. */
  function Turn(p: Pool, t: nat): Action<Msg>
    requires t < |p.q.threads|
  {
    match p.q.threads[t]
    case Idle => if t < p.workers then Dequeue else Enqueue(Terminate)
    case WokenToPush(_) => Recheck
    case WokenToPop(_) => Recheck
    case OwesPushNotice => Notify(Sleeper(p.q.threads, SleepingConsumer), false)
    case OwesPopNotice(_) => Notify(Sleeper(p.q.threads, SleepingProducer), false)
    case Holds(m) => Return(if m == Terminate then Exited else Idle)
    case _ => Wake(false)
  }

  function Sleeper<M>(threads: seq<Status<M>>, kind: Kind): (w: int)
    ensures if w == NOBODY then Count(threads, kind) == 0 else 0 <= w < |threads| && Is(threads[w], kind)
  {
    if |threads| == 0 then NOBODY
    else if Is(threads[|threads| - 1], kind) then |threads| - 1
    else Sleeper(threads[..|threads| - 1], kind)
  }

  /** A thread that is awake and has something left to do. */
  predicate CanMove(p: Pool, t: nat)
    requires t < |p.q.threads|
  {
    match p.q.threads[t]
    case Idle => t < p.workers || (t == p.workers && Terminates(p.q.pushed) < p.workers)
    case WaitsToPush(_) => false
    case WaitsToPop => false
    case Exited => false
    case _ => true
  }

  lemma AwakeThreadsMove(p: Pool, t: nat)
    requires PoolInv(p) && p.Stopping() && t < |p.q.threads| && CanMove(p, t)
    ensures Allowed(p, Step(t, Turn(p, t))) && !Turn(p, t).Wake?
  {
    assert InRole(p, t);
  }

  /** Shutdown never gets stuck: until every worker has exited some thread can move without
      waiting for a timeout, provided that the queue has room for at least one message. */
  lemma ShutdownMoves(p: Pool) returns (t: nat)
    requires PoolInv(p) && p.Stopping() && p.q.capacity >= 1
    requires !AllExited(p.q.threads, p.workers)
    ensures t < |p.q.threads| && CanMove(p, t) && Allowed(p, Step(t, Turn(p, t))) && !Turn(p, t).Wake?
  {
    if exists u :: 0 <= u < |p.q.threads| && CanMove(p, u) {
      t :| 0 <= t < |p.q.threads| && CanMove(p, t);
      AwakeThreadsMove(p, t);
    } else {
      AllAsleep(p);
      assert false;
    }
  }

  lemma AllAsleep(p: Pool)
    requires PoolInv(p) && p.Stopping() && p.q.capacity >= 1
    requires forall u :: 0 <= u < |p.q.threads| ==> !CanMove(p, u)
    ensures AllExited(p.q.threads, p.workers)
  {
    forall u | 0 <= u < |p.q.threads|
      ensures !Is(p.q.threads[u], StirringProducer) && !Is(p.q.threads[u], StirringConsumer)
    {
      assert !CanMove(p, u);
    }
    forall w | 0 <= w < p.workers
      ensures p.q.threads[w] == Exited
    {
      Asleep(p, w);
      if p.q.threads[w].WaitsToPop? {
        SleepersAreServed(p.q, w);
        SleepersAreServed(p.q, p.workers);
        NobodyWaitsForMore(p, w);
      }
    }
  }

  lemma Asleep(p: Pool, w: nat)
    requires PoolInv(p) && p.Stopping() && w < p.workers
    requires !CanMove(p, w) && !CanMove(p, p.workers)
    ensures p.q.threads[w].WaitsToPop? || p.q.threads[w].Exited?
    ensures p.q.threads[p.workers].WaitsToPush?
            || (p.q.threads[p.workers].Idle? && Terminates(p.q.pushed) == p.workers)
  {
    assert InRole(p, w) && InRole(p, p.workers);
  }

  /** With the queue empty every terminate posted is in some worker's hand, so a worker with
      empty hands has one still to come. */
  lemma NobodyWaitsForMore(p: Pool, w: nat)
    requires Roles(p) && Work(p) && p.q.pushed == Items(p.q.gone) + p.q.items && p.q.items == []
    requires Terminate !in Lost(p.q.gone) && w < p.workers && Hand(p.q.threads[w]) == []
    ensures Terminates(p.q.pushed) < p.workers
  {
    forall u | p.workers <= u < |p.q.threads|
      ensures Leaving(p.q.threads[u]) == 0
    {
      assert InRole(p, u);
    }
    TerminatesInHand(p.q.threads);
    FewerHands(p.q.threads, p.workers, w);
    EmptiedQueue(p.q.pushed, p.q.gone, p.processed, InHand(p.q.threads));
  }

  lemma EmptiedQueue(pushed: seq<Msg>, gone: seq<Fate<Msg>>, processed: seq<Msg>, hands: multiset<Msg>)
    requires pushed == Items(gone) + [] && Terminate !in Lost(gone) && Terminate !in processed
    requires multiset(Taken(gone)) == multiset(processed) + hands
    ensures Terminates(pushed) == hands[Terminate]
  {
    assert pushed == Items(gone);
    EverythingHasAFate(gone);
  }

  function Leaving(status: Status<Msg>): nat {
    if Hand(status) == [Terminate] then 1 else 0
  }

  lemma LeavingIs(status: Status<Msg>)
    ensures multiset(Hand(status))[Terminate] == Leaving(status) <= 1
  {
  }

  lemma {:induction false} TerminatesInHand(threads: seq<Status<Msg>>)
    ensures InHand(threads)[Terminate] == Total(threads, Leaving)
  {
    if |threads| > 0 {
      TerminatesInHand(threads[..|threads| - 1]);
      LeavingIs(threads[|threads| - 1]);
    }
  }

  lemma {:induction false} FewerHands(threads: seq<Status<Msg>>, workers: nat, w: int)
    requires workers <= |threads| && (w < 0 || (w < workers && Leaving(threads[w]) == 0))
    requires forall u :: workers <= u < |threads| ==> Leaving(threads[u]) == 0
    ensures Total(threads, Leaving) <= if w < 0 then workers else workers - 1
  {
    var n := |threads| - 1;
    if n >= 0 {
      FewerHands(threads[..n], if workers > n then n else workers, if w < n then w else NOBODY);
    }
  }

  /** How much of the shutdown is still ahead. */
  function Weight(status: Status<Msg>): nat {
    match status
    case Idle => 1
    case WokenToPush(_) => 1
    case OwesPushNotice => 4
    case WokenToPop(_) => 2
    case OwesPopNotice(_) => 4
    case Holds(_) => 2
    case _ => 0
  }

  function Ahead(p: Pool): int {
    8 * (p.workers - Terminates(p.q.pushed)) + 4 * |p.q.items| + Total(p.q.threads, Weight)
  }

  /** A step changes a total by what the stepping thread and the one that it wakes contribute. */
  lemma NextTotal(s: State<Msg>, t: nat, a: Action<Msg>, f: Status<Msg> -> nat)
    requires Enabled(s, t, a) && |s.items| <= s.capacity
    ensures Total(BlockingQueue.Next(s, t, a).threads, f)
         == Total(s.threads, f) - f(s.threads[t]) + f(BlockingQueue.Next(s, t, a).threads[t])
          + (if a.Notify? && a.woken != NOBODY then f(Awake(s.threads[a.woken], a.timedOut)) - f(s.threads[a.woken])
             else 0)
  {
    var status := BlockingQueue.Next(s, t, a).threads[t];
    if a.Notify? && a.woken != NOBODY {
      var awake := Awake(s.threads[a.woken], a.timedOut);
      TotalUpdate(s.threads, a.woken, awake, f);
      TotalUpdate(s.threads[a.woken := awake], t, status, f);
    } else {
      TotalUpdate(s.threads, t, status, f);
    }
  }

  lemma NextWeight(s: State<Msg>, t: nat, a: Action<Msg>)
    requires Enabled(s, t, a) && |s.items| <= s.capacity
    ensures Total(BlockingQueue.Next(s, t, a).threads, Weight)
         == Total(s.threads, Weight) - Weight(s.threads[t]) + Weight(BlockingQueue.Next(s, t, a).threads[t])
          + (if a.Notify? && a.woken != NOBODY then Weight(Awake(s.threads[a.woken], a.timedOut)) else 0)
  {
    NextTotal(s, t, a, Weight);
  }

  /** The weight that the stepping thread gains, and the one that it wakes. */
  function Gain(s: State<Msg>, t: nat, a: Action<Msg>): int
    requires Enabled(s, t, a) && |s.items| <= s.capacity
  {
    Weight(BlockingQueue.Next(s, t, a).threads[t]) - Weight(s.threads[t])
    + (if a.Notify? && a.woken != NOBODY then Weight(Awake(s.threads[a.woken], a.timedOut)) else 0)
  }

  lemma StepGain(p: Pool, e: Event)
    requires |p.q.items| <= p.q.capacity && Allowed(p, e) && e.Step?
    ensures Gain(p.q, e.thread, e.action)
         <= (if Posted(p, e) + TakenNow(p, e) != [] then 3 else if e.action.Wake? then 2 else -1)
  {
  }

  lemma StepLength(p: Pool, e: Event)
    requires Roles(p) && |p.q.items| <= p.q.capacity && p.Stopping() && Allowed(p, e) && e.Step?
    ensures |After(p, e).q.items| == |p.q.items| + |Posted(p, e)| - |TakenNow(p, e)|
  {
    assert InRole(p, e.thread);
  }

  /** In a shutdown every step that is not the end of a wait brings it nearer to completion. */
  lemma ShutdownAdvances(p: Pool, e: Event)
    requires PoolInv(p) && p.Stopping() && Allowed(p, e)
    ensures After(p, e).Stopping() && After(p, e).workers == p.workers
    ensures Ahead(p) >= 0
    ensures Ahead(After(p, e)) <= Ahead(p) + if e.action.Wake? then 2 else -1
  {
    assert e.Step?;
    NextWeight(p.q, e.thread, e.action);
    StepGain(p, e);
    StepLength(p, e);
    StepPosts(p, e);
    StepLog(p, e);
    assert multiset(p.q.pushed + Posted(p, e)) == multiset(p.q.pushed) + multiset(Posted(p, e));
  }

  // ---------- runs ----------

  ghost predicate LegalRun(p: Pool, run: seq<Event>)
    requires |p.q.items| <= p.q.capacity
    decreases |run|
  {
    |run| > 0 ==> Allowed(p, run[0]) && LegalRun(After(p, run[0]), run[1..])
  }

  ghost function AfterRun(p: Pool, run: seq<Event>): Pool
    requires |p.q.items| <= p.q.capacity && LegalRun(p, run)
    decreases |run|
  {
    if |run| == 0 then p else AfterRun(After(p, run[0]), run[1..])
  }

  lemma {:induction false} PoolRunKeeps(p: Pool, run: seq<Event>)
    requires PoolInv(p) && LegalRun(p, run)
    ensures PoolInv(AfterRun(p, run)) && AfterRun(p, run).workers == p.workers
    ensures AfterRun(p, run).q.capacity == p.q.capacity
    decreases |run|
  {
    if |run| > 0 {
      PoolStepKeeps(p, run[0]);
      PoolRunKeeps(After(p, run[0]), run[1..]);
    }
  }

  function Wakes(run: seq<Event>): nat {
    if |run| == 0 then 0
    else (if run[0].Step? && run[0].action.Wake? then 1 else 0) + Wakes(run[1..])
  }

  /** A shutdown consists of a bounded number of steps besides waits that end by themselves,
      and since it is never stuck it ends with all workers gone. */
  lemma {:induction false} ShutdownIsBounded(p: Pool, run: seq<Event>)
    requires PoolInv(p) && p.Stopping() && LegalRun(p, run)
    ensures |run| <= Ahead(p) + 3 * Wakes(run)
    decreases |run|
  {
    if |run| > 0 {
      ShutdownAdvances(p, run[0]);
      PoolStepKeeps(p, run[0]);
      ShutdownIsBounded(After(p, run[0]), run[1..]);
    } else {
      TotalZero(p.q.threads, Weight);
    }
  }

  /** From every state of a shutdown some legal run, without a single time-out, ends with
      all workers gone. */
  lemma {:induction false} ShutdownFinishes(p: Pool) returns (run: seq<Event>)
    requires PoolInv(p) && p.Stopping() && p.q.capacity >= 1
    ensures LegalRun(p, run) && |run| <= Ahead(p) && Wakes(run) == 0
    ensures PoolInv(AfterRun(p, run)) && AfterRun(p, run).workers == p.workers
    ensures AllExited(AfterRun(p, run).q.threads, p.workers)
    decreases Ahead(p)
  {
    if !AllExited(p.q.threads, p.workers) {
      var t := ShutdownMoves(p);
      var e := Step(t, Turn(p, t));
      ShutdownAdvances(p, e);
      PoolStepKeeps(p, e);
      var rest := ShutdownFinishes(After(p, e));
      run := [e] + rest;
      assert run[0] == e && run[1..] == rest;
    } else {
      TotalZero(p.q.threads, Weight);
      run := [];
    }
  }

  lemma {:induction false} LongerRun(p: Pool, run: seq<Event>, e: Event)
    requires |p.q.items| <= p.q.capacity && LegalRun(p, run) && Allowed(AfterRun(p, run), e)
    ensures LegalRun(p, run + [e])
    decreases |run|
  {
    if |run| > 0 {
      RunTail(run, e);
      LongerRun(After(p, run[0]), run[1..], e);
    } else {
      assert run + [e] == [e];
    }
  }

  lemma RunTail(run: seq<Event>, e: Event)
    requires |run| > 0
    ensures (run + [e])[0] == run[0] && (run + [e])[1..] == run[1..] + [e]
  {
  }

  lemma {:induction false} WakesOfLonger(run: seq<Event>, e: Event)
    requires e.Step? && !e.action.Wake?
    ensures Wakes(run + [e]) == Wakes(run)
  {
    if |run| > 0 {
      RunTail(run, e);
      WakesOfLonger(run[1..], e);
    } else {
      assert run + [e] == [e];
    }
  }

  /** Every run of a shutdown, whoever is scheduled: it is bounded but for time-outs, and as
      long as some worker has not exited there is a thread that can go on without one. */
  lemma ShutdownEndsOrGoesOn(p: Pool, run: seq<Event>)
    requires PoolInv(p) && p.Stopping() && p.q.capacity >= 1 && LegalRun(p, run)
    ensures |run| <= Ahead(p) + 3 * Wakes(run)
    ensures PoolInv(AfterRun(p, run)) && AfterRun(p, run).Stopping()
    ensures AllExited(AfterRun(p, run).q.threads, p.workers)
         || exists t: nat :: && t < |AfterRun(p, run).q.threads| && CanMove(AfterRun(p, run), t)
                             && LegalRun(p, run + [Step(t, Turn(AfterRun(p, run), t))])
                             && Wakes(run + [Step(t, Turn(AfterRun(p, run), t))]) == Wakes(run)
  {
    var last := AfterRun(p, run);
    ShutdownIsBounded(p, run);
    PoolRunKeeps(p, run);
    StaysStopping(p, run);
    if !AllExited(last.q.threads, p.workers) {
      var t := ShutdownMoves(last);
      LongerRun(p, run, Step(t, Turn(last, t)));
      WakesOfLonger(run, Step(t, Turn(last, t)));
    }
  }

  lemma {:induction false} StaysStopping(p: Pool, run: seq<Event>)
    requires PoolInv(p) && p.Stopping() && LegalRun(p, run)
    ensures AfterRun(p, run).Stopping()
    decreases |run|
  {
    if |run| > 0 {
      PoolStepKeeps(p, run[0]);
      StaysStopping(After(p, run[0]), run[1..]);
    }
  }

  /** Under the block policy nothing is ever overrun. */
  lemma {:induction false} BlockingLosesNothing(p: Pool, run: seq<Event>)
    requires |p.q.items| <= p.q.capacity && LegalRun(p, run) && Lost(p.q.gone) == []
    requires forall i :: 0 <= i < |run| && run[i].Step? ==> !run[i].action.EnqueueNowait?
    ensures Lost(AfterRun(p, run).q.gone) == []
    decreases |run|
  {
    if |run| > 0 {
      StepLog(p, run[0]);
      BlockingLosesNothing(After(p, run[0]), run[1..]);
    }
  }

  /** With a single worker and nothing overrun, messages are processed in the order in which
      they were posted. */
  lemma SingleWorkerKeepsOrder(p: Pool)
    requires PoolInv(p) && p.workers == 1 && p.q.threads[0] == Exited && Lost(p.q.gone) == []
    ensures p.q.pushed == p.processed + [Terminate]
  {
    OnlyWorker(p.q.threads);
    ShutdownIsComplete(p);
    WorkInOrder(p);
  }

  lemma OnlyWorker(threads: seq<Status<Msg>>)
    requires |threads| > 0 && threads[0] == Exited
    ensures AllExited(threads, 1)
  {
  }

  lemma WorkInOrder(p: Pool)
    requires Inv(p.q) && Work(p) && p.workers == 1 && |p.q.threads| > 0 && p.q.threads[0] == Exited
    requires p.q.items == [] && Lost(p.q.gone) == []
    ensures p.q.pushed == p.processed + [Terminate]
  {
    InOrder(p.q.pushed, p.q.gone, p.q.items, p.processed, [Terminate]);
  }

  lemma InOrder(pushed: seq<Msg>, gone: seq<Fate<Msg>>, items: seq<Msg>, processed: seq<Msg>,
                hand: seq<Msg>)
    requires pushed == Items(gone) + items && items == []
    requires Lost(gone) == [] && Taken(gone) == processed + hand
    ensures pushed == processed + hand
  {
    NothingLost(gone);
  }

  lemma {:induction false} NothingLost(gone: seq<Fate<Msg>>)
    requires Lost(gone) == []
    ensures Taken(gone) == Items(gone)
  {
    if |gone| > 0 {
      NothingLost(gone[..|gone| - 1]);
    }
  }

  /** A queue without room never hands anything out, so its workers never terminate. */
  lemma {:induction false} ZeroCapacityHangs(p: Pool, run: seq<Event>, w: nat)
    requires PoolInv(p) && LegalRun(p, run) && p.q.capacity == 0 && Taken(p.q.gone) == []
    requires w < p.workers
    ensures w < |AfterRun(p, run).q.threads| && AfterRun(p, run).q.threads[w] != Exited
    decreases |run|
  {
    if |run| > 0 {
      PoolStepKeeps(p, run[0]);
      StepLog(p, run[0]);
      ZeroCapacityHangs(After(p, run[0]), run[1..], w);
    } else {
      EmptyHands(p, w);
    }
  }

  lemma EmptyHands(p: Pool, w: nat)
    requires Work(p) && Taken(p.q.gone) == [] && w < |p.q.threads|
    ensures p.q.threads[w] != Exited
  {
    HandIsInHand(p.q.threads, w);
    assert InHand(p.q.threads) <= multiset(Taken(p.q.gone)) == multiset{};
    assert |multiset(Hand(p.q.threads[w]))| == |Hand(p.q.threads[w])|;
  }

  lemma {:induction false} HandIsInHand(threads: seq<Status<Msg>>, t: nat)
    requires t < |threads|
    ensures multiset(Hand(threads[t])) <= InHand(threads)
  {
    if t < |threads| - 1 {
      HandIsInHand(threads[..|threads| - 1], t);
    }
  }
}
