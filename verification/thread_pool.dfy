/** The worker pool (lib/base/thread-pool.h, lib/base/thread-pool.cpp).

    `PoolProtocol` is the pool as a transition system. Every block the program runs under
    `queue_mutex_` is one step. The sleeping threads, and the callers that have left the lock
    but have not yet notified the condition variable, are part of the state, so a lost wakeup
    can be expressed. `WorkerPool` holds the fields and the locked blocks as a class and
    proves each of them against its step. */
module PoolProtocol {

  /** The queue a task was put into: `tasks_`, or `workers_[worker].tasks`. */
  datatype Route = Shared | Own(worker: nat)

  datatype Worker =
    | Awake              // outside the lock, about to take it and look at the queues
    | Asleep             // blocked in condition_.wait
    | Running(task: nat) // executing a claimed task outside the lock
    | Exited             // the thread function has returned

  /** How far ~ThreadPool has come: before it, between setting stop_ and notify_all, or with
      that many threads joined. */
  datatype Teardown = NotStarted | MustBroadcast | Joining(joined: nat)

  datatype Claim = Claim(task: nat, worker: nat, from: Route)

  /** A task is named by its place in the order of acceptance. The last three fields record
      the past of the run; no step looks at them. */
  datatype Pool = Pool(
    owned: seq<seq<nat>>,
    shared: seq<nat>,
    stop: bool,
    workers: seq<Worker>,
    singles: nat,          // enqueue callers past the lock that still owe a notify_one
    broadcasts: nat,       // enqueueByIdx callers past the lock that still owe a notify_all
    teardown: Teardown,
    accepted: seq<Route>,
    claims: seq<Claim>,
    finished: seq<nat>)

  datatype Action =
    | Enqueue
    | EnqueueByIdx(idx: nat)
    | NotifyOne(woken: nat)
    | NotifyNobody           // notify_one while no thread waits
    | NotifyAll
    | SpuriousWake(worker: nat)
    | Turn(worker: nat)      // one pass of a worker through its locked block
    | Finish(worker: nat)
    | SetStop
    | Broadcast
    | Join

  function Init(n: nat): Pool {
    Pool(seq(n, _ => []), [], false, seq(n, _ => Awake), 0, 0, NotStarted, [], [], [])
  }

  ghost predicate SomeoneAsleep(p: Pool) {
    exists w :: 0 <= w < |p.workers| && p.workers[w] == Asleep
  }

  ghost predicate Enabled(p: Pool, a: Action) {
    match a
    case Enqueue => true
    case EnqueueByIdx(_) => |p.owned| > 0
    case NotifyOne(w) => p.singles > 0 && w < |p.workers| && p.workers[w] == Asleep
    case NotifyNobody => p.singles > 0 && !SomeoneAsleep(p)
    case NotifyAll => p.broadcasts > 0
    case SpuriousWake(w) => w < |p.workers| && p.workers[w] == Asleep
    case Turn(w) => w < |p.workers| && w < |p.owned| && p.workers[w] == Awake
    case Finish(w) => w < |p.workers| && p.workers[w].Running?
    case SetStop => p.teardown.NotStarted?
    case Broadcast => p.teardown.MustBroadcast?
    case Join => p.teardown.Joining? && p.teardown.joined < |p.workers| && p.workers[p.teardown.joined] == Exited
  }

  function Woken(w: Worker): Worker {
    if w == Asleep then Awake else w
  }

  function WakeAll(ws: seq<Worker>): (woken: seq<Worker>)
    ensures |woken| == |ws| && forall i :: 0 <= i < |ws| ==> woken[i] == Woken(ws[i])
  {
    seq(|ws|, i requires 0 <= i < |ws| => Woken(ws[i]))
  }

  function Apply(p: Pool, a: Action): Pool
    requires Enabled(p, a)
  {
    match a
    case Enqueue =>
      if p.stop then p
      else p.(shared := p.shared + [|p.accepted|], accepted := p.accepted + [Shared], singles := p.singles + 1)
    case EnqueueByIdx(idx) =>
      if p.stop then p
      else
        var w := idx % |p.owned|;
        p.(owned := p.owned[w := p.owned[w] + [|p.accepted|]], accepted := p.accepted + [Own(w)],
           broadcasts := p.broadcasts + 1)
    case NotifyOne(w) => p.(singles := p.singles - 1, workers := p.workers[w := Awake])
    case NotifyNobody => p.(singles := p.singles - 1)
    case NotifyAll => p.(broadcasts := p.broadcasts - 1, workers := WakeAll(p.workers))
    case SpuriousWake(w) => p.(workers := p.workers[w := Awake])
    case Turn(w) => TakeTurn(p, w)
    case Finish(w) => p.(workers := p.workers[w := Awake], finished := p.finished + [p.workers[w].task])
    case SetStop => p.(stop := true, teardown := MustBroadcast)
    case Broadcast => p.(workers := WakeAll(p.workers), teardown := Joining(0))
    case Join => p.(teardown := Joining(p.teardown.joined + 1))
  }

  /** The locked block of the worker loop: own tasks first, then shared ones, then leave if
      the pool is stopping, otherwise wait. */
  function TakeTurn(p: Pool, w: nat): Pool
    requires w < |p.workers| && w < |p.owned|
  {
    if p.owned[w] != [] then
      var t := p.owned[w][0];
      p.(owned := p.owned[w := p.owned[w][1..]], workers := p.workers[w := Running(t)],
         claims := p.claims + [Claim(t, w, Own(w))])
    else if p.shared != [] then
      var t := p.shared[0];
      p.(shared := p.shared[1..], workers := p.workers[w := Running(t)],
         claims := p.claims + [Claim(t, w, Shared)])
    else if p.stop then
      p.(workers := p.workers[w := Exited])
    else
      p.(workers := p.workers[w := Asleep])
  }

  /** Running the actions in turn leads from p to q, each one enabled when it is taken. */
  ghost predicate Reaches(p: Pool, actions: seq<Action>, q: Pool)
    decreases |actions|
  {
    if actions == [] then p == q
    else Enabled(p, actions[0]) && Reaches(Apply(p, actions[0]), actions[1..], q)
  }

  // ---------------------------------------------------------------- sums over a sequence

  ghost function Total<T>(xs: seq<T>, f: T -> nat): nat {
    if xs == [] then 0 else f(xs[0]) + Total(xs[1..], f)
  }

  lemma {:induction false} TotalUpdate<T>(xs: seq<T>, i: nat, x: T, f: T -> nat)
    requires i < |xs|
    ensures Total(xs[i := x], f) + f(xs[i]) == Total(xs, f) + f(x)
  {
    if i == 0 {
      assert xs[0 := x][1..] == xs[1..];
    } else {
      assert xs[i := x][1..] == xs[1..][i - 1 := x];
      TotalUpdate(xs[1..], i - 1, x, f);
    }
  }

  lemma {:induction false} TotalBound<S, T>(xs: seq<S>, f: S -> nat, ys: seq<T>, g: T -> nat, slack: nat)
    requires |xs| == |ys|
    requires forall i :: 0 <= i < |xs| ==> f(xs[i]) <= g(ys[i]) + slack
    ensures Total(xs, f) <= Total(ys, g) + slack * |ys|
  {
    if xs != [] {
      TotalBound(xs[1..], f, ys[1..], g, slack);
      assert slack * |ys| == slack * (|ys| - 1) + slack;
    }
  }

  lemma {:induction false} TotalZero<T>(xs: seq<T>, f: T -> nat)
    requires forall i :: 0 <= i < |xs| ==> f(xs[i]) == 0
    ensures Total(xs, f) == 0
  {
    if xs != [] {
      TotalZero(xs[1..], f);
    }
  }

  // ------------------------------------------------------------------------- invariants

  ghost function InQueue(t: nat): seq<nat> -> nat {
    (q: seq<nat>) => multiset(q)[t]
  }

  ghost function RunBy(t: nat): Worker -> nat {
    (w: Worker) => if w == Running(t) then 1 else 0
  }

  /** In how many places task t is: shared queue, own queues, running workers, finished. */
  ghost function Places(p: Pool, t: nat): nat {
    multiset(p.shared)[t] + Total(p.owned, InQueue(t)) + Total(p.workers, RunBy(t)) + multiset(p.finished)[t]
  }

  ghost predicate ExactlyOnce(p: Pool) {
    forall t: nat :: Places(p, t) == if t < |p.accepted| then 1 else 0
  }

  ghost predicate Shape(p: Pool) {
    && |p.owned| == |p.workers|
    && (p.stop <==> !p.teardown.NotStarted?)
    && (p.teardown.Joining? ==> p.teardown.joined <= |p.workers|)
  }

  function Busy(w: Worker): nat {
    if w == Awake || w.Running? then 1 else 0
  }

  /** A sleeper with a task of its own is owed a notify_all. */
  ghost predicate OwnTasksAwaited(p: Pool) {
    forall w :: 0 <= w < |p.workers| && w < |p.owned| && p.workers[w] == Asleep && p.owned[w] != [] ==>
      p.broadcasts > 0
  }

  /** While anyone sleeps, each shared task is matched by a notify_one still owed or by a
      worker that will look at the queues again. */
  ghost predicate SharedTasksMatched(p: Pool) {
    SomeoneAsleep(p) ==> |p.shared| <= p.singles + Total(p.workers, Busy)
  }

  /** A sleeper in a stopping pool is owed the destructor's notify_all. */
  ghost predicate StopAwaited(p: Pool) {
    SomeoneAsleep(p) && p.stop ==> p.teardown.MustBroadcast?
  }

  ghost predicate NoLostWakeup(p: Pool) {
    OwnTasksAwaited(p) && SharedTasksMatched(p) && StopAwaited(p)
  }

  /** A thread has returned only from a stopping pool with nothing left for it to do, and
      only such threads are joined. */
  ghost predicate ExitsAreFinal(p: Pool) {
    && (forall w :: 0 <= w < |p.workers| && w < |p.owned| && p.workers[w] == Exited ==>
          p.stop && p.owned[w] == [] && p.shared == [])
    && (p.teardown.Joining? ==>
          forall w :: 0 <= w < p.teardown.joined && w < |p.workers| ==> p.workers[w] == Exited)
  }

  /** The tasks accepted for route r, in order of acceptance. */
  ghost function AcceptedFor(accepted: seq<Route>, r: Route): seq<nat> {
    if accepted == [] then []
    else
      var k := |accepted| - 1;
      AcceptedFor(accepted[..k], r) + if accepted[k] == r then [k] else []
  }

  /** The tasks claimed from route r, in the order they were claimed. */
  ghost function ClaimedFrom(claims: seq<Claim>, r: Route): seq<nat> {
    if claims == [] then []
    else
      var k := |claims| - 1;
      ClaimedFrom(claims[..k], r) + if claims[k].from == r then [claims[k].task] else []
  }

  ghost function Queue(p: Pool, r: Route): seq<nat> {
    match r
    case Shared => p.shared
    case Own(w) => if w < |p.owned| then p.owned[w] else []
  }

  /** What was claimed from the queue followed by what is in it is what was put into it. */
  ghost predicate InOrder(p: Pool, r: Route) {
    ClaimedFrom(p.claims, r) + Queue(p, r) == AcceptedFor(p.accepted, r)
  }

  /** Every queue is claimed in order, own tasks are claimed by their worker, and a running
      task was claimed by the worker that runs it. */
  ghost predicate FirstInFirstOut(p: Pool) {
    && (forall r :: InOrder(p, r))
    && (forall i :: 0 <= i < |p.claims| && p.claims[i].from.Own? ==> p.claims[i].from.worker == p.claims[i].worker)
    && (forall w, t :: 0 <= w < |p.workers| && p.workers[w] == Running(t) ==>
          Claim(t, w, Own(w)) in p.claims || Claim(t, w, Shared) in p.claims)
  }

  ghost predicate Inv(p: Pool) {
    && Shape(p)
    && NoLostWakeup(p)
    && ExitsAreFinal(p)
    && ExactlyOnce(p)
    && FirstInFirstOut(p)
  }

  lemma InitInv(n: nat)
    ensures Inv(Init(n))
  {
    var p := Init(n);
    forall t: nat ensures Places(p, t) == 0 {
      TotalZero(p.owned, InQueue(t));
      TotalZero(p.workers, RunBy(t));
    }
  }

  lemma OwnTasksStayAwaited(p: Pool, a: Action)
    requires Inv(p) && Enabled(p, a)
    ensures OwnTasksAwaited(Apply(p, a))
  {
  }

  lemma StopStaysAwaited(p: Pool, a: Action)
    requires Inv(p) && Enabled(p, a)
    ensures StopAwaited(Apply(p, a))
  {
    var q := Apply(p, a);
    if SomeoneAsleep(q) {
      var w :| 0 <= w < |q.workers| && q.workers[w] == Asleep;
      assert p.workers[w] == Asleep || a == Turn(w);
    }
  }

  /** A step that only moves worker w keeps each shared task matched. */
  lemma MovingOneKeepsMatch(p: Pool, w: nat, to: Worker, q: Pool)
    requires SharedTasksMatched(p) && w < |p.workers| && q.workers == p.workers[w := to]
    requires q.shared == [] || (to != Asleep &&
               if p.workers[w] == Asleep then to == Awake && q.shared == p.shared && p.singles <= q.singles + 1
               else |q.shared| + Busy(p.workers[w]) + p.singles <= |p.shared| + Busy(to) + q.singles)
    ensures SharedTasksMatched(q)
  {
    TotalUpdate(p.workers, w, to, Busy);
    if SomeoneAsleep(q) && q.shared != [] {
      var v :| 0 <= v < |q.workers| && q.workers[v] == Asleep;
      assert p.workers[v] == Asleep;
    }
  }

  lemma SharedTasksStayMatched(p: Pool, a: Action)
    requires Inv(p) && Enabled(p, a)
    ensures SharedTasksMatched(Apply(p, a))
  {
    var q := Apply(p, a);
    if a.NotifyOne? {
      MovingOneKeepsMatch(p, a.woken, Awake, q);
    } else if a.SpuriousWake? || a.Finish? {
      MovingOneKeepsMatch(p, a.worker, Awake, q);
    } else if a.Turn? {
      MovingOneKeepsMatch(p, a.worker, q.workers[a.worker], q);
    } else if SomeoneAsleep(q) {
      var v :| 0 <= v < |q.workers| && q.workers[v] == Asleep;
      assert p.workers[v] == Asleep;
    }
  }

  lemma NoLostWakeupStep(p: Pool, a: Action)
    requires Inv(p) && Enabled(p, a)
    ensures NoLostWakeup(Apply(p, a))
  {
    OwnTasksStayAwaited(p, a);
    SharedTasksStayMatched(p, a);
    StopStaysAwaited(p, a);
  }

  lemma ExitsAreFinalStep(p: Pool, a: Action)
    requires Inv(p) && Enabled(p, a)
    ensures Shape(Apply(p, a)) && ExitsAreFinal(Apply(p, a))
  {
  }

  lemma PlacesTurn(p: Pool, w: nat, t: nat)
    requires w < |p.workers| && w < |p.owned| && p.workers[w] == Awake
    ensures Places(TakeTurn(p, w), t) == Places(p, t)
  {
    hide Total;
    var q := TakeTurn(p, w);
    TotalUpdate(p.workers, w, q.workers[w], RunBy(t));
    if p.owned[w] != [] {
      TotalUpdate(p.owned, w, q.owned[w], InQueue(t));
      assert p.owned[w] == [p.owned[w][0]] + p.owned[w][1..];
    } else if p.shared != [] {
      assert p.shared == [p.shared[0]] + p.shared[1..];
    }
  }

  /** A step moves no task out of every place or into a second one; only an accepting
      enqueue adds a place, that of the new task. */
  lemma PlacesStep(p: Pool, a: Action, t: nat)
    requires Enabled(p, a)
    ensures var q := Apply(p, a);
      Places(q, t) == Places(p, t) + if |q.accepted| > |p.accepted| && t == |p.accepted| then 1 else 0
  {
    hide Total;
    if a.EnqueueByIdx? && !p.stop {
      PlacesPut(p, a.idx % |p.owned|, |p.accepted|, t);
    } else if a.Turn? {
      PlacesTurn(p, a.worker, t);
    } else if a.NotifyOne? {
      TotalUpdate(p.workers, a.woken, Awake, RunBy(t));
    } else if a.SpuriousWake? || a.Finish? {
      TotalUpdate(p.workers, a.worker, Awake, RunBy(t));
    } else if a.NotifyAll? || a.Broadcast? {
      WakingRunsNothing(p.workers, t);
    }
  }

  lemma PlacesPut(p: Pool, w: nat, task: nat, t: nat)
    requires w < |p.owned|
    ensures Total(p.owned[w := p.owned[w] + [task]], InQueue(t))
         == Total(p.owned, InQueue(t)) + if t == task then 1 else 0
  {
    var longer: seq<nat> := p.owned[w] + [task];
    TotalUpdate(p.owned, w, longer, InQueue(t));
  }

  lemma WakingRunsNothing(ws: seq<Worker>, t: nat)
    ensures Total(WakeAll(ws), RunBy(t)) == Total(ws, RunBy(t))
  {
    TotalBound(WakeAll(ws), RunBy(t), ws, RunBy(t), 0);
    TotalBound(ws, RunBy(t), WakeAll(ws), RunBy(t), 0);
  }

  lemma AcceptedAppend(accepted: seq<Route>, x: Route, r: Route)
    ensures AcceptedFor(accepted + [x], r) == AcceptedFor(accepted, r) + if x == r then [|accepted|] else []
  {
    assert (accepted + [x])[..|accepted|] == accepted;
  }

  lemma ClaimedAppend(claims: seq<Claim>, c: Claim, r: Route)
    ensures ClaimedFrom(claims + [c], r) == ClaimedFrom(claims, r) + if c.from == r then [c.task] else []
  {
    assert (claims + [c])[..|claims|] == claims;
  }

  /** Moving the front of queue c.from to the end of the claims keeps every queue in order. */
  lemma ClaimInOrder(p: Pool, q: Pool, c: Claim, r: Route)
    requires q.accepted == p.accepted && q.claims == p.claims + [c]
    requires Queue(p, c.from) == [c.task] + Queue(q, c.from)
    requires c.from != r ==> Queue(p, r) == Queue(q, r)
    requires InOrder(p, r)
    ensures InOrder(q, r)
  {
    hide Queue, AcceptedFor, ClaimedFrom;
    ClaimedAppend(p.claims, c, r);
    var before := ClaimedFrom(p.claims, r);
    if c.from == r {
      assert (before + [c.task]) + Queue(q, r) == before + ([c.task] + Queue(q, r));
    }
  }

  lemma TurnInOrder(p: Pool, w: nat, r: Route)
    requires w < |p.workers| && w < |p.owned| && InOrder(p, r)
    ensures InOrder(TakeTurn(p, w), r)
  {
    var q := TakeTurn(p, w);
    if p.owned[w] != [] {
      ClaimInOrder(p, q, Claim(p.owned[w][0], w, Own(w)), r);
    } else if p.shared != [] {
      ClaimInOrder(p, q, Claim(p.shared[0], w, Shared), r);
    }
  }

  /** Putting the next task at the end of queue `to` keeps every queue in order. */
  lemma AcceptInOrder(p: Pool, q: Pool, to: Route, r: Route)
    requires q.claims == p.claims && q.accepted == p.accepted + [to]
    requires Queue(q, to) == Queue(p, to) + [|p.accepted|]
    requires to != r ==> Queue(q, r) == Queue(p, r)
    requires InOrder(p, r)
    ensures InOrder(q, r)
  {
    AcceptedAppend(p.accepted, to, r);
    if to == r {
      var claimed := ClaimedFrom(p.claims, r);
      assert claimed + (Queue(p, r) + [|p.accepted|]) == (claimed + Queue(p, r)) + [|p.accepted|];
    }
  }

  lemma InOrderStep(p: Pool, a: Action, r: Route)
    requires InOrder(p, r) && Enabled(p, a)
    ensures InOrder(Apply(p, a), r)
  {
    var q := Apply(p, a);
    if a.Turn? {
      TurnInOrder(p, a.worker, r);
    } else if a.Enqueue? && !p.stop {
      AcceptInOrder(p, q, Shared, r);
    } else if a.EnqueueByIdx? && !p.stop {
      AcceptInOrder(p, q, Own(a.idx % |p.owned|), r);
    } else {
      assert q.claims == p.claims && q.accepted == p.accepted && Queue(q, r) == Queue(p, r);
    }
  }

  lemma RunningWasClaimed(p: Pool, a: Action, w: nat, t: nat)
    requires Inv(p) && Enabled(p, a)
    requires w < |Apply(p, a).workers| && Apply(p, a).workers[w] == Running(t)
    ensures var q := Apply(p, a); Claim(t, w, Own(w)) in q.claims || Claim(t, w, Shared) in q.claims
  {
    var q := Apply(p, a);
    if p.workers[w] == Running(t) {
      assert forall c :: c in p.claims ==> c in q.claims;
    } else {
      assert q.claims[|q.claims| - 1] in q.claims;
    }
  }

  lemma FirstInFirstOutStep(p: Pool, a: Action)
    requires Inv(p) && Enabled(p, a)
    ensures FirstInFirstOut(Apply(p, a))
  {
    var q := Apply(p, a);
    forall r ensures InOrder(q, r) {
      assert InOrder(p, r);
      InOrderStep(p, a, r);
    }
    forall w, t | 0 <= w < |q.workers| && q.workers[w] == Running(t)
      ensures Claim(t, w, Own(w)) in q.claims || Claim(t, w, Shared) in q.claims
    {
      RunningWasClaimed(p, a, w, t);
    }
  }

  /** Every step keeps every invariant. */
  lemma InvStep(p: Pool, a: Action)
    requires Inv(p) && Enabled(p, a)
    ensures Inv(Apply(p, a))
  {
    NoLostWakeupStep(p, a);
    ExitsAreFinalStep(p, a);
    FirstInFirstOutStep(p, a);
    forall t: nat ensures Places(Apply(p, a), t) == if t < |Apply(p, a).accepted| then 1 else 0 {
      assert Places(p, t) == if t < |p.accepted| then 1 else 0;
      PlacesStep(p, a, t);
    }
  }

  /** Every state of every run, with any number of workers and any clients, satisfies the
      invariants. */
  lemma {:induction false} InvRun(p: Pool, actions: seq<Action>, q: Pool)
    requires Inv(p) && Reaches(p, actions, q)
    ensures Inv(q) && |q.workers| == |p.workers|
    decreases |actions|
  {
    if actions != [] {
      InvStep(p, actions[0]);
      InvRun(Apply(p, actions[0]), actions[1..], q);
    }
  }

  // ------------------------------------------------------------- what every run guarantees

  /** In every reachable state: a worker sleeping on a task of its own is owed a notify_all;
      if no worker is awake, at least as many notify_one calls are owed as there are shared
      tasks; and a worker sleeping in a stopping pool is owed the destructor's notify_all. */
  lemma NoLostWakeupEver(n: nat, actions: seq<Action>, p: Pool)
    requires Reaches(Init(n), actions, p)
    ensures forall w :: 0 <= w < n && w < |p.workers| && w < |p.owned| && p.workers[w] == Asleep && p.owned[w] != [] ==>
              p.broadcasts > 0
    ensures n > 0 && (forall w :: 0 <= w < |p.workers| ==> p.workers[w] == Asleep || p.workers[w] == Exited) ==>
              |p.shared| <= p.singles
    ensures p.stop && SomeoneAsleep(p) ==> p.teardown == MustBroadcast
  {
    InitInv(n);
    InvRun(Init(n), actions, p);
    if n > 0 && forall w :: 0 <= w < |p.workers| ==> p.workers[w] == Asleep || p.workers[w] == Exited {
      TotalZero(p.workers, Busy);
      assert p.workers[0] == Asleep || p.workers[0] == Exited;
    }
  }

  /** In every reachable state every accepted task is in exactly one place, and nothing else
      is anywhere. */
  lemma ExactlyOnceEver(n: nat, actions: seq<Action>, p: Pool, t: nat)
    requires Reaches(Init(n), actions, p)
    ensures Places(p, t) == if t < |p.accepted| then 1 else 0
  {
    InitInv(n);
    InvRun(Init(n), actions, p);
  }

  ghost predicate AllFinished(p: Pool) {
    forall t: nat :: multiset(p.finished)[t] == if t < |p.accepted| then 1 else 0
  }

  lemma EmptyAndIdleMeansFinished(p: Pool)
    requires ExactlyOnce(p) && p.shared == []
    requires forall w :: 0 <= w < |p.owned| ==> p.owned[w] == []
    requires forall w :: 0 <= w < |p.workers| ==> !p.workers[w].Running?
    ensures AllFinished(p)
  {
    forall t: nat ensures multiset(p.finished)[t] == if t < |p.accepted| then 1 else 0 {
      TotalZero(p.owned, InQueue(t));
      TotalZero(p.workers, RunBy(t));
      assert Places(p, t) == if t < |p.accepted| then 1 else 0;
    }
  }

  /** When the destructor has joined every thread, every accepted task has been run, once;
      unless the pool was built without threads and a task was given to it all the same. */
  lemma ShutdownDrains(n: nat, actions: seq<Action>, p: Pool)
    requires Reaches(Init(n), actions, p)
    requires p.teardown == Joining(n)
    ensures AllFinished(p) <==> n > 0 || p.accepted == []
  {
    InitInv(n);
    InvRun(Init(n), actions, p);
    if n > 0 {
      assert p.workers[0] == Exited;
      EmptyAndIdleMeansFinished(p);
    } else {
      NothingRunsWithoutWorkers(Init(n), actions, p);
      if p.accepted != [] {
        assert multiset(p.finished)[0] == 0;
      }
    }
  }

  lemma {:induction false} NothingRunsWithoutWorkers(p: Pool, actions: seq<Action>, q: Pool)
    requires Reaches(p, actions, q) && p.workers == [] && p.finished == []
    ensures q.finished == [] && q.workers == []
    decreases |actions|
  {
    if actions != [] {
      NothingRunsWithoutWorkers(Apply(p, actions[0]), actions[1..], q);
    }
  }

  /** A pool of no threads that is joined, with a task left. */
  lemma TaskLeftBehind() returns (p: Pool)
    ensures Reaches(Init(0), [Enqueue, NotifyNobody, SetStop, Broadcast], p)
    ensures p.teardown == Joining(0) && p.accepted == [Shared] && p.shared == [0] && p.finished == []
  {
    var p1 := Apply(Init(0), Enqueue);
    var p2 := Apply(p1, NotifyNobody);
    var p3 := Apply(p2, SetStop);
    p := Apply(p3, Broadcast);
    hide Reaches;
    NoAction(p);
    OneActionMore(p3, Broadcast, [], p);
    OneActionMore(p2, SetStop, [Broadcast], p);
    OneActionMore(p1, NotifyNobody, [SetStop, Broadcast], p);
    OneActionMore(Init(0), Enqueue, [NotifyNobody, SetStop, Broadcast], p);
    assert [Enqueue] + [NotifyNobody, SetStop, Broadcast] == [Enqueue, NotifyNobody, SetStop, Broadcast];
  }

  lemma NoAction(p: Pool)
    ensures Reaches(p, [], p)
  {
  }

  lemma OneActionMore(p: Pool, a: Action, actions: seq<Action>, q: Pool)
    requires Enabled(p, a) && Reaches(Apply(p, a), actions, q)
    ensures Reaches(p, [a] + actions, q)
  {
    assert ([a] + actions)[1..] == actions;
  }

  // ---------------------------------------------------------- what each step must bring about

  /** The queue a call asks for in a pool of n workers, if it is one that gives a task. */
  function RouteAsked(a: Action, n: nat): seq<Route> {
    match a
    case Enqueue => [Shared]
    case EnqueueByIdx(idx) => if n > 0 then [Own(idx % n)] else []
    case _ => []
  }

  /** The queues asked for, in order, by the calls made before the stop flag is set. */
  function RoutesAsked(actions: seq<Action>, n: nat): seq<Route> {
    if actions == [] || actions[0].SetStop? then [] else RouteAsked(actions[0], n) + RoutesAsked(actions[1..], n)
  }

  lemma AskedIsAccepted(p: Pool, a: Action)
    requires Enabled(p, a)
    ensures Apply(p, a).accepted == p.accepted + if p.stop then [] else RouteAsked(a, |p.owned|)
    ensures |Apply(p, a).owned| == |p.owned| && (Apply(p, a).stop <==> p.stop || a.SetStop?)
  {
  }

  lemma {:induction false} AllAskedIsAccepted(p: Pool, actions: seq<Action>, q: Pool)
    requires Reaches(p, actions, q)
    ensures q.accepted == p.accepted + if p.stop then [] else RoutesAsked(actions, |p.owned|)
    decreases |actions|
  {
    if actions != [] {
      var a, rest, n := actions[0], actions[1..], |p.owned|;
      hide Enabled, Apply, RouteAsked;
      AskedIsAccepted(p, a);
      AllAskedIsAccepted(Apply(p, a), rest, q);
      if !p.stop && !a.SetStop? {
        assert p.accepted + (RouteAsked(a, n) + RoutesAsked(rest, n))
            == p.accepted + RouteAsked(a, n) + RoutesAsked(rest, n);
      } else if !p.stop {
        NothingAsked(a, n);
      }
    }
  }

  lemma NothingAsked(a: Action, n: nat)
    requires a.SetStop?
    ensures RouteAsked(a, n) == []
  {
  }

  /** Every call made before the stop flag is set is accepted, for the queue it asks for, and
      no other: of the calls alone it follows which tasks there are. */
  lemma AcceptedIsAsked(n: nat, actions: seq<Action>, p: Pool)
    requires Reaches(Init(n), actions, p)
    ensures p.accepted == RoutesAsked(actions, n)
  {
    AllAskedIsAccepted(Init(n), actions, p);
  }

  /** A worker that looks at the queues runs a task exactly if its own or the shared queue
      holds one, leaves exactly if neither does and the pool is stopping, and waits exactly
      otherwise. No other worker changes. */
  lemma TurnMeans(p: Pool, w: nat)
    requires Enabled(p, Turn(w))
    ensures var q := Apply(p, Turn(w));
      && |q.workers| == |p.workers|
      && (q.workers[w].Running? <==> p.owned[w] != [] || p.shared != [])
      && (q.workers[w] == Exited <==> p.owned[w] == [] && p.shared == [] && p.stop)
      && (q.workers[w] == Asleep <==> p.owned[w] == [] && p.shared == [] && !p.stop)
      && (q.workers[w].Running? ==>
            q.claims == p.claims + [Claim(q.workers[w].task, w, if p.owned[w] != [] then Own(w) else Shared)])
      && forall v :: 0 <= v < |p.workers| && v != w ==> q.workers[v] == p.workers[v]
  {
  }

  ghost function Sleepers(p: Pool): set<nat> {
    set w: nat | w < |p.workers| && p.workers[w] == Asleep
  }

  /** Who sleeps after a step: notify_one wakes one, notify_all everyone, and only a worker
      that found nothing to do falls asleep. */
  lemma SleepersStep(p: Pool, a: Action)
    requires Enabled(p, a)
    ensures var now := Sleepers(Apply(p, a));
      match a
      case NotifyOne(w) => w in Sleepers(p) && now == Sleepers(p) - {w}
      case SpuriousWake(w) => w in Sleepers(p) && now == Sleepers(p) - {w}
      case NotifyAll => now == {}
      case Broadcast => now == {}
      case Turn(w) =>
        now == Sleepers(p) + if p.owned[w] == [] && p.shared == [] && !p.stop then {w} else {}
      case _ => now == Sleepers(p)
  {
  }

  // -------------------------------------------------------------------- order and routing

  lemma {:induction false} AcceptedForIsSorted(accepted: seq<Route>, r: Route)
    ensures forall t :: t in AcceptedFor(accepted, r) <==> 0 <= t < |accepted| && accepted[t] == r
    ensures forall i, j :: 0 <= i < j < |AcceptedFor(accepted, r)| ==>
              AcceptedFor(accepted, r)[i] < AcceptedFor(accepted, r)[j]
  {
    if accepted != [] {
      var k := |accepted| - 1;
      AcceptedForIsSorted(accepted[..k], r);
      forall i | 0 <= i < |AcceptedFor(accepted[..k], r)| ensures AcceptedFor(accepted[..k], r)[i] < k {
        assert AcceptedFor(accepted[..k], r)[i] in AcceptedFor(accepted[..k], r);
      }
    }
  }

  lemma {:induction false} ClaimIsListed(claims: seq<Claim>, i: nat)
    requires i < |claims|
    ensures claims[i].task in ClaimedFrom(claims, claims[i].from)
  {
    var k := |claims| - 1;
    if i < k {
      assert claims[..k][i] == claims[i];
      ClaimIsListed(claims[..k], i);
    }
  }

  /** Each queue is served in submission order: the claimed tasks are the first ones put into
      it, in that order, none skipped, and the rest wait in the queue in that order. */
  lemma ServedInOrder(n: nat, actions: seq<Action>, p: Pool, r: Route)
    requires Reaches(Init(n), actions, p)
    ensures ClaimedFrom(p.claims, r) <= AcceptedFor(p.accepted, r)
    ensures Queue(p, r) == AcceptedFor(p.accepted, r)[|ClaimedFrom(p.claims, r)|..]
    ensures forall i, j :: 0 <= i < j < |ClaimedFrom(p.claims, r)| ==>
              ClaimedFrom(p.claims, r)[i] < ClaimedFrom(p.claims, r)[j]
  {
    InitInv(n);
    InvRun(Init(n), actions, p);
    assert InOrder(p, r);
    AcceptedForIsSorted(p.accepted, r);
  }

  lemma ClaimsFollowRoutes(p: Pool, i: nat)
    requires FirstInFirstOut(p) && i < |p.claims|
    ensures var c := p.claims[i];
      c.task < |p.accepted| && p.accepted[c.task] == c.from && (c.from == Shared || c.from == Own(c.worker))
  {
    var c := p.claims[i];
    ClaimIsListed(p.claims, i);
    assert InOrder(p, c.from);
    assert c.task in AcceptedFor(p.accepted, c.from);
    AcceptedForIsSorted(p.accepted, c.from);
  }

  lemma {:induction false} AcceptedGrows(p: Pool, actions: seq<Action>, q: Pool)
    requires Reaches(p, actions, q)
    ensures p.accepted <= q.accepted
    decreases |actions|
  {
    if actions != [] {
      AcceptedGrows(Apply(p, actions[0]), actions[1..], q);
    }
  }

  /** A task given by index is only ever claimed, and only ever run, by worker idx % n. */
  lemma IndexedTaskStaysOnItsWorker(n: nat, before: seq<Action>, p: Pool, idx: nat, after: seq<Action>, q: Pool)
    requires n > 0
    requires Reaches(Init(n), before, p) && !p.stop && Enabled(p, EnqueueByIdx(idx))
    requires Reaches(Apply(p, EnqueueByIdx(idx)), after, q)
    ensures forall i :: 0 <= i < |q.claims| && q.claims[i].task == |p.accepted| ==> q.claims[i].worker == idx % n
    ensures forall w :: 0 <= w < |q.workers| && q.workers[w] == Running(|p.accepted|) ==> w == idx % n
  {
    var t := |p.accepted|;
    var p' := Apply(p, EnqueueByIdx(idx));
    InitInv(n);
    InvRun(Init(n), before, p);
    InvStep(p, EnqueueByIdx(idx));
    InvRun(p', after, q);
    AcceptedGrows(p', after, q);
    assert q.accepted[t] == Own(idx % n);
    forall i | 0 <= i < |q.claims| && q.claims[i].task == t ensures q.claims[i].worker == idx % n {
      ClaimsFollowRoutes(q, i);
    }
    forall w | 0 <= w < |q.workers| && q.workers[w] == Running(t) ensures w == idx % n {
      var c := if Claim(t, w, Own(w)) in q.claims then Claim(t, w, Own(w)) else Claim(t, w, Shared);
      assert c in q.claims;
      var i :| 0 <= i < |q.claims| && q.claims[i] == c;
    }
  }

  /** When a worker takes a shared task, or leaves, it has already claimed every task that was
      ever accepted for it. */
  lemma OwnTasksFirst(n: nat, actions: seq<Action>, p: Pool, w: nat)
    requires Reaches(Init(n), actions, p) && Enabled(p, Turn(w))
    requires var q := Apply(p, Turn(w)); q.shared != p.shared || q.workers[w] == Exited
    ensures ClaimedFrom(p.claims, Own(w)) == AcceptedFor(p.accepted, Own(w))
  {
    InitInv(n);
    InvRun(Init(n), actions, p);
    assert InOrder(p, Own(w));
  }

  // ------------------------------------------------------------------ progress and its cost

  ghost predicate External(a: Action) {
    a.Enqueue? || a.EnqueueByIdx? || a.SpuriousWake? || a.SetStop?
  }

  function TwiceLength(q: seq<nat>): nat { 2 * |q| }

  function Effort(w: Worker): nat {
    match w
    case Awake => 1
    case Running(_) => 2
    case _ => 0
  }

  function TeardownWork(t: Teardown, n: nat): nat {
    match t
    case NotStarted => 0
    case MustBroadcast => 2 * n + 1
    case Joining(k) => if k <= n then n - k else 0
  }

  /** An upper bound on the steps the pool can still take on its own. */
  ghost function Work(p: Pool): nat {
    2 * |p.shared| + Total(p.owned, TwiceLength) + Total(p.workers, Effort) + 2 * p.singles
    + (|p.workers| + 1) * p.broadcasts + TeardownWork(p.teardown, |p.workers|)
  }

  /** What one outside event can add to that bound, in a pool of n workers. */
  function Credit(a: Action, n: nat): nat {
    match a
    case Enqueue => 4
    case EnqueueByIdx(_) => n + 3
    case SpuriousWake(_) => 1
    case SetStop => 2 * n + 1
    case _ => 0
  }

  ghost function TotalCredit(actions: seq<Action>, n: nat): nat {
    if actions == [] then 0 else Credit(actions[0], n) + TotalCredit(actions[1..], n)
  }

  ghost function InternalSteps(actions: seq<Action>): nat {
    if actions == [] then 0
    else (if External(actions[0]) then 0 else 1) + InternalSteps(actions[1..])
  }

  lemma WakingCosts(ws: seq<Worker>)
    ensures Total(WakeAll(ws), Effort) <= Total(ws, Effort) + |ws|
  {
    TotalBound(WakeAll(ws), Effort, ws, Effort, 1);
  }

  lemma QueueingCosts(p: Pool, w: nat, t: nat)
    requires w < |p.owned|
    ensures Total(p.owned[w := p.owned[w] + [t]], TwiceLength) == Total(p.owned, TwiceLength) + 2
  {
    var longer: seq<nat> := p.owned[w] + [t];
    TotalUpdate(p.owned, w, longer, TwiceLength);
  }

  lemma TurnCosts(p: Pool, w: nat)
    requires w < |p.workers| && w < |p.owned| && p.workers[w] == Awake
    ensures Work(TakeTurn(p, w)) + 1 <= Work(p)
  {
    var q := TakeTurn(p, w);
    TotalUpdate(p.workers, w, q.workers[w], Effort);
    TotalUpdate(p.owned, w, q.owned[w], TwiceLength);
  }

  lemma WorkStep(p: Pool, a: Action)
    requires Shape(p) && Enabled(p, a)
    ensures Work(Apply(p, a)) + (if External(a) then 0 else 1) <= Work(p) + Credit(a, |p.workers|)
  {
    hide Total;
    var n := |p.workers|;
    match a
    case EnqueueByIdx(idx) =>
      QueueingCosts(p, idx % |p.owned|, |p.accepted|);
      assert (n + 1) * (p.broadcasts + 1) == (n + 1) * p.broadcasts + n + 1;
    case Turn(w) => TurnCosts(p, w);
    case NotifyOne(w) => TotalUpdate(p.workers, w, Awake, Effort);
    case SpuriousWake(w) => TotalUpdate(p.workers, w, Awake, Effort);
    case Finish(w) => TotalUpdate(p.workers, w, Awake, Effort);
    case NotifyAll =>
      WakingCosts(p.workers);
      assert (n + 1) * (p.broadcasts - 1) == (n + 1) * p.broadcasts - (n + 1);
    case Broadcast => WakingCosts(p.workers);
    case _ =>
  }

  /** Every run, whatever its schedule: the steps the pool takes on its own are paid for by
      what the clients asked for. No schedule lets the workers spin. */
  lemma {:induction false} InternalStepsAreBounded(p: Pool, actions: seq<Action>, q: Pool)
    requires Inv(p) && Reaches(p, actions, q)
    ensures InternalSteps(actions) + Work(q) <= Work(p) + TotalCredit(actions, |p.workers|)
    decreases |actions|
  {
    if actions != [] {
      WorkStep(p, actions[0]);
      InvStep(p, actions[0]);
      InternalStepsAreBounded(Apply(p, actions[0]), actions[1..], q);
    }
  }

  /** The pool has nothing left to do on its own. */
  ghost predicate Quiescent(p: Pool) {
    forall a :: Enabled(p, a) ==> External(a)
  }

  /** A run that cannot go on without a new outside event has run every accepted task, once;
      if the pool was stopped, every thread has returned and has been joined. */
  lemma QuiescentMeansDone(n: nat, actions: seq<Action>, p: Pool)
    requires n > 0 && Reaches(Init(n), actions, p) && Quiescent(p)
    ensures AllFinished(p)
    ensures p.stop ==> p.teardown == Joining(n) && forall w :: 0 <= w < |p.workers| ==> p.workers[w] == Exited
  {
    InitInv(n);
    InvRun(Init(n), actions, p);
    assert !Enabled(p, NotifyNobody) && !Enabled(p, NotifyAll) && !Enabled(p, Broadcast) && !Enabled(p, Join);
    forall w | 0 <= w < n
      ensures p.workers[w] == Asleep || p.workers[w] == Exited
      ensures p.workers[w] == Asleep ==> p.singles == 0
    {
      assert !Enabled(p, Turn(w)) && !Enabled(p, Finish(w)) && !Enabled(p, NotifyOne(w));
    }
    TotalZero(p.workers, Busy);
    if p.stop {
      assert forall w :: 0 <= w < n ==> p.workers[w] == Exited;
    }
    assert p.workers[0] == Asleep || p.workers[0] == Exited;
    EmptyAndIdleMeansFinished(p);
  }

  function SpuriousWakes(actions: seq<Action>): nat {
    if actions == [] then 0 else (if actions[0].SpuriousWake? then 1 else 0) + SpuriousWakes(actions[1..])
  }

  /** A stopped pool refuses all calls: its own steps are bounded by the work left and the
      spurious wakeups alone. */
  lemma {:induction false} StoppedStepsAreBounded(p: Pool, actions: seq<Action>, q: Pool)
    requires Inv(p) && p.stop && Reaches(p, actions, q)
    ensures InternalSteps(actions) + Work(q) <= Work(p) + SpuriousWakes(actions)
    decreases |actions|
  {
    if actions != [] {
      var a := actions[0];
      assert a.Enqueue? || a.EnqueueByIdx? ==> Apply(p, a) == p;
      WorkStep(p, a);
      InvStep(p, a);
      StoppedStepsAreBounded(Apply(p, a), actions[1..], q);
    }
  }

  /** After the stop flag is set, whatever clients still call and however often threads wake
      for no reason, the pool takes no more steps of its own than the work left at that point
      and one for each spurious wakeup; it can take one until every thread is joined, and
      then every task accepted has finished: shutdown always ends. */
  lemma ShutdownEnds(n: nat, before: seq<Action>, p: Pool, after: seq<Action>, q: Pool)
    requires n > 0 && Reaches(Init(n), before, p)
    requires p.stop
    requires Reaches(p, after, q)
    ensures InternalSteps(after) + Work(q) <= Work(p) + SpuriousWakes(after)
    ensures q.teardown != Joining(n) ==> exists a :: Enabled(q, a) && !External(a)
    ensures q.teardown == Joining(n) ==> AllFinished(q)
    ensures q.accepted == p.accepted
  {
    InitInv(n);
    InvRun(Init(n), before, p);
    InvRun(p, after, q);
    StoppedStepsAreBounded(p, after, q);
    StoppedStaysStopped(p, after, q);
    Concatenation(Init(n), before, p, after, q);
    if q.teardown == Joining(n) {
      ShutdownDrains(n, before + after, q);
    } else if Quiescent(q) {
      QuiescentMeansDone(n, before + after, q);
    }
  }

  lemma {:induction false} StoppedStaysStopped(p: Pool, actions: seq<Action>, q: Pool)
    requires p.stop && Reaches(p, actions, q)
    ensures q.stop && q.accepted == p.accepted
    decreases |actions|
  {
    if actions != [] {
      StoppedStaysStopped(Apply(p, actions[0]), actions[1..], q);
    }
  }

  lemma {:induction false} Concatenation(p: Pool, first: seq<Action>, q: Pool, second: seq<Action>, r: Pool)
    requires Reaches(p, first, q) && Reaches(q, second, r)
    ensures Reaches(p, first + second, r)
    decreases |first|
  {
    if first == [] {
      assert first + second == second;
    } else {
      assert (first + second)[1..] == first[1..] + second;
      Concatenation(Apply(p, first[0]), first[1..], q, second, r);
    }
  }
}

module WorkerPool {
  import opened PoolProtocol

  /** ThreadPool: its fields, what the scheduler knows of its threads, and the record of the
      run. Each method is one block that runs without interruption. */
  class ThreadPool {
    const threadNum: nat
    var ownTasks: seq<seq<nat>>   // workers_[i].tasks
    var tasks: seq<nat>
    var stop: bool
    var submitted: nat            // names the next task
    var threads: seq<Worker>
    var singles: nat
    var broadcasts: nat
    var teardown: Teardown
    ghost var accepted: seq<Route>
    ghost var claims: seq<Claim>
    ghost var finished: seq<nat>

    ghost function View(): Pool
      reads this
    {
      Pool(ownTasks, tasks, stop, threads, singles, broadcasts, teardown, accepted, claims, finished)
    }

    ghost predicate Valid()
      reads this
    {
      |ownTasks| == |threads| == threadNum && submitted == |accepted|
    }

    constructor (n: nat)
      ensures Valid() && threadNum == n && View() == Init(n)
    {
      threadNum := n;
      ownTasks := seq(n, _ => []);
      tasks := [];
      stop := false;
      submitted := 0;
      threads := seq(n, _ => Awake);
      singles, broadcasts, teardown := 0, 0, NotStarted;
      accepted, claims, finished := [], [], [];
    }

    /** The locked block of enqueue; false stands for the exception thrown when stopped. */
    method Enqueue() returns (ok: bool)
      requires Valid()
      modifies this
      ensures Valid() && ok == !old(stop)
      ensures View() == Apply(old(View()), Action.Enqueue)
    {
      if stop {
        return false;
      }
      tasks := tasks + [submitted];
      accepted := accepted + [Shared];
      submitted := submitted + 1;
      singles := singles + 1;
      return true;
    }

    /** The locked block of enqueueByIdx. Without threads the index has no remainder. */
    method EnqueueByIdx(idx: nat) returns (ok: bool)
      requires Valid() && threadNum > 0
      modifies this
      ensures Valid() && ok == !old(stop)
      ensures View() == Apply(old(View()), Action.EnqueueByIdx(idx))
    {
      if stop {
        return false;
      }
      var w := idx % threadNum;
      ownTasks := ownTasks[w := ownTasks[w] + [submitted]];
      accepted := accepted + [Own(w)];
      submitted := submitted + 1;
      broadcasts := broadcasts + 1;
      return true;
    }

    /** notify_one after enqueue: wakes some waiting thread if there is one. */
    method NotifyOne() returns (ghost a: Action)
      requires Valid() && singles > 0
      modifies this
      ensures Valid() && (a.NotifyOne? || a.NotifyNobody?)
      ensures Enabled(old(View()), a) && View() == Apply(old(View()), a)
    {
      singles := singles - 1;
      a := Action.NotifyNobody;
      if w :| 0 <= w < |threads| && threads[w] == Asleep {
        a := Action.NotifyOne(w);
        threads := threads[w := Awake];
      }
    }

    /** notify_all after enqueueByIdx. */
    method NotifyAll()
      requires Valid() && broadcasts > 0
      modifies this
      ensures Valid() && View() == Apply(old(View()), Action.NotifyAll)
    {
      broadcasts := broadcasts - 1;
      threads := WakeAll(threads);
    }

    /** One pass of worker i from taking the lock to leaving it. */
    method Turn(i: nat)
      requires Valid() && i < threadNum && threads[i] == Awake
      modifies this
      ensures Valid() && View() == Apply(old(View()), Action.Turn(i))
    {
      if !(stop || tasks != [] || ownTasks[i] != []) {
        threads := threads[i := Asleep];
        return;
      }
      if ownTasks[i] != [] {
        var task := ownTasks[i][0];
        ownTasks := ownTasks[i := ownTasks[i][1..]];
        threads := threads[i := Running(task)];
        claims := claims + [Claim(task, i, Own(i))];
      } else if tasks != [] {
        var task := tasks[0];
        tasks := tasks[1..];
        threads := threads[i := Running(task)];
        claims := claims + [Claim(task, i, Shared)];
      } else if stop {
        threads := threads[i := Exited];
      }
    }

    /** Worker i comes back from task(). */
    method Finish(i: nat)
      requires Valid() && i < threadNum && threads[i].Running?
      modifies this
      ensures Valid() && View() == Apply(old(View()), Action.Finish(i))
    {
      finished := finished + [threads[i].task];
      threads := threads[i := Awake];
    }

    /** The three parts of ~ThreadPool: the locked block, the notify_all and one join. */
    method SetStop()
      requires Valid() && teardown == NotStarted
      modifies this
      ensures Valid() && View() == Apply(old(View()), Action.SetStop)
    {
      stop := true;
      teardown := MustBroadcast;
    }

    method Broadcast()
      requires Valid() && teardown == MustBroadcast
      modifies this
      ensures Valid() && View() == Apply(old(View()), Action.Broadcast)
    {
      threads := WakeAll(threads);
      teardown := Joining(0);
    }

    method JoinNext()
      requires Valid() && teardown.Joining? && teardown.joined < threadNum && threads[teardown.joined] == Exited
      modifies this
      ensures Valid() && View() == Apply(old(View()), Action.Join)
    {
      teardown := Joining(teardown.joined + 1);
    }
  }
}
