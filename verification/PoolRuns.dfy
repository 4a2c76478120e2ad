/**
 Every interleaving of the workers of a pool with threads that dispatch tasks and change the
 number of workers, some of which may be waiting for surplus workers to leave.
 */
module PoolRuns {
  import opened ThreadPools

  /** A thread inside `setThreadCount(n, true)`. */
  type Caller = nat

  datatype Handed = Handed(worker: Tid, task: Task)

  /**
   `callers` are the waiting threads with the numbers they wait for, `dozing` those of them that
   sleep with no signal pending.  At most `limit` threads wait at a time.
   */
  datatype System = System(
    pool: Pool, busy: map<Tid, Task>, callers: map<Caller, nat>, dozing: set<Caller>, limit: nat,
    dispatched: seq<Task>, handed: seq<Handed>, joined: multiset<Tid>)

  datatype Action =
    | Dispatch(task: Task, woken: set<Tid>)
    | Resize(n: nat, woken: set<Tid>)
    | ResizeAndWait(caller: Caller, n: nat, woken: set<Tid>)
    | CallerRuns(caller: Caller)
    | CallerWakes(caller: Caller)
    | WorkerRuns(worker: Tid, roused: set<Caller>)
    | WorkerFinishes(worker: Tid)
    | WorkerWakes(worker: Tid)

  function Start(limit: nat): System {
    System(Pool([], {}, {}, 0, {}, 0), map[], map[], {}, limit, [], [], multiset{})
  }

  /** The signal of a worker that leaves wakes at least one of the callers that sleep. */
  predicate Rouses(s: System, roused: set<Caller>) {
    roused <= s.dozing && (s.dozing != {} ==> roused != {})
  }

  /** The call that would count down from no workers at all is left aside; see `BoundBreaksOnlyAtWrap`. */
  predicate Enabled(s: System, a: Action) {
    match a
    case Dispatch(_, woken) => Signals(s.pool, woken)
    case Resize(n, woken) => n < UNSIGNED_RANGE - 1 && Signals(s.pool, woken)
    case ResizeAndWait(c, n, woken) =>
      n < UNSIGNED_RANGE - 1 && Signals(s.pool, woken) && c !in s.callers && |s.callers| < s.limit
    case CallerRuns(c) => c in s.callers && c !in s.dozing
    case CallerWakes(c) => true
    case WorkerRuns(w, roused) => w in s.pool.threads && w !in s.pool.asleep && w !in s.busy && Rouses(s, roused)
    case WorkerFinishes(w) => w in s.busy
    case WorkerWakes(w) => true
  }

  function Join(s: System): System {
    s.(pool := AfterJoin(s.pool), joined := s.joined + multiset(s.pool.terminated))
  }

  /** The waiting loop of `setThreadCount`. */
  function Wait(s: System, c: Caller, n: nat): System {
    if |s.pool.threads| > n then s.(callers := s.callers[c := n], dozing := s.dozing + {c})
    else Join(s).(callers := s.callers - {c}, dozing := s.dozing - {c})
  }

  function Work(s: System, w: Tid, roused: set<Caller>): System {
    var pool := AfterGet(s.pool, w);
    match GetOutcome(s.pool)
    case Exits => s.(pool := pool, dozing := s.dozing - roused)
    case Sleeps => s.(pool := pool)
    case Took(task) => s.(pool := pool, busy := s.busy[w := task], handed := s.handed + [Handed(w, task)])
  }

  function Do(s: System, a: Action): System
    requires Enabled(s, a)
  {
    match a
    case Dispatch(task, woken) =>
      Join(s.(pool := AfterDispatch(s.pool, task, woken), dispatched := s.dispatched + [task]))
    case Resize(n, woken) => Join(s.(pool := AfterResize(s.pool, n, woken)))
    case ResizeAndWait(c, n, woken) => Wait(s.(pool := AfterResize(s.pool, n, woken)), c, n)
    case CallerRuns(c) => Wait(Join(s), c, s.callers[c])
    case CallerWakes(c) => s.(dozing := s.dozing - {c})
    case WorkerRuns(w, roused) => Work(s, w, roused)
    case WorkerFinishes(w) => s.(busy := s.busy - {w})
    case WorkerWakes(w) => s.(pool := s.pool.(asleep := s.pool.asleep - {w}))
  }

  /** An action that is not enabled is passed over. */
  function Next(s: System, a: Action): System {
    if Enabled(s, a) then Do(s, a) else s
  }

  function Run(s: System, actions: seq<Action>): System
    decreases |actions|
  {
    if actions == [] then s else Run(Next(s, actions[0]), actions[1..])
  }

  /** What a worker does when it is its turn: it leaves if an exit is asked for, even with tasks waiting. */
  lemma WorkersTurn(s: System, w: Tid, roused: set<Caller>)
    requires Enabled(s, WorkerRuns(w, roused))
    ensures var t := Do(s, WorkerRuns(w, roused));
      if s.pool.termReq > 0 then
        && t.pool.threads == s.pool.threads - {w} && w in t.pool.terminated && t.pool.termReq == s.pool.termReq - 1
        && t.pool.queue == s.pool.queue && t.handed == s.handed && t.dozing == s.dozing - roused
      else if s.pool.queue != [] then
        && t.pool.threads == s.pool.threads && t.busy == s.busy[w := s.pool.queue[0]]
        && t.pool.queue == s.pool.queue[1..] && t.handed == s.handed + [Handed(w, s.pool.queue[0])]
      else t.pool.threads == s.pool.threads && w in t.pool.asleep && t.handed == s.handed
  {
  }

  // ---------- what every run keeps ----------

  ghost predicate Disjoint(a: set<Tid>, b: set<Tid>) {
    forall t :: t in a ==> t !in b
  }

  /** Threads are live, left but not joined, or joined once; handles are not used twice. */
  ghost predicate Threads(s: System) {
    && Disjoint(s.pool.threads, s.pool.terminated)
    && (forall t :: t in s.pool.threads || t in s.pool.terminated ==> t < s.pool.next && t !in s.joined)
    && (forall t :: t in s.joined ==> t < s.pool.next && s.joined[t] == 1)
  }

  ghost predicate Workers(s: System) {
    && s.pool.asleep <= s.pool.threads && s.busy.Keys <= s.pool.threads
    && Disjoint(s.busy.Keys, s.pool.asleep)
    && s.pool.termReq <= |s.pool.threads| < UNSIGNED_RANGE - 1
  }

  /** If a worker sleeps, those awake or busy are enough for all tasks and all exits asked for. */
  ghost predicate Attended(s: System) {
    s.pool.asleep != {} ==> |s.pool.threads - s.pool.asleep| >= |s.pool.queue| + s.pool.termReq
  }

  /** Callers sleep inside their calls, and no more of them wait than are allowed to. */
  ghost predicate Callers(s: System) {
    s.dozing <= s.callers.Keys && |s.callers| <= s.limit
  }

  /** A caller sleeps although no more workers are left than it waits for. */
  ghost predicate Stranded(s: System) {
    exists c :: c in s.dozing && c in s.callers && |s.pool.threads| <= s.callers[c]
  }

  /** When one caller waits at a time, it sleeps only while there are more workers than it waits for. */
  ghost predicate NoneStranded(s: System) {
    s.limit <= 1 ==> !Stranded(s)
  }

  function Tasks(handed: seq<Handed>): seq<Task> {
    seq(|handed|, i requires 0 <= i < |handed| => handed[i].task)
  }

  /** Tasks are handed out in the order of dispatch, each once. */
  ghost predicate Fifo(s: System) {
    s.dispatched == Tasks(s.handed) + s.pool.queue
  }

  /** The invariant of every run. */
  ghost predicate Good(s: System) {
    Threads(s) && Workers(s) && Attended(s) && Callers(s) && NoneStranded(s) && Fifo(s)
  }

  lemma StartIsGood(limit: nat)
    ensures Good(Start(limit))
  {
  }

  lemma StepThreads(s: System, a: Action)
    requires Threads(s) && Enabled(s, a)
    ensures Threads(Do(s, a))
  {
    match a
    case Resize(n, woken) =>
      ResizedThreads(s.pool, n, woken);
      JoinThreads(s, AfterResize(s.pool, n, woken));
    case ResizeAndWait(_, n, woken) =>
      ResizedThreads(s.pool, n, woken);
      JoinThreads(s, AfterResize(s.pool, n, woken));
    case _ =>
  }

  /** Workers are added under new handles, or none. */
  ghost predicate OnlyNew(p: Pool, q: Pool) {
    q.terminated == p.terminated && q.next >= p.next &&
    forall t :: t in q.threads ==> t in p.threads || p.next <= t < q.next
  }

  lemma ResizedThreads(p: Pool, n: nat, woken: set<Tid>)
    ensures OnlyNew(p, AfterResize(p, n, woken))
  {
  }

  lemma JoinThreads(s: System, q: Pool)
    requires Threads(s) && OnlyNew(s.pool, q)
    ensures Threads(s.(pool := q)) && Threads(Join(s.(pool := q)))
  {
  }

  /** Taking a part out of a set. */
  lemma Without(a: set<Tid>, b: set<Tid>)
    requires b <= a
    ensures |a - b| == |a| - |b|
  {
    assert a == b + (a - b);
  }

  /** The unsigned arithmetic of a call is plain arithmetic, except at the largest number. */
  lemma PlainCount(p: Pool, n: nat)
    requires p.termReq <= |p.threads| < UNSIGNED_RANGE - 1 && n < UNSIGNED_RANGE
    ensures ThreadCount(p) == |p.threads| - p.termReq
    ensures OneLess(n, ThreadCount(p)) <==> n + 1 == ThreadCount(p) || (n == UNSIGNED_RANGE - 1 && ThreadCount(p) == 0)
  {
  }

  /** What a call leaves: workers at least as before, and `n` that are to stay. */
  lemma ResizeKeeps(s: System, n: nat, woken: set<Tid>)
    requires Threads(s) && Workers(s) && Attended(s) && n < UNSIGNED_RANGE - 1 && Signals(s.pool, woken)
    ensures var p := AfterResize(s.pool, n, woken);
      && Workers(s.(pool := p)) && Attended(s.(pool := p))
      && |p.threads| - p.termReq == n && p.threads >= s.pool.threads
      && p.queue == s.pool.queue && |p.threads| >= |s.pool.threads|
  {
    PlainCount(s.pool, n);
    var count := ThreadCount(s.pool);
    if n < count {
      FewerKeeps(s, n, count, woken);
    } else {
      MoreKeeps(s, n, count);
    }
  }

  lemma FewerKeeps(s: System, n: nat, count: nat, woken: set<Tid>)
    requires Workers(s) && Attended(s) && n < count == |s.pool.threads| - s.pool.termReq && Signals(s.pool, woken)
    requires OneLess(n, count) <==> n + 1 == count
    ensures var p := Resized(s.pool, n, count, woken);
            Workers(s.(pool := p)) && Attended(s.(pool := p)) && |p.threads| - p.termReq == n
  {
    var p, q := s.pool, Resized(s.pool, n, count, woken);
    Without(p.threads, p.asleep);
    if n + 1 == count {
      Without(q.threads, q.asleep);
      Without(p.asleep, woken);
    }
  }

  lemma MoreKeeps(s: System, n: nat, count: nat)
    requires Threads(s) && Workers(s) && Attended(s) && n >= count == |s.pool.threads| - s.pool.termReq
    requires n < UNSIGNED_RANGE - 1
    requires !OneLess(n, count)
    ensures var p := Resized(s.pool, n, count, {});
      && Workers(s.(pool := p)) && Attended(s.(pool := p))
      && |p.threads| - p.termReq == n && p.threads >= s.pool.threads
      && |p.threads| >= |s.pool.threads|
  {
    var p, q := s.pool, Resized(s.pool, n, count, {});
    Without(p.threads, p.asleep);
    if n - count > p.termReq {
      var made := NewThreads(p.next, n - count - p.termReq);
      assert |p.threads + made| == |p.threads| + |made|;
      Without(q.threads, q.asleep);
    }
  }

  lemma DispatchKeeps(s: System, task: Task, woken: set<Tid>)
    requires Workers(s) && Attended(s) && Signals(s.pool, woken)
    ensures Attended(s.(pool := AfterDispatch(s.pool, task, woken)))
  {
    var p := s.pool;
    var q := AfterDispatch(p, task, woken);
    Without(p.threads, p.asleep);
    Without(q.threads, q.asleep);
    Without(p.asleep, woken);
  }

  lemma WorkKeeps(s: System, w: Tid, roused: set<Caller>)
    requires Workers(s) && Attended(s) && Enabled(s, WorkerRuns(w, roused))
    ensures Workers(Work(s, w, roused)) && Attended(Work(s, w, roused))
  {
    var p := s.pool;
    var q := AfterGet(p, w);
    Without(p.threads, p.asleep);
    Without(p.threads, {w});
    Without(q.threads, q.asleep);
    Without(p.threads - p.asleep, {w});
  }

  lemma WorkFifo(s: System, w: Tid, roused: set<Caller>)
    requires Fifo(s) && Enabled(s, WorkerRuns(w, roused))
    ensures Fifo(Work(s, w, roused))
  {
    var p, q, t := s.pool, AfterGet(s.pool, w), Work(s, w, roused);
    if GetOutcome(p).Took? {
      assert Tasks(t.handed) == Tasks(s.handed) + [p.queue[0]];
      assert p.queue == [p.queue[0]] + q.queue;
      assert Tasks(s.handed) + [p.queue[0]] + q.queue == Tasks(s.handed) + p.queue;
    }
  }

  /** The signal of a worker that leaves reaches the only caller there can be. */
  lemma WorkRouses(s: System, w: Tid, roused: set<Caller>)
    requires Callers(s) && NoneStranded(s) && Enabled(s, WorkerRuns(w, roused))
    ensures Callers(Work(s, w, roused)) && NoneStranded(Work(s, w, roused))
  {
    if s.limit <= 1 && s.dozing != {} {
      var c :| c in roused;
      forall d | d in s.dozing ensures d == c {
        OneKey(s.callers, c, d);
      }
      assert s.dozing - roused == {};
    }
  }

  lemma OneKey(callers: map<Caller, nat>, c: Caller, d: Caller)
    requires c in callers && d in callers && |callers| <= 1
    ensures c == d
  {
    assert |callers.Keys| == |callers|;
    Without(callers.Keys, {c});
    assert callers.Keys - {c} == {};
  }

  lemma WakeKeeps(s: System, w: Tid)
    requires Workers(s) && Attended(s)
    ensures Workers(Do(s, WorkerWakes(w))) && Attended(Do(s, WorkerWakes(w)))
  {
    Without(s.pool.threads, s.pool.asleep);
    Without(s.pool.threads, s.pool.asleep - {w});
    Without(s.pool.asleep, s.pool.asleep * {w});
    assert s.pool.asleep - {w} == s.pool.asleep - s.pool.asleep * {w};
  }

  lemma StepCrew(s: System, a: Action)
    requires Good(s) && Enabled(s, a)
    ensures Workers(Do(s, a)) && Attended(Do(s, a))
  {
    match a
    case Dispatch(task, woken) => DispatchKeeps(s, task, woken);
    case Resize(n, woken) =>
      ResizeKeeps(s, n, woken);
      SameCrew(s, AfterResize(s.pool, n, woken), 0, n);
    case ResizeAndWait(c, n, woken) =>
      ResizeKeeps(s, n, woken);
      SameCrew(s, AfterResize(s.pool, n, woken), c, n);
    case CallerRuns(c) =>
      SameCrew(s, s.pool, c, s.callers[c]);
      SameCrew(Join(s), AfterJoin(s.pool), c, s.callers[c]);
    case WorkerRuns(w, roused) => WorkKeeps(s, w, roused);
    case WorkerWakes(w) => WakeKeeps(s, w);
    case _ =>
  }

  /** Joining and waiting do not change who works. */
  lemma SameCrew(s: System, p: Pool, c: Caller, n: nat)
    requires Workers(s.(pool := p)) && Attended(s.(pool := p))
    ensures Workers(Join(s.(pool := p))) && Attended(Join(s.(pool := p)))
    ensures Workers(Wait(s.(pool := p), c, n)) && Attended(Wait(s.(pool := p), c, n))
  {
  }

  lemma MoreThreadsStrandNone(s: System, p: Pool)
    requires Callers(s) && NoneStranded(s) && |p.threads| >= |s.pool.threads|
    ensures Callers(s.(pool := p)) && NoneStranded(s.(pool := p))
    ensures Callers(Join(s.(pool := p))) && NoneStranded(Join(s.(pool := p)))
  {
  }

  lemma OneCallerMore(callers: map<Caller, nat>, c: Caller, n: nat)
    ensures |callers[c := n]| == if c in callers then |callers| else |callers| + 1
  {
    assert callers[c := n].Keys == callers.Keys + {c};
    assert |callers[c := n].Keys| == |callers[c := n]| && |callers.Keys| == |callers|;
  }

  lemma OneCallerLess(callers: map<Caller, nat>, c: Caller)
    ensures |callers - {c}| <= |callers|
  {
    assert |(callers - {c}).Keys| == |callers - {c}| && |callers.Keys| == |callers|;
    Without(callers.Keys, callers.Keys * {c});
    assert (callers - {c}).Keys == callers.Keys - callers.Keys * {c};
  }

  lemma WaitStrandsNone(s: System, c: Caller, n: nat)
    requires Callers(s) && NoneStranded(s)
    requires if c in s.callers then s.callers[c] == n else |s.callers| < s.limit
    ensures Callers(Wait(s, c, n)) && NoneStranded(Wait(s, c, n))
  {
    OneCallerMore(s.callers, c, n);
    OneCallerLess(s.callers, c);
  }

  lemma StepCallers(s: System, a: Action)
    requires Good(s) && Enabled(s, a)
    ensures Callers(Do(s, a)) && NoneStranded(Do(s, a))
  {
    match a
    case Resize(n, woken) =>
      ResizeKeeps(s, n, woken);
      MoreThreadsStrandNone(s, AfterResize(s.pool, n, woken));
    case ResizeAndWait(c, n, woken) =>
      ResizeKeeps(s, n, woken);
      MoreThreadsStrandNone(s, AfterResize(s.pool, n, woken));
      WaitStrandsNone(s.(pool := AfterResize(s.pool, n, woken)), c, n);
    case CallerRuns(c) =>
      MoreThreadsStrandNone(s, s.pool);
      WaitStrandsNone(Join(s), c, s.callers[c]);
    case WorkerRuns(w, roused) => WorkRouses(s, w, roused);
    case _ =>
  }

  lemma StepFifo(s: System, a: Action)
    requires Fifo(s) && Enabled(s, a)
    ensures Fifo(Do(s, a))
  {
    match a
    case WorkerRuns(w, roused) => WorkFifo(s, w, roused);
    case Dispatch(task, _) =>
      assert Tasks(s.handed) + s.pool.queue + [task] == Tasks(s.handed) + (s.pool.queue + [task]);
    case _ =>
  }

  /** Every action keeps the invariant. */
  lemma StepKeeps(s: System, a: Action)
    requires Good(s) && Enabled(s, a)
    ensures Good(Do(s, a))
  {
    StepThreads(s, a);
    StepCrew(s, a);
    StepCallers(s, a);
    StepFifo(s, a);
  }

  /** Every run keeps the invariant. */
  lemma {:induction false} RunKeeps(s: System, actions: seq<Action>)
    requires Good(s)
    ensures Good(Run(s, actions))
    decreases |actions|
  {
    if actions != [] {
      if Enabled(s, actions[0]) {
        StepKeeps(s, actions[0]);
      }
      RunKeeps(Next(s, actions[0]), actions[1..]);
    }
  }

  /** The bound on exit requests breaks in one call only: counting up from no workers to the largest number. */
  lemma BoundBreaksOnlyAtWrap(s: System, n: nat, woken: set<Tid>)
    requires Threads(s) && Workers(s) && n < UNSIGNED_RANGE && Signals(s.pool, woken)
    ensures var p := AfterResize(s.pool, n, woken);
      p.termReq <= |p.threads| <==> !(n == 0xFFFF_FFFF && ThreadCount(s.pool) == 0)
  {
    PlainCount(s.pool, n);
    var p, count := s.pool, ThreadCount(s.pool);
    if n - count > p.termReq {
      var made := NewThreads(p.next, n - count - p.termReq);
      assert |p.threads + made| >= |p.threads|;
    }
  }

  /** A call that breaks it: nobody is to stay, and the largest number looks like one less. */
  lemma WrapBreaksBound()
    ensures Good(Start(0)) && Signals(Start(0).pool, {})
    ensures var p := AfterResize(Start(0).pool, 0xFFFF_FFFF, {}); p.termReq == 1 && |p.threads| == 0
  {
    StartIsGood(0);
    PlainCount(Start(0).pool, UNSIGNED_RANGE - 1);
    assert OneLess(UNSIGNED_RANGE - 1, ThreadCount(Start(0).pool));
  }

  // ---------- an undisturbed setThreadCount(n, true) ends ----------

  /** What the workers and the waiting callers do by themselves. */
  predicate IsOwnStep(a: Action) {
    a.CallerRuns? || a.WorkerRuns? || a.WorkerFinishes?
  }

  /** Nobody can go on. */
  ghost predicate AtRest(s: System) {
    && (forall c :: c in s.callers ==> c in s.dozing)
    && (forall w :: w in s.pool.threads ==> w in s.pool.asleep || w in s.busy)
    && s.busy == map[]
  }

  /** That is to say, none of those steps is possible. */
  lemma RestMeans(s: System)
    ensures AtRest(s) <==> forall a :: IsOwnStep(a) ==> !Enabled(s, a)
  {
    if !AtRest(s) {
      if s.busy != map[] {
        var w :| w in s.busy;
        assert Enabled(s, WorkerFinishes(w));
      } else if w :| w in s.pool.threads && w !in s.pool.asleep {
        assert Enabled(s, WorkerRuns(w, s.dozing));
      } else {
        var c :| c in s.callers && c !in s.dozing;
        assert Enabled(s, CallerRuns(c));
      }
    }
  }

  /** Tasks to take, workers to leave or to go to sleep. */
  function WorkLeft(s: System): nat {
    2 * |s.pool.queue| + 3 * |s.pool.threads| + |s.pool.threads - s.pool.asleep| + |s.busy|
  }

  /** Callers to look whether they can return. */
  function CallsLeft(s: System): nat {
    |s.callers.Keys - s.dozing|
  }

  lemma WorkShrinks(s: System, w: Tid, roused: set<Caller>)
    requires Workers(s) && Enabled(s, WorkerRuns(w, roused))
    ensures WorkLeft(Work(s, w, roused)) < WorkLeft(s)
  {
    var p, q, t := s.pool, AfterGet(s.pool, w), Work(s, w, roused);
    if GetOutcome(p).Took? {
      assert t.busy - {w} == s.busy;
      BusyLess(t.busy, w);
    } else {
      Without(p.threads, {w});
      Without(p.threads - p.asleep, {w});
      assert q.threads - q.asleep == p.threads - p.asleep - {w};
    }
  }

  lemma CallerShrinks(s: System, c: Caller)
    requires Enabled(s, CallerRuns(c))
    ensures var t := Wait(Join(s), c, s.callers[c]); WorkLeft(t) == WorkLeft(s) && CallsLeft(t) < CallsLeft(s)
  {
    var t := Wait(Join(s), c, s.callers[c]);
    Without(s.callers.Keys - s.dozing, {c});
    assert t.callers.Keys - t.dozing == s.callers.Keys - s.dozing - {c};
  }

  /** Runs of such steps are finite: the work left goes down, or stays while the calls left go down. */
  lemma OwnStepsEnd(s: System, a: Action)
    requires Good(s) && IsOwnStep(a) && Enabled(s, a)
    ensures WorkLeft(Do(s, a)) < WorkLeft(s) ||
      (WorkLeft(Do(s, a)) == WorkLeft(s) && CallsLeft(Do(s, a)) < CallsLeft(s))
  {
    match a
    case CallerRuns(c) => CallerShrinks(s, c);
    case WorkerFinishes(w) => BusyLess(s.busy, w);
    case WorkerRuns(w, roused) => WorkShrinks(s, w, roused);
  }

  lemma BusyLess(busy: map<Tid, Task>, w: Tid)
    requires w in busy
    ensures |busy - {w}| == |busy| - 1
  {
    assert busy.Keys == (busy - {w}).Keys + {w};
    assert |busy.Keys| == |busy| && |(busy - {w}).Keys| == |busy - {w}|;
  }

  /** The number of workers that are to stay is `n`, and no caller waits for another number. */
  ghost predicate Heading(s: System, n: nat) {
    |s.pool.threads| - s.pool.termReq == n && forall c :: c in s.callers ==> s.callers[c] == n
  }

  lemma WaitHeads(s: System, c: Caller, n: nat)
    requires Heading(s, n)
    ensures Heading(Wait(Join(s), c, n), n)
  {
  }

  lemma WorkHeads(s: System, w: Tid, roused: set<Caller>, n: nat)
    requires Heading(s, n) && Enabled(s, WorkerRuns(w, roused))
    ensures Heading(Work(s, w, roused), n)
  {
    Without(s.pool.threads, {w});
  }

  lemma HeadingStep(s: System, a: Action, n: nat)
    requires Good(s) && Heading(s, n) && IsOwnStep(a)
    ensures Good(Next(s, a)) && Heading(Next(s, a), n) && Next(s, a).limit == s.limit
  {
    if Enabled(s, a) {
      StepKeeps(s, a);
      match a
      case CallerRuns(c) => WaitHeads(s, c, n);
      case WorkerRuns(w, roused) => WorkHeads(s, w, roused, n);
      case WorkerFinishes(_) =>
    }
  }

  lemma {:induction false} LimitKept(s: System, actions: seq<Action>)
    ensures Run(s, actions).limit == s.limit
    decreases |actions|
  {
    if actions != [] {
      LimitKept(Next(s, actions[0]), actions[1..]);
    }
  }

  /**
   After `setThreadCount(n, true)`, whatever the order in which workers go on: when nobody can
   go on any more, exactly `n` workers are left and, unless `n` is 0, all tasks have been handed
   out.  The call has returned, if it was the only one that waited.
   */
  lemma {:induction false} ResizeSettles(s: System, n: nat, actions: seq<Action>)
    requires Good(s) && Heading(s, n)
    requires (forall a :: a in actions ==> IsOwnStep(a)) && AtRest(Run(s, actions))
    ensures var t := Run(s, actions);
      && |t.pool.threads| == n && t.pool.termReq == 0 && (n > 0 ==> Tasks(t.handed) == t.dispatched)
      && (s.limit <= 1 ==> t.callers == map[])
    decreases |actions|
  {
    if actions == [] {
      RestIsDone(s, n);
    } else {
      HeadingStep(s, actions[0], n);
      ResizeSettles(Next(s, actions[0]), n, actions[1..]);
    }
  }

  lemma RestIsDone(s: System, n: nat)
    requires Good(s) && Heading(s, n) && AtRest(s)
    ensures |s.pool.threads| == n && s.pool.termReq == 0 && (n > 0 ==> Tasks(s.handed) == s.dispatched)
    ensures s.limit <= 1 ==> s.callers == map[]
  {
    assert s.pool.threads - s.pool.asleep == {};
    if s.pool.threads == {} {
      assert |s.pool.threads| == 0;
    }
    if s.limit <= 1 {
      NobodyDozes(s, n);
    }
  }

  lemma NobodyDozes(s: System, n: nat)
    requires !Stranded(s) && |s.pool.threads| == n && forall c :: c in s.callers ==> s.callers[c] == n
    ensures s.dozing !! s.callers.Keys
  {
  }

  /** `setThreadCount(n, true)` sets out for `n` workers, if no other call waits. */
  lemma ResizeHeads(s: System, c: Caller, n: nat, woken: set<Tid>)
    requires Good(s) && s.callers == map[] && Enabled(s, ResizeAndWait(c, n, woken))
    ensures Good(Do(s, ResizeAndWait(c, n, woken))) && Heading(Do(s, ResizeAndWait(c, n, woken)), n)
  {
    StepKeeps(s, ResizeAndWait(c, n, woken));
    ResizeKeeps(s, n, woken);
  }

  // ---------- more than one caller ----------

  /** Some run ends with a caller that sleeps for ever: nobody can go on, and its workers have left. */
  ghost predicate CanStrand(s: System) {
    exists actions :: AtRest(Run(s, actions)) && Stranded(Run(s, actions))
  }

  lemma RunFirst(s: System, a: Action, rest: seq<Action>)
    requires Enabled(s, a)
    ensures Run(s, [a] + rest) == Run(Do(s, a), rest)
  {
    assert ([a] + rest)[1..] == rest;
  }

  /** A stage of the run below: workers 0 and 1, and no task. */
  function Scene(limit: nat, threads: set<Tid>, left: set<Tid>, termReq: nat, asleep: set<Tid>,
                 callers: map<Caller, nat>, dozing: set<Caller>, joined: multiset<Tid>): System
  {
    System(Pool([], threads, left, termReq, asleep, 2), map[], callers, dozing, limit, [], [], joined)
  }

  function TwoWorkers(limit: nat): System {
    Scene(limit, {0, 1}, {}, 0, {}, map[], {}, multiset{})
  }

  function OneWaits(limit: nat): System {
    Scene(limit, {0, 1}, {}, 1, {}, map[0 := 1], {0}, multiset{})
  }

  function BothWait(limit: nat): System {
    Scene(limit, {0, 1}, {}, 1, {}, map[0 := 1, 1 := 1], {0, 1}, multiset{})
  }

  function OneLeft(limit: nat): System {
    Scene(limit, {1}, {0}, 0, {}, map[0 := 1, 1 := 1], {1}, multiset{})
  }

  function OneReturned(limit: nat): System {
    Scene(limit, {1}, {}, 0, {}, map[1 := 1], {1}, multiset{0})
  }

  function OneStranded(limit: nat): System {
    Scene(limit, {1}, {}, 0, {1}, map[1 := 1], {1}, multiset{0})
  }

  lemma MakeTwo(limit: nat)
    ensures Enabled(Start(limit), Resize(2, {})) && Do(Start(limit), Resize(2, {})) == TwoWorkers(limit)
  {
    PlainCount(Start(limit).pool, 2);
    assert NewThreads(0, 1) == {0} && NewThreads(0, 2) == {0, 1};
  }

  lemma FirstWaits(limit: nat)
    requires limit >= 1
    ensures Enabled(TwoWorkers(limit), ResizeAndWait(0, 1, {}))
    ensures Do(TwoWorkers(limit), ResizeAndWait(0, 1, {})) == OneWaits(limit)
  {
    var p := TwoWorkers(limit).pool;
    assert |p.threads| == 2;
    PlainCount(p, 1);
    assert AfterResize(p, 1, {}) == p.(termReq := 1);
  }

  lemma SecondWaits(limit: nat)
    requires limit >= 2
    ensures Enabled(OneWaits(limit), ResizeAndWait(1, 1, {}))
    ensures Do(OneWaits(limit), ResizeAndWait(1, 1, {})) == BothWait(limit)
  {
    var p := OneWaits(limit).pool;
    assert |p.threads| == 2;
    PlainCount(p, 1);
    OneCallerMore(map[], 0, 1);
    assert AfterResize(p, 1, {}) == p;
  }

  lemma OneLeaves(limit: nat)
    ensures Enabled(BothWait(limit), WorkerRuns(0, {0})) && Do(BothWait(limit), WorkerRuns(0, {0})) == OneLeft(limit)
  {
    assert {0, 1} - {0} == {1};
  }

  lemma FirstReturns(limit: nat)
    ensures Enabled(OneLeft(limit), CallerRuns(0)) && Do(OneLeft(limit), CallerRuns(0)) == OneReturned(limit)
  {
    assert map[0 := 1, 1 := 1] - {0} == map[1 := 1];
    assert multiset({0}) == multiset{0} && multiset{0} + multiset({}) == multiset{0};
    assert |{1}| == 1;
  }

  lemma OtherSleeps(limit: nat)
    ensures Enabled(OneReturned(limit), WorkerRuns(1, {1}))
    ensures Do(OneReturned(limit), WorkerRuns(1, {1})) == OneStranded(limit)
  {
  }

  /** Two workers; two callers both wait until one is left. */
  lemma TwoCallersWait(limit: nat, rest: seq<Action>) returns (actions: seq<Action>)
    requires limit >= 2
    ensures Run(Start(limit), actions) == Run(BothWait(limit), rest)
  {
    MakeTwo(limit);
    FirstWaits(limit);
    SecondWaits(limit);
    var third := [ResizeAndWait(1, 1, {})] + rest;
    var second := [ResizeAndWait(0, 1, {})] + third;
    RunFirst(OneWaits(limit), ResizeAndWait(1, 1, {}), rest);
    RunFirst(TwoWorkers(limit), ResizeAndWait(0, 1, {}), third);
    RunFirst(Start(limit), Resize(2, {}), second);
    actions := [Resize(2, {})] + second;
  }

  /** One worker leaves and wakes one caller, which returns; the other worker goes to sleep. */
  lemma OneIsRoused(limit: nat) returns (actions: seq<Action>)
    ensures Run(BothWait(limit), actions) == OneStranded(limit)
  {
    OneLeaves(limit);
    FirstReturns(limit);
    OtherSleeps(limit);
    var third := [WorkerRuns(1, {1})] + [];
    var second := [CallerRuns(0)] + third;
    RunFirst(OneReturned(limit), WorkerRuns(1, {1}), []);
    RunFirst(OneLeft(limit), CallerRuns(0), third);
    RunFirst(BothWait(limit), WorkerRuns(0, {0}), second);
    actions := [WorkerRuns(0, {0})] + second;
  }

  /** With two callers, one can be left behind. */
  lemma TwoCallersStrand(limit: nat)
    requires limit >= 2
    ensures CanStrand(Start(limit))
  {
    var rest := OneIsRoused(limit);
    var actions := TwoCallersWait(limit, rest);
    var end := OneStranded(limit);
    assert |end.pool.threads| == 1 && 1 in end.dozing && end.callers[1] == 1;
    assert Run(Start(limit), actions) == end && AtRest(end) && Stranded(end);
  }

  /** A caller can be left behind just when more than one may wait at a time. */
  lemma StrandsOnlyWithMore(limit: nat)
    ensures CanStrand(Start(limit)) <==> limit >= 2
  {
    if limit >= 2 {
      TwoCallersStrand(limit);
    } else {
      StartIsGood(limit);
      forall actions ensures !Stranded(Run(Start(limit), actions)) {
        RunKeeps(Start(limit), actions);
        LimitKept(Start(limit), actions);
      }
    }
  }

  // ---------- the assertion at the end of setThreadCount ----------

  /** The workers that are to stay. */
  function ToStay(s: System): int {
    |s.pool.threads| - s.pool.termReq
  }

  predicate IsResize(a: Action) {
    a.Resize? || a.ResizeAndWait?
  }

  /** The number asked for by an action, or else by the resize before it. */
  function Asked(a: Action, before: int): int {
    if IsResize(a) then a.n else before
  }

  /** The number asked for by the last resize of a run, or else before it. */
  function LastAsked(s: System, actions: seq<Action>, before: int): int
    decreases |actions|
  {
    if actions == [] then before
    else
      var now := if Enabled(s, actions[0]) then Asked(actions[0], before) else before;
      LastAsked(Next(s, actions[0]), actions[1..], now)
  }

  lemma CountStays(s: System)
    requires Workers(s)
    ensures ThreadCount(s.pool) == ToStay(s)
  {
    PlainCount(s.pool, 0);
  }

  lemma WaitStays(s: System, c: Caller, n: nat)
    ensures ToStay(Join(s)) == ToStay(s) && ToStay(Wait(s, c, n)) == ToStay(s)
  {
  }

  lemma WorkStays(s: System, w: Tid, roused: set<Caller>)
    requires Enabled(s, WorkerRuns(w, roused))
    ensures ToStay(Work(s, w, roused)) == ToStay(s)
  {
    Without(s.pool.threads, {w});
  }

  /** A resize leaves the number it asked for, and nothing else changes that. */
  lemma StepStays(s: System, a: Action)
    requires Good(s) && Enabled(s, a)
    ensures ToStay(Do(s, a)) == Asked(a, ToStay(s))
  {
    match a
    case Resize(n, woken) =>
      ResizeKeeps(s, n, woken);
      WaitStays(s.(pool := AfterResize(s.pool, n, woken)), 0, n);
    case ResizeAndWait(c, n, woken) =>
      ResizeKeeps(s, n, woken);
      WaitStays(s.(pool := AfterResize(s.pool, n, woken)), c, n);
    case CallerRuns(c) =>
      WaitStays(s, c, 0);
      WaitStays(Join(s), c, s.callers[c]);
    case WorkerRuns(w, roused) => WorkStays(s, w, roused);
    case Dispatch(task, woken) =>
    case CallerWakes(_) =>
    case WorkerFinishes(_) =>
    case WorkerWakes(_) =>
  }

  lemma {:induction false} RunStays(s: System, actions: seq<Action>)
    requires Good(s)
    ensures ToStay(Run(s, actions)) == LastAsked(s, actions, ToStay(s)) && Good(Run(s, actions))
    decreases |actions|
  {
    if actions != [] {
      if Enabled(s, actions[0]) {
        StepKeeps(s, actions[0]);
        StepStays(s, actions[0]);
      }
      RunStays(Next(s, actions[0]), actions[1..]);
    }
  }

  lemma {:induction false} NoneAsked(s: System, actions: seq<Action>, before: int)
    requires forall a :: a in actions ==> !IsResize(a)
    ensures LastAsked(s, actions, before) == before
    decreases |actions|
  {
    if actions != [] {
      assert actions[0] in actions;
      NoneAsked(Next(s, actions[0]), actions[1..], before);
    }
  }

  /** A waiting call finds few enough workers, and returns. */
  predicate Returns(s: System, c: Caller) {
    Enabled(s, CallerRuns(c)) && c !in Do(s, CallerRuns(c)).callers
  }

  /** The number of workers that are to stay when a call returns is the one it asked for. */
  predicate AssertionHolds(s: System, c: Caller)
    requires Returns(s, c)
  {
    ThreadCount(Do(s, CallerRuns(c)).pool) == s.callers[c]
  }

  lemma AssertionMeans(s: System, c: Caller)
    requires Good(s) && Returns(s, c)
    ensures AssertionHolds(s, c) <==> ToStay(s) == s.callers[c]
  {
    StepKeeps(s, CallerRuns(c));
    StepStays(s, CallerRuns(c));
    CountStays(Do(s, CallerRuns(c)));
  }

  lemma ReturnsAfter(s: System, c: Caller, n: nat, actions: seq<Action>)
    requires Good(s) && ToStay(s) == n && Returns(Run(s, actions), c) && Run(s, actions).callers[c] == n
    ensures AssertionHolds(Run(s, actions), c) <==> LastAsked(s, actions, n) == n
    ensures (forall a :: a in actions ==> !IsResize(a)) ==> AssertionHolds(Run(s, actions), c)
  {
    RunStays(s, actions);
    AssertionMeans(Run(s, actions), c);
    if forall a :: a in actions ==> !IsResize(a) {
      NoneAsked(s, actions, n);
    }
  }

  /**
   When a waiting call returns, the assertion holds just when the last resize asked for the
   number of that call; so it does when no other resize came in between.
   */
  lemma ReturnsWithOwn(s: System, c: Caller, n: nat, woken: set<Tid>, actions: seq<Action>)
    requires Good(s) && Enabled(s, ResizeAndWait(c, n, woken))
    requires var t := Run(Do(s, ResizeAndWait(c, n, woken)), actions); Returns(t, c) && t.callers[c] == n
    ensures var called := Do(s, ResizeAndWait(c, n, woken));
      && (AssertionHolds(Run(called, actions), c) <==> LastAsked(called, actions, n) == n)
      && ((forall a :: a in actions ==> !IsResize(a)) ==> AssertionHolds(Run(called, actions), c))
  {
    StepKeeps(s, ResizeAndWait(c, n, woken));
    StepStays(s, ResizeAndWait(c, n, woken));
    ReturnsAfter(Do(s, ResizeAndWait(c, n, woken)), c, n, actions);
  }

  function NoneToStay(limit: nat): System {
    Scene(limit, {0, 1}, {}, 2, {}, map[0 := 1], {0}, multiset{})
  }

  function OneToLeave(limit: nat): System {
    Scene(limit, {1}, {0}, 1, {}, map[0 := 1], {}, multiset{})
  }

  lemma AskedForNone(limit: nat)
    ensures Enabled(OneWaits(limit), Resize(0, {})) && Do(OneWaits(limit), Resize(0, {})) == NoneToStay(limit)
  {
    var p := OneWaits(limit).pool;
    assert |p.threads| == 2;
    PlainCount(p, 0);
    assert AfterResize(p, 0, {}) == p.(termReq := 2);
  }

  lemma FirstLeaves(limit: nat)
    ensures Enabled(NoneToStay(limit), WorkerRuns(0, {0}))
    ensures Do(NoneToStay(limit), WorkerRuns(0, {0})) == OneToLeave(limit)
  {
    assert {0, 1} - {0} == {1};
  }

  lemma ReturnsWithNone(limit: nat)
    ensures Returns(OneToLeave(limit), 0) && !AssertionHolds(OneToLeave(limit), 0)
  {
    assert |{1}| == 1;
  }

  /** A run that breaks it: a call waits for one worker, another one asks for none. */
  lemma OtherResizeBreaks() returns (actions: seq<Action>)
    ensures var t := Run(Start(1), actions); Returns(t, 0) && !AssertionHolds(t, 0)
  {
    MakeTwo(1);
    FirstWaits(1);
    AskedForNone(1);
    FirstLeaves(1);
    ReturnsWithNone(1);
    var fourth := [WorkerRuns(0, {0})] + [];
    var third := [Resize(0, {})] + fourth;
    var second := [ResizeAndWait(0, 1, {})] + third;
    RunFirst(NoneToStay(1), WorkerRuns(0, {0}), []);
    RunFirst(OneWaits(1), Resize(0, {}), fourth);
    RunFirst(TwoWorkers(1), ResizeAndWait(0, 1, {}), third);
    RunFirst(Start(1), Resize(2, {}), second);
    actions := [Resize(2, {})] + second;
  }
}
