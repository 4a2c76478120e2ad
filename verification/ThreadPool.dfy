/**
 The thread pool.  Each method is one critical section of the pool's lock.  A signal wakes
 some non-empty part of the sleeping workers, chosen by the scheduler (`woken`).
 */
module ThreadPools {
  type Task = nat
  type Tid = nat

  const UNSIGNED_RANGE := 0x1_0000_0000

  datatype Outcome = Took(task: Task) | Exits | Sleeps

  /** Shared state; `asleep` are the workers in their wait with no signal pending. */
  datatype Pool = Pool(queue: seq<Task>, threads: set<Tid>, terminated: set<Tid>, termReq: nat, asleep: set<Tid>,
    next: Tid)

  /** The number of workers that are to stay, in unsigned arithmetic. */
  function ThreadCount(p: Pool): nat {
    (|p.threads| - p.termReq) % UNSIGNED_RANGE
  }

  /** A signal wakes at least one sleeper, if there is any. */
  predicate Signals(p: Pool, woken: set<Tid>) {
    woken <= p.asleep && (p.asleep != {} ==> woken != {})
  }

  function AfterDispatch(p: Pool, task: Task, woken: set<Tid>): Pool {
    p.(queue := p.queue + [task], asleep := p.asleep - woken)
  }

  /** `n` new thread handles. */
  function NewThreads(next: Tid, n: nat): (made: set<Tid>)
    ensures |made| == n && forall t: Tid :: t in made <==> next <= t < next + n
  {
    if n == 0 then {} else NewThreads(next, n - 1) + {next + n - 1}
  }

  /** `n` is one less than `count`, in unsigned arithmetic. */
  predicate OneLess(n: nat, count: nat) {
    n == (count - 1) % UNSIGNED_RANGE
  }

  function AfterResize(p: Pool, n: nat, woken: set<Tid>): Pool {
    Resized(p, n, ThreadCount(p), woken)
  }

  function Resized(p: Pool, n: nat, count: nat, woken: set<Tid>): Pool {
    if OneLess(n, count) then p.(termReq := p.termReq + 1, asleep := p.asleep - woken)
    else if n < count then p.(termReq := p.termReq + (count - n), asleep := {})
    else if n - count <= p.termReq then p.(termReq := p.termReq - (n - count))
    else
      var add := n - count - p.termReq;
      p.(termReq := 0, threads := p.threads + NewThreads(p.next, add), next := p.next + add)
  }

  /** What the worker `self` finds, and what it leaves. */
  function GetOutcome(p: Pool): Outcome {
    if p.termReq > 0 then Exits else if p.queue == [] then Sleeps else Took(p.queue[0])
  }

  function AfterGet(p: Pool, self: Tid): Pool {
    match GetOutcome(p)
    case Exits => p.(threads := p.threads - {self}, terminated := p.terminated + {self}, termReq := p.termReq - 1)
    case Sleeps => p.(asleep := p.asleep + {self})
    case Took(_) => p.(queue := p.queue[1..])
  }

  function AfterJoin(p: Pool): Pool {
    p.(terminated := {})
  }

  class ThreadPool {
    var queue: seq<Task>
    var threads: set<Tid>
    var terminated: set<Tid>
    var termReq: nat
    var asleep: set<Tid>
    var next: Tid

    function Value(): Pool
      reads this
    {
      Pool(queue, threads, terminated, termReq, asleep, next)
    }

    constructor ()
      ensures Value() == Pool([], {}, {}, 0, {}, 0)
    {
      queue, threads, terminated, termReq, asleep, next := [], {}, {}, 0, {}, 0;
    }

    /** Joins the threads that have left. */
    method JoinTerminated() returns (joined: set<Tid>)
      modifies this
      ensures Value() == AfterJoin(old(Value())) && joined == old(terminated)
    {
      joined := terminated;
      terminated := {};
    }

    method Dispatch(task: Task, woken: set<Tid>) returns (joined: set<Tid>)
      requires Signals(Value(), woken)
      modifies this
      ensures Value() == AfterJoin(AfterDispatch(old(Value()), task, woken)) && joined == old(terminated)
    {
      queue := queue + [task];
      asleep := asleep - woken;
      joined := JoinTerminated();
    }

    /** The first part of `setThreadCount`. */
    method Resize(n: nat, woken: set<Tid>)
      requires Signals(Value(), woken)
      modifies this
      ensures Value() == AfterResize(old(Value()), n, woken)
    {
      var count := ThreadCount(Value());
      if OneLess(n, count) {
        termReq := termReq + 1;
        asleep := asleep - woken;
      } else if n < count {
        termReq := termReq + (count - n);
        asleep := {};
      } else {
        Grow(n, count);
      }
    }

    /** More workers: exits asked for are taken back, then workers are created. */
    method Grow(n: nat, count: nat)
      requires n >= count && !OneLess(n, count)
      modifies this
      ensures Value() == Resized(old(Value()), n, count, {})
    {
      var add := n - count;
      if add <= termReq {
        termReq := termReq - add;
      } else {
        add := add - termReq;
        termReq := 0;
        CreateThreads(add);
      }
    }

    /** The loop that creates workers. */
    method CreateThreads(add: nat)
      modifies this`threads, this`next
      ensures threads == old(threads) + NewThreads(old(next), add) && next == old(next) + add
    {
      for i := 0 to add
        invariant threads == old(threads) + NewThreads(old(next), i) && next == old(next) + i
      {
        threads := threads + {next};
        next := next + 1;
      }
    }

    /** A worker that has the lock and is awake asks for work. */
    method GetNextTask(self: Tid) returns (outcome: Outcome)
      requires self in threads && self !in asleep
      modifies this
      ensures Value() == AfterGet(old(Value()), self) && outcome == GetOutcome(old(Value()))
    {
      if termReq > 0 {
        terminated := terminated + {self};
        threads := threads - {self};
        termReq := termReq - 1;
        return Exits;
      }
      if queue == [] {
        asleep := asleep + {self};
        return Sleeps;
      }
      outcome := Took(queue[0]);
      queue := queue[1..];
    }
  }
}
