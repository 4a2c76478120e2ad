/**
 A task others can wait for.  Each method is one critical section of the task's lock; a waiter
 sleeps with the set of states it waits for.
 */
module WaitableTasks {
  datatype State = Idle | Running | Done

  /** How long a waiter is ready to wait. */
  datatype Patience = NotAtAll | Forever | Until(passed: bool)

  datatype Outcome = Returns(result: bool) | Sleeps

  type Waiter = nat

  /** The shared state; `asleep` are the waiters in their wait with no broadcast since. */
  datatype Shared = Shared(state: State, asleep: map<Waiter, set<State>>)

  /** The state changes, and every sleeper wakes up. */
  function Changed(s: Shared, state: State): Shared {
    Shared(state, map[])
  }

  function WaitOutcome(state: State, mask: set<State>, patience: Patience): (o: Outcome)
    ensures o.Returns? ==> (o.result <==> state in mask)
    ensures o.Sleeps? <==> state !in mask && (patience.Forever? || (patience.Until? && !patience.passed))
  {
    if state in mask then Returns(true)
    else if patience == NotAtAll || patience == Until(true) then Returns(false)
    else Sleeps
  }

  function AfterWait(s: Shared, w: Waiter, mask: set<State>, patience: Patience): Shared {
    if WaitOutcome(s.state, mask, patience).Sleeps? then s.(asleep := s.asleep[w := mask]) else s
  }

  class WaitableTask {
    var state: State
    var asleep: map<Waiter, set<State>>

    function Value(): Shared
      reads this
    {
      Shared(state, asleep)
    }

    constructor ()
      ensures Value() == Shared(Idle, map[])
    {
      state, asleep := Idle, map[];
    }

    /** The section before the task runs. */
    method Begin()
      modifies this
      ensures Value() == Changed(old(Value()), Running)
    {
      state := Running;
      asleep := map[];
    }

    /** The section after the task has run. */
    method Finish()
      modifies this
      ensures Value() == Changed(old(Value()), Done)
    {
      state := Done;
      asleep := map[];
    }

    /** One section of `wait`: from its start, or from waking up. */
    method Wait(w: Waiter, mask: set<State>, patience: Patience) returns (outcome: Outcome)
      modifies this
      ensures Value() == AfterWait(old(Value()), w, mask, patience)
      ensures outcome == WaitOutcome(old(state), mask, patience)
    {
      match patience {
        case NotAtAll => outcome := Returns(state in mask);
        case Forever => outcome := if state in mask then Returns(true) else Sleeps;
        case Until(passed) => outcome := if state !in mask && !passed then Sleeps else Returns(state in mask);
      }
      if outcome == Sleeps {
        asleep := asleep[w := mask];
      }
    }
  }
}
