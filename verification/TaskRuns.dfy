/** Every interleaving of a thread that runs a task, any number of times, with threads that wait for it. */
module TaskRuns {
  import opened WaitableTasks

  /** A call of `wait` in progress. */
  datatype Call = Call(mask: set<State>, timed: bool)

  /** `answers` are the results of the calls that have returned, the last one of each waiter. */
  datatype System = System(shared: Shared, calls: map<Waiter, Call>, answers: map<Waiter, bool>)

  datatype Action =
    | Begin
    | Finish
    | Poll(waiter: Waiter, mask: set<State>)
    | Enter(waiter: Waiter, mask: set<State>, timed: bool)
    | Proceed(waiter: Waiter)
    | TimesOut(waiter: Waiter)
    | Wake(waiter: Waiter)

  const START := System(Shared(Idle, map[]), map[], map[])

  /** A task that runs is finished before it is begun again; a thread makes one call at a time. */
  predicate Enabled(s: System, a: Action) {
    match a
    case Begin => !s.shared.state.Running?
    case Finish => s.shared.state.Running?
    case Poll(w, _) => w !in s.calls
    case Enter(w, _, _) => w !in s.calls
    case Proceed(w) => w in s.calls && w !in s.shared.asleep
    case TimesOut(w) => w in s.calls && s.calls[w].timed
    case Wake(w) => true
  }

  function Answered(s: System, w: Waiter, answer: bool): System {
    s.(calls := s.calls - {w}, answers := s.answers[w := answer], shared := Awake(s.shared, w))
  }

  function Awake(shared: Shared, w: Waiter): Shared {
    shared.(asleep := shared.asleep - {w})
  }

  /** One section of a call. */
  function Section(s: System, w: Waiter, mask: set<State>, patience: Patience): System {
    match WaitOutcome(s.shared.state, mask, patience)
    case Returns(result) => Answered(s, w, result)
    case Sleeps => s.(shared := AfterWait(s.shared, w, mask, patience))
  }

  function Do(s: System, a: Action): System
    requires Enabled(s, a)
  {
    match a
    case Begin => s.(shared := Changed(s.shared, Running))
    case Finish => s.(shared := Changed(s.shared, Done))
    case Poll(w, mask) => Section(s, w, mask, NotAtAll)
    case Enter(w, mask, timed) => s.(calls := s.calls[w := Call(mask, timed)])
    case Proceed(w) => Section(s, w, s.calls[w].mask, if s.calls[w].timed then Until(false) else Forever)
    case TimesOut(w) => Section(s, w, s.calls[w].mask, Until(true))
    case Wake(w) => s.(shared := Awake(s.shared, w))
  }

  /** An action that is not enabled is passed over. */
  function Next(s: System, a: Action): System {
    if Enabled(s, a) then Do(s, a) else s
  }

  function Run(s: System, actions: seq<Action>): System
    decreases |actions|
  {
    if actions == [] then s else Run(Next(s, actions[0]), actions[1..])
  }

  /** The task runs from each beginning to the end that follows; nothing else changes its state. */
  lemma StateChanges(s: System, a: Action)
    requires Enabled(s, a)
    ensures Do(s, a).shared.state == if a.Begin? then Running else if a.Finish? then Done else s.shared.state
    ensures a.Begin? || a.Finish? ==> Do(s, a).shared.asleep == map[]
  {
  }

  /** A call ends with the answer whether the state is one waited for, or it sleeps for good reason. */
  lemma SectionAnswers(s: System, w: Waiter)
    requires Enabled(s, Proceed(w))
    ensures var t, there := Do(s, Proceed(w)), s.shared.state in s.calls[w].mask;
      && (there ==> w !in t.calls && t.answers == s.answers[w := true])
      && (!there ==> w in t.calls && w in t.shared.asleep && t.answers == s.answers)
    ensures s.calls[w].timed ==>
      var t := Do(s, TimesOut(w));
      w !in t.calls && t.answers == s.answers[w := s.shared.state in s.calls[w].mask]
  {
  }

  // ---------- no wakeup is lost ----------

  /** A sleeper is in a call that waits for other states than the present one. */
  ghost predicate Good(s: System) {
    forall w :: w in s.shared.asleep ==>
      w in s.calls && s.shared.asleep[w] == s.calls[w].mask && s.shared.state !in s.calls[w].mask
  }

  lemma StepKeeps(s: System, a: Action)
    requires Good(s)
    ensures Good(Next(s, a))
  {
  }

  /** In every run, nobody sleeps who waits for the present state. */
  lemma {:induction false} RunKeeps(s: System, actions: seq<Action>)
    requires Good(s)
    ensures Good(Run(s, actions))
    decreases |actions|
  {
    if actions != [] {
      StepKeeps(s, actions[0]);
      RunKeeps(Next(s, actions[0]), actions[1..]);
    }
  }

  /** A task that is done stays done until it is begun again. */
  lemma {:induction false} DoneStays(s: System, actions: seq<Action>)
    requires s.shared.state == Done && Begin !in actions
    ensures Run(s, actions).shared.state == Done
    decreases |actions|
  {
    if actions != [] {
      assert actions[0] in actions;
      DoneStays(Next(s, actions[0]), actions[1..]);
    }
  }

  /**
   Once the task is done and is not begun again, whatever else happens: a call that waits for
   that is not asleep, and its next section, even one that comes too late, returns true.
   */
  lemma DoneReleases(s: System, actions: seq<Action>, w: Waiter)
    requires Good(s) && s.shared.state == Done && Begin !in actions
    requires var t := Run(s, actions); w in t.calls && Done in t.calls[w].mask
    ensures var t := Run(s, actions);
      && w !in t.shared.asleep && Enabled(t, Proceed(w))
      && w !in Do(t, Proceed(w)).calls && Do(t, Proceed(w)).answers[w]
      && (Enabled(t, TimesOut(w)) ==> Do(t, TimesOut(w)).answers[w])
  {
    RunKeeps(s, actions);
    DoneStays(s, actions);
  }

  /** Nobody can go on by himself. */
  ghost predicate AtRest(s: System) {
    forall w :: !Enabled(s, Proceed(w))
  }

  /** A done task whose waiters cannot go on has no waiter left that waits for that. */
  lemma NobodyStranded(actions: seq<Action>)
    requires Run(START, actions).shared.state == Done && AtRest(Run(START, actions))
    ensures forall w :: w in Run(START, actions).calls ==> Done !in Run(START, actions).calls[w].mask
  {
    RunKeeps(START, actions);
    var t := Run(START, actions);
    forall w | w in t.calls ensures Done !in t.calls[w].mask {
      assert !Enabled(t, Proceed(w));
    }
  }
}
