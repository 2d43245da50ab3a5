/** A session of the engine: any sequence of learning actions, staleness
    checks, resets and relaunches, each on its own day.  The invariant
    holds after every one of them. */
module Session {
  import opened Calendar
  import opened StreakState
  import opened StreakEngine
  import opened EngineLemmas

  /** One thing that can happen to the engine.  A relaunch discards the
      in-memory state and starts again from the saved entries. */
  datatype Op = Learn(day: Day) | Check(day: Day) | Reset(day: Day) | Relaunch(day: Day)

  /** Performs one operation; the running invariant is kept. */
  function Apply(s: State, st: Store, op: Op): (r: Step)
    requires Inv(s, st)
    ensures Inv(r.state, r.store)
    ensures !op.Reset? ==> r.state.longestStreak >= s.longestStreak
    ensures op.Reset? ==> r.state.longestStreak == 0
  {
    match op
    case Learn(d) => RecordLearning(s, st, d)
    case Check(d) => CheckStreakStatus(s, st, d)
    case Reset(d) => ResetStreak(s, st, d)
    case Relaunch(d) => Start(st, d)
  }

  /** Performs the operations in order, collecting the notifications. */
  function Run(s: State, st: Store, ops: seq<Op>): (r: Step)
    requires Inv(s, st)
    ensures Inv(r.state, r.store)
    decreases |ops|
  {
    if ops == [] then Step(s, st, [])
    else
      var p := Run(s, st, ops[..|ops| - 1]);
      var q := Apply(p.state, p.store, ops[|ops| - 1]);
      Step(q.state, q.store, p.events + q.events)
  }

  /** Without a reset the best streak never goes down, however learning
      actions, checks and relaunches interleave. */
  lemma {:induction false} BestStreakNeverDecreases(s: State, st: Store, ops: seq<Op>)
    requires Inv(s, st)
    requires forall i :: 0 <= i < |ops| ==> !ops[i].Reset?
    ensures Run(s, st, ops).state.longestStreak >= s.longestStreak
    decreases |ops|
  {
    if ops != [] {
      BestStreakNeverDecreases(s, st, ops[..|ops| - 1]);
      assert !ops[|ops| - 1].Reset?;
    }
  }

  /** An engine started on an empty store keeps the invariant through any
      session. */
  lemma FromEmptyStore(today: Day, ops: seq<Op>)
    ensures Inv(Start(EmptyStore, today).state, Start(EmptyStore, today).store)
    ensures var started := Start(EmptyStore, today);
            Run(started.state, started.store, ops).state.longestStreak
              >= Run(started.state, started.store, ops).state.currentStreak >= 0
  {
    StartEstablishesInv(EmptyStore, today);
  }
}
