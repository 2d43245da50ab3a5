/** Properties of the individual transitions: the state invariant, the
    saved copy, idempotence, agreement between the two liveness rules, and
    the concrete situations the engine is meant to handle. */
module EngineLemmas {
  import opened Wrappers
  import opened Calendar
  import opened StreakState
  import opened Status
  import opened StreakEngine

  /** The invariant of a running engine: a valid state whose streak fields
      are saved as they are, with a non-negative saved counter. */
  predicate Inv(s: State, st: Store) {
    Valid(s) && Mirrors(s, st) && st.signsToday >= 0
  }

  lemma RecordLearningPreservesInv(s: State, st: Store, today: Day)
    requires Inv(s, st)
    ensures Inv(RecordLearning(s, st, today).state, RecordLearning(s, st, today).store)
  {
  }

  lemma CheckStreakStatusPreservesInv(s: State, st: Store, today: Day)
    requires Inv(s, st)
    ensures Inv(CheckStreakStatus(s, st, today).state, CheckStreakStatus(s, st, today).store)
    ensures CheckStreakStatus(s, st, today).state.longestStreak == s.longestStreak
  {
  }

  lemma ResetStreakEstablishesInv(s: State, st: Store, today: Day)
    ensures Inv(ResetStreak(s, st, today).state, ResetStreak(s, st, today).store)
  {
  }

  /** Loading a sound saved copy gives a valid state mirrored by the store. */
  lemma LoadStreakEstablishesInv(s: State, st: Store, today: Day)
    requires StoreValid(st) && s.signsToday >= 0
    ensures Inv(LoadStreak(s, st, today).state, LoadStreak(s, st, today).store)
  {
  }

  /** Starting from a sound saved copy gives the running invariant. */
  lemma StartEstablishesInv(st: Store, today: Day)
    requires StoreValid(st)
    ensures Inv(Start(st, today).state, Start(st, today).store)
  {
    LoadStreakEstablishesInv(Fresh, st, today);
  }

  /** A second staleness check changes nothing. */
  lemma CheckStreakStatusIdempotent(s: State, st: Store, today: Day)
    ensures var once := CheckStreakStatus(s, st, today);
            CheckStreakStatus(once.state, once.store, today) == once
  {
  }

  /** For a last learning day that is not in the future, the staleness
      reset fires exactly when the status table would call the streak
      lapsed: the two day-difference rules agree. */
  lemma StaleIffLapsed(s: State, today: Day)
    requires s.lastLearned.Some? && s.lastLearned.value <= today
    ensures Stale(s, today) <==> s.currentStreak > 0 && !IsStreakActive(s.lastLearned, today)
  {
  }

  /** After the staleness check the status table never shows the lapsed
      row for a last day that is not in the future. */
  lemma CheckedStreakNeverLapsed(s: State, st: Store, today: Day)
    requires Valid(s)
    requires s.lastLearned.Some? ==> s.lastLearned.value <= today
    ensures UpdateStreakMessage(CheckStreakStatus(s, st, today).state, today).mood != Lapsed
  {
  }

  /** A last learning day in the future (the clock moved back) is neither
      stale nor live: the check keeps the streak, the table calls it
      lapsed, and the next learning action restarts it at one. */
  lemma FutureLastDayRestarts(s: State, st: Store, today: Day)
    requires s.lastLearned.Some? && s.lastLearned.value > today && s.currentStreak > 0
    ensures CheckStreakStatus(s, st, today).state == s
    ensures StatusFor(s.currentStreak, IsStreakActive(s.lastLearned, today)) == Lapsed
    ensures RecordLearning(s, st, today).state.currentStreak == 1
    ensures RecordLearning(s, st, today).events[0] == Event(StreakBroken, s.currentStreak)
  {
  }

  /** Learning twice on one day leaves the streak alone and counts two. */
  lemma SameDayTwice(s: State, st: Store, today: Day)
    requires s.lastLearned == Some(today)
    ensures var one := RecordLearning(s, st, today);
            var two := RecordLearning(one.state, one.store, today);
            && two.state.currentStreak == s.currentStreak
            && two.state.longestStreak == s.longestStreak
            && two.state.signsToday == s.signsToday + 2
            && one.events == [] && two.events == []
  {
  }

  /** Reset and then load: no streak, no best, no last day. */
  lemma LoadAfterReset(s: State, st: Store, today: Day, later: Day)
    ensures var reset := ResetStreak(s, st, today);
            var loaded := LoadStreak(Fresh, reset.store, later);
            && loaded.state.currentStreak == 0
            && loaded.state.longestStreak == 0
            && loaded.state.lastLearned == None
  {
  }

  /** A five-day streak with a gap of three days, recorded while the engine
      kept running: the streak restarts at one, the broken notification
      carries five, and the best stays five. */
  lemma BrokenAfterGap(st: Store, d: Day)
    ensures var s := State(5, 5, Some(d), 2, FirstDay);
            var r := RecordLearning(s, st, d + 3);
            && r.state.currentStreak == 1
            && r.state.longestStreak == 5
            && r.events == [Event(StreakBroken, 5)]
  {
  }

  /** The same gap across a relaunch: start-up zeroes the stale streak, so
      the learning action that follows emits no notification at all. */
  lemma NoBrokenEventAfterRelaunch(d: Day)
    ensures var saved := Store(5, 5, Some(d), 2, Some(d));
            var started := Start(saved, d + 3);
            var r := RecordLearning(started.state, started.store, d + 3);
            && started.state.currentStreak == 0
            && started.state.mood == NotStarted
            && r.state.currentStreak == 1
            && r.state.longestStreak == 5
            && r.events == []
  {
  }

  /** The daily counter's day is saved only on start-up, not when learning.
      Started on day d, learning on d + 1 without a restart saves a count of
      one under the old day, so a restart later on d + 1 shows zero signs
      learned that day. */
  lemma DailyCounterLostAcrossMidnight(d: Day)
    ensures var started := Start(EmptyStore, d);
            var r := RecordLearning(started.state, started.store, d + 1);
            var again := Start(r.store, d + 1);
            && r.state.signsToday == 1
            && r.store.todayDate == Some(d)
            && again.state.signsToday == 0
            && again.state.lastLearned == Some(d + 1)
  {
  }

  /** No learning ever: no streak, and the first-sign status. */
  lemma NothingLearned(today: Day)
    ensures Start(EmptyStore, today).state.currentStreak == 0
    ensures Start(EmptyStore, today).state.mood == NotStarted
    ensures Emoji(Start(EmptyStore, today).state.mood) == "\U{23F3}"
  {
  }
}
