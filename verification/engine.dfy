/** The streak engine's transitions.  Each operation is a pure function of
    the in-memory state, the saved entries and today's day number, returning
    the new state, the new saved entries and the notifications emitted, in
    the order they are sent. */
module StreakEngine {
  import opened Wrappers
  import opened Calendar
  import opened StreakState
  import opened Status

  /** Writes the fields that every save writes (not the best streak, and
      not the day the daily counter belongs to). */
  function SaveStreak(s: State, st: Store): (r: Store)
    ensures r.currentStreak == s.currentStreak && r.lastLearned == s.lastLearned
    ensures r.signsToday == s.signsToday
    ensures r.longestStreak == st.longestStreak && r.todayDate == st.todayDate
  {
    st.(currentStreak := s.currentStreak, lastLearned := s.lastLearned, signsToday := s.signsToday)
  }

  /** Reads the saved streak, and rolls the daily counter over: a saved
      counter is kept only when it was saved for today, is cleared when it
      was saved for another day, and is left as it is when no day was ever
      saved.  Today becomes the saved day either way. */
  function LoadStreak(s: State, st: Store, today: Day): (r: Step)
    ensures r.state.currentStreak == st.currentStreak
    ensures r.state.longestStreak == st.longestStreak
    ensures r.state.lastLearned == st.lastLearned
    ensures st.todayDate == Some(today) ==> r.state.signsToday == st.signsToday
    ensures st.todayDate.Some? && st.todayDate.value != today ==> r.state.signsToday == 0
    ensures st.todayDate.None? ==> r.state.signsToday == s.signsToday
    ensures r.state.mood == s.mood
    ensures r.store == st.(todayDate := Some(today))
    ensures r.events == []
  {
    var count :=
      if st.todayDate.Some? then
        (if st.todayDate.value != today then 0 else st.signsToday)
      else s.signsToday;
    Step(State(st.currentStreak, st.longestStreak, st.lastLearned, count, s.mood),
         st.(todayDate := Some(today)), [])
  }

  /** Records one learning action on `today`.
      - Already learned today: only the daily counter moves; no event, and
        the shown status is not refreshed.
      - Learned yesterday: the streak grows by one and a streak-increase
        notification carries the new length.
      - Otherwise (never learned, a gap, or a last day in the future): the
        streak restarts at one, after a streak-broken notification carrying
        the old length if there was a streak.
      Outside the same-day case the best streak becomes the larger of itself
      and the new streak, with a new-record notification when it grows;
      today becomes the last learning day with one sign; the status is
      refreshed. */
  function RecordLearning(s: State, st: Store, today: Day): (r: Step)
    // same day
    ensures s.lastLearned == Some(today) ==>
      && r.state == s.(signsToday := s.signsToday + 1)
      && r.events == []
    // consecutive day
    ensures s.lastLearned == Some(Yesterday(today)) ==>
      && r.state.currentStreak == s.currentStreak + 1
      && |r.events| >= 1 && r.events[0] == Event(StreakIncrease, r.state.currentStreak)
    // first event, gap, or a last day after today
    ensures s.lastLearned != Some(today) && s.lastLearned != Some(Yesterday(today)) ==>
      && r.state.currentStreak == 1
      && (s.currentStreak > 0 <==> |r.events| > 0 && r.events[0] == Event(StreakBroken, s.currentStreak))
    // every new day
    ensures s.lastLearned != Some(today) ==>
      && r.state.longestStreak == (if r.state.currentStreak > s.longestStreak then r.state.currentStreak else s.longestStreak)
      && (r.state.longestStreak > s.longestStreak <==> |r.events| > 0 && r.events[|r.events| - 1].kind == NewRecord)
      && (r.state.longestStreak > s.longestStreak ==> r.events[|r.events| - 1].badge == r.state.longestStreak)
      && r.state.lastLearned == Some(today)
      && r.state.signsToday == 1
      && MoodCurrent(r.state, today)
      && r.store.longestStreak == (if r.state.longestStreak > s.longestStreak then r.state.longestStreak else st.longestStreak)
    // the notifications sent on a new day, in order
    ensures s.lastLearned != Some(today) ==>
      r.events ==
        (if s.lastLearned == Some(Yesterday(today)) then [Event(StreakIncrease, s.currentStreak + 1)]
         else if s.currentStreak > 0 then [Event(StreakBroken, s.currentStreak)]
         else [])
        + (if r.state.longestStreak > s.longestStreak then [Event(NewRecord, r.state.longestStreak)] else [])
    ensures s.lastLearned == Some(today) ==> r.store.longestStreak == st.longestStreak
    ensures r.state.longestStreak >= s.longestStreak
    ensures |r.events| <= 2
    ensures r.store.currentStreak == r.state.currentStreak
    ensures r.store.lastLearned == r.state.lastLearned
    ensures r.store.signsToday == r.state.signsToday
    ensures r.store.todayDate == st.todayDate
  {
    var last := s.lastLearned;
    if last == Some(today) then
      var s1 := s.(signsToday := s.signsToday + 1);
      Step(s1, SaveStreak(s1, st), [])
    else
      var consecutive := last == Some(Yesterday(today));
      var current := if consecutive then s.currentStreak + 1 else 1;
      var streakEvents :=
        if consecutive then [Event(StreakIncrease, current)]
        else if s.currentStreak > 0 then [Event(StreakBroken, s.currentStreak)]
        else [];
      var record := current > s.longestStreak;
      var longest := if record then current else s.longestStreak;
      var recordEvents := if record then [Event(NewRecord, current)] else [];
      var st1 := if record then st.(longestStreak := longest) else st;
      var s1 := UpdateStreakMessage(State(current, longest, Some(today), 1, s.mood), today);
      Step(s1, SaveStreak(s1, st1), streakEvents + recordEvents)
  }

  /** The streak has gone stale: there is a last learning day, more than
      one day has passed since it, and there is a streak to lose. */
  predicate Stale(s: State, today: Day) {
    s.lastLearned.Some? && DaysBetween(s.lastLearned.value, today) > 1 && s.currentStreak > 0
  }

  /** The staleness reset: a stale streak drops to zero, and only that
      field and its saved copy change.  Emits nothing; does not refresh the
      shown status. */
  function CheckStreakStatus(s: State, st: Store, today: Day): (r: Step)
    ensures Stale(s, today) ==> r.state == s.(currentStreak := 0) && r.store == st.(currentStreak := 0)
    ensures !Stale(s, today) ==> r.state == s && r.store == st
    ensures r.events == []
  {
    if s.lastLearned.None? then Step(s, st, [])
    else if DaysBetween(s.lastLearned.value, today) > 1 && s.currentStreak > 0 then
      Step(s.(currentStreak := 0), st.(currentStreak := 0), [])
    else Step(s, st, [])
  }

  /** Clears the streak, the best streak, the last day and the daily
      counter, in memory and in the saved entries (the saved day of the
      daily counter is kept), then refreshes the status. */
  function ResetStreak(s: State, st: Store, today: Day): (r: Step)
    ensures r.state == State(0, 0, None, 0, NotStarted)
    ensures r.store == EmptyStore.(todayDate := st.todayDate)
    ensures r.events == []
  {
    var s1 := State(0, 0, None, 0, s.mood);
    Step(UpdateStreakMessage(s1, today), st.(currentStreak := 0, longestStreak := 0, lastLearned := None, signsToday := 0), [])
  }

  /** Engine start-up: load, drop a stale streak, show the status. */
  function Start(st: Store, today: Day): (r: Step)
    ensures r.events == []
    ensures r.state.currentStreak ==
      (if st.lastLearned.Some? && DaysBetween(st.lastLearned.value, today) > 1 && st.currentStreak > 0
       then 0 else st.currentStreak)
    ensures r.state.signsToday == (if st.todayDate == Some(today) then st.signsToday else 0)
    ensures r.store == st.(currentStreak := r.state.currentStreak, todayDate := Some(today))
    ensures r.state.longestStreak == st.longestStreak && r.state.lastLearned == st.lastLearned
    ensures MoodCurrent(r.state, today)
    ensures r.state.currentStreak > 0 && r.state.lastLearned.Some? ==>
      DaysBetween(r.state.lastLearned.value, today) <= 1
  {
    var loaded := LoadStreak(Fresh, st, today);
    var checked := CheckStreakStatus(loaded.state, loaded.store, today);
    Step(UpdateStreakMessage(checked.state, today), checked.store, [])
  }
}
