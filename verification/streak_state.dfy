/** The streak engine's data: the in-memory state the views observe, the
    persisted copy of it, and the notification events a transition emits. */
module StreakState {
  import opened Wrappers
  import opened Calendar

  /** Which row of the status table produced the message and emoji shown
      with the streak.  `Unset` is the empty message the engine starts with
      before its first refresh; the two rows whose text mentions the day
      count carry it. */
  datatype Mood =
    | Unset
    | Lapsed               // 😢 the streak lapsed, start again today
    | NotStarted           // ⏳ time for the first sign today
    | OnFire               // 🔥 learning every day
    | KeepUp(days: int)    // 🎉 "<days> days in a row, keep it up"
    | OneMore(days: int)   // 🎯 "one more day, <days> days done"
    | FirstDay             // 🌟 the first day has started
    | DailyReminder        // 💪 one sign a day is enough

  /** The observable engine state.  `lastLearned` is the day of the most
      recent learning event; `signsToday` counts the events of that day. */
  datatype State = State(
    currentStreak: int,
    longestStreak: int,
    lastLearned: Option<Day>,
    signsToday: int,
    mood: Mood)

  /** The property initialisers, before anything is loaded. */
  const Fresh: State := State(0, 0, None, 0, Unset)

  /** The notification kinds the transitions emit. */
  datatype EventKind = StreakIncrease | StreakBroken | NewRecord

  /** An emitted notification: its kind and the badge number it carries,
      which is the current streak at the moment it is sent. */
  datatype Event = Event(kind: EventKind, badge: int)

  /** The persisted key-value entries.  An integer entry that was never
      written or was removed reads as 0; a date entry reads as absent. */
  datatype Store = Store(
    currentStreak: int,
    longestStreak: int,
    lastLearned: Option<Day>,
    signsToday: int,
    todayDate: Option<Day>)

  /** Nothing saved yet. */
  const EmptyStore: Store := Store(0, 0, None, 0, None)

  /** The result of one engine operation. */
  datatype Step = Step(state: State, store: Store, events: seq<Event>)

  /** The state invariant the engine maintains: counters are non-negative,
      the best streak bounds the current one, and there is no streak
      without a learning day. */
  predicate Valid(s: State) {
    && 0 <= s.currentStreak <= s.longestStreak
    && s.signsToday >= 0
    && (s.lastLearned.None? ==> s.currentStreak == 0)
  }

  /** The same invariant for what is saved, so that loading keeps it. */
  predicate StoreValid(st: Store) {
    && 0 <= st.currentStreak <= st.longestStreak
    && st.signsToday >= 0
    && (st.lastLearned.None? ==> st.currentStreak == 0)
  }

  /** The saved streak fields equal the in-memory ones. */
  predicate Mirrors(s: State, st: Store) {
    && st.currentStreak == s.currentStreak
    && st.longestStreak == s.longestStreak
    && st.lastLearned == s.lastLearned
  }
}
