/** The derived, read-only views of the streak: whether it is still alive,
    the status row (message and emoji) shown with it, and the milestone
    helpers. */
module Status {
  import opened Wrappers
  import opened Calendar
  import opened StreakState

  /** The streak is alive when the last learning day is today or
      yesterday; a user who never learned has no live streak. */
  predicate IsStreakActive(lastLearned: Option<Day>, today: Day) {
    lastLearned.Some? && (lastLearned.value == today || lastLearned.value == Yesterday(today))
  }

  /** Liveness is exactly "at most one day has passed since the last
      learning day, and that day is not in the future". */
  lemma ActiveIffWithinOneDay(lastLearned: Option<Day>, today: Day)
    ensures IsStreakActive(lastLearned, today)
        <==> lastLearned.Some? && 0 <= DaysBetween(lastLearned.value, today) <= 1
  {
  }

  /** The status table, first matching row wins: lapsed, none, a week or
      more, five or more, three or more, exactly one, anything else.  The
      contract gives the exact set of inputs each row is chosen for. */
  function StatusFor(currentStreak: int, active: bool): (m: Mood)
    ensures m != Unset
    ensures m == Lapsed <==> !active && currentStreak > 0
    ensures m == NotStarted <==> currentStreak == 0
    ensures m == OnFire <==> active && currentStreak >= 7
    ensures m.KeepUp? <==> active && 5 <= currentStreak < 7
    ensures m.OneMore? <==> active && 3 <= currentStreak < 5
    ensures (m.KeepUp? || m.OneMore?) ==> m.days == currentStreak
    ensures m == FirstDay <==> active && currentStreak == 1
    ensures m == DailyReminder <==> currentStreak < 0 || (active && currentStreak == 2)
  {
    if !active && currentStreak > 0 then Lapsed
    else if currentStreak == 0 then NotStarted
    else if currentStreak >= 7 then OnFire
    else if currentStreak >= 5 then KeepUp(currentStreak)
    else if currentStreak >= 3 then OneMore(currentStreak)
    else if currentStreak == 1 then FirstDay
    else DailyReminder
  }

  /** The catch-all row is reached, for any streak a valid state can hold,
      only by a live streak of exactly two days. */
  lemma DailyReminderOnlyForTwo(currentStreak: int, active: bool)
    requires currentStreak >= 0
    ensures StatusFor(currentStreak, active) == DailyReminder <==> active && currentStreak == 2
  {
  }

  /** Refreshes the shown status from the current state and day; nothing
      but the status changes. */
  function UpdateStreakMessage(s: State, today: Day): (r: State)
    ensures r.(mood := s.mood) == s
    ensures r.mood != Unset
    ensures MoodCurrent(r, today)
    ensures r.mood == Lapsed <==> s.currentStreak > 0 && !IsStreakActive(s.lastLearned, today)
    ensures r.mood == NotStarted <==> s.currentStreak == 0
  {
    s.(mood := StatusFor(s.currentStreak, IsStreakActive(s.lastLearned, today)))
  }

  /** The status shown is the one the table gives for the state today. */
  predicate MoodCurrent(s: State, today: Day) {
    s.mood == StatusFor(s.currentStreak, IsStreakActive(s.lastLearned, today))
  }

  /** The emoji glyph shown for each row; empty before the first refresh. */
  function Emoji(m: Mood): (e: string)
    ensures e == "" <==> m == Unset
    ensures m != Unset ==> |e| == 1
  {
    match m
    case Unset => ""
    case Lapsed => "\U{1F622}"
    case NotStarted => "\U{23F3}"
    case OnFire => "\U{1F525}"
    case KeepUp(_) => "\U{1F389}"
    case OneMore(_) => "\U{1F3AF}"
    case FirstDay => "\U{1F31F}"
    case DailyReminder => "\U{1F4AA}"
  }

  /** Distinct rows show distinct glyphs, so the emoji alone tells which
      row of the table was chosen. */
  lemma EmojiIdentifiesRow(a: Mood, b: Mood)
    requires Emoji(a) == Emoji(b)
    ensures a.Unset? == b.Unset? && a.Lapsed? == b.Lapsed? && a.NotStarted? == b.NotStarted?
    ensures a.OnFire? == b.OnFire? && a.KeepUp? == b.KeepUp? && a.OneMore? == b.OneMore?
    ensures a.FirstDay? == b.FirstDay? && a.DailyReminder? == b.DailyReminder?
  {
  }

  // ---------------------------------------------------------------------
  // Milestones

  /** The milestone ladder, in increasing order. */
  const Milestones: seq<int> := [3, 7, 14, 30, 60, 100]

  /** Days to go until the next milestone: the distance to the first (and,
      the ladder being increasing, smallest) milestone above the current
      streak, or 1 once every milestone has been passed. */
  method DaysUntilNextMilestone(currentStreak: int) returns (days: int)
    ensures days >= 1
    ensures currentStreak >= 100 ==> days == 1
    ensures currentStreak < 100 ==>
      exists k :: 0 <= k < |Milestones| && currentStreak < Milestones[k] && days == Milestones[k] - currentStreak
    ensures currentStreak < 100 ==>
      forall k :: 0 <= k < |Milestones| && currentStreak < Milestones[k] ==> days <= Milestones[k] - currentStreak
  {
    var i := 0;
    while i < |Milestones|
      invariant 0 <= i <= |Milestones|
      invariant forall k :: 0 <= k < i ==> Milestones[k] <= currentStreak
    {
      if currentStreak < Milestones[i] {
        return Milestones[i] - currentStreak;
      }
      i := i + 1;
    }
    assert Milestones[|Milestones| - 1] == 100;
    return 1;
  }

  /** The canned milestone messages; `KeepGoing` is the default. */
  datatype MilestoneNote =
    | StartToday     // 🌟 at 0 days
    | OneDayDone     // 🎯 at 1 day
    | ThreeDays      // 🎉 at 3 days
    | OneWeek        // 🔥 at 7 days
    | TwoWeeks       // 🏆 at 14 days
    | OneMonth       // 🌟 at 30 days
    | TwoMonths      // 💎 at 60 days
    | HundredDays    // 👑 at 100 days
    | KeepGoing      // 💪 any other count

  /** The streak lengths that have a message of their own. */
  const CelebratedCounts: set<int> := {0, 1, 3, 7, 14, 30, 60, 100}

  /** The streak length a note celebrates, absent for the default. */
  function CelebratedCount(n: MilestoneNote): (c: Option<int>)
    ensures c.None? <==> n == KeepGoing
    ensures c.Some? ==> c.value in CelebratedCounts
  {
    match n
    case StartToday => Some(0)
    case OneDayDone => Some(1)
    case ThreeDays => Some(3)
    case OneWeek => Some(7)
    case TwoWeeks => Some(14)
    case OneMonth => Some(30)
    case TwoMonths => Some(60)
    case HundredDays => Some(100)
    case KeepGoing => None
  }

  /** Exact-value lookup of the milestone message, with a default.  The
      note chosen celebrates precisely the current streak. */
  function MilestoneMessage(currentStreak: int): (n: MilestoneNote)
    ensures n == KeepGoing <==> currentStreak !in CelebratedCounts
    ensures n != KeepGoing ==> CelebratedCount(n) == Some(currentStreak)
  {
    match currentStreak
    case 0 => StartToday
    case 1 => OneDayDone
    case 3 => ThreeDays
    case 7 => OneWeek
    case 14 => TwoWeeks
    case 30 => OneMonth
    case 60 => TwoMonths
    case 100 => HundredDays
    case _ => KeepGoing
  }

  /** Looking up the count a note celebrates gives that note back, so no
      two counts share a message. */
  lemma MilestoneMessageRoundTrip(n: MilestoneNote)
    requires n != KeepGoing
    ensures MilestoneMessage(CelebratedCount(n).value) == n
  {
  }

  /** Apart from the start and the first day, the celebrated counts are
      exactly the milestone ladder. */
  lemma CelebratedCountsAreMilestones()
    ensures forall c :: c in CelebratedCounts && c > 1 <==> c in Milestones
  {
  }
}
