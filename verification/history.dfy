/** Learning histories: a run of learning actions, one per listed day, and
    an independent reference for what the streak of such a history is — the
    number of calendar days in the unbroken run of learning days that ends
    with the last one. */
module History {
  import opened Wrappers
  import opened Calendar
  import opened StreakState
  import opened Status
  import opened StreakEngine

  /** Records a learning action on each day of `days` in order, collecting
      the notifications. */
  function RecordAll(s: State, st: Store, days: seq<Day>): (r: Step)
    requires Valid(s)
    ensures Valid(r.state)
    ensures r.state.longestStreak >= s.longestStreak
    ensures days == [] ==> r.state == s
    ensures days != [] ==> r.state.lastLearned == Some(days[|days| - 1])
    decreases |days|
  {
    if days == [] then Step(s, st, [])
    else
      var p := RecordAll(s, st, days[..|days| - 1]);
      var q := RecordLearning(p.state, p.store, days[|days| - 1]);
      Step(q.state, q.store, p.events + q.events)
  }

  /** Learning on `next` after `prev` continues a run: the same day or the
      following one. */
  predicate Continues(prev: Day, next: Day) {
    next == prev || next == prev + 1
  }

  /** Every step of `days` from index `k` on continues the run. */
  ghost predicate UnbrokenFrom(days: seq<Day>, k: int) {
    0 <= k < |days| && forall i :: k < i < |days| ==> Continues(days[i - 1], days[i])
  }

  /** Where the unbroken run that ends the history starts: the run reaches
      back to it, and no further. */
  function RunStart(days: seq<Day>): (k: nat)
    requires |days| > 0
    ensures UnbrokenFrom(days, k)
    ensures k > 0 ==> !Continues(days[k - 1], days[k])
    decreases |days|
  {
    if |days| == 1 then 0
    else if Continues(days[|days| - 2], days[|days| - 1]) then RunStart(days[..|days| - 1])
    else |days| - 1
  }

  /** The reference streak: calendar days from the start of the final run
      to the last learning day, both included. */
  function Span(days: seq<Day>): int
    requires |days| > 0
  {
    days[|days| - 1] - days[RunStart(days)] + 1
  }

  /** The days of an unbroken run are exactly the calendar days between its
      first and its last: none is skipped and none lies outside. */
  lemma {:induction false} UnbrokenRunCoversDays(days: seq<Day>, k: int)
    requires UnbrokenFrom(days, k)
    ensures forall d :: d in days[k..] <==> days[k] <= d <= days[|days| - 1]
    decreases |days|
  {
    if |days| - 1 == k {
      assert days[k..] == [days[k]];
    } else {
      var front := days[..|days| - 1];
      assert UnbrokenFrom(front, k) by {
        forall i | k < i < |front| ensures Continues(front[i - 1], front[i]) {
          assert Continues(days[i - 1], days[i]);
        }
      }
      UnbrokenRunCoversDays(front, k);
      var last := days[|days| - 1];
      var frontLast := front[|front| - 1];
      assert days[k..] == front[k..] + [last];
      assert Continues(frontLast, last) by { assert frontLast == days[|days| - 2]; }
      assert frontLast in front[k..];
      forall d ensures d in days[k..] <==> days[k] <= d <= last {
        if d in days[k..] && d != last {
          assert d in front[k..];
        }
        if days[k] <= d <= frontLast {
          assert d in front[k..];
        }
      }
    }
  }

  /** So the reference streak counts the distinct calendar days of the
      final run, every one of which has a learning action. */
  lemma SpanCountsRunDays(days: seq<Day>)
    requires |days| > 0
    ensures Span(days) >= 1
    ensures forall d :: d in days[RunStart(days)..] <==> days[RunStart(days)] <= d <= days[|days| - 1]
  {
    UnbrokenRunCoversDays(days, RunStart(days));
  }

  /** From a state that never learned, the engine's current streak after
      any history is the reference streak. */
  lemma {:induction false} CurrentStreakIsSpan(s: State, st: Store, days: seq<Day>)
    requires Valid(s) && s.lastLearned.None? && |days| > 0
    ensures RecordAll(s, st, days).state.currentStreak == Span(days)
    decreases |days|
  {
    var n := |days|;
    if n > 1 {
      var front := days[..n - 1];
      CurrentStreakIsSpan(s, st, front);
      assert front[n - 2] == days[n - 2];
      if Continues(days[n - 2], days[n - 1]) {
        assert RunStart(days) == RunStart(front);
        assert days[RunStart(days)] == front[RunStart(front)];
      }
    }
  }

  /** One more learning day: the best streak becomes the larger of the
      earlier best and the new current streak. */
  lemma BestAfterOneMoreDay(s: State, st: Store, days: seq<Day>)
    requires Valid(s) && |days| > 0
    ensures var before := RecordAll(s, st, days[..|days| - 1]).state.longestStreak;
            var after := RecordAll(s, st, days).state;
            after.longestStreak == (if after.currentStreak > before then after.currentStreak else before)
  {
    var p := RecordAll(s, st, days[..|days| - 1]);
    var q := RecordLearning(p.state, p.store, days[|days| - 1]);
    assert RecordAll(s, st, days).state == q.state;
  }

  /** The largest reference streak over the prefixes grows with one more
      day to the larger of itself and the reference streak of the whole. */
  lemma BestSpanStep(days: seq<Day>, front: seq<Day>, before: int, after: int)
    requires |days| > 1 && front == days[..|days| - 1]
    requires forall j :: 1 <= j <= |front| ==> Span(front[..j]) <= before
    requires exists j :: 1 <= j <= |front| && Span(front[..j]) == before
    requires after == (if Span(days) > before then Span(days) else before)
    ensures forall j :: 1 <= j <= |days| ==> Span(days[..j]) <= after
    ensures exists j :: 1 <= j <= |days| && Span(days[..j]) == after
  {
    var n := |days|;
    assert days[..n] == days;
    forall j | 1 <= j <= n - 1 ensures front[..j] == days[..j] {
    }
    var jp :| 1 <= jp <= n - 1 && Span(front[..jp]) == before;
    if after == before {
      assert Span(days[..jp]) == after;
    } else {
      assert Span(days[..n]) == after;
    }
  }

  /** The engine's best streak after a history from an empty state is the
      largest reference streak of any prefix of it. */
  lemma {:induction false} LongestStreakIsBestSpan(s: State, st: Store, days: seq<Day>)
    requires Valid(s) && s.lastLearned.None? && s.longestStreak == 0 && |days| > 0
    ensures forall j :: 1 <= j <= |days| ==> Span(days[..j]) <= RecordAll(s, st, days).state.longestStreak
    ensures exists j :: 1 <= j <= |days| && Span(days[..j]) == RecordAll(s, st, days).state.longestStreak
    decreases |days|
  {
    var n := |days|;
    var front := days[..n - 1];
    CurrentStreakIsSpan(s, st, days);
    BestAfterOneMoreDay(s, st, days);
    var before := RecordAll(s, st, front).state.longestStreak;
    var after := RecordAll(s, st, days).state.longestStreak;
    if n == 1 {
      assert front == [];
      assert days[..1] == days;
    } else {
      LongestStreakIsBestSpan(s, st, front);
      BestSpanStep(days, front, before, after);
    }
  }

  /** Learning on days d, d + 1, d + 2 from an empty state: a three-day
      streak and a three-day best. */
  lemma ThreeConsecutiveDays(d: Day)
    ensures RecordAll(Fresh, EmptyStore, [d, d + 1, d + 2]).state.currentStreak == 3
    ensures RecordAll(Fresh, EmptyStore, [d, d + 1, d + 2]).state.longestStreak == 3
  {
    var days := [d, d + 1, d + 2];
    CurrentStreakIsSpan(Fresh, EmptyStore, days);
    LongestStreakIsBestSpan(Fresh, EmptyStore, days);
    assert RunStart(days[..1]) == 0;
    assert RunStart(days[..2]) == 0 by { assert days[..2][..1] == days[..1]; }
    assert RunStart(days) == 0 by { assert days[..2] == days[..|days| - 1]; }
    assert days[..3] == days;
    assert forall j :: 1 <= j <= 3 ==> Span(days[..j]) == j;
  }

  /** A week of daily learning: a seven-day streak, shown with the flame. */
  lemma WeekOfLearning()
    ensures var r := RecordAll(Fresh, EmptyStore, [1, 2, 3, 4, 5, 6, 7]);
            r.state.currentStreak == 7 && r.state.mood == OnFire && Emoji(r.state.mood) == "\U{1F525}"
  {
    var days := [1, 2, 3, 4, 5, 6, 7];
    CurrentStreakIsSpan(Fresh, EmptyStore, days);
    assert RunStart(days[..1]) == 0;
    assert RunStart(days[..2]) == 0 by { assert days[..2][..1] == days[..1]; }
    assert RunStart(days[..3]) == 0 by { assert days[..3][..2] == days[..2]; }
    assert RunStart(days[..4]) == 0 by { assert days[..4][..3] == days[..3]; }
    assert RunStart(days[..5]) == 0 by { assert days[..5][..4] == days[..4]; }
    assert RunStart(days[..6]) == 0 by { assert days[..6][..5] == days[..5]; }
    assert RunStart(days) == 0 by { assert days[..6] == days[..|days| - 1]; }
  }
}
