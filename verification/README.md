# SignWise daily-streak engine, in Dafny

SignWise is a sign-language flashcard app. Its one piece of stateful logic
is the daily-streak engine (`StreakManager`). The engine keeps four fields:
the current streak, the longest streak, the last learning day and the number
of signs learned today. Recording a learning action continues, keeps or
restarts the streak, depending on whether the last learning day is today,
yesterday or something else. The engine also sends notifications, resets a
stale streak at start-up, and picks a status emoji and message from a
first-match table.

This project models the engine as pure functions over an immutable state:

- `wrappers.dfy`, `calendar.dfy`: an `Option` type, and calendar days as
  integers. `startOfDay(Date())` becomes a `today` parameter, and
  "yesterday" is `today - 1`.
- `streak_state.dfy`: the in-memory `State` and the status row it shows
  (`Mood`). Also the saved key-value entries (`Store`), the emitted
  notification (`Event`: kind plus badge number), and the invariants.
- `status.dfy`: liveness, the status table, the emoji glyphs, the
  days-to-next-milestone loop and the milestone message lookup.
- `engine.dfy`: load, record learning, the staleness check, reset and the
  start-up sequence. Each returns the new state, the new saved entries and
  the notifications sent, in order.
- `engine_lemmas.dfy`: the invariant is preserved by each transition, plus
  idempotence, agreement of the two day rules, and concrete scenarios.
- `history.dfy`: a reference definition of "the streak of a learning
  history" (the calendar days of the final unbroken run). It proves the
  engine's current streak equals it, and that the best streak is its
  maximum over prefixes.
- `session.dfy`: arbitrary interleavings of learning, checks, resets and
  relaunches. The invariant `0 <= currentStreak <= longestStreak` holds
  through all of them.

Some behaviours of the code are easy to miss:

- The restart branch of `recordLearning` is taken whenever the last day is
  neither today nor yesterday. That includes a last day in the future
  (after the clock moved back), not only a gap.
- `recordLearning` does not save the day that the daily counter belongs to.
  Only start-up saves it. So a counter written after midnight, by an app
  that stayed open, is dropped at the next start on that same day.
- At load, when no counter day was ever saved, the in-memory counter is
  left as it is (0 at start-up). It is not explicitly cleared.
- Reset does not remove the saved counter day. It also refreshes the status,
  which becomes the "first sign today" row.
- After a gap, a relaunch zeroes the streak before the next learning action.
  That action then sends no streak-broken notification. One is sent only
  when the app stays running across the gap.

## Model

| member | source | states |
|---|---|---|
| `Status.ActiveIffWithinOneDay` | StreakManager.swift:144-151 | the streak is live iff a last day exists and at most one day, and no negative amount, has passed since it |
| `Status.StatusFor` | StreakManager.swift:111-133 | for each status row, the exact set of (streak, live) inputs that selects it under first-match order; the two counting rows carry the streak |
| `Status.DailyReminderOnlyForTwo` | StreakManager.swift:127-133 | for a non-negative streak the catch-all row is reached iff the streak is live and exactly two |
| `Status.UpdateStreakMessage` | StreakManager.swift:111-133 | only the shown status changes, and it becomes the row the status table gives for the state today (so lapsed iff a streak exists that is not live, "first sign" iff there is no streak) |
| `Status.Emoji` | StreakManager.swift:112-132 | each row shows one glyph; the glyph is empty only before the first refresh |
| `Status.EmojiIdentifiesRow` | StreakManager.swift:112-132 | equal glyphs mean the same row, so the emoji identifies the row |
| `Status.DaysUntilNextMilestone` | StreakManager.swift:221-229 | below 100 the result is the distance to the smallest milestone above the streak; from 100 on it is 1; it is always at least 1 |
| `Status.CelebratedCount` | StreakManager.swift:231-243 | each non-default milestone note celebrates one of the counts 0, 1, 3, 7, 14, 30, 60, 100 |
| `Status.MilestoneMessage` | StreakManager.swift:231-243 | the default note is chosen iff the streak is not a celebrated count; otherwise the note celebrates exactly the streak |
| `Status.MilestoneMessageRoundTrip` | StreakManager.swift:231-243 | looking up a note's count returns that note, so no two counts share a note |
| `Status.CelebratedCountsAreMilestones` | StreakManager.swift:221-243 | the celebrated counts above 1 are exactly the milestone ladder |
| `StreakEngine.LoadStreak` | StreakManager.swift:36-52 | the streak fields come from the store; the counter is restored only for the same saved day, cleared for another day, kept when none was saved; today becomes the saved day |
| `StreakEngine.RecordLearning` | StreakManager.swift:55-93 | same day: only the counter grows, no event, saved best untouched; yesterday: streak+1; otherwise streak 1; on a new day the notifications are exactly an increase event with the new streak (yesterday) or a broken event with the old streak (if it was positive), followed by a new-record event iff the best grew; best = max; last day today, counter 1, status refreshed, saved copy updated |
| `StreakEngine.CheckStreakStatus` | StreakManager.swift:96-108 | a streak with a last day more than one day back drops to 0 in memory and in the store; otherwise nothing changes; no event |
| `StreakEngine.ResetStreak` | StreakManager.swift:246-258 | streak, best, last day and counter are cleared in memory and store, the counter day is kept, the status becomes "first sign" |
| `StreakEngine.Start` | StreakManager.swift:28-33 | after start-up the streak is the saved one unless stale (then 0), the best streak and last day are the saved ones, the counter is the saved one only if saved for today (else 0), the store changes only in the zeroed streak and today's counter day, the status is current |
| `EngineLemmas.RecordLearningPreservesInv` | StreakManager.swift:55-93 | recording keeps the state valid and mirrored by the store, so the best streak bounds the current one |
| `EngineLemmas.CheckStreakStatusPreservesInv` | StreakManager.swift:96-108 | the check keeps the invariant and never touches the best streak |
| `EngineLemmas.ResetStreakEstablishesInv` | StreakManager.swift:246-258 | after a reset the invariant holds |
| `EngineLemmas.LoadStreakEstablishesInv` | StreakManager.swift:36-52 | loading a sound store yields a valid state mirrored by it |
| `EngineLemmas.StartEstablishesInv` | StreakManager.swift:28-33 | starting from a sound store yields the running invariant |
| `EngineLemmas.CheckStreakStatusIdempotent` | StreakManager.swift:96-108 | a second check changes nothing |
| `EngineLemmas.StaleIffLapsed` | StreakManager.swift:96-151 | for a last day not in the future, the staleness rule fires iff the liveness rule calls a positive streak not live |
| `EngineLemmas.CheckedStreakNeverLapsed` | StreakManager.swift:28-33 | after the check, the refreshed status of a valid state is never the lapsed row (last day not in the future) |
| `EngineLemmas.FutureLastDayRestarts` | StreakManager.swift:69-79 | a future last day is kept by the check, shown as lapsed, and restarted at 1 with a broken event by the next learning action |
| `EngineLemmas.SameDayTwice` | StreakManager.swift:61-66 | two actions on the same day leave both streaks alone, add two to the counter, emit nothing |
| `EngineLemmas.LoadAfterReset` | StreakManager.swift:246-255 | reset then load gives no streak, no best and no last day |
| `EngineLemmas.BrokenAfterGap` | StreakManager.swift:73-86 | a 5-day streak followed by a 3-day gap restarts at 1, emits one broken event with badge 5, keeps best 5 |
| `EngineLemmas.NoBrokenEventAfterRelaunch` | StreakManager.swift:28-33 | the same gap across a relaunch zeroes the streak at start-up, and the next action emits no event |
| `EngineLemmas.DailyCounterLostAcrossMidnight` | StreakManager.swift:41-51 | a counter recorded after midnight without a restart is saved under the old day and reads 0 after a restart that day |
| `EngineLemmas.NothingLearned` | StreakManager.swift:28-33 | with nothing saved, start-up shows streak 0 and the hourglass row |
| `History.RecordAll` | StreakManager.swift:55-93 | a run of learning actions keeps the state valid, never lowers the best streak, and ends with the last listed day as last day |
| `History.RunStart` | StreakManager.swift:68-79 | the start of the final run: every later step is the same or the next day, and the step into it is not |
| `History.UnbrokenRunCoversDays` | StreakManager.swift:68-79 | the days of an unbroken run are exactly the calendar days between its first and last |
| `History.SpanCountsRunDays` | StreakManager.swift:68-79 | the reference streak is at least 1 and counts calendar days all of which have a learning action |
| `History.CurrentStreakIsSpan` | StreakManager.swift:68-79 | from a never-learned state, the engine's streak after any history equals the reference streak |
| `History.BestAfterOneMoreDay` | StreakManager.swift:81-86 | after one more learning day the best streak is the larger of the earlier best and the new current streak |
| `History.LongestStreakIsBestSpan` | StreakManager.swift:81-86 | from an empty state, the best streak is the largest reference streak over all prefixes of the history |
| `History.ThreeConsecutiveDays` | StreakManager.swift:69-79 | learning on d, d+1, d+2 from empty gives streak 3 and best 3 |
| `History.WeekOfLearning` | StreakManager.swift:118-120 | learning on days 1 to 7 gives streak 7 and the flame row |
| `Session.Apply` | StreakManager.swift:28-258 | any single operation keeps the invariant; only a reset lowers the best streak, to 0 |
| `Session.Run` | StreakManager.swift:28-258 | any sequence of operations keeps the invariant |
| `Session.BestStreakNeverDecreases` | StreakManager.swift:81-86 | without a reset the best streak never decreases over any session |
| `Session.FromEmptyStore` | StreakManager.swift:28-33 | an engine started on an empty store has 0 <= streak <= best after any session |

## Left out

- Notification delivery: the notification centre, titles and bodies, triggers, sound, and the random motivational pick. Only the kind and the badge number are modelled. These are platform I/O.
- `scheduleDailyReminder` and `requestNotificationPermission`: platform scheduling and permission I/O, with no engine state involved. The `dailyReminder` and `motivational` kinds are never sent by the modelled transitions.
- Message wording: the status and milestone texts are represented by the `Mood` row and the `MilestoneNote` constructor. The rows that interpolate the day count carry it. Only the status emoji glyphs are modelled as text.
- Time: `Calendar`, `Date` and time zones are abstracted to integer day numbers. The exact time stored as the last learned date is replaced by its day. The `?? 0` fallback for a missing day component is not modelled, because a whole-day difference is always present.
- Persistence: `UserDefaults` is a plain record. A missing or removed integer reads as 0, and a missing date reads as absent. Crash atomicity of several writes is not modelled.
- Concurrency: the engine is single-threaded and runs each operation to completion. Overlapping calls are not modelled.
- Integer width: counters are unbounded. Swift traps on `Int` overflow at 2^63 - 1, and an increment happens at most once per learning action or per day.
- StreakBadge.swift, SignModel.swift and the view files: these are presentation, navigation and static data. The one computation in StreakBadge.swift is a floating-point progress ratio.
