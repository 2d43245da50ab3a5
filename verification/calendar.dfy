/** Calendar days as integers.  The engine only ever compares dates after
    truncating them to the start of their day in the device's calendar, so a
    day number stands for `startOfDay(date)`; time-of-day and time zones are
    not part of this model. */
module Calendar {

  /** A calendar day, numbered consecutively. */
  type Day = int

  /** The day before `today` (adding -1 day to the start of today). */
  function Yesterday(today: Day): (y: Day)
    ensures y < today && today - y == 1
  {
    today - 1
  }

  /** Whole days from `from` to `to`; negative when `to` is earlier. */
  function DaysBetween(from: Day, to: Day): (n: int)
    ensures from + n == to
  {
    to - from
  }
}
