/**
 * Calendar arithmetic of the lending store. Dates are kept as whole-day
 * numbers; the clock reading the store asks for is an instant in seconds on
 * the local clock, counted from midnight of day 0, and is supplied by the caller.
 */
module Dates {

  /** A calendar date: the number of whole days since day 0. */
  type Day = int

  /** A clock reading: seconds since midnight of day 0. */
  type Instant = int

  const SecondsPerDay: int := 86400

  /** The calendar date of an instant, which is all that a 'YYYY-MM-DD' string keeps of it. */
  function DayOf(t: Instant): (d: Day)
    ensures d * SecondsPerDay <= t < (d + 1) * SecondsPerDay
  {
    t / SecondsPerDay
  }

  /** The instant at which a calendar date begins, which is what parsing a 'YYYY-MM-DD' string yields. */
  function MidnightOf(d: Day): Instant {
    d * SecondsPerDay
  }

  /**
   * The whole days from midnight of `borrowDay` to `now`, rounded down as a
   * time difference's day count is: the loan length counted in calendar days.
   */
  function ElapsedDays(borrowDay: Day, now: Instant): (days: int)
    ensures days == DayOf(now) - borrowDay
    ensures MidnightOf(borrowDay) + days * SecondsPerDay <= now < MidnightOf(borrowDay) + (days + 1) * SecondsPerDay
  {
    (now - MidnightOf(borrowDay)) / SecondsPerDay
  }
}
