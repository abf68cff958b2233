/** The overdue-fine rule applied when a book is returned. */
module Fines {

  /** Fine charged per day beyond the free loan period, when the caller does not say otherwise. */
  const DefaultFinePerDay: int := 10

  /** Days a book may be kept without a fine, when the caller does not say otherwise. */
  const DefaultMaxDays: int := 14

  /** The fine for a loan of `days` days: every day past `maxDays` costs `finePerDay`. */
  function Fine(days: int, finePerDay: int, maxDays: int): (fine: int)
    ensures days <= maxDays ==> fine == 0
    ensures finePerDay >= 0 ==> fine >= 0
  {
    if days > maxDays then (days - maxDays) * finePerDay else 0
  }

  /** The fine agrees with the clamped formula max(0, days - maxDays) * finePerDay. */
  lemma FineIsClampedOverdueTimesRate(days: int, finePerDay: int, maxDays: int)
    ensures Fine(days, finePerDay, maxDays) == (if days - maxDays > 0 then days - maxDays else 0) * finePerDay
  {
  }

  /** For a fixed non-negative rate, keeping a book longer never lowers its fine. */
  lemma FineMonotone(d1: int, d2: int, finePerDay: int, maxDays: int)
    requires d1 <= d2 && finePerDay >= 0
    ensures Fine(d1, finePerDay, maxDays) <= Fine(d2, finePerDay, maxDays)
  {
    if d2 > maxDays {
      MulNonNegative(d2 - maxDays, finePerDay);
      if d1 > maxDays {
        MulNonNegative(d2 - d1, finePerDay);
        assert (d2 - maxDays) * finePerDay == (d1 - maxDays) * finePerDay + (d2 - d1) * finePerDay;
      }
    }
  }

  /** With the default policy, a 20-day loan costs 60 and a 5-day loan costs nothing. */
  lemma DefaultPolicyExamples()
    ensures Fine(20, DefaultFinePerDay, DefaultMaxDays) == 60
    ensures Fine(5, DefaultFinePerDay, DefaultMaxDays) == 0
  {
  }

  lemma MulNonNegative(a: int, b: int)
    requires a >= 0 && b >= 0
    ensures a * b >= 0
  {
  }
}
