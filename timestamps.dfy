/**
 * Timezone-aware datetimes, seen abstractly: the calendar date that the dated route and
 * `unique_for_date` project out, and a position within that day. Two timestamps compare as
 * Python datetimes do, date first and then time of day; no calendar arithmetic is needed.
 */
module Timestamps {

  datatype Date = Date(year: int, month: int, day: int)

  datatype Timestamp = Timestamp(date: Date, timeOfDay: nat)

  /** `a` is a strictly earlier calendar date than `b`. */
  predicate DateBefore(a: Date, b: Date)
  {
    || a.year < b.year
    || (a.year == b.year && a.month < b.month)
    || (a.year == b.year && a.month == b.month && a.day < b.day)
  }

  /** `a <= b` on datetimes. */
  predicate NotAfter(a: Timestamp, b: Timestamp)
  {
    DateBefore(a.date, b.date) || (a.date == b.date && a.timeOfDay <= b.timeOfDay)
  }

  lemma NotAfterTotal(a: Timestamp, b: Timestamp)
    ensures NotAfter(a, b) || NotAfter(b, a)
  {
  }

  lemma NotAfterTransitive(a: Timestamp, b: Timestamp, c: Timestamp)
    requires NotAfter(a, b) && NotAfter(b, c)
    ensures NotAfter(a, c)
  {
  }
}
