/** Python's naive `datetime` values as the pipeline uses them: a
    calendar date with a time of day to the second, compared
    chronologically, and the `date` part that labels a month. */
module Timestamps {

  /** A `datetime` with microsecond zero, which is all that parsing the
      format `%Y-%m-%dT%H:%M:%SZ` or `datetime(year, month, 1)` produce. */
  datatype DateTime = DateTime(year: int, month: int, day: int, hour: int, minute: int, second: int)

  /** The result of `datetime.date()`. */
  datatype Date = Date(year: int, month: int, day: int)

  /** Python's `datetime.MINYEAR` and `datetime.MAXYEAR`. */
  const MinYear: int := 1
  const MaxYear: int := 9999

  predicate IsLeapYear(y: int) {
    y % 4 == 0 && (y % 100 != 0 || y % 400 == 0)
  }

  function DaysInMonth(y: int, m: int): int
    requires 1 <= m <= 12
  {
    if m == 2 then (if IsLeapYear(y) then 29 else 28)
    else if m == 4 || m == 6 || m == 9 || m == 11 then 30
    else 31
  }

  /** The component ranges that Python's `datetime` constructor enforces. */
  predicate WellFormed(t: DateTime) {
    && MinYear <= t.year <= MaxYear
    && 1 <= t.month <= 12
    && 1 <= t.day <= DaysInMonth(t.year, t.month)
    && 0 <= t.hour < 24
    && 0 <= t.minute < 60
    && 0 <= t.second < 60
  }

  /** `a < b` on datetimes: lexicographic on (year, month, day, hour, minute, second). */
  predicate Before(a: DateTime, b: DateTime) {
    || a.year < b.year
    || (a.year == b.year && a.month < b.month)
    || (a.year == b.year && a.month == b.month && a.day < b.day)
    || (a.year == b.year && a.month == b.month && a.day == b.day && a.hour < b.hour)
    || (a.year == b.year && a.month == b.month && a.day == b.day && a.hour == b.hour
        && a.minute < b.minute)
    || (a.year == b.year && a.month == b.month && a.day == b.day && a.hour == b.hour
        && a.minute == b.minute && a.second < b.second)
  }

  /** `Before` is a strict total order: irreflexive, transitive, and any two
      distinct datetimes are comparable one way or the other. */
  lemma BeforeIsStrictTotalOrder(a: DateTime, b: DateTime, c: DateTime)
    ensures !Before(a, a)
    ensures Before(a, b) && Before(b, c) ==> Before(a, c)
    ensures a != b ==> Before(a, b) || Before(b, a)
    ensures !(Before(a, b) && Before(b, a))
  {
  }

  /** The first instant of a day: `datetime(year=y, month=m, day=d)`. */
  function Midnight(y: int, m: int, d: int): DateTime
  {
    DateTime(y, m, d, 0, 0, 0)
  }

  /** `datetime.date()`: drop the time of day. */
  function DateOf(t: DateTime): Date
  {
    Date(t.year, t.month, t.day)
  }
}
