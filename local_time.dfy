/**
 * A local, naive date-time as the habit tracker stores it: second resolution,
 * already converted to the user's timezone. `day` counts days from
 * 0001-01-01 (Python's `date.toordinal() - 1`), which was a Monday, so
 * `day % 7` is Python's `weekday()` (Monday is 0).
 */
module LocalTime {

  const SecondsPerDay: int := 86400

  /** The day number of 9999-12-31, the last date a Python `datetime` can hold. */
  const MaxDay: int := 3652058

  type SecondOfDay = s: int | 0 <= s < SecondsPerDay

  datatype Timestamp = Timestamp(day: int, sec: SecondOfDay)

  /** Python's `a <= b` on two naive datetimes. */
  predicate AtOrBefore(a: Timestamp, b: Timestamp) {
    a.day < b.day || (a.day == b.day && a.sec <= b.sec)
  }

  /** Midnight at the start of a day: `datetime(y, m, d)` with no time part. */
  function Midnight(day: int): Timestamp {
    Timestamp(day, 0)
  }

  lemma AtOrBeforeTotal(a: Timestamp, b: Timestamp)
    ensures AtOrBefore(a, b) || AtOrBefore(b, a)
  {
  }

  lemma AtOrBeforeAntisymmetric(a: Timestamp, b: Timestamp)
    requires AtOrBefore(a, b) && AtOrBefore(b, a)
    ensures a == b
  {
  }

  lemma AtOrBeforeTransitive(a: Timestamp, b: Timestamp, c: Timestamp)
    requires AtOrBefore(a, b) && AtOrBefore(b, c)
    ensures AtOrBefore(a, c)
  {
  }
}
