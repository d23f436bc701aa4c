/**
 * The calendar arithmetic of modules/utils.py: day and week counting that
 * ignores the time of day, the Monday that starts a week, and adding whole
 * days or weeks to a date. A date-only string ("2023-10-15") is modelled by
 * its day number; ISO date strings sort the same way day numbers do.
 */
module PeriodMath {
  import opened Wrappers
  import opened LocalTime

  /** How often a habit recurs. The source tests `== "daily"` and treats anything else as weekly. */
  datatype Recurrence = Daily | Weekly

  /** `strip_out_time`: the same date at 00:00:00, the latest midnight not after `t`. */
  function StripOutTime(t: Timestamp): (r: Timestamp)
    ensures r.sec == 0 && r.day == t.day && AtOrBefore(r, t)
    ensures forall d :: AtOrBefore(Midnight(d), t) ==> AtOrBefore(Midnight(d), r)
  {
    Midnight(t.day)
  }

  /** `to_date_only_string`, as the day number of the date part. */
  function DateOnly(t: Timestamp): int {
    t.day
  }

  /** Python's `weekday()`: Monday is 0. */
  function Weekday(t: Timestamp): int {
    t.day % 7
  }

  /** `get_num_days_from_to`: whole days between the dates of `start` and `end`, plus one if inclusive. */
  function NumDaysFromTo(start: Timestamp, end: Timestamp, inclusive: bool): int {
    StripOutTime(end).day - StripOutTime(start).day + (if inclusive then 1 else 0)
  }

  /** `strip_out_time(d - timedelta(days=d.weekday()))`, as used by `get_num_weeks_from_to`. */
  function MondayOf(t: Timestamp): Timestamp {
    StripOutTime(Timestamp(t.day - Weekday(t), t.sec))
  }

  /**
   * `get_num_weeks_from_to`: the number of Monday-to-Sunday weeks the range
   * touches. The source floors a float quotient; the difference of two
   * Mondays is a multiple of 7, and Dafny's `/` floors for a positive divisor.
   */
  function NumWeeksFromTo(a: Timestamp, b: Timestamp): int {
    (MondayOf(b).day - MondayOf(a).day) / 7 + 1
  }

  /** `get_week_start_date`: the Monday, at 00:00:00, of the week containing `t`. */
  function WeekStartDate(t: Timestamp): (r: Timestamp)
    ensures r.sec == 0 && Weekday(r) == 0
    ensures r.day <= t.day <= r.day + 6
  {
    Timestamp(StripOutTime(t).day - Weekday(t), 0)
  }

  /** Days in one period: the `interval` of the streak code and the factor of `add_interval`. */
  function IntervalDays(rec: Recurrence): (n: int)
    ensures n == 1 || n == 7
  {
    if rec == Daily then 1 else 7
  }

  /**
   * `add_interval`: the date `n` days (daily) or `n` weeks (weekly) from
   * `date`; `n` may be negative. A date outside 0001-01-01 .. 9999-12-31 is
   * the OverflowError of Python's `datetime + timedelta`.
   */
  function AddInterval(date: int, rec: Recurrence, n: int): (r: Result<int>)
    ensures r.Failure? ==> r.error == OverflowError
  {
    var d := if rec == Daily then date + n else date + 7 * n;
    if 0 <= d <= MaxDay then Success(d) else Failure(OverflowError)
  }

  /**
   * The `performance_period` key of an activity in
   * `group_activities_by_performance_period`: its date for a daily habit,
   * the Monday of its week for a weekly one.
   */
  function PeriodOf(t: Timestamp, rec: Recurrence): (k: int)
    ensures k % IntervalDays(rec) == 0
    ensures k <= t.day < k + IntervalDays(rec)
  {
    if rec == Daily then DateOnly(t) else DateOnly(WeekStartDate(t))
  }

  /** The number of periods from `a` to `b` as the streak and completion code count them. */
  function NumPeriodsFromTo(rec: Recurrence, a: Timestamp, b: Timestamp): int {
    if rec == Daily then NumDaysFromTo(a, b, true) else NumWeeksFromTo(a, b)
  }

  // ---- properties of the day and week counts ----

  lemma MondayOfIsWeekStart(t: Timestamp)
    ensures MondayOf(t) == WeekStartDate(t)
  {
  }

  /** Week starts are monotone in the date. */
  lemma WeekStartMonotone(a: Timestamp, b: Timestamp)
    requires a.day <= b.day
    ensures WeekStartDate(a).day <= WeekStartDate(b).day
  {
  }

  lemma NumWeeksSameWeek(a: Timestamp, b: Timestamp)
    ensures NumWeeksFromTo(a, b) == 1 <==> WeekStartDate(a) == WeekStartDate(b)
  {
    MondayOfIsWeekStart(a);
    MondayOfIsWeekStart(b);
    var d := WeekStartDate(b).day - WeekStartDate(a).day;
    assert d % 7 == 0;
  }

  lemma NumWeeksAtLeastOne(a: Timestamp, b: Timestamp)
    requires AtOrBefore(a, b)
    ensures NumWeeksFromTo(a, b) >= 1
  {
    MondayOfIsWeekStart(a);
    MondayOfIsWeekStart(b);
    WeekStartMonotone(a, b);
  }

  lemma NumWeeksSundayToMonday(a: Timestamp, b: Timestamp)
    requires Weekday(a) == 6 && b.day == a.day + 1
    ensures NumWeeksFromTo(a, b) == 2
  {
  }

  // ---- properties of week starts and interval addition ----

  lemma WeekStartIdempotent(t: Timestamp)
    ensures WeekStartDate(WeekStartDate(t)) == WeekStartDate(t)
    ensures Weekday(t) == 0 ==> WeekStartDate(t) == StripOutTime(t)
  {
  }

  /**
   * On an existing date, adding no interval changes nothing, adding `n`
   * and then `-n` returns the date, two additions compose, and a result is
   * a whole number of periods away, so period keys stay period keys. Moving
   * forward fails exactly past 9999-12-31.
   */
  lemma AddIntervalProperties(date: int, rec: Recurrence, m: int, n: int)
    requires 0 <= date <= MaxDay
    ensures AddInterval(date, rec, 0) == Success(date)
    ensures AddInterval(date, rec, n).Success? ==> AddInterval(AddInterval(date, rec, n).value, rec, -n) == Success(date)
    ensures AddInterval(date, rec, m).Success? ==>
      AddInterval(AddInterval(date, rec, m).value, rec, n) == AddInterval(date, rec, m + n)
    ensures AddInterval(date, rec, n).Success? ==> AddInterval(date, rec, n).value - date == n * IntervalDays(rec)
    ensures n >= 0 ==> (AddInterval(date, rec, n).Failure? <==> date + n * IntervalDays(rec) > MaxDay)
  {
    if rec == Daily {
      assert IntervalDays(rec) == 1;
    } else {
      assert IntervalDays(rec) == 7;
    }
  }

  // ---- period keys ----

  lemma {:induction false} PeriodOfMonotone(a: Timestamp, b: Timestamp, rec: Recurrence)
    requires AtOrBefore(a, b)
    ensures PeriodOf(a, rec) <= PeriodOf(b, rec)
  {
    if rec == Weekly { WeekStartMonotone(a, b); }
  }

  /** The period count between two moments, in terms of their period keys. */
  lemma {:induction false} PeriodCountMatchesKeys(rec: Recurrence, a: Timestamp, b: Timestamp)
    ensures NumPeriodsFromTo(rec, a, b) * IntervalDays(rec) == PeriodOf(b, rec) - PeriodOf(a, rec) + IntervalDays(rec)
  {
    if rec == Weekly {
      MondayOfIsWeekStart(a);
      MondayOfIsWeekStart(b);
      var d := WeekStartDate(b).day - WeekStartDate(a).day;
      assert d % 7 == 0;
      assert (d / 7) * 7 == d;
    }
  }

  /** No periods lie between two moments exactly when the second one's period is the one before the first one's. */
  lemma {:induction false} NoPeriodsBetween(rec: Recurrence, a: Timestamp, b: Timestamp)
    ensures NumPeriodsFromTo(rec, a, b) == 0 <==> PeriodOf(b, rec) + IntervalDays(rec) == PeriodOf(a, rec)
  {
    PeriodCountMatchesKeys(rec, a, b);
    var n := NumPeriodsFromTo(rec, a, b);
    if rec == Weekly {
      assert n * 7 == PeriodOf(b, rec) - PeriodOf(a, rec) + 7;
      assert n == 0 <==> n * 7 == 0;
    }
  }

  // ---- the periods a range touches ----

  /** Two distinct multiples of the interval are at least one interval apart. */
  lemma AlignedGap(a: int, b: int, n: int)
    requires n == 1 || n == 7
    requires a % n == 0 && b % n == 0 && a < b
    ensures b - a >= n
  {
    assert a == n * (a / n) && b == n * (b / n);
  }

  /** One interval on from a date: the next day or week, or the OverflowError past 9999-12-31. */
  lemma NextInterval(date: int, rec: Recurrence)
    ensures AddInterval(date, rec, 1) ==
      if 0 <= date + IntervalDays(rec) <= MaxDay then Success(date + IntervalDays(rec)) else Failure(OverflowError)
  {
  }

  /** The period keys (multiples of `n`) from `lo` to `hi`. */
  ghost function KeysFromTo(lo: int, hi: int, n: int): set<int>
    requires n > 0
  {
    set k | lo <= k <= hi && k % n == 0
  }

  /** Aligned bounds one period apart or more hold one key per period. */
  lemma {:induction false} KeysFromToSize(lo: int, hi: int, n: int)
    requires n == 1 || n == 7
    requires lo % n == 0 && hi % n == 0 && lo <= hi + n
    ensures |KeysFromTo(lo, hi, n)| * n == hi - lo + n
    decreases hi - lo + n
  {
    var keys := KeysFromTo(lo, hi, n);
    if lo > hi {
      AlignedGap(hi, lo, n);
      assert keys == {};
    } else {
      assert (hi - n) % n == 0 by {
        if n == 7 {
          assert (hi - 7) % 7 == hi % 7;
        }
      }
      var rest := KeysFromTo(lo, hi - n, n);
      assert keys == rest + {hi} by {
        forall k | k in keys && k != hi ensures k in rest {
          AlignedGap(k, hi, n);
        }
      }
      KeysFromToSize(lo, hi - n, n);
      var c := |rest|;
      assert |keys| == c + 1 by {
        assert hi !in rest;
      }
      assert (c + 1) * n == c * n + n;
    }
  }

  /** The periods of the dates from day `lo` to day `hi`. */
  ghost function PeriodsOfDays(lo: int, hi: int, rec: Recurrence): set<int> {
    set d | lo <= d <= hi :: PeriodOf(Midnight(d), rec)
  }

  /** The periods of a span of days are the period keys from the first day's to the last day's. */
  lemma PeriodsOfDaysAreKeys(lo: int, hi: int, rec: Recurrence)
    requires lo <= hi
    ensures PeriodsOfDays(lo, hi, rec) == KeysFromTo(PeriodOf(Midnight(lo), rec), PeriodOf(Midnight(hi), rec), IntervalDays(rec))
  {
    var n, pa, pb := IntervalDays(rec), PeriodOf(Midnight(lo), rec), PeriodOf(Midnight(hi), rec);
    forall k | k in PeriodsOfDays(lo, hi, rec) ensures k in KeysFromTo(pa, pb, n) {
      var d :| lo <= d <= hi && PeriodOf(Midnight(d), rec) == k;
      PeriodOfMonotone(Midnight(lo), Midnight(d), rec);
      PeriodOfMonotone(Midnight(d), Midnight(hi), rec);
    }
    forall k | k in KeysFromTo(pa, pb, n) ensures k in PeriodsOfDays(lo, hi, rec) {
      if k < lo {
        assert k == n * (k / n) && pa == n * (pa / n);
        assert k == pa;
        assert PeriodOf(Midnight(lo), rec) == k;
      } else {
        assert PeriodOf(Midnight(k), rec) == k;
      }
    }
  }

  /**
   * The day count (inclusive) and the week count between two moments are
   * the number of distinct days or Monday-to-Sunday weeks that the dates from
   * the first moment's to the second's fall in; the time of day plays no part.
   */
  lemma NumPeriodsCountsPeriods(rec: Recurrence, a: Timestamp, b: Timestamp)
    requires a.day <= b.day
    ensures NumPeriodsFromTo(rec, a, b) == |PeriodsOfDays(a.day, b.day, rec)|
    ensures rec == Daily ==> NumDaysFromTo(a, b, false) == |PeriodsOfDays(a.day, b.day, rec)| - 1
  {
    var n := IntervalDays(rec);
    var pa, pb := PeriodOf(Midnight(a.day), rec), PeriodOf(Midnight(b.day), rec);
    assert pa == PeriodOf(a, rec) && pb == PeriodOf(b, rec);
    PeriodsOfDaysAreKeys(a.day, b.day, rec);
    PeriodOfMonotone(Midnight(a.day), Midnight(b.day), rec);
    KeysFromToSize(pa, pb, n);
    PeriodCountMatchesKeys(rec, a, b);
    if rec == Weekly {
      var c := |KeysFromTo(pa, pb, n)|;
      assert c * 7 == NumPeriodsFromTo(rec, a, b) * 7;
    }
  }
}
