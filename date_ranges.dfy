/**
 * `get_last_week_date_range`, `get_last_month_date_range` and
 * `get_last_6_months_date_range` of modules/utils.py: the reporting windows
 * that end at a given moment. The month-based windows work on civil dates;
 * `datetime(y, m, d)` raising ValueError for a day the month lacks is what
 * their `try`/`except` branches catch. The week window only subtracts a
 * `timedelta`, so it stays on `Timestamp`s; the month windows build their
 * start with `datetime(y, m, d)` from a year, month and day, so they return
 * a civil `DateTime`, and `ToTimestamp` relates it to the day-number form
 * the rest of the model uses.
 */
module DateRanges {
  import opened Wrappers
  import opened LocalTime
  import opened Calendar
  import opened PeriodMath

  /** A naive civil date-time: a calendar date and the second of that day. */
  datatype DateTime = DateTime(date: Date, sec: SecondOfDay)

  predicate IsValid(dt: DateTime) {
    IsValidDate(dt.date)
  }

  /** The same moment as a day number and second of day. */
  function ToTimestamp(dt: DateTime): Timestamp
    requires IsValid(dt)
  {
    Timestamp(DayNumber(dt.date), dt.sec)
  }

  /** `datetime(y, m, d)`: midnight of that date, or ValueError when it is not a date. */
  function MakeDateTime(y: int, m: int, d: int): (r: Result<DateTime>)
    ensures r.Success? <==> IsValidDate(Date(y, m, d))
    ensures r.Success? ==> IsValid(r.value) && r.value.date == Date(y, m, d) && r.value.sec == 0
    ensures r.Failure? ==> r.error == ValueError
  {
    if IsValidDate(Date(y, m, d)) then Success(DateTime(Date(y, m, d), 0)) else Failure(ValueError)
  }

  /** Days from the first date to the second, counting both: the length of an inclusive window. */
  function InclusiveDays(start: Date, end: Date): int
    requires IsValidDate(start) && IsValidDate(end)
  {
    DayNumber(end) - DayNumber(start) + 1
  }

  /**
   * `get_last_week_date_range(end)`: midnight six days before `end`, and
   * `end` itself. Stepping back past 0001-01-01 is Python's OverflowError.
   */
  function LastWeekDateRange(end: Timestamp): (r: Result<(Timestamp, Timestamp)>)
    requires end.day >= 0
    ensures r.Success? <==> end.day >= 6
    ensures r.Failure? ==> r.error == OverflowError
    ensures r.Success? ==>
      && r.value.1 == end
      && r.value.0.sec == 0
      && AtOrBefore(r.value.0, r.value.1)
      && NumDaysFromTo(r.value.0, r.value.1, true) == 7
  {
    if end.day - 6 < 0 then Failure(OverflowError)
    else Success((StripOutTime(Timestamp(end.day - 6, end.sec)), end))
  }

  /** The start of the one-month window ending on `e`. */
  function LastMonthStart(e: Date): Result<DateTime>
    requires IsValidDate(e)
  {
    if e.month == 1 then
      if e.day == 31 then MakeDateTime(e.year, 1, 1)
      else MakeDateTime(e.year - 1, 12, e.day + 1)
    else
      var tried := MakeDateTime(e.year, e.month - 1, e.day + 1);
      if tried.Success? then tried else MakeDateTime(e.year, e.month, 1)
  }

  /** `get_last_month_date_range(end)`. */
  function LastMonthDateRange(end: DateTime): Result<(DateTime, DateTime)>
    requires IsValid(end)
  {
    var start := LastMonthStart(end.date);
    if start.Success? then Success((start.value, end)) else Failure(start.error)
  }

  /** The start of the six-month window ending on `e`. */
  function LastSixMonthsStart(e: Date): Result<DateTime>
    requires IsValidDate(e)
  {
    if e.month == 6 then MakeDateTime(e.year - 1, 12, e.day + 1)
    else if e.month < 6 then
      var tried := MakeDateTime(e.year - 1, (e.month - 6) % 12, e.day + 1);
      if tried.Success? then tried else MakeDateTime(e.year - 1, (e.month - 6) % 12 + 1, 1)
    else
      var tried := MakeDateTime(e.year, e.month - 6, e.day + 1);
      if tried.Success? then tried else MakeDateTime(e.year, (e.month - 6) + 1, 1)
  }

  /** `get_last_6_months_date_range(end)`. */
  function LastSixMonthsDateRange(end: DateTime): Result<(DateTime, DateTime)>
    requires IsValid(end)
  {
    var start := LastSixMonthsStart(end.date);
    if start.Success? then Success((start.value, end)) else Failure(start.error)
  }

  /**
   * The one-month window: it fails only in January of year 1 (there is no
   * December of year 0), and otherwise starts at a midnight, keeps `end`,
   * and spans 28 to 31 days counting both ends.
   */
  lemma LastMonthRangeSpec(end: DateTime)
    requires IsValid(end)
    ensures var r := LastMonthDateRange(end);
      && (r.Success? <==> !(end.date.year == 1 && end.date.month == 1 && end.date.day != 31))
      && (r.Failure? ==> r.error == ValueError)
      && (r.Success? ==>
            && r.value.1 == end
            && IsValid(r.value.0) && r.value.0.sec == 0
            && 28 <= InclusiveDays(r.value.0.date, end.date) <= 31)
  {
    var e := end.date;
    var r := LastMonthDateRange(end);
    DaysBeforeMonthTable(e.year, e.month);
    if r.Success? {
      var s := r.value.0.date;
      DaysBeforeMonthTable(s.year, s.month);
      if s.year != e.year {
        DaysBeforeYearStep(s.year);
      }
    }
  }

  /**
   * The six-month window: it fails only up to June of year 1, and otherwise
   * starts at a midnight, keeps `end`, and spans 181 to 184 days counting
   * both ends.
   */
  lemma LastSixMonthsRangeSpec(end: DateTime)
    requires IsValid(end)
    ensures var r := LastSixMonthsDateRange(end);
      && (r.Success? <==> !(end.date.year == 1 && end.date.month <= 6))
      && (r.Failure? ==> r.error == ValueError)
      && (r.Success? ==>
            && r.value.1 == end
            && IsValid(r.value.0) && r.value.0.sec == 0
            && 181 <= InclusiveDays(r.value.0.date, end.date) <= 184)
  {
    var e := end.date;
    if e.month <= 6 {
      SixMonthsAcrossYears(e);
    } else {
      SixMonthsWithinYear(e);
    }
  }

  /** Ending in January to June, the window starts in the year before; only year 1 has no year before. */
  lemma SixMonthsAcrossYears(e: Date)
    requires IsValidDate(e) && e.month <= 6
    ensures var r := LastSixMonthsStart(e);
      && (r.Success? <==> e.year != 1)
      && (r.Failure? ==> r.error == ValueError)
      && (r.Success? ==> r.value.sec == 0 && IsValidDate(r.value.date) && 181 <= InclusiveDays(r.value.date, e) <= 184)
  {
    var r := LastSixMonthsStart(e);
    if e.month < 6 {
      assert (e.month - 6) % 12 == e.month + 6;
    }
    if r.Success? {
      var s := r.value.date;
      if s.day == e.day + 1 {
        SixMonthsBack(s, e);
      } else {
        SixMonthsBackFallback(s, e);
      }
    }
  }

  /** Six months back to the day after in the year before spans 181 to 184 days. */
  lemma SixMonthsBack(s: Date, e: Date)
    requires IsValidDate(s) && IsValidDate(e) && s.year + 1 == e.year
    requires 1 <= e.month <= 6 && s.month == e.month + 6 && s.day == e.day + 1
    ensures 181 <= InclusiveDays(s, e) <= 184
  {
    AcrossYearDays(s, e);
    DaysBeforeMonthTable(e.year, e.month);
    DaysBeforeMonthTable(s.year, s.month);
  }

  /** The first of the month after, when the day after does not exist six months back. */
  lemma SixMonthsBackFallback(s: Date, e: Date)
    requires IsValidDate(s) && IsValidDate(e) && s.year + 1 == e.year
    requires 1 <= e.month < 6 && s.month == e.month + 7 && s.day == 1
    requires e.day + 1 > DaysInMonth(s.year, e.month + 6)
    ensures 181 <= InclusiveDays(s, e) <= 184
  {
    AcrossYearDays(s, e);
    DaysBeforeMonthTable(e.year, e.month);
    DaysBeforeMonthTable(s.year, s.month);
  }

  /** The days between two dates of consecutive years. */
  lemma AcrossYearDays(s: Date, e: Date)
    requires IsValidDate(s) && IsValidDate(e) && s.year + 1 == e.year
    ensures DayNumber(e) - DayNumber(s)
      == DaysInYear(s.year) + DaysBeforeMonth(e.year, e.month) - DaysBeforeMonth(s.year, s.month) + e.day - s.day
  {
    DaysBeforeYearStep(s.year);
  }

  /** Ending in July to December, the window starts in the same year. */
  lemma SixMonthsWithinYear(e: Date)
    requires IsValidDate(e) && e.month > 6
    ensures var r := LastSixMonthsStart(e);
      && r.Success? && r.value.sec == 0 && IsValidDate(r.value.date)
      && 181 <= InclusiveDays(r.value.date, e) <= 184
  {
    var s := LastSixMonthsStart(e).value.date;
    assert s.year == e.year;
    DaysBeforeMonthTable(e.year, e.month);
    DaysBeforeMonthTable(s.year, s.month);
    assert DayNumber(e) - DayNumber(s)
      == DaysBeforeMonth(e.year, e.month) - DaysBeforeMonth(s.year, s.month) + e.day - s.day;
  }

  /** The windows that tests/test_utils.py expects for its example moments. */
  lemma RangeExamples()
    ensures LastWeekDateRange(ToTimestamp(DateTime(Date(2024, 1, 3), 53601)))
      == Success((ToTimestamp(DateTime(Date(2023, 12, 28), 0)), ToTimestamp(DateTime(Date(2024, 1, 3), 53601))))
    ensures LastMonthDateRange(DateTime(Date(2024, 3, 28), 53601))
      == Success((DateTime(Date(2024, 2, 29), 0), DateTime(Date(2024, 3, 28), 53601)))
    ensures LastMonthDateRange(DateTime(Date(2024, 1, 3), 53601))
      == Success((DateTime(Date(2023, 12, 4), 0), DateTime(Date(2024, 1, 3), 53601)))
    ensures LastMonthDateRange(DateTime(Date(2024, 1, 31), 53601))
      == Success((DateTime(Date(2024, 1, 1), 0), DateTime(Date(2024, 1, 31), 53601)))
    ensures LastMonthDateRange(DateTime(Date(2024, 3, 30), 53601))
      == Success((DateTime(Date(2024, 3, 1), 0), DateTime(Date(2024, 3, 30), 53601)))
    ensures LastSixMonthsDateRange(DateTime(Date(2024, 10, 3), 53601))
      == Success((DateTime(Date(2024, 4, 4), 0), DateTime(Date(2024, 10, 3), 53601)))
    ensures LastSixMonthsDateRange(DateTime(Date(2024, 4, 3), 53601))
      == Success((DateTime(Date(2023, 10, 4), 0), DateTime(Date(2024, 4, 3), 53601)))
    ensures LastSixMonthsDateRange(DateTime(Date(2024, 8, 29), 53601))
      == Success((DateTime(Date(2024, 3, 1), 0), DateTime(Date(2024, 8, 29), 53601)))
  {
  }
}
