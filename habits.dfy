/**
 * The habit value of classes/habit.py and its pure queries: when it was last
 * performed, the label of its period, and how many of its periods it was
 * completed in. A habit is its title, recurrence, creation moment and the
 * moments of its activities, which the database returns oldest first.
 */
module Habits {
  import opened Wrappers
  import opened LocalTime
  import opened PeriodMath
  import opened Grouping

  datatype Habit = Habit(title: string, recurrence: Recurrence, createdAt: Timestamp, activities: seq<Timestamp>)

  /** Activities in the order the database returns them: `ORDER BY performed_at ASC`. */
  predicate ActivitiesSorted(acts: seq<Timestamp>) {
    forall i, j :: 0 <= i < j < |acts| ==> AtOrBefore(acts[i], acts[j])
  }

  /**
   * `get_date_last_performed`: the last activity, or None when there is none.
   * With the activities in database order it is the most recent one.
   */
  function DateLastPerformed(h: Habit): (r: Option<Timestamp>)
    ensures r.None? <==> h.activities == []
    ensures r.Some? ==> r.value in h.activities
    ensures r.Some? && ActivitiesSorted(h.activities) ==> forall t :: t in h.activities ==> AtOrBefore(t, r.value)
  {
    if |h.activities| == 0 then None else Some(h.activities[|h.activities| - 1])
  }

  /** `get_interval_label(count)`: "day"/"week", plural unless the count is exactly one. */
  function IntervalLabel(h: Habit, count: int): (s: string)
    ensures s == "day" || s == "days" || s == "week" || s == "weeks"
    ensures (s == "day" || s == "days") <==> h.recurrence == Daily
    ensures (s == "day" || s == "week") <==> count == 1
  {
    var interval := if h.recurrence == Daily then "day" else "week";
    var pluralSuffix := if count != 1 then "s" else "";
    assert "day" + "s" == "days" && "week" + "s" == "weeks" && "day" + "" == "day" && "week" + "" == "week";
    interval + pluralSuffix
  }

  /** The periods in which some activity within the bounds was performed. */
  ghost function ActivePeriods(acts: seq<Timestamp>, rec: Recurrence, start: Option<Timestamp>, end: Option<Timestamp>): set<int> {
    set t | t in acts && InDateRange(t, start, end) :: PeriodOf(t, rec)
  }

  /**
   * `get_number_of_times_completed`: the number of distinct periods with an
   * in-range activity, so several performances in one period count once.
   */
  function NumberOfTimesCompleted(h: Habit, start: Option<Timestamp>, end: Option<Timestamp>): (n: nat)
    ensures n == |ActivePeriods(h.activities, h.recurrence, start, end)|
    ensures n <= |h.activities|
  {
    var g := GroupByPeriod(h.activities, h.recurrence, start, end);
    GroupContents(h.activities, h.recurrence, start, end);
    assert g.Keys == ActivePeriods(h.activities, h.recurrence, start, end) by {
      forall k ensures k in g.Keys <==> k in ActivePeriods(h.activities, h.recurrence, start, end) {
        GroupKeys(h.activities, h.recurrence, start, end, k);
      }
    }
    |g|
  }

  /** Another performance in a period that is already active changes nothing. */
  lemma CompletedIgnoresRepeat(h: Habit, t: Timestamp, start: Option<Timestamp>, end: Option<Timestamp>)
    requires exists u :: u in h.activities && InDateRange(u, start, end) && PeriodOf(u, h.recurrence) == PeriodOf(t, h.recurrence)
    ensures NumberOfTimesCompleted(h.(activities := h.activities + [t]), start, end) == NumberOfTimesCompleted(h, start, end)
  {
    var acts := h.activities + [t];
    assert ActivePeriods(acts, h.recurrence, start, end) == ActivePeriods(h.activities, h.recurrence, start, end) by {
      var u :| u in h.activities && InDateRange(u, start, end) && PeriodOf(u, h.recurrence) == PeriodOf(t, h.recurrence);
      assert u in acts;
    }
  }

  /** A performance in range in a period that was not yet active adds exactly one. */
  lemma CompletedCountsNewPeriod(h: Habit, t: Timestamp, start: Option<Timestamp>, end: Option<Timestamp>)
    requires InDateRange(t, start, end)
    requires forall u :: u in h.activities && InDateRange(u, start, end) ==> PeriodOf(u, h.recurrence) != PeriodOf(t, h.recurrence)
    ensures NumberOfTimesCompleted(h.(activities := h.activities + [t]), start, end) == NumberOfTimesCompleted(h, start, end) + 1
  {
    var acts := h.activities + [t];
    var old_ := ActivePeriods(h.activities, h.recurrence, start, end);
    assert ActivePeriods(acts, h.recurrence, start, end) == old_ + {PeriodOf(t, h.recurrence)} by {
      assert t in acts;
    }
  }

  /** The result of `get_completion_rate`. */
  datatype CompletionStats = CompletionStats(numActivePeriods: int, numTotalPeriods: int, rate: real)

  /**
   * `get_completion_rate(start, end)`: active periods over total periods
   * between `start` (default: the creation moment) and `end` (default:
   * today). The source divides by the total, which is zero when `end` lies in
   * the period just before the period of `start`.
   */
  function CompletionRate(h: Habit, start: Option<Timestamp>, end: Option<Timestamp>, today: Timestamp): (r: Result<CompletionStats>)
    ensures r.Failure? ==> r.error == DivisionByZero
  {
    var s := if start.Some? then start.value else h.createdAt;
    var e := if end.Some? then end.value else today;
    Divide(NumberOfTimesCompleted(h, Some(s), Some(e)), NumPeriodsFromTo(h.recurrence, s, e))
  }

  /** `{"num_active_periods": a, "num_total_periods": t, "rate": a / t}`, or ZeroDivisionError. */
  function Divide(active: int, total: int): (r: Result<CompletionStats>)
    ensures r.Success? <==> total != 0
    ensures r.Failure? ==> r.error == DivisionByZero
    ensures r.Success? ==>
      && r.value.numActivePeriods == active && r.value.numTotalPeriods == total
      && r.value.rate * (total as real) == active as real
      && (0 <= active <= total ==> 0.0 <= r.value.rate <= 1.0)
  {
    if total == 0 then Failure(DivisionByZero)
    else Success(CompletionStats(active, total, Ratio(active, total)))
  }

  /** Keys that are multiples of `step` within `[lo, hi]` number at most `(hi - lo) / step + 1`. */
  lemma {:induction false} AlignedCount(keys: set<int>, lo: int, hi: int, step: int)
    requires step == 1 || step == 7
    requires lo % step == 0 && hi % step == 0 && lo <= hi + step
    requires forall k :: k in keys ==> k % step == 0 && lo <= k <= hi
    ensures |keys| * step <= hi - lo + step
    decreases hi - lo + step
  {
    if lo > hi {
      assert keys == {} by {
        forall k | k in keys ensures false { }
      }
    } else {
      var rest := keys - {hi};
      forall k | k in rest ensures k <= hi - step {
        assert k < hi;
        assert k == step * (k / step) && hi == step * (hi / step);
      }
      AlignedCount(rest, lo, hi - step, step);
    }
  }

  /** `a / t` as an exact fraction: the number that `t` times gives `a`. */
  function Ratio(a: int, t: int): (q: real)
    requires t != 0
    ensures q * (t as real) == a as real
    ensures 0 <= a <= t ==> 0.0 <= q <= 1.0
  {
    a as real / t as real
  }

  /** The active periods between two moments lie on the period grid from the first one's period to the last one's. */
  lemma ActivePeriodsBetween(h: Habit, s: Timestamp, e: Timestamp)
    ensures forall k :: k in ActivePeriods(h.activities, h.recurrence, Some(s), Some(e)) ==>
      k % IntervalDays(h.recurrence) == 0 && PeriodOf(s, h.recurrence) <= k <= PeriodOf(e, h.recurrence)
  {
    var rec := h.recurrence;
    forall k | k in ActivePeriods(h.activities, rec, Some(s), Some(e))
      ensures k % IntervalDays(rec) == 0 && PeriodOf(s, rec) <= k <= PeriodOf(e, rec)
    {
      var t :| t in h.activities && InDateRange(t, Some(s), Some(e)) && PeriodOf(t, rec) == k;
      PeriodOfMonotone(s, t, rec);
      PeriodOfMonotone(t, e, rec);
    }
  }

  /** Between two ordered moments there is at least one period, and no more active periods than periods. */
  lemma {:induction false} ActiveAtMostTotal(h: Habit, s: Timestamp, e: Timestamp)
    requires AtOrBefore(s, e)
    ensures 1 <= NumPeriodsFromTo(h.recurrence, s, e)
    ensures NumberOfTimesCompleted(h, Some(s), Some(e)) <= NumPeriodsFromTo(h.recurrence, s, e)
  {
    var rec, step := h.recurrence, IntervalDays(h.recurrence);
    var lo, hi := PeriodOf(s, rec), PeriodOf(e, rec);
    var total := NumPeriodsFromTo(rec, s, e);
    var keys := ActivePeriods(h.activities, rec, Some(s), Some(e));
    PeriodOfMonotone(s, e, rec);
    PeriodCountMatchesKeys(rec, s, e);
    ActivePeriodsBetween(h, s, e);
    AlignedCount(keys, lo, hi, step);
    assert total * step == hi - lo + step && |keys| * step <= hi - lo + step;
    if step == 7 {
      assert |keys| * 7 <= total * 7;
    }
  }

  /**
   * The completion rate's denominator counts the periods from `start` to
   * `end`: when `start` is not after `end` the division is defined, the total
   * is at least one, and the active periods are among them, so the rate lies
   * in [0, 1].
   */
  lemma CompletionRateBounds(h: Habit, start: Option<Timestamp>, end: Option<Timestamp>, today: Timestamp)
    requires AtOrBefore(if start.Some? then start.value else h.createdAt, if end.Some? then end.value else today)
    ensures var r := CompletionRate(h, start, end, today);
      && r.Success?
      && 1 <= r.value.numTotalPeriods
      && 0 <= r.value.numActivePeriods <= r.value.numTotalPeriods
      && 0.0 <= r.value.rate <= 1.0
  {
    var s := if start.Some? then start.value else h.createdAt;
    var e := if end.Some? then end.value else today;
    ActiveAtMostTotal(h, s, e);
  }

  /**
   * When the division is undefined, and what the counts are when it is
   * defined: the total is zero exactly when the end moment's period is the
   * one just before the start moment's; otherwise the counts are those of
   * the bounded grouping and of the periods between the two moments.
   */
  lemma CompletionRateSpec(h: Habit, start: Option<Timestamp>, end: Option<Timestamp>, today: Timestamp)
    ensures var s, e := (if start.Some? then start.value else h.createdAt), (if end.Some? then end.value else today);
      var r := CompletionRate(h, start, end, today);
      && (r.Failure? <==> PeriodOf(e, h.recurrence) + IntervalDays(h.recurrence) == PeriodOf(s, h.recurrence))
      && (r.Failure? ==> r.error == DivisionByZero)
      && (r.Success? ==>
            && r.value.numActivePeriods == NumberOfTimesCompleted(h, Some(s), Some(e))
            && r.value.numTotalPeriods == NumPeriodsFromTo(h.recurrence, s, e))
  {
    var s, e := (if start.Some? then start.value else h.createdAt), (if end.Some? then end.value else today);
    NoPeriodsBetween(h.recurrence, s, e);
  }

  /** An end before the start leaves every activity out of range. */
  lemma CompletedNothingBackwards(h: Habit, s: Timestamp, e: Timestamp)
    requires !AtOrBefore(s, e)
    ensures NumberOfTimesCompleted(h, Some(s), Some(e)) == 0
  {
    var keys := ActivePeriods(h.activities, h.recurrence, Some(s), Some(e));
    forall k | k in keys ensures false {
      var t :| t in h.activities && InDateRange(t, Some(s), Some(e)) && PeriodOf(t, h.recurrence) == k;
      AtOrBeforeTransitive(s, t, e);
    }
    assert keys == {};
  }
}
