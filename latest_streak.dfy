/**
 * `get_latest_streak` of classes/habit.py: the run of consecutive active
 * periods that ends in the most recent active period, and whether it is
 * still alive on a given day. The walk goes over the period keys newest
 * first; each step back is one interval earlier, which is a chain with
 * step `-interval` in the terms of module Streaks.
 */
module LatestStreaks {
  import opened Wrappers
  import opened LocalTime
  import opened PeriodMath
  import opened Grouping
  import opened Habits
  import opened Streaks

  /** The dictionary `get_latest_streak` returns; the fields are None for a habit never performed. */
  datatype LatestStreak = LatestStreak(
    length: int,
    start: Option<Timestamp>,
    end: Option<Timestamp>,
    isCurrent: Option<bool>,
    canExtendToday: Option<bool>)

  /** `sorted(activities_grouped_by_date, reverse=True)`: the active periods, newest first. */
  function LatestFirst(h: Habit): (ds: seq<int>)
    ensures StrictlyDecreasing(ds) && Aligned(ds, IntervalDays(h.recurrence))
    ensures forall k :: k in ds <==> k in AllGroups(h)
    ensures |ds| <= |h.activities|
    ensures h.activities != [] ==> ds != []
  {
    var g := AllGroups(h);
    var ds := Descending(g.Keys);
    assert Aligned(ds, IntervalDays(h.recurrence)) by {
      forall i | 0 <= i < |ds| ensures ds[i] % IntervalDays(h.recurrence) == 0 {
        AllGroupsContents(h, ds[i]);
        assert g[ds[i]][0] in g[ds[i]];
      }
    }
    assert h.activities != [] ==> Active(h, PeriodOf(h.activities[0], h.recurrence)) by {
      if h.activities != [] {
        assert h.activities[0] in h.activities;
      }
    }
    ds
  }

  /** The index, in the newest-first keys, of the oldest period of the chain that ends in the newest period. */
  function ChainBack(h: Habit): (j: int)
    requires h.activities != []
    ensures 0 <= j < |LatestFirst(h)|
  {
    RunEnd(LatestFirst(h), 0, -IntervalDays(h.recurrence))
  }

  /** `streak_params`: the accurate parameters of the chain that ends in the newest period. */
  function LatestParams(h: Habit): Streak
    requires h.activities != []
  {
    var g, ds := AllGroups(h), LatestFirst(h);
    AccurateParams(g[ds[ChainBack(h)]], g[ds[0]], h.recurrence)
  }

  /**
   * What `get_latest_streak(today)` returns: for a habit never performed, a
   * zero length and no dates or flags; otherwise the accurate parameters of
   * the chain ending in the newest period, current when today's period is
   * that period or the next one, extendable today only in the second case.
   * Naming the next period is `add_interval(active_dates[0], recurrence, 1)`,
   * which overflows after the last day or week of year 9999.
   */
  function LatestStreakOf(h: Habit, today: Timestamp): (r: Result<LatestStreak>)
    ensures r.Failure? <==> h.activities != [] && !(0 <= LatestFirst(h)[0] + IntervalDays(h.recurrence) <= MaxDay)
    ensures r.Failure? ==> r.error == OverflowError
  {
    if |h.activities| == 0 then Success(LatestStreak(0, None, None, None, None))
    else StreakAsOf(LatestParams(h), LatestFirst(h)[0], h.recurrence, today)
  }

  /** The dictionary for a chain with parameters `params` whose newest period is `newest`, seen on `today`. */
  function StreakAsOf(params: Streak, newest: int, rec: Recurrence, today: Timestamp): (r: Result<LatestStreak>)
    ensures r.Failure? <==> !(0 <= newest + IntervalDays(rec) <= MaxDay)
    ensures r.Failure? ==> r.error == OverflowError
  {
    var todayPeriod := PeriodOf(today, rec);
    var next := AddInterval(newest, rec, 1);
    if next.Failure? then Failure(next.error)
    else
      var canExtend := todayPeriod == next.value;
      Success(LatestStreak(params.length, Some(params.start), Some(params.end), Some(todayPeriod == newest || canExtend), Some(canExtend)))
  }

  /**
   * The backward walk of `get_latest_streak` over the newest-first keys: it
   * stops at the first key that breaks the chain and returns the key before
   * it, or the oldest key when none does. The loop guard compares the index
   * with the number of activities, which is never below the number of keys,
   * so the index stays inside the keys.
   */
  method WalkBack(activeDates: seq<int>, numActivities: int, rec: Recurrence) returns (streakStart: int)
    requires |activeDates| > 1 && |activeDates| <= numActivities
    ensures streakStart == activeDates[RunEnd(activeDates, 0, -IntervalDays(rec))]
  {
    var found: Option<int> := None;
    var streakEnd := activeDates[0];
    var streakLength := 1;
    var interval := if rec == Daily then 1 else 7;
    var idx := 1;
    while idx < numActivities && found.None?
      invariant interval == IntervalDays(rec)
      invariant 1 <= idx < |activeDates|
      invariant found.None? ==> streakLength == idx && Chained(activeDates, 0, idx - 1, -interval)
      invariant found.Some? ==> found.value == activeDates[RunEnd(activeDates, 0, -interval)]
      decreases if found.None? then 1 else 0, |activeDates| - idx
    {
      var diff := streakEnd - activeDates[idx];
      ChainSpan(activeDates, 0, idx - 1, -interval);
      StepTest(-activeDates[0], -activeDates[idx - 1], -activeDates[idx], streakLength, interval);
      if diff == interval * streakLength {
        streakLength := streakLength + 1;
        if idx + 1 == |activeDates| {
          RunEndUnique(activeDates, 0, idx, -interval);
          found := Some(activeDates[idx]);
        } else {
          idx := idx + 1;
        }
      } else {
        RunEndUnique(activeDates, 0, idx - 1, -interval);
        found := Some(activeDates[idx - 1]);
      }
    }
    streakStart := found.value;
  }

  /** The source's `get_latest_streak`. */
  method GetLatestStreak(h: Habit, today: Timestamp) returns (r: Result<LatestStreak>)
    ensures r == LatestStreakOf(h, today)
  {
    if |h.activities| == 0 {
      return Success(LatestStreak(0, None, None, None, None));
    }
    var grouped := AllGroups(h);
    var activeDates := LatestFirst(h);
    var streakStart, streakEnd;
    if |activeDates| > 1 {
      streakEnd := activeDates[0];
      streakStart := WalkBack(activeDates, |h.activities|, h.recurrence);
    } else {
      RunEndUnique(activeDates, 0, 0, -IntervalDays(h.recurrence));
      streakStart := activeDates[0];
      streakEnd := activeDates[0];
    }
    var params := AccurateParams(grouped[streakStart], grouped[streakEnd], h.recurrence);
    var todayPeriod := if h.recurrence == Daily then DateOnly(today) else DateOnly(WeekStartDate(today));
    var todayIsPartOfStreak := todayPeriod == activeDates[0];
    var next := AddInterval(activeDates[0], h.recurrence, 1);
    if next.Failure? {
      return Failure(next.error);
    }
    var todayCouldIncreaseStreak := todayPeriod == next.value;
    r := Success(LatestStreak(params.length, Some(params.start), Some(params.end),
      Some(todayIsPartOfStreak || todayCouldIncreaseStreak), Some(todayCouldIncreaseStreak)));
  }

  // ---- properties of the latest streak ----

  /** The newest key is the greatest active period. */
  lemma NewestIsGreatest(h: Habit, k: int)
    requires h.activities != [] && Active(h, k)
    ensures k <= LatestFirst(h)[0]
  {
    var ds := LatestFirst(h);
    var r :| 0 <= r < |ds| && ds[r] == k;
  }

  /** Every aligned key between the two ends of a newest-first chain is one of its keys. */
  lemma {:induction false} BackChainCovers(ds: seq<int>, j: int, n: int, k: int)
    requires n == 1 || n == 7
    requires Aligned(ds, n) && Chained(ds, 0, j, -n)
    requires k % n == 0 && ds[j] <= k <= ds[0]
    ensures k in ds
    decreases j
  {
    if k != ds[j] {
      assert Gap(ds, j - 1) == -n;
      AlignedGap(ds[j], k, n);
      BackChainCovers(ds, j - 1, n, k);
    }
  }

  /** A newest-first chain that cannot be continued has no key one interval before its oldest key. */
  lemma BackChainMaximal(ds: seq<int>, j: int, n: int)
    requires n == 1 || n == 7
    requires StrictlyDecreasing(ds) && Aligned(ds, n) && Chained(ds, 0, j, -n)
    requires j == |ds| - 1 || Gap(ds, j) != -n
    ensures ds[j] - n !in ds
  {
    if ds[j] - n in ds {
      var r :| 0 <= r < |ds| && ds[r] == ds[j] - n;
      assert j < r;
      AlignedGap(ds[j + 1], ds[j], n);
    }
  }

  /** A count of periods whose span is at least one interval is at least one. */
  lemma AtLeastOnePeriod(len: int, n: int)
    requires n == 1 || n == 7
    requires len * n >= n
    ensures len >= 1
  {
  }

  /**
   * No activities gives exactly the sentinel; otherwise, unless naming the
   * next period overflows, every field is present, the dates and length are
   * those of the chain, and the length is at least one.
   */
  lemma LatestStreakPresence(h: Habit, today: Timestamp)
    ensures var r := LatestStreakOf(h, today);
      && (h.activities == [] <==> r == Success(LatestStreak(0, None, None, None, None)))
      && (h.activities != [] && r.Success? ==>
            && r.value.length == LatestParams(h).length >= 1
            && r.value.start == Some(LatestParams(h).start) && r.value.end == Some(LatestParams(h).end)
            && r.value.isCurrent.Some? && r.value.canExtendToday.Some?)
  {
    if h.activities != [] {
      LatestLengthPositive(h);
      StreakAsOfFlags(LatestParams(h), LatestFirst(h)[0], h.recurrence, today);
    }
  }

  /** The latest streak of a performed habit spans at least its newest period. */
  lemma LatestLengthPositive(h: Habit)
    requires h.activities != []
    ensures LatestParams(h).length >= 1
  {
    var ds, j := LatestFirst(h), ChainBack(h);
    LatestStreakPeriods(h);
    assert j == 0 || ds[0] > ds[j];
    AtLeastOnePeriod(LatestParams(h).length, IntervalDays(h.recurrence));
  }

  /** The flags of a chain seen on `today`: current in its newest period and the next, extendable only in the next. */
  lemma StreakAsOfFlags(params: Streak, newest: int, rec: Recurrence, today: Timestamp)
    ensures var r, n, tp := StreakAsOf(params, newest, rec, today), IntervalDays(rec), PeriodOf(today, rec);
      r.Success? ==> r.value == LatestStreak(params.length, Some(params.start), Some(params.end), Some(tp == newest || tp == newest + n), Some(tp == newest + n))
  {
    NextInterval(newest, rec);
  }

  /**
   * The latest streak ends with the latest activity of all, which with the
   * activities in database order is the last one performed, in the greatest
   * active period.
   */
  lemma LatestStreakEnd(h: Habit)
    requires h.activities != []
    ensures var p := LatestParams(h);
      && p.end in h.activities
      && (forall t :: t in h.activities ==> AtOrBefore(t, p.end))
      && (forall k :: Active(h, k) ==> k <= PeriodOf(p.end, h.recurrence))
      && (ActivitiesSorted(h.activities) ==> Some(p.end) == DateLastPerformed(h))
  {
    var rec, n := h.recurrence, IntervalDays(h.recurrence);
    var g, ds := AllGroups(h), LatestFirst(h);
    var end := LatestParams(h).end;
    AllGroupsContents(h, ds[0]);
    assert PeriodOf(end, rec) == ds[0];
    forall k | Active(h, k) ensures k <= PeriodOf(end, rec) {
      NewestIsGreatest(h, k);
    }
    forall t | t in h.activities ensures AtOrBefore(t, end) {
      var k := PeriodOf(t, rec);
      NewestIsGreatest(h, k);
      if k < ds[0] {
        AlignedGap(k, ds[0], n);
      }
    }
    if ActivitiesSorted(h.activities) {
      AtOrBeforeAntisymmetric(end, DateLastPerformed(h).value);
    }
  }

  /**
   * The latest streak is the maximal chain of consecutive active periods
   * ending in the greatest one: every period from its first to its last is
   * active, and the one before its first is not.
   */
  lemma LatestStreakChain(h: Habit)
    requires h.activities != []
    ensures var p := LatestParams(h);
      var rec, n := h.recurrence, IntervalDays(h.recurrence);
      var a, b := PeriodOf(p.start, rec), PeriodOf(p.end, rec);
      && a <= b
      && (forall k :: a <= k <= b && k % n == 0 ==> Active(h, k))
      && !Active(h, a - n)
  {
    var ds, j := LatestFirst(h), ChainBack(h);
    LatestStreakPeriods(h);
    BackChainActive(h);
    assert j == 0 || ds[0] > ds[j];
  }

  /**
   * The latest streak starts with the earliest activity of its first period,
   * and its length counts its periods from the first to the last.
   */
  lemma LatestStreakStart(h: Habit)
    requires h.activities != []
    ensures var p := LatestParams(h);
      var rec, n := h.recurrence, IntervalDays(h.recurrence);
      var a, b := PeriodOf(p.start, rec), PeriodOf(p.end, rec);
      && p.start in h.activities
      && (forall t :: t in h.activities && PeriodOf(t, rec) == a ==> AtOrBefore(p.start, t))
      && p.length * n == b - a + n
  {
    LatestStreakPeriods(h);
  }

  /** The latest streak starts in the period of the chain's oldest key and ends in the newest one. */
  lemma LatestStreakPeriods(h: Habit)
    requires h.activities != []
    ensures var p, ds, j := LatestParams(h), LatestFirst(h), ChainBack(h);
      && PeriodOf(p.start, h.recurrence) == ds[j]
      && PeriodOf(p.end, h.recurrence) == ds[0]
      && p.start in h.activities
      && (forall t :: t in h.activities && PeriodOf(t, h.recurrence) == ds[j] ==> AtOrBefore(p.start, t))
      && p.length * IntervalDays(h.recurrence) == ds[0] - ds[j] + IntervalDays(h.recurrence)
  {
    var g, ds, j := AllGroups(h), LatestFirst(h), ChainBack(h);
    AllGroupsContents(h, ds[j]);
    AllGroupsContents(h, ds[0]);
    AccurateLength(g[ds[j]], g[ds[0]], h.recurrence, ds[j], ds[0]);
  }

  /** The periods of the chain back from the newest key are all active, and the one before it is not. */
  lemma BackChainActive(h: Habit)
    requires h.activities != []
    ensures var ds, j, n := LatestFirst(h), ChainBack(h), IntervalDays(h.recurrence);
      && (forall k :: ds[j] <= k <= ds[0] && k % n == 0 ==> Active(h, k))
      && !Active(h, ds[j] - n)
  {
    var ds, j, n := LatestFirst(h), ChainBack(h), IntervalDays(h.recurrence);
    forall k | ds[j] <= k <= ds[0] && k % n == 0 ensures Active(h, k) {
      BackChainCovers(ds, j, n, k);
    }
    BackChainMaximal(ds, j, n);
  }

  /**
   * The flags: naming the period after the greatest active one fails
   * exactly when that period would start outside 0001-01-01 .. 9999-12-31
   * (after the end, for any real activity); otherwise the
   * streak can be extended today exactly when today's period is that next
   * period, and it is current exactly when today's period is the greatest
   * active one or the next; so extendable implies current.
   */
  lemma LatestStreakFlags(h: Habit, today: Timestamp)
    requires h.activities != []
    ensures var p, n := LatestParams(h), IntervalDays(h.recurrence);
      var tp, b := PeriodOf(today, h.recurrence), PeriodOf(p.end, h.recurrence);
      LatestStreakOf(h, today) ==
        if 0 <= b + n <= MaxDay then Success(LatestStreak(p.length, Some(p.start), Some(p.end), Some(tp == b || tp == b + n), Some(tp == b + n)))
        else Failure(OverflowError)
  {
    LatestStreakPeriods(h);
    StreakAsOfFlags(LatestParams(h), LatestFirst(h)[0], h.recurrence, today);
  }

  /** A daily habit last performed on 9999-12-31 and a weekly one performed in that year's last week have no next period to name. */
  lemma LastPeriodOverflows(h: Habit, today: Timestamp)
    requires h.activities != []
    requires h.recurrence == Daily ==> exists t :: t in h.activities && t.day == MaxDay
    requires h.recurrence == Weekly ==> exists t :: t in h.activities && MaxDay - 4 <= t.day <= MaxDay
    ensures LatestStreakOf(h, today) == Failure(OverflowError)
  {
    var t :| t in h.activities && MaxDay - (if h.recurrence == Daily then 0 else 4) <= t.day <= MaxDay;
    var k := PeriodOf(t, h.recurrence);
    assert Active(h, k);
    NewestIsGreatest(h, k);
    if h.recurrence == Weekly {
      assert k == MaxDay - 4 by {
        var q := k / 7;
        assert k == 7 * q;
        if q <= 521721 || q >= 521723 {
          assert false;
        }
      }
    }
    assert LatestFirst(h)[0] + IntervalDays(h.recurrence) > MaxDay;
  }
}
