/**
 * `group_activities_by_performance_period` and `get_streak_accurate_params`
 * of modules/utils.py. Activities are modelled by their `performed_at`
 * timestamps, the only attribute the grouping reads.
 */
module Grouping {
  import opened Wrappers
  import opened LocalTime
  import opened PeriodMath

  /** Period key (a day number) to the activities performed in that period, in input order. */
  type Groups = map<int, seq<Timestamp>>

  /** `make_date_range_fn`: each bound is optional and inclusive. */
  predicate InDateRange(t: Timestamp, start: Option<Timestamp>, end: Option<Timestamp>) {
    match (start, end)
    case (Some(s), Some(e)) => AtOrBefore(s, t) && AtOrBefore(t, e)
    case (None, None) => true
    case (None, Some(e)) => AtOrBefore(t, e)
    case (Some(s), None) => AtOrBefore(s, t)
  }

  /** `filter(check_date_in_range, activities)`. */
  function FilterInRange(acts: seq<Timestamp>, start: Option<Timestamp>, end: Option<Timestamp>): (r: seq<Timestamp>)
    ensures |r| <= |acts|
    ensures forall t :: t in r <==> t in acts && InDateRange(t, start, end)
    ensures forall t :: multiset(r)[t] == if InDateRange(t, start, end) then multiset(acts)[t] else 0
    decreases |acts|
  {
    if acts == [] then []
    else
      var init, last := acts[..|acts| - 1], acts[|acts| - 1];
      assert acts == init + [last];
      assert multiset(acts) == multiset(init) + multiset{last};
      FilterInRange(init, start, end) + (if InDateRange(last, start, end) then [last] else [])
  }

  /** The activities of `acts` whose period key is `k`, in input order. */
  function WithKey(acts: seq<Timestamp>, rec: Recurrence, k: int): (r: seq<Timestamp>)
    ensures forall t :: t in r <==> t in acts && PeriodOf(t, rec) == k
    ensures forall t :: multiset(r)[t] == if PeriodOf(t, rec) == k then multiset(acts)[t] else 0
    decreases |acts|
  {
    if acts == [] then []
    else
      var init, last := acts[..|acts| - 1], acts[|acts| - 1];
      assert acts == init + [last];
      assert multiset(acts) == multiset(init) + multiset{last};
      WithKey(init, rec, k) + (if PeriodOf(last, rec) == k then [last] else [])
  }

  /** `group_by_date`: append one activity to the list of its period, creating the list if needed. */
  function AddToGroup(grouped: Groups, t: Timestamp, rec: Recurrence): Groups {
    var k := PeriodOf(t, rec);
    grouped[k := (if k in grouped then grouped[k] else []) + [t]]
  }

  /** `reduce(group_by_date, augmented_activities, {})`: a left fold over the activities. */
  function Collect(acts: seq<Timestamp>, rec: Recurrence): Groups
    decreases |acts|
  {
    if acts == [] then map[]
    else AddToGroup(Collect(acts[..|acts| - 1], rec), acts[|acts| - 1], rec)
  }

  /** The fold builds, for each period that occurs, exactly that period's activities in order. */
  lemma CollectSpec(acts: seq<Timestamp>, rec: Recurrence)
    ensures var g := Collect(acts, rec);
      && (forall k :: k in g <==> WithKey(acts, rec, k) != [])
      && (forall k :: k in g ==> g[k] == WithKey(acts, rec, k))
      && |g| <= |acts|
  {
    forall k ensures var g := Collect(acts, rec); (k in g <==> WithKey(acts, rec, k) != []) && (k in g ==> g[k] == WithKey(acts, rec, k)) {
      CollectAt(acts, rec, k);
    }
    CollectSize(acts, rec);
  }

  /** The list the fold builds for one period. */
  lemma {:induction false} CollectAt(acts: seq<Timestamp>, rec: Recurrence, k: int)
    ensures var g := Collect(acts, rec);
      && (k in g <==> WithKey(acts, rec, k) != [])
      && (k in g ==> g[k] == WithKey(acts, rec, k))
    decreases |acts|
  {
    if acts != [] {
      var init, last := acts[..|acts| - 1], acts[|acts| - 1];
      assert acts == init + [last];
      CollectAt(init, rec, k);
      WithKeyStep(init, last, rec, k);
    }
  }

  /** The fold makes no more groups than there are activities. */
  lemma {:induction false} CollectSize(acts: seq<Timestamp>, rec: Recurrence)
    ensures |Collect(acts, rec)| <= |acts|
    decreases |acts|
  {
    if acts != [] {
      CollectSize(acts[..|acts| - 1], rec);
    }
  }

  /** How appending one activity changes the list of one period. */
  lemma WithKeyStep(init: seq<Timestamp>, last: Timestamp, rec: Recurrence, k: int)
    ensures WithKey(init + [last], rec, k) == WithKey(init, rec, k) + (if PeriodOf(last, rec) == k then [last] else [])
  {
    assert (init + [last])[..|init + [last]| - 1] == init;
  }

  /** `group_activities_by_performance_period(activities, recurrence, start_date, end_date)`. */
  function GroupByPeriod(acts: seq<Timestamp>, rec: Recurrence, start: Option<Timestamp>, end: Option<Timestamp>): Groups {
    Collect(FilterInRange(acts, start, end), rec)
  }

  /** A period is a key of the grouping exactly when some in-range activity falls in it. */
  lemma GroupKeys(acts: seq<Timestamp>, rec: Recurrence, start: Option<Timestamp>, end: Option<Timestamp>, k: int)
    ensures k in GroupByPeriod(acts, rec, start, end) <==>
      exists t :: t in acts && InDateRange(t, start, end) && PeriodOf(t, rec) == k
  {
    var f := FilterInRange(acts, start, end);
    CollectSpec(f, rec);
    if k in Collect(f, rec) {
      var t := WithKey(f, rec, k)[0];
      assert t in WithKey(f, rec, k);
    }
    if exists t :: t in acts && InDateRange(t, start, end) && PeriodOf(t, rec) == k {
      var t :| t in acts && InDateRange(t, start, end) && PeriodOf(t, rec) == k;
      assert t in WithKey(f, rec, k);
    }
  }

  /**
   * Each list is non-empty and holds exactly the in-range activities of its
   * period, as often as the input holds them; the grouping is no larger than
   * the input.
   */
  lemma GroupContents(acts: seq<Timestamp>, rec: Recurrence, start: Option<Timestamp>, end: Option<Timestamp>)
    ensures var g := GroupByPeriod(acts, rec, start, end);
      && (forall k :: k in g ==> g[k] != [])
      && (forall k, t :: k in g && t in g[k] <==> t in acts && InDateRange(t, start, end) && PeriodOf(t, rec) == k)
      && (forall k, t :: k in g && InDateRange(t, start, end) && PeriodOf(t, rec) == k ==>
            multiset(g[k])[t] == multiset(acts)[t])
      && |g| <= |acts|
  {
    var f := FilterInRange(acts, start, end);
    CollectSpec(f, rec);
    var g := Collect(f, rec);
    forall k, t | t in acts && InDateRange(t, start, end) && PeriodOf(t, rec) == k ensures k in g {
      assert t in WithKey(f, rec, k);
    }
  }

  /** The list of one period holds exactly the in-range activities of that period. */
  lemma GroupMembers(acts: seq<Timestamp>, rec: Recurrence, start: Option<Timestamp>, end: Option<Timestamp>, k: int)
    requires k in GroupByPeriod(acts, rec, start, end)
    ensures forall t :: t in GroupByPeriod(acts, rec, start, end)[k] <==> t in acts && InDateRange(t, start, end) && PeriodOf(t, rec) == k
  {
    GroupContents(acts, rec, start, end);
  }

  /** The earliest of a non-empty list of timestamps: `sorted(...)[0]`. */
  function Earliest(s: seq<Timestamp>): (r: Timestamp)
    requires s != []
    ensures r in s && forall t :: t in s ==> AtOrBefore(r, t)
  {
    if |s| == 1 then s[0]
    else
      var rest := Earliest(s[1..]);
      assert forall t :: t in s ==> t == s[0] || t in s[1..];
      if AtOrBefore(s[0], rest) then s[0] else rest
  }

  /** The latest of a non-empty list of timestamps: `sorted(...)[-1]`. */
  function Latest(s: seq<Timestamp>): (r: Timestamp)
    requires s != []
    ensures r in s && forall t :: t in s ==> AtOrBefore(t, r)
  {
    if |s| == 1 then s[0]
    else
      var rest := Latest(s[1..]);
      assert forall t :: t in s ==> t == s[0] || t in s[1..];
      if AtOrBefore(rest, s[0]) then s[0] else rest
  }

  /** A streak record: accurate first and last performance and the number of periods. */
  datatype Streak = Streak(start: Timestamp, end: Timestamp, length: int)

  /**
   * `get_streak_accurate_params`: the earliest activity of the first period,
   * the latest of the last, and the day or week count between them. The
   * source indexes `[0]` and `[-1]`, so both lists must be non-empty.
   */
  function AccurateParams(startActs: seq<Timestamp>, endActs: seq<Timestamp>, rec: Recurrence): (r: Streak)
    requires startActs != [] && endActs != []
    ensures r.start in startActs && forall t :: t in startActs ==> AtOrBefore(r.start, t)
    ensures r.end in endActs && forall t :: t in endActs ==> AtOrBefore(t, r.end)
  {
    var start := Earliest(startActs);
    var end := Latest(endActs);
    Streak(start, end, NumPeriodsFromTo(rec, start, end))
  }

  /**
   * When the start list is one period's activities and the end list another's,
   * the length is the number of periods from the first key to the last.
   */
  lemma AccurateLength(startActs: seq<Timestamp>, endActs: seq<Timestamp>, rec: Recurrence, ks: int, ke: int)
    requires startActs != [] && endActs != []
    requires forall t :: t in startActs ==> PeriodOf(t, rec) == ks
    requires forall t :: t in endActs ==> PeriodOf(t, rec) == ke
    ensures AccurateParams(startActs, endActs, rec).length * IntervalDays(rec) == ke - ks + IntervalDays(rec)
  {
    var r := AccurateParams(startActs, endActs, rec);
    PeriodCountMatchesKeys(rec, r.start, r.end);
  }
}
