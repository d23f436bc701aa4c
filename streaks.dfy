/**
 * `get_all_streaks` and `get_latest_streak` of classes/habit.py. Both work
 * on the sorted list of active period keys (`sorted(dict)` of the grouping).
 * A run of consecutive periods is described by indices into that list; the
 * source's loops are methods proved equal to the reference functions
 * `RunsFrom` and `ChainEnd`, and the properties of those are lemmas.
 */
module Streaks {
  import opened Wrappers
  import opened LocalTime
  import opened PeriodMath
  import opened Grouping
  import opened Habits
  import opened Ordering

  predicate StrictlyIncreasing(ks: seq<int>) {
    forall i, j :: 0 <= i < j < |ks| ==> ks[i] < ks[j]
  }

  predicate StrictlyDecreasing(ks: seq<int>) {
    forall i, j :: 0 <= i < j < |ks| ==> ks[i] > ks[j]
  }

  /** The least element of a non-empty set, found by removing elements one at a time. */
  ghost function LeastOf(s: set<int>): (m: int)
    requires s != {}
    ensures m in s && forall x :: x in s ==> m <= x
    decreases |s|
  {
    assert !(forall z :: z !in s) by { if forall z :: z !in s { assert false; } }
    var y :| y in s;
    if s == {y} then y
    else
      var m := LeastOf(s - {y});
      assert forall x :: x in s ==> x == y || x in s - {y};
      if y < m then y else m
  }

  function SetMin(s: set<int>): (m: int)
    requires s != {}
    ensures m in s && forall x :: x in s ==> m <= x
  {
    assert LeastOf(s) in s && forall x :: x in s ==> LeastOf(s) <= x;
    var m :| m in s && forall x :: x in s ==> m <= x;
    m
  }

  /** `sorted(keys)`: the keys in ascending order, each once. */
  function Ascending(s: set<int>): (ks: seq<int>)
    ensures StrictlyIncreasing(ks)
    ensures forall k :: k in ks <==> k in s
    ensures |ks| == |s|
    decreases |s|
  {
    if s == {} then []
    else
      var m := SetMin(s);
      [m] + Ascending(s - {m})
  }

  /** `sorted(keys, reverse=True)`: the keys in descending order, each once. */
  function Descending(s: set<int>): (ks: seq<int>)
    ensures StrictlyDecreasing(ks)
    ensures forall k :: k in ks <==> k in s
    ensures |ks| == |s|
  {
    var up := Ascending(s);
    var r := seq(|up|, i requires 0 <= i < |up| => up[|up| - 1 - i]);
    assert forall k :: k in r <==> k in up by {
      forall k ensures k in r <==> k in up {
        if k in up {
          var i :| 0 <= i < |up| && up[i] == k;
          assert r[|up| - 1 - i] == k;
        }
      }
    }
    r
  }

  // ---- runs of consecutive periods in ascending keys ----

  /** Every step from index `p` to index `q` is exactly one interval. */
  predicate Chained(ks: seq<int>, p: int, q: int, interval: int) {
    0 <= p <= q < |ks| && forall m :: p <= m < q ==> Gap(ks, m) == interval
  }

  /** The distance from the key at index `m` to the next one. */
  function Gap(ks: seq<int>, m: int): int
    requires 0 <= m < |ks| - 1
  {
    ks[m + 1] - ks[m]
  }

  /** A streak as `get_all_streaks` reports it: two or more chained periods that cannot be extended. */
  predicate MaximalRun(ks: seq<int>, p: int, q: int, interval: int) {
    && Chained(ks, p, q, interval)
    && p < q
    && (p == 0 || Gap(ks, p - 1) != interval)
    && (q == |ks| - 1 || Gap(ks, q) != interval)
  }

  /** The first and last period key of a streak, `(streak_start, dt_string)` in the source. */
  datatype Span = Span(first: int, last: int)

  /** The last index of the chain of consecutive periods that starts at index `i`. */
  function RunEnd(ks: seq<int>, i: int, interval: int): (j: int)
    requires 0 <= i < |ks|
    ensures i <= j < |ks| && Chained(ks, i, j, interval)
    ensures j == |ks| - 1 || Gap(ks, j) != interval
    decreases |ks| - i
  {
    if i + 1 < |ks| && Gap(ks, i) == interval then RunEnd(ks, i + 1, interval) else i
  }

  /** A chain from `i` that cannot be continued ends where `RunEnd` says. */
  lemma {:induction false} RunEndUnique(ks: seq<int>, i: int, q: int, interval: int)
    requires Chained(ks, i, q, interval)
    requires q == |ks| - 1 || Gap(ks, q) != interval
    ensures RunEnd(ks, i, interval) == q
    decreases q - i
  {
    if i < q {
      assert Gap(ks, i) == interval;
      RunEndUnique(ks, i + 1, q, interval);
    }
  }

  /** The (first key, last key) pairs of the streaks found from index `i` onwards. */
  function RunsFrom(ks: seq<int>, i: int, interval: int): seq<Span>
    requires 0 <= i <= |ks|
    decreases |ks| - i
  {
    if i == |ks| then []
    else
      var j := RunEnd(ks, i, interval);
      if j > i then [Span(ks[i], ks[j])] + RunsFrom(ks, j + 1, interval) else RunsFrom(ks, j + 1, interval)
  }

  /** Every pair found from index `i` is a maximal run of two or more periods that starts at or after `i`. */
  lemma {:induction false} RunsFromSound(ks: seq<int>, i: int, interval: int)
    requires 0 <= i <= |ks|
    requires i == 0 || i == |ks| || Gap(ks, i - 1) != interval
    ensures forall r :: r in RunsFrom(ks, i, interval) ==>
      exists p, q :: i <= p && MaximalRun(ks, p, q, interval) && r == Span(ks[p], ks[q])
    decreases |ks| - i
  {
    if i < |ks| {
      var j := RunEnd(ks, i, interval);
      var rest := RunsFrom(ks, j + 1, interval);
      RunsFromSound(ks, j + 1, interval);
      if j > i {
        assert RunsFrom(ks, i, interval) == [Span(ks[i], ks[j])] + rest;
        assert MaximalRun(ks, i, j, interval);
      }
    }
  }

  /** Every maximal run of two or more periods that starts at or after a chain boundary `i` is found. */
  lemma {:induction false} RunsFromComplete(ks: seq<int>, i: int, p: int, q: int, interval: int)
    requires 0 <= i <= |ks|
    requires i == 0 || i == |ks| || Gap(ks, i - 1) != interval
    requires i <= p && MaximalRun(ks, p, q, interval)
    ensures Span(ks[p], ks[q]) in RunsFrom(ks, i, interval)
    decreases |ks| - i
  {
    var j := RunEnd(ks, i, interval);
    RunsFromAt(ks, i, j, interval);
    NoRunInsideChain(ks, i, j, p, q, interval);
    if p == i {
      RunEndUnique(ks, i, q, interval);
      assert RunsFrom(ks, i, interval)[0] == Span(ks[p], ks[q]);
    } else {
      RunsFromComplete(ks, j + 1, p, q, interval);
    }
  }

  /** No maximal run starts strictly inside a chain. */
  lemma NoRunInsideChain(ks: seq<int>, i: int, j: int, p: int, q: int, interval: int)
    requires Chained(ks, i, j, interval)
    requires i <= p && MaximalRun(ks, p, q, interval)
    ensures p == i || p > j
  {
  }

  /** The streaks found from index `i` start no earlier than `ks[i]`, each ends after it starts, and both ends are keys. */
  lemma {:induction false} RunsFromBounds(ks: seq<int>, i: int, interval: int)
    requires StrictlyIncreasing(ks)
    requires 0 <= i <= |ks|
    ensures forall r :: r in RunsFrom(ks, i, interval) ==> i < |ks| && ks[i] <= r.first < r.last && r.first in ks && r.last in ks
    decreases |ks| - i
  {
    if i < |ks| {
      var j := RunEnd(ks, i, interval);
      RunsFromBounds(ks, j + 1, interval);
      if j > i {
        assert RunsFrom(ks, i, interval) == [Span(ks[i], ks[j])] + RunsFrom(ks, j + 1, interval);
      }
    }
  }

  /** The streaks come in ascending order and do not overlap. */
  lemma {:induction false} RunsFromOrdered(ks: seq<int>, i: int, interval: int)
    requires StrictlyIncreasing(ks)
    requires 0 <= i <= |ks|
    ensures PairsOrdered(RunsFrom(ks, i, interval))
    decreases |ks| - i
  {
    if i < |ks| {
      var j := RunEnd(ks, i, interval);
      RunsFromAt(ks, i, j, interval);
      RunsFromOrdered(ks, j + 1, interval);
      if j > i {
        var rest := RunsFrom(ks, j + 1, interval);
        RunsFromBounds(ks, j + 1, interval);
        forall r | r in rest ensures ks[j] < r.first {
          assert ks[j] < ks[j + 1];
        }
        ConsOrdered(Span(ks[i], ks[j]), rest);
      }
    }
  }

  /** Each pair ends before the next one starts. */
  predicate PairsOrdered(rs: seq<Span>) {
    forall x, y :: 0 <= x < y < |rs| ==> rs[x].last < rs[y].first
  }

  lemma ConsOrdered(h: Span, rest: seq<Span>)
    requires PairsOrdered(rest)
    requires forall r :: r in rest ==> h.last < r.first
    ensures PairsOrdered([h] + rest)
  {
    var rs := [h] + rest;
    forall x, y | 0 <= x < y < |rs| ensures rs[x].last < rs[y].first {
      assert rs[y] == rest[y - 1];
      if x > 0 {
        assert rs[x] == rest[x - 1];
      }
    }
  }

  /** Where a chain from `s` ends, the streaks from `s` are that chain (if it is long enough) and those after it. */
  lemma RunsFromAt(ks: seq<int>, s: int, q: int, interval: int)
    requires Chained(ks, s, q, interval)
    requires q == |ks| - 1 || Gap(ks, q) != interval
    ensures q > s ==> RunsFrom(ks, s, interval) == [Span(ks[s], ks[q])] + RunsFrom(ks, q + 1, interval)
    ensures q == s ==> RunsFrom(ks, s, interval) == RunsFrom(ks, q + 1, interval)
  {
    RunEndUnique(ks, s, q, interval);
  }

  /** The source's test `days_to_next_date == streak_length * interval` checks the last step alone. */
  lemma StepTest(first: int, last: int, next: int, len: int, n: int)
    requires last - first == (len - 1) * n
    ensures (next - first == len * n) <==> (next - last == n)
  {
  }

  /** Chained keys advance one interval per index. */
  lemma {:induction false} ChainSpan(ks: seq<int>, p: int, q: int, interval: int)
    requires Chained(ks, p, q, interval)
    ensures ks[q] - ks[p] == (q - p) * interval
    decreases q - p
  {
    if q > p {
      assert Gap(ks, q - 1) == interval;
      ChainSpan(ks, p, q - 1, interval);
    }
  }

  /** The day-numbered keys of a grouping are multiples of the interval. */
  predicate Aligned(ks: seq<int>, interval: int)
    requires interval > 0
  {
    forall i :: 0 <= i < |ks| ==> ks[i] % interval == 0
  }

  /**
   * With aligned, ascending keys a maximal run is maximal in calendar terms:
   * the period one interval before its first period and the one after its
   * last period are both inactive.
   */
  lemma MaximalRunInKeys(ks: seq<int>, p: int, q: int, rec: Recurrence)
    requires StrictlyIncreasing(ks) && Aligned(ks, IntervalDays(rec))
    requires MaximalRun(ks, p, q, IntervalDays(rec))
    ensures ks[p] - IntervalDays(rec) !in ks
    ensures ks[q] + IntervalDays(rec) !in ks
  {
    var n := IntervalDays(rec);
    if ks[p] - n in ks {
      var m :| 0 <= m < |ks| && ks[m] == ks[p] - n;
      AlignedGap(ks[p - 1], ks[p], n);
    }
    if ks[q] + n in ks {
      var m :| 0 <= m < |ks| && ks[m] == ks[q] + n;
      AlignedGap(ks[q], ks[q + 1], n);
    }
  }

  // ---- get_all_streaks ----

  /** Closing the chain from `s` at `idx`: the pair it contributes, followed by the streaks after it. */
  lemma CloseChain(ks: seq<int>, s: int, idx: int, interval: int, before: seq<Span>, after: seq<Span>)
    requires Chained(ks, s, idx, interval)
    requires idx == |ks| - 1 || Gap(ks, idx) != interval
    requires before + RunsFrom(ks, s, interval) == RunsFrom(ks, 0, interval)
    requires after == if idx > s then before + [Span(ks[s], ks[idx])] else before
    ensures after + RunsFrom(ks, idx + 1, interval) == RunsFrom(ks, 0, interval)
  {
    RunsFromAt(ks, s, idx, interval);
    if idx > s {
      ConcatAssoc(before, [Span(ks[s], ks[idx])], RunsFrom(ks, idx + 1, interval));
    }
  }

  /** The source's test on the distance from the start of the streak decides whether the chain goes on. */
  lemma ContinueTest(ks: seq<int>, s: int, idx: int, interval: int, len: int)
    requires Chained(ks, s, idx, interval) && idx + 1 < |ks| && len == idx - s + 1
    ensures ks[idx + 1] - ks[s] == len * interval <==> Gap(ks, idx) == interval
  {
    ChainSpan(ks, s, idx, interval);
    StepTest(ks[s], ks[idx], ks[idx + 1], len, interval);
  }

  /**
   * The scan of `get_all_streaks` over the ascending period keys: the
   * (first, last) key pairs of every run of two or more consecutive periods.
   */
  method ScanStreakBounds(ks: seq<int>, rec: Recurrence) returns (streaks: seq<Span>)
    ensures streaks == RunsFrom(ks, 0, IntervalDays(rec))
  {
    streaks := [];
    var streakStart: Option<int> := None;
    var streakLength := 0;
    var interval := if rec == Daily then 1 else 7;
    ghost var s := 0;
    for idx := 0 to |ks|
      invariant interval == IntervalDays(rec)
      invariant s == idx || (s < idx < |ks|)
      invariant streaks + RunsFrom(ks, s, interval) == RunsFrom(ks, 0, interval)
      invariant idx < |ks| ==> (streakStart.None? <==> s == idx)
      invariant streakStart.None? ==> streakLength == 0
      invariant streakStart.Some? && idx < |ks| ==> streakStart.value == ks[s] && streakLength == idx - s + 1 && Chained(ks, s, idx, interval)
    {
      if idx + 1 < |ks| {
        if streakStart.None? {
          streakStart := Some(ks[idx]);
          streakLength := 1;
        }
        var daysToNextDate := ks[idx + 1] - streakStart.value;
        ContinueTest(ks, s, idx, interval, streakLength);
        if daysToNextDate == streakLength * interval {
          streakLength := streakLength + 1;
        } else {
          ghost var before := streaks;
          if streakLength > 1 {
            streaks := streaks + [Span(streakStart.value, ks[idx])];
          }
          CloseChain(ks, s, idx, interval, before, streaks);
          streakStart := None;
          streakLength := 0;
          s := idx + 1;
        }
      } else {
        ghost var before := streaks;
        if streakLength > 1 {
          streaks := streaks + [Span(streakStart.value, ks[idx])];
        }
        CloseChain(ks, s, idx, interval, before, streaks);
        s := idx + 1;
      }
    }
  }

  // ---- the streaks of a habit ----

  /** A period in which the habit was performed. */
  ghost predicate Active(h: Habit, k: int) {
    exists t :: t in h.activities && PeriodOf(t, h.recurrence) == k
  }

  /** `group_activities_by_performance_period(activities, recurrence)`: no date bounds. */
  function AllGroups(h: Habit): (g: Groups)
    ensures forall k :: k in g <==> Active(h, k)
    ensures forall k :: k in g ==> g[k] != []
    ensures |g| <= |h.activities|
  {
    var g := GroupByPeriod(h.activities, h.recurrence, None, None);
    GroupContents(h.activities, h.recurrence, None, None);
    assert forall k :: k in g <==> Active(h, k) by {
      forall k ensures k in g <==> Active(h, k) {
        GroupKeys(h.activities, h.recurrence, None, None, k);
      }
    }
    g
  }

  /** The list of a period holds exactly the habit's activities in that period. */
  lemma AllGroupsContents(h: Habit, k: int)
    requires k in AllGroups(h)
    ensures forall t :: t in AllGroups(h)[k] <==> t in h.activities && PeriodOf(t, h.recurrence) == k
  {
    GroupMembers(h.activities, h.recurrence, None, None, k);
  }

  /** `sorted(dict_activities_per_period)`: the active periods, oldest first. */
  function ActiveDates(h: Habit): (ks: seq<int>)
    ensures StrictlyIncreasing(ks) && Aligned(ks, IntervalDays(h.recurrence))
    ensures forall k :: k in ks <==> k in AllGroups(h)
    ensures |ks| <= |h.activities|
  {
    var g := AllGroups(h);
    var ks := Ascending(g.Keys);
    assert Aligned(ks, IntervalDays(h.recurrence)) by {
      forall i | 0 <= i < |ks| ensures ks[i] % IntervalDays(h.recurrence) == 0 {
        AllGroupsContents(h, ks[i]);
        assert g[ks[i]][0] in g[ks[i]];
      }
    }
    ks
  }

  /** The (first period, last period) pairs that the scan of `get_all_streaks` collects. */
  function StreakBounds(h: Habit): (pairs: seq<Span>)
    ensures forall i :: 0 <= i < |pairs| ==> pairs[i].first in AllGroups(h) && pairs[i].last in AllGroups(h)
  {
    var ks := ActiveDates(h);
    var pairs := RunsFrom(ks, 0, IntervalDays(h.recurrence));
    assert forall i :: 0 <= i < |pairs| ==> pairs[i].first in ks && pairs[i].last in ks by {
      RunsFromBounds(ks, 0, IntervalDays(h.recurrence));
      forall i | 0 <= i < |pairs| ensures pairs[i].first in ks && pairs[i].last in ks {
        assert pairs[i] in pairs;
      }
    }
    pairs
  }

  /** `get_streak_accurate_params` of the first and last period of each pair. */
  function Details(g: Groups, pairs: seq<Span>, rec: Recurrence): (r: seq<Streak>)
    requires forall k :: k in g ==> g[k] != []
    requires forall i :: 0 <= i < |pairs| ==> pairs[i].first in g && pairs[i].last in g
    ensures |r| == |pairs|
    ensures forall i :: 0 <= i < |pairs| ==> r[i] == AccurateParams(g[pairs[i].first], g[pairs[i].last], rec)
  {
    seq(|pairs|, i requires 0 <= i < |pairs| => AccurateParams(g[pairs[i].first], g[pairs[i].last], rec))
  }

  /** `map(get_streak_accurate_params, streaks)`: the detailed streaks in the order they were found. */
  function ChronologicalStreaks(h: Habit): (r: seq<Streak>)
    ensures |r| == |StreakBounds(h)|
  {
    Details(AllGroups(h), StreakBounds(h), h.recurrence)
  }

  /** The sort key of `get_all_streaks`: the start for "date", the length otherwise. */
  function StreakSortKey(sortBy: string): Streak -> Key {
    if sortBy == "date" then (s: Streak) => TimeKey(s.start) else (s: Streak) => IntKey(s.length)
  }

  /** `get_all_streaks(sort_by, sort_order)`: the detailed streaks, sorted, reversed for "desc". */
  function AllStreaks(h: Habit, sortBy: string, sortOrder: string): seq<Streak> {
    SortByKey(ChronologicalStreaks(h), StreakSortKey(sortBy), sortOrder == "desc")
  }

  /** The source's `get_all_streaks`: the scan, then the details, then the sort. */
  method GetAllStreaks(h: Habit, sortBy: string := "date", sortOrder: string := "desc") returns (streaks: seq<Streak>)
    ensures streaks == AllStreaks(h, sortBy, sortOrder)
  {
    var grouped := AllGroups(h);
    var activeDates := ActiveDates(h);
    var bounds := ScanStreakBounds(activeDates, h.recurrence);
    assert bounds == StreakBounds(h);
    var detailed := Details(grouped, bounds, h.recurrence);
    assert detailed == ChronologicalStreaks(h);
    streaks := SortByKey(detailed, StreakSortKey(sortBy), sortOrder == "desc");
  }

  /**
   * The aligned periods `a` to `b` are a maximal run of two or more active
   * periods: every period between them is active, and the period before `a`
   * and the period after `b` are not.
   */
  ghost predicate IsActiveRun(h: Habit, a: int, b: int) {
    var n := IntervalDays(h.recurrence);
    && a % n == 0 && b % n == 0 && a < b
    && (forall k :: a <= k <= b && k % n == 0 ==> Active(h, k))
    && !Active(h, a - n) && !Active(h, b + n)
  }

  /**
   * What a reported streak is: a maximal run of active periods, its start the
   * earliest activity of the first period, its end the latest activity of the
   * last period, and its length the number of periods in the run.
   */
  ghost predicate IsStreakOf(h: Habit, s: Streak) {
    var rec, n := h.recurrence, IntervalDays(h.recurrence);
    var a, b := PeriodOf(s.start, rec), PeriodOf(s.end, rec);
    && IsActiveRun(h, a, b)
    && s.start in h.activities && (forall t :: t in h.activities && PeriodOf(t, rec) == a ==> AtOrBefore(s.start, t))
    && s.end in h.activities && (forall t :: t in h.activities && PeriodOf(t, rec) == b ==> AtOrBefore(t, s.end))
    && s.length * n == b - a + n && s.length >= 2
  }

  /** Every aligned key between the two ends of a chain is one of its keys. */
  lemma {:induction false} ChainCovers(ks: seq<int>, p: int, q: int, n: int, k: int)
    requires n == 1 || n == 7
    requires Aligned(ks, n) && Chained(ks, p, q, n)
    requires k % n == 0 && ks[p] <= k <= ks[q]
    ensures k in ks
    decreases q - p
  {
    if k != ks[q] {
      assert Gap(ks, q - 1) == n;
      AlignedGap(k, ks[q], n);
      ChainCovers(ks, p, q - 1, n, k);
    }
  }

  /** A chain of `len` periods spans `len` intervals. */
  lemma ChainLength(len: int, p: int, q: int, n: int)
    requires n == 1 || n == 7
    requires len * n == (q - p) * n + n
    ensures len == q - p + 1
  {
  }

  /** A maximal run in the active dates is a maximal run of active periods. */
  lemma MaximalRunIsActiveRun(h: Habit, p: int, q: int)
    requires MaximalRun(ActiveDates(h), p, q, IntervalDays(h.recurrence))
    ensures IsActiveRun(h, ActiveDates(h)[p], ActiveDates(h)[q])
  {
    var ks, n := ActiveDates(h), IntervalDays(h.recurrence);
    forall k | ks[p] <= k <= ks[q] && k % n == 0 ensures Active(h, k) {
      ChainCovers(ks, p, q, n, k);
    }
    MaximalRunInKeys(ks, p, q, h.recurrence);
  }

  /** Each streak found in the scan is a streak of the habit in the sense of `IsStreakOf`. */
  lemma ChronologicalStreakSound(h: Habit, i: int)
    requires 0 <= i < |ChronologicalStreaks(h)|
    ensures IsStreakOf(h, ChronologicalStreaks(h)[i])
  {
    var rec, n := h.recurrence, IntervalDays(h.recurrence);
    var ks, g, pairs := ActiveDates(h), AllGroups(h), StreakBounds(h);
    RunsFromSound(ks, 0, n);
    assert pairs[i] in pairs;
    var p, q :| 0 <= p && MaximalRun(ks, p, q, n) && pairs[i] == Span(ks[p], ks[q]);
    var s := ChronologicalStreaks(h)[i];
    assert s == AccurateParams(g[ks[p]], g[ks[q]], rec);
    AllGroupsContents(h, ks[p]);
    AllGroupsContents(h, ks[q]);
    MaximalRunIsActiveRun(h, p, q);
    AccurateLength(g[ks[p]], g[ks[q]], rec, ks[p], ks[q]);
    ChainSpan(ks, p, q, n);
    ChainLength(s.length, p, q, n);
  }

  /** One interval on from an aligned key is aligned, and so is one interval back. */
  lemma AlignedNext(x: int, n: int)
    requires n == 1 || n == 7
    requires x % n == 0
    ensures (x + n) % n == 0 && (x - n) % n == 0
  {
  }

  /** When the key one interval after `ks[m]` is present, it is the next key. */
  lemma NextKey(ks: seq<int>, n: int, m: int)
    requires n == 1 || n == 7
    requires StrictlyIncreasing(ks) && Aligned(ks, n)
    requires 0 <= m < |ks| && ks[m] + n in ks
    ensures m + 1 < |ks| && Gap(ks, m) == n
  {
    var r :| 0 <= r < |ks| && ks[r] == ks[m] + n;
    assert m < r;
    AlignedGap(ks[m], ks[m + 1], n);
  }

  /** Aligned keys `a` to `b`, all present, with neither neighbour present, are a maximal run. */
  lemma {:induction false} RunOfKeys(ks: seq<int>, n: int, a: int, b: int) returns (p: int, q: int)
    requires n == 1 || n == 7
    requires StrictlyIncreasing(ks) && Aligned(ks, n)
    requires a % n == 0 && b % n == 0 && a < b
    requires forall k :: a <= k <= b && k % n == 0 ==> k in ks
    requires a - n !in ks && b + n !in ks
    ensures MaximalRun(ks, p, q, n) && ks[p] == a && ks[q] == b
  {
    assert a in ks && b in ks;
    p :| 0 <= p < |ks| && ks[p] == a;
    q :| 0 <= q < |ks| && ks[q] == b;
    assert p < q;
    forall m | p <= m < q ensures Gap(ks, m) == n {
      AlignedGap(ks[m], b, n);
      AlignedNext(ks[m], n);
      NextKey(ks, n, m);
    }
    if p > 0 {
      assert ks[p - 1] in ks;
    }
    if q < |ks| - 1 {
      assert ks[q + 1] in ks;
    }
  }

  /** Every maximal run of two or more active periods is among the streaks found. */
  lemma ChronologicalStreaksComplete(h: Habit, a: int, b: int)
    requires IsActiveRun(h, a, b)
    ensures exists i :: (0 <= i < |ChronologicalStreaks(h)|
      && PeriodOf(ChronologicalStreaks(h)[i].start, h.recurrence) == a
      && PeriodOf(ChronologicalStreaks(h)[i].end, h.recurrence) == b)
  {
    var rec, n := h.recurrence, IntervalDays(h.recurrence);
    var ks, g, pairs := ActiveDates(h), AllGroups(h), StreakBounds(h);
    var p, q := RunOfKeys(ks, n, a, b);
    RunsFromComplete(ks, 0, p, q, n);
    assert Span(a, b) in pairs;
    var i := PositionOf(pairs, Span(a, b));
    StreakPeriods(h, i);
  }

  /** A position at which an element of a sequence occurs. */
  lemma PositionOf<T>(s: seq<T>, x: T) returns (i: int)
    requires x in s
    ensures 0 <= i < |s| && s[i] == x
  {
    i :| 0 <= i < |s| && s[i] == x;
  }

  /** The first and last period of each detailed streak are those of its pair. */
  lemma StreakPeriods(h: Habit, i: int)
    requires 0 <= i < |ChronologicalStreaks(h)|
    ensures PeriodOf(ChronologicalStreaks(h)[i].start, h.recurrence) == StreakBounds(h)[i].first
    ensures PeriodOf(ChronologicalStreaks(h)[i].end, h.recurrence) == StreakBounds(h)[i].last
  {
    var g, pairs := AllGroups(h), StreakBounds(h);
    var s := ChronologicalStreaks(h)[i];
    assert s == AccurateParams(g[pairs[i].first], g[pairs[i].last], h.recurrence);
    AllGroupsContents(h, pairs[i].first);
    AllGroupsContents(h, pairs[i].last);
  }

  /** The streaks found do not overlap, and come oldest first. */
  lemma ChronologicalStreaksOrdered(h: Habit)
    ensures var cs := ChronologicalStreaks(h);
      forall i, j :: 0 <= i < j < |cs| ==> PeriodOf(cs[i].end, h.recurrence) < PeriodOf(cs[j].start, h.recurrence)
  {
    var cs, ks, pairs := ChronologicalStreaks(h), ActiveDates(h), StreakBounds(h);
    RunsFromOrdered(ks, 0, IntervalDays(h.recurrence));
    forall i, j | 0 <= i < j < |cs| ensures PeriodOf(cs[i].end, h.recurrence) < PeriodOf(cs[j].start, h.recurrence) {
      assert pairs[i].last < pairs[j].first;
      StreakPeriods(h, i);
      StreakPeriods(h, j);
    }
  }

  /** A habit active in at most one period, in particular one performed at most once, has no streaks. */
  lemma OnePeriodNoStreaks(h: Habit, sortBy: string, sortOrder: string)
    requires |ActiveDates(h)| <= 1
    ensures AllStreaks(h, sortBy, sortOrder) == []
  {
    var ks := ActiveDates(h);
    if |ks| == 1 {
      RunsFromAt(ks, 0, 0, IntervalDays(h.recurrence));
    }
    assert StreakBounds(h) == [];
    assert multiset(AllStreaks(h, sortBy, sortOrder)) == multiset{};
  }

  /**
   * `get_all_streaks`: a permutation of the streaks found, sorted on the
   * requested key in the requested direction, each one a maximal run of two or
   * more periods with accurate ends and length, and none of them missing.
   */
  lemma AllStreaksSpec(h: Habit, sortBy: string, sortOrder: string)
    ensures var r := AllStreaks(h, sortBy, sortOrder);
      && multiset(r) == multiset(ChronologicalStreaks(h))
      && SortedBy(r, StreakSortKey(sortBy), sortOrder == "desc")
      && (forall s :: s in r ==> IsStreakOf(h, s))
      && (forall a, b :: IsActiveRun(h, a, b) ==>
            exists s :: s in r && PeriodOf(s.start, h.recurrence) == a && PeriodOf(s.end, h.recurrence) == b)
  {
    var r, cs := AllStreaks(h, sortBy, sortOrder), ChronologicalStreaks(h);
    forall s | s in r ensures IsStreakOf(h, s) {
      assert s in multiset(cs);
      var i :| 0 <= i < |cs| && cs[i] == s;
      ChronologicalStreakSound(h, i);
    }
    forall a, b | IsActiveRun(h, a, b)
      ensures exists s :: s in r && PeriodOf(s.start, h.recurrence) == a && PeriodOf(s.end, h.recurrence) == b
    {
      ChronologicalStreaksComplete(h, a, b);
      var i :| 0 <= i < |cs| && PeriodOf(cs[i].start, h.recurrence) == a && PeriodOf(cs[i].end, h.recurrence) == b;
      assert cs[i] in multiset(r);
    }
  }
}
