/**
 * modules/analytics.py: the per-habit statistics row of `get_habits`, and
 * `sort_habits` and `filter_habits` over lists of such rows. The habits and
 * `today` are inputs; the database read is not part of this model.
 */
module Analytics {
  import opened Wrappers
  import opened LocalTime
  import opened Calendar
  import opened PeriodMath
  import opened Habits
  import opened LatestStreaks
  import opened Ordering

  /** The keys of a statistics row, in the order `compute_properties` inserts them. */
  datatype Field = Title | CreatedAt | RecurrenceField | LastPerformed | NumPeriodsPerformed | CompletionPercent | LatestStreakLength

  /** The value kinds a statistics row holds; `Missing` is the None of a habit never performed. */
  datatype Value = Text(s: string) | Time(t: Timestamp) | Missing | Count(n: int) | Percent(x: real)

  /** One habit's statistics, as `compute_properties` returns them. */
  datatype HabitSummary = HabitSummary(
    title: string,
    createdAt: Timestamp,
    recurrence: string,
    lastPerformed: Option<Timestamp>,
    numPeriodsPerformed: int,
    completionRate: real,
    latestStreak: int)

  /** The stored recurrence string of a habit. */
  function RecurrenceName(rec: Recurrence): string {
    if rec == Daily then "daily" else "weekly"
  }

  /** `h[field]` on a statistics row. */
  function Get(row: HabitSummary, f: Field): (v: Value)
    ensures v.Missing? <==> f == LastPerformed && row.lastPerformed.None?
  {
    match f
    case Title => Text(row.title)
    case CreatedAt => Time(row.createdAt)
    case RecurrenceField => Text(row.recurrence)
    case LastPerformed => if row.lastPerformed.Some? then Time(row.lastPerformed.value) else Missing
    case NumPeriodsPerformed => Count(row.numPeriodsPerformed)
    case CompletionPercent => Percent(row.completionRate)
    case LatestStreakLength => Count(row.latestStreak)
  }

  /**
   * `compute_properties(h)` at `today`: the completion count up to today, the
   * completion rate from creation to today as a percentage, and the length of
   * the latest streak. The rate's division fails first when there are no
   * periods; naming the period after the latest streak fails next when it
   * would start after 9999-12-31.
   */
  function HabitStats(h: Habit, today: Timestamp): (r: Result<HabitSummary>)
    ensures r.Success? <==> CompletionRate(h, None, Some(today), today).Success? && LatestStreakOf(h, today).Success?
    ensures CompletionRate(h, None, Some(today), today).Failure? ==> r == Failure(DivisionByZero)
    ensures r.Failure? && CompletionRate(h, None, Some(today), today).Success? ==> r == Failure(OverflowError)
  {
    var rate := CompletionRate(h, None, Some(today), today);
    var latest := LatestStreakOf(h, today);
    if rate.Failure? then Failure(rate.error)
    else if latest.Failure? then Failure(latest.error)
    else Success(HabitSummary(
      h.title,
      h.createdAt,
      RecurrenceName(h.recurrence),
      DateLastPerformed(h),
      NumberOfTimesCompleted(h, None, Some(today)),
      100.0 * rate.value.rate,
      latest.value.length))
  }

  /**
   * A habit created no later than today has a statistics row unless the
   * period after its newest active one would start outside the dates a
   * `datetime` can hold (after 9999-12-31, for any real activity), which is
   * an OverflowError; the row's completion percentage lies in [0, 100],
   * its count of periods is at most its number of activities, its latest
   * streak is zero exactly when it was never performed, and its last
   * performance is the last activity.
   */
  lemma HabitStatsSpec(h: Habit, today: Timestamp)
    requires AtOrBefore(h.createdAt, today)
    ensures var r := HabitStats(h, today);
      && (r.Failure? <==> h.activities != [] && !(0 <= LatestFirst(h)[0] + IntervalDays(h.recurrence) <= MaxDay))
      && (r.Failure? ==> r.error == OverflowError)
      && (r.Success? ==>
            && 0.0 <= r.value.completionRate <= 100.0
            && 0 <= r.value.numPeriodsPerformed <= |h.activities|
            && (r.value.latestStreak == 0 <==> h.activities == [])
            && r.value.lastPerformed == DateLastPerformed(h)
            && r.value.title == h.title && r.value.createdAt == h.createdAt)
  {
    CompletionRateBounds(h, None, Some(today), today);
    LatestStreakPresence(h, today);
  }

  /** `list(map(compute_properties, all_habits))`: every row, in input order; otherwise the error of the first habit that fails. */
  function GetHabits(hs: seq<Habit>, today: Timestamp): (r: Result<seq<HabitSummary>>)
    ensures r.Success? ==> |r.value| == |hs| && forall i :: 0 <= i < |hs| ==> HabitStats(hs[i], today) == Success(r.value[i])
    ensures r.Failure? ==> exists i ::
      0 <= i < |hs| && HabitStats(hs[i], today) == Failure(r.error) && forall j :: 0 <= j < i ==> HabitStats(hs[j], today).Success?
  {
    AllSucceeded(StatsRows(hs, today))
  }

  /** `compute_properties` of each habit, in order. */
  function StatsRows(hs: seq<Habit>, today: Timestamp): (rs: seq<Result<HabitSummary>>)
    ensures |rs| == |hs| && forall i :: 0 <= i < |hs| ==> rs[i] == HabitStats(hs[i], today)
  {
    seq(|hs|, i requires 0 <= i < |hs| => HabitStats(hs[i], today))
  }

  /** The values of a list of results when all of them succeeded, else the first failure. */
  function AllSucceeded<T>(rs: seq<Result<T>>): (r: Result<seq<T>>)
    ensures r.Success? <==> forall i :: 0 <= i < |rs| ==> rs[i].Success?
    ensures r.Success? ==> |r.value| == |rs| && forall i :: 0 <= i < |rs| ==> rs[i] == Success(r.value[i])
    ensures r.Failure? ==> exists i :: 0 <= i < |rs| && rs[i] == Failure(r.error) && forall j :: 0 <= j < i ==> rs[j].Success?
    decreases |rs|
  {
    if rs == [] then Success([])
    else
      var rest := AllSucceeded(rs[1..]);
      assert forall i :: 1 <= i < |rs| ==> rs[i] == rs[1..][i - 1];
      if rs[0].Failure? then Failure(rs[0].error)
      else if rest.Failure? then Failure(rest.error)
      else Success([rs[0].value] + rest.value)
  }

  // ---- sort_habits ----

  /** `datetime.fromtimestamp(0)`, read as 1970-01-01 00:00:00 local time. */
  const Epoch: Timestamp := Timestamp(719162, 0)

  /** `str.lower()` on ASCII letters. */
  function LowerChar(c: char): char {
    if 'A' <= c <= 'Z' then (c as int + 32) as char else c
  }

  /** `s.lower()`: each ASCII capital becomes its small letter (32 code points on), every other character stays, so no capital is left. */
  function Lower(s: string): (r: string)
    ensures |r| == |s|
    ensures forall i :: 0 <= i < |s| ==> if 'A' <= s[i] <= 'Z' then r[i] as int == s[i] as int + 32 else r[i] == s[i]
    ensures forall i :: 0 <= i < |s| ==> !('A' <= r[i] <= 'Z')
  {
    seq(|s|, i requires 0 <= i < |s| => LowerChar(s[i]))
  }

  /** 1970-01-01 00:00:00, the value `fromtimestamp(0)` is read as, is midnight of day 719162. */
  lemma EpochIsNewYear1970()
    ensures Epoch.sec == 0 && Epoch.day == DayNumber(Date(1970, 1, 1))
  {
    DayNumberLimits();
  }

  /** `sort_with_none_type`: None sorts as the epoch, strings case-insensitively, anything else as itself. */
  function SortKeyOf(v: Value): (k: Key)
    ensures v.Missing? ==> k == TimeKey(Epoch)
    ensures v.Text? ==> k.TextKey? && |k.s| == |v.s|
    ensures v.Text? ==> forall i :: 0 <= i < |v.s| ==> if 'A' <= v.s[i] <= 'Z' then k.s[i] as int == v.s[i] as int + 32 else k.s[i] == v.s[i]
    ensures v.Count? ==> k == IntKey(v.n)
  {
    match v
    case Text(s) => TextKey(Lower(s))
    case Time(t) => TimeKey(t)
    case Missing => TimeKey(Epoch)
    case Count(n) => IntKey(n)
    case Percent(x) => RealKey(x)
  }

  /** The sort key of a row on one field. */
  function RowKey(f: Field): HabitSummary -> Key {
    (row: HabitSummary) => SortKeyOf(Get(row, f))
  }

  /**
   * `sort_habits(habits, sort_field, order)`: a new list holding the same
   * rows, ordered on the normalised field, reversed for "desc", rows with
   * equal keys in their input order.
   */
  function SortHabits(rows: seq<HabitSummary>, f: Field, order: string): (r: seq<HabitSummary>)
    ensures multiset(r) == multiset(rows)
    ensures SortedBy(r, RowKey(f), order == "desc")
    ensures forall k :: WithSortKey(r, RowKey(f), k) == WithSortKey(rows, RowKey(f), k)
  {
    SortByKey(rows, RowKey(f), order == "desc")
  }

  /** Each field sorts on keys of one kind, so no two keys of different kinds are ever compared. */
  lemma OneKindPerField(a: HabitSummary, b: HabitSummary, f: Field)
    ensures Rank(RowKey(f)(a)) == Rank(RowKey(f)(b))
  {
  }

  /** Ascending on last performance, a habit never performed comes before every habit performed after the epoch. */
  lemma NeverPerformedFirst(rows: seq<HabitSummary>, i: int, j: int)
    requires var r := SortHabits(rows, LastPerformed, "asc");
      && 0 <= i < |r| && 0 <= j < |r|
      && r[i].lastPerformed.None? && r[j].lastPerformed.Some? && !AtOrBefore(r[j].lastPerformed.value, Epoch)
    ensures i < j
  {
  }

  /**
   * Titles sort ignoring case: "apple" comes before "Banana" whichever order
   * the rows arrive in, although as plain strings "Banana" < "apple".
   */
  lemma TitlesSortIgnoringCase(a: HabitSummary, b: HabitSummary)
    requires a.title == "apple" && b.title == "Banana"
    ensures SortHabits([b, a], Title, "asc") == [a, b]
    ensures SortHabits([a, b], Title, "asc") == [a, b]
    ensures TextLe("Banana", "apple") && !TextLe("apple", "Banana")
  {
    var lb := Lower("Banana");
    assert lb[0] == 'b';
    assert !TextLe(lb, "apple");
    assert TextLe("apple", lb);
    assert a != b;
    TwoRowsSorted([b, a], a, b);
    TwoRowsSorted([a, b], a, b);
  }

  /** Sorting two rows of which the first has the strictly smaller title puts them in that order. */
  lemma TwoRowsSorted(rows: seq<HabitSummary>, a: HabitSummary, b: HabitSummary)
    requires multiset(rows) == multiset{a, b} && a != b
    requires KeyLe(RowKey(Title)(a), RowKey(Title)(b)) && !KeyLe(RowKey(Title)(b), RowKey(Title)(a))
    ensures SortHabits(rows, Title, "asc") == [a, b]
  {
    var r := SortHabits(rows, Title, "asc");
    assert |r| == 2 by {
      assert |multiset(r)| == |r|;
    }
    var x, y := r[0], r[1];
    assert r == [x, y];
    assert multiset{x, y} == multiset{a, b};
    assert x in multiset{a, b} && y in multiset{a, b};
    assert KeyLe(RowKey(Title)(x), RowKey(Title)(y));
  }

  /**
   * Titles that agree ignoring case sort next to each other: between two
   * such rows of a sorted list lies only a row with that same lowered title.
   */
  lemma SameTitleAdjacent(rows: seq<HabitSummary>, order: string, i: int, k: int, j: int)
    requires var r := SortHabits(rows, Title, order);
      0 <= i < k < j < |r| && Lower(r[i].title) == Lower(r[j].title)
    ensures var r := SortHabits(rows, Title, order);
      Lower(r[k].title) == Lower(r[i].title)
  {
    var r, desc := SortHabits(rows, Title, order), order == "desc";
    var ki, kk, kj := RowKey(Title)(r[i]), RowKey(Title)(r[k]), RowKey(Title)(r[j]);
    assert Precedes(ki, kk, desc) && Precedes(kk, kj, desc);
    assert ki == kj;
    PrecedesBothWays(ki, kk, desc);
  }

  /** Lowering a title that is already lowered changes nothing: every sort key of a title is in small letters. */
  lemma LowerIdempotent(s: string)
    ensures Lower(Lower(s)) == Lower(s)
  {
  }

  // ---- filter_habits ----

  /** `filter_habits(habits, prop, value)`: the rows whose field equals the value, in input order. */
  function FilterHabits(rows: seq<HabitSummary>, f: Field, v: Value): (r: seq<HabitSummary>)
    ensures |r| <= |rows|
    ensures forall i :: 0 <= i < |r| ==> Get(r[i], f) == v
    decreases |rows|
  {
    if rows == [] then []
    else
      var rest := FilterHabits(rows[1..], f, v);
      assert rows == [rows[0]] + rows[1..];
      (if Get(rows[0], f) == v then [rows[0]] else []) + rest
  }

  /** The filter keeps exactly the rows whose field equals the value; a value no row has gives the empty list. */
  lemma {:induction false} FilterHabitsKeeps(rows: seq<HabitSummary>, f: Field, v: Value)
    ensures forall row :: row in FilterHabits(rows, f, v) <==> row in rows && Get(row, f) == v
    ensures FilterHabits(rows, f, v) == [] <==> forall i :: 0 <= i < |rows| ==> Get(rows[i], f) != v
    decreases |rows|
  {
    if rows != [] {
      FilterHabitsKeeps(rows[1..], f, v);
      assert rows == [rows[0]] + rows[1..];
      if Get(rows[0], f) != v {
        assert forall i :: 1 <= i < |rows| ==> rows[i] == rows[1..][i - 1];
      }
    }
  }

  /** Filtering keeps the input order: filtering a concatenation concatenates the filtered parts. */
  lemma {:induction false} FilterHabitsAppend(a: seq<HabitSummary>, b: seq<HabitSummary>, f: Field, v: Value)
    ensures FilterHabits(a + b, f, v) == FilterHabits(a, f, v) + FilterHabits(b, f, v)
    decreases |a|
  {
    if a == [] {
      assert a + b == b;
    } else {
      assert (a + b)[0] == a[0] && (a + b)[1..] == a[1..] + b;
      FilterHabitsAppend(a[1..], b, f, v);
      var head := if Get(a[0], f) == v then [a[0]] else [];
      assert FilterHabits(a + b, f, v) == head + FilterHabits(a[1..] + b, f, v);
      assert FilterHabits(a, f, v) == head + FilterHabits(a[1..], f, v);
      ConcatAssoc(head, FilterHabits(a[1..], f, v), FilterHabits(b, f, v));
    }
  }

  /** Filtering twice on the same condition changes nothing more. */
  lemma {:induction false} FilterHabitsIdempotent(rows: seq<HabitSummary>, f: Field, v: Value)
    ensures FilterHabits(FilterHabits(rows, f, v), f, v) == FilterHabits(rows, f, v)
    decreases |rows|
  {
    if rows != [] {
      var rest := FilterHabits(rows[1..], f, v);
      FilterHabitsIdempotent(rows[1..], f, v);
      if Get(rows[0], f) == v {
        var r := [rows[0]] + rest;
        assert FilterHabits(rows, f, v) == r;
        assert r[0] == rows[0] && r[1..] == rest;
        assert FilterHabits(r, f, v) == [rows[0]] + FilterHabits(rest, f, v);
      } else {
        assert FilterHabits(rows, f, v) == rest;
      }
    }
  }

  /** The filter returns some of the rows, each no more often than the input holds it. */
  lemma {:induction false} FilterHabitsSubMultiset(rows: seq<HabitSummary>, f: Field, v: Value)
    ensures multiset(FilterHabits(rows, f, v)) <= multiset(rows)
    decreases |rows|
  {
    if rows != [] {
      var rest := FilterHabits(rows[1..], f, v);
      var head := if Get(rows[0], f) == v then [rows[0]] else [];
      FilterHabitsSubMultiset(rows[1..], f, v);
      SubMultisetCons(rows, head, rest);
    }
  }

  /** Keeping or dropping the first element keeps a sub-multiset a sub-multiset. */
  lemma SubMultisetCons<T>(s: seq<T>, head: seq<T>, rest: seq<T>)
    requires s != [] && (head == [] || head == [s[0]])
    requires multiset(rest) <= multiset(s[1..])
    ensures multiset(head + rest) <= multiset(s)
  {
    assert s == [s[0]] + s[1..];
    assert multiset(s) == multiset{s[0]} + multiset(s[1..]);
    assert multiset(head + rest) == multiset(head) + multiset(rest);
  }

  /** Filtering a sorted list leaves it sorted, which is why `apply_modifications` may sort before it filters. */
  lemma {:induction false} FilterHabitsSorted(rows: seq<HabitSummary>, f: Field, v: Value, key: HabitSummary -> Key, desc: bool)
    requires SortedBy(rows, key, desc)
    ensures SortedBy(FilterHabits(rows, f, v), key, desc)
    decreases |rows|
  {
    if rows != [] {
      var tail := rows[1..];
      SortedTail(rows, key, desc);
      FilterHabitsSorted(tail, f, v, key, desc);
      if Get(rows[0], f) == v {
        var rest := FilterHabits(tail, f, v);
        FilterHabitsKeeps(tail, f, v);
        HeadPrecedes(rows, key, desc);
        ConsSorted(rows[0], rest, key, desc);
        assert FilterHabits(rows, f, v) == [rows[0]] + rest;
      }
    }
  }

  /** The first element of a sorted list may precede every later one. */
  lemma HeadPrecedes<T>(s: seq<T>, key: T -> Key, desc: bool)
    requires s != [] && SortedBy(s, key, desc)
    ensures forall x :: x in s[1..] ==> Precedes(key(s[0]), key(x), desc)
  {
    forall x | x in s[1..] ensures Precedes(key(s[0]), key(x), desc) {
      var m :| 0 <= m < |s[1..]| && s[1..][m] == x;
      assert s[m + 1] == x;
    }
  }

  /** Putting an element that may precede every member in front of a sorted list keeps it sorted. */
  lemma ConsSorted<T>(x: T, s: seq<T>, key: T -> Key, desc: bool)
    requires SortedBy(s, key, desc)
    requires forall y :: y in s ==> Precedes(key(x), key(y), desc)
    ensures SortedBy([x] + s, key, desc)
  {
    var r := [x] + s;
    forall i, j | 0 <= i < j < |r| ensures Precedes(key(r[i]), key(r[j]), desc) {
      assert r[j] == s[j - 1];
      if i > 0 { assert r[i] == s[i - 1]; }
    }
  }
}
