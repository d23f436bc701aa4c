# Habit tracker: period and streak engine in Dafny

This project models the core of a command-line habit tracker. A user creates
habits that recur daily or weekly and records each time a habit is performed.
The core computes the following from those records:

- which day or Monday-to-Sunday week (the *period*) each performance falls in;
- the runs of consecutive active periods (*streaks*), and the latest run with
  its "still alive today" flags;
- how many periods a habit was completed in, and the completion rate over a
  window;
- the statistics row of each habit, and the sorting, filtering and column
  selection of the statistics view.

A moment is a `Timestamp(day, sec)`:

- `day` counts days from 0001-01-01, so it equals Python's `toordinal() - 1`;
- that first day was a Monday, so `day % 7` is Python's `weekday()`;
- `0 <= sec < 86400` is the second of the day, in local time.

A period is named by the day number of its first day: the date itself for a
daily habit, the Monday for a weekly one. The source sorts ISO date strings,
and those sort the same way as day numbers.

A habit is a value: a title, a recurrence, a creation moment, and the moments
of its activities, oldest first (the order the database query returns).
"Today" is always a parameter.

Modules, in dependency order:

| file | module | models |
|---|---|---|
| wrappers.dfy | `Wrappers` | `Option`, `Result` and the Python errors the core can raise |
| local_time.dfy | `LocalTime` | naive local date-times and their order |
| calendar.dfy | `Calendar` | the Gregorian calendar rules `datetime(y, m, d)` checks |
| period_math.dfy | `PeriodMath` | day and week counting, week starts, `add_interval` (modules/utils.py) |
| grouping.dfy | `Grouping` | grouping activities by period; accurate streak ends (modules/utils.py) |
| ordering.dfy | `Ordering` | Python's stable `sorted(key=…, reverse=…)` on normalised keys |
| habits.dfy | `Habits` | last performance, interval label, completion count and rate (classes/habit.py) |
| streaks.dfy | `Streaks` | `get_all_streaks` (classes/habit.py) |
| latest_streak.dfy | `LatestStreaks` | `get_latest_streak` (classes/habit.py) |
| date_ranges.dfy | `DateRanges` | the last week / month / six months windows (modules/utils.py) |
| analytics.dfy | `Analytics` | the per-habit row of `get_habits`, `sort_habits`, `filter_habits` |
| view_stats.dfy | `ViewStats` | `stats_fields`, column projection, sortable and filterable columns, `apply_modifications` |

The two loops of classes/habit.py are methods:

- `Streaks.ScanStreakBounds` is the forward scan of `get_all_streaks`.
  It is proved equal to the reference function `Streaks.RunsFrom`.
- `LatestStreaks.WalkBack` is the backward walk of `get_latest_streak`.
  It is proved to stop where `Streaks.RunEnd` says, with step `-interval`.

Lemmas then state what those reference functions mean in terms of the habit's
active periods. Everything else in the core is pure and is modelled by
functions.

Three edge cases are modelled as the code handles them:

- A window with no periods makes `get_completion_rate` divide by zero
  (classes/habit.py:308-314). The model returns `Failure(DivisionByZero)`.
- An end before the start is not rejected. The count of active periods is then
  0 (`Habits.CompletedNothingBackwards`).
- Naming the period after the latest streak (`add_interval(active_dates[0],
  recurrence, 1)`, classes/habit.py:273) overflows `datetime` after the last
  day or week of year 9999. The model returns `Failure(OverflowError)`, and
  `get_habits` passes it on.

## Model

| member | source | states |
|---|---|---|
| `LocalTime.AtOrBeforeTotal` | modules/utils.py:104 | any two moments are comparable with Python's `<=` on naive datetimes |
| `LocalTime.AtOrBeforeTransitive` | modules/utils.py:104 | the order of moments is transitive |
| `LocalTime.AtOrBeforeAntisymmetric` | modules/utils.py:104 | two moments each at or before the other are equal |
| `PeriodMath.StripOutTime` | modules/utils.py:32-37 | midnight of the same date: no later than the moment, and the latest midnight that is |
| `PeriodMath.DateOnly` | modules/utils.py:25-29 | `to_date_only_string` on day numbers: the date of the moment |
| `PeriodMath.NumDaysFromTo` | modules/utils.py:40-50 | the days between the two dates, plus one when inclusive |
| `PeriodMath.NumWeeksFromTo` | modules/utils.py:53-63 | the weeks between the two Mondays, plus one |
| `PeriodMath.AddInterval` | modules/utils.py:75-86 | a failure is always OverflowError |
| `PeriodMath.NumPeriodsFromTo` | classes/habit.py:302-308 | the day count (inclusive) for a daily habit, the week count for a weekly one |
| `Calendar.DaysInMonth` | modules/utils.py:175-183 | a month has 28 to 31 days, and 29 exactly for February of a leap year; this is the limit behind the ValueError the `except` branches catch |
| `Calendar.DaysBeforeYearStep` | modules/utils.py:171-173 | stepping one year forward adds that year's length (365 or 366) to the day count |
| `Calendar.DaysBeforeMonthTable` | modules/utils.py:175-183 | the days before each month follow the Gregorian table, plus one after February in a leap year |
| `Calendar.DayNumberLimits` | modules/utils.py:85 | 9999-12-31, the last date `datetime + timedelta` can reach, is day 3652058, and 1970-01-01 is day 719162 |
| `PeriodMath.MondayOfIsWeekStart` | modules/utils.py:61-72 | the Monday that `get_num_weeks_from_to` computes is the one `get_week_start_date` returns |
| `PeriodMath.NumWeeksSameWeek` | modules/utils.py:53-63 | the week count is 1 exactly when both moments share a week start |
| `PeriodMath.NumWeeksAtLeastOne` | modules/utils.py:53-63 | an ordered pair of moments spans at least one week |
| `PeriodMath.NumWeeksSundayToMonday` | modules/utils.py:53-63 | from a Sunday to the next day the count is 2 |
| `PeriodMath.WeekStartDate` | modules/utils.py:66-72 | the result is a Monday at 00:00:00, no later than the input and at most six days earlier |
| `PeriodMath.WeekStartIdempotent` | modules/utils.py:66-72 | the week start of a week start is itself, and a Monday maps to its own midnight |
| `PeriodMath.WeekStartMonotone` | modules/utils.py:66-72 | a later date never has an earlier week start |
| `PeriodMath.AddIntervalProperties` | modules/utils.py:75-86 | from a valid date, adding 0 intervals is the identity, adding n then -n returns the date, additions compose, the result is n intervals on, and a forward step fails exactly past 9999-12-31 |
| `PeriodMath.PeriodOf` | modules/utils.py:114-121 | the period key is a multiple of the interval and its period contains the moment's date |
| `PeriodMath.PeriodOfMonotone` | modules/utils.py:114-121 | an earlier moment never has a later period key |
| `PeriodMath.PeriodCountMatchesKeys` | modules/utils.py:148-149 | the day or week count between two moments is the distance between their period keys, in intervals, plus one |
| `PeriodMath.NoPeriodsBetween` | classes/habit.py:302-314 | the period count is zero exactly when the end's period is the one just before the start's |
| `PeriodMath.NumPeriodsCountsPeriods` | modules/utils.py:40-63 | the day count (inclusive) and the week count between two ordered moments are the number of distinct days or weeks their dates fall in, whatever the times of day; the exclusive day count is one less |
| `Grouping.FilterInRange` | modules/utils.py:102-112 | the filter keeps exactly the activities inside the optional inclusive bounds, each as often as the input holds it |
| `Grouping.InDateRange` | modules/utils.py:102-110 | `make_date_range_fn`: each bound optional and inclusive |
| `Grouping.WithKey` | modules/utils.py:114-121 | the activities whose key is `k`, each as often as the input holds it |
| `Grouping.AddToGroup` | modules/utils.py:123-128 | `group_by_date`: the activity appended to its period's list |
| `Grouping.Collect` | modules/utils.py:130 | `reduce(group_by_date, …, {})` as a left fold |
| `Grouping.CollectSpec` | modules/utils.py:123-130 | the `reduce` fold has a key for exactly the periods that occur, holds each period's activities in input order, and makes no more keys than activities |
| `Grouping.CollectAt` | modules/utils.py:123-130 | the fold's list for one period is that period's activities in input order |
| `Grouping.CollectSize` | modules/utils.py:123-130 | the fold makes no more keys than there are activities |
| `Grouping.GroupByPeriod` | modules/utils.py:89-130 | the fold over the in-range activities |
| `Grouping.GroupKeys` | modules/utils.py:89-130 | a period is a key exactly when an in-range activity falls in it |
| `Grouping.GroupContents` | modules/utils.py:89-130 | no list is empty; an activity is under key `k` exactly when it is in range and its period is `k`; each appears as often as in the input; an empty input gives an empty map |
| `Grouping.GroupMembers` | modules/utils.py:89-130 | one key's list holds exactly the in-range activities of that period |
| `Grouping.Earliest` | modules/utils.py:143 | `sorted(...)[0]` is a member and at or before every member |
| `Grouping.Latest` | modules/utils.py:144 | `sorted(...)[-1]` is a member and at or after every member |
| `Grouping.AccurateParams` | modules/utils.py:133-154 | the start is the earliest activity of the first list and the end the latest of the second |
| `Grouping.AccurateLength` | modules/utils.py:148-149 | when the lists are two periods' activities, the length counts the periods from the first key to the second |
| `Ordering.TextLeTotal` | modules/analytics.py:47-52 | Python's string `<=` relates any two strings |
| `Ordering.TextLeAntisymmetric` | modules/analytics.py:47-52 | two strings each `<=` the other are equal |
| `Ordering.TextLeTransitive` | modules/analytics.py:47-52 | string `<=` is transitive |
| `Ordering.KeyLeTotal` | modules/analytics.py:41-52 | any two sort keys are comparable |
| `Ordering.KeyLeAntisymmetric` | modules/analytics.py:41-52 | sort keys are antisymmetric |
| `Ordering.KeyLeTransitive` | modules/analytics.py:41-52 | key order is transitive |
| `Ordering.Insert` | modules/analytics.py:52 | one insertion step adds exactly the new element |
| `Ordering.InsertKeepsSorted` | modules/analytics.py:52 | inserting into a sorted list keeps it sorted, in either direction |
| `Ordering.InsertStable` | modules/analytics.py:52 | the inserted element goes after the elements that share its key, and other keys are untouched |
| `Ordering.SortByKey` | classes/habit.py:207-208 | `sorted`/`list.sort`: a permutation, sorted on the key (reversed for `reverse=True`), with equal-key elements in input order |
| `Habits.DateLastPerformed` | classes/habit.py:65-72 | None exactly when there are no activities; otherwise the last activity, which with activities oldest first is the latest one |
| `Habits.IntervalLabel` | classes/habit.py:74-84 | "day"/"days" exactly for a daily habit, singular exactly when the count is 1 |
| `Habits.NumberOfTimesCompleted` | classes/habit.py:281-291 | the count is the number of distinct periods holding an in-range activity, at most the number of activities |
| `Habits.CompletedIgnoresRepeat` | classes/habit.py:281-291 | another performance in an already active period leaves the count unchanged |
| `Habits.CompletedCountsNewPeriod` | classes/habit.py:281-291 | an in-range performance in a new period adds exactly one |
| `Habits.CompletedNothingBackwards` | classes/habit.py:281-291 | with the end before the start no activity is in range, so the count is 0 |
| `Habits.Divide` | classes/habit.py:311-315 | the result holds both counts and their exact quotient; a zero total is ZeroDivisionError |
| `Habits.ActiveAtMostTotal` | classes/habit.py:302-314 | between ordered moments there is at least one period, and no more active periods than periods |
| `Habits.CompletionRateBounds` | classes/habit.py:293-315 | with the defaulted start not after the defaulted end the rate is defined, the total is at least one, active is at most total, and the rate lies in [0, 1] |
| `Habits.CompletionRate` | classes/habit.py:293-315 | a failure is always ZeroDivisionError |
| `Habits.CompletionRateSpec` | classes/habit.py:293-315 | the division fails exactly when the end's period is the one before the start's, and otherwise the counts are the bounded count and the period count between the defaults |
| `Streaks.SetMin` | classes/habit.py:156 | the least element of a non-empty set |
| `Streaks.Ascending` | classes/habit.py:156 | `sorted(keys)`: strictly increasing, with the same elements as the set |
| `Streaks.Descending` | classes/habit.py:232 | `sorted(keys, reverse=True)`: strictly decreasing, with the same elements as the set |
| `Streaks.RunEnd` | classes/habit.py:172-196 | the chain of one-interval steps from index `i` ends at the result, and cannot go on past it |
| `Streaks.RunEndUnique` | classes/habit.py:172-196 | a chain from `i` that cannot be continued ends where `RunEnd` says |
| `Streaks.RunsFromSound` | classes/habit.py:172-196 | each pair found is a maximal run of two or more consecutive keys |
| `Streaks.RunsFromComplete` | classes/habit.py:172-196 | each maximal run of two or more consecutive keys is found |
| `Streaks.RunsFromBounds` | classes/habit.py:172-196 | each pair found starts before it ends, and both ends are keys |
| `Streaks.RunsFromOrdered` | classes/habit.py:172-196 | the pairs come in ascending order and do not overlap |
| `Streaks.StepTest` | classes/habit.py:182-183 | comparing the distance from the streak start with `streak_length * interval` tests the last step alone |
| `Streaks.ContinueTest` | classes/habit.py:182-183 | along a chain, the source's test holds exactly when the next key is one interval on |
| `Streaks.CloseChain` | classes/habit.py:186-196 | closing a chain records it exactly when it has two or more periods, and the pairs so far followed by the rest are all the pairs |
| `Streaks.ChainSpan` | classes/habit.py:182-183 | chained keys advance one interval per index |
| `Streaks.MaximalRunInKeys` | classes/habit.py:172-196 | with aligned keys, the periods just before and just after a maximal run are inactive |
| `Streaks.ScanStreakBounds` | classes/habit.py:161-196 | the scan's list of (first, last) pairs is exactly `RunsFrom` of the keys |
| `Streaks.AllGroups` | classes/habit.py:151-152 | the unbounded grouping has a non-empty list for exactly the active periods |
| `Streaks.AllGroupsContents` | classes/habit.py:151-152 | one period's list holds exactly the habit's activities in that period |
| `Streaks.ActiveDates` | classes/habit.py:156 | the active periods, strictly increasing, aligned to the interval, no more of them than activities |
| `Streaks.StreakBounds` | classes/habit.py:198-205 | both ends of every pair are keys of the grouping, so the source's dictionary lookups succeed |
| `Streaks.ChronologicalStreaks` | classes/habit.py:198-205 | one detailed streak per pair found |
| `Streaks.StreakSortKey` | classes/habit.py:207-208 | the start for "date", the length for any other value |
| `Streaks.AllStreaks` | classes/habit.py:142-210 | the detailed streaks sorted on that key, reversed for "desc" |
| `Streaks.GetAllStreaks` | classes/habit.py:142-210 | the method's result is the scan, then the details, then the sort, with the defaults "date" and "desc" |
| `Streaks.MaximalRunIsActiveRun` | classes/habit.py:172-196 | a maximal run of keys is a maximal run of active periods in calendar terms |
| `Streaks.ChronologicalStreakSound` | classes/habit.py:172-205 | each detailed streak is a maximal run of two or more active periods; its start is the earliest activity of its first period, its end the latest of its last, and its length the number of periods |
| `Streaks.ChronologicalStreaksComplete` | classes/habit.py:172-205 | every maximal run of two or more active periods yields a detailed streak with those first and last periods |
| `Streaks.StreakPeriods` | classes/habit.py:198-205 | a detailed streak's start and end fall in its pair's first and last period |
| `Streaks.ChronologicalStreaksOrdered` | classes/habit.py:172-205 | the detailed streaks do not overlap and come oldest first |
| `Streaks.OnePeriodNoStreaks` | classes/habit.py:183-196 | a habit active in at most one period has no streaks |
| `Streaks.AllStreaksSpec` | classes/habit.py:142-210 | `get_all_streaks`: a permutation of the streaks found, sorted on start or length, reversed for "desc"; each is a streak of the habit, and none is missing |
| `LatestStreaks.LatestFirst` | classes/habit.py:230-232 | the active periods, strictly decreasing, aligned, non-empty when there is an activity |
| `LatestStreaks.ChainBack` | classes/habit.py:234-259 | the end of the backward chain is an index of the keys |
| `LatestStreaks.LatestStreakOf` | classes/habit.py:212-279 | the result fails exactly when the habit was performed and the period after its newest active one starts past 9999-12-31, and the failure is OverflowError |
| `LatestStreaks.WalkBack` | classes/habit.py:234-259 | the walk stays inside the keys although its guard compares with the activity count, and returns the oldest key of the chain that ends in the newest key |
| `LatestStreaks.GetLatestStreak` | classes/habit.py:212-279 | the method's result is `LatestStreakOf` at `today` |
| `LatestStreaks.NewestIsGreatest` | classes/habit.py:232-235 | the newest key is at least every active period |
| `LatestStreaks.BackChainCovers` | classes/habit.py:234-259 | every aligned period between the two ends of the backward chain is a key |
| `LatestStreaks.BackChainMaximal` | classes/habit.py:234-259 | the period one interval before the chain's oldest key is not a key |
| `LatestStreaks.BackChainActive` | classes/habit.py:234-259 | the periods of the backward chain are all active, and the one before it is not |
| `LatestStreaks.LatestStreakPresence` | classes/habit.py:218-277 | no activities gives exactly the zero-length sentinel; otherwise, when the next period can be named, every field is present, its start, end and length are those of the chain, and the length is at least one |
| `LatestStreaks.LatestStreakEnd` | classes/habit.py:261-265 | the end is the latest activity of all, in the greatest active period, and with activities oldest first it is `get_date_last_performed` |
| `LatestStreaks.LatestStreakPeriods` | classes/habit.py:261-265 | the start falls in the chain's oldest period as its earliest activity, the end in the newest period, and the length counts the periods between |
| `LatestStreaks.LatestStreakChain` | classes/habit.py:234-265 | the latest streak is the maximal chain of active periods ending in the greatest one: all its periods are active and the one before it is not |
| `LatestStreaks.LatestStreakStart` | classes/habit.py:261-265 | its start is the earliest activity of its first period, and its length counts its periods |
| `LatestStreaks.LatestLengthPositive` | classes/habit.py:261-265 | a performed habit's latest streak has length at least one |
| `LatestStreaks.LatestStreakFlags` | classes/habit.py:269-277 | the result is OverflowError exactly when the period after the streak's last one lies past 9999-12-31; otherwise `can_extend_today` holds exactly when today's period is that next period, and `is_current` exactly when it is the last period or the next |
| `LatestStreaks.StreakAsOfFlags` | classes/habit.py:267-277 | for any chain, the flags are those of today's period against its newest period and the next |
| `LatestStreaks.LastPeriodOverflows` | classes/habit.py:273 | a daily habit performed on 9999-12-31, or a weekly one performed from Monday 9999-12-27 on, gets OverflowError |
| `DateRanges.MakeDateTime` | modules/utils.py:170-206 | `datetime(y, m, d)` is midnight of that date when it exists, else ValueError |
| `DateRanges.LastWeekDateRange` | modules/utils.py:157-161 | the window starts at midnight six days before `end`, keeps `end`, and spans seven days; stepping back before year 1 is OverflowError |
| `DateRanges.LastMonthStart` | modules/utils.py:168-183 | the start of the last-month window: the day after one month back, else the first of the month |
| `DateRanges.LastMonthDateRange` | modules/utils.py:164-185 | the start paired with the end |
| `DateRanges.LastMonthRangeSpec` | modules/utils.py:164-185 | the window keeps `end`, starts at a midnight, spans 28 to 31 days, and fails (ValueError) only in January of year 1 before the 31st |
| `DateRanges.LastSixMonthsStart` | modules/utils.py:192-206 | the start of the six-month window, with the same fallbacks as the source |
| `DateRanges.LastSixMonthsDateRange` | modules/utils.py:188-208 | the start paired with the end |
| `DateRanges.LastSixMonthsRangeSpec` | modules/utils.py:188-208 | the window keeps `end`, starts at a midnight, spans 181 to 184 days, and fails only up to June of year 1 |
| `DateRanges.SixMonthsAcrossYears` | modules/utils.py:192-201 | for an end from January to June the start exists exactly when the year is not 1 (else ValueError), is a valid midnight, and the window spans 181 to 184 days |
| `DateRanges.SixMonthsBack` | modules/utils.py:198 | six months back to the day after spans 181 to 184 days |
| `DateRanges.SixMonthsBackFallback` | modules/utils.py:201 | the first-of-the-next-month fallback also spans 181 to 184 days |
| `DateRanges.AcrossYearDays` | modules/utils.py:192-201 | the days between dates of consecutive years |
| `DateRanges.SixMonthsWithinYear` | modules/utils.py:202-206 | for an end from July on the start always exists, is a valid midnight, and the window spans 181 to 184 days |
| `DateRanges.RangeExamples` | tests/test_utils.py:368-422 | the windows of the repository's test cases |
| `Analytics.Get` | modules/analytics.py:20-28 | `h[field]` is None exactly for the last performance of a habit never performed |
| `Analytics.HabitStats` | modules/analytics.py:17-28 | the row exists exactly when the completion rate from creation to today and the latest streak are both defined; a failing rate gives DivisionByZero, evaluated before the latest streak; with the rate defined, a failure is the OverflowError of the latest streak |
| `Analytics.HabitStatsSpec` | modules/analytics.py:17-28 | for a habit created by today the row fails exactly with the OverflowError of the latest streak; otherwise its percentage lies in [0, 100], its count is at most the activities, its latest streak is 0 exactly for a habit never performed, and its last performance is `get_date_last_performed` |
| `Analytics.GetHabits` | modules/analytics.py:7-30 | one row per habit in input order, each `compute_properties` of its habit; otherwise the list fails with the error of the first habit whose row fails, all habits before it succeeding |
| `Analytics.AllSucceeded` | modules/analytics.py:30 | all values when every result succeeded, else the error of the first failing result, every result before it succeeding |
| `Analytics.Lower` | modules/analytics.py:47-48 | `str.lower()` keeps the length, turns each capital into its small letter and leaves every other character, so no capital remains |
| `Analytics.EpochIsNewYear1970` | modules/analytics.py:43-45 | the value `fromtimestamp(0)` is read as, `Analytics.Epoch`, is midnight of 1970-01-01 |
| `Analytics.SortKeyOf` | modules/analytics.py:41-50 | None sorts as the epoch, strings as their lowered form, counts as themselves |
| `Analytics.SortHabits` | modules/analytics.py:33-52 | a permutation of the rows, sorted on the normalised field, reversed for "desc", equal keys in input order |
| `Analytics.OneKindPerField` | modules/analytics.py:41-50 | the keys of one field are all of one kind, so the normalised keys never mix kinds |
| `Analytics.NeverPerformedFirst` | modules/analytics.py:43-45 | ascending on last performance, a habit never performed precedes every one performed after the epoch |
| `Analytics.TitlesSortIgnoringCase` | modules/analytics.py:47-52 | sorting rows titled "Banana" and "apple" ascending puts "apple" first in either input order, although "Banana" < "apple" as strings |
| `Analytics.TwoRowsSorted` | modules/analytics.py:52 | two different rows, the first with the strictly smaller title key, sort in that order |
| `Analytics.SameTitleAdjacent` | modules/analytics.py:47-52 | on a sorted list, every row between two rows whose titles agree ignoring case has that title too, ignoring case |
| `Analytics.LowerIdempotent` | modules/analytics.py:47-48 | lowering twice is lowering once |
| `Analytics.FilterHabits` | modules/analytics.py:55-63 | at most the input's rows, each holding the value |
| `Analytics.FilterHabitsKeeps` | modules/analytics.py:55-63 | a row is kept exactly when it is in the input and holds the value; a value no row holds gives the empty list |
| `Analytics.FilterHabitsAppend` | modules/analytics.py:63 | filtering keeps input order: it distributes over concatenation |
| `Analytics.FilterHabitsIdempotent` | modules/analytics.py:63 | filtering twice changes nothing more |
| `Analytics.FilterHabitsSubMultiset` | modules/analytics.py:63 | no row is kept more often than the input holds it |
| `Analytics.FilterHabitsSorted` | modules/analytics.py:63 | filtering a sorted list leaves it sorted |
| `ViewStats.StatsField` | modules/cli/view_stats.py:14-67 | the `stats_fields` entry of each key |
| `ViewStats.FieldIndex` | modules/cli/view_stats.py:14-67 | each key has one of the table's seven positions |
| `ViewStats.FieldPositions` | modules/cli/view_stats.py:14-67 | each key is at its own position in the table |
| `ViewStats.TableShape` | modules/cli/view_stats.py:14-67 | every entry but `recurrence` has sort options, and only `recurrence` has filters |
| `ViewStats.ProjectKeys` | modules/cli/view_stats.py:96-99 | the listed keys that are requested, with the row's values, at most one per listed key |
| `ViewStats.ProjectKeysMembers` | modules/cli/view_stats.py:96-99 | a pair is in the projection exactly when its key is listed and requested and its value is the row's own |
| `ViewStats.ProjectKeysOrdered` | modules/cli/view_stats.py:96-99 | the projection keeps the row's key order |
| `ViewStats.ProjectKeysAll` | modules/cli/view_stats.py:96-99 | with every key requested the projection is one pair per key, in order |
| `ViewStats.EveryKeyListed` | modules/cli/view_stats.py:14-67 | every key is in the table, in strictly increasing position |
| `ViewStats.Project` | modules/cli/view_stats.py:96-99 | one row's comprehension over the statistics keys |
| `ViewStats.ProjectMembers` | modules/cli/view_stats.py:87-99 | a projected row holds exactly the requested keys, with their values unchanged |
| `ViewStats.ProjectKeysExactly` | modules/cli/view_stats.py:87-99 | a projected row names each requested key once, in row order, and no other key |
| `ViewStats.RequestedHabitProperties` | modules/cli/view_stats.py:87-99 | as many rows as the input, in the same order; each names exactly the requested keys, once each and in table order, with the input row's values |
| `ViewStats.ProjectAll` | modules/cli/view_stats.py:87-99 | requesting every key keeps the whole row |
| `ViewStats.Select` | modules/cli/view_stats.py:108-121 | the dictionary comprehension keeps exactly the table keys that pass the test |
| `ViewStats.SelectOrdered` | modules/cli/view_stats.py:108-121 | the kept keys stay in table order |
| `ViewStats.SortableColumns` | modules/cli/view_stats.py:102-113 | exactly the visible keys that have sort options |
| `ViewStats.SortableColumnsSpec` | modules/cli/view_stats.py:102-113 | exactly the visible keys other than `recurrence`, in table order |
| `ViewStats.FilterableColumns` | modules/cli/view_stats.py:116-121 | exactly the keys that carry filters |
| `ViewStats.FilterableColumnsSpec` | modules/cli/view_stats.py:29-38 | only `recurrence` is filterable, with the values "none", "daily" and "weekly" |
| `ViewStats.ApplyModifications` | modules/cli/view_stats.py:124-155 | the output is never longer than the input; with neither sort nor filter it is the projection of the whole list in input order |
| `ViewStats.Modified` | modules/cli/view_stats.py:141-152 | the rows sorted when a sort is chosen, then filtered when a filter is chosen |
| `ViewStats.ModifiedSpec` | modules/cli/view_stats.py:141-152 | the list before projection holds only input rows; without a filter it is a permutation; with one it holds exactly the matching rows; with a sort it is sorted; with neither it is the input |
| `ViewStats.ApplyModificationsSpec` | modules/cli/view_stats.py:124-155 | each output row is the chosen columns of an input row, one per row that was kept, and with a filter all kept rows hold its value |

## Left out

- Persistence, the interactive menus and the tables are left out. Habits and
  `today` are parameters, and `datetime.today()` is never called.
- Timezones are left out. Every moment is already local, and the helpers that
  convert or format moments are not part of this model.
- `make_uuid` is random and is left out.
- String parsing and formatting are not modelled. `to_datetime` and
  `to_date_only_string` are identities on day numbers, and
  `to_date_only_string` is `PeriodMath.DateOnly`.
- `Habits.CompletionRate`: the model returns the exact rational quotient as a
  `real`. Floating-point division is not modelled.
- `Analytics.HabitStats`: the completion percentage is `100 * rate` as an
  exact `real`. The source's `round()` is not modelled.
- `Analytics.Lower`: it lowers ASCII letters only. Python lowers all of
  Unicode.
- `Analytics.SortHabits`: `datetime.fromtimestamp(0)` is read as 1970-01-01
  00:00:00 local time (`Analytics.Epoch`). The real value depends on the
  machine's timezone.
- `Analytics.SortHabits`: Python raises TypeError when it compares values of
  different kinds. That never happens here, because each field holds one
  kind (`Analytics.OneKindPerField`), and the model ranks kinds instead.
- `Ordering.SortByKey`: Python's sort is modelled by a stable insertion sort
  with the same result. Timsort's steps are not modelled.
- A recurrence is `Daily` or `Weekly`. The source treats every string other
  than "daily" as weekly, and the model writes such a habit as `Weekly`.
- `filter_habits` compares values with Python's `==`, so the integer 1 equals
  the float 1.0. The model compares `Value`s of the same constructor only.
- `ViewStats.SortableColumns` and `ViewStats.FilterableColumns` return the kept
  keys in table order. Each key's properties are `ViewStats.StatsField(key)`,
  because a dictionary comprehension of `stats_fields` entries copies them
  unchanged.
- `sort_opts` and `filter_opts` are datatypes instead of tuples. A filter value
  is a `Value`, so a filter on recurrence uses `Text("daily")`.
- `DateRanges.LastWeekDateRange`: `datetime` overflow is modelled only at the
  lower end, for a day before 0001-01-07. The window only reaches back from its
  end, so the upper bound cannot be crossed.
- `LocalTime.Timestamp` does not bound `day` to 0001-01-01 .. 9999-12-31. A
  real `datetime` cannot lie outside that range, so the lower-end failure that
  `LatestStreaks.LatestStreakOf` admits never arises for a real activity.
- `ViewStats.ProjectKeysMembers`: requested names that are not keys of a
  statistics row cannot be written in the model, because columns are `Field`s.
