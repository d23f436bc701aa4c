/**
 * The pure helpers of modules/cli/view_stats.py: the `stats_fields` table of
 * the statistics view, the columns of that table the user may sort or filter
 * on, and `apply_modifications`, which sorts, filters and projects the rows
 * of the analytics module. The menus around them are not part of this model.
 */
module ViewStats {
  import opened Wrappers
  import opened Ordering
  import opened Analytics

  /** The `sort_options` of a column: the prompt texts for "asc" and "desc". */
  datatype SortOptions = SortOptions(asc: string, desc: string)

  /** One of the `options` of a column's `filters`: a value and its prompt text. */
  datatype FilterOption = FilterOption(value: string, prompt: string)

  /** The properties of one entry of `stats_fields`: its header and what it offers. */
  datatype Column = Column(header: string, sortOptions: Option<SortOptions>, filters: Option<seq<FilterOption>>)

  /**
   * The keys of `stats_fields`, in order. A statistics row has the same keys
   * in the same insertion order, which is the order of the projected rows.
   */
  const StatsKeys: seq<Field> := [Title, CreatedAt, RecurrenceField, LastPerformed, NumPeriodsPerformed, CompletionPercent, LatestStreakLength]

  /** `stats_fields[key]`. */
  function StatsField(f: Field): Column {
    match f
    case Title => Column("Title", Some(SortOptions("A", "Z")), None)
    case CreatedAt => Column("Created at", Some(SortOptions("the oldest habit", "the newest habit")), None)
    case RecurrenceField => Column("Recurs", None, Some([
      FilterOption("none", "Remove the filter"),
      FilterOption("daily", "Show the daily habits"),
      FilterOption("weekly", "Show the weekly habits")]))
    case LastPerformed => Column("Last performed",
      Some(SortOptions("the habit performed least recently", "the habit performed most recently")), None)
    case NumPeriodsPerformed => Column("# days/weeks performed",
      Some(SortOptions("the habit performed on the fewest days/weeks", "the habit performed on the most days/weeks")), None)
    case CompletionPercent => Column("Completion (%)",
      Some(SortOptions("the habit completed least successfully", "the habit completed most successfully")), None)
    case LatestStreakLength => Column("Latest streak",
      Some(SortOptions("the habit with the shortest streak", "the habit with the longest streak")), None)
  }

  /** `"sort_options" in stats_fields[key]`. */
  predicate Sortable(f: Field) {
    StatsField(f).sortOptions.Some?
  }

  /** `"filters" in stats_fields[key]`. */
  predicate Filterable(f: Field) {
    StatsField(f).filters.Some?
  }

  /** The position of a key in `StatsKeys`. */
  function FieldIndex(f: Field): (n: nat)
    ensures n < 7
  {
    match f
    case Title => 0
    case CreatedAt => 1
    case RecurrenceField => 2
    case LastPerformed => 3
    case NumPeriodsPerformed => 4
    case CompletionPercent => 5
    case LatestStreakLength => 6
  }

  /** Every field is a key of `stats_fields`, at its own position. */
  lemma FieldPositions(f: Field)
    ensures StatsKeys[FieldIndex(f)] == f
  {
  }

  /** Which entries of the table offer sorting and which offer filtering. */
  lemma TableShape(f: Field)
    ensures Sortable(f) <==> f != RecurrenceField
    ensures Filterable(f) <==> f == RecurrenceField
  {
  }

  // ---- get_requested_habit_properties ----

  /** One `key: value` pair of a projected row. */
  datatype Cell = Cell(field: Field, value: Value)

  function CellFields(cells: seq<Cell>): (fs: seq<Field>)
    ensures |fs| == |cells| && forall i :: 0 <= i < |cells| ==> fs[i] == cells[i].field
  {
    seq(|cells|, i requires 0 <= i < |cells| => cells[i].field)
  }

  /** Fields strictly in row-key order, hence without repetition. */
  predicate InKeyOrder(fs: seq<Field>) {
    forall i, j :: 0 <= i < j < |fs| ==> FieldIndex(fs[i]) < FieldIndex(fs[j])
  }

  lemma OrderedTail(fs: seq<Field>)
    requires fs != [] && InKeyOrder(fs)
    ensures InKeyOrder(fs[1..])
    ensures forall g :: g in fs[1..] ==> FieldIndex(fs[0]) < FieldIndex(g)
  {
    var tail := fs[1..];
    forall i, j | 0 <= i < j < |tail| ensures FieldIndex(tail[i]) < FieldIndex(tail[j]) {
      assert tail[i] == fs[i + 1] && tail[j] == fs[j + 1];
    }
    forall g | g in tail ensures FieldIndex(fs[0]) < FieldIndex(g) {
      var m :| 0 <= m < |tail| && tail[m] == g;
      assert fs[m + 1] == g;
    }
  }

  lemma OrderedCons(f: Field, fs: seq<Field>)
    requires InKeyOrder(fs)
    requires forall g :: g in fs ==> FieldIndex(f) < FieldIndex(g)
    ensures InKeyOrder([f] + fs)
  {
    var r := [f] + fs;
    forall i, j | 0 <= i < j < |r| ensures FieldIndex(r[i]) < FieldIndex(r[j]) {
      assert r[j] == fs[j - 1] && fs[j - 1] in fs;
      if i > 0 { assert r[i] == fs[i - 1]; }
    }
  }

  /** The dict comprehension over `habit.items()` restricted to the keys in `fs`. */
  function ProjectKeys(row: HabitSummary, fs: seq<Field>, requested: seq<Field>): (r: seq<Cell>)
    ensures |r| <= |fs|
    decreases |fs|
  {
    if fs == [] then []
    else (if fs[0] in requested then [Cell(fs[0], Get(row, fs[0]))] else []) + ProjectKeys(row, fs[1..], requested)
  }

  /** The projection of the keys `fs` holds exactly the requested ones, each with the row's own value. */
  lemma {:induction false} ProjectKeysMembers(row: HabitSummary, fs: seq<Field>, requested: seq<Field>)
    ensures forall c :: c in ProjectKeys(row, fs, requested) <==> c.field in fs && c.field in requested && c.value == Get(row, c.field)
    decreases |fs|
  {
    if fs != [] {
      ProjectKeysMembers(row, fs[1..], requested);
      assert forall f :: f in fs <==> f == fs[0] || f in fs[1..];
    }
  }

  /** The projection keeps the order of the keys `fs`. */
  lemma {:induction false} ProjectKeysOrdered(row: HabitSummary, fs: seq<Field>, requested: seq<Field>)
    requires InKeyOrder(fs)
    ensures InKeyOrder(CellFields(ProjectKeys(row, fs, requested)))
    decreases |fs|
  {
    if fs != [] {
      OrderedTail(fs);
      ProjectKeysOrdered(row, fs[1..], requested);
      var rest := ProjectKeys(row, fs[1..], requested);
      if fs[0] in requested {
        ProjectKeysMembers(row, fs[1..], requested);
        forall g | g in CellFields(rest) ensures FieldIndex(fs[0]) < FieldIndex(g) {
          var m :| 0 <= m < |rest| && CellFields(rest)[m] == g;
          assert rest[m] in rest;
        }
        OrderedCons(fs[0], CellFields(rest));
        assert CellFields([Cell(fs[0], Get(row, fs[0]))] + rest) == [fs[0]] + CellFields(rest);
      }
    }
  }

  /** The requested properties of one row: `{key: value for (key, value) in habit.items() if key in requested_props}`. */
  function Project(row: HabitSummary, requested: seq<Field>): seq<Cell> {
    ProjectKeys(row, StatsKeys, requested)
  }

  /** A projected row holds, each with its value unchanged, exactly the requested keys. */
  lemma ProjectMembers(row: HabitSummary, requested: seq<Field>)
    ensures forall c :: c in Project(row, requested) <==> c.field in requested && c.value == Get(row, c.field)
  {
    ProjectKeysMembers(row, StatsKeys, requested);
    EveryKeyListed();
  }

  /** A projected row names each requested key once, in the row's key order, and no other key. */
  lemma ProjectKeysExactly(row: HabitSummary, requested: seq<Field>)
    ensures InKeyOrder(CellFields(Project(row, requested)))
    ensures forall f :: f in requested <==> f in CellFields(Project(row, requested))
  {
    EveryKeyListed();
    ProjectKeysOrdered(row, StatsKeys, requested);
    ProjectMembers(row, requested);
    var r := Project(row, requested);
    forall f ensures f in requested <==> f in CellFields(r) {
      if f in requested {
        assert Cell(f, Get(row, f)) in r;
        var m :| 0 <= m < |r| && r[m] == Cell(f, Get(row, f));
        assert CellFields(r)[m] == f;
      }
      if f in CellFields(r) {
        var m :| 0 <= m < |r| && CellFields(r)[m] == f;
        assert r[m] in r;
      }
    }
  }

  /**
   * `get_requested_habit_properties(habits_list, requested_props)`: one row
   * per habit, in order; each names exactly the requested keys, once each
   * and in table order, and holds the habit's own value under each.
   */
  function RequestedHabitProperties(rows: seq<HabitSummary>, requested: seq<Field>): (r: seq<seq<Cell>>)
    ensures |r| == |rows|
    ensures forall i :: 0 <= i < |rows| ==> r[i] == Project(rows[i], requested)
    ensures forall i :: 0 <= i < |rows| ==> RowNamesRequested(r[i], rows[i], requested)
  {
    var r := seq(|rows|, i requires 0 <= i < |rows| => Project(rows[i], requested));
    forall i | 0 <= i < |rows| ensures RowNamesRequested(r[i], rows[i], requested) {
      ProjectKeysExactly(rows[i], requested);
      ProjectMembers(rows[i], requested);
    }
    r
  }

  /** A projected row names exactly the requested keys, once each and in table order, with the habit's own values. */
  ghost predicate RowNamesRequested(cells: seq<Cell>, row: HabitSummary, requested: seq<Field>) {
    && InKeyOrder(CellFields(cells))
    && (forall f :: f in requested <==> f in CellFields(cells))
    && (forall c :: c in cells <==> c.field in requested && c.value == Get(row, c.field))
  }

  /** Projecting with every key requested keeps every value of the row, in key order. */
  lemma ProjectAll(row: HabitSummary)
    ensures Project(row, StatsKeys) == seq(7, i requires 0 <= i < 7 => Cell(StatsKeys[i], Get(row, StatsKeys[i])))
  {
    ProjectKeysAll(row, StatsKeys, StatsKeys);
  }

  /** When every key of `fs` is requested, the projection is one cell per key, in order. */
  lemma {:induction false} ProjectKeysAll(row: HabitSummary, fs: seq<Field>, requested: seq<Field>)
    requires forall f :: f in fs ==> f in requested
    ensures ProjectKeys(row, fs, requested) == seq(|fs|, i requires 0 <= i < |fs| => Cell(fs[i], Get(row, fs[i])))
    decreases |fs|
  {
    if fs != [] {
      assert fs[0] in fs;
      ProjectKeysAll(row, fs[1..], requested);
    }
  }

  // ---- get_sortable_columns and get_filterable_columns ----

  /**
   * The keys of `fs` that satisfy `keep`, in order. A dict comprehension
   * over `stats_fields` is modelled by the keys it keeps; each one maps to
   * its own `stats_fields` entry, `StatsField(key)`.
   */
  function Select(fs: seq<Field>, keep: Field -> bool): (r: seq<Field>)
    ensures forall f :: f in r <==> f in fs && keep(f)
    decreases |fs|
  {
    if fs == [] then []
    else
      var rest := Select(fs[1..], keep);
      assert forall f :: f in fs <==> f == fs[0] || f in fs[1..];
      (if keep(fs[0]) then [fs[0]] else []) + rest
  }

  /** Selecting keys keeps their order. */
  lemma {:induction false} SelectOrdered(fs: seq<Field>, keep: Field -> bool)
    requires InKeyOrder(fs)
    ensures InKeyOrder(Select(fs, keep))
    decreases |fs|
  {
    if fs != [] {
      OrderedTail(fs);
      SelectOrdered(fs[1..], keep);
      if keep(fs[0]) {
        OrderedCons(fs[0], Select(fs[1..], keep));
      }
    }
  }

  lemma EveryKeyListed()
    ensures forall f :: f in StatsKeys
    ensures InKeyOrder(StatsKeys)
  {
    forall f ensures f in StatsKeys { FieldPositions(f); }
  }

  /** `get_sortable_columns(visible_columns)`: the keys of `stats_fields` that are visible and have sort options. */
  function SortableColumns(visible: seq<Field>): (r: seq<Field>)
    ensures forall f :: f in r <==> f in visible && Sortable(f)
  {
    EveryKeyListed();
    Select(StatsKeys, f => f in visible && Sortable(f))
  }

  /** Every visible column but the recurrence is sortable, and the sortable ones come in table order. */
  lemma SortableColumnsSpec(visible: seq<Field>)
    ensures forall f :: f in SortableColumns(visible) <==> f in visible && f != RecurrenceField
    ensures InKeyOrder(SortableColumns(visible))
  {
    forall f { TableShape(f); }
    EveryKeyListed();
    SelectOrdered(StatsKeys, f => f in visible && Sortable(f));
  }

  /** `get_filterable_columns()`: the keys of `stats_fields` that carry filters. */
  function FilterableColumns(): (r: seq<Field>)
    ensures forall f :: f in r <==> Filterable(f)
  {
    EveryKeyListed();
    Select(StatsKeys, Filterable)
  }

  /** Only the recurrence column can be filtered on, with the values "none", "daily" and "weekly". */
  lemma FilterableColumnsSpec()
    ensures FilterableColumns() == [RecurrenceField]
    ensures var fs := StatsField(RecurrenceField).filters;
      && fs.Some? && |fs.value| == 3
      && fs.value[0].value == "none" && fs.value[1].value == "daily" && fs.value[2].value == "weekly"
  {
    var r := FilterableColumns();
    forall f { TableShape(f); }
    EveryKeyListed();
    SelectOrdered(StatsKeys, Filterable);
  }

  // ---- apply_modifications ----

  /** `sort_opts`: the field to sort on, if any, and "asc" or "desc". */
  datatype SortChoice = SortChoice(field: Option<Field>, order: string)

  /** `filter_opts`: the field to filter on, if any, and the value to keep. */
  datatype FilterChoice = FilterChoice(field: Option<Field>, value: Value)

  /** `modified_habits_list` before the projection: sorted if asked, then filtered if asked. */
  function Modified(rows: seq<HabitSummary>, sortOpts: SortChoice, filterOpts: FilterChoice): seq<HabitSummary> {
    var sorted := if sortOpts.field.Some? then SortHabits(rows, sortOpts.field.value, sortOpts.order) else rows;
    if filterOpts.field.Some? then FilterHabits(sorted, filterOpts.field.value, filterOpts.value) else sorted
  }

  /** `apply_modifications(full_habits_list, columns, sort_opts, filter_opts)`. */
  function ApplyModifications(rows: seq<HabitSummary>, columns: seq<Field>, sortOpts: SortChoice, filterOpts: FilterChoice): (r: seq<seq<Cell>>)
    ensures |r| <= |rows|
    ensures sortOpts.field.None? && filterOpts.field.None? ==> r == RequestedHabitProperties(rows, columns)
  {
    var m := Modified(rows, sortOpts, filterOpts);
    ModifiedSpec(rows, sortOpts, filterOpts);
    RequestedHabitProperties(m, columns)
  }

  /**
   * What is left before the projection: rows of the input, each at most as
   * often as there; with a filter exactly the rows whose field holds the
   * value, without one all of them; sorted on the sort field when one is
   * set, and the input list itself when neither is set.
   */
  lemma ModifiedSpec(rows: seq<HabitSummary>, sortOpts: SortChoice, filterOpts: FilterChoice)
    ensures var m := Modified(rows, sortOpts, filterOpts);
      && multiset(m) <= multiset(rows)
      && |m| <= |rows|
      && (filterOpts.field.None? ==> multiset(m) == multiset(rows))
      && (filterOpts.field.Some? ==> forall row :: row in m <==> row in rows && Get(row, filterOpts.field.value) == filterOpts.value)
      && (sortOpts.field.Some? ==> SortedBy(m, RowKey(sortOpts.field.value), sortOpts.order == "desc"))
      && (sortOpts.field.None? && filterOpts.field.None? ==> m == rows)
  {
    var sorted := if sortOpts.field.Some? then SortHabits(rows, sortOpts.field.value, sortOpts.order) else rows;
    assert multiset(sorted) == multiset(rows);
    if filterOpts.field.Some? {
      var f, v := filterOpts.field.value, filterOpts.value;
      FilterHabitsSubMultiset(sorted, f, v);
      FilterHabitsKeeps(sorted, f, v);
      forall row ensures row in sorted <==> row in rows {
        assert row in sorted <==> multiset(sorted)[row] > 0;
      }
      if sortOpts.field.Some? {
        FilterHabitsSorted(sorted, f, v, RowKey(sortOpts.field.value), sortOpts.order == "desc");
      }
      var m := FilterHabits(sorted, f, v);
      assert |m| == |multiset(m)| <= |multiset(rows)| == |rows|;
    }
  }

  /**
   * Each output row is the projection of a row of the input, and a filter
   * leaves out every row whose field does not hold its value.
   */
  lemma ApplyModificationsSpec(rows: seq<HabitSummary>, columns: seq<Field>, sortOpts: SortChoice, filterOpts: FilterChoice)
    ensures var r := ApplyModifications(rows, columns, sortOpts, filterOpts);
      var m := Modified(rows, sortOpts, filterOpts);
      && |r| == |m|
      && (forall i :: 0 <= i < |r| ==> m[i] in rows && r[i] == Project(m[i], columns))
      && (filterOpts.field.Some? ==> forall i :: 0 <= i < |m| ==> Get(m[i], filterOpts.field.value) == filterOpts.value)
  {
    ModifiedSpec(rows, sortOpts, filterOpts);
    var m := Modified(rows, sortOpts, filterOpts);
    forall i | 0 <= i < |m| ensures m[i] in rows {
      assert multiset(m)[m[i]] > 0;
    }
  }
}
