/** The in-memory table the cleaners work on: an ordered list of distinct column
    names and a sequence of rows, each carrying its index label and one cell per
    column.  The operations are the DataFrame calls the cleaners make. */
module Tables {
  import opened Results
  import opened Text

  datatype Row<C> = Row(key: int, cells: map<string, C>)

  datatype Table<C> = Table(columns: seq<string>, rows: seq<Row<C>>)

  function ColumnSet(columns: seq<string>): set<string> {
    set c | c in columns
  }

  predicate Distinct(columns: seq<string>) {
    forall i, j :: 0 <= i < j < |columns| ==> columns[i] != columns[j]
  }

  /** What every DataFrame satisfies: no repeated column name, and every row has
      exactly one cell per column. */
  predicate WellFormed<C>(t: Table<C>) {
    && Distinct(t.columns)
    && forall i :: 0 <= i < |t.rows| ==> t.rows[i].cells.Keys == ColumnSet(t.columns)
  }

  predicate HasColumn<C>(rows: seq<Row<C>>, col: string) {
    forall i :: 0 <= i < |rows| ==> col in rows[i].cells
  }

  predicate UniqueLabels<C>(rows: seq<Row<C>>) {
    forall i, j :: 0 <= i < j < |rows| ==> rows[i].key != rows[j].key
  }

  function WithoutCell<C>(row: Row<C>, name: string): Row<C> {
    row.(cells := row.cells - {name})
  }

  function SetCell<C>(row: Row<C>, name: string, v: C): Row<C> {
    row.(cells := row.cells[name := v])
  }

  lemma SetCellTwice<C>(row: Row<C>, name: string, v: C, w: C)
    ensures SetCell(SetCell(row, name, v), name, w) == SetCell(row, name, w)
  {
    assert row.cells[name := v][name := w] == row.cells[name := w];
  }

  /** Writes to two different columns commute. */
  lemma SetCellCommutes<C>(row: Row<C>, a: string, v: C, b: string, w: C)
    requires a != b
    ensures SetCell(SetCell(row, a, v), b, w) == SetCell(SetCell(row, b, w), a, v)
  {
    assert row.cells[a := v][b := w] == row.cells[b := w][a := v];
  }

  /** `columns` with `name` taken out, the others in their order. */
  function RemoveName(columns: seq<string>, name: string): (r: seq<string>)
    ensures forall c :: c in r <==> c in columns && c != name
    ensures Distinct(columns) ==> Distinct(r)
    ensures |r| <= |columns|
  {
    if |columns| == 0 then []
    else if columns[0] == name then RemoveName(columns[1..], name)
    else
      var rest := RemoveName(columns[1..], name);
      assert Distinct(columns) ==> columns[0] !in rest;
      [columns[0]] + rest
  }

  lemma {:induction false} RemoveNameSubsequence(columns: seq<string>, name: string)
    ensures IsSubsequence(RemoveName(columns, name), columns)
    decreases |columns|
  {
    if |columns| > 0 {
      var rest := RemoveName(columns[1..], name);
      RemoveNameSubsequence(columns[1..], name);
      if columns[0] == name {
        SubsequenceOfSuffix(rest, columns, 1);
      } else {
        SubsequenceCons(columns[0], rest, columns[1..]);
        assert columns == [columns[0]] + columns[1..];
      }
    }
  }

  /** `df.drop(name, axis=1)`: KeyError when there is no such column; otherwise
      the column and its cells go, and nothing else changes. */
  function DropColumn<C>(t: Table<C>, name: string): (r: Result<Table<C>>)
    requires WellFormed(t)
    ensures r.Ok? <==> name in t.columns
    ensures r.Err? ==> r.error == MissingColumn(name)
    ensures r.Ok? ==>
      && WellFormed(r.value)
      && ColumnSet(r.value.columns) == ColumnSet(t.columns) - {name}
      && |r.value.rows| == |t.rows|
      && forall i :: 0 <= i < |t.rows| ==>
           r.value.rows[i].key == t.rows[i].key && r.value.rows[i].cells == t.rows[i].cells - {name}
  {
    if name !in t.columns then Err(MissingColumn(name))
    else
      var columns := RemoveName(t.columns, name);
      Ok(Table(columns, seq(|t.rows|, i requires 0 <= i < |t.rows| => WithoutCell(t.rows[i], name))))
  }

  /** The remaining columns keep their relative order. */
  lemma DropColumnKeepsOrder<C>(t: Table<C>, name: string)
    requires WellFormed(t)
    requires DropColumn(t, name).Ok?
    ensures IsSubsequence(DropColumn(t, name).value.columns, t.columns)
    ensures name !in DropColumn(t, name).value.columns
  {
    RemoveNameSubsequence(t.columns, name);
  }

  /** `df[mask].index`: the labels of the rows whose `col` cell satisfies `p`. */
  function MarkedLabels<C>(rows: seq<Row<C>>, col: string, p: C -> bool): (r: set<int>)
    requires HasColumn(rows, col)
    ensures forall i :: 0 <= i < |rows| && p(rows[i].cells[col]) ==> rows[i].key in r
    ensures forall k :: k in r ==> exists i :: 0 <= i < |rows| && p(rows[i].cells[col]) && rows[i].key == k
  {
    set i | 0 <= i < |rows| && p(rows[i].cells[col]) :: rows[i].key
  }

  /** `df.drop(labels)`: every row whose key is listed goes, in one sweep. */
  function WithoutLabels<C>(rows: seq<Row<C>>, labels: set<int>): (r: seq<Row<C>>)
    ensures |r| <= |rows|
    ensures forall i :: 0 <= i < |r| ==> r[i].key !in labels
    ensures forall i :: 0 <= i < |r| ==> r[i] in rows
    ensures forall i :: 0 <= i < |rows| && rows[i].key !in labels ==> rows[i] in r
    ensures IsSubsequence(r, rows)
  {
    if |rows| == 0 then []
    else
      var rest := WithoutLabels(rows[1..], labels);
      SubsequenceMembers(rest, rows[1..]);
      if rows[0].key in labels then
        SubsequenceOfSuffix(rest, rows, 1);
        rest
      else
        SubsequenceCons(rows[0], rest, rows[1..]);
        assert rows == [rows[0]] + rows[1..];
        [rows[0]] + rest
  }

  /** Removing by label keeps every row with an unlisted label as often as it
      occurs, duplicates included, and no row with a listed one. */
  lemma {:induction false} WithoutLabelsCounts<C>(rows: seq<Row<C>>, labels: set<int>)
    ensures forall x :: multiset(WithoutLabels(rows, labels))[x] == if x.key in labels then 0 else multiset(rows)[x]
    decreases |rows|
  {
    if |rows| > 0 {
      WithoutLabelsCounts(rows[1..], labels);
      var rest := WithoutLabels(rows[1..], labels);
      assert rows == [rows[0]] + rows[1..];
      assert multiset(rows) == multiset([rows[0]]) + multiset(rows[1..]);
      if rows[0].key !in labels {
        assert multiset([rows[0]] + rest) == multiset([rows[0]]) + multiset(rest);
      }
    }
  }

  /** `df.drop(df[mask].index)` where the mask tests column `col` with `p`:
      KeyError without that column; otherwise no survivor satisfies `p`, and the
      survivors are rows of the input. */
  function DropRowsWhere<C>(t: Table<C>, col: string, p: C -> bool): (r: Result<Table<C>>)
    requires WellFormed(t)
    ensures r.Ok? <==> col in t.columns
    ensures r.Err? ==> r.error == MissingColumn(col)
    ensures r.Ok? ==>
      && r.value.columns == t.columns
      && WellFormed(r.value)
      && |r.value.rows| <= |t.rows|
      && (forall i :: 0 <= i < |r.value.rows| ==> r.value.rows[i] in t.rows)
      && (forall i :: 0 <= i < |r.value.rows| ==> !p(r.value.rows[i].cells[col]))
  {
    if col !in t.columns then Err(MissingColumn(col))
    else
      var marked := MarkedLabels(t.rows, col, p);
      var kept := WithoutLabels(t.rows, marked);
      assert forall i :: 0 <= i < |kept| ==> !p(kept[i].cells[col]) by {
        forall i | 0 <= i < |kept|
          ensures !p(kept[i].cells[col])
        {
          var j :| 0 <= j < |t.rows| && t.rows[j] == kept[i];
        }
      }
      Ok(Table(t.columns, kept))
  }

  /** Whatever the labels are, the survivors of a mask-drop keep their input
      order, and a row survives whenever no row sharing its label is masked. */
  lemma DropRowsWhereKeeps<C>(t: Table<C>, col: string, p: C -> bool)
    requires WellFormed(t) && col in t.columns
    ensures HasColumn(t.rows, col)
    ensures IsSubsequence(DropRowsWhere(t, col, p).value.rows, t.rows)
    ensures forall x :: x in t.rows && !SharesMarkedLabel(t.rows, col, p, x) ==> x in DropRowsWhere(t, col, p).value.rows
  {
    assert DropRowsWhere(t, col, p).value.rows == WithoutLabels(t.rows, MarkedLabels(t.rows, col, p));
  }

  /** Whatever the labels are, a mask-drop keeps each row exactly as often as it
      occurs when no row sharing its label is masked, and removes it otherwise. */
  lemma DropRowsWhereCounts<C>(t: Table<C>, col: string, p: C -> bool)
    requires WellFormed(t) && col in t.columns
    ensures HasColumn(t.rows, col)
    ensures forall x :: multiset(DropRowsWhere(t, col, p).value.rows)[x]
                        == if SharesMarkedLabel(t.rows, col, p, x) then 0 else multiset(t.rows)[x]
  {
    var marked := MarkedLabels(t.rows, col, p);
    assert DropRowsWhere(t, col, p).value.rows == WithoutLabels(t.rows, marked);
    WithoutLabelsCounts(t.rows, marked);
    forall x: Row<C>
      ensures x.key in marked <==> SharesMarkedLabel(t.rows, col, p, x)
    {
    }
  }

  /** Some row with the same label as `x` (possibly `x` itself) is masked, so
      `drop` removes `x` too. */
  predicate SharesMarkedLabel<C>(rows: seq<Row<C>>, col: string, p: C -> bool, x: Row<C>)
    requires HasColumn(rows, col)
  {
    exists i :: 0 <= i < |rows| && rows[i].key == x.key && p(rows[i].cells[col])
  }

  /** The reference filter: the rows whose `col` cell does not satisfy `p`, in order. */
  function KeepUnless<C>(rows: seq<Row<C>>, col: string, p: C -> bool): (r: seq<Row<C>>)
    requires HasColumn(rows, col)
    ensures |r| <= |rows|
    ensures forall i :: 0 <= i < |r| ==> r[i] in rows && !p(r[i].cells[col])
  {
    if |rows| == 0 then []
    else if p(rows[0].cells[col]) then KeepUnless(rows[1..], col, p)
    else [rows[0]] + KeepUnless(rows[1..], col, p)
  }

  /** With unique labels, two mask-drops in a row are the two filters in a row. */
  lemma TwoDropsAreFilters<C>(t: Table<C>, c1: string, p1: C -> bool, c2: string, p2: C -> bool)
    requires WellFormed(t) && UniqueLabels(t.rows)
    requires c1 in t.columns && c2 in t.columns
    ensures HasColumn(t.rows, c1) && HasColumn(KeepUnless(t.rows, c1, p1), c2)
    ensures DropRowsWhere(t, c1, p1).Ok?
    ensures DropRowsWhere(DropRowsWhere(t, c1, p1).value, c2, p2)
      == Ok(Table(t.columns, KeepUnless(KeepUnless(t.rows, c1, p1), c2, p2)))
  {
    DropRowsWhereIsFilter(t, c1, p1);
    KeepUnlessUnique(t.rows, c1, p1);
    DropRowsWhereIsFilter(DropRowsWhere(t, c1, p1).value, c2, p2);
  }

  /** Filtering keeps every column the rows had. */
  lemma KeepUnlessKeepsColumn<C>(rows: seq<Row<C>>, col: string, p: C -> bool, other: string)
    requires HasColumn(rows, col) && HasColumn(rows, other)
    ensures HasColumn(KeepUnless(rows, col, p), other)
  {
    var r := KeepUnless(rows, col, p);
    forall i | 0 <= i < |r|
      ensures other in r[i].cells
    {
      var j :| 0 <= j < |rows| && rows[j] == r[i];
    }
  }

  /** `WithoutCell` on every row. */
  function WithoutCellAll<C>(rows: seq<Row<C>>, name: string): (r: seq<Row<C>>)
    ensures |r| == |rows|
    ensures forall i :: 0 <= i < |rows| ==> r[i] == WithoutCell(rows[i], name)
  {
    if |rows| == 0 then [] else [WithoutCell(rows[0], name)] + WithoutCellAll(rows[1..], name)
  }

  /** Filtering keeps labels unique. */
  lemma {:induction false} KeepUnlessUnique<C>(rows: seq<Row<C>>, col: string, p: C -> bool)
    requires HasColumn(rows, col)
    requires UniqueLabels(rows)
    ensures UniqueLabels(KeepUnless(rows, col, p))
    decreases |rows|
  {
    if |rows| > 0 {
      KeepUnlessUnique(rows[1..], col, p);
      var rest := KeepUnless(rows[1..], col, p);
      forall i | 0 <= i < |rest|
        ensures rest[i].key != rows[0].key
      {
        var j :| 0 <= j < |rows[1..]| && rows[1..][j] == rest[i];
        assert rows[j + 1] == rest[i];
      }
    }
  }

  /** Dropping by key agrees with the filter whenever a key is marked exactly
      when its own row satisfies `p`. */
  lemma {:induction false} WithoutLabelsIsFilter<C>(rows: seq<Row<C>>, col: string, p: C -> bool, labels: set<int>)
    requires HasColumn(rows, col)
    requires forall i :: 0 <= i < |rows| ==> (rows[i].key in labels <==> p(rows[i].cells[col]))
    ensures WithoutLabels(rows, labels) == KeepUnless(rows, col, p)
    decreases |rows|
  {
    if |rows| > 0 {
      WithoutLabelsIsFilter(rows[1..], col, p, labels);
    }
  }

  /** With unique row labels, `df.drop(df[mask].index)` keeps exactly the rows
      that fail the mask, in their original order. */
  lemma DropRowsWhereIsFilter<C>(t: Table<C>, col: string, p: C -> bool)
    requires WellFormed(t)
    requires UniqueLabels(t.rows)
    requires col in t.columns
    ensures DropRowsWhere(t, col, p) == Ok(Table(t.columns, KeepUnless(t.rows, col, p)))
  {
    var marked := MarkedLabels(t.rows, col, p);
    forall i | 0 <= i < |t.rows|
      ensures t.rows[i].key in marked <==> p(t.rows[i].cells[col])
    {
      if t.rows[i].key in marked {
        var j :| 0 <= j < |t.rows| && p(t.rows[j].cells[col]) && t.rows[j].key == t.rows[i].key;
        assert j == i;
      }
    }
    WithoutLabelsIsFilter(t.rows, col, p, marked);
  }

  /** A row-wise update of `target` computed from the `source` and `target` cells,
      which may fail on a row; the whole update then fails with `e`. */
  function UpdateRows<C>(rows: seq<Row<C>>, target: string, source: string, f: (C, C) -> Option<C>, e: CleanError): (r: Result<seq<Row<C>>>)
    requires HasColumn(rows, target) && HasColumn(rows, source)
    ensures r.Ok? <==> forall i :: 0 <= i < |rows| ==> f(rows[i].cells[source], rows[i].cells[target]).Some?
    ensures r.Err? ==> r.error == e
    ensures r.Ok? ==>
      && |r.value| == |rows|
      && forall i :: 0 <= i < |rows| ==>
           r.value[i] == SetCell(rows[i], target, f(rows[i].cells[source], rows[i].cells[target]).value)
  {
    if |rows| == 0 then Ok([])
    else
      match f(rows[0].cells[source], rows[0].cells[target])
      case None => Err(e)
      case Some(v) =>
        var rest := UpdateRows(rows[1..], target, source, f, e);
        if rest.Err? then
          assert exists i :: 0 <= i < |rows| && f(rows[i].cells[source], rows[i].cells[target]).None? by {
            var j :| 0 <= j < |rows| - 1 && f(rows[1..][j].cells[source], rows[1..][j].cells[target]).None?;
            assert rows[1..][j] == rows[j + 1];
          }
          Err(e)
        else
          Ok([SetCell(rows[0], target, v)] + rest.value)
  }

  /** `df[target] = df.apply(g, axis=1)` (or a column-wide conversion when
      `source == target`): KeyError when a column is missing, `e` when `f` fails
      on some row, otherwise every row is updated and nothing else changes. */
  function UpdateColumn<C>(t: Table<C>, target: string, source: string, f: (C, C) -> Option<C>, e: CleanError): (r: Result<Table<C>>)
    requires WellFormed(t)
    ensures source !in t.columns ==> r == Err(MissingColumn(source))
    ensures source in t.columns && target !in t.columns ==> r == Err(MissingColumn(target))
    ensures source in t.columns && target in t.columns ==>
      (r.Ok? <==> forall i :: 0 <= i < |t.rows| ==> f(t.rows[i].cells[source], t.rows[i].cells[target]).Some?)
    ensures r.Err? && source in t.columns && target in t.columns ==> r.error == e
    ensures r.Ok? ==>
      && r.value.columns == t.columns
      && WellFormed(r.value)
      && |r.value.rows| == |t.rows|
      && forall i :: 0 <= i < |t.rows| ==>
           r.value.rows[i] == SetCell(t.rows[i], target, f(t.rows[i].cells[source], t.rows[i].cells[target]).value)
  {
    if source !in t.columns then Err(MissingColumn(source))
    else if target !in t.columns then Err(MissingColumn(target))
    else
      var rows :- UpdateRows(t.rows, target, source, f, e);
      Ok(Table(t.columns, rows))
  }

  /** One column assignment of a cleaner: `target` gets `f(source cell, target cell)`
      on every row; `None` on some row makes the whole statement raise `e`. */
  datatype Step<!C> = Step(target: string, source: string, f: (C, C) -> Option<C>, e: CleanError)

  /** A statement `df[col] = df[col].<map g>` that cannot fail; its error value is never produced. */
  function MapStep<C>(col: string, g: C -> C): Step<C> {
    Step(col, col, (_, v) => Some(g(v)), MissingColumn(col))
  }

  predicate StepsUse<C>(steps: seq<Step<C>>, columns: set<string>) {
    forall k :: 0 <= k < |steps| ==> steps[k].target in columns && steps[k].source in columns
  }

  /** The statements run one after another, each over the whole table. */
  function RunTable<C>(t: Table<C>, steps: seq<Step<C>>): (r: Result<Table<C>>)
    requires WellFormed(t)
    ensures r.Ok? ==> WellFormed(r.value) && r.value.columns == t.columns && |r.value.rows| == |t.rows|
    decreases |steps|
  {
    if |steps| == 0 then Ok(t)
    else
      var t' :- UpdateColumn(t, steps[0].target, steps[0].source, steps[0].f, steps[0].e);
      RunTable(t', steps[1..])
  }

  /** One statement applied to a single row. */
  function RunStep<C>(row: Row<C>, s: Step<C>): (r: Result<Row<C>>)
    requires s.target in row.cells && s.source in row.cells
    ensures r.Ok? ==> r.value.key == row.key && r.value.cells.Keys == row.cells.Keys
  {
    match s.f(row.cells[s.source], row.cells[s.target])
    case None => Err(s.e)
    case Some(v) => Ok(SetCell(row, s.target, v))
  }

  /** A table run succeeds only if every statement's columns exist. */
  lemma {:induction false} RunTableNeedsColumns<C>(t: Table<C>, steps: seq<Step<C>>)
    requires WellFormed(t)
    requires RunTable(t, steps).Ok?
    ensures StepsUse(steps, ColumnSet(t.columns))
    decreases |steps|
  {
    if |steps| > 0 {
      var t' := UpdateColumn(t, steps[0].target, steps[0].source, steps[0].f, steps[0].e).value;
      RunTableNeedsColumns(t', steps[1..]);
      forall k | 0 <= k < |steps|
        ensures steps[k].target in ColumnSet(t.columns) && steps[k].source in ColumnSet(t.columns)
      {
        if k > 0 {
          assert steps[k] == steps[1..][k - 1];
        }
      }
    }
  }

  /** The statements applied to a single row, in order. */
  function RunRow<C>(row: Row<C>, steps: seq<Step<C>>): (r: Result<Row<C>>)
    requires StepsUse(steps, row.cells.Keys)
    ensures r.Ok? ==> r.value.key == row.key && r.value.cells.Keys == row.cells.Keys
    decreases |steps|
  {
    if |steps| == 0 then Ok(row)
    else
      var row' :- RunStep(row, steps[0]);
      RunRow(row', steps[1..])
  }

  lemma MapStepRuns<C>(row: Row<C>, col: string, g: C -> C)
    requires col in row.cells
    ensures RunStep(row, MapStep(col, g)) == Ok(SetCell(row, col, g(row.cells[col])))
  {
  }

  /** Unfolds a leading `MapStep` of `RunRow`. */
  lemma RunRowMapFirst<C>(row: Row<C>, steps: seq<Step<C>>, col: string, g: C -> C)
    requires |steps| > 0 && steps[0] == MapStep(col, g)
    requires StepsUse(steps, row.cells.Keys)
    ensures StepsUse(steps[1..], SetCell(row, col, g(row.cells[col])).cells.Keys)
    ensures RunRow(row, steps) == RunRow(SetCell(row, col, g(row.cells[col])), steps[1..])
  {
    MapStepRuns(row, col, g);
    RunRowFirst(row, steps);
  }

  /** Unfolds the first statement of `RunRow`. */
  lemma RunRowFirst<C>(row: Row<C>, steps: seq<Step<C>>)
    requires |steps| > 0
    requires StepsUse(steps, row.cells.Keys)
    ensures RunStep(row, steps[0]).Err? ==> RunRow(row, steps) == Err(RunStep(row, steps[0]).error)
    ensures RunStep(row, steps[0]).Ok? ==>
      && StepsUse(steps[1..], RunStep(row, steps[0]).value.cells.Keys)
      && RunRow(row, steps) == RunRow(RunStep(row, steps[0]).value, steps[1..])
  {
  }

  lemma {:induction false} RunRowConcat<C>(row: Row<C>, a: seq<Step<C>>, b: seq<Step<C>>)
    requires StepsUse(a, row.cells.Keys) && StepsUse(b, row.cells.Keys)
    ensures StepsUse(a + b, row.cells.Keys)
    ensures RunRow(row, a + b) ==
      match RunRow(row, a)
      case Err(e) => Err(e)
      case Ok(row') => RunRow(row', b)
    decreases |a|
  {
    assert forall k :: 0 <= k < |a| ==> (a + b)[k] == a[k];
    assert forall k :: 0 <= k < |b| ==> (a + b)[|a| + k] == b[k];
    if |a| > 0 {
      assert (a + b)[1..] == a[1..] + b;
      match RunStep(row, a[0])
      case Err(_) =>
      case Ok(row') => RunRowConcat(row', a[1..], b);
    } else {
      assert a + b == b;
    }
  }

  /** One statement run over the whole table fails exactly when it fails on some
      row, and otherwise each row of the result is that row's own update. */
  lemma StepIsRowwise<C>(t: Table<C>, s: Step<C>)
    requires WellFormed(t)
    requires s.target in ColumnSet(t.columns) && s.source in ColumnSet(t.columns)
    ensures forall i :: 0 <= i < |t.rows| ==> s.target in t.rows[i].cells && s.source in t.rows[i].cells
    ensures UpdateColumn(t, s.target, s.source, s.f, s.e).Ok? <==>
      forall i :: 0 <= i < |t.rows| ==> RunStep(t.rows[i], s).Ok?
    ensures UpdateColumn(t, s.target, s.source, s.f, s.e).Ok? ==>
      forall i :: 0 <= i < |t.rows| ==> RunStep(t.rows[i], s) == Ok(UpdateColumn(t, s.target, s.source, s.f, s.e).value.rows[i])
  {
  }

  /** Running the statements column by column is the same as running them row by
      row: the table fails exactly when some row fails, and otherwise row `i` of
      the result is row `i` run through every statement. */
  lemma {:induction false} RunTableIsRowwise<C>(t: Table<C>, steps: seq<Step<C>>)
    requires WellFormed(t)
    requires StepsUse(steps, ColumnSet(t.columns))
    ensures forall i :: 0 <= i < |t.rows| ==> StepsUse(steps, t.rows[i].cells.Keys)
    ensures RunTable(t, steps).Ok? <==> forall i :: 0 <= i < |t.rows| ==> RunRow(t.rows[i], steps).Ok?
    ensures RunTable(t, steps).Ok? ==>
      forall i :: 0 <= i < |t.rows| ==> RunTable(t, steps).value.rows[i] == RunRow(t.rows[i], steps).value
    decreases |steps|
  {
    if |steps| > 0 {
      var s := steps[0];
      var r := UpdateColumn(t, s.target, s.source, s.f, s.e);
      if r.Err? {
        RowwiseFirstFails(t, steps);
      } else {
        RowwiseFirstRuns(t, steps);
        RunTableIsRowwise(r.value, steps[1..]);
        RowwiseAfterFirst(t, r.value, steps);
      }
    }
  }

  /** When the first statement fails on the table, it fails on some row, and both
      runs fail. */
  lemma RowwiseFirstFails<C>(t: Table<C>, steps: seq<Step<C>>)
    requires WellFormed(t) && |steps| > 0
    requires StepsUse(steps, ColumnSet(t.columns))
    requires UpdateColumn(t, steps[0].target, steps[0].source, steps[0].f, steps[0].e).Err?
    ensures forall i :: 0 <= i < |t.rows| ==> StepsUse(steps, t.rows[i].cells.Keys)
    ensures RunTable(t, steps).Err?
    ensures exists i :: 0 <= i < |t.rows| && RunRow(t.rows[i], steps).Err?
  {
    StepIsRowwise(t, steps[0]);
    var i :| 0 <= i < |t.rows| && RunStep(t.rows[i], steps[0]).Err?;
    RunRowFirst(t.rows[i], steps);
  }

  /** When the first statement succeeds on the table, both runs continue from its
      result. */
  lemma RowwiseFirstRuns<C>(t: Table<C>, steps: seq<Step<C>>)
    requires WellFormed(t) && |steps| > 0
    requires StepsUse(steps, ColumnSet(t.columns))
    requires UpdateColumn(t, steps[0].target, steps[0].source, steps[0].f, steps[0].e).Ok?
    ensures var t' := UpdateColumn(t, steps[0].target, steps[0].source, steps[0].f, steps[0].e).value;
      && WellFormed(t') && |t'.rows| == |t.rows|
      && StepsUse(steps[1..], ColumnSet(t'.columns))
      && RunTable(t, steps) == RunTable(t', steps[1..])
      && forall i :: 0 <= i < |t.rows| ==>
           && StepsUse(steps, t.rows[i].cells.Keys)
           && StepsUse(steps[1..], t'.rows[i].cells.Keys)
           && RunRow(t.rows[i], steps) == RunRow(t'.rows[i], steps[1..])
  {
    var s := steps[0];
    StepIsRowwise(t, s);
    var t' := UpdateColumn(t, s.target, s.source, s.f, s.e).value;
    assert RunTable(t, steps) == RunTable(t', steps[1..]);
    assert StepsUse(steps[1..], ColumnSet(t'.columns));
    RunRowsAdvance(t.rows, t'.rows, steps);
  }

  /** The inductive step of `RunTableIsRowwise`, once the first statement has run. */
  lemma RowwiseAfterFirst<C>(t: Table<C>, t': Table<C>, steps: seq<Step<C>>)
    requires WellFormed(t) && WellFormed(t') && |steps| > 0 && |t'.rows| == |t.rows|
    requires RunTable(t, steps) == RunTable(t', steps[1..])
    requires forall i :: 0 <= i < |t.rows| ==>
      && StepsUse(steps, t.rows[i].cells.Keys)
      && StepsUse(steps[1..], t'.rows[i].cells.Keys)
      && RunRow(t.rows[i], steps) == RunRow(t'.rows[i], steps[1..])
    requires RunTable(t', steps[1..]).Ok? <==> forall i :: 0 <= i < |t'.rows| ==> RunRow(t'.rows[i], steps[1..]).Ok?
    requires RunTable(t', steps[1..]).Ok? ==>
      forall i :: 0 <= i < |t'.rows| ==> RunTable(t', steps[1..]).value.rows[i] == RunRow(t'.rows[i], steps[1..]).value
    ensures RunTable(t, steps).Ok? <==> forall i :: 0 <= i < |t.rows| ==> RunRow(t.rows[i], steps).Ok?
    ensures RunTable(t, steps).Ok? ==>
      forall i :: 0 <= i < |t.rows| ==> RunTable(t, steps).value.rows[i] == RunRow(t.rows[i], steps).value
  {
  }

  /** Every row takes the first statement's step, and the rest of the run
      continues from there. */
  lemma RunRowsAdvance<C>(rows: seq<Row<C>>, rows': seq<Row<C>>, steps: seq<Step<C>>)
    requires |steps| > 0 && |rows'| == |rows|
    requires forall i :: 0 <= i < |rows| ==>
      && StepsUse(steps, rows[i].cells.Keys)
      && steps[0].target in rows[i].cells && steps[0].source in rows[i].cells
      && RunStep(rows[i], steps[0]) == Ok(rows'[i])
    ensures forall i :: 0 <= i < |rows| ==>
      StepsUse(steps[1..], rows'[i].cells.Keys) && RunRow(rows[i], steps) == RunRow(rows'[i], steps[1..])
  {
    forall i | 0 <= i < |rows|
      ensures StepsUse(steps[1..], rows'[i].cells.Keys) && RunRow(rows[i], steps) == RunRow(rows'[i], steps[1..])
    {
      RunRowFirst(rows[i], steps);
    }
  }
}
