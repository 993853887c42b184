/** `DataCleaning.clean_products_data` and `convert_product_weights`
    (data_cleaning.py:51-62): drop every product with a missing value in any
    column, then append `*` to each weight.  A cell is `None` when its value is
    missing (NaN) and `Some(text)` otherwise. */
module Products {
  import opened Results
  import opened Text
  import opened Tables

  type Cell = Option<string>

  /** No cell of the row is missing. */
  predicate Complete(row: Row<Cell>) {
    forall c :: c in row.cells ==> row.cells[c].Some?
  }

  /** Line 54, `df.dropna()`: the complete rows, in order; the columns stay. */
  function CompleteRows(rows: seq<Row<Cell>>): (r: seq<Row<Cell>>)
    ensures |r| <= |rows|
    ensures forall i :: 0 <= i < |r| ==> r[i] in rows && Complete(r[i])
    ensures forall row :: row in rows && Complete(row) ==> row in r
    ensures IsSubsequence(r, rows)
  {
    if |rows| == 0 then []
    else
      var rest := CompleteRows(rows[1..]);
      SubsequenceMembers(rest, rows[1..]);
      if Complete(rows[0]) then
        SubsequenceCons(rows[0], rest, rows[1..]);
        assert rows == [rows[0]] + rows[1..];
        [rows[0]] + rest
      else
        SubsequenceOfSuffix(rest, rows, 1);
        rest
  }

  /** `dropna` keeps each complete row as many times as it occurs, and no other row. */
  lemma {:induction false} CompleteRowsCounts(rows: seq<Row<Cell>>)
    ensures forall row :: multiset(CompleteRows(rows))[row] == if Complete(row) then multiset(rows)[row] else 0
    decreases |rows|
  {
    if |rows| > 0 {
      CompleteRowsCounts(rows[1..]);
      var rest := CompleteRows(rows[1..]);
      assert rows == [rows[0]] + rows[1..];
      assert multiset(rows) == multiset([rows[0]]) + multiset(rows[1..]);
      if Complete(rows[0]) {
        assert multiset([rows[0]] + rest) == multiset([rows[0]]) + multiset(rest);
      }
    }
  }

  function DropNa(t: Table<Cell>): (r: Table<Cell>)
    requires WellFormed(t)
    ensures WellFormed(r)
    ensures r.columns == t.columns
    ensures forall i :: 0 <= i < |r.rows| ==> Complete(r.rows[i])
  {
    Table(t.columns, CompleteRows(t.rows))
  }

  /** Dropping missing values twice changes nothing more. */
  lemma {:induction false} CompleteRowsIdempotent(rows: seq<Row<Cell>>)
    ensures CompleteRows(CompleteRows(rows)) == CompleteRows(rows)
    decreases |rows|
  {
    if |rows| > 0 {
      CompleteRowsIdempotent(rows[1..]);
      var rest := CompleteRows(rows[1..]);
      if Complete(rows[0]) {
        assert ([rows[0]] + rest)[1..] == rest;
      }
    }
  }

  /** Line 61's lambda on one cell: a string gets `*` appended; a missing value
      makes the concatenation raise. */
  function AppendStar(v: Cell): (r: Option<Cell>)
    ensures r.Some? <==> v.Some?
    ensures r.Some? ==>
      && r.value.Some?
      && |r.value.value| == |v.value| + 1
      && r.value.value[..|v.value|] == v.value
      && r.value.value[|v.value|] == '*'
  {
    match v
    case None => None
    case Some(w) => Some(Some(w + "*"))
  }

  /** Undoes `AppendStar` on a marked weight. */
  function StripStar(w: string): (r: string)
    requires |w| > 0 && w[|w| - 1] == '*'
    ensures |r| == |w| - 1
  {
    w[..|w| - 1]
  }

  lemma StripStarInverts(w: string)
    ensures AppendStar(Some(w)).Some? && AppendStar(Some(w)).value.Some?
    ensures StripStar(AppendStar(Some(w)).value.value) == w
  {
    assert (w + "*")[..|w|] == w;
  }

  /** `convert_product_weights` (lines 58-62): KeyError without a `weight` column, a
      TypeError on a missing weight, otherwise every weight gets `*` and nothing else
      changes. */
  function ConvertProductWeights(t: Table<Cell>): (r: Result<Table<Cell>>)
    requires WellFormed(t)
    ensures "weight" !in t.columns ==> r == Err(MissingColumn("weight"))
    ensures "weight" in t.columns ==>
      (r.Ok? <==> forall i :: 0 <= i < |t.rows| ==> t.rows[i].cells["weight"].Some?)
    ensures r.Err? && "weight" in t.columns ==> r.error == MissingValue("weight")
    ensures r.Ok? ==>
      && r.value.columns == t.columns
      && WellFormed(r.value)
      && |r.value.rows| == |t.rows|
      && forall i :: 0 <= i < |t.rows| ==>
           r.value.rows[i] == SetCell(t.rows[i], "weight", Some(t.rows[i].cells["weight"].value + "*"))
  {
    UpdateColumn(t, "weight", "weight", (_, v) => AppendStar(v), MissingValue("weight"))
  }

  /** `clean_products_data` (lines 51-56). */
  function CleanProductsData(t: Table<Cell>): (r: Result<Table<Cell>>)
    requires WellFormed(t)
    ensures r.Ok? <==> "weight" in t.columns
    ensures r.Err? ==> r.error == MissingColumn("weight")
    ensures r.Ok? ==>
      && r.value.columns == t.columns
      && WellFormed(r.value)
  {
    ConvertProductWeights(DropNa(t))
  }

  /** The products kept are exactly the complete ones, in order, each with `*`
      appended to its weight and every other cell unchanged. */
  lemma CleanProductsDataRows(t: Table<Cell>)
    requires WellFormed(t)
    requires "weight" in t.columns
    ensures CleanProductsData(t).Ok?
    ensures |CleanProductsData(t).value.rows| == |CompleteRows(t.rows)|
    ensures forall i :: 0 <= i < |CompleteRows(t.rows)| ==>
      "weight" in CompleteRows(t.rows)[i].cells
      && Starred(CompleteRows(t.rows)[i], CleanProductsData(t).value.rows[i])
  {
    var d := DropNa(t);
    assert CleanProductsData(t) == ConvertProductWeights(d);
    ConvertCompleteTable(d);
  }

  /** `after` is `before` with `*` appended to its weight: same label, same
      columns, no missing cell, every other cell unchanged. */
  predicate Starred(before: Row<Cell>, after: Row<Cell>)
    requires "weight" in before.cells
  {
    && Complete(after)
    && after.key == before.key
    && after.cells.Keys == before.cells.Keys
    && before.cells["weight"].Some?
    && after.cells["weight"] == Some(before.cells["weight"].value + "*")
    && forall c :: c in before.cells && c != "weight" ==> after.cells[c] == before.cells[c]
  }

  /** The weight conversion succeeds on a table without missing values and stars
      every row. */
  lemma ConvertCompleteTable(d: Table<Cell>)
    requires WellFormed(d) && "weight" in d.columns
    requires forall i :: 0 <= i < |d.rows| ==> Complete(d.rows[i])
    ensures ConvertProductWeights(d).Ok?
    ensures |ConvertProductWeights(d).value.rows| == |d.rows|
    ensures forall i :: 0 <= i < |d.rows| ==>
      "weight" in d.rows[i].cells && Starred(d.rows[i], ConvertProductWeights(d).value.rows[i])
  {
    assert forall i :: 0 <= i < |d.rows| ==> "weight" in d.rows[i].cells;
    var out := ConvertProductWeights(d).value;
    forall i | 0 <= i < |d.rows|
      ensures Starred(d.rows[i], out.rows[i])
    {
      StarredRow(d.rows[i]);
    }
  }

  /** Appending `*` to the weight of a complete row stars it. */
  lemma StarredRow(row: Row<Cell>)
    requires Complete(row) && "weight" in row.cells
    ensures Starred(row, SetCell(row, "weight", Some(row.cells["weight"].value + "*")))
  {
  }

  /** Converting the converted weights again appends a second `*`: the
      conversion is not idempotent. */
  lemma ConvertProductWeightsTwice(t: Table<Cell>)
    requires WellFormed(t)
    requires ConvertProductWeights(t).Ok?
    ensures ConvertProductWeights(ConvertProductWeights(t).value).Ok?
    ensures forall i :: 0 <= i < |t.rows| ==>
      && "weight" in t.rows[i].cells && t.rows[i].cells["weight"].Some?
      && ConvertProductWeights(ConvertProductWeights(t).value).value.rows[i].cells["weight"]
           == Some(t.rows[i].cells["weight"].value + "**")
  {
    WeightsStarred(t);
    var once := ConvertProductWeights(t).value;
    WeightsStarred(once);
    forall i | 0 <= i < |t.rows|
      ensures ConvertProductWeights(once).value.rows[i].cells["weight"] == Some(t.rows[i].cells["weight"].value + "**")
    {
      StarTwice(t.rows[i].cells["weight"].value);
    }
  }

  /** A successful conversion stars every weight, and leaves none missing. */
  lemma WeightsStarred(t: Table<Cell>)
    requires WellFormed(t)
    requires ConvertProductWeights(t).Ok?
    ensures WellFormed(ConvertProductWeights(t).value)
    ensures |ConvertProductWeights(t).value.rows| == |t.rows|
    ensures ConvertProductWeights(ConvertProductWeights(t).value).Ok?
    ensures forall i :: 0 <= i < |t.rows| ==>
      && "weight" in t.rows[i].cells && t.rows[i].cells["weight"].Some?
      && ConvertProductWeights(t).value.rows[i].cells["weight"] == Some(t.rows[i].cells["weight"].value + "*")
  {
  }

  lemma StarTwice(w: string)
    ensures w + "*" + "*" == w + "**"
  {
  }

  /** After `dropna` no weight is missing, so the cleaned table converts again. */
  lemma CleanProductsDataConvertsAgain(t: Table<Cell>)
    requires WellFormed(t)
    requires CleanProductsData(t).Ok?
    ensures ConvertProductWeights(CleanProductsData(t).value).Ok?
  {
    CleanProductsDataRows(t);
  }

  /** A table with no missing value loses no row to `dropna`. */
  lemma {:induction false} CompleteRowsOfComplete(rows: seq<Row<Cell>>)
    requires forall i :: 0 <= i < |rows| ==> Complete(rows[i])
    ensures CompleteRows(rows) == rows
    decreases |rows|
  {
    if |rows| > 0 {
      CompleteRowsOfComplete(rows[1..]);
      assert Complete(rows[0]);
      assert rows == [rows[0]] + rows[1..];
    }
  }
}
