/** `DataCleaning.clean_orders_data` (data_cleaning.py:64-70): the redundant
    `level_0` column goes and nothing else changes. */
module Orders {
  import opened Results
  import opened Text
  import opened Tables

  /** Line 67; the summary printed on line 69 is output only. */
  function CleanOrdersData<C>(t: Table<C>): (r: Result<Table<C>>)
    requires WellFormed(t)
    ensures r.Ok? <==> "level_0" in t.columns
    ensures r.Err? ==> r.error == MissingColumn("level_0")
    ensures r.Ok? ==>
      && WellFormed(r.value)
      && "level_0" !in r.value.columns
      && (forall c :: c in r.value.columns <==> c in t.columns && c != "level_0")
      && |r.value.rows| == |t.rows|
  {
    DropColumn(t, "level_0")
  }

  /** Every order keeps its label and every cell except `level_0`, and the other
      columns keep their order. */
  lemma CleanOrdersDataKeepsOrders<C>(t: Table<C>)
    requires WellFormed(t)
    requires "level_0" in t.columns
    ensures CleanOrdersData(t).Ok?
    ensures IsSubsequence(CleanOrdersData(t).value.columns, t.columns)
    ensures forall i :: 0 <= i < |t.rows| ==>
      && CleanOrdersData(t).value.rows[i].key == t.rows[i].key
      && CleanOrdersData(t).value.rows[i].cells.Keys == t.rows[i].cells.Keys - {"level_0"}
      && forall c :: c in CleanOrdersData(t).value.rows[i].cells ==>
           CleanOrdersData(t).value.rows[i].cells[c] == t.rows[i].cells[c]
  {
    DropColumnKeepsOrder(t, "level_0");
  }

  /** The cleaner is not idempotent: a second call finds no `level_0` and fails. */
  lemma CleanOrdersDataTwiceFails<C>(t: Table<C>)
    requires WellFormed(t)
    requires CleanOrdersData(t).Ok?
    ensures CleanOrdersData(CleanOrdersData(t).value) == Err(MissingColumn("level_0"))
  {
  }
}
