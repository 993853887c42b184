/** `DataCleaning.clean_card_data` (data_cleaning.py:32-44): drop the rows whose
    card number is the `NULL` sentinel or whose expiry date is not five characters
    long, keep only the digits of each card number, parse the payment date. */
module Cards {
  import opened Results
  import opened Text
  import opened Tables

  /** The columns the cleaner reads. */
  const CardColumns: set<string> := {"card_number", "expiry_date", "date_payment_confirmed"}

  /** Line 35's mask. */
  predicate IsNullCard(v: string) {
    v == "NULL"
  }

  /** Line 37's mask. */
  predicate IsMalformedExpiry(v: string) {
    |v| != 5
  }

  /** A card row survives lines 35 and 37. */
  predicate CardEligible(row: Row<string>)
    requires "card_number" in row.cells && "expiry_date" in row.cells
  {
    row.cells["card_number"] != "NULL" && |row.cells["expiry_date"]| == 5
  }

  /** The reference selection: the input rows that meet both conditions, in order. */
  function EligibleCards(rows: seq<Row<string>>): (r: seq<Row<string>>)
    requires HasColumn(rows, "card_number") && HasColumn(rows, "expiry_date")
    ensures |r| <= |rows|
    ensures forall i :: 0 <= i < |r| ==> r[i] in rows && CardEligible(r[i])
  {
    if |rows| == 0 then []
    else if CardEligible(rows[0]) then [rows[0]] + EligibleCards(rows[1..])
    else EligibleCards(rows[1..])
  }

  lemma {:induction false} EligibleCardsComplete(rows: seq<Row<string>>, row: Row<string>)
    requires HasColumn(rows, "card_number") && HasColumn(rows, "expiry_date")
    requires row in rows && CardEligible(row)
    ensures row in EligibleCards(rows)
    decreases |rows|
  {
    if rows[0] != row {
      EligibleCardsComplete(rows[1..], row);
    }
  }

  /** Lines 35-37: drop the rows whose `card_number` is `NULL`, then the rows whose
      `expiry_date` is not five characters long. The columns stay as they are. */
  function SelectCards(t: Table<string>): (r: Result<Table<string>>)
    requires WellFormed(t)
    ensures r.Ok? <==> "card_number" in t.columns && "expiry_date" in t.columns
    ensures "card_number" !in t.columns ==> r == Err(MissingColumn("card_number"))
    ensures "card_number" in t.columns && "expiry_date" !in t.columns ==> r == Err(MissingColumn("expiry_date"))
    ensures r.Ok? ==>
      && WellFormed(r.value)
      && r.value.columns == t.columns
      && |r.value.rows| <= |t.rows|
  {
    var t1 :- DropRowsWhere(t, "card_number", IsNullCard);
    DropRowsWhere(t1, "expiry_date", IsMalformedExpiry)
  }

  /** Every row that survives lines 35-37 is an eligible input row, whatever the
      row labels are. */
  lemma SelectCardsSurvivors(t: Table<string>)
    requires WellFormed(t)
    requires SelectCards(t).Ok?
    ensures forall i :: 0 <= i < |SelectCards(t).value.rows| ==>
      SelectCards(t).value.rows[i] in t.rows && CardEligible(SelectCards(t).value.rows[i])
  {
    var t1 := DropRowsWhere(t, "card_number", IsNullCard).value;
    var t2 := DropRowsWhere(t1, "expiry_date", IsMalformedExpiry).value;
    assert SelectCards(t).value == t2;
    forall i | 0 <= i < |t2.rows|
      ensures t2.rows[i] in t.rows && CardEligible(t2.rows[i])
    {
      var k :| 0 <= k < |t1.rows| && t1.rows[k] == t2.rows[i];
    }
  }

  /** The two filters in a row keep exactly the eligible rows. */
  lemma {:induction false} FiltersAreEligible(rows: seq<Row<string>>)
    requires HasColumn(rows, "card_number") && HasColumn(rows, "expiry_date")
    ensures HasColumn(KeepUnless(rows, "card_number", IsNullCard), "expiry_date")
    ensures KeepUnless(KeepUnless(rows, "card_number", IsNullCard), "expiry_date", IsMalformedExpiry)
            == EligibleCards(rows)
    decreases |rows|
  {
    var first := KeepUnless(rows, "card_number", IsNullCard);
    assert HasColumn(first, "expiry_date") by {
      forall i | 0 <= i < |first|
        ensures "expiry_date" in first[i].cells
      {
        var j :| 0 <= j < |rows| && rows[j] == first[i];
      }
    }
    if |rows| > 0 {
      FiltersAreEligible(rows[1..]);
    }
  }

  /** With unique row labels, lines 35-37 keep exactly the input rows whose card
      number is not `NULL` and whose expiry date has five characters, in order. */
  lemma SelectCardsExact(t: Table<string>)
    requires WellFormed(t)
    requires UniqueLabels(t.rows)
    requires "card_number" in t.columns && "expiry_date" in t.columns
    ensures HasColumn(t.rows, "card_number") && HasColumn(t.rows, "expiry_date")
    ensures SelectCards(t).Ok?
    ensures SelectCards(t).value.rows == EligibleCards(t.rows)
  {
    DropRowsWhereIsFilter(t, "card_number", IsNullCard);
    var t1 := DropRowsWhere(t, "card_number", IsNullCard).value;
    KeepUnlessUnique(t.rows, "card_number", IsNullCard);
    DropRowsWhereIsFilter(t1, "expiry_date", IsMalformedExpiry);
    FiltersAreEligible(t.rows);
  }

  /** Lines 39-43 applied to one row: the card number keeps its digits only (the
      string cast changes nothing on a string), the payment date is parsed, and
      nothing else changes. */
  function CleanCardRow(row: Row<string>, toDatetime: string -> Option<string>): (r: Result<Row<string>>)
    requires CardColumns <= row.cells.Keys
    ensures r.Ok? <==> toDatetime(row.cells["date_payment_confirmed"]).Some?
    ensures r.Err? ==> r.error == UnparseableDate("date_payment_confirmed")
    ensures r.Ok? ==>
      && r.value.key == row.key
      && r.value.cells.Keys == row.cells.Keys
      && (forall c :: c in row.cells && c != "card_number" && c != "date_payment_confirmed" ==>
            r.value.cells[c] == row.cells[c])
      && AllDigits(r.value.cells["card_number"])
      && |r.value.cells["card_number"]| <= |row.cells["card_number"]|
      && r.value.cells["expiry_date"] == row.cells["expiry_date"]
      && r.value.cells["date_payment_confirmed"] == toDatetime(row.cells["date_payment_confirmed"]).value
  {
    match toDatetime(row.cells["date_payment_confirmed"])
    case None => Err(UnparseableDate("date_payment_confirmed"))
    case Some(d) =>
      Ok(SetCell(SetCell(row, "card_number", KeepDigits(row.cells["card_number"])), "date_payment_confirmed", d))
  }

  /** The digits of a cleaned card number are those of the raw value, in order. */
  lemma CleanCardNumberDigits(row: Row<string>, toDatetime: string -> Option<string>)
    requires CardColumns <= row.cells.Keys
    requires CleanCardRow(row, toDatetime).Ok?
    ensures IsSubsequence(CleanCardRow(row, toDatetime).value.cells["card_number"], row.cells["card_number"])
    ensures forall d :: IsDigit(d) ==>
      multiset(CleanCardRow(row, toDatetime).value.cells["card_number"])[d] == multiset(row.cells["card_number"])[d]
    ensures AllDigits(row.cells["card_number"]) ==>
      CleanCardRow(row, toDatetime).value.cells["card_number"] == row.cells["card_number"]
  {
    var raw := row.cells["card_number"];
    assert CleanCardRow(row, toDatetime).value.cells["card_number"] == KeepDigits(raw);
    KeepDigitsSubsequence(raw);
    KeepDigitsCounts(raw);
    if AllDigits(raw) {
      KeepDigitsOfDigits(raw);
    }
  }

  /** Lines 39-43 as statements; the string cast of line 39 is the identity on strings. */
  function CardSteps(toDatetime: string -> Option<string>): (r: seq<Step<string>>)
    ensures |r| == 2
    ensures forall k :: 0 <= k < |r| ==>
      r[k].target == r[k].source && r[k].target in {"card_number", "date_payment_confirmed"}
  {
    [ MapStep("card_number", KeepDigits),
      Step("date_payment_confirmed", "date_payment_confirmed", (_, v) => toDatetime(v),
           UnparseableDate("date_payment_confirmed")) ]
  }

  /** `clean_card_data`; `toDatetime` stands for `pd.to_datetime` (None: it raises). */
  function CleanCardData(t: Table<string>, toDatetime: string -> Option<string>): (r: Result<Table<string>>)
    requires WellFormed(t)
    ensures "card_number" !in t.columns ==> r == Err(MissingColumn("card_number"))
    ensures r.Ok? ==> WellFormed(r.value) && r.value.columns == t.columns && |r.value.rows| <= |t.rows|
  {
    var selected :- SelectCards(t);
    RunTable(selected, CardSteps(toDatetime))
  }

  /** The statements of lines 39-43 applied to one row are `CleanCardRow`. */
  lemma CardStepsAreCleanCardRow(row: Row<string>, toDatetime: string -> Option<string>)
    requires CardColumns <= row.cells.Keys
    ensures StepsUse(CardSteps(toDatetime), row.cells.Keys)
    ensures RunRow(row, CardSteps(toDatetime)) == CleanCardRow(row, toDatetime)
  {
    var steps := CardSteps(toDatetime);
    assert StepsUse(steps, row.cells.Keys);
    var a := SetCell(row, "card_number", KeepDigits(row.cells["card_number"]));
    RunRowMapFirst(row, steps, "card_number", KeepDigits);
    var rest := steps[1..];
    assert rest[0] == steps[1] && rest[1..] == [];
    RunRowFirst(a, rest);
    var d := toDatetime(row.cells["date_payment_confirmed"]);
    if d.Some? {
      assert RunStep(a, rest[0]) == Ok(SetCell(a, "date_payment_confirmed", d.value));
    }
  }

  /** Lines 39-43 run column by column agree with `CleanCardRow` on each row. */
  lemma {:induction false} CardStepsAreRowwise(s: Table<string>, toDatetime: string -> Option<string>)
    requires WellFormed(s)
    requires CardColumns <= ColumnSet(s.columns)
    ensures forall i :: 0 <= i < |s.rows| ==> CardColumns <= s.rows[i].cells.Keys
    ensures RunTable(s, CardSteps(toDatetime)).Ok? <==>
      forall i :: 0 <= i < |s.rows| ==> CleanCardRow(s.rows[i], toDatetime).Ok?
    ensures RunTable(s, CardSteps(toDatetime)).Ok? ==>
      && RunTable(s, CardSteps(toDatetime)).value.columns == s.columns
      && |RunTable(s, CardSteps(toDatetime)).value.rows| == |s.rows|
      && forall i :: 0 <= i < |s.rows| ==>
           RunTable(s, CardSteps(toDatetime)).value.rows[i] == CleanCardRow(s.rows[i], toDatetime).value
  {
    var steps := CardSteps(toDatetime);
    assert StepsUse(steps, ColumnSet(s.columns));
    RunTableIsRowwise(s, steps);
    forall i | 0 <= i < |s.rows|
      ensures CardColumns <= s.rows[i].cells.Keys
      ensures RunRow(s.rows[i], steps) == CleanCardRow(s.rows[i], toDatetime)
    {
      CardStepsAreCleanCardRow(s.rows[i], toDatetime);
    }
  }

  /** `clean_card_data` succeeds only on a table that has every column it reads. */
  lemma CleanCardDataNeedsColumns(t: Table<string>, toDatetime: string -> Option<string>)
    requires WellFormed(t)
    requires CleanCardData(t, toDatetime).Ok?
    ensures CardColumns <= ColumnSet(t.columns)
  {
    var s := SelectCards(t).value;
    var steps := CardSteps(toDatetime);
    assert CleanCardData(t, toDatetime) == RunTable(s, steps);
    RunTableNeedsColumns(s, steps);
    assert steps[1].target == "date_payment_confirmed";
  }

  /** The shape every row of the cleaned card table has. */
  predicate CleanCardShape(row: Row<string>)
    requires CardColumns <= row.cells.Keys
  {
    |row.cells["expiry_date"]| == 5 && AllDigits(row.cells["card_number"])
  }

  /** `out` is some eligible row of `t`, cleaned. */
  ghost predicate CardCleanedFrom(t: Table<string>, out: Row<string>, toDatetime: string -> Option<string>)
    requires WellFormed(t) && CardColumns <= ColumnSet(t.columns)
  {
    exists j :: && 0 <= j < |t.rows|
                && CardEligible(t.rows[j])
                && CleanCardRow(t.rows[j], toDatetime).Ok?
                && out == CleanCardRow(t.rows[j], toDatetime).value
  }

  /** Whatever the row labels, every row `clean_card_data` returns is an eligible
      input row, cleaned; the columns are the input's. */
  lemma CleanCardDataOrigins(t: Table<string>, toDatetime: string -> Option<string>)
    requires WellFormed(t)
    requires CleanCardData(t, toDatetime).Ok?
    ensures CardColumns <= ColumnSet(t.columns)
    ensures CleanCardData(t, toDatetime).value.columns == t.columns
    ensures |CleanCardData(t, toDatetime).value.rows| <= |t.rows|
    ensures forall i :: 0 <= i < |CleanCardData(t, toDatetime).value.rows| ==>
      CardCleanedFrom(t, CleanCardData(t, toDatetime).value.rows[i], toDatetime)
  {
    CleanCardDataNeedsColumns(t, toDatetime);
    var s := SelectCards(t).value;
    SelectCardsSurvivors(t);
    CardStepsAreRowwise(s, toDatetime);
    assert CleanCardData(t, toDatetime) == RunTable(s, CardSteps(toDatetime));
    TraceCards(t, s, CleanCardData(t, toDatetime).value.rows, toDatetime);
  }

  /** The bookkeeping behind `CleanCardDataOrigins`, on named tables. */
  lemma TraceCards(t: Table<string>, s: Table<string>, out: seq<Row<string>>, toDatetime: string -> Option<string>)
    requires WellFormed(t) && CardColumns <= ColumnSet(t.columns)
    requires forall i :: 0 <= i < |s.rows| ==> s.rows[i] in t.rows && CardColumns <= s.rows[i].cells.Keys
    requires forall i :: 0 <= i < |s.rows| ==> CardEligible(s.rows[i]) && CleanCardRow(s.rows[i], toDatetime).Ok?
    requires |out| == |s.rows|
    requires forall i :: 0 <= i < |s.rows| ==> out[i] == CleanCardRow(s.rows[i], toDatetime).value
    ensures forall i :: 0 <= i < |out| ==> CardCleanedFrom(t, out[i], toDatetime)
  {
    forall i | 0 <= i < |out|
      ensures CardCleanedFrom(t, out[i], toDatetime)
    {
      var j :| 0 <= j < |t.rows| && t.rows[j] == s.rows[i];
      assert CardEligible(t.rows[j]) && CleanCardRow(t.rows[j], toDatetime).Ok?;
      assert out[i] == CleanCardRow(t.rows[j], toDatetime).value;
    }
  }

  /** Whatever the row labels, every row `clean_card_data` returns has a five-character
      expiry date and a card number of digits only. */
  lemma CleanCardDataShape(t: Table<string>, toDatetime: string -> Option<string>)
    requires WellFormed(t)
    requires CleanCardData(t, toDatetime).Ok?
    ensures forall i :: 0 <= i < |CleanCardData(t, toDatetime).value.rows| ==>
      CardColumns <= CleanCardData(t, toDatetime).value.rows[i].cells.Keys
      && CleanCardShape(CleanCardData(t, toDatetime).value.rows[i])
  {
    CleanCardDataOrigins(t, toDatetime);
    var out := CleanCardData(t, toDatetime).value.rows;
    forall i | 0 <= i < |out|
      ensures CardColumns <= out[i].cells.Keys && CleanCardShape(out[i])
    {
      var j :| && 0 <= j < |t.rows|
               && CardEligible(t.rows[j])
               && CleanCardRow(t.rows[j], toDatetime).Ok?
               && out[i] == CleanCardRow(t.rows[j], toDatetime).value;
    }
  }

  /** With unique row labels, `clean_card_data` is exactly: keep the eligible rows in
      order and clean each with `CleanCardRow`; it fails exactly when a kept row's
      payment date does not parse. */
  lemma CleanCardDataExact(t: Table<string>, toDatetime: string -> Option<string>)
    requires WellFormed(t)
    requires UniqueLabels(t.rows)
    requires CardColumns <= ColumnSet(t.columns)
    ensures HasColumn(t.rows, "card_number") && HasColumn(t.rows, "expiry_date")
    ensures forall i :: 0 <= i < |EligibleCards(t.rows)| ==> CardColumns <= EligibleCards(t.rows)[i].cells.Keys
    ensures CleanCardData(t, toDatetime).Ok? <==>
      forall i :: 0 <= i < |EligibleCards(t.rows)| ==>
        toDatetime(EligibleCards(t.rows)[i].cells["date_payment_confirmed"]).Some?
    ensures CleanCardData(t, toDatetime).Ok? ==>
      && |CleanCardData(t, toDatetime).value.rows| == |EligibleCards(t.rows)|
      && forall i :: 0 <= i < |EligibleCards(t.rows)| ==>
           CleanCardData(t, toDatetime).value.rows[i] == CleanCardRow(EligibleCards(t.rows)[i], toDatetime).value
  {
    assert "card_number" in t.columns && "expiry_date" in t.columns;
    SelectCardsExact(t);
    var s := SelectCards(t).value;
    CardStepsAreRowwise(s, toDatetime);
    assert CleanCardData(t, toDatetime) == RunTable(s, CardSteps(toDatetime));
  }
}
