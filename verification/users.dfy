/** `DataCleaning.clean_user_data` (data_cleaning.py:4-30).  The cleaner is
    modelled the way the code runs it, one column-wide statement after another,
    and compared with `CleanUserRow`, the same rules applied to a single row. */
module Users {
  import opened Results
  import opened Text
  import opened Phone
  import opened Tables

  /** The columns the cleaner reads once `index` is gone. */
  const UserColumns: set<string> :=
    {"first_name", "user_uuid", "address", "date_of_birth", "join_date", "country_code", "phone_number"}

  /** The columns the cleaner rewrites. */
  const RewrittenColumns: set<string> :=
    {"address", "date_of_birth", "join_date", "country_code", "phone_number"}

  /** Line 21: the known typo `GGB` becomes `GB`, everything else stays. */
  function FixCountryCode(code: string): (r: string)
    ensures r != "GGB"
    ensures code == "GGB" ==> r == "GB"
    ensures code != "GGB" ==> r == code
  {
    if code == "GGB" then "GB" else code
  }

  lemma FixCountryCodeIdempotent(code: string)
    ensures FixCountryCode(FixCountryCode(code)) == FixCountryCode(code)
  {
  }

  /** Line 9's mask. */
  predicate IsNullSentinel(v: string) {
    v == "NULL"
  }

  /** Line 11's mask. */
  predicate IsMalformedUuid(v: string) {
    |v| != 36
  }

  /** A user row survives lines 9 and 11. */
  predicate Eligible(row: Row<string>)
    requires "first_name" in row.cells && "user_uuid" in row.cells
  {
    row.cells["first_name"] != "NULL" && |row.cells["user_uuid"]| == 36
  }

  /** The reference selection: the input rows that meet both conditions, in order. */
  function EligibleRows(rows: seq<Row<string>>): (r: seq<Row<string>>)
    requires HasColumn(rows, "first_name") && HasColumn(rows, "user_uuid")
    ensures |r| <= |rows|
    ensures forall i :: 0 <= i < |r| ==> r[i] in rows && Eligible(r[i])
  {
    if |rows| == 0 then []
    else if Eligible(rows[0]) then [rows[0]] + EligibleRows(rows[1..])
    else EligibleRows(rows[1..])
  }

  lemma {:induction false} EligibleRowsComplete(rows: seq<Row<string>>, row: Row<string>)
    requires HasColumn(rows, "first_name") && HasColumn(rows, "user_uuid")
    requires row in rows && Eligible(row)
    ensures row in EligibleRows(rows)
    decreases |rows|
  {
    if rows[0] != row {
      EligibleRowsComplete(rows[1..], row);
    }
  }

  /** Lines 7-11: drop the `index` column, then the rows whose `first_name` is the
      sentinel `NULL`, then the rows whose `user_uuid` is not 36 characters long. */
  function SelectUsers(t: Table<string>): (r: Result<Table<string>>)
    requires WellFormed(t)
    ensures r.Ok? <==> "index" in t.columns && "first_name" in t.columns && "user_uuid" in t.columns
    ensures "index" !in t.columns ==> r == Err(MissingColumn("index"))
    ensures "index" in t.columns && "first_name" !in t.columns ==> r == Err(MissingColumn("first_name"))
    ensures "index" in t.columns && "first_name" in t.columns && "user_uuid" !in t.columns ==>
      r == Err(MissingColumn("user_uuid"))
    ensures r.Ok? ==>
      && WellFormed(r.value)
      && ColumnSet(r.value.columns) == ColumnSet(t.columns) - {"index"}
      && |r.value.rows| <= |t.rows|
  {
    var t1 :- DropColumn(t, "index");
    var t2 :- DropRowsWhere(t1, "first_name", IsNullSentinel);
    DropRowsWhere(t2, "user_uuid", IsMalformedUuid)
  }

  /** Every row that survives lines 9-11 is eligible and is an input row minus its
      `index` cell, whatever the row labels are. */
  lemma SelectUsersSurvivors(t: Table<string>)
    requires WellFormed(t)
    requires SelectUsers(t).Ok?
    ensures forall i :: 0 <= i < |SelectUsers(t).value.rows| ==>
      && Eligible(SelectUsers(t).value.rows[i])
      && exists j :: 0 <= j < |t.rows| && SelectUsers(t).value.rows[i] == WithoutCell(t.rows[j], "index")
  {
    var r1, r2 := SelectionStages(t);
    TraceSelection(t.rows, r1, r2, SelectUsers(t).value.rows);
  }

  /** The rows after each statement of lines 7-11, with what each statement keeps. */
  lemma SelectionStages(t: Table<string>) returns (r1: seq<Row<string>>, r2: seq<Row<string>>)
    requires WellFormed(t)
    requires SelectUsers(t).Ok?
    ensures |r1| == |t.rows| && forall j :: 0 <= j < |t.rows| ==> r1[j] == WithoutCell(t.rows[j], "index")
    ensures HasColumn(r1, "first_name") && HasColumn(r1, "user_uuid") && HasColumn(r2, "user_uuid")
    ensures forall k :: 0 <= k < |r2| ==> r2[k] in r1 && !IsNullSentinel(r2[k].cells["first_name"])
    ensures forall i :: 0 <= i < |SelectUsers(t).value.rows| ==>
      SelectUsers(t).value.rows[i] in r2 && !IsMalformedUuid(SelectUsers(t).value.rows[i].cells["user_uuid"])
  {
    var t1 := DropColumn(t, "index").value;
    var t2 := DropRowsWhere(t1, "first_name", IsNullSentinel).value;
    assert SelectUsers(t).value == DropRowsWhere(t2, "user_uuid", IsMalformedUuid).value;
    r1, r2 := t1.rows, t2.rows;
  }

  /** The bookkeeping behind `SelectUsersSurvivors`, on named row lists. */
  lemma TraceSelection(rows: seq<Row<string>>, r1: seq<Row<string>>, r2: seq<Row<string>>, r3: seq<Row<string>>)
    requires |r1| == |rows| && forall j :: 0 <= j < |rows| ==> r1[j] == WithoutCell(rows[j], "index")
    requires HasColumn(r1, "first_name") && HasColumn(r1, "user_uuid")
    requires forall k :: 0 <= k < |r2| ==> r2[k] in r1 && !IsNullSentinel(r2[k].cells["first_name"])
    requires forall i :: 0 <= i < |r3| ==> r3[i] in r2 && !IsMalformedUuid(r3[i].cells["user_uuid"])
    ensures forall i :: 0 <= i < |r3| ==>
      && Eligible(r3[i])
      && exists j :: 0 <= j < |rows| && r3[i] == WithoutCell(rows[j], "index")
  {
    forall i | 0 <= i < |r3|
      ensures Eligible(r3[i])
      ensures exists j :: 0 <= j < |rows| && r3[i] == WithoutCell(rows[j], "index")
    {
      var k :| 0 <= k < |r2| && r2[k] == r3[i];
      var j :| 0 <= j < |r1| && r1[j] == r2[k];
      assert r3[i] == WithoutCell(rows[j], "index");
    }
  }

  /** Lines 13-29 applied to one row, in the order the statements run: the
      address, the two dates, the country code, then the phone number. */
  function CleanUserRow(row: Row<string>, toDatetime: string -> Option<string>): (r: Result<Row<string>>)
    requires UserColumns <= row.cells.Keys
    ensures r.Ok? <==>
      && toDatetime(row.cells["date_of_birth"]).Some?
      && toDatetime(row.cells["join_date"]).Some?
      && NormalisePhone(FixCountryCode(row.cells["country_code"]), row.cells["phone_number"]).Ok?
    ensures r.Err? ==> r.error in {UnparseableDate("date_of_birth"), UnparseableDate("join_date"), EmptyPhone}
    ensures r.Ok? ==>
      && r.value.key == row.key
      && r.value.cells.Keys == row.cells.Keys
      && (forall c :: c in row.cells && c !in RewrittenColumns ==> r.value.cells[c] == row.cells[c])
      && |r.value.cells["address"]| == |row.cells["address"]|
      && '\n' !in r.value.cells["address"]
      && r.value.cells["address"] == ReplaceNewlines(row.cells["address"])
      && r.value.cells["date_of_birth"] == toDatetime(row.cells["date_of_birth"]).value
      && r.value.cells["join_date"] == toDatetime(row.cells["join_date"]).value
      && r.value.cells["country_code"] == FixCountryCode(row.cells["country_code"])
      && r.value.cells["phone_number"]
           == NormalisePhone(FixCountryCode(row.cells["country_code"]), row.cells["phone_number"]).value
      && AllDigits(r.value.cells["phone_number"])
      && (r.value.cells["country_code"] == "GB" ==>
            |r.value.cells["phone_number"]| > 0 && r.value.cells["phone_number"][0] == '0')
      && (r.value.cells["country_code"] == "US" ==> |r.value.cells["phone_number"]| <= 10)
  {
    var dated :- CleanUserRowDates(row, toDatetime);
    CleanUserRowPhone(dated)
  }

  /** Lines 13-17 applied to one row. */
  function CleanUserRowDates(row: Row<string>, toDatetime: string -> Option<string>): (r: Result<Row<string>>)
    requires UserColumns <= row.cells.Keys
    ensures r.Ok? <==> toDatetime(row.cells["date_of_birth"]).Some? && toDatetime(row.cells["join_date"]).Some?
    ensures r.Err? ==> r.error in {UnparseableDate("date_of_birth"), UnparseableDate("join_date")}
    ensures r.Ok? ==>
      && r.value.key == row.key
      && r.value.cells.Keys == row.cells.Keys
      && r.value.cells["address"] == ReplaceNewlines(row.cells["address"])
      && r.value.cells["date_of_birth"] == toDatetime(row.cells["date_of_birth"]).value
      && r.value.cells["join_date"] == toDatetime(row.cells["join_date"]).value
      && forall c :: c in row.cells && c !in {"address", "date_of_birth", "join_date"} ==> r.value.cells[c] == row.cells[c]
  {
    var dob := toDatetime(row.cells["date_of_birth"]);
    var join := toDatetime(row.cells["join_date"]);
    if dob.None? then Err(UnparseableDate("date_of_birth"))
    else if join.None? then Err(UnparseableDate("join_date"))
    else Ok(SetCell(SetCell(SetCell(row, "address", ReplaceNewlines(row.cells["address"])),
                            "date_of_birth", dob.value), "join_date", join.value))
  }

  /** Lines 21-29 applied to one row. */
  function CleanUserRowPhone(row: Row<string>): (r: Result<Row<string>>)
    requires UserColumns <= row.cells.Keys
    ensures r.Ok? <==> NormalisePhone(FixCountryCode(row.cells["country_code"]), row.cells["phone_number"]).Ok?
    ensures r.Err? ==> r.error == EmptyPhone
    ensures r.Ok? ==>
      && r.value.key == row.key
      && r.value.cells.Keys == row.cells.Keys
      && r.value.cells["country_code"] == FixCountryCode(row.cells["country_code"])
      && r.value.cells["phone_number"]
           == NormalisePhone(FixCountryCode(row.cells["country_code"]), row.cells["phone_number"]).value
      && forall c :: c in row.cells && c !in {"country_code", "phone_number"} ==> r.value.cells[c] == row.cells[c]
  {
    var country := FixCountryCode(row.cells["country_code"]);
    match NormalisePhone(country, row.cells["phone_number"])
    case Err(e) => Err(e)
    case Ok(phone) => Ok(SetCell(SetCell(row, "country_code", country), "phone_number", phone))
  }

  /** Lines 13-17: the address, then the two date conversions. */
  function DateSteps(toDatetime: string -> Option<string>): seq<Step<string>> {
    [ MapStep("address", ReplaceNewlines), DateStep(toDatetime, "date_of_birth"), DateStep(toDatetime, "join_date") ]
  }

  /** `df[col] = pd.to_datetime(df[col], ...)`, which raises on a value it cannot parse. */
  function DateStep(toDatetime: string -> Option<string>, col: string): Step<string> {
    Step(col, col, (_, v) => toDatetime(v), UnparseableDate(col))
  }

  /** Line 27: a row-wise statement that keeps the last ten digits of US numbers. */
  function LastTenStep(): Step<string> {
    Step("phone_number", "country_code", (cc, p) => Some(KeepLastTenIfUs(cc, p)), MissingColumn("phone_number"))
  }

  /** Line 29: the leading-zero rule, which raises on an empty GB number. */
  function LeadingZeroStep(): Step<string> {
    Step("phone_number", "country_code", (cc, p) => PrefixZeroIfGb(cc, p).ToOption(), EmptyPhone)
  }

  /** Lines 21-29: the country code, then the four phone stages; the last two read
      the row's (already corrected) country code. */
  function PhoneSteps(): seq<Step<string>> {
    [ MapStep("country_code", FixCountryCode),
      MapStep("phone_number", StripDialCodesAndExtensions),
      MapStep("phone_number", KeepDigits),
      LastTenStep(),
      LeadingZeroStep() ]
  }

  /** The statements of lines 13-29 read and write only the five rewritten columns:
      `first_name`, `user_uuid` and every other column pass through. */
  function UserSteps(toDatetime: string -> Option<string>): (r: seq<Step<string>>)
    ensures |r| == 8
    ensures forall k :: 0 <= k < |r| ==> r[k].target in RewrittenColumns && r[k].source in RewrittenColumns
  {
    DateSteps(toDatetime) + PhoneSteps()
  }

  /** `clean_user_data`; `toDatetime` stands for `pd.to_datetime` (None: it raises). */
  function CleanUserData(t: Table<string>, toDatetime: string -> Option<string>): (r: Result<Table<string>>)
    requires WellFormed(t)
    ensures "index" !in t.columns ==> r == Err(MissingColumn("index"))
    ensures r.Ok? ==>
      && WellFormed(r.value)
      && ColumnSet(r.value.columns) == ColumnSet(t.columns) - {"index"}
      && |r.value.rows| <= |t.rows|
  {
    var selected :- SelectUsers(t);
    RunTable(selected, UserSteps(toDatetime))
  }

  lemma LastTenStepRuns(row: Row<string>)
    requires "phone_number" in row.cells && "country_code" in row.cells
    ensures RunStep(row, LastTenStep()) ==
      Ok(SetCell(row, "phone_number", KeepLastTenIfUs(row.cells["country_code"], row.cells["phone_number"])))
  {
  }

  lemma LeadingZeroStepRuns(row: Row<string>)
    requires "phone_number" in row.cells && "country_code" in row.cells
    ensures RunStep(row, LeadingZeroStep()) ==
      match PrefixZeroIfGb(row.cells["country_code"], row.cells["phone_number"])
      case Ok(p) => Ok(SetCell(row, "phone_number", p))
      case Err(_) => Err(EmptyPhone)
  {
  }

  lemma DateStepsAreRowDates(row: Row<string>, toDatetime: string -> Option<string>)
    requires UserColumns <= row.cells.Keys
    ensures StepsUse(DateSteps(toDatetime), row.cells.Keys)
    ensures RunRow(row, DateSteps(toDatetime)) == CleanUserRowDates(row, toDatetime)
  {
    var steps := DateSteps(toDatetime);
    assert StepsUse(steps, row.cells.Keys);
    RunRowMapFirst(row, steps, "address", ReplaceNewlines);
    assert steps[1..] == [DateStep(toDatetime, "date_of_birth"), DateStep(toDatetime, "join_date")];
    DateStepsParse(SetCell(row, "address", ReplaceNewlines(row.cells["address"])), toDatetime);
  }

  /** The two date statements of lines 15-17 on one row. */
  lemma DateStepsParse(a: Row<string>, toDatetime: string -> Option<string>)
    requires "date_of_birth" in a.cells && "join_date" in a.cells
    ensures StepsUse([DateStep(toDatetime, "date_of_birth"), DateStep(toDatetime, "join_date")], a.cells.Keys)
    ensures RunRow(a, [DateStep(toDatetime, "date_of_birth"), DateStep(toDatetime, "join_date")]) ==
      var dob := toDatetime(a.cells["date_of_birth"]);
      var join := toDatetime(a.cells["join_date"]);
      if dob.None? then Err(UnparseableDate("date_of_birth"))
      else if join.None? then Err(UnparseableDate("join_date"))
      else Ok(SetCell(SetCell(a, "date_of_birth", dob.value), "join_date", join.value))
  {
    var steps := [DateStep(toDatetime, "date_of_birth"), DateStep(toDatetime, "join_date")];
    assert StepsUse(steps, a.cells.Keys);
    RunRowFirst(a, steps);
    var dob := toDatetime(a.cells["date_of_birth"]);
    if dob.Some? {
      var b := SetCell(a, "date_of_birth", dob.value);
      assert steps[1..] == [DateStep(toDatetime, "join_date")];
      RunRowFirst(b, steps[1..]);
      assert steps[1..][1..] == [];
    }
  }

  /** A row after lines 21-27: country code fixed, phone number through stage 3. */
  function BeforeLeadingZero(row: Row<string>): Row<string>
    requires UserColumns <= row.cells.Keys
  {
    var country := FixCountryCode(row.cells["country_code"]);
    SetCell(SetCell(row, "country_code", country), "phone_number",
            KeepLastTenIfUs(country, PhoneDigits(row.cells["phone_number"])))
  }

  lemma LeadingZeroStepMatchesRow(row: Row<string>)
    requires UserColumns <= row.cells.Keys
    ensures RunRow(BeforeLeadingZero(row), [LeadingZeroStep()]) == CleanUserRowPhone(row)
  {
    var country := FixCountryCode(row.cells["country_code"]);
    var raw := row.cells["phone_number"];
    var a := SetCell(row, "country_code", country);
    var last := KeepLastTenIfUs(country, PhoneDigits(raw));
    var d := SetCell(a, "phone_number", last);
    assert d == BeforeLeadingZero(row);
    RunRowFirst(d, [LeadingZeroStep()]);
    LeadingZeroStepRuns(d);
    assert [LeadingZeroStep()][1..] == [];
    var phone := PrefixZeroIfGb(country, last);
    assert phone == NormalisePhone(country, raw);
    if phone.Ok? {
      SetCellTwice(a, "phone_number", last, phone.value);
    }
  }

  /** A row after lines 21-25: country code fixed, phone number reduced to digits. */
  function AfterDigits(row: Row<string>): Row<string>
    requires UserColumns <= row.cells.Keys
  {
    SetCell(SetCell(row, "country_code", FixCountryCode(row.cells["country_code"])), "phone_number",
            PhoneDigits(row.cells["phone_number"]))
  }

  lemma PhoneStepsReachDigits(row: Row<string>)
    requires UserColumns <= row.cells.Keys
    ensures StepsUse(PhoneSteps(), row.cells.Keys)
    ensures StepsUse(PhoneSteps()[3..], AfterDigits(row).cells.Keys)
    ensures RunRow(row, PhoneSteps()) == RunRow(AfterDigits(row), PhoneSteps()[3..])
  {
    var steps := PhoneSteps();
    assert StepsUse(steps, row.cells.Keys);
    var raw := row.cells["phone_number"];
    var a := SetCell(row, "country_code", FixCountryCode(row.cells["country_code"]));
    var b := SetCell(a, "phone_number", StripDialCodesAndExtensions(raw));
    RunRowMapFirst(row, steps, "country_code", FixCountryCode);
    assert steps[1..][0] == steps[1] && steps[1..][1..] == steps[2..];
    RunRowMapFirst(a, steps[1..], "phone_number", StripDialCodesAndExtensions);
    assert steps[2..][0] == steps[2] && steps[2..][1..] == steps[3..];
    RunRowMapFirst(b, steps[2..], "phone_number", KeepDigits);
    SetCellTwice(a, "phone_number", StripDialCodesAndExtensions(raw), PhoneDigits(raw));
  }

  lemma PhoneStepsReachLeadingZero(row: Row<string>)
    requires UserColumns <= row.cells.Keys
    ensures StepsUse(PhoneSteps(), row.cells.Keys)
    ensures RunRow(row, PhoneSteps()) == RunRow(BeforeLeadingZero(row), [LeadingZeroStep()])
  {
    PhoneStepsReachDigits(row);
    var steps := PhoneSteps();
    var c := AfterDigits(row);
    var s3 := steps[3..];
    assert s3[0] == LastTenStep() && s3[1..] == [LeadingZeroStep()];
    LastTenStepRuns(c);
    RunRowFirst(c, s3);
    var country := FixCountryCode(row.cells["country_code"]);
    var a := SetCell(row, "country_code", country);
    var raw := row.cells["phone_number"];
    SetCellTwice(a, "phone_number", PhoneDigits(raw), KeepLastTenIfUs(country, PhoneDigits(raw)));
  }

  lemma PhoneStepsAreRowPhone(row: Row<string>)
    requires UserColumns <= row.cells.Keys
    ensures StepsUse(PhoneSteps(), row.cells.Keys)
    ensures RunRow(row, PhoneSteps()) == CleanUserRowPhone(row)
  {
    PhoneStepsReachLeadingZero(row);
    LeadingZeroStepMatchesRow(row);
  }

  /** Lines 9 and 11 one after the other. */
  function SentinelFilters(rows: seq<Row<string>>): seq<Row<string>>
    requires HasColumn(rows, "first_name") && HasColumn(rows, "user_uuid")
  {
    KeepUnlessKeepsColumn(rows, "first_name", IsNullSentinel, "user_uuid");
    KeepUnless(KeepUnless(rows, "first_name", IsNullSentinel), "user_uuid", IsMalformedUuid)
  }

  /** The two filters on a leading row keep it exactly when it is eligible. */
  lemma SentinelFiltersCons(x: Row<string>, rest: seq<Row<string>>)
    requires "first_name" in x.cells && "user_uuid" in x.cells
    requires HasColumn(rest, "first_name") && HasColumn(rest, "user_uuid")
    ensures HasColumn([x] + rest, "first_name") && HasColumn([x] + rest, "user_uuid")
    ensures SentinelFilters([x] + rest) ==
      if Eligible(x) then [x] + SentinelFilters(rest) else SentinelFilters(rest)
  {
    var rows := [x] + rest;
    assert rows[0] == x && rows[1..] == rest;
    KeepUnlessKeepsColumn(rest, "first_name", IsNullSentinel, "user_uuid");
    var f := KeepUnless(rest, "first_name", IsNullSentinel);
    if x.cells["first_name"] != "NULL" {
      assert KeepUnless(rows, "first_name", IsNullSentinel) == [x] + f;
      assert ([x] + f)[0] == x && ([x] + f)[1..] == f;
    }
  }

  /** The two sentinel filters after the column drop keep exactly the eligible rows. */
  lemma {:induction false} FiltersAfterDropAreEligible(rows: seq<Row<string>>)
    requires HasColumn(rows, "first_name") && HasColumn(rows, "user_uuid")
    ensures HasColumn(WithoutCellAll(rows, "index"), "first_name")
    ensures HasColumn(WithoutCellAll(rows, "index"), "user_uuid")
    ensures SentinelFilters(WithoutCellAll(rows, "index")) == WithoutCellAll(EligibleRows(rows), "index")
    decreases |rows|
  {
    if |rows| > 0 {
      FiltersAfterDropAreEligible(rows[1..]);
      var x := WithoutCell(rows[0], "index");
      var rest := WithoutCellAll(rows[1..], "index");
      assert WithoutCellAll(rows, "index") == [x] + rest;
      SentinelFiltersCons(x, rest);
      if Eligible(rows[0]) {
        assert EligibleRows(rows) == [rows[0]] + EligibleRows(rows[1..]);
        assert WithoutCellAll(EligibleRows(rows), "index") == [x] + WithoutCellAll(EligibleRows(rows[1..]), "index");
      }
    }
  }

  /** With unique row labels, lines 7-11 keep exactly the input rows whose
      `first_name` is not `NULL` and whose `user_uuid` has 36 characters, in their
      original order, each without its `index` cell. */
  lemma SelectUsersExact(t: Table<string>)
    requires WellFormed(t)
    requires UniqueLabels(t.rows)
    requires "index" in t.columns && "first_name" in t.columns && "user_uuid" in t.columns
    ensures HasColumn(t.rows, "first_name") && HasColumn(t.rows, "user_uuid")
    ensures SelectUsers(t).Ok?
    ensures SelectUsers(t).value.rows == WithoutCellAll(EligibleRows(t.rows), "index")
  {
    FiltersAfterDropAreEligible(t.rows);
    SelectUsersAreFilters(t);
  }

  /** With unique labels, the two mask-drops after the column drop are the two filters. */
  lemma SelectUsersAreFilters(t: Table<string>)
    requires WellFormed(t)
    requires UniqueLabels(t.rows)
    requires "index" in t.columns && "first_name" in t.columns && "user_uuid" in t.columns
    ensures HasColumn(WithoutCellAll(t.rows, "index"), "first_name")
    ensures HasColumn(WithoutCellAll(t.rows, "index"), "user_uuid")
    ensures SelectUsers(t).Ok?
    ensures SelectUsers(t).value.rows == SentinelFilters(WithoutCellAll(t.rows, "index"))
  {
    var t1 := DropColumn(t, "index").value;
    assert t1.rows == WithoutCellAll(t.rows, "index");
    TwoDropsAreFilters(t1, "first_name", IsNullSentinel, "user_uuid", IsMalformedUuid);
    assert SelectUsers(t).value.rows == SentinelFilters(t1.rows);
  }

  /** The column steps of lines 13-29 applied to one row are `CleanUserRow`. */
  lemma UserStepsAreCleanUserRow(row: Row<string>, toDatetime: string -> Option<string>)
    requires UserColumns <= row.cells.Keys
    ensures StepsUse(UserSteps(toDatetime), row.cells.Keys)
    ensures RunRow(row, UserSteps(toDatetime)) == CleanUserRow(row, toDatetime)
  {
    UserStepsAreDatesThenPhone(row, toDatetime);
  }

  /** The two halves of `UserSteps`, each matched with its row-level rule. */
  lemma UserStepsAreDatesThenPhone(row: Row<string>, toDatetime: string -> Option<string>)
    requires UserColumns <= row.cells.Keys
    ensures StepsUse(UserSteps(toDatetime), row.cells.Keys)
    ensures RunRow(row, UserSteps(toDatetime)) ==
      match CleanUserRowDates(row, toDatetime)
      case Ok(d) => CleanUserRowPhone(d)
      case Err(e) => Err(e)
  {
    DateStepsAreRowDates(row, toDatetime);
    PhoneStepsAreRowPhone(row);
    RunRowConcat(row, DateSteps(toDatetime), PhoneSteps());
    var dated := RunRow(row, DateSteps(toDatetime));
    if dated.Ok? {
      PhoneStepsAreRowPhone(dated.value);
    }
  }

  /** Lines 13-29 run column by column on any table that has the user columns
      agree with `CleanUserRow` on each row. */
  lemma {:induction false} UserStepsAreRowwise(s: Table<string>, toDatetime: string -> Option<string>)
    requires WellFormed(s)
    requires UserColumns <= ColumnSet(s.columns)
    ensures forall i :: 0 <= i < |s.rows| ==> UserColumns <= s.rows[i].cells.Keys
    ensures RunTable(s, UserSteps(toDatetime)).Ok? <==>
      forall i :: 0 <= i < |s.rows| ==> CleanUserRow(s.rows[i], toDatetime).Ok?
    ensures RunTable(s, UserSteps(toDatetime)).Ok? ==>
      && RunTable(s, UserSteps(toDatetime)).value.columns == s.columns
      && |RunTable(s, UserSteps(toDatetime)).value.rows| == |s.rows|
      && forall i :: 0 <= i < |s.rows| ==>
           RunTable(s, UserSteps(toDatetime)).value.rows[i] == CleanUserRow(s.rows[i], toDatetime).value
  {
    var steps := UserSteps(toDatetime);
    assert StepsUse(steps, ColumnSet(s.columns));
    RunTableIsRowwise(s, steps);
    forall i | 0 <= i < |s.rows|
      ensures UserColumns <= s.rows[i].cells.Keys
      ensures RunRow(s.rows[i], steps) == CleanUserRow(s.rows[i], toDatetime)
    {
      UserStepsAreCleanUserRow(s.rows[i], toDatetime);
    }
  }

  /** `clean_user_data` fails exactly when some selected row fails to clean, and
      otherwise the `i`-th output row is the `i`-th selected row, cleaned. */
  lemma CleanUserDataIsRowwise(t: Table<string>, toDatetime: string -> Option<string>)
    requires WellFormed(t)
    requires "index" in t.columns && UserColumns <= ColumnSet(t.columns)
    ensures SelectUsers(t).Ok?
    ensures forall i :: 0 <= i < |SelectUsers(t).value.rows| ==> UserColumns <= SelectUsers(t).value.rows[i].cells.Keys
    ensures CleanUserData(t, toDatetime).Ok? <==>
      forall i :: 0 <= i < |SelectUsers(t).value.rows| ==> CleanUserRow(SelectUsers(t).value.rows[i], toDatetime).Ok?
    ensures CleanUserData(t, toDatetime).Ok? ==>
      && |CleanUserData(t, toDatetime).value.rows| == |SelectUsers(t).value.rows|
      && forall i :: 0 <= i < |SelectUsers(t).value.rows| ==>
           CleanUserData(t, toDatetime).value.rows[i] == CleanUserRow(SelectUsers(t).value.rows[i], toDatetime).value
  {
    assert "first_name" in t.columns && "user_uuid" in t.columns;
    var s := SelectUsers(t).value;
    assert UserColumns <= ColumnSet(s.columns);
    UserStepsAreRowwise(s, toDatetime);
    assert CleanUserData(t, toDatetime) == RunTable(s, UserSteps(toDatetime));
  }

  /** The shape every row of the cleaned user table has. */
  predicate CleanUserShape(row: Row<string>)
    requires UserColumns <= row.cells.Keys
  {
    && Eligible(row)
    && '\n' !in row.cells["address"]
    && row.cells["country_code"] != "GGB"
    && AllDigits(row.cells["phone_number"])
    && (row.cells["country_code"] == "GB" ==>
          |row.cells["phone_number"]| > 0 && row.cells["phone_number"][0] == '0')
    && (row.cells["country_code"] == "US" ==> |row.cells["phone_number"]| <= 10)
  }

  /** The rewriting statements touch the five rewritten columns. */
  lemma UserStepsCover(toDatetime: string -> Option<string>, columns: set<string>)
    requires StepsUse(UserSteps(toDatetime), columns)
    ensures RewrittenColumns <= columns
  {
    var steps := UserSteps(toDatetime);
    assert steps[0].target == "address" && steps[1].target == "date_of_birth" && steps[2].target == "join_date";
    assert steps[3].target == "country_code" && steps[4].target == "phone_number";
  }

  /** `clean_user_data` succeeds only on a table that has `index` and every column it reads. */
  lemma CleanUserDataNeedsColumns(t: Table<string>, toDatetime: string -> Option<string>)
    requires WellFormed(t)
    requires CleanUserData(t, toDatetime).Ok?
    ensures "index" in t.columns && UserColumns <= ColumnSet(t.columns)
  {
    var s := SelectUsers(t).value;
    assert CleanUserData(t, toDatetime) == RunTable(s, UserSteps(toDatetime));
    RunTableNeedsColumns(s, UserSteps(toDatetime));
    UserStepsCover(toDatetime, ColumnSet(s.columns));
  }

  /** The cleaned shape follows from the facts `CleanUserRow` promises on success. */
  lemma CleanUserShapeIntro(row: Row<string>, r: Row<string>)
    requires UserColumns <= row.cells.Keys
    requires Eligible(row)
    requires r.cells.Keys == row.cells.Keys
    requires forall c :: c in row.cells && c !in RewrittenColumns ==> r.cells[c] == row.cells[c]
    requires '\n' !in r.cells["address"]
    requires r.cells["country_code"] == FixCountryCode(row.cells["country_code"])
    requires AllDigits(r.cells["phone_number"])
    requires r.cells["country_code"] == "GB" ==>
               |r.cells["phone_number"]| > 0 && r.cells["phone_number"][0] == '0'
    requires r.cells["country_code"] == "US" ==> |r.cells["phone_number"]| <= 10
    ensures UserColumns <= r.cells.Keys
    ensures CleanUserShape(r)
  {
    assert r.cells["first_name"] == row.cells["first_name"] by {
      assert "first_name" !in RewrittenColumns;
    }
    assert r.cells["user_uuid"] == row.cells["user_uuid"] by {
      assert "user_uuid" !in RewrittenColumns;
    }
  }

  /** A cleaned eligible row has the shape of the cleaned table. */
  lemma CleanUserRowShape(row: Row<string>, toDatetime: string -> Option<string>)
    requires UserColumns <= row.cells.Keys
    requires Eligible(row)
    requires CleanUserRow(row, toDatetime).Ok?
    ensures UserColumns <= CleanUserRow(row, toDatetime).value.cells.Keys
    ensures CleanUserShape(CleanUserRow(row, toDatetime).value)
  {
    CleanUserShapeIntro(row, CleanUserRow(row, toDatetime).value);
  }

  /** Dropping the `index` cell keeps every user column. */
  lemma UserColumnsWithoutIndex(t: Table<string>)
    requires WellFormed(t) && UserColumns <= ColumnSet(t.columns)
    ensures forall j :: 0 <= j < |t.rows| ==> UserColumns <= WithoutCell(t.rows[j], "index").cells.Keys
  {
    assert "index" !in UserColumns;
  }

  /** `out` is some eligible row of `t`, without its `index` cell, cleaned. */
  ghost predicate CleanedFrom(t: Table<string>, out: Row<string>, toDatetime: string -> Option<string>)
    requires WellFormed(t) && UserColumns <= ColumnSet(t.columns)
  {
    exists j :: && 0 <= j < |t.rows|
                && Eligible(WithoutCell(t.rows[j], "index"))
                && CleanUserRow(WithoutCell(t.rows[j], "index"), toDatetime).Ok?
                && out == CleanUserRow(WithoutCell(t.rows[j], "index"), toDatetime).value
  }

  /** Whatever the row labels, every output row is an eligible input row, without its
      `index` cell, cleaned by `CleanUserRow`. */
  lemma CleanUserDataOrigins(t: Table<string>, toDatetime: string -> Option<string>)
    requires WellFormed(t)
    requires CleanUserData(t, toDatetime).Ok?
    ensures "index" in t.columns && UserColumns <= ColumnSet(t.columns)
    ensures |CleanUserData(t, toDatetime).value.rows| <= |t.rows|
    ensures forall i :: 0 <= i < |CleanUserData(t, toDatetime).value.rows| ==>
      CleanedFrom(t, CleanUserData(t, toDatetime).value.rows[i], toDatetime)
  {
    CleanUserDataNeedsColumns(t, toDatetime);
    CleanUserDataIsRowwise(t, toDatetime);
    SelectUsersSurvivors(t);
    TraceOrigins(t, SelectUsers(t).value, CleanUserData(t, toDatetime).value, toDatetime);
  }

  /** The bookkeeping behind `CleanUserDataOrigins`, on named tables. */
  lemma TraceOrigins(t: Table<string>, s: Table<string>, out: Table<string>, toDatetime: string -> Option<string>)
    requires WellFormed(t) && UserColumns <= ColumnSet(t.columns)
    requires forall i :: 0 <= i < |s.rows| ==> UserColumns <= s.rows[i].cells.Keys
    requires forall i :: 0 <= i < |s.rows| ==>
      Eligible(s.rows[i]) && exists j :: 0 <= j < |t.rows| && s.rows[i] == WithoutCell(t.rows[j], "index")
    requires forall i :: 0 <= i < |s.rows| ==> CleanUserRow(s.rows[i], toDatetime).Ok?
    requires |out.rows| == |s.rows|
    requires forall i :: 0 <= i < |s.rows| ==> out.rows[i] == CleanUserRow(s.rows[i], toDatetime).value
    ensures forall i :: 0 <= i < |out.rows| ==> CleanedFrom(t, out.rows[i], toDatetime)
  {
    forall i | 0 <= i < |out.rows|
      ensures CleanedFrom(t, out.rows[i], toDatetime)
    {
      var j :| 0 <= j < |t.rows| && s.rows[i] == WithoutCell(t.rows[j], "index");
      var row := WithoutCell(t.rows[j], "index");
      assert Eligible(row) && CleanUserRow(row, toDatetime).Ok?;
      assert out.rows[i] == CleanUserRow(row, toDatetime).value;
    }
  }

  /** A row traced back to an eligible input row has the cleaned shape. */
  lemma CleanedFromIsClean(t: Table<string>, row: Row<string>, toDatetime: string -> Option<string>)
    requires WellFormed(t) && UserColumns <= ColumnSet(t.columns)
    requires CleanedFrom(t, row, toDatetime)
    ensures UserColumns <= row.cells.Keys && CleanUserShape(row)
  {
    UserColumnsWithoutIndex(t);
    var j :| && 0 <= j < |t.rows|
             && Eligible(WithoutCell(t.rows[j], "index"))
             && CleanUserRow(WithoutCell(t.rows[j], "index"), toDatetime).Ok?
             && row == CleanUserRow(WithoutCell(t.rows[j], "index"), toDatetime).value;
    CleanUserRowShape(WithoutCell(t.rows[j], "index"), toDatetime);
  }

  lemma TracedRowsAreClean(t: Table<string>, out: seq<Row<string>>, toDatetime: string -> Option<string>)
    requires WellFormed(t) && UserColumns <= ColumnSet(t.columns)
    requires forall i :: 0 <= i < |out| ==> CleanedFrom(t, out[i], toDatetime)
    ensures forall i :: 0 <= i < |out| ==> UserColumns <= out[i].cells.Keys && CleanUserShape(out[i])
  {
    forall i | 0 <= i < |out|
      ensures UserColumns <= out[i].cells.Keys && CleanUserShape(out[i])
    {
      CleanedFromIsClean(t, out[i], toDatetime);
    }
  }

  /** Whatever the row labels, every row `clean_user_data` returns is eligible, has
      an address without line breaks, a corrected country code and a phone number of
      digits only, with a leading `0` for GB and at most ten digits for US. */
  lemma CleanUserDataShape(t: Table<string>, toDatetime: string -> Option<string>)
    requires WellFormed(t)
    requires CleanUserData(t, toDatetime).Ok?
    ensures forall i :: 0 <= i < |CleanUserData(t, toDatetime).value.rows| ==>
      UserColumns <= CleanUserData(t, toDatetime).value.rows[i].cells.Keys
      && CleanUserShape(CleanUserData(t, toDatetime).value.rows[i])
  {
    CleanUserDataOrigins(t, toDatetime);
    TracedRowsAreClean(t, CleanUserData(t, toDatetime).value.rows, toDatetime);
  }

  /** With unique row labels, `clean_user_data` is exactly: keep the eligible rows in
      order, drop their `index` cell, clean each with `CleanUserRow`; it fails exactly
      when one of those rows fails. */
  lemma CleanUserDataExact(t: Table<string>, toDatetime: string -> Option<string>)
    requires WellFormed(t)
    requires UniqueLabels(t.rows)
    requires "index" in t.columns && UserColumns <= ColumnSet(t.columns)
    ensures HasColumn(t.rows, "first_name") && HasColumn(t.rows, "user_uuid")
    ensures forall i :: 0 <= i < |EligibleRows(t.rows)| ==>
      UserColumns <= WithoutCell(EligibleRows(t.rows)[i], "index").cells.Keys
    ensures CleanUserData(t, toDatetime).Ok? <==>
      forall i :: 0 <= i < |EligibleRows(t.rows)| ==>
        CleanUserRow(WithoutCell(EligibleRows(t.rows)[i], "index"), toDatetime).Ok?
    ensures CleanUserData(t, toDatetime).Ok? ==>
      && |CleanUserData(t, toDatetime).value.rows| == |EligibleRows(t.rows)|
      && forall i :: 0 <= i < |EligibleRows(t.rows)| ==>
           CleanUserData(t, toDatetime).value.rows[i]
             == CleanUserRow(WithoutCell(EligibleRows(t.rows)[i], "index"), toDatetime).value
  {
    assert "first_name" in t.columns && "user_uuid" in t.columns;
    SelectUsersExact(t);
    CleanUserDataIsRowwise(t, toDatetime);
  }

  /** The country code is corrected before the phone rules read it: a `GGB` row is
      cleaned exactly as the same row marked `GB`. */
  lemma GgbCleanedAsGb(row: Row<string>, toDatetime: string -> Option<string>)
    requires UserColumns <= row.cells.Keys
    requires row.cells["country_code"] == "GGB"
    ensures CleanUserRow(row, toDatetime) == CleanUserRow(SetCell(row, "country_code", "GB"), toDatetime)
  {
    DatesIgnoreCode(row, toDatetime, "GB");
    if CleanUserRowDates(row, toDatetime).Ok? {
      PhoneReadsFixedCode(CleanUserRowDates(row, toDatetime).value);
    }
  }

  /** The address and date rules neither read nor write the country code. */
  lemma DatesIgnoreCode(row: Row<string>, toDatetime: string -> Option<string>, code: string)
    requires UserColumns <= row.cells.Keys
    ensures CleanUserRowDates(SetCell(row, "country_code", code), toDatetime) ==
      match CleanUserRowDates(row, toDatetime)
      case Ok(d) => Ok(SetCell(d, "country_code", code))
      case Err(e) => Err(e)
  {
    var dob := toDatetime(row.cells["date_of_birth"]);
    var join := toDatetime(row.cells["join_date"]);
    if dob.Some? && join.Some? {
      var address := ReplaceNewlines(row.cells["address"]);
      var a := SetCell(row, "address", address);
      var b := SetCell(a, "date_of_birth", dob.value);
      SetCellCommutes(row, "country_code", code, "address", address);
      SetCellCommutes(a, "country_code", code, "date_of_birth", dob.value);
      SetCellCommutes(b, "country_code", code, "join_date", join.value);
    }
  }

  /** The phone rule reads the country code only after correcting it. */
  lemma PhoneReadsFixedCode(d: Row<string>)
    requires UserColumns <= d.cells.Keys
    requires d.cells["country_code"] == "GGB"
    ensures CleanUserRowPhone(SetCell(d, "country_code", "GB")) == CleanUserRowPhone(d)
  {
    SetCellTwice(d, "country_code", "GB", "GB");
  }
}
