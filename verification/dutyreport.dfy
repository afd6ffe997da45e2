/**
 * `generateFacultyDutyFrequency` (controllers/dutyReport.js, lines 5-67):
 * for a requested year, one row per faculty member holding how many of the
 * member's duties fall in each of the twelve months of that year. The
 * spreadsheet encoding and the download are outside the model; the report
 * is the header and the rows the sheet is built from.
 */
module DutyReport {
  import opened Common
  import opened Text
  import opened Calendar

  /** A duty as the report reads it: only its date. */
  datatype DutyRecord = DutyRecord(date: DateField)

  /**
   * A stored `lastDuty`: absent, the single object the faculty schema
   * declares, or a list of duties (the shape the report expects).
   */
  datatype LastDuty = NoLastDuty | SingleDuty(duty: DutyRecord) | DutyList(duties: seq<DutyRecord>)

  datatype FacultyRecord = FacultyRecord(name: string, id: string, lastDuty: LastDuty)

  /** A data row: name, id, then the counts for January to December. */
  datatype Row = Row(name: string, id: string, counts: seq<nat>)

  datatype Sheet = Sheet(header: seq<string>, rows: seq<Row>)

  /** The 400 answer for a request without a year. */
  datatype ReportError = YearRequired

  const HEADER: seq<string> :=
    ["Faculty Name", "Faculty ID", "Jan", "Feb", "Mar", "Apr", "May", "Jun", "Jul", "Aug", "Sep", "Oct", "Nov", "Dec"]

  /**
   * Line 31: the duties the inner loop visits. A single object has no
   * `length`, so it is skipped like an absent or empty list.
   */
  function Visited(last: LastDuty): (ds: seq<DutyRecord>)
    ensures ds != [] ==> last.DutyList?
  {
    match last
    case DutyList(ds) => ds
    case _ => []
  }

  /** Line 34: `new Date(duty.date).getFullYear() === parseInt(year)`; an invalid date's year is NaN and matches nothing. */
  predicate InYear(d: DutyRecord, year: Num) {
    d.date.At? && year == Int(d.date.date.year)
  }

  /** The number of duties of `ds` dated in month `m` of `year`. */
  function CountIn(ds: seq<DutyRecord>, year: Num, m: Month): nat {
    if ds == [] then 0
    else
      var d := ds[|ds| - 1];
      CountIn(ds[..|ds| - 1], year, m) + (if InYear(d, year) && d.date.date.month == m then 1 else 0)
  }

  /** The number of duties of `ds` dated in `year`. */
  function YearCount(ds: seq<DutyRecord>, year: Num): nat {
    if ds == [] then 0
    else YearCount(ds[..|ds| - 1], year) + (if InYear(ds[|ds| - 1], year) then 1 else 0)
  }

  /** The twelve counts of a row. */
  function MonthCounts(ds: seq<DutyRecord>, year: Num): (counts: seq<nat>)
    ensures |counts| == 12
  {
    seq(12, m requires 0 <= m < 12 => CountIn(ds, year, m))
  }

  function RowOf(f: FacultyRecord, year: Num): Row {
    Row(f.name, f.id, MonthCounts(Visited(f.lastDuty), year))
  }

  /** One row per faculty member, in fetched order. */
  function Rows(faculties: seq<FacultyRecord>, year: Num): (rows: seq<Row>)
    ensures |rows| == |faculties|
    ensures forall i :: 0 <= i < |faculties| ==> rows[i] == RowOf(faculties[i], year)
  {
    if faculties == [] then []
    else Rows(faculties[..|faculties| - 1], year) + [RowOf(faculties[|faculties| - 1], year)]
  }

  /** The report: refused without a year, otherwise the header and the rows. */
  function Report(year: string, faculties: seq<FacultyRecord>): Result<Sheet, ReportError> {
    if year == "" then Failure(YearRequired)
    else Success(Sheet(HEADER, Rows(faculties, ParseInt(year))))
  }

  /** Lines 29-45: count the member's duties into a twelve-slot buffer, then build the row. */
  method FacultyRow(f: FacultyRecord, year: Num) returns (row: Row)
    ensures row == RowOf(f, year)
  {
    var monthlyCount := new nat[12](_ => 0);
    var ds := if f.lastDuty.DutyList? then f.lastDuty.duties else [];
    for i := 0 to |ds|
      invariant forall m: Month :: monthlyCount[m] == CountIn(ds[..i], year, m)
    {
      assert ds[..i + 1][..i] == ds[..i];
      var d := ds[i];
      if d.date.At? && year == Int(d.date.date.year) {
        var monthIndex := d.date.date.month;
        monthlyCount[monthIndex] := monthlyCount[monthIndex] + 1;
      }
    }
    assert ds[..|ds|] == ds;
    row := Row(f.name, f.id, monthlyCount[..]);
  }

  /** Lines 27-48: one row per faculty member, pushed in fetched order. */
  method FacultyRows(faculties: seq<FacultyRecord>, year: Num) returns (rows: seq<Row>)
    ensures rows == Rows(faculties, year)
  {
    rows := [];
    for i := 0 to |faculties|
      invariant rows == Rows(faculties[..i], year)
    {
      var row := FacultyRow(faculties[i], year);
      assert faculties[..i + 1][..i] == faculties[..i];
      rows := rows + [row];
    }
    assert faculties[..|faculties|] == faculties;
  }

  /** Lines 7-48: refuse a request without a year, else the header and then the rows. */
  method GenerateReport(year: string, faculties: seq<FacultyRecord>) returns (r: Result<Sheet, ReportError>)
    ensures r == Report(year, faculties)
  {
    if year == "" {
      return Failure(YearRequired);
    }
    var rows := FacultyRows(faculties, ParseInt(year));
    return Success(Sheet(HEADER, rows));
  }

  /** One more duty adds one to its own month's count when it falls in the year, and changes nothing else. */
  lemma CountsStep(ds: seq<DutyRecord>, d: DutyRecord, year: Num)
    ensures var before := MonthCounts(ds, year);
      var after := MonthCounts(ds + [d], year);
      if InYear(d, year) then after == before[d.date.date.month := before[d.date.date.month] + 1]
      else after == before
  {
    assert (ds + [d])[..|ds|] == ds;
  }

  function Sum(s: seq<nat>): nat {
    if s == [] then 0 else Sum(s[..|s| - 1]) + s[|s| - 1]
  }

  lemma {:induction false} SumBump(s: seq<nat>, m: nat)
    requires m < |s|
    ensures Sum(s[m := s[m] + 1]) == Sum(s) + 1
  {
    var t := s[m := s[m] + 1];
    if m < |s| - 1 {
      SumBump(s[..|s| - 1], m);
      assert t[..|t| - 1] == s[..|s| - 1][m := s[m] + 1];
    } else {
      assert t[..|t| - 1] == s[..|s| - 1];
    }
  }

  lemma {:induction false} SumOfZeros(s: seq<nat>)
    requires forall i :: 0 <= i < |s| ==> s[i] == 0
    ensures Sum(s) == 0
  {
    if s != [] {
      SumOfZeros(s[..|s| - 1]);
    }
  }

  /** A row's counts add up to the member's duties in the year: every such duty lands in exactly one month. */
  lemma {:induction false} RowSumIsYearCount(ds: seq<DutyRecord>, year: Num)
    ensures Sum(MonthCounts(ds, year)) == YearCount(ds, year)
  {
    if ds == [] {
      SumOfZeros(MonthCounts(ds, year));
    } else {
      var init := ds[..|ds| - 1];
      var d := ds[|ds| - 1];
      RowSumIsYearCount(init, year);
      assert init + [d] == ds;
      CountsStep(init, d, year);
      if InYear(d, year) {
        SumBump(MonthCounts(init, year), d.date.date.month);
      }
    }
  }

  /**
   * A member whose `lastDuty` is absent, a single object (the schema's
   * shape) or an empty list gets twelve zeros, whatever the year.
   */
  lemma NoListNoCounts(f: FacultyRecord, year: Num)
    requires !f.lastDuty.DutyList? || f.lastDuty.duties == []
    ensures RowOf(f, year).counts == [0, 0, 0, 0, 0, 0, 0, 0, 0, 0, 0, 0]
  {
  }

  /** A year that does not parse as a number matches no date, so every row is all zeros. */
  lemma {:induction false} UnparsableYearCountsNothing(ds: seq<DutyRecord>, year: Num, m: Month)
    requires year.NaN?
    ensures CountIn(ds, year, m) == 0 && YearCount(ds, year) == 0
  {
    if ds != [] {
      UnparsableYearCountsNothing(ds[..|ds| - 1], year, m);
    }
  }

  /** The report has the header, then exactly one row per faculty member in fetched order, each with twelve counts. */
  lemma ReportShape(year: string, faculties: seq<FacultyRecord>)
    ensures Report(year, faculties).Failure? <==> year == ""
    ensures Report(year, faculties).Success? ==>
      var sheet := Report(year, faculties).value;
      && sheet.header == HEADER && |sheet.header| == 14
      && |sheet.rows| == |faculties|
      && forall i :: 0 <= i < |faculties| ==>
           && sheet.rows[i].name == faculties[i].name && sheet.rows[i].id == faculties[i].id
           && |sheet.rows[i].counts| == 12
  {
  }
}
