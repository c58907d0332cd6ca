/**
 * The arithmetic skeleton of the `/export` spreadsheet: one data row per
 * selected record, a worked-hours cell only for complete rows, the running
 * total over those rows, the closing TOTAL row, and the column-width rule.
 * Durations stay in exact milliseconds; the conversion to hours and the
 * two-decimal rendering are not modelled.
 */
module Report {
  import opened Attendance
  import opened Queries

  /**
   * A worksheet cell. `DateText`, `TimeText` and `Hours` stand for the
   * rendered date, the rendered time of day and the rendered duration of the
   * value they carry.
   */
  datatype Cell =
    | Text(text: string)
    | Null
    | DateText(date: string)
    | TimeText(instant: int)
    | Hours(ms: int)

  /** Both timestamps present: the only rows that get an hours value. */
  predicate Complete(x: Record)
  {
    x.clockIn.Some? && x.clockOut.Some?
  }

  /** The worked time of a row, with no check that clock-out follows clock-in. */
  function Duration(x: Record): int
    requires Complete(x)
  {
    x.clockOut.value - x.clockIn.value
  }

  function NameCell(name: Option<string>): Cell
  {
    match name
    case Some(n) => Text(n)
    case None => Null
  }

  function TimeCell(t: Option<int>): Cell
  {
    match t
    case Some(v) => TimeText(v)
    case None => Text("")
  }

  /** The sheet row written for one record. */
  function DataRow(x: Record): seq<Cell>
  {
    [Text(x.employeeId), NameCell(x.employeeName), DateText(x.date),
     TimeCell(x.clockIn), TimeCell(x.clockOut),
     if Complete(x) then Hours(Duration(x)) else Text("")]
  }

  function TotalRow(total: int): seq<Cell>
  {
    [Text(""), Text(""), Text(""), Text(""), Text("TOTAL"), Hours(total)]
  }

  /** Reference sum: the worked time of the complete records; the others add nothing. */
  function TotalOf(rs: seq<Record>): int
  {
    if |rs| == 0 then 0
    else TotalOf(rs[..|rs| - 1]) + (if Complete(rs[|rs| - 1]) then Duration(rs[|rs| - 1]) else 0)
  }

  /** The value a row's hours column contributes to a sum: its duration, or 0 when blank. */
  function HoursIn(row: seq<Cell>): int
  {
    if |row| == 6 && row[5].Hours? then row[5].ms else 0
  }

  function HoursSum(rows: seq<seq<Cell>>): int
  {
    if |rows| == 0 then 0 else HoursSum(rows[..|rows| - 1]) + HoursIn(rows[|rows| - 1])
  }

  lemma {:induction false} TotalOfAppend(a: seq<Record>, b: seq<Record>)
    ensures TotalOf(a + b) == TotalOf(a) + TotalOf(b)
    decreases |b|
  {
    if |b| == 0 {
      assert a + b == a;
    } else {
      var n := |b| - 1;
      assert (a + b)[..|a + b| - 1] == a + b[..n];
      assert (a + b)[|a + b| - 1] == b[n];
      TotalOfAppend(a, b[..n]);
    }
  }

  /** What the cells of a data row hold. */
  lemma DataRowCells(x: Record)
    ensures RowDescribes(DataRow(x), x)
  {
  }

  /**
   * `row` shows record `x`: its id, its name (NULL when absent), its date, each
   * timestamp (blank when absent), and its duration exactly when it is complete.
   */
  predicate RowDescribes(row: seq<Cell>, x: Record)
  {
    && |row| == 6
    && row[0] == Text(x.employeeId)
    && (x.employeeName.Some? ==> row[1] == Text(x.employeeName.value))
    && (x.employeeName.None? ==> row[1] == Null)
    && row[2] == DateText(x.date)
    && (x.clockIn.Some? ==> row[3] == TimeText(x.clockIn.value))
    && (x.clockIn.None? ==> row[3] == Text(""))
    && (x.clockOut.Some? ==> row[4] == TimeText(x.clockOut.value))
    && (x.clockOut.None? ==> row[4] == Text(""))
    && (row[5].Hours? <==> Complete(x))
    && (Complete(x) ==> row[5].ms == Duration(x))
    && (!Complete(x) ==> row[5] == Text(""))
  }

  /**
   * The data rows and the closing TOTAL row for `rs`, in `rs`'s order, with
   * the total accumulated as the rows are written.
   */
  method BuildReport(rs: seq<Record>) returns (rows: seq<seq<Cell>>, total: int)
    ensures |rows| == |rs| + 1
    ensures forall i :: 0 <= i < |rs| ==> RowDescribes(rows[i], rs[i])
    ensures rows[|rs|] == TotalRow(total)
    ensures total == TotalOf(rs)
    ensures total == HoursSum(rows[..|rs|])
  {
    total := 0;
    rows := [];
    var i := 0;
    while i < |rs|
      invariant 0 <= i <= |rs|
      invariant |rows| == i
      invariant forall k :: 0 <= k < i ==> rows[k] == DataRow(rs[k])
      invariant total == TotalOf(rs[..i])
      invariant total == HoursSum(rows)
    {
      var x := rs[i];
      ghost var before := total;
      var hours := Text("");
      if x.clockIn.Some? && x.clockOut.Some? {
        var h := x.clockOut.value - x.clockIn.value;
        total := total + h;
        hours := Hours(h);
      }
      assert hours == DataRow(x)[5];
      ghost var added := if Complete(x) then Duration(x) else 0;
      assert total == before + added;
      var row := [Text(x.employeeId), NameCell(x.employeeName), DateText(x.date),
                  TimeCell(x.clockIn), TimeCell(x.clockOut), hours];
      assert row == DataRow(x);
      TotalStep(rs, i);
      HoursSumStep(rows, row);
      assert HoursIn(row) == added;
      rows := rows + [row];
      i := i + 1;
    }
    RowsDescribe(rows, rs);
    assert rs[..|rs|] == rs;
    assert (rows + [TotalRow(total)])[..|rs|] == rows;
    rows := rows + [TotalRow(total)];
  }

  lemma RowsDescribe(rows: seq<seq<Cell>>, rs: seq<Record>)
    requires |rows| == |rs|
    requires forall k :: 0 <= k < |rs| ==> rows[k] == DataRow(rs[k])
    ensures forall k :: 0 <= k < |rs| ==> RowDescribes(rows[k], rs[k])
  {
    forall k | 0 <= k < |rs|
      ensures RowDescribes(rows[k], rs[k])
    {
      DataRowCells(rs[k]);
    }
  }

  lemma TotalStep(rs: seq<Record>, i: int)
    requires 0 <= i < |rs|
    ensures TotalOf(rs[..i + 1]) == TotalOf(rs[..i]) + (if Complete(rs[i]) then Duration(rs[i]) else 0)
  {
    assert rs[..i + 1][..i] == rs[..i];
  }

  lemma HoursSumStep(rows: seq<seq<Cell>>, row: seq<Cell>)
    ensures HoursSum(rows + [row]) == HoursSum(rows) + HoursIn(row)
  {
    assert (rows + [row])[..|rows|] == rows;
  }

  /** `/export`: select the rows for the query's date range, then lay out the report. */
  method Export(l: Ledger, from: Option<string>, to: Option<string>) returns (rows: seq<seq<Cell>>, total: int)
    ensures var selected := RangeSelect(l, from, to);
      && |rows| == |selected| + 1
      && total == TotalOf(selected)
      && rows[|selected|] == TotalRow(total)
      && forall i :: 0 <= i < |selected| ==> RowDescribes(rows[i], selected[i])
  {
    rows, total := BuildReport(RangeSelect(l, from, to));
  }

  // ---------------------------------------------------------------- column width

  /**
   * The length the width rule reads off a cell: its text's length when the
   * value is truthy, 10 for an empty or missing value.
   */
  function CellLength(v: Option<string>): nat
  {
    if v.Some? && v.value != "" then |v.value| else 10
  }

  /** A column's width: its longest cell by `CellLength`, plus 5. */
  method ColumnWidth(cells: seq<Option<string>>) returns (width: int)
    ensures forall i :: 0 <= i < |cells| ==> CellLength(cells[i]) + 5 <= width
    ensures |cells| == 0 ==> width == 5
    ensures |cells| > 0 ==> exists i :: 0 <= i < |cells| && width == CellLength(cells[i]) + 5
  {
    var maxLength := 0;
    var i := 0;
    while i < |cells|
      invariant 0 <= i <= |cells|
      invariant forall k :: 0 <= k < i ==> CellLength(cells[k]) <= maxLength
      invariant i == 0 ==> maxLength == 0
      invariant i > 0 ==> exists k :: 0 <= k < i && maxLength == CellLength(cells[k])
    {
      var len := if cells[i].Some? && cells[i].value != "" then |cells[i].value| else 10;
      if len > maxLength {
        maxLength := len;
      }
      i := i + 1;
    }
    width := maxLength + 5;
  }
}
