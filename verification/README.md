# Attendance ledger

A Dafny model of the time-clock server of a small QR-code attendance app. An
employee badge carries the text `employee_id|employee_name`. Each scan posts
that text with `IN` or `OUT`. The server keeps one `attendance` table in
SQLite, with at most one row per employee and UTC calendar day. The row carries
the clock-in and clock-out instants. On top of the table sit the day list
(`/today`), the day's in/out counts (`/stats/today`), deletion of one row
(`/attendance/:id`), undo of the newest row (`/undo`), and a spreadsheet
export over a date range (`/export`) with a running total of worked time.

The model is pure and functional:

- `Strings` holds the JavaScript `split("|")`, its inverse `Join`, and the
  byte-wise text order SQLite uses for `BETWEEN` on TEXT columns (`LexLe`).
- `Attendance` holds the table: a `Ledger` of records in rowid order plus the
  next AUTOINCREMENT id. It defines the badge parser, the row lookup, the
  `/scan` state machine (`ClockIn`, `ClockOut`, `Scan`), `Delete` and `Undo`.
- `History` runs arbitrary request sequences from an empty table. It proves
  the table invariant: ids ascending and fresh, one row per employee and day,
  every row clocked in. It also shows that `/scan` is the three-state machine
  `Absent → ClockedIn → ClockedOut` per employee and day, and leaves every
  other employee-day alone.
- `Queries` holds the `/today` list, the `/stats/today` counts and the
  `/export` row selection.
- `Report` holds the export's data rows, TOTAL row, running total and
  column-width rule.
- `Scenarios` has worked examples on concrete badges and instants.

The clock is a parameter. `today` is the `YYYY-MM-DD` string and `now` is the
instant in integer milliseconds since the epoch. Three behaviours of the code
are easy to miss:

- A badge with no `|` is not rejected. `split` yields a single piece, the
  name is `undefined`, and the row is stored with a NULL name
  (`ParsePayload` returns `None`).
- A scan whose type is neither `IN` nor `OUT` gets no reply at all, and the
  table is untouched (`NoReply`).
- An export whose `from` is after `to` selects no rows
  (`ReversedRangeIsEmpty`), because `BETWEEN` does not reorder its bounds.

## Model

| member | source | states |
|---|---|---|
| Strings.Split | server.js:32 | `split` on one separator always yields at least one piece, and no piece contains the separator |
| Strings.JoinSplit | server.js:32 | joining the pieces of `split` with the separator gives back the original text |
| Strings.SplitJoin | server.js:32 | splitting a join of bar-free pieces gives back exactly those pieces |
| Strings.FirstPiece | server.js:32 | the first piece is a prefix of the text; it is the whole text when there is one piece; otherwise a separator follows it and the rest splits into the remaining pieces |
| Strings.LexLeReflexive | server.js:102 | every date lies between itself and itself under SQLite's text order |
| Strings.LexLeAntisymmetric | server.js:102 | two texts ordered both ways under SQLite's text order are equal |
| Strings.LexLeTransitive | server.js:102 | SQLite's text order is transitive |
| Attendance.ParsePayload | server.js:32 | the employee id is the badge text up to the first bar; the name is absent exactly when the badge has no bar; a present name is the text between the first and second bar |
| Attendance.FindRecord | server.js:36-38 | the lookup finds nothing exactly when no row has that employee and date; otherwise it returns the first such row in table order |
| Attendance.ClockIn | server.js:40-49 | clock-in is refused with "Already clocked in today" exactly when a row exists for the employee and day; otherwise one row is appended with a fresh id above every existing id, the parsed id and name, the day and the clock-in instant, no clock-out, and "Clock In successful" |
| Attendance.ClockOut | server.js:51-60 | clock-out answers "Clock In not found" when no row exists and "Already clocked out" when the found row has a clock-out, leaving the table unchanged; otherwise only the found row changes and it gains the clock-out instant |
| Attendance.Scan | server.js:30-61 | a scan keeps the table valid; an error or no-reply leaves it unchanged; an unknown type gets no reply; IN and OUT follow `ClockIn`/`ClockOut` |
| Attendance.Delete | server.js:86 | deletion keeps exactly the rows whose id differs, keeps the table valid and the id counter, and is a no-op for an absent id |
| Attendance.DeleteRemovesOne | server.js:86 | deleting an existing id of a valid table removes exactly one row |
| Attendance.MaxId | server.js:93 | the subquery's id is the id of some row and no row has a larger one |
| Attendance.Undo | server.js:92-94 | undo on an empty table is a no-op; otherwise it removes exactly the row with the largest id and keeps the id counter and validity |
| Attendance.UndoDropsLast | server.js:92-94 | on a valid table undo drops the last row in table order |
| History.Apply | server.js:30-96 | any single scan, delete or undo keeps the table valid |
| History.Run | server.js:30-96 | any sequence of requests keeps the table valid and never lowers the id counter |
| History.ScanKeepsInv | server.js:36-60 | a scan preserves one-row-per-employee-and-day and clocked-in-ness of every row |
| History.ApplyKeepsInv | server.js:30-96 | scans, deletes and undos all preserve the full table invariant |
| History.RunKeepsInv | server.js:30-96 | every request sequence preserves the full table invariant |
| History.Reachable | server.js:13-96 | every table reachable from an empty one satisfies the invariant |
| History.ScanFollowsStep | server.js:36-60 | the employee-day's new state and the reply are those of the transition table `Step` applied to its old state |
| History.ScanLeavesOthers | server.js:36-60 | a scan leaves the state of every other employee-day unchanged |
| History.SecondInRefused | server.js:40-41 | after any clock-in, a second clock-in for the same badge and day is refused and changes nothing |
| History.FullCycle | server.js:36-60 | from no row: IN succeeds, OUT succeeds, then OUT answers "Already clocked out" and IN answers "Already clocked in today", each leaving the table unchanged |
| Queries.TodayList | server.js:66-68 | the day list holds exactly the rows of that date, newest id first |
| Queries.DailyStats | server.js:75-80 | the in-count is the number of the date's rows with a clock-in and the out-count the number with a clock-out; on every reachable table the in-count equals the length of the day list and the out-count never exceeds it |
| Queries.RangeSelect | server.js:101-103 | with both bounds non-empty the selection is exactly the rows whose date lies between them inclusively under SQLite's text order; otherwise it is every row; table order is kept |
| Queries.ReversedRangeIsEmpty | server.js:101-102 | bounds given in the wrong order select no rows |
| Queries.OneDayRange | server.js:66-68 | a one-day export range selects the same rows as that day's list |
| Report.TotalOfAppend | server.js:132-141 | the reference total over two runs of rows is the sum of their totals |
| Report.DataRowCells | server.js:146-153 | a data row shows the employee id, the name (NULL when absent), the date, each timestamp (blank when absent), and an hours value exactly when both timestamps are present, equal to clock-out minus clock-in |
| Report.BuildReport | server.js:132-157 | one data row per record in order, each describing its record, then the TOTAL row; the running total equals the reference total and the sum of the data rows' hours cells |
| Report.Export | server.js:99-157 | the export reports on the range selection: data row i describes selected record i, followed by the TOTAL row, whose value is the total worked time of those records |
| Report.ColumnWidth | server.js:162-169 | a column's width is 5 more than its longest cell, counting an empty or missing value as 10 long; an empty column gets 5 |
| Scenarios.ParseAlice | server.js:32 | the badge text `E1`, a bar, `Alice` reads as employee E1 named Alice |
| Scenarios.ClockInAtNine | server.js:40-49 | Alice's first clock-in on a fresh table creates row 1 with the nine o'clock instant |
| Scenarios.ClockInAgain | server.js:40-41 | her second clock-in the same day is refused and changes nothing |
| Scenarios.ClockOutAtFive | server.js:51-60 | her clock-out at five completes row 1 |
| Scenarios.AliceWorksEightHours | server.js:30-61 | IN, a refused IN, then OUT leave one complete row worth eight hours |
| Scenarios.UndoOnEmpty | server.js:92-94 | undo on a fresh table changes nothing |

## Left out

- HTTP routing, JSON bodies, static files and `/login`: these are Express glue around the ledger.
- The clock: `today` and `now` are parameters. The two separate `new Date()` reads in `/scan` are taken to agree on the day.
- Timestamps are integer milliseconds, not ISO-8601 strings. Parsing them back with `new Date` is not modelled.
- Report.BuildReport: keeps worked time in exact milliseconds. The division by `36e5`, floating-point accumulation and `toFixed(2)` rendering are not modelled.
- Report.DataRowCells: the locale clock-time strings and the `DD-MM-YYYY` date rendering are not modelled; the cells carry the raw values (`DateText`, `TimeText`).
- Report.Export: produces only the data rows and the TOTAL row. The blank, title and header rows and all ExcelJS styling, merging and streaming are not modelled.
- Report.ColumnWidth: works on the displayed strings of one column as given. Which cells ExcelJS visits, including the merged title cell, is not modelled. `toString` of non-string values is also not modelled.
- String lengths count Dafny characters, not UTF-16 code units as in JavaScript.
- A request body without `qr` makes `split` throw, giving a server error. This is not modelled.
- The `/attendance/:id` parameter is modelled as an integer id. A non-numeric id matches no row, which the model covers as an absent id.
- An absent name is taken to be bound by the SQLite driver as NULL.
- Concurrent requests are not modelled. Each request is one atomic step on the ledger.
