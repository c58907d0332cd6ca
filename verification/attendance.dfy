/**
 * The attendance ledger of server.js: the `attendance` table as a sequence of
 * records in rowid order plus the AUTOINCREMENT counter, the `/scan`
 * transition, and the two corrective deletions `/attendance/:id` and `/undo`.
 *
 * The clock is a parameter: `today` is the `YYYY-MM-DD` prefix of the current
 * ISO instant and `now` is that instant in milliseconds.
 */
module Attendance {
  import opened Strings

  datatype Option<T> = None | Some(value: T)

  /** One row of the table. Timestamps are instants in milliseconds; a NULL column is `None`. */
  datatype Record = Record(
    id: int,
    employeeId: string,
    employeeName: Option<string>,
    date: string,
    clockIn: Option<int>,
    clockOut: Option<int>)

  /**
   * The table in rowid order, and the id the next INSERT receives. With
   * AUTOINCREMENT that id is never one a deleted row once had.
   */
  datatype Ledger = Ledger(records: seq<Record>, nextId: int)

  /** A freshly created table: no rows, and SQLite starts AUTOINCREMENT ids at 1. */
  const Empty: Ledger := Ledger([], 1)

  predicate Ascending(rs: seq<Record>)
  {
    forall i, j :: 0 <= i < j < |rs| ==> rs[i].id < rs[j].id
  }

  /** The representation invariant: rows in increasing id order, every id already handed out. */
  predicate Valid(l: Ledger)
  {
    && Ascending(l.records)
    && forall i :: 0 <= i < |l.records| ==> l.records[i].id < l.nextId
  }

  // ---------------------------------------------------------------- payload

  const Bar: char := '|'

  /** The two fields the scanner's QR text carries. */
  datatype Payload = Payload(employeeId: string, employeeName: Option<string>)

  /**
   * `const [employee_id, employee_name] = qr.split("|")`: the id is the text
   * before the first bar (all of it when there is none) and the name the text
   * between the first and the second bar; without a bar the name is undefined.
   */
  function ParsePayload(qr: string): (p: Payload)
    ensures Bar !in p.employeeId
    ensures |p.employeeId| <= |qr| && qr[..|p.employeeId|] == p.employeeId
    ensures p.employeeName.None? <==> Bar !in qr
    ensures p.employeeName.None? ==> p.employeeId == qr
    ensures p.employeeName.Some? ==>
      var n := p.employeeName.value;
      var k := |p.employeeId| + 1;
      && qr[k - 1] == Bar
      && Bar !in n
      && k + |n| <= |qr|
      && qr[k..k + |n|] == n
      && (k + |n| == |qr| || qr[k + |n|] == Bar)
  {
    var parts := Split(qr, Bar);
    FirstPiece(qr, Bar);
    if |parts| == 1 then
      Payload(parts[0], None)
    else
      var k := |parts[0]| + 1;
      FirstPiece(qr[k..], Bar);
      Payload(parts[0], Some(parts[1]))
  }

  // ---------------------------------------------------------------- lookup

  predicate Matches(r: Record, employeeId: string, date: string)
  {
    r.employeeId == employeeId && r.date == date
  }

  /** Some row belongs to this employee on this date. */
  predicate HasRecord(rs: seq<Record>, employeeId: string, date: string)
  {
    exists i :: 0 <= i < |rs| && Matches(rs[i], employeeId, date)
  }

  /** Row `i` is the first, in table-scan order, of this employee on this date. */
  predicate IsFirstMatch(rs: seq<Record>, employeeId: string, date: string, i: int)
  {
    && 0 <= i < |rs|
    && Matches(rs[i], employeeId, date)
    && forall j :: 0 <= j < i ==> !Matches(rs[j], employeeId, date)
  }

  /**
   * `SELECT * FROM attendance WHERE employee_id=? AND date=?` with `.get`:
   * the first matching row of a table scan, or nothing.
   */
  function FindRecord(rs: seq<Record>, employeeId: string, date: string): (r: Option<nat>)
    ensures r.None? <==> !HasRecord(rs, employeeId, date)
    ensures r.Some? ==> IsFirstMatch(rs, employeeId, date, r.value)
  {
    if |rs| == 0 then None
    else if Matches(rs[0], employeeId, date) then Some(0)
    else
      match FindRecord(rs[1..], employeeId, date)
      case None =>
        assert forall i :: 1 <= i < |rs| ==> rs[i] == rs[1..][i - 1];
        None
      case Some(k) =>
        assert forall j :: 1 <= j < k + 1 ==> rs[j] == rs[1..][j - 1];
        Some(k + 1)
  }

  // ---------------------------------------------------------------- scan

  /** What `/scan` answers: `{ok: …}`, `{error: …}`, or nothing at all for an unknown type. */
  datatype Reply = Ok(ok: string) | Error(error: string) | NoReply

  const ClockInOk: string := "Clock In successful"
  const ClockOutOk: string := "Clock Out successful"
  const AlreadyIn: string := "Already clocked in today"
  const NotFound: string := "Clock In not found"
  const AlreadyOut: string := "Already clocked out"

  datatype ScanResult = ScanResult(ledger: Ledger, reply: Reply)

  /** The INSERT of a clock-in: a new last row with the next id, no clock-out. */
  function Insert(l: Ledger, employeeId: string, employeeName: Option<string>, date: string, now: int): Ledger
  {
    Ledger(l.records + [Record(l.nextId, employeeId, employeeName, date, Some(now), None)], l.nextId + 1)
  }

  /** `UPDATE attendance SET clock_out_ts=? WHERE id=?`. */
  function SetClockOut(l: Ledger, id: int, now: int): Ledger
  {
    Ledger(seq(|l.records|, k requires 0 <= k < |l.records| =>
                 if l.records[k].id == id then l.records[k].(clockOut := Some(now)) else l.records[k]),
           l.nextId)
  }

  /**
   * The `type === "IN"` branch of `/scan`: refused when the employee already
   * has a row for the day, whatever its state; otherwise a new row is added.
   */
  function ClockIn(l: Ledger, p: Payload, today: string, now: int): (r: ScanResult)
    requires Valid(l)
    ensures Valid(r.ledger)
    ensures HasRecord(l.records, p.employeeId, today) ==> r == ScanResult(l, Error(AlreadyIn))
    ensures !HasRecord(l.records, p.employeeId, today) ==>
      && r.reply == Ok(ClockInOk)
      && r.ledger.nextId == l.nextId + 1
      && r.ledger.records == l.records + [Record(l.nextId, p.employeeId, p.employeeName, today, Some(now), None)]
      && forall i :: 0 <= i < |l.records| ==> l.records[i].id < r.ledger.records[|l.records|].id
  {
    if FindRecord(l.records, p.employeeId, today).Some? then ScanResult(l, Error(AlreadyIn))
    else ScanResult(Insert(l, p.employeeId, p.employeeName, today, now), Ok(ClockInOk))
  }

  /**
   * The `type === "OUT"` branch of `/scan`: refused without a row for the day
   * or when the row is already clocked out; otherwise that row, and only it,
   * gets its clock-out.
   */
  function ClockOut(l: Ledger, p: Payload, today: string, now: int): (r: ScanResult)
    requires Valid(l)
    ensures Valid(r.ledger)
    ensures !HasRecord(l.records, p.employeeId, today) ==> r == ScanResult(l, Error(NotFound))
    ensures forall i :: IsFirstMatch(l.records, p.employeeId, today, i) ==>
      if l.records[i].clockOut.Some? then
        r == ScanResult(l, Error(AlreadyOut))
      else
        && r.reply == Ok(ClockOutOk)
        && r.ledger.nextId == l.nextId
        && |r.ledger.records| == |l.records|
        && r.ledger.records[i] == l.records[i].(clockOut := Some(now))
        && forall j :: 0 <= j < |l.records| && j != i ==> r.ledger.records[j] == l.records[j]
  {
    match FindRecord(l.records, p.employeeId, today)
    case None => ScanResult(l, Error(NotFound))
    case Some(i) =>
      if l.records[i].clockOut.Some? then ScanResult(l, Error(AlreadyOut))
      else ScanResult(SetClockOut(l, l.records[i].id, now), Ok(ClockOutOk))
  }

  /**
   * The `/scan` handler for QR text `qr` and scan type `kind`. Every refused
   * transition answers a fixed error and leaves the table as it was.
   */
  function Scan(l: Ledger, qr: string, kind: string, today: string, now: int): (r: ScanResult)
    requires Valid(l)
    ensures Valid(r.ledger)
    ensures !r.reply.Ok? ==> r.ledger == l
    ensures kind != "IN" && kind != "OUT" ==> r == ScanResult(l, NoReply)
    ensures kind == "IN" ==>
      var p := ParsePayload(qr);
      if HasRecord(l.records, p.employeeId, today) then
        r == ScanResult(l, Error(AlreadyIn))
      else
        && r.reply == Ok(ClockInOk)
        && r.ledger.nextId == l.nextId + 1
        && r.ledger.records == l.records + [Record(l.nextId, p.employeeId, p.employeeName, today, Some(now), None)]
        && forall i :: 0 <= i < |l.records| ==> l.records[i].id < r.ledger.records[|l.records|].id
    ensures kind == "OUT" && !HasRecord(l.records, ParsePayload(qr).employeeId, today) ==>
      r == ScanResult(l, Error(NotFound))
    ensures kind == "OUT" ==>
      var p := ParsePayload(qr);
      forall i :: IsFirstMatch(l.records, p.employeeId, today, i) ==>
        if l.records[i].clockOut.Some? then
          r == ScanResult(l, Error(AlreadyOut))
        else
          && r.reply == Ok(ClockOutOk)
          && r.ledger.nextId == l.nextId
          && |r.ledger.records| == |l.records|
          && r.ledger.records[i] == l.records[i].(clockOut := Some(now))
          && forall j :: 0 <= j < |l.records| && j != i ==> r.ledger.records[j] == l.records[j]
  {
    var p := ParsePayload(qr);
    if kind == "IN" then ClockIn(l, p, today, now)
    else if kind == "OUT" then
      var r := ClockOut(l, p, today, now);
      assert !r.reply.Ok? ==> r.ledger == l by {
        if HasRecord(l.records, p.employeeId, today) {
          var i := FindRecord(l.records, p.employeeId, today).value;
          assert IsFirstMatch(l.records, p.employeeId, today, i);
        }
      }
      r
    else ScanResult(l, NoReply)
  }

  // ---------------------------------------------------------------- deletion

  /**
   * The rows of `rs` that `keep` accepts, in their original order: which rows
   * is `SelectMembers`, the order `SelectAscending`, and concatenation
   * `SelectAppend`.
   */
  function Select(rs: seq<Record>, keep: Record -> bool): (r: seq<Record>)
    ensures |r| <= |rs|
  {
    if |rs| == 0 then []
    else if keep(rs[0]) then [rs[0]] + Select(rs[1..], keep)
    else Select(rs[1..], keep)
  }

  /** Selection keeps exactly the rows `keep` accepts. */
  lemma {:induction false} SelectMembers(rs: seq<Record>, keep: Record -> bool)
    ensures forall x :: x in Select(rs, keep) <==> x in rs && keep(x)
  {
    if |rs| > 0 {
      SelectMembers(rs[1..], keep);
      assert rs == [rs[0]] + rs[1..];
    }
  }

  /** Selection keeps the rows in id order. */
  lemma {:induction false} SelectAscending(rs: seq<Record>, keep: Record -> bool)
    requires Ascending(rs)
    ensures Ascending(Select(rs, keep))
  {
    if |rs| > 0 {
      HeadBelowTail(rs);
      SelectAscending(rs[1..], keep);
      SelectMembers(rs[1..], keep);
      var tail := Select(rs[1..], keep);
      if keep(rs[0]) {
        assert forall x :: x in tail ==> rs[0].id < x.id;
        AscendingCons(rs[0], tail);
      }
    }
  }

  /** A row below every row of an ordered list can go in front of it. */
  lemma AscendingCons(x: Record, rs: seq<Record>)
    requires Ascending(rs)
    requires forall y :: y in rs ==> x.id < y.id
    ensures Ascending([x] + rs)
  {
    var r := [x] + rs;
    forall i, j | 0 <= i < j < |r|
      ensures r[i].id < r[j].id
    {
      assert r[j] == rs[j - 1];
      if i > 0 {
        assert r[i] == rs[i - 1];
      } else {
        assert rs[j - 1] in rs;
      }
    }
  }

  /** In an ordered list the first row is below all the others. */
  lemma HeadBelowTail(rs: seq<Record>)
    requires Ascending(rs) && |rs| > 0
    ensures Ascending(rs[1..])
    ensures forall x :: x in rs[1..] ==> rs[0].id < x.id
  {
    forall x | x in rs[1..]
      ensures rs[0].id < x.id
    {
      var j :| 0 <= j < |rs[1..]| && rs[1..][j] == x;
      assert rs[j + 1] == x;
    }
  }

  lemma {:induction false} SelectAppend(a: seq<Record>, b: seq<Record>, keep: Record -> bool)
    ensures Select(a + b, keep) == Select(a, keep) + Select(b, keep)
  {
    if |a| == 0 {
      assert a + b == b;
    } else {
      var ab := a + b;
      assert ab[0] == a[0] && ab[1..] == a[1..] + b;
      SelectAppend(a[1..], b, keep);
      var s1, s2 := Select(a[1..], keep), Select(b, keep);
      if keep(a[0]) {
        assert Select(ab, keep) == [a[0]] + (s1 + s2);
        assert Select(a, keep) == [a[0]] + s1;
        assert [a[0]] + (s1 + s2) == ([a[0]] + s1) + s2;
      } else {
        assert Select(ab, keep) == s1 + s2;
        assert Select(a, keep) == s1;
      }
    }
  }

  lemma {:induction false} SelectAll(rs: seq<Record>, keep: Record -> bool)
    requires forall i :: 0 <= i < |rs| ==> keep(rs[i])
    ensures Select(rs, keep) == rs
  {
    if |rs| > 0 {
      SelectAll(rs[1..], keep);
      assert [rs[0]] + rs[1..] == rs;
    }
  }

  predicate HasId(rs: seq<Record>, id: int)
  {
    exists i :: 0 <= i < |rs| && rs[i].id == id
  }

  /**
   * `DELETE FROM attendance WHERE id=?`: the row with that id goes, every
   * other row stays in place, and an absent id changes nothing.
   */
  function Delete(l: Ledger, id: int): (r: Ledger)
    ensures r.nextId == l.nextId
    ensures forall x :: x in r.records <==> x in l.records && x.id != id
    ensures Valid(l) ==> Valid(r)
    ensures !HasId(l.records, id) ==> r == l
  {
    var keep := (x: Record) => x.id != id;
    var r := Ledger(Select(l.records, keep), l.nextId);
    SelectMembers(l.records, keep);
    assert !HasId(l.records, id) ==> r == l by {
      if !HasId(l.records, id) {
        SelectAll(l.records, keep);
      }
    }
    assert Valid(l) ==> Valid(r) by {
      if Valid(l) {
        SelectAscending(l.records, keep);
        assert forall i :: 0 <= i < |r.records| ==> r.records[i] in l.records;
      }
    }
    r
  }

  /** Selection that rejects exactly one row loses exactly that one. */
  lemma {:induction false} SelectDropsOne(rs: seq<Record>, keep: Record -> bool, k: int)
    requires 0 <= k < |rs| && !keep(rs[k])
    requires forall i :: 0 <= i < |rs| && i != k ==> keep(rs[i])
    ensures |Select(rs, keep)| == |rs| - 1
  {
    if k == 0 {
      SelectAll(rs[1..], keep);
    } else {
      SelectDropsOne(rs[1..], keep, k - 1);
    }
  }

  /** Ids are unique in a valid ledger, so a delete of a present id removes exactly one row. */
  lemma DeleteRemovesOne(l: Ledger, id: int)
    requires Valid(l) && HasId(l.records, id)
    ensures |Delete(l, id).records| == |l.records| - 1
  {
    var rs := l.records;
    var k :| 0 <= k < |rs| && rs[k].id == id;
    SelectDropsOne(rs, (x: Record) => x.id != id, k);
  }

  /** The id `ORDER BY id DESC LIMIT 1` picks: the largest one in the table. */
  function MaxId(rs: seq<Record>): (m: int)
    requires |rs| > 0
    ensures HasId(rs, m)
    ensures forall i :: 0 <= i < |rs| ==> rs[i].id <= m
  {
    if |rs| == 1 then rs[0].id
    else
      var m := MaxId(rs[1..]);
      assert forall i :: 1 <= i < |rs| ==> rs[i] == rs[1..][i - 1];
      if rs[0].id >= m then rs[0].id else m
  }

  /**
   * `/undo`: delete the row with the largest id, whoever it belongs to and
   * whatever its date; on an empty table, nothing.
   */
  function Undo(l: Ledger): (r: Ledger)
    ensures |l.records| == 0 ==> r == l
    ensures r.nextId == l.nextId
    ensures Valid(l) ==> Valid(r)
    ensures |l.records| > 0 ==>
      exists i :: 0 <= i < |l.records|
        && (forall j :: 0 <= j < |l.records| ==> l.records[j].id <= l.records[i].id)
        && forall x :: x in r.records <==> x in l.records && x.id != l.records[i].id
  {
    if |l.records| == 0 then l else Delete(l, MaxId(l.records))
  }

  /** With rows in id order, undo drops exactly the last row. */
  lemma UndoDropsLast(l: Ledger)
    requires Valid(l) && |l.records| > 0
    ensures Undo(l).records == l.records[..|l.records| - 1]
  {
    var rs := l.records;
    var n := |rs|;
    var m := MaxId(rs);
    assert rs[n - 1].id == m;
    var keep := (x: Record) => x.id != m;
    assert rs == rs[..n - 1] + [rs[n - 1]];
    SelectAppend(rs[..n - 1], [rs[n - 1]], keep);
    SelectAll(rs[..n - 1], keep);
    assert Select([rs[n - 1]], keep) == [];
  }
}
