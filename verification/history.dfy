/**
 * What any sequence of requests does to the ledger: the per-(employee, date)
 * cycle `NONE -> IN -> OUT` that `/scan` enforces, and the facts every
 * reachable table keeps, one row per employee and date and a clock-in on
 * every row.
 */
module History {
  import opened Attendance

  /** Two rows for the same employee on the same date. */
  predicate SameDay(a: Record, b: Record)
  {
    Matches(b, a.employeeId, a.date)
  }

  /** At most one row per (employee, date). */
  predicate OnePerDay(rs: seq<Record>)
  {
    forall i, j :: 0 <= i < |rs| && 0 <= j < |rs| && i != j ==> !SameDay(rs[i], rs[j])
  }

  /** Rows are only ever created by a clock-in, so every row has one. */
  predicate AllClockedIn(rs: seq<Record>)
  {
    forall i :: 0 <= i < |rs| ==> rs[i].clockIn.Some?
  }

  predicate Inv(l: Ledger)
  {
    Valid(l) && OnePerDay(l.records) && AllClockedIn(l.records)
  }

  // ---------------------------------------------------------------- requests

  /** A request that changes the table. */
  datatype Op =
    | ScanOp(qr: string, kind: string, today: string, now: int)
    | DeleteOp(id: int)
    | UndoOp

  function Apply(l: Ledger, op: Op): (r: Ledger)
    requires Valid(l)
    ensures Valid(r)
  {
    match op
    case ScanOp(qr, kind, today, now) => Scan(l, qr, kind, today, now).ledger
    case DeleteOp(id) => Delete(l, id)
    case UndoOp => Undo(l)
  }

  /** The table after serving `ops` one at a time, in order. */
  function Run(l: Ledger, ops: seq<Op>): (r: Ledger)
    requires Valid(l)
    ensures Valid(r)
    ensures r.nextId >= l.nextId
    decreases |ops|
  {
    if |ops| == 0 then l else Run(Apply(l, ops[0]), ops[1..])
  }

  // ---------------------------------------------------------------- invariant

  lemma ClockInKeepsInv(l: Ledger, p: Payload, today: string, now: int)
    requires Inv(l)
    ensures Inv(ClockIn(l, p, today, now).ledger)
  {
    var rs := l.records;
    var rs' := ClockIn(l, p, today, now).ledger.records;
    if !HasRecord(rs, p.employeeId, today) {
      forall i, j | 0 <= i < |rs'| && 0 <= j < |rs'| && i != j
        ensures !SameDay(rs'[i], rs'[j])
      {
        if i == |rs| {
          assert !Matches(rs[j], p.employeeId, today);
        } else if j == |rs| {
          assert !Matches(rs[i], p.employeeId, today);
        } else {
          assert rs'[i] == rs[i] && rs'[j] == rs[j];
        }
      }
    }
  }

  lemma ClockOutKeepsInv(l: Ledger, p: Payload, today: string, now: int)
    requires Inv(l)
    ensures Inv(ClockOut(l, p, today, now).ledger)
  {
    var rs := l.records;
    var rs' := ClockOut(l, p, today, now).ledger.records;
    if HasRecord(rs, p.employeeId, today) {
      var k := FindRecord(rs, p.employeeId, today).value;
      assert IsFirstMatch(rs, p.employeeId, today, k);
      assert forall i :: 0 <= i < |rs| ==> SameDay(rs'[i], rs[i]) && rs'[i].clockIn == rs[i].clockIn;
    }
  }

  lemma ScanKeepsInv(l: Ledger, qr: string, kind: string, today: string, now: int)
    requires Inv(l)
    ensures Inv(Scan(l, qr, kind, today, now).ledger)
  {
    var p := ParsePayload(qr);
    if kind == "IN" {
      ClockInKeepsInv(l, p, today, now);
    } else if kind == "OUT" {
      ClockOutKeepsInv(l, p, today, now);
    }
  }

  /** A table whose rows all appear in a table that keeps the invariant keeps it too. */
  lemma {:induction false} SubTableKeepsInv(a: Ledger, b: Ledger)
    requires Inv(a) && Valid(b)
    requires forall x :: x in b.records ==> x in a.records
    ensures Inv(b)
  {
    var rs := a.records;
    var bs := b.records;
    forall i, j | 0 <= i < |bs| && 0 <= j < |bs| && i != j
      ensures !SameDay(bs[i], bs[j])
    {
      assert bs[i].id != bs[j].id;
      assert bs[i] in rs && bs[j] in rs;
      var p :| 0 <= p < |rs| && rs[p] == bs[i];
      var q :| 0 <= q < |rs| && rs[q] == bs[j];
      assert p != q;
    }
    forall i | 0 <= i < |bs|
      ensures bs[i].clockIn.Some?
    {
      assert bs[i] in rs;
    }
  }

  lemma ApplyKeepsInv(l: Ledger, op: Op)
    requires Inv(l)
    ensures Inv(Apply(l, op))
  {
    match op
    case ScanOp(qr, kind, today, now) =>
      ScanKeepsInv(l, qr, kind, today, now);
    case DeleteOp(id) =>
      SubTableKeepsInv(l, Delete(l, id));
    case UndoOp =>
      SubTableKeepsInv(l, Undo(l));
  }

  lemma {:induction false} RunKeepsInv(l: Ledger, ops: seq<Op>)
    requires Inv(l)
    ensures Inv(Run(l, ops))
    decreases |ops|
  {
    if |ops| > 0 {
      ApplyKeepsInv(l, ops[0]);
      RunKeepsInv(Apply(l, ops[0]), ops[1..]);
    }
  }

  /** Every table the server can reach from a fresh one has one row per employee and day, each clocked in. */
  lemma Reachable(ops: seq<Op>)
    ensures Inv(Run(Empty, ops))
  {
    RunKeepsInv(Empty, ops);
  }

  // ---------------------------------------------------------------- the daily cycle

  datatype DayState = Absent | ClockedIn | ClockedOut

  /** The state of an (employee, date) cycle, read off the row `/scan` looks up. */
  function StateOf(rs: seq<Record>, employeeId: string, date: string): DayState
  {
    match FindRecord(rs, employeeId, date)
    case None => Absent
    case Some(i) => if rs[i].clockOut.Some? then ClockedOut else ClockedIn
  }

  /** The transition table of the daily cycle, with the reply each scan gets. */
  function Step(s: DayState, kind: string): (DayState, Reply)
  {
    if kind == "IN" then
      if s == Absent then (ClockedIn, Ok(ClockInOk)) else (s, Error(AlreadyIn))
    else if kind == "OUT" then
      match s
      case Absent => (Absent, Error(NotFound))
      case ClockedIn => (ClockedOut, Ok(ClockOutOk))
      case ClockedOut => (ClockedOut, Error(AlreadyOut))
    else
      (s, NoReply)
  }

  lemma FindAfterAppend(rs: seq<Record>, x: Record, employeeId: string, date: string)
    ensures FindRecord(rs + [x], employeeId, date) ==
      if HasRecord(rs, employeeId, date) then FindRecord(rs, employeeId, date)
      else if Matches(x, employeeId, date) then Some(|rs|)
      else None
  {
    var rs' := rs + [x];
    var f := FindRecord(rs, employeeId, date);
    var f' := FindRecord(rs', employeeId, date);
    if f.Some? {
      assert Matches(rs'[f.value], employeeId, date);
      assert f'.value == f.value;
    } else if Matches(x, employeeId, date) {
      assert Matches(rs'[|rs|], employeeId, date);
      assert f'.value == |rs|;
    } else {
      assert forall i :: 0 <= i < |rs'| ==> !Matches(rs'[i], employeeId, date) by {
        assert forall i :: 0 <= i < |rs| ==> rs'[i] == rs[i];
      }
    }
  }

  lemma FindSameKeys(a: seq<Record>, b: seq<Record>, employeeId: string, date: string)
    requires |a| == |b|
    requires forall k :: 0 <= k < |a| ==> SameDay(a[k], b[k])
    ensures FindRecord(a, employeeId, date) == FindRecord(b, employeeId, date)
  {
    var fa := FindRecord(a, employeeId, date);
    var fb := FindRecord(b, employeeId, date);
    assert forall k :: 0 <= k < |a| ==> (Matches(a[k], employeeId, date) <==> Matches(b[k], employeeId, date));
    if fa.Some? {
      assert Matches(b[fa.value], employeeId, date);
    }
  }

  lemma ClockOutSameDays(l: Ledger, p: Payload, today: string, now: int)
    requires Valid(l)
    ensures var rs' := ClockOut(l, p, today, now).ledger.records;
      |rs'| == |l.records| && forall k :: 0 <= k < |rs'| ==> SameDay(rs'[k], l.records[k])
  {
    if HasRecord(l.records, p.employeeId, today) {
      var i := FindRecord(l.records, p.employeeId, today).value;
      assert IsFirstMatch(l.records, p.employeeId, today, i);
    }
  }

  lemma ClockInStep(l: Ledger, p: Payload, today: string, now: int)
    requires Valid(l)
    ensures var r := ClockIn(l, p, today, now);
      (StateOf(r.ledger.records, p.employeeId, today), r.reply) == Step(StateOf(l.records, p.employeeId, today), "IN")
  {
    var x := Record(l.nextId, p.employeeId, p.employeeName, today, Some(now), None);
    FindAfterAppend(l.records, x, p.employeeId, today);
  }

  lemma ClockOutStep(l: Ledger, p: Payload, today: string, now: int)
    requires Valid(l)
    ensures var r := ClockOut(l, p, today, now);
      (StateOf(r.ledger.records, p.employeeId, today), r.reply) == Step(StateOf(l.records, p.employeeId, today), "OUT")
  {
    var r := ClockOut(l, p, today, now);
    if HasRecord(l.records, p.employeeId, today) {
      var k := FindRecord(l.records, p.employeeId, today).value;
      assert IsFirstMatch(l.records, p.employeeId, today, k);
      ClockOutSameDays(l, p, today, now);
      FindSameKeys(l.records, r.ledger.records, p.employeeId, today);
    }
  }

  /** `/scan` moves the scanned employee's cycle for today exactly as the transition table says. */
  lemma ScanFollowsStep(l: Ledger, qr: string, kind: string, today: string, now: int)
    requires Valid(l)
    ensures
      var p := ParsePayload(qr);
      var r := Scan(l, qr, kind, today, now);
      (StateOf(r.ledger.records, p.employeeId, today), r.reply) == Step(StateOf(l.records, p.employeeId, today), kind)
  {
    var p := ParsePayload(qr);
    if kind == "IN" {
      ClockInStep(l, p, today, now);
    } else if kind == "OUT" {
      ClockOutStep(l, p, today, now);
    }
  }

  lemma ClockInLeavesOthers(l: Ledger, p: Payload, today: string, now: int, employeeId: string, date: string)
    requires Valid(l)
    requires employeeId != p.employeeId || date != today
    ensures StateOf(ClockIn(l, p, today, now).ledger.records, employeeId, date) == StateOf(l.records, employeeId, date)
  {
    var x := Record(l.nextId, p.employeeId, p.employeeName, today, Some(now), None);
    FindAfterAppend(l.records, x, employeeId, date);
  }

  lemma ClockOutLeavesOthers(l: Ledger, p: Payload, today: string, now: int, employeeId: string, date: string)
    requires Valid(l)
    requires employeeId != p.employeeId || date != today
    ensures StateOf(ClockOut(l, p, today, now).ledger.records, employeeId, date) == StateOf(l.records, employeeId, date)
  {
    var r := ClockOut(l, p, today, now);
    if HasRecord(l.records, p.employeeId, today) {
      var k := FindRecord(l.records, p.employeeId, today).value;
      assert IsFirstMatch(l.records, p.employeeId, today, k);
      ClockOutSameDays(l, p, today, now);
      FindSameKeys(l.records, r.ledger.records, employeeId, date);
      var f := FindRecord(l.records, employeeId, date);
      if f.Some? {
        assert f.value != k;
      }
    }
  }

  /** A scan changes no other employee's cycle, and no other day's. */
  lemma ScanLeavesOthers(l: Ledger, qr: string, kind: string, today: string, now: int, employeeId: string, date: string)
    requires Valid(l)
    requires employeeId != ParsePayload(qr).employeeId || date != today
    ensures StateOf(Scan(l, qr, kind, today, now).ledger.records, employeeId, date) == StateOf(l.records, employeeId, date)
  {
    var p := ParsePayload(qr);
    if kind == "IN" {
      ClockInLeavesOthers(l, p, today, now, employeeId, date);
    } else if kind == "OUT" {
      ClockOutLeavesOthers(l, p, today, now, employeeId, date);
    }
  }

  // ---------------------------------------------------------------- scenarios

  /** After any clock-in, a second one the same day for the same QR text is refused. */
  lemma {:induction false} SecondInRefused(l: Ledger, qr: string, today: string, t1: int, t2: int)
    requires Valid(l)
    ensures
      var l1 := Scan(l, qr, "IN", today, t1).ledger;
      Scan(l1, qr, "IN", today, t2) == ScanResult(l1, Error(AlreadyIn))
  {
    var p := ParsePayload(qr);
    var l1 := Scan(l, qr, "IN", today, t1).ledger;
    ScanFollowsStep(l, qr, "IN", today, t1);
    ScanFollowsStep(l1, qr, "IN", today, t2);
    assert StateOf(l1.records, p.employeeId, today) != Absent;
  }

  /**
   * A full day: clock in, clock out, and then both a further clock-out and a
   * further clock-in are refused, the table staying as it was.
   */
  lemma {:induction false} FullCycle(l: Ledger, qr: string, today: string, t1: int, t2: int, t3: int, t4: int)
    requires Valid(l)
    requires !HasRecord(l.records, ParsePayload(qr).employeeId, today)
    ensures
      var s1 := Scan(l, qr, "IN", today, t1);
      var s2 := Scan(s1.ledger, qr, "OUT", today, t2);
      && s1.reply == Ok(ClockInOk)
      && s2.reply == Ok(ClockOutOk)
      && Scan(s2.ledger, qr, "OUT", today, t3) == ScanResult(s2.ledger, Error(AlreadyOut))
      && Scan(s2.ledger, qr, "IN", today, t4) == ScanResult(s2.ledger, Error(AlreadyIn))
  {
    var p := ParsePayload(qr);
    var s1 := Scan(l, qr, "IN", today, t1);
    var s2 := Scan(s1.ledger, qr, "OUT", today, t2);
    assert StateOf(l.records, p.employeeId, today) == Absent;
    ScanFollowsStep(l, qr, "IN", today, t1);
    ScanFollowsStep(s1.ledger, qr, "OUT", today, t2);
    ScanFollowsStep(s2.ledger, qr, "OUT", today, t3);
    ScanFollowsStep(s2.ledger, qr, "IN", today, t4);
  }
}
