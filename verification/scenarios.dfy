/**
 * Worked examples of the ledger on concrete inputs, stated against a fresh
 * table.
 */
module Scenarios {
  import opened Strings
  import opened Attendance
  import opened Report

  /** 2024-01-01T09:00:00Z and 2024-01-01T17:00:00Z in milliseconds since the epoch. */
  const NineAm: int := 1704099600000
  const FivePm: int := 1704128400000

  /** QR text that reads as employee E1, Alice; `"E1|Alice"` is one, by `ParseAlice`. */
  predicate IsAlice(qr: string)
  {
    ParsePayload(qr) == Payload("E1", Some("Alice"))
  }

  lemma ParseAlice()
    ensures IsAlice("E1|Alice")
  {
    var parts := ["E1", "Alice"];
    assert Join(parts, Bar) == "E1" + [Bar] + "Alice" == "E1|Alice";
    SplitJoin(parts, Bar);
  }

  const NewYear: string := "2024-01-01"
  const AliceIn: Record := Record(1, "E1", Some("Alice"), NewYear, Some(NineAm), None)
  const AliceDone: Record := AliceIn.(clockOut := Some(FivePm))

  lemma ClockInAtNine(qr: string)
    requires IsAlice(qr)
    ensures Scan(Empty, qr, "IN", NewYear, NineAm) == ScanResult(Ledger([AliceIn], 2), Ok(ClockInOk))
  {
    assert !HasRecord(Empty.records, "E1", NewYear);
    assert [] + [AliceIn] == [AliceIn];
  }

  lemma ClockInAgain(qr: string, now: int)
    requires IsAlice(qr)
    ensures Scan(Ledger([AliceIn], 2), qr, "IN", NewYear, now) == ScanResult(Ledger([AliceIn], 2), Error(AlreadyIn))
  {
    assert Matches([AliceIn][0], "E1", NewYear);
    assert HasRecord([AliceIn], "E1", NewYear);
  }

  lemma ClockOutAtFive(qr: string)
    requires IsAlice(qr)
    ensures Scan(Ledger([AliceIn], 2), qr, "OUT", NewYear, FivePm) == ScanResult(Ledger([AliceDone], 2), Ok(ClockOutOk))
  {
    var r := Scan(Ledger([AliceIn], 2), qr, "OUT", NewYear, FivePm);
    assert IsFirstMatch([AliceIn], "E1", NewYear, 0);
    assert r.ledger.records[0] == AliceDone;
    assert r.ledger.records == [AliceDone];
  }

  /**
   * Alice clocks in at nine, a repeated clock-in a minute later is refused,
   * she clocks out at five: one row with both timestamps, eight hours apart.
   */
  lemma AliceWorksEightHours(qr: string)
    requires IsAlice(qr)
    ensures
      var s1 := Scan(Empty, qr, "IN", NewYear, NineAm);
      var s2 := Scan(s1.ledger, qr, "IN", NewYear, NineAm + 60000);
      var s3 := Scan(s2.ledger, qr, "OUT", NewYear, FivePm);
      && s1.reply == Ok(ClockInOk)
      && s2.reply == Error(AlreadyIn)
      && s3.reply == Ok(ClockOutOk)
      && s3.ledger.records == [Record(1, "E1", Some("Alice"), NewYear, Some(NineAm), Some(FivePm))]
      && Duration(s3.ledger.records[0]) == 8 * 3600000
  {
    ClockInAtNine(qr);
    ClockInAgain(qr, NineAm + 60000);
    ClockOutAtFive(qr);
  }

  /** Undo on a fresh table does nothing and raises no error. */
  lemma UndoOnEmpty()
    ensures Undo(Empty) == Empty
  {
  }
}
