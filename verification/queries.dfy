/**
 * The read side of the ledger: the daily list of `/today`, the counts of
 * `/stats/today`, and the date-range selection `/export` reports on.
 */
module Queries {
  import opened Strings
  import opened Attendance
  import opened History

  function Reverse(rs: seq<Record>): (r: seq<Record>)
    ensures |r| == |rs|
    ensures forall i :: 0 <= i < |rs| ==> r[i] == rs[|rs| - 1 - i]
    ensures forall x :: x in r <==> x in rs
  {
    if |rs| == 0 then [] else Reverse(rs[1..]) + [rs[0]]
  }

  /**
   * `SELECT * FROM attendance WHERE date=? ORDER BY id DESC`: the day's rows,
   * most recently created first.
   */
  function TodayList(l: Ledger, date: string): (r: seq<Record>)
    requires Valid(l)
    ensures forall x :: x in r <==> x in l.records && x.date == date
    ensures forall i, j :: 0 <= i < j < |r| ==> r[i].id > r[j].id
  {
    var keep := (x: Record) => x.date == date;
    SelectAscending(l.records, keep);
    SelectMembers(l.records, keep);
    Reverse(Select(l.records, keep))
  }

  // ---------------------------------------------------------------- counts

  /** How many rows `p` accepts; SQL's `COUNT(column)` counts the non-NULL ones. */
  function Count(rs: seq<Record>, p: Record -> bool): nat
  {
    if |rs| == 0 then 0 else (if p(rs[0]) then 1 else 0) + Count(rs[1..], p)
  }

  lemma {:induction false} CountIsSelected(rs: seq<Record>, p: Record -> bool)
    ensures Count(rs, p) == |Select(rs, p)|
  {
    if |rs| > 0 {
      CountIsSelected(rs[1..], p);
    }
  }

  lemma {:induction false} CountMonotonic(rs: seq<Record>, p: Record -> bool, q: Record -> bool)
    requires forall i :: 0 <= i < |rs| && p(rs[i]) ==> q(rs[i])
    ensures Count(rs, p) <= Count(rs, q)
  {
    if |rs| > 0 {
      assert forall i :: 1 <= i < |rs| ==> rs[1..][i - 1] == rs[i];
      CountMonotonic(rs[1..], p, q);
    }
  }

  datatype Stats = Stats(inCount: nat, outCount: nat)

  /**
   * `SELECT COUNT(clock_in_ts) AS inCount, COUNT(clock_out_ts) AS outCount
   * FROM attendance WHERE date=?`: each count is the number of the date's rows
   * with that timestamp present (`SelectMembers` says which rows). On every
   * reachable table the in-count is the number of the day's rows and never
   * below the out-count.
   */
  function DailyStats(l: Ledger, date: string): (s: Stats)
    ensures s.inCount == |Select(l.records, (x: Record) => x.date == date && x.clockIn.Some?)|
    ensures s.outCount == |Select(l.records, (x: Record) => x.date == date && x.clockOut.Some?)|
    ensures Inv(l) ==> s.inCount == |TodayList(l, date)| && s.outCount <= s.inCount
  {
    var rs := l.records;
    var onDay := (x: Record) => x.date == date;
    var clockedIn := (x: Record) => x.date == date && x.clockIn.Some?;
    var clockedOut := (x: Record) => x.date == date && x.clockOut.Some?;
    CountIsSelected(rs, onDay);
    CountIsSelected(rs, clockedIn);
    CountIsSelected(rs, clockedOut);
    if Inv(l) then
      CountMonotonic(rs, onDay, clockedIn);
      CountMonotonic(rs, clockedIn, onDay);
      CountMonotonic(rs, clockedOut, clockedIn);
      Stats(Count(rs, clockedIn), Count(rs, clockedOut))
    else
      Stats(Count(rs, clockedIn), Count(rs, clockedOut))
  }

  // ---------------------------------------------------------------- date range

  /** JavaScript truthiness of a query parameter: present and not the empty string. */
  predicate Truthy(s: Option<string>)
  {
    s.Some? && s.value != ""
  }

  /**
   * `from && to ? SELECT … WHERE date BETWEEN ? AND ? : SELECT * FROM attendance`:
   * both bounds inclusive; a missing or empty bound selects every row.
   */
  function RangeSelect(l: Ledger, from: Option<string>, to: Option<string>): (r: seq<Record>)
    ensures Truthy(from) && Truthy(to) ==>
      forall x :: x in r <==> x in l.records && LexLe(from.value, x.date) && LexLe(x.date, to.value)
    ensures !(Truthy(from) && Truthy(to)) ==> r == l.records
    ensures Ascending(l.records) ==> Ascending(r)
  {
    if Truthy(from) && Truthy(to) then
      var keep := (x: Record) => LexLe(from.value, x.date) && LexLe(x.date, to.value);
      SelectMembers(l.records, keep);
      if Ascending(l.records) then SelectAscending(l.records, keep); Select(l.records, keep)
      else Select(l.records, keep)
    else
      l.records
  }

  /** Bounds given in the wrong order select nothing. */
  lemma ReversedRangeIsEmpty(l: Ledger, from: string, to: string)
    requires from != "" && to != ""
    requires !LexLe(from, to)
    ensures RangeSelect(l, Some(from), Some(to)) == []
  {
    var r := RangeSelect(l, Some(from), Some(to));
    if |r| > 0 {
      assert r[0] in r;
      LexLeTransitive(from, r[0].date, to);
    }
  }

  /** A one-day range selects the same rows as that day's list. */
  lemma OneDayRange(l: Ledger, date: string)
    requires Valid(l) && date != ""
    ensures forall x :: x in RangeSelect(l, Some(date), Some(date)) <==> x in TodayList(l, date)
  {
    forall x | x in RangeSelect(l, Some(date), Some(date))
      ensures x.date == date
    {
      LexLeAntisymmetric(date, x.date);
    }
    LexLeReflexive(date);
  }
}
