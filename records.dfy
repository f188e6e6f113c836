/**
 * The ledger records of main.go and GrepRecordsByDate, the linear scan that
 * keeps the records falling on the calendar day of a query date.
 */
module Records {
  import opened CivilTime
  import opened Utility

  /** A ledger entry: when it happened, its amount and its kind, both kept as text. */
  datatype Record = Record(time: Time, amount: string, kind: string)

  /** The record's time has the same year, month and day as `date`. */
  predicate OnDay(r: Record, date: Time) {
    r.time.year == date.year && r.time.month == date.month && r.time.day == date.day
  }

  /** The records of `s` that fall on date's day, in their original order. */
  function RecordsOn(s: seq<Record>, date: Time): seq<Record> {
    if s == [] then []
    else RecordsOn(s[..|s| - 1], date) + (if OnDay(s[|s| - 1], date) then [s[|s| - 1]] else [])
  }

  /** The records of `s` whose time lies in [start, end): the range query of a storage back end. */
  function RecordsIn(s: seq<Record>, start: Time, end: Time): seq<Record> {
    if s == [] then []
    else RecordsIn(s[..|s| - 1], start, end) +
         (if InWindow(s[|s| - 1].time, start, end) then [s[|s| - 1]] else [])
  }

  /**
   * Scans the records once, appending those on date's calendar day. The array
   * is only read: the method may not modify it.
   */
  method GrepRecordsByDate(records: array<Record>, date: Time) returns (result: seq<Record>)
    ensures result == RecordsOn(records[..], date)
  {
    result := [];
    for i := 0 to records.Length
      invariant result == RecordsOn(records[..i], date)
    {
      var r := records[i];
      if r.time.year == date.year && r.time.month == date.month && r.time.day == date.day {
        result := result + [r];
      }
      assert records[..i + 1][..i] == records[..i];
    }
    assert records[..records.Length] == records[..];
  }

  /** `idx` lists strictly increasing positions of `b` at which the elements of `a` stand. */
  predicate Embedding(a: seq<Record>, b: seq<Record>, idx: seq<int>) {
    |idx| == |a| &&
    (forall i :: 0 <= i < |idx| ==> 0 <= idx[i] < |b| && a[i] == b[idx[i]]) &&
    (forall i, j :: 0 <= i < j < |idx| ==> idx[i] < idx[j])
  }

  ghost predicate IsSubsequence(a: seq<Record>, b: seq<Record>) {
    exists idx :: Embedding(a, b, idx)
  }

  /** The positions in `s` of the records that RecordsOn keeps. */
  function KeptPositions(s: seq<Record>, date: Time): (idx: seq<int>)
    ensures Embedding(RecordsOn(s, date), s, idx)
  {
    if s == [] then []
    else
      var p := s[..|s| - 1];
      var prev := KeptPositions(p, date);
      assert forall i :: 0 <= i < |prev| ==> s[prev[i]] == p[prev[i]];
      if OnDay(s[|s| - 1], date) then prev + [|s| - 1] else prev
  }

  /** Order preservation: the result is a subsequence of the input. */
  lemma RecordsOnSubsequence(s: seq<Record>, date: Time)
    ensures IsSubsequence(RecordsOn(s, date), s)
  {
    var idx := KeptPositions(s, date);
    assert Embedding(RecordsOn(s, date), s, idx);
  }

  lemma {:induction false} RecordsOnLength(s: seq<Record>, date: Time)
    ensures |RecordsOn(s, date)| <= |s|
    ensures s == [] ==> RecordsOn(s, date) == []
  {
    if s != [] {
      RecordsOnLength(s[..|s| - 1], date);
    }
  }

  /** Soundness and completeness: a record is kept exactly when it is in the input and on date's day. */
  lemma {:induction false} RecordsOnMembers(s: seq<Record>, date: Time, r: Record)
    ensures r in RecordsOn(s, date) <==> r in s && OnDay(r, date)
  {
    if s != [] {
      var p := s[..|s| - 1];
      RecordsOnMembers(p, date, r);
      assert s == p + [s[|s| - 1]];
    }
  }

  /** Each record on date's day is kept as many times as it occurs; the others not at all. */
  lemma {:induction false} RecordsOnMultiplicity(s: seq<Record>, date: Time, r: Record)
    ensures multiset(RecordsOn(s, date))[r] == if OnDay(r, date) then multiset(s)[r] else 0
  {
    if s != [] {
      var p := s[..|s| - 1];
      RecordsOnMultiplicity(p, date, r);
      assert s == p + [s[|s| - 1]];
    }
  }

  /** Only the calendar day of the query date matters, not its time of day. */
  lemma {:induction false} RecordsOnSameDay(s: seq<Record>, d1: Time, d2: Time)
    requires d1.year == d2.year && d1.month == d2.month && d1.day == d2.day
    ensures RecordsOn(s, d1) == RecordsOn(s, d2)
  {
    if s != [] {
      RecordsOnSameDay(s[..|s| - 1], d1, d2);
    }
  }

  /** Querying with a date or with the midnight that starts its day gives the same records. */
  lemma RecordsOnStartOfDay(s: seq<Record>, date: Time)
    requires date.Valid()
    ensures RecordsOn(s, date) == RecordsOn(s, StartOfThisDay(date))
  {
    ThisDayIs(date);
    RecordsOnSameDay(s, date, StartOfThisDay(date));
  }

  /**
   * The day scan agrees with a half-open range query over
   * [StartOfThisDay(date), StartOfNextDay(date)).
   */
  lemma {:induction false} RecordsOnIsDayWindow(s: seq<Record>, date: Time)
    requires date.Valid()
    requires forall i :: 0 <= i < |s| ==> s[i].time.Valid()
    ensures RecordsOn(s, date) == RecordsIn(s, StartOfThisDay(date), StartOfNextDay(date))
  {
    if s != [] {
      RecordsOnIsDayWindow(s[..|s| - 1], date);
      DayWindow(date, s[|s| - 1].time);
    }
  }
}
