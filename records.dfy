/**
 * filter_records_by_week of app/utils/date_utils.py: the stored rows whose
 * "Fecha" falls in a Monday-to-Sunday window.
 */
module Records {
  import opened Wrappers
  import opened Calendar
  import opened DateUtils

  /** A stored row: column name to cell text. */
  type Record = map<string, string>

  const FechaKey: string := "Fecha"

  /** record['Fecha'] read with strptime; None where Python raises KeyError or ValueError. */
  function RecordDate(record: Record): (r: Option<Date>)
    ensures r.Some? ==> FechaKey in record && ParseIsoDate(record[FechaKey]) == r
  {
    if FechaKey in record then ParseIsoDate(record[FechaKey]) else None
  }

  /** The record has a readable date and start_date <= record_date <= end_date. */
  predicate InWeek(record: Record, startDate: Date, endDate: Date) {
    var d := RecordDate(record);
    d.Some? && AtMost(startDate, d.value) && AtMost(d.value, endDate)
  }

  /** The records of the window, in their original order. */
  function Kept(records: seq<Record>, startDate: Date, endDate: Date): seq<Record>
    decreases |records|
  {
    if |records| == 0 then []
    else
      var last := records[|records| - 1];
      Kept(records[..|records| - 1], startDate, endDate) + (if InWeek(last, startDate, endDate) then [last] else [])
  }

  /** filter_records_by_week(records, start_date, end_date). */
  method FilterRecordsByWeek(records: seq<Record>, startDate: Date, endDate: Date) returns (filtered: seq<Record>)
    ensures filtered == Kept(records, startDate, endDate)
  {
    filtered := [];
    for i := 0 to |records|
      invariant filtered == Kept(records[..i], startDate, endDate)
    {
      assert records[..i + 1][..i] == records[..i];
      var record := records[i];
      var recordDate := RecordDate(record);
      if recordDate.None? {
        continue;
      }
      if AtMost(startDate, recordDate.value) && AtMost(recordDate.value, endDate) {
        filtered := filtered + [record];
      }
    }
    assert records[..|records|] == records;
  }

  /** Filtering a concatenation filters each part. */
  lemma {:induction false} KeptAppend(a: seq<Record>, b: seq<Record>, startDate: Date, endDate: Date)
    ensures Kept(a + b, startDate, endDate) == Kept(a, startDate, endDate) + Kept(b, startDate, endDate)
    decreases |b|
  {
    if |b| == 0 {
      assert a + b == a;
    } else {
      var last := b[|b| - 1];
      assert (a + b)[..|a + b| - 1] == a + b[..|b| - 1];
      KeptAppend(a, b[..|b| - 1], startDate, endDate);
    }
  }

  /** A record is kept exactly when it is among the records and its date falls in the window. */
  lemma {:induction false} KeptMembership(records: seq<Record>, startDate: Date, endDate: Date, r: Record)
    ensures r in Kept(records, startDate, endDate) <==> r in records && InWeek(r, startDate, endDate)
    decreases |records|
  {
    if |records| > 0 {
      var init := records[..|records| - 1];
      KeptMembership(init, startDate, endDate, r);
      assert records == init + [records[|records| - 1]];
    }
  }

  /** Nothing is added: the result is never longer than the input, and equal to it only when every record is kept. */
  lemma {:induction false} KeptLength(records: seq<Record>, startDate: Date, endDate: Date)
    ensures |Kept(records, startDate, endDate)| <= |records|
    ensures |Kept(records, startDate, endDate)| == |records| <==> forall r :: r in records ==> InWeek(r, startDate, endDate)
    decreases |records|
  {
    if |records| > 0 {
      var init := records[..|records| - 1];
      KeptLength(init, startDate, endDate);
      assert records == init + [records[|records| - 1]];
    }
  }

  /** Filtering twice by the same window changes nothing. */
  lemma {:induction false} KeptIdempotent(records: seq<Record>, startDate: Date, endDate: Date)
    ensures Kept(Kept(records, startDate, endDate), startDate, endDate) == Kept(records, startDate, endDate)
    decreases |records|
  {
    if |records| > 0 {
      var init := records[..|records| - 1];
      var last := records[|records| - 1];
      KeptIdempotent(init, startDate, endDate);
      var tail := if InWeek(last, startDate, endDate) then [last] else [];
      KeptAppend(Kept(init, startDate, endDate), tail, startDate, endDate);
      if InWeek(last, startDate, endDate) {
        assert Kept(tail, startDate, endDate) == Kept([], startDate, endDate) + [last];
      }
    }
  }

  /** With the window of some date, a record is kept exactly when its own date has that same window. */
  lemma InWeekIsSameWeek(record: Record, date: Date)
    requires Valid(date) && GetWeekRange(date).Success?
    ensures var (startDate, endDate) := GetWeekRange(date).value;
      InWeek(record, startDate, endDate) <==> RecordDate(record).Some? && GetWeekRange(RecordDate(record).value) == GetWeekRange(date)
  {
    var (startDate, endDate) := GetWeekRange(date).value;
    var d := RecordDate(record);
    if InWeek(record, startDate, endDate) {
      WeekRangeIdempotent(date, d.value);
    }
  }

  /** A row saved with str(fecha) under "Fecha" is read back with that very date. */
  lemma SavedRecordFound(record: Record, fecha: Date, startDate: Date, endDate: Date)
    requires Valid(fecha) && FechaKey in record && record[FechaKey] == IsoFormat(fecha)
    ensures RecordDate(record) == Some(fecha)
    ensures InWeek(record, startDate, endDate) <==> AtMost(startDate, fecha) && AtMost(fecha, endDate)
  {
    ParseIsoFormat(fecha);
  }
}
