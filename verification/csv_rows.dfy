/** The rows the script writes to prices.csv (app/robo_advisor.py:70-85): a
    fixed header, then one row per day in series order holding the day's raw
    field strings. `WriteRows` is the pure stand-in for the `write_to_csv`
    that test/advisor_test.py imports; in the script the logic is inline. */
module CsvRows {
  import opened Base
  import opened Series

  const Header: seq<string> := ["timestamp", "open", "high", "low", "close", "volume"]

  /** The field keys read for the columns after "timestamp", in the order the
      row dictionary is built. */
  const Columns: seq<string> := [OpenKey, HighKey, LowKey, CloseKey, VolumeKey]

  /** Every column key is present. */
  predicate HasAllColumns(e: Entry) {
    OpenKey in e.fields && HighKey in e.fields && LowKey in e.fields
    && CloseKey in e.fields && VolumeKey in e.fields
  }

  /** Column key `k` is the first one the entry lacks. */
  predicate FirstMissingColumn(e: Entry, k: nat)
    requires k < |Columns|
  {
    Columns[k] !in e.fields && forall j :: 0 <= j < k ==> Columns[j] in e.fields
  }

  /** The row of a day: its date, then its column fields. */
  function RowOf(e: Entry): (row: seq<string>)
    requires HasAllColumns(e)
    ensures |row| == |Header| && row[0] == e.date
    ensures forall k :: 0 <= k < |Columns| ==> row[k + 1] == e.fields[Columns[k]]
  {
    [e.date, e.fields[OpenKey], e.fields[HighKey], e.fields[LowKey],
     e.fields[CloseKey], e.fields[VolumeKey]]
  }

  /** The row dictionary of app/robo_advisor.py:78-85 as the list of its
      values in header order; the first missing key raises KeyError. */
  function RowFor(e: Entry): (r: Result<seq<string>>)
    ensures r.Ok? <==> HasAllColumns(e)
    ensures r.Ok? ==> r.value == RowOf(e)
  {
    var open :- Field(e, OpenKey);
    var high :- Field(e, HighKey);
    var low :- Field(e, LowKey);
    var close :- Field(e, CloseKey);
    var volume :- Field(e, VolumeKey);
    Ok([e.date, open, high, low, close, volume])
  }

  /** A row that cannot be built fails with the KeyError of the first
      column, in header order, whose key the day lacks. */
  lemma RowForFailure(e: Entry)
    requires !HasAllColumns(e)
    ensures exists k :: 0 <= k < |Columns| && FirstMissingColumn(e, k)
                        && RowFor(e) == Err(MissingKey(Columns[k]))
  {
    if OpenKey !in e.fields {
      assert FirstMissingColumn(e, 0);
    } else if HighKey !in e.fields {
      assert FirstMissingColumn(e, 1);
    } else if LowKey !in e.fields {
      assert FirstMissingColumn(e, 2);
    } else if CloseKey !in e.fields {
      assert FirstMissingColumn(e, 3);
    } else {
      assert FirstMissingColumn(e, 4);
    }
  }

  /** What is in the file when the `with` block is left: the rows written,
      and the exception that left it early, if one did. */
  datatype CsvWrite = CsvWrite(rows: seq<seq<string>>, failure: Option<Failure>)

  /** The data rows of the loop at app/robo_advisor.py:76-85, stopping at the
      first entry whose row cannot be built. */
  function WriteBody(series: seq<Entry>): CsvWrite
    decreases |series|
  {
    if |series| == 0 then CsvWrite([], None)
    else
      match RowFor(series[0])
      case Err(f) => CsvWrite([], Some(f))
      case Ok(row) =>
        var rest := WriteBody(series[1..]);
        CsvWrite([row] + rest.rows, rest.failure)
  }

  /** `writeheader()` and then the loop. */
  function WriteRows(series: seq<Entry>): (w: CsvWrite)
    ensures |w.rows| >= 1 && w.rows[0] == Header
  {
    var body := WriteBody(series);
    CsvWrite([Header] + body.rows, body.failure)
  }

  /** A write with no exception has one row per day after the header, each
      the day's date and raw fields, in series order. */
  lemma {:induction false} WriteBodyComplete(series: seq<Entry>)
    ensures WriteBody(series).failure.None? <==> forall i :: 0 <= i < |series| ==> HasAllColumns(series[i])
    ensures WriteBody(series).failure.None? ==>
      && |WriteBody(series).rows| == |series|
      && forall i :: 0 <= i < |series| ==> HasAllColumns(series[i]) && WriteBody(series).rows[i] == RowOf(series[i])
    decreases |series|
  {
    if |series| > 0 {
      var rest := series[1..];
      WriteBodyComplete(rest);
      if RowFor(series[0]).Ok? {
        forall i | 1 <= i < |series|
          ensures series[i] == rest[i - 1]
        {
        }
      }
    }
  }

  /** One step of the loop over a day whose row can be built: that row goes
      in front of the rows of the rest. */
  lemma WriteBodyCons(series: seq<Entry>)
    requires |series| > 0 && HasAllColumns(series[0])
    ensures WriteBody(series).rows == [RowOf(series[0])] + WriteBody(series[1..]).rows
    ensures WriteBody(series).failure == WriteBody(series[1..]).failure
  {
  }

  /** The loop wrote the rows of the days before day `i`, all of which have
      every column, and stopped on day `i` with its exception. */
  predicate StopsAt(series: seq<Entry>, i: nat, w: CsvWrite)
    requires i < |series|
  {
    && !HasAllColumns(series[i])
    && |w.rows| == i
    && (forall j :: 0 <= j < i ==> HasAllColumns(series[j]) && w.rows[j] == RowOf(series[j]))
    && w.failure == Some(RowFor(series[i]).failure)
  }

  /** A write stopped by an exception holds the rows of the days before the
      first day lacking a column, and the KeyError of that day's first
      missing key. */
  lemma {:induction false} WriteBodyPartial(series: seq<Entry>)
    requires WriteBody(series).failure.Some?
    ensures exists i :: 0 <= i < |series| && StopsAt(series, i, WriteBody(series))
    decreases |series|
  {
    var rest := series[1..];
    if RowFor(series[0]).Ok? {
      WriteBodyCons(series);
      WriteBodyPartial(rest);
      var i :| 0 <= i < |rest| && StopsAt(rest, i, WriteBody(rest));
      var rows, restRows := WriteBody(series).rows, WriteBody(rest).rows;
      forall j | 0 <= j < i + 1
        ensures HasAllColumns(series[j]) && rows[j] == RowOf(series[j])
      {
        if j > 0 {
          assert series[j] == rest[j - 1] && rows[j] == restRows[j - 1];
        }
      }
      assert series[i + 1] == rest[i];
      assert StopsAt(series, i + 1, WriteBody(series));
    } else {
      assert StopsAt(series, 0, WriteBody(series));
    }
  }

  /** The whole file when no exception stops it: header first, then every
      day's row in order, and only when every day has every column. */
  lemma WriteRowsSpec(series: seq<Entry>)
    ensures var w := WriteRows(series);
      && (w.failure.None? <==> forall i :: 0 <= i < |series| ==> HasAllColumns(series[i]))
      && (w.failure.None? ==>
            && |w.rows| == |series| + 1
            && forall i :: 0 <= i < |series| ==> HasAllColumns(series[i]) && w.rows[i + 1] == RowOf(series[i]))
  {
    WriteBodyComplete(series);
  }

  /** The whole file when an exception stops it: header first, then the rows
      of the days before the first day lacking a column, then nothing; the
      exception is that day's KeyError for its first missing column. */
  lemma WriteRowsStops(series: seq<Entry>)
    requires WriteRows(series).failure.Some?
    ensures var w := WriteRows(series);
      exists i ::
        && 0 <= i < |series| && !HasAllColumns(series[i])
        && |w.rows| == i + 1
        && (forall j :: 0 <= j < i ==> HasAllColumns(series[j]) && w.rows[j + 1] == RowOf(series[j]))
        && exists k :: 0 <= k < |Columns| && FirstMissingColumn(series[i], k)
                       && w.failure == Some(MissingKey(Columns[k]))
  {
    WriteBodyPartial(series);
    var body := WriteBody(series);
    var i :| 0 <= i < |series| && StopsAt(series, i, body);
    RowForFailure(series[i]);
    var w := WriteRows(series);
    assert forall j :: 0 <= j < i ==> w.rows[j + 1] == body.rows[j];
  }

  /** A day that has exactly the five column keys and nothing else. */
  predicate ExactColumns(e: Entry) {
    e.fields.Keys == {OpenKey, HighKey, LowKey, CloseKey, VolumeKey}
  }

  /** Reads a day back from a row of six cells. */
  function EntryOfRow(row: seq<string>): (e: Entry)
    requires |row| == |Header|
    ensures ExactColumns(e)
  {
    Entry(row[0], map[OpenKey := row[1], HighKey := row[2], LowKey := row[3],
                      CloseKey := row[4], VolumeKey := row[5]])
  }

  /** Reads the days back from the rows after the header, if every row has
      six cells. */
  function ReadBody(rows: seq<seq<string>>): Option<seq<Entry>>
    decreases |rows|
  {
    if |rows| == 0 then Some([])
    else if |rows[0]| != |Header| then None
    else
      match ReadBody(rows[1..])
      case None => None
      case Some(rest) => Some([EntryOfRow(rows[0])] + rest)
  }

  /** Reads back a whole file: the header, then the days. */
  function ReadRows(rows: seq<seq<string>>): Option<seq<Entry>> {
    if |rows| == 0 || rows[0] != Header then None else ReadBody(rows[1..])
  }

  lemma EntryOfRowOf(e: Entry)
    requires ExactColumns(e)
    ensures HasAllColumns(e) && EntryOfRow(RowOf(e)) == e
  {
    var m := EntryOfRow(RowOf(e)).fields;
    assert m.Keys == e.fields.Keys;
    assert forall k :: k in m ==> m[k] == e.fields[k];
  }

  lemma {:induction false} ReadBodyWriteBody(series: seq<Entry>)
    requires forall i :: 0 <= i < |series| ==> ExactColumns(series[i])
    ensures ReadBody(WriteBody(series).rows) == Some(series)
    decreases |series|
  {
    if |series| > 0 {
      var rest := series[1..];
      EntryOfRowOf(series[0]);
      assert forall i :: 0 <= i < |rest| ==> rest[i] == series[i + 1];
      ReadBodyWriteBody(rest);
      var rows := WriteBody(series).rows;
      assert rows == [RowOf(series[0])] + WriteBody(rest).rows;
      assert rows[1..] == WriteBody(rest).rows;
      assert [series[0]] + rest == series;
    }
  }

  /** Writing a series whose days carry exactly the five column fields and
      reading the file back gives the series again: the file loses nothing
      and reorders nothing. */
  lemma ReadRowsWriteRows(series: seq<Entry>)
    requires forall i :: 0 <= i < |series| ==> ExactColumns(series[i])
    ensures ReadRows(WriteRows(series).rows) == Some(series)
  {
    ReadBodyWriteBody(series);
    assert WriteRows(series).rows[1..] == WriteBody(series).rows;
  }
}
