/** The daily time series of the parsed response and the three facts the
    script draws from it: the latest day with its close, the highest high and
    the lowest low (app/robo_advisor.py:44-60). */
module Series {
  import opened Base
  import opened Decimal

  const OpenKey := "1. open"
  const HighKey := "2. high"
  const LowKey := "3. low"
  const CloseKey := "4. close"
  const VolumeKey := "5. volume"

  /** One day of "Time Series (Daily)": its date key and the field strings
      stored under it. The series is the dictionary's items in the order the
      response lists them, newest first as the service sends them. */
  datatype Entry = Entry(date: string, fields: map<string, string>)

  /** `daily_prices[key]`: the field, or the KeyError naming the key. */
  function Field(e: Entry, key: string): Result<string> {
    if key in e.fields then Ok(e.fields[key]) else Err(MissingKey(key))
  }

  /** `float(text)` on a price string. */
  function Price(text: string): Result<real> {
    var f :- ParseDecimal(text);
    Ok(f.Value())
  }

  /** The entry has the field `key` and it reads as a number. */
  predicate HasPrice(e: Entry, key: string) {
    key in e.fields && ParseDecimal(e.fields[key]).Ok?
  }

  /** The number stored under `key`. */
  function PriceOf(e: Entry, key: string): real
    requires HasPrice(e, key)
  {
    ParseDecimal(e.fields[key]).value.Value()
  }

  /** An entry the high/low loop gets through. */
  predicate WellPriced(e: Entry) {
    HasPrice(e, HighKey) && HasPrice(e, LowKey)
  }

  /** One pass of the loop body at app/robo_advisor.py:54-57: look up the
      high, then the low, then convert the high, then the low; the first of
      these four steps to fail is the exception raised. */
  function EntryPrices(e: Entry): (r: Result<(real, real)>)
    ensures r.Ok? <==> WellPriced(e)
    ensures r.Ok? ==> r.value == (PriceOf(e, HighKey), PriceOf(e, LowKey))
  {
    var high :- Field(e, HighKey);
    var low :- Field(e, LowKey);
    var h :- Price(high);
    var l :- Price(low);
    Ok((h, l))
  }

  /** A badly priced entry raises, in this order of precedence: the KeyError
      for a missing high, the KeyError for a missing low, the ValueError for
      the high, the ValueError for the low. */
  lemma EntryPricesFailure(e: Entry)
    ensures HighKey !in e.fields ==> EntryPrices(e) == Err(MissingKey(HighKey))
    ensures HighKey in e.fields && LowKey !in e.fields ==> EntryPrices(e) == Err(MissingKey(LowKey))
    ensures HighKey in e.fields && LowKey in e.fields && !HasPrice(e, HighKey)
            ==> EntryPrices(e) == Err(NotANumber(e.fields[HighKey]))
    ensures HasPrice(e, HighKey) && LowKey in e.fields && !HasPrice(e, LowKey)
            ==> EntryPrices(e) == Err(NotANumber(e.fields[LowKey]))
  {
  }

  /** The loop at app/robo_advisor.py:53-57: the high prices and the low
      prices in series order, or the exception of the first entry that
      stops it. */
  function HighsAndLows(series: seq<Entry>): Result<(seq<real>, seq<real>)>
    decreases |series|
  {
    if |series| == 0 then Ok(([], []))
    else
      var day := EntryPrices(series[0]);
      if day.Err? then Err(day.failure)
      else
        var rest := HighsAndLows(series[1..]);
        if rest.Err? then Err(rest.failure)
        else Ok(([day.value.0] + rest.value.0, [day.value.1] + rest.value.1))
  }

  /** The loop succeeds exactly when every entry is well priced. */
  lemma {:induction false} HighsAndLowsSucceeds(series: seq<Entry>)
    ensures HighsAndLows(series).Ok? <==> forall i :: 0 <= i < |series| ==> WellPriced(series[i])
    decreases |series|
  {
    if |series| > 0 {
      var rest := series[1..];
      HighsAndLowsSucceeds(rest);
      if HighsAndLows(series).Ok? {
        forall i | 0 <= i < |series|
          ensures WellPriced(series[i])
        {
          if i > 0 {
            assert series[i] == rest[i - 1];
          }
        }
      } else if EntryPrices(series[0]).Ok? {
        var i :| 0 <= i < |rest| && !WellPriced(rest[i]);
        assert series[i + 1] == rest[i];
      }
    }
  }

  /** One step of a successful loop: the first day's prices go in front of
      the lists of the rest. */
  lemma HighsAndLowsCons(series: seq<Entry>)
    requires |series| > 0 && HighsAndLows(series).Ok?
    ensures EntryPrices(series[0]).Ok? && HighsAndLows(series[1..]).Ok?
    ensures HighsAndLows(series).value.0 == [EntryPrices(series[0]).value.0] + HighsAndLows(series[1..]).value.0
    ensures HighsAndLows(series).value.1 == [EntryPrices(series[0]).value.1] + HighsAndLows(series[1..]).value.1
  {
  }

  /** A successful loop lists every entry's high at that entry's position. */
  lemma {:induction false} HighsListed(series: seq<Entry>)
    requires HighsAndLows(series).Ok?
    ensures var highs := HighsAndLows(series).value.0;
      && |highs| == |series|
      && forall i :: 0 <= i < |series| ==> EntryPrices(series[i]).Ok? && highs[i] == EntryPrices(series[i]).value.0
    decreases |series|
  {
    if |series| > 0 {
      var rest := series[1..];
      HighsAndLowsCons(series);
      HighsListed(rest);
      var highs, restHighs := HighsAndLows(series).value.0, HighsAndLows(rest).value.0;
      forall i | 0 <= i < |series|
        ensures EntryPrices(series[i]).Ok? && highs[i] == EntryPrices(series[i]).value.0
      {
        if i > 0 {
          assert series[i] == rest[i - 1] && highs[i] == restHighs[i - 1];
        }
      }
    }
  }

  /** A successful loop lists every entry's low at that entry's position. */
  lemma {:induction false} LowsListed(series: seq<Entry>)
    requires HighsAndLows(series).Ok?
    ensures var lows := HighsAndLows(series).value.1;
      && |lows| == |series|
      && forall i :: 0 <= i < |series| ==> EntryPrices(series[i]).Ok? && lows[i] == EntryPrices(series[i]).value.1
    decreases |series|
  {
    if |series| > 0 {
      var rest := series[1..];
      HighsAndLowsCons(series);
      LowsListed(rest);
      var lows, restLows := HighsAndLows(series).value.1, HighsAndLows(rest).value.1;
      forall i | 0 <= i < |series|
        ensures EntryPrices(series[i]).Ok? && lows[i] == EntryPrices(series[i]).value.1
      {
        if i > 0 {
          assert series[i] == rest[i - 1] && lows[i] == restLows[i - 1];
        }
      }
    }
  }

  /** When the loop stops, it stops at the first entry that is not well
      priced and raises that entry's exception. */
  lemma {:induction false} HighsAndLowsFailure(series: seq<Entry>)
    requires HighsAndLows(series).Err?
    ensures exists i :: 0 <= i < |series| && FirstBadEntry(series, i)
                        && HighsAndLows(series).failure == EntryPrices(series[i]).failure
    decreases |series|
  {
    if EntryPrices(series[0]).Err? {
      assert FirstBadEntry(series, 0);
    } else {
      HighsAndLowsFailure(series[1..]);
      var i :| 0 <= i < |series[1..]| && FirstBadEntry(series[1..], i)
               && HighsAndLows(series[1..]).failure == EntryPrices(series[1..][i]).failure;
      assert forall j :: 1 <= j <= i ==> series[j] == series[1..][j - 1];
      assert FirstBadEntry(series, i + 1);
    }
  }

  /** Entry `i` is the first one that is not well priced. */
  predicate FirstBadEntry(series: seq<Entry>, i: nat)
    requires i < |series|
  {
    !WellPriced(series[i]) && forall j :: 0 <= j < i ==> WellPriced(series[j])
  }

  /** Python's `max` of a non-empty list. */
  function Max(s: seq<real>): real
    requires |s| >= 1
    decreases |s|
  {
    if |s| == 1 then s[0]
    else
      var m := Max(s[1..]);
      if s[0] >= m then s[0] else m
  }

  /** Python's `min` of a non-empty list. */
  function Min(s: seq<real>): real
    requires |s| >= 1
    decreases |s|
  {
    if |s| == 1 then s[0]
    else
      var m := Min(s[1..]);
      if s[0] <= m then s[0] else m
  }

  /** The maximum is one of the elements and no element exceeds it. */
  lemma {:induction false} MaxIsAttainedBound(s: seq<real>)
    requires |s| >= 1
    ensures exists i :: 0 <= i < |s| && s[i] == Max(s)
    ensures forall i :: 0 <= i < |s| ==> s[i] <= Max(s)
    decreases |s|
  {
    if |s| == 1 {
      assert s[0] == Max(s);
    } else {
      MaxIsAttainedBound(s[1..]);
      assert forall i :: 1 <= i < |s| ==> s[i] == s[1..][i - 1];
      if s[0] < Max(s[1..]) {
        var i :| 0 <= i < |s[1..]| && s[1..][i] == Max(s[1..]);
        assert s[i + 1] == Max(s);
      } else {
        assert s[0] == Max(s);
      }
    }
  }

  /** The minimum is one of the elements and no element is below it. */
  lemma {:induction false} MinIsAttainedBound(s: seq<real>)
    requires |s| >= 1
    ensures exists i :: 0 <= i < |s| && s[i] == Min(s)
    ensures forall i :: 0 <= i < |s| ==> Min(s) <= s[i]
    decreases |s|
  {
    if |s| == 1 {
      assert s[0] == Min(s);
    } else {
      MinIsAttainedBound(s[1..]);
      assert forall i :: 1 <= i < |s| ==> s[i] == s[1..][i - 1];
      if s[0] > Min(s[1..]) {
        var i :| 0 <= i < |s[1..]| && s[1..][i] == Min(s[1..]);
        assert s[i + 1] == Min(s);
      } else {
        assert s[0] == Min(s);
      }
    }
  }

  /** What the script keeps of the series: `latest_day`, the raw
      `latest_close` string, `recent_high` and `recent_low`. */
  datatype Stats = Stats(latestDay: string, latestClose: string, recentHigh: real, recentLow: real)

  /** app/robo_advisor.py:44-60 in order: `dates[0]` (IndexError on an empty
      series), the first entry's close, then the high/low loop, then `max`
      and `min`. */
  function SeriesStats(series: seq<Entry>): (r: Result<Stats>)
    ensures |series| == 0 ==> r == Err(EmptySeries)
    ensures |series| > 0 && CloseKey !in series[0].fields ==> r == Err(MissingKey(CloseKey))
    ensures r.Ok? ==> |series| > 0 && r.value.latestDay == series[0].date
                      && CloseKey in series[0].fields
                      && r.value.latestClose == series[0].fields[CloseKey]
  {
    if |series| == 0 then Err(EmptySeries)
    else
      var close :- Field(series[0], CloseKey);
      var loop :- HighsAndLows(series);
      HighsListed(series);
      LowsListed(series);
      Ok(Stats(series[0].date, close, Max(loop.0), Min(loop.1)))
  }

  /** The statistics are available exactly for a non-empty series whose
      first entry has a close and whose every entry is well priced. */
  lemma SeriesStatsSucceeds(series: seq<Entry>)
    ensures SeriesStats(series).Ok? <==>
      && |series| > 0
      && CloseKey in series[0].fields
      && forall i :: 0 <= i < |series| ==> WellPriced(series[i])
  {
    HighsAndLowsSucceeds(series);
  }

  /** A successful run of the statistics went through a successful loop and
      took the extremes of its lists. */
  lemma StatsOfLoop(series: seq<Entry>)
    requires SeriesStats(series).Ok?
    ensures HighsAndLows(series).Ok?
    ensures var loop := HighsAndLows(series).value;
      && |loop.0| == |series| >= 1 && |loop.1| == |series|
      && SeriesStats(series).value.recentHigh == Max(loop.0)
      && SeriesStats(series).value.recentLow == Min(loop.1)
  {
    HighsListed(series);
    LowsListed(series);
  }

  /** `recent_high` is the high of some entry and no entry's high is above
      it. */
  lemma RecentHighIsMax(series: seq<Entry>)
    requires SeriesStats(series).Ok?
    ensures var high := SeriesStats(series).value.recentHigh;
      && (forall i :: 0 <= i < |series| ==> HasPrice(series[i], HighKey) && PriceOf(series[i], HighKey) <= high)
      && (exists i :: 0 <= i < |series| && HasPrice(series[i], HighKey) && PriceOf(series[i], HighKey) == high)
  {
    StatsOfLoop(series);
    HighsListed(series);
    var highs := HighsAndLows(series).value.0;
    MaxIsAttainedBound(highs);
    var h :| 0 <= h < |highs| && highs[h] == Max(highs);
    assert PriceOf(series[h], HighKey) == highs[h];
  }

  /** `recent_low` is the low of some entry and no entry's low is below it. */
  lemma RecentLowIsMin(series: seq<Entry>)
    requires SeriesStats(series).Ok?
    ensures var low := SeriesStats(series).value.recentLow;
      && (forall i :: 0 <= i < |series| ==> HasPrice(series[i], LowKey) && low <= PriceOf(series[i], LowKey))
      && (exists i :: 0 <= i < |series| && HasPrice(series[i], LowKey) && PriceOf(series[i], LowKey) == low)
  {
    StatsOfLoop(series);
    LowsListed(series);
    var lows := HighsAndLows(series).value.1;
    MinIsAttainedBound(lows);
    var l :| 0 <= l < |lows| && lows[l] == Min(lows);
    assert PriceOf(series[l], LowKey) == lows[l];
  }

  /** With a close on the first entry, a failing loop passes the exception
      of the first badly priced entry through unchanged. */
  lemma SeriesStatsFailure(series: seq<Entry>)
    requires |series| > 0 && CloseKey in series[0].fields
    requires SeriesStats(series).Err?
    ensures exists i :: 0 <= i < |series| && FirstBadEntry(series, i)
                        && SeriesStats(series).failure == EntryPrices(series[i]).failure
  {
    HighsAndLowsFailure(series);
  }
}
