/** One run of app/robo_advisor.py from the symbol typed in to the report:
    the symbol check, the error-response guard, the payload lookups, the
    series statistics, the CSV rows, the displayed amounts and the
    recommendation, each step in the order the script takes it and each
    uncaught exception ending the run where it is raised. */
module Advisor {
  import opened Base
  import opened Decimal
  import opened Usd
  import opened Series
  import opened Recommendation
  import opened CsvRows
  import opened Validation

  const MetaDataKey := "Meta Data"
  const LastRefreshedKey := "3. Last Refreshed"
  const TimeSeriesKey := "Time Series (Daily)"

  /** The parts of the parsed JSON response the script reads: the
      "Meta Data" object and the "Time Series (Daily)" object, each absent
      when the response lacks that key. */
  datatype Payload = Payload(metaData: Option<map<string, string>>, timeSeries: Option<seq<Entry>>)

  /** What the script learns from the payload before it writes anything. */
  datatype Facts = Facts(lastRefreshed: string, series: seq<Entry>, stats: Stats)

  /** app/robo_advisor.py:42-60: the last-refreshed date, then the series,
      then its statistics; a missing key raises KeyError. */
  function ReadPayload(payload: Payload): (r: Result<Facts>)
    ensures payload.metaData.None? ==> r == Err(MissingKey(MetaDataKey))
    ensures r.Ok? ==> && payload.metaData.Some? && payload.timeSeries.Some?
                      && LastRefreshedKey in payload.metaData.value
                      && r.value.lastRefreshed == payload.metaData.value[LastRefreshedKey]
                      && r.value.series == payload.timeSeries.value
                      && SeriesStats(r.value.series) == Ok(r.value.stats)
  {
    var meta :- if payload.metaData.Some? then Ok(payload.metaData.value) else Err(MissingKey(MetaDataKey));
    var last :- if LastRefreshedKey in meta then Ok(meta[LastRefreshedKey]) else Err(MissingKey(LastRefreshedKey));
    var series :- if payload.timeSeries.Some? then Ok(payload.timeSeries.value) else Err(MissingKey(TimeSeriesKey));
    var stats :- SeriesStats(series);
    Ok(Facts(last, series, stats))
  }

  /** What the run shows (app/robo_advisor.py:98-110) and the rows it left in
      prices.csv. */
  datatype Report = Report(
    latestDay: string,
    latestCloseUsd: string,
    recentHighUsd: string,
    recentLowUsd: string,
    decision: Decision,
    csv: seq<seq<string>>)

  /** How a run ends. */
  datatype Outcome =
    | SymbolRejected                                           // exit at app/robo_advisor.py:28
    | SymbolNotFound                                           // exit at app/robo_advisor.py:38
    | Crashed(failure: Failure, csv: Option<seq<seq<string>>>) // an uncaught exception, and the rows written before it
    | Completed(report: Report)

  /** The rows the run left in prices.csv, if it got as far as opening it. */
  function CsvLeft(out: Outcome): Option<seq<seq<string>>> {
    match out
    case Completed(report) => Some(report.csv)
    case Crashed(_, csv) => csv
    case _ => None
  }

  /** The whole script. `responseText` is the body of the HTTP response and
      `payload` its parse by `json.loads`; both come from outside. */
  function Run(symbol: string, responseText: string, payload: Payload): (out: Outcome)
    ensures out == SymbolRejected <==> !SymbolAccepted(symbol)
    ensures out == SymbolNotFound <==> SymbolAccepted(symbol) && IsErrorResponse(responseText)
  {
    if !SymbolAccepted(symbol) then SymbolRejected
    else if IsErrorResponse(responseText) then SymbolNotFound
    else
      match ReadPayload(payload)
      case Err(f) => Crashed(f, None)
      case Ok(facts) =>
        var written := WriteRows(facts.series);
        if written.failure.Some? then Crashed(written.failure.value, Some(written.rows))
        else
          match Price(facts.stats.latestClose)
          case Err(f) => Crashed(f, Some(written.rows))
          case Ok(close) =>
            Completed(Report(
              facts.lastRefreshed,
              ToUsd(close),
              ToUsd(facts.stats.recentHigh),
              ToUsd(facts.stats.recentLow),
              Recommend(close, facts.stats.recentLow),
              written.rows))
  }

  /** A response carrying "Error Message" never reaches the parse and never
      touches the CSV file, whatever the payload holds. */
  lemma ErrorResponseWritesNothing(symbol: string, before: string, after: string, payload: Payload)
    requires SymbolAccepted(symbol)
    ensures Run(symbol, before + ErrorMarker + after, payload) == SymbolNotFound
    ensures CsvLeft(Run(symbol, before + ErrorMarker + after, payload)).None?
  {
    MarkerAnywhere(before, after);
  }

  /** A rejected symbol ends the run the same way whatever the service would
      have answered. */
  lemma RejectedSymbolIgnoresResponse(symbol: string, text1: string, p1: Payload, text2: string, p2: Payload)
    requires |symbol| == 0 || |symbol| > 5 || AllDigits(symbol)
    ensures Run(symbol, text1, p1) == Run(symbol, text2, p2) == SymbolRejected
  {
  }

  /** The conditions under which the script runs to the end: an accepted
      symbol, no error marker, the meta data with its date, a non-empty
      series whose first day has a close that reads as a number and whose
      every day is well priced and has every CSV column. */
  predicate Completes(symbol: string, responseText: string, payload: Payload) {
    && SymbolAccepted(symbol)
    && !IsErrorResponse(responseText)
    && payload.metaData.Some? && LastRefreshedKey in payload.metaData.value
    && payload.timeSeries.Some?
    && var series := payload.timeSeries.value;
       && |series| > 0
       && HasPrice(series[0], CloseKey)
       && forall i :: 0 <= i < |series| ==> WellPriced(series[i]) && HasAllColumns(series[i])
  }

  lemma CompletedExactly(symbol: string, responseText: string, payload: Payload)
    ensures Run(symbol, responseText, payload).Completed? <==> Completes(symbol, responseText, payload)
  {
    if SymbolAccepted(symbol) && !IsErrorResponse(responseText)
       && payload.metaData.Some? && LastRefreshedKey in payload.metaData.value && payload.timeSeries.Some? {
      var series := payload.timeSeries.value;
      SeriesStatsSucceeds(series);
      WriteRowsSpec(series);
      if SeriesStats(series).Ok? {
        assert ReadPayload(payload) == Ok(Facts(payload.metaData.value[LastRefreshedKey], series, SeriesStats(series).value));
      }
    }
  }

  /** A completed run reports the last-refreshed date, shows the first
      day's close and the series extremes rounded to cents, decides on that
      close against the lowest low, and leaves the header and one row per
      day in series order in the file. */
  lemma CompletedReport(symbol: string, responseText: string, payload: Payload)
    requires Run(symbol, responseText, payload).Completed?
    ensures Completes(symbol, responseText, payload)
    ensures var report := Run(symbol, responseText, payload).report;
      var series := payload.timeSeries.value;
      var stats := SeriesStats(series).value;
      var close := PriceOf(series[0], CloseKey);
      && report.latestDay == payload.metaData.value[LastRefreshedKey]
      && report.latestCloseUsd == ToUsd(close)
      && report.recentHighUsd == ToUsd(stats.recentHigh)
      && report.recentLowUsd == ToUsd(stats.recentLow)
      && report.decision == Recommend(close, stats.recentLow)
      && |report.csv| == |series| + 1 && report.csv[0] == Header
      && forall i :: 0 <= i < |series| ==> HasAllColumns(series[i]) && report.csv[i + 1] == RowOf(series[i])
  {
    CompletedExactly(symbol, responseText, payload);
    var series := payload.timeSeries.value;
    WriteRowsSpec(series);
  }

  /** The decision of a completed run is BUY exactly when the first day's
      close is at or above the low of some day and below 1.2 times the low of
      every day. */
  lemma CompletedDecision(symbol: string, responseText: string, payload: Payload)
    requires Run(symbol, responseText, payload).Completed?
    ensures var series := payload.timeSeries.value;
      && |series| > 0 && HasPrice(series[0], CloseKey)
      && (forall i :: 0 <= i < |series| ==> WellPriced(series[i]))
      && (Run(symbol, responseText, payload).report.decision == Buy <==>
            var close := PriceOf(series[0], CloseKey);
            && (exists i :: 0 <= i < |series| && HasPrice(series[i], LowKey) && PriceOf(series[i], LowKey) <= close)
            && (forall i :: 0 <= i < |series| ==> HasPrice(series[i], LowKey) && close < Ceiling * PriceOf(series[i], LowKey)))
  {
    CompletedReport(symbol, responseText, payload);
    var series := payload.timeSeries.value;
    RecentLowIsMin(series);
    LowWindow(series, SeriesStats(series).value.recentLow, PriceOf(series[0], CloseKey));
  }

  /** Against the lowest low of a series, "at or above it and below 1.2
      times it" reads day by day as "at or above some day's low and below
      1.2 times every day's low". */
  lemma LowWindow(series: seq<Entry>, low: real, close: real)
    requires forall i :: 0 <= i < |series| ==> WellPriced(series[i]) && low <= PriceOf(series[i], LowKey)
    requires exists i :: 0 <= i < |series| && WellPriced(series[i]) && PriceOf(series[i], LowKey) == low
    ensures Recommend(close, low) == Buy <==>
      && (exists i :: 0 <= i < |series| && HasPrice(series[i], LowKey) && PriceOf(series[i], LowKey) <= close)
      && (forall i :: 0 <= i < |series| ==> HasPrice(series[i], LowKey) && close < Ceiling * PriceOf(series[i], LowKey))
  {
    var m :| 0 <= m < |series| && WellPriced(series[m]) && PriceOf(series[m], LowKey) == low;
    if Recommend(close, low) == Buy {
      assert PriceOf(series[m], LowKey) <= close;
      forall i | 0 <= i < |series|
        ensures close < Ceiling * PriceOf(series[i], LowKey)
      {
        assert Ceiling * low <= Ceiling * PriceOf(series[i], LowKey);
      }
    } else if close < Ceiling * low {
      forall i | 0 <= i < |series|
        ensures close < PriceOf(series[i], LowKey)
      {
      }
    }
  }

  /** A run that fails on the payload or the statistics does so before the
      CSV file is opened; one that fails later leaves the header in it. */
  lemma CrashLeavesHeader(symbol: string, responseText: string, payload: Payload)
    requires Run(symbol, responseText, payload).Crashed?
    ensures var out := Run(symbol, responseText, payload);
      && (out.csv.None? <==> ReadPayload(payload).Err?)
      && (out.csv.Some? ==> |out.csv.value| >= 1 && out.csv.value[0] == Header)
  {
    match ReadPayload(payload)
    case Err(_) =>
    case Ok(facts) =>
      var written := WriteRows(facts.series);
      assert Run(symbol, responseText, payload).csv == Some(written.rows);
  }
}
