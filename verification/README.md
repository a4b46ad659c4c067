# robo-advisor in Dafny

This project models the stock-analysis script `app/robo_advisor.py` of the
robo-advisor repository and proves its properties in Dafny. The script asks for
a ticker symbol, rejects symbols that are badly formed, fetches the daily time
series, and stops if the response carries an error message. It then takes the
latest day and close, the highest high and the lowest low, writes
`prices.csv`, prints the figures as dollars, and prints a BUY / DON'T BUY
recommendation. The model keeps the pure part of that pipeline and the order
in which the script runs it.

Modules, one per component of the script:

- `Base`: `Option`, `Result` and the three exceptions a run can end in:
  KeyError (`MissingKey`), IndexError on an empty series (`EmptySeries`) and
  ValueError from `float` (`NotANumber`). It also holds digit characters.
- `Digits`: decimal numerals of natural numbers, with rendering and reading
  back.
- `Decimal`: `float(text)` on the price strings of the series, read as an
  exact decimal.
- `Usd`: `to_usd`, covering rounding to cents, thousands grouping and the
  two-digit cents. `UsdExamples` has the examples from the repository's
  test.
- `Series`: the time series as an ordered sequence of days. It covers the
  latest day and close, the high/low loop, and `max`/`min`.
- `Recommendation`: the buy rule.
- `CsvRows`: the header and rows written to `prices.csv`. `WriteRows` is the
  pure stand-in for the `write_to_csv` that `test/advisor_test.py` imports.
  No such function exists in the script, which writes the rows inline.
- `Validation`: the symbol check and the `"Error Message"` guard.
- `Advisor`: one whole run, `Run`, in the script's order. Every uncaught
  exception ends the run at the point where the script would raise it.

Numbers are exact. A price string is read as the exact decimal it spells,
`1.2 * recent_low` is an exact product, and `to_usd` rounds the exact amount
to cents with ties to even.

## Model

| member | source | states |
|---|---|---|
| Digits.DigitsOfCanonical | app/robo_advisor.py:15 | the dollars of a formatted amount are written with at least one digit and no leading zero |
| Digits.ValueOfDigitsOf | app/robo_advisor.py:15 | the digits written for the dollars read back as the dollar amount |
| Digits.DigitsOfValueOf | app/robo_advisor.py:15 | every numeral without a leading zero is the rendering of the number it spells |
| Decimal.ParseDecimal | app/robo_advisor.py:56-57 | converting a price string either yields an exact non-negative decimal or fails with a ValueError that names that string |
| Decimal.ParseAcceptsNumerals | app/robo_advisor.py:56-57 | the strings that convert are exactly the unsigned decimal numerals: digits, with an optional point, and at least one digit overall |
| Decimal.IntegerValue | app/robo_advisor.py:56-57 | a numeral without a point converts to the integer it spells |
| Decimal.WholePlusFraction | app/robo_advisor.py:56-57 | "w.f" converts to w plus the digits f divided by ten to the number of those digits |
| Decimal.TrailingZero | app/robo_advisor.py:56-57 | trailing zeros after the point do not change the price, so "101.9500" equals "101.95" |
| Usd.RoundToCents | app/robo_advisor.py:15 | the whole number of cents is within half a cent of the amount, and on a tie it is even |
| Usd.RoundingIsUnique | app/robo_advisor.py:15 | there is only one such count of cents, so rounding is fully determined |
| Usd.GroupShape | app/robo_advisor.py:15 | the dollars are grouped as 1-3 digits, then groups of a comma and exactly three digits, and deleting the commas gives the digits back |
| Usd.RegroupIsIdentity | app/robo_advisor.py:15 | any correctly grouped string is the grouping of its own digits, so grouping is onto the grouped shape |
| Usd.CentsTextShape | app/robo_advisor.py:15 | a rendered count of cents is grouped dollars, a point and two digits: the dollars are the cents divided by 100 and the two digits are the remaining cents |
| Usd.ParseCentsText | app/robo_advisor.py:15 | reading a rendered amount gives back the cents it was rendered from |
| Usd.RenderParsedAmount | app/robo_advisor.py:15 | every amount text whose dollars have no leading zero is the rendering of the cents it reads as |
| Usd.ToUsd | app/robo_advisor.py:14-15 | the text starts with "$" |
| Usd.UsdFormat | app/robo_advisor.py:14-15 | for a non-negative amount: "$", grouped dollars equal to the rounded dollars, ".", then two digits holding the rounded cents |
| Usd.UsdReadsBack | app/robo_advisor.py:14-15 | reading the text after "$" gives the amount rounded to cents |
| Usd.UsdNegativeSign | app/robo_advisor.py:14-15 | a negative amount renders as "$-" followed by the rendering of its magnitude |
| UsdExamples.UsdTwoDecimals | test/advisor_test.py:5-14 | 12.5 renders as "$12.50" |
| UsdExamples.UsdRoundsToCents | test/advisor_test.py:16-17 | 12.52345 renders as "$12.52" |
| UsdExamples.CentsThousands | test/advisor_test.py:19-20 | 123456789000 cents render as "1,234,567,890.00" |
| UsdExamples.UsdThousands | test/advisor_test.py:19-20 | 1234567890 renders as "$1,234,567,890.00" |
| Series.EntryPrices | app/robo_advisor.py:54-57 | one pass of the loop succeeds exactly when the day has a high and a low that both read as numbers, and then yields those two numbers |
| Series.EntryPricesFailure | app/robo_advisor.py:54-57 | a failing pass raises the first of these that applies: missing high, missing low, bad high, bad low |
| Series.HighsAndLowsSucceeds | app/robo_advisor.py:53-57 | the loop completes exactly when every day has a readable high and low |
| Series.HighsListed | app/robo_advisor.py:53-56 | the high-price list has one entry per day, in series order, each the day's high |
| Series.LowsListed | app/robo_advisor.py:53-57 | the low-price list has one entry per day, in series order, each the day's low |
| Series.HighsAndLowsFailure | app/robo_advisor.py:53-57 | a failed loop raises the exception of the first day that lacks a readable high or low |
| Series.MaxIsAttainedBound | app/robo_advisor.py:59 | `max` returns an element of the list that no element exceeds |
| Series.MinIsAttainedBound | app/robo_advisor.py:60 | `min` returns an element of the list below which no element lies |
| Series.SeriesStats | app/robo_advisor.py:44-60 | an empty series raises IndexError; a first day without a close raises KeyError for "4. close"; on success the latest day is the first day and the latest close is its raw close string |
| Series.SeriesStatsSucceeds | app/robo_advisor.py:44-60 | the statistics exist exactly for a non-empty series whose first day has a close and whose every day has a readable high and low |
| Series.StatsOfLoop | app/robo_advisor.py:53-60 | recent_high and recent_low are the max and min of the loop's lists, which have one entry per day |
| Series.RecentHighIsMax | app/robo_advisor.py:53-59 | recent_high is at least every day's high and equals some day's high |
| Series.RecentLowIsMin | app/robo_advisor.py:53-60 | recent_low is at most every day's low and equals some day's low |
| Series.SeriesStatsFailure | app/robo_advisor.py:47-57 | when the first day has a close and the statistics still fail, the failure is that of the first day lacking a readable high or low |
| Recommendation.Recommend | app/robo_advisor.py:105-110 | BUY only when the close is at or above the low and below 1.2 times it; a close below the low never gives BUY |
| Recommendation.BuyWithinTwentyPercent | app/robo_advisor.py:105-107 | BUY exactly when the low is positive and the close lies above the low by at least 0% and less than 20% of the low, as the printed reason says |
| Recommendation.BuyNeedsPositiveLow | app/robo_advisor.py:105 | BUY requires a positive low and a positive close, so a low of zero never gives BUY |
| Recommendation.Boundaries | app/robo_advisor.py:105-110 | closing exactly at the low gives BUY; closing at or above 1.2 times the low does not |
| Recommendation.Examples | app/robo_advisor.py:105-110 | 100/100 and 119.99/100 give BUY; 120/100, 99.99/100 and 0/0 do not; the test fixture's close 101.63 against its lowest low 99.17 gives BUY |
| CsvRows.RowOf | app/robo_advisor.py:78-85 | a row has six cells: the date, then the open, high, low, close and volume fields in header order |
| CsvRows.RowFor | app/robo_advisor.py:78-85 | building a row succeeds exactly when the day has all five column keys, and then it is the day's row |
| CsvRows.RowForFailure | app/robo_advisor.py:78-85 | a row that cannot be built raises the KeyError of the first column key the day lacks, in header order |
| CsvRows.WriteRows | app/robo_advisor.py:70-73 | the file starts with the header row timestamp, open, high, low, close, volume |
| CsvRows.WriteBodyComplete | app/robo_advisor.py:76-85 | the loop finishes exactly when every day has every column, and then it wrote one row per day in series order |
| CsvRows.WriteBodyPartial | app/robo_advisor.py:76-85 | a loop stopped by an exception wrote exactly the rows of the days before the first day lacking a column, and raised that day's exception |
| CsvRows.WriteRowsSpec | app/robo_advisor.py:70-85 | a write with no exception gives 1 + number-of-days rows: the header, then each day's date and raw field strings in series order |
| CsvRows.WriteRowsStops | app/robo_advisor.py:70-85 | a write stopped by an exception leaves the header plus the rows of the days before the first bad day, and the KeyError names that day's first missing column |
| CsvRows.EntryOfRowOf | app/robo_advisor.py:78-85 | a row keeps everything of a day that has exactly the five column fields |
| CsvRows.ReadRowsWriteRows | app/robo_advisor.py:70-85 | reading back the written rows gives the series again, with nothing lost and nothing reordered |
| Validation.SymbolAccepted | app/robo_advisor.py:26-29 | a symbol is accepted exactly when it has 1 to 5 characters and at least one is not a digit |
| Validation.ContainsSpec | app/robo_advisor.py:36 | `pat in text` holds exactly when `pat` occurs at some position of `text` |
| Validation.IsErrorResponse | app/robo_advisor.py:36-38 | a response is an error response exactly when "Error Message" occurs somewhere in its text |
| Validation.MarkerAnywhere | app/robo_advisor.py:36-38 | the marker anywhere in the text, whatever surrounds it, makes the response an error response |
| Validation.ShortResponseIsNotError | app/robo_advisor.py:36 | a text shorter than the marker is never an error response |
| Validation.SymbolExamples | app/robo_advisor.py:26 | "MSFT" and "A1" are accepted; "123", "" and "ABCDEF" are rejected |
| Advisor.ReadPayload | app/robo_advisor.py:42-60 | a missing "Meta Data" raises KeyError for it; on success the facts are the last-refreshed date, the series and its statistics |
| Advisor.Run | app/robo_advisor.py:26-38 | a run ends at the symbol check exactly when the symbol is rejected, and at the error guard exactly when an accepted symbol meets an error response |
| Advisor.ErrorResponseWritesNothing | app/robo_advisor.py:36-40 | a response containing "Error Message" stops the run before parsing and leaves no CSV rows, whatever the payload |
| Advisor.RejectedSymbolIgnoresResponse | app/robo_advisor.py:26-30 | an all-digit, empty or over-long symbol ends the run the same way, whatever the response |
| Advisor.CompletedExactly | app/robo_advisor.py:26-110 | a run completes exactly when the symbol is accepted, there is no error marker, the meta date is present, the series is non-empty, its first close is readable, and every day has a readable high and low and all CSV columns |
| Advisor.CompletedReport | app/robo_advisor.py:42-110 | a completed run reports the last-refreshed date and shows the first day's close and the series extremes in dollars; it decides on that close against the lowest low and leaves the header and one row per day in the file |
| Advisor.CompletedDecision | app/robo_advisor.py:53-110 | a completed run says BUY exactly when the first day's close is at or above some day's low and below 1.2 times every day's low |
| Advisor.LowWindow | app/robo_advisor.py:60-105 | against the lowest low, "at or above it and below 1.2 times it" is the same as "at or above some day's low and below 1.2 times every day's low" |
| Advisor.CrashLeavesHeader | app/robo_advisor.py:42-99 | a crash before the file is opened leaves no rows; a later crash leaves at least the header |

## Left out

- Console input and output, `datetime.now()`, the HTTP request, the API key from the environment, and the file system are left out. The symbol, the response text and the parsed payload are parameters of `Run`. What the run prints is reduced to the fields of `Report`.
- `json.loads` is not modelled. `Run` takes the response text and its parse as separate inputs. The error guard looks only at the text, as the script does.
- The time series is the parsed dictionary's items in their order, as a sequence of `Entry`. Keys are distinct in a dictionary, and the model does not rely on that.
- Binary floating point is not modelled. Prices, `1.2 * recent_low` and the amount given to `to_usd` are exact. A result that depends on binary rounding, such as a half-cent tie in the double nearest to a price, can therefore differ from the script.
- Decimal.ParseDecimal: accepts only unsigned numerals of digits with an optional point. Python's `float` also accepts signs, exponents, surrounding whitespace, underscores, "inf" and "nan". Those strings fail here with the ValueError. The service sends plain unsigned decimals.
- Validation.SymbolAccepted: treats only '0'-'9' as digits. Python's `str.isdigit` also accepts other Unicode digit characters, so a symbol made only of such characters is accepted here but rejected by the script.
- The CSV text layout is not modelled: separators, quoting and line endings belong to `csv.DictWriter`. The model keeps the rows as lists of cells.
- The printed reasons at app/robo_advisor.py:107 and :110 are not modelled as strings. Their meaning is proved as Recommendation.BuyWithinTwentyPercent.
- Some behaviour found in descriptions of this system is not in `app/robo_advisor.py`, and the model follows the code:
  - The code has no prior-day close and no ±5% alert or notification.
  - The statistics need one day, not two.
  - A low of zero never gives BUY, even with a close of zero (Recommendation.BuyNeedsPositiveLow).
  - A day missing its open, close or volume field crashes the run in the middle of writing the CSV. The rows already written stay in the file, as CsvRows.WriteRowsStops states; nothing aborts the run before the file is written.
  - Any symbol that is not all digits and has 1 to 5 characters is accepted, including "A1". Symbols are not restricted to letters.
