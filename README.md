# SurfsUp climate API: a verified model of its queries

SurfsUp serves a Hawaii weather database (`hawaii.sqlite`) over five JSON
routes. In every route the work is a query over the `measurement` table,
where each row has a station id, an ISO `YYYY-MM-DD` date held as text, a
precipitation reading that may be NULL, and a temperature observation
(`tobs`). This project models those queries as pure Dafny functions over a
sequence of rows and proves what each route returns:

- `/api/v1.0/precipitation` (`Routes.Precipitation`): the latest date in the
  table, the day 365 days before it, and every `(date, prcp)` pair dated on
  or after that day, ordered by date.
- `/api/v1.0/stations` (`Routes.Stations`): the distinct station ids.
- `/api/v1.0/tobs` (`Routes.Tobs`): the station with the most rows, its own
  latest date and 365-day window, and the temperatures in that window.
- `/api/v1.0/<start>` and `/api/v1.0/<start>/<end>` (`RangeSummary.GetStart`,
  `RangeSummary.GetStartEnd`): minimum, average and maximum temperature over
  a text date range, with the `TMIN`/`TAVG`/`TMAX` mapping of the result row.

The date arithmetic behind the window has its own modules:

- `Calendar`: proleptic Gregorian dates, the day-number ordinal (day 1 is
  0001-01-01), its inverse, and subtraction of a number of days.
- `IsoDate`: the `%Y-%m-%d` text form, with `Format`, a strict `Parse` and
  their round trips.
- `TextOrder`: the byte-wise text comparison that SQLite applies to the date
  column.
- `Window`: the route's "latest date minus 365 days", including the range
  limit of pandas timestamps.

The main results are these:

- On well-formed dates, text order is day order (`IsoDate.TextOrderIsDayOrder`).
  So the SQL filter `date >= start` keeps exactly the rows at most 365 days
  older than the latest one (`Routes.PrecipitationWindowInDays`).
- The 365-day window is the same calendar day a year earlier, unless a leap
  day falls inside it (`Calendar.WindowMatchesCalendarYear`).

Three facts about the code shape the model:

- No route validates its date arguments. A malformed `start` or `end` is
  simply compared as text.
- A tie for the most active station is not broken by station id. The model
  picks one of the tied stations and states only that its count is maximal.
- The `tobs` query has no `order_by`, so the source promises no order for its
  result. The model fixes that order to table order, and its contract states
  the result per value, as a multiset.

## Model

| member | source | states |
|---|---|---|
| Calendar.ToOrdinal | SurfsUp/app.py:68 | every valid date has a day number of at least 1 |
| Calendar.YearOf | SurfsUp/app.py:68 | the year found for a day number is the one whose days contain it |
| Calendar.FromOrdinal | SurfsUp/app.py:68 | every positive day number is the day number of a valid date |
| Calendar.OrdinalOrder | SurfsUp/app.py:68 | day numbers compare as dates compare (year, month, day), and equal day numbers mean equal dates |
| Calendar.FromToOrdinal | SurfsUp/app.py:68 | converting a valid date to its day number and back gives the same date |
| Calendar.MinusDays | SurfsUp/app.py:68 | subtracting `timedelta(days=k)` gives a valid date exactly k day numbers earlier |
| Calendar.NextDayOrdinal | SurfsUp/app.py:68 | the following calendar day is one day number later |
| Calendar.MinusDaysIs | SurfsUp/app.py:68 | any valid date k day numbers earlier is the result of the subtraction |
| Calendar.YearEarlierOrdinal | SurfsUp/app.py:68 | the calendar rule "same day a year earlier, shifted for 29 February" lands exactly 365 days back |
| Calendar.MinusYearOfDays | SurfsUp/app.py:68 | subtracting 365 days equals that calendar rule |
| Calendar.WindowMatchesCalendarYear | SurfsUp/app.py:68 | the 365-day step gives the same month and day a year earlier if and only if no 29 February lies in the window |
| TextOrder.TextLe | SurfsUp/app.py:72 | the definition of SQLite's BINARY text comparison, used by every date filter (app.py:72, 115, 127, 143) and by `max(date)` (app.py:65, 107): when both texts are non-empty, their first characters are in order; its properties are TextLePrefix, TextLeReflexive, TextLeTotal, TextLeAntisymmetric and TextLeTransitive |
| TextOrder.TextLeReflexive | SurfsUp/app.py:72 | text `<=` is reflexive |
| TextOrder.TextLePrefix | SurfsUp/app.py:72 | a text sorts no later than any text it is a prefix of |
| TextOrder.TextLeTotal | SurfsUp/app.py:72 | any two texts are comparable |
| TextOrder.TextLeAntisymmetric | SurfsUp/app.py:72 | texts that are each `<=` the other are equal |
| TextOrder.TextLeTransitive | SurfsUp/app.py:72 | text `<=` is transitive |
| TextOrder.TextLeConcat | SurfsUp/app.py:72 | comparing two texts with same-length prefixes compares the prefixes first, then the rest |
| IsoDate.Digits | SurfsUp/app.py:68 | a zero-padded field has exactly its width, and all of it is digits |
| IsoDate.ValueOfDigits | SurfsUp/app.py:68 | reading a zero-padded field back gives the number |
| IsoDate.DigitsOfValue | SurfsUp/app.py:68 | writing out a digit string's value at its own width gives the string |
| IsoDate.DigitsOrder | SurfsUp/app.py:72 | same-width zero-padded fields compare as text exactly as their numbers compare |
| IsoDate.Format | SurfsUp/app.py:68 | `strftime("%Y-%m-%d")` produces ten characters |
| IsoDate.Parse | SurfsUp/app.py:68 | whatever parses is a valid date with a four-digit year |
| IsoDate.ParseFormat | SurfsUp/app.py:68 | parsing the formatted date gives it back |
| IsoDate.FormatParse | SurfsUp/app.py:68 | formatting a parsed text gives the text back |
| IsoDate.FormatOrder | SurfsUp/app.py:72 | formatted dates compare as text exactly as their day numbers compare |
| IsoDate.TextOrderIsDayOrder | SurfsUp/app.py:72 | two well-formed date texts compare as text exactly as the days compare |
| Window.WindowStart | SurfsUp/app.py:68 | an unparseable latest date is an error; a well-formed date outside the timestamp range 1677-09-22..2262-04-11 is an out-of-range error, the only other failure; a start is a well-formed date exactly 365 days before the latest one, and strictly before it as text |
| Window.WindowFilterInDays | SurfsUp/app.py:68-72 | the text filter `date >= start` keeps exactly the days at most 365 days before the latest one |
| Window.WindowStartDefined | SurfsUp/app.py:68 | for any well-formed latest date, a start exists if and only if that date lies between 1678-09-22 and 2262-04-11 |
| Window.TimestampDayInDays | SurfsUp/app.py:68 | a date is inside the timestamp range exactly when its day number lies between those of the range ends |
| Window.WindowStartIsYearEarlier | SurfsUp/app.py:68 | the start is the calendar day a year earlier, shifted for 29 February |
| Window.DatasetWindow | SurfsUp/app.py:68 | 2017-08-23 minus 365 days is 2016-08-23 |
| Window.LeapYearWindow | SurfsUp/app.py:68 | 2016-03-01 minus 365 days is 2015-03-02, because 29 February 2016 lies in the window |
| Measurements.Matches | SurfsUp/app.py:115 | the definition of the conjunction passed to `.filter(...)` (app.py:72, 108, 115, 127, 143): `station == s`, `date >= from` and `date <= to`, each optional; WhereCounts and WhereMembers state what filtering by it keeps |
| Measurements.WhereCounts | SurfsUp/app.py:70-74 | filtering keeps every matching row as many times as it occurs, and drops every other row |
| Measurements.WhereMembers | SurfsUp/app.py:70-74 | a row is in the filtered table if and only if it is in the table and matches |
| Measurements.WhereAppend | SurfsUp/app.py:70-74 | filtering a table extended by one row gives the old result, followed by that row if it matches |
| Measurements.TobsOfWhere | SurfsUp/app.py:113-118 | the temperatures taken from the filtered rows are exactly those of the matching rows |
| Measurements.TobsCounts | SurfsUp/app.py:113-118 | each temperature occurs in the filtered column exactly as many times as there are matching rows with that temperature |
| Measurements.MaxDate | SurfsUp/app.py:64-66 | `max(date)` is NULL if and only if the table is empty; otherwise it is some row's date and no row's date is greater |
| Measurements.CountPositive | SurfsUp/app.py:98-102 | a station that has a row has a positive count |
| Measurements.Where | SurfsUp/app.py:115 | the filtered rows are no more than the table's, and each of them matches the filter |
| Measurements.WhereLast | SurfsUp/app.py:143 | filtering a table is filtering all but its last row, followed by the last row if it matches |
| Measurements.StationIds | SurfsUp/app.py:87-91 | the station column has one id per row, and an id is in it if and only if some row has that station |
| Measurements.CountOccurrences | SurfsUp/app.py:98-102 | the rows of a station are as many as the occurrences of its id in the station column |
| Measurements.Count | SurfsUp/app.py:98-102 | a station's count is the number of times its id occurs in the station column, and at most the number of rows |
| Measurements.TobsOf | SurfsUp/app.py:118 | the temperature list has one value per row; every row's `tobs` is in it, and every value in it is some row's `tobs` |
| Routes.Records | SurfsUp/app.py:71 | the `(date, prcp)` list has one pair per row; every row's pair is in it, and every pair in it is some row's |
| Routes.InsertByDate | SurfsUp/app.py:73 | inserting a record into a date-ordered list keeps it ordered and adds exactly that record |
| Routes.SortByDate | SurfsUp/app.py:73 | the sorted list is ordered by date and is a permutation of the input |
| Routes.SortedMembers | SurfsUp/app.py:73-77 | sorting keeps the length and the members |
| Routes.RecordsOfWhere | SurfsUp/app.py:70-74 | a `(date, prcp)` pair is in the query result if and only if a matching row has that date and reading |
| Routes.RecordCounts | SurfsUp/app.py:70-74 | each `(date, prcp)` pair occurs in the query result exactly as many times as there are matching rows carrying it |
| Routes.PrecipSeries | SurfsUp/app.py:70-78 | sorting the records of the rows dated on or after `start` gives a date-ordered list with one record per such row: the same pairs, each with the multiplicity of the rows that carry it |
| Routes.PrecipitationStart | SurfsUp/app.py:64-68 | an empty table is an error and an unparseable latest date is an error; for a well-formed latest date it succeeds if and only if that date lies between 1678-09-22 and 2262-04-11, and otherwise fails as out of range; a start is a well-formed date exactly 365 days before the table's latest date |
| Routes.Precipitation | SurfsUp/app.py:62-81 | an empty table is an error; it succeeds exactly when the window start exists (for a well-formed latest date: when it lies between 1678-09-22 and 2262-04-11), and otherwise fails with the window start's error; the result is date-ordered, and each pair occurs in it exactly as many times as there are rows dated on or after the start that carry it |
| Routes.RecordInSeries | SurfsUp/app.py:70-78 | a row's pair is in the series if and only if its date is on or after the start as text |
| Routes.PrecipitationWindowInDays | SurfsUp/app.py:64-78 | on well-formed dates, every row is no later than the latest day, and its pair is in the series if and only if it is at most 365 days before the latest day |
| Routes.Distinct | SurfsUp/app.py:86-89 | `distinct()` has no duplicates and has the same members |
| Routes.Stations | SurfsUp/app.py:84-93 | the list has no duplicates, and an id is in it if and only if some row has that station |
| Routes.CountAbsent | SurfsUp/app.py:98-102 | a station with no rows has count zero |
| Routes.ArgMaxCount | SurfsUp/app.py:101-104 | the chosen station is one of the candidates, and no candidate has a larger count |
| Routes.MostActiveStation | SurfsUp/app.py:98-104 | it fails if and only if the table is empty; otherwise it picks a station that occurs, and no station has more rows |
| Routes.TobsSeries | SurfsUp/app.py:113-118 | the filtered `tobs` column holds each temperature exactly as many times as there are rows of the station, dated on or after `start`, with that temperature |
| Routes.StationWindowStart | SurfsUp/app.py:106-111 | a station with no rows is an error; a start is a well-formed date exactly 365 days before the latest date of that station's own rows |
| Routes.Tobs | SurfsUp/app.py:96-120 | an empty table is an error; it succeeds exactly when the most active station exists and has a window start, and otherwise fails with that error; on success each temperature occurs in the result exactly as many times as there are rows of that station, dated on or after its window start, with that temperature |
| Routes.StationLatest | SurfsUp/app.py:106-109 | the station's latest date is one of its rows' dates, no row of that station is later, and it is no later than the table's latest date |
| Routes.StationWindowAnchor | SurfsUp/app.py:106-115 | the station window is anchored at that station's own latest date, not at the table's |
| Routes.ActiveStationWindow | SurfsUp/app.py:104-111 | in a non-empty table the most active station has rows of its own, so its window start is the window start of its latest date |
| RangeSummary.Minimum | SurfsUp/app.py:126 | `min` is one of the values and no value is smaller |
| RangeSummary.Maximum | SurfsUp/app.py:126 | `max` is one of the values and no value is larger |
| RangeSummary.SumBounds | SurfsUp/app.py:126 | a sum of n values within bounds lies between n times each bound |
| RangeSummary.QuotientBounds | SurfsUp/app.py:126 | dividing such a sum by n lands within the bounds |
| RangeSummary.Mean | SurfsUp/app.py:126 | `avg` times the number of values is their sum, and it lies between `min` and `max` |
| RangeSummary.Aggregate | SurfsUp/app.py:125-128 | the `min`, `max`, `avg` row is all NULL exactly when no row matches; otherwise min and max are matching temperatures and min <= avg <= max |
| RangeSummary.Summarize | SurfsUp/app.py:130-134 | TMIN is column 0 (`min`), TMAX column 1 (`max`) and TAVG column 2 (`avg`) of the result row |
| RangeSummary.AggregateSummarizes | SurfsUp/app.py:125-134 | the result row, mapped to TMIN/TAVG/TMAX, is all NULL if and only if nothing matches; otherwise TMIN <= TAVG <= TMAX, TMIN and TMAX are each attained by a matching row, every matching row lies between them, and TAVG is the mean of the matching temperatures |
| RangeSummary.SomeMatchSummarizes | SurfsUp/app.py:125-134 | with at least one matching row, the mapped result row has all the properties above |
| RangeSummary.GetStart | SurfsUp/app.py:122-136 | the summary describes the rows dated on or after `start` as text: their minimum, maximum and mean temperature, or all NULL when there is none |
| RangeSummary.GetStartEnd | SurfsUp/app.py:138-152 | the summary describes the rows dated between `start` and `end` as text, both ends included: their minimum, maximum and mean temperature, or all NULL when there is none |
| RangeSummary.WhereAgrees | SurfsUp/app.py:127-143 | filters that agree on every row select the same rows |
| RangeSummary.StartIsUnboundedRange | SurfsUp/app.py:122-152 | with an end no earlier than any date, both routes give the same summary |
| RangeSummary.SingleMatch | SurfsUp/app.py:138-152 | when exactly one row matches, TMIN, TAVG and TMAX are all its temperature |
| RangeSummary.OneRowRoundTrip | SurfsUp/app.py:138-152 | a one-row table queried from its own date to its own date gives its temperature three times |
| RangeSummary.WiderRange | SurfsUp/app.py:138-152 | widening the range never raises TMIN and never lowers TMAX |
| RangeSummary.EarlierStart | SurfsUp/app.py:122-136 | an earlier start never raises TMIN and never lowers TMAX |

## Left out

- Flask: the application object, route registration, `jsonify`, the `/` route `list_routes` and `app.run` are only transport around the queries.
- SQLAlchemy: the engine, reflection and session setup. The table is a parameter, a sequence of rows in table order.
- `describe()` on the precipitation column (`app.py:79`). It computes a summary that nothing returns.
- RangeSummary.Mean: the average is an exact real. It does not model SQLite's double-precision `AVG`, its rounding, or the JSON float output.
- Temperatures are exact reals and are never NULL. SQLite's per-value type coercion in the `tobs` and `prcp` columns is not modelled.
- The DataFrame turns a NULL `prcp` into NaN. The model keeps it as `None`.
- IsoDate.Parse: it accepts only the ten-character `YYYY-MM-DD` form that the table holds. `pd.to_datetime` also accepts other spellings, which are not modelled.
- IsoDate.Format: it writes four-digit years. Python's `strftime` does not pad years below 1000, but no pandas timestamp reaches them.
- Failures are modelled as `QueryError` values where the Python raises an exception and Flask returns an HTTP 500: `NoMeasurements` for an empty table, `UnparseableDate` for a latest date that does not parse, and `DateOutOfRange` when a day falls outside pandas' timestamp range.
- Routes.SortByDate: the contract states order and permutation, but not that records with equal dates keep their order. The SQL `order_by`, followed by pandas' sort, does not guarantee a tie order either.
- Routes.MostActiveStation: the contract states only maximality. The choice among tied stations depends on the database's grouping order and is not modelled.
- Routes.Tobs: the contract fixes no order, only how many times each temperature occurs. SQLite returns filtered rows in an unspecified order, which the model takes to be table order.
