/**
 * The rolling-window start of the precipitation and tobs routes: the latest
 * date string, read by pandas, minus `timedelta(days=365)`, written back with
 * `strftime("%Y-%m-%d")`.
 */
module Window {
  import opened Wrappers
  import opened Calendar
  import opened TextOrder
  import opened IsoDate

  /** The exceptions the routes raise before they produce a result. */
  datatype QueryError =
    | NoMeasurements   // the table is empty: MAX(date) is NULL, or `station_counts[0]` has nothing to index
    | UnparseableDate  // pandas cannot read the latest date string
    | DateOutOfRange   // the date, or the date 365 days before it, is outside what a pandas Timestamp can hold

  const WindowDays := 365

  /**
   * The first and last whole days a pandas Timestamp holds: it counts
   * nanoseconds since 1970 in 64 bits, from 1677-09-21 00:12:43 to
   * 2262-04-11 23:47:16.
   */
  const FirstTimestampDay := Date(1677, 9, 22)
  const LastTimestampDay := Date(2262, 4, 11)

  predicate IsTimestampDay(d: Date) {
    ValidDate(d) && DateLe(FirstTimestampDay, d) && DateLe(d, LastTimestampDay)
  }

  /** `(pd.to_datetime(latest) - dt.timedelta(days=365)).strftime("%Y-%m-%d")`. */
  function WindowStart(latest: string): (r: Result<string, QueryError>)
    ensures Parse(latest).None? ==> r == Failure(UnparseableDate)
    ensures Parse(latest).Some? && !IsTimestampDay(Parse(latest).value) ==> r == Failure(DateOutOfRange)
    ensures Parse(latest).Some? && r.Failure? ==> r == Failure(DateOutOfRange)
    ensures r.Success? ==>
      && Parse(latest).Some? && Parse(r.value).Some?
      && ToOrdinal(Parse(r.value).value) == ToOrdinal(Parse(latest).value) - WindowDays
    ensures r.Success? ==> TextLe(r.value, latest) && r.value != latest
  {
    match Parse(latest)
    case None => Failure(UnparseableDate)
    case Some(d) =>
      if !IsTimestampDay(d) then Failure(DateOutOfRange)
      else
        var e := MinusDays(d, WindowDays);
        if !IsTimestampDay(e) then Failure(DateOutOfRange)
        else
          ParseFormat(e);
          TextOrderIsDayOrder(Format(e), latest);
          Success(Format(e))
  }

  /**
   * For a well-formed date string, the text filter `date >= start` keeps
   * exactly the days from 365 days before the latest day on.
   */
  lemma WindowFilterInDays(latest: string, date: string)
    requires WindowStart(latest).Success? && Parse(date).Some?
    ensures TextLe(WindowStart(latest).value, date)
            <==> ToOrdinal(Parse(latest).value) - WindowDays <= ToOrdinal(Parse(date).value)
  {
    TextOrderIsDayOrder(WindowStart(latest).value, date);
  }

  /**
   * A well-formed latest date has a window start exactly when it lies
   * between 1678-09-22 and the last day pandas holds, 2262-04-11.
   */
  lemma WindowStartDefined(latest: string)
    requires Parse(latest).Some?
    ensures WindowStart(latest).Success?
            <==> DateLe(Date(1678, 9, 22), Parse(latest).value) && DateLe(Parse(latest).value, LastTimestampDay)
  {
    var d := Parse(latest).value;
    TimestampDayInDays(d);
    OrdinalOrder(Date(1678, 9, 22), d);
    assert ToOrdinal(Date(1678, 9, 22)) == ToOrdinal(FirstTimestampDay) + WindowDays by {
      SameDayNextYear(1677, 9, 22);
    }
    if IsTimestampDay(d) {
      TimestampDayInDays(MinusDays(d, WindowDays));
    }
  }

  /** The timestamp range in day numbers. */
  lemma TimestampDayInDays(d: Date)
    requires ValidDate(d)
    ensures IsTimestampDay(d) <==> ToOrdinal(FirstTimestampDay) <= ToOrdinal(d) <= ToOrdinal(LastTimestampDay)
  {
    OrdinalOrder(FirstTimestampDay, d);
    OrdinalOrder(d, LastTimestampDay);
  }

  /**
   * On the calendar the window start is the latest date's month and day one
   * year earlier, moved one day on when a 29 February lies in between.
   */
  lemma WindowStartIsYearEarlier(latest: string)
    requires WindowStart(latest).Success?
    ensures Parse(WindowStart(latest).value) == Some(YearEarlier(Parse(latest).value))
  {
    var d := Parse(latest).value;
    MinusYearOfDays(d);
    ParseFormat(MinusDays(d, WindowDays));
  }

  /** The latest date of the Hawaii dataset, 2017-08-23, opens the window on 2016-08-23. */
  lemma DatasetWindow()
    ensures MinusDays(Date(2017, 8, 23), WindowDays) == Date(2016, 8, 23)
  {
    var d := Date(2017, 8, 23);
    assert !IsLeapYear(2017);
    assert YearEarlier(d) == Date(2016, 8, 23);
    MinusYearOfDays(d);
  }

  /** With a 29 February in between, the window does not open on the same month and day. */
  lemma LeapYearWindow()
    ensures MinusDays(Date(2016, 3, 1), WindowDays) == Date(2015, 3, 2)
  {
    var d := Date(2016, 3, 1);
    assert IsLeapYear(2016);
    assert NextDay(Date(2015, 3, 1)) == Date(2015, 3, 2);
    assert YearEarlier(d) == Date(2015, 3, 2);
    MinusYearOfDays(d);
  }
}
