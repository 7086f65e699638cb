/**
 * The precipitation, stations and tobs routes, as functions of the
 * measurement table.
 */
module Routes {
  import opened Wrappers
  import opened TextOrder
  import opened Calendar
  import opened IsoDate
  import opened Window
  import opened Measurements

  /** One element of the precipitation response, `{"date": ..., "prcp": ...}`. */
  datatype PrecipRecord = PrecipRecord(date: string, prcp: Option<real>)

  /** `query(measurement.date, measurement.prcp)`: the two columns, row by row; a NULL stays NULL. */
  function Records(rows: seq<Measurement>): (rs: seq<PrecipRecord>)
    ensures |rs| == |rows|
    ensures forall m :: m in rows ==> PrecipRecord(m.date, m.prcp) in rs
    ensures forall p :: p in rs ==> exists m :: m in rows && p == PrecipRecord(m.date, m.prcp)
  {
    var rs := seq(|rows|, i requires 0 <= i < |rows| => PrecipRecord(rows[i].date, rows[i].prcp));
    assert forall m :: m in rows ==> PrecipRecord(m.date, m.prcp) in rs by {
      forall m | m in rows ensures PrecipRecord(m.date, m.prcp) in rs {
        var i :| 0 <= i < |rows| && rows[i] == m;
        assert rs[i] == PrecipRecord(m.date, m.prcp);
      }
    }
    assert forall p :: p in rs ==> exists m :: m in rows && p == PrecipRecord(m.date, m.prcp) by {
      forall p | p in rs ensures exists m :: m in rows && p == PrecipRecord(m.date, m.prcp) {
        var i :| 0 <= i < |rs| && rs[i] == p;
        assert rows[i] in rows;
      }
    }
    rs
  }

  predicate SortedByDate(rs: seq<PrecipRecord>) {
    forall i, j :: 0 <= i < j < |rs| ==> TextLe(rs[i].date, rs[j].date)
  }

  /** A record no later than every record of a sorted list can go in front of it. */
  lemma PrependSorted(p: PrecipRecord, rs: seq<PrecipRecord>)
    requires SortedByDate(rs)
    requires forall x :: x in rs ==> TextLe(p.date, x.date)
    ensures SortedByDate([p] + rs)
  {
    var out := [p] + rs;
    forall i, j | 0 <= i < j < |out| ensures TextLe(out[i].date, out[j].date) {
      if i > 0 {
        assert out[i] == rs[i - 1] && out[j] == rs[j - 1];
      } else {
        assert out[j] == rs[j - 1] && out[j] in rs;
      }
    }
  }

  lemma SortedTail(rs: seq<PrecipRecord>)
    requires SortedByDate(rs) && |rs| > 0
    ensures SortedByDate(rs[1..])
    ensures forall x :: x in rs[1..] ==> TextLe(rs[0].date, x.date)
  {
    var rest := rs[1..];
    forall i, j | 0 <= i < j < |rest| ensures TextLe(rest[i].date, rest[j].date) {
      assert rest[i] == rs[i + 1] && rest[j] == rs[j + 1];
    }
    forall x | x in rest ensures TextLe(rs[0].date, x.date) {
      var j :| 0 <= j < |rest| && rest[j] == x;
      assert rs[j + 1] == x;
    }
  }

  /** Every record of a sorted list is no earlier than its first. */
  lemma SortedHead(rs: seq<PrecipRecord>, q: PrecipRecord)
    requires SortedByDate(rs) && |rs| > 0 && TextLe(q.date, rs[0].date)
    ensures forall x :: x in rs ==> TextLe(q.date, x.date)
  {
    forall x | x in rs ensures TextLe(q.date, x.date) {
      var j :| 0 <= j < |rs| && rs[j] == x;
      if j > 0 { TextLeTransitive(q.date, rs[0].date, x.date); }
    }
  }

  /** Puts `p` into a date-sorted list, before the records of the same date. */
  function InsertByDate(p: PrecipRecord, rs: seq<PrecipRecord>): (out: seq<PrecipRecord>)
    requires SortedByDate(rs)
    ensures SortedByDate(out)
    ensures multiset(out) == multiset(rs) + multiset{p}
  {
    if |rs| == 0 then [p]
    else if TextLe(p.date, rs[0].date) then
      SortedHead(rs, p);
      PrependSorted(p, rs);
      [p] + rs
    else
      SortedTail(rs);
      var tail := InsertByDate(p, rs[1..]);
      assert rs == [rs[0]] + rs[1..];
      TextLeTotal(p.date, rs[0].date);
      assert forall x :: x in tail ==> TextLe(rs[0].date, x.date) by {
        forall x | x in tail ensures TextLe(rs[0].date, x.date) {
          assert x in multiset(tail);
        }
      }
      PrependSorted(rs[0], tail);
      [rs[0]] + tail
  }

  /** `order_by(measurement.date)` and `sort_values(by="date")`: the records in ascending date order. */
  function SortByDate(rs: seq<PrecipRecord>): (out: seq<PrecipRecord>)
    ensures SortedByDate(out)
    ensures multiset(out) == multiset(rs)
  {
    if |rs| == 0 then []
    else
      assert rs == [rs[0]] + rs[1..];
      InsertByDate(rs[0], SortByDate(rs[1..]))
  }

  /** The records of the matching rows are exactly the records of matching rows. */
  lemma RecordsOfWhere(rows: seq<Measurement>, c: Condition, p: PrecipRecord)
    ensures p in Records(Where(rows, c)) <==> exists m :: m in rows && Matches(m, c) && p == PrecipRecord(m.date, m.prcp)
  {
    var matched := Where(rows, c);
    if p in Records(matched) {
      var i :| 0 <= i < |matched| && Records(matched)[i] == p;
      WhereMembers(rows, c, matched[i]);
    }
    if m :| m in rows && Matches(m, c) && p == PrecipRecord(m.date, m.prcp) {
      WhereMembers(rows, c, m);
      var i :| 0 <= i < |matched| && matched[i] == m;
      assert Records(matched)[i] == p;
    }
  }

  /** Sorting keeps the records and their number. */
  lemma SortedMembers(rs: seq<PrecipRecord>, p: PrecipRecord)
    ensures |SortByDate(rs)| == |rs|
    ensures p in SortByDate(rs) <==> p in rs
  {
    var out := SortByDate(rs);
    assert |out| == |multiset(out)|;
    assert p in out <==> p in multiset(out);
    assert p in rs <==> p in multiset(rs);
  }

  lemma RecordsAppend(a: seq<Measurement>, b: seq<Measurement>)
    ensures Records(a + b) == Records(a) + Records(b)
  {
  }

  /** The matching rows of a table are those of all but its last row, and the last row if it matches. */
  lemma RecordIndicesStep(rows: seq<Measurement>, c: Condition, p: PrecipRecord)
    requires |rows| > 0
    ensures var init, last := rows[..|rows| - 1], rows[|rows| - 1];
      |set i | 0 <= i < |rows| && Matches(rows[i], c) && PrecipRecord(rows[i].date, rows[i].prcp) == p|
      == |set i | 0 <= i < |init| && Matches(init[i], c) && PrecipRecord(init[i].date, init[i].prcp) == p|
         + if Matches(last, c) && PrecipRecord(last.date, last.prcp) == p then 1 else 0
  {
    var init, last := rows[..|rows| - 1], rows[|rows| - 1];
    var all := set i | 0 <= i < |rows| && Matches(rows[i], c) && PrecipRecord(rows[i].date, rows[i].prcp) == p;
    var before := set i | 0 <= i < |init| && Matches(init[i], c) && PrecipRecord(init[i].date, init[i].prcp) == p;
    if Matches(last, c) && PrecipRecord(last.date, last.prcp) == p {
      assert all == before + {|init|};
    } else {
      assert all == before;
    }
  }

  /** The filtered records of a table are those of all but its last row, and the last row's record if it matches. */
  lemma RecordWhereStep(rows: seq<Measurement>, c: Condition, p: PrecipRecord)
    requires |rows| > 0
    ensures var init, last := rows[..|rows| - 1], rows[|rows| - 1];
      multiset(Records(Where(rows, c)))[p]
      == multiset(Records(Where(init, c)))[p] + if Matches(last, c) && PrecipRecord(last.date, last.prcp) == p then 1 else 0
  {
    var init, last := rows[..|rows| - 1], rows[|rows| - 1];
    var tail := if Matches(last, c) then [last] else [];
    WhereLast(rows, c);
    RecordsAppend(Where(init, c), tail);
    var before, added := Records(Where(init, c)), Records(tail);
    assert multiset(Records(Where(rows, c))) == multiset(before) + multiset(added);
    assert added == if Matches(last, c) then [PrecipRecord(last.date, last.prcp)] else [];
  }

  /** Each record occurs in the filtered records once per matching row that has it. */
  lemma {:induction false} RecordCounts(rows: seq<Measurement>, c: Condition, p: PrecipRecord)
    ensures multiset(Records(Where(rows, c)))[p]
            == |set i | 0 <= i < |rows| && Matches(rows[i], c) && PrecipRecord(rows[i].date, rows[i].prcp) == p|
    decreases |rows|
  {
    if |rows| > 0 {
      RecordWhereStep(rows, c, p);
      RecordCounts(rows[..|rows| - 1], c, p);
      RecordIndicesStep(rows, c, p);
    }
  }

  /**
   * `out` is the precipitation series from `start`: ordered by date, with
   * one record for each row dated on or after `start`, carrying that row's
   * date and reading, and nothing else.
   */
  ghost predicate IsPrecipSeries(out: seq<PrecipRecord>, rows: seq<Measurement>, start: string) {
    && SortedByDate(out)
    && |out| == |Where(rows, FromDate(start))|
    && (forall p :: p in out <==> exists m :: m in rows && TextLe(start, m.date) && p == PrecipRecord(m.date, m.prcp))
    && (forall p :: multiset(out)[p] ==
          |set i | 0 <= i < |rows| && TextLe(start, rows[i].date) && PrecipRecord(rows[i].date, rows[i].prcp) == p|)
  }

  lemma FromDateIndices(rows: seq<Measurement>, start: string, p: PrecipRecord)
    ensures (set i | 0 <= i < |rows| && Matches(rows[i], FromDate(start)) && PrecipRecord(rows[i].date, rows[i].prcp) == p)
         == (set i | 0 <= i < |rows| && TextLe(start, rows[i].date) && PrecipRecord(rows[i].date, rows[i].prcp) == p)
  {
  }

  /** Sorting the records of the rows dated on or after `start` gives the series from `start`. */
  lemma PrecipSeries(rows: seq<Measurement>, start: string)
    ensures IsPrecipSeries(SortByDate(Records(Where(rows, FromDate(start)))), rows, start)
  {
    var c := FromDate(start);
    var rs := Records(Where(rows, c));
    var out := SortByDate(rs);
    forall p ensures p in out <==> exists m :: m in rows && TextLe(start, m.date) && p == PrecipRecord(m.date, m.prcp) {
      SortedMembers(rs, p);
      RecordsOfWhere(rows, c, p);
    }
    forall p ensures multiset(out)[p] ==
        |set i | 0 <= i < |rows| && TextLe(start, rows[i].date) && PrecipRecord(rows[i].date, rows[i].prcp) == p| {
      RecordCounts(rows, c, p);
      FromDateIndices(rows, start, p);
    }
    SortedMembers(rs, PrecipRecord("", None));
  }

  /** 365 days before the latest date of the whole table. */
  function PrecipitationStart(rows: seq<Measurement>): (r: Result<string, QueryError>)
    ensures |rows| == 0 ==> r == Failure(NoMeasurements)
    ensures |rows| > 0 && Parse(MaxDate(rows).value).None? ==> r == Failure(UnparseableDate)
    ensures r.Success? ==>
      && |rows| > 0 && Parse(MaxDate(rows).value).Some? && Parse(r.value).Some?
      && ToOrdinal(Parse(r.value).value) == ToOrdinal(Parse(MaxDate(rows).value).value) - WindowDays
    ensures |rows| > 0 && Parse(MaxDate(rows).value).Some? ==>
      var latest := Parse(MaxDate(rows).value).value;
      r.Success? <==> DateLe(Date(1678, 9, 22), latest) && DateLe(latest, LastTimestampDay)
    ensures |rows| > 0 && Parse(MaxDate(rows).value).Some? && r.Failure? ==> r == Failure(DateOutOfRange)
  {
    match MaxDate(rows)
    case None => Failure(NoMeasurements)
    case Some(latest) =>
      if Parse(latest).None? then WindowStart(latest)
      else
        WindowStartDefined(latest);
        WindowStart(latest)
  }

  /** `get_precipitation`: every row dated on or after the window start, as a date-ordered `(date, prcp)` list. */
  function Precipitation(rows: seq<Measurement>): (r: Result<seq<PrecipRecord>, QueryError>)
    ensures |rows| == 0 ==> r == Failure(NoMeasurements)
    ensures r.Success? <==> PrecipitationStart(rows).Success?
    ensures r.Failure? ==> r.error == PrecipitationStart(rows).error
    ensures r.Success? ==> IsPrecipSeries(r.value, rows, PrecipitationStart(rows).value)
  {
    match PrecipitationStart(rows)
    case Failure(e) => Failure(e)
    case Success(start) =>
      PrecipSeries(rows, start);
      Success(SortByDate(Records(Where(rows, FromDate(start)))))
  }

  predicate WellDated(rows: seq<Measurement>) {
    forall m :: m in rows ==> Parse(m.date).Some?
  }

  function DayOf(m: Measurement): int
    requires Parse(m.date).Some?
  {
    ToOrdinal(Parse(m.date).value)
  }

  /**
   * With well-formed dates the series is, in days, exactly the rows of the
   * 365 days before the latest day and of that day itself.
   */
  lemma PrecipitationWindowInDays(rows: seq<Measurement>, m: Measurement)
    requires WellDated(rows) && Precipitation(rows).Success? && m in rows
    ensures MaxDate(rows).Some? && Parse(MaxDate(rows).value).Some?
    ensures var latest := ToOrdinal(Parse(MaxDate(rows).value).value);
      && DayOf(m) <= latest
      && (PrecipRecord(m.date, m.prcp) in Precipitation(rows).value <==> latest - WindowDays <= DayOf(m))
  {
    var latest := MaxDate(rows).value;
    LatestIsWellDated(rows);
    var k :| 0 <= k < |rows| && rows[k] == m;
    TextOrderIsDayOrder(m.date, latest);
    RecordInSeries(rows, m);
    WindowFilterInDays(latest, m.date);
  }

  /** A row's record is in the series exactly when its date is not before the window start. */
  lemma RecordInSeries(rows: seq<Measurement>, m: Measurement)
    requires Precipitation(rows).Success? && m in rows
    ensures PrecipRecord(m.date, m.prcp) in Precipitation(rows).value
            <==> TextLe(PrecipitationStart(rows).value, m.date)
  {
    var start := PrecipitationStart(rows).value;
    if PrecipRecord(m.date, m.prcp) in Precipitation(rows).value {
      var w :| w in rows && TextLe(start, w.date) && PrecipRecord(m.date, m.prcp) == PrecipRecord(w.date, w.prcp);
    }
  }

  /** The latest date of a well-dated table is a well-formed date. */
  lemma LatestIsWellDated(rows: seq<Measurement>)
    requires WellDated(rows) && |rows| > 0
    ensures Parse(MaxDate(rows).value).Some?
  {
    var i :| 0 <= i < |rows| && rows[i].date == MaxDate(rows).value;
    assert rows[i] in rows;
  }

  predicate NoDuplicates(xs: seq<string>) {
    forall i, j :: 0 <= i < j < |xs| ==> xs[i] != xs[j]
  }

  /**
   * `.distinct()`: each value once. SQL fixes no order for the result; this
   * model keeps the order of first occurrence.
   */
  function Distinct(xs: seq<string>): (ys: seq<string>)
    ensures NoDuplicates(ys)
    ensures forall x :: x in ys <==> x in xs
  {
    if |xs| == 0 then []
    else
      var last := xs[|xs| - 1];
      var rest := Distinct(xs[..|xs| - 1]);
      assert xs == xs[..|xs| - 1] + [last];
      if last in rest then rest else rest + [last]
  }

  /** `get_stations`: the distinct station ids of the measurement rows. */
  function Stations(rows: seq<Measurement>): (ids: seq<string>)
    ensures NoDuplicates(ids)
    ensures forall s :: s in ids <==> exists m :: m in rows && m.station == s
  {
    Distinct(StationIds(rows))
  }

  /** A station with no row has count 0. */
  lemma CountAbsent(rows: seq<Measurement>, s: string)
    requires forall m :: m in rows ==> m.station != s
    ensures Count(rows, s) == 0
  {
    var w := Where(rows, StationFilter(s));
    if |w| > 0 {
      WhereMembers(rows, StationFilter(s), w[0]);
    }
  }

  /** The candidate with the largest row count, the first one among equals. */
  function ArgMaxCount(rows: seq<Measurement>, candidates: seq<string>): (best: string)
    requires |candidates| > 0
    ensures best in candidates
    ensures forall c :: c in candidates ==> Count(rows, c) <= Count(rows, best)
  {
    if |candidates| == 1 then candidates[0]
    else
      var other := ArgMaxCount(rows, candidates[1..]);
      assert candidates == [candidates[0]] + candidates[1..];
      if Count(rows, other) <= Count(rows, candidates[0]) then candidates[0] else other
  }

  /**
   * `station_counts[0][0]`: a station with the most rows. The order among
   * stations with equal counts is the database's; this model takes the first
   * in `Stations` order, and promises only maximality.
   */
  function MostActiveStation(rows: seq<Measurement>): (r: Result<string, QueryError>)
    ensures r.Failure? <==> |rows| == 0
    ensures r.Failure? ==> r.error == NoMeasurements
    ensures r.Success? ==> exists m :: m in rows && m.station == r.value
    ensures r.Success? ==> forall s :: Count(rows, s) <= Count(rows, r.value)
  {
    if |rows| == 0 then Failure(NoMeasurements)
    else
      assert rows[0] in rows;
      var ids := Stations(rows);
      var best := ArgMaxCount(rows, ids);
      assert forall s :: Count(rows, s) <= Count(rows, best) by {
        forall s ensures Count(rows, s) <= Count(rows, best) {
          if s !in ids {
            CountAbsent(rows, s);
          }
        }
      }
      Success(best)
  }

  /** 365 days before the latest date of `station`'s own rows. */
  function StationWindowStart(rows: seq<Measurement>, station: string): (r: Result<string, QueryError>)
    ensures Count(rows, station) == 0 ==> r == Failure(NoMeasurements)
    ensures r.Success? ==>
      var latest := MaxDate(Where(rows, StationFilter(station)));
      && Count(rows, station) > 0 && latest.Some? && Parse(latest.value).Some? && Parse(r.value).Some?
      && ToOrdinal(Parse(r.value).value) == ToOrdinal(Parse(latest.value).value) - WindowDays
  {
    match MaxDate(Where(rows, StationFilter(station)))
    case None => Failure(NoMeasurements)
    case Some(latest) => WindowStart(latest)
  }

  function StationFromDate(station: string, start: string): Condition {
    Condition(Some(station), Some(start), None)
  }

  /**
   * `ts` is the temperature series of `station` from `start`: one value for
   * each of the station's rows dated on or after `start`, that row's `tobs`,
   * and nothing else.
   */
  ghost predicate IsTobsSeries(ts: seq<real>, rows: seq<Measurement>, station: string, start: string) {
    && |ts| == |Where(rows, StationFromDate(station, start))|
    && (forall v :: v in ts <==> exists m :: m in rows && m.station == station && TextLe(start, m.date) && m.tobs == v)
    && (forall v :: multiset(ts)[v] ==
          |set i | 0 <= i < |rows| && rows[i].station == station && TextLe(start, rows[i].date) && rows[i].tobs == v|)
  }

  lemma StationFromDateIndices(rows: seq<Measurement>, station: string, start: string, v: real)
    ensures (set i | 0 <= i < |rows| && Matches(rows[i], StationFromDate(station, start)) && rows[i].tobs == v)
         == (set i | 0 <= i < |rows| && rows[i].station == station && TextLe(start, rows[i].date) && rows[i].tobs == v)
  {
  }

  /** The filtered `tobs` column is the station's series from `start`. */
  lemma TobsSeries(rows: seq<Measurement>, station: string, start: string)
    ensures IsTobsSeries(TobsOf(Where(rows, StationFromDate(station, start))), rows, station, start)
  {
    var c := StationFromDate(station, start);
    TobsOfWhere(rows, c);
    forall v ensures multiset(TobsOf(Where(rows, c)))[v] ==
        |set i | 0 <= i < |rows| && rows[i].station == station && TextLe(start, rows[i].date) && rows[i].tobs == v| {
      TobsCounts(rows, c, v);
      StationFromDateIndices(rows, station, start, v);
    }
  }

  /**
   * `get_tobs`: the temperatures of the most active station's rows dated on
   * or after 365 days before that station's latest date, one per row.
   */
  function Tobs(rows: seq<Measurement>): (r: Result<seq<real>, QueryError>)
    ensures |rows| == 0 ==> r == Failure(NoMeasurements)
    ensures r.Success? <==>
      MostActiveStation(rows).Success? && StationWindowStart(rows, MostActiveStation(rows).value).Success?
    ensures r.Failure? && MostActiveStation(rows).Success? ==>
      r.error == StationWindowStart(rows, MostActiveStation(rows).value).error
    ensures r.Success? ==>
      var station := MostActiveStation(rows).value;
      IsTobsSeries(r.value, rows, station, StationWindowStart(rows, station).value)
  {
    match MostActiveStation(rows)
    case Failure(e) => Failure(e)
    case Success(station) =>
      match StationWindowStart(rows, station)
      case Failure(e) => Failure(e)
      case Success(start) =>
        TobsSeries(rows, station, start);
        Success(TobsOf(Where(rows, StationFromDate(station, start))))
  }

  /** The latest date of a station's own rows, when it has any. */
  lemma StationLatest(rows: seq<Measurement>, station: string)
    requires MaxDate(Where(rows, StationFilter(station))).Some?
    ensures var latest := MaxDate(Where(rows, StationFilter(station))).value;
      && (exists m :: m in rows && m.station == station && m.date == latest)
      && (forall m :: m in rows && m.station == station ==> TextLe(m.date, latest))
      && TextLe(latest, MaxDate(rows).value)
  {
    var own := Where(rows, StationFilter(station));
    var latest := MaxDate(own).value;
    var i :| 0 <= i < |own| && own[i].date == latest;
    var w := own[i];
    WhereMembers(rows, StationFilter(station), w);
    var k :| 0 <= k < |rows| && rows[k] == w;
    forall m | m in rows && m.station == station
      ensures TextLe(m.date, latest)
    {
      WhereMembers(rows, StationFilter(station), m);
      var j :| 0 <= j < |own| && own[j] == m;
    }
  }

  /**
   * The tobs window is anchored on the station's own latest date: a date of
   * one of its rows that none of its rows exceeds, and that is no later than
   * the latest date of the whole table.
   */
  lemma StationWindowAnchor(rows: seq<Measurement>, station: string)
    requires StationWindowStart(rows, station).Success?
    ensures exists latest ::
      && (exists m :: m in rows && m.station == station && m.date == latest)
      && (forall m :: m in rows && m.station == station ==> TextLe(m.date, latest))
      && TextLe(latest, MaxDate(rows).value)
      && WindowStart(latest) == StationWindowStart(rows, station)
  {
    StationLatest(rows, station);
  }

  /**
   * The most active station of a non-empty table has rows of its own, so the
   * tobs window fails only where the window start itself does.
   */
  lemma ActiveStationWindow(rows: seq<Measurement>)
    requires |rows| > 0
    ensures var station := MostActiveStation(rows).value;
      && MaxDate(Where(rows, StationFilter(station))).Some?
      && StationWindowStart(rows, station) == WindowStart(MaxDate(Where(rows, StationFilter(station))).value)
  {
    var station := MostActiveStation(rows).value;
    var m :| m in rows && m.station == station;
    WhereMembers(rows, StationFilter(station), m);
  }
}
