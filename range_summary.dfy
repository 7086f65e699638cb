/**
 * The two range routes: SQL `MIN`, `MAX` and `AVG` of `tobs` over the rows
 * dated from `start` on (and up to `end`), with dates compared as text and
 * not checked. No matching row makes all three NULL.
 */
module RangeSummary {
  import opened Wrappers
  import opened TextOrder
  import opened Measurements

  function Minimum(xs: seq<real>): (lo: real)
    requires |xs| > 0
    ensures lo in xs
    ensures forall x :: x in xs ==> lo <= x
  {
    if |xs| == 1 then xs[0]
    else
      var rest := Minimum(xs[1..]);
      assert xs == [xs[0]] + xs[1..];
      if xs[0] <= rest then xs[0] else rest
  }

  function Maximum(xs: seq<real>): (hi: real)
    requires |xs| > 0
    ensures hi in xs
    ensures forall x :: x in xs ==> x <= hi
  {
    if |xs| == 1 then xs[0]
    else
      var rest := Maximum(xs[1..]);
      assert xs == [xs[0]] + xs[1..];
      if rest <= xs[0] then xs[0] else rest
  }

  function Sum(xs: seq<real>): real {
    if |xs| == 0 then 0.0 else xs[0] + Sum(xs[1..])
  }

  /** A sum of values between `lo` and `hi` lies between `n * lo` and `n * hi`. */
  lemma {:induction false} SumBounds(xs: seq<real>, lo: real, hi: real)
    requires forall x :: x in xs ==> lo <= x <= hi
    ensures |xs| as real * lo <= Sum(xs) <= |xs| as real * hi
  {
    if |xs| > 0 {
      assert xs[0] in xs;
      assert forall x :: x in xs[1..] ==> x in xs;
      SumBounds(xs[1..], lo, hi);
    }
  }

  lemma QuotientBounds(s: real, n: real, lo: real, hi: real)
    requires 0.0 < n && n * lo <= s <= n * hi
    ensures lo <= s / n <= hi
  {
    var q := s / n;
    assert q * n == s;
  }

  /** The exact mean of a non-empty list (`AVG`; floating-point rounding is not modelled). */
  function Mean(xs: seq<real>): (m: real)
    requires |xs| > 0
    ensures m * |xs| as real == Sum(xs)
    ensures Minimum(xs) <= m <= Maximum(xs)
  {
    SumBounds(xs, Minimum(xs), Maximum(xs));
    QuotientBounds(Sum(xs), |xs| as real, Minimum(xs), Maximum(xs));
    Sum(xs) / |xs| as real
  }

  /**
   * The one row of `query(func.min(tobs), func.max(tobs), func.avg(tobs))`:
   * column 0 is the minimum, 1 the maximum, 2 the average.
   */
  function Aggregate(rows: seq<Measurement>, c: Condition): (row: (Option<real>, Option<real>, Option<real>))
    ensures row.0.None? <==> |Where(rows, c)| == 0
    ensures row.1.None? <==> row.0.None?
    ensures row.2.None? <==> row.0.None?
    ensures row.0.Some? ==> row.0.value in TobsOf(Where(rows, c)) && row.1.value in TobsOf(Where(rows, c))
    ensures row.0.Some? ==> row.0.value <= row.2.value <= row.1.value
  {
    var ts := TobsOf(Where(rows, c));
    if |ts| == 0 then (None, None, None)
    else (Some(Minimum(ts)), Some(Maximum(ts)), Some(Mean(ts)))
  }

  /** The response object `{"TMIN": ..., "TAVG": ..., "TMAX": ...}`. */
  datatype Summary = Summary(tmin: Option<real>, tavg: Option<real>, tmax: Option<real>)

  /** `TMIN` from column 0, `TAVG` from column 2, `TMAX` from column 1. */
  function Summarize(row: (Option<real>, Option<real>, Option<real>)): (s: Summary)
    ensures s.tmin == row.0 && s.tmax == row.1 && s.tavg == row.2
  {
    Summary(row.0, row.2, row.1)
  }

  /**
   * `s` is the temperature summary of the rows matching `c`: all NULL when
   * none matches; otherwise TMIN <= TAVG <= TMAX, TMIN and TMAX each the tobs
   * of a matching row, every matching row's tobs between them, and TAVG
   * the mean of the matching temperatures.
   */
  predicate Summarizes(s: Summary, rows: seq<Measurement>, c: Condition) {
    && (s.tmin.None? <==> !exists m :: m in rows && Matches(m, c))
    && (s.tavg.None? <==> s.tmin.None?)
    && (s.tmax.None? <==> s.tmin.None?)
    && (s.tmin.Some? ==> s.tavg.Some? && s.tmax.Some? && s.tmin.value <= s.tavg.value <= s.tmax.value)
    && (s.tmin.Some? ==> exists m :: m in rows && Matches(m, c) && m.tobs == s.tmin.value)
    && (s.tmax.Some? ==> exists m :: m in rows && Matches(m, c) && m.tobs == s.tmax.value)
    && (forall m :: m in rows && Matches(m, c) ==> s.tmin.Some? && s.tmax.Some? && s.tmin.value <= m.tobs <= s.tmax.value)
    && (s.tavg.Some? ==> |TobsOf(Where(rows, c))| > 0 && s.tavg.value == Mean(TobsOf(Where(rows, c))))
  }

  lemma AggregateSummarizes(rows: seq<Measurement>, c: Condition)
    ensures Summarizes(Summarize(Aggregate(rows, c)), rows, c)
  {
    var matched := Where(rows, c);
    if |matched| == 0 {
      forall m | m in rows ensures !Matches(m, c) {
        WhereMembers(rows, c, m);
      }
    } else {
      SomeMatchSummarizes(rows, c);
    }
  }

  /** With a matching row, the aggregate is attained, bounds every match and averages them. */
  lemma SomeMatchSummarizes(rows: seq<Measurement>, c: Condition)
    requires |Where(rows, c)| > 0
    ensures Summarizes(Summarize(Aggregate(rows, c)), rows, c)
  {
    var matched := Where(rows, c);
    var ts := TobsOf(matched);
    WhereMembers(rows, c, matched[0]);
    TobsOfWhere(rows, c);
    forall m | m in rows && Matches(m, c) ensures Minimum(ts) <= m.tobs <= Maximum(ts) {
      assert m.tobs in ts;
    }
  }

  function Between(start: string, end: string): Condition {
    Condition(None, Some(start), Some(end))
  }

  /** `get_start`: the summary of the rows with `date >= start`. */
  function GetStart(rows: seq<Measurement>, start: string): (s: Summary)
    ensures Summarizes(s, rows, FromDate(start))
  {
    AggregateSummarizes(rows, FromDate(start));
    Summarize(Aggregate(rows, FromDate(start)))
  }

  /** `get_start_end`: the summary of the rows with `start <= date <= end`. */
  function GetStartEnd(rows: seq<Measurement>, start: string, end: string): (s: Summary)
    ensures Summarizes(s, rows, Between(start, end))
  {
    AggregateSummarizes(rows, Between(start, end));
    Summarize(Aggregate(rows, Between(start, end)))
  }

  lemma {:induction false} WhereAgrees(rows: seq<Measurement>, c: Condition, d: Condition)
    requires forall m :: m in rows ==> (Matches(m, c) <==> Matches(m, d))
    ensures Where(rows, c) == Where(rows, d)
  {
    if |rows| > 0 {
      assert rows[0] in rows;
      assert forall m :: m in rows[1..] ==> m in rows;
      WhereAgrees(rows[1..], c, d);
    }
  }

  /** The start-only route is the start/end route with an end no row's date exceeds. */
  lemma StartIsUnboundedRange(rows: seq<Measurement>, start: string, end: string)
    requires forall m :: m in rows ==> TextLe(m.date, end)
    ensures GetStart(rows, start) == GetStartEnd(rows, start, end)
  {
    WhereAgrees(rows, FromDate(start), Between(start, end));
  }

  /** A range that one row matches reports that row's temperature three times. */
  lemma SingleMatch(rows: seq<Measurement>, start: string, end: string)
    requires |Where(rows, Between(start, end))| == 1
    ensures var t := Where(rows, Between(start, end))[0].tobs;
      GetStartEnd(rows, start, end) == Summary(Some(t), Some(t), Some(t))
  {
    var ts := TobsOf(Where(rows, Between(start, end)));
    assert Sum(ts) == ts[0];
  }

  /** A table of one row, queried from its date to its date, reports its temperature. */
  lemma OneRowRoundTrip(m: Measurement)
    ensures GetStartEnd([m], m.date, m.date) == Summary(Some(m.tobs), Some(m.tobs), Some(m.tobs))
  {
    TextLeReflexive(m.date);
    assert Matches(m, Between(m.date, m.date));
    SingleMatch([m], m.date, m.date);
  }

  /** Widening `[start, end]` never raises TMIN and never lowers TMAX. */
  lemma WiderRange(rows: seq<Measurement>, start: string, end: string, start': string, end': string)
    requires TextLe(start', start) && TextLe(end, end')
    requires GetStartEnd(rows, start, end).tmin.Some?
    ensures var narrow, wide := GetStartEnd(rows, start, end), GetStartEnd(rows, start', end');
      && wide.tmin.Some? && wide.tmax.Some? && narrow.tmax.Some?
      && wide.tmin.value <= narrow.tmin.value
      && narrow.tmax.value <= wide.tmax.value
  {
    var narrow := GetStartEnd(rows, start, end);
    var lo :| lo in rows && Matches(lo, Between(start, end)) && lo.tobs == narrow.tmin.value;
    var hi :| hi in rows && Matches(hi, Between(start, end)) && hi.tobs == narrow.tmax.value;
    TextLeTransitive(start', start, lo.date);
    TextLeTransitive(lo.date, end, end');
    TextLeTransitive(start', start, hi.date);
    TextLeTransitive(hi.date, end, end');
    assert Matches(lo, Between(start', end')) && Matches(hi, Between(start', end'));
  }

  /** Moving the start earlier on the start-only route never raises TMIN and never lowers TMAX. */
  lemma EarlierStart(rows: seq<Measurement>, start: string, start': string)
    requires TextLe(start', start)
    requires GetStart(rows, start).tmin.Some?
    ensures var narrow, wide := GetStart(rows, start), GetStart(rows, start');
      && wide.tmin.Some? && wide.tmax.Some? && narrow.tmax.Some?
      && wide.tmin.value <= narrow.tmin.value
      && narrow.tmax.value <= wide.tmax.value
  {
    var narrow := GetStart(rows, start);
    var lo :| lo in rows && Matches(lo, FromDate(start)) && lo.tobs == narrow.tmin.value;
    var hi :| hi in rows && Matches(hi, FromDate(start)) && hi.tobs == narrow.tmax.value;
    TextLeTransitive(start', start, lo.date);
    TextLeTransitive(start', start, hi.date);
    assert Matches(lo, FromDate(start')) && Matches(hi, FromDate(start'));
  }
}
