/**
 * The measurement table and the three SQL building blocks the routes use on
 * it: a WHERE filter, MAX(date) and a per-station row count.
 */
module Measurements {
  import opened Wrappers
  import opened TextOrder

  /** One row of `measurement`; `prcp` may be NULL, `date` is TEXT. */
  datatype Measurement = Measurement(station: string, date: string, prcp: Option<real>, tobs: real)

  /**
   * The conjunction of the filters the routes pass to `.filter(...)`:
   * `station == s`, `date >= from` and `date <= to`, each optional.
   */
  datatype Condition = Condition(station: Option<string>, from: Option<string>, to: Option<string>)

  predicate Matches(m: Measurement, c: Condition) {
    && (c.station.None? || m.station == c.station.value)
    && (c.from.None? || TextLe(c.from.value, m.date))
    && (c.to.None? || TextLe(m.date, c.to.value))
  }

  /** The rows satisfying `c`, each as often as it occurs in the table, in table order. */
  function Where(rows: seq<Measurement>, c: Condition): (r: seq<Measurement>)
    ensures |r| <= |rows|
    ensures forall i :: 0 <= i < |r| ==> Matches(r[i], c)
  {
    if |rows| == 0 then []
    else (if Matches(rows[0], c) then [rows[0]] else []) + Where(rows[1..], c)
  }

  /** `Where` keeps exactly the matching rows, with their multiplicities. */
  lemma {:induction false} WhereCounts(rows: seq<Measurement>, c: Condition)
    ensures forall m :: multiset(Where(rows, c))[m] == if Matches(m, c) then multiset(rows)[m] else 0
  {
    if |rows| > 0 {
      assert rows == [rows[0]] + rows[1..];
      WhereCounts(rows[1..], c);
    }
  }

  /** Filtering a table with one more row at the end adds that row if it matches. */
  lemma {:induction false} WhereAppend(rows: seq<Measurement>, m: Measurement, c: Condition)
    ensures Where(rows + [m], c) == Where(rows, c) + (if Matches(m, c) then [m] else [])
    decreases |rows|
  {
    if |rows| == 0 {
      assert [m][1..] == [];
    } else {
      assert (rows + [m])[1..] == rows[1..] + [m];
      WhereAppend(rows[1..], m, c);
    }
  }

  /** Filtering a non-empty table filters all but its last row, then adds the last row if it matches. */
  lemma WhereLast(rows: seq<Measurement>, c: Condition)
    requires |rows| > 0
    ensures var init, last := rows[..|rows| - 1], rows[|rows| - 1];
      Where(rows, c) == Where(init, c) + (if Matches(last, c) then [last] else [])
  {
    assert rows == rows[..|rows| - 1] + [rows[|rows| - 1]];
    WhereAppend(rows[..|rows| - 1], rows[|rows| - 1], c);
  }

  /** A row is in the result of `Where` exactly when it is in the table and matches. */
  lemma WhereMembers(rows: seq<Measurement>, c: Condition, m: Measurement)
    ensures m in Where(rows, c) <==> m in rows && Matches(m, c)
  {
    WhereCounts(rows, c);
    assert m in Where(rows, c) <==> multiset(Where(rows, c))[m] > 0;
  }

  /** `func.max(measurement.date)` over `rows`: the text-wise latest date, NULL when there is no row. */
  function MaxDate(rows: seq<Measurement>): (r: Option<string>)
    ensures r.None? <==> |rows| == 0
    ensures r.Some? ==> exists i :: 0 <= i < |rows| && rows[i].date == r.value
    ensures r.Some? ==> forall i :: 0 <= i < |rows| ==> TextLe(rows[i].date, r.value)
  {
    if |rows| == 0 then None
    else
      match MaxDate(rows[1..])
      case None => TextLeReflexive(rows[0].date); Some(rows[0].date)
      case Some(rest) =>
        TextLeTotal(rows[0].date, rest);
        assert forall i :: 1 <= i < |rows| ==> rows[i] == rows[1..][i - 1];
        if TextLe(rows[0].date, rest) then Some(rest)
        else
          assert forall i :: 1 <= i < |rows| ==> TextLe(rows[i].date, rows[0].date) by {
            forall i | 1 <= i < |rows| ensures TextLe(rows[i].date, rows[0].date) {
              TextLeTransitive(rows[i].date, rest, rows[0].date);
            }
          }
          TextLeReflexive(rows[0].date);
          Some(rows[0].date)
  }

  function StationFilter(station: string): Condition {
    Condition(Some(station), None, None)
  }

  function FromDate(start: string): Condition {
    Condition(None, Some(start), None)
  }

  /** `query(measurement.station)`: the station column, one id per row. */
  function StationIds(rows: seq<Measurement>): (ids: seq<string>)
    ensures |ids| == |rows|
    ensures forall s :: s in ids <==> exists m :: m in rows && m.station == s
  {
    var ids := seq(|rows|, i requires 0 <= i < |rows| => rows[i].station);
    assert forall s :: s in ids <==> exists m :: m in rows && m.station == s by {
      forall s ensures s in ids <==> exists m :: m in rows && m.station == s {
        if m :| m in rows && m.station == s {
          var i :| 0 <= i < |rows| && rows[i] == m;
          assert ids[i] == s;
        }
        if s in ids {
          var i :| 0 <= i < |ids| && ids[i] == s;
          assert rows[i] in rows;
        }
      }
    }
    ids
  }

  /** The rows of a station are as many as the times its id occurs in the station column. */
  lemma {:induction false} CountOccurrences(rows: seq<Measurement>, station: string)
    ensures |Where(rows, StationFilter(station))| == multiset(StationIds(rows))[station]
  {
    if |rows| > 0 {
      assert StationIds(rows) == [rows[0].station] + StationIds(rows[1..]);
      CountOccurrences(rows[1..], station);
    }
  }

  /** `func.count(measurement.id)` grouped by station: the number of rows of `station`. */
  function Count(rows: seq<Measurement>, station: string): (n: nat)
    ensures n <= |rows|
    ensures n == multiset(StationIds(rows))[station]
  {
    CountOccurrences(rows, station);
    |Where(rows, StationFilter(station))|
  }

  /** A station occurring in the table has at least one row. */
  lemma CountPositive(rows: seq<Measurement>, m: Measurement)
    requires m in rows
    ensures Count(rows, m.station) > 0
  {
    WhereMembers(rows, StationFilter(m.station), m);
  }

  /** The `tobs` column, row by row. */
  function TobsOf(rows: seq<Measurement>): (ts: seq<real>)
    ensures |ts| == |rows|
    ensures forall m :: m in rows ==> m.tobs in ts
    ensures forall v :: v in ts ==> exists m :: m in rows && m.tobs == v
  {
    var ts := seq(|rows|, i requires 0 <= i < |rows| => rows[i].tobs);
    assert forall m :: m in rows ==> m.tobs in ts by {
      forall m | m in rows ensures m.tobs in ts {
        var i :| 0 <= i < |rows| && rows[i] == m;
        assert ts[i] == m.tobs;
      }
    }
    assert forall v :: v in ts ==> exists m :: m in rows && m.tobs == v by {
      forall v | v in ts ensures exists m :: m in rows && m.tobs == v {
        var i :| 0 <= i < |ts| && ts[i] == v;
        assert rows[i] in rows;
      }
    }
    ts
  }

  /** The temperatures of the filtered rows are exactly those of the rows that match. */
  lemma TobsOfWhere(rows: seq<Measurement>, c: Condition)
    ensures forall v :: v in TobsOf(Where(rows, c)) <==> exists m :: m in rows && Matches(m, c) && m.tobs == v
  {
    var matched := Where(rows, c);
    var ts := TobsOf(matched);
    forall v ensures v in ts <==> exists m :: m in rows && Matches(m, c) && m.tobs == v {
      if v in ts {
        var i :| 0 <= i < |ts| && ts[i] == v;
        WhereMembers(rows, c, matched[i]);
      }
      if m :| m in rows && Matches(m, c) && m.tobs == v {
        WhereMembers(rows, c, m);
        var i :| 0 <= i < |matched| && matched[i] == m;
        assert ts[i] == v;
      }
    }
  }

  lemma TobsOfAppend(a: seq<Measurement>, b: seq<Measurement>)
    ensures TobsOf(a + b) == TobsOf(a) + TobsOf(b)
  {
  }

  /** The matching rows of a table are those of all but its last row, and the last row if it matches. */
  lemma TobsIndicesStep(rows: seq<Measurement>, c: Condition, v: real)
    requires |rows| > 0
    ensures var init, last := rows[..|rows| - 1], rows[|rows| - 1];
      |set i | 0 <= i < |rows| && Matches(rows[i], c) && rows[i].tobs == v|
      == |set i | 0 <= i < |init| && Matches(init[i], c) && init[i].tobs == v|
         + if Matches(last, c) && last.tobs == v then 1 else 0
  {
    var init, last := rows[..|rows| - 1], rows[|rows| - 1];
    var all := set i | 0 <= i < |rows| && Matches(rows[i], c) && rows[i].tobs == v;
    var before := set i | 0 <= i < |init| && Matches(init[i], c) && init[i].tobs == v;
    if Matches(last, c) && last.tobs == v {
      assert all == before + {|init|};
    } else {
      assert all == before;
    }
  }

  /** The filtered column of a table is that of all but its last row, and the last row's value if it matches. */
  lemma TobsWhereStep(rows: seq<Measurement>, c: Condition, v: real)
    requires |rows| > 0
    ensures var init, last := rows[..|rows| - 1], rows[|rows| - 1];
      multiset(TobsOf(Where(rows, c)))[v]
      == multiset(TobsOf(Where(init, c)))[v] + if Matches(last, c) && last.tobs == v then 1 else 0
  {
    var init, last := rows[..|rows| - 1], rows[|rows| - 1];
    var tail := if Matches(last, c) then [last] else [];
    WhereLast(rows, c);
    TobsOfAppend(Where(init, c), tail);
    assert multiset(TobsOf(tail))[v] == if Matches(last, c) && last.tobs == v then 1 else 0;
  }

  /**
   * Each temperature occurs in the filtered column once per matching row
   * that has it.
   */
  lemma {:induction false} TobsCounts(rows: seq<Measurement>, c: Condition, v: real)
    ensures multiset(TobsOf(Where(rows, c)))[v] == |set i | 0 <= i < |rows| && Matches(rows[i], c) && rows[i].tobs == v|
    decreases |rows|
  {
    if |rows| > 0 {
      TobsWhereStep(rows, c, v);
      TobsCounts(rows[..|rows| - 1], c, v);
      TobsIndicesStep(rows, c, v);
    }
  }
}
