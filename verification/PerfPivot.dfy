/**
 * The two pivots of perf's long rows: by event for the analysis, by time for the feature table.
 * Values are exact reals; derived ratios are taken before rounding.
 */
module PerfPivot {
  import opened Wrappers
  import opened Sequences
  import Sorting

  /** One long row after parsing; a field that is no number is None. */
  datatype Row = Row(time: Option<real>, event: string, value: Option<real>)

  datatype Point = Point(t: real, v: real)

  // ----- By event: load_perf_wide

  predicate Valid(r: Row) {
    r.time.Some? && r.value.Some? && r.event != ""
  }

  /** The points of one event, in row order. */
  function PointsOf(rows: seq<Row>, event: string): seq<Point> {
    if rows == [] then []
    else
      var n := |rows| - 1;
      PointsOf(rows[..n], event)
      + if Valid(rows[n]) && rows[n].event == event then [Point(rows[n].time.value, rows[n].value.value)] else []
  }

  /** Python's order on (t, v) tuples. */
  predicate AtMost(p: Point, q: Point) {
    p.t < q.t || (p.t == q.t && p.v <= q.v)
  }

  ghost predicate Sorted(pts: seq<Point>) {
    forall i, j :: 0 <= i < j < |pts| ==> AtMost(pts[i], pts[j])
  }

  lemma AtMostIsOrder()
    ensures Sorting.TotalPreorder(AtMost)
  {
  }

  /** pts.sort() */
  function SortPoints(pts: seq<Point>): (r: seq<Point>)
    ensures multiset(r) == multiset(pts) && Sorted(r)
  {
    AtMostIsOrder();
    Sorting.SortSorts(pts, AtMost);
    Sorting.SortBy(pts, AtMost)
  }

  function PointsIn(series: map<string, seq<Point>>, event: string): seq<Point> {
    if event in series then series[event] else []
  }

  lemma PointsSoFar(rows: seq<Row>, i: nat, event: string)
    requires i <= |rows|
    ensures i == 0 ==> PointsOf(rows[..i], event) == []
    ensures i > 0 ==>
              PointsOf(rows[..i], event)
              == if Valid(rows[i - 1]) && rows[i - 1].event == event
                 then PointsOf(rows[..i - 1], event) + [Point(rows[i - 1].time.value, rows[i - 1].value.value)]
                 else PointsOf(rows[..i - 1], event)
  {
    assert i > 0 ==> rows[..i][..i - 1] == rows[..i - 1];
  }

  /** Every event with a valid row gets the sorted series of its points, and no other event a key. */
  method GroupByEvent(rows: seq<Row>) returns (out: map<string, seq<Point>>)
    ensures forall ev :: ev in out <==> PointsOf(rows, ev) != []
    ensures forall ev :: ev in out ==> out[ev] == SortPoints(PointsOf(rows, ev))
  {
    hide SortPoints, PointsOf;
    var series: map<string, seq<Point>> := map[];
    forall ev ensures PointsOf(rows[..0], ev) == [] { PointsSoFar(rows, 0, ev); }
    for i := 0 to |rows|
      invariant forall ev :: ev in series ==> series[ev] != []
      invariant forall ev :: PointsIn(series, ev) == PointsOf(rows[..i], ev)
    {
      forall ev
        ensures PointsOf(rows[..i + 1], ev)
                == if Valid(rows[i]) && rows[i].event == ev
                   then PointsIn(series, ev) + [Point(rows[i].time.value, rows[i].value.value)]
                   else PointsIn(series, ev)
      {
        PointsSoFar(rows, i + 1, ev);
      }
      var r := rows[i];
      if r.time.None? || r.value.None? || r.event == "" { continue; }
      var pts := if r.event in series then series[r.event] else [];
      series := series[r.event := pts + [Point(r.time.value, r.value.value)]];
    }
    assert rows[..|rows|] == rows;
    assert forall ev :: ev in series <==> PointsIn(series, ev) != [];
    assert forall ev :: ev in series ==> series[ev] == PointsIn(series, ev);
    out := map ev | ev in series :: SortPoints(series[ev]);
  }

  // ----- By time: the embedded pivot of fc_ml_metrics.sh

  /** replace("-", "_") */
  function Underscored(s: string): (r: string)
    ensures |r| == |s| && forall i :: 0 <= i < |s| ==> r[i] == if s[i] == '-' then '_' else s[i]
  {
    seq(|s|, i requires 0 <= i < |s| => if s[i] == '-' then '_' else s[i])
  }

  type Cells = map<string, Option<real>>

  /** The cell a list of rows leaves at (t, key): the value of the last row that hits it. */
  function CellOf(rows: seq<Row>, t: real, key: string): Option<Option<real>> {
    if rows == [] then None
    else
      var r := rows[|rows| - 1];
      if r.time == Some(t) && Underscored(r.event) == key then Some(r.value)
      else CellOf(rows[..|rows| - 1], t, key)
  }

  function Lookup(byTime: map<real, Cells>, t: real, key: string): Option<Option<real>> {
    if t in byTime && key in byTime[t] then Some(byTime[t][key]) else None
  }

  method GroupByTime(rows: seq<Row>) returns (byTime: map<real, Cells>)
    ensures byTime.Keys == set r | r in rows && r.time.Some? :: r.time.value
    ensures forall t, key :: Lookup(byTime, t, key) == CellOf(rows, t, key)
  {
    byTime := map[];
    for i := 0 to |rows|
      invariant byTime.Keys == set r | r in rows[..i] && r.time.Some? :: r.time.value
      invariant forall t, key :: Lookup(byTime, t, key) == CellOf(rows[..i], t, key)
    {
      assert rows[..i + 1][..i] == rows[..i] && rows[..i + 1] == rows[..i] + [rows[i]];
      var r := rows[i];
      if r.time.None? { continue; }
      var t := r.time.value;
      var cells: Cells := if t in byTime then byTime[t] else map[];
      byTime := byTime[t := cells[Underscored(r.event) := r.value]];
    }
    assert rows[..|rows|] == rows;
  }

  // ----- The pivots are transposes

  /** At most one row per time and event. */
  ghost predicate OneRowPerCell(rows: seq<Row>) {
    forall i, j :: 0 <= i < j < |rows| && rows[i].time.Some? && rows[i].time == rows[j].time ==>
      rows[i].event != rows[j].event
  }

  /** The row goes into a cell of the wide table under a name. */
  predicate Named(r: Row) {
    r.time.Some? && r.event != ""
  }

  /** No two recorded events fall together when dashes become underscores. */
  ghost predicate DistinctKeys(rows: seq<Row>) {
    forall i, j :: 0 <= i < |rows| && 0 <= j < |rows| && Named(rows[i]) && Named(rows[j])
                   && Underscored(rows[i].event) == Underscored(rows[j].event) ==>
      rows[i].event == rows[j].event
  }

  /** Names without an underscore never fall together, which covers every event list of the script. */
  lemma DashesOnlyDistinct(rows: seq<Row>)
    requires forall i :: 0 <= i < |rows| ==> '_' !in rows[i].event
    ensures DistinctKeys(rows)
  {
    forall i, j | 0 <= i < |rows| && 0 <= j < |rows| && Underscored(rows[i].event) == Underscored(rows[j].event)
      ensures rows[i].event == rows[j].event
    {
      SameWithoutUnderscores(rows[i].event, rows[j].event);
    }
  }

  lemma SameWithoutUnderscores(a: string, b: string)
    requires '_' !in a && '_' !in b && Underscored(a) == Underscored(b)
    ensures a == b
  {
    assert |a| == |Underscored(a)| == |b|;
    forall i | 0 <= i < |a| ensures a[i] == b[i] {
      assert Underscored(a)[i] == Underscored(b)[i];
      assert a[i] in a && b[i] in b;
    }
  }

  lemma {:induction false} PointsAreRows(rows: seq<Row>, event: string, p: Point)
    ensures p in PointsOf(rows, event) <==> event != "" && Row(Some(p.t), event, Some(p.v)) in rows
  {
    if rows != [] {
      var n := |rows| - 1;
      PointsAreRows(rows[..n], event, p);
      assert rows == rows[..n] + [rows[n]];
    }
  }

  predicate Hits(r: Row, t: real, key: string) {
    r.time == Some(t) && Underscored(r.event) == key
  }

  /** A cell that is hit holds the value of the last row that hits it. */
  lemma {:induction false} LastHit(rows: seq<Row>, t: real, key: string) returns (k: nat)
    requires exists i :: 0 <= i < |rows| && Hits(rows[i], t, key)
    ensures k < |rows| && Hits(rows[k], t, key) && CellOf(rows, t, key) == Some(rows[k].value)
    ensures forall i :: 0 <= i < |rows| && Hits(rows[i], t, key) ==> i <= k
  {
    k := |rows| - 1;
    if !Hits(rows[k], t, key) {
      var i :| 0 <= i < |rows| && Hits(rows[i], t, key);
      assert rows[..k][i] == rows[i];
      var n := k;
      k := LastHit(rows[..n], t, key);
      assert forall i :: 0 <= i < n ==> rows[..n][i] == rows[i];
    }
  }

  lemma {:induction false} NoHit(rows: seq<Row>, t: real, key: string)
    requires forall i :: 0 <= i < |rows| ==> !Hits(rows[i], t, key)
    ensures CellOf(rows, t, key) == None
  {
    if rows != [] {
      NoHit(rows[..|rows| - 1], t, key);
    }
  }

  /** The cells of an event that row w records hold its values and no others. */
  lemma CellsAreRows(rows: seq<Row>, t: real, w: nat, v: real)
    requires OneRowPerCell(rows) && DistinctKeys(rows) && w < |rows| && Named(rows[w])
    ensures CellOf(rows, t, Underscored(rows[w].event)) == Some(Some(v)) <==> Row(Some(t), rows[w].event, Some(v)) in rows
  {
    var event := rows[w].event;
    if exists i :: 0 <= i < |rows| && Hits(rows[i], t, Underscored(event)) {
      var k := LastHit(rows, t, Underscored(event));
      assert |rows[k].event| == |Underscored(rows[k].event)| == |event|;
      assert rows[k].event == event;
      if Row(Some(t), event, Some(v)) in rows {
        var i :| 0 <= i < |rows| && rows[i] == Row(Some(t), event, Some(v));
        assert i <= k;
      }
    } else {
      NoHit(rows, t, Underscored(event));
      assert forall i :: 0 <= i < |rows| ==> !Hits(rows[i], t, Underscored(event));
    }
  }

  /**
   * Transposition: with at most one row per time and event, a point is in an event's series
   * exactly when the wide row of its time holds its value for that event.
   */
  lemma PivotsAreTransposes(rows: seq<Row>, byEvent: map<string, seq<Point>>, byTime: map<real, Cells>,
      event: string, t: real, v: real)
    requires OneRowPerCell(rows) && DistinctKeys(rows)
    requires event in byEvent && PointsOf(rows, event) != []
    requires byEvent[event] == SortPoints(PointsOf(rows, event))
    requires forall t, key :: Lookup(byTime, t, key) == CellOf(rows, t, key)
    ensures Point(t, v) in byEvent[event] <==> Lookup(byTime, t, Underscored(event)) == Some(Some(v))
  {
    TransposedAt(rows, event, t, v);
  }

  /** What load_perf_wide keeps of an event. */
  function Series(rows: seq<Row>, event: string): seq<Point> {
    SortPoints(PointsOf(rows, event))
  }

  lemma SeriesHas(rows: seq<Row>, event: string, p: Point)
    ensures p in Series(rows, event) <==> event != "" && Row(Some(p.t), event, Some(p.v)) in rows
  {
    PointsAreRows(rows, event, p);
    assert p in Series(rows, event) <==> p in multiset(Series(rows, event));
    assert p in PointsOf(rows, event) <==> p in multiset(PointsOf(rows, event));
  }

  lemma RecordedIn(rows: seq<Row>, event: string) returns (w: nat)
    requires PointsOf(rows, event) != []
    ensures w < |rows| && Named(rows[w]) && rows[w].event == event
  {
    var p := PointsOf(rows, event)[0];
    PointsAreRows(rows, event, p);
    w :| 0 <= w < |rows| && rows[w] == Row(Some(p.t), event, Some(p.v));
  }

  lemma TransposedAt(rows: seq<Row>, event: string, t: real, v: real)
    requires OneRowPerCell(rows) && DistinctKeys(rows) && PointsOf(rows, event) != []
    ensures Point(t, v) in Series(rows, event) <==> CellOf(rows, t, Underscored(event)) == Some(Some(v))
  {
    var w := RecordedIn(rows, event);
    CellsAreRows(rows, t, w, v);
    SeriesHas(rows, event, Point(t, v));
  }

  // ----- Exactly when the pivots are transposes, and exactly when no row is lost

  /** The two pivots of these rows say the same of every event that has a series. */
  ghost predicate Transposed(rows: seq<Row>) {
    forall event, t, v :: PointsOf(rows, event) != [] ==>
      (Point(t, v) in Series(rows, event) <==> CellOf(rows, t, Underscored(event)) == Some(Some(v)))
  }

  /** The same rows with other values. */
  ghost predicate SameCells(rows: seq<Row>, other: seq<Row>) {
    |rows| == |other|
    && forall i :: 0 <= i < |rows| ==> other[i].time == rows[i].time && other[i].event == rows[i].event
  }

  ghost predicate AlwaysTransposed(rows: seq<Row>) {
    forall other :: SameCells(rows, other) ==> Transposed(other)
  }

  /** Row i measures i. */
  function Numbered(rows: seq<Row>): (r: seq<Row>)
    ensures |r| == |rows|
    ensures forall i :: 0 <= i < |r| ==> r[i] == Row(rows[i].time, rows[i].event, Some(i as real))
  {
    seq(|rows|, i requires 0 <= i < |rows| => Row(rows[i].time, rows[i].event, Some(i as real)))
  }

  /** The row a value of the numbered rows comes from. */
  lemma NumberedRow(rows: seq<Row>, t: real, event: string, k: nat)
    requires k < |rows| && Row(Some(t), event, Some(k as real)) in Numbered(rows)
    ensures rows[k].event == event
  {
    var i :| 0 <= i < |rows| && Numbered(rows)[i] == Row(Some(t), event, Some(k as real));
    assert i as real == k as real;
  }

  lemma {:induction false} RecordedHasPoints(rows: seq<Row>, i: nat)
    requires i < |rows| && Valid(rows[i])
    ensures PointsOf(rows, rows[i].event) != []
  {
    PointsAreRows(rows, rows[i].event, Point(rows[i].time.value, rows[i].value.value));
    assert rows[i] == Row(Some(rows[i].time.value), rows[i].event, Some(rows[i].value.value));
  }

  /** Two events under one key give one of them a cell that is not in its series. */
  lemma SharedKeyBreaks(rows: seq<Row>, i: nat, j: nat)
    requires i < |rows| && j < |rows| && Named(rows[i]) && Named(rows[j]) && rows[i].event != rows[j].event
    requires Underscored(rows[i].event) == Underscored(rows[j].event)
    ensures !Transposed(Numbered(rows))
  {
    var all, key, t := Numbered(rows), Underscored(rows[i].event), rows[i].time.value;
    assert Hits(all[i], t, key);
    var k := LastHit(all, t, key);
    var other := if all[k].event == rows[i].event then j else i;
    RecordedHasPoints(all, other);
    var event := all[other].event;
    assert event != rows[k].event;
    if Point(t, k as real) in Series(all, event) {
      SeriesHas(all, event, Point(t, k as real));
      NumberedRow(rows, t, event, k);
      assert false;
    }
    assert CellOf(all, t, Underscored(event)) == Some(Some(k as real));
  }

  /**
   * With one row per time and event, the pivots are transposes whatever the rows measured exactly
   * when no two recorded events share a key.
   */
  lemma TransposedExactly(rows: seq<Row>)
    requires OneRowPerCell(rows)
    ensures AlwaysTransposed(rows) <==> DistinctKeys(rows)
  {
    if DistinctKeys(rows) {
      forall other | SameCells(rows, other) ensures Transposed(other) {
        assert OneRowPerCell(other) && DistinctKeys(other) by { SameConditions(rows, other); }
        forall event, t, v | PointsOf(other, event) != []
          ensures Point(t, v) in Series(other, event) <==> CellOf(other, t, Underscored(event)) == Some(Some(v))
        {
          TransposedAt(other, event, t, v);
        }
      }
    } else {
      var i, j :| 0 <= i < |rows| && 0 <= j < |rows| && Named(rows[i]) && Named(rows[j])
        && Underscored(rows[i].event) == Underscored(rows[j].event) && rows[i].event != rows[j].event;
      SharedKeyBreaks(rows, i, j);
      assert SameCells(rows, Numbered(rows));
    }
  }

  lemma SameConditions(rows: seq<Row>, other: seq<Row>)
    requires SameCells(rows, other)
    ensures OneRowPerCell(rows) ==> OneRowPerCell(other)
    ensures DistinctKeys(rows) ==> DistinctKeys(other)
    ensures DistinctCells(rows) ==> DistinctCells(other)
  {
    hide Underscored;
    assert forall i :: 0 <= i < |rows| ==> Named(other[i]) == Named(rows[i]);
  }

  /** No two recorded rows go into one cell of the wide table. */
  ghost predicate DistinctCells(rows: seq<Row>) {
    forall i, j :: 0 <= i < j < |rows| && Named(rows[i]) && Named(rows[j]) && rows[i].time == rows[j].time ==>
      Underscored(rows[i].event) != Underscored(rows[j].event)
  }

  /** With one row per time and event it is enough that the events' keys are distinct. */
  lemma DistinctCellsFromKeys(rows: seq<Row>)
    requires OneRowPerCell(rows) && DistinctKeys(rows)
    ensures DistinctCells(rows)
  {
    hide Underscored;
  }

  /** Both pivots hold what the row measured. */
  ghost predicate Kept(rows: seq<Row>, i: nat)
    requires i < |rows| && Valid(rows[i])
  {
    && Point(rows[i].time.value, rows[i].value.value) in Series(rows, rows[i].event)
    && CellOf(rows, rows[i].time.value, Underscored(rows[i].event)) == Some(rows[i].value)
  }

  /** When no two rows go into one cell, every valid row shows up in both pivots. */
  lemma NoRowIsLost(rows: seq<Row>, i: nat)
    requires DistinctCells(rows) && i < |rows| && Valid(rows[i])
    ensures Kept(rows, i)
  {
    var r := rows[i];
    var key := Underscored(r.event);
    SeriesHas(rows, r.event, Point(r.time.value, r.value.value));
    assert r == Row(Some(r.time.value), r.event, Some(r.value.value));
    assert Hits(r, r.time.value, key);
    var k := LastHit(rows, r.time.value, key);
    assert |rows[k].event| == |Underscored(rows[k].event)| == |r.event|;
    assert k == i;
  }

  ghost predicate NeverLost(rows: seq<Row>) {
    forall other, i :: SameCells(rows, other) && 0 <= i < |other| && Valid(other[i]) ==> Kept(other, i)
  }

  /** The condition is exact: else some values are lost to a later row of the same cell. */
  lemma NoRowIsLostExactly(rows: seq<Row>)
    ensures NeverLost(rows) <==> DistinctCells(rows)
  {
    if DistinctCells(rows) {
      forall other, i | SameCells(rows, other) && 0 <= i < |other| && Valid(other[i]) ensures Kept(other, i) {
        SameConditions(rows, other);
        NoRowIsLost(other, i);
      }
    } else {
      var i, j :| 0 <= i < j < |rows| && Named(rows[i]) && Named(rows[j]) && rows[i].time == rows[j].time
        && Underscored(rows[i].event) == Underscored(rows[j].event);
      var all, key, t := Numbered(rows), Underscored(rows[i].event), rows[i].time.value;
      assert Hits(all[i], t, key) && Hits(all[j], t, key);
      var k := LastHit(all, t, key);
      assert k as real != i as real;
      assert SameCells(rows, all) && Valid(all[i]) && !Kept(all, i);
    }
  }

  // ----- Instructions per cycle

  /** The timestamps of an event's valid rows. */
  ghost function TimesOf(rows: seq<Row>, event: string): set<real> {
    set r | r in rows && Valid(r) && r.event == event :: r.time.value
  }

  ghost predicate Increasing(pts: seq<Point>) {
    forall i, j :: 0 <= i < j < |pts| ==> pts[i].t < pts[j].t
  }

  lemma {:induction false} PointsDistinct(rows: seq<Row>, event: string, p: Point)
    requires OneRowPerCell(rows)
    ensures multiset(PointsOf(rows, event))[p] <= 1
  {
    if rows != [] {
      var n := |rows| - 1;
      PointsDistinct(rows[..n], event, p);
      if Valid(rows[n]) && rows[n].event == event && p == Point(rows[n].time.value, rows[n].value.value) {
        PointsAreRows(rows[..n], event, p);
        assert forall i :: 0 <= i < n ==> rows[i] != rows[n];
        assert rows[n] !in rows[..n];
        assert rows[n] == Row(Some(p.t), event, Some(p.v));
      }
    }
  }

  /** With one row per time and event, no two points of a series share a timestamp. */
  lemma SeriesIncreases(rows: seq<Row>, event: string)
    requires OneRowPerCell(rows)
    ensures Increasing(Series(rows, event))
  {
    hide SortPoints;
    var pts := Series(rows, event);
    forall i, j | 0 <= i < j < |pts| ensures pts[i].t < pts[j].t {
      assert AtMost(pts[i], pts[j]);
      if pts[i].t == pts[j].t {
        var p, q := pts[i], pts[j];
        SeriesHas(rows, event, p);
        SeriesHas(rows, event, q);
        OneValuePerCell(rows, event, p, q);
        PointsDistinct(rows, event, p);
        TwicePresent(pts, i, j);
        assert false;
      }
    }
  }

  lemma OneValuePerCell(rows: seq<Row>, event: string, p: Point, q: Point)
    requires OneRowPerCell(rows) && p.t == q.t
    requires Row(Some(p.t), event, Some(p.v)) in rows && Row(Some(q.t), event, Some(q.v)) in rows
    ensures p == q
  {
    var i :| 0 <= i < |rows| && rows[i] == Row(Some(p.t), event, Some(p.v));
    var j :| 0 <= j < |rows| && rows[j] == Row(Some(q.t), event, Some(q.v));
    assert i == j;
  }

  lemma SeriesTimes(rows: seq<Row>, event: string)
    ensures TimesOf(rows, event) == TimesIn(Series(rows, event))
  {
    hide SortPoints;
    forall t | t in TimesOf(rows, event) ensures t in TimesIn(Series(rows, event)) {
      var r :| r in rows && Valid(r) && r.event == event && r.time.value == t;
      assert r == Row(Some(t), event, Some(r.value.value));
      SeriesHas(rows, event, Point(t, r.value.value));
    }
    forall t | t in TimesIn(Series(rows, event)) ensures t in TimesOf(rows, event) {
      var p :| p in Series(rows, event) && p.t == t;
      SeriesHas(rows, event, p);
      assert Valid(Row(Some(p.t), event, Some(p.v)));
    }
  }

  ghost function TimesIn(pts: seq<Point>): set<real> {
    set p | p in pts :: p.t
  }

  /** The two series have the same time at every index. */
  ghost predicate SameTimes(a: seq<Point>, b: seq<Point>) {
    |a| == |b| && forall i :: 0 <= i < |a| ==> a[i].t == b[i].t
  }

  lemma TimesButLast(pts: seq<Point>)
    requires Increasing(pts) && pts != []
    ensures var last := pts[|pts| - 1].t;
            && TimesIn(pts[..|pts| - 1]) == TimesIn(pts) - {last}
            && last in TimesIn(pts) && forall t :: t in TimesIn(pts) ==> t <= last
  {
    var n := |pts| - 1;
    assert pts == pts[..n] + [pts[n]];
    assert pts[n] in pts;
    forall t | t in TimesIn(pts) && t != pts[n].t ensures t in TimesIn(pts[..n]) && t < pts[n].t {
      var p :| p in pts && p.t == t;
      var i :| 0 <= i < |pts| && pts[i] == p;
      assert pts[..n][i] == p;
    }
  }

  lemma SetsByGreatest(a: set<real>, b: set<real>, x: real, y: real)
    requires x in a && y in b && (forall t :: t in a ==> t <= x) && (forall t :: t in b ==> t <= y)
    ensures a == b <==> a - {x} == b - {y} && x == y
  {
    if a - {x} == b - {y} && x == y {
      assert a == a - {x} + {x} && b == b - {y} + {y};
    }
  }

  lemma SameTimesByLast(a: seq<Point>, b: seq<Point>)
    requires a != [] && b != []
    ensures SameTimes(a, b)
            <==> SameTimes(a[..|a| - 1], b[..|b| - 1]) && a[|a| - 1].t == b[|b| - 1].t
  {
  }

  /** Increasing series are aligned exactly when they have the same set of times. */
  lemma {:induction false} IndexAlignment(a: seq<Point>, b: seq<Point>)
    requires Increasing(a) && Increasing(b)
    ensures SameTimes(a, b) <==> TimesIn(a) == TimesIn(b)
  {
    if a == [] || b == [] {
      assert a != [] ==> a[0].t in TimesIn(a);
      assert b != [] ==> b[0].t in TimesIn(b);
    } else {
      var m, n := |a| - 1, |b| - 1;
      IndexAlignment(a[..m], b[..n]);
      TimesButLast(a);
      TimesButLast(b);
      SetsByGreatest(TimesIn(a), TimesIn(b), a[m].t, b[n].t);
      SameTimesByLast(a, b);
    }
  }

  /**
   * Two events are paired by time throughout, with equal lengths and equal times index by index,
   * exactly when their valid rows have the same timestamps.
   */
  lemma AlignedExactly(rows: seq<Row>, num: string, den: string)
    requires OneRowPerCell(rows)
    ensures SameTimes(Series(rows, num), Series(rows, den)) <==> TimesOf(rows, num) == TimesOf(rows, den)
  {
    SeriesIncreases(rows, num);
    SeriesIncreases(rows, den);
    SeriesTimes(rows, num);
    SeriesTimes(rows, den);
    IndexAlignment(Series(rows, num), Series(rows, den));
  }

  /** derive(): the ratio of two series of equal length, paired by index; 0 where the divisor is 0. */
  function Ratios(num: seq<Point>, den: seq<Point>): (r: seq<Point>)
    requires |num| == |den|
    ensures |r| == |num|
    ensures forall i :: 0 <= i < |r| ==>
              r[i] == Point(num[i].t, if den[i].v != 0.0 then num[i].v / den[i].v else 0.0)
  {
    seq(|num|, i requires 0 <= i < |num| => Point(num[i].t, if den[i].v != 0.0 then num[i].v / den[i].v else 0.0))
  }

  /** The wide row's ratio: present when the divisor is present and not 0 and the dividend is present. */
  function WideRatio(num: Option<Option<real>>, den: Option<Option<real>>): Option<real> {
    if den.Some? && den.value.Some? && den.value.value != 0.0 && num.Some? && num.value.Some?
    then Some(num.value.value / den.value.value)
    else None
  }

  /** Every timestamp the two series share stands at the same index in both. */
  ghost predicate SharedTimesAligned(a: seq<Point>, b: seq<Point>) {
    forall i, j :: 0 <= i < |a| && 0 <= j < |b| && a[i].t == b[j].t ==> i == j
  }

  /** At a timestamp both events have, the series' ratio is the wide row's. */
  ghost predicate AgreesAt(rows: seq<Row>, num: string, den: string, t: real)
    requires |Series(rows, num)| == |Series(rows, den)|
  {
    forall v :: Point(t, v) in Ratios(Series(rows, num), Series(rows, den))
                <==> WideRatio(CellOf(rows, t, Underscored(num)), CellOf(rows, t, Underscored(den))) == Some(v)
  }

  /** The wide cell of an event at one of its timestamps holds the point of its series. */
  lemma CellOfPoint(rows: seq<Row>, event: string, p: Point)
    requires OneRowPerCell(rows) && DistinctKeys(rows) && p in Series(rows, event)
    ensures CellOf(rows, p.t, Underscored(event)) == Some(Some(p.v))
  {
    SeriesHas(rows, event, p);
    var w :| 0 <= w < |rows| && rows[w] == Row(Some(p.t), event, Some(p.v));
    CellsAreRows(rows, p.t, w, p.v);
  }

  /**
   * Where both events share a timestamp, at one index, and the divisor is not 0 there, the two
   * ratios are the same number.
   */
  lemma RatiosAgree(rows: seq<Row>, num: string, den: string, i: nat, j: nat)
    requires OneRowPerCell(rows) && DistinctKeys(rows) && |Series(rows, num)| == |Series(rows, den)|
    requires SharedTimesAligned(Series(rows, num), Series(rows, den))
    requires i < |Series(rows, num)| && j < |Series(rows, den)|
    requires Series(rows, num)[i].t == Series(rows, den)[j].t && Series(rows, den)[j].v != 0.0
    ensures AgreesAt(rows, num, den, Series(rows, num)[i].t)
  {
    var a, b := Series(rows, num), Series(rows, den);
    CellOfPoint(rows, num, a[i]);
    CellOfPoint(rows, den, b[j]);
    SeriesIncreases(rows, num);
    hide Series, CellOf, Underscored;
    var r := Ratios(a, b);
    assert r[i] in r && r[i] == Point(a[i].t, a[i].v / b[j].v);
    forall v | Point(a[i].t, v) in r ensures v == r[i].v {
      var k :| 0 <= k < |r| && r[k] == Point(a[i].t, v);
      assert k == i;
    }
  }

  /** Events with the same timestamps agree wherever the divisor is not 0. */
  lemma RatiosAgreeOnSameTimes(rows: seq<Row>, num: string, den: string, t: real)
    requires OneRowPerCell(rows) && DistinctKeys(rows)
    requires TimesOf(rows, num) == TimesOf(rows, den) && t in TimesOf(rows, num)
    requires CellOf(rows, t, Underscored(den)) != Some(Some(0.0))
    ensures |Series(rows, num)| == |Series(rows, den)| && AgreesAt(rows, num, den, t)
  {
    AlignedExactly(rows, num, den);
    SeriesIncreases(rows, num);
    SeriesTimes(rows, num);
    hide Series, TimesOf, CellOf, Underscored;
    var a, b := Series(rows, num), Series(rows, den);
    var p :| p in a && p.t == t;
    var i :| 0 <= i < |a| && a[i] == p;
    CellOfPoint(rows, den, b[i]);
    RatiosAgree(rows, num, den, i, i);
  }

  // ----- When pairing by index is pairing by time

  ghost predicate HasTimes(pts: seq<Point>, times: seq<real>) {
    |pts| == |times| && forall i :: 0 <= i < |pts| ==> pts[i].t == times[i]
  }

  ghost predicate NonZero(pts: seq<Point>) {
    forall i :: 0 <= i < |pts| ==> pts[i].v != 0.0
  }

  /** The ratio at every shared timestamp is that of the two values measured there. */
  ghost predicate RatioOfSameTime(a: seq<Point>, b: seq<Point>)
    requires |a| == |b|
  {
    forall i, j :: 0 <= i < |a| && 0 <= j < |b| && a[i].t == b[j].t && b[j].v != 0.0 ==>
      Ratios(a, b)[i].v == a[i].v / b[j].v
  }

  ghost predicate CorrectForAllValues(ta: seq<real>, tb: seq<real>)
    requires |ta| == |tb|
  {
    forall a, b :: HasTimes(a, ta) && HasTimes(b, tb) && NonZero(b) ==> RatioOfSameTime(a, b)
  }

  /**
   * The analysis checks only that the lengths match. For the given timestamps its ratios are
   * right at every shared one, whatever was measured, exactly when every shared timestamp stands
   * at the same index in both series.
   */
  lemma PairingByIndexExactly(ta: seq<real>, tb: seq<real>)
    requires |ta| == |tb|
    ensures CorrectForAllValues(ta, tb)
            <==> forall i, j :: 0 <= i < |ta| && 0 <= j < |tb| && ta[i] == tb[j] ==> i == j
  {
    if i, j :| 0 <= i < |ta| && 0 <= j < |tb| && ta[i] == tb[j] && i != j {
      var a := seq(|ta|, k requires 0 <= k < |ta| => Point(ta[k], 1.0));
      var b := seq(|tb|, k requires 0 <= k < |tb| => Point(tb[k], if k == i then 2.0 else 1.0));
      assert HasTimes(a, ta) && HasTimes(b, tb) && NonZero(b);
      assert Ratios(a, b)[i].v == 0.5 && a[i].v / b[j].v == 1.0;
      assert !RatioOfSameTime(a, b);
    }
  }

  /** A row that measured a point. */
  function RowOf(event: string, p: Point): Row {
    Row(Some(p.t), event, Some(p.v))
  }

  lemma PointsOfFour(num: string, den: string, p: Point, q: Point, r: Point, s: Point)
    requires num != "" && den != "" && num != den
    ensures var rows := [RowOf(num, p), RowOf(num, q), RowOf(den, r), RowOf(den, s)];
            PointsOf(rows, num) == [p, q] && PointsOf(rows, den) == [r, s]
  {
    var rows := [RowOf(num, p), RowOf(num, q), RowOf(den, r), RowOf(den, s)];
    hide PointsOf;
    for i := 0 to 5
      invariant i > 0 ==> PointsOf(rows[..i - 1], num) == [p, q][..if i - 1 < 2 then i - 1 else 2]
      invariant i > 0 ==> PointsOf(rows[..i - 1], den) == [r, s][..if i - 1 < 2 then 0 else i - 3]
    {
      PointsSoFar(rows, i, num);
      PointsSoFar(rows, i, den);
    }
    assert rows[..4] == rows;
  }

  lemma SortTwo(p: Point, q: Point)
    requires AtMost(p, q)
    ensures SortPoints([p, q]) == [p, q]
  {
    assert [p, q][1..] == [q] && [q][1..] == [];
    assert Sorting.SortBy([q], AtMost) == [q];
  }

  lemma FourCells(num: string, den: string, p: Point, q: Point, r: Point, s: Point)
    requires num != den && '_' !in num && '_' !in den && p.t != q.t && r.t != s.t
    ensures var rows := [RowOf(num, p), RowOf(num, q), RowOf(den, r), RowOf(den, s)];
            OneRowPerCell(rows) && DistinctKeys(rows)
  {
    hide Underscored;
    DashesOnlyDistinct([RowOf(num, p), RowOf(num, q), RowOf(den, r), RowOf(den, s)]);
  }

  lemma SecondRatio(p: Point, q: Point, r: Point, s: Point)
    requires s.v != 0.0 && r.v != 0.0
    ensures Point(q.t, q.v / s.v) in Ratios([p, q], [r, s])
    ensures WideRatio(Some(Some(q.v)), Some(Some(r.v))) == Some(q.v / r.v)
  {
    assert Ratios([p, q], [r, s])[1] == Point(q.t, q.v / s.v);
  }

  /**
   * So for events that share only some timestamps: at 2.0 the analysis divides by what the second
   * event measured at 3.0, the wide row by what it measured at 2.0.
   */
  lemma RatioAcrossTimes(num: string, den: string, rows: seq<Row>)
    requires num != "" && den != "" && num != den && '_' !in num && '_' !in den
    requires rows == [RowOf(num, Point(1.0, 10.0)), RowOf(num, Point(2.0, 20.0)),
                      RowOf(den, Point(2.0, 5.0)), RowOf(den, Point(3.0, 4.0))]
    ensures OneRowPerCell(rows) && DistinctKeys(rows) && |Series(rows, num)| == |Series(rows, den)|
    ensures Point(2.0, 5.0) in Ratios(Series(rows, num), Series(rows, den))
    ensures WideRatio(CellOf(rows, 2.0, Underscored(num)), CellOf(rows, 2.0, Underscored(den))) == Some(4.0)
  {
    var p, q, r, s := Point(1.0, 10.0), Point(2.0, 20.0), Point(2.0, 5.0), Point(3.0, 4.0);
    FourCells(num, den, p, q, r, s);
    PointsOfFour(num, den, p, q, r, s);
    SortTwo(p, q);
    SortTwo(r, s);
    SecondRatio(p, q, r, s);
    assert Series(rows, num) == [p, q] && Series(rows, den) == [r, s];
    hide *;
    CellOfPoint(rows, num, q);
    CellOfPoint(rows, den, r);
  }
}
