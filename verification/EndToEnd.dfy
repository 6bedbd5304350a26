/**
 * The links between the parts: the experiment loop and the sampler discharge what the energy
 * bound asks of windows and samples.
 */
module EndToEnd {
  import opened Wrappers
  import opened Reals
  import opened Energy
  import S = Samplers
  import R = Rounds
  import P = Payloads
  import W = Workers
  import opened Arithmetic

  // ----- Samples of a sampler run

  /** One domain's column of a power trace; rows without the domain are skipped. */
  function Column(rows: seq<S.Row>, domain: string): seq<Sample> {
    if rows == [] then []
    else
      var row := rows[|rows| - 1];
      Column(rows[..|rows| - 1], domain)
      + if domain in row.watts then [Sample(row.elapsed, row.watts[domain])] else []
  }

  ghost predicate InRange(reading: S.Reading, domain: string) {
    domain in reading ==> 0 <= reading[domain] < S.WRAP
  }

  /** Clock readings do not decrease, and the domain's counter readings are 32-bit numbers. */
  ghost predicate SoundRun(first: S.Reading, start: real, ticks: seq<S.Tick>, domain: string) {
    && InRange(first, domain) && (ticks != [] ==> start <= ticks[0].now)
    && (forall i :: 0 <= i < |ticks| ==> InRange(ticks[i].reading, domain))
    && (forall i :: 0 < i < |ticks| ==> ticks[i - 1].now <= ticks[i].now)
  }

  lemma PowerNonNegative(prev: int, curr: int, dt: real)
    requires 0 <= prev < S.WRAP && 0 <= curr < S.WRAP && dt > 0.0
    ensures S.PowerOf(prev, curr, dt) >= 0.0
  {
    assert S.Delta(prev, curr) >= 0;
  }

  /** A trace that is in order, not negative, and over by `end`. */
  ghost predicate SoundTrace(trace: seq<Sample>, end: real) {
    TimeOrdered(trace) && NonNegative(trace) && forall i :: 0 <= i < |trace| ==> trace[i].x <= end
  }

  lemma SoundTraceGrows(trace: seq<Sample>, end: real, last: Sample)
    requires SoundTrace(trace, end) && end <= last.x && last.y >= 0.0
    ensures SoundTrace(trace + [last], last.x)
  {
  }

  lemma SoundTraceLater(trace: seq<Sample>, end: real, later: real)
    requires SoundTrace(trace, end) && end <= later
    ensures SoundTrace(trace, later)
  {
  }

  /** The last tick of a sound run is no earlier than those before it, and its watts are not negative. */
  lemma LastTickIsSound(first: S.Reading, start: real, ticks: seq<S.Tick>, domain: string)
    requires SoundRun(first, start, ticks, domain) && ticks != []
    ensures var n := |ticks| - 1;
            var row := S.RowOf(first, start, ticks[..n], ticks[n]);
            && SoundRun(first, start, ticks[..n], domain) && S.LastTime(start, ticks[..n]) <= ticks[n].now
            && (domain in row.watts ==> row.watts[domain] >= 0.0)
  {
    var n := |ticks| - 1;
    var row, before := S.RowOf(first, start, ticks[..n], ticks[n]), S.LastReading(first, ticks[..n]);
    if domain in row.watts {
      PowerNonNegative(before[domain], ticks[n].reading[domain], ticks[n].now - S.LastTime(start, ticks[..n]));
    }
  }

  lemma ColumnOfLastRow(first: S.Reading, start: real, ticks: seq<S.Tick>, domain: string)
    requires ticks != []
    ensures var n := |ticks| - 1;
            var row := S.RowOf(first, start, ticks[..n], ticks[n]);
            Column(S.Rows(first, start, ticks), domain)
            == Column(S.Rows(first, start, ticks[..n]), domain)
               + if domain in row.watts then [Sample(ticks[n].now - start, row.watts[domain])] else []
  {
    var n := |ticks| - 1;
    assert S.Rows(first, start, ticks)[..n] == S.Rows(first, start, ticks[..n]);
  }

  lemma NoTicksNoTrace(first: S.Reading, start: real, domain: string)
    ensures SoundTrace(Column(S.Rows(first, start, []), domain), 0.0)
  {
    assert Column(S.Rows(first, start, []), domain) == [];
  }

  /** A sampler's trace is time-ordered and its watts are never negative. */
  lemma {:induction false} TraceIsSound(first: S.Reading, start: real, ticks: seq<S.Tick>, domain: string)
    requires SoundRun(first, start, ticks, domain)
    ensures SoundTrace(Column(S.Rows(first, start, ticks), domain), S.LastTime(start, ticks) - start)
  {
    hide SoundTrace, SoundRun, Column, S.Rows, S.RowOf;
    if ticks == [] {
      NoTicksNoTrace(first, start, domain);
    } else {
      var n := |ticks| - 1;
      LastTickIsSound(first, start, ticks, domain);
      TraceIsSound(first, start, ticks[..n], domain);
      ColumnOfLastRow(first, start, ticks, domain);
      var watts := S.RowOf(first, start, ticks[..n], ticks[n]).watts;
      var trace, end := Column(S.Rows(first, start, ticks[..n]), domain), S.LastTime(start, ticks[..n]) - start;
      if domain in watts {
        SoundTraceGrows(trace, end, Sample(ticks[n].now - start, watts[domain]));
      } else {
        SoundTraceLater(trace, end, ticks[n].now - start);
        assert trace + [] == trace;
      }
    }
  }

  // ----- Windows of an experiment

  /** The invocation file as the analysis reads it: both timestamps of every row. */
  ghost predicate Records(file: seq<InvocationRow>, rows: seq<R.Row>) {
    && |file| == |rows|
    && forall i :: 0 <= i < |rows| ==> file[i].startEpoch == Some(rows[i].start) && file[i].endEpoch == Some(rows[i].end)
  }

  lemma {:induction false} RecordedWindows(file: seq<InvocationRow>, rows: seq<R.Row>)
    requires Records(file, rows)
    ensures |WallWindows(file)| == |rows|
    ensures forall i :: 0 <= i < |rows| ==> WallWindows(file)[i] == Window(rows[i].start, rows[i].end)
  {
    if rows != [] {
      RecordedWindows(file[..|file| - 1], rows[..|rows| - 1]);
    }
  }

  lemma SuccessiveWindowsDisjoint(v: Window, w: Window)
    requires v.end <= w.start || w.end <= v.start
    ensures InteriorDisjoint(v, w)
  {
  }

  /** With at most one VM the windows the analysis loads have disjoint interiors. */
  lemma SingleVmInteriorsDisjoint(c: R.Setup, steps: seq<R.Step>, s: R.State, file: seq<InvocationRow>, origin: real)
    requires c.delay >= 0.0 && (c.vms <= 1 || c.rounds == 0) && R.Reaches(c, steps, s) && Records(file, s.rows)
    ensures InteriorsDisjoint(ChosenWindows(file, Some(origin)))
  {
    R.NeverOverlapsExactly(c);
    hide R.Reaches;
    RecordedWindows(file, s.rows);
    if s.rows == [] {
      NoRowsNoLoopWindows(file);
    } else {
      var windows := ChosenWindows(file, Some(origin));
      assert |windows| == |s.rows|;
      forall i, j | 0 <= i < j < |windows| ensures InteriorDisjoint(windows[i], windows[j]) {
        SuccessiveWindowsDisjoint(windows[i], windows[j]);
      }
    }
  }

  lemma NoRowsNoLoopWindows(file: seq<InvocationRow>)
    requires file == []
    ensures LoopWindows(file) == [] && WallWindows(file) == []
  {
  }

  /**
   * End to end: whatever an experiment with at most one VM and its sampler do, the energies
   * attributed to the invocations never add up to more than the energy of the power trace.
   */
  lemma InvocationEnergyWithinTrace(c: R.Setup, steps: seq<R.Step>, s: R.State, file: seq<InvocationRow>, origin: real,
                                    first: S.Reading, start: real, ticks: seq<S.Tick>, domain: string)
    requires c.delay >= 0.0 && (c.vms <= 1 || c.rounds == 0) && R.Reaches(c, steps, s) && Records(file, s.rows)
    requires SoundRun(first, start, ticks, domain)
    ensures var trace := Column(S.Rows(first, start, ticks), domain);
            Sum(Energies(trace, ChosenWindows(file, Some(origin)))) <= Trapz(trace)
  {
    TraceIsSound(first, start, ticks, domain);
    SingleVmInteriorsDisjoint(c, steps, s, file, origin);
    WindowEnergiesWithinTrace(Column(S.Rows(first, start, ticks), domain), ChosenWindows(file, Some(origin)));
  }

  /** What an experiment may record charges no trace for more energy than it holds. */
  ghost predicate NeverOverchargedBy(c: R.Setup, origin: real) {
    forall steps, s, file :: R.Reaches(c, steps, s) && Records(file, s.rows) ==>
      NeverOvercharged(ChosenWindows(file, Some(origin)))
  }

  /** An invocation file with these rows. */
  function FileOf(rows: seq<R.Row>): (file: seq<InvocationRow>)
    ensures Records(file, rows)
  {
    seq(|rows|, i requires 0 <= i < |rows| => InvocationRow(Some(rows[i].start), Some(rows[i].end), None, None))
  }

  lemma OverlapInFile(rows: seq<R.Row>, origin: real)
    requires rows == [R.Row(1, 0, 0.0, 1.0), R.Row(1, 1, 0.0, 1.0)]
    ensures !InteriorsDisjoint(ChosenWindows(FileOf(rows), Some(origin)))
  {
    RecordedWindows(FileOf(rows), rows);
    var windows := ChosenWindows(FileOf(rows), Some(origin));
    assert windows[0] == windows[1] == Window(0.0 - origin, 1.0 - origin);
    assert Interior(0.5 - origin, windows[0]);
    assert !InteriorDisjoint(windows[0], windows[1]);
  }

  /**
   * The energy bound holds for everything an experiment may record, and every power trace, exactly
   * when it has at most one VM or no round.
   */
  lemma EnergyBoundExactly(c: R.Setup, origin: real)
    requires c.delay >= 0.0
    ensures NeverOverchargedBy(c, origin) <==> c.vms <= 1 || c.rounds == 0
  {
    hide R.Reaches, NeverOvercharged, InteriorsDisjoint, ChosenWindows;
    if c.vms <= 1 || c.rounds == 0 {
      forall steps, s, file | R.Reaches(c, steps, s) && Records(file, s.rows)
        ensures NeverOvercharged(ChosenWindows(file, Some(origin)))
      {
        SingleVmInteriorsDisjoint(c, steps, s, file, origin);
        BoundHoldsExactly(ChosenWindows(file, Some(origin)));
      }
    } else {
      var steps, s := R.OverlapReachable(c);
      OverlapInFile(s.rows, origin);
      BoundHoldsExactly(ChosenWindows(FileOf(s.rows), Some(origin)));
    }
  }

  // ----- The driver's payloads and its workers

  /**
   * The list built for runs * endpoints runs is long enough for the workers, and what worker t
   * sends as run r is entry r of its own slice.
   */
  lemma WorkersReadTheirSlices(c: W.Iteration, m: nat, t: nat, r: nat)
    requires m > 0 && |c.payloads| == P.Copies(m, |c.endpoints| * c.runs) * m
    requires t < |c.endpoints| && r < c.runs
    ensures c.Sized() && t * c.runs + r < |c.payloads|
    ensures var slice := P.EndpointSlice(c.payloads, t, c.runs);
            |slice| == c.runs && c.payloads[t * c.runs + r] == slice[r]
  {
    SlotInSlice(c, t, r);
  }

  /**
   * In every reachable state each record carries the payload that its run has in its endpoint's own
   * slice, and the text that came back for that run.
   */
  lemma RecordsCarryTheirSlices(c: W.Iteration, steps: seq<W.Step>, s: W.State, i: nat)
    requires c.Sized() && W.Reaches(c, steps, s) && i < |s.results|
    ensures var r, slice := s.results[i], P.EndpointSlice(c.payloads, s.results[i].thread, c.runs);
            && r.thread < |c.endpoints| && r.run < |slice| == c.runs
            && r.payload == slice[r.run] && c.outcome(r.thread, r.run) == W.Usable(r.text)
  {
    W.ReachableInv(c, steps, s);
    W.RecordOfItsRun(c, s, i);
    SlotInSlice(c, s.results[i].thread, s.results[i].run);
  }

  lemma SlotInSlice(c: W.Iteration, t: nat, r: nat)
    requires c.Sized() && t < |c.endpoints| && r < c.runs
    ensures t * c.runs + r < |c.payloads|
    ensures var slice := P.EndpointSlice(c.payloads, t, c.runs);
            |slice| == c.runs && c.payloads[t * c.runs + r] == slice[r]
  {
    W.SlotInRange(c, t, r);
    MulMonotone(t + 1, |c.endpoints|, c.runs);
    assert (t + 1) * c.runs == t * c.runs + c.runs;
  }

  // ----- Columns of a trace

  /** The trace holds exactly one sample for each row that has the domain: its time and its watts. */
  lemma {:induction false} ColumnHasRows(rows: seq<S.Row>, domain: string, x: Sample)
    ensures multiset(Column(rows, domain))[x] == RowsLike(rows, domain, x)
  {
    if rows != [] {
      ColumnHasRows(rows[..|rows| - 1], domain, x);
    }
  }

  /** How many rows show these watts of the domain at this time. */
  function RowsLike(rows: seq<S.Row>, domain: string, x: Sample): nat {
    if rows == [] then 0
    else
      var row := rows[|rows| - 1];
      RowsLike(rows[..|rows| - 1], domain, x)
      + if domain in row.watts && row.watts[domain] == x.y && row.elapsed == x.x then 1 else 0
  }
}
