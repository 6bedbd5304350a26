/**
 * The experiment loop: in every round one background process per instance is started, all of
 * them are awaited, and after a pause the next round begins. The clock and the processes may
 * advance in any order the barrier allows; exit codes are arbitrary and ignored.
 */
module Rounds {

  /** date +%s.%3N: the instant cut to milliseconds. */
  function Ms(t: real): real {
    (t * 1000.0).Floor as real / 1000.0
  }

  datatype Process = Absent | Forked | Running(start: real) | Ended(start: real, end: real) | Done

  datatype Row = Row(round: nat, instance: nat, start: real, end: real)

  datatype Setup = Setup(rounds: nat, vms: nat, delay: real)

  /** since: the instant before which no process of the current round can have started. */
  datatype State = State(clock: real, since: real, round: nat, spawned: nat, procs: seq<Process>, rows: seq<Row>)

  datatype Step =
    | Tick(now: real)    // time passes
    | Spawn              // invoke_vm "$i" "$k" &
    | Begin(k: nat)      // start_iso=$(date ...)
    | Finish(k: nat)     // end_iso=$(date ...), whatever the exit code
    | Append(k: nat)     // printf ... >> "$INV_CSV"
    | Barrier            // wait for every process, then sleep "$DELAY"

  function AllAbsent(vms: nat): seq<Process> {
    seq(vms, k => Absent)
  }

  function Initial(c: Setup, now: real): State {
    State(now, now, 1, 0, AllAbsent(c.vms), [])
  }

  predicate Enabled(c: Setup, s: State, step: Step) {
    && |s.procs| == c.vms
    && match step
       case Tick(now) => now >= s.clock
       case Spawn => s.round <= c.rounds && s.clock >= s.since && s.spawned < c.vms
       case Begin(k) => k < c.vms && s.procs[k].Forked?
       case Finish(k) => k < c.vms && s.procs[k].Running?
       case Append(k) => k < c.vms && s.procs[k].Ended?
       case Barrier => s.round <= c.rounds && s.spawned == c.vms && forall k :: 0 <= k < c.vms ==> s.procs[k].Done?
  }

  function Next(c: Setup, s: State, step: Step): State
    requires Enabled(c, s, step)
  {
    match step
    case Tick(now) => s.(clock := now)
    case Spawn => s.(procs := s.procs[s.spawned := Forked], spawned := s.spawned + 1)
    case Begin(k) => s.(procs := s.procs[k := Running(Ms(s.clock))])
    case Finish(k) => s.(procs := s.procs[k := Ended(s.procs[k].start, Ms(s.clock))])
    case Append(k) =>
      s.(procs := s.procs[k := Done], rows := s.rows + [Row(s.round, k, s.procs[k].start, s.procs[k].end)])
    case Barrier =>
      s.(round := s.round + 1, spawned := 0, procs := AllAbsent(c.vms), since := s.clock + c.delay)
  }

  lemma MsMonotone(t: real, u: real)
    requires t <= u
    ensures Ms(t) <= Ms(u)
  {
    var a, b := (t * 1000.0).Floor, (u * 1000.0).Floor;
    assert a as real <= t * 1000.0 <= u * 1000.0 < b as real + 1.0;
    assert a < b + 1;
    ThousandthMonotone(a as real, b as real);
  }

  /** m is the instant t cut to whole milliseconds. */
  ghost predicate CutOf(m: real, t: real) {
    m <= t < m + 0.001 && (m * 1000.0).Floor as real == m * 1000.0
  }

  lemma MsCuts(t: real)
    ensures CutOf(Ms(t), t)
  {
    var a := (t * 1000.0).Floor;
    assert a as real <= t * 1000.0 < a as real + 1.0;
    assert Ms(t) * 1000.0 == a as real;
  }

  lemma ThousandthMonotone(x: real, y: real)
    requires x <= y
    ensures x / 1000.0 <= y / 1000.0
  {
  }

  // ----- What every step keeps

  /** Rows recorded for an instance in a round. */
  function Count(rows: seq<Row>, round: nat, instance: nat): nat {
    if rows == [] then 0
    else
      var last := rows[|rows| - 1];
      Count(rows[..|rows| - 1], round, instance) + if last.round == round && last.instance == instance then 1 else 0
  }

  ghost predicate ProcessOk(s: State, k: nat)
    requires k < |s.procs|
  {
    match s.procs[k]
    case Running(start) => Ms(s.since) <= start <= Ms(s.clock)
    case Ended(start, end) => Ms(s.since) <= start <= end <= Ms(s.clock)
    case _ => true
  }

  ghost predicate RowOk(c: Setup, s: State, r: Row) {
    && 1 <= r.round <= s.round && r.round <= c.rounds && r.instance < c.vms && r.start <= r.end
    && (r.round == s.round ==> Ms(s.since) <= r.start && r.end <= Ms(s.clock))
    && (r.round < s.round ==> r.end <= Ms(s.since))
  }

  /** How many rows the current round has for an instance. */
  function Recorded(s: State, k: nat): nat
    requires k < |s.procs|
  {
    if s.procs[k].Done? then 1 else 0
  }

  ghost predicate Inv(c: Setup, s: State) {
    && |s.procs| == c.vms && c.delay >= 0.0 && 1 <= s.round <= c.rounds + 1
    && s.spawned <= c.vms
    && (s.clock < s.since ==> s.spawned == 0)
    && (forall k: nat :: k < c.vms ==> ProcessOk(s, k) && (k >= s.spawned <==> s.procs[k].Absent?))
    && (s.round > c.rounds ==> s.spawned == 0)
    && (forall i :: 0 <= i < |s.rows| ==> RowOk(c, s, s.rows[i]))
    && (forall i, j :: 0 <= i < |s.rows| && 0 <= j < |s.rows| && s.rows[i].round < s.rows[j].round ==>
          s.rows[i].end <= s.rows[j].start)
    && (forall r: nat, k: nat :: 1 <= r && k < c.vms ==>
          Count(s.rows, r, k) == if r < s.round then 1 else if r == s.round then Recorded(s, k) else 0)
  }

  lemma InitialInv(c: Setup, now: real)
    requires c.delay >= 0.0
    ensures Inv(c, Initial(c, now))
  {
  }

  lemma CountAppend(rows: seq<Row>, row: Row, r: nat, k: nat)
    ensures Count(rows + [row], r, k) == Count(rows, r, k) + if row.round == r && row.instance == k then 1 else 0
  {
    assert (rows + [row])[..|rows|] == rows;
  }

  /** A row appended to the current round keeps the counts and the order of the rounds. */
  lemma AppendKeepsRows(c: Setup, s: State, k: nat)
    requires Inv(c, s) && Enabled(c, s, Append(k))
    ensures var s' := Next(c, s, Append(k));
            && (forall i :: 0 <= i < |s'.rows| ==> RowOk(c, s', s'.rows[i]))
            && (forall i, j :: 0 <= i < |s'.rows| && 0 <= j < |s'.rows| && s'.rows[i].round < s'.rows[j].round ==>
                  s'.rows[i].end <= s'.rows[j].start)
  {
    hide Ms, Count;
    var s' := Next(c, s, Append(k));
    assert ProcessOk(s, k) && s.round <= c.rounds;
    forall i | 0 <= i < |s'.rows| ensures RowOk(c, s', s'.rows[i]) {
      assert i < |s.rows| ==> s'.rows[i] == s.rows[i] && RowOk(c, s, s.rows[i]);
    }
    forall i, j | 0 <= i < |s'.rows| && 0 <= j < |s'.rows| && s'.rows[i].round < s'.rows[j].round
      ensures s'.rows[i].end <= s'.rows[j].start
    {
      assert RowOk(c, s', s'.rows[i]) && RowOk(c, s', s'.rows[j]);
      if j < |s.rows| {
        assert s'.rows[j] == s.rows[j] && s'.rows[i] == s.rows[i];
      }
    }
  }

  /** The appended row is the first of its instance in the current round. */
  lemma AppendKeepsCounts(c: Setup, s: State, k: nat, r: nat, m: nat)
    requires Inv(c, s) && Enabled(c, s, Append(k)) && 1 <= r && m < c.vms
    ensures var s' := Next(c, s, Append(k));
            |s'.procs| == c.vms
            && Count(s'.rows, r, m) == if r < s'.round then 1 else if r == s'.round then Recorded(s', m) else 0
  {
    hide Ms, Count, RowOk;
    var s' := Next(c, s, Append(k));
    CountAppend(s.rows, s'.rows[|s.rows|], r, m);
  }

  lemma AppendKeepsInv(c: Setup, s: State, k: nat)
    requires Inv(c, s) && Enabled(c, s, Append(k))
    ensures Inv(c, Next(c, s, Append(k)))
  {
    var s' := Next(c, s, Append(k));
    AppendKeepsRows(c, s, k);
    hide Ms, Count, RowOk, Recorded;
    forall r: nat, m: nat | 1 <= r && m < c.vms
      ensures Count(s'.rows, r, m) == if r < s'.round then 1 else if r == s'.round then Recorded(s', m) else 0
    {
      AppendKeepsCounts(c, s, k, r, m);
    }
    forall m: nat | m < c.vms
      ensures ProcessOk(s', m) && (m >= s'.spawned <==> s'.procs[m].Absent?)
    {
      assert ProcessOk(s, m);
    }
    assert s.spawned > 0;
  }

  lemma BarrierKeepsInv(c: Setup, s: State)
    requires Inv(c, s) && Enabled(c, s, Barrier)
    ensures Inv(c, Next(c, s, Barrier))
  {
    var s' := Next(c, s, Barrier);
    MsMonotone(s.clock, s'.since);
    assert s.clock >= s.since || c.vms == 0;
    MsMonotone(s.since, s.since + c.delay);
    forall i | 0 <= i < |s.rows| ensures RowOk(c, s', s'.rows[i]) {
      assert RowOk(c, s, s.rows[i]);
      if s.clock >= s.since {
        MsMonotone(s.since, s.clock);
      }
    }
  }

  /** Every step keeps the invariant. */
  lemma StepKeepsInv(c: Setup, s: State, step: Step)
    requires Inv(c, s) && Enabled(c, s, step)
    ensures Inv(c, Next(c, s, step))
  {
    var s' := Next(c, s, step);
    match step
    case Append(k) => AppendKeepsInv(c, s, k);
    case Barrier => BarrierKeepsInv(c, s);
    case _ =>
      hide Ms, Count;
      MsMonotone(s.clock, s'.clock);
      forall m: nat | m < c.vms
        ensures ProcessOk(s', m) && (m >= s'.spawned <==> s'.procs[m].Absent?) && Recorded(s', m) == Recorded(s, m)
      {
        assert ProcessOk(s, m);
        if s.spawned > 0 {
          MsMonotone(s.since, s.clock);
        }
      }
      forall i | 0 <= i < |s'.rows| ensures RowOk(c, s', s'.rows[i]) {
        assert RowOk(c, s, s.rows[i]);
      }
  }

  // ----- Whole experiments

  /** The steps lead from some instant to s. */
  ghost predicate Reaches(c: Setup, steps: seq<Step>, s: State) {
    if steps == [] then exists now :: s == Initial(c, now)
    else
      var n := |steps| - 1;
      exists before :: Reaches(c, steps[..n], before) && Enabled(c, before, steps[n]) && s == Next(c, before, steps[n])
  }

  lemma {:induction false} ReachableInv(c: Setup, steps: seq<Step>, s: State)
    requires c.delay >= 0.0 && Reaches(c, steps, s)
    ensures Inv(c, s)
  {
    if steps == [] {
      var now :| s == Initial(c, now);
      InitialInv(c, now);
    } else {
      var n := |steps| - 1;
      var before :| Reaches(c, steps[..n], before) && Enabled(c, before, steps[n]) && s == Next(c, before, steps[n]);
      ReachableInv(c, steps[..n], before);
      StepKeepsInv(c, before, steps[n]);
    }
  }

  /** When the loop is over, every round has exactly one row per instance and there is no other row. */
  lemma OneRowPerInvocation(c: Setup, steps: seq<Step>, s: State)
    requires c.delay >= 0.0 && Reaches(c, steps, s) && s.round > c.rounds
    ensures forall r: nat, k: nat :: 1 <= r <= c.rounds && k < c.vms ==> Count(s.rows, r, k) == 1
    ensures forall i :: 0 <= i < |s.rows| ==> 1 <= s.rows[i].round <= c.rounds && s.rows[i].instance < c.vms
  {
    ReachableInv(c, steps, s);
    assert forall i :: 0 <= i < |s.rows| ==> RowOk(c, s, s.rows[i]);
  }

  /** At any time, every window of a round ends before any window of a later round begins. */
  lemma RoundsDoNotOverlap(c: Setup, steps: seq<Step>, s: State, i: nat, j: nat)
    requires c.delay >= 0.0 && Reaches(c, steps, s)
    requires i < |s.rows| && j < |s.rows| && s.rows[i].round < s.rows[j].round
    ensures s.rows[i].start <= s.rows[i].end <= s.rows[j].start <= s.rows[j].end
  {
    ReachableInv(c, steps, s);
    assert RowOk(c, s, s.rows[i]) && RowOk(c, s, s.rows[j]);
  }

  lemma {:induction false} TwoRowsCountTwice(rows: seq<Row>, i: nat, j: nat)
    requires i < j < |rows| && rows[i].round == rows[j].round && rows[i].instance == rows[j].instance
    ensures Count(rows, rows[i].round, rows[i].instance) >= 2
  {
    var n := |rows| - 1;
    if j < n {
      TwoRowsCountTwice(rows[..n], i, j);
    } else {
      OneRowCounts(rows[..n], i);
    }
  }

  lemma {:induction false} OneRowCounts(rows: seq<Row>, i: nat)
    requires i < |rows|
    ensures Count(rows, rows[i].round, rows[i].instance) >= 1
  {
    var n := |rows| - 1;
    if i < n {
      OneRowCounts(rows[..n], i);
    }
  }

  /** With one VM any two windows are of different rounds, so one ends before the other begins. */
  lemma SingleVmWindowsDisjoint(c: Setup, steps: seq<Step>, s: State, i: nat, j: nat)
    requires c.delay >= 0.0 && c.vms == 1 && Reaches(c, steps, s) && i < j < |s.rows|
    ensures s.rows[i].end <= s.rows[j].start || s.rows[j].end <= s.rows[i].start
  {
    ReachableInv(c, steps, s);
    assert RowOk(c, s, s.rows[i]) && RowOk(c, s, s.rows[j]);
    if s.rows[i].round == s.rows[j].round {
      TwoRowsCountTwice(s.rows, i, j);
      assert false;
    }
  }

  // ----- What a row's two timestamps are

  /** The states a run goes through. */
  ghost predicate IsRun(c: Setup, steps: seq<Step>, states: seq<State>) {
    && |states| == |steps| + 1 && (exists now :: states[0] == Initial(c, now))
    && forall i :: 0 <= i < |steps| ==> Enabled(c, states[i], steps[i]) && states[i + 1] == Next(c, states[i], steps[i])
  }

  lemma {:induction false} RunOf(c: Setup, steps: seq<Step>, s: State) returns (states: seq<State>)
    requires Reaches(c, steps, s)
    ensures IsRun(c, steps, states) && states[|steps|] == s
  {
    if steps == [] {
      states := [s];
    } else {
      var n := |steps| - 1;
      var before :| Reaches(c, steps[..n], before) && Enabled(c, before, steps[n]) && s == Next(c, before, steps[n]);
      var earlier := RunOf(c, steps[..n], before);
      states := earlier + [s];
      hide Enabled, Next;
      forall i | 0 <= i < |steps| ensures Enabled(c, states[i], steps[i]) && states[i + 1] == Next(c, states[i], steps[i]) {
        if i < n {
          assert steps[..n][i] == steps[i] && states[i] == earlier[i] && states[i + 1] == earlier[i + 1];
        }
      }
    }
  }

  /** Step b of a run begins instance k in a round, at the instant `start` was cut from. */
  ghost predicate Begins(steps: seq<Step>, states: seq<State>, b: int, k: nat, round: nat, start: real) {
    && 0 <= b < |steps| && b < |states| && steps[b] == Begin(k) && states[b].round == round && CutOf(start, states[b].clock)
  }

  ghost predicate Finishes(steps: seq<Step>, states: seq<State>, f: int, k: nat, round: nat, end: real) {
    && 0 <= f < |steps| && f < |states| && steps[f] == Finish(k) && states[f].round == round && CutOf(end, states[f].clock)
  }

  ghost predicate BegunBefore(steps: seq<Step>, states: seq<State>, n: nat, k: nat, round: nat, start: real) {
    exists b :: b < n && Begins(steps, states, b, k, round, start)
  }

  ghost predicate TimedBefore(steps: seq<Step>, states: seq<State>, n: nat, k: nat, round: nat, start: real, end: real) {
    exists b, f :: b < f < n && Begins(steps, states, b, k, round, start) && Finishes(steps, states, f, k, round, end)
  }

  ghost predicate ProcessTimed(steps: seq<Step>, states: seq<State>, n: nat, k: nat)
    requires n < |states| && k < |states[n].procs|
  {
    var p, round := states[n].procs[k], states[n].round;
    && (p.Running? ==> BegunBefore(steps, states, n, k, round, p.start))
    && (p.Ended? ==> TimedBefore(steps, states, n, k, round, p.start, p.end))
  }

  /** Up to step n every timestamp was cut from the clock at its own step. */
  ghost predicate Timed(steps: seq<Step>, states: seq<State>, n: nat)
    requires n < |states|
  {
    var s := states[n];
    && (forall k: nat :: k < |s.procs| ==> ProcessTimed(steps, states, n, k))
    && (forall i :: 0 <= i < |s.rows| ==>
          TimedBefore(steps, states, n, s.rows[i].instance, s.rows[i].round, s.rows[i].start, s.rows[i].end))
  }

  /** What was timed stays timed. */
  lemma TimedLater(steps: seq<Step>, states: seq<State>, n: nat, k: nat, round: nat, start: real, end: real)
    ensures BegunBefore(steps, states, n, k, round, start) ==> BegunBefore(steps, states, n + 1, k, round, start)
    ensures TimedBefore(steps, states, n, k, round, start, end) ==> TimedBefore(steps, states, n + 1, k, round, start, end)
  {
    hide Begins, Finishes;
  }

  lemma TimedProcess(c: Setup, steps: seq<Step>, states: seq<State>, n: nat, k: nat)
    requires IsRun(c, steps, states) && n < |steps| && Timed(steps, states, n) && k < |states[n + 1].procs|
    ensures ProcessTimed(steps, states, n + 1, k)
  {
    hide Ms, BegunBefore, TimedBefore;
    var s, s' := states[n], states[n + 1];
    assert s' == Next(c, s, steps[n]);
    MsCuts(s.clock);
    var p := s'.procs[k];
    if p.Running? {
      if steps[n] == Begin(k) {
        BeginsNow(steps, states, n, k, s'.round, p.start);
      } else {
        assert ProcessTimed(steps, states, n, k) && s.procs[k] == p;
        TimedLater(steps, states, n, k, s.round, p.start, p.start);
      }
    } else if p.Ended? {
      assert ProcessTimed(steps, states, n, k);
      if steps[n] == Finish(k) {
        FinishesNow(steps, states, n, k, s'.round, p.start, p.end);
      } else {
        assert s.procs[k] == p;
        TimedLater(steps, states, n, k, s.round, p.start, p.end);
      }
    }
  }

  lemma BeginsNow(steps: seq<Step>, states: seq<State>, n: nat, k: nat, round: nat, start: real)
    requires Begins(steps, states, n, k, round, start)
    ensures BegunBefore(steps, states, n + 1, k, round, start)
  {
  }

  lemma FinishesNow(steps: seq<Step>, states: seq<State>, n: nat, k: nat, round: nat, start: real, end: real)
    requires BegunBefore(steps, states, n, k, round, start) && Finishes(steps, states, n, k, round, end)
    ensures TimedBefore(steps, states, n + 1, k, round, start, end)
  {
    hide Begins, Finishes;
  }

  lemma {:induction false} RunIsTimed(c: Setup, steps: seq<Step>, states: seq<State>, n: nat)
    requires IsRun(c, steps, states) && n <= |steps|
    ensures Timed(steps, states, n)
  {
    if n > 0 {
      RunIsTimed(c, steps, states, n - 1);
      var s, s' := states[n - 1], states[n];
      forall k: nat | k < |s'.procs|
        ensures ProcessTimed(steps, states, n, k)
      {
        TimedProcess(c, steps, states, n - 1, k);
      }
      forall i | 0 <= i < |s'.rows|
        ensures TimedBefore(steps, states, n, s'.rows[i].instance, s'.rows[i].round, s'.rows[i].start, s'.rows[i].end)
      {
        TimedRow(c, steps, states, n - 1, i);
      }
    }
  }

  lemma TimedRow(c: Setup, steps: seq<Step>, states: seq<State>, n: nat, i: nat)
    requires IsRun(c, steps, states) && n < |steps| && Timed(steps, states, n) && i < |states[n + 1].rows|
    ensures var r := states[n + 1].rows[i]; TimedBefore(steps, states, n + 1, r.instance, r.round, r.start, r.end)
  {
    hide Ms, BegunBefore, TimedBefore;
    var s, s' := states[n], states[n + 1];
    assert s' == Next(c, s, steps[n]);
    var r := s'.rows[i];
    if i < |s.rows| {
      assert r == s.rows[i];
    } else {
      assert steps[n] == Append(r.instance) && s.procs[r.instance] == Ended(r.start, r.end);
      assert ProcessTimed(steps, states, n, r.instance) && r.round == s.round;
    }
    TimedLater(steps, states, n, r.instance, r.round, r.start, r.end);
  }

  /**
   * Every row's timestamps are the instants of its own process's two steps, cut to milliseconds: in
   * its round instance k began at t and finished later at u, with start <= t < start + 1 ms and
   * end <= u < end + 1 ms.
   */
  lemma RowsAreTimed(c: Setup, steps: seq<Step>, s: State, i: nat) returns (states: seq<State>, b: nat, f: nat)
    requires Reaches(c, steps, s) && i < |s.rows|
    ensures IsRun(c, steps, states) && states[|steps|] == s
    ensures b < f < |steps| && steps[b] == Begin(s.rows[i].instance) && steps[f] == Finish(s.rows[i].instance)
    ensures states[b].round == states[f].round == s.rows[i].round
    ensures CutOf(s.rows[i].start, states[b].clock) && CutOf(s.rows[i].end, states[f].clock)
  {
    states := RunOf(c, steps, s);
    RunIsTimed(c, steps, states, |steps|);
    var r := s.rows[i];
    var b', f' :| b' < f' < |steps| && Begins(steps, states, b', r.instance, r.round, r.start)
      && Finishes(steps, states, f', r.instance, r.round, r.end);
    b, f := b', f';
  }

  // ----- The pause between rounds

  /** Earlier rounds are over by at least the pause. */
  ghost predicate Paused(c: Setup, s: State) {
    && (forall i :: 0 <= i < |s.rows| && s.rows[i].round < s.round ==> s.rows[i].end + c.delay <= s.since)
    && (forall i, j :: 0 <= i < |s.rows| && 0 <= j < |s.rows| && s.rows[i].round < s.rows[j].round ==>
          s.rows[i].end + c.delay < s.rows[j].start + 0.001)
  }

  lemma StepKeepsPaused(c: Setup, s: State, step: Step)
    requires Inv(c, s) && Paused(c, s) && Enabled(c, s, step)
    ensures Paused(c, Next(c, s, step))
  {
    var s' := Next(c, s, step);
    MsCuts(s.clock);
    MsCuts(s.since);
    hide Ms, Count;
    match step
    case Append(k) =>
      assert ProcessOk(s, k);
      forall i | 0 <= i < |s'.rows| ensures i < |s.rows| ==> s'.rows[i] == s.rows[i] && RowOk(c, s, s.rows[i]) {
        assert i < |s.rows| ==> RowOk(c, s, s.rows[i]);
      }
    case Barrier =>
      forall i | 0 <= i < |s.rows| ensures s.rows[i].end + c.delay <= s'.since {
        assert RowOk(c, s, s.rows[i]);
      }
    case _ =>
  }

  lemma {:induction false} ReachablePaused(c: Setup, steps: seq<Step>, s: State)
    requires c.delay >= 0.0 && Reaches(c, steps, s)
    ensures Paused(c, s)
  {
    if steps != [] {
      var n := |steps| - 1;
      var before :| Reaches(c, steps[..n], before) && Enabled(c, before, steps[n]) && s == Next(c, before, steps[n]);
      ReachablePaused(c, steps[..n], before);
      ReachableInv(c, steps[..n], before);
      StepKeepsPaused(c, before, steps[n]);
    }
  }

  /** Windows of different rounds are apart by the pause, but for the millisecond cut off. */
  lemma RoundsArePaused(c: Setup, steps: seq<Step>, s: State, i: nat, j: nat)
    requires c.delay >= 0.0 && Reaches(c, steps, s)
    requires i < |s.rows| && j < |s.rows| && s.rows[i].round < s.rows[j].round
    ensures s.rows[i].end + c.delay < s.rows[j].start + 0.001
  {
    ReachablePaused(c, steps, s);
  }

  // ----- Exactly when windows cannot overlap

  lemma Extend(c: Setup, steps: seq<Step>, s: State, step: Step) returns (s': State)
    requires Reaches(c, steps, s) && Enabled(c, s, step)
    ensures s' == Next(c, s, step) && Reaches(c, steps + [step], s')
  {
    s' := Next(c, s, step);
    assert (steps + [step])[..|steps|] == steps;
  }

  function Forks(vms: nat, n: nat): (procs: seq<Process>)
    requires n <= vms
    ensures |procs| == vms && forall k :: 0 <= k < vms ==> procs[k] == if k < n then Forked else Absent
  {
    seq(vms, k => if k < n then Forked else Absent)
  }

  /** The state after forking the first n processes of round 1 at instant 0. */
  lemma {:induction false} SpawnMany(c: Setup, n: nat) returns (steps: seq<Step>, s: State)
    requires n <= c.vms && c.rounds >= 1
    ensures Reaches(c, steps, s) && s == State(0.0, 0.0, 1, n, Forks(c.vms, n), [])
  {
    if n == 0 {
      steps, s := [], Initial(c, 0.0);
      assert AllAbsent(c.vms) == Forks(c.vms, 0);
    } else {
      var before;
      steps, before := SpawnMany(c, n - 1);
      s := Extend(c, steps, before, Spawn);
      steps := steps + [Spawn];
      assert Forks(c.vms, n - 1)[n - 1 := Forked] == Forks(c.vms, n);
    }
  }

  /** Two processes begin before either ends. */
  lemma TwoRunning(c: Setup) returns (steps: seq<Step>, s: State)
    requires c.vms >= 2 && c.rounds >= 1
    ensures Reaches(c, steps, s) && s.clock == 1.0 && s.round == 1 && s.rows == [] && |s.procs| == c.vms
    ensures s.procs[0] == Running(Ms(0.0)) && s.procs[1] == Running(Ms(0.0))
  {
    hide Reaches, Ms;
    steps, s := SpawnMany(c, c.vms);
    s := Extend(c, steps, s, Begin(0));
    steps := steps + [Begin(0)];
    s := Extend(c, steps, s, Begin(1));
    steps := steps + [Begin(1)];
    s := Extend(c, steps, s, Tick(1.0));
    steps := steps + [Tick(1.0)];
  }

  /** With two VMs some schedule records two windows that overlap. */
  lemma OverlapReachable(c: Setup) returns (steps: seq<Step>, s: State)
    requires c.vms >= 2 && c.rounds >= 1
    ensures Reaches(c, steps, s) && s.rows == [Row(1, 0, 0.0, 1.0), Row(1, 1, 0.0, 1.0)]
  {
    hide Reaches;
    steps, s := TwoRunning(c);
    assert Ms(0.0) == 0.0 && Ms(1.0) == 1.0;
    hide Ms;
    s := Extend(c, steps, s, Finish(0));
    steps := steps + [Finish(0)];
    s := Extend(c, steps, s, Finish(1));
    steps := steps + [Finish(1)];
    s := Extend(c, steps, s, Append(0));
    steps := steps + [Append(0)];
    s := Extend(c, steps, s, Append(1));
    steps := steps + [Append(1)];
  }

  /** Of any two windows one ends before the other begins, on every schedule. */
  ghost predicate NeverOverlaps(c: Setup) {
    forall steps, s, i, j :: Reaches(c, steps, s) && 0 <= i < j < |s.rows| ==>
      s.rows[i].end <= s.rows[j].start || s.rows[j].end <= s.rows[i].start
  }

  /** No two invocations overlap, whatever the schedule, exactly when there is at most one VM or no round. */
  lemma NeverOverlapsExactly(c: Setup)
    requires c.delay >= 0.0
    ensures NeverOverlaps(c) <==> c.vms <= 1 || c.rounds == 0
  {
    hide Reaches;
    if c.vms <= 1 || c.rounds == 0 {
      forall steps, s, i, j | Reaches(c, steps, s) && 0 <= i < j < |s.rows|
        ensures s.rows[i].end <= s.rows[j].start || s.rows[j].end <= s.rows[i].start
      {
        FewVmsWindowsDisjoint(c, steps, s, i, j);
      }
    } else {
      var steps, s := OverlapReachable(c);
      assert s.rows[0].end == 1.0 && s.rows[1].start == 0.0;
    }
  }

  lemma FewVmsWindowsDisjoint(c: Setup, steps: seq<Step>, s: State, i: nat, j: nat)
    requires c.delay >= 0.0 && (c.vms <= 1 || c.rounds == 0) && Reaches(c, steps, s) && i < j < |s.rows|
    ensures s.rows[i].end <= s.rows[j].start || s.rows[j].end <= s.rows[i].start
  {
    ReachableInv(c, steps, s);
    assert RowOk(c, s, s.rows[i]);
    SingleVmWindowsDisjoint(c, steps, s, i, j);
  }

  /** The barrier cannot hang: unless the loop is over or asleep, some process or the loop itself can move. */
  lemma SomeStepEnabled(c: Setup, s: State) returns (step: Step)
    requires Inv(c, s) && s.round <= c.rounds && s.clock >= s.since
    ensures Enabled(c, s, step) && !step.Tick?
  {
    if s.spawned < c.vms {
      return Spawn;
    }
    if k: nat :| k < c.vms && !s.procs[k].Done? {
      assert k >= s.spawned <==> s.procs[k].Absent?;
      match s.procs[k]
      case Forked => return Begin(k);
      case Running(_) => return Finish(k);
      case Ended(_, _) => return Append(k);
    }
    return Barrier;
  }

  // ----- The experiment itself

  /** Steps a process still takes until it is done. */
  function StepsLeft(p: Process): nat {
    match p
    case Absent => 4
    case Forked => 3
    case Running(_) => 2
    case Ended(_, _) => 1
    case Done => 0
  }

  /** The loop and its background processes, updated in place; `steps` records what happened so far. */
  class Experiment {
    const c: Setup
    var clock: real
    var since: real
    var round: nat
    var spawned: nat
    var procs: seq<Process>
    var rows: seq<Row>
    ghost var steps: seq<Step>

    constructor (c: Setup, now: real)
      requires c.delay >= 0.0
      ensures this.c == c && Valid() && Abs() == Initial(c, now)
    {
      this.c := c;
      clock, since, round, spawned, procs, rows, steps := now, now, 1, 0, AllAbsent(c.vms), [], [];
      new;
      assert Abs() == Initial(c, now);
    }

    ghost function Abs(): State
      reads this
    {
      State(clock, since, round, spawned, procs, rows)
    }

    ghost predicate Valid()
      reads this
    {
      c.delay >= 0.0 && Reaches(c, steps, Abs()) && |procs| == c.vms
    }

    /** One thing happens. */
    method Do(step: Step)
      requires Valid() && Enabled(c, Abs(), step)
      modifies this
      ensures Abs() == Next(c, old(Abs()), step) && Valid()
    {
      ghost var before := Abs();
      match step {
        case Tick(now) => clock := now;
        case Spawn => procs := procs[spawned := Forked]; spawned := spawned + 1;
        case Begin(k) => procs := procs[k := Running(Ms(clock))];
        case Finish(k) => procs := procs[k := Ended(procs[k].start, Ms(clock))];
        case Append(k) =>
          rows := rows + [Row(round, k, procs[k].start, procs[k].end)];
          procs := procs[k := Done];
        case Barrier =>
          round, spawned, procs, since := round + 1, 0, AllAbsent(c.vms), clock + c.delay;
      }
      assert (steps + [step])[..|steps|] == steps;
      steps := steps + [step];
      assert Reaches(c, steps, Abs()) by {
        assert Reaches(c, steps[..|steps| - 1], before);
      }
    }

    /** The loop is where it was, time has not run back, and no process has lost ground. */
    twostate predicate OnlyProcessesMoved()
      reads this
    {
      && round == old(round) && spawned == old(spawned) && since == old(since) && clock >= old(clock)
      && |procs| == |old(procs)|
      && forall k :: 0 <= k < |procs| ==>
           StepsLeft(procs[k]) <= StepsLeft(old(procs)[k]) && (procs[k].Absent? <==> old(procs)[k].Absent?)
    }

    /** The next step of instance k's process. */
    method Advance(k: nat)
      requires Valid() && k < c.vms && 1 <= StepsLeft(procs[k]) <= 3
      modifies this
      ensures Valid() && OnlyProcessesMoved() && StepsLeft(procs[k]) == StepsLeft(old(procs[k])) - 1
    {
      match procs[k]
      case Forked => Do(Begin(k));
      case Running(_) => Do(Finish(k));
      case Ended(_, _) => Do(Append(k));
    }

    /** Any processes move, any number of times, while time passes. */
    method Background()
      requires Valid()
      modifies this
      ensures Valid() && OnlyProcessesMoved()
    {
      var turns: nat :| true;
      while turns > 0
        invariant Valid() && OnlyProcessesMoved()
      {
        var now: real := *;
        var k: nat :| true;
        if now >= clock {
          Do(Tick(now));
        }
        if k < c.vms && 1 <= StepsLeft(procs[k]) <= 3 {
          Advance(k);
        }
        turns := turns - 1;
      }
    }

    /** wait "$p": the others go on meanwhile. */
    method Wait(k: nat)
      requires Valid() && k < c.vms && !procs[k].Absent?
      modifies this
      ensures Valid() && OnlyProcessesMoved() && procs[k].Done?
    {
      Background();
      while !procs[k].Done?
        invariant Valid() && OnlyProcessesMoved()
        decreases StepsLeft(procs[k])
      {
        Advance(k);
        Background();
      }
    }

    /** One round: fork one process per instance, await each of them, pause. */
    method Round()
      requires Valid() && round <= c.rounds && spawned == 0 && clock >= since
      modifies this
      ensures Valid() && round == old(round) + 1 && spawned == 0 && clock >= since
    {
      for k := 0 to c.vms
        invariant Valid() && round == old(round) && spawned == k && clock >= since
      {
        Do(Spawn);
        Background();
      }
      AllForked(c, steps, Abs());
      for k := 0 to c.vms
        invariant Valid() && round == old(round) && spawned == c.vms && clock >= since
        invariant forall j :: 0 <= j < c.vms ==> !procs[j].Absent?
        invariant forall j :: 0 <= j < k ==> procs[j].Done?
      {
        Wait(k);
      }
      Do(Barrier);
      var awake: real := *;
      Do(Tick(if awake >= since then awake else since));
    }

    /** The whole loop, whatever the processes and the clock do. */
    method Run()
      requires Valid() && round == 1 && spawned == 0 && clock >= since
      modifies this
      ensures forall r: nat, k: nat :: 1 <= r <= c.rounds && k < c.vms ==> Count(rows, r, k) == 1
      ensures forall i :: 0 <= i < |rows| ==> 1 <= rows[i].round <= c.rounds && rows[i].instance < c.vms
      ensures forall i, j :: 0 <= i < |rows| && 0 <= j < |rows| && rows[i].round < rows[j].round ==>
                rows[i].end <= rows[j].start
    {
      for i := 1 to c.rounds + 1
        invariant Valid() && round == i && spawned == 0 && clock >= since
      {
        Round();
      }
      OneRowPerInvocation(c, steps, Abs());
      forall i, j | 0 <= i < |rows| && 0 <= j < |rows| && rows[i].round < rows[j].round
        ensures rows[i].end <= rows[j].start
      {
        RoundsDoNotOverlap(c, steps, Abs(), i, j);
      }
    }
  }

  lemma AllForked(c: Setup, steps: seq<Step>, s: State)
    requires c.delay >= 0.0 && Reaches(c, steps, s) && s.spawned == c.vms
    ensures forall k :: 0 <= k < |s.procs| ==> !s.procs[k].Absent?
  {
    ReachableInv(c, steps, s);
  }
}
