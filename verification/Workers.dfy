/**
 * One iteration of the driver: a worker thread per endpoint sends its slice of the payloads
 * one request at a time, and all workers append to one shared results list. What comes back
 * for a request is an arbitrary oracle; every interleaving of the workers is considered.
 */
module Workers {
  import opened Arithmetic
  import opened Sequences

  /** What becomes of one run: three ways to drop it and one to keep it. */
  datatype Outcome = RequestFailed | Unparseable | NoVersion | Usable(text: string)

  datatype Record = Record(thread: nat, run: nat, payload: string, text: string)

  /** runs is the number of runs per endpoint; outcome(t, r) is what run r of thread t meets with. */
  datatype Iteration = Iteration(endpoints: seq<string>, runs: nat, payloads: seq<string>, outcome: (nat, nat) -> Outcome)
  {
    /** The driver's list holds at least runs * endpoints payloads. */
    ghost predicate Sized() {
      |payloads| >= |endpoints| * runs
    }
  }

  /** Where a worker is within one run: before the request, waiting for the response, holding the response. */
  datatype Phase = Idle | Waiting | Answered

  /**
   * submitted: tasks handed to the pool so far; next, phase: each worker's position;
   * open: the requests on the wire, by endpoint; drops: runs dropped so far.
   */
  datatype State = State(submitted: nat, next: seq<nat>, phase: seq<Phase>, open: multiset<string>,
                         results: seq<Record>, drops: nat)

  datatype Step = Submit | Send(t: nat) | Return(t: nat) | Settle(t: nat)

  function Start(c: Iteration): State {
    State(0, seq(|c.endpoints|, i => 0), seq(|c.endpoints|, i => Idle), multiset{}, [], 0)
  }

  predicate Shaped(c: Iteration, s: State) {
    |s.next| == |s.phase| == |c.endpoints|
  }

  predicate Enabled(c: Iteration, s: State, step: Step)
    requires Shaped(c, s)
  {
    match step
    case Submit => s.submitted < |c.endpoints|
    case Send(t) => t < |c.endpoints| && t < s.submitted && s.phase[t] == Idle && s.next[t] < c.runs
    case Return(t) => t < |c.endpoints| && s.phase[t] == Waiting
    case Settle(t) => t < |c.endpoints| && s.phase[t] == Answered && s.next[t] < c.runs
  }

  /** The worker is done with its current run and goes on to the next. */
  function Advance(s: State, t: nat): State
    requires t < |s.next| && t < |s.phase|
  {
    s.(next := s.next[t := s.next[t] + 1], phase := s.phase[t := Idle])
  }

  function RecordOf(c: Iteration, t: nat, r: nat): Record
    requires c.outcome(t, r).Usable? && t * c.runs + r < |c.payloads|
  {
    Record(t, r, c.payloads[t * c.runs + r], c.outcome(t, r).text)
  }

  lemma SlotInRange(c: Iteration, t: nat, r: nat)
    requires c.Sized() && t < |c.endpoints| && r < c.runs
    ensures t * c.runs + r < |c.payloads|
  {
    MulMonotone(t + 1, |c.endpoints|, c.runs);
    assert (t + 1) * c.runs == t * c.runs + c.runs;
  }

  function Next(c: Iteration, s: State, step: Step): State
    requires c.Sized() && Shaped(c, s) && Enabled(c, s, step)
  {
    match step
    case Submit => s.(submitted := s.submitted + 1)
    case Send(t) =>
      s.(phase := s.phase[t := Waiting], open := s.open + multiset{c.endpoints[t]})
    case Return(t) =>
      var s' := s.(open := s.open - multiset{c.endpoints[t]});
      if c.outcome(t, s.next[t]).RequestFailed? then Advance(s', t).(drops := s.drops + 1)
      else s'.(phase := s.phase[t := Answered])
    case Settle(t) =>
      SlotInRange(c, t, s.next[t]);
      if c.outcome(t, s.next[t]).Usable?
      then Advance(s, t).(results := s.results + [RecordOf(c, t, s.next[t])])
      else Advance(s, t).(drops := s.drops + 1)
  }

  // ----- What every step keeps

  /** The records of one thread, in the order they were appended. */
  function Of(results: seq<Record>, t: nat): seq<Record> {
    if results == [] then []
    else
      var last := results[|results| - 1];
      Of(results[..|results| - 1], t) + if last.thread == t then [last] else []
  }

  /** The usable records among the first n runs of thread t, by increasing run. */
  function UsableRuns(c: Iteration, t: nat, n: nat): seq<Record>
    requires c.Sized() && t < |c.endpoints| && n <= c.runs
  {
    if n == 0 then []
    else
      SlotInRange(c, t, n - 1);
      UsableRuns(c, t, n - 1) + if c.outcome(t, n - 1).Usable? then [RecordOf(c, t, n - 1)] else []
  }

  function Total(v: seq<nat>): nat {
    if v == [] then 0 else Total(v[..|v| - 1]) + v[|v| - 1]
  }

  /** 1 when worker t waits on the endpoint, else 0. */
  function Waits(c: Iteration, s: State, t: nat, url: string): nat
    requires Shaped(c, s) && t < |c.endpoints|
  {
    if s.phase[t] == Waiting && c.endpoints[t] == url then 1 else 0
  }

  /** How many of the first n workers wait on the endpoint. */
  function Waiters(c: Iteration, s: State, n: nat, url: string): nat
    requires Shaped(c, s) && n <= |c.endpoints|
  {
    if n == 0 then 0 else Waiters(c, s, n - 1, url) + Waits(c, s, n - 1, url)
  }

  ghost predicate WorkerOk(c: Iteration, s: State, t: nat)
    requires Shaped(c, s) && c.Sized() && t < |c.endpoints|
  {
    && s.next[t] <= c.runs && (s.phase[t] != Idle ==> s.next[t] < c.runs)
    && (t >= s.submitted ==> s.phase[t] == Idle && s.next[t] == 0)
    && (s.phase[t] == Answered ==> !c.outcome(t, s.next[t]).RequestFailed?)
    && Of(s.results, t) == UsableRuns(c, t, s.next[t])
  }

  ghost predicate Inv(c: Iteration, s: State) {
    && Shaped(c, s) && s.submitted <= |c.endpoints| && c.Sized()
    && (forall t: nat :: t < |c.endpoints| ==> WorkerOk(c, s, t))
    && (forall i :: 0 <= i < |s.results| ==> s.results[i].thread < |c.endpoints|)
    && |s.results| + s.drops == Total(s.next)
    && (forall url :: s.open[url] == Waiters(c, s, |c.endpoints|, url))
  }

  lemma {:induction false} TotalUpdate(v: seq<nat>, t: nat, x: nat)
    requires t < |v|
    ensures Total(v[t := x]) == Total(v) - v[t] + x
  {
    var n := |v| - 1;
    if t == n {
      assert v[t := x][..n] == v[..n];
    } else {
      TotalUpdate(v[..n], t, x);
      assert v[t := x][..n] == v[..n][t := x];
    }
  }

  lemma {:induction false} TotalZero(v: seq<nat>)
    requires forall i :: 0 <= i < |v| ==> v[i] == 0
    ensures Total(v) == 0
  {
    if v != [] {
      TotalZero(v[..|v| - 1]);
    }
  }

  /** A step of worker t changes the waiters by what it changes for t. */
  lemma {:induction false} WaitersUpdate(c: Iteration, s: State, s': State, t: nat, n: nat, url: string)
    requires Shaped(c, s) && Shaped(c, s') && t < |c.endpoints| && n <= |c.endpoints|
    requires s'.phase == s.phase[t := s'.phase[t]]
    ensures Waiters(c, s', n, url) - Waiters(c, s, n, url)
            == if t < n then Waits(c, s', t, url) - Waits(c, s, t, url) else 0
  {
    if n > 0 {
      WaitersUpdate(c, s, s', t, n - 1, url);
    }
  }

  lemma {:induction false} NobodyWaits(c: Iteration, s: State, n: nat, url: string)
    requires Shaped(c, s) && n <= |c.endpoints| && forall t :: 0 <= t < n ==> s.phase[t] != Waiting
    ensures Waiters(c, s, n, url) == 0
  {
    if n > 0 {
      NobodyWaits(c, s, n - 1, url);
    }
  }

  lemma StartInv(c: Iteration)
    requires c.Sized()
    ensures Inv(c, Start(c))
  {
    TotalZero(Start(c).next);
    forall url ensures Waiters(c, Start(c), |c.endpoints|, url) == 0 {
      NobodyWaits(c, Start(c), |c.endpoints|, url);
    }
  }

  lemma OfAppend(results: seq<Record>, r: Record, t: nat)
    ensures Of(results + [r], t) == Of(results, t) + if r.thread == t then [r] else []
  {
    assert (results + [r])[..|results|] == results;
  }

  /** What a step of worker t leaves alone: the other workers, and all records so far. */
  lemma StepEffect(c: Iteration, s: State, step: Step)
    requires c.Sized() && Shaped(c, s) && Enabled(c, s, step) && step != Submit
    ensures var s', t := Next(c, s, step), step.t;
            && Shaped(c, s') && s'.submitted == s.submitted
            && s'.phase == s.phase[t := s'.phase[t]] && s'.next == s.next[t := s'.next[t]]
            && (s'.results == s.results
                || (s'.results == s.results + [s'.results[|s.results|]] && s'.results[|s.results|].thread == t))
            && s'.next[t] + |s.results| + s.drops == s.next[t] + |s'.results| + s'.drops
  {
  }

  /** The records of the worker that moves stay those of its finished runs. */
  lemma StepKeepsRecords(c: Iteration, s: State, step: Step)
    requires c.Sized() && Shaped(c, s) && Enabled(c, s, step) && step != Submit && s.next[step.t] <= c.runs
    requires step.Return? ==> s.next[step.t] < c.runs
    requires Of(s.results, step.t) == UsableRuns(c, step.t, s.next[step.t])
    ensures var s', t := Next(c, s, step), step.t;
            Shaped(c, s') && s'.next[t] <= c.runs && Of(s'.results, t) == UsableRuns(c, t, s'.next[t])
  {
    hide Of;
    var s', t := Next(c, s, step), step.t;
    if s'.results != s.results {
      OfAppend(s.results, s'.results[|s.results|], t);
    }
  }

  /** A step of worker t keeps t's own part of the invariant. */
  lemma StepKeepsWorkerOk(c: Iteration, s: State, step: Step)
    requires c.Sized() && Shaped(c, s) && Enabled(c, s, step) && step != Submit && WorkerOk(c, s, step.t)
    ensures Shaped(c, Next(c, s, step)) && WorkerOk(c, Next(c, s, step), step.t)
  {
    StepKeepsRecords(c, s, step);
    hide Of, UsableRuns, RecordOf;
  }

  lemma StepWaiters(c: Iteration, s: State, step: Step, url: string)
    requires c.Sized() && Shaped(c, s) && Enabled(c, s, step) && Shaped(c, Next(c, s, step))
    requires s.open[url] == Waiters(c, s, |c.endpoints|, url)
    ensures Next(c, s, step).open[url] == Waiters(c, Next(c, s, step), |c.endpoints|, url)
  {
    var s' := Next(c, s, step);
    if step == Submit {
      SamePhasesSameWaiters(c, s, s', |c.endpoints|, url);
    } else {
      WaitersUpdate(c, s, s', step.t, |c.endpoints|, url);
      if step.Return? {
        WaitersCount(c, s, step.t, |c.endpoints|);
      }
    }
  }

  lemma {:induction false} SamePhasesSameWaiters(c: Iteration, s: State, s': State, n: nat, url: string)
    requires Shaped(c, s) && Shaped(c, s') && n <= |c.endpoints| && s.phase == s'.phase
    ensures Waiters(c, s, n, url) == Waiters(c, s', n, url)
  {
    if n > 0 {
      SamePhasesSameWaiters(c, s, s', n - 1, url);
    }
  }

  lemma {:induction false} WaitersCount(c: Iteration, s: State, t: nat, n: nat)
    requires Shaped(c, s) && t < n <= |c.endpoints| && s.phase[t] == Waiting
    ensures Waiters(c, s, n, c.endpoints[t]) >= 1
  {
    if t < n - 1 {
      WaitersCount(c, s, t, n - 1);
    }
  }

  /** A step keeps every worker's part of the invariant, its own and the others'. */
  lemma StepKeepsWorkers(c: Iteration, s: State, step: Step, u: nat)
    requires c.Sized() && Inv(c, s) && Enabled(c, s, step) && u < |c.endpoints|
    ensures Shaped(c, Next(c, s, step)) && WorkerOk(c, Next(c, s, step), u)
  {
    assert WorkerOk(c, s, u);
    if step != Submit && step.t == u {
      StepKeepsWorkerOk(c, s, step);
    } else if step != Submit {
      var s' := Next(c, s, step);
      StepEffect(c, s, step);
      hide Inv, Next, Of, UsableRuns;
      if s'.results != s.results {
        OfAppend(s.results, s'.results[|s.results|], u);
      }
    }
  }

  /** Every step of every worker keeps the invariant. */
  lemma StepKeepsInv(c: Iteration, s: State, step: Step)
    requires c.Sized() && Inv(c, s) && Enabled(c, s, step)
    ensures Inv(c, Next(c, s, step))
  {
    var s' := Next(c, s, step);
    if step != Submit {
      assert WorkerOk(c, s, step.t);
      StepEffect(c, s, step);
      TotalUpdate(s.next, step.t, s'.next[step.t]);
    }
    forall u: nat | u < |c.endpoints| ensures WorkerOk(c, s', u) {
      StepKeepsWorkers(c, s, step, u);
    }
    forall url ensures s'.open[url] == Waiters(c, s', |c.endpoints|, url) {
      StepWaiters(c, s, step, url);
    }
    hide WorkerOk, Waiters;
  }

  // ----- Runs

  /** The steps can be taken one after the other from the start, and lead to s. */
  ghost predicate Reaches(c: Iteration, steps: seq<Step>, s: State)
    requires c.Sized()
  {
    if steps == [] then s == Start(c)
    else
      var n := |steps| - 1;
      exists before :: Reaches(c, steps[..n], before) && Shaped(c, before) && Enabled(c, before, steps[n])
                       && s == Next(c, before, steps[n])
  }

  lemma {:induction false} ReachableInv(c: Iteration, steps: seq<Step>, s: State)
    requires c.Sized() && Reaches(c, steps, s)
    ensures Inv(c, s)
  {
    if steps == [] {
      StartInv(c);
    } else {
      var n := |steps| - 1;
      var before :| Reaches(c, steps[..n], before) && Shaped(c, before) && Enabled(c, before, steps[n])
                    && s == Next(c, before, steps[n]);
      ReachableInv(c, steps[..n], before);
      StepKeepsInv(c, before, steps[n]);
    }
  }

  /** The pool has closed: every task was submitted and every worker finished its runs. */
  predicate Closed(c: Iteration, s: State) {
    && Shaped(c, s) && s.submitted == |c.endpoints|
    && forall t :: 0 <= t < |c.endpoints| ==> s.next[t] == c.runs && s.phase[t] == Idle
  }

  lemma {:induction false} TotalConstant(v: seq<nat>, x: nat)
    requires forall i :: 0 <= i < |v| ==> v[i] == x
    ensures Total(v) == |v| * x
  {
    if v != [] {
      TotalConstant(v[..|v| - 1], x);
      assert |v| * x == (|v| - 1) * x + x;
    }
  }

  /**
   * When the pool closes, on whatever schedule: the results are a merge of the workers' lists
   * of usable runs, each in increasing run order; kept and dropped runs add up to all runs;
   * and nothing is left on the wire.
   */
  lemma ClosedResults(c: Iteration, steps: seq<Step>, s: State)
    requires c.Sized() && Reaches(c, steps, s) && Closed(c, s)
    ensures forall t :: 0 <= t < |c.endpoints| ==> Of(s.results, t) == UsableRuns(c, t, c.runs)
    ensures forall i :: 0 <= i < |s.results| ==> s.results[i].thread < |c.endpoints|
    ensures |s.results| + s.drops == |c.endpoints| * c.runs
    ensures s.open == multiset{}
  {
    ReachableInv(c, steps, s);
    TotalConstant(s.next, c.runs);
    forall t: nat | t < |c.endpoints| ensures Of(s.results, t) == UsableRuns(c, t, c.runs) {
      assert WorkerOk(c, s, t);
    }
    forall url ensures s.open[url] == 0 {
      NobodyWaits(c, s, |c.endpoints|, url);
    }
  }

  lemma {:induction false} OfKeepsCount(results: seq<Record>, r: Record)
    ensures multiset(Of(results, r.thread))[r] == multiset(results)[r]
  {
    if results != [] {
      var n := |results| - 1;
      OfKeepsCount(results[..n], r);
      assert results == results[..n] + [results[n]];
    }
  }

  lemma {:induction false} UsableRunsDistinct(c: Iteration, t: nat, n: nat, r: Record)
    requires c.Sized() && t < |c.endpoints| && n <= c.runs
    ensures r in UsableRuns(c, t, n) ==> r.thread == t && r.run < n
    ensures multiset(UsableRuns(c, t, n))[r] <= 1
  {
    if n > 0 {
      UsableRunsDistinct(c, t, n - 1, r);
    }
  }

  lemma EachRecordOnce(c: Iteration, s: State, r: Record)
    requires Inv(c, s)
    ensures multiset(s.results)[r] <= 1
  {
    OfKeepsCount(s.results, r);
    if r.thread < |c.endpoints| {
      assert WorkerOk(c, s, r.thread);
      UsableRunsDistinct(c, r.thread, s.next[r.thread], r);
    } else {
      assert r !in s.results;
    }
  }

  /** A thread's records are determined by their runs. */
  lemma {:induction false} UsableRecord(c: Iteration, t: nat, n: nat, r: Record)
    requires c.Sized() && t < |c.endpoints| && n <= c.runs && r in UsableRuns(c, t, n)
    ensures r.thread == t && r.run < n && c.outcome(t, r.run).Usable?
    ensures t * c.runs + r.run < |c.payloads| && r == RecordOf(c, t, r.run)
  {
    SlotInRange(c, t, n - 1);
    if !(c.outcome(t, n - 1).Usable? && r == RecordOf(c, t, n - 1)) {
      UsableRecord(c, t, n - 1, r);
    }
  }

  lemma RecordOfItsRun(c: Iteration, s: State, i: nat)
    requires Inv(c, s) && i < |s.results|
    ensures var r := s.results[i];
            && r.thread < |c.endpoints| && r.run < c.runs && c.outcome(r.thread, r.run).Usable?
            && r.thread * c.runs + r.run < |c.payloads| && r == RecordOf(c, r.thread, r.run)
  {
    var r := s.results[i];
    assert r in s.results;
    OfKeepsCount(s.results, r);
    assert r in Of(s.results, r.thread);
    assert WorkerOk(c, s, r.thread);
    UsableRecord(c, r.thread, s.next[r.thread], r);
  }

  /** In every reachable state no two records are of the same run of the same thread. */
  lemma EachRunAtMostOnce(c: Iteration, steps: seq<Step>, s: State)
    requires c.Sized() && Reaches(c, steps, s)
    ensures forall i, j :: 0 <= i < j < |s.results| ==>
              s.results[i].thread != s.results[j].thread || s.results[i].run != s.results[j].run
  {
    ReachableInv(c, steps, s);
    hide Inv, Reaches;
    forall i, j | 0 <= i < j < |s.results|
      ensures s.results[i].thread != s.results[j].thread || s.results[i].run != s.results[j].run
    {
      RecordOfItsRun(c, s, i);
      RecordOfItsRun(c, s, j);
      EachRecordOnce(c, s, s.results[i]);
      if s.results[i] == s.results[j] {
        TwicePresent(s.results, i, j);
        assert false;
      }
    }
  }

  lemma {:induction false} UsableRunKept(c: Iteration, t: nat, n: nat, r: nat)
    requires c.Sized() && t < |c.endpoints| && r < n <= c.runs && c.outcome(t, r).Usable?
    ensures exists x :: x in UsableRuns(c, t, n) && x.run == r
  {
    hide RecordOf;
    if r == n - 1 {
      SlotInRange(c, t, r);
      assert RecordOf(c, t, r) in UsableRuns(c, t, n);
      RunOfRecord(c, t, r);
    } else {
      UsableRunKept(c, t, n - 1, r);
      var x :| x in UsableRuns(c, t, n - 1) && x.run == r;
      assert x in UsableRuns(c, t, n);
    }
  }

  lemma RunOfRecord(c: Iteration, t: nat, r: nat)
    requires c.outcome(t, r).Usable? && t * c.runs + r < |c.payloads|
    ensures RecordOf(c, t, r).thread == t && RecordOf(c, t, r).run == r
  {
  }

  lemma {:induction false} OfIsPart(results: seq<Record>, t: nat, x: Record)
    requires x in Of(results, t)
    ensures x in results && x.thread == t
  {
    var n := |results| - 1;
    if x in Of(results[..n], t) {
      OfIsPart(results[..n], t, x);
    }
  }

  /** When the pool closes, no usable run is missing. */
  lemma EveryUsableRunRecorded(c: Iteration, steps: seq<Step>, s: State, t: nat, r: nat)
    requires c.Sized() && Reaches(c, steps, s) && Closed(c, s)
    requires t < |c.endpoints| && r < c.runs && c.outcome(t, r).Usable?
    ensures exists x :: x in s.results && x.thread == t && x.run == r
  {
    ClosedResults(c, steps, s);
    UsableRunKept(c, t, c.runs, r);
    var x :| x in UsableRuns(c, t, c.runs) && x.run == r;
    OfIsPart(s.results, t, x);
  }

  lemma {:induction false} UsableRunsAscend(c: Iteration, t: nat, n: nat)
    requires c.Sized() && t < |c.endpoints| && n <= c.runs
    ensures forall i :: 0 <= i < |UsableRuns(c, t, n)| ==> UsableRuns(c, t, n)[i].run < n
    ensures forall i, j :: 0 <= i < j < |UsableRuns(c, t, n)| ==> UsableRuns(c, t, n)[i].run < UsableRuns(c, t, n)[j].run
  {
    if n > 0 {
      UsableRunsAscend(c, t, n - 1);
    }
  }

  /** Records of one thread stand in that thread's list in the same order. */
  lemma {:induction false} OfKeepsOrder(results: seq<Record>, i: nat, j: nat) returns (a: nat, b: nat)
    requires i <= j < |results| && results[i].thread == results[j].thread
    ensures var part := Of(results, results[j].thread);
            b < |part| && a <= b && part[a] == results[i] && part[b] == results[j] && (i < j ==> a < b)
  {
    var n, t := |results| - 1, results[j].thread;
    var before := Of(results[..n], t);
    if j < n {
      a, b := OfKeepsOrder(results[..n], i, j);
    } else if i < n {
      var a', b' := OfKeepsOrder(results[..n], i, i);
      a, b := a', |before|;
    } else {
      a, b := |before|, |before|;
    }
  }

  /** In every reachable state the records of one thread are in increasing run order. */
  lemma RunsInOrder(c: Iteration, steps: seq<Step>, s: State, i: nat, j: nat)
    requires c.Sized() && Reaches(c, steps, s) && i < j < |s.results| && s.results[i].thread == s.results[j].thread
    ensures s.results[i].run < s.results[j].run
  {
    ReachableInv(c, steps, s);
    var t := s.results[j].thread;
    assert WorkerOk(c, s, t);
    var a, b := OfKeepsOrder(s.results, i, j);
    UsableRunsAscend(c, t, s.next[t]);
  }

  /** The multiset of results depends on the outcomes only, not on the schedule. */
  lemma ScheduleIndependent(c: Iteration, steps1: seq<Step>, s1: State, steps2: seq<Step>, s2: State)
    requires c.Sized() && Reaches(c, steps1, s1) && Closed(c, s1) && Reaches(c, steps2, s2) && Closed(c, s2)
    ensures multiset(s1.results) == multiset(s2.results) && s1.drops == s2.drops
  {
    ClosedResults(c, steps1, s1);
    ClosedResults(c, steps2, s2);
    hide *;
    SameMerge(c, s1.results, s2.results);
  }

  lemma SameMerge(c: Iteration, results1: seq<Record>, results2: seq<Record>)
    requires forall t :: 0 <= t < |c.endpoints| ==> Of(results1, t) == Of(results2, t)
    requires forall i :: 0 <= i < |results1| ==> results1[i].thread < |c.endpoints|
    requires forall i :: 0 <= i < |results2| ==> results2[i].thread < |c.endpoints|
    ensures multiset(results1) == multiset(results2) && |results1| == |results2|
  {
    hide Of;
    forall r: Record ensures multiset(results1)[r] == multiset(results2)[r] {
      ClosedCount(c, results1, results2, r);
    }
    EqualCounts(results1, results2);
  }

  lemma EqualCounts(u: seq<Record>, v: seq<Record>)
    requires forall r: Record :: multiset(u)[r] == multiset(v)[r]
    ensures multiset(u) == multiset(v) && |u| == |v|
  {
    assert multiset(u) == multiset(v);
    assert |u| == |multiset(u)| && |v| == |multiset(v)|;
  }

  lemma ClosedCount(c: Iteration, results1: seq<Record>, results2: seq<Record>, r: Record)
    requires forall t :: 0 <= t < |c.endpoints| ==> Of(results1, t) == Of(results2, t)
    requires forall i :: 0 <= i < |results1| ==> results1[i].thread < |c.endpoints|
    requires forall i :: 0 <= i < |results2| ==> results2[i].thread < |c.endpoints|
    ensures multiset(results1)[r] == multiset(results2)[r]
  {
    OfKeepsCount(results1, r);
    OfKeepsCount(results2, r);
    if r.thread >= |c.endpoints| {
      assert r !in results1 && r !in results2;
    }
  }

  // ----- Progress

  function PhaseRank(p: Phase): nat {
    match p case Idle => 0 case Waiting => 1 case Answered => 2
  }

  /** Steps worker t may still take. */
  ghost function Left(c: Iteration, s: State, t: nat): nat
    requires c.Sized() && Shaped(c, s) && t < |c.endpoints| && WorkerOk(c, s, t)
  {
    3 * (c.runs - s.next[t]) - PhaseRank(s.phase[t])
  }

  ghost function Remaining(c: Iteration, s: State): (r: seq<nat>)
    requires Inv(c, s)
    ensures Shaped(c, s) && |r| == |c.endpoints|
    ensures forall t :: 0 <= t < |r| ==> r[t] == 3 * (c.runs - s.next[t]) - PhaseRank(s.phase[t])
  {
    seq(|c.endpoints|, t requires 0 <= t < |c.endpoints| => Left(c, s, t))
  }

  ghost function Work(c: Iteration, s: State): nat
    requires Inv(c, s)
  {
    |c.endpoints| - s.submitted + Total(Remaining(c, s))
  }

  lemma StepMovesWorker(c: Iteration, s: State, step: Step)
    requires c.Sized() && Shaped(c, s) && Enabled(c, s, step) && step != Submit
    ensures var s', t := Next(c, s, step), step.t;
            Shaped(c, s') && 3 * s'.next[t] + PhaseRank(s'.phase[t]) > 3 * s.next[t] + PhaseRank(s.phase[t])
  {
  }

  /** Every step uses up work, so no schedule goes on for ever. */
  lemma StepUsesWork(c: Iteration, s: State, step: Step)
    requires c.Sized() && Inv(c, s) && Enabled(c, s, step)
    ensures Inv(c, Next(c, s, step)) && Work(c, Next(c, s, step)) < Work(c, s)
  {
    StepKeepsInv(c, s, step);
    var s' := Next(c, s, step);
    var before, after := Remaining(c, s), Remaining(c, s');
    if step == Submit {
      assert after == before;
    } else {
      StepEffect(c, s, step);
      StepMovesWorker(c, s, step);
      hide Inv, WorkerOk, Total, Next, PhaseRank, Enabled;
      assert after == before[step.t := after[step.t]];
      TotalUpdate(before, step.t, after[step.t]);
    }
  }

  /** No schedule is longer than one submission per endpoint and three steps per run. */
  lemma {:induction false} ScheduleBound(c: Iteration, steps: seq<Step>, s: State)
    requires c.Sized() && Reaches(c, steps, s)
    ensures Inv(c, s) && |steps| + Work(c, s) <= |c.endpoints| + 3 * (|c.endpoints| * c.runs)
  {
    ReachableInv(c, steps, s);
    if steps == [] {
      TotalConstant(Remaining(c, s), 3 * c.runs);
      assert |c.endpoints| * (3 * c.runs) == 3 * (|c.endpoints| * c.runs);
    } else {
      var n := |steps| - 1;
      var before :| Reaches(c, steps[..n], before) && Shaped(c, before) && Enabled(c, before, steps[n])
                    && s == Next(c, before, steps[n]);
      ScheduleBound(c, steps[..n], before);
      StepUsesWork(c, before, steps[n]);
    }
  }

  /** No deadlock: until the pool closes some step is enabled. */
  lemma SomeStepEnabled(c: Iteration, s: State) returns (step: Step)
    requires Inv(c, s) && !Closed(c, s)
    ensures Enabled(c, s, step)
  {
    if s.submitted < |c.endpoints| {
      return Submit;
    }
    var t: nat :| t < |c.endpoints| && !(s.next[t] == c.runs && s.phase[t] == Idle);
    assert WorkerOk(c, s, t);
    match s.phase[t]
    case Idle => return Send(t);
    case Waiting => return Return(t);
    case Answered => return Settle(t);
  }

  // ----- One request in flight per endpoint

  ghost predicate Distinct(endpoints: seq<string>) {
    forall i, j :: 0 <= i < j < |endpoints| ==> endpoints[i] != endpoints[j]
  }

  lemma {:induction false} WaitersAtMostOne(c: Iteration, s: State, n: nat, url: string)
    requires Shaped(c, s) && n <= |c.endpoints| && Distinct(c.endpoints)
    ensures Waiters(c, s, n, url) <= 1
    ensures (forall t :: 0 <= t < n ==> c.endpoints[t] != url) ==> Waiters(c, s, n, url) == 0
  {
    if n > 0 {
      WaitersAtMostOne(c, s, n - 1, url);
    }
  }

  ghost predicate OneInFlight(c: Iteration)
    requires c.Sized()
  {
    forall steps, s, url :: Reaches(c, steps, s) ==> s.open[url] <= 1
  }

  lemma Extend(c: Iteration, steps: seq<Step>, s: State, step: Step) returns (s': State)
    requires c.Sized() && Reaches(c, steps, s) && Inv(c, s) && Enabled(c, s, step)
    ensures s' == Next(c, s, step) && Reaches(c, steps + [step], s') && Inv(c, s')
  {
    s' := Next(c, s, step);
    assert (steps + [step])[..|steps|] == steps;
    StepKeepsInv(c, s, step);
  }

  lemma {:induction false} SubmitMany(c: Iteration, n: nat) returns (steps: seq<Step>, s: State)
    requires c.Sized() && n <= |c.endpoints|
    ensures Reaches(c, steps, s) && Inv(c, s) && s == Start(c).(submitted := n)
  {
    if n == 0 {
      steps, s := [], Start(c);
      StartInv(c);
    } else {
      steps, s := SubmitMany(c, n - 1);
      s := Extend(c, steps, s, Submit);
      steps := steps + [Submit];
    }
  }

  /**
   * "One in-flight request per endpoint" holds for every schedule exactly when no two function
   * files name the same endpoint: the limit is one per worker, not one per address.
   */
  lemma OneInFlightExactly(c: Iteration)
    requires c.Sized() && c.runs >= 1
    ensures OneInFlight(c) <==> Distinct(c.endpoints)
  {
    if Distinct(c.endpoints) {
      forall steps, s, url | Reaches(c, steps, s) ensures s.open[url] <= 1 {
        ReachableInv(c, steps, s);
        WaitersAtMostOne(c, s, |c.endpoints|, url);
      }
    } else {
      var i, j :| 0 <= i < j < |c.endpoints| && c.endpoints[i] == c.endpoints[j];
      var steps, s := TwoInFlight(c, i, j);
    }
  }

  lemma TwoInFlight(c: Iteration, i: nat, j: nat) returns (steps: seq<Step>, s: State)
    requires c.Sized() && c.runs >= 1 && i < j < |c.endpoints| && c.endpoints[i] == c.endpoints[j]
    ensures Reaches(c, steps, s) && s.open[c.endpoints[i]] == 2
  {
    steps, s := SubmitMany(c, |c.endpoints|);
    s := Extend(c, steps, s, Send(i));
    steps := steps + [Send(i)];
    s := Extend(c, steps, s, Send(j));
    steps := steps + [Send(j)];
  }

  // ----- The pool itself

  /** The state the worker threads share, updated in place one step at a time. */
  class Pool {
    const c: Iteration
    var submitted: nat
    var next: seq<nat>
    var phase: seq<Phase>
    var results: seq<Record>
    ghost var open: multiset<string>
    ghost var drops: nat

    constructor (c: Iteration)
      ensures this.c == c && Abs() == Start(c)
    {
      this.c := c;
      submitted, next, phase, results := 0, seq(|c.endpoints|, i => 0), seq(|c.endpoints|, i => Idle), [];
      open, drops := multiset{}, 0;
    }

    ghost function Abs(): State
      reads this
    {
      State(submitted, next, phase, open, results, drops)
    }

    method DoSubmit()
      requires c.Sized() && Shaped(c, Abs()) && Enabled(c, Abs(), Submit)
      modifies this
      ensures Abs() == Next(c, old(Abs()), Submit)
    {
      submitted := submitted + 1;
    }

    method DoSend(t: nat)
      requires c.Sized() && Shaped(c, Abs()) && Enabled(c, Abs(), Send(t))
      modifies this
      ensures Abs() == Next(c, old(Abs()), Send(t))
    {
      open := open + multiset{c.endpoints[t]};
      phase := phase[t := Waiting];
    }

    method DoReturn(t: nat)
      requires c.Sized() && Shaped(c, Abs()) && Enabled(c, Abs(), Return(t))
      modifies this
      ensures Abs() == Next(c, old(Abs()), Return(t))
    {
      open := open - multiset{c.endpoints[t]};
      if c.outcome(t, next[t]).RequestFailed? {
        drops := drops + 1;
        next := next[t := next[t] + 1];
        phase := phase[t := Idle];
      } else {
        phase := phase[t := Answered];
      }
    }

    method DoSettle(t: nat)
      requires c.Sized() && Shaped(c, Abs()) && Enabled(c, Abs(), Settle(t))
      modifies this
      ensures Abs() == Next(c, old(Abs()), Settle(t))
    {
      var run := next[t];
      var outcome := c.outcome(t, run);
      if outcome.Usable? {
        SlotInRange(c, t, run);
        results := results + [Record(t, run, c.payloads[t * c.runs + run], outcome.text)];
      } else {
        drops := drops + 1;
      }
      next := next[t := run + 1];
      phase := phase[t := Idle];
    }

    /** One step of whichever worker the scheduler picks. */
    method Turn() returns (ghost step: Step)
      requires c.Sized() && Inv(c, Abs()) && !Closed(c, Abs())
      modifies this
      ensures Enabled(c, old(Abs()), step) && Abs() == Next(c, old(Abs()), step)
    {
      step := SomeStepEnabled(c, Abs());
      if
      case submitted < |c.endpoints| =>
        step := Submit;
        DoSubmit();
      case exists t: nat :: t < |c.endpoints| && t < submitted && phase[t] == Idle && next[t] < c.runs =>
        var t: nat :| t < |c.endpoints| && t < submitted && phase[t] == Idle && next[t] < c.runs;
        step := Send(t);
        DoSend(t);
      case exists t: nat :: t < |c.endpoints| && phase[t] == Waiting =>
        var t: nat :| t < |c.endpoints| && phase[t] == Waiting;
        step := Return(t);
        DoReturn(t);
      case exists t: nat :: t < |c.endpoints| && phase[t] == Answered =>
        var t: nat :| t < |c.endpoints| && phase[t] == Answered;
        assert WorkerOk(c, Abs(), t);
        step := Settle(t);
        DoSettle(t);
    }

    /** Runs the pool under an arbitrary scheduler until it closes. */
    method Run() returns (ghost steps: seq<Step>)
      requires c.Sized() && Abs() == Start(c)
      modifies this
      ensures Reaches(c, steps, Abs()) && Closed(c, Abs())
    {
      steps := [];
      StartInv(c);
      hide Next, WorkerOk, Waiters;
      while !(submitted == |c.endpoints| && forall t :: 0 <= t < |c.endpoints| ==> next[t] == c.runs && phase[t] == Idle)
        invariant Inv(c, Abs()) && Reaches(c, steps, Abs())
        decreases Work(c, Abs())
      {
        ghost var before := Abs();
        ghost var step := Turn();
        StepUsesWork(c, before, step);
        ghost var after := Extend(c, steps, before, step);
        steps := steps + [step];
      }
    }
  }
}
