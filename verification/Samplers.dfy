/**
 * The two power samplers. Energy counters are in microjoules; watts and times are exact reals,
 * so the rounding of the CSV columns is not part of the model.
 */
module Samplers {
  import opened Wrappers
  import opened Arithmetic

  // The modulus both samplers assume when a counter runs backwards.
  const WRAP: int := 0x1_0000_0000

  type Reading = map<string, int>

  /** One pass of a sampling loop: when it woke up and what it read. */
  datatype Timed<+R> = Timed(now: real, reading: R)

  type Tick = Timed<Reading>

  datatype Row = Row(elapsed: real, watts: map<string, real>)

  function Delta(prev: int, curr: int): int {
    var d := curr - prev;
    if d < 0 then d + WRAP else d
  }

  function PowerOf(prev: int, curr: int, dt: real): real
    requires dt > 0.0
  {
    Delta(prev, curr) as real / 1000000.0 / dt
  }

  // ----- fc_rapl.py

  /** Watts of every domain present at both reads; nothing when no time passed. */
  function WattsOf(prev: Reading, curr: Reading, dt: real): map<string, real> {
    map n | n in curr && n in prev && dt > 0.0 :: PowerOf(prev[n], curr[n], dt)
  }

  method Watts(prev: Reading, curr: Reading, dt: real) returns (out: map<string, real>)
    ensures out == WattsOf(prev, curr, dt)
  {
    out := map[];
    var todo := curr.Keys;
    while todo != {}
      invariant todo <= curr.Keys
      invariant out.Keys == set n | n in curr && n !in todo && n in prev && dt > 0.0
      invariant forall n :: n in out ==> n in prev && dt > 0.0 && out[n] == PowerOf(prev[n], curr[n], dt)
      decreases todo
    {
      var n :| n in todo;
      todo := todo - {n};
      if n in prev && dt > 0.0 {
        var delta := curr[n] - prev[n];
        if delta < 0 {
          delta := delta + WRAP;
        }
        out := out[n := delta as real / 1000000.0 / dt];
      }
    }
  }

  function LastReading(first: Reading, ticks: seq<Tick>): Reading {
    if ticks == [] then first else ticks[|ticks| - 1].reading
  }

  function LastTime<R>(start: real, ticks: seq<Timed<R>>): real {
    if ticks == [] then start else ticks[|ticks| - 1].now
  }

  /** The row of a tick compares it with what was read before it. */
  function RowOf(first: Reading, start: real, earlier: seq<Tick>, tick: Tick): Row {
    Row(tick.now - start, WattsOf(LastReading(first, earlier), tick.reading, tick.now - LastTime(start, earlier)))
  }

  function Rows(first: Reading, start: real, ticks: seq<Tick>): (rows: seq<Row>)
    ensures |rows| == |ticks|
  {
    if ticks == [] then []
    else
      var n := |ticks| - 1;
      Rows(first, start, ticks[..n]) + [RowOf(first, start, ticks[..n], ticks[n])]
  }

  /** Row i is written at tick i: the time it shows is that since the start. */
  lemma {:induction false} RowTimes(first: Reading, start: real, ticks: seq<Tick>, i: nat)
    requires i < |ticks|
    ensures start + Rows(first, start, ticks)[i].elapsed == ticks[i].now
  {
    if i < |ticks| - 1 {
      RowTimes(first, start, ticks[..|ticks| - 1], i);
    }
  }

  /** The loop ends at the first tick at or past the duration, or when it is killed before that. */
  ghost predicate Stops(start: real, times: seq<real>, duration: real, used: nat) {
    && used <= |times|
    && (forall i :: 0 <= i < used - 1 ==> times[i] - start < duration)
    && (used < |times| ==> used > 0 && times[used - 1] - start >= duration)
  }

  ghost function Times<R>(ticks: seq<Timed<R>>): (times: seq<real>)
    ensures |times| == |ticks| && forall i :: 0 <= i < |ticks| ==> times[i] == ticks[i].now
  {
    seq(|ticks|, i requires 0 <= i < |ticks| => ticks[i].now)
  }

  class RaplSampler {
    const t0: real
    var prev: Reading
    var last: real
    var rows: seq<Row>

    constructor (first: Reading, start: real)
      ensures t0 == start && prev == first && last == start && rows == []
    {
      t0, prev, last, rows := start, first, start, [];
    }

    /** The sampling loop on the ticks its clock and counters will produce. */
    method Run(ticks: seq<Tick>, duration: real) returns (used: nat)
      requires last == t0 && rows == []
      modifies this
      ensures Stops(t0, Times(ticks), duration, used)
      ensures rows == Rows(old(prev), t0, ticks[..used])
    {
      hide WattsOf;
      ghost var first := prev;
      used := 0;
      while used < |ticks|
        invariant 0 <= used <= |ticks|
        invariant prev == LastReading(first, ticks[..used]) && last == LastTime(t0, ticks[..used])
        invariant rows == Rows(first, t0, ticks[..used])
        invariant forall i :: 0 <= i < used ==> ticks[i].now - t0 < duration
      {
        var now, curr := ticks[used].now, ticks[used].reading;
        var powers := Watts(prev, curr, now - last);
        rows := rows + [Row(now - t0, powers)];
        assert ticks[..used + 1][..used] == ticks[..used];
        prev := curr;
        last := now;
        used := used + 1;
        if now - t0 >= duration {
          return;
        }
      }
    }
  }

  /** sleep() never wakes early, so consecutive ticks are at least an interval apart. */
  ghost predicate Paced(start: real, times: seq<real>, interval: real) {
    && (times != [] ==> times[0] >= start + interval)
    && forall i :: 0 < i < |times| ==> times[i] >= times[i - 1] + interval
  }

  function Ceil(x: real): int {
    -((-x).Floor)
  }

  lemma {:induction false} PacedLowerBound(start: real, times: seq<real>, interval: real, i: nat)
    requires Paced(start, times, interval) && i < |times|
    ensures times[i] - start >= (i + 1) as real * interval
  {
    if i > 0 {
      PacedLowerBound(start, times, interval, i - 1);
      assert (i + 1) as real * interval == i as real * interval + interval;
    }
  }

  /** A run writes at most max(1, ceiling of duration / interval) rows before its loop ends. */
  lemma RowBound(start: real, times: seq<real>, interval: real, duration: real, used: nat)
    requires interval > 0.0 && Paced(start, times, interval) && Stops(start, times, duration, used)
    ensures used <= if Ceil(duration / interval) > 1 then Ceil(duration / interval) else 1
  {
    if used >= 2 {
      PacedLowerBound(start, times, interval, used - 2);
      assert times[used - 2] - start < duration;
      QuotientAbove((used - 1) as real, interval, duration);
    }
  }

  lemma QuotientAbove(m: real, interval: real, duration: real)
    requires interval > 0.0 && m * interval < duration
    ensures m < duration / interval
  {
    var q := duration / interval;
    assert q * interval == duration;
    if q <= m {
      assert q * interval <= m * interval;
    }
  }

  // ----- Counter wraps

  /** The time row n covers: since the row before it, or since the start. */
  ghost function Covered(rows: seq<Row>, n: nat): real
    requires n < |rows|
  {
    rows[n].elapsed - if n == 0 then 0.0 else rows[n - 1].elapsed
  }

  /** Microjoules the rows of a run report for a domain: watts times the time they cover, row by row. */
  ghost function Reported(rows: seq<Row>, domain: string): real {
    if rows == [] then 0.0
    else
      var n := |rows| - 1;
      Reported(rows[..n], domain)
      + if domain in rows[n].watts then rows[n].watts[domain] * Covered(rows, n) * 1000000.0 else 0.0
  }

  /** The reading shows this count of a counter of the given modulus. */
  ghost predicate Shows(reading: Reading, domain: string, count: int, modulus: int)
    requires modulus > 0
  {
    domain in reading && reading[domain] == count % modulus
  }

  /** When the loop was last awake before tick i. */
  ghost function TimeBefore(start: real, ticks: seq<Tick>, i: nat): real
    requires i < |ticks|
  {
    if i == 0 then start else ticks[i - 1].now
  }

  /** The domain shows the counter at every read; the counter never runs backwards, and time advances. */
  ghost predicate Observes(first: Reading, start: real, ticks: seq<Tick>, domain: string, counter: seq<int>, modulus: int) {
    && modulus > 0 && |counter| == |ticks| + 1 && Shows(first, domain, counter[0], modulus)
    && forall i :: 0 <= i < |ticks| ==>
         && Shows(ticks[i].reading, domain, counter[i + 1], modulus) && counter[i] <= counter[i + 1]
         && TimeBefore(start, ticks, i) < ticks[i].now
  }

  lemma ObservesEarlier(first: Reading, start: real, ticks: seq<Tick>, domain: string, counter: seq<int>, modulus: int)
    requires ticks != [] && Observes(first, start, ticks, domain, counter, modulus)
    ensures var n := |ticks| - 1;
            && |counter| == n + 2 && counter[n] <= counter[n + 1]
            && Observes(first, start, ticks[..n], domain, counter[..n + 1], modulus)
  {
    var earlier, counts := ticks[..|ticks| - 1], counter[..|ticks|];
    forall i | 0 <= i < |earlier|
      ensures Shows(earlier[i].reading, domain, counts[i + 1], modulus) && counts[i] <= counts[i + 1]
      ensures TimeBefore(start, earlier, i) < earlier[i].now
    {
      assert earlier[i] == ticks[i] && counts[i + 1] == counter[i + 1];
      assert Shows(ticks[i].reading, domain, counter[i + 1], modulus);
      assert TimeBefore(start, earlier, i) == TimeBefore(start, ticks, i);
    }
    assert counts[0] == counter[0];
  }

  ghost predicate AdvancesBelow(counter: seq<int>, bound: int) {
    forall i :: 0 < i < |counter| ==> counter[i] - counter[i - 1] < bound
  }

  lemma DeltaAcrossWrap(c: int, d: int, modulus: int)
    requires modulus > 0 && c <= d < c + modulus
    ensures Delta(c % modulus, d % modulus) == d - c + (d / modulus - c / modulus) * (WRAP - modulus)
  {
    FloorIsLargest(c / modulus, d, modulus);
    FloorIsLargest(c / modulus + 2, d, modulus);
    assert c == c / modulus * modulus + c % modulus && d == d / modulus * modulus + d % modulus;
    if d / modulus == c / modulus {
    } else {
      assert d / modulus == c / modulus + 1;
      assert d / modulus * modulus == c / modulus * modulus + modulus;
    }
  }

  lemma RowEnergy(first: Reading, start: real, ticks: seq<Tick>, domain: string, counter: seq<int>, modulus: int)
    requires ticks != [] && Observes(first, start, ticks, domain, counter, modulus)
    ensures var n := |ticks| - 1;
            Reported(Rows(first, start, ticks), domain)
            == Reported(Rows(first, start, ticks[..n]), domain)
               + Delta(counter[n] % modulus, counter[n + 1] % modulus) as real
  {
    hide PowerOf, Delta;
    var n, rows := |ticks| - 1, Rows(first, start, ticks);
    var prev, curr := LastReading(first, ticks[..n]), ticks[n].reading;
    assert rows[..n] == Rows(first, start, ticks[..n]) && rows[n] == RowOf(first, start, ticks[..n], ticks[n]);
    CoveredTime(first, start, ticks);
    assert Shows(prev, domain, counter[n], modulus) && Shows(curr, domain, counter[n + 1], modulus) by {
      assert n > 0 ==> Shows(ticks[n - 1].reading, domain, counter[n - 1 + 1], modulus);
    }
    EnergyOfPower(prev[domain], curr[domain], ticks[n].now - LastTime(start, ticks[..n]));
  }

  lemma CoveredTime(first: Reading, start: real, ticks: seq<Tick>)
    requires ticks != []
    ensures var n := |ticks| - 1; Covered(Rows(first, start, ticks), n) == ticks[n].now - LastTime(start, ticks[..n])
  {
    var n := |ticks| - 1;
    RowTimes(first, start, ticks, n);
    if n > 0 {
      RowTimes(first, start, ticks, n - 1);
    }
  }

  /** Watts over an interval give back the counter difference. */
  lemma EnergyOfPower(prev: int, curr: int, dt: real)
    requires dt > 0.0
    ensures PowerOf(prev, curr, dt) * dt * 1000000.0 == Delta(prev, curr) as real
  {
    var joules := Delta(prev, curr) as real / 1000000.0;
    assert joules / dt * dt == joules;
  }

  /** What the samplers make of an advance from a to d: off by 2^32 - modulus for every wrap. */
  ghost function Shown(a: int, d: int, modulus: int): int
    requires modulus > 0
  {
    d - a + (d / modulus - a / modulus) * (WRAP - modulus)
  }

  /**
   * What a run reports when the hardware counter has some modulus and advances by less than it
   * between reads: the true energy, off by 2^32 - modulus for every wrap.
   */
  lemma ReportedAcrossWraps(first: Reading, start: real, ticks: seq<Tick>, domain: string, counter: seq<int>, modulus: int)
    requires Observes(first, start, ticks, domain, counter, modulus) && AdvancesBelow(counter, modulus)
    ensures Reported(Rows(first, start, ticks), domain)
            == (counter[|ticks|] - counter[0]
                + (counter[|ticks|] / modulus - counter[0] / modulus) * (WRAP - modulus)) as real
  {
    ReportedIsShown(first, start, ticks, domain, counter, modulus);
  }

  lemma {:induction false} ReportedIsShown(first: Reading, start: real, ticks: seq<Tick>, domain: string,
      counter: seq<int>, modulus: int)
    requires Observes(first, start, ticks, domain, counter, modulus) && AdvancesBelow(counter, modulus)
    ensures Reported(Rows(first, start, ticks), domain) == Shown(counter[0], counter[|ticks|], modulus) as real
  {
    hide Delta, Reported, Rows, Shown;
    if ticks == [] {
      NothingReported(first, start, domain);
      OneMoreAdvance(counter[0], counter[0], counter[0], modulus);
    } else {
      var n := |ticks| - 1;
      ObservesEarlier(first, start, ticks, domain, counter, modulus);
      RowEnergy(first, start, ticks, domain, counter, modulus);
      ReportedIsShown(first, start, ticks[..n], domain, counter[..n + 1], modulus);
      OneMoreAdvance(counter[0], counter[n], counter[n + 1], modulus);
    }
  }

  lemma NothingReported(first: Reading, start: real, domain: string)
    ensures Reported(Rows(first, start, []), domain) == 0.0
  {
  }

  /** The energy of the last advance adds to what was reported before it. */
  lemma OneMoreAdvance(a: int, c: int, d: int, modulus: int)
    requires modulus > 0 && c <= d < c + modulus
    ensures Shown(a, c, modulus) + Delta(c % modulus, d % modulus) == Shown(a, d, modulus) && Shown(a, a, modulus) == 0
  {
    DeltaAcrossWrap(c, d, modulus);
    Distribute(c / modulus - a / modulus, d / modulus - c / modulus, WRAP - modulus);
  }

  lemma Distribute(a: int, b: int, c: int)
    ensures a * c + b * c == (a + b) * c
  {
  }

  /** With a 32-bit counter the run reports exactly the energy used, across any number of wraps. */
  lemma ReportedIsTrueEnergy(first: Reading, start: real, ticks: seq<Tick>, domain: string, counter: seq<int>)
    requires Observes(first, start, ticks, domain, counter, WRAP) && AdvancesBelow(counter, WRAP)
    ensures Reported(Rows(first, start, ticks), domain) == (counter[|ticks|] - counter[0]) as real
  {
    ReportedAcrossWraps(first, start, ticks, domain, counter, WRAP);
  }

  /** Whole turns of the counter hidden between two reads. */
  ghost function HiddenTurns(counter: seq<int>): int {
    if |counter| < 2 then 0
    else
      var n := |counter| - 1;
      HiddenTurns(counter[..n]) + (counter[n] - counter[n - 1]) / WRAP
  }

  lemma {:induction false} NoHiddenTurns(counter: seq<int>)
    requires forall i :: 0 < i < |counter| ==> counter[i - 1] <= counter[i]
    ensures HiddenTurns(counter) >= 0
    ensures HiddenTurns(counter) == 0 <==> AdvancesBelow(counter, WRAP)
  {
    if |counter| >= 2 {
      var n := |counter| - 1;
      NoHiddenTurns(counter[..n]);
      if AdvancesBelow(counter[..n], WRAP) && counter[n] - counter[n - 1] < WRAP {
        assert AdvancesBelow(counter, WRAP);
      }
      assert AdvancesBelow(counter, WRAP) ==> AdvancesBelow(counter[..n], WRAP);
    }
  }

  lemma DeltaDropsTurns(c: int, d: int)
    requires c <= d
    ensures Delta(c % WRAP, d % WRAP) == d - c - WRAP * ((d - c) / WRAP)
  {
    var turns := (d - c) / WRAP;
    DeltaAcrossWrap(c, d - WRAP * turns, WRAP);
    assert (d - WRAP * turns) % WRAP == d % WRAP;
  }

  /**
   * The condition is exact: a 32-bit counter is reported without loss if and only if it never
   * advances by 2^32 or more between two reads; otherwise every hidden turn is lost.
   */
  lemma ExactUnlessTurnsAreHidden(first: Reading, start: real, ticks: seq<Tick>, domain: string, counter: seq<int>)
    requires Observes(first, start, ticks, domain, counter, WRAP)
    ensures Reported(Rows(first, start, ticks), domain) == (counter[|ticks|] - counter[0]) as real
            <==> AdvancesBelow(counter, WRAP)
  {
    ReportedWithoutTurns(first, start, ticks, domain, counter);
    CounterMonotone(first, start, ticks, domain, counter);
    NoHiddenTurns(counter);
  }

  lemma CounterMonotone(first: Reading, start: real, ticks: seq<Tick>, domain: string, counter: seq<int>)
    requires Observes(first, start, ticks, domain, counter, WRAP)
    ensures forall i :: 0 < i < |counter| ==> counter[i - 1] <= counter[i]
  {
    forall i | 0 < i < |counter| ensures counter[i - 1] <= counter[i] {
      assert Shows(ticks[i - 1].reading, domain, counter[i - 1 + 1], WRAP);
    }
  }

  lemma {:induction false} ReportedWithoutTurns(first: Reading, start: real, ticks: seq<Tick>, domain: string,
      counter: seq<int>)
    requires Observes(first, start, ticks, domain, counter, WRAP)
    ensures Reported(Rows(first, start, ticks), domain)
            == (counter[|ticks|] - counter[0] - WRAP * HiddenTurns(counter)) as real
  {
    if ticks != [] {
      var n := |ticks| - 1;
      ObservesEarlier(first, start, ticks, domain, counter, WRAP);
      RowEnergy(first, start, ticks, domain, counter, WRAP);
      ReportedWithoutTurns(first, start, ticks[..n], domain, counter[..n + 1]);
      assert counter[..n + 2] == counter && counter[..n + 1][n] == counter[n];
      DeltaDropsTurns(counter[n], counter[n + 1]);
    }
  }

  // ----- fc_arm_power.py

  /** One pass of the hwmon loop: a value per energy sensor, None where the file could not be read. */
  type ArmTick = Timed<seq<Option<int>>>

  datatype ArmResult = ArmResult(prev: map<string, Option<int>>, watts: map<string, real>)

  /** The derived-watts loop over the energy sensors, threading prev_energy through. */
  function ArmPass(prev: map<string, Option<int>>, labels: seq<string>, values: seq<Option<int>>, dt: real): ArmResult
    requires |labels| == |values|
  {
    if labels == [] then ArmResult(prev, map[])
    else
      var n := |labels| - 1;
      var r := ArmPass(prev, labels[..n], values[..n], dt);
      var l, v := labels[n], values[n];
      ArmResult(r.prev[l := v],
                if v.Some? && l in r.prev && r.prev[l].Some? && dt > 0.0
                then r.watts[l := PowerOf(r.prev[l].value, v.value, dt)]
                else r.watts)
  }

  /** {label: read_val(path)} before the loop starts. */
  function InitialEnergy(labels: seq<string>, values: seq<Option<int>>): map<string, Option<int>>
    requires |labels| == |values|
  {
    if labels == [] then map[]
    else
      var n := |labels| - 1;
      InitialEnergy(labels[..n], values[..n])[labels[n] := values[n]]
  }

  ghost predicate Shaped(labels: seq<string>, ticks: seq<ArmTick>) {
    forall i :: 0 <= i < |ticks| ==> |ticks[i].reading| == |labels|
  }

  /** prev_energy after these ticks. */
  ghost function ArmEnergy(labels: seq<string>, first: seq<Option<int>>, start: real,
      ticks: seq<ArmTick>): map<string, Option<int>>
    requires |first| == |labels| && Shaped(labels, ticks)
  {
    if ticks == [] then InitialEnergy(labels, first)
    else
      var n := |ticks| - 1;
      ArmPass(ArmEnergy(labels, first, start, ticks[..n]), labels, ticks[n].reading,
              ticks[n].now - LastTime(start, ticks[..n])).prev
  }

  ghost function ArmRows(labels: seq<string>, first: seq<Option<int>>, start: real, ticks: seq<ArmTick>): (rows: seq<Row>)
    requires |first| == |labels| && Shaped(labels, ticks)
  {
    if ticks == [] then []
    else
      var n := |ticks| - 1;
      ArmRows(labels, first, start, ticks[..n])
      + [Row(ticks[n].now - start,
             ArmPass(ArmEnergy(labels, first, start, ticks[..n]), labels, ticks[n].reading,
                     ticks[n].now - LastTime(start, ticks[..n])).watts)]
  }

  class ArmSampler {
    const labels: seq<string>
    const t0: real
    var prevEnergy: map<string, Option<int>>
    var last: real
    var rows: seq<Row>

    constructor (labels: seq<string>, first: seq<Option<int>>, start: real)
      requires |first| == |labels|
      ensures this.labels == labels && t0 == start && prevEnergy == InitialEnergy(labels, first) && last == start && rows == []
    {
      this.labels, t0, prevEnergy, last, rows := labels, start, InitialEnergy(labels, first), start, [];
    }

    /** One pass over the energy sensors. */
    method Pass(values: seq<Option<int>>, dt: real) returns (watts: map<string, real>)
      requires |values| == |labels|
      modifies this`prevEnergy
      ensures ArmResult(prevEnergy, watts) == ArmPass(old(prevEnergy), labels, values, dt)
    {
      watts := map[];
      for s := 0 to |labels|
        invariant ArmResult(prevEnergy, watts) == ArmPass(old(prevEnergy), labels[..s], values[..s], dt)
      {
        assert labels[..s + 1][..s] == labels[..s] && values[..s + 1][..s] == values[..s];
        var l, v := labels[s], values[s];
        var prev := if l in prevEnergy then prevEnergy[l] else None;
        if v.Some? && prev.Some? && dt > 0.0 {
          var delta := v.value - prev.value;
          if delta < 0 {
            delta := delta + WRAP;
          }
          watts := watts[l := delta as real / 1000000.0 / dt];
        }
        prevEnergy := prevEnergy[l := v];
      }
      assert labels[..|labels|] == labels && values[..|labels|] == values;
    }

    method Run(ghost first: seq<Option<int>>, ticks: seq<ArmTick>, duration: real) returns (used: nat)
      requires |first| == |labels| && Shaped(labels, ticks)
      requires prevEnergy == InitialEnergy(labels, first) && last == t0 && rows == []
      modifies this
      ensures Stops(t0, Times(ticks), duration, used)
      ensures rows == ArmRows(labels, first, t0, ticks[..used])
    {
      hide ArmPass;
      used := 0;
      while used < |ticks|
        invariant 0 <= used <= |ticks|
        invariant prevEnergy == ArmEnergy(labels, first, t0, ticks[..used]) && last == LastTime(t0, ticks[..used])
        invariant rows == ArmRows(labels, first, t0, ticks[..used])
        invariant forall i :: 0 <= i < used ==> ticks[i].now - t0 < duration
      {
        var now := ticks[used].now;
        var watts := Pass(ticks[used].reading, now - last);
        rows := rows + [Row(now - t0, watts)];
        assert ticks[..used + 1][..used] == ticks[..used];
        last := now;
        used := used + 1;
        if now - t0 >= duration {
          return;
        }
      }
    }
  }

  // ----- The two samplers agree

  /** The dictionary of the sensors that could be read, as the RAPL sampler keeps it. */
  function ToReading(labels: seq<string>, values: seq<Option<int>>): Reading
    requires |labels| == |values|
  {
    if labels == [] then map[]
    else
      var n := |labels| - 1;
      var r := ToReading(labels[..n], values[..n]);
      if values[n].Some? then r[labels[n] := values[n].value] else r
  }

  function ToTicks(labels: seq<string>, ticks: seq<ArmTick>): (r: seq<Tick>)
    requires Shaped(labels, ticks)
    ensures |r| == |ticks|
    ensures forall i :: 0 <= i < |r| ==> r[i] == Timed(ticks[i].now, ToReading(labels, ticks[i].reading))
  {
    seq(|ticks|, i requires 0 <= i < |ticks| => Timed(ticks[i].now, ToReading(labels, ticks[i].reading)))
  }

  ghost predicate Distinct(labels: seq<string>) {
    forall i, j :: 0 <= i < j < |labels| ==> labels[i] != labels[j]
  }

  /** prev_energy holds exactly these values. */
  ghost predicate Holds(energy: map<string, Option<int>>, labels: seq<string>, values: seq<Option<int>>) {
    && |labels| == |values| && (forall l :: l in energy <==> l in labels)
    && forall j :: 0 <= j < |labels| ==> energy[labels[j]] == values[j]
  }

  lemma {:induction false} InitialHolds(labels: seq<string>, values: seq<Option<int>>)
    requires |labels| == |values| && Distinct(labels)
    ensures Holds(InitialEnergy(labels, values), labels, values)
  {
    if labels != [] {
      InitialHolds(labels[..|labels| - 1], values[..|labels| - 1]);
    }
  }

  lemma {:induction false} ReadingHas(labels: seq<string>, values: seq<Option<int>>)
    requires |labels| == |values| && Distinct(labels)
    ensures forall l :: l in ToReading(labels, values) ==> l in labels
    ensures forall j :: 0 <= j < |labels| ==> (labels[j] in ToReading(labels, values) <==> values[j].Some?)
    ensures forall j :: 0 <= j < |labels| && values[j].Some? ==> ToReading(labels, values)[labels[j]] == values[j].value
  {
    if labels != [] {
      var n := |labels| - 1;
      ReadingHas(labels[..n], values[..n]);
      assert forall j :: 0 <= j < n ==> labels[j] == labels[..n][j] && values[j] == values[..n][j];
    }
  }

  /** One pass leaves in prev_energy what it read, and nothing else changes there. */
  lemma {:induction false} PassRemembers(prev: map<string, Option<int>>, labels: seq<string>,
      values: seq<Option<int>>, dt: real)
    requires |labels| == |values| && Distinct(labels)
    ensures var after := ArmPass(prev, labels, values, dt).prev;
            && (forall l :: l in after <==> l in prev || l in labels)
            && (forall j :: 0 <= j < |labels| ==> after[labels[j]] == values[j])
            && (forall l :: l in prev && l !in labels ==> after[l] == prev[l])
  {
    hide PowerOf;
    if labels != [] {
      var n := |labels| - 1;
      PassRemembers(prev, labels[..n], values[..n], dt);
      assert labels == labels[..n] + [labels[n]] && values == values[..n] + [values[n]];
      var before := ArmPass(prev, labels[..n], values[..n], dt).prev;
      assert ArmPass(prev, labels, values, dt).prev == before[labels[n] := values[n]];
      forall j | 0 <= j < n ensures before[labels[n] := values[n]][labels[j]] == values[j] {
        assert labels[..n][j] == labels[j] && values[..n][j] == values[j];
      }
    }
  }

  /** One pass over distinct sensors reports exactly those with a value and a previous value. */
  lemma {:induction false} PassReports(prev: map<string, Option<int>>, labels: seq<string>,
      values: seq<Option<int>>, dt: real)
    requires |labels| == |values| && Distinct(labels)
    ensures var watts := ArmPass(prev, labels, values, dt).watts;
            && (forall l :: l in watts ==> l in labels && dt > 0.0)
            && (forall j :: 0 <= j < |labels| ==>
                  (labels[j] in watts
                   <==> values[j].Some? && labels[j] in prev && prev[labels[j]].Some? && dt > 0.0))
            && (forall j :: 0 <= j < |labels| && labels[j] in watts ==>
                  watts[labels[j]] == PowerOf(prev[labels[j]].value, values[j].value, dt))
  {
    hide PowerOf;
    if labels != [] {
      var n := |labels| - 1;
      PassReports(prev, labels[..n], values[..n], dt);
      PassRemembers(prev, labels[..n], values[..n], dt);
      assert labels == labels[..n] + [labels[n]] && values == values[..n] + [values[n]];
      assert labels[n] !in labels[..n];
    }
  }

  lemma PassMatchesWatts(energy: map<string, Option<int>>, labels: seq<string>, before: seq<Option<int>>,
      values: seq<Option<int>>, dt: real)
    requires |values| == |labels| && Distinct(labels) && Holds(energy, labels, before)
    ensures ArmPass(energy, labels, values, dt).watts == WattsOf(ToReading(labels, before), ToReading(labels, values), dt)
    ensures Holds(ArmPass(energy, labels, values, dt).prev, labels, values)
  {
    hide ArmPass, ToReading, PowerOf;
    PassRemembers(energy, labels, values, dt);
    PassReports(energy, labels, values, dt);
    ReadingHas(labels, before);
    ReadingHas(labels, values);
    var arm, rapl := ArmPass(energy, labels, values, dt).watts, WattsOf(ToReading(labels, before), ToReading(labels, values), dt);
    forall l ensures l in arm <==> l in rapl {
      if l in arm || l in rapl {
        var j :| 0 <= j < |labels| && labels[j] == l;
      }
    }
    forall l | l in arm ensures arm[l] == rapl[l] {
      var j :| 0 <= j < |labels| && labels[j] == l;
    }
  }

  lemma {:induction false} ArmKeepsLastValues(labels: seq<string>, first: seq<Option<int>>, start: real, ticks: seq<ArmTick>)
    requires |first| == |labels| && Shaped(labels, ticks) && Distinct(labels)
    ensures Holds(ArmEnergy(labels, first, start, ticks), labels, if ticks == [] then first else ticks[|ticks| - 1].reading)
  {
    hide ArmPass, WattsOf, ToReading, Holds, Distinct;
    if ticks == [] {
      InitialHolds(labels, first);
    } else {
      var n := |ticks| - 1;
      ArmKeepsLastValues(labels, first, start, ticks[..n]);
      PassMatchesWatts(ArmEnergy(labels, first, start, ticks[..n]), labels,
                       if n == 0 then first else ticks[n - 1].reading, ticks[n].reading,
                       ticks[n].now - LastTime(start, ticks[..n]));
    }
  }

  /**
   * Refinement: keeping an optional previous value per sensor reports, on the same readings,
   * exactly the rows of replacing the whole dictionary, whatever sensors come and go.
   */
  lemma {:induction false} ArmMatchesRapl(labels: seq<string>, first: seq<Option<int>>, start: real, ticks: seq<ArmTick>)
    requires |first| == |labels| && Shaped(labels, ticks) && Distinct(labels)
    ensures ArmRows(labels, first, start, ticks) == Rows(ToReading(labels, first), start, ToTicks(labels, ticks))
  {
    hide ArmPass, WattsOf, ToReading, Holds, Distinct;
    if ticks != [] {
      var n := |ticks| - 1;
      ArmMatchesRapl(labels, first, start, ticks[..n]);
      ArmKeepsLastValues(labels, first, start, ticks[..n]);
      SameLastReading(labels, first, start, ticks);
      PassMatchesWatts(ArmEnergy(labels, first, start, ticks[..n]), labels,
                       if n == 0 then first else ticks[n - 1].reading, ticks[n].reading,
                       ticks[n].now - LastTime(start, ticks[..n]));
      hide ArmEnergy, ToTicks;
    }
  }

  lemma SameLastReading(labels: seq<string>, first: seq<Option<int>>, start: real, ticks: seq<ArmTick>)
    requires |first| == |labels| && Shaped(labels, ticks) && ticks != []
    ensures var n := |ticks| - 1;
            && ToTicks(labels, ticks)[..n] == ToTicks(labels, ticks[..n])
            && LastReading(ToReading(labels, first), ToTicks(labels, ticks[..n]))
               == ToReading(labels, if n == 0 then first else ticks[n - 1].reading)
            && LastTime(start, ToTicks(labels, ticks[..n])) == LastTime(start, ticks[..n])
  {
  }

  // ----- Labels shared by two sensors

  /** Every sensor reads 0. */
  function Zeros(n: nat): (r: seq<Option<int>>)
    ensures |r| == n && forall i :: 0 <= i < n ==> r[i] == Some(0)
  {
    seq(n, i => Some(0))
  }

  /** Sensor i reads i + 1. */
  function Ramp(n: nat): (r: seq<Option<int>>)
    ensures |r| == n && forall i :: 0 <= i < n ==> r[i] == Some(i + 1)
  {
    seq(n, i requires 0 <= i => Some(i + 1))
  }

  ghost predicate Repeated(labels: seq<string>, name: string) {
    exists i, j :: 0 <= i < j < |labels| && labels[i] == labels[j] == name
  }

  lemma {:induction false} ZeroReadings(labels: seq<string>, name: string)
    ensures name in InitialEnergy(labels, Zeros(|labels|)) <==> name in labels
    ensures name in labels ==> InitialEnergy(labels, Zeros(|labels|))[name] == Some(0)
    ensures name in ToReading(labels, Zeros(|labels|)) <==> name in labels
    ensures name in labels ==> ToReading(labels, Zeros(|labels|))[name] == 0
  {
    if labels != [] {
      var n := |labels| - 1;
      ZeroReadings(labels[..n], name);
      assert Zeros(|labels|)[..n] == Zeros(n);
      assert labels == labels[..n] + [labels[n]];
    }
  }

  lemma RampButLast(n: nat)
    requires n > 0
    ensures Ramp(n)[..n - 1] == Ramp(n - 1) && Ramp(n)[n - 1] == Some(n)
  {
  }

  lemma RepeatedLast(labels: seq<string>, name: string)
    requires labels != []
    ensures var n := |labels| - 1;
            Repeated(labels, name) <==> Repeated(labels[..n], name) || (labels[n] == name && name in labels[..n])
  {
    var n := |labels| - 1;
    if Repeated(labels, name) {
      var i, j :| 0 <= i < j < |labels| && labels[i] == labels[j] == name;
      assert labels[..n][i] == name;
      assert j < n ==> labels[..n][j] == name;
    }
    if Repeated(labels[..n], name) {
      var i, j :| 0 <= i < j < n && labels[..n][i] == labels[..n][j] == name;
      assert labels[i] == labels[j] == name;
    }
    if labels[n] == name && name in labels[..n] {
      var i :| 0 <= i < n && labels[..n][i] == name;
      assert labels[i] == labels[n] == name;
    }
  }

  lemma LessForLaterStart(prev: int, curr: int)
    requires 0 < prev <= curr
    ensures PowerOf(prev, curr, 1.0) < PowerOf(0, curr, 1.0)
  {
    assert Delta(prev, curr) == curr - prev && Delta(0, curr) == curr;
    assert (curr - prev) as real < curr as real;
  }

  /** From all zeros to the ramp, a repeated label reports less than the last of its sensors gained. */
  lemma {:induction false} RepeatedReportsLess(prev: map<string, Option<int>>, labels: seq<string>, name: string)
    requires name in prev && prev[name] == Some(0)
    ensures var r := ArmPass(prev, labels, Ramp(|labels|), 1.0);
            var now := ToReading(labels, Ramp(|labels|));
            && name in r.prev && (name in now <==> name in labels)
            && (name in labels ==> 0 < now[name] <= |labels| && r.prev[name] == Some(now[name]) && name in r.watts)
            && (name !in labels ==> r.prev[name] == Some(0))
            && (Repeated(labels, name) ==> name in labels && r.watts[name] < PowerOf(0, now[name], 1.0))
  {
    hide PowerOf, Repeated;
    if labels != [] {
      var n := |labels| - 1;
      RepeatedReportsLess(prev, labels[..n], name);
      RampButLast(n + 1);
      RepeatedLast(labels, name);
      assert labels == labels[..n] + [labels[n]];
      if labels[n] == name && name in labels[..n] {
        LessForLaterStart(ToReading(labels[..n], Ramp(n))[name], n + 1);
      }
    } else {
      NothingRepeated(name);
    }
  }

  lemma NothingRepeated(name: string)
    ensures !Repeated([], name)
  {
  }

  /** The ARM sampler writes the RAPL sampler's rows, whatever is read. */
  ghost predicate AlwaysMatchesRapl(labels: seq<string>) {
    forall first, start, ticks :: |first| == |labels| && Shaped(labels, ticks) ==>
      ArmRows(labels, first, start, ticks) == Rows(ToReading(labels, first), start, ToTicks(labels, ticks))
  }

  /** Sensors that share a label are compared with each other: one tick of the ramp tells the samplers apart. */
  lemma SharedLabelMixesSensors(labels: seq<string>, name: string, tick: ArmTick)
    requires Repeated(labels, name) && tick == Timed(1.0, Ramp(|labels|))
    ensures ArmRows(labels, Zeros(|labels|), 0.0, [tick])
            != Rows(ToReading(labels, Zeros(|labels|)), 0.0, ToTicks(labels, [tick]))
  {
    var first := Zeros(|labels|);
    assert [tick][..0] == [];
    RepeatedIsLabel(labels, name);
    ZeroReadings(labels, name);
    RepeatedReportsLess(InitialEnergy(labels, first), labels, name);
    var arm := ArmPass(InitialEnergy(labels, first), labels, tick.reading, 1.0).watts;
    var rapl := WattsOf(ToReading(labels, first), ToReading(labels, tick.reading), 1.0);
    assert arm[name] != rapl[name];
    OneTick(labels, first, tick);
  }

  lemma RepeatedIsLabel(labels: seq<string>, name: string)
    requires Repeated(labels, name)
    ensures name in labels
  {
  }

  lemma OneTick(labels: seq<string>, first: seq<Option<int>>, tick: ArmTick)
    requires |first| == |labels| == |tick.reading| && tick.now == 1.0
    ensures ArmRows(labels, first, 0.0, [tick])
            == [Row(1.0, ArmPass(InitialEnergy(labels, first), labels, tick.reading, 1.0).watts)]
    ensures Rows(ToReading(labels, first), 0.0, ToTicks(labels, [tick]))
            == [Row(1.0, WattsOf(ToReading(labels, first), ToReading(labels, tick.reading), 1.0))]
  {
    hide ArmPass, ToReading, WattsOf, InitialEnergy;
    assert [tick][..0] == [] && ToTicks(labels, [tick])[..0] == [];
  }

  /** The two samplers agree on everything they can read exactly when no two sensors share a label. */
  lemma MatchesRaplExactly(labels: seq<string>)
    ensures AlwaysMatchesRapl(labels) <==> Distinct(labels)
  {
    hide ArmRows, Rows, ToReading;
    if Distinct(labels) {
      forall first, start, ticks | |first| == |labels| && Shaped(labels, ticks)
        ensures ArmRows(labels, first, start, ticks) == Rows(ToReading(labels, first), start, ToTicks(labels, ticks))
      {
        ArmMatchesRapl(labels, first, start, ticks);
      }
    } else {
      var i, j :| 0 <= i < j < |labels| && labels[i] == labels[j];
      var tick := Timed(1.0, Ramp(|labels|));
      SharedLabelMixesSensors(labels, labels[i], tick);
      assert Shaped(labels, [tick]);
    }
  }
}
