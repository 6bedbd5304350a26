/**
 * Power samples against invocation windows: trapezoid energy per window, the active/idle
 * split, and the alignment of the two clocks. Times, watts and joules are exact reals.
 */
module Energy {
  import opened Wrappers
  import opened Reals
  import Sorting

  datatype Sample = Sample(x: real, y: real)

  datatype Window = Window(start: real, end: real)

  // ----- Trapezoid energy

  ghost predicate TimeOrdered(s: seq<Sample>) {
    forall i, j :: 0 <= i < j < |s| ==> s[i].x <= s[j].x
  }

  ghost predicate NonNegative(s: seq<Sample>) {
    forall i :: 0 <= i < |s| ==> s[i].y >= 0.0
  }

  function Segment(a: Sample, b: Sample): real {
    (b.x - a.x) * (a.y + b.y) / 2.0
  }

  /** np.trapezoid(ys, xs) */
  function Trapz(s: seq<Sample>): real {
    if |s| < 2 then 0.0 else Trapz(s[..|s| - 1]) + Segment(s[|s| - 2], s[|s| - 1])
  }

  /** The watts lie on a line over time. */
  ghost predicate OnLine(s: seq<Sample>, p: real, q: real) {
    forall i :: 0 <= i < |s| ==> PointOnLine(s[i], p, q)
  }

  ghost predicate PointOnLine(a: Sample, p: real, q: real) {
    a.y == p + q * a.x
  }

  /** Under a line, segments join to one. */
  lemma SegmentsJoin(a: Sample, b: Sample, c: Sample, p: real, q: real)
    requires PointOnLine(a, p, q) && PointOnLine(b, p, q) && PointOnLine(c, p, q)
    ensures Segment(a, b) + Segment(b, c) == Segment(a, c)
  {
    var u, v, w := a.x, b.x, c.x;
    assert Segment(a, b) == (p * (v - u) * 2.0 + q * (v * v - u * u)) / 2.0;
    assert Segment(b, c) == (p * (w - v) * 2.0 + q * (w * w - v * v)) / 2.0;
    assert Segment(a, c) == (p * (w - u) * 2.0 + q * (w * w - u * u)) / 2.0;
  }

  lemma {:induction false} TrapzIsOneSegment(s: seq<Sample>, p: real, q: real)
    requires s != [] && OnLine(s, p, q)
    ensures Trapz(s) == Segment(s[0], s[|s| - 1])
  {
    var n := |s| - 1;
    SegmentIs(s[0], s[0]);
    hide Segment, PointOnLine;
    if n > 0 {
      TrapzIsOneSegment(s[..n], p, q);
      SegmentsJoin(s[0], s[n - 1], s[n], p, q);
    }
  }

  /** For watts on a line the trapezoids give the exact area: the span times the mean of its two ends. */
  lemma {:induction false} TrapzOfLine(s: seq<Sample>, p: real, q: real)
    requires s != [] && OnLine(s, p, q)
    ensures Trapz(s) == (s[|s| - 1].x - s[0].x) * (s[0].y + s[|s| - 1].y) / 2.0
  {
    TrapzIsOneSegment(s, p, q);
    SegmentIs(s[0], s[|s| - 1]);
  }

  lemma SegmentIs(a: Sample, b: Sample)
    ensures Segment(a, b) == (b.x - a.x) * (a.y + b.y) / 2.0
  {
  }

  predicate Inside(x: real, w: Window) {
    w.start <= x <= w.end
  }

  /** The samples selected by (xs >= start) & (xs <= end). */
  function Mask(s: seq<Sample>, w: Window): seq<Sample> {
    if s == [] then []
    else Mask(s[..|s| - 1], w) + if Inside(s[|s| - 1].x, w) then [s[|s| - 1]] else []
  }

  function WindowEnergy(s: seq<Sample>, w: Window): real {
    Trapz(Mask(s, w))
  }

  /** Energies in window order, leaving out windows with fewer than two samples. */
  function Energies(s: seq<Sample>, windows: seq<Window>): seq<real> {
    if windows == [] then []
    else
      var n := |windows| - 1;
      Energies(s, windows[..n])
      + if |Mask(s, windows[n])| < 2 then [] else [WindowEnergy(s, windows[n])]
  }

  method IntegratePerWindow(s: seq<Sample>, windows: seq<Window>) returns (js: seq<real>)
    ensures js == Energies(s, windows)
  {
    js := [];
    for i := 0 to |windows|
      invariant js == Energies(s, windows[..i])
    {
      assert windows[..i + 1][..i] == windows[..i];
      var masked := Mask(s, windows[i]);
      if |masked| < 2 { continue; }
      js := js + [Trapz(masked)];
    }
    assert windows[..|windows|] == windows;
  }

  /** The segment between a and b counts towards w. */
  predicate Bridged(a: Sample, b: Sample, w: Window) {
    Inside(a.x, w) && Inside(b.x, w)
  }

  /** The energy of a window, segment by segment of the whole trace. */
  ghost function BridgedEnergy(s: seq<Sample>, w: Window): real {
    if |s| < 2 then 0.0
    else
      var a, b := s[|s| - 2], s[|s| - 1];
      BridgedEnergy(s[..|s| - 1], w) + if Bridged(a, b, w) then Segment(a, b) else 0.0
  }

  /** In an ordered trace the masked samples are consecutive, so masking cuts no segment in two. */
  lemma {:induction false} MaskedIsBridged(s: seq<Sample>, w: Window)
    requires TimeOrdered(s)
    ensures WindowEnergy(s, w) == BridgedEnergy(s, w)
  {
    if s != [] {
      var n := |s| - 1;
      var before := Mask(s[..n], w);
      MaskedIsBridged(s[..n], w);
      if Inside(s[n].x, w) {
        MaskEndsAtNeighbour(s, w);
        assert (before + [s[n]])[..|before|] == before;
      } else {
        assert Mask(s, w) == before;
      }
    }
  }

  /** When the last sample of an ordered trace is inside the window, the masked sample before it is its neighbour. */
  lemma MaskEndsAtNeighbour(s: seq<Sample>, w: Window)
    requires TimeOrdered(s) && s != [] && Inside(s[|s| - 1].x, w)
    ensures var n := |s| - 1;
            var before := Mask(s[..n], w);
            if n > 0 && Inside(s[n - 1].x, w) then before != [] && before[|before| - 1] == s[n - 1] else before == []
  {
    var n := |s| - 1;
    if n > 0 && !Inside(s[n - 1].x, w) {
      assert s[n - 1].x <= s[n].x;
      NothingMasked(s[..n], w);
    }
  }

  lemma {:induction false} NothingMasked(s: seq<Sample>, w: Window)
    requires TimeOrdered(s) && (s != [] ==> s[|s| - 1].x < w.start)
    ensures Mask(s, w) == []
  {
    if |s| >= 2 {
      assert s[|s| - 2].x <= s[|s| - 1].x;
    }
    if s != [] {
      NothingMasked(s[..|s| - 1], w);
    }
  }

  /** A window that reaches from the first to the last sample, ends included, holds the whole trace. */
  lemma {:induction false} WindowOfTrace(s: seq<Sample>, w: Window)
    requires TimeOrdered(s) && (s != [] ==> w.start <= s[0].x && s[|s| - 1].x <= w.end)
    ensures Mask(s, w) == s && WindowEnergy(s, w) == Trapz(s)
  {
    MaskAll(s, w);
  }

  lemma {:induction false} MaskAll(s: seq<Sample>, w: Window)
    requires forall i :: 0 <= i < |s| ==> w.start <= s[i].x <= w.end
    ensures Mask(s, w) == s
  {
    if s != [] {
      MaskAll(s[..|s| - 1], w);
    }
  }

  predicate Interior(t: real, w: Window) {
    w.start < t < w.end
  }

  /** No instant lies strictly inside both windows. */
  ghost predicate InteriorDisjoint(v: Window, w: Window) {
    forall t :: !(Interior(t, v) && Interior(t, w))
  }

  ghost predicate InteriorsDisjoint(windows: seq<Window>) {
    forall i, j :: 0 <= i < j < |windows| ==> InteriorDisjoint(windows[i], windows[j])
  }

  ghost function TotalEnergy(s: seq<Sample>, windows: seq<Window>): real {
    if windows == [] then 0.0
    else TotalEnergy(s, windows[..|windows| - 1]) + WindowEnergy(s, windows[|windows| - 1])
  }

  /** Windows left out for having fewer than two samples carry no energy. */
  lemma {:induction false} SkippedWindowsAreEmpty(s: seq<Sample>, windows: seq<Window>)
    ensures Sum(Energies(s, windows)) == TotalEnergy(s, windows)
  {
    if windows != [] {
      var n := |windows| - 1;
      SkippedWindowsAreEmpty(s, windows[..n]);
      var before, after := Energies(s, windows[..n]), Energies(s, windows);
      if |Mask(s, windows[n])| < 2 {
        assert after == before;
      } else {
        assert after[..|after| - 1] == before;
      }
    }
  }

  /** What the last segment of a trace contributes over all windows. */
  ghost function LastSegments(a: Sample, b: Sample, windows: seq<Window>): real {
    if windows == [] then 0.0
    else LastSegments(a, b, windows[..|windows| - 1])
         + if Bridged(a, b, windows[|windows| - 1]) then Segment(a, b) else 0.0
  }

  /** Trace energy outside every window. */
  ghost function Uncovered(s: seq<Sample>, windows: seq<Window>): real {
    if |s| < 2 then 0.0
    else
      var a, b := s[|s| - 2], s[|s| - 1];
      Uncovered(s[..|s| - 1], windows) + if exists w :: w in windows && Bridged(a, b, w) then 0.0 else Segment(a, b)
  }

  lemma {:induction false} TotalBySegment(s: seq<Sample>, windows: seq<Window>)
    requires TimeOrdered(s)
    ensures |s| < 2 ==> TotalEnergy(s, windows) == 0.0
    ensures |s| >= 2 ==>
              TotalEnergy(s, windows)
              == TotalEnergy(s[..|s| - 1], windows) + LastSegments(s[|s| - 2], s[|s| - 1], windows)
  {
    if windows != [] {
      var w := windows[|windows| - 1];
      TotalBySegment(s, windows[..|windows| - 1]);
      MaskedIsBridged(s, w);
      if |s| >= 2 {
        MaskedIsBridged(s[..|s| - 1], w);
      }
    }
  }

  /** With disjoint interiors a segment lies in one window or in none. */
  lemma {:induction false} OneWindowPerSegment(a: Sample, b: Sample, windows: seq<Window>)
    requires a.x <= b.x && InteriorsDisjoint(windows)
    ensures LastSegments(a, b, windows)
            == if exists w :: w in windows && Bridged(a, b, w) then Segment(a, b) else 0.0
  {
    if windows != [] {
      var n := |windows| - 1;
      var last := windows[n];
      OneWindowPerSegment(a, b, windows[..n]);
      assert forall w :: w in windows <==> w in windows[..n] || w == last;
      if a.x == b.x {
        assert Segment(a, b) == 0.0;
      } else if Bridged(a, b, last) {
        forall w | w in windows[..n] && Bridged(a, b, w) ensures false {
          var i :| 0 <= i < n && windows[i] == w;
          assert InteriorDisjoint(windows[i], windows[n]);
          var t := (a.x + b.x) / 2.0;
          assert Interior(t, w) && Interior(t, last);
        }
      }
    }
  }

  /**
   * Conservation: for windows with disjoint interiors the per-window energies and the energy
   * outside all windows add up to the energy of the trace.
   */
  lemma {:induction false} EnergyIsConserved(s: seq<Sample>, windows: seq<Window>)
    requires TimeOrdered(s) && InteriorsDisjoint(windows)
    ensures Sum(Energies(s, windows)) + Uncovered(s, windows) == Trapz(s)
  {
    SkippedWindowsAreEmpty(s, windows);
    TotalBySegment(s, windows);
    if |s| >= 2 {
      EnergyIsConserved(s[..|s| - 1], windows);
      SkippedWindowsAreEmpty(s[..|s| - 1], windows);
      OneWindowPerSegment(s[|s| - 2], s[|s| - 1], windows);
    }
  }

  lemma SegmentNonNegative(a: Sample, b: Sample)
    requires a.x <= b.x && a.y >= 0.0 && b.y >= 0.0
    ensures Segment(a, b) >= 0.0
  {
  }

  lemma {:induction false} UncoveredNonNegative(s: seq<Sample>, windows: seq<Window>)
    requires TimeOrdered(s) && NonNegative(s)
    ensures Uncovered(s, windows) >= 0.0
  {
    if |s| >= 2 {
      UncoveredNonNegative(s[..|s| - 1], windows);
      SegmentNonNegative(s[|s| - 2], s[|s| - 1]);
    }
  }

  /** Invocations that do not overlap never account for more energy than the trace holds. */
  lemma WindowEnergiesWithinTrace(s: seq<Sample>, windows: seq<Window>)
    requires TimeOrdered(s) && NonNegative(s) && InteriorsDisjoint(windows)
    ensures Sum(Energies(s, windows)) <= Trapz(s)
  {
    EnergyIsConserved(s, windows);
    UncoveredNonNegative(s, windows);
  }

  lemma {:induction false} WindowEnergyNonNegative(s: seq<Sample>, w: Window)
    requires TimeOrdered(s) && NonNegative(s)
    ensures WindowEnergy(s, w) >= 0.0
  {
    MaskedIsBridged(s, w);
    if |s| >= 2 {
      WindowEnergyNonNegative(s[..|s| - 1], w);
      MaskedIsBridged(s[..|s| - 1], w);
      SegmentNonNegative(s[|s| - 2], s[|s| - 1]);
    }
  }

  /** All windows together hold at least what any two of them hold. */
  lemma {:induction false} TotalHoldsTwo(s: seq<Sample>, windows: seq<Window>, i: nat, j: nat)
    requires TimeOrdered(s) && NonNegative(s) && i <= j < |windows|
    ensures TotalEnergy(s, windows)
            >= WindowEnergy(s, windows[j]) + if i < j then WindowEnergy(s, windows[i]) else 0.0
  {
    hide WindowEnergy, TimeOrdered, NonNegative;
    var n := |windows| - 1;
    WindowEnergyNonNegative(s, windows[n]);
    if j < n {
      TotalHoldsTwo(s, windows[..n], i, j);
    } else if i < j {
      TotalHoldsTwo(s, windows[..n], i, i);
    } else {
      TotalNonNegative(s, windows[..n]);
    }
  }

  lemma {:induction false} TotalNonNegative(s: seq<Sample>, windows: seq<Window>)
    requires TimeOrdered(s) && NonNegative(s)
    ensures TotalEnergy(s, windows) >= 0.0
  {
    if windows != [] {
      TotalNonNegative(s, windows[..|windows| - 1]);
      WindowEnergyNonNegative(s, windows[|windows| - 1]);
    }
  }

  lemma TwoSamplesInside(s: seq<Sample>, w: Window)
    requires |s| == 2 && TimeOrdered(s) && Inside(s[0].x, w) && Inside(s[1].x, w)
    ensures WindowEnergy(s, w) == Trapz(s) == Segment(s[0], s[1])
  {
    MaskedIsBridged(s, w);
    assert |s[..1]| == 1;
  }

  /** Whenever two windows overlap, some trace is charged twice for all the energy it holds. */
  lemma OverlapCountsTwice(windows: seq<Window>, i: nat, j: nat) returns (s: seq<Sample>)
    requires i < j < |windows| && !InteriorDisjoint(windows[i], windows[j])
    ensures TimeOrdered(s) && NonNegative(s)
    ensures Sum(Energies(s, windows)) >= 2.0 * Trapz(s) > 0.0
  {
    var v, w := windows[i], windows[j];
    var t :| Interior(t, v) && Interior(t, w);
    var end := if v.end <= w.end then v.end else w.end;
    s := [Sample(t, 1.0), Sample(end, 1.0)];
    TwoSamplesInside(s, v);
    TwoSamplesInside(s, w);
    TotalHoldsTwo(s, windows, i, j);
    SkippedWindowsAreEmpty(s, windows);
  }

  /** No trace is charged for more energy than it holds. */
  ghost predicate NeverOvercharged(windows: seq<Window>) {
    forall s :: TimeOrdered(s) && NonNegative(s) ==> Sum(Energies(s, windows)) <= Trapz(s)
  }

  /**
   * The energies of a list of windows stay within the trace for every trace exactly when no two
   * windows overlap: two VMs invoked at once can exceed it.
   */
  lemma BoundHoldsExactly(windows: seq<Window>)
    ensures NeverOvercharged(windows) <==> InteriorsDisjoint(windows)
  {
    if InteriorsDisjoint(windows) {
      forall s | TimeOrdered(s) && NonNegative(s) ensures Sum(Energies(s, windows)) <= Trapz(s) {
        WindowEnergiesWithinTrace(s, windows);
      }
    } else {
      var i, j :| 0 <= i < j < |windows| && !InteriorDisjoint(windows[i], windows[j]);
      var s := OverlapCountsTwice(windows, i, j);
    }
  }

  /** Widening a window never lowers its energy. */
  lemma {:induction false} WideningKeepsEnergy(s: seq<Sample>, narrow: Window, wide: Window)
    requires TimeOrdered(s) && NonNegative(s)
    requires wide.start <= narrow.start && narrow.end <= wide.end
    ensures WindowEnergy(s, narrow) <= WindowEnergy(s, wide)
  {
    MaskedIsBridged(s, narrow);
    MaskedIsBridged(s, wide);
    if |s| >= 2 {
      WideningKeepsEnergy(s[..|s| - 1], narrow, wide);
      MaskedIsBridged(s[..|s| - 1], narrow);
      MaskedIsBridged(s[..|s| - 1], wide);
      SegmentNonNegative(s[|s| - 2], s[|s| - 1]);
    }
  }

  // ----- The active/idle split

  predicate IsActive(x: real, windows: seq<Window>, pad: real) {
    exists w :: w in windows && w.start - pad <= x <= w.end + pad
  }

  /** The watts of the samples whose activity is `active`, in order. */
  function Bucket(s: seq<Sample>, windows: seq<Window>, pad: real, active: bool): seq<real> {
    if s == [] then []
    else
      var n := |s| - 1;
      Bucket(s[..n], windows, pad, active) + if IsActive(s[n].x, windows, pad) == active then [s[n].y] else []
  }

  predicate AtMost(x: real, y: real) {
    x <= y
  }

  lemma AtMostIsOrder()
    ensures Sorting.TotalPreorder(AtMost)
  {
  }

  /** The values in ascending order. */
  function SortReals(v: seq<real>): (r: seq<real>)
    ensures multiset(r) == multiset(v)
    ensures forall i, j :: 0 <= i < j < |r| ==> r[i] <= r[j]
  {
    AtMostIsOrder();
    Sorting.SortSorts(v, AtMost);
    Sorting.SortBy(v, AtMost)
  }

  /** np.median */
  function Median(v: seq<real>): real
    requires v != []
  {
    var sorted := SortReals(v);
    assert |sorted| == |multiset(sorted)| == |multiset(v)| == |v|;
    var mid := |v| / 2;
    if |v| % 2 == 1 then sorted[mid] else (sorted[mid - 1] + sorted[mid]) / 2.0
  }

  lemma LeastFirst(r: seq<real>, x: real)
    requires Ascends(r) && x in r
    ensures r[0] <= x
  {
  }

  lemma TailOf(r: seq<real>)
    requires r != []
    ensures multiset(r[1..]) == multiset(r) - multiset{r[0]}
    ensures Ascends(r) ==> Ascends(r[1..])
  {
    assert r == [r[0]] + r[1..];
  }

  lemma SameLeast(r: seq<real>, s: seq<real>)
    requires multiset(r) == multiset(s) && Ascends(r) && Ascends(s) && r != [] && s != []
    ensures r[0] == s[0] && multiset(r[1..]) == multiset(s[1..]) && Ascends(r[1..]) && Ascends(s[1..])
  {
    assert r[0] in multiset(s) && s[0] in multiset(r);
    LeastFirst(s, r[0]);
    LeastFirst(r, s[0]);
    TailOf(r);
    TailOf(s);
    hide Ascends;
  }

  /** There is only one way to put values in ascending order. */
  lemma {:induction false} SortedSame(r: seq<real>, s: seq<real>)
    requires multiset(r) == multiset(s) && Ascends(r) && Ascends(s)
    ensures r == s
  {
    assert |r| == |multiset(r)| == |multiset(s)| == |s|;
    if r != [] {
      SameLeast(r, s);
      SortedSame(r[1..], s[1..]);
      assert r == [r[0]] + r[1..] && s == [s[0]] + s[1..];
    }
  }

  ghost predicate Ascends(r: seq<real>) {
    forall i, j :: 0 <= i < j < |r| ==> r[i] <= r[j]
  }

  /** Of the values in ascending order, the median is the mean of the two that are in the middle from either end. */
  lemma MedianIsMiddle(v: seq<real>, r: seq<real>)
    requires v != [] && multiset(r) == multiset(v) && Ascends(r)
    ensures |r| == |v| && Median(v) == (r[(|v| - 1) / 2] + r[|v| - 1 - (|v| - 1) / 2]) / 2.0
  {
    SortedSame(r, SortReals(v));
  }

  /** np.diff(xs) */
  function Spacings(s: seq<Sample>): (d: seq<real>)
    requires s != []
    ensures |d| == |s| - 1
  {
    seq(|s| - 1, i requires 0 <= i < |s| - 1 => s[i + 1].x - s[i].x)
  }

  function DefaultPad(s: seq<Sample>): real {
    if |s| >= 2 then 2.0 * Median(Spacings(s)) else 0.5
  }

  function PadOf(s: seq<Sample>, pad: Option<real>): real {
    if pad.None? then DefaultPad(s) else pad.value
  }

  /** At a steady rate the default padding is two sample intervals. */
  lemma SteadyPad(s: seq<Sample>, interval: real)
    requires |s| >= 2 && forall i :: 0 < i < |s| ==> s[i].x == s[i - 1].x + interval
    ensures PadOf(s, None) == 2.0 * interval
  {
    var d := Spacings(s);
    assert forall i :: 0 <= i < |d| ==> d[i] == s[i + 1].x - s[(i + 1) - 1].x;
    MedianIsMiddle(d, d);
  }

  method SplitActiveIdle(s: seq<Sample>, windows: seq<Window>, pad: Option<real>)
    returns (active: seq<real>, idle: seq<real>)
    ensures active == Bucket(s, windows, PadOf(s, pad), true)
    ensures idle == Bucket(s, windows, PadOf(s, pad), false)
  {
    var p := if pad.Some? then pad.value else if |s| >= 2 then 2.0 * Median(Spacings(s)) else 0.5;
    active, idle := [], [];
    for i := 0 to |s|
      invariant active == Bucket(s[..i], windows, p, true)
      invariant idle == Bucket(s[..i], windows, p, false)
    {
      assert s[..i + 1][..i] == s[..i];
      if IsActive(s[i].x, windows, p) {
        active := active + [s[i].y];
      } else {
        idle := idle + [s[i].y];
      }
    }
    assert s[..|s|] == s;
  }

  /** Puts two buckets back together, taking each sample from the bucket its activity names. */
  ghost function Reassemble(s: seq<Sample>, windows: seq<Window>, pad: real, active: seq<real>, idle: seq<real>): seq<real> {
    if s == [] then []
    else
      var n := |s| - 1;
      if IsActive(s[n].x, windows, pad) then
        if active == [] then [] else
        Reassemble(s[..n], windows, pad, active[..|active| - 1], idle) + [active[|active| - 1]]
      else
        if idle == [] then [] else
        Reassemble(s[..n], windows, pad, active, idle[..|idle| - 1]) + [idle[|idle| - 1]]
  }

  function Watts(s: seq<Sample>): (ys: seq<real>)
    ensures |ys| == |s| && forall i :: 0 <= i < |s| ==> ys[i] == s[i].y
  {
    seq(|s|, i requires 0 <= i < |s| => s[i].y)
  }

  /** The split loses and reorders no sample: the buckets interleave to the trace. */
  lemma {:induction false} SplitReassembles(s: seq<Sample>, windows: seq<Window>, pad: real)
    ensures Reassemble(s, windows, pad, Bucket(s, windows, pad, true), Bucket(s, windows, pad, false)) == Watts(s)
  {
    if s != [] {
      var n := |s| - 1;
      SplitReassembles(s[..n], windows, pad);
      assert Watts(s) == Watts(s[..n]) + [s[n].y];
      var here := IsActive(s[n].x, windows, pad);
      var rest := Bucket(s[..n], windows, pad, here);
      assert Bucket(s, windows, pad, here)[..|rest|] == rest;
      assert Bucket(s, windows, pad, !here) == Bucket(s[..n], windows, pad, !here);
    }
  }

  lemma DealtOut(u: seq<real>, v: seq<real>, w: seq<real>, y: real)
    requires multiset(u) + multiset(v) == multiset(w)
    ensures multiset(u + [y]) + multiset(v) == multiset(w + [y])
    ensures multiset(u) + multiset(v + [y]) == multiset(w + [y])
  {
  }

  lemma WattsButLast(s: seq<Sample>)
    requires s != []
    ensures Watts(s) == Watts(s[..|s| - 1]) + [s[|s| - 1].y]
  {
  }

  lemma BucketOfLast(s: seq<Sample>, windows: seq<Window>, pad: real, active: bool)
    requires s != []
    ensures var n := |s| - 1;
            Bucket(s, windows, pad, active)
            == if IsActive(s[n].x, windows, pad) == active then Bucket(s[..n], windows, pad, active) + [s[n].y]
               else Bucket(s[..n], windows, pad, active)
  {
  }

  /** The split invents no sample either. */
  lemma {:induction false} SplitIsPermutation(s: seq<Sample>, windows: seq<Window>, pad: real)
    ensures multiset(Bucket(s, windows, pad, true)) + multiset(Bucket(s, windows, pad, false)) == multiset(Watts(s))
  {
    if s == [] {
      assert Watts(s) == [];
    } else {
      var n := |s| - 1;
      SplitIsPermutation(s[..n], windows, pad);
      WattsButLast(s);
      BucketOfLast(s, windows, pad, true);
      BucketOfLast(s, windows, pad, false);
      hide Bucket, Watts, IsActive;
      DealtOut(Bucket(s[..n], windows, pad, true), Bucket(s[..n], windows, pad, false), Watts(s[..n]), s[n].y);
      assert multiset(Bucket(s, windows, pad, true)) + multiset(Bucket(s, windows, pad, false)) == multiset(Watts(s));
    }
  }

  // ----- Clock frames

  /** A power row after parsing: wall-clock epoch and time since the collector started. */
  datatype PowerRow = PowerRow(epoch: Option<real>, elapsed: Option<real>)

  /** An invocation row after parsing: wall-clock epochs and times since the loop started. */
  datatype InvocationRow =
    InvocationRow(startEpoch: Option<real>, endEpoch: Option<real>, startElapsed: Option<real>, endElapsed: Option<real>)

  predicate Complete(row: PowerRow) {
    row.epoch.Some? && row.elapsed.Some?
  }

  /** The epoch of elapsed time 0, from the first row that has both clocks. */
  ghost function OriginOf(rows: seq<PowerRow>): (origin: Option<real>)
    ensures origin.None? <==> forall i :: 0 <= i < |rows| ==> !Complete(rows[i])
    ensures origin.Some? ==> exists i :: 0 <= i < |rows| && Complete(rows[i])
                               && origin.value == rows[i].epoch.value - rows[i].elapsed.value
                               && forall j :: 0 <= j < i ==> !Complete(rows[j])
  {
    if rows == [] then None
    else
      var n := |rows| - 1;
      var earlier := OriginOf(rows[..n]);
      if earlier.Some? then
        var i :| 0 <= i < n && Complete(rows[i])
          && earlier.value == rows[i].epoch.value - rows[i].elapsed.value
          && forall j :: 0 <= j < i ==> !Complete(rows[j]);
        Some(rows[i].epoch.value - rows[i].elapsed.value)
      else if Complete(rows[n]) then Some(rows[n].epoch.value - rows[n].elapsed.value)
      else None
  }

  method ClockOrigin(rows: seq<PowerRow>) returns (origin: Option<real>)
    ensures origin == OriginOf(rows)
  {
    for i := 0 to |rows|
      invariant forall j :: 0 <= j < i ==> !Complete(rows[j])
    {
      if rows[i].epoch.Some? && rows[i].elapsed.Some? {
        assert Complete(rows[i]);
        return Some(rows[i].epoch.value - rows[i].elapsed.value);
      }
    }
    return None;
  }

  /** Windows by wall clock, for the rows that carry both timestamps. */
  function WallWindows(rows: seq<InvocationRow>): seq<Window> {
    if rows == [] then []
    else
      WallWindows(rows[..|rows| - 1]) + WallWindow(rows[|rows| - 1])
  }

  function WallWindow(r: InvocationRow): seq<Window> {
    if r.startEpoch.Some? && r.endEpoch.Some? then [Window(r.startEpoch.value, r.endEpoch.value)] else []
  }

  /** Windows by the invocation loop's own clock. */
  function LoopWindows(rows: seq<InvocationRow>): seq<Window> {
    if rows == [] then []
    else
      LoopWindows(rows[..|rows| - 1]) + LoopWindow(rows[|rows| - 1])
  }

  function LoopWindow(r: InvocationRow): seq<Window> {
    if r.startElapsed.Some? && r.endElapsed.Some? then [Window(r.startElapsed.value, r.endElapsed.value)] else []
  }

  /** Rows contribute their windows one after the other. */
  lemma WindowsAppend(a: seq<InvocationRow>, b: seq<InvocationRow>)
    ensures WallWindows(a + b) == WallWindows(a) + WallWindows(b)
    ensures LoopWindows(a + b) == LoopWindows(a) + LoopWindows(b)
  {
    hide *;
    WallWindowsAppend(a, b);
    LoopWindowsAppend(a, b);
  }

  lemma {:induction false} WallWindowsAppend(a: seq<InvocationRow>, b: seq<InvocationRow>)
    ensures WallWindows(a + b) == WallWindows(a) + WallWindows(b)
  {
    hide WallWindow;
    if b == [] {
      assert a + b == a;
    } else {
      var n := |b| - 1;
      WallWindowsAppend(a, b[..n]);
      assert (a + b)[..|a| + n] == a + b[..n] && (a + b)[|a| + n] == b[n];
      assert WallWindows(a + b) == WallWindows(a) + WallWindows(b[..n]) + WallWindow(b[n]);
      assert WallWindows(b) == WallWindows(b[..n]) + WallWindow(b[n]);
    }
  }

  lemma {:induction false} LoopWindowsAppend(a: seq<InvocationRow>, b: seq<InvocationRow>)
    ensures LoopWindows(a + b) == LoopWindows(a) + LoopWindows(b)
  {
    hide LoopWindow;
    if b == [] {
      assert a + b == a;
    } else {
      var n := |b| - 1;
      LoopWindowsAppend(a, b[..n]);
      assert (a + b)[..|a| + n] == a + b[..n] && (a + b)[|a| + n] == b[n];
      assert LoopWindows(a + b) == LoopWindows(a) + LoopWindows(b[..n]) + LoopWindow(b[n]);
      assert LoopWindows(b) == LoopWindows(b[..n]) + LoopWindow(b[n]);
    }
  }

  /** A row has its window by a clock when it carries both timestamps of that clock, and else none. */
  lemma WindowsOfRow(row: InvocationRow)
    ensures WallWindows([row]) != [] <==> row.startEpoch.Some? && row.endEpoch.Some?
    ensures LoopWindows([row]) != [] <==> row.startElapsed.Some? && row.endElapsed.Some?
    ensures row.startEpoch.Some? && row.endEpoch.Some? ==>
              WallWindows([row]) == [Window(row.startEpoch.value, row.endEpoch.value)]
    ensures row.startElapsed.Some? && row.endElapsed.Some? ==>
              LoopWindows([row]) == [Window(row.startElapsed.value, row.endElapsed.value)]
  {
    assert [row][..0] == [];
  }

  /** The same windows with time counted from `origin`. */
  function Align(windows: seq<Window>, origin: real): (r: seq<Window>)
    ensures |r| == |windows|
    ensures forall i :: 0 <= i < |r| ==> r[i] == Window(windows[i].start - origin, windows[i].end - origin)
  {
    seq(|windows|, i requires 0 <= i < |windows| => Window(windows[i].start - origin, windows[i].end - origin))
  }

  /**
   * All windows come from one clock: wall clock moved into the power trace's frame when the
   * trace has an origin and at least one row has both timestamps, else the loop's own clock.
   */
  ghost function ChosenWindows(rows: seq<InvocationRow>, origin: Option<real>): seq<Window> {
    if origin.Some? && WallWindows(rows) != [] then Align(WallWindows(rows), origin.value) else LoopWindows(rows)
  }

  lemma WindowsSoFar(rows: seq<InvocationRow>, i: nat, origin: real)
    requires i < |rows|
    ensures var r := rows[i];
            Align(WallWindows(rows[..i + 1]), origin)
            == if r.startEpoch.Some? && r.endEpoch.Some?
               then Align(WallWindows(rows[..i]), origin) + [Window(r.startEpoch.value - origin, r.endEpoch.value - origin)]
               else Align(WallWindows(rows[..i]), origin)
    ensures var r := rows[i];
            LoopWindows(rows[..i + 1])
            == if r.startElapsed.Some? && r.endElapsed.Some?
               then LoopWindows(rows[..i]) + [Window(r.startElapsed.value, r.endElapsed.value)]
               else LoopWindows(rows[..i])
  {
    assert rows[..i + 1][..i] == rows[..i];
  }

  lemma NoRowsNoWindows(origin: real)
    ensures Align(WallWindows([]), origin) == [] && LoopWindows([]) == []
  {
  }

  method LoadInvocationWindows(rows: seq<InvocationRow>, power: seq<PowerRow>) returns (out: seq<Window>)
    ensures out == ChosenWindows(rows, OriginOf(power))
  {
    hide OriginOf, WallWindows, LoopWindows, Align;
    if rows == [] {
      NoRowsNoWindows(0.0);
      return [];
    }
    var origin := ClockOrigin(power);
    out := [];
    assert rows[..0] == [] && rows[..|rows|] == rows;
    NoRowsNoWindows(if origin.Some? then origin.value else 0.0);
    if origin.Some? {
      for i := 0 to |rows|
        invariant out == Align(WallWindows(rows[..i]), origin.value)
      {
        WindowsSoFar(rows, i, origin.value);
        var r := rows[i];
        if r.startEpoch.Some? && r.endEpoch.Some? {
          out := out + [Window(r.startEpoch.value - origin.value, r.endEpoch.value - origin.value)];
        }
      }
      if out != [] {
        return;
      }
    }
    for i := 0 to |rows|
      invariant out == LoopWindows(rows[..i])
    {
      WindowsSoFar(rows, i, 0.0);
      var r := rows[i];
      if r.startElapsed.Some? && r.endElapsed.Some? {
        out := out + [Window(r.startElapsed.value, r.endElapsed.value)];
      }
    }
  }

  /** The trace with time counted by wall clock. */
  function OnWallClock(s: seq<Sample>, origin: real): (r: seq<Sample>)
    ensures |r| == |s| && forall i :: 0 <= i < |s| ==> r[i] == Sample(s[i].x + origin, s[i].y)
  {
    seq(|s|, i requires 0 <= i < |s| => Sample(s[i].x + origin, s[i].y))
  }

  lemma ActiveInEitherFrame(x: real, windows: seq<Window>, pad: real, origin: real)
    ensures IsActive(x, Align(windows, origin), pad) <==> IsActive(x + origin, windows, pad)
  {
    var aligned := Align(windows, origin);
    if w :| w in aligned && w.start - pad <= x <= w.end + pad {
      var i :| 0 <= i < |aligned| && aligned[i] == w;
      assert windows[i] in windows;
    }
    if w :| w in windows && w.start - pad <= x + origin <= w.end + pad {
      var i :| 0 <= i < |windows| && windows[i] == w;
      assert aligned[i] in aligned;
    }
  }

  lemma OnWallClockButLast(s: seq<Sample>, origin: real)
    requires s != []
    ensures OnWallClock(s, origin)[..|s| - 1] == OnWallClock(s[..|s| - 1], origin)
  {
  }

  lemma {:induction false} BucketInEitherFrame(s: seq<Sample>, windows: seq<Window>, pad: real, origin: real, active: bool)
    ensures Bucket(s, Align(windows, origin), pad, active) == Bucket(OnWallClock(s, origin), windows, pad, active)
  {
    if s != [] {
      var n := |s| - 1;
      BucketInEitherFrame(s[..n], windows, pad, origin, active);
      ActiveInEitherFrame(s[n].x, windows, pad, origin);
      OnWallClockButLast(s, origin);
      hide IsActive, OnWallClock, Align;
    }
  }

  lemma {:induction false} TrapzInEitherFrame(s: seq<Sample>, origin: real)
    ensures Trapz(OnWallClock(s, origin)) == Trapz(s)
  {
    if |s| >= 2 {
      TrapzInEitherFrame(s[..|s| - 1], origin);
      OnWallClockButLast(s, origin);
    }
  }

  lemma {:induction false} MaskInEitherFrame(s: seq<Sample>, w: Window, origin: real)
    ensures Mask(OnWallClock(s, origin), w) == OnWallClock(Mask(s, Window(w.start - origin, w.end - origin)), origin)
  {
    if s != [] {
      MaskInEitherFrame(s[..|s| - 1], w, origin);
      OnWallClockButLast(s, origin);
    }
  }

  lemma {:induction false} EnergiesInEitherFrame(s: seq<Sample>, windows: seq<Window>, origin: real)
    ensures Energies(s, Align(windows, origin)) == Energies(OnWallClock(s, origin), windows)
  {
    if windows != [] {
      var n := |windows| - 1;
      EnergiesInEitherFrame(s, windows[..n], origin);
      assert Align(windows, origin)[..n] == Align(windows[..n], origin);
      EnergyInEitherFrame(s, windows[n], origin);
      hide Mask, WindowEnergy, Align;
    }
  }

  lemma EnergyInEitherFrame(s: seq<Sample>, w: Window, origin: real)
    ensures var moved := Window(w.start - origin, w.end - origin);
            && |Mask(OnWallClock(s, origin), w)| == |Mask(s, moved)|
            && WindowEnergy(OnWallClock(s, origin), w) == WindowEnergy(s, moved)
  {
    MaskInEitherFrame(s, w, origin);
    TrapzInEitherFrame(Mask(s, Window(w.start - origin, w.end - origin)), origin);
  }

  lemma SamePad(s: seq<Sample>, pad: Option<real>, origin: real)
    ensures PadOf(OnWallClock(s, origin), pad) == PadOf(s, pad)
  {
    hide Median;
    if |s| >= 2 {
      assert Spacings(OnWallClock(s, origin)) == Spacings(s);
    }
  }

  /**
   * Moving the windows into the power trace's frame gives the same split, with the default
   * padding too, and the same energies as working by wall clock throughout.
   */
  lemma AlignmentChangesNothing(s: seq<Sample>, windows: seq<Window>, pad: Option<real>, origin: real, active: bool)
    ensures var wall := OnWallClock(s, origin);
            && Bucket(s, Align(windows, origin), PadOf(s, pad), active) == Bucket(wall, windows, PadOf(wall, pad), active)
            && Energies(s, Align(windows, origin)) == Energies(wall, windows)
  {
    hide Bucket, Energies, Median, Align;
    SamePad(s, pad, origin);
    hide PadOf, OnWallClock;
    BucketInEitherFrame(s, windows, PadOf(s, pad), origin, active);
    EnergiesInEitherFrame(s, windows, origin);
  }

  /** Some window holds the instant t, give or take `slack`. */
  ghost predicate Near(t: real, windows: seq<Window>, slack: real) {
    exists w :: w in windows && w.start - slack <= t <= w.end + slack
  }

  /**
   * An origin wrong by at most `pad` is absorbed: a sample truly inside an invocation is never
   * called idle, and one called active is never further than 2 * pad from every invocation.
   */
  lemma PadAbsorbsClockError(x: real, windows: seq<Window>, pad: real, origin: real, trueOrigin: real)
    requires -pad <= origin - trueOrigin <= pad
    ensures Near(x + trueOrigin, windows, 0.0) ==> IsActive(x, Align(windows, origin), pad)
    ensures IsActive(x, Align(windows, origin), pad) ==> Near(x + trueOrigin, windows, 2.0 * pad)
  {
    ActiveInEitherFrame(x, windows, pad, origin);
    if w :| w in windows && w.start - 0.0 <= x + trueOrigin <= w.end + 0.0 {
      assert w.start - pad <= x + origin <= w.end + pad;
    }
    if w :| w in windows && w.start - pad <= x + origin <= w.end + pad {
      assert w.start - 2.0 * pad <= x + trueOrigin <= w.end + 2.0 * pad;
    }
  }

  /** The same tolerance end to end: whatever row the origin is taken from, its skew is absorbed. */
  lemma LoadedWindowsTolerateSkew(x: real, rows: seq<InvocationRow>, power: seq<PowerRow>, pad: real, trueOrigin: real)
    requires OriginOf(power).Some? && WallWindows(rows) != []
    requires forall p :: p in power && Complete(p) ==>
               -pad <= p.epoch.value - p.elapsed.value - trueOrigin <= pad
    ensures var windows := ChosenWindows(rows, OriginOf(power));
            && (Near(x + trueOrigin, WallWindows(rows), 0.0) ==> IsActive(x, windows, pad))
            && (IsActive(x, windows, pad) ==> Near(x + trueOrigin, WallWindows(rows), 2.0 * pad))
  {
    var i :| 0 <= i < |power| && Complete(power[i])
      && OriginOf(power).value == power[i].epoch.value - power[i].elapsed.value;
    assert power[i] in power;
    PadAbsorbsClockError(x, WallWindows(rows), pad, OriginOf(power).value, trueOrigin);
  }
}
