/**
 * Decimating a long series into bins. The edges np.linspace(0, n, nbins + 1).astype(int) are
 * taken as the exact integers i * n / nbins.
 */
module Decimation {
  import opened Arithmetic
  import opened Reals

  function Edge(i: nat, n: nat, nbins: nat): nat
    requires nbins > 0
  {
    i * n / nbins
  }

  /** The width every bin has at least. */
  function BaseWidth(n: nat, nbins: nat): nat
    requires nbins > 0
  {
    n / nbins
  }

  /** A half-open range of sample indices. */
  datatype Bin = Bin(lo: nat, hi: nat)

  /** The non-empty bins among the first k. */
  function Bins(k: nat, n: nat, nbins: nat): seq<Bin>
    requires k <= nbins
  {
    if k == 0 then []
    else
      var a, b := Edge(k - 1, n, nbins), Edge(k, n, nbins);
      Bins(k - 1, n, nbins) + if b <= a then [] else [Bin(a, b)]
  }

  lemma QuotientOfSum(x: nat, n: nat, d: nat)
    requires d > 0
    ensures n / d <= (x + n) / d - x / d <= n / d + 1
  {
    var q, e := n / d, x / d;
    assert (e + q) * d == e * d + q * d && (e + q + 2) * d == e * d + q * d + 2 * d;
    FloorIsLargest(e + q, x + n, d);
    FloorIsLargest(e + q + 2, x + n, d);
  }

  /** Consecutive edges are the base width apart, or one more. */
  lemma EdgeStep(i: nat, n: nat, nbins: nat)
    requires nbins > 0
    ensures BaseWidth(n, nbins) <= Edge(i + 1, n, nbins) - Edge(i, n, nbins) <= BaseWidth(n, nbins) + 1
  {
    assert (i + 1) * n == i * n + n;
    QuotientOfSum(i * n, n, nbins);
  }

  lemma LastEdge(n: nat, nbins: nat)
    requires nbins > 0
    ensures Edge(0, n, nbins) == 0 && Edge(nbins, n, nbins) == n
  {
    DivUnique(n, nbins * n, nbins);
  }

  /** The bins follow each other without gap or overlap from sample 0 to sample `end`. */
  ghost predicate Covers(bins: seq<Bin>, end: nat) {
    && (bins == [] ==> end == 0)
    && (bins != [] ==> bins[0].lo == 0 && bins[|bins| - 1].hi == end)
    && (forall j :: 0 <= j < |bins| ==> bins[j].lo < bins[j].hi)
    && (forall j :: 0 < j < |bins| ==> bins[j - 1].hi == bins[j].lo)
  }

  lemma {:induction false} BinsSoFar(k: nat, n: nat, nbins: nat)
    requires 0 < nbins && k <= nbins
    ensures Covers(Bins(k, n, nbins), Edge(k, n, nbins))
    ensures |Bins(k, n, nbins)| == if n >= nbins then k else Edge(k, n, nbins)
    ensures forall j :: 0 <= j < |Bins(k, n, nbins)| ==>
              BaseWidth(n, nbins) <= Bins(k, n, nbins)[j].hi - Bins(k, n, nbins)[j].lo <= BaseWidth(n, nbins) + 1
  {
    hide Edge, BaseWidth;
    LastEdge(n, nbins);
    QuotientZero(n, nbins);
    if k > 0 {
      hide Covers;
      BinsSoFar(k - 1, n, nbins);
      EdgeStep(k - 1, n, nbins);
      OneMoreBin(k, n, nbins);
    }
  }

  lemma OneMoreBin(k: nat, n: nat, nbins: nat)
    requires 0 < k <= nbins && Edge(k - 1, n, nbins) <= Edge(k, n, nbins)
    requires Covers(Bins(k - 1, n, nbins), Edge(k - 1, n, nbins))
    ensures Bins(k, n, nbins) == Bins(k - 1, n, nbins)
            + if Edge(k - 1, n, nbins) < Edge(k, n, nbins) then [Bin(Edge(k - 1, n, nbins), Edge(k, n, nbins))] else []
    ensures Covers(Bins(k, n, nbins), Edge(k, n, nbins))
  {
    hide Edge;
    if Edge(k - 1, n, nbins) < Edge(k, n, nbins) {
      CoversOneMore(Bins(k - 1, n, nbins), Edge(k - 1, n, nbins), Edge(k, n, nbins));
    }
    hide Covers;
  }

  lemma CoversOneMore(bins: seq<Bin>, a: nat, b: nat)
    requires Covers(bins, a) && a < b
    ensures Covers(bins + [Bin(a, b)], b)
  {
    var more := bins + [Bin(a, b)];
    forall j | 0 < j < |more| ensures more[j - 1].hi == more[j].lo {
      assert more[j - 1] == bins[j - 1];
      if j < |bins| {
        assert more[j] == bins[j];
      }
    }
  }

  lemma QuotientZero(n: nat, nbins: nat)
    requires nbins > 0
    ensures BaseWidth(n, nbins) == 0 <==> n < nbins
  {
    FloorIsLargest(1, n, nbins);
  }

  /**
   * Exactly min(n, nbins) bins are emitted; they partition the samples, and their widths
   * differ by at most one.
   */
  lemma BinsPartition(n: nat, nbins: nat)
    ensures |Bins(nbins, n, nbins)| == if n < nbins then n else nbins
    ensures nbins > 0 ==> Covers(Bins(nbins, n, nbins), n)
    ensures forall i, j :: 0 <= i < |Bins(nbins, n, nbins)| && 0 <= j < |Bins(nbins, n, nbins)| ==>
              var v, w := Bins(nbins, n, nbins)[i], Bins(nbins, n, nbins)[j];
              (v.hi - v.lo) - (w.hi - w.lo) <= 1
  {
    if nbins > 0 {
      BinsSoFar(nbins, n, nbins);
      LastEdge(n, nbins);
    }
  }

  /** Edges are rounded down: each is the last sample index not behind its exact place. */
  lemma EdgeIsFloor(i: nat, n: nat, nbins: nat)
    requires nbins > 0
    ensures Edge(i, n, nbins) * nbins <= i * n < (Edge(i, n, nbins) + 1) * nbins
  {
    FloorIsLargest(Edge(i, n, nbins), i * n, nbins);
    FloorIsLargest(Edge(i, n, nbins) + 1, i * n, nbins);
  }

  /** With enough samples, bin j reaches from edge j to the next. */
  lemma {:induction false} BinIsBetweenEdges(k: nat, n: nat, nbins: nat, j: nat)
    requires 0 < nbins <= n && j < k <= nbins
    ensures |Bins(k, n, nbins)| == k
    ensures Bins(k, n, nbins)[j] == Bin(Edge(j, n, nbins), Edge(j + 1, n, nbins))
  {
    hide Edge, BaseWidth;
    BinsSoFar(k, n, nbins);
    BinsSoFar(k - 1, n, nbins);
    if j < k - 1 {
      BinIsBetweenEdges(k - 1, n, nbins, j);
    }
  }

  lemma {:induction false} CoversOrdered(bins: seq<Bin>, end: nat, i: nat, j: nat)
    requires Covers(bins, end) && i < j < |bins|
    ensures bins[i].hi <= bins[j].lo
    decreases j
  {
    if i < j - 1 {
      CoversOrdered(bins, end, i, j - 1);
    }
  }

  /** Every sample lies in exactly one bin. */
  lemma {:induction false} BinOfSample(bins: seq<Bin>, end: nat, t: nat) returns (j: nat)
    requires Covers(bins, end) && t < end
    ensures j < |bins| && bins[j].lo <= t < bins[j].hi <= end
    ensures forall i :: 0 <= i < |bins| && bins[i].lo <= t < bins[i].hi ==> i == j
  {
    j := |bins| - 1;
    while t < bins[j].lo
      invariant 0 <= j < |bins| && t < bins[j].hi
    {
      j := j - 1;
    }
    forall i | 0 <= i < |bins| && bins[i].lo <= t < bins[i].hi ensures i == j {
      if i < j {
        CoversOrdered(bins, end, i, j);
      } else if j < i {
        CoversOrdered(bins, end, j, i);
      }
    }
    if j < |bins| - 1 {
      CoversOrdered(bins, end, j, |bins| - 1);
    }
  }

  // ----- Min/max envelope

  function Min(v: seq<real>): real
    requires v != []
  {
    if |v| == 1 then v[0] else var m := Min(v[1..]); if v[0] <= m then v[0] else m
  }

  function Max(v: seq<real>): real
    requires v != []
  {
    if |v| == 1 then v[0] else var m := Max(v[1..]); if v[0] >= m then v[0] else m
  }

  lemma {:induction false} MinIsLeast(v: seq<real>) returns (at: nat)
    requires v != []
    ensures at < |v| && v[at] == Min(v) && forall i :: 0 <= i < |v| ==> Min(v) <= v[i]
  {
    at := 0;
    if |v| > 1 {
      var rest := MinIsLeast(v[1..]);
      at := if v[0] <= Min(v[1..]) then 0 else rest + 1;
    }
  }

  lemma {:induction false} MaxIsGreatest(v: seq<real>) returns (at: nat)
    requires v != []
    ensures at < |v| && v[at] == Max(v) && forall i :: 0 <= i < |v| ==> v[i] <= Max(v)
  {
    at := 0;
    if |v| > 1 {
      var rest := MaxIsGreatest(v[1..]);
      at := if v[0] >= Max(v[1..]) then 0 else rest + 1;
    }
  }

  function Mean(v: seq<real>): real
    requires v != []
  {
    Sum(v) / |v| as real
  }

  ghost predicate BinsWithin(bins: seq<Bin>, n: nat) {
    forall j :: 0 <= j < |bins| ==> bins[j].lo < bins[j].hi <= n
  }

  function Slice(v: seq<real>, bin: Bin): (part: seq<real>)
    requires bin.lo < bin.hi <= |v|
    ensures |part| == bin.hi - bin.lo
    ensures forall i :: bin.lo <= i < bin.hi ==> part[i - bin.lo] == v[i]
  {
    v[bin.lo..bin.hi]
  }

  ghost function Mins(v: seq<real>, bins: seq<Bin>): (r: seq<real>)
    requires BinsWithin(bins, |v|)
    ensures |r| == |bins| && forall j :: 0 <= j < |r| ==> r[j] == Min(Slice(v, bins[j]))
  {
    seq(|bins|, j requires 0 <= j < |bins| => Min(Slice(v, bins[j])))
  }

  ghost function Maxs(v: seq<real>, bins: seq<Bin>): (r: seq<real>)
    requires BinsWithin(bins, |v|)
    ensures |r| == |bins| && forall j :: 0 <= j < |r| ==> r[j] == Max(Slice(v, bins[j]))
  {
    seq(|bins|, j requires 0 <= j < |bins| => Max(Slice(v, bins[j])))
  }

  ghost function Means(v: seq<real>, bins: seq<Bin>): (r: seq<real>)
    requires BinsWithin(bins, |v|)
    ensures |r| == |bins| && forall j :: 0 <= j < |r| ==> r[j] == Mean(Slice(v, bins[j]))
  {
    seq(|bins|, j requires 0 <= j < |bins| => Mean(Slice(v, bins[j])))
  }

  lemma EdgeWithin(k: nat, n: nat, nbins: nat)
    requires 0 < nbins && k <= nbins
    ensures Edge(k, n, nbins) <= n
  {
    MulMonotone(k, nbins, n);
    assert Edge(k, n, nbins) * nbins <= k * n <= nbins * n;
    FloorIsLargest(Edge(k, n, nbins), nbins * n, nbins);
    LastEdge(n, nbins);
  }

  lemma BinsFit(k: nat, n: nat, nbins: nat)
    requires 0 < nbins && k <= nbins
    ensures BinsWithin(Bins(k, n, nbins), n)
    ensures Edge(k, n, nbins) <= n
  {
    EdgeWithin(k, n, nbins);
    hide Edge;
    BinsSoFar(k, n, nbins);
    var bins := Bins(k, n, nbins);
    forall j | 0 <= j < |bins| ensures bins[j].hi <= n {
      if j < |bins| - 1 {
        CoversOrdered(bins, Edge(k, n, nbins), j, |bins| - 1);
      }
    }
  }

  /** Per bin: mean time, least and greatest value. */
  method Envelope(xs: seq<real>, ys: seq<real>, nbins: nat) returns (bx: seq<real>, lo: seq<real>, hi: seq<real>)
    requires |xs| == |ys|
    ensures BinsWithin(Bins(nbins, |xs|, nbins), |xs|)
    ensures bx == Means(xs, Bins(nbins, |xs|, nbins))
    ensures lo == Mins(ys, Bins(nbins, |xs|, nbins))
    ensures hi == Maxs(ys, Bins(nbins, |xs|, nbins))
  {
    var n := |xs|;
    bx, lo, hi := [], [], [];
    for i := 0 to nbins
      invariant BinsWithin(Bins(i, n, nbins), n)
      invariant bx == Means(xs, Bins(i, n, nbins))
      invariant lo == Mins(ys, Bins(i, n, nbins))
      invariant hi == Maxs(ys, Bins(i, n, nbins))
    {
      BinsFit(i + 1, n, nbins);
      var a, b := Edge(i, n, nbins), Edge(i + 1, n, nbins);
      if b <= a { continue; }
      bx := bx + [Mean(xs[a..b])];
      lo := lo + [Min(ys[a..b])];
      hi := hi + [Max(ys[a..b])];
    }
  }

  /** Every sample lies between its bin's lo and hi, and the extremes of the series survive. */
  lemma EnvelopeIsFaithful(ys: seq<real>, nbins: nat)
    requires nbins > 0 && ys != []
    ensures BinsWithin(Bins(nbins, |ys|, nbins), |ys|)
    ensures var bins := Bins(nbins, |ys|, nbins);
            && (forall t, j :: 0 <= j < |bins| && bins[j].lo <= t < bins[j].hi ==>
                  Mins(ys, bins)[j] <= ys[t] <= Maxs(ys, bins)[j])
            && bins != [] && Min(Mins(ys, bins)) == Min(ys) && Max(Maxs(ys, bins)) == Max(ys)
  {
    hide *;
    BinsFit(nbins, |ys|, nbins);
    BinsPartition(|ys|, nbins);
    FaithfulOverBins(ys, Bins(nbins, |ys|, nbins));
  }

  lemma FaithfulOverBins(ys: seq<real>, bins: seq<Bin>)
    requires ys != [] && Covers(bins, |ys|) && BinsWithin(bins, |ys|)
    ensures forall t, j :: 0 <= j < |bins| && bins[j].lo <= t < bins[j].hi ==>
              Mins(ys, bins)[j] <= ys[t] <= Maxs(ys, bins)[j]
    ensures bins != [] && Min(Mins(ys, bins)) == Min(ys) && Max(Maxs(ys, bins)) == Max(ys)
  {
    hide Min, Max, Mins, Maxs;
    forall t, j | 0 <= j < |bins| && bins[j].lo <= t < bins[j].hi
      ensures Mins(ys, bins)[j] <= ys[t] <= Maxs(ys, bins)[j]
    {
      SampleWithinBin(ys, bins, j, t);
    }
    MinSurvives(ys, bins);
    MaxSurvives(ys, bins);
  }

  lemma SampleWithinBin(ys: seq<real>, bins: seq<Bin>, j: nat, t: int)
    requires BinsWithin(bins, |ys|) && j < |bins| && bins[j].lo <= t < bins[j].hi
    ensures Mins(ys, bins)[j] <= ys[t] <= Maxs(ys, bins)[j]
  {
    hide Min, Max;
    var least := MinIsLeast(Slice(ys, bins[j]));
    var greatest := MaxIsGreatest(Slice(ys, bins[j]));
    assert Slice(ys, bins[j])[t - bins[j].lo] == ys[t];
  }

  lemma MinSurvives(ys: seq<real>, bins: seq<Bin>)
    requires ys != [] && bins != [] && Covers(bins, |ys|) && BinsWithin(bins, |ys|)
    ensures Min(Mins(ys, bins)) == Min(ys)
  {
    hide Min, Max;
    var t := MinIsLeast(ys);
    var j := BinOfSample(bins, |ys|, t);
    hide Covers;
    SampleWithinBin(ys, bins, j, t);
    var i := MinIsLeast(Mins(ys, bins));
    assert Min(Mins(ys, bins)) <= Mins(ys, bins)[j] <= Min(ys);
    var u := MinIsLeast(Slice(ys, bins[i]));
    assert Slice(ys, bins[i])[u] == ys[bins[i].lo + u];
  }

  lemma MaxSurvives(ys: seq<real>, bins: seq<Bin>)
    requires ys != [] && bins != [] && Covers(bins, |ys|) && BinsWithin(bins, |ys|)
    ensures Max(Maxs(ys, bins)) == Max(ys)
  {
    hide Min, Max;
    var t := MaxIsGreatest(ys);
    var j := BinOfSample(bins, |ys|, t);
    hide Covers;
    SampleWithinBin(ys, bins, j, t);
    var i := MaxIsGreatest(Maxs(ys, bins));
    assert Max(Maxs(ys, bins)) >= Maxs(ys, bins)[j] >= Max(ys);
    var u := MaxIsGreatest(Slice(ys, bins[i]));
    assert Slice(ys, bins[i])[u] == ys[bins[i].lo + u];
  }

  // ----- Mean decimation

  ghost predicate Aligned(arrs: seq<seq<real>>, n: nat) {
    forall j :: 0 <= j < |arrs| ==> |arrs[j]| == n
  }

  method DecimateMean(xs: seq<real>, arrs: seq<seq<real>>, nbins: nat) returns (bx: seq<real>, out: seq<seq<real>>)
    requires Aligned(arrs, |xs|)
    ensures BinsWithin(Bins(nbins, |xs|, nbins), |xs|)
    ensures bx == Means(xs, Bins(nbins, |xs|, nbins))
    ensures |out| == |arrs|
    ensures forall j :: 0 <= j < |arrs| ==> out[j] == Means(arrs[j], Bins(nbins, |xs|, nbins))
  {
    var n := |xs|;
    bx, out := [], seq(|arrs|, j => []);
    for i := 0 to nbins
      invariant BinsWithin(Bins(i, n, nbins), n)
      invariant bx == Means(xs, Bins(i, n, nbins))
      invariant |out| == |arrs| && forall j :: 0 <= j < |arrs| ==> out[j] == Means(arrs[j], Bins(i, n, nbins))
    {
      BinsFit(i + 1, n, nbins);
      var a, b := Edge(i, n, nbins), Edge(i + 1, n, nbins);
      if b <= a { continue; }
      bx := bx + [Mean(xs[a..b])];
      for j := 0 to |arrs|
        invariant |out| == |arrs|
        invariant forall m :: 0 <= m < j ==> out[m] == Means(arrs[m], Bins(i + 1, n, nbins))
        invariant forall m :: j <= m < |arrs| ==> out[m] == Means(arrs[m], Bins(i, n, nbins))
      {
        out := out[j := out[j] + [Mean(arrs[j][a..b])]];
        assert out[j] == Means(arrs[j], Bins(i + 1, n, nbins));
      }
    }
  }

  /** The values of all series at one sample. */
  ghost function Column(arrs: seq<seq<real>>, t: nat): (c: seq<real>)
    requires forall j :: 0 <= j < |arrs| ==> t < |arrs[j]|
    ensures |c| == |arrs| && forall j :: 0 <= j < |c| ==> c[j] == arrs[j][t]
  {
    seq(|arrs|, j requires 0 <= j < |arrs| => arrs[j][t])
  }

  /** The stacked total of aligned series, sample by sample. */
  ghost function Stacked(arrs: seq<seq<real>>, n: nat): (total: seq<real>)
    requires Aligned(arrs, n)
    ensures |total| == n && forall t :: 0 <= t < n ==> total[t] == Sum(Column(arrs, t))
  {
    seq(n, t requires 0 <= t < n => Sum(Column(arrs, t)))
  }

  ghost function PartSums(arrs: seq<seq<real>>, a: nat, b: nat): (sums: seq<real>)
    requires a <= b && forall j :: 0 <= j < |arrs| ==> b <= |arrs[j]|
    ensures |sums| == |arrs| && forall j :: 0 <= j < |arrs| ==> sums[j] == Sum(arrs[j][a..b])
  {
    seq(|arrs|, j requires 0 <= j < |arrs| => Sum(arrs[j][a..b]))
  }

  lemma {:induction false} StackedPartSum(arrs: seq<seq<real>>, n: nat, a: nat, b: nat)
    requires Aligned(arrs, n) && a <= b <= n
    ensures Sum(Stacked(arrs, n)[a..b]) == Sum(PartSums(arrs, a, b))
    decreases b
  {
    var total := Stacked(arrs, n);
    if a == b {
      AllZero(PartSums(arrs, a, b));
    } else {
      StackedPartSum(arrs, n, a, b - 1);
      hide Sum;
      SumSlice(total, a, b);
      forall j | 0 <= j < |arrs|
        ensures PartSums(arrs, a, b)[j] == PartSums(arrs, a, b - 1)[j] + Column(arrs, b - 1)[j]
      {
        SumSlice(arrs[j], a, b);
      }
      SumPointwise(PartSums(arrs, a, b - 1), Column(arrs, b - 1), PartSums(arrs, a, b));
    }
  }

  lemma {:induction false} AllZero(v: seq<real>)
    requires forall i :: 0 <= i < |v| ==> v[i] == 0.0
    ensures Sum(v) == 0.0
  {
    if v != [] {
      AllZero(v[..|v| - 1]);
    }
  }

  /** In every bin the decimated series add up to the decimated total. */
  lemma DecimationKeepsStackedTotals(arrs: seq<seq<real>>, n: nat, bin: Bin, means: seq<real>)
    requires Aligned(arrs, n) && bin.lo < bin.hi <= n
    requires |means| == |arrs| && forall j :: 0 <= j < |arrs| ==> means[j] == Mean(Slice(arrs[j], bin))
    ensures Sum(means) == Mean(Slice(Stacked(arrs, n), bin))
  {
    var sums, width := PartSums(arrs, bin.lo, bin.hi), (bin.hi - bin.lo) as real;
    forall j | 0 <= j < |arrs| ensures means[j] == sums[j] / width {
      MeanOfSlice(arrs[j], bin);
    }
    MeanOfSlice(Stacked(arrs, n), bin);
    StackedPartSum(arrs, n, bin.lo, bin.hi);
    hide *;
    SumScaled(sums, means, width);
  }

  lemma MeanOfSlice(v: seq<real>, bin: Bin)
    requires bin.lo < bin.hi <= |v|
    ensures Mean(Slice(v, bin)) == Sum(v[bin.lo..bin.hi]) / (bin.hi - bin.lo) as real
  {
  }

  /** Bin means weighted by the bins' widths. */
  ghost function WeightedSum(v: seq<real>, bins: seq<Bin>): real
    requires BinsWithin(bins, |v|)
  {
    if bins == [] then 0.0
    else
      var last := bins[|bins| - 1];
      WeightedSum(v, bins[..|bins| - 1]) + (last.hi - last.lo) as real * Mean(Slice(v, last))
  }

  lemma {:induction false} WeightedSumUpTo(v: seq<real>, bins: seq<Bin>, end: nat)
    requires BinsWithin(bins, |v|) && Covers(bins, end) && end <= |v|
    ensures WeightedSum(v, bins) == Sum(v[..end])
  {
    hide Sum;
    if bins == [] {
      AllZero(v[..end]);
    } else {
      var last := bins[|bins| - 1];
      WeightedSumUpTo(v, bins[..|bins| - 1], last.lo);
      hide Covers, Mean;
      assert v[..end] == v[..last.lo] + Slice(v, last);
      SumAppend(v[..last.lo], Slice(v, last));
      WeightedMean(v, last);
    }
  }

  lemma WeightedMean(v: seq<real>, bin: Bin)
    requires bin.lo < bin.hi <= |v|
    ensures (bin.hi - bin.lo) as real * Mean(Slice(v, bin)) == Sum(Slice(v, bin))
  {
  }

  /** Decimation loses no mass: the bin means weighted by width add up to all original samples. */
  lemma DecimationKeepsSum(v: seq<real>, nbins: nat)
    requires nbins > 0
    ensures BinsWithin(Bins(nbins, |v|, nbins), |v|)
    ensures WeightedSum(v, Bins(nbins, |v|, nbins)) == Sum(v)
  {
    hide *;
    BinsFit(nbins, |v|, nbins);
    BinsPartition(|v|, nbins);
    WeightedSumUpTo(v, Bins(nbins, |v|, nbins), |v|);
    assert v[..|v|] == v;
  }
}
