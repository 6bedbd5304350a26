/** Sums of real sequences. */
module Reals {

  function Sum(v: seq<real>): real {
    if v == [] then 0.0 else Sum(v[..|v| - 1]) + v[|v| - 1]
  }

  lemma {:induction false} SumAppend(u: seq<real>, v: seq<real>)
    ensures Sum(u + v) == Sum(u) + Sum(v)
  {
    if v == [] {
      assert u + v == u;
    } else {
      var n := |v| - 1;
      SumAppend(u, v[..n]);
      assert (u + v)[..|u + v| - 1] == u + v[..n];
    }
  }

  lemma SumSlice(v: seq<real>, a: nat, b: nat)
    requires a < b <= |v|
    ensures Sum(v[a..b]) == Sum(v[a..b - 1]) + v[b - 1]
  {
    assert v[a..b][..b - 1 - a] == v[a..b - 1];
  }

  /** A sum of pointwise sums is the sum of the sums. */
  lemma {:induction false} SumPointwise(u: seq<real>, v: seq<real>, w: seq<real>)
    requires |u| == |v| == |w| && forall i :: 0 <= i < |u| ==> w[i] == u[i] + v[i]
    ensures Sum(w) == Sum(u) + Sum(v)
  {
    if u != [] {
      var n := |u| - 1;
      SumPointwise(u[..n], v[..n], w[..n]);
    }
  }

  lemma {:induction false} SumScaled(u: seq<real>, v: seq<real>, d: real)
    requires d > 0.0 && |u| == |v| && forall i :: 0 <= i < |u| ==> v[i] == u[i] / d
    ensures Sum(v) == Sum(u) / d
  {
    if u != [] {
      var n := |u| - 1;
      SumScaled(u[..n], v[..n], d);
    }
  }
}
