/** Replicating the payload list and cutting it into one slice per endpoint. */
module Payloads {
  import opened Arithmetic

  /** The least positive number of whole copies of m payloads that covers the runs. */
  function Copies(m: nat, runs: nat): (c: nat)
    requires m > 0
    ensures c >= 1 && c * m >= runs
    ensures c == 1 || (c - 1) * m < runs
  {
    var ceiling := (runs + m - 1) / m;
    FloorIsLargest(ceiling, runs + m - 1, m);
    FloorIsLargest(ceiling + 1, runs + m - 1, m);
    assert (ceiling + 1) * m == ceiling * m + m && (ceiling - 1) * m == ceiling * m - m;
    if ceiling < 1 then 1 else ceiling
  }

  /** order holds every index below n once. */
  ghost predicate IsPermutation(order: seq<nat>, n: nat) {
    multiset(order) == multiset(Upto(n))
  }

  function Upto(n: nat): (r: seq<nat>)
    ensures |r| == n && forall i :: 0 <= i < n ==> r[i] == i
  {
    seq(n, i requires 0 <= i => i)
  }

  lemma PermutationRange(order: seq<nat>, n: nat)
    requires IsPermutation(order, n)
    ensures |order| == n && forall i :: 0 <= i < n ==> order[i] < n
  {
    assert |order| == |multiset(order)| == |multiset(Upto(n))| == n;
    forall i | 0 <= i < n ensures order[i] < n {
      assert order[i] in multiset(order);
      assert order[i] in Upto(n);
    }
  }

  /** Which payload each slot carries: in rotation, or in rotation and then shuffled. */
  ghost function Origins(m: nat, slots: nat, shuffled: bool, order: seq<nat>): (origins: seq<nat>)
    requires m > 0 && (shuffled ==> IsPermutation(order, slots))
    ensures |origins| == slots && forall j :: 0 <= j < slots ==> origins[j] < m
    ensures !shuffled ==> forall j :: 0 <= j < slots ==> origins[j] == j % m
    ensures shuffled ==> |order| == slots && forall j :: 0 <= j < slots ==> origins[j] == order[j] % m
  {
    if shuffled then
      PermutationRange(order, slots);
      seq(slots, j requires 0 <= j < slots => order[j] % m)
    else seq(slots, j requires 0 <= j < slots => j % m)
  }

  /**
   * Whole copies of the payloads until they cover the runs, then the shuffle. The generator's
   * effect is the order it would put a list of a given length in.
   */
  method BuildPayloadList<T>(payloads: seq<T>, totalRuns: nat, shufflePayloads: bool, shuffle: nat -> seq<nat>)
    returns (list: seq<T>)
    requires payloads != []
    requires forall n :: IsPermutation(shuffle(n), n)
    ensures |list| == Copies(|payloads|, totalRuns) * |payloads|
    ensures var origins := Origins(|payloads|, |list|, shufflePayloads, shuffle(|list|));
            forall j :: 0 <= j < |list| ==> list[j] == payloads[origins[j]]
  {
    var m := |payloads|;
    list := payloads;
    ghost var c := 1;
    while |list| < totalRuns
      invariant c >= 1 && list == Tiled(payloads, c) && |list| == c * m && (c == 1 || (c - 1) * m < totalRuns)
      decreases totalRuns - |list|
    {
      list := list + payloads;
      c := c + 1;
    }
    CopiesUnique(m, totalRuns, c);
    TiledInRotation(payloads, c);
    if shufflePayloads {
      var order := shuffle(|list|);
      PermutationRange(order, |list|);
      list := seq(|list|, j requires 0 <= j < |list| => list[order[j]]);
    }
  }

  function Tiled<T>(payloads: seq<T>, copies: nat): seq<T> {
    if copies == 0 then [] else Tiled(payloads, copies - 1) + payloads
  }

  lemma {:induction false} TiledInRotation<T>(payloads: seq<T>, copies: nat)
    requires payloads != []
    ensures |Tiled(payloads, copies)| == copies * |payloads|
    ensures forall j :: 0 <= j < |Tiled(payloads, copies)| ==> Tiled(payloads, copies)[j] == payloads[j % |payloads|]
  {
    if copies > 0 {
      TiledInRotation(payloads, copies - 1);
      var m := |payloads|;
      var before := (copies - 1) * m;
      assert before + m == copies * m;
      forall j | before <= j < before + m
        ensures Tiled(payloads, copies)[j] == payloads[j % m]
      {
        Residue(copies - 1, before, j, m);
      }
    }
  }

  lemma Residue(q: nat, start: nat, j: nat, m: nat)
    requires m > 0 && start == q * m && start <= j < start + m
    ensures j % m == j - start
  {
    DivUnique(q, j, m);
  }

  lemma CopiesUnique(m: nat, runs: nat, c: nat)
    requires m > 0 && c >= 1 && c * m >= runs && (c == 1 || (c - 1) * m < runs)
    ensures c == Copies(m, runs)
  {
    var d := Copies(m, runs);
    if c < d {
      MulMonotone(c, d - 1, m);
    } else if d < c {
      MulMonotone(d, c - 1, m);
    }
  }

  // ----- One slice per endpoint

  /** list[a:b] with Python's clamping */
  function Slice<T>(list: seq<T>, a: nat, b: nat): seq<T>
    requires a <= b
  {
    list[if a <= |list| then a else |list|..if b <= |list| then b else |list|]
  }

  function EndpointSlice<T>(list: seq<T>, i: nat, runsPerEndpoint: nat): seq<T> {
    Slice(list, i * runsPerEndpoint, i * runsPerEndpoint + runsPerEndpoint)
  }

  function SlicesFrom<T>(list: seq<T>, endpoints: nat, runsPerEndpoint: nat): seq<T> {
    if endpoints == 0 then []
    else SlicesFrom(list, endpoints - 1, runsPerEndpoint) + EndpointSlice(list, endpoints - 1, runsPerEndpoint)
  }

  /** The slices are runsPerEndpoint long each and concatenate to the first endpoints * runsPerEndpoint entries. */
  lemma {:induction false} SlicesConcatenate<T>(list: seq<T>, endpoints: nat, runsPerEndpoint: nat)
    requires endpoints * runsPerEndpoint <= |list|
    ensures SlicesFrom(list, endpoints, runsPerEndpoint) == list[..endpoints * runsPerEndpoint]
    ensures endpoints > 0 ==> |EndpointSlice(list, endpoints - 1, runsPerEndpoint)| == runsPerEndpoint
  {
    if endpoints > 0 {
      var start := (endpoints - 1) * runsPerEndpoint;
      assert start + runsPerEndpoint == endpoints * runsPerEndpoint;
      SlicesConcatenate(list, endpoints - 1, runsPerEndpoint);
      assert list[..start] + list[start..start + runsPerEndpoint] == list[..start + runsPerEndpoint];
    }
  }

  // ----- How often each payload is sent

  lemma CountAppend(v: seq<nat>, x: nat, p: nat)
    ensures multiset(v + [x])[p] == multiset(v)[p] + if x == p then 1 else 0
  {
  }

  lemma NextOrigin(m: nat, n: nat)
    requires m > 0
    ensures Origins(m, 0, false, []) == []
    ensures Origins(m, n + 1, false, []) == Origins(m, n, false, []) + [n % m]
  {
  }

  lemma {:induction false} RotationCount(m: nat, slots: nat, p: nat)
    requires m > 0 && p < m
    ensures multiset(Origins(m, slots, false, []))[p] == slots / m + if p < slots % m then 1 else 0
  {
    hide Origins;
    if slots == 0 {
      NextOrigin(m, 0);
      DivUnique(0, 0, m);
    } else {
      var n := slots - 1;
      RotationCount(m, n, p);
      NextOrigin(m, n);
      CountAppend(Origins(m, n, false, []), n % m, p);
      NextCount(n, m, p);
    }
  }

  /** The number of indices below n that are p modulo m, when n is counted too. */
  lemma NextCount(n: nat, m: nat, p: nat)
    requires p < m
    ensures n / m + (if p < n % m then 1 else 0) + (if n % m == p then 1 else 0)
            == (n + 1) / m + if p < (n + 1) % m then 1 else 0
  {
    NextQuotient(n, m);
  }

  lemma NextQuotient(n: nat, m: nat)
    requires m > 0
    ensures n % m + 1 < m ==> (n + 1) / m == n / m && (n + 1) % m == n % m + 1
    ensures n % m + 1 == m ==> (n + 1) / m == n / m + 1 && (n + 1) % m == 0
  {
    assert n == n / m * m + n % m;
    if n % m + 1 < m {
      DivUnique(n / m, n + 1, m);
    } else {
      assert (n / m + 1) * m == n / m * m + m;
      DivUnique(n / m + 1, n + 1, m);
    }
  }

  /** Unshuffled, every payload position is sent floor(runs / m) or ceil(runs / m) times. */
  lemma RotationIsBalanced(m: nat, slots: nat, runs: nat, p: nat)
    requires m > 0 && p < m && runs <= slots
    ensures runs / m <= multiset(Origins(m, slots, false, [])[..runs])[p] <= (runs + m - 1) / m
  {
    assert Origins(m, slots, false, [])[..runs] == Origins(m, runs, false, []);
    RotationCount(m, runs, p);
    hide Origins;
    CeilingOfQuotient(runs, m, p);
  }

  lemma CeilingOfQuotient(runs: nat, m: nat, p: nat)
    requires m > 0
    ensures runs / m + (if p < runs % m then 1 else 0) <= (runs + m - 1) / m
  {
    assert runs == runs / m * m + runs % m;
    if p < runs % m {
      assert (runs / m + 1) * m == runs / m * m + m;
      FloorIsLargest(runs / m + 1, runs + m - 1, m);
    } else {
      FloorIsLargest(runs / m, runs + m - 1, m);
    }
  }

  ghost function Mapped(u: seq<nat>, f: nat -> nat): (r: seq<nat>)
    ensures |r| == |u| && forall i :: 0 <= i < |u| ==> r[i] == f(u[i])
  {
    seq(|u|, i requires 0 <= i < |u| => f(u[i]))
  }

  lemma MappedRemoval(v: seq<nat>, i: nat, f: nat -> nat)
    requires i < |v|
    ensures multiset(Mapped(v, f)) == multiset(Mapped(v[..i] + v[i + 1..], f)) + multiset{f(v[i])}
    ensures multiset(v) == multiset(v[..i] + v[i + 1..]) + multiset{v[i]}
  {
    var before, behind := v[..i], v[i + 1..];
    assert v == before + ([v[i]] + behind);
    MappedAppend(before, [v[i]] + behind, f);
    MappedAppend([v[i]], behind, f);
    MappedAppend(before, behind, f);
    assert Mapped([v[i]], f) == [f(v[i])];
  }

  lemma MappedAppend(u: seq<nat>, v: seq<nat>, f: nat -> nat)
    ensures Mapped(u + v, f) == Mapped(u, f) + Mapped(v, f)
  {
  }

  lemma SameRemainder(a: multiset<nat>, b: multiset<nat>, x: nat)
    requires a + multiset{x} == b + multiset{x}
    ensures a == b
  {
    assert a == (a + multiset{x}) - multiset{x} && b == (b + multiset{x}) - multiset{x};
  }

  /** Mapping permutations of each other gives permutations of each other. */
  lemma {:induction false} MappedPermutation(u: seq<nat>, v: seq<nat>, f: nat -> nat)
    requires multiset(u) == multiset(v)
    ensures multiset(Mapped(u, f)) == multiset(Mapped(v, f))
    decreases |u|
  {
    if u == [] {
      assert |v| == |multiset(v)| == 0;
    } else {
      assert u[0] in multiset(v);
      var i :| 0 <= i < |v| && v[i] == u[0];
      MappedRemoval(u, 0, f);
      MappedRemoval(v, i, f);
      var u', v' := u[..0] + u[1..], v[..i] + v[i + 1..];
      SameRemainder(multiset(u'), multiset(v'), u[0]);
      MappedPermutation(u', v', f);
    }
  }

  /**
   * Shuffled, the list is a permutation of whole copies, so no payload position is sent more
   * often than there are copies, which is max(1, ceil(runs / m)).
   */
  lemma ShuffleIsBounded(m: nat, runs: nat, order: seq<nat>, p: nat)
    requires m > 0 && p < m && IsPermutation(order, Copies(m, runs) * m)
    ensures var origins := Origins(m, Copies(m, runs) * m, true, order);
            multiset(origins[..runs])[p] <= multiset(origins)[p] == Copies(m, runs)
  {
    var origins := Origins(m, Copies(m, runs) * m, true, order);
    ShuffledCount(m, Copies(m, runs), Copies(m, runs) * m, order, p);
    assert origins == origins[..runs] + origins[runs..];
  }

  lemma ShuffledCount(m: nat, copies: nat, slots: nat, order: seq<nat>, p: nat)
    requires m > 0 && p < m && slots == copies * m && IsPermutation(order, slots)
    ensures multiset(Origins(m, slots, true, order))[p] == copies
  {
    RotationCount(m, slots, p);
    DivUnique(copies, slots, m);
    OriginsPermuted(m, slots, order, (j: nat) => j % m);
  }

  lemma OriginsPermuted(m: nat, slots: nat, order: seq<nat>, residue: nat -> nat)
    requires m > 0 && IsPermutation(order, slots) && forall j: nat :: residue(j) == j % m
    ensures multiset(Origins(m, slots, true, order)) == multiset(Origins(m, slots, false, []))
  {
    assert Origins(m, slots, true, order) == Mapped(order, residue);
    assert Origins(m, slots, false, []) == Mapped(Upto(slots), residue);
    MappedPermutation(order, Upto(slots), residue);
  }

  /** The number of copies is max(1, ceil(runs / m)). */
  lemma CopiesIsCeiling(m: nat, runs: nat)
    requires m > 0
    ensures Copies(m, runs) == if runs <= m then 1 else (runs + m - 1) / m
  {
    if runs > m {
      FloorIsLargest(2, runs + m - 1, m);
    } else {
      CopiesUnique(m, runs, 1);
    }
  }
}
