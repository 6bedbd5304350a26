/** The host CPU list in NUMA order and the pool taken from its front. */
module CpuPool {
  import opened Wrappers
  import opened Arithmetic
  import opened Sequences
  import Sorting

  datatype Cpu = Cpu(id: nat, core: nat, socket: nat, node: nat)

  /** One line of lscpu -p=CPU,CORE,SOCKET,NODE; the node column may be empty. */
  datatype LscpuRow = LscpuRow(cpu: nat, core: nat, socket: nat, node: Option<nat>)

  function ToCpu(row: LscpuRow): Cpu {
    Cpu(row.cpu, row.core, row.socket, if row.node.None? then 0 else row.node.value)
  }

  /** The order of sort -k2,2n -k3,3n -k4,4n -k1,1n: node, socket, core, CPU. */
  predicate Precedes(a: Cpu, b: Cpu) {
    || a.node < b.node
    || (a.node == b.node && a.socket < b.socket)
    || (a.node == b.node && a.socket == b.socket && a.core < b.core)
    || (a.node == b.node && a.socket == b.socket && a.core == b.core && a.id <= b.id)
  }

  ghost predicate Sorted(list: seq<Cpu>) {
    forall i, j :: 0 <= i < j < |list| ==> Precedes(list[i], list[j])
  }

  ghost predicate DistinctIds(list: seq<Cpu>) {
    forall i, j :: 0 <= i < j < |list| ==> list[i].id != list[j].id
  }

  lemma PrecedesIsOrder()
    ensures Sorting.TotalPreorder(Precedes)
  {
  }

  lemma {:induction false} DistinctOnce(list: seq<Cpu>, c: Cpu)
    requires DistinctIds(list)
    ensures multiset(list)[c] <= 1
  {
    if list != [] {
      var n := |list| - 1;
      DistinctOnce(list[..n], c);
      assert list == list[..n] + [list[n]];
      assert list[n] !in list[..n];
    }
  }

  /** Reordering CPUs with distinct ids keeps them distinct. */
  lemma DistinctIdsPermuted(list: seq<Cpu>, other: seq<Cpu>)
    requires multiset(list) == multiset(other) && DistinctIds(list)
    ensures DistinctIds(other)
  {
    forall i, j | 0 <= i < j < |other| ensures other[i].id != other[j].id {
      assert other[i] in multiset(other) && other[j] in multiset(other);
      assert other[i] in list && other[j] in list;
      if other[i] == other[j] {
        TwicePresent(other, i, j);
        DistinctOnce(list, other[i]);
        assert false;
      }
    }
  }

  /** fc_cpu_list: every CPU of the host exactly once, in NUMA order; each with its own id when lscpu gives it one. */
  function CpuList(rows: seq<LscpuRow>): (list: seq<Cpu>)
    ensures Sorted(list)
    ensures multiset(list) == multiset(seq(|rows|, i requires 0 <= i < |rows| => ToCpu(rows[i])))
    ensures (forall i, j :: 0 <= i < j < |rows| ==> rows[i].cpu != rows[j].cpu) ==> DistinctIds(list)
  {
    var cpus := seq(|rows|, i requires 0 <= i < |rows| => ToCpu(rows[i]));
    PrecedesIsOrder();
    Sorting.SortSorts(cpus, Precedes);
    assert DistinctIds(cpus) ==> DistinctIds(Sorting.SortBy(cpus, Precedes)) by {
      if DistinctIds(cpus) { DistinctIdsPermuted(cpus, Sorting.SortBy(cpus, Precedes)); }
    }
    Sorting.SortBy(cpus, Precedes)
  }

  /** The entry shows the row's columns; an empty node column counts as node 0. */
  predicate Shows(c: Cpu, row: LscpuRow) {
    && c.id == row.cpu && c.core == row.core && c.socket == row.socket
    && (row.node.Some? ==> c.node == row.node.value) && (row.node.None? ==> c.node == 0)
  }

  /** In the list every entry shows a row of lscpu and every row is shown; no more entries than rows. */
  lemma CpuListShowsRows(rows: seq<LscpuRow>)
    ensures |CpuList(rows)| == |rows|
    ensures forall c :: c in CpuList(rows) ==> exists i :: 0 <= i < |rows| && Shows(c, rows[i])
    ensures forall i :: 0 <= i < |rows| ==> exists c :: c in CpuList(rows) && Shows(c, rows[i])
  {
    var cpus := seq(|rows|, i requires 0 <= i < |rows| => ToCpu(rows[i]));
    var list := CpuList(rows);
    hide CpuList;
    assert |list| == |multiset(list)| == |multiset(cpus)| == |rows|;
    forall c | c in list ensures exists i :: 0 <= i < |rows| && Shows(c, rows[i]) {
      assert c in multiset(cpus);
      var i :| 0 <= i < |rows| && cpus[i] == c;
      assert Shows(c, rows[i]);
    }
    forall i | 0 <= i < |rows| ensures exists c :: c in list && Shows(c, rows[i]) {
      assert cpus[i] in multiset(list);
      assert Shows(cpus[i], rows[i]);
    }
  }

  /** Along the list nodes do not decrease, within a node sockets, within a socket cores, within a core ids. */
  lemma CpuListOrder(rows: seq<LscpuRow>, i: nat, j: nat)
    requires i < j < |CpuList(rows)|
    ensures var a, b := CpuList(rows)[i], CpuList(rows)[j];
            && a.node <= b.node
            && (a.node == b.node ==> a.socket <= b.socket)
            && (a.node == b.node && a.socket == b.socket ==> a.core <= b.core)
            && (a.node == b.node && a.socket == b.socket && a.core == b.core ==> a.id <= b.id)
  {
    assert Precedes(CpuList(rows)[i], CpuList(rows)[j]);
  }

  // ----- Whole nodes, sockets and cores

  datatype Level = Node | Socket | Core

  predicate SameGroup(level: Level, a: Cpu, b: Cpu) {
    && a.node == b.node
    && (level != Node ==> a.socket == b.socket)
    && (level == Core ==> a.core == b.core)
  }

  /** The group of list[i] has a member among the first m and another behind them. */
  ghost predicate PartlyTaken(list: seq<Cpu>, m: nat, level: Level, i: nat) {
    && i < |list|
    && (exists a :: 0 <= a < m && a < |list| && SameGroup(level, list[i], list[a]))
    && (exists b :: m <= b < |list| && SameGroup(level, list[i], list[b]))
  }

  /** Taking the first m leaves at most one node, one socket and one core partly taken. */
  lemma AtMostOneGroupPartlyTaken(list: seq<Cpu>, m: nat, level: Level, i: nat, k: nat)
    requires Sorted(list)
    requires PartlyTaken(list, m, level, i) && PartlyTaken(list, m, level, k)
    ensures SameGroup(level, list[i], list[k])
  {
    var a :| 0 <= a < m && a < |list| && SameGroup(level, list[i], list[a]);
    var b :| m <= b < |list| && SameGroup(level, list[i], list[b]);
    var c :| 0 <= c < m && c < |list| && SameGroup(level, list[k], list[c]);
    var d :| m <= d < |list| && SameGroup(level, list[k], list[d]);
    assert Precedes(list[a], list[d]) && Precedes(list[c], list[b]);
  }

  // ----- How many nodes a choice of CPUs spans

  function Elems(list: seq<Cpu>): set<Cpu> {
    set c | c in list
  }

  function NodesOf(cpus: set<Cpu>): set<nat> {
    set c | c in cpus :: c.node
  }

  function On(cpus: set<Cpu>, nodes: set<nat>): set<Cpu> {
    set c | c in cpus && c.node in nodes
  }

  function NodeSize(cpus: set<Cpu>, node: nat): nat {
    |On(cpus, {node})|
  }

  lemma {:induction false} SubsetSize<T>(a: set<T>, b: set<T>)
    requires a <= b
    ensures |a| <= |b|
    ensures |a| == |b| ==> a == b
    decreases a
  {
    if x :| x in a {
      SubsetSize(a - {x}, b - {x});
    }
  }

  lemma OnInsert(cpus: set<Cpu>, nodes: set<nat>, node: nat)
    requires node !in nodes
    ensures |On(cpus, nodes + {node})| == |On(cpus, nodes)| + NodeSize(cpus, node)
  {
    assert On(cpus, nodes + {node}) == On(cpus, nodes) + On(cpus, {node});
    assert On(cpus, nodes) !! On(cpus, {node});
  }

  lemma {:induction false} ElemsSize(list: seq<Cpu>)
    requires DistinctIds(list)
    ensures |Elems(list)| == |list|
  {
    if list != [] {
      var n := |list| - 1;
      ElemsSize(list[..n]);
      assert Elems(list) == Elems(list[..n]) + {list[n]};
      assert list[n] !in list[..n];
    }
  }

  /** Later nodes are never larger than earlier ones. */
  ghost predicate SizesNonIncreasing(cpus: set<Cpu>) {
    forall a, b :: a in NodesOf(cpus) && b in NodesOf(cpus) && a < b ==> NodeSize(cpus, a) >= NodeSize(cpus, b)
  }

  /** first holds the lowest-numbered nodes of cpus. */
  ghost predicate InitialNodes(cpus: set<Cpu>, first: set<nat>) {
    forall a, b :: a in NodesOf(cpus) && a !in first && b in first ==> b < a
  }

  /** When sizes do not increase, no choice of as many nodes holds more than the first ones. */
  lemma {:induction false} FirstNodesHoldMost(cpus: set<Cpu>, nodes: set<nat>, first: set<nat>)
    requires SizesNonIncreasing(cpus) && InitialNodes(cpus, first)
    requires nodes <= NodesOf(cpus) && first <= NodesOf(cpus) && |nodes| <= |first|
    ensures |On(cpus, nodes)| <= |On(cpus, first)|
    decreases nodes - first
  {
    if nodes <= first {
      SubsetSize(On(cpus, nodes), On(cpus, first));
    } else {
      var a :| a in nodes && a !in first;
      var b := NodeToSwapIn(nodes, first, a);
      SwapNode(cpus, nodes, a, b);
      assert nodes - {a} + {b} - first == nodes - first - {a};
      FirstNodesHoldMost(cpus, nodes - {a} + {b}, first);
    }
  }

  lemma NodeToSwapIn(nodes: set<nat>, first: set<nat>, a: nat) returns (b: nat)
    requires a in nodes && a !in first && |nodes| <= |first|
    ensures b in first && b !in nodes
  {
    if first <= nodes - {a} {
      SubsetSize(first, nodes - {a});
      assert false;
    }
    b :| b in first && b !in nodes - {a};
  }

  lemma SwapNode(cpus: set<Cpu>, nodes: set<nat>, a: nat, b: nat)
    requires a in nodes && b !in nodes
    ensures |On(cpus, nodes - {a} + {b})| == |On(cpus, nodes)| - NodeSize(cpus, a) + NodeSize(cpus, b)
    ensures |nodes - {a} + {b}| == |nodes|
  {
    assert nodes == nodes - {a} + {a};
    OnInsert(cpus, nodes - {a}, a);
    OnInsert(cpus, nodes - {a}, b);
  }

  lemma NodesAscend(list: seq<Cpu>, i: nat, j: nat)
    requires Sorted(list) && i <= j < |list|
    ensures list[i].node <= list[j].node
  {
    assert i < j ==> Precedes(list[i], list[j]);
  }

  /** A node of a prefix other than its last one is lower-numbered than that, and wholly taken. */
  lemma EarlierNodeTaken(list: seq<Cpu>, m: nat, c: Cpu)
    requires Sorted(list) && 0 < m <= |list| && c in Elems(list)
    requires c.node in NodesOf(Elems(list[..m])) && c.node != list[m - 1].node
    ensures c.node < list[m - 1].node && c in Elems(list[..m])
  {
    hide Sorted;
    var i :| 0 <= i < m && list[..m][i].node == c.node;
    NodesAscend(list, i, m - 1);
    var j :| 0 <= j < |list| && list[j] == c;
    if j >= m {
      NodesAscend(list, m - 1, j);
    } else {
      assert list[..m][j] == c;
    }
  }

  /** Every node but the earlier ones of a prefix is numbered no lower than its last one. */
  lemma OtherNodeHigher(list: seq<Cpu>, m: nat, a: nat)
    requires Sorted(list) && 0 < m <= |list| && a in NodesOf(Elems(list))
    requires a in NodesOf(Elems(list[..m])) ==> a == list[m - 1].node
    ensures a >= list[m - 1].node
  {
    hide Sorted;
    var j :| 0 <= j < |list| && list[j].node == a;
    if j < m {
      assert list[..m][j] in Elems(list[..m]);
    } else {
      NodesAscend(list, m - 1, j);
    }
  }

  lemma PrefixNodesAreNodes(list: seq<Cpu>, m: nat)
    requires m <= |list|
    ensures Elems(list[..m]) <= Elems(list) && NodesOf(Elems(list[..m])) <= NodesOf(Elems(list))
  {
    assert Elems(list[..m]) <= Elems(list);
    forall n | n in NodesOf(Elems(list[..m])) ensures n in NodesOf(Elems(list)) {
      var c :| c in Elems(list[..m]) && c.node == n;
    }
  }

  /** The nodes of a non-empty prefix other than its last one are low-numbered and wholly taken. */
  lemma PrefixNodes(list: seq<Cpu>, m: nat, full: set<nat>)
    requires Sorted(list) && DistinctIds(list)
    requires 0 < m <= |list|
    requires full == NodesOf(Elems(list[..m])) - {list[m - 1].node}
    ensures InitialNodes(Elems(list), full) && full <= NodesOf(Elems(list))
    ensures |NodesOf(Elems(list[..m]))| == |full| + 1
    ensures |On(Elems(list), full)| < m <= |On(Elems(list), NodesOf(Elems(list[..m])))|
  {
    var all, taken := Elems(list), Elems(list[..m]);
    var last := list[m - 1];
    ElemsSize(list[..m]);
    PrefixNodesAreNodes(list, m);
    assert last == list[..m][m - 1] && last in taken;
    hide Sorted, DistinctIds, Elems;
    assert NodesOf(taken) == full + {last.node};
    forall a, b | a in NodesOf(all) && a !in full && b in full ensures b < a {
      OtherNodeHigher(list, m, a);
      var c :| c in taken && c.node == b;
      EarlierNodeTaken(list, m, c);
    }
    forall c | c in On(all, full) ensures c in taken - {last} {
      EarlierNodeTaken(list, m, c);
    }
    SubsetSize(On(all, full), taken - {last});
    assert taken <= On(all, NodesOf(taken));
    SubsetSize(taken, On(all, NodesOf(taken)));
  }

  /** No other choice of m CPUs spans fewer nodes than the first m. */
  ghost predicate FewestNodes(list: seq<Cpu>, m: nat)
    requires m <= |list|
  {
    forall other :: other <= Elems(list) && |other| == m ==>
      |NodesOf(Elems(list[..m]))| <= |NodesOf(other)|
  }

  lemma FewestWhenNonIncreasing(list: seq<Cpu>, m: nat, other: set<Cpu>)
    requires Sorted(list) && DistinctIds(list) && SizesNonIncreasing(Elems(list))
    requires m <= |list| && other <= Elems(list) && |other| == m
    ensures |NodesOf(Elems(list[..m]))| <= |NodesOf(other)|
  {
    if m == 0 {
      assert NodesOf(Elems(list[..m])) == {};
    } else {
      var all := Elems(list);
      var full := NodesOf(Elems(list[..m])) - {list[m - 1].node};
      PrefixNodes(list, m, full);
      assert other <= On(all, NodesOf(other));
      SubsetSize(other, On(all, NodesOf(other)));
      if |NodesOf(other)| <= |full| {
        assert NodesOf(other) <= NodesOf(all);
        FirstNodesHoldMost(all, NodesOf(other), full);
        assert false;
      }
    }
  }

  /** Were a later node larger than an earlier one, swapping it in would save a node. */
  lemma NotFewestWhenIncreasing(list: seq<Cpu>, a: nat, b: nat) returns (m: nat)
    requires Sorted(list) && DistinctIds(list)
    requires a in NodesOf(Elems(list)) && b in NodesOf(Elems(list)) && a < b
    requires NodeSize(Elems(list), a) < NodeSize(Elems(list), b)
    ensures m <= |list| && !FewestNodes(list, m)
  {
    var all := Elems(list);
    var below := set n | n in NodesOf(all) && n < b;
    var other := On(all, below - {a} + {b});
    m := |other|;
    SwapNode(all, below, a, b);
    ElemsSize(list);
    SubsetSize(other, all);
    PrefixCoversBelow(list, m, b, below);
    assert NodesOf(other) <= below - {a} + {b};
    SubsetSize(NodesOf(other), below - {a} + {b});
  }

  /** A prefix spans every node below one of its own. */
  lemma LowerNodeTaken(list: seq<Cpu>, m: nat, i: nat, node: nat)
    requires Sorted(list) && i < m <= |list| && node in NodesOf(Elems(list)) && node < list[i].node
    ensures node in NodesOf(Elems(list[..m]))
  {
    hide Sorted;
    var j :| 0 <= j < |list| && list[j].node == node;
    if i <= j {
      NodesAscend(list, i, j);
    } else {
      assert list[..m][j] in Elems(list[..m]);
    }
  }

  /** A prefix too long for some nodes has a CPU of another node. */
  lemma TakenOutside(list: seq<Cpu>, m: nat, nodes: set<nat>) returns (i: nat)
    requires DistinctIds(list) && m <= |list| && |On(Elems(list), nodes)| < m
    ensures i < m && list[i].node !in nodes
  {
    var all, taken := Elems(list), Elems(list[..m]);
    ElemsSize(list[..m]);
    PrefixNodesAreNodes(list, m);
    if taken <= On(all, nodes) {
      SubsetSize(taken, On(all, nodes));
      assert false;
    }
    var c :| c in taken && c !in On(all, nodes);
    i :| 0 <= i < m && list[i] == c;
  }

  /** A prefix too long for the nodes below b spans all of them and one more. */
  lemma PrefixCoversBelow(list: seq<Cpu>, m: nat, b: nat, below: set<nat>)
    requires Sorted(list) && DistinctIds(list) && m <= |list|
    requires forall n :: n in below <==> n in NodesOf(Elems(list)) && n < b
    requires |On(Elems(list), below)| < m
    ensures |NodesOf(Elems(list[..m]))| > |below|
  {
    var i := TakenOutside(list, m, below);
    var node := list[i].node;
    assert list[..m][i] in Elems(list[..m]);
    PrefixNodesAreNodes(list, m);
    hide Sorted, DistinctIds, Elems;
    assert node in NodesOf(Elems(list[..m])) && node >= b;
    forall n | n in below ensures n in NodesOf(Elems(list[..m])) {
      LowerNodeTaken(list, m, i, n);
    }
    SubsetSize(below + {node}, NodesOf(Elems(list[..m])));
  }

  /**
   * The header's "as few nodes as possible" holds for every pool size exactly on the hosts
   * whose node sizes do not increase with the node number.
   */
  lemma FewestNodesExactly(list: seq<Cpu>)
    requires Sorted(list) && DistinctIds(list)
    ensures (forall m: nat :: m <= |list| ==> FewestNodes(list, m)) <==> SizesNonIncreasing(Elems(list))
  {
    if SizesNonIncreasing(Elems(list)) {
      forall m: nat, other | m <= |list| && other <= Elems(list) && |other| == m
        ensures |NodesOf(Elems(list[..m]))| <= |NodesOf(other)|
      {
        FewestWhenNonIncreasing(list, m, other);
      }
    } else {
      var a, b :| a in NodesOf(Elems(list)) && b in NodesOf(Elems(list)) && a < b
        && NodeSize(Elems(list), a) < NodeSize(Elems(list), b);
      var m := NotFewestWhenIncreasing(list, a, b);
    }
  }

  lemma {:induction false} EqualSizesAddUp(cpus: set<Cpu>, nodes: set<nat>, size: nat)
    requires forall n :: n in nodes ==> NodeSize(cpus, n) == size
    ensures |On(cpus, nodes)| == |nodes| * size
    decreases nodes
  {
    if n :| n in nodes {
      EqualSizesAddUp(cpus, nodes - {n}, size);
      OnInsert(cpus, nodes - {n}, n);
      assert nodes - {n} + {n} == nodes;
      assert |nodes| * size == |nodes - {n}| * size + size;
    } else {
      assert On(cpus, nodes) == {};
    }
  }

  /** On a host with equal nodes of `size` CPUs, m CPUs span exactly the ceiling of m / size nodes. */
  lemma EqualNodesSpanCeiling(list: seq<Cpu>, m: nat, size: nat)
    requires Sorted(list) && DistinctIds(list) && m <= |list| && size > 0
    requires forall n :: n in NodesOf(Elems(list)) ==> NodeSize(Elems(list), n) == size
    ensures |NodesOf(Elems(list[..m]))| == (m + size - 1) / size
    ensures FewestNodes(list, m)
  {
    FewestNodesExactly(list);
    assert SizesNonIncreasing(Elems(list));
    if m == 0 {
      assert NodesOf(Elems(list[..m])) == {};
    } else {
      var taken := NodesOf(Elems(list[..m]));
      var full := taken - {list[m - 1].node};
      PrefixNodes(list, m, full);
      PrefixNodesAreNodes(list, m);
      EqualSizesAddUp(Elems(list), full, size);
      EqualSizesAddUp(Elems(list), taken, size);
      CeilingUnique(m, size, |taken|);
    }
  }

  lemma CeilingUnique(m: nat, size: nat, t: nat)
    requires size > 0 && t > 0 && (t - 1) * size < m <= t * size
    ensures t == (m + size - 1) / size
  {
    DivUnique(t, m + size - 1, size);
  }

  // ----- fc_cpu_pool

  ghost predicate StrictlyAscending(s: seq<nat>) {
    forall i, j :: 0 <= i < j < |s| ==> s[i] < s[j]
  }

  function ToSet(s: seq<nat>): set<nat> {
    set x | x in s
  }

  function InsertUnique(x: nat, s: seq<nat>): (r: seq<nat>)
    ensures forall y :: y in r <==> y == x || y in s
    ensures StrictlyAscending(s) ==> StrictlyAscending(r)
  {
    if s == [] then [x]
    else if x < s[0] then [x] + s
    else if x == s[0] then s
    else
      var rest := InsertUnique(x, s[1..]);
      assert s == [s[0]] + s[1..];
      assert StrictlyAscending(s) ==> forall j :: 0 <= j < |rest| ==> s[0] < rest[j] by {
        forall j | StrictlyAscending(s) && 0 <= j < |rest| ensures s[0] < rest[j] {
          assert rest[j] in rest;
        }
      }
      [s[0]] + rest
  }

  /** sort -n -u */
  function SortUnique(s: seq<nat>): (r: seq<nat>)
    ensures StrictlyAscending(r)
    ensures forall x :: x in r <==> x in s
  {
    if s == [] then [] else InsertUnique(s[0], SortUnique(s[1..]))
  }

  function Ids(list: seq<Cpu>): (ids: seq<nat>)
    ensures |ids| == |list| && forall i :: 0 <= i < |ids| ==> ids[i] == list[i].id
  {
    seq(|list|, i requires 0 <= i < |list| => list[i].id)
  }

  function NodeColumn(list: seq<Cpu>): (nodes: seq<nat>)
    ensures |nodes| == |list| && forall i :: 0 <= i < |nodes| ==> nodes[i] == list[i].node
  {
    seq(|list|, i requires 0 <= i < |list| => list[i].node)
  }

  datatype Selection = Selection(cpus: seq<nat>, nodes: seq<nat>)

  /** Reads the list until `want` CPUs are collected; fails when the host has fewer. */
  method TakePool(list: seq<Cpu>, want: int) returns (r: Option<Selection>)
    ensures r.Some? <==> 1 <= want <= |list|
    ensures r.Some? ==> r.value.cpus == Ids(list[..want])
    ensures r.Some? ==> StrictlyAscending(r.value.nodes) && ToSet(r.value.nodes) == NodesOf(Elems(list[..want]))
  {
    if want < 1 {
      return None;
    }
    var n := 0;
    var cpus, nodes := [], [];
    while n < |list|
      invariant 0 <= n <= |list| && n <= want
      invariant cpus == Ids(list[..n]) && nodes == NodeColumn(list[..n])
    {
      if !(n < want) { break; }
      assert list[..n + 1] == list[..n] + [list[n]];
      cpus := cpus + [list[n].id];
      nodes := nodes + [list[n].node];
      n := n + 1;
    }
    if n != want {
      return None;
    }
    assert forall x :: x in nodes <==> x in NodesOf(Elems(list[..want])) by {
      forall i | 0 <= i < want ensures nodes[i] in NodesOf(Elems(list[..want])) {
        assert list[..want][i] in Elems(list[..want]);
      }
    }
    return Some(Selection(cpus, SortUnique(nodes)));
  }
}
