/** Cpuset list text, and the complement of the pool the load generator is pinned to. */
module CpuSet {
  import opened Decimal
  import opened Text
  import opened CpuPool

  // ----- The list format of cpuset(7): decimal numbers and ranges, separated by commas

  datatype Item = Single(cpu: nat) | Range(lo: nat, hi: nat)

  function RenderItem(item: Item): string {
    match item
    case Single(n) => Dec(n)
    case Range(lo, hi) => Dec(lo) + "-" + Dec(hi)
  }

  function Render(items: seq<Item>): string {
    Join(seq(|items|, i requires 0 <= i < |items| => RenderItem(items[i])), ',')
  }

  function CommaList(ids: seq<nat>): string {
    Join(Lines(ids), ',')
  }

  /** One numeral per line. */
  function Lines(ids: seq<nat>): (lines: seq<string>)
    ensures |lines| == |ids| && forall i :: 0 <= i < |ids| ==> lines[i] == Dec(ids[i])
  {
    seq(|ids|, i requires 0 <= i < |ids| => Dec(ids[i]))
  }

  /** lo, lo + 1, ..., hi; empty when hi < lo. */
  function Interval(lo: nat, hi: nat): (ids: seq<nat>)
    ensures |ids| == if lo <= hi then hi - lo + 1 else 0
    ensures forall i :: 0 <= i < |ids| ==> ids[i] == lo + i
  {
    seq(if lo <= hi then hi - lo + 1 else 0, i requires 0 <= i => lo + i)
  }

  /** What the list format means, read off the items. */
  function Members(items: seq<Item>): seq<nat> {
    if items == [] then []
    else (match items[0] case Single(n) => [n] case Range(lo, hi) => Interval(lo, hi)) + Members(items[1..])
  }

  function TotalWidth(items: seq<Item>): nat {
    if items == [] then 0
    else (match items[0] case Single(n) => 1 case Range(lo, hi) => if lo <= hi then hi - lo + 1 else 0)
         + TotalWidth(items[1..])
  }

  // ----- fc_cpu_expand

  /** ${s%%c*} */
  function BeforeFirst(s: string, c: char): string {
    if s == "" || s[0] == c then "" else [s[0]] + BeforeFirst(s[1..], c)
  }

  /** ${s##*c} */
  function AfterLast(s: string, c: char): string {
    if c !in s then s else AfterLast(s[1..], c)
  }

  /** A field the shell's arithmetic reads as a decimal range, or one without a dash. */
  predicate ReadableField(part: string) {
    '-' in part ==> IsNumeral(BeforeFirst(part, '-')) && IsNumeral(AfterLast(part, '-'))
  }

  ghost predicate Readable(parts: seq<string>) {
    forall i :: 0 <= i < |parts| ==> ReadableField(parts[i])
  }

  function ExpandField(part: string): seq<string>
    requires ReadableField(part)
  {
    if '-' in part then Lines(Interval(Value(BeforeFirst(part, '-')), Value(AfterLast(part, '-'))))
    else if part != "" then [part]
    else []
  }

  function ExpandFields(parts: seq<string>): seq<string>
    requires Readable(parts)
  {
    if parts == [] then [] else ExpandFields(parts[..|parts| - 1]) + ExpandField(parts[|parts| - 1])
  }

  lemma ExpandSoFar(parts: seq<string>, p: nat)
    requires Readable(parts) && p < |parts|
    ensures ExpandFields([]) == [] && ReadableField(parts[p])
    ensures ExpandFields(parts[..p + 1]) == ExpandFields(parts[..p]) + ExpandField(parts[p])
  {
    hide ExpandField, ReadableField;
    assert parts[..p + 1][..p] == parts[..p];
  }

  /** for (( c = lo; c <= hi; c++ )); do echo "$c"; done */
  method ExpandRange(lo: nat, hi: nat) returns (out: seq<string>)
    ensures out == Lines(Interval(lo, hi))
  {
    hide Dec;
    out := [];
    var c := lo;
    while c <= hi
      invariant lo <= c && (lo <= hi ==> c <= hi + 1) && (lo > hi ==> c == lo)
      invariant out == Lines(Interval(lo, hi))[..c - lo]
    {
      out := out + [Dec(c)];
      c := c + 1;
    }
  }

  /** The expansion of a cpuset list, line by line as the shell prints it. */
  method Expand(list: string) returns (out: seq<string>)
    requires Readable(Split(list, ','))
    ensures out == ExpandFields(Split(list, ','))
  {
    hide Split, Value, BeforeFirst, AfterLast, ExpandFields, Lines, Interval;
    var parts := Split(list, ',');
    out := [];
    assert parts[..0] == [] && parts[..|parts|] == parts;
    ExpandSoFar(parts, 0);
    for p := 0 to |parts|
      invariant out == ExpandFields(parts[..p])
    {
      var part := parts[p];
      ExpandSoFar(parts, p);
      if '-' in part {
        var range := ExpandRange(Value(BeforeFirst(part, '-')), Value(AfterLast(part, '-')));
        out := out + range;
      } else if part != "" {
        out := out + [part];
      }
    }
  }

  lemma {:induction false} DashField(a: string, b: string)
    requires AllDigits(a) && AllDigits(b)
    ensures BeforeFirst(a + "-" + b, '-') == a && AfterLast(a + "-" + b, '-') == b
  {
    var s := a + "-" + b;
    if a == "" {
      assert s[1..] == b;
      assert '-' !in b;
    } else {
      DashField(a[1..], b);
      assert s[1..] == a[1..] + "-" + b;
      assert s[|a|] == '-';
    }
  }

  lemma ExpandItem(item: Item)
    ensures ReadableField(RenderItem(item)) && ',' !in RenderItem(item)
    ensures ExpandField(RenderItem(item)) == Lines(Members([item]))
  {
    assert [item][1..] == [];
    match item
    case Single(n) =>
      assert '-' !in Dec(n);
    case Range(lo, hi) =>
      DashField(Dec(lo), Dec(hi));
      assert RenderItem(item)[|Dec(lo)|] == '-';
      ValueOfDec(lo);
      ValueOfDec(hi);
  }

  lemma {:induction false} MembersAppend(items: seq<Item>, last: Item)
    ensures Members(items + [last]) == Members(items) + Members([last])
  {
    assert [last][1..] == [];
    if items == [] {
      assert items + [last] == [last];
    } else {
      MembersAppend(items[1..], last);
      assert (items + [last])[1..] == items[1..] + [last];
    }
  }

  lemma LinesAppend(a: seq<nat>, b: seq<nat>)
    ensures Lines(a + b) == Lines(a) + Lines(b)
  {
  }

  function RenderFields(items: seq<Item>): (fields: seq<string>)
    ensures |fields| == |items| && forall i :: 0 <= i < |items| ==> fields[i] == RenderItem(items[i])
  {
    seq(|items|, i requires 0 <= i < |items| => RenderItem(items[i]))
  }

  lemma {:induction false} ExpandRendered(items: seq<Item>)
    ensures Readable(RenderFields(items))
    ensures ExpandFields(RenderFields(items)) == Lines(Members(items))
  {
    hide ReadableField, ExpandField, RenderItem, Members;
    forall i | 0 <= i < |items| ensures ReadableField(RenderFields(items)[i]) {
      ExpandItem(items[i]);
    }
    if items == [] {
      NoMembers();
    } else {
      var n := |items| - 1;
      ExpandRendered(items[..n]);
      ExpandItem(items[n]);
      assert items == items[..n] + [items[n]];
      MembersAppend(items[..n], items[n]);
      LinesAppend(Members(items[..n]), Members([items[n]]));
      assert RenderFields(items)[..n] == RenderFields(items[..n]);
    }
  }

  lemma NoMembers()
    ensures Members([]) == []
  {
  }

  /**
   * Expanding a well-formed list gives exactly the CPUs of its singles and ranges, in order;
   * fc_cpu_count is therefore the sum of their widths.
   */
  lemma ExpandInvertsRender(items: seq<Item>)
    ensures Readable(Split(Render(items), ','))
    ensures ExpandFields(Split(Render(items), ',')) == Lines(Members(items))
    ensures |ExpandFields(Split(Render(items), ','))| == TotalWidth(items)
  {
    assert Render(items) == Join(RenderFields(items), ',');
    MembersWidth(items);
    if items == [] {
      assert Split("", ',') == [""];
      assert [""][..0] == [];
    } else {
      forall i | 0 <= i < |items| ensures ',' !in RenderFields(items)[i] {
        ExpandItem(items[i]);
      }
      SplitJoin(RenderFields(items), ',');
      ExpandRendered(items);
    }
  }

  lemma {:induction false} MembersWidth(items: seq<Item>)
    ensures |Members(items)| == TotalWidth(items)
  {
    if items != [] {
      MembersWidth(items[1..]);
    }
  }

  function Singles(ids: seq<nat>): (items: seq<Item>)
    ensures |items| == |ids| && forall i :: 0 <= i < |ids| ==> items[i] == Single(ids[i])
  {
    seq(|ids|, i requires 0 <= i < |ids| => Single(ids[i]))
  }

  lemma {:induction false} MembersOfSingles(ids: seq<nat>)
    ensures Members(Singles(ids)) == ids
  {
    if ids != [] {
      MembersOfSingles(ids[1..]);
      assert Singles(ids)[1..] == Singles(ids[1..]);
    }
  }

  /** Expanding the comma list fc_cpu_pool prints gives back the selected CPUs in order. */
  lemma ExpandInvertsCommaList(ids: seq<nat>)
    ensures Readable(Split(CommaList(ids), ','))
    ensures ExpandFields(Split(CommaList(ids), ',')) == Lines(ids)
  {
    MembersOfSingles(ids);
    ExpandInvertsRender(Singles(ids));
    assert RenderFields(Singles(ids)) == Lines(ids);
    assert Render(Singles(ids)) == Join(RenderFields(Singles(ids)), ',');
  }

  // ----- Membership by substring

  /** [[ " ${lines[*]} " == *" $c "* ]] is membership of c, for lists of numerals. */
  lemma SearchIsMembership(ids: seq<nat>, c: nat)
    ensures Search(Padded(Lines(ids)), " " + Dec(c) + " ") <==> c in ids
  {
    PaddedSearchIsMembership(Lines(ids), Dec(c));
    if Dec(c) in Lines(ids) {
      var i :| 0 <= i < |ids| && Lines(ids)[i] == Dec(c);
      DecInjective(ids[i], c);
    }
    assert forall i :: 0 <= i < |ids| ==> Lines(ids)[i] in Lines(ids);
  }

  lemma {:induction false} AscendingUnique(s: seq<nat>, t: seq<nat>)
    requires StrictlyAscending(s) && StrictlyAscending(t)
    requires forall x: nat :: x in s <==> x in t
    ensures s == t
  {
    assert forall i :: 0 <= i < |s| ==> s[i] in t;
    assert forall i :: 0 <= i < |t| ==> t[i] in s;
    if s != [] && t != [] {
      assert s[0] == t[0];
      forall x: nat ensures x in s[1..] <==> x in t[1..] {
        assert x in s <==> x == s[0] || x in s[1..];
        assert x in t <==> x == t[0] || x in t[1..];
      }
      AscendingUnique(s[1..], t[1..]);
    }
  }

  // ----- fc_cpu_nodes

  function NodesHolding(list: seq<Cpu>, selected: seq<nat>): set<nat> {
    set c | c in list && c.id in selected :: c.node
  }

  lemma NodesHoldingGrows(list: seq<Cpu>, i: nat, selected: seq<nat>)
    requires i < |list|
    ensures NodesHolding(list[..i + 1], selected)
            == NodesHolding(list[..i], selected) + if list[i].id in selected then {list[i].node} else {}
  {
    assert list[..i + 1] == list[..i] + [list[i]];
  }

  lemma NoNodesHolding(selected: seq<nat>)
    ensures NodesHolding([], selected) == {}
  {
  }

  lemma ToSetAppend(s: seq<nat>, x: nat)
    ensures ToSet([]) == {} && ToSet(s + [x]) == ToSet(s) + {x}
  {
  }

  lemma SortKeepsSet(s: seq<nat>)
    ensures ToSet(SortUnique(s)) == ToSet(s)
  {
  }

  /** The nodes of the CPUs a list names; `selected` are the CPUs its text expands to. */
  method CpuNodes(list: seq<Cpu>, text: string, ghost selected: seq<nat>) returns (nodes: seq<nat>)
    requires Readable(Split(text, ',')) && ExpandFields(Split(text, ',')) == Lines(selected)
    ensures StrictlyAscending(nodes)
    ensures ToSet(nodes) == NodesHolding(list, selected)
  {
    hide *;
    var sel := Expand(text);
    var column := [];
    assert list[..0] == [] && list[..|list|] == list;
    NoNodesHolding(selected);
    ToSetAppend(column, 0);
    for i := 0 to |list|
      invariant ToSet(column) == NodesHolding(list[..i], selected)
    {
      SearchIsMembership(selected, list[i].id);
      NodesHoldingGrows(list, i, selected);
      if Search(Padded(sel), " " + Dec(list[i].id) + " ") {
        ToSetAppend(column, list[i].node);
        column := column + [list[i].node];
      }
    }
    SortKeepsSet(column);
    nodes := SortUnique(column);
  }

  /**
   * A pool given as a count and the same pool given as its printed list bind memory to the
   * same nodes: fc_cpu_nodes on fc_cpu_pool's CPU list agrees with fc_cpu_pool's node list.
   */
  lemma CountAndListAgreeOnNodes(list: seq<Cpu>, m: nat, fromCount: seq<nat>, fromList: seq<nat>)
    requires DistinctIds(list) && m <= |list|
    requires StrictlyAscending(fromCount) && ToSet(fromCount) == NodesOf(Elems(list[..m]))
    requires StrictlyAscending(fromList) && ToSet(fromList) == NodesHolding(list, Ids(list[..m]))
    ensures fromCount == fromList
  {
    forall n: nat ensures n in NodesOf(Elems(list[..m])) <==> n in NodesHolding(list, Ids(list[..m])) {
      if c :| c in Elems(list[..m]) && c.node == n {
        var i :| 0 <= i < m && list[i] == c;
        assert Ids(list[..m])[i] == c.id && c in list;
      }
      if c :| c in list && c.id in Ids(list[..m]) && c.node == n {
        var j :| 0 <= j < |list| && list[j] == c;
        var i :| 0 <= i < m && Ids(list[..m])[i] == c.id;
        assert i == j && list[..m][i] in Elems(list[..m]);
      }
    }
    assert NodesOf(Elems(list[..m])) == NodesHolding(list, Ids(list[..m]));
    forall x: nat ensures x in fromCount <==> x in fromList {
      assert x in fromCount <==> x in ToSet(fromCount);
      assert x in fromList <==> x in ToSet(fromList);
    }
    AscendingUnique(fromCount, fromList);
  }

  // ----- fc_reserved_cpus and fc_free_cpus

  /** Every pool CPU's hyperthread siblings, as the kernel lists them per CPU. */
  ghost function ReservedSet(pool: seq<Item>, siblings: nat -> seq<Item>): set<nat> {
    set c, d | c in Members(pool) && d in Members(siblings(c)) :: d
  }

  /** The members of a set in ascending order. */
  ghost function Ascending(s: set<nat>): (ids: seq<nat>)
    ensures StrictlyAscending(ids) && forall x :: x in ids <==> x in s
    decreases s
  {
    if s == {} then [] else var x :| x in s; InsertUnique(x, Ascending(s - {x}))
  }

  /** Reads cpuset.cpus and each CPU's thread_siblings_list, then sorts numerically without duplicates. */
  method ReservedCpus(pool: seq<Item>, siblings: nat -> seq<Item>) returns (reserved: seq<string>)
    ensures reserved == Lines(Ascending(ReservedSet(pool, siblings)))
  {
    hide Render, Members, ExpandFields, Readable, Split;
    ExpandInvertsRender(pool);
    var cpus := Expand(Render(pool));
    var found: seq<nat> := [];
    for i := 0 to |cpus|
      invariant found == SiblingsOf(Members(pool)[..i], siblings)
    {
      ValueOfDec(Members(pool)[i]);
      var c := Value(cpus[i]);
      ExpandInvertsRender(siblings(c));
      var lines := Expand(Render(siblings(c)));
      var numbers := Numbers(lines, Members(siblings(c)));
      found := found + numbers;
      assert Members(pool)[..i + 1][..i] == Members(pool)[..i];
    }
    assert Members(pool)[..|cpus|] == Members(pool);
    InSiblingsOf(Members(pool), siblings);
    var sorted := SortUnique(found);
    AscendingUnique(sorted, Ascending(ReservedSet(pool, siblings)));
    reserved := Lines(sorted);
  }

  /** The numeric keys sort -n reads from the lines. */
  method Numbers(lines: seq<string>, ghost ids: seq<nat>) returns (numbers: seq<nat>)
    requires lines == Lines(ids)
    ensures numbers == ids
  {
    numbers := [];
    for l := 0 to |lines|
      invariant numbers == ids[..l]
    {
      ValueOfDec(ids[l]);
      numbers := numbers + [Value(lines[l])];
    }
  }

  ghost function SiblingsOf(cpus: seq<nat>, siblings: nat -> seq<Item>): seq<nat> {
    if cpus == [] then []
    else SiblingsOf(cpus[..|cpus| - 1], siblings) + Members(siblings(cpus[|cpus| - 1]))
  }

  lemma {:induction false} InSiblingsOf(cpus: seq<nat>, siblings: nat -> seq<Item>)
    ensures forall d: nat :: d in SiblingsOf(cpus, siblings) <==> exists c :: c in cpus && d in Members(siblings(c))
  {
    if cpus != [] {
      var n := |cpus| - 1;
      InSiblingsOf(cpus[..n], siblings);
      assert forall c :: c in cpus <==> c in cpus[..n] || c == cpus[n];
    }
  }

  /** The CPUs below n outside `taken`, ascending. */
  ghost function FreeIds(n: nat, taken: set<nat>): (ids: seq<nat>)
    ensures StrictlyAscending(ids)
    ensures forall c: nat :: c in ids <==> c < n && c !in taken
  {
    if n == 0 then []
    else
      var rest := FreeIds(n - 1, taken);
      assert forall i :: 0 <= i < |rest| ==> rest[i] in rest;
      if n - 1 in taken then rest else rest + [n - 1]
  }

  lemma {:induction false} JoinAppend(words: seq<string>, last: string, sep: char)
    requires words != []
    ensures Join(words + [last], sep) == Join(words, sep) + [sep] + last
  {
    var all := words + [last];
    if |words| == 1 {
      assert all[1..] == [last];
    } else {
      JoinAppend(words[1..], last, sep);
      assert all[1..] == words[1..] + [last];
    }
  }

  lemma CommaListAppend(ids: seq<nat>, c: nat)
    ensures CommaList(ids + [c]) == if CommaList(ids) == "" then Dec(c) else CommaList(ids) + "," + Dec(c)
  {
    assert Lines(ids + [c]) == Lines(ids) + [Dec(c)];
    if ids != [] {
      JoinAppend(Lines(ids), Dec(c), ',');
      assert Lines(ids)[0] != "";
    }
  }

  /** The reserved lines are none exactly when nothing is reserved, and are searched as a set. */
  lemma SearchAscending(taken: set<nat>, c: nat)
    ensures |Ascending(taken)| == 0 <==> taken == {}
    ensures Search(Padded(Lines(Ascending(taken))), " " + Dec(c) + " ") <==> c in taken
  {
    var ids := Ascending(taken);
    SearchIsMembership(ids, c);
    if ids == [] {
      assert forall x :: x in taken ==> x in ids;
    } else {
      assert ids[0] in taken;
    }
  }

  /** How the printed list grows by one CPU. */
  lemma FreeListGrows(taken: set<nat>, c: nat)
    ensures CommaList(FreeIds(0, taken)) == ""
    ensures var before := CommaList(FreeIds(c, taken));
            CommaList(FreeIds(c + 1, taken))
            == if c in taken then before else (if before == "" then "" else before + ",") + Dec(c)
  {
    CommaListAppend(FreeIds(c, taken), c);
  }

  /** The complement of the reserved CPUs as a comma list; empty when nothing is reserved. */
  method FreeCpus(pool: seq<Item>, siblings: nat -> seq<Item>, cpuCount: nat) returns (out: string)
    ensures ReservedSet(pool, siblings) == {} ==> out == ""
    ensures ReservedSet(pool, siblings) != {} ==> out == CommaList(FreeIds(cpuCount, ReservedSet(pool, siblings)))
  {
    hide *;
    out := "";
    ghost var taken := ReservedSet(pool, siblings);
    var reserved := ReservedCpus(pool, siblings);
    SearchAscending(taken, 0);
    if |reserved| == 0 {
      return;
    }
    FreeListGrows(taken, 0);
    for c := 0 to cpuCount
      invariant out == CommaList(FreeIds(c, taken))
    {
      SearchAscending(taken, c);
      FreeListGrows(taken, c);
      if !Search(Padded(reserved), " " + Dec(c) + " ") {
        out := (if out == "" then "" else out + ",") + Dec(c);
      }
    }
  }

  /**
   * With a symmetric sibling relation the load generator never shares a core with the pool:
   * no free CPU is a sibling of a pool CPU, in either direction. When every CPU is its own
   * sibling, as the kernel reports, it is no pool CPU either.
   */
  lemma FreeCpusShareNoCore(pool: seq<Item>, siblings: nat -> seq<Item>, cpuCount: nat, free: nat, busy: nat)
    requires forall c, d :: d in Members(siblings(c)) <==> c in Members(siblings(d))
    requires free in FreeIds(cpuCount, ReservedSet(pool, siblings)) && busy in Members(pool)
    ensures free !in Members(siblings(busy)) && busy !in Members(siblings(free))
    ensures busy in Members(siblings(busy)) ==> free != busy
  {
    assert forall d :: d in Members(siblings(busy)) ==> d in ReservedSet(pool, siblings);
  }

  /** A CPU is free exactly when the host has it and it is no sibling of any pool CPU. */
  lemma FreeExactly(pool: seq<Item>, siblings: nat -> seq<Item>, cpuCount: nat, c: nat)
    ensures c in FreeIds(cpuCount, ReservedSet(pool, siblings))
            <==> c < cpuCount && forall busy :: busy in Members(pool) ==> c !in Members(siblings(busy))
  {
  }

  /** The list handed to the load generator expands to the free CPUs again. */
  lemma FreeTextExpands(cpuCount: nat, taken: set<nat>)
    ensures var text := CommaList(FreeIds(cpuCount, taken));
            Readable(Split(text, ',')) && ExpandFields(Split(text, ',')) == Lines(FreeIds(cpuCount, taken))
  {
    ExpandInvertsCommaList(FreeIds(cpuCount, taken));
  }
}
