/** Merging the iterations after the warm-up cut: the kept records are tagged in place. */
module Combine {
  import opened Decimal

  /** A result record; the driver updates its fields in place. */
  class RunRecord {
    var fields: map<string, string>

    constructor (fields: map<string, string>)
      ensures this.fields == fields
    {
      this.fields := fields;
    }
  }

  function VmTag(vmId: string, i: nat): string {
    vmId + "[" + Dec(i) + "]"
  }

  function Tagged(fields: map<string, string>, i: nat): map<string, string> {
    var f := fields["iteration" := Dec(i)];
    if "vmID" in f then f["vmID[iteration]" := VmTag(f["vmID"], i)] else f
  }

  /** Tagging adds the iteration, and the VM's tag where the record names one, and keeps every other field. */
  lemma TagAddsOnly(fields: map<string, string>, i: nat, key: string)
    ensures "iteration" in Tagged(fields, i) && AllDigits(Tagged(fields, i)["iteration"])
    ensures Value(Tagged(fields, i)["iteration"]) == i
    ensures "vmID" in fields ==>
              "vmID[iteration]" in Tagged(fields, i)
              && Tagged(fields, i)["vmID[iteration]"] == fields["vmID"] + "[" + Dec(i) + "]"
    ensures key != "iteration" && (key == "vmID[iteration]" ==> "vmID" !in fields) ==>
              (key in Tagged(fields, i) <==> key in fields)
              && (key in fields ==> Tagged(fields, i)[key] == fields[key])
  {
    assert |"iteration"| == 9 && |"vmID"| == 4 && |"vmID[iteration]"| == 15;
    ValueOfDec(i);
  }

  ghost predicate DistinctRecords(records: seq<RunRecord>) {
    forall j, l :: 0 <= j < l < |records| ==> records[j] != records[l]
  }

  ghost predicate Shared(a: seq<RunRecord>, b: seq<RunRecord>) {
    exists r :: r in a && r in b
  }

  /** Every request left its own record. */
  ghost predicate AllDistinct(all: seq<seq<RunRecord>>) {
    && (forall i :: 0 <= i < |all| ==> DistinctRecords(all[i]))
    && (forall i, k :: 0 <= i < k < |all| ==> !Shared(all[i], all[k]))
  }

  /** The records of iterations `from` up to but not including `to`, in order. */
  function Between(all: seq<seq<RunRecord>>, from: nat, to: nat): seq<RunRecord>
    requires to <= |all|
  {
    if to <= from then [] else Between(all, from, to - 1) + all[to - 1]
  }

  /** Iterations come in order and whole: iteration i follows all earlier ones that are kept. */
  lemma {:induction false} BetweenInOrder(all: seq<seq<RunRecord>>, from: nat, i: nat, to: nat)
    requires from <= i < to <= |all|
    ensures Between(all, from, from) == []
    ensures Between(all, from, i) + all[i] <= Between(all, from, to)
    decreases |all|, to
  {
    if i < to - 1 {
      BetweenInOrder(all, from, i, to - 1);
    }
  }

  ghost function Members(all: seq<seq<RunRecord>>): (members: set<RunRecord>)
    ensures forall i, r :: 0 <= i < |all| && r in all[i] ==> r in members
  {
    if all == [] then {} else var last := all[|all| - 1]; Members(all[..|all| - 1]) + set r | r in last
  }

  method TagIteration(records: seq<RunRecord>, i: nat)
    requires DistinctRecords(records)
    modifies records
    ensures forall r :: r in records ==> r.fields == Tagged(old(r.fields), i)
  {
    for j := 0 to |records|
      invariant forall l :: 0 <= l < j ==> records[l].fields == Tagged(old(records[l].fields), i)
      invariant forall l :: j <= l < |records| ==> records[l].fields == old(records[l].fields)
    {
      var run := records[j];
      run.fields := run.fields["iteration" := Dec(i)];
      if "vmID" in run.fields {
        run.fields := run.fields["vmID[iteration]" := run.fields["vmID"] + "[" + Dec(i) + "]"];
      }
    }
  }

  /**
   * The combined list is the iterations from the warm-up on, each record tagged once with its
   * own iteration; records of the warm-up iterations are untouched.
   */
  method CombineIterations(all: seq<seq<RunRecord>>, warmupBuffer: nat) returns (combined: seq<RunRecord>)
    requires AllDistinct(all)
    modifies Members(all)
    ensures combined == Between(all, warmupBuffer, |all|)
    ensures forall i, r :: 0 <= i < |all| && r in all[i] ==>
              r.fields == if i < warmupBuffer then old(r.fields) else Tagged(old(r.fields), i)
  {
    combined := [];
    for i := 0 to |all|
      invariant combined == Between(all, warmupBuffer, i)
      invariant forall k, r :: 0 <= k < |all| && r in all[k] ==>
                  r.fields == if k < warmupBuffer || k >= i then old(r.fields) else Tagged(old(r.fields), k)
    {
      if i < warmupBuffer { continue; }
      assert forall k :: 0 <= k < |all| && k != i ==> !Shared(all[k], all[i]) || !Shared(all[i], all[k]);
      assert forall k, r :: 0 <= k < |all| && k != i && r in all[k] ==> r !in all[i];
      TagIteration(all[i], i);
      combined := combined + all[i];
    }
  }

  /** The tag keeps VMs and iterations apart: both can be read back from it. */
  lemma TagIsInjective(v: string, i: nat, w: string, j: nat)
    requires VmTag(v, i) == VmTag(w, j)
    ensures v == w && i == j
  {
    var s := VmTag(v, i);
    assert s[|v|] == '[' && s[|w|] == '[';
    assert forall k :: |v| < k < |s| - 1 ==> s[k] == Dec(i)[k - |v| - 1];
    assert forall k :: |w| < k < |s| - 1 ==> s[k] == Dec(j)[k - |w| - 1];
    assert |v| == |w|;
    assert s[..|v|] == v && s[..|w|] == w;
    assert s[|v| + 1..|s| - 1] == Dec(i) && s[|w| + 1..|s| - 1] == Dec(j);
    DecInjective(i, j);
  }
}
