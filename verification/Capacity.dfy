/**
 * Sizing a fleet before launch: memory admission, CPU quota and vCPU count, and the
 * OVERSUB pool size. Ratios are exact reals; integers are unbounded.
 */
module Capacity {
  import opened Wrappers
  import opened Arithmetic
  import opened Addressing

  const PERIOD_US: int := 100000
  // Guest MiB per vCPU on AWS Lambda.
  const MIB_PER_VCPU: int := 1769

  datatype Refusal =
    | BadInstanceCount
    | BadMemory
    | NotOneFits
    | TooMany(capacity: int)

  datatype Plan = Plan(quota: int, vcpus: int)

  /** What admission promises: the fleet plus the host's reserve fits into host RAM. */
  predicate Fits(n: int, memMib: int, overhead: int, reserve: int, total: Option<int>) {
    total.Some? && memMib + overhead > 0 && n * (memMib + overhead) + reserve <= total.value
  }

  /** A capacity of c admits exactly the positive fleet sizes that fit. */
  function MemCapacity(memMib: int, total: Option<int>, reserve: int, overhead: int): (c: int)
    ensures c >= 0
    ensures forall n :: n >= 1 ==> (n <= c <==> Fits(n, memMib, overhead, reserve, total))
  {
    if total.None? then 0
    else
      var perVm := memMib + overhead;
      if perVm <= 0 then 0
      else
        var usable := total.value - reserve;
        assert forall n :: n >= 1 ==> (n <= usable / perVm <==> n * perVm <= usable) by {
          forall n | n >= 1 ensures n <= usable / perVm <==> n * perVm <= usable {
            FloorIsLargest(n, usable, perVm);
          }
        }
        if usable <= 0 then
          assert forall n :: n >= 1 ==> n * perVm > usable by {
            forall n | n >= 1 ensures n * perVm > usable { MulMonotone(1, n, perVm); }
          }
          0
        else usable / perVm
  }

  /** In plain numbers: what is admitted is what leaves the reserve free, and nothing on a host of unknown size. */
  lemma CapacityAdmits(n: int, memMib: int, total: int, reserve: int, overhead: int)
    requires n >= 1 && memMib + overhead > 0
    ensures n <= MemCapacity(memMib, Some(total), reserve, overhead) <==> n * memMib + n * overhead + reserve <= total
    ensures MemCapacity(memMib, None, reserve, overhead) == 0
  {
    hide MemCapacity;
    assert 1 <= MemCapacity(memMib, None, reserve, overhead) <==> Fits(1, memMib, overhead, reserve, None);
    PerVmSplits(n, memMib, overhead);
    assert n <= MemCapacity(memMib, Some(total), reserve, overhead) <==> Fits(n, memMib, overhead, reserve, Some(total));
  }

  lemma PerVmSplits(n: int, a: int, b: int)
    ensures n * (a + b) == n * a + n * b
  {
  }

  function Quota(memMib: int): int {
    memMib * PERIOD_US / MIB_PER_VCPU
  }

  function Vcpus(memMib: int, templateVcpus: int): int {
    if memMib > MIB_PER_VCPU then (memMib + (MIB_PER_VCPU - 1)) / MIB_PER_VCPU else templateVcpus
  }

  /** The preflight checks in their order, then the quota and vCPU count of an admitted fleet. */
  method PlanFleet(n: int, memMib: int, templateVcpus: int, total: Option<int>, reserve: int, overhead: int)
    returns (r: Result<Plan, Refusal>)
    ensures r.Ok? <==> 1 <= n <= MAX_INSTANCES && memMib >= 1
                       && Fits(n, memMib, overhead, reserve, total)
    ensures r == Err(BadInstanceCount) <==> !(1 <= n <= MAX_INSTANCES)
    ensures r == Err(BadMemory) <==> 1 <= n <= MAX_INSTANCES && memMib < 1
    ensures r == Err(NotOneFits) <==> 1 <= n <= MAX_INSTANCES && memMib >= 1
                                      && !Fits(1, memMib, overhead, reserve, total)
    ensures r.Err? && r.error.TooMany? ==>
              && Fits(r.error.capacity, memMib, overhead, reserve, total)
              && !Fits(r.error.capacity + 1, memMib, overhead, reserve, total)
              && r.error.capacity < n
    ensures r.Ok? ==> r.value == Plan(Quota(memMib), Vcpus(memMib, templateVcpus))
  {
    if !(n >= 1) || n - 1 >= MAX_INSTANCES {
      return Err(BadInstanceCount);
    }
    if memMib < 1 {
      return Err(BadMemory);
    }
    var capacity := MemCapacity(memMib, total, reserve, overhead);
    assert 1 <= capacity <==> Fits(1, memMib, overhead, reserve, total);
    if capacity < 1 {
      return Err(NotOneFits);
    } else if n > capacity {
      return Err(TooMany(capacity));
    }
    var quota := memMib * PERIOD_US / MIB_PER_VCPU;
    QuotaPositive(memMib);
    if !(quota > 0) {
      quota := 1000;
    }
    var vcpus := templateVcpus;
    if memMib > MIB_PER_VCPU {
      vcpus := (memMib + 1768) / MIB_PER_VCPU;
    }
    return Ok(Plan(quota, vcpus));
  }

  /** The quota is the period's share of the memory per vCPU, in whole microseconds. */
  lemma QuotaIsShare(memMib: int)
    ensures Quota(memMib) * MIB_PER_VCPU <= memMib * PERIOD_US < (Quota(memMib) + 1) * MIB_PER_VCPU
  {
    FloorIsLargest(Quota(memMib), memMib * PERIOD_US, MIB_PER_VCPU);
    FloorIsLargest(Quota(memMib) + 1, memMib * PERIOD_US, MIB_PER_VCPU);
  }

  /** The fallback quota of 1000 us is never reached: one MiB already earns 56 us. */
  lemma QuotaPositive(memMib: int)
    requires memMib >= 1
    ensures Quota(memMib) >= 56
  {
    MulMonotone(1, memMib, PERIOD_US);
    FloorIsLargest(56, memMib * PERIOD_US, MIB_PER_VCPU);
  }

  /** A guest above one vCPU's memory gets the least vCPU count that covers it, others the template's. */
  lemma VcpusCoverMemory(memMib: int, templateVcpus: int)
    ensures var v := Vcpus(memMib, templateVcpus);
            if memMib > MIB_PER_VCPU then (v - 1) * MIB_PER_VCPU < memMib <= v * MIB_PER_VCPU else v == templateVcpus
  {
  }

  /**
   * The quota never exceeds what the guest's vCPUs can use, and above one vCPU's memory it
   * needs the last of them.
   */
  lemma QuotaMatchesVcpus(memMib: int, templateVcpus: int)
    requires memMib >= 1 && templateVcpus >= 1
    ensures Quota(memMib) <= Vcpus(memMib, templateVcpus) * PERIOD_US
    ensures memMib > MIB_PER_VCPU ==> Quota(memMib) > (Vcpus(memMib, templateVcpus) - 1) * PERIOD_US
  {
    var v := Vcpus(memMib, templateVcpus);
    if memMib > MIB_PER_VCPU {
      VcpusCoverMemory(memMib, templateVcpus);
      FloorIsLargest((v - 1) * PERIOD_US + 1, memMib * PERIOD_US, MIB_PER_VCPU);
    } else {
      MulMonotone(1, v, PERIOD_US);
    }
  }

  /** A pool of this many CPUs, oversubscribed by ratio, carries the requested vCPUs. */
  predicate Carries(cpus: int, ratio: real, requested: int) {
    cpus as real * ratio >= requested as real
  }

  /** The least positive number of CPUs that carries the request. */
  function OversubPool(requested: int, ratio: real): (c: int)
    requires ratio > 0.0
    ensures c >= 1 && Carries(c, ratio, requested)
    ensures forall d :: d >= 1 && Carries(d, ratio, requested) ==> c <= d
  {
    var exact := requested as real / ratio;
    var floor := exact.Floor;
    var c := if floor as real < exact then floor + 1 else floor;
    assert exact * ratio == requested as real;
    assert forall d :: Carries(d, ratio, requested) <==> d as real >= exact by {
      forall d ensures Carries(d, ratio, requested) <==> d as real >= exact {
        RealMul(d as real, exact, ratio);
      }
    }
    if c < 1 then 1 else c
  }

  /** In plain numbers: one CPU less would not carry the request, unless it is the only one. */
  lemma OversubLeast(requested: int, ratio: real)
    requires ratio > 0.0
    ensures var c := OversubPool(requested, ratio);
            c >= 1 && c as real * ratio >= requested as real
            && (c == 1 || (c - 1) as real * ratio < requested as real)
  {
    var c := OversubPool(requested, ratio);
    if c > 1 {
      assert !Carries(c - 1, ratio, requested);
    }
  }

  lemma RealMul(x: real, y: real, ratio: real)
    requires ratio > 0.0
    ensures x * ratio >= y * ratio <==> x >= y
  {
  }

  /** Metered demand over an OVERSUB pool never exceeds the requested ratio. */
  lemma MeteredDemandWithinRatio(n: int, memMib: int, templateVcpus: int, ratio: real)
    requires n >= 1 && memMib >= 1 && templateVcpus >= 1 && ratio > 0.0
    ensures var pool := OversubPool(n * Vcpus(memMib, templateVcpus), ratio);
            n as real * Quota(memMib) as real / PERIOD_US as real <= ratio * pool as real
  {
    var v := Vcpus(memMib, templateVcpus);
    QuotaMatchesVcpus(memMib, templateVcpus);
    var pool := OversubPool(n * v, ratio);
    hide *;
    DemandInPeriods(n, Quota(memMib), v, ratio * pool as real);
  }

  lemma DemandInPeriods(n: int, quota: int, vcpus: int, covered: real)
    requires n >= 1 && quota <= vcpus * PERIOD_US && (n * vcpus) as real <= covered
    ensures n as real * quota as real / PERIOD_US as real <= covered
  {
    MulMonotone(quota, vcpus * PERIOD_US, n);
    assert quota * n <= (n * vcpus) * PERIOD_US;
    assert n as real * quota as real == (quota * n) as real;
    assert ((n * vcpus) * PERIOD_US) as real == (n * vcpus) as real * PERIOD_US as real;
  }
}
