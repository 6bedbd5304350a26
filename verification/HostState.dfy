/**
 * The host-side state of a fleet and the scripts that create and remove it. VM processes act
 * on their own between any two commands of a script; kill -9 and the recording of a forked
 * process are single steps, and process ids are not reused.
 */
module HostState {
  import opened Wrappers
  import opened Addressing
  import opened Text

  /** A tap device: the addresses it was given, and whether it is up. */
  datatype Tap = Tap(addresses: seq<string>, up: bool)

  /** A scratch drive: freshly formatted, allocated but not formatted, or written to by some earlier guest. */
  datatype Image = Blank(mib: nat) | Raw(mib: nat) | Used

  /**
   * A forked VM process: its instance and quota, whether it joined its cgroup leaf, whether its
   * shell was replaced by Firecracker, and whether that serves its socket.
   */
  datatype Vm = Vm(instance: nat, quota: string, enrolled: bool, execed: bool, running: bool)

  function Ids(n: nat): (ids: set<nat>)
    ensures forall k: nat :: k in ids <==> k < n
  {
    if n == 0 then {} else Ids(n - 1) + {n - 1}
  }

  function FreshTap(k: nat): Tap {
    Tap([HostIp(k) + "/30"], true)
  }

  /** A fresh tap is up and carries the host address of its instance, with the prefix of a /30. */
  lemma FreshTapAddress(k: nat)
    requires k < MAX_INSTANCES
    ensures var tap := FreshTap(k);
            && tap.up && |tap.addresses| == 1 && |Split(tap.addresses[0], '/')| == 2
            && ReadIpv4(Split(tap.addresses[0], '/')[0]) == NET_BASE + BLOCK_SIZE * k + 1
            && Split(tap.addresses[0], '/')[1] == "30"
  {
    hide ReadIpv4, Split;
    PrintedAddresses(k);
    HostIpHasNoSlash(k);
    SplitWhole("30", '/');
    SplitFirst(HostIp(k), '/', "30");
    assert HostIp(k) + ['/'] + "30" == HostIp(k) + "/30";
  }

  lemma HostIpHasNoSlash(k: nat)
    ensures '/' !in HostIp(k)
  {
    assert '/' !in "172.16." && '/' !in ".";
  }

  /** The devices after setting up the first n: those are new, the others as they were. */
  function WithTaps(taps: map<nat, Tap>, n: nat): map<nat, Tap> {
    map k | k in taps.Keys + Ids(n) :: if k < n then FreshTap(k) else taps[k]
  }

  lemma WithTapsStep(taps: map<nat, Tap>, k: nat)
    ensures WithTaps(taps, k + 1) == WithTaps(taps, k)[k := FreshTap(k)]
  {
    hide FreshTap;
  }

  lemma NoFreshTaps(taps: map<nat, Tap>)
    ensures WithTaps(taps, 0) == taps
  {
    hide FreshTap;
  }

  function BlankScratch(n: nat, mib: nat): map<nat, Image> {
    map k | k in Ids(n) :: Blank(mib)
  }

  // ----- Where the launch preamble ends

  /** What may fail between the taps and the registration of the trap; Ratio is any check before the pool. */
  datatype Command = Ratio | SetPool | Truncate(k: nat) | Format(k: nat) | Configure(k: nat)

  datatype PreambleEnd = RatioRejected | PoolRefused | DriveFailed(failed: Command) | Completed

  predicate DriveOk(fails: Command -> bool, k: nat) {
    !fails(Truncate(k)) && !fails(Format(k)) && !fails(Configure(k))
  }

  /** The first command that fails for drive k. */
  function DriveFailure(fails: Command -> bool, k: nat): (failed: Option<Command>)
    ensures failed.None? <==> DriveOk(fails, k)
    ensures failed.Some? ==>
              fails(failed.value) && failed.value in {Truncate(k), Format(k), Configure(k)}
  {
    if fails(Truncate(k)) then Some(Truncate(k))
    else if fails(Format(k)) then Some(Format(k))
    else if fails(Configure(k)) then Some(Configure(k))
    else None
  }

  /** How the drive loop ends. */
  function DrivesEnd(n: nat, fails: Command -> bool): (end: PreambleEnd)
    ensures end.Completed? || end.DriveFailed?
  {
    if n == 0 then Completed
    else
      var end, failed := DrivesEnd(n - 1, fails), DriveFailure(fails, n - 1);
      if end != Completed then end else if failed.Some? then DriveFailed(failed.value) else Completed
  }

  /** It completes when no command fails, and else ends at the first that does. */
  lemma {:induction false} DrivesEndExactly(n: nat, fails: Command -> bool)
    ensures DrivesEnd(n, fails) == Completed <==> forall k: nat :: k < n ==> DriveOk(fails, k)
    ensures var end := DrivesEnd(n, fails);
            end != Completed ==>
              && end.DriveFailed? && (end.failed.Truncate? || end.failed.Format? || end.failed.Configure?)
              && end.failed.k < n && Some(end.failed) == DriveFailure(fails, end.failed.k)
              && forall j: nat :: j < end.failed.k ==> DriveOk(fails, j)
  {
    if n > 0 {
      DrivesEndExactly(n - 1, fails);
    }
  }

  /** usable: the cgroup was set up and shows cpuset.cpus. */
  function EndOf(n: nat, request: Option<string>, usable: bool, fails: Command -> bool): PreambleEnd {
    if fails(Ratio) then RatioRejected
    else if request.Some? && usable && fails(SetPool) then PoolRefused
    else DrivesEnd(n, fails)
  }

  lemma EndOfExactly(n: nat, request: Option<string>, usable: bool, fails: Command -> bool)
    ensures EndOf(n, request, usable, fails) == RatioRejected <==> fails(Ratio)
    ensures EndOf(n, request, usable, fails) == PoolRefused
            <==> !fails(Ratio) && request.Some? && usable && fails(SetPool)
    ensures EndOf(n, request, usable, fails) == Completed
            <==> !fails(Ratio) && (request.Some? && usable ==> !fails(SetPool))
                 && forall k: nat :: k < n ==> DriveOk(fails, k)
  {
    DrivesEndExactly(n, fails);
  }

  /** The drives there are when the preamble ends. */
  function DrivesAt(end: PreambleEnd, n: nat, mib: nat): map<nat, Image> {
    match end
    case Completed => BlankScratch(n, mib)
    case DriveFailed(Format(k)) => BlankScratch(k, mib)[k := Raw(mib)]
    case DriveFailed(Configure(k)) => BlankScratch(k, mib)[k := Blank(mib)]
    case DriveFailed(Truncate(k)) => BlankScratch(k, mib)
    case _ => map[]
  }

  function ConfigsAt(end: PreambleEnd, n: nat): set<nat> {
    match end
    case Completed => Ids(n)
    case DriveFailed(Truncate(k)) => Ids(k)
    case DriveFailed(Format(k)) => Ids(k)
    case DriveFailed(Configure(k)) => Ids(k)
    case _ => {}
  }

  /** The pool setting when the preamble ends. */
  function PoolAt(end: PreambleEnd, usable: bool, request: Option<string>, stale: string): string {
    if end == RatioRejected || !usable then stale
    else if end == PoolRefused || request.None? then ""
    else request.value
  }

  /** Which pool was there before matters only when the preamble ends early or the cgroup cannot be used. */
  lemma StalePoolSurvivesExactly(end: PreambleEnd, usable: bool, request: Option<string>, stale: string, other: string)
    ensures PoolAt(end, usable, request, stale) == PoolAt(end, usable, request, other)
            <==> (end != RatioRejected && usable) || stale == other
  {
  }

  // ----- What happened, in order

  datatype Event = Forked(instance: nat) | Trapped

  predicate Passes(fails: (nat, nat) -> bool, k: nat) {
    !fails(k, 0) && !fails(k, 1)
  }

  /** The VMs the first `count` iterations of the launch loop fork, up to the first command that fails. */
  function ForksOf(count: nat, fails: (nat, nat) -> bool): (log: seq<Event>)
    ensures (forall k: nat :: k < count ==> Passes(fails, k)) ==>
              |log| == count && forall k: nat :: k < count ==> log[k] == Forked(k)
  {
    if count == 0 then []
    else
      var log := ForksOf(count - 1, fails);
      assert (forall k: nat :: k < count ==> Passes(fails, k)) ==> Passes(fails, count - 1);
      if (exists k: nat :: k < count - 1 && !Passes(fails, k)) || fails(count - 1, 0) then log
      else log + [Forked(count - 1)]
  }

  /** Where in an iteration of the launch loop a signal arrives. */
  datatype Moment = BeforeFork | AfterFork | AfterRecord

  /**
   * The instance whose VM is forked after the trap of a signalled launch, if any: the signal's own
   * iteration when it had not forked yet, the next one when it was complete, provided that no
   * command failed up to there.
   */
  function LateFork(n: nat, fails: (nat, nat) -> bool, at: nat, moment: Moment): Option<nat> {
    if exists k: nat :: k < at && !Passes(fails, k) then None
    else
      match moment
      case BeforeFork => if at < n && !fails(at, 0) then Some(at) else None
      case AfterFork => None
      case AfterRecord => if at + 1 < n && Passes(fails, at) && !fails(at + 1, 0) then Some(at + 1) else None
  }

  /** The pid file of a discovered instance names process p. */
  ghost predicate NamedBy(p: nat, found: set<nat>, pidFiles: map<nat, nat>) {
    exists k :: k in found && k in pidFiles && pidFiles[k] == p
  }

  lemma LateForkExactly(n: nat, fails: (nat, nat) -> bool, at: nat, moment: Moment, k: nat)
    ensures LateFork(n, fails, at, moment) == Some(k)
            <==> k < n && moment != AfterFork && k == (if moment == BeforeFork then at else at + 1)
                 && (forall m: nat :: m < k ==> Passes(fails, m)) && !fails(k, 0)
  {
  }

  /** When iteration m is the first with a failing command, it is the last to fork, unless that is what failed. */
  lemma {:induction false} ForksUpToFailure(count: nat, fails: (nat, nat) -> bool, m: nat)
    requires m < count && !Passes(fails, m) && forall j: nat :: j < m ==> Passes(fails, j)
    ensures |ForksOf(count, fails)| == if fails(m, 0) then m else m + 1
    ensures forall j: nat :: j < |ForksOf(count, fails)| ==> ForksOf(count, fails)[j] == Forked(j)
  {
    if m < count - 1 {
      ForksUpToFailure(count - 1, fails, m);
    }
  }

  class Host {
    // Whether the cpuset controller shows cpuset.cpus, and whether the cgroup could be set up.
    const poolFile: bool
    const cgroupOk: bool

    var socketDir: bool             // the directory of sockets and pid files exists
    var sockets: set<nat>           // <k>.socket
    var pidFiles: map<nat, nat>     // <k>.pid
    var scratch: map<nat, Image>    // scratch-<k>.ext4
    var configs: set<nat>           // vm_config-<k>.json
    var taps: map<nat, Tap>         // tap<k>
    var leaves: map<nat, string>    // cgroup leaf vm<k> and its cpu.max
    var pool: string                // cpuset.cpus of the parent cgroup
    var vms: map<nat, Vm>           // live VM processes by process id
    var nextPid: nat
    ghost var refused: set<nat>     // instances Firecracker refused to start because their socket existed
    ghost var departed: set<nat>    // processes that ended by themselves
    ghost var execs: set<nat>       // processes whose shell was replaced by Firecracker
    ghost var log: seq<Event>       // VMs forked and traps run

    /** A host in any condition an earlier run may have left it in, with no VM alive. */
    constructor (poolFile: bool, cgroupOk: bool, socketDir: bool, sockets: set<nat>, pidFiles: map<nat, nat>,
                 scratch: map<nat, Image>, configs: set<nat>, taps: map<nat, Tap>, leaves: map<nat, string>, pool: string)
      requires (!poolFile ==> pool == "") && (!socketDir ==> sockets == {} && pidFiles == map[])
      ensures Valid() && this.poolFile == poolFile && this.cgroupOk == cgroupOk && vms == map[]
      ensures this.socketDir == socketDir
      ensures this.sockets == sockets && this.pidFiles == pidFiles && this.scratch == scratch && this.configs == configs
      ensures this.taps == taps && this.leaves == leaves && this.pool == pool && refused == {}
    {
      this.poolFile, this.cgroupOk, this.socketDir := poolFile, cgroupOk, socketDir;
      this.sockets, this.pidFiles := sockets, pidFiles;
      this.scratch, this.configs, this.taps, this.leaves, this.pool := scratch, configs, taps, leaves, pool;
      vms, nextPid, refused, departed, execs, log := map[], 0, {}, {}, {}, [];
    }

    ghost predicate Valid()
      reads this`pool, this`socketDir, this`sockets, this`pidFiles, this`vms, this`nextPid, this`departed, this`execs
    {
      && (!poolFile ==> pool == "") && (!socketDir ==> sockets == {} && pidFiles == map[])
      && (forall p :: p in vms ==> p < nextPid && p !in departed && (p in execs <==> vms[p].execed))
      && (forall p :: p in departed || p in execs ==> p < nextPid)
      && (forall p :: p in vms ==> (vms[p].running ==> vms[p].execed) && (vms[p].execed ==> vms[p].enrolled))
    }

    /** The pool file can be written. */
    predicate Usable() {
      cgroupOk && poolFile
    }

    // ----- setup_tap.sh and the launch preamble

    /** Each device is deleted and created anew; creating a device that exists would fail. */
    method SetupTaps(n: nat)
      modifies this`taps
      ensures taps == WithTaps(old(taps), n)
    {
      hide HostIp, WithTaps;
      assert WithTaps(taps, 0) == taps by { NoFreshTaps(taps); }
      for k := 0 to n
        invariant taps == WithTaps(old(taps), k)
        modifies this`taps
      {
        WithTapsStep(old(taps), k);
        taps := taps - {k};
        if k !in taps {
          taps := taps[k := Tap([], false)];
        }
        taps := taps[k := taps[k].(addresses := taps[k].addresses + [HostIp(k) + "/30"])];
        taps := taps[k := taps[k].(up := true)];
        assert [] + [HostIp(k) + "/30"] == [HostIp(k) + "/30"];
        assert taps == WithTaps(old(taps), k)[k := FreshTap(k)];
      }
    }

    /** A formatted scratch drive and a configuration for one instance, as far as its commands succeed. */
    method MakeDrive(k: nat, mib: nat, fails: Command -> bool) returns (failed: Option<Command>)
      modifies this`scratch, this`configs
      ensures failed == DriveFailure(fails, k)
      ensures scratch == match failed
                         case Some(Truncate(_)) => old(scratch)
                         case Some(Format(_)) => old(scratch)[k := Raw(mib)]
                         case _ => old(scratch)[k := Blank(mib)]
      ensures configs == if failed.None? then old(configs) + {k} else old(configs)
    {
      if fails(Truncate(k)) {
        return Some(Truncate(k));
      }
      scratch := scratch[k := Raw(mib)];
      if fails(Format(k)) {
        return Some(Format(k));
      }
      scratch := scratch[k := Blank(mib)];
      if fails(Configure(k)) {
        return Some(Configure(k));
      }
      configs := configs + {k};
      failed := None;
    }

    /** That for each instance, until a command fails. */
    method MakeDrives(n: nat, mib: nat, fails: Command -> bool) returns (end: PreambleEnd)
      requires scratch == map[] && configs == {}
      modifies this`scratch, this`configs
      ensures end == DrivesEnd(n, fails)
      ensures scratch == DrivesAt(end, n, mib) && configs == ConfigsAt(end, n)
    {
      hide BlankScratch, Ids, DrivesEnd, DriveFailure;
      NoDrives(mib, fails);
      for k := 0 to n
        invariant DrivesEnd(k, fails) == Completed && scratch == BlankScratch(k, mib) && configs == Ids(k)
      {
        OneMoreDrive(k, mib, fails);
        var failed := MakeDrive(k, mib, fails);
        if failed.Some? {
          end := DriveFailed(failed.value);
          DrivesStop(k, n, fails);
          return;
        }
      }
      end := Completed;
    }

    /**
     * Everything from the removal of the run directories to the registration of the cleanup trap;
     * when a command on the way fails, the script exits there without a cleanup.
     */
    method Prepare(n: nat, mib: nat, request: Option<string>, fails: Command -> bool) returns (end: PreambleEnd)
      requires Valid() && vms == map[]
      modifies this`socketDir, this`sockets, this`pidFiles, this`scratch, this`configs, this`taps, this`pool
      ensures Valid() && socketDir
      ensures end == EndOf(n, request, Usable(), fails)
      ensures sockets == {} && pidFiles == map[] && taps == WithTaps(old(taps), n)
      ensures scratch == DrivesAt(end, n, mib) && configs == ConfigsAt(end, n)
      ensures pool == PoolAt(end, Usable(), request, old(pool))
    {
      hide Startable, WithTaps, EndOf, DrivesAt, ConfigsAt, PoolAt;
      socketDir, sockets, pidFiles, scratch, configs := true, {}, map[], map[], {};
      SetupTaps(n);
      end := PoolAndDrives(n, mib, request, fails);
    }

    /** The preamble behind the taps. */
    method PoolAndDrives(n: nat, mib: nat, request: Option<string>, fails: Command -> bool) returns (end: PreambleEnd)
      requires (!poolFile ==> pool == "") && scratch == map[] && configs == {}
      modifies this`scratch, this`configs, this`pool
      ensures !poolFile ==> pool == ""
      ensures end == EndOf(n, request, Usable(), fails)
      ensures scratch == DrivesAt(end, n, mib) && configs == ConfigsAt(end, n)
      ensures pool == PoolAt(end, Usable(), request, old(pool))
    {
      NothingMade(n, mib);
      hide DrivesEnd, DrivesAt, ConfigsAt;
      if fails(Ratio) {
        return RatioRejected;
      }
      var accepted := ResetPool(request, fails(SetPool));
      if !accepted {
        return PoolRefused;
      }
      end := MakeDrives(n, mib, fails);
    }

    /** Clears the pool and sets the requested one. */
    method ResetPool(request: Option<string>, refuses: bool) returns (accepted: bool)
      requires !poolFile ==> pool == ""
      modifies this`pool
      ensures accepted <==> !(request.Some? && Usable() && refuses)
      ensures pool == if !Usable() then old(pool) else if !accepted || request.None? then "" else request.value
    {
      if cgroupOk && poolFile {
        pool := "";
      }
      if request.Some? && cgroupOk && poolFile {
        if refuses {
          return false;
        }
        pool := request.value;
      }
      accepted := true;
    }

    // ----- Processes running beside the script

    /** Every live VM belongs to this launch: it is recorded, and its instance is below n. */
    ghost predicate Recorded(pids: seq<nat>, n: nat)
      reads this`vms
    {
      forall p :: p in vms ==> p in pids && vms[p].instance < n
    }

    lemma RecordedBelow(pids: seq<nat>, n: nat, m: nat)
      requires Recorded(pids, n) && n <= m
      ensures Recorded(pids, m)
    {
    }

    /** No VM still to start finds a socket in its place, and no two VMs share an instance. */
    ghost predicate Startable()
      reads this`vms, this`sockets
    {
      && (forall p :: p in vms && !vms[p].running ==> vms[p].instance !in sockets)
      && (forall p, q :: p in vms && q in vms && p != q ==> vms[p].instance != vms[q].instance)
    }

    /** Some live VM is of instance k. */
    ghost predicate Has(k: nat)
      reads this`vms
    {
      exists p :: p in vms && vms[p].instance == k
    }

    /** No process came, and those that ended are remembered. */
    twostate predicate Shrunk()
      reads this`vms, this`departed, this`execs
    {
      vms.Keys <= old(vms).Keys && old(departed) <= departed && old(execs) <= execs
    }

    /** No process has gone but by itself. */
    twostate predicate NoneLost()
      reads this`vms, this`departed
    {
      forall p :: p in old(vms) ==> p in vms || p in departed
    }

    /**
     * What the remaining VM processes do on their own: they join leaves, become Firecracker and open
     * their sockets, unless those are there already.
     */
    twostate predicate VmsEvolved()
      reads this`vms, this`sockets, this`socketDir
    {
      && (forall p :: p in vms ==>
            && p in old(vms) && vms[p].instance == old(vms)[p].instance && vms[p].quota == old(vms)[p].quota
            && (old(vms)[p].running ==> vms[p].running)
            && (vms[p].running && !old(vms)[p].running ==> socketDir && vms[p].instance !in old(sockets)))
      && old(sockets) <= sockets
    }

    /** Only sockets and leaves of instances with a VM change. */
    twostate predicate OthersUntouched()
      reads this`vms, this`sockets, this`leaves
    {
      && (forall k :: k in sockets ==> k in old(sockets) || old(Has(k)))
      && (forall k :: k in leaves && k !in old(leaves) ==> old(Has(k)))
      && (forall k :: k in old(leaves) ==> k in leaves && (!old(Has(k)) ==> leaves[k] == old(leaves)[k]))
    }

    /**
     * Every VM is metered by this quota and serves its own socket: once it has joined its leaf, that
     * leaf holds the quota, and when it runs its socket is there.
     */
    ghost predicate Fleet(quota: string)
      reads this`vms, this`leaves, this`sockets
    {
      forall p :: p in vms ==>
        && vms[p].quota == quota && (vms[p].running ==> vms[p].instance in sockets)
        && (vms[p].enrolled && cgroupOk ==> vms[p].instance in leaves && leaves[vms[p].instance] == quota)
    }

    twostate predicate FleetKept()
      reads this`vms, this`leaves, this`sockets
    {
      forall quota :: old(Fleet(quota)) ==> Fleet(quota)
    }

    /** Every VM is named by the pid file of its instance. */
    ghost predicate PidFiled()
      reads this`vms, this`pidFiles
    {
      forall p :: p in vms ==> vms[p].instance in pidFiles && pidFiles[vms[p].instance] == p
    }

    /** Process p is the only one of instance k, and every other is named by the pid file of its instance. */
    ghost predicate PidFiledBut(p: nat, k: nat)
      reads this`vms, this`pidFiles
    {
      forall q :: q in vms ==>
        if q == p then vms[q].instance == k
        else vms[q].instance != k && vms[q].instance in pidFiles && pidFiles[vms[q].instance] == q
    }

    /** The process ends by itself. */
    method End(p: nat)
      requires Valid() && p in vms
      modifies this`vms, this`departed
      ensures Valid() && Shrunk() && NoneLost() && VmsEvolved() && OthersUntouched() && FleetKept()
      ensures old(Startable()) ==> Startable()
    {
      vms, departed := vms - {p}, departed + {p};
    }

    /** The process joins its leaf. */
    method Enrol(p: nat)
      requires Valid() && p in vms
      modifies this`vms, this`leaves
      ensures Valid() && Shrunk() && NoneLost() && VmsEvolved() && OthersUntouched() && FleetKept()
      ensures old(Startable()) ==> Startable()
    {
      hide FleetKept;
      assert Has(vms[p].instance);
      if cgroupOk {
        SetLeaf(vms[p].instance, vms[p].quota);
      }
      vms := vms[p := vms[p].(enrolled := true)];
      EnrolledFleet(p);
    }

    twostate lemma EnrolledFleet(p: nat)
      requires p in old(vms) && sockets == old(sockets) && vms == old(vms)[p := old(vms)[p].(enrolled := true)]
      requires leaves == if cgroupOk then old(leaves)[old(vms)[p].instance := old(vms)[p].quota] else old(leaves)
      ensures FleetKept()
    {
      forall quota | old(Fleet(quota)) ensures Fleet(quota) {
        assert old(vms)[p].quota == quota;
      }
    }

    /** cpu.max of one leaf. */
    method SetLeaf(k: nat, quota: string)
      modifies this`leaves
      ensures leaves == old(leaves)[k := quota]
    {
      leaves := leaves[k := quota];
    }

    /** The process's shell is replaced by Firecracker. */
    method Exec(p: nat)
      requires Valid() && p in vms && vms[p].enrolled
      modifies this`vms, this`execs
      ensures Valid() && Shrunk() && NoneLost() && VmsEvolved() && OthersUntouched() && FleetKept()
      ensures old(Startable()) ==> Startable()
    {
      vms, execs := vms[p := vms[p].(execed := true)], execs + {p};
    }

    /** Firecracker refuses to start when its socket already exists, and cannot without the directory. */
    method Serve(p: nat)
      requires Valid() && p in vms && vms[p].execed && !vms[p].running
      modifies this`sockets, this`vms, this`refused, this`departed
      ensures Valid() && Shrunk() && NoneLost() && VmsEvolved() && OthersUntouched() && FleetKept()
      ensures old(Startable()) ==> Startable() && refused == old(refused)
    {
      if vms[p].instance in sockets {
        refused := refused + {vms[p].instance};
        End(p);
      } else if !socketDir {
        End(p);
      } else {
        Open(p);
      }
    }

    /** The process opens its socket. */
    method Open(p: nat)
      requires Valid() && p in vms && vms[p].execed && !vms[p].running && socketDir && vms[p].instance !in sockets
      modifies this`sockets, this`vms
      ensures Valid() && Shrunk() && NoneLost() && VmsEvolved() && OthersUntouched() && FleetKept()
      ensures old(Startable()) ==> Startable()
    {
      hide FleetKept;
      assert Has(vms[p].instance);
      sockets := sockets + {vms[p].instance};
      vms := vms[p := vms[p].(running := true)];
      ServedFleet(p);
    }

    twostate lemma ServedFleet(p: nat)
      requires p in old(vms) && leaves == old(leaves) && vms == old(vms)[p := old(vms)[p].(running := true)]
      requires sockets == old(sockets) + {old(vms)[p].instance}
      ensures FleetKept()
    {
    }

    /** One action of one VM process. */
    method VmTurn(p: nat)
      requires Valid() && p in vms
      modifies this`sockets, this`leaves, this`vms, this`refused, this`departed, this`execs
      ensures Valid() && Shrunk() && NoneLost() && VmsEvolved() && OthersUntouched() && FleetKept()
      ensures old(Startable()) ==> Startable() && refused == old(refused)
    {
      hide Startable;
      var exits: bool := *;
      if exits {
        End(p);
      } else if !vms[p].enrolled {
        Enrol(p);
      } else if !vms[p].execed {
        Exec(p);
      } else if !vms[p].running {
        Serve(p);
      }
    }

    /** Any number of actions of the VM processes, in any order. */
    method Others()
      requires Valid()
      modifies this`sockets, this`leaves, this`vms, this`refused, this`departed, this`execs
      ensures Valid() && Shrunk() && NoneLost() && VmsEvolved() && OthersUntouched() && FleetKept()
      ensures old(Startable()) ==> Startable() && refused == old(refused)
    {
      var turns: nat :| true;
      while turns > 0
        invariant Valid() && Shrunk() && NoneLost() && VmsEvolved() && OthersUntouched() && FleetKept()
        invariant old(Startable()) ==> Startable() && refused == old(refused)
      {
        if vms != map[] {
          var p :| p in vms;
          label Before:
          VmTurn(p);
          assert forall k :: old@Before(Has(k)) ==> old(Has(k));
        }
        turns := turns - 1;
      }
    }

    /** The same, during a launch whose VMs are all recorded. */
    method Background(pids: seq<nat>, n: nat)
      requires Valid() && Recorded(pids, n)
      modifies this`sockets, this`leaves, this`vms, this`refused, this`departed, this`execs
      ensures Valid() && Recorded(pids, n) && vms.Keys <= old(vms.Keys) && VmsEvolved() && FleetKept()
      ensures old(PidFiled()) ==> PidFiled()
      ensures forall p, k :: old(PidFiledBut(p, k)) ==> PidFiledBut(p, k)
      ensures old(Startable()) ==> Startable() && refused == old(refused)
      ensures forall k :: k in sockets ==> k in old(sockets) || k < n
      ensures OtherLeavesKept(n)
    {
      hide Startable;
      assert forall k: nat :: Has(k) ==> k < n;
      Others();
    }

    // ----- The launch loop and its trap

    /** The leaf cgroups of instances from n up are as they were. */
    twostate predicate OtherLeavesKept(n: nat)
      reads this`leaves
    {
      forall k :: k >= n ==> (k in leaves <==> k in old(leaves)) && (k in leaves ==> leaves[k] == old(leaves[k]))
    }

    /** kill; SIGTERM may be ignored. */
    method Terminate(n: nat, pids: seq<nat>)
      requires Valid() && Recorded(pids, n)
      modifies this`sockets, this`leaves, this`vms, this`refused, this`departed, this`execs
      ensures Valid() && Recorded(pids, n) && OtherLeavesKept(n)
      ensures old(Startable()) ==> Startable() && refused == old(refused)
    {
      for i := 0 to |pids|
        invariant Valid() && Recorded(pids, n) && OtherLeavesKept(n)
        invariant old(Startable()) ==> Startable() && refused == old(refused)
      {
        TerminateOne(pids[i], n, pids);
      }
    }

    method TerminateOne(pid: nat, n: nat, pids: seq<nat>)
      requires Valid() && Recorded(pids, n)
      modifies this`sockets, this`leaves, this`vms, this`refused, this`departed, this`execs
      ensures Valid() && Recorded(pids, n) && OtherLeavesKept(n)
      ensures old(Startable()) ==> Startable() && refused == old(refused)
    {
      var obeys: bool := *;
      if obeys {
        vms := vms - {pid};
      }
      Background(pids, n);
    }

    /** kill -9 */
    method Kill(n: nat, pids: seq<nat>)
      requires Valid() && Recorded(pids, n)
      modifies this`sockets, this`leaves, this`vms, this`refused, this`departed, this`execs
      ensures Valid() && vms == map[] && OtherLeavesKept(n)
      ensures old(Startable()) ==> refused == old(refused)
    {
      for i := 0 to |pids|
        invariant Valid() && Recorded(pids, n) && OtherLeavesKept(n)
        invariant forall p :: p in vms ==> p in pids[i..]
        invariant old(Startable()) ==> Startable() && refused == old(refused)
      {
        assert pids[i..] == [pids[i]] + pids[i + 1..];
        KillOne(pids[i], n, pids);
      }
    }

    method KillOne(pid: nat, n: nat, pids: seq<nat>)
      requires Valid() && Recorded(pids, n)
      modifies this`sockets, this`leaves, this`vms, this`refused, this`departed, this`execs
      ensures Valid() && Recorded(pids, n) && OtherLeavesKept(n)
      ensures pid !in vms && vms.Keys <= old(vms.Keys)
      ensures old(Startable()) ==> Startable() && refused == old(refused)
    {
      vms := vms - {pid};
      Background(pids, n);
    }

    /** The leaf cgroup of instance k holds a process. */
    predicate Occupied(k: nat)
      reads this`vms
    {
      exists p :: p in vms && vms[p].instance == k && vms[p].enrolled
    }

    /** The device loop of the trap; rmdir fails while a leaf still holds a process. */
    method RemoveDevices(n: nat)
      modifies this`taps, this`leaves
      ensures taps == old(taps) - Ids(n)
      ensures forall k :: k in leaves <==>
                k in old(leaves) && (k >= n || Occupied(k))
      ensures forall k :: k in leaves ==> leaves[k] == old(leaves[k])
    {
      for k := 0 to n
        invariant taps == old(taps) - Ids(k)
        invariant forall m :: m in leaves <==>
                    m in old(leaves) && (m >= k || Occupied(m))
        invariant forall m :: m in leaves ==> leaves[m] == old(leaves[m])
      {
        taps := taps - {k};
        if !Occupied(k) {
          leaves := leaves - {k};
        }
      }
    }

    /** The trap once no process is left. */
    method RemoveAll(n: nat)
      requires Valid() && vms == map[]
      modifies this`socketDir, this`sockets, this`pidFiles, this`scratch, this`configs, this`taps, this`leaves, this`pool
      ensures Valid() && !socketDir && sockets == {} && pidFiles == map[] && scratch == map[] && configs == {}
      ensures taps == old(taps) - Ids(n) && pool == ""
      ensures forall k :: k in leaves <==> k >= n && k in old(leaves)
      ensures forall k :: k in leaves ==> leaves[k] == old(leaves[k])
    {
      socketDir, sockets, pidFiles, scratch, configs := false, {}, map[], map[], {};
      RemoveDevices(n);
      if poolFile {
        pool := "";
      }
    }

    /** The cleanup trap. */
    method Cleanup(n: nat, pids: seq<nat>)
      requires Valid() && Recorded(pids, n)
      modifies this`socketDir, this`sockets, this`pidFiles, this`scratch, this`configs, this`taps, this`leaves,
               this`pool, this`vms, this`refused, this`departed, this`execs, this`log
      ensures !socketDir && log == old(log) + [Trapped]
      ensures old(Startable()) ==> refused == old(refused)
      ensures Valid() && vms == map[] && sockets == {} && pidFiles == map[] && scratch == map[] && configs == {}
      ensures taps == old(taps) - Ids(n)
      ensures forall k :: k in leaves <==> k >= n && k in old(leaves)
      ensures forall k :: k in leaves ==> leaves[k] == old(leaves[k])
      ensures pool == ""
    {
      hide Startable, Recorded;
      log := log + [Trapped];
      Terminate(n, pids);
      Background(pids, n);
      Kill(n, pids);
      RemoveAll(n);
    }

    /** A new VM process; no earlier one has its instance, and its socket is not there yet. */
    method Fork(k: nat, pids: seq<nat>, quota: string) returns (pid: nat)
      requires Valid() && Recorded(pids, k)
      modifies this`vms, this`nextPid, this`log
      ensures Valid() && Recorded(pids + [pid], k + 1)
      ensures vms == old(vms)[pid := Vm(k, quota, false, false, false)] && pid !in old(vms)
      ensures log == old(log) + [Forked(k)] && pid == old(nextPid) && nextPid == pid + 1
      ensures old(Startable()) && k !in sockets ==> Startable()
      ensures old(Fleet(quota)) ==> Fleet(quota)
      ensures old(PidFiled()) ==> PidFiledBut(pid, k)
    {
      pid := nextPid;
      nextPid := nextPid + 1;
      vms, log := vms[pid := Vm(k, quota, false, false, false)], log + [Forked(k)];
    }

    /** Forks the VM; it may act before the script does. */
    method ForkVm(k: nat, pids: seq<nat>, quota: string) returns (pid: nat)
      requires Valid() && Recorded(pids, k)
      modifies this`sockets, this`leaves, this`vms, this`nextPid, this`refused, this`departed, this`execs, this`log
      ensures Valid() && Recorded(pids + [pid], k + 1) && OtherLeavesKept(k + 1)
      ensures log == old(log) + [Forked(k)]
      ensures old(PidFiled()) ==> PidFiledBut(pid, k)
      ensures old(Fleet(quota)) ==> Fleet(quota)
      ensures old(Startable()) && (forall m :: m in old(sockets) ==> m < k) ==>
                Startable() && refused == old(refused) && forall m :: m in sockets ==> m < k + 1
    {
      hide Startable, Recorded, Fleet, PidFiled, PidFiledBut;
      pid := Fork(k, pids, quota);
      Background(pids + [pid], k + 1);
    }

    /** Writes the pid file of instance k. */
    method WritePid(k: nat, pid: nat)
      requires Valid() && socketDir
      modifies this`pidFiles
      ensures Valid() && pidFiles == old(pidFiles)[k := pid]
      ensures old(PidFiledBut(pid, k)) ==> PidFiled()
    {
      pidFiles := pidFiles[k := pid];
    }

    /** One iteration of the launch loop: fork, record the process, write its pid file. */
    method StartInstance(k: nat, pids: seq<nat>, quota: string, fails: (nat, nat) -> bool)
      returns (started: seq<nat>, ok: bool)
      requires Valid() && Recorded(pids, k)
      modifies this`sockets, this`pidFiles, this`leaves, this`vms, this`nextPid, this`refused, this`departed, this`execs,
               this`log
      ensures ok <==> Passes(fails, k) && socketDir
      ensures log == old(log) + if fails(k, 0) then [] else [Forked(k)]
      ensures Valid() && Recorded(started, k + 1) && OtherLeavesKept(k + 1)
      ensures old(Fleet(quota)) ==> Fleet(quota)
      ensures ok && old(PidFiled()) ==> PidFiled()
      ensures old(Startable()) && (forall m :: m in old(sockets) ==> m < k) ==>
                Startable() && refused == old(refused) && forall m :: m in sockets ==> m < k + 1
    {
      hide Startable, Recorded, Fleet, PidFiled, PidFiledBut, VmsEvolved;
      RecordedBelow(pids, k, k + 1);
      if fails(k, 0) {
        return pids, false;
      }
      var pid := ForkVm(k, pids, quota);
      started := pids + [pid];
      if fails(k, 1) || !socketDir {
        return started, false;
      }
      WritePid(k, pid);
      Background(started, k + 1);
      ok := true;
    }

    lemma NoVms(quota: string, fails: (nat, nat) -> bool)
      requires vms == map[]
      ensures Recorded([], 0) && Startable() && Fleet(quota) && PidFiled() && ForksOf(0, fails) == []
    {
    }

    /**
     * Starts the first `count` of n instances one by one until a command fails. fails(k, i) says
     * whether command i of iteration k fails.
     */
    method StartAll(count: nat, n: nat, quota: string, fails: (nat, nat) -> bool) returns (pids: seq<nat>, ok: bool)
      requires Valid() && vms == map[] && count <= n
      modifies this`sockets, this`pidFiles, this`leaves, this`vms, this`nextPid, this`refused, this`departed, this`execs,
               this`log
      ensures Valid() && Recorded(pids, count) && OtherLeavesKept(n)
      ensures old(sockets) == {} ==> Startable() && refused == old(refused) && forall m :: m in sockets ==> m < count
      ensures socketDir ==> (ok <==> forall m: nat :: m < count ==> Passes(fails, m))
      ensures socketDir ==> log == old(log) + ForksOf(count, fails)
      ensures Fleet(quota) && (ok ==> PidFiled())
    {
      hide Startable, Recorded, ForksOf, Fleet, PidFiled;
      NoVms(quota, fails);
      pids, ok := [], true;
      var k := 0;
      while ok && k < count
        invariant k <= count && Valid() && Recorded(pids, k) && OtherLeavesKept(n)
        invariant old(sockets) == {} ==> Startable() && refused == old(refused) && forall m :: m in sockets ==> m < k
        invariant socketDir ==> (ok <==> forall m: nat :: m < k ==> Passes(fails, m))
        invariant socketDir ==> log == old(log) + ForksOf(k, fails)
        invariant Fleet(quota) && (ok ==> PidFiled())
        decreases count - k
      {
        OneMoreFork(k, fails);
        pids, ok := StartInstance(k, pids, quota, fails);
        k := k + 1;
      }
      RecordedBelow(pids, k, count);
      if socketDir {
        ForksStop(k, count, fails);
      }
    }

    /** Starts the instances, then waits for them; leaving the script in either way runs the trap. */
    method Launch(n: nat, quota: string, fails: (nat, nat) -> bool)
      requires Valid() && vms == map[]
      modifies this
      ensures Valid() && vms == map[] && sockets == {} && pidFiles == map[] && scratch == map[] && configs == {}
      ensures taps == old(taps) - Ids(n)
      ensures forall k :: k in leaves <==> k >= n && k in old(leaves)
      ensures forall k :: k in leaves ==> leaves[k] == old(leaves[k])
      ensures pool == ""
      ensures old(socketDir) ==> log == old(log) + ForksOf(n, fails) + [Trapped]
      ensures old(sockets) == {} ==> refused == old(refused)
    {
      hide Startable, Recorded, Ids, ForksOf;
      var pids, ok := StartAll(n, n, quota, fails);
      Background(pids, n);
      Cleanup(n, pids);
    }

    // ----- A signal inside the launch loop

    /**
     * The VM forked when the trap has already removed the directories: it may join its leaf, but
     * cannot serve. Its pid file cannot be written, which ends the script, now without a trap.
     */
    method ForkLate(k: nat, quota: string)
      requires Valid() && vms == map[] && !socketDir
      modifies this`sockets, this`leaves, this`vms, this`nextPid, this`refused, this`departed, this`execs, this`log
      ensures Valid() && sockets == {} && log == old(log) + [Forked(k)]
      ensures forall p :: p in vms ==> vms[p].instance == k && !vms[p].running
      ensures forall p :: old(nextPid) <= p < nextPid ==> p in vms || p in departed
      ensures old(nextPid) < nextPid
      ensures forall m :: m != k ==> (m in leaves <==> m in old(leaves)) && (m in leaves ==> leaves[m] == old(leaves[m]))
    {
      var pid := Fork(k, [], quota);
      assert forall m :: Has(m) ==> m == k;
      Others();
    }

    /** The launch loop up to the signal, or to the command that fails before it. */
    method StartUntil(n: nat, quota: string, fails: (nat, nat) -> bool, at: nat, moment: Moment)
      returns (pids: seq<nat>, ok: bool)
      requires Valid() && vms == map[] && socketDir && at < n
      modifies this`sockets, this`pidFiles, this`leaves, this`vms, this`nextPid, this`refused, this`departed, this`execs,
               this`log
      ensures Valid() && Recorded(pids, n) && OtherLeavesKept(n)
      ensures ok <==> (forall m: nat :: m < at ==> Passes(fails, m))
                      && (moment != BeforeFork ==> !fails(at, 0)) && (moment == AfterRecord ==> !fails(at, 1))
      ensures log == old(log) + ForksOf(if moment == BeforeFork then at else at + 1, fails)
    {
      hide Startable, ForksOf;
      pids, ok := StartAll(at, n, quota, fails);
      OneMoreFork(at, fails);
      if ok && moment != BeforeFork {
        if fails(at, 0) {
          ok := false;
        } else if moment == AfterFork {
          var pid := Fork(at, pids, quota);
          pids := pids + [pid];
        } else {
          pids, ok := StartInstance(at, pids, quota, fails);
        }
      }
    }

    /**
     * A launch that a signal reaches in iteration `at`. The trap runs there and returns, no longer
     * registered, and the loop goes on behind it. `late` is the instance forked after the trap.
     */
    method SignalledLaunch(n: nat, quota: string, fails: (nat, nat) -> bool, at: nat, moment: Moment)
      returns (late: Option<nat>)
      requires Valid() && vms == map[] && socketDir && at < n
      modifies this
      ensures late == LateFork(n, fails, at, moment)
      ensures log == old(log) + ForksOf(if moment == BeforeFork then at else at + 1, fails) + [Trapped]
                     + if late.Some? then [Forked(late.value)] else []
      ensures Valid() && sockets == {} && pidFiles == map[] && scratch == map[] && configs == {} && pool == ""
      ensures taps == old(taps) - Ids(n)
      ensures forall p :: p in vms ==> late == Some(vms[p].instance) && !vms[p].running
      ensures forall k :: k in leaves && k < n ==> late == Some(k)
      ensures OtherLeavesKept(n)
    {
      hide Startable, Recorded, Ids, ForksOf, VmsEvolved, FleetKept, PidFiled, PidFiledBut;
      var pids, ok := StartUntil(n, quota, fails, at, moment);
      Background(pids, n);
      Cleanup(n, pids);
      late := None;
      var next := if moment == BeforeFork then at else at + 1;
      if ok && moment != AfterFork && next < n && !fails(next, 0) {
        ForkLate(next, quota);
        late := Some(next);
      }
    }

    // ----- kill_firecracker.sh

    /** Process p is reached by the request to its socket or by the pid file of a discovered instance. */
    ghost predicate Reached(p: nat, vms: map<nat, Vm>, found: set<nat>, pidFiles: map<nat, nat>, halts: nat -> bool) {
      || (p in vms && vms[p].running && vms[p].instance in found && halts(p))
      || NamedBy(p, found, pidFiles)
    }

    /**
     * SendCtrlAltDel to one instance: the Firecracker process that serves its socket may halt.
     * halts(p) says whether process p takes the request and obeys within the grace period.
     */
    method AskOne(k: nat, halts: nat -> bool)
      requires Valid() && k in sockets
      modifies this`sockets, this`leaves, this`vms, this`refused, this`departed, this`execs
      ensures Valid() && Shrunk() && VmsEvolved() && OthersUntouched()
      ensures forall p :: p in vms ==> !(vms[p].running && vms[p].instance == k && halts(p))
      ensures forall p :: p in old(vms) ==>
                p in vms || p in departed || (old(vms)[p].running && old(vms)[p].instance == k && halts(p))
    {
      vms := map p | p in vms && !(vms[p].running && vms[p].instance == k && halts(p)) :: vms[p];
      label Asked:
      Others();
      assert forall m :: old@Asked(Has(m)) ==> old(Has(m));
    }

    /** SendCtrlAltDel to every discovered instance, while the VMs go on acting. */
    method AskToHalt(found: set<nat>, halts: nat -> bool)
      requires Valid() && found <= sockets
      modifies this`sockets, this`leaves, this`vms, this`refused, this`departed, this`execs
      ensures Valid() && Shrunk() && VmsEvolved() && OthersUntouched()
      ensures forall p :: p in vms ==> !(vms[p].running && vms[p].instance in found && halts(p))
      ensures forall p :: p in old(vms) ==>
                p in vms || p in departed || (old(vms)[p].running && old(vms)[p].instance in found && halts(p))
    {
      var todo := found;
      while todo != {}
        invariant todo <= found && Valid() && Shrunk() && VmsEvolved() && OthersUntouched()
        invariant forall p :: p in vms ==> !(vms[p].running && vms[p].instance in found - todo && halts(p))
        invariant forall p :: p in old(vms) ==>
                    p in vms || p in departed || (old(vms)[p].running && old(vms)[p].instance in found && halts(p))
        decreases todo
      {
        var k :| k in todo;
        todo := todo - {k};
        label Next:
        AskOne(k, halts);
        assert forall m :: old@Next(Has(m)) ==> old(Has(m));
      }
    }

    /** kill -9 by pid file for every discovered instance that has one, while the VMs go on acting. */
    method KillByPidFile(found: set<nat>)
      requires Valid()
      modifies this`sockets, this`leaves, this`vms, this`refused, this`departed, this`execs
      ensures Valid() && Shrunk() && VmsEvolved() && OthersUntouched()
      ensures forall p :: p in vms ==> !NamedBy(p, found, pidFiles)
      ensures forall p :: p in old(vms) ==>
                p in vms || p in departed || NamedBy(p, found, pidFiles)
    {
      var todo := found;
      while todo != {}
        invariant todo <= found && Valid() && Shrunk() && VmsEvolved() && OthersUntouched()
        invariant forall p :: p in vms ==> !NamedBy(p, found - todo, pidFiles)
        invariant forall p :: p in old(vms) ==>
                    p in vms || p in departed || NamedBy(p, found, pidFiles)
        decreases todo
      {
        var k :| k in todo;
        todo := todo - {k};
        label Next:
        KillNamed(k);
        assert forall m :: old@Next(Has(m)) ==> old(Has(m));
      }
    }

    /** kill -9 by one pid file, if it is there. */
    method KillNamed(k: nat)
      requires Valid()
      modifies this`sockets, this`leaves, this`vms, this`refused, this`departed, this`execs
      ensures Valid() && Shrunk() && VmsEvolved() && OthersUntouched()
      ensures forall p :: p in vms ==> !(k in pidFiles && pidFiles[k] == p)
      ensures forall p :: p in old(vms) ==> p in vms || p in departed || (k in pidFiles && pidFiles[k] == p)
    {
      if k in pidFiles {
        vms := vms - {pidFiles[k]};
      }
      label Killed:
      Others();
      assert forall m :: old@Killed(Has(m)) ==> old(Has(m));
    }

    /**
     * pkill -f "firecracker --api-sock": a process whose shell has not been replaced yet does not
     * match. obeys(p) says whether process p heeds SIGTERM.
     */
    method Pkill(obeys: nat -> bool) returns (ghost matched: set<nat>)
      requires Valid()
      modifies this`sockets, this`leaves, this`vms, this`refused, this`departed, this`execs
      ensures Valid() && Shrunk() && VmsEvolved() && OthersUntouched()
      ensures matched == set p | p in old(vms) && old(vms)[p].execed
      ensures forall p :: p in old(vms) ==> (p in vms <==> p !in departed && !(p in matched && obeys(p)))
    {
      matched := set p | p in vms && vms[p].execed;
      vms := map p | p in vms && !(vms[p].execed && obeys(p)) :: vms[p];
      label Killed:
      Others();
      assert forall k :: old@Killed(Has(k)) ==> old(Has(k));
    }

    method DeleteTaps(n: nat)
      modifies this`taps
      ensures taps == old(taps) - Ids(n)
    {
      for k := 0 to n
        invariant taps == old(taps) - Ids(k)
      {
        taps := taps - {k};
      }
    }

    /** The shutdown request and the forced kill, when sockets were found. */
    method StopFound(found: set<nat>, halts: nat -> bool)
      requires Valid() && found <= sockets
      modifies this`sockets, this`leaves, this`vms, this`refused, this`departed, this`execs
      ensures Valid() && Shrunk() && VmsEvolved() && OthersUntouched()
      ensures forall p :: p in old(vms) ==>
                (p in vms <==> p !in departed && !Reached(p, old(vms), found, pidFiles, halts))
    {
      AskToHalt(found, halts);
      label Asked:
      KillByPidFile(found);
      assert forall k :: old@Asked(Has(k)) ==> old(Has(k));
    }

    /** pkill, when no socket was found. */
    method StopStray(obeys: nat -> bool) returns (ghost matched: set<nat>)
      requires Valid()
      modifies this`sockets, this`leaves, this`vms, this`refused, this`departed, this`execs
      ensures Valid() && Shrunk() && VmsEvolved() && OthersUntouched()
      ensures matched <= old(vms).Keys && matched <= execs
      ensures forall p :: p in old(vms) && old(vms)[p].execed && p !in departed ==> p in matched
      ensures forall p :: p in old(vms) ==> (p in vms <==> p !in departed && !(p in matched && obeys(p)))
    {
      Others();
      label Acted:
      matched := Pkill(obeys);
      assert forall k :: old@Acted(Has(k)) ==> old(Has(k));
    }

    /** What is torn down once the processes were dealt with; the rest go on acting. */
    method TearDown(keepState: bool)
      requires Valid()
      modifies this`socketDir, this`sockets, this`pidFiles, this`scratch, this`configs, this`taps, this`leaves, this`vms,
               this`refused, this`departed, this`execs
      ensures Valid() && !socketDir && sockets == {} && pidFiles == map[] && taps == old(taps) - Ids(MAX_INSTANCES)
      ensures if keepState then scratch == old(scratch) && configs == old(configs) else scratch == map[] && configs == {}
      ensures Shrunk() && NoneLost() && forall p :: p in vms ==> vms[p].instance == old(vms)[p].instance
    {
      hide Ids, OthersUntouched, Startable, FleetKept;
      Others();
      DeleteTaps(MAX_INSTANCES);
      Others();
      RemoveState(keepState);
      Others();
    }

    method RemoveState(keepState: bool)
      requires Valid()
      modifies this`socketDir, this`sockets, this`pidFiles, this`scratch, this`configs
      ensures Valid() && !socketDir
      ensures if keepState then scratch == old(scratch) && configs == old(configs) else scratch == map[] && configs == {}
    {
      socketDir, sockets, pidFiles := false, {}, map[];
      if !keepState {
        scratch, configs := map[], {};
      }
    }

    /**
     * Discovery by sockets, then shutdown and forced kill, or pkill when there is no socket, then
     * teardown; VMs act in between. A process remains exactly when it did not end by itself and was
     * not reached: by the request to its socket or by its pid file, or, without any socket, by pkill
     * as a process that is Firecracker by then and heeds the signal.
     */
    method KillAll(halts: nat -> bool, obeys: nat -> bool, keepState: bool) returns (ghost matched: set<nat>)
      requires Valid()
      modifies this`socketDir, this`sockets, this`pidFiles, this`scratch, this`configs, this`taps, this`leaves, this`vms,
               this`refused, this`departed, this`execs
      ensures Valid() && !socketDir && vms.Keys <= old(vms).Keys
      ensures forall p :: p in vms ==> vms[p].instance == old(vms)[p].instance
      ensures old(sockets) != {} ==>
                forall p :: p in old(vms) ==>
                  (p in vms <==> p !in departed && !Reached(p, old(vms), old(sockets), old(pidFiles), halts))
      ensures old(sockets) == {} ==>
                && matched <= old(vms).Keys && matched <= execs
                && (forall p :: p in old(vms) && old(vms)[p].execed && p !in departed ==> p in matched)
                && (forall p :: p in old(vms) ==> (p in vms <==> p !in departed && !(p in matched && obeys(p))))
      ensures sockets == {} && pidFiles == map[] && taps == old(taps) - Ids(MAX_INSTANCES)
      ensures if keepState then scratch == old(scratch) && configs == old(configs) else scratch == map[] && configs == {}
    {
      hide Ids;
      matched := {};
      if sockets == {} {
        matched := StopStray(obeys);
      } else {
        StopFound(sockets, halts);
      }
      TearDown(keepState);
    }
  }

  lemma NothingMade(n: nat, mib: nat)
    ensures DrivesAt(RatioRejected, n, mib) == DrivesAt(PoolRefused, n, mib) == map[]
    ensures ConfigsAt(RatioRejected, n) == ConfigsAt(PoolRefused, n) == {}
  {
  }

  lemma NoDrives(mib: nat, fails: Command -> bool)
    ensures DrivesEnd(0, fails) == Completed && BlankScratch(0, mib) == map[] && Ids(0) == {}
  {
  }

  lemma OneMoreDrive(k: nat, mib: nat, fails: Command -> bool)
    requires DrivesEnd(k, fails) == Completed
    ensures BlankScratch(k + 1, mib) == BlankScratch(k, mib)[k := Blank(mib)] && Ids(k + 1) == Ids(k) + {k}
    ensures DrivesEnd(k + 1, fails)
            == if DriveFailure(fails, k).Some? then DriveFailed(DriveFailure(fails, k).value) else Completed
  {
    hide DriveFailure;
  }

  lemma {:induction false} DrivesStop(k: nat, n: nat, fails: Command -> bool)
    requires k < n && DrivesEnd(k + 1, fails) != Completed
    ensures DrivesEnd(n, fails) == DrivesEnd(k + 1, fails)
  {
    if k + 1 < n {
      DrivesStop(k, n - 1, fails);
    }
  }

  lemma OneMoreFork(k: nat, fails: (nat, nat) -> bool)
    ensures (forall m: nat :: m < k ==> Passes(fails, m)) ==>
              ForksOf(k + 1, fails) == ForksOf(k, fails) + if fails(k, 0) then [] else [Forked(k)]
    ensures (exists m: nat :: m < k && !Passes(fails, m)) ==> ForksOf(k + 1, fails) == ForksOf(k, fails)
  {
  }

  /** Behind an iteration that fails nothing is forked. */
  lemma {:induction false} ForksStop(k: nat, n: nat, fails: (nat, nat) -> bool)
    requires k <= n && (k < n ==> exists m: nat :: m < k && !Passes(fails, m))
    ensures ForksOf(n, fails) == ForksOf(k, fails)
  {
    if k < n {
      ForksStop(k, n - 1, fails);
    }
  }

  // ----- Runs after runs

  /** What a launch can see of the host for its own instances. */
  ghost predicate SameFor(n: nat, a: Host, b: Host)
    reads a, b
  {
    && a.sockets == b.sockets && a.pidFiles == b.pidFiles && a.scratch == b.scratch && a.configs == b.configs
    && (forall k :: 0 <= k < n ==> k in a.taps && k in b.taps && a.taps[k] == b.taps[k])
  }

  /**
   * Whatever a dead earlier run left on one host, the preamble brings it, for the instances of
   * the new run, to the state it brings any other host to, wherever it ends; the pool too, unless
   * it ends before the pool or the cgroup cannot be used.
   */
  method PreambleForgetsThePast(dirty: Host, clean: Host, n: nat, mib: nat, request: Option<string>, fails: Command -> bool)
    returns (end: PreambleEnd)
    requires dirty != clean && dirty.Valid() && clean.Valid() && dirty.vms == map[] && clean.vms == map[]
    requires dirty.Usable() == clean.Usable()
    modifies dirty, clean
    ensures end == EndOf(n, request, dirty.Usable(), fails)
    ensures SameFor(n, dirty, clean)
    ensures dirty.pool == clean.pool <==>
              (end != RatioRejected && dirty.Usable()) || old(dirty.pool) == old(clean.pool)
  {
    hide PoolAt, DrivesAt, ConfigsAt, EndOf;
    end := dirty.Prepare(n, mib, request, fails);
    var other := clean.Prepare(n, mib, request, fails);
    StalePoolSurvivesExactly(end, dirty.Usable(), request, old(dirty.pool), old(clean.pool));
  }

  /**
   * What a whole run leaves of its own. A preamble that does not complete ends the script before
   * its trap is registered, and leaves what it made so far; a completed one is followed by a launch
   * that, however it ends, leaves no process, socket, drive, configuration, tap, leaf or pool.
   */
  method RunLeavesNoTrace(host: Host, n: nat, mib: nat, request: Option<string>, preamble: Command -> bool, quota: string,
                          fails: (nat, nat) -> bool)
    returns (end: PreambleEnd)
    requires host.Valid() && host.vms == map[]
    modifies host
    ensures end == EndOf(n, request, host.Usable(), preamble)
    ensures n > 0 ==> ((forall k :: 0 <= k < n ==> k !in host.taps) <==> end == Completed)
    ensures host.vms == map[] && host.sockets == {} && host.pidFiles == map[] && host.refused == old(host.refused)
    ensures end == Completed ==> host.scratch == map[] && host.configs == {} && host.pool == ""
                                 && forall k :: 0 <= k < n ==> k !in host.leaves
    ensures end != Completed ==>
              && host.taps == WithTaps(old(host.taps), n) && host.leaves == old(host.leaves)
              && host.scratch == DrivesAt(end, n, mib) && host.configs == ConfigsAt(end, n)
              && host.pool == PoolAt(end, host.Usable(), request, old(host.pool))
    ensures forall k :: k >= n ==> (k in host.taps <==> k in old(host.taps)) && (k in host.leaves <==> k in old(host.leaves))
  {
    hide EndOf, DrivesAt, ConfigsAt, PoolAt;
    end := host.Prepare(n, mib, request, preamble);
    if end != Completed {
      assert n > 0 ==> 0 in host.taps;
      return;
    }
    host.Launch(n, quota, fails);
  }

  /**
   * A fleet that was launched completely has a pid file for every VM, so kill_firecracker.sh reaches
   * every VM whose socket it finds; `found` are the sockets there are when it looks.
   */
  method KillReachesLaunchedFleet(host: Host, n: nat, quota: string, fails: (nat, nat) -> bool, halts: nat -> bool,
                                  obeys: nat -> bool, keepState: bool)
    returns (launched: bool, ghost found: set<nat>)
    requires host.Valid() && host.vms == map[] && host.socketDir
    modifies host
    ensures launched <==> forall k: nat :: k < n ==> Passes(fails, k)
    ensures launched && found != {} ==> forall p :: p in host.vms ==> host.vms[p].instance !in found
  {
    var pids;
    pids, launched := host.StartAll(n, n, quota, fails);
    found := host.sockets;
    label Found:
    if launched {
      var matched := host.KillAll(halts, obeys, keepState);
      assert found != {} ==> forall p :: p in old@Found(host.vms) && old@Found(host.vms)[p].instance in found ==>
          NamedBy(p, found, old@Found(host.pidFiles));
    }
  }

  /** Every VM whose instance has its socket and its pid file is gone after kill_firecracker.sh. */
  method KillStopsKnownVms(host: Host, halts: nat -> bool, obeys: nat -> bool, keepState: bool)
    requires host.Valid()
    requires forall p :: p in host.vms ==>
               host.vms[p].instance in host.sockets && host.vms[p].instance in host.pidFiles
               && host.pidFiles[host.vms[p].instance] == p
    modifies host
    ensures host.vms == map[]
  {
    var matched := host.KillAll(halts, obeys, keepState);
  }
}
