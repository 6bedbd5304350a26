# Model of the Firecracker fleet, its load driver and its power analysis

The repository launches a fleet of Firecracker microVMs on one host, drives load at them, samples
power while it does, and analyses the result. This project models the parts of it that decide
something, and proves what holds of them for all inputs, all runs and all schedules.

| file | what it models |
|---|---|
| `Workers.dfy` | one iteration of the SAAF driver: a worker thread per endpoint, a shared result list, an arbitrary outcome per request, every interleaving |
| `Payloads.dfy`, `PostProcess.dfy`, `Combine.dfy` | what the driver sends, how it makes values safe for its report, how it merges iterations |
| `Samplers.dfy` | the RAPL and the ARM power samplers with their wrapping counters |
| `Rounds.dfy` | the experiment loop: concurrent invocations, a barrier, a pause, over an arbitrary nondecreasing clock |
| `Energy.dfy`, `Decimation.dfy` | windows against samples: clocks, the active/idle split, trapezoid energy, decimation |
| `SaafLogs.dfy`, `PerfPivot.dfy` | the log parser and the two pivots of perf's rows |
| `Addressing.dfy`, `Capacity.dfy`, `CpuPool.dfy`, `CpuSet.dfy` | names and addresses of an instance, admission and quotas, the NUMA-ordered CPU pool and its complement |
| `HostState.dfy` | what a launch creates on the host, and the preamble, trap and kill script that remove it, with VM processes acting on their own in between |
| `EndToEnd.dfy` | the links: experiment and sampler discharge what the energy bound asks; the payload list fits the workers |
| `Text.dfy`, `Decimal.dfy`, `Sorting.dfy`, `Sequences.dfy`, `Arithmetic.dfy`, `Reals.dfy`, `Wrappers.dfy` | joining, splitting and searching strings, numerals, sorting, multiplicities, division, sums, Option and Result |

Times, watts, joules and ratios are exact reals; shell and Python integers are unbounded, and the
counters' modulus 2^32 is written out. Code that updates state in place is a class or a method with
loops, proved against a function or a step relation; what the source promises is proved about those.

## Where the code and its prose differ

The model follows the code. Each of these is proved.

- `common.sh:118` promises as few nodes as possible. That holds for every pool size exactly on hosts
  whose node sizes do not increase with the node number (`CpuPool.FewestNodesExactly`).
- `function_scripts/saaf_driver.py:9` and `docs/function_scripts.md:271` promise one request in flight
  per endpoint. The limit is one per worker; it is one per address exactly when no two function files
  name the same address (`Workers.OneInFlightExactly`).
- `power-scripts/fc_analyze_pkg.py:260-263` documents a log header that `function_scripts/invoke.sh:52`
  does not print: its header names the instance and is not recognised, so its logs yield no response
  (`SaafLogs.InvokeLogYieldsNothing`). The round trip is proved for the documented format.
- `run_firecracker.sh:182-186` says the pool is cleared unconditionally. It is cleared unless the cgroup
  cannot be used or the preamble ends before it, as on a rejected `OVERSUB`
  (`HostState.PreambleForgetsThePast`). A preamble that ends early does so before its trap is registered,
  so what it made stays (`HostState.RunLeavesNoTrace`).
- `run_firecracker.sh:274-275` says a failure part-way through the launch loop still tears everything
  down. A signal there runs the trap, which unregisters itself and returns, so the loop may fork one
  more VM that nothing tears down (`HostState.Host.SignalledLaunch`).
- `kill_firecracker.sh:2` stops all running VMs. A process remains exactly when it did not end by itself
  and no step reached it: without a socket of its own while others have one, or heedless of the request
  and without a pid file; and, when no socket was found, still in its launching shell or heedless of
  SIGTERM (`HostState.Host.KillAll`).
- Both samplers take counters to wrap at 2^32. For another modulus they are off by 2^32 minus that
  modulus per wrap (`Samplers.ReportedAcrossWraps`), and an advance of 2^32 or more between two reads
  loses whole turns (`Samplers.ExactUnlessTurnsAreHidden`).
- Two hwmon sensors of one label are compared with each other: the samplers agree exactly when the
  labels are distinct (`Samplers.MatchesRaplExactly`).
- Windows of concurrent VMs can overlap (`Rounds.OverlapReachable`). The energies attributed to windows
  stay within every trace exactly when no two of them overlap (`Energy.BoundHoldsExactly`), which an
  experiment guarantees exactly with at most one VM or no round (`EndToEnd.EnergyBoundExactly`).
- The analysis pairs two events' series by index once their lengths agree, the feature table by time.
  The pairing is right at shared timestamps exactly when these stand at the same index, which it is
  throughout exactly when the events have the same timestamps (`PerfPivot.PairingByIndexExactly`,
  `PerfPivot.AlignedExactly`).
- The fallback quota of `run_firecracker.sh:125` can never apply (`Capacity.QuotaPositive`).

## Model

| member | source | states |
|---|---|---|
| `Workers.StepKeepsInv` | function_scripts/saaf_driver.py:112-138 | every step of every worker, whatever the request meets with, keeps the invariant: a worker's records are exactly the usable ones among its finished runs in run order, kept plus dropped equals finished runs, and the requests on the wire to an address are the workers waiting on it |
| `Workers.ReachableInv` | function_scripts/saaf_driver.py:112-150 | that invariant holds in every state reachable under any interleaving of the workers and of the pool's submissions |
| `Workers.ClosedResults` | function_scripts/saaf_driver.py:112-150 | when the pool closes, on any schedule, `results` is a merge of the endpoints' lists of usable runs in increasing run id, kept plus dropped runs equal runs per endpoint times endpoints, and no request is left on the wire |
| `Workers.EachRunAtMostOnce` | function_scripts/saaf_driver.py:137 | in every reachable state no two records are of the same run of the same thread, whatever their contents |
| `Workers.EveryUsableRunRecorded` | function_scripts/saaf_driver.py:112-138 | when the pool closes, on any schedule, every run with a usable response has its record |
| `Workers.RunsInOrder` | function_scripts/saaf_driver.py:114-137 | in every reachable state the records of one thread are in increasing run order, however they mix with those of others |
| `Workers.ScheduleIndependent` | function_scripts/saaf_driver.py:141-150 | two schedules of the same outcomes end with the same multiset of results and the same number of drops |
| `Workers.StepUsesWork` | function_scripts/saaf_driver.py:112-138 | every step lowers a bounded measure, so no schedule goes on for ever |
| `Workers.ScheduleBound` | function_scripts/saaf_driver.py:144-149 | no schedule is longer than one submission per endpoint and three steps per run |
| `Workers.SomeStepEnabled` | function_scripts/saaf_driver.py:144-149 | in every reachable state short of the closed one some step can be taken: the pool cannot deadlock |
| `Workers.OneInFlightExactly` | function_scripts/saaf_driver.py:9 | the promise "one in-flight request per endpoint" holds for all schedules if and only if the endpoint addresses are pairwise distinct; otherwise a schedule with two is exhibited |
| `Workers.Pool.DoReturn` | function_scripts/saaf_driver.py:117-125 | a response or an exception takes the request off the wire; an exception drops the run and moves on to the next |
| `Workers.Pool.DoSettle` | function_scripts/saaf_driver.py:127-138 | a response that cannot be parsed or has no version drops the run, any other appends one record with the run's own payload; either way the worker goes on to its next run |
| `Workers.Pool.Turn` | function_scripts/saaf_driver.py:112-150 | one step in place is one step of the relation, and there always is one until the pool closes |
| `Workers.Pool.Run` | function_scripts/saaf_driver.py:141-150 | updating the shared lists in place under an arbitrary scheduler terminates, in a closed state reachable by the step relation |
| `Payloads.BuildPayloadList` | function_scripts/saaf_driver.py:74-83 | the list is the least positive number of whole copies that covers the runs; slot j carries payload j mod m, or, shuffled, payload order(j) mod m for the generator's permutation |
| `Payloads.Copies` | function_scripts/saaf_driver.py:78-80 | the number of copies is the least positive one whose entries cover the runs |
| `Payloads.CopiesIsCeiling` | function_scripts/saaf_driver.py:78-80 | that number is max(1, ceiling of runs / m) |
| `Payloads.SlicesConcatenate` | function_scripts/saaf_driver.py:145-148 | the endpoint slices, Python clamping included, have runs-per-endpoint entries each and concatenate to the first runs entries of the list |
| `Payloads.RotationIsBalanced` | function_scripts/saaf_driver.py:78-83 | unshuffled, every payload position is sent floor(runs / m) or ceiling(runs / m) times |
| `Payloads.ShuffleIsBounded` | function_scripts/saaf_driver.py:81-82 | shuffled, every payload position occurs exactly as often as there are copies, so none is sent more than max(1, ceiling(runs / m)) times |
| `Payloads.OriginsPermuted` | function_scripts/saaf_driver.py:81-82 | the shuffled list is a permutation of the unshuffled one |
| `PostProcess.SanitizeIsOnePass` | function_scripts/saaf_driver.py:106-108 | the three successive replacements equal one pass that maps each character on its own |
| `PostProcess.SanitizeChar` | function_scripts/saaf_driver.py:108 | a comma becomes a semicolon, a tab and a line end become escapes, every other character stays |
| `PostProcess.ReportLineSplitsBack` | function_scripts/saaf_driver.py:106-108 | comma-joined sanitised values split back into exactly those values, and stay on one line |
| `PostProcess.ReportReadsBack` | function_scripts/saaf_driver.py:106-108 | the value lines of a report read back, line by line and field by field, as the same table, whatever the values were; the header of unsanitised keys is not covered |
| `Combine.TagIteration` | function_scripts/saaf_driver.py:208-211 | in place, every record of the iteration gets its iteration number and, where it names a VM, the VM's tag |
| `Combine.CombineIterations` | function_scripts/saaf_driver.py:203-212 | the combined list is the iterations from the warm-up on, in order; each record is tagged once with its own iteration; records of warm-up iterations stay untouched |
| `Combine.TagIsInjective` | function_scripts/saaf_driver.py:211 | VM and iteration can be read back from the tag: different pairs never get the same one |
| `Combine.TagAddsOnly` | function_scripts/saaf_driver.py:208-211 | tagging sets the iteration, read back as its number, and beside a VM the VM's tag; every other field stays as it was |
| `Combine.BetweenInOrder` | function_scripts/saaf_driver.py:205-212 | iterations come in order and whole: iteration i directly follows all earlier ones that are kept |
| `Samplers.Watts` | power-scripts/fc_rapl.py:33-40 | every domain read twice gets (difference, plus 2^32 when negative) / 10^6 / dt; no other domain, and none at all when no time passed |
| `Samplers.RaplSampler.Run` | power-scripts/fc_rapl.py:65-83 | the loop stops after the first tick at or past the duration, and each row compares its reading with the whole previous reading |
| `Samplers.RowBound` | power-scripts/fc_rapl.py:68-83 | with wake-ups no closer than the interval a run writes at most max(1, ceiling of duration / interval) rows |
| `Samplers.RowTimes` | power-scripts/fc_rapl.py:70-78 | row i shows the time of tick i since the start |
| `Samplers.ReportedAcrossWraps` | power-scripts/fc_rapl.py:33-40 | for a counter of any modulus advancing by less than it between reads, the rows written, watts times the time from one row to the next, add up to the true energy plus (2^32 - modulus) per wrap |
| `Samplers.ReportedIsTrueEnergy` | power-scripts/fc_rapl.py:33-40 | with the code's modulus 2^32 the reported energy is the true one, across any number of wraps |
| `Samplers.ExactUnlessTurnsAreHidden` | power-scripts/fc_rapl.py:33-40 | for a 32-bit counter the report is exact if and only if no advance between two reads is 2^32 or more |
| `Samplers.ReportedWithoutTurns` | power-scripts/fc_rapl.py:33-40 | in general the report misses exactly 2^32 per whole turn hidden between two reads |
| `Samplers.ArmSampler.Pass` | power-scripts/fc_arm_power.py:118-127 | one pass over the sensors in place reports a value wherever this and the previous reading exist, and remembers this reading per label |
| `Samplers.ArmSampler.Run` | power-scripts/fc_arm_power.py:100-131 | the ARM loop stops as the RAPL loop does and writes one row per tick from the remembered readings |
| `Samplers.PassRemembers` | power-scripts/fc_arm_power.py:119-127 | a pass leaves in prev_energy exactly what it read, unreadable sensors as None, and no other change |
| `Samplers.PassReports` | power-scripts/fc_arm_power.py:118-126 | over distinct labels a pass reports exactly the sensors readable now and before, from those two values |
| `Samplers.ArmMatchesRapl` | power-scripts/fc_arm_power.py:118-127 | refinement: for distinct labels, remembering an optional value per sensor writes, on the same readings, exactly the rows of replacing the whole dictionary, however sensors come and go |
| `Samplers.SharedLabelMixesSensors` | power-scripts/fc_arm_power.py:118-127 | for every label list with a repeated label, one tick from all zeros to sensor i reading i + 1 gives different rows: two sensors of one label are compared with each other |
| `Samplers.MatchesRaplExactly` | power-scripts/fc_arm_power.py:118-127 | the two samplers write the same rows for all readings and all runs if and only if no two sensors share a label |
| `Energy.IntegratePerWindow` | power-scripts/fc_analyze_pkg.py:359-366 | the list holds, in window order, the trapezoid energy of each window with at least two samples |
| `Energy.TrapzOfLine` | power-scripts/fc_analyze_pkg.py:365 | for watts on a line, p + q * x, the trapezoids give the exact area: the time span times the mean of the watts at its ends |
| `Energy.WindowOfTrace` | power-scripts/fc_analyze_pkg.py:363-365 | a window that reaches from the first to the last sample, ends included, has the energy of the whole trace |
| `Energy.MaskedIsBridged` | power-scripts/fc_analyze_pkg.py:363-365 | in a time-ordered trace masking cuts no segment: a window's energy is the sum of the trace's segments with both ends inside |
| `Energy.EnergyIsConserved` | power-scripts/fc_analyze_pkg.py:359-366 | for windows with disjoint interiors the window energies and the energy outside all windows add up to the energy of the trace |
| `Energy.WindowEnergiesWithinTrace` | power-scripts/fc_analyze_pkg.py:359-366 | with nonnegative watts the window energies never add up to more than the trace |
| `Energy.WideningKeepsEnergy` | power-scripts/fc_analyze_pkg.py:359-366 | widening a window never lowers its energy |
| `Energy.OverlapCountsTwice` | power-scripts/fc_analyze_pkg.py:359-366 | whenever two windows of a list overlap, some trace is charged for at least twice all the energy it holds |
| `Energy.BoundHoldsExactly` | power-scripts/fc_analyze_pkg.py:359-366 | the window energies stay within the trace for every time-ordered, nonnegative trace if and only if the windows have disjoint interiors |
| `Energy.SplitActiveIdle` | power-scripts/fc_analyze_pkg.py:342-357 | both buckets, with the default padding of two median sample spacings or 0.5: the watts, in order, of the samples inside respectively outside every padded window |
| `Energy.SortReals` | power-scripts/fc_analyze_pkg.py:352 | the median is taken of the sample spacings in ascending order, each exactly as often as it occurs |
| `Energy.MedianIsMiddle` | power-scripts/fc_analyze_pkg.py:352 | for values given in ascending order in any way, the median is the mean of the two in the middle from either end, the same one for an odd number |
| `Energy.SteadyPad` | power-scripts/fc_analyze_pkg.py:345-352 | for samples at a steady rate the default padding is two sample intervals |
| `Energy.SplitReassembles` | power-scripts/fc_analyze_pkg.py:354-356 | the two buckets interleave back to the original samples in order |
| `Energy.SplitIsPermutation` | power-scripts/fc_analyze_pkg.py:354-356 | no sample is lost, duplicated or invented by the split |
| `Energy.ClockOrigin` | power-scripts/fc_analyze_pkg.py:120-132 | the origin comes from the first row that has both clocks; None when no row has |
| `Energy.LoadInvocationWindows` | power-scripts/fc_analyze_pkg.py:134-170 | all windows come from one clock: aligned wall clock when the trace has an origin and some row has both timestamps, else the loop's own clock |
| `Energy.WindowsAppend` | power-scripts/fc_analyze_pkg.py:143-168 | by either clock, rows contribute their windows one after the other |
| `Energy.WindowsOfRow` | power-scripts/fc_analyze_pkg.py:143-168 | a row has its window by a clock, from its start to its end, exactly when it carries both timestamps of that clock |
| `Energy.AlignmentChangesNothing` | power-scripts/fc_analyze_pkg.py:143-160 | working in the RAPL frame gives the same split, with the default padding too, and the same energies as working by wall clock |
| `Energy.PadAbsorbsClockError` | power-scripts/fc_analyze_pkg.py:345-355 | an origin off by at most pad never makes a sample truly inside an invocation idle, nor one more than 2 pad outside every invocation active |
| `Energy.LoadedWindowsTolerateSkew` | power-scripts/fc_analyze_pkg.py:120-162 | the same tolerance end to end, for the windows and the origin the loaders produce |
| `Decimation.BinsPartition` | power-scripts/fc_analyze_pkg.py:378-384 | exactly min(n, nbins) bins are emitted; they partition the samples; their widths differ by at most one |
| `Decimation.EdgeIsFloor` | power-scripts/fc_analyze_pkg.py:379 | each edge is the last sample index not behind its exact place i * n / nbins |
| `Decimation.BinIsBetweenEdges` | power-scripts/fc_analyze_pkg.py:379-388 | with at least as many samples as bins, bin j reaches from edge j to edge j + 1 |
| `Decimation.BinOfSample` | power-scripts/fc_analyze_pkg.py:381-384 | every sample lies in exactly one bin |
| `Decimation.Envelope` | power-scripts/fc_analyze_pkg.py:370-388 | the loop emits, for each non-empty bin in order, the mean time and the least and greatest value of its samples |
| `Decimation.EnvelopeIsFaithful` | power-scripts/fc_analyze_pkg.py:370-388 | every sample lies between its bin's lo and hi, and the overall minimum and maximum survive |
| `Decimation.DecimateMean` | power-scripts/fc_analyze_pkg.py:390-403 | the nested loop emits per series the means of the same bins |
| `Decimation.DecimationKeepsStackedTotals` | power-scripts/fc_analyze_pkg.py:390-392 | in every bin the decimated series add up to the decimation of their sum |
| `Decimation.DecimationKeepsSum` | power-scripts/fc_analyze_pkg.py:393-402 | the bin means weighted by bin width add up to the sum of all samples |
| `SaafLogs.LoadLog` | power-scripts/fc_analyze_pkg.py:279-301 | the line loop keeps the warm-start objects of the closed blocks in order, skips blocks that are not JSON or carry a bad count, and fails exactly when some block raises anything else |
| `SaafLogs.LoadSaafLogs` | power-scripts/fc_analyze_pkg.py:272-303 | over all logs: unreadable files are skipped, results are concatenated, and one raising block fails the whole load |
| `SaafLogs.AllBlocksAppend` | power-scripts/fc_analyze_pkg.py:273-279 | files contribute their blocks one after the other |
| `SaafLogs.AllBlocksOne` | power-scripts/fc_analyze_pkg.py:273-279 | one file contributes the closed blocks of its lines, or nothing when it cannot be read |
| `SaafLogs.KeptOne` | power-scripts/fc_analyze_pkg.py:292-298 | of one block exactly a warm-start object is kept |
| `SaafLogs.BlobIsLines` | power-scripts/fc_analyze_pkg.py:291 | the text handed to the JSON parser is the block's lines: splitting it at the line ends gives them back |
| `SaafLogs.StripsMargins` | power-scripts/fc_analyze_pkg.py:285-291 | stripping takes off exactly the white space at both ends |
| `SaafLogs.HeaderIsPattern` | power-scripts/fc_analyze_pkg.py:252-285 | the left-to-right matcher accepts exactly the lines whose stripped text has the form of the header pattern: two or more rule characters, the title, two or more rule characters, any white space between, then anything |
| `SaafLogs.FooterIsPattern` | power-scripts/fc_analyze_pkg.py:253-289 | and for footers exactly those that are two or more rule characters and nothing else |
| `SaafLogs.ParseInvertsWrite` | power-scripts/fc_analyze_pkg.py:255-303 | round trip: a log of framed responses with arbitrary non-header lines between them parses to exactly their bodies in order, and an unclosed last block adds nothing |
| `SaafLogs.DocumentedHeader` | power-scripts/fc_analyze_pkg.py:260-263 | the documented header, with rules of any length from two up, is recognised |
| `SaafLogs.DocumentedFooter` | power-scripts/fc_analyze_pkg.py:260-263 | the documented footer is recognised, and is no header |
| `SaafLogs.InvokeHeaderNotRecognised` | function_scripts/invoke.sh:52 | the header invoke.sh prints names the instance and is not recognised, for any instance and rule lengths |
| `SaafLogs.InvokeLogYieldsNothing` | function_scripts/invoke.sh:42-115 | so a log written by invoke.sh, progress and closing lines included, yields a block if and only if the response itself contains a header line, and else nothing |
| `PerfPivot.GroupByEvent` | power-scripts/fc_analyze_pkg.py:182-197 | every event with a valid row, and no other, gets the sorted list of its points |
| `PerfPivot.GroupByTime` | power-scripts/fc_ml_metrics.sh:69-81 | every timestamp gets a row, and each cell holds the value of the last long row that hits it |
| `PerfPivot.PivotsAreTransposes` | power-scripts/fc_ml_metrics.sh:69-95 | with one row per time and event and no two recorded events under one underscored key, (t, v) is in an event's series if and only if the wide row at t holds v |
| `PerfPivot.TransposedExactly` | power-scripts/fc_ml_metrics.sh:77-95 | with one row per time and event, the pivots are transposes whatever was measured if and only if no two recorded events share an underscored key |
| `PerfPivot.DashesOnlyDistinct` | power-scripts/fc_ml_metrics.sh:25-41 | events named without underscores, as in every event list of the script, never share a key |
| `PerfPivot.NoRowIsLost` | power-scripts/fc_analyze_pkg.py:184-190 | when no two recorded rows go into one cell, every valid row shows up in both pivots |
| `PerfPivot.NoRowIsLostExactly` | power-scripts/fc_ml_metrics.sh:77-80 | no row is ever lost, whatever was measured, if and only if no two recorded rows go into one cell of the wide table |
| `PerfPivot.AlignedExactly` | power-scripts/fc_analyze_pkg.py:193-207 | with one row per time and event, two series have equal lengths and equal times index by index if and only if the events' valid rows have the same timestamps |
| `PerfPivot.SeriesIncreases` | power-scripts/fc_analyze_pkg.py:193-196 | with one row per time and event the times of a series strictly increase |
| `PerfPivot.PairingByIndexExactly` | power-scripts/fc_analyze_pkg.py:200-207 | for given timestamps of equal number the ratios are right at every shared one, whatever was measured, if and only if every shared timestamp stands at the same index in both series |
| `PerfPivot.RatiosAgree` | power-scripts/fc_analyze_pkg.py:200-207 | under that condition the analysis and the wide row give the same ratio at every shared timestamp with a nonzero divisor |
| `PerfPivot.RatiosAgreeOnSameTimes` | power-scripts/fc_ml_metrics.sh:96-99 | for events with the same timestamps they agree at every one with a nonzero divisor, with no further condition |
| `PerfPivot.RatioAcrossTimes` | power-scripts/fc_analyze_pkg.py:204-207 | rows of two events at 1, 2 and 2, 3 seconds share 2 seconds, where the analysis divides by what was measured at 3 and the wide row by what was measured at 2 |
| `Rounds.StepKeepsInv` | power-scripts/fc_experiment.sh:288-328 | every step of the loop, a process or the clock keeps the invariant relating rows, rounds and the barrier |
| `Rounds.OneRowPerInvocation` | power-scripts/fc_experiment.sh:318-328 | after the loop each (round, instance) has exactly one row, and there is no other row |
| `Rounds.RoundsDoNotOverlap` | power-scripts/fc_experiment.sh:318-328 | at any time every window of a round ends before any window of a later round begins |
| `Rounds.RowsAreTimed` | power-scripts/fc_experiment.sh:288-312 | in every reachable state each row's two timestamps are the clock at the beginning and at the later end of its own process in its own round, cut to milliseconds: at most the clock and less than 1 ms before it |
| `Rounds.RoundsArePaused` | power-scripts/fc_experiment.sh:317-328 | windows of different rounds are apart by at least the pause, but for the millisecond cut off |
| `Rounds.SingleVmWindowsDisjoint` | power-scripts/fc_experiment.sh:318-328 | with one VM any two windows are interior-disjoint |
| `Rounds.OverlapReachable` | power-scripts/fc_experiment.sh:318-328 | with two VMs and a round some schedule records two windows that overlap |
| `Rounds.NeverOverlapsExactly` | power-scripts/fc_experiment.sh:318-328 | no two windows overlap, whatever the schedule, if and only if there is at most one VM or no round |
| `Rounds.SomeStepEnabled` | power-scripts/fc_experiment.sh:326 | the barrier cannot hang: some process or the loop itself can always move |
| `Rounds.Experiment.Do` | power-scripts/fc_experiment.sh:288-328 | one event in place is one step of the relation |
| `Rounds.Experiment.Wait` | power-scripts/fc_experiment.sh:326 | awaiting one process ends with it done, while the others move on arbitrarily and lose no ground |
| `Rounds.Experiment.Round` | power-scripts/fc_experiment.sh:318-327 | fork all, await each, pause: the round ends at the next one with no process left and the pause over |
| `Rounds.Experiment.Run` | power-scripts/fc_experiment.sh:317-328 | the loop, however processes and clock behave, terminates with one row per round and instance and ordered rounds |
| `CpuPool.CpuList` | common.sh:119-125 | every CPU of the host exactly once, ordered by node, socket, core, CPU; ids are distinct when lscpu's are |
| `CpuPool.CpuListShowsRows` | common.sh:119-125 | every entry has the CPU, core and socket of a row of lscpu and its node, or 0 where that column is empty; every row has such an entry, and there are as many entries as rows |
| `CpuPool.CpuListOrder` | common.sh:119-125 | along the list node numbers do not decrease, within a node sockets do not, within a socket cores, within a core CPU numbers |
| `CpuPool.AtMostOneGroupPartlyTaken` | common.sh:115-118 | taking the first m leaves at most one node, one socket and one core partly taken |
| `CpuPool.FewestNodesExactly` | common.sh:117-118 | "as few nodes as possible" holds for every pool size if and only if node sizes do not increase with the node number |
| `CpuPool.EqualNodesSpanCeiling` | common.sh:117-118 | with equal nodes of s CPUs, m CPUs span exactly the ceiling of m / s nodes, and no other choice of m CPUs spans fewer |
| `CpuPool.TakePool` | common.sh:129-141 | succeeds exactly when 1 <= want <= host CPUs; then the first want CPUs in order, and exactly their nodes, ascending |
| `CpuSet.Expand` | common.sh:157-168 | the loops print the expansion of every field in order, for ranges between numerals without leading zeros |
| `CpuSet.ExpandInvertsRender` | common.sh:154-168 | expanding a list in the List Format of cpuset(7) yields exactly the integers of its singles and ranges, so the count is the sum of their widths |
| `CpuSet.ExpandInvertsCommaList` | common.sh:138-168 | expanding the comma list fc_cpu_pool prints gives back the selected CPUs in order |
| `CpuSet.SearchIsMembership` | common.sh:148 | the space-padded substring test is set membership on decimal ids |
| `CpuSet.CpuNodes` | common.sh:144-150 | exactly the nodes of the selected CPUs, ascending |
| `CpuSet.CountAndListAgreeOnNodes` | run_firecracker.sh:197-206 | a pool given as a count and the same pool given as its list bind memory to the same nodes |
| `CpuSet.ReservedCpus` | common.sh:182-190 | the pool CPUs' hyperthread siblings, each once, ascending |
| `CpuSet.FreeCpus` | common.sh:193-202 | exactly the CPUs below the host count outside the reserved ones, as a comma list; nothing when nothing is reserved |
| `CpuSet.FreeExactly` | common.sh:176-202 | a CPU is free exactly when the host has it and it is in no pool CPU's list of siblings |
| `CpuSet.FreeCpusShareNoCore` | common.sh:176-179 | for a symmetric sibling relation no free CPU shares a core with a pool CPU, in either direction, and none is a pool CPU |
| `CpuSet.FreeTextExpands` | common.sh:192-202 | the printed list expands to the free CPUs again |
| `Capacity.MemCapacity` | common.sh:102-111 | the capacity c admits exactly the positive n with n * (mem + overhead) + reserve <= total |
| `Capacity.CapacityAdmits` | common.sh:102-111 | n VMs are admitted exactly when n * mem + n * overhead + reserve is at most the memory of the host; none when that is unknown |
| `Capacity.PlanFleet` | run_firecracker.sh:68-134 | a launch is planned exactly when the count is in range, memory is positive and the fleet fits; each refusal is given in exactly its case, and the reported capacity is the greatest that fits |
| `Capacity.QuotaIsShare` | run_firecracker.sh:123-124 | the quota is the period times memory over 1769, in whole microseconds, rounded down |
| `Capacity.QuotaPositive` | run_firecracker.sh:124-125 | the fallback quota of 1000 us is unreachable |
| `Capacity.VcpusCoverMemory` | run_firecracker.sh:131-134 | above 1769 MiB the vCPU count is the least that covers the memory; up to it, it is the template's count |
| `Capacity.QuotaMatchesVcpus` | run_firecracker.sh:123-134 | the quota never exceeds vCPUs times period, and above 1769 MiB exceeds (vCPUs - 1) times period |
| `Capacity.OversubPool` | run_firecracker.sh:174-180 | the pool size is the least positive integer c with c * r >= N * vCPU |
| `Capacity.OversubLeast` | run_firecracker.sh:174-180 | the pool carries the request, and one CPU less would not, unless it is a single CPU |
| `Capacity.MeteredDemandWithinRatio` | run_firecracker.sh:123-180 | metered demand over that pool never exceeds r |
| `Addressing.PrintedAddresses` | common.sh:64-65 | the printed host and guest addresses, read back, are 172.16.0.0 + 4k + 1 and + 2 |
| `Addressing.BlocksTile` | common.sh:32-35 | the /30 blocks (prefix notation of section 3.1 of RFC 4632) of k = 0..16383 tile 172.16.0.0/16 exactly |
| `Addressing.UsableAddresses` | common.sh:64-65 | host and guest are distinct and never their block's network or broadcast address (section 3.2.1.3 of RFC 1122) |
| `Addressing.MacCarriesGuestAddress` | common.sh:66 | the last four octets of the printed MAC decode to the guest address, and k can be recovered from them |
| `Addressing.TapNamesDistinct` | common.sh:63 | no two instances share a tap name |
| `HostState.Host.SetupTaps` | function_scripts/setup_tap.sh:37-47 | devices 0..n-1 are new with exactly their own address, whatever was there; the others stay as they were |
| `HostState.FreshTapAddress` | function_scripts/setup_tap.sh:37-47 | a new device is up and has one address, which reads back as the host address of its instance, with prefix 30 |
| `HostState.DrivesEndExactly` | run_firecracker.sh:247-271 | the drive loop completes if and only if no command of a drive fails, and else ends at the first that does |
| `HostState.Host.MakeDrives` | run_firecracker.sh:247-271 | a blank drive and a configuration per instance up to the first command that fails; of the failing one what that command left |
| `HostState.Host.Prepare` | run_firecracker.sh:101-271 | where the preamble ends, at a check before the pool, the pool, a command of a drive, or not early, and the whole state there in terms of the requested launch, the untouched taps and the old pool |
| `HostState.EndOfExactly` | run_firecracker.sh:101-271 | the preamble ends at the ratio exactly when that is rejected, at the pool exactly when a requested pool can be tried and is refused, and completes exactly when no command fails |
| `HostState.PreambleForgetsThePast` | run_firecracker.sh:99-271 | two hosts in any two conditions left by dead runs agree, wherever the preamble ends, on everything a launch of n instances sees; on the pool too if and only if the preamble got to it with a usable cgroup or they agreed before |
| `HostState.Host.VmTurn` | run_firecracker.sh:307-326 | one action of one VM process, end, join its leaf, become Firecracker or serve: at most its own socket and its own leaf change; Firecracker refuses only when its socket exists |
| `HostState.Host.StartInstance` | run_firecracker.sh:298-328 | an iteration forks one VM unless the first command fails, leaves every live process recorded, and refuses none; when it succeeds, every live VM has the pid file of its instance naming it, if that held before; every VM stays metered by the quota and serves its own socket |
| `HostState.Host.StartAll` | run_firecracker.sh:298-329 | the launch loop passes exactly when no command fails; then the pid file of each live VM's instance names that VM; its leaf, once joined, holds the requested quota, and a running VM has its socket |
| `HostState.ForksUpToFailure` | run_firecracker.sh:298-329 | when iteration m is the first with a failing command, instances 0 to m are forked in order, m itself only if its first command passed |
| `HostState.LateForkExactly` | run_firecracker.sh:276-329 | an instance is forked behind the trap exactly when it is the next one the interrupted loop has to fork, everything up to there passed, and the signal did not come between fork and record |
| `HostState.Host.RemoveDevices` | run_firecracker.sh:285-288 | taps below n go; a leaf stays only while it holds a process |
| `HostState.Host.Cleanup` | run_firecracker.sh:277-292 | whatever the VM processes do meanwhile, the trap ends with no process, socket, pid file, drive, configuration, tap or leaf below n and no pool, and touches no tap or leaf from n up |
| `HostState.Host.Launch` | run_firecracker.sh:293-335 | the same end state for a launch that fails at any iteration and command or runs to the end; the VMs forked are exactly those of the iterations up to the first failure, and the trap runs once behind them; started on clean sockets, no VM was refused its own |
| `HostState.RunLeavesNoTrace` | run_firecracker.sh:99-335 | of a whole run no tap below n remains if and only if the preamble completed; then, however the launch ends, no process, socket, drive, configuration, leaf or pool remains either; else exactly what the preamble had made, and a stale pool it did not get to |
| `HostState.Host.SignalledLaunch` | run_firecracker.sh:276-329 | a signal inside the launch loop runs the trap, which returns: the record of what happened shows one more fork behind the trap exactly when the loop has another VM to fork and no command fails before it, and nothing else; then at most that process, which cannot serve, and its leaf remain, else nothing |
| `HostState.Host.ForkLate` | run_firecracker.sh:307-328 | the VM is forked behind the trap, gets no socket and never serves; no other instance's leaf changes |
| `HostState.Host.AskToHalt` | kill_firecracker.sh:32-36 | every process serving the socket of a discovered instance that obeys is gone, and otherwise only processes that ended by themselves, while VMs go on acting |
| `HostState.Host.KillByPidFile` | kill_firecracker.sh:42-50 | every process named by the pid file of a discovered instance is gone, and otherwise only processes that ended by themselves, while VMs go on acting |
| `HostState.Host.Pkill` | kill_firecracker.sh:27-30 | exactly the processes that are Firecracker by then and heed the signal go; one still in its launching shell does not match |
| `HostState.Host.KillAll` | kill_firecracker.sh:25-67 | with VMs acting between the steps, a process remains if and only if it did not end by itself and was not reached: by the request to its socket or by its pid file, or, when no socket was found, by pkill; taps, sockets and pid files go, drives and configurations unless -k |
| `HostState.KillStopsKnownVms` | kill_firecracker.sh:25-51 | when every VM has its socket and its pid file, no VM survives |
| `HostState.KillReachesLaunchedFleet` | kill_firecracker.sh:25-51 | a fleet that was launched completely has its pid files, so the kill script leaves no VM of any instance whose socket it finds |
| `EndToEnd.TraceIsSound` | power-scripts/fc_rapl.py:65-83 | a sampler's trace is time-ordered and nonnegative for counter readings of 32 bits, which is what the energy bound asks of samples |
| `EndToEnd.ColumnHasRows` | power-scripts/fc_analyze_pkg.py:110-118 | a trace has exactly one sample for each row that has the domain: its time and its watts |
| `EndToEnd.SingleVmInteriorsDisjoint` | power-scripts/fc_analyze_pkg.py:134-162 | the windows loaded from an experiment with at most one VM have disjoint interiors, which is what the energy bound asks of windows |
| `EndToEnd.InvocationEnergyWithinTrace` | power-scripts/fc_analyze_pkg.py:359-366 | end to end: for every experiment with at most one VM and every sampler run the energies attributed to the invocations never exceed the energy of the trace |
| `EndToEnd.EnergyBoundExactly` | power-scripts/fc_analyze_pkg.py:359-366 | for everything an experiment may record and every power trace, the energies stay within the trace if and only if there is at most one VM or no round |
| `EndToEnd.WorkersReadTheirSlices` | function_scripts/saaf_driver.py:145-149 | the built list is long enough for the workers, and run r of worker t carries entry r of its own slice |
| `EndToEnd.RecordsCarryTheirSlices` | function_scripts/saaf_driver.py:112-149 | in every reachable state, on any schedule, each record carries entry `run` of its own endpoint's slice and the text that came back for that run |

## Left out

- Drawing, table printing and file writing: presentation only.
- HTTP, curl, sudo, mkfs, iptables, jq, perf, turbostat: foreign tools; only their effect on the host state, or an arbitrary outcome, is kept. Routes and NAT rules are not part of the model.
- JSON parsing is an uninterpreted function of the block's text. SAAF's `report()` and `write_file()` are not part of this model.
- The random generator is an arbitrary permutation for each list length; that a seed always gives the same one is kept by its being a function.
- `np.polyfit`, `np.interp`, `np.corrcoef`, floating-point rounding, the rounding of CSV columns, and the two-decimal demand and ratio that are printed.
- `np.linspace(0, n, nbins + 1).astype(int)` is taken as the exact integers `i * n / nbins`; a float edge that lands below an integer is not modelled.
- HostState: `kill -9`, and fork together with the recording of the process id, are single steps; process ids are not reused; a VM alive from an earlier run is excluded before a launch.
- HostState: a second signal while the trap runs, which the script no longer catches. Where the signal also kills the foreground command, the launch loop counts that command as failed.
- HostState: failures of the commands before the taps and of single tap commands, which setup_tap.sh does not stop on, signals before the trap is registered, and the memory nodes of the pool. A leaf that cannot be created, metered or joined, which the launcher only warns about.
- CpuSet.Expand: numerals with leading zeros, which the shell reads as octal in ranges, and fields whose dash is not between two numerals; the kernel prints neither.
- Capacity.PlanFleet: arguments are numbers already; the patterns that reject other text, the CPU_MAX override and unmetered runs are not modelled.
- Capacity.OversubPool: the ratio is a positive real; the pattern also lets text such as 1.2.3 through, which awk reads as 1.2.
- SaafLogs: a log is given as its list of lines and the logs in file-name order; `str.splitlines` and the order itself are not modelled. What an exception other than a parse error does is kept only as the failure of the load.
- PerfPivot.GroupByTime: splitting of raw lines into fields, the order of the written rows and the restriction of columns to the requested events.
- Samplers: the raw, not derived, hwmon columns, and sensors that fail between two reads within one pass.
- Samplers.RowBound: assumes that sleep() never wakes early.
- Rounds: the clock is nondecreasing. The exit codes and the elapsed columns of a row are not modelled, nor is the sizing of the collectors' duration, which rests on an estimate.
- Payloads.BuildPayloadList: an empty payload list, for which the loop does not end.
- The driver's iteration loop, its sleeps and its exit status, and the merging of parent payloads.
- `saaf_cpu_pcts`, `per_run_means`, `power_col`, `_zoom_xlim`, the statistics and their tables: field choice and averages without an invariant of their own.
- Guest benchmarks, `handler.py`, `Inspector.py`, install scripts and the remaining collectors: thin wrappers, I/O or data.
