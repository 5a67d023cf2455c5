# MillionWS verification

A Dafny model of the stateful parts of MillionWS, a WebSocket echo server and the load generator
and benchmark recorder that go with it, and proofs about them. `dafny verify dfyconfig.toml`
checks everything.

| File | What it models |
|---|---|
| `Dial.dfy`, `DialSafety.dfy`, `DialTightness.dfy`, `DialPending.dfy`, `DialRate.dfy` | the dial loop, its goroutines and the close callbacks, as a transition system with one step per atomic action |
| `Registry.dfy`, `RegistryLaws.dfy` | the registry of open connections: a class over a backing array, a slot map and tombstones, and laws of whole call histories |
| `Sender.dfy`, `Payload.dfy` | the send scheduler (carry, cursor, batches) and the message buffer that is overwritten in place |
| `Memory.dfy`, `Admission.dfy` | the Go memory limit, the admission guard, and the guard together with the upgrade handlers |
| `Ports.dfy` | the `-ports` parser and the list of listen addresses |
| `Recorder.dfy` | the recorder's loop and its choice of the peak sample |
| `Arithmetic.dfy`, `Counting.dfy`, `Cyclic.dfy`, `Decimal.dfy`, `Wrappers.dfy` | products, counting in sequences, walking a list round and round, decimal text, missing values |

## What is proved about the dial loop

The comment on `dialLoop` says that it keeps the number of open plus in-progress connections at
the target. It does not: it loads `active` and then `pending`, and goroutines that finish between
the two loads are missed by both. Call open connections plus dials in progress the load.

- The load can pass the target by x if and only if the target is positive and
  x(x-1)/2 + 1 <= inflight (`OvershootExactly`). Both directions are proved for every
  configuration: an invariant bounds every run, and for every x in range there is a run that
  reaches it. With the default of 200 dials in flight the worst case is 20 (`DefaultLimit`).
  The reason for the triangular number: the x-th dial too many needs x goroutines that finish
  between two loads, and every such race uses goroutines up. All of the excess can be open
  connections, with nothing in progress any more (`OpenOvershootExactly`).
- The promise in the comment holds in every run exactly when nothing can be dialed at all or the
  loads are not split with `active` first (`TargetKeptExactly`). Loading `pending` before
  `active`, or both in one action, would keep it.
- The same comment says that at most rate dials are started per second. In any stretch of any run
  the loop starts at most max(rate/100, 1) per tick, and it can use every tick up (`DialsPerTicks`,
  `TicksCanBeUsedUp`). In the 100 ticks of a second that is the rate rounded down to hundreds, and
  100 for any rate below that (`DialsPerSecondExactly`), so the promise is kept exactly when the rate
  is at least 100 or nothing can be dialed at all (`RateKeptExactly`).
- `active` can fall below zero, by as much as there may be dials in flight (`ActiveBelowExactly`).
- `pending` can pass the number of dials in flight, since a goroutine gives its token back first. Its
  exact maximum is target plus inflight (`PendingExactly`).

The transition system lets the scheduler do anything: goroutines and callbacks are interleaved
step by step, dials succeed or fail, and close callbacks come at any time after the dial of that
connection has begun, any number of times. Results therefore hold for every behaviour of the
connection library; runs that show a bound is reached use at most one close callback per
connection, after the connection is stored.

## Where code and documentation disagree

- `cmd/loadgen/main.go:144-145`: see above.
- `bench/local/record.py:235-238` reports a target as reached and held for some seconds. The time
  of the first sample at the target is never reset, so the target may have been missed in between
  (`MissedTargetIsReported`). The report can be trusted exactly in configurations that leave no room
  for a sample in between (`TargetReportExactly`); with a target that never changes a plateau time of
  one step is short enough as well (`FixedTargetReportExactly`). `TargetStopExactly` says when the loop
  stops for this reason.
- `bench/local/record.py:228-241` reports the best of all samples, `:252-257` the peak of those with a
  cgroup reading. Over whole runs the two agree exactly when every missing reading is so far from the end
  that the loop would have stopped for lack of growth, had nothing grown since (`PeaksAgreeExactly`).
- `cmd/loadgen/registry.go:18` and `:46-47` call a tombstone a connection that was closed before it was
  added. Repeated closes break that: a connection that is added once ends as a tombstone exactly when
  it is closed at least twice, at least once of it after the add (`TombstoneAfterAddExactly`), so the
  comments can be trusted exactly when the library closes a connection at most once
  (`CloseOnceExactly`). Whatever is repeated, and however often, a tombstone is left exactly when the
  last call and the last repeated call for the connection are closes (`TombstoneExactly`).

## Conventions

- The float64 carry of the send loop is an exact integer numerator over the interval. Shares of
  the cgroup limit are integer percentages, rounded down. 1.005, 0.995 and 0.98 are ratios of
  integers. Clock readings of the recorder are reals, one per call of the clock.
- `Wrap(k, n)` is k modulo n (`WrapIsMod`). `Batch`, `Add` and `Remove` are the registry's
  operations on values; the class methods are proved equal to them.
- Go's slices: the class keeps the backing array and its length. An append beyond the capacity
  moves to a larger array; by how much is the runtime's choice and here 2n + 1.
- The guard reads the memory in one action and reacts in a later one, as the program reads a file
  and stores an atomic flag afterwards; handlers run in between (`Admission.dfy`). `Guard.Tick` is the
  body of one tick.
- One connection is identified by the goroutine that dials it, since every dial makes a new one.

## Model

| member | source | states |
|---|---|---|
| DialTightness.OvershootExactly | cmd/loadgen/main.go:160-198 | some reachable state has x or more connections and dials above the target if and only if the target is positive and x(x-1) <= 2(inflight-1) |
| DialTightness.OpenOvershootExactly | cmd/loadgen/main.go:160-198 | the same excess as open connections: with every goroutine and callback returned, x or more above the target are stored in some reachable state under exactly the same condition |
| DialTightness.TargetKeptExactly | cmd/loadgen/main.go:144-165 | the documented bound holds in every run exactly when the target is not positive, no dial may be in flight, or the counters are not loaded active first |
| DialTightness.DefaultLimit | cmd/loadgen/main.go:78 | with 200 dials in flight the load never passes the target by more than 20, and some run passes it by 20 |
| DialTightness.CanOvershoot | cmd/loadgen/main.go:160-198 | the run of races: each further overshoot, with the number of goroutines left over |
| DialTightness.Race | cmd/loadgen/main.go:161-173 | j goroutines that finish between the two loads let a load less than j above the target start one more dial |
| DialTightness.ActiveBelowExactly | cmd/loadgen/main.go:110-116 | active reaches x below zero in some run, a remove counted before its add, exactly when the target is positive and x <= inflight |
| DialPending.PendingExactly | cmd/loadgen/main.go:161-174 | in any order of the loads, pending reaches x in some run exactly when the target and inflight are positive and x <= target + inflight |
| DialPending.StepKeepsPending | cmd/loadgen/main.go:161-174 | every atomic step keeps pending at most target plus inflight, with room for the dial that the spawner has admitted |
| DialPending.PendingCanReach | cmd/loadgen/main.go:161-174 | a run that gets there: failed dials that have only given back their token, and closes that are counted before their adds |
| DialSafety.OvershootIsTriangular | cmd/loadgen/main.go:160-198 | in every reachable state an overshoot x has x(x-1) <= 2(inflight-1), and the load is at most target plus inflight |
| DialSafety.OtherOrdersKeepTheTarget | cmd/loadgen/main.go:161 | with one combined load, or pending first, the load never passes the target |
| DialSafety.ActiveFirstStep | cmd/loadgen/main.go:160-198 | every atomic step keeps the invariant between overshoot, spawner position and goroutines that active does not count yet |
| DialSafety.NoOvershootStep | cmd/loadgen/main.go:161 | every atomic step keeps the stronger invariant of the other two load orders |
| DialSafety.OnlyLaunchAddsLoad | cmd/loadgen/main.go:172-198 | only starting a goroutine raises the load; every other step of a goroutine or callback keeps or lowers it |
| DialSafety.ReachableInv | cmd/loadgen/main.go:110-116 | in every reachable state active = stored - adds not counted + removes not counted, and likewise for pending, the semaphore, the gauge and the dial counters |
| DialSafety.DialerKeepsTokens | cmd/loadgen/main.go:164-174 | a step of a dial goroutine keeps the semaphore and pending equal to the goroutines that hold a token or are not done |
| DialSafety.DialerKeepsOpen | cmd/loadgen/main.go:194-197 | a step of a dial goroutine keeps active and the gauge equal to stored connections less those not counted or shown yet |
| DialSafety.DialerKeepsDials | cmd/loadgen/main.go:179-190 | a step of a dial goroutine loses no dial: unresolved, failed, refused, open or disconnected |
| DialSafety.CloserKeepsAccounts | cmd/loadgen/main.go:110-116 | a step of a close callback keeps all the accounts |
| DialSafety.OutcomesAreCounted | cmd/loadgen/main.go:110-190 | in every run the error counter is the number of dials that failed, and the disconnects are the connections taken out, less those still to be counted |
| DialSafety.QuiescentCounters | cmd/loadgen/main.go:110-198 | when nothing is under way active = gauge = stored, pending and the semaphore are empty, and dials = errors + refused + disconnects + open |
| DialSafety.NextTickDials | cmd/loadgen/main.go:154-172 | from a quiescent state the next tick starts a dial exactly when connections are missing and dials are allowed |
| DialSafety.RefusedMeansClosed | cmd/loadgen/main.go:192-197 | an add in the dial loop is refused exactly for a tombstone, and then a close callback for that connection has returned |
| DialRate.DialsPerTick | cmd/loadgen/main.go:150-172 | in every run, from a tick until the spawner waits again, as many goroutines are started as the loop variable says, at most rate/100 rounded down, or one for a rate below 100 |
| DialRate.DialsPerTicks | cmd/loadgen/main.go:150-172 | over any stretch of any run that begins while the spawner waits, the dials are at most that number times the ticks |
| DialRate.TicksCanBeUsedUp | cmd/loadgen/main.go:150-190 | if anything may be dialed, for every number of ticks some run starts exactly that many dials |
| DialRate.DialsPerSecondExactly | cmd/loadgen/main.go:144-172 | if anything may be dialed, some stretch of at most 100 ticks of some run starts x dials exactly when x is at most the rate rounded down to hundreds, or 100 for a rate below 100 |
| DialRate.RateKeptExactly | cmd/loadgen/main.go:144-150 | with 100 ticks a second, no stretch of 100 ticks of any run starts more dials than the rate exactly when the rate is at least 100, the target is not positive, or no dial may be in flight |
| DialRate.GivesUpUntilNextTick | cmd/loadgen/main.go:160-169 | in every run, once the spawner finds the target reached or all tokens taken, it starts nothing before the next tick |
| DialRate.NothingAfterStop | cmd/loadgen/main.go:155-157 | in every run nothing is started after the spawner has seen the end of the context |
| DialSafety.UrlsAreFair | cmd/loadgen/main.go:170-171 | in every run the dials of any two urls differ by at most one |
| Registry.Store.constructor | cmd/loadgen/registry.go:21-27 | an empty registry with the given capacity |
| Registry.Store.AddConn | cmd/loadgen/registry.go:31-44 | add on slice, slot map and tombstones is Add on the value, and keeps slot the inverse of conns, no repeats, tombstones disjoint, cells past the slice zero |
| Registry.Store.RemoveConn | cmd/loadgen/registry.go:48-65 | remove is Remove on the value and keeps the same invariant, including when the last connection is the removed one |
| Registry.Store.FillHole | cmd/loadgen/registry.go:56-64 | the swap with the last connection, the slot update and the zeroing of the freed cell |
| Registry.Store.Len | cmd/loadgen/registry.go:67-71 | the number of stored connections |
| Registry.Store.TakeBatch | cmd/loadgen/registry.go:75-90 | the filled batch and the next cursor, capped and wrapped |
| Registry.AddSets | cmd/loadgen/registry.go:29-44 | add on the abstract sets: stored exactly if neither tombstone nor stored, tombstone consumed |
| Registry.RemoveSets | cmd/loadgen/registry.go:46-65 | remove on the abstract sets: leaves the stored set, or becomes a tombstone |
| Registry.RemoveBySlot | cmd/loadgen/registry.go:56-64 | remove by slot: the last connection moves to the place of the removed one, every other keeps its own |
| RegistryLaws.ConnectionsAreIndependent | cmd/loadgen/registry.go:31-65 | in every history the status of a connection and the results of its calls depend on its own calls only |
| RegistryLaws.StoredIsAddedMinusRemoved | cmd/loadgen/registry.go:31-65 | with each call made at most once: stored is added minus removed, tombstones are removed minus added |
| RegistryLaws.CallsAgree | cmd/loadgen/registry.go:10-13 | the add and the remove of a connection both return true (add first) or both false |
| RegistryLaws.OrderDoesNotMatter | cmd/loadgen/registry.go:31-65 | two orders of the same calls leave the same stored set, number and tombstones |
| RegistryLaws.NetIsOpen | cmd/loadgen/registry.go:29-65 | in every history successful adds minus successful removes is the number stored |
| RegistryLaws.TombstoneExactly | cmd/loadgen/registry.go:31-65 | after any history, with any number of repeated calls: a connection is a tombstone exactly when its last call and its last repeated call (or its first, if none was repeated) are removes, and stored exactly when both are adds |
| RegistryLaws.TombstoneAfterAddExactly | cmd/loadgen/registry.go:46-54 | a connection added once is a tombstone exactly when it was closed after the add and closed at least twice in all |
| RegistryLaws.CloseOnceExactly | cmd/loadgen/registry.go:10-18 | no history with one add and at most m closes of a connection leaves it a tombstone exactly when m is at most 1 |
| RegistryLaws.DoubleCloseLeavesTombstone | cmd/loadgen/registry.go:51-54 | after any history two closes of a connection in a row leave a tombstone that refuses its next add |
| RegistryLaws.BatchHasNoRepeats | cmd/loadgen/registry.go:75-90 | a batch has min(n, total) stored connections, none twice, and the cursor ends inside the list, or at 0 when it is empty |
| RegistryLaws.BatchesWalk | cmd/loadgen/registry.go:73-90 | consecutive batches of an unchanged registry are one cyclic walk from the first cursor |
| RegistryLaws.BatchesAreFair | cmd/loadgen/registry.go:73-90 | so the visits of any two connections differ by at most one |
| RegistryLaws.RampCovers | cmd/loadgen/registry.go:31-90 | with adds but no removes between batches, from any cursor inside the list, once the visits number the current length every connection of the start was visited |
| RegistryLaws.DropLeavesOneOut | cmd/loadgen/registry.go:56-64 | for every list of two or more and every cursor, one removal leaves a connection stored and unvisited after as many visits |
| RegistryLaws.CoverageExactly | cmd/loadgen/registry.go:31-90 | coverage of the connections never dropped survives every history with at most m removals exactly when m is 0 or there was one connection |
| Sender.SendLoop.Accrue | cmd/loadgen/main.go:220-223 | n times the interval plus the new carry is the old carry plus total times step, and the carry stays below one connection |
| Sender.SendLoop.Take | cmd/loadgen/main.go:220-225 | whatever happened to the registry since n was computed: the batch has min(n, stored) connections, all stored now, none twice, and the cursor is inside the list again |
| Sender.SendLoop.Tick | cmd/loadgen/main.go:220-224 | one tick, when nothing changes the registry meanwhile |
| Sender.CarryConserves | cmd/loadgen/main.go:220-223 | for every sequence of totals, what was asked for plus the carry is the exact sum of the shares |
| Sender.CapExactly | cmd/loadgen/registry.go:82-84 | over an unchanged registry no tick asks for more than all connections, from any carry on, exactly when the interval is at least 100 ms |
| Sender.VisitsAreSpaced | cmd/loadgen/main.go:203-225 | consecutive visits of a connection are floor or ceil of interval/step ticks apart, exactly interval/step when it divides |
| Sender.AlwaysVisitedAgain | cmd/loadgen/main.go:203-225 | every visit is followed by another, that many ticks later |
| Sender.FirstVisit | cmd/loadgen/main.go:203-225 | every connection is visited within the first ceil(interval/step) ticks |
| Sender.DefaultSpacing | cmd/loadgen/main.go:79 | with the default interval of 30 s every connection is visited within 300 ticks and then exactly every 300 ticks |
| Payload.Buffer.constructor | cmd/loadgen/main.go:85-87 | the buffer has payload bytes, or 20 if that is fewer, all of them spaces |
| Payload.Buffer.Stamp | cmd/loadgen/main.go:226 | the text of the time is written over the head of the buffer in place; one that does not fit leaves it alone |
| Payload.ArrivesExactly | cmd/loadgen/main.go:95-105 | after any earlier sends, for every int64: the receiver reads the time just written if and only if its text is at least as long as every earlier one, or it is zero with only zeros behind |
| Payload.ClockArrives | cmd/loadgen/main.go:95-108 | with a clock that is not negative and does not go back every time arrives, in a message of payload bytes, at least 20, with spaces behind the time |
| Payload.ReceivedIs | cmd/loadgen/main.go:99-103 | what the receiver parses in any case: the new text and the stale digits of a longer one |
| Payload.MinimumIsExact | cmd/loadgen/main.go:85-87 | a buffer has room for every int64 exactly from 20 bytes on |
| Payload.ShorterTextIsMisread | cmd/loadgen/main.go:226 | 9 written after 10 is read as 90 |
| Decimal.ParsesExactly | cmd/loadgen/main.go:103 | the parser gives n for a text exactly when n fits 64 bits and the text is its digits, with zeros and a sign in front if need be |
| Memory.LimitManager.Tick | memory.go:64-79 | one tick: a failed read or a change within 1% leaves the limit alone, any other sets it, and what the runtime has is the last limit; after a read the limit is what 88% of the cgroup limit leaves beside memory outside Go |
| Memory.LimitSharesTheRest | memory.go:60-77 | in every history of readings, after every successful one, in the numbers read: current - goMapped + limit is 88% of the cgroup limit and at most 90%, the limit is 88% when goMapped exceeds current and max/20 when there is no room for that; exactly when the limit was just set, within 1% of it when not |
| Memory.SetsNeedTravel | memory.go:73-78 | setting the limit k times needs fresh limits that travel at least (k-1)(floor/100 + 1) |
| Memory.SetsCanCostThat | memory.go:73-78 | and some readings set it k times for (k-1)(floor/99 + 1), so the price of a change lies between floor/100 + 1 and floor/99 + 1 |
| Memory.CollectsBeforeRejecting | memory.go:22-25 | while the runtime keeps to that limit, and memory outside Go stays current - goMapped, the sum is at most 90% and a guard tick does not start rejecting |
| Memory.Guard.Tick | memory.go:109-122 | one guard tick: the flag is set above high, cleared below low and otherwise left alone, so that it is set exactly when a read was above 90% and none since then below 85% |
| Memory.Guard.Admit | main.go:165-174 | a request is turned away, and counted, exactly when some reading was above 90% of the cgroup limit and none since then below 85% |
| Memory.GuardRemembers | memory.go:95-121 | after any reads, successful or not, the guard rejects exactly when some reading was above 90% of the cgroup limit and no later one below 85% |
| Memory.FlipsNeedTravel | memory.go:83-121 | k flips need readings that travel at least k-1 times the distance of the two thresholds plus 2 |
| Memory.FlipsCanCostThat | memory.go:83-121 | and some readings flip k times for exactly that |
| Admission.MemoryIsBounded | main.go:165-174 | in every run of reads, reactions, checks, upgrades and frees within the budget, memory stays at or below high + cost(between + window + late), where late checks pass between a read and the guard's reaction |
| Admission.BoundIsReached | memory.go:107-121 | if anybody may pass, some run ends with exactly that much memory |
| Admission.HighestMemory | memory.go:107-121 | so for every budget the memory that can be reached is exactly everything up to it |
| Ports.Parse | main.go:88-118 | the parser's loop computes ParsePorts, with None for the error |
| Ports.AcceptsExactlyTheGrammar | main.go:84-118 | a string parses to given ports if and only if it is the printed form of a list of well-formed items with these ports in order |
| Ports.ParsePrint | main.go:84-118 | printing any list of well-formed items and parsing it gives their ports back |
| Ports.ParseWritten | main.go:84-118 | the same for every list of ranges in plain decimal, the empty one included |
| Ports.ParsePortAndRange | main.go:83-84 | the documented form: a port, a comma and a range parse to the port and the range from its lower end up |
| Ports.ParsePadded | main.go:91 | white space around the ranges of a list changes nothing |
| Ports.AcceptedChars | main.go:84-87 | an accepted list holds only digits, signs, commas and white space |
| Ports.ParsedPortsAreValid | main.go:110-112 | every port that comes out is in 1..65535 |
| Ports.BadItemSpoils | main.go:85-87 | one bad item rejects the whole list |
| Ports.ListenAddrs | main.go:124-139 | the loop returns the addresses of the port and the list, each where it first occurs, or the error of the parser |
| Ports.AddressReads | main.go:136 | cut at its last colon, every address gives back the host, in brackets if it has colons, and the port, for every int64 |
| Ports.AddressesAreDistinct | main.go:120-139 | read back like this, the addresses all have the host, no two are the same, the main port comes first, the ports are exactly that one and those of the list, in order of first occurrence |
| Recorder.Run | bench/local/record.py:215-244 | the loop stops in the first pass that decides to, with its reason, the rows so far and the running maximum |
| Recorder.BestIsNearMaximum | bench/local/record.py:228-229 | after every pass best <= maximum seen <= 1.005 best |
| Recorder.OnlineAndOfflinePeaksAgree | bench/local/record.py:252-257 | if a sample with the most connections has a cgroup reading, the reported peak is between 0.995 and 1.005 of best |
| Recorder.PeaksAgreeExactly | bench/local/record.py:215-257 | for every configuration and pattern of missing cgroup readings: the two agree in every ticking run that the loop gets through to its stop exactly when there is one sample, no run can be that long, or each sample without a reading comes at least plateau/STEP passes before the last but one |
| Recorder.SpikeCompletes | bench/local/record.py:215-244 | otherwise the loop gets through a run that doubles up to a spike at such a sample and stops with the container |
| Recorder.SpikeIsMissed | bench/local/record.py:252-257 | and that spike goes unreported if another sample has a reading, or none has and it is not the last |
| Recorder.PeakIsSettled | bench/local/record.py:252-256 | the peak is the last row with connections and a cgroup reading that shows at least 0.995 of the most any such row shows, and it is in its own window |
| Recorder.PeakOfNoneLive | bench/local/record.py:253-256 | with no such row the peak is the last one and the window is empty |
| Recorder.WindowExactly | bench/local/record.py:260 | the window holds each such row with at least 0.98 of the connections of the peak, as often as it occurs, and no other |
| Recorder.StopsInTime | bench/local/record.py:215-244 | when each pass sleeps at least STEP the loop has stopped by the first pass n with n STEP >= max |
| Recorder.NoGrowthExactly | bench/local/record.py:228-241 | the loop stops for lack of growth exactly when the container runs, the target stop does not apply, and the last sample that raised best, whose number and time best and best_at are, is at least the plateau time ago; no later sample exceeds best by 0.5% |
| Recorder.OtherStopsExactly | bench/local/record.py:230-244 | the loop stops for the container exactly when it does not run, and at the time limit exactly when that is reached, the container runs, the target stop does not apply and the last raise of best is within the plateau time |
| Recorder.TargetStopExactly | bench/local/record.py:233-238 | the loop stops at the target exactly when this sample meets its target and the first sample that met its own is at least the hold time ago |
| Recorder.TargetReportExactly | bench/local/record.py:233-238 | every target stop of every run has met its target in each sample since the first exactly when hold or plateau is not positive or max is at most two steps |
| Recorder.FixedTargetReportExactly | bench/local/record.py:233-241 | for every positive target that all samples show: the same holds exactly when hold is not positive, plateau is at most one step or max is at most two steps |
| Recorder.MissedTargetIsReported | bench/local/record.py:233-238 | any three samples that meet, miss and meet their targets, the one in between raising best or the plateau time longer than a step, make a run that stops with the report, in every other configuration |

## Left out

- Share: exact integers rounded down; the float64 product in the program can differ from it by rounding.
- CarryConserves: exact carry; the float64 carry of the program accumulates rounding errors.
- Stamp: assumes that the buffer's capacity is its length, as for the slice the program makes; the return value of the append is dropped there too.
- TakeBatch: the batch is a value; that the program reuses the memory of the previous batch is not modelled.
- ClockArrives: assumes that the server echoes the message unchanged.
- The dial loop and its goroutines are a transition system over values, since no sequential method can express their interleaving; the registry inside it is the value-level Add and Remove that the class methods implement.
- The width of Go's integers, except in parsed and printed numbers: counters, byte counts and nanoseconds do not wrap around here.
- Elapsed time in the dial loop: tick lengths and dial timeouts; of the rate only the number of dials per tick is modelled.
- The texts and labels of dial errors (`classify`), latencies and log lines.
- The Go runtime: that it keeps to its memory limit is an assumption of CollectsBeforeRejecting. `manageMemoryLimit` doing nothing under GOMEMLIMIT or without a cgroup limit is a start-up choice outside the loop.
- Reading cgroup files, sockets, signals, flags and environment variables, `checkListening`, the WebSocket and Prometheus libraries.
- The recorder's scraping and its CSV, JSON and Markdown output, `per_conn`, and the scripts that compare and plot results.
- Infrastructure code, the cost guard and everything under `results/`.
