# Veloce: a verified model of its stateful core

Veloce is a cluster scheduler. A controller keeps a job table and a record per
worker, workers run the jobs, and all peers talk over encrypted streams. This
project models eight parts of it in Dafny and proves what they guarantee on every
input and every run.

* **Device filter compiler** (`BpfMachine`, `BpfFilter`). An interpreter for the
  instructions in use, after sections 3, 4.3 and 5.1 of RFC 9669, and the
  two-pass compiler. The emitted program is proved to enforce the device policy
  on every device *if and only if* the chain fits 16-bit offsets and the GPU ids
  fit a non-negative 32-bit immediate.
* **Noise stream** (`NoiseCodec`, `NoiseStream`, `NoiseRuns`). The framing writer
  and the reassembling reader as one mutable object. Over every interleaving of
  polls and every splitting of the transport the reader is handed a prefix of
  what the writer accepted, and all of it once drained; a batch decoder is the
  reference for the reader on arbitrary bytes.
* **Allocations** (`Allocations`, `Release`, `HandOut`, `Controller`, `Eviction`,
  `Reconstitution`). The controller changes worker records in place. Submitting,
  starting (also after evictions), finishing, preempting and reaping jobs and
  registering and dropping workers keep this invariant: every record is the one
  that rebuilding from the job table would give, in every iteration order of that
  table. Two messages can break it, and both have an exact condition: a worker's
  report that a job has started, when the job has ended but still lists workers
  (`Controller.Controller.JobStarted`), and a heartbeat that brings other hardware, when a
  core or device that only one of the two machines has is not held
  (`Controller.Controller.UpdateHardware`).
* **Reaper** (`Reaper`). Heartbeats, recorded absences and reaped jobs, over whole
  runs.
* **Read cache** (`StateSync`). The cache for dashboards and the observers that
  copy it only on an event.
* **Accounting** (`AccountingLog`, `JobStatusText`, `WorkerLogs`, `Accounting`,
  `SqlOverlap`, `RetryBuffer`, `RetryHistory`, `JobTracking`). The append-only file
  and the SQL table as two implementations of one history, the retry buffer in
  front of them, calls that overlap, and the merge of per-worker log ids.
* **Queue** (`Queueing`). Scheduling passes over the queue of pending jobs, and
  which unfinished jobs they can still find.
* **Rate limiter and log backfill** (`RateLimit`, `LogManager`).

Dictionaries and sets that the program iterates are visited in an arbitrary order
(`:|`), so a method whose result is a function of its input does not depend on
that order. Clocks, transport outcomes, database and file failures and the UVM
major number are parameters.

Properties that one might expect and that do not hold have a failing case and the
exact condition under which they do hold:

* the filter enforces the policy: `BpfFilter.LongChainFails`,
  `BpfFilter.WideIdFails`; exactly when: `BpfFilter.EnforcesExactly`;
* records stay in step with the job table: `Scenarios.LateReport`; exactly when:
  the contracts of `Controller.Controller.JobStarted` and `Controller.Controller.UpdateHardware`;
* a job has sixteen seconds from its start: `Scenarios.RestartedJobReapedEarly`,
  since an absence on record survives a preemption; exactly when:
  `Reaper.EarlyReapExactly`;
* the test before evictions counts what they free: `Scenarios.EvictionFallsShort`;
  exactly when: `Eviction.CountedExactly`;
* the completion test waits for the present dispatch:
  `JobTracking.PreemptedCompletesEarly` (an old report is on file) and
  `JobTracking.EarlierWorkerCompletes` (a worker of an earlier dispatch reports);
  exactly when: `JobTracking.WrongExactly` for one run,
  `JobTracking.TestIsRightExactly` for all that can follow a dispatch;
* every unfinished job is queued or runs somewhere: `Queueing.EvictionForgets`,
  since the pass overwrites the queue to which it has added the jobs it preempted,
  and `Queueing.ReportedIsDropped`; exactly when: `Queueing.AccountedExactly`;
* the limiter keeps its quota: `RateLimit.LateCallResets`; exactly when:
  `RateLimit.QuotaExactly`;
* what the local file took is read back: `AccountingLog.LostBehind`; exactly when:
  `AccountingLog.ReadBehindExactly`;
* the cap of 1000 bounds the retry buffer: `RetryBuffer.BufferUnbounded`; exactly
  when: `RetryBuffer.OverCapExactly`;
* the row of a job is its newest usage: `RetryHistory.StaleRetryWins`; exactly
  when: `RetryHistory.NewestRowExactly`;
* overlapping upserts lose no log ids: `SqlOverlap.FirstIsLost`; exactly when:
  `SqlOverlap.SerialExactly`.

Where comments and code disagree the code is modelled. The limiter's comment at
`controller/src/rate_limit.rs:92` speaks of races that under-count slightly; the
entry guard makes calls on one key serial, but the clock is read before the guard
is taken, and each call that comes late with an earlier minute grants the whole
quota again. The retry buffer is not protected from growth as the warning at
`controller/src/accounting.rs:894` says. The merge before an upsert does not keep
concurrent upserts from dropping ranks as `controller/src/accounting.rs:577-578`
says, since it reads the old row without a lock and awaits before it writes. The
local file does not ensure zero loss as `controller/src/accounting.rs:899` says,
behind an entry that was torn. And a preempted job is not put back to the queue as
`controller/src/scheduler/finalize.rs:195` says, since the pass that preempts it
ends by replacing the queue.

## Model

| member | source | states |
|---|---|---|
| BpfMachine.RunMonotone | worker/src/bpf_filter.rs:18-25 | a run that has ended stays ended with more steps |
| BpfMachine.ReturnsUnique | worker/src/bpf_filter.rs:18-25 | a program returns at most one value per device |
| BpfMachine.OpcodesByFields | worker/src/bpf_filter.rs:91-144 | the opcodes in use are the ones with these classes, sizes, modes, sources and operations in section 3 of RFC 9669, among all 256 |
| BpfFilter.PushJump | worker/src/bpf_filter.rs:100-101 | appends one unpatched jump and records exactly its slot |
| BpfFilter.EmitSystem | worker/src/bpf_filter.rs:89-109 | the two loads and the recorded tests for majors 1, 5 and 136 |
| BpfFilter.EmitFixed | worker/src/bpf_filter.rs:89-128 | everything that does not depend on the GPU list, with and without a UVM major |
| BpfFilter.EmitChain | worker/src/bpf_filter.rs:89-134 | the first pass leaves two loads and one unpatched, recorded jump per test, in order, for every GPU list |
| BpfFilter.PatchOffsets | worker/src/bpf_filter.rs:146-150 | the second pass changes the offsets of recorded jumps and nothing else |
| BpfFilter.WrappedDifference | worker/src/bpf_filter.rs:148 | narrowing each operand to 16 bits first gives the narrowed distance |
| BpfFilter.CompileBpfProgram | worker/src/bpf_filter.rs:88-153 | both passes together give the one-pass description of the filter, whose meaning the lemmas below fix |
| BpfFilter.ChainFrom | worker/src/bpf_filter.rs:96-144 | from any slot of the chain, execution ends with 1 exactly when a later test matches |
| BpfFilter.ChainMeaning | worker/src/bpf_filter.rs:88-153 | any in-range chain halts within its own length, with 1 exactly when some test matches |
| BpfFilter.NvidiaTestsDecide | worker/src/bpf_filter.rs:111-134 | the tests from the UVM test on already decide the policy |
| BpfFilter.TestsDecide | worker/src/bpf_filter.rs:96-134 | some test matches exactly when the policy allows the device, for ids that survive as immediates |
| BpfFilter.FilterVerdict | worker/src/bpf_filter.rs:88-153 | the compiled filter halts on every device and returns the policy's verdict |
| BpfFilter.FilterDependsOnIdSet | worker/src/bpf_filter.rs:131-135 | order and repetition of GPU ids do not change what the filter returns |
| BpfFilter.SystemTestsRedundant | worker/src/bpf_filter.rs:98-109 | removing the tests for majors 1, 5 and 136 leaves the verdict on every device unchanged |
| BpfFilter.JumpsLandOnAllow | worker/src/bpf_filter.rs:141-150 | all jumps land on the allow block, forward and inside the program, exactly when the chain has at most 32766 tests |
| BpfFilter.NeverAllows | worker/src/bpf_filter.rs:146-150 | beyond that bound a device matched only by early tests never reaches the allow block |
| BpfFilter.LongChainFails | worker/src/bpf_filter.rs:146-150 | beyond that bound the policy is not enforced |
| BpfFilter.WideIdFails | worker/src/bpf_filter.rs:131-135 | an id of 2^31 or more is denied although listed |
| BpfFilter.EnforcesExactly | worker/src/bpf_filter.rs:88-153 | the filter enforces the policy on all devices if and only if the chain is in range and ids are below 2^31 (or the UVM major is 195) |
| NoiseCodec.Be16RoundTrip | common/src/noise.rs:191 | a length survives the two-byte field exactly up to 65535 |
| NoiseCodec.Be16Order | common/src/noise.rs:191 | the more significant byte comes first |
| NoiseCodec.DecodeFrame | common/src/noise.rs:105-142 | a frame at the front decodes as a unit whatever follows |
| NoiseCodec.HandshakeRoundTrip | common/src/noise.rs:337-362 | reading undoes writing a handshake frame exactly up to 65535 bytes |
| NoiseStream.NoiseStream.constructor | common/src/noise.rs:38-48 | empty buffers, expecting a length field |
| NoiseStream.NoiseStream.HandOut | common/src/noise.rs:64-74 | leftover plaintext is handed out from the front, up to the room |
| NoiseStream.NoiseStream.Append | common/src/noise.rs:98 | received bytes go behind the undecoded ones and the buffer stays in bounds |
| NoiseStream.NoiseStream.ParseHeader | common/src/noise.rs:106-115 | consuming a length field leaves the undecoded bytes the same |
| NoiseStream.NoiseStream.Gather | common/src/noise.rs:77-118 | reads until a whole frame is buffered or the poll must end, loses no byte, and terminates |
| NoiseStream.NoiseStream.TakeFrame | common/src/noise.rs:115-143 | one frame is decrypted and its plaintext handed out or kept, in step with the batch decoder, or the error is the decoder's |
| NoiseStream.NoiseStream.PollRead | common/src/noise.rs:56-147 | one poll advances exactly as the batch decoder does for every continuation of the stream; it reads no more than it needs and is pending exactly when no whole frame is at hand and the transport is; with room left, an empty read means a clean end of the stream or a frame with no plaintext, and only these |
| NoiseStream.NoiseStream.Offer | common/src/noise.rs:160-165 | what the transport takes is a prefix of the output |
| NoiseStream.NoiseStream.PollWrite | common/src/noise.rs:151-211 | from the transport's answers: when a write is pending, fails or is accepted, how much leaves, and that an accepted payload becomes exactly one frame behind older output; at most one frame waits, and the length cast loses nothing |
| NoiseStream.NoiseStream.PollFlush | common/src/noise.rs:213-225 | what the transport's answers let through is handed on in order, no inner write is made too many, and the outcome follows from them |
| NoiseStream.NoiseStream.PollShutdown | common/src/noise.rs:227-239 | the same, and the inner shutdown comes only after a successful flush |
| NoiseRuns.RunInv | common/src/noise.rs:56-225 | the link invariant holds in every state of every run |
| NoiseRuns.DeliveredIsPrefix | common/src/noise.rs:56-225 | on every run the reader has a prefix of the accepted bytes and all three buffers are within fixed bounds |
| NoiseRuns.DrainedIsEqual | common/src/noise.rs:56-225 | once flushed and drained without error the delivered bytes are the accepted bytes |
| NoiseRuns.NoFalseDecryptionError | common/src/noise.rs:126-142 | over a transport that keeps bytes intact no decryption error is reported |
| NoiseRuns.ReaderTracks | common/src/noise.rs:56-147 | on arbitrary input the reader stands where the batch decoder stands |
| NoiseRuns.StaysWell | common/src/noise.rs:56-147 | on arbitrary input the reader's buffers stay within fixed bounds |
| NoiseRuns.ExhaustedIsBatch | common/src/noise.rs:56-147 | an exhausted reader has produced exactly the batch decoder's plaintext and rest |
| NoiseRuns.DecryptionErrorIsBatch | common/src/noise.rs:137-142 | a decryption error comes exactly at the decoder's bad frame, with all earlier bytes handed out |
| NoiseRuns.ChunkingInvisible | common/src/noise.rs:77-101 | two ways of chunking the same bytes give the same output |
| NoiseRuns.CleanEndExactly | common/src/noise.rs:87-97 | the read buffer of a reader that waits for input is empty exactly when nothing, or only a length field, is undecoded |
| NoiseRuns.EndOfStreamExactly | common/src/noise.rs:83-101 | a run that meets the end of the stream has decoded all its input, and reports a clean end exactly when 0 or 2 bytes are left over |
| NoiseRuns.EmptyWriteLooksLikeEnd | common/src/noise.rs:174-192 | an accepted empty write sends a frame that opens to nothing |
| Allocations.RebuildWorkerAllocations | controller/src/state.rs:180-226 | every iteration order of any job table gives the same memory, free lists and set of job ids, and the per-job lists too when jobs are filed under their own ids; a core or device is free exactly when the machine has it and no running job does, with the kinds and counts of the machine |
| Allocations.CoresPlainly | controller/src/state.rs:189-205 | the free cores from the core count and the jobs' statuses, workers and lists alone |
| Allocations.DevicesPlainly | controller/src/state.rs:190-213 | the free devices of exactly the machine's kinds, from their 32-bit counts and the jobs alone |
| Allocations.JobsPlainly | controller/src/state.rs:196-208 | which jobs are on record, with which lists, and that their memory is added up |
| Allocations.AddJob | controller/src/state.rs:198-214 | one job's iteration extends the allocations by that job |
| Allocations.TakeGres | controller/src/state.rs:209-213 | a job's devices leave the free lists, kind by kind in any order |
| Allocations.MemoryRemove | controller/src/state.rs:200 | the memory sum does not depend on the order of jobs |
| Allocations.RebuiltIgnores | controller/src/state.rs:197-199 | a job that does not run on the worker has no influence |
| Allocations.RebuiltAdds | controller/src/state.rs:199-214 | what a running job adds to jobs, memory, cores and devices |
| Allocations.FreeMembers | controller/src/state.rs:189-194 | the free list is ascending and holds exactly the unused numbers below the count |
| Allocations.AscendingUnique | controller/src/state.rs:189-213 | an ascending free list is determined by its elements |
| Allocations.WithoutFree | controller/src/state.rs:204 | removing held numbers from a free list gives the free list of the larger used set |
| Allocations.CoresPartition | controller/src/state.rs:180-226 | a core is free exactly when no running job holds it, and disjoint jobs never share one |
| Allocations.GresPartition | controller/src/state.rs:180-226 | the same per device kind |
| Release.ReleaseIds | controller/src/scheduler/finalize.rs:268-275 | released numbers below the count join the free list once each, and it is sorted |
| Release.ReleaseGres | controller/src/scheduler/finalize.rs:285-297 | the same for every device kind, in any order of kinds |
| Release.CoresReturn | controller/src/scheduler/finalize.rs:268-275 | returned cores turn the free list into the one without the job |
| Release.GresReturn | controller/src/scheduler/finalize.rs:281-298 | the same for devices |
| Release.ReleaseOnWorker | controller/src/scheduler/finalize.rs:252-310 | after release the record agrees with the job table without the job, also when it was the last one |
| HandOut.DrainGres | controller/src/scheduler/mod.rs:852-860 | the first requested devices of every kind are taken, the rest stays in order |
| HandOut.GiveToJob | controller/src/scheduler/mod.rs:834-864 | the record after handing out, and the lists given to the job |
| HandOut.GivenAgrees | controller/src/scheduler/mod.rs:834-864 | handing out keeps the record in agreement with the job table that includes the job |
| HandOut.GivenApart | controller/src/scheduler/mod.rs:838-864 | a started job shares no core and no device with a running one |
| Allocations.DrainFree | controller/src/scheduler/mod.rs:839-842 | taking the first free numbers leaves the free list without them |
| Controller.CheckExactly | controller/src/scheduler/mod.rs:623-643 | the scheduler's plain check passes exactly when there are enough free cores, devices and memory |
| Controller.CheckSuffices | controller/src/scheduler/mod.rs:623-643 | the check makes the unchecked drains and the memory addition safe |
| Controller.Controller.constructor | controller/src/state.rs:296-298 | the empty state satisfies the invariant |
| Controller.Controller.Submit | controller/src/submission.rs:45 | any job is put into the table; the invariant stays if neither it nor the entry it replaces runs anywhere |
| Controller.Controller.RegisterWorker | controller/src/handlers/worker.rs:51-110 | a connecting worker gets a rebuilt record, other workers are untouched, the invariant stays |
| Controller.Controller.RemoveWorker | controller/src/scheduler/finalize.rs:94 | dropping a worker keeps the invariant for the others |
| Controller.Controller.RemoveJob | controller/src/scheduler/finalize.rs:166-168 | dropping a job that does not run keeps the invariant |
| Controller.Controller.ReleaseAt | controller/src/scheduler/finalize.rs:250-310 | one assigned worker's turn, also when it is listed twice or gone |
| Controller.Controller.ReleaseJobResources | controller/src/scheduler/finalize.rs:248-314 | afterwards every record agrees with the job table without the job |
| Controller.Controller.FinalizeJob | controller/src/scheduler/finalize.rs:203-246 | the job gets the given status and an end time, all its resources return, and the invariant stays for every status but running |
| Controller.Controller.JobStarted | controller/src/handlers/worker.rs:419-441 | the job becomes running whatever it was; the invariant stays if and only if it was running already, or none of its workers is known and the job table is still sound; with all its workers known, if and only if it was running already or lists no worker |
| Controller.LateOutOfStep | controller/src/handlers/worker.rs:436-439 | one known worker that an ended job still lists is enough to break the invariant |
| Controller.Controller.UpdateHardware | controller/src/handlers/worker.rs:237-239 | the hardware is replaced and the free lists stay; the invariant stays if and only if every core and device that only one of the machines has is held |
| Controller.HardwareChange | controller/src/handlers/worker.rs:237-239 | that condition, for records and job tables |
| Controller.Controller.PreemptJob | controller/src/scheduler/finalize.rs:173-201 | a running job goes back to pending with no worker, core, device or start time and otherwise as before, any other is untouched, the invariant stays |
| Controller.Controller.EvictAll | controller/src/scheduler/mod.rs:819-827 | exactly the running jobs of the set go back to pending, in any order, and the invariant stays |
| Controller.Controller.ReconcileMissingWorkerJobs | controller/src/state.rs:228-272 | a heartbeat's effect on absences and jobs as functions of the old state, with the invariant kept |
| Controller.Controller.ReapAll | controller/src/state.rs:260-271 | exactly the listed jobs are finalized and their absences cleared |
| Controller.Controller.HandOutTo | controller/src/scheduler/mod.rs:829-866 | each selected worker gives its first free cores and devices, no other changes |
| Controller.Controller.StartJob | controller/src/scheduler/mod.rs:829-997 | the job runs on the selected workers from now on, with as many of their free cores and devices as it asked for and otherwise as before; nothing else in the table changes, and the invariant stays |
| Eviction.CountPreemptible | controller/src/scheduler/mod.rs:699-720 | in any order, what the preemptible jobs on a worker hold of cores, memory and each device kind |
| Eviction.IsEligible | controller/src/scheduler/mod.rs:694-772 | the resource part of the test for preemption |
| Eviction.RoomMade | controller/src/scheduler/mod.rs:709-717 | giving up lists frees at most their total length, and exactly that if and only if they are in range and without repeats |
| Eviction.CountedExactly | controller/src/scheduler/mod.rs:722-741 | the evictions free what the test counts, for cores and each device kind, if and only if the victims' lists are in range and without repeats |
| Eviction.EligibleFits | controller/src/scheduler/mod.rs:722-772 | then a worker that passes the test has room for the unchecked hand-out once its victims are gone, and is not newly overcommitted |
| Eviction.EligibleExactly | controller/src/scheduler/mod.rs:722-772 | under that condition the test passes if and only if the job fits once the victims are gone, with no more memory overcommitted than before |
| Eviction.VictimsPlainly | controller/src/scheduler/mod.rs:705-708 | the victims are exactly the preemptible running jobs on a selected worker |
| Eviction.StartWithEvictions | controller/src/scheduler/mod.rs:803-997 | evicting all victims on the selected workers and starting the job there changes nothing else and keeps the invariant |
| Scenarios.LateReport | controller/src/handlers/worker.rs:436-439 | a run of the controller's operations in which a job reaped on one worker is revived by another worker's late report and the invariant is lost |
| Scenarios.ReportAfterPreemption | controller/src/handlers/worker.rs:436-439 | a report right after a preemption keeps the invariant, and the job runs nowhere |
| Scenarios.EvictionFallsShort | controller/src/scheduler/mod.rs:838-842 | a run in which a worker that came back smaller passes the test and then has too few cores |
| Controller.StartedSound | controller/src/scheduler/mod.rs:829-997 | after a start running jobs are still disjoint on every worker and memory sums fit |
| Controller.NeverDoubleBooked | controller/src/scheduler/mod.rs:838-846 | in every state that satisfies the invariant a core is free exactly when no job on record holds it, and no two jobs hold the same one |
| Controller.NoTrace | controller/src/scheduler/finalize.rs:248-314 | whatever happened in between, the same jobs on the same hardware mean the same record, free lists in the same order |
| Reaper.ScanJob | controller/src/state.rs:237-258 | one job's turn in the scan |
| Reaper.Scan | controller/src/state.rs:235-258 | in any order of the job table, exactly the overdue jobs are listed and every absence is recorded, kept or cleared as specified |
| Reaper.ScannedThenCleared | controller/src/state.rs:235-265 | scan and clearing together leave exactly the specified absences |
| Reaper.HeartbeatPlainly | controller/src/state.rs:228-272 | a heartbeat's effect on every job and every record in seconds, statuses and texts |
| Reaper.RecordedAbsence | controller/src/state.rs:249 | an absence on record goes back to a heartbeat of that very time, and no heartbeat has carried the job since |
| Reaper.ReapedOnlyAfterAbsence | controller/src/state.rs:228-272 | a reaped job was absent past its grace now and more than ten seconds before, and uncarried in between |
| Reaper.NoAssignedWorkerCarried | controller/src/state.rs:237-256 | while it stayed running on the same workers, none of their heartbeats carried it |
| Reaper.StaleRecordReaps | controller/src/state.rs:248-253 | with an absence on record a job seen absent is reaped exactly when the record is over ten seconds old |
| Reaper.EarlyReapExactly | controller/src/state.rs:228-272 | a job that has run unchanged since its start is reaped within sixteen seconds of it if and only if the heartbeat shows it absent and an absence from before the start, over ten seconds old, is still on record |
| Reaper.RecordTracked | controller/src/state.rs:240-256 | the record of a job that runs unchanged is the one from before its start until something drops it, and afterwards none within the grace |
| Scenarios.RestartedJobReapedEarly | controller/src/scheduler/finalize.rs:173-201 | a run of the controller's operations in which a preempted and restarted job is reaped six seconds after its restart |
| Reaper.StaysOnRecord | controller/src/state.rs:240-253 | until the limit passes the first absence stays on record and the job stays running |
| Reaper.AbsentJobReaped | controller/src/state.rs:228-272 | a job on any number of workers that none of their heartbeats shows is reaped by the first of them past the limit and by none before |
| Queueing.Scheduler.Submit | controller/src/submission.rs:44-47 | the job is in the table and at the end of the queue |
| Queueing.Scheduler.PreemptJob | controller/src/scheduler/finalize.rs:183-199 | a running job becomes pending and is queued unless it is already |
| Queueing.Scheduler.SchedulePass | controller/src/scheduler/mod.rs:494-1041 | table and queue after a pass, for any order and any choices: the queue is the jobs that stay pending |
| Queueing.PassForgetsExactly | controller/src/scheduler/mod.rs:819-1040 | a pass loses a job if and only if it preempts it and does not come to it again |
| Queueing.QueuedExactly | controller/src/scheduler/mod.rs:524-1040 | a job is in the queue after a pass exactly when the pass found it pending and left it so |
| Queueing.StepAccountsExactly | controller/src/scheduler/mod.rs:494-1041 | exactly which events lose a job, from a state that has lost none |
| Queueing.AccountedExactly | controller/src/scheduler/mod.rs:494-1041 | on every run every unfinished job is at all times queued or runs somewhere if and only if no event loses one |
| Queueing.EvictionForgets | controller/src/scheduler/mod.rs:819-827 | a pass that preempts a job to start its only queued one leaves it pending with an empty queue |
| Queueing.LostForGood | controller/src/scheduler/mod.rs:494-1041 | whatever else happens, no pass finds a lost job again |
| Queueing.ReportedIsDropped | controller/src/handlers/worker.rs:436-439 | a pending job reported as started is dropped from the queue by the next pass and runs nowhere |
| Reconstitution.VisitWorkers | controller/src/main.rs:267-320 | one running job is added to the handle of every worker in its list, once per occurrence |
| Reconstitution.Reconstitute | controller/src/main.rs:265-322 | handles exist exactly for workers with running jobs, with those jobs and their saturated memory, in any order |
| Reconstitution.CountedIsMemory | controller/src/main.rs:315-316 | without repeated workers every job's memory is counted once |
| Reconstitution.StartUpAgrees | controller/src/main.rs:265-322 | start-up and rebuilding agree on jobs, and on memory exactly when the sum fits 64 bits or wraps onto the maximum |
| StateSync.JobEqExactly | controller/src/state.rs:436 | the derived comparison succeeds exactly on equal jobs without a not-a-number |
| StateSync.MetadataEqExactly | controller/src/state.rs:366-381 | the comparison ignores exactly the seven telemetry fields |
| StateSync.ReadCache.RefreshWorkers | controller/src/state.rs:394-417 | exactly the entries that no longer describe their worker are rewritten, and a change is flagged exactly then |
| StateSync.ReadCache.SyncWorkers | controller/src/state.rs:384-418 | the worker cache after a sync, and a change flagged exactly when it differs |
| StateSync.ReadCache.RefreshJobs | controller/src/state.rs:432-445 | the job cache becomes the job table, and a change is flagged exactly when an entry was written |
| StateSync.ReadCache.SyncJobs | controller/src/state.rs:420-445 | the same with removed jobs; the per-job side tables are pruned |
| StateSync.ReadCache.SyncActiveState | controller/src/state.rs:383-453 | both caches and the exact condition of both events |
| StateSync.RewrittenExactly | controller/src/state.rs:384-418 | the worker cache changes exactly when an entry is dropped or rewritten |
| StateSync.RefreshedExactly | controller/src/state.rs:420-445 | the same for jobs, where a not-a-number always counts |
| StateSync.ObserverHasCache | controller/src/state.rs:447-452 | an observer that copies only on events holds the cache after every run |
| StateSync.ObserverUpToDate | controller/src/state.rs:366-453 | after every sync it holds exactly the authoritative jobs, and for exactly the authoritative workers their state and their resources but for telemetry |
| StateSync.NodesEventExactly | controller/src/state.rs:384-418 | on every run a worker event is sent if and only if a worker came or went or changed in more than its telemetry |
| StateSync.JobsEventExactly | controller/src/state.rs:420-445 | a job event is sent if and only if the job table changed or carries a not-a-number |
| StateSync.RepeatedSync | controller/src/state.rs:383-453 | a repeated sync changes nothing and is silent, except for a job event exactly when a job carries a not-a-number |
| AccountingLog.LengthRoundTrip | controller/src/accounting.rs:38 | a 64-bit length survives its eight bytes |
| AccountingLog.LengthOrder | controller/src/accounting.rs:40 | the length has eight bytes, the least significant first |
| AccountingLog.WriteLogConcat | controller/src/accounting.rs:33-42 | appending records is concatenating files |
| AccountingLog.ReadCutLog | controller/src/accounting.rs:57-70 | a file cut at any byte yields exactly the records wholly before the cut, up to the first oversized one |
| AccountingLog.ReadBackExactly | controller/src/accounting.rs:38-70 | reading undoes writing exactly when no record exceeds the cap |
| AccountingLog.ReadInFront | controller/src/accounting.rs:57-70 | records within the cap are read back whatever bytes follow them |
| AccountingLog.ReadBehindExactly | controller/src/accounting.rs:38-70 | every list of records written behind an interrupted write is read back if and only if that write left nothing, or a whole entry within the cap |
| AccountingLog.LostBehind | controller/src/accounting.rs:899-900 | otherwise a record written whole behind it is not read back |
| JobStatusText.ParsesAsFailed | controller/src/accounting.rs:347-352 | what a stored error text is normalized to |
| JobStatusText.FailedRoundTrip | controller/src/accounting.rs:347-352 | an error text survives exactly when it does not start with `Failed(` or end with `)` |
| JobStatusText.StatusRoundTrip | controller/src/accounting.rs:340-356 | a status survives storing and parsing exactly under a condition on its text or exit code |
| JobStatusText.DigitsSay | controller/src/accounting.rs:561 | exit codes are written in decimal without superfluous zeros |
| JobStatusText.EndedTexts | controller/src/accounting.rs:344-346 | the text of a completed job names its code; a killed job reads as such under both of its names |
| Accounting.SummarySnoc | controller/src/accounting.rs:82-92 | one more usage replaces the row and merges the log ids |
| Accounting.SummarizesPut | controller/src/accounting.rs:74-93 | one more usage keeps the filtered table a summary of the history |
| Accounting.FilterCommutes | controller/src/accounting.rs:74-93 | filtering before the fold equals filtering after it |
| Accounting.RowsPlainly | controller/src/accounting.rs:74-93 | a history has a row for exactly the jobs with a usage that are named by the filter, bounds included |
| Accounting.RowPlainly | controller/src/accounting.rs:82-92 | the row is the job's last usage but for the log ids |
| Accounting.LogsPlainly | controller/src/accounting.rs:85-90 | the log id of a worker's stream is that of the last usage to carry one |
| Accounting.FileAccountingStore.RecordJob | controller/src/accounting.rs:28-49 | what a call leaves in the file and whether it reports success, when serialization, opening or writing fails and when nothing does |
| Accounting.FileAccountingStore.Collapse | controller/src/accounting.rs:74-93 | one usage of the file, with the summary kept |
| Accounting.FileAccountingStore.QueryHistory | controller/src/accounting.rs:51-98 | the answer is the summary of the readable records, under the filter |
| Accounting.FileAnswers | controller/src/accounting.rs:28-98 | what was recorded within the cap, and could be serialized, is what is read back |
| Accounting.FileKeeps | controller/src/accounting.rs:57-98 | a torn entry or anything else behind them does not hide recorded usages |
| Accounting.StoreThenLoad | controller/src/accounting.rs:367-458 | a usage survives the database exactly when its status does and its node count fits 32 bits; nothing else is lost |
| Accounting.FiltersAgreeExactly | controller/src/accounting.rs:776-790 | signed comparison means the same exactly when a range's bounds lie on one side of 2^63 |
| Accounting.SqlxAccountingStore.ReadExisting | controller/src/accounting.rs:580-584 | the first step of a call finds the log ids of the present row, or none |
| Accounting.SqlxAccountingStore.WriteMerged | controller/src/accounting.rs:585-656 | the second step overwrites the row with the merge of what was read, whatever happened since |
| Accounting.SqlxAccountingStore.RecordJob | controller/src/accounting.rs:555-656 | an uninterrupted call: the row is overwritten except that log ids are merged; unmerged when the old row cannot be read |
| Accounting.SqlxAccountingStore.QueryHistory | controller/src/accounting.rs:776-823 | exactly the rows that pass the signed filter, loaded |
| Accounting.HistorySnoc | controller/src/accounting.rs:28-49 | one more record on each backend is one more usage of the history |
| Accounting.TableIsSummary | controller/src/accounting.rs:577-656 | after whole calls one after the other the table holds the stored summary of every job, and no other row |
| Accounting.BackendsAgree | controller/src/accounting.rs:51-98 | for every sequence of whole calls both backends answer the same, once rows are normalized as the database does |
| Accounting.BackendsAgreeExactly | controller/src/accounting.rs:776-790 | a filter gives the same answer on every history if and only if, being a range, its bounds lie on one side of 2^63 |
| SqlOverlap.UndisturbedIsSerial | controller/src/accounting.rs:577-656 | overlapping calls leave the table of whole calls when no upsert misses an earlier one of its job |
| SqlOverlap.MissedIsLost | controller/src/accounting.rs:580-591 | an upsert that misses another can drop the log ids only that one knew |
| SqlOverlap.SerialExactly | controller/src/accounting.rs:577-656 | overlapping calls are as good as serial ones, at every moment and for all usages, if and only if every upsert has read, successfully, behind all earlier upserts of its job |
| SqlOverlap.FirstIsLost | controller/src/accounting.rs:577-591 | two calls that both read before either writes: nothing of the first is left in the row |
| SqlOverlap.OverlappingBackendsAgree | controller/src/accounting.rs:577-656 | under that condition the backends agree on what was upserted, in that order |
| Accounting.KnownIgnoresOrder | controller/src/accounting.rs:577-591 | which log ids are known does not depend on order or repetition of usages |
| WorkerLogs.MergeWorkerLogFileMaps | controller/src/job_logs.rs:46-63 | every iteration order gives the same merge |
| WorkerLogs.IdOfMerge | controller/src/job_logs.rs:50-61 | per worker and stream the newer id wins if there is one |
| WorkerLogs.MergeAssociative | controller/src/job_logs.rs:46-63 | merging is associative |
| WorkerLogs.MergeAbsorbs | controller/src/job_logs.rs:46-63 | merging is idempotent, a repeated report changes nothing, the empty map is neutral |
| WorkerLogs.KnownMerge | controller/src/job_logs.rs:45-63 | no worker and no known id is lost, none is invented |
| WorkerLogs.KnownMergeAll | controller/src/job_logs.rs:45-63 | an id is known in the end exactly when some report knew it |
| WorkerLogs.KnownDependsOnReportSet | controller/src/job_logs.rs:45-63 | order and repetition of reports do not show in what is known |
| WorkerLogs.LastReportWins | controller/src/job_logs.rs:50-61 | the surviving id is that of the last report that carries one |
| WorkerLogs.MergeAllConcat | controller/src/job_logs.rs:46-63 | merging two histories is merging their merges |
| JobTracking.MultinodeJobTracking.RecordDispatchedWorkers | controller/src/job_logs.rs:7-12 | the dispatch list replaces an older one, nothing else changes |
| JobTracking.MultinodeJobTracking.RecordWorkerLogFiles | controller/src/job_logs.rs:14-26 | one worker's entry is set, nothing else changes |
| JobTracking.MultinodeJobTracking.MarkWorkerDone | controller/src/job_logs.rs:73-88 | the worker joins the set and the count is its size |
| JobTracking.MultinodeJobTracking.CleanupJobTracking | controller/src/job_logs.rs:90-94 | all three entries of the job go, others stay |
| JobTracking.DoneIsReported | controller/src/job_logs.rs:73-94 | a worker counts as done exactly when it reported since the last cleanup |
| JobTracking.DispatchOnFile | controller/src/job_logs.rs:7-12 | the dispatch list on file is the last one since the last cleanup |
| JobTracking.LogsOnFile | controller/src/job_logs.rs:14-26 | the log files on file for a worker are those it reported last since the last cleanup |
| JobTracking.CompleteWithoutDispatch | controller/src/job_logs.rs:65-71 | without a dispatch list the test passes exactly when all assigned workers have reported, or at the first report if there are none |
| JobTracking.CompleteExactly | controller/src/job_logs.rs:65-88 | the count reaches the expected number exactly when at least as many others as are missing have reported, and if nobody else reports, exactly when every dispatched worker has |
| JobTracking.CleanupRestarts | controller/src/job_logs.rs:90-94 | after cleanup the job starts from nothing |
| JobTracking.WrongExactly | controller/src/handlers/worker.rs:466-487 | after any run the handler's test is wrong if and only if some dispatched worker is missing and no more are missing than there are other reports on file |
| JobTracking.TestIsRightExactly | controller/src/handlers/worker.rs:466-487 | the test is right in all that can follow a dispatch if and only if no report was on file and nobody but the dispatched workers can report, or nobody was dispatched to |
| JobTracking.StrangerIsWrong | controller/src/handlers/worker.rs:466-474 | one report of a worker outside the dispatch lets the test pass before some dispatched worker has reported |
| JobTracking.EarlierWorkerCompletes | controller/src/scheduler/finalize.rs:177-179 | a run in which a worker of an earlier dispatch, not told to stop, completes the job |
| JobTracking.StaleIsWrong | controller/src/handlers/worker.rs:466-487 | with a report on file the test passes before some dispatched worker has reported |
| JobTracking.PreemptedCompletesEarly | controller/src/scheduler/finalize.rs:173-201 | a run, across a preemption that leaves the tables alone, in which a job completes with one of two workers |
| RetryBuffer.ResilientAccountingStore.RecordJob | controller/src/accounting.rs:883-903 | one call, with the overflow rule and the local fallback |
| RetryBuffer.ResilientAccountingStore.DrainBuffer | controller/src/accounting.rs:844-848 | a pass takes the whole buffer |
| RetryBuffer.ResilientAccountingStore.RetryNext | controller/src/accounting.rs:856-863 | one retry moves its record to the primary or to the failures |
| RetryBuffer.ResilientAccountingStore.FinishPass | controller/src/accounting.rs:865-870 | the failures go back in front, in their order |
| RetryBuffer.StepKeepsInv | controller/src/accounting.rs:840-903 | every step conserves records and keeps arrival order |
| RetryBuffer.Conservation | controller/src/accounting.rs:840-903 | on every run each record is exactly once in the primary, waiting or dropped, and what waits is in arrival order |
| RetryBuffer.OverflowDropsOldest | controller/src/accounting.rs:891-897 | a record is dropped exactly when a direct write fails with 1000 or more buffered, and it is older than all that is buffered then |
| RetryBuffer.LocalHoldsFallbacks | controller/src/accounting.rs:899-900 | the local file holds exactly the records whose direct write failed and whose local write succeeded |
| RetryBuffer.BufferUnbounded | controller/src/accounting.rs:865-870 | failing passes make the buffer outgrow every bound |
| RetryBuffer.CappedDuringPass | controller/src/accounting.rs:889-898 | while a pass is under way the cap bounds the buffer |
| RetryBuffer.CrossesCapOnlyAtEnd | controller/src/accounting.rs:865-870 | from within the cap, only the end of a pass leads over it, exactly when failures and new records do not fit together |
| RetryBuffer.OverCapExactly | controller/src/accounting.rs:840-903 | on every run the buffer is over the cap if and only if no pass is under way and the last one that ended left more than the cap, and then it has that size |
| RetryHistory.PrimaryInRange | controller/src/accounting.rs:840-903 | the primary only receives records of the run |
| RetryHistory.RetriesKeepLogs | controller/src/accounting.rs:856-863 | once nothing waits and nothing was dropped the history written to the primary knows the same log ids as the history of calls |
| SqlOverlap.RetriesKeepLogs | controller/src/accounting.rs:856-863 | and so does the SQL table, if no upsert missed an earlier one of its job |
| RetryHistory.StaleRetryWins | controller/src/accounting.rs:856-863 | a concrete run after which the row is the older of two usages |
| RetryHistory.LastOfIsRow | controller/src/accounting.rs:624-656 | a job's row is its last write but for the merged log ids |
| RetryHistory.NewestRowExactly | controller/src/accounting.rs:840-903 | when nothing waits and nothing was dropped in the end, the last write of a job is its newest call if and only if no record of the job was waiting right after that call was written |
| RateLimit.KeyInjective | controller/src/rate_limit.rs:75 | no two (principal, class) pairs share a bucket |
| RateLimit.ApiRateLimiter.Check | controller/src/rate_limit.rs:62-113 | one call's verdict and buckets as functions of the old buckets, with wrapping counters |
| RateLimit.WindowTracks | controller/src/rate_limit.rs:82-100 | on every run, for any clock values, the bucket's window is the minute of its last call |
| RateLimit.BucketsTrack | controller/src/rate_limit.rs:82-113 | while no minute is left and entered again the bucket counts its window's acceptances |
| RateLimit.MinuteQuota | controller/src/rate_limit.rs:62-113 | then there are at most `limit` acceptances in any minute |
| RateLimit.QuotaExactly | controller/src/rate_limit.rs:62-113 | for any clock values the quota of a key holds under all limits if and only if its calls never come back to a minute they have left |
| RateLimit.RefusalsExactly | controller/src/rate_limit.rs:102-110 | the same condition is exact for refusals to come exactly at a used-up quota |
| RateLimit.LateCallResets | controller/src/rate_limit.rs:76-100 | a run of three calls, one of which read the clock before and took the bucket after another, that exceeds a limit of one |
| RateLimit.MonotoneIsContiguous | controller/src/rate_limit.rs:76-82 | clock values that never go back, in the order of the guard, meet the condition |
| RateLimit.RequestQuota | controller/src/rate_limit.rs:41-60 | which requests fall under which limit: per principal and minute, administrative, changing and other requests are accepted up to their own number, zero meaning no limit |
| RateLimit.RequestRefused | controller/src/rate_limit.rs:41-113 | and a request is refused exactly when that number is reached |
| RateLimit.SlidingQuota | controller/src/rate_limit.rs:62-113 | under that condition at most twice the limit in any 60 consecutive seconds |
| RateLimit.FactorTwoReached | controller/src/rate_limit.rs:62-113 | that factor is reached at every minute boundary, within two seconds |
| RateLimit.RefusedExactly | controller/src/rate_limit.rs:102-110 | under that condition a call is refused exactly when its minute's quota is used up |
| RateLimit.RetryAfterMeaning | controller/src/rate_limit.rs:103-109 | the wait is 1 to 60 seconds and ends on the first second of the next window |
| RateLimit.WaitingHelps | controller/src/rate_limit.rs:103-109 | whoever waits that long and calls next is accepted, whatever the clock does otherwise |
| LogManager.RingBuffer.constructor | common/src/ring_buffer.rs:12-17 | an empty buffer of the given capacity |
| LogManager.RingBuffer.Push | common/src/ring_buffer.rs:19-24 | the buffer keeps the newest items that fit, and at least the one pushed |
| LogManager.RingBuffer.PopAll | common/src/ring_buffer.rs:26-28 | everything comes out in order and the buffer is empty |
| LogManager.LogManager.constructor | worker/src/log_manager.rs:19-25 | no channel, an empty buffer of 5000 |
| LogManager.LogManager.OnMessage | worker/src/log_manager.rs:30-39 | a message is sent or buffered; a failed send ends the channel and keeps the message |
| LogManager.LogManager.OnSetTx | worker/src/log_manager.rs:40-49 | the buffer is replayed in order into the new channel, failed sends are lost |
| LogManager.RunInv | worker/src/log_manager.rs:27-53 | the event loop's invariant holds on every run |
| LogManager.InOrder | worker/src/log_manager.rs:27-53 | a live channel means an empty buffer; delivered then buffered messages are in order without repeats |
| LogManager.RingHoldsNewest | common/src/ring_buffer.rs:19-28 | in an outage the buffer holds exactly its newest messages that fit |
| LogManager.EveryMessageAccounted | worker/src/log_manager.rs:27-53 | every message is in exactly one place: delivered, buffered, evicted or lost in a replay |
| LogManager.OnlyEvictionLoses | worker/src/log_manager.rs:27-53 | when no replay send fails the missing messages are exactly the evicted ones |

## Left out

- BpfFilter.EnforcesExactly: lists of about 2^32 ids or more are excluded, because the kernel is given the instruction count as a 32-bit number.
- BpfFilter.PatchOffsets: models the wrapping 16-bit arithmetic of release builds; a debug build panics on overflow instead.
- NoiseRuns.DeliveredIsPrefix: one direction of a connection; an error ends the side that reports it, and the transport neither alters nor reorders bytes.
- NoiseRuns.DrainedIsEqual: says nothing about a peer that stops polling; liveness of the async runtime is not modelled.
- NoiseStream.NoiseStream.PollRead: inner reads bring at most 4096 bytes and are given as a finite script, after which the transport is pending.
- Allocations.GresPartition: a device count is narrowed to 32 bits as in the source, so devices beyond 2^32 do not exist.
- Allocations.RebuildWorkerAllocations: memory wraps at 64 bits as in release builds; when two entries of the table carry the same id, which of their lists is kept depends on the order and is not stated.
- Release.ReleaseOnWorker: `Agrees` lets a device kind with no free device be missing from one of two maps, since releasing devices of a kind that the worker no longer has leaves an empty list behind.
- Controller.Controller.StartJob: needs what the unchecked drains need; which workers are chosen, priorities, reservations, licenses and the grouping of nodes are not modelled.
- Queueing.Scheduler.SchedulePass: the order of the pass and its choices are parameters; dependencies and backfill only decide whether a job is kept.
- Controller.Controller.FinalizeJob: usage accrual, live CPU and memory figures, the reason text and input files to delete are not modelled.
- Eviction.StartWithEvictions: draining, disconnected and reserved workers are passed over before the test; the choice among candidates is a parameter.
- Controller.Controller.RegisterWorker: draining and connection state, and replacing the whole state from a peer controller, are not modelled. Handles put together at start-up have no core lists until their worker registers.
- Reaper.EarlyReapExactly: which of the source's handlers drop a record of absence is left to the events of the run.
- StateSync.ObserverUpToDate: JobInfo and Resources carry a representative selection of the job's fields and all compared worker fields; negative zero, which compares equal to zero, is not distinguished from it; a receiver that misses broadcast events is not modelled.
- Accounting.FileAccountingStore.RecordJob: serialization is an abstract function.
- Accounting.BackendsAgree: secrets and `container_asset` are not among the columns, and the answer is a map and not an ordered list.
- SqlOverlap.SerialExactly: a call reads and upserts a row in one step each; a record is upserted once, so a primary write that fails after taking effect is not modelled.
- RetryBuffer.Conservation: records are numbered by the call that brought them; a primary write that fails after taking effect counts as failed.
- RetryHistory.NewestRowExactly: speaks of runs that end with nothing waiting and nothing dropped; a dropped record never reaches the row.
- RateLimit.SlidingQuota: states a sufficient condition; runs that come back to a minute may keep the bound by chance.
- LogManager.EveryMessageAccounted: delivered means accepted by the channel; what the connection behind it does with a message is not modelled.
- Noise handshake, key derivation, ciphers, bincode, JSON and SQL engines: abstract functions with round-trip laws, or not part of the model.
- BPF system calls, cgroup files and reading `/proc/devices`.
- Fair-share decay, high availability, the file server, the web dashboard, the command line, Slurm compatibility, CWL conversion, authentication and configuration: not part of the model.
