# A verified model of SRUI's protocols and kernels

This project models eight pieces of the SRUI repository in Dafny and proves what they are
for. Each file holds one module.

| files | what they model |
|---|---|
| `PrePushProtocol`, `PrePushSafety`, `PrePushLeftovers`, `PrePushVerdicts`, `PrePushEnumeration` | the pre-push hook's lock and its arm / stop / record / gate protocol, as a state machine over every interleaving; its whole-run guarantees, and what a hook decides when nothing interferes |
| `ProcessTable`, `StopActiveCheck` | what the hook reads from the process table, and how it stops a check |
| `ReportPublication` | publication of report files with backup, rollback and cleanup under any failure schedule |
| `ExceptionTree`, `SupervisedProcess`, `ManagedProcess` | killing a pinned process group, the handle around it, bounded retry, and the termination requests that must survive it |
| `Machine`, `Varint`, `Framing`, `StreamDecoder` | length-delimited wire framing and the chunked stream decoder |
| `Ranges`, `RangeTracker`, `TrackerRuns` | the sparse-collection range tracker and its runs |
| `TreeSnapshot`, `SnapshotTheorems` | the semantic tree snapshot and its index |
| `ServiceGaps` | circular service gaps of the logical-channel policy |
| `CaptureBoundary`, `PixelDelta` | the screen-capture boundary and the pixel comparison |

Conventions. An operation that changes state is a method of a class and is proved against a
function of the old state; the theorems are lemmas about those functions. Clocks, the kernel,
`ps`, failures and the protobuf library are parameters: arbitrary functions of time, schedules
of failures, or codecs. A Swift or Python exception is a result value. `UInt64` and `Int`
widths, saturation and wrap-around are written out in `Machine` and `RangeTracker`. Pending
handlers, cut-off writes, unanswered enumerations and deaths of a hook are steps of the
protocol, so its theorems hold for every run that contains them.

Assumptions that are part of the model, each visible as a `requires` or a step's guard:

- A session number already on record is not handed out again by the kernel, and no hook (nor
  the `git` that started it) is itself a member of a check's session (`ProcessEnabled`,
  `MainEnabled`).
- The record's path resolves, and one enumeration is one atomic look at the process table.
- The names chosen for staging and backup files are unused and distinct (`Plan.Valid`), and a
  file operation that fails has no effect.
- The protobuf parser inverts the serializer (`Inverts`), where a round trip is claimed.

## What is false, and exactly when it holds

- A lock is *not* always released over a quiet or recorded build. A check that simply ends
  while a worker of its session lives on (`QuietReleaseIsUnguarded`), a signal that finds the
  check's root already gone (`UnarmedReleaseIsUnguarded`) and a record that could not be
  written all leave live members without a record. `GuardedExactly`: a live session is guarded
  exactly when it was armed, a write left the record corrupt, or the record the run began with
  still names it. `ArmedExactly`: it was armed exactly when a handler's poll found its root
  unreaped and alive and that handler's write then succeeded.
- The tracker's header speaks of emitting missing segments only; the code emits one hull of
  all holes, which `RespondIsLeastHull` specifies. Only missing indices are requested exactly
  when there is a single hole (`RequestsOnlyMissingExactly`); `HullAsksForCached` is a query at
  which cached items are requested again.
- An arrival or drop whose end exceeds the last `UInt64` is ignored
  (`OverflowingArrivalIsIgnored`): `ClearIsExact` states when a range is cleared, both ways.
- `write_report` has five endings rather than three: staging can fail, and publication can
  succeed with its backup cleanup incomplete; apart from that the final removal of temporaries
  can raise. `EndsAs` says which ending it is, from the phases in which some operation failed
  and nothing else; `Leaves` says what each leaves on disk. A single failure always leaves
  every target new or every target as before.
- A termination request can be lost by `terminate_supervised_process` before the group is
  pinned: exactly those of `Sentinel.Lost`, told by what the system answers to its first calls
  (`RequestLost` is one such run). `ManagedProcess.terminate` loses exactly those of
  `LostByTerminate`: what removing the control files or restoring the mask raises takes the
  place of everything before it, and otherwise only the supervisor's cleanup loses anything.
- Two negative pixel sizes pass the guard of the pixel comparison and then stop the program
  (`Judges`, `Trap`, both ways; `NegativeSizesTrap` is one such picture).

## Model

| member | source | states |
|---|---|---|
| `PrePushProtocol.NextKeeps` | scripts/pre_push_checks.py:648-965 | every step of every hook, process or failure keeps the protocol invariant: one lock holder, every armed live session guarded by the record, every handler well placed |
| `PrePushProtocol.GateKeeps` | scripts/pre_push_checks.py:851-901 | passing the gate proves every armed session dead |
| `PrePushProtocol.ArmingKeeps` | scripts/pre_push_checks.py:766-785 | arming, the only way to start guarding a session, keeps the invariant for it and for every earlier session |
| `PrePushProtocol.ArmFailsKeeps` | scripts/pre_push_checks.py:827-834 | a record that cannot be written sends the handler back with the lock kept, whether or not the file was truncated |
| `PrePushProtocol.RecordStepKeeps` | scripts/pre_push_checks.py:836-848 | rewriting or removing the record after a stop never uncovers a live armed session |
| `PrePushProtocol.ProcessStepKeeps` | scripts/pre_push_checks.py:584-594 | forking, regrouping, leaving a session, exiting: no process step revives a dead armed session or breaks the invariant |
| `PrePushSafety.ArmedSessionStaysGuarded` | scripts/pre_push_checks.py:766-848 | in every run, at every point after a session was armed, it has no live process or the record is corrupt or names it |
| `PrePushSafety.GuardedExactly` | scripts/pre_push_checks.py:766-848 | at every point of every run, exactly which sessions with a live process the record guards: the armed ones, every one under a corrupt record, and that of the record the run began with |
| `PrePushSafety.ArmedExactly` | scripts/pre_push_checks.py:781-785 | a session is armed exactly when a handler polled its root unreaped and alive and then, still at arming, wrote the record |
| `PrePushSafety.BuildsNeverOverlap` | scripts/pre_push_checks.py:941-965 | while a hook builds no other hook does and no armed session but that of its own check is alive |
| `PrePushSafety.BuildStartsOverDeadSessions` | scripts/pre_push_checks.py:851-901 | a run that has just passed the gate starts with every armed session dead |
| `PrePushSafety.GateWasEnumerated` | scripts/pre_push_checks.py:887-901 | before a drained record is dropped, its groups and then its session were enumerated, answered and empty, under the lock and over an unchanged record |
| `PrePushSafety.BuildStartIsJustified` | scripts/pre_push_checks.py:955-962 | a build starts only when no record was there to read or after both enumerations found nothing |
| `PrePushSafety.UnarmedReleaseIsUnguarded` | scripts/pre_push_checks.py:781-783 | one run outside that condition: the lock is released over a live member of the check's session with no record, because the root had already gone when the signal came |
| `PrePushSafety.QuietReleaseIsUnguarded` | scripts/pre_push_checks.py:955-965 | another, without any signal: the check ends while a worker of its session lives on |
| `PrePushLeftovers.LeftoversHoldBackBuilds` | scripts/pre_push_checks.py:835-837 | in every run, once a handler has recorded what its stop could not account for, then for as long as every hook has some of that left to find the record stands, each left-over process in a recorded group and session is found by every answered enumeration, and no hook builds |
| `PrePushLeftovers.StillToWrite` | scripts/pre_push_checks.py:835-837 | whatever interrupts a handler, what it will record covers every process its stop left over |
| `PrePushVerdicts.GateDecides` | scripts/pre_push_checks.py:870-901 | a hook that reads the record and enumerates undisturbed passes exactly when there is no record, or when both enumerations are answered and nothing the record speaks of is alive; otherwise it leaves |
| `PrePushVerdicts.OpenGateBuilds` | scripts/pre_push_checks.py:899-901 | past an open gate the record is dropped and the hook builds |
| `PrePushVerdicts.CheckRunsToItsEnd` | scripts/pre_push_checks.py:399-427 | a check leads its own group and session; run to its end it leaves everything else as it was and the hook ready for the next, or on its way out if it failed |
| `PrePushVerdicts.UnrecordableSignalIsDeclined` | scripts/pre_push_checks.py:827-834 | a signal whose record cannot be written leaves the check, the lock and what it interrupted exactly as they were |
| `PrePushVerdicts.RecordedSignalStops` | scripts/pre_push_checks.py:781-785 | one whose record is written begins to stop the check under a record that names its session and its own group |
| `PrePushVerdicts.StopLooksAgain` | scripts/pre_push_checks.py:838-844 | a stop that left nothing over is followed by a look at the session |
| `PrePushVerdicts.LookDecides` | scripts/pre_push_checks.py:844-848 | the record is cleared exactly on an answered, empty look at the session, and rewritten naming it otherwise; the hook then leaves |
| `PrePushVerdicts.IdlePollStopsNothing` | scripts/pre_push_checks.py:781-783 | a handler that finds no check running, or collects a dead root, leaves the record alone |
| `PrePushVerdicts.IdleHandlerReleases` | scripts/pre_push_checks.py:912-919 | it then has the hook leave and the lock released |
| `PrePushVerdicts.CheckIsNotGivenUp` | scripts/pre_push_checks.py:910-919 | in every reachable state a hook gives up a check only if its root was waited for, its session is armed, or the hook itself is abandoned or killed |
| `PrePushEnumeration.EnumerateSession` | scripts/pre_push_checks.py:584-625 | the hook's session enumeration of a listing is the protocol's |
| `PrePushEnumeration.EnumerateGroups` | scripts/pre_push_checks.py:562-581 | the hook's group enumeration of a listing, scoped as the record says, is the protocol's |
| `ProcessTable.Walk` | scripts/pre_push_checks.py:484-490 | the walk ends on any parent relation and returns exactly the descendants of the root |
| `ProcessTable.CheckProcessTree` | scripts/pre_push_checks.py:451-498 | exactly the check's processes and whatever shares a group with one, and exactly their groups, as the last line for each pid gives them, less this push's pids and the protected groups |
| `ProcessTable.LiveGroups` | scripts/pre_push_checks.py:501-559 | answers exactly the live members in their expected session by group; no answer exactly when the listing failed or a session question that matters was refused |
| `ProcessTable.LiveSessionMembers` | scripts/pre_push_checks.py:584-625 | answers exactly the live members of the session; no answer exactly when it cannot tell |
| `StopActiveCheck.ObserveGroupSessions` | scripts/pre_push_checks.py:627-645 | a group keeps its first observed session, a new one comes from the first pid that is placed in the group before and after the question, and every such pid yields one |
| `StopActiveCheck.Stop.Discover` | scripts/pre_push_checks.py:681-685 | the known groups grow by exactly the groups of the tree listed at that instant, and their sessions by exactly those that could be placed |
| `StopActiveCheck.Stop.Pass` | scripts/pre_push_checks.py:681-720 | one signal pass: it goes by an enumeration of exactly what the tree readings so far discovered, the last reading just before it while the root lives; it signals, once each and in order, exactly the groups that enumeration saw alive, or the unreaped root's own when it could not see; it then ends with an answered, empty look, or only after all its polls in vain |
| `StopActiveCheck.Stop.StopCheck` | scripts/pre_push_checks.py:648-732 | the groups and sessions known at the end and at each look are exactly those the tree readings gave; SIGTERM and then SIGKILL go to exactly the groups their look saw alive in their recorded session, or to the unreaped root's own group; SIGKILL comes only after the whole wait was in vain and is skipped only when everything known had drained; no stranger, protected group or member of this push is signalled; exactly what a last enumeration still sees alive is left over, everything when it goes unanswered |
| `ReportPublication.WriteReport` | benchmarks/reporting.py:273-367 | for any targets and failure schedule: which ending it is, exactly, from the phases in which an operation failed; what each ending leaves on disk, with no staged file left after a final removal that did not raise, at most the one name whose creation was interrupted after a failed staging, and every preserved backup spared; what was synced when each phase was over, above all every new file beside every backup before any backup is removed; that rollback and cleanup go on past a failure; no old content lost at any instant before publication is over; one failure alone leaves all targets new or all as before |
| `ReportPublication.OneFaultIsHarmless` | benchmarks/reporting.py:299-366 | with at most one failed operation every target is new or every target is as before, and a normal return means none failed |
| `ReportPublication.PublishOrRestore` | benchmarks/reporting.py:300-360 | the same up to the final removal of temporaries |
| `ReportPublication.StageAll` | benchmarks/reporting.py:234-259 | staging touches only temporaries, and on success every new content is staged and every backup name free; when it fails, exactly which operation failed first and which one name, if any, that leaves besides the files staged before |
| `ReportPublication.StageReportFile` | benchmarks/reporting.py:234-248 | adds the staged content on success; a file that was created and could not be written is removed again unless that fails too |
| `ReportPublication.ReserveReportBackup` | benchmarks/reporting.py:251-259 | leaves the directory as it was on success and at most a placeholder otherwise |
| `ReportPublication.Park` | benchmarks/reporting.py:308-310 | moving targets to backups can be undone from every state it may stop in |
| `ReportPublication.Install` | benchmarks/reporting.py:311-313 | moving staged files into place can be undone from every state it may stop in |
| `ReportPublication.Rollback` | benchmarks/reporting.py:315-343 | clean exactly when no operation of it fails, it then restores every target exactly, absent ones included, and syncs; otherwise every target is restored but those with a failed operation of their own, and every old content stays at its target or backup |
| `ReportPublication.Settle` | benchmarks/reporting.py:314-360 | publication that failed is rolled back and one that succeeded has its backups removed, incompletely exactly when some operation of that fails |
| `ReportPublication.Cleanup` | benchmarks/reporting.py:345-360 | removing backups of a published report never disturbs a new file, and leaves only backups whose own removal failed |
| `ReportPublication.RemoveAll` | benchmarks/reporting.py:361-366 | the final removal takes away exactly the names before the first whose removal raises |
| `ExceptionTree.LeavesAreSplit` | benchmarks/process_control.py:306-327 | the two flattening functions split the leaves of every exception tree between them, in order |
| `ExceptionTree.RaiseTerminationsIsExact` | benchmarks/process_control.py:330-343 | exactly the termination requests of all errors are raised, a single one bare and several in one flat group, and a return means there were none |
| `SupervisedProcess.Sentinel.Terminate` | benchmarks/process_control.py:346-465 | group signals go out only while the sentinel is unreaped, SIGTERM and then always SIGKILL, which waits for the first enumeration that raises or finds the sentinel alone and no longer than allowed; it returns exactly when the sentinel was found gone and collected, or killed with its group and collected with nothing to pass on; a refused kill leaves it unreaped; one that could not be pinned is reported as a failure; the termination requests raised meanwhile come out exactly, but for those lost before pinning, told from what the system answers |
| `SupervisedProcess.Sentinel.TerminatePinned` | benchmarks/process_control.py:385-465 | the same from the pinned sentinel on, where no request is lost, and a failure is reported exactly when the kill was refused or both attempts to collect raised |
| `SupervisedProcess.Sentinel.KillAndRaise` | benchmarks/process_control.py:361-368 | what collecting a sentinel that could not be pinned raises comes out, else what killing it raises, else the failure; exactly what the kill asked for is lost in the first case |
| `SupervisedProcess.RequestLost` | benchmarks/process_control.py:370-383 | a run in which the SIGSTOP raises a request that does not come out |
| `ManagedProcess.Managed.Reap` | benchmarks/process_control.py:613-627 | reaped is claimed only when nothing runs, even when the reap raises, and how the supervisor's cleanup ended is how it ends |
| `ManagedProcess.Managed.DiscardControls` | benchmarks/process_control.py:629-634 | removal is tried once nothing runs and claimed only when it did not raise |
| `ManagedProcess.Managed.Terminate` | benchmarks/process_control.py:636-647 | control files are touched only when nothing runs, no flag reverts, a return means closed, a pinnable group is attacked; what comes out is what restoring the mask raises, else what removing the control files raises, else how the supervisor's cleanup ended; the requests raised meanwhile come out but for exactly those that this loses, and all do exactly when none is lost |
| `ManagedProcess.Managed.Wait` | benchmarks/process_control.py:649-716 | after a failed poll one or two cleanups are made, and what ended the polling, what they asked for and what was deferred come out in that order, with the retained handle when not closed; otherwise the supervisor is reaped, its group attacked, and what comes out is the failure of the removal, else of the reap, else of reading the output, else of judging the status |
| `ManagedProcess.Managed.DrainWithRetry` | benchmarks/process_control.py:719-758 | attempts are made while not closed, all allowed ones if it never closes, the first attacking a pinnable group; every termination request they raised comes out; closed, nothing else does; not closed, everything does together with the retained handle |
| `ManagedProcess.Managed.TerminateWithRetry` | benchmarks/process_control.py:761-789 | the same attempts; neither their termination requests nor the deferred one hides the other |
| `ManagedProcess.Managed.RunCalls` | benchmarks/process_control.py:533-535 | over any sequence of calls and failures, once closed is closed for good, and every group signal ever sent went to the supervisor's own group while it was unreaped |
| `Varint.EncodeVarint` | client-macos/Protocol/Framing.swift:59-66 | appends the canonical base-128 encoding |
| `Varint.DecodeVarintIfComplete` | client-macos/Protocol/Framing.swift:68-95 | the bit-or loop computes the reference verdict, and the throw after it is never reached |
| `Varint.Decode` | client-macos/Protocol/Framing.swift:75-92 | the verdict is complete exactly with the mathematical digit sum, below 2^64, of a string of at most ten bytes; malformed and incomplete are characterised too |
| `Varint.VerdictIsStable` | client-macos/Protocol/Framing.swift:68-95 | a complete or malformed verdict survives any appended bytes |
| `Varint.VarintRoundTrip` | client-macos/Protocol/Framing.swift:59-95 | for every `UInt64` and suffix the value and exact length come back, and every strict prefix is incomplete |
| `Varint.EncodingIsShortest` | client-macos/Protocol/Framing.swift:59-66 | no accepted byte string for a value is shorter than its encoding, and none as short is different |
| `Framing.EncodeFramed` | client-macos/Protocol/Framing.swift:121-138 | exactly the messages that serialize within the limit are framed, as their exact length, encoded as briefly as can be, and their payload; a serializer's error comes out as itself, and a payload over the limit as the error naming both |
| `Framing.CheckedFrameLength` | client-macos/Protocol/Framing.swift:97-111 | accepts a length exactly when it is within the limit, as itself; the error names the limit and the length clamped to `Int` |
| `Framing.DecodeFramed` | client-macos/Protocol/Framing.swift:153-186 | agrees with the stream's view of the same bytes, and names what is missing otherwise |
| `Framing.NextFrameExactly` | client-macos/Protocol/Framing.swift:217-251 | exactly which buffers hold a frame, need more bytes, or are broken, and by which fault |
| `Framing.NextFrameIsStable` | client-macos/Protocol/Framing.swift:217-251 | a frame or fault at the front of a buffer survives any later bytes |
| `Framing.FrameRoundTrip` | client-macos/Protocol/Framing.swift:121-186 | an encoded message followed by anything decodes to that message and its exact size |
| `StreamDecoder.SRUIMessageStreamDecoder.AppendAndExtract` | client-macos/Protocol/Framing.swift:210-261 | one call delivers, fails and retains exactly as peeling the whole buffer does |
| `StreamDecoder.ChunkingInvariance` | client-macos/Protocol/Framing.swift:210-269 | for every stream and every cut, messages up to the first failure, failure and retained bytes are those of one call |
| `StreamDecoder.FeedUntilFailure` | client-macos/Protocol/Framing.swift:210-269 | the same for a client calling the decoder chunk by chunk |
| `StreamDecoder.StreamRoundTrip` | client-macos/Protocol/Framing.swift:121-138 | any messages, encoded, concatenated and cut anywhere, are delivered exactly with an empty buffer |
| `StreamDecoder.BytesAreConserved` | client-macos/Protocol/Framing.swift:217-261 | bytes in are the emitted frames, in order, followed by the bytes at which decoding stopped: the buffer, which holds at most max(limit, 0) + 9 bytes, or the very fault reported, and then the buffer is empty |
| `Ranges.Subtract` | client-macos/Collections/CollectionRangeTracker.swift:185-205 | the nested loops compute the difference |
| `Ranges.DifferenceIsExact` | client-macos/Collections/CollectionRangeTracker.swift:181-205 | the points left are those of the holes outside every cover, overlapping or not; ordered disjoint holes leave ordered, disjoint, non-empty pieces |
| `RangeTracker.AlignedWindowIsSound` | client-macos/Collections/CollectionRangeTracker.swift:100-118 | for all inputs: bounds, coverage of every visible item and of the prefetch margin, tight page alignment at both ends, width, and exactly when there is no window |
| `RangeTracker.CollectionRangeTracker.Requests` | client-macos/Collections/CollectionRangeTracker.swift:50-98 | the new pending list and the request are those of the response function |
| `RangeTracker.CollectionRangeTracker.NoteArrived` | client-macos/Collections/CollectionRangeTracker.swift:36-40 | pending coverage of the range is cleared, the rest keeps its issue time |
| `RangeTracker.CollectionRangeTracker.NoteDropped` | client-macos/Collections/CollectionRangeTracker.swift:42-47 | the same for a request that never left |
| `RangeTracker.CollectionRangeTracker.SubtractPending` | client-macos/Collections/CollectionRangeTracker.swift:136-145 | each pending window is replaced by what the cover leaves of it, with its issue time |
| `RangeTracker.CollectionRangeTracker.Reset` | client-macos/Collections/CollectionRangeTracker.swift:31-34 | nothing stays pending |
| `RangeTracker.RespondIsLeastHull` | client-macos/Collections/CollectionRangeTracker.swift:73-97 | after a call every index of the window is cached or pending; the one request is the least interval holding everything missing, and there is none exactly when nothing is missing |
| `RangeTracker.RequestsOnlyMissingExactly` | client-macos/Collections/CollectionRangeTracker.swift:82-97 | every requested index is missing exactly when there is one hole |
| `RangeTracker.HullAsksForCached` | client-macos/Collections/CollectionRangeTracker.swift:82-97 | a query with two holes whose request asks again for the cached items between them |
| `RangeTracker.RespondIsIdempotent` | client-macos/Collections/CollectionRangeTracker.swift:50-98 | asking again before anything changes or expires requests nothing and changes nothing |
| `RangeTracker.ExpiredIsRequestedAgain` | client-macos/Collections/CollectionRangeTracker.swift:132-134 | an uncached index whose covers have all expired is requested again |
| `RangeTracker.CachedExactly` | client-macos/Collections/CollectionRangeTracker.swift:76-81 | an index counts as cached exactly when a stretch whose end is representable holds it |
| `RangeTracker.WithoutIsExact` | client-macos/Collections/CollectionRangeTracker.swift:136-145 | clearing removes exactly the covered indices and keeps the issue time of all others |
| `RangeTracker.ClearIsExact` | client-macos/Collections/CollectionRangeTracker.swift:172-179 | exactly when an arrival leaves nothing of its range pending |
| `RangeTracker.OverflowingArrivalIsIgnored` | client-macos/Collections/CollectionRangeTracker.swift:172-179 | an arrival that ends past the last `UInt64` clears nothing of what is pending |
| `TrackerRuns.InFlightIsOutstanding` | client-macos/Collections/CollectionRangeTracker.swift:32-98 | in every run a pending index belongs to a request emitted at its window's issue time that has not since arrived, been dropped, been reset or outlived the TTL |
| `TrackerRuns.InFlightExactly` | client-macos/Collections/CollectionRangeTracker.swift:32-98 | in every run an index is in flight with a given issue time exactly when a call emitted it then and every call since kept it: not arrived, dropped, reset or expired, and within reach of each later window through indices of the same request still awaited |
| `TrackerRuns.NoIndexStarves` | client-macos/Collections/CollectionRangeTracker.swift:16-21 | on a monotonic clock, after every call each window index is cached or held by a request less than one TTL old that is still outstanding |
| `TrackerRuns.StaleExactly` | client-macos/Collections/CollectionRangeTracker.swift:132-134 | what the wrapping age test means on a monotonic clock and on one that stepped back |
| `TreeSnapshot.SnapshotBuilder.AppendNode` | client-macos/Accessibility/Accessibility.swift:413-460 | the recursive walk with its captured list and seen-set ends on every store and computes the visit |
| `TreeSnapshot.SnapshotBuilder.MakeTreeSnapshot` | client-macos/Accessibility/Accessibility.swift:404-473 | the snapshot of all roots in order |
| `SnapshotTheorems.SnapshotIsExact` | client-macos/Accessibility/Accessibility.swift:404-473 | on every store, cycles, sharing and dangling ids included: exactly the present nodes reachable from the roots, each once, each placed under an earlier snapshot or among the roots |
| `SnapshotTheorems.DepthCountsAncestors` | client-macos/Accessibility/Accessibility.swift:150-155 | where parent links agree, depth is ancestors plus one and index is the place among the parent's children or the roots |
| `SnapshotTheorems.SnapshotIsPreOrder` | client-macos/Accessibility/Accessibility.swift:209-210 | on a forest the snapshot is its pre-order listing |
| `SnapshotTheorems.BuildIndex` | client-macos/Accessibility/Accessibility.swift:243-248 | the dictionary maps each listed id to its last position |
| `SnapshotTheorems.LookUp` | client-macos/Accessibility/Accessibility.swift:258-261 | look-up by id agrees with linear search on every snapshot, and finds exactly the reachable present nodes |
| `SnapshotTheorems.QueriesAreExact` | client-macos/Accessibility/Accessibility.swift:369-390 | on every store `findAll` returns exactly the reachable nodes matching role and label, in snapshot order, and `find` the first of them |
| `ServiceGaps.MaxServiceGap` | protocol/generate_logical_channel_policy.py:87-94 | the derived gap is exact over the endless cycle: every window that long serves the class and some window one shorter does not |
| `ServiceGaps.GapsSumToCycle` | protocol/generate_logical_channel_policy.py:87-94 | the consecutive gaps of a class add up to the cycle length |
| `ServiceGaps.ExactGapIsUnique` | protocol/generate_logical_channel_policy.py:84-94 | only one number is exact in that sense |
| `ServiceGaps.LoadPolicy` | protocol/generate_logical_channel_policy.py:65-96 | accepts exactly the consistent lists and gives every class its exact gap |
| `CaptureBoundary.Boundary.DispositionFor` | client-macos/Benchmarks/BenchmarkScreenCapture.swift:116-142 | the answer and the new state are those of the state machine |
| `CaptureBoundary.Boundary.ArmAfter` | client-macos/Benchmarks/BenchmarkScreenCapture.swift:109-114 | arms only a boundary that waits for it, so a cutoff once set stays |
| `CaptureBoundary.Boundary.AcceptFrame` | client-macos/Benchmarks/BenchmarkScreenCapture.swift:144-165 | the verdict and the new state, and the callback fires exactly on acceptance |
| `CaptureBoundary.StateIsHistory` | client-macos/Benchmarks/BenchmarkScreenCapture.swift:90-95 | in every interleaving the state, cutoff included, is told by the first frame, the first arm after it and the first acceptance past its cutoff |
| `CaptureBoundary.AnswersAreExact` | client-macos/Benchmarks/BenchmarkScreenCapture.swift:109-165 | one baseline, the first frame; candidates exactly past the cutoff and before acceptance; one acceptance |
| `CaptureBoundary.NothingPassesBeforeArm` | client-macos/Benchmarks/BenchmarkScreenCapture.swift:125-128 | every frame between baseline and arm is dropped |
| `PixelDelta.DeltaEvidence` | client-macos/Benchmarks/BenchmarkScreenCapture.swift:596-655 | in bounds; compares exactly the area less the clipped mask; counts and maximum over compared pixels; exactly when there is none, and when the program stops |
| `PixelDelta.NegativeSizesTrap` | client-macos/Benchmarks/BenchmarkScreenCapture.swift:602-618 | a picture with two negative sizes that stops the program |
| `PixelDelta.MaterialCountLaws` | client-macos/Benchmarks/BenchmarkScreenCapture.swift:633-645 | the count is symmetric in the buffers and never grows with tolerance |
| `PixelDelta.OutcomeIsSymmetric` | client-macos/Benchmarks/BenchmarkScreenCapture.swift:596-655 | swapping the buffers changes nothing of the outcome: counts, largest difference and whether there is evidence at all |
| `PixelDelta.NoMaterialPixelIffWithinTolerance` | client-macos/Benchmarks/BenchmarkScreenCapture.swift:638-645 | no pixel is material exactly when the largest channel difference is within tolerance |
| `PixelDelta.MaxDeltaBoundsBytes` | client-macos/Benchmarks/BenchmarkScreenCapture.swift:622-645 | the largest difference is within a bound exactly when every byte of every pixel outside the mask is |

## Left out

- Reissue of pid, group or session numbers beyond what a recorded session distinguishes; the code concedes it, and the protocol takes it as an assumption.
- Non-building plans, which take no lock and install no handler, and the wait and time-out messages of the lock.
- The order in which file operations reach the disk between two syncs: the directory is modelled as live, and a sync as an operation that may fail.
- Asynchronous interruption of a file operation after it took effect, during staging.
- `ManagedProcess.start` and `run_managed_command`, which only combine the calls modelled here, and the parsing of a command's status.
- Parsing of `ps` output and JSON, git plumbing, check selection, argument parsing.
- The node and model identifiers copied into each range request, and equality of trackers.
- Semantic node properties other than identity, structure, role and label, and the handles that queries wrap around nodes.
- Regular expressions and field checks on the policy file, and the rendering of generated code.
- AppKit, WebKit, ScreenCaptureKit and SwiftUI code, the benchmark sections and the report's Markdown.
- The server, the session, the event outbox and the logical-channel scheduler.
