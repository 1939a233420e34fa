# A verified model of the TitanEngine adapter

The adapter drives x64dbg on top of DbgEng and the TTD replay engine. It keeps global tables of
breakpoints, pages, pending steps, registers, handles and replay watchpoints. This project models those
tables and the code that changes them, and proves what they promise together. The operating system,
DbgEng and the replay cursor are small abstract state: target memory, page protections, suspend counts,
per-thread registers and an integer timeline. Their answers may always be refusals.

Each component comes in two forms. Functions on immutable values say what every operation does, and the
lemmas are about them. Classes hold the same tables as mutable fields and run the loops of the source;
their contracts tie the new state to those functions. The ghost counter `refusals` in a class counts the
system calls that failed, so that a contract can say exactly when an operation succeeds.

| file | part of the adapter |
|---|---|
| target.dfy, common.dfy | target memory, pages and protections; shared helpers |
| guard_pages.dfy, memory_breakpoints.dfy | memory breakpoints, the reference-counted page table, debugger reads |
| patches.dfy, native_breakpoints.dfy | software and execute patches, trap routing, the filtered memory read |
| step_engine.dfy, step_scheduler.dfy | the hidden single step, peer suspension, user steps |
| live_protocol.dfy, live_cycles.dfy | a live session as a transition system over the three parts above, and its whole cycles |
| register_cache.dfy | the register write-back cache and the thread scope |
| trace_memory.dfy, trace_map.dfy, trace_run.dfy, trace_watch.dfy, trace_timeline.dfy | trace replay |
| synthetic_handles.dfy, handles.dfy | synthetic handles and the handle registry |

`dafny verify dfyconfig.toml` checks everything.

## Findings

README.md:32-35 of the repository says that suspending the peers keeps concurrent accesses from escaping
while a guard is clear, and that handles are tracked in an authoritative ownership registry. Both hold in
the model under stated conditions. Where the code promises more than it keeps, a lemma gives the exact
condition:

- A refused suspension is skipped (`ArmIsolatesIff`), and a thread that cannot take the trap flag loses its
  re-arm and its user step (`ScheduleKeepsActionIff`, `ScheduleKeepsUserStepIff`).
- A thread that starts during a hidden step is not suspended (`StartKeepsForm`).
- A user step requested while its thread has a hidden step pending loses its execution status when that
  completes (`RequestStrandsNoneIff`, `RequestOutlivesCompletionIff`, with a run in `SecondHitStrandsUserStep`);
  no other request does (`PromptRunsStrandNone`).
- A trap flag that is refused, or a thread without a handle, forgets the user step but keeps its status, so the engine
  is asked to step on with nobody waiting (`ScheduleLeavesNoStaleStatusIff`).
- The status to continue with comes from the lowest thread that has one, so a guard fault is not continued as handled
  when a thread of lower index has a user step, or when its callback asked for one (`StepContinuesHandledIff`).
- A thread that exits during its hidden step leaves its peers suspended (`ExitKeepsCountsIff`).
- A debugger read guards a page that a hidden step holds open (`ReadDisturbsIff`).
- Overlapping patches are accepted and may leave a stray byte (`OldestFirstRestoresIff`, `OverlapLeavesStrayByte`).
- A failed flush followed by a failed read carries register values to another thread (`LeavingKeepsPreviousIff`).
- A data access at the address of a replay code breakpoint is reported as that breakpoint (`CodeEventsAreExecutionsIff`).
- An image that replaces another at the same base is not announced (`PathsFollowIff`).
- A range that ends in the middle of a page with a gap after it makes the regions of the map walk overlap
  (`UnalignedEndOverlaps`); `WalkExactIff` says exactly when the walk is right.
- A close refused at the end of a session is forgotten (`EndKeepsBalanceIff`).

## Model

| member | source | states |
|---|---|---|
| GuardPages.CoveredPagesMeaning | src/TitanEngine/TitanEngine.cpp:4306-4311 | the page span of a memory breakpoint is exactly the set of pages of its watched bytes |
| GuardPages.SpanPagesMeaning | src/TitanEngine/TitanEngine.cpp:2550-2561 | the pages of a debugger read are exactly those of its bytes |
| GuardPages.CanAddMeaning | src/TitanEngine/TitanEngine.cpp:4256-4312 | a breakpoint can be added exactly when its bytes lie in the address space and every page of them is tabled or committed |
| GuardPages.WatchesMeaning | src/TitanEngine/TitanEngine.cpp:4285-4342 | adding enters one breakpoint under the next id, removing takes one out, remove-all takes out all; ids are never reused |
| GuardPages.ReportsMeaning | src/TitanEngine/TitanEngine.cpp:840-850 | which access a breakpoint reports: its bytes, and access code 0 for reads, 1 for writes, 8 for executions |
| GuardPages.ReportedMeaning | src/TitanEngine/TitanEngine.cpp:984-990 | the reported breakpoint survives the fault if and only if it restores itself, and no other one goes |
| GuardPages.AddKeepsValid | src/TitanEngine/TitanEngine.cpp:4304-4342 | adding a breakpoint keeps: a page is tabled exactly when some breakpoint covers it, its id set is exactly the covering ids, protections differ from the initial ones only by guards on tabled pages; no exposed page changes |
| GuardPages.RemoveKeepsValid | src/TitanEngine/TitanEngine.cpp:810-829 | removing keeps the same, and a page whose last owner leaves gets its original protection back |
| GuardPages.ProtectKeepsValid | src/TitanEngine/TitanEngine.cpp:762-780 | guarding or exposing one page keeps the table and moves only that page |
| GuardPages.GuardUndoesExpose | src/TitanEngine/TitanEngine.cpp:762-780 | exposing a guarded page and guarding it again gives table and protections back |
| GuardPages.RemoveUndoesAdd | src/TitanEngine/TitanEngine.cpp:794-830 | removing the breakpoint just added restores the whole state except the id counter |
| GuardPages.DetachUndoesAttach | src/TitanEngine/TitanEngine.cpp:4344-4360 | withdrawing an id from the touched pages restores tables and protections, whichever of them had been armed |
| GuardPages.PageTableDetermined | src/TitanEngine/TitanEngine.cpp:794-830 | two histories that end with the same breakpoints end with the same page table, and with the same protections once nothing is exposed |
| GuardPages.GuardedExactlyWhenCovered | src/TitanEngine/TitanEngine.cpp:993-1003 | with no hidden step pending a page is guarded if and only if some breakpoint covers it |
| GuardPages.EmptyTableRestoresBase | src/TitanEngine/TitanEngine.cpp:832-838 | with no breakpoint left the protection map is the initial one |
| GuardPages.ClearedIsBase | src/TitanEngine/TitanEngine.cpp:832-838 | removing every breakpoint restores the initial protections even while a hidden step holds a page open |
| GuardPages.ReadKeepsProtectionsIff | src/TitanEngine/TitanEngine.cpp:2548-2568 | a debugger read leaves all protections as they were if and only if it touches no page a hidden step holds open (finding: the read re-guards every watched page in its range) |
| MemoryBreakpoints.PageWatcher.ProtectPage | src/TitanEngine/TitanEngine.cpp:762-780 | one page changes or none, and the call succeeds exactly when the page is tabled, a process is active and the system accepts |
| MemoryBreakpoints.PageWatcher.DropOwnerEverywhere | src/TitanEngine/TitanEngine.cpp:810-829 | the removal loop over every page of the span is Detach on the covered pages; the table is cleaned even when a system call fails |
| MemoryBreakpoints.PageWatcher.RemoveById | src/TitanEngine/TitanEngine.cpp:794-830 | removal by id, including the unknown id and refused system calls |
| MemoryBreakpoints.PageWatcher.RemoveAll | src/TitanEngine/TitanEngine.cpp:832-838 | remove-all ends with empty tables, terminates with the breakpoint count as measure, and restores the initial protections when no call is refused |
| MemoryBreakpoints.PageWatcher.RemoveMemoryBpx | src/TitanEngine/TitanEngine.cpp:4364-4386 | succeeds exactly for a recorded start and size in the paused state when the system accepts |
| MemoryBreakpoints.PageWatcher.RegisterPages | src/TitanEngine/TitanEngine.cpp:4306-4342 | the forward loop registers a prefix of the covered pages; it completes exactly when all are committed and no call is refused |
| MemoryBreakpoints.PageWatcher.RollBack | src/TitanEngine/TitanEngine.cpp:4346-4357 | the undo loop withdraws the id from exactly the touched pages |
| MemoryBreakpoints.PageWatcher.Install | src/TitanEngine/TitanEngine.cpp:4304-4361 | a failed multi-page add, wherever it stops, leaves breakpoints and pages as before, and protections too whenever no call of the undo loop is refused |
| MemoryBreakpoints.PageWatcher.SetMemoryBpx | src/TitanEngine/TitanEngine.cpp:4254-4362 | exact success condition, new state on success, rollback on failure, the id spent in both cases |
| MemoryBreakpoints.PageWatcher.ReadAround | src/TitanEngine/TitanEngine.cpp:2548-2568 | the expose, read, guard-again sequence is Reguard on the span |
| MemoryBreakpoints.PageWatcher.SelectHit | src/TitanEngine/TitanEngine.cpp:963-981 | the search among the ids of the faulting page finds the least id of all breakpoints that match address and access, and finds one whenever any matches |
| MemoryBreakpoints.PageWatcher.BeginFault | src/TitanEngine/TitanEngine.cpp:956-990 | the fault handler up to the callback: handled exactly for a tabled page, the hit is the least matching id and never id 0, a breakpoint that does not restore itself goes |
| MemoryBreakpoints.PageWatcher.EndFault | src/TitanEngine/TitanEngine.cpp:992-1002 | after the callback a page that still has an owner is exposed and its re-arm is due, any other page is left alone |
| Patches.SetKeepsSound | src/TitanEngine/TitanEngine.cpp:4188-4214 | installing a patch that overlaps no other keeps the logical memory: saved bytes equal it, memory departs from it only inside installed patches |
| Patches.RestoreKeepsSound | src/TitanEngine/TitanEngine.cpp:4117-4128 | restoring the saved bytes keeps it |
| Patches.DeleteKeepsSound | src/TitanEngine/TitanEngine.cpp:4231-4247 | deletion keeps it |
| Patches.FireKeepsSound | src/TitanEngine/TitanEngine.cpp:1239-1254 | a hit keeps it, and the record survives the hit if and only if it is not one-shot |
| Patches.RearmKeepsSound | src/TitanEngine/TitanEngine.cpp:1268-1273 | the re-arm closure keeps it, also when the record is gone or the patch is already written |
| Patches.SetMeaning | src/TitanEngine/TitanEngine.cpp:4188-4214 | the new record has the next id, the request and the bytes it replaces; a software address is no longer retired; no other record moves |
| Patches.DeleteMeaning | src/TitanEngine/TitanEngine.cpp:4231-4247 | a deleted record is gone, its address retired, no other record moves |
| Patches.FireMeaning | src/TitanEngine/TitanEngine.cpp:1239-1254 | a hit takes the patch out; its record stays if and only if it is not one-shot, exactly a one-shot address is retired, no other record moves |
| Patches.FiredPatchIsOut | src/TitanEngine/TitanEngine.cpp:1239-1243 | after the hit the target reads the logical bytes where the patch was and the same as before elsewhere |
| Patches.RearmMeaning | src/TitanEngine/TitanEngine.cpp:1268-1273 | a re-arm writes the patch and nothing else; without its record it does nothing |
| Patches.RearmUndoesFire | src/TitanEngine/TitanEngine.cpp:1239-1273 | a persistent breakpoint that fires and is armed again leaves records and memory exactly as they were |
| Patches.NothingInstalledRestoresMemory | src/TitanEngine/TitanEngine.cpp:5360-5379 | with nothing installed the memory is the initial one |
| Patches.DeparturesAreInstalledPatches | src/TitanEngine/TitanEngine.cpp:4117-4128 | a byte that differs from the logical memory is the byte of an installed patch |
| Patches.Unwound | src/TitanEngine/TitanEngine.cpp:4168-4214 | patches set in any order with any overlaps and deleted newest first restore records and memory exactly |
| Patches.OldestFirstRestoresIff | src/TitanEngine/TitanEngine.cpp:4144-4151 | finding: two patches deleted oldest first restore memory if and only if the older patch agrees with memory on the overlap (the duplicate test compares addresses only) |
| Patches.OverlapLeavesStrayByte | src/TitanEngine/TitanEngine.cpp:4173-4186 | a concrete overlap, long INT3 and INT3 on its second byte, that leaves 03 behind |
| Patches.EmptiedIsLogical | src/TitanEngine/TitanEngine.cpp:5360-5379 | removing every patch gives the logical memory, also while a patch is out for a hidden step |
| Patches.MatchUnique | src/TitanEngine/TitanEngine.cpp:1229-1236 | with disjoint patches at most one record answers a reported address, so the search order is irrelevant |
| Patches.TrapFindsItsRecord | src/TitanEngine/TitanEngine.cpp:1229-1236 | the first byte of any patch, and the second byte of a CD 03 patch, are answered by that patch and by no other |
| Patches.MatchesMeaning | src/TitanEngine/TitanEngine.cpp:1229-1236 | by encoding: INT3 and UD2 answer only their own address, a long INT3 also the next one |
| Patches.EncodingBytes | src/TitanEngine/TitanEngine.cpp:4173-4197 | the three encodings are CC, CD 03 and 0F 0B, and there are no others |
| NativeBreakpoints.OverlayIsLogical | src/TitanEngine/TitanEngine.cpp:2581-2595 | outside hardware-execute patches, raw bytes with every software patch overlaid are the logical memory |
| NativeBreakpoints.BreakpointTable.SetBpx | src/TitanEngine/TitanEngine.cpp:4130-4215 | exact success condition, bytes chosen by the type bits and present in memory, new record, address no longer retired, invariant kept when the patch overlaps no other; a failed cache flush leaves the patch without a record |
| NativeBreakpoints.BreakpointTable.SetExecute | src/TitanEngine/TitanEngine.cpp:5232-5249 | an execute breakpoint is a one-byte patch with its own record |
| NativeBreakpoints.BreakpointTable.RestoreBytes | src/TitanEngine/TitanEngine.cpp:4117-4128 | writes the saved bytes back, succeeds exactly when no call is refused |
| NativeBreakpoints.BreakpointTable.DeleteBpx | src/TitanEngine/TitanEngine.cpp:4217-4252 | finds the record by address, restores, retires; a failed restore keeps the record |
| NativeBreakpoints.BreakpointTable.HandleTrap | src/TitanEngine/TitanEngine.cpp:1229-1288 | routing: a live match fires (or fails to restore) and is the only record that matches; then a one-shot record goes and its address is retired, any other stays, the logical bytes are back and the instruction pointer is set to its offset; a trap is suppressed as stale only when no live record matches |
| NativeBreakpoints.BreakpointTable.FireRecord | src/TitanEngine/TitanEngine.cpp:1238-1254 | what the handler does to the record it found; a refused restore leaves all records |
| NativeBreakpoints.BreakpointTable.RearmBytes | src/TitanEngine/TitanEngine.cpp:1268-1273 | the re-arm closure over the mutable table |
| NativeBreakpoints.BreakpointTable.RemoveAll | src/TitanEngine/TitanEngine.cpp:5360-5381 | a complete pass leaves no record and the initial memory; a refused write keeps every record |
| NativeBreakpoints.BreakpointTable.MemoryReadSafe | src/TitanEngine/TitanEngine.cpp:2571-2597 | a successful read returns the logical memory wherever no hardware-execute patch lies, for any overlap, order and mid-step state |
| NativeBreakpoints.BreakpointTable.OverlaySaved | src/TitanEngine/TitanEngine.cpp:2585-2594 | the overlay copies exactly the intersection of read and patch |
| StepEngine.ScheduleKeepsCounts | src/TitanEngine/TitanEngine.cpp:852-918 | for every answer of the system each suspend count stays base plus the number of pending hidden steps that list the thread, through refused suspensions, trap-flag rollback and chaining; a resume refused in the rollback counts as a base suspension |
| StepEngine.ScheduleKeepsForm | src/TitanEngine/TitanEngine.cpp:852-918 | scheduling keeps equal key sets of step callbacks and step ids, the pending form, and the place of a moved user step |
| StepEngine.BeginKeepsForm | src/TitanEngine/TitanEngine.cpp:929-944 | taking the actions out keeps counts and form: again exactly the threads with a pending hidden step have the trap flag and the handled status |
| StepEngine.EndKeepsCounts | src/TitanEngine/TitanEngine.cpp:946-952 | resuming the listed peers keeps the count equation, with refused resumes counted as base suspensions |
| StepEngine.StartKeepsForm | src/TitanEngine/TitanEngine.cpp:1328-1329 | a thread may start at any time; it ends the isolation of a hidden step exactly when one is pending |
| StepEngine.ExitKeepsForm | src/TitanEngine/TitanEngine.cpp:1372-1383 | an exit with no hidden step pending keeps counts and form |
| StepEngine.RequestKeepsForm | src/TitanEngine/TitanEngine.cpp:4990-5020 | debugStep keeps counts and form, also when it is refused |
| StepEngine.FinishKeepsForm | src/TitanEngine/TitanEngine.cpp:5538-5554 | handing a finished user step to the queue keeps counts and form |
| StepEngine.IdleCountsAreBase | src/TitanEngine/TitanEngine.cpp:946-952 | with no hidden step pending every suspend count is back at its base |
| StepEngine.ResumeUndoesSuspend | src/TitanEngine/TitanEngine.cpp:902-908 | the trap-flag rollback gives every count back except those of threads that refuse to be resumed |
| StepEngine.CompletionUndoesArm | src/TitanEngine/TitanEngine.cpp:894-952 | a hidden step that is armed and completed leaves the engine as it was, but for the status of its own thread |
| StepEngine.RequestStoresStep | src/TitanEngine/TitanEngine.cpp:5007-5019 | debugStep registers callback, system id and status for its own thread only; a status that is there stays, and a request during another step changes nothing |
| StepEngine.ExitForgetsThread | src/TitanEngine/TitanEngine.cpp:1379-1383 | an exiting thread leaves every table, no other thread is touched and nobody is resumed |
| StepEngine.ArmIsolatesIff | src/TitanEngine/TitanEngine.cpp:894-899 | the peers of a hidden step are all held if and only if the system suspends every one of them |
| StepEngine.ScheduleKeepsActionIff | src/TitanEngine/TitanEngine.cpp:852-918 | finding: a re-arm is queued if and only if it was before, or the current thread can be read and already has a hidden step or is known and takes the trap flag; otherwise the page or patch stays open |
| StepEngine.ScheduleKeepsUserStepIff | src/TitanEngine/TitanEngine.cpp:852-909 | finding: a registered user step survives scheduling if and only if the current thread cannot be read, or has a hidden step, or is known and takes the trap flag |
| StepEngine.ExitKeepsCountsIff | src/TitanEngine/TitanEngine.cpp:1379-1383 | finding: a thread exit keeps the suspend counts balanced if and only if that thread had suspended nobody |
| StepEngine.RequestStrandsNoneIff | src/TitanEngine/TitanEngine.cpp:4990-5020 | finding: debugStep keeps every registered user step provided with a status and free of a hidden step if and only if its thread has no hidden step pending at the call |
| StepEngine.RequestOutlivesCompletionIff | src/TitanEngine/TitanEngine.cpp:929-954 | finding: after the hidden step completes, a user step requested before still has its execution status if and only if the thread had no hidden step pending when it was requested |
| StepEngine.StepContinuesHandledIff | src/TitanEngine/TitanEngine.cpp:519-530 | finding: the event that started a hidden step is continued as handled if and only if its callback asked for no step and no thread of lower index decides with a user step of its own |
| StepEngine.ScheduleLeavesNoStaleStatusIff | src/TitanEngine/TitanEngine.cpp:873-909 | finding: scheduling leaves no status without a step if and only if no user step is lost on the exits of a thread without handle or trap flag |
| StepEngine.SecondHitStrandsUserStep | src/TitanEngine/TitanEngine.cpp:861-871 | a run that reaches that state |
| StepScheduler.Scheduler.SuspendPeers | src/TitanEngine/TitanEngine.cpp:894-899 | the loop suspends every other known thread that does not refuse, each once |
| StepScheduler.Scheduler.ResumeAll | src/TitanEngine/TitanEngine.cpp:946-952 | the loop resumes each listed thread once and ignores refusals; refused threads stay suspended |
| StepScheduler.Scheduler.ArmHiddenStep | src/TitanEngine/TitanEngine.cpp:894-917 | suspension, trap flag, rollback and storing of the actions over the mutable maps |
| StepScheduler.Scheduler.ScheduleInternalStep | src/TitanEngine/TitanEngine.cpp:852-918 | all exits: unreadable current thread, chaining, unknown thread, rollback, and success, which is certain when no call fails |
| StepScheduler.Scheduler.BeginCompleting | src/TitanEngine/TitanEngine.cpp:929-944 | the actions leave the map before they run; the trap flag and the status of this thread are cleared, no other flag moves |
| StepScheduler.Scheduler.EndCompleting | src/TitanEngine/TitanEngine.cpp:946-954 | resumes the peers, whatever the answers, and forgets them |
| StepScheduler.Scheduler.AddThread | src/TitanEngine/TitanEngine.cpp:1328-1329 | a create event makes the thread known |
| StepScheduler.Scheduler.DebugStep | src/TitanEngine/TitanEngine.cpp:4990-5020 | refused exactly while a step of the thread is registered; an existing status is not overwritten |
| StepScheduler.Scheduler.TakeFinishedStep | src/TitanEngine/TitanEngine.cpp:5538-5554 | the finished step leaves all three maps |
| StepScheduler.Scheduler.FinishEvent | src/TitanEngine/TitanEngine.cpp:519-530 | the status asked for during the event, or that of the lowest thread with one, or handled |
| StepScheduler.Scheduler.ForgetThread | src/TitanEngine/TitanEngine.cpp:1379-1383 | the erasures of a thread exit |
| LiveProtocol.RunKeepsCore | src/TitanEngine/TitanEngine.cpp:852-1006 | after every run of target events, thread starts and exits, handler steps with any refusals, and calls (patches also while the target runs) the tables, the logical memory, the suspend-count equation and the uniqueness of step callbacks hold; isolation and pending re-arms hold too when nothing was refused |
| LiveProtocol.ExposedPageIsIsolated | src/TitanEngine/TitanEngine.cpp:891-899 | in every reachable running state a watched page lacks its guard only under a pending hidden step that will guard it again, with every other thread suspended |
| LiveProtocol.MissingPatchIsIsolated | src/TitanEngine/TitanEngine.cpp:1266-1274 | likewise a live patch is missing only under a pending hidden step that will write it |
| LiveProtocol.ExecutingThreadSeesGuards | src/TitanEngine/TitanEngine.cpp:993-1003 | no access escapes: a thread free to execute finds every watched page guarded |
| LiveProtocol.ExecutingThreadSeesPatches | src/TitanEngine/TitanEngine.cpp:1266-1274 | no breakpoint is passed: such a thread finds every live patch in memory |
| LiveProtocol.TrapNamesItsPatch | src/TitanEngine/TitanEngine.cpp:1229-1236 | in every reachable state, after any refusals, the reported address determines the record that a trap fires |
| LiveProtocol.TrapFlagIffPending | src/TitanEngine/TitanEngine.cpp:901-943 | over every run, whatever is refused, a thread has the trap flag if and only if it has a hidden step pending, and only then continues as handled |
| LiveProtocol.StatusesAreWaitedFor | src/TitanEngine/TitanEngine.cpp:917-943 | when nothing is refused every execution status belongs to a user step or a hidden step that is waited for |
| LiveProtocol.WatchedAccessFaults | src/TitanEngine/TitanEngine.cpp:956-981 | every access of an executing thread that some breakpoint watches hits a guarded page and reports the matching breakpoint with the least id |
| LiveProtocol.FaultIsTaken | src/TitanEngine/TitanEngine.cpp:984-990 | a fault exposes its own page only and retires the reported breakpoint if and only if that does not restore itself |
| LiveProtocol.FaultIsAnswered | src/TitanEngine/TitanEngine.cpp:992-1002 | the end of the handler leaves a page with owners open and, when granted, its thread under the trap flag with the re-arm queued; a page without owner needs neither |
| LiveProtocol.HitIsTaken | src/TitanEngine/TitanEngine.cpp:1239-1254 | a breakpoint hit gives the logical bytes back; the record survives if and only if it is not one-shot, exactly a one-shot address is retired, no other record moves |
| LiveProtocol.HitIsAnswered | src/TitanEngine/TitanEngine.cpp:1266-1275 | the re-arm of a hit is queued, when granted, exactly for a record that is still there |
| LiveProtocol.ActionIsDone | src/TitanEngine/TitanEngine.cpp:911-945 | the action of a completing step guards its page, writes its patch or runs its callback, and does nothing else |
| LiveCycles.EventsAreWorkedOff | src/TitanEngine/TitanEngine.cpp:929-954 | the adapter is never stuck with an event: whatever is answered, the next part of its handler can be done, and after one part per queued action and one more the target can continue |
| LiveCycles.FaultLeavesNoTrace | src/TitanEngine/TitanEngine.cpp:956-1004 | from a fault to the moment its thread runs on: tables, protections, patches and suspend counts are exactly as before, and a user step of the thread has been taken |
| LiveCycles.HitLeavesNoTrace | src/TitanEngine/TitanEngine.cpp:1237-1276 | likewise from the hit of a persistent breakpoint: its record and its bytes in memory are back |
| LiveProtocol.ArmedBeforePeersResume | src/TitanEngine/TitanEngine.cpp:941-952 | when the actions have run and the peers are still suspended, everything is armed again |
| LiveProtocol.SuspendCountsConserved | src/TitanEngine/TitanEngine.cpp:894-952 | over every run, with any refusals, a suspend count is the base count plus the pending hidden steps that list the thread plus its refused resumes; with no hidden step under way only base and refused resumes remain |
| LiveProtocol.StepCallbacksRunOnce | src/TitanEngine/TitanEngine.cpp:911-916 | whatever is refused, a step callback is in at most one place and runs at most once |
| LiveProtocol.StepCallbacksConserved | src/TitanEngine/TitanEngine.cpp:911-916 | when nothing is refused, an accepted step callback waits in exactly one place until it has run |
| LiveProtocol.PromptRunsStrandNone | src/TitanEngine/TitanEngine.cpp:4990-5020 | over every run, with any refusals, in which no user step is requested for a thread with a pending hidden step, every registered user step keeps its execution status |
| LiveProtocol.RemoveAllRestoresTarget | src/TitanEngine/TitanEngine.cpp:5357-5381 | in every reachable state a complete remove-all restores protections and memory at once, in the middle of a hidden step too |
| LiveProtocol.CleanSessionLeavesNoTrace | src/TitanEngine/TitanEngine.cpp:5339-5382 | no pending step and no breakpoint: protections and memory are the initial ones, and so are the suspend counts unless a resume was refused |
| LiveProtocol.ReadDisturbsIff | src/TitanEngine/TitanEngine.cpp:2562-2565 | finding: a debugger read changes the session if and only if it touches an exposed page |
| RegisterCache.FlushedKeepsLogical | src/TitanEngine/TitanEngine.cpp:1938-1962 | a flush, successful or not, changes no logical register |
| RegisterCache.SwitchKeepsLogical | src/TitanEngine/TitanEngine.cpp:2174-2188 | switching threads after a flush and re-reading changes no logical register |
| RegisterCache.AssignedSetsOneCell | src/TitanEngine/TitanEngine.cpp:1964-1996 | setting a register changes one cell of the thread-by-register map |
| RegisterCache.SetCellMeaning | src/TitanEngine/TitanEngine.cpp:1981-1995 | the addressed cell holds the new value and every other cell of every thread its old one |
| RegisterCache.ModulusMeaning | src/TitanEngine/TitanEngine.cpp:1973-1991 | a register of 8, 16, 32 or 64 bits holds the numbers below two to the power of the width; no other can be assigned |
| RegisterCache.FittingIsKept | src/TitanEngine/TitanEngine.cpp:1973-1991 | a value that fits the width is stored as it is |
| RegisterCache.EntersIff | src/TitanEngine/TitanEngine.cpp:2168-2187 | a thread can be borrowed exactly when it is selected already, or it is selected now and no pending write is refused |
| RegisterCache.WrittenIsRead | src/TitanEngine/TitanEngine.cpp:4787-4807 | a get after a set that reached its thread returns the value set for that register, and for every other register of every thread what was there before |
| RegisterCache.LeavingKeepsPreviousIff | src/TitanEngine/TitanEngine.cpp:2192-2202 | finding: leaving a scope keeps the previous thread's registers if and only if it cannot be selected again, or the re-read or the flush succeeds, or the pending values happen to agree |
| RegisterCache.ServedRefines | src/TitanEngine/TitanEngine.cpp:4787-4807 | one get, set, pointer write or resume on the cache is that access on the plain map, and the selected thread comes back |
| RegisterCache.CacheRefinesPlainMap | src/TitanEngine/TitanEngine.cpp:1938-2210 | any sequence of accesses on any threads, with any flush and selection outcomes, equals the same writes on one plain map, and a successful flush at the end leaves nothing pending |
| RegisterCache.GetsReturnPlainMap | src/TitanEngine/TitanEngine.cpp:2157-2190 | every get of such a sequence returns the cell of the plain map after all the writes before it, or 0 when the thread could not be borrowed |
| RegisterCache.Cache.Flush | src/TitanEngine/TitanEngine.cpp:1938-1962 | collects the marked indices and delivers exactly those; a refused call changes nothing |
| RegisterCache.Cache.Read | src/TitanEngine/TitanEngine.cpp:1918-1935 | replaces the values and keeps the marks; only one failure code is noticed |
| RegisterCache.Cache.SetValue | src/TitanEngine/TitanEngine.cpp:1964-1996 | succeeds exactly for integer registers and truncates to the register width |
| RegisterCache.Cache.GetValue | src/TitanEngine/TitanEngine.cpp:2008-2040 | reads the logical value of the selected thread; an unknown or non-integer register reads 0 |
| RegisterCache.Cache.EnterScope | src/TitanEngine/TitanEngine.cpp:2157-2190 | valid exactly for known handles when no engine call fails; no logical register changes |
| RegisterCache.Cache.LeaveScope | src/TitanEngine/TitanEngine.cpp:2192-2202 | the previous thread is selected again and an undelivered write is dropped, not sent to it |
| RegisterCache.Cache.GetContextData | src/TitanEngine/TitanEngine.cpp:4787-4791 | one GetRegister access: its state and its answer, a read of the plain map that leaves map and selected thread alone |
| RegisterCache.Cache.SetContextData | src/TitanEngine/TitanEngine.cpp:4793-4807 | one SetRegister access: a write of one cell of the plain map, which afterwards holds the value itself when that fits the width; when it reports failure, either nothing changed or that cell did |
| RegisterCache.Cache.FlushBeforeResume | src/TitanEngine/TitanEngine.cpp:5602-5608 | nothing stays pending at resume |
| RegisterCache.Cache.SetInstructionPointer | src/TitanEngine/TitanEngine.cpp:2150-2153 | the pointer write is logical at once and delivered later |
| TraceMemory.ReadableFromIff | src/TTD/TTD.cpp:51-64 | the delivered length is the longest gap-free prefix: all of it available, the next byte not |
| TraceMemory.Cursor.ReadMemoryPartial | src/TTD/TTD.cpp:51-64 | terminates for any chunk sizes, never exceeds the request, fills exactly the returned prefix with the memory there, stops only at the first unavailable address |
| TraceMemory.Cursor.ReadMemory | src/TTD/TTD.cpp:66-69 | succeeds exactly when the whole range is available |
| TraceMap.QueryContainsAddress | src/TitanEngine/TitanEngine.cpp:2649-2762 | every answer contains the queried address, whatever the ranges |
| TraceMap.QueryMeaning | src/TitanEngine/TitanEngine.cpp:2726-2761 | an address is reported free if and only if no known range holds it and the cursor has no byte there; a readable one outside every range is its own private page; any other answer is a range that holds it |
| TraceMap.FreeRegionMeaning | src/TitanEngine/TitanEngine.cpp:2741-2761 | a free region begins at its page and ends at the next known start above the address or the maximum, one page at least |
| TraceMap.FirstListedAnswers | src/TitanEngine/TitanEngine.cpp:2654-2724 | of several ranges that hold the address the one listed first answers |
| TraceMap.ModuleRangesMeaning | src/TitanEngine/TitanEngine.cpp:2654-2660 | the known image ranges are those of the modules that are not empty, with their exact bounds |
| TraceMap.ThreadRangesMeaning | src/TitanEngine/TitanEngine.cpp:2684-2713 | the known private ranges are the stack, from limit to base, and the TEB page of every thread that has them |
| TraceMap.WalkExactIff | src/TitanEngine/TitanEngine.cpp:2649-2762 | for any disjoint non-empty ranges the walk from 0 tiles the space and shows every range with its exact bounds if and only if every range ends page-aligned, at another's start or at the maximum, and starts page-aligned, at another's end, or above an unreadable page of the gap before it |
| TraceMap.UnalignedEndOverlaps | src/TitanEngine/TitanEngine.cpp:2726-2761 | finding: a module that ends in the middle of a page with a gap after it is covered twice |
| TraceMap.WholeWalk | src/TitanEngine/TitanEngine.cpp:2649-2762 | in particular for page-aligned ranges each module, stack and TEB range appears exactly once in a tiling walk |
| TraceMap.RecordedProcess.MemoryQuery | src/TitanEngine/TitanEngine.cpp:2649-2762 | the loops with their early returns compute the query; free exactly outside every range where the cursor has no byte, a private page where it has one |
| TraceMap.RecordedProcess.SearchModules | src/TitanEngine/TitanEngine.cpp:2653-2672 | the module loop finds the first module holding the address |
| TraceMap.RecordedProcess.SearchThreads | src/TitanEngine/TitanEngine.cpp:2679-2724 | the thread loop continues with stack and TEB of every thread |
| TraceMap.RecordedProcess.SearchThread | src/TitanEngine/TitanEngine.cpp:2684-2723 | its body: the stack before the TEB |
| TraceMap.RecordedProcess.NextKnownStart | src/TitanEngine/TitanEngine.cpp:2747-2755 | the gap ends at the least range start above the address |
| TraceRun.NearestBefore | src/TitanEngine/TitanEngine.cpp:3862-3878 | going back the selection loop finds the greatest recorded position after the start of the recording and before the current one, and nothing exactly when there is none |
| TraceRun.NearestAfter | src/TitanEngine/TitanEngine.cpp:3862-3878 | going forward it finds the least one after the current position and before the end |
| TraceRun.FirstListedWins | src/TitanEngine/TitanEngine.cpp:3868-3877 | of several exceptions at the chosen position the one listed first is reported |
| TraceRun.StopsAreTheLaterExceptions | src/TitanEngine/TitanEngine.cpp:3862-3878 | repeated forward runs stop at every later exception position once, in increasing order; one at the very end is never a stop |
| TraceRun.RunsVisitStopsThenPark | src/TitanEngine/TitanEngine.cpp:3941-3955 | the k-th run reaches the k-th stop, then the position one before the end |
| TraceRun.ParkedStaysParked | src/TitanEngine/TitanEngine.cpp:3941-3955 | from the parked position every further run returns to it |
| TraceRun.EndStaysEnd | src/TitanEngine/TitanEngine.cpp:3941-3955 | a run from the very end moves nowhere |
| TraceRun.ReverseStopsAtExceptionIff | src/TitanEngine/TitanEngine.cpp:3884-3928 | a reverse run ends at the greatest of the start, the reach and the recorded positions in between: it never passes an exception, and stops at the nearest one if and only if that is within reach |
| TraceRun.TrailMeetsEarlierExceptions | src/TitanEngine/TitanEngine.cpp:3862-3928 | repeated reverse runs go strictly back, meet every earlier exception once, end at the start and stop nowhere else but at the reach of one run |
| TraceRun.ReverseRunsVisitTrail | src/TitanEngine/TitanEngine.cpp:3862-3928 | the k-th reverse run reaches the k-th of these stops, and from the start every further one stays there |
| TraceRun.ReplaySession.RunTtd | src/TitanEngine/TitanEngine.cpp:3850-4043 | the whole run, with stop and interrupt requests arriving at any time: no recorded exception is left behind, one that is reported lies strictly ahead, no hit is skipped, outcome and final position are exact when the run was not asked to end and there are no hits |
| TraceRun.ReplaySession.Attempt | src/TitanEngine/TitanEngine.cpp:3880-3907 | at most two replays; a stale report at the current position is ignored |
| TraceRun.ReplaySession.StepBack | src/TitanEngine/TitanEngine.cpp:3908-3928 | the bounded single-step fallback of a reverse run |
| TraceRun.ReplaySession.Travel | src/TitanEngine/TitanEngine.cpp:3880-3939 | after the replays the cursor stands on the position of the hit it reports |
| TraceRun.ReplaySession.Park | src/TitanEngine/TitanEngine.cpp:3941-3955 | a forward run that met nothing parks one step before the end |
| TraceWatch.MatchesAsRegisteredIff | src/TitanEngine/TitanEngine.cpp:2937-2946 | a memory breakpoint's own test accepts everything it registers for, and agrees with the registered mask exactly for reads, writes and executions or when it watches reads or writes only |
| TraceWatch.KindMeaning | src/TitanEngine/TitanEngine.cpp:782-792 | by kind: the accesses a memory breakpoint registers for and those its own test accepts |
| TraceWatch.RecordsMeaning | src/TitanEngine/TitanEngine.cpp:3026-3043 | adding enters one record, dropping takes one out, the other table is left alone |
| TraceWatch.AddCodeKeepsRegistered | src/TitanEngine/TitanEngine.cpp:3026-3043 | adding a code breakpoint keeps the cursor's watchpoint multiset equal to the one derived from the tables |
| TraceWatch.DropCodeKeepsRegistered | src/TitanEngine/TitanEngine.cpp:4223-4230 | so does deleting one |
| TraceWatch.AddMemoryKeepsRegistered | src/TitanEngine/TitanEngine.cpp:4293-4303 | so does adding a memory breakpoint |
| TraceWatch.DropMemoryKeepsRegistered | src/TitanEngine/TitanEngine.cpp:800-808 | so does removing one |
| TraceWatch.DeliverableIff | src/TitanEngine/TitanEngine.cpp:2958-2988 | which hits the cursor can report, in terms of the two tables |
| TraceWatch.DroppedHitsIff | src/TitanEngine/TitanEngine.cpp:2969-2990 | the filter drops a hit if and only if it is an execution that only other threads' temporaries asked for |
| TraceWatch.CodeEventsAreExecutionsIff | src/TitanEngine/TitanEngine.cpp:2974-2981 | finding: every hit reported as a code breakpoint is an execution if and only if no data watch covers its address |
| TraceWatch.WatchTables.Accept | src/TitanEngine/TitanEngine.cpp:2958-3001 | the filter accepts a hit exactly when some record wants it |
| TraceWatch.WatchTables.QueueHit | src/TitanEngine/TitanEngine.cpp:3568-3627 | the queue delivers an event exactly for the hits the filter accepts, for the least matching id, code before memory, and retires a one-shot record |
| TraceWatch.WatchTables.RemoveById | src/TitanEngine/TitanEngine.cpp:800-808 | a recorded breakpoint's watchpoint can always be removed |
| TraceWatch.WatchTables.AddCodeBreak | src/TitanEngine/TitanEngine.cpp:3026-3043 | record and watchpoint appear together or not at all |
| TraceWatch.WatchTables.AddMemoryBreak | src/TitanEngine/TitanEngine.cpp:4293-4303 | likewise for memory breakpoints; the id is spent when the cursor refuses |
| TraceWatch.WatchTables.DeleteCodeBreak | src/TitanEngine/TitanEngine.cpp:4217-4230 | record and watchpoint disappear together |
| TraceTimeline.DeltaTeaches | src/TitanEngine/TitanEngine.cpp:3496-3566 | a listener who knew one position knows the next after the queued events |
| TraceTimeline.MovesTeach | src/TitanEngine/TitanEngine.cpp:3496-3566 | over any sequence of moves the queued events folded over the bootstrap view give exactly the threads and module bases of the last position |
| TraceTimeline.PathsFollowIff | src/TitanEngine/TitanEngine.cpp:3552-3565 | finding: the listener's module paths are right too if and only if no kept base changed its image |
| TraceTimeline.Timeline.RefreshThreads | src/TitanEngine/TitanEngine.cpp:3501-3550 | one event for each thread difference, none else, none twice; null entries skipped |
| TraceTimeline.Timeline.RefreshModules | src/TitanEngine/TitanEngine.cpp:3552-3565 | load and unload events are exactly the base differences, with the listed and the remembered paths, and none twice when no base is listed twice |
| TraceTimeline.Timeline.AnnounceLoads | src/TitanEngine/TitanEngine.cpp:3552-3559 | its first loop announces each listed base that is new |
| TraceTimeline.Timeline.AnnounceUnloads | src/TitanEngine/TitanEngine.cpp:3560-3564 | its second loop announces each remembered base that is absent, once, with the remembered path |
| TraceTimeline.Timeline.Refresh | src/TitanEngine/TitanEngine.cpp:3496-3566 | one refresh emits only the set differences to the last position, none twice when no base is listed twice |
| SyntheticHandles.ComposedIsSynthetic | src/TitanEngine/TitanEngine.cpp:693-700 | the shift, mask and or expression is tag plus the low 43 bits of the serial (x64) |
| SyntheticHandles.ComposedIsSynthetic32 | src/TitanEngine/TitanEngine.cpp:693-700 | and the low 24 bits on x86 |
| SyntheticHandles.SyntheticRepeatsIff | src/TitanEngine/TitanEngine.cpp:695-697 | two creations share a handle if and only if their distance is a multiple of 2^43, across counter wrap |
| SyntheticHandles.Synthetic32RepeatsIff | src/TitanEngine/TitanEngine.cpp:695-699 | on x86 a multiple of 2^24 |
| SyntheticHandles.SyntheticIsUsable | src/TitanEngine/TitanEngine.cpp:693-704 | never null, never INVALID_HANDLE_VALUE, never a multiple of four |
| Handles.NextSyntheticIsNew | src/TitanEngine/TitanEngine.cpp:693-704 | a new synthetic handle overwrites no registered one while fewer than 2^43 have been made |
| Handles.FirstSyntheticHandle | src/TitanEngine/TitanEngine.cpp:274-274 | the first synthetic handle carries serial 1 |
| Handles.OpenMeaning | src/TitanEngine/TitanEngine.cpp:5773-5833 | an opened handle is entered as owned by the caller with itself to close; null and INVALID_HANDLE_VALUE are not entered; nothing else moves |
| Handles.ArriveMeaning | src/TitanEngine/TitanEngine.cpp:1328-1330 | a handle from a create event, native or synthetic, is entered as the engine's and linked both ways to its index; no other handle moves |
| Handles.OpenSyntheticMeaning | src/TitanEngine/TitanEngine.cpp:5784-5795 | a synthetic handle a caller opens is closable, knows its index and does not take the index over |
| Handles.DepartMeaning | src/TitanEngine/TitanEngine.cpp:1372-1378 | an exit takes index and handle out of both maps and the registry, and no other handle |
| Handles.CloseMeaning | src/TitanEngine/TitanEngine.cpp:5910-5929 | a close that goes through forgets the handle in the registry and both maps and counts one native close; any other call changes nothing |
| Handles.EndMeaning | src/TitanEngine/TitanEngine.cpp:724-733 | the end of a session forgets every handle and index and goes on counting synthetic handles |
| Handles.OpenKeepsBalanceIff | src/TitanEngine/TitanEngine.cpp:680-686 | registering an opened handle keeps opens and closes balanced if and only if that value is not already owed |
| Handles.ArriveKeepsBalanceIff | src/TitanEngine/TitanEngine.cpp:1328-1330 | a create event keeps the balance if and only if it overwrites no owed entry |
| Handles.BindKeepsInverseIff | src/TitanEngine/TitanEngine.cpp:1328-1329 | binding a handle keeps handle-to-index a left inverse if and only if no other index names it |
| Handles.LeaveKeepsInverse | src/TitanEngine/TitanEngine.cpp:1372-1378 | an exit always keeps it |
| Handles.ForgetKeepsInverseIff | src/TitanEngine/TitanEngine.cpp:5919-5926 | closing keeps it if and only if no index names the closed handle |
| Handles.EndSettles | src/TitanEngine/TitanEngine.cpp:724-733 | after a session opens exceed closes by exactly the owed handles whose close the system refused |
| Handles.EndKeepsBalanceIff | src/TitanEngine/TitanEngine.cpp:724-733 | finding: the end of a session closes everything opened if and only if the system refuses none of the closes, since the registry is cleared either way |
| Handles.NextKeepsInv | src/TitanEngine/TitanEngine.cpp:680-733 | every event keeps balance, keys, left inverses, the rule that indexed handles are borrowed, and that a handle with an index is registered with that kind |
| Handles.HandlesClosedOnce | src/TitanEngine/TitanEngine.cpp:724-733 | over any number of sessions each native handle is closed as often as it was obtained, never twice, never when borrowed, and completely at the end of a session |
| Handles.IndexedHandlesAreBorrowed | src/TitanEngine/TitanEngine.cpp:3512-3516 | in every reachable registry index and handle find each other and the handle cannot be closed by a caller |
| Handles.IndexedHandlesAreRegistered | src/TitanEngine/TitanEngine.cpp:5919-5926 | in every reachable registry a handle that still has an index is registered, with the kind of its map |
| Handles.HandleRegistry.Create | src/TitanEngine/TitanEngine.cpp:693-704 | the counter, the expression and the entry |
| Handles.HandleRegistry.CloseHandle | src/TitanEngine/TitanEngine.cpp:5910-5929 | refuses handles that are not caller-owned; a refused close keeps the entry |
| Handles.HandleRegistry.CloseCallerOwned | src/TitanEngine/TitanEngine.cpp:724-733 | the closing loop closes each owed handle once |
| Handles.HandleRegistry.ThreadLeaves | src/TitanEngine/TitanEngine.cpp:1364-1378 | a thread exit erases both maps and the entry |
| Handles.HandleRegistry.RefreshThreads | src/TitanEngine/TitanEngine.cpp:3501-3550 | after a timeline refresh exactly the active threads have handles, those that stay keep theirs, and the invariant holds |

## Left out

- COM and DbgEng setup, DLL loading, logging, file mapping, privileges, launching and attaching: I/O and foreign calls.
- Extended, AVX and AVX-512 contexts and the x87 fields: fixed-size copies.
- Minidump sessions, replayStep, step-over probes and ReplaySetPosition: only the run loop of a replay is modelled.
- Deadlock freedom of the hidden step: when two threads have faults raised, each handler suspends the other; only safety is proved.
- LiveProtocol.RunKeepsCore: VirtualProtectEx and WriteProcessMemory succeed on watched pages and live patches; their failures are in the contracts of the classes. A thread that exits during its own hidden step is covered by ExitKeepsCountsIff only.
- LiveProtocol.ExposedPageIsIsolated: every suspension and trap flag is granted and no thread starts or exits mid-step.
- LiveProtocol.MissingPatchIsIsolated: likewise.
- LiveProtocol.ExecutingThreadSeesGuards: likewise; page granularity, and the stepped instruction itself runs unguarded by design.
- LiveProtocol.ExecutingThreadSeesPatches: likewise.
- LiveProtocol.ArmedBeforePeersResume: likewise.
- LiveProtocol.WatchedAccessFaults: likewise.
- LiveCycles.FaultLeavesNoTrace: likewise; the reported breakpoint, if any, restores itself and the callback leaves the tables alone.
- LiveCycles.HitLeavesNoTrace: likewise.
- StepEngine.StepContinuesHandledIff: events counted as unhandled and dump sessions take other branches and are not modelled.
- LiveProtocol.StepCallbacksConserved: likewise, and no thread exits with a user step registered; then only StepCallbacksRunOnce holds.
- Writes over patched bytes by the target or by MemoryWriteSafe: saved bytes are not updated by the code; the model has no such write.
- Patches.SetKeepsSound: the new patch must overlap no live one; overlapping patches are covered only by Unwound and OldestFirstRestoresIff.
- NativeBreakpoints.BreakpointTable.SetBpx: writes are all or nothing; a partial WriteProcessMemory and writes into guarded pages are not modelled.
- NativeBreakpoints.BreakpointTable.SetExecute: the debug-register slot map and data hardware breakpoints are not modelled.
- NativeBreakpoints.BreakpointTable.RemoveAll: native records only; the memory-breakpoint half is PageWatcher.RemoveAll, and the branches for a session that is not paused or for a trace are not modelled.
- NativeBreakpoints.BreakpointTable.MemoryReadSafe: the raw read succeeds exactly when the range is mapped; the page exposure around it is PageWatcher.ReadAround.
- MemoryBreakpoints.PageWatcher.SetMemoryBpx: VirtualQueryEx answers a committed page exactly for the keys of the protection map, and nobody else changes protections.
- StepScheduler.Scheduler.SuspendPeers: the user's own suspensions and resumes of peers are part of the base count.
- StepScheduler.Scheduler.ScheduleInternalStep: reading the flags before writing the trap flag is one answer with the write.
- Ids and counters are unbounded naturals, except the synthetic handle counter, which wraps.
- The pause lock as mutual exclusion: operations are atomic, `paused` is a field.
- RegisterCache.Cache.GetContextData: the path without the pause lock reads the thread context directly and is not modelled.
- TraceRun.ReplaySession.RunTtd: positions are integers instead of pairs of sequence and steps, thread selection at a hit and the callbacks are left out, and the unbounded step count of a forward replay is the length of the timeline.
- TraceMap.RecordedProcess.MemoryQuery: thread blocks are data instead of reads of the trace; the sort is a scan for the least start; protection constants follow from the backing.
- TraceMap.WholeWalk: the x64 maximum address; the x86 one only changes the constant.
- TraceWatch.WatchTables.QueueHit: a pending hit is an argument, and the callback is named by the record's id.
- TraceTimeline.Timeline.Refresh: handles given to new threads are in HandleRegistry.RefreshThreads.
- Handles.HandlesClosedOnce: OS handle values are multiples of four not in use, every close at the end of a session is accepted, fewer than 2^43 synthetic handles are made; session generations, PEB and TEB caches are not modelled.
