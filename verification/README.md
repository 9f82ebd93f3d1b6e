# Bulla kernel and runtime: verified model

This project models the safe kernel crate of Bulla, the lock-free and paging parts of its
freestanding x86-64 runtime, and the tool that rewrites Thermite sources between two clause
surfaces, and proves what they keep over whole runs.

Each stateful component is a datatype of its state, one function per operation that follows
the source branch by branch, and a step relation over all operations; invariants, refinements
and round trips are proved about runs of that relation. Where the source changes an object in
place there is also a class with the same fields whose methods and loops are proved to follow
those functions and to keep the invariant of the runs. The concurrent protocols (heap, work queue, runtime lock) are interleavings
of single atomic accesses by any number of CPUs, each with a program counter, with spurious
failures of weak compare-exchange.

Conventions. Machine integers are unbounded integers with explicit comparisons against 2^64
wherever the source checks, saturates or wraps. Words with bitwise operators are natural
numbers with bit-by-bit definitions (`Bits`). Ordered maps are maps iterated through their
sorted keys (`Ordered`). Physical placement, user arguments, schedules and spurious failures
are parameters.

Some properties one would expect fail in the code as written. Each has a concrete
counterexample and an exact condition:

- the round trip of the rewriter (`TextRestoredExactly`, `MeasureFirstExample`);
- the frame partition, when a live region is added again or the last generation is released
  (`KeepsPartitionExactlyWhenClean`, `LiveRegionAddedAgain`, `LastGenerationLost`);
- the refusal of consumed frame handles, when a split gives a page back a counter newer than
  its run's (`StaysRefusedExactly`, `ReleasedHandleComesBack`);
- the rendezvous without a gate, when more CPUs take part than it expects (`FinishesExactly`,
  `ExtraCpuBlocks`);
- task placement after a yield at the last generation (`KeepsPlacementExactly`, `LostTask`);
- the recorded source of a read-modify-write (`RmwSourceRecordedExactly`, `HiddenSource`), and
  the event log itself, when a cell is registered again after it was written or after another
  value was loaded from it (`ReRegisterExactly`, `ResetForgetsWrite`);
- the placement of DMA segments, when the caller alters its handle or registers a domain again
  (`PlacedExactly`, `AlteredHandleMisplaces`, `ReregisteredDomainMisplaces`).

Where code and documentation differ, the model follows the code: the rewriter's header says
that the round trip holds for every file, while the code restores exactly the texts above;
`discover`, `register` and `register_domain` replace a known entry before they refuse it;
`unmap` removes its mapping before it tests the epoch.

Files: `common`, `bits`, `ordered` and `blocks` are shared; `frame*`, `scheduler*`, `memory*`
with `user_copy`, `smp*`, `atomic_log`, `capability*`, `event`, `dma`, `storage` follow the
kernel crate; `heap`, `page_tables`, `work_queue*`, `ticket_lock` follow the runtime;
`clause_*`, `trailing` and `migrate*` follow the rewriter.

## Model

| member | source | states |
|---|---|---|
| MigrateText.TextRestoredExactly | tooling/migrate/thermite-migrate.py:130-199 | `to_v2(to_v3(x)) == x` byte for byte, for every text, if and only if: no line outside a version 2 clause run is a version 3 clause or row; every run is already contract clauses, then rows, then measures; no such outside line holds a trailing `} keeps`; and the text does not end in an unclosed effect row with other clauses in its run |
| MigrateText.LinesRestoredExactly | tooling/migrate/thermite-migrate.py:130-195 | the same equivalence for every list of lines |
| MigrateFiles.ReparseFindsSameUnits | tooling/migrate/thermite-migrate.py:109-155 | re-parsing rewritten text finds exactly the renamed and reordered clause units: none lost, split or merged |
| MigrateSpelling.ToV3Means | tooling/migrate/thermite-migrate.py:46-155 | for every file, however it divides into contracts and other lines: its version 3 lines are each contract with its `fx` rows in front and `req`, `ens`, `inv`, `fx`, `dec` spelled `requires`, `ensures`, `keeps`, `!`, `measures`, every indent, gap, expression and further line kept, and every other line kept up to a trailing `inv` |
| MigrateSpelling.ToV2Means | tooling/migrate/thermite-migrate.py:46-195 | the converse spelling, with contract clauses first, then rows, then measures, and every other line kept up to a trailing `keeps` |
| MigrateSpelling.EveryFileDivides | tooling/migrate/thermite-migrate.py:109-127 | every file divides so, on either surface |
| MigrateSpelling.OneClause | tooling/migrate/thermite-migrate.py:46-53 | a clause on one line changes exactly its keyword, in both directions and for each of the five pairs of words |
| MigrateExact.NotRestored | tooling/migrate/thermite-migrate.py:121-155 | an unclosed effect row that moves in front of other clauses swallows some of them, so the file never comes back |
| MigrateMixed.MixedNotRestored | tooling/migrate/thermite-migrate.py:134-195 | a file with a version 3 clause line outside its version 2 runs never comes back |
| MigrateRoundTrip.WhenRowsStay | tooling/migrate/thermite-migrate.py:130-195 | when no unclosed row moves, restoration is exactly that every run is ordered and no plain line holds `} keeps` |
| MigrateRoundTrip.UnmovedIsOrdered | tooling/migrate/thermite-migrate.py:172-193 | if version 2 order does not change the text of a run, the run was already in that order |
| Migrate.Order2AfterOrder3 | tooling/migrate/thermite-migrate.py:140-153 | moving effect rows to the front loses nothing that version 2 order needs |
| Migrate.RenameUnitKeeps | tooling/migrate/thermite-migrate.py:144-153 | renaming a clause and renaming it back is the identity, and keeps where its delimiters close |
| MigrateMixed.ParseRunPrefix | tooling/migrate/thermite-migrate.py:109-127 | closed clauses are found one after the other whatever text follows them |
| ClauseUnits.ParseWell | tooling/migrate/thermite-migrate.py:109-127 | dividing the text of a well-formed division of a file gives that division back |
| ClauseUnits.ParseSound | tooling/migrate/thermite-migrate.py:109-127 | every file divides into well-formed plain lines and clause runs, and they are its text |
| ClauseText.MatchComplete | tooling/migrate/thermite-migrate.py:49-57 | a clause written out parses back to its indent, keyword, gap and expression |
| ClauseText.NotBothSurfaces | tooling/migrate/thermite-migrate.py:46-57 | no line is a clause of both surfaces |
| ClauseText.RenameKeepsDelta | tooling/migrate/thermite-migrate.py:89-106 | renaming a keyword does not change the delimiter depth of its line |
| ClauseText.Balance | tooling/migrate/thermite-migrate.py:89-106 | the scanner loop adds the line's delimiter balance, ignoring strings and line comments, to the depth it was given |
| ClauseText.SkipString | tooling/migrate/thermite-migrate.py:95-98 | the inner loop stops on the closing quote, honouring escapes |
| ClauseMeaning.DepthMeans | tooling/migrate/thermite-migrate.py:89-106 | a line of code has its opening less its closing brackets, a comment ends it, and a string literal counts for nothing, escapes included, closed or not |
| TrailingInvariant.SubstituteBackExactly | tooling/migrate/thermite-migrate.py:50-54 | substituting a trailing keyword and substituting it back restores the line if and only if the new keyword did not already trail a brace in it |
| ClauseMeaning.SubstituteMeans | tooling/migrate/thermite-migrate.py:50-54 | the first keyword after a brace and white space is respelled and the search goes on behind it; a text without one is kept |
| TrailingInvariant.SubstituteKeepsNoClause | tooling/migrate/thermite-migrate.py:134-138 | the substitution makes no clause line out of a line that is not one |
| MigrateMixed.SubstituteKeepsClause | tooling/migrate/thermite-migrate.py:134-138 | the substitution leaves a clause line a clause line |
| MigrateText.JoinSplit | tooling/migrate/thermite-migrate.py:158-159 | joining the lines of a text gives the text |
| MigrateText.SplitJoin | tooling/migrate/thermite-migrate.py:158-159 | splitting joined lines gives the lines, when none holds a line break |
| MigrateTool.ReadClause | tooling/migrate/thermite-migrate.py:119-124 | one clause takes its line and the following ones until its delimiters close |
| MigrateTool.ReadClauses | tooling/migrate/thermite-migrate.py:109-127 | the loop returns the run of clauses from a line on and the index just past it |
| MigrateTool.Emit | tooling/migrate/thermite-migrate.py:144-153 | writing clauses out renames each first line and keeps the others |
| MigrateTool.EmitInOrder | tooling/migrate/thermite-migrate.py:172-193 | writing out contract clauses, then rows, then measures gives the text of the run in version 2 order |
| MigrateTool.RewriteToV3 | tooling/migrate/thermite-migrate.py:130-155 | the index-driven loop computes the version 3 lines, which are the respelled and reordered text of any division of the file |
| MigrateTool.RewriteToV2 | tooling/migrate/thermite-migrate.py:162-195 | the index-driven loop computes the version 2 lines, likewise |
| MigrateTool.MeasureFirst | tooling/migrate/thermite-migrate.py:172-193 | any measure line followed by an effect row does not come back |
| MigrateTool.MeasureFirstExample | tooling/migrate/thermite-migrate.py:172-193 | `dec n` followed by `fx pure` does not come back |
| LockFreeHeap.EveryInterleavingKeeps | platform/x86_64-pc-uefi-smp-v1/runtime/src/post_firmware.rs:494-556 | in every interleaving of loads, weak compare-exchanges, page clears, returns and fetch-ands by any number of CPUs, the bitmap is exactly the disjoint union of the runs held by allocations and by CPUs inside the allocator |
| LockFreeHeap.LiveAllocationsDisjoint | platform/x86_64-pc-uefi-smp-v1/runtime/src/post_firmware.rs:494-533 | two live allocations share no page, each lies in the 64-page extent and is marked, and no CPU is claiming or freeing any of it |
| LockFreeHeap.RunsFitRequests | platform/x86_64-pc-uefi-smp-v1/runtime/src/post_firmware.rs:494-533 | in every interleaving the run a CPU looks for, claims or clears is just long enough in 4096-byte pages for the size of its call, and every live run for the call that returned it |
| LockFreeHeap.AllocAlone | platform/x86_64-pc-uefi-smp-v1/runtime/src/post_firmware.rs:504-533 | from any reachable state a CPU inside `alloc` that steps alone claims nothing but the lowest run of its length from its position on, gives up only when none fits, and is done after 400 accesses that do not fail spuriously |
| LockFreeHeap.CallAlone | platform/x86_64-pc-uefi-smp-v1/runtime/src/post_firmware.rs:494-533 | a call is refused outright exactly without a heap, above page alignment or above 64 pages; otherwise, stepping alone, it ends with the lowest run of just enough pages live, or with no such run free |
| LockFreeHeap.ReturnedRunIsZero | platform/x86_64-pc-uefi-smp-v1/runtime/src/post_firmware.rs:520-528 | a returned run is new, is counted once and holds only zero pages |
| LockFreeHeap.QuiescentHeapIsEmpty | platform/x86_64-pc-uefi-smp-v1/runtime/src/post_firmware.rs:494-556 | with nothing live and nobody inside, the bitmap is zero |
| LockFreeHeap.DeallocFindsRun | platform/x86_64-pc-uefi-smp-v1/runtime/src/post_firmware.rs:535-548 | `dealloc` clears a run exactly when the address is that of its first page, the size needs just its pages and it lies in the heap |
| LockFreeHeap.FitsIsClear | platform/x86_64-pc-uefi-smp-v1/runtime/src/post_firmware.rs:504-513 | the mask test succeeds exactly when every page of the run is clear |
| LockFreeHeap.Heap.Alloc | platform/x86_64-pc-uefi-smp-v1/runtime/src/post_firmware.rs:494-533 | run alone, `alloc` takes the lowest run that fits, whatever compare-exchanges fail spuriously, and returns null exactly when the request is refused or no run fits |
| LockFreeHeap.Heap.Dealloc | platform/x86_64-pc-uefi-smp-v1/runtime/src/post_firmware.rs:535-556 | run alone, `dealloc` clears exactly its run, or nothing for an address outside the heap |
| LockFreeHeap.ClaimThenFree | platform/x86_64-pc-uefi-smp-v1/runtime/src/post_firmware.rs:504-556 | freeing the run just claimed restores the bitmap |
| PageTables.WalkIsMeaning | platform/x86_64-pc-uefi-smp-v1/runtime/src/post_firmware.rs:985-1079 | for every address and every distinct page-aligned placement, the hardware walk of the finished tables is the supervisor identity below 4 GiB, user access on exactly the code page (not writable) and the stack page (not executable), the shootdown page, and a fault elsewhere; it never reads outside the tables |
| PageTables.Tables.Setup | platform/x86_64-pc-uefi-smp-v1/runtime/src/post_firmware.rs:985-1079 | after the nested loops and writes every address means what it should, and CR3 is the top table |
| PageTables.Tables.FillIdentity | platform/x86_64-pc-uefi-smp-v1/runtime/src/post_firmware.rs:1014-1031 | the outer loop links four gigabyte tables |
| PageTables.Tables.FillGigabyte | platform/x86_64-pc-uefi-smp-v1/runtime/src/post_firmware.rs:1024-1030 | the inner loop writes 512 large-page entries and nothing else |
| PageTables.Tables.FillUser | platform/x86_64-pc-uefi-smp-v1/runtime/src/post_firmware.rs:1033-1056 | the user tables and their two pages |
| PageTables.Tables.FillShootdown | platform/x86_64-pc-uefi-smp-v1/runtime/src/post_firmware.rs:1058-1067 | the shootdown tables and page |
| PageTables.Tables.Remap | platform/x86_64-pc-uefi-smp-v1/runtime/src/post_firmware.rs:2138-2142 | re-pointing the entry moves the shootdown page and no other translation |
| PageTables.FlagWords | platform/x86_64-pc-uefi-smp-v1/runtime/src/post_firmware.rs:192-196 | OR-ing the flags into a page-aligned address adds them |
| WorkQueue.EveryInterleavingKeeps | platform/x86_64-pc-uefi-smp-v1/runtime/src/post_firmware.rs:879-909 | every single access by any CPU keeps: each task handed out is either added once or held by one CPU, the shared counter moves only after every seed is taken, the active counter counts the active CPUs |
| WorkQueue.FinalSum | platform/x86_64-pc-uefi-smp-v1/runtime/src/post_firmware.rs:879-909 | when every CPU has returned, each task below the bound was added exactly once, the sum is N(N-1)/2, with either rendezvous, and nobody is counted as active |
| WorkQueueProgress.GateOpens | platform/x86_64-pc-uefi-smp-v1/runtime/src/post_firmware.rs:885-897 | in every run, once all workers have arrived and none is before its gate access, the gate is open |
| WorkQueueProgress.NoDeadlock | platform/x86_64-pc-uefi-smp-v1/runtime/src/post_firmware.rs:879-909 | in every run with enough CPUs, while some CPU has not returned some CPU has a step that changes the state |
| WorkQueueProgress.FinishesExactly | platform/x86_64-pc-uefi-smp-v1/runtime/src/main.rs:552-575 | every run, wherever it stands, can be continued until every CPU has returned, if and only if at least the expected number of CPUs takes part behind the gate, or exactly that number at the bare counter |
| WorkQueueProgress.ExtraCpuBlocks | platform/x86_64-pc-uefi-smp-v1/runtime/src/main.rs:553-565 | with one CPU too many at the bare counter, both announce themselves first and the worker waits for ever |
| WorkQueue.AddedOnce | platform/x86_64-pc-uefi-smp-v1/runtime/src/main.rs:552-575 | at every point no task has been added twice, and none is added while a CPU holds it |
| WorkQueue.SharedAfterSeeds | platform/x86_64-pc-uefi-smp-v1/runtime/src/main.rs:553-575 | no shared task is claimed before every seed has been taken |
| WorkQueue.MaximumIsExact | platform/x86_64-pc-uefi-smp-v1/runtime/src/post_firmware.rs:864-877 | the running maximum is exactly the greatest candidate whose `observe_max` has returned, and at most the number of CPUs |
| WorkQueue.CandidateIsCount | platform/x86_64-pc-uefi-smp-v1/runtime/src/post_firmware.rs:887-888 | the candidate a CPU brings to the maximum is the number of CPUs active once it has counted itself in |
| WorkQueue.SumAlone | platform/x86_64-pc-uefi-smp-v1/runtime/src/main.rs:872-875 | the single-processor loop reaches the same sum |
| TicketLocks.OnlyOwnerPasses | kernel/src/sync.rs:38-61 | in every reachable state exactly the owner's ticket acquires and releases, only while it is out, and the overflow branch of a release is dead |
| TicketLocks.LockRunInv | kernel/src/sync.rs:38-61 | the outstanding tickets are always exactly those from owner to next |
| TicketLocks.ReleasedForEver | kernel/src/sync.rs:55-61 | a released ticket is refused for ever |
| TicketLocks.TicketLock.TakeTicket | kernel/src/sync.rs:38-43 | draws the next ticket and keeps the invariant |
| TicketLocks.TicketLock.TryAcquire | kernel/src/sync.rs:45-53 | succeeds exactly for the owner's outstanding ticket |
| TicketLocks.TicketLock.GiveBack | kernel/src/sync.rs:55-61 | passes the lock on, and never overflows |
| TicketLocks.StepRefines | platform/x86_64-pc-uefi-smp-v1/runtime/src/post_firmware.rs:921-929 | each atomic access of the runtime lock is the operation of the sequential lock it stands for, with that result, or leaves the lock unchanged |
| TicketLocks.RunRefines | platform/x86_64-pc-uefi-smp-v1/runtime/src/post_firmware.rs:921-929 | from every reachable state, any schedule leaves the sequential lock that its operations leave, and every one of those operations succeeds |
| TicketLocks.EveryScheduleRefines | platform/x86_64-pc-uefi-smp-v1/runtime/src/post_firmware.rs:921-929 | the same from the start, for any set of CPUs and any schedule |
| TicketLocks.MutualExclusion | platform/x86_64-pc-uefi-smp-v1/runtime/src/post_firmware.rs:921-929 | at most one CPU is inside in any interleaving |
| TicketLocks.EntryInTicketOrder | platform/x86_64-pc-uefi-smp-v1/runtime/src/main.rs:580-585 | entries happen in ticket order |
| TicketLocks.EveryoneEntered | platform/x86_64-pc-uefi-smp-v1/runtime/src/main.rs:580-586 | when every CPU is through, next, owner and entries all equal the number of CPUs and the first-comer cell names one of them |
| TicketLocks.OnceWritten | platform/x86_64-pc-uefi-smp-v1/runtime/src/post_firmware.rs:928-928 | the first-comer cell is written once |
| Blocks.CoalesceIsNormalForm | kernel/src/frame.rs:243-255 | coalescing gives the one map of non-touching blocks that covers the same addresses, with the same number of pages |
| Blocks.NormalFormUnique | kernel/src/frame.rs:243-255 | a set of addresses has at most one normal form |
| Frames.AllocateIsComplete | kernel/src/frame.rs:60-93 | from a normal form, `allocate` returns the lowest aligned free run, and reports out of memory exactly when no aligned run of that many pages is wholly free, near 2^64 as well |
| Frames.AlignUp | kernel/src/frame.rs:67-70 | the masked align-up is the least aligned address not below the base, and is skipped exactly when none is below 2^64 |
| FramePartition.KeepsPartitionExactlyWhenClean | kernel/src/frame.rs:43-193 | an operation keeps free pages and live runs a partition of the pages added, if and only if it adds no live page and releases no run at its last generation |
| FramePartition.RunPartitionsAddedPages | kernel/src/frame.rs:43-226 | through every clean sequence of operations free pages and live runs partition exactly the pages ever added, free blocks stay in normal form, and only live runs are lent |
| FramePartition.SplitThenJoin | kernel/src/frame.rs:142-177 | splitting a run and joining the halves restores every record |
| FramePartition.JoinThenSplit | kernel/src/frame.rs:142-177 | joining two runs and splitting at the seam restores every record |
| FrameHandles.ConsumedForever | kernel/src/frame.rs:106-193 | a lent, reclaimed or released handle is refused in every later state of every run, splits and joins included, without a reviving split |
| FrameHandles.StaysRefusedExactly | kernel/src/frame.rs:142-193 | an operation keeps every consumed handle refused if and only if it is not an accepted split whose right half starts at a page with a counter above the run's; counters never fall |
| FrameHandles.ConsumedRefusedExactly | kernel/src/frame.rs:228-241 | all consumed handles are refused exactly when every live run carries at least the counter of its base |
| FrameHandles.ReleasedHandleComesBack | kernel/src/frame.rs:142-193 | a run in which a released handle validates again after its page is allocated inside a larger run and split off |
| FrameHandles.AcceptedHandleIsConsumed | kernel/src/frame.rs:106-193 | lending, reclaiming and releasing each consume the handle they accept, in every state |
| FrameHandles.JoinedHandleComesBack | kernel/src/frame.rs:142-177 | a run in which the right handle of a join is refused but not consumed, and validates again once its page is reissued |
| FrameHandles.JoinConsumesNothing | kernel/src/frame.rs:162-177 | a join refuses its right handle, consumes it not, and moves no counter |
| FrameHandles.ReissuedExactly | kernel/src/frame.rs:60-193 | a refused handle validates after an operation if and only if the operation hands out a run of its base, size and generation: an allocation that picks its base at its counter, a loan or reclaim of its predecessor, a half of an accepted split, or an accepted join |
| FrameHandles.ComesBackByReissue | kernel/src/frame.rs:43-193 | in every run without a reviving split, a refused handle that validates at the end was reissued on the way, at a point where it had never been consumed |
| FrameHandles.LiveRegionAddedAgain | kernel/src/frame.rs:49-54 | adding a region that is already live is accepted and breaks the partition |
| FrameHandles.EveryGenerationReached | kernel/src/frame.rs:60-193 | taking and releasing one page n times from the start reaches generation n, for every n below 2^64 |
| FrameHandles.LastGenerationLost | kernel/src/frame.rs:179-193 | at the end of that run the release at the last generation reports the overflow and leaves the page neither free nor live |
| FrameAllocators.FrameAllocator.AddRegion | kernel/src/frame.rs:43-58 | accepts exactly well-formed regions with no free page, changes nothing on a refusal, and keeps the partition of the pages added if and only if the call is clean |
| FrameAllocators.RegionAcceptedExactly | kernel/src/frame.rs:43-54 | the saturating overlap test and the guards accept a region exactly when it is well formed and none of its addresses is free |
| FrameAllocators.FrameAllocator.CoalesceFree | kernel/src/frame.rs:243-255 | the rebuild loop computes the coalesced map |
| FrameAllocators.FrameAllocator.FindFit | kernel/src/frame.rs:67-72 | the search loop finds the first block that fits |
| FrameAllocators.FrameAllocator.Allocate | kernel/src/frame.rs:60-93 | returns the lowest aligned free run, or refuses exactly when there is none or the request is malformed; a refusal changes nothing, the handle is current and the partition of the pages is conserved |
| FrameAllocators.FrameAllocator.MarkZeroed | kernel/src/frame.rs:95-103 | accepts exactly current handles and sets nothing but the mark; a refusal changes nothing and the partition of the pages is conserved |
| FrameAllocators.FrameAllocator.Lend | kernel/src/frame.rs:106-120 | accepts exactly a current handle of a run not lent below the last generation; moves run and counter one generation on, records the borrower and nothing else, refuses the old handle, and the partition of the pages is conserved |
| FrameAllocators.FrameAllocator.Reclaim | kernel/src/frame.rs:123-139 | accepts exactly the current handle of a run lent to that borrower below the last generation; moves run and counter one generation on, drops the loan and nothing else, refuses the old handle, and the partition of the pages is conserved |
| FrameAllocators.FrameAllocator.SplitAllocated | kernel/src/frame.rs:142-159 | accepts exactly a current handle of a run not lent and a proper cut; the run gives way to two that meet at the cut, a counter of the second page is kept, and the partition of the pages is conserved |
| FrameAllocators.FrameAllocator.JoinAllocated | kernel/src/frame.rs:162-177 | accepts exactly two current, unlent, touching runs of one generation and one zero mark; they give way to one run with the left handle's generation, the right handle is refused, and the partition of the pages is conserved |
| FrameAllocators.FrameAllocator.Release | kernel/src/frame.rs:179-193 | accepts exactly a current handle of a run not lent below the last generation, drops the run and advances its counter; a refusal changes something exactly when it reports the overflow, and the pages are conserved if and only if the call is clean |
| FrameAllocators.FrameAllocator.FreePages | kernel/src/frame.rs:258-260 | the loop sums the free pages |
| FrameAllocators.FreePagesFit | kernel/src/frame.rs:258-260 | the sum always fits its 64-bit result |
| SchedulerRuns.KeepsPlacementExactly | kernel/src/scheduler.rs:54-188 | an operation keeps every task in exactly one place (one queue if runnable, its CPU's slot if running, nowhere otherwise) if and only if it is not a yield of a task whose generation is exhausted |
| SchedulerRuns.RunKeepsPlacement | kernel/src/scheduler.rs:54-188 | placement holds over every run without such a yield |
| SchedulerRuns.LostTask | kernel/src/scheduler.rs:54-125 | a run of create, dispatch and yields from the start reaches the last generation with every task in its place; one more yield reports the overflow and leaves the task marked running, in no slot and no queue |
| SchedulerRuns.EveryGenerationReached | kernel/src/scheduler.rs:54-132 | for every n below 2^64 that run reaches generation n after n yields |
| SchedulerRuns.OnlyExpectedErrors | kernel/src/scheduler.rs:54-188 | the foreign-CPU and duplicate-entry guards are unreachable, the unknown-task guard is reached only by waking an unknown task, and a refusal changes nothing except in that yield |
| SchedulerRuns.ExitedForEver | kernel/src/scheduler.rs:172-188 | an exited task keeps its record through every run |
| SchedulerRuns.NothingToRun | kernel/src/scheduler.rs:73-107 | an idle CPU finds nothing exactly when every queue is empty |
| SchedulerRuns.WhatRuns | kernel/src/scheduler.rs:82-106 | a dispatched task is the front of the own queue, or the back of the longest other queue with ties to the lowest CPU; it leaves that queue and becomes current, and the steal and dispatch counters count it, saturating |
| SchedulerRuns.BoundedBypass | kernel/src/scheduler.rs:73-107 | a task at position k of a queue runs, somewhere, by that CPU's (k+1)-th dispatch, in every run, whatever others push, wake or steal |
| Schedulers.Scheduler.InvariantHolds | kernel/src/scheduler.rs:227-259 | the looped check returns true exactly when the declarative placement holds |
| Schedulers.Scheduler.CheckQueue | kernel/src/scheduler.rs:230-241 | one queue passes exactly when its tasks are distinct, unseen and runnable |
| Schedulers.Scheduler.FindVictim | kernel/src/scheduler.rs:191-196 | the scan finds the longest other queue, ties to the lowest CPU, or none when all are empty |
| Schedulers.Scheduler.Steal | kernel/src/scheduler.rs:190-209 | takes the back of the victim's queue and counts it |
| Schedulers.Scheduler.DispatchOn | kernel/src/scheduler.rs:73-107 | accepts exactly a free CPU, keeps every task in exactly one place, starts the task it returns and no other, and leaves the CPU idle exactly when every queue was empty; a refusal changes nothing |
| Schedulers.Scheduler.CreateTask | kernel/src/scheduler.rs:54-71 | accepts exactly a new task on a known CPU, puts it runnable at generation 0 at the back of the queue and changes nothing else; keeps every task in exactly one place |
| Schedulers.Scheduler.YieldCurrent | kernel/src/scheduler.rs:109-132 | accepts exactly a running task with a generation left, which goes to the back of the queue one generation on; keeps every task in exactly one place if and only if it does not report a generation overflow, and any other refusal changes nothing |
| Schedulers.Scheduler.BlockCurrent | kernel/src/scheduler.rs:134-150 | accepts exactly a CPU with a task, which leaves the slot blocked and is in no queue; keeps every task in exactly one place, and a refusal changes nothing |
| Schedulers.Scheduler.WakeTask | kernel/src/scheduler.rs:152-170 | accepts exactly a blocked task on a known CPU, puts it at the back of the queue and changes nothing else; never meets a duplicate queue entry and keeps every task in exactly one place |
| Schedulers.Scheduler.ExitCurrent | kernel/src/scheduler.rs:172-188 | accepts exactly a CPU with a task, which leaves the slot with its exit code and is in no queue; keeps every task in exactly one place, and a refusal changes nothing |
| AddressSpaces.RunKeeps | kernel/src/memory.rs:89-253 | mappings stay aligned, in range and pairwise disjoint over every run, and a destroyed space stays destroyed and empty |
| AddressSpaces.AnyOrder | kernel/src/memory.rs:192-217 | the search gives what the partial function says in every order that lists the mappings, and never overflows |
| AddressSpaces.PageSizes | kernel/src/memory.rs:15-21 | pages are 4096 bytes, and each larger size is 512 of the next smaller |
| AddressSpaces.MapAdds | kernel/src/memory.rs:89-150 | `map` adds exactly one range, none of which was mapped; a refusal changes nothing |
| AddressSpaces.MapExactly | kernel/src/memory.rs:89-150 | `map` is accepted exactly for an address-space capability with bit 3, a frame or region capability with bit 0 that holds all the bytes, aligned bases, a canonical 64-bit range, no empty request, an epoch left and no address of the range mapped |
| AddressSpaces.OverlapExactly | kernel/src/memory.rs:132-138 | the saturating overlap test holds exactly when some address of the range is already mapped |
| AddressSpaces.UnmapRemoves | kernel/src/memory.rs:152-162 | `unmap` removes exactly one range, also when it then reports that the epoch is exhausted |
| AddressSpaces.ProtectRelabels | kernel/src/memory.rs:164-190 | `protect` re-labels exactly one range; a refusal changes anything, and then only the epoch, exactly when the space is live, the capability is of the right kind with the right, the permissions are not empty, the epoch is not exhausted and the base is not mapped |
| AddressSpaces.UnmapAfterMap | kernel/src/memory.rs:89-162 | unmapping what was just mapped restores every translation |
| AddressSpaces.SameOffset | kernel/src/memory.rs:123-217 | physical and virtual address agree modulo the page size, and the result is a 64-bit address |
| UserCopies.AllOrNothing | kernel/src/memory.rs:277-311 | a copy to the user succeeds exactly when every byte may be written, a failed one changes nothing, and a successful one changes only the bytes the range translates to |
| UserCopies.CopyBackExactly | kernel/src/memory.rs:255-311 | on a range that may be written and read, copying out after copying in returns the same bytes if and only if bytes that share a physical address were equal |
| UserCopies.OneMappingCopiesBack | kernel/src/memory.rs:255-311 | inside one mapping the copy always comes back |
| UserCopies.AddressesAre | kernel/src/memory.rs:293-311 | a range validates exactly when each of its bytes does, and yields their physical addresses |
| UserCopies.RangeExactly | kernel/src/memory.rs:293-311 | a range validates for reading (writing) exactly when each of its bytes has a canonical 64-bit address in a live space, in a mapping whose permissions have bit 3 and bit 0 (bit 1) |
| UserCopies.CopyFromExactly | kernel/src/memory.rs:255-275 | a copy from the user succeeds exactly when every byte may be read so and is present, and returns those bytes |
| UserCopies.CopyToExactly | kernel/src/memory.rs:277-291 | a copy to the user succeeds exactly when every byte may be written so; each physical byte then holds the last input byte stored there, and every other byte is as it was |
| AddressSpaceObjects.AddressSpace.MapPages | kernel/src/memory.rs:89-150 | accepts exactly mappable arguments in a live space with an epoch left and no address of the range mapped; records exactly that mapping, whose frames lie inside the frame capability; a refusal changes nothing and mappings stay aligned and disjoint |
| AddressSpaceObjects.AddressSpace.Overlaps | kernel/src/memory.rs:132-136 | the loop finds an overlap exactly when there is one |
| AddressSpaceObjects.AddressSpace.UnmapPages | kernel/src/memory.rs:152-162 | accepts exactly a mapped base in a live space with an epoch left, returns and removes that mapping and advances the epoch; mappings stay aligned and disjoint |
| AddressSpaceObjects.AddressSpace.ProtectPages | kernel/src/memory.rs:164-190 | accepts exactly a capability for the space with the right, permissions, an epoch left and a mapped base; re-labels that mapping under the new epoch; mappings stay aligned and disjoint |
| AddressSpaceObjects.AddressSpace.TranslateAddress | kernel/src/memory.rs:192-217 | the loop computes the partial function; its overflow branches are never taken |
| AddressSpaceObjects.AddressSpace.ActivateOn | kernel/src/memory.rs:229-236 | accepts exactly a capability for the space with the right on a live space, adds the CPU and nothing else, and changes nothing on a refusal |
| AddressSpaceObjects.AddressSpace.DeactivateOn | kernel/src/memory.rs:238-244 | accepts exactly a capability for the space with the right and an active CPU, removes it and nothing else, and changes nothing on a refusal |
| AddressSpaceObjects.AddressSpace.DestroySpace | kernel/src/memory.rs:246-253 | accepts exactly a capability for the space with the right on an idle, empty space; no address translates any more, and a refusal changes nothing |
| AddressSpaceObjects.AddressSpace.ValidateUserRange | kernel/src/memory.rs:293-311 | returns the addresses of the range or the error of its first bad byte; succeeds for reading (writing) exactly when every byte is in a user page with bit 0 (bit 1) |
| AddressSpaceObjects.AddressSpace.Stage | kernel/src/memory.rs:263-272 | the loop reads the byte at every address, or faults at an absent one |
| AddressSpaceObjects.AddressSpace.CopyFromUser | kernel/src/memory.rs:255-275 | succeeds exactly when every byte is in a user page that may be read and is present; the output is then those bytes and otherwise unchanged |
| AddressSpaceObjects.AddressSpace.CopyToUser | kernel/src/memory.rs:277-291 | succeeds exactly when every byte is in a user page that may be written; the bytes are then stored and no other changes |
| SmpRuns.CompletesExactly | kernel/src/smp.rs:151-182 | a shootdown completes exactly when it is pending and every CPU online when it began has acknowledged it since |
| Smp.AcceptedExactly | kernel/src/smp.rs:195-214 | an acknowledgement is accepted exactly for the newest pending epoch, from a target not yet counted; it is counted, and reported complete exactly when it is the last; a refusal changes nothing |
| SmpRuns.CompleteReportedOnce | kernel/src/smp.rs:195-214 | no epoch of either kind is reported complete twice in any run |
| SmpRuns.SupersededFrozen | kernel/src/smp.rs:131-149 | once a newer interrupt has begun, the acknowledgements of an older one never change |
| SmpRuns.CanDrain | kernel/src/smp.rs:167-182 | from every reachable state acknowledgements and completions alone drain all shootdowns: exactly the pending epochs are completed, in descending order |
| SmpRuns.RunKeeps | kernel/src/smp.rs:93-182 | every run keeps pending epochs in step with who was online and who has acknowledged |
| SmpRuns.OnlineAtKept | kernel/src/smp.rs:151-165 | the targets of a shootdown are fixed when it begins and acknowledgements only accumulate |
| Smp.DuplicateResets | kernel/src/smp.rs:93-98 | rediscovering a known CPU is refused and takes it offline |
| Smp.LegalExactly | kernel/src/smp.rs:100-110 | the lifecycle goes stage by stage to online, may fail while being prepared or started, and ends there or online |
| SmpObjects.SmpState.Discover | kernel/src/smp.rs:93-98 | keeps the run invariant; a known CPU is refused, yet in either case the CPU ends up discovered and not online |
| SmpObjects.SmpState.Transition | kernel/src/smp.rs:100-115 | is accepted exactly for a known CPU and a legal next stage, adds the CPU to the online ones exactly when the stage is online, and changes nothing on a refusal |
| SmpObjects.SmpState.AllOnline | kernel/src/smp.rs:184-192 | the loop accepts exactly sets of online CPUs |
| SmpObjects.SmpState.StartIpi | kernel/src/smp.rs:131-145 | keeps the run invariant; is accepted exactly for online targets with an epoch left, and waits for exactly them under a new, newest epoch; a refusal changes nothing |
| SmpObjects.SmpState.StartShootdown | kernel/src/smp.rs:151-165 | keeps the run invariant; with an epoch left it waits for exactly the CPUs then online, under the next epoch, never used before; a refusal changes nothing |
| SmpObjects.SmpState.AckIpi | kernel/src/smp.rs:147-149 | accepts exactly the newest pending epoch from a target not yet counted and counts it; completion is reported exactly when all targets have answered, and only once |
| SmpObjects.SmpState.AckShootdown | kernel/src/smp.rs:167-173 | accepts exactly the newest pending epoch from a target not yet counted and counts it; completion is reported exactly when every CPU online at its start has answered since, and only once |
| SmpObjects.SmpState.FinishShootdown | kernel/src/smp.rs:175-182 | succeeds exactly for a pending epoch that every CPU online at its start has acknowledged; a refusal changes nothing |
| AtomicLog.WellFormedExecution | kernel/src/atomic.rs:269-466 | every run whose registrations are harmless (a new cell, or one that nothing has written and from which nothing has loaded another value) records a well-formed execution: ids and order indices strictly increase, the k-th write of a cell has modification order k, loads read the latest write, edges join as they should |
| AtomicLog.StepKeepsExactly | kernel/src/atomic.rs:269-406 | an operation keeps the execution well formed if and only if it is not a harmful registration |
| AtomicLog.OnceIsHarmless | kernel/src/atomic.rs:269-286 | a run that registers each cell once is harmless |
| AtomicLog.LoadReadsLatest | kernel/src/atomic.rs:301-334 | a load returns the value of the latest earlier write of its cell and names it, or the initial value when there is none |
| AtomicLog.RmwReadsPredecessor | kernel/src/atomic.rs:336-380 | the recorded source of a read-modify-write is its predecessor in modification order |
| AtomicLog.RmwSourceRecordedExactly | kernel/src/atomic.rs:353-356 | the source is recorded if and only if the event just before wrote the same cell |
| AtomicLog.HiddenSource | kernel/src/atomic.rs:353-356 | in a named run of a store, a load and an addition on one cell, the addition follows the store in modification order and records no source |
| AtomicLog.ReRegisterExactly | kernel/src/atomic.rs:269-286 | after a known cell is registered again some initial values explain the log if and only if nothing has written the cell and nothing has loaded another value from it; they are then the old ones with the new value |
| AtomicLog.ResetForgetsWrite | kernel/src/atomic.rs:269-334 | in a named run a cell is stored to, registered again and loaded: the load reads the new initial value and names no source although the store is in the log, and no initial values explain the log |
| AtomicLog.EdgesSynchronize | kernel/src/atomic.rs:311-378 | every happens-after edge joins an acquiring reader to a releasing write of the same cell that it reads from |
| AtomicLog.EdgeExactly | kernel/src/atomic.rs:311-378 | a read has an edge to the write it reads from exactly when it acquires (acquire, acquire-release or sequentially consistent) and the write releases (release, acquire-release or sequentially consistent) |
| AtomicLog.RecordedExactly | kernel/src/atomic.rs:288-466 | an access is recorded exactly with an ordering it allows, a known cell and counters not exhausted; the log then grows by one event that names its CPU, cell, kind, ordering and value, and otherwise log and cells are as they were |
| AtomicLog.AddContinuesLatest | kernel/src/atomic.rs:336-351 | an addition returns, and adds modulo 2^64 to, the value of the latest write |
| AtomicLog.AtomicMemoryModel.Register | kernel/src/atomic.rs:269-286 | is refused exactly for a known cell; in either case it keeps the log well formed if and only if the registration is harmless, and when a repeated one is not, no initial values would explain the log |
| AtomicLog.AtomicMemoryModel.Store | kernel/src/atomic.rs:288-299 | is accepted exactly when admitted; keeps the log well formed; the value stored becomes the one the log gives the cell, one write later in its modification order |
| AtomicLog.AtomicMemoryModel.Load | kernel/src/atomic.rs:301-334 | is accepted exactly when admitted; keeps the log well formed and returns the value of the latest write in the log |
| AtomicLog.AtomicMemoryModel.Add | kernel/src/atomic.rs:336-380 | is accepted exactly when admitted; keeps the log well formed, returns the value of the latest write and leaves that value plus the operand modulo 2^64 |
| AtomicLog.AtomicMemoryModel.AnyReleasing | kernel/src/atomic.rs:361-371 | the loop finds a releasing event of the id exactly when there is one |
| AtomicLog.AtomicMemoryModel.Fence | kernel/src/atomic.rs:382-406 | is accepted exactly when admitted; keeps the log well formed, appends one event and touches no cell |
| AtomicLog.AtomicMemoryModel.DrawIds | kernel/src/atomic.rs:447-466 | an id drawn is above every id in the log and an order index above every order index; a failed draw may still use up an id |
| CapabilityRuns.ValidatesExactly | kernel/src/capability.rs:170-288 | in every reachable state a handle validates exactly when it is the one last issued for its slot, the slot is live, its owner asks, and rights and range are inside it |
| CapabilityRuns.EntitledExactly | kernel/src/capability.rs:201-232 | the same in every state of the run invariant |
| CapabilityRuns.MintExactly | kernel/src/capability.rs:170-199 | a mint is accepted exactly for known rights, a range below 2^64 and a slot never used, and hands out and records what was asked for at generation 0 |
| CapabilityRuns.TransferExactly | kernel/src/capability.rs:234-255 | a transfer is accepted exactly for the held handle, rights among its own and a generation left; the new handle differs in owner, rights and generation only |
| CapabilityRuns.ReleaseExactly | kernel/src/capability.rs:257-269 | a release is accepted exactly for the held handle with a generation left, and leaves the slot dead |
| CapabilityRuns.OneHandleAtATime | kernel/src/capability.rs:201-232 | two handles of one slot that validate are equal |
| CapabilityRuns.ConsumedForEver | kernel/src/capability.rs:234-288 | a transferred or released handle never validates, transfers or releases again |
| CapabilityRuns.WithinGrant | kernel/src/capability.rs:170-288 | whatever a handle allows was granted when its slot was minted |
| CapabilityRuns.GrantsKept | kernel/src/capability.rs:185-188 | a slot's grant is never replaced |
| CapabilityLedgers.CapabilityLedger.MintRoot | kernel/src/capability.rs:170-199 | keeps the run invariant; accepts exactly known rights, a range below 2^64 and a slot never used, and hands out what was asked for; a refusal changes nothing |
| CapabilityLedgers.CapabilityLedger.Check | kernel/src/capability.rs:201-232 | accepts exactly when the handle is the one last issued for its live slot, its owner asks, and rights and range are inside it |
| CapabilityLedgers.CapabilityLedger.TransferTo | kernel/src/capability.rs:234-255 | keeps the run invariant; accepts exactly the held handle with rights among its own and a generation left; the new handle differs in owner, rights and generation only and is held, the old one spent for ever; a refusal changes nothing |
| CapabilityLedgers.CapabilityLedger.ReleaseHandle | kernel/src/capability.rs:257-269 | keeps the run invariant; accepts exactly the held handle with a generation left; the slot is dead and the handle spent for ever; a refusal changes nothing |
| Actions.AuthorizedExactly | kernel/src/event.rs:206-232 | in every reachable ledger an action is authorised exactly when it is well formed and the live, last issued handle of the needed kind, held by the asking owner, covers its rights and range |
| Actions.AuthorizedMeans | kernel/src/event.rs:206-440 | in every reachable ledger an action is authorised if and only if it is well shaped and its caller holds the live handle last issued for a slot of its kind, whose rights have bit 0 for a read, 1 for a write, 3 for a page operation and 5 for any other action, and whose range holds all it touches; the grant of the slot then does too |
| Actions.AuthorizedWithinGrant | kernel/src/event.rs:344-440 | every action ever authorised has its kind, rights and range inside what was granted for that slot |
| Actions.ConsumedAuthorizesNothing | kernel/src/event.rs:206-232 | a consumed handle authorises nothing ever again |
| DmaBuffers.DeviceKeepsBuffer | kernel/src/dma.rs:201-291 | from being given to the device until it is taken back, a pin and its segments persist unchanged through any operations; segments may be added |
| DmaBuffers.UnpinnedForEver | kernel/src/dma.rs:236-254 | a handle that was unpinned is refused by every operation for ever |
| DmaBuffers.RunKeeps | kernel/src/dma.rs:98-291 | a live pin carries its slot's counter, counters only grow, and only live pins have segments |
| DmaBuffers.PinnedExactly | kernel/src/dma.rs:98-129 | a pin is accepted exactly for a region capability of a fitting kind with bits 0 and 1, a non-empty range inside it and a free slot |
| DmaBuffers.CheckExactly | kernel/src/dma.rs:166-197 | without an IOMMU only the buffer's own address is admitted; with one, exactly a range inside the aperture with the capability of that domain and bit 3 |
| DmaBuffers.ValidatesExactly | kernel/src/dma.rs:216-234 | a handle validates exactly when it names the live pin and both are of the device and domain asked for |
| DmaBuffers.SegmentsPlaced | kernel/src/dma.rs:98-291 | placement holds through every run of tidy operations |
| DmaBuffers.HonestIsTidy | kernel/src/dma.rs:131-199 | handles passed on unaltered and domains registered once are tidy |
| DmaBuffers.PlacedExactly | kernel/src/dma.rs:131-199 | an operation keeps every segment at the pinned length and inside its device's aperture or at the identity, if and only if it is tidy: an accepted mapping fits the live pin and its domain, and a domain registered again still fits every segment in it |
| DmaBuffers.AlteredHandleMisplaces | kernel/src/dma.rs:160-197 | a run in which a one-page pin, mapped through a handle with its length doubled, gets a two-page segment |
| DmaBuffers.ReregisteredDomainMisplaces | kernel/src/dma.rs:131-144 | a run in which registering a domain again is refused as a duplicate and still leaves a segment outside its aperture |
| DmaBuffers.DmaState.PinBuffer | kernel/src/dma.rs:98-129 | accepts exactly a pinnable request and records exactly it, under the slot's counter and owned by the CPU; a refusal changes nothing and segments stay placed |
| DmaBuffers.DmaState.AddDomain | kernel/src/dma.rs:131-144 | accepts exactly a good aperture under an unknown id; a known domain is replaced before the duplicate is reported, and segments stay placed if and only if the call is tidy |
| DmaBuffers.DmaState.MapBuffer | kernel/src/dma.rs:146-199 | accepts exactly what the guards on the caller's handle and the domain admit, and records one segment of the address and the handle's length; a refusal changes nothing, and segments stay placed if and only if the call is tidy |
| DmaBuffers.DmaState.UnmapBuffer | kernel/src/dma.rs:201-214 | accepts exactly a current handle of a mapped buffer the CPU owns, and hands its segments back; a refusal changes nothing and segments stay placed |
| DmaBuffers.DmaState.UnpinBuffer | kernel/src/dma.rs:236-254 | accepts exactly a current handle of an unmapped buffer the CPU owns below the last generation; the slot is free with a newer counter, a refusal changes nothing and segments stay placed |
| DmaBuffers.DmaState.TransitionOwnership | kernel/src/dma.rs:272-291 | accepts exactly a current handle when pin and handle name the expected owner; only the owner changes, a refusal changes nothing and segments stay placed |
| Storage.RingBuffer.Push | kernel/src/storage.rs:238-246 | appends at the back of a bounded queue, across wrap-around, or refuses when full |
| Storage.RingBuffer.Pop | kernel/src/storage.rs:248-256 | takes the front of the queue, or refuses when empty |
| Storage.RingBuffer.Apply | kernel/src/storage.rs:238-256 | over every run of pushes and pops the wrapped array holds, accepts and hands out what a bounded queue does, and what came out followed by what is inside is what was accepted |
| Storage.FirstInFirstOut | kernel/src/storage.rs:238-256 | over every run of a bounded queue what came out followed by what is inside is what went in |
| Storage.FixedMap.Insert | kernel/src/storage.rs:109-124 | adds one key to a capacity-bounded partial map, packed in front, or refuses a known key or a full map |
| Storage.FixedMap.Get | kernel/src/storage.rs:126-132 | looks a key up |
| Storage.FixedMap.Remove | kernel/src/storage.rs:134-151 | swap-remove deletes exactly one key and stays packed with distinct keys |
| Storage.RemoveModel | kernel/src/storage.rs:134-151 | moving the last entry into the hole deletes exactly that key |
| Storage.Bitmap.Set | kernel/src/storage.rs:181-193 | adds or removes exactly one bit of the set |
| Storage.Bitmap.Get | kernel/src/storage.rs:195-201 | tests membership |
| Storage.Bitmap.FirstClear | kernel/src/storage.rs:204-212 | returns the least bit not in the set, and nothing exactly when all are in it |

## Left out

- FinalSum: is about runs in which every CPU has returned; `FinishesExactly` says when every run can be brought there, and that a given machine's schedule does so depends on its fairness and is not claimed.
- MaximumIsExact: does not say that the maximum equals the number of workers, because a CPU counts itself in after it announces itself.
- StepRefines: assumes that the ticket counter does not pass 2^64; `RunRefines` and `EveryScheduleRefines` show that this holds for fewer than 2^64 CPUs.
- The masks of CPUs that worked, and the timing checks after the run.
- Weak memory: each atomic access is one indivisible step; orderings matter only in the event log.
- Fairness: no schedule is promised to give a spinning CPU its turn, in the work queue, the lock or the heap.
- Firmware, MSR, APIC, PCI, virtio, firmware-configuration and assembly code in the runtime: hardware input and output.
- The two test words written to the shootdown pages, and the TLB itself.
- `registry.rs`, `boundary.rs`: constant tables and string comparisons.
- `irq.rs`, `context.rs`, `policy.rs` and the event sequencer: a save and restore token per CPU, a trap frame per context, event counts per CPU with a bounded list of answers, and event and action numbers with tables of vector and slot owners. Each guards one record by one generation, flag or table entry, and no state modelled here depends on it.
- `services.rs`, `device.rs`: a scaled clock, per-CPU deadlines, entropy and power requests, and a bus that stores register values. They stand in for hardware, and no kernel state modelled here depends on what they return.
- `validate_compare_exchange`, single atomic cells and the CPU lifecycle table by itself: finite case tables.
- `OnceCell`, `BoundedMpsc` and `Barrier` in `sync.rs`, `FixedVec` in `storage.rs`, the temporary mapping window in `memory.rs`: a value set once, a bounded queue, a set of arrivals, an indexed array and a single slot. The ticket lock, ring buffer and address spaces modelled here do not use them.
- The rewriter's handling of Rust string literals, its command line and the regular-expression engine: a clause line is modelled as indent, keyword, gap and expression with the white space that Python's patterns match.
