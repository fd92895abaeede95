# A verified model of pnacl.c

pnacl.c reads PNaCl bitcode, compiles each function to a flat instruction stream and interprets that
stream with green threads. This project models its most involved parts in Dafny and proves what they
are for. Code that changes things in place is a class or a method proved against a specification on
values; the properties are lemmas about the specification.

| file | part of the program |
|---|---|
| `Common.dfy` | definitions that several parts share |
| `LoopChains.dfy`, `LoopInvariant.dfy`, `LoopAnalysis.dfy` | the one-pass analysis of loop nesting |
| `PhiAssigns.dfy` | phi assignments per block, and the flag for the one-pass update |
| `InstructionStream.dfy` | the two passes that lay out and write the instruction stream |
| `FlatExecution.dfy` | branches, switches and phis of the interpreter, against the control-flow graph |
| `GraphMeaning.dfy` | what a block of the graph does, in terms of values |
| `Futex.dfy`, `Scheduling.dfy`, `Threads.dfy` | futexes, thread creation and exit, the scheduler; the ring and the dead list |
| `ThreadSteps.dfy` | what instructions and steps of threads do, in terms of their fields |
| `PageHeap.dfy` | mmap, munmap and alloca: the heap against the main thread's stack |
| `Bits.dfy`, `Bitstream.dfy`, `Vbr.dfy`, `Records.dfy` | the bit reader, variable-width integers, abbreviations and records |
| `AbbrevTable.dfy` | the table of abbreviations that shares one allocation |
| `TypeResolution.dfy` | types of results found by a worklist |
| `Predecessors.dfy`, `Liveness.dfy` | predecessor lists and the backward walks that find live ranges |
| `AllocatorAccounts.dfy` | where the allocator puts things and what its totals count |
| `ChunkAllocator.dfy` | the chunked allocator with marks |

How the models are set up:

- **Loops.** `LoopFinder` keeps the analysis fields as the source does; ghost fields add the tree, the
  discovery order, how many edges of a block have been examined, and the search path. "On the path" is
  `dfsp_pos > 0`. Block ids are below 0xffff, the invalid id.
- **Compilation and execution.** Straight-line instructions are an uninterpreted function on values and
  on everything else. Record sizes are those of a 64-bit build. The stream is a map from addresses to
  records. The interpreter steps over switch cases with the size of one structure where the writer used
  another; both are 16 bytes in such a build.
- **Threads.** A thread's own state and the contents of memory are opaque and used only through a
  `Machine` of uninterpreted functions. One assumption is made of it, that code is in static
  single-assignment form: the result of a wait call is not one of its own arguments. The clock is an
  arbitrary input of each step. The scheduling loop has no bound in the source; here it is watched for a
  given number of threads and can be watched on. `Scheduling` is the specification on the sequence of
  live threads, current one first, with a history of what happened to waiting threads; `Threads` proves
  that the pointer manipulations do exactly that.
- **Reader.** Checks and assertions of the source are failures of the model. Whatever lies in memory
  behind the data is a parameter, and no result depends on it.
- **Allocators.** What the system's allocator returns is a parameter that overlaps nothing in use.

Where the code does less than its comments or names suggest, the model follows the code:

- The scan for the fast phi flag only looks at the first target listed in a block
  (src/pn_calculate_phi_assigns.h:59-76). `PhiAssigns.FlagMissesLaterTarget` gives a function where the
  one-pass update is then wrong, `FlatExecution.SwapRunDiffers` a run of it that leaves the graph's meaning.
  `FlatExecution.BranchExact` says when a branch is right, `FlatExecution.CompilationExact` when a run is.
- munmap of no bytes at an address inside a heap page unmaps that page
  (src/pn_builtins.h:416-418): `PageHeap.UnmapsExactly`.
- A reset to a mark loses the chunk when the last allocation was empty and at the chunk's end
  (src/pn_allocator.h:149-150): `ChunkAllocator.EmptyAtEndLosesChunk` is such a run, and
  `ChunkAllocator.ResetWorksIff` says when a reset works.
- Counting the values left in a record aborts if 32 bits cannot stand for one of them
  (src/pn_record.h:367-380, src/pn_bitstream.h:107-110), as for the signed spelling of the least 32-bit
  integer, 0x100000001: `Records.LeastIntIsNotTaken` is that record, and
  `Records.RecordReader.NumValuesLeft` says when there is a count.
- Aligning the stream wraps to its start in the last word of 32-bit positions
  (src/pn_bitstream.h:153-155): `Bitstream.AlignUp32Exact`.
- Between a function and a 32-bit integer the implicit cast always takes the second operand's type
  (src/pn_calculate_result_value_types.h:18-23): `TypeResolution.CastCommutes`.
- Each value is only walked from the use met first (src/pn_calculate_liveness.h:17-20), and a phi use behind a
  constant one is never walked (72-75). `Liveness.OneWalkMisses` is a function whose range is then too small;
  `Liveness.LivenessPass.OneWalkExact` says for every function and value when the walk finds all.
- An alloca of negative size raises the stack top (src/pn_executor.h:291-292), and the heap can then grow past
  the calling frame's: `PageHeap.NegativeAllocaCrosses`. `PageHeap.AlwaysDescends` says which runs are safe.
- The length of an mmap or munmap is rounded up in 32 bits (src/pn_builtins.h:354, 417):
  `PageHeap.PagesForExact` and `PageHeap.UnmapsExactly` say when that matters.

## Model

| member | source | states |
|---|---|---|
| `LoopAnalysis.LoopFinder.CalculateLoops` | src/pn_calculate_loops.h:93-107 | the whole pass leaves the analysis `Finished`: its invariant holds and no block is on the search path, which is what every loop theorem below starts from |
| `LoopAnalysis.LoopFinder.Visit` | src/pn_calculate_loops.h:46-91 | visiting a block restores `dfsp_pos` and the search path, sees that block, changes no tree path of a block seen before, and keeps the analysis invariant; the recursion ends because the unseen blocks get fewer |
| `LoopAnalysis.LoopFinder.ExamineEdge` | src/pn_calculate_loops.h:55-88 | examining one out-edge, whichever of the five cases applies, keeps the invariant and counts the edge as examined |
| `LoopAnalysis.LoopFinder.MarkReentry` | src/pn_calculate_loops.h:69-85 | the side-entry loop marks exactly the off-path headers on the target's chain as irreducible and returns the first header that is on the path, or none |
| `LoopAnalysis.LoopFinder.TagLoopHeader` | src/pn_calculate_loops.h:12-44 | the in-place two-pointer loop computes the recursive merge of two header chains; it ends because the search position of the first pointer falls |
| `LoopChains.MergeChain` | src/pn_calculate_loops.h:24-43 | after the merge a header is on the chain of any block exactly if it was before or is one of the merged headers that is shallower than a merged header on that chain: nothing is dropped, nothing else gained, and chains stay in strictly falling search order |
| `LoopInvariant.EdgeKeepsInv` | src/pn_calculate_loops.h:54-88 | examining an edge of the current block keeps all parts of the invariant (tree shape, path positions, header chains within loops, closedness of examined edges, all three flags, discovery order) |
| `LoopInvariant.DiscoverKeepsInv` | src/pn_calculate_loops.h:50-53 | pushing a newly discovered block on the search path keeps the invariant |
| `LoopInvariant.LeaveKeepsInv` | src/pn_calculate_loops.h:89-90 | taking a fully examined block off the path keeps the invariant |
| `LoopAnalysis.SearchTree` | src/pn_calculate_loops.h:46-107 | the blocks seen are exactly those reachable from the entry, and the discovered tree is a depth-first tree of them: it spans them, discovery numbers grow downwards, and an edge to a later-numbered block stays inside the subtree of its source |
| `LoopAnalysis.ChainIsNesting` | src/pn_calculate_loops.h:46-107 | soundness and completeness of the nesting: `h` is on the final header chain of `b` if and only if `h` is a proper tree ancestor of `b` and `b` leads back to `h` inside the subtree of `h` |
| `LoopAnalysis.HeaderIsInnermost` | src/pn_calculate_loops.h:46-107 | `loop_header_id` is the innermost loop around a block, and invalid only if no loop is around it |
| `LoopAnalysis.HeaderOnCycle` | src/pn_calculate_loops.h:46-107 | a block and its loop header are different and lie on a common cycle of the graph |
| `LoopAnalysis.HeaderFlagExact` | src/pn_calculate_loops.h:63-65 | `is_loop_header` holds exactly of the targets of edges to a tree ancestor |
| `LoopAnalysis.EntryFlagsExact` | src/pn_calculate_loops.h:74-85 | `is_reentry` holds exactly of the blocks inside a loop that some edge enters from outside it, and `is_irreducible` exactly of the headers whose loops are entered that way |
| `LoopAnalysis.IrreducibleMeansNotDominating` | src/pn_calculate_loops.h:74-85 | a header is marked irreducible exactly if some block of its loop can be reached from the entry without passing it |
| `LoopAnalysis.ReducibleIsNatural` | src/pn_calculate_loops.h:12-91 | a header is not marked irreducible if and only if its loop does not depend on the search: it is on the header chain of exactly those reachable blocks that have a walk to it along which it dominates every block |
| `PhiAssigns.PhiPass.CalculatePhiAssigns` | src/pn_calculate_phi_assigns.h:8-82 | every block ends up with exactly the phi uses that name it, a count that is the length of its array, and the flag of that list |
| `PhiAssigns.PhiPass.Count` | src/pn_calculate_phi_assigns.h:11-22 | the counting pass counts, for every block, the uses that name it |
| `PhiAssigns.PhiPass.Fill` | src/pn_calculate_phi_assigns.h:24-46 | the filling pass, whose counters are fill cursors, never runs past a counted array and fills every array completely |
| `PhiAssigns.RoomToCollect` | src/pn_calculate_phi_assigns.h:38-41 | at every use there is room left in the array of the block it names |
| `PhiAssigns.GroupIsUses` | src/pn_calculate_phi_assigns.h:33-46 | the assignments a block keeps for one target are exactly the phi uses of that target that name the block, in the order of the phis |
| `PhiAssigns.PhiPass.ScanFlags` | src/pn_calculate_phi_assigns.h:50-82 | the scan, in which `bb_id` is never reset, computes for every block whether an assignment to its first listed target reads an earlier destination |
| `PhiAssigns.FlagGuardsFirstTarget` | src/pn_calculate_phi_assigns.h:59-76 | for the first listed target the flag is set exactly if no assignment reads an earlier one's destination, and then one pass moves the same values as two |
| `PhiAssigns.FlagMissesLaterTarget` | src/pn_calculate_phi_assigns.h:59-76 | the flag says nothing about later targets: the latch of a loop that swaps two values has its flag set although one pass over the loop head's phis is wrong |
| `PhiAssigns.OnePassExact` | src/pn_executor.h:156-187 | one pass over an assignment list equals the simultaneous update for every environment if and only if the origin of every destination, computed from the list alone, is the same both ways |
| `PhiAssigns.SameOriginsAgree` | src/pn_executor.h:156-187 | lists with equal origins give equal environments, whatever the values |
| `InstructionStream.Assembler.CalculateOpcodes` | src/pn_calculate_opcodes.h:833-879 | measure, relocate and write: the check in the write pass never fires, the size is what was written, every block's offset is its start, and the stream is the complete one with the trap |
| `InstructionStream.Assembler.MeasureAll` | src/pn_calculate_opcodes.h:842-851 | the measuring pass finds the start of every block and writes nothing |
| `InstructionStream.Assembler.Relocate` | src/pn_calculate_opcodes.h:858-860 | adding the base turns measured offsets into the starts in the allocated stream |
| `InstructionStream.Assembler.WriteAll` | src/pn_calculate_opcodes.h:862-868 | the write pass reaches every block exactly at its measured offset |
| `InstructionStream.Assembler.WriteBlock` | src/pn_calculate_opcodes.h:8-20 | the same code measures or writes a block: it moves the cursor by the block's size either way, and stores exactly the block's records when writing |
| `InstructionStream.Assembler.WriteTerm` | src/pn_calculate_opcodes.h:298-379 | terminators take their targets from the block offsets; measuring and writing move the cursor alike |
| `InstructionStream.Assembler.WriteSwitch` | src/pn_calculate_opcodes.h:347-379 | a switch is its head and its cases one after the other, in source order |
| `InstructionStream.Assembler.WritePhis` | src/pn_calculate_opcodes.h:807-823 | the phi header and assignments follow the terminator, with target addresses in place of block ids |
| `InstructionStream.LayoutShift` | src/pn_calculate_opcodes.h:842-868 | laying out from zero and from an aligned base differ by exactly the base, for every block |
| `InstructionStream.LayoutOrder` | src/pn_calculate_opcodes.h:842-851 | blocks are in order, 4-aligned and do not overlap |
| `InstructionStream.LayoutTight` | src/pn_calculate_opcodes.h:842-851 | each block starts at the first multiple of four from the end of the block before it |
| `InstructionStream.TermBytes` | src/pn_calculate_opcodes.h:298-379 | the bytes of every kind of terminator and of the phi records behind it, in numbers |
| `InstructionStream.StartsDistinct` | src/pn_calculate_opcodes.h:842-851 | different blocks start at different addresses, so an address names a block |
| `InstructionStream.StreamExtent` | src/pn_calculate_opcodes.h:852-875 | no two records overlap and every record, the trap included, lies inside the allocated stream |
| `InstructionStream.StreamAt` | src/pn_calculate_opcodes.h:862-875 | every record of every block is found in the stream at the block's start plus the size of the records before it |
| `InstructionStream.BlockSizeCorrect` | src/pn_calculate_opcodes.h:807-824 | the size the cursor arithmetic gives a block is the sum of the sizes of its records |
| `FlatExecution.CompilationPreservesMeaning` | src/pn_executor.h:280-400 | after any number of block steps of the graph, each of which is what `GraphMeaning.BlockIs` says, the interpreter on the assembled stream has come to the image of the same configuration, for every machine, function, start and values |
| `GraphMeaning.BlockIs` | src/pn_executor.h:280-400 | what one block of the graph is, in terms of values: its instructions, then a return with the value it names, a stop, or the block its terminator picks (a condition by its low byte, a switch by the first case with the signed number of its width), where every value a phi names becomes what its source was and all others stay |
| `GraphMeaning.FirstMatchIs` | src/pn_executor.h:1312-1331 | a switch goes to the block of a case with the key before which no case has it, or to the default and then no case has it |
| `GraphMeaning.SignedLowIs` | src/pn_executor.h:1312-1339 | the key is the one signed number of 8, 16, 32 or 64 bits with the low bits of the value |
| `GraphMeaning.TruthIs` | src/pn_executor.h:389-397 | a condition is true unless its low byte is zero, whatever the other bytes are |
| `GraphMeaning.PhisAre` | src/pn_executor.h:142-188 | after the phis of a block done at once, each destination has what its source had before, as its last use for the block it comes from says, and every other value is as it was |
| `GraphMeaning.StraightConcat` | src/pn_executor.h:280-286 | instructions take effect one after the other: a sequence does what its first part and then its second part do |
| `GraphMeaning.StraightOne` | src/pn_executor.h:280-286 | and a single one what the machine says, on values and memory |
| `FlatExecution.CompilationExact` | src/pn_executor.h:142-400 | for every function, phi condition or not: the assembled stream keeps up with the graph for `n` block steps if and only if at each of them the values the branch leaves are those of the phis done at once |
| `FlatExecution.SwapRunDiffers` | src/pn_executor.h:142-188 | a run that leaves the graph's meaning: in the function with the swapping loop the stream keeps up for two block steps, and for the third exactly if the loop ends there or the two values are equal |
| `FlatExecution.RunSimulated` | src/pn_executor.h:380-397 | the same for any stream that holds the records of the function |
| `FlatExecution.RunExact` | src/pn_executor.h:380-397 | for any stream that holds the records, by induction over the run: it keeps up if and only if the phis come out right at every step |
| `FlatExecution.BlockStepExact` | src/pn_executor.h:380-397 | running one block of the stream from its start comes to the start of the block the graph chooses with the graph's values, or to the same result, if and only if the phis of the chosen block come out right |
| `FlatExecution.TermSteps` | src/pn_executor.h:380-397 | the terminator's address, its phi records and the jump together go to the block the graph chooses, with its phis done in order or at once as the flag says |
| `FlatExecution.SwitchSelects` | src/pn_executor.h:1312-1331 | searching the stored cases selects the start of the block that the graph's switch goes to, which is the one of `GraphMeaning.FirstMatchIs` |
| `FlatExecution.AssembledHolds` | src/pn_calculate_opcodes.h:833-879 | what the two passes leave in memory holds every record of the function at its place |
| `FlatExecution.BranchExact` | src/pn_executor.h:142-188 | a branch performs the phis of its target at once for every choice of values if and only if the block's flag is clear or one pass moves the same values; the flag alone does not ensure it |
| `FlatExecution.OneFedBlockIsSafe` | src/pn_calculate_phi_assigns.h:59-76 | a function in which each block feeds phis of at most one other block meets the condition on every branch |
| `FlatExecution.OneFedBlockPreserved` | src/pn_executor.h:280-400 | so for every such function compilation preserves meaning with no further condition |
| `FlatExecution.DoPhiAssigns` | src/pn_executor.h:142-188 | both loops compute the update over the assignments whose target is the branch's: in order with the flag, at once without |
| `FlatExecution.TwoPasses` | src/pn_executor.h:166-187 | reading all sources first and then writing is the simultaneous update |
| `Scheduling.EveryRunIsSafe` | src/pn_executor.h:1368-1475 | over every run of steps from the start: ids differ, the main thread is in the ring, no dead thread is left there, a thread with its futex state set is running and at its wait call, every wait that blocked had read the value it was given and every refused one another, and every wait that returned had been released, for the reason its result gives, after it blocked |
| `Scheduling.StepKeeps` | src/pn_executor.h:1368-1475 | one step, quantum and scheduling, keeps all of that, whatever the clock says |
| `Scheduling.InstructionKeeps` | src/pn_executor.h:280-286 | any instruction of the current thread (wait, wake, create, exit, return, trap or other) keeps it |
| `Scheduling.WaitKeeps` | src/pn_builtins.h:468-512 | a wait that blocks, having read the value it was given, is refused, having read another, or returns keeps it, and leaves the futex state clear |
| `ThreadSteps.WaitIs` | src/pn_builtins.h:468-512 | a wait blocks if and only if it is a first wait and the word is the value it was given, until the deadline it was given; else it returns EAGAIN from a first wait, 0 after a wake and ETIMEDOUT after a timeout, and is stepped past; nothing else changes |
| `ThreadSteps.DeadlineIs` | src/pn_builtins.h:479-491 | the deadline is the last whole microsecond up to the given seconds and nanoseconds, if an address is given |
| `ThreadSteps.PassedIs` | src/pn_executor.h:1452-1454 | a deadline passes when more microseconds have gone by than it names, and never without one |
| `Scheduling.WakeKeeps` | src/pn_builtins.h:537-549 | a wake keeps it and does not change the thread that wakes |
| `Scheduling.WakesFirstWaiters` | src/pn_builtins.h:537-549 | a wake reaches min(nwake, waiters) threads, exactly the first waiters on the address in ring order, and changes no other thread |
| `ThreadSteps.WakeIs` | src/pn_builtins.h:537-549 | the threads a wake changes are blocked on its address, are as many as it may wake or as there are, leave out none that stands nearer, run with the futex state set, and their number is what is written to memory |
| `Scheduling.CreateKeeps` | src/pn_builtins.h:563-584 | a new thread, behind the current one and with a new id, keeps it |
| `ThreadSteps.CreateIs` | src/pn_builtins.h:573-594 | the new thread has the next id, runs at its function with its stack and TLS, and stands right behind its creator; all others keep their order |
| `ThreadSteps.EndIs` | src/pn_builtins.h:596-614 | exit kills the thread and clears the flag it is given, and fails in the main thread; process exit, trap and return from the top end the program with exactly their exit codes |
| `Scheduling.YieldKeeps` | src/pn_executor.h:1404-1441 | after a quantum that did not end the program no dead thread is left for the scheduling loop and the main thread is still in the ring |
| `Scheduling.QuantumGrows` | src/pn_executor.h:1371-1398 | a quantum leaves the order of the other threads alone, wakes some at most, and puts exactly the threads it created behind the current one |
| `ThreadSteps.QuantumIs` | src/pn_executor.h:1371-1398 | a quantum is as many instructions as allowed, or as it takes until the thread does not run any more |
| `ThreadSteps.StepIs` | src/pn_executor.h:1368-1475 | a step is up to 100 instructions and then, if the program goes on, the scheduling loop from the thread behind, the current one last unless it died |
| `ThreadSteps.NobodyIsLost` | src/pn_executor.h:1368-1475 | after a step that does not end the program the ring has exactly the threads it had and those created in it, without the one that ran if that died |
| `Scheduling.SearchIsFirst` | src/pn_executor.h:1443-1472 | the scheduling loop ends exactly when it comes to a thread that runs or is blocked with its deadline passed, picks the first such thread in ring order, turns the ring as far as that and changes nothing but a thread that times out; otherwise it is still looking |
| `Scheduling.SearchStopsAt` | src/pn_executor.h:1443-1472 | a running thread is never passed over: the loop ends at it or before it |
| `Scheduling.StepApproaches` | src/pn_executor.h:1368-1475 | while no thread is created, each step strictly lessens the distance from the current thread to any given running thread |
| `Scheduling.BoundedWaiting` | src/pn_executor.h:1368-1490 | so a running thread gets its turn within as many steps as there are threads before it |
| `Futex.ReleaseOk` | src/pn_builtins.h:537-544 | a blocked thread that is woken by another thread on its address, or whose deadline has passed, is released for that reason |
| `Futex.ReturnExplained` | src/pn_builtins.h:498-512 | a released thread that runs its wait again returns 0 only after a wake and ETIMEDOUT only after its deadline, never both |
| `Futex.UnconcernedKeeps` | src/pn_builtins.h:468-549 | what happens to other threads changes nothing for a waiting or released thread |
| `Threads.Executor.RunStep` | src/pn_executor.h:1368-1475 | the method on the linked structures does exactly the specified step, keeps next/prev inverse around one ring with the start thread, the dead list ended and disjoint from it, and the two together every thread ever allocated |
| `Threads.Executor.RunQuantum` | src/pn_executor.h:1371-1398 | at most 100 instructions, stopping when the thread does not run any more |
| `Threads.Executor.RunInstruction` | src/pn_executor.h:280-286 | one instruction on the structures is one instruction of the specification |
| `Threads.Executor.WaitAbs` | src/pn_builtins.h:468-512 | the switch on the futex state changes exactly the current thread and the history as specified; nanoseconds are kept as microseconds |
| `Threads.Executor.WakeLoop` | src/pn_builtins.h:537-546 | the walk along `next` from the current thread wakes the specified threads and counts them |
| `Threads.Executor.Wake` | src/pn_builtins.h:537-549 | and the count is what is written to memory |
| `Threads.Executor.TakeThread` | src/pn_builtins.h:564-571 | a created thread is the head of the dead list, or new memory if there is none |
| `Threads.Executor.LinkBehind` | src/pn_builtins.h:581-584 | the four pointer writes put a thread into the ring behind the current one, also when the ring has only one |
| `Threads.Executor.CreateThread` | src/pn_builtins.h:563-594 | creation keeps ring and dead list apart and complete, and adds exactly the specified thread |
| `Threads.Executor.ExitThread` | src/pn_builtins.h:607-614 | exit is refused to the main thread, and otherwise makes the thread dead and clears its stack flag |
| `Threads.Executor.ReturnFromTop` | src/pn_executor.h:1242-1254 | returning from the top frame ends the thread, and the program if it is the start thread |
| `Threads.Executor.Unlink` | src/pn_executor.h:1431-1438 | unlinking closes the ring around the dead thread and puts it at the head of the dead list |
| `Threads.Executor.NextThread` | src/pn_executor.h:1404-1441 | the next thread is the one behind the current one, also when that is unlinked |
| `Threads.Executor.Schedule` | src/pn_executor.h:1443-1472 | the loop along `next` is the specified search; the unreachable branch is never reached |
| `Threads.Executor.KeepLooking` | src/pn_executor.h:1443-1472 | a loop that was still looking when last watched goes on as specified |
| `Threads.Executor.constructor` | src/pn_executor.h:230-246 | the start thread alone in the ring is a valid executor |
| `PageHeap.EveryRunSeparates` | src/pn_builtins.h:351-432 | over every run of mmap, munmap, alloca, call and return in which no alloca takes the stack top above the calling frame's: pages below the heap stay mapped, pages at or above its end are unmapped, and it never passes the stack top of any frame of the main thread |
| `PageHeap.AlwaysDescends` | src/pn_executor.h:288-304 | heap and stack are in order after every step of a run if and only if no alloca of it takes the stack top above the calling frame's |
| `PageHeap.NegativeAllocaCrosses` | src/pn_executor.h:288-304 | a run with an alloca of negative size after which the heap has grown past the stack top of the calling frame |
| `PageHeap.MmapMaps` | src/pn_builtins.h:351-402 | a mapping hands out pages that were unmapped, maps exactly those, takes the lowest free run in the heap if there is one and else grows the heap by exactly the pages it looks for; on failure nothing changes |
| `PageHeap.MmapSucceedsIff` | src/pn_builtins.h:364-393 | a mapping succeeds if and only if there is a free run in the heap or the heap can grow by its pages without passing the stack top; it is out of bounds exactly if growing would leave the memory, else out of heap |
| `PageHeap.PagesForExact` | src/pn_builtins.h:354-355 | the pages mmap looks for hold the bytes asked for if and only if the length does not wrap when it is rounded up to pages; if it does, there are none |
| `PageHeap.NeverHandedOutTwice` | src/pn_builtins.h:351-432 | a page handed out by one mapping is not handed out again, whatever runs in between, unless an unmapping touched it |
| `PageHeap.LowestRunIsLowest` | src/pn_builtins.h:364-384 | the run found is free, below the end, and no lower one is free; none is found only if none exists or no page was asked for |
| `PageHeap.MunmapUnmaps` | src/pn_builtins.h:414-432 | munmap clears exactly the pages it touches, none of them outside the heap |
| `PageHeap.UnmapsExactly` | src/pn_builtins.h:414-428 | those pages are the heap pages that hold one of the given bytes, if and only if there are bytes, the address is page-aligned, or it is outside the heap, and either the number of bytes does not wrap when it is rounded up to pages or no heap page lies behind the span it then comes to |
| `PageHeap.AllocaKeeps` | src/pn_executor.h:288-304 | the block of an alloca of any 32-bit size lies above the heap; it lies below everything already on the stack if and only if the size, taken as unsigned, is at most the stack top; the order of heap and frames is kept if and only if the new top is at most the calling frame's |
| `PageHeap.AllocaIs` | src/pn_executor.h:291-296 | the new top is the last multiple of the alignment up to the old one less the size in 32 bits, and fatal exactly if that is below the heap's end |
| `PageHeap.ReturnUndoesCall` | src/pn_executor.h:105-110 | a called frame starts at its caller's top, and returning undoes the call and whatever the frame took |
| `PageHeap.AddressSpace.FindRun` | src/pn_builtins.h:364-384 | the counting loop over the page bits finds the lowest run |
| `PageHeap.AddressSpace.Mmap` | src/pn_builtins.h:331-402 | search, bounds checks and page marking together do the specified mapping, which succeeds as `PageHeap.MmapSucceedsIff` says; not anonymous is refused |
| `PageHeap.AddressSpace.Munmap` | src/pn_builtins.h:405-436 | alignment in 32 bits and clamping together clear the specified pages, for every address and length |
| `PageHeap.AddressSpace.Alloca` | src/pn_executor.h:288-304 | the new top, computed in 32 bits and aligned down, is fatal exactly if it is below the heap's end, and leaves a valid address space exactly if it is at most the calling frame's |
| `PageHeap.AddressSpace.PushFrame` | src/pn_executor.h:105-110 | a called frame starts at its caller's stack top |
| `PageHeap.AddressSpace.PopFrame` | src/pn_executor.h:1230-1232 | returning gives back what the frame took from the stack |
| `PageHeap.AddressSpace.constructor` | src/pn_executor.h:190-210 | pages below the heap start mapped, an empty heap, and the sentinel frame at the end of memory |
| `Bitstream.BitStream.Read` | src/pn_bitstream.h:48-62 | reads the next n bits, low bit first, for every n up to 32 and every position; fails exactly if fewer remain, and never depends on bytes past the data |
| `Bitstream.BitStream.FillCurword` | src/pn_bitstream.h:32-46 | the word buffer holds exactly the remaining bits of the current word, also when the last word is cut short by the end of the data |
| `Bitstream.BitStream.ReadFracBits` | src/pn_bitstream.h:16-30 | takes bits out of the buffer from its low end |
| `Bitstream.BitStream.SeekBit` | src/pn_bitstream.h:138-147 | moves to any bit up to the end, and fails exactly past it |
| `Bitstream.BitStream.Align32` | src/pn_bitstream.h:153-155 | moves to the multiple of 32 computed in 32 bits, and fails exactly if that is past the end |
| `Bitstream.AlignUp32Exact` | src/pn_bitstream.h:153-155 | that is the next multiple of 32 unless the position is past the last whole word of 32-bit positions, where it wraps to the start |
| `Bitstream.BitStream.AtEnd` | src/pn_bitstream.h:157-160 | comparing whole bytes tells exactly whether no bit is left |
| `Bitstream.JoinReads` | src/pn_bitstream.h:52-61 | a read across two words is the bits of both, the first ones low |
| `Bitstream.LoadedWord` | src/pn_bitstream.h:32-46 | a little-endian word, cut to the bytes inside the data, is the bits of those bytes |
| `Bitstream.DataBitAt` | src/pn_bitstream.h:32-46 | bit k of byte i is bit 8 i + k of the stream |
| `Vbr.ReadVbrUint64` | src/pn_bitstream.h:117-136 | at every width from 1 to 32, reads the spelled integer and its chunks; fails exactly if it is cut short or has a chunk beyond 64 bits |
| `Vbr.ReadVbr` | src/pn_bitstream.h:87-115 | at every width from 1 to 32, the 32-bit reader refuses exactly the values 32 bits cannot stand for, as an unsigned or sign-extended value |
| `Vbr.ReadVbr6` | src/pn_bitstream.h:64-85 | the special reader for width 6, with its own loop and constants, promises the same as the general one |
| `Vbr.DecodeIs` | src/pn_bitstream.h:87-136 | what is spelled at a position is the number of the lower bits of as many chunks as follow each other there, the first lowest; nothing is spelled exactly if no chunk without a successor comes |
| `Vbr.Fits32Is` | src/pn_bitstream.h:106-110 | of the 64-bit numbers the check takes those below 2^32 and the 2^31 greatest |
| `Vbr.BoundedIs` | src/pn_bitstream.h:124-135 | the loop takes a chunk exactly if its lowest bit is below bit 64 |
| `Vbr.OneBitChunks` | src/pn_bitstream.h:94-112 | at width 1 the chunks spell zero and end at the first zero bit |
| `Vbr.DecodeEncode` | src/pn_bitstream.h:87-136 | decoding inverts encoding for every value and width, and takes exactly the encoded chunks |
| `Vbr.RoundTrip64` | src/pn_bitstream.h:117-136 | every value below 2^64 is read back, at every width from 2 to 32, consuming exactly its chunks |
| `Vbr.RoundTrip32` | src/pn_bitstream.h:64-115 | every value below 2^32 is read back; of larger ones exactly the sign-extended ones are accepted, as their low 32 bits |
| `Vbr.EncodeBounded` | src/pn_bitstream.h:117-136 | no encoding of a 64-bit value meets the reader's check against too many chunks |
| `Records.ReadDefinitionAndRecord` | src/pn_record.h:30-99 | the whole round trip: a definition and then a record written with it, in the bits of `Records.OpBits`, `Records.ScalarBits` and `Records.RecordBits`, are read back as exactly the operands, the code as the 32-bit reader sees it, and the values, and the stream is left exactly at the end |
| `Records.RecordReader.TryRead` | src/pn_record.h:222-252 | the end of the record exactly when no value is left, without consuming anything then; else the next value: as it is through the 64-bit reader, and through the 32-bit one its low 32 bits if they stand for it, unsigned or sign-extended, and else an abort |
| `Records.RecordReader.ReadAbbrev` | src/pn_record.h:30-119 | the same for an abbreviated record, whose cursor over operands and array elements is then at the next value |
| `Records.RecordReader.ReadElement` | src/pn_record.h:60-92 | the array length is read before the first element, and the cursor leaves the array after the last |
| `Records.RecordReader.ReadCode` | src/pn_record.h:212-220 | the first value of a record is its code, abbreviated or not, and is refused exactly if 32 bits cannot stand for it |
| `Records.RecordReader.ReadAll` | src/pn_record.h:222-236 | reading until the end gives exactly the written values as that reader sees them and consumes exactly their bits, if and only if it takes all of them; else it stops at the first it does not take |
| `Records.RecordReader.NumValuesLeft` | src/pn_record.h:367-380 | gives a number if and only if 32 bits can stand for every value left, and then it is how many are left, with reader and stream as they were |
| `Records.LeastIntIsNotTaken` | src/pn_record.h:296-311 | every 32-bit integer in its signed spelling can stand in a record and be read wide, but the least one, and no other, makes the 32-bit reader and so the count of the values left abort |
| `Records.EncodedPending` | src/pn_record.h:30-99 | a record that stands in the stream in its encoding is what the reader expects there |
| `Records.ReadDefinition` | src/pn_abbrev.h:90-160 | a definition, in the bits of `Records.OpBits` and `Records.DefinitionBits`, is read back operand by operand, elements of arrays included, and exactly its bits are consumed |
| `Records.ReadOp` | src/pn_abbrev.h:100-125 | one operand of a definition, in the bits of `Records.OpBits`, is read back with its value or width, and refused exactly if it is wider than 32 bits |
| `Records.OpBits` | src/pn_abbrev.h:98-145 | the bits of an operand: 1 and an 8-bit-chunk value for a literal; 0, then the number 1 to 5 in three bits, lowest first, for fixed, variable, array, char6 and blob, and a 5-bit-chunk width for the first two |
| `Records.DefinitionBits` | src/pn_abbrev.h:90-97 | the number of operands in 5-bit chunks and then the operands |
| `Records.EncodeChar6` | src/pn_record.h:20-28 | every letter, digit, full stop and underscore has exactly one six-bit code that decodes to it, its place in the string of `Records.Char6Is` |
| `Records.Char6Is` | src/pn_record.h:20-28 | a six-bit code stands for the character at its place in the string a-z, A-Z, 0-9, full stop, underscore |
| `Records.ScalarBits` | src/pn_record.h:42-60 | a literal takes no bits, a fixed field its width, a variable one chunks of its width, a character its six-bit code |
| `Records.RecordBits` | src/pn_record.h:62-67 | the number of elements of an array, and the code and number of values of an unabbreviated record, in 6-bit chunks |
| `Records.RecordReader.UnabbrevAtRecord` | src/pn_record.h:212-216 | an unabbreviated record that stands in the stream is what the reader expects there |
| `AbbrevTable.Table.Allocate` | src/pn_abbrev.h:8-50 | adding an abbreviation may move the table and moves all operands, and every earlier abbreviation still has its own operands, byte for byte, outside the headers and inside the allocation |
| `AbbrevTable.Table.FixPointers` | src/pn_abbrev.h:36-44 | every operand pointer ends up where that abbreviation's operands now are |
| `AbbrevTable.OperandsKept` | src/pn_abbrev.h:29-44 | an abbreviation's operands, through the move of the table and the move down by one header, are the bytes they were |
| `AbbrevTable.TableBytes` | src/pn_abbrev.h:26-32 | each abbreviation adds 16 bytes and 8 for each operand |
| `TypeResolution.TypePass.CalculateResultValueTypes` | src/pn_calculate_result_value_types.h:74-121 | fails on a mismatch exactly if no typing is a solution; else finds the least solution, and reports unresolved values exactly if some result has no derivable type, with their number |
| `TypeResolution.LeastIsUnique` | src/pn_calculate_result_value_types.h:94-114 | there is only one least solution, so the order of retries does not matter |
| `TypeResolution.TypedIffFollows` | src/pn_calculate_result_value_types.h:81-116 | the least solution types a value exactly if a type can be derived for it in finitely many steps |
| `TypeResolution.StuckIsLeast` | src/pn_calculate_result_value_types.h:96-116 | when no listed instruction is ready, the types are the least solution |
| `TypeResolution.AssignKeeps` | src/pn_calculate_result_value_types.h:29-49 | assigning a ready instruction keeps every found type forced and derived |
| `TypeResolution.MismatchContradicts` | src/pn_calculate_result_value_types.h:43-47 | operands that do not cast rule out every solution |
| `TypeResolution.ListSwapRemove` | src/pn_calculate_result_value_types.h:104-107 | replacing a resolved entry by the last one keeps exactly the unresolved instructions listed, each once |
| `TypeResolution.TypePass.FirstPass` | src/pn_calculate_result_value_types.h:81-93 | the first pass lists exactly the instructions left without a type |
| `TypeResolution.TypePass.RetryPass` | src/pn_calculate_result_value_types.h:97-112 | a pass that removes nothing leaves no listed instruction ready |
| `TypeResolution.TypePass.Calculate` | src/pn_calculate_result_value_types.h:29-49 | an instruction is typed exactly if both operands have types |
| `TypeResolution.CastCommutes` | src/pn_calculate_result_value_types.h:8-27 | the cast depends on the order of its operands exactly between a function and a 32-bit integer, where the second one's type wins |
| `TypeResolution.CastIs` | src/pn_calculate_result_value_types.h:8-27 | operands cast exactly if they have the same type or are a function and a 32-bit integer, and then to the type of the second |
| `TypeResolution.OneTypeSuffices` | src/pn_calculate_result_value_types.h:8-121 | when all types known from the start are one type there is no mismatch and every type found is that one |
| `TypeResolution.SecondOperandWins` | src/pn_calculate_result_value_types.h:18-23 | a function and a 32-bit integer give the second operand's type, either way round |
| `Liveness.LivenessPass.CalculateLivenessPerValue` | src/pn_calculate_liveness.h:8-62 | the first walk for a value marks exactly the blocks on paths to its start that avoid its definition and widens its range to just hold them; later walks for it do nothing |
| `Liveness.LivenessPass.CalculateLiveness` | src/pn_calculate_liveness.h:167-209 | for every value defined in a block, the range reaches exactly from the least to the greatest of that block and the blocks live for the use met first, blocks taken from the last one down, and without a walk it is that block; when one walk is enough, those are the blocks that any use keeps it alive in |
| `Liveness.LivenessPass.OneWalkExact` | src/pn_calculate_liveness.h:17-90 | the one walk made for a value, or none, finds exactly the blocks that its uses keep it alive in, phi uses that are never walked included, if and only if every block a use starts from defines the value or is found by that walk |
| `Liveness.OneWalkSuffices` | src/pn_calculate_liveness.h:34-61 | on any graph, one walk finds all that walks from other blocks find if and only if each of those blocks defines the value or is found itself |
| `Liveness.LivenessPass.TightIsForUses` | src/pn_calculate_liveness.h:47-51 | under that condition the range is the smallest interval around the defining block and the blocks any use keeps the value alive in |
| `Liveness.OneWalkMisses` | src/pn_calculate_liveness.h:17-20 | a function and a run of the pass on it that leaves a range without a block that a use met later keeps the value alive in |
| `Liveness.LivenessPass.CalculateBlock` | src/pn_calculate_liveness.h:65-90 | a block's phi uses, up to the first value that is not computed in the function, and then its other uses each start a walk, in that order |
| `Liveness.LivenessPass.StartsAre` | src/pn_calculate_liveness.h:65-90 | the walks of a block are one for each phi use before the first that is not computed in the function, from the block it comes from, and one for every other use, from the block itself, in order |
| `Liveness.LivenessPass.FirstWalkIs` | src/pn_calculate_liveness.h:206-209 | the walk made for a value is the first one of the last block that has one for it; none is made only if no block has one |
| `Liveness.LivenessPass.constructor` | src/pn_calculate_liveness.h:171-184 | arrays of one entry for each block or value, and no value seen, are a valid start |
| `Liveness.LiveIffReaches` | src/pn_calculate_liveness.h:22-62 | the marked blocks, in terms of successors, are those from which control reaches the start without passing a block that defines the value |
| `Liveness.MarkedIffLive` | src/pn_calculate_liveness.h:34-61 | when the stack is empty the marks are exact |
| `Liveness.RoomToPush` | src/pn_calculate_liveness.h:54-60 | the stack of `num_bbs` entries never overflows, because each block is pushed once |
| `Liveness.LivenessPass.Visit` | src/pn_calculate_liveness.h:34-61 | each turn keeps the walk's invariant and takes one from the blocks still to come |
| `Liveness.LivenessPass.PushPreds` | src/pn_calculate_liveness.h:53-60 | pushes exactly the predecessors not seen before |
| `Liveness.WidenIsHull` | src/pn_calculate_liveness.h:47-51 | updating one end or the other keeps the range the smallest interval around the first range and the marked blocks |
| `Liveness.LivenessPass.InitRanges` | src/pn_calculate_liveness.h:181-204 | every value starts with the range of its defining block, or with an invalid one if no block defines it |
| `Predecessors.PredPass.CalculatePredBbs` | src/pn_calculate_pred_bbs.h:8-40 | counting, allocating and filling give every block exactly its predecessors, in block order |
| `Predecessors.PredsTranspose` | src/pn_calculate_pred_bbs.h:12-38 | a block is listed as a predecessor as often as it lists the successor |
| `Predecessors.PredsInOrder` | src/pn_calculate_pred_bbs.h:12-38 | the predecessors of a block are listed in block order |
| `Predecessors.RoomForNext` | src/pn_calculate_pred_bbs.h:31-38 | the fill never runs past the counted array |
| `ChunkAllocator.EveryRunKeeps` | src/pn_allocator.h:28-166 | over every run of allocations, empty ones included, growths, marks and nested resets to marks whose last allocation starts inside its chunk: live allocations are inside their chunk, aligned and share no byte, and the last one ends the newest chunk |
| `ChunkAllocator.EveryStepKeeps` | src/pn_allocator.h:28-166 | each step keeps that, and a reset leaves exactly the chunks, last allocation and totals of its mark |
| `ChunkAllocator.ResetRestores` | src/pn_allocator.h:144-166 | a reset to such a mark finds its chunk, frees exactly the newer ones and restores its fill |
| `ChunkAllocator.ResetWorksIff` | src/pn_allocator.h:144-166 | in every state of the allocator a reset restores the mark's state if and only if the mark has no chunk or its last allocation starts before its chunk's end |
| `ChunkAllocator.FindableUnlessEmptyAtEnd` | src/pn_allocator.h:149-150 | that is so unless the last allocation is empty and its chunk is full |
| `ChunkAllocator.EmptyAtEndLosesChunk` | src/pn_allocator.h:149-150 | a full chunk, an empty allocation, a mark and a reset to it: the chunk is freed although its allocations are live |
| `ChunkAllocator.ResetExact` | src/pn_allocator.h:146-155 | on the chunks alone, they are restored if and only if the mark's last allocation starts before the end of its chunk |
| `ChunkAllocator.AllocKeeps` | src/pn_allocator.h:51-76 | an allocation of any size is aligned, inside a chunk and shares no byte with a live one |
| `AllocatorAccounts.AllocIs` | src/pn_allocator.h:51-76 | an allocation that fits goes to the first aligned place of the newest chunk and changes nothing else |
| `AllocatorAccounts.FitsIs` | src/pn_allocator.h:58-64 | it fits exactly if it ends inside the chunk there |
| `AllocatorAccounts.AllocNewIs` | src/pn_allocator.h:28-76 | any other goes to the first aligned place behind the header of a new chunk, and what was free in the chunk before is counted as lost |
| `AllocatorAccounts.GrowIs` | src/pn_allocator.h:86-125 | the last allocation grows in place exactly if there is room, and else moves behind the header of a new chunk |
| `AllocatorAccounts.ChunkSizeIs` | src/pn_allocator.h:37-39 | a chunk is the least power of two that holds header, allocation and alignment, and at least the least chunk size |
| `AllocatorAccounts.EveryRunAccounts` | src/pn_allocator.h:28-166 | over every run the bytes used are those of the live allocations, and the bytes lost those left free in all chunks but the newest |
| `ChunkAllocator.GrowKeeps` | src/pn_allocator.h:102-124 | growing the last allocation in place meets no other one |
| `ChunkAllocator.MoveKeeps` | src/pn_allocator.h:107-119 | moving it to a new chunk meets no other one |
| `ChunkAllocator.NewChunkKeeps` | src/pn_allocator.h:28-49 | a new chunk has room for the aligned allocation it was made for |
| `ChunkAllocator.Allocator.Allocate` | src/pn_allocator.h:51-76 | the method does the specified allocation and returns its address |
| `ChunkAllocator.Allocator.ReallocAdd` | src/pn_allocator.h:86-125 | the bytes the allocation had are kept, also when it moves, no byte outside it changes, every other live allocation keeps its place and its bytes, and only the last allocation can grow, and only by something |
| `ChunkAllocator.Allocator.LastAllocSize` | src/pn_allocator.h:127-133 | the distance from the last allocation to the chunk's fill is that allocation's size |
| `ChunkAllocator.Allocator.ResetToMark` | src/pn_allocator.h:144-166 | the loop that frees chunks does the specified reset, which restores the state of a mark that can be found, and touches no byte |

## Left out

- Opcode and type tables, arithmetic, casts, floating point and atomics of the interpreter: one-branch facts over fixed widths.
- Values behind a run of the control-flow graph beyond one function: calls and returns between functions appear in the frames of `PageHeap` and the top-level return of `Scheduling`, not in `FlatExecution`.
- Trace, option and environment code, files, the file system, IRT queries, timers, PPAPI events and the PPAPI build: I/O and foreign calls.
- setjmp and longjmp, and restoring a saved stack pointer: their buffers do not survive every return, and the saved pointer is not checked.
- Block-level parsing: its results (ids in range, terminators present, fewer than 0xffff blocks, at most 0xffff phi assignments in a block) are preconditions.
- Blobs in records: their length and end test do not match the format, so there is no round trip to prove.
- Vbr.ReadVbr: not width 0, for which the shift by one less than the width is undefined, and not widths above 32, which the definition reader refuses.
- Vbr.ReadVbrUint64: the same.
- Opcodes of function pointers and argument checks of builtins, and bounds checks of memory accesses: a failed check ends the process.
- The slot map: removing the smallest slot moves children up but does not refill the leaf that falls vacant at the end, so of three values that are live together and have the only three slots two get the same one; the interpreter never uses the slots.
- Stacks of created threads: the source does not compare their tops with the heap.
- Wrap-around of thread ids after 2^32 threads.
- PageHeap.AddressSpace.Mmap: not the lengths for which moving the heap's end wraps 32 bits: the bounds check passes then and page bits beyond the bitset are set, which C does not define. `PageHeap.Run` stops there.
- Growth of the worklist array and of the abbreviation table's other users: both go through the allocator, which is modelled on its own.
- Scheduling.SearchIsFirst: the loop is watched for a given number of threads, because it has no bound when nothing can run; that it never ends then is what is said for every such number.
- InstructionStream.StreamAt: records are stored whole, so the bytes inside a record are not modelled.
- ChunkAllocator.Allocator.ReallocAdd: the chunk list is a sequence of headers apart from the bytes, so the headers' own bytes are not modelled.
- AbbrevTable.Table.Allocate: headers are values apart from the bytes they take; the operands are bytes.
- Records.ReadDefinition: where the operands are stored is `AbbrevTable`; the reader returns them as a sequence. An array operand without an element is refused by the format and not modelled.
