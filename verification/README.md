# OpenRV64: verified models of its executable models, workloads and image builders

OpenRV64 is a RISC-V core with the software around it: an executable model of its issue window,
multi-hart stress workloads, benchmark firmware, generators of test images and synthesis report
tools. This project models the parts of that software whose behaviour is decided by code, and
proves what they are for. `dafny verify dfyconfig.toml` checks all of it.

- **Issue window** (`Issue*.dfy`). The cycle-stepped, three-wide scheduler with its dependency
  links, strict and window policies, backtracking pipe assignment, completion heap, memory order,
  barriers and in-order retirement. `IssueMachine` and `IssueRun` state one cycle as a function of
  the state; `IssueScheduler` is the loop itself, on mutable lists, a heap and counters, and is
  proved to take exactly those steps. On top of the steps: the run invariants, a description of one
  iteration by the trace and the recorded state alone (`IssueWork`), the meaning of the counters over a
  run (`IssueTallies`), deadlock freedom by a measure with bounds on the length of a run from both
  sides, and the theorem that executing the instructions in the cycles in which a run issues them means
  program order.
- **Stress protocols** (`FutexMutex`, `TicketLock`, `RoundRobin`, `VmRemap`). Interleaved atomic
  steps of any number of workers and iterations; every plain read, plain write, page table change
  and futex call is a step of its own.
- **Pointer ring** (`FisherYates`, `Multichase*`). Shuffle, grouping, links and emitted arena, with
  arbitrary draws, down to following the pointers in the assembled bytes.
- **LZ4** (`Lz4*`). The decoder for any input and capacity against the block format, given by a
  writer of blocks and their meaning.
- **Area reports** (`Area*`). The memoised accumulation over the hierarchy, and the walk that undoes
  it.
- **Image builders** (`Sv39*`, `Elf*`, `Sd*`). Page tables against the architecture's walk, sparse
  ELF words against flat memory and back through the text, and the boot image header.
- **UART firmware** (`Uart`, `UartRun`). Handlers and main interleaved with the hardware, up to the
  bytes that leave the FIFO.
- **Simulator harness** (`WideBits`, `FrontendEvents`). Wide bit fields, and the fate of every
  predicted redirect.

`Options`, `Bytes` and `Arithmetic` hold what the components share. Code that changes state in place
is a class or a method on arrays, proved against a function of the old state; what the source
promises is then proved about that function. Concurrent code is a state machine over its steps.
Arbitrary inputs from outside (random draws, checksums, hardware signals, failing system calls) are
parameters or arbitrary events.

Where a claim in the code or its documentation is not what the code does, the code is kept, an input
is given on which the claim fails, and the condition is proved under which it holds:

- the window policy can pass over the oldest ready instruction that is not hard, and does exactly
  when the oldest ready instruction is hard and no two ready ones may issue together
  (`IssuePipes.OldestReadyIssues`, `IssuePipes.BranchBypassesOldestAlu`);
- the scheduler's cycle budget of ten per instruction, which is meant to catch a lack of progress,
  rejects runs that would end (`IssueBudget.BudgetRejectsTerminatingRun`). There are bounds on the
  inputs from both sides (`IssueBudget.Schedule`): nothing is rejected whose release span, latencies
  and three cycles for each instruction, less one, fit into the budget, and everything is that has no
  room for one instruction or a critical path that does not fit. Between the bounds only the schedule
  itself decides; for one instruction they meet (`IssueBudget.OneInstructionExactly`);
- the futex test polls for ever when it is configured with no iterations
  (`FutexMutex.NothingToWaitFor`); both configurations in the source have at least 32, so only another
  caller of `test_futex_mutex` gets there;
- the decoder's zero also stands for a successful expansion to nothing, for exactly two kinds of
  input (`Lz4Decode.EmptyExpansion`);
- the boot image encoder takes headers that the decoder refuses or reads differently, fourteen good
  entries for example (`SdHeader.FourteenRefused`): all but those of one to thirteen good entries
  without overlap (`SdHeader.RoundTripExactly`).

Lemmas whose statement would invite automatic induction turn it off: every induction in this project
is written out.

## Model

| member | source | states |
|---|---|---|
| IssueTrace.LinkDependencies | tools/issue_window_experiment.py:233-249 | the links computed by the in-place pass name, for each used nonzero source register, the youngest older writer, and for each memory operation the youngest older memory operation |
| IssueTrace.LastWriterIsYoungest | tools/issue_window_experiment.py:241-246 | the recorded producer writes the register, and nothing between it and the reader does; no producer means no older writer |
| IssueTrace.LastMemIsYoungest | tools/issue_window_experiment.py:247-249 | the recorded previous memory operation is the youngest older one |
| IssueTrace.MonotonicRelease | tools/issue_window_experiment.py:509-518 | each release time is the running maximum of the requested ones and the floor |
| IssueTrace.RunningMaxIsLeast | tools/issue_window_experiment.py:513-517 | the running maximum is the least bound of the floor and the requests, so release times never decrease |
| IssuePipes.PipeAssigner.Assign | tools/issue_window_experiment.py:265-278 | the backtracking step extends the partial assignment to a complete one, or restores it exactly and no completion exists |
| IssuePipes.PipeAssignment | tools/issue_window_experiment.py:260-280 | an injective assignment of allowed pipes is returned if and only if one exists |
| IssuePipes.ExchangePipes | tools/issue_window_experiment.py:373-386 | exchange argument: an instruction can take the pipe of a member of an assignable group, or join the group on a free pipe |
| IssuePipes.AtMostThree | tools/issue_window_experiment.py:370-388 | no assignable group has more than three members |
| IssuePipes.OldestJoins | tools/issue_window_experiment.py:369-389 | a legal group that passes over an older ready instruction that is not hard is beaten by a legal group that starts with it |
| IssuePipes.WindowChoiceUnique | tools/issue_window_experiment.py:369-389 | the window policy allows one group at most |
| IssuePipes.OldestReadyIssues | tools/issue_window_experiment.py:369-389 | the oldest ready instruction that is not hard is in the chosen group if and only if the oldest ready instruction is not hard or some two ready instructions may issue together; otherwise the hard one issues alone |
| IssuePipes.BranchBypassesOldestAlu | tools/issue_window_experiment.py:374-386 | concrete input on which the oldest ready instruction that is not hard is passed over: a ready branch and one younger ready ALU instruction |
| IssueChoice.CombinationsComplete | tools/issue_window_experiment.py:373 | the enumeration lists every ascending selection of a width and nothing else |
| IssueChoice.ChooseWindow | tools/issue_window_experiment.py:369-389 | the search over widths and combinations returns the widest legal group, first in program order, with a pipe assignment of it |
| IssueChoice.ChooseStrict | tools/issue_window_experiment.py:353-367 | the strict search returns the longest assignable prefix of the leading ready instructions, cut at a hard one, with a pipe assignment of it |
| IssueChoice.StrictChoiceUnique | tools/issue_window_experiment.py:353-367 | the strict policy allows one group at most |
| IssueMachine.RetireKeeps | tools/issue_window_experiment.py:394-402 | retirement keeps the run invariant and retires a completed head, at most three in order |
| IssueMachine.DrainKeeps | tools/issue_window_experiment.py:404-410 | completions from the heap keep the run invariant |
| IssueMachine.HeadStoreKeeps | tools/issue_window_experiment.py:412-419 | the completion of a posted store at the head keeps the run invariant |
| IssueMachine.AdmitKeeps | tools/issue_window_experiment.py:421-443 | admission, free control transfers included, keeps the run invariant |
| IssueMachine.GroupIsSelected | tools/issue_window_experiment.py:343-389 | whatever either policy chooses is an ascending assignable group of ready, admitted, unissued instructions up to the barrier |
| IssueMachine.OneMemPerGroup | tools/issue_window_experiment.py:85-93 | no issue group holds two memory operations |
| IssueMachine.FinishKeeps | tools/issue_window_experiment.py:453-487 | issuing the chosen group keeps the run invariant: completed within issued within admitted, strictly increasing memory issue cycles, producers complete before issue, the barrier, strict order, and at most three memory operations in flight |
| IssueRun.StepKeeps | tools/issue_window_experiment.py:391-487 | one loop iteration keeps the run invariant, under both policies and any free-control flags |
| IssueRun.StepDetermined | tools/issue_window_experiment.py:391-487 | the next state is determined by the state |
| IssueRun.PredecessorIssued | tools/issue_window_experiment.py:323-341 | when an instruction may issue, its producers, all older memory operations if it is one, and all older instructions across a persistent-hard one have issued |
| IssueRun.StepHistory | tools/issue_window_experiment.py:461-476 | over a run the issue history lists each issued instruction once, after everything that precedes it |
| IssueWork.ReadyExactly | tools/issue_window_experiment.py:323-334 | an instruction is ready exactly when every youngest older writer of a nonzero register that it reads is complete, for a memory operation all older ones have issued and fewer than three are in flight, and a persistent-hard one is the head |
| IssueWork.ChosenIssuesMost | tools/issue_window_experiment.py:343-389 | the chosen group fits, and no wider one does: under the window policy no group of instructions that may issue, with pipes of their own and a hard one last, is wider or as wide and earlier; under the strict policy none that passes over nothing is longer |
| IssueWork.Settles | tools/issue_window_experiment.py:394-443 | before the choice, as many instructions have retired and entered the window as may in one cycle, and exactly those have completed whose latency has passed, that are stores at the head, or that are admitted free |
| IssueWork.CycleExactly | tools/issue_window_experiment.py:391-487 | one iteration retires, completes, admits and issues all that the rules allow, at the recorded cycles, and does nothing else |
| IssueAccounts.StepAccounts | tools/issue_window_experiment.py:444-486 | one iteration keeps the accounts: slots and free transfers count the issued instructions, occupancy and skip distances are bounded by the capacity, stalls by full cycles |
| IssueAccounts.FinalTotals | tools/issue_window_experiment.py:494-506 | at the end the slots and free transfers add up to the instruction count, the count is at most three times the cycles less one, and the strict policy has skipped nothing |
| IssueTallies.RunTallied | tools/issue_window_experiment.py:444-486 | over every run each counter is the number of cycles that its name says, each maximum is the greatest value over the cycles, and slots and free transfers are counted exactly |
| IssueProgress.HeadIsReady | tools/issue_window_experiment.py:323-334 | an admitted head that has not issued is always ready |
| IssueProgress.WaitingHeadIssuesSomething | tools/issue_window_experiment.py:343-389 | while the head waits to issue, every cycle issues something |
| IssueProgress.StepLowers | tools/issue_window_experiment.py:391-487 | deadlock freedom: with capacity for one instruction, every iteration before the end lowers the admissions, issues, completions, retirements and waiting cycles still to come, with no cycle budget |
| IssueProgress.HeadIssuesWithinCapacity | tools/issue_window_experiment.py:391-487 | an admitted head is passed over for fewer than `capacity` cycles |
| IssueOrder.RunOrders | tools/issue_window_experiment.py:391-487 | over any run, the sequence of what each cycle issued lists every issued instruction once, after everything that precedes it, and by recorded issue cycle, free ones first and then by position within a cycle |
| IssueOrder.ByCycleUnique | tools/issue_window_experiment.py:461-464 | the recorded issue cycles determine that sequence: no other one of the same instructions agrees with them |
| IssueReplay.ReplayPreservesMeaning | tools/issue_window_experiment.py:233-249 | executing the whole trace in any order that respects the links, with operands from the recorded producers, gives every result, the final registers, memory and system state of program order |
| IssueReplay.SchedulePreservesMeaning | tools/issue_window_experiment.py:391-487 | for every complete run under either policy with the free-control flags off, executing the instructions in the order in which the iterations issued them gives what program order gives |
| IssueReplay.RecordedCyclesPreserveMeaning | tools/issue_window_experiment.py:461-464 | the same from nothing but the recorded issue cycles: the instructions sorted by issue cycle, those of one cycle by position, are that order and mean program order |
| IssueScheduler.Scheduler.RetirePhase | tools/issue_window_experiment.py:394-402 | the loop over the retired list and the head computes the retirement phase |
| IssueScheduler.Scheduler.DrainPhase | tools/issue_window_experiment.py:404-410 | the heap loop computes the completions due, and the memory counter stays the number of issued, incomplete memory operations |
| IssueScheduler.Scheduler.HeadStorePhase | tools/issue_window_experiment.py:412-419 | the head store step on the lists computes that phase |
| IssueScheduler.Scheduler.AdmitPhase | tools/issue_window_experiment.py:421-443 | the admission loop computes the admission phase |
| IssueScheduler.Scheduler.IsReady | tools/issue_window_experiment.py:323-334 | the readiness test on the lists and the memory counter is readiness in the run |
| IssueScheduler.Scheduler.BarrierCutoff | tools/issue_window_experiment.py:336-341 | the cutoff is the first unretired persistent-hard instruction of the window, or its end |
| IssueScheduler.Scheduler.Choose | tools/issue_window_experiment.py:343-389 | the group and its pipe assignment are the ones the policy allows |
| IssueScheduler.Scheduler.IssuePhase | tools/issue_window_experiment.py:453-487 | the issue loop and the counters compute the end of the iteration |
| IssueScheduler.Scheduler.Cycle | tools/issue_window_experiment.py:391-487 | one iteration on the mutable lists, heap and counters is one step of the run, and extends the history and the accounts |
| IssueBudget.RunToEnd | tools/issue_window_experiment.py:391-487 | without the cycle budget the loop ends with every instruction retired, and its history is the order in which its iterations issued |
| IssueBudget.Schedule | tools/issue_window_experiment.py:283-506 | with the budget: the empty trace fails, and a run either finishes within the budget with its counters or is cut off one cycle after it; it finishes whenever there is room and the work bound is within the budget, and fails whenever there is no room or some critical path is not |
| IssueBudget.BudgetOnlyCutsOff | tools/issue_window_experiment.py:488-492 | the budget changes nothing about a run that the loop without it would have ended in time, and cuts off every other |
| IssueBudget.WorkBoundHolds | tools/issue_window_experiment.py:391-487 | with room for one instruction no run is longer than the release span, three cycles for each instruction and all latencies, less one |
| IssueBudget.CriticalPathBounds | tools/issue_window_experiment.py:391-487 | a complete run is no shorter than the critical path to any instruction, through releases, producers, memory order and latency, plus the two cycles that complete and retire it |
| IssueBudget.NoRoomNoProgress | tools/issue_window_experiment.py:421-423 | with a capacity of zero or less nothing is ever admitted, so every trace runs into the budget |
| IssueBudget.OneInstructionExactly | tools/issue_window_experiment.py:391-492 | for a single instruction the two bounds meet: the budget fires if and only if it lasts more than eight cycles |
| IssueBudget.BudgetRejectsTerminatingRun | tools/issue_window_experiment.py:488-492 | concrete input that the budget rejects although the loop would end: one instruction of latency eleven |
| FutexMutex.StepInv | sw/linux-user-tests/openrv64_user_stress.c:548-582 | every step of every interleaving keeps the word in {0, 1, 2}, nonzero exactly with a holder, and no sleeper without a contended word, a waker or a thread about to mark the word again |
| FutexMutex.MutualExclusion | sw/linux-user-tests/openrv64_user_stress.c:548-582 | no two threads are inside in any interleaving, and the word is nonzero exactly when one is |
| FutexMutex.FinalCounter | sw/linux-user-tests/openrv64_user_stress.c:934-963 | when all threads are done the counter is workers times iterations, the mutex is free, and some worker has waited |
| FutexMutex.DeadlockFree | sw/linux-user-tests/openrv64_user_stress.c:548-582 | with at least one iteration no wakeup is lost: until all are done some thread is awake and does not poll in vain |
| FutexMutex.StepWorks | sw/linux-user-tests/openrv64_user_stress.c:548-582 | no step of any interleaving, going round the wait loop included, adds to the critical sections still to be done |
| FutexMutex.EndReachable | sw/linux-user-tests/openrv64_user_stress.c:934-963 | with at least one iteration, every run can be continued to one in which all threads are done |
| FutexMutex.NothingToWaitFor | sw/linux-user-tests/openrv64_user_stress.c:954-957 | with no iterations and some worker the test polls for ever |
| TicketLock.StepInv | sw/linux-user-tests/openrv64_user_stress.c:436-447 | every step of every interleaving keeps the ticket invariant |
| TicketLock.ExclusiveAndFifo | sw/linux-user-tests/openrv64_user_stress.c:436-447 | entry is exclusive and in ticket order, live tickets are distinct and lie in [owner, next) |
| TicketLock.FinalCounts | sw/linux-user-tests/openrv64_user_stress.c:696-710 | at the end the tickets, the owner and the plain counter are workers times iterations, and the plain checksum has absorbed every entry in order |
| TicketLock.DeadlockFree | sw/linux-user-tests/openrv64_user_stress.c:436-447 | until all workers are done some worker can make progress |
| TicketLock.StepWorks | sw/linux-user-tests/openrv64_user_stress.c:436-447 | every step of every interleaving lowers the work left, except exactly the spins in vain, which change nothing |
| TicketLock.EndReachable | sw/linux-user-tests/openrv64_user_stress.c:436-447 | every run can be continued to one in which all workers are done |
| RoundRobin.CasStepInv | sw/linux-user-tests/openrv64_user_stress.c:418-434 | a compare-exchange attempt succeeds exactly for the worker whose turn it is, and keeps the turn order |
| RoundRobin.CasOneProgresses | sw/linux-user-tests/openrv64_user_stress.c:418-434 | in every reachable state exactly the worker `counter mod workers` can succeed, while any turn is left |
| RoundRobin.CasFinal | sw/linux-user-tests/openrv64_user_stress.c:685-694 | when all are done the counter is workers times iterations |
| RoundRobin.CasEndReachable | sw/linux-user-tests/openrv64_user_stress.c:418-434 | every run can be continued to one in which all workers are done |
| RoundRobin.HandoffStepInv | sw/linux-user-tests/openrv64_user_stress.c:470-483 | every step of every interleaving keeps token, payload and position in agreement |
| RoundRobin.HandoffNeverFails | sw/linux-user-tests/openrv64_user_stress.c:470-483 | the failure call is unreachable, and only the worker named by the token is past its spin |
| RoundRobin.HandoffMoves | sw/linux-user-tests/openrv64_user_stress.c:470-483 | until all are done the worker named by the token can take a step that changes something |
| RoundRobin.HandoffFinal | sw/linux-user-tests/openrv64_user_stress.c:755-766 | when all are done the payload is workers times iterations and the token is back at zero |
| RoundRobin.HandoffEndReachable | sw/linux-user-tests/openrv64_user_stress.c:470-483 | every run can be continued to one in which all workers are done |
| VmRemap.StepInv | sw/linux-user-tests/openrv64_user_stress.c:506-541 | every step of both threads, failing calls included, keeps the phase protocol |
| VmRemap.NeverFailsOrFaults | sw/linux-user-tests/openrv64_user_stress.c:506-541 | the worker never sees a wrong value and never touches a page it may not, through protection changes, moves and replacements |
| VmRemap.NoPlainRace | sw/linux-user-tests/openrv64_user_stress.c:866-912 | the plain variables and the page table change only while the worker spins on the phase, and its next step reads none of them |
| VmRemap.WorkerSeesBothPages | sw/linux-user-tests/openrv64_user_stress.c:529-540 | during verification the moved page shows the old value and the replaced page the new one |
| VmRemap.AbortReleasesWorker | sw/linux-user-tests/openrv64_user_stress.c:506-541 | after an abort the worker ends within two more steps of its own, however the main thread is interleaved |
| VmRemap.NoDeadlock | sw/linux-user-tests/openrv64_user_stress.c:506-541 | the two threads never wait for each other before both have finished |
| VmRemap.Outcome | sw/linux-user-tests/openrv64_user_stress.c:866-912 | after all rounds the original page lies at the address given by the parity of the rounds with its first value, and the other address shows the last new value |
| FisherYates.RandomPermutation | tools/gen_multichase_ring.py:49-57 | the in-place shuffle computes the permutation of its draws |
| FisherYates.ShufflePermutes | tools/gen_multichase_ring.py:49-57 | every sequence of draws gives each of the values base .. base + count - 1 once |
| FisherYates.UnshuffleShuffle | tools/gen_multichase_ring.py:49-57 | the draws can be read back, so different draws give different permutations |
| FisherYates.ShuffleUnshuffle | tools/gen_multichase_ring.py:49-57 | every permutation is reached |
| MultichaseRing.MakeOrder | tools/gen_multichase_ring.py:60-72 | the loop computes the order of its draws, and its internal error is never raised |
| MultichaseRing.OrderPermutesByGroup | tools/gen_multichase_ring.py:60-72 | the order lists every node once, and each locality group occupies one contiguous run |
| MultichaseDraws.OrderIffDraws | tools/gen_multichase_ring.py:49-69 | two streams give the same order if and only if they give the same draws, within every group too |
| MultichaseDraws.EveryOrderDrawn | tools/gen_multichase_ring.py:60-72 | every permutation of the nodes that keeps the locality groups together is the order for some draws |
| MultichaseLinks.MakeSuccessors | tools/gen_multichase_ring.py:75-89 | succeeds if and only if the order is a permutation, and then the links form one ring |
| MultichaseLinks.PermutationRings | tools/gen_multichase_ring.py:75-89 | a permutation links into a single ring through all nodes |
| MultichaseLinks.RingPermutes | tools/gen_multichase_ring.py:75-89 | links that form one ring come from a permutation |
| MultichaseLayout.RingChases | tools/gen_multichase_ring.py:133-145 | in the assembled arena, loading pointers from the start label returns to it after exactly `nodes` loads and visits every element once |
| MultichaseLayout.EmittedChases | tools/gen_multichase_ring.py:112-145 | whatever is drawn, the emitted lines form such an arena |
| MultichaseLayout.EmittedVisits | tools/gen_multichase_ring.py:112-145 | the k-th load leads to the node k places behind node 0 in the drawn order, at the slot drawn for that node |
| MultichaseLayout.Emit | tools/gen_multichase_ring.py:92-145 | the sizes are refused with the first applicable complaint, and otherwise the arena of the draws is emitted, with the requested size and a single ring |
| Lz4Format.MatchedRepeats | sw/lz4/lz4.c:142-145 | a match repeats the last `offset` bytes, also where it overlaps its own output |
| Lz4Format.WireParses | sw/lz4/lz4.c:103-146 | reading inverts writing, extension bytes included |
| Lz4Format.ParseWrote | sw/lz4/lz4.c:103-146 | writing inverts reading: whatever is read successfully is the wire form of its result |
| Lz4Format.WireUnique | sw/lz4/lz4.c:103-146 | a byte string is the wire form of at most one block |
| Lz4Decode.ExtendLength | sw/lz4/lz4.c:80-93 | the extension loop computes the extended length and the place after it, or fails at the end of the input |
| Lz4Decode.ExtendBounded | sw/lz4/lz4.c:80-93 | an extended length grows by at most 255 for each byte read, so it never equals the failure value |
| Lz4Decode.DecodeHead | sw/lz4/lz4.c:103-146 | the loop body copies literals and match within bounds and stops exactly when the input, the output or the offset does not allow it |
| Lz4Decode.Decode | sw/lz4/lz4.c:96-149 | for any input and capacity every access is in bounds, and the result is the size and bytes of the expansion, or zero |
| Lz4Decode.OutcomeExactly | sw/lz4/lz4.c:96-149 | decoding succeeds with some bytes if and only if the input is the wire form of a block that expands to them, and they fit |
| Lz4Decode.RoundTrip | sw/lz4/lz4.c:96-149 | decoding a written block gives its expansion |
| Lz4Decode.EmptyExpansion | sw/lz4/lz4.c:146-148 | the result zero is also a success exactly for the empty input and for a lone token without literals |
| Lz4Corpus.CorpusWire | sw/lz4/lz4.c:43-74 | the static initializer is the wire form of the benchmark block, 72 bytes and 24 for each repeat |
| Lz4Corpus.CorpusDecodes | sw/lz4/lz4.c:43-74 | for any literals and any number of repeats the initializer decodes to the bytes of the closed form |
| Lz4Corpus.Verify | sw/lz4/lz4.c:152-171 | the check accepts exactly the outputs of the closed form |
| Lz4Corpus.Benchmark | sw/lz4/lz4_start.S:16-31 | the benchmark passes its own check, whatever the output held before |
| AreaGraph.PathSumCounts | synth/core/parallel_map.py:222-227 | summing along all paths is the same as counting each module once for each of its instances |
| AreaGraph.OrderedAcyclic | synth/core/parallel_map.py:236-237 | an order with children before parents contains no cycle |
| AreaAccumulate.Accumulator.Accumulate | synth/core/parallel_map.py:233-249 | the memoised recursion returns the sums over all instances below the module, or raises the error and there is a cycle |
| AreaAccumulate.Merge | synth/core/parallel_map.py:172-262 | a missing child is reported; otherwise the cycle error is raised if and only if there is a cycle, and every report gets the sums over its instances |
| AreaAccumulate.TotalCounts | synth/core/parallel_map.py:233-249 | the sums are each module's own values times its number of instances |
| AreaPartition.ClampedTotal | synth/core/summarize_resources.py:351-375 | over all instances below a module the own areas telescope to the area of the module, plus what the clamp adds |
| AreaPartition.StopsBelow | synth/core/summarize_resources.py:351-365 | the walk meets a problem exactly at the module itself or below one of its children |
| AreaReport.Walker.Walk | synth/core/summarize_resources.py:351-380 | the walk stops if and only if some instance gives cause, and otherwise each category grows by the clamped own values, cells and instances of its modules, once for each instance |
| AreaReport.Summarize | synth/core/summarize_resources.py:351-391 | the report ends without an error if and only if nothing stops the walk, the total is positive and the clamp has added at most 0.1; the total exceeds the area of the top module by what the clamp added, and each category lists exactly the path names of its instances |
| AreaReport.OwnRecovered | synth/core/summarize_resources.py:355-362 | on accumulated areas, subtracting the children leaves each module's own area |
| AreaReport.WalkUndoesAccumulate | synth/core/summarize_resources.py:351-391 | on accumulated areas the walk stops if and only if some instance below the top is of a module without a category, the clamp adds nothing, and a category holds the own areas, sequential areas and cells of its modules times their instances |
| SdHeader.EntryRoundTrip | tools/make-fpga-sd-image.py:131-145 | an entry whose fields fit and whose tag does not end in NUL is read back from its bytes |
| SdHeader.HeaderRoundTrip | tools/make-fpga-sd-image.py:119-201 | decoding an encoded header gives its entries back, for one to thirteen good entries that do not overlap |
| SdHeader.RoundTripExactly | tools/make-fpga-sd-image.py:119-201 | of the lists that encoding takes, exactly those of one to thirteen good entries that do not overlap decode to themselves |
| SdHeader.AcceptedReadsBack | tools/make-fpga-sd-image.py:119-201 | the entries of any accepted header encode to a header that is accepted with the same entries |
| SdHeader.CountRefused | tools/make-fpga-sd-image.py:119-164 | encoding takes up to fourteen entries and none at all, and decoding refuses both ends |
| SdHeader.FourteenRefused | tools/make-fpga-sd-image.py:157-164 | concrete input that is encoded and then refused: fourteen good entries of one sector each that do not overlap |
| SdHeader.OverlapExactly | tools/make-fpga-sd-image.py:195-200 | looking at neighbours after sorting finds an overlap if and only if some two ranges overlap |
| SdHeader.AcceptedRangesDisjoint | tools/make-fpga-sd-image.py:149-201 | the entries of any accepted header lie inside the image behind the header area, have room for their data, and share no sector |
| SdHeader.AcceptedExactly | tools/make-fpga-sd-image.py:149-201 | a header is accepted with these entries if and only if its fixed part, its entries and its checksum are theirs and the entries are good; reserved bytes may hold anything |
| SdHeader.HeaderLayout | tools/make-fpga-sd-image.py:119-146 | each value of an encoded header lies at its offset, in little-endian bytes, and all other bytes before the checksum are zero |
| SdImage.MakeEntries | tools/make-fpga-sd-image.py:100-116 | the entries get consecutive sectors, or the lists differ in length |
| SdBuild.EntriesPacked | tools/make-fpga-sd-image.py:100-116 | each entry describes its own input and payload, and takes the fewest sectors that hold it, right behind the entry before it |
| SdImage.EncodeHeader | tools/make-fpga-sd-image.py:119-146 | the in-place packing computes the header bytes, and fails exactly for tags, fields or counts that do not fit |
| SdBuild.Build | tools/make-fpga-sd-image.py:281-287 | the assembled image holds the header, zeros up to the first payload, and each payload at its sectors, followed by zeros; it fails exactly for other lengths or values that do not fit |
| SdBuild.AssembledUnique | tools/make-fpga-sd-image.py:281-287 | the inputs determine every byte of the image |
| SdBuild.VerifiesExactly | tools/make-fpga-sd-image.py:238-254 | verification accepts exactly the aligned images whose header decodes and whose payloads have their checksums and zero padding |
| SdBuild.BuiltImageVerifies | tools/make-fpga-sd-image.py:238-254 | verification accepts every image built from one to thirteen good inputs, and returns its entries |
| Sv39.TablesTranslate | tools/make_shared_sv39_image.py:50-67 | through tables of this shape every 64-bit virtual address translates as its page says, and all others fault |
| Sv39Images.InstallTables | tools/make_shared_sv39_image.py:50-67 | the in-place loop writes the two pointers and the page entries |
| Sv39Images.InstalledTables | tools/make_shared_sv39_image.py:50-67 | written over cleared pages they are tables of that shape |
| Sv39Builds.BuildHarts | tools/make_4h_sv39_image.py:31-67 | a template is refused exactly if it is too long, and otherwise each of the four prefixes gets a copy of it and its own tables |
| Sv39Builds.HartsUnique | tools/make_4h_sv39_image.py:31-67 | the template determines every byte of the image, the zeros between the prefixes included |
| Sv39Builds.RootTranslates | tools/make_4h_sv39_image.py:31-67 | through each root the window is linear in that root's physical memory, for every address and kind of access, and everything else faults |
| Sv39Builds.StoreStays | tools/make_4h_sv39_image.py:31-67 | a store through any hart's own tables hits the byte of its own window or faults, and leaves all tables as they are |
| Sv39Builds.HartsDoNotInterfere | tools/make_4h_sv39_image.py:31-67 | after any interleaving of stores by all harts, each through its own tables, every translation is still the built one, and each hart reads at every address what it would have read running alone |
| Sv39Builds.BuiltRuns | tools/make_4h_sv39_image.py:44-67 | the built image has the tables from which the harts run |
| Sv39Builds.BuildShared | tools/make_shared_sv39_image.py:36-84 | the shared image has the tables, and with the test option the alias and the two data values |
| Sv39Builds.AliasRemaps | tools/make_shared_sv39_image.py:69-83 | a page table entry stored through the alias changes exactly the target page's translation |
| Sv39Builds.RemapShowsNewValue | tools/make_shared_sv39_image.py:69-83 | the target page shows the old value before the remapping and the new value after it |
| ElfImage.ImageWords | tools/elf2mem.py:73-105 | succeeds if and only if the word size is allowed and the segments lie in the memory and agree where they overlap, names a real conflict otherwise, and packs every byte into its word |
| ElfImage.OrderDoesNotMatter | tools/elf2mem.py:81-105 | the same segments in any order give the same words |
| ElfMemh.WriteMemh | tools/elf2mem.py:108-117 | reading the written lines back as $readmemh does gives exactly the words |
| ElfMemh.TextSize | tools/elf2mem.py:108-117 | the text has one line of digits for each word and one address line for each run of words without a gap |
| ElfMemh.TextShowsSegments | tools/elf2mem.py:73-117 | a zeroed memory into which the text is read shows at every address the byte of its segment, zero-filled parts included, and zero elsewhere |
| Uart.Device.Receive | sw/uart.c:138-160 | the receive loop stores what its bytes one by one give |
| Uart.ReceivesFirstLine | sw/uart.c:138-160 | byte by byte that is the first line of the input: at most 64 bytes, without one trailing return |
| Uart.LineIs | sw/uart.c:138-160 | the line is what comes before the newline, the first 64 bytes of it, less one trailing return; before the newline nothing is ready |
| Uart.Device.Transmit | sw/uart.c:162-180 | one service pushes the next batch of at most sixteen bytes, and sets tx_done and disables the interrupt exactly if it had nothing to push |
| UartRun.RunServices | sw/uart.c:162-180 | in every run a service, from its first step to its last and whatever leaves the FIFO meanwhile, ends as uart_transmit does, and the FIFO has gained exactly its batch |
| Uart.Device.StartTransmit | sw/uart.c:262-292 | the buffer becomes the whole message, never truncated |
| UartRun.StepInv | sw/uart.c:138-180 | every step of main, of the handlers and of the hardware keeps the run invariant |
| UartRun.LineStays | sw/uart.c:138-160 | once the line is ready it is the first line of the input and nothing changes it |
| UartRun.FifoNeverOverflows | sw/uart.c:162-180 | no service pushes more than sixteen bytes and the FIFO never holds more |
| UartRun.SendsTheMessage | sw/uart.c:294-327 | in every run the bytes sent are a beginning of the intended message, at tx_done the whole of it has left the FIFO, and main returns zero only then |
| UartRun.SendingMovesOn | sw/uart.c:162-180 | until tx_done is set the hardware or the handler can always go on, and comes closer to the end |
| UartRun.SendingFinishes | sw/uart.c:162-180 | from every reachable state in which main waits for the transmission, the hardware and the handler alone lead to tx_done with the whole message sent |
| WideBits.Extract | tb/verilator_4h_checkpoint_main.cpp:228-244 | for any number of words the loop returns (V >> lsb) mod 2^width |
| WideBits.Extract64 | tb/verilator_checkpoint_main.cpp:107-117 | the three-word form returns (V >> lsb) mod 2^64, with zeros above the last word |
| WideBits.Agree | tb/verilator_checkpoint_main.cpp:107-117 | where both apply they agree |
| FrontendEvents.Breakdown.Sample | tb/verilator_checkpoint_main.cpp:1081-1440 | one cycle gives the pending event its fate and updates what the pending target has observed, starts the new one, and counts an empty cycle in the first bucket that applies |
| FrontendEvents.PendingRemembers | tb/verilator_checkpoint_main.cpp:1206-1224 | while a target waits it accumulates whether any cycle since its prediction delayed its translation or missed the instruction cache |
| FrontendEvents.ReportAddsUp | tb/verilator_checkpoint_main.cpp:1446-1550 | predictions are the deliveries, the two kinds of superseded events and the pending one; the histograms add up to the deliveries, the buckets to the empty cycles, and each bucket counts the empty cycles whose first raised cause is its own |
| FrontendEvents.RecoveryIsLatest | tb/verilator_checkpoint_main.cpp:1354-1366 | the recovery is that of the latest cycle that redirected or was not empty, a flush before a direction redirect before a predicted one |
| FrontendEvents.NoRecoveryYet | tb/verilator_checkpoint_main.cpp:1354-1366 | before the first redirect there is no recovery |
| FrontendEvents.FateIs | tb/verilator_checkpoint_main.cpp:1236-1300 | the first cycle that is not quiet decides the fate of an event: delivered from the first applicable source, after the cycles between, or superseded by control, or by a prediction |
| FrontendEvents.FatesStay | tb/verilator_checkpoint_main.cpp:1236-1310 | a fate once decided never changes |
| FrontendEvents.BucketsAreIntervals | tb/verilator_checkpoint_main.cpp:1011-1017 | the latency buckets are the intervals from 0, 1, 2, 3, 4 and 8 bubbles on, and the exact ones the numbers up to seven and all above |
| FrontendEvents.SourcesListed | tb/verilator_checkpoint_main.cpp:897-905 | the histograms by source are numbered in the order in which the source lists them |
| FrontendEvents.SourcesAddUp | tb/verilator_checkpoint_main.cpp:1270-1284 | the histograms by source add up to the deliveries of the source and to the histogram of all sources |

## Left out

- The trace files: `load_trace` before the dependency pass (CSV columns, lanes, first and last
  sightings), and the ratio `ipc` of the result.
- `heapq` and the dictionary of a pipe assignment: the completion heap is a set from which a least
  entry is taken, and of an assignment only the pipe of each member matters.
- IssueReplay.SchedulePreservesMeaning: covers runs with the free-control flags off, since those flags
  let instructions pass their dependencies on purpose; the run invariants cover both settings.
- IssueReplay.ReplayPreservesMeaning: a memory operation takes its whole effect in the cycle in which
  it issues, which is where the scheduler orders it.
- IssueReplay.RecordedCyclesPreserveMeaning: memory is reached only by the opcodes that the source
  classifies as memory operations (0x03, 0x23 and 0x2f) and by persistent-hard instructions, as on the
  3P core. Floating-point loads and stores (0x07 and 0x27) are not among them, and for a trace that
  held some the schedule would not order them.
- IssueBudget.Schedule: whether the budget fires between the two bounds is not given in closed form.
- FutexMutex.EndReachable: some continuation ends, not every fair one; which sleeper a wake chooses and
  when a thread runs is up to the kernel.
- FutexMutex.FinalCounter: counters are unbounded; the wrap-around of the 32-bit wait counter and of
  the 64-bit counters is not modelled.
- Weak memory: the stress protocols use sequentially consistent steps. Futex calls, page mapping and
  remapping have their documented effect; scheduling is any interleaving. Starting, pinning and
  joining the workers is not modelled.
- The remaining stress tests (separate lines and pages, false sharing, atomic addition through two
  mappings, affinity): each adds independent counters only.
- FisherYates.RandomPermutation: draws are arbitrary; the SplitMix64 generator itself is not modelled.
- MultichaseLayout.Emit: the lines are directives, not their text, and the comment header and section
  lines are not among them.
- Lz4Decode.Decode: lengths are unbounded integers; `Lz4Decode.ExtendBounded` shows that no input
  shorter than 2^55 bytes reaches the failure value.
- AreaAccumulate.Merge: areas are exact reals; rounding is not modelled. Worker processes, their
  reports and the timing file are left out.
- AreaReport.Walker.Walk: asks for a hierarchy without a cycle, on which the recursion ends; the
  accumulation has rejected any other. Descriptions of categories, the memory inventory, the flat
  report and the table files are left out.
- SdBuild.Build: the payloads are arbitrary byte strings; compiling the device tree, reading the
  inputs, the magic number of the kernel, the manifest and its hashes are left out. CRC32 is an
  arbitrary function.
- Sv39Builds.RootTranslates: translation is by the walk alone, in supervisor mode; translation caches,
  PMP, and accesses by machine or user mode are left out.
- ElfImage.ImageWords: starts from the segments; reading the ELF header and program headers is left
  out.
- ElfMemh.WriteMemh: takes the sorted keys as given.
- UartRun.SendsTheMessage: a receive interrupt is one byte at a time, which allows more interleavings
  than the handler does; divisor, PLIC and CLINT registers are left out, and the timer may fire at
  any time.
- FrontendEvents.Breakdown.Sample: the signals of the simulated core are arbitrary, also those that the
  source derives by matching addresses; counters that overlap on purpose and the event log are left
  out.
- The RTL, the other halves of the two Verilator programs, the report renderers and trace viewers, the
  serial loader, and BLAKE2s, whose measured and reference forms are the same algorithm.
