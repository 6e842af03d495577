# A model of the side-channel symbolic executor

The repository is a symbolic executor in the KLEE tradition, extended by asynchronous
threads and by an analysis for cache and timing side channels. This project models the
parts of it whose correctness is hard to see from any one function, and proves what they
are for. Every solver call is an oracle that may time out and is otherwise right.

| file | what it models |
|---|---|
| `Exprs.dfy`, `Solvers.dfy` | expressions and their values, the solver contract |
| `Arithmetic.dfy`, `Sequences.dfy`, `Options.dfy` | facts about division and about sequences without repeats, optional values |
| `CopyOnWrite.dfy`, `AddressSpaces.dfy` | shared object states owned by an integer epoch: a state machine refined by classes |
| `ObjectStates.dfy` | multi-byte reads and writes on an array with symbolic updates |
| `Resolution.dfy` | finding the objects a symbolic address can lie in |
| `Paths.dfy`, `ExecutionStates.dfy` | forking and branching of states, on leaves and on objects |
| `Switches.dfy` | lowering of a symbolic switch to conditions |
| `MemoryOps.dfy` | a load or store that may hit several objects |
| `Merging.dfy` | merging two states |
| `Schedulers.dfy` | the cooperative scheduler of asynchronous functions |
| `CacheChecks.dfy` | the renaming-based cache-line check |
| `CallPaths.dfy` | the call-path tree and its bottom-up summary |
| `Vectors.dfy`, `Varargs.dfy` | vector elements in both layouts, packing of variable arguments |
| `Regions.dfy` | lists of bit regions |
| `KTests.dfy` | the test case file format |

Objects with fields that methods update in place are classes; each method is tied to a
function or a state machine on values, and the properties are proved there.

## What the code does not do

Each of these is a theorem, with the exact condition or a concrete input.

- The key counter of an address space is a 32-bit number. A copy keeps objects private if
  and only if no object bound in the source already carries the new key
  (`CopyOnWrite.CopyKeepsPrivate`). That is so as long as the counter does not wrap
  (`CopyOnWrite.NoWrapSuffices`); after it has wrapped the second copy gives a space a key
  that owns a shared object (`CopyOnWrite.SecondCopyBreaksPrivacy`), and a write then shows
  in another space (`CopyOnWrite.WrapBreaksIsolation`).
- A cap of one on the number of resolutions has no effect, against the promise at
  `klee/lib/Core/AddressSpace.h:79-81`: the test for the cap is in the other branch. The cap
  is exceeded if and only if two objects are feasible (`Resolution.Resolve`,
  `Resolution.CapOfOneIgnored`).
- A switch whose default block is also the target of a reachable case loses the default
  inputs, and no other switch does (`Switches.FaithfulIff`, `Switches.ClashingSwitch`).
- A start on an empty queue while main waits puts main back in the queue, and the
  scheduler is then bound to fail its own assertion
  (`Schedulers.FailsExactlyWhenReadmitted`); a run the executor can make ends there
  (`Schedulers.FailingRun`).
- The cache-line check leaves read indices and updates alone. It reports just the
  differences between runs that agree on everything in them (`CacheChecks.QueryMeans`), and
  so, unless an array is read both ways, is right about an address on every path if and
  only if whatever two runs can differ in, one of them can differ in by the bytes read
  directly alone (`CacheChecks.RightExactly`). A table indexed by a secret is missed
  (`CacheChecks.IndirectMissed`, `CacheChecks.MissedLeak`). An array read both ways can make
  it report a constant (`CacheChecks.MixedAlarm`).
- The cache-line check aborts on a `Not` (`CacheChecks.RenamesExactly`).
- The cache-line check does not ask the second run to satisfy the path condition. No
  address is falsely reported on a path if and only if the path condition does not depend
  on high arrays (`CacheChecks.AlarmsExactly`, `CacheChecks.FalseAlarm`).
- The summary statistics of the root of the call-path tree are never reset
  (`CallPaths.CallPathManager.GetSummaryStatistics`).
- `clearRegion` adds bits when the cleared region sticks out of the source
  (`Regions.ClearOne`, `Regions.ClearingAdds`).
- `diffPartitionRegion` asks in its comment only for a sorted list. A member that ends
  before coverage already reached brings covered bits back unless the next one starts at or
  before its end (`Regions.GapsExactlyWhen`, `Regions.NestedReappears`); overlapping by
  itself does no harm (`Regions.OverlapHandled`).
- A test with an empty string cannot be written, and one with an empty object is written
  but cannot be read (`KTests.RoundTripExactly`).
- The fast path of `resolve` that `klee/lib/Core/AddressSpace.cpp:194-197` describes takes its
  two queries after the one for the example value (`Resolution.Resolve`).

## Model

| member | source | states |
|---|---|---|
| Exprs.EvalOr | klee/lib/Core/ExecutionState.cpp:524 | the disjunction of two one-bit expressions is true exactly when one of them is |
| Exprs.EvalAnd | klee/lib/Core/ExecutionState.cpp:477-480 | the conjunction of two one-bit expressions is true exactly when both are |
| Solvers.Solver.MustBeTrueMeans | klee/lib/Core/TimingSolver.cpp:45-63 | on satisfiable constraints an answer to `mustBeTrue`, constants decided locally, is validity of the query |
| Solvers.Solver.MayBeTrueMeans | klee/lib/Core/TimingSolver.cpp:65-77 | `mayBeTrue`, asked as the negation of a validity query on the negated expression, is satisfiability of the query itself |
| Solvers.Solver.EvaluateMeans | klee/lib/Core/TimingSolver.cpp:25-43 | `True` and `False` answers are exactly validity and refutation of the query |
| Solvers.Solver.GetValueMeans | klee/lib/Core/TimingSolver.cpp:88-107 | an example value is one that some satisfying assignment gives |
| Solvers.Solver.AnswersDerived | klee/lib/Core/TimingSolver.cpp:25-107 | constants are answered without the solver, and every derived query is answered when the solver answers what it is derived from |
| Solvers.PerfectSolver | klee/include/klee/Solver.h:74-161 | the contract can be met by a solver that never times out, so that what is promised of such solvers is not empty |
| CopyOnWrite.RunRefinesDeepCopy | klee/lib/Core/AddressSpace.cpp:22-54 | over every run of copies, binds, unbinds and writes on any number of spaces in which no key counter wraps, ownership stays private and every space sees exactly what it would with private deep copies of all objects |
| CopyOnWrite.StepRefines | klee/lib/Core/AddressSpace.cpp:22-54 | one operation keeps the ownership invariant and acts on what the spaces see as it would on private copies |
| CopyOnWrite.CopyIsolates | klee/lib/Core/AddressSpace.h:51-56 | the invariant, with the bound on owners that the header states and keys of at least one, is kept by a copy if and only if the 32-bit key counter does not wrap; what this means for privacy is in the next rows |
| CopyOnWrite.CopyKeepsPrivate | klee/lib/Core/AddressSpace.h:48-56 | a copy keeps every owned object state private to its space if and only if no object state bound in the source carries the new key as its owner |
| CopyOnWrite.NoWrapSuffices | klee/lib/Core/AddressSpace.h:51-56 | without wrap-around no object state bound in the source carries the new key, by the bound on owners |
| CopyOnWrite.SecondCopyBreaksPrivacy | klee/lib/Core/AddressSpace.h:39-56 | with the counter at its maximum a copy keeps objects private, and the next one gives the space a key that owns a shared object |
| CopyOnWrite.GetWriteableIsolates | klee/lib/Core/AddressSpace.cpp:42-54 | the object state handed out for writing is owned by the space, bound at that object there and nowhere else in any space |
| CopyOnWrite.GetWriteableKeepsView | klee/lib/Core/AddressSpace.cpp:42-54 | asking for a writeable object state changes nothing that any space sees |
| CopyOnWrite.WriteOwned | klee/lib/Core/AddressSpace.cpp:42-54 | a write to an owned object state changes one object in one space |
| CopyOnWrite.BindIsolates | klee/lib/Core/AddressSpace.cpp:22-29 | binding an object state without an owner keeps the invariant |
| CopyOnWrite.UnbindIsolates | klee/lib/Core/AddressSpace.cpp:31-34 | unbinding keeps the invariant |
| CopyOnWrite.InitiallyIsolated | klee/lib/Core/AddressSpace.h:55 | a fresh space, with key one and no objects, satisfies the invariant |
| CopyOnWrite.WrapBreaksIsolation | klee/lib/Core/AddressSpace.h:39-56 | a write after these two copies shows in another space |
| AddressSpaces.CopySpace | klee/lib/Core/AddressSpace.h:56 | the copy and its source bind the same object states, both move to the same new key, and without wrap-around every space keeps seeing what it saw, the copy what its source saw |
| AddressSpaces.AddressSpace.BindObject | klee/lib/Core/AddressSpace.cpp:22-29 | fails exactly when the object state has an owner, and otherwise performs the bind of the state machine |
| AddressSpaces.AddressSpace.UnbindObject | klee/lib/Core/AddressSpace.cpp:31-34 | performs the unbind of the state machine |
| AddressSpaces.AddressSpace.GetWriteable | klee/lib/Core/AddressSpace.cpp:42-54 | returns the same object state when owned and a fresh copy otherwise, as in the state machine over every set of spaces |
| AddressSpaces.Replace | klee/lib/Core/AddressSpace.cpp:42-54 | a write through `getWriteable` puts the contents there in its space and, where the spaces are isolated, changes nothing else anywhere |
| ObjectStates.ReadObject | klee/lib/Core/Memory.cpp:503-528 | the loop builds the little-endian concatenation of the bytes |
| ObjectStates.WriteObject | klee/lib/Core/Memory.cpp:548-573 | the loop adds one update for every byte of the value, lowest first |
| ObjectStates.ReadExprMeans | klee/lib/Core/Memory.cpp:503-528 | a read at a symbolic offset evaluates to the bytes at the concrete offset as one number, or to the low bit for a one-bit read |
| ObjectStates.WriteExprMeans | klee/lib/Core/Memory.cpp:548-573 | a write changes the bytes of the access to those of the value and no other byte, for every assignment |
| ObjectStates.WriteThenRead | klee/lib/Core/Memory.cpp:503-573 | reading back what was written gives the value written, for every accessible width |
| Resolution.BoundsCheckMeans | klee/lib/Core/Memory.h:131-144 | the wrap-around comparison is true exactly when the address lies in the object, zero-sized ones included |
| Resolution.AccessCheckMeans | klee/lib/Core/Memory.h:134-154 | the check with a byte count is true exactly when the whole access lies in the object |
| Resolution.ResolveOneConcrete | klee/lib/Core/AddressSpace.cpp:58-75 | finds an object containing the address, and fails only when no live object does |
| Resolution.ResolveOne | klee/lib/Core/AddressSpace.cpp:77-167 | an answer is a feasible object, and failure is reported only when no live object is feasible, in spite of the early breaks; a concrete pointer, or a solver that answers, gives an object if and only if one is feasible |
| Resolution.NothingBelow | klee/lib/Core/AddressSpace.cpp:246-253 | the break on the way down loses no feasible object |
| Resolution.NothingAbove | klee/lib/Core/AddressSpace.cpp:260-266 | the break on the way up loses no feasible object |
| Resolution.OnlyHit | klee/lib/Core/AddressSpace.cpp:233-241 | when every input is inside one object, that object is the whole result: the single-hit return is complete |
| Resolution.HitsAre | klee/lib/Core/AddressSpace.cpp:219-288 | the sequence of hits has no duplicates and holds exactly the feasible live objects, wherever the search starts |
| Resolution.TryObject | klee/lib/Core/AddressSpace.cpp:225-244 | a look at one object hits exactly when it is feasible, and ends the search only for a first hit that always holds |
| Resolution.SearchBackwards | klee/lib/Core/AddressSpace.cpp:219-253 | the downward walk yields the feasible objects below the start, or a prefix of them when cut short, or the only hit |
| Resolution.SearchForwards | klee/lib/Core/AddressSpace.cpp:255-288 | the same for the upward walk |
| Resolution.Resolve | klee/lib/Core/AddressSpace.cpp:169-292 | a complete result is exactly the hits after what was on the list, an incomplete one a prefix; caps of two or more are respected, and with every query answered in time the search is incomplete only when the cap is reached; a cap of one is then respected if and only if no two objects are feasible; an object that always holds is found with exactly two queries after the first |
| Resolution.SeveralHits | klee/lib/Core/AddressSpace.cpp:219-288 | there is more than one hit exactly when two objects are feasible |
| Resolution.CapOfOneIgnored | klee/lib/Core/AddressSpace.cpp:234-243 | a pointer that may lie in either of two objects: with a cap of one both are returned |
| Resolution.ExampleFindsSingle | klee/lib/Core/AddressSpace.cpp:194-205 | an example value leads to the object that always holds, which is what makes the two-query path work |
| Paths.RunPartitions | klee/lib/Core/Executor.cpp:3397-3790 | over every run of forks and of branches with exclusive and exhaustive conditions, the leaf path conditions are pairwise disjoint, together equal to the root constraints, and the leaf weights add up to the root weight |
| Paths.RunWeights | klee/lib/Core/ExecutionState.cpp:274-293 | for every random choice of what to split, a leaf weight is the root weight halved once per level of depth |
| Paths.RunConserves | klee/lib/Core/Executor.cpp:3397-3751 | every assignment reaches as many leaves after a run as before, and total weight is unchanged |
| Paths.StepConserves | klee/lib/Core/Executor.cpp:3397-3751 | the same for one step |
| Paths.ForkConserves | klee/lib/Core/Executor.cpp:3483-3751 | a fork sends every input of the state to exactly one side, whatever the solver answers |
| Paths.SplitManyIs | klee/lib/Core/Executor.cpp:3417-3428 | splitting off randomly chosen states keeps the constraints and the sum of the weights |
| ExecutionStates.ExecutionState.AddConstraint | klee/lib/Core/Executor.cpp:3753-3790 | records a condition, drops a literally true one and fails exactly on a literally false one |
| ExecutionStates.ExecutionState.Branch | klee/lib/Core/ExecutionState.cpp:274-293 | the two halves of a state: weight halved, depth raised, same program state, address space forked in isolation |
| ExecutionStates.Fork | klee/lib/Core/Executor.cpp:3483-3751 | the two states hold the condition and its negation, or one is null as the solver answered; the address space is forked in isolation |
| ExecutionStates.SplitStates | klee/lib/Core/Executor.cpp:3417-3428 | the loop over randomly chosen states refines the splitting of leaves, and every space that was there sees what it saw |
| ExecutionStates.AddConditions | klee/lib/Core/Executor.cpp:3397-3481 | adds to each state its condition and nothing else, failing exactly when a condition is literally false |
| ExecutionStates.BranchOn | klee/lib/Core/Executor.cpp:3397-3481 | the whole branch refines the leaf-level branch, with distinct states, isolated spaces and unchanged sights |
| Switches.LowerSwitch | klee/lib/Core/Executor.cpp:4896-4983 | the generated targets are distinct and at least one, as `branch` asserts, their conditions can be added, and they choose for every input the block the switch chooses exactly where there is no clash with the default block; a solver that answers always gives targets |
| Switches.SomeTarget | klee/lib/Core/Executor.cpp:4943-4974 | when no input reaches the default, some case is kept: the list of targets is never empty |
| Switches.FaithfulIff | klee/lib/Core/Executor.cpp:4962-4974 | the conditions are exclusive, exhaustive and right for every input if and only if the default block is not both reached by default and the target of a reachable case |
| Switches.CollectedTargets | klee/lib/Core/Executor.cpp:4925-4960 | after all cases, an input that hits a case makes exactly the condition of its block true, although infeasible cases are dropped and cases sharing a block are merged |
| Switches.ClashUnfaithful | klee/lib/Core/Executor.cpp:4967-4974 | with a clash some input of the state makes no condition true, because the default condition is not merged into the existing entry |
| Switches.ClashingSwitch | klee/lib/Core/Executor.cpp:4967-4974 | a concrete switch with a clash, and an input for which no condition is true |
| Switches.SwitchPartitions | klee/lib/Core/Executor.cpp:4976-4999 | branching on the generated conditions gives one leaf per block, holding exactly the inputs that the switch sends there |
| MemoryOps.ExecuteOnErrorPath | klee/lib/Core/Executor.cpp:9207-9312 | every input reaches exactly one successor; each object successor holds exactly the inputs, of which there are some, whose whole access lies in its object; a state is left over if and only if some input misses all objects handled; it ends early only when a query was not answered or time ran out, and is otherwise the error state; with a solver that answers and enough forks there is an error state if and only if the access of some input lies in no live object, and it holds exactly these inputs |
| MemoryOps.ExecuteResolved | klee/lib/Core/Executor.cpp:9214-9285 | the loop over the objects: every successor has the right inputs, effect and registers; it times out only on a fork that the solver does not answer; where the spaces are isolated and the key counter has room, each successor sees the effect of the access and nothing else, and all other spaces see what they saw |
| MemoryOps.Advance | klee/lib/Core/Executor.cpp:9219-9284 | one round of that loop, which times out exactly when the fork is not answered |
| MemoryOps.HandleObject | klee/lib/Core/Executor.cpp:9222-9276 | one object: who gets which inputs, what the access does to the object and, under isolation, what every space sees afterwards |
| MemoryOps.ForkOnObject | klee/lib/Core/Executor.cpp:9222-9225 | what each answer of the solver says about which inputs hold and which miss the object |
| MemoryOps.ApplyAccess | klee/lib/Core/Executor.cpp:9233-9271 | a load binds its register, a store changes the object of this space and, under isolation, what no other space sees; a store to a read-only object is an error that changes nothing |
| MemoryOps.LoadMeans | klee/lib/Core/Executor.cpp:9255-9267 | for every input the object holds, the effect of a load is the bytes at the concrete offset, and memory stays as it was |
| MemoryOps.StoreMeans | klee/lib/Core/Executor.cpp:9229-9242 | for every input the object holds, the effect of a store is to change the bytes at the concrete offset and no others, or an error and no change in a read-only object |
| MemoryOps.SettledPartitions | klee/lib/Core/Executor.cpp:9219-9310 | successors and leftover partition the inputs, whether the loop ended early or not |
| MemoryOps.SettledByObject | klee/lib/Core/Executor.cpp:9224-9228 | since live objects do not overlap, being the first holder is being the holder |
| MemoryOps.MissesAll | klee/lib/Core/Executor.cpp:9287-9310 | inputs that miss a complete list miss every live object |
| MemoryOps.NoneMissesAll | klee/lib/Core/Executor.cpp:9287-9310 | some input misses a complete list if and only if its access lies in no live object |
| MemoryOps.LeftOver | klee/lib/Core/Executor.cpp:9287-9310 | whatever state is left over has an input that misses all objects handled |
| Merging.Merge | klee/lib/Core/ExecutionState.cpp:368-527 | refuses exactly on differing program counters, symbolics, frames or live objects, changing nothing; aborts exactly when an object the two disagree on is read-only in A; otherwise the merged constraints hold of an input if and only if A or B did, every register set in both and every byte evaluates to the value in A where the constraints of A held and to that in B where only those of B did, and no other space sees a change |
| Merging.MergeConstraints | klee/lib/Core/ExecutionState.cpp:397-524 | the common constraints with the disjunction of the two suffixes hold exactly where one of the two sets did, and the first suffix alone tells A from B |
| Merging.Conjunction | klee/lib/Core/ExecutionState.cpp:473-480 | the conjunction is true exactly where all constraints of the set are, in whatever order they are visited |
| Merging.CompareObjects | klee/lib/Core/ExecutionState.cpp:441-469 | the lockstep walk over two address-ordered maps fails exactly when the sets of live objects differ, and otherwise finds exactly the objects bound to different states |
| Merging.StacksMatch | klee/lib/Core/ExecutionState.cpp:382-395 | true exactly when both stacks have the same callers and functions |
| Merging.MergeStacks | klee/lib/Core/ExecutionState.cpp:486-501 | every register null on either side stays as it was, every other becomes a selection |
| Merging.MergeObject | klee/lib/Core/ExecutionState.cpp:503-519 | the byte loop through the writeable copy changes what one space sees at one object and nothing else |
| Merging.MergedStoreMeans | klee/lib/Core/ExecutionState.cpp:514-518 | byte for byte the merged object is the one or the other store, as the suffix of A decides |
| Merging.SelectMerges | klee/lib/Core/ExecutionState.cpp:471-484 | under the constraints of B, which share the common ones, the suffix of A alone decides whether those of A hold |
| Schedulers.RunSafe | klee/lib/Core/ExecutionState.cpp:653-695 | in every state of every run the queue has no repeats and holds each started, unterminated thread exactly once and no terminated one, and the started counts add up to the number of threads |
| Schedulers.StepSafe | klee/lib/Core/ExecutionState.cpp:1078-1156 | every event keeps that invariant |
| Schedulers.InitiallySafe | klee/lib/Core/ExecutionState.cpp:139-144 | the initial scheduler satisfies it |
| Schedulers.ChoiceSafe | klee/lib/Core/ExecutionState.cpp:1097-1144 | a scheduling call never chooses a terminated thread, and lets a waiting main go only when all threads are terminated and all initiated instances were started |
| Schedulers.KeepsRunning | klee/lib/Core/ExecutionState.cpp:1098-1105 | whoever is chosen is chosen again, with nothing changed, until it is made preemptable |
| Schedulers.PreemptableMayLeave | klee/lib/Core/ExecutionState.cpp:1146-1156 | made preemptable, the running thread may be left, and whether any other thread may is unchanged |
| Schedulers.InitiationOwes | klee/lib/Core/ExecutionState.cpp:1078-1094 | an initiation owes one more instance of its function and of no other |
| Schedulers.StartPays | klee/lib/Core/ExecutionState.cpp:1107-1121 | a start pays one owed instance of the first function in name order that has any, and adds one thread |
| Schedulers.BoundedWaiting | klee/lib/Core/ExecutionState.cpp:1097-1144 | with no further initiations an unterminated thread at queue position p is chosen within pending starts + p + 1 scheduling calls that get past the two checks, whatever the others do |
| Schedulers.StepRank | klee/lib/Core/ExecutionState.cpp:1097-1144 | every such call that does not choose the thread brings its turn one nearer, and no other event puts it off |
| Schedulers.FailsExactlyWhenReadmitted | klee/lib/Core/ExecutionState.cpp:1112-1134 | the assertion that main is not scheduled while waiting fails only after an instance was started on an empty queue while waiting, and then only boundedly many further calls can pass before it does |
| Schedulers.ReadmittedExactly | klee/lib/Core/ExecutionState.cpp:1112-1114 | while waiting, main is in the queue exactly when such a start happened since waiting was last switched on |
| Schedulers.ChosenExecutes | klee/lib/Core/Executor.cpp:6620-6650 | after a scheduling call the chosen thread is the running one, and an instruction is executed unless main is chosen while it waits |
| Schedulers.FailingRun | klee/lib/Core/ExecutionState.cpp:1112-1134 | a run that the executor can make, in every turn a scheduling call and one action of the running thread, ends in the failed assertion |
| Schedulers.Scheduler.ScheduleAsync | klee/lib/Core/ExecutionState.cpp:1097-1144 | refines the specified scheduling step in every branch |
| Schedulers.Scheduler.DispatchNext | klee/lib/Core/ExecutionState.cpp:1122-1143 | refines taking the front of the queue, with re-queueing and the abort |
| Schedulers.Scheduler.InitiateAsync | klee/lib/Core/ExecutionState.cpp:1078-1094 | adds an entry with count one in name order or raises the count, and returns the count |
| Schedulers.Scheduler.TerminateThread | klee/lib/Core/ExecutionState.cpp:653-664 | marks the thread terminated and preemptable and takes it out of the queue |
| Schedulers.Scheduler.SetWaiting | klee/lib/Core/ExecutionState.cpp:678-695 | takes main out of the queue and keeps the order of the rest |
| Schedulers.Scheduler.SetPreemptable | klee/lib/Core/ExecutionState.cpp:1146-1156 | sets the flag of main or of an existing thread, and reports any other number |
| Schedulers.Scheduler.ActiveThreads | klee/lib/Core/ExecutionState.cpp:667-672 | true exactly when some thread is not terminated |
| CacheChecks.QueryMeans | klee/lib/Core/Executor.cpp:5712-5738 | unless a high array is read both directly and in an index or update, the query is satisfiable with the path condition if and only if some run satisfying it and some run that agrees with that one off the high arrays, and on everything in indices and updates, address different lines |
| CacheChecks.RightExactly | klee/lib/Core/Executor.cpp:5712-5738 | unless a high array is read both directly and in an index or update, the check is right about an address on every path if and only if whatever two runs can differ in, one of them can differ in by the bytes read directly alone |
| CacheChecks.Transfers | klee/lib/Core/AnalyzeConstraint.cpp:639-680 | a directly read difference carries over to any run that looks at the same bytes in the same places |
| CacheChecks.QueryDecides | klee/lib/Core/Executor.cpp:5712-5738 | for an address with no high array in indices or updates the query is satisfiable with the path condition if and only if some run satisfying it and some run agreeing with that one off the high arrays address different lines |
| CacheChecks.CheckAddress | klee/lib/Core/Executor.cpp:5712-5740 | in an enclave, for an address with a high region, a leak is reported if and only if the query can be satisfied, which is one of these two-run properties, in line and in bit-mask mode, with both runs satisfying the path condition when it mentions no high array; with a solver that answers it aborts exactly on addresses that cannot be renamed, and elsewhere nothing is checked |
| CacheChecks.AlarmsExactly | klee/lib/Core/Executor.cpp:5712-5741 | for every path condition: no address at all is falsely reported on the path if and only if the path condition does not depend on high arrays |
| CacheChecks.CleanPathIndependent | klee/lib/Core/Executor.cpp:5738-5741 | a path condition that mentions no high array does not depend on any |
| CacheChecks.TelltaleAlarm | klee/lib/Core/Executor.cpp:5738-5741 | when changing high bytes leaves the path, an address is reported on which no two runs of the path differ |
| CacheChecks.RenameMeans | klee/lib/Core/AnalyzeConstraint.cpp:639-680 | the substitution lemma over all expressions: evaluating the renamed copy is evaluating the original with the renamed bytes put in |
| CacheChecks.EvalAgrees | klee/lib/Core/AnalyzeConstraint.cpp:650-658 | an expression depends only on the arrays that occur in it, update chains and indices included |
| CacheChecks.SubstitutesExactly | klee/lib/Core/AnalyzeConstraint.cpp:650-658 | renaming equals substitution everywhere if and only if no read index and no update mentions a high array |
| CacheChecks.RenamesExactly | klee/lib/Core/AnalyzeConstraint.cpp:639-680 | renaming succeeds exactly when there is no `Not` and no constant wider than 64 bits outside reads |
| CacheChecks.DifferentLinesMeans | klee/lib/Core/Executor.cpp:5721-5737 | the query is true exactly when the two addresses fall in different lines, for both modes and all shift amounts |
| CacheChecks.LineIsBlock | klee/lib/Core/Executor.cpp:5721-5728 | two addresses are in one line exactly when one aligned block of the line size holds both |
| CacheChecks.JoinedMeans | klee/lib/Core/AnalyzeConstraint.cpp:354-361 | two runs that agree off the high arrays can be put into one assignment by means of the fresh names |
| CacheChecks.RenamingsApart | klee/lib/Core/AnalyzeConstraint.cpp:688-691 | names made under different numbers of the counter never coincide |
| CacheChecks.IndirectMissed | klee/lib/Core/AnalyzeConstraint.cpp:650-658 | for an address that reads high arrays in indices and updates only the query has no solution, on any path |
| CacheChecks.ReportIsDistinguishable | klee/lib/Core/AnalyzeConstraint.cpp:639-680 | every solution of the query is such a pair of runs, made-up names new or not, unless one array is read both ways |
| CacheChecks.MixedAlarm | klee/lib/Core/AnalyzeConstraint.cpp:650-658 | a secret byte compared with a copy of itself read through an update: the address is constant and reported |
| CacheChecks.MissedLeak | klee/lib/Core/AnalyzeConstraint.cpp:650-658 | a table indexed by a secret: no assignment satisfies the query, yet two runs address different lines |
| CacheChecks.FalseAlarm | klee/lib/Core/Executor.cpp:5738-5741 | a concrete path condition that fixes an address which is reported all the same |
| CallPaths.AlwaysSound | klee/lib/Core/CallPathManager.cpp:76-103 | for every sequence of calls parents precede children, no chain repeats a call, no node has two children for one call, and earlier nodes stay |
| CallPaths.ReachCuts | klee/lib/Core/CallPathManager.cpp:76-103 | the node reached by a call has the chain of its parent cut back to the earlier occurrence of the call, or extended by it |
| CallPaths.PushCuts | klee/lib/Core/CallPathManager.cpp:88-103 | the node a whole call stack leads to is the stack with every recursion cut out, whatever the tree held before |
| CallPaths.ChainInjective | klee/lib/Core/CallPathManager.cpp:88-103 | nodes with the same chain are the same node |
| CallPaths.DepthBounded | klee/lib/Core/CallPathManager.cpp:76-86 | a chain is no longer than the number of distinct calls |
| CallPaths.CacheGrows | klee/lib/Core/CallPathManager.cpp:88-103 | looking only at the cached children before walking up gives what the walk and a search of all children would |
| CallPaths.CallPathManager.FindAbove | klee/lib/Core/CallPathManager.cpp:79-81 | the loop over the parents finds the nearest ancestor-or-self with the key, if there is one |
| CallPaths.CallPathManager.ComputeCallPath | klee/lib/Core/CallPathManager.cpp:76-86 | returns that ancestor or appends a new node |
| CallPaths.CallPathManager.GetCallPath | klee/lib/Core/CallPathManager.cpp:88-103 | refines the walk and keeps the tree and the cache sound; a null parent stands for the root |
| CallPaths.CallPathManager.GetSummaryStatistics | klee/lib/Core/CallPathManager.cpp:56-73 | after the single reverse pass every node has the sum over itself and its descendants, every call has the sum over all nodes at or below it, each once, and the root has accumulated the grand total onto its old value |
| CallPaths.KeyTotalsExact | klee/lib/Core/CallPathManager.cpp:64-73 | adding up the totals of the nodes of one call counts no node twice, recursion or not |
| CallPaths.HitOnce | klee/lib/Core/CallPathManager.cpp:76-86 | on the way from a node to the root a call occurs at most once |
| CallPaths.TotalUnfolds | klee/lib/Core/CallPathManager.cpp:67-68 | the sum over all descendants is the own statistics and the totals of the children |
| CallPaths.PartialIsTotal | klee/lib/Core/CallPathManager.cpp:65-68 | when the pass comes to a node its summary is already complete |
| Vectors.InsertElement | klee/lib/Core/Executor.cpp:6183-6221 | for every width and count the result has the new element in its lane and the old elements elsewhere; symbolic and out-of-range indices are reported |
| Vectors.ExtractElement | klee/lib/Core/Executor.cpp:6222-6251 | yields the lane of the index, reporting symbolic and out-of-range indices |
| Vectors.InsertElementThread | klee/lib/Core/ExecutorAsync.cpp:1770-1811 | the same in the reversed layout |
| Vectors.ExtractElementThread | klee/lib/Core/ExecutorAsync.cpp:1812-1843 | the same in the reversed layout |
| Vectors.IndexOf | klee/lib/Core/Executor.cpp:6189-6212 | the lane taken is the value of the index |
| Vectors.InsertThenExtract | klee/lib/Core/Executor.cpp:6183-6251 | extracting j after inserting at i gives the new element when they are equal and the old element otherwise, in both executors |
| Vectors.InsertsMirror | klee/lib/Core/ExecutorAsync.cpp:1770-1843 | inserting the same element at the same index keeps mirrored vectors mirrored: the executors are mirror images |
| Vectors.InsertBack | klee/lib/Core/Executor.cpp:6183-6221 | putting back the element that is there leaves the vector as it was |
| Vectors.InsertedOnce | klee/lib/Core/Executor.cpp:6183-6221 | the lanes fix the value of the result |
| Vectors.AssembledLane | klee/lib/Expr/Expr.cpp:612-621 | in an n-ary concatenation the last part is the least significant lane |
| Vectors.CreateN | klee/lib/Expr/Expr.cpp:612-621 | the loop from the right builds that concatenation |
| Varargs.SizeVarargs | klee/lib/Core/Executor.cpp:4103-4142 | the sizing loop computes the end of the layout and sixteen-byte alignment exactly when a 64-bit target has an argument wider than 64 bits |
| Varargs.WriteVarargs | klee/lib/Core/Executor.cpp:4157-4184 | the writing loop ends where the sizing loop did, and afterwards every argument reads back from its place with its value |
| Varargs.NoOverlap | klee/lib/Core/Executor.cpp:4157-4184 | arguments do not overlap and stay inside the object |
| Varargs.AbiPlacement | klee/lib/Core/Executor.cpp:4116-4136 | on a 64-bit target every argument is at the first multiple of its alignment, sixteen for those wider than eight bytes and otherwise eight, at or after the last byte of the argument before it |
| Varargs.PackedPlacement | klee/lib/Core/Executor.cpp:4115-4116 | on a 32-bit target every argument follows the last byte of the one before it at once |
| Varargs.SizeIs | klee/lib/Core/Executor.cpp:4133-4142 | the object ends with the bytes of the last argument, on 64-bit targets at the next multiple of eight |
| Varargs.RoomEnds | klee/lib/Core/Executor.cpp:4133-4136 | what is set aside for an argument ends with its bytes or, on 64-bit targets, at the next multiple of eight |
| Varargs.HoldsNext | klee/lib/Core/ExecutorAsync.cpp:705-724 | writing the next argument keeps all earlier ones readable |
| Regions.MergeAndCoalesce | klee/lib/Core/AnalyzeConstraint.cpp:164-186 | the result covers exactly the union of the two lists, after what the target list held |
| Regions.MergeOne | klee/lib/Core/AnalyzeConstraint.cpp:149-162 | adding one region covers exactly the union: every region it can be coalesced with becomes their union, every other stays, and it is added itself only when there is none |
| Regions.Coalesce | klee/lib/Core/AnalyzeConstraint.cpp:136-147 | yields the union as one region whenever it yields one |
| Regions.CoalescesExactly | klee/lib/Core/AnalyzeConstraint.cpp:129-134 | two regions are coalesced if and only if a single region has exactly their bits |
| Regions.Intersect | klee/lib/Core/AnalyzeConstraint.cpp:67-79 | succeeds exactly when the regions share a bit, with exactly the shared bits |
| Regions.IntersectAll | klee/lib/Core/AnalyzeConstraint.cpp:81-91 | collects exactly the bits of the region that the list covers |
| Regions.ShiftLeft | klee/lib/Core/AnalyzeConstraint.cpp:94-102 | moves every bit up and drops those at the width or above |
| Regions.ShiftRight | klee/lib/Core/AnalyzeConstraint.cpp:110-121 | moves every bit down and drops those below zero |
| Regions.ClearOne | klee/lib/Core/Executor.cpp:1985-2027 | leaves the set difference if and only if every source region that the cleared one overlaps contains it; then disjointness is kept |
| Regions.ClearFrom | klee/lib/Core/Executor.cpp:1987-2025 | one source region: the bits of exactly one of the two where they overlap, in disjoint pieces |
| Regions.ClearingAdds | klee/lib/Core/Executor.cpp:1985-2027 | clearing the bits 0 to 3 from the bits 2 to 5 leaves the bits 0 and 1, which the source did not have |
| Regions.ClearAll | klee/lib/Core/Executor.cpp:2029-2040 | clearing a disjoint list, each member inside one source region or apart from all, leaves exactly the set difference, still disjoint |
| Regions.DiffPartition | klee/lib/Core/Executor.cpp:1124-1150 | the loop computes the specified gaps with the end of the uncovered part constant throughout |
| Regions.GapsExact | klee/lib/Core/Executor.cpp:1124-1150 | for a sorted disjoint list of regions that meet the given one, the gaps are sorted, disjoint and cover exactly its uncovered bits |
| Regions.GapsExactlyWhen | klee/lib/Core/Executor.cpp:1123-1150 | for a list sorted by offset whose members meet the region, as the comment asks, the gaps are exactly the uncovered bits if and only if every member the loop comes to ends at or past all earlier ends or is followed by one that starts at or before its end |
| Regions.GapsComplete | klee/lib/Core/Executor.cpp:1124-1150 | no uncovered bit is ever lost, whatever the list |
| Regions.RelapseReappears | klee/lib/Core/Executor.cpp:1124-1150 | after a member that breaks this condition the bit at its end is returned although it is covered |
| Regions.NestedReappears | klee/lib/Core/Executor.cpp:1123-1150 | two nested members: a covered bit is returned as uncovered |
| Regions.OverlapHandled | klee/lib/Core/Executor.cpp:1123-1150 | two members that overlap and are handled right |
| Regions.RangesMeet | klee/lib/Core/Executor.cpp:2188-2192 | the range test is true exactly when the ranges share a bit |
| KTests.RoundTripExactly | klee/lib/Basic/KTest.cpp:93-264 | a test comes back from its file, with version 3 and every byte consumed, if and only if none of its strings and objects is empty |
| KTests.TruncatedFails | klee/lib/Basic/KTest.cpp:93-162 | no strict prefix of such a file can be read |
| KTests.WrittenFile | klee/lib/Basic/KTest.cpp:93-264 | what the reader makes of any file the writer produces; skipped empty objects make it unreadable, since they are still counted |
| KTests.VersionedFile | klee/lib/Basic/KTest.cpp:71-162 | what the reader makes of files of every version under both magic numbers: the two numbers of version 2 are read from then on and zero before, and versions after the current one are refused |
| KTests.NumberRoundTrip | klee/lib/Basic/KTest.cpp:24-39 | four big-endian bytes give back every 32-bit number |
| KTests.BigEndian | klee/lib/Basic/KTest.cpp:24-39 | numbers are written and read with the most significant byte first |
| KTests.FileHeader | klee/lib/Basic/KTest.cpp:199-215 | a written file starts with the new magic number and version 3, most significant byte first |
| KTests.TextReads | klee/lib/Basic/KTest.cpp:41-63 | a written string reads back unless it is empty |
| KTests.FileStable | klee/lib/Basic/KTest.cpp:93-162 | what is read from a prefix of a file is read the same from the whole file, and ends inside the prefix |
| KTests.FromFile | klee/lib/Basic/KTest.cpp:93-162 | the reader refines the specified parsing in every branch, older versions and both magic numbers included |
| KTests.ToFile | klee/lib/Basic/KTest.cpp:199-264 | succeeds exactly when every string to be written is non-empty, and then the file is the specified one |
| KTests.CheckHeader | klee/lib/Basic/KTest.cpp:71-79 | accepts exactly the two magic numbers |
| KTests.ReadUint32 | klee/lib/Basic/KTest.cpp:24-30 | refines reading a number, failing exactly at the end of the file |
| KTests.WriteUint32 | klee/lib/Basic/KTest.cpp:32-39 | appends the four bytes |
| KTests.ReadString | klee/lib/Basic/KTest.cpp:41-52 | refines reading a string |
| KTests.WriteString | klee/lib/Basic/KTest.cpp:54-63 | appends length and bytes, and fails exactly on the empty string |

## Left out

- LLVM types, instruction decoding, floating point, calls into external code and concrete copies of memory: foreign code.
- Canonicalisation by `Expr::create` and rewriting by `ConstraintManager`: expressions are the trees as written and constraint sets are lists; both keep values.
- Solver internals and caches: the solver is an oracle with the contract of `klee/include/klee/Solver.h:74-161`.
- The byte caches of an object state, constant arrays and big-endian targets: they hold the same bytes, or are not used.
- The balanced tree behind a memory map: it is a Dafny map, and where order matters the sequence its iteration yields.
- Seeds, replay, fork and depth limits, the process tree, implied value concretisation, preferred resolution and lazy initialisation: they only add side conditions.
- A state that duplicates a path at a timing observation, and the timing, MaxSMT and projection heuristics: they promise no property of this kind.
- Forking of scheduler state, and the stacks and program counters of threads: the copy constructor does not copy pending starts.
- `regionsIntersect`, `diffRegion` and the information-flow updates that use them: disabled code.
- Statistics records with many counters: one counter stands for all, and counters do not overflow.
- MemoryOps.ExecuteOnErrorPath: once the 32-bit key counter wraps, and isolation with it, what the spaces see afterwards is not promised; which inputs go where, and the registers, are.
- MemoryOps.ExecuteResolved: the same, for the loop alone.
- CacheChecks.CheckAddress: whether an address has a high region, the answer of `exprHasSymRegion`, is a parameter.
- Merging.Merge: constraint sets are visited in an arbitrary order instead of the structural order of expressions; merging a state with itself is not covered.
- Resolution.ResolveOne: live objects are disjoint, none runs past the end of memory, and no empty object lies inside another; the allocator sees to that.
- CacheChecks.QueryMeans: needs the made-up names to occur nowhere else, which the program does not check.
- Regions.MergeAndCoalesce: offsets and sizes are unbounded integers, so that ends of regions beyond the range of an `int` are not covered.
- Varargs.WriteVarargs: the object is smaller than four gigabytes and every argument is one bit or whole bytes wide; offsets are 32-bit numbers that then do not wrap.
- Vectors.InsertElement: a vector is narrower than two to the 32 bits, as expression widths are 32-bit numbers.
- Schedulers.BoundedWaiting: assumes, as the code allows, that waiting is only ever switched on and threads are made preemptable from outside, never the reverse.
- KTests.RoundTripExactly: strings are sequences of bytes, while the original's end at their first zero byte; it is about the original for names and arguments without one.
- KTests.FromFile: memory for what is read is available, and `calloc` of nothing succeeds.
