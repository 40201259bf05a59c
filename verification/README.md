# Verified models of the graph partitioner, the arena planner and the runtime protocols around them

The repository is a Flutter plugin that drives TensorFlow Lite; the logic with something to prove is in
the TensorFlow sources it carries.  This project models the hard parts of that logic in Dafny and proves
what they are for.  `dafny verify dfyconfig.toml` checks all of it.

**Graph partitioner** (`Ordering`, `Schedules`, `GraphInfo`, `PartitionState`, `Partitioner`,
`PartitionResult`, `GraphSemantics`).  The class `PartitionImpl` is the code: epochs, tensor epochs,
control-edge counters and node subsets updated in place by nested fixpoint loops.  Its contract ties the
state to a schedule of the dependency graph.  `Schedules` proves what such schedules are worth
(completeness exactly for acyclic dependencies, optimality of greedy clustering), `PartitionResult` says
in terms of the graph alone what the returned subsets list and when they begin and end, and
`GraphSemantics` gives nodes a meaning and proves that running the subsets in order, whole or as black
boxes behind their interfaces, is running the plan.  A node is any function from input values to output
values; a side-effecting node also reads and changes an outside world and leaves an entry in a trace.

**Arena planner** (`ArenaGraph`, `SimpleMemoryArena`, `ArenaPlanner`, `PlannedMemory`, `InPlaceSafety`).
`ArenaGraph` says what reference counts, aliases and intervals of use are meant to be; the class
`Planner` computes them as the code does and never fails an internal check; the class `Arena` places
buffers, those in use all the time at the beginning (`LifelongBelow`). `PlannedMemory` executes a graph
in the planned arenas and with one private buffer per tensor; nodes may also update variables. Every
access goes through a pointer into an arena if and only if no persistent tensor shares a read-write root
(`MemoryIffBacked`). The two executions then agree on all reads, for all kernels, if and only if no
tensor is read after a node has changed its buffer through another tensor, and on all graph outputs and
variables if and only if no such read can influence one. The planner does not ensure either condition.
It checks reference counts of the input and of the root only: `InPlaceCanBeUnsafe` is a graph whose
output comes out wrong. It lets a persistent output take a read-write buffer, which resolution then does
not find: `MemoryCanBeMissing` is a graph that reads and writes through a null pointer.
`SingleReadersRefine` gives sufficient conditions on the graph.

**Concurrency protocols** (`VariableLocks`, `GoSession`, `GraphLifetime`, `SessionExtension`), as steps of
any number of threads over every interleaving: ordered locking of variables and the references that keep
their mutexes alive (which a shared lock can outlive, `SharedLockCanDangle`), `Run` and `Close` on a Go
session, the lifetime of a C graph under its sessions, and sending new nodes to sessions.

**Round trips** (`GoTensor`, `ShapeList`): nested Go values to tensors and back, lists of shapes to
operation attributes and back.  `Common` holds the few notions that several modules share.

Code and documentation disagree in four places, and the model follows the code.  The planner's comment asks
for a single reference to the shared input, but a tensor between root and input can have more
(`InPlaceCanBeUnsafe`).  It also asks for tensors within the same arena, but a read-write input may be
shared with an output of any type (`MemoryCanBeMissing`).  `graph_info.h` promises plan order for the
non-greedy mode and calls control edges irrelevant there, but an edge against the plan is honoured
(`BackwardEdgeBreaksPlanOrder`).  `decodeTensor` says that only the final part of a shape can be zero when
there is no data, but `NewTensor` produces shapes such as 2, 0, 0 (`EmptyRowsAreLost`).

## Model

| member | source | states |
|---|---|---|
| Ordering.Uniquefy | tflite_c/include/tensorflow/lite/graph_info.cc:27-30 | the result is sorted without repetitions and has exactly the elements of the input |
| Ordering.LowerBound | tflite_c/include/tensorflow/lite/graph_info.cc:199-201 | binary search: everything before the position is below the key, everything from it on is not |
| Partitioner.PartitionImpl.constructor | tflite_c/include/tensorflow/lite/graph_info.cc:45-61 | the control edges kept are the given ones, sorted and unique, and so the dependency graph is the given one |
| Partitioner.CountIncoming | tflite_c/include/tensorflow/lite/graph_info.cc:71-75 | the initial counters are the numbers of unscheduled predecessors when nothing is scheduled |
| Partitioner.InitialTensorEpochs | tflite_c/include/tensorflow/lite/graph_info.cc:67-86 | exactly the computed tensors start out not ready |
| Partitioner.InputsReady | tflite_c/include/tensorflow/lite/graph_info.cc:146-151 | true exactly if every non-optional input has an epoch or needs none |
| Partitioner.AssignOutputs | tflite_c/include/tensorflow/lite/graph_info.cc:173-176 | the outputs of the node, and no other tensors, move to the current epoch |
| Partitioner.RecordInputs | tflite_c/include/tensorflow/lite/graph_info.cc:179-195 | each input from outside joins the inputs of the current subset and the outputs of the subset that produced it, and nothing else joins anything |
| Partitioner.ReleaseSuccessors | tflite_c/include/tensorflow/lite/graph_info.cc:199-205 | the binary search finds every successor: each waits for one node less, nobody else changes |
| PartitionState.ReadinessIsDecided | tflite_c/include/tensorflow/lite/graph_info.cc:140-156 | in every consistent state the three tests of the code (epoch, input tensors, counter) succeed together if and only if the node is unscheduled and all its data and control predecessors are scheduled |
| PartitionState.ScheduleOne | tflite_c/include/tensorflow/lite/graph_info.cc:168-205 | scheduling one runnable node keeps the whole state consistent: epochs of nodes and tensors, counters equal to unscheduled predecessors, exact interfaces so far |
| PartitionState.OpenEpoch | tflite_c/include/tensorflow/lite/graph_info.cc:214 | opening an epoch keeps the state consistent |
| PartitionState.DropEpoch | tflite_c/include/tensorflow/lite/graph_info.cc:93-96 | dropping an epoch that stayed empty keeps the state consistent |
| Partitioner.PartitionImpl.UpdateNode | tflite_c/include/tensorflow/lite/graph_info.cc:135-210 | takes the node if and only if it may join the current epoch (fusion allowed, unscheduled, all predecessors scheduled, same type), and then appends exactly it |
| Partitioner.PartitionImpl.AssignToEpoch | tflite_c/include/tensorflow/lite/graph_info.cc:168-206 | the schedule grows by this node and every vector agrees with the longer schedule |
| Partitioner.PartitionImpl.BuildNodeSubset | tflite_c/include/tensorflow/lite/graph_info.cc:213-230 | the new epoch is a fixpoint (greedy), a maximal run of the plan (non-greedy), or a single node (fusion disabled), and opens with the first ready node; the nested loops terminate |
| Partitioner.PartitionImpl.Traverse | tflite_c/include/tensorflow/lite/graph_info.cc:91-97 | the traversal terminates with a valid schedule after which nothing can run any more |
| Partitioner.MarkOutputs | tflite_c/include/tensorflow/lite/graph_info.cc:101-109 | graph outputs join the outputs of the subset that produces them; those no node produces are skipped |
| Partitioner.UniquefyAll | tflite_c/include/tensorflow/lite/graph_info.cc:113-117 | every interface list becomes strictly sorted with the same members |
| Partitioner.PartitionImpl.Partition | tflite_c/include/tensorflow/lite/graph_info.cc:64-118 | the result is a partitioning: a complete valid schedule in nonempty subsets of one type with exact, strictly sorted interfaces, greedy, maximal-run or one-node as configured |
| Partitioner.SideEffectChain | tflite_c/include/tensorflow/lite/graph_info.cc:276-288 | the default edges are exactly those from each side-effecting node to the next one |
| Partitioner.PartitionGraphIntoIndependentNodeSubsets | tflite_c/include/tensorflow/lite/graph_info.cc:269-295 | for the given or default control edges, provided data and control dependencies together have no cycle, the result is a partitioning, in which exactly the nodes to partition are in subsets of the type for the delegate |
| Partitioner.ResultTypes | tflite_c/include/tensorflow/lite/graph_info.cc:54-59 | the type of a returned subset says of each of its nodes whether it is to be partitioned |
| PartitionResult.ResultInterfaces | tflite_c/include/tensorflow/lite/graph_info.h:85-92 | the inputs of a returned subset are the tensors its nodes take and do not give out, its outputs those given out that are graph outputs or taken by another subset; both ascend |
| PartitionResult.ResultListsPlan | tflite_c/include/tensorflow/lite/graph_info.cc:88-97 | the returned subsets list exactly the nodes of the plan, each once; none is empty, and without fusion each lists one node |
| PartitionResult.WaitsIff | tflite_c/include/tensorflow/lite/graph_info.cc:272-288 | the dependencies in force are the data dependencies with the edges given, or, greedily and without edges, with those from each side-effecting node to the next |
| PartitionResult.ResultKeepsDependencies | tflite_c/include/tensorflow/lite/graph_info.h:102-105 | every node is listed after all nodes it waits for, within its subset and across subsets |
| PartitionResult.ResultOpensWithFirstReady | tflite_c/include/tensorflow/lite/graph_info.cc:157-163 | a returned subset opens with the first node of the plan that is ready after the subsets before it |
| PartitionResult.ResultLeavesNone | tflite_c/include/tensorflow/lite/graph_info.h:109-113 | greedily, when a returned subset ends no node of its type is ready |
| Partitioner.EveryNodeOnce | tflite_c/include/tensorflow/lite/graph_info.cc:88-97 | running the subsets in order runs every node of the plan exactly once |
| Partitioner.DependenciesRespected | tflite_c/include/tensorflow/lite/graph_info.cc:152-156 | in that order every producer precedes its readers and every control edge is respected |
| GraphInfo.PlanOrderIsAcyclic | tflite_c/include/tensorflow/lite/graph_info.h:104-105 | a plan in dependency order with forward edges has no cyclic dependencies |
| Schedules.CompleteIffAcyclic | tflite_c/include/tensorflow/lite/graph_info.cc:256-258 | a traversal that has come to its end has scheduled every node if and only if the dependencies are acyclic |
| Schedules.ConsecutiveTypesDiffer | tflite_c/include/tensorflow/lite/graph_info.cc:213-230 | greedy epochs that follow each other differ in type |
| Schedules.GreedyStaysAhead | tflite_c/include/tensorflow/lite/graph_info.cc:247-251 | after as many epochs as a valid schedule that starts with the same type has batches, the greedy schedule has run everything that schedule has run; one epoch fewer does if the last types differ |
| Schedules.GreedyIsOptimal | tflite_c/include/tensorflow/lite/interpreter_options.h:75-77 | no valid schedule in single-type batches that starts with the same type has fewer batches, and no valid schedule at all has more than one fewer |
| Schedules.OneBatchCanBeSaved | tflite_c/include/tensorflow/lite/graph_info.cc:159-163 | the bound is tight: a graph on which opening with the first ready node costs one batch more than necessary |
| Schedules.RunsKeepPlanOrder | tflite_c/include/tensorflow/lite/graph_info.h:115-116 | consecutive maximal runs flatten to the plan |
| Schedules.PlanOrderIsForward | tflite_c/include/tensorflow/lite/graph_info.h:118-122 | conversely, a valid schedule in plan order has forward dependencies only |
| Schedules.UnfusedKeepsPlanOrder | tflite_c/include/tensorflow/lite/graph_info.cc:138 | with fusion disabled the schedule is the plan itself, node by node |
| Schedules.RunsAlternate | tflite_c/include/tensorflow/lite/graph_info.h:115-116 | non-greedy subsets that follow each other differ in type |
| Partitioner.ResultIsOptimal | tflite_c/include/tensorflow/lite/interpreter_options.h:75-77 | the subsets returned in greedy mode are as few as in any dependency-respecting schedule in single-type batches that starts with the same type, and at most one more than in any at all |
| Partitioner.ResultAlternates | tflite_c/include/tensorflow/lite/graph_info.cc:213-230 | subsets returned next to each other differ in type in both modes, unless fusion is disabled or, non-greedily, explicit control edges point backwards |
| Partitioner.ResultKeepsPlanOrder | tflite_c/include/tensorflow/lite/graph_info.h:115-116 | the subsets returned without greediness, or without fusion, list the nodes in plan order if and only if every data dependency and every control edge in force points forward |
| Partitioner.BackwardEdgeBreaksPlanOrder | tflite_c/include/tensorflow/lite/graph_info.h:115-124 | the order promised for the non-greedy mode is lost on three nodes with one acyclic control edge against the plan |
| GraphSemantics.FinalValue | tflite_c/include/tensorflow/lite/graph_info.h:102-105 | in the plan, the final value of a produced tensor is what its producer makes of the final values of its inputs |
| GraphSemantics.PlanEffects | tflite_c/include/tensorflow/lite/graph_info.cc:277-287 | the plan leaves one trace entry per side-effecting node, in plan order and with the final values of its inputs, and the world as these nodes make it on those values |
| GraphSemantics.OrderPreservesMeaning | tflite_c/include/tensorflow/lite/graph_info.cc:274-288 | every complete order that respects the dependencies and keeps the side effects in turn yields the same tensors, the same outside world and the same trace of side effects as the plan |
| GraphSemantics.PartitioningKeepsTurns | tflite_c/include/tensorflow/lite/graph_info.cc:277-287 | in every mode without explicit control edges the schedule performs the side effects in plan order |
| GraphSemantics.PartitioningPreservesMeaning | tflite_c/include/tensorflow/lite/graph_info.cc:135-230 | running the subsets in order equals running the plan, for all kernels, all inputs and every mode: tensor values, outside world and side-effect trace |
| GraphSemantics.InputsComeFromEarlier | tflite_c/include/tensorflow/lite/graph_info.h:85-87 | each subset input is produced by no node or is an output of a strictly earlier subset |
| GraphSemantics.SubsetsAreBlackBoxes | tflite_c/include/tensorflow/lite/graph_info.h:85-92 | running each subset with only its input tensors visible, junk elsewhere, and exporting only its output tensors gives the same graph outputs, world and trace as the plan |
| GraphSemantics.ResultMeansThePlan | tflite_c/include/tensorflow/lite/graph_info.cc:269-295 | whatever is returned without explicit control edges, in any mode, means the plan: run subset by subset, and run as black boxes |
| SimpleMemoryArena.AlignTo | tflite_c/include/tensorflow/lite/simple_memory_arena.cc:55-59 | the least multiple of the alignment that is not below the offset |
| SimpleMemoryArena.Arena.ClearPlan | tflite_c/include/tensorflow/lite/simple_memory_arena.cc:311-316 | an empty plan and a mark of zero |
| SimpleMemoryArena.Arena.FindOffset | tflite_c/include/tensorflow/lite/simple_memory_arena.cc:246-275 | the aligned place in front of the gap that the comparisons choose, or after everything in use meanwhile; it shares no byte with anything in use at a common node, begins at zero or right behind something in use meanwhile, and lies below something in use meanwhile whenever there is room there: bytes of tensors no longer in use are used again |
| SimpleMemoryArena.EndBeforeIs | tflite_c/include/tensorflow/lite/simple_memory_arena.cc:254-267 | the running end is zero or the end of an allocation in use meanwhile, and not below any such end |
| SimpleMemoryArena.RoomMakesGap | tflite_c/include/tensorflow/lite/simple_memory_arena.cc:259-263 | an aligned place that nothing in use meanwhile touches, below one of these allocations, makes a gap with enough room |
| SimpleMemoryArena.GapIfAny | tflite_c/include/tensorflow/lite/simple_memory_arena.cc:262-275 | a gap is taken if and only if there is one with enough room |
| SimpleMemoryArena.TakenIsTightest | tflite_c/include/tensorflow/lite/simple_memory_arena.cc:260-266 | if all allocations begin at multiples of the alignment, no gap with enough room has less to spare than the one taken |
| SimpleMemoryArena.StaysAligned | tflite_c/include/tensorflow/lite/simple_memory_arena.cc:259-284 | that is so as long as one alignment is used throughout |
| SimpleMemoryArena.LooserGapTaken | tflite_c/include/tensorflow/lite/simple_memory_arena.cc:262-266 | with other offsets the looser of two gaps can be taken, because the comparison measures them from different points |
| SimpleMemoryArena.FirstOfTheTightest | tflite_c/include/tensorflow/lite/simple_memory_arena.cc:262-266 | if sizes are multiples of it too, the first of the tightest gaps is taken |
| SimpleMemoryArena.LaterGapTaken | tflite_c/include/tensorflow/lite/simple_memory_arena.cc:262-266 | with other sizes the later one of two equal gaps can be taken |
| SimpleMemoryArena.Arena.Allocate | tflite_c/include/tensorflow/lite/simple_memory_arena.cc:233-285 | fails exactly on a too large alignment; otherwise adds one aligned allocation below the mark at the place found, room below included, keeps the list sorted, and allocations with overlapping node intervals stay disjoint |
| SimpleMemoryArena.Arena.Insert | tflite_c/include/tensorflow/lite/simple_memory_arena.cc:281-283 | insertion keeps the order by offset and adds exactly this allocation |
| SimpleMemoryArena.StackGrows | tflite_c/include/tensorflow/lite/simple_memory_arena.cc:246-283 | a new allocation goes on top of a stack of allocations that are all in use meanwhile, never inside, and joins the stack if there is nothing else |
| SimpleMemoryArena.Arena.Commit | tflite_c/include/tensorflow/lite/simple_memory_arena.cc:287-294 | the buffer grows to the mark if it is smaller and never shrinks; whether it has moved is told exactly |
| SimpleMemoryArena.Arena.ResolveAlloc | tflite_c/include/tensorflow/lite/simple_memory_arena.cc:296-309 | fails exactly on an arena that is not committed or too small; the place of the allocation, or null for an empty one |
| ArenaPlanner.Planner.constructor | tflite_c/include/tensorflow/lite/arena_planner.cc:37-48 | a planner for the graph with empty vectors, no aliases, null pointers and two empty arenas |
| ArenaPlanner.Planner.ResetAllocations | tflite_c/include/tensorflow/lite/arena_planner.cc:65-75 | no allocations, and both arenas empty and not committed |
| ArenaPlanner.Planner.Allocate | tflite_c/include/tensorflow/lite/arena_planner.cc:218-226 | the first call for a tensor sets its node, later ones change nothing; the check fails exactly on a tensor already released |
| ArenaPlanner.Planner.Deallocate | tflite_c/include/tensorflow/lite/arena_planner.cc:228-237 | sets the releasing node of an allocated tensor; the check fails exactly on a second release |
| ArenaPlanner.CountMentions | tflite_c/include/tensorflow/lite/arena_planner.cc:242-246 | each count grows by the number of mentions |
| ArenaPlanner.CountInputs | tflite_c/include/tensorflow/lite/arena_planner.cc:276-285 | each count grows by the number of node inputs that mention the tensor |
| ArenaPlanner.CountSharedInputs | tflite_c/include/tensorflow/lite/arena_planner.cc:290-301 | each count grows by the number of node inputs that read the buffer through any tensor that shares it |
| ArenaPlanner.Planner.InputTensorCanBeShared | tflite_c/include/tensorflow/lite/arena_planner.cc:105-149 | sharing is refused for different or scalar sizes and multiple references (when data changes), graph inputs, graph outputs, foreign allocation types and preserved tensors, and allowed otherwise |
| ArenaPlanner.Planner.FindShareable | tflite_c/include/tensorflow/lite/arena_planner.cc:173-190 | the first of the first three inputs that is present, flagged and passes the sharing conditions, or none only if none does |
| ArenaGraph.RefsAre | tflite_c/include/tensorflow/lite/arena_planner.cc:242-285 | the reference count is the number of places that mention the tensor: graph outputs, variables, graph inputs and node inputs |
| ArenaGraph.AliasMapIsExact | tflite_c/include/tensorflow/lite/arena_planner.cc:157-202 | the first output of a node shares a buffer if and only if an input may donate its own and the data are left alone or the root of the first such input is mentioned once, and it shares that root |
| ArenaPlanner.Planner.IdentifyInPlaceTensors | tflite_c/include/tensorflow/lite/arena_planner.cc:157-202 | the map built by the loop is the specified alias map |
| ArenaGraph.AliasOrigin | tflite_c/include/tensorflow/lite/arena_planner.cc:170-200 | every alias was made by the node that produces it, through one of its shareable inputs, and maps to the root of that input |
| ArenaGraph.Donor | tflite_c/include/tensorflow/lite/arena_planner.cc:179-200 | every alias has a donor: an input of its producer that passes the checks and whose buffer it takes over |
| ArenaGraph.AliasCompressed | tflite_c/include/tensorflow/lite/arena_planner.cc:194-200 | a root is never an alias, never a graph input and never produced after its aliases, so one lookup reaches the root |
| ArenaGraph.AliasKeys | tflite_c/include/tensorflow/lite/arena_planner.cc:133-146 | aliases are produced tensors, never graph outputs, and there are none when all tensors are preserved |
| ArenaPlanner.Planner.QueueEarlyTensors | tflite_c/include/tensorflow/lite/arena_planner.cc:250-270 | graph inputs and variables come into use at node 0 and are queued there, and their references are added to those of the graph outputs; no check fails |
| ArenaPlanner.Planner.AllocateOutputs | tflite_c/include/tensorflow/lite/arena_planner.cc:306-314 | outputs of a node are queued and allocated at it; the check inside never fails on a well-formed graph |
| ArenaPlanner.Planner.ReleaseInput | tflite_c/include/tensorflow/lite/arena_planner.cc:320-331 | counting off one read releases the buffer exactly when it was the last one; the check inside never fails |
| ArenaPlanner.Planner.PlanAllocations | tflite_c/include/tensorflow/lite/arena_planner.cc:204-337 | never fails on a well-formed graph; every buffer is allocated and released at the specified nodes |
| ArenaGraph.LivenessIsExact | tflite_c/include/tensorflow/lite/arena_planner.cc:216-336 | a buffer is in use from its producer (node 0 for inputs and variables) to the last node that reads any tensor sharing it; it is never released if and only if it is an input, output or variable, unread, unallocated, or everything is preserved |
| ArenaPlanner.Planner.PlanTemporaries | tflite_c/include/tensorflow/lite/arena_planner.cc:347-361 | temporaries are in use at their node only (for good if all tensors are preserved) |
| ArenaGraph.TemporaryInterval | tflite_c/include/tensorflow/lite/arena_planner.cc:347-361 | the interval of a temporary is its node, or lasts if all tensors are preserved; that of any other tensor is the one planned |
| ArenaPlanner.Planner.GetTensorsToAllocate | tflite_c/include/tensorflow/lite/arena_planner.cc:474-485 | exactly the tensors that have a first node |
| ArenaPlanner.Planner.TensorsToPlace | tflite_c/include/tensorflow/lite/arena_planner.cc:490-506 | of those, the tensors of the read-write arena that have bytes and all tensors of the persistent arena |
| ArenaPlanner.Planner.CreateTensorAllocationVector | tflite_c/include/tensorflow/lite/arena_planner.cc:442-472 | each of them once, those in use all the time first in order of index, then by falling size and, at equal size, rising first node |
| ArenaPlanner.Planner.PlaceOrShare | tflite_c/include/tensorflow/lite/arena_planner.cc:522-561 | an alias whose root is in the read-write arena and has its size stays and gets no allocation; any other alias is erased, and the tensor gets its own in its arena; the layout so far stays disjoint, with what is in use all the time at the bottom |
| ArenaPlanner.Planner.Place | tflite_c/include/tensorflow/lite/arena_planner.cc:543-560 | the allocation is made in the arena of the tensor, for its interval of use or, in the persistent arena, for good, and disjoint from all others in use meanwhile |
| ArenaPlanner.Planner.CalculateAllocations | tflite_c/include/tensorflow/lite/arena_planner.cc:487-564 | every tensor that owns a buffer of either arena is placed for exactly its interval, tensors of one arena in use together share no byte, exactly the aliases of tensors to be placed whose root is outside the read-write arena or of another size are dropped, tensors in use all the time lie below all others in the read-write arena, and every placed tensor begins at zero or right behind one of its arena that is in use meanwhile |
| ArenaPlanner.CompactPlace | tflite_c/include/tensorflow/lite/arena_planner.cc:543-560 | each placement keeps the arenas free of other allocations than those of the tensors, each of which begins at zero or right behind another in use meanwhile |
| ArenaPlanner.PersistentApart | tflite_c/include/tensorflow/lite/arena_planner.cc:549-559 | persistent tensors share no byte with one another, whatever their intervals |
| ArenaPlanner.BottomPlace | tflite_c/include/tensorflow/lite/arena_planner.cc:446-458 | what is in use all the time stays stacked at the beginning of the arena: each placement goes on top of the stack, and joins it if the tensor is in use all the time |
| ArenaPlanner.Planner.ResolveTensorAllocation | tflite_c/include/tensorflow/lite/arena_planner.cc:580-612 | the pointer of the root if both are in the same arena, otherwise that of the own allocation; no check fails, and no other pointer but that of the root changes |
| ArenaPlanner.ResolvedIs | tflite_c/include/tensorflow/lite/arena_planner.cc:580-612 | that pointer leads to the bytes of the root if it is of the same type, otherwise to the own ones; without any, a persistent tensor gets null and every other tensor keeps what it had |
| ArenaPlanner.ResolvedAgain | tflite_c/include/tensorflow/lite/arena_planner.cc:592-595 | resolving a tensor again, after others, gives it the same pointer |
| ArenaPlanner.Planner.ResolveAll | tflite_c/include/tensorflow/lite/arena_planner.cc:369-379 | all pointers are resolved if a buffer has moved, otherwise those of the tensors just placed |
| ArenaPlanner.Planner.ExecuteAllocations | tflite_c/include/tensorflow/lite/arena_planner.cc:339-382 | planning temporaries, placing, committing and resolving succeed and yield such a layout, tensors in use all the time at the beginning; every tensor placed, and every tensor if a buffer has moved, has the pointer that resolution specifies |
| PlannedMemory.AliasMapFits | tflite_c/include/tensorflow/lite/arena_planner.cc:525-541 | no alias in the read-write arena is dropped when buffers are placed |
| PlannedMemory.PersistentAlias | tflite_c/include/tensorflow/lite/arena_planner.cc:533-541 | a persistent alias is kept only if its root is in the read-write arena and has its size |
| PlannedMemory.AddressIs | tflite_c/include/tensorflow/lite/arena_planner.cc:580-612 | resolution gives a tensor of the read-write arena the place of its root and a persistent one its own place, in its arena, and a null pointer if there is no such place |
| PlannedMemory.NullExactly | tflite_c/include/tensorflow/lite/arena_planner.cc:539-609 | a tensor of some size in either arena is left with a null pointer if and only if it is a persistent alias of a read-write root of its size, or no node and nobody else fills it |
| PlannedMemory.MemoryIffBacked | tflite_c/include/tensorflow/lite/arena_planner.cc:533-609 | no node reads or writes through a null pointer if and only if no persistent tensor of any size is an alias with a read-write root of its size |
| PlannedMemory.BackedIffNoneCross | tflite_c/include/tensorflow/lite/arena_planner.cc:138-143 | that is so if and only if no in-place node passes the checks with a read-write input and a persistent first output of some size |
| PlannedMemory.PlannedRefinesPrivate | tflite_c/include/tensorflow/lite/arena_planner.cc:204-337 | if every tensor is backed in that sense and no tensor is looked at after its buffer was changed through another one, all reads that count (all of them, or those that reach a graph output or variable) and the final values of all graph outputs and variables agree with private memory, including chains of in-place nodes and nodes that update variables |
| PlannedMemory.PlanGraph | tflite_c/include/tensorflow/lite/arena_planner.cc:204-382 | planning and placing a graph from scratch establishes what the theorems assume, every data pointer is the specified one, and tensors in use all the time lie at the beginning of the read-write arena |
| InPlaceSafety.HazardShows | tflite_c/include/tensorflow/lite/arena_planner.cc:194-200 | if a tensor is read after its buffer was changed through another one, a concrete kernel makes the difference visible at that read |
| InPlaceSafety.HazardReaches | tflite_c/include/tensorflow/lite/arena_planner.cc:194-200 | if that read can influence a graph output or variable, a concrete kernel makes the difference visible there |
| InPlaceSafety.RefinementIffSafe | tflite_c/include/tensorflow/lite/arena_planner.cc:194-200 | no node uses a null pointer and every node reads what it reads in private memory, for all kernels, inputs and arena contents, if and only if every tensor is backed and no tensor is read after a node has changed its buffer, by an in-place operation or by updating a variable |
| InPlaceSafety.OutputsIffSafe | tflite_c/include/tensorflow/lite/arena_planner.cc:194-200 | no node uses a null pointer and every graph output and variable gets its private value, for all kernels, inputs and arena contents, if and only if every tensor is backed and no buffer is changed before a read that can influence a graph output or variable |
| InPlaceSafety.EndsReadOnce | tflite_c/include/tensorflow/lite/arena_planner.cc:122-126 | what the two checks on reference counts give: the root and the input of an overwriting node have one reader each |
| InPlaceSafety.LostOnPath | tflite_c/include/tensorflow/lite/arena_planner.cc:194-200 | if tensors strictly between root and input have one reader each, everything a node overwrites lies on its own alias path |
| InPlaceSafety.PersistentUpdatesUnshared | tflite_c/include/tensorflow/lite/arena_planner.cc:248-260 | updates of variables outside the read-write arena change no other buffer |
| InPlaceSafety.SingleReadersAreSafe | tflite_c/include/tensorflow/lite/arena_planner.cc:122-126 | if every tensor strictly between the root and the input of an overwriting node has at most one reader, and nothing shares the buffer of an updated variable, no tensor is read after its buffer was changed |
| InPlaceSafety.SingleReadersRefine | tflite_c/include/tensorflow/lite/arena_planner.cc:105-202 | under these conditions, and if every tensor is backed, planned memory refines private memory: all reads, graph outputs and variables agree, for all kernels |
| InPlaceSafety.InPlaceCanBeUnsafe | tflite_c/include/tensorflow/lite/arena_planner.cc:124 | the two checks are not enough: a well-formed graph in which a tensor between root and input is read after it was overwritten, and on every layout of which some kernel gives a wrong graph output |
| InPlaceSafety.MemoryCanBeMissing | tflite_c/include/tensorflow/lite/arena_planner.cc:138-143 | a well-formed graph with single readers and nothing overwritten, on every layout of which a node writes and another reads through a null pointer |
| VariableLocks.SortPositions | tflite_c/include/tensorflow/c/kernels_experimental.cc:416-417 | a permutation of the positions in ascending order of address |
| VariableLocks.AcquireOrder | tflite_c/include/tensorflow/c/kernels_experimental.cc:383-433 | the mutexes to lock are exactly the non-null ones of the inputs, each once, in ascending order, and of each non-null mutex there are as many references as inputs that look its variable up; none of either if there is nothing to lock |
| VariableLocks.ReadersShare | tflite_c/include/tensorflow/c/kernels_experimental.cc:424-433 | a thread may lock if and only if the holders and it all share the lock; a lock that prefers writers holds it up in addition exactly while a writer waits for the same mutex |
| VariableLocks.LocksAreExact | tflite_c/include/tensorflow/c/kernels_experimental.cc:403-435 | in every reachable state a thread that has all its locks holds exactly the non-null mutexes it found, which are those of its inputs but for variables that are gone, and has one reference for each lookup of a variable still registered |
| VariableLocks.GivingBack | tflite_c/include/tensorflow/c/kernels_experimental.cc:498-506 | in every reachable state shared locks are complete until the last reference has been given back, and references are complete until the last exclusive lock has |
| VariableLocks.StepKeepsInv | tflite_c/include/tensorflow/c/kernels_experimental.cc:159-506 | lookups, locks, releases and removals of variables keep mutual exclusion, each thread at a prefix of its order, and a reference behind every lock of an exclusive thread |
| VariableLocks.EnabledCanStep | tflite_c/include/tensorflow/c/kernels_experimental.cc:404-433 | a thread that nothing holds up has a next step |
| VariableLocks.NoDeadlock | tflite_c/include/tensorflow/c/kernels_experimental.cc:416-433 | while a thread is unfinished some thread can go on, even if waiting writers keep readers out |
| VariableLocks.RunsAreSafeAndLive | tflite_c/include/tensorflow/c/kernels_experimental.cc:403-506 | in every reachable state of every run, removals of variables included, the locks are held correctly and somebody can go on or all are finished |
| VariableLocks.RunsTerminate | tflite_c/include/tensorflow/c/kernels_experimental.cc:498-506 | no run has more steps than there are lookups, locks, releases and removals to do, so every thread gets its locks and returns them with its references |
| VariableLocks.UnorderedLocksCanDeadlock | tflite_c/include/tensorflow/c/kernels_experimental.cc:416-417 | without the sorting two threads that lock the same mutexes in opposite orders block each other after one step each |
| VariableLocks.LockedMutexesExist | tflite_c/include/tensorflow/c/kernels_experimental.cc:498-503 | in every reachable state the mutex that a thread is about to lock exists, and so does every mutex held exclusively or by a thread that has not begun to give back |
| VariableLocks.HeldMutexesExist | tflite_c/include/tensorflow/c/kernels_experimental.cc:498-506 | no mutex is ever destroyed while it is held, provided that variables are not removed while a thread that locks shared uses them |
| VariableLocks.LastReaderLosesMutex | tflite_c/include/tensorflow/c/kernels_experimental.cc:500-504 | the condition is needed: a shared holder that alone refers to a removed variable destroys the mutex by its own steps and holds it still |
| VariableLocks.SharedLockCanDangle | tflite_c/include/tensorflow/c/kernels_experimental.cc:498-506 | a run from the start in which that happens: the references are given up before the shared locks |
| GoSession.StepKeepsInv | tflite_c/include/tensorflow/go/session.go:272-287 | every step of Run, PartialRun.Run, NewPartialRun and Close keeps: mutex owner, wait-group count equal to the runs in flight, session present while one is in flight, group empty once Close is past its wait |
| GoSession.EnabledIff | tflite_c/include/tensorflow/go/session.go:134-142 | a call is held up exactly by the mutex at its start, or by a nonempty group in Close |
| GoSession.WaitBlocksNoRun | tflite_c/include/tensorflow/go/session.go:272-275 | while Close waits, exactly the runs in flight can move, and there is one |
| GoSession.NoDeadlock | tflite_c/include/tensorflow/go/session.go:134-159 | while a call is unfinished some call can go on |
| GoSession.WaitIsBounded | tflite_c/include/tensorflow/go/session.go:246-253 | each step during the wait is a step of a run in flight and lets no new run in, so the wait is bounded by what those runs have left |
| GoSession.InvIsSafe | tflite_c/include/tensorflow/go/session.go:276-286 | what the invariant gives a caller: no use after deletion, at most one deletion, no use of nil, no race on the wait group, refused runs and successful closes find the session gone |
| GoSession.SessionProtocol | tflite_c/include/tensorflow/go/session.go:40-48 | every reachable state of every interleaving is safe in that sense, somebody can go on until all have returned, and every run ends |
| GoSession.FailedCloseChangesNothing | tflite_c/include/tensorflow/go/session.go:279-283 | a close that reports an error leaves the session live and not deleted |
| GoSession.ClosedStaysClosed | tflite_c/include/tensorflow/go/session.go:136-139 | in every run, once the session is closed every later run is refused and every later close returns no error |
| GoSession.DeletingCloseSucceeds | tflite_c/include/tensorflow/go/session.go:284-286 | in every run, a close that has deleted the C session returns no error |
| GraphLifetime.StepKeepsInv | tflite_c/include/tensorflow/c/c_api_internal.h:89-97 | every step keeps: sessions registered exactly between creation and deletion, and deletions done plus deletions decided equal one exactly when a deletion was requested and no session is left |
| GraphLifetime.GoneIffReleased | tflite_c/include/tensorflow/c/c_api.cc:2316-2329 | once nothing is in flight the graph is gone if and only if it was deleted and so was every session created |
| GraphLifetime.GraphIsFreedOnce | tflite_c/include/tensorflow/c/c_api.cc:1583-1590 | in every interleaving that obeys the API the graph is deleted at most once, never while a session is registered, and nobody touches it afterwards; exactly once in the end |
| GraphLifetime.OnlyCreationsFail | tflite_c/include/tensorflow/c/c_api.cc:2231-2247 | in every run only creations of sessions fail, and a failed one has registered no session |
| GraphLifetime.BegunCallsFinish | tflite_c/include/tensorflow/c/c_api.cc:2231-2247 | a call that has begun is held up only by the mutex, whose owner can go on |
| GraphLifetime.RunsTerminate | tflite_c/include/tensorflow/c/c_api.cc:2316-2329 | no run has more steps than its calls have left to do, so every call that has begun returns |
| GraphLifetime.CreationMustNotOverlapDeletion | tflite_c/include/tensorflow/c/c_api.h:1209-1211 | without the rule that the graph stays valid during a creation, a run ends with the creator touching a deleted graph |
| SessionExtension.NodesSince | tflite_c/include/tensorflow/c/c_api.cc:321-327 | the batch holds the operations from the mark on |
| SessionExtension.OpsAreExact | tflite_c/include/tensorflow/c/c_api.cc:318-327 | such a batch has exactly the operations of its range, each once, in ascending order |
| SessionExtension.ExtensionStaysInStep | tflite_c/include/tensorflow/c/c_api.cc:334-341 | a successful extension by that batch leaves the session with exactly the operations below its new mark |
| SessionExtension.StepKeepsInv | tflite_c/include/tensorflow/c/c_api.cc:294-349 | additions, new calls and every step of a call, with any failures, keep each session in step with its mark |
| SessionExtension.ExtensionIsExact | tflite_c/include/tensorflow/c/c_api.cc:308-341 | in every reachable state each session has been sent exactly the operations below its mark, each once and in order, and a successful call has brought over all operations there were when it began |
| SessionExtension.MutexesOfACall | tflite_c/include/tensorflow/c/c_api.cc:296-300 | wherever the invariant holds, a call holds the graph mutex exactly while it looks at the nodes and the session mutex from then until it returns |
| SessionExtension.HowCallsEnd | tflite_c/include/tensorflow/c/c_api.cc:309-348 | a call fails if and only if it has nodes to send and the check for cycles or the extension fails |
| SessionExtension.OnlySuccessTouches | tflite_c/include/tensorflow/c/c_api.cc:336-342 | a step that ends in failure leaves mark and nodes sent as they were; a success moves the mark and adds the batch |
| SessionExtension.SessionsGrowBySuccess | tflite_c/include/tensorflow/c/c_api.cc:336-342 | in every run, mark and nodes sent change only when a call of that session succeeds |
| SessionExtension.NothingFailsNoError | tflite_c/include/tensorflow/c/c_api.cc:313-348 | in every run, a call none of whose steps fails returns no error |
| SessionExtension.CallsCatchUp | tflite_c/include/tensorflow/c/c_api.cc:308-341 | in every run, a successful call has brought over every operation the graph had before the call began |
| SessionExtension.NoDeadlock | tflite_c/include/tensorflow/c/c_api.cc:296-299 | taking the graph mutex before the session mutex cannot deadlock |
| GoTensor.LengthsAgree | tflite_c/include/tensorflow/go/tensor.go:433-440 | true exactly if all elements are lists of the same length |
| GoTensor.ShapeOf | tflite_c/include/tensorflow/go/tensor.go:426-451 | the lengths along the first elements, with zeros below an empty dimension; an error exactly if neighbours on that path differ in length or the element type is not supported |
| GoTensor.PathAgreesIff | tflite_c/include/tensorflow/go/tensor.go:430-441 | the walk finds a mismatch if and only if two slices next to each other on the path of first elements differ in length |
| GoTensor.ZerosBelowEmpty | tflite_c/include/tensorflow/go/tensor.go:429-443 | all dimensions below an empty one are zero |
| GoTensor.RectangularIffFirstShape | tflite_c/include/tensorflow/go/tensor.go:426-444 | a value is rectangular if and only if all of it has the shape of its first elements, and then the check of neighbours passes |
| GoTensor.NumElements | tflite_c/include/tensorflow/go/tensor.go:471-477 | the product of the dimensions |
| GoTensor.Encode | tflite_c/include/tensorflow/go/tensor.go:491-530 | succeeds if and only if the value has the shape, and then appends exactly its elements in order and returns their number of bytes |
| GoTensor.NewTensor | tflite_c/include/tensorflow/go/tensor.go:89-135 | accepts exactly the rectangular values of a supported element type, strings included; the data are the elements in order, as many as the shape says; the final size check never fails; the type is what is refused exactly if it is not supported and the walk finds no mismatch |
| GoTensor.RowMajor | tflite_c/include/tensorflow/go/tensor.go:519-527 | elements are stored row by row: element j of row k stands behind the elements of the k rows before it |
| GoTensor.BytesOf | tflite_c/include/tensorflow/go/tensor.go:509-517 | the bytes of element k stand at k times their number |
| GoTensor.Group | tflite_c/include/tensorflow/go/tensor.go:334-341 | slice headers over consecutive stretches |
| GoTensor.GroupedKeeps | tflite_c/include/tensorflow/go/tensor.go:319-344 | grouping keeps the elements and adds one dimension |
| GoTensor.Decode | tflite_c/include/tensorflow/go/tensor.go:271-346 | the value of that shape with those elements if no dimension but the last is zero, otherwise an empty list |
| GoTensor.ValueIsDetermined | tflite_c/include/tensorflow/go/tensor.go:271-346 | shape and elements determine the value |
| GoTensor.RoundTrip | tflite_c/include/tensorflow/go/tensor.go:309-318 | decoding an encoded value gives the value back if and only if no dimension but the last is zero or the first one is |
| GoTensor.EmptyRowsAreLost | tflite_c/include/tensorflow/go/tensor.go:309-318 | a rectangular value whose shape does not survive: two empty rows of rows |
| ShapeList.FlattenShapes | tflite_c/include/tensorflow/go/graph.go:478-486 | the flat run is the concatenation of all dimensions, the ranks are those of the shapes, -1 for unknown |
| ShapeList.PointersToShapes | tflite_c/include/tensorflow/go/graph.go:24-41 | each pointer stands where the dimensions of its shape begin |
| ShapeList.SliceOfShape | tflite_c/include/tensorflow/go/graph.go:32-37 | each shape has a stretch of the flat run to itself, with its dimensions in it, disjoint from all later ones |
| ShapeList.SetAttrShapeList | tflite_c/include/tensorflow/c/c_api.cc:932-946 | every stored shape is what its pointer and rank say |
| ShapeList.SetAttr | tflite_c/include/tensorflow/go/graph.go:474-492 | the attribute stored is the list given |
| ShapeList.ListMetadata | tflite_c/include/tensorflow/c/c_api.cc:1284-1289 | list size and total number of dimensions |
| ShapeList.CopyDims | tflite_c/include/tensorflow/c/c_api.cc:1457-1459 | the dimensions of one shape are copied to the pointer and nothing else changes |
| ShapeList.GetAttrShapeList | tflite_c/include/tensorflow/c/c_api.cc:1432-1461 | fails if and only if the requested shapes do not fit into the storage; otherwise pointers, ranks and storage describe them and the rest of the storage is untouched |
| ShapeList.MakeShapes | tflite_c/include/tensorflow/go/attrs.go:164-177 | every shape is cut out of the storage where its pointer and rank say |
| ShapeList.ListAttribute | tflite_c/include/tensorflow/go/attrs.go:152-177 | with storage sized by the metadata the call never fails and returns the stored list |
| ShapeList.RoundTrip | tflite_c/include/tensorflow/go/graph.go:474-492 | the list of shapes that is set is the list that is read |

## Left out

- The Flutter plugin and the platform runners: null checks, printing, library calls and an argmax loop would only add easy members.
- Incremental planning (`ResetAllocationsAfter`, partial node ranges, the purge calls of the arena): one pass over the whole plan is modelled.
- Releasing and acquiring the read-write buffer between runs, and the addresses behind buffers: a data pointer is an arena and an offset.
- A node reads all its inputs before it writes any output; a kernel that interleaves the two within one in-place node is not modelled.
- The flag `kTfLiteInplaceInputCanBeSharedWithCorrespondingOutput` of the C API, which the planner does not look at either.
- PlannedMemory.PlannedRefinesPrivate: a node updates variables only among its inputs, and through a null pointer, which the condition rules out, nothing is read or written.
- PlannedMemory.UnmodifiedWrites: relies on nodes flagged as leaving data unmodified updating no variables, sharing their first input only and keeping its size, as the flag's documentation and `arena_planner.cc`:115-116 say.
- VariableLocks.StepKeepsInv: variables are removed from the resource manager at any time, but none is added during a run; copy-on-read mode and sparse access are not modelled.
- Ordering.Sort: stands in for `std::sort`; the sorting algorithm of the C++ library is not modelled.
- Partitioner.PartitionGraphIntoIndependentNodeSubsets: requires acyclic dependencies as the header does; on cyclic ones the code would index a subset that does not exist.
- GraphLifetime.GraphIsFreedOnce: concerns one graph; sessions without a graph and the parent links of while loops are not modelled.
- SessionExtension.ExtensionIsExact: node ids stand for node definitions; versions, the function library and debug information of the batch are not modelled, nor are sessions loaded with a graph.
- GoSession.SessionProtocol: arguments, fetched tensors and handles of partial runs are not modelled, and `ListDevices`, which takes no lock, is not part of the protocol.
- GoTensor.NewTensor: elements are blocks of a fixed size, for strings the `TF_TString`, whose own conversion is not modelled; neither is overflow of sizes.
- ShapeList.SetAttrShapeList: a stored shape keeps the dimensions it is given; the limits that the C++ class puts on rank and negative dimensions are not modelled.
- Machine integers: all counts, sizes and offsets are mathematical integers.
- Logging, status objects, `MutableOpResolver`, `env.cc`, `ops.cc`, `checkpoint_reader.cc` and the Python templates: wrappers and simple maps.
