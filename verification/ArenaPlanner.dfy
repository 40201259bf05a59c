/**
 The planning pass of `arena_planner.cc`: vectors filled by loops over the plan, proved against the
 reference counts, alias map and liveness intervals that `ArenaGraph` defines.
 */
module ArenaPlanner {
  import opened Common
  import opened Ordering
  import opened ArenaGraph
  import opened SimpleMemoryArena

  // ---------------------------------------------------------------- counting

  /** Adds one for every mention of a tensor. */
  method CountMentions(counts: seq<int>, list: seq<int>) returns (after: seq<int>)
    requires forall t :: t in list && t != OPTIONAL_TENSOR ==> 0 <= t < |counts|
    ensures |after| == |counts| && forall t :: 0 <= t < |counts| ==> after[t] == counts[t] + multiset(list)[t]
  {
    after := counts;
    for k := 0 to |list|
      invariant |after| == |counts| && forall t :: 0 <= t < |counts| ==> after[t] == counts[t] + multiset(list[..k])[t]
    {
      assert list[..k + 1] == list[..k] + [list[k]];
      assert list[k] in list;
      if list[k] != OPTIONAL_TENSOR {
        after := after[list[k] := after[list[k]] + 1];
      }
    }
    assert list[..|list|] == list;
  }

  method CountInputs(g: Graph, counts: seq<int>) returns (after: seq<int>)
    requires InRange(g) && |counts| == |g.tensors|
    ensures |after| == |counts| && forall t :: IsTensor(g, t) ==> after[t] == counts[t] + Uses(g, t, |g.ops|)
  {
    after := counts;
    for i := 0 to |g.ops|
      invariant |after| == |counts| && forall t :: IsTensor(g, t) ==> after[t] == counts[t] + Uses(g, t, i)
    {
      assert forall t :: t in g.ops[i].inputs && t != OPTIONAL_TENSOR ==> Reads(g, i, t);
      after := CountMentions(after, g.ops[i].inputs);
    }
  }

  /** Counts the reads of every buffer, through whichever tensor shares it. */
  method CountSharedInputs(g: Graph, alias: map<int, int>, counts: seq<int>) returns (after: seq<int>)
    requires InRange(g) && |counts| == |g.tensors| && OPTIONAL_TENSOR !in alias
    requires forall t :: t in alias ==> IsTensor(g, alias[t])
    ensures |after| == |counts|
    ensures forall t :: IsTensor(g, t) ==> after[t] == counts[t] + SharedUses(g, alias, t, |g.ops|)
  {
    after := counts;
    for i := 0 to |g.ops|
      invariant |after| == |counts| && forall t :: IsTensor(g, t) ==> after[t] == counts[t] + SharedUses(g, alias, t, i)
    {
      RootsInRange(g, alias, i);
      after := CountMentions(after, RootsOf(alias, g.ops[i].inputs));
    }
  }

  lemma RootsInRange(g: Graph, alias: map<int, int>, i: int)
    requires InRange(g) && IsOp(g, i) && OPTIONAL_TENSOR !in alias
    requires forall t :: t in alias ==> IsTensor(g, alias[t])
    ensures forall r :: r in RootsOf(alias, g.ops[i].inputs) && r != OPTIONAL_TENSOR ==> IsTensor(g, r)
  {
    var ts := g.ops[i].inputs;
    forall k | 0 <= k < |ts| ensures Root(alias, ts[k]) == OPTIONAL_TENSOR || IsTensor(g, Root(alias, ts[k])) {
      assert ts[k] != OPTIONAL_TENSOR ==> Reads(g, i, ts[k]);
    }
  }

  // ---------------------------------------------------------------- liveness so far

  /**
   The release node of buffer `r` as far as it is known when the nodes before `i` and the reads
   `part` of node `i` have been counted off.
   */
  function DeallocSoFar(g: Graph, preserveAll: bool, alias: map<int, int>, r: int, i: nat, part: seq<int>): int
    requires i <= |g.ops|
  {
    var uses := SharedUses(g, alias, r, i) + multiset(part)[r];
    if !preserveAll && Bonus(g, r) == 0 && AllocNode(g, r, |g.ops|) != NODE_NOT_ASSIGNED
       && uses > 0 && uses == SharedUses(g, alias, r, |g.ops|)
    then (if r in part then i else LastUse(g, alias, r, i))
    else NODE_NOT_ASSIGNED
  }

  /** Release nodes and remaining reads after the nodes before `i` and the reads `part` of node `i`. */
  ghost predicate CountedOff(
    g: Graph, preserveAll: bool, alias: map<int, int>, deallocNode: seq<int>, counts: seq<int>, i: nat, part: seq<int>)
    requires i <= |g.ops|
  {
    && |deallocNode| == |counts| == |g.tensors|
    && (forall t :: IsTensor(g, t) ==> deallocNode[t] == DeallocSoFar(g, preserveAll, alias, t, i, part))
    && (!preserveAll ==> forall t :: IsTensor(g, t) ==>
          counts[t] == Bonus(g, t) + SharedUses(g, alias, t, |g.ops|) - SharedUses(g, alias, t, i) - multiset(part)[t])
  }

  lemma CountedOffStart(g: Graph, preserveAll: bool, alias: map<int, int>, deallocNode: seq<int>, counts: seq<int>)
    requires |deallocNode| == |counts| == |g.tensors|
    requires forall t :: IsTensor(g, t) ==> deallocNode[t] == NODE_NOT_ASSIGNED
    requires forall t :: IsTensor(g, t) ==> counts[t] == Bonus(g, t) + SharedUses(g, alias, t, |g.ops|)
    ensures CountedOff(g, preserveAll, alias, deallocNode, counts, 0, [])
  {
  }

  /** Nothing has been released that the next node produces. */
  lemma CountedOffUnwritten(g: Graph, preserveAll: bool, deallocNode: seq<int>, counts: seq<int>, i: nat)
    requires WellFormed(g) && i < |g.ops|
    requires CountedOff(g, preserveAll, AliasMap(g, preserveAll), deallocNode, counts, i, [])
    ensures forall t :: IsTensor(g, t) && Writes(g, i, t) ==> deallocNode[t] == NODE_NOT_ASSIGNED
  {
    hide DeallocSoFar, AliasMap, WellFormed;
    forall t | IsTensor(g, t) && Writes(g, i, t) ensures deallocNode[t] == NODE_NOT_ASSIGNED {
      UnreadBeforeWritten(g, preserveAll, i, t);
    }
  }

  lemma CountedOffPreserved(
    g: Graph, preserveAll: bool, alias: map<int, int>, deallocNode: seq<int>, counts: seq<int>, i: nat)
    requires preserveAll && i < |g.ops| && CountedOff(g, preserveAll, alias, deallocNode, counts, i, [])
    ensures CountedOff(g, preserveAll, alias, deallocNode, counts, i + 1, [])
  {
    hide SharedUses, LastUse, AllocNode, Bonus;
  }

  lemma CountedOffEnd(g: Graph, preserveAll: bool, alias: map<int, int>, deallocNode: seq<int>, counts: seq<int>)
    requires CountedOff(g, preserveAll, alias, deallocNode, counts, |g.ops|, [])
    ensures forall t :: IsTensor(g, t) ==> deallocNode[t] == DeallocNode(g, preserveAll, alias, t)
  {
    hide DeallocSoFar, DeallocNode;
    forall t | IsTensor(g, t) ensures deallocNode[t] == DeallocNode(g, preserveAll, alias, t) {
      DeallocAtEnd(g, preserveAll, alias, t);
    }
  }

  lemma CountOffOptional(
    g: Graph, preserveAll: bool, alias: map<int, int>, deallocNode: seq<int>, counts: seq<int>, i: nat, part: seq<int>)
    requires i <= |g.ops| && CountedOff(g, preserveAll, alias, deallocNode, counts, i, part)
    ensures CountedOff(g, preserveAll, alias, deallocNode, counts, i, part + [OPTIONAL_TENSOR])
  {
    forall t | IsTensor(g, t) ensures multiset(part + [OPTIONAL_TENSOR])[t] == multiset(part)[t] {
    }
  }

  lemma CountOffStep(
    g: Graph, preserveAll: bool, alias: map<int, int>, deallocNode: seq<int>, counts: seq<int>, i: nat,
    part: seq<int>, x: int)
    requires i < |g.ops| && !preserveAll && IsTensor(g, x)
    requires CountedOff(g, preserveAll, alias, deallocNode, counts, i, part)
    requires SharedUses(g, alias, x, i) + multiset(part)[x] < SharedUses(g, alias, x, |g.ops|)
    ensures deallocNode[x] == NODE_NOT_ASSIGNED
    ensures var released := counts[x] - 1 == 0 && AllocNode(g, x, |g.ops|) != NODE_NOT_ASSIGNED;
            CountedOff(g, preserveAll, alias, if released then deallocNode[x := i] else deallocNode,
                       counts[x := counts[x] - 1], i, part + [x])
  {
    hide AllocNode, LastUse, Bonus, SharedUses, DeallocSoFar;
    DeallocStep(g, preserveAll, alias, i, part, x, x);
    forall t | IsTensor(g, t)
      ensures t != x ==>
                DeallocSoFar(g, preserveAll, alias, t, i, part + [x]) == DeallocSoFar(g, preserveAll, alias, t, i, part)
      ensures multiset(part + [x])[t] == multiset(part)[t] + (if t == x then 1 else 0)
    {
      DeallocStep(g, preserveAll, alias, i, part, x, t);
    }
  }

  lemma CountedOffNode(
    g: Graph, preserveAll: bool, alias: map<int, int>, deallocNode: seq<int>, counts: seq<int>, i: nat)
    requires i < |g.ops| && CountedOff(g, preserveAll, alias, deallocNode, counts, i, RootsOf(alias, g.ops[i].inputs))
    ensures CountedOff(g, preserveAll, alias, deallocNode, counts, i + 1, [])
  {
    forall t | IsTensor(g, t)
      ensures DeallocSoFar(g, preserveAll, alias, t, i, RootsOf(alias, g.ops[i].inputs))
           == DeallocSoFar(g, preserveAll, alias, t, i + 1, [])
    {
      DeallocNextNode(g, preserveAll, alias, t, i);
    }
  }

  lemma {:induction false} UsesHaveLast(g: Graph, alias: map<int, int>, r: int, i: nat)
    requires i <= |g.ops|
    ensures SharedUses(g, alias, r, i) > 0 <==> LastUse(g, alias, r, i) >= 0
  {
    if i > 0 { UsesHaveLast(g, alias, r, i - 1); }
  }

  lemma {:induction false} UsesGrow(g: Graph, alias: map<int, int>, r: int, i: nat, j: nat)
    requires i <= j <= |g.ops|
    ensures SharedUses(g, alias, r, i) <= SharedUses(g, alias, r, j)
    decreases j
  {
    if i < j { UsesGrow(g, alias, r, i, j - 1); }
  }

  lemma DeallocAtEnd(g: Graph, preserveAll: bool, alias: map<int, int>, r: int)
    ensures DeallocSoFar(g, preserveAll, alias, r, |g.ops|, []) == DeallocNode(g, preserveAll, alias, r)
  {
    UsesHaveLast(g, alias, r, |g.ops|);
  }

  lemma DeallocNextNode(g: Graph, preserveAll: bool, alias: map<int, int>, r: int, i: nat)
    requires i < |g.ops|
    ensures DeallocSoFar(g, preserveAll, alias, r, i, RootsOf(alias, g.ops[i].inputs))
         == DeallocSoFar(g, preserveAll, alias, r, i + 1, [])
  {
    UsesHaveLast(g, alias, r, i);
  }

  lemma AllocNext(g: Graph, t: int, i: nat)
    requires i < |g.ops| && IsTensor(g, t)
    ensures AllocNode(g, t, i + 1) ==
              if AllocNode(g, t, i) == NODE_NOT_ASSIGNED && t in g.ops[i].outputs then i else AllocNode(g, t, i)
  {
    assert Writes(g, i, t) <==> t in g.ops[i].outputs;
  }

  /** A tensor that no node from `i` on produces is allocated before node `i` or never. */
  lemma {:induction false} AllocSettled(g: Graph, t: int, i: nat, j: nat)
    requires i <= j <= |g.ops| && AvailableBefore(g, i, t)
    ensures AllocNode(g, t, j) == AllocNode(g, t, i)
    decreases j
  {
    if i < j {
      AllocSettled(g, t, i, j - 1);
      assert !Writes(g, j - 1, t);
    }
  }

  /** The buffer a node reads exists before the node runs. */
  lemma RootAvailable(g: Graph, preserveAll: bool, i: nat, t: int)
    requires WellFormed(g) && i < |g.ops| && Reads(g, i, t)
    ensures AvailableBefore(g, i, Root(AliasMap(g, preserveAll), t))
    ensures IsTensor(g, Root(AliasMap(g, preserveAll), t))
  {
    if t in AliasMap(g, preserveAll) {
      AliasCompressed(g, preserveAll, |g.ops|, t);
      AliasKeys(g, preserveAll, |g.ops|, t);
      var j :| 0 <= j < |g.ops| && Writes(g, j, t) && g.ops[j].outputs[0] == t;
      assert AvailableBefore(g, j, Root(AliasMap(g, preserveAll), t));
    }
  }

  lemma AliasMapInRange(g: Graph, preserveAll: bool)
    requires WellFormed(g)
    ensures OPTIONAL_TENSOR !in AliasMap(g, preserveAll)
    ensures forall t :: t in AliasMap(g, preserveAll) ==> IsTensor(g, AliasMap(g, preserveAll)[t])
  {
    var alias := AliasMap(g, preserveAll);
    forall t | t in alias ensures t != OPTIONAL_TENSOR && IsTensor(g, alias[t]) {
      AliasKeys(g, preserveAll, |g.ops|, t);
      AliasCompressed(g, preserveAll, |g.ops|, t);
    }
  }

  function Mentioned(list: seq<int>): set<int> {
    set t | t in list && t != OPTIONAL_TENSOR
  }

  lemma MentionedSnoc(list: seq<int>, k: nat)
    requires k < |list|
    ensures Mentioned(list[..k + 1]) == Mentioned(list[..k]) + (if list[k] == OPTIONAL_TENSOR then {} else {list[k]})
    ensures Mentioned(list[..0]) == {}
  {
    assert list[..k + 1] == list[..k] + [list[k]];
  }

  /** The tensors queued for allocation at node `i`. */
  function QueuedAt(g: Graph, i: int): set<int>
    requires 0 <= i
  {
    (if i == 0 then Mentioned(g.variables + g.inputs) else {}) +
    (if i < |g.ops| then Mentioned(g.ops[i].outputs) else {})
  }

  function Slots(g: Graph): nat {
    if |g.ops| > 1 then |g.ops| else 1
  }

  /** The queues when the outputs of the nodes before `i` have joined them. */
  ghost predicate QueuedSoFar(g: Graph, queues: seq<set<int>>, i: nat) {
    && |queues| == Slots(g)
    && (forall j :: 0 <= j < Slots(g) ==>
          queues[j] == if j < i then QueuedAt(g, j) else if j == 0 then Mentioned(g.variables + g.inputs) else {})
  }

  lemma QueuedStart(g: Graph, queues: seq<set<int>>)
    requires |queues| == Slots(g) && queues[0] == Mentioned(g.variables + g.inputs)
    requires forall i :: 0 < i < Slots(g) ==> queues[i] == {}
    ensures QueuedSoFar(g, queues, 0)
  {
    hide Mentioned;
  }

  lemma QueuedNext(g: Graph, before: seq<set<int>>, after: seq<set<int>>, i: nat)
    requires i < |g.ops| && QueuedSoFar(g, before, i) && |after| == Slots(g)
    requires after[i] == before[i] + Mentioned(g.ops[i].outputs)
    requires forall j :: 0 <= j < Slots(g) && j != i ==> after[j] == before[j]
    ensures QueuedSoFar(g, after, i + 1)
  {
    hide Mentioned;
  }

  lemma QueuedEnd(g: Graph, queues: seq<set<int>>)
    requires QueuedSoFar(g, queues, |g.ops|)
    ensures forall i :: 0 <= i < Slots(g) ==> queues[i] == QueuedAt(g, i)
  {
    hide Mentioned;
  }

  // ---------------------------------------------------------------- the planner

  class Planner {
    const g: Graph
    const preserveAllTensors: bool
    var allocNode: seq<int>
    var deallocNode: seq<int>
    var refcounts: seq<int>
    var nodesToTensors: seq<set<int>>
    var actualTensorId: map<int, int>
    var allocs: seq<Alloc>
    /** The data pointers of the tensors. */
    var data: seq<Pointer>
    const arena: Arena
    const persistentArena: Arena

    constructor (graph: Graph, preserveAllTensors: bool, bufferAlignment: nat)
      ensures this.g == graph && this.preserveAllTensors == preserveAllTensors
      ensures fresh(arena) && fresh(persistentArena) && Arenas() && Unused()
      ensures arena.bufferAlignment == persistentArena.bufferAlignment == bufferAlignment
      ensures arena.bufferSize == persistentArena.bufferSize == 0
      ensures allocNode == deallocNode == refcounts == [] && nodesToTensors == [] && allocs == []
      ensures actualTensorId == map[]
      ensures data == NoPointers(graph)
    {
      this.g := graph;
      this.preserveAllTensors := preserveAllTensors;
      allocNode, deallocNode, refcounts, nodesToTensors, actualTensorId, allocs := [], [], [], [], map[], [];
      data := NoPointers(graph);
      arena := new Arena(bufferAlignment);
      persistentArena := new Arena(bufferAlignment);
    }

    ghost predicate Arenas()
      reads arena, persistentArena
    {
      arena != persistentArena && arena.Valid() && persistentArena.Valid()
    }

    /** Nothing has been placed in either arena. */
    ghost predicate Unused()
      reads arena, persistentArena
    {
      && arena.active == persistentArena.active == []
      && arena.highWaterMark == persistentArena.highWaterMark == 0
    }

    /** `ResetAllocations`. */
    method ResetAllocations()
      requires arena != persistentArena
      modifies this`allocs
      modifies arena`active, arena`highWaterMark, arena`committed
      modifies persistentArena`active, persistentArena`highWaterMark, persistentArena`committed
      ensures allocs == seq(|g.tensors|, _ => NO_ALLOC)
      ensures Arenas() && Unused() && !arena.committed && !persistentArena.committed
    {
      arena.ClearPlan();
      persistentArena.ClearPlan();
      allocs := seq(|g.tensors|, _ => NO_ALLOC);
    }

    /** The `allocate` helper; the result tells whether its check passes. */
    method Allocate(node: int, t: int) returns (ok: bool)
      requires 0 <= t < |allocNode| == |deallocNode|
      modifies this`allocNode
      ensures ok <==> old(allocNode)[t] != NODE_NOT_ASSIGNED || deallocNode[t] == NODE_NOT_ASSIGNED
      ensures allocNode ==
                if ok && old(allocNode)[t] == NODE_NOT_ASSIGNED then old(allocNode)[t := node] else old(allocNode)
    {
      if allocNode[t] != NODE_NOT_ASSIGNED {
        return true;
      }
      if deallocNode[t] != NODE_NOT_ASSIGNED {
        return false;
      }
      allocNode := allocNode[t := node];
      return true;
    }

    /** The `deallocate` helper; the result tells whether its check passes. */
    method Deallocate(node: int, t: int) returns (ok: bool)
      requires 0 <= t < |allocNode| == |deallocNode|
      modifies this`deallocNode
      ensures ok <==> allocNode[t] == NODE_NOT_ASSIGNED || old(deallocNode)[t] == NODE_NOT_ASSIGNED
      ensures deallocNode ==
                if ok && allocNode[t] != NODE_NOT_ASSIGNED then old(deallocNode)[t := node] else old(deallocNode)
    {
      if allocNode[t] == NODE_NOT_ASSIGNED {
        return true;
      }
      if deallocNode[t] != NODE_NOT_ASSIGNED {
        return false;
      }
      deallocNode := deallocNode[t := node];
      return true;
    }

    method InputTensorCanBeShared(inputId: int, outputId: int, tensorChanged: bool) returns (r: bool)
      requires IsTensor(g, inputId) && IsTensor(g, outputId)
      requires |refcounts| == |g.tensors| && forall t :: IsTensor(g, t) ==> refcounts[t] == Refs(g, t)
      ensures r == CanBeShared(g, preserveAllTensors, inputId, outputId, tensorChanged)
    {
      var input, output := g.tensors[inputId], g.tensors[outputId];
      if tensorChanged {
        if input.bytes != output.bytes || input.bytes <= SCALAR_TENSOR_BYTES {
          return false;
        }
        if refcounts[inputId] > 1 {
          return false;
        }
      }
      if inputId in g.inputs {
        return false;
      }
      if outputId in g.outputs {
        return false;
      }
      if input.allocationType != output.allocationType && input.allocationType != ArenaRw {
        return false;
      }
      return !preserveAllTensors;
    }

    /** The input position whose buffer node `i` may reuse for its first output, or -1. */
    method FindShareable(i: int) returns (pos: int)
      requires WellFormed(g) && IsOp(g, i) && g.ops[i].outputs != [] && g.ops[i].sharedInputs != {}
      requires |refcounts| == |g.tensors| && forall t :: IsTensor(g, t) ==> refcounts[t] == Refs(g, t)
      ensures pos == -1 ==> forall k :: !MayDonate(g, preserveAllTensors, i, k)
      ensures pos != -1 ==> IsFirstDonor(g, preserveAllTensors, i, pos)
      ensures pos == FirstShareable(g, preserveAllTensors, i, 0)
    {
      hide MayDonate, Refs;
      var op := g.ops[i];
      assert Writes(g, i, op.outputs[0]);
      FirstShareableIs(g, preserveAllTensors, i, 0);
      assert forall k :: MayDonate(g, preserveAllTensors, i, k) ==> 0 <= k by {
        NoDonorBelowZero(g, preserveAllTensors, i);
      }
      var k := 0;
      while k < ScanLimit(op)
        invariant 0 <= k <= ScanLimit(op)
        invariant FirstShareable(g, preserveAllTensors, i, 0) == FirstShareable(g, preserveAllTensors, i, k)
      {
        if op.inputs[k] != OPTIONAL_TENSOR && k in op.sharedInputs {
          assert Reads(g, i, op.inputs[k]);
          var can := InputTensorCanBeShared(op.inputs[k], op.outputs[0], !op.dataUnmodified);
          if can {
            return k;
          }
        }
        k := k + 1;
      }
      return -1;
    }

    method IdentifyInPlaceTensors()
      requires WellFormed(g)
      requires |refcounts| == |g.tensors| && forall t :: IsTensor(g, t) ==> refcounts[t] == Refs(g, t)
      modifies this`actualTensorId
      ensures actualTensorId == AliasMap(g, preserveAllTensors)
    {
      hide AliasAfter, FirstShareable, WellFormed, Refs;
      actualTensorId := map[];
      AliasNone(g, preserveAllTensors);
      for i := 0 to |g.ops|
        invariant actualTensorId == AliasAfter(g, preserveAllTensors, i)
      {
        AliasNext(g, preserveAllTensors, i);
        var op := g.ops[i];
        if op.outputs == [] {
          continue;
        }
        if op.sharedInputs == {} {
          NothingShared(g, preserveAllTensors, i, 0);
          continue;
        }
        var pos := FindShareable(i);
        if pos == -1 {
          continue;
        }
        assert Reads(g, i, op.inputs[pos]);
        var root := if op.inputs[pos] in actualTensorId then actualTensorId[op.inputs[pos]] else op.inputs[pos];
        SharedRootInRange(g, preserveAllTensors, i, op.inputs[pos]);
        if !op.dataUnmodified {
          if refcounts[root] > 1 {
            continue;
          }
        }
        actualTensorId := actualTensorId[op.outputs[0] := root];
      }
    }

    /** Reference counts, early allocations and the first allocation queue. */
    method QueueEarlyTensors() returns (ok: bool)
      requires WellFormed(g)
      requires |allocNode| == |deallocNode| == |refcounts| == |g.tensors| && |nodesToTensors| == Slots(g)
      requires forall t :: IsTensor(g, t) ==>
                 allocNode[t] == deallocNode[t] == NODE_NOT_ASSIGNED && refcounts[t] == multiset(g.outputs)[t]
      requires forall i :: 0 <= i < Slots(g) ==> nodesToTensors[i] == {}
      modifies this`allocNode, this`refcounts, this`nodesToTensors
      ensures ok
      ensures |allocNode| == |refcounts| == |g.tensors| && |nodesToTensors| == Slots(g)
      ensures forall t :: IsTensor(g, t) ==> allocNode[t] == AllocNode(g, t, 0) && refcounts[t] == Bonus(g, t)
      ensures nodesToTensors[0] == Mentioned(g.variables + g.inputs)
      ensures forall i :: 0 < i < Slots(g) ==> nodesToTensors[i] == {}
    {
      hide UniqueProducers, InPlanOrder, PrivateTemporaries, InplaceOutputs;
      var early := g.variables + g.inputs;
      assert forall t :: t in early && t != OPTIONAL_TENSOR ==> IsTensor(g, t);
      assert multiset(early) == multiset(g.variables) + multiset(g.inputs);
      refcounts := CountMentions(refcounts, early);
      ok := AllocateEarly(early);
    }

    method AllocateEarly(early: seq<int>) returns (ok: bool)
      requires forall t :: t in early && t != OPTIONAL_TENSOR ==> IsTensor(g, t)
      requires |allocNode| == |deallocNode| == |g.tensors| && |nodesToTensors| == Slots(g)
      requires forall t :: IsTensor(g, t) ==> allocNode[t] == deallocNode[t] == NODE_NOT_ASSIGNED
      requires forall i :: 0 <= i < Slots(g) ==> nodesToTensors[i] == {}
      modifies this`allocNode, this`nodesToTensors
      ensures ok && |allocNode| == |g.tensors| && |nodesToTensors| == Slots(g)
      ensures forall t :: IsTensor(g, t) ==> allocNode[t] == if t in early then 0 else NODE_NOT_ASSIGNED
      ensures nodesToTensors[0] == Mentioned(early)
      ensures forall i :: 0 < i < Slots(g) ==> nodesToTensors[i] == {}
    {
      assert Mentioned(early[..0]) == {};
      for k := 0 to |early|
        invariant |allocNode| == |g.tensors| && |nodesToTensors| == Slots(g)
        invariant forall t :: IsTensor(g, t) ==> allocNode[t] == if t in early[..k] then 0 else NODE_NOT_ASSIGNED
        invariant nodesToTensors[0] == Mentioned(early[..k])
        invariant forall i :: 0 < i < Slots(g) ==> nodesToTensors[i] == {}
      {
        var t := early[k];
        MentionedSnoc(early, k);
        assert early[..k + 1] == early[..k] + [t];
        assert t in early;
        if t != OPTIONAL_TENSOR {
          ok := Allocate(0, t);
          if !ok {
            return;
          }
          nodesToTensors := nodesToTensors[0 := nodesToTensors[0] + {t}];
        }
      }
      ok := true;
      assert early[..|early|] == early;
    }

    /** Queues the outputs of node `i` for allocation. */
    method AllocateOutputs(i: int) returns (ok: bool)
      requires WellFormed(g) && IsOp(g, i)
      requires |allocNode| == |deallocNode| == |g.tensors| && |nodesToTensors| == Slots(g)
      requires forall t :: IsTensor(g, t) ==> allocNode[t] == AllocNode(g, t, i)
      requires forall t :: IsTensor(g, t) && allocNode[t] == NODE_NOT_ASSIGNED && Writes(g, i, t) ==>
                 deallocNode[t] == NODE_NOT_ASSIGNED
      modifies this`allocNode, this`nodesToTensors
      ensures ok
      ensures |allocNode| == |g.tensors| && |nodesToTensors| == Slots(g)
      ensures forall t :: IsTensor(g, t) ==> allocNode[t] == AllocNode(g, t, i + 1)
      ensures nodesToTensors[i] == old(nodesToTensors)[i] + Mentioned(g.ops[i].outputs)
      ensures forall j :: 0 <= j < Slots(g) && j != i ==> nodesToTensors[j] == old(nodesToTensors)[j]
    {
      hide AllocNode, UniqueProducers, InPlanOrder, PrivateTemporaries, InplaceOutputs;
      var outputs := g.ops[i].outputs;
      assert Mentioned(outputs[..0]) == {};
      for k := 0 to |outputs|
        invariant |allocNode| == |deallocNode| == |g.tensors| && |nodesToTensors| == Slots(g)
        invariant forall t :: IsTensor(g, t) ==>
                    allocNode[t] ==
                      if old(allocNode)[t] == NODE_NOT_ASSIGNED && t in outputs[..k] then i else old(allocNode)[t]
        invariant nodesToTensors[i] == old(nodesToTensors)[i] + Mentioned(outputs[..k])
        invariant forall j :: 0 <= j < Slots(g) && j != i ==> nodesToTensors[j] == old(nodesToTensors)[j]
      {
        var t := outputs[k];
        MentionedSnoc(outputs, k);
        assert outputs[..k + 1] == outputs[..k] + [t];
        if t != OPTIONAL_TENSOR {
          assert Writes(g, i, t);
          nodesToTensors := nodesToTensors[i := nodesToTensors[i] + {t}];
          ok := Allocate(i, t);
          if !ok {
            return;
          }
        }
      }
      ok := true;
      assert outputs[..|outputs|] == outputs;
      forall t | IsTensor(g, t) ensures allocNode[t] == AllocNode(g, t, i + 1) {
        AllocNext(g, t, i);
      }
    }

    /** Counts off one read of the buffer behind input `k` of node `i`. */
    method ReleaseInput(i: int, k: int, counts: seq<int>) returns (ok: bool, after: seq<int>)
      requires WellFormed(g) && IsOp(g, i) && !preserveAllTensors && 0 <= k < |g.ops[i].inputs|
      requires actualTensorId == AliasMap(g, preserveAllTensors)
      requires |allocNode| == |deallocNode| == |counts| == |g.tensors|
      requires forall t :: IsTensor(g, t) ==> allocNode[t] == AllocNode(g, t, i + 1)
      requires CountedOff(g, preserveAllTensors, actualTensorId, deallocNode, counts, i,
                          RootsOf(actualTensorId, g.ops[i].inputs)[..k])
      modifies this`deallocNode
      ensures ok && |deallocNode| == |after| == |g.tensors|
      ensures CountedOff(g, preserveAllTensors, actualTensorId, deallocNode, after, i,
                         RootsOf(actualTensorId, g.ops[i].inputs)[..k + 1])
    {
      hide AliasMap, AllocNode, UniqueProducers, InPlanOrder, PrivateTemporaries, InplaceOutputs, InRange, CountedOff;
      var input := g.ops[i].inputs[k];
      ghost var alias := actualTensorId;
      ghost var roots := RootsOf(alias, g.ops[i].inputs);
      assert roots[..k + 1] == roots[..k] + [roots[k]];
      assert roots[k] == Root(alias, input);
      AliasMapInRange(g, preserveAllTensors);
      ReadsRemain(g, alias, i, k);
      if input == OPTIONAL_TENSOR {
        CountOffOptional(g, preserveAllTensors, alias, deallocNode, counts, i, roots[..k]);
        return true, counts;
      }
      assert Reads(g, i, input);
      var root := if input in actualTensorId then actualTensorId[input] else input;
      RootAvailable(g, preserveAllTensors, i, input);
      AllocSettled(g, root, i + 1, |g.ops|);
      CountOffStep(g, preserveAllTensors, alias, deallocNode, counts, i, roots[..k], root);
      after := counts[root := counts[root] - 1];
      ok := true;
      if after[root] == 0 {
        ok := Deallocate(i, root);
      }
    }

    /** Counts off the reads of node `i` and releases the buffers it is the last to read. */
    method ReleaseInputs(i: int, counts: seq<int>) returns (ok: bool, after: seq<int>)
      requires WellFormed(g) && IsOp(g, i) && !preserveAllTensors
      requires actualTensorId == AliasMap(g, preserveAllTensors)
      requires |allocNode| == |deallocNode| == |counts| == |g.tensors|
      requires forall t :: IsTensor(g, t) ==> allocNode[t] == AllocNode(g, t, i + 1)
      requires CountedOff(g, preserveAllTensors, actualTensorId, deallocNode, counts, i, [])
      modifies this`deallocNode
      ensures ok && |deallocNode| == |after| == |g.tensors|
      ensures CountedOff(g, preserveAllTensors, actualTensorId, deallocNode, after, i + 1, [])
    {
      hide AliasMap, AllocNode, WellFormed, CountedOff;
      var n := |g.ops[i].inputs|;
      ghost var roots := RootsOf(actualTensorId, g.ops[i].inputs);
      after := counts;
      assert roots[..0] == [];
      for k := 0 to n
        invariant |deallocNode| == |after| == |g.tensors|
        invariant CountedOff(g, preserveAllTensors, actualTensorId, deallocNode, after, i, roots[..k])
      {
        ok, after := ReleaseInput(i, k, after);
        if !ok {
          return;
        }
      }
      ok := true;
      assert roots[..n] == roots;
      CountedOffNode(g, preserveAllTensors, actualTensorId, deallocNode, after, i);
    }

    /**
     One full planning pass.  None of its internal checks fails on a well-formed graph, and every
     vector comes out as `ArenaGraph` defines it.
     */
    method PlanAllocations() returns (ok: bool)
      requires WellFormed(g) && arena != persistentArena
      modifies this`allocNode, this`deallocNode, this`refcounts, this`nodesToTensors, this`actualTensorId, this`allocs
      modifies arena`active, arena`highWaterMark, arena`committed
      modifies persistentArena`active, persistentArena`highWaterMark, persistentArena`committed
      ensures ok && HasPlan()
      ensures |refcounts| == |g.tensors| && forall t :: IsTensor(g, t) ==> refcounts[t] == Refs(g, t)
      ensures allocs == seq(|g.tensors|, _ => NO_ALLOC) && Arenas() && Unused()
    {
      ResetAllocations();
      allocNode := seq(|g.tensors|, _ => NODE_NOT_ASSIGNED);
      deallocNode := seq(|g.tensors|, _ => NODE_NOT_ASSIGNED);
      nodesToTensors := seq(Slots(g), _ => {});
      var zeros := seq(|g.tensors|, _ => 0);
      refcounts := CountMentions(zeros, g.outputs);
      ok := QueueEarlyTensors();
      if !ok {
        return;
      }
      var counts := refcounts;
      refcounts := CountInputs(g, refcounts);
      IdentifyInPlaceTensors();
      AliasMapInRange(g, preserveAllTensors);
      counts := CountSharedInputs(g, actualTensorId, counts);
      hide AliasMap, UniqueProducers, InPlanOrder, PrivateTemporaries, InplaceOutputs, InRange, DeallocNode, Bonus,
        Refs;
      ok := WalkPlan(counts);
    }

    /** The main loop of `PlanAllocations`. */
    method WalkPlan(initial: seq<int>) returns (ok: bool)
      requires WellFormed(g)
      requires actualTensorId == AliasMap(g, preserveAllTensors)
      requires |allocNode| == |deallocNode| == |initial| == |g.tensors| && |nodesToTensors| == Slots(g)
      requires forall t :: IsTensor(g, t) ==> allocNode[t] == AllocNode(g, t, 0) && deallocNode[t] == NODE_NOT_ASSIGNED
      requires forall t :: IsTensor(g, t) ==> initial[t] == Bonus(g, t) + SharedUses(g, actualTensorId, t, |g.ops|)
      requires nodesToTensors[0] == Mentioned(g.variables + g.inputs)
      requires forall i :: 0 < i < Slots(g) ==> nodesToTensors[i] == {}
      modifies this`allocNode, this`deallocNode, this`nodesToTensors
      ensures ok && |allocNode| == |deallocNode| == |g.tensors| && |nodesToTensors| == Slots(g)
      ensures forall t :: IsTensor(g, t) ==> allocNode[t] == AllocNode(g, t, |g.ops|)
      ensures forall t :: IsTensor(g, t) ==> deallocNode[t] == DeallocNode(g, preserveAllTensors, actualTensorId, t)
      ensures forall i :: 0 <= i < Slots(g) ==> nodesToTensors[i] == QueuedAt(g, i)
    {
      hide AliasMap, WellFormed, CountedOff, AllocNode, DeallocNode, SharedUses, Bonus, QueuedSoFar, QueuedAt,
        Mentioned, Slots;
      CountedOffStart(g, preserveAllTensors, actualTensorId, deallocNode, initial);
      QueuedStart(g, nodesToTensors);
      var counts := initial;
      for i := 0 to |g.ops|
        invariant |allocNode| == |deallocNode| == |counts| == |g.tensors| && |nodesToTensors| == Slots(g)
        invariant forall t :: IsTensor(g, t) ==> allocNode[t] == AllocNode(g, t, i)
        invariant CountedOff(g, preserveAllTensors, actualTensorId, deallocNode, counts, i, [])
        invariant QueuedSoFar(g, nodesToTensors, i)
      {
        ghost var queues := nodesToTensors;
        CountedOffUnwritten(g, preserveAllTensors, deallocNode, counts, i);
        ok := AllocateOutputs(i);
        if !ok {
          return;
        }
        QueuedNext(g, queues, nodesToTensors, i);
        if !preserveAllTensors {
          ok, counts := ReleaseInputs(i, counts);
          if !ok {
            return;
          }
        } else {
          CountedOffPreserved(g, preserveAllTensors, actualTensorId, deallocNode, counts, i);
        }
      }
      ok := true;
      CountedOffEnd(g, preserveAllTensors, actualTensorId, deallocNode, counts);
      QueuedEnd(g, nodesToTensors);
    }

    /** Temporaries are in use during their node only. */
    method PlanTemporaries()
      requires WellFormed(g) && HasPlan()
      modifies this`allocNode, this`deallocNode, this`nodesToTensors
      ensures Scheduled()
    {
      hide AliasMap, AllocNode, DeallocNode, UniqueProducers, InPlanOrder, QueuedAt;
      forall t ensures TemporaryOf(g, t, 0) == -1 {
      }
      for i := 0 to |g.ops|
        invariant actualTensorId == AliasMap(g, preserveAllTensors)
        invariant |allocNode| == |deallocNode| == |g.tensors| && |nodesToTensors| == Slots(g)
        invariant forall t :: IsTensor(g, t) ==>
                    allocNode[t] == if TemporaryOf(g, t, i) >= 0 then TemporaryOf(g, t, i) else AllocNode(g, t, |g.ops|)
        invariant forall t :: IsTensor(g, t) ==>
                    deallocNode[t] == if TemporaryOf(g, t, i) >= 0 && !preserveAllTensors then TemporaryOf(g, t, i)
                                      else DeallocNode(g, preserveAllTensors, actualTensorId, t)
        invariant forall j :: 0 <= j < Slots(g) ==>
                    nodesToTensors[j] == QueuedAt(g, j) + (if j < i then Elems(g.ops[j].temporaries) else {})
      {
        PlanNodeTemporaries(i);
        assert forall t :: IsTensor(g, t) ==> (t in g.ops[i].temporaries <==> UsesTemporary(g, i, t));
      }
    }

    method PlanNodeTemporaries(i: int)
      requires InRange(g) && IsOp(g, i)
      requires |allocNode| == |deallocNode| == |g.tensors| && |nodesToTensors| == Slots(g)
      modifies this`allocNode, this`deallocNode, this`nodesToTensors
      ensures |allocNode| == |deallocNode| == |g.tensors| && |nodesToTensors| == Slots(g)
      ensures forall t :: IsTensor(g, t) ==>
                allocNode[t] == if t in g.ops[i].temporaries then i else old(allocNode)[t]
      ensures forall t :: IsTensor(g, t) ==>
                deallocNode[t] == if t in g.ops[i].temporaries && !preserveAllTensors then i else old(deallocNode)[t]
      ensures nodesToTensors[i] == old(nodesToTensors)[i] + Elems(g.ops[i].temporaries)
      ensures forall j :: 0 <= j < Slots(g) && j != i ==> nodesToTensors[j] == old(nodesToTensors)[j]
    {
      var temporaries := g.ops[i].temporaries;
      assert Elems(temporaries[..0]) == {};
      for k := 0 to |temporaries|
        invariant |allocNode| == |deallocNode| == |g.tensors| && |nodesToTensors| == Slots(g)
        invariant forall t :: IsTensor(g, t) ==>
                    allocNode[t] == if t in temporaries[..k] then i else old(allocNode)[t]
        invariant forall t :: IsTensor(g, t) ==>
                    deallocNode[t] == if t in temporaries[..k] && !preserveAllTensors then i else old(deallocNode)[t]
        invariant nodesToTensors[i] == old(nodesToTensors)[i] + Elems(temporaries[..k])
        invariant forall j :: 0 <= j < Slots(g) && j != i ==> nodesToTensors[j] == old(nodesToTensors)[j]
      {
        var t := temporaries[k];
        assert temporaries[..k + 1] == temporaries[..k] + [t];
        assert Elems(temporaries[..k + 1]) == Elems(temporaries[..k]) + {t};
        assert UsesTemporary(g, i, t);
        allocNode := allocNode[t := i];
        nodesToTensors := nodesToTensors[i := nodesToTensors[i] + {t}];
        if !preserveAllTensors {
          deallocNode := deallocNode[t := i];
        }
      }
      assert temporaries[..|temporaries|] == temporaries;
    }

    /** All queued tensors. */
    method GetTensorsToAllocate() returns (todo: set<int>)
      requires WellFormed(g) && Scheduled()
      ensures forall t :: IsTensor(g, t) ==> (t in todo <==> FirstNode(g, t) != NODE_NOT_ASSIGNED)
    {
      todo := {};
      for i := 0 to Slots(g)
        invariant forall t :: t in todo <==> exists j :: 0 <= j < i && t in nodesToTensors[j]
      {
        todo := todo + nodesToTensors[i];
      }
      forall t | IsTensor(g, t) ensures t in todo <==> FirstNode(g, t) != NODE_NOT_ASSIGNED {
        QueuedSomewhere(g, t);
        if t in todo {
          var j :| 0 <= j < Slots(g) && t in nodesToTensors[j];
          assert IsQueued(g, j, t);
        }
        if j :| 0 <= j < Slots(g) && IsQueued(g, j, t) {
          assert t in nodesToTensors[j];
        }
      }
    }

    /** The layout as it stands. */
    function CurrentLayout(): Layout
      reads this`actualTensorId, this`allocs, arena`highWaterMark, persistentArena`highWaterMark
    {
      Layout(actualTensorId, allocs, arena.highWaterMark, persistentArena.highWaterMark)
    }

    /** The queued tensors that may need memory. */
    method TensorsToPlace() returns (placed: set<int>)
      requires WellFormed(g) && Scheduled() && allocs == seq(|g.tensors|, _ => NO_ALLOC)
      ensures forall t :: t in placed <==> Requests(g, t)
    {
      hide WellFormed, FirstNode;
      var queued := GetTensorsToAllocate();
      placed := set t | t in queued && Planned(g, t) &&
                        (g.tensors[t].allocationType == ArenaRw ==> allocs[t].size < g.tensors[t].bytes);
    }

    /** Those tensors in a vector, in no particular order. */
    method ListRequests() returns (requests: seq<Request>)
      requires WellFormed(g) && Scheduled() && allocs == seq(|g.tensors|, _ => NO_ALLOC)
      ensures RequestsListed(g, preserveAllTensors, requests)
    {
      hide WellFormed, Requests, ListedSoFar, RequestOf, RequestsListed, FirstNode, LastNode, AliasMap;
      var rest := TensorsToPlace();
      requests := [];
      NothingListed(g, preserveAllTensors, rest);
      while rest != {}
        invariant ListedSoFar(g, preserveAllTensors, requests, rest)
        decreases |rest|
      {
        assert (forall x :: x !in rest) ==> rest == {};
        var t :| t in rest;
        ListedNext(g, preserveAllTensors, requests, rest, t);
        requests := requests + [Request(t, g.tensors[t].bytes, allocNode[t], deallocNode[t])];
        rest := rest - {t};
      }
      AllListed(g, preserveAllTensors, requests);
    }

    /** The order in which the tensors are placed. */
    method CreateTensorAllocationVector() returns (order: seq<Request>)
      requires WellFormed(g) && Scheduled() && allocs == seq(|g.tensors|, _ => NO_ALLOC)
      ensures RequestsListed(g, preserveAllTensors, order) && InPlacementOrder(order)
      ensures Sorted(RequestLe, order)
    {
      hide WellFormed, Requests, RequestsListed, Sorted;
      var requests := ListRequests();
      RequestLeIsOrder();
      order := Sort(RequestLe, requests);
      SameRequests(g, preserveAllTensors, requests, order);
      SortedIsPlacementOrder(order);
    }

    /** Requests memory for every tensor that owns its buffer, over the whole plan. */
    method CalculateAllocations(alignment: nat) returns (ok: bool, placed: set<int>)
      requires WellFormed(g) && Scheduled() && 0 < alignment <= arena.bufferAlignment
      requires alignment <= persistentArena.bufferAlignment
      requires Arenas() && Unused() && allocs == seq(|g.tensors|, _ => NO_ALLOC)
      modifies this`allocs, this`actualTensorId
      modifies arena`active, arena`highWaterMark, persistentArena`active, persistentArena`highWaterMark
      ensures ok && Arenas() && forall t :: t in placed <==> Requests(g, t)
      ensures OnlyMisfitsDropped(g, old(actualTensorId), actualTensorId, placed)
      ensures actualTensorId == KeptAliases(g, AliasMap(g, preserveAllTensors))
      ensures LaidOut(g, preserveAllTensors, CurrentLayout()) && LifelongBelow(g, preserveAllTensors, CurrentLayout())
      ensures Compact(g, CurrentLayout(), ArenaRw, arena.active, alignment, {})
      ensures Compact(g, CurrentLayout(), ArenaRwPersistent, persistentArena.active, alignment, {})
      ensures PlacedAsPlanned(g, CurrentLayout(), allocNode, deallocNode)
    {
      hide Compact, PlacedAsPlanned;
      hide AliasMap, FirstNode, LastNode, LayoutSoFar, LaidOut, Requests, RequestsListed, Waiting, LifelongFirst,
        BottomSoFar, LifelongBelow, RequestOf, PairwiseCompatible, SortedByOffset, Below, InRange, UniqueProducers,
        InPlanOrder, PrivateTemporaries, InplaceOutputs, UpdatedVariables;
      var order := CreateTensorAllocationVector();
      ghost var alias, bottom := actualTensorId, 0;
      AllWaiting(g, preserveAllTensors, order);
      LayoutStart(g, preserveAllTensors, alias, CurrentLayout(), Waiting(order, 0));
      BottomStart(g, preserveAllTensors, CurrentLayout(), alignment, Waiting(order, 0));
      CompactStart(g, CurrentLayout(), ArenaRw, alignment, Waiting(order, 0));
      CompactStart(g, CurrentLayout(), ArenaRwPersistent, alignment, Waiting(order, 0));
      ok := true;
      for k := 0 to |order|
        invariant Arenas() && ok
        invariant LayoutSoFar(g, preserveAllTensors, alias, CurrentLayout(), arena.active, persistentArena.active,
                              Waiting(order, k))
        invariant BottomSoFar(g, preserveAllTensors, CurrentLayout(), arena.active, alignment, Waiting(order, k),
                              bottom)
        invariant Compact(g, CurrentLayout(), ArenaRw, arena.active, alignment, Waiting(order, k))
        invariant Compact(g, CurrentLayout(), ArenaRwPersistent, persistentArena.active, alignment, Waiting(order, k))
      {
        NextWaiting(g, preserveAllTensors, order, k);
        RequestsTensor(g, order[k].tensor);
        ok, bottom := PlaceOrShare(alignment, order[k].tensor, alias, Waiting(order, k), bottom);
        if !ok {
          return;
        }
      }
      placed := set r | r in order :: r.tensor;
      NoneWaiting(order);
      PlacedAre(g, preserveAllTensors, order, placed);
      MisfitsDropped(g, alias, placed);
      LayoutEnd(g, preserveAllTensors, alias, CurrentLayout(), arena.active, persistentArena.active);
      BottomEnd(g, preserveAllTensors, CurrentLayout(), arena.active, alignment, bottom);
      LaidOutAsPlanned(g, preserveAllTensors, CurrentLayout(), allocNode, deallocNode);
    }

    /** One round of the layout loop. */
    method PlaceOrShare(
      alignment: nat, t: int, ghost alias: map<int, int>, ghost todo: set<int>, ghost bottom: nat)
      returns (ok: bool, ghost bottom': nat)
      requires t in todo && Requests(g, t) && |g.ops| < NODE_NOT_ASSIGNED && 0 < alignment <= arena.bufferAlignment
      requires alignment <= persistentArena.bufferAlignment && Arenas()
      requires |allocNode| == |deallocNode| == |g.tensors|
      requires allocNode[t] == FirstNode(g, t) && deallocNode[t] == LastNode(g, preserveAllTensors, t)
      requires LayoutSoFar(g, preserveAllTensors, alias, CurrentLayout(), arena.active, persistentArena.active, todo)
      requires BottomSoFar(g, preserveAllTensors, CurrentLayout(), arena.active, alignment, todo, bottom)
      requires LifelongFirst(g, preserveAllTensors, t, todo)
      requires Compact(g, CurrentLayout(), ArenaRw, arena.active, alignment, todo)
      requires Compact(g, CurrentLayout(), ArenaRwPersistent, persistentArena.active, alignment, todo)
      modifies this`allocs, this`actualTensorId
      modifies arena`active, arena`highWaterMark, persistentArena`active, persistentArena`highWaterMark
      ensures ok && Arenas()
      ensures LayoutSoFar(g, preserveAllTensors, alias, CurrentLayout(), arena.active, persistentArena.active,
                          todo - {t})
      ensures BottomSoFar(g, preserveAllTensors, CurrentLayout(), arena.active, alignment, todo - {t}, bottom')
      ensures Compact(g, CurrentLayout(), ArenaRw, arena.active, alignment, todo - {t})
      ensures Compact(g, CurrentLayout(), ArenaRwPersistent, persistentArena.active, alignment, todo - {t})
    {
      hide Compact;
      hide FirstNode, LastNode, LayoutSoFar, KeepsSharing, Compatible, SortedByOffset, PairwiseCompatible, Below,
        BottomSoFar, LifelongFirst, Placed;
      LayoutLength(g, preserveAllTensors, alias, CurrentLayout(), arena.active, persistentArena.active, todo, t);
      ghost var lay, active, persistent := CurrentLayout(), arena.active, persistentArena.active;
      if t in actualTensorId {
        var root := actualTensorId[t];
        var keeps := 0 <= root < |g.tensors| && g.tensors[root].allocationType == ArenaRw
                     && g.tensors[root].bytes == g.tensors[t].bytes;
        Sharing(g, t, root, keeps);
        if keeps {
          LayoutShare(g, preserveAllTensors, alias, lay, active, persistent, todo, t);
          BottomShare(g, preserveAllTensors, lay, active, alignment, todo, bottom, t);
          CompactShare(g, lay, ArenaRw, active, alignment, todo, t);
          CompactShare(g, lay, ArenaRwPersistent, persistent, alignment, todo, t);
          return true, bottom;
        }
        actualTensorId := actualTensorId - {t};
      }
      ghost var erased := CurrentLayout();
      ok := Place(alignment, t);
      PlacedErased(g, preserveAllTensors, lay, erased, active, persistent, t, alignment,
                   CurrentLayout(), arena.active, persistentArena.active);
      LayoutPlace(g, preserveAllTensors, alias, lay, active, persistent, todo, t, alignment,
                  CurrentLayout(), arena.active, persistentArena.active);
      bottom' := BottomPlace(g, preserveAllTensors, alias, lay, active, persistent, todo, bottom, t, alignment,
                             CurrentLayout(), arena.active, persistentArena.active);
      CompactPlace(g, preserveAllTensors, lay, ArenaRw, active, persistent, todo, t, alignment,
                   CurrentLayout(), arena.active, persistentArena.active);
      CompactPlace(g, preserveAllTensors, lay, ArenaRwPersistent, active, persistent, todo, t, alignment,
                   CurrentLayout(), arena.active, persistentArena.active);
    }

    /** Allocates a tensor that owns its buffer in the arena it belongs to. */
    method Place(alignment: nat, t: int) returns (ok: bool)
      requires Planned(g, t) && t !in actualTensorId && 0 < alignment <= arena.bufferAlignment
      requires alignment <= persistentArena.bufferAlignment && Arenas()
      requires |allocNode| == |deallocNode| == |allocs| == |g.tensors| && allocs[t] == NO_ALLOC
      requires allocNode[t] == FirstNode(g, t) && deallocNode[t] == LastNode(g, preserveAllTensors, t)
      requires g.tensors[t].allocationType == ArenaRw ==> g.tensors[t].bytes > 0
      modifies this`allocs
      modifies arena`active, arena`highWaterMark, persistentArena`active, persistentArena`highWaterMark
      ensures ok && Arenas()
      ensures Placed(g, preserveAllTensors, old(CurrentLayout()), old(arena.active), old(persistentArena.active), t,
                     alignment, CurrentLayout(), arena.active, persistentArena.active)
    {
      hide FirstNode, LastNode, Compatible, SortedByOffset, PairwiseCompatible, Below, GrewBy;
      ok := true;
      if g.tensors[t].allocationType == ArenaRw {
        var a;
        ok, a := arena.Allocate(alignment, g.tensors[t].bytes, t, allocNode[t], deallocNode[t]);
        allocs := allocs[t := a];
      }
      if g.tensors[t].allocationType == ArenaRwPersistent && allocs[t].size == 0 {
        if allocs[t].size < g.tensors[t].bytes {
          var a;
          ok, a := persistentArena.Allocate(alignment, g.tensors[t].bytes, t, allocNode[t], NODE_NOT_ASSIGNED);
          allocs := allocs[t := a];
        }
      }
    }

    /** Gives a tensor its data pointer, through its root if both are in the same arena. */
    method ResolveTensorAllocation(t: int) returns (ok: bool)
      requires IsTensor(g, t) && |allocs| == |data| == |g.tensors| && AliasesResolve(g, actualTensorId)
      requires arena.committed && persistentArena.committed
      requires forall u :: IsTensor(g, u) ==> FitsInto(g, allocs, u, arena.bufferSize, persistentArena.bufferSize)
      modifies this`data
      ensures ok && |data| == |g.tensors|
      ensures data[t] == Resolved(g, actualTensorId, allocs, old(data), t)
      ensures PointsRight(g, actualTensorId, allocs, old(data), t, data[t])
      ensures forall u :: IsTensor(g, u) && u != t ==>
                || data[u] == old(data)[u]
                || (u == Root(actualTensorId, t) && data[u] == Resolved(g, actualTensorId, allocs, old(data), u))
      decreases if t in actualTensorId then 1 else 0
    {
      ResolvedIs(g, actualTensorId, allocs, data, t);
      var root := if t in actualTensorId then actualTensorId[t] else t;
      assert FitsInto(g, allocs, t, arena.bufferSize, persistentArena.bufferSize);
      if root != t && SameArena(g, root, t) {
        ok := ResolveTensorAllocation(root);
        data := data[t := data[root]];
        return true;
      }
      if g.tensors[t].allocationType == ArenaRw {
        if allocs[t].size != 0 {
          var offset;
          ok, offset := arena.ResolveAlloc(allocs[t]);
          if ok {
            data := data[t := if offset.Some? then At(ReadWrite, offset.value) else Null];
          }
          return;
        }
      }
      if g.tensors[t].allocationType == ArenaRwPersistent {
        var offset;
        ok, offset := persistentArena.ResolveAlloc(allocs[t]);
        if ok {
          data := data[t := if offset.Some? then At(Persistent, offset.value) else Null];
        }
        return;
      }
      return true;
    }

    /** Resolves all tensors if a buffer has moved, and otherwise those just placed. */
    method ResolveAll(everything: bool, placed: set<int>) returns (ok: bool)
      requires |allocs| == |data| == |g.tensors| && AliasesResolve(g, actualTensorId)
      requires arena.committed && persistentArena.committed && forall t :: t in placed ==> IsTensor(g, t)
      requires forall u :: IsTensor(g, u) ==> FitsInto(g, allocs, u, arena.bufferSize, persistentArena.bufferSize)
      modifies this`data
      ensures ok && |data| == |g.tensors|
      ensures forall t :: IsTensor(g, t) ==>
                || data[t] == Resolved(g, actualTensorId, allocs, old(data), t)
                || (!everything && t !in placed && data[t] == old(data)[t])
    {
      hide FitsInto;
      ghost var before := data;
      var t := 0;
      while t < |g.tensors|
        invariant 0 <= t <= |g.tensors| && |data| == |g.tensors|
        invariant forall u :: IsTensor(g, u) ==>
                    data[u] == before[u] || data[u] == Resolved(g, actualTensorId, allocs, before, u)
        invariant forall u :: 0 <= u < t && (everything || u in placed) ==>
                    data[u] == Resolved(g, actualTensorId, allocs, before, u)
      {
        if everything || t in placed {
          ghost var now := data;
          ok := ResolveTensorAllocation(t);
          if !ok {
            return;
          }
          ResolvedAgain(g, actualTensorId, allocs, before, now, t);
          ResolvedAgain(g, actualTensorId, allocs, before, now, Root(actualTensorId, t));
        }
        t := t + 1;
      }
      ok := true;
    }

    /** `ExecuteAllocations` over the whole plan. */
    method ExecuteAllocations(alignment: nat, moves: bool, persistentMoves: bool) returns (ok: bool)
      requires WellFormed(g) && HasPlan() && 0 < alignment <= arena.bufferAlignment
      requires alignment <= persistentArena.bufferAlignment && |data| == |g.tensors|
      requires Arenas() && Unused() && allocs == seq(|g.tensors|, _ => NO_ALLOC)
      modifies this`allocNode, this`deallocNode, this`nodesToTensors, this`actualTensorId, this`allocs, this`data
      modifies arena, persistentArena
      ensures ok && Arenas() && |data| == |g.tensors|
      ensures actualTensorId == KeptAliases(g, AliasMap(g, preserveAllTensors)) && AliasesResolve(g, actualTensorId)
      ensures LaidOut(g, preserveAllTensors, CurrentLayout()) && LifelongBelow(g, preserveAllTensors, CurrentLayout())
      ensures Compact(g, CurrentLayout(), ArenaRw, arena.active, alignment, {})
      ensures Compact(g, CurrentLayout(), ArenaRwPersistent, persistentArena.active, alignment, {})
      ensures PlacedAsPlanned(g, CurrentLayout(), allocNode, deallocNode)
      ensures arena.bufferSize >= arena.highWaterMark && persistentArena.bufferSize >= persistentArena.highWaterMark
      ensures forall t :: IsTensor(g, t) ==>
                || data[t] == Resolved(g, actualTensorId, allocs, old(data), t)
                || (!Requests(g, t) && data[t] == old(data)[t])
      ensures (old(arena.bufferSize) == 0 || moves) && old(arena.bufferSize) < arena.highWaterMark ==>
                forall t :: IsTensor(g, t) ==> data[t] == Resolved(g, actualTensorId, allocs, old(data), t)
      ensures (old(persistentArena.bufferSize) == 0 || persistentMoves)
              && old(persistentArena.bufferSize) < persistentArena.highWaterMark ==>
                forall t :: IsTensor(g, t) ==> data[t] == Resolved(g, actualTensorId, allocs, old(data), t)
    {
      hide AliasMap, LaidOut, WellFormed, LifelongBelow, Compact, PlacedAsPlanned;
      PlanTemporaries();
      var placed;
      ok, placed := CalculateAllocations(alignment);
      if !ok {
        return;
      }
      KeptResolve(g, preserveAllTensors);
      ghost var lay := CurrentLayout();
      var reallocated := arena.Commit(moves);
      var persistentReallocated := persistentArena.Commit(persistentMoves);
      assert CurrentLayout() == lay;
      assert forall t :: t in placed ==> IsTensor(g, t);
      LaidOutFits(g, preserveAllTensors, lay, arena.bufferSize, persistentArena.bufferSize);
      ok := ResolveAll(reallocated || persistentReallocated, placed);
    }

    /** The state that `PlanAllocations` leaves. */
    ghost predicate HasPlan()
      reads this
    {
      && actualTensorId == AliasMap(g, preserveAllTensors)
      && |allocNode| == |deallocNode| == |g.tensors| && |nodesToTensors| == Slots(g)
      && (forall t :: IsTensor(g, t) ==> allocNode[t] == AllocNode(g, t, |g.ops|))
      && (forall t :: IsTensor(g, t) ==> deallocNode[t] == DeallocNode(g, preserveAllTensors, actualTensorId, t))
      && (forall i :: 0 <= i < Slots(g) ==> nodesToTensors[i] == QueuedAt(g, i))
    }

    /** The state in which buffers can be laid out. */
    ghost predicate Scheduled()
      reads this
    {
      && actualTensorId == AliasMap(g, preserveAllTensors)
      && |allocNode| == |deallocNode| == |g.tensors| && |nodesToTensors| == Slots(g)
      && (forall t :: IsTensor(g, t) ==> allocNode[t] == FirstNode(g, t))
      && (forall t :: IsTensor(g, t) ==> deallocNode[t] == LastNode(g, preserveAllTensors, t))
      && (forall i :: 0 <= i < Slots(g) ==>
            nodesToTensors[i] == QueuedAt(g, i) + (if i < |g.ops| then Elems(g.ops[i].temporaries) else {}))
    }
  }

  /** An allocation slot after `reset()`. */
  const NO_ALLOC := Alloc(0, 0, -1, -1, -1)

  ghost function KeptAliases(g: Graph, alias: map<int, int>): map<int, int> {
    map t | t in alias && (!Requests(g, t) || KeepsSharing(g, t, alias[t])) :: alias[t]
  }

  /** Of the aliases, only tensors that are placed lose theirs, and only if the root is not a fitting one. */
  ghost predicate OnlyMisfitsDropped(g: Graph, before: map<int, int>, after: map<int, int>, placed: set<int>) {
    && (forall t :: t in placed <==>
          && 0 <= t < |g.tensors| && FirstNode(g, t) != 0x7FFF_FFFF
          && (|| (g.tensors[t].allocationType == ArenaRw && g.tensors[t].bytes > 0)
              || g.tensors[t].allocationType == ArenaRwPersistent))
    && (forall t :: t in after ==> t in before && after[t] == before[t])
    && (forall t :: t in before ==>
          (t !in after <==>
             && t in placed
             && !(&& 0 <= before[t] < |g.tensors| && g.tensors[before[t]].allocationType == ArenaRw
                  && g.tensors[before[t]].bytes == g.tensors[t].bytes)))
  }

  lemma MisfitsDropped(g: Graph, alias: map<int, int>, placed: set<int>)
    requires forall t :: t in placed <==> Requests(g, t)
    ensures OnlyMisfitsDropped(g, alias, KeptAliases(g, alias), placed)
  {
    hide FirstNode;
  }

  /** The arenas as they are laid out: aliases kept, allocations, and the size each arena needs. */
  datatype Layout = Layout(alias: map<int, int>, allocs: seq<Alloc>, highWaterMark: nat, persistentMark: nat)

  /** The size of the arena that `t` belongs to. */
  function MarkFor(g: Graph, lay: Layout, t: int): nat
    requires IsTensor(g, t)
  {
    if g.tensors[t].allocationType == ArenaRw then lay.highWaterMark else lay.persistentMark
  }

  ghost predicate PlacedRight(g: Graph, preserveAll: bool, lay: Layout, t: int) {
    && IsTensor(g, t) && t < |lay.allocs|
    && var a := lay.allocs[t];
       && a == Alloc(a.offset, g.tensors[t].bytes, t, FirstNode(g, t), ReleaseNode(g, preserveAll, t))
       && a.offset + a.size <= MarkFor(g, lay, t)
  }

  predicate SameType(g: Graph, r: int, s: int) {
    IsTensor(g, r) && IsTensor(g, s) && g.tensors[r].allocationType == g.tensors[s].allocationType
  }

  /** `t` has been given memory of its own. */
  predicate Owns(g: Graph, lay: Layout, t: int) {
    WantsMemory(g, t) && t !in lay.alias
  }

  /**
   Every tensor that owns arena memory has it for its whole time of use, and tensors of one arena in
   use at the same node do not share bytes.
   */
  ghost predicate LaidOut(g: Graph, preserveAll: bool, lay: Layout) {
    && |lay.allocs| == |g.tensors|
    && (forall r :: Owns(g, lay, r) ==> PlacedRight(g, preserveAll, lay, r))
    && (forall r, s :: Owns(g, lay, r) && Owns(g, lay, s) && r != s && SameType(g, r, s) ==>
                         Compatible(lay.allocs[r], lay.allocs[s]))
    && (forall t :: IsTensor(g, t) && !Owns(g, lay, t) ==> lay.allocs[t] == NO_ALLOC)
  }

  /** The allocations of the arena that `t` belongs to. */
  function ActiveFor(g: Graph, active: seq<Alloc>, persistent: seq<Alloc>, t: int): seq<Alloc>
    requires IsTensor(g, t)
  {
    if g.tensors[t].allocationType == ArenaRw then active else persistent
  }

  /** The layout when all requests but those of `todo` have been dealt with. */
  ghost predicate LayoutSoFar(
    g: Graph, preserveAll: bool, alias0: map<int, int>, lay: Layout, active: seq<Alloc>, persistent: seq<Alloc>,
    todo: set<int>)
  {
    && |lay.allocs| == |g.tensors|
    && (forall t :: t in lay.alias <==>
          t in alias0 && (t in todo || !Requests(g, t) || KeepsSharing(g, t, alias0[t])))
    && (forall t :: t in lay.alias ==> t in alias0 && lay.alias[t] == alias0[t])
    && (forall t :: Owns(g, lay, t) && t !in todo ==>
          PlacedRight(g, preserveAll, lay, t) && lay.allocs[t] in ActiveFor(g, active, persistent, t))
    && (forall r, s :: Owns(g, lay, r) && r !in todo && Owns(g, lay, s) && s !in todo && r != s && SameType(g, r, s) ==>
                         Compatible(lay.allocs[r], lay.allocs[s]))
    && (forall t :: IsTensor(g, t) && !(Owns(g, lay, t) && t !in todo) ==> lay.allocs[t] == NO_ALLOC)
  }

  lemma LayoutStart(g: Graph, preserveAll: bool, alias: map<int, int>, lay: Layout, todo: set<int>)
    requires lay.allocs == seq(|g.tensors|, _ => NO_ALLOC) && lay.alias == alias
    requires forall t :: t in todo <==> Requests(g, t)
    ensures LayoutSoFar(g, preserveAll, alias, lay, [], [], todo)
  {
  }

  /** A tensor that is still to be placed has no memory yet. */
  lemma LayoutLength(
    g: Graph, preserveAll: bool, alias0: map<int, int>, lay: Layout, active: seq<Alloc>, persistent: seq<Alloc>,
    todo: set<int>, t: int)
    requires LayoutSoFar(g, preserveAll, alias0, lay, active, persistent, todo) && t in todo && IsTensor(g, t)
    ensures |lay.allocs| == |g.tensors| && lay.allocs[t] == NO_ALLOC
  {
  }

  lemma LayoutShare(
    g: Graph, preserveAll: bool, alias0: map<int, int>, lay: Layout, active: seq<Alloc>, persistent: seq<Alloc>,
    todo: set<int>, t: int)
    requires LayoutSoFar(g, preserveAll, alias0, lay, active, persistent, todo)
    requires t in todo && t in lay.alias && KeepsSharing(g, t, lay.alias[t])
    ensures LayoutSoFar(g, preserveAll, alias0, lay, active, persistent, todo - {t})
  {
    hide PlacedRight, Compatible, KeepsSharing, WantsMemory, Requests;
    assert forall u :: Owns(g, lay, u) && u !in todo - {t} <==> Owns(g, lay, u) && u !in todo;
  }

  /** An allocation for `t` joins one arena; the other stays as it is. */
  ghost predicate Joins(before: seq<Alloc>, after: seq<Alloc>, alignment: nat, a: Alloc) {
    && multiset(after) == multiset(before) + multiset{a}
    && (forall k :: 0 <= k < |before| ==> Compatible(before[k], a))
    && GrewBy(before, after, alignment, a)
  }

  /** The layout after `t` has been placed, in the arena it belongs to and if it has any bytes. */
  ghost predicate Placed(
    g: Graph, preserveAll: bool, lay: Layout, active: seq<Alloc>, persistent: seq<Alloc>, t: int, alignment: nat,
    lay': Layout, active': seq<Alloc>, persistent': seq<Alloc>)
  {
    && IsTensor(g, t) && |lay.allocs| == |lay'.allocs| == |g.tensors| && lay'.alias == lay.alias - {t}
    && lay.highWaterMark <= lay'.highWaterMark && lay.persistentMark <= lay'.persistentMark
    && lay'.allocs == lay.allocs[t := lay'.allocs[t]]
    && (if g.tensors[t].bytes == 0 then lay'.allocs == lay.allocs && active' == active && persistent' == persistent
        else
          && PlacedRight(g, preserveAll, lay', t)
          && Joins(ActiveFor(g, active, persistent, t), ActiveFor(g, active', persistent', t), alignment,
                   lay'.allocs[t])
          && (if g.tensors[t].allocationType == ArenaRw then persistent' == persistent else active' == active))
  }

  /** Erasing the alias first makes no difference. */
  lemma PlacedErased(
    g: Graph, preserveAll: bool, lay: Layout, erased: Layout, active: seq<Alloc>, persistent: seq<Alloc>, t: int,
    alignment: nat, lay': Layout, active': seq<Alloc>, persistent': seq<Alloc>)
    requires erased == lay || erased == lay.(alias := lay.alias - {t})
    requires Placed(g, preserveAll, erased, active, persistent, t, alignment, lay', active', persistent')
    ensures Placed(g, preserveAll, lay, active, persistent, t, alignment, lay', active', persistent')
  {
    hide PlacedRight, Joins;
    assert lay.alias - {t} - {t} == lay.alias - {t};
  }

  lemma LayoutPlace(
    g: Graph, preserveAll: bool, alias0: map<int, int>, lay: Layout, active: seq<Alloc>, persistent: seq<Alloc>,
    todo: set<int>, t: int, alignment: nat, lay': Layout, active': seq<Alloc>, persistent': seq<Alloc>)
    requires LayoutSoFar(g, preserveAll, alias0, lay, active, persistent, todo)
    requires t in todo && Requests(g, t) && (t in lay.alias ==> !KeepsSharing(g, t, lay.alias[t]))
    requires Placed(g, preserveAll, lay, active, persistent, t, alignment, lay', active', persistent')
    ensures LayoutSoFar(g, preserveAll, alias0, lay', active', persistent', todo - {t})
  {
    hide Compatible, KeepsSharing, FirstNode, LastNode, ReleaseNode, GrewBy;
    var a, bytes := lay'.allocs[t], g.tensors[t].bytes;
    forall u
      ensures Owns(g, lay', u) && u !in todo - {t} <==> (Owns(g, lay, u) && u !in todo) || (u == t && bytes > 0)
    {
    }
    if bytes > 0 {
      StillActive(ActiveFor(g, active, persistent, t), ActiveFor(g, active', persistent', t), a);
      forall u | Owns(g, lay, u) && u !in todo && SameType(g, u, t)
        ensures Compatible(lay.allocs[u], a) && Compatible(a, lay.allocs[u])
      {
        assert lay.allocs[u] in ActiveFor(g, active, persistent, t);
        CompatibleSymmetric(lay.allocs[u], a);
      }
    }
  }

  lemma LayoutEnd(
    g: Graph, preserveAll: bool, alias0: map<int, int>, lay: Layout, active: seq<Alloc>, persistent: seq<Alloc>)
    requires LayoutSoFar(g, preserveAll, alias0, lay, active, persistent, {})
    ensures lay.alias == KeptAliases(g, alias0) && LaidOut(g, preserveAll, lay)
  {
    hide Compatible, KeepsSharing, PlacedRight;
    var kept := KeptAliases(g, alias0);
    forall t ensures t in lay.alias <==> t in kept {
      assert t in lay.alias <==> t in alias0 && (t in {} || !Requests(g, t) || KeepsSharing(g, t, alias0[t]));
    }
    assert lay.alias.Keys == kept.Keys;
  }

  lemma Sharing(g: Graph, t: int, root: int, keeps: bool)
    requires IsTensor(g, t)
    requires keeps <==> IsTensor(g, root) && g.tensors[root].allocationType == ArenaRw
                        && g.tensors[root].bytes == g.tensors[t].bytes
    ensures KeepsSharing(g, t, root) <==> keeps
  {
  }

  lemma StillActive(before: seq<Alloc>, after: seq<Alloc>, a: Alloc)
    requires multiset(after) == multiset(before) + multiset{a}
    ensures a in after && forall b :: b in before ==> b in after
  {
    assert a in multiset(after);
    forall b | b in before ensures b in after { assert b in multiset(after); }
  }

  lemma CompatibleSymmetric(a: Alloc, b: Alloc)
    requires Compatible(a, b)
    ensures Compatible(b, a)
  {
  }

  // ---------------------------------------------------------------- the order of placement

  /** What the placement order looks at. */
  datatype Request = Request(tensor: int, bytes: nat, firstNode: int, lastNode: int)

  /** In use from the first node to the end, and never released. */
  predicate WholeRun(firstNode: int, lastNode: int) {
    firstNode == 0 && lastNode == NODE_NOT_ASSIGNED
  }

  /** `tensor_compare`. */
  predicate RequestBefore(a: Request, b: Request) {
    if WholeRun(a.firstNode, a.lastNode) then WholeRun(b.firstNode, b.lastNode) ==> a.tensor < b.tensor
    else if WholeRun(b.firstNode, b.lastNode) then false
    else if a.bytes != b.bytes then a.bytes > b.bytes
    else a.firstNode < b.firstNode
  }

  predicate RequestLe(a: Request, b: Request) { !RequestBefore(b, a) }

  /**
   What is in use from the first node to the end comes first, by index; then come larger tensors before
   smaller ones, and of those of one size the ones in use earlier.
   */
  ghost predicate InPlacementOrder(order: seq<Request>) {
    forall i, j :: 0 <= i < j < |order| ==>
      var a, b := order[i], order[j];
      if a.firstNode == 0 && a.lastNode == 0x7FFF_FFFF then
        b.firstNode == 0 && b.lastNode == 0x7FFF_FFFF ==> a.tensor <= b.tensor
      else
        && !(b.firstNode == 0 && b.lastNode == 0x7FFF_FFFF)
        && a.bytes >= b.bytes && (a.bytes == b.bytes ==> a.firstNode <= b.firstNode)
  }

  lemma SortedIsPlacementOrder(order: seq<Request>)
    requires Sorted(RequestLe, order)
    ensures InPlacementOrder(order)
  {
    forall i, j | 0 <= i < j < |order| ensures RequestLe(order[i], order[j]) {}
  }

  lemma RequestLeIsOrder()
    ensures TotalPreorder(RequestLe)
  {
  }

  function RequestOf(g: Graph, preserveAll: bool, t: int): Request {
    Request(t, if IsTensor(g, t) then g.tensors[t].bytes else 0, FirstNode(g, t), LastNode(g, preserveAll, t))
  }

  /** Every request once. */
  ghost predicate RequestsListed(g: Graph, preserveAll: bool, requests: seq<Request>) {
    && (forall t :: Requests(g, t) ==> RequestOf(g, preserveAll, t) in requests)
    && (forall r :: r in requests ==> Requests(g, r.tensor) && r == RequestOf(g, preserveAll, r.tensor))
    && (forall a, b :: 0 <= a < b < |requests| ==> requests[a] != requests[b])
  }

  /** Every request once, but for those of `rest`. */
  ghost predicate ListedSoFar(g: Graph, preserveAll: bool, requests: seq<Request>, rest: set<int>) {
    && (forall t :: t in rest ==> Requests(g, t))
    && (forall t :: Requests(g, t) ==> t in rest || RequestOf(g, preserveAll, t) in requests)
    && (forall r :: r in requests ==>
          Requests(g, r.tensor) && r == RequestOf(g, preserveAll, r.tensor) && r.tensor !in rest)
    && (forall a, b :: 0 <= a < b < |requests| ==> requests[a] != requests[b])
  }

  lemma NothingListed(g: Graph, preserveAll: bool, rest: set<int>)
    requires forall t :: t in rest <==> Requests(g, t)
    ensures ListedSoFar(g, preserveAll, [], rest)
  {
  }

  lemma RequestsTensor(g: Graph, t: int)
    requires Requests(g, t)
    ensures IsTensor(g, t)
  {
  }

  predicate Lifelong(g: Graph, preserveAll: bool, t: int) {
    WholeRun(FirstNode(g, t), LastNode(g, preserveAll, t))
  }

  lemma RequestTensor(g: Graph, preserveAll: bool, t: int)
    ensures var r := RequestOf(g, preserveAll, t);
            r.tensor == t && (WholeRun(r.firstNode, r.lastNode) <==> Lifelong(g, preserveAll, t))
  {
  }

  lemma ListedNext(g: Graph, preserveAll: bool, requests: seq<Request>, rest: set<int>, t: int)
    requires ListedSoFar(g, preserveAll, requests, rest) && t in rest
    ensures IsTensor(g, t)
    ensures RequestOf(g, preserveAll, t) == Request(t, g.tensors[t].bytes, FirstNode(g, t), LastNode(g, preserveAll, t))
    ensures ListedSoFar(g, preserveAll, requests + [RequestOf(g, preserveAll, t)], rest - {t})
  {
    hide FirstNode, LastNode;
    RequestsTensor(g, t);
    RequestTensor(g, preserveAll, t);
    hide Requests, RequestOf;
    assert forall k :: 0 <= k < |requests| ==> requests[k] in requests;
  }

  lemma AllListed(g: Graph, preserveAll: bool, requests: seq<Request>)
    requires ListedSoFar(g, preserveAll, requests, {})
    ensures RequestsListed(g, preserveAll, requests)
  {
    hide Requests, RequestOf;
  }

  lemma {:induction false} OnceEach(s: seq<Request>, x: Request)
    requires forall a, b :: 0 <= a < b < |s| ==> s[a] != s[b]
    ensures multiset(s)[x] <= 1
  {
    if s != [] {
      var k := |s| - 1;
      assert s == s[..k] + [s[k]];
      OnceEach(s[..k], x);
      assert s[k] !in s[..k];
    }
  }

  lemma TwiceCounts(s: seq<Request>, a: nat, b: nat)
    requires a < b < |s| && s[a] == s[b]
    ensures multiset(s)[s[a]] >= 2
  {
    assert s == s[..b] + [s[b]] + s[b + 1..];
    assert s[..b][a] == s[a];
  }

  lemma SameRequests(g: Graph, preserveAll: bool, requests: seq<Request>, order: seq<Request>)
    requires RequestsListed(g, preserveAll, requests) && multiset(order) == multiset(requests)
    ensures RequestsListed(g, preserveAll, order)
  {
    hide Requests, RequestOf;
    forall r ensures r in order <==> r in requests {
      assert r in order <==> r in multiset(order);
    }
    forall a, b | 0 <= a < b < |order| ensures order[a] != order[b] {
      if order[a] == order[b] {
        TwiceCounts(order, a, b);
        OnceEach(requests, order[a]);
      }
    }
  }

  /** The tensors whose turn has not come. */
  function Waiting(order: seq<Request>, k: nat): set<int>
    requires k <= |order|
  {
    set j | k <= j < |order| :: order[j].tensor
  }

  /** If `t` is not in use all the time, nothing that waits is. */
  ghost predicate LifelongFirst(g: Graph, preserveAll: bool, t: int, todo: set<int>) {
    !Lifelong(g, preserveAll, t) ==> forall u :: u in todo ==> !Lifelong(g, preserveAll, u)
  }

  lemma AllWaiting(g: Graph, preserveAll: bool, order: seq<Request>)
    requires RequestsListed(g, preserveAll, order)
    ensures forall t :: t in Waiting(order, 0) <==> Requests(g, t)
  {
    hide Requests, RequestOf;
    forall t ensures t in Waiting(order, 0) <==> Requests(g, t) {
      if Requests(g, t) {
        var j :| 0 <= j < |order| && order[j] == RequestOf(g, preserveAll, t);
        assert order[j].tensor == t by { RequestTensor(g, preserveAll, t); }
      }
      if t in Waiting(order, 0) {
        var j :| 0 <= j < |order| && order[j].tensor == t;
        assert order[j] in order;
      }
    }
  }

  lemma NextWaiting(g: Graph, preserveAll: bool, order: seq<Request>, k: nat)
    requires RequestsListed(g, preserveAll, order) && Sorted(RequestLe, order) && k < |order|
    ensures order[k].tensor in Waiting(order, k) && Requests(g, order[k].tensor)
    ensures Waiting(order, k + 1) == Waiting(order, k) - {order[k].tensor}
    ensures LifelongFirst(g, preserveAll, order[k].tensor, Waiting(order, k))
  {
    hide Requests, RequestOf, Lifelong;
    forall j | 0 <= j < |order|
      ensures order[j] == RequestOf(g, preserveAll, order[j].tensor)
      ensures WholeRun(order[j].firstNode, order[j].lastNode) <==> Lifelong(g, preserveAll, order[j].tensor)
    {
      assert order[j] in order;
      RequestTensor(g, preserveAll, order[j].tensor);
    }
    assert order[k] in order;
    forall j | k < j < |order| ensures order[j].tensor != order[k].tensor && RequestLe(order[k], order[j]) {
      assert order[k] != order[j];
    }
  }

  lemma NoneWaiting(order: seq<Request>)
    ensures Waiting(order, |order|) == {}
  {
  }

  lemma PlacedAre(g: Graph, preserveAll: bool, order: seq<Request>, placed: set<int>)
    requires RequestsListed(g, preserveAll, order) && placed == set r | r in order :: r.tensor
    ensures forall t :: t in placed <==> Requests(g, t)
  {
    hide Requests, RequestOf;
    forall t ensures t in placed <==> Requests(g, t) {
      if Requests(g, t) {
        RequestTensor(g, preserveAll, t);
        assert RequestOf(g, preserveAll, t) in order;
      }
    }
  }

  /** Persistent tensors share no bytes with one another, whenever they are in use. */
  lemma PersistentApart(g: Graph, preserveAll: bool, lay: Layout, r: int, s: int)
    requires |g.ops| < NODE_NOT_ASSIGNED && LaidOut(g, preserveAll, lay) && Owns(g, lay, r) && Owns(g, lay, s) && r != s
    requires g.tensors[r].allocationType == g.tensors[s].allocationType == ArenaRwPersistent
    ensures var a, b := lay.allocs[r], lay.allocs[s]; a.offset + a.size <= b.offset || b.offset + b.size <= a.offset
  {
    hide FirstNode, LastNode;
    assert PlacedRight(g, preserveAll, lay, r) && PlacedRight(g, preserveAll, lay, s);
    FirstAtMost(g, r);
    FirstAtMost(g, s);
  }

  /** Owners have their bytes for the interval that was planned, or for good, and nobody else has any. */
  ghost predicate PlacedAsPlanned(g: Graph, lay: Layout, allocNode: seq<int>, deallocNode: seq<int>) {
    && |lay.allocs| == |allocNode| == |deallocNode| == |g.tensors|
    && (forall t :: 0 <= t < |g.tensors| ==>
          var x, a := g.tensors[t], lay.allocs[t];
          if (x.allocationType == ArenaRw || x.allocationType == ArenaRwPersistent)
             && x.bytes > 0 && allocNode[t] != 0x7FFF_FFFF && t !in lay.alias
          then
            && a.tensor == t && a.size == x.bytes && a.firstNode == allocNode[t]
            && a.lastNode == (if x.allocationType == ArenaRw then deallocNode[t] else 0x7FFF_FFFF)
          else a.size == 0)
  }

  lemma PlacedRightIs(g: Graph, preserveAll: bool, lay: Layout, t: int)
    requires PlacedRight(g, preserveAll, lay, t)
    ensures IsTensor(g, t) && t < |lay.allocs|
    ensures var a := lay.allocs[t];
            && a.tensor == t && a.size == g.tensors[t].bytes && a.firstNode == FirstNode(g, t)
            && a.lastNode ==
                 if g.tensors[t].allocationType == ArenaRw then LastNode(g, preserveAll, t) else NODE_NOT_ASSIGNED
  {
    hide FirstNode, LastNode;
  }

  lemma LaidOutAsPlanned(g: Graph, preserveAll: bool, lay: Layout, allocNode: seq<int>, deallocNode: seq<int>)
    requires LaidOut(g, preserveAll, lay) && |allocNode| == |deallocNode| == |g.tensors|
    requires forall t :: IsTensor(g, t) ==> allocNode[t] == FirstNode(g, t)
    requires forall t :: IsTensor(g, t) ==> deallocNode[t] == LastNode(g, preserveAll, t)
    ensures PlacedAsPlanned(g, lay, allocNode, deallocNode)
  {
    hide FirstNode, LastNode, Compatible, PlacedRight;
    forall t | 0 <= t < |g.tensors|
      ensures Owns(g, lay, t) ==> PlacedRight(g, preserveAll, lay, t)
      ensures !Owns(g, lay, t) ==> lay.allocs[t] == NO_ALLOC
      ensures Owns(g, lay, t) <==>
                && (g.tensors[t].allocationType == ArenaRw || g.tensors[t].allocationType == ArenaRwPersistent)
                && g.tensors[t].bytes > 0 && allocNode[t] != 0x7FFF_FFFF && t !in lay.alias
    {
      assert IsTensor(g, t);
    }
    hide LaidOut, Owns;
    forall t | 0 <= t < |g.tensors| && Owns(g, lay, t)
      ensures lay.allocs[t].tensor == t && lay.allocs[t].size == g.tensors[t].bytes
      ensures lay.allocs[t].firstNode == allocNode[t]
      ensures lay.allocs[t].lastNode ==
              if g.tensors[t].allocationType == ArenaRw then deallocNode[t] else 0x7FFF_FFFF
    {
      PlacedRightIs(g, preserveAll, lay, t);
    }
  }

  // ---------------------------------------------------------------- no holes

  /** `t` owns memory in the arena for tensors of this type, and has had its turn. */
  predicate HasPlaceIn(g: Graph, lay: Layout, kind: AllocationType, todo: set<int>, t: int) {
    Owns(g, lay, t) && t !in todo && g.tensors[t].allocationType == kind
  }

  /**
   The arena holds the allocations of its owners and nothing else, and each of them begins at zero or right
   behind another one that is in use meanwhile.
   */
  ghost predicate Compact(
    g: Graph, lay: Layout, kind: AllocationType, active: seq<Alloc>, alignment: nat, todo: set<int>)
  {
    && |lay.allocs| == |g.tensors|
    && (forall t :: HasPlaceIn(g, lay, kind, todo, t) ==>
          var a := lay.allocs[t]; a in active && Justified(active, alignment, a.firstNode, a.lastNode, a.offset))
    && (forall a :: a in active ==> HasPlaceIn(g, lay, kind, todo, a.tensor) && lay.allocs[a.tensor] == a)
  }

  lemma CompactStart(g: Graph, lay: Layout, kind: AllocationType, alignment: nat, todo: set<int>)
    requires |lay.allocs| == |g.tensors| && forall t :: t in todo <==> Requests(g, t)
    ensures Compact(g, lay, kind, [], alignment, todo)
  {
    hide FirstNode;
  }

  lemma CompactShare(
    g: Graph, lay: Layout, kind: AllocationType, active: seq<Alloc>, alignment: nat, todo: set<int>, t: int)
    requires Compact(g, lay, kind, active, alignment, todo) && t in lay.alias
    ensures Compact(g, lay, kind, active, alignment, todo - {t})
  {
    hide WantsMemory, Justified;
    assert forall u :: HasPlaceIn(g, lay, kind, todo - {t}, u) <==> HasPlaceIn(g, lay, kind, todo, u);
  }

  lemma JustifiedAmongMore(
    before: seq<Alloc>, after: seq<Alloc>, alignment: nat, firstNode: int, lastNode: int, offset: nat)
    requires Justified(before, alignment, firstNode, lastNode, offset) && forall a :: a in before ==> a in after
    ensures Justified(after, alignment, firstNode, lastNode, offset)
  {
    if offset != 0 {
      var k :| 0 <= k < |before| && before[k].firstNode <= lastNode && firstNode <= before[k].lastNode
               && before[k].offset + before[k].size <= offset < before[k].offset + before[k].size + alignment;
      assert before[k] in after;
    }
  }

  lemma JoinsIs(before: seq<Alloc>, after: seq<Alloc>, alignment: nat, a: Alloc)
    requires Joins(before, after, alignment, a)
    ensures Justified(before, alignment, a.firstNode, a.lastNode, a.offset)
    ensures forall b :: b in after <==> b in before || b == a
  {
    hide Justified, ChosenOffset;
    var pos: nat :| GrewAt(before, after, alignment, a, pos);
    ChosenIsJustified(before, alignment, a.size, a.firstNode, a.lastNode);
    forall b ensures b in after <==> b in before || b == a {
      assert b in after <==> b in multiset(after);
      assert b in before <==> b in multiset(before);
    }
  }

  lemma CompactPlace(
    g: Graph, preserveAll: bool, lay: Layout, kind: AllocationType, active: seq<Alloc>, persistent: seq<Alloc>,
    todo: set<int>, t: int, alignment: nat, lay': Layout, active': seq<Alloc>, persistent': seq<Alloc>)
    requires kind == ArenaRw || kind == ArenaRwPersistent
    requires Compact(g, lay, kind, if kind == ArenaRw then active else persistent, alignment, todo)
    requires t in todo && Requests(g, t)
    requires Placed(g, preserveAll, lay, active, persistent, t, alignment, lay', active', persistent')
    ensures Compact(g, lay', kind, if kind == ArenaRw then active' else persistent', alignment, todo - {t})
  {
    hide Joins, Justified, FirstNode, LastNode, ReleaseNode;
    var before := if kind == ArenaRw then active else persistent;
    var after := if kind == ArenaRw then active' else persistent';
    var a, joins := lay'.allocs[t], g.tensors[t].bytes > 0 && g.tensors[t].allocationType == kind;
    forall u
      ensures HasPlaceIn(g, lay', kind, todo - {t}, u) <==> HasPlaceIn(g, lay, kind, todo, u) || (u == t && joins)
    {
    }
    if joins { JoinsIs(before, after, alignment, a); }
    forall u | HasPlaceIn(g, lay, kind, todo, u)
      ensures u != t && lay'.allocs[u] == lay.allocs[u]
      ensures var b := lay.allocs[u]; b in after && Justified(after, alignment, b.firstNode, b.lastNode, b.offset)
    {
      var b := lay.allocs[u];
      assert b in before && Justified(before, alignment, b.firstNode, b.lastNode, b.offset);
      JustifiedAmongMore(before, after, alignment, b.firstNode, b.lastNode, b.offset);
    }
    if joins { JustifiedAmongMore(before, after, alignment, a.firstNode, a.lastNode, a.offset); }
  }

  // ---------------------------------------------------------------- what is in use all the time lies below

  predicate InReadWrite(g: Graph, lay: Layout, t: int) {
    Owns(g, lay, t) && g.tensors[t].allocationType == ArenaRw
  }

  /**
   Tensors of the read-write arena that are in use all the time lie at its beginning: everything else is
   above all of them.
   */
  ghost predicate LifelongBelow(g: Graph, preserveAll: bool, lay: Layout) {
    && |lay.allocs| == |g.tensors|
    && (forall r, s :: InReadWrite(g, lay, r) && InReadWrite(g, lay, s)
                       && Lifelong(g, preserveAll, r) && !Lifelong(g, preserveAll, s) ==>
          lay.allocs[r].offset + lay.allocs[r].size <= lay.allocs[s].offset)
  }

  /**
   The first `n` allocations are a stack of all those in use all the time, and the others lie above it;
   it is all there is as long as one of those is waiting.
   */
  ghost predicate BottomSoFar(
    g: Graph, preserveAll: bool, lay: Layout, active: seq<Alloc>, alignment: nat, todo: set<int>, n: nat)
  {
    && |lay.allocs| == |g.tensors| && Stacked(active, n, alignment)
    && (forall k :: 0 <= k < n ==> WholeRun(active[k].firstNode, active[k].lastNode))
    && (forall r :: InReadWrite(g, lay, r) && r !in todo && Lifelong(g, preserveAll, r) ==>
          lay.allocs[r] in active[..n])
    && (forall s :: InReadWrite(g, lay, s) && s !in todo && !Lifelong(g, preserveAll, s) ==>
          Top(active, n) <= lay.allocs[s].offset)
    && ((exists t :: t in todo && Lifelong(g, preserveAll, t)) ==> n == |active|)
  }

  lemma BottomStart(g: Graph, preserveAll: bool, lay: Layout, alignment: nat, todo: set<int>)
    requires lay.allocs == seq(|g.tensors|, _ => NO_ALLOC) && alignment > 0
    requires forall t :: t in todo <==> Requests(g, t)
    ensures BottomSoFar(g, preserveAll, lay, [], alignment, todo, 0)
  {
    hide Lifelong, FirstNode;
  }

  lemma BottomShare(
    g: Graph, preserveAll: bool, lay: Layout, active: seq<Alloc>, alignment: nat, todo: set<int>, n: nat, t: int)
    requires BottomSoFar(g, preserveAll, lay, active, alignment, todo, n) && t in lay.alias
    ensures BottomSoFar(g, preserveAll, lay, active, alignment, todo - {t}, n)
  {
    hide Lifelong, Stacked, WantsMemory;
  }

  /** A tensor is placed outside the read-write arena, or needs no place. */
  lemma BottomStays(
    g: Graph, preserveAll: bool, lay: Layout, active: seq<Alloc>, alignment: nat, todo: set<int>, n: nat, t: int,
    lay': Layout)
    requires BottomSoFar(g, preserveAll, lay, active, alignment, todo, n)
    requires IsTensor(g, t) && |lay'.allocs| == |g.tensors| && lay'.alias == lay.alias - {t}
    requires g.tensors[t].bytes == 0 || g.tensors[t].allocationType != ArenaRw
    requires forall u :: IsTensor(g, u) && u != t ==> lay'.allocs[u] == lay.allocs[u]
    ensures BottomSoFar(g, preserveAll, lay', active, alignment, todo - {t}, n)
  {
    hide Lifelong, Stacked, FirstNode;
    assert forall u :: InReadWrite(g, lay', u) ==> u != t && InReadWrite(g, lay, u) && IsTensor(g, u);
  }

  lemma StackFits(active: seq<Alloc>, n: nat, alignment: nat)
    requires Stacked(active, n, alignment)
    ensures n <= |active|
  {
  }

  lemma {:induction false} AllocAtMost(g: Graph, t: int, i: nat)
    requires i <= |g.ops| < NODE_NOT_ASSIGNED
    ensures AllocNode(g, t, i) <= NODE_NOT_ASSIGNED
  {
    if i > 0 { AllocAtMost(g, t, i - 1); }
  }

  lemma FirstAtMost(g: Graph, t: int)
    requires |g.ops| < NODE_NOT_ASSIGNED
    ensures FirstNode(g, t) <= NODE_NOT_ASSIGNED
  {
    TemporaryOfIs(g, t, |g.ops|);
    AllocAtMost(g, t, |g.ops|);
  }

  /** Everything is in use together with what is in use all the time. */
  lemma OverlapsBottom(
    g: Graph, preserveAll: bool, lay: Layout, active: seq<Alloc>, alignment: nat, todo: set<int>, n: nat, t: int)
    requires |g.ops| < NODE_NOT_ASSIGNED && BottomSoFar(g, preserveAll, lay, active, alignment, todo, n)
    ensures AllOverlap(active, n, FirstNode(g, t), LastNode(g, preserveAll, t))
  {
    hide Lifelong, Stacked, AliasMap;
    TemporaryOfIs(g, t, |g.ops|);
    AllocAtMost(g, t, |g.ops|);
    assert n <= |active| by { StackFits(active, n, alignment); }
  }

  /** While something in use all the time is waiting, nothing else has been placed. */
  lemma OnlyLifelongSoFar(
    g: Graph, preserveAll: bool, alias0: map<int, int>, lay: Layout, active: seq<Alloc>, persistent: seq<Alloc>,
    alignment: nat, todo: set<int>, n: nat, s: int)
    requires LayoutSoFar(g, preserveAll, alias0, lay, active, persistent, todo)
    requires BottomSoFar(g, preserveAll, lay, active, alignment, todo, n) && n == |active|
    requires InReadWrite(g, lay, s) && s !in todo
    ensures Lifelong(g, preserveAll, s)
  {
    hide Lifelong, FirstNode, LastNode, Compatible, Stacked;
    assert lay.allocs[s] in active && lay.allocs[s].size > 0;
    var k :| 0 <= k < |active| && active[k] == lay.allocs[s];
    StackTop(active, n, alignment, k);
  }

  /** A tensor in use all the time goes on top of the stack. */
  lemma BottomGrows(
    g: Graph, preserveAll: bool, alias0: map<int, int>, lay: Layout, active: seq<Alloc>, persistent: seq<Alloc>,
    todo: set<int>, n: nat, t: int, alignment: nat, lay': Layout, active': seq<Alloc>)
    requires |g.ops| < NODE_NOT_ASSIGNED && t in todo && IsTensor(g, t) && Lifelong(g, preserveAll, t)
    requires LayoutSoFar(g, preserveAll, alias0, lay, active, persistent, todo)
    requires BottomSoFar(g, preserveAll, lay, active, alignment, todo, n)
    requires |lay'.allocs| == |g.tensors| && lay'.alias == lay.alias - {t}
    requires forall u :: IsTensor(g, u) && u != t ==> lay'.allocs[u] == lay.allocs[u]
    requires var a := lay'.allocs[t];
             a.size > 0 && a.firstNode == FirstNode(g, t) && a.lastNode == LastNode(g, preserveAll, t)
             && GrewBy(active, active', alignment, a)
    ensures BottomSoFar(g, preserveAll, lay', active', alignment, todo - {t}, n + 1)
  {
    hide Stacked, FirstNode, LastNode, GrewBy, LayoutSoFar, Lifelong;
    OverlapsBottom(g, preserveAll, lay, active, alignment, todo, n, t);
    StackFits(active, n, alignment);
    assert n == |active|;
    StackGrows(active, active', alignment, lay'.allocs[t], n);
    assert WholeRun(lay'.allocs[t].firstNode, lay'.allocs[t].lastNode) by { RequestTensor(g, preserveAll, t); }
    forall s | InReadWrite(g, lay, s) && s !in todo ensures Lifelong(g, preserveAll, s) {
      OnlyLifelongSoFar(g, preserveAll, alias0, lay, active, persistent, alignment, todo, n, s);
    }
    forall k | 0 <= k < n ensures active'[k] == active[k] {
      assert active'[..n][k] == active[..n][k];
    }
    forall r | InReadWrite(g, lay', r) && r !in todo - {t} && Lifelong(g, preserveAll, r)
      ensures lay'.allocs[r] in active'[..n + 1]
    {
      if r == t {
        assert active'[..n + 1][n] == lay'.allocs[t];
      } else {
        var k :| 0 <= k < n && active[k] == lay.allocs[r];
        assert active'[..n + 1][k] == active[k];
      }
    }
  }

  /** Any other tensor goes above it. */
  lemma BottomCovered(
    g: Graph, preserveAll: bool, lay: Layout, active: seq<Alloc>, todo: set<int>, n: nat, t: int, alignment: nat,
    lay': Layout, active': seq<Alloc>)
    requires |g.ops| < NODE_NOT_ASSIGNED && t in todo && IsTensor(g, t) && !Lifelong(g, preserveAll, t)
    requires BottomSoFar(g, preserveAll, lay, active, alignment, todo, n) && LifelongFirst(g, preserveAll, t, todo)
    requires |lay'.allocs| == |g.tensors| && lay'.alias == lay.alias - {t}
    requires forall u :: IsTensor(g, u) && u != t ==> lay'.allocs[u] == lay.allocs[u]
    requires var a := lay'.allocs[t];
             a.size > 0 && a.firstNode == FirstNode(g, t) && a.lastNode == LastNode(g, preserveAll, t)
             && GrewBy(active, active', alignment, a)
    ensures BottomSoFar(g, preserveAll, lay', active', alignment, todo - {t}, n)
  {
    hide Stacked, FirstNode, LastNode, GrewBy, Lifelong;
    OverlapsBottom(g, preserveAll, lay, active, alignment, todo, n, t);
    StackFits(active, n, alignment);
    StackGrows(active, active', alignment, lay'.allocs[t], n);
    forall k | 0 <= k < n ensures active'[k] == active[k] {
      assert active'[..n][k] == active[..n][k];
    }
  }

  lemma BottomPlace(
    g: Graph, preserveAll: bool, alias0: map<int, int>, lay: Layout, active: seq<Alloc>, persistent: seq<Alloc>,
    todo: set<int>, n: nat, t: int, alignment: nat, lay': Layout, active': seq<Alloc>, persistent': seq<Alloc>)
    returns (n': nat)
    requires |g.ops| < NODE_NOT_ASSIGNED && t in todo
    requires LayoutSoFar(g, preserveAll, alias0, lay, active, persistent, todo)
    requires BottomSoFar(g, preserveAll, lay, active, alignment, todo, n) && LifelongFirst(g, preserveAll, t, todo)
    requires Placed(g, preserveAll, lay, active, persistent, t, alignment, lay', active', persistent')
    ensures BottomSoFar(g, preserveAll, lay', active', alignment, todo - {t}, n')
  {
    hide FirstNode, LastNode, LayoutSoFar, BottomSoFar, LifelongFirst, GrewBy, Lifelong, Compatible;
    if g.tensors[t].bytes == 0 || g.tensors[t].allocationType != ArenaRw {
      n' := n;
      BottomStays(g, preserveAll, lay, active, alignment, todo, n, t, lay');
    } else if Lifelong(g, preserveAll, t) {
      n' := n + 1;
      BottomGrows(g, preserveAll, alias0, lay, active, persistent, todo, n, t, alignment, lay', active');
    } else {
      n' := n;
      BottomCovered(g, preserveAll, lay, active, todo, n, t, alignment, lay', active');
    }
  }

  lemma OwnedTensor(g: Graph, lay: Layout, t: int)
    requires InReadWrite(g, lay, t)
    ensures IsTensor(g, t)
  {
  }

  lemma BottomEnd(g: Graph, preserveAll: bool, lay: Layout, active: seq<Alloc>, alignment: nat, n: nat)
    requires BottomSoFar(g, preserveAll, lay, active, alignment, {}, n)
    ensures LifelongBelow(g, preserveAll, lay)
  {
    hide Lifelong, Stacked, InReadWrite;
    StackFits(active, n, alignment);
    forall r, s | InReadWrite(g, lay, r) && InReadWrite(g, lay, s)
                  && Lifelong(g, preserveAll, r) && !Lifelong(g, preserveAll, s)
      ensures IsTensor(g, r) && IsTensor(g, s)
      ensures lay.allocs[r].offset + lay.allocs[r].size <= lay.allocs[s].offset
    {
      assert IsTensor(g, r) && IsTensor(g, s) by { hide *; OwnedTensor(g, lay, r); OwnedTensor(g, lay, s); }
      var k :| 0 <= k < n && active[k] == lay.allocs[r];
      StackTop(active, n, alignment, k);
    }
  }

  /** `t` waits in the queue of node `j`. */
  ghost predicate IsQueued(g: Graph, j: int, t: int) {
    j >= 0 && (t in QueuedAt(g, j) || UsesTemporary(g, j, t))
  }

  lemma QueuedSomewhere(g: Graph, t: int)
    requires WellFormed(g) && IsTensor(g, t)
    ensures FirstNode(g, t) != NODE_NOT_ASSIGNED <==> exists j :: 0 <= j < Slots(g) && IsQueued(g, j, t)
  {
    TemporaryOfIs(g, t, |g.ops|);
    AllocNodeIs(g, t, |g.ops|);
    var first := FirstNode(g, t);
    if first != NODE_NOT_ASSIGNED {
      var temp := TemporaryOf(g, t, |g.ops|);
      if temp >= 0 {
        assert IsQueued(g, temp, t);
      } else if Early(g, t) {
        assert IsQueued(g, 0, t);
      } else {
        var j :| 0 <= j < |g.ops| && Writes(g, j, t);
        assert IsQueued(g, j, t);
      }
    }
    if j :| 0 <= j < Slots(g) && IsQueued(g, j, t) {
      if !UsesTemporary(g, j, t) && !Early(g, t) {
        assert Writes(g, j, t);
      }
    }
  }

  // ---------------------------------------------------------------- resolution

  ghost predicate Compressed(alias: map<int, int>) {
    forall t :: t in alias ==> alias[t] !in alias
  }

  /** Roots are tensors and no aliases. */
  ghost predicate AliasesResolve(g: Graph, alias: map<int, int>) {
    Compressed(alias) && forall t :: t in alias ==> IsTensor(g, alias[t])
  }

  /** The two buffers behind data pointers. */
  datatype Space = ReadWrite | Persistent

  /** A tensor's data pointer: into one of the arenas, or null. */
  datatype Pointer = Null | At(space: Space, offset: nat)

  function NoPointers(g: Graph): seq<Pointer> {
    seq(|g.tensors|, _ => Null)
  }

  /** `AreTensorsAllocatedInSameArena`. */
  predicate SameArena(g: Graph, root: int, t: int) {
    Planned(g, root) && Planned(g, t) && g.tensors[root].allocationType == g.tensors[t].allocationType
  }

  /** The data pointer that resolution gives `t`, through its root if both are in the same arena. */
  function Resolved(g: Graph, alias: map<int, int>, allocs: seq<Alloc>, before: seq<Pointer>, t: int): (r: Pointer)
    requires IsTensor(g, t) && |allocs| == |before| == |g.tensors|
    decreases if t in alias && alias[t] !in alias then 1 else 0
  {
    var root := Root(alias, t);
    if root != t && SameArena(g, root, t) && root !in alias then Resolved(g, alias, allocs, before, root)
    else
      match g.tensors[t].allocationType
      case ArenaRw => if allocs[t].size != 0 then At(ReadWrite, allocs[t].offset) else before[t]
      case ArenaRwPersistent => if allocs[t].size != 0 then At(Persistent, allocs[t].offset) else Null
      case _ => before[t]
  }

  /**
   The pointer that `t` should have: to the bytes of its root, if that is in the same arena, and otherwise to
   its own.  Without any, a persistent tensor has a null pointer, and others keep what they had.
   */
  ghost predicate PointsRight(
    g: Graph, alias: map<int, int>, allocs: seq<Alloc>, before: seq<Pointer>, t: int, pointer: Pointer)
  {
    && 0 <= t < |g.tensors| == |allocs| == |before|
    && var kind := g.tensors[t].allocationType;
       var r := if t in alias && 0 <= alias[t] < |g.tensors| && g.tensors[alias[t]].allocationType == kind
                then alias[t] else t;
       && (kind == ArenaRw && allocs[r].size > 0 ==> pointer == At(ReadWrite, allocs[r].offset))
       && (kind == ArenaRw && allocs[r].size == 0 ==> pointer == before[r])
       && (kind == ArenaRwPersistent && allocs[r].size > 0 ==> pointer == At(Persistent, allocs[r].offset))
       && (kind == ArenaRwPersistent && allocs[r].size == 0 ==> pointer == Null)
       && (kind != ArenaRw && kind != ArenaRwPersistent ==> pointer == before[t])
  }

  lemma ResolvedIs(g: Graph, alias: map<int, int>, allocs: seq<Alloc>, before: seq<Pointer>, t: int)
    requires IsTensor(g, t) && |allocs| == |before| == |g.tensors| && AliasesResolve(g, alias)
    ensures PointsRight(g, alias, allocs, before, t, Resolved(g, alias, allocs, before, t))
  {
    if t in alias { assert alias[t] !in alias; }
  }

  /** Resolving again, when some tensors have been resolved, gives the same pointers. */
  lemma ResolvedAgain(
    g: Graph, alias: map<int, int>, allocs: seq<Alloc>, before: seq<Pointer>, now: seq<Pointer>, t: int)
    requires IsTensor(g, t) && |allocs| == |before| == |now| == |g.tensors| && AliasesResolve(g, alias)
    requires forall u :: IsTensor(g, u) ==> now[u] == before[u] || now[u] == Resolved(g, alias, allocs, before, u)
    ensures Resolved(g, alias, allocs, now, t) == Resolved(g, alias, allocs, before, t)
  {
    var root := Root(alias, t);
    if root != t && SameArena(g, root, t) {
      assert root !in alias && Root(alias, root) == root;
    }
  }

  /** The allocation of `u` ends within the buffer of its arena. */
  predicate FitsInto(g: Graph, allocs: seq<Alloc>, u: int, size: nat, persistentSize: nat)
    requires IsTensor(g, u) && |allocs| == |g.tensors|
  {
    && (g.tensors[u].allocationType == ArenaRw ==> allocs[u].size == 0 || allocs[u].offset + allocs[u].size <= size)
    && (g.tensors[u].allocationType == ArenaRwPersistent ==> allocs[u].offset + allocs[u].size <= persistentSize)
  }

  lemma LaidOutFits(g: Graph, preserveAll: bool, lay: Layout, size: nat, persistentSize: nat)
    requires LaidOut(g, preserveAll, lay) && lay.highWaterMark <= size && lay.persistentMark <= persistentSize
    ensures |lay.allocs| == |g.tensors|
    ensures forall u :: IsTensor(g, u) ==> FitsInto(g, lay.allocs, u, size, persistentSize)
  {
    hide FirstNode, LastNode;
    forall u | IsTensor(g, u) ensures FitsInto(g, lay.allocs, u, size, persistentSize) {
      if Owns(g, lay, u) { assert PlacedRight(g, preserveAll, lay, u); }
    }
  }

  lemma KeptResolve(g: Graph, preserveAll: bool)
    requires WellFormed(g)
    ensures AliasesResolve(g, KeptAliases(g, AliasMap(g, preserveAll)))
  {
    var alias := AliasMap(g, preserveAll);
    forall t | t in alias ensures alias[t] !in alias && IsTensor(g, alias[t]) {
      AliasCompressed(g, preserveAll, |g.ops|, t);
    }
  }

  /** Counting off one more read of buffer `x` concerns `x` alone, and releases it if that was the last. */
  lemma DeallocStep(g: Graph, preserveAll: bool, alias: map<int, int>, i: nat, part: seq<int>, x: int, t: int)
    requires i < |g.ops| && !preserveAll
    requires SharedUses(g, alias, x, i) + multiset(part)[x] < SharedUses(g, alias, x, |g.ops|)
    ensures t != x ==>
              DeallocSoFar(g, preserveAll, alias, t, i, part + [x]) == DeallocSoFar(g, preserveAll, alias, t, i, part)
    ensures DeallocSoFar(g, preserveAll, alias, x, i, part) == NODE_NOT_ASSIGNED
    ensures DeallocSoFar(g, preserveAll, alias, x, i, part + [x]) ==
              if Bonus(g, x) == 0 && AllocNode(g, x, |g.ops|) != NODE_NOT_ASSIGNED
                 && SharedUses(g, alias, x, i) + multiset(part)[x] + 1 == SharedUses(g, alias, x, |g.ops|)
              then i else NODE_NOT_ASSIGNED
  {
    assert multiset(part + [x])[t] == multiset(part)[t] + (if t == x then 1 else 0);
    assert multiset(part + [x])[x] == multiset(part)[x] + 1;
  }

  /** A buffer is not read before the node that produces it. */
  lemma {:induction false} UnusedBefore(g: Graph, preserveAll: bool, i: nat, t: int, j: nat)
    requires WellFormed(g) && i < |g.ops| && Writes(g, i, t) && j <= i
    ensures SharedUses(g, AliasMap(g, preserveAll), t, j) == 0
  {
    if j > 0 {
      UnusedBefore(g, preserveAll, i, t, j - 1);
      var alias := AliasMap(g, preserveAll);
      var roots, ts := RootsOf(alias, g.ops[j - 1].inputs), g.ops[j - 1].inputs;
      AliasMapInRange(g, preserveAll);
      forall k | 0 <= k < |ts| ensures roots[k] != t {
        if ts[k] != OPTIONAL_TENSOR {
          assert Reads(g, j - 1, ts[k]);
          RootAvailable(g, preserveAll, j - 1, ts[k]);
        }
      }
      assert t !in roots;
    }
  }

  lemma UnreadBeforeWritten(g: Graph, preserveAll: bool, i: nat, t: int)
    requires WellFormed(g) && i < |g.ops| && Writes(g, i, t)
    ensures DeallocSoFar(g, preserveAll, AliasMap(g, preserveAll), t, i, []) == NODE_NOT_ASSIGNED
  {
    UnusedBefore(g, preserveAll, i, t, i);
  }

  /** While a node's reads are being counted off, the total is not yet reached. */
  lemma ReadsRemain(g: Graph, alias: map<int, int>, i: nat, k: nat)
    requires i < |g.ops| && k < |g.ops[i].inputs|
    ensures var roots := RootsOf(alias, g.ops[i].inputs);
            SharedUses(g, alias, roots[k], i) + multiset(roots[..k])[roots[k]] < SharedUses(g, alias, roots[k], |g.ops|)
  {
    var roots := RootsOf(alias, g.ops[i].inputs);
    assert roots == roots[..k] + [roots[k]] + roots[k + 1..];
    UsesGrow(g, alias, roots[k], i + 1, |g.ops|);
  }

  lemma {:induction false} NothingShared(g: Graph, preserveAll: bool, i: int, k: nat)
    requires IsOp(g, i) && g.ops[i].outputs != [] && g.ops[i].sharedInputs == {}
    ensures FirstShareable(g, preserveAll, i, k) == -1
    decreases ScanLimit(g.ops[i]) - k
  {
    if k < ScanLimit(g.ops[i]) { NothingShared(g, preserveAll, i, k + 1); }
  }

  lemma AliasNone(g: Graph, preserveAll: bool)
    ensures AliasAfter(g, preserveAll, 0) == map[]
  {
  }

  /** What node `i` adds to the alias map. */
  lemma AliasNext(g: Graph, preserveAll: bool, i: int)
    requires IsOp(g, i)
    ensures var before, after, op := AliasAfter(g, preserveAll, i), AliasAfter(g, preserveAll, i + 1), g.ops[i];
            if op.outputs == [] || FirstShareable(g, preserveAll, i, 0) == -1 then after == before
            else
              var k := FirstShareable(g, preserveAll, i, 0);
              && 0 <= k < |op.inputs| && op.inputs[k] != OPTIONAL_TENSOR
              && var root := Root(before, op.inputs[k]);
                 (if (!op.dataUnmodified && Refs(g, root) > 1) || root == -1 then after == before
                  else after == before[op.outputs[0] := root])
  {
  }

  lemma SharedRootInRange(g: Graph, preserveAll: bool, i: nat, t: int)
    requires WellFormed(g) && i < |g.ops| && Reads(g, i, t)
    ensures IsTensor(g, Root(AliasAfter(g, preserveAll, i), t))
  {
    InputRootStable(g, preserveAll, i, t);
    RootAvailable(g, preserveAll, i, t);
  }
}
