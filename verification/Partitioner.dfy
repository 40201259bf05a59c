/**
 The partitioner of `graph_info.cc`: vectors updated in place by nested fixpoint loops.  Its
 contract ties every vector to a ghost schedule, whose properties `Schedules` develops.
 */
module Partitioner {
  import opened Common
  import opened Ordering
  import opened Schedules
  import opened GraphInfo
  import opened PartitionState

  // ---------------------------------------------------------------- the loops of UpdateNode

  method InputsReady(g: Graph, tensorEpochs: seq<int>, i: int) returns (ready: bool)
    requires InPlan(g, i) && TensorsInRange(g) && |tensorEpochs| == g.numTensors
    ensures ready <==> forall t :: Reads(g, i, t) ==> tensorEpochs[t] != NOT_READY
  {
    var inputs := g.nodes[i].inputs;
    for k := 0 to |inputs|
      invariant forall t :: t in inputs[..k] && t != OPTIONAL_TENSOR ==> IsTensor(g, t) && tensorEpochs[t] != NOT_READY
    {
      assert inputs[k] != OPTIONAL_TENSOR ==> Reads(g, i, inputs[k]);
      if inputs[k] != OPTIONAL_TENSOR && tensorEpochs[inputs[k]] == NOT_READY {
        return false;
      }
      assert inputs[..k + 1] == inputs[..k] + [inputs[k]];
    }
    assert inputs[..|inputs|] == inputs;
    return true;
  }

  method AssignOutputs(g: Graph, tensorEpochs: seq<int>, i: int, epoch: int) returns (after: seq<int>)
    requires InPlan(g, i) && TensorsInRange(g) && |tensorEpochs| == g.numTensors
    ensures TensorsAssigned(g, tensorEpochs, after, i, epoch)
  {
    var outputs := g.nodes[i].outputs;
    after := tensorEpochs;
    for k := 0 to |outputs|
      invariant |after| == |tensorEpochs|
      invariant forall t :: IsTensor(g, t) ==> after[t] == if t in outputs[..k] then epoch else tensorEpochs[t]
    {
      assert outputs[..k + 1] == outputs[..k] + [outputs[k]];
      if outputs[k] != OPTIONAL_TENSOR {
        assert Writes(g, i, outputs[k]);
        after := after[outputs[k] := epoch];
      }
    }
    assert outputs[..|outputs|] == outputs;
  }

  /** Inputs from other epochs become inputs here and outputs where they were produced. */
  method RecordInputs(g: Graph, tensorEpochs: seq<int>, subsets: seq<NodeSubset>, i: int)
    returns (after: seq<NodeSubset>)
    requires InPlan(g, i) && TensorsInRange(g) && |tensorEpochs| == g.numTensors && subsets != []
    requires forall t :: IsTensor(g, t) ==> tensorEpochs[t] < |subsets|
    ensures InterfacesRecorded(g, tensorEpochs, subsets, after, i, g.nodes[i].inputs, |subsets| - 1)
  {
    var inputs := g.nodes[i].inputs;
    var cur := |subsets| - 1;
    after := subsets;
    for k := 0 to |inputs|
      invariant InterfacesRecorded(g, tensorEpochs, subsets, after, i, inputs[..k], cur)
    {
      var t := inputs[k];
      ghost var before := after;
      assert t != OPTIONAL_TENSOR ==> Reads(g, i, t);
      if t != OPTIONAL_TENSOR && tensorEpochs[t] != cur {
        after := after[cur := after[cur].(inputTensors := after[cur].inputTensors + [t])];
        var inputEpoch := tensorEpochs[t];
        if inputEpoch >= 0 {
          after := after[inputEpoch := after[inputEpoch].(outputTensors := after[inputEpoch].outputTensors + [t])];
        }
      }
      RecordedStep(g, tensorEpochs, subsets, before, after, i, inputs, k, cur);
    }
    assert inputs[..|inputs|] == inputs;
  }

  lemma RecordedStep(
    g: Graph, tensorEpochs: seq<int>, subsets: seq<NodeSubset>, before: seq<NodeSubset>, after: seq<NodeSubset>,
    i: int, inputs: seq<int>, k: nat, cur: int)
    requires k < |inputs| && cur == |subsets| - 1 >= 0
    requires InterfacesRecorded(g, tensorEpochs, subsets, before, i, inputs[..k], cur)
    requires inputs[k] != OPTIONAL_TENSOR ==> IsTensor(g, inputs[k]) && tensorEpochs[inputs[k]] < |subsets|
    requires |after| == |before|
    requires var t := inputs[k];
             forall e :: 0 <= e < |before| ==>
               && after[e].nodes == before[e].nodes && after[e].kind == before[e].kind
               && after[e].inputTensors ==
                    before[e].inputTensors +
                    (if t != OPTIONAL_TENSOR && e == cur && tensorEpochs[t] != cur then [t] else [])
               && after[e].outputTensors ==
                    before[e].outputTensors +
                    (if t != OPTIONAL_TENSOR && e != cur && tensorEpochs[t] == e then [t] else [])
    ensures InterfacesRecorded(g, tensorEpochs, subsets, after, i, inputs[..k + 1], cur)
  {
    var r, r' := inputs[..k], inputs[..k + 1];
    assert r' == r + [inputs[k]];
    forall e, t | 0 <= e < |subsets|
      ensures t in after[e].inputTensors <==>
              (t in subsets[e].inputTensors || JoinsInputs(tensorEpochs, r', cur, e, t))
    {
      assert t in before[e].inputTensors <==>
             (t in subsets[e].inputTensors || JoinsInputs(tensorEpochs, r, cur, e, t));
    }
    forall e, t | 0 <= e < |subsets|
      ensures t in after[e].outputTensors <==>
              (t in subsets[e].outputTensors || JoinsOutputs(tensorEpochs, r', cur, e, t))
    {
      assert t in before[e].outputTensors <==>
             (t in subsets[e].outputTensors || JoinsOutputs(tensorEpochs, r, cur, e, t));
    }
  }

  lemma PairLeTotal()
    ensures TotalOrder(PairLe)
  {
  }

  lemma IntLeTotal()
    ensures TotalOrder(IntLe)
  {
  }

  /** Decrements the counter of every successor of `i`, found by binary search in the sorted edges. */
  method ReleaseSuccessors(edges: seq<Edge>, counters: seq<int>, i: int) returns (after: seq<int>)
    requires StrictlySorted(PairLe, edges)
    requires forall e :: e in edges ==> 0 <= e.0 && 0 <= e.1 < |counters|
    ensures SuccessorsReleased(edges, counters, after, i)
  {
    PairLeTotal();
    var pos := LowerBound(PairLe, edges, (i, 0));
    after := counters;
    assert forall b :: 0 <= b < |counters| ==> (i, b) !in edges[..pos] by {
      forall b, k | 0 <= b < |counters| && 0 <= k < pos ensures edges[k] != (i, b) {
        assert !PairLe((i, 0), edges[k]);
      }
    }
    while pos < |edges| && edges[pos].0 == i
      invariant 0 <= pos <= |edges| && |after| == |counters|
      invariant forall k :: pos <= k < |edges| ==> edges[k].0 >= i
      invariant forall b :: 0 <= b < |counters| ==> after[b] == counters[b] - (if (i, b) in edges[..pos] then 1 else 0)
    {
      var b := edges[pos].1;
      assert edges[pos] in edges;
      assert edges[pos] == (i, b);
      assert (i, b) !in edges[..pos];
      assert edges[..pos + 1] == edges[..pos] + [(i, b)];
      after := after[b := after[b] - 1];
      pos := pos + 1;
    }
    forall b | 0 <= b < |counters| ensures (i, b) in edges <==> (i, b) in edges[..pos] {
      forall k | pos <= k < |edges| ensures edges[k] != (i, b) {
        if pos < k { assert PairLe(edges[pos], edges[k]); }
      }
      assert edges == edges[..pos] + edges[pos..];
    }
  }

  /** The initial counters: the number of edges into each node. */
  method CountIncoming(n: nat, edges: seq<Edge>) returns (counters: seq<int>)
    requires StrictlySorted(PairLe, edges)
    requires forall e :: e in edges ==> 0 <= e.0 < n && 0 <= e.1 < n
    ensures CountersMatch(n, edges, seq(n, _ => NOT_READY), counters)
  {
    var none := seq(n, _ => NOT_READY);
    counters := seq(n, _ => 0);
    for k := 0 to |edges|
      invariant |counters| == n
      invariant forall i :: 0 <= i < n ==> counters[i] == |Pending(edges[..k], none, i)|
    {
      assert edges[..k + 1] == edges[..k] + [edges[k]];
      assert edges[k] in edges && edges[k] !in edges[..k];
      forall i | 0 <= i < n
        ensures |Pending(edges[..k + 1], none, i)| ==
                |Pending(edges[..k], none, i)| + (if i == edges[k].1 then 1 else 0)
      {
        if i == edges[k].1 {
          assert Pending(edges[..k + 1], none, i) == Pending(edges[..k], none, i) + {edges[k]};
        } else {
          assert Pending(edges[..k + 1], none, i) == Pending(edges[..k], none, i);
        }
      }
      counters := counters[edges[k].1 := counters[edges[k].1] + 1];
    }
    assert edges[..|edges|] == edges;
  }

  /** Computed tensors start out not ready; all others are always ready. */
  method InitialTensorEpochs(g: Graph) returns (tensorEpochs: seq<int>)
    requires TensorsInRange(g)
    ensures TensorEpochsMatch(g, seq(|g.nodes|, _ => NOT_READY), tensorEpochs)
  {
    tensorEpochs := seq(g.numTensors, _ => ALWAYS_READY);
    for i := 0 to |g.nodes|
      invariant |tensorEpochs| == g.numTensors
      invariant forall j, t :: Writes(g, j, t) && IsTensor(g, t) && j < i ==> tensorEpochs[t] == NOT_READY
      invariant forall t :: IsTensor(g, t) ==> tensorEpochs[t] == ALWAYS_READY || exists j :: Writes(g, j, t)
    {
      ghost var before := tensorEpochs;
      tensorEpochs := AssignOutputs(g, tensorEpochs, i, NOT_READY);
      forall j, t | Writes(g, j, t) && IsTensor(g, t) && j < i + 1 ensures tensorEpochs[t] == NOT_READY {
        if !Writes(g, i, t) { assert before[t] == NOT_READY; }
      }
    }
  }

  // ---------------------------------------------------------------- one epoch in non-greedy mode

  ghost predicate DoneUpTo(es: Epochs, s: int) {
    forall i :: i in Done(es) <==> 0 <= i < s
  }

  /** `cur` is the maximal run of one kind that starts at plan position `s`. */
  ghost predicate IsRun(d: Dag, s: int, cur: seq<int>) {
    && 0 <= s && s + |cur| <= |d.preds| == |d.kind|
    && cur == Interval(s, s + |cur|)
    && (s < |d.preds| ==> cur != [])
    && (cur != [] && s + |cur| < |d.preds| ==> d.kind[s + |cur|] != d.kind[s])
  }

  /** Where a non-greedy pass over the plan stands before it looks at node `i`. */
  ghost predicate RunSoFar(n: int, s: int, i: int, did: bool, cur: seq<int>) {
    if did then s < i && cur == Interval(s, i)
    else (cur == [] && i <= s) || (s < n && cur == Interval(s, n))
  }

  lemma RunStep(d: Dag, es: Epochs, s: int, i: int, did: bool)
    requires ValidDag(d) && ForwardDag(d) && es != [] && 0 <= s <= |d.preds|
    requires DoneUpTo(es[..|es| - 1], s) && RunSoFar(|d.preds|, s, i, did, es[|es| - 1]) && IsNode(d, i)
    ensures var taken := CanTake(d, false, es, i);
            if taken then RunSoFar(|d.preds|, s, i + 1, true, es[|es| - 1] + [i])
            else if did then IsRun(d, s, es[|es| - 1])
            else RunSoFar(|d.preds|, s, i + 1, false, es[|es| - 1])
  {
    var cur := es[|es| - 1];
    assert forall x :: x in Done(es) <==> 0 <= x < s || x in cur;
    if did {
      assert cur[0] == s;
      assert forall x :: x in cur <==> s <= x < i by {
        forall x | s <= x < i ensures x in cur { assert cur[x - s] == x; }
      }
      forall j | j in d.preds[i] ensures j in Done(es) { assert 0 <= j < i; }
      assert Interval(s, i) + [i] == Interval(s, i + 1);
    } else if cur == [] {
      if i == s {
        forall j | j in d.preds[i] ensures j in Done(es) { assert 0 <= j < i; }
        assert [i] == Interval(s, i + 1);
      }
    } else {
      assert i in Done(es) by {
        if s <= i { assert cur[i - s] == i; }
      }
    }
  }

  lemma RunExtends(d: Dag, es: Epochs, s: int, cur: seq<int>)
    requires ValidDag(d) && MaximalRuns(d, es, s) && DoneUpTo(es, s) && IsRun(d, s, cur) && cur != []
    requires IsNode(d, cur[0]) && AllOfKind(d, cur, d.kind[cur[0]])
    ensures s + |cur| <= |d.preds|
    ensures MaximalRuns(d, es + [cur], s + |cur|) && DoneUpTo(es + [cur], s + |cur|)
  {
    Snoc(es, cur);
    forall x ensures x in cur <==> s <= x < s + |cur| {
      if s <= x < s + |cur| { assert cur[x - s] == x; }
    }
  }

  /** A subset's bookkeeping agrees with the dependency graph about the kind of an epoch. */
  lemma UniformKind(p: Problem, es: Epochs, subsets: seq<NodeSubset>, e: int)
    requires SubsetsMatch(p, es, subsets) && 0 <= e < |es| && es[e] != []
    ensures IsNode(DagOf(p), es[e][0]) && subsets[e].kind == DagOf(p).kind[es[e][0]]
    ensures AllOfKind(DagOf(p), es[e], DagOf(p).kind[es[e][0]])
  {
    assert SubsetMatches(p, es[e], subsets[e]);
  }

  lemma EpochsBounded(
    p: Problem, es: Epochs, nodeEpochs: seq<int>, tensorEpochs: seq<int>, counters: seq<int>, subsets: seq<NodeSubset>)
    requires |p.g.nodeIndex| == |p.g.nodes|
    requires StateMatches(p, es, nodeEpochs, tensorEpochs, counters, subsets)
    ensures |nodeEpochs| == |counters| == |p.g.nodes| && |tensorEpochs| == p.g.numTensors && |subsets| == |es|
    ensures forall t :: IsTensor(p.g, t) ==> tensorEpochs[t] < |subsets|
  {
  }

  /** The vector updates of a successful `UpdateNode`. */
  method Advance(
    p: Problem, kind: NodeType, tensorEpochs: seq<int>, counters: seq<int>, subsets: seq<NodeSubset>, i: int)
    returns (tensorEpochs': seq<int>, counters': seq<int>, subsets': seq<NodeSubset>)
    requires InPlan(p.g, i) && |p.g.nodeIndex| == |p.g.nodes| && TensorsInRange(p.g) && kind == TypeOf(p, i)
    requires StrictlySorted(PairLe, p.edges) && EdgesInRange(p.g, p.edges) && |counters| == |p.g.nodes|
    requires |tensorEpochs| == p.g.numTensors && subsets != []
    requires forall t :: IsTensor(p.g, t) ==> tensorEpochs[t] < |subsets|
    ensures TensorsAssigned(p.g, tensorEpochs, tensorEpochs', i, |subsets| - 1)
    ensures SuccessorsReleased(p.edges, counters, counters', i)
    ensures InterfacesRecorded(p.g, tensorEpochs', Enter(p, subsets, i), subsets', i, p.g.nodes[i].inputs,
                               |subsets| - 1)
  {
    var cur := |subsets| - 1;
    tensorEpochs' := AssignOutputs(p.g, tensorEpochs, i, cur);
    var entered := subsets[cur := subsets[cur].(kind := kind, nodes := subsets[cur].nodes + [p.g.nodeIndex[i]])];
    subsets' := RecordInputs(p.g, tensorEpochs', entered, i);
    counters' := ReleaseSuccessors(p.edges, counters, i);
  }

  // ---------------------------------------------------------------- what BuildNodeSubset achieves

  /** The epoch `cur` that `BuildNodeSubset` builds after `es`. */
  ghost predicate BuiltEpoch(d: Dag, greedily: bool, disableNodeFusion: bool, es: Epochs, cur: seq<int>) {
    && (greedily ==> forall i :: IsNode(d, i) ==> !CanTake(d, disableNodeFusion, es + [cur], i))
    && (cur == [] ==> Exhausted(d, es))
    && (cur != [] ==> forall i :: 0 <= i < cur[0] ==> !CanRun(d, Done(es), i))
    && (disableNodeFusion ==> |cur| <= 1)
  }

  ghost predicate RunMode(d: Dag, greedily: bool, disableNodeFusion: bool, es: Epochs, start: int) {
    !greedily && !disableNodeFusion && ForwardDag(d) && 0 <= start <= |d.preds| && DoneUpTo(es, start)
  }

  /** No node before the opening node, or before `i` while the epoch is empty, could have opened it. */
  ghost predicate OpenedRight(d: Dag, disableNodeFusion: bool, es: Epochs, cur: seq<int>, i: int) {
    && (disableNodeFusion ==> |cur| <= 1)
    && (forall k :: 0 <= k < (if cur == [] then i else cur[0]) ==> !CanRun(d, Done(es), k))
  }

  lemma OpenedStep(d: Dag, disableNodeFusion: bool, es: Epochs, before: Epochs, i: int)
    requires before != [] && before[..|before| - 1] == es
    requires OpenedRight(d, disableNodeFusion, es, before[|before| - 1], i)
    ensures var cur := before[|before| - 1];
            if CanTake(d, disableNodeFusion, before, i) then OpenedRight(d, disableNodeFusion, es, cur + [i], i + 1)
            else OpenedRight(d, disableNodeFusion, es, cur, i + 1)
  {
    var cur := before[|before| - 1];
    if cur == [] {
      assert Done(before) == Done(es);
    }
  }

  lemma ShrinksLeft(d: Dag, disableNodeFusion: bool, es: Epochs, i: int)
    requires es != [] && CanTake(d, disableNodeFusion, es, i)
    ensures Extend(es, i)[|es| - 1] != []
    ensures AllNodes(d) - Done(Extend(es, i)) < AllNodes(d) - Done(es)
  {
    ExtendDone(es, i);
    hide Done;
    assert i in AllNodes(d) - Done(es);
    assert i !in AllNodes(d) - Done(Extend(es, i));
  }

  /** When a whole pass takes no node, the epoch is finished. */
  lemma BuiltAtFixpoint(d: Dag, greedily: bool, disableNodeFusion: bool, es: Epochs)
    requires es != [] && |d.kind| == |d.preds|
    requires forall k :: 0 <= k < |d.preds| ==> !CanTake(d, disableNodeFusion, es, k)
    requires OpenedRight(d, disableNodeFusion, es[..|es| - 1], es[|es| - 1], |d.preds|)
    ensures BuiltEpoch(d, greedily, disableNodeFusion, es[..|es| - 1], es[|es| - 1])
  {
    assert es == es[..|es| - 1] + [es[|es| - 1]];
  }

  /** The non-greedy early return. */
  lemma BuiltAtFirstMiss(d: Dag, disableNodeFusion: bool, es: Epochs, i: int)
    requires es != [] && es[|es| - 1] != []
    requires OpenedRight(d, disableNodeFusion, es[..|es| - 1], es[|es| - 1], i)
    ensures BuiltEpoch(d, false, disableNodeFusion, es[..|es| - 1], es[|es| - 1])
  {
  }

  lemma OpenedRestart(d: Dag, disableNodeFusion: bool, es: Epochs, cur: seq<int>, i: int)
    requires OpenedRight(d, disableNodeFusion, es, cur, i) && (cur == [] ==> i >= 0)
    ensures OpenedRight(d, disableNodeFusion, es, cur, 0)
  {
  }

  lemma OpenedStart(d: Dag, disableNodeFusion: bool, es: Epochs, start: int)
    ensures OpenedRight(d, disableNodeFusion, es, [], 0)
    ensures 0 <= start <= |d.preds| ==> RunSoFar(|d.preds|, start, 0, false, [])
  {
  }

  lemma RunRestart(d: Dag, s: int, did: bool, cur: seq<int>)
    requires ValidDag(d) && 0 <= s <= |d.preds| && RunSoFar(|d.preds|, s, |d.preds|, did, cur)
    ensures IsRun(d, s, cur)
    ensures did ==> RunSoFar(|d.preds|, s, 0, false, cur)
  {
  }

  /** A nonempty epoch built after `es` keeps everything that holds of the epochs before it. */
  lemma EpochAccepted(d: Dag, greedily: bool, disableNodeFusion: bool, es: Epochs, cur: seq<int>)
    requires cur != [] && IsNode(d, cur[0]) && AllOfKind(d, cur, d.kind[cur[0]])
    requires ValidSchedule(d, es + [cur]) && BuiltEpoch(d, greedily, disableNodeFusion, es, cur)
    requires SingleTyped(d, es) && OpensWithFirstReady(d, es)
    ensures SingleTyped(d, es + [cur]) && OpensWithFirstReady(d, es + [cur])
    ensures greedily && !disableNodeFusion && Greedy(d, es) ==> Greedy(d, es + [cur])
    ensures AllNodes(d) - Done(es + [cur]) < AllNodes(d) - Done(es)
    ensures disableNodeFusion ==> |cur| == 1
  {
    var es' := es + [cur];
    Snoc(es, cur);
    RunnableAt(d, Done(es), cur, 0);
    assert cur[0] in AllNodes(d) - Done(es);
    assert cur[0] !in AllNodes(d) - Done(es');
    if greedily && !disableNodeFusion {
      forall i | KindIs(d, i, d.kind[cur[0]]) ensures !CanRun(d, Done(es'), i) {
        assert !CanTake(d, disableNodeFusion, es', i);
      }
    }
  }

  /** Everything the traversal guarantees of the epochs built so far, the plan being done up to `start`. */
  ghost predicate Traversed(d: Dag, greedily: bool, disableNodeFusion: bool, es: Epochs, start: int) {
    && SingleTyped(d, es)
    && OpensWithFirstReady(d, es)
    && (greedily && !disableNodeFusion ==> Greedy(d, es))
    && (disableNodeFusion ==> forall e :: 0 <= e < |es| ==> |es[e]| == 1)
    && (!greedily && !disableNodeFusion && ForwardDag(d) ==>
          0 <= start <= |d.preds| && MaximalRuns(d, es, start) && DoneUpTo(es, start))
  }

  lemma NothingTraversed(d: Dag, greedily: bool, disableNodeFusion: bool)
    ensures Traversed(d, greedily, disableNodeFusion, [], 0)
  {
  }

  lemma TraversalEnds(d: Dag, greedily: bool, disableNodeFusion: bool, es: Epochs, start: int)
    requires Traversed(d, greedily, disableNodeFusion, es, start)
    requires BuiltEpoch(d, greedily, disableNodeFusion, es, [])
    requires RunMode(d, greedily, disableNodeFusion, es, start) ==> IsRun(d, start, [])
    ensures Exhausted(d, es) && Traversed(d, greedily, disableNodeFusion, es, |d.preds|)
  {
  }

  lemma TraversalGoesOn(d: Dag, greedily: bool, disableNodeFusion: bool, es: Epochs, cur: seq<int>, start: int)
    requires ValidDag(d) && cur != [] && IsNode(d, cur[0]) && AllOfKind(d, cur, d.kind[cur[0]])
    requires ValidSchedule(d, es + [cur])
    requires Traversed(d, greedily, disableNodeFusion, es, start)
    requires BuiltEpoch(d, greedily, disableNodeFusion, es, cur)
    requires RunMode(d, greedily, disableNodeFusion, es, start) ==> IsRun(d, start, cur)
    ensures Traversed(d, greedily, disableNodeFusion, es + [cur], start + |cur|)
    ensures AllNodes(d) - Done(es + [cur]) < AllNodes(d) - Done(es)
  {
    EpochAccepted(d, greedily, disableNodeFusion, es, cur);
    if !greedily && !disableNodeFusion && ForwardDag(d) {
      RunExtends(d, es, start, cur);
    }
  }

  lemma LastEpoch(
    p: Problem, es: Epochs, nodeEpochs: seq<int>, tensorEpochs: seq<int>, counters: seq<int>, subsets: seq<NodeSubset>)
    requires |p.g.nodeIndex| == |p.g.nodes| && es != []
    requires StateMatches(p, es, nodeEpochs, tensorEpochs, counters, subsets)
    ensures |subsets| == |es| && ValidSchedule(DagOf(p), es)
    ensures subsets[|es| - 1].nodes == [] <==> es[|es| - 1] == []
    ensures var cur := es[|es| - 1];
            cur != [] ==> IsNode(DagOf(p), cur[0]) && AllOfKind(DagOf(p), cur, DagOf(p).kind[cur[0]])
  {
    assert SubsetMatches(p, es[|es| - 1], subsets[|es| - 1]);
    if es[|es| - 1] != [] { UniformKind(p, es, subsets, |es| - 1); }
  }

  // ---------------------------------------------------------------- the finished partitioning

  /** Both interface lists of every subset are exact and strictly sorted. */
  ghost predicate InterfacesExact(g: Graph, es: Epochs, subsets: seq<NodeSubset>) {
    && |subsets| == |es|
    && (forall e :: 0 <= e < |es| ==>
          StrictlySorted(IntLe, subsets[e].inputTensors) && StrictlySorted(IntLe, subsets[e].outputTensors))
    && InputsMatch(g, es, subsets)
    && (forall e, t :: 0 <= e < |es| ==>
          (t in subsets[e].outputTensors <==> WrittenBy(g, es[e], t) && (ReadElsewhere(g, es, e, t) || t in g.outputs)))
  }

  /**
   `subsets` partitions the plan of `p`: its epochs `es` run every node exactly once after all it
   depends on, each epoch is of one kind and opened by the first node that could run, and the
   interface tensors are exact.
   */
  ghost predicate IsPartitioning(
    p: Problem, greedily: bool, disableNodeFusion: bool, subsets: seq<NodeSubset>, es: Epochs)
  {
    var d := DagOf(p);
    && ValidSchedule(d, es) && Done(es) == AllNodes(d)
    && SingleTyped(d, es) && OpensWithFirstReady(d, es)
    && (greedily && !disableNodeFusion ==> Greedy(d, es))
    && (disableNodeFusion ==> forall e :: 0 <= e < |es| ==> |es[e]| == 1)
    && (!greedily && !disableNodeFusion && ForwardDag(d) ==> MaximalRuns(d, es, |p.g.nodes|))
    && SubsetsMatch(p, es, subsets)
    && InterfacesExact(p.g, es, subsets)
  }

  /** Graph outputs become outputs of the subset that produces them. */
  method MarkOutputs(g: Graph, tensorEpochs: seq<int>, subsets: seq<NodeSubset>) returns (after: seq<NodeSubset>)
    requires |tensorEpochs| == g.numTensors
    requires forall k :: 0 <= k < |g.outputs| ==> IsTensor(g, g.outputs[k])
    requires forall t :: IsTensor(g, t) ==> tensorEpochs[t] == ALWAYS_READY || 0 <= tensorEpochs[t] < |subsets|
    ensures OutputsMarked(g.outputs, tensorEpochs, subsets, after)
  {
    after := subsets;
    for k := 0 to |g.outputs|
      invariant OutputsMarked(g.outputs[..k], tensorEpochs, subsets, after)
    {
      var t := g.outputs[k];
      assert IsTensor(g, t);
      var epoch := tensorEpochs[t];
      assert g.outputs[..k + 1] == g.outputs[..k] + [t];
      ghost var before := after;
      if epoch != ALWAYS_READY {
        after := after[epoch := after[epoch].(outputTensors := after[epoch].outputTensors + [t])];
      }
      forall e, x | 0 <= e < |subsets|
        ensures x in after[e].outputTensors <==>
                (x in subsets[e].outputTensors || Marks(g.outputs[..k + 1], tensorEpochs, e, x))
      {
        assert x in before[e].outputTensors <==>
               (x in subsets[e].outputTensors || Marks(g.outputs[..k], tensorEpochs, e, x));
      }
    }
    assert g.outputs[..|g.outputs|] == g.outputs;
  }

  predicate Marks(outputs: seq<int>, tensorEpochs: seq<int>, e: int, t: int) {
    t in outputs && 0 <= t < |tensorEpochs| && tensorEpochs[t] == e
  }

  ghost predicate OutputsMarked(
    outputs: seq<int>, tensorEpochs: seq<int>, before: seq<NodeSubset>, after: seq<NodeSubset>)
  {
    && |after| == |before|
    && (forall e :: 0 <= e < |before| ==> after[e].(outputTensors := []) == before[e].(outputTensors := []))
    && (forall e, t :: 0 <= e < |before| ==>
          (t in after[e].outputTensors <==> t in before[e].outputTensors || Marks(outputs, tensorEpochs, e, t)))
  }

  ghost predicate Uniquefied(before: NodeSubset, after: NodeSubset) {
    && after.kind == before.kind && after.nodes == before.nodes
    && StrictlySorted(IntLe, after.inputTensors) && StrictlySorted(IntLe, after.outputTensors)
    && SameElements(before.inputTensors, after.inputTensors)
    && SameElements(before.outputTensors, after.outputTensors)
  }

  method UniquefyAll(subsets: seq<NodeSubset>) returns (after: seq<NodeSubset>)
    ensures |after| == |subsets| && forall e :: 0 <= e < |subsets| ==> Uniquefied(subsets[e], after[e])
  {
    IntLeTotal();
    after := [];
    for e := 0 to |subsets|
      invariant |after| == e && forall k :: 0 <= k < e ==> Uniquefied(subsets[k], after[k])
    {
      var inputs := Uniquefy(IntLe, subsets[e].inputTensors);
      var outputs := Uniquefy(IntLe, subsets[e].outputTensors);
      after := after + [subsets[e].(inputTensors := inputs, outputTensors := outputs)];
    }
  }

  lemma InitialState(p: Problem, tensorEpochs: seq<int>, counters: seq<int>)
    requires ValidProblem(p)
    requires TensorEpochsMatch(p.g, seq(|p.g.nodes|, _ => NOT_READY), tensorEpochs)
    requires CountersMatch(|p.g.nodes|, p.edges, seq(|p.g.nodes|, _ => NOT_READY), counters)
    ensures StateMatches(p, [], seq(|p.g.nodes|, _ => NOT_READY), tensorEpochs, counters, [])
  {
  }

  /** In an acyclic problem every tensor has an epoch once the traversal is over. */
  lemma AllReady(
    p: Problem, es: Epochs, nodeEpochs: seq<int>, tensorEpochs: seq<int>, counters: seq<int>, subsets: seq<NodeSubset>)
    requires ValidProblem(p) && Acyclic(DagOf(p)) && Exhausted(DagOf(p), es)
    requires StateMatches(p, es, nodeEpochs, tensorEpochs, counters, subsets)
    ensures Done(es) == AllNodes(DagOf(p))
    ensures |tensorEpochs| == p.g.numTensors
    ensures forall t :: IsTensor(p.g, t) ==> tensorEpochs[t] == ALWAYS_READY || 0 <= tensorEpochs[t] < |subsets|
  {
    DagIsValid(p);
    CompleteIffAcyclic(DagOf(p), es);
    forall t | IsTensor(p.g, t) ensures tensorEpochs[t] == ALWAYS_READY || 0 <= tensorEpochs[t] < |subsets| {
      if tensorEpochs[t] != ALWAYS_READY {
        var i :| Writes(p.g, i, t);
        assert IsNode(DagOf(p), i) && i in Done(es);
        DoneByEpoch(|p.g.nodes|, es, nodeEpochs, i);
      }
    }
  }

  lemma FinalInterfaces(
    p: Problem, es: Epochs, nodeEpochs: seq<int>, tensorEpochs: seq<int>, counters: seq<int>,
    subsets: seq<NodeSubset>, marked: seq<NodeSubset>, sorted: seq<NodeSubset>)
    requires ValidProblem(p) && StateMatches(p, es, nodeEpochs, tensorEpochs, counters, subsets)
    requires OutputsMarked(p.g.outputs, tensorEpochs, subsets, marked)
    requires |sorted| == |marked| && forall e :: 0 <= e < |marked| ==> Uniquefied(marked[e], sorted[e])
    ensures SubsetsMatch(p, es, sorted) && InterfacesExact(p.g, es, sorted)
    ensures ValidSchedule(DagOf(p), es)
  {
    forall e | 0 <= e < |es| ensures SubsetMatches(p, es[e], sorted[e]) {
      assert Uniquefied(marked[e], sorted[e]);
      assert SubsetMatches(p, es[e], subsets[e]);
      assert marked[e].(outputTensors := []) == subsets[e].(outputTensors := []);
    }
    forall e, t | 0 <= e < |es|
      ensures t in sorted[e].inputTensors <==> ReadBy(p.g, es[e], t) && !WrittenBy(p.g, es[e], t)
    {
      assert Uniquefied(marked[e], sorted[e]);
      SameMembers(marked[e].inputTensors, sorted[e].inputTensors, t);
      assert marked[e].(outputTensors := []) == subsets[e].(outputTensors := []);
      assert t in subsets[e].inputTensors <==> ReadBy(p.g, es[e], t) && !WrittenBy(p.g, es[e], t);
    }
    forall e, t | 0 <= e < |es|
      ensures t in sorted[e].outputTensors <==>
              WrittenBy(p.g, es[e], t) && (ReadElsewhere(p.g, es, e, t) || t in p.g.outputs)
    {
      assert Uniquefied(marked[e], sorted[e]);
      SameMembers(marked[e].outputTensors, sorted[e].outputTensors, t);
      assert t in subsets[e].outputTensors <==> WrittenBy(p.g, es[e], t) && ReadElsewhere(p.g, es, e, t);
      assert t in marked[e].outputTensors <==>
             (t in subsets[e].outputTensors || Marks(p.g.outputs, tensorEpochs, e, t));
      if t in p.g.outputs {
        WrittenByEpoch(p.g, es, nodeEpochs, tensorEpochs, e, t);
      }
    }
    forall e | 0 <= e < |es|
      ensures StrictlySorted(IntLe, sorted[e].inputTensors) && StrictlySorted(IntLe, sorted[e].outputTensors)
    {
      assert Uniquefied(marked[e], sorted[e]);
    }
    assert InputsMatch(p.g, es, sorted);
  }

  lemma SameMembers(s: seq<int>, r: seq<int>, t: int)
    requires SameElements(s, r)
    ensures t in s <==> t in r
  {
  }

  lemma Finished(p: Problem, greedily: bool, disableNodeFusion: bool, subsets: seq<NodeSubset>, es: Epochs)
    requires Traversed(DagOf(p), greedily, disableNodeFusion, es, |p.g.nodes|)
    requires ValidSchedule(DagOf(p), es) && Done(es) == AllNodes(DagOf(p))
    requires SubsetsMatch(p, es, subsets) && InterfacesExact(p.g, es, subsets)
    ensures IsPartitioning(p, greedily, disableNodeFusion, subsets, es)
  {
  }

  // ---------------------------------------------------------------- default control edges

  predicate HasSideEffect(g: Graph, i: int) {
    InPlan(g, i) && g.nodes[i].mightHaveSideEffect
  }

  /** `b` is the next side-effecting node after `a`, both below `n`. */
  ghost predicate ChainEdge(g: Graph, a: int, b: int, n: int) {
    && 0 <= a < b < n && HasSideEffect(g, a) && HasSideEffect(g, b)
    && (forall k :: a < k < b ==> !HasSideEffect(g, k))
  }

  /** The order and multiplicity of control edges do not matter. */
  lemma SameDag(p: Problem, q: Problem)
    requires p.g == q.g && p.nodesToPartition == q.nodesToPartition && SameElements(p.edges, q.edges)
    ensures DagOf(p) == DagOf(q)
  {
    forall i | 0 <= i < |p.g.nodes| ensures Predecessors(p, i) == Predecessors(q, i) {
      forall j ensures MustPrecede(p, j, i) <==> MustPrecede(q, j, i) {
        assert (j, i) in p.edges <==> (j, i) in q.edges;
      }
    }
    assert DagOf(p).preds == DagOf(q).preds;
    forall i | 0 <= i < |p.g.nodes| ensures DagOf(p).kind[i] == DagOf(q).kind[i] {
      assert DagOf(p).kind[i] == TypeOf(p, i) && DagOf(q).kind[i] == TypeOf(q, i);
    }
    assert DagOf(p).kind == DagOf(q).kind;
  }

  // ---------------------------------------------------------------- the partitioner

  class PartitionImpl {
    const p: Problem
    const greedily: bool
    const disableNodeFusion: bool
    const nodeType: seq<NodeType>
    var nodeSubsets: seq<NodeSubset>
    var tensorEpochs: seq<int>
    var nodeEpochs: seq<int>
    var numIncomingControlEdges: seq<int>
    /** The schedule that the vectors describe. */
    ghost var es: Epochs

    ghost predicate Configured() {
      && |p.g.nodeIndex| == |p.g.nodes|
      && ValidProblem(p)
      && StrictlySorted(PairLe, p.edges)
      && |nodeType| == p.g.numTotalNodes
      && (forall i :: 0 <= i < |p.g.nodes| ==> nodeType[p.g.nodeIndex[i]] == TypeOf(p, i))
    }

    ghost predicate Valid()
      reads this
    {
      && Configured()
      && StateMatches(p, es, nodeEpochs, tensorEpochs, numIncomingControlEdges, nodeSubsets)
    }

    constructor (
      info: Graph, nodesToPartition: seq<int>, greedily: bool, controlEdges: seq<Edge>, disableNodeFusion: bool)
      requires ValidProblem(Problem(info, nodesToPartition, controlEdges))
      ensures Configured() && p.g == info && p.nodesToPartition == nodesToPartition
      ensures SameElements(controlEdges, p.edges)
      ensures this.greedily == greedily && this.disableNodeFusion == disableNodeFusion
    {
      PairLeTotal();
      var types := seq(info.numTotalNodes, _ => NonPartitioned);
      for k := 0 to |nodesToPartition|
        invariant |types| == info.numTotalNodes
        invariant forall i :: 0 <= i < |types| ==>
                                types[i] == if i in nodesToPartition[..k] then Partitioned else NonPartitioned
      {
        assert nodesToPartition[..k + 1] == nodesToPartition[..k] + [nodesToPartition[k]];
        types := types[nodesToPartition[k] := Partitioned];
      }
      assert nodesToPartition[..|nodesToPartition|] == nodesToPartition;
      var edges := Uniquefy(PairLe, controlEdges);
      this.p := Problem(info, nodesToPartition, edges);
      this.greedily := greedily;
      this.disableNodeFusion := disableNodeFusion;
      this.nodeType := types;
      this.nodeSubsets, this.tensorEpochs, this.nodeEpochs, this.numIncomingControlEdges := [], [], [], [];
      this.es := [];
    }

    /** Enters node `i` in the current epoch and updates every vector accordingly. */
    method AssignToEpoch(i: int)
      requires Valid() && es != [] && InPlan(p.g, i)
      requires CanRun(DagOf(p), Done(es), i)
      requires es[|es| - 1] != [] ==> nodeSubsets[|es| - 1].kind == TypeOf(p, i)
      modifies this
      ensures Valid()
      ensures es == Extend(old(es), i)
    {
      hide StateMatches, CanRun, DagOf, InterfacesRecorded, TensorsAssigned, SuccessorsReleased;
      EpochsBounded(p, es, nodeEpochs, tensorEpochs, numIncomingControlEdges, nodeSubsets);
      var tensorEpochs', counters', subsets' :=
        Advance(p, nodeType[p.g.nodeIndex[i]], tensorEpochs, numIncomingControlEdges, nodeSubsets, i);
      ScheduleOne(p, es, nodeEpochs, tensorEpochs, numIncomingControlEdges, nodeSubsets, i, tensorEpochs', counters',
                  subsets');
      nodeEpochs := nodeEpochs[i := |nodeSubsets| - 1];
      tensorEpochs := tensorEpochs';
      nodeSubsets := subsets';
      numIncomingControlEdges := counters';
      es := Extend(es, i);
    }

    /** Assigns node `i` to the current epoch exactly when it can be. */
    method UpdateNode(i: int) returns (taken: bool)
      requires Valid() && es != [] && InPlan(p.g, i)
      modifies this
      ensures Valid()
      ensures taken == old(CanTake(DagOf(p), disableNodeFusion, es, i))
      ensures es == if taken then Extend(old(es), i) else old(es)
    {
      hide InputsMatch, OutputsMatch, ReadersFollow, ValidSchedule, CanRun, Pending, Done;
      var cur := |nodeSubsets| - 1;
      ReadinessIsDecided(p, es, nodeEpochs, tensorEpochs, numIncomingControlEdges, i);
      assert SubsetMatches(p, es[cur], nodeSubsets[cur]);
      if disableNodeFusion && nodeSubsets[cur].nodes != [] {
        return false;
      }
      if nodeEpochs[i] != NOT_READY {
        return false;
      }
      var ready := InputsReady(p.g, tensorEpochs, i);
      if !ready {
        return false;
      }
      if numIncomingControlEdges[i] != 0 {
        return false;
      }
      var original := p.g.nodeIndex[i];
      var kind := if nodeSubsets[cur].kind == Unexplored then nodeType[original] else nodeSubsets[cur].kind;
      if kind == nodeType[original] {
        AssignToEpoch(i);
        return true;
      } else {
        return false;
      }
    }

    /** Fills a new epoch until nothing more can join it, or, non-greedily, until the first miss. */
    method BuildNodeSubset(ghost start: int)
      requires Valid()
      modifies this
      ensures Valid()
      ensures |es| == |old(es)| + 1 && es[..|es| - 1] == old(es)
      ensures BuiltEpoch(DagOf(p), greedily, disableNodeFusion, old(es), es[|es| - 1])
      ensures RunMode(DagOf(p), greedily, disableNodeFusion, old(es), start) ==> IsRun(DagOf(p), start, es[|es| - 1])
    {
      hide StateMatches, ValidSchedule, CanTake, IsRun, RunSoFar, OpenedRight, BuiltEpoch, CanRun;
      hide DagOf, AllNodes, ValidProblem, StrictlySorted, Done, ValidDag, ForwardDag, DoneUpTo;
      ghost var d, n, es0 := DagOf(p), |p.g.nodes|, es;
      DagIsValid(p);
      OpenEpoch(p, es, nodeEpochs, tensorEpochs, numIncomingControlEdges, nodeSubsets);
      nodeSubsets := nodeSubsets + [EMPTY_SUBSET];
      es := es + [[]];
      assert es[..|es| - 1] == es0;
      ghost var running := RunMode(d, greedily, disableNodeFusion, es0, start);
      OpenedStart(d, disableNodeFusion, es0, start);
      while true
        invariant Valid() && |es| == |es0| + 1 && es[..|es| - 1] == es0
        invariant OpenedRight(d, disableNodeFusion, es0, es[|es| - 1], 0)
        invariant running ==> RunSoFar(n, start, 0, false, es[|es| - 1])
        decreases AllNodes(d) - Done(es)
      {
        ghost var esPass := es;
        var didSomething := false;
        for i := 0 to |p.g.nodes|
          invariant Valid() && |es| == |es0| + 1 && es[..|es| - 1] == es0
          invariant OpenedRight(d, disableNodeFusion, es0, es[|es| - 1], i)
          invariant running ==> RunSoFar(n, start, i, didSomething, es[|es| - 1])
          invariant !didSomething ==> es == esPass && forall k :: 0 <= k < i ==> !CanTake(d, disableNodeFusion, es, k)
          invariant didSomething ==> AllNodes(d) - Done(es) < AllNodes(d) - Done(esPass) && es[|es| - 1] != []
        {
          ghost var before := es;
          if running { RunStep(d, es, start, i, didSomething); }
          var taken := UpdateNode(i);
          OpenedStep(d, disableNodeFusion, es0, before, i);
          if taken {
            ShrinksLeft(d, disableNodeFusion, before, i);
            didSomething := true;
          } else if didSomething && !greedily {
            BuiltAtFirstMiss(d, disableNodeFusion, es, i + 1);
            return;
          }
        }
        if running { RunRestart(d, start, didSomething, es[|es| - 1]); }
        if !didSomething {
          BuiltAtFixpoint(d, greedily, disableNodeFusion, es);
          return;
        }
        OpenedRestart(d, disableNodeFusion, es0, es[|es| - 1], n);
      }
    }

    /** Runs the traversal: epoch after epoch until one stays empty. */
    method Traverse()
      requires Valid() && es == []
      modifies this
      ensures Valid() && Exhausted(DagOf(p), es)
      ensures Traversed(DagOf(p), greedily, disableNodeFusion, es, |p.g.nodes|)
    {
      hide StateMatches, ValidSchedule, IsRun, BuiltEpoch, RunMode, Traversed, Exhausted, AllOfKind, ValidDag, DagOf,
        Done;
      ghost var d, start := DagOf(p), 0;
      DagIsValid(p);
      NothingTraversed(d, greedily, disableNodeFusion);
      while true
        invariant Valid() && Traversed(d, greedily, disableNodeFusion, es, start)
        decreases AllNodes(d) - Done(es)
      {
        ghost var before := es;
        BuildNodeSubset(start);
        ghost var cur := es[|es| - 1];
        assert es == before + [cur];
        LastEpoch(p, es, nodeEpochs, tensorEpochs, numIncomingControlEdges, nodeSubsets);
        var last := |nodeSubsets| - 1;
        if nodeSubsets[last].nodes == [] {
          DropEpoch(p, es, nodeEpochs, tensorEpochs, numIncomingControlEdges, nodeSubsets);
          nodeSubsets := nodeSubsets[..last];
          es := before;
          TraversalEnds(d, greedily, disableNodeFusion, es, start);
          return;
        }
        TraversalGoesOn(d, greedily, disableNodeFusion, before, cur, start);
        start := start + |cur|;
      }
    }

    /** Partitions the graph: the finished subsets and the schedule behind them. */
    method Partition()
      requires Configured() && Acyclic(DagOf(p))
      modifies this
      ensures IsPartitioning(p, greedily, disableNodeFusion, nodeSubsets, es)
    {
      hide StateMatches, CountersMatch, TensorEpochsMatch, DagOf, Acyclic, Exhausted, Traversed;
      nodeSubsets := [];
      tensorEpochs := InitialTensorEpochs(p.g);
      nodeEpochs := seq(|p.g.nodes|, _ => NOT_READY);
      numIncomingControlEdges := CountIncoming(|p.g.nodes|, p.edges);
      es := [];
      InitialState(p, tensorEpochs, numIncomingControlEdges);
      Traverse();
      AllReady(p, es, nodeEpochs, tensorEpochs, numIncomingControlEdges, nodeSubsets);
      var marked := MarkOutputs(p.g, tensorEpochs, nodeSubsets);
      var sorted := UniquefyAll(marked);
      FinalInterfaces(p, es, nodeEpochs, tensorEpochs, numIncomingControlEdges, nodeSubsets, marked, sorted);
      nodeSubsets := sorted;
      Finished(p, greedily, disableNodeFusion, nodeSubsets, es);
    }
  }

  /** The chain between side-effecting nodes, used when no control edges are given. */
  method SideEffectChain(g: Graph) returns (edges: seq<Edge>)
    ensures forall a, b :: (a, b) in edges <==> ChainEdge(g, a, b, |g.nodes|)
  {
    edges := [];
    var lastOpWithSideEffect := -1;
    for i := 0 to |g.nodes|
      invariant -1 <= lastOpWithSideEffect < i
      invariant lastOpWithSideEffect >= 0 ==> HasSideEffect(g, lastOpWithSideEffect)
      invariant forall k :: lastOpWithSideEffect < k < i ==> !HasSideEffect(g, k)
      invariant forall a, b :: (a, b) in edges <==> ChainEdge(g, a, b, i)
    {
      ghost var before := edges;
      if g.nodes[i].mightHaveSideEffect {
        assert HasSideEffect(g, i);
        if lastOpWithSideEffect != -1 {
          edges := edges + [(lastOpWithSideEffect, i)];
        }
        lastOpWithSideEffect := i;
      }
      forall a, b ensures (a, b) in edges <==> ChainEdge(g, a, b, i + 1) {
        assert (a, b) in before <==> ChainEdge(g, a, b, i);
      }
    }
  }

  /** The control edges that partitioning honours: those given, or the default ones. */
  ghost predicate EffectiveEdges(g: Graph, greedily: bool, given: Option<seq<Edge>>, edges: seq<Edge>) {
    match given
    case Some(es) => SameElements(es, edges)
    case None => forall a, b :: (a, b) in edges <==> greedily && ChainEdge(g, a, b, |g.nodes|)
  }

  /** `subsets` is a partitioning of the graph for the control edges in force. */
  ghost predicate IsResult(
    info: Graph, nodesToPartition: seq<int>, greedily: bool, controlEdges: Option<seq<Edge>>, disableNodeFusion: bool,
    subsets: seq<NodeSubset>)
  {
    exists edges: seq<Edge>, es: Epochs ::
      && EffectiveEdges(info, greedily, controlEdges, edges)
      && ValidProblem(Problem(info, nodesToPartition, edges))
      && IsPartitioning(Problem(info, nodesToPartition, edges), greedily, disableNodeFusion, subsets, es)
  }

  /** Subsets of nodes to partition hold nothing else, and the other subsets hold none of them. */
  lemma ResultTypes(
    info: Graph, nodesToPartition: seq<int>, greedily: bool, controlEdges: Option<seq<Edge>>, disableNodeFusion: bool,
    subsets: seq<NodeSubset>, s: NodeSubset, n: int)
    requires IsResult(info, nodesToPartition, greedily, controlEdges, disableNodeFusion, subsets)
    requires s in subsets && n in s.nodes
    ensures s.kind == Partitioned <==> n in nodesToPartition
    ensures s.kind == NonPartitioned <==> n !in nodesToPartition
  {
    hide InterfacesExact, ValidSchedule, SingleTyped, OpensWithFirstReady, MaximalRuns, Greedy, DagOf, Done, AllNodes;
    var edges: seq<Edge>, es: Epochs :|
      && EffectiveEdges(info, greedily, controlEdges, edges)
      && ValidProblem(Problem(info, nodesToPartition, edges))
      && IsPartitioning(Problem(info, nodesToPartition, edges), greedily, disableNodeFusion, subsets, es);
    var e :| 0 <= e < |subsets| && subsets[e] == s;
    assert SubsetMatches(Problem(info, nodesToPartition, edges), es[e], s);
    var k :| 0 <= k < |s.nodes| && s.nodes[k] == n;
    assert TypeOf(Problem(info, nodesToPartition, edges), es[e][k]) == s.kind;
  }

  /** `PartitionGraphIntoIndependentNodeSubsets`: explicit control edges may form any acyclic relation. */
  method PartitionGraphIntoIndependentNodeSubsets(
    info: Graph, nodesToPartition: seq<int>, greedily: bool, controlEdges: Option<seq<Edge>>, disableNodeFusion: bool)
    returns (subsets: seq<NodeSubset>)
    requires ValidProblem(Problem(info, nodesToPartition, []))
    requires controlEdges.None? ==> InPlanOrder(info)
    requires controlEdges.Some? ==>
               && EdgesInRange(info, controlEdges.value)
               && Acyclic(DagOf(Problem(info, nodesToPartition, controlEdges.value)))
    ensures IsResult(info, nodesToPartition, greedily, controlEdges, disableNodeFusion, subsets)
    ensures forall s, n :: s in subsets && n in s.nodes ==>
              && (s.kind == Partitioned <==> n in nodesToPartition)
              && (s.kind == NonPartitioned <==> n !in nodesToPartition)
  {
    var mine: seq<Edge> := [];
    match controlEdges {
      case Some(given) => mine := given;
      case None =>
        if greedily {
          mine := SideEffectChain(info);
          assert EdgesForward(mine) && EdgesInRange(info, mine) by {
            forall e | e in mine ensures e.0 < e.1 && InPlan(info, e.0) && InPlan(info, e.1) {
              assert ChainEdge(info, e.0, e.1, |info.nodes|);
            }
          }
        }
        PlanOrderIsAcyclic(Problem(info, nodesToPartition, mine));
    }
    hide Acyclic, DagOf, IsPartitioning, WellFormed;
    var impl := new PartitionImpl(info, nodesToPartition, greedily, mine, disableNodeFusion);
    SameDag(Problem(info, nodesToPartition, mine), impl.p);
    impl.Partition();
    subsets := impl.nodeSubsets;
    assert EffectiveEdges(info, greedily, controlEdges, impl.p.edges);
    assert impl.p == Problem(info, nodesToPartition, impl.p.edges) && ValidProblem(impl.p);
    assert IsPartitioning(impl.p, greedily, disableNodeFusion, subsets, impl.es);
    forall s, n | s in subsets && n in s.nodes
      ensures s.kind == Partitioned <==> n in nodesToPartition
      ensures s.kind == NonPartitioned <==> n !in nodesToPartition
    {
      ResultTypes(info, nodesToPartition, greedily, controlEdges, disableNodeFusion, subsets, s, n);
    }
  }

  // ---------------------------------------------------------------- what the result means

  /** The subsets, run one after the other, run every node of the plan exactly once. */
  lemma EveryNodeOnce(p: Problem, greedily: bool, disableNodeFusion: bool, subsets: seq<NodeSubset>, es: Epochs)
    requires IsPartitioning(p, greedily, disableNodeFusion, subsets, es)
    ensures forall i :: InPlan(p.g, i) <==> i in Flatten(es)
    ensures forall a, b :: 0 <= a < b < |Flatten(es)| ==> Flatten(es)[a] != Flatten(es)[b]
  {
    var order := Flatten(es);
    FlattenRunnable(DagOf(p), es);
    FlattenElems(es);
    DagIsValid(p);
    forall i ensures InPlan(p.g, i) <==> i in order {
      assert i in order <==> i in Elems(order);
    }
    forall a, b | 0 <= a < b < |order| ensures order[a] != order[b] {
      RunnableAt(DagOf(p), {}, order, b);
      assert order[..b][a] == order[a];
    }
  }

  /** Every data dependency and every control edge is respected by that order. */
  lemma DependenciesRespected(
    p: Problem, greedily: bool, disableNodeFusion: bool, subsets: seq<NodeSubset>, es: Epochs, j: int, i: int)
    requires ValidProblem(p) && IsPartitioning(p, greedily, disableNodeFusion, subsets, es)
    requires InPlan(p.g, i) && MustPrecede(p, j, i)
    ensures PositionOf(Flatten(es), j) < PositionOf(Flatten(es), i)
  {
    EveryNodeOnce(p, greedily, disableNodeFusion, subsets, es);
    FlattenRunnable(DagOf(p), es);
    DagIsValid(p);
    PredsAre(p, i, j);
    PositionsRank(DagOf(p), Flatten(es), i, j);
  }

  /** Control edges in force for the same request have the same members. */
  lemma EffectiveEdgesAgree(g: Graph, greedily: bool, given: Option<seq<Edge>>, a: seq<Edge>, b: seq<Edge>)
    requires EffectiveEdges(g, greedily, given, a) && EffectiveEdges(g, greedily, given, b)
    ensures SameElements(a, b)
  {
    if given.None? {
      forall e ensures e in a <==> e in b {
        var (x, y) := e;
        assert (x, y) in a <==> greedily && ChainEdge(g, x, y, |g.nodes|);
        assert (x, y) in b <==> greedily && ChainEdge(g, x, y, |g.nodes|);
      }
    }
  }

  /**
   The subsets returned in greedy mode are as few as can be: no dependency-respecting schedule in batches
   of one type that starts with the same type has fewer, and none at all has more than one fewer.
   */
  lemma ResultIsOptimal(
    info: Graph, nodesToPartition: seq<int>, controlEdges: Option<seq<Edge>>, subsets: seq<NodeSubset>,
    edges: seq<Edge>, bs: Epochs, types: seq<NodeType>)
    requires IsResult(info, nodesToPartition, true, controlEdges, false, subsets)
    requires EffectiveEdges(info, true, controlEdges, edges)
    requires var d := DagOf(Problem(info, nodesToPartition, edges));
             ValidSchedule(d, bs) && BatchKinds(d, bs, types) && Done(bs) == AllNodes(d)
    ensures |subsets| <= |bs| + 1
    ensures bs != [] && subsets != [] && types[0] == subsets[0].kind ==> |subsets| <= |bs|
  {
    hide EffectiveEdges, InterfacesExact, ValidSchedule, BatchKinds, OpensWithFirstReady, MaximalRuns, Greedy, DagOf,
      SubsetMatches, Done, AllNodes;
    var edges': seq<Edge>, es: Epochs :|
      && EffectiveEdges(info, true, controlEdges, edges')
      && ValidProblem(Problem(info, nodesToPartition, edges'))
      && IsPartitioning(Problem(info, nodesToPartition, edges'), true, false, subsets, es);
    var p := Problem(info, nodesToPartition, edges');
    EffectiveEdgesAgree(info, true, controlEdges, edges, edges');
    SameDag(Problem(info, nodesToPartition, edges), p);
    DagIsValid(p);
    GreedyIsOptimal(DagOf(p), es, bs, types);
    if es != [] {
      EpochsNonempty(DagOf(p), es, 0);
      UniformKind(p, es, subsets, 0);
    }
  }

  lemma {:induction false} EpochsNonempty(d: Dag, es: Epochs, e: nat)
    requires SingleTyped(d, es) && e < |es|
    ensures es[e] != []
  {
    if e < |es| - 1 { EpochsNonempty(d, es[..|es| - 1], e); }
  }

  /** Unless fusion is disabled, subsets that follow each other differ in type, in both modes. */
  lemma ResultAlternates(
    info: Graph, nodesToPartition: seq<int>, greedily: bool, controlEdges: Option<seq<Edge>>,
    subsets: seq<NodeSubset>, e: nat)
    requires IsResult(info, nodesToPartition, greedily, controlEdges, false, subsets) && e + 1 < |subsets|
    requires !greedily ==> InPlanOrder(info) && (controlEdges.Some? ==> EdgesForward(controlEdges.value))
    ensures subsets[e].kind != subsets[e + 1].kind
  {
    hide InterfacesExact, ValidSchedule, OpensWithFirstReady, MaximalRuns, Greedy, SubsetMatches, Done, AllNodes;
    var edges: seq<Edge>, es: Epochs :|
      && EffectiveEdges(info, greedily, controlEdges, edges)
      && ValidProblem(Problem(info, nodesToPartition, edges))
      && IsPartitioning(Problem(info, nodesToPartition, edges), greedily, false, subsets, es);
    var p := Problem(info, nodesToPartition, edges);
    EpochsNonempty(DagOf(p), es, e);
    EpochsNonempty(DagOf(p), es, e + 1);
    UniformKind(p, es, subsets, e);
    UniformKind(p, es, subsets, e + 1);
    if greedily {
      ConsecutiveTypesDiffer(DagOf(p), es, e);
    } else {
      ForwardEdgesStay(info, controlEdges, edges);
      PlanOrderIsAcyclic(p);
      RunsAlternate(DagOf(p), es, |info.nodes|, e);
    }
  }

  lemma ForwardEdgesStay(g: Graph, given: Option<seq<Edge>>, edges: seq<Edge>)
    requires EffectiveEdges(g, false, given, edges) && (given.Some? ==> EdgesForward(given.value))
    ensures EdgesForward(edges)
  {
    forall e | e in edges ensures e.0 < e.1 {
      var (x, y) := e;
      assert given.None? ==> ((x, y) in edges <==> false && ChainEdge(g, x, y, |g.nodes|));
      assert given.Some? ==> e in given.value;
    }
  }

  // ---------------------------------------------------------------- plan order without greediness

  /** The nodes of the subsets, one subset after the other. */
  function ListedNodes(subsets: seq<NodeSubset>): seq<int> {
    if subsets == [] then [] else ListedNodes(subsets[..|subsets| - 1]) + subsets[|subsets| - 1].nodes
  }

  lemma {:induction false} ListedAre(p: Problem, es: Epochs, subsets: seq<NodeSubset>)
    requires SubsetsMatch(p, es, subsets) && |p.g.nodeIndex| == |p.g.nodes|
    ensures forall k :: 0 <= k < |Flatten(es)| ==> 0 <= Flatten(es)[k] < |p.g.nodeIndex|
    ensures ListedNodes(subsets) == OriginalNodes(p.g, Flatten(es))
  {
    if es != [] {
      var k := |es| - 1;
      ListedAre(p, es[..k], subsets[..k]);
      assert SubsetMatches(p, es[k], subsets[k]);
    }
  }

  /** A partitioning that is not greedy, or does not fuse nodes, is plan order exactly for forward dependencies. */
  lemma PlanOrderIffForward(p: Problem, greedily: bool, disableNodeFusion: bool, subsets: seq<NodeSubset>, es: Epochs)
    requires IsPartitioning(p, greedily, disableNodeFusion, subsets, es) && (greedily ==> disableNodeFusion)
    ensures Flatten(es) == Interval(0, |p.g.nodes|) <==> ForwardDag(DagOf(p))
  {
    hide InterfacesExact, SubsetsMatch, Greedy, SingleTyped;
    var d, n := DagOf(p), |p.g.nodes|;
    DagIsValid(p);
    if Flatten(es) == Interval(0, n) {
      PlanOrderIsForward(d, es);
    }
    if ForwardDag(d) {
      if disableNodeFusion {
        UnfusedKeepsPlanOrder(d, es);
        FlattenElems(es);
        assert |es| < n ==> |es| in AllNodes(d);
        assert |es| !in Interval(0, |es|);
      } else {
        RunsKeepPlanOrder(d, es, n);
      }
    }
  }

  lemma DistinctListing(g: Graph, s: seq<int>)
    requires WellFormed(g) && forall k :: 0 <= k < |s| ==> 0 <= s[k] < |g.nodeIndex|
    ensures OriginalNodes(g, s) == g.nodeIndex <==> s == Interval(0, |g.nodes|)
  {
    if OriginalNodes(g, s) == g.nodeIndex {
      forall k | 0 <= k < |s| ensures s[k] == k {
        assert g.nodeIndex[s[k]] == g.nodeIndex[k];
      }
      assert s == Interval(0, |g.nodes|);
    }
  }

  lemma ForwardMeans(p: Problem, q: Problem)
    requires ValidProblem(p) && p.g == q.g && p.nodesToPartition == q.nodesToPartition && SameElements(q.edges, p.edges)
    ensures ForwardDag(DagOf(p)) <==> forall j, i :: InPlan(p.g, i) && MustPrecede(q, j, i) ==> j < i
  {
    SameDag(q, p);
    DagIsValid(p);
    hide DagOf, Predecessors;
    forall j, i | InPlan(p.g, i) ensures j in DagOf(p).preds[i] <==> MustPrecede(q, j, i) {
      PredsAre(p, i, j);
      assert (j, i) in q.edges <==> (j, i) in p.edges;
    }
    forall j, i | InPlan(p.g, i) && MustPrecede(q, j, i) ensures 0 <= j {
      PredsAre(p, i, j);
      assert (j, i) in p.edges ==> InPlan(p.g, (j, i).0);
    }
  }

  /**
   The subsets returned without greediness, or without fusion, list the nodes of the plan in its order if
   and only if every data dependency and every control edge in force points forward.
   */
  lemma ResultKeepsPlanOrder(
    info: Graph, nodesToPartition: seq<int>, greedily: bool, controlEdges: Option<seq<Edge>>, disableNodeFusion: bool,
    subsets: seq<NodeSubset>, edges: seq<Edge>)
    requires IsResult(info, nodesToPartition, greedily, controlEdges, disableNodeFusion, subsets)
    requires EffectiveEdges(info, greedily, controlEdges, edges) && (greedily ==> disableNodeFusion)
    ensures ListedNodes(subsets) == info.nodeIndex <==>
            forall j, i :: InPlan(info, i) && MustPrecede(Problem(info, nodesToPartition, edges), j, i) ==> j < i
  {
    hide EffectiveEdges, InterfacesExact, ValidSchedule, OpensWithFirstReady, MaximalRuns, Greedy, SubsetsMatch, Done,
      AllNodes, DagOf, MustPrecede;
    var edges': seq<Edge>, es: Epochs :|
      && EffectiveEdges(info, greedily, controlEdges, edges')
      && ValidProblem(Problem(info, nodesToPartition, edges'))
      && IsPartitioning(Problem(info, nodesToPartition, edges'), greedily, disableNodeFusion, subsets, es);
    var p, q := Problem(info, nodesToPartition, edges'), Problem(info, nodesToPartition, edges);
    EffectiveEdgesAgree(info, greedily, controlEdges, edges, edges');
    PlanOrderIffForward(p, greedily, disableNodeFusion, subsets, es);
    ListedAre(p, es, subsets);
    DistinctListing(info, Flatten(es));
    ForwardMeans(p, q);
  }

  /** Three nodes without tensors. */
  const BACKWARD := Graph(0, 3, [Node([], [], false), Node([], [], false), Node([], [], false)], [0, 1, 2], [])

  /** A control edge against the plan is admitted, and then the order of the plan is lost. */
  lemma BackwardEdgeBreaksPlanOrder(disableNodeFusion: bool, subsets: seq<NodeSubset>)
    ensures var p := Problem(BACKWARD, [], [(2, 1)]); ValidProblem(p) && InPlanOrder(BACKWARD) && Acyclic(DagOf(p))
    ensures IsResult(BACKWARD, [], false, Some([(2, 1)]), disableNodeFusion, subsets) ==>
              ListedNodes(subsets) != BACKWARD.nodeIndex
  {
    var p := Problem(BACKWARD, [], [(2, 1)]);
    assert forall i, t :: !Reads(BACKWARD, i, t);
    assert forall i, t :: !Writes(BACKWARD, i, t);
    assert (2, 1) in p.edges && MustPrecede(p, 2, 1);
    var rank := [0, 2, 1];
    forall i, j | IsNode(DagOf(p), i) && j in DagOf(p).preds[i] ensures IsNode(DagOf(p), j) && rank[j] < rank[i] {
      PredsAre(p, i, j);
    }
    assert RankedBy(DagOf(p), rank);
    if IsResult(BACKWARD, [], false, Some([(2, 1)]), disableNodeFusion, subsets) {
      hide IsResult, ListedNodes, DagOf;
      ResultKeepsPlanOrder(BACKWARD, [], false, Some([(2, 1)]), disableNodeFusion, subsets, [(2, 1)]);
    }
  }
}
