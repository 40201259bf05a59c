/**
 What the mutable vectors of `PartitionGraphIntoIndependentNodeSubsetsImpl` mean, and why
 scheduling one more node keeps that meaning.  Everything is stated on values: `es` is the
 schedule so far, the last epoch being the one under construction.
 */
module PartitionState {
  import opened Common
  import opened Schedules
  import opened GraphInfo

  /** `kEpochNotReady`. */
  const NOT_READY: int := -1
  /** `kEpochAlwaysReady`: an input of the model or a constant. */
  const ALWAYS_READY: int := -2

  predicate InEpoch(nodeEpochs: seq<int>, e: int, i: int) { 0 <= i < |nodeEpochs| && nodeEpochs[i] == e }

  /** `nodeEpochs` records the epoch of every scheduled node. */
  ghost predicate NodeEpochsMatch(n: nat, es: Epochs, nodeEpochs: seq<int>) {
    && |nodeEpochs| == n
    && (forall i :: 0 <= i < n ==> NOT_READY <= nodeEpochs[i] < |es|)
    && (forall e, i :: 0 <= e < |es| ==> (i in es[e] <==> InEpoch(nodeEpochs, e, i)))
  }

  /** `tensorEpochs` gives every produced tensor the epoch of its producer. */
  ghost predicate TensorEpochsMatch(g: Graph, nodeEpochs: seq<int>, tensorEpochs: seq<int>) {
    && |tensorEpochs| == g.numTensors
    && |nodeEpochs| == |g.nodes|
    && (forall i, t :: Writes(g, i, t) && IsTensor(g, t) ==> tensorEpochs[t] == nodeEpochs[i])
    && (forall t :: IsTensor(g, t) ==>
                      tensorEpochs[t] == ALWAYS_READY || exists i :: Writes(g, i, t))
  }

  /** The control edges into `i` whose source is still unscheduled. */
  function Pending(edges: seq<Edge>, nodeEpochs: seq<int>, i: int): set<Edge> {
    set e | e in edges && e.1 == i && 0 <= e.0 < |nodeEpochs| && nodeEpochs[e.0] == NOT_READY
  }

  /** The fast form of control-edge readiness: one counter per node. */
  ghost predicate CountersMatch(n: nat, edges: seq<Edge>, nodeEpochs: seq<int>, counters: seq<int>) {
    && |counters| == n
    && (forall i :: 0 <= i < n ==> counters[i] == |Pending(edges, nodeEpochs, i)|)
  }

  ghost predicate SubsetMatches(p: Problem, s: seq<int>, sub: NodeSubset) {
    && |p.g.nodeIndex| == |p.g.nodes|
    && (forall k :: 0 <= k < |s| ==> 0 <= s[k] < |p.g.nodes|)
    && sub.nodes == OriginalNodes(p.g, s)
    && sub.kind == (if s == [] then Unexplored else TypeOf(p, s[0]))
    && (forall k :: 0 <= k < |s| ==> TypeOf(p, s[k]) == sub.kind)
  }

  ghost predicate SubsetsMatch(p: Problem, es: Epochs, subsets: seq<NodeSubset>) {
    && |subsets| == |es|
    && (forall e :: 0 <= e < |es| ==> SubsetMatches(p, es[e], subsets[e]))
  }

  /** Inputs of a subset: read in it, not produced in it. */
  ghost predicate InputsMatch(g: Graph, es: Epochs, subsets: seq<NodeSubset>) {
    && |subsets| == |es|
    && (forall e, t :: 0 <= e < |es| ==>
                         (t in subsets[e].inputTensors <==> ReadBy(g, es[e], t) && !WrittenBy(g, es[e], t)))
  }

  /** Outputs of a subset so far: produced in it, read in another one. */
  ghost predicate OutputsMatch(g: Graph, es: Epochs, subsets: seq<NodeSubset>) {
    && |subsets| == |es|
    && (forall e, t :: 0 <= e < |es| ==>
                         (t in subsets[e].outputTensors <==> WrittenBy(g, es[e], t) && ReadElsewhere(g, es, e, t)))
  }

  /** Nothing scheduled reads a tensor whose producer is unscheduled or in a later epoch. */
  ghost predicate ReadersFollow(g: Graph, nodeEpochs: seq<int>) {
    && |nodeEpochs| == |g.nodes|
    && (forall i, j, t :: Reads(g, i, t) && Writes(g, j, t) && nodeEpochs[i] >= 0 ==>
          0 <= nodeEpochs[j] <= nodeEpochs[i])
  }

  /** `es` with node `i` appended to its last epoch. */
  function Extend(es: Epochs, i: int): Epochs
    requires es != []
  {
    es[..|es| - 1] + [es[|es| - 1] + [i]]
  }

  /** The condition under which `UpdateNode` assigns node `i` to the current epoch. */
  ghost predicate CanTake(d: Dag, disableNodeFusion: bool, es: Epochs, i: int)
    requires es != []
  {
    var cur := es[|es| - 1];
    && CanRun(d, Done(es), i)
    && (disableNodeFusion ==> cur == [])
    && (cur != [] ==> KindIs(d, cur[0], d.kind[i]))
  }

  // ---------------------------------------------------------------- readiness

  lemma DoneByEpoch(n: nat, es: Epochs, nodeEpochs: seq<int>, i: int)
    requires NodeEpochsMatch(n, es, nodeEpochs)
    ensures i in Done(es) <==> 0 <= i < n && nodeEpochs[i] != NOT_READY
  {
    DoneMember(es, i);
    if 0 <= i < n && nodeEpochs[i] != NOT_READY {
      assert InEpoch(nodeEpochs, nodeEpochs[i], i);
    }
  }

  /** The tests of `UpdateNode` decide whether all dependencies of a node are scheduled. */
  lemma ReadinessIsDecided(
    p: Problem, es: Epochs, nodeEpochs: seq<int>, tensorEpochs: seq<int>, counters: seq<int>, i: int)
    requires ValidProblem(p) && InPlan(p.g, i)
    requires NodeEpochsMatch(|p.g.nodes|, es, nodeEpochs)
    requires TensorEpochsMatch(p.g, nodeEpochs, tensorEpochs)
    requires CountersMatch(|p.g.nodes|, p.edges, nodeEpochs, counters)
    ensures CanRun(DagOf(p), Done(es), i) <==>
              && nodeEpochs[i] == NOT_READY
              && (forall t :: Reads(p.g, i, t) ==> tensorEpochs[t] != NOT_READY)
              && counters[i] == 0
  {
    var d := DagOf(p);
    DoneByEpoch(|p.g.nodes|, es, nodeEpochs, i);
    if d.preds[i] <= Done(es) {
      forall t | Reads(p.g, i, t) ensures tensorEpochs[t] != NOT_READY {
        if j :| Writes(p.g, j, t) {
          assert FeedsData(p.g, j, i);
          PredsAre(p, i, j);
          DoneByEpoch(|p.g.nodes|, es, nodeEpochs, j);
        }
      }
      forall e | e in Pending(p.edges, nodeEpochs, i) ensures false {
        assert e == (e.0, i);
        PredsAre(p, i, e.0);
        DoneByEpoch(|p.g.nodes|, es, nodeEpochs, e.0);
      }
      assert Pending(p.edges, nodeEpochs, i) == {};
    }
    if (forall t :: Reads(p.g, i, t) ==> tensorEpochs[t] != NOT_READY) && counters[i] == 0 {
      assert Pending(p.edges, nodeEpochs, i) == {};
      forall j | j in d.preds[i] ensures j in Done(es) {
        PredsAre(p, i, j);
        DoneByEpoch(|p.g.nodes|, es, nodeEpochs, j);
        if FeedsData(p.g, j, i) {
          var t :| Writes(p.g, j, t) && Reads(p.g, i, t);
        } else {
          assert (j, i) !in Pending(p.edges, nodeEpochs, i);
          assert InPlan(p.g, (j, i).0);
        }
      }
    }
  }

  // ---------------------------------------------------------------- scheduling one node

  lemma ExtendNodeEpochs(n: nat, es: Epochs, nodeEpochs: seq<int>, i: int)
    requires es != [] && NodeEpochsMatch(n, es, nodeEpochs) && 0 <= i < n && nodeEpochs[i] == NOT_READY
    ensures NodeEpochsMatch(n, Extend(es, i), nodeEpochs[i := |es| - 1])
  {
    var es', ne', cur := Extend(es, i), nodeEpochs[i := |es| - 1], |es| - 1;
    forall e, x | 0 <= e < |es'| ensures x in es'[e] <==> InEpoch(ne', e, x) {
      assert x in es[e] <==> InEpoch(nodeEpochs, e, x);
      if e < cur { assert es'[e] == es[e]; }
    }
  }

  lemma ExtendDone(es: Epochs, i: int)
    requires es != []
    ensures Done(Extend(es, i)) == Done(es) + {i}
  {
    assert Extend(es, i)[..|es| - 1] == es[..|es| - 1];
  }

  lemma ExtendSchedule(d: Dag, es: Epochs, i: int)
    requires es != [] && ValidSchedule(d, es) && CanRun(d, Done(es), i)
    ensures ValidSchedule(d, Extend(es, i))
    ensures Done(Extend(es, i)) == Done(es) + {i}
  {
    var k := |es| - 1;
    var es' := Extend(es, i);
    assert es'[..k] == es[..k];
    var s := es[k] + [i];
    assert s[..|s| - 1] == es[k];
  }

  /** The outputs of node `i` have moved to epoch `epoch`, the other tensors have not moved. */
  ghost predicate TensorsAssigned(g: Graph, before: seq<int>, after: seq<int>, i: int, epoch: int) {
    && |after| == |before| == g.numTensors
    && (forall t :: IsTensor(g, t) ==> after[t] == if Writes(g, i, t) then epoch else before[t])
  }

  /** Every successor of node `i` waits for one node less. */
  ghost predicate SuccessorsReleased(edges: seq<Edge>, before: seq<int>, after: seq<int>, i: int) {
    && |after| == |before|
    && (forall b :: 0 <= b < |before| ==> after[b] == before[b] - (if (i, b) in edges then 1 else 0))
  }

  lemma ExtendTensorEpochs(g: Graph, nodeEpochs: seq<int>, before: seq<int>, after: seq<int>, i: int, cur: int)
    requires TensorsInRange(g) && UniqueProducers(g) && InPlan(g, i)
    requires TensorEpochsMatch(g, nodeEpochs, before)
    requires TensorsAssigned(g, before, after, i, cur)
    ensures TensorEpochsMatch(g, nodeEpochs[i := cur], after)
  {
  }

  lemma PendingShrinks(edges: seq<Edge>, nodeEpochs: seq<int>, i: int, cur: int, b: int)
    requires 0 <= i < |nodeEpochs| && nodeEpochs[i] == NOT_READY && cur != NOT_READY
    ensures |Pending(edges, nodeEpochs[i := cur], b)| ==
              |Pending(edges, nodeEpochs, b)| - (if (i, b) in edges then 1 else 0)
  {
    var old', new' := Pending(edges, nodeEpochs, b), Pending(edges, nodeEpochs[i := cur], b);
    if (i, b) in edges {
      assert (i, b) in old';
      assert new' == old' - {(i, b)};
    } else {
      assert new' == old';
    }
  }

  lemma ExtendReadersFollow(g: Graph, nodeEpochs: seq<int>, tensorEpochs: seq<int>, i: int, cur: int)
    requires TensorsInRange(g) && InPlan(g, i) && TensorEpochsMatch(g, nodeEpochs, tensorEpochs)
    requires ReadersFollow(g, nodeEpochs) && nodeEpochs[i] == NOT_READY && cur >= 0
    requires forall j :: 0 <= j < |nodeEpochs| ==> NOT_READY <= nodeEpochs[j] <= cur
    requires forall t :: Reads(g, i, t) ==> tensorEpochs[t] != NOT_READY
    ensures ReadersFollow(g, nodeEpochs[i := cur])
  {
    var ne' := nodeEpochs[i := cur];
    forall a, j, t | Reads(g, a, t) && Writes(g, j, t) && ne'[a] >= 0 ensures 0 <= ne'[j] <= ne'[a] {
      if a != i { assert 0 <= nodeEpochs[j] <= nodeEpochs[a]; }
    }
  }

  lemma ReadByExtended(g: Graph, s: seq<int>, i: int, t: int)
    ensures ReadBy(g, s + [i], t) <==> ReadBy(g, s, t) || Reads(g, i, t)
    ensures WrittenBy(g, s + [i], t) <==> WrittenBy(g, s, t) || Writes(g, i, t)
  {
    var s' := s + [i];
    assert forall x :: x in s' <==> x in s || x == i;
    if ReadBy(g, s, t) { var x :| x in s && Reads(g, x, t); assert x in s'; }
    if WrittenBy(g, s, t) { var x :| x in s && Writes(g, x, t); assert x in s'; }
    if Reads(g, i, t) { assert i in s'; }
    if Writes(g, i, t) { assert i in s'; }
  }

  /** A tensor that node `i` is about to produce has not been read by anything scheduled. */
  lemma NotReadYet(g: Graph, es: Epochs, nodeEpochs: seq<int>, i: int, e: int, t: int)
    requires NodeEpochsMatch(|g.nodes|, es, nodeEpochs) && ReadersFollow(g, nodeEpochs)
    requires InPlan(g, i) && nodeEpochs[i] == NOT_READY && Writes(g, i, t) && 0 <= e < |es|
    ensures !ReadBy(g, es[e], t)
  {
    forall x | x in es[e] ensures !Reads(g, x, t) {
      assert InEpoch(nodeEpochs, e, x);
    }
  }

  /** Reading `read` in epoch `cur` makes `t` an input of subset `e`. */
  predicate JoinsInputs(tensorEpochs: seq<int>, read: seq<int>, cur: int, e: int, t: int) {
    e == cur && t != OPTIONAL_TENSOR && t in read && 0 <= t < |tensorEpochs| && tensorEpochs[t] != cur
  }

  /** Reading `read` in epoch `cur` makes `t` an output of subset `e`. */
  predicate JoinsOutputs(tensorEpochs: seq<int>, read: seq<int>, cur: int, e: int, t: int) {
    e != cur && t != OPTIONAL_TENSOR && t in read && 0 <= t < |tensorEpochs| && tensorEpochs[t] == e
  }

  /** `subsets` after the input loop of `UpdateNode` has run over the inputs of node `i`. */
  ghost predicate InterfacesRecorded(
    g: Graph, tensorEpochs: seq<int>, before: seq<NodeSubset>, after: seq<NodeSubset>, i: int, read: seq<int>, cur: int)
  {
    && |after| == |before|
    && |tensorEpochs| == g.numTensors
    && (forall t :: t in read && t != OPTIONAL_TENSOR ==> IsTensor(g, t))
    && (forall e :: 0 <= e < |before| ==> after[e].nodes == before[e].nodes && after[e].kind == before[e].kind)
    && (forall e, t :: 0 <= e < |before| ==>
          (t in after[e].inputTensors <==>
             t in before[e].inputTensors || JoinsInputs(tensorEpochs, read, cur, e, t)))
    && (forall e, t :: 0 <= e < |before| ==>
          (t in after[e].outputTensors <==>
             t in before[e].outputTensors || JoinsOutputs(tensorEpochs, read, cur, e, t)))
  }

  lemma WrittenByEpoch(g: Graph, es: Epochs, nodeEpochs: seq<int>, tensorEpochs: seq<int>, e: int, t: int)
    requires TensorsInRange(g) && UniqueProducers(g)
    requires NodeEpochsMatch(|g.nodes|, es, nodeEpochs) && TensorEpochsMatch(g, nodeEpochs, tensorEpochs)
    requires 0 <= e < |es| && IsTensor(g, t)
    ensures WrittenBy(g, es[e], t) <==> tensorEpochs[t] == e
  {
    if WrittenBy(g, es[e], t) {
      var x :| x in es[e] && Writes(g, x, t);
    }
    if tensorEpochs[t] == e {
      var x :| Writes(g, x, t);
      assert InEpoch(nodeEpochs, e, x);
    }
  }

  lemma ExtendInputs(
    g: Graph, es: Epochs, nodeEpochs: seq<int>, tensorEpochs: seq<int>,
    before: seq<NodeSubset>, after: seq<NodeSubset>, i: int)
    requires TensorsInRange(g) && UniqueProducers(g) && InPlan(g, i) && es != []
    requires NodeEpochsMatch(|g.nodes|, es, nodeEpochs) && nodeEpochs[i] == NOT_READY
    requires ReadersFollow(g, nodeEpochs)
    requires TensorEpochsMatch(g, nodeEpochs[i := |es| - 1], tensorEpochs)
    requires InputsMatch(g, es, before)
    requires InterfacesRecorded(g, tensorEpochs, before, after, i, g.nodes[i].inputs, |es| - 1)
    ensures InputsMatch(g, Extend(es, i), after)
  {
    var es', cur := Extend(es, i), |es| - 1;
    ExtendNodeEpochs(|g.nodes|, es, nodeEpochs, i);
    forall e, t | 0 <= e < |es'|
      ensures t in after[e].inputTensors <==> ReadBy(g, es'[e], t) && !WrittenBy(g, es'[e], t)
    {
      assert t in before[e].inputTensors <==> ReadBy(g, es[e], t) && !WrittenBy(g, es[e], t);
      if e < cur {
        assert es'[e] == es[e];
      } else {
        ReadByExtended(g, es[cur], i, t);
        if Writes(g, i, t) { NotReadYet(g, es, nodeEpochs, i, cur, t); }
        if Reads(g, i, t) { WrittenByEpoch(g, es', nodeEpochs[i := cur], tensorEpochs, cur, t); }
      }
    }
  }

  lemma ReadElsewhereExtended(g: Graph, es: Epochs, i: int, e: int, t: int)
    requires es != []
    ensures ReadElsewhere(g, Extend(es, i), e, t) <==>
              ReadElsewhere(g, es, e, t) || (e != |es| - 1 && Reads(g, i, t))
  {
    var es', cur := Extend(es, i), |es| - 1;
    ReadByExtended(g, es[cur], i, t);
    assert forall k :: 0 <= k < cur ==> es'[k] == es[k];
    if ReadElsewhere(g, es, e, t) {
      var k :| 0 <= k < |es| && k != e && ReadBy(g, es[k], t);
      assert ReadBy(g, es'[k], t);
    }
    if e != cur && Reads(g, i, t) { assert ReadBy(g, es'[cur], t); }
    if ReadElsewhere(g, es', e, t) {
      var k :| 0 <= k < |es'| && k != e && ReadBy(g, es'[k], t);
      if k < cur || ReadBy(g, es[k], t) { assert ReadBy(g, es[k], t); }
    }
  }

  lemma ExtendOutputs(
    g: Graph, es: Epochs, nodeEpochs: seq<int>, tensorEpochs: seq<int>,
    before: seq<NodeSubset>, after: seq<NodeSubset>, i: int)
    requires TensorsInRange(g) && UniqueProducers(g) && InPlan(g, i) && es != []
    requires NodeEpochsMatch(|g.nodes|, es, nodeEpochs) && nodeEpochs[i] == NOT_READY
    requires ReadersFollow(g, nodeEpochs)
    requires TensorEpochsMatch(g, nodeEpochs[i := |es| - 1], tensorEpochs)
    requires OutputsMatch(g, es, before)
    requires InterfacesRecorded(g, tensorEpochs, before, after, i, g.nodes[i].inputs, |es| - 1)
    ensures OutputsMatch(g, Extend(es, i), after)
  {
    var es', cur := Extend(es, i), |es| - 1;
    ExtendNodeEpochs(|g.nodes|, es, nodeEpochs, i);
    forall e, t | 0 <= e < |es'|
      ensures t in after[e].outputTensors <==> WrittenBy(g, es'[e], t) && ReadElsewhere(g, es', e, t)
    {
      assert t in before[e].outputTensors <==> WrittenBy(g, es[e], t) && ReadElsewhere(g, es, e, t);
      ReadElsewhereExtended(g, es, i, e, t);
      if e < cur {
        assert es'[e] == es[e];
        if Reads(g, i, t) { WrittenByEpoch(g, es', nodeEpochs[i := cur], tensorEpochs, e, t); }
      } else {
        ReadByExtended(g, es[cur], i, t);
        if Writes(g, i, t) {
          forall k | 0 <= k < |es| ensures !ReadBy(g, es[k], t) { NotReadYet(g, es, nodeEpochs, i, k, t); }
        }
      }
    }
  }

  lemma ExtendSubsets(p: Problem, es: Epochs, before: seq<NodeSubset>, after: seq<NodeSubset>, i: int)
    requires |p.g.nodeIndex| == |p.g.nodes| && InPlan(p.g, i) && es != []
    requires SubsetsMatch(p, es, before) && |after| == |before|
    requires forall e :: 0 <= e < |es| - 1 ==> after[e].nodes == before[e].nodes && after[e].kind == before[e].kind
    requires var cur := |es| - 1;
             && after[cur].nodes == before[cur].nodes + [p.g.nodeIndex[i]]
             && after[cur].kind == TypeOf(p, i)
             && (es[cur] != [] ==> before[cur].kind == TypeOf(p, i))
    ensures SubsetsMatch(p, Extend(es, i), after)
  {
    var es', cur := Extend(es, i), |es| - 1;
    forall e | 0 <= e < |es'| ensures SubsetMatches(p, es'[e], after[e]) {
      assert SubsetMatches(p, es[e], before[e]);
      if e < cur { assert es'[e] == es[e]; }
    }
  }

  // ---------------------------------------------------------------- the whole state

  /** Every vector says what it should about the schedule `es`. */
  ghost predicate StateMatches(
    p: Problem, es: Epochs, nodeEpochs: seq<int>, tensorEpochs: seq<int>, counters: seq<int>, subsets: seq<NodeSubset>)
  {
    && ValidSchedule(DagOf(p), es)
    && NodeEpochsMatch(|p.g.nodes|, es, nodeEpochs)
    && TensorEpochsMatch(p.g, nodeEpochs, tensorEpochs)
    && CountersMatch(|p.g.nodes|, p.edges, nodeEpochs, counters)
    && ReadersFollow(p.g, nodeEpochs)
    && SubsetsMatch(p, es, subsets)
    && InputsMatch(p.g, es, subsets)
    && OutputsMatch(p.g, es, subsets)
  }

  const EMPTY_SUBSET := NodeSubset(Unexplored, [], [], [])

  lemma NobodyElsewhere(g: Graph, es: Epochs, e: int, t: int)
    ensures ReadElsewhere(g, es + [[]], e, t) <==> ReadElsewhere(g, es, e, t)
  {
    var es' := es + [[]];
    if ReadElsewhere(g, es, e, t) {
      var k :| 0 <= k < |es| && k != e && ReadBy(g, es[k], t);
      assert ReadBy(g, es'[k], t);
    }
    if ReadElsewhere(g, es', e, t) {
      var k :| 0 <= k < |es'| && k != e && ReadBy(g, es'[k], t);
      assert k < |es| && ReadBy(g, es[k], t);
    }
  }

  lemma EmptyEpochSchedule(d: Dag, es: Epochs)
    ensures ValidSchedule(d, es + [[]]) <==> ValidSchedule(d, es)
    ensures Done(es + [[]]) == Done(es)
  {
    Snoc(es, []);
    assert Elems<int>([]) == {};
  }

  /** Opening an epoch changes nothing else. */
  lemma OpenEpoch(
    p: Problem, es: Epochs, nodeEpochs: seq<int>, tensorEpochs: seq<int>, counters: seq<int>, subsets: seq<NodeSubset>)
    requires |p.g.nodeIndex| == |p.g.nodes|
    requires StateMatches(p, es, nodeEpochs, tensorEpochs, counters, subsets)
    ensures StateMatches(p, es + [[]], nodeEpochs, tensorEpochs, counters, subsets + [EMPTY_SUBSET])
  {
    hide DagOf, ValidSchedule, InputsMatch, OutputsMatch, NodeEpochsMatch, TensorEpochsMatch, CountersMatch,
      ReadersFollow, SubsetsMatch;
    EmptyEpochSchedule(DagOf(p), es);
    OpenEpochInterfaces(p.g, es, subsets);
    OpenEpochNodes(p, es, nodeEpochs, subsets);
  }

  lemma OpenEpochNodes(p: Problem, es: Epochs, nodeEpochs: seq<int>, subsets: seq<NodeSubset>)
    requires |p.g.nodeIndex| == |p.g.nodes| && NodeEpochsMatch(|p.g.nodes|, es, nodeEpochs)
    requires SubsetsMatch(p, es, subsets)
    ensures NodeEpochsMatch(|p.g.nodes|, es + [[]], nodeEpochs)
    ensures SubsetsMatch(p, es + [[]], subsets + [EMPTY_SUBSET])
  {
    var es', subsets' := es + [[]], subsets + [EMPTY_SUBSET];
    forall e, i | 0 <= e < |es'| ensures i in es'[e] <==> InEpoch(nodeEpochs, e, i) {
      assert e < |es| ==> (i in es[e] <==> InEpoch(nodeEpochs, e, i));
    }
    forall e | 0 <= e < |es'| ensures SubsetMatches(p, es'[e], subsets'[e]) {
      assert e < |es| ==> SubsetMatches(p, es[e], subsets[e]);
    }
  }

  /** Dropping an epoch that stayed empty changes nothing else. */
  lemma DropEpoch(
    p: Problem, es: Epochs, nodeEpochs: seq<int>, tensorEpochs: seq<int>, counters: seq<int>, subsets: seq<NodeSubset>)
    requires |p.g.nodeIndex| == |p.g.nodes| && es != [] && es[|es| - 1] == []
    requires StateMatches(p, es, nodeEpochs, tensorEpochs, counters, subsets)
    ensures subsets != []
    ensures StateMatches(p, es[..|es| - 1], nodeEpochs, tensorEpochs, counters, subsets[..|subsets| - 1])
  {
    var es', subsets' := es[..|es| - 1], subsets[..|subsets| - 1];
    assert es == es' + [[]] && subsets == subsets' + [subsets[|subsets| - 1]];
    EmptyEpochSchedule(DagOf(p), es');
    CloseEpoch(p, es', nodeEpochs, subsets', subsets[|subsets| - 1]);
  }

  lemma OpenEpochInterfaces(g: Graph, es: Epochs, subsets: seq<NodeSubset>)
    requires InputsMatch(g, es, subsets) && OutputsMatch(g, es, subsets)
    ensures InputsMatch(g, es + [[]], subsets + [EMPTY_SUBSET])
    ensures OutputsMatch(g, es + [[]], subsets + [EMPTY_SUBSET])
  {
    var es', subsets' := es + [[]], subsets + [EMPTY_SUBSET];
    forall e, t | 0 <= e < |es'|
      ensures t in subsets'[e].outputTensors <==> WrittenBy(g, es'[e], t) && ReadElsewhere(g, es', e, t)
    {
      NobodyElsewhere(g, es, e, t);
    }
  }

  lemma CloseEpoch(p: Problem, es: Epochs, nodeEpochs: seq<int>, subsets: seq<NodeSubset>, last: NodeSubset)
    requires |p.g.nodeIndex| == |p.g.nodes| && |subsets| == |es|
    requires NodeEpochsMatch(|p.g.nodes|, es + [[]], nodeEpochs)
    requires SubsetsMatch(p, es + [[]], subsets + [last])
    requires InputsMatch(p.g, es + [[]], subsets + [last])
    requires OutputsMatch(p.g, es + [[]], subsets + [last])
    ensures NodeEpochsMatch(|p.g.nodes|, es, nodeEpochs)
    ensures SubsetsMatch(p, es, subsets)
    ensures InputsMatch(p.g, es, subsets) && OutputsMatch(p.g, es, subsets)
  {
    var es', subsets' := es + [[]], subsets + [last];
    forall i | 0 <= i < |p.g.nodes| ensures nodeEpochs[i] < |es| {
      assert i in es'[|es|] <==> InEpoch(nodeEpochs, |es|, i);
    }
    forall e, i | 0 <= e < |es| ensures i in es[e] <==> InEpoch(nodeEpochs, e, i) {
      assert i in es'[e] <==> InEpoch(nodeEpochs, e, i);
    }
    forall e | 0 <= e < |es| ensures SubsetMatches(p, es[e], subsets[e]) {
      assert SubsetMatches(p, es'[e], subsets'[e]);
    }
    forall e, t | 0 <= e < |es|
      ensures t in subsets[e].inputTensors <==> ReadBy(p.g, es[e], t) && !WrittenBy(p.g, es[e], t)
    {
      assert t in subsets'[e].inputTensors <==> ReadBy(p.g, es'[e], t) && !WrittenBy(p.g, es'[e], t);
    }
    forall e, t | 0 <= e < |es|
      ensures t in subsets[e].outputTensors <==> WrittenBy(p.g, es[e], t) && ReadElsewhere(p.g, es, e, t)
    {
      NobodyElsewhere(p.g, es, e, t);
      assert t in subsets'[e].outputTensors <==> WrittenBy(p.g, es'[e], t) && ReadElsewhere(p.g, es', e, t);
    }
  }

  /** `subsets` with node `i` entered in the current one. */
  function Enter(p: Problem, subsets: seq<NodeSubset>, i: int): seq<NodeSubset>
    requires subsets != [] && 0 <= i < |p.g.nodeIndex|
  {
    var cur := |subsets| - 1;
    subsets[cur := subsets[cur].(kind := TypeOf(p, i), nodes := subsets[cur].nodes + [p.g.nodeIndex[i]])]
  }

  lemma ExtendCounters(
    n: nat, edges: seq<Edge>, nodeEpochs: seq<int>, counters: seq<int>, counters': seq<int>, i: int, cur: int)
    requires CountersMatch(n, edges, nodeEpochs, counters) && SuccessorsReleased(edges, counters, counters', i)
    requires 0 <= i < |nodeEpochs| && nodeEpochs[i] == NOT_READY && cur != NOT_READY
    ensures CountersMatch(n, edges, nodeEpochs[i := cur], counters')
  {
    forall b | 0 <= b < n ensures counters'[b] == |Pending(edges, nodeEpochs[i := cur], b)| {
      PendingShrinks(edges, nodeEpochs, i, cur, b);
    }
  }

  lemma ScheduleOneInterfaces(
    p: Problem, es: Epochs, nodeEpochs: seq<int>, subsets: seq<NodeSubset>,
    i: int, tensorEpochs': seq<int>, subsets': seq<NodeSubset>)
    requires WellFormed(p.g) && es != [] && InPlan(p.g, i)
    requires NodeEpochsMatch(|p.g.nodes|, es, nodeEpochs) && nodeEpochs[i] == NOT_READY
    requires ReadersFollow(p.g, nodeEpochs)
    requires SubsetsMatch(p, es, subsets) && InputsMatch(p.g, es, subsets) && OutputsMatch(p.g, es, subsets)
    requires TensorEpochsMatch(p.g, nodeEpochs[i := |es| - 1], tensorEpochs')
    requires es[|es| - 1] != [] ==> subsets[|es| - 1].kind == TypeOf(p, i)
    requires InterfacesRecorded(p.g, tensorEpochs', Enter(p, subsets, i), subsets', i, p.g.nodes[i].inputs, |es| - 1)
    ensures SubsetsMatch(p, Extend(es, i), subsets')
    ensures InputsMatch(p.g, Extend(es, i), subsets')
    ensures OutputsMatch(p.g, Extend(es, i), subsets')
  {
    var entered := Enter(p, subsets, i);
    SameInterfaces(p.g, es, subsets, entered);
    ExtendInputs(p.g, es, nodeEpochs, tensorEpochs', entered, subsets', i);
    ExtendOutputs(p.g, es, nodeEpochs, tensorEpochs', entered, subsets', i);
    ExtendSubsets(p, es, subsets, subsets', i);
  }

  /** The effect of a successful `UpdateNode`, all vectors together. */
  lemma ScheduleOne(
    p: Problem, es: Epochs, nodeEpochs: seq<int>, tensorEpochs: seq<int>, counters: seq<int>, subsets: seq<NodeSubset>,
    i: int, tensorEpochs': seq<int>, counters': seq<int>, subsets': seq<NodeSubset>)
    requires ValidProblem(p) && es != [] && InPlan(p.g, i)
    requires StateMatches(p, es, nodeEpochs, tensorEpochs, counters, subsets)
    requires CanRun(DagOf(p), Done(es), i)
    requires es[|es| - 1] != [] ==> subsets[|es| - 1].kind == TypeOf(p, i)
    requires TensorsAssigned(p.g, tensorEpochs, tensorEpochs', i, |es| - 1)
    requires SuccessorsReleased(p.edges, counters, counters', i)
    requires InterfacesRecorded(p.g, tensorEpochs', Enter(p, subsets, i), subsets', i, p.g.nodes[i].inputs, |es| - 1)
    ensures StateMatches(p, Extend(es, i), nodeEpochs[i := |es| - 1], tensorEpochs', counters', subsets')
  {
    hide DagOf, ValidSchedule, CanRun, TensorEpochsMatch, CountersMatch, ReadersFollow, SubsetsMatch, InputsMatch,
      OutputsMatch,
         TensorsAssigned, SuccessorsReleased, InterfacesRecorded, Extend, Done, Reads, TypeOf, Enter;
    var n, cur := |p.g.nodes|, |es| - 1;
    ReadinessIsDecided(p, es, nodeEpochs, tensorEpochs, counters, i);
    ExtendSchedule(DagOf(p), es, i);
    ExtendNodeEpochs(n, es, nodeEpochs, i);
    ExtendTensorEpochs(p.g, nodeEpochs, tensorEpochs, tensorEpochs', i, cur);
    ExtendReadersFollow(p.g, nodeEpochs, tensorEpochs, i, cur);
    ExtendCounters(n, p.edges, nodeEpochs, counters, counters', i, cur);
    ScheduleOneInterfaces(p, es, nodeEpochs, subsets, i, tensorEpochs', subsets');
  }

  lemma SameInterfaces(g: Graph, es: Epochs, a: seq<NodeSubset>, b: seq<NodeSubset>)
    requires |a| == |b| && InputsMatch(g, es, a) && OutputsMatch(g, es, a)
    requires forall e :: 0 <= e < |a| ==>
               b[e].inputTensors == a[e].inputTensors && b[e].outputTensors == a[e].outputTensors
    ensures InputsMatch(g, es, b) && OutputsMatch(g, es, b)
  {
  }
}
