/**
 What `graph_info.h` promises of the returned subsets, in terms of the graph alone: which nodes they
 list, in which order, and with which interface tensors.
 */
module PartitionResult {
  import opened Common
  import opened Ordering
  import opened Schedules
  import opened GraphInfo
  import opened PartitionState
  import opened Partitioner

  /** The subset lists node `i` of the plan. */
  predicate Lists(info: Graph, subset: NodeSubset, i: int) {
    0 <= i < |info.nodes| && i < |info.nodeIndex| && info.nodeIndex[i] in subset.nodes
  }

  /** A node of the subset has tensor `t` among its inputs. */
  ghost predicate TakesIn(info: Graph, subset: NodeSubset, t: int) {
    exists i :: Lists(info, subset, i) && t in info.nodes[i].inputs
  }

  /** A node of the subset has tensor `t` among its outputs. */
  ghost predicate GivesOut(info: Graph, subset: NodeSubset, t: int) {
    exists i :: Lists(info, subset, i) && t in info.nodes[i].outputs
  }

  /** Node `i` is in epoch `e` exactly if that subset lists it. */
  lemma MemberIff(p: Problem, es: Epochs, subsets: seq<NodeSubset>, e: int, i: int)
    requires WellFormed(p.g) && SubsetsMatch(p, es, subsets) && 0 <= e < |es|
    ensures i in es[e] <==> Lists(p.g, subsets[e], i)
  {
    assert SubsetMatches(p, es[e], subsets[e]);
    if i in es[e] {
      var k :| 0 <= k < |es[e]| && es[e][k] == i;
      assert subsets[e].nodes[k] == p.g.nodeIndex[i];
    }
    if Lists(p.g, subsets[e], i) {
      var k :| 0 <= k < |subsets[e].nodes| && subsets[e].nodes[k] == p.g.nodeIndex[i];
      assert es[e][k] == i;
    }
  }

  lemma TensorsOfEpoch(p: Problem, es: Epochs, subsets: seq<NodeSubset>, e: int, t: int)
    requires WellFormed(p.g) && SubsetsMatch(p, es, subsets) && 0 <= e < |es|
    ensures ReadBy(p.g, es[e], t) <==> t != OPTIONAL_TENSOR && TakesIn(p.g, subsets[e], t)
    ensures WrittenBy(p.g, es[e], t) <==> t != OPTIONAL_TENSOR && GivesOut(p.g, subsets[e], t)
  {
    hide WellFormed, Lists;
    forall i ensures i in es[e] <==> Lists(p.g, subsets[e], i) { MemberIff(p, es, subsets, e, i); }
    assert forall i :: Lists(p.g, subsets[e], i) ==> InPlan(p.g, i) by { ListsPlan(p.g, subsets[e]); }
  }

  lemma ListsPlan(g: Graph, subset: NodeSubset)
    ensures forall i :: Lists(g, subset, i) ==> InPlan(g, i)
  {
  }

  /** The schedule behind a result. */
  lemma Schedule(
    info: Graph, nodesToPartition: seq<int>, greedily: bool, controlEdges: Option<seq<Edge>>, disableNodeFusion: bool,
    subsets: seq<NodeSubset>) returns (p: Problem, es: Epochs)
    requires IsResult(info, nodesToPartition, greedily, controlEdges, disableNodeFusion, subsets)
    ensures p.g == info && p.nodesToPartition == nodesToPartition && ValidProblem(p)
    ensures EffectiveEdges(info, greedily, controlEdges, p.edges)
    ensures IsPartitioning(p, greedily, disableNodeFusion, subsets, es)
  {
    hide EffectiveEdges, ValidProblem, IsPartitioning;
    var edges: seq<Edge>;
    edges, es :|
      && EffectiveEdges(info, greedily, controlEdges, edges)
      && ValidProblem(Problem(info, nodesToPartition, edges))
      && IsPartitioning(Problem(info, nodesToPartition, edges), greedily, disableNodeFusion, subsets, es);
    p := Problem(info, nodesToPartition, edges);
  }

  lemma InterfaceOf(g: Graph, es: Epochs, subsets: seq<NodeSubset>, e: nat, t: int)
    requires InterfacesExact(g, es, subsets) && e < |es|
    ensures |subsets| == |es|
    ensures t in subsets[e].inputTensors <==> ReadBy(g, es[e], t) && !WrittenBy(g, es[e], t)
    ensures t in subsets[e].outputTensors <==>
              && WrittenBy(g, es[e], t)
              && (t in g.outputs || exists f :: 0 <= f < |es| && f != e && ReadBy(g, es[f], t))
  {
    hide ReadBy, WrittenBy;
    assert ReadElsewhere(g, es, e, t) <==> exists f :: 0 <= f < |es| && f != e && ReadBy(g, es[f], t);
    assert InputsMatch(g, es, subsets);
    assert t in subsets[e].outputTensors <==> WrittenBy(g, es[e], t) && (ReadElsewhere(g, es, e, t) || t in g.outputs);
  }

  /**
   The input tensors of a subset are those that its nodes take from outside; its output tensors are those
   that its nodes give out and that are graph outputs or taken by another subset.  Both are listed in
   ascending order.
   */
  lemma ResultInterfaces(
    info: Graph, nodesToPartition: seq<int>, greedily: bool, controlEdges: Option<seq<Edge>>, disableNodeFusion: bool,
    subsets: seq<NodeSubset>, e: nat, t: int)
    requires IsResult(info, nodesToPartition, greedily, controlEdges, disableNodeFusion, subsets) && e < |subsets|
    ensures t in subsets[e].inputTensors <==>
              t != OPTIONAL_TENSOR && TakesIn(info, subsets[e], t) && !GivesOut(info, subsets[e], t)
    ensures t in subsets[e].outputTensors <==>
              && t != OPTIONAL_TENSOR && GivesOut(info, subsets[e], t)
              && (t in info.outputs || exists f :: 0 <= f < |subsets| && f != e && TakesIn(info, subsets[f], t))
    ensures forall a, b :: 0 <= a < b < |subsets[e].inputTensors| ==>
              subsets[e].inputTensors[a] < subsets[e].inputTensors[b]
    ensures forall a, b :: 0 <= a < b < |subsets[e].outputTensors| ==>
              subsets[e].outputTensors[a] < subsets[e].outputTensors[b]
  {
    hide IsResult, ValidSchedule, SingleTyped, OpensWithFirstReady, MaximalRuns, Greedy, DagOf, Done, AllNodes,
      SubsetsMatch, WellFormed, TakesIn, GivesOut, ReadBy, WrittenBy, EffectiveEdges;
    var p, es := Schedule(info, nodesToPartition, greedily, controlEdges, disableNodeFusion, subsets);
    forall f | 0 <= f < |es|
      ensures ReadBy(info, es[f], t) <==> t != OPTIONAL_TENSOR && TakesIn(info, subsets[f], t)
      ensures WrittenBy(info, es[f], t) <==> t != OPTIONAL_TENSOR && GivesOut(info, subsets[f], t)
    {
      TensorsOfEpoch(p, es, subsets, f, t);
    }
    InterfaceOf(info, es, subsets, e, t);
  }

  /** The subsets list every node of the plan, each once, and none is empty; without fusion each lists one node. */
  lemma ResultListsPlan(
    info: Graph, nodesToPartition: seq<int>, greedily: bool, controlEdges: Option<seq<Edge>>, disableNodeFusion: bool,
    subsets: seq<NodeSubset>)
    requires IsResult(info, nodesToPartition, greedily, controlEdges, disableNodeFusion, subsets)
    ensures forall n :: n in ListedNodes(subsets) <==> n in info.nodeIndex
    ensures forall a, b :: 0 <= a < b < |ListedNodes(subsets)| ==> ListedNodes(subsets)[a] != ListedNodes(subsets)[b]
    ensures forall s :: s in subsets ==> s.nodes != [] && (disableNodeFusion ==> |s.nodes| == 1)
  {
    hide IsResult, ListedNodes, Flatten, EffectiveEdges, InterfacesExact;
    var p, es := Schedule(info, nodesToPartition, greedily, controlEdges, disableNodeFusion, subsets);
    hide IsPartitioning;
    SubsetsNonempty(p, greedily, disableNodeFusion, subsets, es);
    EveryNodeOnce(p, greedily, disableNodeFusion, subsets, es);
    ListedOf(p, greedily, disableNodeFusion, subsets, es);
    var order, listed := Flatten(es), ListedNodes(subsets);
    forall n ensures n in listed <==> n in info.nodeIndex {
      if n in info.nodeIndex {
        var i :| 0 <= i < |info.nodeIndex| && info.nodeIndex[i] == n;
        assert i in order;
        var k :| 0 <= k < |order| && order[k] == i;
        assert listed[k] == n;
      }
    }
  }

  lemma SubsetsNonempty(
    p: Problem, greedily: bool, disableNodeFusion: bool, subsets: seq<NodeSubset>, es: Epochs)
    requires IsPartitioning(p, greedily, disableNodeFusion, subsets, es)
    ensures forall s :: s in subsets ==> s.nodes != [] && (disableNodeFusion ==> |s.nodes| == 1)
  {
    hide ValidSchedule, OpensWithFirstReady, MaximalRuns, Greedy, DagOf, Done, AllNodes, InterfacesExact, SingleTyped;
    forall e | 0 <= e < |subsets|
      ensures subsets[e].nodes != [] && (disableNodeFusion ==> |subsets[e].nodes| == 1)
    {
      EpochsNonempty(DagOf(p), es, e);
      assert SubsetMatches(p, es[e], subsets[e]);
    }
  }

  lemma ListedOf(p: Problem, greedily: bool, disableNodeFusion: bool, subsets: seq<NodeSubset>, es: Epochs)
    requires WellFormed(p.g) && IsPartitioning(p, greedily, disableNodeFusion, subsets, es)
    ensures |ListedNodes(subsets)| == |Flatten(es)| && |p.g.nodeIndex| == |p.g.nodes|
    ensures forall k :: 0 <= k < |Flatten(es)| ==>
              0 <= Flatten(es)[k] < |p.g.nodes| && ListedNodes(subsets)[k] == p.g.nodeIndex[Flatten(es)[k]]
    ensures forall i, j :: 0 <= i < j < |p.g.nodeIndex| ==> p.g.nodeIndex[i] != p.g.nodeIndex[j]
  {
    hide ValidSchedule, SingleTyped, OpensWithFirstReady, MaximalRuns, Greedy, DagOf, Done, AllNodes, InterfacesExact,
      SubsetsMatch;
    ListedAre(p, es, subsets);
  }

  /** Node `j` is the last one with a side effect before node `i`, which has one too. */
  ghost predicate PreviousSideEffect(info: Graph, j: int, i: int) {
    && 0 <= j < i < |info.nodes| && info.nodes[j].mightHaveSideEffect && info.nodes[i].mightHaveSideEffect
    && (forall k :: j < k < i ==> !info.nodes[k].mightHaveSideEffect)
  }

  /**
   Node `i` of the plan has to wait for node `j`: it takes a tensor that `j` gives out, or a control edge
   says so.  If no edges are given, a greedy partitioning keeps side effects in order.
   */
  ghost predicate WaitsFor(info: Graph, greedily: bool, controlEdges: Option<seq<Edge>>, j: int, i: int) {
    && 0 <= j < |info.nodes| && 0 <= i < |info.nodes|
    && (|| (exists t :: t != OPTIONAL_TENSOR && t in info.nodes[j].outputs && t in info.nodes[i].inputs)
        || (controlEdges.Some? && (j, i) in controlEdges.value)
        || (controlEdges.None? && greedily && PreviousSideEffect(info, j, i)))
  }

  /** That is what the schedule behind a result goes by. */
  lemma WaitsIff(p: Problem, greedily: bool, controlEdges: Option<seq<Edge>>, j: int, i: int)
    requires EffectiveEdges(p.g, greedily, controlEdges, p.edges) && EdgesInRange(p.g, p.edges)
    ensures WaitsFor(p.g, greedily, controlEdges, j, i) <==> InPlan(p.g, j) && InPlan(p.g, i) && MustPrecede(p, j, i)
  {
    if controlEdges.None? {
      assert (j, i) in p.edges <==> greedily && ChainEdge(p.g, j, i, |p.g.nodes|);
      assert forall k :: HasSideEffect(p.g, k) <==> 0 <= k < |p.g.nodes| && p.g.nodes[k].mightHaveSideEffect;
      if ChainEdge(p.g, j, i, |p.g.nodes|) {
        assert forall k :: j < k < i && p.g.nodes[k].mightHaveSideEffect ==> HasSideEffect(p.g, k);
      }
    }
    if t :| Writes(p.g, j, t) && Reads(p.g, i, t) {
      assert t in p.g.nodes[j].outputs && t in p.g.nodes[i].inputs;
    }
    if t :| WaitsFor(p.g, greedily, controlEdges, j, i) && t != OPTIONAL_TENSOR
            && t in p.g.nodes[j].outputs && t in p.g.nodes[i].inputs {
      assert Writes(p.g, j, t) && Reads(p.g, i, t);
    }
  }

  /** Every node is listed after all nodes it waits for, in its own subset and in earlier ones. */
  lemma ResultKeepsDependencies(
    info: Graph, nodesToPartition: seq<int>, greedily: bool, controlEdges: Option<seq<Edge>>, disableNodeFusion: bool,
    subsets: seq<NodeSubset>, j: int, i: int) returns (a: nat, b: nat)
    requires IsResult(info, nodesToPartition, greedily, controlEdges, disableNodeFusion, subsets)
    requires WaitsFor(info, greedily, controlEdges, j, i)
    ensures a < b < |ListedNodes(subsets)| && |info.nodeIndex| == |info.nodes|
    ensures ListedNodes(subsets)[a] == info.nodeIndex[j] && ListedNodes(subsets)[b] == info.nodeIndex[i]
  {
    hide IsResult, ListedNodes, Flatten, IsPartitioning, MustPrecede;
    var p, es := Schedule(info, nodesToPartition, greedily, controlEdges, disableNodeFusion, subsets);
    EveryNodeOnce(p, greedily, disableNodeFusion, subsets, es);
    ListedOf(p, greedily, disableNodeFusion, subsets, es);
    WaitsIff(p, greedily, controlEdges, j, i);
    DependenciesRespected(p, greedily, disableNodeFusion, subsets, es, j, i);
    var order := Flatten(es);
    assert InPlan(info, j) && j in order && i in order;
    a :| 0 <= a < |order| && order[a] == j;
    b :| 0 <= b < |order| && order[b] == i;
    PositionOfIs(order, a) by { assert forall k :: 0 <= k < a ==> order[k] != order[a]; }
    PositionOfIs(order, b) by { assert forall k :: 0 <= k < b ==> order[k] != order[b]; }
  }

  // ---------------------------------------------------------------- when a subset begins and ends

  /** One of the first `n` subsets lists node `i`. */
  ghost predicate ListedBefore(info: Graph, subsets: seq<NodeSubset>, n: int, i: int) {
    exists f :: 0 <= f < n && f < |subsets| && Lists(info, subsets[f], i)
  }

  lemma {:induction false} DoneIff(p: Problem, es: Epochs, subsets: seq<NodeSubset>, n: nat, i: int)
    requires WellFormed(p.g) && SubsetsMatch(p, es, subsets) && n <= |es|
    ensures i in Done(es[..n]) <==> ListedBefore(p.g, subsets, n, i)
  {
    hide WellFormed, SubsetsMatch, Lists, Done;
    DoneMember(es[..n], i);
    forall f | 0 <= f < |es| ensures |subsets| == |es| && (i in es[f] <==> Lists(p.g, subsets[f], i)) {
      assert |subsets| == |es| by { SameNumber(p, es, subsets); }
      MemberIff(p, es, subsets, f, i);
    }
    if ListedBefore(p.g, subsets, n, i) {
      var f :| 0 <= f < n && f < |subsets| && Lists(p.g, subsets[f], i);
      assert es[..n][f] == es[f];
    }
    if f :| 0 <= f < n && i in es[..n][f] {
      assert es[..n][f] == es[f];
    }
  }

  lemma SameNumber(p: Problem, es: Epochs, subsets: seq<NodeSubset>)
    requires SubsetsMatch(p, es, subsets)
    ensures |subsets| == |es|
  {
  }

  /** All nodes that node `i` waits for are listed by the first `n` subsets. */
  ghost predicate Ready(
    info: Graph, greedily: bool, controlEdges: Option<seq<Edge>>, subsets: seq<NodeSubset>, n: int, i: int)
  {
    && 0 <= i < |info.nodes| && !ListedBefore(info, subsets, n, i)
    && (forall j :: WaitsFor(info, greedily, controlEdges, j, i) ==> ListedBefore(info, subsets, n, j))
  }

  lemma ReadyIff(
    p: Problem, greedily: bool, controlEdges: Option<seq<Edge>>, es: Epochs, subsets: seq<NodeSubset>, n: nat, i: int)
    requires ValidProblem(p) && EffectiveEdges(p.g, greedily, controlEdges, p.edges)
    requires SubsetsMatch(p, es, subsets) && n <= |es|
    ensures Ready(p.g, greedily, controlEdges, subsets, n, i) <==> CanRun(DagOf(p), Done(es[..n]), i)
  {
    assert WellFormed(p.g) && EdgesInRange(p.g, p.edges);
    hide ValidProblem, WellFormed, EffectiveEdges, SubsetsMatch, Done, MustPrecede, DagOf, WaitsFor, ListedBefore,
      EdgesInRange;
    var d := DagOf(p);
    DagIsValid(p);
    forall j ensures j in Done(es[..n]) <==> ListedBefore(p.g, subsets, n, j) { DoneIff(p, es, subsets, n, j); }
    if InPlan(p.g, i) {
      forall j ensures j in d.preds[i] <==> WaitsFor(p.g, greedily, controlEdges, j, i) {
        PredsAre(p, i, j);
        WaitsIff(p, greedily, controlEdges, j, i);
        assert j in d.preds[i] ==> InPlan(p.g, j) by { assert IsNode(d, i); }
      }
    }
  }

  lemma {:induction false} OpensAt(d: Dag, es: Epochs, e: nat)
    requires OpensWithFirstReady(d, es) && e < |es|
    ensures es[e] != [] && forall i :: 0 <= i < es[e][0] ==> !CanRun(d, Done(es[..e]), i)
  {
    hide CanRun, Done;
    var k := |es| - 1;
    if e < k {
      OpensAt(d, es[..k], e);
      assert es[..k][..e] == es[..e];
    }
  }

  lemma {:induction false} GreedyAt(d: Dag, es: Epochs, e: nat)
    requires Greedy(d, es) && e < |es|
    ensures es[e] != [] && IsNode(d, es[e][0]) && NoneLeft(d, Done(es[..e + 1]), d.kind[es[e][0]])
  {
    hide NoneLeft, Done;
    var k := |es| - 1;
    if e < k {
      GreedyAt(d, es[..k], e);
      assert es[..k][..e + 1] == es[..e + 1];
    } else {
      assert es[..e + 1] == es;
    }
  }

  /** A subset opens with the first node of the plan that is ready when the subsets before it have been run. */
  lemma ResultOpensWithFirstReady(
    info: Graph, nodesToPartition: seq<int>, greedily: bool, controlEdges: Option<seq<Edge>>, disableNodeFusion: bool,
    subsets: seq<NodeSubset>, e: nat, i: int)
    requires IsResult(info, nodesToPartition, greedily, controlEdges, disableNodeFusion, subsets) && e < |subsets|
    requires Lists(info, subsets[e], i) && subsets[e].nodes[0] == info.nodeIndex[i]
    ensures forall k :: 0 <= k < i ==> !Ready(info, greedily, controlEdges, subsets, e, k)
  {
    hide IsResult, ValidSchedule, SingleTyped, OpensWithFirstReady, MaximalRuns, Greedy, DagOf, Done, AllNodes,
      InterfacesExact, SubsetsMatch, CanRun, EffectiveEdges, ValidProblem, Ready;
    var p, es := Schedule(info, nodesToPartition, greedily, controlEdges, disableNodeFusion, subsets);
    SameNumber(p, es, subsets);
    OpensAt(DagOf(p), es, e);
    FirstOf(p, es, subsets, e, i);
    forall k | 0 <= k < i ensures !Ready(info, greedily, controlEdges, subsets, e, k) {
      ReadyIff(p, greedily, controlEdges, es, subsets, e, k);
    }
  }

  lemma FirstOf(p: Problem, es: Epochs, subsets: seq<NodeSubset>, e: nat, i: int)
    requires ValidProblem(p) && SubsetsMatch(p, es, subsets) && e < |es| && |subsets| == |es| && es[e] != []
    requires Lists(p.g, subsets[e], i) && subsets[e].nodes[0] == p.g.nodeIndex[i]
    ensures es[e][0] == i
  {
    assert SubsetMatches(p, es[e], subsets[e]);
    assert p.g.nodeIndex[es[e][0]] == p.g.nodeIndex[i];
  }

  /** Greedily, a subset goes on for as long as it can: when it ends, no node of its type is ready. */
  lemma ResultLeavesNone(
    info: Graph, nodesToPartition: seq<int>, controlEdges: Option<seq<Edge>>, subsets: seq<NodeSubset>, e: nat, i: int)
    requires IsResult(info, nodesToPartition, true, controlEdges, false, subsets) && e < |subsets|
    requires 0 <= i < |info.nodes| && i < |info.nodeIndex|
    requires subsets[e].kind == Partitioned <==> info.nodeIndex[i] in nodesToPartition
    ensures !Ready(info, true, controlEdges, subsets, e + 1, i)
  {
    hide IsResult, ValidSchedule, SingleTyped, OpensWithFirstReady, MaximalRuns, Greedy, Done, AllNodes,
      InterfacesExact, SubsetsMatch, CanRun, EffectiveEdges, ValidProblem, Ready;
    var p, es := Schedule(info, nodesToPartition, true, controlEdges, false, subsets);
    SameNumber(p, es, subsets);
    GreedyAt(DagOf(p), es, e);
    UniformKind(p, es, subsets, e);
    ReadyIff(p, true, controlEdges, es, subsets, e + 1, i);
  }
}
