/**
 The inference graph as `graph_info.h` presents it: execution nodes connected by tensors,
 and the dependencies that every schedule of its nodes has to respect.
 */
module GraphInfo {
  import opened Common
  import opened Schedules

  datatype Node = Node(inputs: seq<int>, outputs: seq<int>, mightHaveSideEffect: bool)

  /** `nodes` is the execution plan; `nodeIndex` maps plan positions to original node indices. */
  datatype Graph = Graph(
    numTensors: nat,
    numTotalNodes: nat,
    nodes: seq<Node>,
    nodeIndex: seq<int>,
    outputs: seq<int>)

  /** A control edge `(a, b)` says that node `b` depends on node `a`. */
  type Edge = (int, int)

  predicate Reads(g: Graph, i: int, t: int) {
    0 <= i < |g.nodes| && t != OPTIONAL_TENSOR && t in g.nodes[i].inputs
  }

  predicate Writes(g: Graph, i: int, t: int) {
    0 <= i < |g.nodes| && t != OPTIONAL_TENSOR && t in g.nodes[i].outputs
  }

  predicate IsTensor(g: Graph, t: int) { 0 <= t < g.numTensors }

  predicate InPlan(g: Graph, i: int) { 0 <= i < |g.nodes| }

  /** Indices are in range, every tensor has at most one producer, plan positions are distinct nodes. */
  ghost predicate WellFormed(g: Graph) {
    && |g.nodeIndex| == |g.nodes|
    && (forall i :: 0 <= i < |g.nodes| ==> 0 <= g.nodeIndex[i] < g.numTotalNodes)
    && (forall i, j :: 0 <= i < j < |g.nodes| ==> g.nodeIndex[i] != g.nodeIndex[j])
    && TensorsInRange(g)
    && UniqueProducers(g)
    && (forall k :: 0 <= k < |g.outputs| ==> IsTensor(g, g.outputs[k]))
  }

  ghost predicate TensorsInRange(g: Graph) {
    && (forall i, t :: Reads(g, i, t) ==> IsTensor(g, t))
    && (forall i, t :: Writes(g, i, t) ==> IsTensor(g, t))
  }

  ghost predicate UniqueProducers(g: Graph) {
    forall i, j, t :: Writes(g, i, t) && Writes(g, j, t) ==> i == j
  }

  /** The plan is in dependency order: producers precede readers. */
  ghost predicate InPlanOrder(g: Graph) {
    forall i, j, t :: Writes(g, j, t) && Reads(g, i, t) ==> j < i
  }

  ghost predicate EdgesInRange(g: Graph, edges: seq<Edge>) {
    forall e :: e in edges ==> InPlan(g, e.0) && InPlan(g, e.1)
  }

  /** All control edges point forward in the plan. */
  ghost predicate EdgesForward(edges: seq<Edge>) {
    forall e :: e in edges ==> e.0 < e.1
  }

  /** A partitioning problem: the graph, the nodes the delegate wants, the control edges. */
  datatype Problem = Problem(g: Graph, nodesToPartition: seq<int>, edges: seq<Edge>)

  ghost predicate ValidProblem(p: Problem) {
    && WellFormed(p.g)
    && EdgesInRange(p.g, p.edges)
    && (forall k :: 0 <= k < |p.nodesToPartition| ==> 0 <= p.nodesToPartition[k] < p.g.numTotalNodes)
  }

  function TypeOf(p: Problem, i: int): NodeType {
    if 0 <= i < |p.g.nodeIndex| && p.g.nodeIndex[i] in p.nodesToPartition then Partitioned else NonPartitioned
  }

  /** Node `i` reads a tensor that node `j` produces. */
  ghost predicate FeedsData(g: Graph, j: int, i: int) {
    exists t :: Writes(g, j, t) && Reads(g, i, t)
  }

  /** Node `j` has to run before node `i`. */
  ghost predicate MustPrecede(p: Problem, j: int, i: int) {
    FeedsData(p.g, j, i) || (j, i) in p.edges
  }

  ghost function Predecessors(p: Problem, i: int): set<int> {
    set j | 0 <= j < |p.g.nodes| && MustPrecede(p, j, i)
  }

  /** The dependency graph of a problem. */
  ghost function DagOf(p: Problem): Dag {
    Dag(seq(|p.g.nodes|, i => Predecessors(p, i)), seq(|p.g.nodes|, i => TypeOf(p, i)))
  }

  lemma DagIsValid(p: Problem)
    ensures ValidDag(DagOf(p)) && |DagOf(p).preds| == |DagOf(p).kind| == |p.g.nodes|
    ensures AllNodes(DagOf(p)) == set i | 0 <= i < |p.g.nodes| && InPlan(p.g, i)
  {
  }

  lemma PredsAre(p: Problem, i: int, j: int)
    requires EdgesInRange(p.g, p.edges) && InPlan(p.g, i)
    ensures j in DagOf(p).preds[i] <==> MustPrecede(p, j, i)
  {
    assert (j, i) in p.edges ==> InPlan(p.g, (j, i).0);
  }

  /** Plan order together with forward edges is the usual way to be acyclic. */
  lemma PlanOrderIsAcyclic(p: Problem)
    requires InPlanOrder(p.g) && EdgesForward(p.edges)
    ensures Acyclic(DagOf(p))
    ensures ForwardDag(DagOf(p))
  {
    var d := DagOf(p);
    forall i, j | IsNode(d, i) && j in d.preds[i] ensures 0 <= j < i {
      assert MustPrecede(p, j, i);
      assert (j, i) in p.edges ==> (j, i).0 < (j, i).1;
    }
    var rank := seq(|p.g.nodes|, i => i);
    assert RankedBy(d, rank);
  }

  // ---------------------------------------------------------------- subsets and their interfaces

  datatype NodeSubset = NodeSubset(
    kind: NodeType,
    nodes: seq<int>,
    inputTensors: seq<int>,
    outputTensors: seq<int>)

  ghost predicate ReadBy(g: Graph, s: seq<int>, t: int) {
    exists i :: i in s && Reads(g, i, t)
  }

  ghost predicate WrittenBy(g: Graph, s: seq<int>, t: int) {
    exists i :: i in s && Writes(g, i, t)
  }

  /** A node of an epoch other than number `e` reads `t`. */
  ghost predicate ReadElsewhere(g: Graph, es: Epochs, e: int, t: int) {
    exists k :: 0 <= k < |es| && k != e && ReadBy(g, es[k], t)
  }

  /** The original indices of plan positions. */
  function OriginalNodes(g: Graph, s: seq<int>): (r: seq<int>)
    requires forall k :: 0 <= k < |s| ==> 0 <= s[k] < |g.nodeIndex|
    ensures |r| == |s| && forall k :: 0 <= k < |s| ==> r[k] == g.nodeIndex[s[k]]
  {
    seq(|s|, k requires 0 <= k < |s| => g.nodeIndex[s[k]])
  }
}
