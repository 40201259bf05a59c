/**
 The graph as the arena planner sees it, and what each of its decisions is meant to be:
 reference counts, the in-place alias map, and the nodes between which a buffer is in use.
 */
module ArenaGraph {
  import opened Common

  /** `kNodeNotAssigned`, the largest 32-bit integer. */
  const NODE_NOT_ASSIGNED: int := 0x7FFF_FFFF
  /** `kScalarTensorBytes`. */
  const SCALAR_TENSOR_BYTES: int := 4
  /** `kTfLiteMaxSharableOpInputs`. */
  const MAX_SHARABLE_OP_INPUTS: int := 3

  datatype AllocationType = ArenaRw | ArenaRwPersistent | MmapRo | Dynamic | Custom

  datatype Tensor = Tensor(bytes: nat, allocationType: AllocationType)

  /**
   A node of the plan with the variables among its inputs that its kernel updates, and with the
   `inplace_operator` flags of its registration: whether it leaves the data of its first input
   unmodified, and which inputs may share their buffer with the first output.
   */
  datatype Op = Op(
    inputs: seq<int>,
    outputs: seq<int>,
    temporaries: seq<int>,
    updates: seq<int>,
    dataUnmodified: bool,
    sharedInputs: set<int>)

  datatype Graph = Graph(
    tensors: seq<Tensor>,
    ops: seq<Op>,
    inputs: seq<int>,
    outputs: seq<int>,
    variables: seq<int>)

  predicate IsTensor(g: Graph, t: int) { 0 <= t < |g.tensors| }

  predicate IsOp(g: Graph, i: int) { 0 <= i < |g.ops| }

  predicate Reads(g: Graph, i: int, t: int) {
    IsOp(g, i) && t != OPTIONAL_TENSOR && t in g.ops[i].inputs
  }

  predicate Writes(g: Graph, i: int, t: int) {
    IsOp(g, i) && t != OPTIONAL_TENSOR && t in g.ops[i].outputs
  }

  predicate UsesTemporary(g: Graph, i: int, t: int) {
    IsOp(g, i) && t in g.ops[i].temporaries
  }

  predicate Updates(g: Graph, i: int, t: int) {
    IsOp(g, i) && t in g.ops[i].updates
  }

  /** Graph inputs and variables are there before the first node runs. */
  predicate Early(g: Graph, t: int) {
    t in g.variables || (t in g.inputs && t != OPTIONAL_TENSOR)
  }

  ghost predicate InRange(g: Graph) {
    && (forall i, t :: Reads(g, i, t) ==> IsTensor(g, t))
    && (forall i, t :: Writes(g, i, t) ==> IsTensor(g, t))
    && (forall i, t :: UsesTemporary(g, i, t) ==> IsTensor(g, t))
    && (forall t :: t in g.inputs && t != OPTIONAL_TENSOR ==> IsTensor(g, t))
    && (forall t :: t in g.outputs && t != OPTIONAL_TENSOR ==> IsTensor(g, t))
    && (forall t :: t in g.variables ==> IsTensor(g, t))
  }

  /** Every tensor has at most one producer, and graph inputs and variables have none. */
  ghost predicate UniqueProducers(g: Graph) {
    && (forall i, j, t :: Writes(g, i, t) && Writes(g, j, t) ==> i == j)
    && (forall i, t :: Writes(g, i, t) ==> !Early(g, t))
  }

  ghost predicate InPlanOrder(g: Graph) {
    forall i, j, t :: Writes(g, j, t) && Reads(g, i, t) ==> j < i
  }

  /** Temporaries belong to one node and play no other part. */
  ghost predicate PrivateTemporaries(g: Graph) {
    && (forall i, j, t :: UsesTemporary(g, i, t) && UsesTemporary(g, j, t) ==> i == j)
    && (forall i, j, t :: UsesTemporary(g, i, t) ==> !Reads(g, j, t))
    && (forall i, j, t :: UsesTemporary(g, i, t) ==> !Writes(g, j, t))
    && (forall i, t :: UsesTemporary(g, i, t) ==> !Early(g, t) && t !in g.outputs)
  }

  /** In-place nodes have a first output. */
  ghost predicate InplaceOutputs(g: Graph) {
    forall i :: IsOp(g, i) && g.ops[i].outputs != [] && g.ops[i].sharedInputs != {} ==>
                  g.ops[i].outputs[0] != OPTIONAL_TENSOR
  }

  /** A node updates only variables, and only those among its inputs. */
  ghost predicate UpdatedVariables(g: Graph) {
    forall i, t :: Updates(g, i, t) ==> Reads(g, i, t) && t in g.variables
  }

  ghost predicate WellFormed(g: Graph) {
    && |g.ops| < NODE_NOT_ASSIGNED
    && InRange(g)
    && UniqueProducers(g)
    && InPlanOrder(g)
    && PrivateTemporaries(g)
    && InplaceOutputs(g)
    && UpdatedVariables(g)
  }

  // ---------------------------------------------------------------- reference counts

  /** References that keep a tensor alive whatever the nodes do. */
  function Bonus(g: Graph, t: int): nat {
    multiset(g.outputs)[t] + multiset(g.variables)[t] + multiset(g.inputs)[t]
  }

  /** How often the first `i` nodes mention `t` as an input. */
  function Uses(g: Graph, t: int, i: nat): nat
    requires i <= |g.ops|
  {
    if i == 0 then 0 else Uses(g, t, i - 1) + multiset(g.ops[i - 1].inputs)[t]
  }

  /** `refcounts_` as it stands when in-place tensors are identified. */
  function Refs(g: Graph, t: int): nat {
    Bonus(g, t) + Uses(g, t, |g.ops|)
  }

  // ---------------------------------------------------------------- in-place tensors

  /** `FindSharedTensor`. */
  function Root(alias: map<int, int>, t: int): int {
    if t in alias then alias[t] else t
  }

  /** `InputTensorCanBeShared`. */
  predicate CanBeShared(g: Graph, preserveAll: bool, input: int, output: int, changed: bool) {
    && IsTensor(g, input) && IsTensor(g, output)
    && (changed ==>
          && g.tensors[input].bytes == g.tensors[output].bytes
          && g.tensors[input].bytes > SCALAR_TENSOR_BYTES
          && Refs(g, input) <= 1)
    && input !in g.inputs
    && output !in g.outputs
    && (|| g.tensors[input].allocationType == g.tensors[output].allocationType
        || g.tensors[input].allocationType == ArenaRw)
    && !preserveAll
  }

  /** Input position `k` of node `i` may donate its buffer to the first output. */
  predicate Shareable(g: Graph, preserveAll: bool, i: int, k: int)
    requires IsOp(g, i) && g.ops[i].outputs != [] && 0 <= k < |g.ops[i].inputs|
  {
    var op := g.ops[i];
    && op.inputs[k] != OPTIONAL_TENSOR
    && k in op.sharedInputs
    && CanBeShared(g, preserveAll, op.inputs[k], op.outputs[0], !op.dataUnmodified)
  }

  function ScanLimit(op: Op): nat {
    if |op.inputs| < MAX_SHARABLE_OP_INPUTS then |op.inputs| else MAX_SHARABLE_OP_INPUTS
  }

  /** The first shareable input position from `k` on, or -1. */
  function FirstShareable(g: Graph, preserveAll: bool, i: int, k: nat): (r: int)
    requires IsOp(g, i) && g.ops[i].outputs != []
    ensures r == -1 || (k <= r < ScanLimit(g.ops[i]) && Shareable(g, preserveAll, i, r))
    decreases ScanLimit(g.ops[i]) - k
  {
    if k >= ScanLimit(g.ops[i]) then -1
    else if Shareable(g, preserveAll, i, k) then k
    else FirstShareable(g, preserveAll, i, k + 1)
  }

  /** The root that node `i` writes its first output to, given the aliases so far, or -1. */
  function SharedRoot(g: Graph, preserveAll: bool, alias: map<int, int>, i: int): int
    requires IsOp(g, i)
  {
    var op := g.ops[i];
    if op.outputs == [] then -1
    else
      var k := FirstShareable(g, preserveAll, i, 0);
      if k == -1 then -1
      else
        var root := Root(alias, op.inputs[k]);
        if !op.dataUnmodified && Refs(g, root) > 1 then -1 else root
  }

  /** `actual_tensor_id_` after the first `i` nodes. */
  function AliasAfter(g: Graph, preserveAll: bool, i: nat): map<int, int>
    requires i <= |g.ops|
  {
    if i == 0 then map[]
    else
      var before := AliasAfter(g, preserveAll, i - 1);
      var root := SharedRoot(g, preserveAll, before, i - 1);
      if root == -1 then before else before[g.ops[i - 1].outputs[0] := root]
  }

  function AliasMap(g: Graph, preserveAll: bool): map<int, int> {
    AliasAfter(g, preserveAll, |g.ops|)
  }

  // ---------------------------------------------------------------- in-place tensors, declaratively

  function InputsOf(ops: seq<Op>): seq<int> {
    if ops == [] then [] else InputsOf(ops[..|ops| - 1]) + ops[|ops| - 1].inputs
  }

  /** Every place where a tensor is mentioned: by the graph, or as an input of a node. */
  function Mentions(g: Graph): seq<int> {
    g.outputs + g.variables + g.inputs + InputsOf(g.ops)
  }

  lemma {:induction false} UsesAre(g: Graph, t: int, i: nat)
    requires i <= |g.ops|
    ensures Uses(g, t, i) == multiset(InputsOf(g.ops[..i]))[t]
  {
    if i > 0 {
      UsesAre(g, t, i - 1);
      assert g.ops[..i][..i - 1] == g.ops[..i - 1];
    }
  }

  /** The reference count is the number of mentions. */
  lemma RefsAre(g: Graph, t: int)
    ensures Refs(g, t) == multiset(Mentions(g))[t]
  {
    UsesAre(g, t, |g.ops|);
    assert g.ops[..|g.ops|] == g.ops;
  }

  /** Input `k` of node `i` is one of the first three, flagged, and may give its buffer to the first output. */
  ghost predicate MayDonate(g: Graph, preserveAll: bool, i: int, k: int) {
    && 0 <= i < |g.ops| && g.ops[i].outputs != [] && 0 <= k < |g.ops[i].inputs| && k < 3
    && k in g.ops[i].sharedInputs && g.ops[i].inputs[k] != -1
    && var p, t := g.ops[i].inputs[k], g.ops[i].outputs[0];
       && 0 <= p < |g.tensors| && 0 <= t < |g.tensors| && p !in g.inputs && t !in g.outputs && !preserveAll
       && (g.tensors[p].allocationType == g.tensors[t].allocationType || g.tensors[p].allocationType == ArenaRw)
       && (|| g.ops[i].dataUnmodified
           || (g.tensors[p].bytes == g.tensors[t].bytes > 4 && multiset(Mentions(g))[p] <= 1))
  }

  ghost predicate IsFirstDonor(g: Graph, preserveAll: bool, i: int, k: int) {
    MayDonate(g, preserveAll, i, k) && forall j :: 0 <= j < k ==> !MayDonate(g, preserveAll, i, j)
  }

  lemma ShareableIsMayDonate(g: Graph, preserveAll: bool, i: int, k: int)
    requires IsOp(g, i) && g.ops[i].outputs != []
    ensures MayDonate(g, preserveAll, i, k) <==> 0 <= k < ScanLimit(g.ops[i]) && Shareable(g, preserveAll, i, k)
  {
    hide Refs, Mentions;
    if 0 <= k < |g.ops[i].inputs| { RefsAre(g, g.ops[i].inputs[k]); }
  }

  lemma {:induction false} FirstShareableIs(g: Graph, preserveAll: bool, i: int, k: nat)
    requires IsOp(g, i) && g.ops[i].outputs != []
    ensures var r := FirstShareable(g, preserveAll, i, k);
            && (r == -1 ==> forall j :: k <= j ==> !MayDonate(g, preserveAll, i, j))
            && (r != -1 ==> k <= r && MayDonate(g, preserveAll, i, r))
            && (r != -1 ==> forall j :: k <= j < r ==> !MayDonate(g, preserveAll, i, j))
    decreases ScanLimit(g.ops[i]) - k
  {
    hide MayDonate, Shareable;
    if k < ScanLimit(g.ops[i]) {
      ShareableIsMayDonate(g, preserveAll, i, k);
      if !Shareable(g, preserveAll, i, k) { FirstShareableIs(g, preserveAll, i, k + 1); }
    } else {
      forall j | k <= j ensures !MayDonate(g, preserveAll, i, j) { ShareableIsMayDonate(g, preserveAll, i, j); }
    }
  }

  // ---------------------------------------------------------------- liveness

  /** The node before which a tensor has to be allocated, considering the first `i` nodes. */
  function AllocNode(g: Graph, t: int, i: nat): int
    requires i <= |g.ops|
  {
    if Early(g, t) then 0
    else if i == 0 then NODE_NOT_ASSIGNED
    else if AllocNode(g, t, i - 1) != NODE_NOT_ASSIGNED then AllocNode(g, t, i - 1)
    else if Writes(g, i - 1, t) then i - 1
    else NODE_NOT_ASSIGNED
  }

  /** The buffers that a list of inputs refers to. */
  function RootsOf(alias: map<int, int>, inputs: seq<int>): seq<int> {
    seq(|inputs|, k requires 0 <= k < |inputs| => Root(alias, inputs[k]))
  }

  /** How often the first `i` nodes read buffer `r`, through any tensor that shares it. */
  function SharedUses(g: Graph, alias: map<int, int>, r: int, i: nat): nat
    requires i <= |g.ops|
  {
    if i == 0 then 0
    else SharedUses(g, alias, r, i - 1) + multiset(RootsOf(alias, g.ops[i - 1].inputs))[r]
  }

  /** The last of the first `i` nodes that reads buffer `r`, or -1. */
  function LastUse(g: Graph, alias: map<int, int>, r: int, i: nat): int
    requires i <= |g.ops|
  {
    if i == 0 then -1
    else if r in RootsOf(alias, g.ops[i - 1].inputs) then i - 1
    else LastUse(g, alias, r, i - 1)
  }

  /** The node after which buffer `r` is released: the last reader of any tensor that shares it. */
  function DeallocNode(g: Graph, preserveAll: bool, alias: map<int, int>, r: int): int {
    if !preserveAll && Bonus(g, r) == 0 && AllocNode(g, r, |g.ops|) != NODE_NOT_ASSIGNED
       && LastUse(g, alias, r, |g.ops|) >= 0
    then LastUse(g, alias, r, |g.ops|)
    else NODE_NOT_ASSIGNED
  }

  // ---------------------------------------------------------------- facts about the alias map

  /** Where an alias comes from: node `i`, through input position `k`. */
  ghost predicate AliasFrom(g: Graph, preserveAll: bool, alias: map<int, int>, t: int, i: int, k: int) {
    && IsOp(g, i) && g.ops[i].outputs != [] && g.ops[i].outputs[0] == t
    && k == FirstShareable(g, preserveAll, i, 0) && k != -1
    && t in alias && alias[t] == Root(alias, g.ops[i].inputs[k])
    && (!g.ops[i].dataUnmodified ==> Refs(g, alias[t]) <= 1)
  }

  lemma {:induction false} AliasKeys(g: Graph, preserveAll: bool, i: nat, t: int)
    requires WellFormed(g) && i <= |g.ops| && t in AliasAfter(g, preserveAll, i)
    ensures exists j :: 0 <= j < i && Writes(g, j, t) && g.ops[j].outputs[0] == t
    ensures IsTensor(g, t) && t !in g.outputs && !preserveAll
    ensures AliasAfter(g, preserveAll, i)[t] != -1
  {
    var before := AliasAfter(g, preserveAll, i - 1);
    var root := SharedRoot(g, preserveAll, before, i - 1);
    if root != -1 && t == g.ops[i - 1].outputs[0] {
      assert Writes(g, i - 1, t);
    } else {
      AliasKeys(g, preserveAll, i - 1, t);
    }
  }

  /** Later nodes add aliases only for tensors they produce. */
  lemma {:induction false} AliasStable(g: Graph, preserveAll: bool, i: nat, j: nat, t: int)
    requires WellFormed(g) && i <= j <= |g.ops|
    requires forall k :: i <= k < j ==> !Writes(g, k, t)
    requires t != OPTIONAL_TENSOR
    ensures t in AliasAfter(g, preserveAll, i) <==> t in AliasAfter(g, preserveAll, j)
    ensures Root(AliasAfter(g, preserveAll, i), t) == Root(AliasAfter(g, preserveAll, j), t)
    decreases j
  {
    if i < j {
      AliasStable(g, preserveAll, i, j - 1, t);
      assert !Writes(g, j - 1, t);
    }
  }

  /** In the final map the input that node `i` looked up still has the root it had then. */
  lemma InputRootStable(g: Graph, preserveAll: bool, i: nat, t: int)
    requires WellFormed(g) && i < |g.ops| && Reads(g, i, t)
    ensures Root(AliasAfter(g, preserveAll, i), t) == Root(AliasMap(g, preserveAll), t)
  {
    assert forall k :: i <= k < |g.ops| ==> !Writes(g, k, t);
    AliasStable(g, preserveAll, i, |g.ops|, t);
  }

  lemma NoDonorBelowZero(g: Graph, preserveAll: bool, i: int)
    ensures forall k :: MayDonate(g, preserveAll, i, k) ==> 0 <= k
  {
  }

  lemma OneFirstDonor(g: Graph, preserveAll: bool, i: int)
    ensures forall j, k :: IsFirstDonor(g, preserveAll, i, j) && IsFirstDonor(g, preserveAll, i, k) ==> j == k
  {
    assert forall k :: IsFirstDonor(g, preserveAll, i, k) ==> 0 <= k;
  }

  lemma RootIsNotOptional(g: Graph, preserveAll: bool, i: nat, p: int)
    requires WellFormed(g) && i <= |g.ops| && p != OPTIONAL_TENSOR
    ensures Root(AliasAfter(g, preserveAll, i), p) != OPTIONAL_TENSOR
  {
    if p in AliasAfter(g, preserveAll, i) { AliasKeys(g, preserveAll, i, p); }
  }

  /** What the final map says about the first output of node `i`. */
  lemma OwnAlias(g: Graph, preserveAll: bool, i: int)
    requires WellFormed(g) && IsOp(g, i) && g.ops[i].outputs != [] && g.ops[i].outputs[0] != OPTIONAL_TENSOR
    ensures var alias, t, first := AliasMap(g, preserveAll), g.ops[i].outputs[0], FirstShareable(g, preserveAll, i, 0);
            && (first == -1 ==> t !in alias)
            && (first != -1 ==>
                  && first < |g.ops[i].inputs|
                  && var root := Root(alias, g.ops[i].inputs[first]);
                     && (t in alias <==> g.ops[i].dataUnmodified || Refs(g, root) <= 1)
                     && (t in alias ==> alias[t] == root))
  {
    var t, first := g.ops[i].outputs[0], FirstShareable(g, preserveAll, i, 0);
    assert Writes(g, i, t);
    assert forall k :: i + 1 <= k < |g.ops| ==> !Writes(g, k, t);
    if t in AliasAfter(g, preserveAll, i) { AliasKeys(g, preserveAll, i, t); }
    AliasStable(g, preserveAll, i + 1, |g.ops|, t);
    hide AliasMap, Refs, WellFormed;
    if first != -1 {
      assert Shareable(g, preserveAll, i, first);
      assert Reads(g, i, g.ops[i].inputs[first]);
      InputRootStable(g, preserveAll, i, g.ops[i].inputs[first]);
      RootIsNotOptional(g, preserveAll, i, g.ops[i].inputs[first]);
    }
  }

  /**
   Exactly these outputs share a buffer: the first output of a node with an input that may donate its
   own, if the kernel leaves the data alone or nobody else mentions the root of the first such input;
   and that root is what they share.
   */
  lemma AliasMapIsExact(g: Graph, preserveAll: bool, i: int)
    requires WellFormed(g) && IsOp(g, i) && g.ops[i].outputs != [] && g.ops[i].outputs[0] != OPTIONAL_TENSOR
    ensures var alias, t := AliasMap(g, preserveAll), g.ops[i].outputs[0];
            && (t in alias ==> exists k :: IsFirstDonor(g, preserveAll, i, k))
            && forall k :: IsFirstDonor(g, preserveAll, i, k) ==>
                 var p := g.ops[i].inputs[k];
                 var root := if p in alias then alias[p] else p;
                 && (t in alias <==> g.ops[i].dataUnmodified || multiset(Mentions(g))[root] <= 1)
                 && (t in alias ==> alias[t] == root)
  {
    hide Refs, Mentions, AliasMap, MayDonate, WellFormed, FirstShareable, AliasAfter;
    var first := FirstShareable(g, preserveAll, i, 0);
    FirstShareableIs(g, preserveAll, i, 0);
    NoDonorBelowZero(g, preserveAll, i);
    OneFirstDonor(g, preserveAll, i);
    OwnAlias(g, preserveAll, i);
    if first != -1 {
      assert IsFirstDonor(g, preserveAll, i, first);
      RefsAre(g, Root(AliasMap(g, preserveAll), g.ops[i].inputs[first]));
    } else {
      assert forall k :: !IsFirstDonor(g, preserveAll, i, k);
    }
  }

  /** Every alias was created by the node that produces it. */
  lemma {:induction false} AliasOrigin(g: Graph, preserveAll: bool, i: nat, t: int) returns (j: int, k: int)
    requires WellFormed(g) && i <= |g.ops| && t in AliasAfter(g, preserveAll, i)
    ensures 0 <= j < i && AliasFrom(g, preserveAll, AliasMap(g, preserveAll), t, j, k)
    ensures AliasMap(g, preserveAll)[t] == AliasAfter(g, preserveAll, i)[t]
  {
    hide Refs, CanBeShared;
    var before := AliasAfter(g, preserveAll, i - 1);
    var root := SharedRoot(g, preserveAll, before, i - 1);
    if root != -1 && t == g.ops[i - 1].outputs[0] {
      j, k := i - 1, FirstShareable(g, preserveAll, i - 1, 0);
      assert Writes(g, j, t);
      assert forall l :: i <= l < |g.ops| ==> !Writes(g, l, t);
      AliasStable(g, preserveAll, i, |g.ops|, t);
      assert Reads(g, j, g.ops[j].inputs[k]);
      InputRootStable(g, preserveAll, j, g.ops[j].inputs[k]);
    } else {
      j, k := AliasOrigin(g, preserveAll, i - 1, t);
      var l :| 0 <= l < i - 1 && Writes(g, l, t) && g.ops[l].outputs[0] == t by { AliasKeys(g, preserveAll, i - 1, t); }
    }
  }

  /** Node `j` takes the buffer of its input `p`, at position `k`, for its first output `t`. */
  ghost predicate Donates(g: Graph, preserveAll: bool, j: int, k: int, p: int, t: int) {
    var alias := AliasMap(g, preserveAll);
    && Reads(g, j, p) && Writes(g, j, t) && g.ops[j].outputs[0] == t
    && 0 <= k < |g.ops[j].inputs| && g.ops[j].inputs[k] == p && k in g.ops[j].sharedInputs
    && CanBeShared(g, preserveAll, p, t, !g.ops[j].dataUnmodified)
    && t in alias && alias[t] == Root(alias, p)
    && (!g.ops[j].dataUnmodified ==> Refs(g, alias[t]) <= 1)
  }

  /** Every alias has a donor, which was an alias before the node ran if it is one at all. */
  lemma Donor(g: Graph, preserveAll: bool, i: nat, t: int) returns (j: nat, k: int, p: int)
    requires WellFormed(g) && i <= |g.ops| && t in AliasAfter(g, preserveAll, i)
    ensures j < i && Donates(g, preserveAll, j, k, p, t)
    ensures p in AliasMap(g, preserveAll) <==> p in AliasAfter(g, preserveAll, j)
  {
    j, k := AliasOrigin(g, preserveAll, i, t);
    p := g.ops[j].inputs[k];
    assert Reads(g, j, p) && forall l :: j <= l < |g.ops| ==> !Writes(g, l, p);
    AliasStable(g, preserveAll, j, |g.ops|, p);
  }

  /** The donor of an alias that node `i` writes. */
  lemma DonorAt(g: Graph, preserveAll: bool, i: int, t: int) returns (k: int, p: int)
    requires WellFormed(g) && t in AliasMap(g, preserveAll) && Writes(g, i, t)
    ensures Donates(g, preserveAll, i, k, p, t)
    ensures p in AliasMap(g, preserveAll) <==> p in AliasAfter(g, preserveAll, i)
  {
    var j;
    j, k, p := Donor(g, preserveAll, |g.ops|, t);
    assert j == i by { hide AliasMap; assert Writes(g, j, t); }
  }

  /** A root is never an alias itself, and never a graph input. */
  lemma {:induction false} AliasCompressed(g: Graph, preserveAll: bool, i: nat, t: int)
    requires WellFormed(g) && i <= |g.ops| && t in AliasAfter(g, preserveAll, i)
    ensures var alias := AliasMap(g, preserveAll);
            && t in alias && alias[t] !in alias && alias[t] != t
            && IsTensor(g, alias[t]) && alias[t] !in g.inputs
            && (forall l :: Writes(g, l, t) ==> AvailableBefore(g, l, alias[t]))
    decreases i
  {
    var j, k, p := Donor(g, preserveAll, i, t);
    hide AliasMap, Refs;
    if p in AliasMap(g, preserveAll) {
      AliasCompressed(g, preserveAll, j, p);
      AliasKeys(g, preserveAll, j, p);
      var l :| 0 <= l < j && Writes(g, l, p) && g.ops[l].outputs[0] == p;
      assert AvailableBefore(g, l, AliasMap(g, preserveAll)[p]);
    }
  }

  /** Somebody reads the root of an alias. */
  lemma {:induction false} RootIsRead(g: Graph, preserveAll: bool, i: nat, t: int)
    requires WellFormed(g) && i <= |g.ops| && t in AliasAfter(g, preserveAll, i)
    ensures t in AliasMap(g, preserveAll) && exists m :: Reads(g, m, AliasMap(g, preserveAll)[t])
    decreases i
  {
    var j, k, p := Donor(g, preserveAll, i, t);
    if p in AliasMap(g, preserveAll) { RootIsRead(g, preserveAll, j, p); }
  }

  /** No node from `i` on produces `t`. */
  ghost predicate AvailableBefore(g: Graph, i: int, t: int) {
    forall l :: Writes(g, l, t) ==> l < i
  }

  // ---------------------------------------------------------------- liveness, declaratively

  /** Node `i` reads buffer `r` through some tensor that shares it. */
  ghost predicate ReadsBuffer(g: Graph, alias: map<int, int>, i: int, r: int) {
    exists t :: Reads(g, i, t) && Root(alias, t) == r
  }

  lemma RootsOfReads(g: Graph, alias: map<int, int>, i: int, r: int)
    requires IsOp(g, i) && OPTIONAL_TENSOR !in alias && r != OPTIONAL_TENSOR
    ensures r in RootsOf(alias, g.ops[i].inputs) <==> ReadsBuffer(g, alias, i, r)
  {
    var ts, roots := g.ops[i].inputs, RootsOf(alias, g.ops[i].inputs);
    if r in roots {
      var k :| 0 <= k < |roots| && roots[k] == r;
      assert Reads(g, i, ts[k]);
    }
    if ReadsBuffer(g, alias, i, r) {
      var t :| Reads(g, i, t) && Root(alias, t) == r;
      var k :| 0 <= k < |ts| && ts[k] == t;
      assert roots[k] == r;
    }
  }

  lemma {:induction false} LastUseIs(g: Graph, alias: map<int, int>, r: int, i: nat)
    requires i <= |g.ops| && OPTIONAL_TENSOR !in alias && r != OPTIONAL_TENSOR
    ensures var last := LastUse(g, alias, r, i);
            && -1 <= last < i
            && (last >= 0 ==> ReadsBuffer(g, alias, last, r))
            && (forall j :: last < j < i ==> !ReadsBuffer(g, alias, j, r))
  {
    if i > 0 {
      RootsOfReads(g, alias, i - 1, r);
      LastUseIs(g, alias, r, i - 1);
    }
  }

  lemma {:induction false} AllocNodeIs(g: Graph, t: int, i: nat)
    requires i <= |g.ops| < NODE_NOT_ASSIGNED && UniqueProducers(g)
    ensures Early(g, t) ==> AllocNode(g, t, i) == 0
    ensures !Early(g, t) ==>
              (AllocNode(g, t, i) != NODE_NOT_ASSIGNED <==> exists j :: 0 <= j < i && Writes(g, j, t))
    ensures forall j :: 0 <= j < i && Writes(g, j, t) ==> AllocNode(g, t, i) == j
  {
    if i > 0 { AllocNodeIs(g, t, i - 1); }
  }

  lemma BonusIs(g: Graph, t: int)
    ensures Bonus(g, t) > 0 <==> t in g.outputs || t in g.variables || t in g.inputs
  {
  }

  /**
   Liveness is exact.  A buffer comes into use at its producer (at the first node for graph inputs
   and variables) and is released after the last node that reads any tensor sharing it; it is never
   released if it is a graph input, graph output or variable, if nobody reads it, or if all tensors
   are to be preserved.
   */
  lemma LivenessIsExact(g: Graph, preserveAll: bool, r: int)
    requires WellFormed(g) && IsTensor(g, r)
    ensures var alias := AliasMap(g, preserveAll);
            var first, last := AllocNode(g, r, |g.ops|), DeallocNode(g, preserveAll, alias, r);
            && (r in g.variables || r in g.inputs ==> first == 0)
            && (forall i :: Writes(g, i, r) ==> first == i)
            && (r !in g.variables && r !in g.inputs && (forall i :: !Writes(g, i, r)) ==> first == NODE_NOT_ASSIGNED)
            && (last != NODE_NOT_ASSIGNED ==>
                  ReadsBuffer(g, alias, last, r) && forall j :: last < j ==> !ReadsBuffer(g, alias, j, r))
            && (last == NODE_NOT_ASSIGNED <==>
                  || preserveAll || r in g.outputs || r in g.variables || r in g.inputs
                  || first == NODE_NOT_ASSIGNED || forall j :: !ReadsBuffer(g, alias, j, r))
  {
    var alias := AliasMap(g, preserveAll);
    if OPTIONAL_TENSOR in alias { AliasKeys(g, preserveAll, |g.ops|, OPTIONAL_TENSOR); }
    LastUseIs(g, alias, r, |g.ops|);
    AllocNodeIs(g, r, |g.ops|);
    BonusIs(g, r);
  }

  // ---------------------------------------------------------------- temporaries and requests

  /** The node whose temporary `t` is, among the first `i`, or -1. */
  function TemporaryOf(g: Graph, t: int, i: nat): int
    requires i <= |g.ops|
  {
    if i == 0 then -1
    else if UsesTemporary(g, i - 1, t) then i - 1
    else TemporaryOf(g, t, i - 1)
  }

  lemma {:induction false} TemporaryOfIs(g: Graph, t: int, i: nat)
    requires i <= |g.ops|
    ensures var j := TemporaryOf(g, t, i);
            -1 <= j < i && (j >= 0 ==> UsesTemporary(g, j, t)) && (forall k :: j < k < i ==> !UsesTemporary(g, k, t))
  {
    if i > 0 { TemporaryOfIs(g, t, i - 1); }
  }

  /** First and last node of a buffer's use, temporaries included. */
  function FirstNode(g: Graph, t: int): int {
    var j := TemporaryOf(g, t, |g.ops|);
    if j >= 0 then j else AllocNode(g, t, |g.ops|)
  }

  function LastNode(g: Graph, preserveAll: bool, t: int): int {
    var j := TemporaryOf(g, t, |g.ops|);
    if j >= 0 && !preserveAll then j else DeallocNode(g, preserveAll, AliasMap(g, preserveAll), t)
  }

  /**
   A temporary is in use at its node only, but for preserved tensors, which are never released; all others
   are in use as `LivenessIsExact` says.
   */
  lemma TemporaryInterval(g: Graph, preserveAll: bool, t: int)
    requires WellFormed(g)
    ensures forall i :: 0 <= i < |g.ops| && t in g.ops[i].temporaries ==>
              FirstNode(g, t) == i && LastNode(g, preserveAll, t) == if preserveAll then 0x7FFF_FFFF else i
    ensures (forall i :: 0 <= i < |g.ops| ==> t !in g.ops[i].temporaries) ==>
              && FirstNode(g, t) == AllocNode(g, t, |g.ops|)
              && LastNode(g, preserveAll, t) == DeallocNode(g, preserveAll, AliasMap(g, preserveAll), t)
  {
    TemporaryOfIs(g, t, |g.ops|);
    forall i | 0 <= i < |g.ops| && t in g.ops[i].temporaries ensures TemporaryOf(g, t, |g.ops|) == i {
      assert UsesTemporary(g, i, t);
    }
    assert forall i :: UsesTemporary(g, i, t) ==> 0 <= i < |g.ops| && t in g.ops[i].temporaries;
  }

  /** The tensors that the planner places: those of the read-write and of the persistent arena. */
  predicate Planned(g: Graph, t: int) {
    IsTensor(g, t) && (g.tensors[t].allocationType == ArenaRw || g.tensors[t].allocationType == ArenaRwPersistent)
  }

  /** The last node of an allocation: persistent tensors are never released. */
  function ReleaseNode(g: Graph, preserveAll: bool, t: int): int {
    if IsTensor(g, t) && g.tensors[t].allocationType == ArenaRw then LastNode(g, preserveAll, t) else NODE_NOT_ASSIGNED
  }

  /** The aliases that still hold when buffers are laid out: same size, root in the read-write arena. */
  predicate KeepsSharing(g: Graph, t: int, root: int) {
    && IsTensor(g, t) && IsTensor(g, root)
    && g.tensors[root].allocationType == ArenaRw && g.tensors[root].bytes == g.tensors[t].bytes
  }

  /** The tensors the placement loop runs over: queued, and in an arena they may need bytes of. */
  predicate Requests(g: Graph, t: int) {
    && Planned(g, t) && FirstNode(g, t) != NODE_NOT_ASSIGNED
    && (g.tensors[t].allocationType == ArenaRw ==> g.tensors[t].bytes > 0)
  }

  /** A tensor that gets arena memory, if it does not share another's. */
  predicate WantsMemory(g: Graph, t: int) {
    Planned(g, t) && g.tensors[t].bytes > 0 && FirstNode(g, t) != NODE_NOT_ASSIGNED
  }
}
