/**
 Executing a plan in the planner's memory against executing it with a private buffer per tensor.
 A node reads all its inputs and then writes its outputs, its temporaries and the variables it updates;
 a kernel is any function of the input values that fits the tensor sizes and leaves data unmodified
 where it says so.  Tensors that the planner does not place have memory of their own; through a null
 pointer nothing is read or written.
 */
module PlannedMemory {
  import opened Common
  import opened ArenaGraph
  import opened SimpleMemoryArena
  import opened ArenaPlanner

  type Value<C> = seq<C>
  type Inputs<C> = seq<Option<Value<C>>>
  /** Node, written tensor, input values: the value written. */
  type Kernel<!C> = (int, int, Inputs<C>) -> Value<C>

  // ---------------------------------------------------------------- the graphs considered

  predicate InArena(g: Graph, t: int) {
    IsTensor(g, t) && g.tensors[t].allocationType == ArenaRw
  }

  ghost predicate Produced(g: Graph, t: int) {
    exists i :: Writes(g, i, t)
  }

  /** Graph outputs and variables are looked at after the run. */
  predicate Observable(g: Graph, t: int) {
    t in g.outputs || t in g.variables
  }

  /** Nobody looks at arena memory that nobody has filled. */
  ghost predicate Initialised(g: Graph) {
    && (forall i, t :: Reads(g, i, t) && Planned(g, t) ==> Early(g, t) || Produced(g, t))
    && (forall t :: Observable(g, t) && Planned(g, t) ==> Early(g, t) || Produced(g, t))
  }

  predicate WritesAny(g: Graph, i: int, t: int) {
    Writes(g, i, t) || UsesTemporary(g, i, t) || Updates(g, i, t)
  }

  /**
   Nodes that leave data unmodified update no variables and share their first input only, which has
   the output's size.
   */
  ghost predicate UnmodifiedShapes(g: Graph) {
    forall i :: IsOp(g, i) && g.ops[i].dataUnmodified && g.ops[i].outputs != [] ==>
      && g.ops[i].updates == [] && g.ops[i].sharedInputs <= {0}
      && (g.ops[i].inputs != [] && IsTensor(g, g.ops[i].inputs[0]) && IsTensor(g, g.ops[i].outputs[0]) ==>
            g.tensors[g.ops[i].inputs[0]].bytes == g.tensors[g.ops[i].outputs[0]].bytes)
  }

  ghost predicate Fits<C(!new)>(g: Graph, ker: Kernel<C>) {
    forall i: int, t: int, ins: Inputs<C> :: IsTensor(g, t) ==> |ker(i, t, ins)| == g.tensors[t].bytes
  }

  /** Node `i` is registered to pass its first input through to its first output. */
  predicate PassesThrough(g: Graph, i: int) {
    && IsOp(g, i) && g.ops[i].dataUnmodified && g.ops[i].sharedInputs != {}
    && g.ops[i].inputs != [] && g.ops[i].outputs != []
    && IsTensor(g, g.ops[i].inputs[0]) && IsTensor(g, g.ops[i].outputs[0])
  }

  predicate Copies<C>(g: Graph, i: int, ins: Inputs<C>) {
    && PassesThrough(g, i)
    && ins != [] && ins[0].Some? && |ins[0].value| == g.tensors[g.ops[i].outputs[0]].bytes
  }

  /** Where the registration promises it, the first output is the first input. */
  ghost predicate HonoursUnmodified<C(!new)>(g: Graph, ker: Kernel<C>) {
    forall i: int, ins: Inputs<C> :: Copies(g, i, ins) ==> ker(i, g.ops[i].outputs[0], ins) == ins[0].value
  }

  // ---------------------------------------------------------------- what matters in the end

  /** Through node `j` the value of `x` can make a difference to the value of `y`. */
  predicate Influences(g: Graph, j: int, x: int, y: int) {
    && Reads(g, j, x) && (Writes(g, j, y) || Updates(g, j, y)) && IsTensor(g, y) && g.tensors[y].bytes > 0
    && (PassesThrough(g, j) && y == g.ops[j].outputs[0] ==> x == g.ops[j].inputs[0])
  }

  /** Node `node` reads `input` and writes `output`. */
  datatype Hop = Hop(node: int, input: int, output: int)

  /** The hops lead from tensor `x` to the first graph output or variable on the way. */
  predicate Leads(g: Graph, x: int, hops: seq<Hop>)
    decreases hops
  {
    if Observable(g, x) then hops == []
    else
      && hops != [] && hops[0].input == x && Influences(g, hops[0].node, x, hops[0].output)
      && Leads(g, hops[0].output, hops[1..])
  }

  /** What node `j` makes of `x` can make a difference to a graph output or variable. */
  ghost predicate ReachesOutput(g: Graph, j: int, x: int) {
    exists y, hops: seq<Hop> :: Influences(g, j, x, y) && Leads(g, y, hops)
  }

  /** Which reads are looked at: all of them, or those that reach a graph output or variable. */
  datatype Focus = EveryRead | OutputsOnly

  ghost predicate Counts(g: Graph, focus: Focus, j: int, x: int) {
    Reads(g, j, x) && (focus.OutputsOnly? ==> ReachesOutput(g, j, x))
  }

  // ---------------------------------------------------------------- private memory

  ghost predicate SizesRight<C>(g: Graph, vals: seq<Value<C>>) {
    |vals| == |g.tensors| && forall t :: IsTensor(g, t) ==> |vals[t]| == g.tensors[t].bytes
  }

  function PrivateInputs<C>(g: Graph, vals: seq<Value<C>>, i: int): Inputs<C>
    requires IsOp(g, i)
  {
    var ts := g.ops[i].inputs;
    seq(|ts|, k requires 0 <= k < |ts| => if 0 <= ts[k] < |vals| then Some(vals[ts[k]]) else None)
  }

  function PrivateStep<C>(g: Graph, ker: Kernel<C>, vals: seq<Value<C>>, i: int): seq<Value<C>>
    requires IsOp(g, i)
  {
    var ins := PrivateInputs(g, vals, i);
    seq(|vals|, t requires 0 <= t < |vals| => if WritesAny(g, i, t) then ker(i, t, ins) else vals[t])
  }

  /** The values after the first `i` nodes when every tensor has its own buffer. */
  function PrivateRun<C>(g: Graph, ker: Kernel<C>, init: seq<Value<C>>, i: nat): seq<Value<C>>
    requires i <= |g.ops|
  {
    if i == 0 then init else PrivateStep(g, ker, PrivateRun(g, ker, init, i - 1), i - 1)
  }

  lemma {:induction false} PrivateSizes<C(!new)>(g: Graph, ker: Kernel<C>, init: seq<Value<C>>, i: nat)
    requires i <= |g.ops| && Fits(g, ker) && SizesRight(g, init)
    ensures SizesRight(g, PrivateRun(g, ker, init, i))
  {
    if i > 0 { PrivateSizes(g, ker, init, i - 1); }
  }

  // ---------------------------------------------------------------- shared memory

  /** The two arenas, and the memory of the tensors outside them. */
  datatype Memory<C> = Memory(arena: seq<C>, persistent: seq<C>, own: seq<Value<C>>)

  function Region<C>(mem: Memory<C>, space: Space): seq<C> {
    match space
    case ReadWrite => mem.arena
    case Persistent => mem.persistent
  }

  /** Memory of the size that the layout asks for. */
  ghost predicate Room<C>(g: Graph, lay: Layout, mem: Memory<C>) {
    && |mem.own| == |g.tensors|
    && |mem.arena| >= lay.highWaterMark && |mem.persistent| >= lay.persistentMark
  }

  /** The data pointer of a tensor, resolved from scratch. */
  ghost function Address(g: Graph, lay: Layout, t: int): Pointer {
    if Planned(g, t) && |lay.allocs| == |g.tensors| then Resolved(g, lay.alias, lay.allocs, NoPointers(g), t) else Null
  }

  function Fetch<C>(arena: seq<C>, offset: int, size: nat): Value<C> {
    if 0 <= offset && offset + size <= |arena| then arena[offset..offset + size] else []
  }

  function Store<C>(arena: seq<C>, offset: int, v: Value<C>): (r: seq<C>)
    ensures |r| == |arena|
  {
    if 0 <= offset && offset + |v| <= |arena| then arena[..offset] + v + arena[offset + |v|..] else arena
  }

  /** What reading tensor `t` yields. */
  ghost function SharedRead<C>(g: Graph, lay: Layout, mem: Memory<C>, t: int): Value<C>
    requires |mem.own| == |g.tensors| && IsTensor(g, t)
  {
    if !Planned(g, t) then mem.own[t]
    else
      match Address(g, lay, t)
      case Null => []
      case At(space, o) => Fetch(Region(mem, space), o, g.tensors[t].bytes)
  }

  ghost function SharedWrite<C>(g: Graph, lay: Layout, mem: Memory<C>, t: int, v: Value<C>): (r: Memory<C>)
    requires |mem.own| == |g.tensors|
    ensures |r.arena| == |mem.arena| && |r.persistent| == |mem.persistent| && |r.own| == |mem.own|
  {
    if !Planned(g, t) then (if IsTensor(g, t) then mem.(own := mem.own[t := v]) else mem)
    else
      match Address(g, lay, t)
      case Null => mem
      case At(ReadWrite, o) => mem.(arena := Store(mem.arena, o, v))
      case At(Persistent, o) => mem.(persistent := Store(mem.persistent, o, v))
  }

  ghost function SharedInputs<C>(g: Graph, lay: Layout, mem: Memory<C>, i: int): Inputs<C>
    requires |mem.own| == |g.tensors| && IsOp(g, i)
  {
    var ts := g.ops[i].inputs;
    seq(|ts|, k requires 0 <= k < |ts| => if IsTensor(g, ts[k]) then Some(SharedRead(g, lay, mem, ts[k])) else None)
  }

  /** Writing the tensors of `list`, one after the other. */
  ghost function WriteAll<C>(
    g: Graph, ker: Kernel<C>, lay: Layout, mem: Memory<C>, i: int, ins: Inputs<C>, list: seq<int>): (r: Memory<C>)
    requires |mem.own| == |g.tensors|
    ensures |r.arena| == |mem.arena| && |r.persistent| == |mem.persistent| && |r.own| == |mem.own|
  {
    if list == [] then mem
    else
      var k := |list| - 1;
      SharedWrite(g, lay, WriteAll(g, ker, lay, mem, i, ins, list[..k]), list[k], ker(i, list[k], ins))
  }

  /** What a node writes. */
  function WriteList(g: Graph, i: int): seq<int>
    requires IsOp(g, i)
  {
    g.ops[i].outputs + g.ops[i].temporaries + g.ops[i].updates
  }

  ghost function SharedStep<C>(g: Graph, ker: Kernel<C>, lay: Layout, mem: Memory<C>, i: int): (r: Memory<C>)
    requires |mem.own| == |g.tensors| && IsOp(g, i)
    ensures |r.arena| == |mem.arena| && |r.persistent| == |mem.persistent| && |r.own| == |mem.own|
  {
    WriteAll(g, ker, lay, mem, i, SharedInputs(g, lay, mem, i), WriteList(g, i))
  }

  /** The memory after the first `i` nodes. */
  ghost function SharedRun<C>(g: Graph, ker: Kernel<C>, lay: Layout, mem: Memory<C>, i: nat): (r: Memory<C>)
    requires |mem.own| == |g.tensors| && i <= |g.ops|
    ensures |r.arena| == |mem.arena| && |r.persistent| == |mem.persistent| && |r.own| == |mem.own|
  {
    if i == 0 then mem else SharedStep(g, ker, lay, SharedRun(g, ker, lay, mem, i - 1), i - 1)
  }

  // ---------------------------------------------------------------- addresses

  /** An alias in the read-write arena has the size of its root, which is there too. */
  lemma {:induction false} AliasFits(g: Graph, preserveAll: bool, i: nat, t: int)
    requires WellFormed(g) && UnmodifiedShapes(g)
    requires i <= |g.ops| && t in AliasAfter(g, preserveAll, i) && InArena(g, t)
    ensures t in AliasMap(g, preserveAll) && KeepsSharing(g, t, AliasMap(g, preserveAll)[t])
    decreases i
  {
    var j, k, p := Donor(g, preserveAll, i, t);
    hide AliasMap, AliasAfter, WellFormed, Refs;
    assert InArena(g, p) && g.tensors[p].bytes == g.tensors[t].bytes;
    if p in AliasMap(g, preserveAll) { AliasFits(g, preserveAll, j, p); }
  }

  /** No alias of the read-write arena is dropped. */
  lemma AliasMapFits(g: Graph, preserveAll: bool, t: int)
    requires WellFormed(g) && UnmodifiedShapes(g) && InArena(g, t)
    ensures Root(KeptAliases(g, AliasMap(g, preserveAll)), t) == Root(AliasMap(g, preserveAll), t)
    ensures t in KeptAliases(g, AliasMap(g, preserveAll)) <==> t in AliasMap(g, preserveAll)
  {
    if t in AliasMap(g, preserveAll) { AliasFits(g, preserveAll, |g.ops|, t); }
  }

  /** A graph whose plan has been laid out. */
  ghost predicate Ready(g: Graph, preserveAll: bool, lay: Layout) {
    && WellFormed(g) && Initialised(g) && UnmodifiedShapes(g)
    && lay.alias == KeptAliases(g, AliasMap(g, preserveAll))
    && LaidOut(g, preserveAll, lay)
  }

  /** The tensor whose memory `t` is to use: its root in the read-write arena, `t` itself in the persistent one. */
  function Buffer(g: Graph, preserveAll: bool, t: int): int {
    if InArena(g, t) then Root(AliasMap(g, preserveAll), t) else t
  }

  function SpaceOf(g: Graph, t: int): Space {
    if InArena(g, t) then ReadWrite else Persistent
  }

  lemma BufferIs(g: Graph, preserveAll: bool, t: int)
    requires WellFormed(g) && UnmodifiedShapes(g) && Planned(g, t)
    ensures var b := Buffer(g, preserveAll, t);
            && SameType(g, b, t) && g.tensors[b].bytes == g.tensors[t].bytes
            && (InArena(g, t) ==> b !in AliasMap(g, preserveAll))
            && Buffer(g, preserveAll, b) == b
  {
    if t in AliasMap(g, preserveAll) && InArena(g, t) {
      AliasFits(g, preserveAll, |g.ops|, t);
      AliasCompressed(g, preserveAll, |g.ops|, t);
    }
  }

  lemma NotTemporary(g: Graph, t: int)
    requires forall j :: !UsesTemporary(g, j, t)
    ensures TemporaryOf(g, t, |g.ops|) == -1
  {
    TemporaryOfIs(g, t, |g.ops|);
  }

  /** A persistent alias is kept only if its root is in the read-write arena and has its size. */
  lemma PersistentAlias(g: Graph, preserveAll: bool, t: int)
    requires WellFormed(g) && Planned(g, t) && !InArena(g, t) && t in KeptAliases(g, AliasMap(g, preserveAll))
    ensures t in AliasMap(g, preserveAll) && KeepsSharing(g, t, AliasMap(g, preserveAll)[t])
  {
    AliasKeys(g, preserveAll, |g.ops|, t);
    hide AliasMap;
    var j :| 0 <= j < |g.ops| && Writes(g, j, t) && g.ops[j].outputs[0] == t;
    assert forall l :: UsesTemporary(g, l, t) ==> !Writes(g, j, t);
    NotTemporary(g, t);
    AllocNodeIs(g, t, |g.ops|);
  }

  /** Resolution leads a placed tensor to the memory of its buffer, or to a null pointer if that has none. */
  lemma AddressIs(g: Graph, preserveAll: bool, lay: Layout, t: int)
    requires Ready(g, preserveAll, lay) && Planned(g, t)
    ensures var b := Buffer(g, preserveAll, t);
            && Address(g, lay, t) == (if Owns(g, lay, b) then At(SpaceOf(g, t), lay.allocs[b].offset) else Null)
            && SameType(g, b, t) && g.tensors[b].bytes == g.tensors[t].bytes
            && (Owns(g, lay, b) ==> PlacedRight(g, preserveAll, lay, b))
            && (InArena(g, t) ==> b !in lay.alias)
  {
    BufferIs(g, preserveAll, t);
    if InArena(g, t) {
      AliasMapFits(g, preserveAll, t);
      AliasMapFits(g, preserveAll, Buffer(g, preserveAll, t));
    } else if t in lay.alias {
      PersistentAlias(g, preserveAll, t);
    }
    hide WellFormed, AliasMap, Initialised, UnmodifiedShapes, FirstNode, LastNode;
    var b := Buffer(g, preserveAll, t);
    assert Owns(g, lay, b) ==> PlacedRight(g, preserveAll, lay, b);
    assert !Owns(g, lay, b) ==> lay.allocs[b] == NO_ALLOC;
    assert Address(g, lay, t) == Resolved(g, lay.alias, lay.allocs, NoPointers(g), b);
  }

  /** The bytes of a tensor with an address lie within its arena. */
  lemma AddressInRange<C>(g: Graph, preserveAll: bool, lay: Layout, mem: Memory<C>, t: int)
    requires Ready(g, preserveAll, lay) && Address(g, lay, t).At? && Room(g, lay, mem)
    ensures var a, b := Address(g, lay, t), Buffer(g, preserveAll, t);
            && Planned(g, t) && a.space == SpaceOf(g, t) && a.offset + g.tensors[t].bytes <= |Region(mem, a.space)|
            && Owns(g, lay, b) && g.tensors[t].bytes > 0
            && |SharedRead(g, lay, mem, t)| == g.tensors[t].bytes
            && SharedRead(g, lay, mem, t) == Fetch(Region(mem, a.space), a.offset, g.tensors[t].bytes)
  {
    hide Ready, Resolved;
    AddressIs(g, preserveAll, lay, t);
  }

  lemma AddressNeedsPlan(g: Graph, lay: Layout, y: int)
    requires Address(g, lay, y).At?
    ensures Planned(g, y)
  {
  }

  // ---------------------------------------------------------------- times of use

  /** `x` is there before node `i` and will still be looked at, by node `i` or later or after the run. */
  ghost predicate Live(g: Graph, focus: Focus, i: int, x: int) {
    && IsTensor(g, x) && AvailableBefore(g, i, x) && (forall j :: !UsesTemporary(g, j, x))
    && (Observable(g, x) || exists j :: j >= i && Counts(g, focus, j, x))
  }

  /** A root is neither a temporary nor produced after its aliases. */
  lemma RootFacts(g: Graph, preserveAll: bool, t: int)
    requires WellFormed(g) && t in AliasMap(g, preserveAll)
    ensures var r := AliasMap(g, preserveAll)[t];
            && (forall j :: !UsesTemporary(g, j, r)) && (exists j :: Reads(g, j, r))
            && (forall l :: Writes(g, l, t) ==> AvailableBefore(g, l, r))
  {
    RootIsRead(g, preserveAll, |g.ops|, t);
    AliasCompressed(g, preserveAll, |g.ops|, t);
    hide AliasMap;
    var r := AliasMap(g, preserveAll)[t];
    var j :| Reads(g, j, r);
    assert forall l :: UsesTemporary(g, l, r) ==> !Reads(g, j, r);
  }

  /** The buffer of a live tensor is in use. */
  lemma LiveInUse(g: Graph, preserveAll: bool, focus: Focus, i: int, x: int)
    requires WellFormed(g) && IsOp(g, i) && Live(g, focus, i, x) && Planned(g, x)
    requires WantsMemory(g, Buffer(g, preserveAll, x))
    ensures var b := Buffer(g, preserveAll, x); FirstNode(g, b) <= i <= ReleaseNode(g, preserveAll, b)
  {
    hide ReachesOutput;
    var alias := AliasMap(g, preserveAll);
    var b := Buffer(g, preserveAll, x);
    if b != x {
      RootFacts(g, preserveAll, x);
      AliasKeys(g, preserveAll, |g.ops|, x);
      var l :| 0 <= l < |g.ops| && Writes(g, l, x) && g.ops[l].outputs[0] == x;
      assert AvailableBefore(g, l, b) && l < i;
    }
    hide AliasMap;
    NotTemporary(g, b);
    AllocNodeIs(g, b, |g.ops|);
    LivenessIsExact(g, preserveAll, b);
    if !Observable(g, x) && InArena(g, x) {
      var j :| j >= i && Counts(g, focus, j, x);
      assert ReadsBuffer(g, alias, j, b);
    }
  }

  lemma TemporaryInUse(g: Graph, preserveAll: bool, i: int, y: int)
    requires WellFormed(g) && UsesTemporary(g, i, y)
    ensures IsTensor(g, y) && FirstNode(g, y) <= i <= ReleaseNode(g, preserveAll, y) && y !in AliasMap(g, preserveAll)
  {
    TemporaryOfIs(g, y, |g.ops|);
    var j := TemporaryOf(g, y, |g.ops|);
    assert UsesTemporary(g, j, y) && j == i;
    LivenessIsExact(g, preserveAll, y);
    if y in AliasMap(g, preserveAll) {
      AliasKeys(g, preserveAll, |g.ops|, y);
    }
  }

  /** Variables and graph inputs are in use all the time. */
  lemma EarlyInUse(g: Graph, preserveAll: bool, y: int)
    requires WellFormed(g) && Early(g, y)
    ensures IsTensor(g, y) && FirstNode(g, y) == 0 && ReleaseNode(g, preserveAll, y) == NODE_NOT_ASSIGNED
    ensures y !in AliasMap(g, preserveAll)
  {
    NotTemporary(g, y);
    LivenessIsExact(g, preserveAll, y);
    if y in AliasMap(g, preserveAll) {
      AliasKeys(g, preserveAll, |g.ops|, y);
    }
  }

  /** The node that writes an alias of the read-write arena uses the buffer of the root. */
  lemma AliasInUse(g: Graph, preserveAll: bool, i: int, y: int)
    requires WellFormed(g) && Initialised(g) && UnmodifiedShapes(g)
    requires Writes(g, i, y) && InArena(g, y) && y in AliasMap(g, preserveAll)
    ensures var r := AliasMap(g, preserveAll)[y]; FirstNode(g, r) <= i <= LastNode(g, preserveAll, r) && InArena(g, r)
  {
    var alias := AliasMap(g, preserveAll);
    var r := alias[y];
    BufferIs(g, preserveAll, y);
    RootFacts(g, preserveAll, y);
    var k, p := DonorAt(g, preserveAll, i, y);
    hide AliasMap;
    NotTemporary(g, r);
    AllocNodeIs(g, r, |g.ops|);
    assert ReadsBuffer(g, alias, i, r);
    LivenessIsExact(g, preserveAll, r);
  }

  /** A node uses the buffer of an output that has its own. */
  lemma OutputInUse(g: Graph, preserveAll: bool, i: int, y: int)
    requires WellFormed(g) && Writes(g, i, y) && (y in AliasMap(g, preserveAll) ==> !InArena(g, y))
    ensures IsTensor(g, y) && FirstNode(g, y) == i <= ReleaseNode(g, preserveAll, y)
  {
    var alias := AliasMap(g, preserveAll);
    hide AliasMap;
    assert forall j :: UsesTemporary(g, j, y) ==> !Writes(g, i, y);
    NotTemporary(g, y);
    LivenessIsExact(g, preserveAll, y);
    var last := LastNode(g, preserveAll, y);
    if InArena(g, y) && last != NODE_NOT_ASSIGNED {
      var t :| Reads(g, last, t) && Root(alias, t) == y;
      RootAvailable(g, preserveAll, last, t);
      assert AvailableBefore(g, last, y);
    }
  }

  /** A node writes only buffers that are in use. */
  lemma WrittenInUse(g: Graph, preserveAll: bool, i: int, y: int)
    requires WellFormed(g) && Initialised(g) && UnmodifiedShapes(g) && WritesAny(g, i, y) && Planned(g, y)
    ensures var b := Buffer(g, preserveAll, y); FirstNode(g, b) <= i <= ReleaseNode(g, preserveAll, b)
  {
    if UsesTemporary(g, i, y) {
      TemporaryInUse(g, preserveAll, i, y);
    } else if Updates(g, i, y) {
      EarlyInUse(g, preserveAll, y);
    } else if y in AliasMap(g, preserveAll) && InArena(g, y) {
      AliasInUse(g, preserveAll, i, y);
    } else {
      OutputInUse(g, preserveAll, i, y);
    }
  }

  // ---------------------------------------------------------------- who has memory

  /** A persistent tensor that is to share the memory of a tensor in the other arena. */
  predicate SharesAcross(g: Graph, preserveAll: bool, t: int) {
    var alias := AliasMap(g, preserveAll);
    && IsTensor(g, t) && g.tensors[t].allocationType == ArenaRwPersistent && g.tensors[t].bytes > 0
    && t in alias && KeepsSharing(g, t, alias[t])
  }

  /** No persistent tensor of any size shares a root of the read-write arena. */
  ghost predicate Backed(g: Graph, preserveAll: bool) {
    forall t :: !SharesAcross(g, preserveAll, t)
  }

  /** No node reads or writes any bytes through a null pointer. */
  ghost predicate NoNullAccess(g: Graph, lay: Layout) {
    forall i, t :: (Reads(g, i, t) || WritesAny(g, i, t)) && Planned(g, t) && g.tensors[t].bytes > 0 ==>
                     Address(g, lay, t).At?
  }

  lemma InFullMap(g: Graph, preserveAll: bool, t: int)
    requires t in AliasMap(g, preserveAll)
    ensures t in AliasAfter(g, preserveAll, |g.ops|)
  {
  }

  lemma AliasIsWritten(g: Graph, preserveAll: bool, t: int) returns (j: int)
    requires WellFormed(g) && t in AliasMap(g, preserveAll)
    ensures WritesAny(g, j, t)
  {
    AliasKeys(g, preserveAll, |g.ops|, t);
    j :| 0 <= j < |g.ops| && Writes(g, j, t) && g.ops[j].outputs[0] == t;
  }

  /** A tensor that shares across the arenas gets a null pointer. */
  lemma SharerIsNull(g: Graph, preserveAll: bool, lay: Layout, t: int)
    requires Ready(g, preserveAll, lay) && SharesAcross(g, preserveAll, t)
    ensures Address(g, lay, t) == Null
  {
    AddressIs(g, preserveAll, lay, t);
  }

  /** Every other tensor that somebody fills has memory. */
  lemma HasMemory(g: Graph, preserveAll: bool, lay: Layout, t: int)
    requires Ready(g, preserveAll, lay) && Planned(g, t) && g.tensors[t].bytes > 0 && !SharesAcross(g, preserveAll, t)
    requires Early(g, t) || exists i :: WritesAny(g, i, t)
    ensures Address(g, lay, t).At?
  {
    AddressIs(g, preserveAll, lay, t);
    if Early(g, t) {
      EarlyInUse(g, preserveAll, t);
    } else {
      var i :| WritesAny(g, i, t);
      WrittenInUse(g, preserveAll, i, t);
    }
    hide AliasMap, WellFormed, Initialised, UnmodifiedShapes, LaidOut;
  }

  /** A placed tensor of some size has a null pointer exactly if it shares across the arenas or nobody fills it. */
  lemma NullExactly(g: Graph, preserveAll: bool, lay: Layout, t: int)
    requires Ready(g, preserveAll, lay) && Planned(g, t) && g.tensors[t].bytes > 0
    ensures Address(g, lay, t) == Null <==>
              SharesAcross(g, preserveAll, t) || (!Early(g, t) && forall i :: !WritesAny(g, i, t))
  {
    hide AliasMap, Address, SharesAcross, Initialised, UnmodifiedShapes, LaidOut;
    if SharesAcross(g, preserveAll, t) {
      SharerIsNull(g, preserveAll, lay, t);
    } else if Early(g, t) || exists i :: WritesAny(g, i, t) {
      HasMemory(g, preserveAll, lay, t);
    } else {
      AddressIs(g, preserveAll, lay, t);
      if t in AliasMap(g, preserveAll) {
        var j := AliasIsWritten(g, preserveAll, t);
        assert false;
      }
      assert forall i :: UsesTemporary(g, i, t) ==> WritesAny(g, i, t);
      assert forall i :: Writes(g, i, t) ==> WritesAny(g, i, t);
      NotTemporary(g, t);
      AllocNodeIs(g, t, |g.ops|);
    }
  }

  /**
   Every access of a node goes through a pointer into an arena if and only if no persistent tensor of
   any size is an alias with a read-write root of its size.
   */
  lemma MemoryIffBacked(g: Graph, preserveAll: bool, lay: Layout)
    requires Ready(g, preserveAll, lay)
    ensures Backed(g, preserveAll) <==> NoNullAccess(g, lay)
  {
    if Backed(g, preserveAll) {
      forall i, t | (Reads(g, i, t) || WritesAny(g, i, t)) && Planned(g, t) && g.tensors[t].bytes > 0
        ensures Address(g, lay, t).At?
      {
        if Reads(g, i, t) && !Early(g, t) {
          var l :| Writes(g, l, t);
          assert WritesAny(g, l, t);
        }
        HasMemory(g, preserveAll, lay, t);
      }
    } else {
      var t :| SharesAcross(g, preserveAll, t);
      var j := AliasIsWritten(g, preserveAll, t);
      SharerIsNull(g, preserveAll, lay, t);
    }
  }

  /**
   In-place node `j` takes the buffer of a read-write input for a persistent first output of some size:
   the checks let the first shareable input pass, and that is in the other arena.
   */
  predicate CrossesAt(g: Graph, preserveAll: bool, j: int) {
    && IsOp(g, j) && g.ops[j].outputs != []
    && var op, k := g.ops[j], FirstShareable(g, preserveAll, j, 0);
       && k != -1 && (op.dataUnmodified || Refs(g, Root(AliasMap(g, preserveAll), op.inputs[k])) <= 1)
       && InArena(g, op.inputs[k]) && IsTensor(g, op.outputs[0])
       && g.tensors[op.outputs[0]].allocationType == ArenaRwPersistent && g.tensors[op.outputs[0]].bytes > 0
  }

  /** If the root of a persistent alias is in the read-write arena, some node has handed it over. */
  lemma {:induction false} CrossingNode(g: Graph, preserveAll: bool, i: nat, t: int) returns (j: int)
    requires WellFormed(g) && UnmodifiedShapes(g) && i <= |g.ops| && t in AliasAfter(g, preserveAll, i)
    requires SharesAcross(g, preserveAll, t)
    ensures CrossesAt(g, preserveAll, j)
    decreases i
  {
    var k;
    j, k := AliasOrigin(g, preserveAll, i, t);
    var p := g.ops[j].inputs[k];
    SameSize(g, preserveAll, j, k);
    hide AliasMap, WellFormed, UnmodifiedShapes, Refs, FirstShareable;
    if !InArena(g, p) {
      assert p in AliasMap(g, preserveAll);
      EarlierAlias(g, preserveAll, j, p);
      j := CrossingNode(g, preserveAll, j, p);
    }
  }

  /** An input that may be shared has the size of the output, and its type unless it is in the read-write arena. */
  lemma SameSize(g: Graph, preserveAll: bool, j: int, k: int)
    requires UnmodifiedShapes(g) && IsOp(g, j) && g.ops[j].outputs != []
    requires k == FirstShareable(g, preserveAll, j, 0) && k != -1
    ensures var p, t := g.ops[j].inputs[k], g.ops[j].outputs[0];
            IsTensor(g, p) && IsTensor(g, t) && g.tensors[p].bytes == g.tensors[t].bytes && Reads(g, j, p)
            && (InArena(g, p) || g.tensors[p].allocationType == g.tensors[t].allocationType)
  {
  }

  /** An input of node `j` that is an alias was one before. */
  lemma EarlierAlias(g: Graph, preserveAll: bool, j: nat, p: int)
    requires WellFormed(g) && Reads(g, j, p) && p in AliasMap(g, preserveAll)
    ensures p in AliasAfter(g, preserveAll, j)
  {
    assert forall l :: j <= l < |g.ops| ==> !Writes(g, l, p);
    AliasStable(g, preserveAll, j, |g.ops|, p);
  }

  /** An in-place node that the checks let pass makes its first output an alias. */
  lemma AliasMade(g: Graph, preserveAll: bool, j: int)
    requires WellFormed(g) && IsOp(g, j) && g.ops[j].outputs != [] && FirstShareable(g, preserveAll, j, 0) != -1
    requires var p := g.ops[j].inputs[FirstShareable(g, preserveAll, j, 0)];
             g.ops[j].dataUnmodified || Refs(g, Root(AliasMap(g, preserveAll), p)) <= 1
    ensures var p, t := g.ops[j].inputs[FirstShareable(g, preserveAll, j, 0)], g.ops[j].outputs[0];
            t in AliasMap(g, preserveAll) && AliasMap(g, preserveAll)[t] == Root(AliasMap(g, preserveAll), p)
  {
    var p, t := g.ops[j].inputs[FirstShareable(g, preserveAll, j, 0)], g.ops[j].outputs[0];
    assert Reads(g, j, p) && Writes(g, j, t);
    InputRootStable(g, preserveAll, j, p);
    SharedRootInRange(g, preserveAll, j, p);
    AliasNext(g, preserveAll, j);
    hide AliasMap, FirstShareable, Refs;
    assert forall l :: j + 1 <= l < |g.ops| ==> !Writes(g, l, t);
    AliasStaysFrom(g, preserveAll, j + 1, t);
  }

  lemma AliasStaysFrom(g: Graph, preserveAll: bool, i: nat, t: int)
    requires WellFormed(g) && i <= |g.ops| && t != OPTIONAL_TENSOR && forall l :: i <= l < |g.ops| ==> !Writes(g, l, t)
    ensures t in AliasAfter(g, preserveAll, i) <==> t in AliasMap(g, preserveAll)
    ensures Root(AliasAfter(g, preserveAll, i), t) == Root(AliasMap(g, preserveAll), t)
  {
    AliasStable(g, preserveAll, i, |g.ops|, t);
  }

  /**
   The same, seen on the graph: all tensors are backed unless some in-place node takes the buffer of a
   read-write input for a persistent output.
   */
  lemma BackedIffNoneCross(g: Graph, preserveAll: bool)
    requires WellFormed(g) && UnmodifiedShapes(g)
    ensures Backed(g, preserveAll) <==> forall j :: !CrossesAt(g, preserveAll, j)
  {
    hide AliasMap, WellFormed, Refs, FirstShareable, UnmodifiedShapes;
    if t :| SharesAcross(g, preserveAll, t) {
      InFullMap(g, preserveAll, t);
      var j := CrossingNode(g, preserveAll, |g.ops|, t);
    }
    if j :| CrossesAt(g, preserveAll, j) {
      var k := FirstShareable(g, preserveAll, j, 0);
      AliasMade(g, preserveAll, j);
      SameSize(g, preserveAll, j, k);
      BufferIs(g, preserveAll, g.ops[j].inputs[k]);
      assert SharesAcross(g, preserveAll, g.ops[j].outputs[0]);
    }
  }

  // ---------------------------------------------------------------- writing

  lemma FetchStoreSame<C>(arena: seq<C>, o: int, v: Value<C>)
    requires 0 <= o && o + |v| <= |arena|
    ensures Fetch(Store(arena, o, v), o, |v|) == v
  {
  }

  lemma FetchStoreOther<C>(arena: seq<C>, o: int, n: nat, p: int, v: Value<C>)
    requires p + |v| <= o || o + n <= p
    ensures Fetch(Store(arena, p, v), o, n) == Fetch(arena, o, n)
  {
    var after := Store(arena, p, v);
    if 0 <= o && o + n <= |arena| && 0 <= p && p + |v| <= |arena| {
      forall k | o <= k < o + n ensures after[k] == arena[k] {
      }
    }
  }

  /** Value `c` stands at `at`. */
  ghost predicate Holds<C>(mem: Memory<C>, at: Pointer, c: Value<C>) {
    at.At? && Fetch(Region(mem, at.space), at.offset, |c|) == c
  }

  /** Writing tensor `y` leaves value `c` at `at` alone, or writes just that. */
  ghost predicate Harmless<C>(
    g: Graph, ker: Kernel<C>, lay: Layout, i: int, ins: Inputs<C>, y: int, at: Pointer, c: Value<C>)
  {
    match Address(g, lay, y)
    case Null => true
    case At(space, p) =>
      var v := ker(i, y, ins);
      at.At? && (space != at.space || p + |v| <= at.offset || at.offset + |c| <= p || (p == at.offset && v == c))
  }

  ghost predicate Delivers<C>(
    g: Graph, ker: Kernel<C>, lay: Layout, i: int, ins: Inputs<C>, y: int, at: Pointer, c: Value<C>)
  {
    at.At? && Address(g, lay, y) == at && ker(i, y, ins) == c
  }

  /** One harmless write. */
  lemma WriteLeaves<C>(
    g: Graph, ker: Kernel<C>, lay: Layout, mem: Memory<C>, i: int, ins: Inputs<C>, y: int, at: Pointer, c: Value<C>)
    requires |mem.own| == |g.tensors| && at.At? && at.offset + |c| <= |Region(mem, at.space)|
    requires Harmless(g, ker, lay, i, ins, y, at, c)
    requires Holds(mem, at, c) || Delivers(g, ker, lay, i, ins, y, at, c)
    ensures Holds(SharedWrite(g, lay, mem, y, ker(i, y, ins)), at, c)
  {
    hide Resolved, Fetch, Store;
    if Delivers(g, ker, lay, i, ins, y, at, c) {
      FetchStoreSame(Region(mem, at.space), at.offset, c);
    } else if Address(g, lay, y).At? {
      var p, v := Address(g, lay, y).offset, ker(i, y, ins);
      if Address(g, lay, y).space == at.space {
        FetchStoreOther(Region(mem, at.space), at.offset, |c|, p, v);
      }
    }
  }

  lemma {:induction false} WriteAllLeaves<C>(
    g: Graph, ker: Kernel<C>, lay: Layout, mem: Memory<C>, i: int, ins: Inputs<C>, list: seq<int>, at: Pointer,
    c: Value<C>)
    requires |mem.own| == |g.tensors| && at.At? && at.offset + |c| <= |Region(mem, at.space)|
    requires forall y :: y in list ==> Harmless(g, ker, lay, i, ins, y, at, c)
    requires Holds(mem, at, c) || exists y :: y in list && Delivers(g, ker, lay, i, ins, y, at, c)
    ensures Holds(WriteAll(g, ker, lay, mem, i, ins, list), at, c)
  {
    hide Address, Harmless, Delivers, Holds, SharedWrite;
    if list != [] {
      var k := |list| - 1;
      var y, init := list[k], list[..k];
      assert list == init + [y];
      var before := WriteAll(g, ker, lay, mem, i, ins, init);
      assert Harmless(g, ker, lay, i, ins, y, at, c);
      if !Delivers(g, ker, lay, i, ins, y, at, c) {
        WriteAllLeaves(g, ker, lay, mem, i, ins, init, at, c);
      }
      WriteLeaves(g, ker, lay, before, i, ins, y, at, c);
    }
  }

  /** Memory outside the arenas changes only where it is written. */
  lemma {:induction false} WriteAllOwn<C>(
    g: Graph, ker: Kernel<C>, lay: Layout, mem: Memory<C>, i: int, ins: Inputs<C>, list: seq<int>, x: int)
    requires |mem.own| == |g.tensors| && IsTensor(g, x) && !Planned(g, x)
    ensures WriteAll(g, ker, lay, mem, i, ins, list).own[x] == if x in list then ker(i, x, ins) else mem.own[x]
  {
    hide Address;
    if list != [] {
      var k := |list| - 1;
      assert list == list[..k] + [list[k]];
      WriteAllOwn(g, ker, lay, mem, i, ins, list[..k], x);
    }
  }

  // ---------------------------------------------------------------- one node

  /** Shared memory holds the private value of every live tensor. */
  ghost predicate Agree<C>(g: Graph, focus: Focus, lay: Layout, mem: Memory<C>, vals: seq<Value<C>>, i: int) {
    && |mem.own| == |vals| == |g.tensors|
    && (forall x :: Live(g, focus, i, x) ==> SharedRead(g, lay, mem, x) == vals[x])
  }

  lemma InputLive(g: Graph, focus: Focus, i: int, t: int)
    requires WellFormed(g) && Counts(g, focus, i, t)
    ensures Live(g, focus, i, t)
  {
    assert forall j :: UsesTemporary(g, j, t) ==> !Reads(g, i, t);
  }

  /** Whatever can make a difference to a live tensor counts. */
  lemma InfluenceCounts(g: Graph, focus: Focus, i: int, x: int, y: int)
    requires Live(g, focus, i + 1, y) && Influences(g, i, x, y)
    ensures Counts(g, focus, i, x)
  {
    if focus.OutputsOnly? {
      if Observable(g, y) {
        assert Leads(g, y, []);
      } else {
        var j :| j >= i + 1 && Counts(g, focus, j, y);
        var z, hops: seq<Hop> :| Influences(g, j, y, z) && Leads(g, z, hops);
        var first := Hop(j, y, z);
        assert ([first] + hops)[1..] == hops;
        assert Leads(g, y, [first] + hops);
      }
    }
  }

  /** Node `i` writes the same value into a live tensor, whether it reads shared or private memory. */
  lemma KernelAgrees<C(!new)>(
    g: Graph, focus: Focus, lay: Layout, ker: Kernel<C>, mem: Memory<C>, vals: seq<Value<C>>, i: int, y: int)
    requires WellFormed(g) && UnmodifiedShapes(g) && Fits(g, ker) && HonoursUnmodified(g, ker) && SizesRight(g, vals)
    requires IsOp(g, i) && Agree(g, focus, lay, mem, vals, i) && Live(g, focus, i + 1, y) && WritesAny(g, i, y)
    ensures ker(i, y, SharedInputs(g, lay, mem, i)) == ker(i, y, PrivateInputs(g, vals, i))
  {
    hide SharedRead, ReachesOutput;
    assert Writes(g, i, y) || Updates(g, i, y);
    var ts, a, b := g.ops[i].inputs, SharedInputs(g, lay, mem, i), PrivateInputs(g, vals, i);
    if g.tensors[y].bytes > 0 {
      forall k | 0 <= k < |ts| && IsTensor(g, ts[k]) && Influences(g, i, ts[k], y) ensures a[k] == b[k] {
        InfluenceCounts(g, focus, i, ts[k], y);
        InputLive(g, focus, i, ts[k]);
      }
      if PassesThrough(g, i) && y == g.ops[i].outputs[0] {
        assert Influences(g, i, ts[0], y);
        assert Copies(g, i, a) && Copies(g, i, b);
      } else {
        assert forall k :: 0 <= k < |ts| && IsTensor(g, ts[k]) ==> Influences(g, i, ts[k], y);
        assert a == b;
      }
    } else {
      assert |ker(i, y, a)| == |ker(i, y, b)| == 0;
    }
  }

  /** Node `i` overwrites, in place, a buffer that held something else. */
  ghost predicate Overwrites(g: Graph, alias: map<int, int>, i: int) {
    && IsOp(g, i) && g.ops[i].outputs != [] && !g.ops[i].dataUnmodified
    && g.ops[i].outputs[0] in alias && InArena(g, g.ops[i].outputs[0])
  }

  /** Node `i` changes the buffer of `y`: its output by an in-place operation, or a variable that it updates. */
  ghost predicate Clobbers(g: Graph, alias: map<int, int>, i: int, y: int) {
    || (Overwrites(g, alias, i) && y == g.ops[i].outputs[0])
    || (Updates(g, i, y) && InArena(g, y) && g.tensors[y].bytes > 0)
  }

  /** The buffer of `x` holds another tensor once node `i` has written `y`. */
  ghost predicate LostAt(g: Graph, alias: map<int, int>, i: int, y: int, x: int) {
    IsOp(g, i) && InArena(g, x) && x != y && AvailableBefore(g, i, x) && Root(alias, x) == Root(alias, y)
  }

  /** No tensor is looked at after a node has changed its buffer through another tensor. */
  ghost predicate SafeOverwrites(g: Graph, focus: Focus, alias: map<int, int>) {
    forall i, y, x, j :: Clobbers(g, alias, i, y) && LostAt(g, alias, i, y, x) && Counts(g, focus, j, x) ==> j <= i
  }

  lemma {:induction false} UsesPositive(g: Graph, t: int, j: int, i: nat)
    requires 0 <= j < i <= |g.ops| && Reads(g, j, t)
    ensures Uses(g, t, i) >= 1
  {
    if j < i - 1 {
      UsesPositive(g, t, j, i - 1);
    } else {
      assert t in multiset(g.ops[j].inputs);
    }
  }

  /** An in-place node does not update the variable whose buffer it works in. */
  lemma RootNotUpdated(g: Graph, preserveAll: bool, i: int, x: int)
    requires WellFormed(g) && UnmodifiedShapes(g) && Writes(g, i, x) && x in AliasMap(g, preserveAll)
    ensures !Updates(g, i, AliasMap(g, preserveAll)[x])
  {
    var k, p := DonorAt(g, preserveAll, i, x);
    hide AliasMap;
    var r := AliasMap(g, preserveAll)[x];
    if Updates(g, i, r) {
      UsesPositive(g, r, i, |g.ops|);
      BonusIs(g, r);
    }
  }

  /** An alias that node `i` writes is its first output, and the node neither produces nor updates the root. */
  lemma AliasWriter(g: Graph, preserveAll: bool, i: int, x: int)
    requires WellFormed(g) && UnmodifiedShapes(g) && WritesAny(g, i, x) && x in AliasMap(g, preserveAll)
    ensures Writes(g, i, x) && g.ops[i].outputs[0] == x
    ensures AvailableBefore(g, i, AliasMap(g, preserveAll)[x])
    ensures !WritesAny(g, i, AliasMap(g, preserveAll)[x])
  {
    AliasKeys(g, preserveAll, |g.ops|, x);
    RootFacts(g, preserveAll, x);
    if Writes(g, i, x) { RootNotUpdated(g, preserveAll, i, x); }
    hide AliasMap;
    var j :| 0 <= j < |g.ops| && Writes(g, j, x) && g.ops[j].outputs[0] == x;
    assert forall l :: UsesTemporary(g, l, x) ==> !Writes(g, j, x);
  }

  /** Two tensors written by one node have different buffers. */
  lemma WrittenApart(g: Graph, preserveAll: bool, i: int, x: int, y: int)
    requires WellFormed(g) && UnmodifiedShapes(g) && WritesAny(g, i, x) && WritesAny(g, i, y) && x != y
    requires Planned(g, x) && Planned(g, y)
    ensures Buffer(g, preserveAll, x) != Buffer(g, preserveAll, y)
  {
    BufferIs(g, preserveAll, x);
    BufferIs(g, preserveAll, y);
    if x in AliasMap(g, preserveAll) { AliasWriter(g, preserveAll, i, x); }
    if y in AliasMap(g, preserveAll) { AliasWriter(g, preserveAll, i, y); }
  }

  /** Buffers of one arena that are in use at the same node do not share bytes. */
  lemma ApartAtNode(g: Graph, preserveAll: bool, lay: Layout, i: int, r: int, s: int)
    requires LaidOut(g, preserveAll, lay) && r != s && Owns(g, lay, r) && Owns(g, lay, s) && SameType(g, r, s)
    requires FirstNode(g, r) <= i <= ReleaseNode(g, preserveAll, r)
    requires FirstNode(g, s) <= i <= ReleaseNode(g, preserveAll, s)
    ensures BytesDisjoint(lay.allocs[r], lay.allocs[s])
    ensures lay.allocs[r].size == g.tensors[r].bytes && lay.allocs[s].size == g.tensors[s].bytes
  {
    hide FirstNode, ReleaseNode, WantsMemory, Owns;
    assert PlacedRight(g, preserveAll, lay, r);
    assert PlacedRight(g, preserveAll, lay, s);
    assert Compatible(lay.allocs[r], lay.allocs[s]);
  }

  /** If the buffers differ, a write at node `i` cannot touch the bytes of a tensor live at node `i`. */
  lemma OtherBufferHarmless<C(!new)>(
    g: Graph, preserveAll: bool, focus: Focus, lay: Layout, ker: Kernel<C>, i: int, ins: Inputs<C>, y: int, x: int,
    c: Value<C>)
    requires Ready(g, preserveAll, lay) && Fits(g, ker) && WritesAny(g, i, y)
    requires Address(g, lay, x).At? && Planned(g, x) && |c| == g.tensors[x].bytes
    requires Planned(g, y) ==> Buffer(g, preserveAll, y) != Buffer(g, preserveAll, x)
    requires Live(g, focus, i, x) || WritesAny(g, i, x)
    ensures Harmless(g, ker, lay, i, ins, y, Address(g, lay, x), c)
  {
    hide Address, FirstNode, ReleaseNode, Compatible, WantsMemory, PlacedRight, LaidOut, AliasMap, Live, WellFormed,
      UnmodifiedShapes, Initialised;
    if Address(g, lay, y).At? {
      AddressNeedsPlan(g, lay, y);
      AddressIs(g, preserveAll, lay, x);
      AddressIs(g, preserveAll, lay, y);
      if SameType(g, x, y) {
        WrittenInUse(g, preserveAll, i, y);
        if Live(g, focus, i, x) {
          LiveInUse(g, preserveAll, focus, i, x);
        } else {
          WrittenInUse(g, preserveAll, i, x);
        }
        ApartAtNode(g, preserveAll, lay, i, Buffer(g, preserveAll, x), Buffer(g, preserveAll, y));
        assert |ker(i, y, ins)| == g.tensors[y].bytes;
      }
    }
  }

  lemma SameBuffer<C>(g: Graph, lay: Layout, mem: Memory<C>, x: int, p: int)
    requires |mem.own| == |g.tensors| && IsTensor(g, x) && IsTensor(g, p) && g.tensors[x].bytes == g.tensors[p].bytes
    requires Address(g, lay, x) == Address(g, lay, p) && Address(g, lay, x).At?
    ensures SharedRead(g, lay, mem, x) == SharedRead(g, lay, mem, p)
  {
  }

  /** Tensors of the read-write arena with the same root have the same address and size. */
  lemma SameRootSameAddress(g: Graph, preserveAll: bool, lay: Layout, x: int, y: int)
    requires Ready(g, preserveAll, lay) && InArena(g, x) && InArena(g, y)
    requires Root(AliasMap(g, preserveAll), x) == Root(AliasMap(g, preserveAll), y)
    ensures Address(g, lay, x) == Address(g, lay, y) && g.tensors[x].bytes == g.tensors[y].bytes
  {
    hide Address, Ready, AliasMap;
    AddressIs(g, preserveAll, lay, x);
    AddressIs(g, preserveAll, lay, y);
  }

  /** A node that leaves its input unmodified writes what its buffer already holds. */
  lemma UnmodifiedWrites<C(!new)>(
    g: Graph, preserveAll: bool, lay: Layout, ker: Kernel<C>, mem: Memory<C>, i: int, y: int, x: int)
    requires Ready(g, preserveAll, lay) && HonoursUnmodified(g, ker) && Room(g, lay, mem)
    requires IsOp(g, i) && g.ops[i].dataUnmodified && Writes(g, i, y) && y in AliasMap(g, preserveAll) && InArena(g, y)
    requires InArena(g, x) && Root(AliasMap(g, preserveAll), x) == AliasMap(g, preserveAll)[y] && Address(g, lay, x).At?
    ensures g.ops[i].outputs[0] == y && Copies(g, i, SharedInputs(g, lay, mem, i))
    ensures ker(i, y, SharedInputs(g, lay, mem, i)) == SharedRead(g, lay, mem, x)
  {
    var k, p := DonorAt(g, preserveAll, i, y);
    assert k == 0 && InArena(g, p);
    hide Address, LaidOut, WellFormed, UnmodifiedShapes, Initialised, AliasMap;
    SameRootSameAddress(g, preserveAll, lay, x, y);
    SameRootSameAddress(g, preserveAll, lay, x, p);
    SameBuffer(g, lay, mem, x, p);
    AddressInRange(g, preserveAll, lay, mem, p);
    assert Copies(g, i, SharedInputs(g, lay, mem, i));
  }

  /** A tensor whose buffer is changed through another one is not looked at after the run, nor written by the node. */
  lemma LostNotObservable(g: Graph, preserveAll: bool, i: int, y: int, x: int)
    requires WellFormed(g) && Clobbers(g, AliasMap(g, preserveAll), i, y)
    requires LostAt(g, AliasMap(g, preserveAll), i, y, x)
    ensures !Observable(g, x) && !Writes(g, i, x) && !Updates(g, i, x)
  {
    if x in AliasMap(g, preserveAll) {
      AliasKeys(g, preserveAll, |g.ops|, x);
    } else if y in AliasMap(g, preserveAll) {
      AliasKeys(g, preserveAll, |g.ops|, y);
      assert !Updates(g, i, y);
      assert Writes(g, i, y);
      var k, p := DonorAt(g, preserveAll, i, y);
      assert Refs(g, x) <= 1;
      RootIsRead(g, preserveAll, |g.ops|, y);
      hide AliasMap;
      var m :| Reads(g, m, x);
      UsesPositive(g, x, m, |g.ops|);
      BonusIs(g, x);
    }
  }

  /** `x` survives node `i`: it was live before, and the node does not write it. */
  lemma SurvivorWasLive(g: Graph, focus: Focus, i: int, x: int)
    requires IsOp(g, i) && Live(g, focus, i + 1, x) && !WritesAny(g, i, x)
    ensures Live(g, focus, i, x)
  {
    hide Counts;
    if !Observable(g, x) {
      var j :| j >= i + 1 && Counts(g, focus, j, x);
    }
  }

  /** A tensor that shares its buffer with another one, which node `i` writes, lives in the read-write arena. */
  lemma SameBufferSameRoot(g: Graph, preserveAll: bool, x: int, y: int)
    requires WellFormed(g) && UnmodifiedShapes(g) && Planned(g, x) && Planned(g, y) && x != y
    requires Buffer(g, preserveAll, x) == Buffer(g, preserveAll, y)
    ensures InArena(g, x) && InArena(g, y) && Root(AliasMap(g, preserveAll), x) == Root(AliasMap(g, preserveAll), y)
  {
    BufferIs(g, preserveAll, x);
    BufferIs(g, preserveAll, y);
  }

  /** A tensor written at node `i` into the buffer of an earlier one is an alias or an updated variable. */
  lemma SameRootIsAlias(g: Graph, preserveAll: bool, i: int, x: int, y: int)
    requires WellFormed(g) && UnmodifiedShapes(g) && IsTensor(g, x) && AvailableBefore(g, i, x)
    requires !WritesAny(g, i, x) && WritesAny(g, i, y)
    requires Root(AliasMap(g, preserveAll), x) == Root(AliasMap(g, preserveAll), y)
    ensures y in AliasMap(g, preserveAll) || Updates(g, i, y)
  {
    if y !in AliasMap(g, preserveAll) {
      AliasKeys(g, preserveAll, |g.ops|, x);
      var l :| 0 <= l < |g.ops| && Writes(g, l, x) && g.ops[l].outputs[0] == x;
      AliasWriter(g, preserveAll, l, x);
      RootFacts(g, preserveAll, x);
    }
  }

  /** Every write of node `i` leaves a survivor's value alone. */
  lemma SurvivorUnharmed<C(!new)>(
    g: Graph, preserveAll: bool, focus: Focus, lay: Layout, ker: Kernel<C>, mem: Memory<C>, i: int, x: int, y: int)
    requires Ready(g, preserveAll, lay) && Fits(g, ker) && HonoursUnmodified(g, ker) && Room(g, lay, mem)
    requires SafeOverwrites(g, focus, AliasMap(g, preserveAll))
    requires IsOp(g, i) && Live(g, focus, i + 1, x) && !WritesAny(g, i, x) && WritesAny(g, i, y)
    requires Address(g, lay, x).At?
    ensures Harmless(g, ker, lay, i, SharedInputs(g, lay, mem, i), y, Address(g, lay, x), SharedRead(g, lay, mem, x))
  {
    hide Address, LaidOut, SharedRead, Fits, HonoursUnmodified, UnmodifiedShapes, Initialised, AliasMap, Counts, Buffer;
    SurvivorWasLive(g, focus, i, x);
    AddressInRange(g, preserveAll, lay, mem, x);
    var ins, c := SharedInputs(g, lay, mem, i), SharedRead(g, lay, mem, x);
    if Address(g, lay, y).At? {
      AddressNeedsPlan(g, lay, y);
      if Buffer(g, preserveAll, y) != Buffer(g, preserveAll, x) {
        OtherBufferHarmless(g, preserveAll, focus, lay, ker, i, ins, y, x, c);
      } else {
        SameBufferSameRoot(g, preserveAll, x, y);
        SameRootIsAlias(g, preserveAll, i, x, y);
        if !Updates(g, i, y) && g.ops[i].dataUnmodified {
          AliasWriter(g, preserveAll, i, y);
          UnmodifiedWrites(g, preserveAll, lay, ker, mem, i, y, x);
          SameRootSameAddress(g, preserveAll, lay, x, y);
        } else {
          if !Updates(g, i, y) { AliasWriter(g, preserveAll, i, y); }
          AddressInRange(g, preserveAll, lay, mem, y);
          assert Clobbers(g, AliasMap(g, preserveAll), i, y) && LostAt(g, AliasMap(g, preserveAll), i, y, x);
          LostNotObservable(g, preserveAll, i, y, x);
          assert false;
        }
      }
    }
  }

  lemma PartOfWrites(g: Graph, i: int, y: int)
    requires IsOp(g, i) && IsTensor(g, y)
    ensures y in WriteList(g, i) <==> WritesAny(g, i, y)
  {
  }

  lemma ReadyApart(g: Graph, preserveAll: bool, lay: Layout, i: int, x: int, y: int)
    requires Ready(g, preserveAll, lay) && WritesAny(g, i, x) && WritesAny(g, i, y) && x != y
    requires Planned(g, x) && Planned(g, y)
    ensures Buffer(g, preserveAll, x) != Buffer(g, preserveAll, y)
  {
    WrittenApart(g, preserveAll, i, x, y);
  }

  /** A tensor without bytes reads as empty. */
  lemma EmptyReads<C>(g: Graph, preserveAll: bool, lay: Layout, mem: Memory<C>, x: int)
    requires Ready(g, preserveAll, lay) && |mem.own| == |g.tensors| && Planned(g, x) && g.tensors[x].bytes == 0
    ensures SharedRead(g, lay, mem, x) == []
  {
    hide Ready;
    AddressIs(g, preserveAll, lay, x);
  }

  /** What a tensor with memory reads as right after the node that writes it. */
  lemma WrittenReads<C(!new)>(
    g: Graph, preserveAll: bool, lay: Layout, ker: Kernel<C>, mem: Memory<C>, i: int, x: int)
    requires Ready(g, preserveAll, lay) && Backed(g, preserveAll) && Fits(g, ker) && Room(g, lay, mem)
    requires IsOp(g, i) && WritesAny(g, i, x) && IsTensor(g, x)
    ensures SharedRead(g, lay, SharedStep(g, ker, lay, mem, i), x) == ker(i, x, SharedInputs(g, lay, mem, i))
  {
    hide Address, Ready, Buffer, Fetch;
    var ins, list := SharedInputs(g, lay, mem, i), WriteList(g, i);
    PartOfWrites(g, i, x);
    assert |ker(i, x, ins)| == g.tensors[x].bytes;
    if !Planned(g, x) {
      WriteAllOwn(g, ker, lay, mem, i, ins, list, x);
    } else if g.tensors[x].bytes == 0 {
      EmptyReads(g, preserveAll, lay, SharedStep(g, ker, lay, mem, i), x);
    } else {
      HasMemory(g, preserveAll, lay, x);
      AddressInRange(g, preserveAll, lay, mem, x);
      hide Fits, Backed;
      var at, c := Address(g, lay, x), ker(i, x, ins);
      assert Delivers(g, ker, lay, i, ins, x, at, c);
      forall y | y in list ensures Harmless(g, ker, lay, i, ins, y, at, c) {
        if Address(g, lay, y).At? && y != x {
          AddressNeedsPlan(g, lay, y);
          PartOfWrites(g, i, y);
          ReadyApart(g, preserveAll, lay, i, x, y);
          OtherBufferHarmless(g, preserveAll, EveryRead, lay, ker, i, ins, y, x, c);
        }
      }
      WriteAllLeaves(g, ker, lay, mem, i, ins, list, at, c);
    }
  }

  /** What a survivor reads as after node `i`: what it read as before. */
  lemma SurvivorReads<C(!new)>(
    g: Graph, preserveAll: bool, focus: Focus, lay: Layout, ker: Kernel<C>, mem: Memory<C>, i: int, x: int)
    requires Ready(g, preserveAll, lay) && Fits(g, ker) && HonoursUnmodified(g, ker) && Room(g, lay, mem)
    requires SafeOverwrites(g, focus, AliasMap(g, preserveAll))
    requires IsOp(g, i) && Live(g, focus, i + 1, x) && !WritesAny(g, i, x) && IsTensor(g, x)
    ensures SharedRead(g, lay, SharedStep(g, ker, lay, mem, i), x) == SharedRead(g, lay, mem, x)
  {
    hide Address, Ready, Fits, HonoursUnmodified, SafeOverwrites, Live, AliasMap;
    var ins, list := SharedInputs(g, lay, mem, i), WriteList(g, i);
    PartOfWrites(g, i, x);
    if !Planned(g, x) {
      WriteAllOwn(g, ker, lay, mem, i, ins, list, x);
    } else if Address(g, lay, x).At? {
      AddressInRange(g, preserveAll, lay, mem, x);
      var at, c := Address(g, lay, x), SharedRead(g, lay, mem, x);
      assert Holds(mem, at, c);
      forall y | y in list ensures Harmless(g, ker, lay, i, ins, y, at, c) {
        if Address(g, lay, y).At? {
          AddressNeedsPlan(g, lay, y);
          PartOfWrites(g, i, y);
          SurvivorUnharmed(g, preserveAll, focus, lay, ker, mem, i, x, y);
        }
      }
      WriteAllLeaves(g, ker, lay, mem, i, ins, list, at, c);
    }
  }

  lemma StepAgrees<C(!new)>(
    g: Graph, preserveAll: bool, focus: Focus, lay: Layout, ker: Kernel<C>, mem: Memory<C>, vals: seq<Value<C>>, i: int)
    requires Ready(g, preserveAll, lay) && Backed(g, preserveAll) && Fits(g, ker) && HonoursUnmodified(g, ker)
    requires SafeOverwrites(g, focus, AliasMap(g, preserveAll)) && SizesRight(g, vals) && Room(g, lay, mem)
    requires IsOp(g, i) && Agree(g, focus, lay, mem, vals, i)
    ensures Agree(g, focus, lay, SharedStep(g, ker, lay, mem, i), PrivateStep(g, ker, vals, i), i + 1)
  {
    hide Address, LaidOut, SafeOverwrites, UnmodifiedShapes, HonoursUnmodified, Fits, WellFormed, Initialised,
      SharedStep, SharedRead, Backed, AliasMap;
    forall x | Live(g, focus, i + 1, x)
      ensures SharedRead(g, lay, SharedStep(g, ker, lay, mem, i), x) == PrivateStep(g, ker, vals, i)[x]
    {
      if WritesAny(g, i, x) {
        WrittenReads(g, preserveAll, lay, ker, mem, i, x);
        KernelAgrees(g, focus, lay, ker, mem, vals, i, x);
      } else {
        SurvivorReads(g, preserveAll, focus, lay, ker, mem, i, x);
        SurvivorWasLive(g, focus, i, x);
      }
    }
  }

  /** Graph inputs and variables are loaded before the first node runs. */
  ghost predicate Loaded<C>(g: Graph, lay: Layout, mem: Memory<C>, init: seq<Value<C>>) {
    && mem.own == init && Room(g, lay, mem)
    && (forall t :: Early(g, t) && IsTensor(g, t) ==> SharedRead(g, lay, mem, t) == init[t])
  }

  /** A live tensor that nobody fills has memory of its own. */
  lemma NeverFilled<C>(g: Graph, preserveAll: bool, focus: Focus, lay: Layout, mem: Memory<C>, x: int)
    requires Ready(g, preserveAll, lay) && |mem.own| == |g.tensors| && Live(g, focus, 0, x) && !Early(g, x)
    ensures SharedRead(g, lay, mem, x) == mem.own[x]
  {
    assert !Produced(g, x);
  }

  lemma {:induction false} RunAgrees<C(!new)>(
    g: Graph, preserveAll: bool, focus: Focus, lay: Layout, ker: Kernel<C>, mem: Memory<C>, init: seq<Value<C>>, i: nat)
    requires Ready(g, preserveAll, lay) && Backed(g, preserveAll) && Fits(g, ker) && HonoursUnmodified(g, ker)
    requires SafeOverwrites(g, focus, AliasMap(g, preserveAll)) && SizesRight(g, init) && Loaded(g, lay, mem, init)
    requires i <= |g.ops|
    ensures Agree(g, focus, lay, SharedRun(g, ker, lay, mem, i), PrivateRun(g, ker, init, i), i)
  {
    hide Address, SafeOverwrites, HonoursUnmodified, Fits, SharedStep, PrivateStep, SharedRead, Ready, Backed, AliasMap;
    if i > 0 {
      RunAgrees(g, preserveAll, focus, lay, ker, mem, init, i - 1);
      PrivateSizes(g, ker, init, i - 1);
      StepAgrees(g, preserveAll, focus, lay, ker, SharedRun(g, ker, lay, mem, i - 1),
                 PrivateRun(g, ker, init, i - 1), i - 1);
    } else {
      forall x | Live(g, focus, 0, x) ensures SharedRead(g, lay, mem, x) == init[x] {
        if !Early(g, x) { NeverFilled(g, preserveAll, focus, lay, mem, x); }
      }
    }
  }

  lemma OutputLive(g: Graph, focus: Focus, o: int)
    requires WellFormed(g) && Observable(g, o) && o != OPTIONAL_TENSOR
    ensures Live(g, focus, |g.ops|, o)
  {
  }

  /** Every read that counts yields in shared memory what it yields in private memory. */
  ghost predicate SameReads<C(!new)>(
    g: Graph, focus: Focus, lay: Layout, ker: Kernel<C>, mem: Memory<C>, init: seq<Value<C>>)
    requires |mem.own| == |init| == |g.tensors|
  {
    forall i, t :: Counts(g, focus, i, t) ==>
      && IsTensor(g, t) && |PrivateRun(g, ker, init, i)| == |g.tensors|
      && SharedRead(g, lay, SharedRun(g, ker, lay, mem, i), t) == PrivateRun(g, ker, init, i)[t]
  }

  /** All graph outputs and variables end up with the values they get in private memory. */
  ghost predicate SameOutputs<C(!new)>(g: Graph, lay: Layout, ker: Kernel<C>, mem: Memory<C>, init: seq<Value<C>>)
    requires |mem.own| == |init| == |g.tensors|
  {
    && |PrivateRun(g, ker, init, |g.ops|)| == |g.tensors|
    && (forall o :: Observable(g, o) && o != OPTIONAL_TENSOR ==>
          && IsTensor(g, o)
          && SharedRead(g, lay, SharedRun(g, ker, lay, mem, |g.ops|), o) == PrivateRun(g, ker, init, |g.ops|)[o])
  }

  /**
   Planned memory refines private memory: if every tensor is backed, then unless a tensor is looked at
   after its buffer has been changed through another one, every read that counts yields the same value,
   and every graph output and variable ends up with the same value, as if each tensor had a buffer of
   its own.
   */
  lemma PlannedRefinesPrivate<C(!new)>(
    g: Graph, preserveAll: bool, focus: Focus, lay: Layout, ker: Kernel<C>, mem: Memory<C>, init: seq<Value<C>>)
    requires Ready(g, preserveAll, lay) && Backed(g, preserveAll) && Fits(g, ker) && HonoursUnmodified(g, ker)
    requires SafeOverwrites(g, focus, AliasMap(g, preserveAll)) && SizesRight(g, init) && Loaded(g, lay, mem, init)
    ensures SameReads(g, focus, lay, ker, mem, init) && SameOutputs(g, lay, ker, mem, init)
  {
    hide Address, SafeOverwrites, HonoursUnmodified, Fits, SharedRead, SharedRun, PrivateRun, LaidOut, Initialised,
      UnmodifiedShapes, Backed, AliasMap;
    forall i, t | Counts(g, focus, i, t)
      ensures IsTensor(g, t) && |PrivateRun(g, ker, init, i)| == |g.tensors|
      ensures SharedRead(g, lay, SharedRun(g, ker, lay, mem, i), t) == PrivateRun(g, ker, init, i)[t]
    {
      RunAgrees(g, preserveAll, focus, lay, ker, mem, init, i);
      InputLive(g, focus, i, t);
    }
    RunAgrees(g, preserveAll, focus, lay, ker, mem, init, |g.ops|);
    forall o | Observable(g, o) && o != OPTIONAL_TENSOR ensures Live(g, focus, |g.ops|, o) {
      OutputLive(g, focus, o);
    }
  }

  // ---------------------------------------------------------------- from scratch

  /** If neither arena needs any bytes, all pointers stay null; tensors that are not placed keep theirs. */
  lemma ResolvedFromScratch(g: Graph, preserveAll: bool, lay: Layout, t: int)
    requires LaidOut(g, preserveAll, lay) && IsTensor(g, t)
    ensures |lay.allocs| == |g.tensors| && NoPointers(g)[t] == Null
    ensures Resolved(g, lay.alias, lay.allocs, NoPointers(g), t) == Address(g, lay, t)
    ensures lay.highWaterMark == lay.persistentMark == 0 ==> Address(g, lay, t) == Null
  {
    hide FirstNode, ReleaseNode;
    if lay.highWaterMark == lay.persistentMark == 0 {
      forall u | IsTensor(g, u) ensures lay.allocs[u].size == 0 {
        if Owns(g, lay, u) { assert PlacedRight(g, preserveAll, lay, u); }
      }
    }
  }

  /**
   Planning and laying out a graph from scratch, as the interpreter does before it first runs: a layout
   for which the theorems hold, and the data pointers that go with it.
   */
  method PlanGraph(g: Graph, preserveAll: bool, alignment: nat, bufferAlignment: nat)
    returns (lay: Layout, data: seq<Pointer>)
    requires WellFormed(g) && Initialised(g) && UnmodifiedShapes(g) && 0 < alignment <= bufferAlignment
    ensures Ready(g, preserveAll, lay) && LifelongBelow(g, preserveAll, lay) && |data| == |g.tensors|
    ensures forall t :: IsTensor(g, t) ==> data[t] == Address(g, lay, t)
  {
    hide WellFormed, Initialised, UnmodifiedShapes, LaidOut, LifelongBelow, AliasMap;
    var planner := new Planner(g, preserveAll, bufferAlignment);
    var ok := planner.PlanAllocations();
    ok := planner.ExecuteAllocations(alignment, false, false);
    lay, data := planner.CurrentLayout(), planner.data;
    forall t | IsTensor(g, t) ensures data[t] == Address(g, lay, t) {
      ResolvedFromScratch(g, preserveAll, lay, t);
    }
  }
}
