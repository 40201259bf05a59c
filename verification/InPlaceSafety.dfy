/**
 When in-place planning is safe: exactly when every tensor is backed by memory and none is looked at
 after its buffer has been changed through another one.  A tagging kernel exposes every other case.
 */
module InPlaceSafety {
  import opened Common
  import opened ArenaGraph
  import opened ArenaPlanner
  import opened PlannedMemory

  // ---------------------------------------------------------------- a kernel that tells nodes apart

  function Fill(n: nat, v: int): seq<int> {
    seq(n, _ => v)
  }

  function IndexOf(s: seq<int>, x: int): nat {
    if s == [] || s[0] == x then 0 else 1 + IndexOf(s[1..], x)
  }

  lemma {:induction false} IndexOfIs(s: seq<int>, x: int)
    requires x in s
    ensures IndexOf(s, x) < |s| && s[IndexOf(s, x)] == x
  {
    if s[0] != x {
      assert x in s[1..];
      IndexOfIs(s[1..], x);
    }
  }

  /** What node `m` finds in its input `t`. */
  function InputValue(g: Graph, m: int, t: int, ins: Inputs<int>): Value<int>
    requires IsOp(g, m)
  {
    var k := IndexOf(g.ops[m].inputs, t);
    if k < |ins| && ins[k].Some? then ins[k].value else []
  }

  /** What node `m` passes on to tensor `t` if it is on the route: the first byte of the input it came by. */
  function PassedOn(g: Graph, route: map<int, Hop>, m: int, t: int, ins: Inputs<int>): Option<int> {
    if m in route && route[m].output == t && IsOp(g, m) then
      var v := InputValue(g, m, route[m].input, ins);
      if v != [] then Some(v[0]) else None
    else None
  }

  /**
   Node `m` fills its outputs with `m + 1`, unless it has to pass an input through or on.  Variables keep
   their values, but for those that node `at` updates.
   */
  function Tag(g: Graph, at: int, route: map<int, Hop>, m: int, t: int, ins: Inputs<int>): Value<int> {
    if Copies(g, m, ins) && t == g.ops[m].outputs[0] then ins[0].value
    else if !IsTensor(g, t) then []
    else
      match PassedOn(g, route, m, t, ins)
      case Some(v) => Fill(g.tensors[t].bytes, v)
      case None =>
        if Updates(g, m, t) && m != at && |InputValue(g, m, t, ins)| == g.tensors[t].bytes then InputValue(g, m, t, ins)
        else Fill(g.tensors[t].bytes, m + 1)
  }

  function TagKernel(g: Graph, at: int, route: map<int, Hop>): Kernel<int> {
    (m, t, ins) => Tag(g, at, route, m, t, ins)
  }

  lemma TagKernelIsKernel(g: Graph, at: int, route: map<int, Hop>)
    ensures Fits(g, TagKernel(g, at, route)) && HonoursUnmodified(g, TagKernel(g, at, route))
  {
  }

  function Zeros(g: Graph): seq<Value<int>> {
    seq(|g.tensors|, t requires 0 <= t < |g.tensors| => Fill(g.tensors[t].bytes, 0))
  }

  function Blank(g: Graph, lay: Layout): Memory<int> {
    Memory(Fill(lay.highWaterMark, 0), Fill(lay.persistentMark, 0), Zeros(g))
  }

  /** The value names nodes up to `i` only. */
  predicate Low(v: Value<int>, i: int) {
    forall k :: 0 <= k < |v| ==> v[k] <= i
  }

  /** There is a value, and it names nodes from `i` on only. */
  predicate Late(v: Value<int>, i: int) {
    v != [] && forall k :: 0 <= k < |v| ==> v[k] >= i + 1
  }

  /** The private values of a tagged run. */
  function PrivateTagged(g: Graph, at: int, route: map<int, Hop>, i: nat): seq<Value<int>>
    requires i <= |g.ops|
  {
    PrivateRun(g, TagKernel(g, at, route), Zeros(g), i)
  }

  /** The memory of a tagged run. */
  ghost function SharedTagged(g: Graph, lay: Layout, at: int, route: map<int, Hop>, i: nat): (r: Memory<int>)
    requires i <= |g.ops|
    ensures Room(g, lay, r)
  {
    SharedRun(g, TagKernel(g, at, route), lay, Blank(g, lay), i)
  }

  lemma TaggedSizes(g: Graph, at: int, route: map<int, Hop>, i: nat)
    requires i <= |g.ops|
    ensures SizesRight(g, PrivateTagged(g, at, route, i))
  {
    TagKernelIsKernel(g, at, route);
    PrivateSizes(g, TagKernel(g, at, route), Zeros(g), i);
  }

  /** An updated variable is among the inputs, and keeps its value. */
  lemma VariableKept(g: Graph, at: int, route: map<int, Hop>, m: int, x: int, ins: Inputs<int>, v: Value<int>)
    requires WellFormed(g) && Updates(g, m, x) && m != at && m !in route && |v| == g.tensors[x].bytes
    requires |ins| == |g.ops[m].inputs| && forall k :: 0 <= k < |ins| && g.ops[m].inputs[k] == x ==> ins[k] == Some(v)
    ensures TagKernel(g, at, route)(m, x, ins) == v
  {
    assert Reads(g, m, x) && x in g.variables;
    IndexOfIs(g.ops[m].inputs, x);
    hide IndexOf;
    assert InputValue(g, m, x, ins) == v;
    assert !Writes(g, m, x);
  }

  // ---------------------------------------------------------------- private memory names the past

  /** One node off the route, before `at`, names nothing later than itself. */
  lemma StepTags(g: Graph, at: int, route: map<int, Hop>, vals: seq<Value<int>>, i: int, t: int)
    requires WellFormed(g) && IsOp(g, i) && IsTensor(g, t) && i !in route && SizesRight(g, vals)
    requires forall u :: IsTensor(g, u) ==> Low(vals[u], i)
    ensures |PrivateStep(g, TagKernel(g, at, route), vals, i)| == |g.tensors|
    ensures Low(PrivateStep(g, TagKernel(g, at, route), vals, i)[t], i + 1)
  {
    if WritesAny(g, i, t) {
      var ins := PrivateInputs(g, vals, i);
      if Updates(g, i, t) && i != at {
        VariableKept(g, at, route, i, t, ins, vals[t]);
      } else if Copies(g, i, ins) && t == g.ops[i].outputs[0] {
        assert Low(vals[g.ops[i].inputs[0]], i);
      }
    }
  }

  /** Before the route begins, private values name nodes that have run. */
  lemma {:induction false} PrivateTags(g: Graph, at: int, route: map<int, Hop>, i: nat, t: int)
    requires WellFormed(g) && i <= |g.ops| && IsTensor(g, t) && forall m :: m in route ==> m >= i
    ensures |PrivateTagged(g, at, route, i)| == |g.tensors|
    ensures Low(PrivateTagged(g, at, route, i)[t], i)
  {
    if i > 0 {
      var vals := PrivateTagged(g, at, route, i - 1);
      TaggedSizes(g, at, route, i - 1);
      forall u | IsTensor(g, u) ensures Low(vals[u], i - 1) { PrivateTags(g, at, route, i - 1, u); }
      StepTags(g, at, route, vals, i - 1, t);
    }
  }

  lemma RunStep(g: Graph, lay: Layout, at: int, route: map<int, Hop>, i: nat)
    requires i < |g.ops|
    ensures SharedTagged(g, lay, at, route, i + 1)
         == SharedStep(g, TagKernel(g, at, route), lay, SharedTagged(g, lay, at, route, i), i)
  {
  }

  lemma PrivateRunStep(g: Graph, at: int, route: map<int, Hop>, i: nat)
    requires i < |g.ops|
    ensures PrivateTagged(g, at, route, i + 1)
         == PrivateStep(g, TagKernel(g, at, route), PrivateTagged(g, at, route, i), i)
  {
  }

  /** Off the route and away from `at`, a node leaves a tensor alone that it neither produces nor uses for itself. */
  lemma PrivateKept(g: Graph, at: int, route: map<int, Hop>, i: nat, x: int)
    requires WellFormed(g) && i < |g.ops| && IsTensor(g, x) && !Writes(g, i, x) && !UsesTemporary(g, i, x)
    requires Updates(g, i, x) ==> i != at && i !in route
    ensures |PrivateTagged(g, at, route, i)| == |PrivateTagged(g, at, route, i + 1)| == |g.tensors|
    ensures PrivateTagged(g, at, route, i + 1)[x] == PrivateTagged(g, at, route, i)[x]
  {
    hide PrivateTagged, TagKernel;
    TaggedSizes(g, at, route, i);
    TaggedSizes(g, at, route, i + 1);
    PrivateRunStep(g, at, route, i);
    if Updates(g, i, x) {
      var vals := PrivateTagged(g, at, route, i);
      VariableKept(g, at, route, i, x, PrivateInputs(g, vals, i), vals[x]);
      assert WritesAny(g, i, x);
    } else {
      assert !WritesAny(g, i, x);
    }
  }

  // ---------------------------------------------------------------- shared memory names the future

  /** What is written into a buffer that held something else: some bytes, and not those of an input passed through. */
  lemma ClobberFacts(g: Graph, preserveAll: bool, i: int, y: int)
    requires WellFormed(g) && Clobbers(g, AliasMap(g, preserveAll), i, y)
    ensures IsOp(g, i) && WritesAny(g, i, y) && InArena(g, y) && g.tensors[y].bytes > 0
    ensures !PassesThrough(g, i) || y != g.ops[i].outputs[0]
  {
    if Overwrites(g, AliasMap(g, preserveAll), i) && y == g.ops[i].outputs[0] {
      AliasKeys(g, preserveAll, |g.ops|, y);
      assert Writes(g, i, y);
      var k, p := DonorAt(g, preserveAll, i, y);
      hide AliasMap;
    } else {
      hide AliasMap;
      assert Early(g, y) && !Writes(g, i, y);
    }
  }

  /** The tensor whose buffer is changed and the one through which it is have the same address and size. */
  lemma LostAddress(g: Graph, preserveAll: bool, lay: Layout, i: int, y: int, x: int)
    requires Ready(g, preserveAll, lay) && Backed(g, preserveAll)
    requires Clobbers(g, AliasMap(g, preserveAll), i, y) && LostAt(g, AliasMap(g, preserveAll), i, y, x)
    ensures IsOp(g, i) && WritesAny(g, i, y) && InArena(g, y) && InArena(g, x)
    ensures g.tensors[y].bytes == g.tensors[x].bytes > 0
    ensures Address(g, lay, y) == Address(g, lay, x) && Address(g, lay, x).At?
    ensures !PassesThrough(g, i) || y != g.ops[i].outputs[0]
  {
    hide Address, AliasMap, LaidOut, WellFormed, Initialised, UnmodifiedShapes, Clobbers;
    ClobberFacts(g, preserveAll, i, y);
    HasMemory(g, preserveAll, lay, y);
    SameRootSameAddress(g, preserveAll, lay, x, y);
  }

  /** After that node the lost tensor reads as the node's tag. */
  lemma TagAppears(
    g: Graph, preserveAll: bool, lay: Layout, route: map<int, Hop>, mem: Memory<int>, i: int, y: int, x: int)
    requires Ready(g, preserveAll, lay) && Backed(g, preserveAll) && i !in route && Room(g, lay, mem)
    requires Clobbers(g, AliasMap(g, preserveAll), i, y) && LostAt(g, AliasMap(g, preserveAll), i, y, x)
    ensures Late(SharedRead(g, lay, SharedStep(g, TagKernel(g, i, route), lay, mem, i), x), i)
  {
    hide Address, Ready, SharedStep, SharedRead, AliasMap, Clobbers, Backed;
    TagKernelIsKernel(g, i, route);
    LostAddress(g, preserveAll, lay, i, y, x);
    WrittenReads(g, preserveAll, lay, TagKernel(g, i, route), mem, i, y);
    SameBuffer(g, lay, SharedStep(g, TagKernel(g, i, route), lay, mem, i), x, y);
  }

  lemma FitsAt(g: Graph, ker: Kernel<int>, m: int, y: int, ins: Inputs<int>)
    requires Fits(g, ker) && IsTensor(g, y)
    ensures |ker(m, y, ins)| == g.tensors[y].bytes
  {
  }

  lemma LiveGives(g: Graph, focus: Focus, m: int, x: int)
    requires Live(g, focus, m, x)
    ensures IsTensor(g, x) && AvailableBefore(g, m, x)
    ensures forall l :: l >= m ==> !Writes(g, l, x) && !UsesTemporary(g, l, x)
  {
  }

  lemma LiveEarlier(g: Graph, focus: Focus, a: int, b: int, x: int)
    requires Live(g, focus, b, x) && AvailableBefore(g, a, x) && a <= b
    ensures Live(g, focus, a, x)
  {
    hide Counts;
  }

  /** A node off the route that changes data fills what it produces with its tag. */
  lemma FreshTag(g: Graph, at: int, route: map<int, Hop>, m: int, y: int, ins: Inputs<int>)
    requires IsOp(g, m) && m !in route && !g.ops[m].dataUnmodified && IsTensor(g, y) && !Updates(g, m, y)
    ensures TagKernel(g, at, route)(m, y, ins) == Fill(g.tensors[y].bytes, m + 1)
  {
  }

  /** What a node off the route writes into the buffer of a tensor that it does not write itself. */
  lemma SharerWrites(
    g: Graph, preserveAll: bool, lay: Layout, route: map<int, Hop>, mem: Memory<int>, i: int, m: int, x: int, y: int)
    requires Ready(g, preserveAll, lay) && i < m && IsOp(g, m) && m !in route && Room(g, lay, mem)
    requires Planned(g, x) && AvailableBefore(g, m, x) && !WritesAny(g, m, x) && Address(g, lay, x).At?
    requires Planned(g, y) && WritesAny(g, m, y) && Buffer(g, preserveAll, y) == Buffer(g, preserveAll, x)
    requires Late(SharedRead(g, lay, mem, x), i)
    ensures Address(g, lay, y) == Address(g, lay, x) && g.tensors[y].bytes == g.tensors[x].bytes
    ensures Late(TagKernel(g, i, route)(m, y, SharedInputs(g, lay, mem, m)), i)
  {
    hide Address, SharedRead, AliasMap, LaidOut, Initialised, UnmodifiedShapes, Buffer, TagKernel;
    SameBufferSameRoot(g, preserveAll, x, y);
    SameRootIsAlias(g, preserveAll, m, x, y);
    SameRootSameAddress(g, preserveAll, lay, x, y);
    AddressInRange(g, preserveAll, lay, mem, x);
    SameBuffer(g, lay, mem, x, y);
    var ins := SharedInputs(g, lay, mem, m);
    if Updates(g, m, y) {
      VariableKept(g, i, route, m, y, ins, SharedRead(g, lay, mem, y));
    } else {
      AliasWriter(g, preserveAll, m, y);
      if g.ops[m].dataUnmodified {
        TagKernelIsKernel(g, i, route);
        UnmodifiedWrites(g, preserveAll, lay, TagKernel(g, i, route), mem, m, y, x);
      } else {
        FreshTag(g, i, route, m, y, ins);
      }
    }
  }

  /** A node off the route leaves a live tensor late that it does not write itself. */
  lemma StaysLate(
    g: Graph, preserveAll: bool, lay: Layout, route: map<int, Hop>, mem: Memory<int>, i: int, m: int, x: int)
    requires Ready(g, preserveAll, lay) && i < m && IsOp(g, m) && m !in route && Room(g, lay, mem)
    requires Live(g, EveryRead, m, x) && IsTensor(g, x) && !WritesAny(g, m, x) && Late(SharedRead(g, lay, mem, x), i)
    ensures Late(SharedRead(g, lay, SharedStep(g, TagKernel(g, i, route), lay, mem, m), x), i)
  {
    hide Address, Ready, Fits, HonoursUnmodified, TagKernel, Live, Buffer, Late, Fetch;
    var ker, ins, list := TagKernel(g, i, route), SharedInputs(g, lay, mem, m), WriteList(g, m);
    PartOfWrites(g, m, x);
    LiveGives(g, EveryRead, m, x);
    if !Planned(g, x) {
      WriteAllOwn(g, ker, lay, mem, m, ins, list, x);
    } else if Address(g, lay, x).At? {
      AddressInRange(g, preserveAll, lay, mem, x);
      TagKernelIsKernel(g, i, route);
      var at, c := Address(g, lay, x), SharedRead(g, lay, mem, x);
      ghost var writer := -1;
      if y :| y in list && Planned(g, y) && Buffer(g, preserveAll, y) == Buffer(g, preserveAll, x) {
        PartOfWrites(g, m, y);
        SharerWrites(g, preserveAll, lay, route, mem, i, m, x, y);
        writer, c := y, ker(m, y, ins);
        assert Delivers(g, ker, lay, m, ins, y, at, c);
        FitsAt(g, ker, m, y, ins);
      } else {
        assert Holds(mem, at, c);
      }
      assert |c| == g.tensors[x].bytes;
      assert writer != -1 ==>
               && Planned(g, writer) && WritesAny(g, m, writer) && Delivers(g, ker, lay, m, ins, writer, at, c)
               && Buffer(g, preserveAll, writer) == Buffer(g, preserveAll, x);
      forall z | z in list ensures Harmless(g, ker, lay, m, ins, z, at, c) {
        if Address(g, lay, z).At? {
          AddressNeedsPlan(g, lay, z);
          PartOfWrites(g, m, z);
          if z != writer {
            if writer != -1 { ReadyApart(g, preserveAll, lay, m, z, writer); }
            OtherBufferHarmless(g, preserveAll, EveryRead, lay, ker, m, ins, z, x, c);
          }
        }
      }
      WriteAllLeaves(g, ker, lay, mem, m, ins, list, at, c);
    }
  }

  /** `x` reads as a value of its size. */
  ghost predicate SharedSized(g: Graph, lay: Layout, mem: Memory<int>, x: int) {
    IsTensor(g, x) && |mem.own| == |g.tensors| && |SharedRead(g, lay, mem, x)| == g.tensors[x].bytes
  }

  /** A node off the route leaves a variable late that it updates. */
  lemma UpdateStaysLate(
    g: Graph, preserveAll: bool, lay: Layout, route: map<int, Hop>, mem: Memory<int>, i: int, m: int, x: int)
    requires Ready(g, preserveAll, lay) && Backed(g, preserveAll) && i < m && m !in route && Room(g, lay, mem)
    requires Updates(g, m, x) && IsTensor(g, x) && SharedSized(g, lay, mem, x) && Late(SharedRead(g, lay, mem, x), i)
    ensures Late(SharedRead(g, lay, SharedStep(g, TagKernel(g, i, route), lay, mem, m), x), i)
  {
    hide Address, LaidOut, Initialised, UnmodifiedShapes, SharedStep, SharedRead, TagKernel, Backed, AliasMap, Late;
    TagKernelIsKernel(g, i, route);
    WrittenReads(g, preserveAll, lay, TagKernel(g, i, route), mem, m, x);
    VariableKept(g, i, route, m, x, SharedInputs(g, lay, mem, m), SharedRead(g, lay, mem, x));
  }

  lemma OwnSized(g: Graph, lay: Layout, at: int, route: map<int, Hop>, mem: Memory<int>, i: int, x: int)
    requires IsOp(g, i) && IsTensor(g, x) && !Planned(g, x) && SharedSized(g, lay, mem, x)
    ensures SharedSized(g, lay, SharedStep(g, TagKernel(g, at, route), lay, mem, i), x)
  {
    hide Address, TagKernel;
    var ker := TagKernel(g, at, route);
    TagKernelIsKernel(g, at, route);
    WriteAllOwn(g, ker, lay, mem, i, SharedInputs(g, lay, mem, i), WriteList(g, i), x);
    FitsAt(g, ker, i, x, SharedInputs(g, lay, mem, i));
  }

  lemma StartSized(g: Graph, lay: Layout, at: int, route: map<int, Hop>, x: int)
    requires IsTensor(g, x) && !Planned(g, x)
    ensures SharedSized(g, lay, SharedTagged(g, lay, at, route, 0), x)
  {
  }

  /** In a tagged run everything that is not behind a null pointer reads as a value of its size. */
  lemma {:induction false} TaggedSized(
    g: Graph, preserveAll: bool, lay: Layout, at: int, route: map<int, Hop>, i: nat, x: int)
    requires Ready(g, preserveAll, lay) && i <= |g.ops| && IsTensor(g, x)
    requires !Planned(g, x) || Address(g, lay, x).At?
    ensures SharedSized(g, lay, SharedTagged(g, lay, at, route, i), x)
  {
    hide Address, Ready, TagKernel, SharedRun, SharedStep;
    if Planned(g, x) {
      AddressInRange(g, preserveAll, lay, SharedTagged(g, lay, at, route, i), x);
    } else if i > 0 {
      TaggedSized(g, preserveAll, lay, at, route, i - 1, x);
      var ker, mem := TagKernel(g, at, route), SharedTagged(g, lay, at, route, i - 1);
      RunStep(g, lay, at, route, i - 1);
      OwnSized(g, lay, at, route, mem, i - 1, x);
    } else {
      StartSized(g, lay, at, route, x);
    }
  }

  // ---------------------------------------------------------------- along the route

  function RouteOf(hops: seq<Hop>): map<int, Hop> {
    if hops == [] then map[] else RouteOf(hops[1..])[hops[0].node := hops[0]]
  }

  lemma NextIsLater(g: Graph, x: int, hops: seq<Hop>)
    requires WellFormed(g) && Leads(g, x, hops) && hops != [] && hops[1..] != []
    ensures hops[0].node < hops[1..][0].node
  {
    var y := hops[0].output;
    assert Updates(g, hops[0].node, y) ==> y in g.variables;
    assert Reads(g, hops[1..][0].node, y) && Writes(g, hops[0].node, y);
  }

  /** The nodes of a route come one after the other. */
  lemma {:induction false} RouteAscends(g: Graph, x: int, hops: seq<Hop>)
    requires WellFormed(g) && Leads(g, x, hops)
    ensures forall m :: m in RouteOf(hops) ==> hops != [] && m >= hops[0].node
    ensures hops != [] ==> forall m :: m in RouteOf(hops[1..]) ==> m > hops[0].node
    decreases hops
  {
    if hops != [] {
      var y := hops[0].output;
      RouteAscends(g, y, hops[1..]);
      if hops[1..] != [] { NextIsLater(g, x, hops); }
    }
  }

  /** At a node of the route the difference passes from the input to the output. */
  lemma HopPasses(
    g: Graph, preserveAll: bool, lay: Layout, route: map<int, Hop>, mem: Memory<int>, vals: seq<Value<int>>, i: int,
    hop: Hop)
    requires Ready(g, preserveAll, lay) && Backed(g, preserveAll) && Influences(g, hop.node, hop.input, hop.output)
    requires hop.node in route && route[hop.node] == hop && i < hop.node && Room(g, lay, mem) && SizesRight(g, vals)
    requires IsTensor(g, hop.input) && g.tensors[hop.input].bytes > 0
    requires Late(SharedRead(g, lay, mem, hop.input), i) && Low(vals[hop.input], i)
    ensures Late(SharedRead(g, lay, SharedStep(g, TagKernel(g, i, route), lay, mem, hop.node), hop.output), i)
    ensures Low(PrivateStep(g, TagKernel(g, i, route), vals, hop.node)[hop.output], i)
  {
    hide Address, Ready, SharedStep, SharedRead, Backed;
    TagKernelIsKernel(g, i, route);
    var m, x, y := hop.node, hop.input, hop.output;
    WrittenReads(g, preserveAll, lay, TagKernel(g, i, route), mem, m, y);
    IndexOfIs(g.ops[m].inputs, x);
    var k := IndexOf(g.ops[m].inputs, x);
    var a, b := SharedInputs(g, lay, mem, m), PrivateInputs(g, vals, m);
    assert a[k] == Some(SharedRead(g, lay, mem, x)) && b[k] == Some(vals[x]);
    assert PassesThrough(g, m) && y == g.ops[m].outputs[0] ==> a[0] == a[k] && b[0] == b[k];
  }

  /** `x` differs after `a` nodes: shared memory names the future, private memory the past. */
  ghost predicate Differs(g: Graph, lay: Layout, route: map<int, Hop>, i: int, a: nat, x: int)
    requires a <= |g.ops|
  {
    && IsTensor(g, x) && |PrivateTagged(g, i, route, a)| == |g.tensors|
    && Late(SharedRead(g, lay, SharedTagged(g, lay, i, route, a), x), i)
    && Low(PrivateTagged(g, i, route, a)[x], i)
  }

  lemma LateHasAddress(g: Graph, lay: Layout, mem: Memory<int>, i: int, x: int)
    requires IsTensor(g, x) && |mem.own| == |g.tensors| && Late(SharedRead(g, lay, mem, x), i)
    ensures !Planned(g, x) || Address(g, lay, x).At?
  {
  }

  lemma ReadyIsWellFormed(g: Graph, preserveAll: bool, lay: Layout)
    requires Ready(g, preserveAll, lay)
    ensures WellFormed(g)
  {
  }

  /** Over one node off the route, a live tensor goes on to differ. */
  lemma CarryOver(g: Graph, preserveAll: bool, lay: Layout, route: map<int, Hop>, i: int, c: nat, x: int)
    requires Ready(g, preserveAll, lay) && Backed(g, preserveAll) && i < c < |g.ops| && c !in route
    requires Live(g, EveryRead, c, x) && Differs(g, lay, route, i, c, x)
    ensures Differs(g, lay, route, i, c + 1, x)
  {
    hide Address, Ready, SharedTagged, PrivateTagged, SharedStep, PrivateStep, SharedRead, TagKernel, Late, Low, Live,
      Backed;
    ReadyIsWellFormed(g, preserveAll, lay);
    LiveGives(g, EveryRead, c, x);
    RunStep(g, lay, i, route, c);
    PrivateKept(g, i, route, c, x);
    var mem := SharedTagged(g, lay, i, route, c);
    if Updates(g, c, x) {
      LateHasAddress(g, lay, mem, i, x);
      TaggedSized(g, preserveAll, lay, i, route, c, x);
      UpdateStaysLate(g, preserveAll, lay, route, mem, i, c, x);
    } else {
      StaysLate(g, preserveAll, lay, route, mem, i, c, x);
    }
  }

  /** From node `a` to node `b`, off the route, a live tensor goes on to differ. */
  lemma {:induction false} CarryDifference(
    g: Graph, preserveAll: bool, lay: Layout, route: map<int, Hop>, i: int, a: nat, b: nat, x: int)
    requires Ready(g, preserveAll, lay) && Backed(g, preserveAll)
    requires i < a <= b <= |g.ops| && forall m :: a <= m < b ==> m !in route
    requires Live(g, EveryRead, b, x) && AvailableBefore(g, a, x) && Differs(g, lay, route, i, a, x)
    ensures Differs(g, lay, route, i, b, x)
    decreases b
  {
    hide Address, Ready, Differs, Live, Backed;
    if a < b {
      LiveEarlier(g, EveryRead, b - 1, b, x) by { assert AvailableBefore(g, b - 1, x); }
      CarryDifference(g, preserveAll, lay, route, i, a, b - 1, x);
      CarryOver(g, preserveAll, lay, route, i, b - 1, x);
    }
  }

  /** Over a node of the route, the difference moves on to the output. */
  lemma HopDifference(g: Graph, preserveAll: bool, lay: Layout, route: map<int, Hop>, i: int, hop: Hop)
    requires Ready(g, preserveAll, lay) && Backed(g, preserveAll) && Influences(g, hop.node, hop.input, hop.output)
    requires hop.node in route && route[hop.node] == hop && i < hop.node
    requires IsTensor(g, hop.input) && g.tensors[hop.input].bytes > 0
    requires Differs(g, lay, route, i, hop.node, hop.input)
    ensures Differs(g, lay, route, i, hop.node + 1, hop.output)
  {
    hide Address, Ready, SharedTagged, PrivateTagged, SharedRead, Late, Low, SharedStep, PrivateStep, Backed;
    var b := hop.node;
    TaggedSizes(g, i, route, b);
    TaggedSizes(g, i, route, b + 1);
    RunStep(g, lay, i, route, b);
    PrivateRunStep(g, i, route, b);
    HopPasses(g, preserveAll, lay, route, SharedTagged(g, lay, i, route, b), PrivateTagged(g, i, route, b), i, hop);
  }

  /** From node `a` on, the route is that of the hops. */
  ghost predicate RouteFrom(route: map<int, Hop>, hops: seq<Hop>, a: int) {
    forall m :: m >= a ==> (m in route <==> m in RouteOf(hops)) && (m in route ==> route[m] == RouteOf(hops)[m])
  }

  lemma RouteGoesOn(g: Graph, route: map<int, Hop>, x: int, hops: seq<Hop>, a: int)
    requires WellFormed(g) && Leads(g, x, hops) && hops != [] && RouteFrom(route, hops, a) && a <= hops[0].node
    ensures forall m :: a <= m < hops[0].node ==> m !in route
    ensures hops[0].node in route && route[hops[0].node] == hops[0]
    ensures RouteFrom(route, hops[1..], hops[0].node + 1)
  {
    RouteAscends(g, x, hops);
  }

  /** At the end of the route stands a graph output or variable, with nothing of the route left. */
  lemma RouteEnds(g: Graph, route: map<int, Hop>, x: int, a: int)
    requires WellFormed(g) && Leads(g, x, []) && RouteFrom(route, [], a) && a <= |g.ops|
    requires IsTensor(g, x) && AvailableBefore(g, a, x) && forall j :: !UsesTemporary(g, j, x)
    ensures Observable(g, x) && Live(g, EveryRead, |g.ops|, x) && forall m :: m >= a ==> m !in route
  {
  }

  /** The first hop reads `x`. */
  lemma FirstHop(g: Graph, x: int, hops: seq<Hop>)
    requires WellFormed(g) && Leads(g, x, hops) && hops != []
    ensures var hop := hops[0];
            && hop.input == x && Influences(g, hop.node, x, hop.output) && IsOp(g, hop.node)
            && Live(g, EveryRead, hop.node, x)
  {
    InputLive(g, EveryRead, hops[0].node, x);
  }

  lemma DiffersIsDifferent(g: Graph, lay: Layout, route: map<int, Hop>, i: int, a: nat, x: int)
    requires a <= |g.ops| && Differs(g, lay, route, i, a, x)
    ensures IsTensor(g, x) && |PrivateTagged(g, i, route, a)| == |g.tensors|
    ensures SharedRead(g, lay, SharedTagged(g, lay, i, route, a), x) != PrivateTagged(g, i, route, a)[x]
  {
    hide SharedTagged, PrivateTagged, SharedRead;
    var seen, meant := SharedRead(g, lay, SharedTagged(g, lay, i, route, a), x), PrivateTagged(g, i, route, a)[x];
    assert seen[0] >= i + 1;
    assert |meant| > 0 ==> meant[0] <= i;
  }

  lemma EndsDifferent(g: Graph, lay: Layout, route: map<int, Hop>, i: int, x: int)
    requires Differs(g, lay, route, i, |g.ops|, x) && Observable(g, x)
    ensures |Zeros(g)| == |g.tensors| && !SameOutputs(g, lay, TagKernel(g, i, route), Blank(g, lay), Zeros(g))
  {
    hide TagKernel, SharedRun, PrivateRun, SharedRead;
    DiffersIsDifferent(g, lay, route, i, |g.ops|, x);
  }

  /** After the first hop the rest of the route goes on from its output. */
  lemma NextHop(g: Graph, x: int, hops: seq<Hop>)
    requires WellFormed(g) && Leads(g, x, hops) && hops != []
    ensures var y := hops[0].output;
            && IsTensor(g, y) && g.tensors[y].bytes > 0 && Leads(g, y, hops[1..])
            && AvailableBefore(g, hops[0].node + 1, y) && (forall j :: !UsesTemporary(g, j, y))
            && (hops[1..] != [] ==> hops[0].node + 1 <= hops[1..][0].node)
            && IsOp(g, hops[0].node)
  {
    var b, y := hops[0].node, hops[0].output;
    assert Writes(g, b, y) || (Updates(g, b, y) && Early(g, y));
    assert forall j :: UsesTemporary(g, j, y) ==> !Writes(g, b, y);
    if hops[1..] != [] { NextIsLater(g, x, hops); }
  }

  /** A difference at `x` is carried along the hops to a graph output or variable. */
  lemma {:induction false} Follow(
    g: Graph, preserveAll: bool, lay: Layout, route: map<int, Hop>, i: int, a: nat, x: int, hops: seq<Hop>)
    requires Ready(g, preserveAll, lay) && Backed(g, preserveAll) && Leads(g, x, hops) && i < a <= |g.ops|
    requires IsTensor(g, x) && g.tensors[x].bytes > 0 && AvailableBefore(g, a, x) && forall j :: !UsesTemporary(g, j, x)
    requires hops != [] ==> a <= hops[0].node
    requires RouteFrom(route, hops, a) && Differs(g, lay, route, i, a, x)
    ensures |Zeros(g)| == |g.tensors| && !SameOutputs(g, lay, TagKernel(g, i, route), Blank(g, lay), Zeros(g))
    decreases hops
  {
    hide TagKernel, Differs, Ready, RouteFrom, RouteOf, Leads, Influences, AvailableBefore, SameOutputs, Backed;
    ReadyIsWellFormed(g, preserveAll, lay);
    if hops == [] {
      RouteEnds(g, route, x, a);
      CarryDifference(g, preserveAll, lay, route, i, a, |g.ops|, x);
      EndsDifferent(g, lay, route, i, x);
    } else {
      var hop := hops[0];
      var b := hop.node;
      RouteGoesOn(g, route, x, hops, a);
      FirstHop(g, x, hops);
      CarryDifference(g, preserveAll, lay, route, i, a, b, x);
      HopDifference(g, preserveAll, lay, route, i, hop);
      NextHop(g, x, hops);
      Follow(g, preserveAll, lay, route, i, b + 1, hop.output, hops[1..]);
    }
  }

  // ---------------------------------------------------------------- exactly when sharing is safe

  /** `x` is looked at by `j` although node `i < j` has changed its buffer through `y`. */
  ghost predicate Hazard(g: Graph, focus: Focus, alias: map<int, int>, i: int, y: int, x: int, j: int) {
    Clobbers(g, alias, i, y) && LostAt(g, alias, i, y, x) && Counts(g, focus, j, x) && i < j
  }

  /** In private memory, a tensor that is there before node `i` and not written by it names the past. */
  lemma StaysLow(g: Graph, route: map<int, Hop>, i: int, x: int)
    requires WellFormed(g) && IsOp(g, i) && IsTensor(g, x) && !WritesAny(g, i, x) && forall m :: m in route ==> m > i
    ensures |PrivateTagged(g, i, route, i + 1)| == |g.tensors|
    ensures Low(PrivateTagged(g, i, route, i + 1)[x], i)
  {
    hide PrivateTagged, Low;
    PrivateTags(g, i, route, i, x);
    PrivateKept(g, i, route, i, x);
  }

  lemma LostUntouched(g: Graph, preserveAll: bool, i: int, y: int, x: int)
    requires WellFormed(g) && Clobbers(g, AliasMap(g, preserveAll), i, y)
    requires LostAt(g, AliasMap(g, preserveAll), i, y, x) && !UsesTemporary(g, i, x)
    ensures IsOp(g, i) && IsTensor(g, x) && !WritesAny(g, i, x) && !Observable(g, x)
  {
    LostNotObservable(g, preserveAll, i, y, x);
  }

  /** Right after the node that changes its buffer the lost tensor differs. */
  lemma DifferenceArises(
    g: Graph, preserveAll: bool, lay: Layout, route: map<int, Hop>, i: int, y: int, x: int)
    requires Ready(g, preserveAll, lay) && Backed(g, preserveAll) && Clobbers(g, AliasMap(g, preserveAll), i, y)
    requires LostAt(g, AliasMap(g, preserveAll), i, y, x)
    requires !UsesTemporary(g, i, x) && forall m :: m in route ==> m > i
    ensures 0 <= i < |g.ops| && Differs(g, lay, route, i, i + 1, x)
  {
    hide Address, Ready, SharedRead, SharedStep, TagKernel, PrivateTagged, SharedTagged, PrivateStep, Clobbers, LostAt,
      Late, Low, WritesAny, AliasMap, Backed;
    ReadyIsWellFormed(g, preserveAll, lay);
    LostUntouched(g, preserveAll, i, y, x);
    StaysLow(g, route, i, x);
    RunStep(g, lay, i, route, i);
    TagAppears(g, preserveAll, lay, route, SharedTagged(g, lay, i, route, i), i, y, x);
  }

  lemma HazardFacts(g: Graph, focus: Focus, alias: map<int, int>, i: int, y: int, x: int, j: int)
    requires WellFormed(g) && Hazard(g, focus, alias, i, y, x, j)
    ensures Clobbers(g, alias, i, y) && LostAt(g, alias, i, y, x) && 0 <= i < j < |g.ops| && Reads(g, j, x)
    ensures Live(g, EveryRead, j, x) && AvailableBefore(g, i + 1, x) && (forall l :: !UsesTemporary(g, l, x))
  {
    assert Counts(g, EveryRead, j, x);
    assert forall l :: UsesTemporary(g, l, x) ==> !Reads(g, j, x);
  }

  /** If a tensor is read after its buffer has been changed, the tagging kernel shows it at that read. */
  lemma HazardShows(g: Graph, preserveAll: bool, lay: Layout, i: int, y: int, x: int, j: int)
    requires Ready(g, preserveAll, lay) && Backed(g, preserveAll)
    requires Hazard(g, EveryRead, AliasMap(g, preserveAll), i, y, x, j)
    ensures |Zeros(g)| == |g.tensors|
    ensures !SameReads(g, EveryRead, lay, TagKernel(g, i, map[]), Blank(g, lay), Zeros(g))
  {
    hide Address, Ready, SharedRun, PrivateRun, SharedRead, TagKernel, AliasMap, Hazard, Clobbers, LostAt, Backed, Live,
      AvailableBefore, Differs;
    ReadyIsWellFormed(g, preserveAll, lay);
    HazardFacts(g, EveryRead, AliasMap(g, preserveAll), i, y, x, j);
    DifferenceArises(g, preserveAll, lay, map[], i, y, x);
    CarryDifference(g, preserveAll, lay, map[], i, i + 1, j, x);
    DiffersIsDifferent(g, lay, map[], i, j, x);
    assert Counts(g, EveryRead, j, x);
  }

  lemma LateRoute(g: Graph, alias: map<int, int>, i: int, y: int, x: int, j: int) returns (hops: seq<Hop>)
    requires Hazard(g, OutputsOnly, alias, i, y, x, j) && !Observable(g, x)
    ensures hops != [] && hops[0].node == j && i < j && Leads(g, x, hops)
  {
    var z, rest: seq<Hop> :| Influences(g, j, x, z) && Leads(g, z, rest);
    hops := [Hop(j, x, z)] + rest;
    assert hops[1..] == rest;
  }

  lemma RouteBegins(g: Graph, x: int, hops: seq<Hop>, a: int)
    requires WellFormed(g) && Leads(g, x, hops) && hops != [] && a <= hops[0].node
    ensures RouteFrom(RouteOf(hops), hops, a) && forall m :: m in RouteOf(hops) ==> m >= a
  {
    RouteAscends(g, x, hops);
  }

  /** If that read reaches a graph output or variable, a tagging kernel that passes the value on shows it there. */
  lemma HazardReaches(g: Graph, preserveAll: bool, lay: Layout, i: int, y: int, x: int, j: int)
    returns (route: map<int, Hop>)
    requires Ready(g, preserveAll, lay) && Backed(g, preserveAll)
    requires Hazard(g, OutputsOnly, AliasMap(g, preserveAll), i, y, x, j)
    ensures |Zeros(g)| == |g.tensors| && !SameOutputs(g, lay, TagKernel(g, i, route), Blank(g, lay), Zeros(g))
  {
    hide Differs, Ready, Leads, SameOutputs, Clobbers, LostAt, Hazard, RouteOf, RouteFrom, AvailableBefore, WellFormed,
      AliasMap, Backed;
    ReadyIsWellFormed(g, preserveAll, lay);
    HazardFacts(g, OutputsOnly, AliasMap(g, preserveAll), i, y, x, j);
    LostUntouched(g, preserveAll, i, y, x);
    var hops := LateRoute(g, AliasMap(g, preserveAll), i, y, x, j);
    route := RouteOf(hops);
    RouteBegins(g, x, hops, i + 1);
    DifferenceArises(g, preserveAll, lay, route, i, y, x);
    LostAddress(g, preserveAll, lay, i, y, x);
    Follow(g, preserveAll, lay, route, i, i + 1, x, hops);
  }

  /** A run to which the refinement theorem should apply. */
  ghost predicate Setup(g: Graph, lay: Layout, ker: Kernel<int>, mem: Memory<int>, init: seq<Value<int>>) {
    && Fits(g, ker) && HonoursUnmodified(g, ker)
    && SizesRight(g, init) && Loaded(g, lay, mem, init)
  }

  lemma TagSetup(g: Graph, preserveAll: bool, lay: Layout, at: int, route: map<int, Hop>)
    requires Ready(g, preserveAll, lay)
    ensures Setup(g, lay, TagKernel(g, at, route), Blank(g, lay), Zeros(g))
  {
    hide Ready, Address;
    TagKernelIsKernel(g, at, route);
    var mem, init := Blank(g, lay), Zeros(g);
    forall t | Early(g, t) && IsTensor(g, t) ensures SharedRead(g, lay, mem, t) == init[t] {
      if Planned(g, t) {
        if g.tensors[t].bytes == 0 {
          EmptyReads(g, preserveAll, lay, mem, t);
        } else {
          EarlyHasMemory(g, preserveAll, lay, t);
          AddressInRange(g, preserveAll, lay, mem, t);
          var a := Address(g, lay, t);
          assert Fetch(Region(mem, a.space), a.offset, g.tensors[t].bytes) == Fill(g.tensors[t].bytes, 0);
        }
      }
    }
  }

  lemma EarlyHasMemory(g: Graph, preserveAll: bool, lay: Layout, t: int)
    requires Ready(g, preserveAll, lay) && Early(g, t) && Planned(g, t) && g.tensors[t].bytes > 0
    ensures Address(g, lay, t).At?
  {
    EarlyInUse(g, preserveAll, t);
    HasMemory(g, preserveAll, lay, t);
  }

  lemma UnsafeHasHazard(g: Graph, focus: Focus, alias: map<int, int>) returns (i: int, y: int, x: int, j: int)
    requires !SafeOverwrites(g, focus, alias)
    ensures Hazard(g, focus, alias, i, y, x, j)
  {
    hide Clobbers, LostAt, Counts;
    i, y, x, j :| Clobbers(g, alias, i, y) && LostAt(g, alias, i, y, x) && Counts(g, focus, j, x) && !(j <= i);
  }

  /**
   No node goes through a null pointer and every node reads, for every kernel and every initial memory,
   what it would read in private memory, if and only if every tensor is backed and no tensor is read
   after a node has changed its buffer through another one.
   */
  lemma RefinementIffSafe(g: Graph, preserveAll: bool, lay: Layout)
    requires Ready(g, preserveAll, lay)
    ensures Backed(g, preserveAll) && SafeOverwrites(g, EveryRead, AliasMap(g, preserveAll)) <==>
            NoNullAccess(g, lay) &&
            forall ker: Kernel<int>, mem: Memory<int>, init: seq<Value<int>> ::
              Setup(g, lay, ker, mem, init) ==> SameReads(g, EveryRead, lay, ker, mem, init)
  {
    hide Ready, SafeOverwrites, SameReads, SameOutputs, Hazard, Backed, NoNullAccess, AliasMap;
    MemoryIffBacked(g, preserveAll, lay);
    if Backed(g, preserveAll) {
      if SafeOverwrites(g, EveryRead, AliasMap(g, preserveAll)) {
        forall ker: Kernel<int>, mem: Memory<int>, init: seq<Value<int>> | Setup(g, lay, ker, mem, init)
          ensures SameReads(g, EveryRead, lay, ker, mem, init)
        {
          PlannedRefinesPrivate(g, preserveAll, EveryRead, lay, ker, mem, init);
        }
      } else {
        var i, y, x, j := UnsafeHasHazard(g, EveryRead, AliasMap(g, preserveAll));
        TagSetup(g, preserveAll, lay, i, map[]);
        HazardShows(g, preserveAll, lay, i, y, x, j);
      }
    }
  }

  /**
   No node goes through a null pointer and every graph output and variable ends up, for every kernel and
   every initial memory, with the value it has in private memory, if and only if every tensor is backed
   and no buffer is changed through another tensor before a read that reaches a graph output or variable.
   */
  lemma OutputsIffSafe(g: Graph, preserveAll: bool, lay: Layout)
    requires Ready(g, preserveAll, lay)
    ensures Backed(g, preserveAll) && SafeOverwrites(g, OutputsOnly, AliasMap(g, preserveAll)) <==>
            NoNullAccess(g, lay) &&
            forall ker: Kernel<int>, mem: Memory<int>, init: seq<Value<int>> ::
              Setup(g, lay, ker, mem, init) ==> SameOutputs(g, lay, ker, mem, init)
  {
    hide Ready, SafeOverwrites, SameReads, SameOutputs, Hazard, Backed, NoNullAccess, AliasMap;
    MemoryIffBacked(g, preserveAll, lay);
    if Backed(g, preserveAll) {
      if SafeOverwrites(g, OutputsOnly, AliasMap(g, preserveAll)) {
        forall ker: Kernel<int>, mem: Memory<int>, init: seq<Value<int>> | Setup(g, lay, ker, mem, init)
          ensures SameOutputs(g, lay, ker, mem, init)
        {
          PlannedRefinesPrivate(g, preserveAll, OutputsOnly, lay, ker, mem, init);
        }
      } else {
        var i, y, x, j := UnsafeHasHazard(g, OutputsOnly, AliasMap(g, preserveAll));
        var route := HazardReaches(g, preserveAll, lay, i, y, x, j);
        TagSetup(g, preserveAll, lay, i, route);
      }
    }
  }

  // ---------------------------------------------------------------- a sufficient condition

  predicate ReadOnce(g: Graph, x: int) {
    forall a, b :: 0 <= a < |g.ops| && 0 <= b < |g.ops| && Reads(g, a, x) && Reads(g, b, x) ==> a == b
  }

  ghost predicate DonorOf(g: Graph, preserveAll: bool, p: int, t: int) {
    exists j, k :: Donates(g, preserveAll, j, k, p, t)
  }

  /** A root, an alias of it, an alias made from that, and so on. */
  ghost predicate AliasPath(g: Graph, preserveAll: bool, path: seq<int>) {
    && path != [] && path[0] !in AliasMap(g, preserveAll)
    && (forall n :: 0 <= n < |path| - 1 ==> DonorOf(g, preserveAll, path[n], path[n + 1]))
  }

  /** The path ends with the output of node `i`; before that comes the input whose buffer it takes. */
  ghost predicate PathInto(g: Graph, preserveAll: bool, i: int, path: seq<int>) {
    && Overwrites(g, AliasMap(g, preserveAll), i)
    && AliasPath(g, preserveAll, path) && path[|path| - 1] == g.ops[i].outputs[0]
  }

  /** Every tensor strictly between the root and the input of an overwriting node has at most one reader. */
  ghost predicate SingleReadersBetween(g: Graph, preserveAll: bool) {
    forall i, path, n :: PathInto(g, preserveAll, i, path) && 0 < n < |path| - 2 ==> ReadOnce(g, path[n])
  }

  lemma {:induction false} UsesTwice(g: Graph, t: int, a: int, b: int, i: nat)
    requires 0 <= a < b < i <= |g.ops| && Reads(g, a, t) && Reads(g, b, t)
    ensures Uses(g, t, i) >= 2
  {
    if b < i - 1 {
      UsesTwice(g, t, a, b, i - 1);
    } else {
      UsesPositive(g, t, a, b);
      assert t in multiset(g.ops[b].inputs);
    }
  }

  lemma ReferencedOnce(g: Graph, x: int)
    requires Refs(g, x) <= 1
    ensures ReadOnce(g, x)
  {
    forall a, b | 0 <= a < |g.ops| && 0 <= b < |g.ops| && Reads(g, a, x) && Reads(g, b, x) ensures a == b {
      if a < b { UsesTwice(g, x, a, b, |g.ops|); }
      if b < a { UsesTwice(g, x, b, a, |g.ops|); }
    }
  }

  /** What the planner checks itself: root and input of an overwriting node have one reader each. */
  lemma EndsReadOnce(g: Graph, preserveAll: bool, i: int) returns (k: int, p: int)
    requires WellFormed(g) && Overwrites(g, AliasMap(g, preserveAll), i)
    ensures Donates(g, preserveAll, i, k, p, g.ops[i].outputs[0])
    ensures ReadOnce(g, AliasMap(g, preserveAll)[g.ops[i].outputs[0]]) && ReadOnce(g, p)
  {
    var y := g.ops[i].outputs[0];
    AliasKeys(g, preserveAll, |g.ops|, y);
    assert Writes(g, i, y);
    k, p := DonorAt(g, preserveAll, i, y);
    hide ReadOnce, AliasMap;
    ReferencedOnce(g, p);
    ReferencedOnce(g, AliasMap(g, preserveAll)[y]);
  }

  /** Every tensor of a path has the root that the path begins with. */
  lemma {:induction false} PathRoot(g: Graph, preserveAll: bool, path: seq<int>, n: nat)
    requires AliasPath(g, preserveAll, path) && n < |path|
    ensures Root(AliasMap(g, preserveAll), path[n]) == path[0]
  {
    hide AliasMap;
    if n > 0 {
      PathRoot(g, preserveAll, path, n - 1);
      assert DonorOf(g, preserveAll, path[n - 1], path[n - 1 + 1]);
    }
  }

  lemma {:induction false} PathExists(g: Graph, preserveAll: bool, i: nat, t: int) returns (path: seq<int>)
    requires WellFormed(g) && i <= |g.ops| && (t in AliasMap(g, preserveAll) ==> t in AliasAfter(g, preserveAll, i))
    ensures AliasPath(g, preserveAll, path) && path[|path| - 1] == t
    decreases i
  {
    if t in AliasMap(g, preserveAll) {
      var j, k, p := Donor(g, preserveAll, i, t);
      var before := PathExists(g, preserveAll, j, p);
      hide AliasMap;
      path := before + [t];
      forall n | 0 <= n < |path| - 1 ensures DonorOf(g, preserveAll, path[n], path[n + 1]) {
        assert n < |before| - 1 ==> DonorOf(g, preserveAll, before[n], before[n + 1]);
        assert n == |before| - 1 ==> DonorOf(g, preserveAll, p, t);
      }
    } else {
      path := [t];
    }
  }

  /** All tensors of the path but the last are read by the node that makes the next one, at the latest by `i`. */
  lemma {:induction false} PathBefore(g: Graph, preserveAll: bool, i: int, path: seq<int>, n: nat) returns (j: int)
    requires WellFormed(g) && PathInto(g, preserveAll, i, path) && n < |path| - 1
    ensures j <= i && Reads(g, j, path[n]) && Writes(g, j, path[n + 1]) && g.ops[j].outputs[0] == path[n + 1]
    ensures n == |path| - 2 ==> j == i
    decreases |path| - n
  {
    assert DonorOf(g, preserveAll, path[n], path[n + 1]);
    var k;
    j, k :| Donates(g, preserveAll, j, k, path[n], path[n + 1]);
    hide AliasMap;
    if n == |path| - 2 {
      assert Writes(g, i, path[n + 1]) by { WritesFirst(g, preserveAll, i); }
    } else {
      var l := PathBefore(g, preserveAll, i, path, n + 1);
    }
  }

  lemma WritesFirst(g: Graph, preserveAll: bool, i: int)
    requires WellFormed(g) && Overwrites(g, AliasMap(g, preserveAll), i)
    ensures Writes(g, i, g.ops[i].outputs[0])
  {
    AliasKeys(g, preserveAll, |g.ops|, g.ops[i].outputs[0]);
  }

  /** Everything on the path but its last tensor has one reader. */
  lemma PathReadOnce(g: Graph, preserveAll: bool, i: int, path: seq<int>, n: nat)
    requires WellFormed(g) && SingleReadersBetween(g, preserveAll) && PathInto(g, preserveAll, i, path)
    requires n < |path| - 1
    ensures ReadOnce(g, path[n])
  {
    var k, p := EndsReadOnce(g, preserveAll, i);
    PathRoot(g, preserveAll, path, |path| - 1);
    hide AliasMap, ReadOnce;
    if n == |path| - 2 {
      LastDonor(g, preserveAll, i, path, k, p);
    }
  }

  /** The last step of the path is the donation at node `i`. */
  lemma LastDonor(g: Graph, preserveAll: bool, i: int, path: seq<int>, k: int, p: int)
    requires WellFormed(g) && PathInto(g, preserveAll, i, path) && |path| >= 2
    requires Donates(g, preserveAll, i, k, p, g.ops[i].outputs[0])
    ensures Refs(g, path[|path| - 2]) <= 1 && ReadOnce(g, path[|path| - 2])
  {
    var q, t := path[|path| - 2], path[|path| - 1];
    assert DonorOf(g, preserveAll, path[|path| - 2], path[|path| - 2 + 1]);
    var j, l :| Donates(g, preserveAll, j, l, q, t);
    hide AliasMap, ReadOnce;
    assert Writes(g, i, t) && Writes(g, j, t) && j == i;
    ReferencedOnce(g, q);
  }

  /** Every tensor that node `i` takes from its buffer is on the path. */
  lemma {:induction false} LostOnPath(g: Graph, preserveAll: bool, i: int, path: seq<int>, m: nat, x: int)
    returns (n: nat)
    requires WellFormed(g) && SingleReadersBetween(g, preserveAll) && PathInto(g, preserveAll, i, path)
    requires m <= |g.ops| && (x in AliasMap(g, preserveAll) ==> x in AliasAfter(g, preserveAll, m))
    requires Root(AliasMap(g, preserveAll), x) == path[0] && AvailableBefore(g, i, x)
    ensures n < |path| - 1 && path[n] == x
    decreases m
  {
    WritesFirst(g, preserveAll, i);
    if x in AliasMap(g, preserveAll) {
      var j, k, q := Donor(g, preserveAll, m, x);
      assert Writes(g, j, x) && j < i;
      assert AvailableBefore(g, i, q);
      var l := LostOnPath(g, preserveAll, i, path, j, q);
      PathReadOnce(g, preserveAll, i, path, l);
      var j' := PathBefore(g, preserveAll, i, path, l);
      hide AliasMap;
      assert j == j' && x == path[l + 1];
      n := l + 1;
    } else {
      n := 0;
      assert |path| >= 2 by { PathIntoLong(g, preserveAll, i, path); }
    }
  }

  lemma PathIntoLong(g: Graph, preserveAll: bool, i: int, path: seq<int>)
    requires PathInto(g, preserveAll, i, path)
    ensures |path| >= 2
  {
  }

  /** No tensor shares the buffer of a variable that some node updates. */
  ghost predicate UpdatesUnshared(g: Graph, preserveAll: bool) {
    forall i, t :: t in AliasMap(g, preserveAll) && InArena(g, t) ==> !Updates(g, i, AliasMap(g, preserveAll)[t])
  }

  /** That is so whenever the variables that are updated lie outside the read-write arena. */
  lemma PersistentUpdatesUnshared(g: Graph, preserveAll: bool)
    requires WellFormed(g) && UnmodifiedShapes(g) && forall i, y :: Updates(g, i, y) ==> !InArena(g, y)
    ensures UpdatesUnshared(g, preserveAll)
  {
    hide AliasMap, WellFormed, UnmodifiedShapes;
    forall i, t | t in AliasMap(g, preserveAll) && InArena(g, t) ensures !Updates(g, i, AliasMap(g, preserveAll)[t]) {
      BufferIs(g, preserveAll, t);
    }
  }

  /** Nobody else's buffer is changed by an update. */
  lemma UpdateLosesNothing(g: Graph, preserveAll: bool, i: int, y: int, x: int)
    requires WellFormed(g) && UpdatesUnshared(g, preserveAll) && Updates(g, i, y)
    ensures !LostAt(g, AliasMap(g, preserveAll), i, y, x)
  {
    EarlyInUse(g, preserveAll, y);
  }

  /** Single readers between root and input, and updates of unshared variables, make in-place planning safe. */
  lemma SingleReadersAreSafe(g: Graph, preserveAll: bool)
    requires WellFormed(g) && SingleReadersBetween(g, preserveAll) && UpdatesUnshared(g, preserveAll)
    ensures SafeOverwrites(g, EveryRead, AliasMap(g, preserveAll))
  {
    hide SingleReadersBetween, UpdatesUnshared;
    forall i, y, x, j |
      && Clobbers(g, AliasMap(g, preserveAll), i, y) && LostAt(g, AliasMap(g, preserveAll), i, y, x)
      && Counts(g, EveryRead, j, x)
      ensures j <= i
    {
      if Updates(g, i, y) { UpdateLosesNothing(g, preserveAll, i, y, x); }
      var path := PathExists(g, preserveAll, |g.ops|, g.ops[i].outputs[0]);
      PathRoot(g, preserveAll, path, |path| - 1);
      var n := LostOnPath(g, preserveAll, i, path, |g.ops|, x);
      PathReadOnce(g, preserveAll, i, path, n);
      var l := PathBefore(g, preserveAll, i, path, n);
    }
  }

  /**
   Planned memory refines private memory whenever every tensor is backed, every tensor strictly between
   the root and the input of an overwriting node has at most one reader, and nothing shares the buffer of
   an updated variable: all reads, graph outputs and variables agree, for all kernels.
   */
  lemma SingleReadersRefine<C(!new)>(
    g: Graph, preserveAll: bool, lay: Layout, ker: Kernel<C>, mem: Memory<C>, init: seq<Value<C>>)
    requires Ready(g, preserveAll, lay) && Backed(g, preserveAll)
    requires SingleReadersBetween(g, preserveAll) && UpdatesUnshared(g, preserveAll)
    requires Fits(g, ker) && HonoursUnmodified(g, ker) && SizesRight(g, init) && Loaded(g, lay, mem, init)
    ensures SameReads(g, EveryRead, lay, ker, mem, init) && SameOutputs(g, lay, ker, mem, init)
  {
    hide SingleReadersBetween, UpdatesUnshared, SafeOverwrites, SameReads, SameOutputs, AliasMap, Backed;
    SingleReadersAreSafe(g, preserveAll);
    PlannedRefinesPrivate(g, preserveAll, EveryRead, lay, ker, mem, init);
  }

  // ---------------------------------------------------------------- the condition can fail

  /**
   Node 1 and node 2 reshape tensor 1 into tensors 2 and 3, node 3 overwrites tensor 3 in place, and
   node 4 reads tensor 2.  The planner looks at the reference counts of tensor 3 and of the root
   (both one) but not at those of tensor 2 in between (two).
   */
  const SAMPLE := Graph(
    [Tensor(8, ArenaRw), Tensor(8, ArenaRw), Tensor(8, ArenaRw),
     Tensor(8, ArenaRw), Tensor(8, ArenaRw), Tensor(8, ArenaRw)],
    [Op([0], [1], [], [], false, {}),
     Op([1], [2], [], [], true, {0}),
     Op([2], [3], [], [], true, {0}),
     Op([3], [4], [], [], false, {0}),
     Op([2, 4], [5], [], [], false, {})],
    [0], [5], [])

  lemma SampleAccess(i: int, t: int)
    ensures Reads(SAMPLE, i, t) <==> 0 <= i < 5 && (t == i || (i == 4 && t == 2))
    ensures Writes(SAMPLE, i, t) <==> 0 <= i < 5 && t == i + 1
    ensures !UsesTemporary(SAMPLE, i, t) && !Updates(SAMPLE, i, t)
    ensures Early(SAMPLE, t) <==> t == 0
  {
  }

  /** `SampleAccess`, for all nodes and tensors. */
  ghost predicate SampleShape(g: Graph) {
    && |g.tensors| == 6 && |g.ops| == 5
    && (forall i, t :: Reads(g, i, t) <==> 0 <= i < 5 && (t == i || (i == 4 && t == 2)))
    && (forall i, t :: Writes(g, i, t) <==> 0 <= i < 5 && t == i + 1)
    && (forall i, t :: !UsesTemporary(g, i, t) && !Updates(g, i, t))
    && (forall t :: Early(g, t) <==> t == 0)
  }

  lemma SampleHasShape()
    ensures SampleShape(SAMPLE)
  {
    forall i, t
      ensures Reads(SAMPLE, i, t) <==> 0 <= i < 5 && (t == i || (i == 4 && t == 2))
      ensures Writes(SAMPLE, i, t) <==> 0 <= i < 5 && t == i + 1
      ensures !UsesTemporary(SAMPLE, i, t) && !Updates(SAMPLE, i, t)
      ensures Early(SAMPLE, t) <==> t == 0
    {
      SampleAccess(i, t);
    }
  }

  lemma ShapeInOrder(g: Graph)
    requires SampleShape(g) && g.inputs == [0] && g.outputs == [5] && g.variables == []
    ensures InRange(g) && UniqueProducers(g) && InPlanOrder(g) && PrivateTemporaries(g) && UpdatedVariables(g)
  {
    hide Reads, Writes, UsesTemporary;
  }

  lemma ShapeInitialised(g: Graph)
    requires SampleShape(g) && g.outputs == [5] && g.variables == []
    ensures Initialised(g)
  {
    hide Reads, Writes, UsesTemporary, Early;
    forall i, t | Reads(g, i, t) && Planned(g, t) ensures Early(g, t) || Produced(g, t) {
      if t != 0 { assert Writes(g, t - 1, t); }
    }
    assert Writes(g, 4, 5);
  }

  lemma SampleWellFormed()
    ensures WellFormed(SAMPLE) && Initialised(SAMPLE) && UnmodifiedShapes(SAMPLE)
  {
    SampleHasShape();
    hide SampleShape;
    ShapeInOrder(SAMPLE);
    ShapeInitialised(SAMPLE);
    hide InRange, UniqueProducers, InPlanOrder, PrivateTemporaries, UpdatedVariables, Initialised;
  }

  lemma SampleUses(t: int)
    requires t == 1 || t == 3
    ensures Refs(SAMPLE, t) == 1
  {
    var g := SAMPLE;
    assert Uses(g, t, 0) == 0;
    assert Uses(g, t, 1) == 0;
    assert Uses(g, t, 2) == if t == 1 then 1 else 0;
    assert Uses(g, t, 3) == if t == 1 then 1 else 0;
    assert Uses(g, t, 4) == 1;
    assert Uses(g, t, 5) == 1;
  }

  lemma SampleAliases()
    ensures var alias := AliasMap(SAMPLE, false); 2 in alias && 4 in alias && alias[2] == 1 && alias[4] == 1
  {
    var g := SAMPLE;
    SampleUses(1);
    SampleUses(3);
    hide Refs;
    assert AliasAfter(g, false, 0) == map[];
    assert FirstShareable(g, false, 0, 0) == -1;
    assert AliasAfter(g, false, 1) == map[];
    assert Shareable(g, false, 1, 0) && FirstShareable(g, false, 1, 0) == 0;
    assert AliasAfter(g, false, 2) == map[2 := 1];
    assert Shareable(g, false, 2, 0) && FirstShareable(g, false, 2, 0) == 0;
    assert AliasAfter(g, false, 3) == map[2 := 1, 3 := 1];
    assert Shareable(g, false, 3, 0) && FirstShareable(g, false, 3, 0) == 0;
    assert AliasAfter(g, false, 4) == map[2 := 1, 3 := 1, 4 := 1];
    assert FirstShareable(g, false, 4, 1) == -1 && FirstShareable(g, false, 4, 0) == -1;
    assert AliasAfter(g, false, 5) == map[2 := 1, 3 := 1, 4 := 1];
  }

  /** Node 4 reads tensor 2 for the graph output, after node 3 has overwritten it. */
  lemma SampleHazard()
    ensures Hazard(SAMPLE, OutputsOnly, AliasMap(SAMPLE, false), 3, 4, 2, 4)
  {
    SampleAliases();
    hide AliasMap;
    var g, alias := SAMPLE, AliasMap(SAMPLE, false);
    forall l | Writes(g, l, 2) ensures l < 3 { SampleAccess(l, 2); }
    assert LostAt(g, alias, 3, 4, 2);
    SampleAccess(4, 2);
    SampleAccess(4, 5);
    assert Influences(g, 4, 2, 5) && Leads(g, 5, []);
  }

  lemma SampleBacked()
    ensures Backed(SAMPLE, false)
  {
  }

  /** A well-formed graph that the planner accepts and on which a graph output comes out wrong. */
  lemma InPlaceCanBeUnsafe(lay: Layout)
    ensures WellFormed(SAMPLE) && Initialised(SAMPLE) && UnmodifiedShapes(SAMPLE) && Backed(SAMPLE, false)
    ensures !SafeOverwrites(SAMPLE, OutputsOnly, AliasMap(SAMPLE, false))
    ensures Ready(SAMPLE, false, lay) ==>
              exists ker: Kernel<int>, mem: Memory<int>, init: seq<Value<int>> ::
                Setup(SAMPLE, lay, ker, mem, init) && !SameOutputs(SAMPLE, lay, ker, mem, init)
  {
    hide WellFormed, Initialised, UnmodifiedShapes, AliasMap, Clobbers, LostAt, Counts, Backed, Setup, SameOutputs,
      NoNullAccess;
    SampleWellFormed();
    SampleHazard();
    SampleBacked();
    if Ready(SAMPLE, false, lay) {
      MemoryIffBacked(SAMPLE, false, lay);
      OutputsIffSafe(SAMPLE, false, lay);
    }
  }

  // ---------------------------------------------------------------- a tensor can be left without memory

  /**
   Node 1 passes the read-write tensor 1 through to the persistent tensor 2.  The planner lets tensor 2
   share the buffer, resolution then finds the two in different arenas.
   */
  const CROSSING := Graph(
    [Tensor(8, ArenaRw), Tensor(8, ArenaRw), Tensor(8, ArenaRwPersistent), Tensor(8, ArenaRw)],
    [Op([0], [1], [], [], false, {}),
     Op([1], [2], [], [], true, {0}),
     Op([2], [3], [], [], false, {})],
    [0], [3], [])

  lemma CrossingAccess(i: int, t: int)
    ensures Reads(CROSSING, i, t) <==> 0 <= i < 3 && t == i
    ensures Writes(CROSSING, i, t) <==> 0 <= i < 3 && t == i + 1
    ensures !UsesTemporary(CROSSING, i, t) && !Updates(CROSSING, i, t)
    ensures Early(CROSSING, t) <==> t == 0
  {
  }

  /** `CrossingAccess`, for all nodes and tensors. */
  ghost predicate CrossingShape(g: Graph) {
    && |g.tensors| == 4 && |g.ops| == 3
    && (forall i, t :: Reads(g, i, t) <==> 0 <= i < 3 && t == i)
    && (forall i, t :: Writes(g, i, t) <==> 0 <= i < 3 && t == i + 1)
    && (forall i, t :: !UsesTemporary(g, i, t) && !Updates(g, i, t))
    && (forall t :: Early(g, t) <==> t == 0)
  }

  lemma CrossingHasShape()
    ensures CrossingShape(CROSSING)
  {
    forall i, t
      ensures Reads(CROSSING, i, t) <==> 0 <= i < 3 && t == i
      ensures Writes(CROSSING, i, t) <==> 0 <= i < 3 && t == i + 1
      ensures !UsesTemporary(CROSSING, i, t) && !Updates(CROSSING, i, t)
      ensures Early(CROSSING, t) <==> t == 0
    {
      CrossingAccess(i, t);
    }
  }

  lemma CrossingInOrder(g: Graph)
    requires CrossingShape(g) && g.inputs == [0] && g.outputs == [3] && g.variables == []
    ensures InRange(g) && UniqueProducers(g) && InPlanOrder(g) && PrivateTemporaries(g) && UpdatedVariables(g)
    ensures Initialised(g)
  {
    hide Reads, Writes, UsesTemporary, Updates, Early;
    forall i, t | Reads(g, i, t) && Planned(g, t) ensures Early(g, t) || Produced(g, t) {
      if t != 0 { assert Writes(g, t - 1, t); }
    }
    assert Writes(g, 2, 3);
  }

  lemma CrossingWellFormed()
    ensures WellFormed(CROSSING) && Initialised(CROSSING) && UnmodifiedShapes(CROSSING)
  {
    CrossingHasShape();
    hide CrossingShape;
    CrossingInOrder(CROSSING);
    hide InRange, UniqueProducers, InPlanOrder, PrivateTemporaries, UpdatedVariables, Initialised;
  }

  lemma CrossingAliases()
    ensures AliasMap(CROSSING, false) == map[2 := 1]
  {
    var g := CROSSING;
    hide Refs;
    assert AliasAfter(g, false, 0) == map[];
    assert FirstShareable(g, false, 0, 0) == -1;
    assert AliasAfter(g, false, 1) == map[];
    assert Shareable(g, false, 1, 0) && FirstShareable(g, false, 1, 0) == 0;
    assert AliasAfter(g, false, 2) == map[2 := 1];
    assert FirstShareable(g, false, 2, 0) == -1;
    assert AliasAfter(g, false, 3) == map[2 := 1];
  }

  /**
   A well-formed graph in which nothing is ever overwritten and every tensor has one reader, and yet on
   every layout node 1 writes and node 2 reads through a null pointer.
   */
  lemma MemoryCanBeMissing(lay: Layout)
    ensures WellFormed(CROSSING) && Initialised(CROSSING) && UnmodifiedShapes(CROSSING)
    ensures SafeOverwrites(CROSSING, EveryRead, AliasMap(CROSSING, false)) && forall t :: ReadOnce(CROSSING, t)
    ensures CrossesAt(CROSSING, false, 1) && !Backed(CROSSING, false)
    ensures Writes(CROSSING, 1, 2) && Reads(CROSSING, 2, 2) && CROSSING.tensors[2].bytes > 0
    ensures Ready(CROSSING, false, lay) ==> Address(CROSSING, lay, 2) == Null && !NoNullAccess(CROSSING, lay)
  {
    hide WellFormed, Initialised, UnmodifiedShapes, AliasMap, Address, Ready, NoNullAccess;
    CrossingWellFormed();
    CrossingAliases();
    CrossingHasShape();
    assert Shareable(CROSSING, false, 1, 0) && FirstShareable(CROSSING, false, 1, 0) == 0;
    assert SharesAcross(CROSSING, false, 2);
    if Ready(CROSSING, false, lay) {
      SharerIsNull(CROSSING, false, lay, 2);
      MemoryIffBacked(CROSSING, false, lay);
    }
  }
}
