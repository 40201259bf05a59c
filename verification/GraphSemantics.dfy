/**
 What executing a graph means, and why partitioning does not change it.  A node is a function
 from its input values to its output values; only nodes that might have a side effect read or
 write the world, and each of them leaves an entry in the trace.
 */
module GraphSemantics {
  import opened Common
  import opened Schedules
  import opened GraphInfo
  import opened PartitionState
  import opened Partitioner

  type Inputs<V> = seq<Option<V>>

  /** The kernels: value written to an output tensor, and effect on the world. */
  datatype Kernels<!V, !S> = Kernels(
    pure: (int, int, Inputs<V>) -> V,
    effect: (int, int, Inputs<V>, S) -> V,
    world: (int, Inputs<V>, S) -> S)

  datatype State<V, S> = State(mem: seq<V>, world: S, trace: seq<(int, Inputs<V>)>)

  /** The values node `i` reads; an optional input reads as `None`. */
  function ReadInputs<V>(g: Graph, mem: seq<V>, i: int): Inputs<V>
    requires InPlan(g, i)
  {
    var ts := g.nodes[i].inputs;
    seq(|ts|, k requires 0 <= k < |ts| =>
      if ts[k] != OPTIONAL_TENSOR && 0 <= ts[k] < |mem| then Some(mem[ts[k]]) else None)
  }

  function OutputValue<V, S>(g: Graph, ks: Kernels<V, S>, i: int, t: int, ins: Inputs<V>, world: S): V
    requires InPlan(g, i)
  {
    if g.nodes[i].mightHaveSideEffect then ks.effect(i, t, ins, world) else ks.pure(i, t, ins)
  }

  /** Executing node `i`. */
  function Step<V, S>(g: Graph, ks: Kernels<V, S>, st: State<V, S>, i: int): State<V, S> {
    if !InPlan(g, i) then st
    else
      var ins := ReadInputs(g, st.mem, i);
      var mem := seq(|st.mem|, t requires 0 <= t < |st.mem| =>
                       if Writes(g, i, t) then OutputValue(g, ks, i, t, ins, st.world) else st.mem[t]);
      if g.nodes[i].mightHaveSideEffect
      then State(mem, ks.world(i, ins, st.world), st.trace + [(i, ins)])
      else State(mem, st.world, st.trace)
  }

  /** Executing nodes in order. */
  function Run<V, S>(g: Graph, ks: Kernels<V, S>, st: State<V, S>, order: seq<int>): State<V, S> {
    if order == [] then st
    else Step(g, ks, Run(g, ks, st, order[..|order| - 1]), order[|order| - 1])
  }

  /** The original plan, up to node `i`. */
  function PlanRun<V, S>(g: Graph, ks: Kernels<V, S>, st: State<V, S>, i: int): State<V, S>
    decreases i
  {
    if i <= 0 then st else Step(g, ks, PlanRun(g, ks, st, i - 1), i - 1)
  }

  lemma {:induction false} PlanRunIsRun<V, S>(g: Graph, ks: Kernels<V, S>, st: State<V, S>, i: nat)
    ensures PlanRun(g, ks, st, i) == Run(g, ks, st, Interval(0, i))
  {
    if i > 0 {
      PlanRunIsRun(g, ks, st, i - 1);
      assert Interval(0, i)[..i - 1] == Interval(0, i - 1);
    }
  }

  // ---------------------------------------------------------------- the original run

  lemma {:induction false} MemLength<V, S>(g: Graph, ks: Kernels<V, S>, st: State<V, S>, i: int)
    ensures |PlanRun(g, ks, st, i).mem| == |st.mem|
    decreases i
  {
    if i > 0 { MemLength(g, ks, st, i - 1); }
  }

  /** Memory that nothing writes between two moments of the plan does not change. */
  lemma {:induction false} Untouched<V, S>(g: Graph, ks: Kernels<V, S>, st: State<V, S>, a: int, b: int, t: int)
    requires 0 <= a <= b && 0 <= t < |st.mem|
    requires forall i :: a <= i < b ==> !Writes(g, i, t)
    ensures |PlanRun(g, ks, st, a).mem| == |PlanRun(g, ks, st, b).mem| == |st.mem|
    ensures PlanRun(g, ks, st, b).mem[t] == PlanRun(g, ks, st, a).mem[t]
    decreases b
  {
    MemLength(g, ks, st, a);
    if a < b {
      Untouched(g, ks, st, a, b - 1, t);
    }
  }

  /** Between side-effecting nodes the world stands still. */
  lemma {:induction false} WorldStable<V, S>(g: Graph, ks: Kernels<V, S>, st: State<V, S>, a: int, b: int)
    requires 0 <= a <= b
    requires forall i :: a <= i < b ==> !HasSideEffect(g, i)
    ensures PlanRun(g, ks, st, b).world == PlanRun(g, ks, st, a).world
    ensures PlanRun(g, ks, st, b).trace == PlanRun(g, ks, st, a).trace
    decreases b
  {
    if a < b {
      WorldStable(g, ks, st, a, b - 1);
      assert !HasSideEffect(g, b - 1);
    }
  }

  /** In the original run every node reads values that are already final. */
  lemma InputsFinal<V, S>(g: Graph, ks: Kernels<V, S>, st: State<V, S>, i: int)
    requires WellFormed(g) && InPlanOrder(g) && InPlan(g, i) && |st.mem| == g.numTensors
    ensures ReadInputs(g, PlanRun(g, ks, st, i).mem, i) == ReadInputs(g, PlanRun(g, ks, st, |g.nodes|).mem, i)
  {
    var n, ts := |g.nodes|, g.nodes[i].inputs;
    MemLength(g, ks, st, i);
    MemLength(g, ks, st, n);
    forall k | 0 <= k < |ts| && ts[k] != OPTIONAL_TENSOR
      ensures 0 <= ts[k] < |st.mem| && PlanRun(g, ks, st, i).mem[ts[k]] == PlanRun(g, ks, st, n).mem[ts[k]]
    {
      assert Reads(g, i, ts[k]);
      assert forall j :: i <= j < n ==> !Writes(g, j, ts[k]);
      Untouched(g, ks, st, i, n, ts[k]);
    }
  }

  /** The final value of a tensor is what its producer computes from final values. */
  lemma FinalValue<V, S>(g: Graph, ks: Kernels<V, S>, st: State<V, S>, i: int, t: int)
    requires WellFormed(g) && InPlanOrder(g) && |st.mem| == g.numTensors && Writes(g, i, t)
    ensures |PlanRun(g, ks, st, |g.nodes|).mem| == g.numTensors
    ensures var fin := PlanRun(g, ks, st, |g.nodes|).mem;
            fin[t] == OutputValue(g, ks, i, t, ReadInputs(g, fin, i), PlanRun(g, ks, st, i).world)
  {
    InputsFinal(g, ks, st, i);
    MemLength(g, ks, st, i);
    assert forall j :: i + 1 <= j < |g.nodes| ==> !Writes(g, j, t);
    Untouched(g, ks, st, i + 1, |g.nodes|, t);
  }

  /** The side-effecting ones of the first `n` nodes, in plan order. */
  function EffectNodes(g: Graph, n: nat): seq<int>
    requires n <= |g.nodes|
  {
    if n == 0 then [] else EffectNodes(g, n - 1) + (if g.nodes[n - 1].mightHaveSideEffect then [n - 1] else [])
  }

  lemma {:induction false} EffectNodesAre(g: Graph, n: nat)
    requires n <= |g.nodes|
    ensures forall i :: i in EffectNodes(g, n) <==> 0 <= i < n && g.nodes[i].mightHaveSideEffect
    ensures forall a, b :: 0 <= a < b < |EffectNodes(g, n)| ==> EffectNodes(g, n)[a] < EffectNodes(g, n)[b]
  {
    if n > 0 {
      EffectNodesAre(g, n - 1);
      var before := EffectNodes(g, n - 1);
      assert forall a :: 0 <= a < |before| ==> before[a] in before;
    }
  }

  /** What these nodes, one after the other, make of the world if they read their inputs from `mem`. */
  function WorldAfter<V, S>(g: Graph, ks: Kernels<V, S>, mem: seq<V>, world: S, effects: seq<int>): S
    requires forall i :: i in effects ==> InPlan(g, i)
  {
    if effects == [] then world
    else
      var k := |effects| - 1;
      ks.world(effects[k], ReadInputs(g, mem, effects[k]), WorldAfter(g, ks, mem, world, effects[..k]))
  }

  /** And the entries that they leave in the trace. */
  function TraceOf<V>(g: Graph, mem: seq<V>, effects: seq<int>): seq<(int, Inputs<V>)>
    requires forall i :: i in effects ==> InPlan(g, i)
  {
    seq(|effects|, k requires 0 <= k < |effects| => (effects[k], ReadInputs(g, mem, effects[k])))
  }

  lemma OneMoreEffect<V, S>(g: Graph, ks: Kernels<V, S>, mem: seq<V>, world: S, effects: seq<int>, i: int)
    requires InPlan(g, i) && forall j :: j in effects ==> InPlan(g, j)
    ensures forall j :: j in effects + [i] ==> InPlan(g, j)
    ensures WorldAfter(g, ks, mem, world, effects + [i])
         == ks.world(i, ReadInputs(g, mem, i), WorldAfter(g, ks, mem, world, effects))
    ensures TraceOf(g, mem, effects + [i]) == TraceOf(g, mem, effects) + [(i, ReadInputs(g, mem, i))]
  {
    hide ReadInputs;
    assert (effects + [i])[..|effects|] == effects;
  }

  lemma StepEffect<V, S>(g: Graph, ks: Kernels<V, S>, st: State<V, S>, i: int)
    requires InPlan(g, i)
    ensures var ins, after := ReadInputs(g, st.mem, i), Step(g, ks, st, i);
            if g.nodes[i].mightHaveSideEffect
            then after.world == ks.world(i, ins, st.world) && after.trace == st.trace + [(i, ins)]
            else after.world == st.world && after.trace == st.trace
  {
  }

  lemma NoEffects<V, S>(g: Graph, ks: Kernels<V, S>, mem: seq<V>, world: S)
    ensures WorldAfter(g, ks, mem, world, []) == world && TraceOf(g, mem, []) == []
  {
  }

  lemma Append<T>(a: seq<T>, b: seq<T>, x: T)
    ensures (a + b) + [x] == a + (b + [x])
  {
  }

  /**
   The plan leaves one entry in the trace for each side-effecting node, in plan order and with the final
   values of its inputs, and the world as these nodes make it on those values.
   */
  lemma {:induction false} PlanEffects<V, S>(g: Graph, ks: Kernels<V, S>, st: State<V, S>, n: nat)
    requires WellFormed(g) && InPlanOrder(g) && |st.mem| == g.numTensors && n <= |g.nodes|
    ensures forall i :: i in EffectNodes(g, n) ==> InPlan(g, i)
    ensures var fin, effects := PlanRun(g, ks, st, |g.nodes|).mem, EffectNodes(g, n);
            && PlanRun(g, ks, st, n).world == WorldAfter(g, ks, fin, st.world, effects)
            && PlanRun(g, ks, st, n).trace == st.trace + TraceOf(g, fin, effects)
  {
    hide WellFormed, InPlanOrder, ReadInputs, Step, WorldAfter, TraceOf;
    if n > 0 {
      var fin, before, i := PlanRun(g, ks, st, |g.nodes|).mem, EffectNodes(g, n - 1), n - 1;
      PlanEffects(g, ks, st, i);
      InputsFinal(g, ks, st, i);
      StepEffect(g, ks, PlanRun(g, ks, st, i), i);
      OneMoreEffect(g, ks, fin, st.world, before, i);
      if g.nodes[i].mightHaveSideEffect {
        Append(st.trace, TraceOf(g, fin, before), (i, ReadInputs(g, fin, i)));
      } else {
        assert EffectNodes(g, n) == before;
      }
    } else {
      NoEffects(g, ks, PlanRun(g, ks, st, |g.nodes|).mem, st.world);
    }
  }

  // ---------------------------------------------------------------- any other run

  ghost predicate AgreesOn<V>(mem: seq<V>, fin: seq<V>, a: set<int>) {
    && |mem| == |fin|
    && (forall t :: t in a && 0 <= t < |fin| ==> mem[t] == fin[t])
  }

  /** The nodes with side effects in `done` are those before `m`, and the world is as it was there. */
  ghost predicate WorldAt<V, S>(
    g: Graph, ks: Kernels<V, S>, st0: State<V, S>, done: set<int>, st: State<V, S>, m: int)
  {
    && 0 <= m <= |g.nodes|
    && (forall x :: HasSideEffect(g, x) ==> (x in done <==> x < m))
    && st.world == PlanRun(g, ks, st0, m).world
    && st.trace == PlanRun(g, ks, st0, m).trace
  }

  /** The dependencies keep side-effecting nodes in their original order. */
  ghost predicate SideEffectsOrdered(p: Problem) {
    forall a, b :: ChainEdge(p.g, a, b, |p.g.nodes|) ==> MustPrecede(p, a, b)
  }

  lemma PreviousEffect(g: Graph, m: int, i: int) returns (a: int)
    requires 0 <= m <= i && HasSideEffect(g, i)
    ensures a >= m ==> ChainEdge(g, a, i, |g.nodes|)
    ensures a < m ==> forall k :: m <= k < i ==> !HasSideEffect(g, k)
  {
    a := i - 1;
    while a >= m && !HasSideEffect(g, a)
      invariant a < i
      invariant forall k :: a < k < i ==> !HasSideEffect(g, k)
    {
      a := a - 1;
    }
  }

  /** Every side effect of `s` comes after all those that precede it in the plan. */
  ghost predicate EffectsInTurn(g: Graph, done: set<int>, s: seq<int>) {
    s == [] ||
    var k := |s| - 1;
    && EffectsInTurn(g, done, s[..k])
    && (HasSideEffect(g, s[k]) ==> EffectsDone(g, done + Elems(s[..k]), s[k]))
  }

  ghost predicate EffectsDone(g: Graph, done: set<int>, i: int) {
    forall x :: HasSideEffect(g, x) && x < i ==> x in done
  }

  /** Side effects have happened in plan order so far. */
  ghost predicate EffectsClosed(g: Graph, done: set<int>) {
    forall y :: HasSideEffect(g, y) && y in done ==> EffectsDone(g, done, y)
  }

  /** Dependencies that chain the side effects keep them in turn. */
  lemma {:induction false} ChainKeepsTurns(p: Problem, done: set<int>, s: seq<int>)
    requires EdgesInRange(p.g, p.edges) && SideEffectsOrdered(p)
    requires Runnable(DagOf(p), done, s) && EffectsClosed(p.g, done)
    ensures EffectsInTurn(p.g, done, s) && EffectsClosed(p.g, done + Elems(s))
  {
    if s == [] {
      assert done + Elems(s) == done;
    } else {
      var k := |s| - 1;
      var have, i := done + Elems(s[..k]), s[k];
      ChainKeepsTurns(p, done, s[..k]);
      if HasSideEffect(p.g, i) {
        var a := PreviousEffect(p.g, 0, i);
        if a >= 0 {
          PredsAre(p, i, a);
          assert EffectsDone(p.g, have, a);
        }
        assert EffectsDone(p.g, have, i);
      }
      assert done + Elems(s) == have + {i};
    }
  }

  lemma {:induction false} PlanKeepsTurns(g: Graph, n: nat)
    ensures EffectsInTurn(g, {}, Interval(0, n))
  {
    if n > 0 {
      PlanKeepsTurns(g, n - 1);
      var s := Interval(0, n);
      assert s[..n - 1] == Interval(0, n - 1);
      forall x | HasSideEffect(g, x) && x < n - 1 ensures x in Elems(s[..n - 1]) { assert s[..n - 1][x] == x; }
    }
  }

  lemma {:induction false} TurnsSplit(g: Graph, done: set<int>, a: seq<int>, b: seq<int>)
    requires EffectsInTurn(g, done, a + b)
    ensures EffectsInTurn(g, done, a) && EffectsInTurn(g, done + Elems(a), b)
  {
    if b == [] {
      assert a + b == a;
    } else {
      var k := |b| - 1;
      assert (a + b)[..|a| + k] == a + b[..k];
      TurnsSplit(g, done, a, b[..k]);
      assert done + Elems(a + b[..k]) == done + Elems(a) + Elems(b[..k]);
    }
  }

  lemma EffectInTurn<V, S>(
    g: Graph, ks: Kernels<V, S>, st0: State<V, S>, done: set<int>, st: State<V, S>, m: int, i: int)
    requires HasSideEffect(g, i) && i !in done && EffectsDone(g, done, i) && WorldAt(g, ks, st0, done, st, m)
    ensures st.world == PlanRun(g, ks, st0, i).world && st.trace == PlanRun(g, ks, st0, i).trace
    ensures forall x :: HasSideEffect(g, x) ==> (x in done + {i} <==> x < i + 1)
  {
    assert forall x :: HasSideEffect(g, x) && x < i ==> x < m;
    WorldStable(g, ks, st0, m, i);
  }

  /** One step from a state that agrees on all inputs writes final values and keeps the world in step. */
  lemma StepAgrees<V, S>(
    p: Problem, ks: Kernels<V, S>, st0: State<V, S>, done: set<int>, st: State<V, S>, m: int, i: int, a: set<int>)
    returns (m': int)
    requires WellFormed(p.g) && InPlanOrder(p.g)
    requires |st0.mem| == p.g.numTensors && i !in done && InPlan(p.g, i)
    requires HasSideEffect(p.g, i) ==> EffectsDone(p.g, done, i)
    requires AgreesOn(st.mem, PlanRun(p.g, ks, st0, |p.g.nodes|).mem, a)
    requires forall t :: Reads(p.g, i, t) ==> t in a
    requires WorldAt(p.g, ks, st0, done, st, m)
    ensures var fin, st' := PlanRun(p.g, ks, st0, |p.g.nodes|).mem, Step(p.g, ks, st, i);
            && AgreesOn(st'.mem, fin, a)
            && (forall t :: Writes(p.g, i, t) ==> 0 <= t < |st'.mem| == |fin| && st'.mem[t] == fin[t])
            && WorldAt(p.g, ks, st0, done + {i}, st', m')
  {
    var g, n := p.g, |p.g.nodes|;
    var fin := PlanRun(g, ks, st0, n).mem;
    MemLength(g, ks, st0, n);
    SameInputs(g, st.mem, fin, a, i);
    if HasSideEffect(g, i) {
      EffectInTurn(g, ks, st0, done, st, m, i);
      InputsFinal(g, ks, st0, i);
      m' := i + 1;
    } else {
      m' := m;
    }
    forall t | Writes(g, i, t) ensures 0 <= t < |fin| && Step(g, ks, st, i).mem[t] == fin[t] {
      FinalValue(g, ks, st0, i, t);
    }
  }

  lemma SameInputs<V>(g: Graph, mem: seq<V>, fin: seq<V>, a: set<int>, i: int)
    requires InPlan(g, i) && AgreesOn(mem, fin, a)
    requires forall t :: Reads(g, i, t) ==> t in a
    ensures ReadInputs(g, mem, i) == ReadInputs(g, fin, i)
  {
    var ts := g.nodes[i].inputs;
    forall k | 0 <= k < |ts| && ts[k] != OPTIONAL_TENSOR && 0 <= ts[k] < |mem|
      ensures mem[ts[k]] == fin[ts[k]]
    {
      assert Reads(g, i, ts[k]);
    }
  }

  /** The tensors written by the nodes of `s`. */
  ghost function WrittenSet(g: Graph, s: seq<int>): set<int> {
    set t | 0 <= t < g.numTensors && WrittenBy(g, s, t)
  }

  /** Every input of `s` is available beforehand or produced inside `s`. */
  ghost predicate Supplied(g: Graph, s: seq<int>, a: set<int>) {
    forall i, t :: i in s && Reads(g, i, t) ==> t in a || WrittenBy(g, s, t)
  }

  lemma SuppliedPrefix(p: Problem, done: set<int>, s: seq<int>, a: set<int>)
    requires EdgesInRange(p.g, p.edges)
    requires Runnable(DagOf(p), done, s) && Supplied(p.g, s, a) && s != []
    ensures Supplied(p.g, s[..|s| - 1], a)
    ensures forall t :: Reads(p.g, s[|s| - 1], t) ==> t in a || WrittenBy(p.g, s[..|s| - 1], t)
  {
    var d, l := DagOf(p), |s| - 1;
    forall k, t | 0 <= k < |s| && Reads(p.g, s[k], t) && t !in a ensures WrittenBy(p.g, s[..l], t) {
      assert s[k] in s;
      var j :| j in s && Writes(p.g, j, t);
      assert FeedsData(p.g, j, s[k]);
      RunnableAt(d, done, s, k);
      PredsAre(p, s[k], j);
      assert j in done + Elems(s[..k]);
      var q :| 0 <= q < |s| && s[q] == j;
      RunnableAt(d, done, s, q);
      assert j in s[..k];
      var r :| 0 <= r < k && s[r] == j;
      assert s[..l][r] == j;
    }
    forall i, t | i in s[..l] && Reads(p.g, i, t) ensures t in a || WrittenBy(p.g, s[..l], t) {
      var k :| 0 <= k < l && s[k] == i;
    }
  }

  /** Running any supplied, runnable list of nodes produces final values and keeps the world in step. */
  lemma {:induction false} RunAgrees<V, S>(
    p: Problem, ks: Kernels<V, S>, st0: State<V, S>, done: set<int>, st: State<V, S>, m: int, s: seq<int>, a: set<int>)
    returns (m': int)
    requires WellFormed(p.g) && InPlanOrder(p.g) && EdgesInRange(p.g, p.edges)
    requires |st0.mem| == p.g.numTensors && Runnable(DagOf(p), done, s) && EffectsInTurn(p.g, done, s)
    requires AgreesOn(st.mem, PlanRun(p.g, ks, st0, |p.g.nodes|).mem, a) && Supplied(p.g, s, a)
    requires WorldAt(p.g, ks, st0, done, st, m)
    ensures var fin, st' := PlanRun(p.g, ks, st0, |p.g.nodes|).mem, Run(p.g, ks, st, s);
            && AgreesOn(st'.mem, fin, a + WrittenSet(p.g, s))
            && WorldAt(p.g, ks, st0, done + Elems(s), st', m')
    decreases |s|
  {
    hide WellFormed, InPlanOrder, EffectsDone, WorldAt, Step, PlanRun, CanRun, DagOf;
    var g := p.g;
    if s == [] {
      m' := m;
      assert WrittenSet(g, s) == {};
      assert a + {} == a && done + Elems(s) == done;
    } else {
      var l := |s| - 1;
      SuppliedPrefix(p, done, s, a);
      var m1 := RunAgrees(p, ks, st0, done, st, m, s[..l], a);
      InPlanIfCanRun(p, done + Elems(s[..l]), s[l]);
      InputsWritten(g, s[..l], s[l], a);
      m' := StepAgrees(p, ks, st0, done + Elems(s[..l]), Run(g, ks, st, s[..l]), m1, s[l], a + WrittenSet(g, s[..l]));
      assert done + Elems(s[..l]) + {s[l]} == done + Elems(s);
      WrittenSnoc(g, s);
    }
  }

  lemma InPlanIfCanRun(p: Problem, done: set<int>, i: int)
    requires CanRun(DagOf(p), done, i)
    ensures InPlan(p.g, i) && i !in done
  {
  }

  lemma InputsWritten(g: Graph, s: seq<int>, i: int, a: set<int>)
    requires forall t :: Reads(g, i, t) ==> t in a || WrittenBy(g, s, t)
    requires WellFormed(g)
    ensures forall t :: Reads(g, i, t) ==> t in a + WrittenSet(g, s)
  {
  }

  lemma WrittenSnoc(g: Graph, s: seq<int>)
    requires s != []
    ensures WrittenSet(g, s) == WrittenSet(g, s[..|s| - 1]) + WrittenSet(g, [s[|s| - 1]])
  {
    var init, i := s[..|s| - 1], s[|s| - 1];
    assert s == init + [i];
    forall t ensures WrittenBy(g, s, t) <==> WrittenBy(g, init, t) || WrittenBy(g, [i], t) {
      ReadByExtended(g, init, i, t);
      ReadByExtended(g, [], i, t);
      assert [] + [i] == [i];
    }
  }

  // ---------------------------------------------------------------- partitioning preserves meaning

  ghost predicate Produced(g: Graph, t: int) {
    exists i :: Writes(g, i, t)
  }

  /** The tensors that no node produces. */
  ghost function Unproduced(g: Graph): set<int> {
    set t | 0 <= t < g.numTensors && !Produced(g, t)
  }

  lemma InitiallyFinal<V, S>(g: Graph, ks: Kernels<V, S>, st: State<V, S>)
    requires |st.mem| == g.numTensors
    ensures AgreesOn(st.mem, PlanRun(g, ks, st, |g.nodes|).mem, Unproduced(g))
    ensures WorldAt(g, ks, st, {}, st, 0)
  {
    MemLength(g, ks, st, |g.nodes|);
    forall t | t in Unproduced(g) ensures st.mem[t] == PlanRun(g, ks, st, |g.nodes|).mem[t] {
      Untouched(g, ks, st, 0, |g.nodes|, t);
    }
  }

  lemma AllSupplied(p: Problem, s: seq<int>)
    requires TensorsInRange(p.g) && Elems(s) == AllNodes(DagOf(p))
    ensures Supplied(p.g, s, Unproduced(p.g))
    ensures forall t :: 0 <= t < p.g.numTensors ==> t in Unproduced(p.g) + WrittenSet(p.g, s)
  {
    DagIsValid(p);
    forall t, i | Writes(p.g, i, t) ensures WrittenBy(p.g, s, t) {
      assert IsNode(DagOf(p), i) && i in Elems(s);
    }
  }

  /** At the end of the plan the world is the same wherever the last side effect left it. */
  lemma WorldAtEnd<V, S>(g: Graph, ks: Kernels<V, S>, st0: State<V, S>, done: set<int>, st: State<V, S>, m: int)
    requires WorldAt(g, ks, st0, done, st, m) && forall i :: InPlan(g, i) ==> i in done
    ensures st.world == PlanRun(g, ks, st0, |g.nodes|).world && st.trace == PlanRun(g, ks, st0, |g.nodes|).trace
  {
    WorldStable(g, ks, st0, m, |g.nodes|);
  }

  /** Every complete order that respects the dependencies computes what the plan computes. */
  lemma OrderPreservesMeaning<V, S>(p: Problem, ks: Kernels<V, S>, st: State<V, S>, order: seq<int>)
    requires ValidProblem(p) && InPlanOrder(p.g) && |st.mem| == p.g.numTensors
    requires Runnable(DagOf(p), {}, order) && Elems(order) == AllNodes(DagOf(p)) && EffectsInTurn(p.g, {}, order)
    ensures Run(p.g, ks, st, order) == PlanRun(p.g, ks, st, |p.g.nodes|)
  {
    InitiallyFinal(p.g, ks, st);
    AllSupplied(p, order);
    var m := RunAgrees(p, ks, st, {}, st, 0, order, Unproduced(p.g));
    DagIsValid(p);
    assert {} + Elems(order) == Elems(order);
    WorldAtEnd(p.g, ks, st, Elems(order), Run(p.g, ks, st, order), m);
    MemLength(p.g, ks, st, |p.g.nodes|);
    assert Run(p.g, ks, st, order).mem == PlanRun(p.g, ks, st, |p.g.nodes|).mem;
  }

  /** The plan positions of original node indices. */
  function PlanPositions(g: Graph, nodes: seq<int>): seq<int> {
    seq(|nodes|, k requires 0 <= k < |nodes| => PositionOf(g.nodeIndex, nodes[k]))
  }

  /** Running the subsets in order, each subset's nodes in order. */
  function RunSubsets<V, S>(g: Graph, ks: Kernels<V, S>, st: State<V, S>, subsets: seq<NodeSubset>): State<V, S> {
    if subsets == [] then st
    else
      var k := |subsets| - 1;
      Run(g, ks, RunSubsets(g, ks, st, subsets[..k]), PlanPositions(g, subsets[k].nodes))
  }

  lemma PositionsAreNodes(p: Problem, s: seq<int>, sub: NodeSubset)
    requires WellFormed(p.g) && SubsetMatches(p, s, sub)
    ensures PlanPositions(p.g, sub.nodes) == s
  {
    forall k | 0 <= k < |s| ensures PositionOf(p.g.nodeIndex, p.g.nodeIndex[s[k]]) == s[k] {
      PositionOfIs(p.g.nodeIndex, s[k]);
    }
  }

  lemma {:induction false} RunConcat<V, S>(g: Graph, ks: Kernels<V, S>, st: State<V, S>, a: seq<int>, b: seq<int>)
    ensures Run(g, ks, st, a + b) == Run(g, ks, Run(g, ks, st, a), b)
  {
    if b == [] {
      assert a + b == a;
    } else {
      var k := |b| - 1;
      RunConcat(g, ks, st, a, b[..k]);
      assert (a + b)[..|a| + k] == a + b[..k];
    }
  }

  lemma SubsetsPrefix(p: Problem, es: Epochs, subsets: seq<NodeSubset>)
    requires SubsetsMatch(p, es, subsets) && es != []
    ensures SubsetsMatch(p, es[..|es| - 1], subsets[..|es| - 1])
    ensures SubsetMatches(p, es[|es| - 1], subsets[|es| - 1])
  {
    var k := |es| - 1;
    forall e | 0 <= e < k ensures SubsetMatches(p, es[..k][e], subsets[..k][e]) {
      assert SubsetMatches(p, es[e], subsets[e]);
    }
  }

  lemma {:induction false} SubsetsRunTheSchedule<V, S>(
    p: Problem, ks: Kernels<V, S>, st: State<V, S>, es: Epochs, subsets: seq<NodeSubset>)
    requires WellFormed(p.g) && SubsetsMatch(p, es, subsets)
    ensures RunSubsets(p.g, ks, st, subsets) == Run(p.g, ks, st, Flatten(es))
  {
    if es != [] {
      var k := |es| - 1;
      SubsetsPrefix(p, es, subsets);
      SubsetsRunTheSchedule(p, ks, st, es[..k], subsets[..k]);
      PositionsAreNodes(p, es[k], subsets[k]);
      RunConcat(p.g, ks, st, Flatten(es[..k]), es[k]);
    }
  }

  /** Without fusion there are as many epochs as nodes, in plan order. */
  lemma UnfusedFlat(d: Dag, es: Epochs)
    requires ValidDag(d) && ValidSchedule(d, es) && OpensWithFirstReady(d, es) && Done(es) == AllNodes(d)
    requires forall e :: 0 <= e < |es| ==> |es[e]| == 1
    requires ForwardDag(d)
    ensures Flatten(es) == Interval(0, |d.preds|)
  {
    UnfusedKeepsPlanOrder(d, es);
    FlattenElems(es);
    assert |es| !in Elems(Interval(0, |es|));
    assert IsNode(d, |es|) ==> |es| in AllNodes(d);
  }

  /** The control edges in force keep side effects in order: the default ones, or any that chain them. */
  ghost predicate KeepsEffects(p: Problem, greedily: bool) {
    EffectiveEdges(p.g, greedily, None, p.edges) || SideEffectsOrdered(p)
  }

  lemma DefaultEdgesChain(p: Problem)
    requires EffectiveEdges(p.g, true, None, p.edges)
    ensures SideEffectsOrdered(p)
  {
    forall a, b | ChainEdge(p.g, a, b, |p.g.nodes|) ensures MustPrecede(p, a, b) {
      assert (a, b) in p.edges;
    }
  }

  /** In every mode the schedule performs the side effects in plan order. */
  lemma PartitioningKeepsTurns(
    p: Problem, greedily: bool, disableNodeFusion: bool, subsets: seq<NodeSubset>, es: Epochs)
    requires ValidProblem(p) && InPlanOrder(p.g) && KeepsEffects(p, greedily)
    requires IsPartitioning(p, greedily, disableNodeFusion, subsets, es)
    ensures EffectsInTurn(p.g, {}, Flatten(es))
  {
    if greedily || SideEffectsOrdered(p) {
      if !SideEffectsOrdered(p) { DefaultEdgesChain(p); }
      FlattenRunnable(DagOf(p), es);
      ChainKeepsTurns(p, {}, Flatten(es));
    } else {
      NoEdges(p.edges);
      PlanOrderIsAcyclic(p);
      DagIsValid(p);
      if disableNodeFusion {
        UnfusedFlat(DagOf(p), es);
      } else {
        RunsKeepPlanOrder(DagOf(p), es, |p.g.nodes|);
      }
      PlanKeepsTurns(p.g, |p.g.nodes|);
    }
  }

  /**
   Partitioning preserves meaning: in every mode, running the subsets in order gives every tensor
   the value the original plan gives it, leaves the world in the same state and performs the same
   side effects in the same order.
   */
  lemma PartitioningPreservesMeaning<V, S>(
    p: Problem, greedily: bool, disableNodeFusion: bool, subsets: seq<NodeSubset>, es: Epochs,
    ks: Kernels<V, S>, st: State<V, S>)
    requires ValidProblem(p) && InPlanOrder(p.g) && |st.mem| == p.g.numTensors
    requires KeepsEffects(p, greedily)
    requires IsPartitioning(p, greedily, disableNodeFusion, subsets, es)
    ensures RunSubsets(p.g, ks, st, subsets) == PlanRun(p.g, ks, st, |p.g.nodes|)
  {
    PartitioningKeepsTurns(p, greedily, disableNodeFusion, subsets, es);
    SubsetsRunTheSchedule(p, ks, st, es, subsets);
    FlattenRunnable(DagOf(p), es);
    FlattenElems(es);
    OrderPreservesMeaning(p, ks, st, Flatten(es));
  }

  lemma NoEdges(edges: seq<Edge>)
    requires forall a, b :: (a, b) !in edges
    ensures EdgesForward(edges)
  {
    assert forall e :: e in edges ==> (e.0, e.1) in edges;
  }

  // ---------------------------------------------------------------- subsets are black boxes

  /** Memory as a subset sees it: its input tensors, and junk everywhere else. */
  function BoxMemory<V>(mem: seq<V>, sub: NodeSubset, junk: int -> V): seq<V> {
    seq(|mem|, t requires 0 <= t < |mem| => if t in sub.inputTensors then mem[t] else junk(t))
  }

  /** A subset is shown nothing but its input tensors. */
  lemma OnlyInputsEnter<V>(mem: seq<V>, other: seq<V>, sub: NodeSubset, junk: int -> V)
    requires |mem| == |other|
    requires forall t :: t in sub.inputTensors && 0 <= t < |mem| ==> mem[t] == other[t]
    ensures BoxMemory(mem, sub, junk) == BoxMemory(other, sub, junk)
  {
  }

  /** Only the output tensors leave the box. */
  function Export<V>(mem: seq<V>, inner: seq<V>, sub: NodeSubset): seq<V>
    requires |inner| == |mem|
  {
    seq(|mem|, t requires 0 <= t < |mem| => if t in sub.outputTensors then inner[t] else mem[t])
  }

  /** Running each subset as a black box behind its declared interface. */
  ghost function RunBoxes<V, S>(
    g: Graph, ks: Kernels<V, S>, st: State<V, S>, subsets: seq<NodeSubset>, junk: (int, int) -> V): (r: State<V, S>)
    ensures |r.mem| == |st.mem|
  {
    if subsets == [] then st
    else
      var k := |subsets| - 1;
      var before := RunBoxes(g, ks, st, subsets[..k], junk);
      var box := State(BoxMemory(before.mem, subsets[k], t => junk(k, t)), before.world, before.trace);
      var inner := Run(g, ks, box, PlanPositions(g, subsets[k].nodes));
      RunLength(g, ks, box, PlanPositions(g, subsets[k].nodes));
      State(Export(before.mem, inner.mem, subsets[k]), inner.world, inner.trace)
  }

  lemma {:induction false} RunLength<V, S>(g: Graph, ks: Kernels<V, S>, st: State<V, S>, s: seq<int>)
    ensures |Run(g, ks, st, s).mem| == |st.mem|
  {
    if s != [] { RunLength(g, ks, st, s[..|s| - 1]); }
  }

  /** What is final after the boxes: unproduced tensors and everything exported so far. */
  ghost function Exported(g: Graph, subsets: seq<NodeSubset>): set<int> {
    if subsets == [] then Unproduced(g)
    else Exported(g, subsets[..|subsets| - 1]) + Elems(subsets[|subsets| - 1].outputTensors)
  }

  lemma {:induction false} ExportedMember(g: Graph, subsets: seq<NodeSubset>, e: nat, t: int)
    requires e < |subsets| && t in subsets[e].outputTensors
    ensures t in Exported(g, subsets)
  {
    if e < |subsets| - 1 {
      ExportedMember(g, subsets[..|subsets| - 1], e, t);
    }
  }

  lemma {:induction false} UnproducedExported(g: Graph, subsets: seq<NodeSubset>)
    ensures Unproduced(g) <= Exported(g, subsets)
  {
    if subsets != [] { UnproducedExported(g, subsets[..|subsets| - 1]); }
  }

  lemma {:induction false} ScheduleAt(d: Dag, es: Epochs, e: nat)
    requires ValidSchedule(d, es) && e < |es|
    ensures Runnable(d, Done(es[..e]), es[e]) && ValidSchedule(d, es[..e + 1])
  {
    var k := |es| - 1;
    if e < k {
      ScheduleAt(d, es[..k], e);
      assert es[..k][..e] == es[..e] && es[..k][..e + 1] == es[..e + 1];
    } else {
      assert es[..e + 1] == es;
    }
  }

  /** Subset inputs come from outside the graph or are outputs of a strictly earlier subset. */
  lemma InputsComeFromEarlier(
    p: Problem, es: Epochs, subsets: seq<NodeSubset>, e: nat, t: int)
    requires ValidProblem(p) && ValidSchedule(DagOf(p), es) && InterfacesExact(p.g, es, subsets)
    requires Done(es) == AllNodes(DagOf(p))
    requires e < |es| && t in subsets[e].inputTensors
    ensures t in Unproduced(p.g) || exists e' :: 0 <= e' < e && t in subsets[e'].outputTensors
  {
    var d := DagOf(p);
    assert ReadBy(p.g, es[e], t) && !WrittenBy(p.g, es[e], t);
    var i :| i in es[e] && Reads(p.g, i, t);
    if Produced(p.g, t) {
      var j :| Writes(p.g, j, t);
      assert FeedsData(p.g, j, i);
      PredsAre(p, i, j);
      ScheduleAt(d, es, e);
      var k :| 0 <= k < |es[e]| && es[e][k] == i;
      RunnableAt(d, Done(es[..e]), es[e], k);
      assert j in Done(es[..e]);
      DoneMember(es[..e], j);
      var e' :| 0 <= e' < e && j in es[..e][e'];
      assert WrittenBy(p.g, es[e'], t);
      assert ReadElsewhere(p.g, es, e', t);
      assert t in subsets[e'].outputTensors;
    }
  }

  lemma BoxSupplied(p: Problem, es: Epochs, subsets: seq<NodeSubset>, e: nat)
    requires InterfacesExact(p.g, es, subsets) && e < |es|
    ensures Supplied(p.g, es[e], Elems(subsets[e].inputTensors))
  {
    forall i, t | i in es[e] && Reads(p.g, i, t)
      ensures t in Elems(subsets[e].inputTensors) || WrittenBy(p.g, es[e], t)
    {
      assert ReadBy(p.g, es[e], t);
      assert t in subsets[e].inputTensors <==> ReadBy(p.g, es[e], t) && !WrittenBy(p.g, es[e], t);
    }
  }

  lemma {:induction false} BoxesAgree<V, S>(
    p: Problem, ks: Kernels<V, S>, st: State<V, S>, es: Epochs, subsets: seq<NodeSubset>, junk: (int, int) -> V, e: nat)
    returns (m: int)
    requires ValidProblem(p) && InPlanOrder(p.g) && |st.mem| == p.g.numTensors && EffectsInTurn(p.g, {}, Flatten(es))
    requires ValidSchedule(DagOf(p), es) && Done(es) == AllNodes(DagOf(p))
    requires SubsetsMatch(p, es, subsets) && InterfacesExact(p.g, es, subsets) && e <= |es|
    ensures var r := RunBoxes(p.g, ks, st, subsets[..e], junk);
            && AgreesOn(r.mem, PlanRun(p.g, ks, st, |p.g.nodes|).mem, Exported(p.g, subsets[..e]))
            && WorldAt(p.g, ks, st, Done(es[..e]), r, m)
  {
    hide ValidProblem, InPlanOrder, EffectsInTurn, ValidSchedule, SubsetsMatch, DagOf, AgreesOn, WorldAt, PlanRun;
    if e == 0 {
      InitiallyFinal(p.g, ks, st);
      assert subsets[..e] == [] && es[..e] == [];
      m := 0;
    } else {
      var k := e - 1;
      assert subsets[..e][..k] == subsets[..k] && es[..e][..k] == es[..k];
      var m1 := BoxesAgree(p, ks, st, es, subsets, junk, k);
      m := BoxStep(p, ks, st, es, subsets, junk, k, m1);
    }
  }

  /** One more box. */
  lemma BoxStep<V, S>(
    p: Problem, ks: Kernels<V, S>, st: State<V, S>, es: Epochs, subsets: seq<NodeSubset>, junk: (int, int) -> V,
    k: nat, m: int)
    returns (m': int)
    requires ValidProblem(p) && InPlanOrder(p.g) && |st.mem| == p.g.numTensors && EffectsInTurn(p.g, {}, Flatten(es))
    requires ValidSchedule(DagOf(p), es) && Done(es) == AllNodes(DagOf(p))
    requires SubsetsMatch(p, es, subsets) && InterfacesExact(p.g, es, subsets) && k < |es|
    requires var r := RunBoxes(p.g, ks, st, subsets[..k], junk);
             && AgreesOn(r.mem, PlanRun(p.g, ks, st, |p.g.nodes|).mem, Exported(p.g, subsets[..k]))
             && WorldAt(p.g, ks, st, Done(es[..k]), r, m)
    ensures var r := RunBoxes(p.g, ks, st, subsets[..k + 1], junk);
            && AgreesOn(r.mem, PlanRun(p.g, ks, st, |p.g.nodes|).mem, Exported(p.g, subsets[..k + 1]))
            && WorldAt(p.g, ks, st, Done(es[..k + 1]), r, m')
  {
    hide PlanRun, DagOf, InPlanOrder, ValidSchedule, EffectsInTurn, ValidProblem, InterfacesExact, Run;
    var fin := PlanRun(p.g, ks, st, |p.g.nodes|).mem;
    var sub := subsets[k];
    var before := RunBoxes(p.g, ks, st, subsets[..k], junk);
    var box := State(BoxMemory(before.mem, sub, t => junk(k, t)), before.world, before.trace);
    m' := InsideBox(p, ks, st, es, subsets, k, m, before, box);
    PositionsAreNodes(p, es[k], sub) by {
      assert SubsetMatches(p, es[k], subsets[k]);
      IsWellFormed(p);
    }
    assert subsets[..k + 1][..k] == subsets[..k] && es[..k + 1][..k] == es[..k];
  }

  lemma IsWellFormed(p: Problem)
    requires ValidProblem(p)
    ensures WellFormed(p.g)
  {
  }

  /** Inside a box that sees the right inputs, the outputs get their final values and the world stays in step. */
  lemma InsideBox<V, S>(
    p: Problem, ks: Kernels<V, S>, st: State<V, S>, es: Epochs, subsets: seq<NodeSubset>,
    k: nat, m: int, before: State<V, S>, box: State<V, S>)
    returns (m': int)
    requires ValidProblem(p) && InPlanOrder(p.g) && |st.mem| == p.g.numTensors && EffectsInTurn(p.g, {}, Flatten(es))
    requires ValidSchedule(DagOf(p), es) && Done(es) == AllNodes(DagOf(p))
    requires InterfacesExact(p.g, es, subsets) && k < |es|
    requires AgreesOn(before.mem, PlanRun(p.g, ks, st, |p.g.nodes|).mem, Exported(p.g, subsets[..k]))
    requires WorldAt(p.g, ks, st, Done(es[..k]), before, m)
    requires box.world == before.world && box.trace == before.trace && |box.mem| == |before.mem|
    requires forall t :: 0 <= t < |box.mem| && t in subsets[k].inputTensors ==> box.mem[t] == before.mem[t]
    ensures var fin, inner := PlanRun(p.g, ks, st, |p.g.nodes|).mem, Run(p.g, ks, box, es[k]);
            && |inner.mem| == |before.mem| == |fin|
            && (forall t :: 0 <= t < |fin| && t in subsets[k].outputTensors ==> inner.mem[t] == fin[t])
            && WorldAt(p.g, ks, st, Done(es[..k]) + Elems(es[k]), inner, m')
  {
    hide PlanRun, DagOf, InPlanOrder, ValidSchedule, EffectsInTurn, Run;
    var fin := PlanRun(p.g, ks, st, |p.g.nodes|).mem;
    var inputs := Elems(subsets[k].inputTensors);
    forall t | t in inputs && 0 <= t < |fin| ensures box.mem[t] == fin[t] {
      BoxInput(p, es, subsets, k, t);
    }
    BoxSupplied(p, es, subsets, k);
    ScheduleAt(DagOf(p), es, k);
    EpochInTurn(p.g, es, k);
    m' := RunAgrees(p, ks, st, Done(es[..k]), box, m, es[k], inputs);
    RunLength(p.g, ks, box, es[k]);
    MemLength(p.g, ks, st, |p.g.nodes|);
    forall t | t in subsets[k].outputTensors && 0 <= t < |fin| ensures Run(p.g, ks, box, es[k]).mem[t] == fin[t] {
      BoxOutput(p, es, subsets, k, t);
    }
  }

  lemma {:induction false} EpochInTurn(g: Graph, es: Epochs, k: nat)
    requires EffectsInTurn(g, {}, Flatten(es)) && k < |es|
    ensures EffectsInTurn(g, Done(es[..k]), es[k])
  {
    var l := |es| - 1;
    TurnsSplit(g, {}, Flatten(es[..l]), es[l]);
    if k < l {
      EpochInTurn(g, es[..l], k);
      assert es[..l][..k] == es[..k];
    } else {
      FlattenElems(es[..k]);
      assert {} + Elems(Flatten(es[..k])) == Done(es[..k]);
    }
  }

  lemma BoxInput(p: Problem, es: Epochs, subsets: seq<NodeSubset>, k: nat, t: int)
    requires ValidProblem(p) && ValidSchedule(DagOf(p), es) && Done(es) == AllNodes(DagOf(p))
    requires InterfacesExact(p.g, es, subsets) && k < |es| && t in subsets[k].inputTensors
    ensures t in Exported(p.g, subsets[..k])
  {
    InputsComeFromEarlier(p, es, subsets, k, t);
    if t in Unproduced(p.g) {
      UnproducedExported(p.g, subsets[..k]);
    } else {
      var e :| 0 <= e < k && t in subsets[e].outputTensors;
      ExportedMember(p.g, subsets[..k], e, t);
    }
  }

  lemma BoxOutput(p: Problem, es: Epochs, subsets: seq<NodeSubset>, k: nat, t: int)
    requires InterfacesExact(p.g, es, subsets) && k < |es| && t in subsets[k].outputTensors && 0 <= t < p.g.numTensors
    ensures t in WrittenSet(p.g, es[k])
  {
    assert t in subsets[k].outputTensors <==>
           WrittenBy(p.g, es[k], t) && (ReadElsewhere(p.g, es, k, t) || t in p.g.outputs);
  }

  /**
   Subsets are sound black boxes: if each subset sees only its declared inputs (and arbitrary junk
   elsewhere) and only its declared outputs survive it, the graph outputs, the world and the trace
   of side effects are still those of the original plan.
   */
  lemma SubsetsAreBlackBoxes<V, S>(
    p: Problem, greedily: bool, disableNodeFusion: bool, subsets: seq<NodeSubset>, es: Epochs,
    ks: Kernels<V, S>, st: State<V, S>, junk: (int, int) -> V)
    requires ValidProblem(p) && InPlanOrder(p.g) && |st.mem| == p.g.numTensors && KeepsEffects(p, greedily)
    requires IsPartitioning(p, greedily, disableNodeFusion, subsets, es)
    ensures var boxed, whole := RunBoxes(p.g, ks, st, subsets, junk), PlanRun(p.g, ks, st, |p.g.nodes|);
            && |boxed.mem| == |whole.mem| == p.g.numTensors
            && (forall o :: o in p.g.outputs ==> IsTensor(p.g, o) && boxed.mem[o] == whole.mem[o])
            && boxed.world == whole.world && boxed.trace == whole.trace
  {
    PartitioningKeepsTurns(p, greedily, disableNodeFusion, subsets, es);
    var m := BoxesAgree(p, ks, st, es, subsets, junk, |es|);
    assert subsets[..|es|] == subsets && es[..|es|] == es;
    MemLength(p.g, ks, st, |p.g.nodes|);
    DagIsValid(p);
    WorldAtEnd(p.g, ks, st, Done(es), RunBoxes(p.g, ks, st, subsets, junk), m);
    forall o | o in p.g.outputs ensures IsTensor(p.g, o) && o in Exported(p.g, subsets) {
      GraphOutputExported(p, es, subsets, o);
    }
  }

  lemma GraphOutputExported(p: Problem, es: Epochs, subsets: seq<NodeSubset>, o: int)
    requires ValidProblem(p) && Done(es) == AllNodes(DagOf(p)) && InterfacesExact(p.g, es, subsets) && o in p.g.outputs
    ensures IsTensor(p.g, o) && o in Exported(p.g, subsets)
  {
    var k :| 0 <= k < |p.g.outputs| && p.g.outputs[k] == o;
    if Produced(p.g, o) {
      var i :| Writes(p.g, i, o);
      DagIsValid(p);
      assert IsNode(DagOf(p), i) && i in Done(es);
      DoneMember(es, i);
      var e :| 0 <= e < |es| && i in es[e];
      assert WrittenBy(p.g, es[e], o);
      assert o in subsets[e].outputTensors;
      ExportedMember(p.g, subsets, e, o);
    } else {
      UnproducedExported(p.g, subsets);
    }
  }

  /**
   Whatever `PartitionGraphIntoIndependentNodeSubsets` returns without explicit control edges means the
   plan: as a sequence of subsets, and as a sequence of black boxes.
   */
  lemma ResultMeansThePlan<V, S>(
    info: Graph, nodesToPartition: seq<int>, greedily: bool, disableNodeFusion: bool, subsets: seq<NodeSubset>,
    ks: Kernels<V, S>, st: State<V, S>, junk: (int, int) -> V)
    requires IsResult(info, nodesToPartition, greedily, None, disableNodeFusion, subsets)
    requires InPlanOrder(info) && |st.mem| == info.numTensors
    ensures RunSubsets(info, ks, st, subsets) == PlanRun(info, ks, st, |info.nodes|)
    ensures var boxed, whole := RunBoxes(info, ks, st, subsets, junk), PlanRun(info, ks, st, |info.nodes|);
            && |boxed.mem| == |whole.mem| == info.numTensors
            && (forall o :: o in info.outputs ==> IsTensor(info, o) && boxed.mem[o] == whole.mem[o])
            && boxed.world == whole.world && boxed.trace == whole.trace
  {
    hide IsPartitioning, EffectiveEdges, ValidProblem, RunSubsets, RunBoxes, PlanRun;
    var edges: seq<Edge>, es: Epochs :|
      && EffectiveEdges(info, greedily, None, edges)
      && ValidProblem(Problem(info, nodesToPartition, edges))
      && IsPartitioning(Problem(info, nodesToPartition, edges), greedily, disableNodeFusion, subsets, es);
    var p := Problem(info, nodesToPartition, edges);
    PartitioningPreservesMeaning(p, greedily, disableNodeFusion, subsets, es, ks, st);
    SubsetsAreBlackBoxes(p, greedily, disableNodeFusion, subsets, es, ks, st, junk);
  }
}
