/**
 Schedules of a dependency graph in epochs of one kind, independent of how they were found.
 The theorems here hold of every schedule of the stated shape; `Partitioner` shows that the
 code produces such schedules.
 */
module Schedules {
  import opened Common

  /** `NodeSubset::Type`. */
  datatype NodeType = Unexplored | Partitioned | NonPartitioned

  /** Node `i` has kind `kind[i]` and has to wait for all of `preds[i]`. */
  datatype Dag = Dag(preds: seq<set<int>>, kind: seq<NodeType>)

  predicate IsNode(d: Dag, i: int) { 0 <= i < |d.preds| && i < |d.kind| }

  ghost predicate ValidDag(d: Dag) {
    && |d.kind| == |d.preds|
    && (forall i :: IsNode(d, i) ==> d.kind[i] == Partitioned || d.kind[i] == NonPartitioned)
    && (forall i, j :: IsNode(d, i) && j in d.preds[i] ==> IsNode(d, j))
  }

  function AllNodes(d: Dag): set<int> {
    set i | 0 <= i < |d.preds| && IsNode(d, i)
  }

  predicate KindIs(d: Dag, i: int, t: NodeType) { IsNode(d, i) && d.kind[i] == t }

  /** Node `i` has not run and everything it depends on has. */
  predicate CanRun(d: Dag, done: set<int>, i: int) {
    IsNode(d, i) && i !in done && d.preds[i] <= done
  }

  /** Epochs: each a sequence of plan positions. */
  type Epochs = seq<seq<int>>

  /** All nodes scheduled in `es`. */
  function Done(es: Epochs): set<int> {
    if es == [] then {} else Done(es[..|es| - 1]) + Elems(es[|es| - 1])
  }

  /** The execution order that the epochs prescribe. */
  function Flatten(es: Epochs): seq<int> {
    if es == [] then [] else Flatten(es[..|es| - 1]) + es[|es| - 1]
  }

  /** `s` lists new nodes, each able to run once `done` and its predecessors in `s` have run. */
  predicate Runnable(d: Dag, done: set<int>, s: seq<int>) {
    s == [] ||
    var k := |s| - 1;
    Runnable(d, done, s[..k]) && CanRun(d, done + Elems(s[..k]), s[k])
  }

  /** Every epoch can run after the epochs before it. */
  predicate ValidSchedule(d: Dag, es: Epochs) {
    es == [] ||
    var k := |es| - 1;
    ValidSchedule(d, es[..k]) && Runnable(d, Done(es[..k]), es[k])
  }

  predicate AllOfKind(d: Dag, s: seq<int>, t: NodeType) {
    forall x :: x in s ==> KindIs(d, x, t)
  }

  /** Every epoch is nonempty and of one kind. */
  predicate SingleTyped(d: Dag, es: Epochs) {
    es == [] ||
    var k := |es| - 1;
    && SingleTyped(d, es[..k])
    && es[k] != [] && IsNode(d, es[k][0]) && AllOfKind(d, es[k], d.kind[es[k][0]])
  }

  /** No node of kind `t` can run after `done`. */
  ghost predicate NoneLeft(d: Dag, done: set<int>, t: NodeType) {
    forall i :: KindIs(d, i, t) ==> !CanRun(d, done, i)
  }

  /** Greedy clustering: when an epoch ends, no node of its kind could still join it. */
  ghost predicate Greedy(d: Dag, es: Epochs) {
    es == [] ||
    var k := |es| - 1;
    && Greedy(d, es[..k])
    && es[k] != [] && IsNode(d, es[k][0]) && NoneLeft(d, Done(es), d.kind[es[k][0]])
  }

  /** Every epoch opens with the first node of the plan that can run. */
  ghost predicate OpensWithFirstReady(d: Dag, es: Epochs) {
    es == [] ||
    var k := |es| - 1;
    && OpensWithFirstReady(d, es[..k])
    && es[k] != [] && (forall i :: 0 <= i < es[k][0] ==> !CanRun(d, Done(es[..k]), i))
  }

  /** The traversal is over: nothing can run any more. */
  ghost predicate Exhausted(d: Dag, es: Epochs) {
    forall i :: IsNode(d, i) ==> !CanRun(d, Done(es), i)
  }

  // ---------------------------------------------------------------- basic facts

  lemma Snoc(es: Epochs, s: seq<int>)
    ensures (es + [s])[..|es|] == es
    ensures Done(es + [s]) == Done(es) + Elems(s)
    ensures Flatten(es + [s]) == Flatten(es) + s
  {
    assert (es + [s])[..|es|] == es;
  }

  lemma {:induction false} DoneMonotone(es: Epochs, a: nat, b: nat)
    requires a <= b <= |es|
    ensures Done(es[..a]) <= Done(es[..b])
    decreases b - a
  {
    if a < b {
      DoneMonotone(es, a, b - 1);
      assert es[..b][..b - 1] == es[..b - 1];
    }
  }

  lemma {:induction false} DoneMember(es: Epochs, x: int)
    ensures x in Done(es) <==> exists e :: 0 <= e < |es| && x in es[e]
  {
    if es != [] {
      var init := es[..|es| - 1];
      DoneMember(init, x);
      if x in Done(init) {
        var e :| 0 <= e < |init| && x in init[e];
        assert x in es[e];
      }
      if e :| 0 <= e < |es| && x in es[e] {
        if e < |init| { assert x in init[e]; }
      }
    }
  }

  lemma {:induction false} FlattenElems(es: Epochs)
    ensures Elems(Flatten(es)) == Done(es)
  {
    if es != [] {
      FlattenElems(es[..|es| - 1]);
    }
  }

  lemma {:induction false} RunnableConcat(d: Dag, done: set<int>, a: seq<int>, b: seq<int>)
    requires Runnable(d, done, a) && Runnable(d, done + Elems(a), b)
    ensures Runnable(d, done, a + b)
  {
    if b == [] {
      assert a + b == a;
    } else {
      hide Runnable, CanRun, Elems;
      var k := |b| - 1;
      RunnableInit(d, done + Elems(a), b);
      RunnableConcat(d, done, a, b[..k]);
      ElemsAppend(done, a, b[..k]);
      RunnableSnoc(d, done, a + b[..k], b[k]);
      LastApart(a, b);
    }
  }

  lemma ElemsAppend(done: set<int>, a: seq<int>, b: seq<int>)
    ensures done + Elems(a + b) == done + Elems(a) + Elems(b)
  {
  }

  lemma RunnableInit(d: Dag, done: set<int>, s: seq<int>)
    requires Runnable(d, done, s) && s != []
    ensures var k := |s| - 1; Runnable(d, done, s[..k]) && CanRun(d, done + Elems(s[..k]), s[k])
  {
  }

  lemma RunnableSnoc(d: Dag, done: set<int>, s: seq<int>, x: int)
    requires Runnable(d, done, s) && CanRun(d, done + Elems(s), x)
    ensures Runnable(d, done, s + [x])
  {
    assert (s + [x])[..|s|] == s;
  }

  /** Running the epochs one after the other is running one dependency-respecting order. */
  lemma {:induction false} FlattenRunnable(d: Dag, es: Epochs)
    requires ValidSchedule(d, es)
    ensures Runnable(d, {}, Flatten(es))
  {
    if es != [] {
      var k := |es| - 1;
      FlattenRunnable(d, es[..k]);
      FlattenElems(es[..k]);
      assert {} + Elems(Flatten(es[..k])) == Done(es[..k]);
      RunnableConcat(d, {}, Flatten(es[..k]), es[k]);
    }
  }

  lemma {:induction false} RunnableAt(d: Dag, done: set<int>, s: seq<int>, k: nat)
    requires Runnable(d, done, s) && k < |s|
    ensures CanRun(d, done + Elems(s[..k]), s[k])
    ensures Runnable(d, done, s[..k])
    ensures s[k] !in s[..k]
  {
    var l := |s| - 1;
    if k < l {
      RunnableAt(d, done, s[..l], k);
      assert s[..l][..k] == s[..k];
    }
    assert s[k] !in Elems(s[..k]);
  }

  lemma {:induction false} DoneInRange(d: Dag, es: Epochs)
    requires ValidSchedule(d, es)
    ensures Done(es) <= AllNodes(d)
  {
    if es != [] {
      var k := |es| - 1;
      DoneInRange(d, es[..k]);
      forall x | x in Elems(es[k]) ensures x in AllNodes(d) {
        var j :| 0 <= j < |es[k]| && es[k][j] == x;
        RunnableAt(d, Done(es[..k]), es[k], j);
      }
    }
  }

  lemma {:induction false} PrefixGreedy(d: Dag, es: Epochs, e: nat)
    requires ValidSchedule(d, es) && SingleTyped(d, es) && Greedy(d, es) && e <= |es|
    ensures ValidSchedule(d, es[..e]) && SingleTyped(d, es[..e]) && Greedy(d, es[..e])
  {
    if e < |es| {
      PrefixGreedy(d, es[..|es| - 1], e);
      assert es[..|es| - 1][..e] == es[..e];
    } else {
      assert es[..e] == es;
    }
  }

  // ---------------------------------------------------------------- everything is scheduled

  /** The dependencies have no cycle: some ranking of the nodes increases along every one. */
  ghost predicate Acyclic(d: Dag) {
    exists rank: seq<int> :: RankedBy(d, rank)
  }

  ghost predicate RankedBy(d: Dag, rank: seq<int>) {
    && |rank| == |d.preds|
    && (forall i, j :: IsNode(d, i) && j in d.preds[i] ==> IsNode(d, j) && rank[j] < rank[i])
  }

  lemma {:induction false} LeastRanked(rank: seq<int>, left: set<int>) returns (m: int)
    requires left != {}
    requires forall i :: i in left ==> 0 <= i < |rank|
    ensures m in left && forall i :: i in left ==> rank[m] <= rank[i]
    decreases |left|
  {
    assert (forall i :: i !in left) ==> left == {};
    m :| m in left;
    var rest := left - {m};
    if rest != {} {
      var m' := LeastRanked(rank, rest);
      if rank[m'] < rank[m] { m := m'; }
    } else {
      assert left == {m};
    }
  }

  function PositionOf(s: seq<int>, x: int): int {
    if s == [] then 0 else if s[0] == x then 0 else 1 + PositionOf(s[1..], x)
  }

  lemma {:induction false} PositionOfIs(s: seq<int>, k: nat)
    requires k < |s| && s[k] !in s[..k]
    ensures PositionOf(s, s[k]) == k
  {
    if k > 0 {
      assert s[..k][0] == s[0];
      assert s[..k] == [s[0]] + s[1..][..k - 1];
      PositionOfIs(s[1..], k - 1);
    }
  }

  lemma PositionsRank(d: Dag, order: seq<int>, i: int, j: int)
    requires Runnable(d, {}, order) && IsNode(d, i) && i in order && j in d.preds[i]
    ensures PositionOf(order, j) < PositionOf(order, i)
  {
    var k :| 0 <= k < |order| && order[k] == i;
    RunnableAt(d, {}, order, k);
    assert j in Elems(order[..k]);
    var l :| 0 <= l < k && order[l] == j;
    RunnableAt(d, {}, order, l);
    PositionOfIs(order, k);
    PositionOfIs(order, l);
  }

  lemma CompleteWhenAcyclic(d: Dag, es: Epochs, rank: seq<int>)
    requires ValidDag(d) && ValidSchedule(d, es) && Exhausted(d, es) && RankedBy(d, rank)
    ensures AllNodes(d) <= Done(es)
  {
    var left := AllNodes(d) - Done(es);
    forall x | x in AllNodes(d) ensures x in Done(es) {
      if x !in Done(es) {
        assert x in left;
        var m := LeastRanked(rank, left);
        assert IsNode(d, m) && !CanRun(d, Done(es), m);
        forall j | j in d.preds[m] ensures j in Done(es) {
          assert IsNode(d, j) && rank[j] < rank[m];
          assert j in AllNodes(d);
          assert j !in left;
        }
        assert false;
      }
    }
  }

  lemma AcyclicWhenComplete(d: Dag, es: Epochs)
    requires ValidDag(d) && ValidSchedule(d, es) && Done(es) == AllNodes(d)
    ensures Acyclic(d)
  {
    var order := Flatten(es);
    FlattenRunnable(d, es);
    FlattenElems(es);
    var rank := seq(|d.preds|, i => PositionOf(order, i));
    forall i, j | IsNode(d, i) && j in d.preds[i] ensures IsNode(d, j) && rank[j] < rank[i] {
      assert i in Elems(order);
      PositionsRank(d, order, i, j);
    }
    assert RankedBy(d, rank);
  }

  /**
   The traversal stops when nothing more can run.  It has then scheduled every node
   if and only if the data and control dependencies together are acyclic.
   */
  lemma CompleteIffAcyclic(d: Dag, es: Epochs)
    requires ValidDag(d) && ValidSchedule(d, es) && Exhausted(d, es)
    ensures Done(es) == AllNodes(d) <==> Acyclic(d)
  {
    DoneInRange(d, es);
    if Acyclic(d) {
      var rank :| RankedBy(d, rank);
      CompleteWhenAcyclic(d, es, rank);
    }
    if Done(es) == AllNodes(d) {
      AcyclicWhenComplete(d, es);
    }
  }

  // ---------------------------------------------------------------- greedy clustering is optimal

  function KindOf(d: Dag, es: Epochs, e: nat): NodeType
  {
    if e < |es| && es[e] != [] && IsNode(d, es[e][0]) then d.kind[es[e][0]] else Unexplored
  }

  /** Consecutive epochs of a greedy schedule differ in kind. */
  lemma ConsecutiveTypesDiffer(d: Dag, es: Epochs, e: nat)
    requires ValidSchedule(d, es) && SingleTyped(d, es) && Greedy(d, es) && e + 1 < |es|
    ensures KindOf(d, es, e) != KindOf(d, es, e + 1)
  {
    PrefixGreedy(d, es, e + 2);
    PrefixGreedy(d, es, e + 1);
    assert es[..e + 2][..e + 1] == es[..e + 1];
    var x := es[e + 1][0];
    RunnableAt(d, Done(es[..e + 1]), es[e + 1], 0);
    assert Done(es[..e + 1]) + Elems(es[e + 1][..0]) == Done(es[..e + 1]);
  }

  function Other(t: NodeType): NodeType {
    if t == Partitioned then NonPartitioned else Partitioned
  }

  /** The kind greedy epoch number `e` has, counting past the end as well. */
  function EpochKind(first: NodeType, e: nat): NodeType {
    if e % 2 == 0 then first else Other(first)
  }

  /** The kinds of successive epochs alternate. */
  lemma EpochKindsAlternate(first: NodeType, e: nat, t: NodeType)
    requires (first == Partitioned || first == NonPartitioned) && (t == Partitioned || t == NonPartitioned)
    ensures EpochKind(first, 0) == first
    ensures e > 0 && t != EpochKind(first, e) ==> t == EpochKind(first, e - 1)
  {
  }

  lemma KindIsProper(d: Dag, es: Epochs, e: nat)
    requires ValidDag(d) && ValidSchedule(d, es) && SingleTyped(d, es) && Greedy(d, es) && e < |es|
    ensures KindOf(d, es, e) == Partitioned || KindOf(d, es, e) == NonPartitioned
  {
    PrefixGreedy(d, es, e + 1);
  }

  lemma {:induction false} EpochKinds(d: Dag, es: Epochs, e: nat)
    requires ValidDag(d) && ValidSchedule(d, es) && SingleTyped(d, es) && Greedy(d, es) && e < |es|
    ensures KindOf(d, es, e) == EpochKind(KindOf(d, es, 0), e)
  {
    KindIsProper(d, es, e);
    if e > 0 {
      KindIsProper(d, es, 0);
      KindIsProper(d, es, e - 1);
      EpochKinds(d, es, e - 1);
      ConsecutiveTypesDiffer(d, es, e - 1);
    }
  }

  /** The batches of a competing schedule have the declared kinds. */
  predicate BatchKinds(d: Dag, bs: Epochs, types: seq<NodeType>) {
    && |bs| == |types|
    && (bs != [] ==>
          var k := |bs| - 1;
          && BatchKinds(d, bs[..k], types[..k])
          && AllOfKind(d, bs[k], types[k])
          && (types[k] == Partitioned || types[k] == NonPartitioned))
  }

  /** What a schedule has done after `e` epochs, everything once it is over. */
  function DoneAfter(es: Epochs, e: nat): set<int> {
    if e <= |es| then Done(es[..e]) else Done(es)
  }

  lemma DoneAfterMonotone(es: Epochs, a: nat, b: nat)
    requires a <= b
    ensures DoneAfter(es, a) <= DoneAfter(es, b)
  {
    assert es[..|es|] == es;
    if a <= |es| { DoneMonotone(es, a, if b <= |es| then b else |es|); }
  }

  /** Where no node of kind `t` is left, every runnable list of such nodes is already done. */
  lemma {:induction false} NoneLeftAbsorbs(d: Dag, target: set<int>, t: NodeType, have: set<int>, s: seq<int>)
    requires NoneLeft(d, target, t)
    requires Runnable(d, have, s) && have <= target && AllOfKind(d, s, t)
    ensures have + Elems(s) <= target
  {
    if s != [] {
      var k := |s| - 1;
      NoneLeftAbsorbs(d, target, t, have, s[..k]);
      assert s[k] in s && KindIs(d, s[k], t);
      assert d.preds[s[k]] <= target;
      assert s == s[..k] + [s[k]];
    }
  }

  /** The greedy epoch number `e`, real or past the end, leaves no node of its kind. */
  lemma EpochLeavesNone(d: Dag, es: Epochs, e: nat)
    requires ValidDag(d) && ValidSchedule(d, es) && SingleTyped(d, es) && Greedy(d, es)
    requires Done(es) == AllNodes(d)
    ensures NoneLeft(d, DoneAfter(es, e + 1), EpochKind(KindOf(d, es, 0), e))
  {
    if e < |es| {
      PrefixGreedy(d, es, e + 1);
      EpochKinds(d, es, e);
    } else {
      forall i | KindIs(d, i, EpochKind(KindOf(d, es, 0), e)) ensures !CanRun(d, DoneAfter(es, e + 1), i) {
        assert i in AllNodes(d);
      }
    }
  }

  /** A batch of the kind of greedy epoch `e` adds nothing to what the greedy schedule has done by then. */
  lemma BatchAbsorbed(d: Dag, es: Epochs, e: nat, t: NodeType, have: set<int>, s: seq<int>)
    requires ValidDag(d) && ValidSchedule(d, es) && SingleTyped(d, es) && Greedy(d, es) && Done(es) == AllNodes(d)
    requires t == EpochKind(KindOf(d, es, 0), e) && have <= DoneAfter(es, e + 1)
    requires Runnable(d, have, s) && AllOfKind(d, s, t)
    ensures have + Elems(s) <= DoneAfter(es, e + 1)
  {
    hide ValidDag, ValidSchedule, SingleTyped, Greedy, Done, DoneAfter, Runnable, AllOfKind, KindOf, EpochKind,
      NoneLeft, AllNodes;
    EpochLeavesNone(d, es, e);
    NoneLeftAbsorbs(d, DoneAfter(es, e + 1), t, have, s);
  }

  lemma LastBatch(d: Dag, bs: Epochs, types: seq<NodeType>)
    requires ValidSchedule(d, bs) && BatchKinds(d, bs, types) && bs != []
    ensures var k := |bs| - 1;
            && ValidSchedule(d, bs[..k]) && BatchKinds(d, bs[..k], types[..k]) && Runnable(d, Done(bs[..k]), bs[k])
            && AllOfKind(d, bs[k], types[k]) && Done(bs) == Done(bs[..k]) + Elems(bs[k])
            && (types[k] == Partitioned || types[k] == NonPartitioned)
  {
  }

  /**
   After `b` batches of any competing schedule that opens with the same kind, greedy clustering
   is at least as far after `b` epochs; it is a full epoch ahead when the last batch has the
   kind of the epoch before.
   */
  lemma {:induction false} GreedyStaysAhead(d: Dag, es: Epochs, bs: Epochs, types: seq<NodeType>)
    requires ValidDag(d) && ValidSchedule(d, es) && SingleTyped(d, es) && Greedy(d, es)
    requires Done(es) == AllNodes(d)
    requires ValidSchedule(d, bs) && BatchKinds(d, bs, types)
    requires bs != [] && es != [] && types[0] == KindOf(d, es, 0)
    ensures types[|bs| - 1] == EpochKind(types[0], |bs| - 1) ==> Done(bs) <= DoneAfter(es, |bs|)
    ensures types[|bs| - 1] != EpochKind(types[0], |bs| - 1) ==> Done(bs) <= DoneAfter(es, |bs| - 1)
  {
    assert |types| == |bs|;
    hide ValidDag, ValidSchedule, SingleTyped, Greedy, Done, DoneAfter, Runnable, AllOfKind, KindOf, BatchKinds,
      AllNodes, EpochKind;
    var k := |bs| - 1;
    var have, t := Done(bs[..k]), types[k];
    LastBatch(d, bs, types);
    if k > 0 {
      GreedyStaysAhead(d, es, bs[..k], types[..k]);
      DoneAfterMonotone(es, k - 1, k);
    } else {
      NothingDone(bs);
    }
    assert have <= DoneAfter(es, k);
    KindIsProper(d, es, 0);
    EpochKindsAlternate(types[0], k, t);
    if t == EpochKind(types[0], k) {
      DoneAfterMonotone(es, k, k + 1);
      BatchAbsorbed(d, es, k, t, have, bs[k]);
    } else {
      BatchAbsorbed(d, es, k - 1, t, have, bs[k]);
    }
  }

  lemma NothingDone(bs: Epochs)
    ensures Done(bs[..0]) == {}
  {
  }

  lemma PrefixIncomplete(d: Dag, es: Epochs, e: nat)
    requires ValidSchedule(d, es) && SingleTyped(d, es) && Greedy(d, es) && e < |es|
    ensures !(AllNodes(d) <= Done(es[..e]))
  {
    PrefixGreedy(d, es, e + 1);
    assert es[..e + 1][..e] == es[..e];
    RunnableAt(d, Done(es[..e]), es[e], 0);
    assert es[e][0] in AllNodes(d);
  }

  lemma GreedyOptimalSameStart(d: Dag, es: Epochs, bs: Epochs, types: seq<NodeType>)
    requires ValidDag(d) && ValidSchedule(d, es) && SingleTyped(d, es) && Greedy(d, es)
    requires Done(es) == AllNodes(d)
    requires ValidSchedule(d, bs) && BatchKinds(d, bs, types) && Done(bs) == AllNodes(d)
    requires bs != [] && types[0] == KindOf(d, es, 0)
    ensures |es| <= |bs|
  {
    hide ValidDag, ValidSchedule, SingleTyped, Greedy, Done, KindOf, BatchKinds, AllNodes, EpochKind;
    if |bs| < |es| {
      GreedyStaysAhead(d, es, bs, types);
      DoneAfterMonotone(es, |bs| - 1, |bs|);
      PrefixIncomplete(d, es, |bs|);
    }
  }

  lemma {:induction false} PrependEmpty(d: Dag, bs: Epochs)
    requires ValidSchedule(d, bs)
    ensures ValidSchedule(d, [[]] + bs) && Done([[]] + bs) == Done(bs)
  {
    hide CanRun;
    var bs', k := [[]] + bs, |bs|;
    if k == 0 {
      assert bs' == [[]] && bs'[..0] == [];
    } else {
      PrependEmpty(d, bs[..k - 1]);
      assert bs'[..k] == [[]] + bs[..k - 1];
    }
  }

  lemma {:induction false} PrependKind(d: Dag, bs: Epochs, t: NodeType, types: seq<NodeType>)
    requires BatchKinds(d, bs, types) && (t == Partitioned || t == NonPartitioned)
    ensures BatchKinds(d, [[]] + bs, [t] + types)
  {
    var bs', types', k := [[]] + bs, [t] + types, |bs|;
    if k == 0 {
      assert bs' == [[]] && bs'[..0] == [] && types'[..0] == [];
    } else {
      PrependKind(d, bs[..k - 1], t, types[..k - 1]);
      assert bs'[..k] == [[]] + bs[..k - 1];
      assert types'[..k] == [t] + types[..k - 1];
    }
  }

  /**
   Delegate clustering minimises the number of epochs: no dependency-respecting schedule in
   single-kind batches that opens with the same kind is shorter, and a schedule that opens with
   the other kind saves at most one batch.
   */
  lemma GreedyIsOptimal(d: Dag, es: Epochs, bs: Epochs, types: seq<NodeType>)
    requires ValidDag(d) && ValidSchedule(d, es) && SingleTyped(d, es) && Greedy(d, es)
    requires Done(es) == AllNodes(d)
    requires ValidSchedule(d, bs) && BatchKinds(d, bs, types) && Done(bs) == AllNodes(d)
    ensures |es| <= |bs| + 1
    ensures bs != [] && types[0] == KindOf(d, es, 0) ==> |es| <= |bs|
  {
    if es != [] {
      if bs != [] && types[0] == KindOf(d, es, 0) {
        GreedyOptimalSameStart(d, es, bs, types);
      } else {
        var bs', types' := [[]] + bs, [KindOf(d, es, 0)] + types;
        KindIsProper(d, es, 0);
        PrependEmpty(d, bs);
        PrependKind(d, bs, KindOf(d, es, 0), types);
        GreedyOptimalSameStart(d, es, bs', types');
      }
    }
  }

  // ---------------------------------------------------------------- non-greedy runs

  function Interval(a: int, b: int): seq<int>
    requires a <= b
  {
    seq(b - a, k requires 0 <= k => a + k)
  }

  /** `es` covers `[0, upTo)` by consecutive intervals, each a maximal run of one kind. */
  ghost predicate MaximalRuns(d: Dag, es: Epochs, upTo: int) {
    if es == [] then upTo == 0
    else
      var last := es[|es| - 1];
      var start := upTo - |last|;
      && 0 <= start < upTo <= |d.preds|
      && last == Interval(start, upTo)
      && IsNode(d, start) && AllOfKind(d, last, d.kind[start])
      && (IsNode(d, upTo) ==> d.kind[upTo] != d.kind[start])
      && MaximalRuns(d, es[..|es| - 1], start)
  }

  /** Maximal runs keep the original execution order. */
  lemma {:induction false} RunsKeepPlanOrder(d: Dag, es: Epochs, upTo: int)
    requires MaximalRuns(d, es, upTo)
    ensures 0 <= upTo && Flatten(es) == Interval(0, upTo)
  {
    if es != [] {
      var last := es[|es| - 1];
      RunsKeepPlanOrder(d, es[..|es| - 1], upTo - |last|);
    }
  }

  /** Consecutive maximal runs differ in kind. */
  lemma {:induction false} RunsAlternate(d: Dag, es: Epochs, upTo: int, e: nat)
    requires MaximalRuns(d, es, upTo) && e + 1 < |es|
    ensures KindOf(d, es, e) != KindOf(d, es, e + 1)
  {
    var k := |es| - 1;
    var start := upTo - |es[k]|;
    if e + 1 < k {
      RunsAlternate(d, es[..k], start, e);
    } else {
      var before := es[k - 1];
      assert es[..k][|es[..k]| - 1] == before;
      assert before[0] == start - |before| && es[k][0] == start;
    }
  }

  // ---------------------------------------------------------------- plan order

  /** All dependencies point backwards in the plan. */
  ghost predicate ForwardDag(d: Dag) {
    forall i, j :: IsNode(d, i) && j in d.preds[i] ==> 0 <= j < i
  }

  /** If a schedule is plan order, every node depends on earlier ones only. */
  lemma PlanOrderIsForward(d: Dag, es: Epochs)
    requires ValidDag(d) && ValidSchedule(d, es) && Flatten(es) == Interval(0, |d.preds|)
    ensures ForwardDag(d)
  {
    FlattenRunnable(d, es);
    var order := Flatten(es);
    forall i, j | IsNode(d, i) && j in d.preds[i] ensures 0 <= j < i {
      RunnableAt(d, {}, order, i);
      assert j in Elems(order[..i]);
      var l :| 0 <= l < i && order[l] == j;
    }
  }

  /** One node per epoch, each the first that can run: with forward dependencies this is plan order. */
  lemma {:induction false} UnfusedKeepsPlanOrder(d: Dag, es: Epochs)
    requires ValidDag(d) && ValidSchedule(d, es) && OpensWithFirstReady(d, es)
    requires forall e :: 0 <= e < |es| ==> |es[e]| == 1
    requires ForwardDag(d)
    ensures Flatten(es) == Interval(0, |es|) && |es| <= |d.preds|
  {
    if es != [] {
      var k := |es| - 1;
      UnfusedKeepsPlanOrder(d, es[..k]);
      FlattenElems(es[..k]);
      assert Done(es[..k]) == Elems(Interval(0, k));
      var x := es[k][0];
      RunnableAt(d, Done(es[..k]), es[k], 0);
      forall i ensures i in Done(es[..k]) <==> 0 <= i < k {
        if 0 <= i < k { assert Interval(0, k)[i] == i; }
      }
      assert IsNode(d, k) ==> CanRun(d, Done(es[..k]), k);
      assert x == k;
      assert es[k] == [k];
    }
  }

  // ---------------------------------------------------------------- the saved batch is real

  const SAMPLE := Dag([{}, {}, {1}], [NonPartitioned, Partitioned, NonPartitioned])

  lemma SampleGreedy()
    ensures var es := [[0], [1], [2]];
            && ValidSchedule(SAMPLE, es) && SingleTyped(SAMPLE, es) && Greedy(SAMPLE, es)
            && OpensWithFirstReady(SAMPLE, es) && Done(es) == AllNodes(SAMPLE)
  {
    var d := SAMPLE;
    var e1, e2, e3 := [[0]], [[0], [1]], [[0], [1], [2]];
    assert e1[..0] == [] && e2[..1] == e1 && e3[..2] == e2;
    assert Done(e1) == {0} && Done(e2) == {0, 1} && Done(e3) == {0, 1, 2};
    assert AllNodes(d) == {0, 1, 2};
    assert [0][..0] == [] && [1][..0] == [] && [2][..0] == [];
    assert Runnable(d, {}, [0]) && Runnable(d, {0}, [1]) && Runnable(d, {0, 1}, [2]);
    assert ValidSchedule(d, e1) && ValidSchedule(d, e2);
    assert SingleTyped(d, e1) && SingleTyped(d, e2);
    assert Greedy(d, e1) && Greedy(d, e2);
    assert OpensWithFirstReady(d, e1) && OpensWithFirstReady(d, e2);
  }

  lemma SampleShorter()
    ensures var bs, types := [[1], [0, 2]], [Partitioned, NonPartitioned];
            ValidSchedule(SAMPLE, bs) && BatchKinds(SAMPLE, bs, types) && Done(bs) == AllNodes(SAMPLE)
  {
    var d := SAMPLE;
    var b1, b2, types := [[1]], [[1], [0, 2]], [Partitioned, NonPartitioned];
    assert b1[..0] == [] && b2[..1] == b1 && types[..1] == [Partitioned] && types[..1][..0] == [];
    assert Elems([0]) == {0} && Elems([0, 2]) == {0, 2};
    assert Done(b1) == {1} && Done(b2) == {0, 1, 2};
    assert AllNodes(d) == {0, 1, 2};
    assert [1][..0] == [] && [0][..0] == [] && [0, 2][..1] == [0];
    assert Runnable(d, {}, [1]) && Runnable(d, {1}, [0]) && Runnable(d, {1}, [0, 2]);
    assert ValidSchedule(d, b1);
    assert BatchKinds(d, b1, [Partitioned]);
  }

  /**
   The bound of `GreedyIsOptimal` is tight: in `SAMPLE` node 2 depends on node 1, and the first node
   that can run opens the wrong kind.  Greedy clustering takes three epochs where two batches do.
   */
  lemma OneBatchCanBeSaved() returns (d: Dag, es: Epochs, bs: Epochs, types: seq<NodeType>)
    ensures ValidDag(d) && ValidSchedule(d, es) && SingleTyped(d, es) && Greedy(d, es)
    ensures OpensWithFirstReady(d, es) && Done(es) == AllNodes(d)
    ensures ValidSchedule(d, bs) && BatchKinds(d, bs, types) && Done(bs) == AllNodes(d)
    ensures |es| == |bs| + 1
  {
    SampleGreedy();
    SampleShorter();
    d, es, bs, types := SAMPLE, [[0], [1], [2]], [[1], [0, 2]], [Partitioned, NonPartitioned];
    hide ValidSchedule, SingleTyped, Greedy, OpensWithFirstReady, Done, BatchKinds, AllNodes;
  }
}
