/**
 Locking the mutexes of training variables (`kernels_experimental.cc`): each kernel looks its variables
 up, taking a reference to each, deduplicates their mutexes, sorts them by address, takes them in that
 order, exclusively or shared, and gives locks and references back when it is done.  Any number of threads
 may do so at the same time, while variables are removed from the resource manager.
 */
module VariableLocks {
  import opened Common
  import opened Ordering

  /**
   An input of the kernel: the address of its mutex (0 for none, or for a variable that is gone) and
   whether it is a resource.  The mutex is a part of the variable, so its address stands for the variable.
   */
  datatype Input = Input(mutex: nat, isResource: bool)

  ghost predicate Ascending(s: seq<nat>) {
    forall i, j :: 0 <= i < j < |s| ==> s[i] < s[j]
  }

  ghost predicate Distinct(s: seq<nat>) {
    forall i, j :: 0 <= i < j < |s| ==> s[i] != s[j]
  }

  ghost predicate SortedByKey(key: seq<nat>, order: seq<nat>) {
    && (forall k :: 0 <= k < |order| ==> order[k] < |key|)
    && (forall i, j :: 0 <= i < j < |order| ==> key[order[i]] < key[order[j]])
  }

  lemma InsertKeepsOrder(key: seq<nat>, order: seq<nat>, k: nat, n: nat)
    requires SortedByKey(key, order) && k <= |order| && n < |key|
    requires forall i :: 0 <= i < k ==> key[order[i]] < key[n]
    requires forall i :: k <= i < |order| ==> key[n] < key[order[i]]
    ensures SortedByKey(key, Inserted<nat>(order, k, n))
  {
    var r := Inserted<nat>(order, k, n);
    forall j | 0 <= j < |r| ensures r[j] == if j < k then order[j] else if j == k then n else order[j - 1] {
    }
  }

  lemma InsertMembers(order: seq<nat>, k: nat, n: nat, p: nat)
    requires k <= |order|
    ensures p in Inserted<nat>(order, k, n) <==> p in order || p == n
  {
    assert order == order[..k] + order[k..];
  }

  /** Everything from `k` on has a higher key than position `n`. */
  lemma HigherFrom(key: seq<nat>, order: seq<nat>, k: nat, n: nat)
    requires SortedByKey(key, order) && Distinct(key) && k <= |order| && n < |key| && n !in order
    requires k < |order| ==> key[n] <= key[order[k]]
    ensures forall i :: k <= i < |order| ==> key[n] < key[order[i]]
  {
    forall i | k <= i < |order| ensures key[n] < key[order[i]] {
      assert order[i] in order;
      assert key[order[i]] != key[n];
      assert k < i ==> key[order[k]] < key[order[i]];
    }
  }

  ghost predicate Covers(order: seq<nat>, n: nat) {
    forall p: nat :: p < n <==> p in order
  }

  /** Positions `0..n` in the order of their keys (`std::sort` with a comparator). */
  method SortPositions(key: seq<nat>) returns (order: seq<nat>)
    requires Distinct(key)
    ensures SortedByKey(key, order)
    ensures Covers(order, |key|)
  {
    hide Distinct, Inserted;
    order := [];
    for n := 0 to |key|
      invariant SortedByKey(key, order)
      invariant Covers(order, n)
    {
      var k := 0;
      while k < |order| && key[order[k]] < key[n]
        invariant 0 <= k <= |order|
        invariant forall i :: 0 <= i < k ==> key[order[i]] < key[n]
      {
        k := k + 1;
      }
      HigherFrom(key, order, k, n);
      InsertKeepsOrder(key, order, k, n);
      forall p: nat ensures p in Inserted<nat>(order, k, n) <==> p in order || p == n {
        InsertMembers(order, k, n, p);
      }
      order := Inserted<nat>(order, k, n);
    }
  }

  /** The variables that looking up the first `n` inputs takes a reference to, one for each lookup. */
  function Referenced(inputs: seq<Input>, n: nat): seq<nat>
    requires n <= |inputs|
  {
    if n == 0 then []
    else
      var x := inputs[n - 1];
      Referenced(inputs, n - 1) + (if x.isResource && x.mutex != 0 then [x.mutex] else [])
  }

  /** The positions among the first `n` at which the variable with mutex `m` is looked up. */
  function LookupsOf(inputs: seq<Input>, n: nat, m: nat): set<int> {
    set k | 0 <= k < n && k < |inputs| && inputs[k].isResource && inputs[k].mutex == m
  }

  lemma OneMoreLookup(inputs: seq<Input>, n: nat, m: nat)
    requires n < |inputs|
    ensures |LookupsOf(inputs, n + 1, m)|
            == |LookupsOf(inputs, n, m)| + if inputs[n].isResource && inputs[n].mutex == m then 1 else 0
  {
    assert LookupsOf(inputs, n + 1, m)
        == LookupsOf(inputs, n, m) + if inputs[n].isResource && inputs[n].mutex == m then {n as int} else {};
  }

  lemma OneMoreCounted(s: seq<nat>, x: nat, m: nat)
    ensures multiset(s + [x])[m] == multiset(s)[m] + if x == m then 1 else 0
  {
  }

  lemma NoneReferenced(inputs: seq<Input>, m: nat)
    ensures Referenced(inputs, 0) == [] && LookupsOf(inputs, 0, m) == {}
  {
  }

  lemma OneMoreReferenced(inputs: seq<Input>, n: nat)
    requires n < |inputs|
    ensures var x, s := inputs[n], Referenced(inputs, n);
            Referenced(inputs, n + 1) == if x.isResource && x.mutex != 0 then s + [x.mutex] else s
  {
  }

  /** One reference for each of them. */
  lemma {:induction false} ReferencedIs(inputs: seq<Input>, n: nat, m: nat)
    requires n <= |inputs|
    ensures multiset(Referenced(inputs, n))[m] == if m == 0 then 0 else |LookupsOf(inputs, n, m)|
  {
    hide LookupsOf, Referenced;
    if n > 0 {
      ReferencedIs(inputs, n - 1, m);
      OneMoreLookup(inputs, n - 1, m);
      OneMoreReferenced(inputs, n - 1);
      OneMoreCounted(Referenced(inputs, n - 1), inputs[n - 1].mutex, m);
    } else {
      NoneReferenced(inputs, m);
    }
  }

  lemma ReferencesCounted(inputs: seq<Input>)
    ensures 0 !in Referenced(inputs, |inputs|)
    ensures forall m: nat :: m != 0 ==>
              multiset(Referenced(inputs, |inputs|))[m]
              == |set k | 0 <= k < |inputs| && inputs[k].isResource && inputs[k].mutex == m|
  {
    hide Referenced;
    ReferencedIs(inputs, |inputs|, 0);
    assert 0 !in multiset(Referenced(inputs, |inputs|));
    forall m: nat | m != 0
      ensures multiset(Referenced(inputs, |inputs|))[m]
           == |set k | 0 <= k < |inputs| && inputs[k].isResource && inputs[k].mutex == m|
    {
      ReferencedIs(inputs, |inputs|, m);
      assert LookupsOf(inputs, |inputs|, m)
          == set k | 0 <= k < |inputs| && inputs[k].isResource && inputs[k].mutex == m;
    }
  }

  /** The loop that looks the inputs up: the mutexes found, each once, and a reference for each variable. */
  method LookUp(inputs: seq<Input>) returns (mutexes: seq<nat>, vars: seq<nat>)
    ensures Distinct(mutexes) && vars == Referenced(inputs, |inputs|)
    ensures forall m :: m in mutexes <==> exists j :: 0 <= j < |inputs| && inputs[j].mutex == m
  {
    mutexes, vars := [], [];
    for k := 0 to |inputs|
      invariant Distinct(mutexes) && vars == Referenced(inputs, k)
      invariant forall m :: m in mutexes <==> exists j :: 0 <= j < k && inputs[j].mutex == m
    {
      if inputs[k].isResource && inputs[k].mutex != 0 {
        vars := vars + [inputs[k].mutex];
      }
      if inputs[k].mutex !in mutexes {
        mutexes := mutexes + [inputs[k].mutex];
      }
    }
  }

  /** The loop that takes the locks: in the given order, without the null pointer. */
  method LocksInOrder(mutexes: seq<nat>, order: seq<nat>) returns (locks: seq<nat>)
    requires SortedByKey(mutexes, order)
    ensures Ascending(locks)
    ensures forall m :: m in locks <==> m != 0 && exists j :: 0 <= j < |order| && mutexes[order[j]] == m
  {
    locks := [];
    for k := 0 to |order|
      invariant Ascending(locks)
      invariant forall m :: m in locks ==> exists j :: 0 <= j < k && mutexes[order[j]] == m
      invariant forall m :: m in locks <==> m != 0 && exists j :: 0 <= j < k && mutexes[order[j]] == m
    {
      var mu := mutexes[order[k]];
      if mu != 0 {
        forall i | 0 <= i < |locks| ensures locks[i] < mu {
          assert locks[i] in locks;
          var j :| 0 <= j < k && mutexes[order[j]] == locks[i];
        }
        locks := locks + [mu];
      }
    }
  }

  lemma NothingAscends()
    ensures Ascending([])
  {
  }

  lemma OrderedMembers(mutexes: seq<nat>, order: seq<nat>)
    requires SortedByKey(mutexes, order) && Covers(order, |mutexes|)
    ensures forall j :: 0 <= j < |order| ==> order[j] < |mutexes|
    ensures forall m :: m in mutexes <==> exists j :: 0 <= j < |order| && mutexes[order[j]] == m
  {
    forall m ensures m in mutexes <==> exists j :: 0 <= j < |order| && mutexes[order[j]] == m {
      if m in mutexes {
        var p :| 0 <= p < |mutexes| && mutexes[p] == m;
        assert p in order;
      }
    }
  }

  /** The mutexes in the order in which the kernel locks them, and the variables it has references to. */
  method AcquireOrder(inputs: seq<Input>, doLock: bool) returns (locks: seq<nat>, vars: seq<nat>)
    ensures Ascending(locks)
    ensures doLock || (exists k :: 0 <= k < |inputs| && inputs[k].isResource) ==>
              && (forall m :: m in locks <==> m != 0 && exists k :: 0 <= k < |inputs| && inputs[k].mutex == m)
              && vars == Referenced(inputs, |inputs|) && 0 !in vars
              && (forall m: nat :: m != 0 ==>
                    multiset(vars)[m]
                    == |set k | 0 <= k < |inputs| && inputs[k].isResource && inputs[k].mutex == m|)
    ensures !doLock && (forall k :: 0 <= k < |inputs| ==> !inputs[k].isResource) ==> locks == [] && vars == []
  {
    hide Referenced, Distinct, Ascending, SortedByKey;
    var anyResource := false;
    for k := 0 to |inputs|
      invariant !anyResource && forall j :: 0 <= j < k ==> !inputs[j].isResource
    {
      if inputs[k].isResource {
        anyResource := true;
        break;
      }
    }
    if !doLock && !anyResource {
      NothingAscends();
      return [], [];
    }
    var mutexes;
    mutexes, vars := LookUp(inputs);
    ReferencesCounted(inputs);
    var order := SortPositions(mutexes);
    locks := LocksInOrder(mutexes, order);
    OrderedMembers(mutexes, order);
    forall m ensures m in locks <==> m != 0 && exists k :: 0 <= k < |inputs| && inputs[k].mutex == m {
      assert m in mutexes <==> exists k :: 0 <= k < |inputs| && inputs[k].mutex == m;
    }
  }

  // ---------------------------------------------------------------- the protocol

  /** What a kernel is at: input number `next`, lock number `acquired`, or giving everything back. */
  datatype Stage = Looking(next: nat) | Locking(acquired: nat) | Releasing

  /**
   A kernel invocation: its inputs, the mutexes it has found, the references it has taken, the mutexes to
   lock in that order, and those it holds.
   */
  datatype Thread = Thread(
    inputs: seq<Input>,
    exclusive: bool,
    stage: Stage,
    found: seq<nat>,
    refs: seq<nat>,
    want: seq<nat>,
    held: set<nat>)

  /**
   The variables that somebody outside keeps alive all the time (those behind reference inputs), those that
   the resource manager has a reference to, and the threads.
   */
  datatype State = State(pinned: set<nat>, registered: set<nat>, threads: seq<Thread>)

  predicate IsThread(s: State, i: int) { 0 <= i < |s.threads| }

  predicate Finished(t: Thread) { t.stage.Releasing? && t.held == {} && t.refs == [] }

  /** Somebody has a reference to the variable, so that it and its mutex exist. */
  ghost predicate Alive(s: State, m: nat) {
    m in s.pinned || m in s.registered || exists i :: IsThread(s, i) && m in s.threads[i].refs
  }

  /** Thread `t` is about to lock mutex `m`. */
  predicate WaitsFor(t: Thread, m: nat) {
    t.stage.Locking? && t.stage.acquired < |t.want| && t.want[t.stage.acquired] == m
  }

  /** No other holder gets in the way. */
  ghost predicate Free(s: State, exclusive: bool, m: nat) {
    forall j :: IsThread(s, j) && m in s.threads[j].held ==> !exclusive && !s.threads[j].exclusive
  }

  ghost predicate CanAcquire(s: State, i: int) {
    IsThread(s, i) && exists m :: WaitsFor(s.threads[i], m) && Free(s, s.threads[i].exclusive, m)
  }

  /** The lock may additionally turn readers away while a writer waits. */
  ghost predicate CanAcquireBehindWriters(s: State, i: int) {
    && IsThread(s, i)
    && exists m :: WaitsFor(s.threads[i], m) && Free(s, s.threads[i].exclusive, m)
                   && (!s.threads[i].exclusive ==>
                         forall j :: IsThread(s, j) && s.threads[j].exclusive ==> !WaitsFor(s.threads[j], m))
  }

  /** One lookup: it takes a reference, finds the variable gone, or gets the mutex of a reference input. */
  function Look(registered: set<nat>, t: Thread, x: Input): Thread
    requires t.stage.Looking?
  {
    var after := t.(stage := Looking(t.stage.next + 1));
    if !x.isResource then after.(found := t.found + [x.mutex])
    else if x.mutex in registered then after.(found := t.found + [x.mutex], refs := t.refs + [x.mutex])
    else after
  }

  /** The mutexes found, each once and in ascending order, without the null pointer. */
  ghost predicate InOrder(want: seq<nat>, found: seq<nat>) {
    Ascending(want) && forall m :: m in want <==> m != 0 && m in found
  }

  function Acquire(t: Thread): Thread
    requires t.stage.Locking? && t.stage.acquired < |t.want|
  {
    t.(stage := Locking(t.stage.acquired + 1), held := t.held + {t.want[t.stage.acquired]})
  }

  /** What is given back next is a lock: exclusive locks go before the references, shared locks after them. */
  predicate UnlocksNext(t: Thread) {
    t.stage.Releasing? && t.held != {} && (t.exclusive || t.refs == [])
  }

  predicate UnrefsNext(t: Thread) {
    t.stage.Releasing? && t.refs != [] && (t.exclusive ==> t.held == {})
  }

  /** Thread `i` becomes `t'` by one step. */
  ghost predicate Moves(s: State, i: int, t': Thread)
    requires IsThread(s, i)
  {
    var t := s.threads[i];
    || (t.stage.Looking? && t.stage.next < |t.inputs| && t' == Look(s.registered, t, t.inputs[t.stage.next]))
    || (t.stage.Looking? && t.stage.next >= |t.inputs| && InOrder(t'.want, t.found)
          && t' == t.(stage := Locking(0), want := t'.want))
    || (CanAcquire(s, i) && t' == Acquire(t))
    || (t.stage.Locking? && t.stage.acquired >= |t.want| && t' == t.(stage := Releasing))
    || (UnlocksNext(t) && exists m :: m in t.held && t' == t.(held := t.held - {m}))
    || (UnrefsNext(t) && t' == t.(refs := t.refs[1..]))
  }

  ghost predicate StepOf(s: State, s': State, i: int) {
    && IsThread(s, i) && IsThread(s', i) && Moves(s, i, s'.threads[i])
    && s' == s.(threads := s.threads[i := s'.threads[i]])
  }

  /** The resource manager gives up its reference to a variable. */
  ghost predicate Removal(s: State, s': State, m: nat) {
    m in s.registered && s' == s.(registered := s.registered - {m})
  }

  ghost predicate Step(s: State, s': State) {
    (exists i :: StepOf(s, s', i)) || (exists m :: Removal(s, s', m))
  }

  /** Thread `i` can go on even if waiting writers keep readers out. */
  ghost predicate Enabled(s: State, i: int) {
    && IsThread(s, i)
    && var t := s.threads[i];
       || t.stage.Looking?
       || CanAcquireBehindWriters(s, i)
       || (t.stage.Locking? && t.stage.acquired >= |t.want|)
       || UnlocksNext(t) || UnrefsNext(t)
  }

  /** Kernels that have not begun; those that lock nothing look nothing up. */
  ghost predicate Init(s: State) {
    && 0 !in s.registered
    && forall i :: IsThread(s, i) ==>
         var t := s.threads[i];
         && t == Thread(t.inputs, t.exclusive, Looking(0), [], [], [], {})
         && (forall k :: 0 <= k < |t.inputs| && !t.inputs[k].isResource ==>
               t.inputs[k].mutex == 0 || t.inputs[k].mutex in s.pinned)
         && (t.exclusive || t.inputs == [] || exists k :: 0 <= k < |t.inputs| && t.inputs[k].isResource)
  }

  /** Readers share a mutex with readers, a writer with nobody; that is all that holds anybody up. */
  lemma ReadersShare(s: State, i: int)
    requires IsThread(s, i) && s.threads[i].stage.Locking? && s.threads[i].stage.acquired < |s.threads[i].want|
    ensures var t := s.threads[i];
            var m := t.want[t.stage.acquired];
            CanAcquire(s, i) <==>
              forall j :: 0 <= j < |s.threads| && m in s.threads[j].held ==> !t.exclusive && !s.threads[j].exclusive
    ensures var t := s.threads[i];
            var m := t.want[t.stage.acquired];
            CanAcquireBehindWriters(s, i) <==>
              && CanAcquire(s, i)
              && (t.exclusive
                  || forall j :: 0 <= j < |s.threads| && s.threads[j].exclusive && s.threads[j].stage.Locking?
                                 && s.threads[j].stage.acquired < |s.threads[j].want| ==>
                                   s.threads[j].want[s.threads[j].stage.acquired] != m)
  {
    var m := s.threads[i].want[s.threads[i].stage.acquired];
    assert WaitsFor(s.threads[i], m);
    assert forall j :: 0 <= j < |s.threads| ==> IsThread(s, j);
    assert forall j :: IsThread(s, j) && s.threads[j].stage.Locking?
                       && s.threads[j].stage.acquired < |s.threads[j].want| ==>
                         WaitsFor(s.threads[j], s.threads[j].want[s.threads[j].stage.acquired]);
  }

  // ---------------------------------------------------------------- the invariant

  /** The thread keeps `m` alive, or somebody outside does. */
  predicate Keeps(t: Thread, pinned: set<nat>, m: nat) { m in pinned || m in t.refs }

  ghost predicate KeepsAll(t: Thread, pinned: set<nat>, ms: seq<nat>) {
    forall m :: m in ms && m != 0 ==> Keeps(t, pinned, m)
  }

  ghost predicate ThreadInv(t: Thread, pinned: set<nat>) {
    && Ascending(t.want) && (forall m :: m in t.want ==> m != 0)
    && (forall k :: 0 <= k < |t.inputs| && !t.inputs[k].isResource ==>
          t.inputs[k].mutex == 0 || t.inputs[k].mutex in pinned)
    && match t.stage {
         case Looking(k) => k <= |t.inputs| && t.held == {} && KeepsAll(t, pinned, t.found)
         case Locking(a) => a <= |t.want| && t.held == Elems(t.want[..a]) && KeepsAll(t, pinned, t.want)
         case Releasing =>
           t.held <= Elems(t.want) && (t.exclusive && t.held != {} ==> KeepsAll(t, pinned, t.want))
       }
  }

  /** An exclusive holder is the only holder. */
  ghost predicate MutualExclusion(s: State) {
    forall i, j, m :: IsThread(s, i) && IsThread(s, j) && i != j && m in s.threads[i].held && m in s.threads[j].held ==>
      !s.threads[i].exclusive
  }

  ghost predicate Inv(s: State) {
    (forall i :: IsThread(s, i) ==> ThreadInv(s.threads[i], s.pinned)) && MutualExclusion(s)
  }

  lemma AcquireKeeps(t: Thread, pinned: set<nat>)
    requires ThreadInv(t, pinned) && t.stage.Locking? && t.stage.acquired < |t.want|
    ensures ThreadInv(Acquire(t), pinned)
  {
    assert t.want[..t.stage.acquired + 1] == t.want[..t.stage.acquired] + [t.want[t.stage.acquired]];
  }

  lemma LookKeeps(t: Thread, pinned: set<nat>, registered: set<nat>)
    requires ThreadInv(t, pinned) && t.stage.Looking? && t.stage.next < |t.inputs|
    ensures ThreadInv(Look(registered, t, t.inputs[t.stage.next]), pinned)
  {
    var x, t' := t.inputs[t.stage.next], Look(registered, t, t.inputs[t.stage.next]);
    forall m | m in t'.found && m != 0 ensures Keeps(t', pinned, m) {
      assert m in t.found || m == x.mutex;
      assert m in t.found ==> Keeps(t, pinned, m);
    }
  }

  lemma ThreadStaysRight(s: State, s': State, i: int)
    requires Inv(s) && StepOf(s, s', i)
    ensures ThreadInv(s'.threads[i], s'.pinned)
  {
    var t, t' := s.threads[i], s'.threads[i];
    assert ThreadInv(t, s.pinned);
    if t.stage.Looking? && t.stage.next < |t.inputs| {
      LookKeeps(t, s.pinned, s.registered);
    } else if CanAcquire(s, i) && t' == Acquire(t) {
      AcquireKeeps(t, s.pinned);
    } else if t.stage.Locking? {
      assert t.want[..|t.want|] == t.want;
    }
  }

  lemma HeldAfter(s: State, s': State, i: int, m: nat)
    requires StepOf(s, s', i) && m in s'.threads[i].held
    ensures m in s.threads[i].held || Free(s, s.threads[i].exclusive, m)
    ensures s'.threads[i].exclusive == s.threads[i].exclusive
  {
  }

  /** Only an acquisition adds a lock, and only one that is free. */
  lemma LocksStayExclusive(s: State, s': State, i: int)
    requires Inv(s) && StepOf(s, s', i)
    ensures MutualExclusion(s')
  {
    hide ThreadInv, InOrder, Look;
    forall j, m | IsThread(s', j) && j != i && m in s'.threads[i].held && m in s'.threads[j].held
      ensures !s'.threads[i].exclusive && !s'.threads[j].exclusive
    {
      HeldAfter(s, s', i, m);
      assert s'.threads[j] == s.threads[j];
    }
    forall a, b, m | IsThread(s', a) && IsThread(s', b) && a != b && m in s'.threads[a].held && m in s'.threads[b].held
      ensures !s'.threads[a].exclusive
    {
      if a != i && b != i { assert s'.threads[a] == s.threads[a] && s'.threads[b] == s.threads[b]; }
    }
  }

  lemma SameLocks(s: State, s': State)
    requires MutualExclusion(s) && s'.threads == s.threads
    ensures MutualExclusion(s')
  {
  }

  lemma StepKeepsInv(s: State, s': State)
    requires Inv(s) && Step(s, s')
    ensures Inv(s') && |s'.threads| == |s.threads| && s'.pinned == s.pinned
  {
    hide ThreadInv, MutualExclusion, Moves;
    if i :| StepOf(s, s', i) {
      ThreadStaysRight(s, s', i);
      LocksStayExclusive(s, s', i);
    } else {
      assert MutualExclusion(s') by { SameLocks(s, s'); }
    }
  }

  lemma InitInv(s: State)
    requires Init(s)
    ensures Inv(s)
  {
    forall i | IsThread(s, i) ensures ThreadInv(s.threads[i], s.pinned) {
      var t := s.threads[i];
      assert t == Thread(t.inputs, t.exclusive, Looking(0), [], [], [], {});
    }
  }

  // ---------------------------------------------------------------- progress

  /** Among the waiting threads, one that waits for the highest mutex. */
  lemma {:induction false} HighestWaiter(ts: seq<Thread>, n: nat) returns (i: int)
    requires n <= |ts|
    ensures -1 <= i < n
    ensures i >= 0 ==> exists m :: WaitsFor(ts[i], m)
    ensures i == -1 ==> forall j, m :: 0 <= j < n ==> !WaitsFor(ts[j], m)
    ensures i >= 0 ==> forall j, m, l :: 0 <= j < n && WaitsFor(ts[j], l) && WaitsFor(ts[i], m) ==> l <= m
  {
    if n == 0 {
      i := -1;
    } else {
      i := HighestWaiter(ts, n - 1);
      var t := ts[n - 1];
      if t.stage.Locking? && t.stage.acquired < |t.want| {
        assert WaitsFor(t, t.want[t.stage.acquired]);
        if i == -1 || ts[i].want[ts[i].stage.acquired] < t.want[t.stage.acquired] {
          i := n - 1;
        }
      }
    }
  }

  /** A thread that holds `m` waits, if at all, for something higher. */
  lemma WaitsHigher(t: Thread, pinned: set<nat>, m: nat, l: nat)
    requires ThreadInv(t, pinned) && m in t.held && WaitsFor(t, l)
    ensures m < l
  {
    var k :| 0 <= k < t.stage.acquired && t.want[k] == m;
  }

  /** Ordered locking cannot deadlock, even if waiting writers keep readers out. */
  lemma NoDeadlock(s: State)
    requires Inv(s) && exists i :: IsThread(s, i) && !Finished(s.threads[i])
    ensures exists i :: Enabled(s, i)
  {
    if forall i :: !Enabled(s, i) {
      forall i | IsThread(s, i) && !Finished(s.threads[i])
        ensures s.threads[i].stage.Locking? && s.threads[i].stage.acquired < |s.threads[i].want|
      {
        assert ThreadInv(s.threads[i], s.pinned) && !Enabled(s, i);
      }
      var u :| IsThread(s, u) && !Finished(s.threads[u]);
      assert WaitsFor(s.threads[u], s.threads[u].want[s.threads[u].stage.acquired]);
      var top := HighestWaiter(s.threads, |s.threads|);
      var m :| WaitsFor(s.threads[top], m);
      forall j | IsThread(s, j) ensures m !in s.threads[j].held {
        if m in s.threads[j].held {
          assert !Finished(s.threads[j]);
          assert WaitsFor(s.threads[j], s.threads[j].want[s.threads[j].stage.acquired]);
          WaitsHigher(s.threads[j], s.pinned, m, s.threads[j].want[s.threads[j].stage.acquired]);
        }
      }
      assert Free(s, true, m) && Free(s, false, m);
      if j :| IsThread(s, j) && s.threads[j].exclusive && WaitsFor(s.threads[j], m) {
        assert Enabled(s, j);
      } else {
        assert Enabled(s, top);
      }
    }
  }

  lemma AppendLast(s: seq<nat>, m: nat)
    requires Ascending(s) && forall x :: x in s ==> x < m
    ensures Ascending(s + [m]) && forall x :: x in s + [m] <==> x in s || x == m
  {
    assert forall i :: 0 <= i < |s| ==> s[i] in s;
  }

  lemma LastIsHighest(s: seq<nat>)
    requires Ascending(s) && s != []
    ensures var k := |s| - 1;
            && Ascending(s[..k]) && (forall x :: x in s[..k] ==> x < s[k])
            && (forall x :: x in s <==> x in s[..k] || x == s[k])
  {
    assert s == s[..|s| - 1] + [s[|s| - 1]];
  }

  lemma {:induction false} WithInserted(s: seq<nat>, m: nat) returns (r: seq<nat>)
    requires Ascending(s) && m !in s
    ensures Ascending(r) && forall x :: x in r <==> x in s || x == m
  {
    hide Ascending;
    if forall x :: x in s ==> x < m {
      AppendLast(s, m);
      r := s + [m];
    } else {
      LastIsHighest(s);
      var k := |s| - 1;
      var before := WithInserted(s[..k], m);
      AppendLast(before, s[k]);
      r := before + [s[k]];
    }
  }

  lemma {:induction false} OrderExists(found: seq<nat>) returns (want: seq<nat>)
    ensures InOrder(want, found)
  {
    if found == [] {
      want := [];
    } else {
      var k := |found| - 1;
      var m := found[k];
      var before := OrderExists(found[..k]);
      assert found == found[..k] + [m];
      if m == 0 || m in before {
        want := before;
      } else {
        want := WithInserted(before, m);
      }
    }
  }

  /** An enabled thread has a step to take. */
  lemma EnabledCanStep(s: State, i: int) returns (s': State)
    requires Enabled(s, i)
    ensures StepOf(s, s', i)
  {
    var t := s.threads[i];
    var t';
    if t.stage.Looking? && t.stage.next < |t.inputs| {
      t' := Look(s.registered, t, t.inputs[t.stage.next]);
    } else if t.stage.Looking? {
      var want := OrderExists(t.found);
      t' := t.(stage := Locking(0), want := want);
    } else if CanAcquireBehindWriters(s, i) {
      t' := Acquire(t);
    } else if t.stage.Locking? {
      t' := t.(stage := Releasing);
    } else if UnlocksNext(t) {
      var m :| m in t.held;
      t' := t.(held := t.held - {m});
    } else {
      t' := t.(refs := t.refs[1..]);
    }
    hide InOrder, Look;
    s' := s.(threads := s.threads[i := t']);
    assert Moves(s, i, t');
  }

  function Crossed(first: nat, second: nat): State {
    State({}, {1, 2},
      [Thread([], true, Locking(first), [1, 2], [1, 2], [1, 2], if first == 0 then {} else {1}),
       Thread([], true, Locking(second), [2, 1], [2, 1], [2, 1], if second == 0 then {} else {2})])
  }

  lemma CrossingSteps()
    ensures Step(Crossed(0, 0), Crossed(1, 0)) && Step(Crossed(1, 0), Crossed(1, 1))
  {
    var a, b, s := Crossed(0, 0), Crossed(1, 0), Crossed(1, 1);
    assert a.threads[0].held + {1} == {1} && b.threads[1].held + {2} == {2};
    assert WaitsFor(a.threads[0], 1) && Free(a, true, 1) && b.threads == a.threads[0 := Acquire(a.threads[0])];
    assert StepOf(a, b, 0);
    assert WaitsFor(b.threads[1], 2) && Free(b, true, 2) && s.threads == b.threads[1 := Acquire(b.threads[1])];
    assert StepOf(b, s, 1);
  }

  lemma CrossedIsStuck(i: int)
    ensures !Enabled(Crossed(1, 1), i) && !CanAcquire(Crossed(1, 1), i)
  {
    var s := Crossed(1, 1);
    forall m ensures !(IsThread(s, i) && WaitsFor(s.threads[i], m) && Free(s, s.threads[i].exclusive, m)) {
      assert i == 0 && WaitsFor(s.threads[0], m) ==> m in s.threads[1].held;
      assert i == 1 && WaitsFor(s.threads[1], m) ==> m in s.threads[0].held;
    }
  }

  /**
   The order matters: two threads that lock the same mutexes in opposite orders are both waiting for
   each other after one step each, and nobody can go on.
   */
  lemma UnorderedLocksCanDeadlock()
    ensures forall t :: t in Crossed(0, 0).threads ==> t.stage == Locking(0) && t.held == {}
    ensures Step(Crossed(0, 0), Crossed(1, 0)) && Step(Crossed(1, 0), Crossed(1, 1))
    ensures forall i :: 0 <= i < 2 ==> !Finished(Crossed(1, 1).threads[i])
    ensures forall i :: !Enabled(Crossed(1, 1), i) && !CanAcquire(Crossed(1, 1), i)
  {
    hide Step, Enabled, CanAcquire;
    CrossingSteps();
    forall i ensures !Enabled(Crossed(1, 1), i) && !CanAcquire(Crossed(1, 1), i) { CrossedIsStuck(i); }
  }

  // ---------------------------------------------------------------- whole runs

  ghost predicate IsRun(run: seq<State>) {
    && run != [] && Init(run[0])
    && (forall k :: 0 <= k < |run| - 1 ==> Step(run[k], run[k + 1]))
  }

  /** An upper bound on the steps a thread has left. */
  function Work(t: Thread): nat {
    match t.stage
    case Looking(k) => 4 * (if k <= |t.inputs| then |t.inputs| - k else 0) + 2 * |t.found| + |t.refs| + 2
    case Locking(a) => 2 * (if a <= |t.want| then |t.want| - a else 0) + |t.held| + |t.refs| + 1
    case Releasing => |t.held| + |t.refs|
  }

  /** The steps left: those of the threads, and the removals. */
  function TotalWork(s: State): nat {
    Sum(s.threads, Work) + |s.registered|
  }

  lemma {:induction false} OrderedIsShorter(want: seq<nat>, found: seq<nat>)
    requires Ascending(want) && forall m :: m in want ==> m in found
    ensures |want| <= |found|
  {
    if want != [] {
      var k := |want| - 1;
      assert want[k] in want;
      var p :| 0 <= p < |found| && found[p] == want[k];
      var rest := found[..p] + found[p + 1..];
      forall m | m in want[..k] ensures m in rest {
        var l :| 0 <= l < k && want[l] == m;
        assert m in want;
        var q :| 0 <= q < |found| && found[q] == m;
        assert q != p;
        assert rest[if q < p then q else q - 1] == m;
      }
      OrderedIsShorter(want[..k], rest);
    }
  }

  /** Every step of a thread uses up some of its work. */
  lemma MoveWorks(s: State, i: int, t': Thread)
    requires IsThread(s, i) && ThreadInv(s.threads[i], s.pinned) && Moves(s, i, t')
    ensures Work(t') < Work(s.threads[i])
  {
    var t := s.threads[i];
    if t.stage.Looking? && t.stage.next >= |t.inputs| {
      OrderedIsShorter(t'.want, t.found);
    }
  }

  lemma StepWorks(s: State, s': State)
    requires Inv(s) && Step(s, s')
    ensures TotalWork(s') < TotalWork(s)
  {
    hide Moves, Work, ThreadInv, MutualExclusion;
    if i :| StepOf(s, s', i) {
      MoveWorks(s, i, s'.threads[i]);
      SumUpdate(s.threads, i, s'.threads[i], Work);
    } else {
      var m :| Removal(s, s', m);
      assert s.registered == s'.registered + {m};
    }
  }

  /** In every reachable state the locks are held correctly and somebody can go on, or all are finished. */
  lemma {:induction false} RunsAreSafeAndLive(run: seq<State>, k: nat)
    requires IsRun(run) && k < |run|
    ensures Inv(run[k])
    ensures (forall i :: IsThread(run[k], i) ==> Finished(run[k].threads[i])) || exists i :: Enabled(run[k], i)
    ensures TotalWork(run[k]) <= TotalWork(run[0]) - k
  {
    hide Inv, Init, Step, TotalWork, Enabled;
    if k == 0 {
      InitInv(run[0]);
    } else {
      RunsAreSafeAndLive(run, k - 1);
      assert Step(run[k - 1], run[k - 1 + 1]);
      StepKeepsInv(run[k - 1], run[k]);
      StepWorks(run[k - 1], run[k]);
    }
    if exists i :: IsThread(run[k], i) && !Finished(run[k].threads[i]) {
      NoDeadlock(run[k]);
    }
  }

  /** No run can go on for longer than the work there is, so every thread gets its locks and returns them. */
  lemma RunsTerminate(run: seq<State>)
    requires IsRun(run)
    ensures |run| - 1 <= TotalWork(run[0])
  {
    RunsAreSafeAndLive(run, |run| - 1);
  }

  // ---------------------------------------------------------------- locks and references are exact

  /** How many references the thread has to the variable with mutex `m`: one for each lookup, unless it was gone. */
  ghost predicate Counted(t: Thread, registered: set<nat>, n: nat, m: nat) {
    && multiset(t.refs)[m] <= |LookupsOf(t.inputs, n, m)|
    && (m in registered ==> multiset(t.refs)[m] == |LookupsOf(t.inputs, n, m)|)
  }

  /** What the thread has found among its first `n` inputs. */
  ghost predicate HasFound(t: Thread, registered: set<nat>, n: nat) {
    && n <= |t.inputs|
    && (forall k :: 0 <= k < n ==>
          t.inputs[k].mutex in t.found || (t.inputs[k].isResource && t.inputs[k].mutex !in registered))
    && (forall m :: m in t.found ==> exists k :: 0 <= k < n && t.inputs[k].mutex == m)
  }

  ghost predicate AllCounted(t: Thread, registered: set<nat>, n: nat) {
    forall m: nat :: Counted(t, registered, n, m)
  }

  /** The number of inputs the thread has looked at. */
  function LookedAt(t: Thread): nat {
    if t.stage.Looking? then t.stage.next else |t.inputs|
  }

  ghost predicate LookupInv(t: Thread, registered: set<nat>) {
    && HasFound(t, registered, LookedAt(t))
    && (!t.stage.Releasing? || (t.exclusive && t.held != {}) ==> AllCounted(t, registered, LookedAt(t)))
    && (!t.stage.Looking? ==> InOrder(t.want, t.found))
    && (t.stage.Releasing? && !t.exclusive && t.refs != [] ==> t.held == Elems(t.want))
  }

  lemma LookFinds(t: Thread, registered: set<nat>)
    requires t.stage.Looking? && t.stage.next < |t.inputs| && HasFound(t, registered, t.stage.next)
    ensures HasFound(Look(registered, t, t.inputs[t.stage.next]), registered, t.stage.next + 1)
  {
    var n, t' := t.stage.next, Look(registered, t, t.inputs[t.stage.next]);
    forall m | m in t'.found ensures exists k :: 0 <= k < n + 1 && t.inputs[k].mutex == m {
      if m !in t.found { assert t.inputs[n].mutex == m; }
    }
  }

  lemma LookCounts(t: Thread, registered: set<nat>)
    requires t.stage.Looking? && t.stage.next < |t.inputs|
    requires AllCounted(t, registered, t.stage.next)
    ensures AllCounted(Look(registered, t, t.inputs[t.stage.next]), registered, t.stage.next + 1)
  {
    hide LookupsOf;
    var t', n := Look(registered, t, t.inputs[t.stage.next]), t.stage.next + 1;
    forall m: nat ensures Counted(t', registered, n, m) {
      assert Counted(t, registered, t.stage.next, m);
      OneMoreLookup(t.inputs, t.stage.next, m);
    }
  }

  lemma SameCounts(t: Thread, t': Thread, registered: set<nat>, n: nat)
    requires t'.refs == t.refs && t'.inputs == t.inputs
    ensures AllCounted(t', registered, n) <==> AllCounted(t, registered, n)
  {
    hide LookupsOf;
    assert forall m: nat :: Counted(t', registered, n, m) <==> Counted(t, registered, n, m);
  }

  lemma SameFound(t: Thread, t': Thread, registered: set<nat>, n: nat)
    requires t'.inputs == t.inputs && t'.found == t.found && HasFound(t, registered, n)
    ensures HasFound(t', registered, n)
  {
  }

  lemma FewerCounts(t: Thread, registered: set<nat>, fewer: set<nat>, n: nat)
    requires AllCounted(t, registered, n) && fewer <= registered
    ensures AllCounted(t, fewer, n)
  {
    hide LookupsOf;
    assert forall m: nat :: Counted(t, registered, n, m) ==> Counted(t, fewer, n, m);
  }

  lemma AcquiresWhileLocking(s: State, i: int)
    requires CanAcquire(s, i)
    ensures s.threads[i].stage.Locking? && s.threads[i].stage.acquired < |s.threads[i].want|
  {
  }

  /** The steps after the last lookup. */
  lemma OtherMoves(s: State, i: int, t': Thread)
    requires IsThread(s, i) && ThreadInv(s.threads[i], s.pinned) && Moves(s, i, t')
    requires s.threads[i].stage.Looking? ==> s.threads[i].stage.next >= |s.threads[i].inputs|
    ensures var t := s.threads[i];
            && t'.inputs == t.inputs && t'.exclusive == t.exclusive && t'.found == t.found && !t'.stage.Looking?
            && (if t.stage.Looking? then InOrder(t'.want, t'.found) else t'.want == t.want)
            && (!t'.stage.Releasing? || (t'.exclusive && t'.held != {}) ==>
                  t'.refs == t.refs && (!t.stage.Releasing? || (t.exclusive && t.held != {})))
            && (t'.stage.Releasing? && !t'.exclusive && t'.refs != [] ==>
                  if t.stage.Releasing? then t'.held == t.held && t.refs != [] else t'.held == Elems(t'.want))
  {
    hide InOrder, CanAcquire, Ascending, Keeps, KeepsAll;
    var t := s.threads[i];
    if CanAcquire(s, i) { AcquiresWhileLocking(s, i); }
    assert t.want[..|t.want|] == t.want;
  }

  lemma MoveKeepsLookups(s: State, i: int, t': Thread)
    requires IsThread(s, i) && ThreadInv(s.threads[i], s.pinned) && LookupInv(s.threads[i], s.registered)
    requires Moves(s, i, t')
    ensures LookupInv(t', s.registered) && t'.inputs == s.threads[i].inputs && t'.exclusive == s.threads[i].exclusive
  {
    hide ThreadInv, AllCounted, HasFound, InOrder, CanAcquire;
    var t := s.threads[i];
    if CanAcquire(s, i) { AcquiresWhileLocking(s, i); }
    if t.stage.Looking? && t.stage.next < |t.inputs| {
      assert t.stage.next < |t.inputs| && LookedAt(t) == t.stage.next;
      LookFinds(t, s.registered);
      LookCounts(t, s.registered);
    } else {
      hide Moves;
      OtherMoves(s, i, t');
      LookedAtMost(t, s.registered);
      SameFound(t, t', s.registered, |t.inputs|);
      if t'.refs == t.refs { SameCounts(t, t', s.registered, |t.inputs|); }
    }
  }

  lemma LookedAtMost(t: Thread, registered: set<nat>)
    requires HasFound(t, registered, LookedAt(t))
    ensures LookedAt(t) <= |t.inputs|
  {
  }

  lemma RemovalKeepsLookups(t: Thread, registered: set<nat>, fewer: set<nat>)
    requires LookupInv(t, registered) && fewer <= registered
    ensures LookupInv(t, fewer)
  {
    hide InOrder, AllCounted;
    if AllCounted(t, registered, LookedAt(t)) { FewerCounts(t, registered, fewer, LookedAt(t)); }
  }

  lemma InitLookups(s: State, i: int)
    requires Init(s) && IsThread(s, i)
    ensures LookupInv(s.threads[i], s.registered)
  {
    var t := s.threads[i];
    assert t == Thread(t.inputs, t.exclusive, Looking(0), [], [], [], {});
    forall m: nat ensures Counted(t, s.registered, 0, m) { assert LookupsOf(t.inputs, 0, m) == {}; }
  }

  lemma {:induction false} RunsKeepLookups(run: seq<State>, k: nat, i: int)
    requires IsRun(run) && k < |run| && IsThread(run[k], i)
    ensures LookupInv(run[k].threads[i], run[k].registered)
    ensures |run[0].threads| == |run[k].threads|
    ensures var t, t0 := run[k].threads[i], run[0].threads[i]; t.inputs == t0.inputs && t.exclusive == t0.exclusive
  {
    hide LookupInv, Moves, Init, TotalWork, Enabled, Finished, ThreadInv, MutualExclusion;
    if k == 0 {
      InitLookups(run[0], i);
    } else {
      RunsAreSafeAndLive(run, k - 1);
      var s, s' := run[k - 1], run[k - 1 + 1];
      assert Step(s, s');
      StepKeepsInv(s, s');
      RunsKeepLookups(run, k - 1, i);
      if j :| StepOf(s, s', j) {
        if j == i { MoveKeepsLookups(s, i, s'.threads[i]); }
      } else {
        var m :| Removal(s, s', m);
        RemovalKeepsLookups(s.threads[i], s.registered, s'.registered);
      }
    }
  }

  /**
   In every reachable state a thread that has all its locks holds exactly the non-null mutexes it found:
   those of its inputs, but for variables that are gone; and until it begins to give back, it has one
   reference to a registered variable for each time it looks it up.
   */
  lemma LocksAreExact(run: seq<State>, k: nat, i: int)
    requires IsRun(run) && k < |run| && IsThread(run[k], i)
    ensures var t, s := run[k].threads[i], run[k];
            && (t.stage.Locking? && t.stage.acquired >= |t.want| ==>
                  && (forall m :: m in t.held <==> m != 0 && m in t.found)
                  && (forall j :: 0 <= j < |t.inputs| && t.inputs[j].mutex != 0
                                  && (t.inputs[j].isResource ==> t.inputs[j].mutex in s.registered) ==>
                                    t.inputs[j].mutex in t.held)
                  && (forall m :: m in t.held ==> exists j :: 0 <= j < |t.inputs| && t.inputs[j].mutex == m))
    ensures var t, s := run[k].threads[i], run[k];
            t.stage.Locking? ==>
              forall m :: m in s.registered ==>
                multiset(t.refs)[m]
                == |set j | 0 <= j < |t.inputs| && t.inputs[j].isResource && t.inputs[j].mutex == m|
  {
    RunsKeepLookups(run, k, i);
    RunsAreSafeAndLive(run, k);
    var t, s := run[k].threads[i], run[k];
    assert ThreadInv(t, s.pinned);
    hide IsRun, MutualExclusion, Inv, TotalWork, Enabled, Finished;
    assert t.want[..|t.want|] == t.want;
    if t.stage.Locking? {
      forall m | m in s.registered
        ensures multiset(t.refs)[m]
             == |set j | 0 <= j < |t.inputs| && t.inputs[j].isResource && t.inputs[j].mutex == m|
      {
        assert Counted(t, s.registered, |t.inputs|, m);
        assert LookupsOf(t.inputs, |t.inputs|, m)
            == set j | 0 <= j < |t.inputs| && t.inputs[j].isResource && t.inputs[j].mutex == m;
      }
    }
  }

  /** Shared locks are kept until the last reference has been given back, exclusive ones are given back first. */
  lemma GivingBack(run: seq<State>, k: nat, i: int)
    requires IsRun(run) && k < |run| && IsThread(run[k], i) && run[k].threads[i].stage.Releasing?
    ensures var t, s := run[k].threads[i], run[k];
            && (!t.exclusive && t.refs != [] ==> forall m :: m in t.held <==> m != 0 && m in t.found)
            && (t.exclusive && t.held != {} ==>
                  forall m: nat :: m in s.registered ==>
                    multiset(t.refs)[m] == |LookupsOf(t.inputs, |t.inputs|, m)|)
  {
    RunsKeepLookups(run, k, i);
    hide IsRun, LookupsOf;
    var t, s := run[k].threads[i], run[k];
    assert LookupInv(t, s.registered);
    assert forall m: nat :: Counted(t, s.registered, |t.inputs|, m) && m in s.registered ==>
             multiset(t.refs)[m] == |LookupsOf(t.inputs, |t.inputs|, m)|;
  }

  // ---------------------------------------------------------------- the mutexes exist

  /**
   In every reachable state the mutex a thread is about to lock exists, and so does every mutex that an
   exclusive thread holds or that anybody holds who has not begun to give back.
   */
  lemma LockedMutexesExist(run: seq<State>, k: nat, i: int, m: nat)
    requires IsRun(run) && k < |run| && IsThread(run[k], i)
    requires var t := run[k].threads[i];
             WaitsFor(t, m) || (m in t.held && (t.exclusive || !t.stage.Releasing?))
    ensures Alive(run[k], m)
  {
    RunsAreSafeAndLive(run, k);
    hide MutualExclusion;
    var t := run[k].threads[i];
    assert ThreadInv(t, run[k].pinned);
    assert m in t.want;
    assert Keeps(t, run[k].pinned, m);
  }

  /** A thread that shares the lock, or the reference, of a variable. */
  ghost predicate SharedUser(s: State, m: nat) {
    exists i :: IsThread(s, i) && !s.threads[i].exclusive && (m in s.threads[i].refs || m in s.threads[i].held)
  }

  /** No variable is removed while a thread that locks shared has a reference to it or a lock on it. */
  ghost predicate RemovalsSpareReaders(run: seq<State>) {
    forall k, m :: 0 <= k < |run| - 1 && m in run[k].registered && m !in run[k + 1].registered ==>
                     !SharedUser(run[k], m)
  }

  /** Every mutex that is held exists. */
  ghost predicate HeldExist(s: State) {
    forall i, m :: IsThread(s, i) && m in s.threads[i].held ==> Alive(s, m)
  }

  /** What shared threads use is registered or kept alive from outside. */
  ghost predicate ReadersCovered(s: State) {
    forall m :: SharedUser(s, m) ==> m in s.registered || m in s.pinned
  }

  /** What a thread uses after a step it used before, or it has just looked it up, or it is kept from outside. */
  lemma UsedBefore(s: State, s': State, i: int, m: nat)
    requires Inv(s) && StepOf(s, s', i) && (m in s'.threads[i].refs || m in s'.threads[i].held)
    ensures m in s.threads[i].refs || m in s.threads[i].held || m in s.registered || m in s.pinned
    ensures s'.threads[i].exclusive == s.threads[i].exclusive
  {
    hide MutualExclusion, InOrder;
    var t, t' := s.threads[i], s'.threads[i];
    assert ThreadInv(t, s.pinned);
    if CanAcquire(s, i) && t' == Acquire(t) && m !in t.held {
      assert m in t.want || m in t.refs;
    }
  }

  lemma MoveKeepsCovered(s: State, s': State, i: int)
    requires Inv(s) && ReadersCovered(s) && StepOf(s, s', i)
    ensures ReadersCovered(s')
  {
    hide MutualExclusion;
    forall m | SharedUser(s', m) ensures m in s'.registered || m in s'.pinned {
      var j :| IsThread(s', j) && !s'.threads[j].exclusive && (m in s'.threads[j].refs || m in s'.threads[j].held);
      if j == i {
        UsedBefore(s, s', i, m);
      } else {
        assert s'.threads[j] == s.threads[j];
      }
      assert m in s.registered || m in s.pinned || SharedUser(s, m);
    }
  }

  lemma NothingUsed(s: State)
    requires Init(s)
    ensures ReadersCovered(s)
  {
  }

  lemma SameUsers(s: State, s': State)
    requires s'.threads == s.threads
    ensures forall m :: SharedUser(s', m) <==> SharedUser(s, m)
  {
    forall m ensures SharedUser(s', m) <==> SharedUser(s, m) {
      if i :| IsThread(s, i) && !s.threads[i].exclusive && (m in s.threads[i].refs || m in s.threads[i].held) {
        assert IsThread(s', i);
      }
      if i :| IsThread(s', i) && !s'.threads[i].exclusive && (m in s'.threads[i].refs || m in s'.threads[i].held) {
        assert IsThread(s, i);
      }
    }
  }

  lemma {:induction false} RunsKeepCovered(run: seq<State>, k: nat)
    requires IsRun(run) && RemovalsSpareReaders(run) && k < |run|
    ensures ReadersCovered(run[k])
  {
    hide Inv, TotalWork, Enabled, StepOf, Finished;
    if k == 0 {
      NothingUsed(run[0]);
    } else {
      RunsKeepCovered(run, k - 1);
      RunsAreSafeAndLive(run, k - 1);
      var s, s' := run[k - 1], run[k - 1 + 1];
      assert Step(s, s');
      if i :| StepOf(s, s', i) {
        MoveKeepsCovered(s, s', i);
      } else {
        var m :| Removal(s, s', m);
        assert !SharedUser(s, m);
        SameUsers(s, s');
      }
    }
  }

  lemma CoveredIsAlive(s: State, m: nat)
    requires m in s.registered || m in s.pinned
    ensures Alive(s, m)
  {
  }

  /** If removals spare the variables that are shared, no mutex is ever destroyed while it is held. */
  lemma HeldMutexesExist(run: seq<State>, k: nat)
    requires IsRun(run) && RemovalsSpareReaders(run) && k < |run|
    ensures HeldExist(run[k])
  {
    hide Inv, TotalWork, Enabled, Finished, RemovalsSpareReaders, IsRun, Alive;
    RunsKeepCovered(run, k);
    forall i, m | IsThread(run[k], i) && m in run[k].threads[i].held ensures Alive(run[k], m) {
      if run[k].threads[i].exclusive {
        LockedMutexesExist(run, k, i, m);
      } else {
        assert SharedUser(run[k], m);
        CoveredIsAlive(run[k], m);
      }
    }
  }

  predicate HasAllLocks(t: Thread) {
    t.stage.Releasing? || (t.stage.Locking? && t.stage.acquired >= |t.want|)
  }

  /** Thread `i` has a shared lock on `m`, wants no other, and nobody but it refers to the variable any more. */
  ghost predicate LastReader(s: State, i: int, m: nat) {
    && IsThread(s, i) && !s.threads[i].exclusive && m in s.threads[i].held
    && HasAllLocks(s.threads[i])
    && m !in s.pinned && m !in s.registered && (forall j :: IsThread(s, j) && j != i ==> m !in s.threads[j].refs)
  }

  lemma LastReaderGivesBack(s: State, i: int, m: nat) returns (s': State)
    requires LastReader(s, i, m) && !(s.threads[i].stage.Releasing? && s.threads[i].refs == [])
    ensures StepOf(s, s', i) && LastReader(s', i, m)
    ensures |s'.threads[i].refs| <= |s.threads[i].refs|
    ensures s'.threads[i].stage.Releasing?
    ensures s.threads[i].stage.Releasing? ==> |s'.threads[i].refs| < |s.threads[i].refs|
  {
    hide CanAcquire, InOrder;
    var t := s.threads[i];
    var t' := if t.stage.Releasing? then t.(refs := t.refs[1..]) else t.(stage := Releasing);
    s' := s.(threads := s.threads[i := t']);
    assert Moves(s, i, t');
    forall j | IsThread(s', j) && j != i ensures m !in s'.threads[j].refs {
      assert IsThread(s, j) && s'.threads[j] == s.threads[j];
    }
  }

  lemma LastReaderIsLast(s: State, i: int, m: nat)
    requires LastReader(s, i, m) && s.threads[i].refs == []
    ensures !Alive(s, m)
  {
    assert forall j :: IsThread(s, j) ==> m !in s.threads[j].refs;
  }

  lemma OneStepFirst(s: State, rest: seq<State>, i: int)
    requires rest != [] && StepOf(s, rest[0], i)
    requires forall k :: 0 <= k < |rest| - 1 ==> StepOf(rest[k], rest[k + 1], i)
    ensures var run := [s] + rest; forall k :: 0 <= k < |run| - 1 ==> StepOf(run[k], run[k + 1], i)
  {
    hide StepOf;
    var run := [s] + rest;
    forall k | 0 <= k < |run| - 1 ensures StepOf(run[k], run[k + 1], i) {
      if k > 0 { assert run[k] == rest[k - 1] && run[k + 1] == rest[k - 1 + 1]; }
    }
  }

  /**
   The condition is needed: whenever the variable of a shared lock has been removed and nobody else refers
   to it, the holder destroys the mutex by steps of its own, and holds it still.
   */
  lemma {:induction false} LastReaderLosesMutex(s: State, i: int, m: nat) returns (run: seq<State>)
    requires LastReader(s, i, m)
    ensures run != [] && run[0] == s && forall k :: 0 <= k < |run| - 1 ==> StepOf(run[k], run[k + 1], i)
    ensures var end := run[|run| - 1];
            IsThread(end, i) && m in end.threads[i].held && !Alive(end, m)
    decreases |s.threads[i].refs|, if s.threads[i].stage.Releasing? then 0 else 1
  {
    hide StepOf, Alive;
    if s.threads[i].stage.Releasing? && s.threads[i].refs == [] {
      run := [s];
      LastReaderIsLast(s, i, m);
    } else {
      var s' := LastReaderGivesBack(s, i, m);
      var rest := LastReaderLosesMutex(s', i, m);
      run := [s] + rest;
      OneStepFirst(s, rest, i);
    }
  }

  /** One kernel that reads the variable with mutex 1. */
  function Reader(
    registered: set<nat>, stage: Stage, found: seq<nat>, refs: seq<nat>, want: seq<nat>, held: set<nat>): State
  {
    State({}, registered, [Thread([Input(1, true)], false, stage, found, refs, want, held)])
  }

  lemma ReaderLocks()
    ensures Step(Reader({1}, Looking(0), [], [], [], {}), Reader({1}, Looking(1), [1], [1], [], {}))
    ensures Step(Reader({1}, Looking(1), [1], [1], [], {}), Reader({1}, Locking(0), [1], [1], [1], {}))
    ensures Step(Reader({1}, Locking(0), [1], [1], [1], {}), Reader({1}, Locking(1), [1], [1], [1], {1}))
  {
    assert InOrder([1], [1]);
    assert StepOf(Reader({1}, Looking(0), [], [], [], {}), Reader({1}, Looking(1), [1], [1], [], {}), 0);
    assert StepOf(Reader({1}, Looking(1), [1], [1], [], {}), Reader({1}, Locking(0), [1], [1], [1], {}), 0);
    var s := Reader({1}, Locking(0), [1], [1], [1], {});
    assert {} + {1} == {1};
    assert WaitsFor(s.threads[0], 1) && Free(s, false, 1) && CanAcquire(s, 0);
    assert StepOf(s, Reader({1}, Locking(1), [1], [1], [1], {1}), 0);
  }

  lemma ReaderGivesBack()
    ensures Removal(Reader({1}, Locking(1), [1], [1], [1], {1}), Reader({}, Locking(1), [1], [1], [1], {1}), 1)
    ensures Step(Reader({}, Locking(1), [1], [1], [1], {1}), Reader({}, Releasing, [1], [1], [1], {1}))
    ensures Step(Reader({}, Releasing, [1], [1], [1], {1}), Reader({}, Releasing, [1], [], [1], {1}))
  {
    assert {1} - {1} == {};
    assert StepOf(Reader({}, Locking(1), [1], [1], [1], {1}), Reader({}, Releasing, [1], [1], [1], {1}), 0);
    assert StepOf(Reader({}, Releasing, [1], [1], [1], {1}), Reader({}, Releasing, [1], [], [1], {1}), 0);
  }

  lemma ReaderLoses()
    ensures LastReader(Reader({}, Locking(1), [1], [1], [1], {1}), 0, 1)
    ensures SharedUser(Reader({1}, Locking(1), [1], [1], [1], {1}), 1)
    ensures !HeldExist(Reader({}, Releasing, [1], [], [1], {1}))
  {
    var a, b := Reader({1}, Locking(1), [1], [1], [1], {1}), Reader({}, Releasing, [1], [], [1], {1});
    assert IsThread(a, 0) && IsThread(b, 0) && 1 in b.threads[0].held && !Alive(b, 1);
  }

  lemma ReaderBegins()
    ensures Init(Reader({1}, Looking(0), [], [], [], {}))
  {
    assert Reader({1}, Looking(0), [], [], [], {}).threads[0].inputs[0].isResource;
  }

  /** It happens: a run in which a reader holds a destroyed mutex. */
  lemma SharedLockCanDangle(run: seq<State>)
    requires run == [
      Reader({1}, Looking(0), [], [], [], {}),
      Reader({1}, Looking(1), [1], [1], [], {}),
      Reader({1}, Locking(0), [1], [1], [1], {}),
      Reader({1}, Locking(1), [1], [1], [1], {1}),
      Reader({}, Locking(1), [1], [1], [1], {1}),
      Reader({}, Releasing, [1], [1], [1], {1}),
      Reader({}, Releasing, [1], [], [1], {1})]
    ensures IsRun(run) && !HeldExist(run[6]) && LastReader(run[4], 0, 1)
    ensures Removal(run[3], run[4], 1) && !RemovalsSpareReaders(run)
  {
    hide Moves, StepOf, Alive, Init, HeldExist, LastReader, SharedUser;
    ReaderLocks();
    ReaderGivesBack();
    ReaderLoses();
    ReaderBegins();
    assert 1 in run[3].registered && 1 !in run[3 + 1].registered;
  }
}
