/**
 The lifetime of a C graph (`c_api.cc`): sessions keep their graph alive after `TF_DeleteGraph`, and
 whoever finds that nothing refers to the graph any more deletes it.  Any number of threads create,
 use and delete sessions and mutate the graph, all taking the graph's mutex.
 */
module GraphLifetime {
  import opened Common

  /** A call on the graph; a session is named after the thread that creates it. */
  datatype Call =
    | NewSession
    | Mutate                         // any other function that takes the graph itself
    | UseSession(session: int)       // `TF_SessionRun` and its relatives
    | DeleteSession(session: int)
    | DeleteGraph

  /** Where a call stands; `AtUnlock` remembers the local variable `del`. */
  datatype Pc = Idle | Making | AtLock | Inside | AtUnlock(del: bool) | Freeing | Failed | Done

  datatype Thread = Thread(call: Call, pc: Pc)

  /** `freed` counts how often the graph has been deleted; it is not part of the graph. */
  datatype State = State(requested: bool, sessions: set<int>, mu: Owner, freed: nat, threads: seq<Thread>)

  predicate InFlight(p: Pc) { !p.Idle? && !p.Failed? && !p.Done? }

  /** The call has made its change under the mutex. */
  predicate PastBody(p: Pc) { p.AtUnlock? || p.Freeing? || p.Done? }

  /** The next step reads or writes the graph. */
  predicate Touches(p: Pc) { p.AtLock? || p.Inside? || p.AtUnlock? || p.Freeing? }

  predicate OnGraph(c: Call) { c.NewSession? || c.Mutate? }

  predicate Created(t: Thread) { t.call.NewSession? && t.pc.Done? }

  /**
   What the API asks of its callers: a graph is passed to a function only while it is valid for the whole
   call, it is deleted once, and a session is used and deleted (once) between its creation and its deletion.
   */
  ghost predicate MayBegin(s: State, i: int)
    requires 0 <= i < |s.threads|
  {
    match s.threads[i].call
    case NewSession => forall j :: 0 <= j < |s.threads| && s.threads[j].call.DeleteGraph? ==> s.threads[j].pc.Idle?
    case Mutate => forall j :: 0 <= j < |s.threads| && s.threads[j].call.DeleteGraph? ==> s.threads[j].pc.Idle?
    case UseSession(x) =>
      && 0 <= x < |s.threads| && Created(s.threads[x])
      && (forall j :: 0 <= j < |s.threads| && s.threads[j].call == DeleteSession(x) ==> s.threads[j].pc.Idle?)
    case DeleteSession(x) =>
      && 0 <= x < |s.threads| && Created(s.threads[x])
      && (forall j :: 0 <= j < |s.threads| && s.threads[j].call == DeleteSession(x) ==> s.threads[j].pc.Idle?)
      && (forall j :: 0 <= j < |s.threads| && s.threads[j].call == UseSession(x) ==> !InFlight(s.threads[j].pc))
    case DeleteGraph =>
      && (forall j :: 0 <= j < |s.threads| && s.threads[j].call.DeleteGraph? ==> s.threads[j].pc.Idle?)
      && (forall j :: 0 <= j < |s.threads| && OnGraph(s.threads[j].call) ==> !InFlight(s.threads[j].pc))
  }

  function At(s: State, i: int, p: Pc): State
    requires 0 <= i < |s.threads|
  {
    s.(threads := s.threads[i := s.threads[i].(pc := p)])
  }

  /** What a call does while it holds the mutex. */
  function Body(s: State, i: int): State
    requires 0 <= i < |s.threads|
  {
    match s.threads[i].call
    case NewSession => At(s, i, AtUnlock(false)).(sessions := s.sessions + {i})
    case DeleteSession(x) =>
      At(s, i, AtUnlock(s.requested && s.sessions - {x} == {})).(sessions := s.sessions - {x})
    case DeleteGraph => At(s, i, AtUnlock(s.sessions == {})).(requested := true)
    case _ => At(s, i, AtUnlock(false))
  }

  ghost predicate StepOf(s: State, s': State, i: int) {
    && 0 <= i < |s.threads|
    && match s.threads[i].pc {
         case Idle => MayBegin(s, i) && s' == At(s, i, if s.threads[i].call.NewSession? then Making else AtLock)
         case Making => s' == At(s, i, AtLock) || s' == At(s, i, Failed)
         case AtLock => s.mu.Unlocked? && s' == At(s, i, Inside).(mu := LockedBy(i))
         case Inside => s' == Body(s, i)
         case AtUnlock(del) => s' == At(s, i, if del then Freeing else Done).(mu := Unlocked)
         case Freeing => s' == At(s, i, Done).(freed := s.freed + 1)
         case _ => false
       }
  }

  ghost predicate Step(s: State, s': State) {
    exists i :: StepOf(s, s', i)
  }

  ghost predicate Init(s: State) {
    && !s.requested && s.sessions == {} && s.mu.Unlocked? && s.freed == 0
    && (forall i :: 0 <= i < |s.threads| ==> s.threads[i].pc.Idle?)
  }

  // ---------------------------------------------------------------- the invariant

  predicate AboutToFree(p: Pc) { p == AtUnlock(true) || p.Freeing? }

  function FreeingCount(t: Thread): nat {
    if AboutToFree(t.pc) then 1 else 0
  }

  /** The threads that have decided to delete the graph and have not done so yet. */
  function Pending(t: seq<Thread>): nat {
    Sum(t, FreeingCount)
  }

  predicate Unreferenced(s: State) { s.requested && s.sessions == {} }

  ghost predicate MutexIsOwned(s: State) {
    && (forall i :: 0 <= i < |s.threads| ==>
          (s.threads[i].pc.Inside? || s.threads[i].pc.AtUnlock? <==> s.mu == LockedBy(i)))
    && (s.mu.LockedBy? ==> 0 <= s.mu.thread < |s.threads|)
  }

  /** A session is registered from its creation to its deletion. */
  ghost predicate Registered(s: State, x: int) {
    && 0 <= x < |s.threads| && s.threads[x].call.NewSession? && PastBody(s.threads[x].pc)
    && (forall j :: 0 <= j < |s.threads| && s.threads[j].call == DeleteSession(x) ==> !PastBody(s.threads[j].pc))
  }

  ghost predicate SessionsExact(s: State) {
    && (forall x :: x in s.sessions <==> Registered(s, x))
    && (forall i :: 0 <= i < |s.threads| && s.threads[i].call.DeleteGraph? && PastBody(s.threads[i].pc) ==> s.requested)
    && (s.requested ==> exists i :: 0 <= i < |s.threads| && s.threads[i].call.DeleteGraph? && PastBody(s.threads[i].pc))
  }

  /** What the API's rules leave of the ways in which two calls can overlap. */
  predicate Compatible(a: Thread, b: Thread) {
    && (OnGraph(a.call) && InFlight(a.pc) && b.call.DeleteGraph? ==> b.pc.Idle?)
    && (a.call.DeleteGraph? && b.call.DeleteGraph? ==> a.pc.Idle? || b.pc.Idle?)
    && (a.call.DeleteSession? && b.call == a.call ==> a.pc.Idle? || b.pc.Idle?)
    && (a.call.UseSession? && InFlight(a.pc) && b.call == DeleteSession(a.call.session) ==> b.pc.Idle?)
  }

  /** A call on a session has one to work on. */
  predicate HasSession(s: State, t: Thread) {
    (t.call.DeleteSession? && !t.pc.Idle?) || (t.call.UseSession? && InFlight(t.pc)) ==>
      0 <= t.call.session < |s.threads| && Created(s.threads[t.call.session])
  }

  ghost predicate RulesKept(s: State) {
    && (forall i, j :: 0 <= i < |s.threads| && 0 <= j < |s.threads| && i != j ==>
          Compatible(s.threads[i], s.threads[j]))
    && (forall i :: 0 <= i < |s.threads| ==> HasSession(s, s.threads[i]))
  }

  /** `del` still says whether the graph is unreferenced when the mutex is released. */
  ghost predicate DecisionsHold(s: State) {
    forall i :: 0 <= i < |s.threads| && s.threads[i].pc.AtUnlock? ==> (s.threads[i].pc.del <==> Unreferenced(s))
  }

  /** The documented invariant: the graph may be, and must be, deleted exactly when it is unreferenced. */
  ghost predicate DeletedOrPending(s: State) {
    s.freed + Pending(s.threads) == if Unreferenced(s) then 1 else 0
  }

  ghost predicate Inv(s: State) {
    && MutexIsOwned(s) && SessionsExact(s) && RulesKept(s) && DecisionsHold(s) && DeletedOrPending(s)
  }

  lemma PendingCounts(t: seq<Thread>)
    ensures Pending(t) == 0 <==> forall i :: 0 <= i < |t| ==> !AboutToFree(t[i].pc)
  {
    SumZero(t, FreeingCount);
    assert forall i :: 0 <= i < |t| ==> (FreeingCount(t[i]) == 0 <==> !AboutToFree(t[i].pc));
  }

  // ---------------------------------------------------------------- every step keeps it

  /** A step moves one thread and leaves all calls as they are. */
  lemma StepMoves(s: State, s': State, i: int)
    requires StepOf(s, s', i)
    ensures 0 <= i < |s.threads| == |s'.threads|
    ensures s'.threads == s.threads[i := s.threads[i].(pc := s'.threads[i].pc)]
  {
    assert s'.threads == s.threads[i := s.threads[i].(pc := s'.threads[i].pc)];
  }

  predicate Holds(p: Pc) { p.Inside? || p.AtUnlock? }

  /** What a step does to the mutex is what it does to the moving thread's claim on it. */
  lemma MutexMoves(s: State, s': State, i: int)
    requires MutexIsOwned(s) && StepOf(s, s', i)
    ensures |s'.threads| == |s.threads| && (Holds(s'.threads[i].pc) <==> s'.mu == LockedBy(i))
    ensures s'.mu == s.mu || (s.mu.Unlocked? && s'.mu == LockedBy(i)) || (s.mu == LockedBy(i) && s'.mu.Unlocked?)
  {
    hide MayBegin;
    assert Holds(s.threads[i].pc) <==> s.mu == LockedBy(i);
    hide MutexIsOwned;
  }

  lemma MutexStaysOwned(s: State, s': State, i: int)
    requires MutexIsOwned(s) && StepOf(s, s', i)
    ensures MutexIsOwned(s')
  {
    StepMoves(s, s', i);
    MutexMoves(s, s', i);
    hide StepOf;
  }

  lemma CompatibleStays(s: State, s': State, i: int, j: int)
    requires RulesKept(s) && StepOf(s, s', i) && 0 <= j < |s.threads| && j != i && |s'.threads| == |s.threads|
    requires s'.threads[i] == s.threads[i].(pc := s'.threads[i].pc)
    ensures Compatible(s'.threads[i], s.threads[j]) && Compatible(s.threads[j], s'.threads[i])
  {
    hide RulesKept, HasSession, Created;
    assert Compatible(s.threads[i], s.threads[j]) && Compatible(s.threads[j], s.threads[i]) by { RulesOf(s, i, j); }
  }

  lemma RulesOf(s: State, i: int, j: int)
    requires RulesKept(s) && 0 <= i < |s.threads| && 0 <= j < |s.threads|
    ensures i != j ==> Compatible(s.threads[i], s.threads[j]) && Compatible(s.threads[j], s.threads[i])
    ensures HasSession(s, s.threads[i])
  {
  }

  lemma RulesStayKept(s: State, s': State, i: int)
    requires RulesKept(s) && StepOf(s, s', i)
    ensures RulesKept(s')
  {
    StepMoves(s, s', i);
    forall a, b | 0 <= a < |s'.threads| && 0 <= b < |s'.threads| && a != b
      ensures Compatible(s'.threads[a], s'.threads[b])
    {
      hide StepOf, Compatible;
      RulesOf(s, a, b);
      if a == i { CompatibleStays(s, s', i, b); }
      if b == i { CompatibleStays(s, s', i, a); }
    }
    forall a | 0 <= a < |s'.threads| ensures HasSession(s', s'.threads[a]) {
      hide Compatible;
      RulesOf(s, a, a);
    }
  }

  /** The body of a deletion finds its session registered; that of `TF_DeleteGraph` is the first. */
  lemma BodyFinds(s: State, i: int)
    requires Inv(s) && 0 <= i < |s.threads| && !PastBody(s.threads[i].pc) && !s.threads[i].pc.Idle?
    ensures s.threads[i].call.DeleteSession? ==> s.threads[i].call.session in s.sessions
    ensures s.threads[i].call.DeleteGraph? ==> !s.requested
    ensures OnGraph(s.threads[i].call) && InFlight(s.threads[i].pc) ==> !s.requested
    ensures s.threads[i].call.UseSession? && InFlight(s.threads[i].pc) ==> s.threads[i].call.session in s.sessions
  {
    hide Pending;
    var t := s.threads[i];
    RulesOf(s, i, i);
    if t.call.DeleteSession? {
      assert Registered(s, t.call.session);
    }
    if t.call.UseSession? && InFlight(t.pc) {
      assert Registered(s, t.call.session);
    }
  }

  lemma SessionsStayExact(s: State, s': State, i: int)
    requires Inv(s) && StepOf(s, s', i)
    ensures SessionsExact(s')
  {
    hide Pending, DeletedOrPending, MutexIsOwned, DecisionsHold, MayBegin;
    StepMoves(s, s', i);
    if s.threads[i].pc.Inside? { BodyFinds(s, i); }
    RegisteredAfter(s, s', i);
    if s'.requested {
      if s.requested {
        var d :| 0 <= d < |s.threads| && s.threads[d].call.DeleteGraph? && PastBody(s.threads[d].pc);
        assert s'.threads[d].call.DeleteGraph? && PastBody(s'.threads[d].pc);
      } else {
        assert s'.threads[i].call.DeleteGraph? && PastBody(s'.threads[i].pc);
      }
    }
  }

  lemma RegisteredAfter(s: State, s': State, i: int)
    requires Inv(s) && StepOf(s, s', i)
    ensures forall x :: x in s'.sessions <==> Registered(s', x)
  {
    hide Pending, DeletedOrPending, MutexIsOwned, DecisionsHold, MayBegin, Unreferenced;
    StepMoves(s, s', i);
    forall x ensures x in s'.sessions <==> Registered(s', x) {
      assert x in s.sessions <==> Registered(s, x);
      if s.threads[i].pc.Inside? {
        if s.threads[i].call == DeleteSession(x) {
          assert !Registered(s', x) by { assert s'.threads[i].call == DeleteSession(x) && PastBody(s'.threads[i].pc); }
        } else if i == x && s.threads[i].call.NewSession? {
          assert x in s'.sessions;
          forall j | 0 <= j < |s'.threads| && s'.threads[j].call == DeleteSession(x)
            ensures !PastBody(s'.threads[j].pc)
          {
            assert s.threads[j].pc.Idle?;
          }
        } else {
          OthersKeepRegistered(s, s', i, x);
        }
      } else {
        OthersKeepRegistered(s, s', i, x);
      }
    }
  }

  /** Unless the step is the body of a call that creates or deletes `x`, it does not matter to `x`. */
  lemma OthersKeepRegistered(s: State, s': State, i: int, x: int)
    requires StepOf(s, s', i)
    requires s.threads[i].pc.Inside? ==>
               s.threads[i].call != DeleteSession(x) && !(i == x && s.threads[i].call.NewSession?)
    ensures Registered(s, x) <==> Registered(s', x)
    ensures x in s.sessions <==> x in s'.sessions
  {
    hide MayBegin;
    StepMoves(s, s', i);
    assert forall j :: 0 <= j < |s.threads| ==> s'.threads[j].call == s.threads[j].call;
    assert forall j :: 0 <= j < |s.threads| && (j != i || !s.threads[i].pc.Inside?) ==>
             (PastBody(s.threads[j].pc) <==> PastBody(s'.threads[j].pc));
  }

  lemma DeletionStaysDecided(s: State, s': State, i: int)
    requires Inv(s) && StepOf(s, s', i)
    ensures DecisionsHold(s') && DeletedOrPending(s')
  {
    hide SessionsExact, RulesKept, MayBegin, Sum;
    StepMoves(s, s', i);
    SumUpdate(s.threads, i, s'.threads[i], FreeingCount);
    if s.threads[i].pc.Inside? { BodyFinds(s, i); }
    assert s.threads[i].pc.Inside? ==> s.mu == LockedBy(i);
    assert forall j :: 0 <= j < |s.threads| && s.threads[j].pc.AtUnlock? ==> s.mu == LockedBy(j);
  }

  lemma StepKeepsInv(s: State, s': State)
    requires Inv(s) && Step(s, s')
    ensures Inv(s')
  {
    var i :| StepOf(s, s', i);
    MutexStaysOwned(s, s', i);
    RulesStayKept(s, s', i);
    SessionsStayExact(s, s', i);
    DeletionStaysDecided(s, s', i);
  }

  // ---------------------------------------------------------------- whole runs

  ghost predicate IsRun(run: seq<State>) {
    && run != [] && Init(run[0])
    && (forall k :: 0 <= k < |run| - 1 ==> Step(run[k], run[k + 1]))
  }

  lemma {:induction false} RunsKeepInv(run: seq<State>, k: nat)
    requires IsRun(run) && k < |run|
    ensures Inv(run[k])
  {
    if k == 0 {
      PendingCounts(run[0].threads);
    } else {
      hide Inv, Step, Init;
      RunsKeepInv(run, k - 1);
      assert Step(run[k - 1], run[k - 1 + 1]);
      StepKeepsInv(run[k - 1], run[k]);
    }
  }

  /** The graph is deleted at most once, not under a session, and nobody touches it afterwards. */
  ghost predicate Safe(s: State) {
    && s.freed <= 1
    && (s.sessions != {} ==> s.freed == 0)
    && (forall i :: 0 <= i < |s.threads| && Touches(s.threads[i].pc) ==> s.freed == 0)
  }

  lemma TouchesLive(s: State, i: int)
    requires Inv(s) && 0 <= i < |s.threads| && Touches(s.threads[i].pc)
    ensures s.freed == 0
  {
    var p := s.threads[i].pc;
    if AboutToFree(p) {
      PendingCounts(s.threads);
    } else if !p.AtUnlock? {
      BodyFinds(s, i);
    }
  }

  /** All calls are over, and every session has been deleted. */
  ghost predicate AllReleased(s: State) {
    && (forall i :: 0 <= i < |s.threads| ==> !InFlight(s.threads[i].pc))
    && (exists i :: 0 <= i < |s.threads| && s.threads[i].call.DeleteGraph? && s.threads[i].pc.Done?)
    && (forall x :: 0 <= x < |s.threads| && Created(s.threads[x]) ==>
          exists j :: 0 <= j < |s.threads| && s.threads[j].call == DeleteSession(x) && s.threads[j].pc.Done?)
  }

  /** Once nothing is in flight, the graph is gone if and only if it was given up by everybody. */
  lemma GoneIffReleased(s: State)
    requires Inv(s) && forall i :: 0 <= i < |s.threads| ==> !InFlight(s.threads[i].pc)
    ensures s.freed == 1 <==> AllReleased(s)
  {
    PendingCounts(s.threads);
    if AllReleased(s) {
      assert s.requested;
      forall x ensures x !in s.sessions {
        assert x in s.sessions <==> Registered(s, x);
      }
      assert s.sessions == {};
    }
    if Unreferenced(s) {
      forall x | 0 <= x < |s.threads| && Created(s.threads[x])
        ensures exists j :: 0 <= j < |s.threads| && s.threads[j].call == DeleteSession(x) && s.threads[j].pc.Done?
      {
        assert x !in s.sessions;
        assert !Registered(s, x);
        var j :| 0 <= j < |s.threads| && s.threads[j].call == DeleteSession(x) && PastBody(s.threads[j].pc);
        assert s.threads[j].pc.Done?;
      }
    }
  }

  /** In every interleaving that obeys the API, the graph is deleted exactly once and never too early. */
  lemma GraphIsFreedOnce(run: seq<State>, k: nat)
    requires IsRun(run) && k < |run|
    ensures Safe(run[k])
    ensures (forall i :: 0 <= i < |run[k].threads| ==> !InFlight(run[k].threads[i].pc)) ==>
              (run[k].freed == 1 <==> AllReleased(run[k]))
  {
    hide AllReleased;
    RunsKeepInv(run, k);
    var s := run[k];
    forall i | 0 <= i < |s.threads| && Touches(s.threads[i].pc) ensures s.freed == 0 { TouchesLive(s, i); }
    if forall i :: 0 <= i < |s.threads| ==> !InFlight(s.threads[i].pc) { GoneIffReleased(s); }
  }

  lemma UnfinishedUnregistered(s: State, i: int)
    requires Inv(s) && 0 <= i < |s.threads| && (s.threads[i].pc.Making? || s.threads[i].pc.Failed?)
    ensures i !in s.sessions
  {
    hide Pending, RulesKept, MutexIsOwned;
    assert i in s.sessions <==> Registered(s, i);
  }

  lemma FailsFromMaking(s: State, s': State, i: int)
    requires StepOf(s, s', i)
    ensures |s'.threads| == |s.threads|
    ensures s'.threads[i].pc.Making? ==> s.threads[i].call.NewSession?
    ensures s'.threads[i].pc.Failed? ==> s.threads[i].pc.Making?
  {
    hide MayBegin;
  }

  lemma IdleAtFirst(s: State, i: int)
    requires Init(s) && 0 <= i < |s.threads|
    ensures s.threads[i].pc.Idle?
  {
  }

  /** Only a creation can fail, and then it has registered nothing. */
  lemma {:induction false} OnlyCreationsFail(run: seq<State>, k: nat, i: int)
    requires IsRun(run) && k < |run| && 0 <= i < |run[k].threads|
    requires run[k].threads[i].pc.Making? || run[k].threads[i].pc.Failed?
    ensures run[k].threads[i].call.NewSession? && i !in run[k].sessions
  {
    hide Inv, Init, StepOf, MayBegin;
    RunsKeepInv(run, k);
    UnfinishedUnregistered(run[k], i);
    if k > 0 {
      assert Step(run[k - 1], run[k - 1 + 1]);
      var j :| StepOf(run[k - 1], run[k], j);
      StepMoves(run[k - 1], run[k], j);
      FailsFromMaking(run[k - 1], run[k], j);
      if j != i || run[k - 1].threads[i].pc.Making? { OnlyCreationsFail(run, k - 1, i); }
    } else {
      assert Init(run[0]);
      IdleAtFirst(run[0], i);
    }
  }

  // ---------------------------------------------------------------- progress

  function Rank(p: Pc): nat {
    match p {
      case Idle => 6 case Making => 5 case AtLock => 4 case Inside => 3 case AtUnlock(_) => 2 case Freeing => 1
      case _ => 0
    }
  }

  function ThreadRank(t: Thread): nat {
    Rank(t.pc)
  }

  function Work(t: seq<Thread>): nat {
    Sum(t, ThreadRank)
  }

  lemma StepDescends(s: State, s': State, i: int)
    requires StepOf(s, s', i)
    ensures 0 <= i < |s.threads| == |s'.threads| && Rank(s'.threads[i].pc) < Rank(s.threads[i].pc)
  {
    hide MayBegin;
  }

  lemma StepWorks(s: State, s': State)
    requires Step(s, s')
    ensures Work(s'.threads) < Work(s.threads)
  {
    hide StepOf, Rank;
    var i :| StepOf(s, s', i);
    StepMoves(s, s', i);
    StepDescends(s, s', i);
    SumUpdate(s.threads, i, s.threads[i].(pc := s'.threads[i].pc), ThreadRank);
  }

  /** No run is longer than the work its calls have to do, so every call that has begun returns. */
  lemma {:induction false} RunsTerminate(run: seq<State>, k: nat)
    requires IsRun(run) && k < |run|
    ensures k + Work(run[k].threads) <= Work(run[0].threads)
  {
    hide Step, Work, Init;
    if k > 0 {
      RunsTerminate(run, k - 1);
      assert Step(run[k - 1], run[k - 1 + 1]);
      StepWorks(run[k - 1], run[k]);
    }
  }

  /** A call that has begun is held up by nothing but the mutex, whose owner is held up by nothing. */
  lemma BegunCallsFinish(s: State, i: int) returns (j: int, s': State)
    requires Inv(s) && 0 <= i < |s.threads| && InFlight(s.threads[i].pc)
    ensures StepOf(s, s', j) && InFlight(s.threads[j].pc)
    ensures j == i || (s.threads[i].pc.AtLock? && s.mu == LockedBy(j))
    ensures Rank(s'.threads[j].pc) < Rank(s.threads[j].pc)
  {
    hide SessionsExact, RulesKept, DecisionsHold, DeletedOrPending;
    j := if s.threads[i].pc.AtLock? && s.mu.LockedBy? then s.mu.thread else i;
    assert s.mu == LockedBy(j) <==> s.threads[j].pc.Inside? || s.threads[j].pc.AtUnlock?;
    s' := match s.threads[j].pc {
      case Making => At(s, j, AtLock)
      case AtLock => At(s, j, Inside).(mu := LockedBy(j))
      case Inside => Body(s, j)
      case AtUnlock(del) => At(s, j, if del then Freeing else Done).(mu := Unlocked)
      case Freeing => At(s, j, Done).(freed := s.freed + 1)
      case _ => s
    };
    assert StepOf(s, s', j);
  }

  // ---------------------------------------------------------------- why the rule is there

  function Sample(requested: bool, mu: Owner, freed: nat, creator: Pc, deleter: Pc): State {
    State(requested, {}, mu, freed, [Thread(NewSession, creator), Thread(DeleteGraph, deleter)])
  }

  lemma CreatorStarts()
    ensures Step(Sample(false, Unlocked, 0, Idle, Idle), Sample(false, Unlocked, 0, Making, Idle))
    ensures Step(Sample(false, Unlocked, 0, Making, Idle), Sample(false, Unlocked, 0, AtLock, Idle))
  {
    assert StepOf(Sample(false, Unlocked, 0, Idle, Idle), Sample(false, Unlocked, 0, Making, Idle), 0);
    assert StepOf(Sample(false, Unlocked, 0, Making, Idle), Sample(false, Unlocked, 0, AtLock, Idle), 0);
  }

  lemma DeleterRuns()
    ensures Step(Sample(false, Unlocked, 0, AtLock, AtLock), Sample(false, LockedBy(1), 0, AtLock, Inside))
    ensures Step(Sample(false, LockedBy(1), 0, AtLock, Inside), Sample(true, LockedBy(1), 0, AtLock, AtUnlock(true)))
    ensures Step(Sample(true, LockedBy(1), 0, AtLock, AtUnlock(true)), Sample(true, Unlocked, 0, AtLock, Freeing))
    ensures Step(Sample(true, Unlocked, 0, AtLock, Freeing), Sample(true, Unlocked, 1, AtLock, Done))
  {
    assert StepOf(Sample(false, Unlocked, 0, AtLock, AtLock), Sample(false, LockedBy(1), 0, AtLock, Inside), 1);
    assert StepOf(Sample(false, LockedBy(1), 0, AtLock, Inside),
                  Sample(true, LockedBy(1), 0, AtLock, AtUnlock(true)), 1);
    assert StepOf(Sample(true, LockedBy(1), 0, AtLock, AtUnlock(true)), Sample(true, Unlocked, 0, AtLock, Freeing), 1);
    assert StepOf(Sample(true, Unlocked, 0, AtLock, Freeing), Sample(true, Unlocked, 1, AtLock, Done), 1);
  }

  /**
   Deleting the graph during a creation, which only the API's rule forbids, leaves the creator with a
   deleted graph.
   */
  lemma CreationMustNotOverlapDeletion(run: seq<State>)
    requires run == [
      Sample(false, Unlocked, 0, Idle, Idle),
      Sample(false, Unlocked, 0, Making, Idle),
      Sample(false, Unlocked, 0, AtLock, Idle),
      Sample(false, Unlocked, 0, AtLock, AtLock),
      Sample(false, LockedBy(1), 0, AtLock, Inside),
      Sample(true, LockedBy(1), 0, AtLock, AtUnlock(true)),
      Sample(true, Unlocked, 0, AtLock, Freeing),
      Sample(true, Unlocked, 1, AtLock, Done)]
    ensures Init(run[0]) && !Safe(run[7])
    ensures !MayBegin(run[2], 1) && run[3] == At(run[2], 1, AtLock)
    ensures forall k :: 0 <= k < 7 && k != 2 ==> Step(run[k], run[k + 1])
  {
    hide Step;
    assert Touches(run[7].threads[0].pc) && run[7].freed == 1;
    assert InFlight(run[2].threads[0].pc) && OnGraph(run[2].threads[0].call);
    CreatorStarts();
    DeleterRuns();
  }
}
