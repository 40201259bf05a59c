/**
 The Go `Session` (`session.go`): any number of goroutines call `Run`, `PartialRun.Run`, `NewPartialRun`
 and `Close` on one session.  A run takes the mutex only to look at the C session and to enter the wait
 group; `Close` keeps the mutex while it waits for the group to drain, and then deletes the C session.
 */
module GoSession {
  import opened Common

  /** The field `c`: the C session, or `nil` once it has been closed. */
  datatype Handle = Live | Nil

  /**
   Where a call stands.  The three kinds of run differ only in the C function they call; `RunCalling`
   holds the pointer that was handed to it.  `CloseLeaving` and `CloseDone` hold the absence of an error.
   */
  datatype Pc =
    | RunStart | RunLocked | RunRefusing | RunRefused
    | RunAdded | RunReady | RunCalling(session: Handle) | RunCalled | RunDone
    | CloseStart | CloseWaiting | CloseWaited | CloseClosed | CloseDeleted
    | CloseLeaving(ok: bool) | CloseDone(ok: bool)

  /** `freed` counts the deletions of the C session; it is not part of the Go object. */
  datatype State = State(c: Handle, freed: nat, mu: Owner, wg: int, threads: seq<Pc>)

  predicate HoldsMutex(p: Pc) {
    p in {RunLocked, RunRefusing, RunAdded, CloseWaiting, CloseWaited, CloseClosed, CloseDeleted} || p.CloseLeaving?
  }

  /** The call is counted in the wait group. */
  predicate InFlight(p: Pc) {
    p.RunAdded? || p.RunReady? || p.RunCalling? || p.RunCalled?
  }

  predicate PastWait(p: Pc) {
    p.CloseWaited? || p.CloseClosed? || p.CloseDeleted? || p.CloseLeaving?
  }

  predicate Finished(p: Pc) {
    p.RunRefused? || p.RunDone? || p.CloseDone?
  }

  function At(s: State, i: int, p: Pc): State
    requires 0 <= i < |s.threads|
  {
    s.(threads := s.threads[i := p])
  }

  /** What thread `i` may do next; `TF_CloseSession` may or may not fail. */
  ghost predicate StepOf(s: State, s': State, i: int) {
    && 0 <= i < |s.threads|
    && match s.threads[i] {
         case RunStart => s.mu.Unlocked? && s' == At(s, i, RunLocked).(mu := LockedBy(i))
         case RunLocked => s' == if s.c.Nil? then At(s, i, RunRefusing) else At(s, i, RunAdded).(wg := s.wg + 1)
         case RunRefusing => s' == At(s, i, RunRefused).(mu := Unlocked)
         case RunAdded => s' == At(s, i, RunReady).(mu := Unlocked)
         case RunReady => s' == At(s, i, RunCalling(s.c))
         case RunCalling(_) => s' == At(s, i, RunCalled)
         case RunCalled => s' == At(s, i, RunDone).(wg := s.wg - 1)
         case CloseStart => s.mu.Unlocked? && s' == At(s, i, CloseWaiting).(mu := LockedBy(i))
         case CloseWaiting => s.wg == 0 && s' == At(s, i, CloseWaited)
         case CloseWaited =>
           if s.c.Nil? then s' == At(s, i, CloseLeaving(true))
           else s' == At(s, i, CloseClosed) || s' == At(s, i, CloseLeaving(false))
         case CloseClosed => s' == At(s, i, CloseDeleted).(freed := s.freed + 1)
         case CloseDeleted => s' == At(s, i, CloseLeaving(true)).(c := Nil)
         case CloseLeaving(ok) => s' == At(s, i, CloseDone(ok)).(mu := Unlocked)
         case _ => false
       }
  }

  ghost predicate Step(s: State, s': State) {
    exists i :: StepOf(s, s', i)
  }

  /** A fresh session and calls that have not begun. */
  ghost predicate Init(s: State) {
    && s.c.Live? && s.freed == 0 && s.mu.Unlocked? && s.wg == 0
    && (forall i :: 0 <= i < |s.threads| ==> s.threads[i].RunStart? || s.threads[i].CloseStart?)
  }

  function InFlightCount(p: Pc): nat {
    if InFlight(p) then 1 else 0
  }

  /** The calls in flight, counted. */
  function Runs(threads: seq<Pc>): nat {
    Sum(threads, InFlightCount)
  }

  lemma RunsCount(t: seq<Pc>)
    ensures Runs(t) == 0 <==> forall i :: 0 <= i < |t| ==> !InFlight(t[i])
  {
    SumZero(t, InFlightCount);
    assert forall i :: 0 <= i < |t| ==> (InFlightCount(t[i]) == 0 <==> !InFlight(t[i]));
  }

  // ---------------------------------------------------------------- the invariant

  ghost predicate MutexIsOwned(s: State) {
    && (forall i :: 0 <= i < |s.threads| ==> (HoldsMutex(s.threads[i]) <==> s.mu == LockedBy(i)))
    && (s.mu.LockedBy? ==> 0 <= s.mu.thread < |s.threads|)
  }

  /** The C session exists exactly as long as `c` points to it, but for the instant after its deletion. */
  ghost predicate HandleMatches(s: State) {
    || (s.c.Live? && s.freed == 0)
    || (s.c.Nil? && s.freed == 1)
    || (s.c.Live? && s.freed == 1 && exists i :: 0 <= i < |s.threads| && s.threads[i].CloseDeleted?)
  }

  /** What a call may rely on at each point. */
  ghost predicate LocalInv(s: State, p: Pc) {
    && (InFlight(p) ==> s.c.Live? && s.freed == 0)
    && (p.RunCalling? ==> p.session.Live?)
    && (PastWait(p) ==> s.wg == 0)
    && (p.CloseClosed? ==> s.c.Live? && s.freed == 0)
    && (p.CloseDeleted? ==> s.c.Live? && s.freed == 1)
    && (p.RunRefusing? || p.RunRefused? || p == CloseLeaving(true) || p == CloseDone(true) ==> s.c.Nil? && s.freed == 1)
  }

  ghost predicate Inv(s: State) {
    && MutexIsOwned(s)
    && s.wg == Runs(s.threads)
    && HandleMatches(s)
    && (forall i :: 0 <= i < |s.threads| ==> LocalInv(s, s.threads[i]))
  }

  lemma MutexStaysOwned(s: State, s': State, i: int)
    requires Inv(s) && StepOf(s, s', i)
    ensures MutexIsOwned(s') && |s'.threads| == |s.threads|
  {
    hide Runs, HandleMatches, LocalInv, InFlight, PastWait;
  }

  lemma GroupFollows(s: State, s': State, i: int)
    requires StepOf(s, s', i)
    ensures 0 <= i < |s.threads| == |s'.threads| && s'.threads == s.threads[i := s'.threads[i]]
    ensures s'.wg == s.wg - InFlightCount(s.threads[i]) + InFlightCount(s'.threads[i])
  {
    assert s'.threads == s.threads[i := s'.threads[i]];
  }

  lemma RunsStayCounted(s: State, s': State, i: int)
    requires Inv(s) && StepOf(s, s', i)
    ensures s'.wg == Runs(s'.threads)
  {
    hide HandleMatches, LocalInv, MutexIsOwned, StepOf, InFlight;
    GroupFollows(s, s', i);
    SumUpdate(s.threads, i, s'.threads[i], InFlightCount);
  }

  lemma HandleStaysMatched(s: State, s': State, i: int)
    requires Inv(s) && StepOf(s, s', i)
    ensures HandleMatches(s')
  {
    hide Runs, InFlight;
    assert LocalInv(s, s.threads[i]);
    if s.c.Live? && s.freed == 1 {
      var d :| 0 <= d < |s.threads| && s.threads[d].CloseDeleted?;
      assert s.mu == LockedBy(d);
      assert LocalInv(s, s.threads[d]);
      if i != d {
        assert s'.threads[d].CloseDeleted?;
      }
    }
    if s.threads[i].CloseClosed? {
      assert s'.threads[i].CloseDeleted?;
    }
  }

  lemma LocalStays(s: State, s': State, i: int, j: int)
    requires Inv(s) && StepOf(s, s', i) && 0 <= j < |s.threads|
    ensures LocalInv(s', s'.threads[j])
  {
    hide Runs;
    RunsCount(s.threads);
    assert LocalInv(s, s.threads[i]) && LocalInv(s, s.threads[j]);
    assert HoldsMutex(s.threads[i]) <==> s.mu == LockedBy(i);
    assert HoldsMutex(s.threads[j]) <==> s.mu == LockedBy(j);
  }

  lemma StepKeepsInv(s: State, s': State)
    requires Inv(s) && Step(s, s')
    ensures Inv(s') && |s'.threads| == |s.threads|
  {
    var i :| StepOf(s, s', i);
    MutexStaysOwned(s, s', i);
    RunsStayCounted(s, s', i);
    HandleStaysMatched(s, s', i);
    forall j | 0 <= j < |s'.threads| ensures LocalInv(s', s'.threads[j]) {
      LocalStays(s, s', i, j);
    }
  }

  lemma InitInv(s: State)
    requires Init(s)
    ensures Inv(s)
  {
    RunsCount(s.threads);
  }

  // ---------------------------------------------------------------- progress

  /** Thread `i` can take a step. */
  ghost predicate Enabled(s: State, i: int) {
    exists s' :: StepOf(s, s', i)
  }

  /** Exactly two things can hold a call up: the mutex, and the wait group. */
  lemma EnabledIff(s: State, i: int)
    requires 0 <= i < |s.threads|
    ensures Enabled(s, i) <==>
              && !Finished(s.threads[i])
              && (s.threads[i].RunStart? || s.threads[i].CloseStart? ==> s.mu.Unlocked?)
              && (s.threads[i].CloseWaiting? ==> s.wg == 0)
  {
    var p := s.threads[i];
    if !Finished(p) && (p.RunStart? || p.CloseStart? ==> s.mu.Unlocked?) && (p.CloseWaiting? ==> s.wg == 0) {
      var s' := match p {
        case RunStart => At(s, i, RunLocked).(mu := LockedBy(i))
        case RunLocked => if s.c.Nil? then At(s, i, RunRefusing) else At(s, i, RunAdded).(wg := s.wg + 1)
        case RunRefusing => At(s, i, RunRefused).(mu := Unlocked)
        case RunAdded => At(s, i, RunReady).(mu := Unlocked)
        case RunReady => At(s, i, RunCalling(s.c))
        case RunCalling(_) => At(s, i, RunCalled)
        case RunCalled => At(s, i, RunDone).(wg := s.wg - 1)
        case CloseStart => At(s, i, CloseWaiting).(mu := LockedBy(i))
        case CloseWaiting => At(s, i, CloseWaited)
        case CloseWaited => if s.c.Nil? then At(s, i, CloseLeaving(true)) else At(s, i, CloseClosed)
        case CloseClosed => At(s, i, CloseDeleted).(freed := s.freed + 1)
        case CloseDeleted => At(s, i, CloseLeaving(true)).(c := Nil)
        case CloseLeaving(ok) => At(s, i, CloseDone(ok)).(mu := Unlocked)
        case _ => s
      };
      assert StepOf(s, s', i);
    }
  }

  /** While `Close` waits, only the runs it waits for can move, and every one of them can. */
  lemma WaitBlocksNoRun(s: State, c: int)
    requires Inv(s) && 0 <= c < |s.threads| && s.threads[c].CloseWaiting? && s.wg > 0
    ensures forall i :: 0 <= i < |s.threads| ==> (Enabled(s, i) <==> InFlight(s.threads[i]))
    ensures exists i :: 0 <= i < |s.threads| && InFlight(s.threads[i]) && Enabled(s, i)
  {
    hide Enabled;
    assert s.mu == LockedBy(c);
    forall i | 0 <= i < |s.threads| ensures Enabled(s, i) <==> InFlight(s.threads[i]) {
      EnabledIff(s, i);
      assert HoldsMutex(s.threads[i]) <==> i == c;
    }
    RunsCount(s.threads);
    assert !(forall i :: 0 <= i < |s.threads| ==> !InFlight(s.threads[i]));
  }

  lemma NoDeadlock(s: State)
    requires Inv(s) && exists i :: 0 <= i < |s.threads| && !Finished(s.threads[i])
    ensures exists i :: 0 <= i < |s.threads| && Enabled(s, i)
  {
    hide Enabled;
    var u :| 0 <= u < |s.threads| && !Finished(s.threads[u]);
    var i := if s.mu.LockedBy? then s.mu.thread else u;
    EnabledIff(s, i);
    if s.threads[i].CloseWaiting? && s.wg > 0 {
      WaitBlocksNoRun(s, i);
    } else {
      RunsCount(s.threads);
      assert HoldsMutex(s.threads[i]) <==> s.mu == LockedBy(i);
      assert Enabled(s, i);
    }
  }

  // ---------------------------------------------------------------- whole runs

  ghost predicate IsRun(run: seq<State>) {
    && run != [] && Init(run[0])
    && (forall k :: 0 <= k < |run| - 1 ==> Step(run[k], run[k + 1]))
  }

  /** An upper bound on the steps a call has left. */
  function Rank(p: Pc): nat {
    match p {
      case RunStart => 6 case RunLocked => 5 case RunAdded => 4 case RunReady => 3
      case RunCalling(_) => 2 case RunCalled => 1 case RunRefusing => 1
      case CloseStart => 6 case CloseWaiting => 5 case CloseWaited => 4
      case CloseClosed => 3 case CloseDeleted => 2 case CloseLeaving(_) => 1
      case _ => 0
    }
  }

  function Work(t: seq<Pc>): nat {
    Sum(t, Rank)
  }

  lemma StepDescends(s: State, s': State, i: int)
    requires StepOf(s, s', i)
    ensures 0 <= i < |s.threads| == |s'.threads| && s'.threads == s.threads[i := s'.threads[i]]
    ensures Rank(s'.threads[i]) < Rank(s.threads[i])
  {
    assert s'.threads == s.threads[i := s'.threads[i]];
  }

  lemma StepWorks(s: State, s': State)
    requires Step(s, s')
    ensures Work(s'.threads) < Work(s.threads)
  {
    hide StepOf, Rank;
    var i :| StepOf(s, s', i);
    StepDescends(s, s', i);
    SumUpdate(s.threads, i, s'.threads[i], Rank);
  }

  lemma {:induction false} RunsKeepInv(run: seq<State>, k: nat)
    requires IsRun(run) && k < |run|
    ensures Inv(run[k]) && |run[k].threads| == |run[0].threads|
    ensures Work(run[k].threads) <= Work(run[0].threads) - k
  {
    hide Inv, Init, Step, Work;
    if k == 0 {
      InitInv(run[0]);
    } else {
      RunsKeepInv(run, k - 1);
      assert Step(run[k - 1], run[k - 1 + 1]);
      StepKeepsInv(run[k - 1], run[k]);
      StepWorks(run[k - 1], run[k]);
    }
  }

  /** The C session is never touched after it is gone: not by a run, not by a second deletion, not through `nil`. */
  ghost predicate Safe(s: State) {
    && s.freed <= 1
    // a run inside the C library works on a session that has not been deleted
    && (forall i :: 0 <= i < |s.threads| && s.threads[i].RunCalling? ==> s.threads[i].session.Live? && s.freed == 0)
    // a run about to enter the C library will hand over a pointer that is not nil
    && (forall i :: 0 <= i < |s.threads| && s.threads[i].RunReady? ==> s.c.Live? && s.freed == 0)
    // a close about to close or delete the C session has it to itself
    && (forall i, j :: 0 <= i < |s.threads| && 0 <= j < |s.threads| && PastWait(s.threads[i]) ==>
          !InFlight(s.threads[j]))
    && (forall i :: 0 <= i < |s.threads| && s.threads[i].CloseClosed? ==> s.c.Live? && s.freed == 0)
    // a run enters the wait group only while nobody waits for it, and leaves it only after entering
    && (forall i, j :: 0 <= i < |s.threads| && 0 <= j < |s.threads| && s.threads[i].RunLocked? ==>
          !s.threads[j].CloseWaiting?)
    && s.wg >= 0
    // a refused run was right, and a close without an error has done its work
    && (forall i :: 0 <= i < |s.threads| && (s.threads[i].RunRefused? || s.threads[i] == CloseDone(true)) ==>
          s.c.Nil? && s.freed == 1)
  }

  lemma InvIsSafe(s: State)
    requires Inv(s)
    ensures Safe(s)
  {
    RunsCount(s.threads);
    forall i | 0 <= i < |s.threads| ensures LocalInv(s, s.threads[i]) {}
  }

  /** Every interleaving of runs and closes is safe, and somebody can always go on until all have returned. */
  lemma SessionProtocol(run: seq<State>, k: nat)
    requires IsRun(run) && k < |run|
    ensures Safe(run[k])
    ensures (forall i :: 0 <= i < |run[k].threads| ==> Finished(run[k].threads[i]))
         || (exists i :: 0 <= i < |run[k].threads| && Enabled(run[k], i))
    ensures |run| - 1 <= Work(run[0].threads)
  {
    hide Enabled, Inv, Safe, Work;
    RunsKeepInv(run, k);
    RunsKeepInv(run, |run| - 1);
    InvIsSafe(run[k]);
    if exists i :: 0 <= i < |run[k].threads| && !Finished(run[k].threads[i]) {
      NoDeadlock(run[k]);
    }
  }

  function RankInFlight(p: Pc): nat {
    if InFlight(p) then Rank(p) else 0
  }

  /** What the runs in flight have left to do. */
  function WaitLeft(t: seq<Pc>): nat {
    Sum(t, RankInFlight)
  }

  /** Every step taken while `Close` waits brings the end of the wait closer, and lets no new run in. */
  lemma WaitingStep(s: State, s': State, c: int)
    requires Inv(s) && Step(s, s') && 0 <= c < |s.threads| && s.threads[c].CloseWaiting? && s.wg > 0
    ensures c < |s'.threads| && s'.threads[c].CloseWaiting? && s'.c == s.c && s'.freed == s.freed
    ensures WaitLeft(s'.threads) == WaitLeft(s.threads) - 1 && s'.wg <= s.wg
  {
    var i :| StepOf(s, s', i);
    assert Enabled(s, i);
    WaitBlocksNoRun(s, c);
    assert s.mu == LockedBy(c);
    assert HoldsMutex(s.threads[i]) <==> i == c;
    SumUpdate(s.threads, i, s'.threads[i], RankInFlight);
  }

  /** A `Close` that is waiting at `k` and still waiting for runs at `m` has seen one step of those runs each time. */
  lemma {:induction false} WaitIsBounded(run: seq<State>, k: nat, m: nat, c: int)
    requires IsRun(run) && k <= m < |run|
    requires 0 <= c < |run[k].threads| && run[k].threads[c].CloseWaiting?
    requires forall l :: k <= l < m ==> run[l].wg > 0
    ensures c < |run[m].threads| && run[m].threads[c].CloseWaiting?
    ensures m - k == WaitLeft(run[k].threads) - WaitLeft(run[m].threads)
  {
    hide Inv, Step, WaitLeft, Init;
    if k < m {
      WaitIsBounded(run, k, m - 1, c);
      RunsKeepInv(run, m - 1);
      assert Step(run[m - 1], run[m - 1 + 1]);
      WaitingStep(run[m - 1], run[m], c);
    }
  }

  // ---------------------------------------------------------------- what a close returns

  /** A close that reports an error has left the session as it was, and usable. */
  lemma FailedCloseChangesNothing(s: State, s': State, i: int)
    requires Inv(s) && StepOf(s, s', i) && s'.threads[i] == CloseLeaving(false)
    ensures s'.c == s.c == Live && s'.freed == s.freed == 0 && s'.wg == s.wg
  {
    hide Runs, MutexIsOwned;
    assert LocalInv(s, s.threads[i]);
    if s.freed == 1 {
      OneDeleter(s, i);
    }
  }

  /** While one close has deleted the C session and not yet forgotten it, no other is past its wait. */
  lemma OneDeleter(s: State, i: int)
    requires Inv(s) && 0 <= i < |s.threads| && s.threads[i].CloseWaited?
    ensures forall j :: 0 <= j < |s.threads| ==> !s.threads[j].CloseDeleted?
  {
    hide Runs, LocalInv, HandleMatches;
    assert HoldsMutex(s.threads[i]) <==> s.mu == LockedBy(i);
  }

  /** Where a call may be that found the session closed, or began after it was. */
  predicate FoundClosed(p: Pc) {
    || p.RunStart? || p.RunLocked? || p.RunRefusing? || p.RunRefused?
    || p.CloseStart? || p.CloseWaiting? || p.CloseWaited? || p == CloseLeaving(true) || p == CloseDone(true)
  }

  lemma ClosedStepOf(s: State, s': State, j: int)
    requires StepOf(s, s', j) && s.c.Nil?
    ensures 0 <= j < |s.threads| && s'.c.Nil? && s'.threads == s.threads[j := s'.threads[j]]
    ensures FoundClosed(s.threads[j]) ==> FoundClosed(s'.threads[j])
  {
    assert s'.threads == s.threads[j := s'.threads[j]];
  }

  lemma ClosedStep(s: State, s': State)
    requires Step(s, s') && s.c.Nil? && s.freed == 1
    ensures |s'.threads| == |s.threads| && s'.c.Nil?
    ensures forall i :: 0 <= i < |s.threads| && FoundClosed(s.threads[i]) ==> FoundClosed(s'.threads[i])
  {
    hide StepOf, FoundClosed;
    var j :| StepOf(s, s', j);
    ClosedStepOf(s, s', j);
  }

  /**
   Once the session is closed it stays closed: every run that has not looked at it yet will be refused,
   and every close that has not looked at it yet will return no error.
   */
  lemma {:induction false} ClosedStaysClosed(run: seq<State>, k: nat, m: nat, i: int)
    requires IsRun(run) && k <= m < |run| && run[k].c.Nil?
    requires 0 <= i < |run[k].threads| && FoundClosed(run[k].threads[i])
    ensures run[m].c.Nil? && run[m].freed == 1
    ensures i < |run[m].threads| && FoundClosed(run[m].threads[i])
    decreases m
  {
    hide Step, Init, LocalInv, MutexIsOwned, Runs, Work;
    RunsKeepInv(run, m);
    if k < m {
      ClosedStaysClosed(run, k, m - 1, i);
      assert Step(run[m - 1], run[m - 1 + 1]);
      ClosedStep(run[m - 1], run[m]);
    }
  }

  /** A close that has deleted the C session returns no error. */
  lemma {:induction false} DeletingCloseSucceeds(run: seq<State>, k: nat, m: nat, i: int)
    requires IsRun(run) && k <= m < |run| && 0 <= i < |run[k].threads| && run[k].threads[i].CloseDeleted?
    ensures i < |run[m].threads|
    ensures run[m].threads[i] in {CloseDeleted, CloseLeaving(true), CloseDone(true)}
    decreases m
  {
    hide Init;
    if k < m {
      DeletingCloseSucceeds(run, k, m - 1, i);
      assert Step(run[m - 1], run[m - 1 + 1]);
      hide IsRun;
    }
  }
}
