/**
 Extending sessions by the nodes added to their graph (`ExtendSessionGraphHelper` in `c_api.cc`).  Before
 a session runs, it is sent the nodes that its graph has gained since its last successful extension.
 Any number of threads run any number of sessions while nodes are being added; a check for cycles and
 the extension itself may fail at any time.
 */
module SessionExtension {
  import opened Common

  /** A node id of the graph: an operation, the source or sink node, or a node that was taken back. */
  datatype Slot = Op | Internal | Vacant

  /** The ids of the operations with `from <= id < upto`, in order. */
  function OpsBetween(nodes: seq<Slot>, from: nat, upto: nat): seq<nat>
    requires from <= upto <= |nodes|
  {
    if from == upto then []
    else OpsBetween(nodes, from, upto - 1) + (if nodes[upto - 1].Op? then [upto - 1] else [])
  }

  /** Exactly the operations of the range, each once, in ascending order. */
  lemma {:induction false} OpsAreExact(nodes: seq<Slot>, from: nat, upto: nat)
    requires from <= upto <= |nodes|
    ensures forall id :: id in OpsBetween(nodes, from, upto) <==> from <= id < upto && nodes[id].Op?
    ensures forall i, j :: 0 <= i < j < |OpsBetween(nodes, from, upto)| ==>
              OpsBetween(nodes, from, upto)[i] < OpsBetween(nodes, from, upto)[j]
  {
    if from < upto {
      OpsAreExact(nodes, from, upto - 1);
      var before := OpsBetween(nodes, from, upto - 1);
      assert forall i :: 0 <= i < |before| ==> before[i] in before;
    }
  }

  lemma {:induction false} OpsConcatenate(nodes: seq<Slot>, a: nat, b: nat, c: nat)
    requires a <= b <= c <= |nodes|
    ensures OpsBetween(nodes, a, c) == OpsBetween(nodes, a, b) + OpsBetween(nodes, b, c)
  {
    if b < c { OpsConcatenate(nodes, a, b, c - 1); }
  }

  /** Adding nodes does not change what lies below. */
  lemma {:induction false} OpsOfPrefix(nodes: seq<Slot>, added: seq<Slot>, from: nat, upto: nat)
    requires from <= upto <= |nodes|
    ensures OpsBetween(nodes + added, from, upto) == OpsBetween(nodes, from, upto)
  {
    if from < upto { OpsOfPrefix(nodes, added, from, upto - 1); }
  }

  /** The loop that fills the graph definition. */
  method NodesSince(nodes: seq<Slot>, from: nat) returns (batch: seq<nat>)
    requires from <= |nodes|
    ensures batch == OpsBetween(nodes, from, |nodes|)
  {
    batch := [];
    for id := from to |nodes|
      invariant batch == OpsBetween(nodes, from, id)
    {
      if nodes[id].Op? {
        batch := batch + [id];
      }
    }
  }

  // ---------------------------------------------------------------- the protocol

  /** `sent` is what the session has been extended by so far; only the rest is in the C object. */
  datatype Session = Session(last: nat, sent: seq<nat>, mu: Owner)

  datatype Pc =
    | Start | GotGraph | GotBoth
    | Extending(batch: seq<nat>, upto: nat)
    | Returned(ok: bool)

  /** A call on a session; `seen` is the number of nodes there were when it began. */
  datatype Thread = Thread(session: nat, pc: Pc, seen: nat)

  datatype State = State(nodes: seq<Slot>, graphMu: Owner, sessions: seq<Session>, threads: seq<Thread>)

  predicate HoldsGraph(p: Pc) { p.GotGraph? || p.GotBoth? }

  predicate HoldsSession(p: Pc) { p.GotBoth? || p.Extending? }

  function At(s: State, i: int, p: Pc): State
    requires 0 <= i < |s.threads|
  {
    s.(threads := s.threads[i := s.threads[i].(pc := p)])
  }

  function WithSession(s: State, x: nat, n: Session): State
    requires x < |s.sessions|
  {
    s.(sessions := s.sessions[x := n])
  }

  /** One step of thread `i`; `fails` decides what the check for cycles and the extension return. */
  ghost predicate StepOf(s: State, s': State, i: int, fails: bool) {
    && 0 <= i < |s.threads| && s.threads[i].session < |s.sessions|
    && var x := s.threads[i].session;
       var n := s.sessions[x];
       match s.threads[i].pc {
         case Start => s.graphMu.Unlocked? && s' == At(s, i, GotGraph).(graphMu := LockedBy(i))
         case GotGraph => n.mu.Unlocked? && s' == WithSession(At(s, i, GotBoth), x, n.(mu := LockedBy(i)))
         case GotBoth =>
           if n.last < |s.nodes| && !fails then
             s' == At(s, i, Extending(OpsBetween(s.nodes, n.last, |s.nodes|), |s.nodes|)).(graphMu := Unlocked)
           else
             s' == WithSession(At(s, i, Returned(n.last >= |s.nodes|)), x, n.(mu := Unlocked)).(graphMu := Unlocked)
         case Extending(batch, upto) =>
           if fails then s' == WithSession(At(s, i, Returned(false)), x, n.(mu := Unlocked))
           else s' == WithSession(At(s, i, Returned(true)), x, Session(upto, n.sent + batch, Unlocked))
         case Returned(_) => false
       }
  }

  /** Somebody adds a node, and possibly takes it back, while holding the graph's mutex. */
  ghost predicate AddStep(s: State, s': State) {
    s.graphMu.Unlocked? && exists slot :: s' == s.(nodes := s.nodes + [slot])
  }

  /** A new call begins. */
  ghost predicate CallStep(s: State, s': State) {
    exists x: nat :: x < |s.sessions| && s' == s.(threads := s.threads + [Thread(x, Start, |s.nodes|)])
  }

  ghost predicate Step(s: State, s': State) {
    AddStep(s, s') || CallStep(s, s') || exists i, fails :: StepOf(s, s', i, fails)
  }

  ghost predicate Init(s: State) {
    && s.graphMu.Unlocked? && s.threads == []
    && (forall x :: 0 <= x < |s.sessions| ==> s.sessions[x] == Session(0, [], Unlocked))
  }

  // ---------------------------------------------------------------- the invariant

  /** What the session has been sent: the operations below `last_num_graph_nodes`. */
  ghost predicate InStep(nodes: seq<Slot>, n: Session) {
    n.last <= |nodes| && n.sent == OpsBetween(nodes, 0, n.last)
  }

  /** Thread `i` owns the mutexes that it should own at its point of the code. */
  ghost predicate OwnsItsMutexes(s: State, i: int)
    requires 0 <= i < |s.threads|
  {
    && s.threads[i].session < |s.sessions|
    && (HoldsGraph(s.threads[i].pc) <==> s.graphMu == LockedBy(i))
    && (HoldsSession(s.threads[i].pc) <==> s.sessions[s.threads[i].session].mu == LockedBy(i))
  }

  ghost predicate MutexHasOwner(s: State, x: int)
    requires 0 <= x < |s.sessions|
  {
    s.sessions[x].mu.LockedBy? ==>
      0 <= s.sessions[x].mu.thread < |s.threads| && s.threads[s.sessions[x].mu.thread].session == x
  }

  ghost predicate MutexesOwned(s: State) {
    && (forall i :: 0 <= i < |s.threads| ==> OwnsItsMutexes(s, i))
    && (forall x :: 0 <= x < |s.sessions| ==> MutexHasOwner(s, x))
    && (s.graphMu.LockedBy? ==> 0 <= s.graphMu.thread < |s.threads|)
  }

  ghost predicate CallInv(s: State, t: Thread) {
    && t.session < |s.sessions| && t.seen <= |s.nodes|
    && (t.pc.Extending? ==>
          && s.sessions[t.session].last <= t.pc.upto <= |s.nodes| && t.seen <= t.pc.upto
          && t.pc.batch == OpsBetween(s.nodes, s.sessions[t.session].last, t.pc.upto))
    && (t.pc == Returned(true) ==> t.seen <= s.sessions[t.session].last)
  }

  ghost predicate Inv(s: State) {
    && MutexesOwned(s)
    && (forall x :: 0 <= x < |s.sessions| ==> InStep(s.nodes, s.sessions[x]))
    && (forall i :: 0 <= i < |s.threads| ==> CallInv(s, s.threads[i]))
  }

  /** A step changes no mutexes but the graph's and that of its own session. */
  lemma MoverMutexes(s: State, s': State, i: int, fails: bool)
    requires MutexesOwned(s) && StepOf(s, s', i, fails)
    ensures |s'.threads| == |s.threads| && |s'.sessions| == |s.sessions|
    ensures s'.threads == s.threads[i := s.threads[i].(pc := s'.threads[i].pc)]
    ensures OwnsItsMutexes(s', i) && MutexHasOwner(s', s.threads[i].session)
    ensures forall x :: 0 <= x < |s.sessions| && x != s.threads[i].session ==> s'.sessions[x] == s.sessions[x]
    ensures s'.graphMu == s.graphMu || {s.graphMu, s'.graphMu} == {Unlocked, LockedBy(i)}
    ensures var x := s.threads[i].session;
            s'.sessions[x].mu == s.sessions[x].mu || {s.sessions[x].mu, s'.sessions[x].mu} == {Unlocked, LockedBy(i)}
  {
    hide OpsBetween;
    assert OwnsItsMutexes(s, i) && MutexHasOwner(s, s.threads[i].session);
    hide MutexesOwned;
    assert s'.threads == s.threads[i := s.threads[i].(pc := s'.threads[i].pc)];
  }

  lemma MutexesStayOwned(s: State, s': State, i: int, fails: bool)
    requires MutexesOwned(s) && StepOf(s, s', i, fails)
    ensures MutexesOwned(s')
  {
    MoverMutexes(s, s', i, fails);
    hide StepOf;
    forall j | 0 <= j < |s'.threads| ensures OwnsItsMutexes(s', j) {
      assert OwnsItsMutexes(s, j);
      assert LockedBy(j) in {s.graphMu, s'.graphMu} && s'.graphMu != s.graphMu ==> j == i;
    }
    forall x | 0 <= x < |s'.sessions| ensures MutexHasOwner(s', x) {
      assert MutexHasOwner(s, x);
    }
  }

  /** A successful extension by the right batch leaves the session in step. */
  lemma ExtensionStaysInStep(nodes: seq<Slot>, n: Session, upto: nat)
    requires InStep(nodes, n) && n.last <= upto <= |nodes|
    ensures InStep(nodes, Session(upto, n.sent + OpsBetween(nodes, n.last, upto), Unlocked))
  {
    OpsConcatenate(nodes, 0, n.last, upto);
  }

  /** How the session of the moving thread changes. */
  lemma MoverSession(s: State, s': State, i: int, fails: bool)
    requires Inv(s) && StepOf(s, s', i, fails)
    ensures s'.nodes == s.nodes && |s'.sessions| == |s.sessions| && |s'.threads| == |s.threads|
    ensures 0 <= i < |s.threads| && s.threads[i].session < |s.sessions|
    ensures var x := s.threads[i].session;
            InStep(s.nodes, s'.sessions[x]) && s.sessions[x].last <= s'.sessions[x].last
            && (!s.threads[i].pc.Extending? ==> s'.sessions[x].last == s.sessions[x].last)
            && s'.sessions == s.sessions[x := s'.sessions[x]]
    ensures s'.threads == s.threads[i := s.threads[i].(pc := s'.threads[i].pc)]
    ensures CallInv(s', s'.threads[i])
  {
    hide MutexesOwned, OpsBetween;
    var x := s.threads[i].session;
    assert InStep(s.nodes, s.sessions[x]) && CallInv(s, s.threads[i]);
    if s.threads[i].pc.Extending? {
      ExtensionStaysInStep(s.nodes, s.sessions[x], s.threads[i].pc.upto);
    }
    assert s'.sessions == s.sessions[x := s'.sessions[x]];
    assert s'.threads == s.threads[i := s.threads[i].(pc := s'.threads[i].pc)];
  }

  lemma ThreadStepKeeps(s: State, s': State, i: int, fails: bool)
    requires Inv(s) && StepOf(s, s', i, fails)
    ensures Inv(s')
  {
    MutexesStayOwned(s, s', i, fails);
    MoverSession(s, s', i, fails);
    forall j | 0 <= j < |s.threads| && j != i && s.threads[j].session == s.threads[i].session
      ensures !(s.threads[i].pc.Extending? && s.threads[j].pc.Extending?)
    {
      assert OwnsItsMutexes(s, i) && OwnsItsMutexes(s, j);
    }
    hide StepOf, MutexesOwned, OpsBetween, InStep;
    forall j | 0 <= j < |s'.threads| ensures CallInv(s', s'.threads[j]) {
      assert CallInv(s, s.threads[j]);
    }
  }

  lemma AddStepKeeps(s: State, s': State, slot: Slot)
    requires Inv(s) && s.graphMu.Unlocked? && s' == s.(nodes := s.nodes + [slot])
    ensures Inv(s')
  {
    hide OpsBetween;
    forall i | 0 <= i < |s'.threads| ensures OwnsItsMutexes(s', i) { assert OwnsItsMutexes(s, i); }
    forall x | 0 <= x < |s'.sessions| ensures MutexHasOwner(s', x) { assert MutexHasOwner(s, x); }
    forall x | 0 <= x < |s'.sessions| ensures InStep(s'.nodes, s'.sessions[x]) {
      OpsOfPrefix(s.nodes, [slot], 0, s.sessions[x].last);
    }
    forall j | 0 <= j < |s'.threads| ensures CallInv(s', s'.threads[j]) {
      var t := s.threads[j];
      assert CallInv(s, t);
      if t.pc.Extending? {
        OpsOfPrefix(s.nodes, [slot], s.sessions[t.session].last, t.pc.upto);
      }
    }
  }

  lemma CallStepKeeps(s: State, s': State)
    requires Inv(s) && CallStep(s, s')
    ensures Inv(s')
  {
    hide OpsBetween, InStep;
    var n := |s.threads|;
    assert forall j :: 0 <= j < n ==> s'.threads[j] == s.threads[j];
    assert s.graphMu != LockedBy(n) && forall x :: 0 <= x < |s.sessions| ==> s.sessions[x].mu != LockedBy(n) by {
      forall x | 0 <= x < |s.sessions| ensures s.sessions[x].mu != LockedBy(n) { assert MutexHasOwner(s, x); }
    }
    forall i | 0 <= i < |s'.threads| ensures OwnsItsMutexes(s', i) {
      assert i < n ==> OwnsItsMutexes(s, i);
    }
    forall x | 0 <= x < |s'.sessions| ensures MutexHasOwner(s', x) { assert MutexHasOwner(s, x); }
    forall j | 0 <= j < |s'.threads| ensures CallInv(s', s'.threads[j]) {
      assert j < n ==> CallInv(s, s.threads[j]);
    }
  }

  lemma StepKeepsInv(s: State, s': State)
    requires Inv(s) && Step(s, s')
    ensures Inv(s')
  {
    hide OpsBetween;
    if AddStep(s, s') {
      var slot :| s' == s.(nodes := s.nodes + [slot]);
      AddStepKeeps(s, s', slot);
    } else if CallStep(s, s') {
      CallStepKeeps(s, s');
    } else {
      var i, fails :| StepOf(s, s', i, fails);
      ThreadStepKeeps(s, s', i, fails);
    }
  }

  // ---------------------------------------------------------------- what succeeds and what fails

  /** The mutexes of a call: the graph's while it looks at the nodes, the session's until it returns. */
  lemma MutexesOfACall(s: State, i: int)
    requires Inv(s) && 0 <= i < |s.threads|
    ensures s.threads[i].session < |s.sessions|
    ensures var p, mu := s.threads[i].pc, s.sessions[s.threads[i].session].mu;
            && (p.Start? || p.Returned? ==> s.graphMu != LockedBy(i) && mu != LockedBy(i))
            && (p.GotGraph? ==> s.graphMu == LockedBy(i) && mu != LockedBy(i))
            && (p.GotBoth? ==> s.graphMu == mu == LockedBy(i))
            && (p.Extending? ==> s.graphMu != LockedBy(i) && mu == LockedBy(i))
  {
    hide InStep, CallInv;
    assert OwnsItsMutexes(s, i);
  }

  /** When a call ends, and how: it fails only if it has something to send, and then whenever a check does. */
  lemma HowCallsEnd(s: State, s': State, i: int, fails: bool)
    requires StepOf(s, s', i, fails)
    ensures |s'.threads| == |s.threads| && |s'.sessions| == |s.sessions|
    ensures var p, n := s.threads[i].pc, s.sessions[s.threads[i].session];
            && (s'.threads[i].pc.Returned? <==> p.Extending? || (p.GotBoth? && (n.last >= |s.nodes| || fails)))
            && (s'.threads[i].pc == Returned(false) <==> fails && (p.Extending? || (p.GotBoth? && n.last < |s.nodes|)))
  {
    hide OpsBetween;
  }

  /** What session `x` has been sent, and up to which node, is as before. */
  ghost predicate Untouched(s: State, s': State, x: int) {
    && 0 <= x < |s.sessions| && |s'.sessions| == |s.sessions|
    && s'.sessions[x].last == s.sessions[x].last && s'.sessions[x].sent == s.sessions[x].sent
  }

  /** Thread `i` goes from sending its batch to success, and its session has got the batch. */
  ghost predicate Sends(s: State, s': State, i: int, x: int) {
    && 0 <= i < |s.threads| == |s'.threads| && s.threads[i].session == x < |s.sessions| == |s'.sessions|
    && s.threads[i].pc.Extending? && s'.threads[i].pc == Returned(true)
    && s'.sessions[x].last == s.threads[i].pc.upto
    && s'.sessions[x].sent == s.sessions[x].sent + s.threads[i].pc.batch
  }

  /** A step touches a session only by a call that succeeds with its batch; one that ends in failure touches none. */
  lemma OnlySuccessTouches(s: State, s': State, i: int, fails: bool, x: int)
    requires StepOf(s, s', i, fails) && 0 <= x < |s.sessions|
    ensures |s'.threads| == |s.threads|
    ensures Untouched(s, s', x) || Sends(s, s', i, x)
    ensures s'.threads[i].pc == Returned(false) ==> Untouched(s, s', x)
    ensures s.threads[i].pc.Extending? && !fails ==> Sends(s, s', i, s.threads[i].session)
  {
    hide OpsBetween;
  }

  // ---------------------------------------------------------------- whole runs

  ghost predicate IsRun(run: seq<State>) {
    && run != [] && Init(run[0])
    && (forall k :: 0 <= k < |run| - 1 ==> Step(run[k], run[k + 1]))
  }

  lemma {:induction false} RunsKeepInv(run: seq<State>, k: nat)
    requires IsRun(run) && k < |run|
    ensures Inv(run[k])
  {
    if k > 0 {
      hide Inv, Step, Init;
      RunsKeepInv(run, k - 1);
      assert Step(run[k - 1], run[k - 1 + 1]);
      StepKeepsInv(run[k - 1], run[k]);
    }
  }

  /** Nothing is skipped, nothing is repeated, and the order is that of the ids. */
  ghost predicate NoGapsNoRepeats(s: State, n: Session) {
    && n.last <= |s.nodes|
    && (forall id :: id in n.sent <==> 0 <= id < n.last && s.nodes[id].Op?)
    && (forall i, j :: 0 <= i < j < |n.sent| ==> n.sent[i] < n.sent[j])
  }

  /**
   Whatever fails and in whatever order things happen, each session has been sent exactly the operations
   below its mark, and a call that succeeded has brought over every operation there was when it began.
   */
  lemma ExtensionIsExact(run: seq<State>, k: nat)
    requires IsRun(run) && k < |run|
    ensures forall x :: 0 <= x < |run[k].sessions| ==> NoGapsNoRepeats(run[k], run[k].sessions[x])
    ensures forall i :: 0 <= i < |run[k].threads| && run[k].threads[i].pc == Returned(true) ==>
              && run[k].threads[i].session < |run[k].sessions| && run[k].threads[i].seen <= |run[k].nodes|
              && forall id :: 0 <= id < run[k].threads[i].seen && run[k].nodes[id].Op? ==>
                   id in run[k].sessions[run[k].threads[i].session].sent
  {
    hide OpsBetween;
    RunsKeepInv(run, k);
    var s := run[k];
    forall x | 0 <= x < |s.sessions| ensures NoGapsNoRepeats(s, s.sessions[x]) {
      assert InStep(s.nodes, s.sessions[x]);
      OpsAreExact(s.nodes, 0, s.sessions[x].last);
    }
    forall i | 0 <= i < |s.threads| && s.threads[i].pc == Returned(true)
      ensures s.threads[i].session < |s.sessions| && s.threads[i].seen <= |s.nodes|
      ensures forall id :: 0 <= id < s.threads[i].seen && s.nodes[id].Op? ==>
                id in s.sessions[s.threads[i].session].sent
    {
      assert CallInv(s, s.threads[i]);
      assert NoGapsNoRepeats(s, s.sessions[s.threads[i].session]);
    }
  }

  /**
   In every run a session's mark and what it has been sent stay as they are but for the steps in which one
   of its calls succeeds with a batch.
   */
  lemma SessionsGrowBySuccess(run: seq<State>, k: nat, x: int)
    requires IsRun(run) && k + 1 < |run| && 0 <= x < |run[k].sessions|
    ensures var s, s' := run[k], run[k + 1]; Untouched(s, s', x) || exists i :: Sends(s, s', i, x)
  {
    hide Init, StepOf, OpsBetween;
    var s, s' := run[k], run[k + 1];
    assert Step(s, s');
    hide IsRun;
    if !AddStep(s, s') && !CallStep(s, s') {
      var i, fails :| StepOf(s, s', i, fails);
      OnlySuccessTouches(s, s', i, fails, x);
    }
  }

  /** A call moves only by steps of its own in which nothing fails. */
  ghost predicate NothingFails(run: seq<State>, i: nat) {
    forall k :: 0 <= k < |run| - 1 && i < |run[k].threads| && i < |run[k + 1].threads|
                && run[k + 1].threads[i].pc != run[k].threads[i].pc ==>
                  StepOf(run[k], run[k + 1], i, false)
  }

  lemma NothingFailsAt(run: seq<State>, i: nat, k: nat)
    requires NothingFails(run, i) && k + 1 < |run| && i < |run[k].threads| && i < |run[k + 1].threads|
    requires run[k + 1].threads[i].pc != run[k].threads[i].pc
    ensures StepOf(run[k], run[k + 1], i, false)
  {
  }

  /** The calls there are stay, and a new one is at its start. */
  lemma CallsStay(s: State, s': State)
    requires Step(s, s')
    ensures |s.threads| <= |s'.threads| <= |s.threads| + 1 && s.nodes <= s'.nodes
    ensures forall i :: 0 <= i < |s.threads| ==> s'.threads[i].seen == s.threads[i].seen
    ensures |s'.threads| > |s.threads| ==>
              s'.threads[|s.threads|].pc.Start? && s'.threads[|s.threads|].seen == |s.nodes|
  {
    hide OpsBetween;
  }

  lemma NoCallsAtFirst(run: seq<State>)
    requires IsRun(run)
    ensures run != [] && run[0].threads == []
  {
  }

  lemma AlwaysStep(run: seq<State>, k: nat)
    requires IsRun(run) && k + 1 < |run|
    ensures Step(run[k], run[k + 1])
  {
  }

  /** Such a call does not return an error. */
  lemma {:induction false} NothingFailsNoError(run: seq<State>, i: nat, k: nat)
    requires IsRun(run) && NothingFails(run, i) && k < |run| && i < |run[k].threads|
    ensures run[k].threads[i].pc != Returned(false)
  {
    hide IsRun, Step, StepOf, NothingFails;
    if k > 0 {
      AlwaysStep(run, k - 1);
      CallsStay(run[k - 1], run[k]);
      if i < |run[k - 1].threads| {
        NothingFailsNoError(run, i, k - 1);
        if run[k].threads[i].pc != run[k - 1].threads[i].pc {
          NothingFailsAt(run, i, k - 1);
          HowCallsEnd(run[k - 1], run[k], i, false);
        }
      }
    } else {
      NoCallsAtFirst(run);
    }
  }

  lemma LongerStill(a: seq<Slot>, b: seq<Slot>, c: seq<Slot>)
    requires a <= b <= c
    ensures a <= c
  {
  }

  lemma {:induction false} BegunLater(run: seq<State>, k: nat, m: nat)
    requires IsRun(run) && k <= m < |run|
    ensures run[k].nodes <= run[m].nodes && |run[k].threads| <= |run[m].threads|
    ensures forall i :: |run[k].threads| <= i < |run[m].threads| ==> |run[k].nodes| <= run[m].threads[i].seen
    decreases m
  {
    hide IsRun, Step;
    if k < m {
      BegunLater(run, k, m - 1);
      AlwaysStep(run, m - 1);
      CallsStay(run[m - 1], run[m]);
      LongerStill(run[k].nodes, run[m - 1].nodes, run[m].nodes);
    }
  }

  /**
   A call that succeeds has brought over every operation that the graph had in any state before the call
   began.
   */
  lemma CallsCatchUp(run: seq<State>, k: nat, m: nat, i: int)
    requires IsRun(run) && k <= m < |run| && |run[k].threads| <= i < |run[m].threads|
    requires run[m].threads[i].pc == Returned(true)
    ensures run[m].threads[i].session < |run[m].sessions|
    ensures forall id :: 0 <= id < |run[k].nodes| && run[k].nodes[id].Op? ==>
              id in run[m].sessions[run[m].threads[i].session].sent
  {
    BegunLater(run, k, m);
    ExtensionIsExact(run, m);
    hide IsRun;
    assert forall id :: 0 <= id < |run[k].nodes| ==> run[m].nodes[id] == run[k].nodes[id];
  }

  // ---------------------------------------------------------------- progress

  /** Taking the graph's mutex before the session's cannot deadlock: while a call is unfinished, some call can go on. */
  lemma NoDeadlock(s: State, u: int) returns (i: int, s': State)
    requires Inv(s) && 0 <= u < |s.threads| && !s.threads[u].pc.Returned?
    ensures StepOf(s, s', i, false)
  {
    hide OpsBetween, InStep, CallInv;
    i := u;
    if s.threads[i].pc.Start? && s.graphMu.LockedBy? {
      i := s.graphMu.thread;
    }
    assert OwnsItsMutexes(s, i);
    assert MutexHasOwner(s, s.threads[i].session);
    if s.threads[i].pc.GotGraph? && s.sessions[s.threads[i].session].mu.LockedBy? {
      var holder := s.sessions[s.threads[i].session].mu.thread;
      assert OwnsItsMutexes(s, holder);
      i := holder;
    }
    var x := s.threads[i].session;
    var n := s.sessions[x];
    s' := match s.threads[i].pc {
      case Start => At(s, i, GotGraph).(graphMu := LockedBy(i))
      case GotGraph => WithSession(At(s, i, GotBoth), x, n.(mu := LockedBy(i)))
      case GotBoth =>
        if n.last < |s.nodes| then
          At(s, i, Extending(OpsBetween(s.nodes, n.last, |s.nodes|), |s.nodes|)).(graphMu := Unlocked)
        else WithSession(At(s, i, Returned(true)), x, n.(mu := Unlocked)).(graphMu := Unlocked)
      case Extending(batch, upto) => WithSession(At(s, i, Returned(true)), x, Session(upto, n.sent + batch, Unlocked))
      case _ => s
    };
  }
}
