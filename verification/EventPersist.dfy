/** Persistent events over whole runs: they stay scheduled until they are deleted, as long as they
    are registered again each time they are served. */
module EventPersist {
  import opened Options
  import opened Pointers
  import opened EventSpec
  import opened EventRuns
  import opened EventLoop

  /** The operation neither removes e nor cancels its interval. */
  ghost predicate Spares(op: Op, e: nat) {
    match op
    case Add(id, tv, _, _) => id == e ==> tv != Some(ZERO)
    case Del(id) => id != e
    case Free(id) => id != e
    case _ => true
  }

  ghost predicate AllSpare(ops: seq<Op>, e: nat) { forall i :: 0 <= i < |ops| ==> Spares(ops[i], e) }

  lemma OpKeepsPending(s: Base, op: Op, e: nat)
    requires Inv(s) && Legal(s, op, Null) && Pending(s, e) && Spares(op, e)
    ensures Pending(Apply(s, op), e)
  {
    if op.Add? { AddFrame(s, op.id, op.tv, false, op.now, op.ok); }
  }

  lemma {:induction false} OpsKeepPending(s: Base, ops: seq<Op>, saved: Ptr, e: nat)
    requires Inv(s) && LegalOps(s, ops, saved) && Pending(s, e) && AllSpare(ops, e)
    ensures Pending(RunOps(s, ops, saved), e)
    decreases ops
  {
    if ops != [] {
      OpInv(s, ops[0]);
      OpKeepsPending(s, ops[0], e);
      OpsKeepPending(Apply(s, ops[0]), ops[1..], saved, e);
    }
  }

  /** e is registered, or registering it now would succeed. */
  ghost predicate Admitted(s: Base, e: nat, ok: bool) { e in s.events && (s.events[e].reg || Registers(s, e, ok)) }

  /** Serving a persistent event with an interval puts it back on the timer tree. */
  lemma ServedAgain(s: Base, e: nat, turn: Turn)
    requires Inv(s) && e in s.events && Persist in s.events[e].events && s.events[e].interval != ZERO
    requires Admitted(s, e, turn.ok)
    ensures var v := ServeOne(s, e, turn).events[e];
      v.timed && v.reg && v.deadline == NextDeadline(s.events[e], turn.now) && v.interval == s.events[e].interval
      && v.events == s.events[e].events
  {
    RemoveActiveInv(s, e);
  }

  /** event_process_active ignores what event_add returns: the event survives its turn exactly when
      it is still registered or can be registered again. */
  lemma ServedPendingIff(s: Base, e: nat, turn: Turn)
    requires Inv(s) && e in s.active && e in s.events && Persist in s.events[e].events && s.events[e].interval != ZERO
    ensures Pending(ServeOne(s, e, turn), e) <==> Admitted(s, e, turn.ok)
  {
    if Admitted(s, e, turn.ok) {
      ServedAgain(s, e, turn);
    } else {
      assert ServeOne(s, e, turn) == RemoveActive(s, e);
    }
  }

  /** Each time the pass serves e, e is admitted. */
  ghost predicate Readmits(s: Base, turns: seq<Turn>, e: nat)
    requires Inv(s) && LegalPass(s, turns)
    decreases turns
  {
    turns == [] ||
    (&& (s.active[0] == e ==> Admitted(s, e, turns[0].ok))
     && (HeadServed(s, turns[0]);
         Readmits(RunOps(ServeOne(s, s.active[0], turns[0]), turns[0].ops, HeadOf(s.active[1..])), turns[1..], e)))
  }

  ghost predicate TurnsSpare(turns: seq<Turn>, e: nat) { forall i :: 0 <= i < |turns| ==> AllSpare(turns[i].ops, e) }

  lemma ServeKeepsPending(s: Base, x: nat, turn: Turn, e: nat)
    requires Inv(s) && x in s.events && Pending(s, e) && (x == e ==> Admitted(s, e, turn.ok))
    ensures Pending(ServeOne(s, x, turn), e)
  {
    ServeOneInv(s, x, turn);
    if x == e { ServedAgain(s, e, turn); }
  }

  lemma {:induction false} PassKeepsPending(s: Base, turns: seq<Turn>, e: nat)
    requires Inv(s) && LegalPass(s, turns) && Pending(s, e) && TurnsSpare(turns, e) && Readmits(s, turns, e)
    ensures Pending(Pass(s, turns).0, e)
    decreases turns
  {
    if s.active != [] {
      var s1 := ServeOne(s, s.active[0], turns[0]);
      ServeOneInv(s, s.active[0], turns[0]);
      ServeKeepsPending(s, s.active[0], turns[0], e);
      OpsKeepPending(s1, turns[0].ops, HeadOf(s.active[1..]), e);
      HeadServed(s, turns[0]);
      PassKeepsPending(RunOps(s1, turns[0].ops, HeadOf(s.active[1..])), turns[1..], e);
    }
  }

  ghost predicate ActionSpares(s: Base, a: Action, e: nat)
    requires Inv(s) && LegalAction(s, a)
  {
    match a
    case User(op) => Spares(op, e)
    case Serve(turns) => TurnsSpare(turns, e) && Readmits(s, turns, e)
    case _ => true
  }

  lemma StepKeepsPending(s: Base, a: Action, e: nat)
    requires Inv(s) && LegalAction(s, a) && Pending(s, e) && ActionSpares(s, a, e)
    ensures Pending(Step(s, a), e)
  {
    match a
    case User(op) => OpKeepsPending(s, op, e);
    case Report(f, bits) => ReadyExact(s, f, bits);
    case Tick(now) => var _ := ExpireExact(s, now);
    case Serve(turns) => PassKeepsPending(s, turns, e);
  }

  /** Nobody deletes e or cancels its interval, and each serving of e re-registers it. */
  ghost predicate RunSpares(s: Base, run: seq<Action>, e: nat)
    requires Inv(s) && LegalRun(s, run)
    decreases run
  {
    run == [] ||
    (ActionSpares(s, run[0], e) &&
     (StepInv(s, run[0]);
      RunSpares(Step(s, run[0]), run[1..], e)))
  }

  /** Over any run in which e's registration succeeds, a persistent event with a non-zero interval
      stays scheduled, or waiting for its callback, until it is deleted. */
  lemma {:induction false} StaysPending(s: Base, run: seq<Action>, e: nat)
    requires Inv(s) && LegalRun(s, run) && Pending(s, e) && RunSpares(s, run, e)
    ensures Pending(Reached(s, run), e)
    decreases run
  {
    if run != [] {
      StepInv(s, run[0]);
      StepKeepsPending(s, run[0], e);
      StaysPending(Step(s, run[0]), run[1..], e);
    }
  }

  // ----- loops -----

  lemma {:induction false} ReportsKeepPending(s: Base, wakes: seq<Wake>, e: nat)
    requires Inv(s) && Pending(s, e)
    ensures Pending(Reports(s, wakes), e)
    decreases wakes
  {
    if wakes != [] {
      var fd, bits := wakes[0].fd, Translate(wakes[0].what);
      ReadyExact(s, fd, bits);
      StepKeepsPending(s, Report(fd, bits), e);
      ReportsKeepPending(Ready(s, fd, bits), wakes[1..], e);
    }
  }

  /** In every pass of the loop nobody deletes e or cancels its interval, and each serving of e
      re-registers it. */
  ghost predicate LoopSpares(s: Base, its: seq<Iteration>, e: nat)
    requires Inv(s) && LegalLoop(s, its)
    decreases its
  {
    NothingLeft(s) || its == [] || its[0].wakes.None? ||
    (&& TurnsSpare(its[0].turns, e) && Readmits(Fired(s, its[0]), its[0].turns, e)
     && LoopSpares(AfterIteration(s, its), its[1..], e))
  }

  lemma IterationKeepsPending(s: Base, its: seq<Iteration>, e: nat)
    requires Inv(s) && LegalLoop(s, its) && !NothingLeft(s) && its != [] && its[0].wakes.Some? && Pending(s, e)
    requires TurnsSpare(its[0].turns, e) && Readmits(Fired(s, its[0]), its[0].turns, e)
    ensures Pending(AfterIteration(s, its), e)
  {
    ReportsKeepPending(s, its[0].wakes.value, e);
    StepKeepsPending(Reports(s, its[0].wakes.value), Tick(its[0].now), e);
    PassKeepsPending(Fired(s, its[0]), its[0].turns, e);
  }

  lemma PendingCounts(s: Base, e: nat)
    requires Inv(s) && Pending(s, e)
    ensures !NothingLeft(s)
  {
    EmptyExitIff(s);
    assert e in s.timers || e in s.active;
  }

  /** The same over whole loops: such an event is still scheduled when the loop ends, so a loop that
      has one never reports an empty base. */
  lemma {:induction false} LoopStaysPending(s: Base, its: seq<Iteration>, e: nat)
    requires Inv(s) && LegalLoop(s, its) && Pending(s, e) && LoopSpares(s, its, e)
    ensures Pending(Loop(s, its).0, e) && Loop(s, its).2 != Empty
    decreases its
  {
    PendingCounts(s, e);
    if its != [] && its[0].wakes.Some? {
      IterationKeepsPending(s, its, e);
      LoopStaysPending(AfterIteration(s, its), its[1..], e);
    }
  }

  // ----- persistent events without a time -----

  /** A registered persistent event that has neither a timer nor an interval. */
  ghost predicate Steady(s: Base, e: nat) {
    && e in s.events && Persist in s.events[e].events && s.events[e].interval == ZERO
    && s.events[e].reg && !s.events[e].timed
  }

  /** The operation neither removes e nor gives it a time. */
  ghost predicate LeavesSteady(op: Op, e: nat) {
    match op
    case Add(id, tv, _, _) => id == e ==> tv.None? || Negative(tv)
    case Del(id) => id != e
    case Free(id) => id != e
    case _ => true
  }

  ghost predicate AllLeaveSteady(ops: seq<Op>, e: nat) { forall i :: 0 <= i < |ops| ==> LeavesSteady(ops[i], e) }

  ghost predicate TurnsLeaveSteady(turns: seq<Turn>, e: nat) {
    forall i :: 0 <= i < |turns| ==> AllLeaveSteady(turns[i].ops, e)
  }

  /** The registration of e, as opposed to what one report does to it. */
  ghost predicate SameRegistered(s: Base, s': Base, e: nat) {
    e in s.events && e in s'.events && s'.events[e].fd == s.events[e].fd && s'.events[e].events == s.events[e].events
  }

  lemma OpKeepsSteady(s: Base, op: Op, e: nat)
    requires Inv(s) && Legal(s, op, Null) && Steady(s, e) && LeavesSteady(op, e)
    ensures Steady(Apply(s, op), e) && SameRegistered(s, Apply(s, op), e)
  {
    if op.Add? { AddFrame(s, op.id, op.tv, false, op.now, op.ok); }
  }

  lemma {:induction false} OpsKeepSteady(s: Base, ops: seq<Op>, saved: Ptr, e: nat)
    requires Inv(s) && LegalOps(s, ops, saved) && Steady(s, e) && AllLeaveSteady(ops, e)
    ensures Steady(RunOps(s, ops, saved), e) && SameRegistered(s, RunOps(s, ops, saved), e)
    decreases ops
  {
    if ops != [] {
      OpInv(s, ops[0]);
      OpKeepsSteady(s, ops[0], e);
      OpsKeepSteady(Apply(s, ops[0]), ops[1..], saved, e);
    }
  }

  lemma ServeKeepsSteady(s: Base, x: nat, turn: Turn, e: nat)
    requires Inv(s) && x in s.events && Steady(s, e)
    ensures Steady(ServeOne(s, x, turn), e) && SameRegistered(s, ServeOne(s, x, turn), e)
  {
    if x != e { ServeOneInv(s, x, turn); }
  }

  lemma {:induction false} PassKeepsSteady(s: Base, turns: seq<Turn>, e: nat)
    requires Inv(s) && LegalPass(s, turns) && Steady(s, e) && TurnsLeaveSteady(turns, e)
    ensures Steady(Pass(s, turns).0, e) && SameRegistered(s, Pass(s, turns).0, e)
    decreases turns
  {
    if s.active != [] {
      var s1, saved := ServeOne(s, s.active[0], turns[0]), HeadOf(s.active[1..]);
      ServeOneInv(s, s.active[0], turns[0]);
      ServeKeepsSteady(s, s.active[0], turns[0], e);
      OpsKeepSteady(s1, turns[0].ops, saved, e);
      HeadServed(s, turns[0]);
      PassKeepsSteady(RunOps(s1, turns[0].ops, saved), turns[1..], e);
    }
  }

  ghost predicate ActionLeavesSteady(a: Action, e: nat) {
    match a
    case User(op) => LeavesSteady(op, e)
    case Serve(turns) => TurnsLeaveSteady(turns, e)
    case _ => true
  }

  lemma StepKeepsSteady(s: Base, a: Action, e: nat)
    requires Inv(s) && LegalAction(s, a) && Steady(s, e) && ActionLeavesSteady(a, e)
    ensures Steady(Step(s, a), e) && SameRegistered(s, Step(s, a), e)
  {
    match a
    case User(op) => OpKeepsSteady(s, op, e);
    case Report(f, bits) => ReadyExact(s, f, bits);
    case Tick(now) => var _ := ExpireExact(s, now);
    case Serve(turns) => PassKeepsSteady(s, turns, e);
  }

  /** Over any run, however often it is called back, a persistent event without a time stays
      registered for the same descriptor and bits until it is deleted or given a time. */
  lemma {:induction false} StaysRegistered(s: Base, run: seq<Action>, e: nat)
    requires Inv(s) && LegalRun(s, run) && Steady(s, e)
    requires forall i :: 0 <= i < |run| ==> ActionLeavesSteady(run[i], e)
    ensures Steady(Reached(s, run), e) && SameRegistered(s, Reached(s, run), e)
    decreases run
  {
    if run != [] {
      StepInv(s, run[0]);
      StepKeepsSteady(s, run[0], e);
      StaysRegistered(Step(s, run[0]), run[1..], e);
    }
  }

  lemma {:induction false} LoopActionsLeaveSteady(s: Base, its: seq<Iteration>, e: nat)
    requires Inv(s) && LegalLoop(s, its) && forall i :: 0 <= i < |its| ==> TurnsLeaveSteady(its[i].turns, e)
    ensures forall i :: 0 <= i < |AsRun(s, its)| ==> ActionLeavesSteady(AsRun(s, its)[i], e)
    decreases its
  {
    if !(NothingLeft(s) || its == [] || its[0].wakes.None?) {
      LoopActionsLeaveSteady(AfterIteration(s, its), its[1..], e);
      var a, b := IterationRun(its[0]), AsRun(AfterIteration(s, its), its[1..]);
      forall i | 0 <= i < |a| ensures ActionLeavesSteady(a[i], e) {}
      assert AsRun(s, its) == a + b;
    }
  }

  /** The same over whole loops; a loop with such an event that polls never reports an empty base. */
  lemma LoopStaysRegistered(s: Base, its: seq<Iteration>, e: nat)
    requires Inv(s) && LegalLoop(s, its) && Steady(s, e)
    requires forall i :: 0 <= i < |its| ==> TurnsLeaveSteady(its[i].turns, e)
    ensures var s' := Loop(s, its).0;
      Steady(s', e) && SameRegistered(s, s', e) && (Mapped(s.events[e]) ==> Loop(s, its).2 != Empty)
  {
    LoopIsRun(s, its);
    LoopActionsLeaveSteady(s, its, e);
    StaysRegistered(s, AsRun(s, its), e);
    RunInv(s, AsRun(s, its));
    if Mapped(s.events[e]) {
      SlottedCounts(Loop(s, its).0, e);
      EmptyMeansEmpty(s, its);
    }
  }

  lemma SlottedCounts(s: Base, e: nat)
    requires Inv(s) && e in s.events && Slotted(s.events[e])
    ensures !NothingLeft(s)
  {
    EmptyExitIff(s);
    assert e in s.slots[SlotOf(s.events[e].fd)];
  }

  lemma {:induction false} EmptyMeansEmpty(s: Base, its: seq<Iteration>)
    requires Inv(s) && LegalLoop(s, its)
    ensures Loop(s, its).2 == Empty ==> NothingLeft(Loop(s, its).0)
    decreases its
  {
    if !(NothingLeft(s) || its == [] || its[0].wakes.None?) {
      EmptyMeansEmpty(AfterIteration(s, its), its[1..]);
    }
  }
}
