/** Runs from a new base on which a promise one might expect of the event loop fails.  Each goes
    with the lemma that says exactly when the promise holds. */
module EventWitness {
  import opened Options
  import opened Sequences
  import opened Pointers
  import opened Timevals
  import opened EventSpec
  import opened EventInv
  import opened EventRuns
  import opened EventLoop
  import opened EventWatch
  import opened EventPersist
  import opened EventTimes

  /** The run leads from a new base to s. */
  ghost predicate LeadsTo(run: seq<Action>, s: Base) {
    EmptyInv();
    LegalRun(EmptyBase(), run) && Reached(EmptyBase(), run) == s
  }

  lemma Extend(run: seq<Action>, s: Base, a: Action)
    requires LeadsTo(run, s) && Inv(s) && LegalAction(s, a)
    ensures LeadsTo(run + [a], Step(s, a)) && Inv(Step(s, a))
  {
    EmptyInv();
    RunSnoc(EmptyBase(), run, s, a);
    StepInv(s, a);
  }

  /** One more event object. */
  lemma NewStep(run: seq<Action>, s: Base, id: nat, fd: int, events: set<Bit>) returns (run': seq<Action>, s': Base)
    requires LeadsTo(run, s) && Inv(s) && id !in s.events
    ensures LeadsTo(run', s') && Inv(s') && s' == s.(events := s.events[id := FreshEvent(fd, events)])
    ensures NormalTimes(s) ==> NormalTimes(s')
  {
    var a := User(New(id, fd, events));
    Extend(run, s, a);
    run', s' := run + [a], Step(s, a);
  }

  /** It is registered without a time. */
  lemma JoinStep(run: seq<Action>, s: Base, id: nat) returns (run': seq<Action>, s': Base)
    requires LeadsTo(run, s) && Inv(s) && id in s.events && !s.events[id].reg && Registers(s, id, true)
    ensures LeadsTo(run', s') && Inv(s') && s' == Registered(s, id)
  {
    var a := User(Add(id, None, ZERO, true));
    Extend(run, s, a);
    run', s' := run + [a], Step(s, a);
  }

  /** It is registered with a time of one second, at time 0. */
  lemma ArmStep(run: seq<Action>, s: Base, id: nat) returns (run': seq<Action>, s': Base)
    requires LeadsTo(run, s) && Inv(s) && NormalTimes(s) && id in s.events && Admitted(s, id, true)
    requires Persist in s.events[id].events
    ensures LeadsTo(run', s') && Inv(s') && NormalTimes(s') && s'.active == s.active
    ensures s'.events ==
      s.events[id := s.events[id].(reg := true, timed := true, deadline := SECOND, interval := SECOND)]
  {
    var a := User(Add(id, Some(SECOND), ZERO, true));
    Extend(run, s, a);
    OpNormal(s, a.op, Null);
    ArmedRecord(s, id);
    run', s' := run + [a], Step(s, a);
  }

  lemma RegisteredRecord(s: Base, id: nat)
    requires id in s.events && |s.slots| == MAP_SIZE
    ensures var r := Registered(s, id);
      r.events == s.events[id := s.events[id].(reg := true)] && r.active == s.active && r.timers == s.timers
  {
    if s.events[id].reg { assert s.events[id := s.events[id].(reg := true)] == s.events; }
  }

  lemma ArmedRecord(s: Base, id: nat)
    requires id in s.events && |s.slots| == MAP_SIZE && (forall x :: x in s.timers ==> x in s.events)
    requires Admitted(s, id, true) && Persist in s.events[id].events
    ensures var s' := Apply(s, Add(id, Some(SECOND), ZERO, true));
      s'.active == s.active && s'.events ==
        s.events[id := s.events[id].(reg := true, timed := true, deadline := SECOND, interval := SECOND)]
  {
    RegisteredRecord(s, id);
    RescheduledRecord(Registered(s, id), id);
  }

  lemma RescheduledRecord(r: Base, id: nat)
    requires id in r.events && forall x :: x in r.timers ==> x in r.events
    ensures var s' := Rescheduled(r, id, SECOND, SECOND);
      s'.active == r.active && s'.events ==
        r.events[id := r.events[id].(timed := true, deadline := SECOND, interval := SECOND)]
  {
  }

  lemma NewBase()
    ensures LeadsTo([], EmptyBase()) && Inv(EmptyBase())
  {
    EmptyInv();
  }

  // ----- readiness of a shared slot -----

  lemma ReadsMapped(v: Event)
    requires v.fd >= 0 && Read in v.events
    ensures Mapped(v) && v.events * {Read} != {}
  {
    assert Read in v.events * IO && Read in v.events * {Read};
  }

  /** One more registered reader. */
  lemma ReaderStep(run: seq<Action>, s: Base, id: nat, fd: int) returns (run': seq<Action>, s': Base)
    requires LeadsTo(run, s) && Inv(s) && id !in s.events && fd >= 0 && fd !in s.epoll
    ensures LeadsTo(run', s') && Inv(s') && s'.epoll == s.epoll + {fd} && s'.active == s.active
    ensures s'.events == s.events[id := FreshEvent(fd, {Read}).(reg := true)]
  {
    var s1;
    run', s1 := NewStep(run, s, id, fd, {Read});
    ReadsMapped(s1.events[id]);
    run', s' := JoinStep(run', s1, id);
  }

  /** Readers of descriptors 1 and 33, both registered. */
  lemma TwoReaders() returns (run: seq<Action>, s: Base)
    ensures LeadsTo(run, s) && Inv(s) && s.epoll == {1, 33} && s.active == []
    ensures s.events.Keys == {7, 8} && s.events[7] == FreshEvent(1, {Read}).(reg := true)
    ensures s.events[8] == FreshEvent(33, {Read}).(reg := true)
  {
    NewBase();
    run, s := ReaderStep([], EmptyBase(), 7, 1);
    run, s := ReaderStep(run, s, 8, 33);
  }

  /** Descriptors 1 and 33 are both watched and share a slot: a report for 1 wakes the reader of 33
      as well. */
  lemma ReadyWakesOtherFd() returns (run: seq<Action>, s: Base)
    ensures LeadsTo(run, s) && Inv(s) && s.epoll == {1, 33} && s.active == [] && 7 in s.events && 8 in s.events
    ensures s.events[7].fd == 1 && s.events[8].fd == 33
    ensures 7 in Ready(s, 1, {Read}).active && 8 in Ready(s, 1, {Read}).active
  {
    run, s := TwoReaders();
    ReadsMapped(s.events[7]);
    ReadsMapped(s.events[8]);
    assert SlotOf(33) == SlotOf(1);
    ReadyByFdIff(s, 1, {Read});
    assert Wakeable(s, 7, SlotOf(1), {Read}) && Wakeable(s, 8, SlotOf(1), {Read});
  }

  // ----- a descriptor closed behind the base's back -----

  /** The kernel forgets a closed descriptor; its event stays in its slot list. */
  lemma CloseStep(run: seq<Action>, s: Base, fd: int) returns (run': seq<Action>, s': Base)
    requires LeadsTo(run, s) && Inv(s)
    ensures LeadsTo(run', s') && Inv(s') && s' == s.(epoll := s.epoll - {fd})
  {
    var a := User(CloseFd(fd));
    Extend(run, s, a);
    run', s' := run + [a], Step(s, a);
  }

  /** Descriptor 5 is closed while its reader is registered, and opened again for another reader:
      deleting the first reader stops epoll from watching for the second, which stays registered. */
  lemma StaleEventUnwatches() returns (run: seq<Action>, s: Base)
    ensures LeadsTo(run, s) && Inv(s) && 7 in s.events && 8 in s.events && InSlotList(s, 8) && s.events[8].fd == 5
    ensures 5 in s.epoll
    ensures InSlotList(Deleted(s, 7), 8) && 5 !in Deleted(s, 7).epoll
  {
    NewBase();
    run, s := ReaderStep([], EmptyBase(), 7, 5);
    run, s := CloseStep(run, s, 5);
    run, s := ReaderStep(run, s, 8, 5);
    ReadsMapped(s.events[7]);
    ReadsMapped(s.events[8]);
    DelUnwatchesIff(s, 7, 8);
  }

  // ----- a timed out event -----

  const SECOND := Timeval(1, 0)

  /** A persistent reader of descriptor 5 with an interval of one second, armed at time 0. */
  lemma OneTimer() returns (run: seq<Action>, s: Base)
    ensures LeadsTo(run, s) && Inv(s) && NormalTimes(s) && s.events.Keys == {7} && Due(s, 7, SECOND)
    ensures s.events[7].events == {Read, Persist} && s.events[7].interval == SECOND && Mapped(s.events[7])
  {
    run, s := Unarmed();
    run, s := ArmStep(run, s, 7);
    ReadsMapped(s.events[7]);
  }

  lemma Unarmed() returns (run: seq<Action>, s: Base)
    ensures LeadsTo(run, s) && Inv(s) && NormalTimes(s) && s.events == map[7 := FreshEvent(5, {Read, Persist})]
    ensures Admitted(s, 7, true)
  {
    NewBase();
    run, s := NewStep([], EmptyBase(), 7, 5, {Read, Persist});
  }

  /** After it timed out, an event is active and not registered. */
  lemma TimedOut(s: Base, now: Timeval, e: nat)
    requires Inv(s) && Due(s, e, now)
    ensures var s' := Expire(s, now);
      Inv(s') && e in s'.active && e in s'.events
      && s'.events[e] == s.events[e].(reg := false, timed := false, active := true, res := {Timeout})
      && s'.events.Keys == s.events.Keys
  {
    var due := ExpireExact(s, now);
    assert e in Without(s.active, due) + due;
  }

  /** Re-assigning any event that timed out and still waits for its callback breaks the base. */
  lemma AssignBreaksTimedOut(s: Base, now: Timeval, e: nat, fd: int, events: set<Bit>)
    requires Inv(s) && Due(s, e, now)
    ensures var s' := Expire(s, now);
      Inv(s') && e in s'.events && !Inv(Apply(s', Assign(e, fd, events)))
  {
    TimedOut(s, now, e);
    AssignKeepsInvIff(Expire(s, now), e, fd, events);
  }

  /** A callback that re-assigns an event which waits behind it, and is no longer registered, breaks
      the base. */
  lemma CallbackAssignBreaks(s: Base, turn: Turn, w: nat, fd: int, events: set<Bit>)
    requires Inv(s) && s.active != [] && w in s.active[1..] && w in s.events && !s.events[w].reg
    ensures var s1 := ServeOne(s, s.active[0], turn);
      Inv(s1) && w in s1.active && w in s1.events && !Inv(Apply(s1, Assign(w, fd, events)))
  {
    HeadRemoved(s.active);
    assert s.active[0] in s.active;
    ServeOneInv(s, s.active[0], turn);
    AssignKeepsInvIff(ServeOne(s, s.active[0], turn), w, fd, events);
  }

  lemma HeadRemoved(l: seq<nat>)
    requires NoDup(l) && l != []
    ensures Remove(l, l[0]) == l[1..] && l[0] !in l[1..]
  {
  }

  // ----- two events that time out together -----

  /** Two persistent timers of one second, armed at time 0. */
  lemma TwoTimers() returns (run: seq<Action>, s: Base)
    ensures LeadsTo(run, s) && Inv(s) && NormalTimes(s) && s.active == [] && s.events.Keys == {7, 8}
    ensures forall e :: e in s.events ==> Due(s, e, SECOND) && s.events[e].events == {Persist} && s.events[e].fd == -1
  {
    run, s := TwoUnarmed();
    run, s := ArmStep(run, s, 7);
    run, s := ArmStep(run, s, 8);
  }

  lemma TwoUnarmed() returns (run: seq<Action>, s: Base)
    ensures LeadsTo(run, s) && Inv(s) && NormalTimes(s) && s.active == []
    ensures s.events.Keys == {7, 8}
    ensures s.events[7] == FreshEvent(-1, {Persist}) && s.events[8] == FreshEvent(-1, {Persist})
  {
    NewBase();
    run, s := NewStep([], EmptyBase(), 7, -1, {Persist});
    run, s := NewStep(run, s, 8, -1, {Persist});
  }

  /** A timer that waits for its callback after its time. */
  ghost predicate Waits(f: Base, e: nat) {
    && e in f.events && e in f.active && !f.events[e].reg
    && f.events[e].res == {Timeout} && f.events[e].events == {Persist} && f.events[e].fd == -1
  }

  /** Both are active after their time, in some order. */
  lemma BothTimedOut(s: Base)
    requires Inv(s) && s.events.Keys == {7, 8}
    requires forall e :: e in s.events ==> Due(s, e, SECOND) && s.events[e].events == {Persist} && s.events[e].fd == -1
    ensures var f := Expire(s, SECOND);
      Inv(f) && |f.active| == 2 && f.events.Keys == {7, 8} && forall e :: e in f.active ==> Waits(f, e)
  {
    var f := Expire(s, SECOND);
    forall e | e in s.events ensures Inv(f) && f.events.Keys == s.events.Keys && Waits(f, e) {
      TimedOut(s, SECOND, e);
    }
    assert 7 in s.events;
    assert Waits(f, 7) && Waits(f, 8);
    MembersOf(f);
    TwoMembers(f.active, 7, 8);
  }

  lemma MembersOf(f: Base)
    requires ActiveInv(f) && f.events.Keys == {7, 8} && 7 in f.active && 8 in f.active
    ensures NoDup(f.active) && forall e :: e in f.active <==> e == 7 || e == 8
  {
  }

  lemma TwoMembers(l: seq<nat>, x: nat, y: nat)
    requires NoDup(l) && x != y && forall e :: e in l <==> e == x || e == y
    ensures |l| == 2
  {
    assert x in l && y in l;
    if |l| > 2 {
      ThreeMembers(l);
      assert false;
    }
  }

  lemma ThreeMembers(l: seq<nat>)
    requires NoDup(l) && |l| > 2
    ensures exists x, y, z :: x in l && y in l && z in l && x != y && y != z && x != z
  {
    assert l[0] in l && l[1] in l && l[2] in l;
  }

  /** The callback of the first of two timed out events re-assigns the second. */
  lemma AssignBreaks() returns (run: seq<Action>, s: Base, turn: Turn, w: nat)
    ensures LeadsTo(run, s) && Inv(s) && s.active != [] && w in s.active[1..]
    ensures var s1 := ServeOne(s, s.active[0], turn); Inv(s1) && w in s1.events && !Inv(Apply(s1, Assign(w, 5, {Read})))
  {
    var s0;
    run, s0 := TwoTimers();
    BothTimedOut(s0);
    Extend(run, s0, Tick(SECOND));
    run, s, turn := run + [Tick(SECOND)], Expire(s0, SECOND), Turn(SECOND, true, []);
    w := s.active[1];
    assert w in s.active && w == s.active[1..][0];
    CallbackAssignBreaks(s, turn, w, 5, {Read});
  }

  /** A refused registration loses any persistent I/O event that timed out. */
  lemma RefusalLosesTimedOut(s: Base, now: Timeval, e: nat, turn: Turn)
    requires Inv(s) && Due(s, e, now) && Pending(s, e) && Mapped(s.events[e]) && !turn.ok
    ensures var s' := Expire(s, now);
      Inv(s') && Pending(s', e) && !Pending(ServeOne(s', e, turn), e)
  {
    TimedOut(s, now, e);
    ServedPendingIff(Expire(s, now), e, turn);
  }

  lemma RefusalLoses() returns (run: seq<Action>, s: Base, turn: Turn)
    ensures LeadsTo(run, s) && Inv(s) && Pending(s, 7) && !Pending(ServeOne(s, 7, turn), 7)
  {
    var s0;
    run, s0 := OneTimer();
    Extend(run, s0, Tick(SECOND));
    turn := Turn(SECOND, false, []);
    RefusalLosesTimedOut(s0, SECOND, 7, turn);
    run, s := run + [Tick(SECOND)], Expire(s0, SECOND);
  }

  /** A pass over two events whose first callback adds the second again. */
  lemma ReaddingPass(f: Base, turns: seq<Turn>, w: nat)
    requires Inv(f) && |f.active| == 2 && w == f.active[1] && |turns| == 2 && turns[1].ops == []
    requires turns[0].ops == [Add(w, Some(SECOND), SECOND, true)]
    ensures LegalPass(f, turns) && w in f.events && f.active[0] in f.events && Served(f, turns, 1) == w
    ensures var s1 := ServeOne(f, f.active[0], turns[0]);
      w in s1.events && Mid(f, turns, 1) == Apply(s1, turns[0].ops[0])
  {
    var h := f.active[0];
    assert h in f.active && w in f.active && f.active[1..] == [w];
    var s1, op := ServeOne(f, h, turns[0]), turns[0].ops[0];
    ServeOneInv(f, h, turns[0]);
    assert turns[0].ops[1..] == [];
    assert LegalOps(Apply(s1, op), [], At(w)) && LegalOps(s1, turns[0].ops, At(w));
    HeadServed(f, turns[0]);
    var s2 := RunOps(s1, turns[0].ops, At(w));
    assert s2 == Apply(s1, op);
    LastTurn(s2, turns[1..], w);
  }

  lemma LastTurn(s: Base, turns: seq<Turn>, w: nat)
    requires Inv(s) && s.active == [w] && |turns| == 1 && turns[0].ops == []
    ensures LegalPass(s, turns)
  {
    assert w in s.active && s.active[1..] == [] && turns[1..] == [];
    HeadServed(s, turns[0]);
  }

  /** In an iteration of the loop two events time out; the callback of the first adds the second
      again for a second, and at its turn the second gets a deadline two seconds ahead. */
  lemma ReaddedDrifts() returns (run: seq<Action>, s: Base, it: Iteration, w: nat)
    ensures LeadsTo(run, s) && Inv(s) && s.active == [] && it.wakes.Some? && |it.turns| == 2
    ensures LegalLoop(s, [it]) && Iterates(s, [it], 0) && LegalPass(Fired(s, it), it.turns)
    ensures it.turns[0].ops == [Add(w, Some(SECOND), SECOND, true)] && it.turns[1].now == SECOND
    ensures var m := Mid(Fired(s, it), it.turns, 1);
      && Served(Fired(s, it), it.turns, 1) == w && w in m.events
      && w in ServeOne(m, w, it.turns[1]).events
      && !InWindow(ServeOne(m, w, it.turns[1]).events[w].deadline, SECOND, SECOND)
  {
    run, s := TwoTimers();
    BothTimedOut(s);
    ExpireNormal(s, SECOND);
    var f := Expire(s, SECOND);
    w := f.active[1];
    assert w in f.active && f.active[0] in f.active;
    var turns := [Turn(SECOND, true, [Add(w, Some(SECOND), SECOND, true)]), Turn(SECOND, true, [])];
    it := Iteration(SECOND, Some([]), SECOND, turns);
    assert Fired(s, it) == f;
    ReaddingPass(f, turns, w);
    WaitingLeavesWindow(f, turns[0], w, turns[1]);
    OneIteration(s, it);
  }

  lemma OneIteration(s: Base, it: Iteration)
    requires Inv(s) && s.timers != [] && it.wakes.Some? && LegalPass(Fired(s, it), it.turns)
    ensures LegalLoop(s, [it]) && Iterates(s, [it], 0)
  {
    assert [it][1..] == [];
    assert !NothingLeft(s);
  }

  /** The second of two timed out events, added again by the first one's callback. */
  lemma WaitingLeavesWindow(f: Base, turn: Turn, w: nat, turn': Turn)
    requires Inv(f) && NormalTimes(f) && |f.active| == 2 && w == f.active[1] && w in f.events && f.active[0] in f.events
    requires Waits(f, w)
    requires turn.now == SECOND && turn'.now == SECOND
    ensures var s1 := ServeOne(f, f.active[0], turn);
      && Inv(s1) && w in s1.events
      && var m := Apply(s1, Add(w, Some(SECOND), SECOND, true));
        w in m.events && Inv(m) && w in ServeOne(m, w, turn').events
        && !InWindow(ServeOne(m, w, turn').events[w].deadline, SECOND, SECOND)
  {
    var s1 := ServeOne(f, f.active[0], turn);
    ServeOneInv(f, f.active[0], turn);
    ServeNormal(f, f.active[0], turn);
    assert f.active[0] != w && s1.events[w] == f.events[w];
    ReaddedLeavesWindow(s1, w, SECOND, SECOND, true, turn');
    ServeOneInv(Apply(s1, Add(w, Some(SECOND), SECOND, true)), w, turn');
  }
}
