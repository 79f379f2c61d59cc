/** Slot lists and the epoll set over whole runs: as long as nobody closes a descriptor behind the
    base's back, every event in a slot list is watched, and no two of them share a descriptor. */
module EventWatch {
  import opened Options
  import opened Pointers
  import opened Timevals
  import opened EventSpec
  import opened EventInv
  import opened EventRuns
  import opened EventLoop

  ghost predicate InSlotList(s: Base, e: nat) { e in s.events && Slotted(s.events[e]) }

  /** The other half of EpollInv. */
  ghost predicate AllWatched(s: Base) {
    && (forall e :: InSlotList(s, e) ==> s.events[e].fd in s.epoll)
    && (forall e, x :: InSlotList(s, e) && InSlotList(s, x) && e != x ==> s.events[e].fd != s.events[x].fd)
  }

  /** Only registration and the epoll set matter. */
  lemma WatchFrame(s: Base, s': Base)
    requires AllWatched(s) && s'.epoll == s.epoll
    requires forall e :: InSlotList(s', e) ==> InSlotList(s, e) && s'.events[e].fd == s.events[e].fd
    ensures AllWatched(s')
  {
  }

  lemma DeletedWatched(s: Base, e: nat)
    requires Inv(s) && AllWatched(s) && e in s.events
    ensures AllWatched(Deleted(s, e))
  {
    assert forall x :: InSlotList(Deleted(s, e), x) ==> x != e && InSlotList(s, x);
  }

  lemma RegisteredWatched(s: Base, e: nat)
    requires Inv(s) && AllWatched(s) && e in s.events && (s.events[e].reg || Registers(s, e, true))
    ensures AllWatched(Registered(s, e))
  {
    var s' := Registered(s, e);
    assert forall x :: x != e ==> (InSlotList(s', x) <==> InSlotList(s, x));
  }

  lemma AddWatched(s: Base, e: nat, tv: Option<Timeval>, absolute: bool, now: Timeval, ok: bool)
    requires Inv(s) && AllWatched(s) && e in s.events
    ensures AllWatched(EventAdd(s, e, tv, absolute, now, ok).0)
  {
    if s.events[e].reg || Registers(s, e, ok) {
      RegisteredWatched(s, e);
      if tv.Some? {
        RescheduledWatched(Registered(s, e), e, NewDeadline(tv.value, absolute, now),
                           NewInterval(s.events[e], tv.value, absolute));
      }
    }
  }

  lemma RescheduledWatched(s: Base, e: nat, deadline: Timeval, interval: Timeval)
    requires AllWatched(s) && e in s.events && forall x :: x in s.timers ==> x in s.events
    ensures AllWatched(Rescheduled(s, e, deadline, interval))
  {
    WatchFrame(s, Rescheduled(s, e, deadline, interval));
  }

  lemma OpWatched(s: Base, op: Op, saved: Ptr)
    requires Inv(s) && AllWatched(s) && Legal(s, op, saved) && !op.CloseFd?
    ensures AllWatched(Apply(s, op))
  {
    match op
    case New(id, fd, events) => WatchFrame(s, Apply(s, op));
    case Assign(id, fd, events) => WatchFrame(s, Apply(s, op));
    case Add(id, tv, now, ok) => if !Negative(tv) { AddWatched(s, id, tv, false, now, ok); }
    case Del(id) => DeletedWatched(s, id);
    case Free(id) =>
      DeletedWatched(s, id);
      WatchFrame(Deleted(s, id), Apply(s, op));
  }

  ghost predicate NoClose(ops: seq<Op>) { forall i :: 0 <= i < |ops| ==> !ops[i].CloseFd? }

  lemma {:induction false} OpsWatched(s: Base, ops: seq<Op>, saved: Ptr)
    requires Inv(s) && AllWatched(s) && LegalOps(s, ops, saved) && NoClose(ops)
    ensures AllWatched(RunOps(s, ops, saved))
    decreases ops
  {
    if ops != [] {
      OpInv(s, ops[0]);
      OpWatched(s, ops[0], saved);
      OpsWatched(Apply(s, ops[0]), ops[1..], saved);
    }
  }

  lemma ServeWatched(s: Base, e: nat, turn: Turn)
    requires Inv(s) && AllWatched(s) && e in s.events
    ensures AllWatched(ServeOne(s, e, turn))
  {
    if Persist !in s.events[e].events {
      DeletedWatched(s, e);
    } else {
      RemoveActiveInv(s, e);
      WatchFrame(s, RemoveActive(s, e));
      if s.events[e].interval != ZERO {
        var next := Some(NextDeadline(s.events[e], turn.now));
        AddWatched(RemoveActive(s, e), e, next, true, turn.now, turn.ok);
      }
    }
  }

  lemma {:induction false} PassWatched(s: Base, turns: seq<Turn>)
    requires Inv(s) && AllWatched(s) && LegalPass(s, turns) && forall i :: 0 <= i < |turns| ==> NoClose(turns[i].ops)
    ensures AllWatched(Pass(s, turns).0)
    decreases turns
  {
    if s.active != [] {
      var s1, saved := ServeOne(s, s.active[0], turns[0]), HeadOf(s.active[1..]);
      ServeOneInv(s, s.active[0], turns[0]);
      ServeWatched(s, s.active[0], turns[0]);
      OpsWatched(s1, turns[0].ops, saved);
      HeadServed(s, turns[0]);
      PassWatched(RunOps(s1, turns[0].ops, saved), turns[1..]);
    }
  }

  lemma {:induction false} ExpireWatched(s: Base, now: Timeval)
    requires Inv(s) && AllWatched(s)
    ensures AllWatched(Expire(s, now))
    decreases |s.timers|
  {
    if s.timers != [] && TimeCmp(s.events[s.timers[0]].deadline, now) <= 0 {
      var e := s.timers[0];
      ExpireOneInv(s, e);
      DeletedWatched(s, e);
      WatchFrame(Deleted(s, e), ExpireOne(s, e));
      ExpireWatched(ExpireOne(s, e), now);
    }
  }

  lemma ReadyWatched(s: Base, fd: int, bits: set<Bit>)
    requires Inv(s) && AllWatched(s)
    ensures AllWatched(Ready(s, fd, bits))
  {
    ReadyExact(s, fd, bits);
    if fd >= 0 {
      SameEpoll(s, s.slots[SlotOf(fd)], bits);
      WatchFrame(s, Ready(s, fd, bits));
    }
  }

  lemma {:induction false} SameEpoll(s: Base, list: seq<nat>, bits: set<Bit>)
    requires forall e :: e in list ==> e in s.events
    ensures Activate(s, list, bits).epoll == s.epoll
    decreases list
  {
    if list != [] {
      var v := s.events[list[0]];
      SameEpoll(if v.events * bits != {} then AddActive(s, list[0], v.events * bits) else s, list[1..], bits);
    }
  }

  ghost predicate ClosesNothing(a: Action) {
    match a
    case User(op) => !op.CloseFd?
    case Serve(turns) => forall i :: 0 <= i < |turns| ==> NoClose(turns[i].ops)
    case _ => true
  }

  lemma StepWatched(s: Base, a: Action)
    requires Inv(s) && AllWatched(s) && LegalAction(s, a) && ClosesNothing(a)
    ensures AllWatched(Step(s, a))
  {
    match a
    case User(op) => OpWatched(s, op, Null);
    case Report(fd, bits) => ReadyWatched(s, fd, bits);
    case Tick(now) => ExpireWatched(s, now);
    case Serve(turns) => PassWatched(s, turns);
  }

  lemma {:induction false} RunWatched(s: Base, run: seq<Action>)
    requires Inv(s) && AllWatched(s) && LegalRun(s, run) && forall i :: 0 <= i < |run| ==> ClosesNothing(run[i])
    ensures AllWatched(Reached(s, run))
    decreases run
  {
    if run != [] {
      StepInv(s, run[0]);
      StepWatched(s, run[0]);
      RunWatched(Step(s, run[0]), run[1..]);
    }
  }

  /** In every state reached from a new base without closing descriptors, epoll watches exactly the
      descriptors of the events in slot lists, one event each. */
  lemma ReachableWatched(run: seq<Action>)
    requires (EmptyInv(); LegalRun(EmptyBase(), run)) && forall i :: 0 <= i < |run| ==> ClosesNothing(run[i])
    ensures var s := Reached(EmptyBase(), run);
      AllWatched(s) && forall fd :: fd in s.epoll <==> exists e :: Watches(s, e, fd)
  {
    EmptyInv();
    RunWatched(EmptyBase(), run);
    RunInv(EmptyBase(), run);
    var s := Reached(EmptyBase(), run);
    forall fd, e | Watches(s, e, fd) ensures fd in s.epoll {
      assert InSlotList(s, e);
    }
  }

  /** Deleting e keeps another event's descriptor watched exactly when e is not in a slot list under
      the same descriptor. */
  lemma DelUnwatchesIff(s: Base, e: nat, x: nat)
    requires Inv(s) && e in s.events && x in s.events && x != e && s.events[x].fd in s.epoll
    ensures s.events[x].fd in Deleted(s, e).epoll <==> !(InSlotList(s, e) && s.events[e].fd == s.events[x].fd)
  {
  }
}
