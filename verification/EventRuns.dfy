/** Whole runs of the event base: the user's operations, the passes of the event loop and the
    callbacks they run.  A callback is an arbitrary list of operations; it may delete or free every
    event but the one that event_process_active has already saved as its next entry. */
module EventRuns {
  import opened Options
  import opened Sequences
  import opened Pointers
  import opened Timevals
  import opened EventSpec
  import opened EventInv

  // ----- the user's operations -----

  datatype Op =
    | New(id: nat, fd: int, events: set<Bit>)
    | Assign(id: nat, fd: int, events: set<Bit>)
    | Add(id: nat, tv: Option<Timeval>, now: Timeval, ok: bool)
    | Del(id: nat)
    | Free(id: nat)
    | CloseFd(fd: int)  // the kernel drops a closed descriptor from the epoll set

  const ZERO := Timeval(0, 0)

  function FreshEvent(fd: int, events: set<Bit>): Event {
    Event(if fd < 0 then -1 else fd, events, false, false, false, {}, ZERO, ZERO)
  }

  predicate Negative(tv: Option<Timeval>) { tv.Some? && (tv.value.sec < 0 || tv.value.usec < 0) }

  /** What the callers must respect: a new event has a new address, the others exist; a still
      active event must not be overwritten, and the entry that a running pass has saved as its next
      one must not leave the active list. */
  ghost predicate Legal(s: Base, op: Op, saved: Ptr) {
    match op
    case New(id, _, _) => id !in s.events
    case Assign(id, _, _) => id in s.events && (s.events[id].reg || !s.events[id].active)
    case Add(id, _, _, _) => id in s.events
    case Del(id) => id in s.events && saved != At(id)
    case Free(id) => id in s.events && saved != At(id)
    case CloseFd(_) => true
  }

  ghost function Apply(s: Base, op: Op): Base
    requires |s.slots| == MAP_SIZE && (forall x :: x in s.timers ==> x in s.events)
    requires !op.New? && !op.CloseFd? ==> op.id in s.events
  {
    match op
    case New(id, fd, events) => SetEvent(s, id, FreshEvent(fd, events))
    case Assign(id, fd, events) => if s.events[id].reg then s else SetEvent(s, id, FreshEvent(fd, events))
    case Add(id, tv, now, ok) => if Negative(tv) then s else EventAdd(s, id, tv, false, now, ok).0
    case Del(id) => Deleted(s, id)
    case Free(id) => Deleted(s, id).(events := Deleted(s, id).events - {id})
    case CloseFd(fd) => s.(epoll := s.epoll - {fd})
  }

  /** Only e's record changes, and e is on no list before and after. */
  lemma OffListsInv(s: Base, e: nat, s': Base)
    requires Inv(s) && s' == s.(events := s'.events)
    requires e in s.events ==> !s.events[e].reg && !s.events[e].active
    requires e in s'.events ==> !s'.events[e].reg && !s'.events[e].active && !s'.events[e].timed
    requires forall x :: x != e ==>
      (x in s'.events <==> x in s.events) && (x in s.events ==> s'.events[x] == s.events[x])
    ensures Inv(s')
  {
    assert e !in s.timers && e !in s.active;
    forall i | 0 <= i < MAP_SIZE ensures e !in s.slots[i] {}
    forall fd | fd in s'.epoll ensures exists x :: Watches(s', x, fd) {
      var x :| Watches(s, x, fd);
      assert Watches(s', x, fd);
    }
  }

  lemma OpInv(s: Base, op: Op)
    requires Inv(s) && Legal(s, op, Null)
    ensures Inv(Apply(s, op))
  {
    match op {
      case New(id, fd, events) =>
        OffListsInv(s, id, Apply(s, op));
      case Assign(id, fd, events) =>
        if !s.events[id].reg { OffListsInv(s, id, Apply(s, op)); }
      case Add(id, tv, now, ok) =>
        if !Negative(tv) { AddInv(s, id, tv, false, now, ok); }
      case Del(id) =>
        DelInv(s, id);
      case Free(id) =>
        DelInv(s, id);
        OffListsInv(Deleted(s, id), id, Apply(s, op));
      case CloseFd(fd) =>
        CloseInv(s, fd);
    }
  }

  lemma CloseInv(s: Base, fd: int)
    requires Inv(s)
    ensures Inv(s.(epoll := s.epoll - {fd}))
  {
    var s' := s.(epoll := s.epoll - {fd});
    forall f | f in s'.epoll ensures exists x :: Watches(s', x, f) {
      var x :| Watches(s, x, f);
      assert Watches(s', x, f);
    }
  }

  /** wba_event_assign checks REG only.  On an event that is no longer registered but still on
      the active list it wipes the ACTIVE flag: consistency survives exactly when the event was
      rejected or idle. */
  lemma AssignKeepsInvIff(s: Base, id: nat, fd: int, events: set<Bit>)
    requires Inv(s) && id in s.events
    ensures Inv(Apply(s, Assign(id, fd, events))) <==> (s.events[id].reg || !s.events[id].active)
  {
    if s.events[id].reg || !s.events[id].active {
      OpInv(s, Assign(id, fd, events));
    } else {
      var s' := Apply(s, Assign(id, fd, events));
      assert id in s'.active && !s'.events[id].active;
    }
  }

  // ----- sequences of operations -----

  ghost predicate LegalOps(s: Base, ops: seq<Op>, saved: Ptr)
    decreases ops
  {
    ops == [] ||
    (&& |s.slots| == MAP_SIZE && (forall x :: x in s.timers ==> x in s.events)
     && Legal(s, ops[0], saved) && LegalOps(Apply(s, ops[0]), ops[1..], saved))
  }

  ghost function RunOps(s: Base, ops: seq<Op>, saved: Ptr): Base
    requires LegalOps(s, ops, saved)
    decreases ops
  {
    if ops == [] then s else RunOps(Apply(s, ops[0]), ops[1..], saved)
  }

  /** The operations add w, or add it again. */
  ghost predicate Adds(ops: seq<Op>, w: nat) { exists i :: 0 <= i < |ops| && ops[i].Add? && ops[i].id == w }

  ghost predicate Drops(op: Op, w: nat) { (op.Del? || op.Free?) && op.id == w }

  /** The operations delete or free w. */
  ghost predicate Removes(ops: seq<Op>, w: nat) { exists i :: 0 <= i < |ops| && Drops(ops[i], w) }

  /** What is left of the active list: the operations can only take entries out. */
  ghost function Surviving(active: seq<nat>, ops: seq<Op>): seq<nat>
    decreases ops
  {
    if ops == [] then active
    else Surviving(if ops[0].Del? || ops[0].Free? then Remove(active, ops[0].id) else active, ops[1..])
  }

  /** Exactly the entries that no operation removes survive, in their order. */
  lemma {:induction false} SurvivingFacts(active: seq<nat>, ops: seq<Op>)
    requires NoDup(active)
    ensures NoDup(Surviving(active, ops))
    ensures forall w :: w in Surviving(active, ops) <==> w in active && !Removes(ops, w)
    ensures forall x, y :: Earlier(Surviving(active, ops), x, y) ==> Earlier(active, x, y)
    decreases ops
  {
    if ops != [] {
      var rest := if ops[0].Del? || ops[0].Free? then Remove(active, ops[0].id) else active;
      if ops[0].Del? || ops[0].Free? { RemoveFacts(active, ops[0].id); }
      SurvivingFacts(rest, ops[1..]);
      forall w ensures Removes(ops, w) <==> Drops(ops[0], w) || Removes(ops[1..], w) { RemovesCons(ops, w); }
      forall x, y | Earlier(rest, x, y) ensures Earlier(active, x, y) {
        EarlierIn(rest, x, y);
        if ops[0].Del? || ops[0].Free? { EarlierRemoved(active, ops[0].id, x, y); }
      }
    }
  }

  lemma RemovesCons(ops: seq<Op>, w: nat)
    requires ops != []
    ensures Removes(ops, w) <==> Drops(ops[0], w) || Removes(ops[1..], w)
  {
    if Removes(ops[1..], w) {
      var i :| 0 <= i < |ops| - 1 && Drops(ops[1..][i], w);
      assert Drops(ops[i + 1], w);
    }
    if Removes(ops, w) && !Drops(ops[0], w) {
      var i :| 0 <= i < |ops| && Drops(ops[i], w);
      assert Drops(ops[1..][i - 1], w);
    }
  }

  /** What a waiting event's callback will be told does not change. */
  ghost predicate SameReport(s: Base, s': Base, w: nat) {
    w in s.events && w in s'.events && s'.events[w].fd == s.events[w].fd && s'.events[w].res == s.events[w].res
  }

  /** An operation takes at most its own event off the active list.  The others keep their
      descriptor and result bits; only adding one of them again changes its record. */
  lemma OpOnActive(s: Base, op: Op, saved: Ptr)
    requires Inv(s) && Legal(s, op, saved)
    ensures Apply(s, op).active == if op.Del? || op.Free? then Remove(s.active, op.id) else s.active
    ensures forall w :: w in Apply(s, op).active ==> SameReport(s, Apply(s, op), w)
    ensures forall w :: w in Apply(s, op).active && w in s.events && w in Apply(s, op).events ==>
      (op.Add? && op.id == w) || Apply(s, op).events[w] == s.events[w]
  {
    assert forall w :: w in s.active ==> w in s.events;
    if op.Del? || op.Free? { RemoveFacts(s.active, op.id); }
    if op.Add? { AddFrame(s, op.id, op.tv, false, op.now, op.ok); }
  }

  lemma {:induction false} OpsLeaveWaiting(s: Base, ops: seq<Op>, saved: Ptr)
    requires Inv(s) && LegalOps(s, ops, saved)
    ensures var s' := RunOps(s, ops, saved);
      Inv(s') && s'.active == Surviving(s.active, ops) && forall w :: w in s'.active ==> SameReport(s, s', w)
    ensures forall w :: w in RunOps(s, ops, saved).active && !Adds(ops, w) ==>
      RunOps(s, ops, saved).events[w] == s.events[w]
    ensures saved == HeadOf(s.active) ==> HeadOf(RunOps(s, ops, saved).active) == saved
    decreases ops
  {
    if ops != [] {
      OpInv(s, ops[0]);
      OpOnActive(s, ops[0], saved);
      var s1 := Apply(s, ops[0]);
      OpsLeaveWaiting(s1, ops[1..], saved);
      SurvivingFacts(s1.active, ops[1..]);
      forall w | !Adds(ops, w) ensures !Adds(ops[1..], w) {
        assert forall i :: 0 <= i < |ops| - 1 ==> ops[1..][i] == ops[i + 1];
      }
    }
  }

  // ----- timeouts -----

  lemma AddActiveInv(s: Base, e: nat, res: set<Bit>)
    requires Inv(s) && e in s.events
    ensures Inv(AddActive(s, e, res))
  {
    var s' := AddActive(s, e, res);
    SameRegistration(s, s');
  }

  lemma RemoveActiveInv(s: Base, e: nat)
    requires Inv(s) && e in s.events
    ensures Inv(RemoveActive(s, e))
  {
    RemoveFacts(s.active, e);
    SameRegistration(s, RemoveActive(s, e));
  }

  /** Slots, timers, epoll and their counters do not look at the ACTIVE flag or the result bits. */
  lemma SameRegistration(s: Base, s': Base)
    requires Inv(s) && s'.slots == s.slots && s'.timers == s.timers && s'.epoll == s.epoll
    requires s'.used == s.used && s'.count == s.count && s'.events.Keys == s.events.Keys
    requires forall x :: x in s.events ==>
      s'.events[x] == s.events[x].(active := s'.events[x].active, res := s'.events[x].res)
    ensures TimerInv(s') && SlotInv(s') && CountInv(s') && EpollInv(s')
    ensures forall e :: e in s'.events && s'.events[e].timed ==> s'.events[e].reg
  {
    assert forall x, i :: x in s.events ==> (InSlot(s'.events[x], i) <==> InSlot(s.events[x], i));
    forall f | f in s'.epoll ensures exists x :: Watches(s', x, f) {
      var x :| Watches(s, x, f);
      assert Watches(s', x, f);
    }
  }

  /** A timed out event leaves every list and becomes active with result TIMEOUT. */
  ghost function ExpireOne(s: Base, e: nat): Base
    requires e in s.events && |s.slots| == MAP_SIZE
  {
    AddActive(Deleted(s, e), e, {Timeout})
  }

  lemma ExpireOneInv(s: Base, e: nat)
    requires Inv(s) && e in s.events
    ensures Inv(ExpireOne(s, e))
    ensures ExpireOne(s, e).active == Remove(s.active, e) + [e]
    ensures ExpireOne(s, e).timers == Remove(s.timers, e)
    ensures ExpireOne(s, e).events == s.events[e := Unflagged(s.events[e]).(active := true, res := {Timeout})]
  {
    DelInv(s, e);
    AddActiveInv(Deleted(s, e), e, {Timeout});
  }

  ghost function Expire(s: Base, now: Timeval): Base
    requires Inv(s)
    decreases |s.timers|
  {
    if s.timers == [] || TimeCmp(s.events[s.timers[0]].deadline, now) > 0 then s
    else
      ExpireOneInv(s, s.timers[0]);
      Expire(ExpireOne(s, s.timers[0]), now)
  }

  /** s without any of the elements of xs. */
  ghost function Without(s: seq<nat>, xs: seq<nat>): seq<nat>
    decreases xs
  {
    if xs == [] then s else Without(Remove(s, xs[0]), xs[1..])
  }

  ghost predicate Due(s: Base, e: nat, now: Timeval) {
    e in s.events && s.events[e].timed && NotLater(s.events[e].deadline, now)
  }

  /** From s to s', the timers `due` were taken out.  They are exactly the ones not later than
      now, and form the tail of the active list in deadline order, each with result TIMEOUT even
      if it was already active for I/O.  No other event changes. */
  ghost predicate Expired(s: Base, s': Base, due: seq<nat>, now: Timeval) {
    && s.timers == due + s'.timers
    && (forall e :: e in due ==> Due(s, e, now))
    && (forall e :: e in s'.timers ==> e in s'.events && TimeCmp(s'.events[e].deadline, now) > 0)
    && s'.active == Without(s.active, due) + due
    && s'.events.Keys == s.events.Keys
    && (forall e :: e in due ==> s'.events[e] == Unflagged(s.events[e]).(active := true, res := {Timeout}))
    && (forall e :: e in s.events && e !in due ==> s'.events[e] == s.events[e])
  }

  lemma NoneDue(s: Base, now: Timeval)
    requires TimerInv(s) && (s.timers == [] || TimeCmp(s.events[s.timers[0]].deadline, now) > 0)
    ensures Expired(s, s, [], now)
  {
    ConcatNone(s.timers);
    ConcatNone(s.active);
    AllLaterThan(s.events, s.timers, now);
  }

  lemma AllLaterThan(events: map<nat, Event>, timers: seq<nat>, now: Timeval)
    requires Sorted(events, timers)
    requires (timers == [] || (timers[0] in events && TimeCmp(events[timers[0]].deadline, now) > 0))
    ensures forall e :: e in timers ==> e in events && TimeCmp(events[e].deadline, now) > 0
  {
    forall e | e in timers ensures e in events && TimeCmp(events[e].deadline, now) > 0 {
      var i :| 0 <= i < |timers| && timers[i] == e;
      if i > 0 { assert NotLater(events[timers[0]].deadline, events[timers[i]].deadline); }
    }
  }

  lemma OneDue(s: Base, s1: Base, s': Base, rest: seq<nat>, now: Timeval)
    requires s.timers != [] && Due(s, s.timers[0], now)
    requires s1.timers == s.timers[1..] && s1.active == Remove(s.active, s.timers[0]) + [s.timers[0]]
    requires s1.events == s.events[s.timers[0] := Unflagged(s.events[s.timers[0]]).(active := true, res := {Timeout})]
    requires Expired(s1, s', rest, now)
    ensures Expired(s, s', [s.timers[0]] + rest, now)
  {
    var e := s.timers[0];
    var due := [e] + rest;
    assert e !in rest by { assert !s1.events[e].timed; }
    assert s.timers == [e] + s.timers[1..] == due + s'.timers;
    TailOfActive(s.active, e, rest);
    assert forall x :: x in due <==> x == e || x in rest;
    assert forall x :: x in rest ==> x != e && s1.events[x] == s.events[x];
  }

  /** event_process_timeout: every due timer and no other leaves the tree, in order. */
  lemma {:induction false} ExpireExact(s: Base, now: Timeval) returns (due: seq<nat>)
    requires Inv(s)
    ensures Inv(Expire(s, now)) && Expired(s, Expire(s, now), due, now)
    ensures forall e :: Due(s, e, now) ==> e in due
    decreases |s.timers|
  {
    if s.timers == [] || TimeCmp(s.events[s.timers[0]].deadline, now) > 0 {
      due := [];
      NoneDue(s, now);
    } else {
      var e := s.timers[0];
      ExpireOneInv(s, e);
      assert s.timers == [] + [e] + s.timers[1..];
      RemoveMiddle([], e, s.timers[1..]);
      assert [] + s.timers[1..] == s.timers[1..];
      due := ExpireExact(ExpireOne(s, e), now);
      OneDue(s, ExpireOne(s, e), Expire(s, now), due, now);
      due := [e] + due;
    }
    AllDue(s, Expire(s, now), due, now);
  }

  lemma AllDue(s: Base, s': Base, due: seq<nat>, now: Timeval)
    requires TimerInv(s) && Expired(s, s', due, now)
    ensures forall e :: Due(s, e, now) ==> e in due
  {
    forall e | Due(s, e, now) ensures e in due {
      assert e in due + s'.timers;
    }
  }

  lemma {:induction false} WithoutAppend(a: seq<nat>, e: nat, xs: seq<nat>)
    requires e !in xs
    ensures Without(a + [e], xs) == Without(a, xs) + [e]
    decreases xs
  {
    if xs != [] {
      RemoveAppend(a, e, xs[0]);
      WithoutAppend(Remove(a, xs[0]), e, xs[1..]);
    }
  }

  lemma {:induction false} RemoveAppend(a: seq<nat>, e: nat, x: nat)
    requires e != x
    ensures Remove(a + [e], x) == Remove(a, x) + [e]
  {
    if a != [] {
      assert (a + [e])[1..] == a[1..] + [e];
      RemoveAppend(a[1..], e, x);
      assert [a[0]] + (Remove(a[1..], x) + [e]) == [a[0]] + Remove(a[1..], x) + [e];
    } else {
      assert [] + [e] == [e] && [e][1..] == [];
    }
  }

  lemma TailOfActive(a: seq<nat>, e: nat, rest: seq<nat>)
    requires e !in rest
    ensures Without(Remove(a, e) + [e], rest) + rest == Without(a, [e] + rest) + ([e] + rest)
  {
    WithoutAppend(Remove(a, e), e, rest);
    assert ([e] + rest)[1..] == rest;
    var w := Without(Remove(a, e), rest);
    assert (w + [e]) + rest == w + ([e] + rest);
  }

  // ----- serving the active list -----

  /** The environment of one served event: the clock, epoll's answer, and what its callback does. */
  datatype Turn = Turn(now: Timeval, ok: bool, ops: seq<Op>)

  datatype Call = Call(id: nat, fd: int, res: set<Bit>)

  /** The next deadline of a persistent event: an interval after the old deadline when it timed
      out, otherwise an interval from now; never in the past. */
  function NextDeadline(v: Event, now: Timeval): Timeval {
    var last := if Timeout in v.res then v.deadline else now;
    var next := TimeAdd(last, v.interval);
    if TimeCmp(next, now) < 0 then TimeAdd(now, v.interval) else next
  }

  /** What event_process_active does to an event before it calls back. */
  ghost function ServeOne(s: Base, e: nat, turn: Turn): Base
    requires e in s.events && |s.slots| == MAP_SIZE && forall x :: x in s.timers ==> x in s.events
  {
    var v := s.events[e];
    if Persist !in v.events then Deleted(s, e)
    else if v.interval == ZERO then RemoveActive(s, e)
    else EventAdd(RemoveActive(s, e), e, Some(NextDeadline(v, turn.now)), true, turn.now, turn.ok).0
  }

  /** Only e's record changes, and neither its descriptor nor its result bits. */
  ghost predicate OnlyRecord(s: Base, s': Base, e: nat) {
    && e in s.events && e in s'.events && s'.events.Keys == s.events.Keys
    && (forall x :: x in s.events && x != e ==> s'.events[x] == s.events[x])
    && s'.events[e].fd == s.events[e].fd && s'.events[e].res == s.events[e].res
  }

  lemma AddFrame(s: Base, e: nat, tv: Option<Timeval>, absolute: bool, now: Timeval, ok: bool)
    requires e in s.events && |s.slots| == MAP_SIZE && forall x :: x in s.timers ==> x in s.events
    ensures var s' := EventAdd(s, e, tv, absolute, now, ok).0;
      OnlyRecord(s, s', e) && s'.active == s.active
  {
  }

  lemma ServeOneInv(s: Base, e: nat, turn: Turn)
    requires Inv(s) && e in s.events
    ensures Inv(ServeOne(s, e, turn)) && ServeOne(s, e, turn).active == Remove(s.active, e)
    ensures OnlyRecord(s, ServeOne(s, e, turn), e)
  {
    RemoveFacts(s.active, e);
    if Persist !in s.events[e].events {
      DelInv(s, e);
    } else {
      ServePersistent(s, e, turn);
    }
  }

  lemma ServePersistent(s: Base, e: nat, turn: Turn)
    requires Inv(s) && e in s.events && Persist in s.events[e].events
    ensures Inv(ServeOne(s, e, turn)) && ServeOne(s, e, turn).active == RemoveActive(s, e).active
    ensures OnlyRecord(s, ServeOne(s, e, turn), e)
  {
    var v := s.events[e];
    RemoveActiveInv(s, e);
    if v.interval != ZERO {
      AddInv(RemoveActive(s, e), e, Some(NextDeadline(v, turn.now)), true, turn.now, turn.ok);
      AddFrame(RemoveActive(s, e), e, Some(NextDeadline(v, turn.now)), true, turn.now, turn.ok);
    }
  }

  /** One pass over the active list: serve its head, run the callback, go on. */
  ghost predicate LegalPass(s: Base, turns: seq<Turn>)
    requires Inv(s)
    decreases turns
  {
    if s.active == [] || turns == [] then s.active == [] && turns == []
    else
      var s1 := ServeOne(s, s.active[0], turns[0]);
      if !LegalOps(s1, turns[0].ops, HeadOf(s.active[1..])) then false
      else
        HeadServed(s, turns[0]);
        LegalPass(RunOps(s1, turns[0].ops, HeadOf(s.active[1..])), turns[1..])
  }

  ghost function Pass(s: Base, turns: seq<Turn>): (Base, seq<Call>)
    requires Inv(s) && LegalPass(s, turns)
    decreases turns
  {
    if s.active == [] then (s, [])
    else
      var e := s.active[0];
      var s1 := ServeOne(s, e, turns[0]);
      ServeOneInv(s, e, turns[0]);
      HeadServed(s, turns[0]);
      var (s', calls) := Pass(RunOps(s1, turns[0].ops, HeadOf(s.active[1..])), turns[1..]);
      (s', [Call(e, s1.events[e].fd, s1.events[e].res)] + calls)
  }

  lemma HeadServed(s: Base, turn: Turn)
    requires Inv(s) && s.active != []
    requires LegalOps(ServeOne(s, s.active[0], turn), turn.ops, HeadOf(s.active[1..]))
    ensures var s2 := RunOps(ServeOne(s, s.active[0], turn), turn.ops, HeadOf(s.active[1..]));
      && Inv(s2) && s2.active == Surviving(s.active[1..], turn.ops) && HeadOf(s2.active) == HeadOf(s.active[1..])
      && (forall w :: w in s2.active ==> w in s.active[1..] && SameReport(s, s2, w))
      && (forall w :: w in s2.active && !Adds(turn.ops, w) ==> s2.events[w] == s.events[w])
  {
    var e, rest := s.active[0], s.active[1..];
    assert s.active == [] + [e] + rest;
    RemoveMiddle([], e, rest);
    assert [] + rest == rest;
    ServeOneInv(s, e, turn);
    OpsLeaveWaiting(ServeOne(s, e, turn), turn.ops, HeadOf(rest));
    SurvivingFacts(rest, turn.ops);
    OnceInMiddle([], e, rest);
    assert forall w :: w in rest ==> w in s.active && w != e;
  }

  // ----- who is called -----

  /** The events that a pass over `list` calls, seen from the callbacks alone: the head, then those
      of the others that the head's callback did not remove, and so on. */
  ghost function Called(list: seq<nat>, turns: seq<Turn>): seq<nat>
    decreases turns
  {
    if list == [] || turns == [] then []
    else [list[0]] + Called(Surviving(list[1..], turns[0].ops), turns[1..])
  }

  /** The reports that the events had when the pass began. */
  ghost function Reported(s: Base, ids: seq<nat>): seq<Call>
    requires forall e :: e in ids ==> e in s.events
  {
    seq(|ids|, i requires 0 <= i < |ids| => assert ids[i] in ids;
                  Call(ids[i], s.events[ids[i]].fd, s.events[ids[i]].res))
  }

  lemma {:induction false} CalledIn(list: seq<nat>, turns: seq<Turn>)
    requires NoDup(list)
    ensures NoDup(Called(list, turns)) && forall e :: e in Called(list, turns) ==> e in list
    ensures forall x, y :: Earlier(Called(list, turns), x, y) ==> Earlier(list, x, y)
    decreases turns
  {
    if list != [] && turns != [] {
      var h, t := list[0], list[1..];
      var rest := Surviving(t, turns[0].ops);
      var c := Called(rest, turns[1..]);
      assert list == [h] + t && NoDup(t) && h !in t;
      SurvivingFacts(t, turns[0].ops);
      CalledIn(rest, turns[1..]);
      forall x, y | Earlier([h] + c, x, y) ensures Earlier(list, x, y) {
        EarlierSplit([h], c, x, y);
        EarlierSplit([h], t, x, y);
        EarlierSingle(h, x, y);
      }
    }
  }

  /** There is a turn for everybody who is called. */
  ghost predicate Complete(list: seq<nat>, turns: seq<Turn>)
    decreases turns
  {
    if list == [] then turns == []
    else turns != [] && Complete(Surviving(list[1..], turns[0].ops), turns[1..])
  }

  /** A callback that removes e comes only after e's own turn has begun. */
  ghost predicate RemovedLate(c: seq<nat>, turns: seq<Turn>, e: nat)
    requires |c| == |turns|
  {
    forall j :: 0 <= j < |turns| && Removes(turns[j].ops, e) ==> e in c[..j + 1]
  }

  lemma RemovedLateCons(c: seq<nat>, turns: seq<Turn>, e: nat)
    requires |c| == |turns| > 0
    ensures c[0] == e ==> RemovedLate(c, turns, e)
    ensures c[0] != e ==>
      (RemovedLate(c, turns, e) <==> !Removes(turns[0].ops, e) && RemovedLate(c[1..], turns[1..], e))
  {
    assert forall j :: 0 <= j < |c| ==> c[..j + 1] == [c[0]] + c[1..][..j];
    assert c[..0 + 1] == [c[0]];
    if c[0] != e && RemovedLate(c, turns, e) {
      forall j | 0 <= j < |turns| - 1 && Removes(turns[1..][j].ops, e) ensures e in c[1..][..j + 1] {
        assert e in c[..j + 2];
      }
    }
    if c[0] != e && !Removes(turns[0].ops, e) && RemovedLate(c[1..], turns[1..], e) {
      forall j | 0 <= j < |turns| && Removes(turns[j].ops, e) ensures e in c[..j + 1] {
        assert turns[j] == turns[1..][j - 1];
        assert e in c[1..][..j];
      }
    }
  }

  /** An event is called exactly when no callback before its own turn removed it. */
  lemma {:induction false} CalledIff(list: seq<nat>, turns: seq<Turn>, e: nat)
    requires NoDup(list) && Complete(list, turns)
    ensures |Called(list, turns)| == |turns|
    ensures e in Called(list, turns) <==> e in list && RemovedLate(Called(list, turns), turns, e)
    decreases turns
  {
    if list != [] {
      var t := list[1..];
      var rest := Surviving(t, turns[0].ops);
      var c := Called(rest, turns[1..]);
      SurvivingFacts(t, turns[0].ops);
      CalledIff(rest, turns[1..], e);
      assert Called(list, turns)[1..] == c;
      RemovedLateCons(Called(list, turns), turns, e);
    }
  }

  lemma {:induction false} LegalPassComplete(s: Base, turns: seq<Turn>)
    requires Inv(s) && LegalPass(s, turns)
    ensures Complete(s.active, turns)
    decreases turns
  {
    if s.active != [] {
      HeadServed(s, turns[0]);
      LegalPassComplete(RunOps(ServeOne(s, s.active[0], turns[0]), turns[0].ops, HeadOf(s.active[1..])), turns[1..]);
    }
  }

  /** Each pass calls exactly the active events that no earlier callback removed, each once, in list
      order, with what was recorded for it when the pass began; and it empties the active list. */
  lemma {:induction false} PassServesEachOnce(s: Base, turns: seq<Turn>)
    requires Inv(s) && LegalPass(s, turns)
    ensures Inv(Pass(s, turns).0) && Pass(s, turns).0.active == []
    ensures forall e :: e in Called(s.active, turns) ==> e in s.events
    ensures Pass(s, turns).1 == Reported(s, Called(s.active, turns))
    decreases turns
  {
    CalledIn(s.active, turns);
    if s.active != [] {
      var s2 := RunOps(ServeOne(s, s.active[0], turns[0]), turns[0].ops, HeadOf(s.active[1..]));
      HeadServed(s, turns[0]);
      PassServesEachOnce(s2, turns[1..]);
      HeadReported(s, turns);
    }
  }

  lemma HeadReported(s: Base, turns: seq<Turn>)
    requires Inv(s) && LegalPass(s, turns) && s.active != []
    requires forall e :: e in Called(s.active, turns) ==> e in s.events
    ensures var e, s1 := s.active[0], ServeOne(s, s.active[0], turns[0]);
      && e in s1.events && LegalOps(s1, turns[0].ops, HeadOf(s.active[1..]))
      && var s2 := RunOps(s1, turns[0].ops, HeadOf(s.active[1..]));
        && (forall e :: e in Called(s2.active, turns[1..]) ==> e in s2.events)
        && Reported(s, Called(s.active, turns))
           == [Call(e, s1.events[e].fd, s1.events[e].res)] + Reported(s2, Called(s2.active, turns[1..]))
  {
    HeadServed(s, turns[0]);
    ServeOneInv(s, s.active[0], turns[0]);
    var s1 := ServeOne(s, s.active[0], turns[0]);
    var s2 := RunOps(s1, turns[0].ops, HeadOf(s.active[1..]));
    CalledIn(s2.active, turns[1..]);
    ReportedStep(s, s1, s2, s.active[0], Called(s2.active, turns[1..]));
  }

  lemma ReportedStep(s: Base, s1: Base, s2: Base, e: nat, ids: seq<nat>)
    requires e in s.events && e in s1.events && s1.events[e].fd == s.events[e].fd && s1.events[e].res == s.events[e].res
    requires forall w :: w in ids ==> w in s.events && w in s2.events && SameReport(s, s2, w)
    ensures Reported(s, [e] + ids) == [Call(e, s1.events[e].fd, s1.events[e].res)] + Reported(s2, ids)
  {
    var all := [e] + ids;
    forall i | 0 < i < |all| ensures Reported(s, all)[i] == Reported(s2, ids)[i - 1] {
      assert ids[i - 1] in ids;
    }
  }

  /** The operations remove nobody on the list. */
  ghost predicate Spared(list: seq<nat>, ops: seq<Op>) { forall e :: e in list ==> !Removes(ops, e) }

  /** When no callback removes a waiting event, everybody is called. */
  lemma {:induction false} CalledAll(list: seq<nat>, turns: seq<Turn>)
    requires NoDup(list) && Complete(list, turns)
    requires forall j :: 0 <= j < |turns| ==> Spared(list, turns[j].ops)
    ensures Called(list, turns) == list
    decreases turns
  {
    if list != [] {
      var t := list[1..];
      assert Spared(list, turns[0].ops);
      SurvivingAll(t, turns[0].ops);
      forall j | 0 <= j < |turns| - 1 ensures Spared(t, turns[1..][j].ops) {
        assert Spared(list, turns[j + 1].ops);
      }
      CalledAll(t, turns[1..]);
    }
  }

  lemma {:induction false} SurvivingAll(list: seq<nat>, ops: seq<Op>)
    requires Spared(list, ops)
    ensures Surviving(list, ops) == list
    decreases ops
  {
    if ops != [] {
      forall e | e in list ensures !Removes(ops[1..], e) && !Drops(ops[0], e) { RemovesCons(ops, e); }
      if ops[0].Del? || ops[0].Free? { RemoveFacts(list, ops[0].id); }
      SurvivingAll(list, ops[1..]);
    }
  }

  // ----- rescheduling -----

  /** On-time firings do not drift: the timed out events that keep their cadence are exactly those
      served no more than a whole interval late. */
  lemma NoDrift(v: Event, now: Timeval)
    requires Normal(now) && Normal(v.deadline) && Normal(v.interval) && Timeout in v.res && Micros(v.interval) > 0
    ensures Micros(NextDeadline(v, now)) == Micros(v.deadline) + Micros(v.interval)
      <==> Micros(now) <= Micros(v.deadline) + Micros(v.interval)
  {
  }

  /** A persistent event with an interval that is waiting for its time or for its callback. */
  ghost predicate Pending(s: Base, e: nat) {
    && e in s.events && Persist in s.events[e].events && s.events[e].interval != ZERO
    && (s.events[e].timed || s.events[e].active)
  }

  // ----- deleting many events -----

  ghost function DeleteAll(s: Base, list: seq<nat>): (r: Base)
    requires |s.slots| == MAP_SIZE && forall e :: e in list ==> e in s.events
    ensures |r.slots| == MAP_SIZE && r.events.Keys == s.events.Keys
    decreases |list|
  {
    if list == [] then s else Deleted(DeleteAll(s, list[..|list| - 1]), list[|list| - 1])
  }

  lemma {:induction false} DeleteAllInv(s: Base, list: seq<nat>)
    requires Inv(s) && forall e :: e in list ==> e in s.events
    ensures var s' := DeleteAll(s, list);
      && Inv(s')
      && (forall e :: e in s.events && e !in list ==> s'.events[e] == s.events[e])
      && (forall e :: e in list ==> !s'.events[e].reg && !s'.events[e].timed)
    decreases |list|
  {
    if list != [] {
      var front, last := list[..|list| - 1], list[|list| - 1];
      assert list == front + [last];
      DeleteAllInv(s, front);
      DelInv(DeleteAll(s, front), last);
    }
  }

  ghost predicate Held(v: Event) { Slotted(v) || v.timed }

  /** Once no slot list and no timer is left, the deleted events are all that were held. */
  lemma AllHeldDeleted(s: Base, list: seq<nat>)
    requires Inv(s) && (forall e :: e in list ==> e in s.events && Held(s.events[e]))
    requires forall i :: 0 <= i < MAP_SIZE ==> DeleteAll(s, list).slots[i] == []
    requires DeleteAll(s, list).timers == []
    ensures forall e :: e in list <==> e in s.events && Held(s.events[e])
    ensures DeleteAll(s, list).count == 0 && DeleteAll(s, list).used == 0
  {
    DeleteAllInv(s, list);
    var s' := DeleteAll(s, list);
    forall e | e in s.events && Held(s.events[e]) ensures e in list {
      if Slotted(s.events[e]) { assert e !in s'.slots[SlotOf(s.events[e].fd)]; } else { assert e !in s'.timers; }
    }
    EmptySlotsTotal(s'.slots);
  }

  lemma {:induction false} EmptySlotsTotal(slots: seq<seq<nat>>)
    requires forall i :: 0 <= i < |slots| ==> slots[i] == []
    ensures Total(slots) == 0
  {
    if slots != [] { EmptySlotsTotal(slots[1..]); }
  }
}
