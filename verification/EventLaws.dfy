/** What each operation of the event base does, field by field and in the terms of its users: the
    bits, the descriptor, the clock. */
module EventLaws {
  import opened Options
  import opened Sequences
  import opened Pointers
  import opened Timevals
  import opened EventSpec
  import opened EventInv
  import opened EventRuns
  import opened EventLoop
  import opened EventPersist
  import opened EventTimes

  // ----- slots -----

  /** An event with a descriptor that waits for reading, writing or the peer's close. */
  ghost predicate Polls(v: Event) { v.fd >= 0 && (Read in v.events || Write in v.events || Closed in v.events) }

  lemma PollsIsMapped(v: Event)
    ensures Polls(v) <==> Mapped(v)
  {
    assert forall b :: b in v.events * IO <==> b in v.events && (b == Read || b == Write || b == Closed);
    if Mapped(v) {
      var b :| b in v.events * IO;
    }
  }

  /** Two descriptors share a slot exactly when they differ by a multiple of 32. */
  lemma SlotsShared(fd: int, fd': int)
    requires fd >= 0 && fd' >= 0
    ensures SlotOf(fd) == SlotOf(fd') <==> (fd - fd') % 32 == 0
    ensures fd < 32 ==> SlotOf(fd) == fd
  {
  }

  /** In a consistent base an event is in slot i exactly when it is registered, polls, and its
      descriptor is i modulo 32. */
  lemma SlotIff(s: Base, i: nat, e: nat)
    requires Inv(s) && i < 32
    ensures e in s.slots[i] <==>
      e in s.events && s.events[e].reg && Polls(s.events[e]) && (s.events[e].fd - i) % 32 == 0
  {
    if e in s.events {
      PollsIsMapped(s.events[e]);
      if s.events[e].fd >= 0 { SlotsShared(s.events[e].fd, i); }
    }
  }

  /** A new base has 32 empty slot lists and nothing else. */
  lemma NewBaseLaw()
    ensures var s := EmptyBase();
      && s.events == map[] && |s.slots| == 32 && (forall i :: 0 <= i < 32 ==> s.slots[i] == [])
      && s.timers == [] && s.active == [] && s.epoll == {} && s.used == s.count == s.countActive == 0
  {
  }

  /** A report wakes events in the order of their slot list. */
  lemma {:induction false} WokenInOrder(s: Base, list: seq<nat>, bits: set<Bit>, x: nat, y: nat)
    requires (forall e :: e in list ==> e in s.events) && Earlier(Woken(s, list, bits), x, y)
    ensures Earlier(list, x, y)
    decreases list
  {
    if list != [] {
      var rest := Woken(s, list[1..], bits);
      var head := if s.events[list[0]].events * bits != {} && !s.events[list[0]].active then [list[0]] else [];
      assert list == [list[0]] + list[1..];
      EarlierSplit(head, rest, x, y);
      EarlierSplit([list[0]], list[1..], x, y);
      EarlierSingle(list[0], x, y);
      WokenIn(s, list[1..], bits);
      if Earlier(rest, x, y) { WokenInOrder(s, list[1..], bits, x, y); }
    }
  }

  // ----- making, overwriting and freeing -----

  ghost predicate SameLists(s: Base, s': Base) {
    s'.slots == s.slots && s'.timers == s.timers && s'.active == s.active && s'.epoll == s.epoll
  }

  ghost predicate OthersSame(s: Base, s': Base, e: nat) {
    forall x :: x != e ==> (x in s'.events <==> x in s.events) && (x in s.events ==> s'.events[x] == s.events[x])
  }

  /** A fresh record: idle, without times, a negative descriptor made -1. */
  ghost predicate Blank(v: Event, fd: int, events: set<Bit>) {
    && v.events == events && v.fd == (if fd < 0 then -1 else fd) && v.res == {}
    && !v.reg && !v.active && !v.timed
    && Micros(v.interval) == 0 && Normal(v.interval) && Micros(v.deadline) == 0 && Normal(v.deadline)
  }

  lemma NewLaw(s: Base, e: nat, fd: int, events: set<Bit>)
    requires Inv(s) && e !in s.events
    ensures var s' := Apply(s, New(e, fd, events));
      SameLists(s, s') && OthersSame(s, s', e) && e in s'.events && Blank(s'.events[e], fd, events)
  {
  }

  /** wba_event_assign refuses registered events only. */
  lemma AssignLaw(s: Base, e: nat, fd: int, events: set<Bit>)
    requires Inv(s) && e in s.events
    ensures var s' := Apply(s, Assign(e, fd, events));
      && SameLists(s, s') && OthersSame(s, s', e) && e in s'.events
      && (if s.events[e].reg then s'.events[e] == s.events[e] else Blank(s'.events[e], fd, events))
  {
  }

  /** An event leaves every list; its descriptor is no longer watched if it was in a slot list. */
  ghost predicate Unlisted(s: Base, s': Base, e: nat)
    requires e in s.events
  {
    && |s'.slots| == |s.slots| && (forall i :: 0 <= i < |s.slots| ==> s'.slots[i] == Remove(s.slots[i], e))
    && s'.timers == Remove(s.timers, e) && s'.active == Remove(s.active, e)
    && s'.epoll == (if s.events[e].reg && Polls(s.events[e]) then s.epoll - {s.events[e].fd} else s.epoll)
  }

  lemma UnlistedIsDeleted(s: Base, e: nat)
    requires Inv(s) && e in s.events
    ensures Unlisted(s, Deleted(s, e), e)
  {
    PollsIsMapped(s.events[e]);
    forall i | 0 <= i < MAP_SIZE ensures Deleted(s, e).slots[i] == Remove(s.slots[i], e) {
      RemoveFacts(s.slots[i], e);
    }
  }

  lemma DelLaw(s: Base, e: nat)
    requires Inv(s) && e in s.events
    ensures var s' := Apply(s, Del(e));
      && Unlisted(s, s', e) && OthersSame(s, s', e) && e in s'.events
      && s'.events[e] == s.events[e].(reg := false, timed := false, active := false)
  {
    UnlistedIsDeleted(s, e);
  }

  lemma FreeLaw(s: Base, e: nat)
    requires Inv(s) && e in s.events
    ensures var s' := Apply(s, Free(e)); Unlisted(s, s', e) && OthersSame(s, s', e) && e !in s'.events
  {
    UnlistedIsDeleted(s, e);
  }

  /** event_del returns 1 for an idle event and after a successful unregistration, else 0. */
  lemma DelCode(s: Base, e: nat)
    requires e in s.events
    ensures var v := s.events[e];
      DelResult(s, e) == if (!v.reg && !v.active) || (v.reg && Polls(v) && v.fd in s.epoll) then 1 else 0
  {
    PollsIsMapped(s.events[e]);
  }

  lemma CloseLaw(s: Base, fd: int)
    requires Inv(s)
    ensures var s' := Apply(s, CloseFd(fd));
      && s'.events == s.events && s'.slots == s.slots && s'.timers == s.timers && s'.active == s.active
      && s'.epoll == s.epoll - {fd}
  {
  }

  // ----- adding -----

  /** The event is registered, or it does not poll, or epoll takes its descriptor. */
  ghost predicate Takes(s: Base, e: nat, ok: bool)
    requires e in s.events
  {
    var v := s.events[e];
    v.reg || !Polls(v) || (ok && v.fd !in s.epoll)
  }

  lemma TakesIsAdmitted(s: Base, e: nat, ok: bool)
    requires e in s.events
    ensures Takes(s, e, ok) <==> Admitted(s, e, ok)
  {
    PollsIsMapped(s.events[e]);
  }

  /** A newly registered event that polls joins the end of its slot list and is watched. */
  ghost predicate Joined(s: Base, s': Base, e: nat)
    requires e in s.events
  {
    var v := s.events[e];
    var joins := !v.reg && Polls(v);
    && |s.slots| == |s'.slots| == 32
    && (forall i :: 0 <= i < 32 ==> s'.slots[i] == s.slots[i] + if joins && (v.fd - i) % 32 == 0 then [e] else [])
    && s'.epoll == (if joins then s.epoll + {v.fd} else s.epoll)
  }

  lemma JoinedIsRegistered(s: Base, e: nat)
    requires Inv(s) && e in s.events
    ensures Joined(s, Registered(s, e), e)
  {
    var v := s.events[e];
    PollsIsMapped(v);
    forall i | 0 <= i < 32
      ensures Registered(s, e).slots[i] == s.slots[i] + if !v.reg && Polls(v) && (v.fd - i) % 32 == 0 then [e] else []
    {
      ConcatNone(s.slots[i]);
      if v.fd >= 0 { SlotsShared(v.fd, i); }
    }
  }

  /** The event joined and has a timer at the given time; no other timer moved. */
  ghost predicate Armed(s: Base, s': Base, e: nat, deadline: Timeval, interval: Timeval)
    requires e in s.events
  {
    && Joined(s, s', e) && OthersSame(s, s', e) && e in s'.events && s'.active == s.active
    && Remove(s'.timers, e) == Remove(s.timers, e) && e in s'.timers
    && s'.events[e] == s.events[e].(reg := true, timed := true, deadline := deadline, interval := interval)
  }

  lemma ArmedIsRescheduled(s: Base, e: nat, deadline: Timeval, interval: Timeval)
    requires Inv(s) && e in s.events && Inv(Registered(s, e))
    ensures Armed(s, Rescheduled(Registered(s, e), e, deadline, interval), e, deadline, interval)
  {
    var r := Registered(s, e);
    JoinedIsRegistered(s, e);
    MovedTimer(r, e, deadline, interval);
    assert r.events[e] == s.events[e].(reg := true) && r.active == s.active && r.timers == s.timers;
  }

  /** wba_event_add without a time registers and leaves timers and times alone. */
  lemma AddUntimedLaw(s: Base, e: nat, now: Timeval, ok: bool)
    requires Inv(s) && e in s.events && Takes(s, e, ok)
    ensures var s' := Apply(s, Add(e, None, now, ok));
      && Joined(s, s', e) && OthersSame(s, s', e) && e in s'.events && s'.events[e] == s.events[e].(reg := true)
      && s'.timers == s.timers && s'.active == s.active
  {
    TakesIsAdmitted(s, e, ok);
    JoinedIsRegistered(s, e);
    if s.events[e].reg { assert s.events[e].(reg := true) == s.events[e]; }
  }

  /** wba_event_add with a time: the deadline is that time from now, for every event; it becomes the
      interval of a persistent one. */
  lemma AddLaw(s: Base, e: nat, tv: Timeval, now: Timeval, ok: bool)
    requires Inv(s) && e in s.events && Takes(s, e, ok) && tv.sec >= 0 && tv.usec >= 0
    ensures var s', v := Apply(s, Add(e, Some(tv), now, ok)), s.events[e];
      && e in s'.events && Armed(s, s', e, s'.events[e].deadline, if Persist in v.events then tv else v.interval)
      && Micros(s'.events[e].deadline) == Micros(now) + Micros(tv)
      && (Normal(now) && Normal(tv) ==> Normal(s'.events[e].deadline))
  {
    var v := s.events[e];
    TakesIsAdmitted(s, e, ok);
    RegisteredInv(s, e);
    ArmedIsRescheduled(s, e, TimeAdd(now, tv), if Persist in v.events then tv else v.interval);
  }

  /** Only the moved timer changes its place. */
  lemma MovedTimer(s: Base, e: nat, deadline: Timeval, interval: Timeval)
    requires TimerInv(s) && e in s.events
    ensures var s' := Rescheduled(s, e, deadline, interval);
      Remove(s'.timers, e) == Remove(s.timers, e) && e in s'.timers
  {
    var r, events := Remove(s.timers, e), Rescheduled(s, e, deadline, interval).events;
    RemoveFacts(s.timers, e);
    RemoveSorted(s.events, s.timers, e);
    SortedFrame(s.events, events, r);
    var a, b := SplitTimers(events, r, deadline);
    InsertTimerAt(events, a, b, e);
    RemoveMiddle(a, e, b);
  }

  /** A negative time, or a descriptor that epoll does not take, changes nothing. */
  lemma AddRefusedLaw(s: Base, e: nat, tv: Option<Timeval>, now: Timeval, ok: bool)
    requires Inv(s) && e in s.events
    requires !Takes(s, e, ok) || (tv.Some? && (tv.value.sec < 0 || tv.value.usec < 0))
    ensures Apply(s, Add(e, tv, now, ok)) == s
  {
    TakesIsAdmitted(s, e, ok);
  }

  /** event_add returns 1 exactly when it set a time, registered a polling event or found the event
      registered; registering a timer-only event without a time succeeds and returns 0. */
  lemma AddCode(s: Base, e: nat, tv: Option<Timeval>, absolute: bool, now: Timeval, ok: bool)
    requires Inv(s) && e in s.events
    ensures EventAdd(s, e, tv, absolute, now, ok).1 ==
      if Takes(s, e, ok) && (tv.Some? || s.events[e].reg || Polls(s.events[e])) then 1 else 0
  {
    TakesIsAdmitted(s, e, ok);
    PollsIsMapped(s.events[e]);
  }

  /** event_map_add: 0 for an event that does not poll, -1 for a refusal, 1 for success. */
  lemma MapAddCode(s: Base, e: nat, ok: bool)
    requires Inv(s) && e in s.events
    ensures var v, r := s.events[e], MapAdd(s, e, ok).1;
      r == if !Polls(v) then 0 else if ok && v.fd !in s.epoll then 1 else -1
  {
    PollsIsMapped(s.events[e]);
  }

  /** event_map_remove: -1 when epoll no longer knew the descriptor. */
  lemma MapRemoveCode(s: Base, e: nat)
    requires Inv(s) && e in s.events
    ensures var v, r := s.events[e], MapRemove(s, e).1;
      r == if !Polls(v) then 0 else if v.fd in s.epoll then 1 else -1
  {
    PollsIsMapped(s.events[e]);
  }

  /** An event added with a time times out at time t exactly when that time has passed by t. */
  lemma AddedFiresIff(s: Base, e: nat, tv: Timeval, now: Timeval, ok: bool, t: Timeval)
    requires Inv(s) && e in s.events && Takes(s, e, ok) && tv.sec >= 0
    requires Normal(tv) && Normal(now) && Normal(t)
    ensures var s1 := Apply(s, Add(e, Some(tv), now, ok));
      && Inv(s1) && e in Expire(s1, t).events
      && (Expire(s1, t).events[e].res == {Timeout} && e in Expire(s1, t).active && !Expire(s1, t).events[e].timed
          <==> Micros(now) + Micros(tv) <= Micros(t))
  {
    var s1 := Apply(s, Add(e, Some(tv), now, ok));
    AddLaw(s, e, tv, now, ok);
    OpInv(s, Add(e, Some(tv), now, ok));
    var due := ExpireExact(s1, t);
    if Due(s1, e, t) {
      assert e in Without(s1.active, due) + due;
    } else {
      assert e !in due;
    }
  }

  // ----- the helpers by themselves -----

  /** event_add_active: an active event keeps its result; another joins the tail with the new one. */
  lemma AddActiveLaw(s: Base, e: nat, res: set<Bit>)
    requires Inv(s) && e in s.events
    ensures var s' := AddActive(s, e, res);
      if e in s.active then s' == s
      else && s'.slots == s.slots && s'.timers == s.timers && s'.epoll == s.epoll && s'.active == s.active + [e]
           && s'.countActive == |s'.active| && s'.used == s.used && s'.count == s.count
           && OthersSame(s, s', e) && e in s'.events && s'.events[e] == s.events[e].(active := true, res := res)
  {
  }

  /** event_add_timeout: a timer that runs is left alone; another gets its place by its deadline. */
  lemma AddTimeoutLaw(s: Base, e: nat)
    requires Inv(s) && e in s.events
    ensures var s' := AddTimeout(s, e);
      if e in s.timers then s' == s
      else && s'.slots == s.slots && s'.active == s.active && s'.epoll == s.epoll
           && e in s'.timers && Remove(s'.timers, e) == s.timers && s'.count == s.count + 1
           && s'.used == s.used && s'.countActive == s.countActive
           && OthersSame(s, s', e) && e in s'.events && s'.events[e] == s.events[e].(timed := true)
  {
    if e !in s.timers {
      var a, b := SplitTimers(s.events, s.timers, s.events[e].deadline);
      InsertTimerAt(s.events, a, b, e);
      RemoveMiddle(a, e, b);
    }
  }

  /** event_map_add: without success nothing changes. */
  lemma MapAddLaw(s: Base, e: nat, ok: bool)
    requires Inv(s) && e in s.events && !s.events[e].reg
    ensures var s', v := MapAdd(s, e, ok).0, s.events[e];
      && s'.events == s.events && s'.timers == s.timers && s'.active == s.active && s'.countActive == s.countActive
      && (if Polls(v) && ok && v.fd !in s.epoll
          then Joined(s, s', e) && s'.used == s.used + 1 && s'.count == s.count + 1 else s' == s)
  {
    PollsIsMapped(s.events[e]);
    JoinedIsRegistered(s, e);
  }

  /** event_map_remove: an event that polls leaves its slot list and is no longer watched. */
  lemma MapRemoveLaw(s: Base, e: nat)
    requires Inv(s) && e in s.events && s.events[e].reg
    ensures var s', v := MapRemove(s, e).0, s.events[e];
      && s'.events == s.events && s'.timers == s.timers && s'.active == s.active && s'.countActive == s.countActive
      && |s'.slots| == 32 && (forall i :: 0 <= i < 32 ==> s'.slots[i] == Remove(s.slots[i], e))
      && (if Polls(v) then s'.epoll == s.epoll - {v.fd} && s'.used == s.used - 1 && s'.count == s.count - 1
          else s' == s)
  {
    PollsIsMapped(s.events[e]);
    forall i | 0 <= i < 32 ensures MapRemove(s, e).0.slots[i] == Remove(s.slots[i], e) {
      RemoveFacts(s.slots[i], e);
    }
  }

  // ----- readiness -----

  /** Which event bits epoll's bits stand for. */
  lemma TranslateLaw(what: set<EpollBit>)
    ensures Read in Translate(what) <==> EpIn in what || EpHup in what || EpErr in what
    ensures Write in Translate(what) <==> EpOut in what || EpHup in what || EpErr in what
    ensures Closed in Translate(what) <==> EpRdhup in what && EpHup !in what && EpErr !in what
    ensures Timeout !in Translate(what) && Persist !in Translate(what)
  {
  }

  /** The event waits for something that epoll reports. */
  ghost predicate Concerned(v: Event, what: set<EpollBit>) {
    || (Read in v.events && (EpIn in what || EpHup in what || EpErr in what))
    || (Write in v.events && (EpOut in what || EpHup in what || EpErr in what))
    || (Closed in v.events && EpRdhup in what && EpHup !in what && EpErr !in what)
  }

  /** A report makes an idle event of its slot active exactly when the event waits for something that
      was reported, and records exactly those bits. */
  lemma ReportLaw(s: Base, e: nat, fd: int, what: set<EpollBit>)
    requires Inv(s) && fd >= 0 && e in s.events && s.events[e].reg && Polls(s.events[e]) && !s.events[e].active
    requires (s.events[e].fd - fd) % 32 == 0
    ensures var s', v := Reports(s, [Wake(fd, what)]), s.events[e];
      && e in s'.events && (e in s'.active <==> Concerned(v, what))
      && (e in s'.active ==>
            var res := s'.events[e].res;
            && (Read in res <==> Read in v.events && (EpIn in what || EpHup in what || EpErr in what))
            && (Write in res <==> Write in v.events && (EpOut in what || EpHup in what || EpErr in what))
            && (Closed in res <==> Closed in v.events && EpRdhup in what && EpHup !in what && EpErr !in what)
            && Timeout !in res && Persist !in res)
  {
    var bits, v := Translate(what), s.events[e];
    OneReport(s, fd, what);
    TranslateLaw(what);
    PollsIsMapped(v);
    SlotsShared(v.fd, fd);
    ReadyByFdIff(s, fd, bits);
    ReadyExact(s, fd, bits);
    CommonBits(v, bits);
    if Wakeable(s, e, SlotOf(fd), bits) { ReadyRecords(s, e, fd, bits); }
  }

  lemma OneReport(s: Base, fd: int, what: set<EpollBit>)
    requires Inv(s)
    ensures Reports(s, [Wake(fd, what)]) == Ready(s, fd, Translate(what))
  {
    ReadyExact(s, fd, Translate(what));
    assert [Wake(fd, what)][1..] == [];
  }

  lemma CommonBits(v: Event, bits: set<Bit>)
    requires bits <= IO
    ensures v.events * bits != {} <==>
      (Read in v.events && Read in bits) || (Write in v.events && Write in bits)
      || (Closed in v.events && Closed in bits)
  {
    if v.events * bits != {} {
      var b :| b in v.events * bits;
    } else {
      assert forall b :: b in v.events && b in bits ==> b in v.events * bits;
    }
  }

  lemma ReadyRecords(s: Base, e: nat, fd: int, bits: set<Bit>)
    requires Inv(s) && fd >= 0 && Wakeable(s, e, SlotOf(fd), bits)
    ensures e in Ready(s, fd, bits).events && Ready(s, fd, bits).events[e].res == s.events[e].events * bits
  {
    ReadyExact(s, fd, bits);
    WokenIn(s, s.slots[SlotOf(fd)], bits);
  }

  /** A report for a negative descriptor does nothing; several reports are handled in order. */
  lemma {:induction false} ReportsAppend(s: Base, a: seq<Wake>, b: seq<Wake>)
    requires Inv(s)
    ensures Reports(s, a + b) == Reports(Reports(s, a), b)
    decreases a
  {
    if a == [] {
      assert a + b == b;
    } else {
      ReadyExact(s, a[0].fd, Translate(a[0].what));
      ReportsAppend(Ready(s, a[0].fd, Translate(a[0].what)), a[1..], b);
      assert (a + b)[1..] == a[1..] + b;
    }
  }

  lemma NegativeFd(s: Base, fd: int, what: set<EpollBit>)
    requires Inv(s) && fd < 0
    ensures Reports(s, [Wake(fd, what)]) == s
  {
    OneReport(s, fd, what);
  }

  // ----- serving -----

  /** An event that is not persistent is off every list when its callback runs. */
  lemma ServeOnceLaw(s: Base, e: nat, turn: Turn)
    requires Inv(s) && e in s.events && Persist !in s.events[e].events
    ensures var s' := ServeOne(s, e, turn);
      && Unlisted(s, s', e) && OthersSame(s, s', e) && e in s'.events
      && s'.events[e] == s.events[e].(reg := false, timed := false, active := false)
  {
    UnlistedIsDeleted(s, e);
  }

  /** A persistent event without an interval only leaves the active list. */
  lemma ServeSteadyLaw(s: Base, e: nat, turn: Turn)
    requires Inv(s) && e in s.events && Persist in s.events[e].events && s.events[e].interval == ZERO
    ensures var s' := ServeOne(s, e, turn);
      && s'.slots == s.slots && s'.timers == s.timers && s'.epoll == s.epoll && s'.active == Remove(s.active, e)
      && OthersSame(s, s', e) && e in s'.events && s'.events[e] == s.events[e].(active := false)
  {
    RemoveFacts(s.active, e);
    if !s.events[e].active { assert s.events[e].(active := false) == s.events[e]; }
  }

  /** A persistent event with an interval that can be registered gets its next time: one interval
      after the old deadline if it timed out at most one interval ago, else one interval from now. */
  lemma ServeIntervalLaw(s: Base, e: nat, turn: Turn)
    requires Inv(s) && e in s.events && Persist in s.events[e].events && s.events[e].interval != ZERO
    requires NormalEvent(s.events[e]) && Normal(turn.now) && Takes(s, e, turn.ok)
    ensures var s1, s', v := RemoveActive(s, e), ServeOne(s, e, turn), s.events[e];
      && s1 == s.(events := s1.events, active := Remove(s.active, e), countActive := s1.countActive)
      && OthersSame(s, s1, e) && e in s1.events && s1.events[e] == v.(active := false)
      && e in s'.events && Armed(s1, s', e, s'.events[e].deadline, v.interval)
      && Micros(s'.events[e].deadline) ==
           if Timeout in v.res && Micros(turn.now) <= Micros(v.deadline) + Micros(v.interval)
           then Micros(v.deadline) + Micros(v.interval) else Micros(turn.now) + Micros(v.interval)
  {
    var v, s1 := s.events[e], RemoveActive(s, e);
    OffActive(s, e);
    RemoveActiveInv(s, e);
    TakesIsAdmitted(s, e, turn.ok);
    RegisteredInv(s1, e);
    ArmedIsRescheduled(s1, e, NextDeadline(v, turn.now), v.interval);
    NextDeadlineLaw(v, turn.now);
  }

  /** What the active list loses, and nothing else. */
  lemma OffActive(s: Base, e: nat)
    requires Inv(s) && e in s.events
    ensures var s1 := RemoveActive(s, e);
      && s1 == s.(events := s1.events, active := Remove(s.active, e), countActive := s1.countActive)
      && OthersSame(s, s1, e) && e in s1.events && s1.events[e] == s.events[e].(active := false)
  {
    RemoveFacts(s.active, e);
    if !s.events[e].active { assert s.events[e].(active := false) == s.events[e]; }
  }

  /** One that epoll does not take is on no list afterwards. */
  lemma ServeRefusedLaw(s: Base, e: nat, turn: Turn)
    requires Inv(s) && e in s.events && Persist in s.events[e].events && s.events[e].interval != ZERO
    requires !Takes(s, e, turn.ok)
    ensures var s' := ServeOne(s, e, turn);
      && s'.slots == s.slots && s'.timers == s.timers && s'.epoll == s.epoll && s'.active == Remove(s.active, e)
      && OthersSame(s, s', e) && e in s'.events && s'.events[e] == s.events[e].(active := false)
  {
    TakesIsAdmitted(s, e, turn.ok);
    RemoveFacts(s.active, e);
    if !s.events[e].active { assert s.events[e].(active := false) == s.events[e]; }
  }

  /** The order of a callback's operations. */
  lemma {:induction false} OpsAppend(s: Base, a: seq<Op>, b: seq<Op>, saved: Ptr)
    requires LegalOps(s, a, saved) && LegalOps(RunOps(s, a, saved), b, saved)
    ensures LegalOps(s, a + b, saved) && RunOps(s, a + b, saved) == RunOps(RunOps(s, a, saved), b, saved)
    decreases a
  {
    if a == [] {
      assert a + b == b;
    } else {
      OpsAppend(Apply(s, a[0]), a[1..], b, saved);
      assert (a + b)[1..] == a[1..] + b;
    }
  }

  lemma OneOp(s: Base, op: Op, saved: Ptr)
    requires Inv(s) && Legal(s, op, saved)
    ensures LegalOps(s, [op], saved) && RunOps(s, [op], saved) == Apply(s, op)
  {
    assert [op][1..] == [];
  }

  // ----- the loop -----

  lemma DefaultWait(s: Base, now: Timeval)
    requires Inv(s) && s.timers == []
    ensures NextWait(s, now) == 60000
  {
  }

  /** The loop leads from s to s' with these calls and this exit. */
  ghost predicate LoopsTo(s: Base, its: seq<Iteration>, s': Base, calls: seq<Call>, exit: Exit) {
    Inv(s) && LegalLoop(s, its) && Loop(s, its) == (s', calls, exit)
  }

  lemma LoopCons(s: Base, its: seq<Iteration>, f: Base, s1: Base, made: seq<Call>, s': Base, more: seq<Call>,
                 exit: Exit)
    requires Inv(s) && !NothingLeft(s) && its != [] && its[0].wakes.Some? && f == Fired(s, its[0])
    requires LegalPass(f, its[0].turns) && (s1, made) == Pass(f, its[0].turns) && LoopsTo(s1, its[1..], s', more, exit)
    ensures LoopsTo(s, its, s', made + more, exit)
  {
  }

  lemma LoopNone(s: Base)
    requires Inv(s)
    ensures LoopsTo(s, [], s, [], if NothingLeft(s) then Empty else InputEnds)
  {
  }

  /** One iteration: reports, timeouts, then a pass, whose calls it makes. */
  lemma OneIterationLaw(s: Base, it: Iteration, f: Base)
    requires Inv(s) && it.wakes.Some? && f == Expire(Reports(s, it.wakes.value), it.now) && Inv(f)
    requires LegalPass(f, it.turns)
    requires s.timers != [] || s.active != [] || exists i :: 0 <= i < 32 && s.slots[i] != []
    ensures exists exit :: exit != EpollError && LoopsTo(s, [it], Pass(f, it.turns).0, Pass(f, it.turns).1, exit)
  {
    SomethingLeft(s);
    PassServesEachOnce(f, it.turns);
    LastIteration(s, it, f, Pass(f, it.turns).0, Pass(f, it.turns).1);
  }

  lemma SomethingLeft(s: Base)
    requires Inv(s) && (s.timers != [] || s.active != [] || exists i :: 0 <= i < 32 && s.slots[i] != [])
    ensures !NothingLeft(s)
  {
    EmptyExitIff(s);
  }

  lemma LastIteration(s: Base, it: Iteration, f: Base, s1: Base, made: seq<Call>)
    requires Inv(s) && !NothingLeft(s) && it.wakes.Some? && f == Fired(s, it) && LegalPass(f, it.turns)
    requires (s1, made) == Pass(f, it.turns) && Inv(s1)
    ensures LoopsTo(s, [it], s1, made, if NothingLeft(s1) then Empty else InputEnds)
  {
    LoopNone(s1);
    assert [it][1..] == [];
    ConcatNone(made);
    LoopCons(s, [it], f, s1, made, s1, [], if NothingLeft(s1) then Empty else InputEnds);
  }

  /** A loop whose input ended goes on with more input where it was. */
  lemma {:induction false} LoopAppend(s: Base, a: seq<Iteration>, s1: Base, calls: seq<Call>, b: seq<Iteration>,
                                      s2: Base,
                                      more: seq<Call>, exit: Exit)
    requires LoopsTo(s, a, s1, calls, InputEnds) && LoopsTo(s1, b, s2, more, exit)
    ensures LoopsTo(s, a + b, s2, calls + more, exit)
    decreases a
  {
    if a == [] {
      assert a + b == b;
      ConcatNone(more);
    } else {
      var t, made, calls' := LoopHead(s, a, s1, calls);
      LoopAppend(t, a[1..], s1, calls', b, s2, more, exit);
      ConcatAssoc(made, calls', more);
      LoopConsAppend(s, a, b, t, made, s2, calls' + more, exit);
    }
  }

  lemma LoopConsAppend(s: Base, a: seq<Iteration>, b: seq<Iteration>, t: Base, made: seq<Call>, s': Base,
                       more: seq<Call>, exit: Exit)
    requires Inv(s) && !NothingLeft(s) && a != [] && a[0].wakes.Some? && LegalPass(Fired(s, a[0]), a[0].turns)
    requires (t, made) == Pass(Fired(s, a[0]), a[0].turns) && LoopsTo(t, a[1..] + b, s', more, exit)
    ensures LoopsTo(s, a + b, s', made + more, exit)
  {
    assert (a + b)[1..] == a[1..] + b && (a + b)[0] == a[0];
    LoopCons(s, a + b, Fired(s, a[0]), t, made, s', more, exit);
  }

  lemma LoopHead(s: Base, a: seq<Iteration>, s1: Base, calls: seq<Call>)
    returns (t: Base, made: seq<Call>, calls': seq<Call>)
    requires LoopsTo(s, a, s1, calls, InputEnds) && a != []
    ensures !NothingLeft(s) && a[0].wakes.Some? && LegalPass(Fired(s, a[0]), a[0].turns)
    ensures (t, made) == Pass(Fired(s, a[0]), a[0].turns) && LoopsTo(t, a[1..], s1, calls', InputEnds)
    ensures calls == made + calls'
  {
    t, made := AfterIteration(s, a), Pass(Fired(s, a[0]), a[0].turns).1;
    calls' := Loop(t, a[1..]).1;
  }

  /** An error of epoll_wait ends the loop without calls, an empty base without waiting. */
  lemma LoopStops(s: Base, its: seq<Iteration>)
    requires Inv(s) && its != []
    ensures s.timers == [] && s.active == [] && (forall i :: 0 <= i < 32 ==> s.slots[i] == []) ==>
      LegalLoop(s, its) && Loop(s, its) == (s, [], Empty)
    ensures s.timers != [] && its[0].wakes.None? ==> LegalLoop(s, its) && Loop(s, its) == (s, [], EpollError)
  {
    EmptyExitIff(s);
  }
}
