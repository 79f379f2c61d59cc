/** What every operation on the event base keeps: flags agree with list membership, the counters
    are exact, and the timers stay sorted. */
module EventInv {
  import opened Options
  import opened Sequences
  import opened Timevals
  import opened EventSpec

  lemma {:induction false} EmptyTotal(n: nat)
    ensures Total(EmptySlots(n)) == 0
  {
    if n > 0 {
      assert EmptySlots(n)[1..] == EmptySlots(n - 1);
      EmptyTotal(n - 1);
    }
  }

  lemma EmptyInv()
    ensures Inv(EmptyBase())
  {
    EmptyTotal(MAP_SIZE);
  }

  // ----- deletion -----

  /** Without a timer there is nothing to remove, so both branches say the same. */
  lemma TimeoutGone(s: Base, e: nat)
    requires e in s.events && (s.events[e].timed <==> e in s.timers)
    ensures RemoveTimeout(s, e) == s.(events := s.events[e := s.events[e].(timed := false)],
                                      timers := Remove(s.timers, e),
                                      count := s.count - if s.events[e].timed then 1 else 0)
  {
    RemoveFacts(s.timers, e);
    if !s.events[e].timed { assert s.events[e := s.events[e].(timed := false)] == s.events; }
  }

  lemma ActiveGone(s: Base, e: nat)
    requires e in s.events && (s.events[e].active <==> e in s.active)
    ensures RemoveActive(s, e) == s.(events := s.events[e := s.events[e].(active := false)],
                                     active := Remove(s.active, e),
                                     countActive := s.countActive - if s.events[e].active then 1 else 0)
  {
    RemoveFacts(s.active, e);
    if !s.events[e].active { assert s.events[e := s.events[e].(active := false)] == s.events; }
  }

  lemma IdleUntouched(s: Base, e: nat)
    requires e in s.events && |s.slots| == MAP_SIZE && e !in s.timers && e !in s.active
    requires !s.events[e].reg && !s.events[e].active && !s.events[e].timed
    ensures Deleted(s, e) == s
  {
    RemoveFacts(s.timers, e);
    RemoveFacts(s.active, e);
    assert s.events[e := Unflagged(s.events[e])] == s.events;
  }

  /** The steps of event_del leave no trace of e on any list. */
  lemma DelSteps(s: Base, e: nat)
    requires e in s.events && |s.slots| == MAP_SIZE && (s.events[e].timed ==> s.events[e].reg)
    requires s.events[e].timed <==> e in s.timers
    requires s.events[e].active <==> e in s.active
    ensures !s.events[e].reg && !s.events[e].active ==> Deleted(s, e) == s
    ensures var s2 := RemoveActive(RemoveTimeout(s, e), e);
      var s3 := if s.events[e].reg then MapRemove(s2, e).0 else s2;
      e in s3.events && SetEvent(s3, e, s3.events[e].(reg := false)) == Deleted(s, e)
  {
    var v := s.events[e];
    if !v.reg && !v.active { IdleUntouched(s, e); }
    TimeoutGone(s, e);
    var s1 := RemoveTimeout(s, e);
    ActiveGone(s1, e);
    var s2 := RemoveActive(s1, e);
    assert s2.events == s.events[e := v.(timed := false, active := false)];
    var s3 := if v.reg then MapRemove(s2, e).0 else s2;
    assert SetEvent(s3, e, s3.events[e].(reg := false)).events == s.events[e := Unflagged(v)];
  }

  lemma DeletedSlots(s: Base, e: nat)
    requires SlotInv(s) && CountInv(s) && TimerInv(s) && e in s.events
    ensures SlotInv(Deleted(s, e)) && CountInv(Deleted(s, e))
  {
    var v, s' := s.events[e], Deleted(s, e);
    RemoveFacts(s.timers, e);
    if Slotted(v) {
      var i := SlotOf(v.fd);
      RemoveFacts(s.slots[i], e);
      TotalUpdate(s.slots, i, Remove(s.slots[i], e));
      assert e in s.slots[i];
    }
  }

  lemma DeletedLists(s: Base, e: nat)
    requires ActiveInv(s) && TimerInv(s) && e in s.events && |s.slots| == MAP_SIZE
    ensures ActiveInv(Deleted(s, e)) && TimerInv(Deleted(s, e))
  {
    RemoveFacts(s.timers, e);
    RemoveFacts(s.active, e);
    RemoveSorted(s.events, s.timers, e);
  }

  lemma DelInv(s: Base, e: nat)
    requires Inv(s) && e in s.events
    ensures Inv(Deleted(s, e))
  {
    DeletedSlots(s, e);
    DeletedLists(s, e);
    var s' := Deleted(s, e);
    forall fd | fd in s'.epoll ensures exists x :: Watches(s', x, fd) {
      var x :| Watches(s, x, fd);
      assert x != e && Watches(s', x, fd);
    }
  }

  // ----- addition -----

  lemma RegisteredInv(s: Base, e: nat)
    requires Inv(s) && e in s.events && (s.events[e].reg || Registers(s, e, true))
    ensures Inv(Registered(s, e))
  {
    var v, s' := s.events[e], Registered(s, e);
    if !v.reg && Mapped(v) {
      var i := SlotOf(v.fd);
      TotalUpdate(s.slots, i, s.slots[i] + [e]);
      assert e !in s.slots[i];
    }
    RegisteredSlots(s, e);
    RegisteredEpoll(s, e);
  }

  lemma RegisteredEpoll(s: Base, e: nat)
    requires EpollInv(s) && e in s.events && |s.slots| == MAP_SIZE
    ensures EpollInv(Registered(s, e))
  {
    var s' := Registered(s, e);
    forall fd | fd in s'.epoll ensures exists x :: Watches(s', x, fd) {
      if fd in s.epoll {
        var x :| Watches(s, x, fd);
        assert Watches(s', x, fd);
      } else {
        assert Watches(s', e, fd);
      }
    }
  }

  lemma RegisteredSlots(s: Base, e: nat)
    requires SlotInv(s) && e in s.events
    ensures SlotInv(Registered(s, e))
  {
    var v, s' := s.events[e], Registered(s, e);
    if !v.reg && Mapped(v) {
      var i := SlotOf(v.fd);
      assert e !in s.slots[i];
      forall k | 0 <= k < MAP_SIZE
        ensures NoDup(s'.slots[k])
        ensures forall x :: x in s'.slots[k] <==> x in s'.events && InSlot(s'.events[x], k)
      {
        if k == i { assert s'.slots[k] == s.slots[k] + [e]; } else { assert s'.slots[k] == s.slots[k]; }
        assert forall x :: x in s'.slots[k] <==> x in s.slots[k] || (k == i && x == e);
      }
    }
  }

  lemma RescheduledTimers(s: Base, e: nat, deadline: Timeval, interval: Timeval)
    requires TimerInv(s) && e in s.events
    ensures TimerInv(Rescheduled(s, e, deadline, interval))
    ensures |Rescheduled(s, e, deadline, interval).timers| == if s.events[e].timed then |s.timers| else |s.timers| + 1
  {
    RemoveFacts(s.timers, e);
    RemoveSorted(s.events, s.timers, e);
    var r, s' := Remove(s.timers, e), Rescheduled(s, e, deadline, interval);
    SortedFrame(s.events, s'.events, r);
    InsertTimerKeeps(s'.events, r, e);
  }

  lemma RescheduledInv(s: Base, e: nat, deadline: Timeval, interval: Timeval)
    requires Inv(s) && e in s.events && s.events[e].reg
    ensures Inv(Rescheduled(s, e, deadline, interval))
  {
    RescheduledTimers(s, e, deadline, interval);
    var s' := Rescheduled(s, e, deadline, interval);
    assert forall x, i :: x in s.events ==> (InSlot(s'.events[x], i) <==> InSlot(s.events[x], i));
    forall fd | fd in s'.epoll ensures exists x :: Watches(s', x, fd) {
      var x :| Watches(s, x, fd);
      assert Watches(s', x, fd);
    }
  }

  lemma RegisterSteps(s: Base, e: nat, ok: bool)
    requires e in s.events && |s.slots| == MAP_SIZE && (s.events[e].reg || Registers(s, e, ok))
    ensures var s1 := if s.events[e].reg then s else MapAdd(s, e, ok).0;
      e in s1.events && SetEvent(s1, e, s1.events[e].(reg := true)) == Registered(s, e)
  {
    var v := s.events[e];
    assert v.reg ==> s.events[e := v.(reg := true)] == s.events;
  }

  lemma RescheduleSteps(s: Base, e: nat, deadline: Timeval, interval: Timeval)
    requires e in s.events && (forall x :: x in s.timers ==> x in s.events) && (s.events[e].timed <==> e in s.timers)
    ensures (RemoveFacts(s.timers, e);
      var s3 := RemoveTimeout(s, e);
      AddTimeout(SetEvent(s3, e, s3.events[e].(deadline := deadline, interval := interval)), e)
        == Rescheduled(s, e, deadline, interval))
  {
    RemoveFacts(s.timers, e);
    var v, s3 := s.events[e], RemoveTimeout(s, e);
    var r := Remove(s.timers, e);
    var s4 := SetEvent(s3, e, s3.events[e].(deadline := deadline, interval := interval));
    var v4 := v.(timed := false, deadline := deadline, interval := interval);
    assert s4.events == s.events[e := v4] && s4.timers == r;
    var final := s.events[e := v4.(timed := true)];
    assert s4.events[e := v4.(timed := true)] == final;
    InsertTimerIgnoresFlags(s4.events, final, r, e);
  }

  lemma {:induction false} InsertTimerIgnoresFlags(ev: map<nat, Event>, ev': map<nat, Event>, timers: seq<nat>, e: nat)
    requires e in ev && e in ev' && ev[e].deadline == ev'[e].deadline
    requires forall x :: x in timers ==> x in ev && x in ev' && ev[x].deadline == ev'[x].deadline
    ensures InsertTimer(ev, timers, e) == InsertTimer(ev', timers, e)
  {
    if timers != [] { InsertTimerIgnoresFlags(ev, ev', timers[1..], e); }
  }

  lemma AddInv(s: Base, e: nat, tv: Option<Timeval>, absolute: bool, now: Timeval, ok: bool)
    requires Inv(s) && e in s.events
    ensures Inv(EventAdd(s, e, tv, absolute, now, ok).0)
  {
    if s.events[e].reg || Registers(s, e, ok) {
      RegisteredInv(s, e);
      if tv.Some? {
        RescheduledInv(Registered(s, e), e, NewDeadline(tv.value, absolute, now),
                       NewInterval(s.events[e], tv.value, absolute));
      }
    }
  }
}
