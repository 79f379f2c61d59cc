/** The event base of wba_evloop.c as a value: its events, the 32 slot lists, the timer tree as
    the in-order sequence it denotes, the active list, the set of descriptors epoll watches, and
    the three counters.  The functions below say what each static helper does to that value. */
module EventSpec {
  import opened Options
  import opened Sequences
  import opened Timevals

  const MAP_SIZE := 32

  datatype Bit = Read | Write | Timeout | Closed | Persist

  const IO: set<Bit> := {Read, Write, Closed}

  /** `reg`, `active` and `timed` are the list flags REG, ACTIVE and TIMEOUT. */
  datatype Event = Event(fd: int, events: set<Bit>, reg: bool, active: bool, timed: bool,
                         res: set<Bit>, interval: Timeval, deadline: Timeval)

  datatype Base = Base(events: map<nat, Event>, slots: seq<seq<nat>>, timers: seq<nat>, active: seq<nat>,
                       epoll: set<int>, used: int, count: int, countActive: int)

  function EmptySlots(n: nat): seq<seq<nat>> { seq(n, _ => []) }

  function EmptyBase(): Base {
    Base(map[], EmptySlots(MAP_SIZE), [], [], {}, 0, 0, 0)
  }

  /** The descriptor and the I/O bits decide whether an event belongs to a slot list at all. */
  predicate Mapped(v: Event) { v.fd >= 0 && v.events * IO != {} }

  function SlotOf(fd: int): (i: nat)
    requires fd >= 0
    ensures i < MAP_SIZE
  {
    fd % MAP_SIZE
  }

  // ----- the helpers -----

  ghost function AddActive(s: Base, e: nat, res: set<Bit>): Base
    requires e in s.events
  {
    if s.events[e].active then s
    else s.(events := s.events[e := s.events[e].(res := res, active := true)],
            active := s.active + [e], countActive := s.countActive + 1)
  }

  ghost function RemoveActive(s: Base, e: nat): Base
    requires e in s.events
  {
    if !s.events[e].active then s
    else s.(events := s.events[e := s.events[e].(active := false)],
            active := Remove(s.active, e), countActive := s.countActive - 1)
  }

  /** Whether registering e's descriptor succeeds: the environment agrees and epoll does not
      watch the descriptor yet. */
  ghost predicate Registers(s: Base, e: nat, ok: bool)
    requires e in s.events
  {
    Mapped(s.events[e]) ==> ok && s.events[e].fd !in s.epoll
  }

  ghost function MapAdd(s: Base, e: nat, ok: bool): (Base, int)
    requires e in s.events && |s.slots| == MAP_SIZE
  {
    var v := s.events[e];
    if !Mapped(v) then (s, 0)
    else if !Registers(s, e, ok) then (s, -1)
    else
      var i := SlotOf(v.fd);
      (s.(epoll := s.epoll + {v.fd}, slots := s.slots[i := s.slots[i] + [e]],
          used := s.used + 1, count := s.count + 1), 1)
  }

  ghost function MapRemove(s: Base, e: nat): (Base, int)
    requires e in s.events && |s.slots| == MAP_SIZE
  {
    var v := s.events[e];
    if !Mapped(v) then (s, 0)
    else
      var i := SlotOf(v.fd);
      (s.(epoll := s.epoll - {v.fd}, slots := s.slots[i := Remove(s.slots[i], e)],
          used := s.used - 1, count := s.count - 1), if v.fd in s.epoll then 1 else -1)
  }

  /** The stable sorted insertion that the descent of event_add_timeout performs. */
  ghost function InsertTimer(events: map<nat, Event>, timers: seq<nat>, e: nat): seq<nat>
    requires e in events && forall x :: x in timers ==> x in events
  {
    if timers == [] then [e]
    else if TimeCmp(events[e].deadline, events[timers[0]].deadline) < 0 then [e] + timers
    else [timers[0]] + InsertTimer(events, timers[1..], e)
  }

  ghost function AddTimeout(s: Base, e: nat): Base
    requires e in s.events && forall x :: x in s.timers ==> x in s.events
  {
    if s.events[e].timed then s
    else s.(events := s.events[e := s.events[e].(timed := true)],
            timers := InsertTimer(s.events, s.timers, e), count := s.count + 1)
  }

  ghost function RemoveTimeout(s: Base, e: nat): Base
    requires e in s.events
  {
    if !s.events[e].timed then s
    else s.(events := s.events[e := s.events[e].(timed := false)],
            timers := Remove(s.timers, e), count := s.count - 1)
  }

  ghost function SetEvent(s: Base, e: nat, v: Event): Base { s.(events := s.events[e := v]) }

  /** An event that belongs in a slot list. */
  ghost predicate Slotted(v: Event) { v.reg && Mapped(v) }

  /** The base with e registered, on the success path of event_map_add. */
  ghost function Registered(s: Base, e: nat): Base
    requires e in s.events && |s.slots| == MAP_SIZE
  {
    var v := s.events[e];
    if v.reg then s
    else if !Mapped(v) then SetEvent(s, e, v.(reg := true))
    else
      var i := SlotOf(v.fd);
      s.(events := s.events[e := v.(reg := true)], slots := s.slots[i := s.slots[i] + [e]],
         epoll := s.epoll + {v.fd}, used := s.used + 1, count := s.count + 1)
  }

  /** The base with e's timer moved to where its new deadline belongs. */
  ghost function Rescheduled(s: Base, e: nat, deadline: Timeval, interval: Timeval): Base
    requires e in s.events && forall x :: x in s.timers ==> x in s.events
  {
    var v := s.events[e];
    var events := s.events[e := v.(timed := true, deadline := deadline, interval := interval)];
    RemoveFacts(s.timers, e);
    s.(events := events, timers := InsertTimer(events, Remove(s.timers, e), e),
       count := if v.timed then s.count else s.count + 1)
  }

  /** The deadline and the interval that event_add stores. */
  ghost function NewDeadline(tv: Timeval, absolute: bool, now: Timeval): Timeval {
    if absolute then tv else TimeAdd(now, tv)
  }

  ghost function NewInterval(v: Event, tv: Timeval, absolute: bool): Timeval {
    if !absolute && Persist in v.events then tv else v.interval
  }

  /** event_add: fails without a trace, or registers the event and, when a time is given, moves
      its timer. */
  ghost function EventAdd(s: Base, e: nat, tv: Option<Timeval>, absolute: bool, now: Timeval, ok: bool): (Base, int)
    requires e in s.events && |s.slots| == MAP_SIZE && forall x :: x in s.timers ==> x in s.events
  {
    var v := s.events[e];
    if !v.reg && !Registers(s, e, ok) then (s, 0)
    else if tv.None? then (Registered(s, e), if v.reg || Mapped(v) then 1 else 0)
    else (Rescheduled(Registered(s, e), e, NewDeadline(tv.value, absolute, now), NewInterval(v, tv.value, absolute)), 1)
  }

  ghost function Unflagged(v: Event): Event { v.(reg := false, active := false, timed := false) }

  /** The base without any trace of e on its lists. */
  ghost function Deleted(s: Base, e: nat): Base
    requires e in s.events && |s.slots| == MAP_SIZE
  {
    var v := s.events[e];
    var n := if Slotted(v) then 1 else 0;
    Base(s.events[e := Unflagged(v)],
         if Slotted(v) then s.slots[SlotOf(v.fd) := Remove(s.slots[SlotOf(v.fd)], e)] else s.slots,
         Remove(s.timers, e), Remove(s.active, e),
         if Slotted(v) then s.epoll - {v.fd} else s.epoll,
         s.used - n, s.count - n - (if v.timed then 1 else 0), s.countActive - if v.active then 1 else 0)
  }

  /** What event_del returns: 1 for an idle event, and 1 after a successful unregistration. */
  ghost function DelResult(s: Base, e: nat): int
    requires e in s.events
  {
    var v := s.events[e];
    if (!v.reg && !v.active) || (Slotted(v) && v.fd in s.epoll) then 1 else 0
  }

  // ----- consistency -----

  ghost predicate ActiveInv(s: Base) {
    && NoDup(s.active) && s.countActive == |s.active|
    && (forall e :: e in s.active <==> e in s.events && s.events[e].active)
  }

  ghost predicate Sorted(events: map<nat, Event>, timers: seq<nat>) {
    && (forall e :: e in timers ==> e in events)
    && (forall i, j :: 0 <= i < j < |timers| ==> NotLater(events[timers[i]].deadline, events[timers[j]].deadline))
  }

  ghost predicate TimerInv(s: Base) {
    && NoDup(s.timers) && Sorted(s.events, s.timers)
    && (forall e :: e in s.timers <==> e in s.events && s.events[e].timed)
  }

  ghost predicate InSlot(v: Event, i: int) { Slotted(v) && SlotOf(v.fd) == i }

  ghost predicate SlotInv(s: Base) {
    && |s.slots| == MAP_SIZE
    && (forall i :: 0 <= i < MAP_SIZE ==> NoDup(s.slots[i]))
    && (forall i, e :: 0 <= i < MAP_SIZE ==> (e in s.slots[i] <==> e in s.events && InSlot(s.events[e], i)))
  }

  ghost function Total(slots: seq<seq<nat>>): nat {
    if slots == [] then 0 else |slots[0]| + Total(slots[1..])
  }

  ghost predicate CountInv(s: Base) {
    s.used == Total(s.slots) && s.count == s.used + |s.timers|
  }

  ghost predicate Watches(s: Base, e: nat, fd: int) { e in s.events && s.events[e].fd == fd && Slotted(s.events[e]) }

  /** epoll watches only descriptors of events that sit in a slot list. */
  ghost predicate EpollInv(s: Base) {
    forall fd :: fd in s.epoll ==> exists e :: Watches(s, e, fd)
  }

  ghost predicate Inv(s: Base) {
    && ActiveInv(s) && TimerInv(s) && SlotInv(s) && CountInv(s) && EpollInv(s)
    && (forall e :: e in s.events && s.events[e].timed ==> s.events[e].reg)
  }

  // ----- timers without one event -----

  lemma SortedFrame(events: map<nat, Event>, events': map<nat, Event>, timers: seq<nat>)
    requires Sorted(events, timers)
    requires forall x :: x in timers ==> x in events' && events'[x].deadline == events[x].deadline
    ensures Sorted(events', timers)
  {
  }

  lemma SortedWithout(events: map<nat, Event>, a: seq<nat>, x: nat, b: seq<nat>)
    requires Sorted(events, a + [x] + b)
    ensures Sorted(events, a + b)
  {
    var s, r := a + [x] + b, a + b;
    forall y | y in r ensures y in events { assert y in s; }
    forall i, j | 0 <= i < j < |r| ensures NotLater(events[r[i]].deadline, events[r[j]].deadline) {
      var i', j' := if i < |a| then i else i + 1, if j < |a| then j else j + 1;
      assert r[i] == s[i'] && r[j] == s[j'];
    }
  }

  lemma {:induction false} RemoveSorted(events: map<nat, Event>, timers: seq<nat>, x: nat)
    requires NoDup(timers) && Sorted(events, timers)
    ensures Sorted(events, Remove(timers, x))
  {
    if x in timers {
      var k :| 0 <= k < |timers| && timers[k] == x;
      var a, b := timers[..k], timers[k + 1..];
      assert timers == a + [x] + b;
      RemoveMiddle(a, x, b);
      SortedWithout(events, a, x, b);
    } else {
      RemoveFacts(timers, x);
    }
  }

  lemma {:induction false} TotalUpdate(slots: seq<seq<nat>>, i: nat, l: seq<nat>)
    requires i < |slots|
    ensures Total(slots[i := l]) == Total(slots) - |slots[i]| + |l|
  {
    if i == 0 {
      assert slots[i := l][1..] == slots[1..];
    } else {
      assert slots[i := l][1..] == slots[1..][i - 1 := l];
      TotalUpdate(slots[1..], i - 1, l);
    }
  }

  // ----- stable insertion -----

  ghost predicate AllNotLater(events: map<nat, Event>, a: seq<nat>, d: Timeval) {
    forall x :: x in a ==> x in events && NotLater(events[x].deadline, d)
  }

  ghost predicate AllLater(events: map<nat, Event>, b: seq<nat>, d: Timeval) {
    forall x :: x in b ==> x in events && TimeCmp(d, events[x].deadline) < 0
  }

  /** In a sorted list the new timer lands after every timer that is not later, and before all
      later ones: equal deadlines keep insertion order. */
  lemma {:induction false} InsertTimerAt(events: map<nat, Event>, a: seq<nat>, b: seq<nat>, e: nat)
    requires e in events && AllNotLater(events, a, events[e].deadline) && AllLater(events, b, events[e].deadline)
    ensures forall x :: x in a + b ==> x in events
    ensures InsertTimer(events, a + b, e) == a + [e] + b
  {
    if a == [] {
      assert a + b == b && a + [e] + b == [e] + b;
      assert b == [] ==> [e] + b == [e];
    } else {
      assert (a + b)[1..] == a[1..] + b;
      InsertTimerAt(events, a[1..], b, e);
      assert TimeCmp(events[e].deadline, events[a[0]].deadline) >= 0;
      assert [a[0]] + (a[1..] + [e] + b) == a + [e] + b;
    }
  }

  lemma {:induction false} SplitTimers(events: map<nat, Event>, timers: seq<nat>, d: Timeval)
    returns (a: seq<nat>, b: seq<nat>)
    requires Sorted(events, timers)
    ensures timers == a + b && AllNotLater(events, a, d) && AllLater(events, b, d)
  {
    if timers == [] {
      a, b := [], [];
    } else if TimeCmp(d, events[timers[0]].deadline) < 0 {
      a, b := [], timers;
      forall x | x in b ensures TimeCmp(d, events[x].deadline) < 0 {
        var i :| 0 <= i < |timers| && timers[i] == x;
        if i > 0 { assert NotLater(events[timers[0]].deadline, events[timers[i]].deadline); }
      }
    } else {
      a, b := SplitTimers(events, timers[1..], d);
      a := [timers[0]] + a;
    }
  }

  lemma {:induction false} InsertTimerKeeps(events: map<nat, Event>, timers: seq<nat>, e: nat)
    requires NoDup(timers) && Sorted(events, timers) && e in events && e !in timers
    ensures var r := InsertTimer(events, timers, e);
      NoDup(r) && Sorted(events, r) && |r| == |timers| + 1 && forall x :: x in r <==> x in timers || x == e
  {
    var a, b := SplitTimers(events, timers, events[e].deadline);
    InsertTimerAt(events, a, b, e);
    var r := a + [e] + b;
    forall i, j | 0 <= i < j < |r|
      ensures r[i] != r[j] && NotLater(events[r[i]].deadline, events[r[j]].deadline)
    {
      if i < |a| { assert r[i] == a[i] == timers[i]; }
      if i > |a| { assert r[i] == b[i - |a| - 1] == timers[i - 1]; }
      if j < |a| { assert r[j] == a[j] == timers[j]; }
      if j > |a| { assert r[j] == b[j - |a| - 1] == timers[j - 1]; }
    }
  }
}
