/** The event base of wba_evloop.c with its linked timer tree, updated in place. */
module EventBase {
  import opened Options
  import opened Sequences
  import Powers
  import opened Timevals
  import opened Pointers
  import opened RbShape
  import opened RbMemory
  import RbTree
  import opened ListHead
  import opened EventSpec
  import opened EventInv
  import opened EventRuns
  import opened EventLoop

  /** Around any timer of a sorted list. */
  lemma SortedSides(events: map<nat, Event>, a: seq<nat>, x: nat, b: seq<nat>)
    requires Sorted(events, a + [x] + b)
    ensures x in events && AllNotLater(events, a, events[x].deadline)
    ensures forall y :: y in b ==> y in events && NotLater(events[x].deadline, events[y].deadline)
  {
    var s := a + [x] + b;
    assert s[|a|] == x;
    forall y | y in a ensures y in events && NotLater(events[y].deadline, events[x].deadline) {
      var i :| 0 <= i < |a| && a[i] == y;
      assert s[i] == y && y in s;
    }
    forall y | y in b ensures y in events && NotLater(events[x].deadline, events[y].deadline) {
      var i :| 0 <= i < |b| && b[i] == y;
      assert s[|a| + 1 + i] == y && y in s;
    }
  }

  lemma LaterCons(events: map<nat, Event>, x: nat, b: seq<nat>, d: Timeval)
    requires x in events && TimeCmp(d, events[x].deadline) < 0
    requires forall y :: y in b ==> y in events && NotLater(events[x].deadline, events[y].deadline)
    ensures AllLater(events, [x] + b, d)
  {
  }

  lemma NotLaterSnoc(events: map<nat, Event>, a: seq<nat>, x: nat, d: Timeval)
    requires x in events && TimeCmp(d, events[x].deadline) >= 0 && AllNotLater(events, a, events[x].deadline)
    ensures AllNotLater(events, a + [x], d)
  {
  }

  /** Going left at a later timer keeps everything to the right of the hole later. */
  lemma {:induction false} DescentLeft(events: map<nat, Event>, z: Path, t: Tree, d: Timeval)
    requires t.Node? && Sorted(events, InOrder(Fill(z, t))) && Distinct(Fill(z, t))
    requires t.id in events && TimeCmp(d, events[t.id].deadline) < 0
    ensures AllLater(events, After(LeftOf(t.id, t.color, t.right, z)), d)
  {
    OccursOnce(z, t);
    var b := InOrder(t.right) + After(z);
    SortedSides(events, Before(z) + InOrder(t.left), t.id, b);
    assert After(LeftOf(t.id, t.color, t.right, z)) == [t.id] + b;
    LaterCons(events, t.id, b, d);
  }

  lemma {:induction false} DescentRight(events: map<nat, Event>, z: Path, t: Tree, d: Timeval)
    requires t.Node? && Sorted(events, InOrder(Fill(z, t))) && Distinct(Fill(z, t))
    requires t.id in events && TimeCmp(d, events[t.id].deadline) >= 0
    ensures AllNotLater(events, Before(RightOf(t.id, t.color, t.left, z)), d)
  {
    OccursOnce(z, t);
    var a := Before(z) + InOrder(t.left);
    SortedSides(events, a, t.id, InOrder(t.right) + After(z));
    assert Before(RightOf(t.id, t.color, t.left, z)) == a + [t.id];
    NotLaterSnoc(events, a, t.id, d);
  }

  /** An empty place splits the in-order sequence. */
  lemma EmptyPlace(z: Path)
    ensures InOrder(Fill(z, Leaf)) == Before(z) + After(z)
  {
    FillInOrder(z, Leaf);
    ConcatNone(Before(z));
  }

  /** Once e's timer is out of the tree, its record may change freely. */
  lemma UntimedKeeps(s: Base, e: nat, s': Base)
    requires TimerInv(s) && e in s.events && e in s'.events && !s'.events[e].timed
    requires s'.timers == Remove(s.timers, e) && s'.events == s.events[e := s'.events[e]]
    ensures TimerInv(s')
  {
    RemoveFacts(s.timers, e);
    RemoveSorted(s.events, s.timers, e);
    SortedFrame(s.events, s'.events, s'.timers);
  }

  /** A report without any event bit wakes nobody. */
  lemma NothingReady(s: Base, fd: int)
    requires Inv(s)
    ensures Ready(s, fd, {}) == s
  {
    if fd >= 0 { ActivateNothing(s, s.slots[SlotOf(fd)]); }
  }

  lemma {:induction false} ActivateNothing(s: Base, list: seq<nat>)
    requires forall e :: e in list ==> e in s.events
    ensures Activate(s, list, {}) == s
    decreases list
  {
    if list != [] { ActivateNothing(s, list[1..]); }
  }

  /** In whatever slot an event sits, deleting it removes it there. */
  lemma DeletedFromSlots(s: Base, e: nat)
    requires SlotInv(s) && e in s.events
    ensures forall k :: 0 <= k < MAP_SIZE ==> Deleted(s, e).slots[k] == Remove(s.slots[k], e)
  {
    forall k | 0 <= k < MAP_SIZE ensures Deleted(s, e).slots[k] == Remove(s.slots[k], e) {
      RemoveFacts(s.slots[k], e);
    }
  }

  /** One iteration of the loop, with the calls made before it. */
  lemma LoopStep(s: Base, its: seq<Iteration>, s1: Base, made: seq<Call>, calls: seq<Call>)
    requires Inv(s) && LegalLoop(s, its) && its != [] && !NothingLeft(s) && its[0].wakes.Some?
    requires LegalPass(Fired(s, its[0]), its[0].turns) && (s1, made) == Pass(Fired(s, its[0]), its[0].turns)
    ensures Inv(s1) && LegalLoop(s1, its[1..])
    ensures var (t, more, x) := Loop(s, its); var (t1, more1, x1) := Loop(s1, its[1..]);
      t == t1 && x == x1 && calls + more == (calls + made) + more1
  {
    PassServesEachOnce(Fired(s, its[0]), its[0].turns);
    ConcatAssoc(calls, made, Loop(s1, its[1..]).1);
  }

  /** One event of a pass, with the calls made before it. */
  lemma PassStep(s: Base, turns: seq<Turn>, calls: seq<Call>)
    requires Inv(s) && LegalPass(s, turns) && s.active != []
    ensures turns != [] && s.active[0] in s.events
    ensures var e, s1 := s.active[0], ServeOne(s, s.active[0], turns[0]);
      && LegalOps(s1, turns[0].ops, HeadOf(s.active[1..]))
      && var s2 := RunOps(s1, turns[0].ops, HeadOf(s.active[1..]));
        && Inv(s2) && LegalPass(s2, turns[1..]) && e in s1.events
        && Pass(s, turns).0 == Pass(s2, turns[1..]).0
        && calls + Pass(s, turns).1 == (calls + [Call(e, s1.events[e].fd, s1.events[e].res)]) + Pass(s2, turns[1..]).1
  {
    var e := s.active[0];
    assert e in s.active;
    ServeOneInv(s, e, turns[0]);
    HeadServed(s, turns[0]);
    var s1 := ServeOne(s, e, turns[0]);
    var s2 := RunOps(s1, turns[0].ops, HeadOf(s.active[1..]));
    ConcatAssoc(calls, [Call(e, s1.events[e].fd, s1.events[e].res)], Pass(s2, turns[1..]).1);
  }

  /** Deleting one more event that some slot list or the timer tree still holds. */
  lemma DeleteNext(s0: Base, done: seq<nat>, s: Base, e: nat)
    requires Inv(s0) && NoDup(done) && (forall x :: x in done ==> x in s0.events && Held(s0.events[x]))
    requires s == DeleteAll(s0, done) && Inv(s) && e in s.events && Held(s.events[e])
    ensures NoDup(done + [e]) && e in s0.events && Held(s0.events[e])
    ensures Inv(Deleted(s, e)) && Deleted(s, e) == DeleteAll(s0, done + [e])
    ensures Deleted(s, e).timers == Remove(s.timers, e)
    ensures forall k :: 0 <= k < MAP_SIZE ==> Deleted(s, e).slots[k] == Remove(s.slots[k], e)
  {
    NotYetDeleted(s0, done, s, e);
    DelInv(s, e);
    DeletedFromSlots(s, e);
    assert (done + [e])[..|done|] == done;
    RemoveFacts(s.timers, e);
  }

  lemma NotYetDeleted(s0: Base, done: seq<nat>, s: Base, e: nat)
    requires Inv(s0) && NoDup(done) && (forall x :: x in done ==> x in s0.events && Held(s0.events[x]))
    requires s == DeleteAll(s0, done) && e in s.events && Held(s.events[e])
    ensures NoDup(done + [e]) && e in s0.events && Held(s0.events[e])
  {
    DeleteAllInv(s0, done);
    assert e !in done;
  }

  /** Walking on from the first of `rest`. */
  lemma WalkStep(done: seq<nat>, rest: seq<nat>)
    requires NoDup(done + rest) && rest != []
    ensures rest[0] in done + rest && SuccIn(done + rest, rest[0]) == HeadOf(rest[1..])
    ensures (done + [rest[0]]) + rest[1..] == done + rest
  {
    assert done + rest == done + [rest[0]] + rest[1..];
    OnceInMiddle(done, rest[0], rest[1..]);
    SuccMiddle(done, rest[0], rest[1..]);
  }

  lemma HeadAndRest(s: seq<nat>)
    requires NoDup(s) && s != []
    ensures SuccIn(s, s[0]) == HeadOf(s[1..]) && Remove(s, s[0]) == s[1..]
  {
  }

  /** Where Inv says that an event is on no list. */
  lemma OnNoList(s: Base, e: nat)
    requires Inv(s)
    ensures e !in s.events || !s.events[e].reg ==> OffLists(s.slots, e)
    ensures e !in s.events || !s.events[e].active ==> OffLists([s.active], e)
  {
  }

  class EvtBase {
    var events: map<nat, Event>
    const timers: RbTree.RbRoot
    const slotLinks: Heads    // evt_next of the events and the 32 slot heads
    const activeLinks: Heads  // evt_active_next of the events and evt_active_list
    ghost var slots: seq<seq<nat>>
    ghost var active: seq<nat>
    var epoll: set<int>
    var used: int
    var count: int
    var countActive: int

    ghost const Repr: set<object> := {this, timers, slotLinks, activeLinks}

    /** The linked lists have the entries `slots` and `active`, and every event has its links. */
    ghost predicate Linked()
      reads this, slotLinks, activeLinks
    {
      && slotLinks != activeLinks && slotLinks.Valid() && activeLinks.Valid()
      && slotLinks.lists == slots && activeLinks.lists == [active] && |slots| == MAP_SIZE
      && (forall e :: e in events ==> Entry(e) in slotLinks.mem && Entry(e) in activeLinks.mem)
    }

    ghost predicate Valid()
      reads this, timers, slotLinks, activeLinks
    {
      Timed() && Linked()
    }

    /** The timer tree is a red-black tree of events. */
    ghost predicate Timed()
      reads this, timers
    {
      timers.Valid() && forall x :: x in InOrder(timers.tree) ==> x in events
    }

    ghost function View(): Base
      reads this, timers
    {
      Base(events, slots, InOrder(timers.tree), active, epoll, used, count, countActive)
    }

    constructor ()
      ensures Valid() && View() == EmptyBase() && fresh(Repr)
    {
      events, slots, active, epoll := map[], EmptySlots(MAP_SIZE), [], {};
      used, count, countActive := 0, 0, 0;
      timers := new RbTree.RbRoot();
      slotLinks := new Heads(MAP_SIZE);
      activeLinks := new Heads(1);
      new;
      assert slotLinks.lists == EmptySlots(MAP_SIZE) && activeLinks.lists == [[]];
    }

    /** Finds the empty link for deadline d: `steps` comparisons, at most 2*log2(n + 1). */
    method Descend(d: Timeval) returns (parent: Ptr, left: bool, ghost z: Path, ghost steps: nat)
      requires Timed() && Sorted(events, InOrder(timers.tree))
      ensures timers.tree == Fill(z, Leaf) && parent == ParentPtr(z) && (parent.At? ==> left == z.LeftOf?)
      ensures AllNotLater(events, Before(z), d) && AllLater(events, After(z), d)
      ensures Powers.Pow2(steps) <= (Size(timers.tree) + 1) * (Size(timers.tree) + 1)
    {
      ghost var t := timers.tree;
      var link := timers.root;
      parent, left, z, steps := Null, false, Top, 0;
      InOrderIds(t);
      while link.At?
        invariant HoldsAt(timers.mem, timers.root, z, t) && Fill(z, t) == timers.tree && link == RootPtr(t)
        invariant parent == ParentPtr(z) && (parent.At? ==> left == z.LeftOf?)
        invariant AllNotLater(events, Before(z), d) && AllLater(events, After(z), d)
        invariant steps + Height(t) <= Height(timers.tree)
        decreases t
      {
        parent, steps := link, steps + 1;
        link, left, z, t := DescendStep(d, link.id, z, t);
      }
      HeightBound(timers.tree);
      Powers.Pow2Monotone(steps, Height(timers.tree));
    }

    /** One comparison: a later timer stays to the right of the new one. */
    method DescendStep(d: Timeval, id: nat, ghost z: Path, ghost t: Tree)
      returns (link: Ptr, left: bool, ghost z': Path, ghost t': Tree)
      requires Timed() && Sorted(events, InOrder(timers.tree))
      requires HoldsAt(timers.mem, timers.root, z, t) && Fill(z, t) == timers.tree && RootPtr(t) == At(id)
      requires AllNotLater(events, Before(z), d) && AllLater(events, After(z), d)
      ensures HoldsAt(timers.mem, timers.root, z', t') && Fill(z', t') == timers.tree && link == RootPtr(t')
      ensures ParentPtr(z') == At(id) && left == z'.LeftOf? && t' < t && Height(t') < Height(t)
      ensures AllNotLater(events, Before(z'), d) && AllLater(events, After(z'), d)
    {
      InOrderIds(timers.tree);
      FocusCells(timers.mem, timers.root, z, t);
      FillDistinct(z, t);
      if TimeCmp(d, events[id].deadline) < 0 {
        DescentLeft(events, z, t, d);
        link, left, z', t' := timers.mem[id].left, true, LeftOf(t.id, t.color, t.right, z), t.left;
      } else {
        DescentRight(events, z, t, d);
        link, left, z', t' := timers.mem[id].right, false, RightOf(t.id, t.color, t.left, z), t.right;
      }
      Refocus(timers.mem, timers.root, z, t, z', t');
    }

    method AddTimeout(e: nat)
      requires Timed() && TimerInv(View()) && e in events
      modifies this`events, this`count, timers
      ensures Timed() && View() == EventSpec.AddTimeout(old(View()), e)
    {
      if events[e].timed { return; }
      var parent, left;
      ghost var z, steps;
      parent, left, z, steps := Descend(events[e].deadline);
      InOrderIds(timers.tree);
      EmptyPlace(z);
      InsertTimerAt(events, Before(z), After(z), e);
      timers.Insert(e, parent, left, z);
      events := events[e := events[e].(timed := true)];
      count := count + 1;
    }

    method RemoveTimeout(e: nat)
      requires Timed() && e in events && (events[e].timed <==> e in InOrder(timers.tree))
      modifies this`events, this`count, timers
      ensures Timed() && View() == EventSpec.RemoveTimeout(old(View()), e)
    {
      if events[e].timed {
        InOrderIds(timers.tree);
        RemoveFacts(InOrder(timers.tree), e);
        timers.Erase(e);
        events := events[e := events[e].(timed := false)];
        count := count - 1;
      }
    }

    method AddActive(e: nat, res: set<Bit>)
      requires Valid() && e in events && (events[e].active <==> e in active)
      modifies this`events, this`active, this`countActive, activeLinks
      ensures Valid() && View() == EventSpec.AddActive(old(View()), e, res)
    {
      if !events[e].active {
        events := events[e := events[e].(res := res, active := true)];
        activeLinks.AddTail(e, 0);
        active := active + [e];
        countActive := countActive + 1;
      }
    }

    method RemoveActive(e: nat)
      requires Valid() && e in events && (events[e].active <==> e in active)
      modifies this`events, this`active, this`countActive, activeLinks
      ensures Valid() && View() == EventSpec.RemoveActive(old(View()), e)
    {
      if events[e].active {
        activeLinks.DelInit(e, 0);
        active := Remove(active, e);
        events := events[e := events[e].(active := false)];
        countActive := countActive - 1;
      }
    }

    method MapAdd(e: nat, ok: bool) returns (res: int)
      requires Valid() && e in events && OffLists(slots, e)
      modifies this`slots, this`epoll, this`used, this`count, slotLinks
      ensures Valid() && View() == EventSpec.MapAdd(old(View()), e, ok).0
      ensures res == EventSpec.MapAdd(old(View()), e, ok).1
    {
      var v := events[e];
      if v.fd < 0 { return 0; }
      if v.events * IO != {} {
        if !ok || v.fd in epoll { return -1; }
        epoll := epoll + {v.fd};
      } else {
        return 0;
      }
      var i := SlotOf(v.fd);
      slotLinks.AddTail(e, i);
      slots := slots[i := slots[i] + [e]];
      used := used + 1;
      count := count + 1;
      return 1;
    }

    method MapRemove(e: nat) returns (res: int)
      requires Valid() && e in events && (Mapped(events[e]) ==> e in slots[SlotOf(events[e].fd)])
      modifies this`slots, this`epoll, this`used, this`count, slotLinks
      ensures Valid() && View() == EventSpec.MapRemove(old(View()), e).0 && res == EventSpec.MapRemove(old(View()), e).1
    {
      var v := events[e];
      if v.fd < 0 { return 0; }
      res := 1;
      if v.events * IO != {} {
        if v.fd !in epoll { res := -1; }
        epoll := epoll - {v.fd};
      } else {
        return 0;
      }
      ghost var i := SlotOf(v.fd);
      slotLinks.DelInit(e, i);
      slots := slots[i := Remove(slots[i], e)];
      used := used - 1;
      count := count - 1;
    }

    /** wba_evloop.c:420-430: an absolute time keeps the interval. */
    static method SetTimes(v: Event, tv: Timeval, absolute: bool, now: Timeval) returns (r: Event)
      ensures r == v.(deadline := NewDeadline(tv, absolute, now), interval := NewInterval(v, tv, absolute))
    {
      r := v;
      if absolute {
        r := r.(deadline := tv);
      } else {
        if Persist in r.events {
          r := r.(interval := tv);
        }
        r := r.(deadline := TimeAdd(now, tv));
      }
    }

    /** wba_evloop.c:416-431: moves e's timer to the new deadline. */
    method Reschedule(e: nat, tv: Timeval, absolute: bool, now: Timeval)
      requires Timed() && TimerInv(View()) && e in events
      modifies this`events, this`count, timers
      ensures Timed()
      ensures View() == Rescheduled(old(View()), e, NewDeadline(tv, absolute, now),
                                    NewInterval(old(events[e]), tv, absolute))
    {
      ghost var s, v := View(), events[e];
      RescheduleSteps(s, e, NewDeadline(tv, absolute, now), NewInterval(v, tv, absolute));
      RemoveFacts(InOrder(timers.tree), e);
      if events[e].timed { RemoveTimeout(e); }
      assert View() == EventSpec.RemoveTimeout(s, e);
      var v1 := SetTimes(events[e], tv, absolute, now);
      events := events[e := v1];
      assert View() == SetEvent(EventSpec.RemoveTimeout(s, e), e, v1);
      UntimedKeeps(s, e, View());
      AddTimeout(e);
    }

    /** event_add, with the clock reading and epoll's answer as inputs. */
    method EventAdd(e: nat, tv: Option<Timeval>, absolute: bool, now: Timeval, ok: bool) returns (r: int)
      requires Valid() && Inv(View()) && e in events
      modifies this`events, this`count, this`slots, this`epoll, this`used, timers, slotLinks
      ensures Valid()
      ensures View() == EventSpec.EventAdd(old(View()), e, tv, absolute, now, ok).0
      ensures r == EventSpec.EventAdd(old(View()), e, tv, absolute, now, ok).1
    {
      if events[e].reg && tv.None? { return 1; }
      var res := Register(e, ok);
      if res == -1 { return 0; }
      if tv.Some? {
        Reschedule(e, tv.value, absolute, now);
        res := 1;
      }
      r := if res > 0 then res else 0;
    }

    /** wba_evloop.c:407-413: -1 when epoll refuses, and then nothing changes. */
    method Register(e: nat, ok: bool) returns (res: int)
      requires Valid() && Inv(View()) && e in events
      modifies this`events, this`count, this`slots, this`epoll, this`used, slotLinks
      ensures Valid() && TimerInv(View()) && (res == -1 <==> !old(events[e].reg) && !Registers(old(View()), e, ok))
      ensures View() == if res == -1 then old(View()) else Registered(old(View()), e)
      ensures res != -1 ==> res == if !old(events[e].reg) && Mapped(old(events[e])) then 1 else 0
    {
      res := 0;
      if !events[e].reg {
        OnNoList(View(), e);
        res := MapAdd(e, ok);
      }
      if res != -1 {
        RegisterSteps(old(View()), e, ok);
        RegisteredInv(old(View()), e);
        events := events[e := events[e].(reg := true)];
      }
    }

    method EventDel(e: nat) returns (r: int)
      requires Valid() && Inv(View()) && e in events
      modifies Repr
      ensures Valid() && View() == Deleted(old(View()), e) && r == DelResult(old(View()), e)
    {
      DelSteps(View(), e);
      var res := 0;
      if !events[e].reg && !events[e].active { return 1; }
      if events[e].timed { RemoveTimeout(e); }
      if events[e].active { RemoveActive(e); }
      if events[e].reg {
        res := MapRemove(e);
        events := events[e := events[e].(reg := false)];
      }
      r := if res > 0 then res else 0;
    }

    // ----- the user's operations -----

    /** The memset of an event that is on no list, and its new fields. */
    method Reset(id: nat, fd: int, evs: set<Bit>)
      requires Valid() && OffLists(slots, id) && OffLists([active], id)
      modifies this`events, slotLinks, activeLinks
      ensures Valid() && View() == SetEvent(old(View()), id, FreshEvent(fd, evs))
    {
      slotLinks.Zero(id);
      activeLinks.Zero(id);
      events := events[id := FreshEvent(fd, evs)];
    }

    /** The free of an event that is on no list. */
    method Discard(id: nat)
      requires Valid() && OffLists(slots, id) && OffLists([active], id) && id !in InOrder(timers.tree)
      modifies this`events, slotLinks, activeLinks
      ensures Valid() && View() == old(View()).(events := old(events) - {id})
    {
      slotLinks.Release(id);
      activeLinks.Release(id);
      events := events - {id};
    }

    /** wba_event_free */
    method FreeEvent(id: nat)
      requires Valid() && Inv(View()) && id in events
      modifies Repr
      ensures Valid() && View() == Deleted(old(View()), id).(events := Deleted(old(View()), id).events - {id})
    {
      DelInv(View(), id);
      var _ := EventDel(id);
      OnNoList(View(), id);
      Discard(id);
    }

    /** An event that is overwritten while it waits on the active list takes the list with it: its
        links are zeroed, and no list starts at the head any more. */
    lemma AssignDestroysActiveList(e: nat, s: seq<nat>)
      requires Valid() && e in active
      ensures !Ring(activeLinks.mem[Entry(e) := Link(Nowhere, Nowhere)], 0, s)
    {
      assert activeLinks.lists[0] == active;
      WipeBreaksRing(activeLinks.mem, 0, active, e, s);
    }

    /** Deleting the entry that a running pass has saved as its next one makes the pass endless: the
        entry leads to itself, and never to the head again. */
    lemma SavedNextGone(e: nat, k: nat)
      requires Valid() && e in active
      ensures var mem := activeLinks.mem;
        && Entry(e) in mem && mem[Entry(e)].prev in mem && mem[Entry(e)].next in mem
        && Follow(DelInited(mem, e), Entry(e), k) == Entry(e)
    {
      assert activeLinks.lists[0] == active;
      ListLoses(activeLinks.mem, 0, active, e);
      SelfLinkedStays(DelInited(activeLinks.mem, e), e, k);
    }

    /** Every entry that is still on the list leads to the head. */
    lemma SavedNextEnds(e: nat)
      requires Valid() && e in active
      ensures exists k :: Follow(activeLinks.mem, Entry(e), k) == Head(0)
    {
      assert activeLinks.lists[0] == active;
      RingNoDup(activeLinks.mem, 0, active);
      var a, b := SplitAt(active, e);
      EntryLeadsHome(activeLinks.mem, 0, a, e, b);
    }

    /** wba_event_new, wba_event_assign, wba_event_add, wba_event_del and wba_event_free. */
    method Perform(op: Op)
      requires Valid() && Inv(View()) && Legal(View(), op, Null)
      modifies Repr
      ensures Valid() && Inv(View()) && View() == Apply(old(View()), op)
    {
      OpInv(View(), op);
      if !op.CloseFd? { OnNoList(View(), op.id); }
      match op {
        case New(id, fd, evs) =>
          Reset(id, fd, evs);
        case Assign(id, fd, evs) =>
          if !events[id].reg { Reset(id, fd, evs); }
        case Add(id, tv, now, ok) =>
          if !Negative(tv) { var _ := EventAdd(id, tv, false, now, ok); }
        case Del(id) =>
          var _ := EventDel(id);
        case Free(id) =>
          FreeEvent(id);
        case CloseFd(fd) =>
          epoll := epoll - {fd};
      }
    }

    /** A callback: any operations that leave the saved next entry on the active list. */
    method Callback(ops: seq<Op>, ghost saved: Ptr)
      requires Valid() && Inv(View()) && LegalOps(View(), ops, saved)
      modifies Repr
      ensures Valid() && Inv(View()) && View() == RunOps(old(View()), ops, saved)
    {
      var i := 0;
      while i < |ops|
        invariant 0 <= i <= |ops| && Valid() && Inv(View())
        invariant LegalOps(View(), ops[i..], saved)
        invariant RunOps(View(), ops[i..], saved) == RunOps(old(View()), ops, saved)
      {
        assert ops[i..][0] == ops[i] && ops[i..][1..] == ops[i + 1..];
        Perform(ops[i]);
        i := i + 1;
      }
    }

    // ----- the loop -----

    method MapActive(fd: int, bits: set<Bit>)
      requires Valid() && Inv(View())
      modifies this`events, this`active, this`countActive, activeLinks
      ensures Valid() && Inv(View()) && View() == Ready(old(View()), fd, bits)
    {
      if fd < 0 { return; }
      WakeSlot(SlotOf(fd), bits);
    }

    /** The loop over one slot list. */
    method WakeSlot(i: nat, bits: set<Bit>)
      requires Valid() && Inv(View()) && i < MAP_SIZE && Waking(slots[i])
      modifies this`events, this`active, this`countActive, activeLinks
      ensures Valid() && Inv(View()) && View() == Activate(old(View()), slots[i], bits)
    {
      ghost var goal, done, rest := Activate(View(), slots[i], bits), [], slots[i];
      var p := slotLinks.First(i);
      assert [] + rest == rest;
      while p.At?
        invariant Valid() && Inv(View()) && slots[i] == done + rest && p == HeadOf(rest)
        invariant Waking(rest) && Activate(View(), rest, bits) == goal
        decreases rest
      {
        p, done, rest := WakeNext(i, p.id, bits, done, rest);
      }
    }

    ghost predicate Waking(rest: seq<nat>)
      reads this
    {
      forall e :: e in rest ==> e in events
    }

    /** One round of the slot's loop. */
    method WakeNext(i: nat, pos: nat, bits: set<Bit>, ghost done0: seq<nat>, ghost rest0: seq<nat>)
      returns (n: Ptr, ghost done: seq<nat>, ghost rest: seq<nat>)
      requires Valid() && Inv(View()) && i < MAP_SIZE && slots[i] == done0 + rest0 && Waking(rest0)
      requires rest0 != [] && pos == rest0[0]
      modifies this`events, this`active, this`countActive, activeLinks
      ensures Valid() && Inv(View()) && slots[i] == done + rest && n == HeadOf(rest) && Waking(rest)
      ensures Activate(View(), rest, bits) == Activate(old(View()), rest0, bits) && rest == rest0[1..]
    {
      WalkStep(done0, rest0);
      n := slotLinks.Next(pos, i);
      WakeEntry(pos, bits, rest0);
      done, rest := done0 + [pos], rest0[1..];
    }

    /** wba_evloop.c:233-236; the slot lists do not change. */
    method WakeEntry(pos: nat, bits: set<Bit>, ghost rest: seq<nat>)
      requires Valid() && Inv(View()) && rest != [] && pos == rest[0] && Waking(rest)
      modifies this`events, this`active, this`countActive, activeLinks
      ensures Valid() && Inv(View()) && Waking(rest)
      ensures Activate(View(), rest[1..], bits) == Activate(old(View()), rest, bits)
    {
      AddActiveInv(View(), pos, events[pos].events * bits);
      if events[pos].events * bits != {} {
        AddActive(pos, events[pos].events * bits);
      }
    }

    /** wba_evloop.c:576-577: the timed out event leaves every list and joins the active one. */
    method TimeOut(e: nat)
      requires Valid() && Inv(View()) && e in events
      modifies Repr
      ensures Valid() && Inv(View()) && View() == ExpireOne(old(View()), e)
    {
      ExpireOneInv(View(), e);
      DelInv(View(), e);
      var _ := EventDel(e);
      AddActive(e, {Timeout});
    }

    /** event_process_timeout: walks the tree while it erases from it. */
    method ProcessTimeout(now: Timeval) returns (cnt: nat)
      requires Valid() && Inv(View())
      modifies Repr
      ensures Valid() && Inv(View()) && View() == Expire(old(View()), now)
      ensures cnt == |old(View()).timers| - |View().timers|
    {
      cnt := 0;
      ghost var n, goal := |InOrder(timers.tree)|, Expire(View(), now);
      var node := timers.First();
      while node.At?
        invariant Valid() && Inv(View()) && node == HeadOf(InOrder(timers.tree))
        invariant Expire(View(), now) == goal && cnt == n - |InOrder(timers.tree)|
        decreases |InOrder(timers.tree)|
      {
        var p := node.id;
        InOrderIds(timers.tree);
        HeadAndRest(InOrder(timers.tree));
        node := timers.Next(p);
        if TimeCmp(events[p].deadline, now) > 0 { break; }
        ExpireOneInv(View(), p);
        TimeOut(p);
        cnt := cnt + 1;
      }
    }

    /** wba_evloop.c:590-609: reschedules a persistent event, deletes any other. */
    method ServeEvent(e: nat, now: Timeval, ok: bool, ghost turn: Turn)
      requires Valid() && Inv(View()) && e in events && turn.now == now && turn.ok == ok
      modifies Repr
      ensures Valid() && Inv(View()) && View() == ServeOne(old(View()), e, turn)
    {
      ServeOneInv(View(), e, turn);
      if Persist in events[e].events {
        RemoveActiveInv(View(), e);
        RemoveActive(e);
        var v := events[e];
        if v.interval.sec != 0 || v.interval.usec != 0 {
          var last := if Timeout in v.res then v.deadline else now;
          var next := TimeAdd(last, v.interval);
          if TimeCmp(next, now) < 0 {
            next := TimeAdd(now, v.interval);
          }
          var _ := EventAdd(e, Some(next), true, now, ok);
        }
      } else {
        var _ := EventDel(e);
      }
    }

    /** Serves the head of the active list and runs its callback. */
    method ServeHead(e: nat, turn: Turn) returns (call: Call)
      requires Valid() && Inv(View()) && active != [] && e == active[0]
      requires LegalOps(ServeOne(View(), active[0], turn), turn.ops, HeadOf(active[1..]))
      modifies Repr
      ensures Valid() && Inv(View()) && HeadOf(active) == HeadOf(old(active)[1..])
      ensures var s1 := ServeOne(old(View()), old(active)[0], turn);
        View() == RunOps(s1, turn.ops, HeadOf(old(active)[1..])) && old(active)[0] in s1.events
        && call == Call(old(active)[0], s1.events[old(active)[0]].fd, s1.events[old(active)[0]].res)
    {
      ghost var saved := HeadOf(active[1..]);
      HeadAndRest(active);
      ServeOneInv(View(), e, turn);
      HeadServed(View(), turn);
      ServeEvent(e, turn.now, turn.ok, turn);
      call := Call(e, events[e].fd, events[e].res);
      Callback(turn.ops, saved);
    }

    /** The entry after p on the active list. */
    method AfterEntry(p: Ptr) returns (n: Ptr)
      requires Valid() && (p.At? ==> p.id in active)
      ensures n == if p.At? then SuccIn(active, p.id) else Null
    {
      n := Null;
      if p.At? { n := activeLinks.Next(p.id, 0); }
    }

    /** One round of event_process_active: n is the next entry, saved before the callback. */
    method ServeNext(e: nat, n: Ptr, turns: seq<Turn>, ghost calls: seq<Call>) returns (call: Call, n': Ptr)
      requires Valid() && Inv(View()) && LegalPass(View(), turns)
      requires active != [] && e == active[0] && n == SuccIn(active, e)
      modifies Repr
      ensures turns != [] && Valid() && Inv(View()) && LegalPass(View(), turns[1..])
      ensures n == HeadOf(active) && n' == if n.At? then SuccIn(active, n.id) else Null
      ensures Pass(View(), turns[1..]).0 == Pass(old(View()), turns).0
      ensures (calls + [call]) + Pass(View(), turns[1..]).1 == calls + Pass(old(View()), turns).1
    {
      HeadAndRest(active);
      PassStep(View(), turns, calls);
      call := ServeHead(e, turns[0]);
      n' := AfterEntry(n);
    }

    /** event_process_active, with the next entry saved before each callback. */
    method ProcessActive(turns: seq<Turn>) returns (cnt: nat, calls: seq<Call>)
      requires Valid() && Inv(View()) && LegalPass(View(), turns)
      modifies Repr
      ensures Valid() && Inv(View()) && cnt == |calls|
      ensures View() == Pass(old(View()), turns).0 && calls == Pass(old(View()), turns).1
    {
      cnt, calls := 0, [];
      ghost var goal := Pass(View(), turns);
      var rest := turns;  // what is left of the environment's choices
      var p := activeLinks.First(0);
      var n := AfterEntry(p);
      assert [] + goal.1 == goal.1;
      while p.At?
        invariant Valid() && Inv(View()) && cnt == |calls| && LegalPass(View(), rest)
        invariant p == HeadOf(active) && n == if p.At? then SuccIn(active, p.id) else Null
        invariant Pass(View(), rest).0 == goal.0 && calls + Pass(View(), rest).1 == goal.1
        decreases rest
      {
        var call, n' := ServeNext(p.id, n, rest, calls);
        calls := calls + [call];
        rest := rest[1..];
        cnt := cnt + 1;
        p, n := n, n';
      }
      assert calls + [] == calls;
    }

    method NextTimeout(now: Timeval) returns (ms: int)
      requires Valid() && Inv(View())
      ensures ms == NextWait(View(), now)
    {
      var p := timers.First();
      if p.Null? { return DEFAULT_WAIT; }
      assert p.id in InOrder(timers.tree);
      if TimeCmp(events[p.id].deadline, now) <= 0 { return 0; }
      var tv := TimeSub(events[p.id].deadline, now);
      ms := Wrap32(tv.sec * 1000 + tv.usec / 1000 + 1);
    }

    /** wba_evloop.c:647-667: hands epoll's report to the slots. */
    method DispatchReports(wakes: seq<Wake>)
      requires Valid() && Inv(View())
      modifies this`events, this`active, this`countActive, activeLinks
      ensures Valid() && Inv(View()) && View() == Reports(old(View()), wakes)
    {
      ghost var goal := Reports(View(), wakes);
      var rest := wakes;
      while rest != []
        invariant Valid() && Inv(View()) && Reports(View(), rest) == goal
        decreases rest
      {
        var bits := Translate(rest[0].what);
        if bits != {} {
          MapActive(rest[0].fd, bits);
        } else {
          NothingReady(View(), rest[0].fd);
        }
        rest := rest[1..];
      }
    }

    /** wba_event_loop, driven by what the environment does in each iteration. */
    method Run(its: seq<Iteration>) returns (calls: seq<Call>, exit: Exit)
      requires Valid() && Inv(View()) && LegalLoop(View(), its)
      modifies Repr
      ensures Valid() && Inv(View()) && (View(), calls, exit) == Loop(old(View()), its)
    {
      calls, exit := [], InputEnds;
      ghost var goal := Loop(View(), its);
      var rest := its;
      ConcatNone(goal.1);
      while true
        invariant Valid() && Inv(View()) && LegalLoop(View(), rest)
        invariant Loop(View(), rest).0 == goal.0 && calls + Loop(View(), rest).1 == goal.1
        invariant Loop(View(), rest).2 == goal.2
        decreases rest
      {
        ConcatNone(calls);
        if count == 0 && countActive == 0 { exit := Empty; return; }
        if rest == [] { return; }
        var it := rest[0];
        var ms := NextTimeout(it.clock);
        if it.wakes.None? { exit := EpollError; return; }
        calls := RunOnce(it, calls, rest, goal);
        rest := rest[1..];
      }
    }

    /** One iteration of the loop after epoll_wait returned. */
    method RunOnce(it: Iteration, calls0: seq<Call>, ghost rest: seq<Iteration>, ghost goal: (Base, seq<Call>, Exit))
      returns (calls: seq<Call>)
      requires Valid() && Inv(View()) && rest != [] && rest[0] == it && it.wakes.Some? && !NothingLeft(View())
      requires LegalLoop(View(), rest)
      requires var (s, more, x) := Loop(View(), rest); (s, calls0 + more, x) == goal
      modifies Repr
      ensures Valid() && Inv(View()) && LegalLoop(View(), rest[1..])
      ensures var (s, more, x) := Loop(View(), rest[1..]); (s, calls + more, x) == goal
    {
      ghost var s0 := View();
      DispatchReports(it.wakes.value);
      var nto := ProcessTimeout(it.now);
      PassServesEachOnce(Fired(s0, it), it.turns);
      var ncb, made := ProcessActive(it.turns);
      calls := calls0 + made;
      LoopStep(s0, rest, View(), made, calls0);
    }

    /** wba_evtbase_free outside a callback: deletes each event found in a slot list or the timer
        tree exactly once and counts it once, even if it is in both. */
    method FreeBase() returns (cnt: nat, ghost deleted: seq<nat>)
      requires Valid() && Inv(View())
      modifies Repr
      ensures Valid() && Inv(View()) && NoDup(deleted) && cnt == |deleted|
      ensures forall e :: e in deleted <==> e in old(events) && Held(old(events)[e])
      ensures View() == DeleteAll(old(View()), deleted)
      ensures (forall i :: 0 <= i < MAP_SIZE ==> slots[i] == []) && View().timers == [] && count == 0 && used == 0
    {
      ghost var s0 := View();
      cnt, deleted := 0, [];
      var i := 0;
      while i < MAP_SIZE
        invariant 0 <= i <= MAP_SIZE && Freeing(s0, deleted) && cnt == |deleted|
        invariant forall k :: 0 <= k < i ==> slots[k] == []
      {
        cnt, deleted := FreeSlot(i, cnt, deleted, s0);
        i := i + 1;
      }
      cnt, deleted := FreeTimers(cnt, deleted, s0);
      AllHeldDeleted(s0, deleted);
    }

    /** The base after `deleted` was deleted from s0, each once. */
    ghost predicate Freeing(s0: Base, deleted: seq<nat>)
      reads Repr
    {
      && Valid() && Inv(View()) && Inv(s0) && NoDup(deleted)
      && (forall e :: e in deleted ==> e in s0.events && Held(s0.events[e]))
      && View() == DeleteAll(s0, deleted)
    }

    /** One event_del, counted. */
    method FreeOne(e: nat, cnt0: nat, ghost done: seq<nat>, ghost s0: Base) returns (cnt: nat, ghost deleted: seq<nat>)
      requires Freeing(s0, done) && e in events && Held(events[e]) && cnt0 == |done|
      modifies Repr
      ensures Freeing(s0, deleted) && cnt == |deleted| && View().timers == Remove(old(View()).timers, e)
      ensures forall k :: 0 <= k < MAP_SIZE ==> slots[k] == Remove(old(slots)[k], e)
    {
      DeleteNext(s0, done, View(), e);
      var _ := EventDel(e);
      cnt, deleted := cnt0 + 1, done + [e];
    }

    /** wba_evloop.c:503-506. */
    method FreeSlot(i: nat, cnt0: nat, ghost done: seq<nat>, ghost s0: Base) returns (cnt: nat, ghost deleted: seq<nat>)
      requires i < MAP_SIZE && Freeing(s0, done) && cnt0 == |done| && forall k :: 0 <= k < i ==> slots[k] == []
      modifies Repr
      ensures Freeing(s0, deleted) && cnt == |deleted| && forall k :: 0 <= k <= i ==> slots[k] == []
    {
      cnt, deleted := cnt0, done;
      var p := slotLinks.First(i);
      while p.At?
        invariant Freeing(s0, deleted) && cnt == |deleted| && p == HeadOf(slots[i])
        invariant forall k :: 0 <= k < i ==> slots[k] == []
        decreases |slots[i]|
      {
        p, cnt, deleted := FreeEntry(i, p.id, cnt, deleted, s0);
      }
    }

    /** One round: the next entry is taken before the event is deleted. */
    method FreeEntry(i: nat, e: nat, cnt0: nat, ghost done: seq<nat>, ghost s0: Base)
      returns (next: Ptr, cnt: nat, ghost deleted: seq<nat>)
      requires i < MAP_SIZE && Freeing(s0, done) && cnt0 == |done| && slots[i] != [] && e == slots[i][0]
      modifies Repr
      ensures Freeing(s0, deleted) && cnt == |deleted| && slots[i] == old(slots[i])[1..] && next == HeadOf(slots[i])
      ensures forall k :: 0 <= k < MAP_SIZE && old(slots)[k] == [] ==> slots[k] == []
    {
      HeadAndRest(slots[i]);
      assert e in slots[i];
      next := slotLinks.Next(e, i);
      cnt, deleted := FreeOne(e, cnt0, done, s0);
    }

    /** wba_evloop.c:511-516: the next node is taken before the event is deleted. */
    method FreeTimer(tn: nat, cnt0: nat, ghost done: seq<nat>, ghost s0: Base)
      returns (next: Ptr, cnt: nat, ghost deleted: seq<nat>)
      requires Freeing(s0, done) && cnt0 == |done| && View().timers != [] && tn == View().timers[0]
      requires forall k :: 0 <= k < MAP_SIZE ==> slots[k] == []
      modifies Repr
      ensures Freeing(s0, deleted) && cnt == |deleted|
      ensures View().timers == old(View()).timers[1..] && next == HeadOf(View().timers)
      ensures forall k :: 0 <= k < MAP_SIZE ==> slots[k] == []
    {
      InOrderIds(timers.tree);
      HeadAndRest(InOrder(timers.tree));
      assert tn in InOrder(timers.tree);
      next := timers.Next(tn);
      cnt, deleted := FreeOne(tn, cnt0, done, s0);
    }

    /** wba_evloop.c:510-517. */
    method FreeTimers(cnt0: nat, ghost done: seq<nat>, ghost s0: Base) returns (cnt: nat, ghost deleted: seq<nat>)
      requires Freeing(s0, done) && cnt0 == |done| && forall k :: 0 <= k < MAP_SIZE ==> slots[k] == []
      modifies Repr
      ensures Freeing(s0, deleted) && cnt == |deleted| && View().timers == []
      ensures forall k :: 0 <= k < MAP_SIZE ==> slots[k] == []
    {
      cnt, deleted := cnt0, done;
      var node := timers.First();
      while node.At?
        invariant Freeing(s0, deleted) && cnt == |deleted| && node == HeadOf(View().timers)
        invariant forall k :: 0 <= k < MAP_SIZE ==> slots[k] == []
        decreases |View().timers|
      {
        node, cnt, deleted := FreeTimer(node.id, cnt, deleted, s0);
      }
    }
  }
}
