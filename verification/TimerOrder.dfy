/** The timer tree over whole runs of timer adds and removes: it keeps the live timers stably
    sorted, compared with a plain log of them in the order in which they were armed. */
module TimerOrder {
  import opened Sequences
  import opened Timevals
  import opened EventSpec

  datatype TimerOp =
    | Arm(id: nat, deadline: Timeval, interval: Timeval)  // event_add with a time
    | Disarm(id: nat)                                     // event_remove_timeout

  ghost predicate Timed(s: Base) { forall x :: x in s.timers ==> x in s.events }

  ghost function TimerStep(s: Base, op: TimerOp): Base
    requires op.id in s.events && Timed(s)
  {
    match op
    case Arm(e, d, i) => RemoveFacts(s.timers, e); Rescheduled(s, e, d, i)
    case Disarm(e) => RemoveTimeout(s, e)
  }

  /** The log: a timer armed again goes to the end. */
  ghost function LogStep(log: seq<nat>, op: TimerOp): seq<nat> {
    Remove(log, op.id) + if op.Arm? then [op.id] else []
  }

  ghost predicate TimerRun(s: Base, ops: seq<TimerOp>)
    decreases ops
  {
    ops == [] || (ops[0].id in s.events && Timed(s) && TimerRun(TimerStep(s, ops[0]), ops[1..]))
  }

  ghost function AfterTimers(s: Base, ops: seq<TimerOp>): Base
    requires TimerRun(s, ops)
    decreases ops
  {
    if ops == [] then s else AfterTimers(TimerStep(s, ops[0]), ops[1..])
  }

  ghost function AfterLog(log: seq<nat>, ops: seq<TimerOp>): seq<nat>
    decreases ops
  {
    if ops == [] then log else AfterLog(LogStep(log, ops[0]), ops[1..])
  }

  ghost predicate SameDeadline(events: map<nat, Event>, x: nat, y: nat) {
    x in events && y in events && events[x].deadline == events[y].deadline
  }

  /** The timers are the log's entries, each once, by deadline, and among equal deadlines in log
      order. */
  ghost predicate StablySorted(s: Base, log: seq<nat>) {
    && TimerInv(s) && NoDup(log) && (forall x :: x in log <==> x in s.timers)
    && (forall x, y :: Earlier(log, x, y) && SameDeadline(s.events, x, y) ==> Earlier(s.timers, x, y))
  }

  /** Stable sortedness in terms of the two lists alone. */
  ghost predicate StableLists(events: map<nat, Event>, timers: seq<nat>, log: seq<nat>) {
    && NoDup(timers) && Sorted(events, timers) && NoDup(log) && (forall x :: x in log <==> x in timers)
    && (forall x, y :: Earlier(log, x, y) && SameDeadline(events, x, y) ==> Earlier(timers, x, y))
  }

  lemma Disarmed(events: map<nat, Event>, timers: seq<nat>, log: seq<nat>, e: nat)
    requires StableLists(events, timers, log)
    ensures StableLists(events, Remove(timers, e), Remove(log, e))
  {
    RemoveFacts(timers, e);
    RemoveFacts(log, e);
    RemoveSorted(events, timers, e);
    forall x, y | Earlier(Remove(log, e), x, y) && SameDeadline(events, x, y) ensures Earlier(Remove(timers, e), x, y) {
      EarlierIn(Remove(log, e), x, y);
      EarlierRemoved(log, e, x, y);
      EarlierRemoved(timers, e, x, y);
    }
  }

  /** A timer armed last comes last among those with its deadline. */
  lemma ArmedLast(events: map<nat, Event>, timers: seq<nat>, e: nat, x: nat)
    requires Sorted(events, timers) && e in events && e !in timers && x in timers && SameDeadline(events, x, e)
    ensures Earlier(InsertTimer(events, timers, e), x, e)
  {
    var a, b := SplitTimers(events, timers, events[e].deadline);
    InsertTimerAt(events, a, b, e);
    assert x in a;
    EarlierSplit(a + [e], b, x, e);
    EarlierSplit(a, [e], x, e);
  }

  lemma OthersStay(events: map<nat, Event>, timers: seq<nat>, e: nat, x: nat, y: nat)
    requires Sorted(events, timers) && e in events && e !in timers && Earlier(timers, x, y)
    ensures Earlier(InsertTimer(events, timers, e), x, y)
  {
    var a, b := SplitTimers(events, timers, events[e].deadline);
    InsertTimerAt(events, a, b, e);
    EarlierIn(timers, x, y);
    EarlierAround(a, e, b, x, y);
  }

  lemma Armed(events: map<nat, Event>, timers: seq<nat>, log: seq<nat>, e: nat)
    requires StableLists(events, timers, log) && e in events && e !in timers
    ensures StableLists(events, InsertTimer(events, timers, e), log + [e])
  {
    InsertTimerKeeps(events, timers, e);
    var r := InsertTimer(events, timers, e);
    forall x, y | Earlier(log + [e], x, y) && SameDeadline(events, x, y) ensures Earlier(r, x, y) {
      EarlierSplit(log, [e], x, y);
      EarlierSingle(e, x, y);
      if Earlier(log, x, y) {
        OthersStay(events, timers, e, x, y);
      } else {
        ArmedLast(events, timers, e, x);
      }
    }
  }

  /** Only deadlines of listed timers matter. */
  lemma StableListsFrame(events: map<nat, Event>, events': map<nat, Event>, timers: seq<nat>, log: seq<nat>)
    requires StableLists(events, timers, log)
    requires forall x :: x in timers ==> x in events' && events'[x].deadline == events[x].deadline
    ensures StableLists(events', timers, log)
  {
    SortedFrame(events, events', timers);
    forall x, y | Earlier(log, x, y) && SameDeadline(events', x, y) ensures Earlier(timers, x, y) {
      EarlierIn(log, x, y);
    }
  }

  lemma TimerStepSorted(s: Base, op: TimerOp, log: seq<nat>)
    requires op.id in s.events && StablySorted(s, log)
    ensures StablySorted(TimerStep(s, op), LogStep(log, op))
  {
    var e, s' := op.id, TimerStep(s, op);
    RemoveFacts(s.timers, e);
    if op.Arm? {
      Rearmed(s.events, s'.events, s.timers, log, e);
      InsertTimerKeeps(s'.events, Remove(s.timers, e), e);
    } else {
      Disarmed(s.events, s.timers, log, e);
      StableListsFrame(s.events, s'.events, Remove(s.timers, e), Remove(log, e));
      assert Remove(log, e) + [] == Remove(log, e);
    }
  }

  /** Taken out and armed again, with a new deadline. */
  lemma Rearmed(events: map<nat, Event>, events': map<nat, Event>, timers: seq<nat>, log: seq<nat>, e: nat)
    requires StableLists(events, timers, log) && e in events'
    requires forall x :: x in timers && x != e ==> x in events' && events'[x].deadline == events[x].deadline
    ensures forall x :: x in Remove(timers, e) ==> x in events'
    ensures NoDup(Remove(timers, e)) && Sorted(events', Remove(timers, e)) && e !in Remove(timers, e)
    ensures StableLists(events', InsertTimer(events', Remove(timers, e), e), Remove(log, e) + [e])
  {
    RemoveFacts(timers, e);
    Disarmed(events, timers, log, e);
    StableListsFrame(events, events', Remove(timers, e), Remove(log, e));
    Armed(events', Remove(timers, e), Remove(log, e), e);
  }

  /** After any run of adds and removes the tree's order is the stable sort of the log. */
  lemma {:induction false} TimersStablySorted(s: Base, ops: seq<TimerOp>, log: seq<nat>)
    requires TimerRun(s, ops) && StablySorted(s, log)
    ensures StablySorted(AfterTimers(s, ops), AfterLog(log, ops))
    decreases ops
  {
    if ops != [] {
      TimerStepSorted(s, ops[0], log);
      TimersStablySorted(TimerStep(s, ops[0]), ops[1..], LogStep(log, ops[0]));
    }
  }

  // ----- there is only one stable order -----

  lemma SortedEarlier(events: map<nat, Event>, l: seq<nat>, x: nat, y: nat)
    requires Sorted(events, l) && Earlier(l, x, y)
    ensures x in events && y in events && NotLater(events[x].deadline, events[y].deadline)
  {
  }

  lemma OrderDetermined(events: map<nat, Event>, t: seq<nat>, t': seq<nat>, log: seq<nat>, x: nat, y: nat)
    requires StableLists(events, t, log) && StableLists(events, t', log) && Earlier(t, x, y)
    ensures Earlier(t', x, y)
  {
    EarlierIn(t, x, y);
    EarlierTotal(t', x, y);
    if Earlier(t', y, x) {
      SortedEarlier(events, t, x, y);
      SortedEarlier(events, t', y, x);
      assert SameDeadline(events, x, y) && SameDeadline(events, y, x);
      EarlierTotal(log, x, y);
      EarlierOneWay(t, x, y);
    }
  }

  lemma FirstIsFirst(t: seq<nat>, t': seq<nat>)
    requires t != [] && t' != [] && NoDup(t') && t'[0] in t && (forall x, y :: Earlier(t, x, y) ==> Earlier(t', x, y))
    ensures t[0] == t'[0]
  {
    FirstEarlier(t, t'[0]);
    NotBeforeFirst(t', t[0]);
  }

  lemma FirstEarlier(t: seq<nat>, y: nat)
    requires y in t
    ensures t[0] == y || Earlier(t, t[0], y)
  {
    var j :| 0 <= j < |t| && t[j] == y;
  }

  lemma NotBeforeFirst(t: seq<nat>, x: nat)
    requires NoDup(t) && t != []
    ensures !Earlier(t, x, t[0])
  {
  }

  lemma {:induction false} SameOrder(t: seq<nat>, t': seq<nat>)
    requires NoDup(t) && NoDup(t') && (forall x :: x in t <==> x in t')
    requires forall x, y :: Earlier(t, x, y) ==> Earlier(t', x, y)
    ensures t == t'
  {
    if t' != [] { assert t'[0] in t; }
    if t != [] {
      assert t[0] in t';
      FirstIsFirst(t, t');
      forall x ensures (x in t[1..] <==> x in t && x != t[0]) && (x in t'[1..] <==> x in t' && x != t[0]) {
        assert t == [t[0]] + t[1..] && t' == [t[0]] + t'[1..];
      }
      forall x, y | Earlier(t[1..], x, y) ensures Earlier(t'[1..], x, y) {
        EarlierIn(t[1..], x, y);
        EarlierTail(t, x, y);
        EarlierTail(t', x, y);
      }
      SameOrder(t[1..], t'[1..]);
    }
  }

  /** Whatever is stably sorted against the same log, with the same deadlines, is the same list. */
  lemma StableOrderUnique(s: Base, s': Base, log: seq<nat>)
    requires StablySorted(s, log) && StablySorted(s', log) && s'.events == s.events
    ensures s.timers == s'.timers
  {
    forall x, y | Earlier(s.timers, x, y) ensures Earlier(s'.timers, x, y) {
      OrderDetermined(s.events, s.timers, s'.timers, log, x, y);
    }
    SameOrder(s.timers, s'.timers);
  }
}
