/** The event loop over whole runs: readiness reports, timeouts, passes, and the user's own
    operations in any order. */
module EventLoop {
  import opened Options
  import opened Sequences
  import opened Pointers
  import opened Timevals
  import opened EventSpec
  import opened EventInv
  import opened EventRuns

  // ----- readiness -----

  /** event_map_active on the rest of a slot list: filters by event mask only. */
  ghost function Activate(s: Base, list: seq<nat>, bits: set<Bit>): Base
    requires forall e :: e in list ==> e in s.events
    decreases list
  {
    if list == [] then s
    else
      var v := s.events[list[0]];
      Activate(if v.events * bits != {} then AddActive(s, list[0], v.events * bits) else s, list[1..], bits)
  }

  ghost function Ready(s: Base, fd: int, bits: set<Bit>): Base
    requires SlotInv(s)
  {
    if fd < 0 then s else Activate(s, s.slots[SlotOf(fd)], bits)
  }

  /** The entries of a list that a report makes active: those with a common bit, not active yet. */
  ghost function Woken(s: Base, list: seq<nat>, bits: set<Bit>): seq<nat>
    requires forall e :: e in list ==> e in s.events
  {
    if list == [] then []
    else (if s.events[list[0]].events * bits != {} && !s.events[list[0]].active then [list[0]] else [])
         + Woken(s, list[1..], bits)
  }

  ghost function WokenEvent(v: Event, bits: set<Bit>): Event { v.(active := true, res := v.events * bits) }

  /** From s to s', exactly the events of `woken` joined the active list, with their common bits. */
  ghost predicate Activated(s: Base, s': Base, woken: seq<nat>, bits: set<Bit>) {
    && s'.active == s.active + woken
    && s'.events.Keys == s.events.Keys
    && (forall e :: e in s.events && e !in woken ==> s'.events[e] == s.events[e])
    && (forall e :: e in woken ==>
          e in s.events && !s.events[e].active && s'.events[e] == WokenEvent(s.events[e], bits))
  }

  lemma {:induction false} WokenIn(s: Base, list: seq<nat>, bits: set<Bit>)
    requires forall e :: e in list ==> e in s.events
    ensures forall e :: e in Woken(s, list, bits) <==>
      e in list && s.events[e].events * bits != {} && !s.events[e].active
  {
    if list != [] { WokenIn(s, list[1..], bits); }
  }

  lemma {:induction false} WokenFrame(s: Base, s': Base, list: seq<nat>, bits: set<Bit>)
    requires forall e :: e in list ==> e in s.events && e in s'.events && s'.events[e] == s.events[e]
    ensures Woken(s, list, bits) == Woken(s', list, bits)
  {
    if list != [] { WokenFrame(s, s', list[1..], bits); }
  }

  lemma ActivatedFirst(s: Base, s1: Base, s': Base, e: nat, w: seq<nat>, bits: set<Bit>)
    requires e in s.events && !s.events[e].active && e !in w
    requires s1.events == s.events[e := WokenEvent(s.events[e], bits)] && s1.active == s.active + [e]
    requires Activated(s1, s', w, bits)
    ensures Activated(s, s', [e] + w, bits)
  {
    assert (s.active + [e]) + w == s.active + ([e] + w);
    assert forall x :: x in [e] + w <==> x == e || x in w;
    assert forall x :: x in w ==> x != e && s1.events[x] == s.events[x];
  }

  lemma {:induction false} ActivateExact(s: Base, list: seq<nat>, bits: set<Bit>)
    requires Inv(s) && NoDup(list) && forall e :: e in list ==> e in s.events
    ensures Inv(Activate(s, list, bits)) && Activated(s, Activate(s, list, bits), Woken(s, list, bits), bits)
    decreases list
  {
    if list == [] {
      assert s.active + [] == s.active;
    } else {
      var e, rest := list[0], list[1..];
      var v := s.events[e];
      assert e !in rest && forall x :: x in rest ==> x in list;
      WokenIn(s, rest, bits);
      if v.events * bits != {} && !v.active {
        var s1 := AddActive(s, e, v.events * bits);
        AddActiveInv(s, e, v.events * bits);
        ActivateExact(s1, rest, bits);
        WokenFrame(s, s1, rest, bits);
        ActivatedFirst(s, s1, Activate(s1, rest, bits), e, Woken(s, rest, bits), bits);
      } else {
        ActivateExact(s, rest, bits);
        assert Woken(s, list, bits) == Woken(s, rest, bits);
      }
    }
  }

  lemma ReadyExact(s: Base, fd: int, bits: set<Bit>)
    requires Inv(s)
    ensures Inv(Ready(s, fd, bits))
    ensures fd >= 0 ==> (assert forall e :: e in s.slots[SlotOf(fd)] ==> e in s.events;
      Activated(s, Ready(s, fd, bits), Woken(s, s.slots[SlotOf(fd)], bits), bits))
  {
    if fd >= 0 { ActivateExact(s, s.slots[SlotOf(fd)], bits); }
  }

  /** e would be woken by a report of these bits in its slot. */
  ghost predicate Wakeable(s: Base, e: nat, slot: int, bits: set<Bit>) {
    e in s.events && InSlot(s.events[e], slot) && !s.events[e].active && s.events[e].events * bits != {}
  }

  /** A report for a descriptor wakes events of that descriptor only, exactly when no idle event
      with a common bit shares the slot under another descriptor. */
  lemma ReadyByFdIff(s: Base, fd: int, bits: set<Bit>)
    requires Inv(s) && fd >= 0
    ensures forall e :: e in Ready(s, fd, bits).active && e !in s.active <==> Wakeable(s, e, SlotOf(fd), bits)
    ensures (forall e :: e in Ready(s, fd, bits).active && e !in s.active ==> e in s.events && s.events[e].fd == fd)
       <==> (forall e :: Wakeable(s, e, SlotOf(fd), bits) ==> s.events[e].fd == fd)
  {
    ReadyExact(s, fd, bits);
    var list := s.slots[SlotOf(fd)];
    assert forall e :: e in list ==> e in s.events;
    WokenIn(s, list, bits);
    assert forall e :: e in Woken(s, list, bits) <==> Wakeable(s, e, SlotOf(fd), bits);
  }

  // ----- runs -----

  datatype Action =
    | User(op: Op)
    | Report(fd: int, bits: set<Bit>)
    | Tick(now: Timeval)
    | Serve(turns: seq<Turn>)

  ghost predicate LegalAction(s: Base, a: Action)
    requires Inv(s)
  {
    match a
    case User(op) => Legal(s, op, Null)
    case Report(_, _) => true
    case Tick(_) => true
    case Serve(turns) => LegalPass(s, turns)
  }

  ghost function Step(s: Base, a: Action): Base
    requires Inv(s) && LegalAction(s, a)
  {
    match a
    case User(op) => Apply(s, op)
    case Report(fd, bits) => Ready(s, fd, bits)
    case Tick(now) => Expire(s, now)
    case Serve(turns) => Pass(s, turns).0
  }

  lemma StepInv(s: Base, a: Action)
    requires Inv(s) && LegalAction(s, a)
    ensures Inv(Step(s, a))
  {
    match a
    case User(op) => OpInv(s, op);
    case Report(fd, bits) => ReadyExact(s, fd, bits);
    case Tick(now) => var _ := ExpireExact(s, now);
    case Serve(turns) => PassServesEachOnce(s, turns);
  }

  /** The environment's choices are possible ones; nothing is asked of the states in between. */
  ghost predicate LegalRun(s: Base, run: seq<Action>)
    requires Inv(s)
    decreases run
  {
    run == [] ||
    (LegalAction(s, run[0]) &&
     (StepInv(s, run[0]);
      LegalRun(Step(s, run[0]), run[1..])))
  }

  ghost function Reached(s: Base, run: seq<Action>): Base
    requires Inv(s) && LegalRun(s, run)
    decreases run
  {
    if run == [] then s
    else
      StepInv(s, run[0]);
      Reached(Step(s, run[0]), run[1..])
  }

  lemma {:induction false} RunInv(s: Base, run: seq<Action>)
    requires Inv(s) && LegalRun(s, run)
    ensures Inv(Reached(s, run))
    decreases run
  {
    if run != [] {
      StepInv(s, run[0]);
      RunInv(Step(s, run[0]), run[1..]);
    }
  }

  /** Every state reached from a new base, by any run, is consistent. */
  lemma ReachableInv(run: seq<Action>)
    requires (EmptyInv(); LegalRun(EmptyBase(), run))
    ensures Inv(Reached(EmptyBase(), run))
  {
    EmptyInv();
    RunInv(EmptyBase(), run);
  }

  // ----- the loop's exit -----

  lemma {:induction false} TotalZero(slots: seq<seq<nat>>)
    ensures Total(slots) == 0 <==> forall i :: 0 <= i < |slots| ==> slots[i] == []
  {
    if slots != [] {
      TotalZero(slots[1..]);
      assert forall i :: 0 < i < |slots| ==> slots[i] == slots[1..][i - 1];
    }
  }

  /** The two counters that wba_event_loop tests are both zero exactly when every slot list, the
      timer tree and the active list are empty. */
  lemma EmptyExitIff(s: Base)
    requires Inv(s)
    ensures s.count == 0 && s.countActive == 0 <==>
      (forall i :: 0 <= i < MAP_SIZE ==> s.slots[i] == []) && s.timers == [] && s.active == []
  {
    TotalZero(s.slots);
  }

  // ----- timed out events -----

  /** Every active event that timed out did so at time t or earlier. */
  ghost predicate Past(s: Base, t: Timeval) {
    forall e :: e in s.active ==> e in s.events && (Timeout in s.events[e].res ==> NotLater(s.events[e].deadline, t))
  }

  ghost predicate NoTimeouts(s: Base) {
    forall e :: e in s.active ==> e in s.events && Timeout !in s.events[e].res
  }

  lemma ReportsAreNoTimeouts(s: Base, fd: int, bits: set<Bit>)
    requires Inv(s) && NoTimeouts(s) && Timeout !in bits
    ensures NoTimeouts(Ready(s, fd, bits))
  {
    ReadyExact(s, fd, bits);
  }

  lemma ExpirePast(s: Base, now: Timeval)
    requires Inv(s) && NoTimeouts(s)
    ensures Past(Expire(s, now), now)
  {
    var due := ExpireExact(s, now);
    var s' := Expire(s, now);
    forall e | e in s'.active && e !in due
      ensures e in s'.events && Timeout !in s'.events[e].res
    {
      WithoutSubset(s.active, due);
      assert e in Without(s.active, due);
    }
  }

  lemma {:induction false} WithoutSubset(s: seq<nat>, xs: seq<nat>)
    ensures forall e :: e in Without(s, xs) ==> e in s
    decreases xs
  {
    if xs != [] {
      RemoveFacts(s, xs[0]);
      WithoutSubset(Remove(s, xs[0]), xs[1..]);
    }
  }

  // ----- how long epoll waits -----

  const DEFAULT_WAIT := 60 * 1000

  /** The conversion of a long to the 32-bit timeout. */
  function Wrap32(x: int): (r: int)
    ensures -0x8000_0000 <= r < 0x8000_0000 && (r - x) % 0x1_0000_0000 == 0
  {
    (x + 0x8000_0000) % 0x1_0000_0000 - 0x8000_0000
  }

  /** Milliseconds from now to the deadline d, rounded up past it. */
  function WaitMs(d: Timeval, now: Timeval): int {
    if TimeCmp(d, now) <= 0 then 0
    else var tv := TimeSub(d, now); Wrap32(tv.sec * 1000 + tv.usec / 1000 + 1)
  }

  ghost function NextWait(s: Base, now: Timeval): int
    requires TimerInv(s)
  {
    if s.timers == [] then DEFAULT_WAIT else WaitMs(s.events[s.timers[0]].deadline, now)
  }

  /** The wait is zero when the deadline has passed.  Otherwise it exceeds the gap by more than 0
      and at most 1000 microseconds, exactly when the rounded gap fits in 32 bits. */
  lemma WaitCoversGapIff(d: Timeval, now: Timeval)
    requires Normal(d) && Normal(now)
    ensures var gap, r := Micros(d) - Micros(now), WaitMs(d, now);
      && (gap <= 0 ==> r == 0)
      && (gap > 0 ==> (gap < r * 1000 <= gap + 1000 <==> gap / 1000 + 1 < 0x8000_0000))
      && (gap > 0 && gap / 1000 + 1 < 0x8000_0000 ==> r > 0)
  {
    if TimeCmp(d, now) > 0 {
      var tv := TimeSub(d, now);
      var ms := tv.sec * 1000 + tv.usec / 1000;
      assert Micros(tv) == tv.sec * 1_000_000 + tv.usec;
      assert ms == Micros(tv) / 1000;
      assert (ms + 1 < 0x8000_0000) <==> Wrap32(ms + 1) == ms + 1;
    }
  }

  /** A gap of 2^32 - 1 milliseconds: the 32-bit wait is zero although the deadline is ahead. */
  lemma WaitWraps()
    ensures WaitMs(Timeval(4294967, 295000), Timeval(0, 0)) == 0
    ensures TimeCmp(Timeval(4294967, 295000), Timeval(0, 0)) > 0
  {
    assert 4294967 * 1000 + 295000 / 1000 + 1 == 0x1_0000_0000;
  }

  // ----- wba_event_loop -----

  datatype EpollBit = EpIn | EpOut | EpRdhup | EpHup | EpErr

  datatype Wake = Wake(fd: int, what: set<EpollBit>)

  /** What epoll, the clock and the callbacks do during one iteration; `wakes` is None when
      epoll_wait fails. */
  datatype Iteration = Iteration(clock: Timeval, wakes: Option<seq<Wake>>, now: Timeval, turns: seq<Turn>)

  datatype Exit = Empty | EpollError | InputEnds

  function Translate(what: set<EpollBit>): (bits: set<Bit>)
    ensures bits <= IO
  {
    if EpHup in what || EpErr in what then {Read, Write}
    else
      var r := if EpIn in what then {Read} else {};
      var w := if EpOut in what then {Write} else {};
      r + w + if EpRdhup in what then {Closed} else {}
  }

  ghost function Reports(s: Base, wakes: seq<Wake>): (r: Base)
    requires Inv(s)
    ensures Inv(r)
    decreases wakes
  {
    if wakes == [] then s
    else
      ReadyExact(s, wakes[0].fd, Translate(wakes[0].what));
      Reports(Ready(s, wakes[0].fd, Translate(wakes[0].what)), wakes[1..])
  }

  /** The base when the pass of an iteration begins. */
  ghost function Fired(s: Base, it: Iteration): (r: Base)
    requires Inv(s) && it.wakes.Some?
    ensures Inv(r)
  {
    StepInv(Reports(s, it.wakes.value), Tick(it.now));
    Expire(Reports(s, it.wakes.value), it.now)
  }

  ghost predicate NothingLeft(s: Base) { s.count == 0 && s.countActive == 0 }

  ghost predicate LegalLoop(s: Base, its: seq<Iteration>)
    requires Inv(s)
    decreases its
  {
    its == [] || NothingLeft(s) || its[0].wakes.None? ||
    (LegalPass(Fired(s, its[0]), its[0].turns) &&
     (PassServesEachOnce(Fired(s, its[0]), its[0].turns);
      LegalLoop(Pass(Fired(s, its[0]), its[0].turns).0, its[1..])))
  }

  ghost function Loop(s: Base, its: seq<Iteration>): (Base, seq<Call>, Exit)
    requires Inv(s) && LegalLoop(s, its)
    decreases its
  {
    if NothingLeft(s) then (s, [], Empty)
    else if its == [] then (s, [], InputEnds)
    else if its[0].wakes.None? then (s, [], EpollError)
    else
      var (s1, calls) := Pass(Fired(s, its[0]), its[0].turns);
      PassServesEachOnce(Fired(s, its[0]), its[0].turns);
      var (s', more, exit) := Loop(s1, its[1..]);
      (s', calls + more, exit)
  }

  /** Over a whole loop: the base stays consistent, nothing stays active after a complete
      iteration, and the loop leaves an empty base exactly when it says so. */
  lemma {:induction false} LoopOutcome(s: Base, its: seq<Iteration>)
    requires Inv(s) && LegalLoop(s, its) && s.active == []
    ensures var (s', calls, exit) := Loop(s, its);
      Inv(s') && s'.active == []
      && (exit == Empty <==> (forall i :: 0 <= i < MAP_SIZE ==> s'.slots[i] == []) && s'.timers == [])
    decreases its
  {
    EmptyExitIff(s);
    if !NothingLeft(s) && its != [] && its[0].wakes.Some? {
      PassServesEachOnce(Fired(s, its[0]), its[0].turns);
      LoopOutcome(Pass(Fired(s, its[0]), its[0].turns).0, its[1..]);
    }
  }

  /** In every iteration that starts with nothing active, each event that timed out in the pass
      did so no later than the iteration's clock. */
  lemma {:induction false} FiredPast(s: Base, it: Iteration)
    requires Inv(s) && s.active == [] && it.wakes.Some?
    ensures Past(Fired(s, it), it.now)
  {
    ReportsNoTimeouts(s, it.wakes.value);
    ExpirePast(Reports(s, it.wakes.value), it.now);
  }

  lemma {:induction false} ReportsNoTimeouts(s: Base, wakes: seq<Wake>)
    requires Inv(s) && NoTimeouts(s)
    ensures NoTimeouts(Reports(s, wakes))
    decreases wakes
  {
    if wakes != [] {
      var fd, bits := wakes[0].fd, Translate(wakes[0].what);
      ReadyExact(s, fd, bits);
      ReportsAreNoTimeouts(s, fd, bits);
      ReportsNoTimeouts(Ready(s, fd, bits), wakes[1..]);
    }
  }

  // ----- loops are runs -----

  /** The base after the first iteration. */
  ghost function AfterIteration(s: Base, its: seq<Iteration>): (r: Base)
    requires Inv(s) && LegalLoop(s, its) && !NothingLeft(s) && its != [] && its[0].wakes.Some?
    ensures Inv(r) && LegalLoop(r, its[1..]) && r.active == []
  {
    PassServesEachOnce(Fired(s, its[0]), its[0].turns);
    Pass(Fired(s, its[0]), its[0].turns).0
  }

  ghost function ReportActions(wakes: seq<Wake>): seq<Action> {
    seq(|wakes|, i requires 0 <= i < |wakes| => Report(wakes[i].fd, Translate(wakes[i].what)))
  }

  /** What one iteration does, as actions. */
  ghost function IterationRun(it: Iteration): seq<Action>
    requires it.wakes.Some?
  {
    ReportActions(it.wakes.value) + [Tick(it.now)] + [Serve(it.turns)]
  }

  /** What the whole loop does, as actions. */
  ghost function AsRun(s: Base, its: seq<Iteration>): seq<Action>
    requires Inv(s) && LegalLoop(s, its)
    decreases its
  {
    if NothingLeft(s) || its == [] || its[0].wakes.None? then []
    else IterationRun(its[0]) + AsRun(AfterIteration(s, its), its[1..])
  }

  lemma {:induction false} RunAppend(s: Base, run: seq<Action>, more: seq<Action>)
    requires Inv(s) && LegalRun(s, run)
    requires (RunInv(s, run); LegalRun(Reached(s, run), more))
    ensures (RunInv(s, run); LegalRun(s, run + more) && Reached(s, run + more) == Reached(Reached(s, run), more))
    decreases run
  {
    if run == [] {
      assert run + more == more;
    } else {
      StepInv(s, run[0]);
      RunAppend(Step(s, run[0]), run[1..], more);
      assert (run + more)[1..] == run[1..] + more;
    }
  }

  lemma OneStep(s: Base, a: Action)
    requires Inv(s) && LegalAction(s, a)
    ensures LegalRun(s, [a]) && Reached(s, [a]) == Step(s, a)
  {
    StepInv(s, a);
    assert [a][1..] == [];
  }

  /** One more action at the end of a run that reaches s1. */
  lemma RunSnoc(s: Base, run: seq<Action>, s1: Base, a: Action)
    requires Inv(s) && LegalRun(s, run) && Reached(s, run) == s1 && Inv(s1) && LegalAction(s1, a)
    ensures LegalRun(s, run + [a]) && Reached(s, run + [a]) == Step(s1, a)
  {
    OneStep(s1, a);
    RunAppend(s, run, [a]);
  }

  lemma {:induction false} ReportsAreRun(s: Base, wakes: seq<Wake>)
    requires Inv(s)
    ensures LegalRun(s, ReportActions(wakes)) && Reached(s, ReportActions(wakes)) == Reports(s, wakes)
    decreases wakes
  {
    if wakes != [] {
      var run := ReportActions(wakes);
      assert run[0] == Report(wakes[0].fd, Translate(wakes[0].what));
      StepInv(s, run[0]);
      ReportsAreRun(Step(s, run[0]), wakes[1..]);
      assert run[1..] == ReportActions(wakes[1..]);
    }
  }

  /** The run leads from s to s'. */
  ghost predicate RunsTo(s: Base, run: seq<Action>, s': Base) { Inv(s) && LegalRun(s, run) && Reached(s, run) == s' }

  lemma FiredIsRun(s: Base, it: Iteration, r: seq<Action>)
    requires Inv(s) && it.wakes.Some? && r == ReportActions(it.wakes.value)
    ensures RunsTo(s, r + [Tick(it.now)], Fired(s, it))
  {
    ReportsAreRun(s, it.wakes.value);
    RunSnoc(s, r, Reports(s, it.wakes.value), Tick(it.now));
  }

  lemma PassIsRun(s: Base, run: seq<Action>, f: Base, turns: seq<Turn>)
    requires RunsTo(s, run, f) && Inv(f) && LegalPass(f, turns)
    ensures RunsTo(s, run + [Serve(turns)], Pass(f, turns).0)
  {
    RunSnoc(s, run, f, Serve(turns));
  }

  lemma RunThenRun(s: Base, run: seq<Action>, s1: Base, more: seq<Action>, s2: Base)
    requires RunsTo(s, run, s1) && RunsTo(s1, more, s2)
    ensures RunsTo(s, run + more, s2)
  {
    RunAppend(s, run, more);
  }

  lemma IterationIsRun(s: Base, its: seq<Iteration>)
    requires Inv(s) && LegalLoop(s, its) && !NothingLeft(s) && its != [] && its[0].wakes.Some?
    ensures RunsTo(s, IterationRun(its[0]), AfterIteration(s, its))
  {
    var r := ReportActions(its[0].wakes.value);
    FiredIsRun(s, its[0], r);
    PassIsRun(s, r + [Tick(its[0].now)], Fired(s, its[0]), its[0].turns);
  }

  /** Whatever the loop reaches, a run of reports, ticks and passes reaches: every law of runs is a
      law of loops. */
  lemma {:induction false} LoopIsRun(s: Base, its: seq<Iteration>)
    requires Inv(s) && LegalLoop(s, its)
    ensures RunsTo(s, AsRun(s, its), Loop(s, its).0)
    decreases its
  {
    if !(NothingLeft(s) || its == [] || its[0].wakes.None?) {
      IterationIsRun(s, its);
      LoopIsRun(AfterIteration(s, its), its[1..]);
      RunThenRun(s, IterationRun(its[0]), AfterIteration(s, its),
                 AsRun(AfterIteration(s, its), its[1..]), Loop(s, its).0);
    }
  }
}
