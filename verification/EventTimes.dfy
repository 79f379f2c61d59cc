/** Deadlines over whole runs and loops: with a normalised, monotone clock and normalised arguments
    every deadline and interval stays normalised, rescheduled events keep their time window, and a
    full wait makes an event fire. */
module EventTimes {
  import opened Options
  import opened Pointers
  import opened Timevals
  import opened EventSpec
  import opened EventInv
  import opened EventRuns
  import opened EventLoop
  import opened EventPersist

  // ----- normalised times -----

  ghost predicate NormalEvent(v: Event) { Normal(v.deadline) && Normal(v.interval) && v.interval.sec >= 0 }

  ghost predicate NormalTimes(s: Base) { forall e :: e in s.events ==> NormalEvent(s.events[e]) }

  /** The caller's times and the clock's readings are normalised. */
  ghost predicate NormalOp(op: Op) { op.Add? ==> Normal(op.now) && (op.tv.Some? ==> Normal(op.tv.value)) }

  ghost predicate NormalOps(ops: seq<Op>) { forall i :: 0 <= i < |ops| ==> NormalOp(ops[i]) }

  ghost predicate NormalTurns(turns: seq<Turn>) {
    forall i :: 0 <= i < |turns| ==> Normal(turns[i].now) && NormalOps(turns[i].ops)
  }

  ghost predicate NormalAction(a: Action) {
    match a
    case User(op) => NormalOp(op)
    case Serve(turns) => NormalTurns(turns)
    case _ => true
  }

  ghost predicate NormalRun(run: seq<Action>) { forall i :: 0 <= i < |run| ==> NormalAction(run[i]) }

  lemma OpNormal(s: Base, op: Op, saved: Ptr)
    requires Inv(s) && Legal(s, op, saved) && NormalTimes(s) && NormalOp(op)
    ensures NormalTimes(Apply(s, op))
  {
    if op.Add? { AddFrame(s, op.id, op.tv, false, op.now, op.ok); }
  }

  lemma {:induction false} OpsNormal(s: Base, ops: seq<Op>, saved: Ptr)
    requires Inv(s) && LegalOps(s, ops, saved) && NormalTimes(s) && NormalOps(ops)
    ensures NormalTimes(RunOps(s, ops, saved))
    decreases ops
  {
    if ops != [] {
      OpInv(s, ops[0]);
      OpNormal(s, ops[0], saved);
      OpsNormal(Apply(s, ops[0]), ops[1..], saved);
    }
  }

  lemma ServeNormal(s: Base, e: nat, turn: Turn)
    requires Inv(s) && e in s.events && NormalTimes(s) && Normal(turn.now)
    ensures NormalTimes(ServeOne(s, e, turn))
  {
    ServeOneInv(s, e, turn);
    NextDeadlineNormal(s.events[e], turn.now);
  }

  lemma NextDeadlineNormal(v: Event, now: Timeval)
    requires NormalEvent(v) && Normal(now)
    ensures Normal(NextDeadline(v, now))
  {
  }

  /** The base after the first event of a pass was served and called back. */
  ghost function AfterHead(s: Base, turns: seq<Turn>): (r: Base)
    requires Inv(s) && LegalPass(s, turns) && turns != []
    ensures Inv(r) && LegalPass(r, turns[1..])
  {
    HeadServed(s, turns[0]);
    RunOps(ServeOne(s, s.active[0], turns[0]), turns[0].ops, HeadOf(s.active[1..]))
  }

  lemma HeadNormal(s: Base, turns: seq<Turn>)
    requires Inv(s) && LegalPass(s, turns) && turns != [] && NormalTimes(s) && NormalTurns(turns)
    ensures NormalTimes(AfterHead(s, turns))
  {
    ServeOneInv(s, s.active[0], turns[0]);
    ServeNormal(s, s.active[0], turns[0]);
    OpsNormal(ServeOne(s, s.active[0], turns[0]), turns[0].ops, HeadOf(s.active[1..]));
  }

  lemma {:induction false} PassNormal(s: Base, turns: seq<Turn>)
    requires Inv(s) && LegalPass(s, turns) && NormalTimes(s) && NormalTurns(turns)
    ensures NormalTimes(Pass(s, turns).0)
    decreases turns
  {
    if s.active != [] {
      HeadNormal(s, turns);
      PassNormal(AfterHead(s, turns), turns[1..]);
    }
  }

  lemma ReadyNormal(s: Base, fd: int, bits: set<Bit>)
    requires Inv(s) && NormalTimes(s)
    ensures NormalTimes(Ready(s, fd, bits))
  {
    ReadyExact(s, fd, bits);
  }

  lemma ExpireNormal(s: Base, now: Timeval)
    requires Inv(s) && NormalTimes(s)
    ensures NormalTimes(Expire(s, now))
  {
    var _ := ExpireExact(s, now);
  }

  lemma StepNormal(s: Base, a: Action)
    requires Inv(s) && LegalAction(s, a) && NormalTimes(s) && NormalAction(a)
    ensures NormalTimes(Step(s, a))
  {
    match a
    case User(op) => OpNormal(s, op, Null);
    case Report(fd, bits) => ReadyNormal(s, fd, bits);
    case Tick(now) => ExpireNormal(s, now);
    case Serve(turns) => PassNormal(s, turns);
  }

  /** Runs with normalised inputs keep every deadline and interval normalised. */
  lemma {:induction false} RunNormal(s: Base, run: seq<Action>)
    requires Inv(s) && LegalRun(s, run) && NormalTimes(s) && NormalRun(run)
    ensures NormalTimes(Reached(s, run))
    decreases run
  {
    if run != [] {
      StepInv(s, run[0]);
      StepNormal(s, run[0]);
      RunNormal(Step(s, run[0]), run[1..]);
    }
  }

  // ----- a full wait -----

  lemma WaitThenFireAt(s: Base, now: Timeval, later: Timeval)
    requires Inv(s) && NormalTimes(s) && s.timers != [] && Normal(now) && Normal(later)
    requires (Micros(s.events[s.timers[0]].deadline) - Micros(now)) / 1000 + 1 < 0x8000_0000
    requires Micros(later) >= Micros(now) + NextWait(s, now) * 1000
    ensures |Expire(s, later).timers| < |s.timers|
  {
    WaitCoversGapIff(s.events[s.timers[0]].deadline, now);
    var due := ExpireExact(s, later);
    assert Due(s, s.timers[0], later);
  }

  /** In every state reached with normalised inputs, at least one event times out after a full
      undisturbed wait, provided that the wait fits in 32 bits. */
  lemma WaitThenFire(run: seq<Action>, now: Timeval, later: Timeval)
    requires (EmptyInv(); LegalRun(EmptyBase(), run)) && NormalRun(run) && Normal(now) && Normal(later)
    requires (ReachableInv(run);
      var s := Reached(EmptyBase(), run);
      && s.timers != [] && (Micros(s.events[s.timers[0]].deadline) - Micros(now)) / 1000 + 1 < 0x8000_0000
      && Micros(later) >= Micros(now) + NextWait(s, now) * 1000)
    ensures |Expire(Reached(EmptyBase(), run), later).timers| < |Reached(EmptyBase(), run).timers|
  {
    EmptyInv();
    ReachableInv(run);
    RunNormal(EmptyBase(), run);
    WaitThenFireAt(Reached(EmptyBase(), run), now, later);
  }

  // ----- one event at its turn -----

  /** The base just before the k-th event of a pass is served. */
  ghost function Mid(s: Base, turns: seq<Turn>, k: nat): Base
    requires Inv(s) && LegalPass(s, turns) && k <= |turns|
    decreases turns
  {
    if k == 0 then s else Mid(AfterHead(s, turns), turns[1..], k - 1)
  }

  /** No callback before the k-th adds e again. */
  ghost predicate NotReadded(turns: seq<Turn>, k: nat, e: nat)
    requires k <= |turns|
  {
    forall j :: 0 <= j < k ==> !Adds(turns[j].ops, e)
  }

  /** The event whose turn is the k-th. */
  ghost function Served(s: Base, turns: seq<Turn>, k: nat): (e: nat)
    requires Inv(s) && LegalPass(s, turns) && k < |turns|
    ensures Mid(s, turns, k).active != [] && e == Mid(s, turns, k).active[0]
    decreases turns
  {
    if k == 0 then s.active[0] else Served(AfterHead(s, turns), turns[1..], k - 1)
  }

  /** An event reaches its turn with its descriptor and result bits, and with its whole record unless
      a callback added it again meanwhile. */
  lemma {:induction false} MidFacts(s: Base, turns: seq<Turn>, k: nat)
    requires Inv(s) && LegalPass(s, turns) && k < |turns|
    ensures Inv(Mid(s, turns, k)) && Served(s, turns, k) in s.active
    ensures SameReport(s, Mid(s, turns, k), Served(s, turns, k))
    ensures NotReadded(turns, k, Served(s, turns, k)) ==>
      Mid(s, turns, k).events[Served(s, turns, k)] == s.events[Served(s, turns, k)]
    decreases turns
  {
    if k == 0 {
      assert s.active[0] in s.active;
    } else {
      HeadServed(s, turns[0]);
      var s2, e := AfterHead(s, turns), Served(s, turns, k);
      MidFacts(s2, turns[1..], k - 1);
      assert e in s2.active && e in s.active[1..];
      if NotReadded(turns, k, e) {
        assert NotReadded(turns[1..], k - 1, e);
        assert !Adds(turns[0].ops, e);
      }
    }
  }

  lemma {:induction false} MidNormal(s: Base, turns: seq<Turn>, k: nat)
    requires Inv(s) && LegalPass(s, turns) && k <= |turns| && NormalTimes(s) && NormalTurns(turns)
    ensures NormalTimes(Mid(s, turns, k))
    decreases turns
  {
    if k > 0 {
      HeadNormal(s, turns);
      MidNormal(AfterHead(s, turns), turns[1..], k - 1);
    }
  }

  /** The time between now and now plus the interval. */
  ghost predicate InWindow(d: Timeval, now: Timeval, interval: Timeval) {
    Micros(now) <= Micros(d) <= Micros(now) + Micros(interval)
  }

  /** A new deadline is in its window exactly when the event did not time out or its old deadline
      has passed by now. */
  lemma DeadlineWindowIff(v: Event, now: Timeval)
    requires NormalEvent(v) && Normal(now)
    ensures InWindow(NextDeadline(v, now), now, v.interval) <==> (Timeout in v.res ==> NotLater(v.deadline, now))
  {
  }

  /** The next deadline, exactly: one interval after the old one for an event that timed out at most
      one interval ago, else one interval from now. */
  lemma NextDeadlineLaw(v: Event, now: Timeval)
    requires NormalEvent(v) && Normal(now)
    ensures Micros(NextDeadline(v, now)) ==
      if Timeout in v.res && Micros(now) <= Micros(v.deadline) + Micros(v.interval)
      then Micros(v.deadline) + Micros(v.interval) else Micros(now) + Micros(v.interval)
  {
  }

  /** What a persistent event gets at its turn. */
  lemma ServedOnTime(s: Base, e: nat, turn: Turn)
    requires Inv(s) && NormalTimes(s) && Normal(turn.now) && e in s.events
    requires Persist in s.events[e].events && s.events[e].interval != ZERO && Admitted(s, e, turn.ok)
    ensures var v, v' := s.events[e], ServeOne(s, e, turn).events[e];
      && v'.timed
      && (InWindow(v'.deadline, turn.now, v.interval) <==> (Timeout in v.res ==> NotLater(v.deadline, turn.now)))
      && (Timeout in v.res ==>
            (Micros(v'.deadline) == Micros(v.deadline) + Micros(v.interval)
             <==> Micros(turn.now) <= Micros(v.deadline) + Micros(v.interval)))
      && (Timeout !in v.res || Micros(turn.now) > Micros(v.deadline) + Micros(v.interval) ==>
            Micros(v'.deadline) == Micros(turn.now) + Micros(v.interval))
  {
    ServedAgain(s, e, turn);
    DeadlineWindowIff(s.events[e], turn.now);
    NextDeadlineLaw(s.events[e], turn.now);
    if Timeout in s.events[e].res { NoDrift(s.events[e], turn.now); }
  }

  /** A timed out event that a callback adds again while it waits leaves its window: the new
      deadline, still ahead, is taken for the one that passed. */
  lemma ReaddedLeavesWindow(s: Base, e: nat, tv: Timeval, now: Timeval, ok: bool, turn: Turn)
    requires Inv(s) && NormalTimes(s) && e in s.events && Persist in s.events[e].events && Timeout in s.events[e].res
    requires Admitted(s, e, ok) && Normal(tv) && tv.sec >= 0 && Normal(now) && Normal(turn.now)
    requires Micros(now) <= Micros(turn.now) < Micros(now) + Micros(tv)
    ensures var s1 := Apply(s, Add(e, Some(tv), now, ok));
      Inv(s1) && !InWindow(ServeOne(s1, e, turn).events[e].deadline, turn.now, tv)
  {
    var op := Add(e, Some(tv), now, ok);
    var s1 := Apply(s, op);
    OpInv(s, op);
    OpNormal(s, op, Null);
    assert s1.events[e].interval == tv && s1.events[e].deadline == TimeAdd(now, tv) && s1.events[e].reg;
    ServedOnTime(s1, e, turn);
  }

  // ----- the loop -----

  ghost predicate NormalLoop(its: seq<Iteration>) {
    forall i :: 0 <= i < |its| ==> Normal(its[i].now) && NormalTurns(its[i].turns)
  }

  /** The clock does not go back: what a pass reads is not earlier than what the timeouts saw. */
  ghost predicate MonotoneClock(its: seq<Iteration>) {
    forall i, k :: 0 <= i < |its| && 0 <= k < |its[i].turns| ==> NotLater(its[i].now, its[i].turns[k].now)
  }

  lemma IterationNormal(s: Base, its: seq<Iteration>)
    requires Inv(s) && LegalLoop(s, its) && !NothingLeft(s) && its != [] && its[0].wakes.Some?
    requires NormalTimes(s) && NormalTurns(its[0].turns)
    ensures NormalTimes(AfterIteration(s, its))
  {
    FiredNormal(s, its[0]);
    PassNormal(Fired(s, its[0]), its[0].turns);
  }

  /** The loop gets to its i-th iteration, and epoll_wait succeeds there. */
  ghost predicate Iterates(s: Base, its: seq<Iteration>, i: nat)
    requires Inv(s) && LegalLoop(s, its)
    decreases its
  {
    && !NothingLeft(s) && its != [] && its[0].wakes.Some?
    && (i == 0 || Iterates(AfterIteration(s, its), its[1..], i - 1))
  }

  /** The base when the pass of the i-th iteration begins. */
  ghost function PassBase(s: Base, its: seq<Iteration>, i: nat): Base
    requires Inv(s) && LegalLoop(s, its) && Iterates(s, its, i)
    decreases its
  {
    if i == 0 then Fired(s, its[0]) else PassBase(AfterIteration(s, its), its[1..], i - 1)
  }

  lemma {:induction false} ReportsNormal(s: Base, wakes: seq<Wake>)
    requires Inv(s) && NormalTimes(s)
    ensures NormalTimes(Reports(s, wakes))
    decreases wakes
  {
    if wakes != [] {
      var fd, bits := wakes[0].fd, Translate(wakes[0].what);
      ReadyExact(s, fd, bits);
      ReadyNormal(s, fd, bits);
      ReportsNormal(Ready(s, fd, bits), wakes[1..]);
    }
  }

  lemma FiredNormal(s: Base, it: Iteration)
    requires Inv(s) && NormalTimes(s) && it.wakes.Some?
    ensures NormalTimes(Fired(s, it))
  {
    ReportsNormal(s, it.wakes.value);
    ExpireNormal(Reports(s, it.wakes.value), it.now);
  }

  /** When a pass of the loop begins, all times are normalised and every timed out event is past. */
  lemma {:induction false} PassBaseFacts(s: Base, its: seq<Iteration>, i: nat)
    requires Inv(s) && LegalLoop(s, its) && Iterates(s, its, i)
    requires s.active == [] && NormalTimes(s) && NormalLoop(its)
    ensures i < |its| && Inv(PassBase(s, its, i)) && NormalTimes(PassBase(s, its, i))
    ensures LegalPass(PassBase(s, its, i), its[i].turns) && Past(PassBase(s, its, i), its[i].now)
    decreases its
  {
    if i == 0 {
      FiredNormal(s, its[0]);
      FiredPast(s, its[0]);
    } else {
      IterationNormal(s, its);
      assert NormalLoop(its[1..]);
      PassBaseFacts(AfterIteration(s, its), its[1..], i - 1);
    }
  }

  /** What is promised to the event whose turn is the k-th of a pass that begins with base f. */
  ghost predicate KeepsTime(f: Base, turns: seq<Turn>, k: nat)
    requires Inv(f) && LegalPass(f, turns) && k < |turns|
    requires Inv(Mid(f, turns, k)) && Served(f, turns, k) in f.events && Served(f, turns, k) in Mid(f, turns, k).events
  {
    var e, m, now := Served(f, turns, k), Mid(f, turns, k), turns[k].now;
    var v := f.events[e];
    Persist in v.events && v.interval != ZERO && Admitted(m, e, turns[k].ok) && NotReadded(turns, k, e) ==>
      var v' := ServeOne(m, e, turns[k]).events[e];
      && v'.timed && InWindow(v'.deadline, now, v.interval)
      && (Timeout in v.res ==>
            (Micros(v'.deadline) == Micros(v.deadline) + Micros(v.interval)
             <==> Micros(now) <= Micros(v.deadline) + Micros(v.interval)))
      && (Timeout !in v.res || Micros(now) > Micros(v.deadline) + Micros(v.interval) ==>
            Micros(v'.deadline) == Micros(now) + Micros(v.interval))
  }

  lemma TurnKeepsTime(f: Base, turns: seq<Turn>, k: nat, t: Timeval)
    requires Inv(f) && LegalPass(f, turns) && k < |turns| && NormalTimes(f) && NormalTurns(turns)
    requires Past(f, t) && NotLater(t, turns[k].now)
    ensures Served(f, turns, k) in f.active && Served(f, turns, k) in f.events
    ensures Inv(Mid(f, turns, k)) && Served(f, turns, k) in Mid(f, turns, k).events
    ensures KeepsTime(f, turns, k)
  {
    MidFacts(f, turns, k);
    MidNormal(f, turns, k);
    var e, m, now := Served(f, turns, k), Mid(f, turns, k), turns[k].now;
    var v := f.events[e];
    if Persist in v.events && v.interval != ZERO && Admitted(m, e, turns[k].ok) && NotReadded(turns, k, e) {
      ServedOnTime(m, e, turns[k]);
      if Timeout in v.res { NotLaterTransitive(v.deadline, t, now); }
    }
  }

  /** In every iteration of every loop under a normalised monotone clock, each persistent event that
      is served gets a deadline between now and now plus its interval; one that timed out gets
      exactly its old deadline plus the interval if and only if it is at most one interval late. */
  lemma LoopKeepsTime(s: Base, its: seq<Iteration>, i: nat, k: nat)
    requires Inv(s) && LegalLoop(s, its) && Iterates(s, its, i)
    requires s.active == [] && NormalTimes(s) && NormalLoop(its) && MonotoneClock(its)
    requires i < |its| && k < |its[i].turns|
    ensures var f, turns := PassBase(s, its, i), its[i].turns;
      && Inv(f) && LegalPass(f, turns) && Served(f, turns, k) in f.active && Served(f, turns, k) in f.events
      && Inv(Mid(f, turns, k)) && Served(f, turns, k) in Mid(f, turns, k).events && KeepsTime(f, turns, k)
  {
    PassBaseFacts(s, its, i);
    TurnKeepsTime(PassBase(s, its, i), its[i].turns, k, its[i].now);
  }

  /** What a program sets up before it starts the loop meets the assumptions on the base. */
  lemma SetUp(ops: seq<Op>)
    requires LegalOps(EmptyBase(), ops, Null) && NormalOps(ops)
    ensures var s := RunOps(EmptyBase(), ops, Null); Inv(s) && s.active == [] && NormalTimes(s)
  {
    EmptyInv();
    OpsLeaveWaiting(EmptyBase(), ops, Null);
    OpsNormal(EmptyBase(), ops, Null);
  }

  /** The same for every program: any operations on a new base, then the loop. */
  lemma ProgramKeepsTime(ops: seq<Op>, its: seq<Iteration>, i: nat, k: nat)
    requires LegalOps(EmptyBase(), ops, Null) && NormalOps(ops)
    requires (SetUp(ops);
      LegalLoop(RunOps(EmptyBase(), ops, Null), its) && Iterates(RunOps(EmptyBase(), ops, Null), its, i))
    requires NormalLoop(its) && MonotoneClock(its) && i < |its| && k < |its[i].turns|
    ensures (SetUp(ops);
      var f, turns := PassBase(RunOps(EmptyBase(), ops, Null), its, i), its[i].turns;
      && Inv(f) && LegalPass(f, turns) && Served(f, turns, k) in f.active && Served(f, turns, k) in f.events
      && Inv(Mid(f, turns, k)) && Served(f, turns, k) in Mid(f, turns, k).events && KeepsTime(f, turns, k))
  {
    SetUp(ops);
    LoopKeepsTime(RunOps(EmptyBase(), ops, Null), its, i, k);
  }
}
