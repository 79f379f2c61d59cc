# Verified model of the event loop, its data structures and two string tokenisers

The project models five parts of the repository and proves what they promise.

* **Red-black tree** (`network/wba_event/rbtree.c`, `rbtree.h`). `RbRoot` updates an explicit node
  memory (left, right, parent, colour per address) exactly as the C code does. `RbMemory` says when
  a memory holds a tree; `RbShape` holds the trees as values, the path from a node up to the root
  that the repair loops climb, and the red-black rules. Nodes keep their identity: erasing relinks
  the successor node and copies nothing.
* **Event loop** (`network/wba_event/wba_evloop.c`, `list.h`). `EventSpec` gives the base as a value
  and each static helper as a function on it; `EventInv`, `EventRuns`, `EventLoop`, `EventPersist`,
  `EventTimes`, `EventWatch` and `TimerOrder` prove the laws of whole runs and loops; `EventLaws` says
  field by field what each operation does, in terms of bits, descriptors and the clock. The class `EvtBase` does the work in
  place, on the linked timer tree of `RbRoot` and on the circular lists of `ListHead`, with every
  event in a slot ring, in the active ring and in the tree at once, and is proved to compute those
  functions.
* **Skip list** (`c_data_structure/skiplist/skiplist.c`), for any total preorder on keys, any random
  numbers and duplicate keys.
* **First-child/next-sibling tree** (`cpp_console/stree.h`): construction from position records and
  both traversals, against ordered trees as values (`RoseTrees`).
* **Growable string and tokenisers** (`c_data_structure/wba_str/wba_str.c`, and `split` in
  `cpp_console/sstring.h`).

Clocks, epoll, random numbers, the map's key order and what callbacks do are inputs, universally
quantified. A callback is an arbitrary list of operations. It may add, delete and free every event,
waiting ones included, except that it may not remove the one entry which `event_process_active` has
already saved as its next: that would make the pass endless (`SavedNextGone`, `SavedNextEnds`).

Some promises do not hold for all inputs. Each has a witness and the exact condition under which it
holds. The witnesses of the event loop's state are runs from a new base:

* a callback that overwrites an event which waits behind it and is no longer registered breaks the
  base and the active list (`AssignKeepsInvIff`, `AssignBreaks`, `AssignDestroysActiveList`);
* a descriptor that is closed behind the base's back and used again can lose its registration when the
  stale event is deleted (`DelUnwatchesIff`, `StaleEventUnwatches`);
* a readiness report wakes events of other descriptors that share its slot (`ReadyByFdIff`,
  `ReadyWakesOtherFd`);
* a persistent event that epoll refuses to register again is lost silently (`ServedPendingIff`,
  `RefusalLoses`);
* a timed out event that a callback adds again while it waits gets a deadline beyond its window
  (`DeadlineWindowIff`, `ReaddedDrifts`);
* the wait wraps to 32 bits for gaps of about 24.8 days and more (`WaitCoversGapIff`, `WaitWraps`);
* with duplicate keys `search_node` does not return the first match, as its comment says, but the first
  match of the highest level that has one (`SkList.Search`, `FoundFirstIff`, `SearchFindsSecond`);
* a description of a lone root has no position record, so `build` leaves the tree empty (`Tree.Build`).

The amortised bound that one expects of a doubling string is proved up to 2 MiB
(`AppendsAmortised`), refuted for every final length from 2 MiB + 92 on (`AmortisationEnds`), and
replaced there by a bound for all lengths (`AppendsBounded`).

## Model

| member | source | states |
|---|---|---|
| RbTree.RbRoot.RotateLeft | network/wba_event/rbtree.c:41-62 | at any place of any tree the memory and the root pointer afterwards denote that whole tree with the subtree rotated, all parent links mirroring child links |
| RbTree.RbRoot.RotateRight | network/wba_event/rbtree.c:64-85 | the mirror image |
| RbShape.RotationsInOrder | network/wba_event/rbtree.c:41-85 | rotations keep the in-order sequence |
| RbTree.RbRoot.InsertStep | network/wba_event/rbtree.c:91-147 | one round leaves a red focus strictly nearer the root whose red parent, if any, is the only defect, with the same in-order sequence |
| RbTree.RbRoot.InsertColor | network/wba_event/rbtree.c:87-150 | from a tree whose only defect may be a red focus below a red parent, or a red root, a red-black tree with the same in-order sequence |
| RbShape.InsertFixLeftBalanced | network/wba_event/rbtree.c:109-120 | the ending rotations of the left cases restore balance with a black top and unchanged black height |
| RbShape.InsertFixRightBalanced | network/wba_event/rbtree.c:134-145 | the same for the right cases |
| RbShape.PushedDownBalanced | network/wba_event/rbtree.c:99-106 | recolouring below a red uncle keeps black heights and moves the defect up |
| RbTree.RbRoot.LinkNode | network/wba_event/rbtree.h:206-213 | a red leaf at any empty child position |
| RbTree.RbRoot.Insert | network/wba_event/wba_evloop.c:262-263 | linking at any empty position and repairing gives a red-black tree whose in-order sequence has the new node exactly at that position |
| RbTree.RbRoot.EraseRedSiblingLeft | network/wba_event/rbtree.c:162-168 | the rotation hangs the focus below a red parent, still exactly one black node short, with the same in-order sequence |
| RbTree.RbRoot.EraseRedSiblingRight | network/wba_event/rbtree.c:196-202 | the mirror image |
| RbTree.RbRoot.EraseBlackSiblingLeft | network/wba_event/rbtree.c:169-191 | with a black sibling either the missing black is supplied and the tree is red-black, or the defect moves up |
| RbTree.RbRoot.EraseBlackSiblingRight | network/wba_event/rbtree.c:203-225 | the mirror image |
| RbTree.RbRoot.EraseStep | network/wba_event/rbtree.c:157-227 | one round: done with a red-black tree, or a focus still one black short that is red or strictly nearer the root; in-order sequence unchanged |
| RbTree.RbRoot.EraseColor | network/wba_event/rbtree.c:152-230 | terminates and turns any tree that lacks one black node below the focus into a red-black tree with the same in-order sequence |
| RbShape.EraseFixLeftBalanced | network/wba_event/rbtree.c:178-188 | the ending rotations supply the missing black node |
| RbShape.EraseFixRightBalanced | network/wba_event/rbtree.c:212-222 | the mirror image |
| RbTree.RbRoot.Transplant | network/wba_event/rbtree.c:243-276 | the successor node itself takes the erased node's place, colour and children; its own child moves up; the memory holds that tree |
| RbTree.RbRoot.Splice | network/wba_event/rbtree.c:279-292 | a node with at most one child is replaced by it |
| RbTree.RbRoot.Unlink | network/wba_event/rbtree.c:237-292 | the in-order sequence loses exactly the node, and at most one black node is missing at a named place |
| RbTree.RbRoot.Erase | network/wba_event/rbtree.c:232-297 | for every red-black tree and every node in it: terminates, leaves a red-black tree with mirrored links, and the in-order sequence is the old one minus that node |
| RbTree.RbRoot.First | network/wba_event/rbtree.c:370-380 | the first node in order, null for the empty tree |
| RbTree.RbRoot.Last | network/wba_event/rbtree.c:382-392 | the last node in order, null for the empty tree |
| RbTree.RbRoot.Next | network/wba_event/rbtree.c:394-420 | the in-order successor, null after the last node |
| RbTree.RbRoot.Prev | network/wba_event/rbtree.c:422-444 | the in-order predecessor, null before the first node |
| RbTree.RbRoot.Walk | network/wba_event/rbtree.c:370-420 | walking from first by next visits every node exactly once in order and ends |
| Pointers.PredInvertsSucc | network/wba_event/rbtree.c:394-444 | y follows x exactly when x precedes y |
| Pointers.SuccSurvivesRemove | network/wba_event/wba_evloop.c:566-576 | the successor taken before an erase is the node that follows the old position afterwards |
| RbShape.HeightBound | network/wba_event/wba_evloop.c:251-260 | a red-black tree of n nodes has height at most 2*log2(n+1) |
| Timevals.TimeAdd | network/wba_event/wba_evloop.c:90-98 | adds microseconds exactly; normalised times give a normalised sum |
| Timevals.TimeSub | network/wba_event/wba_evloop.c:100-108 | subtracts microseconds exactly; normalised times give a normalised difference |
| Timevals.TimeCmp | network/wba_event/wba_evloop.c:110-127 | zero exactly for equal times; on normalised times the order of their microseconds |
| EventSpec.InsertTimerAt | network/wba_event/wba_evloop.c:251-260 | a new timer lands behind every timer that is not later and before every later one |
| TimerOrder.TimersStablySorted | network/wba_event/wba_evloop.c:240-276 | after any run of timer adds and removes the timers are the live ones, each once, by deadline, and equal deadlines keep the order in which they were armed |
| TimerOrder.StableOrderUnique | network/wba_event/wba_evloop.c:240-276 | only one order of the live timers has that property |
| EventBase.EvtBase.Descend | network/wba_event/wba_evloop.c:251-260 | finds the empty link between the timers not later and the later ones in at most 2*log2(n+1) comparisons |
| EventBase.EvtBase.AddTimeout | network/wba_event/wba_evloop.c:240-267 | the linked tree afterwards denotes the stable sorted insertion; flag and count follow |
| EventBase.EvtBase.RemoveTimeout | network/wba_event/wba_evloop.c:269-276 | the tree loses exactly that timer; flag and count follow |
| EventBase.EvtBase.AddActive | network/wba_event/wba_evloop.c:129-141 | joins the tail of the active ring with its result unless already active; links, flag and count agree |
| EventBase.EvtBase.RemoveActive | network/wba_event/wba_evloop.c:143-150 | leaves the active ring, whose other entries stay linked in order |
| EventBase.EvtBase.MapAdd | network/wba_event/wba_evloop.c:169-191 | registers with epoll and joins its slot ring, or reports failure or nothing to do without a trace |
| EventBase.EvtBase.MapRemove | network/wba_event/wba_evloop.c:198-220 | leaves its slot ring even when epoll no longer knows the descriptor |
| EventBase.EvtBase.Reschedule | network/wba_event/wba_evloop.c:416-431 | the timer moves to where its new deadline belongs; a relative time of a persistent event becomes its interval |
| EventBase.EvtBase.Register | network/wba_event/wba_evloop.c:407-413 | sets REG unless epoll refuses, and then changes nothing |
| EventBase.EvtBase.EventAdd | network/wba_event/wba_evloop.c:391-436 | new base and return code for every combination of flags, time and epoll answer |
| EventLaws.AddLaw | network/wba_event/wba_evloop.c:407-433 | an event added with a time is registered and has a timer at exactly now plus that time, persistent or not; the time becomes the interval of a persistent one only; a newly registered polling event joins the end of slot fd mod 32 and is watched; no other event and no other timer changes |
| EventLaws.AddedFiresIff | network/wba_event/wba_evloop.c:422-431 | it times out at time t exactly when now plus that time is not later than t |
| EventLaws.AddUntimedLaw | network/wba_event/wba_evloop.c:407-413 | without a time only the registration changes |
| EventLaws.AddRefusedLaw | network/wba_event/wba_evloop.c:438-444 | a negative time, or a descriptor that epoll does not take, changes nothing |
| EventLaws.AddCode | network/wba_event/wba_evloop.c:402-435 | returns 1 exactly when a time was set, a polling event was registered or the event was registered before; registering a timer-only event without a time returns 0 |
| EventBase.EvtBase.EventDel | network/wba_event/wba_evloop.c:446-475 | the event leaves tree, active list and slot list; return code |
| EventLaws.DelLaw | network/wba_event/wba_evloop.c:446-475 | the event is off every list, keeps its times and result, and is no longer watched if it was in a slot list; no other event changes |
| EventLaws.DelCode | network/wba_event/wba_evloop.c:456-474 | returns 1 exactly for an idle event or after a successful unregistration |
| EventLaws.FreeLaw | network/wba_event/wba_evloop.c:482-489 | the same, and the event is gone |
| EventLaws.NewLaw | network/wba_event/wba_evloop.c:330-360 | a new event is idle, without times, with its bits and its descriptor, or -1 for a negative one |
| EventLaws.AssignLaw | network/wba_event/wba_evloop.c:362-385 | a registered event is left alone, any other gets a blank record |
| EventLaws.CloseLaw | network/wba_event/wba_evloop.c:207-212 | a closed descriptor leaves the epoll set and nothing else changes |
| EventLaws.NewBaseLaw | network/wba_event/wba_evloop.c:278-322 | a new base has 32 empty slot lists, no timers and nothing active or watched |
| EventLaws.SlotsShared | network/wba_event/wba_evloop.c:152-162 | two descriptors share a slot exactly when they differ by a multiple of 32 |
| EventLaws.SlotIff | network/wba_event/wba_evloop.c:169-191 | an event is in slot i exactly when it is registered, waits for reading, writing or closing, and its descriptor is i modulo 32 |
| EventLaws.AddActiveLaw | network/wba_event/wba_evloop.c:129-141 | an active event keeps its result, another joins the tail with the new one |
| EventLaws.AddTimeoutLaw | network/wba_event/wba_evloop.c:240-267 | a running timer is left alone, another is inserted without moving any |
| EventLaws.MapAddLaw | network/wba_event/wba_evloop.c:169-191 | success joins the end of the slot list, is watched and counted; otherwise nothing changes |
| EventLaws.MapAddCode | network/wba_event/wba_evloop.c:164-191 | 0 for an event that does not poll, -1 for a refusal, 1 for success |
| EventLaws.MapRemoveLaw | network/wba_event/wba_evloop.c:198-220 | a polling event leaves its slot list, is no longer watched nor counted |
| EventLaws.MapRemoveCode | network/wba_event/wba_evloop.c:193-220 | -1 exactly when epoll no longer knew the descriptor |
| EventInv.DelSteps | network/wba_event/wba_evloop.c:461-472 | the three removals in sequence give one base from which the event is gone everywhere |
| EventInv.DelInv | network/wba_event/wba_evloop.c:446-475 | deleting keeps every clause of the consistency invariant |
| EventInv.AddInv | network/wba_event/wba_evloop.c:391-436 | adding or re-adding keeps every clause of the consistency invariant, also when epoll refuses |
| EventInv.RegisteredInv | network/wba_event/wba_evloop.c:407-413 | registration keeps it |
| EventInv.RescheduledInv | network/wba_event/wba_evloop.c:415-433 | moving a timer keeps it |
| EventRuns.OpInv | network/wba_event/wba_evloop.c:329-489 | every user operation that callers may make keeps the invariant |
| EventRuns.AssignKeepsInvIff | network/wba_event/wba_evloop.c:362-385 | re-assigning an event keeps the invariant exactly when the event is registered, and so refused, or not active |
| EventWitness.AssignBreaksTimedOut | network/wba_event/wba_evloop.c:368-376 | every event that timed out and waits for its callback is such an event: re-assigning it breaks the invariant |
| EventWitness.CallbackAssignBreaks | network/wba_event/wba_evloop.c:589-611 | in every pass, a callback that re-assigns an unregistered event waiting behind it breaks the invariant |
| EventWitness.AssignBreaks | network/wba_event/wba_evloop.c:368-376 | a run from a new base in which two timers are due together and the first one's callback does that to the second |
| EventBase.EvtBase.AssignDestroysActiveList | network/wba_event/wba_evloop.c:376-376 | zeroing an event on the active ring leaves no list at all at the active head |
| EventLoop.ReachableInv | network/wba_event/wba_evloop.c:129-276 | in every state reached from a new base by any run of operations, reports, timeouts and passes: ACTIVE iff on the active list once, TIMEOUT iff in the tree, TIMEOUT implies REG, in slot fd mod 32 iff REG with fd >= 0 and an I/O bit, and all three counters exact |
| EventLoop.StepInv | network/wba_event/wba_evloop.c:553-676 | each single step keeps it |
| EventWatch.ReachableWatched | network/wba_event/wba_evloop.c:169-220 | in every state reached from a new base without closing descriptors, epoll watches exactly the descriptors of the events in slot lists, and no two of them share one |
| EventWatch.DelUnwatchesIff | network/wba_event/wba_evloop.c:67-75 | deleting an event keeps another one's descriptor watched exactly when the first is not in a slot list under the same descriptor |
| EventWitness.StaleEventUnwatches | network/wba_event/wba_evloop.c:207-213 | a run with a closed and reused descriptor after which deleting the stale event unwatches the live one |
| EventLoop.ReadyExact | network/wba_event/wba_evloop.c:222-238 | exactly the idle events of the slot with a common bit join the active list, in slot order, with their common bits; nothing else changes |
| EventLoop.ReadyByFdIff | network/wba_event/wba_evloop.c:232-237 | a report wakes events of its own descriptor only, exactly when no idle event with a common bit shares the slot under another descriptor |
| EventWitness.ReadyWakesOtherFd | network/wba_event/wba_evloop.c:232-237 | a run that registers readers of descriptors 1 and 33; epoll watches both, and a report for 1 wakes both |
| EventBase.EvtBase.MapActive | network/wba_event/wba_evloop.c:222-238 | the walk along the slot ring computes that activation |
| EventRuns.ExpireExact | network/wba_event/wba_evloop.c:553-581 | exactly the timers not later than now leave the tree; they form the tail of the active list in deadline order, each once with result TIMEOUT even if active before; every remaining timer is later; no other event changes |
| EventBase.EvtBase.ProcessTimeout | network/wba_event/wba_evloop.c:553-581 | the walk that erases while it iterates computes that expiry and counts it |
| EventRuns.OpsLeaveWaiting | network/wba_event/wba_evloop.c:589-611 | a callback's operations take exactly the events they delete or free off the active list; the others stay in order with their descriptors and results, and with their whole record unless added again; the saved next entry stays the first |
| EventRuns.PassServesEachOnce | network/wba_event/wba_evloop.c:583-616 | a pass calls exactly the events of `Called`, each with the descriptor and result it had when the pass began, whatever the callbacks do, and empties the active list |
| EventRuns.CalledIff | network/wba_event/wba_evloop.c:589-612 | an active event is called exactly when no callback before its own turn deleted or freed it |
| EventRuns.CalledIn | network/wba_event/wba_evloop.c:589-612 | nobody is called twice, and calls come in list order |
| EventRuns.CalledAll | network/wba_event/wba_evloop.c:589-612 | when no callback removes a waiting event, every active event is called |
| EventBase.EvtBase.SavedNextGone | network/wba_event/wba_evloop.c:589-589 | an entry that is deleted after it was saved as the next one leads to itself for ever, never to the head |
| EventBase.EvtBase.SavedNextEnds | network/wba_event/wba_evloop.c:589-589 | every entry still on the active ring leads to the head |
| EventBase.EvtBase.ServeEvent | network/wba_event/wba_evloop.c:590-609 | a persistent event is rescheduled, any other deleted |
| EventBase.EvtBase.ProcessActive | network/wba_event/wba_evloop.c:583-616 | the loop along the active ring with the saved next entry computes that pass, its calls and their number, also while callbacks delete waiting events |
| EventLaws.ServeOnceLaw | network/wba_event/wba_evloop.c:607-609 | an event that is not persistent is off every list when its callback runs |
| EventLaws.ServeSteadyLaw | network/wba_event/wba_evloop.c:590-593 | a persistent event without an interval only leaves the active list: registration, slot lists, timers and epoll stay |
| EventLaws.ServeIntervalLaw | network/wba_event/wba_evloop.c:590-606 | one with an interval has a timer one interval after its old deadline if it timed out at most one interval ago, else one interval from now |
| EventLaws.ServeRefusedLaw | network/wba_event/wba_evloop.c:605-605 | one that epoll does not take again only leaves the active list |
| EventBase.PassStep | network/wba_event/wba_evloop.c:589-612 | a pass serves the head, runs its callback on the result, and goes on with what is left |
| EventLaws.OpsAppend | network/wba_event/wba_evloop.c:611-611 | a callback's operations take effect one after the other |
| EventPersist.StaysRegistered | network/wba_event/wba_evloop.c:583-616 | over any run a persistent event without a time stays registered for the same descriptor and bits, however often it is called back, until it is deleted or given a time |
| EventPersist.LoopStaysRegistered | network/wba_event/wba_evloop.c:618-676 | the same over whole loops, which with such an event that polls never report an empty base |
| EventPersist.StaysPending | network/wba_event/wba_evloop.c:583-616 | over any run in which each serving of the event finds it registered or registers it again, a persistent event with a non-zero interval stays scheduled or waiting for its callback until it is deleted or its interval cancelled |
| EventPersist.LoopStaysPending | network/wba_event/wba_evloop.c:618-676 | the same over whole loops, which then never report an empty base |
| EventLoop.LoopIsRun | network/wba_event/wba_evloop.c:630-673 | whatever the loop reaches, a run of reports, timeouts and passes reaches |
| EventPersist.ServedPendingIff | network/wba_event/wba_evloop.c:590-606 | an active persistent event with an interval survives its turn exactly when it is registered or can be registered |
| EventWitness.RefusalLosesTimedOut | network/wba_event/wba_evloop.c:576-605 | a refusal loses every persistent I/O event that timed out |
| EventWitness.RefusalLoses | network/wba_event/wba_evloop.c:576-605 | a run from a new base on which that happens |
| EventTimes.DeadlineWindowIff | network/wba_event/wba_evloop.c:593-605 | a new deadline lies between now and now plus the interval exactly when the event did not time out or its old deadline has passed |
| EventRuns.NoDrift | network/wba_event/wba_evloop.c:595-604 | a timed out event gets its old deadline plus the interval exactly when it is served no more than a whole interval late |
| EventTimes.NextDeadlineLaw | network/wba_event/wba_evloop.c:593-604 | the next deadline, exactly, for timed out, late and I/O-woken events |
| EventTimes.RunNormal | network/wba_event/wba_evloop.c:420-431 | runs whose clock readings and arguments are normalised keep every deadline and interval normalised |
| EventTimes.LoopKeepsTime | network/wba_event/wba_evloop.c:589-669 | in every iteration of every loop with a normalised clock that does not go back, every persistent event that is served, admitted and not added again meanwhile gets a deadline between now and now plus its interval; a timed out one gets exactly its old deadline plus the interval if and only if it is at most one interval late |
| EventTimes.ProgramKeepsTime | network/wba_event/wba_evloop.c:618-676 | the same for every program: any operations on a new base, then the loop |
| EventTimes.ReaddedLeavesWindow | network/wba_event/wba_evloop.c:595-605 | a timed out event added again while it waits, and served before that time, leaves the window |
| EventWitness.ReaddedDrifts | network/wba_event/wba_evloop.c:589-611 | a run from a new base and one loop iteration in which two timers are due together, the first one's callback adds the second again, and the second leaves its window at its turn |
| EventLoop.FiredPast | network/wba_event/wba_evloop.c:647-669 | when a pass of the loop begins, every event that timed out has a deadline not later than the clock |
| EventLoop.WaitCoversGapIff | network/wba_event/wba_evloop.c:541-550 | the wait is 0 for a passed deadline; otherwise it exceeds the gap by more than 0 and at most 1000 microseconds exactly when the rounded gap fits in 32 bits |
| EventLoop.WaitWraps | network/wba_event/wba_evloop.c:548-550 | a gap of 2^32-1 milliseconds gives a wait of 0 |
| EventTimes.WaitThenFire | network/wba_event/wba_evloop.c:527-581 | in every state reached with normalised inputs, at least one event times out after a full wait that fits in 32 bits |
| EventBase.EvtBase.NextTimeout | network/wba_event/wba_evloop.c:527-551 | the wait for the earliest deadline, or the default without timers |
| EventLoop.EmptyExitIff | network/wba_event/wba_evloop.c:631-634 | the two counters that the loop looks at are both zero exactly when all slot lists, the timer tree and the active list are empty |
| EventLoop.LoopOutcome | network/wba_event/wba_evloop.c:630-673 | over whole loops the base stays consistent, nothing stays active between iterations, and the loop reports an empty base exactly when it is empty |
| EventLaws.TranslateLaw | network/wba_event/wba_evloop.c:651-660 | In, Hup or Err stand for reading, Out, Hup or Err for writing, Rdhup without Hup and Err for closing |
| EventLaws.ReportLaw | network/wba_event/wba_evloop.c:647-667 | a report makes an idle event of its slot active exactly when the event waits for something reported, and records exactly those bits |
| EventLaws.ReportsAppend | network/wba_event/wba_evloop.c:647-667 | reports are handled one after the other |
| EventLaws.NegativeFd | network/wba_event/wba_evloop.c:156-158 | a report for a negative descriptor does nothing |
| EventLaws.WokenInOrder | network/wba_event/wba_evloop.c:232-237 | events are woken in the order of their slot list |
| EventLaws.DefaultWait | network/wba_event/wba_evloop.c:533-538 | without timers the wait is 60000 milliseconds |
| EventLaws.OneIterationLaw | network/wba_event/wba_evloop.c:638-670 | one iteration handles the reports, then the timeouts, then the pass, and makes exactly the pass's calls |
| EventLaws.LoopAppend | network/wba_event/wba_evloop.c:630-673 | more iterations go on from the base reached, with their calls after the earlier ones |
| EventLaws.LoopStops | network/wba_event/wba_evloop.c:631-645 | an empty base and an error of epoll_wait end the loop at once |
| EventBase.EvtBase.DispatchReports | network/wba_event/wba_evloop.c:647-667 | epoll's report reaches the slots with the translated bits |
| EventBase.EvtBase.Run | network/wba_event/wba_evloop.c:618-676 | the loop computes that outcome and exactly those calls for every environment |
| EventRuns.AllHeldDeleted | network/wba_event/wba_evloop.c:502-517 | once slots and tree are empty, the deleted events are all that were held and the counters are zero |
| EventBase.EvtBase.FreeBase | network/wba_event/wba_evloop.c:492-524 | deletes each event found in a slot list or the tree exactly once, counts each deletion, so that an event in both counts once, leaves all slot lists and the tree empty and the count zero |
| EventBase.EvtBase.Callback | network/wba_event/wba_evloop.c:611-611 | a callback runs its operations in place |
| ListHead.Heads.constructor | network/wba_event/list.h:29-31 | every head starts as an empty list |
| ListHead.Heads.Add | network/wba_event/list.h:57-60 | the entry becomes the first of its list, linked in both directions; all other lists are unchanged |
| ListHead.Heads.AddTail | network/wba_event/list.h:70-73 | the entry becomes the last |
| ListHead.Heads.DelInit | network/wba_event/list.h:104-108 | the entry leaves its list, found from its own links alone, and is linked to itself; all other lists are unchanged |
| ListHead.Heads.Empty | network/wba_event/list.h:137-140 | true exactly for a list without entries |
| ListHead.Heads.First | network/wba_event/list.h:225-228 | the first entry, none for an empty list |
| ListHead.Heads.Next | network/wba_event/list.h:225-228 | the following entry, none when the head follows |
| ListHead.Heads.DeleteEach | network/wba_event/list.h:237-241 | safe iteration with deletion meets every entry once, in order, and leaves the list empty and the others unchanged |
| ListHead.RingUnique | network/wba_event/list.h:20-22 | the links determine the entries |
| ListHead.WipeBreaksRing | network/wba_event/wba_evloop.c:376-376 | zeroing an entry's links destroys the list it is on |
| SkipList.SkList.Search | c_data_structure/skiplist/skiplist.c:37-80 | finds an object exactly when some node has an equal key, namely the first match of the highest level that has one; otherwise the position is the last node with a smaller key, or the head |
| SkipList.SkList.FoundFirstIff | c_data_structure/skiplist/skiplist.c:56-73 | the node found is the first of all matches exactly when that one reaches the level of the find |
| SkipList.SearchFindsSecond | c_data_structure/skiplist/skiplist.c:56-73 | for every order, two equal keys of which only the second reaches level 1: the search finds the second |
| SkipList.SkList.RandLevel | c_data_structure/skiplist/skiplist.c:92-108 | the height is between 1 and the maximum and is reached exactly while the number is within the share of each level; the level count rises to it |
| SkipList.ShareHalves | c_data_structure/skiplist/skiplist.c:96-102 | level 1 has all random numbers, each level up half of the one below |
| SkipList.SkList.Insert | c_data_structure/skiplist/skiplist.c:110-152 | the node lands behind all equal or smaller keys, on exactly the levels below the height that its random number gives; every level stays sorted and linked, prev links reverse level 0, level and size stay exact |
| SkipList.SkList.Delete | c_data_structure/skiplist/skiplist.c:154-197 | each level drops its own first match; the destroyed node is the first match of level 0 and is on no level afterwards; without a match nothing changes; the invariant is kept with duplicates |
| SkipLevels.HitOffAllLevels | c_data_structure/skiplist/skiplist.c:169-194 | the node destroyed on level 0 is the one that every higher level holding it has dropped |
| SkipLevels.UnlinkStep | c_data_structure/skiplist/skiplist.c:182-189 | one level's unlinking keeps all levels linked, prev links and the level count |
| SkipLevels.LinkingStep | c_data_structure/skiplist/skiplist.c:140-147 | one level's linking keeps all levels and prev links |
| SkipList.SkList.LevelSorted | c_data_structure/skiplist/skiplist.c:110-197 | in every valid list each level is sorted and a subsequence of the level below |
| SkipList.SkList.Level0Is | c_data_structure/skiplist/skiplist.c:143-146 | level 0 is the whole list, linked forwards and, by prev, backwards |
| SkipList.SkList.FreeAll | c_data_structure/skiplist/skiplist.c:226-242 | destroys every node exactly once, in order |
| STree.Helper.AddPosInfo | cpp_console/stree.h:82-99 | every child's record names parent and both neighbours, later entries winning; an empty list leaves no record |
| STree.CallsDescribe | cpp_console/stree.h:82-99 | after one call per parent, with each key in at most one list, the records say exactly what the child lists say |
| STree.CallDescribes | cpp_console/stree.h:82-99 | a call for a new parent keeps the records saying exactly what the child lists say |
| STree.CallOrderFree | cpp_console/stree.h:82-99 | calls with the same child lists give the same records in any order |
| STree.Tree.RightmostChild | cpp_console/stree.h:245-255 | the last of the linked children, or none |
| STree.Tree.AddChild | cpp_console/stree.h:209-243 | the links that each of the five cases sets, with a lone child appended behind the children already linked |
| STree.AttachLast | cpp_console/stree.h:227-237 | without neighbours the node becomes the last child of any list of children |
| STree.AttachAfter | cpp_console/stree.h:218-221 | with only a left neighbour at the end it becomes the last |
| STree.AttachBefore | cpp_console/stree.h:222-226 | with only a right neighbour at the front it becomes the first |
| STree.AttachBetween | cpp_console/stree.h:213-217 | with both it goes between them |
| STree.AttachRoot | cpp_console/stree.h:239-242 | without a parent no links change |
| STree.Tree.AddNode | cpp_console/stree.h:135-143 | adding one more key keeps every node's fields what the added keys' records say |
| STree.Tree.Build | cpp_console/stree.h:145-158 | for every well-formed description, key order and call order: exactly the described ordered tree in first-child/next-sibling form with the keys' data; no tree for a lone root |
| STree.Tree.DepthTraversal | cpp_console/stree.h:257-280 | the stack yields the recursive preorder with depths, appended to the result, and its length |
| STree.Tree.BreadthTraversal | cpp_console/stree.h:282-300 | the queue yields the levels one after the other, appended to the result, and its length |
| RoseTrees.PreorderLaw | cpp_console/stree.h:265-278 | in preorder a node comes right before its children's preorder, one deeper, and that before its siblings' |
| RoseTrees.SameLevels | cpp_console/stree.h:257-300 | at every depth both traversals list the same nodes in the same order, the roots left to right |
| RoseTrees.QueueIsLevels | cpp_console/stree.h:287-298 | a queue started with one level lists level after level |
| RoseTrees.LevelsMonotone | cpp_console/stree.h:282-300 | depths never decrease in breadth order |
| RoseTrees.SameNodes | cpp_console/stree.h:257-300 | both traversals list the same nodes with the same depths |
| WbaStr.WStr.NewLen | c_data_structure/wba_str/wba_str.c:7-27 | the given bytes or zeros, exact capacity, terminated |
| WbaStr.WStr.New | c_data_structure/wba_str/wba_str.c:29-44 | empty, with the capacity asked for, terminated |
| WbaStr.WStr.Clear | c_data_structure/wba_str/wba_str.c:62-68 | empty with unchanged capacity |
| WbaStr.WStr.Grow | c_data_structure/wba_str/wba_str.c:70-85 | never shrinks; keeps the text and the terminator |
| WbaStr.WStr.Reserve | c_data_structure/wba_str/wba_str.c:91-102 | room for the need, doubled below 1 MiB and 1 MiB more above |
| WbaStr.WStr.NCpy | c_data_structure/wba_str/wba_str.c:105-119 | the text becomes exactly the argument, with the capacity unchanged when it fits; an empty or null argument changes nothing |
| WbaStr.WStr.NCat | c_data_structure/wba_str/wba_str.c:132-146 | the text is the old one followed by the argument, with the capacity unchanged when it fits; terminated |
| WbaStr.AppendsConcatenate | c_data_structure/wba_str/wba_str.c:132-146 | any sequence of appends gives the concatenation, within capacity |
| WbaStr.AppendsAmortised | c_data_structure/wba_str/wba_str.c:70-146 | the old capacities of all reallocations add up to at most twice the final length, up to 2 MiB |
| WbaStr.AmortisationEnds | c_data_structure/wba_str/wba_str.c:97-101 | for every final length from 2 MiB + 92 on there are appends that exceed the factor two |
| WbaStr.AppendsBounded | c_data_structure/wba_str/wba_str.c:91-102 | for all lengths that sum is at most cap + cap^2 / 2 MiB |
| WbaStr.MakeToken | c_data_structure/wba_str/wba_str.c:262-266 | a token string has exactly the bytes and needs no reallocation |
| WbaStr.RoomForToken | c_data_structure/wba_str/wba_str.c:253-261 | doubling keeps the stored tokens and always leaves room for this one and the next |
| WbaStr.StoreToken | c_data_structure/wba_str/wba_str.c:262-267 | the token goes to the next slot as a new object with a buffer of its own |
| WbaStr.NTok | c_data_structure/wba_str/wba_str.c:211-272 | null exactly without text or separators; else the tokens in order, each in a new string object of its own with its own buffer, never outside the slot array |
| Tokens.TokensExact | c_data_structure/wba_str/wba_str.c:234-271 | the tokens are the texts of exactly the maximal runs of non-separators, left to right |
| Tokens.TokensUnique | c_data_structure/wba_str/wba_str.c:234-271 | nothing else fits that description |
| Tokens.Split | cpp_console/sstring.h:14-40 | keeping empty pieces, exactly the separator-free pieces that the separators cut the text into, one more than there are separators; dropping them, exactly the maximal runs; nothing for the empty text |
| Tokens.SeparatorsAre | cpp_console/sstring.h:25-25 | the separators are exactly the bytes of the text that are separators |
| Tokens.SplitFindsTokens | cpp_console/sstring.h:14-40 | the splitter without empty pieces agrees with wba_strntok's tokens on every input |
| Tokens.NothingToSplit | cpp_console/sstring.h:23-33 | without separators the only piece is the whole text |
| Tokens.PiecesRejoin | cpp_console/sstring.h:23-38 | pieces and separators, alternating, give the text back |
| Tokens.PiecesFree | cpp_console/sstring.h:23-33 | no piece holds a separator |

## Left out

- Heap objects as nodes: tree, list and skip-list nodes are addresses in an explicit memory map of the class that owns them, so aliasing between nodes is modelled, and allocation failure is not.
- epoll and the clock are inputs: the set of watched descriptors, a success answer per registration, a time per reading; a failing clock read is not modelled.
- wba_event_loop is driven by a finite list of iterations; a callback that calls the loop again, frees the base, or removes the saved next entry is excluded.
- EventRuns.OpInv: Assign is limited to events that are registered or idle, as AssignKeepsInvIff shows to be necessary.
- WbaStr.AmortisationEnds: the lengths between 2 MiB and 2 MiB + 92 are left open; the factor two is proved below and refuted above.
- The INIT flag, callback pointers and arguments, debug output, and the 32-bit width of the counters.
- rb_augment_insert, rb_augment_erase_begin, rb_augment_erase_end and rb_replace_node: the event loop does not use them.
- list_move, list_splice and the other list helpers: not used by the event loop. `Heads.Add`, `Heads.Empty` and `Heads.DeleteEach` model list_add, list_empty and the safe deleting loop beyond what the event loop needs.
- The skip list's null-argument guards, `max_level <= 0`, the `level` field of a node, and `int` overflow of the doubling for more than 30 levels.
- The skip list takes the address of the new node as an argument; two live nodes never share one.
- stree.h: descriptions that are not a tree (a key in two child lists, two calls for one parent, keys without data), `print`, and the uninitialised root pointer, which starts as null here.
- STree.Tree.RightmostChild: the children are named as a ghost argument; a cyclic sibling chain is not modelled.
- wba_str: source text that overlaps the string's own buffer, `size_t` overflow, wba_strcat_vprintf; `s32` overflow of the slot count in wba_strntok.
- skiplist.r.c, slog, stop watches, ICU and Boost wrappers, socket examples, preprocess and the design pattern demonstrations: only easy members, or behaviour that is not visible in the repository.
