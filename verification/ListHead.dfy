/** The circular doubly linked lists of list.h, which hold the slot lists and the active list of
    the event base.  The links are embedded in list heads and in list entries. */
module ListHead {
  import opened Sequences
  import opened Pointers

  /** Where a link leads: nowhere in zeroed memory, else to a head or to an entry. */
  datatype Addr = Nowhere | Head(index: nat) | Entry(id: nat)

  datatype Link = Link(next: Addr, prev: Addr)

  type Links = map<Addr, Link>

  ghost predicate LinkedAt(mem: Links, c: seq<Addr>, i: int) {
    && 0 <= i < |c| && c[i] in mem
    && mem[c[i]].next == c[if i + 1 < |c| then i + 1 else 0]
    && mem[c[i]].prev == c[if i > 0 then i - 1 else |c| - 1]
  }

  ghost predicate Different(c: seq<Addr>) { forall i, j :: 0 <= i < j < |c| ==> c[i] != c[j] }

  /** The nodes c are linked in a circle, in both directions. */
  ghost predicate Cycle(mem: Links, c: seq<Addr>) {
    c != [] && Different(c) && forall i :: 0 <= i < |c| ==> LinkedAt(mem, c, i)
  }

  /** The head and the entries of a list. */
  ghost function Nodes(h: nat, s: seq<nat>): (c: seq<Addr>)
    ensures |c| == |s| + 1
  {
    seq(|s| + 1, i requires 0 <= i <= |s| => if i == 0 then Head(h) else Entry(s[i - 1]))
  }

  /** The list with head h has the entries s. */
  ghost predicate Ring(mem: Links, h: nat, s: seq<nat>) { Cycle(mem, Nodes(h, s)) }

  /** What __list_add does, link by link. */
  function Inserted(mem: Links, x: Addr, prev: Addr, next: Addr): Links
    requires x in mem && prev in mem && next in mem
  {
    var m1 := mem[next := mem[next].(prev := x)];
    var m2 := m1[x := m1[x].(next := next)];
    var m3 := m2[x := m2[x].(prev := prev)];
    m3[prev := m3[prev].(next := x)]
  }

  /** What __list_del does. */
  function Bypassed(mem: Links, prev: Addr, next: Addr): Links
    requires prev in mem && next in mem
  {
    var m1 := mem[next := mem[next].(prev := prev)];
    m1[prev := m1[prev].(next := next)]
  }

  // ----- circles -----

  /** Circles whose nodes are not written stay as they are. */
  lemma CycleFrame(mem: Links, mem': Links, c: seq<Addr>)
    requires Cycle(mem, c) && forall x :: x in c && x in mem ==> x in mem' && mem'[x] == mem[x]
    ensures Cycle(mem', c)
  {
    forall i | 0 <= i < |c| ensures LinkedAt(mem', c, i) {
      assert LinkedAt(mem, c, i) && c[i] in c;
    }
  }

  lemma {:induction false} CycleUnique(mem: Links, c: seq<Addr>, c': seq<Addr>, n: nat)
    requires Cycle(mem, c) && Cycle(mem, c') && c[0] == c'[0] && n < |c|
    ensures n < |c'| && c[n] == c'[n]
  {
    if n > 0 {
      CycleUnique(mem, c, c', n - 1);
      assert LinkedAt(mem, c, n - 1) && LinkedAt(mem, c', n - 1);
      assert c[n] != c[0];
    }
  }

  /** The links determine the entries: one head has one list. */
  lemma RingUnique(mem: Links, h: nat, s: seq<nat>, s': seq<nat>)
    requires Ring(mem, h, s) && Ring(mem, h, s')
    ensures s == s'
  {
    var c, c' := Nodes(h, s), Nodes(h, s');
    CycleUnique(mem, c, c', |s|);
    CycleUnique(mem, c', c, |s'|);
    forall i | 0 <= i < |s| ensures s[i] == s'[i] {
      CycleUnique(mem, c, c', i + 1);
      assert c[i + 1] == Entry(s[i]) && c'[i + 1] == Entry(s'[i]);
    }
  }

  ghost function Threaded(c: seq<Addr>, k: nat, x: Addr): seq<Addr>
    requires k <= |c|
  {
    c[..k] + [x] + c[k..]
  }

  ghost function NextOf(c: seq<Addr>, k: nat): Addr
    requires k <= |c| && c != []
  {
    c[if k < |c| then k else 0]
  }

  lemma InsertedAt(mem: Links, c: seq<Addr>, k: nat, x: Addr, i: nat)
    requires Cycle(mem, c) && 1 <= k <= |c| && x in mem && x !in c && i <= |c|
    requires c[k - 1] in mem && NextOf(c, k) in mem
    ensures LinkedAt(Inserted(mem, x, c[k - 1], NextOf(c, k)), Threaded(c, k, x), i)
  {
    if i < k {
      assert LinkedAt(mem, c, i);
    } else if i > k {
      assert LinkedAt(mem, c, i - 1);
    }
  }

  lemma ThreadedDifferent(c: seq<Addr>, k: nat, x: Addr)
    requires Different(c) && k <= |c| && x !in c
    ensures Different(Threaded(c, k, x))
  {
  }

  /** Inserting x behind the k-th node. */
  lemma InsertedCycle(mem: Links, c: seq<Addr>, k: nat, x: Addr)
    requires Cycle(mem, c) && 1 <= k <= |c| && x in mem && x !in c
    ensures c[k - 1] in mem && NextOf(c, k) in mem
    ensures mem[c[k - 1]].next == NextOf(c, k) && mem[NextOf(c, k)].prev == c[k - 1]
    ensures Cycle(Inserted(mem, x, c[k - 1], NextOf(c, k)), Threaded(c, k, x))
  {
    assert LinkedAt(mem, c, k - 1);
    assert LinkedAt(mem, c, if k < |c| then k else 0);
    ThreadedDifferent(c, k, x);
    var mem', d := Inserted(mem, x, c[k - 1], NextOf(c, k)), Threaded(c, k, x);
    forall i | 0 <= i <= |c| ensures LinkedAt(mem', d, i) {
      InsertedAt(mem, c, k, x, i);
    }
  }

  lemma BypassedAt(mem: Links, c: seq<Addr>, k: nat, x: Addr, i: nat)
    requires Different(c) && 1 <= k <= |c| && x !in c && i < |c| && Cycle(mem, Threaded(c, k, x))
    requires c[k - 1] in mem && NextOf(c, k) in mem
    ensures LinkedAt(Bypassed(mem, c[k - 1], NextOf(c, k)), c, i)
  {
    assert LinkedAt(mem, Threaded(c, k, x), if i < k then i else i + 1);
  }

  /** Taking x out again. */
  lemma BypassedCycle(mem: Links, c: seq<Addr>, k: nat, x: Addr)
    requires Different(c) && 1 <= k <= |c| && x !in c && Cycle(mem, Threaded(c, k, x))
    ensures x in mem && mem[x].prev == c[k - 1] && mem[x].next == NextOf(c, k)
    ensures c[k - 1] in mem && NextOf(c, k) in mem && Cycle(Bypassed(mem, c[k - 1], NextOf(c, k)), c)
  {
    var d := Threaded(c, k, x);
    assert LinkedAt(mem, d, k) && LinkedAt(mem, d, k - 1);
    assert LinkedAt(mem, d, if k < |c| then k + 1 else 0);
    var mem' := Bypassed(mem, c[k - 1], NextOf(c, k));
    forall i | 0 <= i < |c| ensures LinkedAt(mem', c, i) {
      BypassedAt(mem, c, k, x, i);
    }
  }

  // ----- lists -----

  lemma NodesIn(h: nat, s: seq<nat>)
    ensures forall x :: Entry(x) in Nodes(h, s) <==> x in s
    ensures forall k :: Head(k) in Nodes(h, s) <==> k == h
    ensures Nowhere !in Nodes(h, s)
  {
    var c := Nodes(h, s);
    assert c[0] == Head(h);
    forall x | x in s ensures Entry(x) in c {
      var i :| 0 <= i < |s| && s[i] == x;
      assert c[i + 1] == Entry(x);
    }
  }

  /** A list's entries are different. */
  lemma RingNoDup(mem: Links, h: nat, s: seq<nat>)
    requires Ring(mem, h, s)
    ensures NoDup(s)
  {
    var c := Nodes(h, s);
    forall i, j | 0 <= i < j < |s| ensures s[i] != s[j] {
      assert c[i + 1] != c[j + 1];
    }
  }

  /** What the links of a head and of an entry say. */
  lemma RingLinks(mem: Links, h: nat, a: seq<nat>, b: seq<nat>)
    requires Ring(mem, h, a + b)
    ensures var c := Nodes(h, a + b);
      c[|a|] in mem && mem[c[|a|]].next == if b == [] then Head(h) else Entry(b[0])
  {
    var c := Nodes(h, a + b);
    assert LinkedAt(mem, c, |a|);
    if b != [] { assert (a + b)[|a|] == b[0]; }
  }

  lemma NodesThreaded(h: nat, a: seq<nat>, x: nat, b: seq<nat>)
    ensures Threaded(Nodes(h, a + b), |a| + 1, Entry(x)) == Nodes(h, a + [x] + b)
  {
  }

  lemma RingInserted(mem: Links, h: nat, a: seq<nat>, x: nat, b: seq<nat>)
    requires Ring(mem, h, a + b) && Entry(x) in mem && x !in a + b
    ensures var c := Nodes(h, a + b); var prev, next := c[|a|], NextOf(c, |a| + 1);
      && prev in mem && next in mem && mem[prev].next == next && mem[next].prev == prev
      && Ring(Inserted(mem, Entry(x), prev, next), h, a + [x] + b)
  {
    NodesIn(h, a + b);
    InsertedCycle(mem, Nodes(h, a + b), |a| + 1, Entry(x));
    NodesThreaded(h, a, x, b);
  }

  lemma NodesDifferent(h: nat, s: seq<nat>)
    requires NoDup(s)
    ensures Different(Nodes(h, s))
  {
  }

  lemma RingBypassed(mem: Links, h: nat, a: seq<nat>, x: nat, b: seq<nat>)
    requires Ring(mem, h, a + [x] + b)
    ensures Entry(x) in mem && mem[Entry(x)].prev in mem && mem[Entry(x)].next in mem
    ensures mem[Entry(x)].prev in Nodes(h, a + b) && mem[Entry(x)].next in Nodes(h, a + b)
    ensures NoDup(a + b) && x !in a + b && Ring(Bypassed(mem, mem[Entry(x)].prev, mem[Entry(x)].next), h, a + b)
  {
    RingNoDup(mem, h, a + [x] + b);
    OnceInMiddle(a, x, b);
    NoDupWithout(a, x, b);
    NodesThreaded(h, a, x, b);
    NodesDifferent(h, a + b);
    NodesIn(h, a + b);
    BypassedCycle(mem, Nodes(h, a + b), |a| + 1, Entry(x));
  }

  lemma WipedEntry(mem: Links, h: nat, s: seq<nat>, x: nat)
    requires x in s
    ensures !Ring(mem[Entry(x) := Link(Nowhere, Nowhere)], h, s)
  {
    var c, mem' := Nodes(h, s), mem[Entry(x) := Link(Nowhere, Nowhere)];
    NodesIn(h, s);
    var i :| 0 <= i < |c| && c[i] == Entry(x);
    assert c[if i + 1 < |c| then i + 1 else 0] in c;
    assert !LinkedAt(mem', c, i);
  }

  /** Zeroing the memory of an entry destroys the list that it is on: afterwards no list at all
      starts at that head. */
  lemma WipeBreaksRing(mem: Links, h: nat, s: seq<nat>, x: nat, s': seq<nat>)
    requires Ring(mem, h, s) && x in s
    ensures !Ring(mem[Entry(x) := Link(Nowhere, Nowhere)], h, s')
  {
    var mem' := mem[Entry(x) := Link(Nowhere, Nowhere)];
    if x in s' {
      WipedEntry(mem, h, s', x);
    } else if Ring(mem', h, s') {
      NodesIn(h, s');
      CycleFrame(mem', mem, Nodes(h, s'));
      RingUnique(mem, h, s, s');
    }
  }

  /** Where k steps along the next links lead. */
  ghost function Follow(mem: Links, x: Addr, k: nat): Addr
    decreases k
  {
    if k == 0 || x !in mem then x else Follow(mem, mem[x].next, k - 1)
  }

  /** The iteration of list.h ends for an entry that is on the list. */
  lemma {:induction false} EntryLeadsHome(mem: Links, h: nat, a: seq<nat>, x: nat, b: seq<nat>)
    requires Ring(mem, h, a + [x] + b)
    ensures Follow(mem, Entry(x), |b| + 1) == Head(h)
    decreases b
  {
    assert a + [x] + b == (a + [x]) + b;
    RingLinks(mem, h, a + [x], b);
    assert Nodes(h, (a + [x]) + b)[|a + [x]|] == Entry(x);
    if b != [] {
      assert (a + [x]) + [b[0]] + b[1..] == a + [x] + b;
      EntryLeadsHome(mem, h, a + [x], b[0], b[1..]);
    }
  }

  /** It does not end for an entry that list_del_init has linked to itself. */
  lemma {:induction false} SelfLinkedStays(mem: Links, x: nat, k: nat)
    requires Entry(x) in mem && mem[Entry(x)].next == Entry(x)
    ensures Follow(mem, Entry(x), k) == Entry(x)
  {
    if k > 0 { SelfLinkedStays(mem, x, k - 1); }
  }

  // ----- a family of lists -----

  ghost predicate OffLists(lists: seq<seq<nat>>, x: nat) { forall h :: 0 <= h < |lists| ==> x !in lists[h] }

  /** No entry is on two lists. */
  ghost predicate NoneShared(lists: seq<seq<nat>>) {
    forall h, k, x :: 0 <= h < k < |lists| && x in lists[h] ==> x !in lists[k]
  }

  ghost predicate AllRings(mem: Links, lists: seq<seq<nat>>) { forall h :: 0 <= h < |lists| ==> Ring(mem, h, lists[h]) }

  /** One list changes, within its own nodes and one free entry. */
  lemma OtherRings(mem: Links, mem': Links, lists: seq<seq<nat>>, h: nat, s: seq<nat>, x: nat)
    requires AllRings(mem, lists) && NoneShared(lists) && h < |lists| && Ring(mem', h, s)
    requires forall k :: 0 <= k < |lists| && k != h ==> x !in lists[k]
    requires forall y :: y in mem && y !in Nodes(h, lists[h]) && y != Entry(x) ==> y in mem' && mem'[y] == mem[y]
    ensures AllRings(mem', lists[h := s])
  {
    forall k | 0 <= k < |lists| && k != h ensures Ring(mem', k, lists[k]) {
      NodesIn(k, lists[k]);
      NodesIn(h, lists[h]);
      forall y | y in Nodes(k, lists[k]) ensures y !in Nodes(h, lists[h]) && y != Entry(x) {
        if y.Entry? { assert y.id in lists[k]; }
      }
      CycleFrame(mem, mem', Nodes(k, lists[k]));
    }
  }

  lemma NoneSharedUpdate(lists: seq<seq<nat>>, h: nat, s: seq<nat>, x: nat)
    requires NoneShared(lists) && h < |lists| && (forall k :: 0 <= k < |lists| && k != h ==> x !in lists[k])
    requires forall y :: y in s ==> y in lists[h] || y == x
    ensures NoneShared(lists[h := s])
  {
  }

  /** What list_del_init leaves in memory. */
  function DelInited(mem: Links, x: nat): Links
    requires Entry(x) in mem && mem[Entry(x)].prev in mem && mem[Entry(x)].next in mem
  {
    Bypassed(mem, mem[Entry(x)].prev, mem[Entry(x)].next)[Entry(x) := Link(Entry(x), Entry(x))]
  }

  /** The list that loses x. */
  lemma ListLoses(mem: Links, h: nat, s: seq<nat>, x: nat)
    requires Ring(mem, h, s) && x in s
    ensures Entry(x) in mem && mem[Entry(x)].prev in mem && mem[Entry(x)].next in mem
    ensures Ring(DelInited(mem, x), h, Remove(s, x)) && forall y :: y in Remove(s, x) <==> y in s && y != x
    ensures forall y :: y in mem && y !in Nodes(h, s) ==> y in DelInited(mem, x) && DelInited(mem, x)[y] == mem[y]
  {
    RingNoDup(mem, h, s);
    RemoveFacts(s, x);
    var a, b := SplitAt(s, x);
    RemoveMiddle(a, x, b);
    RingBypassed(mem, h, a, x, b);
    NodesIn(h, a + b);
    NodesIn(h, s);
    var m1 := Bypassed(mem, mem[Entry(x)].prev, mem[Entry(x)].next);
    CycleFrame(m1, DelInited(mem, x), Nodes(h, a + b));
  }

  /** All lists after list_del_init. */
  lemma RingDeleted(mem: Links, lists: seq<seq<nat>>, h: nat, x: nat)
    requires AllRings(mem, lists) && NoneShared(lists) && h < |lists| && x in lists[h]
    ensures Entry(x) in mem && mem[Entry(x)].prev in mem && mem[Entry(x)].next in mem
    ensures var lists' := lists[h := Remove(lists[h], x)];
      AllRings(DelInited(mem, x), lists') && NoneShared(lists') && OffLists(lists', x)
  {
    ListLoses(mem, h, lists[h], x);
    OtherRings(mem, DelInited(mem, x), lists, h, Remove(lists[h], x), x);
    NoneSharedUpdate(lists, h, Remove(lists[h], x), x);
  }

  class Heads {
    var mem: Links
    ghost var lists: seq<seq<nat>>

    ghost predicate Valid()
      reads this
    {
      AllRings(mem, lists) && NoneShared(lists)
    }

    /** n heads, each initialised as an empty list. */
    constructor (n: nat)
      ensures Valid() && |lists| == n && forall h :: 0 <= h < n ==> lists[h] == []
      ensures forall x :: Entry(x) !in mem
    {
      mem, lists := map[], [];
      new;
      var i := 0;
      while i < n
        invariant 0 <= i <= n && |lists| == i && (forall h :: 0 <= h < i ==> lists[h] == []) && Valid()
        invariant forall x :: x in mem ==> x.Head?
      {
        ghost var m, l := mem, lists;
        mem := mem[Head(i) := Link(Head(i), Head(i))];
        lists := lists + [[]];
        forall h | 0 <= h <= i ensures Ring(mem, h, lists[h]) {
          NodesIn(h, []);
          if h < i {
            assert Ring(m, h, l[h]) && l[h] == [];
            CycleFrame(m, mem, Nodes(h, []));
          } else {
            assert LinkedAt(mem, Nodes(h, []), 0);
          }
        }
        i := i + 1;
      }
    }

    /** The zeroed memory of an entry that is on no list. */
    method Zero(x: nat)
      requires Valid() && OffLists(lists, x)
      modifies this
      ensures Valid() && lists == old(lists) && mem == old(mem)[Entry(x) := Link(Nowhere, Nowhere)]
    {
      OffRings(mem, mem[Entry(x) := Link(Nowhere, Nowhere)], lists, x);
      mem := mem[Entry(x) := Link(Nowhere, Nowhere)];
    }

    /** The memory of an entry that is on no list goes. */
    method Release(x: nat)
      requires Valid() && OffLists(lists, x)
      modifies this
      ensures Valid() && lists == old(lists) && mem == old(mem) - {Entry(x)}
    {
      OffRings(mem, mem - {Entry(x)}, lists, x);
      mem := mem - {Entry(x)};
    }

    /** list_add: x becomes the first entry. */
    method Add(x: nat, h: nat)
      requires Valid() && h < |lists| && Entry(x) in mem && OffLists(lists, x)
      modifies this
      ensures Valid() && mem.Keys == old(mem.Keys) && lists == old(lists)[h := [x] + old(lists)[h]]
    {
      ghost var s := lists[h];
      assert [] + s == s && [] + [x] + s == [x] + s;
      RingInserted(mem, h, [], x, s);
      NodesIn(h, s);
      ghost var m := mem;
      mem := Inserted(mem, Entry(x), Head(h), mem[Head(h)].next);
      OtherRings(m, mem, lists, h, [x] + s, x);
      NoneSharedUpdate(lists, h, [x] + s, x);
      lists := lists[h := [x] + s];
    }

    /** list_add_tail: x becomes the last entry. */
    method AddTail(x: nat, h: nat)
      requires Valid() && h < |lists| && Entry(x) in mem && OffLists(lists, x)
      modifies this
      ensures Valid() && mem.Keys == old(mem.Keys) && lists == old(lists)[h := old(lists)[h] + [x]]
    {
      ghost var s := lists[h];
      assert s + [] == s && s + [x] + [] == s + [x];
      RingInserted(mem, h, s, x, []);
      ghost var m := mem;
      mem := Inserted(mem, Entry(x), mem[Head(h)].prev, Head(h));
      OtherRings(m, mem, lists, h, s + [x], x);
      NoneSharedUpdate(lists, h, s + [x], x);
      lists := lists[h := s + [x]];
    }

    /** list_del_init: x leaves its list, whichever that is, and its links lead to itself. */
    method DelInit(x: nat, ghost h: nat)
      requires Valid() && h < |lists| && x in lists[h]
      modifies this
      ensures Valid() && mem.Keys == old(mem.Keys) && lists == old(lists)[h := Remove(old(lists)[h], x)]
      ensures Entry(x) in mem && mem[Entry(x)] == Link(Entry(x), Entry(x)) && OffLists(lists, x)
    {
      RingDeleted(mem, lists, h, x);
      mem := Bypassed(mem, mem[Entry(x)].prev, mem[Entry(x)].next);
      mem := mem[Entry(x) := Link(Entry(x), Entry(x))];
      lists := lists[h := Remove(lists[h], x)];
    }

    method Empty(h: nat) returns (b: bool)
      requires Valid() && h < |lists|
      ensures b <==> lists[h] == []
    {
      assert [] + lists[h] == lists[h];
      RingLinks(mem, h, [], lists[h]);
      b := mem[Head(h)].next == Head(h);
    }

    /** The first entry, null for an empty list. */
    method First(h: nat) returns (p: Ptr)
      requires Valid() && h < |lists|
      ensures p == HeadOf(lists[h])
    {
      assert [] + lists[h] == lists[h];
      RingLinks(mem, h, [], lists[h]);
      var a := mem[Head(h)].next;
      p := if a == Head(h) then Null else At(a.id);
    }

    /** The entry after x on the list of h, null when the head follows. */
    method Next(x: nat, h: nat) returns (p: Ptr)
      requires Valid() && h < |lists| && x in lists[h]
      ensures p == SuccIn(lists[h], x)
    {
      RingNoDup(mem, h, lists[h]);
      ghost var a, b := SplitAt(lists[h], x);
      SuccMiddle(a, x, b);
      assert (a + [x]) + b == lists[h];
      RingLinks(mem, h, a + [x], b);
      assert Nodes(h, (a + [x]) + b)[|a + [x]|] == Entry(x);
      var n := mem[Entry(x)].next;
      p := if n == Head(h) then Null else At(n.id);
    }

    /** The safe iteration with list_del_init as its body: the next entry is taken before the
        current one goes, and every entry is met once, in order. */
    method DeleteEach(h: nat) returns (met: seq<nat>)
      requires Valid() && h < |lists|
      modifies this
      ensures Valid() && met == old(lists)[h] && lists == old(lists)[h := []] && mem.Keys == old(mem.Keys)
    {
      met := [];
      var pos := First(h);
      while pos.At?
        invariant Valid() && |lists| == |old(lists)| && mem.Keys == old(mem.Keys)
        invariant met + lists[h] == old(lists)[h] && lists == old(lists)[h := lists[h]] && pos == HeadOf(lists[h])
        decreases |lists[h]|
      {
        ghost var rest := lists[h];
        RingNoDup(mem, h, rest);
        FirstGoes(met, rest);
        met := met + [pos.id];
        var n := Next(pos.id, h);
        DelInit(pos.id, h);
        pos := n;
      }
    }
  }

  lemma FirstGoes(met: seq<nat>, s: seq<nat>)
    requires NoDup(s) && s != []
    ensures SuccIn(s, s[0]) == HeadOf(s[1..]) && Remove(s, s[0]) == s[1..] && (met + [s[0]]) + s[1..] == met + s
  {
  }

  lemma OffRings(mem: Links, mem': Links, lists: seq<seq<nat>>, x: nat)
    requires AllRings(mem, lists) && OffLists(lists, x)
    requires forall y :: y in mem && y != Entry(x) ==> y in mem' && mem'[y] == mem[y]
    ensures AllRings(mem', lists)
  {
    forall h | 0 <= h < |lists| ensures Ring(mem', h, lists[h]) {
      NodesIn(h, lists[h]);
      CycleFrame(mem, mem', Nodes(h, lists[h]));
    }
  }
}
