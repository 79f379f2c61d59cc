/** The links of a skip list: every level is a circular list through the head, and consists of
    some of the nodes of level 0, in the same order. */
module SkipLinks {
  import opened Sequences

  const HEAD: nat := 0

  datatype SkNode = SkNode(link: seq<nat>, prev: nat, obj: nat)

  type SkMemory = map<nat, SkNode>

  // ----- the nodes of s that are in a set, in order -----

  ghost function Restrict(s: seq<nat>, on: set<nat>): seq<nat> {
    if s == [] then [] else (if s[0] in on then [s[0]] else []) + Restrict(s[1..], on)
  }

  lemma {:induction false} RestrictConcat(a: seq<nat>, b: seq<nat>, on: set<nat>)
    ensures Restrict(a + b, on) == Restrict(a, on) + Restrict(b, on)
  {
    if a == [] {
      assert a + b == b;
    } else {
      assert (a + b)[1..] == a[1..] + b;
      RestrictConcat(a[1..], b, on);
      ConcatAssoc(if a[0] in on then [a[0]] else [], Restrict(a[1..], on), Restrict(b, on));
    }
  }

  lemma {:induction false} RestrictIn(s: seq<nat>, on: set<nat>)
    ensures forall x :: x in Restrict(s, on) <==> x in s && x in on
    ensures NoDup(s) ==> NoDup(Restrict(s, on))
  {
    if s != [] {
      RestrictIn(s[1..], on);
      if NoDup(s) {
        assert NoDup(s[1..]) && s[0] !in s[1..];
        var r := Restrict(s[1..], on);
        assert s[0] !in r && NoDup([s[0]] + r);
        assert [] + r == r;
      }
    }
  }

  lemma {:induction false} RestrictSame(s: seq<nat>, on: set<nat>, on': set<nat>)
    requires forall x :: x in s ==> (x in on <==> x in on')
    ensures Restrict(s, on) == Restrict(s, on')
  {
    if s != [] { RestrictSame(s[1..], on, on'); }
  }

  lemma {:induction false} RestrictNone(s: seq<nat>, on: set<nat>)
    requires forall x :: x in s ==> x !in on
    ensures Restrict(s, on) == []
  {
    if s != [] { RestrictNone(s[1..], on); }
  }

  lemma {:induction false} RestrictAll(s: seq<nat>, on: set<nat>)
    requires forall x :: x in s ==> x in on
    ensures Restrict(s, on) == s
  {
    if s != [] { RestrictAll(s[1..], on); }
  }

  lemma {:induction false} RestrictMinus(s: seq<nat>, on: set<nat>, x: nat)
    requires NoDup(s)
    ensures Restrict(s, on - {x}) == Remove(Restrict(s, on), x)
  {
    if s != [] {
      assert NoDup(s[1..]) && s[0] !in s[1..];
      RestrictMinus(s[1..], on, x);
      var r, r' := Restrict(s[1..], on), Restrict(s[1..], on - {x});
      assert [] + r == r && [] + r' == r';
      if s[0] == x {
        RestrictIn(s[1..], on);
        RestrictSame(s[1..], on, on - {x});
        AbsentRemove(r, x);
        assert ([x] + r)[1..] == r;
      } else if s[0] in on {
        assert ([s[0]] + r)[1..] == r;
      }
    }
  }

  lemma {:induction false} AbsentRemove(s: seq<nat>, x: nat)
    requires x !in s
    ensures Remove(s, x) == s
  {
    if s != [] { AbsentRemove(s[1..], x); }
  }

  /** The first node on a level is also first on every sparser level that has it. */
  lemma {:induction false} FirstStaysFirst(s: seq<nat>, on: set<nat>, on': set<nat>)
    requires on' <= on && Restrict(s, on) != [] && Restrict(s, on)[0] in on'
    ensures Restrict(s, on') != [] && Restrict(s, on')[0] == Restrict(s, on)[0]
  {
    if s[0] !in on { FirstStaysFirst(s[1..], on, on'); }
  }

  /** Fewer nodes, same order. */
  lemma {:induction false} EarlierRestrict(s: seq<nat>, on: set<nat>, x: nat, y: nat)
    requires x in on && y in on && Earlier(s, x, y)
    ensures Earlier(Restrict(s, on), x, y)
    decreases s
  {
    assert s == [s[0]] + s[1..];
    EarlierSplit([s[0]], s[1..], x, y);
    EarlierSingle(s[0], x, y);
    var head := if s[0] in on then [s[0]] else [];
    EarlierSplit(head, Restrict(s[1..], on), x, y);
    if Earlier(s[1..], x, y) {
      EarlierRestrict(s[1..], on, x, y);
    } else {
      RestrictIn(s[1..], on);
    }
  }

  /** Subsequence of a list without repetitions: fewer nodes, same order. */
  ghost predicate Subsequence(a: seq<nat>, b: seq<nat>) {
    if a == [] then true
    else if b == [] then false
    else if a[0] == b[0] then Subsequence(a[1..], b[1..]) else Subsequence(a, b[1..])
  }

  lemma {:induction false} SparserIsSubsequence(s: seq<nat>, on: set<nat>, on': set<nat>)
    requires NoDup(s) && on' <= on
    ensures Subsequence(Restrict(s, on'), Restrict(s, on))
  {
    if s != [] {
      assert NoDup(s[1..]);
      SparserIsSubsequence(s[1..], on, on');
      RestrictIn(s[1..], on');
      var a, b := Restrict(s[1..], on'), Restrict(s[1..], on);
      if s[0] in on' {
        assert ([s[0]] + a)[1..] == a && ([s[0]] + b)[1..] == b;
      } else if s[0] in on {
        assert [] + a == a && ([s[0]] + b)[1..] == b;
      } else {
        assert [] + a == a && [] + b == b;
      }
    }
  }

  // ----- circular lists -----

  /** The k-th stop on the way around: the head, the nodes of l, the head again. */
  ghost function Stop(l: seq<nat>, k: int): nat {
    if 0 < k <= |l| then l[k - 1] else HEAD
  }

  ghost predicate HasLink(m: SkMemory, n: nat, i: nat) { n in m && i < |m[n].link| }

  ghost function LinkAt(m: SkMemory, n: nat, i: nat): nat {
    if HasLink(m, n, i) then m[n].link[i] else HEAD
  }

  ghost predicate LinkOk(m: SkMemory, i: nat, l: seq<nat>, k: int) {
    HasLink(m, Stop(l, k), i) && LinkAt(m, Stop(l, k), i) == Stop(l, k + 1)
  }

  ghost predicate Linked(m: SkMemory, i: nat, l: seq<nat>) {
    forall k :: 0 <= k <= |l| ==> LinkOk(m, i, l, k)
  }

  ghost predicate PrevOk(m: SkMemory, l: seq<nat>, k: int) {
    Stop(l, k + 1) in m && m[Stop(l, k + 1)].prev == Stop(l, k)
  }

  /** The prev links run level 0 backwards. */
  ghost predicate PrevLinked(m: SkMemory, l: seq<nat>) {
    forall k :: 0 <= k <= |l| ==> PrevOk(m, l, k)
  }

  /** The list names no head and no node twice. */
  ghost predicate Proper(l: seq<nat>) { NoDup(l) && HEAD !in l }

  function SetLink(m: SkMemory, n: nat, i: nat, to: nat): SkMemory
    requires n in m && i < |m[n].link|
  {
    m[n := m[n].(link := m[n].link[i := to])]
  }

  function SetPrev(m: SkMemory, n: nat, to: nat): SkMemory
    requires n in m
  {
    m[n := m[n].(prev := to)]
  }

  lemma StopIs(l: seq<nat>, k: int)
    requires 0 <= k <= |l|
    ensures k == 0 ==> Stop(l, k) == HEAD
    ensures k > 0 ==> Stop(l, k) in l
  {
  }

  /** Links of another level, and prev links, do not matter to a level. */
  lemma LinkedFrame(m: SkMemory, m': SkMemory, i: nat, l: seq<nat>)
    requires Linked(m, i, l)
    requires forall n :: n == HEAD || n in l ==> HasLink(m', n, i) && LinkAt(m', n, i) == LinkAt(m, n, i)
    ensures Linked(m', i, l)
  {
    forall k | 0 <= k <= |l| ensures LinkOk(m', i, l, k) {
      StopIs(l, k);
      assert LinkOk(m, i, l, k);
    }
  }

  /** Splicing x in after the first |a| nodes. */
  lemma LinkedInsert(m: SkMemory, m': SkMemory, i: nat, a: seq<nat>, x: nat, b: seq<nat>)
    requires Linked(m, i, a + b) && Proper(a + b) && x != HEAD && x !in a + b
    requires HasLink(m', x, i) && LinkAt(m', x, i) == Stop(a + b, |a| + 1)
    requires forall n :: n == HEAD || n in a + b ==> HasLink(m', n, i)
    requires forall n :: n == HEAD || n in a + b ==>
      LinkAt(m', n, i) == if n == Stop(a + b, |a|) then x else LinkAt(m, n, i)
    ensures Linked(m', i, a + [x] + b)
  {
    var l, l' := a + b, a + [x] + b;
    forall k | 0 <= k <= |l'| ensures LinkOk(m', i, l', k) {
      var k' := if k <= |a| then k else k - 1;
      if k != |a| + 1 {
        StopIs(l, k');
        assert LinkOk(m, i, l, k');
        assert Stop(l', k) == Stop(l, k');
        assert k' != |a| ==> Stop(l, k') != Stop(l, |a|);
        assert k == |a| || Stop(l', k + 1) == Stop(l, k' + 1);
      } else {
        assert Stop(l', k) == x && Stop(l', k + 1) == Stop(l, |a| + 1);
      }
    }
  }

  /** Splicing x out after the first |a| nodes. */
  lemma LinkedRemove(m: SkMemory, m': SkMemory, i: nat, a: seq<nat>, x: nat, b: seq<nat>)
    requires Linked(m, i, a + [x] + b) && Proper(a + [x] + b)
    requires forall n :: n == HEAD || n in a + b ==> HasLink(m', n, i)
    requires forall n :: n == HEAD || n in a + b ==>
      LinkAt(m', n, i) == if n == Stop(a, |a|) then Stop(a + b, |a| + 1) else LinkAt(m, n, i)
    ensures Linked(m', i, a + b)
  {
    var l, l' := a + [x] + b, a + b;
    forall k | 0 <= k <= |l'| ensures LinkOk(m', i, l', k) {
      var k' := if k <= |a| then k else k + 1;
      StopIs(l', k);
      assert LinkOk(m, i, l, k');
      assert Stop(l', k) == Stop(l, k');
      assert k != |a| ==> Stop(l, k') != Stop(l, |a|);
      assert k != |a| ==> Stop(l', k + 1) == Stop(l, k' + 1);
      assert Stop(a, |a|) == Stop(l, |a|);
    }
  }

  lemma PrevInsert(m: SkMemory, m': SkMemory, a: seq<nat>, x: nat, b: seq<nat>)
    requires PrevLinked(m, a + b) && Proper(a + b) && x != HEAD && x !in a + b
    requires x in m' && m'[x].prev == Stop(a + b, |a|)
    requires forall n :: n == HEAD || n in a + b ==> n in m && n in m'
    requires forall n :: n == HEAD || n in a + b ==>
      m'[n].prev == if n == Stop(a + b, |a| + 1) then x else m[n].prev
    ensures PrevLinked(m', a + [x] + b)
  {
    var l, l' := a + b, a + [x] + b;
    forall k | 0 <= k <= |l'| ensures PrevOk(m', l', k) {
      var k' := if k <= |a| then k else k - 1;
      assert PrevOk(m, l, k');
      assert k != |a| ==> Stop(l', k + 1) == Stop(l, k' + 1);
      assert k != |a| + 1 ==> Stop(l', k) == Stop(l, k');
      assert k' != |a| ==> Stop(l, k' + 1) != Stop(l, |a| + 1);
      assert k == |a| ==> Stop(l', k + 1) == x;
      assert k == |a| + 1 ==> Stop(l', k) == x;
    }
  }

  lemma PrevRemove(m: SkMemory, m': SkMemory, a: seq<nat>, x: nat, b: seq<nat>)
    requires PrevLinked(m, a + [x] + b) && Proper(a + [x] + b)
    requires forall n :: n == HEAD || n in a + b ==> n in m && n in m'
    requires forall n :: n == HEAD || n in a + b ==>
      m'[n].prev == if n == Stop(a + b, |a| + 1) then Stop(a, |a|) else m[n].prev
    ensures PrevLinked(m', a + b)
  {
    var l, l' := a + [x] + b, a + b;
    forall k | 0 <= k <= |l'| ensures PrevOk(m', l', k) {
      var k' := if k < |a| then k else k + 1;
      assert PrevOk(m, l, k');
      assert Stop(l', k + 1) == Stop(l, k' + 1);
      assert k != |a| ==> Stop(l', k) == Stop(l, k');
      assert Stop(l', |a| + 1) == Stop(l, |a| + 2);
      assert k != |a| ==> Stop(l, k' + 1) != Stop(l, |a| + 2);
      assert Stop(a, |a|) == Stop(l', |a|);
    }
  }

  lemma PrevFrame(m: SkMemory, m': SkMemory, l: seq<nat>)
    requires PrevLinked(m, l)
    requires forall n :: (n == HEAD || n in l) && n in m ==> n in m' && m'[n].prev == m[n].prev
    ensures PrevLinked(m', l)
  {
    forall k | 0 <= k <= |l| ensures PrevOk(m', l, k) {
      assert PrevOk(m, l, k);
    }
  }
}
