/** Ordered trees as values, and the two orders in which stree.h lists their nodes. */
module RoseTrees {
  import opened Sequences

  datatype Rose<K> = Rose(key: K, kids: seq<Rose<K>>)

  function Size<K>(ts: seq<Rose<K>>): nat {
    if ts == [] then 0 else 1 + Size(ts[0].kids) + Size(ts[1..])
  }

  lemma {:induction false} SizeConcat<K>(a: seq<Rose<K>>, b: seq<Rose<K>>)
    ensures Size(a + b) == Size(a) + Size(b)
  {
    if a == [] {
      assert a + b == b;
    } else {
      assert (a + b)[1..] == a[1..] + b;
      SizeConcat(a[1..], b);
    }
  }

  ghost function Keys<K>(ts: seq<Rose<K>>): seq<K> {
    seq(|ts|, i requires 0 <= i < |ts| => ts[i].key)
  }

  /** The nodes of a level, with their depth. */
  ghost function Tagged<K>(ts: seq<Rose<K>>, d: nat): seq<(nat, K)> {
    seq(|ts|, i requires 0 <= i < |ts| => (d, ts[i].key))
  }

  /** All children of a level, in order. */
  ghost function Below<K>(ts: seq<Rose<K>>): seq<Rose<K>> {
    if ts == [] then [] else ts[0].kids + Below(ts[1..])
  }

  lemma {:induction false} BelowConcat<K>(a: seq<Rose<K>>, b: seq<Rose<K>>)
    ensures Below(a + b) == Below(a) + Below(b)
  {
    if a == [] {
      assert a + b == b;
    } else {
      assert (a + b)[1..] == a[1..] + b;
      BelowConcat(a[1..], b);
      assert a[0].kids + (Below(a[1..]) + Below(b)) == (a[0].kids + Below(a[1..])) + Below(b);
    }
  }

  lemma {:induction false} SizeBelow<K>(ts: seq<Rose<K>>)
    ensures Size(ts) == |ts| + Size(Below(ts))
  {
    if ts != [] {
      SizeBelow(ts[1..]);
      SizeConcat(ts[0].kids, Below(ts[1..]));
    }
  }

  // ----- depth first -----

  /** The recursive preorder of a forest at depth d. */
  ghost function Preorder<K>(ts: seq<Rose<K>>, d: nat): seq<(nat, K)>
    decreases Size(ts)
  {
    if ts == [] then [] else [(d, ts[0].key)] + Preorder(ts[0].kids, d + 1) + Preorder(ts[1..], d)
  }

  lemma {:induction false} PreorderConcat<K>(a: seq<Rose<K>>, b: seq<Rose<K>>, d: nat)
    ensures Preorder(a + b, d) == Preorder(a, d) + Preorder(b, d)
    decreases a
  {
    if a == [] {
      assert a + b == b;
    } else {
      assert (a + b)[1..] == a[1..] + b;
      PreorderConcat(a[1..], b, d);
      var x, y := [(d, a[0].key)] + Preorder(a[0].kids, d + 1), Preorder(a[1..], d);
      assert x + (y + Preorder(b, d)) == (x + y) + Preorder(b, d);
    }
  }

  // ----- breadth first -----

  /** The levels of a forest, one after the other. */
  ghost function Levels<K>(ts: seq<Rose<K>>, d: nat): seq<(nat, K)>
    decreases Size(ts)
  {
    if ts == [] then [] else
      SizeBelow(ts);
      Tagged(ts, d) + Levels(Below(ts), d + 1)
  }

  /** Depths never decrease in level order, and start at d. */
  lemma {:induction false} LevelsMonotone<K>(ts: seq<Rose<K>>, d: nat)
    ensures forall i :: 0 <= i < |Levels(ts, d)| ==> Levels(ts, d)[i].0 >= d
    ensures forall i, j :: 0 <= i < j < |Levels(ts, d)| ==> Levels(ts, d)[i].0 <= Levels(ts, d)[j].0
    decreases Size(ts)
  {
    if ts != [] {
      SizeBelow(ts);
      LevelsMonotone(Below(ts), d + 1);
      var a, b := Tagged(ts, d), Levels(Below(ts), d + 1);
      assert Levels(ts, d) == a + b;
    }
  }

  // ----- the same nodes -----

  lemma PreorderPeel<K>(ts: seq<Rose<K>>, d: nat)
    requires ts != []
    ensures multiset(Preorder(ts, d)) ==
      multiset{(d, ts[0].key)} + multiset(Preorder(ts[0].kids, d + 1)) + multiset(Preorder(ts[1..], d))
  {
  }

  /** A forest's preorder has its roots and the preorder of all their children. */
  lemma {:induction false} PreorderByLevel<K>(ts: seq<Rose<K>>, d: nat)
    ensures multiset(Preorder(ts, d)) == multiset(Tagged(ts, d)) + multiset(Preorder(Below(ts), d + 1))
    decreases ts
  {
    if ts != [] {
      PreorderPeel(ts, d);
      PreorderByLevel(ts[1..], d);
      TaggedPeel(ts, d);
      BelowPeel(ts, d + 1);
      Regroup(multiset{(d, ts[0].key)}, multiset(Preorder(ts[0].kids, d + 1)), multiset(Tagged(ts[1..], d)),
              multiset(Preorder(Below(ts[1..]), d + 1)));
    }
  }

  lemma TaggedPeel<K>(ts: seq<Rose<K>>, d: nat)
    requires ts != []
    ensures multiset(Tagged(ts, d)) == multiset{(d, ts[0].key)} + multiset(Tagged(ts[1..], d))
  {
    assert Tagged(ts, d) == [(d, ts[0].key)] + Tagged(ts[1..], d);
  }

  lemma BelowPeel<K>(ts: seq<Rose<K>>, d: nat)
    requires ts != []
    ensures multiset(Preorder(Below(ts), d)) ==
      multiset(Preorder(ts[0].kids, d)) + multiset(Preorder(Below(ts[1..]), d))
  {
    PreorderConcat(ts[0].kids, Below(ts[1..]), d);
  }

  lemma Regroup<T>(a: multiset<T>, b: multiset<T>, c: multiset<T>, d: multiset<T>)
    ensures a + b + (c + d) == (a + c) + (b + d)
  {
  }

  /** Both traversals list the same nodes with the same depths. */
  lemma {:induction false} SameNodes<K>(ts: seq<Rose<K>>, d: nat)
    ensures multiset(Preorder(ts, d)) == multiset(Levels(ts, d))
    decreases Size(ts)
  {
    if ts != [] {
      SizeBelow(ts);
      PreorderByLevel(ts, d);
      SameNodes(Below(ts), d + 1);
    }
  }

  // ----- the queue -----

  /** What a queue of (depth, tree) entries will list. */
  ghost function FromQueue<K>(q: seq<(nat, Rose<K>)>): seq<(nat, K)>
    decreases QueueSize(q)
  {
    if q == [] then [] else
      QueueStep(q);
      [(q[0].0, q[0].1.key)] + FromQueue(q[1..] + AtDepth(q[0].1.kids, q[0].0 + 1))
  }

  ghost function AtDepth<K>(ts: seq<Rose<K>>, d: nat): seq<(nat, Rose<K>)> {
    seq(|ts|, i requires 0 <= i < |ts| => (d, ts[i]))
  }

  ghost function Trees<K>(q: seq<(nat, Rose<K>)>): seq<Rose<K>> {
    seq(|q|, i requires 0 <= i < |q| => q[i].1)
  }

  ghost function QueueSize<K>(q: seq<(nat, Rose<K>)>): nat { Size(Trees(q)) }

  lemma QueueStep<K>(q: seq<(nat, Rose<K>)>)
    requires q != []
    ensures QueueSize(q[1..] + AtDepth(q[0].1.kids, q[0].0 + 1)) == QueueSize(q) - 1
  {
    var r := q[1..] + AtDepth(q[0].1.kids, q[0].0 + 1);
    assert Trees(r) == Trees(q)[1..] + q[0].1.kids;
    SizeConcat(Trees(q)[1..], q[0].1.kids);
  }

  /** A queue holding the rest of one level and the part of the next level found so far. */
  lemma {:induction false} QueueTwoLevels<K>(a: seq<Rose<K>>, b: seq<Rose<K>>, d: nat)
    ensures FromQueue(AtDepth(a, d) + AtDepth(b, d + 1)) == Tagged(a, d) + FromQueue(AtDepth(b + Below(a), d + 1))
    decreases a
  {
    var q := AtDepth(a, d) + AtDepth(b, d + 1);
    if a == [] {
      assert q == AtDepth(b, d + 1) && b + Below(a) == b;
    } else {
      var kids := a[0].kids;
      QueueTwoLevels(a[1..], b + kids, d);
      QueueShift(a, b, d);
      ConcatAssoc(b, kids, Below(a[1..]));
      assert Tagged(a, d) == [(d, a[0].key)] + Tagged(a[1..], d);
      ConcatAssoc([(d, a[0].key)], Tagged(a[1..], d), FromQueue(AtDepth(b + Below(a), d + 1)));
    }
  }

  lemma QueueShift<K>(a: seq<Rose<K>>, b: seq<Rose<K>>, d: nat)
    requires a != []
    ensures var q := AtDepth(a, d) + AtDepth(b, d + 1);
      && q[0] == (d, a[0])
      && q[1..] + AtDepth(a[0].kids, d + 1) == AtDepth(a[1..], d) + AtDepth(b + a[0].kids, d + 1)
  {
  }

  /** Started with one level, the queue lists level after level. */
  lemma {:induction false} QueueIsLevels<K>(ts: seq<Rose<K>>, d: nat)
    ensures FromQueue(AtDepth(ts, d)) == Levels(ts, d)
    decreases Size(ts)
  {
    if ts == [] {
      assert AtDepth(ts, d) == [];
    } else {
      SizeBelow(ts);
      assert AtDepth(ts, d) + AtDepth([], d + 1) == AtDepth(ts, d) && [] + Below(ts) == Below(ts);
      QueueTwoLevels(ts, [], d);
      QueueIsLevels(Below(ts), d + 1);
    }
  }

  // ----- the stack -----

  /** What a stack of (depth, tree) entries, top first, will list. */
  ghost function FromStack<K>(q: seq<(nat, Rose<K>)>): seq<(nat, K)> {
    if q == [] then [] else Preorder([q[0].1], q[0].0) + FromStack(q[1..])
  }

  /** Children on top of the stack are listed as a forest. */
  lemma {:induction false} StackKids<K>(kids: seq<Rose<K>>, d: nat, rest: seq<(nat, Rose<K>)>)
    ensures FromStack(AtDepth(kids, d) + rest) == Preorder(kids, d) + FromStack(rest)
    decreases kids
  {
    var q := AtDepth(kids, d) + rest;
    if kids == [] {
      assert q == rest;
    } else {
      assert q[1..] == AtDepth(kids[1..], d) + rest;
      StackKids(kids[1..], d, rest);
      PreorderConcat([kids[0]], kids[1..], d);
      assert kids == [kids[0]] + kids[1..];
      ConcatAssoc(Preorder([kids[0]], d), Preorder(kids[1..], d), FromStack(rest));
    }
  }

  lemma PreorderSingle<K>(t: Rose<K>, d: nat)
    ensures Preorder([t], d) == [(d, t.key)] + Preorder(t.kids, d + 1) + []
  {
    assert [t][1..] == [];
  }

  lemma StackUnfold<T>(s: seq<T>, x: T, a: seq<T>, b: seq<T>)
    ensures (s + [x]) + (a + b) == s + (([x] + a + []) + b)
  {
  }

  // ----- one level of either order -----

  /** The nodes listed with depth k. */
  ghost function OfDepth<K>(l: seq<(nat, K)>, k: nat): seq<K> {
    if l == [] then [] else (if l[0].0 == k then [l[0].1] else []) + OfDepth(l[1..], k)
  }

  lemma {:induction false} OfDepthConcat<K>(a: seq<(nat, K)>, b: seq<(nat, K)>, k: nat)
    ensures OfDepth(a + b, k) == OfDepth(a, k) + OfDepth(b, k)
    decreases a
  {
    if a == [] {
      assert a + b == b;
    } else {
      assert (a + b)[1..] == a[1..] + b;
      OfDepthConcat(a[1..], b, k);
      ConcatAssoc(if a[0].0 == k then [a[0].1] else [], OfDepth(a[1..], k), OfDepth(b, k));
    }
  }

  lemma {:induction false} OfDepthTagged<K>(ts: seq<Rose<K>>, d: nat, k: nat)
    ensures OfDepth(Tagged(ts, d), k) == if k == d then Keys(ts) else []
    decreases ts
  {
    if ts != [] {
      assert Tagged(ts, d)[1..] == Tagged(ts[1..], d);
      OfDepthTagged(ts[1..], d, k);
      assert Keys(ts) == [ts[0].key] + Keys(ts[1..]);
    }
  }

  /** A forest's preorder, seen at one depth: its roots there, else what its children's preorder has. */
  lemma {:induction false} PreorderAtDepth<K>(ts: seq<Rose<K>>, d: nat, k: nat)
    ensures OfDepth(Preorder(ts, d), k) == OfDepth(Tagged(ts, d), k) + OfDepth(Preorder(Below(ts), d + 1), k)
    decreases ts
  {
    if ts == [] {
      assert Tagged(ts, d) == [];
    } else {
      var t, rest := ts[0], ts[1..];
      PreorderAtDepth(rest, d, k);
      PreorderPeelAt(ts, d, k);
      LevelPeelAt(ts, d, k);
      PreorderDeep(t.kids, d + 1, d);
      PreorderDeep(Below(rest), d + 1, d);
      OfDepthTagged(rest, d, k);
      DepthsApart(OfDepth([(d, t.key)], k), OfDepth(Preorder(t.kids, d + 1), k), OfDepth(Tagged(rest, d), k),
                  OfDepth(Preorder(Below(rest), d + 1), k), k == d);
    }
  }

  lemma PreorderPeelAt<K>(ts: seq<Rose<K>>, d: nat, k: nat)
    requires ts != []
    ensures OfDepth(Preorder(ts, d), k) ==
      (OfDepth([(d, ts[0].key)], k) + OfDepth(Preorder(ts[0].kids, d + 1), k)) + OfDepth(Preorder(ts[1..], d), k)
  {
    OfDepthConcat([(d, ts[0].key)] + Preorder(ts[0].kids, d + 1), Preorder(ts[1..], d), k);
    OfDepthConcat([(d, ts[0].key)], Preorder(ts[0].kids, d + 1), k);
  }

  lemma LevelPeelAt<K>(ts: seq<Rose<K>>, d: nat, k: nat)
    requires ts != []
    ensures OfDepth(Tagged(ts, d), k) == OfDepth([(d, ts[0].key)], k) + OfDepth(Tagged(ts[1..], d), k)
    ensures OfDepth(Preorder(Below(ts), d + 1), k) ==
      OfDepth(Preorder(ts[0].kids, d + 1), k) + OfDepth(Preorder(Below(ts[1..]), d + 1), k)
  {
    assert Tagged(ts, d) == [(d, ts[0].key)] + Tagged(ts[1..], d);
    OfDepthConcat([(d, ts[0].key)], Tagged(ts[1..], d), k);
    PreorderConcat(ts[0].kids, Below(ts[1..]), d + 1);
    OfDepthConcat(Preorder(ts[0].kids, d + 1), Preorder(Below(ts[1..]), d + 1), k);
  }

  /** Roots and deeper nodes never have the same depth. */
  lemma DepthsApart<T>(root: seq<T>, kids: seq<T>, roots: seq<T>, below: seq<T>, atRoots: bool)
    requires atRoots ==> kids == [] && below == []
    requires !atRoots ==> roots == []
    ensures (root + kids) + (roots + below) == (root + roots) + (kids + below)
  {
  }

  lemma {:induction false} PreorderDeep<K>(ts: seq<Rose<K>>, d: nat, k: nat)
    requires k < d
    ensures OfDepth(Preorder(ts, d), k) == []
    decreases Size(ts)
  {
    if ts != [] {
      PreorderDeep(ts[0].kids, d + 1, k);
      PreorderDeep(ts[1..], d, k);
      OfDepthConcat([(d, ts[0].key)] + Preorder(ts[0].kids, d + 1), Preorder(ts[1..], d), k);
      OfDepthConcat([(d, ts[0].key)], Preorder(ts[0].kids, d + 1), k);
    }
  }

  /** At every depth both traversals list the same nodes in the same order, left to right. */
  lemma {:induction false} SameLevels<K>(ts: seq<Rose<K>>, d: nat, k: nat)
    ensures OfDepth(Levels(ts, d), k) == OfDepth(Preorder(ts, d), k)
    ensures k == d ==> OfDepth(Levels(ts, d), k) == Keys(ts)
    decreases Size(ts)
  {
    if ts != [] {
      SizeBelow(ts);
      SameLevels(Below(ts), d + 1, k);
      OfDepthConcat(Tagged(ts, d), Levels(Below(ts), d + 1), k);
      PreorderAtDepth(ts, d, k);
      OfDepthTagged(ts, d, k);
      if k == d { PreorderDeep(Below(ts), d + 1, d); }
    }
  }

  /** In preorder a node comes right before its children's preorder, and that before its siblings'. */
  lemma PreorderLaw<K>(t: Rose<K>, siblings: seq<Rose<K>>, d: nat)
    ensures Preorder([t] + siblings, d) == [(d, t.key)] + Preorder(t.kids, d + 1) + Preorder(siblings, d)
  {
    assert ([t] + siblings)[1..] == siblings;
  }
}
