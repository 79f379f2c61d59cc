/** The levels of a skip list as one structure: the level-0 order `base` and, for each level, the
    set of nodes linked there.  What linking and unlinking one node on one level does to it. */
module SkipLevels {
  import opened Sequences
  import opened SkipLinks

  ghost function Level(base: seq<nat>, on: seq<set<nat>>, i: int): seq<nat>
    requires 0 <= i < |on|
  {
    Restrict(base, on[i])
  }

  /** Every level is circular through the head. */
  ghost predicate AllLinked(m: SkMemory, base: seq<nat>, on: seq<set<nat>>) {
    forall i :: 0 <= i < |on| ==> Linked(m, i, Level(base, on, i))
  }

  /** Each level only has nodes of the level below. */
  ghost predicate Nested(on: seq<set<nat>>) {
    forall i :: 0 <= i < |on| - 1 ==> on[i + 1] <= on[i]
  }

  lemma {:induction false} NestedUp(on: seq<set<nat>>, i: nat, j: nat)
    requires Nested(on) && i <= j < |on|
    ensures on[j] <= on[i]
  {
    if i < j { NestedUp(on, i, j - 1); }
  }

  /** Every node of any level is on level 0. */
  lemma NestedAll(on: seq<set<nat>>)
    requires Nested(on) && |on| > 0
    ensures forall j :: 0 <= j < |on| ==> on[j] <= on[0]
  {
    forall j | 0 <= j < |on| ensures on[j] <= on[0] { NestedUp(on, 0, j); }
  }

  lemma LevelProper(base: seq<nat>, on: seq<set<nat>>, i: nat)
    requires Proper(base) && i < |on|
    ensures Proper(Level(base, on, i))
    ensures forall x :: x in Level(base, on, i) <==> x in base && x in on[i]
  {
    RestrictIn(base, on[i]);
  }

  /** Around node x, every level splits where level 0 splits. */
  lemma LevelSplit(a: seq<nat>, x: nat, b: seq<nat>, on: set<nat>)
    ensures Restrict(a + [x] + b, on) == Restrict(a, on) + (if x in on then [x] else []) + Restrict(b, on)
  {
    RestrictConcat(a + [x], b, on);
    RestrictConcat(a, [x], on);
    assert Restrict([x], on) == if x in on then [x] else [] by { assert [x][1..] == []; }
  }

  // ----- linking one level -----

  /** The memory after x was linked behind `node` on level i (and, on level 0, both ways). */
  function LinkBehind(m: SkMemory, node: nat, x: nat, i: nat): SkMemory
    requires node in m && i < |m[node].link| && x in m && i < |m[x].link| && node != x
  {
    SetLink(SetLink(m, x, i, m[node].link[i]), node, i, x)
  }

  /** What a level looks like with and without x. */
  lemma LevelWith(a: seq<nat>, x: nat, b: seq<nat>, on: set<nat>)
    requires Proper(a + [x] + b)
    ensures Restrict(a + [x] + b, on + {x}) == Restrict(a, on) + [x] + Restrict(b, on)
    ensures Proper(Restrict(a, on) + [x] + Restrict(b, on))
  {
    OnceInMiddle(a, x, b);
    LevelSplit(a, x, b, on + {x});
    RestrictSame(a, on, on + {x});
    RestrictSame(b, on, on + {x});
    RestrictIn(a + [x] + b, on + {x});
  }

  lemma LevelWithout(a: seq<nat>, x: nat, b: seq<nat>, on: set<nat>)
    requires Proper(a + [x] + b)
    ensures Restrict(a + [x] + b, on - {x}) == Restrict(a, on) + Restrict(b, on)
    ensures Proper(Restrict(a, on) + Restrict(b, on)) && x !in Restrict(a, on) + Restrict(b, on)
  {
    OnceInMiddle(a, x, b);
    LevelSplit(a, x, b, on - {x});
    RestrictSame(a, on, on - {x});
    RestrictSame(b, on, on - {x});
    RestrictIn(a + [x] + b, on - {x});
    ConcatNone(Restrict(a, on));
  }

  /** The level that x joins. */
  lemma LinkBehindLevel(m: SkMemory, a: seq<nat>, x: nat, b: seq<nat>, i: nat, node: nat)
    requires Proper(a + b) && x != HEAD && x !in a + b && HasLink(m, x, i) && Linked(m, i, a + b)
    requires node == Stop(a, |a|)
    ensures HasLink(m, node, i) && node != x
    ensures Linked(LinkBehind(m, node, x, i), i, a + [x] + b)
  {
    var l := a + b;
    assert Stop(l, |a|) == node;
    assert LinkOk(m, i, l, |a|);
    StopIs(l, |a|);
    StopsLinked(m, i, l);
    LinkedInsert(m, LinkBehind(m, node, x, i), i, a, x, b);
  }

  lemma UnlinkLevel(m: SkMemory, a: seq<nat>, x: nat, b: seq<nat>, i: nat, node: nat)
    requires Proper(a + [x] + b) && Linked(m, i, a + [x] + b) && node == Stop(a, |a|)
    ensures HasLink(m, node, i) && HasLink(m, x, i) && LinkAt(m, node, i) == x && node != x
    ensures LinkAt(m, x, i) == Stop(a + b, |a| + 1)
    ensures Linked(SetLink(m, node, i, m[x].link[i]), i, a + b)
  {
    var l := a + [x] + b;
    assert Stop(l, |a|) == node && Stop(l, |a| + 1) == x && Stop(l, |a| + 2) == Stop(a + b, |a| + 1);
    assert LinkOk(m, i, l, |a|) && LinkOk(m, i, l, |a| + 1);
    StopsLinked(m, i, l);
    assert forall n :: n in a + b ==> n in l;
    LinkedRemove(m, SetLink(m, node, i, m[x].link[i]), i, a, x, b);
  }

  /** Links changed on level i only. */
  ghost predicate OnlyLevel(m: SkMemory, m': SkMemory, i: nat) {
    forall n, j: nat :: HasLink(m, n, j) && j != i ==> HasLink(m', n, j) && LinkAt(m', n, j) == LinkAt(m, n, j)
  }

  lemma OtherLevels(m: SkMemory, m': SkMemory, base: seq<nat>, on: seq<set<nat>>, i: nat, set_i: set<nat>)
    requires AllLinked(m, base, on) && OnlyLevel(m, m', i) && i < |on|
    requires Linked(m', i, Restrict(base, set_i))
    ensures AllLinked(m', base, on[i := set_i])
  {
    var on' := on[i := set_i];
    forall j | 0 <= j < |on'| ensures Linked(m', j, Level(base, on', j)) {
      if j != i {
        assert Linked(m, j, Level(base, on, j));
        StopsLinked(m, j, Level(base, on, j));
        LinkedFrame(m, m', j, Level(base, on, j));
      }
    }
  }

  lemma StopsLinked(m: SkMemory, i: nat, l: seq<nat>)
    requires Linked(m, i, l)
    ensures forall n :: n == HEAD || n in l ==> HasLink(m, n, i)
  {
    assert LinkOk(m, i, l, 0);
    forall n | n in l ensures HasLink(m, n, i) {
      var k :| 0 <= k < |l| && l[k] == n;
      assert LinkOk(m, i, l, k + 1);
    }
  }

  // ----- prev links -----

  /** Linking x on level 0 also turns the two prev links. */
  lemma PrevLink(m: SkMemory, m1: SkMemory, a: seq<nat>, x: nat, b: seq<nat>, node: nat)
    requires Proper(a + b) && x != HEAD && x !in a + b && PrevLinked(m, a + b) && node == Stop(a, |a|)
    requires HasLink(m1, x, 0) && LinkAt(m1, x, 0) == Stop(a + b, |a| + 1)
    requires m1.Keys == m.Keys && forall n :: n in m ==> m1[n].prev == m[n].prev
    ensures Stop(a + b, |a| + 1) in m && Stop(a + b, |a| + 1) != x
    ensures PrevLinked(SetPrev(SetPrev(m1, x, node), Stop(a + b, |a| + 1), x), a + [x] + b)
  {
    var l := a + b;
    assert PrevOk(m, l, |a|) && PrevOk(m, l, |l|);
    forall n | n in l ensures n in m {
      var k :| 0 <= k < |l| && l[k] == n;
      assert PrevOk(m, l, k);
    }
    assert Stop(l, |a|) == node;
    PrevInsert(m, SetPrev(SetPrev(m1, x, node), Stop(l, |a| + 1), x), a, x, b);
  }

  /** Prev links do not matter to the levels. */
  lemma PrevOnlyLinks(m: SkMemory, m': SkMemory, base: seq<nat>, on: seq<set<nat>>)
    requires AllLinked(m, base, on)
    requires m'.Keys == m.Keys && forall n :: n in m ==> m'[n].link == m[n].link
    ensures AllLinked(m', base, on)
  {
    forall j | 0 <= j < |on| ensures Linked(m', j, Level(base, on, j)) {
      var l := Level(base, on, j);
      assert Linked(m, j, l);
      StopsLinked(m, j, l);
      forall n | n == HEAD || n in l ensures HasLink(m', n, j) && LinkAt(m', n, j) == LinkAt(m, n, j) {
        assert HasLink(m, n, j);
      }
      LinkedFrame(m, m', j, l);
    }
  }

  // ----- a node on its way in -----

  /** x stands between a and b, and is linked on the levels from i up to its own height lv. */
  ghost predicate Inserting(m: SkMemory, on: seq<set<nat>>, before: seq<set<nat>>, a: seq<nat>, x: nat,
                            b: seq<nat>, i: nat, lv: nat) {
    && |on| == |before| > 0 && Proper(a + [x] + b)
    && (forall j :: 0 <= j < |on| ==> x !in before[j])
    && (forall j :: 0 <= j < |on| ==> on[j] == if i <= j < lv then before[j] + {x} else before[j])
    && AllLinked(m, a + [x] + b, on) && PrevLinked(m, Level(a + [x] + b, on, 0))
    && x in m && |m[x].link| == lv <= |on|
  }

  /** The assignments of skiplist.c:141-146. */
  ghost function Linking(m: SkMemory, node: nat, x: nat, i: nat): SkMemory
    requires HasLink(m, node, i) && HasLink(m, x, i) && node != x
  {
    var m1 := LinkBehind(m, node, x, i);
    if i == 0 && m[node].link[0] in m1 then SetPrev(SetPrev(m1, x, node), m[node].link[0], x) else m1
  }

  /** Level i of `base` has ai before and bi behind the place of x. */
  ghost predicate Flanked(base: seq<nat>, on: set<nat>, ai: seq<nat>, x: nat, bi: seq<nat>) {
    && Restrict(base, on - {x}) == ai + bi && Restrict(base, on + {x}) == ai + [x] + bi
    && Proper(ai + bi) && Proper(ai + [x] + bi) && x != HEAD && x !in ai + bi
  }

  lemma LevelFlanked(a: seq<nat>, x: nat, b: seq<nat>, on: set<nat>)
    requires Proper(a + [x] + b)
    ensures Flanked(a + [x] + b, on, Restrict(a, on), x, Restrict(b, on))
  {
    LevelWithout(a, x, b, on);
    LevelWith(a, x, b, on);
    assert x in a + [x] + b;
  }

  lemma LinkingLevels(m: SkMemory, on: seq<set<nat>>, base: seq<nat>, x: nat, i: nat, node: nat, ai: seq<nat>,
                      bi: seq<nat>)
    requires i < |on| && AllLinked(m, base, on) && HasLink(m, x, i)
    requires x !in on[i] && Flanked(base, on[i], ai, x, bi) && node == Stop(ai, |ai|)
    ensures HasLink(m, node, i) && node != x && LinkAt(m, node, i) == Stop(ai + bi, |ai| + 1)
    ensures AllLinked(LinkBehind(m, node, x, i), base, on[i := on[i] + {x}])
  {
    assert on[i] - {x} == on[i];
    assert Linked(m, i, Level(base, on, i));
    LinkBehindLevel(m, ai, x, bi, i, node);
    OtherLevels(m, LinkBehind(m, node, x, i), base, on, i, on[i] + {x});
    assert LinkOk(m, i, ai + bi, |ai|) && Stop(ai + bi, |ai|) == node;
  }

  lemma LinkingPrev(m: SkMemory, on: set<nat>, base: seq<nat>, x: nat, node: nat, ai: seq<nat>, bi: seq<nat>)
    requires x !in on && PrevLinked(m, Restrict(base, on)) && HasLink(m, x, 0)
    requires Flanked(base, on, ai, x, bi) && node == Stop(ai, |ai|)
    requires HasLink(m, node, 0) && node != x && LinkAt(m, node, 0) == Stop(ai + bi, |ai| + 1)
    ensures m[node].link[0] in m && m[node].link[0] != x
    ensures PrevLinked(Linking(m, node, x, 0), Restrict(base, on + {x}))
  {
    assert on - {x} == on;
    PrevLink(m, LinkBehind(m, node, x, 0), ai, x, bi, node);
  }

  /** Links and prev links, seen from the level that gets x. */
  lemma LinkMemory(m: SkMemory, on: seq<set<nat>>, base: seq<nat>, x: nat, i: nat, node: nat, ai: seq<nat>,
                   bi: seq<nat>)
    requires i < |on| && AllLinked(m, base, on) && PrevLinked(m, Level(base, on, 0)) && HasLink(m, x, i)
    requires x !in on[i] && Flanked(base, on[i], ai, x, bi) && node == Stop(ai, |ai|)
    ensures HasLink(m, node, i) && node != x && (i == 0 ==> m[node].link[0] in m && m[node].link[0] != x)
    ensures var m', on' := Linking(m, node, x, i), on[i := on[i] + {x}];
      AllLinked(m', base, on') && PrevLinked(m', Level(base, on', 0)) && x in m' && |m'[x].link| == |m[x].link|
  {
    var on' := on[i := on[i] + {x}];
    LinkingLevels(m, on, base, x, i, node, ai, bi);
    var m' := Linking(m, node, x, i);
    if i == 0 {
      LinkingPrev(m, on[0], base, x, node, ai, bi);
      PrevOnlyLinks(LinkBehind(m, node, x, i), m', base, on');
    } else {
      PrevFrame(m, m', Level(base, on, 0));
    }
  }

  lemma LinkingStep(m: SkMemory, on: seq<set<nat>>, before: seq<set<nat>>, a: seq<nat>, x: nat, b: seq<nat>,
                    i: nat, lv: nat, node: nat)
    requires Inserting(m, on, before, a, x, b, i + 1, lv) && i < lv
    requires node == Stop(Restrict(a, on[i]), |Restrict(a, on[i])|)
    ensures HasLink(m, node, i) && node != x && (i == 0 ==> m[node].link[0] in m && m[node].link[0] != x)
    ensures Inserting(Linking(m, node, x, i), on[i := on[i] + {x}], before, a, x, b, i, lv)
  {
    assert on[i] == before[i];
    LevelFlanked(a, x, b, on[i]);
    LinkMemory(m, on, a + [x] + b, x, i, node, Restrict(a, on[i]), Restrict(b, on[i]));
  }

  /** A fresh node that no level has yet. */
  lemma InsertingStart(m: SkMemory, on: seq<set<nat>>, a: seq<nat>, x: nat, b: seq<nat>, v: SkNode, i: nat)
    requires |on| > 0 && Proper(a + b) && x != HEAD && x !in m && |v.link| <= |on| && |v.link| <= i
    requires (forall j :: 0 <= j < |on| ==> x !in on[j]) && (forall n :: n in a + b ==> n in m) && HEAD in m
    requires AllLinked(m, a + b, on) && PrevLinked(m, Level(a + b, on, 0))
    ensures Inserting(m[x := v], on, on, a, x, b, i, |v.link|)
  {
    var m' := m[x := v];
    assert x !in a + b;
    InsertProper(a, x, b);
    forall j | 0 <= j < |on|
      ensures Level(a + [x] + b, on, j) == Level(a + b, on, j)
    {
      SkipAbsent(a, x, b, on[j]);
    }
    forall j | 0 <= j < |on| ensures Linked(m', j, Level(a + [x] + b, on, j)) {
      var l := Level(a + b, on, j);
      assert Linked(m, j, l);
      StopsLinked(m, j, l);
      forall n | n == HEAD || n in l ensures HasLink(m', n, j) && LinkAt(m', n, j) == LinkAt(m, n, j) {
        assert HasLink(m, n, j);
      }
      LinkedFrame(m, m', j, l);
    }
    PrevFrame(m, m', Level(a + b, on, 0));
  }

  lemma InsertProper(a: seq<nat>, x: nat, b: seq<nat>)
    requires Proper(a + b) && x != HEAD && x !in a + b
    ensures Proper(a + [x] + b)
  {
    var l, l' := a + b, a + [x] + b;
    forall i, j | 0 <= i < j < |l'| ensures l'[i] != l'[j] {
      assert i != |a| ==> l'[i] == l[if i < |a| then i else i - 1];
      assert j != |a| ==> l'[j] == l[if j < |a| then j else j - 1];
    }
  }

  lemma SkipAbsent(a: seq<nat>, x: nat, b: seq<nat>, on: set<nat>)
    requires x !in on
    ensures Restrict(a + [x] + b, on) == Restrict(a + b, on) == Restrict(a, on) + Restrict(b, on)
  {
    LevelSplit(a, x, b, on);
    RestrictConcat(a, b, on);
    assert Restrict(a, on) + [] + Restrict(b, on) == Restrict(a, on) + Restrict(b, on);
  }

  // ----- a node on its way out -----

  /** Level i of `base` is ai, x, bi; without x it is ai, bi. */
  lemma LevelMinus(base: seq<nat>, on: set<nat>, ai: seq<nat>, x: nat, bi: seq<nat>)
    requires Proper(base) && Restrict(base, on) == ai + [x] + bi
    ensures x in on && x in base && Restrict(base, on - {x}) == ai + bi && Proper(ai + [x] + bi) && Proper(ai + bi)
  {
    RestrictIn(base, on);
    assert x in ai + [x] + bi;
    OnceInMiddle(ai, x, bi);
    RestrictMinus(base, on, x);
    RemoveMiddle(ai, x, bi);
    RestrictIn(base, on - {x});
  }

  lemma UnlinkingLevels(m: SkMemory, on: seq<set<nat>>, base: seq<nat>, x: nat, i: nat, node: nat, ai: seq<nat>,
                        bi: seq<nat>)
    requires i < |on| && AllLinked(m, base, on) && Proper(base)
    requires Restrict(base, on[i]) == ai + [x] + bi && node == Stop(ai, |ai|)
    ensures HasLink(m, node, i) && HasLink(m, x, i) && LinkAt(m, node, i) == x && node != x
    ensures LinkAt(m, x, i) == Stop(ai + bi, |ai| + 1)
    ensures AllLinked(SetLink(m, node, i, m[x].link[i]), base, on[i := on[i] - {x}])
    ensures Restrict(base, on[i] - {x}) == ai + bi && Proper(ai + bi) && x in on[i]
    ensures node == LinkAt(m, x, i) <==> ai + bi == []
  {
    LevelMinus(base, on[i], ai, x, bi);
    assert Linked(m, i, Level(base, on, i));
    UnlinkLevel(m, ai, x, bi, i, node);
    OtherLevels(m, SetLink(m, node, i, m[x].link[i]), base, on, i, on[i] - {x});
    if ai != [] && bi != [] { assert (ai + bi)[|ai| - 1] != (ai + bi)[|ai|]; }
    if ai != [] { assert (ai + bi)[|ai| - 1] != HEAD; }
    if bi != [] { assert (ai + bi)[|ai|] != HEAD; }
  }

  /** Unlinking x on level 0 also turns one prev link. */
  lemma UnlinkingPrev(m: SkMemory, m1: SkMemory, a: seq<nat>, x: nat, b: seq<nat>, node: nat)
    requires Proper(a + [x] + b) && PrevLinked(m, a + [x] + b) && node == Stop(a, |a|)
    requires m1.Keys == m.Keys && forall n :: n in m ==> m1[n].prev == m[n].prev
    ensures Stop(a + b, |a| + 1) in m && Stop(a + b, |a| + 1) != x
    ensures PrevLinked(SetPrev(m1, Stop(a + b, |a| + 1), node), a + b)
  {
    var l := a + [x] + b;
    assert PrevOk(m, l, |a| + 1) && PrevOk(m, l, |l|) && Stop(l, |a| + 2) == Stop(a + b, |a| + 1);
    forall n | n in a + b ensures n in m {
      assert n in l;
      var k :| 0 <= k < |l| && l[k] == n;
      assert PrevOk(m, l, k);
    }
    PrevRemove(m, SetPrev(m1, Stop(a + b, |a| + 1), node), a, x, b);
  }

  /** A node that is on no level may be freed. */
  lemma FreedLevels(m: SkMemory, on: seq<set<nat>>, a: seq<nat>, x: nat, b: seq<nat>)
    requires |on| > 0 && Proper(a + [x] + b) && AllLinked(m, a + [x] + b, on)
    requires (forall j :: 0 <= j < |on| ==> x !in on[j]) && PrevLinked(m, Level(a + [x] + b, on, 0))
    ensures Proper(a + b) && AllLinked(m - {x}, a + b, on) && PrevLinked(m - {x}, Level(a + b, on, 0))
  {
    var m' := m - {x};
    WithoutProper(a, x, b);
    forall j | 0 <= j < |on|
      ensures Linked(m', j, Level(a + b, on, j)) && Level(a + b, on, j) == Level(a + [x] + b, on, j)
    {
      var l := Level(a + [x] + b, on, j);
      SkipAbsent(a, x, b, on[j]);
      LevelProper(a + [x] + b, on, j);
      assert Linked(m, j, l);
      StopsLinked(m, j, l);
      assert x in a + [x] + b && x !in l && x != HEAD;
      LinkedFrame(m, m', j, l);
    }
    LevelProper(a + [x] + b, on, 0);
    assert x in a + [x] + b;
    PrevFrame(m, m', Level(a + b, on, 0));
  }

  lemma WithoutProper(a: seq<nat>, x: nat, b: seq<nat>)
    requires Proper(a + [x] + b)
    ensures Proper(a + b)
  {
    var l, l' := a + [x] + b, a + b;
    forall i | 0 <= i < |l'| ensures l'[i] == l[if i < |a| then i else i + 1] {}
    assert HEAD !in l' by { assert forall n :: n in l' ==> n in l; }
  }

  /** A level without its first node of b, if that is one of the equal ones. */
  ghost function Dropped(b: seq<nat>, on: set<nat>, eq: set<nat>): set<nat> {
    var bi := Restrict(b, on);
    if bi != [] && bi[0] in eq then on - {bi[0]} else on
  }

  /** The node that delete destroys: the first match on level 0. */
  ghost function Hit(b: seq<nat>, on: set<nat>, eq: set<nat>): nat {
    var b0 := Restrict(b, on);
    if b0 != [] && b0[0] in eq then b0[0] else HEAD
  }

  ghost predicate Counted(level: nat, base: seq<nat>, on: seq<set<nat>>) {
    level <= |on| && forall j :: 0 <= j < |on| ==> (j < level <==> Level(base, on, j) != [])
  }

  /** The levels from i up have dropped their first match, the others not yet. */
  ghost predicate Deleting(m: SkMemory, on: seq<set<nat>>, before: seq<set<nat>>, a: seq<nat>, b: seq<nat>,
                           eq: set<nat>, i: nat, level: nat) {
    && |on| == |before| > 0 && Proper(a + b) && Nested(before)
    && (forall j :: 0 <= j < |on| ==> on[j] == if j >= i then Dropped(b, before[j], eq) else before[j])
    && AllLinked(m, a + b, on) && PrevLinked(m, Level(a + b, on, 0)) && Counted(level, a + b, on)
  }

  /** Whatever a level above still has after dropping its match, it is not x. */
  lemma MatchDropped(b: seq<nat>, on: set<nat>, above: set<nat>, eq: set<nat>)
    requires above <= on && Restrict(b, on) != [] && Restrict(b, on)[0] in eq
    ensures Restrict(b, on)[0] !in Dropped(b, above, eq)
  {
    if Restrict(b, on)[0] in above { FirstStaysFirst(b, on, above); }
  }

  /** The last node of a level was dropped: nothing was left above it. */
  lemma TopDropped(on: seq<set<nat>>, before: seq<set<nat>>, a: seq<nat>, b: seq<nat>, eq: set<nat>, i: nat, x: nat)
    requires |on| == |before| && i + 1 < |on| && Nested(before)
    requires on[i + 1] == Dropped(b, before[i + 1], eq)
    requires Restrict(a + b, before[i]) == [x]
    requires Restrict(b, before[i]) != [] && Restrict(b, before[i])[0] == x && x in eq
    ensures Level(a + b, on, i + 1) == []
  {
    NestedUp(before, i, i + 1);
    MatchDropped(b, before[i], before[i + 1], eq);
    RestrictIn(a + b, before[i]);
    forall y | y in a + b ensures y !in on[i + 1] {
      assert y in before[i] ==> y in Restrict(a + b, before[i]);
    }
    RestrictNone(a + b, on[i + 1]);
  }

  ghost function Unlinking(m: SkMemory, node: nat, x: nat, i: nat): SkMemory
    requires HasLink(m, node, i) && HasLink(m, x, i)
  {
    var m1 := SetLink(m, node, i, m[x].link[i]);
    if i == 0 && m[x].link[0] in m1 then SetPrev(m1, m[x].link[0], node) else m1
  }

  /** Links, prev links and level count, seen from the level that loses x. */
  lemma UnlinkMemory(m: SkMemory, on: seq<set<nat>>, base: seq<nat>, i: nat, node: nat, x: nat, ai: seq<nat>,
                     bi: seq<nat>)
    requires i < |on| && Proper(base) && AllLinked(m, base, on) && PrevLinked(m, Level(base, on, 0))
    requires Restrict(base, on[i]) == ai + [x] + bi && node == Stop(ai, |ai|)
    ensures HasLink(m, node, i) && HasLink(m, x, i) && LinkAt(m, node, i) == x && node != x
    ensures i == 0 ==> m[x].link[0] in m && m[x].link[0] != x
    ensures var on' := on[i := on[i] - {x}];
      AllLinked(Unlinking(m, node, x, i), base, on') && PrevLinked(Unlinking(m, node, x, i), Level(base, on', 0))
    ensures Level(base, on[i := on[i] - {x}], i) == ai + bi && (node == m[x].link[i] <==> ai + bi == [])
  {
    var on' := on[i := on[i] - {x}];
    UnlinkingLevels(m, on, base, x, i, node, ai, bi);
    var m1, m' := SetLink(m, node, i, m[x].link[i]), Unlinking(m, node, x, i);
    if i == 0 {
      LevelMinus(base, on[0], ai, x, bi);
      UnlinkingPrev(m, m1, ai, x, bi, node);
      PrevOnlyLinks(m1, m', base, on');
    } else {
      PrevFrame(m, m', Level(base, on, 0));
    }
  }

  lemma UnlinkCount(level: nat, base: seq<nat>, on: seq<set<nat>>, on': seq<set<nat>>, i: nat)
    requires |on'| == |on| && i < |on| && Counted(level, base, on) && Level(base, on, i) != []
    requires forall j :: 0 <= j < |on| && j != i ==> on'[j] == on[j]
    requires Level(base, on', i) == [] && i + 1 < |on| ==> Level(base, on, i + 1) == []
    ensures level > 0 && Counted(if Level(base, on', i) == [] then level - 1 else level, base, on')
  {
    assert i < level;
    assert forall j :: 0 <= j < |on| && j != i ==> Level(base, on', j) == Level(base, on, j);
    if Level(base, on', i) == [] { assert level == i + 1; }
  }

  lemma FirstOfRest(a: seq<nat>, b: seq<nat>, on: set<nat>)
    requires Restrict(b, on) != []
    ensures Restrict(a + b, on) == Restrict(a, on) + [Restrict(b, on)[0]] + Restrict(b, on)[1..]
  {
    RestrictConcat(a, b, on);
    var bi := Restrict(b, on);
    assert bi == [bi[0]] + bi[1..];
    ConcatAssoc(Restrict(a, on), [bi[0]], bi[1..]);
  }

  lemma UnlinkStep(m: SkMemory, on: seq<set<nat>>, before: seq<set<nat>>, a: seq<nat>, b: seq<nat>, eq: set<nat>,
                   i: nat, level: nat,
                   node: nat, x: nat)
    requires Deleting(m, on, before, a, b, eq, i + 1, level) && i < |on|
    requires node == Stop(Restrict(a, on[i]), |Restrict(a, on[i])|)
    requires Restrict(b, on[i]) != [] && x == Restrict(b, on[i])[0] && x in eq
    ensures HasLink(m, node, i) && HasLink(m, x, i) && level > 0 && LinkAt(m, node, i) == x && node != x
    ensures i == 0 ==> m[x].link[0] in m && m[x].link[0] != x
    ensures Deleting(Unlinking(m, node, x, i), on[i := on[i] - {x}], before, a, b, eq, i,
                     if node == m[x].link[i] then level - 1 else level)
  {
    var base, ai, bi := a + b, Restrict(a, on[i]), Restrict(b, on[i])[1..];
    var on' := on[i := on[i] - {x}];
    assert on[i] == before[i];
    FirstOfRest(a, b, on[i]);
    UnlinkMemory(m, on, base, i, node, x, ai, bi);
    if ai + bi == [] && i + 1 < |on| {
      assert Restrict(base, on[i]) == [x];
      TopDropped(on, before, a, b, eq, i, x);
    }
    UnlinkCount(level, base, on, on', i);
    DropOne(on, before, b, eq, i, x);
  }

  lemma DropOne(on: seq<set<nat>>, before: seq<set<nat>>, b: seq<nat>, eq: set<nat>, i: nat, x: nat)
    requires |on| == |before| && i < |on| && Restrict(b, on[i]) != [] && x == Restrict(b, on[i])[0] && x in eq
    requires forall j :: 0 <= j < |on| ==> on[j] == if j >= i + 1 then Dropped(b, before[j], eq) else before[j]
    ensures var on' := on[i := on[i] - {x}];
      forall j :: 0 <= j < |on'| ==> on'[j] == if j >= i then Dropped(b, before[j], eq) else before[j]
  {
  }

  /** Above the top level there is nothing to drop. */
  lemma DroppedNothing(base: seq<nat>, on: seq<set<nat>>, a: seq<nat>, b: seq<nat>, eq: set<nat>, level: nat)
    requires base == a + b && Counted(level, base, on)
    ensures forall j :: level <= j < |on| ==> Dropped(b, on[j], eq) == on[j]
    ensures level == 0 && |on| > 0 ==> Restrict(b, on[0]) == []
  {
    if level == 0 && |on| > 0 {
      assert Level(base, on, 0) == [];
      RestrictConcat(a, b, on[0]);
    }
    forall j | level <= j < |on| ensures Dropped(b, on[j], eq) == on[j] {
      assert Level(base, on, j) == [];
      RestrictConcat(a, b, on[j]);
    }
  }

  /** Without a match on level 0 no level has one. */
  lemma NoMatch(b: seq<nat>, before: seq<set<nat>>, eq: set<nat>)
    requires Nested(before) && |before| > 0 && forall n :: n in b ==> n in before[0] && n !in eq
    ensures forall j :: 0 <= j < |before| ==> Dropped(b, before[j], eq) == before[j]
  {
    forall j | 0 <= j < |before| ensures Dropped(b, before[j], eq) == before[j] {
      var bj := Restrict(b, before[j]);
      RestrictIn(b, before[j]);
      assert bj != [] ==> bj[0] in bj;
    }
  }

  /** The destroyed node is on no level any more. */
  lemma HitOffAllLevels(on: seq<set<nat>>, before: seq<set<nat>>, b: seq<nat>, eq: set<nat>, x: nat)
    requires |on| == |before| > 0 && Nested(before) && x != HEAD && x == Hit(b, before[0], eq)
    requires forall j :: 0 <= j < |on| ==> on[j] == Dropped(b, before[j], eq)
    ensures on[0] == before[0] - {x} && x in eq && forall j :: 0 <= j < |on| ==> x !in on[j]
  {
    forall j | 0 <= j < |on| ensures x !in on[j] {
      NestedUp(before, 0, j);
      MatchDropped(b, before[0], before[j], eq);
    }
  }

  /** Dropping matches keeps the levels nested. */
  lemma DroppedNested(on: seq<set<nat>>, before: seq<set<nat>>, b: seq<nat>, eq: set<nat>)
    requires |on| == |before| && Nested(before)
    requires forall j :: 0 <= j < |on| ==> on[j] == Dropped(b, before[j], eq)
    ensures Nested(on)
  {
    forall j | 0 <= j < |on| - 1 ensures on[j + 1] <= on[j] {
      NestedUp(before, j, j + 1);
      var bj := Restrict(b, before[j]);
      if bj != [] && bj[0] in eq { MatchDropped(b, before[j], before[j + 1], eq); }
    }
  }

  lemma FreedCount(a: seq<nat>, x: nat, b: seq<nat>, on: seq<set<nat>>, level: nat)
    requires Counted(level, a + [x] + b, on) && forall j :: 0 <= j < |on| ==> x !in on[j]
    ensures Counted(level, a + b, on)
  {
    forall j | 0 <= j < |on| ensures Level(a + b, on, j) == Level(a + [x] + b, on, j) {
      SkipAbsent(a, x, b, on[j]);
    }
  }
}
