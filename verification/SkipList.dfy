/** The skip list of skiplist.c, for any total preorder on keys, any random levels and duplicate
    keys. */
module SkipList {
  import opened Options
  import opened Sequences
  import opened Powers
  import opened SkipLinks
  import opened SkipLevels

  const RAND_MAX: nat := 0x7fff_ffff

  /** The largest random number with which a node still reaches level k + 1. */
  ghost function Share(k: nat): nat {
    Pow2Monotone(0, k);
    RAND_MAX / Pow2(k)
  }

  /** Each level up halves the share of the random numbers. */
  lemma ShareHalves(k: nat)
    ensures Share(0) == RAND_MAX == 2147483647 && Share(k + 1) == Share(k) / 2
  {
    Pow2Monotone(0, k);
    HalfOfQuotient(RAND_MAX, Pow2(k));
  }

  lemma HalfOfQuotient(a: nat, b: nat)
    requires b > 0
    ensures a / (2 * b) == (a / b) / 2
  {
    var q := a / b;
    var p, s := q / 2, q % 2;
    var r := b * s + a % b;
    assert a == b * q + a % b;
    assert b * q == 2 * b * p + b * s;
    assert a == (2 * b) * p + r;
    assert 0 <= r < 2 * b;
    QuotientUnique(a, 2 * b, p, r);
  }

  lemma QuotientUnique(a: nat, b: nat, p: nat, r: nat)
    requires b > 0 && a == b * p + r && r < b
    ensures a / b == p
  {
    var q := a / b;
    assert a == b * q + a % b;
    if q < p { TimesMore(b, q, p); }
    if p < q { TimesMore(b, p, q); }
  }

  lemma TimesMore(b: nat, x: nat, y: nat)
    requires x < y
    ensures b * x + b <= b * y
  {
    assert b * y == b * x + b * (y - x);
    assert b * (y - x) == b + b * (y - x - 1);
  }

  datatype Order<!K> = Order(cmp: (K, K) -> int, keyOf: nat -> K)

  ghost predicate TotalPreorder<K(!new)>(cmp: (K, K) -> int) {
    && (forall a, b :: cmp(a, b) < 0 <==> cmp(b, a) > 0)
    && (forall a, b, c :: cmp(a, b) <= 0 && cmp(b, c) <= 0 ==> cmp(a, c) <= 0)
  }

  function CmpNode<K>(o: Order<K>, m: SkMemory, key: K, n: nat): int
    requires n in m
  {
    o.cmp(key, o.keyOf(m[n].obj))
  }

  ghost predicate SortedBase<K>(o: Order<K>, m: SkMemory, base: seq<nat>) {
    && (forall n :: n in base ==> n in m)
    && (forall i, j :: 0 <= i < j < |base| ==> CmpNode(o, m, o.keyOf(m[base[i]].obj), base[j]) <= 0)
  }

  /** Where the scans stop: at the first node not before the key, or first node behind it. */
  predicate Stops<K>(o: Order<K>, m: SkMemory, key: K, n: nat, orEqual: bool)
    requires n in m
  {
    if orEqual then CmpNode(o, m, key, n) <= 0 else CmpNode(o, m, key, n) < 0
  }

  ghost predicate Splits<K>(o: Order<K>, m: SkMemory, key: K, orEqual: bool, a: seq<nat>, b: seq<nat>) {
    && (forall n :: n in a ==> n in m && !Stops(o, m, key, n, orEqual))
    && (forall n :: n in b ==> n in m && Stops(o, m, key, n, orEqual))
  }

  lemma StopsOnward<K(!new)>(o: Order<K>, m: SkMemory, key: K, orEqual: bool, x: nat, y: nat)
    requires TotalPreorder(o.cmp) && x in m && y in m && Stops(o, m, key, x, orEqual)
    requires CmpNode(o, m, o.keyOf(m[x].obj), y) <= 0
    ensures Stops(o, m, key, y, orEqual)
  {
    var a, b := o.keyOf(m[x].obj), o.keyOf(m[y].obj);
    assert o.cmp(key, a) <= 0 && o.cmp(a, b) <= 0;
    if !orEqual {
      assert o.cmp(b, key) <= 0 && o.cmp(a, b) <= 0 ==> o.cmp(a, key) <= 0;
      assert o.cmp(key, a) < 0 <==> o.cmp(a, key) > 0;
      assert o.cmp(b, key) > 0 <==> o.cmp(key, b) < 0;
    }
  }

  /** A sorted list splits into the nodes a scan passes and the nodes it stops at. */
  lemma {:induction false} SplitBase<K(!new)>(o: Order<K>, m: SkMemory, base: seq<nat>, key: K, orEqual: bool)
    returns (a: seq<nat>, b: seq<nat>)
    requires TotalPreorder(o.cmp) && SortedBase(o, m, base)
    ensures base == a + b && Splits(o, m, key, orEqual, a, b)
  {
    if base == [] {
      a, b := [], [];
    } else if Stops(o, m, key, base[0], orEqual) {
      a, b := [], base;
      forall n | n in b ensures Stops(o, m, key, n, orEqual) {
        var i :| 0 <= i < |base| && base[i] == n;
        if i > 0 { StopsOnward(o, m, key, orEqual, base[0], n); }
      }
    } else {
      a, b := SplitBase(o, m, base[1..], key, orEqual);
      a := [base[0]] + a;
    }
  }

  class SkList<K(!new)> {
    const order: Order<K>
    const maxLevel: nat
    var nodes: SkMemory
    var level: nat
    var size: nat
    ghost var base: seq<nat>
    ghost var on: seq<set<nat>>

    /** Everything but the counters and the order. */
    ghost predicate Structure()
      reads this
    {
      && |on| == maxLevel > 0 && Proper(base) && Nested(on)
      && AllLinked(nodes, base, on) && PrevLinked(nodes, Level(base, on, 0))
      && HEAD in nodes && |nodes[HEAD].link| == maxLevel
    }

    ghost predicate Valid()
      reads this
    {
      && Structure()
      && TotalPreorder(order.cmp) && SortedBase(order, nodes, base)
      && on[0] == (set n | n in base) && nodes.Keys == {HEAD} + on[0]
      && size == |base| && level <= maxLevel
      && (forall i :: 0 <= i < maxLevel ==> (i < level <==> Level(base, on, i) != []))
    }

    constructor (order: Order<K>, maxLevel: nat)
      requires TotalPreorder(order.cmp) && maxLevel > 0
      ensures Valid() && base == [] && this.order == order && this.maxLevel == maxLevel
    {
      this.order, this.maxLevel := order, maxLevel;
      nodes := map[HEAD := SkNode(seq(maxLevel, _ => HEAD), HEAD, 0)];
      level, size, base, on := 0, 0, [], seq(maxLevel, _ => {});
      new;
      forall i | 0 <= i < maxLevel ensures Linked(nodes, i, Level(base, on, i)) {
        forall k | 0 <= k <= 0 ensures LinkOk(nodes, i, [], k) {}
      }
      assert PrevOk(nodes, [], 0);
    }

    /** The inner loop of search, insert and delete: from a node that is not behind the key, along
        level i, to the last one. */
    method Scan(i: nat, start: nat, key: K, orEqual: bool, ghost a: seq<nat>, ghost b: seq<nat>) returns (node: nat)
      requires Linked(nodes, i, a + b) && Proper(a + b) && Splits(order, nodes, key, orEqual, a, b)
      requires start == HEAD || start in a
      ensures node == Stop(a, |a|) && HasLink(nodes, node, i) && nodes[node].link[i] == Stop(a + b, |a| + 1)
    {
      node := start;
      ghost var l := a + b;
      ghost var k := 0;
      if start != HEAD {
        k :| 0 <= k < |a| && a[k] == start;
        k := k + 1;
      }
      assert LinkOk(nodes, i, l, k);
      while nodes[node].link[i] != HEAD
        invariant 0 <= k <= |a| && node == Stop(l, k) && LinkOk(nodes, i, l, k)
        invariant nodes[node].link[i] == HEAD ==> k == |a|
        decreases |a| - k
      {
        assert nodes[node].link[i] in l;
        if Stops(order, nodes, key, nodes[node].link[i], orEqual) {
          assert k == |a|;
          break;
        }
        assert k < |a|;
        node := nodes[node].link[i];
        k := k + 1;
        assert LinkOk(nodes, i, l, k);
      }
    }

    /** A level splits where level 0 splits. */
    lemma LevelOf(a: seq<nat>, b: seq<nat>, i: nat)
      requires Structure() && base == a + b && i < maxLevel
      ensures Level(base, on, i) == Restrict(a, on[i]) + Restrict(b, on[i])
      ensures Proper(Restrict(a, on[i]) + Restrict(b, on[i]))
    {
      RestrictConcat(a, b, on[i]);
      LevelProper(base, on, i);
    }

    /** One level of a descent: the last node of a on level i, and the first of b behind it. */
    method ScanLevel(i: nat, start: nat, key: K, orEqual: bool, ghost a: seq<nat>, ghost b: seq<nat>)
      returns (node: nat, next: nat)
      requires i < |on| && Splits(order, nodes, key, orEqual, a, b)
      requires Linked(nodes, i, Restrict(a, on[i]) + Restrict(b, on[i]))
      requires Proper(Restrict(a, on[i]) + Restrict(b, on[i]))
      requires start == HEAD || (start in a && start in on[i])
      ensures node == Stop(Restrict(a, on[i]), |Restrict(a, on[i])|) && (node == HEAD || (node in a && node in on[i]))
      ensures HasLink(nodes, node, i) && nodes[node].link[i] == next
      ensures next == HEAD <==> Restrict(b, on[i]) == []
      ensures next != HEAD ==> next == Restrict(b, on[i])[0] && next in b && next in on[i] && next in nodes
    {
      ghost var ai, bi := Restrict(a, on[i]), Restrict(b, on[i]);
      RestrictIn(a, on[i]);
      RestrictIn(b, on[i]);
      node := Scan(i, start, key, orEqual, ai, bi);
      StopIs(ai, |ai|);
      next := nodes[node].link[i];
      if bi != [] { assert Stop(ai + bi, |ai| + 1) == bi[0] && bi[0] in bi && bi[0] in ai + bi; }
    }

    /** The same on a consistent list. */
    method SearchLevel(i: nat, start: nat, key: K, ghost a: seq<nat>, ghost b: seq<nat>) returns (node: nat, next: nat)
      requires Structure() && base == a + b && i < maxLevel && Splits(order, nodes, key, true, a, b)
      requires start == HEAD || (start in a && i + 1 < maxLevel && start in on[i + 1])
      ensures node == Stop(Restrict(a, on[i]), |Restrict(a, on[i])|) && (node == HEAD || (node in a && node in on[i]))
      ensures HasLink(nodes, node, i) && nodes[node].link[i] == next
      ensures next == HEAD <==> Restrict(b, on[i]) == []
      ensures next != HEAD ==> next == Restrict(b, on[i])[0] && next in b && next in on[i] && next in nodes
    {
      if start != HEAD { NestedUp(on, i, i + 1); }
      LevelOf(a, b, i);
      node, next := ScanLevel(i, start, key, true, a, b);
    }

    /** The k first nodes have smaller keys, the others larger ones. */
    ghost predicate Gap(key: K, k: int)
      requires forall n :: n in base ==> n in nodes
      reads this
    {
      && 0 <= k <= |base|
      && (forall n :: n in base[..k] ==> CmpNode(order, nodes, key, n) > 0)
      && (forall n :: n in base[k..] ==> CmpNode(order, nodes, key, n) < 0)
    }

    /** Some node of level j has an equal key. */
    ghost predicate MatchOn(key: K, j: int)
      requires 0 <= j < |on| && forall n :: n in base ==> n in nodes
      reads this
    {
      exists n :: n in base && n in on[j] && CmpNode(order, nodes, key, n) == 0
    }

    /** n is the first node of level j with an equal key. */
    ghost predicate FirstMatch(key: K, j: int, n: nat)
      requires 0 <= j < |on| && forall n :: n in base ==> n in nodes
      reads this
    {
      && n in base && n in on[j] && CmpNode(order, nodes, key, n) == 0
      && (forall x :: x in base && Earlier(Level(base, on, j), x, n) ==> CmpNode(order, nodes, key, x) > 0)
    }

    /** search_node: agrees with a linear scan of level 0.  It finds an object exactly when some node
        has an equal key, namely the first match of the highest level that has one; otherwise `pos`
        is the last node with a smaller key, or the head. */
    method Search(key: K) returns (obj: Option<nat>, pos: nat, ghost top: nat)
      requires Valid()
      ensures obj.Some? <==> exists n :: n in base && CmpNode(order, nodes, key, n) == 0
      ensures obj.Some? ==> pos in base && obj.value == nodes[pos].obj && CmpNode(order, nodes, key, pos) == 0
      ensures obj.Some? ==> top < maxLevel && FirstMatch(key, top, pos)
      ensures obj.Some? ==> forall j :: top < j < maxLevel ==> !MatchOn(key, j)
      ensures obj.None? ==> exists k :: Gap(key, k) && pos == Stop(base, k)
    {
      ghost var a, b := SplitBase(order, nodes, base, key, true);
      var found, node;
      found, node, top := Descent(key, a, b);
      if found {
        FirstOnLevel(key, a, b, top, node);
        return Some(nodes[node].obj), node, top;
      }
      Missed(key, a, b);
      assert node == Stop(base, |a|);
      return None, node, 0;
    }

    /** The levels of search_node from the top down: stops at an equal key, or at the last node of
        a when the first node of b has a larger one. */
    method Descent(key: K, ghost a: seq<nat>, ghost b: seq<nat>) returns (found: bool, node: nat, ghost top: nat)
      requires Valid() && base == a + b && Splits(order, nodes, key, true, a, b)
      ensures found ==> node in base && CmpNode(order, nodes, key, node) == 0
      ensures found ==> top < maxLevel && Restrict(b, on[top]) != [] && node == Restrict(b, on[top])[0]
      ensures found ==> NoneFrom(key, top + 1)
      ensures !found ==> node == Stop(a, |a|) && (b == [] || CmpNode(order, nodes, key, b[0]) < 0)
    {
      node := HEAD;
      var i := level;
      NothingAbove(key);
      if level == 0 { EmptyList0(); }
      while i > 0
        invariant 0 <= i <= level && NoneFrom(key, i)
        invariant node == HEAD || (node in a && i < maxLevel && node in on[i])
        invariant i == 0 ==> node == Stop(a, |a|) && (b == [] || CmpNode(order, nodes, key, b[0]) < 0)
      {
        i := i - 1;
        found, node := TryLevel(i, node, key, a, b);
        if found { return true, node, i; }
      }
      found, top := false, 0;
    }

    /** One level: its first match, or the last node of a there. */
    method TryLevel(i: nat, start: nat, key: K, ghost a: seq<nat>, ghost b: seq<nat>) returns (found: bool, node: nat)
      requires Valid() && base == a + b && i < maxLevel && Splits(order, nodes, key, true, a, b)
      requires start == HEAD || (start in a && i + 1 < maxLevel && start in on[i + 1])
      ensures found ==> node in base && CmpNode(order, nodes, key, node) == 0
      ensures found ==> Restrict(b, on[i]) != [] && node == Restrict(b, on[i])[0]
      ensures !found ==> !MatchOn(key, i) && (node == HEAD || (node in a && node in on[i]))
      ensures !found && i == 0 ==> node == Stop(a, |a|) && (b == [] || CmpNode(order, nodes, key, b[0]) < 0)
    {
      var next;
      node, next := SearchLevel(i, start, key, a, b);
      if next != HEAD && CmpNode(order, nodes, key, next) == 0 {
        return true, next;
      }
      found := false;
      NoneOnLevel(key, a, b, i);
      Level0(a, b);
    }

    /** No level from i on has a match. */
    ghost predicate NoneFrom(key: K, i: int)
      requires 0 <= i && |on| == maxLevel && forall n :: n in base ==> n in nodes
      reads this
    {
      forall j :: i <= j < maxLevel ==> !MatchOn(key, j)
    }

    lemma EmptyList0()
      requires Valid() && level == 0
      ensures base == []
    {
      assert Level(base, on, 0) == [];
      RestrictAll(base, on[0]);
    }

    /** The levels above the top one are empty. */
    lemma NothingAbove(key: K)
      requires Valid()
      ensures NoneFrom(key, level)
    {
      forall j | level <= j < maxLevel ensures !MatchOn(key, j) {
        assert Level(base, on, j) == [];
        RestrictIn(base, on[j]);
      }
    }

    /** A level whose first node of b has a larger key has no equal one. */
    lemma NoneOnLevel(key: K, a: seq<nat>, b: seq<nat>, j: nat)
      requires Valid() && base == a + b && Splits(order, nodes, key, true, a, b) && j < maxLevel
      requires var bj := Restrict(b, on[j]); bj == [] || (bj[0] in nodes && CmpNode(order, nodes, key, bj[0]) < 0)
      ensures !MatchOn(key, j)
    {
      LevelOf(a, b, j);
      RestrictSorted(order, nodes, base, on[j]);
      SplitsRestrict(order, nodes, key, a, b, on[j]);
      NoneEqual(order, nodes, Level(base, on, j), Restrict(a, on[j]), Restrict(b, on[j]), key);
      RestrictIn(base, on[j]);
    }

    lemma FirstOnLevel(key: K, a: seq<nat>, b: seq<nat>, j: nat, n: nat)
      requires Valid() && base == a + b && Splits(order, nodes, key, true, a, b) && j < maxLevel
      requires Restrict(b, on[j]) != [] && n == Restrict(b, on[j])[0] && n in base && CmpNode(order, nodes, key, n) == 0
      ensures FirstMatch(key, j, n)
    {
      var ai, bi := Restrict(a, on[j]), Restrict(b, on[j]);
      LevelOf(a, b, j);
      RestrictIn(a, on[j]);
      RestrictIn(b, on[j]);
      assert bi[0] in bi;
      forall x | x in base && Earlier(Level(base, on, j), x, n) ensures CmpNode(order, nodes, key, x) > 0 {
        BeforeFirst(ai, bi, x);
      }
    }

    /** The node found is the first of all matches exactly when that one reaches the level of the find. */
    lemma FoundFirstIff(key: K, top: nat, pos: nat, first: nat)
      requires Valid() && top < maxLevel && FirstMatch(key, top, pos) && FirstMatch(key, 0, first)
      ensures pos == first <==> first in on[top]
    {
      if first in on[top] && pos != first {
        RestrictAll(base, on[0]);
        EarlierTotal(base, pos, first);
        EarlierRestrict(base, on[top], first, pos);
      }
    }

    lemma Missed(key: K, a: seq<nat>, b: seq<nat>)
      requires Valid() && base == a + b && Splits(order, nodes, key, true, a, b)
      requires b == [] || CmpNode(order, nodes, key, b[0]) < 0
      ensures Gap(key, |a|) && forall n :: n in base ==> CmpNode(order, nodes, key, n) != 0
    {
      NoneEqual(order, nodes, base, a, b, key);
      assert base[..|a|] == a && base[|a|..] == b;
    }

    // ----- insert -----

    /** rand_level on the random number t: the number of doublings of j that leave t within
        RAND_MAX / j, at least 1 and at most the maximum. */
    method RandLevel(t: nat) returns (i: nat)
      requires maxLevel > 0
      modifies this`level
      ensures 1 <= i <= maxLevel && level == if i > old(level) then i else old(level)
      ensures forall k :: 1 <= k < i ==> t <= Share(k)
      ensures i < maxLevel ==> t > Share(i)
    {
      i := 1;
      var j := 2;
      while i < maxLevel
        invariant 1 <= i <= maxLevel && j == Pow2(i) && level == old(level)
        invariant forall k :: 1 <= k < i ==> t <= Share(k)
      {
        Pow2Monotone(0, i);
        if t > RAND_MAX / j { break; }
        i := i + 1;
        j := j + j;
      }
      if i > level { level := i; }
    }

    /** skiplist.c:140-147: links x behind node on level i. */
    method LinkLevel(i: nat, node: nat, x: nat, ghost a: seq<nat>, ghost b: seq<nat>, ghost before: seq<set<nat>>,
                     ghost lv: nat)
      requires Inserting(nodes, on, before, a, x, b, i + 1, lv) && i < lv
      requires node == Stop(Restrict(a, on[i]), |Restrict(a, on[i])|)
      modifies this`nodes, this`on
      ensures Inserting(nodes, on, before, a, x, b, i, lv)
      ensures nodes.Keys == old(nodes).Keys
      ensures forall n :: n in nodes ==> nodes[n].obj == old(nodes)[n].obj && |nodes[n].link| == |old(nodes)[n].link|
    {
      LinkingStep(nodes, on, before, a, x, b, i, lv, node);
      on := on[i := on[i] + {x}];
      var m := SetLink(nodes, x, i, nodes[node].link[i]);
      m := SetLink(m, node, i, x);
      if i == 0 {
        m := SetPrev(m, x, node);
        m := SetPrev(m, m[x].link[0], x);
      }
      nodes := m;
    }

    /** The scan of one level while x is on its way in. */
    method InsertScan(i: nat, start: nat, key: K, x: nat, ghost a: seq<nat>, ghost b: seq<nat>,
                      ghost before: seq<set<nat>>, ghost lv: nat)
      returns (node: nat)
      requires Inserting(nodes, on, before, a, x, b, i + 1, lv) && i < |on| && Nested(before)
      requires Splits(order, nodes, key, false, a, b)
      requires start == HEAD || (start in a && i + 1 < |on| && start in before[i + 1])
      ensures node == Stop(Restrict(a, on[i]), |Restrict(a, on[i])|)
      ensures (node == HEAD || (node in a && node in before[i]))
    {
      assert on[i] == before[i];
      SkipAbsent(a, x, b, on[i]);
      LevelProper(a + [x] + b, on, i);
      if start != HEAD { NestedUp(before, i, i + 1); }
      var next;
      node, next := ScanLevel(i, start, key, false, a, b);
    }

    /** skiplist.c:128-148: links x from the top level to the bottom. */
    method LinkAll(x: nat, height: nat, key: K, ghost a: seq<nat>, ghost b: seq<nat>, ghost before: seq<set<nat>>)
      requires Inserting(nodes, on, before, a, x, b, level, height) && level <= |on| && Nested(before)
      requires Splits(order, nodes, key, false, a, b)
      modifies this`nodes, this`on
      ensures Inserting(nodes, on, before, a, x, b, 0, height)
      ensures nodes.Keys == old(nodes).Keys
      ensures forall n :: n in nodes ==> nodes[n].obj == old(nodes)[n].obj && |nodes[n].link| == |old(nodes)[n].link|
    {
      var node, i := HEAD, level;
      while i > 0
        invariant 0 <= i <= level && Inserting(nodes, on, before, a, x, b, i, height)
        invariant node == HEAD || (node in a && i < |on| && node in before[i])
        invariant nodes.Keys == old(nodes).Keys
        invariant forall n :: n in nodes ==>
          nodes[n].obj == old(nodes)[n].obj && |nodes[n].link| == |old(nodes)[n].link|
        invariant Splits(order, nodes, key, false, a, b)
      {
        i := i - 1;
        node := InsertScan(i, node, key, x, a, b, before, height);
        if i < height {
          ghost var m := nodes;
          LinkLevel(i, node, x, a, b, before, height);
          SplitsFrame(order, m, nodes, key, false, a, b);
        }
      }
    }

    /** skiplist.c:123-148: makes a node of the given height and links it. */
    method LinkNew(x: nat, obj: nat, height: nat, key: K, ghost a: seq<nat>, ghost b: seq<nat>)
      requires Structure() && base == a + b && x !in nodes && height <= level <= maxLevel
      requires (forall j :: 0 <= j < maxLevel ==> x !in on[j]) && Splits(order, nodes, key, false, a, b)
      modifies this`nodes, this`on
      ensures Inserting(nodes, on, old(on), a, x, b, 0, height)
      ensures nodes.Keys == old(nodes).Keys + {x} && nodes[x].obj == obj
      ensures forall n :: n in old(nodes) ==>
        nodes[n].obj == old(nodes)[n].obj && |nodes[n].link| == |old(nodes)[n].link|
    {
      ghost var m0 := nodes;
      var v := SkNode(seq(height, _ => HEAD), HEAD, obj);
      InsertingStart(nodes, on, a, x, b, v, level);
      nodes := nodes[x := v];
      SplitsFrame(order, m0, nodes, key, false, a, b);
      LinkAll(x, height, key, a, b, on);
    }

    /** sklist_insert with a fresh node x and the random number t: x lands behind every node with
        an equal or smaller key, on exactly the levels below its random height lv. */
    method Insert(x: nat, obj: nat, t: nat) returns (ghost k: nat, ghost lv: nat)
      requires Valid() && x !in nodes
      modifies this
      ensures Valid() && 1 <= lv <= maxLevel
      ensures k <= |old(base)| && base == old(base)[..k] + [x] + old(base)[k..]
      ensures Splits(order, nodes, order.keyOf(obj), false, old(base)[..k], old(base)[k..])
      ensures nodes[x].obj == obj && forall n :: n in old(nodes) ==> nodes[n].obj == old(nodes)[n].obj
      ensures forall j :: 0 <= j < maxLevel ==> on[j] == old(on)[j] + if j < lv then {x} else {}
      ensures (forall i :: 1 <= i < lv ==> t <= Share(i)) && (lv < maxLevel ==> t > Share(lv))
    {
      var key := order.keyOf(obj);
      ghost var before, m0, l0 := on, nodes, level;
      ghost var a, b := SplitBase(order, nodes, base, key, false);
      k := |a|;
      assert base[..k] == a && base[k..] == b;
      NestedAll(on);
      var height := RandLevel(t);
      lv := height;
      LinkNew(x, obj, height, key, a, b);
      base := a + [x] + b;
      size := size + 1;
      SplitsFrame(order, m0, nodes, key, false, a, b);
      InsertDone(a, x, b, before, lv, l0, m0);
    }

    /** Once x is linked everywhere, the list is consistent again. */
    lemma InsertDone(a: seq<nat>, x: nat, b: seq<nat>, before: seq<set<nat>>, lv: nat, l0: nat, m0: SkMemory)
      requires Inserting(nodes, on, before, a, x, b, 0, lv) && Nested(before) && |on| == maxLevel && 1 <= lv
      requires base == a + [x] + b && size == |base| && TotalPreorder(order.cmp)
      requires SortedBase(order, m0, a + b) && Splits(order, m0, order.keyOf(nodes[x].obj), false, a, b)
      requires before[0] == (set n | n in a + b) && nodes.Keys == {HEAD} + before[0] + {x}
      requires HEAD in nodes && |nodes[HEAD].link| == maxLevel
      requires forall n :: n in m0 && n in nodes ==> nodes[n].obj == m0[n].obj
      requires l0 <= maxLevel && level == if lv > l0 then lv else l0
      requires forall i :: 0 <= i < maxLevel ==> (i < l0 <==> Level(a + b, before, i) != [])
      ensures Valid()
    {
      assert on[0] == (set n | n in base);
      forall i | 0 <= i < maxLevel ensures i < level <==> Level(base, on, i) != [] {
        LevelProper(base, on, i);
        if i < lv {
          assert x in base && x in on[i];
          assert x in Level(base, on, i);
        } else {
          assert on[i] == before[i];
          SkipAbsent(a, x, b, before[i]);
          assert Level(base, on, i) == Level(a + b, before, i);
        }
      }
      InsertedSorted(order, m0, nodes, a, x, b);
    }

    // ----- delete -----

    /** The nodes with a key equal to `key`. */
    ghost function Equals(key: K): set<nat>
      reads this
    {
      set n | n in nodes && CmpNode(order, nodes, key, n) == 0
    }

    /** skiplist.c:182-192: takes the matching node next out of level i; on level 0 it is destroyed. */
    method UnlinkLevel(i: nat, node: nat, next: nat, ghost a: seq<nat>, ghost b: seq<nat>, ghost eq: set<nat>,
                       ghost before: seq<set<nat>>)
      requires Deleting(nodes, on, before, a, b, eq, i + 1, level) && i < |on|
      requires node == Stop(Restrict(a, on[i]), |Restrict(a, on[i])|)
      requires Restrict(b, on[i]) != [] && next == Restrict(b, on[i])[0] && next in eq
      modifies this`nodes, this`level, this`on
      ensures Deleting(nodes, on, before, a, b, eq, i, level)
      ensures nodes.Keys == old(nodes).Keys
      ensures forall n :: n in nodes ==> nodes[n].obj == old(nodes)[n].obj && |nodes[n].link| == |old(nodes)[n].link|
    {
      UnlinkStep(nodes, on, before, a, b, eq, i, level, node, next);
      on := on[i := on[i] - {next}];
      var m := SetLink(nodes, node, i, nodes[next].link[i]);
      if node == m[node].link[i] { level := level - 1; }
      if i == 0 { m := SetPrev(m, m[next].link[0], node); }
      nodes := m;
    }

    /** The scan of one level while matches are being taken out. */
    method DeleteScan(i: nat, start: nat, key: K, ghost a: seq<nat>, ghost b: seq<nat>, ghost eq: set<nat>,
                      ghost before: seq<set<nat>>)
      returns (node: nat, next: nat)
      requires Deleting(nodes, on, before, a, b, eq, i + 1, level) && i < |on| && Splits(order, nodes, key, true, a, b)
      requires start == HEAD || (start in a && i + 1 < |on| && start in before[i + 1])
      ensures node == Stop(Restrict(a, on[i]), |Restrict(a, on[i])|)
      ensures (node == HEAD || (node in a && node in before[i]))
      ensures next == HEAD <==> Restrict(b, on[i]) == []
      ensures next != HEAD ==> next == Restrict(b, on[i])[0] && next in nodes
    {
      assert on[i] == before[i];
      RestrictConcat(a, b, on[i]);
      LevelProper(a + b, on, i);
      if start != HEAD { NestedUp(before, i, i + 1); }
      node, next := ScanLevel(i, start, key, true, a, b);
    }

    /** skiplist.c:167-194 without the free: every level drops its first match. */
    method UnlinkMatches(key: K, ghost a: seq<nat>, ghost b: seq<nat>, ghost before: seq<set<nat>>) returns (hit: nat)
      requires Structure() && base == a + b && before == on
      requires Counted(level, base, on) && Splits(order, nodes, key, true, a, b)
      modifies this`nodes, this`level, this`on
      ensures Deleting(nodes, on, before, a, b, old(Equals(key)), 0, level)
      ensures nodes.Keys == old(nodes).Keys
      ensures forall n :: n in nodes ==> nodes[n].obj == old(nodes)[n].obj && |nodes[n].link| == |old(nodes)[n].link|
      ensures hit == Hit(b, before[0], old(Equals(key)))
    {
      ghost var eq := Equals(key);
      var node, i := HEAD, level;
      hit := HEAD;
      DroppedNothing(base, on, a, b, eq, level);
      while i > 0
        invariant 0 <= i <= |on| && Deleting(nodes, on, before, a, b, eq, i, level)
        invariant node == HEAD || (node in a && i < |on| && node in before[i])
        invariant nodes.Keys == old(nodes).Keys
        invariant forall n :: n in nodes ==>
          nodes[n].obj == old(nodes)[n].obj && |nodes[n].link| == |old(nodes)[n].link|
        invariant i > 0 ==> hit == HEAD
        invariant i == 0 ==> hit == Hit(b, before[0], eq)
      {
        i := i - 1;
        SplitsFrame(order, old(nodes), nodes, key, true, a, b);
        var next;
        node, next := DeleteScan(i, node, key, a, b, eq, before);
        if next == HEAD { continue; }
        if CmpNode(order, nodes, key, next) == 0 {
          if i == 0 { hit := next; }
          UnlinkLevel(i, node, next, a, b, eq, before);
        }
      }
    }

    /** skiplist.c:190-191: frees a node that is on no level any more. */
    method Destroy(x: nat, ghost a: seq<nat>, ghost b: seq<nat>, ghost m0: SkMemory)
      requires |on| == maxLevel > 0 && Nested(on) && Proper(base) && base == a + [x] + b && size == |base|
      requires AllLinked(nodes, base, on) && PrevLinked(nodes, Level(base, on, 0)) && Counted(level, base, on)
      requires (forall j :: 0 <= j < maxLevel ==> x !in on[j]) && on[0] == (set n | n in base) - {x}
      requires nodes.Keys == {HEAD} + (set n | n in base) && |nodes[HEAD].link| == maxLevel
      requires TotalPreorder(order.cmp) && SortedBase(order, m0, base)
      requires forall n :: n in base ==> nodes[n].obj == m0[n].obj
      modifies this`nodes, this`size, this`base
      ensures Valid() && base == a + b && nodes == old(nodes) - {x}
    {
      FreedLevels(nodes, on, a, x, b);
      FreedCount(a, x, b, on, level);
      MembersWithout(a, x, b);
      FreedSorted(order, m0, nodes - {x}, a, x, b);
      nodes := nodes - {x};
      base := a + b;
      size := size - 1;
    }

    /** What a deletion leaves unchanged when no key is equal. */
    ghost predicate Untouched(base0: seq<nat>, on0: seq<set<nat>>, keys: set<nat>)
      reads this
    {
      base == base0 && on == on0 && nodes.Keys == keys
    }

    /** sklist_delete: with a the nodes before the key and b the others, destroys the first node
        of b if its key is equal.  Each level drops its own first match, which may be another node;
        still, the destroyed node is on no level. */
    method Delete(key: K) returns (hit: nat, ghost a: seq<nat>, ghost b: seq<nat>)
      requires Valid()
      modifies this
      ensures Valid() && old(base) == a + b && Splits(order, old(nodes), key, true, a, b)
      ensures hit == HEAD <==> forall n :: n in old(base) ==> CmpNode(order, old(nodes), key, n) != 0
      ensures hit == HEAD ==> Untouched(old(base), old(on), old(nodes).Keys)
      ensures hit != HEAD ==> b != [] && b[0] == hit && CmpNode(order, old(nodes), key, hit) == 0
      ensures hit != HEAD ==> base == a + b[1..] && nodes.Keys == old(nodes).Keys - {hit}
      ensures hit != HEAD ==> forall j :: 0 <= j < maxLevel ==> hit !in on[j]
      ensures forall j :: 0 <= j < maxLevel ==> on[j] == Dropped(b, old(on)[j], old(Equals(key)))
      ensures forall n :: n in nodes ==> n in old(nodes) && nodes[n].obj == old(nodes)[n].obj
    {
      ghost var before, m0, eq := on, nodes, Equals(key);
      a, b := SplitBase(order, nodes, base, key, true);
      Level0(a, b);
      hit := UnlinkMatches(key, a, b, before);
      if hit == HEAD {
        NothingHit(order, m0, base, a, b, key, before, eq);
        SameList(a, b, before, eq, m0);
      } else {
        DestroyHit(hit, a, b, before, eq, m0);
      }
    }

    /** The tail of delete once a match was found on level 0. */
    method DestroyHit(hit: nat, ghost a: seq<nat>, ghost b: seq<nat>, ghost before: seq<set<nat>>,
                      ghost eq: set<nat>, ghost m0: SkMemory)
      requires Deleting(nodes, on, before, a, b, eq, 0, level) && base == a + b && |on| == maxLevel
      requires hit != HEAD && hit == Hit(b, before[0], eq) && Restrict(b, before[0]) == b
      requires TotalPreorder(order.cmp) && SortedBase(order, m0, base) && size == |base|
      requires nodes.Keys == m0.Keys == {HEAD} + before[0] && before[0] == (set n | n in base)
      requires |nodes[HEAD].link| == maxLevel && forall n :: n in nodes ==> nodes[n].obj == m0[n].obj
      modifies this`nodes, this`size, this`base
      ensures Valid() && b != [] && b[0] == hit && hit in eq && base == a + b[1..] && nodes == old(nodes) - {hit}
      ensures forall j :: 0 <= j < maxLevel ==> hit !in on[j]
    {
      DroppedNested(on, before, b, eq);
      HitOffAllLevels(on, before, b, eq, hit);
      assert a + [hit] + b[1..] == a + b;
      Destroy(hit, a, b[1..], m0);
    }

    lemma SameList(a: seq<nat>, b: seq<nat>, before: seq<set<nat>>, eq: set<nat>, m0: SkMemory)
      requires Deleting(nodes, on, before, a, b, eq, 0, level) && base == a + b && |on| == maxLevel
      requires forall j :: 0 <= j < |before| ==> Dropped(b, before[j], eq) == before[j]
      requires TotalPreorder(order.cmp) && SortedBase(order, m0, base) && size == |base|
      requires nodes.Keys == m0.Keys == {HEAD} + before[0] && before[0] == (set n | n in base)
      requires |nodes[HEAD].link| == maxLevel && forall n :: n in nodes ==> nodes[n].obj == m0[n].obj
      ensures Valid() && on == before
    {
      assert on == before;
    }

    /** Deleting the key of the first node destroys that node. */
    method DeleteFirst(node: nat)
      requires Valid() && base != [] && base[0] == node
      modifies this
      ensures Valid() && base == old(base)[1..]
    {
      assert node in base;
      var key := order.keyOf(nodes[node].obj);
      assert CmpNode(order, nodes, key, node) == 0;
      ghost var l, m := base, nodes;
      var hit;
      ghost var a, b;
      hit, a, b := Delete(key);
      SplitFirst(order, m, a, b, key);
    }

    /** sklist_free: destroys every node exactly once, in order. */
    method FreeAll() returns (destroyed: seq<nat>)
      requires Valid()
      modifies this
      ensures destroyed == old(base) && nodes.Keys == {HEAD} && Valid() && base == [] && size == 0 && level == 0
    {
      destroyed := [];
      ghost var whole := base;
      FirstLinks();
      var node := nodes[HEAD].link[0];
      while node != HEAD
        invariant Valid() && node == Stop(base, 1) && whole == destroyed + base
        decreases |base|
      {
        Peel(destroyed, base);
        node, destroyed := FreeFirst(node, destroyed);
      }
      EmptyList();
    }

    /** skiplist.c:234-237. */
    method FreeFirst(node: nat, done: seq<nat>) returns (next: nat, destroyed: seq<nat>)
      requires Valid() && node == Stop(base, 1) && node != HEAD
      modifies this
      ensures Valid() && base == old(base)[1..] && next == Stop(base, 1) && destroyed == done + [node]
    {
      FirstLinks();
      next := nodes[node].link[0];
      DeleteFirst(node);
      destroyed := done + [node];
    }

    lemma EmptyList()
      requires Valid() && base == []
      ensures level == 0 && nodes.Keys == {HEAD}
    {
      assert Level(base, on, 0) == [];
    }

    lemma FirstLinks()
      requires Valid()
      ensures HasLink(nodes, HEAD, 0) && nodes[HEAD].link[0] == Stop(base, 1)
      ensures base == [] <==> Stop(base, 1) == HEAD
      ensures base != [] ==> HasLink(nodes, base[0], 0) && nodes[base[0]].link[0] == Stop(base[1..], 1)
    {
      Level0Is();
      assert LinkOk(nodes, 0, base, 0);
      if base != [] { assert LinkOk(nodes, 0, base, 1) && base[0] in base; }
    }

    lemma Level0Is()
      requires Valid()
      ensures Level(base, on, 0) == base && Linked(nodes, 0, base) && PrevLinked(nodes, base)
    {
      RestrictAll(base, on[0]);
    }

    /** Every level is a sorted subsequence of the level below. */
    lemma LevelSorted(i: nat)
      requires Valid() && i < maxLevel
      ensures SortedBase(order, nodes, Level(base, on, i))
      ensures i + 1 < maxLevel ==> Subsequence(Level(base, on, i + 1), Level(base, on, i))
    {
      RestrictSorted(order, nodes, base, on[i]);
      if i + 1 < maxLevel {
        NestedUp(on, i, i + 1);
        SparserIsSubsequence(base, on[i], on[i + 1]);
      }
    }

    lemma Level0(a: seq<nat>, b: seq<nat>)
      requires Valid() && base == a + b
      ensures Restrict(a, on[0]) == a && Restrict(b, on[0]) == b
    {
      RestrictAll(a, on[0]);
      RestrictAll(b, on[0]);
    }
  }

  lemma SplitsRestrict<K>(o: Order<K>, m: SkMemory, key: K, a: seq<nat>, b: seq<nat>, on: set<nat>)
    requires Splits(o, m, key, true, a, b)
    ensures Splits(o, m, key, true, Restrict(a, on), Restrict(b, on))
  {
    RestrictIn(a, on);
    RestrictIn(b, on);
  }

  /** What stands before the first of bi is in ai. */
  lemma BeforeFirst(ai: seq<nat>, bi: seq<nat>, x: nat)
    requires Proper(ai + bi) && bi != [] && Earlier(ai + bi, x, bi[0])
    ensures x in ai
  {
    var l := ai + bi;
    assert l[|ai|] == bi[0];
    var i, j :| 0 <= i < j < |l| && l[i] == x && l[j] == bi[0];
    assert j == |ai|;
  }

  method OneNode<K(!new)>(order: Order<K>, obj: nat) returns (l: SkList<K>)
    requires TotalPreorder(order.cmp)
    ensures fresh(l) && l.Valid() && l.base == [1] && l.order == order && l.maxLevel == 2
    ensures 1 in l.nodes && l.nodes[1].obj == obj && 2 !in l.nodes && l.on[1] == {}
  {
    l := new SkList(order, 2);
    ghost var on := l.on;
    assert on[1] == {} by { OffLevel(on[0], on[1]); }
    ghost var k, lv;
    k, lv := l.Insert(1, obj, RAND_MAX);
    assert Pow2(1) == 2 && RAND_MAX > Share(1);
    assert lv == 1;
  }

  lemma OffLevel(below: set<nat>, above: set<nat>)
    requires below == {} && above <= below
    ensures above == {}
  {
  }

  /** A node with an equal key lands behind, whatever its height. */
  method TwoNodes<K(!new)>(order: Order<K>, obj: nat, obj': nat) returns (l: SkList<K>)
    requires TotalPreorder(order.cmp) && order.cmp(order.keyOf(obj), order.keyOf(obj')) == 0
    ensures fresh(l) && l.Valid() && l.base == [1, 2] && l.order == order && l.maxLevel == 2 && l.on[1] == {2}
    ensures 1 in l.nodes && 2 in l.nodes && l.nodes[1].obj == obj && l.nodes[2].obj == obj'
  {
    l := OneNode(order, obj);
    assert order.cmp(order.keyOf(obj'), order.keyOf(obj)) >= 0;
    ghost var k, lv;
    k, lv := l.Insert(2, obj', 0);
    assert lv == 2;
    assert k == 1;
  }

  /** With two equal keys of which only the second reaches level 1, the search finds the second. */
  method SearchFindsSecond<K(!new)>(order: Order<K>, obj: nat, obj': nat)
    returns (l: SkList<K>, found: Option<nat>, pos: nat)
    requires TotalPreorder(order.cmp) && order.cmp(order.keyOf(obj), order.keyOf(obj')) == 0
    ensures l.Valid() && l.base == [1, 2] && 1 in l.nodes && 2 in l.nodes
    ensures l.nodes[1].obj == obj && l.nodes[2].obj == obj' && pos == 2 && found == Some(obj')
  {
    l := TwoNodes(order, obj, obj');
    ghost var top;
    assert 2 in l.base && 2 in l.on[1];
    assert l.MatchOn(order.keyOf(obj), 1);
    found, pos, top := l.Search(order.keyOf(obj));
    OnlyMatch(l, order.keyOf(obj), top, pos);
  }

  lemma OnlyMatch<K(!new)>(l: SkList<K>, key: K, top: nat, pos: nat)
    requires l.Valid() && l.maxLevel == 2 && l.base == [1, 2] && l.on[1] == {2} && l.MatchOn(key, 1)
    requires top < 2 && l.FirstMatch(key, top, pos) && forall j :: top < j < 2 ==> !l.MatchOn(key, j)
    ensures pos == 2
  {
    assert top == 1;
  }

  /** If the first node a scan stops at has a larger key, no node has an equal one. */
  lemma NoneEqual<K(!new)>(o: Order<K>, m: SkMemory, base: seq<nat>, a: seq<nat>, b: seq<nat>, key: K)
    requires TotalPreorder(o.cmp) && SortedBase(o, m, base) && base == a + b && Splits(o, m, key, true, a, b)
    requires b == [] || CmpNode(o, m, key, b[0]) < 0
    ensures forall n :: n in a ==> CmpNode(o, m, key, n) > 0
    ensures forall n :: n in b ==> CmpNode(o, m, key, n) < 0
  {
    forall n | n in b ensures CmpNode(o, m, key, n) < 0 {
      var i :| 0 <= i < |b| && b[i] == n;
      assert base[|a|] == b[0] && base[|a| + i] == n;
      if i > 0 { StopsOnward(o, m, key, false, b[0], n); }
    }
  }

  lemma SplitsFrame<K>(o: Order<K>, m: SkMemory, m': SkMemory, key: K, orEqual: bool, a: seq<nat>, b: seq<nat>)
    requires Splits(o, m, key, orEqual, a, b)
    requires forall n :: n in a || n in b ==> n in m' && m'[n].obj == m[n].obj
    ensures Splits(o, m', key, orEqual, a, b)
  {
  }

  /** Without a match at the head of b, no key is equal and no level changes. */
  lemma NothingHit<K(!new)>(o: Order<K>, m: SkMemory, base: seq<nat>, a: seq<nat>, b: seq<nat>, key: K,
                            before: seq<set<nat>>, eq: set<nat>)
    requires TotalPreorder(o.cmp) && SortedBase(o, m, base) && base == a + b && Splits(o, m, key, true, a, b)
    requires eq == (set n | n in m && CmpNode(o, m, key, n) == 0)
    requires Nested(before) && |before| > 0 && before[0] == (set n | n in base)
    requires Hit(b, before[0], eq) == HEAD && HEAD !in base
    ensures forall n :: n in base ==> CmpNode(o, m, key, n) != 0
    ensures forall j :: 0 <= j < |before| ==> Dropped(b, before[j], eq) == before[j]
  {
    RestrictAll(b, before[0]);
    assert b == [] || b[0] in b;
    NoneEqual(o, m, base, a, b, key);
    NoMatch(b, before, eq);
  }

  /** A node whose key equals the wanted one is not before it. */
  lemma SplitFirst<K(!new)>(o: Order<K>, m: SkMemory, a: seq<nat>, b: seq<nat>, key: K)
    requires Splits(o, m, key, true, a, b) && a + b != [] && (a + b)[0] in m && CmpNode(o, m, key, (a + b)[0]) == 0
    ensures a == [] && b == a + b
  {
  }

  lemma Peel(d: seq<nat>, l: seq<nat>)
    ensures l != [] ==> d + l == (d + [l[0]]) + l[1..]
    ensures l == [] ==> d + l == d
  {
  }

  lemma SortedCons<K>(o: Order<K>, m: SkMemory, x: nat, r: seq<nat>)
    requires x in m && SortedBase(o, m, r) && forall n :: n in r ==> CmpNode(o, m, o.keyOf(m[x].obj), n) <= 0
    ensures SortedBase(o, m, [x] + r)
  {
    var s := [x] + r;
    forall i, j | 0 <= i < j < |s| ensures CmpNode(o, m, o.keyOf(m[s[i]].obj), s[j]) <= 0 {
      assert s[j] == r[j - 1] && r[j - 1] in r;
    }
  }

  lemma {:induction false} RestrictSorted<K>(o: Order<K>, m: SkMemory, base: seq<nat>, on: set<nat>)
    requires SortedBase(o, m, base)
    ensures SortedBase(o, m, Restrict(base, on))
  {
    if base != [] {
      var x, rest := base[0], base[1..];
      RestrictSorted(o, m, rest, on);
      RestrictIn(rest, on);
      var r := Restrict(rest, on);
      forall n | n in rest ensures n in m && CmpNode(o, m, o.keyOf(m[x].obj), n) <= 0 {
        var i :| 0 <= i < |rest| && rest[i] == n;
        assert base[i + 1] == n;
      }
      if x in on { SortedCons(o, m, x, r); } else { assert [] + r == r; }
    }
  }

  lemma MembersWithout(a: seq<nat>, x: nat, b: seq<nat>)
    requires NoDup(a + [x] + b)
    ensures forall n :: n in a + b <==> n in a + [x] + b && n != x
  {
    OnceInMiddle(a, x, b);
  }

  lemma FreedSorted<K(!new)>(o: Order<K>, m0: SkMemory, m: SkMemory, a: seq<nat>, x: nat, b: seq<nat>)
    requires SortedBase(o, m0, a + [x] + b)
    requires forall n :: n in a + b ==> n in m && (n in m0 ==> m[n].obj == m0[n].obj)
    ensures SortedBase(o, m, a + b)
  {
    var l, l' := a + [x] + b, a + b;
    forall i, j | 0 <= i < j < |l'| ensures CmpNode(o, m, o.keyOf(m[l'[i]].obj), l'[j]) <= 0 {
      assert l'[i] == l[if i < |a| then i else i + 1] && l'[j] == l[if j < |a| then j else j + 1];
    }
  }

  lemma InsertedSorted<K(!new)>(o: Order<K>, m0: SkMemory, m: SkMemory, a: seq<nat>, x: nat, b: seq<nat>)
    requires TotalPreorder(o.cmp) && SortedBase(o, m0, a + b) && x in m
    requires Splits(o, m0, o.keyOf(m[x].obj), false, a, b)
    requires forall n :: n in a + b ==> n in m && m[n].obj == m0[n].obj
    ensures SortedBase(o, m, a + [x] + b)
  {
    var l, l' := a + b, a + [x] + b;
    forall i, j | 0 <= i < j < |l'| ensures CmpNode(o, m, o.keyOf(m[l'[i]].obj), l'[j]) <= 0 {
      var key := o.keyOf(m[x].obj);
      if i < |a| { assert l'[i] == l[i] == a[i] && a[i] in a; }
      if i > |a| { assert l'[i] == l[i - 1] == b[i - |a| - 1] && l'[i] in b; }
      if j < |a| { assert l'[j] == l[j] && l'[j] in a; }
      if j > |a| { assert l'[j] == l[j - 1] == b[j - |a| - 1] && l'[j] in b; }
      if j == |a| {
        assert o.cmp(key, o.keyOf(m[l'[i]].obj)) >= 0;
        assert o.cmp(o.keyOf(m[l'[i]].obj), key) > 0 <==> o.cmp(key, o.keyOf(m[l'[i]].obj)) < 0;
      }
    }
  }
}
