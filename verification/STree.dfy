/** The first-child/next-sibling tree of stree.h: position records, construction and traversals.
    A node is known by its key, as the node map of the source makes it. */
module STree {
  import opened Options
  import opened RoseTrees

  datatype Pos<K> = Pos(parent: Option<K>, left: Option<K>, right: Option<K>)

  datatype TNode<K, D> = TNode(data: Option<D>, parent: Option<K>, leftChild: Option<K>, rightSibling: Option<K>)

  // ----- position records -----

  function NoPos<K>(): Pos<K> { Pos(None, None, None) }

  /** Where the i-th child of p stands among its siblings. */
  function ChildPos<K>(p: K, vec: seq<K>, i: nat): Pos<K>
    requires i < |vec|
  {
    Pos(Some(p), if i > 0 then Some(vec[i - 1]) else None, if i < |vec| - 1 then Some(vec[i + 1]) else None)
  }

  /** What one add_pos_info call records for the first n children. */
  ghost function Recorded<K>(pos: map<K, Pos<K>>, p: K, vec: seq<K>, n: nat): map<K, Pos<K>>
    requires n <= |vec|
  {
    if n == 0 then (if p in pos then pos else pos[p := NoPos()])
    else Recorded(pos, p, vec, n - 1)[vec[n - 1] := ChildPos(p, vec, n - 1)]
  }

  class Helper<K(==), D> {
    var nodePos: map<K, Pos<K>>
    var nodeData: map<K, D>

    constructor ()
      ensures nodePos == map[] && nodeData == map[]
    {
      nodePos, nodeData := map[], map[];
    }

    method AddNode(k: K, d: D)
      modifies this
      ensures nodePos == old(nodePos) && nodeData == old(nodeData)[k := d]
    {
      nodeData := nodeData[k := d];
    }

    method AddPosInfo(p: K, vec: seq<K>)
      modifies this
      ensures nodeData == old(nodeData)
      ensures nodePos == if vec == [] then old(nodePos) else Recorded(old(nodePos), p, vec, |vec|)
    {
      if vec == [] { return; }
      if p !in nodePos {
        nodePos := nodePos[p := NoPos()];
      }
      var i := 0;
      while i < |vec|
        invariant 0 <= i <= |vec| && nodeData == old(nodeData)
        invariant nodePos == Recorded(old(nodePos), p, vec, i)
      {
        var pos := NoPos<K>().(parent := Some(p));
        if i > 0 { pos := pos.(left := Some(vec[i - 1])); }
        if i < |vec| - 1 { pos := pos.(right := Some(vec[i + 1])); }
        nodePos := nodePos[vec[i] := pos];
        i := i + 1;
      }
    }
  }

  // ----- descriptions -----

  ghost predicate ChildAt<K(!new)>(kids: map<K, seq<K>>, p: K, i: int, k: K) {
    p in kids && 0 <= i < |kids[p]| && kids[p][i] == k
  }

  ghost predicate IsChild<K(!new)>(kids: map<K, seq<K>>, k: K) { exists p, i :: ChildAt(kids, p, i, k) }

  /** Each key is in at most one child list, and there only once. */
  ghost predicate OneParent<K(!new)>(kids: map<K, seq<K>>) {
    && (forall p :: p in kids ==> kids[p] != [])
    && (forall p, i, q, j, k :: ChildAt(kids, p, i, k) && ChildAt(kids, q, j, k) ==> p == q && i == j)
  }

  /** The records say exactly what the child lists say. */
  ghost predicate Described<K(!new)>(pos: map<K, Pos<K>>, kids: map<K, seq<K>>) {
    && (forall p, i, k :: ChildAt(kids, p, i, k) ==> k in pos && pos[k] == ChildPos(p, kids[p], i))
    && (forall p :: p in kids ==> p in pos)
    && (forall k {:trigger IsChild(kids, k)} :: k in pos && !IsChild(kids, k) ==> k in kids && pos[k] == NoPos())
  }

  lemma {:induction false} RecordedHit<K(!new)>(pos: map<K, Pos<K>>, p: K, vec: seq<K>, n: nat, i: nat)
    requires i < n <= |vec| && forall j :: i < j < n ==> vec[j] != vec[i]
    ensures vec[i] in Recorded(pos, p, vec, n) && Recorded(pos, p, vec, n)[vec[i]] == ChildPos(p, vec, i)
  {
    if i < n - 1 { RecordedHit(pos, p, vec, n - 1, i); }
  }

  lemma {:induction false} RecordedMiss<K(!new)>(pos: map<K, Pos<K>>, p: K, vec: seq<K>, n: nat, k: K)
    requires n <= |vec| && forall j :: 0 <= j < n ==> vec[j] != k
    ensures k in Recorded(pos, p, vec, n) <==> k in pos || k == p
    ensures k in Recorded(pos, p, vec, n) ==> Recorded(pos, p, vec, n)[k] == if k in pos then pos[k] else NoPos()
  {
    if n > 0 { RecordedMiss(pos, p, vec, n - 1, k); }
  }

  lemma {:induction false} RecordedGrows<K(!new)>(pos: map<K, Pos<K>>, p: K, vec: seq<K>, n: nat, k: K)
    requires n <= |vec| && (k in pos || k == p)
    ensures k in Recorded(pos, p, vec, n)
  {
    if n > 0 { RecordedGrows(pos, p, vec, n - 1, k); }
  }

  /** The keys of one list differ from each other and from every key of another list. */
  lemma ListsApart<K(!new)>(kids: map<K, seq<K>>, p: K)
    requires OneParent(kids) && p in kids
    ensures forall i, j :: 0 <= i < j < |kids[p]| ==> kids[p][i] != kids[p][j]
    ensures forall j :: 0 <= j < |kids[p]| ==> IsChild(kids, kids[p][j])
    ensures forall q, i, k, j :: ChildAt(kids, q, i, k) && q != p && 0 <= j < |kids[p]| ==> kids[p][j] != k
  {
    forall j | 0 <= j < |kids[p]| ensures ChildAt(kids, p, j, kids[p][j]) {}
  }

  lemma CallChild<K(!new)>(pos: map<K, Pos<K>>, kids: map<K, seq<K>>, p: K, vec: seq<K>, q: K, i: int, k: K)
    requires Described(pos, kids) && p !in kids && vec != []
    requires OneParent(kids[p := vec]) && ChildAt(kids[p := vec], q, i, k)
    ensures k in Recorded(pos, p, vec, |vec|) && Recorded(pos, p, vec, |vec|)[k] == ChildPos(q, kids[p := vec][q], i)
  {
    ListsApart(kids[p := vec], p);
    if q == p {
      RecordedHit(pos, p, vec, |vec|, i);
    } else {
      assert ChildAt(kids, q, i, k);
      RecordedMiss(pos, p, vec, |vec|, k);
    }
  }

  lemma CallRoot<K(!new)>(pos: map<K, Pos<K>>, kids: map<K, seq<K>>, p: K, vec: seq<K>, k: K)
    requires Described(pos, kids) && p !in kids && vec != [] && OneParent(kids[p := vec])
    requires k in Recorded(pos, p, vec, |vec|) && !IsChild(kids[p := vec], k)
    ensures k in kids[p := vec] && Recorded(pos, p, vec, |vec|)[k] == NoPos()
  {
    forall j | 0 <= j < |vec| ensures vec[j] != k {
      assert ChildAt(kids[p := vec], p, j, vec[j]);
    }
    RecordedMiss(pos, p, vec, |vec|, k);
    assert forall q, i :: ChildAt(kids, q, i, k) ==> ChildAt(kids[p := vec], q, i, k);
    assert !IsChild(kids, k);
  }

  /** One more call, in whatever order the calls come, keeps the records right. */
  lemma CallDescribes<K(!new)>(pos: map<K, Pos<K>>, kids: map<K, seq<K>>, p: K, vec: seq<K>)
    requires Described(pos, kids) && p !in kids && vec != [] && OneParent(kids[p := vec])
    ensures Described(Recorded(pos, p, vec, |vec|), kids[p := vec])
  {
    var kids', pos' := kids[p := vec], Recorded(pos, p, vec, |vec|);
    forall q, i, k | ChildAt(kids', q, i, k) ensures k in pos' && pos'[k] == ChildPos(q, kids'[q], i) {
      CallChild(pos, kids, p, vec, q, i, k);
    }
    forall q | q in kids' ensures q in pos' { RecordedGrows(pos, p, vec, |vec|, q); }
    forall k | k in pos' && !IsChild(kids', k) ensures k in kids' && pos'[k] == NoPos() {
      CallRoot(pos, kids, p, vec, k);
    }
  }

  /** The records do not depend on the order of the calls. */
  lemma RecordsUnique<K(!new)>(pos: map<K, Pos<K>>, pos': map<K, Pos<K>>, kids: map<K, seq<K>>)
    requires Described(pos, kids) && Described(pos', kids)
    ensures pos == pos'
  {
    forall k | k in pos || k in pos' ensures k in pos && k in pos' && pos[k] == pos'[k] {
      if IsChild(kids, k) { var p, i :| ChildAt(kids, p, i, k); }
    }
  }

  /** The child lists that a series of add_pos_info calls gives; empty lists are ignored. */
  ghost function KidsOf<K>(calls: seq<(K, seq<K>)>): map<K, seq<K>> {
    if calls == [] then map[]
    else
      var last := calls[|calls| - 1];
      var before := KidsOf(calls[..|calls| - 1]);
      if last.1 == [] then before else before[last.0 := last.1]
  }

  ghost function RecordAll<K>(calls: seq<(K, seq<K>)>): map<K, Pos<K>> {
    if calls == [] then map[]
    else
      var last := calls[|calls| - 1];
      var before := RecordAll(calls[..|calls| - 1]);
      if last.1 == [] then before else Recorded(before, last.0, last.1, |last.1|)
  }

  ghost predicate OneCallEach<K(!new)>(calls: seq<(K, seq<K>)>) {
    forall i, j :: 0 <= i < j < |calls| ==> calls[i].0 != calls[j].0
  }

  lemma {:induction false} KidsKeys<K(!new)>(calls: seq<(K, seq<K>)>, k: K)
    requires k in KidsOf(calls)
    ensures exists i :: 0 <= i < |calls| && calls[i].0 == k
  {
    var n := |calls| - 1;
    if calls[n].0 != k {
      KidsKeys(calls[..n], k);
      var i :| 0 <= i < n && calls[..n][i].0 == k;
      assert calls[i].0 == k;
    }
  }

  lemma {:induction false} CallsDescribe<K(!new)>(calls: seq<(K, seq<K>)>)
    requires OneCallEach(calls) && OneParent(KidsOf(calls))
    ensures Described(RecordAll(calls), KidsOf(calls))
  {
    if calls != [] {
      var n := |calls| - 1;
      var p, vec, front := calls[n].0, calls[n].1, calls[..n];
      assert p !in KidsOf(front) by {
        if p in KidsOf(front) {
          KidsKeys(front, p);
          assert false;
        }
      }
      assert forall q :: q in KidsOf(front) ==> q in KidsOf(calls) && KidsOf(calls)[q] == KidsOf(front)[q];
      assert forall q, i, k :: ChildAt(KidsOf(front), q, i, k) ==> ChildAt(KidsOf(calls), q, i, k);
      CallsDescribe(front);
      if vec != [] { CallDescribes(RecordAll(front), KidsOf(front), p, vec); }
    }
  }

  /** The order of the add_pos_info calls does not matter. */
  lemma CallOrderFree<K(!new)>(calls: seq<(K, seq<K>)>, calls': seq<(K, seq<K>)>)
    requires OneCallEach(calls) && OneCallEach(calls') && KidsOf(calls) == KidsOf(calls') && OneParent(KidsOf(calls))
    ensures RecordAll(calls) == RecordAll(calls')
  {
    CallsDescribe(calls);
    CallsDescribe(calls');
    RecordsUnique(RecordAll(calls), RecordAll(calls'), KidsOf(calls));
  }

  // ----- construction -----

  function FreshNode<K, D>(): TNode<K, D> { TNode(None, None, None, None) }

  ghost predicate Known<K(!new)>(o: Option<K>, seen: set<K>) { o.Some? && o.value in seen }

  /** The fields that a node has once the keys in `seen` have been added. */
  ghost function FieldsOf<K(!new), D>(pos: map<K, Pos<K>>, kids: map<K, seq<K>>, data: map<K, D>, seen: set<K>,
                                      k: K): TNode<K, D>
    requires k in pos && OneParent(kids)
  {
    TNode(if k in seen && k in data then Some(data[k]) else None,
          if k in seen then pos[k].parent else None,
          if k in kids && kids[k][0] in seen then Some(kids[k][0]) else None,
          if k in seen || Known(pos[k].right, seen) then pos[k].right else None)
  }

  /** The keys that a record names have nodes. */
  ghost predicate Present<K(!new)>(keys: set<K>, ps: Pos<K>) {
    && (ps.parent.Some? ==> ps.parent.value in keys)
    && (ps.left.Some? ==> ps.left.value in keys)
    && (ps.right.Some? ==> ps.right.value in keys)
  }

  /** The tree under construction: every node has the fields that the seen keys give it, and the
      root is set once its key was seen. */
  ghost predicate Built<K(!new), D>(nodes: map<K, TNode<K, D>>, root: Option<K>, pos: map<K, Pos<K>>,
                                    kids: map<K, seq<K>>,
                                    data: map<K, D>, top: K, seen: set<K>) {
    && OneParent(kids) && seen <= nodes.Keys <= pos.Keys
    && (forall k :: k in nodes ==> nodes[k] == FieldsOf(pos, kids, data, seen, k))
    && (forall k :: k in seen ==> Present(nodes.Keys, pos[k]))
    && root == if top in seen then Some(top) else None
  }

  /** One root, and every other recorded key is somebody's child. */
  ghost predicate OneRoot<K(!new)>(pos: map<K, Pos<K>>, kids: map<K, seq<K>>, top: K) {
    !IsChild(kids, top) && forall k {:trigger IsChild(kids, k)} :: k in pos && k != top ==> IsChild(kids, k)
  }

  /** Left and right neighbours name each other, and the records name only recorded keys. */
  lemma Neighbours<K(!new)>(pos: map<K, Pos<K>>, kids: map<K, seq<K>>, k: K)
    requires Described(pos, kids) && OneParent(kids) && k in pos
    ensures pos[k].parent.Some? ==> pos[k].parent.value in pos && pos[k].parent.value in kids
    ensures pos[k].left.Some? ==>
      pos[k].left.value in pos && pos[pos[k].left.value].right == Some(k) && pos[k].left.value != k
    ensures pos[k].right.Some? ==>
      pos[k].right.value in pos && pos[pos[k].right.value].left == Some(k) && pos[k].right.value != k
    ensures pos[k].parent.Some? ==> (pos[k].left.None? <==> kids[pos[k].parent.value][0] == k)
    ensures pos[k].parent.None? <==> !IsChild(kids, k)
    ensures pos[k].parent.None? ==> pos[k] == NoPos()
  {
    if IsChild(kids, k) {
      var p, i :| ChildAt(kids, p, i, k);
      ListsApart(kids, p);
      if i > 0 { assert ChildAt(kids, p, i - 1, kids[p][i - 1]); }
      if i < |kids[p]| - 1 { assert ChildAt(kids, p, i + 1, kids[p][i + 1]); }
    }
  }

  class Tree<K(==, !new), D> {
    var root: Option<K>
    var nodes: map<K, TNode<K, D>>

    constructor ()
      ensures root == None && nodes == map[]
    {
      root, nodes := None, map[];
    }

    /** get_node */
    method Ensure(k: K)
      modifies this`nodes
      ensures nodes == if k in old(nodes) then old(nodes) else old(nodes)[k := FreshNode()]
    {
      if k !in nodes { nodes := nodes[k := FreshNode()]; }
    }

    /** rightmost_child: follows the sibling links from p's first child. */
    method RightmostChild(p: K, ghost chain: seq<K>) returns (q: Option<K>)
      requires Chained(nodes, p, chain)
      ensures q == if chain == [] then None else Some(chain[|chain| - 1])
    {
      q := nodes[p].leftChild;
      ghost var i := 0;
      assert chain != [] ==> SiblingOk(nodes, chain, 0);
      while q.Some? && nodes[q.value].rightSibling.Some?
        invariant chain != [] ==> 0 <= i < |chain| && q == Some(chain[i]) && SiblingOk(nodes, chain, i)
        invariant chain == [] ==> q == None
        decreases |chain| - i
      {
        q := nodes[q.value].rightSibling;
        i := i + 1;
        assert SiblingOk(nodes, chain, i);
      }
    }

    /** add_child; `chain` names the present children of p. */
    method AddChild(p: Option<K>, l: Option<K>, r: Option<K>, n: K, ghost chain: seq<K>)
      requires n in nodes && (p.Some? ==> p.value in nodes)
      requires (l.Some? ==> l.value in nodes) && (r.Some? ==> r.value in nodes)
      requires p.Some? && l.None? && r.None? ==> Chained(nodes, p.value, chain)
      requires forall i :: 0 <= i < |chain| ==> chain[i] in nodes
      modifies this
      ensures nodes == Attach(old(nodes), p, l, r, n, chain) && root == if p.Some? then old(root) else Some(n)
    {
      if p.Some? {
        if l.Some? && r.Some? {
          nodes := nodes[l.value := nodes[l.value].(rightSibling := Some(n))];
          nodes := nodes[n := nodes[n].(parent := p)];
          nodes := nodes[n := nodes[n].(rightSibling := r)];
        } else if l.Some? {
          nodes := nodes[l.value := nodes[l.value].(rightSibling := Some(n))];
          nodes := nodes[n := nodes[n].(parent := p)];
        } else if r.Some? {
          nodes := nodes[n := nodes[n].(rightSibling := r)];
          nodes := nodes[n := nodes[n].(parent := p)];
          nodes := nodes[p.value := nodes[p.value].(leftChild := Some(n))];
        } else {
          var rc := RightmostChild(p.value, chain);
          if rc.Some? {
            assert SiblingOk(nodes, chain, |chain| - 1);
            nodes := nodes[rc.value := nodes[rc.value].(rightSibling := Some(n))];
            nodes := nodes[n := nodes[n].(parent := p)];
          } else {
            nodes := nodes[p.value := nodes[p.value].(leftChild := Some(n))];
            nodes := nodes[n := nodes[n].(parent := p)];
          }
        }
      } else {
        root := Some(n);
      }
    }

    /** add_node */
    method Place(ps: Pos<K>, k: K, d: D)
      requires Present(Prepared(nodes, ps, k, d).Keys, ps)
      requires ps.parent.Some? && ps.left.None? && ps.right.None? ==>
        Chained(Prepared(nodes, ps, k, d), ps.parent.value, [])
      modifies this
      ensures k in Prepared(old(nodes), ps, k, d)
      ensures nodes == Attach(Prepared(old(nodes), ps, k, d), ps.parent, ps.left, ps.right, k, [])
      ensures root == if ps.parent.Some? then old(root) else Some(k)
    {
      Ensure(k);
      nodes := nodes[k := nodes[k].(data := Some(d))];
      if ps.parent.Some? { Ensure(ps.parent.value); }
      if ps.left.Some? { Ensure(ps.left.value); }
      if ps.right.Some? { Ensure(ps.right.value); }
      AddChild(ps.parent, ps.left, ps.right, k, []);
    }

    /** Adding a key that was not added before, with its record. */
    method AddNode(ps: Pos<K>, k: K, d: D, ghost pos: map<K, Pos<K>>, ghost kids: map<K, seq<K>>, ghost data: map<K, D>,
                   ghost top: K, ghost seen: set<K>)
      requires Built(nodes, root, pos, kids, data, top, seen) && Described(pos, kids) && OneRoot(pos, kids, top)
      requires k in pos && ps == pos[k] && k !in seen && k in data && data[k] == d
      modifies this
      ensures Built(nodes, root, pos, kids, data, top, seen + {k})
    {
      AttachBuilt(nodes, root, pos, kids, data, top, seen, k);
      Place(ps, k, d);
    }

    /** One round of build: a key without a record is passed over. */
    method AddIfRecorded(nodePos: map<K, Pos<K>>, k: K, d: D, ghost kids: map<K, seq<K>>, ghost data: map<K, D>,
                         ghost top: K, ghost seen: set<K>)
      requires Built(nodes, root, nodePos, kids, data, top, seen)
      requires Described(nodePos, kids) && OneRoot(nodePos, kids, top)
      requires k !in seen && k in data && data[k] == d
      modifies this
      ensures Built(nodes, root, nodePos, kids, data, top, seen + if k in nodePos then {k} else {})
    {
      if k in nodePos {
        AddNode(nodePos[k], k, d, nodePos, kids, data, top, seen);
      } else {
        assert seen + {} == seen;
      }
    }

    /** The loop of build: adds every key that has data and a record, in the map's key order, whatever it is. */
    method AddRecorded(nodePos: map<K, Pos<K>>, nodeData: map<K, D>, order: seq<K>, ghost kids: map<K, seq<K>>,
                       ghost top: K)
      requires root == None && nodes == map[]
      requires KeyOrder(order, nodeData.Keys)
      requires Described(nodePos, kids) && OneParent(kids) && OneRoot(nodePos, kids, top)
      modifies this
      ensures Built(nodes, root, nodePos, kids, nodeData, top, nodePos.Keys * nodeData.Keys)
    {
      NothingBuilt(nodePos, kids, nodeData, top);
      assert Added(order, nodePos, 0) == {};
      var i := 0;
      while i < |order|
        invariant 0 <= i <= |order|
        invariant Built(nodes, root, nodePos, kids, nodeData, top, Added(order, nodePos, i))
      {
        AddedNext(order, nodePos, i, nodeData.Keys);
        AddIfRecorded(nodePos, order[i], nodeData[order[i]], kids, nodeData, top, Added(order, nodePos, i));
        i := i + 1;
      }
      AddedAll(order, nodePos, nodeData.Keys);
    }

    /** build makes exactly the described tree t, for every key order and every order of the
        add_pos_info calls behind the records; a lone root has no record, and then no tree is built. */
    method Build(nodePos: map<K, Pos<K>>, nodeData: map<K, D>, order: seq<K>, ghost kids: map<K, seq<K>>,
                 ghost t: Rose<K>)
      requires root == None && nodes == map[]
      requires KeyOrder(order, nodeData.Keys)
      requires Described(nodePos, kids) && OneParent(kids) && OneRoot(nodePos, kids, t.key) && Lists(kids, [t])
      requires nodePos.Keys <= nodeData.Keys
      modifies this
      ensures t.kids != [] ==> root == Some(t.key) && Forest(nodes, [t], None) && Carries(nodes, nodePos.Keys, nodeData)
      ensures t.kids == [] ==> root == None
    {
      AddRecorded(nodePos, nodeData, order, kids, t.key);
      TreeBuilt(nodes, root, nodePos, kids, nodeData, t);
    }

    /** The inner loop of both traversals: appends the children, given by their links, with their depth. */
    method AppendChildren(acc: seq<(nat, K)>, d: nat, first: Option<K>, ghost parent: Option<K>,
                          ghost kids: seq<Rose<K>>)
      returns (out: seq<(nat, K)>)
      requires Forest(nodes, kids, parent) && first == FirstKey(kids)
      ensures out == acc + Tagged(kids, d)
    {
      out := acc;
      var child := first;
      ghost var rest := kids;
      while child.Some?
        invariant Forest(nodes, rest, parent) && child == FirstKey(rest)
        invariant out + Tagged(rest, d) == acc + Tagged(kids, d)
        decreases |rest|
      {
        TaggedStep(out, rest, d);
        out := out + [(d, child.value)];
        child := nodes[child.value].rightSibling;
        rest := rest[1..];
      }
    }

    /** Moves vec onto the stack, last element first. */
    method PushReversed(stack0: seq<(nat, K)>, vec0: seq<(nat, K)>, ghost below: seq<(nat, Rose<K>)>,
                        ghost tops: seq<(nat, Rose<K>)>)
      returns (stack: seq<(nat, K)>)
      requires Stacked(stack0, below) && vec0 == Labels(tops)
      ensures Stacked(stack, tops + below)
    {
      stack := stack0;
      var vec := vec0;
      while vec != []
        invariant |vec| <= |vec0| && vec == vec0[..|vec|] && Stacked(stack, tops[|vec|..] + below)
      {
        ghost var n := |vec| - 1;
        assert tops[n..] + below == [tops[n]] + (tops[|vec|..] + below);
        stack := stack + [vec[|vec| - 1]];
        vec := vec[..|vec| - 1];
      }
      assert tops[0..] == tops;
    }

    /** One round of depth_traversal. */
    method PopNode(stack0: seq<(nat, K)>, result0: seq<(nat, K)>, ghost trees: seq<(nat, Rose<K>)>)
      returns (stack: seq<(nat, K)>, result: seq<(nat, K)>, ghost next: seq<(nat, Rose<K>)>)
      requires stack0 != [] && Stacked(stack0, trees) && Rooted(nodes, trees)
      ensures Stacked(stack, next) && Rooted(nodes, next) && QueueSize(next) < QueueSize(trees)
      ensures result + FromStack(next) == result0 + FromStack(trees)
    {
      var n := stack0[|stack0| - 1];
      stack := stack0[..|stack0| - 1];
      ghost var d, t := trees[0].0, trees[0].1;
      StackStep(trees, result0);
      RootedKids(nodes, trees);
      result := result0 + [n];
      var vec := AppendChildren([], n.0 + 1, nodes[n.1].leftChild, Some(t.key), t.kids);
      assert vec == Labels(AtDepth(t.kids, d + 1));
      stack := PushReversed(stack, vec, trees[1..], AtDepth(t.kids, d + 1));
      next := AtDepth(t.kids, d + 1) + trees[1..];
    }

    /** depth_traversal: appends the recursive preorder with depths. */
    method DepthTraversal(result0: seq<(nat, K)>, ghost ts: seq<Rose<K>>) returns (result: seq<(nat, K)>, count: nat)
      requires Forest(nodes, ts, None) && |ts| <= 1 && root == FirstKey(ts)
      ensures result == result0 + Preorder(ts, 0)
      ensures count == if root.None? then 0 else |result|
    {
      if root.None? { return result0, 0; }
      result := result0;
      var stack := [(0, root.value)];
      ghost var trees := AtDepth(ts, 0);
      StackStart(nodes, ts);
      while stack != []
        invariant Stacked(stack, trees) && Rooted(nodes, trees)
        invariant result + FromStack(trees) == result0 + Preorder(ts, 0)
        decreases QueueSize(trees)
      {
        stack, result, trees := PopNode(stack, result, trees);
      }
      count := |result|;
    }

    /** One round of breadth_traversal. */
    method PopFront(que0: seq<(nat, K)>, result0: seq<(nat, K)>, ghost trees: seq<(nat, Rose<K>)>)
      returns (que: seq<(nat, K)>, result: seq<(nat, K)>, ghost next: seq<(nat, Rose<K>)>)
      requires que0 != [] && que0 == Labels(trees) && Rooted(nodes, trees)
      ensures que == Labels(next) && Rooted(nodes, next) && QueueSize(next) < QueueSize(trees)
      ensures result + FromQueue(next) == result0 + FromQueue(trees)
    {
      var n := que0[0];
      QueueNext(nodes, trees, result0);
      result := result0 + [n];
      que := AppendChildren(que0[1..], n.0 + 1, nodes[n.1].leftChild, Some(trees[0].1.key), trees[0].1.kids);
      next := trees[1..] + AtDepth(trees[0].1.kids, trees[0].0 + 1);
    }

    /** breadth_traversal: appends the levels, one after the other. */
    method BreadthTraversal(result0: seq<(nat, K)>, ghost ts: seq<Rose<K>>) returns (result: seq<(nat, K)>, count: nat)
      requires Forest(nodes, ts, None) && |ts| <= 1 && root == FirstKey(ts)
      ensures result == result0 + Levels(ts, 0)
      ensures count == if root.None? then 0 else |result|
    {
      if root.None? { return result0, 0; }
      result := result0;
      var que := [(0, root.value)];
      ghost var trees := AtDepth(ts, 0);
      QueueStart(nodes, ts);
      while que != []
        invariant que == Labels(trees) && Rooted(nodes, trees)
        invariant result + FromQueue(trees) == result0 + Levels(ts, 0)
        decreases QueueSize(trees)
      {
        que, result, trees := PopFront(que, result, trees);
      }
      count := |result|;
    }
  }

  lemma NothingBuilt<K(!new), D>(pos: map<K, Pos<K>>, kids: map<K, seq<K>>, data: map<K, D>, top: K)
    requires OneParent(kids)
    ensures Built(map[], None, pos, kids, data, top, {})
  {
  }

  /** A map's keys in some order, each once. */
  ghost predicate KeyOrder<K(!new)>(order: seq<K>, keys: set<K>) {
    (forall i, j :: 0 <= i < j < |order| ==> order[i] != order[j]) && (forall k :: k in order <==> k in keys)
  }

  /** The recorded keys among the first n of the key order. */
  ghost function Added<K(!new)>(order: seq<K>, pos: map<K, Pos<K>>, n: nat): set<K>
    requires n <= |order|
  {
    set i | 0 <= i < n && order[i] in pos :: order[i]
  }

  lemma AddedNext<K(!new)>(order: seq<K>, pos: map<K, Pos<K>>, n: nat, keys: set<K>)
    requires n < |order| && KeyOrder(order, keys)
    ensures order[n] in keys && order[n] !in Added(order, pos, n)
    ensures Added(order, pos, n + 1) == Added(order, pos, n) + if order[n] in pos then {order[n]} else {}
  {
  }

  lemma AddedAll<K(!new)>(order: seq<K>, pos: map<K, Pos<K>>, keys: set<K>)
    requires KeyOrder(order, keys)
    ensures Added(order, pos, |order|) == pos.Keys * keys
  {
  }

  // ----- traversal bookkeeping -----

  lemma TaggedStep<K>(out: seq<(nat, K)>, rest: seq<Rose<K>>, d: nat)
    requires rest != []
    ensures (out + [(d, rest[0].key)]) + Tagged(rest[1..], d) == out + Tagged(rest, d)
  {
    assert Tagged(rest, d) == [(d, rest[0].key)] + Tagged(rest[1..], d);
  }

  ghost function Labels<K>(q: seq<(nat, Rose<K>)>): seq<(nat, K)> {
    seq(|q|, i requires 0 <= i < |q| => (q[i].0, q[i].1.key))
  }

  /** A stack, top last, whose entries stand for `trees`, top first. */
  ghost predicate Stacked<K(!new)>(stack: seq<(nat, K)>, trees: seq<(nat, Rose<K>)>) {
    |stack| == |trees| && forall i :: 0 <= i < |trees| ==> stack[|stack| - 1 - i] == (trees[i].0, trees[i].1.key)
  }

  ghost predicate RootedAt<K(!new), D>(nodes: map<K, TNode<K, D>>, t: Rose<K>) {
    t.key in nodes && nodes[t.key].leftChild == FirstKey(t.kids) && Forest(nodes, t.kids, Some(t.key))
  }

  /** Every waiting tree is in the links. */
  ghost predicate Rooted<K(!new), D>(nodes: map<K, TNode<K, D>>, trees: seq<(nat, Rose<K>)>) {
    forall i :: 0 <= i < |trees| ==> RootedAt(nodes, trees[i].1)
  }

  lemma {:induction false} ForestRooted<K(!new), D>(nodes: map<K, TNode<K, D>>, ts: seq<Rose<K>>, parent: Option<K>)
    requires Forest(nodes, ts, parent)
    ensures forall i :: 0 <= i < |ts| ==> RootedAt(nodes, ts[i])
    decreases ts
  {
    if ts != [] {
      ForestRooted(nodes, ts[1..], parent);
      forall i | 0 < i < |ts| ensures RootedAt(nodes, ts[i]) {
        assert ts[i] == ts[1..][i - 1];
      }
    }
  }

  lemma RootedKids<K(!new), D>(nodes: map<K, TNode<K, D>>, trees: seq<(nat, Rose<K>)>)
    requires Rooted(nodes, trees) && trees != []
    ensures RootedAt(nodes, trees[0].1) && Rooted(nodes, trees[1..])
    ensures Rooted(nodes, AtDepth(trees[0].1.kids, trees[0].0 + 1))
  {
    assert RootedAt(nodes, trees[0].1);
    ForestRooted(nodes, trees[0].1.kids, Some(trees[0].1.key));
  }

  lemma ConsNext<T>(s: seq<T>, x: T, rest: seq<T>)
    ensures (s + [x]) + rest == s + ([x] + rest)
  {
  }

  lemma QueueStart<K(!new), D>(nodes: map<K, TNode<K, D>>, ts: seq<Rose<K>>)
    requires Forest(nodes, ts, None) && |ts| == 1
    ensures Rooted(nodes, AtDepth(ts, 0)) && Labels(AtDepth(ts, 0)) == [(0, ts[0].key)]
    ensures FromQueue(AtDepth(ts, 0)) == Levels(ts, 0)
  {
    QueueIsLevels(ts, 0);
  }

  lemma StackStart<K(!new), D>(nodes: map<K, TNode<K, D>>, ts: seq<Rose<K>>)
    requires Forest(nodes, ts, None) && |ts| == 1
    ensures Rooted(nodes, AtDepth(ts, 0)) && Stacked([(0, ts[0].key)], AtDepth(ts, 0))
    ensures FromStack(AtDepth(ts, 0)) == Preorder(ts, 0)
  {
    assert AtDepth(ts, 0)[1..] == [] && ts == [ts[0]];
  }

  /** One round of the queue. */
  lemma QueueNext<K(!new), D>(nodes: map<K, TNode<K, D>>, trees: seq<(nat, Rose<K>)>, result: seq<(nat, K)>)
    requires trees != [] && Rooted(nodes, trees)
    ensures var next := trees[1..] + AtDepth(trees[0].1.kids, trees[0].0 + 1);
      && RootedAt(nodes, trees[0].1) && Rooted(nodes, next)
      && QueueSize(next) == QueueSize(trees) - 1
      && Labels(next) == Labels(trees)[1..] + Tagged(trees[0].1.kids, trees[0].0 + 1)
      && (result + [Labels(trees)[0]]) + FromQueue(next) == result + FromQueue(trees)
  {
    QueueStep(trees);
    ConsNext(result, Labels(trees)[0], FromQueue(trees[1..] + AtDepth(trees[0].1.kids, trees[0].0 + 1)));
    RootedKids(nodes, trees);
  }

  lemma StackStep<K(!new)>(trees: seq<(nat, Rose<K>)>, result: seq<(nat, K)>)
    requires trees != []
    ensures var next := AtDepth(trees[0].1.kids, trees[0].0 + 1) + trees[1..];
      && QueueSize(next) == QueueSize(trees) - 1
      && (result + [(trees[0].0, trees[0].1.key)]) + FromStack(next) == result + FromStack(trees)
  {
    var d, t := trees[0].0, trees[0].1;
    var next := AtDepth(t.kids, d + 1) + trees[1..];
    assert Trees(next) == t.kids + Trees(trees)[1..];
    SizeConcat(t.kids, Trees(trees)[1..]);
    StackKids(t.kids, d + 1, trees[1..]);
    PreorderSingle(t, d);
    StackUnfold(result, (d, t.key), Preorder(t.kids, d + 1), FromStack(trees[1..]));
  }

  ghost predicate SiblingOk<K(!new), D>(nodes: map<K, TNode<K, D>>, chain: seq<K>, i: int) {
    0 <= i < |chain| && chain[i] in nodes
    && nodes[chain[i]].rightSibling == if i + 1 < |chain| then Some(chain[i + 1]) else None
  }

  /** The children of p, as the links give them, are `chain`. */
  ghost predicate Chained<K(!new), D>(nodes: map<K, TNode<K, D>>, p: K, chain: seq<K>) {
    && p in nodes && nodes[p].leftChild == (if chain == [] then None else Some(chain[0]))
    && (forall i :: 0 <= i < |chain| ==> SiblingOk(nodes, chain, i))
  }

  function With<K, D>(nodes: map<K, TNode<K, D>>, o: Option<K>): map<K, TNode<K, D>> {
    if o.None? || o.value in nodes then nodes else nodes[o.value := FreshNode()]
  }

  /** The nodes after add_child. */
  ghost function Attach<K, D>(m: map<K, TNode<K, D>>, p: Option<K>, l: Option<K>, r: Option<K>, n: K,
                              chain: seq<K>): map<K, TNode<K, D>>
    requires n in m && (p.Some? ==> p.value in m) && (l.Some? ==> l.value in m) && (r.Some? ==> r.value in m)
    requires forall i :: 0 <= i < |chain| ==> chain[i] in m
  {
    if p.None? then m
    else if l.Some? then
      var m1 := m[l.value := m[l.value].(rightSibling := Some(n))];
      m1[n := m1[n].(parent := p, rightSibling := if r.Some? then r else m1[n].rightSibling)]
    else if r.Some? then
      var m1 := m[n := m[n].(parent := p, rightSibling := r)];
      m1[p.value := m1[p.value].(leftChild := Some(n))]
    else if chain == [] then
      var m1 := m[p.value := m[p.value].(leftChild := Some(n))];
      m1[n := m1[n].(parent := p)]
    else
      var last := chain[|chain| - 1];
      var m1 := m[last := m[last].(rightSibling := Some(n))];
      m1[n := m1[n].(parent := p)]
  }

  // ----- add_child on any list of children -----

  /** A node that is nobody's child here and has no sibling behind it. */
  ghost predicate Loose<K(!new), D>(m: map<K, TNode<K, D>>, p: K, chain: seq<K>, n: K) {
    n in m && n != p && n !in chain && p !in chain && m[n].rightSibling == None
  }

  ghost predicate Different<K(!new)>(chain: seq<K>) { forall i, j :: 0 <= i < j < |chain| ==> chain[i] != chain[j] }

  /** A chain differs from another at one place: two nodes' links changed. */
  lemma ChainInsert<K(!new), D>(m: map<K, TNode<K, D>>, m': map<K, TNode<K, D>>, p: K, a: seq<K>, n: K, b: seq<K>)
    requires Chained(m, p, a + b) && Different(a + b) && Loose(m, p, a + b, n) && p in m' && n in m'
    requires forall x :: x in m && x != n && x != p && (a == [] || x != a[|a| - 1]) ==> x in m' && m'[x] == m[x]
    requires m'[n].rightSibling == if b == [] then None else Some(b[0])
    requires m'[p].leftChild == if a == [] then Some(n) else m[p].leftChild
    requires a != [] ==> a[|a| - 1] in m' && m'[a[|a| - 1]].rightSibling == Some(n)
    ensures Chained(m', p, a + [n] + b)
  {
    var c, c' := a + b, a + [n] + b;
    forall i | 0 <= i < |c'| ensures SiblingOk(m', c', i) {
      if i != |a| {
        var k := if i < |a| then i else i - 1;
        assert SiblingOk(m, c, k) && c'[i] == c[k] && c[k] in c;
        if a != [] && k != |a| - 1 { assert c[k] != c[|a| - 1]; }
      }
    }
  }

  /** Without neighbours the node becomes the last child. */
  lemma AttachLast<K(!new), D>(m: map<K, TNode<K, D>>, p: K, chain: seq<K>, n: K)
    requires Chained(m, p, chain) && Different(chain) && Loose(m, p, chain, n)
    requires forall i :: 0 <= i < |chain| ==> chain[i] in m
    ensures var m' := Attach(m, Some(p), None, None, n, chain);
      Chained(m', p, chain + [n]) && m'[n].parent == Some(p) && m'.Keys == m.Keys
  {
    assert chain + [] == chain && chain + [n] + [] == chain + [n];
    ChainInsert(m, Attach(m, Some(p), None, None, n, chain), p, chain, n, []);
  }

  /** With only a left neighbour, the last child, too. */
  lemma AttachAfter<K(!new), D>(m: map<K, TNode<K, D>>, p: K, a: seq<K>, l: K, n: K)
    requires Chained(m, p, a + [l]) && Different(a + [l]) && Loose(m, p, a + [l], n) && l in m
    ensures var m' := Attach(m, Some(p), Some(l), None, n, []);
      Chained(m', p, a + [l] + [n]) && m'[n].parent == Some(p) && m'.Keys == m.Keys
  {
    var c := a + [l];
    assert c + [] == c && c + [n] + [] == c + [n];
    ChainInsert(m, Attach(m, Some(p), Some(l), None, n, []), p, c, n, []);
  }

  /** With only a right neighbour, the first child, it becomes the first. */
  lemma AttachBefore<K(!new), D>(m: map<K, TNode<K, D>>, p: K, r: K, b: seq<K>, n: K)
    requires Chained(m, p, [r] + b) && Different([r] + b) && Loose(m, p, [r] + b, n) && r in m
    ensures var m' := Attach(m, Some(p), None, Some(r), n, []);
      Chained(m', p, [n] + ([r] + b)) && m'[n].parent == Some(p) && m'.Keys == m.Keys
  {
    var c := [r] + b;
    assert [] + c == c && [] + [n] + c == [n] + c;
    ChainInsert(m, Attach(m, Some(p), None, Some(r), n, []), p, [], n, c);
  }

  /** Between two neighbours it goes between them. */
  lemma AttachBetween<K(!new), D>(m: map<K, TNode<K, D>>, p: K, a: seq<K>, l: K, r: K, b: seq<K>, n: K)
    requires Chained(m, p, (a + [l]) + ([r] + b)) && Different((a + [l]) + ([r] + b)) && l in m && r in m
    requires Loose(m, p, (a + [l]) + ([r] + b), n)
    ensures var m' := Attach(m, Some(p), Some(l), Some(r), n, []);
      Chained(m', p, (a + [l]) + [n] + ([r] + b)) && m'[n].parent == Some(p) && m'.Keys == m.Keys
  {
    var c := (a + [l]) + ([r] + b);
    assert c[|a|] == l;
    ChainInsert(m, Attach(m, Some(p), Some(l), Some(r), n, []), p, a + [l], n, [r] + b);
  }

  /** Without a parent only the root changes. */
  lemma AttachRoot<K(!new), D>(m: map<K, TNode<K, D>>, l: Option<K>, r: Option<K>, n: K)
    requires n in m && (l.Some? ==> l.value in m) && (r.Some? ==> r.value in m)
    ensures Attach(m, None, l, r, n, []) == m
  {
  }

  /** The node map just before add_child. */
  function Prepared<K, D>(nodes: map<K, TNode<K, D>>, ps: Pos<K>, k: K, d: D): map<K, TNode<K, D>> {
    var m1 := With(nodes, Some(k));
    With(With(With(m1[k := m1[k].(data := Some(d))], ps.parent), ps.left), ps.right)
  }

  /** A node that nobody has named yet would be a fresh one. */
  lemma FreshFields<K(!new), D>(nodes: map<K, TNode<K, D>>, root: Option<K>, pos: map<K, Pos<K>>, kids: map<K, seq<K>>,
                                data: map<K, D>, top: K, seen: set<K>, x: K)
    requires Built(nodes, root, pos, kids, data, top, seen) && Described(pos, kids) && x in pos && x !in nodes
    ensures FieldsOf(pos, kids, data, seen, x) == FreshNode()
  {
    Neighbours(pos, kids, x);
    if x in kids {
      var c := kids[x][0];
      assert ChildAt(kids, x, 0, c);
      assert pos[c].parent == Some(x);
    }
  }

  /** How adding k changes the fields of x: k itself, its left neighbour and, for a first child,
      its parent. */
  ghost function Touched<K(!new), D>(v: TNode<K, D>, ps: Pos<K>, k: K, x: K, first: bool): TNode<K, D> {
    TNode(v.data,
          if x == k then ps.parent else v.parent,
          if first && ps.parent == Some(x) then Some(k) else v.leftChild,
          if x == k && ps.right.Some? then ps.right else if ps.left == Some(x) then Some(k) else v.rightSibling)
  }

  /** Being somebody's first child, or right neighbour, can be read from the record of k alone. */
  lemma SeenFrom<K(!new)>(pos: map<K, Pos<K>>, kids: map<K, seq<K>>, k: K, x: K)
    requires Described(pos, kids) && OneParent(kids) && k in pos && x in pos
    ensures (x in kids && kids[x][0] == k) <==> (pos[k].parent == Some(x) && pos[k].left.None?)
    ensures pos[x].right == Some(k) <==> pos[k].left == Some(x)
  {
    Neighbours(pos, kids, k);
    Neighbours(pos, kids, x);
    if x in kids && kids[x][0] == k {
      assert ChildAt(kids, x, 0, k);
      assert pos[k] == ChildPos(x, kids[x], 0);
    }
  }

  lemma FieldsTouched<K(!new), D>(pos: map<K, Pos<K>>, kids: map<K, seq<K>>, data: map<K, D>, seen: set<K>, k: K, x: K)
    requires OneParent(kids) && k in pos && k !in seen && x in pos && k in data
    requires (x in kids && kids[x][0] == k) <==> (pos[k].parent == Some(x) && pos[k].left.None?)
    requires pos[x].right == Some(k) <==> pos[k].left == Some(x)
    ensures FieldsOf(pos, kids, data, seen + {k}, x) ==
      Touched(Filled(pos, kids, data, seen, k, x), pos[k], k, x, pos[k].left.None?)
  {
  }

  /** The fields of x with k's data filled in. */
  ghost function Filled<K(!new), D>(pos: map<K, Pos<K>>, kids: map<K, seq<K>>, data: map<K, D>, seen: set<K>, k: K,
                                    x: K): TNode<K, D>
    requires OneParent(kids) && x in pos && k in data
  {
    var v := FieldsOf(pos, kids, data, seen, x);
    if x == k then v.(data := Some(data[k])) else v
  }

  lemma AttachTouches<K(!new), D>(m: map<K, TNode<K, D>>, ps: Pos<K>, k: K, x: K)
    requires k in m && x in m && Present(m.Keys, ps) && ps.left != Some(k) && (ps.parent.None? ==> ps == NoPos())
    requires x == k ==> m[x].parent == None
    ensures Attach(m, ps.parent, ps.left, ps.right, k, [])[x] == Touched(m[x], ps, k, x, ps.left.None?)
    ensures Attach(m, ps.parent, ps.left, ps.right, k, []).Keys == m.Keys
  {
  }

  lemma PreparedKeys<K(!new), D>(nodes: map<K, TNode<K, D>>, ps: Pos<K>, k: K, d: D, keys: set<K>)
    requires nodes.Keys <= keys && k in keys && Present(keys, ps)
    ensures nodes.Keys <= Prepared(nodes, ps, k, d).Keys <= keys && k in Prepared(nodes, ps, k, d)
    ensures Present(Prepared(nodes, ps, k, d).Keys, ps)
  {
  }

  lemma PreparedAt<K(!new), D>(nodes: map<K, TNode<K, D>>, ps: Pos<K>, k: K, d: D, x: K)
    requires x in Prepared(nodes, ps, k, d)
    ensures var v := if x in nodes then nodes[x] else FreshNode();
      Prepared(nodes, ps, k, d)[x] == if x == k then v.(data := Some(d)) else v
  {
  }

  /** One node after add_node. */
  lemma AttachAt<K(!new), D>(nodes: map<K, TNode<K, D>>, root: Option<K>, pos: map<K, Pos<K>>, kids: map<K, seq<K>>,
                             data: map<K, D>, top: K, seen: set<K>, k: K, x: K)
    requires Built(nodes, root, pos, kids, data, top, seen) && Described(pos, kids)
    requires k in pos && k !in seen && k in data && x in Prepared(nodes, pos[k], k, data[k]) && x in pos
    requires Present(Prepared(nodes, pos[k], k, data[k]).Keys, pos[k]) && k in Prepared(nodes, pos[k], k, data[k])
    ensures Prepared(nodes, pos[k], k, data[k])[x] == Filled(pos, kids, data, seen, k, x)
    ensures var m' := Attach(Prepared(nodes, pos[k], k, data[k]), pos[k].parent, pos[k].left, pos[k].right, k, []);
      x in m' && m'[x] == FieldsOf(pos, kids, data, seen + {k}, x)
  {
    if x !in nodes { FreshFields(nodes, root, pos, kids, data, top, seen, x); }
    PreparedAt(nodes, pos[k], k, data[k], x);
    Neighbours(pos, kids, k);
    SeenFrom(pos, kids, k, x);
    FieldsTouched(pos, kids, data, seen, k, x);
    AttachTouches(Prepared(nodes, pos[k], k, data[k]), pos[k], k, x);
  }

  /** The only child of p finds p without children. */
  lemma AttachChain<K(!new), D>(nodes: map<K, TNode<K, D>>, root: Option<K>, pos: map<K, Pos<K>>, kids: map<K, seq<K>>,
                                data: map<K, D>, top: K, seen: set<K>, k: K)
    requires Built(nodes, root, pos, kids, data, top, seen) && Described(pos, kids)
    requires k in pos && k !in seen && k in data && pos[k].parent.Some?
    requires pos[k].left.None? && pos[k].parent.value in pos
    requires Present(Prepared(nodes, pos[k], k, data[k]).Keys, pos[k]) && k in Prepared(nodes, pos[k], k, data[k])
    ensures Chained(Prepared(nodes, pos[k], k, data[k]), pos[k].parent.value, [])
  {
    var p := pos[k].parent.value;
    AttachAt(nodes, root, pos, kids, data, top, seen, k, p);
    SeenFrom(pos, kids, k, p);
  }

  /** All nodes after add_node. */
  lemma AttachFields<K(!new), D>(nodes: map<K, TNode<K, D>>, root: Option<K>, pos: map<K, Pos<K>>, kids: map<K, seq<K>>,
                                 data: map<K, D>, top: K, seen: set<K>, k: K)
    requires Built(nodes, root, pos, kids, data, top, seen) && Described(pos, kids)
    requires k in pos && k !in seen && k in data
    requires k in Prepared(nodes, pos[k], k, data[k]) && Present(Prepared(nodes, pos[k], k, data[k]).Keys, pos[k])
    requires Prepared(nodes, pos[k], k, data[k]).Keys <= pos.Keys
    ensures var m := Prepared(nodes, pos[k], k, data[k]);
      var m' := Attach(m, pos[k].parent, pos[k].left, pos[k].right, k, []);
      m'.Keys == m.Keys && forall x :: x in m' ==> m'[x] == FieldsOf(pos, kids, data, seen + {k}, x)
  {
    var m := Prepared(nodes, pos[k], k, data[k]);
    var m' := Attach(m, pos[k].parent, pos[k].left, pos[k].right, k, []);
    assert m'.Keys == m.Keys;
    forall x | x in m' ensures m'[x] == FieldsOf(pos, kids, data, seen + {k}, x) {
      AttachAt(nodes, root, pos, kids, data, top, seen, k, x);
    }
  }

  lemma AttachBuilt<K(!new), D>(nodes: map<K, TNode<K, D>>, root: Option<K>, pos: map<K, Pos<K>>, kids: map<K, seq<K>>,
                                data: map<K, D>, top: K, seen: set<K>, k: K)
    requires Built(nodes, root, pos, kids, data, top, seen) && Described(pos, kids) && OneRoot(pos, kids, top)
    requires k in pos && k !in seen && k in data
    ensures var m := Prepared(nodes, pos[k], k, data[k]);
      && k in m && Present(m.Keys, pos[k])
      && (pos[k].parent.Some? && pos[k].left.None? && pos[k].right.None? ==> Chained(m, pos[k].parent.value, []))
      && Built(Attach(m, pos[k].parent, pos[k].left, pos[k].right, k, []),
               if pos[k].parent.Some? then root else Some(k), pos, kids, data, top, seen + {k})
  {
    Neighbours(pos, kids, k);
    PreparedKeys(nodes, pos[k], k, data[k], pos.Keys);
    AttachFields(nodes, root, pos, kids, data, top, seen, k);
    if pos[k].parent.Some? && pos[k].left.None? { AttachChain(nodes, root, pos, kids, data, top, seen, k); }
    PresentMore(nodes.Keys, Prepared(nodes, pos[k], k, data[k]).Keys, pos, seen, k);
  }

  lemma PresentMore<K(!new)>(keys: set<K>, keys': set<K>, pos: map<K, Pos<K>>, seen: set<K>, k: K)
    requires keys <= keys' && seen <= pos.Keys && k in pos && Present(keys', pos[k])
    requires forall x :: x in seen ==> Present(keys, pos[x])
    ensures forall x :: x in seen + {k} ==> x in pos && Present(keys', pos[x])
  {
  }

  // ----- the tree that the links denote -----

  ghost function FirstKey<K>(ts: seq<Rose<K>>): Option<K> { if ts == [] then None else Some(ts[0].key) }

  /** Siblings ts, all children of `parent`, in first-child/next-sibling form. */
  ghost predicate Forest<K(!new), D>(nodes: map<K, TNode<K, D>>, ts: seq<Rose<K>>, parent: Option<K>)
    decreases Size(ts)
  {
    ts == [] ||
    (&& ts[0].key in nodes && nodes[ts[0].key].parent == parent
     && nodes[ts[0].key].leftChild == FirstKey(ts[0].kids) && nodes[ts[0].key].rightSibling == FirstKey(ts[1..])
     && Forest(nodes, ts[0].kids, Some(ts[0].key)) && Forest(nodes, ts[1..], parent))
  }

  /** Exactly the given keys have nodes, and these hold the keys' data. */
  ghost predicate Carries<K(!new), D>(nodes: map<K, TNode<K, D>>, keys: set<K>, data: map<K, D>) {
    nodes.Keys == keys && forall k :: k in nodes ==> k in data && nodes[k].data == Some(data[k])
  }

  /** The child lists describe the trees ts. */
  ghost predicate Lists<K(!new)>(kids: map<K, seq<K>>, ts: seq<Rose<K>>)
    decreases Size(ts)
  {
    ts == [] ||
    (&& (if ts[0].kids == [] then ts[0].key !in kids else ts[0].key in kids && kids[ts[0].key] == Keys(ts[0].kids))
     && Lists(kids, ts[0].kids) && Lists(kids, ts[1..]))
  }

  /** Once every recorded key was added, the i-th child of p has the right links. */
  lemma ChildNode<K(!new), D>(nodes: map<K, TNode<K, D>>, root: Option<K>, pos: map<K, Pos<K>>, kids: map<K, seq<K>>,
                              data: map<K, D>, top: K, p: K, ts: seq<Rose<K>>, i: nat)
    requires Built(nodes, root, pos, kids, data, top, pos.Keys) && Described(pos, kids) && ts != []
    requires p in kids && i + |ts| == |kids[p]| && kids[p][i..] == Keys(ts) && Lists(kids, ts)
    ensures var k := ts[0].key;
      && k in nodes && nodes[k].parent == Some(p)
      && nodes[k].leftChild == FirstKey(ts[0].kids) && nodes[k].rightSibling == FirstKey(ts[1..])
  {
    var k := ts[0].key;
    assert Keys(ts)[0] == k && kids[p][i] == k;
    assert ChildAt(kids, p, i, k);
    assert nodes[k] == FieldsOf(pos, kids, data, pos.Keys, k);
    if |ts| > 1 { assert Keys(ts)[1] == ts[1].key && kids[p][i + 1] == ts[1].key; }
    if ts[0].kids != [] {
      var c := ts[0].kids[0].key;
      assert Keys(ts[0].kids)[0] == c;
      assert ChildAt(kids, k, 0, c);
    }
  }

  lemma KeysTail<K(!new)>(ks: seq<K>, ts: seq<Rose<K>>, i: nat)
    requires ts != [] && i + |ts| == |ks| && ks[i..] == Keys(ts)
    ensures ks[i + 1..] == Keys(ts[1..])
  {
    assert ks[i..][1..] == Keys(ts)[1..];
  }

  lemma KeysWhole<K(!new)>(ks: seq<K>, ts: seq<Rose<K>>)
    requires ks == Keys(ts)
    ensures |ks| == |ts| && ks[0..] == Keys(ts)
  {
  }

  /** Once every recorded key was added, the children of p hang below p in order. */
  lemma {:induction false} ChildrenBuilt<K(!new), D>(nodes: map<K, TNode<K, D>>, root: Option<K>,
                                                     pos: map<K, Pos<K>>, kids: map<K, seq<K>>,
                                    data: map<K, D>, top: K, p: K, ts: seq<Rose<K>>, i: nat)
    requires Built(nodes, root, pos, kids, data, top, pos.Keys) && Described(pos, kids)
    requires p in kids && i + |ts| == |kids[p]| && kids[p][i..] == Keys(ts) && Lists(kids, ts)
    ensures Forest(nodes, ts, Some(p))
    decreases Size(ts)
  {
    if ts != [] {
      var k := ts[0].key;
      ChildNode(nodes, root, pos, kids, data, top, p, ts, i);
      if ts[0].kids != [] {
        KeysWhole(kids[k], ts[0].kids);
        ChildrenBuilt(nodes, root, pos, kids, data, top, k, ts[0].kids, 0);
      }
      KeysTail(kids[p], ts, i);
      ChildrenBuilt(nodes, root, pos, kids, data, top, p, ts[1..], i + 1);
    }
  }

  /** build makes exactly the described tree, whatever the key order and the call order were,
      provided the root has a child; a lone root leaves no record and build no tree. */
  lemma TreeBuilt<K(!new), D>(nodes: map<K, TNode<K, D>>, root: Option<K>, pos: map<K, Pos<K>>, kids: map<K, seq<K>>,
                              data: map<K, D>, t: Rose<K>)
    requires Described(pos, kids) && OneParent(kids) && OneRoot(pos, kids, t.key) && Lists(kids, [t])
    requires pos.Keys <= data.Keys && Built(nodes, root, pos, kids, data, t.key, pos.Keys * data.Keys)
    ensures t.kids != [] ==> root == Some(t.key) && Forest(nodes, [t], None) && Carries(nodes, pos.Keys, data)
    ensures t.kids == [] ==> root == None
  {
    assert pos.Keys * data.Keys == pos.Keys;
    if t.kids != [] {
      var c := t.kids[0].key;
      assert Keys(t.kids)[0] == c;
      assert ChildAt(kids, t.key, 0, c);
      assert nodes[t.key] == FieldsOf(pos, kids, data, pos.Keys, t.key);
      assert kids[t.key][0..] == Keys(t.kids);
      ChildrenBuilt(nodes, root, pos, kids, data, t.key, t.key, t.kids, 0);
      assert [t][1..] == [];
    }
  }
}
