/** Red-black trees as values: the shape a linked tree denotes, the zipper that the
    bottom-up repair loops walk, and the red-black rules.  Nodes keep their identity: a
    tree stores node addresses, never payloads. */
module RbShape {
  import opened Sequences
  import opened Powers

  datatype Color = Red | Black

  datatype Tree = Leaf | Node(left: Tree, id: nat, color: Color, right: Tree)

  /** A path from a focus up to the root.  `LeftOf(p, c, s, up)` says that the focus is the
      left child of node p, whose colour is c and whose other child is s. */
  datatype Path =
    | Top
    | LeftOf(id: nat, color: Color, sibling: Tree, up: Path)
    | RightOf(id: nat, color: Color, sibling: Tree, up: Path)

  // ----- filling the hole at the end of a path -----

  ghost function Fill(z: Path, t: Tree): Tree {
    match z
    case Top => t
    case LeftOf(p, c, s, up) => Fill(up, Node(t, p, c, s))
    case RightOf(p, c, s, up) => Fill(up, Node(s, p, c, t))
  }

  /** The subtree one step up. */
  ghost function Above(z: Path, t: Tree): Tree
    requires !z.Top?
    ensures Fill(z, t) == Fill(z.up, Above(z, t))
  {
    if z.LeftOf? then Node(t, z.id, z.color, z.sibling) else Node(z.sibling, z.id, z.color, t)
  }

  /** The path that first follows `inner` and then `outer`. */
  ghost function Join(inner: Path, outer: Path): Path {
    match inner
    case Top => outer
    case LeftOf(p, c, s, up) => LeftOf(p, c, s, Join(up, outer))
    case RightOf(p, c, s, up) => RightOf(p, c, s, Join(up, outer))
  }

  lemma {:induction false} FillJoin(inner: Path, outer: Path, t: Tree)
    ensures Fill(Join(inner, outer), t) == Fill(outer, Fill(inner, t))
  {
    match inner
    case Top =>
    case LeftOf(p, c, s, up) => FillJoin(up, outer, Node(t, p, c, s));
    case RightOf(p, c, s, up) => FillJoin(up, outer, Node(s, p, c, t));
  }

  lemma {:induction false} FillNode(z: Path, t: Tree)
    requires t.Node?
    ensures Fill(z, t).Node?
    decreases z
  {
    if !z.Top? { FillNode(z.up, Above(z, t)); }
  }

  ghost function Depth(z: Path): nat {
    if z.Top? then 0 else 1 + Depth(z.up)
  }

  // ----- node sets -----

  ghost function Ids(t: Tree): set<nat> {
    match t
    case Leaf => {}
    case Node(l, id, _, r) => Ids(l) + {id} + Ids(r)
  }

  ghost function PathIds(z: Path): set<nat> {
    if z.Top? then {} else {z.id} + Ids(z.sibling) + PathIds(z.up)
  }

  ghost predicate Distinct(t: Tree) {
    match t
    case Leaf => true
    case Node(l, id, _, r) =>
      && id !in Ids(l) && id !in Ids(r) && Ids(l) !! Ids(r)
      && Distinct(l) && Distinct(r)
  }

  ghost predicate DistinctPath(z: Path) {
    z.Top? ||
    (&& z.id !in Ids(z.sibling) && z.id !in PathIds(z.up) && Ids(z.sibling) !! PathIds(z.up)
     && Distinct(z.sibling) && DistinctPath(z.up))
  }

  /** No node occurs twice in the tree that has t at the end of z. */
  ghost predicate DistinctAt(z: Path, t: Tree) {
    Distinct(t) && DistinctPath(z) && Ids(t) !! PathIds(z)
  }

  lemma {:induction false} FillDistinct(z: Path, t: Tree)
    ensures DistinctAt(z, t) <==> Distinct(Fill(z, t))
    ensures Ids(Fill(z, t)) == PathIds(z) + Ids(t)
    decreases z
  {
    match z
    case Top =>
    case LeftOf(p, c, s, up) => FillDistinct(up, Node(t, p, c, s));
    case RightOf(p, c, s, up) => FillDistinct(up, Node(s, p, c, t));
  }

  // ----- in-order sequences -----

  ghost function InOrder(t: Tree): seq<nat> {
    match t
    case Leaf => []
    case Node(l, id, _, r) => InOrder(l) + [id] + InOrder(r)
  }

  /** The nodes in order before the focus of z. */
  ghost function Before(z: Path): seq<nat> {
    match z
    case Top => []
    case LeftOf(_, _, _, up) => Before(up)
    case RightOf(p, _, s, up) => Before(up) + InOrder(s) + [p]
  }

  /** The nodes in order after the focus of z. */
  ghost function After(z: Path): seq<nat> {
    match z
    case Top => []
    case LeftOf(p, _, s, up) => [p] + (InOrder(s) + After(up))
    case RightOf(_, _, _, up) => After(up)
  }

  lemma {:induction false} FillInOrder(z: Path, t: Tree)
    ensures InOrder(Fill(z, t)) == Before(z) + InOrder(t) + After(z)
    decreases z
  {
    match z
    case Top =>
    case LeftOf(p, c, s, up) => FillInOrder(up, Node(t, p, c, s));
    case RightOf(p, c, s, up) => FillInOrder(up, Node(s, p, c, t));
  }

  /** Replacing the focus by one with the same in-order sequence keeps the whole sequence. */
  lemma SameInOrder(z: Path, t: Tree, t': Tree)
    requires InOrder(t) == InOrder(t')
    ensures InOrder(Fill(z, t)) == InOrder(Fill(z, t'))
  {
    FillInOrder(z, t);
    FillInOrder(z, t');
  }

  ghost function RotatedLeft(t: Tree): Tree
    requires t.Node? && t.right.Node?
  {
    Node(Node(t.left, t.id, t.color, t.right.left), t.right.id, t.right.color, t.right.right)
  }

  ghost function RotatedRight(t: Tree): Tree
    requires t.Node? && t.left.Node?
  {
    Node(t.left.left, t.left.id, t.left.color, Node(t.left.right, t.id, t.color, t.right))
  }

  lemma {:induction false} RotationsInOrder(t: Tree)
    requires t.Node?
    ensures t.right.Node? ==> InOrder(RotatedLeft(t)) == InOrder(t)
    ensures t.left.Node? ==> InOrder(RotatedRight(t)) == InOrder(t)
  {
    if t.right.Node? { Reassociate(t.left, t.id, t.color, t.right.left, t.right.id, t.right.color, t.right.right); }
    if t.left.Node? { Reassociate(t.left.left, t.left.id, t.left.color, t.left.right, t.id, t.color, t.right); }
  }

  lemma {:induction false} Reassociate(a: Tree, x: nat, cx: Color, b: Tree, y: nat, cy: Color, c: Tree)
    ensures InOrder(Node(Node(a, x, cx, b), y, cy, c)) == InOrder(Node(a, x, cx, Node(b, y, cy, c)))
  {
    var i, j, k := InOrder(a), InOrder(b), InOrder(c);
    assert InOrder(Node(a, x, cx, b)) == i + [x] + j;
    assert InOrder(Node(b, y, cy, c)) == j + [y] + k;
    assert (i + [x] + j) + [y] + k == i + [x] + (j + [y] + k);
  }

  lemma {:induction false} InOrderIds(t: Tree)
    ensures forall x :: x in InOrder(t) <==> x in Ids(t)
    ensures Distinct(t) ==> NoDup(InOrder(t))
  {
    if t.Node? {
      InOrderIds(t.left);
      InOrderIds(t.right);
      if Distinct(t) {
        var s, k := InOrder(t), |InOrder(t.left)|;
        forall i, j | 0 <= i < j < |s| ensures s[i] != s[j] {
          if i < k { assert s[i] == InOrder(t.left)[i]; assert s[i] in Ids(t.left); }
          if j > k { assert s[j] == InOrder(t.right)[j - k - 1]; assert s[j] in Ids(t.right); }
          if i > k { assert s[i] == InOrder(t.right)[i - k - 1]; }
          if j < k { assert s[j] == InOrder(t.left)[j]; }
        }
      }
    }
  }

  /** Any node of a tree can be brought into focus. */
  lemma {:induction false} Locate(z0: Path, t: Tree, id: nat) returns (z: Path, focus: Tree)
    requires id in Ids(t)
    ensures focus.Node? && focus.id == id && Fill(z, focus) == Fill(z0, t)
    decreases t
  {
    if t.id == id {
      z, focus := z0, t;
    } else if id in Ids(t.left) {
      z, focus := Locate(LeftOf(t.id, t.color, t.right, z0), t.left, id);
    } else {
      z, focus := Locate(RightOf(t.id, t.color, t.left, z0), t.right, id);
    }
  }

  // ----- the red-black rules -----

  ghost predicate IsRed(t: Tree) { t.Node? && t.color == Red }

  /** t has black height h on every branch and no red node with a red child. */
  ghost predicate Balanced(t: Tree, h: nat) {
    match t
    case Leaf => h == 0
    case Node(l, _, Red, r) => !IsRed(l) && !IsRed(r) && Balanced(l, h) && Balanced(r, h)
    case Node(l, _, Black, r) => h > 0 && Balanced(l, h - 1) && Balanced(r, h - 1)
  }

  ghost function BlackHeight(t: Tree): nat {
    match t
    case Leaf => 0
    case Node(l, _, c, _) => BlackHeight(l) + if c.Black? then 1 else 0
  }

  ghost predicate IsRedBlack(t: Tree) { !IsRed(t) && Balanced(t, BlackHeight(t)) }

  lemma {:induction false} BalancedHeight(t: Tree, h: nat)
    requires Balanced(t, h)
    ensures BlackHeight(t) == h
  {
    if t.Node? { BalancedHeight(t.left, if t.color.Black? then h - 1 else h); }
  }

  /** Every rule holds along z once a subtree of black height h fills it. */
  ghost predicate BalancedPath(z: Path, h: nat) {
    z.Top? ||
    (&& Balanced(z.sibling, h)
     && (z.color.Red? ==> !IsRed(z.sibling) && !z.up.Top? && z.up.color.Black?)
     && BalancedPath(z.up, if z.color.Black? then h + 1 else h))
  }

  lemma {:induction false} FillBalanced(z: Path, t: Tree, h: nat)
    requires BalancedPath(z, h) && Balanced(t, h)
    requires IsRed(t) ==> !z.Top? && z.color.Black?
    ensures IsRedBlack(Fill(z, t))
    decreases z
  {
    match z
    case Top => BalancedHeight(t, h);
    case LeftOf(p, c, s, up) => FillBalanced(up, Node(t, p, c, s), if c.Black? then h + 1 else h);
    case RightOf(p, c, s, up) => FillBalanced(up, Node(s, p, c, t), if c.Black? then h + 1 else h);
  }

  lemma {:induction false} FocusBalanced(z: Path, t: Tree) returns (h: nat)
    requires IsRedBlack(Fill(z, t))
    ensures BalancedPath(z, h) && Balanced(t, h)
    ensures IsRed(t) ==> !z.Top? && z.color.Black?
    decreases z
  {
    match z {
      case Top => h := BlackHeight(t);
      case LeftOf(p, c, s, up) =>
        h := FocusBalanced(up, Node(t, p, c, s));
        h := if c.Black? then h - 1 else h;
      case RightOf(p, c, s, up) =>
        h := FocusBalanced(up, Node(s, p, c, t));
        h := if c.Black? then h - 1 else h;
    }
  }

  // ----- the height bound -----

  ghost function Height(t: Tree): nat {
    match t
    case Leaf => 0
    case Node(l, _, _, r) => 1 + if Height(l) < Height(r) then Height(r) else Height(l)
  }

  ghost function Size(t: Tree): nat {
    match t
    case Leaf => 0
    case Node(l, _, _, r) => Size(l) + 1 + Size(r)
  }

  lemma {:induction false} BlackHeightBounds(t: Tree, h: nat)
    requires Balanced(t, h)
    ensures Pow2(h) <= Size(t) + 1
    ensures Height(t) <= 2 * h + if IsRed(t) then 1 else 0
  {
    if t.Node? {
      var k := if t.color.Black? then h - 1 else h;
      BlackHeightBounds(t.left, k);
      BlackHeightBounds(t.right, k);
    }
  }

  lemma SquareMonotone(p: nat, n: nat)
    requires p <= n
    ensures p * p <= n * n
  {
    assert p * p <= n * p;
    assert n * p <= n * n;
  }

  /** The height is at most 2*log2(n+1): stated without logarithms. */
  lemma {:induction false} HeightBound(t: Tree)
    requires IsRedBlack(t)
    ensures Pow2(Height(t)) <= (Size(t) + 1) * (Size(t) + 1)
  {
    var h := BlackHeight(t);
    BlackHeightBounds(t, h);
    Pow2Monotone(Height(t), 2 * h);
    Pow2Plus(h, h);
    SquareMonotone(Pow2(h), Size(t) + 1);
  }

  lemma {:induction false} SizeInOrder(t: Tree)
    ensures |InOrder(t)| == Size(t)
  {
    if t.Node? { SizeInOrder(t.left); SizeInOrder(t.right); }
  }

  // ----- insert repair -----

  /** g is a black node whose left child is red with exactly one red child: the last case of
      the insert repair.  The result hangs the three nodes under a black one. */
  ghost function InsertFixLeft(g: Tree): Tree
    requires g.Node? && g.left.Node? && (g.left.left.Node? || g.left.right.Node?)
  {
    var p := if IsRed(g.left.right) then RotatedLeft(g.left) else g.left;
    if p.left.Node? then RotatedRight(Node(p.(color := Black), g.id, Red, g.right)) else g
  }

  ghost function InsertFixRight(g: Tree): Tree
    requires g.Node? && g.right.Node? && (g.right.left.Node? || g.right.right.Node?)
  {
    var p := if IsRed(g.right.left) then RotatedRight(g.right) else g.right;
    if p.right.Node? then RotatedLeft(Node(g.left, g.id, Red, p.(color := Black))) else g
  }

  ghost predicate Broken(l: Tree, r: Tree, h: nat) {
    Balanced(l, h) && Balanced(r, h) && (IsRed(l) <==> !IsRed(r))
  }

  lemma {:induction false} InsertFixLeftBalanced(g: Tree, h: nat)
    requires g.Node? && IsRed(g.left) && !IsRed(g.right) && Balanced(g.right, h)
    requires Broken(g.left.left, g.left.right, h)
    ensures InOrder(InsertFixLeft(g)) == InOrder(g)
    ensures var f := InsertFixLeft(g);
      f.Node? && f.left.Node? && f.left.color.Red? && f.right.Node? && f.color.Black? && Balanced(f, h + 1)
  {
    var p := if IsRed(g.left.right) then RotatedLeft(g.left) else g.left;
    RotationsInOrder(g.left);
    RotationsInOrder(Node(p.(color := Black), g.id, Red, g.right));
    assert InOrder(p.(color := Black)) == InOrder(p) == InOrder(g.left);
  }

  lemma {:induction false} InsertFixRightBalanced(g: Tree, h: nat)
    requires g.Node? && IsRed(g.right) && !IsRed(g.left) && Balanced(g.left, h)
    requires Broken(g.right.left, g.right.right, h)
    ensures InOrder(InsertFixRight(g)) == InOrder(g)
    ensures var f := InsertFixRight(g);
      f.Node? && f.right.Node? && f.right.color.Red? && f.left.Node? && f.color.Black? && Balanced(f, h + 1)
  {
    var p := if IsRed(g.right.left) then RotatedRight(g.right) else g.right;
    RotationsInOrder(g.right);
    RotationsInOrder(Node(g.left, g.id, Red, p.(color := Black)));
    assert InOrder(p.(color := Black)) == InOrder(p) == InOrder(g.right);
  }

  lemma {:induction false} Recolored(t: Tree, c: Color)
    requires t.Node?
    ensures InOrder(t.(color := c)) == InOrder(t)
  {
  }

  /** Both children of g are red and one of them has a red child: pushing g's black down repairs
      that level and moves the question of a red parent two levels up. */
  ghost function PushedDown(g: Tree): Tree
    requires g.Node? && g.left.Node? && g.right.Node?
  {
    Node(g.left.(color := Black), g.id, Red, g.right.(color := Black))
  }

  lemma {:induction false} PushedDownBalanced(g: Tree, h: nat)
    requires g.Node? && IsRed(g.left) && IsRed(g.right)
    requires Balanced(g.left.left, h) && Balanced(g.left.right, h)
    requires Balanced(g.right.left, h) && Balanced(g.right.right, h)
    ensures Balanced(PushedDown(g), h + 1) && InOrder(PushedDown(g)) == InOrder(g)
  {
    Recolored(g.left, Black);
    Recolored(g.right, Black);
  }

  // ----- erase repair -----

  /** t lacks one black node for a place of black height h + 1; a red root can supply it. */
  ghost predicate Lacking(t: Tree, h: nat) {
    if IsRed(t) then Balanced(t.(color := Black), h + 1) else Balanced(t, h)
  }

  /** The left subtree of q lacks one black node. */
  ghost predicate LackingLeft(z: Path, q: Tree, h: nat) {
    q.Node? && Balanced(q.left, h) && !IsRed(q.left) && BalancedPath(LeftOf(q.id, q.color, q.right, z), h + 1)
  }

  ghost predicate LackingRight(z: Path, q: Tree, h: nat) {
    q.Node? && Balanced(q.right, h) && !IsRed(q.right) && BalancedPath(RightOf(q.id, q.color, q.left, z), h + 1)
  }

  /** The last two cases of the erase repair: the sibling is black with a red child. */
  ghost function EraseFixLeft(q: Tree): Tree
    requires q.Node? && q.right.Node? && (IsRed(q.right.left) || IsRed(q.right.right))
  {
    var s := if IsRed(q.right.right) then q.right
             else RotatedRight(Node(q.right.left.(color := Black), q.right.id, Red, q.right.right));
    RotatedLeft(Node(q.left, q.id, Black, Node(s.left, s.id, q.color, s.right.(color := Black))))
  }

  ghost function EraseFixRight(q: Tree): Tree
    requires q.Node? && q.left.Node? && (IsRed(q.left.left) || IsRed(q.left.right))
  {
    var s := if IsRed(q.left.left) then q.left
             else RotatedLeft(Node(q.left.left, q.left.id, Red, q.left.right.(color := Black)));
    RotatedRight(Node(Node(s.left.(color := Black), s.id, q.color, s.right), q.id, Black, q.right))
  }

  lemma {:induction false} EraseFixLeftInOrder(q: Tree)
    requires q.Node? && q.right.Node? && (IsRed(q.right.left) || IsRed(q.right.right))
    ensures InOrder(EraseFixLeft(q)) == InOrder(q)
  {
    var o := q.right;
    var s := if IsRed(o.right) then o else RotatedRight(Node(o.left.(color := Black), o.id, Red, o.right));
    if !IsRed(o.right) {
      Recolored(o.left, Black);
      RotationsInOrder(Node(o.left.(color := Black), o.id, Red, o.right));
    }
    Recolored(s.right, Black);
    var s' := Node(s.left, s.id, q.color, s.right.(color := Black));
    assert InOrder(s') == InOrder(s) == InOrder(o);
    RotationsInOrder(Node(q.left, q.id, Black, s'));
  }

  lemma {:induction false} EraseFixRightInOrder(q: Tree)
    requires q.Node? && q.left.Node? && (IsRed(q.left.left) || IsRed(q.left.right))
    ensures InOrder(EraseFixRight(q)) == InOrder(q)
  {
    var o := q.left;
    var s := if IsRed(o.left) then o else RotatedLeft(Node(o.left, o.id, Red, o.right.(color := Black)));
    if !IsRed(o.left) {
      Recolored(o.right, Black);
      RotationsInOrder(Node(o.left, o.id, Red, o.right.(color := Black)));
    }
    Recolored(s.left, Black);
    var s' := Node(s.left.(color := Black), s.id, q.color, s.right);
    assert InOrder(s') == InOrder(s) == InOrder(o);
    RotationsInOrder(Node(s', q.id, Black, q.right));
  }

  lemma {:induction false} EraseFixLeftBalanced(z: Path, q: Tree, h: nat)
    requires LackingLeft(z, q, h) && !IsRed(q.right)
    requires q.right.Node? && (IsRed(q.right.left) || IsRed(q.right.right))
    ensures IsRedBlack(Fill(z, EraseFixLeft(q))) && InOrder(Fill(z, EraseFixLeft(q))) == InOrder(Fill(z, q))
  {
    var f, k := EraseFixLeft(q), if q.color.Black? then h + 2 else h + 1;
    assert Balanced(q.right, h + 1) && Balanced(q.right.left, h) && Balanced(q.right.right, h);
    assert Balanced(f.left, h + 1) && Balanced(f.right, h + 1);
    assert Balanced(f, k);
    EraseFixLeftInOrder(q);
    FillBalanced(z, f, k);
    SameInOrder(z, q, f);
  }

  lemma {:induction false} EraseFixRightBalanced(z: Path, q: Tree, h: nat)
    requires LackingRight(z, q, h) && !IsRed(q.left)
    requires q.left.Node? && (IsRed(q.left.left) || IsRed(q.left.right))
    ensures IsRedBlack(Fill(z, EraseFixRight(q))) && InOrder(Fill(z, EraseFixRight(q))) == InOrder(Fill(z, q))
  {
    var f, k := EraseFixRight(q), if q.color.Black? then h + 2 else h + 1;
    assert Balanced(q.left, h + 1) && Balanced(q.left.left, h) && Balanced(q.left.right, h);
    assert Balanced(f.left, h + 1) && Balanced(f.right, h + 1);
    assert Balanced(f, k);
    EraseFixRightInOrder(q);
    FillBalanced(z, f, k);
    SameInOrder(z, q, f);
  }

  /** Both nephews are black: the sibling turns red and the lack moves up. */
  lemma {:induction false} EraseRecolorLeft(z: Path, q: Tree, h: nat) returns (h': nat)
    requires LackingLeft(z, q, h) && !IsRed(q.right)
    requires q.right.Node? && !IsRed(q.right.left) && !IsRed(q.right.right)
    ensures Lacking(q.(right := q.right.(color := Red)), h') && BalancedPath(z, h' + 1)
    ensures InOrder(Fill(z, q.(right := q.right.(color := Red)))) == InOrder(Fill(z, q))
  {
    h' := if q.color.Black? then h + 1 else h;
    assert Balanced(q.right, h + 1);
    Recolored(q.right, Red);
    SameInOrder(z, q, q.(right := q.right.(color := Red)));
  }

  lemma {:induction false} EraseRecolorRight(z: Path, q: Tree, h: nat) returns (h': nat)
    requires LackingRight(z, q, h) && !IsRed(q.left)
    requires q.left.Node? && !IsRed(q.left.left) && !IsRed(q.left.right)
    ensures Lacking(q.(left := q.left.(color := Red)), h') && BalancedPath(z, h' + 1)
    ensures InOrder(Fill(z, q.(left := q.left.(color := Red)))) == InOrder(Fill(z, q))
  {
    h' := if q.color.Black? then h + 1 else h;
    assert Balanced(q.left, h + 1);
    Recolored(q.left, Red);
    SameInOrder(z, q, q.(left := q.left.(color := Red)));
  }

  /** The end of the erase repair: a black focus fills its place, or is the whole tree. */
  lemma {:induction false} FillSupplied(z: Path, t: Tree, h: nat)
    requires !IsRed(t) && BalancedPath(z, h + 1)
    requires Balanced(t, h + 1) || (z.Top? && Balanced(t, h))
    ensures IsRedBlack(Fill(z, t))
  {
    if Balanced(t, h + 1) { FillBalanced(z, t, h + 1); } else { BalancedHeight(t, h); }
  }

  // ----- erase: the successor takes the erased node's place -----

  /** The path goes down left links only. */
  ghost predicate LeftSpine(z: Path) { z.Top? || (z.LeftOf? && LeftSpine(z.up)) }

  /** The topmost node of a path, or the focus below it. */
  ghost function TopId(z: Path, focus: nat): nat { if z.Top? then focus else TopId(z.up, z.id) }

  /** The place of the successor s of node x: down zs inside the right subtree of x. */
  ghost function BelowRight(zs: Path, x: nat, c: Color, left: Tree, z: Path): Path {
    Join(zs, RightOf(x, c, left, z))
  }

  lemma {:induction false} SpineFacts(zs: Path, x: nat, c: Color, left: Tree, z: Path)
    requires LeftSpine(zs)
    ensures Before(BelowRight(zs, x, c, left, z)) == Before(z) + InOrder(left) + [x]
    ensures After(BelowRight(zs, x, c, left, z)) == After(zs) + After(z)
    ensures PathIds(BelowRight(zs, x, c, left, z)) == PathIds(zs) + {x} + Ids(left) + PathIds(z)
  {
    if zs.Top? {
      ConcatNone(After(z));
    } else {
      SpineFacts(zs.up, x, c, left, z);
      ConcatAssoc(InOrder(zs.sibling), After(zs.up), After(z));
      ConcatAssoc([zs.id], InOrder(zs.sibling) + After(zs.up), After(z));
    }
  }

  /** The rules do not look at node names. */
  lemma {:induction false} RenamedBalanced(zs: Path, x: nat, y: nat, c: Color, left: Tree, z: Path, h: nat)
    requires BalancedPath(BelowRight(zs, x, c, left, z), h)
    ensures BalancedPath(BelowRight(zs, y, c, left, z), h)
  {
    if !zs.Top? { RenamedBalanced(zs.up, x, y, c, left, z, if zs.color.Black? then h + 1 else h); }
  }

  lemma {:induction false} RenamedDistinct(zs: Path, x: nat, y: nat, c: Color, left: Tree, z: Path)
    requires DistinctPath(BelowRight(zs, x, c, left, z)) && y !in PathIds(BelowRight(zs, x, c, left, z))
    requires LeftSpine(zs)
    ensures DistinctPath(BelowRight(zs, y, c, left, z))
    ensures PathIds(BelowRight(zs, y, c, left, z)) == PathIds(BelowRight(zs, x, c, left, z)) - {x} + {y}
  {
    SpineFacts(zs, x, c, left, z);
    SpineFacts(zs, y, c, left, z);
    if !zs.Top? {
      SpineFacts(zs.up, x, c, left, z);
      SpineFacts(zs.up, y, c, left, z);
      RenamedDistinct(zs.up, x, y, c, left, z);
    }
  }

  lemma {:induction false} BelowRightDistinct(zs: Path, x: nat, c: Color, left: Tree, z: Path)
    requires DistinctPath(BelowRight(zs, x, c, left, z)) && LeftSpine(zs)
    ensures DistinctPath(zs) && DistinctPath(z) && Distinct(left)
    ensures PathIds(zs) !! PathIds(z) && PathIds(zs) !! Ids(left) && Ids(left) !! PathIds(z)
    ensures x !in PathIds(zs) && x !in Ids(left) && x !in PathIds(z)
  {
    SpineFacts(zs, x, c, left, z);
    if !zs.Top? {
      SpineFacts(zs.up, x, c, left, z);
      BelowRightDistinct(zs.up, x, c, left, z);
    }
  }

  // ----- the in-order sequence without one node -----

  lemma Regroup(a: seq<nat>, l: seq<nat>, x: nat, r: seq<nat>, b: seq<nat>)
    ensures a + (l + [x] + r) + b == (a + l) + [x] + (r + b)
  {
  }

  lemma Assoc(a: seq<nat>, l: seq<nat>, r: seq<nat>, b: seq<nat>)
    ensures a + (l + r) + b == (a + l) + (r + b)
  {
  }

  lemma Shift(a: seq<nat>, x: nat, i: seq<nat>, k: seq<nat>, b: seq<nat>)
    ensures (a + [x]) + i + (k + b) == a + (([x] + i + k) + b)
  {
  }

  /** The node at the focus occurs once, between what precedes and what follows it. */
  lemma {:induction false} OccursOnce(z: Path, t: Tree)
    requires t.Node? && Distinct(Fill(z, t))
    ensures var a, b := Before(z) + InOrder(t.left), InOrder(t.right) + After(z);
      && InOrder(Fill(z, t)) == a + [t.id] + b && t.id !in a && t.id !in b
      && Remove(InOrder(Fill(z, t)), t.id) == a + b
  {
    var a, b := Before(z) + InOrder(t.left), InOrder(t.right) + After(z);
    FillInOrder(z, t);
    InOrderIds(Fill(z, t));
    Regroup(Before(z), InOrder(t.left), t.id, InOrder(t.right), After(z));
    OnceInMiddle(a, t.id, b);
    RemoveMiddle(a, t.id, b);
  }

  /** Filling the place of a node with one child by that child removes exactly that node. */
  lemma {:induction false} SpliceInOrder(z: Path, t: Tree, c: Tree)
    requires t.Node? && Distinct(Fill(z, t))
    requires (t.left.Leaf? && c == t.right) || (t.right.Leaf? && c == t.left)
    ensures InOrder(Fill(z, c)) == Remove(InOrder(Fill(z, t)), t.id)
  {
    OccursOnce(z, t);
    FillInOrder(z, c);
    assert InOrder(c) == InOrder(t.left) + InOrder(t.right);
    Assoc(Before(z), InOrder(t.left), InOrder(t.right), After(z));
  }

  /** Putting the successor in the node's place removes exactly that node. */
  lemma {:induction false} TransplantInOrder(z: Path, t: Tree, zs: Path, s: Tree)
    requires t.Node? && Distinct(Fill(z, t)) && t.right == Fill(zs, s)
    requires LeftSpine(zs) && s.Node? && s.left.Leaf?
    ensures InOrder(Fill(BelowRight(zs, s.id, t.color, t.left, z), s.right)) == Remove(InOrder(Fill(z, t)), t.id)
  {
    OccursOnce(z, t);
    SpineFacts(zs, s.id, t.color, t.left, z);
    FillInOrder(BelowRight(zs, s.id, t.color, t.left, z), s.right);
    SpineRight(zs, s);
    Shift(Before(z) + InOrder(t.left), s.id, InOrder(s.right), After(zs), After(z));
  }

  lemma {:induction false} SpineRight(zs: Path, s: Tree)
    requires s.Node? && s.left.Leaf? && LeftSpine(zs)
    ensures InOrder(Fill(zs, s)) == [s.id] + InOrder(s.right) + After(zs)
  {
    SpineBefore(zs);
    FillInOrder(zs, s);
    assert InOrder(s) == [s.id] + InOrder(s.right);
  }

  lemma {:induction false} SpineBefore(zs: Path)
    requires LeftSpine(zs)
    ensures Before(zs) == []
  {
    if !zs.Top? { SpineBefore(zs.up); }
  }

  /** After the successor has moved, the place of its child lacks at most the successor's own black. */
  lemma {:induction false} TransplantBalanced(z: Path, t: Tree, zs: Path, s: Tree, h: nat) returns (k: nat)
    requires t.Node? && BalancedPath(z, h) && Balanced(t, h) && (IsRed(t) ==> !z.Top? && z.color.Black?)
    requires t.right == Fill(zs, s) && s.Node? && s.left.Leaf? && LeftSpine(zs)
    ensures BalancedPath(BelowRight(zs, s.id, t.color, t.left, z), k)
    ensures s.color.Black? ==> k > 0 && Balanced(s.right, k - 1)
    ensures s.color.Red? ==> Balanced(s.right, k) && !IsRed(s.right)
  {
    k := BalancedBelow(zs, s, RightOf(t.id, t.color, t.left, z), if t.color.Black? then h - 1 else h);
    RenamedBalanced(zs, t.id, s.id, t.color, t.left, z, k);
  }

  lemma {:induction false} BalancedBelow(zs: Path, s: Tree, z: Path, h: nat) returns (k: nat)
    requires Balanced(Fill(zs, s), h) && BalancedPath(z, h)
    requires IsRed(Fill(zs, s)) ==> !z.Top? && z.color.Black?
    ensures Balanced(s, k) && BalancedPath(Join(zs, z), k)
    ensures IsRed(s) ==> !Join(zs, z).Top? && Join(zs, z).color.Black?
    decreases zs
  {
    if zs.Top? {
      k := h;
    } else {
      k := BalancedBelow(zs.up, Above(zs, s), z, h);
      k := if zs.color.Black? then k - 1 else k;
    }
  }

  ghost predicate RightSpine(z: Path) { z.Top? || (z.RightOf? && RightSpine(z.up)) }

  lemma {:induction false} SpineAfter(zs: Path)
    requires RightSpine(zs)
    ensures After(zs) == []
  {
    if !zs.Top? { SpineAfter(zs.up); }
  }

  lemma {:induction false} SpineLeft(zs: Path, s: Tree)
    requires s.Node? && s.right.Leaf? && RightSpine(zs)
    ensures InOrder(Fill(zs, s)) == Before(zs) + InOrder(s.left) + [s.id]
  {
    SpineAfter(zs);
    FillInOrder(zs, s);
    assert InOrder(s) == InOrder(s.left) + [s.id];
    Assoc(Before(zs), InOrder(s.left), [s.id], []);
  }
}
