/** The memory of a linked tree: one cell per node with its child pointers, its parent pointer
    and its colour (the source packs the last two into one word).  `HoldsAt` ties a memory to
    the tree it denotes. */
module RbMemory {
  import opened Pointers
  import opened RbShape

  datatype Cell = Cell(left: Ptr, right: Ptr, parent: Ptr, color: Color)

  type Memory = map<nat, Cell>

  // ----- the field assignments of rbtree.h -----

  function SetLeft(m: Memory, n: nat, p: Ptr): Memory requires n in m { m[n := m[n].(left := p)] }
  function SetRight(m: Memory, n: nat, p: Ptr): Memory requires n in m { m[n := m[n].(right := p)] }
  function SetParent(m: Memory, n: nat, p: Ptr): Memory requires n in m { m[n := m[n].(parent := p)] }
  function SetColor(m: Memory, n: nat, c: Color): Memory requires n in m { m[n := m[n].(color := c)] }

  function SetParentColor(m: Memory, n: nat, p: Ptr, c: Color): Memory requires n in m {
    m[n := m[n].(parent := p, color := c)]
  }

  /** Moves a child, if there is one, under p. */
  function Adopt(m: Memory, child: Ptr, p: Ptr): Memory {
    if child.At? && child.id in m then SetParent(m, child.id, p) else m
  }

  // ----- what a memory denotes -----

  ghost function RootPtr(t: Tree): Ptr { if t.Leaf? then Null else At(t.id) }

  ghost function ParentPtr(z: Path): Ptr { if z.Top? then Null else At(z.id) }

  ghost function PathRoot(z: Path, child: Ptr): Ptr {
    if z.Top? then child else PathRoot(z.up, At(z.id))
  }

  /** The cells of t have t's shape and colours, and t's root points up to p. */
  ghost predicate Holds(m: Memory, t: Tree, p: Ptr) {
    match t
    case Leaf => true
    case Node(l, id, c, r) =>
      && id in m && m[id] == Cell(RootPtr(l), RootPtr(r), p, c)
      && Holds(m, l, At(id)) && Holds(m, r, At(id))
  }

  ghost function FrameCell(z: Path, child: Ptr): Cell
    requires !z.Top?
  {
    if z.LeftOf? then Cell(child, RootPtr(z.sibling), ParentPtr(z.up), z.color)
    else Cell(RootPtr(z.sibling), child, ParentPtr(z.up), z.color)
  }

  /** The cells along z have z's shape, and its last link is `child`. */
  ghost predicate HoldsPath(m: Memory, z: Path, child: Ptr) {
    z.Top? ||
    (&& z.id in m && m[z.id] == FrameCell(z, child)
     && Holds(m, z.sibling, At(z.id)) && HoldsPath(m, z.up, At(z.id)))
  }

  /** Memory and root pointer denote exactly the tree Fill(z, t); parent links mirror child links. */
  ghost predicate HoldsAt(m: Memory, root: Ptr, z: Path, t: Tree) {
    && root == PathRoot(z, RootPtr(t))
    && HoldsPath(m, z, RootPtr(t)) && Holds(m, t, ParentPtr(z)) && DistinctAt(z, t)
  }

  // ----- moving the focus -----

  lemma {:induction false} HoldsFill(m: Memory, root: Ptr, z: Path, t: Tree)
    ensures HoldsAt(m, root, z, t) <==> HoldsAt(m, root, Top, Fill(z, t))
    decreases z
  {
    match z
    case Top =>
    case LeftOf(p, c, s, up) => HoldsFill(m, root, up, Node(t, p, c, s));
    case RightOf(p, c, s, up) => HoldsFill(m, root, up, Node(s, p, c, t));
  }

  lemma Refocus(m: Memory, root: Ptr, z: Path, t: Tree, z': Path, t': Tree)
    requires HoldsAt(m, root, z, t) && Fill(z, t) == Fill(z', t')
    ensures HoldsAt(m, root, z', t')
  {
    HoldsFill(m, root, z, t);
    HoldsFill(m, root, z', t');
  }

  /** The cells of the focus and of its parent. */
  ghost predicate FocusIn(m: Memory, z: Path, t: Tree) {
    && (t.Node? ==> t.id in m && m[t.id] == Cell(RootPtr(t.left), RootPtr(t.right), ParentPtr(z), t.color))
    && (!z.Top? ==> z.id in m && m[z.id] == FrameCell(z, RootPtr(t)))
  }

  lemma FocusCells(m: Memory, root: Ptr, z: Path, t: Tree)
    requires HoldsAt(m, root, z, t)
    ensures FocusIn(m, z, t)
  {
  }

  /** What the parent pointer of the focus reaches, and which of its links leads back. */
  lemma Climb(m: Memory, root: Ptr, z: Path, t: Tree)
    requires HoldsAt(m, root, z, t) && !z.Top?
    ensures HoldsAt(m, root, z.up, Above(z, t))
    ensures z.id in m && m[z.id] == FrameCell(z, RootPtr(t))
    ensures t.Node? ==> t.id in m && m[t.id].parent == At(z.id) && m[t.id].color == t.color
    ensures t.Node? || z.sibling.Node? ==> RootPtr(z.sibling) != RootPtr(t)
    ensures z.sibling.Node? ==> z.sibling.id in m && m[z.sibling.id].color == z.sibling.color
  {
    Refocus(m, root, z, t, z.up, Above(z, t));
  }

  /** A focus is the whole tree exactly when the root pointer reaches it. */
  lemma {:induction false} PathRootOutside(z: Path, child: Ptr)
    requires !z.Top?
    ensures PathRoot(z, child).At? && PathRoot(z, child).id in PathIds(z)
  {
    if !z.up.Top? { PathRootOutside(z.up, At(z.id)); }
  }

  // ----- frames -----

  ghost predicate Agree(m: Memory, m': Memory, ids: set<nat>) {
    forall i :: i in ids && i in m ==> i in m' && m'[i] == m[i]
  }

  lemma {:induction false} HoldsFrame(m: Memory, m': Memory, t: Tree, p: Ptr)
    requires Holds(m, t, p) && Agree(m, m', Ids(t))
    ensures Holds(m', t, p)
  {
    if t.Node? {
      HoldsFrame(m, m', t.left, At(t.id));
      HoldsFrame(m, m', t.right, At(t.id));
    }
  }

  /** Only the root's parent link moves. */
  lemma HoldsReparent(m: Memory, m': Memory, t: Tree, p: Ptr, p': Ptr)
    requires Holds(m, t, p) && Distinct(t)
    requires t.Node? ==> Agree(SetParent(m, t.id, p'), m', Ids(t))
    ensures Holds(m', t, p')
  {
    if t.Node? {
      HoldsFrame(m, m', t.left, At(t.id));
      HoldsFrame(m, m', t.right, At(t.id));
    }
  }

  lemma {:induction false} HoldsPathFrame(m: Memory, m': Memory, z: Path, child: Ptr)
    requires HoldsPath(m, z, child) && Agree(m, m', PathIds(z))
    ensures HoldsPath(m', z, child)
  {
    if !z.Top? {
      HoldsFrame(m, m', z.sibling, At(z.id));
      HoldsPathFrame(m, m', z.up, At(z.id));
    }
  }

  /** The memory after the last link of z is redirected. */
  ghost function Relink(m: Memory, z: Path, child: Ptr): Memory {
    if z.Top? then m else m[z.id := FrameCell(z, child)]
  }

  lemma HoldsPathRelink(m: Memory, m': Memory, z: Path, child: Ptr, child': Ptr)
    requires HoldsPath(m, z, child) && DistinctPath(z)
    requires Agree(Relink(m, z, child'), m', PathIds(z))
    ensures HoldsPath(m', z, child')
  {
    if !z.Top? {
      assert Agree(m, m', Ids(z.sibling));
      HoldsFrame(m, m', z.sibling, At(z.id));
      HoldsPathFrame(m, m', z.up, At(z.id));
    }
  }

  // ----- rotations -----

  ghost function RotateLeftMemory(m: Memory, z: Path, t: Tree): Memory
    requires t.Node? && t.right.Node?
  {
    var x, y, b := t.id, t.right.id, t.right.left;
    Adopt(Relink(m, z, At(y)), RootPtr(b), At(x))
      [x := Cell(RootPtr(t.left), RootPtr(b), At(y), t.color)]
      [y := Cell(At(x), RootPtr(t.right.right), ParentPtr(z), t.right.color)]
  }

  ghost function RotateRightMemory(m: Memory, z: Path, t: Tree): Memory
    requires t.Node? && t.left.Node?
  {
    var x, y, b := t.id, t.left.id, t.left.right;
    Adopt(Relink(m, z, At(y)), RootPtr(b), At(x))
      [x := Cell(RootPtr(b), RootPtr(t.right), At(y), t.color)]
      [y := Cell(RootPtr(t.left.left), At(x), ParentPtr(z), t.left.color)]
  }

  /** The flat facts a rotation reads: the cells of the rotated node x, of its child y and of
      y's inner subtree b, all different from each other and from x's parent. */
  ghost predicate Rotatable(m: Memory, z: Path, x: nat, y: nat, b: Tree) {
    && x in m && y in m && x != y
    && (b.Node? ==> b.id in m && b.id != x && b.id != y)
    && (!z.Top? ==>
          && z.id in m && m[z.id] == FrameCell(z, At(x)) && RootPtr(z.sibling) != At(x)
          && z.id != x && z.id != y && RootPtr(b) != At(z.id))
  }

  lemma RotationsDistinct(z: Path, t: Tree)
    requires DistinctAt(z, t) && t.Node?
    ensures t.right.Node? ==> DistinctAt(z, RotatedLeft(t))
    ensures t.left.Node? ==> DistinctAt(z, RotatedRight(t))
  {
    if t.right.Node? {
      assert Distinct(t.right) && Ids(t.right) == Ids(t.right.left) + {t.right.id} + Ids(t.right.right);
      assert Ids(RotatedLeft(t)) == Ids(t);
    }
    if t.left.Node? {
      assert Distinct(t.left) && Ids(t.left) == Ids(t.left.left) + {t.left.id} + Ids(t.left.right);
      assert Ids(RotatedRight(t)) == Ids(t);
    }
  }

  lemma RotateLeftHolds(m: Memory, root: Ptr, z: Path, t: Tree)
    requires HoldsAt(m, root, z, t) && t.Node? && t.right.Node?
    ensures Rotatable(m, z, t.id, t.right.id, t.right.left)
    ensures m[t.id] == Cell(RootPtr(t.left), At(t.right.id), ParentPtr(z), t.color)
    ensures m[t.right.id] == Cell(RootPtr(t.right.left), RootPtr(t.right.right), At(t.id), t.right.color)
    ensures HoldsAt(RotateLeftMemory(m, z, t), PathRoot(z, At(t.right.id)), z, RotatedLeft(t))
  {
    var m', y := RotateLeftMemory(m, z, t), t.right;
    assert Holds(m, y, At(t.id)) && Distinct(y);
    RotationsDistinct(z, t);
    HoldsFrame(m, m', t.left, At(t.id));
    HoldsReparent(m, m', y.left, At(y.id), At(t.id));
    HoldsFrame(m, m', y.right, At(y.id));
    HoldsPathRelink(m, m', z, At(t.id), At(y.id));
  }

  lemma RotateRightHolds(m: Memory, root: Ptr, z: Path, t: Tree)
    requires HoldsAt(m, root, z, t) && t.Node? && t.left.Node?
    ensures Rotatable(m, z, t.id, t.left.id, t.left.right)
    ensures m[t.id] == Cell(At(t.left.id), RootPtr(t.right), ParentPtr(z), t.color)
    ensures m[t.left.id] == Cell(RootPtr(t.left.left), RootPtr(t.left.right), At(t.id), t.left.color)
    ensures HoldsAt(RotateRightMemory(m, z, t), PathRoot(z, At(t.left.id)), z, RotatedRight(t))
  {
    var m', y := RotateRightMemory(m, z, t), t.left;
    assert Holds(m, y, At(t.id)) && Distinct(y);
    RotationsDistinct(z, t);
    HoldsFrame(m, m', t.right, At(t.id));
    HoldsReparent(m, m', y.right, At(y.id), At(t.id));
    HoldsFrame(m, m', y.left, At(y.id));
    HoldsPathRelink(m, m', z, At(t.id), At(y.id));
  }

  // ----- recolouring -----

  lemma PaintHolds(m: Memory, root: Ptr, z: Path, t: Tree, c: Color)
    requires HoldsAt(m, root, z, t) && t.Node?
    ensures t.id in m && HoldsAt(SetColor(m, t.id, c), root, z, t.(color := c))
  {
    var m' := SetColor(m, t.id, c);
    HoldsFrame(m, m', t.left, At(t.id));
    HoldsFrame(m, m', t.right, At(t.id));
    HoldsPathFrame(m, m', z, At(t.id));
  }

  /** The loop guard of the erase repair: comparing with the root pointer detects the end of the path. */
  lemma EraseGuard(m: Memory, root: Ptr, z: Path, t: Tree)
    requires HoldsAt(m, root, z, t)
    ensures RootPtr(t) == root <==> z.Top?
    ensures t.Node? ==> t.id in m && m[t.id].color == t.color
  {
    if !z.Top? { PathRootOutside(z, RootPtr(t)); }
  }

  // ----- linking and unlinking -----

  /** The node at the focus has at most one child, which moves up. */
  lemma SpliceHolds(m: Memory, root: Ptr, z: Path, t: Tree, c: Tree)
    requires HoldsAt(m, root, z, t) && t.Node? && (c == t.left || c == t.right)
    ensures HoldsAt(Relink(Adopt(m, RootPtr(c), ParentPtr(z)), z, RootPtr(c)), PathRoot(z, RootPtr(c)), z, c)
  {
    var m' := Relink(Adopt(m, RootPtr(c), ParentPtr(z)), z, RootPtr(c));
    assert Holds(m, c, At(t.id)) && Distinct(c);
    HoldsReparent(m, m', c, At(t.id), ParentPtr(z));
    HoldsPathRelink(m, m', z, At(t.id), RootPtr(c));
  }

  /** What rb_link_node leaves behind. */
  lemma LinkHolds(m: Memory, root: Ptr, z: Path, node: nat)
    requires HoldsAt(m, root, z, Leaf) && node !in PathIds(z)
    ensures HoldsAt(Relink(m, z, At(node))[node := Cell(Null, Null, ParentPtr(z), Red)], PathRoot(z, At(node)),
                    z, Node(Leaf, node, Red, Leaf))
  {
    var m' := Relink(m, z, At(node))[node := Cell(Null, Null, ParentPtr(z), Red)];
    HoldsPathRelink(m, m', z, Null, At(node));
  }

  /** The cells that the splice of the successor reads, and which nodes differ. */
  ghost predicate TransplantReady(m: Memory, z: Path, t: Tree, zs: Path, s: Tree) {
    && t.Node? && t.left.Node? && t.right.Node? && s.Node?
    && s.id in m && m[s.id] == Cell(Null, RootPtr(s.right), if zs.Top? then At(t.id) else At(zs.id), s.color)
    && t.id in m && m[t.id] == Cell(At(t.left.id), At(t.right.id), ParentPtr(z), t.color)
    && t.left.id in m && t.right.id in m && s.id != t.id && t.left.id != s.id && t.left.id != t.id
    && (s.right.Node? ==> s.right.id in m && s.right.id != s.id && s.right.id != t.id && s.right.id != t.left.id)
    && (!zs.Top? ==>
          && zs.id in m && zs.id != t.id && zs.id != s.id && zs.id != t.left.id && RootPtr(s.right) != At(zs.id)
          && t.right.id != s.id && t.right.id != t.left.id && RootPtr(s.right) != At(t.right.id))
    && (!z.Top? ==>
          && z.id in m && m[z.id] == FrameCell(z, At(t.id)) && RootPtr(z.sibling) != At(t.id)
          && z.id != t.id && z.id != s.id && z.id != t.left.id && RootPtr(s.right) != At(z.id)
          && ParentPtr(zs) != At(z.id) && (!zs.Top? ==> t.right.id != z.id))
    && t.right.id != t.id
  }

  /** The memory after the child of the successor s has moved up (s lies at the end of zs in the
      right subtree of t), unless s is the right child itself. */
  ghost function Detached(m: Memory, t: Tree, zs: Path, s: Tree): Memory
    requires t.Node? && t.right.Node? && s.Node? && s.id in m && t.right.id in m && (!zs.Top? ==> zs.id in m)
  {
    if zs.Top? then m else
      var a := SetLeft(Adopt(m, RootPtr(s.right), At(zs.id)), zs.id, RootPtr(s.right));
      SetParent(SetRight(a, s.id, At(t.right.id)), t.right.id, At(s.id))
  }

  /** The memory after s has also taken the place of t's root. */
  ghost function TransplantMemory(m: Memory, z: Path, t: Tree, zs: Path, s: Tree): Memory
    requires TransplantReady(m, z, t, zs, s)
  {
    var a := Detached(Relink(m, z, At(s.id)), t, zs, s);
    SetParent(SetLeft(SetParentColor(a, s.id, ParentPtr(z), t.color), s.id, At(t.left.id)), t.left.id, At(s.id))
  }

  lemma {:induction false} SpineTop(zs: Path, s: Tree)
    requires s.Node?
    ensures RootPtr(Fill(zs, s)) == At(TopId(zs, s.id))
    ensures !zs.Top? ==> TopId(zs, s.id) in PathIds(zs)
    decreases zs
  {
    if !zs.Top? { SpineTop(zs.up, Above(zs, s)); }
  }

  ghost function SpineCell(c: Cell, i: nat, zs: Path, y: nat, child: Ptr): Cell {
    if zs.Top? then c
    else c.(left := if i == zs.id then child else c.left,
            parent := if i == TopId(zs.up, zs.id) then At(y) else c.parent)
  }

  /** Along the spine only the lowest left link and the topmost parent link change. */
  lemma {:induction false} SpineRelinked(m: Memory, m': Memory, zs: Path, x: nat, y: nat, c: Color, left: Tree,
                                         z: Path, child: Ptr, child': Ptr)
    requires LeftSpine(zs) && DistinctPath(zs)
    requires HoldsPath(m, BelowRight(zs, x, c, left, z), child)
    requires forall i :: i in PathIds(zs) && i in m ==> i in m' && m'[i] == SpineCell(m[i], i, zs, y, child')
    requires HoldsPath(m', RightOf(y, c, left, z), if zs.Top? then child' else At(TopId(zs.up, zs.id)))
    ensures HoldsPath(m', BelowRight(zs, y, c, left, z), child')
  {
    if !zs.Top? {
      SpineTop(zs.up, Node(Leaf, zs.id, zs.color, zs.sibling));
      HoldsFrame(m, m', zs.sibling, At(zs.id));
      SpineRelinked(m, m', zs.up, x, y, c, left, z, At(zs.id), At(zs.id));
    }
  }

  lemma {:induction false} BelowRightRoot(zs: Path, x: nat, c: Color, left: Tree, z: Path, child: Ptr)
    ensures PathRoot(BelowRight(zs, x, c, left, z), child) == PathRoot(z, At(x))
  {
    if !zs.Top? { BelowRightRoot(zs.up, x, c, left, z, At(zs.id)); }
  }

  /** The parts of the path to the successor hold on their own. */
  lemma {:induction false} BelowRightHolds(m: Memory, zs: Path, x: nat, c: Color, left: Tree, z: Path, child: Ptr)
    requires HoldsPath(m, BelowRight(zs, x, c, left, z), child)
    ensures HoldsPath(m, RightOf(x, c, left, z), if zs.Top? then child else At(TopId(zs.up, zs.id)))
  {
    if !zs.Top? { BelowRightHolds(m, zs.up, x, c, left, z, At(zs.id)); }
  }

  /** The successor, its child, the spine above it, the left subtree and the path to the erased
      node share no node. */
  ghost predicate Apart(z: Path, t: Tree, zs: Path, s: Tree) {
    && s.Node? && t.Node?
    && s.id !in Ids(s.right) && s.id !in Ids(t.left) && s.id !in PathIds(z) && s.id !in PathIds(zs)
    && Ids(s.right) !! Ids(t.left) && Ids(s.right) !! PathIds(z) && Ids(s.right) !! PathIds(zs)
    && PathIds(zs) !! PathIds(z) && PathIds(zs) !! Ids(t.left) && Ids(t.left) !! PathIds(z)
    && (!zs.Top? ==> t.right.Node? && t.right.id == TopId(zs.up, zs.id) && t.right.id in PathIds(zs))
  }

  lemma {:induction false} SuccessorSeparate(z: Path, t: Tree, zs: Path, s: Tree)
    requires t.Node? && t.right == Fill(zs, s) && s.Node? && LeftSpine(zs)
    requires DistinctAt(BelowRight(zs, t.id, t.color, t.left, z), s)
    ensures Apart(z, t, zs, s)
    ensures Distinct(t.left) && DistinctPath(zs) && DistinctPath(z)
    ensures DistinctAt(BelowRight(zs, s.id, t.color, t.left, z), s.right)
  {
    SpineFacts(zs, t.id, t.color, t.left, z);
    SpineFacts(zs, s.id, t.color, t.left, z);
    BelowRightDistinct(zs, t.id, t.color, t.left, z);
    RenamedDistinct(zs, t.id, s.id, t.color, t.left, z);
    SpineTop(zs, s);
  }

  lemma {:induction false} TransplantCells(m: Memory, z: Path, t: Tree, zs: Path, s: Tree)
    requires Apart(z, t, zs, s) && TransplantReady(m, z, t, zs, s)
    ensures var m' := TransplantMemory(m, z, t, zs, s);
      && s.id in m' && t.left.id in m' && (!z.Top? ==> z.id in m')
      && m'[s.id] == Cell(At(t.left.id), if zs.Top? then RootPtr(s.right) else RootPtr(t.right), ParentPtr(z), t.color)
      && Agree(SetParent(m, t.left.id, At(s.id)), m', Ids(t.left))
      && Agree(Relink(m, z, At(s.id)), m', PathIds(z))
  {
    var m' := TransplantMemory(m, z, t, zs, s);
    forall i | i in Ids(t.left) + PathIds(z) && i in Relink(m, z, At(s.id))
      ensures i in m' && m'[i] == Adopt(Relink(m, z, At(s.id)), At(t.left.id), At(s.id))[i]
    {
      assert i != s.id && i !in PathIds(zs) && RootPtr(s.right) != At(i);
      assert ParentPtr(zs) != At(i) && (!zs.Top? ==> RootPtr(t.right) != At(i));
    }
  }

  lemma {:induction false} TransplantOuter(m: Memory, root: Ptr, z: Path, t: Tree, zs: Path, s: Tree)
    requires Apart(z, t, zs, s) && TransplantReady(m, z, t, zs, s) && Distinct(t.left) && DistinctPath(z)
    requires HoldsPath(m, RightOf(t.id, t.color, t.left, z), if zs.Top? then At(s.id) else RootPtr(t.right))
    ensures HoldsPath(TransplantMemory(m, z, t, zs, s), RightOf(s.id, t.color, t.left, z),
                      if zs.Top? then RootPtr(s.right) else RootPtr(t.right))
  {
    var m' := TransplantMemory(m, z, t, zs, s);
    TransplantCells(m, z, t, zs, s);
    HoldsReparent(m, m', t.left, At(t.id), At(s.id));
    HoldsPathRelink(m, m', z, At(t.id), At(s.id));
  }

  lemma {:induction false} TransplantHolds(m: Memory, root: Ptr, z: Path, t: Tree, zs: Path, s: Tree)
    requires t.Node? && t.left.Node? && t.right == Fill(zs, s) && s.Node? && s.left.Leaf? && LeftSpine(zs)
    requires HoldsAt(m, root, z, t) && HoldsAt(m, root, BelowRight(zs, t.id, t.color, t.left, z), s)
    ensures TransplantReady(m, z, t, zs, s)
    ensures HoldsAt(TransplantMemory(m, z, t, zs, s), PathRoot(z, At(s.id)),
                    BelowRight(zs, s.id, t.color, t.left, z), s.right)
  {
    TransplantReads(m, root, z, t, zs, s);
    var m' := TransplantMemory(m, z, t, zs, s);
    SuccessorSeparate(z, t, zs, s);
    BelowRightRoot(zs, s.id, t.color, t.left, z, RootPtr(s.right));
    BelowRightHolds(m, zs, t.id, t.color, t.left, z, At(s.id));
    TransplantOuter(m, root, z, t, zs, s);
    TransplantInner(m, z, t, zs, s, ParentPtr(BelowRight(zs, t.id, t.color, t.left, z)));
    if !zs.Top? { TransplantSpine(m, z, t, zs, s); }
    SpineRelinked(m, m', zs, t.id, s.id, t.color, t.left, z, At(s.id), RootPtr(s.right));
  }

  lemma {:induction false} TransplantInner(m: Memory, z: Path, t: Tree, zs: Path, s: Tree, p: Ptr)
    requires Apart(z, t, zs, s) && TransplantReady(m, z, t, zs, s) && Holds(m, s, p) && Distinct(s.right)
    ensures Holds(TransplantMemory(m, z, t, zs, s), s.right, if zs.Top? then At(s.id) else At(zs.id))
  {
    var m' := TransplantMemory(m, z, t, zs, s);
    if zs.Top? {
      HoldsFrame(m, m', s.right, At(s.id));
    } else {
      HoldsReparent(m, m', s.right, At(s.id), At(zs.id));
    }
  }

  lemma {:induction false} TransplantSpine(m: Memory, z: Path, t: Tree, zs: Path, s: Tree)
    requires Apart(z, t, zs, s) && TransplantReady(m, z, t, zs, s) && !zs.Top?
    ensures var m' := TransplantMemory(m, z, t, zs, s);
      forall i :: i in PathIds(zs) && i in m ==> i in m' && m'[i] == SpineCell(m[i], i, zs, s.id, RootPtr(s.right))
  {
    forall i | i in PathIds(zs) && i in m
      ensures var m' := TransplantMemory(m, z, t, zs, s);
        i in m' && m'[i] == SpineCell(m[i], i, zs, s.id, RootPtr(s.right))
    {
      assert i != s.id && RootPtr(t.left) != At(i) && RootPtr(s.right) != At(i);
      assert ParentPtr(z) != At(i) && zs.id != s.id;
      assert ParentPtr(z) != At(zs.id);
      var a := Adopt(Relink(m, z, At(s.id)), RootPtr(s.right), At(zs.id));
      assert i in a && a[i] == m[i] && zs.id in a;
    }
  }

  lemma {:induction false} TransplantReads(m: Memory, root: Ptr, z: Path, t: Tree, zs: Path, s: Tree)
    requires t.Node? && t.left.Node? && t.right == Fill(zs, s) && s.Node? && s.left.Leaf? && LeftSpine(zs)
    requires HoldsAt(m, root, z, t) && HoldsAt(m, root, BelowRight(zs, t.id, t.color, t.left, z), s)
    ensures TransplantReady(m, z, t, zs, s)
  {
    SuccessorSeparate(z, t, zs, s);
    SpineFacts(zs, t.id, t.color, t.left, z);
    BelowRightDistinct(zs, t.id, t.color, t.left, z);
    SpineTop(zs, s);
    FocusCells(m, root, z, t);
    assert Holds(m, t.left, At(t.id)) && Holds(m, t.right, At(t.id)) && Holds(m, s.right, At(s.id));
    FocusCells(m, root, BelowRight(zs, t.id, t.color, t.left, z), s);
    if !z.Top? { Climb(m, root, z, t); }
  }
}
