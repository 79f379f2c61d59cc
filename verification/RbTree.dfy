/** The linked red-black tree of rbtree.c: rotations, the bottom-up insert repair, erase with
    successor splice, the erase repair, and the in-order walks. */
module RbTree {
  import opened Sequences
  import opened Pointers
  import opened RbShape
  import opened RbMemory

  class RbRoot {
    var root: Ptr
    var mem: Memory
    ghost var tree: Tree

    /** The memory denotes `tree`, with parent links mirroring child links, and `tree` obeys
        every red-black rule. */
    ghost predicate Valid()
      reads this
    {
      HoldsAt(mem, root, Top, tree) && IsRedBlack(tree)
    }

    method RotateLeft(node: nat, ghost z: Path, ghost t: Tree)
      requires HoldsAt(mem, root, z, t)
      requires t.Node? && t.id == node && t.right.Node?
      modifies this`mem, this`root
      ensures HoldsAt(mem, root, z, RotatedLeft(t))
    {
      RotateLeftHolds(mem, root, z, t);
      RotateLeftLinks(node, z, t);
    }

    method RotateLeftLinks(node: nat, ghost z: Path, ghost t: Tree)
      requires t.Node? && t.id == node && t.right.Node? && Rotatable(mem, z, node, t.right.id, t.right.left)
      requires mem[node] == Cell(RootPtr(t.left), At(t.right.id), ParentPtr(z), t.color)
      requires mem[t.right.id] == Cell(RootPtr(t.right.left), RootPtr(t.right.right), At(node), t.right.color)
      modifies this`mem, this`root
      ensures mem == RotateLeftMemory(old(mem), z, t) && root == if z.Top? then At(t.right.id) else old(root)
    {
      var m := mem;
      var right := m[node].right.id;
      var parent := m[node].parent;
      m := SetRight(m, node, m[right].left);
      if m[node].right.At? {
        m := SetParent(m, m[right].left.id, At(node));
      }
      m := SetLeft(m, right, At(node));
      m := SetParent(m, right, parent);
      if parent.At? {
        if m[parent.id].left == At(node) {
          m := SetLeft(m, parent.id, At(right));
        } else {
          m := SetRight(m, parent.id, At(right));
        }
      } else {
        root := At(right);
      }
      m := SetParent(m, node, At(right));
      assert m == RotateLeftMemory(mem, z, t);
      mem := m;
    }

    method RotateRight(node: nat, ghost z: Path, ghost t: Tree)
      requires HoldsAt(mem, root, z, t)
      requires t.Node? && t.id == node && t.left.Node?
      modifies this`mem, this`root
      ensures HoldsAt(mem, root, z, RotatedRight(t))
    {
      RotateRightHolds(mem, root, z, t);
      RotateRightLinks(node, z, t);
    }

    method RotateRightLinks(node: nat, ghost z: Path, ghost t: Tree)
      requires t.Node? && t.id == node && t.left.Node? && Rotatable(mem, z, node, t.left.id, t.left.right)
      requires mem[node] == Cell(At(t.left.id), RootPtr(t.right), ParentPtr(z), t.color)
      requires mem[t.left.id] == Cell(RootPtr(t.left.left), RootPtr(t.left.right), At(node), t.left.color)
      modifies this`mem, this`root
      ensures mem == RotateRightMemory(old(mem), z, t) && root == if z.Top? then At(t.left.id) else old(root)
    {
      var m := mem;
      var left := m[node].left.id;
      var parent := m[node].parent;
      m := SetLeft(m, node, m[left].right);
      if m[node].left.At? {
        m := SetParent(m, m[left].right.id, At(node));
      }
      m := SetRight(m, left, At(node));
      m := SetParent(m, left, parent);
      if parent.At? {
        if m[parent.id].right == At(node) {
          m := SetRight(m, parent.id, At(left));
        } else {
          m := SetLeft(m, parent.id, At(left));
        }
      } else {
        root := At(left);
      }
      m := SetParent(m, node, At(left));
      assert m == RotateRightMemory(mem, z, t);
      mem := m;
    }

    method Paint(node: nat, c: Color, ghost z: Path, ghost t: Tree)
      requires HoldsAt(mem, root, z, t)
      requires t.Node? && t.id == node
      modifies this`mem
      ensures HoldsAt(mem, root, z, t.(color := c))
    {
      PaintHolds(mem, root, z, t, c);
      mem := SetColor(mem, node, c);
    }

    /** rbtree.c:101-103, 126-128: both children black, the node red. */
    method PushBlackDown(left: nat, right: nat, node: nat, ghost z: Path, ghost t: Tree)
      requires HoldsAt(mem, root, z, t)
      requires t.Node? && t.left.Node? && t.right.Node?
      requires t.id == node && t.left.id == left && t.right.id == right
      modifies this`mem
      ensures HoldsAt(mem, root, z, PushedDown(t))
    {
      ghost var l, r := t.left.(color := Black), t.right.(color := Black);
      ghost var zl, zr := LeftOf(node, t.color, t.right, z), RightOf(node, t.color, l, z);
      Refocus(mem, root, z, t, zl, t.left);
      Paint(left, Black, zl, t.left);
      Refocus(mem, root, zl, l, zr, t.right);
      Paint(right, Black, zr, t.right);
      Refocus(mem, root, zr, r, z, Node(l, node, t.color, r));
      Paint(node, Red, z, Node(l, node, t.color, r));
    }

    /** rbtree.c:109-120: the uncle is black, so at most two rotations end the repair. */
    method InsertRotateRight(node: nat, parent: nat, gparent: nat, ghost z: Path, ghost g: Tree)
      returns (n: nat)
      requires HoldsAt(mem, root, z, g)
      requires g.Node? && g.id == gparent && g.left.Node? && g.left.id == parent
      requires IsRed(g.left.left) != IsRed(g.left.right)
      requires node == if IsRed(g.left.right) then g.left.right.id else g.left.left.id
      modifies this`mem, this`root
      ensures HoldsAt(mem, root, z, InsertFixLeft(g))
      ensures InsertFixLeft(g).Node? && RootPtr(InsertFixLeft(g).left) == At(n)
    {
      var p := parent;
      n := node;
      ghost var t, zl := g.left, LeftOf(gparent, g.color, g.right, z);
      Refocus(mem, root, z, g, zl, t);
      if mem[p].right == At(n) {
        RotateLeft(p, zl, t);
        t := RotatedLeft(t);
        p, n := n, p;
      }
      Paint(p, Black, zl, t);
      t := t.(color := Black);
      ghost var u := Node(t, gparent, g.color, g.right);
      Refocus(mem, root, zl, t, z, u);
      Paint(gparent, Red, z, u);
      RotateRight(gparent, z, u.(color := Red));
    }

    /** The same with the focus moved to the lower red node, whose parent is now black. */
    method InsertEndLeft(node: nat, parent: nat, gparent: nat, ghost z: Path, ghost g: Tree, ghost h: nat)
      returns (n: nat, ghost z': Path, ghost t': Tree)
      requires HoldsAt(mem, root, z, g) && BalancedPath(z, h + 1)
      requires g.Node? && g.id == gparent && Balanced(g.right, h) && !IsRed(g.right)
      requires IsRed(g.left) && g.left.id == parent && Broken(g.left.left, g.left.right, h)
      requires node == if IsRed(g.left.right) then g.left.right.id else g.left.left.id
      modifies this`mem, this`root
      ensures HoldsAt(mem, root, z', t')
      ensures IsRed(t') && t'.id == n && Balanced(t', h) && BalancedPath(z', h)
      ensures InOrder(Fill(z', t')) == InOrder(Fill(z, g)) && Depth(z') == Depth(z) + 1
    {
      n := InsertRotateRight(node, parent, gparent, z, g);
      InsertFixLeftBalanced(g, h);
      ghost var f := InsertFixLeft(g);
      SameInOrder(z, g, f);
      z', t' := LeftOf(f.id, f.color, f.right, z), f.left;
      Refocus(mem, root, z, f, z', t');
    }

    /** rbtree.c:97-120: the parent is a left child of g. */
    method InsertStepLeft(node: nat, parent: nat, gparent: nat, ghost z: Path, ghost g: Tree, ghost h: nat)
      returns (n: nat, ghost z': Path, ghost t': Tree, ghost h': nat)
      requires HoldsAt(mem, root, z, g) && BalancedPath(z, h + 1)
      requires g.Node? && g.id == gparent && Balanced(g.right, h)
      requires IsRed(g.left) && g.left.id == parent && Broken(g.left.left, g.left.right, h)
      requires node == if IsRed(g.left.right) then g.left.right.id else g.left.left.id
      modifies this`mem, this`root
      ensures HoldsAt(mem, root, z', t')
      ensures IsRed(t') && t'.id == n && Balanced(t', h') && BalancedPath(z', h')
      ensures InOrder(Fill(z', t')) == InOrder(Fill(z, g)) && Depth(z') <= Depth(z) + 1
    {
      Refocus(mem, root, z, g, RightOf(gparent, g.color, g.left, z), g.right);
      FocusCells(mem, root, RightOf(gparent, g.color, g.left, z), g.right);
      var uncle := mem[gparent].right;
      if uncle.At? && mem[uncle.id].color.Red? {
        PushBlackDown(parent, uncle.id, gparent, z, g);
        n, z', t', h' := gparent, z, PushedDown(g), h + 1;
        PushedDownBalanced(g, h);
        SameInOrder(z, g, t');
      } else {
        h' := h;
        n, z', t' := InsertEndLeft(node, parent, gparent, z, g, h);
      }
    }

    /** rbtree.c:134-145: the uncle is black, so at most two rotations end the repair. */
    method InsertRotateLeft(node: nat, parent: nat, gparent: nat, ghost z: Path, ghost g: Tree)
      returns (n: nat)
      requires HoldsAt(mem, root, z, g)
      requires g.Node? && g.id == gparent && g.right.Node? && g.right.id == parent
      requires IsRed(g.right.right) != IsRed(g.right.left)
      requires node == if IsRed(g.right.left) then g.right.left.id else g.right.right.id
      modifies this`mem, this`root
      ensures HoldsAt(mem, root, z, InsertFixRight(g))
      ensures InsertFixRight(g).Node? && RootPtr(InsertFixRight(g).right) == At(n)
    {
      var p := parent;
      n := node;
      ghost var t, zl := g.right, RightOf(gparent, g.color, g.left, z);
      Refocus(mem, root, z, g, zl, t);
      if mem[p].left == At(n) {
        RotateRight(p, zl, t);
        t := RotatedRight(t);
        p, n := n, p;
      }
      Paint(p, Black, zl, t);
      t := t.(color := Black);
      ghost var u := Node(g.left, gparent, g.color, t);
      Refocus(mem, root, zl, t, z, u);
      Paint(gparent, Red, z, u);
      RotateLeft(gparent, z, u.(color := Red));
    }

    /** The same with the focus moved to the lower red node, whose parent is now black. */
    method InsertEndRight(node: nat, parent: nat, gparent: nat, ghost z: Path, ghost g: Tree, ghost h: nat)
      returns (n: nat, ghost z': Path, ghost t': Tree)
      requires HoldsAt(mem, root, z, g) && BalancedPath(z, h + 1)
      requires g.Node? && g.id == gparent && Balanced(g.left, h) && !IsRed(g.left)
      requires IsRed(g.right) && g.right.id == parent && Broken(g.right.right, g.right.left, h)
      requires node == if IsRed(g.right.left) then g.right.left.id else g.right.right.id
      modifies this`mem, this`root
      ensures HoldsAt(mem, root, z', t')
      ensures IsRed(t') && t'.id == n && Balanced(t', h) && BalancedPath(z', h)
      ensures InOrder(Fill(z', t')) == InOrder(Fill(z, g)) && Depth(z') == Depth(z) + 1
    {
      n := InsertRotateLeft(node, parent, gparent, z, g);
      InsertFixRightBalanced(g, h);
      ghost var f := InsertFixRight(g);
      SameInOrder(z, g, f);
      z', t' := RightOf(f.id, f.color, f.left, z), f.right;
      Refocus(mem, root, z, f, z', t');
    }

    /** rbtree.c:122-145: the parent is a right child of g. */
    method InsertStepRight(node: nat, parent: nat, gparent: nat, ghost z: Path, ghost g: Tree, ghost h: nat)
      returns (n: nat, ghost z': Path, ghost t': Tree, ghost h': nat)
      requires HoldsAt(mem, root, z, g) && BalancedPath(z, h + 1)
      requires g.Node? && g.id == gparent && Balanced(g.left, h)
      requires IsRed(g.right) && g.right.id == parent && Broken(g.right.right, g.right.left, h)
      requires node == if IsRed(g.right.left) then g.right.left.id else g.right.right.id
      modifies this`mem, this`root
      ensures HoldsAt(mem, root, z', t')
      ensures IsRed(t') && t'.id == n && Balanced(t', h') && BalancedPath(z', h')
      ensures InOrder(Fill(z', t')) == InOrder(Fill(z, g)) && Depth(z') <= Depth(z) + 1
    {
      Refocus(mem, root, z, g, LeftOf(gparent, g.color, g.right, z), g.left);
      FocusCells(mem, root, LeftOf(gparent, g.color, g.right, z), g.left);
      var uncle := mem[gparent].left;
      if uncle.At? && mem[uncle.id].color.Red? {
        PushBlackDown(uncle.id, parent, gparent, z, g);
        n, z', t', h' := gparent, z, PushedDown(g), h + 1;
        PushedDownBalanced(g, h);
        SameInOrder(z, g, t');
      } else {
        h' := h;
        n, z', t' := InsertEndRight(node, parent, gparent, z, g, h);
      }
    }

    /** One turn of the loop of rbtree.c:91-147, entered with a red parent. */
    method InsertStep(node: nat, ghost z: Path, ghost t: Tree, ghost h: nat)
      returns (n: nat, ghost z': Path, ghost t': Tree, ghost h': nat)
      requires HoldsAt(mem, root, z, t)
      requires IsRed(t) && t.id == node && Balanced(t, h) && BalancedPath(z, h)
      requires !z.Top? && z.color.Red?
      modifies this`mem, this`root
      ensures HoldsAt(mem, root, z', t') && FocusIn(mem, z', t')
      ensures IsRed(t') && t'.id == n && Balanced(t', h') && BalancedPath(z', h')
      ensures InOrder(Fill(z', t')) == InOrder(Fill(z, t)) && Depth(z') < Depth(z)
    {
      ghost var up, g := z.up.up, Above(z.up, Above(z, t));
      Climb(mem, root, z, t);
      Climb(mem, root, z.up, Above(z, t));
      var parent := mem[node].parent.id;
      var gparent := mem[parent].parent.id;
      if mem[gparent].left == At(parent) {
        n, z', t', h' := InsertStepLeft(node, parent, gparent, up, g, h);
      } else {
        n, z', t', h' := InsertStepRight(node, parent, gparent, up, g, h);
      }
      FocusCells(mem, root, z', t');
    }

    /** Restores every rule after a red node was linked in: the only possible defect is a red
        focus below a red parent, or a red root. */
    method InsertColor(node: nat, ghost z0: Path, ghost t0: Tree, ghost h0: nat) returns (ghost r: Tree)
      requires HoldsAt(mem, root, z0, t0)
      requires IsRed(t0) && t0.id == node && Balanced(t0, h0) && BalancedPath(z0, h0)
      modifies this`mem, this`root
      ensures HoldsAt(mem, root, Top, r) && IsRedBlack(r) && InOrder(r) == InOrder(Fill(z0, t0))
    {
      var n := node;
      ghost var z, t, h, s := z0, t0, h0, InOrder(Fill(z0, t0));
      FocusCells(mem, root, z, t);
      while mem[n].parent.At? && mem[mem[n].parent.id].color.Red?
        invariant HoldsAt(mem, root, z, t) && FocusIn(mem, z, t) && IsRed(t) && t.id == n
        invariant Balanced(t, h) && BalancedPath(z, h)
        invariant InOrder(Fill(z, t)) == s
        decreases Depth(z)
      {
        n, z, t, h := InsertStep(n, z, t, h);
      }
      HoldsFill(mem, root, z, t);
      FillNode(z, t);
      if z.Top? { BalancedHeight(t.(color := Black), h + 1); } else { FillBalanced(z, t, h); }
      r := Fill(z, t);
      Paint(root.id, Black, Top, r);
      r := r.(color := Black);
    }

    // ----- erase repair -----

    /** Whether the two children of the sibling o of the focus are red. */
    method Nephews(other: nat, ghost zo: Path, ghost o: Tree, ghost z: Path, ghost q: Tree)
      returns (left: bool, right: bool)
      requires HoldsAt(mem, root, z, q) && Fill(zo, o) == Fill(z, q)
      requires o.Node? && o.id == other
      ensures left == IsRed(o.left) && right == IsRed(o.right)
    {
      Refocus(mem, root, z, q, zo, o);
      ghost var zl, zr := LeftOf(other, o.color, o.right, zo), RightOf(other, o.color, o.left, zo);
      Refocus(mem, root, zo, o, zl, o.left);
      Refocus(mem, root, zo, o, zr, o.right);
      FocusCells(mem, root, zo, o);
      FocusCells(mem, root, zl, o.left);
      FocusCells(mem, root, zr, o.right);
      left := mem[other].left.At? && mem[mem[other].left.id].color.Red?;
      right := mem[other].right.At? && mem[mem[other].right.id].color.Red?;
    }

    /** rbtree.c:178-188: the sibling is black with a red child, so the repair ends here. */
    method EraseRotateLeft(sibling: nat, parent: nat, ghost z: Path, ghost q: Tree)
      requires HoldsAt(mem, root, z, q)
      requires q.Node? && q.id == parent && q.right.Node? && q.right.id == sibling
      requires IsRed(q.right.left) || IsRed(q.right.right)
      modifies this`mem, this`root
      ensures HoldsAt(mem, root, z, EraseFixLeft(q))
    {
      var other := sibling;
      ghost var zo, o := RightOf(parent, q.color, q.left, z), q.right;
      ghost var zf := RightOf(other, o.color, o.left, zo);
      Refocus(mem, root, z, q, zo, o);
      FocusCells(mem, root, zo, o);
      Refocus(mem, root, zo, o, zf, o.right);
      FocusCells(mem, root, zf, o.right);
      if mem[other].right.Null? || mem[mem[other].right.id].color.Black? {
        ghost var zn, o1 := LeftOf(other, o.color, o.right, zo), Node(o.left.(color := Black), other, o.color, o.right);
        Refocus(mem, root, zo, o, zn, o.left);
        Paint(mem[other].left.id, Black, zn, o.left);
        Refocus(mem, root, zn, o.left.(color := Black), zo, o1);
        Paint(other, Red, zo, o1);
        o := o1.(color := Red);
        RotateRight(other, zo, o);
        o := RotatedRight(o);
        FocusCells(mem, root, zo, o);
        other := mem[parent].right.id;
      }
      Paint(other, mem[parent].color, zo, o);
      o := o.(color := q.color);
      ghost var q1 := Node(q.left, parent, q.color, o);
      Refocus(mem, root, zo, o, z, q1);
      Paint(parent, Black, z, q1);
      ghost var far, zp := o.right.(color := Black), RightOf(parent, Black, q.left, z);
      zf := RightOf(other, o.color, o.left, zp);
      Refocus(mem, root, z, q1.(color := Black), zp, o);
      FocusCells(mem, root, zp, o);
      Refocus(mem, root, zp, o, zf, o.right);
      Paint(mem[other].right.id, Black, zf, o.right);
      ghost var q2 := Node(q.left, parent, Black, o.(right := far));
      Refocus(mem, root, zf, far, zp, o.(right := far));
      Refocus(mem, root, zp, o.(right := far), z, q2);
      RotateLeft(parent, z, q2);
    }

    /** rbtree.c:162-168: a red sibling is rotated above the parent, which pushes the focus deeper
        below a red parent. */
    method EraseRedSiblingLeft(other: nat, parent: nat, ghost z: Path, ghost q: Tree, ghost h: nat)
      returns (ghost z': Path, ghost q': Tree)
      requires HoldsAt(mem, root, z, q) && LackingLeft(z, q, h)
      requires q.id == parent && IsRed(q.right) && q.right.id == other
      modifies this`mem, this`root
      ensures HoldsAt(mem, root, z', q') && LackingLeft(z', q', h)
      ensures q'.id == parent && q'.color.Red? && q'.left == q.left
      ensures InOrder(Fill(z', q')) == InOrder(Fill(z, q))
    {
      ghost var zo, o := RightOf(parent, q.color, q.left, z), q.right.(color := Black);
      Refocus(mem, root, z, q, zo, q.right);
      Paint(other, Black, zo, q.right);
      Refocus(mem, root, zo, o, z, q.(right := o));
      Paint(parent, Red, z, q.(right := o));
      ghost var q1 := Node(q.left, parent, Red, o);
      RotateLeft(parent, z, q1);
      z', q' := LeftOf(other, Black, o.right, z), Node(q.left, parent, Red, o.left);
      Refocus(mem, root, z, RotatedLeft(q1), z', q');
      RotationsInOrder(q1);
      Recolored(q.right, Black);
      SameInOrder(z, q, RotatedLeft(q1));
      assert Balanced(q.right, h + 1);
    }

    /** rbtree.c:169-191: the sibling is black. */
    method EraseBlackSiblingLeft(other: nat, parent: nat, ghost z: Path, ghost q: Tree, ghost h: nat)
      returns (done: bool, ghost t': Tree, ghost h': nat)
      requires HoldsAt(mem, root, z, q) && LackingLeft(z, q, h) && q.id == parent
      requires q.right.Node? && !IsRed(q.right) && q.right.id == other
      modifies this`mem, this`root
      ensures HoldsAt(mem, root, z, t') && InOrder(Fill(z, t')) == InOrder(Fill(z, q))
      ensures done ==> IsRedBlack(Fill(z, t'))
      ensures !done ==> t'.Node? && t'.id == parent && t'.color == q.color && Lacking(t', h') && BalancedPath(z, h' + 1)
    {
      ghost var zo := RightOf(parent, q.color, q.left, z);
      var left, right := Nephews(other, zo, q.right, z, q);
      if !left && !right {
        Refocus(mem, root, z, q, zo, q.right);
        Paint(other, Red, zo, q.right);
        t', done := q.(right := q.right.(color := Red)), false;
        Refocus(mem, root, zo, t'.right, z, t');
        h' := EraseRecolorLeft(z, q, h);
      } else {
        EraseRotateLeft(other, parent, z, q);
        t', h', done := EraseFixLeft(q), h, true;
        EraseFixLeftBalanced(z, q, h);
      }
    }

    /** rbtree.c:161-191: one turn of the repair loop when the left subtree of q lacks a black node. */
    method EraseStepLeft(parent: nat, ghost z: Path, ghost q: Tree, ghost h: nat)
      returns (done: bool, ghost z': Path, ghost t': Tree, ghost h': nat)
      requires HoldsAt(mem, root, z, q) && LackingLeft(z, q, h) && q.id == parent
      modifies this`mem, this`root
      ensures HoldsAt(mem, root, z', t') && InOrder(Fill(z', t')) == InOrder(Fill(z, q))
      ensures done ==> IsRedBlack(Fill(z', t'))
      ensures !done ==> t'.Node? && t'.id == parent && Lacking(t', h') && BalancedPath(z', h' + 1)
      ensures !done ==> z' == z || IsRed(t')
    {
      ghost var p, zo := q, RightOf(parent, q.color, q.left, z);
      z' := z;
      Refocus(mem, root, z, q, zo, q.right);
      FocusCells(mem, root, zo, q.right);
      var other := mem[parent].right.id;
      if mem[other].color.Red? {
        z', p := EraseRedSiblingLeft(other, parent, z, q, h);
        FocusCells(mem, root, z', p);
        other := mem[parent].right.id;
      }
      done, t', h' := EraseBlackSiblingLeft(other, parent, z', p, h);
    }

    /** rbtree.c:212-222: the sibling is black with a red child, so the repair ends here. */
    method EraseRotateRight(sibling: nat, parent: nat, ghost z: Path, ghost q: Tree)
      requires HoldsAt(mem, root, z, q)
      requires q.Node? && q.id == parent && q.left.Node? && q.left.id == sibling
      requires IsRed(q.left.right) || IsRed(q.left.left)
      modifies this`mem, this`root
      ensures HoldsAt(mem, root, z, EraseFixRight(q))
    {
      var other := sibling;
      ghost var zo, o := LeftOf(parent, q.color, q.right, z), q.left;
      ghost var zf := LeftOf(other, o.color, o.right, zo);
      Refocus(mem, root, z, q, zo, o);
      FocusCells(mem, root, zo, o);
      Refocus(mem, root, zo, o, zf, o.left);
      FocusCells(mem, root, zf, o.left);
      if mem[other].left.Null? || mem[mem[other].left.id].color.Black? {
        ghost var zn, o1 := RightOf(other, o.color, o.left, zo), Node(o.left, other, o.color, o.right.(color := Black));
        Refocus(mem, root, zo, o, zn, o.right);
        Paint(mem[other].right.id, Black, zn, o.right);
        Refocus(mem, root, zn, o.right.(color := Black), zo, o1);
        Paint(other, Red, zo, o1);
        o := o1.(color := Red);
        RotateLeft(other, zo, o);
        o := RotatedLeft(o);
        FocusCells(mem, root, zo, o);
        other := mem[parent].left.id;
      }
      Paint(other, mem[parent].color, zo, o);
      o := o.(color := q.color);
      ghost var q1 := Node(o, parent, q.color, q.right);
      Refocus(mem, root, zo, o, z, q1);
      Paint(parent, Black, z, q1);
      ghost var far, zp := o.left.(color := Black), LeftOf(parent, Black, q.right, z);
      zf := LeftOf(other, o.color, o.right, zp);
      Refocus(mem, root, z, q1.(color := Black), zp, o);
      FocusCells(mem, root, zp, o);
      Refocus(mem, root, zp, o, zf, o.left);
      Paint(mem[other].left.id, Black, zf, o.left);
      ghost var q2 := Node(o.(left := far), parent, Black, q.right);
      Refocus(mem, root, zf, far, zp, o.(left := far));
      Refocus(mem, root, zp, o.(left := far), z, q2);
      RotateRight(parent, z, q2);
    }

    /** rbtree.c:196-202: a red sibling is rotated above the parent, which pushes the focus deeper
        below a red parent. */
    method EraseRedSiblingRight(other: nat, parent: nat, ghost z: Path, ghost q: Tree, ghost h: nat)
      returns (ghost z': Path, ghost q': Tree)
      requires HoldsAt(mem, root, z, q) && LackingRight(z, q, h)
      requires q.id == parent && IsRed(q.left) && q.left.id == other
      modifies this`mem, this`root
      ensures HoldsAt(mem, root, z', q') && LackingRight(z', q', h)
      ensures q'.id == parent && q'.color.Red? && q'.right == q.right
      ensures InOrder(Fill(z', q')) == InOrder(Fill(z, q))
    {
      ghost var zo, o := LeftOf(parent, q.color, q.right, z), q.left.(color := Black);
      Refocus(mem, root, z, q, zo, q.left);
      Paint(other, Black, zo, q.left);
      Refocus(mem, root, zo, o, z, q.(left := o));
      Paint(parent, Red, z, q.(left := o));
      ghost var q1 := Node(o, parent, Red, q.right);
      RotateRight(parent, z, q1);
      z', q' := RightOf(other, Black, o.left, z), Node(o.right, parent, Red, q.right);
      Refocus(mem, root, z, RotatedRight(q1), z', q');
      RotationsInOrder(q1);
      Recolored(q.left, Black);
      SameInOrder(z, q, RotatedRight(q1));
      assert Balanced(q.left, h + 1);
    }

    /** rbtree.c:203-225: the sibling is black. */
    method EraseBlackSiblingRight(other: nat, parent: nat, ghost z: Path, ghost q: Tree, ghost h: nat)
      returns (done: bool, ghost t': Tree, ghost h': nat)
      requires HoldsAt(mem, root, z, q) && LackingRight(z, q, h) && q.id == parent
      requires q.left.Node? && !IsRed(q.left) && q.left.id == other
      modifies this`mem, this`root
      ensures HoldsAt(mem, root, z, t') && InOrder(Fill(z, t')) == InOrder(Fill(z, q))
      ensures done ==> IsRedBlack(Fill(z, t'))
      ensures !done ==> t'.Node? && t'.id == parent && t'.color == q.color && Lacking(t', h') && BalancedPath(z, h' + 1)
    {
      ghost var zo := LeftOf(parent, q.color, q.right, z);
      var right, left := Nephews(other, zo, q.left, z, q);
      if !right && !left {
        Refocus(mem, root, z, q, zo, q.left);
        Paint(other, Red, zo, q.left);
        t', done := q.(left := q.left.(color := Red)), false;
        Refocus(mem, root, zo, t'.left, z, t');
        h' := EraseRecolorRight(z, q, h);
      } else {
        EraseRotateRight(other, parent, z, q);
        t', h', done := EraseFixRight(q), h, true;
        EraseFixRightBalanced(z, q, h);
      }
    }

    /** rbtree.c:195-225: one turn of the repair loop when the right subtree of q lacks a black node. */
    method EraseStepRight(parent: nat, ghost z: Path, ghost q: Tree, ghost h: nat)
      returns (done: bool, ghost z': Path, ghost t': Tree, ghost h': nat)
      requires HoldsAt(mem, root, z, q) && LackingRight(z, q, h) && q.id == parent
      modifies this`mem, this`root
      ensures HoldsAt(mem, root, z', t') && InOrder(Fill(z', t')) == InOrder(Fill(z, q))
      ensures done ==> IsRedBlack(Fill(z', t'))
      ensures !done ==> t'.Node? && t'.id == parent && Lacking(t', h') && BalancedPath(z', h' + 1)
      ensures !done ==> z' == z || IsRed(t')
    {
      ghost var p, zo := q, LeftOf(parent, q.color, q.right, z);
      z' := z;
      Refocus(mem, root, z, q, zo, q.left);
      FocusCells(mem, root, zo, q.left);
      var other := mem[parent].left.id;
      if mem[other].color.Red? {
        z', p := EraseRedSiblingRight(other, parent, z, q, h);
        FocusCells(mem, root, z', p);
        other := mem[parent].left.id;
      }
      done, t', h' := EraseBlackSiblingRight(other, parent, z', p, h);
    }

    /** One turn of the loop of rbtree.c:157-227.  A red sibling first pushes the focus deeper; the
        focus then turns red, so the loop still ends. */
    method EraseStep(node: Ptr, parent: nat, ghost z: Path, ghost t: Tree, ghost h: nat)
      returns (done: bool, n: Ptr, p: Ptr, ghost z': Path, ghost t': Tree, ghost h': nat)
      requires HoldsAt(mem, root, z, t) && RootPtr(t) == node && ParentPtr(z) == At(parent)
      requires !IsRed(t) && Balanced(t, h) && BalancedPath(z, h + 1)
      modifies this`mem, this`root
      ensures HoldsAt(mem, root, z', t') && n == RootPtr(t') && InOrder(Fill(z', t')) == InOrder(Fill(z, t))
      ensures done ==> z'.Top? && IsRedBlack(t')
      ensures !done ==> p == ParentPtr(z') && Lacking(t', h') && BalancedPath(z', h' + 1)
      ensures !done ==> IsRed(t') || Depth(z') < Depth(z)
    {
      Climb(mem, root, z, t);
      assert Balanced(z.sibling, h + 1);
      if mem[parent].left == node {
        done, z', t', h' := EraseStepLeft(parent, z.up, Above(z, t), h);
      } else {
        done, z', t', h' := EraseStepRight(parent, z.up, Above(z, t), h);
      }
      if done {
        HoldsFill(mem, root, z', t');
        z', t' := Top, Fill(z', t');
        n, p := root, Null;
      } else {
        FocusCells(mem, root, z', t');
        n, p := At(parent), mem[parent].parent;
      }
    }

    /** rbtree.c:228-229. */
    method EraseFinish(node: Ptr, ghost z: Path, ghost t: Tree, ghost h: nat) returns (ghost r: Tree)
      requires HoldsAt(mem, root, z, t) && RootPtr(t) == node
      requires Lacking(t, h) && BalancedPath(z, h + 1) && (IsRed(t) || z.Top?)
      modifies this`mem
      ensures HoldsAt(mem, root, Top, r) && IsRedBlack(r) && InOrder(r) == InOrder(Fill(z, t))
    {
      ghost var t' := t;
      if node.At? {
        Paint(node.id, Black, z, t);
        Recolored(t, Black);
        t' := t.(color := Black);
      }
      SameInOrder(z, t, t');
      FillSupplied(z, t', h);
      HoldsFill(mem, root, z, t');
      r := Fill(z, t');
    }

    /** Supplies the black node that t0 lacks at the end of z0. */
    method EraseColor(node: Ptr, parent: Ptr, ghost z0: Path, ghost t0: Tree, ghost h0: nat) returns (ghost r: Tree)
      requires HoldsAt(mem, root, z0, t0) && RootPtr(t0) == node && ParentPtr(z0) == parent
      requires Lacking(t0, h0) && BalancedPath(z0, h0 + 1)
      modifies this`mem, this`root
      ensures HoldsAt(mem, root, Top, r) && IsRedBlack(r) && InOrder(r) == InOrder(Fill(z0, t0))
    {
      var n, p, done := node, parent, false;
      ghost var z, t, h, s := z0, t0, h0, InOrder(Fill(z0, t0));
      EraseGuard(mem, root, z, t);
      while (n.Null? || mem[n.id].color.Black?) && n != root
        invariant HoldsAt(mem, root, z, t) && n == RootPtr(t) && InOrder(Fill(z, t)) == s
        invariant n.At? ==> n.id in mem && mem[n.id].color == t.color
        invariant n == root <==> z.Top?
        invariant p == ParentPtr(z) && Lacking(t, h) && BalancedPath(z, h + 1)
        decreases if IsRed(t) then 0 else Depth(z) + 1
      {
        done, n, p, z, t, h := EraseStep(n, p.id, z, t, h);
        if done { break; }
        EraseGuard(mem, root, z, t);
      }
      if done { h := BlackHeight(t); }
      r := EraseFinish(n, z, t, h);
    }

    // ----- erase -----

    /** The loops of rbtree.c:246-247, 377-378, 405-406. */
    method Leftmost(node: nat, ghost z: Path, ghost t: Tree) returns (n: nat, ghost zs: Path, ghost s: Tree)
      requires HoldsAt(mem, root, z, t) && t.Node? && t.id == node
      ensures LeftSpine(zs) && Fill(zs, s) == t && s.Node? && s.id == n && s.left.Leaf?
      ensures HoldsAt(mem, root, Join(zs, z), s)
    {
      n, zs, s := node, Top, t;
      FocusCells(mem, root, z, s);
      while mem[n].left.At?
        invariant LeftSpine(zs) && Fill(zs, s) == t && s.Node? && s.id == n
        invariant HoldsAt(mem, root, Join(zs, z), s) && FocusIn(mem, Join(zs, z), s)
        decreases s
      {
        n := mem[n].left.id;
        ghost var up := LeftOf(s.id, s.color, s.right, zs);
        Refocus(mem, root, Join(zs, z), s, Join(up, z), s.left);
        zs, s := up, s.left;
        FocusCells(mem, root, Join(zs, z), s);
      }
    }

    /** rbtree.c:249-255, 284-292: the link that leads to `node` leads to `child` instead. */
    method ReplaceChild(parent: Ptr, node: nat, child: Ptr, ghost z: Path)
      requires parent == ParentPtr(z)
      requires !z.Top? ==> z.id in mem && mem[z.id] == FrameCell(z, At(node)) && RootPtr(z.sibling) != At(node)
      modifies this`mem, this`root
      ensures mem == Relink(old(mem), z, child) && root == if z.Top? then child else old(root)
    {
      if parent.At? {
        if mem[parent.id].left == At(node) {
          mem := SetLeft(mem, parent.id, child);
        } else {
          mem := SetRight(mem, parent.id, child);
        }
      } else {
        root := child;
      }
    }

    /** rbtree.c:279-292: a node with at most one child is replaced by it. */
    method Splice(node: nat, child: Ptr, ghost z: Path, ghost t: Tree, ghost c: Tree)
      requires HoldsAt(mem, root, z, t) && t.Node? && t.id == node
      requires (c == t.left || c == t.right) && RootPtr(c) == child
      modifies this`mem, this`root
      ensures HoldsAt(mem, root, z, c)
    {
      SpliceHolds(mem, root, z, t, c);
      FocusCells(mem, root, z, t);
      if !z.Top? { Climb(mem, root, z, t); }
      assert child.At? ==> child.id in mem && child != ParentPtr(z) by { assert Holds(mem, c, At(node)); }
      var parent := mem[node].parent;
      if child.At? {
        mem := SetParent(mem, child.id, parent);
      }
      ReplaceChild(parent, node, child, z);
    }

    /** rbtree.c:257-270: the child of `node`, the in-order successor of `old_`, moves up. */
    method Detach(old_: nat, node: nat, ghost t: Tree, ghost zs: Path, ghost s: Tree)
      returns (child: Ptr, parent: Ptr, color: Color)
      requires t.Node? && t.right.Node? && t.id == old_ && s.Node? && s.id == node && node != old_
      requires old_ in mem && mem[old_].right == At(t.right.id) && t.right.id in mem
      requires node in mem && mem[node].right == RootPtr(s.right) && mem[node].color == s.color
      requires mem[node].parent == if zs.Top? then At(old_) else At(zs.id)
      requires s.right.Node? ==> s.right.id in mem && s.right.id != node && s.right.id != old_
      requires !zs.Top? ==> zs.id in mem && zs.id != old_
      modifies this`mem
      ensures mem == Detached(old(mem), t, zs, s)
      ensures child == RootPtr(s.right) && parent == (if zs.Top? then At(node) else At(zs.id)) && color == s.color
    {
      var m := mem;
      child := m[node].right;
      parent := m[node].parent;
      color := m[node].color;
      if parent == At(old_) {
        parent := At(node);
      } else {
        if child.At? {
          m := SetParent(m, child.id, parent);
        }
        m := SetLeft(m, parent.id, child);
        m := SetRight(m, node, m[old_].right);
        m := SetParent(m, m[old_].right.id, At(node));
      }
      mem := m;
    }

    /** rbtree.c:249-274: `node`, the in-order successor of `old_`, takes its place. */
    method TransplantLinks(old_: nat, node: nat, ghost z: Path, ghost t: Tree, ghost zs: Path, ghost s: Tree)
      returns (child: Ptr, parent: Ptr, color: Color)
      requires TransplantReady(mem, z, t, zs, s) && t.id == old_ && s.id == node
      modifies this`mem, this`root
      ensures mem == TransplantMemory(old(mem), z, t, zs, s)
      ensures root == if z.Top? then At(node) else old(root)
      ensures child == RootPtr(s.right) && parent == (if zs.Top? then At(node) else At(zs.id)) && color == s.color
    {
      ReplaceChild(mem[old_].parent, old_, At(node), z);
      child, parent, color := Detach(old_, node, t, zs, s);
      assert mem[old_] == old(mem)[old_];
      var m := mem;
      m := SetParentColor(m, node, m[old_].parent, m[old_].color);
      m := SetLeft(m, node, m[old_].left);
      m := SetParent(m, m[old_].left.id, At(node));
      mem := m;
    }

    /** rbtree.c:243-274: the in-order successor of a node with two children takes its place. */
    method Transplant(old_: nat, ghost z: Path, ghost t: Tree)
      returns (child: Ptr, parent: Ptr, color: Color, ghost zs: Path, ghost s: Tree)
      requires HoldsAt(mem, root, z, t) && t.Node? && t.id == old_ && t.left.Node? && t.right.Node?
      modifies this`mem, this`root
      ensures LeftSpine(zs) && Fill(zs, s) == t.right && s.Node? && s.left.Leaf?
      ensures HoldsAt(mem, root, BelowRight(zs, s.id, t.color, t.left, z), s.right)
      ensures child == RootPtr(s.right)
      ensures parent == ParentPtr(BelowRight(zs, s.id, t.color, t.left, z)) && color == s.color
    {
      var node;
      ghost var zr := RightOf(old_, t.color, t.left, z);
      Refocus(mem, root, z, t, zr, t.right);
      FocusCells(mem, root, z, t);
      node, zs, s := Leftmost(mem[old_].right.id, zr, t.right);
      TransplantHolds(mem, root, z, t, zs, s);
      child, parent, color := TransplantLinks(old_, node, z, t, zs, s);
    }

    /** rbtree.c:237-292: takes the node out of the tree, which may leave one black node missing. */
    method Unlink(node: nat, ghost z: Path, ghost t: Tree, ghost h: nat)
      returns (child: Ptr, parent: Ptr, color: Color, ghost zc: Path, ghost c: Tree, ghost k: nat)
      requires HoldsAt(mem, root, z, t) && t.Node? && t.id == node && Distinct(Fill(z, t))
      requires BalancedPath(z, h) && Balanced(t, h) && (IsRed(t) ==> !z.Top? && z.color.Black?)
      modifies this`mem, this`root
      ensures HoldsAt(mem, root, zc, c) && child == RootPtr(c) && parent == ParentPtr(zc)
      ensures InOrder(Fill(zc, c)) == Remove(InOrder(Fill(z, t)), node)
      ensures BalancedPath(zc, k)
      ensures if color.Black? then k > 0 && Balanced(c, k - 1) else Balanced(c, k) && !IsRed(c)
    {
      FocusCells(mem, root, z, t);
      if mem[node].left.Null? || mem[node].right.Null? {
        child := if mem[node].left.Null? then mem[node].right else mem[node].left;
        parent, color := mem[node].parent, mem[node].color;
        zc, c, k := z, if t.left.Leaf? then t.right else t.left, h;
        SpliceInOrder(z, t, c);
        Splice(node, child, z, t, c);
      } else {
        ghost var zs, s;
        child, parent, color, zs, s := Transplant(node, z, t);
        zc, c := BelowRight(zs, s.id, t.color, t.left, z), s.right;
        TransplantInOrder(z, t, zs, s);
        k := TransplantBalanced(z, t, zs, s, h);
      }
    }

    /** Unlinks a node: the tree stays red-black and its in-order sequence loses exactly that node. */
    method Erase(node: nat)
      requires Valid() && node in Ids(tree)
      modifies this
      ensures Valid() && InOrder(tree) == Remove(old(InOrder(tree)), node)
    {
      ghost var z, t := Locate(Top, tree, node);
      HoldsFill(mem, root, z, t);
      FillDistinct(z, t);
      ghost var h := FocusBalanced(z, t);
      ghost var zc, c;
      var child, parent, color;
      child, parent, color, zc, c, h := Unlink(node, z, t, h);
      if color.Black? {
        tree := EraseColor(child, parent, zc, c, h - 1);
      } else {
        FillBalanced(zc, c, h);
        HoldsFill(mem, root, zc, c);
        tree := Fill(zc, c);
      }
    }

    // ----- insert -----

    constructor ()
      ensures Valid() && tree == Leaf && mem == map[]
    {
      root, mem, tree := Null, map[], Leaf;
    }

    /** rb_link_node: hangs a red node without children on an empty link, either the root pointer
        or a child link of `parent`. */
    method LinkNode(node: nat, parent: Ptr, left: bool, ghost z: Path)
      requires HoldsAt(mem, root, z, Leaf) && node !in PathIds(z)
      requires parent == ParentPtr(z) && (parent.At? ==> left == z.LeftOf?)
      modifies this`mem, this`root
      ensures HoldsAt(mem, root, z, Node(Leaf, node, Red, Leaf))
    {
      LinkHolds(mem, root, z, node);
      FocusCells(mem, root, z, Leaf);
      ghost var m := mem;
      mem := mem[node := Cell(Null, Null, parent, Red)];
      if parent.Null? {
        root := At(node);
      } else if left {
        mem := SetLeft(mem, parent.id, At(node));
      } else {
        mem := SetRight(mem, parent.id, At(node));
      }
      assert mem == Relink(m, z, At(node))[node := Cell(Null, Null, ParentPtr(z), Red)];
    }

    /** Linking at any empty place and repairing: the new node appears exactly there. */
    method Insert(node: nat, parent: Ptr, left: bool, ghost z: Path)
      requires Valid() && tree == Fill(z, Leaf) && node !in Ids(tree)
      requires parent == ParentPtr(z) && (parent.At? ==> left == z.LeftOf?)
      modifies this
      ensures Valid() && InOrder(tree) == Before(z) + [node] + After(z)
    {
      HoldsFill(mem, root, z, Leaf);
      FillDistinct(z, Leaf);
      ghost var h := FocusBalanced(z, Leaf);
      ghost var t := Node(Leaf, node, Red, Leaf);
      LinkNode(node, parent, left, z);
      tree := InsertColor(node, z, t, h);
      FillInOrder(z, t);
      assert InOrder(t) == [node];
    }

    // ----- in-order walks -----

    method First() returns (r: Ptr)
      requires Valid()
      ensures r == HeadOf(InOrder(tree))
    {
      if root.Null? { return Null; }
      var n;
      ghost var zs, s;
      n, zs, s := Leftmost(root.id, Top, tree);
      SpineRight(zs, s);
      r := At(n);
    }

    method Last() returns (r: Ptr)
      requires Valid()
      ensures r == LastOf(InOrder(tree))
    {
      if root.Null? { return Null; }
      var n;
      ghost var zs, s;
      n, zs, s := Rightmost(root.id, Top, tree);
      SpineLeft(zs, s);
      r := At(n);
    }

    /** The loops of rbtree.c:389-390, 433-434. */
    method Rightmost(node: nat, ghost z: Path, ghost t: Tree) returns (n: nat, ghost zs: Path, ghost s: Tree)
      requires HoldsAt(mem, root, z, t) && t.Node? && t.id == node
      ensures RightSpine(zs) && Fill(zs, s) == t && s.Node? && s.id == n && s.right.Leaf?
    {
      n, zs, s := node, Top, t;
      FocusCells(mem, root, z, s);
      while mem[n].right.At?
        invariant RightSpine(zs) && Fill(zs, s) == t && s.Node? && s.id == n
        invariant HoldsAt(mem, root, Join(zs, z), s) && FocusIn(mem, Join(zs, z), s)
        decreases s
      {
        n := mem[n].right.id;
        ghost var up := RightOf(s.id, s.color, s.left, zs);
        Refocus(mem, root, Join(zs, z), s, Join(up, z), s.right);
        zs, s := up, s.right;
        FocusCells(mem, root, Join(zs, z), s);
      }
    }

    /** The node after `node` in order, or null after the last one. */
    method Next(node: nat) returns (r: Ptr)
      requires Valid() && node in Ids(tree)
      ensures r == SuccIn(InOrder(tree), node)
    {
      ghost var z, t := Locate(Top, tree, node);
      HoldsFill(mem, root, z, t);
      FillDistinct(z, t);
      FocusCells(mem, root, z, t);
      OccursOnce(z, t);
      SuccMiddle(Before(z) + InOrder(t.left), node, InOrder(t.right) + After(z));
      if mem[node].parent == At(node) { return Null; }
      if mem[node].right.At? {
        ghost var zr := RightOf(node, t.color, t.left, z);
        Refocus(mem, root, z, t, zr, t.right);
        var n;
        ghost var zs, s;
        n, zs, s := Leftmost(mem[node].right.id, zr, t.right);
        SpineRight(zs, s);
        return At(n);
      }
      r := NextAbove(node, z, t);
    }

    /** rbtree.c:416-419: climbs while the focus is a right child. */
    method NextAbove(node: nat, ghost z0: Path, ghost t0: Tree) returns (r: Ptr)
      requires HoldsAt(mem, root, z0, t0) && t0.Node? && t0.id == node
      ensures r == HeadOf(After(z0))
    {
      var n := node;
      ghost var z, t := z0, t0;
      FocusCells(mem, root, z, t);
      while mem[n].parent.At? && mem[mem[n].parent.id].right == At(n)
        invariant HoldsAt(mem, root, z, t) && FocusIn(mem, z, t) && t.Node? && t.id == n
        invariant HeadOf(After(z)) == HeadOf(After(z0))
        decreases Depth(z)
      {
        Climb(mem, root, z, t);
        n := mem[n].parent.id;
        z, t := z.up, Above(z, t);
        FocusCells(mem, root, z, t);
      }
      r := mem[n].parent;
    }

    /** The node before `node` in order, or null before the first one. */
    method Prev(node: nat) returns (r: Ptr)
      requires Valid() && node in Ids(tree)
      ensures r == PredIn(InOrder(tree), node)
    {
      ghost var z, t := Locate(Top, tree, node);
      HoldsFill(mem, root, z, t);
      FillDistinct(z, t);
      FocusCells(mem, root, z, t);
      OccursOnce(z, t);
      PredMiddle(Before(z) + InOrder(t.left), node, InOrder(t.right) + After(z));
      if mem[node].parent == At(node) { return Null; }
      if mem[node].left.At? {
        ghost var zl := LeftOf(node, t.color, t.right, z);
        Refocus(mem, root, z, t, zl, t.left);
        var n;
        ghost var zs, s;
        n, zs, s := Rightmost(mem[node].left.id, zl, t.left);
        SpineLeft(zs, s);
        return At(n);
      }
      r := PrevAbove(node, z, t);
    }

    /** rbtree.c:440-443: climbs while the focus is a left child. */
    method PrevAbove(node: nat, ghost z0: Path, ghost t0: Tree) returns (r: Ptr)
      requires HoldsAt(mem, root, z0, t0) && t0.Node? && t0.id == node
      ensures r == LastOf(Before(z0))
    {
      var n := node;
      ghost var z, t := z0, t0;
      FocusCells(mem, root, z, t);
      while mem[n].parent.At? && mem[mem[n].parent.id].left == At(n)
        invariant HoldsAt(mem, root, z, t) && FocusIn(mem, z, t) && t.Node? && t.id == n
        invariant LastOf(Before(z)) == LastOf(Before(z0))
        decreases Depth(z)
      {
        Climb(mem, root, z, t);
        n := mem[n].parent.id;
        z, t := z.up, Above(z, t);
        FocusCells(mem, root, z, t);
      }
      r := mem[n].parent;
    }

    /** Walking from the first node by Next visits every node exactly once, in order, and ends. */
    method Walk() returns (visited: seq<nat>)
      requires Valid()
      ensures visited == InOrder(tree) && NoDup(visited)
    {
      ghost var s := InOrder(tree);
      InOrderIds(tree);
      visited := [];
      var p := First();
      while p.At?
        invariant visited <= s && p == HeadOf(s[|visited|..])
        decreases |s| - |visited|
      {
        ghost var rest := s[|visited|..];
        assert s == visited + [p.id] + rest[1..];
        OnceInMiddle(visited, p.id, rest[1..]);
        SuccMiddle(visited, p.id, rest[1..]);
        visited := visited + [p.id];
        p := Next(p.id);
      }
    }
  }
}
