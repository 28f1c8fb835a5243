/** TreeInsertHelp and RBTreeInsert of kred-black-tree.c. */
module RedBlackInsert {
  import opened Sequences
  import opened RedBlackTree
  import opened RedBlackAttach

  /** The loop invariant of RBTreeInsert: the only possible red-red edge is the one above `x`. */
  ghost predicate Rising(t: Tree, x: Node)
    reads t, t.nodes, t.root, t.nil
  {
    && t.Shape() && x in t.nodes && x.red && t.Colors(x) && t.Heights()
    && (t.root.left.red ==> t.root.left == x)
  }

  lemma RisingParent(t: Tree, x: Node)
    requires Rising(t, x) && x.parent.red
    ensures x.parent in t.nodes && x.parent.parent in t.nodes && !x.parent.parent.red
    ensures x.parent != x
    ensures t.NodeOk(x) && t.NodeOk(x.parent) && t.NodeOk(x.parent.parent)
    ensures t.RedOk(x.parent, x) && t.RedOk(x.parent.parent, x) && t.RedOk(x, x)
    ensures t.HeightOk(x.parent) && t.HeightOk(x.parent.parent) && t.HeightOk(x)
  {
    assert t.NodeOk(x) && t.NodeOk(x.parent);
    assert x.parent != x;
    assert t.NodeOk(x.parent.parent);
    assert t.RedOk(x.parent.parent, x) && t.RedOk(x.parent, x) && t.RedOk(x, x);
  }

  /** `x`, its red parent `p`, the grandparent `g` and the uncle `u`. */
  datatype Family = Family(t: Tree, x: Node, p: Node, g: Node, u: Node)
  {
    ghost predicate At()
      reads t, t.nodes, t.root, t.nil
    {
      && Rising(t, x) && p in t.nodes && g in t.nodes && p.red && x.parent == p && p.parent == g && Kids(g, p, u)
      && t.NodeOk(p) && t.NodeOk(g) && p != g && p != x && g != x && u != p && u != g
    }
  }

  twostate predicate Recolored(f: Family)
    reads f.t, f.t.nodes, f.p, f.u, f.g
  {
    && f.t.nodes == old(f.t.nodes)
    && !f.p.red && f.p.bh == old(f.p.bh) + 1
    && !f.u.red && f.u.bh == old(f.u.bh) + 1
    && f.g.red && f.g.bh == old(f.g.bh)
    && forall n :: n in f.t.nodes && n != f.p && n != f.u && n != f.g ==> n.red == old(n.red) && n.bh == old(n.bh)
  }

  /** Case 1 of the fix-up: the parent and the uncle `y` are red. */
  method RecolorNodes(x: Node, y: Node, ghost f: Family)
    requires f.x == x && f.u == y && x.parent == f.p && f.p.parent == f.g && f.p != f.g && f.u != f.p && f.u != f.g
    modifies f.p`red, f.p`bh, f.u`red, f.u`bh, f.g`red
    ensures !f.p.red && f.p.bh == old(f.p.bh) + 1
    ensures !f.u.red && f.u.bh == old(f.u.bh) + 1
    ensures f.g.red
  {
    x.parent.red := false;
    y.red := false;
    x.parent.parent.red := true;
    f.p.bh := f.p.bh + 1;
    f.u.bh := f.u.bh + 1;
  }

  twostate lemma RecolorRising(f: Family)
    requires old(f.At() && f.u.red)
    requires Unmoved(f.t) && Recolored(f)
    ensures Rising(f.t, f.g)
  {
    UnmovedShape(f.t);
    assert old(f.t.HeightOk(f.p) && f.t.HeightOk(f.g) && f.t.RedOk(f.g, f.x) && f.t.RedOk(f.p, f.x));
    forall n | n in f.t.nodes ensures f.t.RedOk(n, f.g) && f.t.HeightOk(n) {
      assert old(f.t.NodeOk(n) && f.t.RedOk(n, f.x) && f.t.HeightOk(n));
    }
  }

  method Recolor(t: Tree, x: Node, y: Node, ghost f: Family)
    requires f.At() && f.t == t && f.x == x && f.u == y && y.red
    modifies t.nodes`red, t.nodes`bh
    ensures Rising(t, f.g)
  {
    RecolorNodes(x, y, f);
    RecolorRising(f);
  }

  /** After the first rotation of the zig-zag case, the old parent plays the part of `x`. */
  twostate lemma InnerRising(s: Spot)
    requires old(Rising(s.t, s.y) && s.At() && s.x.red && s.y.parent == s.x) && s.p in s.t.nodes
    requires s.t.Shape() && s.Distinct() && Turned(s) && Others(s) && SamePaint(s.t)
    ensures Rising(s.t, s.x)
  {
    assert old(s.t.NodeOk(s.p) && s.t.RedOk(s.x, s.y) && s.t.HeightOk(s.x) && s.t.RedOk(s.y, s.y) && s.t.HeightOk(s.y));
    forall n | n in s.t.nodes ensures s.t.RedOk(n, s.x) && s.t.HeightOk(n) {
      assert old(s.t.NodeOk(n) && s.t.RedOk(n, s.y) && s.t.HeightOk(n));
    }
  }

  ghost predicate OuterAt(s: Spot)
    reads s.t, s.t.nodes, s.t.root, s.t.nil, s.a
  {
    && Rising(s.t, s.c) && s.At() && s.c.red && s.y.red && s.c.parent == s.y && !s.a.red && !s.x.red && s.c != s.b
  }

  twostate lemma OuterReds(s: Spot)
    requires old(OuterAt(s)) && s.Distinct() && s.t.Shape() && Turned(s) && Others(s) && Traded(s)
    ensures s.t.Colors(s.c)
  {
    assert old(s.t.RedOk(s.x, s.c) && s.t.RedOk(s.y, s.c));
    assert !old(s.b.red);
    forall n | n in s.t.nodes ensures s.t.RedOk(n, s.c) {
      assert old(s.t.NodeOk(n) && s.t.RedOk(n, s.c));
    }
  }

  twostate lemma OuterHeights(s: Spot)
    requires old(OuterAt(s)) && s.Distinct() && s.t.Shape() && Turned(s) && Others(s) && Traded(s)
    ensures s.t.Heights()
  {
    assert old(s.t.HeightOk(s.x) && s.t.HeightOk(s.y));
    forall n | n in s.t.nodes ensures s.t.HeightOk(n) {
      assert old(s.t.NodeOk(n) && s.t.HeightOk(n));
    }
  }

  /** The last rotation, at the grandparent `s.x`: the parent `s.y` of the red node `s.c` ends up black. */
  twostate lemma OuterRising(s: Spot)
    requires old(OuterAt(s)) && s.Distinct() && s.t.Shape() && Turned(s) && Others(s) && Traded(s)
    ensures Rising(s.t, s.c) && s.c.parent == s.y && !s.y.red
  {
    OuterReds(s);
    OuterHeights(s);
    assert s.t.NodeOk(s.y) && old(s.t.NodeOk(s.x));
  }

  /** The closing lines of the left branch: the parent is a left child and `x` is its left child. */
  method OuterLeft(t: Tree, x: Node)
    requires Rising(t, x) && x.parent.red
    requires x.parent == x.parent.parent.left && x == x.parent.left && !x.parent.parent.right.red
    modifies t.nodes`left, t.nodes`right, t.nodes`parent, t.nodes`lo, t.nodes`hi, t.root`left, t.root`right
    modifies t.nodes`red, t.nodes`bh
    ensures Rising(t, x) && !x.parent.red
  {
    RisingParent(t, x);
    ghost var p, g := x.parent, x.parent.parent;
    x.parent.red := false;
    x.parent.parent.red := true;
    p.bh, g.bh := p.bh + 1, g.bh - 1;
    UnmovedShape(t);
    ghost var s := RotateRight(t, x.parent.parent);
    OuterRising(s);
  }

  method OuterRight(t: Tree, x: Node)
    requires Rising(t, x) && x.parent.red
    requires x.parent == x.parent.parent.right && x == x.parent.right && !x.parent.parent.left.red
    modifies t.nodes`left, t.nodes`right, t.nodes`parent, t.nodes`lo, t.nodes`hi, t.root`left, t.root`right
    modifies t.nodes`red, t.nodes`bh
    ensures Rising(t, x) && !x.parent.red
  {
    RisingParent(t, x);
    ghost var p, g := x.parent, x.parent.parent;
    x.parent.red := false;
    x.parent.parent.red := true;
    p.bh, g.bh := p.bh + 1, g.bh - 1;
    UnmovedShape(t);
    ghost var s := RotateLeft(t, x.parent.parent);
    OuterRising(s);
  }

  /** An inner grandchild is rotated outwards, and the search for red-red edges goes on from its old parent. */
  method InnerLeft(t: Tree, x0: Node) returns (x: Node)
    requires Rising(t, x0) && x0.parent.red
    requires x0.parent == x0.parent.parent.left && !x0.parent.parent.right.red
    modifies t.nodes`left, t.nodes`right, t.nodes`parent, t.nodes`lo, t.nodes`hi, t.root`left, t.root`right
    ensures Rising(t, x) && x.parent.red
    ensures x.parent == x.parent.parent.left && x == x.parent.left && !x.parent.parent.right.red
  {
    RisingParent(t, x0);
    x := x0;
    if x == x.parent.right {
      x := x.parent;
      ghost var s := RotateLeft(t, x);
      InnerRising(s);
    }
  }

  method InnerRight(t: Tree, x0: Node) returns (x: Node)
    requires Rising(t, x0) && x0.parent.red
    requires x0.parent == x0.parent.parent.right && !x0.parent.parent.left.red
    modifies t.nodes`left, t.nodes`right, t.nodes`parent, t.nodes`lo, t.nodes`hi, t.root`left, t.root`right
    ensures Rising(t, x) && x.parent.red
    ensures x.parent == x.parent.parent.right && x == x.parent.right && !x.parent.parent.left.red
  {
    RisingParent(t, x0);
    x := x0;
    if x == x.parent.left {
      x := x.parent;
      ghost var s := RotateRight(t, x);
      InnerRising(s);
    }
  }

  /** The loop body of RBTreeInsert. It either climbs two levels or leaves a black parent. */
  method FixUp(t: Tree, x0: Node) returns (x: Node)
    requires Rising(t, x0) && x0.parent.red
    modifies t.nodes`left, t.nodes`right, t.nodes`parent, t.nodes`lo, t.nodes`hi, t.root`left, t.root`right
    modifies t.nodes`red, t.nodes`bh
    ensures Rising(t, x)
    ensures !x.parent.red || x.hi - x.lo > old(x0.hi - x0.lo)
  {
    RisingParent(t, x0);
    x := x0;
    if x.parent == x.parent.parent.left {
      var y := x.parent.parent.right;
      if y.red {
        ghost var f := Family(t, x, x.parent, x.parent.parent, y);
        x := x.parent.parent;
        Recolor(t, x0, y, f);
      } else {
        x := InnerLeft(t, x);
        OuterLeft(t, x);
      }
    } else {
      var y := x.parent.parent.left;
      if y.red {
        ghost var f := Family(t, x, x.parent, x.parent.parent, y);
        x := x.parent.parent;
        Recolor(t, x0, y, f);
      } else {
        x := InnerRight(t, x);
        OuterRight(t, x);
      }
    }
  }

  /** The new leaf, coloured red, is the start of the climb. */
  method InsertLeaf(t: Tree, x: Node) returns (ghost k: nat)
    requires t.Balanced() && t.Sorted() && x !in t.nodes && x != t.nil && x != t.root
    modifies t`nodes, t`order, t.nodes`left, t.nodes`right, t.nodes`lo, t.nodes`pos, t.nodes`hi
    modifies t.root`left, x`left, x`right, x`parent, x`lo, x`pos, x`hi, x`red, x`bh
    ensures UpperBound(old(t.order), x.key, k) && t.order == Inserted(old(t.order), k, x)
    ensures t.nodes == old(t.nodes) + {x} && Rising(t, x)
  {
    ghost var s := TreeInsertHelp(t, x);
    k := s.k;
    x.red, x.bh := true, 0;
    AttachedRising(s);
  }

  twostate lemma AttachedRising(s: Slot)
    requires old(s.At() && s.t.Balanced()) && Attached(s) && s.z.red && s.z.bh == 0
    requires forall n :: n in old(s.t.nodes) ==> n.red == old(n.red) && n.bh == old(n.bh)
    ensures Rising(s.t, s.z)
  {
    AttachedDown(s);
    AttachedUp(s);
    AttachedReds(s);
    forall n | n in s.t.nodes ensures s.t.HeightOk(n) {
      if n != s.z {
        assert old(s.t.NodeOk(n) && s.t.HeightOk(n));
      }
    }
  }

  twostate lemma AttachedReds(s: Slot)
    requires old(s.At() && s.t.Balanced()) && Attached(s) && s.z.red
    requires forall n :: n in old(s.t.nodes) ==> n.red == old(n.red)
    ensures forall n :: n in s.t.nodes ==> s.t.RedOk(n, s.z)
  {
    forall n | n in s.t.nodes ensures s.t.RedOk(n, s.z) {
      if n != s.z {
        assert old(s.t.NodeOk(n) && s.t.RedOk(n, s.t.nil));
      }
    }
  }

  lemma InsertedSorted(order: seq<Node>, k: nat, x: Node)
    requires UpperBound(order, x.key, k)
    requires forall i, j :: 0 <= i < j < |order| ==> order[i].key <= order[j].key
    ensures forall i, j :: 0 <= i < j < |order| + 1 ==> Inserted(order, k, x)[i].key <= Inserted(order, k, x)[j].key
  {
  }

  /** A climb that has ended: `x`'s parent is black. */
  datatype Climbed = Climbed(t: Tree, x: Node)

  twostate lemma BlackenedBalanced(c: Climbed)
    requires old(Rising(c.t, c.x)) && !old(c.x.parent.red) && Unmoved(c.t)
    requires var r := c.t.root.left; !r.red && r.bh == old(r.bh) + if old(r.red) then 1 else 0
    requires forall n :: n in c.t.nodes && n != c.t.root.left ==> n.red == old(n.red) && n.bh == old(n.bh)
    ensures c.t.Balanced()
  {
    UnmovedShape(c.t);
    forall n | n in c.t.nodes ensures c.t.RedOk(n, c.t.nil) && c.t.HeightOk(n) {
      assert old(c.t.NodeOk(n) && c.t.RedOk(n, c.x) && c.t.HeightOk(n));
    }
  }

  method BlackenRoot(t: Tree, ghost x: Node)
    requires Rising(t, x) && !x.parent.red
    modifies t.nodes`red, t.nodes`bh
    ensures t.Balanced()
  {
    assert t.root.left != t.nil by { assert t.NodeOk(x); }
    ghost var r := t.root.left;
    r.bh := r.bh + if r.red then 1 else 0;
    t.root.left.red := false;
    BlackenedBalanced(Climbed(t, x));
  }

  /** The fix-up loop: climbs while the parent is red. */
  method Climb(t: Tree, x0: Node)
    requires Rising(t, x0)
    modifies t.nodes`left, t.nodes`right, t.nodes`parent, t.nodes`lo, t.nodes`hi, t.root`left, t.root`right
    modifies t.nodes`red, t.nodes`bh
    ensures t.Balanced()
  {
    var x := x0;
    assert t.NodeOk(x);
    while x.parent.red
      invariant Rising(t, x) && t.SpanOk(x)
      decreases if x.parent.red then 1 + |t.order| - (x.hi - x.lo) else 0
    {
      x := FixUp(t, x);
      assert t.NodeOk(x);
    }
    BlackenRoot(t, x);
  }

  method RBTreeInsert(t: Tree, key: int, info: object?) returns (newNode: Node, ghost k: nat)
    requires t.Balanced() && t.Sorted()
    modifies t`nodes, t`order, t.root`left, t.root`right
    modifies t.nodes`left, t.nodes`right, t.nodes`parent, t.nodes`red, t.nodes`lo, t.nodes`pos, t.nodes`hi, t.nodes`bh
    ensures t.Balanced() && t.Sorted()
    ensures fresh(newNode) && newNode.key == key && newNode.info == info
    ensures t.nodes == old(t.nodes) + {newNode}
    ensures forall n :: n in old(t.nodes) ==> n.key == old(n.key) && n.info == old(n.info)
    ensures UpperBound(old(t.order), key, k) && t.order == Inserted(old(t.order), k, newNode)
  {
    newNode := new Node(key, info, t.nil);
    k := InsertLeaf(t, newNode);
    Climb(t, newNode);
    InsertedSorted(old(t.order), k, newNode);
  }
}
