/** RBDelete of kred-black-tree.c. */
module RedBlackDelete {
  import opened Sequences
  import opened RedBlackTree
  import opened RedBlackWalk
  import opened RedBlackSplice
  import opened RedBlackFixUp

  twostate predicate CutPaint(c: Cut)
    reads c.t, c.t.nodes, c.x
  {
    && c.t.nodes <= old(c.t.nodes)
    && c.x.bh == old(c.x.bh) && c.x.red == old(c.x.red) && c.x.parent == c.p
    && forall n :: n in c.t.nodes ==> n.red == old(n.red) && n.bh == old(n.bh)
  }

  /** Cutting a black node leaves a gap above its child. */
  twostate lemma SplicedGap(c: Cut)
    requires old(c.At() && c.t.Balanced() && !c.y.red) && Spliced(c) && CutPaint(c)
    ensures Gap(c.t, c.x, c.p, old(Sibling(c.y))).Open()
  {
    SplicedShape(c);
    assert old(c.t.HeightOk(c.y));
    forall n | n in c.t.nodes && n != c.p ensures c.t.HeightOk(n) {
      assert old(c.t.NodeOk(n) && c.t.HeightOk(n));
    }
    forall n | n in c.t.nodes && n != c.x ensures c.t.RedOk(n, c.x) {
      assert old(c.t.NodeOk(n) && c.t.RedOk(n, c.t.nil));
    }
    if c.p != c.t.root { assert old(c.t.HeightOk(c.p)); }
    if c.x != c.t.nil { assert old(c.t.HeightOk(c.x)); }
  }

  /** Cutting a red node leaves nothing to repair. */
  twostate lemma SplicedBalanced(c: Cut)
    requires old(c.At() && c.t.Balanced() && c.y.red) && Spliced(c) && CutPaint(c)
    ensures c.t.Balanced()
  {
    SplicedShape(c);
    assert old(c.t.HeightOk(c.y) && c.t.RedOk(c.y, c.t.nil));
    forall n | n in c.t.nodes ensures c.t.HeightOk(n) && c.t.RedOk(n, c.t.nil) {
      assert old(c.t.NodeOk(n) && c.t.HeightOk(n) && c.t.RedOk(n, c.t.nil));
    }
  }

  /** `y` takes over the position of `z`, whose neighbours are `l`, `r` and `p`. */
  datatype Swap = Swap(t: Tree, z: Node, y: Node, l: Node, r: Node, p: Node)
  {
    ghost predicate At()
      reads t, t.nodes, t.root, t.nil
    {
      && t.Balanced() && z in t.nodes && t.NodeOk(z) && z.left == l && z.right == r && z.parent == p
      && y !in t.nodes && y != t.nil && y != t.root
      && (p != t.root ==> p in t.nodes && t.NodeOk(p))
      && (l != t.nil ==> t.NodeOk(l)) && (r != t.nil ==> t.NodeOk(r))
    }
  }

  twostate predicate Swapped(s: Swap)
    reads s.t, s.t.nodes, s.t.root, s.t.nil
    requires old(0 <= s.z.pos < |s.t.order|)
  {
    var Swap(t, z, y, l, r, p) := s;
    && t.nodes == old(t.nodes) - {z} + {y} && t.order == old(t.order)[old(z.pos) := y]
    && !t.root.red && !t.nil.red && t.nil.bh == 0 && t.root.right == t.nil
    && t.root.left == (if p == t.root then y else old(t.root.left))
    && y.left == l && y.right == r && y.parent == p && y.red == old(z.red) && y.bh == old(z.bh)
    && y.lo == old(z.lo) && y.pos == old(z.pos) && y.hi == old(z.hi)
    && forall n :: n in old(t.nodes) && n != z ==>
         && n.left == (if n == p && old(p.left) == z then y else old(n.left))
         && n.right == (if n == p && old(p.left) != z then y else old(n.right))
         && n.parent == (if n == l || n == r then y else old(n.parent))
         && n.lo == old(n.lo) && n.pos == old(n.pos) && n.hi == old(n.hi)
         && n.red == old(n.red) && n.bh == old(n.bh)
  }

  twostate lemma SwappedDown(s: Swap)
    requires old(s.At()) && Swapped(s)
    ensures forall n :: n in s.t.nodes ==> s.t.SpanOk(n) && s.t.LeftOk(n) && s.t.RightOk(n)
  {
    forall n | n in s.t.nodes ensures s.t.SpanOk(n) && s.t.LeftOk(n) && s.t.RightOk(n) {
      if n != s.y { assert old(s.t.NodeOk(n)); }
    }
  }

  twostate lemma SwappedUp(s: Swap)
    requires old(s.At()) && Swapped(s)
    ensures s.t.RootOk() && forall n :: n in s.t.nodes ==> s.t.UpOk(n)
  {
    forall n | n in s.t.nodes ensures s.t.UpOk(n) {
      if n != s.y { assert old(s.t.NodeOk(n)); }
    }
  }

  twostate lemma SwappedShape(s: Swap)
    requires old(s.At()) && Swapped(s)
    ensures s.t.Shape()
  {
    SwappedDown(s);
    SwappedUp(s);
  }

  twostate lemma SwappedBalanced(s: Swap)
    requires old(s.At()) && Swapped(s)
    ensures s.t.Balanced()
  {
    SwappedShape(s);
    assert old(s.t.HeightOk(s.z) && s.t.RedOk(s.z, s.t.nil));
    forall n | n in s.t.nodes ensures s.t.HeightOk(n) && s.t.RedOk(n, s.t.nil) {
      if n != s.y { assert old(s.t.NodeOk(n) && s.t.HeightOk(n) && s.t.RedOk(n, s.t.nil)); }
    }
  }

  /** The pointer writes that put `y` where `z` was. */
  method TakePlace(t: Tree, z: Node, y: Node, ghost s: Swap)
    requires s.z == z && s.y == y && z.left == s.l && z.right == s.r && z.parent == s.p
    requires s.l != z && s.r != z && s.p != z && y != z && s.l != y && s.r != y && s.p != y && s.p != s.l && s.p != s.r
    modifies y`left, y`right, y`parent, y`red, y`lo, y`pos, y`hi, y`bh, s.l`parent, s.r`parent, s.p`left, s.p`right
    ensures y.left == s.l && y.right == s.r && y.parent == s.p && y.red == z.red && y.bh == z.bh
    ensures y.lo == z.lo && y.pos == z.pos && y.hi == z.hi
    ensures s.l.parent == y && s.r.parent == y
    ensures s.p.left == (if old(s.p.left) == z then y else old(s.p.left))
    ensures s.p.right == (if old(s.p.left) == z then old(s.p.right) else y)
  {
    y.left := z.left;
    y.right := z.right;
    y.parent := z.parent;
    y.red := z.red;
    z.right.parent := y;
    z.left.parent := y;
    if z == z.parent.left {
      z.parent.left := y;
    } else {
      z.parent.right := y;
    }
    y.lo, y.pos, y.hi, y.bh := z.lo, z.pos, z.hi, z.bh;
  }

  method Replace(t: Tree, z: Node, y: Node)
    requires t.Balanced() && z in t.nodes && y !in t.nodes && y != t.nil && y != t.root
    requires 0 <= z.pos < |t.order|
    modifies t`nodes, t`order, t.nodes`left, t.nodes`right, t.nodes`parent, t.root`left, t.root`right, t.nil`parent
    modifies y`left, y`right, y`parent, y`red, y`lo, y`pos, y`hi, y`bh
    ensures t.Balanced() && t.nodes == old(t.nodes) - {z} + {y} && t.order == old(t.order)[old(z.pos) := y]
  {
    ghost var s := Swap(t, z, y, z.left, z.right, z.parent);
    assert t.NodeOk(z);
    assert s.At();
    TakePlace(t, z, y, s);
    t.nodes, t.order := t.nodes - {z} + {y}, t.order[z.pos := y];
    SwappedBalanced(s);
  }

  /** Cuts `y` out and repairs the balance. */
  method CutOut(t: Tree, y: Node)
    requires t.Balanced() && y in t.nodes && (y.left == t.nil || y.right == t.nil) && 0 <= y.pos < |t.order|
    modifies t`nodes, t`order, t.nodes`left, t.nodes`right, t.nodes`parent, t.nodes`lo, t.nodes`pos, t.nodes`hi
    modifies t.nodes`red, t.nodes`bh, t.root`left, t.root`right, t.nil`parent, t.nil`red
    ensures t.Balanced() && t.nodes == old(t.nodes) - {y} && t.order == Removed(old(t.order), old(y.pos))
  {
    assert t.NodeOk(y);
    var x := if y.left == t.nil then y.right else y.left;
    ghost var c := Cut(t, y, x, y.parent, y.pos);
    ghost var w := Sibling(y);
    Splice(t, y, x, c);
    if !y.red {
      SplicedGap(c);
      RBDeleteFixUp(t, x, Gap(t, x, c.p, w));
    } else {
      SplicedBalanced(c);
    }
  }

  lemma CutBeforeSwap(order: seq<Node>, k: nat)
    requires k + 1 < |order|
    ensures Removed(order, k + 1)[k := order[k + 1]] == Removed(order, k)
  {
  }

  /** The node that leaves its place: `z` itself, or its successor if `z` has two children. */
  method Victim(t: Tree, z: Node) returns (y: Node)
    requires t.Shape() && z in t.nodes
    ensures t.NodeOk(z) && y in t.nodes && t.NodeOk(y) && (y.left == t.nil || y.right == t.nil)
    ensures y == z || (y.pos == z.pos + 1 < |t.order|)
  {
    assert t.NodeOk(z);
    y := z;
    if !(z.left == t.nil || z.right == t.nil) {
      assert t.NodeOk(z.right);
      y := TreeSuccessor(t, z);
      assert t.NodeOk(y);
    }
  }

  lemma RemovedSorted(order: seq<Node>, k: nat)
    requires k < |order| && forall i, j :: 0 <= i < j < |order| ==> order[i].key <= order[j].key
    ensures forall i, j :: 0 <= i < j < |order| - 1 ==> Removed(order, k)[i].key <= Removed(order, k)[j].key
  {
  }

  /** `z` has two children: `y`, already cut out, takes its place. */
  method TakeOver(t: Tree, z: Node, y: Node, ghost order: seq<Node>, ghost k: nat)
    requires t.Balanced() && z in t.nodes && y !in t.nodes && y != t.nil && y != t.root
    requires k + 1 < |order| && order[k] == z && order[k + 1] == y && t.order == Removed(order, k + 1)
    modifies t`nodes, t`order, t.nodes`left, t.nodes`right, t.nodes`parent, t.root`left, t.root`right, t.nil`parent
    modifies y`left, y`right, y`parent, y`red, y`lo, y`pos, y`hi, y`bh
    ensures t.Balanced() && t.nodes == old(t.nodes) - {z} + {y} && t.order == Removed(order, k)
  {
    assert t.order[k] == z && z.pos == k;
    CutBeforeSwap(order, k);
    Replace(t, z, y);
  }

  method RBDelete(t: Tree, z: Node)
    requires t.Balanced() && t.Sorted() && z in t.nodes
    modifies t`nodes, t`order, t.nodes`left, t.nodes`right, t.nodes`parent, t.nodes`lo, t.nodes`pos, t.nodes`hi
    modifies t.nodes`red, t.nodes`bh, t.root`left, t.root`right, t.nil`parent, t.nil`red
    ensures t.Balanced() && t.Sorted()
    ensures t.nodes == old(t.nodes) - {z}
    ensures forall n :: n in t.nodes ==> n.key == old(n.key) && n.info == old(n.info)
    ensures 0 <= old(z.pos) < |old(t.order)| && t.order == Removed(old(t.order), old(z.pos))
  {
    var y := Victim(t, z);
    ghost var order, k := t.order, z.pos;
    RemovedSorted(order, k);
    CutOut(t, y);
    if y != z {
      TakeOver(t, z, y, order, k);
    }
  }
}
