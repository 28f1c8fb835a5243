/** The first half of RBDelete: a node with at most one child is spliced out. */
module RedBlackSplice {
  import opened Sequences
  import opened RedBlackTree

  ghost function Unshift(i: int, pivot: int): int {
    if i > pivot then i - 1 else i
  }

  /** `y` is cut out at position `k`: its only child `x` (possibly nil) moves up below `p`. */
  datatype Cut = Cut(t: Tree, y: Node, x: Node, p: Node, k: nat)
  {
    ghost predicate At()
      reads t, t.nodes, t.root, t.nil
    {
      && t.Shape() && y in t.nodes && t.NodeOk(y) && y.pos == k && y.parent == p
      && (if y.left == t.nil then x == y.right else x == y.left && y.right == t.nil)
      && (p != t.root ==> p in t.nodes && t.NodeOk(p)) && (x != t.nil ==> x in t.nodes && t.NodeOk(x))
    }
  }

  twostate predicate Spliced(c: Cut)
    reads c.t, c.t.nodes, c.t.root, c.t.nil
  {
    var Cut(t, y, x, p, k) := c;
    && k < |old(t.order)|
    && t.nodes == old(t.nodes) - {y} && t.order == Removed(old(t.order), k)
    && !t.root.red && !t.nil.red && t.nil.bh == 0 && t.root.right == t.nil
    && t.root.left == (if p == t.root then x else old(t.root.left))
    && (x == t.nil ==> t.nil.parent == p)
    && forall n :: n in t.nodes ==>
         && n.left == (if n == p && old(p.left) == y then x else old(n.left))
         && n.right == (if n == p && old(p.left) != y then x else old(n.right))
         && n.parent == (if n == x then p else old(n.parent))
         && n.lo == Unshift(old(n.lo), k) && n.hi == Unshift(old(n.hi), k) && n.pos == Unshift(old(n.pos), k)
  }

  /** The ghost positions behind the removed one move down. */
  ghost method Renumber(nodes: set<Node>, k: int)
    modifies nodes`lo, nodes`pos, nodes`hi
    ensures forall n :: n in nodes ==>
              n.lo == Unshift(old(n.lo), k) && n.pos == Unshift(old(n.pos), k) && n.hi == Unshift(old(n.hi), k)
  {
    forall n | n in nodes { n.lo := Unshift(n.lo, k); }
    forall n | n in nodes { n.hi := Unshift(n.hi, k); }
    forall n | n in nodes { n.pos := Unshift(n.pos, k); }
  }

  /** The pointer writes: `x` takes `y`'s place below `p`. */
  method Unlink(t: Tree, y: Node, x: Node, ghost p: Node)
    requires y.parent == p && p != x && y != x && (p == t.root ==> p.left == y)
    modifies x`parent, p`left, p`right
    ensures x.parent == p
    ensures p.left == (if old(p.left) == y then x else old(p.left))
    ensures p.right == (if old(p.left) == y then old(p.right) else x)
  {
    x.parent := y.parent;
    if t.root == x.parent {
      t.root.left := x;
    } else {
      if y == y.parent.left {
        y.parent.left := x;
      } else {
        y.parent.right := x;
      }
    }
  }

  method Splice(t: Tree, y: Node, x: Node, ghost c: Cut)
    requires c.t == t && c.y == y && c.x == x && c.At()
    modifies t`nodes, t`order, t.nodes`left, t.nodes`right, t.nodes`parent, t.nodes`lo, t.nodes`pos, t.nodes`hi
    modifies t.root`left, t.root`right, t.nil`parent
    ensures Spliced(c) && x.parent == c.p
  {
    ghost var k := c.k;
    Unlink(t, y, x, c.p);
    Renumber(t.nodes, k);
    t.nodes, t.order := t.nodes - {y}, Removed(t.order, k);
  }

  twostate lemma SplicedDown(c: Cut)
    requires old(c.At()) && Spliced(c)
    ensures forall n :: n in c.t.nodes ==> c.t.SpanOk(n) && c.t.LeftOk(n) && c.t.RightOk(n)
  {
    forall n | n in c.t.nodes ensures c.t.SpanOk(n) && c.t.LeftOk(n) && c.t.RightOk(n) {
      assert old(c.t.NodeOk(n));
    }
  }

  twostate lemma SplicedUp(c: Cut)
    requires old(c.At()) && Spliced(c)
    ensures c.t.RootOk() && forall n :: n in c.t.nodes ==> c.t.UpOk(n)
  {
    forall n | n in c.t.nodes ensures c.t.UpOk(n) {
      assert old(c.t.NodeOk(n));
    }
  }

  twostate lemma SplicedShape(c: Cut)
    requires old(c.At()) && Spliced(c)
    ensures c.t.Shape()
  {
    SplicedDown(c);
    SplicedUp(c);
  }
}
