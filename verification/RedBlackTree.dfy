/** The pointer tree of kred-black-tree.c: nodes, the two sentinels, the shape
    invariant, and the two rotations. */
module RedBlackTree {

  class Node {
    var key: int
    var info: object?
    var red: bool
    var left: Node
    var right: Node
    var parent: Node
    // The subtree at this node holds order[lo..hi] of its tree; the node itself is order[pos].
    ghost var lo: int
    ghost var pos: int
    ghost var hi: int
    // Number of black nodes on every path from this node down to nil.
    ghost var bh: int

    constructor Nil()
      ensures left == right == parent == this && !red && bh == 0
    {
      key, info, red := 0, null, false;
      left, right, parent := this, this, this;
      bh := 0;
    }

    constructor (key: int, info: object?, nil: Node)
      ensures this.key == key && this.info == info && !red
      ensures left == right == parent == nil
    {
      this.key, this.info, this.red := key, info, false;
      this.left, this.right, this.parent := nil, nil, nil;
    }
  }

  class Tree {
    const nil: Node
    const root: Node
    ghost var nodes: set<Node>
    ghost var order: seq<Node>

    constructor ()
      ensures Shape() && order == [] && nodes == {} && fresh(nil) && fresh(root)
    {
      var nil := new Node.Nil();
      this.nil := nil;
      root := new Node(0, null, nil);
      nodes, order := {}, [];
    }

    ghost predicate SpanOk(n: Node)
      reads this, n
    {
      0 <= n.lo <= n.pos < n.hi <= |order| && order[n.pos] == n
    }

    ghost predicate LeftOk(n: Node)
      reads this, nodes, n
    {
      if n.left == nil then n.lo == n.pos
      else n.left in nodes && n.left.parent == n && n.left.lo == n.lo && n.left.hi == n.pos
    }

    ghost predicate RightOk(n: Node)
      reads this, nodes, n
    {
      if n.right == nil then n.pos + 1 == n.hi
      else n.right in nodes && n.right.parent == n && n.right.lo == n.pos + 1 && n.right.hi == n.hi
    }

    ghost predicate UpOk(n: Node)
      reads this, nodes, n, root
    {
      if n.parent == root then root.left == n
      else n.parent in nodes && (n.parent.left == n || n.parent.right == n)
    }

    ghost predicate NodeOk(n: Node)
      reads this, nodes, n, root
    {
      SpanOk(n) && LeftOk(n) && RightOk(n) && UpOk(n)
    }

    ghost predicate RootOk()
      reads this, nodes, root, nil
    {
      && nil != root && nil !in nodes && root !in nodes
      && root.right == nil && !root.red && !nil.red && nil.bh == 0
      && (if root.left == nil then order == []
          else root.left in nodes && root.left.parent == root && root.left.lo == 0 && root.left.hi == |order|)
      && (forall i :: 0 <= i < |order| ==> order[i] in nodes && order[i].pos == i)
    }

    /** Pointers agree with the in-order sequence `order`. */
    ghost predicate Shape()
      reads this, nodes, root, nil
    {
      RootOk() && forall n {:trigger NodeOk(n)} :: n in nodes ==> NodeOk(n)
    }

    /** No red child below a red node, except possibly `x`. */
    ghost predicate RedOk(n: Node, x: Node)
      reads n, n.left, n.right
    {
      n.red ==> (n.left.red ==> n.left == x) && (n.right.red ==> n.right == x)
    }

    ghost predicate HeightOk(n: Node)
      reads n, n.left, n.right
    {
      0 <= n.left.bh == n.right.bh && n.bh == n.left.bh + if n.red then 0 else 1
    }

    ghost predicate Colors(x: Node)
      reads this, nodes, root, nil
      requires Shape()
    {
      forall n {:trigger RedOk(n, x)} :: n in nodes ==> assert NodeOk(n); RedOk(n, x)
    }

    ghost predicate Heights()
      reads this, nodes, root, nil
      requires Shape()
    {
      forall n {:trigger HeightOk(n)} :: n in nodes ==> assert NodeOk(n); HeightOk(n)
    }

    ghost predicate Sorted()
      reads this, nodes
      requires forall n :: n in order ==> n in nodes
    {
      forall i, j :: 0 <= i < j < |order| ==> order[i].key <= order[j].key
    }

    /** Every invariant the header promises: shape, black root, no red-red edge, equal black heights. */
    ghost predicate Balanced()
      reads this, nodes, root, nil
    {
      Shape() && Colors(nil) && Heights() && !root.left.red
    }
  }

  /** The nodes a rotation at `x` touches: its parent `p`, the child `y` that moves up, and
      the inner grandchild `b` that changes sides; `a` and `c` stay below `x` and `y`. */
  datatype Spot = Spot(t: Tree, x: Node, y: Node, a: Node, b: Node, c: Node, p: Node)
  {
    ghost predicate Distinct() {
      x != y && b != x && b != y && p != x && p != y && p != b
    }

    ghost predicate At()
      reads t, t.nodes, t.root, t.nil
    {
      && t.Shape() && x in t.nodes && t.NodeOk(x) && x.parent == p
      && y in t.nodes && t.NodeOk(y)
      && (b != t.nil ==> b in t.nodes && t.NodeOk(b)) && (p != t.root ==> p in t.nodes && t.NodeOk(p))
    }
  }

  twostate predicate Others(s: Spot)
    reads s.t, s.t.nodes, s.t.root, s.t.nil
  {
    && s.t.nodes == old(s.t.nodes) && s.t.order == old(s.t.order)
    && s.t.root.red == old(s.t.root.red) && s.t.nil.red == old(s.t.nil.red) && s.t.nil.bh == old(s.t.nil.bh)
    && (s.p != s.t.root ==> s.t.root.left == old(s.t.root.left) && s.t.root.right == old(s.t.root.right))
    && forall n :: n in s.t.nodes && n != s.x && n != s.y && n != s.b && n != s.p ==>
         && n.left == old(n.left) && n.right == old(n.right) && n.parent == old(n.parent)
         && n.lo == old(n.lo) && n.pos == old(n.pos) && n.hi == old(n.hi)
  }

  /** Only colours and black heights may have changed. */
  twostate predicate Unmoved(t: Tree)
    reads t, t.nodes, t.root, t.nil
  {
    && t.nodes == old(t.nodes) && t.order == old(t.order)
    && t.root.left == old(t.root.left) && t.root.right == old(t.root.right)
    && !t.root.red && !t.nil.red && t.nil.bh == 0
    && forall n :: n in t.nodes ==>
         && n.left == old(n.left) && n.right == old(n.right) && n.parent == old(n.parent)
         && n.lo == old(n.lo) && n.pos == old(n.pos) && n.hi == old(n.hi)
  }

  twostate lemma UnmovedShape(t: Tree)
    requires old(t.Shape()) && Unmoved(t)
    ensures t.Shape()
  {
    forall n | n in t.nodes ensures t.NodeOk(n) {
      assert old(t.NodeOk(n));
    }
  }

  ghost predicate Kids(n: Node, a: Node, b: Node)
    reads n
  {
    (n.left == a && n.right == b) || (n.left == b && n.right == a)
  }

  /** What either rotation does to the child pointers, whichever its direction. */
  twostate predicate Turned(s: Spot)
    reads s.x, s.y, s.b, s.p
  {
    && s.b.left == old(s.b.left) && s.b.right == old(s.b.right)
    && old(Kids(s.x, s.a, s.y)) && old(Kids(s.y, s.b, s.c))
    && Kids(s.x, s.a, s.b) && Kids(s.y, s.x, s.c)
    && s.p.left == (if old(s.p.left) == s.x then s.y else old(s.p.left))
    && s.p.right == (if old(s.p.left) == s.x then old(s.p.right) else s.y)
    && s.x.parent == s.y && s.y.parent == s.p && s.p.parent == old(s.p.parent)
  }

  twostate predicate LeftRotated(s: Spot)
    reads s.x, s.y, s.b, s.p
  {
    var Spot(t, x, y, _, b, _, p) := s;
    && x.left == old(x.left) && x.right == b && x.parent == y
    && x.lo == old(x.lo) && x.pos == old(x.pos) && x.hi == y.pos
    && y.left == x && y.right == old(y.right) && y.parent == p
    && y.lo == old(x.lo) && y.pos == old(y.pos) && y.hi == old(y.hi)
    && b.left == old(b.left) && b.right == old(b.right) && b.parent == (if b == t.nil then old(b.parent) else x)
    && b.lo == old(b.lo) && b.pos == old(b.pos) && b.hi == old(b.hi)
    && p.left == (if old(p.left) == x then y else old(p.left))
    && p.right == (if old(p.left) == x then old(p.right) else y)
    && p.parent == old(p.parent) && p.lo == old(p.lo) && p.pos == old(p.pos) && p.hi == old(p.hi)
  }

  method LeftRotate(t: Tree, x: Node, ghost s: Spot)
    requires s.t == t && s.x == x && x.right == s.y && s.y.left == s.b && x.parent == s.p && s.Distinct()
    modifies x`right, x`parent, x`hi, s.y`parent, s.y`left, s.y`lo, s.p`left, s.p`right
    modifies if s.b == t.nil then {} else {s.b}`parent
    ensures LeftRotated(s)
  {
    var nil := t.nil;
    var y := x.right;
    x.right := y.left;
    if y.left != nil {
      y.left.parent := x;
    }
    y.parent := x.parent;
    if x == x.parent.left {
      x.parent.left := y;
    } else {
      x.parent.right := y;
    }
    y.left := x;
    x.parent := y;
    y.lo := x.lo;
    x.hi := y.pos;
  }

  twostate lemma LeftRotateDown(s: Spot)
    requires old(s.At() && s.x.right == s.y && s.y.left == s.b)
    requires s.Distinct() && LeftRotated(s) && Others(s)
    ensures forall n :: n in s.t.nodes ==> s.t.SpanOk(n) && s.t.LeftOk(n) && s.t.RightOk(n)
  {
    forall n | n in s.t.nodes ensures s.t.SpanOk(n) && s.t.LeftOk(n) && s.t.RightOk(n) {
      assert old(s.t.NodeOk(n));
    }
  }

  twostate lemma LeftRotateUp(s: Spot)
    requires old(s.At() && s.x.right == s.y && s.y.left == s.b)
    requires s.Distinct() && LeftRotated(s) && Others(s)
    ensures s.t.RootOk() && forall n :: n in s.t.nodes ==> s.t.UpOk(n)
  {
    forall n | n in s.t.nodes ensures s.t.UpOk(n) {
      assert old(s.t.NodeOk(n));
    }
  }

  twostate lemma LeftRotateShape(s: Spot)
    requires old(s.At() && s.x.right == s.y && s.y.left == s.b)
    requires s.Distinct() && LeftRotated(s) && Others(s)
    ensures s.t.Shape()
  {
    LeftRotateDown(s);
    LeftRotateUp(s);
  }

  /** LeftRotate on a well-formed tree. */
  method RotateLeft(t: Tree, x: Node) returns (ghost s: Spot)
    requires t.Shape() && x in t.nodes && x.right != t.nil
    modifies t.nodes`left, t.nodes`right, t.nodes`parent, t.nodes`lo, t.nodes`hi, t.root`left, t.root`right
    ensures s == old(Spot(t, x, x.right, x.left, x.right.left, x.right.right, x.parent))
    ensures t.Shape() && s.Distinct() && Turned(s) && Others(s)
    ensures s.x.left == s.a && s.x.right == s.b && s.y.left == s.x
  {
    s := Spot(t, x, x.right, x.left, x.right.left, x.right.right, x.parent);
    assert s.At() && s.Distinct() by { assert t.NodeOk(x) && t.NodeOk(x.right); }
    LeftRotate(t, x, s);
    LeftRotateShape(s);
  }

  twostate predicate RightRotated(s: Spot)
    reads s.x, s.y, s.b, s.p
  {
    var Spot(t, x, y, _, b, _, p) := s;
    && x.right == old(x.right) && x.left == b && x.parent == y
    && x.hi == old(x.hi) && x.pos == old(x.pos) && x.lo == y.pos + 1
    && y.right == x && y.left == old(y.left) && y.parent == p
    && y.hi == old(x.hi) && y.pos == old(y.pos) && y.lo == old(y.lo)
    && b.left == old(b.left) && b.right == old(b.right) && b.parent == (if b == t.nil then old(b.parent) else x)
    && b.lo == old(b.lo) && b.pos == old(b.pos) && b.hi == old(b.hi)
    && p.left == (if old(p.left) == x then y else old(p.left))
    && p.right == (if old(p.left) == x then old(p.right) else y)
    && p.parent == old(p.parent) && p.lo == old(p.lo) && p.pos == old(p.pos) && p.hi == old(p.hi)
  }

  method RightRotate(t: Tree, y: Node, ghost s: Spot)
    requires s.t == t && s.x == y && y.left == s.y && s.y.right == s.b && y.parent == s.p && s.Distinct()
    modifies y`left, y`parent, y`lo, s.y`parent, s.y`right, s.y`hi, s.p`left, s.p`right
    modifies if s.b == t.nil then {} else {s.b}`parent
    ensures RightRotated(s)
  {
    var nil := t.nil;
    var x := y.left;
    y.left := x.right;
    if nil != x.right {
      x.right.parent := y;
    }
    x.parent := y.parent;
    if y == y.parent.left {
      y.parent.left := x;
    } else {
      y.parent.right := x;
    }
    x.right := y;
    y.parent := x;
    x.hi := y.hi;
    y.lo := x.pos + 1;
  }

  twostate lemma RightRotateDown(s: Spot)
    requires old(s.At() && s.x.left == s.y && s.y.right == s.b)
    requires s.Distinct() && RightRotated(s) && Others(s)
    ensures forall n :: n in s.t.nodes ==> s.t.SpanOk(n) && s.t.LeftOk(n) && s.t.RightOk(n)
  {
    forall n | n in s.t.nodes ensures s.t.SpanOk(n) && s.t.LeftOk(n) && s.t.RightOk(n) {
      assert old(s.t.NodeOk(n));
    }
  }

  twostate lemma RightRotateUp(s: Spot)
    requires old(s.At() && s.x.left == s.y && s.y.right == s.b)
    requires s.Distinct() && RightRotated(s) && Others(s)
    ensures s.t.RootOk() && forall n :: n in s.t.nodes ==> s.t.UpOk(n)
  {
    forall n | n in s.t.nodes ensures s.t.UpOk(n) {
      assert old(s.t.NodeOk(n));
    }
  }

  twostate lemma RightRotateShape(s: Spot)
    requires old(s.At() && s.x.left == s.y && s.y.right == s.b)
    requires s.Distinct() && RightRotated(s) && Others(s)
    ensures s.t.Shape()
  {
    RightRotateDown(s);
    RightRotateUp(s);
  }

  /** RightRotate on a well-formed tree. */
  method RotateRight(t: Tree, y: Node) returns (ghost s: Spot)
    requires t.Shape() && y in t.nodes && y.left != t.nil
    modifies t.nodes`left, t.nodes`right, t.nodes`parent, t.nodes`lo, t.nodes`hi, t.root`left, t.root`right
    ensures s == old(Spot(t, y, y.left, y.right, y.left.right, y.left.left, y.parent))
    ensures t.Shape() && s.Distinct() && Turned(s) && Others(s)
    ensures s.x.right == s.a && s.x.left == s.b && s.y.right == s.x
  {
    s := Spot(t, y, y.left, y.right, y.left.right, y.left.left, y.parent);
    assert s.At() && s.Distinct() by { assert t.NodeOk(y) && t.NodeOk(y.left); }
    RightRotate(t, y, s);
    RightRotateShape(s);
  }

  twostate predicate SamePaint(t: Tree)
    reads t, t.nodes
  {
    t.nodes == old(t.nodes) && forall n :: n in t.nodes ==> n.red == old(n.red) && n.bh == old(n.bh)
  }

  /** A red node `y` took over the blackness of its parent `x`; no other colour changed. */
  twostate predicate Traded(s: Spot)
    reads s.t, s.t.nodes, s.x, s.y
  {
    && s.t.nodes == old(s.t.nodes)
    && !s.y.red && s.y.bh == old(s.y.bh) + 1 && s.x.red && s.x.bh == old(s.x.bh) - 1
    && forall n :: n in s.t.nodes && n != s.x && n != s.y ==> n.red == old(n.red) && n.bh == old(n.bh)
  }

  /** The two colour writes before a rotation: `y` black, its parent `x` red. */
  method Trade(t: Tree, x: Node, y: Node, ghost s: Spot)
    requires t.Shape() && s.t == t && s.x == x && s.y == y && x in t.nodes && y in t.nodes && x != y
    modifies t.nodes`red, t.nodes`bh
    ensures t.Shape() && Traded(s)
  {
    y.red := false;
    x.red := true;
    x.bh, y.bh := x.bh - 1, y.bh + 1;
    UnmovedShape(t);
  }
}
