/** TreeInsertHelp of kred-black-tree.c: a plain binary-tree insertion. */
module RedBlackAttach {
  import opened Sequences
  import opened RedBlackTree

  /** Where the new leaf `z` goes: below `y`, on the left if `onLeft`, becoming order[k]. */
  datatype Slot = Slot(t: Tree, z: Node, y: Node, onLeft: bool, k: nat)
  {
    /** The last position whose subtree bounds do not move. */
    ghost function Pivot(): int { if onLeft then k else k - 1 }

    ghost predicate At()
      reads t, t.nodes, t.root, t.nil
    {
      && t.Shape() && z !in t.nodes && z != t.nil && z != t.root && k <= |t.order|
      && if y == t.root then onLeft && t.root.left == t.nil && k == 0
         else y in t.nodes && t.NodeOk(y) && y.pos == Pivot()
              && (if onLeft then y.left == t.nil else y.right == t.nil)
    }
  }

  twostate predicate Attached(s: Slot)
    reads s.t, s.t.nodes, s.t.root, s.t.nil, s.z
  {
    var Slot(t, z, y, onLeft, k) := s;
    && k <= |old(t.order)|
    && t.nodes == old(t.nodes) + {z} && t.order == Inserted(old(t.order), k, z)
    && z.left == t.nil && z.right == t.nil && z.parent == y && z.lo == z.pos == k && z.hi == k + 1
    && !t.root.red && !t.nil.red && t.nil.bh == 0 && t.root.right == t.nil
    && t.root.left == (if y == t.root then z else old(t.root.left))
    && forall n :: n in old(t.nodes) ==>
         && n.left == (if n == y && onLeft then z else old(n.left))
         && n.right == (if n == y && !onLeft then z else old(n.right))
         && n.parent == old(n.parent)
         && n.lo == Shift(old(n.lo), s.Pivot()) && n.hi == Shift(old(n.hi), s.Pivot())
         && n.pos == Shift(old(n.pos), k - 1)
  }

  ghost function Shift(i: int, pivot: int): int {
    if i > pivot then i + 1 else i
  }

  twostate lemma AttachedDown(s: Slot)
    requires old(s.At()) && Attached(s)
    ensures forall n :: n in s.t.nodes ==> s.t.SpanOk(n) && s.t.LeftOk(n) && s.t.RightOk(n)
  {
    forall n | n in s.t.nodes ensures s.t.SpanOk(n) && s.t.LeftOk(n) && s.t.RightOk(n) {
      if n != s.z { assert old(s.t.NodeOk(n)); }
    }
  }

  twostate lemma AttachedUp(s: Slot)
    requires old(s.At()) && Attached(s)
    ensures s.t.RootOk() && forall n :: n in s.t.nodes ==> s.t.UpOk(n)
  {
    forall n | n in s.t.nodes ensures s.t.UpOk(n) {
      if n != s.z { assert old(s.t.NodeOk(n)); }
    }
  }

  /** `k` separates the keys up to `key` from the larger ones. */
  ghost predicate UpperBound(order: seq<Node>, key: int, k: nat)
    reads order
  {
    && k <= |order|
    && (forall i :: 0 <= i < k ==> order[i].key <= key)
    && (forall i :: k <= i < |order| ==> order[i].key > key)
  }

  /** `z` gets position k, and the positions behind it move up. */
  ghost method MakeRoom(nodes: set<Node>, z: Node, pivot: int, k: int)
    requires z !in nodes
    modifies nodes`lo, nodes`pos, nodes`hi, z`lo, z`pos, z`hi
    ensures z.lo == z.pos == k && z.hi == k + 1
    ensures forall n :: n in nodes ==>
              n.lo == Shift(old(n.lo), pivot) && n.pos == Shift(old(n.pos), k - 1) && n.hi == Shift(old(n.hi), pivot)
  {
    forall n | n in nodes { n.lo := Shift(n.lo, pivot); }
    forall n | n in nodes { n.hi := Shift(n.hi, pivot); }
    forall n | n in nodes { n.pos := Shift(n.pos, k - 1); }
    z.lo, z.pos, z.hi := k, k, k + 1;
  }

  /** The pointer writes: `z` becomes a child of `y`. */
  method Hang(t: Tree, z: Node, y: Node, left: bool)
    requires z != y
    modifies z`parent, (if left then {y} else {})`left, (if left then {} else {y})`right
    ensures z.parent == y && if left then y.left == z else y.right == z
  {
    z.parent := y;
    if left {
      y.left := z;
    } else {
      y.right := z;
    }
  }

  /** The leaf is linked below `y`. */
  method Link(t: Tree, z: Node, y: Node, left: bool, ghost s: Slot)
    requires s.t == t && s.z == z && s.y == y && s.onLeft == left && s.At()
    requires z.left == z.right == t.nil
    modifies t`nodes, t`order, t.nodes`left, t.nodes`right, t.nodes`lo, t.nodes`pos, t.nodes`hi
    modifies t.root`left, z`parent, z`lo, z`pos, z`hi
    ensures Attached(s)
  {
    MakeRoom(t.nodes, z, s.Pivot(), s.k);
    Hang(t, z, y, left);
    t.nodes, t.order := t.nodes + {z}, Inserted(t.order, s.k, z);
  }

  ghost predicate Descending(t: Tree, x: Node, y: Node, key: int, lo: int, hi: int)
    reads t, t.nodes, t.root, t.nil
    requires t.Shape()
  {
    && 0 <= lo <= hi <= |t.order|
    && (forall i :: 0 <= i < lo ==> t.order[i].key <= key)
    && (forall i :: hi <= i < |t.order| ==> t.order[i].key > key)
    && (if x == t.nil then lo == hi else x in t.nodes && x.lo == lo && x.hi == hi)
    && (if y == t.root then x == t.root.left && lo == 0 && hi == |t.order|
        else y in t.nodes && t.NodeOk(y)
             && if y.key > key then x == y.left && lo == y.lo && hi == y.pos
                else x == y.right && lo == y.pos + 1 && hi == y.hi)
  }

  lemma DescendStep(t: Tree, x: Node, y: Node, key: int, lo: int, hi: int)
    requires t.Shape() && t.Sorted() && Descending(t, x, y, key, lo, hi) && x != t.nil
    ensures lo <= x.pos < hi
    ensures if x.key > key then Descending(t, x.left, x, key, lo, x.pos) else Descending(t, x.right, x, key,
            x.pos + 1, hi)
  {
    assert t.NodeOk(x);
    assert x == t.order[x.pos];
    assert forall i :: x.pos <= i < |t.order| ==> t.order[i].key >= x.key;
    assert forall i :: 0 <= i <= x.pos ==> t.order[i].key <= x.key;
  }

  /** The descent of TreeInsertHelp: right at equal keys, so a new node lands behind its equals. */
  method FindParent(t: Tree, key: int) returns (y: Node, ghost k: nat)
    requires t.Shape() && t.Sorted()
    ensures y == t.root || y in t.nodes
    ensures UpperBound(t.order, key, k) && forall z :: z !in t.nodes && z != t.nil && z != t.root ==>
              Slot(t, z, y, y == t.root || y.key > key, k).At()
  {
    var nil := t.nil;
    y := t.root;
    var x := t.root.left;
    ghost var lo, hi := 0, |t.order|;
    while x != nil
      invariant Descending(t, x, y, key, lo, hi)
      decreases hi - lo
    {
      DescendStep(t, x, y, key, lo, hi);
      y := x;
      if x.key > key {
        hi := x.pos;
        x := x.left;
      } else {
        lo := x.pos + 1;
        x := x.right;
      }
    }
    k := lo;
  }

  method TreeInsertHelp(t: Tree, z: Node) returns (ghost s: Slot)
    requires t.Shape() && t.Sorted() && z !in t.nodes && z != t.nil && z != t.root
    modifies t`nodes, t`order, t.nodes`left, t.nodes`right, t.nodes`lo, t.nodes`pos, t.nodes`hi
    modifies t.root`left, z`left, z`right, z`parent, z`lo, z`pos, z`hi
    ensures s.t == t && s.z == z && UpperBound(old(t.order), z.key, s.k)
    ensures old(allocated(s)) && Attached(s) && old(s.At())
  {
    var y; ghost var k;
    y, k := FindParent(t, z.key);
    s := Slot(t, z, y, y == t.root || y.key > z.key, k);
    z.left, z.right := t.nil, t.nil;
    Link(t, z, y, y == t.root || y.key > z.key, s);
  }
}
