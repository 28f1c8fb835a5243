/** RBExactQuery and RBEnumerate of kred-black-tree.c, and what the invariants mean in terms of
    plain traversals and paths. */
module RedBlackQuery {
  import opened Arith
  import opened RedBlackTree
  import opened RedBlackWalk

  /** The textbook in-order traversal, following the left and right pointers. */
  ghost function InOrder(t: Tree, x: Node): seq<Node>
    reads t, t.nodes, t.root, t.nil
    requires t.Shape() && (x == t.nil || x in t.nodes)
    decreases if x == t.nil then 0 else x.hi - x.lo
  {
    if x == t.nil then []
    else
      assert t.NodeOk(x);
      assert x.left != t.nil ==> t.NodeOk(x.left);
      assert x.right != t.nil ==> t.NodeOk(x.right);
      InOrder(t, x.left) + [x] + InOrder(t, x.right)
  }

  lemma {:induction false} SubtreeIsSpan(t: Tree, x: Node)
    requires t.Shape() && x in t.nodes
    ensures t.NodeOk(x) && InOrder(t, x) == t.order[x.lo..x.hi]
    decreases x.hi - x.lo
  {
    assert t.NodeOk(x);
    if x.left != t.nil { assert t.NodeOk(x.left); SubtreeIsSpan(t, x.left); }
    if x.right != t.nil { assert t.NodeOk(x.right); SubtreeIsSpan(t, x.right); }
    assert t.order[x.lo..x.hi] == t.order[x.lo..x.pos] + [x] + t.order[x.pos + 1..x.hi];
  }

  /** The ghost sequence `order` is what a traversal of the pointers visits, and it visits every node. */
  lemma TraversalIsOrder(t: Tree)
    requires t.Shape()
    ensures InOrder(t, t.root.left) == t.order
    ensures (set n | n in InOrder(t, t.root.left)) == t.nodes
  {
    if t.root.left != t.nil { SubtreeIsSpan(t, t.root.left); }
    assert t.order[0..|t.order|] == t.order;
    forall n | n in t.nodes ensures n in t.order { assert t.NodeOk(n); }
  }

  /** The number of black nodes met when `path` (true for left) is followed down from `x` to nil; -1 if it does not
      end at nil. */
  ghost function Blacks(t: Tree, x: Node, path: seq<bool>): int
    reads t, t.nodes, t.root, t.nil
    requires t.Shape() && (x == t.nil || x in t.nodes)
    decreases path
  {
    if x == t.nil then (if path == [] then 0 else -1)
    else if path == [] then -1
    else
      assert t.NodeOk(x);
      var b := Blacks(t, if path[0] then x.left else x.right, path[1..]);
      if b < 0 then -1 else b + if x.red then 0 else 1
  }

  lemma {:induction false} PathsAgree(t: Tree, x: Node, path: seq<bool>)
    requires t.Balanced() && (x == t.nil || x in t.nodes)
    ensures Blacks(t, x, path) == -1 || Blacks(t, x, path) == x.bh
    decreases path
  {
    if x != t.nil && path != [] {
      assert t.NodeOk(x) && t.HeightOk(x);
      PathsAgree(t, if path[0] then x.left else x.right, path[1..]);
    }
  }

  /** Equal black heights: any two root-to-nil paths meet the same number of black nodes. */
  lemma EqualBlackHeights(t: Tree, p: seq<bool>, q: seq<bool>)
    requires t.Balanced()
    requires Blacks(t, t.root.left, p) >= 0 && Blacks(t, t.root.left, q) >= 0
    ensures Blacks(t, t.root.left, p) == Blacks(t, t.root.left, q)
  {
    PathsAgree(t, t.root.left, p);
    PathsAgree(t, t.root.left, q);
  }

  lemma {:induction false} SizeBound(t: Tree, x: Node)
    requires t.Balanced() && (x == t.nil || x in t.nodes)
    ensures x.bh >= 0
    ensures Pow2(x.bh) <= 1 + if x == t.nil then 0 else x.hi - x.lo
    decreases if x == t.nil then 0 else x.hi - x.lo
  {
    if x != t.nil {
      assert t.NodeOk(x) && t.HeightOk(x);
      if x.left != t.nil { assert t.NodeOk(x.left); }
      if x.right != t.nil { assert t.NodeOk(x.right); }
      SizeBound(t, x.left);
      SizeBound(t, x.right);
    }
  }

  lemma QueryCost(t: Tree, c: nat)
    requires t.Balanced() && c <= 2 * t.root.left.bh
    ensures Pow2(c) <= (|t.order| + 1) * (|t.order| + 1)
  {
    var b := t.root.left.bh;
    SizeBound(t, t.root.left);
    Pow2Monotone(c, 2 * b);
    Pow2Double(b);
    SquareMonotone(Pow2(b), |t.order| + 1);
  }

  ghost predicate Narrowed(t: Tree, y: Node, q: int)
    reads t, t.nodes, t.root, t.nil, y
    requires t.Shape()
  {
    forall i :: 0 <= i < |t.order| && t.order[i].key == q ==> y.lo <= i < y.hi
  }

  lemma Narrow(t: Tree, y: Node, q: int)
    requires t.Balanced() && t.Sorted() && y in t.nodes && Narrowed(t, y, q) && y.key != q
    ensures t.NodeOk(y) && t.HeightOk(y) && t.RedOk(y, t.nil)
    ensures var z := if y.key > q then y.left else y.right;
            if z == t.nil then forall i :: 0 <= i < |t.order| ==> t.order[i].key != q
            else t.NodeOk(z) && t.HeightOk(z) && Narrowed(t, z, q)
  {
    assert t.NodeOk(y) && t.HeightOk(y) && t.RedOk(y, t.nil);
    assert y == t.order[y.pos];
    var z := if y.key > q then y.left else y.right;
    if z != t.nil { assert t.NodeOk(z) && t.HeightOk(z); }
  }

  /** Returns a node with key `q`, the highest one, or null. `c` counts the calls of Compare. */
  method RBExactQuery(t: Tree, q: int) returns (x: Node?, ghost c: nat)
    requires t.Balanced() && t.Sorted()
    ensures x == null <==> forall i :: 0 <= i < |t.order| ==> t.order[i].key != q
    ensures x != null ==> x in t.nodes && x.key == q && Narrowed(t, x, q)
    ensures Pow2(c) <= (|t.order| + 1) * (|t.order| + 1)
  {
    var nil := t.nil;
    var y := t.root.left;
    if y == nil { QueryCost(t, 0); return null, 0; }
    assert t.NodeOk(y) && t.HeightOk(y);
    c := 1;
    while y.key != q
      invariant y in t.nodes && t.NodeOk(y) && t.HeightOk(y) && Narrowed(t, y, q)
      invariant 1 <= c && c + 2 * y.bh <= 2 * t.root.left.bh + (if y.red then 0 else 1)
      decreases y.hi - y.lo
    {
      Narrow(t, y, q);
      if y.key > q {
        y := y.left;
      } else {
        y := y.right;
      }
      if y == nil {
        QueryCost(t, c);
        return null, c;
      }
      c := c + 1;
    }
    QueryCost(t, c);
    assert y == t.order[y.pos];
    return y, c;
  }

  /** The stack, top first, is the stretch of the in-order sequence with keys in [low, high]. */
  ghost predicate Stretch(order: seq<Node>, low: int, high: int, stack: seq<Node>, a: nat, b: nat)
    reads order
  {
    a <= b <= |order| && stack == order[a..b]
    && forall i :: 0 <= i < |order| ==> (a <= i < b <==> low <= order[i].key <= high)
  }

  method RBEnumerate(t: Tree, low: int, high: int) returns (stack: seq<Node>, ghost a: nat, ghost b: nat)
    requires t.Balanced() && t.Sorted()
    ensures Stretch(t.order, low, high, stack, a, b)
  {
    var nil := t.nil;
    var x := t.root.left;
    var lastBest := nil;
    ghost var lo, hi := 0, |t.order|;
    while nil != x
      invariant 0 <= lo <= hi <= |t.order|
      invariant if x == nil then lo == hi else x in t.nodes && x.lo == lo && x.hi == hi
      invariant forall i :: 0 <= i < lo ==> t.order[i].key <= high
      invariant forall i :: hi <= i < |t.order| ==> t.order[i].key > high
      invariant lastBest == if lo == 0 then nil else t.order[lo - 1]
      decreases hi - lo
    {
      assert t.NodeOk(x);
      assert x == t.order[x.pos];
      if x.key > high {
        hi := x.pos;
        x := x.left;
      } else {
        lastBest := x;
        lo := x.pos + 1;
        x := x.right;
      }
    }
    stack := [];
    a, b := lo, lo;
    while lastBest != nil && !(low > lastBest.key)
      invariant a <= b == lo && stack == t.order[a..b]
      invariant lastBest == if a == 0 then nil else t.order[a - 1]
      invariant forall i :: a <= i < b ==> low <= t.order[i].key
      decreases a
    {
      stack := [lastBest] + stack;
      assert t.order[a - 1..b] == [t.order[a - 1]] + t.order[a..b];
      a := a - 1;
      lastBest := TreePredecessor(t, lastBest);
    }
  }
}
