/** TreeSuccessor and TreePredecessor of kred-black-tree.c. */
module RedBlackWalk {
  import opened RedBlackTree

  method TreeSuccessor(t: Tree, x0: Node) returns (y: Node)
    requires t.Shape() && x0 in t.nodes
    ensures t.NodeOk(x0)
    ensures y == if x0.pos + 1 < |t.order| then t.order[x0.pos + 1] else t.nil
    ensures x0.right != t.nil ==> y in t.nodes && y.left == t.nil
  {
    var nil, root, x := t.nil, t.root, x0;
    assert t.NodeOk(x);
    y := x.right;
    if nil != y {
      assert t.NodeOk(y);
      while y.left != nil
        invariant y in t.nodes && t.NodeOk(y) && y.lo == x0.pos + 1
        decreases y.hi - y.lo
      {
        y := y.left;
        assert t.NodeOk(y);
      }
      return y;
    } else {
      y := x.parent;
      while x == y.right
        invariant x in t.nodes && t.NodeOk(x) && y == x.parent && x.hi == x0.pos + 1
        decreases |t.order| - (x.hi - x.lo)
      {
        assert t.NodeOk(y);
        x := y;
        y := y.parent;
      }
      if y == root { return nil; }
      assert t.NodeOk(y);
      return y;
    }
  }

  method TreePredecessor(t: Tree, x0: Node) returns (y: Node)
    requires t.Shape() && x0 in t.nodes
    ensures t.NodeOk(x0)
    ensures y == if 0 < x0.pos then t.order[x0.pos - 1] else t.nil
  {
    var nil, root, x := t.nil, t.root, x0;
    assert t.NodeOk(x);
    y := x.left;
    if nil != y {
      assert t.NodeOk(y);
      while y.right != nil
        invariant y in t.nodes && t.NodeOk(y) && y.hi == x0.pos
        decreases y.hi - y.lo
      {
        y := y.right;
        assert t.NodeOk(y);
      }
      return y;
    } else {
      y := x.parent;
      while x == y.left
        invariant x in t.nodes && t.NodeOk(x) && y == x.parent && x.lo == x0.pos
        decreases |t.order| - (x.hi - x.lo)
      {
        if y == root { return nil; }
        assert t.NodeOk(y);
        x := y;
        y := y.parent;
      }
      assert t.NodeOk(y);
      return y;
    }
  }
}
