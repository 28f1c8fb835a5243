/** RBDeleteFixUp of kred-black-tree.c. */
module RedBlackFixUp {
  import opened RedBlackTree

  /** Paths through `x`, a child of `p` with sibling `w`, are one black node short. */
  datatype Gap = Gap(t: Tree, x: Node, p: Node, w: Node)
  {
    ghost predicate Open()
      reads t, t.nodes, t.root, t.nil, x
    {
      && t.Shape() && x.parent == p && (x == t.nil || x in t.nodes)
      && (t.root.left.red ==> t.root.left == x)
      && (forall n {:trigger t.RedOk(n, x)} :: n in t.nodes && n != x ==> assert t.NodeOk(n); t.RedOk(n, x))
      && (forall n {:trigger t.HeightOk(n)} :: n in t.nodes && n != p ==> assert t.NodeOk(n); t.HeightOk(n))
      && (if p == t.root then t.root.left == x
          else p in t.nodes && w in t.nodes && Kids(p, x, w)
               && 0 <= x.bh && w.bh == x.bh + 1 && p.bh == w.bh + if p.red then 0 else 1)
    }
  }

  /** What the fix-up may use when `x` is black and not the root. */
  lemma GapFacts(g: Gap)
    requires g.Open() && !g.x.red && g.p != g.t.root
    ensures g.t.NodeOk(g.p) && g.t.NodeOk(g.w) && g.w.parent == g.p && g.w != g.x && g.w != g.p && g.p != g.x
    ensures g.t.RedOk(g.p, g.x) && g.t.HeightOk(g.w) && g.t.RedOk(g.w, g.x)
    ensures g.x != g.t.nil ==> g.t.NodeOk(g.x)
    ensures g.p.red ==> !g.w.red
    ensures g.w.red ==> g.w.left in g.t.nodes && g.w.right in g.t.nodes && !g.w.left.red && !g.w.right.red
  {
    assert g.t.NodeOk(g.p) && g.t.NodeOk(g.w) && g.t.HeightOk(g.w) && g.t.RedOk(g.w, g.x) && g.t.RedOk(g.p, g.x);
    if g.x != g.t.nil { assert g.t.NodeOk(g.x); }
  }

  ghost predicate CaseOneAt(s: Spot)
    reads s.t, s.t.nodes, s.t.root, s.t.nil, s.a, s.c
  {
    && Gap(s.t, s.a, s.x, s.y).Open() && s.x != s.t.root && s.At() && s.y.red && !s.a.red && !s.x.red
    && s.b in s.t.nodes && !s.b.red && !s.c.red
  }

  twostate lemma CaseOneReds(s: Spot)
    requires old(CaseOneAt(s)) && s.Distinct() && s.t.Shape() && Turned(s) && Others(s) && Traded(s)
    requires !s.b.red && !s.c.red && !s.a.red
    ensures forall n :: n in s.t.nodes && n != s.a ==> s.t.RedOk(n, s.a)
  {
    forall n | n in s.t.nodes && n != s.a ensures s.t.RedOk(n, s.a) {
      assert old(s.t.NodeOk(n) && s.t.RedOk(n, s.a));
    }
  }

  twostate lemma CaseOneHeights(s: Spot)
    requires old(CaseOneAt(s)) && s.Distinct() && s.t.Shape() && Turned(s) && Others(s) && Traded(s)
    ensures forall n :: n in s.t.nodes && n != s.x ==> s.t.HeightOk(n)
  {
    assert old(s.t.HeightOk(s.y));
    forall n | n in s.t.nodes && n != s.x ensures s.t.HeightOk(n) {
      assert old(s.t.NodeOk(n) && s.t.HeightOk(n));
    }
  }

  /** Case 1: a red sibling is rotated above `p`; the new sibling is black. */
  twostate lemma CaseOne(s: Spot)
    requires old(CaseOneAt(s)) && s.Distinct() && s.t.Shape() && Turned(s) && Others(s) && Traded(s)
    requires s.a.parent == s.x && !s.a.red && s.a.bh == old(s.a.bh)
    ensures Gap(s.t, s.a, s.x, s.b).Open() && !s.b.red && s.x.red
  {
    CaseOneReds(s);
    CaseOneHeights(s);
    assert old(s.t.HeightOk(s.y));
  }

  ghost function Sibling(n: Node): Node
    reads n, n.parent
  {
    if n.parent.left == n then n.parent.right else n.parent.left
  }

  ghost predicate CaseTwoAt(g: Gap)
    reads g.t, g.t.nodes, g.t.root, g.t.nil, g.x, g.w, g.w.left, g.w.right
  {
    g.Open() && g.p != g.t.root && !g.x.red && !g.w.red && !g.w.left.red && !g.w.right.red
  }

  twostate lemma CaseTwoHeights(g: Gap)
    requires old(CaseTwoAt(g)) && Unmoved(g.t) && g.t.Shape() && g.w.red
    requires g.w.bh == old(g.w.bh) - 1 && g.p.bh == old(g.p.bh) - 1 && g.p.red == old(g.p.red)
    requires g.x.bh == old(g.x.bh)
    requires forall n :: n in g.t.nodes && n != g.w && n != g.p ==> n.red == old(n.red) && n.bh == old(n.bh)
    ensures forall n :: n in g.t.nodes && n != g.p.parent ==> g.t.HeightOk(n)
  {
    assert old(g.t.NodeOk(g.p) && g.t.NodeOk(g.w) && g.t.HeightOk(g.w));
    forall n | n in g.t.nodes && n != g.p.parent ensures g.t.HeightOk(n) {
      assert old(g.t.NodeOk(n) && (n != g.p ==> g.t.HeightOk(n)));
    }
  }

  /** Case 2: a black sibling with black children turns red, and the gap moves up to `p`. */
  twostate lemma CaseTwo(g: Gap)
    requires old(CaseTwoAt(g)) && Unmoved(g.t) && g.w.red
    requires g.w.bh == old(g.w.bh) - 1 && g.p.bh == old(g.p.bh) - 1 && g.p.red == old(g.p.red)
    requires g.x.bh == old(g.x.bh)
    requires forall n :: n in g.t.nodes && n != g.w && n != g.p ==> n.red == old(n.red) && n.bh == old(n.bh)
    ensures Gap(g.t, g.p, g.p.parent, Sibling(g.p)).Open()
  {
    UnmovedShape(g.t);
    CaseTwoHeights(g);
    assert old(g.t.NodeOk(g.p) && g.t.NodeOk(g.w) && g.t.HeightOk(g.w));
    CaseTwoReds(g);
    if g.p.parent != g.t.root {
      assert old(g.t.NodeOk(g.p.parent) && g.t.HeightOk(g.p.parent));
    }
  }

  twostate lemma CaseTwoReds(g: Gap)
    requires old(CaseTwoAt(g)) && Unmoved(g.t) && g.w.red && g.p.red == old(g.p.red)
    requires forall n :: n in g.t.nodes && n != g.w && n != g.p ==> n.red == old(n.red)
    ensures forall n :: n in g.t.nodes && n != g.p ==> g.t.RedOk(n, g.p)
  {
    assert old(g.t.NodeOk(g.p) && g.t.NodeOk(g.w));
    forall n | n in g.t.nodes && n != g.p ensures g.t.RedOk(n, g.p) {
      assert old(g.t.NodeOk(n) && g.t.RedOk(n, g.x));
    }
  }

  /** Case 3: the near child `s.y` of the black sibling `s.x` is red and the far one is black. */
  datatype Zig = Zig(s: Spot, x: Node)
  {
    ghost predicate At()
      reads s.t, s.t.nodes, s.t.root, s.t.nil, x, s.a, s.b, s.c
    {
      && Gap(s.t, x, s.p, s.x).Open() && s.p != s.t.root && s.At() && x != s.y
      && !x.red && !s.x.red && s.y.red && !s.a.red && !s.b.red && !s.c.red
    }
  }

  twostate lemma CaseThreeHeights(z: Zig)
    requires old(z.At()) && z.s.Distinct() && z.s.t.Shape() && Turned(z.s) && Others(z.s) && Traded(z.s)
    ensures forall n :: n in z.s.t.nodes && n != z.s.p ==> z.s.t.HeightOk(n)
  {
    var s := z.s;
    assert old(s.t.HeightOk(s.x) && s.t.HeightOk(s.y));
    forall n | n in s.t.nodes && n != s.p ensures s.t.HeightOk(n) {
      assert old(s.t.NodeOk(n) && s.t.HeightOk(n));
    }
  }

  twostate lemma CaseThree(z: Zig)
    requires old(z.At()) && z.s.Distinct() && z.s.t.Shape() && Turned(z.s) && Others(z.s) && Traded(z.s)
    requires z.x.parent == z.s.p && !z.x.red && z.x.bh == old(z.x.bh)
    requires !z.s.a.red && !z.s.b.red && !z.s.c.red
    ensures Gap(z.s.t, z.x, z.s.p, z.s.y).Open()
  {
    CaseThreeHeights(z);
    var s := z.s;
    assert old(s.t.HeightOk(s.x));
    forall n | n in s.t.nodes && n != z.x ensures s.t.RedOk(n, z.x) {
      assert old(s.t.NodeOk(n) && s.t.RedOk(n, z.x));
    }
  }

  /** Case 4: the far child `s.c` of the black sibling `s.y` is red; one rotation at `s.x` closes the gap. */
  ghost predicate CaseFourAt(s: Spot)
    reads s.t, s.t.nodes, s.t.root, s.t.nil, s.a, s.c
  {
    && Gap(s.t, s.a, s.x, s.y).Open() && s.x != s.t.root && s.At()
    && !s.a.red && !s.y.red && s.c.red && s.c in s.t.nodes && s.c != s.b && s.c != s.x && s.c != s.y && s.c != s.a
  }

  twostate predicate CaseFourPaint(s: Spot)
    reads s.t, s.t.nodes, s.x, s.y, s.c
  {
    && s.t.nodes == old(s.t.nodes)
    && s.y.red == old(s.x.red) && s.y.bh == old(s.x.bh)
    && !s.x.red && s.x.bh == old(s.a.bh) + 1
    && !s.c.red && s.c.bh == old(s.c.bh) + 1
    && forall n :: n in s.t.nodes && n != s.x && n != s.y && n != s.c ==> n.red == old(n.red) && n.bh == old(n.bh)
  }

  twostate lemma CaseFourHeights(s: Spot)
    requires old(CaseFourAt(s)) && s.Distinct() && s.t.Shape() && Turned(s) && Others(s) && CaseFourPaint(s)
    requires s.a.bh == old(s.a.bh)
    ensures s.t.Heights()
  {
    assert old(s.t.NodeOk(s.y) && s.t.HeightOk(s.y) && s.t.HeightOk(s.c));
    forall n | n in s.t.nodes ensures s.t.HeightOk(n) {
      assert old(s.t.NodeOk(n) && (n != s.x ==> s.t.HeightOk(n)));
    }
  }

  twostate lemma CaseFourReds(s: Spot)
    requires old(CaseFourAt(s)) && s.Distinct() && s.t.Shape() && Turned(s) && Others(s) && CaseFourPaint(s)
    requires !s.a.red
    ensures s.t.Colors(s.t.nil)
  {
    assert old(s.t.NodeOk(s.y) && s.t.RedOk(s.x, s.a) && s.t.RedOk(s.c, s.a));
    forall n | n in s.t.nodes ensures s.t.RedOk(n, s.t.nil) {
      assert old(s.t.NodeOk(n) && (n != s.a ==> s.t.RedOk(n, s.a)));
    }
  }

  twostate lemma CaseFour(s: Spot)
    requires old(CaseFourAt(s)) && s.Distinct() && s.t.Shape() && Turned(s) && Others(s) && CaseFourPaint(s)
    requires !s.a.red && s.a.bh == old(s.a.bh)
    ensures s.t.Balanced()
  {
    CaseFourReds(s);
    CaseFourHeights(s);
    assert old(s.t.NodeOk(s.x));
  }
  /** Case 1 with `x` a left child. */
  method CaseOneLeft(t: Tree, x: Node, ghost g: Gap) returns (w: Node)
    requires g.Open() && g.t == t && g.x == x && g.p != t.root && !x.red
    requires x == x.parent.left && x.parent.right.red
    modifies t.nodes`left, t.nodes`right, t.nodes`parent, t.nodes`lo, t.nodes`hi, t.root`left, t.root`right
    modifies t.nodes`red, t.nodes`bh
    ensures Gap(t, x, g.p, w).Open() && !w.red && g.p.red
    ensures x == x.parent.left && w == x.parent.right && !x.red
    ensures old(t.root.left) != g.p ==> t.root.left == old(t.root.left)
  {
    GapFacts(g);
    w := x.parent.right;
    ghost var s := Spot(t, g.p, w, x, w.left, w.right, g.p.parent);
    assert CaseOneAt(s);
    Trade(t, x.parent, w, s);
    s := RotateLeft(t, x.parent);
    CaseOne(s);
    w := x.parent.right;
  }

  /** Case 1 with `x` a right child. */
  method CaseOneRight(t: Tree, x: Node, ghost g: Gap) returns (w: Node)
    requires g.Open() && g.t == t && g.x == x && g.p != t.root && !x.red
    requires x == x.parent.right && x.parent.left.red
    modifies t.nodes`left, t.nodes`right, t.nodes`parent, t.nodes`lo, t.nodes`hi, t.root`left, t.root`right
    modifies t.nodes`red, t.nodes`bh
    ensures Gap(t, x, g.p, w).Open() && !w.red && g.p.red
    ensures x == x.parent.right && w == x.parent.left && !x.red
    ensures old(t.root.left) != g.p ==> t.root.left == old(t.root.left)
  {
    GapFacts(g);
    w := x.parent.left;
    ghost var s := Spot(t, g.p, w, x, w.right, w.left, g.p.parent);
    assert CaseOneAt(s);
    Trade(t, x.parent, w, s);
    s := RotateRight(t, x.parent);
    CaseOne(s);
    w := x.parent.left;
  }

  /** The colour writes of case 4. */
  method PaintCaseFour(t: Tree, p: Node, w: Node, far: Node, ghost s: Spot)
    requires t.Shape() && s.t == t && s.x == p && s.y == w && s.c == far
    requires p in t.nodes && w in t.nodes && far in t.nodes && p != w && far != p && far != w && s.a != p
             && s.a != w && s.a != far
    modifies t.nodes`red, t.nodes`bh
    ensures t.Shape() && CaseFourPaint(s) && s.a.red == old(s.a.red) && s.a.bh == old(s.a.bh)
  {
    w.red := p.red;
    p.red := false;
    far.red := false;
    w.bh, p.bh, far.bh := p.bh, s.a.bh + 1, far.bh + 1;
    UnmovedShape(t);
  }

  /** Case 3 with `x` a left child. */
  method CaseThreeLeft(t: Tree, x: Node, w0: Node, ghost p: Node) returns (w: Node)
    requires Gap(t, x, p, w0).Open() && p != t.root && !x.red && !w0.red
    requires x == x.parent.left && w0 == x.parent.right && !w0.right.red && w0.left.red
    modifies t.nodes`left, t.nodes`right, t.nodes`parent, t.nodes`lo, t.nodes`hi, t.root`left, t.root`right
    modifies t.nodes`red, t.nodes`bh
    ensures Gap(t, x, p, w).Open() && !w.red && w.right.red
    ensures x == x.parent.left && w == x.parent.right && !x.red
    ensures t.root.left == old(t.root.left)
  {
    GapFacts(Gap(t, x, p, w0));
    w := w0;
    assert t.NodeOk(w.left) && t.RedOk(w.left, x);
    ghost var s := Spot(t, w, w.left, w.right, w.left.right, w.left.left, p);
    assert Zig(s, x).At();
    Trade(t, w, w.left, s);
    s := RotateRight(t, w);
    CaseThree(Zig(s, x));
    w := x.parent.right;
  }

  /** Case 4 with `x` a left child. */
  method CaseFourLeft(t: Tree, x: Node, w: Node, ghost p: Node)
    requires Gap(t, x, p, w).Open() && p != t.root && !x.red && !w.red
    requires x == x.parent.left && w == x.parent.right && w.right.red
    modifies t.nodes`left, t.nodes`right, t.nodes`parent, t.nodes`lo, t.nodes`hi, t.root`left, t.root`right
    modifies t.nodes`red, t.nodes`bh
    ensures t.Balanced() && !p.red
    ensures old(t.root.left) != p ==> t.root.left == old(t.root.left)
  {
    GapFacts(Gap(t, x, p, w));
    assert w.right in t.nodes && t.NodeOk(w.right);
    ghost var s := Spot(t, p, w, x, w.left, w.right, p.parent);
    assert CaseFourAt(s);
    PaintCaseFour(t, x.parent, w, w.right, s);
    s := RotateLeft(t, x.parent);
    CaseFour(s);
  }

  /** Case 3 with `x` a right child. */
  method CaseThreeRight(t: Tree, x: Node, w0: Node, ghost p: Node) returns (w: Node)
    requires Gap(t, x, p, w0).Open() && p != t.root && !x.red && !w0.red
    requires x == x.parent.right && w0 == x.parent.left && !w0.left.red && w0.right.red
    modifies t.nodes`left, t.nodes`right, t.nodes`parent, t.nodes`lo, t.nodes`hi, t.root`left, t.root`right
    modifies t.nodes`red, t.nodes`bh
    ensures Gap(t, x, p, w).Open() && !w.red && w.left.red
    ensures x == x.parent.right && w == x.parent.left && !x.red
    ensures t.root.left == old(t.root.left)
  {
    GapFacts(Gap(t, x, p, w0));
    w := w0;
    assert t.NodeOk(w.right) && t.RedOk(w.right, x);
    ghost var s := Spot(t, w, w.right, w.left, w.right.left, w.right.right, p);
    assert Zig(s, x).At();
    Trade(t, w, w.right, s);
    s := RotateLeft(t, w);
    CaseThree(Zig(s, x));
    w := x.parent.left;
  }

  /** Case 4 with `x` a right child. */
  method CaseFourRight(t: Tree, x: Node, w: Node, ghost p: Node)
    requires Gap(t, x, p, w).Open() && p != t.root && !x.red && !w.red
    requires x == x.parent.right && w == x.parent.left && w.left.red
    modifies t.nodes`left, t.nodes`right, t.nodes`parent, t.nodes`lo, t.nodes`hi, t.root`left, t.root`right
    modifies t.nodes`red, t.nodes`bh
    ensures t.Balanced() && !p.red
    ensures old(t.root.left) != p ==> t.root.left == old(t.root.left)
  {
    GapFacts(Gap(t, x, p, w));
    assert w.left in t.nodes && t.NodeOk(w.left);
    ghost var s := Spot(t, p, w, x, w.right, w.left, p.parent);
    assert CaseFourAt(s);
    PaintCaseFour(t, x.parent, w, w.left, s);
    s := RotateRight(t, x.parent);
    CaseFour(s);
  }

  method PaintSibling(t: Tree, x: Node, w: Node, ghost p: Node)
    requires Gap(t, x, p, w).Open() && p != t.root && !x.red && !w.red && !w.left.red && !w.right.red
    modifies t.nodes`red, t.nodes`bh
    ensures x.parent == p && t.Shape() && Gap(t, p, p.parent, Sibling(p)).Open()
    ensures p.red == old(p.red)
  {
    ghost var g := Gap(t, x, p, w);
    GapFacts(g);
    w.red := true;
    w.bh, p.bh := w.bh - 1, p.bh - 1;
    CaseTwo(g);
  }

  ghost function Size(t: Tree, x: Node): int
    reads x
  {
    if x == t.nil then 0 else x.hi - x.lo
  }

  /** What one iteration leaves: a balanced tree, or a gap one level up (below a black root unless `x` is red). */
  ghost predicate Stepped(t: Tree, root: Node, x: Node, g: Gap, done: bool)
    reads t, t.nodes, t.root, t.nil, x, g.x
  {
    if done then t.Balanced() && x == root && !x.red && (x == t.nil || x in t.nodes)
    else g.t == t && g.x == x && g.Open() && (x.red || t.root.left == root)
  }

  /** One iteration with `x` a left child. */
  method FixLeft(t: Tree, root: Node, x0: Node, ghost g0: Gap) returns (x: Node, ghost g: Gap, ghost done: bool)
    requires g0.Open() && g0.t == t && g0.x == x0 && g0.p != t.root && !x0.red
    requires x0 == x0.parent.left && t.root.left == root
    modifies t.nodes`left, t.nodes`right, t.nodes`parent, t.nodes`lo, t.nodes`hi, t.root`left, t.root`right
    modifies t.nodes`red, t.nodes`bh
    ensures Stepped(t, root, x, g, done)
    ensures !done ==> x.red || (x == g0.p && Size(t, x) > old(Size(t, x0)))
  {
    GapFacts(g0);
    x, g, done := x0, g0, false;
    var w := x.parent.right;
    if w.red {
      w := CaseOneLeft(t, x, g0);
      g := Gap(t, x, g0.p, w);
    }
    if !w.right.red && !w.left.red {
      var p := x.parent;
      PaintSibling(t, x, w, g0.p);
      x := p;
      g := Gap(t, x, x.parent, Sibling(x));
    } else {
      if !w.right.red {
        w := CaseThreeLeft(t, x, w, g0.p);
      }
      CaseFourLeft(t, x, w, g0.p);
      x := root;
      done := true;
    }
  }

  /** One iteration with `x` a right child. */
  method FixRight(t: Tree, root: Node, x0: Node, ghost g0: Gap) returns (x: Node, ghost g: Gap, ghost done: bool)
    requires g0.Open() && g0.t == t && g0.x == x0 && g0.p != t.root && !x0.red
    requires x0 == x0.parent.right && t.root.left == root
    modifies t.nodes`left, t.nodes`right, t.nodes`parent, t.nodes`lo, t.nodes`hi, t.root`left, t.root`right
    modifies t.nodes`red, t.nodes`bh
    ensures Stepped(t, root, x, g, done)
    ensures !done ==> x.red || (x == g0.p && Size(t, x) > old(Size(t, x0)))
  {
    GapFacts(g0);
    x, g, done := x0, g0, false;
    var w := x.parent.left;
    if w.red {
      w := CaseOneRight(t, x, g0);
      g := Gap(t, x, g0.p, w);
    }
    if !w.right.red && !w.left.red {
      var p := x.parent;
      PaintSibling(t, x, w, g0.p);
      x := p;
      g := Gap(t, x, x.parent, Sibling(x));
    } else {
      if !w.left.red {
        w := CaseThreeRight(t, x, w, g0.p);
      }
      CaseFourRight(t, x, w, g0.p);
      x := root;
      done := true;
    }
  }

  twostate lemma ClosedRed(g: Gap)
    requires old(g.Open() && g.x.red) && Unmoved(g.t) && !g.x.red && g.x.bh == old(g.x.bh) + 1
    requires forall n :: n in g.t.nodes && n != g.x ==> n.red == old(n.red) && n.bh == old(n.bh)
    ensures g.t.Balanced()
  {
    UnmovedShape(g.t);
    assert old(g.t.NodeOk(g.x));
    forall n | n in g.t.nodes ensures g.t.RedOk(n, g.t.nil) && g.t.HeightOk(n) {
      assert old(g.t.NodeOk(n) && (n != g.x ==> g.t.RedOk(n, g.x)) && (n != g.p ==> g.t.HeightOk(n)));
    }
  }

  lemma ClosedRoot(g: Gap)
    requires g.Open() && !g.x.red && g.t.root.left == g.x
    ensures g.t.Balanced()
  {
    var t := g.t;
    forall n | n in t.nodes ensures t.RedOk(n, t.nil) && t.HeightOk(n) {
      assert t.NodeOk(n) && (n != g.x ==> t.RedOk(n, g.x)) && (n != g.p ==> t.HeightOk(n));
    }
  }

  /** After the loop the node that the gap has moved to turns black. */
  method Close(t: Tree, root: Node, x: Node, ghost g: Gap, ghost done: bool)
    requires Stepped(t, root, x, g, done) && (x.red || root == x)
    modifies t.nodes`red, t.nodes`bh, t.nil`red
    ensures t.Balanced()
  {
    if !done && !x.red { ClosedRoot(g); }
    if x.red {
      ghost var n := x;
      n.bh := n.bh + 1;
    }
    x.red := false;
    if old(x.red) { ClosedRed(g); }
  }

  method RBDeleteFixUp(t: Tree, x0: Node, ghost g0: Gap)
    requires g0.Open() && g0.t == t && g0.x == x0
    modifies t.nodes`left, t.nodes`right, t.nodes`parent, t.nodes`lo, t.nodes`hi, t.root`left, t.root`right
    modifies t.nodes`red, t.nodes`bh, t.nil`red
    ensures t.Balanced()
  {
    var root, x := t.root.left, x0;
    ghost var g, done := g0, false;
    while !x.red && root != x
      invariant Stepped(t, root, x, g, done)
      decreases if done || x.red then 0 else 1 + |t.order| - Size(t, x)
    {
      GapFacts(g);
      if x == x.parent.left {
        x, g, done := FixLeft(t, root, x, g);
      } else {
        x, g, done := FixRight(t, root, x, g);
      }
    }
    Close(t, root, x, g, done);
  }
}
