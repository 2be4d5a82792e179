/** Finding a node by its place in the order, and taking a node out of the links. */
module RbSplice {
  import opened RbShape
  import opened RbBalance

  // ----- places in the order -----

  /** The focus on the i-th node of `t`. */
  function Locate(k: Path, t: Tree, i: nat): (f: (Path, Tree))
    requires i < |Inorder(t)|
    ensures f.1.Fork? && f.1.node == Inorder(t)[i]
    ensures Plug(f.0, f.1) == Plug(k, t)
    ensures |Before(f.0)| + |Inorder(f.1.left)| == |Before(k)| + i
    decreases t
  {
    var n := |Inorder(t.left)|;
    if i < n then Locate(Step(Left, k, t.node, t.color, t.right), t.left, i)
    else if i == n then (k, t)
    else Locate(Step(Right, k, t.node, t.color, t.left), t.right, i - n - 1)
  }

  /** The path down to the leftmost node of `t`. */
  function LeftHole(k: Path, t: Tree): Path
    requires t.Fork?
    decreases t
  {
    if t.left.Leaf? then k else LeftHole(Step(Left, k, t.node, t.color, t.right), t.left)
  }

  function LeftEnd(t: Tree): (e: Tree)
    requires t.Fork?
    ensures e.Fork? && e.left.Leaf?
  {
    if t.left.Leaf? then t else LeftEnd(t.left)
  }

  /** `t` with its leftmost subtree exchanged. */
  function FillLeft(t: Tree, e: Tree): Tree
    requires t.Fork?
  {
    if t.left.Leaf? then e else t.(left := FillLeft(t.left, e))
  }

  lemma {:induction false} FillLeftEnd(t: Tree)
    requires t.Fork?
    ensures FillLeft(t, LeftEnd(t)) == t
  {
    if t.left.Fork? {
      FillLeftEnd(t.left);
    }
  }

  lemma {:induction false} LeftHolePlug(k: Path, t: Tree, e: Tree)
    requires t.Fork?
    ensures Plug(LeftHole(k, t), e) == Plug(k, FillLeft(t, e))
    decreases t
  {
    if t.left.Fork? {
      LeftHolePlug(Step(Left, k, t.node, t.color, t.right), t.left, e);
    }
  }

  /** Focus and order agree for the two views of the exchanged leftmost subtree. */
  lemma {:induction false} LeftHoleAt(m: Snapshot, k: Path, t: Tree, e: Tree)
    requires t.Fork?
    ensures At(m, LeftHole(k, t), e) <==> At(m, k, FillLeft(t, e))
    ensures Sequence(LeftHole(k, t), e) == Sequence(k, FillLeft(t, e))
    ensures PathNodes(LeftHole(k, t)) + Nodes(e) == PathNodes(k) + Nodes(FillLeft(t, e))
    ensures TopOf(LeftHole(k, t), Ptr(e)) == TopOf(k, Ptr(FillLeft(t, e)))
  {
    LeftHolePlug(k, t, e);
    PlugAt(m, LeftHole(k, t), e);
    PlugAt(m, k, FillLeft(t, e));
    PlugInorder(LeftHole(k, t), e);
    PlugInorder(k, FillLeft(t, e));
  }

  lemma {:induction false} LeftEndFirst(t: Tree)
    requires t.Fork?
    ensures Inorder(t) == [LeftEnd(t).node] + Inorder(FillLeft(t, LeftEnd(t).right))
    ensures LeftEnd(t).node in Nodes(t)
  {
    if t.left.Fork? {
      LeftEndFirst(t.left);
    }
  }

  /** Equal but for the identity of the nodes on the way. */
  predicate Alike(k: Path, k': Path) {
    if k.Root? then k'.Root?
    else k'.Step? && k'.side == k.side && k'.color == k.color && k'.sibling == k.sibling && Alike(k.up, k'.up)
  }

  lemma {:induction false} AlikeBalance(k: Path, k': Path, h: nat)
    requires Alike(k, k')
    ensures Fits(k, h) == Fits(k', h) && BlackTop(k) == BlackTop(k') && UnderRed(k) == UnderRed(k')
  {
    if k.Step? {
      AlikeBalance(k.up, k'.up, h + Weight(k.color));
    }
  }

  lemma {:induction false} AlikeHole(k: Path, k': Path, t: Tree)
    requires t.Fork? && Alike(k, k')
    ensures Alike(LeftHole(k, t), LeftHole(k', t))
    decreases t
  {
    if t.left.Fork? {
      AlikeHole(Step(Left, k, t.node, t.color, t.right), Step(Left, k', t.node, t.color, t.right), t.left);
    }
  }

  lemma {:induction false} AlikeSelf(k: Path)
    ensures Alike(k, k)
  {
    if k.Step? {
      AlikeSelf(k.up);
    }
  }

  // ----- stores -----

  /** A subtree's root is replaced by its only child, at the hole of `k`. */
  function Unlinked(m: Snapshot, k: Path, h: RbNode?): Snapshot {
    Relink(Reparent(m, h, Above(k)), k, h)
  }

  lemma {:induction false} UnlinkAt(m: Snapshot, k: Path, t: Tree, c: Tree)
    requires At(m, k, t) && t.Fork? && ((t.left.Leaf? && c == t.right) || (t.right.Leaf? && c == t.left))
    ensures At(Unlinked(m, k, Ptr(c)), k, c)
  {
    var m1 := Reparent(m, Ptr(c), Above(k));
    var m2 := Relink(m1, k, Ptr(c));
    assert c.Fork? ==> c.node in Nodes(c);
    ReparentRealises(m, c, t.node, Above(k));
    FrameTree(m1, m2, c, Above(k));
    FramePath(m, m1, k, t.node);
    RelinkRealises(m1, k, t.node, Ptr(c));
  }

  /** Node x takes the place of z, whose subtrees are l and r. */
  function Replaced(m: Snapshot, k: Path, x: RbNode, l: RbNode?, r: RbNode?, c: Color): Snapshot {
    Relink(Reparent(Reparent(m[x := Links(l, r, Above(k), c)], l, x), r, x), k, x)
  }

  lemma {:induction false} ReplaceAt(m: Snapshot, k: Path, x: RbNode, t: Tree)
    requires At(m, k, t) && t.Fork? && x !in PathNodes(k) && x !in Nodes(t)
    ensures At(Replaced(m, k, x, Ptr(t.left), Ptr(t.right), t.color), k, t.(node := x))
  {
    var l, r := t.left, t.right;
    var m1 := m[x := Links(Ptr(l), Ptr(r), Above(k), t.color)];
    var m2 := Reparent(m1, Ptr(l), x);
    var m3 := Reparent(m2, Ptr(r), x);
    var m4 := Relink(m3, k, x);
    assert (l.Fork? ==> l.node in Nodes(l)) && (r.Fork? ==> r.node in Nodes(r));
    FrameTree(m, m1, l, t.node);
    ReparentRealises(m1, l, t.node, x);
    FrameTree(m2, m4, l, x);
    FrameTree(m, m2, r, t.node);
    ReparentRealises(m2, r, t.node, x);
    FrameTree(m3, m4, r, x);
    FramePath(m, m3, k, t.node);
    RelinkRealises(m3, k, t.node, x);
  }

  // ----- the successor takes the place of a node with two children -----

  /** The tree without the node at the focus, seen from where its successor was taken. */
  function SuccessorPath(k: Path, t: Tree): Path
    requires t.Fork? && t.right.Fork?
  {
    LeftHole(Step(Right, k, LeftEnd(t.right).node, t.color, t.left), t.right)
  }

  function SuccessorLinks(m: Snapshot, k: Path, t: Tree): Snapshot
    requires t.Fork? && t.right.Fork?
  {
    var e := LeftEnd(t.right);
    var m1 := Unlinked(m, LeftHole(Step(Right, k, t.node, t.color, t.left), t.right), Ptr(e.right));
    Replaced(m1, k, e.node, Ptr(t.left), Ptr(FillLeft(t.right, e.right)), t.color)
  }

  lemma {:induction false} SuccessorAt(m: Snapshot, k: Path, t: Tree)
    requires At(m, k, t) && t.Fork? && t.right.Fork?
    ensures At(SuccessorLinks(m, k, t), SuccessorPath(k, t), LeftEnd(t.right).right)
    ensures PathNodes(SuccessorPath(k, t)) + Nodes(LeftEnd(t.right).right) <= PathNodes(k) + Nodes(t)
    ensures t.node !in PathNodes(SuccessorPath(k, t)) + Nodes(LeftEnd(t.right).right)
    ensures TopOf(SuccessorPath(k, t), Ptr(LeftEnd(t.right).right)) == TopOf(k, LeftEnd(t.right).node)
  {
    var r, e, z := t.right, LeftEnd(t.right), t.node;
    var kr, r' := Step(Right, k, z, t.color, t.left), FillLeft(t.right, e.right);
    var kx := LeftHole(kr, r);
    Descend(m, k, Right, r, z, t.color, t.left);
    FillLeftEnd(r);
    LeftHoleAt(m, kr, r, e);
    UnlinkAt(m, kx, e, e.right);
    var m1 := Unlinked(m, kx, Ptr(e.right));
    LeftHoleAt(m1, kr, r, e.right);
    Descend(m1, k, Right, r', z, t.color, t.left);
    var t1 := t.(right := r');
    assert e.node !in PathNodes(kx) && e.node !in Nodes(e.right);
    ReplaceAt(m1, k, e.node, t1);
    var m2 := SuccessorLinks(m, k, t);
    var k2 := Step(Right, k, e.node, t.color, t.left);
    Descend(m2, k, Right, r', e.node, t.color, t.left);
    LeftHoleAt(m2, k2, r, e.right);
    assert Nodes(t1) == Nodes(t.left) + {z} + Nodes(r');
    assert Nodes(t) == Nodes(t.left) + {z} + Nodes(r);
    LeftEndFirst(r);
  }

  /** What the successor's surroundings hold when it is the right child. */
  lemma {:induction false} NearFacts(m: Snapshot, k: Path, t: Tree)
    requires At(m, k, t) && t.Fork? && t.left.Fork? && t.right.Fork? && t.right.left.Leaf?
    ensures var l, x, c := t.left.node, t.right.node, Ptr(t.right.right);
      && m.Keys >= {t.node, l, x} && (c != null ==> c in m)
      && m[t.node] == Links(l, x, Above(k), t.color)
      && m[x] == Links(null, c, t.node, t.right.color)
      && t.node != l && t.node != x && l != x && c !in {t.node, l, x} && Above(k) != t.node
      && (c != null ==> m[c].parent == x)
  {
    var r := t.right;
    assert Realises(m, r, t.node) && Realises(m, r.right, r.node) && Realises(m, t.left, t.node);
    assert t.left.node in Nodes(t.left) && r.node in Nodes(r);
    assert r.right.Fork? ==> r.right.node in Nodes(r.right) && r.right.node in Nodes(r);
  }

  /** What the successor's surroundings hold when it lies deeper. */
  lemma {:induction false} FarFacts(m: Snapshot, k: Path, t: Tree)
    requires At(m, k, t) && t.Fork? && t.left.Fork? && t.right.Fork? && t.right.left.Fork?
    ensures var kx := LeftHole(Step(Right, k, t.node, t.color, t.left), t.right);
            var e := LeftEnd(t.right);
            var l, r, x, p, c := t.left.node, t.right.node, e.node, Above(kx), Ptr(e.right);
      && p != null && kx.side.Left? && Ptr(FillLeft(t.right, e.right)) == r
      && m.Keys >= {t.node, l, r, x, p} && (c != null ==> c in m)
      && m[t.node] == Links(l, r, Above(k), t.color)
      && m[x] == Links(null, c, p, e.color)
      && x !in {t.node, l, r, p} && l !in {t.node, r, p} && t.node !in {r, p} && c !in {t.node, l, r, x, p}
  {
    var r, e := t.right, LeftEnd(t.right);
    var kr := Step(Right, k, t.node, t.color, t.left);
    var kx := LeftHole(kr, r);
    Descend(m, k, Right, r, t.node, t.color, t.left);
    FillLeftEnd(r);
    LeftHoleAt(m, kr, r, e);
    LeftHoleStep(kr, r);
    assert PathRealises(m, kx, e.node) && Realises(m, e, Above(kx));
    assert Realises(m, e.right, e.node);
    assert e.right.Fork? ==> e.right.node in Nodes(e.right);
    assert t.left.node in Nodes(t.left) && r.node in Nodes(r) && e.node in Nodes(e);
  }

  lemma {:induction false} LeftHoleStep(k: Path, t: Tree)
    requires t.Fork? && t.left.Fork?
    ensures var kx := LeftHole(k, t);
      && kx.Step? && kx.side.Left? && kx.node in Nodes(t) && t.node in PathNodes(kx) && PathNodes(k) <= PathNodes(kx)
    decreases t
  {
    var k' := Step(Left, k, t.node, t.color, t.right);
    if t.left.left.Fork? {
      LeftHoleStep(k', t.left);
    }
  }

  /** The nodes around the successor all lie below the focus. */
  lemma {:induction false} SuccessorNodes(k: Path, t: Tree)
    requires t.Fork? && t.left.Fork? && t.right.Fork?
    ensures var e := LeftEnd(t.right);
      && {t.node, t.left.node, t.right.node, e.node} <= Nodes(t)
      && (e.right.Fork? ==> e.right.node in Nodes(t))
      && (t.right.left.Fork? ==> Above(SuccessorPath(k, t)) in Nodes(t))
      && (t.right.left.Fork? ==>
            Above(SuccessorPath(k, t)) == Above(LeftHole(Step(Right, k, t.node, t.color, t.left), t.right)))
  {
    var r, e := t.right, LeftEnd(t.right);
    assert t.left.node in Nodes(t.left) && r.node in Nodes(r);
    LeftEndFirst(r);
    LeftEndNodes(r);
    if r.left.Fork? {
      LeftHoleStep(Step(Right, k, t.node, t.color, t.left), r);
      LeftHoleAbove(Step(Right, k, t.node, t.color, t.left), Step(Right, k, e.node, t.color, t.left), r);
    }
  }

  lemma {:induction false} LeftEndNodes(t: Tree)
    requires t.Fork?
    ensures Nodes(LeftEnd(t)) <= Nodes(t) && Nodes(LeftEnd(t).right) <= Nodes(t)
    ensures LeftEnd(t).right.Fork? ==> LeftEnd(t).right.node in Nodes(t)
  {
    if t.left.Fork? {
      LeftEndNodes(t.left);
    } else {
      assert t.right.Fork? ==> t.right.node in Nodes(t.right);
    }
  }

  lemma {:induction false} LeftHoleAbove(k: Path, k': Path, t: Tree)
    requires t.Fork? && t.left.Fork?
    ensures Above(LeftHole(k, t)) == Above(LeftHole(k', t))
    decreases t
  {
    if t.left.left.Fork? {
      LeftHoleAbove(Step(Left, k, t.node, t.color, t.right), Step(Left, k', t.node, t.color, t.right), t.left);
    }
  }

  lemma {:induction false} Carry(m: Snapshot, m': Snapshot, k: Path, t: Tree, s: set<RbNode>)
    requires At(m, k, t) && PathNodes(k) + Nodes(t) <= s && Agree(m, m', s)
    ensures At(m', k, t)
  {
    FramePath(m, m', k, Ptr(t));
    FrameTree(m, m', t, Above(k));
  }

  /** The hole of `k` holds z, and is not at x. */
  predicate Hangs(m: Snapshot, k: Path, z: RbNode, x: RbNode) {
    && z in m && m[z].parent == Above(k)
    && (k.Step? ==>
          && k.node in m && k.node != x && k.node != z
          && Child(m[k.node], k.side) == z && Child(m[k.node], Other(k.side)) != z)
  }

  /** The stores of rb_erase when the successor x of z is its right child. */
  function NearLinks(m: Snapshot, k: Path, z: RbNode, x: RbNode): Snapshot
    requires z in m && x in m
  {
    var m1 := m[x := m[x].(left := m[z].left)];
    var m2 := m1[x := m1[x].(parent := m[z].parent)];
    var m3 := m2[x := m2[x].(color := m[z].color)];
    Relink(Reparent(m3, m[z].left, x), k, x)
  }

  /** The stores of rb_erase when the successor x of z lies deeper. */
  function FarLinks(m: Snapshot, k: Path, z: RbNode, x: RbNode): Snapshot
    requires z in m && x in m && m[x].parent in m
  {
    Relink(FarTaken(m, z, x), k, x)
  }

  /** The successor has left its place and carries the links of the erased node. */
  function FarTaken(m: Snapshot, z: RbNode, x: RbNode): Snapshot
    requires z in m && x in m && m[x].parent in m
  {
    var p, c := m[x].parent, m[x].right;
    var m1 := m[x := m[z]];
    var m2 := m1[p := m1[p].(left := c)];
    Reparent(Reparent(Reparent(m2, c, p), m[z].left, x), m[z].right, x)
  }

  lemma {:induction false} NearStores(m: Snapshot, k: Path, d: Path, z: RbNode, x: RbNode, l: RbNode, c: RbNode?,
      cz: Color, cx: Color)
    requires {z, x, l} <= m.Keys && m[z] == Links(l, x, Above(k), cz) && m[x] == Links(null, c, z, cx)
    requires z != x && z != l && x != l && c !in {z, x, l} && (c != null ==> c in m && m[c].parent == x)
    requires d.Step? && d.node == z && d.side.Right? && Above(k) != z
    ensures Agree(Replaced(Unlinked(m, d, c), k, x, l, c, cz), NearLinks(m, k, z, x), m.Keys - {z})
  {
    var p := Reparent(Reparent(Unlinked(m, d, c)[x := Links(l, c, Above(k), cz)], l, x), c, x);
    var m1 := m[x := m[x].(left := l)];
    var m2 := m1[x := m1[x].(parent := Above(k))];
    var q := Reparent(m2[x := m2[x].(color := cz)], l, x);
    assert q == Reparent(m[x := Links(l, c, Above(k), cz)], l, x);
    NearReparents(m, d, z, x, l, c, Links(l, c, Above(k), cz));
    hide Reparent;
    hide Unlinked;
    RelinkAgree(p, q, k, x, m.Keys - {z});
  }

  lemma {:induction false} NearReparents(m: Snapshot, d: Path, z: RbNode, x: RbNode, l: RbNode, c: RbNode?, v: Links)
    requires {z, x, l} <= m.Keys && z != x && z != l && x != l && c !in {z, x, l}
               && (c != null ==> c in m && m[c].parent == x)
    requires d.Step? && d.node == z
    ensures var p := Reparent(Reparent(Unlinked(m, d, c)[x := v], l, x), c, x); var q := Reparent(m[x := v], l, x);
      p.Keys == q.Keys == m.Keys && Agree(p, q, m.Keys - {z})
  {
  }

  lemma {:induction false} RelinkAgree(p: Snapshot, q: Snapshot, k: Path, h: RbNode?, s: set<RbNode>)
    requires Agree(p, q, s) && p.Keys == q.Keys && (k.Step? && k.node in p ==> k.node in s)
    ensures Agree(Relink(p, k, h), Relink(q, k, h), s)
  {
  }

  lemma {:induction false} NearAgree(m: Snapshot, k: Path, t: Tree)
    requires At(m, k, t) && t.Fork? && t.left.Fork? && t.right.Fork? && t.right.left.Leaf?
    ensures t.node in m && t.right.node in m
    ensures Agree(SuccessorLinks(m, k, t), NearLinks(m, k, t.node, t.right.node), m.Keys - {t.node})
  {
    hide NearLinks;
    hide Replaced;
    hide Unlinked;
    NearFacts(m, k, t);
    NearStores(m, k, Step(Right, k, t.node, t.color, t.left), t.node, t.right.node, t.left.node, Ptr(t.right.right),
      t.color, t.right.color);
  }

  lemma {:induction false} FarStores(m: Snapshot, k: Path, d: Path, z: RbNode, x: RbNode, l: RbNode, r: RbNode,
      p: RbNode, c: RbNode?, cz: Color, cx: Color)
    requires {z, x, l, r, p} <= m.Keys && m[z] == Links(l, r, Above(k), cz) && m[x] == Links(null, c, p, cx)
    requires x !in {z, l, r, p} && c !in {z, l, r, x, p} && (c != null ==> c in m)
    requires d.Step? && d.node == p && d.side.Left?
    ensures Replaced(Unlinked(m, d, c), k, x, l, r, cz) == FarLinks(m, k, z, x)
  {
    var m1 := m[x := m[z]];
    var m2 := m1[p := m1[p].(left := c)];
    assert Unlinked(m, d, c)[x := Links(l, r, Above(k), cz)] == Reparent(m2, c, p);
  }

  lemma {:induction false} FarAgree(m: Snapshot, k: Path, t: Tree)
    requires At(m, k, t) && t.Fork? && t.left.Fork? && t.right.Fork? && t.right.left.Fork?
    ensures var x := LeftEnd(t.right).node; t.node in m && x in m && m[x].parent in m
    ensures SuccessorLinks(m, k, t) == FarLinks(m, k, t.node, LeftEnd(t.right).node)
  {
    hide FarLinks;
    hide Replaced;
    hide Unlinked;
    FarFacts(m, k, t);
    var d, e := LeftHole(Step(Right, k, t.node, t.color, t.left), t.right), LeftEnd(t.right);
    FarStores(m, k, d, t.node, e.node, t.left.node, t.right.node, Above(d), Ptr(e.right), t.color, e.color);
  }

  // ----- what rb_erase starts its fix-up with -----

  /** Without the node at the focus: where the fix-up starts, on which subtree, and the colour that is missing there. */
  function Remaining(k: Path, t: Tree): (Path, Tree, Color)
    requires t.Fork?
  {
    if t.left.Fork? && t.right.Fork? then (SuccessorPath(k, t), LeftEnd(t.right).right, LeftEnd(t.right).color)
    else (k, if t.left.Leaf? then t.right else t.left, t.color)
  }

  lemma {:induction false} RemainingCases(k: Path, t: Tree)
    requires t.Fork?
    ensures t.left.Fork? && t.right.Fork? ==>
              Remaining(k, t) == (SuccessorPath(k, t), LeftEnd(t.right).right, LeftEnd(t.right).color)
    ensures t.left.Leaf? || t.right.Leaf? ==> Remaining(k, t) == (k, if t.left.Leaf? then t.right else t.left, t.color)
  {
  }

  lemma {:induction false} CutOne<T>(s: seq<T>, p: seq<T>, x: T, q: seq<T>)
    requires s == p + [x] + q
    ensures |p| < |s| && p + q == s[..|p|] + s[|p| + 1..]
  {
    assert s[..|p|] == p && s[|p| + 1..] == q;
  }

  lemma {:induction false} Regroup(b: seq<RbNode>, l: seq<RbNode>, n: RbNode, g: seq<RbNode>, a: seq<RbNode>)
    ensures (b + l + [n]) + g + a == (b + l) + (([n] + g) + a)
  {
  }

  lemma {:induction false} RemainingInorder(k: Path, t: Tree)
    requires t.Fork?
    ensures var (k', t', _) := Remaining(k, t);
      Sequence(k', t') == (Before(k) + Inorder(t.left)) + (Inorder(t.right) + After(k))
  {
    var b, a, l, r := Before(k), After(k), Inorder(t.left), Inorder(t.right);
    if t.left.Fork? && t.right.Fork? {
      var e := LeftEnd(t.right);
      var ks, f := Step(Right, k, e.node, t.color, t.left), FillLeft(t.right, e.right);
      LeftHoleAt(map[], ks, t.right, e.right);
      LeftEndFirst(t.right);
      var g := Inorder(f);
      assert Sequence(ks, f) == (b + l + [e.node]) + g + a;
      assert r == [e.node] + g;
      Regroup(b, l, e.node, g, a);
    } else if t.left.Leaf? {
      assert b + r + a == (b + []) + (r + a);
    } else {
      assert b + l + a == (b + l) + ([] + a);
    }
  }

  /** Exactly the node at the focus is gone from the order. */
  lemma {:induction false} RemainingSequence(k: Path, t: Tree)
    requires t.Fork?
    ensures var (k', t', _) := Remaining(k, t); var i := |Before(k)| + |Inorder(t.left)|;
      i < |Sequence(k, t)| && Sequence(k', t') == Sequence(k, t)[..i] + Sequence(k, t)[i + 1..]
  {
    var b, a, l, r := Before(k), After(k), Inorder(t.left), Inorder(t.right);
    RemainingInorder(k, t);
    hide Remaining;
    Spread(b, l, t.node, r, a);
    CutOne(Sequence(k, t), b + l, t.node, r + a);
  }

  lemma {:induction false} Spread(b: seq<RbNode>, l: seq<RbNode>, n: RbNode, r: seq<RbNode>, a: seq<RbNode>)
    ensures b + (l + [n] + r) + a == (b + l) + [n] + (r + a)
  {
  }

  lemma {:induction false} RemainingBalance(k: Path, t: Tree)
    requires Balanced(Plug(k, t)) && t.Fork?
    ensures var (k', t', c) := Remaining(k, t);
      if c.Black? then EraseInvariant(k', t') else Balanced(Plug(k', t'))
  {
    PlugBalance(k, t);
    var (k', t', c) := Remaining(k, t);
    if t.left.Fork? && t.right.Fork? {
      var kr, e := Step(Right, k, t.node, t.color, t.left), LeftEnd(t.right);
      FillLeftEnd(t.right);
      LeftHolePlug(kr, t.right, e);
      PlugBalance(LeftHole(kr, t.right), e);
      AlikeSelf(k);
      AlikeHole(kr, Step(Right, k, e.node, t.color, t.left), t.right);
      AlikeBalance(LeftHole(kr, t.right), k', BlackHeight(e));
      assert BlackHeight(e) == BlackHeight(t') + Weight(c);
    }
    PlugBalance(k', t');
  }

  // ----- neighbours in the order -----

  function RightEnd(t: Tree): (e: Tree)
    requires t.Fork?
    ensures e.Fork? && e.right.Leaf?
  {
    if t.right.Leaf? then t else RightEnd(t.right)
  }

  lemma {:induction false} EndsOfInorder(t: Tree)
    requires t.Fork?
    ensures Inorder(t) != [] && LeftEnd(t).node == Inorder(t)[0] && RightEnd(t).node == Inorder(t)[|Inorder(t)| - 1]
  {
    if t.left.Fork? {
      EndsOfInorder(t.left);
    }
    if t.right.Fork? {
      EndsOfInorder(t.right);
    }
  }

  /** What surrounds the node at the focus in the order. */
  lemma {:induction false} Surroundings(k: Path, t: Tree)
    requires t.Fork?
    ensures var q, i := Sequence(k, t), |Before(k)| + |Inorder(t.left)|;
      && i < |q| && q[i] == t.node
      && q[..i] == Before(k) + Inorder(t.left) && q[i + 1..] == Inorder(t.right) + After(k)
  {
    var b, a, l, r := Before(k), After(k), Inorder(t.left), Inorder(t.right);
    assert b + (l + [t.node] + r) + a == (b + l) + [t.node] + (r + a);
  }
}
