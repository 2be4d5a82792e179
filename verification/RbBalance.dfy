/** How the insertion and erasure steps change shapes, colours and black heights. */
module RbBalance {
  import opened RbShape

  lemma {:induction false} PlugBalance(k: Path, t: Tree)
    ensures RedBlack(Plug(k, t)) <==>
              RedBlack(t) && Fits(k, BlackHeight(t)) && !(IsRed(t) && UnderRed(k))
    ensures IsRed(Plug(k, t)) <==> if k.Root? then IsRed(t) else !BlackTop(k)
  {
    if k.Step? {
      PlugBalance(k.up, Make(k.side, t, k.node, k.color, k.sibling));
    }
  }

  lemma {:induction false} PlugInorder(k: Path, t: Tree)
    ensures Inorder(Plug(k, t)) == Sequence(k, t)
    ensures Nodes(Plug(k, t)) == PathNodes(k) + Nodes(t)
  {
    if k.Step? {
      var t' := Make(k.side, t, k.node, k.color, k.sibling);
      PlugInorder(k.up, t');
      DescendSequence(k.up, k.side, t, k.node, k.color, k.sibling);
      MakeNodes(k.side, t, k.node, k.color, k.sibling);
    }
  }

  lemma {:induction false} PlugAt(m: Snapshot, k: Path, t: Tree)
    ensures At(m, k, t) <==> At(m, Root, Plug(k, t))
    ensures TopOf(k, Ptr(t)) == Ptr(Plug(k, t))
  {
    if k.Step? {
      var t' := Make(k.side, t, k.node, k.color, k.sibling);
      PlugAt(m, k.up, t');
      Descend(m, k.up, k.side, t, k.node, k.color, k.sibling);
    }
  }

  lemma {:induction false} MakeBalance(d: Side, near: Tree, n: RbNode, c: Color, far: Tree)
    ensures RedBlack(Make(d, near, n, c, far)) <==>
              && RedBlack(near) && RedBlack(far) && BlackHeight(near) == BlackHeight(far)
              && (c.Red? ==> !IsRed(near) && !IsRed(far))
    ensures BlackHeight(near) == BlackHeight(far) ==>
              BlackHeight(Make(d, near, n, c, far)) == BlackHeight(near) + Weight(c)
    ensures IsRed(Make(d, near, n, c, far)) <==> c.Red?
  {
  }

  lemma {:induction false} TopNode(k: Path, hole: RbNode?)
    ensures k.Step? ==> TopOf(k, hole) in PathNodes(k)
  {
    if k.Step? && k.up.Step? {
      TopNode(k.up, k.node);
    }
  }

  // ----- insertion -----

  /** The state at the head of the loop of rb_insert: the only possible fault is a red parent above a red `t`. */
  predicate InsertInvariant(k: Path, t: Tree) {
    IsRed(t) && RedBlack(t) && Fits(k, BlackHeight(t)) && BlackTop(k)
  }

  lemma {:induction false} GrandparentExists(k: Path, t: Tree)
    requires InsertInvariant(k, t) && UnderRed(k)
    ensures k.up.Step? && k.up.color.Black?
  {
  }

  /** A red uncle: the fault moves to the grandparent. */
  lemma {:induction false} RecolorStep(d: Side, e: Side, up: Path, g: RbNode, p: RbNode, t: Tree, s: Tree, u: Tree)
    requires InsertInvariant(Step(d, Step(e, up, g, Black, u), p, Red, s), t) && IsRed(u)
    ensures InsertInvariant(up, Make(e, Make(d, t, p, Black, s), g, Red, u.(color := Black)))
  {
    assert BlackTop(Step(e, up, g, Black, u)) && Fits(Step(e, up, g, Black, u), BlackHeight(t));
    MakeBalance(d, t, p, Black, s);
    MakeBalance(e, Make(d, t, p, Black, s), g, Red, u.(color := Black));
  }

  lemma {:induction false} RecolorSequence(k: Path, e: Side, p: Tree, g: RbNode, u: Tree)
    requires p.Fork? && u.Fork?
    ensures Sequence(k, Make(e, p.(color := Black), g, Red, u.(color := Black))) == Sequence(k, Make(e, p, g, Black, u))
  {
    assert Inorder(p.(color := Black)) == Inorder(p) && Inorder(u.(color := Black)) == Inorder(u);
  }

  /** A black uncle: after the rotation at g, nothing is left to repair. */
  lemma {:induction false} RotateStep(e: Side, up: Path, g: RbNode, p: RbNode, a: Tree, b: Tree, u: Tree)
    requires IsRed(a) && RedBlack(a) && RedBlack(b) && BlackHeight(a) == BlackHeight(b) && !IsRed(b)
    requires RedBlack(u) && !IsRed(u) && BlackHeight(u) == BlackHeight(a)
    requires Fits(up, BlackHeight(a) + 1)
    ensures RedBlack(Plug(up, Make(Other(e), Make(Other(e), u, g, Red, b), p, Black, a)))
  {
    PlugBalance(up, Make(Other(e), Make(Other(e), u, g, Red, b), p, Black, a));
  }

  /** The parent's subtree with its red child on the outer side `e`. */
  function Outer(d: Side, e: Side, t: Tree, p: RbNode, s: Tree): Tree
    requires t.Fork?
  {
    var pt := Make(d, t, p, Red, s);
    if d == e then pt else Turned(pt, e)
  }

  lemma {:induction false} InsertRotateBalance(d: Side, e: Side, up: Path, g: RbNode, p: RbNode, t: Tree, s: Tree,
      u: Tree)
    requires InsertInvariant(Step(d, Step(e, up, g, Black, u), p, Red, s), t) && !IsRed(u)
    ensures var o := Outer(d, e, t, p, s);
            && o.Fork? && o.color.Red?
            && RedBlack(Plug(up, Make(Other(e), Make(Other(e), u, g, Red, Sub(o, Other(e))), o.node, Black, Sub(o, e))))
  {
    var o := Outer(d, e, t, p, s);
    assert Fits(Step(e, up, g, Black, u), BlackHeight(t));
    assert BlackHeight(t.left) == BlackHeight(t) == BlackHeight(s);
    RotateStep(e, up, g, o.node, Sub(o, e), Sub(o, Other(e)), u);
  }

  // ----- erasure -----

  /** The state at the head of the loop of rb_erase_fix: the hole expects one black node more than `t` has,
      and the root of `t` may be a red node below a red parent. */
  predicate EraseInvariant(k: Path, t: Tree) {
    NearlyRedBlack(t) && Fits(k, BlackHeight(t) + 1) && BlackTop(k)
  }

  /** What the erasure loop brings down: it stops at a red child, and otherwise climbs. */
  function Debt(k: Path, t: Tree): nat {
    if IsRed(t) then 0 else 1 + Depth(k)
  }

  lemma {:induction false} SiblingExists(k: Path, t: Tree)
    requires EraseInvariant(k, t) && k.Step?
    ensures k.sibling.Fork?
  {
  }

  /** A red child pays the debt. */
  lemma {:induction false} BlackenChild(k: Path, t: Tree)
    requires EraseInvariant(k, t) && IsRed(t)
    ensures RedBlack(Plug(k, t.(color := Black)))
  {
    PlugBalance(k, t.(color := Black));
  }

  /** A red sibling: one rotation gives the child a black sibling and a red parent. */
  lemma {:induction false} RedSiblingStep(d: Side, up: Path, n: RbNode, c: Color, t: Tree, b: RbNode, near: Tree,
      far: Tree)
    requires EraseInvariant(Step(d, up, n, c, Make(d, near, b, Red, far)), t) && !IsRed(t)
    ensures c.Black?
    ensures EraseInvariant(Step(d, Step(d, up, b, Black, far), n, Red, near), t) && near.Fork? && near.color.Black?
  {
  }

  /** A black sibling without red children: the debt moves to the parent. */
  lemma {:induction false} BlackSiblingStep(d: Side, up: Path, n: RbNode, c: Color, t: Tree, s: Tree)
    requires EraseInvariant(Step(d, up, n, c, s), t) && !IsRed(t)
    requires s.Fork? && s.color.Black? && !IsRed(s.left) && !IsRed(s.right)
    ensures EraseInvariant(up, Make(d, t, n, c, s.(color := Red)))
  {
  }

  /** A black sibling with a red child on the far side: one rotation pays the debt. */
  lemma {:induction false} FarNephewStep(d: Side, up: Path, n: RbNode, c: Color, t: Tree, b: RbNode, near: Tree,
      far: Tree)
    requires EraseInvariant(Step(d, up, n, c, Make(d, near, b, Black, far)), t) && !IsRed(t) && IsRed(far)
    ensures RedBlack(Plug(up, Make(d, Make(d, t, n, Black, near), b, c, far.(color := Black))))
  {
    MakeBalance(d, near, b, Black, far);
    MakeBalance(d, t, n, Black, near);
    MakeBalance(d, Make(d, t, n, Black, near), b, c, far.(color := Black));
    PlugBalance(up, Make(d, Make(d, t, n, Black, near), b, c, far.(color := Black)));
  }

  /** A red child on the near side only: one rotation at the sibling puts a red child on the far side. */
  lemma {:induction false} NearNephewStep(d: Side, up: Path, n: RbNode, c: Color, t: Tree, b: RbNode, e: RbNode,
      nn: Tree, nf: Tree, far: Tree)
    requires EraseInvariant(Step(d, up, n, c, Make(d, Make(d, nn, e, Red, nf), b, Black, far)), t)
    requires !IsRed(far)
    ensures EraseInvariant(Step(d, up, n, c, Make(d, nn, e, Black, Make(d, nf, b, Red, far))), t)
  {
    MakeBalance(d, nn, e, Red, nf);
    MakeBalance(d, Make(d, nn, e, Red, nf), b, Black, far);
    MakeBalance(d, nf, b, Red, far);
    MakeBalance(d, nn, e, Black, Make(d, nf, b, Red, far));
  }

  // ----- the erasure loop's rotations, seen from the child -----

  /** The parent rotated towards the child: the sibling becomes the grandparent. */
  function Lowered(k: Path): Path
    requires k.Step? && k.sibling.Fork?
  {
    var b := k.sibling;
    Step(k.side, Step(k.side, k.up, b.node, b.color, Sub(b, Other(k.side))), k.node, k.color, Sub(b, k.side))
  }

  function WithNephew(b: Tree, e: Side, c: Color): Tree
    requires b.Fork? && Sub(b, e).Fork?
  {
    if e.Left? then b.(left := b.left.(color := c)) else b.(right := b.right.(color := c))
  }

  lemma {:induction false} NephewSequence(k: Path, e: Side, c: Color, t: Tree)
    requires k.Step? && k.sibling.Fork? && Sub(k.sibling, e).Fork?
    ensures Sequence(k.(sibling := WithNephew(k.sibling, e, c)), t) == Sequence(k, t)
  {
    assert Inorder(Sub(k.sibling, e).(color := c)) == Inorder(Sub(k.sibling, e));
    assert Inorder(WithNephew(k.sibling, e, c)) == Inorder(k.sibling);
  }
}
