/** src/rbtree.c: red-black trees linked by pointers, with parent pointers. */
module RbTrees {
  import opened RbShape
  import opened RbBalance
  import opened RbSplice
  import Lists

  /** rb_red: null counts as black. */
  predicate RedNode(n: RbNode?)
    reads n
  {
    n != null && n.color.Red?
  }

  class RbTree {
    var root: RbNode?
    ghost var tree: Tree
    ghost var nodes: set<RbNode>

    ghost function Snap(s: set<RbNode>): Snapshot
      reads s
    {
      map n | n in s :: Links(n.left, n.right, n.parent, n.color)
    }

    /** The tree `Plug(k, t)`, seen from the root of `t`, is what the nodes in `s` hold. */
    ghost predicate Focus(s: set<RbNode>, k: Path, t: Tree)
      reads this, s
    {
      && root == TopOf(k, Ptr(t))
      && PathNodes(k) + Nodes(t) <= s
      && At(Snap(s), k, t)
    }

    ghost predicate Valid()
      reads this, nodes
    {
      nodes == Nodes(tree) && Focus(nodes, Root, tree) && Balanced(tree)
    }

    // Single stores, described on the snapshot.

    method SetLeft(n: RbNode, h: RbNode?, ghost s: set<RbNode>)
      requires n in s
      modifies n`left
      ensures Snap(s) == old(Snap(s))[n := old(Snap(s))[n].(left := h)]
    {
      n.left := h;
    }

    method SetRight(n: RbNode, h: RbNode?, ghost s: set<RbNode>)
      requires n in s
      modifies n`right
      ensures Snap(s) == old(Snap(s))[n := old(Snap(s))[n].(right := h)]
    {
      n.right := h;
    }

    method SetParent(n: RbNode, h: RbNode?, ghost s: set<RbNode>)
      requires n in s
      modifies n`parent
      ensures Snap(s) == old(Snap(s))[n := old(Snap(s))[n].(parent := h)]
    {
      n.parent := h;
    }

    method PaintOnly(n: RbNode, c: Color, ghost s: set<RbNode>)
      requires n in s
      modifies n`color
      ensures Snap(s) == old(Snap(s))[n := old(Snap(s))[n].(color := c)]
    {
      n.color := c;
    }

    /** *x = *node */
    method CopyLinks(x: RbNode, node: RbNode, ghost s: set<RbNode>)
      requires x in s && node in s
      modifies x`left, x`right, x`parent, x`color
      ensures Snap(s) == old(Snap(s))[x := old(Snap(s))[node]]
    {
      x.left, x.right, x.parent, x.color := node.left, node.right, node.parent, node.color;
    }

    /** The link that points to x, in its parent p or in the tree, is made to point to h. */
    method ReplaceChild(p: RbNode?, x: RbNode, h: RbNode?, ghost s: set<RbNode>, ghost k: Path)
      requires p == Above(k)
      requires k.Step? ==> p in s && Child(Snap(s)[p], k.side) == x && Child(Snap(s)[p], Other(k.side)) != x
      modifies this`root, s`left, s`right
      ensures Snap(s) == Relink(old(Snap(s)), k, h)
      ensures root == if k.Root? then h else old(root)
    {
      if p != null {
        if p.left == x {
          SetLeft(p, h, s);
        } else {
          SetRight(p, h, s);
        }
      } else {
        root := h;
      }
    }

    method SetColor(n: RbNode, c: Color, ghost s: set<RbNode>, ghost k: Path, ghost t: Tree)
      requires Focus(s, k, t) && t.Fork? && t.node == n
      modifies n`color
      ensures Focus(s, k, t.(color := c))
    {
      ghost var m := Snap(s);
      n.color := c;
      assert Snap(s) == m[n := m[n].(color := c)];
      FramePath(m, Snap(s), k, n);
      FrameTree(m, Snap(s), t.left, n);
      FrameTree(m, Snap(s), t.right, n);
    }

    /** The stores of rb_rotate_left. */
    method RotateLeftLinks(x: RbNode, ghost s: set<RbNode>, ghost k: Path)
      requires CanRotate(Snap(s), k, Left, x)
      modifies this`root, s`left, s`right, s`parent
      ensures Snap(s) == Rotated(old(Snap(s)), k, Left, x)
      ensures root == if k.Root? then old(x.right) else old(root)
    {
      var p := x.parent;
      var r := x.right;
      SetRight(x, r.left, s);
      if x.right != null {
        SetParent(x.right, x, s);
      }
      SetLeft(r, x, s);
      SetParent(r, p, s);
      ReplaceChild(p, x, r, s, k);
      SetParent(x, r, s);
    }

    /** rb_rotate_left */
    method RotateLeft(x: RbNode, ghost s: set<RbNode>, ghost k: Path, ghost t: Tree)
      requires Focus(s, k, t) && t.Fork? && t.node == x && t.right.Fork?
      modifies this`root, s`left, s`right, s`parent
      ensures Focus(s, k, Turned(t, Left))
    {
      RotateRealises(Snap(s), k, Left, t.left, x, t.color, t.right.left, t.right.node, t.right.color, t.right.right);
      RotateNodes(Left, t.left, x, t.color, t.right.left, t.right.node, t.right.color, t.right.right);
      RotateLeftLinks(x, s, k);
    }

    /** The stores of rb_rotate_right. */
    method RotateRightLinks(x: RbNode, ghost s: set<RbNode>, ghost k: Path)
      requires CanRotate(Snap(s), k, Right, x)
      modifies this`root, s`right, s`left, s`parent
      ensures Snap(s) == Rotated(old(Snap(s)), k, Right, x)
      ensures root == if k.Root? then old(x.left) else old(root)
    {
      var p := x.parent;
      var r := x.left;
      SetLeft(x, r.right, s);
      if x.left != null {
        SetParent(x.left, x, s);
      }
      SetRight(r, x, s);
      SetParent(r, p, s);
      ReplaceChild(p, x, r, s, k);
      SetParent(x, r, s);
    }

    /** rb_rotate_right */
    method RotateRight(x: RbNode, ghost s: set<RbNode>, ghost k: Path, ghost t: Tree)
      requires Focus(s, k, t) && t.Fork? && t.node == x && t.left.Fork?
      modifies this`root, s`right, s`left, s`parent
      ensures Focus(s, k, Turned(t, Right))
    {
      RotateRealises(Snap(s), k, Right, t.right, x, t.color, t.left.right, t.left.node, t.left.color, t.left.left);
      RotateNodes(Right, t.right, x, t.color, t.left.right, t.left.node, t.left.color, t.left.left);
      RotateRightLinks(x, s, k);
    }


    // ----- moving the focus -----

    lemma Ascend(s: set<RbNode>, d: Side, k: Path, near: Tree, n: RbNode, c: Color, far: Tree)
      ensures Focus(s, k, Make(d, near, n, c, far)) <==> Focus(s, Step(d, k, n, c, far), near)
      ensures Sequence(k, Make(d, near, n, c, far)) == Sequence(Step(d, k, n, c, far), near)
    {
      Descend(Snap(s), k, d, near, n, c, far);
      DescendSequence(k, d, near, n, c, far);
    }

    /** What the fields around the focus hold. */
    lemma Fields(s: set<RbNode>, k: Path, t: Tree)
      requires Focus(s, k, t)
      ensures t.Fork? ==>
                && t.node.left == Ptr(t.left) && t.node.right == Ptr(t.right)
                && t.node.parent == Above(k) && t.node.color == t.color
      ensures k.Step? ==>
                && k.node.parent == Above(k.up) && k.node.color == k.color
                && (k.side.Left? ==> k.node.left == Ptr(t) && k.node.right == Ptr(k.sibling))
                && (k.side.Right? ==> k.node.right == Ptr(t) && k.node.left == Ptr(k.sibling))
                && (Ptr(k.sibling) != null ==> Ptr(k.sibling) != Ptr(t))
                && RedNode(Ptr(k.sibling)) == IsRed(k.sibling)
      ensures RedNode(Ptr(t)) == IsRed(t)
    {
      assert k.Step? && k.sibling.Fork? ==> k.sibling.node in Nodes(k.sibling);
      assert t.Fork? ==> t.node in Nodes(t);
    }

    lemma WholeTree(s: set<RbNode>, k: Path, t: Tree)
      requires Focus(s, k, t)
      ensures Focus(s, Root, Plug(k, t)) && Inorder(Plug(k, t)) == Sequence(k, t)
    {
      PlugAt(Snap(s), k, t);
      PlugInorder(k, t);
    }

    lemma OwnNodes(s: set<RbNode>, t: Tree)
      requires Focus(s, Root, t)
      ensures Focus(Nodes(t), Root, t)
    {
      FrameTree(Snap(s), Snap(Nodes(t)), t, null);
    }

    lemma DistinctNodes()
      requires Valid()
      ensures Lists.NoDuplicates(Inorder(tree))
      ensures forall i | 0 <= i < |Inorder(tree)| :: Inorder(tree)[i] in nodes
      ensures forall n | n in nodes :: n in Inorder(tree)
    {
      InorderDistinct(Snap(nodes), tree, null);
    }

    /** The last statement of both fix-ups: the root is made black. */
    method Finish(ghost s: set<RbNode>, ghost k: Path, ghost t: Tree)
      requires Focus(s, k, t) && RedBlack(Plug(k, t))
      modifies this`tree, this`nodes, s`color
      ensures Valid() && nodes <= s && Inorder(tree) == Sequence(k, t)
    {
      hide Plug;
      hide At;
      hide Nodes;
      hide Inorder;
      WholeTree(s, k, t);
      tree := Plug(k, t);
      RootLeaf(s);
      if root != null {
        BlackenRoot(s);
      }
      OwnNodes(s, tree);
      nodes := Nodes(tree);
    }

    lemma RootLeaf(s: set<RbNode>)
      requires Focus(s, Root, tree)
      ensures root == null <==> tree.Leaf?
    {
    }

    /** rb_set_black(tree->root) */
    method BlackenRoot(ghost s: set<RbNode>)
      requires Focus(s, Root, tree) && root != null && RedBlack(tree)
      modifies this`tree, s`color
      ensures Focus(s, Root, tree) && Balanced(tree) && Inorder(tree) == old(Inorder(tree))
    {
      SetColor(root, Black, s, Root, tree);
      tree := tree.(color := Black);
    }

    // ----- insertion -----

    method Recolor(g: RbNode, p: RbNode, u: RbNode, ghost s: set<RbNode>, ghost up: Path, ghost e: Side, ghost pt: Tree,
        ghost ut: Tree)
      requires pt.Fork? && pt.node == p && ut.Fork? && ut.node == u
      requires Focus(s, up, Make(e, pt, g, Black, ut))
      modifies g`color, p`color, u`color
      ensures Focus(s, up, Make(e, pt.(color := Black), g, Red, ut.(color := Black)))
    {
      SetColor(g, Red, s, up, Make(e, pt, g, Black, ut));
      Ascend(s, e, up, pt, g, Red, ut);
      SetColor(p, Black, s, Step(e, up, g, Red, ut), pt);
      Ascend(s, e, up, pt.(color := Black), g, Red, ut);
      Ascend(s, Other(e), up, ut, g, Red, pt.(color := Black));
      SetColor(u, Black, s, Step(Other(e), up, g, Red, pt.(color := Black)), ut);
      Ascend(s, Other(e), up, ut.(color := Black), g, Red, pt.(color := Black));
    }

    /** After the last rotation: p turns black and its child g on side `d` turns red. */
    method InsertRecolor(p: RbNode, g: RbNode, ghost s: set<RbNode>, ghost up: Path, ghost t: Tree, ghost d: Side)
      returns (ghost r: Tree)
      requires Focus(s, up, t) && t.Fork? && t.node == p
      requires if d.Left? then t.left.Fork? && t.left.node == g else t.right.Fork? && t.right.node == g
      modifies p`color, g`color
      ensures r == if d.Left? then Fork(t.left.(color := Red), p, Black, t.right)
                else Fork(t.left, p, Black, t.right.(color := Red))
      ensures Focus(s, up, r) && Inorder(r) == Inorder(t)
    {
      SetColor(p, Black, s, up, t);
      ghost var near := if d.Left? then t.left else t.right;
      ghost var far := if d.Left? then t.right else t.left;
      Ascend(s, d, up, near, p, Black, far);
      SetColor(g, Red, s, Step(d, up, p, Black, far), near);
      Ascend(s, d, up, near.(color := Red), p, Black, far);
      r := Make(d, near.(color := Red), p, Black, far);
    }

    /** The parent is a left child: a red inner grandchild is rotated to the outer side. */
    method MakeOuterLeft(node: RbNode, parent: RbNode, ghost s: set<RbNode>, ghost kg: Path, ghost d: Side,
        ghost sib: Tree, ghost t: Tree)
      returns (p: RbNode)
      requires t.Fork? && t.node == node && Focus(s, Step(d, kg, parent, Red, sib), t)
      modifies this`root, s`left, s`right, s`parent
      ensures var o := Outer(d, Left, t, parent, sib);
        Focus(s, kg, o) && o.node == p && Sequence(kg, o) == Sequence(Step(d, kg, parent, Red, sib), t)
    {
      p := parent;
      ghost var pt := Make(d, t, p, Red, sib);
      Fields(s, Step(d, kg, p, Red, sib), t);
      Ascend(s, d, kg, t, p, Red, sib);
      if node == p.right {
        RotateLeft(p, s, kg, pt);
        TurnedInorder(pt, Left);
        p := node;
      }
    }

    /** The outer grandchild is red and the uncle black: one rotation ends the insertion. */
    method InsertRotateRight(p: RbNode, g: RbNode, ghost s: set<RbNode>, ghost up: Path, ghost o: Tree, ghost u: Tree)
      returns (ghost r: Tree)
      requires o.Fork? && o.node == p && Focus(s, Step(Left, up, g, Black, u), o)
      modifies this`root, s`left, s`right, s`parent, p`color, g`color
      ensures r == Make(Left, o.left, p, Black, Make(Left, o.right, g, Red, u))
      ensures Focus(s, up, r) && Sequence(up, r) == Sequence(Step(Left, up, g, Black, u), o)
    {
      Ascend(s, Left, up, o, g, Black, u);
      ghost var gt := Make(Left, o, g, Black, u);
      RotateRight(g, s, up, gt);
      TurnedInorder(gt, Right);
      r := InsertRecolor(p, g, s, up, Turned(gt, Right), Right);
    }

    /** The parent is a right child: a red inner grandchild is rotated to the outer side. */
    method MakeOuterRight(node: RbNode, parent: RbNode, ghost s: set<RbNode>, ghost kg: Path, ghost d: Side,
        ghost sib: Tree, ghost t: Tree)
      returns (p: RbNode)
      requires t.Fork? && t.node == node && Focus(s, Step(d, kg, parent, Red, sib), t)
      modifies this`root, s`right, s`left, s`parent
      ensures var o := Outer(d, Right, t, parent, sib);
        Focus(s, kg, o) && o.node == p && Sequence(kg, o) == Sequence(Step(d, kg, parent, Red, sib), t)
    {
      p := parent;
      ghost var pt := Make(d, t, p, Red, sib);
      Fields(s, Step(d, kg, p, Red, sib), t);
      Ascend(s, d, kg, t, p, Red, sib);
      if node == p.left {
        RotateRight(p, s, kg, pt);
        TurnedInorder(pt, Right);
        p := node;
      }
    }

    /** The outer grandchild is red and the uncle black: one rotation ends the insertion. */
    method InsertRotateLeft(p: RbNode, g: RbNode, ghost s: set<RbNode>, ghost up: Path, ghost o: Tree, ghost u: Tree)
      returns (ghost r: Tree)
      requires o.Fork? && o.node == p && Focus(s, Step(Right, up, g, Black, u), o)
      modifies this`root, s`right, s`left, s`parent, p`color, g`color
      ensures r == Make(Right, o.right, p, Black, Make(Right, o.left, g, Red, u))
      ensures Focus(s, up, r) && Sequence(up, r) == Sequence(Step(Right, up, g, Black, u), o)
    {
      Ascend(s, Right, up, o, g, Black, u);
      ghost var gt := Make(Right, o, g, Black, u);
      RotateLeft(g, s, up, gt);
      TurnedInorder(gt, Left);
      r := InsertRecolor(p, g, s, up, Turned(gt, Left), Left);
    }


    /** One pass of the insertion loop below a left child p.  `more` tells that the loop goes on. */
    method InsertBelowLeft(n: RbNode, p: RbNode, g: RbNode, ghost s: set<RbNode>, ghost d: Side, ghost up: Path,
        ghost sib: Tree, ghost u: Tree, ghost t: Tree)
      returns (more: bool, n': RbNode, p': RbNode?, ghost t': Tree)
      requires t.Fork? && t.node == n
      requires var k := Step(d, Step(Left, up, g, Black, u), p, Red, sib); Focus(s, k, t) && InsertInvariant(k, t)
      modifies this`root, s`left, s`right, s`parent, s`color
      ensures Focus(s, up, t') && Sequence(up, t') == Sequence(Step(d, Step(Left, up, g, Black, u), p, Red, sib), t)
      ensures more ==> t'.Fork? && t'.node == n' && p' == Above(up) && InsertInvariant(up, t')
      ensures !more ==> RedBlack(Plug(up, t'))
    {
      hide At;
      hide Sequence;
      ghost var kg, pt := Step(Left, up, g, Black, u), Make(d, t, p, Red, sib);
      Ascend(s, d, kg, t, p, Red, sib);
      Fields(s, kg, pt);
      var r := g.right;
      if RedNode(r) {
        Ascend(s, Left, up, pt, g, Black, u);
        Recolor(g, p, r, s, up, Left, pt, u);
        RecolorStep(d, Left, up, g, p, t, sib, u);
        RecolorSequence(up, Left, pt, g, u);
        t' := Make(Left, pt.(color := Black), g, Red, u.(color := Black));
        Fields(s, up, t');
        return true, g, g.parent, t';
      }
      InsertRotateBalance(d, Left, up, g, p, t, sib, u);
      p' := MakeOuterLeft(n, p, s, kg, d, sib, t);
      t' := InsertRotateRight(p', g, s, up, Outer(d, Left, t, p, sib), u);
      return false, n, p', t';
    }

    /** One pass of the insertion loop below a right child p.  `more` tells that the loop goes on. */
    method InsertBelowRight(n: RbNode, p: RbNode, g: RbNode, ghost s: set<RbNode>, ghost d: Side, ghost up: Path,
        ghost sib: Tree, ghost u: Tree, ghost t: Tree)
      returns (more: bool, n': RbNode, p': RbNode?, ghost t': Tree)
      requires t.Fork? && t.node == n
      requires var k := Step(d, Step(Right, up, g, Black, u), p, Red, sib); Focus(s, k, t) && InsertInvariant(k, t)
      modifies this`root, s`right, s`left, s`parent, s`color
      ensures Focus(s, up, t') && Sequence(up, t') == Sequence(Step(d, Step(Right, up, g, Black, u), p, Red, sib), t)
      ensures more ==> t'.Fork? && t'.node == n' && p' == Above(up) && InsertInvariant(up, t')
      ensures !more ==> RedBlack(Plug(up, t'))
    {
      hide At;
      hide Sequence;
      ghost var kg, pt := Step(Right, up, g, Black, u), Make(d, t, p, Red, sib);
      Ascend(s, d, kg, t, p, Red, sib);
      Fields(s, kg, pt);
      var r := g.left;
      if RedNode(r) {
        Ascend(s, Right, up, pt, g, Black, u);
        Recolor(g, p, r, s, up, Right, pt, u);
        RecolorStep(d, Right, up, g, p, t, sib, u);
        RecolorSequence(up, Right, pt, g, u);
        t' := Make(Right, pt.(color := Black), g, Red, u.(color := Black));
        Fields(s, up, t');
        return true, g, g.parent, t';
      }
      InsertRotateBalance(d, Right, up, g, p, t, sib, u);
      p' := MakeOuterRight(n, p, s, kg, d, sib, t);
      t' := InsertRotateLeft(p', g, s, up, Outer(d, Right, t, p, sib), u);
      return false, n, p', t';
    }

    /** rb_insert: `node` has just been linked, red and without children, into the hole of k0. */
    method Insert(node: RbNode, ghost s: set<RbNode>, ghost k0: Path)
      requires Focus(s, k0, Fork(Leaf, node, Red, Leaf)) && InsertInvariant(k0, Fork(Leaf, node, Red, Leaf))
      modifies this, s`left, s`right, s`parent, s`color
      ensures Valid() && nodes <= s && Inorder(tree) == Sequence(k0, Fork(Leaf, node, Red, Leaf))
    {
      hide At;
      hide Sequence;
      ghost var k, t := k0, Fork(Leaf, node, Red, Leaf);
      Fields(s, k, t);
      var n, p := node, node.parent;
      var more := true;
      while RedNode(p)
        invariant Focus(s, k, t) && t.Fork? && t.node == n && p == Above(k)
        invariant InsertInvariant(k, t)
        invariant Sequence(k, t) == Sequence(k0, Fork(Leaf, node, Red, Leaf))
        decreases Depth(k)
      {
        Fields(s, k, t);
        GrandparentExists(k, t);
        Ascend(s, k.side, k.up, t, p, Red, k.sibling);
        Fields(s, k.up, Make(k.side, t, p, Red, k.sibling));
        var g := p.parent;
        if p == g.left {
          more, n, p, t := InsertBelowLeft(n, p, g, s, k.side, k.up.up, k.sibling, k.up.sibling, t);
        } else {
          more, n, p, t := InsertBelowRight(n, p, g, s, k.side, k.up.up, k.sibling, k.up.sibling, t);
        }
        assert Depth(k.up.up) < Depth(k);
        k := k.up.up;
        if !more {
          break;
        }
      }
      Fields(s, k, t);
      PlugBalance(k, t);
      Finish(s, k, t);
    }

    // ----- erasure -----

    method SetSiblingColor(b: RbNode, c: Color, ghost s: set<RbNode>, ghost k: Path, ghost t: Tree)
      requires Focus(s, k, t) && k.Step? && Ptr(k.sibling) == b
      modifies b`color
      ensures Focus(s, k.(sibling := k.sibling.(color := c)), t)
      ensures Sequence(k.(sibling := k.sibling.(color := c)), t) == Sequence(k, t)
    {
      hide At;
      Ascend(s, k.side, k.up, t, k.node, k.color, k.sibling);
      Ascend(s, Other(k.side), k.up, k.sibling, k.node, k.color, t);
      SetColor(b, c, s, Step(Other(k.side), k.up, k.node, k.color, t), k.sibling);
      Ascend(s, Other(k.side), k.up, k.sibling.(color := c), k.node, k.color, t);
      Ascend(s, k.side, k.up, t, k.node, k.color, k.sibling.(color := c));
    }

    method SetParentColor(p: RbNode, c: Color, ghost s: set<RbNode>, ghost k: Path, ghost t: Tree)
      requires Focus(s, k, t) && k.Step? && k.node == p
      modifies p`color
      ensures Focus(s, k.(color := c), t) && Sequence(k.(color := c), t) == Sequence(k, t)
    {
      Ascend(s, k.side, k.up, t, p, k.color, k.sibling);
      SetColor(p, c, s, k.up, Make(k.side, t, p, k.color, k.sibling));
      Ascend(s, k.side, k.up, t, p, c, k.sibling);
    }

    /** Colours the child on side `e` of the sibling. */
    method SetNephewColor(b: RbNode, c: Color, ghost s: set<RbNode>, ghost e: Side, ghost k: Path, ghost t: Tree)
      requires Focus(s, k, t) && k.Step? && k.sibling.Fork? && Sub(k.sibling, e).Fork? && Sub(k.sibling, e).node == b
      modifies b`color
      ensures var k' := k.(sibling := WithNephew(k.sibling, e, c)); Focus(s, k', t) && Sequence(k', t) == Sequence(k, t)
    {
      hide At;
      ghost var sib := k.sibling;
      ghost var ks := Step(Other(k.side), k.up, k.node, k.color, t);
      ghost var near, far := Sub(sib, e), Sub(sib, Other(e));
      Ascend(s, k.side, k.up, t, k.node, k.color, sib);
      Ascend(s, Other(k.side), k.up, sib, k.node, k.color, t);
      Ascend(s, e, ks, near, sib.node, sib.color, far);
      SetColor(b, c, s, Step(e, ks, sib.node, sib.color, far), near);
      Ascend(s, e, ks, near.(color := c), sib.node, sib.color, far);
      sib := Make(e, near.(color := c), sib.node, sib.color, far);
      Ascend(s, Other(k.side), k.up, sib, k.node, k.color, t);
      Ascend(s, k.side, k.up, t, k.node, k.color, sib);
      NephewSequence(k, e, c, t);
    }

    method RotateParentLeft(p: RbNode, ghost s: set<RbNode>, ghost k: Path, ghost t: Tree)
      requires Focus(s, k, t) && k.Step? && k.side.Left? && k.node == p && k.sibling.Fork?
      modifies this`root, s`left, s`right, s`parent
      ensures Focus(s, Lowered(k), t) && Sequence(Lowered(k), t) == Sequence(k, t)
    {
      hide At;
      ghost var b := k.sibling;
      ghost var pt := Make(Left, t, p, k.color, b);
      Ascend(s, Left, k.up, t, p, k.color, b);
      RotateLeft(p, s, k.up, pt);
      TurnedInorder(pt, Left);
      Ascend(s, Left, k.up, Make(Left, t, p, k.color, b.left), b.node, b.color, b.right);
      Ascend(s, Left, Step(Left, k.up, b.node, b.color, b.right), t, p, k.color, b.left);
    }

    method RotateSiblingRight(b: RbNode, ghost s: set<RbNode>, ghost k: Path, ghost t: Tree)
      requires Focus(s, k, t) && k.Step? && k.side.Left? && Ptr(k.sibling) == b && CanTurn(k.sibling, Right)
      modifies this`root, s`left, s`right, s`parent
      ensures var k' := k.(sibling := Turned(k.sibling, Right)); Focus(s, k', t) && Sequence(k', t) == Sequence(k, t)
    {
      hide At;
      ghost var ks := Step(Right, k.up, k.node, k.color, t);
      ghost var sib := Turned(k.sibling, Right);
      Ascend(s, Left, k.up, t, k.node, k.color, k.sibling);
      Ascend(s, Right, k.up, k.sibling, k.node, k.color, t);
      RotateRight(b, s, ks, k.sibling);
      TurnedInorder(k.sibling, Right);
      Ascend(s, Right, k.up, sib, k.node, k.color, t);
      Ascend(s, Left, k.up, t, k.node, k.color, sib);
    }

    /** Below a left child's parent: a red sibling is replaced by a black one. */
    method BlackSiblingLeft(parent: RbNode, ghost s: set<RbNode>, ghost k0: Path, ghost t: Tree)
      returns (b: RbNode, ghost k: Path)
      requires Focus(s, k0, t) && k0.Step? && k0.side.Left? && k0.node == parent && EraseInvariant(k0, t) && !IsRed(t)
      modifies this`root, s`left, s`right, s`parent, s`color
      ensures Focus(s, k, t) && Sequence(k, t) == Sequence(k0, t) && EraseInvariant(k, t)
      ensures k.Step? && k.side.Left? && k.node == parent && k.sibling.Fork? && k.sibling.node == b
                && k.sibling.color.Black?
      ensures k == k0 || (k.color.Red? && Depth(k) == Depth(k0) + 1)
    {
      hide At;
      hide Sequence;
      k := k0;
      SiblingExists(k, t);
      Fields(s, k, t);
      b := parent.right;
      if RedNode(b) {
        ghost var sib := k.sibling;
        RedSiblingStep(Left, k.up, parent, k.color, t, b, sib.left, sib.right);
        SetSiblingColor(b, Black, s, k, t);
        k := k.(sibling := sib.(color := Black));
        SetParentColor(parent, Red, s, k, t);
        k := k.(color := Red);
        RotateParentLeft(parent, s, k, t);
        k := Lowered(k);
        Fields(s, k, t);
        b := parent.right;
      }
    }

    method RotateParentRight(p: RbNode, ghost s: set<RbNode>, ghost k: Path, ghost t: Tree)
      requires Focus(s, k, t) && k.Step? && k.side.Right? && k.node == p && k.sibling.Fork?
      modifies this`root, s`right, s`left, s`parent
      ensures Focus(s, Lowered(k), t) && Sequence(Lowered(k), t) == Sequence(k, t)
    {
      hide At;
      ghost var b := k.sibling;
      ghost var pt := Make(Right, t, p, k.color, b);
      Ascend(s, Right, k.up, t, p, k.color, b);
      RotateRight(p, s, k.up, pt);
      TurnedInorder(pt, Right);
      Ascend(s, Right, k.up, Make(Right, t, p, k.color, b.right), b.node, b.color, b.left);
      Ascend(s, Right, Step(Right, k.up, b.node, b.color, b.left), t, p, k.color, b.right);
    }

    method RotateSiblingLeft(b: RbNode, ghost s: set<RbNode>, ghost k: Path, ghost t: Tree)
      requires Focus(s, k, t) && k.Step? && k.side.Right? && Ptr(k.sibling) == b && CanTurn(k.sibling, Left)
      modifies this`root, s`right, s`left, s`parent
      ensures var k' := k.(sibling := Turned(k.sibling, Left)); Focus(s, k', t) && Sequence(k', t) == Sequence(k, t)
    {
      hide At;
      ghost var ks := Step(Left, k.up, k.node, k.color, t);
      ghost var sib := Turned(k.sibling, Left);
      Ascend(s, Right, k.up, t, k.node, k.color, k.sibling);
      Ascend(s, Left, k.up, k.sibling, k.node, k.color, t);
      RotateLeft(b, s, ks, k.sibling);
      TurnedInorder(k.sibling, Left);
      Ascend(s, Left, k.up, sib, k.node, k.color, t);
      Ascend(s, Right, k.up, t, k.node, k.color, sib);
    }

    /** Below a right child's parent: a red sibling is replaced by a black one. */
    method BlackSiblingRight(parent: RbNode, ghost s: set<RbNode>, ghost k0: Path, ghost t: Tree)
      returns (b: RbNode, ghost k: Path)
      requires Focus(s, k0, t) && k0.Step? && k0.side.Right? && k0.node == parent && EraseInvariant(k0, t) && !IsRed(t)
      modifies this`root, s`right, s`left, s`parent, s`color
      ensures Focus(s, k, t) && Sequence(k, t) == Sequence(k0, t) && EraseInvariant(k, t)
      ensures k.Step? && k.side.Right? && k.node == parent && k.sibling.Fork? && k.sibling.node == b
                && k.sibling.color.Black?
      ensures k == k0 || (k.color.Red? && Depth(k) == Depth(k0) + 1)
    {
      hide At;
      hide Sequence;
      k := k0;
      SiblingExists(k, t);
      Fields(s, k, t);
      b := parent.left;
      if RedNode(b) {
        ghost var sib := k.sibling;
        RedSiblingStep(Right, k.up, parent, k.color, t, b, sib.right, sib.left);
        SetSiblingColor(b, Black, s, k, t);
        k := k.(sibling := sib.(color := Black));
        SetParentColor(parent, Red, s, k, t);
        k := k.(color := Red);
        RotateParentRight(parent, s, k, t);
        k := Lowered(k);
        Fields(s, k, t);
        b := parent.left;
      }
    }

    /** The fields one level below the sibling. */
    lemma NephewFields(s: set<RbNode>, k: Path, t: Tree)
      requires Focus(s, k, t) && k.Step? && k.sibling.Fork?
      ensures k.sibling.left.Fork? ==> k.sibling.left.node in s
      ensures k.sibling.right.Fork? ==> k.sibling.right.node in s
      ensures k.sibling.node.left == Ptr(k.sibling.left) && k.sibling.node.right == Ptr(k.sibling.right)
      ensures RedNode(Ptr(k.sibling.left)) == IsRed(k.sibling.left)
                && RedNode(Ptr(k.sibling.right)) == IsRed(k.sibling.right)
    {
      var b := k.sibling;
      assert Realises(Snap(s), b, k.node);
      assert Realises(Snap(s), b.left, b.node) && Realises(Snap(s), b.right, b.node);
      assert Nodes(b) <= PathNodes(k) && Nodes(b.left) <= Nodes(b) && Nodes(b.right) <= Nodes(b);
      assert b.left.Fork? ==> b.left.node in Nodes(b.left);
      assert b.right.Fork? ==> b.right.node in Nodes(b.right);
    }

    /** A black sibling with a red child on some side: at most two rotations end the erasure below a left child's
        parent. */
    method EraseRotateLeft(b0: RbNode, parent: RbNode, ghost s: set<RbNode>, ghost k0: Path, ghost t: Tree)
      returns (ghost k: Path)
      requires Focus(s, k0, t) && k0.Step? && k0.side.Left? && k0.node == parent && EraseInvariant(k0, t) && !IsRed(t)
      requires k0.sibling.Fork? && k0.sibling.node == b0 && k0.sibling.color.Black?
      requires IsRed(k0.sibling.left) || IsRed(k0.sibling.right)
      modifies this`root, s`left, s`right, s`parent, s`color
      ensures Focus(s, k, t) && Sequence(k, t) == Sequence(k0, t) && RedBlack(Plug(k, t))
    {
      hide At;
      hide Sequence;
      k := k0;
      var b := b0;
      NephewFields(s, k, t);
      if !RedNode(b.right) {
        ghost var sib := k.sibling;
        NearNephewStep(Left, k.up, parent, k.color, t, b, sib.left.node, sib.left.left, sib.left.right, sib.right);
        SetNephewColor(b.left, Black, s, Left, k, t);
        k := k.(sibling := WithNephew(sib, Left, Black));
        SetSiblingColor(b, Red, s, k, t);
        k := k.(sibling := k.sibling.(color := Red));
        RotateSiblingRight(b, s, k, t);
        k := k.(sibling := Turned(k.sibling, Right));
        Fields(s, k, t);
        b := parent.right;
      }
      ghost var sib := k.sibling;
      FarNephewStep(Left, k.up, parent, k.color, t, b, sib.left, sib.right);
      Fields(s, k, t);
      SetSiblingColor(b, parent.color, s, k, t);
      k := k.(sibling := k.sibling.(color := k.color));
      SetParentColor(parent, Black, s, k, t);
      k := k.(color := Black);
      NephewFields(s, k, t);
      if b.right != null {
        SetNephewColor(b.right, Black, s, Right, k, t);
        k := k.(sibling := WithNephew(k.sibling, Right, Black));
      }
      RotateParentLeft(parent, s, k, t);
      k := Lowered(k);
    }

    /** A black sibling with a red child on some side: at most two rotations end the erasure below a right child's
        parent. */
    method EraseRotateRight(b0: RbNode, parent: RbNode, ghost s: set<RbNode>, ghost k0: Path, ghost t: Tree)
      returns (ghost k: Path)
      requires Focus(s, k0, t) && k0.Step? && k0.side.Right? && k0.node == parent && EraseInvariant(k0, t) && !IsRed(t)
      requires k0.sibling.Fork? && k0.sibling.node == b0 && k0.sibling.color.Black?
      requires IsRed(k0.sibling.right) || IsRed(k0.sibling.left)
      modifies this`root, s`right, s`left, s`parent, s`color
      ensures Focus(s, k, t) && Sequence(k, t) == Sequence(k0, t) && RedBlack(Plug(k, t))
    {
      hide At;
      hide Sequence;
      k := k0;
      var b := b0;
      NephewFields(s, k, t);
      if !RedNode(b.left) {
        ghost var sib := k.sibling;
        NearNephewStep(Right, k.up, parent, k.color, t, b, sib.right.node, sib.right.right, sib.right.left, sib.left);
        SetNephewColor(b.right, Black, s, Right, k, t);
        k := k.(sibling := WithNephew(sib, Right, Black));
        SetSiblingColor(b, Red, s, k, t);
        k := k.(sibling := k.sibling.(color := Red));
        RotateSiblingLeft(b, s, k, t);
        k := k.(sibling := Turned(k.sibling, Left));
        Fields(s, k, t);
        b := parent.left;
      }
      ghost var sib := k.sibling;
      FarNephewStep(Right, k.up, parent, k.color, t, b, sib.right, sib.left);
      Fields(s, k, t);
      SetSiblingColor(b, parent.color, s, k, t);
      k := k.(sibling := k.sibling.(color := k.color));
      SetParentColor(parent, Black, s, k, t);
      k := k.(color := Black);
      NephewFields(s, k, t);
      if b.left != null {
        SetNephewColor(b.left, Black, s, Left, k, t);
        k := k.(sibling := WithNephew(k.sibling, Left, Black));
      }
      RotateParentRight(parent, s, k, t);
      k := Lowered(k);
    }

    /** One pass of the erasure loop for a left child.  `more` tells that the loop goes on. */
    method EraseBelowLeft(parent: RbNode, ghost s: set<RbNode>, ghost k0: Path, ghost t: Tree)
      returns (more: bool, child: RbNode?, p: RbNode?, ghost k: Path, ghost t': Tree)
      requires Focus(s, k0, t) && k0.Step? && k0.side.Left? && k0.node == parent && EraseInvariant(k0, t) && !IsRed(t)
      modifies this`root, s`left, s`right, s`parent, s`color
      ensures Focus(s, k, t') && Sequence(k, t') == Sequence(k0, t)
      ensures more ==> child == Ptr(t') && p == Above(k) && EraseInvariant(k, t') && Debt(k, t') < Debt(k0, t)
      ensures !more ==> RedBlack(Plug(k, t'))
    {
      hide At;
      hide Sequence;
      var b;
      b, k := BlackSiblingLeft(parent, s, k0, t);
      t' := t;
      NephewFields(s, k, t);
      if !RedNode(b.left) && !RedNode(b.right) {
        BlackSiblingStep(Left, k.up, parent, k.color, t, k.sibling);
        SetSiblingColor(b, Red, s, k, t);
        k := k.(sibling := k.sibling.(color := Red));
        Ascend(s, Left, k.up, t, parent, k.color, k.sibling);
        t', k := Make(Left, t, parent, k.color, k.sibling), k.up;
        Fields(s, k, t');
        return true, parent, parent.parent, k, t';
      }
      k := EraseRotateLeft(b, parent, s, k, t);
      return false, root, null, k, t;
    }

    /** One pass of the erasure loop for a right child.  `more` tells that the loop goes on. */
    method EraseBelowRight(parent: RbNode, ghost s: set<RbNode>, ghost k0: Path, ghost t: Tree)
      returns (more: bool, child: RbNode?, p: RbNode?, ghost k: Path, ghost t': Tree)
      requires Focus(s, k0, t) && k0.Step? && k0.side.Right? && k0.node == parent && EraseInvariant(k0, t) && !IsRed(t)
      modifies this`root, s`right, s`left, s`parent, s`color
      ensures Focus(s, k, t') && Sequence(k, t') == Sequence(k0, t)
      ensures more ==> child == Ptr(t') && p == Above(k) && EraseInvariant(k, t') && Debt(k, t') < Debt(k0, t)
      ensures !more ==> RedBlack(Plug(k, t'))
    {
      hide At;
      hide Sequence;
      var b;
      b, k := BlackSiblingRight(parent, s, k0, t);
      t' := t;
      NephewFields(s, k, t);
      if !RedNode(b.right) && !RedNode(b.left) {
        BlackSiblingStep(Right, k.up, parent, k.color, t, k.sibling);
        SetSiblingColor(b, Red, s, k, t);
        k := k.(sibling := k.sibling.(color := Red));
        Ascend(s, Right, k.up, t, parent, k.color, k.sibling);
        t', k := Make(Right, t, parent, k.color, k.sibling), k.up;
        Fields(s, k, t');
        return true, parent, parent.parent, k, t';
      }
      k := EraseRotateRight(b, parent, s, k, t);
      return false, root, null, k, t;
    }

    lemma RootFocus(s: set<RbNode>, k: Path, t: Tree)
      requires Focus(s, k, t)
      ensures Ptr(t) == root <==> k.Root?
    {
      TopNode(k, Ptr(t));
      assert t.Fork? ==> t.node in Nodes(t);
    }

    /** rb_erase_fix: the subtree `t` of `child` is one black node short. */
    method EraseFix(child0: RbNode?, parent0: RbNode?, ghost s: set<RbNode>, ghost k0: Path, ghost t0: Tree)
      requires Focus(s, k0, t0) && child0 == Ptr(t0) && parent0 == Above(k0) && EraseInvariant(k0, t0)
      modifies this, s`left, s`right, s`parent, s`color
      ensures Valid() && nodes <= s && Inorder(tree) == Sequence(k0, t0)
    {
      hide At;
      hide Sequence;
      var child, parent, more := child0, parent0, true;
      ghost var k, t := k0, t0;
      Fields(s, k, t);
      RootFocus(s, k, t);
      while !RedNode(child) && child != root
        invariant Focus(s, k, t) && child == Ptr(t) && parent == Above(k) && EraseInvariant(k, t)
        invariant RedNode(child) == IsRed(t) && (child == root <==> k.Root?)
        invariant Sequence(k, t) == Sequence(k0, t0)
        decreases Debt(k, t)
      {
        Fields(s, k, t);
        if child == parent.left {
          more, child, parent, k, t := EraseBelowLeft(parent, s, k, t);
        } else {
          more, child, parent, k, t := EraseBelowRight(parent, s, k, t);
        }
        if !more {
          break;
        }
        Fields(s, k, t);
        RootFocus(s, k, t);
      }
      if !more {
        Finish(s, k, t);
      } else {
        Settle(child, s, k, t);
      }
    }

    /** The last statement of rb_erase_fix, when the loop has run to its end. */
    method Settle(child: RbNode?, ghost s: set<RbNode>, ghost k: Path, ghost t: Tree)
      requires Focus(s, k, t) && child == Ptr(t) && EraseInvariant(k, t) && (IsRed(t) || k.Root?)
      modifies this`tree, this`nodes, s`color
      ensures Valid() && nodes <= s && Inorder(tree) == Sequence(k, t)
    {
      hide At;
      ghost var t' := t;
      if child != null {
        SetColor(child, Black, s, k, t);
        t' := t.(color := Black);
        assert Inorder(t') == Inorder(t);
      }
      if IsRed(t) {
        BlackenChild(k, t);
      }
      PlugBalance(k, t');
      WholeTree(s, k, t');
      tree := Plug(k, t');
      OwnNodes(s, tree);
      nodes := Nodes(tree);
    }

    // ----- taking a node out -----

    /** __rb_leftmost, for a subtree that is not empty */
    method LeftmostOf(node: RbNode, ghost s: set<RbNode>, ghost k0: Path, ghost t0: Tree)
      returns (n: RbNode)
      requires Focus(s, k0, t0) && t0.Fork? && t0.node == node
      ensures n == LeftEnd(t0).node
    {
      hide At;
      n := node;
      ghost var k, t := k0, t0;
      Fields(s, k, t);
      while n.left != null
        invariant Focus(s, k, t) && t.Fork? && t.node == n && n.left == Ptr(t.left)
        invariant LeftEnd(t) == LeftEnd(t0)
        decreases t
      {
        Ascend(s, Left, k, t.left, t.node, t.color, t.right);
        k, t := Step(Left, k, t.node, t.color, t.right), t.left;
        n := n.left;
        Fields(s, k, t);
      }
    }

    /** Redirects the links of a node without two children to its child, as the second branch of rb_erase does. */
    method SpliceOut(node: RbNode, ghost s: set<RbNode>, ghost k: Path, ghost t: Tree)
      returns (c: RbNode?, p: RbNode?, ghost t': Tree)
      requires Focus(s, k, t) && t.Fork? && t.node == node && (t.left.Leaf? || t.right.Leaf?)
      modifies this`root, s`left, s`right, s`parent
      ensures t' == if t.left.Leaf? then t.right else t.left
      ensures Focus(s, k, t') && c == Ptr(t') && p == Above(k)
    {
      Fields(s, k, t);
      ghost var m := Snap(s);
      t' := if t.left.Leaf? then t.right else t.left;
      UnlinkAt(m, k, t, t');
      p := node.parent;
      c := if node.left != null then node.left else node.right;
      assert c != null ==> c in Nodes(t');
      if c != null {
        SetParent(c, p, s);
      }
      ReplaceChild(node.parent, node, c, s, k);
      assert Snap(s) == Unlinked(m, k, c);
    }

    /** The successor is the right child itself: it keeps its own right subtree. */
    method NearSuccessor(node: RbNode, x: RbNode, ghost s: set<RbNode>, ghost k: Path)
      requires Hangs(Snap(s), k, node, x) && x in s && x != node && node.left != null
                 && node.left in s - {node, x, Above(k)}
      modifies this`root, s`left, s`right, s`parent, s`color
      ensures Snap(s) == NearLinks(old(Snap(s)), k, node, x)
      ensures root == if k.Root? then x else old(root)
    {
      SetLeft(x, node.left, s);
      SetParent(x, node.parent, s);
      PaintOnly(x, node.color, s);
      SetParent(x.left, x, s);
      ReplaceChild(node.parent, node, x, s, k);
    }

    /** The successor lies deeper: it is unlinked there and takes over all links of `node`. */
    method FarSuccessor(node: RbNode, x: RbNode, ghost s: set<RbNode>, ghost k: Path)
      returns (p: RbNode)
      requires Hangs(Snap(s), k, node, x) && x in s && x != node
      requires x.parent != null && x.parent in s - {x, node, Above(k)}
                 && (x.right != null ==> x.right in s - {x, node, Above(k)})
      requires node.left != null && node.left in s - {node, x, Above(k)}
      requires node.right != null && node.right in s - {node, x, Above(k)}
      modifies this`root, s`left, s`right, s`parent, s`color
      ensures p == old(x.parent)
      ensures Snap(s) == FarLinks(old(Snap(s)), k, node, x)
      ensures root == if k.Root? then x else old(root)
    {
      p := FarTake(node, x, s);
      assert k.Step? ==> Snap(s)[k.node] == old(Snap(s))[k.node];
      hide FarTaken;
      ReplaceChild(node.parent, node, x, s, k);
    }

    method FarTake(node: RbNode, x: RbNode, ghost s: set<RbNode>) returns (p: RbNode)
      requires node in s && x in s && x != node && x.parent != null && x.parent in s - {x, node}
      requires x.right != null ==> x.right in s - {x, node}
      requires node.left != null && node.left in s - {node, x} && node.right != null && node.right in s - {node, x}
      modifies s`left, s`right, s`parent, s`color
      ensures p == old(x.parent) && Snap(s) == FarTaken(old(Snap(s)), node, x)
      ensures node.parent == old(node.parent)
    {
      var c := x.right;
      p := x.parent;
      CopyLinks(x, node, s);
      SetLeft(p, c, s);
      if c != null {
        SetParent(c, p, s);
      }
      assert x.left == Snap(s)[x].left && x.right == Snap(s)[x].right;
      SetParent(x.left, x, s);
      assert x.right == Snap(s)[x].right;
      SetParent(x.right, x, s);
    }

    lemma HangsFrom(s: set<RbNode>, k: Path, t: Tree)
      requires Focus(s, k, t) && t.Fork?
      ensures forall x | x in Nodes(t) :: Hangs(Snap(s), k, t.node, x)
    {
      assert t.node in Nodes(t);
      assert k.Step? && k.sibling.Fork? ==> k.sibling.node in Nodes(k.sibling);
    }

    /** The nodes that the first branch of rb_erase touches. */
    lemma SuccessorFacts(s: set<RbNode>, k: Path, t: Tree)
      requires Focus(s, k, t) && t.Fork? && t.left.Fork? && t.right.Fork?
      ensures var x, e := LeftEnd(t.right).node, LeftEnd(t.right);
        && x in Nodes(t) && x in s && x != t.node && x.right == Ptr(e.right) && x.color == e.color
        && t.node.left == t.left.node && t.left.node in s - {t.node, x, Above(k)}
        && t.node.right == t.right.node && (x == t.right.node <==> t.right.left.Leaf?)
        && (t.right.left.Fork? ==>
              && t.right.node in s - {t.node, x, Above(k)}
              && x.parent == Above(SuccessorPath(k, t)) && x.parent in s - {x, t.node, Above(k)}
              && (x.right != null ==> x.right in s - {x, t.node, Above(k)}))
    {
      var m := Snap(s);
      SuccessorNodes(k, t);
      if t.right.left.Leaf? {
        NearFacts(m, k, t);
      } else {
        FarFacts(m, k, t);
      }
    }

    /** The first branch of rb_erase: the in-order successor moves into the place of `node`. */
    method SpliceSuccessor(node: RbNode, ghost s: set<RbNode>, ghost k: Path, ghost t: Tree)
      returns (c: RbNode?, p: RbNode?, color: Color)
      requires Focus(s, k, t) && t.Fork? && t.node == node && t.left.Fork? && t.right.Fork?
      modifies this`root, s`left, s`right, s`parent, s`color
      ensures Focus(s, SuccessorPath(k, t), LeftEnd(t.right).right)
      ensures c == Ptr(LeftEnd(t.right).right) && p == Above(SuccessorPath(k, t)) && color == LeftEnd(t.right).color
    {
      hide At;
      hide NearLinks;
      hide FarLinks;
      hide SuccessorLinks;
      ghost var m := Snap(s);
      Fields(s, k, t);
      HangsFrom(s, k, t);
      Ascend(s, Right, k, t.right, node, t.color, t.left);
      var x := LeftmostOf(node.right, s, Step(Right, k, node, t.color, t.left), t.right);
      SuccessorFacts(s, k, t);
      c := x.right;
      color := x.color;
      SuccessorAt(m, k, t);
      if x == node.right {
        p := x;
        NearAgree(m, k, t);
        NearSuccessor(node, x, s, k);
      } else {
        FarAgree(m, k, t);
        p := FarSuccessor(node, x, s, k);
      }
      ghost var k', e := SuccessorPath(k, t), LeftEnd(t.right).right;
      Carry(SuccessorLinks(m, k, t), Snap(s), k', e, s - {node});
    }

    method Splice(node: RbNode, ghost s: set<RbNode>, ghost k: Path, ghost t: Tree)
      returns (c: RbNode?, p: RbNode?, color: Color)
      requires Focus(s, k, t) && t.Fork? && t.node == node
      modifies this`root, s`left, s`right, s`parent, s`color
      ensures var (k', t', e) := Remaining(k, t); Focus(s, k', t') && c == Ptr(t') && p == Above(k') && color == e
    {
      hide At;
      hide Remaining;
      RemainingCases(k, t);
      Fields(s, k, t);
      if node.left != null && node.right != null {
        c, p, color := SpliceSuccessor(node, s, k, t);
      } else {
        color := node.color;
        ghost var e;
        c, p, e := SpliceOut(node, s, k, t);
      }
    }

    /** rb_erase, for the node at the focus */
    method EraseAt(node: RbNode, ghost s: set<RbNode>, ghost k: Path, ghost t: Tree)
      requires Focus(s, k, t) && t.Fork? && t.node == node && Balanced(Plug(k, t))
      modifies this, s`left, s`right, s`parent, s`color
      ensures Valid() && nodes <= s && Inorder(tree) == Sequence(Remaining(k, t).0, Remaining(k, t).1)
    {
      hide At;
      hide Sequence;
      hide Remaining;
      RemainingBalance(k, t);
      ghost var (k', t', _) := Remaining(k, t);
      var c, p, color := Splice(node, s, k, t);
      if color.Black? {
        EraseFix(c, p, s, k', t');
      } else {
        WholeTree(s, k', t');
        tree := Plug(k', t');
        OwnNodes(s, tree);
        nodes := Nodes(tree);
      }
    }

    /** rb_erase: the i-th node in order is taken out, and no other. */
    method Erase(node: RbNode, ghost i: nat)
      requires Valid() && i < |Inorder(tree)| && Inorder(tree)[i] == node
      modifies this, nodes`left, nodes`right, nodes`parent, nodes`color
      ensures Valid() && nodes <= old(nodes) && Inorder(tree) == old(Inorder(tree)[..i] + Inorder(tree)[i + 1..])
    {
      hide At;
      hide Remaining;
      ghost var (k, t) := Locate(Root, tree, i);
      FocusOn(nodes, k, t);
      RemainingSequence(k, t);
      EraseAt(node, nodes, k, t);
    }

    lemma FocusOn(s: set<RbNode>, k: Path, t: Tree)
      requires Focus(s, Root, Plug(k, t))
      ensures Focus(s, k, t) && Inorder(Plug(k, t)) == Sequence(k, t)
    {
      PlugAt(Snap(s), k, t);
      PlugInorder(k, t);
    }

    // ----- order -----

    /** __rb_rightmost, for a subtree that is not empty */
    method RightmostOf(node: RbNode, ghost s: set<RbNode>, ghost k0: Path, ghost t0: Tree)
      returns (n: RbNode)
      requires Focus(s, k0, t0) && t0.Fork? && t0.node == node
      ensures n == RightEnd(t0).node
    {
      hide At;
      n := node;
      ghost var k, t := k0, t0;
      Fields(s, k, t);
      while n.right != null
        invariant Focus(s, k, t) && t.Fork? && t.node == n && n.right == Ptr(t.right)
        invariant RightEnd(t) == RightEnd(t0)
        decreases t
      {
        Ascend(s, Right, k, t.right, t.node, t.color, t.left);
        k, t := Step(Right, k, t.node, t.color, t.left), t.right;
        n := n.right;
        Fields(s, k, t);
      }
    }

    method NextFrom(node: RbNode, ghost s: set<RbNode>, ghost k0: Path, ghost t0: Tree)
      returns (n: RbNode?)
      requires Focus(s, k0, t0) && t0.Fork? && t0.node == node
      ensures t0.right.Fork? ==> n == LeftEnd(t0.right).node
      ensures t0.right.Leaf? ==> n == if After(k0) == [] then null else After(k0)[0]
    {
      hide At;
      Fields(s, k0, t0);
      if node.right != null {
        Ascend(s, Right, k0, t0.right, node, t0.color, t0.left);
        n := LeftmostOf(node.right, s, Step(Right, k0, node, t0.color, t0.left), t0.right);
        return;
      }
      var c, p := node, node.parent;
      ghost var k, t := k0, t0;
      while p != null && p.right == c
        invariant Focus(s, k, t) && t.Fork? && t.node == c && p == Above(k) && After(k) == After(k0)
        decreases Depth(k)
      {
        Fields(s, k, t);
        Ascend(s, k.side, k.up, t, p, k.color, k.sibling);
        k, t := k.up, Make(k.side, t, p, k.color, k.sibling);
        Fields(s, k, t);
        c, p := p, p.parent;
      }
      Fields(s, k, t);
      n := p;
    }

    /** rb_next: the in-order successor, or null after the last node. */
    method Next(node: RbNode, ghost i: nat) returns (n: RbNode?)
      requires Valid() && i < |Inorder(tree)| && Inorder(tree)[i] == node
      ensures n == if i + 1 < |Inorder(tree)| then Inorder(tree)[i + 1] else null
    {
      hide At;
      hide Sequence;
      ghost var (k, t) := Locate(Root, tree, i);
      FocusOn(nodes, k, t);
      Surroundings(k, t);
      if t.right.Fork? {
        EndsOfInorder(t.right);
      }
      n := NextFrom(node, nodes, k, t);
      assert Inorder(tree)[i + 1..] == Inorder(t.right) + After(k);
    }

    /** rb_leftmost: the first node in order, or null if there is none. */
    method Leftmost() returns (n: RbNode?)
      requires Valid()
      ensures n == if Inorder(tree) == [] then null else Inorder(tree)[0]
    {
      if root == null {
        return null;
      }
      EndsOfInorder(tree);
      n := LeftmostOf(root, nodes, Root, tree);
    }

    /** The loops over a tree: from rb_leftmost, rb_next visits every node once, in order. */
    method Visit() returns (q: seq<RbNode>)
      requires Valid()
      ensures q == Inorder(tree)
    {
      hide At;
      hide Inorder;
      hide Balanced;
      var ptr := Leftmost();
      q := [];
      while ptr != null
        invariant |q| <= |Inorder(tree)| && q == Inorder(tree)[..|q|]
        invariant ptr == if |q| < |Inorder(tree)| then Inorder(tree)[|q|] else null
        decreases |Inorder(tree)| - |q|
      {
        var n := Next(ptr, |q|);
        q := q + [ptr];
        ptr := n;
      }
    }

    method PrevFrom(node: RbNode, ghost s: set<RbNode>, ghost k0: Path, ghost t0: Tree)
      returns (n: RbNode?)
      requires Focus(s, k0, t0) && t0.Fork? && t0.node == node
      ensures t0.left.Fork? ==> n == RightEnd(t0.left).node
      ensures t0.left.Leaf? ==> n == if Before(k0) == [] then null else Before(k0)[|Before(k0)| - 1]
    {
      hide At;
      Fields(s, k0, t0);
      if node.left != null {
        Ascend(s, Left, k0, t0.left, node, t0.color, t0.right);
        n := RightmostOf(node.left, s, Step(Left, k0, node, t0.color, t0.right), t0.left);
        return;
      }
      var c, p := node, node.parent;
      ghost var k, t := k0, t0;
      while p != null && p.left == c
        invariant Focus(s, k, t) && t.Fork? && t.node == c && p == Above(k) && Before(k) == Before(k0)
        decreases Depth(k)
      {
        Fields(s, k, t);
        Ascend(s, k.side, k.up, t, p, k.color, k.sibling);
        k, t := k.up, Make(k.side, t, p, k.color, k.sibling);
        Fields(s, k, t);
        c, p := p, p.parent;
      }
      Fields(s, k, t);
      n := p;
    }

    /** rb_prev: the in-order predecessor, or null before the first node. */
    method Prev(node: RbNode, ghost i: nat) returns (n: RbNode?)
      requires Valid() && i < |Inorder(tree)| && Inorder(tree)[i] == node
      ensures n == if i > 0 then Inorder(tree)[i - 1] else null
    {
      hide At;
      hide Sequence;
      ghost var (k, t) := Locate(Root, tree, i);
      FocusOn(nodes, k, t);
      Surroundings(k, t);
      if t.left.Fork? {
        EndsOfInorder(t.left);
      }
      n := PrevFrom(node, nodes, k, t);
      assert Inorder(tree)[..i] == Before(k) + Inorder(t.left);
    }

    /** rb_rightmost: the last node in order, or null if there is none. */
    method Rightmost() returns (n: RbNode?)
      requires Valid()
      ensures n == if Inorder(tree) == [] then null else Inorder(tree)[|Inorder(tree)| - 1]
    {
      if root == null {
        return null;
      }
      EndsOfInorder(tree);
      n := RightmostOf(root, nodes, Root, tree);
    }

    /** rb_link: `parent` and `d` say which link of the tree, or its root pointer, the C argument plink points to. */
    method Link(node: RbNode, parent: RbNode?, d: Side, ghost s: set<RbNode>, ghost k: Path)
      requires Focus(s, k, Leaf) && node !in s && parent == Above(k) && (k.Step? ==> k.side == d)
      modifies this`root, node`left, node`right, node`parent, node`color, s`left, s`right
      ensures Focus(s + {node}, k, Fork(Leaf, node, Red, Leaf))
    {
      ghost var m := Snap(s);
      node.parent, node.color := parent, Red;
      node.left, node.right := null, null;
      if parent == null {
        root := node;
      } else if d.Left? {
        parent.left := node;
      } else {
        parent.right := node;
      }
      ghost var m' := Snap(s + {node});
      assert m' == Relink(m, k, node)[node := Links(null, null, parent, Red)];
      assert PathNodes(k) <= s;
      RelinkRealises(m, k, null, node);
      FramePath(Relink(m, k, node), m', k, node);
      assert PathRealises(m', k, node);
      assert Realises(m', Fork(Leaf, node, Red, Leaf), Above(k));
    }

    constructor ()
      ensures Valid() && nodes == {} && Inorder(tree) == []
    {
      root, tree, nodes := null, Leaf, {};
    }
  }

  lemma {:induction false} JoinDistinct(l: seq<RbNode>, n: RbNode, r: seq<RbNode>)
    requires Lists.NoDuplicates(l) && Lists.NoDuplicates(r)
    requires forall i | 0 <= i < |l| :: l[i] != n
    requires forall j | 0 <= j < |r| :: r[j] != n
    requires forall i, j | 0 <= i < |l| && 0 <= j < |r| :: l[i] != r[j]
    ensures Lists.NoDuplicates(l + [n] + r)
  {
  }

  /** Every node is visited once: the order has no repetition, and it holds exactly the nodes of the tree. */
  lemma {:induction false} InorderDistinct(m: Snapshot, t: Tree, up: RbNode?)
    requires Realises(m, t, up)
    ensures Lists.NoDuplicates(Inorder(t))
    ensures forall i | 0 <= i < |Inorder(t)| :: Inorder(t)[i] in Nodes(t)
    ensures forall n | n in Nodes(t) :: n in Inorder(t)
  {
    if t.Fork? {
      InorderDistinct(m, t.left, t.node);
      InorderDistinct(m, t.right, t.node);
      JoinDistinct(Inorder(t.left), t.node, Inorder(t.right));
    }
  }
}
