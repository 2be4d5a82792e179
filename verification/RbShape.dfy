/**
  Shapes of red-black trees, and how a snapshot of the pointer fields realises them.

  A `Tree` says which node sits where; a `Path` is a tree with one hole, seen from the hole.  `Realises`
  ties both to a snapshot of the `left`, `right`, `parent` and colour fields.
  The mirrored halves of the C code are told apart by a `Side`.
*/
module RbShape {
  datatype Color = Red | Black

  datatype Side = Left | Right

  /** struct rb_node.  The low bit of the C field `parent` is the field `color` here. */
  class RbNode {
    var left: RbNode?
    var right: RbNode?
    var parent: RbNode?
    var color: Color

    constructor ()
    {
      left, right, parent, color := null, null, null, Red;
    }
  }

  datatype Tree = Leaf | Fork(left: Tree, node: RbNode, color: Color, right: Tree)

  datatype Path = Root | Step(side: Side, up: Path, node: RbNode, color: Color, sibling: Tree)

  /** One node's link fields. */
  datatype Links = Links(left: RbNode?, right: RbNode?, parent: RbNode?, color: Color)

  type Snapshot = map<RbNode, Links>

  // ----- shapes -----

  function Ptr(t: Tree): RbNode? {
    if t.Leaf? then null else t.node
  }

  function Above(k: Path): RbNode? {
    if k.Root? then null else k.node
  }

  function TopOf(k: Path, hole: RbNode?): RbNode? {
    if k.Root? then hole else TopOf(k.up, k.node)
  }

  /** A fork whose child on side `d` is `near`. */
  function Make(d: Side, near: Tree, n: RbNode, c: Color, far: Tree): Tree {
    if d.Left? then Fork(near, n, c, far) else Fork(far, n, c, near)
  }

  function MakeLinks(d: Side, near: RbNode?, far: RbNode?, up: RbNode?, c: Color): Links {
    if d.Left? then Links(near, far, up, c) else Links(far, near, up, c)
  }

  function Plug(k: Path, t: Tree): Tree {
    if k.Root? then t else Plug(k.up, Make(k.side, t, k.node, k.color, k.sibling))
  }

  function Depth(k: Path): nat {
    if k.Root? then 0 else 1 + Depth(k.up)
  }

  function Sub(t: Tree, d: Side): Tree
    requires t.Fork?
  {
    if d.Left? then t.left else t.right
  }

  ghost function Nodes(t: Tree): set<RbNode> {
    match t
    case Leaf => {}
    case Fork(l, n, _, r) => Nodes(l) + {n} + Nodes(r)
  }

  ghost function PathNodes(k: Path): set<RbNode> {
    if k.Root? then {} else PathNodes(k.up) + {k.node} + Nodes(k.sibling)
  }

  function Inorder(t: Tree): seq<RbNode> {
    match t
    case Leaf => []
    case Fork(l, n, _, r) => Inorder(l) + [n] + Inorder(r)
  }

  function Before(k: Path): seq<RbNode> {
    match k
    case Root => []
    case Step(Left, up, _, _, _) => Before(up)
    case Step(Right, up, n, _, l) => Before(up) + Inorder(l) + [n]
  }

  function After(k: Path): seq<RbNode> {
    match k
    case Root => []
    case Step(Left, up, n, _, r) => [n] + Inorder(r) + After(up)
    case Step(Right, up, _, _, _) => After(up)
  }

  function Sequence(k: Path, t: Tree): seq<RbNode> {
    Before(k) + Inorder(t) + After(k)
  }

  // ----- red-black invariants -----

  predicate IsRed(t: Tree) {
    t.Fork? && t.color.Red?
  }

  predicate UnderRed(k: Path) {
    k.Step? && k.color.Red?
  }

  function Weight(c: Color): nat {
    if c.Black? then 1 else 0
  }

  /** Number of black nodes on the leftmost way down. */
  function BlackHeight(t: Tree): nat {
    if t.Leaf? then 0 else BlackHeight(t.left) + Weight(t.color)
  }

  /** Both children are red-black and equally high; the root's own colour is not looked at. */
  predicate NearlyRedBlack(t: Tree) {
    t.Fork? ==> RedBlack(t.left) && RedBlack(t.right) && BlackHeight(t.left) == BlackHeight(t.right)
  }

  /** No red node has a red child, and all ways down meet equally many black nodes. */
  predicate RedBlack(t: Tree) {
    t.Fork? ==>
      && RedBlack(t.left) && RedBlack(t.right) && BlackHeight(t.left) == BlackHeight(t.right)
      && (t.color.Red? ==> !IsRed(t.left) && !IsRed(t.right))
  }

  /** A red-black tree of black height `h` in the hole makes a red-black tree, unless a red root meets a red parent. */
  predicate Fits(k: Path, h: nat) {
    k.Step? ==>
      && RedBlack(k.sibling) && BlackHeight(k.sibling) == h
      && (k.color.Red? ==> !IsRed(k.sibling) && !UnderRed(k.up))
      && Fits(k.up, h + Weight(k.color))
  }

  predicate BlackTop(k: Path) {
    k.Step? ==> if k.up.Root? then k.color.Black? else BlackTop(k.up)
  }

  predicate Balanced(t: Tree) {
    RedBlack(t) && !IsRed(t)
  }

  // ----- realisation in memory -----

  ghost predicate Realises(m: Snapshot, t: Tree, up: RbNode?) {
    match t
    case Leaf => true
    case Fork(l, n, c, r) =>
      && n in m && m[n] == Links(Ptr(l), Ptr(r), up, c)
      && n !in Nodes(l) && n !in Nodes(r) && Nodes(l) !! Nodes(r)
      && Realises(m, l, n) && Realises(m, r, n)
  }

  ghost predicate PathRealises(m: Snapshot, k: Path, hole: RbNode?) {
    match k
    case Root => true
    case Step(d, up, n, c, sib) =>
      && n in m && m[n] == MakeLinks(d, hole, Ptr(sib), Above(up), c)
      && n !in PathNodes(up) && n !in Nodes(sib) && PathNodes(up) !! Nodes(sib)
      && Realises(m, sib, n) && PathRealises(m, up, n)
  }

  ghost predicate At(m: Snapshot, k: Path, t: Tree) {
    PathNodes(k) !! Nodes(t) && PathRealises(m, k, Ptr(t)) && Realises(m, t, Above(k))
  }

  ghost predicate Agree(m: Snapshot, m': Snapshot, s: set<RbNode>) {
    forall n | n in s && n in m :: n in m' && m'[n] == m[n]
  }

  lemma {:induction false} FrameTree(m: Snapshot, m': Snapshot, t: Tree, up: RbNode?)
    requires Realises(m, t, up) && Agree(m, m', Nodes(t))
    ensures Realises(m', t, up)
  {
    if t.Fork? {
      FrameTree(m, m', t.left, t.node);
      FrameTree(m, m', t.right, t.node);
    }
  }

  lemma {:induction false} FramePath(m: Snapshot, m': Snapshot, k: Path, hole: RbNode?)
    requires PathRealises(m, k, hole) && Agree(m, m', PathNodes(k))
    ensures PathRealises(m', k, hole)
  {
    if k.Step? {
      FramePath(m, m', k.up, k.node);
      FrameTree(m, m', k.sibling, k.node);
    }
  }

  // ----- the two single-link stores of the C code -----

  /** rb_set_parent, skipped for null */
  function Reparent(m: Snapshot, h: RbNode?, up: RbNode?): Snapshot {
    if h == null || h !in m then m else m[h := m[h].(parent := up)]
  }

  /** Redirects the link above the hole; the tree's root pointer is not part of the snapshot. */
  function Relink(m: Snapshot, k: Path, h: RbNode?): Snapshot {
    if k.Root? || k.node !in m then m
    else if k.side.Left? then m[k.node := m[k.node].(left := h)]
    else m[k.node := m[k.node].(right := h)]
  }

  lemma {:induction false} ReparentRealises(m: Snapshot, t: Tree, up: RbNode?, up': RbNode?)
    requires Realises(m, t, up)
    ensures Realises(Reparent(m, Ptr(t), up'), t, up')
  {
    if t.Fork? {
      var m' := Reparent(m, Ptr(t), up');
      FrameTree(m, m', t.left, t.node);
      FrameTree(m, m', t.right, t.node);
    }
  }

  lemma {:induction false} RelinkRealises(m: Snapshot, k: Path, h: RbNode?, h': RbNode?)
    requires PathRealises(m, k, h)
    ensures PathRealises(Relink(m, k, h'), k, h')
  {
    if k.Step? {
      var m' := Relink(m, k, h');
      FramePath(m, m', k.up, k.node);
      FrameTree(m, m', k.sibling, k.node);
    }
  }

  // ----- moving the focus -----

  lemma {:induction false} DescendSequence(k: Path, d: Side, near: Tree, n: RbNode, c: Color, far: Tree)
    ensures Sequence(k, Make(d, near, n, c, far)) == Sequence(Step(d, k, n, c, far), near)
  {
    var i, s := Inorder(near), Inorder(far);
    var b, a := Before(k), After(k);
    match d
    case Left =>
      assert b + (i + [n] + s) + a == b + i + ([n] + s + a);
    case Right =>
      assert b + (s + [n] + i) + a == (b + s + [n]) + i + a;
  }

  lemma {:induction false} Descend(m: Snapshot, k: Path, d: Side, near: Tree, n: RbNode, c: Color, far: Tree)
    ensures At(m, k, Make(d, near, n, c, far)) <==> At(m, Step(d, k, n, c, far), near)
    ensures PathNodes(k) + Nodes(Make(d, near, n, c, far)) == PathNodes(Step(d, k, n, c, far)) + Nodes(near)
  {
    var t, k' := Make(d, near, n, c, far), Step(d, k, n, c, far);
    assert Nodes(t) == Nodes(near) + {n} + Nodes(far);
    assert PathNodes(k') == PathNodes(k) + {n} + Nodes(far);
  }

  // ----- rotation -----

  function Other(d: Side): Side {
    if d.Left? then Right else Left
  }

  function Child(l: Links, d: Side): RbNode? {
    if d.Left? then l.left else l.right
  }

  function WithChild(l: Links, d: Side, h: RbNode?): Links {
    if d.Left? then l.(left := h) else l.(right := h)
  }

  /** x hangs below the hole of `k` and has a child to rotate with; the five nodes involved are distinct. */
  predicate CanRotate(m: Snapshot, k: Path, d: Side, x: RbNode) {
    && x in m && m[x].parent == Above(k)
    && var y := Child(m[x], Other(d));
    && y != null && y != x && y in m
    && var b := Child(m[y], d);
    && b != x && b != y && (b != null ==> b in m)
    && (k.Step? ==>
          && k.node in m && k.node != x && k.node != y && k.node != b
          && Child(m[k.node], k.side) == x && Child(m[k.node], Other(k.side)) != x)
  }

  /** The pointer stores of a rotation of x towards side `d`, in the order of the C code. */
  function Rotated(m: Snapshot, k: Path, d: Side, x: RbNode): Snapshot
    requires CanRotate(m, k, d, x)
  {
    var y := Child(m[x], Other(d));
    var b := Child(m[y], d);
    var m1 := m[x := WithChild(m[x], Other(d), b)];
    var m2 := Reparent(m1, b, x);
    var m3 := m2[y := WithChild(m2[y], d, x)];
    var m4 := m3[y := m3[y].(parent := m[x].parent)];
    var m5 := Relink(m4, k, y);
    m5[x := m5[x].(parent := y)]
  }

  /** What a rotation leaves in memory. */
  lemma {:induction false} RotatedLinks(m: Snapshot, k: Path, d: Side, x: RbNode)
    requires CanRotate(m, k, d, x)
    ensures var m', y := Rotated(m, k, d, x), Child(m[x], Other(d)); var b := Child(m[y], d);
      && m'.Keys == m.Keys
      && m'[x] == WithChild(m[x], Other(d), b).(parent := y)
      && m'[y] == WithChild(m[y], d, x).(parent := Above(k))
      && (b != null ==> m'[b] == m[b].(parent := x))
      && (k.Step? ==> m'[k.node] == WithChild(m[k.node], k.side, y))
      && forall n | n in m && n != x && n != y && n != b && n != Above(k) :: m'[n] == m[n]
  {
  }

  lemma {:induction false} MakeNodes(d: Side, near: Tree, n: RbNode, c: Color, far: Tree)
    ensures Nodes(Make(d, near, n, c, far)) == Nodes(near) + {n} + Nodes(far) && Ptr(Make(d, near, n, c, far)) == n
  {
  }

  lemma {:induction false} RotateRealises(m: Snapshot, k: Path, d: Side, a: Tree, x: RbNode, cx: Color, b: Tree,
      y: RbNode, cy: Color, c: Tree)
    requires At(m, k, Make(d, a, x, cx, Make(d, b, y, cy, c)))
    ensures CanRotate(m, k, d, x)
    ensures At(Rotated(m, k, d, x), k, Make(d, Make(d, a, x, cx, b), y, cy, c))
  {
    RotateReady(m, k, d, a, x, cx, b, y, cy, c);
    MakeNodes(d, b, y, cy, c);
    MakeNodes(d, a, x, cx, Make(d, b, y, cy, c));
    MakeNodes(d, a, x, cx, b);
    MakeNodes(d, Make(d, a, x, cx, b), y, cy, c);
    RotatePath(m, k, d, x, y, Ptr(b));
    RotateTree(m, k, d, a, x, cx, b, y, cy, c);
  }

  lemma {:induction false} RotatePair(m: Snapshot, up: RbNode?, d: Side, a: Tree, x: RbNode, cx: Color, b: Tree,
      y: RbNode, cy: Color, c: Tree)
    requires Realises(m, Make(d, a, x, cx, Make(d, b, y, cy, c)), up)
    ensures x in m && m[x] == MakeLinks(d, Ptr(a), y, up, cx) && y in m && m[y] == MakeLinks(d, Ptr(b), Ptr(c), x, cy)
    ensures x != y && Ptr(b) != x && Ptr(b) != y && (b.Fork? ==> b.node in m)
    ensures {x, y} + (if b.Fork? then {b.node} else {}) <= Nodes(Make(d, a, x, cx, Make(d, b, y, cy, c)))
  {
    var inner := Make(d, b, y, cy, c);
    MakeNodes(d, b, y, cy, c);
    MakeNodes(d, a, x, cx, inner);
    MakeRealises(m, d, a, x, cx, inner, up);
    MakeRealises(m, d, b, y, cy, c, x);
    assert b.Fork? ==> b.node in Nodes(b);
  }

  /** The parent's two links tell the hole from the sibling. */
  lemma {:induction false} HoleLinks(m: Snapshot, k: Path, x: RbNode)
    requires PathRealises(m, k, x) && k.Step? && x !in PathNodes(k)
    ensures k.node in m && k.node in PathNodes(k) && Child(m[k.node], k.side) == x
              && Child(m[k.node], Other(k.side)) != x
  {
    assert k.sibling.Fork? ==> k.sibling.node in Nodes(k.sibling);
  }

  lemma {:induction false} RotateReady(m: Snapshot, k: Path, d: Side, a: Tree, x: RbNode, cx: Color, b: Tree, y: RbNode,
      cy: Color, c: Tree)
    requires At(m, k, Make(d, a, x, cx, Make(d, b, y, cy, c)))
    ensures CanRotate(m, k, d, x)
    ensures m[x] == MakeLinks(d, Ptr(a), y, Above(k), cx) && y in m && m[y] == MakeLinks(d, Ptr(b), Ptr(c), x, cy)
  {
    RotatePair(m, Above(k), d, a, x, cx, b, y, cy, c);
    if k.Step? {
      HoleLinks(m, k, x);
    }
  }

  lemma {:induction false} RotatePath(m: Snapshot, k: Path, d: Side, x: RbNode, y: RbNode, b: RbNode?)
    requires CanRotate(m, k, d, x) && y == Child(m[x], Other(d)) && b == Child(m[y], d)
    requires PathRealises(m, k, x)
    requires x !in PathNodes(k) && y !in PathNodes(k) && b !in PathNodes(k)
    ensures PathRealises(Rotated(m, k, d, x), k, y)
  {
    RotatedLinks(m, k, d, x);
    var m' := Relink(m, k, y);
    RelinkRealises(m, k, x, y);
    FramePath(m', Rotated(m, k, d, x), k, y);
  }

  lemma {:induction false} MakeRealises(m: Snapshot, d: Side, near: Tree, n: RbNode, c: Color, far: Tree, up: RbNode?)
    ensures Realises(m, Make(d, near, n, c, far), up) <==>
              && n in m && m[n] == MakeLinks(d, Ptr(near), Ptr(far), up, c)
              && n !in Nodes(near) && n !in Nodes(far) && Nodes(near) !! Nodes(far)
              && Realises(m, near, n) && Realises(m, far, n)
  {
  }

  lemma {:induction false} RotateParts(m: Snapshot, k: Path, d: Side, a: Tree, x: RbNode, b: Tree, y: RbNode, c: Tree)
    requires CanRotate(m, k, d, x) && y == Child(m[x], Other(d)) && Ptr(b) == Child(m[y], d)
    requires Realises(m, a, x) && Realises(m, b, y) && Realises(m, c, y)
    requires {x, y} !! Nodes(a) && {x, y} !! Nodes(b) && {x, y} !! Nodes(c)
    requires Nodes(a) !! Nodes(b) && Nodes(b) !! Nodes(c)
    requires Above(k) !in Nodes(a) + Nodes(b) + Nodes(c)
    ensures var m' := Rotated(m, k, d, x); Realises(m', a, x) && Realises(m', b, x) && Realises(m', c, y)
  {
    var m' := Rotated(m, k, d, x);
    RotatedLinks(m, k, d, x);
    assert b.Fork? ==> b.node in Nodes(b);
    FrameTree(m, m', a, x);
    FrameTree(m, m', c, y);
    ReparentRealises(m, b, y, x);
    FrameTree(Reparent(m, Ptr(b), x), m', b, x);
  }

  lemma {:induction false} RotateTree(m: Snapshot, k: Path, d: Side, a: Tree, x: RbNode, cx: Color, b: Tree, y: RbNode,
      cy: Color, c: Tree)
    requires CanRotate(m, k, d, x)
    requires m[x] == MakeLinks(d, Ptr(a), y, Above(k), cx) && y in m && m[y] == MakeLinks(d, Ptr(b), Ptr(c), x, cy)
    requires Realises(m, Make(d, a, x, cx, Make(d, b, y, cy, c)), Above(k))
    requires PathNodes(k) !! Nodes(Make(d, a, x, cx, Make(d, b, y, cy, c)))
    ensures Realises(Rotated(m, k, d, x), Make(d, Make(d, a, x, cx, b), y, cy, c), Above(k))
  {
    hide Rotated;
    hide Realises;
    hide Nodes;
    hide Make;
    var m' := Rotated(m, k, d, x);
    var inner, inner' := Make(d, b, y, cy, c), Make(d, a, x, cx, b);
    MakeNodes(d, b, y, cy, c);
    MakeNodes(d, a, x, cx, inner);
    MakeNodes(d, a, x, cx, b);
    MakeRealises(m, d, a, x, cx, inner, Above(k));
    MakeRealises(m, d, b, y, cy, c, x);
    RotatedLinks(m, k, d, x);
    RotateParts(m, k, d, a, x, b, y, c);
    MakeRealises(m', d, a, x, cx, b, y);
    MakeRealises(m', d, inner', y, cy, c, Above(k));
  }

  lemma {:induction false} RotateInorder(d: Side, a: Tree, x: RbNode, cx: Color, b: Tree, y: RbNode, cy: Color, c: Tree)
    ensures Inorder(Make(d, a, x, cx, Make(d, b, y, cy, c))) == Inorder(Make(d, Make(d, a, x, cx, b), y, cy, c))
  {
    var p, q, r := Inorder(a), Inorder(b), Inorder(c);
    match d
    case Left =>
      assert p + [x] + (q + [y] + r) == (p + [x] + q) + [y] + r;
    case Right =>
      assert (r + [y] + q) + [x] + p == r + [y] + (q + [x] + p);
  }

  predicate CanTurn(t: Tree, d: Side) {
    t.Fork? && if d.Left? then t.right.Fork? else t.left.Fork?
  }

  /** The tree rotated towards side `d`. */
  function Turned(t: Tree, d: Side): Tree
    requires CanTurn(t, d)
  {
    if d.Left? then Fork(Fork(t.left, t.node, t.color, t.right.left), t.right.node, t.right.color, t.right.right)
    else Fork(t.left.left, t.left.node, t.left.color, Fork(t.left.right, t.node, t.color, t.right))
  }

  lemma {:induction false} TurnedInorder(t: Tree, d: Side)
    requires CanTurn(t, d)
    ensures Inorder(Turned(t, d)) == Inorder(t)
    ensures Nodes(Turned(t, d)) == Nodes(t)
  {
    if d.Left? {
      RotateInorder(d, t.left, t.node, t.color, t.right.left, t.right.node, t.right.color, t.right.right);
      RotateNodes(d, t.left, t.node, t.color, t.right.left, t.right.node, t.right.color, t.right.right);
    } else {
      RotateInorder(d, t.right, t.node, t.color, t.left.right, t.left.node, t.left.color, t.left.left);
      RotateNodes(d, t.right, t.node, t.color, t.left.right, t.left.node, t.left.color, t.left.left);
    }
  }

  lemma {:induction false} RotateNodes(d: Side, a: Tree, x: RbNode, cx: Color, b: Tree, y: RbNode, cy: Color, c: Tree)
    ensures Nodes(Make(d, a, x, cx, Make(d, b, y, cy, c))) == Nodes(Make(d, Make(d, a, x, cx, b), y, cy, c))
  {
    assert Nodes(Make(d, b, y, cy, c)) == Nodes(b) + {y} + Nodes(c);
    assert Nodes(Make(d, a, x, cx, b)) == Nodes(a) + {x} + Nodes(b);
  }
}
