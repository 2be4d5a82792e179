/** src/balloc.c: the boot allocator's two interval sets, each a red-black tree over nodes from one pool. */
module BootAllocator {
  import opened Powers
  import opened RbShape
  import opened RbBalance
  import opened RbSplice
  import opened RbTrees
  import opened Intervals

  /** struct memory_node without its link: the interval that CONTAINER_OF reaches from each link. */
  type Extents = map<RbNode, Interval>

  predicate Known(q: seq<RbNode>, m: Extents) {
    forall i | 0 <= i < |q| :: q[i] in m
  }

  /** The intervals held by a list of nodes. */
  function Ranges(q: seq<RbNode>, m: Extents): (s: seq<Interval>)
    requires Known(q, m)
    ensures |s| == |q|
    ensures forall i | 0 <= i < |q| :: s[i] == m[q[i]]
  {
    seq(|q|, i requires 0 <= i < |q| => m[q[i]])
  }

  lemma {:induction false} Ends(k: Path, t: Tree)
    ensures var q := Sequence(k, t);
      && |q| == |Before(k)| + |Inorder(t)| + |After(k)|
      && q[..|Before(k)|] == Before(k) && q[|Before(k)| + |Inorder(t)|..] == After(k)
      && (t.Leaf? ==> Inorder(t) == [])
  {
  }

  /** The intervals before lo start below x, those from hi on do not. */
  predicate Splits(s: seq<Interval>, lo: nat, hi: nat, x: nat) {
    && lo <= hi <= |s|
    && (forall i | 0 <= i < lo :: s[i].begin < x)
    && (forall i | hi <= i < |s| :: s[i].begin >= x)
  }

  lemma {:induction false} SplitStep(s: seq<Interval>, lo: nat, i: nat, hi: nat, x: nat)
    requires Separated(s) && Splits(s, lo, hi, x) && lo <= i < hi
    ensures if s[i].begin < x then Splits(s, i + 1, hi, x) else Splits(s, lo, i, x)
  {
    assert forall j | 0 <= j < i :: s[j].end < s[i].begin;
  }

  /** One step down from the focus, and where that leaves the borders of what is below. */
  lemma GoDown(tree: RbTree, s: set<RbNode>, k: Path, t: Tree, d: Side)
    requires tree.Focus(s, k, t) && t.Fork?
    ensures var k', i := Step(d, k, t.node, t.color, Sub(t, Other(d))), |Before(k)| + |Inorder(t.left)|;
      && tree.Focus(s, k', Sub(t, d)) && Plug(k', Sub(t, d)) == Plug(k, t) && Sequence(k', Sub(t, d)) == Sequence(k, t)
      && (if d.Left? then t.node.left else t.node.right) == Ptr(Sub(t, d))
      && i < |Sequence(k, t)| - |After(k)| && Sequence(k, t)[i] == t.node
      && |Before(k')| == (if d.Right? then i + 1 else |Before(k)|)
      && |Sequence(k, t)| - |After(k')| == (if d.Left? then i else |Sequence(k, t)| - |After(k)|)
  {
    tree.Fields(s, k, t);
    Surroundings(k, t);
    tree.Ascend(s, d, k, Sub(t, d), t.node, t.color, Sub(t, Other(d)));
  }

  /** Walks down to the empty link where an interval starting at `from` belongs. */
  method FindSlot(tree: RbTree, m: Extents, from: nat) returns (parent: RbNode?, d: Side, ghost k: Path)
    requires tree.Valid() && Ordered(Inorder(tree.tree), m)
    ensures tree.Focus(tree.nodes, k, Leaf) && Plug(k, Leaf) == tree.tree
    ensures parent == Above(k) && (k.Step? ==> k.side == d)
    ensures var p := Below(Ranges(Inorder(tree.tree), m), from);
      Before(k) == Inorder(tree.tree)[..p] && After(k) == Inorder(tree.tree)[p..]
  {
    hide Sequence;
    hide Before;
    hide After;
    hide Inorder;
    ghost var nodes, v := tree.nodes, Ranges(Inorder(tree.tree), m);
    PlugInorder(Root, tree.tree);
    Ends(Root, tree.tree);
    var link := tree.root;
    parent, d := null, Left;
    k := Root;
    ghost var t := tree.tree;
    ghost var lo: nat, hi: nat := 0, |v|;
    while link != null
      invariant tree.Focus(nodes, k, t) && Plug(k, t) == tree.tree && Sequence(k, t) == Inorder(tree.tree)
      invariant link == Ptr(t) && parent == Above(k) && (k.Step? ==> k.side == d)
      invariant lo == |Before(k)| && hi == |v| - |After(k)| && Splits(v, lo, hi, from)
      decreases t
    {
      hide At;
      hide Splits;
      hide Separated;
      ghost var i := lo + |Inorder(t.left)|;
      GoDown(tree, nodes, k, t, Left);
      SplitStep(v, lo, i, hi, from);
      d := if m[link].begin < from then Right else Left;
      GoDown(tree, nodes, k, t, d);
      parent := link;
      k, t := Step(d, k, t.node, t.color, Sub(t, Other(d))), Sub(t, d);
      if d.Right? {
        link := parent.right;
        lo := i + 1;
      } else {
        link := parent.left;
        hi := i;
      }
    }
    Ends(k, Leaf);
    BelowUnique(v, from, lo);
  }

  predicate EndSplits(s: seq<Interval>, lo: nat, hi: nat, x: nat) {
    && lo <= hi <= |s|
    && (forall i | 0 <= i < lo :: s[i].end <= x)
    && (forall i | hi <= i < |s| :: s[i].end > x)
  }

  lemma {:induction false} EndSplitStep(s: seq<Interval>, lo: nat, i: nat, hi: nat, x: nat)
    requires Separated(s) && EndSplits(s, lo, hi, x) && lo <= i < hi
    ensures if s[i].end > x then EndSplits(s, lo, i, x) else EndSplits(s, i + 1, hi, x)
  {
    assert forall j | i < j < |s| :: s[i].end < s[j].begin;
    assert forall j | 0 <= j < i :: s[j].end < s[i].begin;
  }

  /** The search at the head of __balloc_remove_range and __balloc_alloc: the first interval that ends above `from`. */
  method FindFirst(tree: RbTree, m: Extents, from: nat) returns (ptr: RbNode?)
    requires tree.Valid() && Known(Inorder(tree.tree), m) && Separated(Ranges(Inorder(tree.tree), m))
    ensures var q := Inorder(tree.tree); var p := EndsBy(Ranges(q, m), from); ptr == if p < |q| then q[p] else null
  {
    hide Sequence;
    hide Before;
    hide After;
    hide Inorder;
    ghost var nodes, q, v := tree.nodes, Inorder(tree.tree), Ranges(Inorder(tree.tree), m);
    PlugInorder(Root, tree.tree);
    Ends(Root, tree.tree);
    var link := tree.root;
    ptr := null;
    ghost var k, t := Root, tree.tree;
    ghost var lo: nat, hi: nat := 0, |v|;
    while link != null
      invariant tree.Focus(nodes, k, t) && Plug(k, t) == tree.tree && Sequence(k, t) == q && link == Ptr(t)
      invariant lo == |Before(k)| && hi == |v| - |After(k)| && EndSplits(v, lo, hi, from)
      invariant ptr == if hi < |q| then q[hi] else null
      decreases t
    {
      hide At;
      hide EndSplits;
      hide Separated;
      ghost var i := lo + |Inorder(t.left)|;
      GoDown(tree, nodes, k, t, Left);
      EndSplitStep(v, lo, i, hi, from);
      ghost var d := if m[link].end > from then Left else Right;
      GoDown(tree, nodes, k, t, d);
      k, t := Step(d, k, t.node, t.color, Sub(t, Other(d))), Sub(t, d);
      if m[link].end > from {
        ptr := link;
        link := link.left;
        hi := i;
      } else {
        link := link.right;
        lo := i + 1;
      }
    }
    Ends(k, Leaf);
    EndsByUnique(v, from, lo);
  }

  /** The loop of __balloc_alloc: the first interval that is large enough, and the lowest place in it. */
  method FindRoom(tree: RbTree, m: Extents, size: nat, align: nat, from: nat, to: nat)
    returns (ptr: RbNode?, addr: nat, ghost i: nat)
    requires tree.Valid() && Known(Inorder(tree.tree), m) && Separated(Ranges(Inorder(tree.tree), m))
    requires size > 0 && align > 0
    ensures var v := Ranges(Inorder(tree.tree), m);
      if ptr == null then forall x: nat :: !Room(v, size, align, from, to, x)
      else
        && i < |v| && Inorder(tree.tree)[i] == ptr && v[i].begin <= addr && addr + size <= v[i].end
        && addr < to && LeastRoom(v, size, align, from, to, addr)
  {
    hide At;
    hide Inorder;
    hide Nodes;
    hide AlignUp;
    hide LeastRoom;
    hide Room;
    hide EndsBy;
    ghost var q, v := Inorder(tree.tree), Ranges(Inorder(tree.tree), m);
    ptr := FindFirst(tree, m, from);
    addr, i := to, EndsBy(v, from);
    EarlyTooSmall(v, size, align, from, to);
    while ptr != null && m[ptr].begin < to
      invariant i <= |q| && ptr == (if i < |q| then q[i] else null)
      invariant forall j | 0 <= j < i :: TooSmall(v[j], size, align, from, to)
      invariant tree.Valid()
      decreases |q| - i
    {
      var b := if m[ptr].begin > from then m[ptr].begin else from;
      var e := if m[ptr].end < to then m[ptr].end else to;
      addr := AlignUp(b, align);
      if addr + size <= e {
        AlignUpLeast(b, align);
        FirstRoom(v, size, align, from, to, i);
        return;
      }
      ptr := tree.Next(ptr, i);
      i := i + 1;
    }
    NoRoom(v, size, align, from, to, i);
    ptr := null;
  }

  lemma {:induction false} LeafReady(k: Path, node: RbNode)
    requires Balanced(Plug(k, Leaf))
    ensures InsertInvariant(k, Fork(Leaf, node, Red, Leaf))
    ensures Sequence(k, Fork(Leaf, node, Red, Leaf)) == Before(k) + [node] + After(k)
  {
    PlugBalance(k, Leaf);
    assert Inorder(Fork(Leaf, node, Red, Leaf)) == [node];
  }

  /** A new node takes its place in the order; nothing is merged yet. */
  method InsertNew(tree: RbTree, node: RbNode, m: Extents, from: nat)
    requires tree.Valid() && node !in tree.nodes
    requires Ordered(Inorder(tree.tree), m)
    modifies tree, node, tree.nodes
    ensures tree.Valid() && tree.nodes <= old(tree.nodes) + {node}
    ensures var q := old(Inorder(tree.tree)); var p := Below(Ranges(q, m), from);
      Inorder(tree.tree) == q[..p] + [node] + q[p..]
  {
    hide At;
    hide Sequence;
    hide InsertInvariant;
    hide Inorder;
    hide Nodes;
    hide Separated;
    var parent, d;
    ghost var k;
    parent, d, k := FindSlot(tree, m, from);
    LeafReady(k, node);
    ghost var s := tree.nodes;
    tree.Link(node, parent, d, s, k);
    tree.Insert(node, s + {node}, k);
  }

  /** The first merge of __balloc_add_range: the previous interval, if it reaches the new one. */
  method MergePrevious(tree: RbTree, node: RbNode, m: Extents, ghost p: nat) returns (gone: RbNode?, m': Extents)
    requires tree.Valid() && Known(Inorder(tree.tree), m) && p < |Inorder(tree.tree)| && Inorder(tree.tree)[p] == node
    modifies tree, tree.nodes
    ensures tree.Valid() && tree.nodes <= old(tree.nodes)
    ensures var q := old(Inorder(tree.tree)); var v := Ranges(q, m);
      if p > 0 && v[p - 1].end >= v[p].begin then
        && gone == q[p - 1] && Inorder(tree.tree) == q[..p - 1] + q[p..]
        && m' == m[node := Interval(v[p - 1].begin, if v[p - 1].end > v[p].end then v[p - 1].end else v[p].end)]
      else gone == null && Inorder(tree.tree) == q && m' == m
  {
    hide At;
    m' := m;
    gone := tree.Prev(node, p);
    if gone != null && m[gone].end >= m[node].begin {
      m' := m'[node := m'[node].(begin := m[gone].begin)];
      if m[gone].end > m[node].end {
        m' := m'[node := m'[node].(end := m[gone].end)];
      }
      tree.Erase(gone, p - 1);
    } else {
      gone := null;
    }
  }

  /** The second merge: the next interval, if the new one reaches it; its end is taken over. */
  method MergeNext(tree: RbTree, node: RbNode, m: Extents, ghost p: nat) returns (gone: RbNode?, m': Extents)
    requires tree.Valid() && Known(Inorder(tree.tree), m) && p < |Inorder(tree.tree)| && Inorder(tree.tree)[p] == node
    modifies tree, tree.nodes
    ensures tree.Valid() && tree.nodes <= old(tree.nodes)
    ensures var q := old(Inorder(tree.tree)); var v := Ranges(q, m);
      if p + 1 < |v| && v[p + 1].begin <= v[p].end then
        && gone == q[p + 1] && Inorder(tree.tree) == q[..p + 1] + q[p + 2..]
        && m' == m[node := Interval(v[p].begin, v[p + 1].end)]
      else gone == null && Inorder(tree.tree) == q && m' == m
  {
    hide At;
    m' := m;
    gone := tree.Next(node, p);
    if gone != null && m[gone].begin <= m[node].end {
      m' := m[node := m[node].(end := m[gone].end)];
      tree.Erase(gone, p + 1);
    } else {
      gone := null;
    }
  }

  /** Exchanging the nodes a..b for one new node exchanges their intervals for its interval. */
  lemma {:induction false} SplicedRanges(q: seq<RbNode>, m: Extents, a: nat, n: RbNode, v: Interval, b: nat)
    requires Known(q, m) && n !in q && a <= b <= |q|
    ensures Known(q[..a] + [n] + q[b..], m[n := v])
    ensures Ranges(q[..a] + [n] + q[b..], m[n := v]) == Spliced(Ranges(q, m), a, v, b)
  {
  }

  /** The order and the new node's interval after the first merge. */
  lemma {:induction false} FirstMerge(q: seq<RbNode>, m: Extents, n: RbNode, from: nat, to: nat)
    requires Known(q, m) && n !in q
    ensures var v := Ranges(q, m); var p, a := Below(v, from), AddLow(v, from);
            var q1, m1 := q[..p] + [n] + q[p..], m[n := Interval(from, to)];
      && Known(q1, m1) && q1[p] == n
      && var v1 := Ranges(q1, m1);
      && ((p > 0 && v1[p - 1].end >= v1[p].begin) <==> a < p)
      && (if a < p then
            && q1[p - 1] == q[a] && q1[..p - 1] + q1[p..] == q[..a] + [n] + q[p..]
            && Interval(v1[p - 1].begin, if v1[p - 1].end > v1[p].end then v1[p - 1].end else v1[p].end)
                 == Interval(v[a].begin, Reach(v, from, to))
          else q1 == q[..a] + [n] + q[p..] && Reach(v, from, to) == to)
  {
    var v := Ranges(q, m);
    var p := Below(v, from);
    FirstValues(v, from, to);
    hide *;
    FirstNodes(q, p, n);
    SplicedRanges(q, m, p, n, Interval(from, to), p);
  }

  lemma {:induction false} FirstNodes(q: seq<RbNode>, p: nat, n: RbNode)
    requires p <= |q|
    ensures var q1 := q[..p] + [n] + q[p..];
      q1[p] == n && (p > 0 ==> q1[p - 1] == q[p - 1] && q1[..p - 1] + q1[p..] == q[..p - 1] + [n] + q[p..])
  {
    var q1 := q[..p] + [n] + q[p..];
    if p > 0 {
      assert q1[..p - 1] == q[..p - 1] && q1[p..] == [n] + q[p..];
    }
  }

  lemma {:induction false} FirstValues(v: seq<Interval>, from: nat, to: nat)
    ensures var p, a := Below(v, from), AddLow(v, from); var v1 := Spliced(v, p, Interval(from, to), p);
      && a <= p && (a < p ==> a == p - 1)
      && ((p > 0 && v1[p - 1].end >= v1[p].begin) <==> a < p)
      && (if a < p then
            Interval(v1[p - 1].begin, if v1[p - 1].end > v1[p].end then v1[p - 1].end else v1[p].end)
              == Interval(v[a].begin, Reach(v, from, to))
          else Reach(v, from, to) == to)
  {
    hide Below;
  }

  lemma {:induction false} SplitAt(q: seq<RbNode>, i: nat)
    requires i < |q|
    ensures q == q[..i] + [q[i]] + q[i + 1..]
  {
  }

  lemma {:induction false} SkipOne(x: seq<RbNode>, y: seq<RbNode>)
    requires y != []
    ensures (x + y)[|x|] == y[0] && (x + y)[..|x|] + (x + y)[|x| + 1..] == x + y[1..]
  {
  }

  /** The order and the new node's interval after the second merge. */
  lemma {:induction false} SecondMerge(q: seq<RbNode>, m: Extents, n: RbNode, from: nat, to: nat)
    requires Known(q, m) && n !in q
    ensures var v := Ranges(q, m); var p, a, b := Below(v, from), AddLow(v, from), AddHigh(v, from, to);
            var q2 := q[..a] + [n] + q[p..];
            var m2 := m[n := Interval(if a < p then v[a].begin else from, Reach(v, from, to))];
      && Known(q2, m2) && q2[a] == n
      && var v2 := Ranges(q2, m2);
      && ((a + 1 < |v2| && v2[a + 1].begin <= v2[a].end) <==> p < b)
      && (if p < b then
            && q2[a + 1] == q[p] && q2[..a + 1] + q2[a + 2..] == q[..a] + [n] + q[b..]
            && Interval(v2[a].begin, v2[a + 1].end) == AddNew(v, from, to)
          else q2 == q[..a] + [n] + q[b..] && v2[a] == AddNew(v, from, to))
  {
    var v := Ranges(q, m);
    var p, a, b := Below(v, from), AddLow(v, from), AddHigh(v, from, to);
    var w := Interval(if a < p then v[a].begin else from, Reach(v, from, to));
    SecondValues(v, from, to);
    hide *;
    SecondNodes(q, a, p, b, n);
    SplicedRanges(q, m, a, n, w, p);
  }

  lemma {:induction false} SecondNodes(q: seq<RbNode>, a: nat, p: nat, b: nat, n: RbNode)
    requires a <= p <= b <= |q| && b <= p + 1
    ensures var q2 := q[..a] + [n] + q[p..];
      && q2[a] == n
      && (p < b ==> q2[a + 1] == q[p] && q2[..a + 1] + q2[a + 2..] == q[..a] + [n] + q[b..])
      && (p == b ==> q2 == q[..a] + [n] + q[b..])
  {
    if p < b {
      SkipOne(q[..a] + [n], q[p..]);
      assert q[p..][1..] == q[b..];
    }
  }

  lemma {:induction false} SecondValues(v: seq<Interval>, from: nat, to: nat)
    ensures var p, a, b := Below(v, from), AddLow(v, from), AddHigh(v, from, to);
            var v2 := Spliced(v, a, Interval(if a < p then v[a].begin else from, Reach(v, from, to)), p);
      && a <= p <= b <= p + 1 && |v2| == a + 1 + (|v| - p)
      && ((a + 1 < |v2| && v2[a + 1].begin <= v2[a].end) <==> p < b)
      && (if p < b then Interval(v2[a].begin, v2[a + 1].end) == AddNew(v, from, to) else v2[a] == AddNew(v, from, to))
  {
    hide Below;
  }

  /** The first half of __balloc_add_range: the new node is in place and merged with the previous interval. */
  method InsertJoined(tree: RbTree, node: RbNode, m: Extents, from: nat, to: nat) returns (m': Extents, gone: RbNode?)
    requires tree.Valid() && node !in tree.nodes
    requires Ordered(Inorder(tree.tree), m)
    modifies tree, node, tree.nodes
    ensures tree.Valid() && tree.nodes <= old(tree.nodes) + {node}
    ensures var q := old(Inorder(tree.tree)); var v := Ranges(q, m); var p, a := Below(v, from), AddLow(v, from);
      && Inorder(tree.tree) == q[..a] + [node] + q[p..]
      && m' == m[node := Interval(if a < p then v[a].begin else from, Reach(v, from, to))]
      && gone == (if a < p then q[a] else null)
  {
    hide At;
    hide Inorder;
    hide Nodes;
    hide Separated;
    hide JoinsPrevious;
    hide Reach;
    hide AddLow;
    tree.DistinctNodes();
    ghost var q, v := Inorder(tree.tree), Ranges(Inorder(tree.tree), m);
    FirstMerge(q, m, node, from, to);
    InsertNew(tree, node, m, from);
    m' := m[node := Interval(from, to)];
    gone, m' := MergePrevious(tree, node, m', Below(v, from));
  }

  lemma {:induction false} Overwritten(m: Extents, n: RbNode, v: Interval, w: Interval)
    ensures m[n := v][n := w] == m[n := w]
  {
  }

  /** __balloc_add_range but for the free list: x and y are the merged nodes that it gives back. */
  method AddNode(tree: RbTree, node: RbNode, m: Extents, from: nat, to: nat)
      returns (m': Extents, x: RbNode?, y: RbNode?)
    requires tree.Valid() && node !in tree.nodes
    requires Ordered(Inorder(tree.tree), m)
    modifies tree, node, tree.nodes
    ensures tree.Valid() && tree.nodes <= old(tree.nodes) + {node}
    ensures var q := old(Inorder(tree.tree)); var v := Ranges(q, m);
      var p, a, b := Below(v, from), AddLow(v, from), AddHigh(v, from, to);
      && Inorder(tree.tree) == q[..a] + [node] + q[b..]
      && m' == m[node := AddNew(v, from, to)]
      && x == (if a < p then q[a] else null) && y == (if p < b then q[p] else null)
  {
    hide At;
    hide Inorder;
    hide Nodes;
    hide Separated;
    hide Known;
    hide Ranges;
    hide JoinsPrevious;
    hide JoinsNext;
    hide Reach;
    hide AddLow;
    hide AddHigh;
    hide AddNew;
    hide Below;
    tree.DistinctNodes();
    ghost var q, v := Inorder(tree.tree), Ranges(Inorder(tree.tree), m);
    SecondMerge(q, m, node, from, to);
    m', x := InsertJoined(tree, node, m, from, to);
    Overwritten(m, node, m'[node], AddNew(v, from, to));
    y, m' := MergeNext(tree, node, m', AddLow(v, from));
  }

  // ----- the pool -----

  /** Every node of the pool is in exactly one place: a tree, the free list, or in the caller's hands. */
  ghost predicate Pooled(f: seq<RbNode>, o: seq<RbNode>, l: seq<RbNode>, held: multiset<RbNode>, pool: set<RbNode>) {
    multiset(f) + multiset(o) + multiset(l) + held == multiset(pool)
  }

  ghost predicate Ordered(q: seq<RbNode>, m: Extents) {
    Known(q, m) && Separated(Ranges(q, m))
  }

  lemma {:induction false} PooledExchange(f: seq<RbNode>, o: seq<RbNode>, l: seq<RbNode>, held: multiset<RbNode>,
      pool: set<RbNode>, f': seq<RbNode>, l': seq<RbNode>)
    requires multiset(f') + multiset(l') == multiset(f) + multiset(l)
    ensures Pooled(f, o, l, held, pool) ==> Pooled(f', o, l', held, pool)
    ensures Pooled(o, f, l, held, pool) ==> Pooled(o, f', l', held, pool)
  {
    assert multiset(f') + multiset(o) + multiset(l') == (multiset(f') + multiset(l')) + multiset(o);
    assert multiset(o) + multiset(f') + multiset(l') == (multiset(f') + multiset(l')) + multiset(o);
    assert multiset(f) + multiset(o) + multiset(l) == (multiset(f) + multiset(l)) + multiset(o);
    assert multiset(o) + multiset(f) + multiset(l) == (multiset(f) + multiset(l)) + multiset(o);
  }

  lemma {:induction false} SplicedNodes(q: seq<RbNode>, a: nat, n: RbNode, b: nat)
    requires a <= b <= |q|
    ensures multiset(q[..a] + [n] + q[b..]) + multiset(q[a..b]) == multiset(q) + multiset{n}
  {
    assert q == q[..a] + q[a..b] + q[b..];
  }

  lemma {:induction false} PoolApart(f: seq<RbNode>, o: seq<RbNode>, l: seq<RbNode>, held: multiset<RbNode>,
      pool: set<RbNode>)
    requires Pooled(f, o, l, held, pool)
    ensures forall i | 0 <= i < |f| :: f[i] !in o && f[i] !in l && f[i] !in held
    ensures forall i | 0 <= i < |o| :: o[i] !in l && o[i] !in held
    ensures forall i | 0 <= i < |l| :: l[i] !in held
    ensures (forall i | 0 <= i < |f| :: f[i] in pool) && (forall i | 0 <= i < |o| :: o[i] in pool)
              && (forall i | 0 <= i < |l| :: l[i] in pool)
  {
    var m := multiset(pool);
    forall i | 0 <= i < |f|
      ensures f[i] !in o && f[i] !in l && f[i] !in held && f[i] in pool
    {
      assert f[i] in multiset(f) && m[f[i]] <= 1;
    }
    forall i | 0 <= i < |o|
      ensures o[i] !in l && o[i] !in held && o[i] in pool
    {
      assert o[i] in multiset(o) && m[o[i]] <= 1;
    }
    forall i | 0 <= i < |l|
      ensures l[i] !in held && l[i] in pool
    {
      assert l[i] in multiset(l) && m[l[i]] <= 1;
    }
  }

  /** The free list after __balloc_add_range: its first node taken, the merged nodes put back. */
  function Returned(q: seq<RbNode>, v: seq<Interval>, from: nat, to: nat, l: seq<RbNode>): seq<RbNode>
    requires |v| == |q| && l != []
  {
    var p, a, b := Below(v, from), AddLow(v, from), AddHigh(v, from, to);
    (if p < b then [q[p]] else []) + ((if a < p then [q[a]] else []) + l[1..])
  }

  lemma {:induction false} MiddleNodes(q: seq<RbNode>, a: nat, p: nat, b: nat)
    requires a <= p <= b <= |q| && p - a <= 1 && b - p <= 1
    ensures q[a..b] == (if a < p then [q[a]] else []) + (if p < b then [q[p]] else [])
  {
  }

  lemma {:induction false} Exchange(q: seq<RbNode>, a: nat, n: RbNode, b: nat, x: seq<RbNode>, y: seq<RbNode>,
      t: seq<RbNode>)
    requires a <= b <= |q| && q[a..b] == x + y
    ensures multiset(q[..a] + [n] + q[b..]) + multiset(y + (x + t)) == multiset(q) + multiset([n] + t)
  {
    var q' := multiset(q[..a] + [n] + q[b..]);
    SplicedNodes(q, a, n, b);
    calc {
      q' + multiset(y + (x + t));
      q' + (multiset(x + y) + multiset(t));
      (q' + multiset(q[a..b])) + multiset(t);
      (multiset(q) + multiset{n}) + multiset(t);
      multiset(q) + multiset([n] + t);
    }
  }

  lemma {:induction false} ReturnedNodes(q: seq<RbNode>, v: seq<Interval>, from: nat, to: nat, l: seq<RbNode>)
    requires |v| == |q| && l != []
    ensures multiset(q[..AddLow(v, from)] + [l[0]] + q[AddHigh(v, from, to)..]) + multiset(Returned(q, v, from, to, l))
              == multiset(q) + multiset(l)
  {
    var p, a, b := Below(v, from), AddLow(v, from), AddHigh(v, from, to);
    MiddleNodes(q, a, p, b);
    assert l == [l[0]] + l[1..];
    Exchange(q, a, l[0], b, if a < p then [q[a]] else [], if p < b then [q[p]] else [], l[1..]);
  }

  lemma {:induction false} OtherOrdered(q: seq<RbNode>, m: Extents, n: RbNode, v: Interval)
    requires Ordered(q, m) && n !in q
    ensures Ordered(q, m[n := v]) && Ranges(q, m[n := v]) == Ranges(q, m)
  {
    assert Ranges(q, m[n := v]) == Ranges(q, m);
  }

  /** The order after __balloc_add_range with node n, and the intervals it holds. */
  function AddedNodes(q: seq<RbNode>, v: seq<Interval>, from: nat, to: nat, n: RbNode): seq<RbNode>
    requires |v| == |q|
  {
    q[..AddLow(v, from)] + [n] + q[AddHigh(v, from, to)..]
  }

  lemma {:induction false} AddedOrdered(q: seq<RbNode>, m: Extents, from: nat, to: nat, n: RbNode)
    requires Ordered(q, m) && n !in q && from < to
    ensures var v := Ranges(q, m); var q', m' := AddedNodes(q, v, from, to, n), m[n := AddNew(v, from, to)];
      Ordered(q', m') && Ranges(q', m') == Added(v, from, to)
  {
    var v := Ranges(q, m);
    SplicedRanges(q, m, AddLow(v, from), n, AddNew(v, from, to), AddHigh(v, from, to));
    AddedSeparated(v, from, to);
  }

  lemma {:induction false} RangesConcat(a: seq<RbNode>, c: seq<RbNode>, m: Extents)
    requires Known(a + c, m)
    ensures Known(a, m) && Known(c, m) && Ranges(a + c, m) == Ranges(a, m) + Ranges(c, m)
  {
    assert forall i | 0 <= i < |a| :: (a + c)[i] == a[i];
    assert forall i | 0 <= i < |c| :: (a + c)[|a| + i] == c[i];
  }

  /** A gap between the nodes a and the nodes c, wide enough for [from, to) and more. */
  predicate Gap(a: seq<RbNode>, c: seq<RbNode>, m: Extents, from: nat, to: nat) {
    && from < to && Known(a, m) && Known(c, m)
    && (a != [] ==> m[a[|a| - 1]].end < from) && (c != [] ==> to < m[c[0]].begin)
  }

  lemma {:induction false} GapNodes(a: seq<RbNode>, c: seq<RbNode>, m: Extents, from: nat, to: nat, l: seq<RbNode>)
    requires Ordered(a + c, m) && Gap(a, c, m, from, to) && l != []
    ensures var v := Ranges(a + c, m);
      && AddedNodes(a + c, v, from, to, l[0]) == a + [l[0]] + c
      && Returned(a + c, v, from, to, l) == l[1..] && AddNew(v, from, to) == Interval(from, to)
  {
    hide AddLow;
    hide AddHigh;
    hide Below;
    hide AddNew;
    hide Added;
    hide Separated;
    RangesConcat(a, c, m);
    AddInGap(Ranges(a, m), Ranges(c, m), from, to);
    hide Ranges;
    assert (a + c)[..|a|] == a && (a + c)[|a|..] == c;
  }

  lemma {:induction false} TakenOrdered(a: seq<RbNode>, n: RbNode, c: seq<RbNode>, m: Extents)
    requires Ordered(a + [n] + c, m)
    ensures n in m && m[n].begin < m[n].end && Ordered(a + c, m) && Gap(a, c, m, m[n].begin, m[n].end)
  {
    RangesConcat(a + [n], c, m);
    RangesConcat(a, [n], m);
    assert [n][0] in m && Ranges([n], m) == [m[n]];
    SeparatedOut(Ranges(a, m), m[n], Ranges(c, m));
    KnownConcat(a, c, m);
    RangesConcat(a, c, m);
  }

  lemma {:induction false} KnownConcat(a: seq<RbNode>, c: seq<RbNode>, m: Extents)
    requires Known(a, m) && Known(c, m)
    ensures Known(a + c, m)
  {
  }

  lemma {:induction false} TakenPooled(a: seq<RbNode>, n: RbNode, c: seq<RbNode>, o: seq<RbNode>, l: seq<RbNode>,
      held: multiset<RbNode>, pool: set<RbNode>)
    ensures Pooled(a + [n] + c, o, l, held, pool) ==> Pooled(a + c, o, l, held + multiset{n}, pool)
    ensures Pooled(o, a + [n] + c, l, held, pool) ==> Pooled(o, a + c, l, held + multiset{n}, pool)
  {
    var r := multiset(a + c);
    assert multiset(a + [n] + c) == r + multiset{n};
    assert r + multiset(o) + multiset(l) + (held + multiset{n}) == (r + multiset{n}) + multiset(o) + multiset(l) + held;
    assert multiset(o) + r + multiset(l) + (held + multiset{n}) == multiset(o) + (r + multiset{n}) + multiset(l) + held;
  }

  /** The intervals of q are the same before and after. */
  predicate Unmoved(q: seq<RbNode>, m: Extents, m': Extents) {
    forall i | 0 <= i < |q| :: q[i] in m && q[i] in m' && m'[q[i]] == m[q[i]]
  }

  function Front(v: Interval, from: nat): seq<Interval> {
    if v.begin < from then [Interval(v.begin, from)] else []
  }

  function Back(v: Interval, to: nat): seq<Interval> {
    if v.end > to then [Interval(to, v.end)] else []
  }

  lemma {:induction false} PiecesJoined(a: seq<RbNode>, x: seq<RbNode>, y: seq<RbNode>, m: Extents, m1: Extents,
      m2: Extents)
    requires Unmoved(a, m, m1) && Unmoved(a + x, m1, m2) && Known(x, m1) && Known(y, m2)
    ensures Unmoved(a, m, m2)
    ensures Known(x + y, m2) && Ranges(x + y, m2) == Ranges(x, m1) + Ranges(y, m2)
  {
    assert forall i | 0 <= i < |a| :: (a + x)[i] == a[i];
    assert forall i | 0 <= i < |x| :: (a + x)[|a| + i] == x[i];
  }

  /** The i-th interval can be cut with `n` spare nodes, if it is cut at all; later ones then can be, too. */
  predicate CanCut(v: seq<Interval>, i: nat, from: nat, to: nat, n: nat) {
    i < |v| && v[i].begin < to ==> v[i].end > from && |Pieces(v[i], from, to)| <= n
  }

  /** The pool is large enough for __balloc_remove_range: only the first interval that it meets can ask for two
      nodes. */
  predicate Affordable(v: seq<Interval>, from: nat, to: nat, n: nat) {
    CanCut(v, EndsBy(v, from), from, to, n)
  }

  lemma {:induction false} OrderedKnown(q: seq<RbNode>, m: Extents)
    requires Ordered(q, m)
    ensures Known(q, m) && Separated(Ranges(q, m))
  {
  }

  lemma {:induction false} UnmovedTail(c: seq<RbNode>, m: Extents, m': Extents)
    requires c != [] && Unmoved(c, m, m')
    ensures Unmoved(c[1..], m, m')
  {
  }

  lemma {:induction false} UnmovedRanges(q: seq<RbNode>, m: Extents, m': Extents)
    requires Known(q, m) && Unmoved(q, m, m')
    ensures Known(q, m') && Ranges(q, m') == Ranges(q, m)
  {
  }

  lemma {:induction false} RangesSlice(q: seq<RbNode>, m: Extents, i: nat)
    requires Known(q, m) && i <= |q|
    ensures Known(q[..i], m) && Ranges(q[..i], m) == Ranges(q, m)[..i]
    ensures Known(q[i..], m) && Ranges(q[i..], m) == Ranges(q, m)[i..]
  {
  }

  /** The state of the loop of __balloc_remove_range before the i-th interval: `a` holds the difference so far,
      the intervals from the i-th on are untouched, and `f` spare nodes are enough for what follows. */
  predicate Removing(q: seq<RbNode>, m: Extents, i: nat, a: seq<RbNode>, m': Extents, from: nat, to: nat, f: nat) {
    && Known(q, m) && i <= |q| && from < to
    && Unmoved(q[i..], m, m') && Known(a, m')
    && Ranges(a, m') == Removed(Ranges(q, m)[..i], from, to)
    && CanCut(Ranges(q, m), i, from, to, f)
  }

  lemma {:induction false} RemoveStart(q: seq<RbNode>, m: Extents, from: nat, to: nat, f: nat)
    requires Ordered(q, m) && from < to && Affordable(Ranges(q, m), from, to, f)
    ensures var i := EndsBy(Ranges(q, m), from); Removing(q, m, i, q[..i], m, from, to, f)
  {
    var v := Ranges(q, m);
    var i := EndsBy(v, from);
    NothingBefore(v, from, to);
    hide Removed;
    hide EndsBy;
    RangesSlice(q, m, i);
  }

  lemma {:induction false} NothingBefore(v: seq<Interval>, from: nat, to: nat)
    requires Separated(v) && from < to
    ensures Removed(v[..EndsBy(v, from)], from, to) == v[..EndsBy(v, from)]
  {
    var i := EndsBy(v, from);
    RemovedMiss([], v[..i], from, to);
    assert [] + v[..i] == v[..i];
  }

  lemma {:induction false} RemoveNext(q: seq<RbNode>, m: Extents, i: nat, a: seq<RbNode>, w: seq<RbNode>,
                                      m1: Extents, m2: Extents, from: nat, to: nat, f: nat)
    requires Ordered(q, m) && Removing(q, m, i, a, m1, from, to, f) && i < |q| && m[q[i]].begin < to
    requires Unmoved(a, m1, m2) && Unmoved(q[i + 1..], m1, m2)
    requires Known(w, m2) && Ranges(w, m2) == Pieces(m[q[i]], from, to)
    ensures |w| <= f + 1 && Removing(q, m, i + 1, a + w, m2, from, to, f - |w| + 1)
  {
    var v := Ranges(q, m);
    OrderedKnown(q, m);
    hide Ordered;
    CanCutNext(v, i, from, to, f);
    hide CanCut;
    hide Pieces;
    hide Separated;
    UnmovedNext(q, i, m, m1, m2);
    UnmovedRanges(a, m1, m2);
    hide Unmoved;
    assert v[..i + 1] == v[..i] + [v[i]];
    RemovedSnoc(v[..i], v[i], from, to);
    hide Removed;
    KnownConcat(a, w, m2);
    RangesConcat(a, w, m2);
  }

  /** An interval that is cut leaves enough spare nodes for the next one. */
  lemma {:induction false} CanCutNext(v: seq<Interval>, i: nat, from: nat, to: nat, f: nat)
    requires Separated(v) && i < |v| && from < to && v[i].begin < to && CanCut(v, i, from, to, f)
    ensures |Pieces(v[i], from, to)| <= f + 1
    ensures CanCut(v, i + 1, from, to, f + 1 - |Pieces(v[i], from, to)|)
  {
  }

  lemma {:induction false} UnmovedNext(q: seq<RbNode>, i: nat, m: Extents, m1: Extents, m2: Extents)
    requires i < |q| && Unmoved(q[i..], m, m1) && Unmoved(q[i + 1..], m1, m2)
    ensures Unmoved(q[i + 1..], m, m2)
  {
    assert q[i + 1..] == q[i..][1..];
    UnmovedTail(q[i..], m, m1);
  }

  lemma {:induction false} RemoveEnd(q: seq<RbNode>, m: Extents, i: nat, a: seq<RbNode>, m': Extents, from: nat,
      to: nat, f: nat)
    requires Ordered(q, m) && Removing(q, m, i, a, m', from, to, f) && (i < |q| ==> m[q[i]].begin >= to)
    ensures Known(a + q[i..], m') && Ranges(a + q[i..], m') == Removed(Ranges(q, m), from, to)
  {
    RemovedTail(Ranges(q, m), i, from, to);
    hide Removed;
    RangesSlice(q, m, i);
    UnmovedRanges(q[i..], m, m');
    KnownConcat(a, q[i..], m');
    RangesConcat(a, q[i..], m');
  }

  /** What the loop needs to know of the interval it is about to cut. */
  lemma {:induction false} RemoveHead(q: seq<RbNode>, m: Extents, i: nat, a: seq<RbNode>, m': Extents, from: nat,
      to: nat, f: nat)
    requires Removing(q, m, i, a, m', from, to, f) && i < |q|
    ensures from < to && q[i..] == [q[i]] + q[i + 1..] && q[i] in m && q[i] in m' && m'[q[i]] == m[q[i]]
    ensures m[q[i]].begin < to ==> m[q[i]].end > from && |Pieces(m[q[i]], from, to)| <= f
    ensures a + q[i..] == a + [q[i]] + q[i + 1..] && i < |a + q[i..]| + |q|
  {
    assert q[i..][0] == q[i];
  }

  lemma {:induction false} RemovingAt(q: seq<RbNode>, m: Extents, i: nat, a: seq<RbNode>, m': Extents, from: nat,
      to: nat, f: nat)
    requires Removing(q, m, i, a, m', from, to, f) && i <= |q|
    ensures i < |q| ==> q[i] in m && q[i] in m' && m'[q[i]] == m[q[i]]
  {
    if i < |q| {
      RemoveHead(q, m, i, a, m', from, to, f);
    }
  }

  lemma {:induction false} CutSpans(q: seq<RbNode>, m: Extents, i: nat, w: seq<RbNode>, m': Extents, from: nat, to: nat)
    requires Known(q, m) && Separated(Ranges(q, m)) && i < |q| && m[q[i]].begin <= from < to <= m[q[i]].end
    requires Unmoved(q[..i], m, m') && Unmoved(q[i + 1..], m, m')
    requires Known(w, m') && Ranges(w, m') == Pieces(m[q[i]], from, to)
    ensures Known(q[..i] + w + q[i + 1..], m') && Ranges(q[..i] + w + q[i + 1..], m') == Removed(Ranges(q, m), from, to)
  {
    CutInside(Ranges(q, m), i, from, to);
    hide Removed;
    RangesSlice(q, m, i);
    RangesSlice(q, m, i + 1);
    UnmovedRanges(q[..i], m, m');
    UnmovedRanges(q[i + 1..], m, m');
    KnownConcat(q[..i], w, m');
    RangesConcat(q[..i], w, m');
    KnownConcat(q[..i] + w, q[i + 1..], m');
    RangesConcat(q[..i] + w, q[i + 1..], m');
  }

  /** An entry of the boot loader's memory map; kind 1 is usable memory. */
  datatype Entry = Entry(addr: nat, length: nat, kind: nat) {
    function End(): nat {
      addr + length
    }
  }

  function AddedAll(es: seq<Entry>): seq<Interval> {
    if es == [] then [] else
      var e := es[|es| - 1];
      Added(AddedAll(es[..|es| - 1]), e.addr, e.End())
  }

  function RemovedAll(v: seq<Interval>, es: seq<Entry>): seq<Interval> {
    if es == [] then v else
      var e, w := es[|es| - 1], RemovedAll(v, es[..|es| - 1]);
      if e.kind != 1 then Removed(w, e.addr, e.End()) else w
  }

  lemma {:induction false} AddedLength(v: seq<Interval>, from: nat, to: nat)
    ensures |Added(v, from, to)| <= |v| + 1
  {
  }

  lemma {:induction false} AddedAllLength(es: seq<Entry>)
    ensures |AddedAll(es)| <= |es|
  {
    if es != [] {
      AddedAllLength(es[..|es| - 1]);
    }
  }

  lemma {:induction false} AddedAllCovers(es: seq<Entry>, x: int)
    requires forall e | e in es :: e.length > 0
    ensures Separated(AddedAll(es))
    ensures Covers(AddedAll(es), x) ==> exists e | e in es :: e.addr <= x < e.End()
  {
    if es != [] {
      var e, t := es[|es| - 1], es[..|es| - 1];
      assert es == t + [e];
      AddedAllCovers(t, x);
      AddedSeparated(AddedAll(t), e.addr, e.End());
      AddedBounds(AddedAll(t), e.addr, e.End(), x);
    }
  }

  lemma {:induction false} RemovedAllCovers(v: seq<Interval>, es: seq<Entry>, x: int)
    requires forall e | e in es :: e.length > 0
    ensures Covers(RemovedAll(v, es), x) <==>
              Covers(v, x) && forall e | e in es && e.kind != 1 :: !(e.addr <= x < e.End())
  {
    if es != [] {
      var e, t := es[|es| - 1], es[..|es| - 1];
      assert es == t + [e];
      RemovedAllCovers(v, t, x);
      RemovedIsDifference(RemovedAll(v, t), e.addr, e.End(), x);
    }
  }

  /** One past the largest address */
  const ADDRESS_LIMIT: nat := 0x1_0000_0000_0000_0000

  /** The end of each entry is an address: its computation does not wrap around. */
  predicate EndsFit(es: seq<Entry>) {
    forall e | e in es :: e.End() < ADDRESS_LIMIT
  }

  const BALLOC_MAX_RANGES: nat := 128

  class Balloc {
    const freeRanges: RbTree
    const memoryMap: RbTree
    var freeList: seq<RbNode>
    var extents: Extents
    ghost const pool: set<RbNode>

    ghost predicate Ready(held: multiset<RbNode>)
      reads this, freeRanges, memoryMap, freeRanges.nodes, memoryMap.nodes
    {
      && freeRanges != memoryMap && freeRanges.Valid() && memoryMap.Valid()
      && Pooled(Inorder(freeRanges.tree), Inorder(memoryMap.tree), freeList, held, pool)
      && Ordered(Inorder(freeRanges.tree), extents) && Ordered(Inorder(memoryMap.tree), extents)
    }

    /** The abstract value of a tree: the intervals it holds, in order. */
    ghost function Spans(tree: RbTree): seq<Interval>
      reads this, tree
    {
      var q := Inorder(tree.tree);
      if Known(q, extents) then Ranges(q, extents) else []
    }

    lemma Apart(held: multiset<RbNode>)
      requires Ready(held)
      ensures freeRanges.nodes !! memoryMap.nodes
      ensures forall n | n in freeList :: n !in freeRanges.nodes && n !in memoryMap.nodes && n !in held
      ensures forall n | n in held :: n !in freeRanges.nodes && n !in memoryMap.nodes
      ensures freeRanges.nodes <= pool && memoryMap.nodes <= pool
                && forall i | 0 <= i < |freeList| :: freeList[i] in pool
    {
      hide Inorder;
      freeRanges.DistinctNodes();
      memoryMap.DistinctNodes();
      PoolApart(Inorder(freeRanges.tree), Inorder(memoryMap.tree), freeList, held, pool);
    }

    /** balloc_setup_nodes, for two empty trees */
    constructor ()
      ensures fresh(freeRanges) && fresh(memoryMap) && fresh(pool)
      ensures Ready(multiset{}) && |pool| == |freeList| == BALLOC_MAX_RANGES
      ensures Inorder(freeRanges.tree) == [] && Inorder(memoryMap.tree) == []
    {
      var list: seq<RbNode> := [];
      ghost var all: set<RbNode> := {};
      for i := 0 to BALLOC_MAX_RANGES
        invariant |list| == |all| == i && fresh(all) && multiset(list) == multiset(all)
        invariant forall n | n in all :: n in list
      {
        var node := new RbNode();
        list := [node] + list;
        all := all + {node};
      }
      pool, freeList, extents := all, list, map[];
      var f := new RbTree();
      var o := new RbTree();
      freeRanges, memoryMap := f, o;
    }

    ghost function Twin(tree: RbTree): RbTree {
      if tree == freeRanges then memoryMap else freeRanges
    }

    /** __balloc_add_range, on one tree and the free list */
    method AddFromPool(tree: RbTree, from: nat, to: nat)
      requires freeList != [] && tree.Valid() && freeList[0] !in tree.nodes
      requires Ordered(Inorder(tree.tree), extents)
      modifies this`freeList, this`extents, tree, tree.nodes, freeList[0]
      ensures tree.Valid() && tree.nodes <= old(tree.nodes) + {old(freeList[0])}
      ensures var q, v, n := old(Inorder(tree.tree)), old(Ranges(Inorder(tree.tree), extents)), old(freeList)[0];
        && Inorder(tree.tree) == AddedNodes(q, v, from, to, n)
        && extents == old(extents)[n := AddNew(v, from, to)]
        && freeList == Returned(q, v, from, to, old(freeList))
    {
      hide At;
      hide Inorder;
      hide Nodes;
      hide Ordered;
      hide Ranges;
      hide AddNew;
      hide Below;
      hide AddLow;
      hide AddHigh;
      var node := freeList[0];
      freeList := freeList[1..];
      var x, y;
      extents, x, y := AddNode(tree, node, extents, from, to);
      GiveBack(x, y);
    }

    /** balloc_free_node of the nodes that merging left over */
    method GiveBack(x: RbNode?, y: RbNode?)
      modifies this`freeList
      ensures freeList == (if y != null then [y] else []) + ((if x != null then [x] else []) + old(freeList))
    {
      if x != null {
        freeList := [x] + freeList;
      }
      if y != null {
        freeList := [y] + freeList;
      }
    }

    /** What __balloc_add_range will leave, seen before it runs. */
    lemma AddForeseen(tree: RbTree, from: nat, to: nat, held: multiset<RbNode>)
      requires Ready(held) && (tree == freeRanges || tree == memoryMap) && from < to && freeList != []
      ensures Ordered(Inorder(tree.tree), extents)
      ensures var q, o, n := Inorder(tree.tree), Inorder(Twin(tree).tree), freeList[0];
              var v := Ranges(q, extents);
              var q', l', m' := AddedNodes(q, v, from, to, n), Returned(q, v, from, to, freeList),
                extents[n := AddNew(v, from, to)];
        && tree.nodes !! Twin(tree).nodes && n !in tree.nodes && n !in Twin(tree).nodes
        && Ordered(q', m') && Known(q', m') && Ranges(q', m') == Added(v, from, to)
        && Known(o, extents) && Ordered(o, m') && Known(o, m') && Ranges(o, m') == Ranges(o, extents)
        && if tree == freeRanges then Pooled(q', o, l', held, pool) else Pooled(o, q', l', held, pool)
    {
      hide At;
      hide Inorder;
      hide Nodes;
      Apart(held);
      tree.DistinctNodes();
      Twin(tree).DistinctNodes();
      var q, o, l := Inorder(tree.tree), Inorder(Twin(tree).tree), freeList;
      var v := Ranges(q, extents);
      ReturnedNodes(q, v, from, to, l);
      PooledExchange(q, o, l, held, pool, AddedNodes(q, v, from, to, l[0]), Returned(q, v, from, to, l));
      AddedOrdered(q, extents, from, to, l[0]);
      OtherOrdered(o, extents, l[0], AddNew(v, from, to));
    }

    /** __balloc_add_range */
    method AddRange(tree: RbTree, from: nat, to: nat, ghost held: multiset<RbNode>)
      requires Ready(held) && (tree == freeRanges || tree == memoryMap) && from < to && freeList != []
      modifies this`freeList, this`extents, tree, tree.nodes, freeList[0]
      ensures Ready(held)
      ensures var q, v := old(Inorder(tree.tree)), old(Ranges(Inorder(tree.tree), extents));
        && Inorder(tree.tree) == AddedNodes(q, v, from, to, old(freeList)[0])
        && Spans(tree) == Added(v, from, to)
        && extents == old(extents)[old(freeList)[0] := AddNew(v, from, to)]
        && freeList == Returned(q, v, from, to, old(freeList))
      ensures Spans(Twin(tree)) == old(Spans(Twin(tree)))
    {
      hide At;
      hide Inorder;
      hide Nodes;
      hide Pooled;
      hide Ordered;
      hide AddNew;
      hide AddedNodes;
      hide Returned;
      hide Ranges;
      AddForeseen(tree, from, to, held);
      AddFromPool(tree, from, to);
    }

    /** Adding strictly between two neighbours: one node more, nothing merged. */
    method AddPiece(tree: RbTree, from: nat, to: nat, ghost held: multiset<RbNode>, ghost a: seq<RbNode>,
        ghost c: seq<RbNode>)
      requires Ready(held) && (tree == freeRanges || tree == memoryMap) && freeList != []
      requires Inorder(tree.tree) == a + c && Gap(a, c, extents, from, to)
      modifies this`freeList, this`extents, tree, tree.nodes, freeList[0]
      ensures Ready(held) && Inorder(tree.tree) == a + [old(freeList)[0]] + c
      ensures freeList == old(freeList)[1..] && extents == old(extents)[old(freeList)[0] := Interval(from, to)]
      ensures Spans(Twin(tree)) == old(Spans(Twin(tree)))
    {
      hide At;
      hide Inorder;
      hide Nodes;
      hide Pooled;
      GapNodes(a, c, extents, from, to, freeList);
      hide Ordered;
      hide Ranges;
      hide AddedNodes;
      hide Returned;
      hide AddNew;
      hide Added;
      AddRange(tree, from, to, held);
    }

    /** rb_erase of an interval, whose node is then in the caller's hands. */
    method TakeOut(tree: RbTree, node: RbNode, ghost held: multiset<RbNode>, ghost a: seq<RbNode>, ghost c: seq<RbNode>)
      requires Ready(held) && (tree == freeRanges || tree == memoryMap)
      requires Inorder(tree.tree) == a + [node] + c
      modifies tree, tree.nodes
      ensures Ready(held + multiset{node}) && node in extents && Inorder(tree.tree) == a + c
      ensures extents[node].begin < extents[node].end && Gap(a, c, extents, extents[node].begin, extents[node].end)
      ensures Spans(Twin(tree)) == old(Spans(Twin(tree)))
    {
      hide At;
      hide Inorder;
      hide Nodes;
      hide Pooled;
      hide Ordered;
      hide Ranges;
      hide Gap;
      Apart(held);
      TakenOrdered(a, node, c, extents);
      TakenPooled(a, node, c, Inorder(Twin(tree).tree), freeList, held, pool);
      CutOne(a + [node] + c, a, node, c);
      tree.Erase(node, |a|);
    }

    /** balloc_free_node */
    method FreeNode(node: RbNode, ghost held: multiset<RbNode>)
      requires Ready(held + multiset{node})
      modifies this`freeList
      ensures Ready(held) && freeList == [node] + old(freeList)
    {
      hide At;
      hide Inorder;
      hide Nodes;
      hide Ordered;
      ghost var f, o := Inorder(freeRanges.tree), Inorder(memoryMap.tree);
      assert multiset(f) + multiset(o) + multiset([node] + freeList) + held
          == multiset(f) + multiset(o) + multiset(freeList) + (held + multiset{node});
      freeList := [node] + freeList;
    }

    /** The first half of the loop body of __balloc_remove_range: the interval is out, what lay before `from` is
        back. */
    method CutFront(tree: RbTree, node: RbNode, from: nat, ghost to: nat, ghost held: multiset<RbNode>,
        ghost a: seq<RbNode>, ghost c: seq<RbNode>)
      returns (ghost w: seq<RbNode>)
      requires Ready(held) && (tree == freeRanges || tree == memoryMap)
      requires Inorder(tree.tree) == a + [node] + c && node in extents
      requires from < extents[node].end && extents[node].begin < to && from < to
                 && (extents[node].begin < from ==> freeList != [])
      modifies this`freeList, this`extents, tree, pool
      ensures Ready(held + multiset{node}) && Inorder(tree.tree) == a + w + c && node in extents
      ensures extents[node] == old(extents[node]) && Unmoved(a, old(extents), extents)
                && Unmoved(c, old(extents), extents)
      ensures Known(w, extents) && Ranges(w, extents) == Front(extents[node], from)
      ensures |w| + |freeList| == |old(freeList)|
      ensures to < extents[node].end ==> Gap(a + w, c, extents, to, extents[node].end)
      ensures Spans(Twin(tree)) == old(Spans(Twin(tree)))
    {
      hide At;
      hide Inorder;
      hide Nodes;
      hide Pooled;
      hide Ordered;
      hide Spans;
      Apart(held);
      TakeOut(tree, node, held, a, c);
      w := [];
      assert a + w == a;
      if extents[node].begin < from {
        FreshNode(tree, held + multiset{node}, a, c);
        ghost var m := extents;
        w := [freeList[0]];
        AddPiece(tree, extents[node].begin, from, held + multiset{node}, a, c);
        assert w[0] == old(freeList)[0];
      }
    }

    /** The node that the free list hands out next is in no tree. */
    lemma FreshNode(tree: RbTree, held: multiset<RbNode>, a: seq<RbNode>, c: seq<RbNode>)
      requires Ready(held) && (tree == freeRanges || tree == memoryMap) && Inorder(tree.tree) == a + c && freeList != []
      ensures freeList[0] !in held && freeList[0] in pool && tree.nodes <= pool
      ensures forall i | 0 <= i < |a| :: a[i] != freeList[0]
      ensures forall i | 0 <= i < |c| :: c[i] != freeList[0]
    {
      Apart(held);
      tree.DistinctNodes();
      assert forall i | 0 <= i < |a| :: (a + c)[i] == a[i];
      assert forall i | 0 <= i < |c| :: (a + c)[|a| + i] == c[i];
    }

    /** The second half: what lay from `to` on is back. */
    method CutBack(tree: RbTree, node: RbNode, to: nat, ghost held: multiset<RbNode>, ghost a: seq<RbNode>,
        ghost c: seq<RbNode>)
      returns (ghost w: seq<RbNode>)
      requires Ready(held + multiset{node}) && (tree == freeRanges || tree == memoryMap)
      requires Inorder(tree.tree) == a + c && node in extents
      requires to < extents[node].end ==> Gap(a, c, extents, to, extents[node].end) && freeList != []
      modifies this`freeList, this`extents, tree, pool
      ensures Ready(held) && Inorder(tree.tree) == a + w + c
      ensures Unmoved(a, old(extents), extents) && Unmoved(c, old(extents), extents)
      ensures Known(w, extents) && Ranges(w, extents) == Back(old(extents[node]), to)
      ensures |w| + |freeList| == |old(freeList)| + 1
      ensures Spans(Twin(tree)) == old(Spans(Twin(tree)))
    {
      hide At;
      hide Inorder;
      hide Nodes;
      hide Pooled;
      hide Ordered;
      hide Gap;
      w := [];
      assert a + w == a;
      HeldKnown(tree, held + multiset{node}, a, c);
      if extents[node].end > to {
        FreshNode(tree, held + multiset{node}, a, c);
        w := [freeList[0]];
        AddPiece(tree, to, extents[node].end, held + multiset{node}, a, c);
        assert w[0] == old(freeList)[0];
      }
      FreeNode(node, held);
    }

    lemma HeldKnown(tree: RbTree, held: multiset<RbNode>, a: seq<RbNode>, c: seq<RbNode>)
      requires Ready(held) && (tree == freeRanges || tree == memoryMap) && Inorder(tree.tree) == a + c
      ensures Known(a, extents) && Known(c, extents)
    {
      RangesConcat(a, c, extents);
    }

    /** The loop body of __balloc_remove_range, and what __balloc_alloc does on success: [from, to) is cut out of
        one interval. */
    method CutOut(tree: RbTree, node: RbNode, from: nat, to: nat, ghost held: multiset<RbNode>, ghost a: seq<RbNode>,
        ghost c: seq<RbNode>)
      returns (ghost w: seq<RbNode>)
      requires Ready(held) && (tree == freeRanges || tree == memoryMap)
      requires Inorder(tree.tree) == a + [node] + c && node in extents
      requires var v := extents[node]; from < v.end && v.begin < to && from < to && |Pieces(v, from, to)| <= |freeList|
      modifies this`freeList, this`extents, tree, pool
      ensures Ready(held) && Inorder(tree.tree) == a + w + c
      ensures Unmoved(a, old(extents), extents) && Unmoved(c, old(extents), extents)
      ensures Known(w, extents) && Ranges(w, extents) == Pieces(old(extents[node]), from, to)
      ensures |w| + |freeList| == |old(freeList)| + 1
      ensures Spans(Twin(tree)) == old(Spans(Twin(tree)))
    {
      hide At;
      hide Inorder;
      hide Nodes;
      hide Pooled;
      hide Ordered;
      hide Gap;
      hide Ranges;
      ghost var m := extents;
      ghost var x := CutFront(tree, node, from, to, held, a, c);
      ghost var m1 := extents;
      ghost var y := CutBack(tree, node, to, held, a + x, c);
      w := x + y;
      assert (a + x) + y == a + w;
      PiecesJoined(a, x, y, m, m1, extents);
    }

    /** One pass of the loop of __balloc_remove_range.  `next` is read before the tree is changed, and is still
        right after. */
    method RemoveStep(tree: RbTree, ptr: RbNode, from: nat, to: nat, ghost held: multiset<RbNode>,
                      ghost q: seq<RbNode>, ghost m: Extents, ghost i: nat, ghost a: seq<RbNode>)
      returns (next: RbNode?, ghost a': seq<RbNode>)
      requires Ready(held) && (tree == freeRanges || tree == memoryMap) && Ordered(q, m)
      requires i < |q| && q[i] == ptr && Inorder(tree.tree) == a + q[i..]
      requires Removing(q, m, i, a, extents, from, to, |freeList|) && ptr in extents && extents[ptr].begin < to
      modifies this`freeList, this`extents, tree, pool
      ensures Ready(held) && Inorder(tree.tree) == a' + q[i + 1..]
      ensures Removing(q, m, i + 1, a', extents, from, to, |freeList|)
      ensures next == if i + 1 < |q| then q[i + 1] else null
      ensures Spans(Twin(tree)) == old(Spans(Twin(tree)))
    {
      hide At;
      hide Inorder;
      hide Nodes;
      hide Pooled;
      hide Ordered;
      hide Removed;
      hide Pieces;
      hide Removing;
      hide Ranges;
      ghost var m1, f := extents, |freeList|;
      RemoveHead(q, m, i, a, m1, from, to, f);
      next := tree.Next(ptr, |a|);
      ghost var w := CutOut(tree, ptr, from, to, held, a, q[i + 1..]);
      RemoveNext(q, m, i, a, w, m1, extents, from, to, f);
      a' := a + w;
    }

    /** The loop of __balloc_remove_range, from the i-th interval on. */
    method RemoveFrom(tree: RbTree, first: RbNode?, from: nat, to: nat, ghost held: multiset<RbNode>,
                      ghost q: seq<RbNode>, ghost m: Extents, ghost first_i: nat, ghost first_a: seq<RbNode>)
      requires Ready(held) && (tree == freeRanges || tree == memoryMap) && Ordered(q, m)
      requires first_i <= |q| && Inorder(tree.tree) == first_a + q[first_i..]
                 && first == (if first_i < |q| then q[first_i] else null)
      requires Removing(q, m, first_i, first_a, extents, from, to, |freeList|)
      modifies this`freeList, this`extents, tree, pool
      ensures Ready(held) && Known(q, m) && Spans(tree) == Removed(Ranges(q, m), from, to)
      ensures Spans(Twin(tree)) == old(Spans(Twin(tree)))
    {
      hide At;
      hide Inorder;
      hide Nodes;
      hide Removed;
      hide Removing;
      hide Ordered;
      hide Ready;
      hide Ranges;
      OrderedKnown(q, m);
      var ptr := first;
      ghost var i, a := first_i, first_a;
      RemovingAt(q, m, i, a, extents, from, to, |freeList|);
      while ptr != null && extents[ptr].begin < to
        invariant i <= |q| && Inorder(tree.tree) == a + q[i..] && Ready(held)
        invariant Removing(q, m, i, a, extents, from, to, |freeList|)
        invariant ptr == if i < |q| then q[i] else null
        invariant ptr != null ==> ptr in m && ptr in extents && extents[ptr] == m[ptr]
        invariant Spans(Twin(tree)) == old(Spans(Twin(tree)))
        decreases |q| - i
      {
        ptr, a := RemoveStep(tree, ptr, from, to, held, q, m, i, a);
        i := i + 1;
        RemovingAt(q, m, i, a, extents, from, to, |freeList|);
      }
      RemoveEnd(q, m, i, a, extents, from, to, |freeList|);
    }

    /** __balloc_remove_range */
    method RemoveRange(tree: RbTree, from: nat, to: nat, ghost held: multiset<RbNode>)
      requires Ready(held) && (tree == freeRanges || tree == memoryMap) && from < to
      requires Affordable(Spans(tree), from, to, |freeList|)
      modifies this`freeList, this`extents, tree, pool
      ensures Ready(held)
      ensures Spans(tree) == Removed(old(Spans(tree)), from, to)
      ensures Spans(Twin(tree)) == old(Spans(Twin(tree)))
    {
      hide At;
      hide Inorder;
      hide Nodes;
      hide Pooled;
      hide Separated;
      hide Removed;
      hide Removing;
      hide Ranges;
      hide Affordable;
      ghost var q, m := Inorder(tree.tree), extents;
      var ptr := FindFirst(tree, extents, from);
      ghost var i := EndsBy(Ranges(q, m), from);
      assert q == q[..i] + q[i..];
      RemoveStart(q, m, from, to, |freeList|);
      RemoveFrom(tree, ptr, from, to, held, q, m, i, q[..i]);
    }

    /** What __balloc_alloc does with an interval that is large enough. */
    method AllocAt(ptr: RbNode, addr: nat, size: nat, ghost held: multiset<RbNode>, ghost i: nat)
      requires Ready(held) && size > 0
      requires i < |Inorder(freeRanges.tree)| && Inorder(freeRanges.tree)[i] == ptr
      requires i < |Spans(freeRanges)| && Affordable(Spans(freeRanges), addr, addr + size, |freeList|)
      requires Spans(freeRanges)[i].begin <= addr && addr + size <= Spans(freeRanges)[i].end
      modifies this`freeList, this`extents, freeRanges, pool
      ensures Ready(held) && Spans(memoryMap) == old(Spans(memoryMap))
      ensures Spans(freeRanges) == Removed(old(Spans(freeRanges)), addr, addr + size)
    {
      hide At;
      hide Inorder;
      hide Nodes;
      hide Pooled;
      hide Removed;
      hide Ordered;
      hide Pieces;
      hide Affordable;
      hide Known;
      ghost var q, m := Inorder(freeRanges.tree), extents;
      AllocFacts(ptr, addr, size, held, i);
      hide Ready;
      hide Ranges;
      ghost var w := CutOut(freeRanges, ptr, addr, addr + size, held, q[..i], q[i + 1..]);
      CutSpans(q, m, i, w, extents, addr, addr + size);
    }

    lemma AllocFacts(ptr: RbNode, addr: nat, size: nat, held: multiset<RbNode>, i: nat)
      requires Ready(held) && size > 0
      requires i < |Inorder(freeRanges.tree)| && Inorder(freeRanges.tree)[i] == ptr
      requires i < |Spans(freeRanges)| && Affordable(Spans(freeRanges), addr, addr + size, |freeList|)
      requires Spans(freeRanges)[i].begin <= addr && addr + size <= Spans(freeRanges)[i].end
      ensures var q := Inorder(freeRanges.tree);
        && q == q[..i] + [ptr] + q[i + 1..] && ptr in extents && extents[ptr] == Spans(freeRanges)[i]
        && |Pieces(extents[ptr], addr, addr + size)| <= |freeList|
        && Known(q, extents) && Separated(Ranges(q, extents)) && Spans(freeRanges) == Ranges(q, extents)
    {
      hide Removed;
      hide Pieces;
      hide Inorder;
      hide Nodes;
      hide At;
      hide Pooled;
      CutInside(Spans(freeRanges), i, addr, addr + size);
      SplitAt(Inorder(freeRanges.tree), i);
      hide Separated;
    }

    /** __balloc_alloc: the lowest aligned free place of `size` bytes in [from, to), or `to` if there is none.
        Addresses stay below 2^64, so that no addition wraps around. */
    method Alloc(size: nat, align: nat, from: nat, to: nat, ghost held: multiset<RbNode>) returns (addr: nat)
      requires Ready(held) && size > 0 && align > 0 && to < ADDRESS_LIMIT
      requires forall w | w in Spans(freeRanges) :: w.end + align + size < ADDRESS_LIMIT
      requires from + align + size < ADDRESS_LIMIT
      requires forall x: nat | LeastRoom(Spans(freeRanges), size, align, from, to, x) ::
                 Affordable(Spans(freeRanges), x, x + size, |freeList|)
      modifies this`freeList, this`extents, freeRanges, pool
      ensures Ready(held) && Spans(memoryMap) == old(Spans(memoryMap))
      ensures addr != to ==>
                && LeastRoom(old(Spans(freeRanges)), size, align, from, to, addr)
                && Spans(freeRanges) == Removed(old(Spans(freeRanges)), addr, addr + size)
      ensures addr == to ==>
                && (forall x: nat :: !Room(old(Spans(freeRanges)), size, align, from, to, x))
                && Spans(freeRanges) == old(Spans(freeRanges)) && freeList == old(freeList)
    {
      hide At;
      hide Inorder;
      hide Nodes;
      hide Pooled;
      hide Removed;
      hide Affordable;
      var ptr;
      ghost var i;
      ptr, addr, i := FindRoom(freeRanges, extents, size, align, from, to);
      if ptr == null {
        return to;
      }
      AllocAt(ptr, addr, size, held, i);
    }

    /** The number of spare nodes, from the sizes of the trees. */
    lemma Spare(held: multiset<RbNode>)
      requires Ready(held)
      ensures |Spans(freeRanges)| + |Spans(memoryMap)| + |freeList| + |held| == |pool|
      ensures Separated(Spans(freeRanges)) && Separated(Spans(memoryMap))
    {
      var f, o := Inorder(freeRanges.tree), Inorder(memoryMap.tree);
      assert |multiset(f) + multiset(o) + multiset(freeList) + held| == |multiset(pool)|;
    }

    /** An addition with a spare node at hand. */
    method AddOne(tree: RbTree, from: nat, to: nat)
      requires Ready(multiset{}) && (tree == freeRanges || tree == memoryMap) && from < to
      requires |Spans(freeRanges)| + |Spans(memoryMap)| + 1 <= |pool|
      modifies this`freeList, this`extents, tree, pool
      ensures Ready(multiset{}) && Spans(Twin(tree)) == old(Spans(Twin(tree)))
      ensures Spans(tree) == Added(old(Spans(tree)), from, to) && |Spans(tree)| <= |old(Spans(tree))| + 1
    {
      hide Ready;
      hide Added;
      hide Spans;
      hide Inorder;
      hide AddedNodes;
      hide Returned;
      SpareNode(tree);
      AddedLength(Spans(tree), from, to);
      AddRange(tree, from, to, multiset{});
    }

    lemma SpareNode(tree: RbTree)
      requires Ready(multiset{}) && (tree == freeRanges || tree == memoryMap)
      requires |Spans(freeRanges)| + |Spans(memoryMap)| + 1 <= |pool|
      ensures freeList != [] && freeList[0] in pool && tree.nodes <= pool
      ensures Known(Inorder(tree.tree), extents) && Spans(tree) == Ranges(Inorder(tree.tree), extents)
    {
      hide At;
      hide Inorder;
      hide Nodes;
      hide Pooled;
      Apart(multiset{});
      Spare(multiset{});
    }

    /** One entry of the memory map goes into both sets. */
    method AddBoth(from: nat, to: nat)
      requires Ready(multiset{}) && from < to && |Spans(freeRanges)| + |Spans(memoryMap)| + 2 <= |pool|
      modifies this`freeList, this`extents, freeRanges, memoryMap, pool
      ensures Ready(multiset{})
      ensures Spans(freeRanges) == Added(old(Spans(freeRanges)), from, to)
      ensures Spans(memoryMap) == Added(old(Spans(memoryMap)), from, to)
    {
      hide Ready;
      hide Added;
      hide Spans;
      TwoTrees(multiset{});
      AddOne(memoryMap, from, to);
      AddOne(freeRanges, from, to);
    }

    lemma TwoTrees(held: multiset<RbNode>)
      requires Ready(held)
      ensures freeRanges != memoryMap
    {
    }

    /** The first loop of balloc_parse_mmap, and the kernel's own range: everything goes into both sets. */
    method AddAll(entries: seq<Entry>, kernel: Entry)
      requires Ready(multiset{}) && Spans(freeRanges) == [] && Spans(memoryMap) == []
      requires 2 * |entries| + 2 <= |pool| && EndsFit(entries + [kernel])
                 && forall e | e in entries + [kernel] :: e.length > 0
      modifies this`freeList, this`extents, freeRanges, memoryMap, pool
      ensures Ready(multiset{}) && Spans(freeRanges) == Spans(memoryMap) == AddedAll(entries + [kernel])
    {
      hide At;
      hide Inorder;
      hide Nodes;
      hide Ready;
      hide Added;
      ghost var all := entries + [kernel];
      var n := 0;
      while n < |entries|
        invariant n <= |entries| && Ready(multiset{})
        invariant Spans(freeRanges) == Spans(memoryMap) == AddedAll(all[..n])
      {
        assert all[n] == entries[n] && all[..n + 1] == all[..n] + [entries[n]];
        AddedAllLength(all[..n]);
        AddBoth(entries[n].addr, entries[n].End());
        n := n + 1;
      }
      assert all[..n] == entries;
      AddedAllLength(entries);
      AddBoth(kernel.addr, kernel.End());
    }

    /** The second loop of balloc_parse_mmap, and the kernel's own range: what is not free goes out of the free set. */
    method RemoveAll(entries: seq<Entry>, kernel: Entry)
      requires Ready(multiset{}) && EndsFit(entries + [kernel]) && forall e | e in entries + [kernel] :: e.length > 0
      requires |Spans(freeRanges)| + |Spans(memoryMap)| + |entries| + 2 <= |pool|
      modifies this`freeList, this`extents, freeRanges, pool
      ensures Ready(multiset{}) && Spans(memoryMap) == old(Spans(memoryMap))
      ensures Spans(freeRanges) == RemovedAll(old(Spans(freeRanges)), entries + [kernel.(kind := 0)])
    {
      hide At;
      hide Inorder;
      hide Nodes;
      hide Ready;
      hide Spans;
      hide Removed;
      ghost var v, all := Spans(freeRanges), entries + [kernel.(kind := 0)];
      var n := 0;
      while n < |entries|
        invariant n <= |entries| && Ready(multiset{})
        invariant Spans(freeRanges) == RemovedAll(v, all[..n]) && |Spans(freeRanges)| <= |v| + n
        invariant Spans(memoryMap) == old(Spans(memoryMap))
      {
        assert all[n] == entries[n] && all[..n + 1] == all[..n] + [entries[n]];
        if entries[n].kind != 1 {
          CutFree(entries[n].addr, entries[n].End());
        }
        n := n + 1;
      }
      assert all[..n] == entries;
      CutFree(kernel.addr, kernel.End());
    }

    /** A removal from the free set: with two spare nodes it cannot run out of them. */
    method CutFree(from: nat, to: nat)
      requires Ready(multiset{}) && from < to && |Spans(freeRanges)| + |Spans(memoryMap)| + 2 <= |pool|
      modifies this`freeList, this`extents, freeRanges, pool
      ensures Ready(multiset{}) && Spans(memoryMap) == old(Spans(memoryMap))
      ensures Spans(freeRanges) == Removed(old(Spans(freeRanges)), from, to)
      ensures |Spans(freeRanges)| <= |old(Spans(freeRanges))| + 1
    {
      hide At;
      hide Inorder;
      hide Nodes;
      hide Pooled;
      hide Ordered;
      Spare(multiset{});
      RemovedLength(Spans(freeRanges), from, to);
      RemoveRange(freeRanges, from, to, multiset{});
    }

    /** balloc_parse_mmap, for a map of n entries with 3n + 4 nodes at hand. */
    method ParseMmap(entries: seq<Entry>, kernel: Entry)
      requires Ready(multiset{}) && Spans(freeRanges) == [] && Spans(memoryMap) == []
      requires 3 * |entries| + 4 <= |pool| && EndsFit(entries + [kernel])
                 && forall e | e in entries + [kernel] :: e.length > 0
      modifies this`freeList, this`extents, freeRanges, memoryMap, pool
      ensures Ready(multiset{})
      ensures Spans(memoryMap) == AddedAll(entries + [kernel])
      ensures Spans(freeRanges) == RemovedAll(Spans(memoryMap), entries + [kernel.(kind := 0)])
    {
      hide At;
      hide Inorder;
      hide Nodes;
      hide Ready;
      AddAll(entries, kernel);
      AddedAllLength(entries + [kernel]);
      RemoveAll(entries, kernel);
    }
  }

  lemma {:induction false} RemovedAllSeparated(v: seq<Interval>, es: seq<Entry>)
    requires Separated(v) && forall e | e in es :: e.length > 0
    ensures Separated(RemovedAll(v, es))
  {
    if es != [] {
      var e, t := es[|es| - 1], es[..|es| - 1];
      RemovedAllSeparated(v, t);
      RemovedSeparated(RemovedAll(v, t), e.addr, e.End());
    }
  }

  /** The free set and the memory map that balloc_parse_mmap leaves: nothing reserved and nothing of the kernel is
      free, and what is free is mapped. */
  lemma {:induction false} ParsedSafe(entries: seq<Entry>, kernel: Entry, x: int)
    requires forall e | e in entries + [kernel] :: e.length > 0
    ensures var mapped := AddedAll(entries + [kernel]); var free := RemovedAll(mapped, entries + [kernel.(kind := 0)]);
      && (Covers(free, x) ==> Covers(mapped, x))
      && (Covers(free, x) ==> !(kernel.addr <= x < kernel.End()))
      && (Covers(free, x) ==> forall e | e in entries && e.kind != 1 :: !(e.addr <= x < e.End()))
      && (Covers(mapped, x) ==> exists e | e in entries + [kernel] :: e.addr <= x < e.End())
  {
    var all, out := entries + [kernel], entries + [kernel.(kind := 0)];
    AddedAllCovers(all, x);
    assert out[|entries|] == kernel.(kind := 0);
    assert forall i | 0 <= i < |entries| :: out[i] == entries[i];
    RemovedAllCovers(AddedAll(all), out, x);
  }

  /** The entry holds byte x. */
  predicate In(e: Entry, x: int) {
    e.addr <= x < e.addr + e.length
  }

  lemma {:induction false} AddedAllKeeps(es: seq<Entry>, i: nat, x: int)
    requires i <= |es| && forall e | e in es :: e.length > 0
    ensures Covers(AddedAll(es[..i]), x) ==> Covers(AddedAll(es), x)
    decreases |es|
  {
    if i == |es| {
      assert es[..i] == es;
    } else {
      var e, t := es[|es| - 1], es[..|es| - 1];
      assert t[..i] == es[..i];
      AddedAllKeeps(t, i, x);
      AddedAllCovers(t, x);
      AddedBounds(AddedAll(t), e.addr, e.End(), x);
    }
  }

  lemma {:induction false} FirstByteMapped(es: seq<Entry>, i: nat)
    requires i < |es| && forall e | e in es :: e.length > 0
    ensures Covers(AddedAll(es), es[i].addr)
  {
    var t, e := es[..i], es[i];
    assert es[..i + 1] == t + [e] && (t + [e])[..i] == t;
    AddedAllCovers(t, e.addr);
    FirstAdded(AddedAll(t), e.addr, e.End());
    hide Covers;
    hide Added;
    AddedAllKeeps(es, i + 1, e.addr);
  }

  /** Whatever the entries, the first byte of each is mapped; it is free unless an entry of another kind or the kernel
      holds it. */
  lemma {:induction false} FirstByteParsed(entries: seq<Entry>, kernel: Entry, i: nat)
    requires i <= |entries| && forall e | e in entries + [kernel] :: e.length > 0
    ensures var mapped := AddedAll(entries + [kernel]); var free := RemovedAll(mapped, entries + [kernel.(kind := 0)]);
      var x := (entries + [kernel])[i].addr;
      && Covers(mapped, x)
      && (Covers(free, x) <==> !In(kernel, x) && forall e | e in entries && e.kind != 1 :: !In(e, x))
  {
    FirstByteMapped(entries + [kernel], i);
    FreeIsMapped(entries, kernel, (entries + [kernel])[i].addr);
  }

  /** The bytes that are free are those mapped that neither the kernel nor a reserved entry holds. */
  lemma {:induction false} FreeIsMapped(entries: seq<Entry>, kernel: Entry, x: int)
    requires forall e | e in entries + [kernel] :: e.length > 0
    ensures var mapped := AddedAll(entries + [kernel]); var free := RemovedAll(mapped, entries + [kernel.(kind := 0)]);
      Covers(free, x) <==> Covers(mapped, x) && !In(kernel, x) && forall e | e in entries && e.kind != 1 :: !In(e, x)
  {
    var all, out := entries + [kernel], entries + [kernel.(kind := 0)];
    assert all[|entries|] == kernel;
    assert out[|entries|] == kernel.(kind := 0);
    assert forall i | 0 <= i < |entries| :: out[i] == entries[i] == all[i];
    RemovedAllCovers(AddedAll(all), out, x);
  }

  /** No addition meets an interval that starts inside the new range, or where it ends, and ends before it. */
  predicate Unbroken(es: seq<Entry>) {
    forall n | 0 <= n < |es| :: !Swallows(AddedAll(es[..n]), es[n].addr, es[n].addr + es[n].length)
  }

  lemma {:induction false} UnbrokenLast(t: seq<Entry>, e: Entry)
    ensures Unbroken(t + [e]) <==> Unbroken(t) && !Swallows(AddedAll(t), e.addr, e.addr + e.length)
  {
    hide Swallows;
    hide AddedAll;
    var es := t + [e];
    assert forall n | 0 <= n < |t| :: t[..n] == es[..n] && t[n] == es[n];
    assert es[..|t|] == t && es[|t|] == e;
  }

  lemma {:induction false} UnionMore(t: seq<Entry>, e: Entry, x: int)
    requires Separated(AddedAll(t)) && e.length > 0 && !Swallows(AddedAll(t), e.addr, e.addr + e.length)
    ensures Separated(AddedAll(t + [e])) && (Covers(AddedAll(t + [e]), x) <==> Covers(AddedAll(t), x) || In(e, x))
  {
    assert (t + [e])[..|t|] == t;
    AddedIsUnion(AddedAll(t), e.addr, e.End());
    AddedSeparated(AddedAll(t), e.addr, e.End());
    hide Separated;
    hide Swallows;
    hide Covers;
    hide Added;
  }

  lemma {:induction false} AddedAllUnion(es: seq<Entry>, x: int)
    requires Unbroken(es) && forall e | e in es :: e.length > 0
    ensures Separated(AddedAll(es)) && (Covers(AddedAll(es), x) <==> exists e | e in es :: In(e, x))
  {
    hide Unbroken;
    hide Separated;
    hide Swallows;
    hide Covers;
    hide In;
    if es != [] {
      hide AddedAll;
      var e, t := es[|es| - 1], es[..|es| - 1];
      assert es == t + [e];
      UnbrokenLast(t, e);
      AddedAllUnion(t, x);
      UnionMore(t, e, x);
    } else {
      NoneCovered(x);
    }
  }

  lemma {:induction false} NoneCovered(x: int)
    ensures Separated([]) && !Covers([], x)
  {
  }

  /** When no addition is broken, a byte is mapped if and only if an entry or the kernel holds it, and free if and only
      if a usable entry holds it, and neither the kernel nor an entry of another kind does. */
  lemma {:induction false} ParsedExactly(entries: seq<Entry>, kernel: Entry, x: int)
    requires Unbroken(entries + [kernel]) && forall e | e in entries + [kernel] :: e.length > 0
    ensures var mapped := AddedAll(entries + [kernel]); var free := RemovedAll(mapped, entries + [kernel.(kind := 0)]);
      && (Covers(mapped, x) <==> In(kernel, x) || exists e | e in entries :: In(e, x))
      && (Covers(free, x) <==>
            && (exists e | e in entries :: e.kind == 1 && In(e, x))
            && !In(kernel, x) && forall e | e in entries && e.kind != 1 :: !In(e, x))
  {
    AddedAllUnion(entries + [kernel], x);
    FreeIsMapped(entries, kernel, x);
  }

  /** The entries ascend and do not overlap, and one of them holds the kernel. */
  predicate Orderly(entries: seq<Entry>, kernel: Entry) {
    && (forall i, j | 0 <= i < j < |entries| :: entries[i].addr + entries[i].length <= entries[j].addr)
    && exists e | e in entries :: e.addr <= kernel.addr && kernel.addr + kernel.length <= e.addr + e.length
  }

  /** An orderly memory map is parsed exactly. */
  lemma {:induction false} OrderlyUnbroken(entries: seq<Entry>, kernel: Entry)
    requires Orderly(entries, kernel) && forall e | e in entries + [kernel] :: e.length > 0
    ensures Unbroken(entries + [kernel])
  {
    hide Swallows;
    forall n | 0 <= n < |entries|
      ensures !Swallows(AddedAll(entries[..n]), entries[n].addr, entries[n].addr + entries[n].length)
    {
      AscendingApart(entries, n);
    }
    hide AddedAll;
    assert Unbroken(entries);
    HeldApart(entries, kernel);
    UnbrokenLast(entries, kernel);
  }

  lemma {:induction false} AscendingApart(es: seq<Entry>, n: nat)
    requires n < |es| && forall e | e in es :: e.length > 0
    requires forall i, j | 0 <= i < j < |es| :: es[i].addr + es[i].length <= es[j].addr
    ensures !Swallows(AddedAll(es[..n]), es[n].addr, es[n].addr + es[n].length)
  {
    var v := AddedAll(es[..n]);
    AddedAllCovers(es[..n], 0);
    forall i | 0 <= i < |v|
      ensures v[i].begin < es[n].addr
    {
      assert Covers(v, v[i].end - 1);
      AddedAllCovers(es[..n], v[i].end - 1);
    }
  }

  lemma {:induction false} HeldApart(entries: seq<Entry>, kernel: Entry)
    requires Unbroken(entries) && forall e | e in entries :: e.length > 0
    requires exists e | e in entries :: e.addr <= kernel.addr && kernel.addr + kernel.length <= e.addr + e.length
    ensures !Swallows(AddedAll(entries), kernel.addr, kernel.addr + kernel.length)
  {
    var v := AddedAll(entries);
    AddedAllUnion(entries, 0);
    forall i | 0 <= i < |v| && kernel.addr <= v[i].begin
      ensures v[i].end >= kernel.addr + kernel.length
    {
      EndUncovered(v, i);
      AddedAllUnion(entries, v[i].end);
    }
  }
}
