/** src/list.c: circular doubly linked lists whose nodes sit inside other structures. */
module CircularList {
  import opened Lists

  class ListHead {
    var next: ListHead?
    var prev: ListHead?

    /** Memory for a node */
    constructor () {
    }
  }

  function Succ(i: nat, n: nat): nat
    requires i < n
  {
    if i + 1 == n then 0 else i + 1
  }

  /** The nodes of one list, from its head around: each points to the next and is pointed back to. */
  ghost predicate Ring(s: seq<ListHead>)
    reads s
  {
    && |s| > 0 && NoDuplicates(s)
    && forall i | 0 <= i < |s| :: s[i].next == s[Succ(i, |s|)] && s[Succ(i, |s|)].prev == s[i]
  }

  /** s[i..] + s[..i]: the same ring, seen from another node. */
  function Turned(s: seq<ListHead>, i: nat): seq<ListHead>
    requires i <= |s|
  {
    s[i..] + s[..i]
  }

  lemma {:induction false} RingTurned(s: seq<ListHead>, i: nat)
    requires Ring(s) && i < |s|
    ensures Ring(Turned(s, i))
  {
    var t, n := Turned(s, i), |s|;
    forall j, k | 0 <= j < k < n
      ensures t[j] != t[k]
    {
      assert t[j] == s[if i + j < n then i + j else i + j - n] && t[k] == s[if i + k < n then i + k else i + k - n];
    }
    forall j | 0 <= j < n
      ensures t[j].next == t[Succ(j, n)] && t[Succ(j, n)].prev == t[j]
    {
      var a := if i + j < n then i + j else i + j - n;
      assert t[j] == s[a] && t[Succ(j, n)] == s[Succ(a, n)];
    }
  }

  /** list_init */
  method Init(node: ListHead)
    modifies node
    ensures Ring([node])
  {
    node.next := node;
    node.prev := node;
  }

  /** list_insert, for neighbours prev and next at the two ends of the ring as it is seen here */
  method Insert(node: ListHead, prev: ListHead, next: ListHead, ghost s: seq<ListHead>)
    requires Ring(s) && node !in s && next == s[0] && prev == s[|s| - 1]
    modifies node, prev, next
    ensures Ring(s + [node])
  {
    node.prev := prev;
    node.next := next;
    prev.next := node;
    next.prev := node;
    ghost var t, n := s + [node], |s|;
    assert forall i | 0 <= i < n :: t[i] == s[i] && (s[i] == prev ==> i == n - 1) && (s[i] == next ==> i == 0);
  }

  /** list_add_tail */
  method AddTail(node: ListHead, head: ListHead, ghost s: seq<ListHead>)
    requires Ring(s) && node !in s && head == s[0]
    modifies node, s
    ensures Ring(s + [node])
  {
    Before(s);
    Insert(node, head.prev, head, s);
  }

  lemma {:induction false} Before(s: seq<ListHead>)
    requires Ring(s)
    ensures s[0].prev == s[|s| - 1] && s[|s| - 1].next == s[0]
  {
    assert Succ(|s| - 1, |s|) == 0;
  }

  /** list_add */
  method Add(node: ListHead, head: ListHead, ghost s: seq<ListHead>)
    requires Ring(s) && node !in s && head == s[0]
    modifies node, s
    ensures Ring([head, node] + s[1..])
  {
    assert head.next == s[Succ(0, |s|)];
    ghost var i := if |s| == 1 then 0 else 1;
    RingTurned(s, i);
    ghost var t := Turned(s, i);
    assert t[0] == head.next && t[|t| - 1] == head;
    Insert(node, head, head.next, t);
    RingTurned(t + [node], |s| - 1);
    assert Turned(t + [node], |s| - 1) == [head, node] + s[1..];
  }

  /** __list_del, for the node at the end of the ring as it is seen here */
  method Unlink(prev: ListHead, next: ListHead, ghost node: ListHead, ghost s: seq<ListHead>)
    requires Ring(s + [node]) && |s| > 0 && next == s[0] && prev == s[|s| - 1]
    modifies prev, next
    ensures Ring(s) && node !in s && (prev != node && next != node)
  {
    ghost var t, n := s + [node], |s|;
    WithoutLast(s, node);
    EndsOnly(s);
    assert forall i | 0 <= i < n :: t[i] == s[i];
    prev.next := next;
    next.prev := prev;
  }

  lemma {:induction false} WithoutLast(s: seq<ListHead>, node: ListHead)
    requires NoDuplicates(s + [node])
    ensures NoDuplicates(s) && forall i | 0 <= i < |s| :: s[i] != node
  {
    var t := s + [node];
    assert t[|s|] == node && forall i | 0 <= i < |s| :: t[i] == s[i];
  }

  lemma {:induction false} EndsOnly(s: seq<ListHead>)
    requires NoDuplicates(s) && |s| > 0
    ensures forall i | 0 <= i < |s| :: (s[i] == s[0] ==> i == 0) && (s[i] == s[|s| - 1] ==> i == |s| - 1)
  {
  }

  /** list_del */
  method Del(node: ListHead, ghost s: seq<ListHead>, ghost i: nat)
    requires Ring(s) && 0 < i < |s| && node == s[i]
    modifies s
    ensures Ring(s[..i] + s[i + 1..]) && node.next == null && node.prev == null
    ensures s[..i] + s[i + 1..] == Without(s, node)
  {
    WithoutAt(s, i);
    ghost var n := |s|;
    ghost var t := s[i + 1..] + s[..i];
    RingTurned(s, Succ(i, n));
    CutTurned(s, i);
    LastLinks(t, node);
    hide Ring;
    hide Turned;
    Unlink(node.prev, node.next, node, t);
    Clear(node, t);
    RingTurned(t, n - 1 - i);
  }

  /** entry->next = entry->prev = 0 */
  method Clear(node: ListHead, ghost s: seq<ListHead>)
    requires Ring(s) && node !in s
    modifies node
    ensures Ring(s) && node.next == null && node.prev == null
  {
    node.next := null;
    node.prev := null;
  }

  lemma {:induction false} CutTurned(s: seq<ListHead>, i: nat)
    requires 0 < i < |s|
    ensures Turned(s, Succ(i, |s|)) == s[i + 1..] + s[..i] + [s[i]]
    ensures Turned(s[i + 1..] + s[..i], |s| - 1 - i) == s[..i] + s[i + 1..]
  {
  }

  lemma {:induction false} LastLinks(s: seq<ListHead>, node: ListHead)
    requires Ring(s + [node]) && |s| > 0
    ensures node.next == s[0] && node.prev == s[|s| - 1]
  {
    var t := s + [node];
    assert t[|s|] == node && Succ(|s|, |t|) == 0 && Succ(|s| - 1, |t|) == |s|;
    assert t[|s| - 1] == s[|s| - 1] && t[0] == s[0];
  }

  /** list_empty */
  method Empty(head: ListHead, ghost s: seq<ListHead>) returns (empty: bool)
    requires Ring(s) && head == s[0]
    ensures empty <==> |s| == 1
  {
    empty := head.next == head;
  }

  /** list_first */
  method First(head: ListHead, ghost s: seq<ListHead>) returns (first: ListHead)
    requires Ring(s) && head == s[0]
    ensures first == s[if |s| > 1 then 1 else 0]
  {
    first := head.next;
  }

  /** list_size */
  method Size(head: ListHead, ghost s: seq<ListHead>) returns (size: nat)
    requires Ring(s) && head == s[0]
    ensures size == |s| - 1
  {
    size := 0;
    var pos := head.next;
    while pos != head
      invariant 0 <= size < |s| && pos == s[Succ(size, |s|)]
      decreases |s| - size
    {
      size := size + 1;
      pos := pos.next;
    }
  }

  /** list_splice: the nodes of `list` go to the front of the other list, in order, and `list` is empty again. */
  method Splice(list: ListHead, head: ListHead, ghost s: seq<ListHead>, ghost t: seq<ListHead>)
    requires Ring(s) && Ring(t) && list == s[0] && head == t[0] && forall x | x in s :: x !in t
    modifies s, t
    ensures Ring([head] + s[1..] + t[1..]) && Ring([list])
  {
    var empty := Empty(list, s);
    if empty {
      assert [head] + s[1..] + t[1..] == t && s == [list];
      return;
    }
    SpliceSome(list, head, s, t);
  }

  /** list_splice of a list with nodes */
  method SpliceSome(list: ListHead, head: ListHead, ghost s: seq<ListHead>, ghost t: seq<ListHead>)
    requires Ring(s) && Ring(t) && |s| > 1 && list == s[0] && head == t[0] && forall x | x in s :: x !in t
    modifies s, t
    ensures Ring([head] + s[1..] + t[1..]) && Ring([list])
  {
    hide *;
    ghost var u := s[1..];
    ghost var v := AfterHead(s, t);
    assert v[0] in t && t[0] in t && s[1] in s && s[|s| - 1] in s;
    SpliceBetween(list, head, head.next, s, v);
    Reset(list, v + u);
    RingTurned(v + u, |v| - 1);
  }

  /** The ring t as seen from the node after its head, where the nodes of s go in. */
  lemma AfterHead(s: seq<ListHead>, t: seq<ListHead>) returns (v: seq<ListHead>)
    requires Ring(s) && Ring(t) && |s| > 1 && forall x | x in s :: x !in t
    ensures Ring(v) && |v| > 0 && v[|v| - 1] == t[0] && v[0] == t[0].next && forall x | x in s :: x !in v
    ensures forall x | x in v :: x in t
    ensures s[0] !in v + s[1..] && Turned(v + s[1..], |v| - 1) == [t[0]] + s[1..] + t[1..]
  {
    var i := if |t| == 1 then 0 else 1;
    v := Turned(t, i);
    RingTurned(t, i);
    SpliceTurned(s, t, i);
    assert forall x | x in v :: x in t;
    Before(v);
    SpliceApart(s, v);
  }

  /** list_init of a list head that is not in the ring */
  method Reset(list: ListHead, ghost s: seq<ListHead>)
    requires Ring(s) && list !in s
    modifies list
    ensures Ring(s) && Ring([list])
  {
    Init(list);
  }

  lemma {:induction false} SpliceApart(s: seq<ListHead>, t: seq<ListHead>)
    requires NoDuplicates(s) && |s| > 1 && forall x | x in s :: x !in t
    ensures s[0] !in t + s[1..]
  {
  }

  lemma {:induction false} Distinct(s: seq<ListHead>, t: seq<ListHead>)
    requires NoDuplicates(s) && NoDuplicates(t) && |s| > 1 && forall x | x in s :: x !in t
    ensures NoDuplicates(s[1..]) && NoDuplicates(t + s[1..])
    ensures forall i, j | 0 <= i < |s| && 0 <= j < |t| :: s[i] != t[j]
  {
    assert forall i | 0 <= i < |s| :: s[i] in s;
    assert forall j | 0 <= j < |t| :: t[j] in t;
  }

  lemma {:induction false} SpliceTurned(s: seq<ListHead>, t: seq<ListHead>, i: nat)
    requires |s| > 0 && |t| > 0 && i == if |t| == 1 then 0 else 1
    ensures var v := Turned(t, i);
      |v| == |t| && v[|v| - 1] == t[0] && Turned(v + s[1..], |v| - 1) == [t[0]] + s[1..] + t[1..]
  {
  }

  /** __list_splice, between the two ends of a ring as it is seen here */
  method SpliceBetween(list: ListHead, prev: ListHead, next: ListHead, ghost s: seq<ListHead>, ghost t: seq<ListHead>)
    requires Ring(s) && Ring(t) && |s| > 1 && list == s[0] && prev == t[|t| - 1] && next == t[0]
               && forall x | x in s :: x !in t
    modifies s[1], s[|s| - 1], prev, next
    ensures Ring(t + s[1..])
  {
    Before(s);
    assert list.next == s[1] && list.prev == s[|s| - 1];
    var first, last := list.next, list.prev;
    ghost var u, r, m, n := s[1..], t + s[1..], |s|, |t|;
    Distinct(s, t);
    EndsOnly(u);
    EndsOnly(t);
    first.prev := prev;
    prev.next := first;
    last.next := next;
    next.prev := last;
    forall k | 0 <= k < |r|
      ensures r[k].next == r[Succ(k, |r|)] && r[Succ(k, |r|)].prev == r[k]
    {
      if n <= k < |r| - 1 {
        assert r[k] == u[k - n] == s[k - n + 1] && r[k + 1] == u[k - n + 1] == s[Succ(k - n + 1, m)];
      } else if k < n - 1 {
        assert r[k] == t[k] && r[k + 1] == t[Succ(k, n)];
      }
    }
  }
}
