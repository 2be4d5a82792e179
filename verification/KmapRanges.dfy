/** src/paging.c: the allocator of page ranges in the kmap window, with boundary tags and segregated free lists. */
module KmapRanges {
  import opened Powers
  import opened Lists

  const KMAP_ORDERS: nat := 16
  const KMAP_PAGES: nat := 0x80000

  /** The state of a list node: linked to itself by list_init, cleared by list_del, or on a list. */
  datatype Link = Self | Null | OnList

  datatype Extent = Extent(len: nat, free: bool)

  type Extents = map<nat, Extent>

  // ----- orders -----

  predicate IsOrder(pages: nat, order: nat) {
    && order <= KMAP_ORDERS
    && (order < KMAP_ORDERS ==> pages <= Pow2(order))
    && (order > 0 ==> Pow2(order - 1) < pages)
  }

  lemma {:induction false} OrderUnique(pages: nat, j: nat, k: nat)
    requires IsOrder(pages, j) && IsOrder(pages, k)
    ensures j == k
  {
    if j < k {
      Pow2Monotone(j, k - 1);
    } else if k < j {
      Pow2Monotone(k, j - 1);
    }
  }

  function OrderFrom(pages: nat, order: nat): (k: nat)
    requires order <= KMAP_ORDERS && (order > 0 ==> Pow2(order - 1) < pages)
    ensures IsOrder(pages, k)
    decreases KMAP_ORDERS - order
  {
    if order == KMAP_ORDERS || Pow2(order) >= pages then order else OrderFrom(pages, order + 1)
  }

  /** The list of a free range: kmap_order(len + 1) - 1. */
  function ListOf(len: nat): (k: int)
    ensures len >= 1 ==> 0 <= k < KMAP_ORDERS
  {
    assert Pow2(0) == 1;
    OrderFrom(len + 1, 0) - 1
  }

  /** floor(log2(len)), or 15 from 2^15 pages on. */
  lemma {:induction false} ListOfIs(len: nat)
    requires len >= 1
    ensures var k := ListOf(len); Pow2(k) <= len && (k < KMAP_ORDERS - 1 ==> len < Pow2(k + 1))
    ensures IsOrder(len + 1, ListOf(len) + 1)
  {
  }

  // ----- tilings -----

  /** The ranges tile [0, n): each begins where another ends, and ends where another begins. */
  ghost predicate Tiled(m: Extents, n: nat) {
    0 in m && Fitting(m, n) && Chained(m, n) && Preceded(m) && Apart(m)
  }

  ghost predicate Fitting(m: Extents, n: nat) {
    forall s | s in m :: m[s].len > 0 && s + m[s].len <= n
  }

  ghost predicate Chained(m: Extents, n: nat) {
    forall s {:trigger Chains(m, n, s)} | s in m :: Chains(m, n, s)
  }

  ghost predicate Preceded(m: Extents) {
    forall s {:trigger EndsSome(m, s)} | s in m && s > 0 :: EndsSome(m, s)
  }

  ghost predicate Apart(m: Extents) {
    forall s, t | s in m && t in m && s < t :: s + m[s].len <= t
  }

  ghost predicate Chains(m: Extents, n: nat, s: nat)
    requires s in m
  {
    s + m[s].len == n || s + m[s].len in m
  }

  ghost predicate EndsSome(m: Extents, s: nat) {
    exists t :: t in m && t + m[t].len == s
  }

  /** No two free ranges touch. */
  ghost predicate Coalesced(m: Extents) {
    forall s {:trigger Bounded(m, s)} | s in m && m[s].free :: Bounded(m, s)
  }

  ghost predicate Bounded(m: Extents, s: nat)
    requires s in m
  {
    s + m[s].len in m ==> !m[s + m[s].len].free
  }

  /** Each list holds the free ranges of its size, each once. */
  ghost predicate Filed(lists: seq<seq<nat>>, m: Extents) {
    && |lists| == KMAP_ORDERS
    && (forall k | 0 <= k < KMAP_ORDERS :: NoDuplicates(lists[k]))
    && (forall k, s: nat | 0 <= k < KMAP_ORDERS :: s in lists[k] <==> s in m && m[s].free && ListOf(m[s].len) == k)
  }

  /** Heads and tails carry the length, and a head is linked to itself exactly when its range is busy.  The range
      `gap` is exempt, and so is everything inside ranges. */
  ghost predicate Tagged(tags: seq<nat>, links: seq<Link>, m: Extents, gap: int) {
    |tags| == |links| && forall s | s in m ::
      m[s].len > 0 && s + m[s].len <= |tags| && (s != gap ==> Marked(tags, links, s, m[s]))
  }

  ghost predicate Marked(tags: seq<nat>, links: seq<Link>, s: nat, e: Extent) {
    && e.len > 0 && s + e.len <= |tags| == |links|
    && tags[s] == e.len && tags[s + e.len - 1] == e.len && (links[s] == Self <==> !e.free)
  }

  /** The range at s takes in the one after it. */
  function Joined(m: Extents, s: nat): Extents
    requires s in m && s + m[s].len in m
  {
    var t := s + m[s].len;
    (m - {t})[s := Extent(m[s].len + m[t].len, false)]
  }

  function Split(m: Extents, s: nat, len: nat): Extents
    requires s in m && len < m[s].len
  {
    m[s := Extent(len, false)][s + len := Extent(m[s].len - len, false)]
  }

  lemma {:induction false} PrecededFrom(m: Extents, m': Extents, x: nat, y: nat)
    requires y in m' && y + m'[y].len == x
    ensures EndsSome(m', x)
  {
  }

  lemma {:induction false} JoinedPreceded(m: Extents, s: nat)
    requires Preceded(m) && s in m && m[s].len > 0 && s + m[s].len in m
    ensures Preceded(Joined(m, s))
  {
    var t, m' := s + m[s].len, Joined(m, s);
    forall x | x in m' && x > 0
      ensures EndsSome(m', x)
    {
      assert EndsSome(m, x);
      var y :| y in m && y + m[y].len == x;
      PrecededFrom(m, m', x, if y == t then s else y);
    }
  }

  lemma {:induction false} JoinedChained(m: Extents, n: nat, s: nat)
    requires Chained(m, n) && s in m && m[s].len > 0 && s + m[s].len in m && Apart(m) && Fitting(m, n)
    ensures Chained(Joined(m, s), n)
  {
    var t, m' := s + m[s].len, Joined(m, s);
    forall x | x in m'
      ensures Chains(m', n, x)
    {
      assert Chains(m, n, x) && Chains(m, n, t);
      assert x < t ==> x + m[x].len <= t;
      assert x < s ==> x + m[x].len <= s;
    }
  }

  lemma {:induction false} JoinedTiled(m: Extents, n: nat, s: nat)
    requires Tiled(m, n) && s in m && s + m[s].len in m
    ensures Tiled(Joined(m, s), n)
  {
    JoinedPreceded(m, s);
    JoinedChained(m, n, s);
    hide Preceded;
    hide Chained;
  }

  lemma {:induction false} SplitPreceded(m: Extents, s: nat, len: nat)
    requires Preceded(m) && s in m && 0 < len < m[s].len && s + len !in m
    ensures Preceded(Split(m, s, len))
  {
    var t, m' := s + len, Split(m, s, len);
    forall x | x in m' && x > 0
      ensures EndsSome(m', x)
    {
      if x == t {
        PrecededFrom(m, m', x, s);
      } else {
        assert EndsSome(m, x);
        var y :| y in m && y + m[y].len == x;
        PrecededFrom(m, m', x, if y == s then t else y);
      }
    }
  }

  lemma {:induction false} SplitChained(m: Extents, n: nat, s: nat, len: nat)
    requires Chained(m, n) && s in m && 0 < len < m[s].len && s + len !in m
    ensures Chained(Split(m, s, len), n)
  {
    var t, m' := s + len, Split(m, s, len);
    forall x | x in m'
      ensures Chains(m', n, x)
    {
      assert Chains(m, n, if x == t then s else x);
    }
  }

  lemma {:induction false} SplitTiled(m: Extents, n: nat, s: nat, len: nat)
    requires Tiled(m, n) && s in m && 0 < len < m[s].len
    ensures Tiled(Split(m, s, len), n) && s + len !in m
  {
    SplitApart(m, n, s, len);
    hide Preceded;
    hide Chained;
    hide Apart;
    SplitPreceded(m, s, len);
    SplitChained(m, n, s, len);
  }

  lemma {:induction false} SplitApart(m: Extents, n: nat, s: nat, len: nat)
    requires Apart(m) && s in m && 0 < len < m[s].len && Fitting(m, n)
    ensures s + len !in m && Apart(Split(m, s, len))
  {
    assert s + len !in m;
    assert forall t | t in m && t != s :: (t < s ==> t + m[t].len <= s) && (s < t ==> s + m[s].len <= t);
  }

  lemma {:induction false} RetypedPreceded(m: Extents, s: nat, free: bool)
    requires Preceded(m) && s in m
    ensures Preceded(m[s := Extent(m[s].len, free)])
  {
    var m' := m[s := Extent(m[s].len, free)];
    forall x | x in m' && x > 0
      ensures EndsSome(m', x)
    {
      assert EndsSome(m, x);
      var y :| y in m && y + m[y].len == x;
      PrecededFrom(m, m', x, y);
    }
  }

  lemma {:induction false} RetypedTiled(m: Extents, n: nat, s: nat, free: bool)
    requires Tiled(m, n) && s in m
    ensures Tiled(m[s := Extent(m[s].len, free)], n)
  {
    var m' := m[s := Extent(m[s].len, free)];
    assert Chained(m', n) by {
      hide Apart;
      forall x | x in m'
        ensures Chains(m', n, x)
      {
        assert Chains(m, n, x);
      }
    }
    hide Preceded;
    hide Chained;
    RetypedPreceded(m, s, free);
  }

  /** The busy ranges: start to length. */
  function Busy(m: Extents): map<nat, nat> {
    map s | s in m && !m[s].free :: m[s].len
  }

  /** No busy range has a page among the `len` pages from `from`. */
  ghost predicate Unused(busy: map<nat, nat>, from: nat, len: nat) {
    forall s | s in busy :: s + busy[s] <= from || from + len <= s
  }

  /** Every page lies in a range. */
  lemma {:induction false} Covering(m: Extents, n: nat, p: nat) returns (s: nat)
    requires Tiled(m, n) && p < n
    ensures s in m && s <= p < s + m[s].len
  {
    s := CoveringFrom(m, n, p, 0);
  }

  lemma {:induction false} CoveringFrom(m: Extents, n: nat, p: nat, from: nat) returns (s: nat)
    requires Tiled(m, n) && from in m && from <= p < n
    ensures s in m && s <= p < s + m[s].len
    decreases n - from
  {
    s := from;
    if p >= from + m[from].len {
      assert Chains(m, n, from);
      s := CoveringFrom(m, n, p, from + m[from].len);
    }
  }

  /** A run of unused pages lies inside one free range. */
  lemma {:induction false} RunInRange(m: Extents, n: nat, from: nat, len: nat) returns (s: nat)
    requires Tiled(m, n) && Coalesced(m) && len > 0 && from + len <= n && Unused(Busy(m), from, len)
    ensures s in m && m[s].free && s <= from && from + len <= s + m[s].len
  {
    s := Covering(m, n, from);
    var e := s + m[s].len;
    assert !m[s].free ==> s in Busy(m);
    assert Chains(m, n, s) && Bounded(m, s);
    assert e in m ==> m[e].free || e in Busy(m);
  }

  lemma {:induction false} FreeUnused(m: Extents, n: nat, s: nat)
    requires Tiled(m, n) && s in m && m[s].free
    ensures Unused(Busy(m), s, m[s].len)
  {
  }

  // ----- steps -----

  /** What the allocator keeps, but for the range `gap` that is being freed. */
  ghost predicate Consistent(tags: seq<nat>, links: seq<Link>, lists: seq<seq<nat>>, m: Extents, gap: int) {
    && Tiled(m, |tags|) && Coalesced(m) && Filed(lists, m) && Tagged(tags, links, m, gap)
    && (gap in m ==> !m[gap].free)
  }

  /** The free ranges of m' are those of m but x. */
  ghost predicate LessFree(m: Extents, m': Extents, x: nat) {
    && x in m && m[x].free
    && (forall s | s in m' && m'[s].free :: s in m && m[s] == m'[s] && s != x)
    && (forall s | s in m && m[s].free && s != x :: s in m' && m'[s] == m[s])
  }

  lemma {:induction false} LessFreeFiled(lists: seq<seq<nat>>, m: Extents, m': Extents, x: nat)
    requires Filed(lists, m) && LessFree(m, m', x) && m[x].len >= 1
    ensures var k := ListOf(m[x].len); Filed(lists[k := Without(lists[k], x)], m')
  {
    hide ListOf;
    var k := ListOf(m[x].len);
    WithoutElements(lists[k], x);
  }

  lemma {:induction false} LessFreeCoalesced(m: Extents, m': Extents, x: nat)
    requires Coalesced(m) && LessFree(m, m', x)
    ensures Coalesced(m')
  {
    forall s | s in m' && m'[s].free
      ensures Bounded(m', s)
    {
      assert Bounded(m, s);
    }
  }

  /** The range that ends where the gap begins is found through the tag of its tail. */
  lemma {:induction false} Previous(tags: seq<nat>, links: seq<Link>, m: Extents, g: nat)
    requires Tiled(m, |tags|) && Tagged(tags, links, m, g) && g in m && g > 0
    ensures g < |tags| && tags[g - 1] <= g
    ensures var p := g - tags[g - 1]; p < g && p in m && p + m[p].len == g && (links[p] == Self <==> !m[p].free)
  {
    assert EndsSome(m, g);
    var t :| t in m && t + m[t].len == g;
    assert Marked(tags, links, t, m[t]);
    hide Tiled;
  }

  lemma {:induction false} Following(tags: seq<nat>, links: seq<Link>, m: Extents, g: nat)
    requires Tiled(m, |tags|) && Tagged(tags, links, m, g) && g in m
    ensures var q := g + m[g].len; q < |tags| ==> q in m && m[q].len > 0 && (links[q] == Self <==> !m[q].free)
  {
    assert Chains(m, |tags|, g);
  }

  ghost predicate LeftBusy(m: Extents, g: nat) {
    forall t | t in m && t + m[t].len == g :: !m[t].free
  }

  lemma {:induction false} OneEndsAt(m: Extents, n: nat, s: nat, t: nat)
    requires Tiled(m, n) && s in m && t in m && s + m[s].len == t + m[t].len
    ensures s == t
  {
  }

  lemma {:induction false} JoinedLessFree(m: Extents, s: nat, x: nat)
    requires s in m && m[s].len > 0 && s + m[s].len in m
    requires x in m && m[x].free && (x == s || x == s + m[s].len) && !m[if x == s then s + m[s].len else s].free
    ensures LessFree(m, Joined(m, s), x)
  {
  }

  lemma {:induction false} JoinedBusy(m: Extents, s: nat, g: nat, x: nat)
    requires s in m && m[s].len > 0 && s + m[s].len in m && x in m && m[x].free
    requires x != g && {x, g} == {s, s + m[s].len}
    ensures Busy(Joined(m, s)) - {s} == Busy(m) - {g}
  {
  }

  lemma {:induction false} JoinedTagged(tags: seq<nat>, links: seq<Link>, m: Extents, s: nat, g: nat, x: nat)
    requires Tagged(tags, links, m, g) && s in m && s + m[s].len in m && {x, g} == {s, s + m[s].len} && x in m
    ensures x < |links| && Tagged(tags, links[x := Null], Joined(m, s), s)
  {
  }

  lemma {:induction false} JoinedLeftBusy(m: Extents, s: nat)
    requires s in m && m[s].len > 0 && s + m[s].len in m && Coalesced(m) && m[s].free
    ensures LeftBusy(Joined(m, s), s)
  {
    var m' := Joined(m, s);
    forall t | t in m' && t + m'[t].len == s
      ensures !m'[t].free
    {
      assert t in m ==> m[t].free ==> Bounded(m, t);
    }
  }

  /** list_del of the free range x */
  function Unlisted(lists: seq<seq<nat>>, x: nat, len: nat): seq<seq<nat>>
    requires 0 <= ListOf(len) < |lists|
  {
    lists[ListOf(len) := Without(lists[ListOf(len)], x)]
  }

  lemma {:induction false} ListExists(lists: seq<seq<nat>>, m: Extents, n: nat, s: nat)
    requires Filed(lists, m) && Tiled(m, n) && s in m
    ensures m[s].len >= 1 && 0 <= ListOf(m[s].len) < |lists| && s + m[s].len <= n
  {
  }

  /** Merging with the free range before the gap. */
  lemma {:induction false} JoinPrevious(tags: seq<nat>, links: seq<Link>, lists: seq<seq<nat>>, m: Extents, g: nat,
      p: nat)
    requires Consistent(tags, links, lists, m, g) && g in m && p in m && p < g && p + m[p].len == g && m[p].free
    requires p < |links| && 0 <= ListOf(m[p].len) < |lists|
    ensures var m' := Joined(m, p);
      && Consistent(tags, links[p := Null], Unlisted(lists, p, m[p].len), m', p)
      && LeftBusy(m', p) && Busy(m') - {p} == Busy(m) - {g}
  {
    hide Tiled;
    hide Coalesced;
    hide Filed;
    hide Tagged;
    hide ListOf;
    hide Busy;
    hide LeftBusy;
    ListExists(lists, m, |tags|, p);
    JoinedTiled(m, |tags|, p);
    JoinedLessFree(m, p, p);
    JoinedBusy(m, p, g, p);
    LessFreeFiled(lists, m, Joined(m, p), p);
    LessFreeCoalesced(m, Joined(m, p), p);
    JoinedTagged(tags, links, m, p, g, p);
    JoinedLeftBusy(m, p);
  }

  lemma {:induction false} JoinedNextBusy(m: Extents, g: nat)
    requires g in m && m[g].len > 0 && g + m[g].len in m && Coalesced(m) && m[g + m[g].len].free && LeftBusy(m, g)
    requires m[g + m[g].len].len > 0
    ensures LeftBusy(Joined(m, g), g) && Bounded(Joined(m, g), g)
  {
    assert Bounded(m, g + m[g].len);
  }

  /** Merging with the free range after the gap. */
  lemma {:induction false} JoinNext(tags: seq<nat>, links: seq<Link>, lists: seq<seq<nat>>, m: Extents, g: nat, q: nat)
    requires Consistent(tags, links, lists, m, g) && g in m && q == g + m[g].len && q in m && m[q].free
               && LeftBusy(m, g)
    requires q < |links| && 0 <= ListOf(m[q].len) < |lists|
    ensures var m' := Joined(m, g);
      && Consistent(tags, links[q := Null], Unlisted(lists, q, m[q].len), m', g)
      && LeftBusy(m', g) && Bounded(m', g) && Busy(m') - {g} == Busy(m) - {g}
  {
    hide Tiled;
    hide Coalesced;
    hide Filed;
    hide Tagged;
    hide ListOf;
    hide Busy;
    hide LeftBusy;
    ListExists(lists, m, |tags|, q);
    ListExists(lists, m, |tags|, g);
    JoinedTiled(m, |tags|, g);
    JoinedLessFree(m, g, q);
    JoinedBusy(m, g, g, q);
    LessFreeFiled(lists, m, Joined(m, g), q);
    LessFreeCoalesced(m, Joined(m, g), q);
    JoinedTagged(tags, links, m, g, g, q);
    JoinedNextBusy(m, g);
  }

  /** Head and tail tags written. */
  function Stamped(tags: seq<nat>, g: nat, len: nat): seq<nat>
    requires len > 0 && g + len <= |tags|
  {
    tags[g + len - 1 := len][g := len]
  }

  lemma {:induction false} CloseTagged(tags: seq<nat>, links: seq<Link>, m: Extents, g: nat)
    requires Tagged(tags, links, m, g) && Tiled(m, |tags|) && g in m
    ensures var len := m[g].len;
      && len > 0 && g + len <= |tags| == |links|
      && Tagged(Stamped(tags, g, len), links[g := OnList], m[g := Extent(len, true)], -1)
  {
    hide Preceded;
    hide Chained;
  }

  lemma {:induction false} CloseCoalesced(m: Extents, g: nat)
    requires Coalesced(m) && g in m && LeftBusy(m, g) && Bounded(m, g) && m[g].len > 0
    ensures Coalesced(m[g := Extent(m[g].len, true)])
  {
    var m' := m[g := Extent(m[g].len, true)];
    forall s | s in m' && m'[s].free
      ensures Bounded(m', s)
    {
      assert m[s].free ==> Bounded(m, s);
    }
  }

  lemma {:induction false} CloseFiled(lists: seq<seq<nat>>, m: Extents, g: nat)
    requires Filed(lists, m) && g in m && !m[g].free && m[g].len > 0
    ensures var k := ListOf(m[g].len); Filed(lists[k := [g] + lists[k]], m[g := Extent(m[g].len, true)])
  {
    hide ListOf;
    var k := ListOf(m[g].len);
    assert g !in lists[k];
  }

  /** The gap becomes a free range. */
  lemma {:induction false} CloseGap(tags: seq<nat>, links: seq<Link>, lists: seq<seq<nat>>, m: Extents, g: nat)
    requires Consistent(tags, links, lists, m, g) && g in m && LeftBusy(m, g) && Bounded(m, g)
    ensures var len := m[g].len; var k := ListOf(len); var m' := m[g := Extent(len, true)];
      && len > 0 && g + len <= |tags| == |links| && 0 <= k < |lists|
      && Consistent(Stamped(tags, g, len), links[g := OnList], lists[k := [g] + lists[k]], m', -1)
      && Busy(m') == Busy(m) - {g}
  {
    hide Tiled;
    hide Coalesced;
    hide Filed;
    hide Tagged;
    hide ListOf;
    hide LeftBusy;
    hide Bounded;
    ListExists(lists, m, |tags|, g);
    CloseTagged(tags, links, m, g);
    CloseCoalesced(m, g);
    CloseFiled(lists, m, g);
    RetypedTiled(m, |tags|, g, true);
  }

  /** A free range given out whole. */
  lemma {:induction false} TakeWhole(tags: seq<nat>, links: seq<Link>, lists: seq<seq<nat>>, m: Extents, s: nat)
    requires Consistent(tags, links, lists, m, -1) && s in m && m[s].free
    ensures var len := m[s].len; var m' := m[s := Extent(len, false)];
      && 0 <= ListOf(len) < |lists| && s < |links| && len > 0 && s + len <= |tags|
      && Consistent(Stamped(tags, s, len), links[s := Self], Unlisted(lists, s, len), m', -1)
      && Busy(m') == Busy(m)[s := len]
  {
    var len, m' := m[s].len, m[s := Extent(m[s].len, false)];
    assert LessFree(m, m', s);
    hide Tiled;
    hide Coalesced;
    hide Filed;
    hide ListOf;
    ListExists(lists, m, |tags|, s);
    RetypedTiled(m, |tags|, s, false);
    LessFreeFiled(lists, m, m', s);
    LessFreeCoalesced(m, m', s);
    hide LessFree;
    WholeTagged(tags, links, m, s);
  }

  lemma {:induction false} WholeTagged(tags: seq<nat>, links: seq<Link>, m: Extents, s: nat)
    requires Tagged(tags, links, m, -1) && s in m
    ensures var len := m[s].len;
      s < |links| && len > 0 && s + len <= |tags|
      && Tagged(Stamped(tags, s, len), links[s := Self], m[s := Extent(len, false)], -1)
  {
  }

  /** The front of a free range given out; the rest becomes the gap. */
  lemma {:induction false} TakeFront(tags: seq<nat>, links: seq<Link>, lists: seq<seq<nat>>, m: Extents, s: nat,
      pages: nat)
    requires Consistent(tags, links, lists, m, -1) && s in m && m[s].free && 0 < pages < m[s].len
    ensures var m' := Split(m, s, pages);
      && 0 <= ListOf(m[s].len) < |lists| && s < |links| && s + pages <= |tags|
      && Consistent(Stamped(tags, s, pages), links[s := Self], Unlisted(lists, s, m[s].len), m', s + pages)
      && Busy(m') - {s + pages} == Busy(m)[s := pages]
  {
    assert Apart(m);
    hide Tiled;
    hide Coalesced;
    hide Filed;
    hide ListOf;
    hide Tagged;
    hide Apart;
    hide LessFree;
    hide Busy;
    SplitTiled(m, |tags|, s, pages);
    SplitLessFree(m, s, pages);
    assert |tags[s + pages - 1 := pages][s := pages]| == |tags|;
    SplitTagged(tags, links, m, s, pages);
    ListExists(lists, m, |tags|, s);
    LessFreeFiled(lists, m, Split(m, s, pages), s);
    LessFreeCoalesced(m, Split(m, s, pages), s);
  }

  lemma {:induction false} SplitLessFree(m: Extents, s: nat, pages: nat)
    requires s in m && m[s].free && 0 < pages < m[s].len && s + pages !in m
    ensures LessFree(m, Split(m, s, pages), s) && !Split(m, s, pages)[s + pages].free
    ensures Busy(Split(m, s, pages)) - {s + pages} == Busy(m)[s := pages]
  {
  }

  ghost predicate Elsewhere(m: Extents, s: nat, to: nat) {
    forall t | t in m && t != s :: t + m[t].len <= s || to <= t
  }

  lemma {:induction false} StampedThere(tags: seq<nat>, links: seq<Link>, s: nat, pages: nat)
    requires 0 < pages && s + pages <= |tags| == |links|
    ensures Marked(Stamped(tags, s, pages), links[s := Self], s, Extent(pages, false))
    ensures Marked(Stamped(tags, s, pages), links[s := OnList], s, Extent(pages, true))
  {
  }

  lemma {:induction false} StampedElsewhere(tags: seq<nat>, links: seq<Link>, m: Extents, s: nat, pages: nat)
    requires Tagged(tags, links, m, -1) && s in m && 0 < pages <= m[s].len && Apart(m)
    ensures s < |links| && s + pages <= |tags| == |links|
    ensures Tagged(Stamped(tags, s, pages), links[s := Self], m, s)
  {
    assert Elsewhere(m, s, s + m[s].len);
    hide Apart;
  }

  lemma {:induction false} SplitTagged(tags: seq<nat>, links: seq<Link>, m: Extents, s: nat, pages: nat)
    requires Tagged(tags, links, m, -1) && s in m && 0 < pages < m[s].len && Apart(m)
    ensures s < |links| && s + pages <= |tags|
    ensures Tagged(Stamped(tags, s, pages), links[s := Self], Split(m, s, pages), s + pages)
  {
    hide Apart;
    hide Tagged;
    StampedElsewhere(tags, links, m, s, pages);
    StampedThere(tags, links, s, pages);
    GapSplit(Stamped(tags, s, pages), links[s := Self], m, s, pages);
  }

  lemma {:induction false} GapSplit(tags: seq<nat>, links: seq<Link>, m: Extents, s: nat, pages: nat)
    requires Tagged(tags, links, m, s) && s in m && 0 < pages < m[s].len && Marked(tags, links, s, Extent(pages, false))
    ensures Tagged(tags, links, Split(m, s, pages), s + pages)
  {
    hide Marked;
  }

  // ----- the search -----

  /** No range of the list is long enough. */
  ghost predicate TooShort(lists: seq<seq<nat>>, m: Extents, k: nat, pages: nat) {
    k < |lists| ==> forall s | s in lists[k] :: s in m && m[s].len < pages
  }

  /** A range that is long enough is filed from the order of the request on, or on the one list below. */
  lemma {:induction false} LongEnough(pages: nat, len: nat, start: nat)
    requires IsOrder(pages, start) && 1 <= pages < Pow2(KMAP_ORDERS) && len >= 1
    ensures 0 <= ListOf(len) < KMAP_ORDERS
    ensures len < pages || ListOf(len) >= start || (ListOf(len) == start - 1 && Pow2(start) > pages)
  {
    hide Pow2;
    hide ListOf;
    var k := ListOf(len);
    ListOfIs(len);
    if k + 1 < start {
      Pow2Monotone(k + 1, start - 1);
    }
  }

  /** The first range of the list that is long enough. */
  ghost predicate FirstFit(list: seq<nat>, m: Extents, pages: nat, s: nat) {
    exists i :: 0 <= i < |list| && list[i] == s && s in m && m[s].len >= pages
                && forall j | 0 <= j < i :: list[j] in m && m[list[j]].len < pages
  }

  /** The range comes from the first list, in the order of the search, that has one: from the order of the request
      up, and then the list below. */
  ghost predicate Chosen(lists: seq<seq<nat>>, m: Extents, pages: nat, start: nat, k: nat, s: nat) {
    && IsOrder(pages, start) && k < |lists| == KMAP_ORDERS && FirstFit(lists[k], m, pages, s)
    && (k >= start || k == start - 1)
    && forall j: nat | start <= j < (if k >= start then k else KMAP_ORDERS) :: TooShort(lists, m, j, pages)
  }

  /** The lists that kmap_alloc_range looks into hold every range that is long enough, below 2^16 pages. */
  lemma {:induction false} SearchComplete(lists: seq<seq<nat>>, m: Extents, pages: nat, start: nat)
    requires Filed(lists, m) && IsOrder(pages, start) && 1 <= pages < Pow2(KMAP_ORDERS)
    requires forall k | start <= k < KMAP_ORDERS :: TooShort(lists, m, k, pages)
    requires start > 0 && Pow2(start) > pages ==> TooShort(lists, m, start - 1, pages)
    requires forall s | s in m :: m[s].len >= 1
    ensures forall s | s in m && m[s].free :: m[s].len < pages
  {
    hide Pow2;
    hide ListOf;
    hide IsOrder;
    forall s | s in m && m[s].free
      ensures m[s].len < pages
    {
      var k := ListOf(m[s].len);
      LongEnough(pages, m[s].len, start);
      assert TooShort(lists, m, k, pages) ==> m[s].len < pages;
    }
  }

  lemma {:induction false} Pow2Larger(pages: nat, start: nat)
    requires IsOrder(pages, start) && start < KMAP_ORDERS
    ensures pages < Pow2(KMAP_ORDERS)
  {
    Pow2Monotone(start, KMAP_ORDERS - 1);
    assert Pow2(KMAP_ORDERS) == 2 * Pow2(KMAP_ORDERS - 1);
    hide Pow2;
  }

  lemma {:induction false} OrderPositive(pages: nat, start: nat)
    requires pages >= 1 && Pow2(start) > pages && IsOrder(pages, start)
    ensures start > 0
  {
    assert Pow2(0) == 1;
  }

  lemma {:induction false} SplitAt(m: Extents, s: nat, pages: nat)
    ensures s in m && pages < m[s].len ==>
              && s + pages in Split(m, s, pages)
              && Split(m, s, pages)[s + pages] == Extent(m[s].len - pages, false)
  {
  }

  /** Before the first kmap_free_range: one range, tags and links as the memory held them. */
  lemma {:induction false} WholeWindow(tags: seq<nat>, links: seq<Link>)
    requires |tags| == |links| > 0
    ensures Consistent(tags, links, seq(KMAP_ORDERS, _ => []), map[0 := Extent(|tags|, false)], 0)
  {
  }

  /** kmap_ranges and kmap_free_ranges */
  class Allocator {
    const tags: array<nat>
    const links: array<Link>
    var lists: seq<seq<nat>>
    ghost var extents: Extents

    ghost predicate Holds(gap: int)
      reads this, tags, links
    {
      tags.Length == links.Length == KMAP_PAGES && Consistent(tags[..], links[..], lists, extents, gap)
    }

    ghost predicate Valid()
      reads this, tags, links
    {
      Holds(-1)
    }

    /** The ranges in use: start to length. */
    ghost function Used(): map<nat, nat>
      reads this
    {
      Busy(extents)
    }

    /** The end of kmap_setup: the whole window is one free range. */
    constructor ()
      ensures Valid() && Used() == map[] && fresh(tags) && fresh(links)
    {
      tags := new nat[KMAP_PAGES];
      links := new Link[KMAP_PAGES];
      lists := seq(KMAP_ORDERS, _ => []);
      extents := map[0 := Extent(KMAP_PAGES, false)];
      new;
      WholeWindow(tags[..], links[..]);
      FreeRange(0, KMAP_PAGES);
    }

    /** kmap_order */
    method KmapOrder(pages: nat) returns (order: nat)
      ensures IsOrder(pages, order)
    {
      order := 0;
      while Pow2(order) < pages && order != KMAP_ORDERS
        invariant 0 <= order <= KMAP_ORDERS && (order > 0 ==> Pow2(order - 1) < pages)
      {
        order := order + 1;
      }
    }

    /** The first part of kmap_free_range: a free range just before is taken in. */
    method MergePrevious(range: nat, pages: nat) returns (r: nat, n: nat)
      requires Holds(range) && range in extents && extents[range] == Extent(pages, false)
      modifies this`lists, this`extents, links
      ensures Holds(r) && r in extents && extents[r] == Extent(n, false) && LeftBusy(extents, r)
      ensures Used() - {r} == old(Used()) - {range}
    {
      hide Tiled;
      hide Coalesced;
      hide Filed;
      hide Tagged;
      hide LeftBusy;
      hide ListOf;
      hide Busy;
      r, n := range, pages;
      if range > 0 {
        LookBack(range);
        var prev := range - tags[range - 1];
        if links[prev] != Self {
          JoinPrevious(tags[..], links[..], lists, extents, range, prev);
          n, r := pages + tags[prev], prev;
          Delete(prev);
          extents := Joined(extents, prev);
        }
      } else {
        NoneBefore();
      }
    }

    /** The second part: a free range just after is taken in. */
    method MergeNext(range: nat, pages: nat) returns (n: nat)
      requires Holds(range) && range in extents && extents[range] == Extent(pages, false) && LeftBusy(extents, range)
      modifies this`lists, this`extents, links
      ensures Holds(range) && range in extents && extents[range] == Extent(n, false)
      ensures LeftBusy(extents, range) && Bounded(extents, range)
      ensures Used() - {range} == old(Used()) - {range}
    {
      hide Tiled;
      hide Coalesced;
      hide Filed;
      hide Tagged;
      hide LeftBusy;
      hide Bounded;
      hide ListOf;
      hide Busy;
      n := pages;
      LookAhead(range);
      if range + pages < KMAP_PAGES {
        var next := range + pages;
        if links[next] != Self {
          JoinNext(tags[..], links[..], lists, extents, range, next);
          n := pages + tags[next];
          Delete(next);
          extents := Joined(extents, range);
        }
      }
    }

    /** kmap_free_range: the range goes back, merged with its free neighbours. */
    method FreeRange(range: nat, pages: nat)
      requires Holds(range) && range in extents && extents[range] == Extent(pages, false)
      modifies this`lists, this`extents, links, tags
      ensures Valid() && Used() == old(Used()) - {range}
    {
      hide Tiled;
      hide Coalesced;
      hide Filed;
      hide Tagged;
      hide LeftBusy;
      hide Bounded;
      hide ListOf;
      hide Busy;
      var r, n := MergePrevious(range, pages);
      n := MergeNext(r, n);
      CloseGap(tags[..], links[..], lists, extents, r);
      Stamp(r, n);
      links[r] := OnList;
      var order := KmapOrder(n + 1);
      ListOfIs(n);
      OrderUnique(n + 1, order, ListOf(n) + 1);
      lists := lists[order - 1 := [r] + lists[order - 1]];
      extents := extents[r := Extent(n, true)];
    }

    /** kmap_free_range of a range in use, with the length that its tag holds. */
    method Release(range: nat) returns (pages: nat)
      requires Valid() && range in Used()
      modifies this`lists, this`extents, links, tags
      ensures Valid() && Used() == old(Used()) - {range} && pages == old(Used())[range]
    {
      UsedTag(range);
      pages := tags[range];
      FreeRange(range, pages);
    }

    lemma UsedPositive()
      requires Valid()
      ensures forall r | r in Used() :: Used()[r] > 0
    {
    }

    lemma UsedTag(range: nat)
      requires Valid() && range in Used()
      ensures Holds(range) && range in extents && range < tags.Length && tags[range] == Used()[range]
      ensures extents[range] == Extent(tags[range], false) && range + tags[range] <= KMAP_PAGES && tags[range] > 0
    {
      hide Tiled;
      hide Coalesced;
      hide Filed;
      assert Marked(tags[..], links[..], range, extents[range]);
    }

    /** kmap_find_free: first fit in one list. */
    method FindFree(order: nat, pages: nat) returns (found: bool, range: nat)
      requires Valid() && order < KMAP_ORDERS
      ensures found ==> range in extents && extents[range].free && extents[range].len >= pages
      ensures |lists| == KMAP_ORDERS && (found ==> FirstFit(lists[order], extents, pages, range))
      ensures !found ==> TooShort(lists, extents, order, pages)
    {
      hide Tiled;
      hide Coalesced;
      hide Tagged;
      hide ListOf;
      TableSize();
      var n := 0;
      while n < |lists[order]|
        invariant 0 <= n <= |lists[order]|
        invariant forall i | 0 <= i < n :: lists[order][i] in extents && extents[lists[order][i]].len < pages
      {
        FreeTag(lists[order][n]);
        if tags[lists[order][n]] >= pages {
          return true, lists[order][n];
        }
        n := n + 1;
      }
      return false, 0;
    }

    lemma TableSize()
      requires Valid()
      ensures |lists| == KMAP_ORDERS
      ensures forall k, s: nat | 0 <= k < KMAP_ORDERS && s in lists[k] :: s in extents && extents[s].free
    {
    }

    lemma FreeTag(s: nat)
      requires Valid() && s in extents
      ensures s < tags.Length && tags[s] == extents[s].len >= 1 && s + tags[s] <= KMAP_PAGES
      ensures s < links.Length && 0 <= ListOf(tags[s]) < |lists|
    {
      hide Tiled;
      hide Coalesced;
      hide ListOf;
      assert Marked(tags[..], links[..], s, extents[s]);
    }

    /** kmap_alloc_range: fails, below 2^16 pages, exactly when the window has no run of that many unused pages;
        from 2^16 pages on it always fails. */
    method AllocRange(pages: nat) returns (found: bool, range: nat, ghost start: nat, ghost list: nat)
      requires Valid() && pages >= 1
      modifies this`lists, this`extents, links, tags
      ensures Valid()
      ensures !found ==> Used() == old(Used())
      ensures !found && pages < Pow2(KMAP_ORDERS) ==>
                forall x: nat | x + pages <= KMAP_PAGES :: !Unused(Used(), x, pages)
      ensures pages >= Pow2(KMAP_ORDERS) ==> !found
      ensures found ==> Chosen(old(lists), old(extents), pages, start, list, range)
      ensures found ==>
                && range + pages <= KMAP_PAGES && range !in old(Used()) && Unused(old(Used()), range, pages)
                && Used() == old(Used())[range := pages]
    {
      hide Tiled;
      hide Coalesced;
      hide Filed;
      hide Tagged;
      hide ListOf;
      hide Busy;
      hide Pow2;
      hide TooShort;
      hide Chosen;
      found, range, start, list := Search(pages);
      if !found {
        if pages < Pow2(KMAP_ORDERS) {
          NothingLongEnough(pages);
        }
        return;
      }
      FreeTag(range);
      RangeUnused(range, pages);
      Hand(range, pages);
    }

    /** The part of kmap_alloc_range that looks for a range. */
    method Search(pages: nat) returns (found: bool, range: nat, ghost start: nat, ghost list: nat)
      requires Valid() && pages >= 1
      ensures found ==> Chosen(lists, extents, pages, start, list, range)
      ensures found ==> range in extents && extents[range].free && extents[range].len >= pages
      ensures found ==> pages < Pow2(KMAP_ORDERS)
      ensures !found && pages < Pow2(KMAP_ORDERS) ==> forall s | s in extents && extents[s].free ::
                extents[s].len < pages
    {
      hide Tiled;
      hide Coalesced;
      hide Filed;
      hide Tagged;
      hide ListOf;
      hide Pow2;
      hide TooShort;
      hide FirstFit;
      var first := KmapOrder(pages);
      start, list := first, first;
      found, range := false, 0;
      var order := first;
      while order != KMAP_ORDERS
        invariant start <= order <= KMAP_ORDERS && !found
        invariant forall k | start <= k < order :: TooShort(lists, extents, k, pages)
        decreases KMAP_ORDERS - order
      {
        found, range := FindFree(order, pages);
        if found {
          Pow2Larger(pages, start);
          list := order;
          return;
        }
        order := order + 1;
      }
      if Pow2(first) > pages {
        OrderPositive(pages, start);
        found, range := FindFree(first - 1, pages);
        list := start - 1;
        Pow2Monotone(start, KMAP_ORDERS);
      }
      if !found && pages < Pow2(KMAP_ORDERS) {
        AllSized();
        SearchComplete(lists, extents, pages, start);
      }
    }

    lemma AllSized()
      requires Valid()
      ensures Filed(lists, extents) && forall s | s in extents :: extents[s].len >= 1
    {
      hide Filed;
    }

    /** Taking the front of a free range and giving back the rest. */
    method Hand(range: nat, pages: nat)
      requires Valid() && range in extents && extents[range].free && 1 <= pages <= extents[range].len
      modifies this`lists, this`extents, links, tags
      ensures Valid() && Used() == old(Used())[range := pages]
    {
      hide Tiled;
      hide Coalesced;
      hide Filed;
      hide Tagged;
      hide ListOf;
      hide Busy;
      hide Split;
      FreeTag(range);
      var rangePages := tags[range];
      if rangePages > pages {
        TakeFront(tags[..], links[..], lists, extents, range, pages);
      } else {
        TakeWhole(tags[..], links[..], lists, extents, range);
      }
      SplitAt(extents, range, pages);
      ghost var l := links[..];
      Delete(range);
      links[range] := Self;
      assert links[..] == l[range := Self];
      Stamp(range, pages);
      if rangePages > pages {
        extents := Split(extents, range, pages);
        FreeRange(range + pages, rangePages - pages);
      } else {
        extents := extents[range := Extent(pages, false)];
      }
    }

    lemma RangeUnused(range: nat, pages: nat)
      requires Valid() && range in extents && extents[range].free && pages <= extents[range].len
      ensures range !in Used() && Unused(Used(), range, pages)
    {
      FreeUnused(extents, KMAP_PAGES, range);
    }

    lemma NothingLongEnough(pages: nat)
      requires Valid() && pages >= 1 && forall s | s in extents && extents[s].free :: extents[s].len < pages
      ensures forall x: nat | x + pages <= KMAP_PAGES :: !Unused(Used(), x, pages)
    {
      hide Filed;
      hide Tagged;
      hide Tiled;
      hide Coalesced;
      hide Busy;
      forall x: nat | x + pages <= KMAP_PAGES
        ensures !Unused(Used(), x, pages)
      {
        if Unused(Used(), x, pages) {
          var s := RunInRange(extents, KMAP_PAGES, x, pages);
        }
      }
    }

    /** (range + pages - 1)->pages = range->pages = pages */
    method Stamp(range: nat, pages: nat)
      requires pages > 0 && range + pages <= tags.Length
      modifies tags
      ensures tags[..] == Stamped(old(tags[..]), range, pages)
    {
      tags[range + pages - 1] := pages;
      tags[range] := pages;
    }

    lemma NoneBefore()
      requires Holds(0) && 0 in extents
      ensures LeftBusy(extents, 0)
    {
    }

    lemma LookBack(range: nat)
      requires Holds(range) && range in extents && range > 0
      ensures range < tags.Length && tags[range - 1] <= range
      ensures var p := range - tags[range - 1];
        && p < links.Length && p < range && p in extents && p + extents[p].len == range && tags[p] == extents[p].len
        && (links[p] == Self <==> !extents[p].free)
        && extents[p].len >= 1 && 0 <= ListOf(extents[p].len) < |lists|
        && (!extents[p].free ==> LeftBusy(extents, range))
    {
      hide Filed;
      hide Coalesced;
      hide ListOf;
      Previous(tags[..], links[..], extents, range);
      var p := range - tags[range - 1];
      ListExists(lists, extents, tags.Length, p);
      assert Marked(tags[..], links[..], p, extents[p]);
      forall t | t in extents && t + extents[t].len == range
        ensures t == p
      {
        OneEndsAt(extents, tags.Length, t, p);
      }
    }

    lemma LookAhead(range: nat)
      requires Holds(range) && range in extents
      ensures var q := range + extents[range].len;
        && (q >= KMAP_PAGES ==> Bounded(extents, range))
        && (q < KMAP_PAGES ==>
              && q in extents && q < links.Length && tags[q] == extents[q].len
                 && (links[q] == Self <==> !extents[q].free)
              && extents[q].len >= 1 && 0 <= ListOf(extents[q].len) < |lists|
              && (!extents[q].free ==> Bounded(extents, range)))
    {
      hide Filed;
      hide Coalesced;
      hide ListOf;
      Following(tags[..], links[..], extents, range);
      var q := range + extents[range].len;
      if q < KMAP_PAGES {
        ListExists(lists, extents, tags.Length, q);
        assert Marked(tags[..], links[..], q, extents[q]);
      }
    }

    /** list_del of a free range */
    method Delete(x: nat)
      requires x < links.Length && x < tags.Length && tags[x] >= 1 && 0 <= ListOf(tags[x]) < |lists|
      modifies this`lists, links
      ensures lists == Unlisted(old(lists), x, tags[x]) && links[..] == old(links[..])[x := Null]
    {
      var k := ListOf(tags[x]);
      lists := lists[k := Without(lists[k], x)];
      links[x] := Null;
    }
  }

  /** An input for which the search gives up although there is room: 2^16 pages of a window of which nothing is used. */
  method Refused() returns (window: Allocator, found: bool)
    ensures fresh(window) && window.Used() == map[] && !found
    ensures CAP <= KMAP_PAGES && CAP == Pow2(KMAP_ORDERS) && Unused(window.Used(), 0, CAP)
  {
    CapIs();
    hide Pow2;
    window := new Allocator();
    var range;
    ghost var start, list;
    found, range, start, list := window.AllocRange(CAP);
  }

  /** From this many pages on kmap_alloc_range fails. */
  const CAP: nat := 0x1_0000

  lemma {:induction false} CapIs()
    ensures Pow2(KMAP_ORDERS) == CAP
  {
    assert Pow2(4) == 16;
    assert Pow2(8) == 256;
    assert Pow2(12) == 4096;
  }
}
