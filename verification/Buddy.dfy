/** src/memory.c: the buddy page allocator. */
module BuddyAllocator {
  import opened Powers
  import opened Blocks
  import opened Lists

  /** page->flags: the order in the low byte and the FREE bit. */
  datatype Flags = Flags(order: nat, free: bool)

  /** order[k] holds exactly the heads of the free blocks of order k, each once. */
  ghost predicate Listed(lists: seq<seq<nat>>, free: set<Block>) {
    && |lists| == MAX_ORDER + 1
    && (forall k | 0 <= k <= MAX_ORDER :: NoDuplicates(lists[k]))
    && (forall k: nat, i: nat | k <= MAX_ORDER :: i in lists[k] <==> Block(i, k) in free)
    && (forall b | b in free :: b.order <= MAX_ORDER)
  }

  /** Free and busy blocks and those in hand are aligned, in the zone and disjoint. */
  ghost predicate Layout(lo: nat, hi: nat, free: set<Block>, busy: set<Block>, hand: set<Block>) {
    && free !! busy && free !! hand && busy !! hand
    && AllPlaced(free + busy + hand, lo, hi) && Disjoint(free + busy + hand)
  }

  /** Flags tell the truth at the heads of blocks and outside of all blocks.  Nothing is said of the inside of a block:
      merging leaves the FREE bits of absorbed heads behind. */
  ghost predicate Accurate(flags: seq<Flags>, lo: nat, free: set<Block>, busy: set<Block>, hand: set<Block>) {
    && (forall b | b in free + busy :: lo <= b.idx < lo + |flags|)
    && (forall b | b in free :: flags[b.idx - lo].free && flags[b.idx - lo].order == b.order)
    && (forall b | b in busy :: !flags[b.idx - lo].free)
    && (forall o | 0 <= o < |flags| && flags[o].free :: Within(free + busy + hand, lo + o))
  }

  /** The two sets of blocks hold the same pages. */
  ghost predicate SamePages(s: set<Block>, t: set<Block>) {
    forall p: int :: Within(s, p) <==> Within(t, p)
  }

  ghost predicate NoHead(s: set<Block>, page: int) {
    forall b | b in s :: b.idx != page
  }

  function Twin(b: Block): Block
    requires Buddy(b.idx, b.order) >= 0
  {
    Block(Buddy(b.idx, b.order), b.order)
  }

  /** The two halves joined. */
  function Joined(b: Block): Block
    requires Buddy(b.idx, b.order) >= 0
  {
    Block(if Buddy(b.idx, b.order) < b.idx then Buddy(b.idx, b.order) else b.idx, b.order + 1)
  }

  /** The block is the head of the first list from `order` on that is not empty. */
  ghost predicate FirstFit(lists: seq<seq<nat>>, order: nat, c: nat, idx: nat) {
    order <= c < |lists| && lists[c] != [] && lists[c][0] == idx && forall k | order <= k < c :: lists[k] == []
  }

  /** What taking a block off list c and splitting it down to the order leaves: its upper halves are alone on their
      lists. */
  function Cut(lists: seq<seq<nat>>, order: nat, c: nat, idx: nat): seq<seq<nat>>
    requires c < |lists| && lists[c] != []
  {
    seq(|lists|, k requires 0 <= k < |lists| =>
      if k == c then lists[c][1..] else if order <= k < c then [idx + Pow2(k)] + lists[k] else lists[k])
  }

  lemma {:induction false} CutNone(lists: seq<seq<nat>>, c: nat)
    requires c < |lists| && lists[c] != []
    ensures lists[c := Without(lists[c], lists[c][0])] == Cut(lists, c, c, lists[c][0])
  {
  }

  lemma {:induction false} CutMore(lists: seq<seq<nat>>, order: nat, c: nat, idx: nat)
    requires order < c < |lists| && lists[c] != []
    ensures var l := Cut(lists, order + 1, c, idx);
      l[order := [idx + Pow2(order)] + l[order]] == Cut(lists, order, c, idx)
  {
    hide Pow2;
  }

  lemma {:induction false} JoinedHas(b: Block)
    requires Aligned(b.idx, b.order)
    ensures Buddy(b.idx, b.order) >= 0 && Aligned(Joined(b).idx, b.order + 1) && Aligned(Twin(b).idx, b.order)
    ensures forall p: int :: Joined(b).Has(p) <==> b.Has(p) || Twin(b).Has(p)
    ensures Twin(b) != b && Twin(Twin(b)) == b && !Overlap(b, Twin(b))
    ensures forall c: Block :: Overlap(Joined(b), c) ==> Overlap(b, c) || Overlap(Twin(b), c)
  {
    BuddyPair(b.idx, b.order);
  }

  lemma {:induction false} LargerOverlaps(b: Block, c: Block)
    requires Aligned(b.idx, b.order) && Aligned(c.idx, c.order) && c.order > b.order && c.Has(Buddy(b.idx, b.order))
    ensures Overlap(b, c)
  {
    JoinedHas(b);
    assert Twin(b).Has(Buddy(b.idx, b.order));
    Nested(Joined(b), c);
    assert b.Has(b.idx) && Joined(b).Has(b.idx);
  }

  /** The page that page_free_zone tests is never strictly inside another block, so its flags are those of a head. */
  lemma {:induction false} BuddyIsHead(lo: nat, hi: nat, free: set<Block>, busy: set<Block>, b: Block, c: Block)
    requires Layout(lo, hi, free, busy, {b}) && c in free + busy && c.Has(Buddy(b.idx, b.order))
    ensures c.idx == Buddy(b.idx, b.order)
  {
    var t := Buddy(b.idx, b.order);
    JoinedHas(b);
    assert Placed(b, lo, hi) && Placed(c, lo, hi) && !Overlap(b, c);
    if c.order > b.order {
      LargerOverlaps(b, c);
    } else {
      AlignedDown(t, c.order, b.order);
      if c.idx < t {
        AlignedApart(c.idx, t, c.order);
      }
    }
  }

  /** When the flags of the buddy say free and of the same order, the buddy is a block on that list. */
  lemma {:induction false} BuddyIsFree(lo: nat, hi: nat, free: set<Block>, busy: set<Block>, b: Block,
      flags: seq<Flags>)
    requires Layout(lo, hi, free, busy, {b}) && Accurate(flags, lo, free, busy, {b}) && hi == lo + |flags|
    requires var t := Buddy(b.idx, b.order); lo <= t < hi && flags[t - lo].free && flags[t - lo].order == b.order
    ensures Twin(b) in free
  {
    hide Pow2;
    hide Buddy;
    hide Disjoint;
    var t := Buddy(b.idx, b.order);
    assert Placed(b, lo, hi);
    assert Within(free + busy + {b}, lo + (t - lo));
    var c :| c in free + busy + {b} && c.Has(t);
    JoinedHas(b);
    TwinApart(b);
    BuddyIsHead(lo, hi, free, busy, b, c);
    hide AllPlaced;
  }

  lemma {:induction false} TwinApart(b: Block)
    requires Aligned(b.idx, b.order)
    ensures !b.Has(Buddy(b.idx, b.order))
  {
    JoinedHas(b);
    assert Twin(b).Has(Buddy(b.idx, b.order));
  }

  /** One merge: the buddy leaves its list and joins the block in hand. */
  lemma {:induction false} MergeStep(lo: nat, hi: nat, free: set<Block>, busy: set<Block>, b: Block)
    requires Layout(lo, hi, free, busy, {b}) && b.order < MAX_ORDER
    requires Buddy(b.idx, b.order) >= 0 && Twin(b) in free
    ensures Layout(lo, hi, free - {Twin(b)}, busy, {Joined(b)})
  {
    JoinedHas(b);
    var t, j := Twin(b), Joined(b);
    var s := free + busy + {b};
    var s' := (free - {t}) + busy + {j};
    assert Placed(b, lo, hi) && Placed(t, lo, hi);
    assert j.Has(b.idx) && j.Has(t.idx);
    forall c | c in s && c != b && c != t
      ensures !Overlap(j, c)
    {
      assert !Overlap(b, c) && !Overlap(t, c);
    }
    assert j !in free && j !in busy;
    forall c, d | c in s' && d in s' && c != d
      ensures !Overlap(c, d)
    {
    }
  }

  lemma {:induction false} MergeFlags(flags: seq<Flags>, lo: nat, free: set<Block>, busy: set<Block>, b: Block)
    requires Accurate(flags, lo, free, busy, {b}) && Aligned(b.idx, b.order)
    requires Buddy(b.idx, b.order) >= 0 && Twin(b) in free
    ensures Accurate(flags, lo, free - {Twin(b)}, busy, {Joined(b)})
  {
    JoinedHas(b);
    forall o | 0 <= o < |flags| && flags[o].free
      ensures Within(free - {Twin(b)} + busy + {Joined(b)}, lo + o)
    {
      var c :| c in free + busy + {b} && c.Has(lo + o);
      var d := if c == b || c == Twin(b) then Joined(b) else c;
      assert d in free - {Twin(b)} + busy + {Joined(b)} && d.Has(lo + o);
    }
  }

  /** Marking the head of a new free block keeps the flags accurate. */
  lemma {:induction false} MarkHead(flags: seq<Flags>, lo: nat, free: set<Block>, busy: set<Block>, hand: set<Block>,
      u: Block, hand': set<Block>)
    requires Accurate(flags, lo, free, busy, hand) && lo <= u.idx < lo + |flags|
    requires NoHead(free + busy, u.idx)
    requires SamePages(free + {u} + busy + hand', free + busy + hand)
    ensures Accurate(Marked(flags, u.idx - lo, u.order), lo, free + {u}, busy, hand')
  {
    var flags' := Marked(flags, u.idx - lo, u.order);
    forall o | 0 <= o < |flags'| && flags'[o].free
      ensures Within(free + {u} + busy + hand', lo + o)
    {
      if o == u.idx - lo {
        assert u in free + {u} + busy + hand' && u.Has(lo + o);
      } else {
        assert Within(free + busy + hand, lo + o);
      }
    }
  }

  lemma {:induction false} HeadsApart(s: set<Block>, b: Block)
    requires Disjoint(s) && b in s
    ensures forall c | c in s && c != b :: c.idx != b.idx
  {
    forall c | c in s && c != b
      ensures c.idx != b.idx
    {
      assert !Overlap(b, c);
    }
  }

  /** The end of page_free_zone: the merged block, whose buddy is not free, goes onto its list. */
  lemma {:induction false} FinishFree(flags: seq<Flags>, lo: nat, free: set<Block>, busy: set<Block>, b: Block)
    requires var hi := lo + |flags|; Layout(lo, hi, free, busy, {b}) && Accurate(flags, lo, free, busy, {b})
    requires Merged(free) && (b.order < MAX_ORDER && Buddy(b.idx, b.order) >= 0 ==> Twin(b) !in free)
    ensures Layout(lo, lo + |flags|, free + {b}, busy, {}) && Merged(free + {b}) && lo <= b.idx < lo + |flags|
    ensures Accurate(Marked(flags, b.idx - lo, b.order), lo, free + {b}, busy, {})
  {
    assert Placed(b, lo, lo + |flags|);
    assert free + {b} + busy + {} == free + busy + {b};
    AddMerged(free, b);
    HeadsApart(free + busy + {b}, b);
    MarkHead(flags, lo, free, busy, {b}, b, {});
  }

  /** page_set_order and page_set_free */
  function Marked(flags: seq<Flags>, o: int, order: nat): seq<Flags>
    requires 0 <= o < |flags|
  {
    flags[o := flags[o].(order := order, free := true)]
  }

  lemma {:induction false} AddMerged(s: set<Block>, b: Block)
    requires Merged(s) && Aligned(b.idx, b.order) && (forall c | c in s :: Aligned(c.idx, c.order))
    requires b.order < MAX_ORDER && Buddy(b.idx, b.order) >= 0 ==> Twin(b) !in s
    ensures Merged(s + {b})
  {
    BuddyPair(b.idx, b.order);
    forall c, d | c in s + {b} && d in s + {b} && c.order == d.order < MAX_ORDER && Aligned(c.idx, c.order + 1)
      ensures d.idx != c.End()
    {
      BuddyPair(c.idx, c.order);
    }
  }

  lemma {:induction false} MergedSubset(s: set<Block>, b: Block)
    requires Merged(s)
    ensures Merged(s - {b})
  {
  }

  lemma {:induction false} StartFree(flags: seq<Flags>, lo: nat, free: set<Block>, busy: set<Block>, b: Block)
    requires Layout(lo, lo + |flags|, free, busy, {}) && Accurate(flags, lo, free, busy, {}) && b in busy
    ensures Layout(lo, lo + |flags|, free, busy - {b}, {b}) && Accurate(flags, lo, free, busy - {b}, {b})
  {
    assert free + (busy - {b}) + {b} == free + busy + {};
  }

  /** The start of page_alloc_zone: a block leaves its list and loses its FREE bit. */
  lemma {:induction false} StartAlloc(flags: seq<Flags>, lo: nat, free: set<Block>, busy: set<Block>, b: Block)
    requires Layout(lo, lo + |flags|, free, busy, {}) && Accurate(flags, lo, free, busy, {}) && b in free
    ensures lo <= b.idx < lo + |flags| && Layout(lo, lo + |flags|, free - {b}, busy, {b})
    ensures Accurate(flags[b.idx - lo := flags[b.idx - lo].(free := false)], lo, free - {b}, busy, {b})
  {
    assert (free - {b}) + busy + {b} == free + busy + {};
    forall c | c in free + busy && c != b
      ensures c.idx != b.idx
    {
      assert !Overlap(b, c) && Placed(b, lo, lo + |flags|) && Placed(c, lo, lo + |flags|);
    }
  }

  /** One split: the lower half stays in hand, the upper half goes onto its list. */
  lemma {:induction false} SplitStep(flags: seq<Flags>, lo: nat, free: set<Block>, busy: set<Block>, i: nat, k: nat)
    requires Layout(lo, lo + |flags|, free, busy, {Block(i, k + 1)})
               && Accurate(flags, lo, free, busy, {Block(i, k + 1)})
    requires Merged(free)
    ensures var u := Block(i + Pow2(k), k);
      && Buddy(i, k) == i + Pow2(k) && u !in free && u !in busy
      && Layout(lo, lo + |flags|, free + {u}, busy, {Block(i, k)}) && Merged(free + {u})
      && lo <= u.idx < lo + |flags| && Accurate(Marked(flags, u.idx - lo, k), lo, free + {u}, busy, {Block(i, k)})
  {
    SplitMerged(lo, lo + |flags|, free, busy, i, k);
    hide Layout;
    hide Accurate;
    hide Merged;
    hide Pow2;
    SplitLayout(lo, lo + |flags|, free, busy, i, k);
    SplitFlags(flags, lo, free, busy, i, k);
  }

  lemma {:induction false} SplitMerged(lo: nat, hi: nat, free: set<Block>, busy: set<Block>, i: nat, k: nat)
    requires Layout(lo, hi, free, busy, {Block(i, k + 1)}) && Merged(free)
    ensures Aligned(i, k + 1) && Aligned(i, k) && Aligned(i + Pow2(k), k) && Merged(free + {Block(i + Pow2(k), k)})
  {
    var b, l, u := Block(i, k + 1), Block(i, k), Block(i + Pow2(k), k);
    assert Placed(b, lo, hi);
    AlignedDown(i, k, k + 1);
    AlignedStep(i, k);
    SplitLayout(lo, hi, free, busy, i, k);
    BuddyPair(u.idx, k);
    assert Twin(u) == l;
    hide Disjoint;
    hide Merged;
    hide Pow2;
    AddMerged(free, u);
  }

  lemma {:induction false} SplitHas(i: nat, k: nat)
    ensures forall p: int :: Block(i, k + 1).Has(p) <==> Block(i, k).Has(p) || Block(i + Pow2(k), k).Has(p)
    ensures Block(i, k + 1).End() == Block(i + Pow2(k), k).End()
  {
    assert Pow2(k + 1) == 2 * Pow2(k);
  }

  lemma {:induction false} SplitLayout(lo: nat, hi: nat, free: set<Block>, busy: set<Block>, i: nat, k: nat)
    requires Layout(lo, hi, free, busy, {Block(i, k + 1)}) && Aligned(i, k) && Aligned(i + Pow2(k), k)
    ensures var l, u := Block(i, k), Block(i + Pow2(k), k);
      l !in free && u !in free && l !in busy && u !in busy && Layout(lo, hi, free + {u}, busy, {l})
  {
    var b, l, u := Block(i, k + 1), Block(i, k), Block(i + Pow2(k), k);
    SplitHas(i, k);
    assert Placed(b, lo, hi);
    forall c | c in free + busy
      ensures !Overlap(l, c) && !Overlap(u, c)
    {
      assert !Overlap(b, c);
    }
    assert Overlap(l, l) && Overlap(u, u);
    assert (free + {u}) + busy + {l} == free + busy + {u, l};
  }

  lemma {:induction false} SplitFlags(flags: seq<Flags>, lo: nat, free: set<Block>, busy: set<Block>, i: nat, k: nat)
    requires Layout(lo, lo + |flags|, free, busy, {Block(i, k + 1)})
               && Accurate(flags, lo, free, busy, {Block(i, k + 1)})
    ensures var u := Block(i + Pow2(k), k);
      lo <= u.idx < lo + |flags| && Accurate(Marked(flags, u.idx - lo, k), lo, free + {u}, busy, {Block(i, k)})
  {
    hide *;
    SplitHead(lo, lo + |flags|, free, busy, i, k);
    SplitBoth(free, busy, i, k);
    MarkHead(flags, lo, free, busy, {Block(i, k + 1)}, Block(i + Pow2(k), k), {Block(i, k)});
  }

  lemma {:induction false} SplitBoth(free: set<Block>, busy: set<Block>, i: nat, k: nat)
    ensures SamePages(free + {Block(i + Pow2(k), k)} + busy + {Block(i, k)}, free + busy + {Block(i, k + 1)})
  {
    var l, u := Block(i, k), Block(i + Pow2(k), k);
    SplitWithin(free + busy, i, k);
    assert free + {u} + busy + {l} == free + busy + {u} + {l};
  }

  lemma {:induction false} SplitHead(lo: nat, hi: nat, free: set<Block>, busy: set<Block>, i: nat, k: nat)
    requires Layout(lo, hi, free, busy, {Block(i, k + 1)})
    ensures lo <= i + Pow2(k) < hi
    ensures NoHead(free + busy, i + Pow2(k))
  {
    var b := Block(i, k + 1);
    assert Pow2(k + 1) == 2 * Pow2(k);
    assert Placed(b, lo, hi);
    forall c | c in free + busy
      ensures c.idx != i + Pow2(k)
    {
      assert !Overlap(b, c);
    }
  }

  lemma {:induction false} SplitWithin(s: set<Block>, i: nat, k: nat)
    ensures SamePages(s + {Block(i + Pow2(k), k)} + {Block(i, k)}, s + {Block(i, k + 1)})
  {
    SplitHas(i, k);
    var b, l, u := Block(i, k + 1), Block(i, k), Block(i + Pow2(k), k);
    var x, y := s + {u} + {l}, s + {b};
    forall p: int
      ensures Within(x, p) <==> Within(y, p)
    {
      if Within(x, p) {
        var c :| c in x && c.Has(p);
        var d := if c in s then c else b;
        assert d in y && d.Has(p);
      }
      if Within(y, p) {
        var c :| c in y && c.Has(p);
        var d := if c in s then c else if l.Has(p) then l else u;
        assert d in x && d.Has(p);
      }
    }
  }

  lemma {:induction false} FinishAlloc(flags: seq<Flags>, lo: nat, free: set<Block>, busy: set<Block>, b: Block)
    requires Layout(lo, lo + |flags|, free, busy, {b}) && Accurate(flags, lo, free, busy, {b})
    requires lo <= b.idx < lo + |flags| && !flags[b.idx - lo].free
    ensures Layout(lo, lo + |flags|, free, busy + {b}, {}) && Accurate(flags, lo, free, busy + {b}, {})
  {
    assert free + (busy + {b}) + {} == free + busy + {b};
  }

  // ----- boot-time tiling -----

  /** page & (1 << k) */
  predicate Bit(page: nat, k: nat) {
    page / Pow2(k) % 2 == 1
  }

  lemma {:induction false} BitOfAligned(page: nat, k: nat)
    requires Aligned(page, k)
    ensures Bit(page, k) <==> !Aligned(page, k + 1)
  {
    var q, d := page / Pow2(k), Pow2(k);
    TwiceMod(q / 2, d);
    assert q == if q % 2 == 1 then 2 * (q / 2) + 1 else 2 * (q / 2);
    assert page == q * d;
  }

  /** The block cannot be doubled within [.., end). */
  predicate Largest(b: Block, end: nat) {
    b.order == MAX_ORDER || !Aligned(b.idx, b.order + 1) || b.idx + Pow2(b.order + 1) > end
  }

  /** What the tiling loop keeps: the blocks end by `page`, and those that end there are as large as can be. */
  ghost predicate Tiled(free: set<Block>, page: nat, end: nat) {
    forall b | b in free :: b.End() <= page && (b.End() == page ==> Largest(b, end))
  }

  /** The block picked by the tiling loop does not have its buddy among the blocks before it. */
  lemma {:induction false} TileNoTwin(free: set<Block>, b: Block, end: nat)
    requires Aligned(b.idx, b.order) && b.End() <= end && Tiled(free, b.idx, end)
    ensures b.order < MAX_ORDER && Buddy(b.idx, b.order) >= 0 ==> Twin(b) !in free
  {
    BuddyPair(b.idx, b.order);
    assert Pow2(b.order + 1) == 2 * Pow2(b.order);
  }

  lemma {:induction false} TileStep(free: set<Block>, b: Block, end: nat)
    requires Tiled(free, b.idx, end) && Largest(b, end)
    ensures Tiled(free + {b}, b.End(), end)
  {
  }

  /** A block beyond all others can be taken in hand. */
  lemma {:induction false} StartTile(flags: seq<Flags>, lo: nat, free: set<Block>, busy: set<Block>, b: Block)
    requires Layout(lo, lo + |flags|, free, busy, {}) && Accurate(flags, lo, free, busy, {})
    requires Placed(b, lo, lo + |flags|) && (forall c | c in free + busy :: c.End() <= b.idx)
    ensures Layout(lo, lo + |flags|, free, busy, {b}) && Accurate(flags, lo, free, busy, {b})
  {
    assert free + busy + {} == free + busy;
    forall p | Within(free + busy, p)
      ensures Within(free + busy + {b}, p)
    {
      var c :| c in free + busy && c.Has(p);
      assert c in free + busy + {b};
    }
  }

  lemma {:induction false} OneMore(free: set<Block>, b: Block)
    ensures forall p: int :: Within(free + {b}, p) <==> Within(free, p) || b.Has(p)
  {
    forall p: int
      ensures Within(free + {b}, p) <==> Within(free, p) || b.Has(p)
    {
      if Within(free, p) {
        var c :| c in free && c.Has(p);
        assert c in free + {b};
      }
      if b.Has(p) {
        assert b in free + {b};
      }
    }
  }

  // ----- lists -----

  lemma {:induction false} AddListed(lists: seq<seq<nat>>, free: set<Block>, b: Block)
    requires Listed(lists, free) && b !in free && b.order <= MAX_ORDER
    ensures Listed(lists[b.order := [b.idx] + lists[b.order]], free + {b})
    ensures Listed(lists[b.order := lists[b.order] + [b.idx]], free + {b})
  {
    assert b.idx !in lists[b.order];
  }

  lemma {:induction false} RemoveListed(lists: seq<seq<nat>>, free: set<Block>, b: Block)
    requires Listed(lists, free) && b in free
    ensures Listed(lists[b.order := Without(lists[b.order], b.idx)], free - {b})
  {
    WithoutElements(lists[b.order], b.idx);
  }

  // ----- pages -----

  lemma {:induction false} MergePages(free: set<Block>, b: Block)
    requires Aligned(b.idx, b.order) && Buddy(b.idx, b.order) >= 0 && Twin(b) in free
    ensures SamePages(free - {Twin(b)} + {Joined(b)}, free + {b})
  {
    JoinedHas(b);
    var s, t := free - {Twin(b)} + {Joined(b)}, free + {b};
    forall p: int
      ensures Within(s, p) <==> Within(t, p)
    {
      if Within(s, p) {
        var c :| c in s && c.Has(p);
        var d := if c != Joined(b) then c else if b.Has(p) then b else Twin(b);
        assert d in t && d.Has(p);
      }
      if Within(t, p) {
        var c :| c in t && c.Has(p);
        var d := if c == b || c == Twin(b) then Joined(b) else c;
        assert d in s && d.Has(p);
      }
    }
  }

  /** struct page_alloc_zone: pages begin..end, their flags and the free lists. */
  class Zone {
    const begin: nat
    const end: nat
    const flags: array<Flags>
    var lists: seq<seq<nat>>
    ghost var free: set<Block>
    ghost var busy: set<Block>

    ghost predicate Holds(hand: set<Block>)
      reads this, flags
    {
      && begin <= end && flags.Length == end - begin
      && Listed(lists, free) && Merged(free)
      && Layout(begin, end, free, busy, hand) && Accurate(flags[..], begin, free, busy, hand)
    }

    ghost predicate Valid()
      reads this, flags
    {
      Holds({})
    }

    /** __page_alloc_zone_setup, with the flags of all pages cleared */
    constructor (lo: nat, hi: nat)
      requires lo <= hi
      ensures Valid() && begin == lo && end == hi && free == {} && busy == {} && fresh(flags)
    {
      begin, end := lo, hi;
      flags := new Flags[hi - lo](_ => Flags(0, false));
      lists := seq(MAX_ORDER + 1, _ => []);
      free, busy := {}, {};
    }

    /** The tail of page_free_zone: list_add, page_set_order, page_set_free. */
    method Put(b: Block)
      requires Holds({b}) && b.order <= MAX_ORDER
      requires b.order < MAX_ORDER && Buddy(b.idx, b.order) >= 0 ==> Twin(b) !in free
      modifies this`lists, this`free, flags
      ensures Valid() && free == old(free) + {b} && busy == old(busy)
      ensures lists == old(lists)[b.order := [b.idx] + old(lists)[b.order]]
    {
      hide Layout;
      hide Accurate;
      hide Listed;
      hide Merged;
      FinishFree(flags[..], begin, free, busy, b);
      NotYetFree(b);
      AddListed(lists, free, b);
      ghost var f := flags[..];
      lists := lists[b.order := [b.idx] + lists[b.order]];
      free := free + {b};
      var o := b.idx - begin;
      flags[o] := flags[o].(order := b.order, free := true);
      assert flags[..] == Marked(f, o, b.order);
    }

    /** One pass of the loop of page_free_zone that does merge: list_del of the buddy. */
    method Absorb(b: Block) returns (j: Block)
      requires Holds({b}) && b.order < MAX_ORDER && Buddy(b.idx, b.order) >= 0 && Twin(b) in free
      modifies this`lists, this`free
      ensures Holds({j}) && j == Joined(b) && free == old(free) - {Twin(b)}
      ensures SamePages(free + {j}, old(free) + {b})
    {
      hide Layout;
      hide Accurate;
      hide Listed;
      hide Merged;
      hide SamePages;
      hide Joined;
      MergeStep(begin, end, free, busy, b);
      InHand(b);
      MergedSubset(free, Twin(b));
      MergeFlags(flags[..], begin, free, busy, b);
      RemoveListed(lists, free, Twin(b));
      MergePages(free, b);
      var bidx: nat := Buddy(b.idx, b.order);
      lists := lists[b.order := Without(lists[b.order], bidx)];
      free := free - {Twin(b)};
      j := Joined(b);
    }

    /** page_free_zone */
    method Free(idx: nat, order: nat)
      requires Valid() && Block(idx, order) in busy
      modifies this`lists, this`free, this`busy, flags
      ensures Valid() && busy == old(busy) - {Block(idx, order)}
      ensures SamePages(free, old(free) + {Block(idx, order)})
    {
      hide Layout;
      hide Accurate;
      hide Listed;
      hide Merged;
      StartFree(flags[..], begin, free, busy, Block(idx, order));
      var b := Block(idx, order);
      busy := busy - {b};
      InHand(b);
      assert Aligned(idx, order);
      while b.order < MAX_ORDER
        invariant Holds({b}) && Placed(b, begin, end) && busy == old(busy) - {Block(idx, order)}
        invariant SamePages(free + {b}, old(free) + {Block(idx, order)})
        decreases MAX_ORDER - b.order
      {
        var bidx := Buddy(b.idx, b.order);
        if bidx < begin || bidx >= end {
          break;
        }
        if !flags[bidx - begin].free || flags[bidx - begin].order != b.order {
          break;
        }
        BuddyIsFree(begin, end, free, busy, b, flags[..]);
        b := Absorb(b);
        InHand(b);
      }
      NoTwin(b);
      Put(b);
    }

    /** One turn of the loop of __page_alloc_zone_free: list_add_tail, page_set_order, page_set_free. */
    method Append(b: Block)
      requires Valid() && Placed(b, begin, end) && (forall c | c in free + busy :: c.End() <= b.idx)
      requires b.order < MAX_ORDER && Buddy(b.idx, b.order) >= 0 ==> Twin(b) !in free
      modifies this`lists, this`free, flags
      ensures Valid() && free == old(free) + {b} && busy == old(busy)
      ensures lists == old(lists)[b.order := old(lists)[b.order] + [b.idx]]
    {
      hide Layout;
      hide Accurate;
      hide Listed;
      hide Merged;
      TableSize();
      StartTile(flags[..], begin, free, busy, b);
      FinishFree(flags[..], begin, free, busy, b);
      NotYetFree(b);
      AddListed(lists, free, b);
      ghost var f := flags[..];
      lists := lists[b.order := lists[b.order] + [b.idx]];
      free := free + {b};
      var o := b.idx - begin;
      flags[o] := flags[o].(order := b.order, free := true);
      assert flags[..] == Marked(f, o, b.order);
    }

    /** The inner loop of __page_alloc_zone_free: the largest aligned block at `page` that ends by `last`. */
    method PickOrder(page: nat, last: nat) returns (order: nat)
      requires page < last
      ensures order <= MAX_ORDER && Aligned(page, order) && page + Pow2(order) <= last
      ensures Largest(Block(page, order), last)
    {
      order := 0;
      while order < MAX_ORDER
        invariant 0 <= order <= MAX_ORDER && Aligned(page, order) && page + Pow2(order) <= last
      {
        BitOfAligned(page, order);
        if Bit(page, order) {
          break;
        }
        if page + Pow2(order + 1) > last {
          break;
        }
        order := order + 1;
      }
    }

    /** The outer loop of __page_alloc_zone_free: the pages [first, last), which lie beyond all blocks of the zone
        and do not touch a free one, become free blocks. */
    method Release(first: nat, last: nat)
      requires Valid() && begin <= first < last <= end
      requires forall b | b in free :: b.End() < first
      requires forall b | b in busy :: b.End() <= first
      modifies this`lists, this`free, flags
      ensures Valid() && busy == old(busy)
      ensures forall b | b in free :: b.End() <= last
      ensures forall p: int :: Within(free, p) <==> Within(old(free), p) || first <= p < last
    {
      hide Layout;
      hide Accurate;
      hide Listed;
      hide Merged;
      hide Aligned;
      hide Within;
      hide Largest;
      var page := first;
      while page != last
        invariant Valid() && first <= page <= last && busy == old(busy) && Tiled(free, page, last)
        invariant forall p: int :: Within(free, p) <==> Within(old(free), p) || first <= p < page
        decreases last - page
      {
        var order := PickOrder(page, last);
        var b := Block(page, order);
        TileNoTwin(free, b, last);
        TileStep(free, b, last);
        OneMore(free, b);
        Append(b);
        page := page + Pow2(order);
      }
    }

    lemma NotYetFree(b: Block)
      requires Holds({b})
      ensures b !in free && |lists| == MAX_ORDER + 1
    {
    }

    lemma InHand(b: Block)
      requires Holds({b})
      ensures Placed(b, begin, end) && |lists| == MAX_ORDER + 1
    {
    }

    /** When the loop of page_free_zone stops, the buddy is not a free block. */
    lemma NoTwin(b: Block)
      requires Holds({b})
      requires var t := Buddy(b.idx, b.order);
        b.order >= MAX_ORDER || t < begin || t >= end || !flags[t - begin].free || flags[t - begin].order != b.order
      ensures b.order < MAX_ORDER && Buddy(b.idx, b.order) >= 0 ==> Twin(b) !in free
    {
      assert forall c | c in free :: Placed(c, begin, end);
    }

    /** page_alloc_zone: a block of the given order, or none exactly when the zone has no free aligned run of
        2^order pages. */
    method Alloc(order: nat) returns (found: bool, idx: nat, ghost list: nat)
      requires Valid() && order <= MAX_ORDER
      modifies this`lists, this`free, this`busy, flags
      ensures Valid()
      ensures !found ==> forall i: nat :: !FreeRun(old(free), i, order)
      ensures !found ==> free == old(free) && busy == old(busy) && lists == old(lists) && flags[..] == old(flags[..])
      ensures found ==> FirstFit(old(lists), order, list, idx) && lists == Cut(old(lists), order, list, idx)
      ensures found ==>
                && FreeRun(old(free), idx, order)
                && busy == old(busy) + {Block(idx, order)} && Block(idx, order) !in old(busy)
                && SamePages(free + {Block(idx, order)}, old(free))
    {
      hide Layout;
      hide Accurate;
      hide Listed;
      hide Merged;
      TableSize();
      var current := order;
      while current <= MAX_ORDER && lists[current] == []
        invariant order <= current <= MAX_ORDER + 1
        invariant forall k | order <= k < current :: lists[k] == []
      {
        current := current + 1;
      }
      if current > MAX_ORDER {
        NothingFree(order);
        return false, 0, 0;
      }
      hide Cut;
      hide Without;
      found, idx, list := true, lists[current][0], current;
      FirstIsFree(current, order);
      CutNone(lists, current);
      Take(current);
      while current != order
        invariant order <= current <= MAX_ORDER && Holds({Block(idx, current)})
        invariant current <= list < |old(lists)| && old(lists)[list] != []
        invariant lists == Cut(old(lists), current, list, idx)
        invariant SamePages(free + {Block(idx, current)}, old(free)) && busy == old(busy)
        invariant begin <= idx < end && !flags[idx - begin].free
      {
        current := current - 1;
        CutMore(old(lists), current, list, idx);
        Split(idx, current);
      }
      FinishAlloc(flags[..], begin, free, busy, Block(idx, order));
      HandNotBusy(Block(idx, order));
      busy := busy + {Block(idx, order)};
    }

    /** The head of a list leaves it and loses its FREE bit. */
    method Take(k: nat)
      requires Valid() && k <= MAX_ORDER && lists[k] != []
      modifies this`lists, this`free, flags
      ensures Holds({Block(old(lists)[k][0], k)}) && free == old(free) - {Block(old(lists)[k][0], k)}
                && Block(old(lists)[k][0], k) in old(free)
      ensures SamePages(free + {Block(old(lists)[k][0], k)}, old(free))
      ensures lists == old(lists)[k := Without(old(lists)[k], old(lists)[k][0])]
      ensures begin <= old(lists)[k][0] < end && !flags[old(lists)[k][0] - begin].free
    {
      hide Layout;
      hide Accurate;
      hide Listed;
      hide Merged;
      hide SamePages;
      ListedHead(k);
      var idx := lists[k][0];
      ghost var b := Block(idx, k);
      SameFree(b);
      StartAlloc(flags[..], begin, free, busy, b);
      RemoveListed(lists, free, b);
      MergedSubset(free, b);
      ghost var f := flags[..];
      flags[idx - begin] := flags[idx - begin].(free := false);
      assert flags[..] == f[idx - begin := f[idx - begin].(free := false)];
      TableSize();
      lists := lists[k := Without(lists[k], idx)];
      free := free - {b};
    }

    /** One pass of the splitting loop: the upper half goes to the front of its list. */
    method Split(idx: nat, k: nat)
      requires Holds({Block(idx, k + 1)}) && k < MAX_ORDER && begin <= idx < end && !flags[idx - begin].free
      modifies this`lists, this`free, flags
      ensures Holds({Block(idx, k)}) && !flags[idx - begin].free
      ensures |old(lists)| == MAX_ORDER + 1 && lists == old(lists)[k := [idx + Pow2(k)] + old(lists)[k]]
      ensures SamePages(free + {Block(idx, k)}, old(free) + {Block(idx, k + 1)})
    {
      hide Layout;
      hide Accurate;
      hide Listed;
      hide Merged;
      TableSize();
      SplitStep(flags[..], begin, free, busy, idx, k);
      SplitWithin(free, idx, k);
      var bidx: nat := Buddy(idx, k);
      ghost var f := flags[..];
      AddListed(lists, free, Block(bidx, k));
      lists := lists[k := [bidx] + lists[k]];
      free := free + {Block(bidx, k)};
      flags[bidx - begin] := flags[bidx - begin].(order := k, free := true);
      assert flags[..] == Marked(f, bidx - begin, k);
    }

    lemma ListedHead(k: nat)
      requires Valid() && k <= MAX_ORDER && lists[k] != []
      ensures |lists| == MAX_ORDER + 1 && Block(lists[k][0], k) in free
    {
      assert lists[k][0] in lists[k];
    }

    lemma SameFree(b: Block)
      requires b in free
      ensures SamePages(free - {b} + {b}, free)
    {
      assert free - {b} + {b} == free;
    }

    /** Freeing what was allocated, at the same order, restores the same set of free blocks: what the one splits the
        other merges again. */
    method AllocThenFree(order: nat) returns (found: bool, idx: nat)
      requires Valid() && order <= MAX_ORDER
      modifies this`lists, this`free, this`busy, flags
      ensures Valid() && free == old(free) && busy == old(busy)
      ensures found <==> exists i: nat :: FreeRun(old(free), i, order)
    {
      hide Holds;
      hide SamePages;
      hide FreeRun;
      ghost var list;
      FreeIsCanonical();
      ghost var before := free;
      found, idx, list := Alloc(order);
      if found {
        ghost var middle := free;
        Free(idx, order);
        FreeUndoesAlloc(before, middle, Block(idx, order));
      }
    }

    /** Free blocks that hold the same pages are the same blocks. */
    lemma FreeUndoesAlloc(before: set<Block>, middle: set<Block>, b: Block)
      requires Valid() && Canonical(before, begin, end)
      requires SamePages(middle + {b}, before) && SamePages(free, middle + {b})
      ensures free == before
    {
      FreeIsCanonical();
      CanonicalUnique(free, before, begin, end);
    }

    lemma TableSize()
      requires Listed(lists, free)
      ensures |lists| == MAX_ORDER + 1
    {
    }

    lemma HandNotBusy(b: Block)
      requires Holds({b})
      ensures b !in busy && b !in free
    {
    }

    /** Empty lists from `order` on mean that no free run of that order exists. */
    lemma NothingFree(order: nat)
      requires Valid() && order <= MAX_ORDER && forall k | order <= k <= MAX_ORDER :: lists[k] == []
      ensures forall i: nat :: !FreeRun(free, i, order)
    {
      FreeIsCanonical();
      assert forall b | b in free :: b.idx in lists[b.order];
      forall i: nat
        ensures !FreeRun(free, i, order)
      {
        if FreeRun(free, i, order) {
          var b := RunInBlock(free, begin, end, i, order);
        }
      }
    }

    lemma FreeIsCanonical()
      requires Valid()
      ensures Canonical(free, begin, end)
    {
    }

    /** The head of a non-empty list starts a free run of every smaller order. */
    lemma FirstIsFree(k: nat, order: nat)
      requires Valid() && order <= k <= MAX_ORDER && lists[k] != []
      ensures FreeRun(free, lists[k][0], order)
    {
      var b := Block(lists[k][0], k);
      assert lists[k][0] in lists[k];
      assert b in free && Placed(b, begin, end);
      AlignedDown(b.idx, order, k);
      Pow2Monotone(order, k);
      forall p | b.idx <= p < b.idx + Pow2(order)
        ensures Within(free, p)
      {
        assert b.Has(p);
      }
    }
  }
}
