/** Sets of naturally aligned page blocks: what the buddy allocator's free lists and busy blocks are. */
module Blocks {
  import opened Powers

  const MAX_ORDER: nat := 18

  datatype Block = Block(idx: nat, order: nat) {
    function Size(): nat {
      Pow2(order)
    }

    function End(): nat {
      idx + Size()
    }

    predicate Has(page: int) {
      idx <= page < End()
    }
  }

  predicate Overlap(b: Block, c: Block) {
    b.idx < c.End() && c.idx < b.End()
  }

  /** Aligned, of a legal order, inside the zone [lo, hi). */
  predicate Placed(b: Block, lo: nat, hi: nat) {
    b.order <= MAX_ORDER && Aligned(b.idx, b.order) && lo <= b.idx && b.End() <= hi
  }

  predicate AllPlaced(s: set<Block>, lo: nat, hi: nat) {
    forall b | b in s :: Placed(b, lo, hi)
  }

  predicate Disjoint(s: set<Block>) {
    forall b, c | b in s && c in s && b != c :: !Overlap(b, c)
  }

  /** No two free buddies of equal order below the top order. */
  predicate Merged(s: set<Block>) {
    forall b, c | b in s && c in s && b.order == c.order < MAX_ORDER && Aligned(b.idx, b.order + 1) :: c.idx != b.End()
  }

  predicate Canonical(s: set<Block>, lo: nat, hi: nat) {
    AllPlaced(s, lo, hi) && Disjoint(s) && Merged(s)
  }

  /** The page lies in one of the blocks. */
  predicate Within(s: set<Block>, page: int) {
    exists b | b in s :: b.Has(page)
  }

  /** An aligned run of 2^k free pages. */
  predicate FreeRun(s: set<Block>, i: nat, k: nat) {
    Aligned(i, k) && forall page | i <= page < i + Pow2(k) :: Within(s, page)
  }

  // ----- alignment and overlap -----

  /** Overlapping aligned blocks are nested. */
  lemma {:induction false} Nested(b: Block, c: Block)
    requires Aligned(b.idx, b.order) && Aligned(c.idx, c.order) && b.order <= c.order && Overlap(b, c)
    ensures c.idx <= b.idx && b.End() <= c.End()
  {
    AlignedDown(c.idx, b.order, c.order);
    Pow2Split(b.order, c.order);
    if b.idx < c.idx {
      AlignedApart(b.idx, c.idx, b.order);
    }
    AlignedSum(c.idx, b.order, c.order);
    if b.idx < c.End() {
      AlignedApart(b.idx, c.End(), b.order);
    }
  }

  lemma {:induction false} Pow2Split(j: nat, k: nat)
    requires j <= k
    ensures Pow2(k) == Pow2(k - j) * Pow2(j)
  {
    Pow2Sum(k - j, j);
  }

  lemma {:induction false} AlignedSum(i: nat, j: nat, k: nat)
    requires Aligned(i, k) && j <= k
    ensures Aligned(i + Pow2(k), j)
  {
    var q := i / Pow2(k);
    assert i + Pow2(k) == (q + 1) * Pow2(k);
    AlignedMultiple(q + 1, k);
    AlignedDown(i + Pow2(k), j, k);
  }

  /** The blocks that hold the two halves of a run are not both just the halves. */
  lemma {:induction false} HalvesMerged(s: set<Block>, b: Block, c: Block, i: nat, k: nat)
    requires Merged(s) && b in s && c in s && k < MAX_ORDER && Aligned(i, k + 1)
    requires b.order >= k && b.idx <= i && i + Pow2(k) <= b.End()
    requires c.order >= k && c.idx <= i + Pow2(k) && i + Pow2(k) + Pow2(k) <= c.End()
    ensures b.order > k || c.order > k
  {
    assert b.order == k ==> b.idx == i && b.End() == i + Pow2(k);
    assert c.order == k ==> c.idx == i + Pow2(k);
  }

  lemma {:induction false} HalfRuns(s: set<Block>, i: nat, k: nat)
    requires FreeRun(s, i, k)
    ensures k == 0 ==> Within(s, i)
    ensures k > 0 ==> FreeRun(s, i, k - 1) && FreeRun(s, i + Pow2(k - 1), k - 1) && Pow2(k) == 2 * Pow2(k - 1)
  {
    if k > 0 {
      AlignedDown(i, k - 1, k);
      AlignedStep(i, k - 1);
    }
  }

  /** A free aligned run lies inside one free block, because free buddies have been merged. */
  lemma {:induction false} RunInBlock(s: set<Block>, lo: nat, hi: nat, i: nat, k: nat) returns (b: Block)
    requires Canonical(s, lo, hi) && FreeRun(s, i, k) && k <= MAX_ORDER
    ensures b in s && b.order >= k && b.idx <= i && i + Pow2(k) <= b.End()
    decreases k
  {
    hide Disjoint;
    hide Merged;
    HalfRuns(s, i, k);
    if k == 0 {
      b :| b in s && b.Has(i);
    } else {
      b := RunInBlock(s, lo, hi, i, k - 1);
      var c := RunInBlock(s, lo, hi, i + Pow2(k - 1), k - 1);
      HalvesMerged(s, b, c, i, k - 1);
      if b.order < k {
        b := c;
      }
      Nested(Block(i, k), b);
    }
  }

  lemma {:induction false} BlockIsRun(s: set<Block>, b: Block)
    requires b in s && Aligned(b.idx, b.order)
    ensures FreeRun(s, b.idx, b.order)
  {
    forall page | b.idx <= page < b.End()
      ensures Within(s, page)
    {
      assert b.Has(page);
    }
  }

  /** A set of free pages has one canonical decomposition into blocks. */
  lemma {:induction false} CanonicalUnique(s: set<Block>, t: set<Block>, lo: nat, hi: nat)
    requires Canonical(s, lo, hi) && Canonical(t, lo, hi)
    requires forall page: int :: Within(s, page) <==> Within(t, page)
    ensures s == t
  {
    CanonicalSubset(s, t, lo, hi);
    CanonicalSubset(t, s, lo, hi);
  }

  lemma {:induction false} CanonicalSubset(s: set<Block>, t: set<Block>, lo: nat, hi: nat)
    requires Canonical(s, lo, hi) && Canonical(t, lo, hi)
    requires forall page: int :: Within(s, page) <==> Within(t, page)
    ensures s <= t
  {
    forall b | b in s
      ensures b in t
    {
      BlockIsRun(s, b);
      var c := RunInBlock(t, lo, hi, b.idx, b.order);
      BlockIsRun(t, c);
      var d := RunInBlock(s, lo, hi, c.idx, c.order);
      assert Overlap(b, d);
      Pow2Strict(b.order, c.order);
    }
  }

  lemma {:induction false} Pow2Strict(j: nat, k: nat)
    ensures j < k ==> Pow2(j) < Pow2(k)
    ensures Pow2(j) == Pow2(k) ==> j == k
  {
    if j < k {
      Pow2Monotone(j + 1, k);
    } else if k < j {
      Pow2Monotone(k + 1, j);
    }
  }
}
