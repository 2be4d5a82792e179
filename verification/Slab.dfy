/** src/alloc.c: caches of pools on top of the page allocator. */
module Slab {
  import opened Powers
  import opened Blocks
  import opened Lists
  import opened SlabLayout
  import opened SlabPool
  import Paged = PageAllocator

  // ----- what a cache holds, as values -----

  /** A pool is on free_pools iff all its objects are free, on partial_pools iff some but not all are, on busy_pools
      iff none is; on each list once. */
  ghost predicate Filed(free: seq<Pool>, partial: seq<Pool>, busy: seq<Pool>, counts: map<Pool, nat>, objs: nat) {
    && ListOf(free, counts, objs, objs) && ListOf(partial, counts, 1, objs - 1) && ListOf(busy, counts, 0, 0)
    && forall p | p in counts :: counts[p] <= objs
  }

  /** The list holds the pools with from..to free objects, each once. */
  ghost predicate ListOf(list: seq<Pool>, counts: map<Pool, nat>, from: int, to: int) {
    && NoDuplicates(list)
    && (forall p | p in list :: p in counts && from <= counts[p] <= to)
    && (forall p | p in counts && from <= counts[p] <= to :: p in list)
  }

  /** A pool whose count stays within the list's bounds, or outside of them. */
  lemma {:induction false} ListKeeps(list: seq<Pool>, counts: map<Pool, nat>, from: int, to: int, p: Pool, n: nat)
    requires ListOf(list, counts, from, to) && (p in list <==> from <= n <= to)
    ensures ListOf(list, counts[p := n], from, to)
  {
  }

  lemma {:induction false} ListGains(list: seq<Pool>, counts: map<Pool, nat>, from: int, to: int, p: Pool, n: nat)
    requires ListOf(list, counts, from, to) && p !in list && from <= n <= to
    ensures ListOf([p] + list, counts[p := n], from, to)
  {
  }

  lemma {:induction false} ListLoses(list: seq<Pool>, counts: map<Pool, nat>, from: int, to: int, p: Pool, n: nat)
    requires ListOf(list, counts, from, to) && !(from <= n <= to)
    ensures ListOf(Without(list, p), counts[p := n], from, to)
  {
    hide Without;
    WithoutElements(list, p);
    var rest := Without(list, p);
    assert forall q: Pool :: q in rest <==> q in list && q != p;
  }

  /** An object of a partial pool is taken: the pool stays, or moves to the busy ones when it was the last. */
  lemma {:induction false} FiledTakePartial(free: seq<Pool>, partial: seq<Pool>, busy: seq<Pool>,
      counts: map<Pool, nat>, objs: nat, p: Pool)
    requires Filed(free, partial, busy, counts, objs) && objs >= 3 && p in partial
    ensures p in counts && counts[p] > 0
    ensures counts[p] > 1 ==> Filed(free, partial, busy, counts[p := counts[p] - 1], objs)
    ensures counts[p] == 1 ==> Filed(free, Without(partial, p), [p] + busy, counts[p := 0], objs)
  {
    var n := counts[p] - 1;
    assert p !in free && p !in busy;
    hide ListOf;
    hide Without;
    ListSame(free, counts, objs, objs, p, n);
    if n > 0 {
      ListSame(partial, counts, 1, objs - 1, p, n);
      ListSame(busy, counts, 0, 0, p, n);
    } else {
      ListLoses(partial, counts, 1, objs - 1, p, n);
      ListGains(busy, counts, 0, 0, p, n);
    }
  }

  lemma {:induction false} ListSame(list: seq<Pool>, counts: map<Pool, nat>, from: int, to: int, p: Pool, n: nat)
    requires ListOf(list, counts, from, to) && p in counts && (from <= counts[p] <= to <==> from <= n <= to)
    ensures ListOf(list, counts[p := n], from, to)
  {
    ListKeeps(list, counts, from, to, p, n);
  }

  /** An object of a free pool, or of a new one, is taken: with three objects or more the pool becomes partial. */
  lemma {:induction false} FiledTakeFree(free: seq<Pool>, partial: seq<Pool>, busy: seq<Pool>, counts: map<Pool, nat>,
      objs: nat, p: Pool)
    requires Filed(free, partial, busy, counts, objs) && objs >= 3 && (p in free || p !in counts)
    ensures p in free ==> p in counts && counts[p] == objs
    ensures Filed(if p in free then Without(free, p) else free, [p] + partial, busy, counts[p := objs - 1], objs)
  {
    var n := objs - 1;
    assert p !in partial && p !in busy;
    if p in free {
      ListLoses(free, counts, objs, objs, p, n);
    } else {
      ListKeeps(free, counts, objs, objs, p, n);
    }
    ListGains(partial, counts, 1, objs - 1, p, n);
    ListKeeps(busy, counts, 0, 0, p, n);
    hide ListOf;
    hide Without;
  }

  /** An object is given back: its pool stays partial, or leaves the busy ones, or becomes free. */
  lemma {:induction false} FiledGive(free: seq<Pool>, partial: seq<Pool>, busy: seq<Pool>, counts: map<Pool, nat>,
      objs: nat, p: Pool)
    requires Filed(free, partial, busy, counts, objs) && objs >= 3 && p in counts && counts[p] < objs
    ensures var n := counts[p] + 1;
      && (n == 1 ==> Filed(free, [p] + partial, Without(busy, p), counts[p := n], objs))
      && (n == objs ==> Filed([p] + free, Without(partial, p), busy, counts[p := n], objs))
      && (1 < n < objs ==> Filed(free, partial, busy, counts[p := n], objs))
  {
    var n := counts[p] + 1;
    assert p !in free && (n == 1 ==> p !in partial) && (n > 1 ==> p !in busy);
    hide ListOf;
    hide Without;
    if n == objs {
      ListGains(free, counts, objs, objs, p, n);
      ListLoses(partial, counts, 1, objs - 1, p, n);
      ListSame(busy, counts, 0, 0, p, n);
    } else {
      ListSame(free, counts, objs, objs, p, n);
      if n == 1 {
        ListGains(partial, counts, 1, objs - 1, p, n);
        ListLoses(busy, counts, 0, 0, p, n);
      } else {
        ListSame(partial, counts, 1, objs - 1, p, n);
        ListSame(busy, counts, 0, 0, p, n);
      }
    }
  }

  /** Each pool is at the start of its own aligned block, and its metadata is found from there. */
  ghost predicate Housed(pools: set<Pool>, meta: map<nat, Pool>, l: Layout) {
    && (forall p | p in pools ::
       p.data % l.PoolSize() == 0 && p.data + l.metaOffs in meta && meta[p.data + l.metaOffs] == p)
    && (forall a | a in meta :: meta[a] in pools && a == meta[a].data + l.metaOffs)
  }

  /** The object at the address is in use. */
  ghost predicate LiveAt(meta: map<nat, Pool>, masks: map<Pool, seq<Word>>, l: Layout, a: nat) {
    var base := AlignDown(a, l.PoolSize());
    base + l.metaOffs in meta && meta[base + l.metaOffs] in masks && InUse(masks[meta[base + l.metaOffs]], base, l, a)
  }

  /** Rounding the address down to the pool size leads to the metadata of pool p. */
  ghost predicate FoundAt(meta: map<nat, Pool>, l: Layout, a: nat, p: Pool) {
    var base := AlignDown(a, l.PoolSize());
    base + l.metaOffs in meta && meta[base + l.metaOffs] == p && p.data == base
  }

  lemma {:induction false} LivePool(pools: set<Pool>, meta: map<nat, Pool>, masks: map<Pool, seq<Word>>, l: Layout,
      a: nat) returns (p: Pool, pos: nat)
    requires Housed(pools, meta, l) && LiveAt(meta, masks, l, a)
    ensures p in pools && p in masks && FoundAt(meta, l, a, p)
    ensures pos < l.objCount && a == ObjectAt(p.data, l, pos) && Bit(masks[p], pos)
  {
    hide AlignDown;
    hide Bit;
    hide ObjectAt;
    var base := AlignDown(a, l.PoolSize());
    p := meta[base + l.metaOffs];
    pos :| pos < l.objCount && a == ObjectAt(base, l, pos) && Bit(masks[p], pos);
  }

  ghost predicate InUse(mask: seq<Word>, base: nat, l: Layout, a: nat) {
    exists pos: nat :: pos < l.objCount && a == ObjectAt(base, l, pos) && Bit(mask, pos)
  }

  function ObjectAt(base: nat, l: Layout, pos: nat): nat {
    base + pos * l.objSize
  }

  /** The objects of a pool lie below its metadata, so that rounding down finds the pool. */
  lemma {:induction false} ObjectInPool(base: nat, l: Layout, pos: nat)
    requires Sound(l) && base % l.PoolSize() == 0 && pos < l.objCount
    ensures PlacedIn(ObjectAt(base, l, pos), base, l)
  {
    MetaSizeIs(l.objCount);
    SlotArith(base, l.PoolSize(), l.objCount, l.objSize, pos);
  }

  lemma {:induction false} SlotArith(base: nat, n: nat, objs: nat, size: nat, pos: nat)
    requires pos < objs && size > 0 && size * objs < n && base % n == 0
    ensures pos * size + size <= size * objs && n * ((base + pos * size) / n) == base
  {
    Scale(objs - 1 - pos, size);
    assert (objs - 1 - pos) * size == objs * size - size - pos * size;
    Scale(pos, size);
    var q := base / n;
    assert base == q * n;
    DivisionUnique(base + pos * size, n, q, pos * size);
  }

  /** The object's bytes lie below the metadata of the pool at x, and rounding its address down yields x. */
  predicate PlacedIn(a: nat, x: nat, l: Layout) {
    && l.objSize > 0 && x % l.PoolSize() == 0 && AlignDown(a, l.PoolSize()) == x
    && x <= a && a + l.objSize <= x + l.metaOffs < x + l.PoolSize()
  }

  lemma {:induction false} ObjectsDiffer(base: nat, l: Layout, i: nat, j: nat)
    requires l.objSize > 0 && i < j
    ensures ObjectAt(base, l, i) + l.objSize <= ObjectAt(base, l, j)
  {
    assert (j - i) * l.objSize == j * l.objSize - i * l.objSize;
    Scale(j - i, l.objSize);
  }

  lemma {:induction false} SamePosition(base: nat, l: Layout, i: nat, j: nat)
    requires l.objSize > 0 && ObjectAt(base, l, i) == ObjectAt(base, l, j)
    ensures i == j
  {
    if i < j {
      ObjectsDiffer(base, l, i, j);
    } else if j < i {
      ObjectsDiffer(base, l, j, i);
    }
  }

  /** Bit `pos` of the bitmask of pool p is written: exactly the object there changes hands. */
  lemma {:induction false} WriteLive(pools: set<Pool>, meta: map<nat, Pool>, masks: map<Pool, seq<Word>>, l: Layout,
      p: Pool, pos: nat, mask: seq<Word>, b: bool)
    requires Sound(l) && Housed(pools, meta, l) && masks.Keys == pools && p in pools && pos < l.objCount
    requires Bit(masks[p], pos) != b && forall q: nat :: Bit(mask, q) == if q == pos then b else Bit(masks[p], q)
    ensures var addr := ObjectAt(p.data, l, pos);
      && LiveAt(meta, masks, l, addr) != b
      && forall a: nat :: LiveAt(meta, masks[p := mask], l, a) == if a == addr then b else LiveAt(meta, masks, l, a)
  {
    var addr := ObjectAt(p.data, l, pos);
    ObjectInPool(p.data, l, pos);
    hide AlignDown;
    hide Bit;
    WriteInUse(masks[p], mask, p.data, l, pos, b, addr);
    forall a: nat
      ensures LiveAt(meta, masks[p := mask], l, a) == if a == addr then b else LiveAt(meta, masks, l, a)
    {
      WriteInUse(masks[p], mask, p.data, l, pos, b, a);
    }
  }

  /** The objects in use of a pool are the bits of its bitmask. */
  lemma {:induction false} LiveBit(pools: set<Pool>, meta: map<nat, Pool>, masks: map<Pool, seq<Word>>, l: Layout,
      p: Pool, pos: nat)
    requires Sound(l) && Housed(pools, meta, l) && masks.Keys == pools && p in pools && pos < l.objCount
    ensures LiveAt(meta, masks, l, ObjectAt(p.data, l, pos)) <==> Bit(masks[p], pos)
  {
    ObjectInPool(p.data, l, pos);
    hide AlignDown;
    hide Bit;
    hide ObjectAt;
    forall i: nat | ObjectAt(p.data, l, i) == ObjectAt(p.data, l, pos)
      ensures i == pos
    {
      SamePosition(p.data, l, i, pos);
    }
  }

  /** Equal objects in use mean equal bitmasks. */
  lemma {:induction false} LiveMask(ps: set<Pool>, qs: set<Pool>, m: map<nat, Pool>, n: map<nat, Pool>,
      a: map<Pool, seq<Word>>, b: map<Pool, seq<Word>>, l: Layout, p: Pool)
    requires Sound(l) && Housed(ps, m, l) && Housed(qs, n, l) && a.Keys == ps && b.Keys == qs && p in ps && p in qs
    requires forall x: nat :: LiveAt(m, a, l, x) <==> LiveAt(n, b, l, x)
    requires |a[p]| == |b[p]| && WholeWords(a[p]) && WholeWords(b[p]) && Padded(a[p], l.objCount)
               && Padded(b[p], l.objCount)
    ensures a[p] == b[p]
  {
    forall pos: nat
      ensures Bit(a[p], pos) == Bit(b[p], pos)
    {
      if pos < l.objCount {
        LiveBit(ps, m, a, l, p, pos);
        LiveBit(qs, n, b, l, p, pos);
      } else if pos < WORD_BITS * |a[p]| {
        assert Bit(a[p], pos) && Bit(b[p], pos);
      }
    }
    hide Bit;
    BitsDetermine(a[p], b[p]);
  }

  lemma {:induction false} WriteInUse(mask: seq<Word>, mask': seq<Word>, base: nat, l: Layout, pos: nat, b: bool,
      a: nat)
    requires l.objSize > 0 && pos < l.objCount && Bit(mask, pos) != b
    requires forall q: nat :: Bit(mask', q) == if q == pos then b else Bit(mask, q)
    ensures InUse(mask', base, l, a) == if a == ObjectAt(base, l, pos) then b else InUse(mask, base, l, a)
    ensures InUse(mask, base, l, ObjectAt(base, l, pos)) != b
  {
    hide ObjectAt;
    hide Bit;
    forall i: nat | ObjectAt(base, l, i) == ObjectAt(base, l, pos)
      ensures i == pos
    {
      SamePosition(base, l, i, pos);
    }
  }

  ghost predicate Backed(pools: set<Pool>, l: Layout, blocks: set<Block>) {
    forall p | p in pools :: Block(p.data / PAGE, l.order) in blocks
  }

  lemma {:induction false} NoneThere(pools: set<Pool>, meta: map<nat, Pool>, l: Layout, blocks: set<Block>, idx: nat)
    requires Housed(pools, meta, l) && Backed(pools, l, blocks - {Block(idx, l.order)})
    ensures idx * PAGE + l.metaOffs !in meta && forall p | p in pools :: p.data != idx * PAGE
  {
    assert idx * PAGE / PAGE == idx;
  }

  lemma {:induction false} HousedMore(pools: set<Pool>, meta: map<nat, Pool>, l: Layout, blocks: set<Block>, q: Pool,
      idx: nat)
    requires Housed(pools, meta, l) && Backed(pools, l, blocks - {Block(idx, l.order)}) && Block(idx, l.order) in blocks
    requires q !in pools && q.data == idx * PAGE && q.data % l.PoolSize() == 0
    ensures Housed(pools + {q}, meta[idx * PAGE + l.metaOffs := q], l) && Backed(pools + {q}, l, blocks)
  {
    NoneThere(pools, meta, l, blocks, idx);
    assert idx * PAGE / PAGE == idx;
  }

  lemma {:induction false} LiveSame(pools: set<Pool>, meta: map<nat, Pool>, masks: map<Pool, seq<Word>>, l: Layout,
      blocks: set<Block>, q: Pool, idx: nat)
    requires Sound(l) && Housed(pools, meta, l) && masks.Keys == pools
               && Backed(pools, l, blocks - {Block(idx, l.order)})
    requires q !in pools && q.data == idx * PAGE && forall pos | 0 <= pos < l.objCount :: !Bit(q.bitmask, pos)
    ensures forall a: nat :: LiveAt(meta[idx * PAGE + l.metaOffs := q], masks[q := q.bitmask], l, a) <==>
              LiveAt(meta, masks, l, a)
  {
    NoneThere(pools, meta, l, blocks, idx);
    hide Bit;
    hide AlignDown;
  }

  lemma {:induction false} BlockAddress(idx: nat, l: Layout)
    requires Aligned(idx, l.order)
    ensures idx * PAGE % l.PoolSize() == 0
  {
    var n := Pow2(l.order);
    assert idx == idx / n * n;
    assert idx * PAGE == idx / n * (n * PAGE);
    DivisionUnique(idx * PAGE, n * PAGE, idx / n, 0);
  }

  /** The block of pages of a pool. */
  function HomeOf(p: Pool, l: Layout): Block {
    Block(p.data / PAGE, l.order)
  }

  lemma {:induction false} PageAligned(a: nat, k: nat)
    requires a % (Pow2(k) * PAGE) == 0
    ensures a / PAGE * PAGE == a
  {
    var q := a / (Pow2(k) * PAGE);
    assert a == q * (Pow2(k) * PAGE) == q * Pow2(k) * PAGE;
  }

  lemma {:induction false} Homed(pools: set<Pool>, meta: map<nat, Pool>, l: Layout, blocks: set<Block>, p: Pool)
    requires Housed(pools, meta, l) && Backed(pools, l, blocks) && p in pools
    ensures Block(p.data / PAGE, l.order) in blocks && HomeOf(p, l) == Block(p.data / PAGE, l.order)
  {
  }

  lemma {:induction false} HousedLess(pools: set<Pool>, meta: map<nat, Pool>, l: Layout, blocks: set<Block>, p: Pool)
    requires Housed(pools, meta, l) && Backed(pools, l, blocks) && p in pools
    ensures Housed(pools - {p}, meta - {p.data + l.metaOffs}, l) && Backed(pools - {p}, l, blocks - {HomeOf(p, l)})
  {
    PageAligned(p.data, l.order);
    forall q | q in pools && q != p
      ensures q.data / PAGE != p.data / PAGE && q.data != p.data
    {
      PageAligned(q.data, l.order);
    }
  }

  lemma {:induction false} LiveLess(pools: set<Pool>, meta: map<nat, Pool>, masks: map<Pool, seq<Word>>, l: Layout,
      p: Pool)
    requires Housed(pools, meta, l) && masks.Keys == pools && p in pools
               && forall pos | 0 <= pos < l.objCount :: !Bit(masks[p], pos)
    ensures forall a: nat :: LiveAt(meta - {p.data + l.metaOffs}, masks - {p}, l, a) <==> LiveAt(meta, masks, l, a)
  {
    hide AlignDown;
    hide Bit;
    hide ObjectAt;
  }

  lemma {:induction false} FiledDrop(list: seq<Pool>, partial: seq<Pool>, busy: seq<Pool>, counts: map<Pool, nat>,
      objs: nat)
    requires Filed(list, partial, busy, counts, objs) && list != [] && objs >= 3
    ensures list[0] in counts && counts[list[0]] == objs
    ensures Filed(list[1..], partial, busy, counts - {list[0]}, objs)
  {
    var p := list[0];
    assert p in list;
    forall q: Pool | q in list && q != p
      ensures q in list[1..]
    {
    }
  }

  // ----- what pages are used for -----

  /** The PAGE_CACHE_BIT of a page with its u.cache, or without it its u.order. */
  datatype User = CacheOf(cache: Cache) | OrderOf(order: nat)

  /** The pages of the block have the user; the others are as before. */
  ghost predicate Remarked(before: map<nat, User>, after: map<nat, User>, b: Block, u: User) {
    forall page: nat ::
      if b.Has(page) then page in after && after[page] == u
      else (page in after <==> page in before) && (page in before ==> after[page] == before[page])
  }

  /** The pages of the blocks have no user; the others are as before. */
  ghost predicate Unmarked(before: map<nat, User>, after: map<nat, User>, blocks: set<Block>) {
    forall page: nat ::
      if Within(blocks, page) then page !in after
      else (page in after <==> page in before) && (page in before ==> after[page] == before[page])
  }

  lemma {:induction false} UnmarkedThen(m0: map<nat, User>, m1: map<nat, User>, m2: map<nat, User>, s: set<Block>,
      b: Block)
    requires Unmarked(m0, m1, s) && Unmarked(m1, m2, {b})
    ensures Unmarked(m0, m2, s + {b})
  {
    forall page: nat
      ensures Within(s + {b}, page) <==> Within(s, page) || Within({b}, page)
    {
      if Within(s, page) {
        var c :| c in s && c.Has(page);
        assert c in s + {b};
      }
      if Within({b}, page) {
        assert b in s + {b} && b.Has(page);
      }
      if Within(s + {b}, page) {
        var c :| c in s + {b} && c.Has(page);
        assert c in s || c in {b};
      }
    }
    hide Within;
  }

  /** The users of all pages: a field of each struct page. */
  class PageUsers {
    var user: map<nat, User>

    constructor ()
      ensures user == map[]
    {
      user := map[];
    }

    /** The loop of mem_pool_create */
    method SetCache(idx: nat, order: nat, c: Cache)
      modifies this
      ensures Remarked(old(user), user, Block(idx, order), CacheOf(c))
    {
      var i := 0;
      while i < Pow2(order)
        invariant 0 <= i <= Pow2(order)
        invariant forall page: nat ::
                    if idx <= page < idx + i then page in user && user[page] == CacheOf(c)
                    else (page in user <==> page in old(user)) && (page in old(user) ==> user[page] == old(user)[page])
      {
        user := user[idx + i := CacheOf(c)];
        i := i + 1;
      }
    }

    /** page_clear_bit and u.order of the first page of a large block; without an order it has no user. */
    method SetOrder(idx: nat, order: nat)
      modifies this
      ensures user == old(user)[idx := OrderOf(order)]
    {
      user := user[idx := OrderOf(order)];
    }

    method ClearOrder(idx: nat)
      modifies this
      ensures user == old(user) - {idx}
    {
      user := user - {idx};
    }

    /** The loop of mem_pool_destroy */
    method ClearCache(idx: nat, order: nat)
      modifies this
      ensures Unmarked(old(user), user, {Block(idx, order)})
    {
      var i := 0;
      while i < Pow2(order)
        invariant 0 <= i <= Pow2(order)
        invariant forall page: nat ::
                    if idx <= page < idx + i then page !in user
                    else (page in user <==> page in old(user)) && (page in old(user) ==> user[page] == old(user)[page])
      {
        user := user - {idx + i};
        i := i + 1;
      }
      OneBlock(Block(idx, order));
    }
  }

  lemma {:induction false} GoneMore(gone: seq<Pool>, p: Pool, l: Layout)
    ensures (set q | q in gone + [p] :: HomeOf(q, l)) == (set q | q in gone :: HomeOf(q, l)) + {HomeOf(p, l)}
  {
  }

  lemma {:induction false} OneBlock(b: Block)
    ensures forall page: nat :: Within({b}, page) <==> b.Has(page)
  {
  }

  /** The address is that of the first object that is not in use in the pool at `data`. */
  ghost predicate FirstOf(data: nat, mask: seq<Word>, l: Layout, addr: nat) {
    exists pos: nat :: pos < l.objCount && addr == ObjectAt(data, l, pos) && !Bit(mask, pos)
      && forall q | 0 <= q < pos :: Bit(mask, q)
  }

  lemma {:induction false} StartIsFirst(data: nat, mask: seq<Word>, l: Layout)
    requires |Slots(mask, l.objCount)| == l.objCount > 0
    ensures forall addr | FirstOf(data, mask, l, addr) :: addr == data
  {
    hide Bit;
    if Bit(mask, 0) {
      SomeUsed(mask, l.objCount, 0);
    }
    hide Slots;
  }

  lemma {:induction false} IsFirst(data: nat, mask: seq<Word>, l: Layout, pos: nat)
    requires pos < l.objCount && !Bit(mask, pos) && forall q | 0 <= q < pos :: Bit(mask, q)
    ensures FirstOf(data, mask, l, data + pos * l.objSize)
  {
    hide Bit;
    assert ObjectAt(data, l, pos) == data + pos * l.objSize;
  }

  /** struct mem_cache */
  class Cache {
    const layout: Layout
    const pages: Paged.Pages
    const users: PageUsers
    var freePools: seq<Pool>
    var partialPools: seq<Pool>
    var busyPools: seq<Pool>

    /** The memory at metadata addresses: which pool's struct mem_pool lies there. */
    var meta: map<nat, Pool>
    ghost var pools: set<Pool>

    ghost function Counts(): map<Pool, nat>
      reads this`pools, pools
    {
      map p | p in pools :: p.free
    }

    ghost function Masks(): map<Pool, seq<Word>>
      reads this`pools, pools
    {
      map p | p in pools :: p.bitmask
    }

    /** The blocks of pages that the cache has taken. */
    ghost function Homes(): set<Block>
      reads this`pools
    {
      set p | p in pools :: HomeOf(p, layout)
    }

    /** All of Valid but the lists. */
    ghost predicate Kept()
      reads this`pools, this`meta, pools, pages, pages.zones, pages.arrays
    {
      && Sound(layout) && pages.Valid() && Housed(pools, meta, layout) && Backed(pools, layout, pages.AllBusy())
      && forall p | p in pools :: p.Valid(layout.objCount)
    }

    ghost predicate Valid()
      reads this, pools, pages, pages.zones, pages.arrays
    {
      Kept() && Filed(freePools, partialPools, busyPools, Counts(), layout.objCount)
    }

    /** What of Valid does not depend on the page allocator. */
    ghost predicate Local()
      reads this, pools
    {
      && Sound(layout) && Housed(pools, meta, layout) && (forall p | p in pools :: p.Valid(layout.objCount))
      && Filed(freePools, partialPools, busyPools, Counts(), layout.objCount)
    }

    lemma Parts()
      ensures Valid() <==> Local() && pages.Valid() && Backed(pools, layout, pages.AllBusy())
    {
    }

    /** The object of the cache at the address is in use. */
    ghost predicate Live(a: nat)
      reads this`pools, this`meta, pools
    {
      LiveAt(meta, Masks(), layout, a)
    }

    /** mem_cache_setup */
    constructor (size: nat, align: nat, allocator: Paged.Pages, info: PageUsers)
      requires size > 0 && align > 0 && Computable(size, align) && allocator.Valid()
      ensures Valid() && pages == allocator && users == info && pools == {} && size <= layout.objSize < size + align
                && layout.objSize % align == 0 && IsPoolOrder(layout.objSize, layout.order)
      ensures forall a: nat :: !Live(a)
    {
      var l := SetupLayout(size, align);
      layout := l;
      pages := allocator;
      users := info;
      freePools, partialPools, busyPools := [], [], [];
      meta := map[];
      pools := {};
    }

    /** mem_pool_alloc on a pool of the cache */
    method TakeFrom(p: Pool) returns (addr: nat)
      requires Kept() && p in pools && p.free > 0
      modifies p
      ensures Kept() && p.free == old(p.free) - 1 && Counts() == old(Counts())[p := p.free] && addr >= p.data
      ensures !old(Live(addr)) && forall a: nat :: Live(a) <==> old(Live(a)) || a == addr
      ensures FirstOf(p.data, old(p.bitmask), layout, addr)
    {
      hide Housed;
      hide LiveAt;
      hide Backed;
      hide Bit;
      hide FirstOf;
      hide Paged.Pages.Valid;
      hide Paged.Pages.AllBusy;
      ghost var masks := Masks();
      ghost var pos;
      assert p.Valid(layout.objCount);
      addr, pos := p.Take(layout);
      IsFirst(p.data, old(p.bitmask), layout, pos);
      assert Masks() == masks[p := p.bitmask];
      assert Counts() == old(Counts())[p := p.free];
      WriteLive(pools, meta, masks, layout, p, pos, p.bitmask, true);
    }

    /** list_del and list_add on the three lists */
    method SetLists(free: seq<Pool>, partial: seq<Pool>, busy: seq<Pool>)
      requires Kept()
      modifies this`freePools, this`partialPools, this`busyPools
      ensures Kept() && freePools == free && partialPools == partial && busyPools == busy
      ensures Counts() == old(Counts()) && forall a: nat :: Live(a) <==> old(Live(a))
    {
      hide Housed;
      hide Backed;
      hide Sound;
      hide LiveAt;
      hide Paged.Pages.Valid;
      hide Paged.Pages.AllBusy;
      hide Pool.Valid;
      freePools, partialPools, busyPools := free, partial, busy;
      assert pages.Valid();
      assert pages.AllBusy() == old(pages.AllBusy());
      assert forall p | p in pools :: p.Valid(layout.objCount);
    }

    /** mem_cache_alloc with a partial pool */
    method FromPartial() returns (addr: nat)
      requires Valid() && partialPools != []
      modifies this`freePools, this`partialPools, this`busyPools, pools
      ensures Valid() && addr != 0 && FirstOf(old(partialPools)[0].data, old(partialPools[0].bitmask), layout, addr)
      ensures !old(Live(addr)) && forall a: nat :: Live(a) <==> old(Live(a)) || a == addr
    {
      hide Kept;
      hide Filed;
      hide Live;
      hide Counts;
      hide FirstOf;
      var p := partialPools[0];
      PartialPool(p);
      addr := TakeFrom(p);
      if p.free == 0 {
        SetLists(freePools, Without(partialPools, p), [p] + busyPools);
      }
    }

    /** mem_cache_alloc with a free pool and no partial one */
    method FromFree() returns (addr: nat)
      requires Valid() && freePools != []
      modifies this`freePools, this`partialPools, this`busyPools, pools
      ensures Valid() && addr != 0 && FirstOf(old(freePools)[0].data, old(freePools[0].bitmask), layout, addr)
      ensures !old(Live(addr)) && forall a: nat :: Live(a) <==> old(Live(a)) || a == addr
    {
      hide Kept;
      hide Filed;
      hide Live;
      hide Counts;
      hide FirstOf;
      var p := freePools[0];
      FreePool(p);
      addr := TakeFrom(p);
      if p.free != layout.objCount {
        SetLists(Without(freePools, p), [p] + partialPools, busyPools);
      }
    }

    /** mem_pool_create: a pool in a new block of pages, not yet on a list */
    method Create() returns (p: Pool?)
      requires Valid()
      modifies this`meta, this`pools, pages.zones, pages.arrays, users
      ensures Kept() && old(pages.AllBusy()) <= pages.AllBusy()
      ensures Homes() == old(Homes()) + (pages.AllBusy() - old(pages.AllBusy()))
                && old(Homes()) !! (pages.AllBusy() - old(pages.AllBusy()))
      ensures p == null ==> Valid() && pools == old(pools) && meta == old(meta) && users.user == old(users.user)
      ensures p == null <==> old(pages.NoRun(layout.order))
      ensures p != null ==>
                && fresh(p) && pools == old(pools) + {p} && p.free == layout.objCount
                && Counts() == old(Counts())[p := layout.objCount]
                && (forall a: nat :: Live(a) <==> old(Live(a)))
                && Homes() == old(Homes()) + {HomeOf(p, layout)} && HomeOf(p, layout) !in old(Homes())
                && Remarked(old(users.user), users.user, HomeOf(p, layout), CacheOf(this))
    {
      hide Housed;
      hide Backed;
      hide Sound;
      hide LiveAt;
      hide Bit;
      hide Paged.Pages.Valid;
      hide Paged.Pages.AllBusy;
      hide Pool.Valid;
      hide Filed;
      hide Paged.Pages.NoRun;
      hide Homes;
      hide Counts;
      hide Live;
      var found, idx := pages.AllocPages(layout.order);
      if !found {
        return null;
      }
      users.SetCache(idx, layout.order, this);
      p := CreateAt(idx);
    }

    method CreateAt(idx: nat) returns (q: Pool)
      requires Sound(layout) && pages.Valid() && Housed(pools, meta, layout)
                 && forall p | p in pools :: p.Valid(layout.objCount)
      requires Block(idx, layout.order) in pages.AllBusy()
                 && Backed(pools, layout, pages.AllBusy() - {Block(idx, layout.order)})
      modifies this`meta, this`pools
      ensures Kept() && fresh(q) && pools == old(pools) + {q} && q.free == layout.objCount
      ensures Homes() == old(Homes()) + {Block(idx, layout.order)} && Block(idx, layout.order) !in old(Homes())
      ensures HomeOf(q, layout) == Block(idx, layout.order)
      ensures Counts() == old(Counts())[q := layout.objCount]
      ensures forall a: nat :: Live(a) <==> old(Live(a))
    {
      hide Housed;
      hide Backed;
      hide Sound;
      hide LiveAt;
      hide Bit;
      hide Paged.Pages.Valid;
      hide Paged.Pages.AllBusy;
      hide Pool.Valid;
      LayoutWords();
      NewBlock(idx);
      HomesBacked(idx);
      q := new Pool(idx * PAGE, layout);
      Enter(q, idx);
      assert HomeOf(q, layout) == Block(idx, layout.order);
      assert Homes() == old(Homes()) + {HomeOf(q, layout)};
    }

    lemma HomesBacked(idx: nat)
      requires Backed(pools, layout, pages.AllBusy() - {Block(idx, layout.order)})
      ensures Block(idx, layout.order) !in Homes()
    {
    }

    /** meta->page and meta->data of a new pool: from now on its metadata is found at its place. */
    method Enter(q: Pool, idx: nat)
      requires Sound(layout) && pages.Valid() && Housed(pools, meta, layout)
                 && forall p | p in pools :: p.Valid(layout.objCount)
      requires Block(idx, layout.order) in pages.AllBusy()
                 && Backed(pools, layout, pages.AllBusy() - {Block(idx, layout.order)})
      requires q !in pools && q.Valid(layout.objCount) && q.data == idx * PAGE && q.data % layout.PoolSize() == 0
      requires q.free == layout.objCount && forall pos | 0 <= pos < layout.objCount :: !Bit(q.bitmask, pos)
      modifies this`meta, this`pools
      ensures Kept() && pools == old(pools) + {q} && Counts() == old(Counts())[q := layout.objCount]
      ensures forall a: nat :: Live(a) <==> old(Live(a))
    {
      hide Housed;
      hide Backed;
      hide Sound;
      hide LiveAt;
      hide Bit;
      hide Paged.Pages.Valid;
      hide Paged.Pages.AllBusy;
      hide Pool.Valid;
      ghost var masks, counts := Masks(), Counts();
      HousedMore(pools, meta, layout, pages.AllBusy(), q, idx);
      LiveSame(pools, meta, masks, layout, pages.AllBusy(), q, idx);
      meta := meta[idx * PAGE + layout.metaOffs := q];
      pools := pools + {q};
      assert Masks() == masks[q := q.bitmask] && Counts() == counts[q := layout.objCount];
    }

    lemma LayoutWords()
      requires Sound(layout)
      ensures layout.objCount >= 3 && layout.maskWords == Ceil(layout.objCount, WORD_BITS) && layout.objSize > 0
    {
    }

    lemma NewBlock(idx: nat)
      requires pages.Valid() && Block(idx, layout.order) in pages.AllBusy()
      ensures idx * PAGE % layout.PoolSize() == 0
    {
      pages.BusyApart();
      hide *;
      BlockAddress(idx, layout);
    }

    /** Nothing is left for mem_cache_alloc: no pool has a free object, and no zone has a block for another pool. */
    ghost predicate Full()
      reads this, pages, pages.zones
    {
      partialPools == [] && freePools == [] && pages.NoRun(layout.order)
    }

    lemma NoneLeft()
      requires Valid()
      ensures partialPools == [] && freePools == [] <==> forall p | p in pools :: p.free == 0
    {
      LayoutWords();
      assert forall p | p in pools :: Counts()[p] == p.free;
      assert forall p | p in partialPools :: p in pools && p.free > 0;
      assert forall p | p in freePools :: p in pools && p.free > 0;
      if partialPools != [] {
        assert partialPools[0] in partialPools;
      }
      if freePools != [] {
        assert freePools[0] in freePools;
      }
    }

    /** mem_cache_alloc: the first free object of a partial pool, else of a free one, else of a new one; 0 exactly when
        every pool is busy and no zone has a block for another. */
    method Alloc() returns (addr: nat)
      requires Valid()
      modifies this`freePools, this`partialPools, this`busyPools, this`meta, this`pools, pools, pages.zones,
                 pages.arrays, users
      ensures Valid() && old(pages.AllBusy()) <= pages.AllBusy()
      ensures old(Homes()) <= Homes() && Homes() - old(Homes()) == pages.AllBusy() - old(pages.AllBusy())
      ensures Homes() == old(Homes()) ==> users.user == old(users.user)
      ensures forall b | b in Homes() - old(Homes()) ::
                Homes() == old(Homes()) + {b} && Remarked(old(users.user), users.user, b, CacheOf(this))
      ensures old(pools) <= pools && fresh(pools - old(pools))
      ensures addr == 0 ==>
                && pools == old(pools) && (forall p | p in pools :: old(p.free) == 0)
                && (forall a: nat :: Live(a) <==> old(Live(a)))
      ensures addr == 0 <==> old(Full())
      ensures addr != 0 ==> !old(Live(addr)) && forall a: nat :: Live(a) <==> old(Live(a)) || a == addr
      ensures old(partialPools) != [] ==>
                addr != 0 && pools == old(pools)
                  && FirstOf(old(partialPools)[0].data, old(partialPools[0].bitmask), layout, addr)
      ensures old(partialPools) == [] && old(freePools) != [] ==>
                addr != 0 && pools == old(pools)
                  && FirstOf(old(freePools)[0].data, old(freePools[0].bitmask), layout, addr)
      ensures old(partialPools) == [] && old(freePools) == [] && addr != 0 ==>
                exists p | p in pools :: p !in old(pools) && pools == old(pools) + {p} && addr == p.data
    {
      hide Kept;
      hide Filed;
      hide Live;
      hide FirstOf;
      hide Paged.Pages.NoRun;
      hide Paged.Pages.Valid;
      hide Paged.Pages.AllBusy;
      if partialPools != [] {
        addr := FromPartial();
        return;
      }
      if freePools != [] {
        addr := FromFree();
        return;
      }
      NoneFree();
      addr := FromNew();
    }

    /** mem_cache_alloc with neither a partial nor a free pool */
    method FromNew() returns (addr: nat)
      requires Valid() && partialPools == [] && freePools == []
      modifies this`freePools, this`partialPools, this`busyPools, this`meta, this`pools, pages.zones, pages.arrays,
                 users
      ensures Valid() && old(pages.AllBusy()) <= pages.AllBusy()
      ensures old(Homes()) <= Homes() && Homes() - old(Homes()) == pages.AllBusy() - old(pages.AllBusy())
      ensures Homes() == old(Homes()) ==> users.user == old(users.user)
      ensures forall b | b in Homes() - old(Homes()) ::
                Homes() == old(Homes()) + {b} && Remarked(old(users.user), users.user, b, CacheOf(this))
      ensures old(pools) <= pools && fresh(pools - old(pools))
      ensures addr == 0 ==>
                pools == old(pools) && forall a: nat :: Live(a) <==> old(Live(a))
      ensures addr == 0 <==> old(pages.NoRun(layout.order))
      ensures addr != 0 ==> !old(Live(addr)) && forall a: nat :: Live(a) <==> old(Live(a)) || a == addr
      ensures addr != 0 ==> exists p | p in pools :: p !in old(pools) && pools == old(pools) + {p} && addr == p.data
    {
      hide Kept;
      hide Filed;
      hide Live;
      hide Paged.Pages.NoRun;
      hide Remarked;
      hide Homes;
      hide Paged.Pages.Valid;
      hide Paged.Pages.AllBusy;
      ghost var counts := Counts();
      assert counts.Keys == pools;
      NoneFree();
      var p := Create();
      if p == null {
        return 0;
      }
      addr := TakeFirst(p, counts);
    }

    /** mem_pool_alloc on a pool that is new, and list_add to partial_pools */
    method TakeFirst(p: Pool, ghost counts: map<Pool, nat>) returns (addr: nat)
      requires Kept() && p in pools && p !in counts && p.free == layout.objCount >= 3 && freePools == []
      requires Counts() == counts[p := layout.objCount]
                 && Filed(freePools, partialPools, busyPools, counts, layout.objCount)
      modifies this`freePools, this`partialPools, this`busyPools, p
      ensures Valid() && addr == p.data != 0
      ensures !old(Live(addr)) && forall a: nat :: Live(a) <==> old(Live(a)) || a == addr
    {
      hide Kept;
      hide Filed;
      hide Live;
      hide Counts;
      hide FirstOf;
      NewPool(counts, p);
      PoolData(p);
      FirstIsStart(p);
      addr := TakeFrom(p);
      SetLists(freePools, [p] + partialPools, busyPools);
    }

    /** The first free object of a pool whose objects are all free is at its start. */
    lemma FirstIsStart(p: Pool)
      requires Kept() && p in pools && p.free == layout.objCount > 0
      ensures forall addr | FirstOf(p.data, p.bitmask, layout, addr) :: addr == p.data
    {
      hide Sound;
      hide Housed;
      hide Backed;
      hide FirstOf;
      hide Paged.Pages.Valid;
      assert p.Valid(layout.objCount);
      StartIsFirst(p.data, p.bitmask, layout);
    }

    lemma NoneFree()
      requires Valid() && partialPools == [] && freePools == []
      ensures layout.objCount >= 3 && forall p | p in pools :: p.free == 0
    {
      assert forall p | p in pools :: Counts()[p] == p.free;
    }

    /** A new pool is filed as partial once its first object is taken, for it has three at least. */
    lemma NewPool(counts: map<Pool, nat>, p: Pool)
      requires layout.objCount >= 3 && freePools == []
                 && Filed(freePools, partialPools, busyPools, counts, layout.objCount) && p !in counts
      ensures var objs := layout.objCount;
        Filed(freePools, [p] + partialPools, busyPools, counts[p := objs][p := objs - 1], objs)
    {
      FiledTakeFree(freePools, partialPools, busyPools, counts, layout.objCount, p);
      assert counts[p := layout.objCount][p := layout.objCount - 1] == counts[p := layout.objCount - 1];
    }

    /** mem_pool_free on the pool of an object in use */
    method GiveTo(p: Pool, addr: nat, ghost pos: nat)
      requires Kept() && p in pools && pos < layout.objCount && addr == ObjectAt(p.data, layout, pos)
                 && Bit(p.bitmask, pos)
      modifies p
      ensures Kept() && p.free == old(p.free) + 1 && p.free <= layout.objCount && Counts() == old(Counts())[p := p.free]
      ensures forall a: nat :: Live(a) <==> old(Live(a)) && a != addr
    {
      hide Sound;
      hide Housed;
      hide LiveAt;
      hide Backed;
      hide Bit;
      hide Counts;
      hide Masks;
      hide Paged.Pages.Valid;
      hide Paged.Pages.AllBusy;
      hide Pool.Valid;
      ghost var masks := Masks();
      MaskOf(p);
      GiveBit(p, addr, pos);
      MaskOf(p);
      WriteLive(pools, meta, masks, layout, p, pos, p.bitmask, false);
    }

    lemma MaskOf(p: Pool)
      requires p in pools
      ensures Masks().Keys == pools && Masks()[p] == p.bitmask
    {
    }

    method GiveBit(p: Pool, addr: nat, ghost pos: nat)
      requires Kept() && p in pools && pos < layout.objCount && addr == ObjectAt(p.data, layout, pos)
                 && Bit(p.bitmask, pos)
      modifies p
      ensures Kept() && p.free == old(p.free) + 1 && p.free <= layout.objCount && Counts() == old(Counts())[p := p.free]
      ensures Masks() == old(Masks())[p := p.bitmask]
      ensures forall q: nat :: Bit(p.bitmask, q) <==> Bit(old(p.bitmask), q) && q != pos
    {
      hide Sound;
      hide Housed;
      hide Backed;
      hide Bit;
      hide Paged.Pages.Valid;
      hide Paged.Pages.AllBusy;
      LayoutWords();
      assert p.Valid(layout.objCount);
      p.Give(layout, addr, pos);
      assert Masks() == old(Masks())[p := p.bitmask];
      assert Counts() == old(Counts())[p := p.free];
    }

    /** mem_cache_free of an object in use: its pool is found by rounding the address down, and no other object
        changes. */
    method Free(addr: nat)
      requires Valid() && Live(addr)
      modifies this`freePools, this`partialPools, this`busyPools, pools
      ensures Valid() && forall a: nat :: Live(a) <==> old(Live(a)) && a != addr
    {
      hide Kept;
      hide Filed;
      ghost var q, pos := LiveHere(addr);
      hide Live;
      hide Counts;
      var base := AlignDown(addr, layout.PoolSize());
      var p := meta[base + layout.metaOffs];
      assert p == q;
      hide AlignDown;
      hide FoundAt;
      Refile(p);
      GiveTo(p, addr, pos);
      if p.free == 1 {
        SetLists(freePools, [p] + partialPools, Without(busyPools, p));
      }
      if p.free == layout.objCount {
        SetLists([p] + freePools, Without(partialPools, p), busyPools);
      }
    }

    lemma LiveHere(addr: nat) returns (p: Pool, pos: nat)
      requires Kept() && Live(addr)
      ensures p in pools && FoundAt(meta, layout, addr, p) && p.free < layout.objCount
      ensures pos < layout.objCount && addr == ObjectAt(p.data, layout, pos) && Bit(p.bitmask, pos)
    {
      hide Housed;
      hide LiveAt;
      hide FoundAt;
      hide Sound;
      hide Bit;
      p, pos := LivePool(pools, meta, Masks(), layout, addr);
      SomeUsed(p.bitmask, layout.objCount, pos);
    }

    lemma Refile(p: Pool)
      requires Valid() && p in pools && p.free < layout.objCount
      ensures layout.objCount >= 3
      ensures var objs, n := layout.objCount, p.free + 1;
        && (n == 1 ==> Filed(freePools, [p] + partialPools, Without(busyPools, p), Counts()[p := n], objs))
        && (n == objs ==> Filed([p] + freePools, Without(partialPools, p), busyPools, Counts()[p := n], objs))
        && (1 < n < objs ==> Filed(freePools, partialPools, busyPools, Counts()[p := n], objs))
    {
      hide Sound;
      hide Housed;
      hide Backed;
      hide Pool.Valid;
      hide Paged.Pages.Valid;
      LayoutWords();
      hide Kept;
      hide Filed;
      hide Without;
      assert p in Counts() && Counts()[p] == p.free;
      hide Counts;
      FiledGive(freePools, partialPools, busyPools, Counts(), layout.objCount, p);
    }

    lemma PartialPool(p: Pool)
      requires Valid() && p in partialPools
      ensures p in pools && p.free > 0 && p.data > 0 && Kept()
      ensures var objs := layout.objCount;
        && objs >= 3
        && (p.free > 1 ==> Filed(freePools, partialPools, busyPools, Counts()[p := p.free - 1], objs))
        && (p.free == 1 ==> Filed(freePools, Without(partialPools, p), [p] + busyPools, Counts()[p := 0], objs))
    {
      FiledTakePartial(freePools, partialPools, busyPools, Counts(), layout.objCount, p);
      PoolData(p);
    }

    lemma FreePool(p: Pool)
      requires Valid() && p in freePools
      ensures p in pools && p.free == layout.objCount >= 3 && p.data > 0 && Kept()
      ensures var objs := layout.objCount;
        Filed(Without(freePools, p), [p] + partialPools, busyPools, Counts()[p := objs - 1], objs)
    {
      FiledTakeFree(freePools, partialPools, busyPools, Counts(), layout.objCount, p);
      PoolData(p);
    }

    lemma PoolData(p: Pool)
      requires Kept() && p in pools
      ensures p.data > 0
    {
      pages.BusyApart();
      assert Block(p.data / PAGE, layout.order) in pages.AllBusy();
    }

    /** An allocation followed by its free: every pool that was there has its old bitmask and its old count again. */
    method AllocThenFree() returns (addr: nat)
      requires Valid()
      modifies this`freePools, this`partialPools, this`busyPools, this`meta, this`pools, pools, pages.zones,
                 pages.arrays, users
      ensures Valid() && old(pools) <= pools && fresh(pools - old(pools))
      ensures forall a: nat :: Live(a) <==> old(Live(a))
      ensures forall p | p in old(pools) :: p.bitmask == old(p.bitmask) && p.free == old(p.free)
    {
      hide Valid;
      hide Live;
      hide LiveAt;
      hide Full;
      hide FirstOf;
      hide Housed;
      hide MasksFor;
      hide Masks;
      hide Slots;
      hide Remarked;
      hide Homes;
      hide Paged.Pages.AllBusy;
      ghost var there, masks, metas := pools, Masks(), meta;
      MasksSound();
      addr := Alloc();
      if addr != 0 {
        Free(addr);
      }
      SameMasks(there, metas, masks);
    }

    lemma SameMasks(there: set<Pool>, metas: map<nat, Pool>, masks: map<Pool, seq<Word>>)
      requires Valid() && there <= pools && Housed(there, metas, layout) && masks.Keys == there && MasksFor(masks)
      requires forall a: nat :: LiveAt(metas, masks, layout, a) <==> Live(a)
      ensures forall p | p in there :: p.bitmask == masks[p] && p.free == |Slots(masks[p], layout.objCount)|
    {
      MasksSound();
      hide Valid;
      hide Sound;
      hide Housed;
      hide LiveAt;
      forall p | p in there
        ensures p.bitmask == masks[p]
      {
        LiveMask(there, pools, metas, meta, masks, Masks(), layout, p);
      }
    }

    ghost predicate MasksFor(masks: map<Pool, seq<Word>>)
    {
      forall p | p in masks ::
        |masks[p]| == Ceil(layout.objCount, WORD_BITS) && WholeWords(masks[p]) && Padded(masks[p], layout.objCount)
    }

    lemma MasksSound()
      requires Valid()
      ensures forall a: nat :: LiveAt(meta, Masks(), layout, a) <==> Live(a)
      ensures Sound(layout) && Housed(pools, meta, layout) && MasksFor(Masks()) && Masks().Keys == pools
      ensures forall p | p in pools :: Masks()[p] == p.bitmask && p.free == |Slots(Masks()[p], layout.objCount)|
    {
      hide Sound;
      hide Housed;
      hide Backed;
    }

    /** mem_pool_destroy of a pool with no object in use */
    method Destroy(p: Pool)
      requires Kept() && p in pools && p.free == layout.objCount
      modifies this`meta, this`pools, pages.zones, pages.arrays, users
      ensures Kept() && pools == old(pools) - {p} && Counts() == old(Counts()) - {p}
      ensures pages.AllBusy() == old(pages.AllBusy()) - {HomeOf(p, layout)}
      ensures Unmarked(old(users.user), users.user, {HomeOf(p, layout)})
      ensures forall a: nat :: Live(a) <==> old(Live(a))
    {
      hide Sound;
      hide Housed;
      hide LiveAt;
      hide Backed;
      hide Bit;
      hide HomeOf;
      hide Unmarked;
      hide Within;
      hide Masks;
      hide Counts;
      hide Paged.Pages.Valid;
      hide Paged.Pages.AllBusy;
      hide Pool.Valid;
      MaskOf(p);
      ghost var masks, blocks := Masks(), pages.AllBusy();
      AllUnused(p);
      Homed(pools, meta, layout, blocks, p);
      HousedLess(pools, meta, layout, blocks, p);
      LiveLess(pools, meta, masks, layout, p);
      users.ClearCache(p.data / PAGE, layout.order);
      pages.FreePages(p.data / PAGE, layout.order);
      Forget(p);
    }

    /** The memory of the pool is no longer a struct mem_pool. */
    method Forget(p: Pool)
      requires p in pools && Masks().Keys == pools
      modifies this`meta, this`pools
      ensures meta == old(meta) - {p.data + layout.metaOffs} && pools == old(pools) - {p}
      ensures Masks() == old(Masks()) - {p} && Counts() == old(Counts()) - {p}
    {
      meta := meta - {p.data + layout.metaOffs};
      pools := pools - {p};
    }

    lemma AllUnused(p: Pool)
      requires Kept() && p in pools && p.free == layout.objCount
      ensures forall pos | 0 <= pos < layout.objCount :: !Bit(p.bitmask, pos)
    {
      hide Sound;
      hide Housed;
      hide Backed;
      AllClear(p.bitmask, layout.objCount);
    }

    /** mem_cache_shrink: exactly the pools with no object in use go back to the page allocator. */
    method Shrink()
      requires Valid()
      modifies this`freePools, this`partialPools, this`busyPools, this`meta, this`pools, pages.zones, pages.arrays,
                 users
      ensures Valid() && freePools == [] && partialPools == old(partialPools) && busyPools == old(busyPools)
      ensures forall a: nat :: Live(a) <==> old(Live(a))
      ensures pages.AllBusy() == old(pages.AllBusy()) - (set p | p in old(freePools) :: HomeOf(p, layout))
      ensures Homes() <= old(Homes()) && pools <= old(pools)
      ensures Unmarked(old(users.user), users.user, set p | p in old(freePools) :: HomeOf(p, layout))
    {
      hide Kept;
      hide Filed;
      hide Live;
      hide Counts;
      hide HomeOf;
      hide Paged.Pages.AllBusy;
      var list := freePools;
      ghost var gone: seq<Pool> := [];
      SetLists([], partialPools, busyPools);
      while list != []
        invariant Kept() && Filed(list, partialPools, busyPools, Counts(), layout.objCount)
        invariant freePools == [] && partialPools == old(partialPools) && busyPools == old(busyPools)
        invariant forall a: nat :: Live(a) <==> old(Live(a))
        invariant gone + list == old(freePools) && pools <= old(pools)
        invariant Unmarked(old(users.user), users.user, set p | p in gone :: HomeOf(p, layout))
        invariant pages.AllBusy() == old(pages.AllBusy()) - (set p | p in gone :: HomeOf(p, layout))
        decreases |list|
      {
        var p := list[0];
        FreeOne(list);
        ghost var before := users.user;
        Destroy(p);
        UnmarkedThen(old(users.user), before, users.user, set q | q in gone :: HomeOf(q, layout), HomeOf(p, layout));
        GoneMore(gone, p, layout);
        gone := gone + [p];
        list := list[1..];
      }
    }

    lemma FreeOne(list: seq<Pool>)
      requires Kept() && list != [] && Filed(list, partialPools, busyPools, Counts(), layout.objCount)
      ensures list[0] in pools && list[0].free == layout.objCount
      ensures Filed(list[1..], partialPools, busyPools, Counts() - {list[0]}, layout.objCount)
    {
      hide Sound;
      hide Housed;
      hide Backed;
      hide Filed;
      LayoutWords();
      FiledDrop(list, partialPools, busyPools, Counts(), layout.objCount);
    }

    /** An object in use is one of its pool's, and rounding its address down finds the pool. */
    lemma ObjectPlaced(a: nat) returns (p: Pool, pos: nat)
      requires Kept() && Live(a)
      ensures p in pools && pos < layout.objCount && a == ObjectAt(p.data, layout, pos) && PlacedIn(a, p.data, layout)
      ensures HomeOf(p, layout) in pages.AllBusy() && HomeOf(p, layout) in Homes()
    {
      hide Sound;
      hide LiveAt;
      hide AlignDown;
      hide Bit;
      hide ObjectAt;
      hide Pool.Valid;
      hide Paged.Pages.Valid;
      hide Paged.Pages.AllBusy;
      p, pos := LiveHere(a);
      ObjectInPool(p.data, layout, pos);
    }

    lemma PoolPlaced(q: Pool)
      requires Kept() && q in pools
      ensures Sound(layout) && q.data % layout.PoolSize() == 0
      ensures HomeOf(q, layout) in pages.AllBusy() && HomeOf(q, layout) in Homes()
    {
    }

    /** Objects in use do not overlap, and lie below the metadata of their pools. */
    lemma ObjectsDisjoint(a: nat, b: nat)
      requires Kept() && Live(a) && Live(b) && a < b
      ensures a + layout.objSize <= b
    {
      hide Live;
      hide Kept;
      var p, i := ObjectPlaced(a);
      var q, j := ObjectPlaced(b);
      hide *;
      PlacedApart(p.data, q.data, layout, i, j, a, b);
    }

  }

  /** Two multiples of n are n apart. */
  lemma {:induction false} Apart(x: nat, y: nat, n: nat)
    requires n > 0 && x % n == 0 && y % n == 0 && x != y
    ensures x + n <= y || y + n <= x
  {
    var i, j := x / n, y / n;
    assert x == i * n && y == j * n;
    if x < y {
      MultiplesApart(i, j, n);
    } else {
      MultiplesApart(j, i, n);
    }
  }

  lemma {:induction false} PlacedApart(x: nat, y: nat, l: Layout, i: nat, j: nat, a: nat, b: nat)
    requires a == ObjectAt(x, l, i) && b == ObjectAt(y, l, j) && a < b && PlacedIn(a, x, l) && PlacedIn(b, y, l)
    ensures a + l.objSize <= b
  {
    if x == y {
      if j < i {
        ObjectsDiffer(x, l, j, i);
      } else if i < j {
        ObjectsDiffer(x, l, i, j);
      }
    } else {
      Apart(x, y, l.PoolSize());
    }
  }

  lemma {:induction false} MetaApart(x: nat, y: nat, l: Layout, m: Layout, blocks: set<Block>, a: nat)
    requires PlacedIn(a, x, l) && Sound(m) && y % m.PoolSize() == 0 && Disjoint(blocks)
    requires Block(x / PAGE, l.order) in blocks && Block(y / PAGE, m.order) in blocks
    requires (x == y && l == m) || Block(x / PAGE, l.order) != Block(y / PAGE, m.order)
    ensures a + l.objSize <= y + m.metaOffs || y + m.PoolSize() <= a
  {
    MetaWithin(m);
    hide Sound;
    if x != y || l != m {
      assert !Overlap(Block(x / PAGE, l.order), Block(y / PAGE, m.order));
      BlockBytes(x, l);
      BlockBytes(y, m);
    }
  }

  lemma {:induction false} MetaWithin(l: Layout)
    requires Sound(l)
    ensures l.metaOffs <= l.PoolSize()
  {
  }

  /** An object in use does not touch the metadata of any pool of the caches. */
  lemma {:induction false} MetadataUntouched(c: Cache, d: Cache, a: nat, q: Pool)
    requires c.Kept() && d.Kept() && c.pages == d.pages && (c == d || c.Homes() !! d.Homes()) && c.Live(a)
               && q in d.pools
    ensures a + c.layout.objSize <= q.data + d.layout.metaOffs || q.data + d.layout.PoolSize() <= a
  {
    c.pages.BusyApart();
    hide *;
    d.PoolPlaced(q);
    var p, i := c.ObjectPlaced(a);
    OtherHomes(c.layout, d.layout, p, q, c.Homes(), d.Homes(), a);
    MetaApart(p.data, q.data, c.layout, d.layout, c.pages.AllBusy(), a);
  }

  lemma {:induction false} OtherHomes(l: Layout, m: Layout, p: Pool, q: Pool, s: set<Block>, t: set<Block>, a: nat)
    requires PlacedIn(a, p.data, l) && q.data % m.PoolSize() == 0 && HomeOf(p, l) in s && HomeOf(q, m) in t
               && (l == m || s !! t)
    ensures HomeOf(p, l) == Block(p.data / PAGE, l.order) && HomeOf(q, m) == Block(q.data / PAGE, m.order)
    ensures (p.data == q.data && l == m) || Block(p.data / PAGE, l.order) != Block(q.data / PAGE, m.order)
  {
    PageAligned(p.data, l.order);
    PageAligned(q.data, m.order);
  }

  /** Objects of two caches with pools in different blocks do not overlap either. */
  lemma {:induction false} CachesDisjoint(c: Cache, d: Cache, a: nat, b: nat)
    requires c.Kept() && d.Kept() && c.pages == d.pages && c.Homes() !! d.Homes() && c.Live(a) && d.Live(b)
    ensures a + c.layout.objSize <= b || b + d.layout.objSize <= a
  {
    c.pages.BusyApart();
    hide *;
    var p, i := c.ObjectPlaced(a);
    var q, j := d.ObjectPlaced(b);
    BlocksApart(p.data, q.data, c.layout, d.layout, c.pages.AllBusy(), a, b);
  }

  lemma {:induction false} BlocksApart(x: nat, y: nat, l: Layout, m: Layout, blocks: set<Block>, a: nat, b: nat)
    requires PlacedIn(a, x, l) && PlacedIn(b, y, m) && Disjoint(blocks)
    requires Block(x / PAGE, l.order) in blocks && Block(y / PAGE, m.order) in blocks
               && Block(x / PAGE, l.order) != Block(y / PAGE, m.order)
    ensures a + l.objSize <= b || b + m.objSize <= a
  {
    assert !Overlap(Block(x / PAGE, l.order), Block(y / PAGE, m.order));
    BlockBytes(x, l);
    BlockBytes(y, m);
  }

  lemma {:induction false} BlockBytes(data: nat, l: Layout)
    requires data % l.PoolSize() == 0
    ensures data == data / PAGE * PAGE && data + l.PoolSize() == (data / PAGE + Pow2(l.order)) * PAGE
  {
    PageAligned(data, l.order);
  }
}