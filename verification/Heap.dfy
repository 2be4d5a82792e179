/** src/alloc.c: mem_alloc and mem_free over the caches of fixed sizes and whole blocks of pages. */
module Heap {
  import opened Powers
  import opened Blocks
  import opened SlabLayout
  import opened SlabPool
  import opened Slab
  import Paged = PageAllocator

  /** mem_pool_size */
  const SIZES: seq<nat> := [
    64, 128, 192, 256, 320, 384, 448,
    512, 576, 640, 704, 768, 832, 896,
    960, 1024, 1152, 1280, 1408, 1536, 1664,
    1792, 1920, 2048, 2304, 2560, 2816, 3072,
    3584, 4096, 5120, 6144, 7168, 8192
  ]

  lemma {:induction false} SizeBounds(i: nat)
    requires i < |SIZES|
    ensures 64 <= SIZES[i] <= 8192 && SIZES[i] % 64 == 0
    ensures if i == 0 then SIZES[i] == 64 else SIZES[i - 1] < SIZES[i] <= 2 * SIZES[i - 1]
  {
  }

  lemma {:induction false} OnlyMultiple(x: nat, size: nat)
    requires size <= x < size + 64 && x % 64 == 0 && size % 64 == 0
    ensures x == size
  {
  }

  /** The cache is the one of size class i: objects of exactly that size, in pools of the order that they call for. */
  predicate Classed(c: Cache, i: nat)
    requires i < |SIZES|
  {
    c.layout.objSize == SIZES[i] && IsPoolOrder(SIZES[i], c.layout.order)
  }

  /** The pages of the cache's pools say that they are the cache's. */
  ghost predicate Marked(homes: set<Block>, user: map<nat, User>, c: Cache) {
    forall b, page: nat {:trigger b.Has(page)} | b in homes && b.Has(page) :: page in user && user[page] == CacheOf(c)
  }

  /** The first page of a large block has its order. */
  ghost predicate Ordered(large: set<Block>, user: map<nat, User>) {
    forall b | b in large :: b.idx in user && user[b.idx] == OrderOf(b.order)
  }

  /** Only the pages of pools and the first pages of large blocks have a user. */
  ghost predicate Used(homes: seq<set<Block>>, large: set<Block>, user: map<nat, User>) {
    forall page | page in user :: Within(Paged.Union(homes), page) || exists b | b in large :: b.idx == page
  }

  lemma {:induction false} UsedMore(homes: seq<set<Block>>, large: set<Block>, before: map<nat, User>,
      after: map<nat, User>, k: nat, b: Block, u: User)
    requires Used(homes, large, before) && k < |homes| && Remarked(before, after, b, u)
    requires b !in homes[k] && forall j | 0 <= j < |homes| && j != k :: b !in homes[j]
    ensures Used(homes[k := homes[k] + {b}], large, after)
  {
    Paged.UnionAdded(homes, k, b);
    hide Paged.Union;
  }

  /** Marking the pages of one more block does not touch the marks of others. */
  lemma {:induction false} Remark(homes: set<Block>, before: map<nat, User>, after: map<nat, User>, b: Block, u: User,
      blocks: set<Block>, c: Cache)
    requires homes <= blocks && b in blocks && b !in homes && Disjoint(blocks) && Remarked(before, after, b, u)
    ensures Marked(homes, before, c) ==> Marked(homes, after, c)
    ensures Marked(homes, before, c) && u == CacheOf(c) ==> Marked(homes + {b}, after, c)
    ensures Ordered(homes, before) ==> Ordered(homes, after)
  {
    forall h, page: nat {:trigger h.Has(page)} | h in homes && h.Has(page)
      ensures !b.Has(page) && (page in after <==> page in before) && (page in before ==> after[page] == before[page])
    {
      assert !Overlap(h, b);
    }
    assert forall h | h in homes :: h.Has(h.idx);
  }

  /** The first size class that is large enough. */
  predicate IsClass(size: nat, i: nat) {
    i < |SIZES| && SIZES[i] >= size && forall j | 0 <= j < i :: SIZES[j] < size
  }

  /** The least order whose block is large enough, or one past the largest. */
  predicate IsBlockOrder(size: nat, order: nat) {
    && order <= MAX_ORDER + 1
    && (order <= MAX_ORDER ==> size <= Pow2(order) * PAGE)
    && (order > 0 ==> Pow2(order - 1) * PAGE < size)
  }

  lemma {:induction false} ClassUnique(size: nat, i: nat, j: nat)
    requires IsClass(size, i) && IsClass(size, j)
    ensures i == j
  {
    hide SIZES;
  }

  lemma {:induction false} BlockOrderUnique(size: nat, j: nat, k: nat)
    requires IsBlockOrder(size, j) && IsBlockOrder(size, k)
    ensures j == k
  {
    if j < k {
      Pow2Monotone(j, k - 1);
    } else if k < j {
      Pow2Monotone(k, j - 1);
    }
  }

  /** The bytes that a request takes: those of the first size class that is large enough, or else of the least block. */
  ghost predicate IsLength(size: nat, len: nat) {
    || (exists i: nat :: IsClass(size, i) && len == SIZES[i])
    || ((forall i | 0 <= i < |SIZES| :: SIZES[i] < size)
        && exists order: nat :: order <= MAX_ORDER && IsBlockOrder(size, order) && len == Pow2(order) * PAGE)
  }

  /** What a request takes is enough, and wastes less than half of it beyond the least class. */
  lemma {:induction false} LengthBounds(size: nat, len: nat)
    requires IsLength(size, len)
    ensures len >= size && len >= 64 && (len == 64 || len < 2 * size)
  {
    if i: nat :| IsClass(size, i) && len == SIZES[i] {
      SizeBounds(i);
      if i > 0 {
        assert SIZES[i - 1] < size;
      }
    } else {
      assert SIZES[33] == 8192;
      hide SIZES;
      var order: nat :| order <= MAX_ORDER && IsBlockOrder(size, order) && len == Pow2(order) * PAGE;
      assert Pow2(0) == 1;
      assert order > 0 && Pow2(order) == 2 * Pow2(order - 1);
    }
  }

  lemma {:induction false} ClassLength(size: nat, i: nat)
    requires IsClass(size, i)
    ensures i < |SIZES| && IsLength(size, SIZES[i])
    ensures size <= SIZES[i] && (SIZES[i] == 64 || 64 < SIZES[i] < 2 * size)
  {
    hide SIZES;
    LengthBounds(size, SIZES[i]);
  }

  lemma {:induction false} BlockLength(size: nat, order: nat)
    requires IsBlockOrder(size, order) && forall i | 0 <= i < |SIZES| :: SIZES[i] < size
    ensures order <= MAX_ORDER ==>
              IsLength(size, Pow2(order) * PAGE) && size <= Pow2(order) * PAGE && 64 < Pow2(order) * PAGE < 2 * size
  {
    assert SIZES[33] == 8192;
    if order <= MAX_ORDER {
      hide SIZES;
      LengthBounds(size, Pow2(order) * PAGE);
    }
  }

  /** mem_order_calculate */
  method OrderFor(size: nat) returns (order: nat)
    ensures IsBlockOrder(size, order)
  {
    order := 0;
    while order != MAX_ORDER + 1
      invariant 0 <= order <= MAX_ORDER + 1 && (order > 0 ==> Pow2(order - 1) * PAGE < size)
      decreases MAX_ORDER + 1 - order
    {
      if Pow2(order) * PAGE >= size {
        break;
      }
      order := order + 1;
    }
  }

  /** mem_pool_lookup */
  method Lookup(size: nat) returns (found: bool, i: nat)
    ensures found ==> IsClass(size, i)
    ensures !found ==> forall j | 0 <= j < |SIZES| :: SIZES[j] < size
  {
    i := 0;
    while i != |SIZES|
      invariant 0 <= i <= |SIZES| && forall j | 0 <= j < i :: SIZES[j] < size
      decreases |SIZES| - i
    {
      if SIZES[i] >= size {
        return true, i;
      }
      i := i + 1;
    }
    return false, 0;
  }

  lemma {:induction false} Grown(s: set<Block>, s': set<Block>, t: set<Block>, t': set<Block>)
    requires s <= s' && t <= t' && s' - s == t' - t
    ensures s' == s ==> t' == t
    ensures forall b | b in s' - s :: b !in t && (s' == s + {b} ==> t' == t + {b})
  {
    assert t' == t + (t' - t);
    if s' == s {
      assert t' - t == {};
    }
    forall b | b in s' - s && s' == s + {b}
      ensures t' == t + {b}
    {
      assert s' - s == {b};
    }
  }

  lemma {:induction false} SomeNew(s: set<Block>, t: set<Block>) returns (b: Block)
    requires s <= t && s != t
    ensures b in t - s
  {
    assert exists c :: c in t && c !in s;
    b :| b in t && b !in s;
  }

  ghost function PoolsOf(cs: seq<Cache>): seq<set<Pool>>
    reads cs
  {
    seq(|cs|, i requires 0 <= i < |cs| reads cs => cs[i].pools)
  }

  ghost function HomesOf(cs: seq<Cache>): seq<set<Block>>
    reads cs
  {
    seq(|cs|, i requires 0 <= i < |cs| reads cs => cs[i].Homes())
  }

  class KernelHeap {
    const pages: Paged.Pages
    const users: PageUsers
    var caches: seq<Cache>
    ghost var objects: set<Pool>
    ghost var large: set<Block>

    ghost predicate Valid()
      reads this, caches, objects, pages, pages.zones, pages.arrays, users
    {
      Sound() && Shared(AllHomes(), users.user, pages.AllBusy())
    }

    /** n bytes from address a are allocated. */
    ghost predicate InUse(a: nat, n: nat)
      reads this, caches, set c, p | c in caches && p in c.pools :: p
    {
      InCache(a, n) || InBlock(a, n)
    }

    ghost predicate InCache(a: nat, n: nat)
      reads this, caches, set c, p | c in caches && p in c.pools :: p
    {
      exists c :: c in caches && c.Live(a) && n == c.layout.objSize
    }

    ghost predicate InBlock(a: nat, n: nat)
      reads this
    {
      exists b :: b in large && a == b.idx * PAGE && n == b.Size() * PAGE
    }

    /** mem_alloc_setup: one cache for each size, and nothing allocated */
    constructor (allocator: Paged.Pages)
      requires allocator.Valid()
      ensures Valid() && pages == allocator && fresh(users) && fresh(caches) && objects == {}
      ensures |caches| == |SIZES| && forall i | 0 <= i < |SIZES| :: Classed(caches[i], i)
      ensures Owned() == {} && forall a, n: nat :: !InUse(a, n)
    {
      hide Empty;
      pages := allocator;
      users := new PageUsers();
      caches := [];
      objects, large := {}, {};
      new;
      while |caches| != |SIZES|
        invariant |caches| <= |SIZES| && large == {} && objects == {} && pages == allocator && pages.Valid()
        invariant Started(caches, pages, users) && fresh(users) && fresh(caches) && users.user == map[]
        decreases |SIZES| - |caches|
      {
        AddCache();
      }
      NothingInUse();
    }

    /** mem_cache_setup of the next size */
    method AddCache()
      requires |caches| < |SIZES| && pages.Valid() && Started(caches, pages, users)
      modifies this`caches
      ensures |caches| == |old(caches)| + 1 && fresh(set c | c in caches && c !in old(caches))
      ensures pages.Valid() && Started(caches, pages, users)
    {
      hide Empty;
      hide Paged.Pages.Valid;
      hide SIZES;
      hide Started;
      SizeBounds(|caches|);
      var c := NewCache(SIZES[|caches|]);
      StartMore(caches, c, pages, users);
      caches := caches + [c];
    }

    method NewCache(size: nat) returns (c: Cache)
      requires pages.Valid() && 0 < size <= 8192 && size % 64 == 0
      ensures fresh(c) && c.pages == pages && Empty(c, pages, users)
      ensures c.layout.objSize == size && IsPoolOrder(size, c.layout.order)
    {
      assert SIZES[0] == 64;
      c := new Cache(size, SIZES[0], pages, users);
      OnlyMultiple(c.layout.objSize, size);
    }

    /** The caches share no pools. */
    ghost predicate Distinct()
      reads this`caches, this`objects, caches
    {
      && (forall c | c in caches :: c.pages == pages && c.users == users && c.pools <= objects)
      && (forall i, j | 0 <= i < j < |caches| :: caches[i] != caches[j] && caches[i].pools !! caches[j].pools)
      && |caches| == |SIZES| && (forall i | 0 <= i < |caches| :: Classed(caches[i], i))
    }

    /** The blocks of the caches and the large ones, and what the pages in them say. */
    ghost predicate Shared(homes: seq<set<Block>>, user: map<nat, User>, blocks: set<Block>)
      reads this`caches, this`large
    {
      SharedWith(homes, user, blocks, large)
    }

    ghost predicate SharedWith(homes: seq<set<Block>>, user: map<nat, User>, blocks: set<Block>, large: set<Block>)
      reads this`caches
    {
      && |homes| == |caches|
      && (forall i | 0 <= i < |homes| :: homes[i] <= blocks && homes[i] !! large && Marked(homes[i], user, caches[i]))
      && (forall i, j | 0 <= i < j < |homes| :: homes[i] !! homes[j])
      && large <= blocks && Ordered(large, user)
      && Used(homes, large, user)
    }

    ghost function AllHomes(): seq<set<Block>>
      reads this`caches, caches
    {
      HomesOf(caches)
    }

    /** The blocks of pages that the heap has taken. */
    ghost function Owned(): set<Block>
      reads this`caches, this`large, caches
    {
      Paged.Union(AllHomes()) + large
    }

    /** The blocks in use that are not the heap's. */
    ghost function Others(): set<Block>
      reads this`caches, this`large, caches, pages, pages.zones
    {
      pages.AllBusy() - Owned()
    }

    ghost predicate Sound()
      reads this`caches, this`objects, caches, objects, pages, pages.zones, pages.arrays
    {
      Distinct() && pages.Valid() && forall c | c in caches :: c.Valid()
    }

    /** One cache takes one more block of pages. */
    lemma OneMoreHome(homes: seq<set<Block>>, user: map<nat, User>, blocks: set<Block>, k: nat, b: Block)
      requires Shared(homes, user, blocks) && k < |homes| && b !in blocks && Disjoint(blocks + {b})
      requires Remarked(user, users.user, b, CacheOf(caches[k]))
      ensures Shared(homes[k := homes[k] + {b}], users.user, blocks + {b})
    {
      hide Marked;
      hide Ordered;
      hide Remarked;
      forall i | 0 <= i < |homes|
        ensures Marked(homes[i], users.user, caches[i]) && (i == k ==> Marked(homes[k] + {b}, users.user, caches[k]))
      {
        Remark(homes[i], user, users.user, b, CacheOf(caches[k]), blocks + {b}, caches[i]);
      }
      Remark(large, user, users.user, b, CacheOf(caches[k]), blocks + {b}, caches[k]);
      hide Used;
      UsedMore(homes, large, user, users.user, k, b, CacheOf(caches[k]));
    }

    lemma OneMoreOwned(homes: seq<set<Block>>, user: map<nat, User>, blocks: set<Block>, k: nat, b: Block)
      requires Shared(homes, user, blocks) && k < |homes| && b !in blocks
      ensures blocks + {b} - (Paged.Union(homes[k := homes[k] + {b}]) + large) == blocks - (Paged.Union(homes) + large)
    {
      Paged.UnionAdded(homes, k, b);
      hide Paged.Union;
    }

    ghost predicate Locals()
      reads this`caches, this`objects, caches, objects
    {
      Distinct() && forall c | c in caches :: c.Local()
    }

    ghost predicate BackedBy(blocks: set<Block>)
      reads this`caches, caches
    {
      forall c | c in caches :: Backed(c.pools, c.layout, blocks)
    }

    lemma Parts()
      ensures Sound() <==> Locals() && pages.Valid() && BackedBy(pages.AllBusy())
    {
      hide Cache.Valid;
      hide Cache.Local;
      hide Backed;
      hide Paged.Pages.Valid;
      hide Paged.Pages.AllBusy;
      forall c | c in caches
        ensures c.Valid() <==> c.Local() && c.pages.Valid() && Backed(c.pools, c.layout, c.pages.AllBusy())
      {
        c.Parts();
      }
    }

    /** mem_cache_alloc on one cache: the other caches do not notice. */
    method AllocIn(k: nat) returns (addr: nat)
      requires Sound() && k < |caches|
      modifies this`objects, caches[k], objects, pages.zones, pages.arrays, users
      ensures Sound() && objects == old(objects) + caches[k].pools && fresh(objects - old(objects))
      ensures forall c | c in caches && c != caches[k] ::
                c.pools == old(c.pools) && forall a: nat :: c.Live(a) == old(c.Live(a))
      ensures AllHomes() == old(AllHomes())[k := caches[k].Homes()] && old(caches[k].Homes()) <= caches[k].Homes()
      ensures caches[k].Homes() == old(caches[k].Homes()) ==>
                users.user == old(users.user) && pages.AllBusy() == old(pages.AllBusy())
      ensures forall b | b in caches[k].Homes() - old(caches[k].Homes()) ::
                && caches[k].Homes() == old(caches[k].Homes()) + {b} && pages.AllBusy() == old(pages.AllBusy()) + {b}
                && b !in old(pages.AllBusy()) && Remarked(old(users.user), users.user, b, CacheOf(caches[k]))
      ensures addr == 0 <==> old(caches[k].Full())
      ensures addr == 0 ==> forall a: nat :: caches[k].Live(a) == old(caches[k].Live(a))
      ensures addr != 0 ==>
                && !old(caches[k].Live(addr))
                && forall a: nat :: caches[k].Live(a) <==> old(caches[k].Live(a)) || a == addr
    {
      hide Cache.Full;
      hide Locals;
      hide Backed;
      hide Distinct;
      hide Remarked;
      hide HomeOf;
      hide Cache.Live;
      hide Cache.Valid;
      hide Paged.Pages.Valid;
      hide Paged.Pages.AllBusy;
      Parts();
      DistinctCaches();
      hide Sound;
      ghost var homes, blocks := AllHomes(), pages.AllBusy();
      assert caches[k] in caches && caches[k].Valid();
      addr := AllocOne(k);
      assert AllHomes() == homes[k := caches[k].Homes()];
      StillBacked(k, blocks, pages.AllBusy());
      Parts();
    }

    lemma DistinctCaches()
      requires Sound()
      ensures forall i, j | 0 <= i < j < |caches| :: caches[i] != caches[j]
      ensures forall c | c in caches :: c.Valid()
    {
    }

    lemma StillBacked(k: nat, blocks: set<Block>, more: set<Block>)
      requires k < |caches| && Backed(caches[k].pools, caches[k].layout, more) && blocks <= more
      requires forall c | c in caches && c != caches[k] :: Backed(c.pools, c.layout, blocks)
      ensures BackedBy(more)
    {
    }

    method AllocOne(k: nat) returns (addr: nat)
      requires Locals() && k < |caches| && pages.Valid() && caches[k].Valid()
      modifies this`objects, caches[k], objects, pages.zones, pages.arrays, users
      ensures Locals() && pages.Valid() && objects == old(objects) + caches[k].pools && fresh(objects - old(objects))
      ensures Backed(caches[k].pools, caches[k].layout, pages.AllBusy()) && old(pages.AllBusy()) <= pages.AllBusy()
      ensures forall c | c in caches && c != caches[k] ::
                c.pools == old(c.pools) && forall a: nat :: c.Live(a) == old(c.Live(a))
      ensures old(caches[k].Homes()) <= caches[k].Homes()
      ensures caches[k].Homes() == old(caches[k].Homes()) ==>
                users.user == old(users.user) && pages.AllBusy() == old(pages.AllBusy())
      ensures forall b | b in caches[k].Homes() - old(caches[k].Homes()) ::
                && caches[k].Homes() == old(caches[k].Homes()) + {b} && pages.AllBusy() == old(pages.AllBusy()) + {b}
                && b !in old(pages.AllBusy()) && Remarked(old(users.user), users.user, b, CacheOf(caches[k]))
      ensures addr == 0 <==> old(caches[k].Full())
      ensures addr == 0 ==> forall a: nat :: caches[k].Live(a) == old(caches[k].Live(a))
      ensures addr != 0 ==>
                && !old(caches[k].Live(addr))
                && forall a: nat :: caches[k].Live(a) <==> old(caches[k].Live(a)) || a == addr
    {
      hide Cache.Full;
      hide Cache.Live;
      hide Cache.Valid;
      hide Cache.Local;
      hide Cache.Homes;
      hide Backed;
      hide Paged.Pages.Valid;
      hide Paged.Pages.AllBusy;
      hide SIZES;
      hide Remarked;
      ghost var sets, known := PoolSets(), objects;
      DistinctSets();
      hide Distinct;
      addr := AllocBeside(k);
      objects := objects + caches[k].pools;
      DistinctAgain(k, sets, known);
    }

    /** The other caches share nothing with this one. */
    method AllocBeside(k: nat) returns (addr: nat)
      requires Locals() && k < |caches| && pages.Valid() && caches[k].Valid()
      modifies caches[k], caches[k].pools, pages.zones, pages.arrays, users
      ensures (forall c | c in caches :: c.Local()) && pages.Valid() && fresh(caches[k].pools - old(caches[k].pools))
      ensures forall i | 0 <= i < |caches| && i != k ::
                caches[i].pools == old(PoolSets())[i] && old(PoolSets())[i] !! caches[k].pools
      ensures Backed(caches[k].pools, caches[k].layout, pages.AllBusy()) && old(pages.AllBusy()) <= pages.AllBusy()
      ensures forall c | c in caches && c != caches[k] ::
                c.pools == old(c.pools) && forall a: nat :: c.Live(a) == old(c.Live(a))
      ensures old(caches[k].Homes()) <= caches[k].Homes()
      ensures caches[k].Homes() == old(caches[k].Homes()) ==>
                users.user == old(users.user) && pages.AllBusy() == old(pages.AllBusy())
      ensures forall b | b in caches[k].Homes() - old(caches[k].Homes()) ::
                && caches[k].Homes() == old(caches[k].Homes()) + {b} && pages.AllBusy() == old(pages.AllBusy()) + {b}
                && b !in old(pages.AllBusy()) && Remarked(old(users.user), users.user, b, CacheOf(caches[k]))
      ensures addr == 0 <==> old(caches[k].Full())
      ensures addr == 0 ==> forall a: nat :: caches[k].Live(a) == old(caches[k].Live(a))
      ensures addr != 0 ==>
                && !old(caches[k].Live(addr))
                && forall a: nat :: caches[k].Live(a) <==> old(caches[k].Live(a)) || a == addr
    {
      hide Cache.Full;
      hide Cache.Live;
      hide Cache.Valid;
      hide Cache.Local;
      hide Cache.Homes;
      hide Backed;
      hide Paged.Pages.Valid;
      hide Paged.Pages.AllBusy;
      hide SIZES;
      hide Remarked;
      var c := caches[k];
      assert c in caches;
      ghost var sets := PoolSets();
      DistinctSets();
      assert c.pages == pages && c.users == users && c.pools <= objects;
      hide Distinct;
      addr := AllocHome(c);
    }

    ghost function PoolSets(): seq<set<Pool>>
      reads this`caches, caches
    {
      PoolsOf(caches)
    }

    lemma DistinctSets()
      requires Distinct()
      ensures forall i, j | 0 <= i < j < |caches| :: PoolSets()[i] !! PoolSets()[j] && caches[i] != caches[j]
      ensures forall i | 0 <= i < |caches| :: PoolSets()[i] <= objects
      ensures forall c | c in caches :: c.pages == pages && c.users == users
      ensures |caches| == |SIZES| && forall i | 0 <= i < |caches| :: Classed(caches[i], i)
    {
    }

    lemma DistinctAgain(k: nat, sets: seq<set<Pool>>, known: set<Pool>)
      requires k < |caches| == |sets| && objects == known + caches[k].pools
      requires forall i, j | 0 <= i < j < |caches| :: sets[i] !! sets[j] && caches[i] != caches[j]
      requires forall i | 0 <= i < |caches| :: sets[i] <= known
      requires forall i | 0 <= i < |caches| && i != k :: caches[i].pools == sets[i] && sets[i] !! caches[k].pools
      requires forall c | c in caches :: c.pages == pages && c.users == users
      requires |caches| == |SIZES| && forall i | 0 <= i < |caches| :: Classed(caches[i], i)
      ensures Distinct()
    {
      hide SIZES;
      forall c | c in caches
        ensures c.pools <= objects
      {
        var i :| 0 <= i < |caches| && caches[i] == c;
      }
    }

    /** mem_cache_alloc, and the block of pages that it may take */
    method AllocHome(c: Cache) returns (addr: nat)
      requires c.Valid() && c.pages == pages && c.users == users
      modifies c, c.pools, pages.zones, pages.arrays, users
      ensures c.Local() && pages.Valid() && Backed(c.pools, c.layout, pages.AllBusy())
      ensures old(pages.AllBusy()) <= pages.AllBusy() && old(c.Homes()) <= c.Homes()
      ensures fresh(c.pools - old(c.pools))
      ensures addr == 0 <==> old(c.Full())
      ensures addr == 0 ==> forall a: nat :: c.Live(a) == old(c.Live(a))
      ensures addr != 0 ==> !old(c.Live(addr)) && forall a: nat :: c.Live(a) <==> old(c.Live(a)) || a == addr
      ensures c.Homes() == old(c.Homes()) ==> users.user == old(users.user) && pages.AllBusy() == old(pages.AllBusy())
      ensures forall b | b in c.Homes() - old(c.Homes()) ::
                && c.Homes() == old(c.Homes()) + {b} && pages.AllBusy() == old(pages.AllBusy()) + {b}
                && b !in old(pages.AllBusy()) && Remarked(old(users.user), users.user, b, CacheOf(c))
    {
      hide Cache.Full;
      hide Cache.Live;
      hide Cache.Valid;
      hide Cache.Local;
      hide Cache.Homes;
      hide Backed;
      hide Paged.Pages.Valid;
      hide Paged.Pages.AllBusy;
      hide Remarked;
      ghost var h, blocks := c.Homes(), pages.AllBusy();
      addr := c.Alloc();
      c.Parts();
      Grown(h, c.Homes(), blocks, pages.AllBusy());
    }

    /** mem_cache_alloc on the cache of a size */
    method AllocFrom(k: nat) returns (addr: nat)
      requires Valid() && k < |caches|
      modifies this`objects, caches[k], objects, pages.zones, pages.arrays, users
      ensures Valid() && objects == old(objects) + caches[k].pools && fresh(objects - old(objects))
      ensures Others() == old(Others())
      ensures forall c | c in caches && c != caches[k] ::
                c.pools == old(c.pools) && forall a: nat :: c.Live(a) == old(c.Live(a))
      ensures addr == 0 <==> old(caches[k].Full())
      ensures addr == 0 ==> forall a: nat :: caches[k].Live(a) == old(caches[k].Live(a))
      ensures addr != 0 ==>
                && !old(caches[k].Live(addr))
                && forall a: nat :: caches[k].Live(a) <==> old(caches[k].Live(a)) || a == addr
    {
      hide Paged.Union;
      hide Cache.Full;
      hide Sound;
      hide Shared;
      hide Remarked;
      hide Cache.Live;
      hide Cache.Homes;
      hide Paged.Pages.AllBusy;
      ghost var homes, user, blocks := AllHomes(), users.user, pages.AllBusy();
      assert homes[k] == caches[k].Homes();
      addr := AllocIn(k);
      if caches[k].Homes() != homes[k] {
        ghost var b := SomeNew(homes[k], caches[k].Homes());
        SoundPages();
        pages.BusyApart();
        OneMoreHome(homes, user, blocks, k, b);
        OneMoreOwned(homes, user, blocks, k, b);
        assert AllHomes() == homes[k := homes[k] + {b}] && pages.AllBusy() == blocks + {b};
      } else {
        assert AllHomes() == homes;
      }
    }

    /** A block becomes a large one. */
    lemma OneMoreLarge(homes: seq<set<Block>>, user: map<nat, User>, blocks: set<Block>, l: set<Block>, b: Block)
      requires |homes| == |caches| && l == large + {b} && b !in blocks && Disjoint(blocks + {b})
      requires Shared(homes, user, blocks)
      ensures SharedWith(homes, user[b.idx := OrderOf(b.order)], blocks + {b}, l)
    {
      var user' := user[b.idx := OrderOf(b.order)];
      forall h | h in blocks
        ensures !h.Has(b.idx) && h.idx != b.idx
      {
        assert !Overlap(h, b);
      }
    }

    /** A large block goes. */
    lemma OneLargeLess(homes: seq<set<Block>>, user: map<nat, User>, blocks: set<Block>, l: set<Block>, b: Block)
      requires b in large && l == large - {b} && Disjoint(blocks) && Shared(homes, user, blocks)
      ensures SharedWith(homes, user - {b.idx}, blocks - {b}, l)
    {
      forall h | h in blocks && h != b
        ensures !h.Has(b.idx) && h.idx != b.idx
      {
        assert !Overlap(h, b);
      }
    }

    /** mem_alloc without a cache for the size */
    method AllocLarge(order: nat) returns (addr: nat)
      requires Valid()
      modifies this`large, pages.zones, pages.arrays, users
      ensures Valid() && caches == old(caches) && objects == old(objects)
      ensures Others() == old(Others())
      ensures addr == 0 ==> large == old(large)
      ensures addr == 0 <==> old(pages.NoRun(order))
      ensures addr != 0 ==>
                && order <= MAX_ORDER && addr % PAGE == 0 && Block(addr / PAGE, order) !in old(large)
                && large == old(large) + {Block(addr / PAGE, order)}
      ensures forall c | c in caches :: c.pools == old(c.pools) && forall a: nat :: c.Live(a) == old(c.Live(a))
    {
      hide Locals;
      hide BackedBy;
      hide SharedWith;
      hide Cache.Live;
      hide Paged.Pages.NoRun;
      hide Paged.Pages.Valid;
      hide Paged.Pages.AllBusy;
      Parts();
      hide Sound;
      hide AllHomes;
      ghost var homes, user, blocks := AllHomes(), users.user, pages.AllBusy();
      var found, idx := pages.AllocPages(order);
      addr := 0;
      if found {
        KeepLarge(idx, order, homes, user, blocks);
        addr := idx * PAGE;
      } else {
        Parts();
      }
    }

    /** A new block becomes a large one. */
    method KeepLarge(idx: nat, order: nat, ghost homes: seq<set<Block>>, ghost user: map<nat, User>,
        ghost blocks: set<Block>)
      requires Locals() && pages.Valid() && BackedBy(blocks) && pages.AllBusy() == blocks + {Block(idx, order)}
      requires Block(idx, order) !in blocks && homes == AllHomes() && user == users.user && Shared(homes, user, blocks)
      modifies this`large, users
      ensures Valid() && Block(idx, order) !in old(large) && large == old(large) + {Block(idx, order)}
    {
      hide Locals;
      hide BackedBy;
      hide SharedWith;
      hide Sound;
      hide AllHomes;
      hide Paged.Pages.Valid;
      hide Paged.Pages.AllBusy;
      ghost var b := Block(idx, order);
      LargeBlock(homes, user, blocks, b);
      pages.BusyApart();
      OneMoreLarge(homes, user, blocks, large + {b}, b);
      users.SetOrder(idx, order);
      large := large + {b};
      BackedStill(blocks, pages.AllBusy());
      Parts();
    }

    /** mem_cache_free on one cache */
    method FreeIn(c: Cache, addr: nat)
      requires Valid() && c in caches && c.Live(addr)
      modifies c, objects
      ensures Valid() && Others() == old(Others())
      ensures forall d | d in caches && d != c ::
                d.pools == old(d.pools) && forall a: nat :: d.Live(a) == old(d.Live(a))
      ensures forall a: nat :: c.Live(a) <==> old(c.Live(a)) && a != addr
    {
      hide SharedWith;
      hide Cache.Live;
      hide Cache.Valid;
      hide Cache.Local;
      hide Backed;
      hide HomeOf;
      hide SIZES;
      hide Paged.Pages.Valid;
      hide Paged.Pages.AllBusy;
      Parts();
      hide Sound;
      ghost var homes := AllHomes();
      assert c.Valid() by { DistinctCaches(); }
      c.Free(addr);
      c.Parts();
      assert AllHomes() == homes;
      Parts();
    }

    /** page_free of a large block */
    method FreeLarge(idx: nat, order: nat)
      requires Valid() && Block(idx, order) in large
      modifies this`large, pages.zones, pages.arrays, users
      ensures Valid() && caches == old(caches) && objects == old(objects) && large == old(large) - {Block(idx, order)}
      ensures Others() == old(Others())
      ensures forall c | c in caches :: c.pools == old(c.pools) && forall a: nat :: c.Live(a) == old(c.Live(a))
    {
      hide Locals;
      hide BackedBy;
      hide SharedWith;
      hide Cache.Live;
      hide Paged.Pages.Valid;
      hide Paged.Pages.AllBusy;
      Parts();
      hide Sound;
      hide AllHomes;
      DropLarge(idx, order, AllHomes(), users.user, pages.AllBusy());
    }

    /** A large block goes back to the page allocator. */
    method DropLarge(idx: nat, order: nat, ghost homes: seq<set<Block>>, ghost user: map<nat, User>,
        ghost blocks: set<Block>)
      requires Locals() && pages.Valid() && BackedBy(blocks) && pages.AllBusy() == blocks && homes == AllHomes()
      requires user == users.user && Shared(homes, user, blocks) && Block(idx, order) in large
      modifies this`large, pages.zones, pages.arrays, users
      ensures Valid() && large == old(large) - {Block(idx, order)} && Others() == old(Others())
    {
      hide Locals;
      hide BackedBy;
      hide SharedWith;
      hide Sound;
      hide AllHomes;
      hide Paged.Union;
      hide Paged.Pages.Valid;
      hide Paged.Pages.AllBusy;
      ghost var b := Block(idx, order);
      pages.BusyApart();
      LargeIsBusy(homes, user, blocks, b);
      OneLargeLess(homes, user, blocks, large - {b}, b);
      users.ClearOrder(idx);
      pages.FreePages(idx, order);
      large := large - {b};
      BackedLess(homes, blocks, b);
      Parts();
    }

    lemma LargeIsBusy(homes: seq<set<Block>>, user: map<nat, User>, blocks: set<Block>, b: Block)
      requires Shared(homes, user, blocks) && b in large
      ensures b in blocks
    {
    }

    lemma BackedLess(homes: seq<set<Block>>, blocks: set<Block>, b: Block)
      requires BackedBy(blocks) && homes == AllHomes() && forall i | 0 <= i < |homes| :: b !in homes[i]
      ensures BackedBy(blocks - {b})
    {
      forall c | c in caches
        ensures Backed(c.pools, c.layout, blocks - {b})
      {
        var i :| 0 <= i < |caches| && caches[i] == c;
        assert homes[i] == c.Homes();
        forall p | p in c.pools
          ensures HomeOf(p, c.layout) in c.Homes()
        {
        }
      }
    }

    lemma LargeBlock(homes: seq<set<Block>>, user: map<nat, User>, blocks: set<Block>, b: Block)
      requires Shared(homes, user, blocks) && b !in blocks
      ensures b !in large && |homes| == |caches|
    {
    }

    lemma BackedStill(blocks: set<Block>, more: set<Block>)
      requires BackedBy(blocks) && blocks <= more
      ensures BackedBy(more)
    {
    }

    lemma SoundPages()
      requires Sound()
      ensures pages.Valid()
    {
    }

    /** An object in use is in use in one cache only, and no large block starts there. */
    lemma OneOwner(c: Cache, a: nat)
      requires Valid() && c in caches && c.Live(a)
      ensures forall d | d in caches && d != c :: !d.Live(a)
      ensures forall n: nat :: !InBlock(a, n)
    {
      hide Cache.Live;
      forall d | d in caches && d != c
        ensures !d.Live(a)
      {
        OtherCache(c, d, a, a);
      }
      forall b | b in large
        ensures b.idx * PAGE != a
      {
        OtherBlock(c, b, a);
      }
    }

    lemma OtherCache(c: Cache, d: Cache, a: nat, b: nat)
      requires Valid() && c in caches && d in caches && c != d && c.Live(a)
      ensures c.layout.objSize > 0 && d.layout.objSize > 0
      ensures d.Live(b) ==> a + c.layout.objSize <= b || b + d.layout.objSize <= a
    {
      hide Cache.Live;
      Homely(c);
      Homely(d);
      HomesApart(c, d);
      if d.Live(b) {
        CachesDisjoint(c, d, a, b);
      }
    }

    lemma Homely(c: Cache)
      requires Valid() && c in caches
      ensures c.Kept() && c.pages == pages && c.layout.objSize > 0
      ensures exists i :: 0 <= i < |caches| && caches[i] == c && AllHomes()[i] == c.Homes()
    {
      hide Shared;
      assert c.Valid();
      c.LayoutWords();
      var i :| 0 <= i < |caches| && caches[i] == c;
      assert AllHomes()[i] == c.Homes();
    }

    lemma HomesApart(c: Cache, d: Cache)
      requires Valid() && c in caches && d in caches && c != d
      ensures c.Homes() !! d.Homes()
    {
      hide Sound;
      var i :| 0 <= i < |caches| && caches[i] == c;
      var j :| 0 <= j < |caches| && caches[j] == d;
      assert AllHomes()[i] == c.Homes() && AllHomes()[j] == d.Homes();
    }

    /** An object of a cache and a large block do not overlap. */
    lemma OtherBlock(c: Cache, b: Block, a: nat)
      requires Valid() && c in caches && c.Live(a) && b in large
      ensures c.layout.objSize > 0 && (a + c.layout.objSize <= b.idx * PAGE || b.idx * PAGE + b.Size() * PAGE <= a)
    {
      hide Cache.Live;
      Homely(c);
      LargeApart(c, b);
      pages.BusyApart();
      hide *;
      var p, i := c.ObjectPlaced(a);
      ObjectAndBlock(a, p.data, c.layout, b, pages.AllBusy(), c.Homes(), HomeOf(p, c.layout));
    }

    lemma LargeApart(c: Cache, b: Block)
      requires Valid() && c in caches && b in large
      ensures b in pages.AllBusy() && b !in c.Homes()
    {
      hide Sound;
      var i :| 0 <= i < |caches| && caches[i] == c;
      assert AllHomes()[i] == c.Homes();
    }

    /** Nothing is left for a request: its cache is full, or no zone has a block that is large enough. */
    ghost predicate Exhausted(size: nat)
      reads this`caches, caches, pages, pages.zones
    {
      || (exists i: nat :: IsClass(size, i) && i < |caches| && NoObject(caches[i]))
      || ((forall i | 0 <= i < |SIZES| :: SIZES[i] < size)
         && exists order: nat :: IsBlockOrder(size, order) && pages.NoRun(order))
    }

    /** No pool of the cache has a free object, and no zone has a block for another pool. */
    ghost predicate NoObject(c: Cache)
      reads c, pages, pages.zones
    {
      c.partialPools == [] && c.freePools == [] && pages.NoRun(c.layout.order)
    }

    /** mem_alloc: 0 and no change if and only if nothing is left; else at least `size` bytes that were not
        allocated, and nothing else changes. */
    method Alloc(size: nat) returns (addr: nat, ghost len: nat)
      requires Valid()
      modifies this`objects, this`large, caches, objects, pages.zones, pages.arrays, users
      ensures Valid() && caches == old(caches) && fresh(objects - old(objects)) && Others() == old(Others())
      ensures addr == 0 <==> old(Exhausted(size))
      ensures addr == 0 ==> forall a, n: nat :: InUse(a, n) == old(InUse(a, n))
      ensures addr != 0 ==>
                && IsLength(size, len) && size <= len && (len == 64 || 64 < len < 2 * size) && addr % 64 == 0
                && (forall n: nat :: !old(InUse(addr, n)))
                && forall a, n: nat :: InUse(a, n) <==> old(InUse(a, n)) || (a == addr && n == len)
    {
      hide Others;
      hide Valid;
      hide InUse;
      hide Cache.Full;
      hide Paged.Pages.NoRun;
      hide Exhausted;
      hide IsLength;
      hide IsClass;
      hide IsBlockOrder;
      var found, i := Lookup(size);
      if found {
        ClassLength(size, i);
        SizesHold(i);
        ClassExhausted(size, i);
        hide SIZES;
        assert forall a, n: nat :: InUse(a, n) == old(InUse(a, n));
        addr, len := AllocCached(i);
        TakenAligned(addr, len);
        return;
      }
      var order := OrderFor(size);
      BlockExhausted(size, order);
      BlockLength(size, order);
      hide SIZES;
      assert forall a, n: nat :: InUse(a, n) == old(InUse(a, n));
      addr, len := AllocWhole(order);
      TakenAligned(addr, len);
    }

    lemma TakenAligned(addr: nat, len: nat)
      requires Valid() && (addr != 0 ==> InUse(addr, len))
      ensures addr % 64 == 0
    {
      if addr != 0 {
        InUseAligned(addr, len);
      }
    }

    /** Whatever is allocated starts at a multiple of 64 bytes, and is not empty. */
    lemma InUseAligned(a: nat, n: nat)
      requires Valid() && InUse(a, n)
      ensures a % 64 == 0 && n > 0
    {
      hide Cache.Live;
      hide Sound;
      hide Shared;
      if InCache(a, n) {
        var c :| c in caches && c.Live(a) && n == c.layout.objSize;
        ObjectAligned(c, a);
      } else {
        var b :| b in large && a == b.idx * PAGE && n == b.Size() * PAGE;
        hide *;
        PageMultiple(b.idx);
      }
    }

    lemma ObjectAligned(c: Cache, a: nat)
      requires Valid() && c in caches && c.Live(a)
      ensures a % 64 == 0 && c.layout.objSize > 0
    {
      hide Cache.Live;
      Homely(c);
      ClassMultiple(c);
      hide *;
      var p, i := c.ObjectPlaced(a);
      c.PoolPlaced(p);
      AlignedObject(p.data, c.layout, i);
    }

    lemma ClassMultiple(c: Cache)
      requires Valid() && c in caches
      ensures c.layout.objSize % 64 == 0
    {
      hide Shared;
      var i :| 0 <= i < |caches| && caches[i] == c;
      SizeBounds(i);
      hide SIZES;
    }

    lemma ClassExhausted(size: nat, i: nat)
      requires IsClass(size, i) && i < |caches| && caches[i].pages == pages
      ensures Exhausted(size) <==> caches[i].Full()
    {
      hide Paged.Pages.NoRun;
      forall j: nat | IsClass(size, j)
        ensures j == i
      {
        ClassUnique(size, i, j);
      }
    }

    lemma BlockExhausted(size: nat, order: nat)
      requires IsBlockOrder(size, order) && forall i | 0 <= i < |SIZES| :: SIZES[i] < size
      ensures Exhausted(size) <==> pages.NoRun(order)
    {
      hide Paged.Pages.NoRun;
      forall k: nat | IsBlockOrder(size, k)
        ensures k == order
      {
        BlockOrderUnique(size, k, order);
      }
      assert forall i: nat :: !IsClass(size, i);
      hide IsBlockOrder;
    }

    method AllocCached(i: nat) returns (addr: nat, ghost len: nat)
      requires Valid() && i < |caches|
      modifies this`objects, caches[i], objects, pages.zones, pages.arrays, users
      ensures Valid() && len == caches[i].layout.objSize > 0 && fresh(objects - old(objects))
      ensures Others() == old(Others())
      ensures addr == 0 <==> old(caches[i].Full())
      ensures addr == 0 ==> forall a, n: nat :: InUse(a, n) == old(InUse(a, n))
      ensures addr != 0 ==>
                && (forall n: nat :: !old(InUse(addr, n)))
                && forall a, n: nat :: InUse(a, n) <==> old(InUse(a, n)) || (a == addr && n == len)
    {
      hide Others;
      hide Cache.Full;
      hide Paged.Pages.NoRun;
      hide Shared;
      hide Sound;
      hide Cache.Live;
      hide Paged.Pages.AllBusy;
      assert caches[i] in caches;
      addr := AllocFrom(i);
      Homely(caches[i]);
      len := caches[i].layout.objSize;
      assert forall a, n: nat :: InBlock(a, n) == old(InBlock(a, n));
      if addr != 0 {
        OneOwner(caches[i], addr);
        assert forall n: nat :: !old(InBlock(addr, n)) && !old(InCache(addr, n));
      }
    }

    method AllocWhole(order: nat) returns (addr: nat, ghost len: nat)
      requires Valid()
      modifies this`large, pages.zones, pages.arrays, users
      ensures Valid() && len == Pow2(order) * PAGE > 0 && (addr != 0 ==> order <= MAX_ORDER)
      ensures Others() == old(Others())
      ensures addr == 0 <==> old(pages.NoRun(order))
      ensures addr == 0 ==> forall a, n: nat :: InUse(a, n) == old(InUse(a, n))
      ensures addr != 0 ==>
                && (forall n: nat :: !old(InUse(addr, n)))
                && forall a, n: nat :: InUse(a, n) <==> old(InUse(a, n)) || (a == addr && n == len)
    {
      hide Others;
      hide Cache.Full;
      hide Paged.Pages.NoRun;
      hide Shared;
      hide Sound;
      hide Cache.Live;
      hide Paged.Pages.AllBusy;
      addr := AllocLarge(order);
      len := Pow2(order) * PAGE;
      if addr != 0 {
        LargeAlone(Block(addr / PAGE, order));
        OneLarge(Block(addr / PAGE, order));
        assert forall n: nat :: !old(InCache(addr, n)) && !old(InBlock(addr, n));
      }
      assert forall a, n: nat :: InCache(a, n) == old(InCache(a, n));
    }

    lemma LargeAlone(b: Block)
      requires Valid() && b in large
      ensures forall c | c in caches :: !c.Live(b.idx * PAGE)
    {
      hide Cache.Live;
      forall c | c in caches
        ensures !c.Live(b.idx * PAGE)
      {
        if c.Live(b.idx * PAGE) {
          OtherBlock(c, b, b.idx * PAGE);
        }
      }
    }

    /** The page of an allocated address says what to do with it. */
    lemma UserAt(ptr: nat, len: nat)
      requires Valid() && InUse(ptr, len)
      ensures ptr / PAGE in users.user
      ensures match users.user[ptr / PAGE]
              case CacheOf(c) => c in caches && c.Live(ptr)
              case OrderOf(order) =>
                && Block(ptr / PAGE, order) in large
                && AlignDown(ptr, Pow2(order) * PAGE) == ptr && ptr % PAGE == 0
    {
      if InCache(ptr, len) {
        var c :| c in caches && c.Live(ptr) && len == c.layout.objSize;
        CachedUser(c, ptr);
      } else {
        var b :| b in large && ptr == b.idx * PAGE && len == b.Size() * PAGE;
        LargeUser(b);
      }
    }

    lemma CachedUser(c: Cache, ptr: nat)
      requires Valid() && c in caches && c.Live(ptr)
      ensures ptr / PAGE in users.user && users.user[ptr / PAGE] == CacheOf(c)
    {
      hide Cache.Live;
      Homely(c);
      Marks(c);
      var p, i := c.ObjectPlaced(ptr);
      hide *;
      PageOfHome(ptr, p, c.layout, c.Homes());
      MarkedPage(c.Homes(), users.user, c, HomeOf(p, c.layout), ptr / PAGE);
    }

    lemma Marks(c: Cache)
      requires Valid() && c in caches
      ensures Marked(c.Homes(), users.user, c)
    {
      hide Sound;
      var i :| 0 <= i < |caches| && caches[i] == c;
      assert AllHomes()[i] == c.Homes();
    }

    lemma LargeUser(b: Block)
      requires Valid() && b in large
      ensures b.idx in users.user && users.user[b.idx] == OrderOf(b.order)
      ensures b.idx * PAGE / PAGE == b.idx && b.idx * PAGE % PAGE == 0
                && AlignDown(b.idx * PAGE, Pow2(b.order) * PAGE) == b.idx * PAGE
    {
      pages.BusyApart();
      assert b in pages.AllBusy() && Aligned(b.idx, b.order);
      hide *;
      AlignedBlock(b);
    }

    lemma OneLarge(b: Block)
      requires Valid() && b in large
      ensures forall c | c in large && c != b :: c.idx != b.idx
    {
      pages.BusyApart();
      assert large <= pages.AllBusy();
      hide Sound;
      forall c | c in large && c != b
        ensures c.idx != b.idx
      {
        assert !Overlap(c, b);
      }
    }

    /** mem_free: exactly what mem_alloc gave at the address is no longer allocated; the null pointer is ignored. */
    method Free(ptr: nat, ghost len: nat)
      requires Valid() && (ptr != 0 ==> InUse(ptr, len))
      modifies this`large, caches, objects, pages.zones, pages.arrays, users
      ensures Valid() && caches == old(caches) && Others() == old(Others())
      ensures forall a, n: nat :: InUse(a, n) <==> old(InUse(a, n)) && (ptr == 0 || a != ptr)
    {
      hide Others;
      hide Valid;
      hide Cache.Live;
      hide AlignDown;
      if ptr == 0 {
        return;
      }
      UserAt(ptr, len);
      var page := ptr / PAGE;
      match users.user[page] {
        case CacheOf(c) =>
          FreeCached(c, ptr);
        case OrderOf(order) =>
          FreeWhole(AlignDown(ptr, Pow2(order) * PAGE) / PAGE, order);
      }
    }

    method FreeCached(c: Cache, ptr: nat)
      requires Valid() && c in caches && c.Live(ptr)
      modifies c, objects
      ensures Valid() && Others() == old(Others())
      ensures forall a, n: nat :: InUse(a, n) <==> old(InUse(a, n)) && a != ptr
    {
      hide Others;
      hide Valid;
      hide Cache.Live;
      OneOwner(c, ptr);
      assert forall n: nat :: !InBlock(ptr, n);
      FreeIn(c, ptr);
      assert forall a, n: nat :: InBlock(a, n) == old(InBlock(a, n));
    }

    method FreeWhole(idx: nat, order: nat)
      requires Valid() && Block(idx, order) in large
      modifies this`large, pages.zones, pages.arrays, users
      ensures Valid() && caches == old(caches) && Others() == old(Others())
      ensures forall a, n: nat :: InUse(a, n) <==> old(InUse(a, n)) && a != idx * PAGE
    {
      hide Others;
      hide Valid;
      hide Cache.Live;
      LargeAlone(Block(idx, order));
      OneLarge(Block(idx, order));
      FreeLarge(idx, order);
      assert forall a, n: nat :: InCache(a, n) == old(InCache(a, n));
    }

    /** An allocation followed by its free leaves what is allocated as it was. */
    method AllocThenFree(size: nat) returns (addr: nat)
      requires Valid()
      modifies this`objects, this`large, caches, objects, pages.zones, pages.arrays, users
      ensures Valid() && caches == old(caches) && fresh(objects - old(objects)) && Others() == old(Others())
      ensures addr == 0 <==> old(Exhausted(size))
      ensures forall a, n: nat :: InUse(a, n) <==> old(InUse(a, n))
    {
      hide Others;
      hide Valid;
      hide InUse;
      hide Exhausted;
      ghost var len;
      addr, len := Alloc(size);
      Free(addr, len);
    }

    /** What is allocated does not overlap. */
    lemma NoOverlap(a: nat, n: nat, b: nat, m: nat)
      requires Valid() && InUse(a, n) && InUse(b, m) && (a != b || n != m)
      ensures a + n <= b || b + m <= a
    {
      hide Cache.Live;
      if InCache(a, n) {
        var c :| c in caches && c.Live(a) && n == c.layout.objSize;
        if InCache(b, m) {
          var d :| d in caches && d.Live(b) && m == d.layout.objSize;
          TwoObjects(c, d, a, b);
        } else {
          var e :| e in large && b == e.idx * PAGE && m == e.Size() * PAGE;
          OtherBlock(c, e, a);
        }
      } else {
        var e :| e in large && a == e.idx * PAGE && n == e.Size() * PAGE;
        if InCache(b, m) {
          var d :| d in caches && d.Live(b) && m == d.layout.objSize;
          OtherBlock(d, e, b);
        } else {
          var f :| f in large && b == f.idx * PAGE && m == f.Size() * PAGE;
          TwoBlocks(e, f);
        }
      }
    }

    /** What is allocated does not touch the metadata of any pool: neither an object nor a whole block does. */
    lemma MetadataKept(a: nat, n: nat, d: Cache, q: Pool)
      requires Valid() && InUse(a, n) && d in caches && q in d.pools
      ensures a + n <= q.data + d.layout.metaOffs || q.data + d.layout.PoolSize() <= a
    {
      hide Cache.Live;
      Homely(d);
      if InCache(a, n) {
        var c :| c in caches && c.Live(a) && n == c.layout.objSize;
        Homely(c);
        if c != d {
          HomesApart(c, d);
        }
        MetadataUntouched(c, d, a, q);
      } else {
        var b :| b in large && a == b.idx * PAGE && n == b.Size() * PAGE;
        LargeApart(d, b);
        pages.BusyApart();
        d.PoolPlaced(q);
        hide *;
        BlockAndPool(b, q, d.layout, pages.AllBusy());
      }
    }

    lemma TwoObjects(c: Cache, d: Cache, a: nat, b: nat)
      requires Valid() && c in caches && d in caches && c.Live(a) && d.Live(b)
                 && (a != b || c.layout.objSize != d.layout.objSize)
      ensures a + c.layout.objSize <= b || b + d.layout.objSize <= a
    {
      hide Cache.Live;
      if c != d {
        OtherCache(c, d, a, b);
      } else {
        Homely(c);
        if a < b {
          c.ObjectsDisjoint(a, b);
        } else {
          c.ObjectsDisjoint(b, a);
        }
      }
    }

    lemma TwoBlocks(e: Block, f: Block)
      requires Valid() && e in large && f in large
                 && (e.idx * PAGE != f.idx * PAGE || e.Size() * PAGE != f.Size() * PAGE)
      ensures e.idx * PAGE + e.Size() * PAGE <= f.idx * PAGE || f.idx * PAGE + f.Size() * PAGE <= e.idx * PAGE
    {
      pages.BusyApart();
      assert e in pages.AllBusy() && f in pages.AllBusy() && e != f;
      assert !Overlap(e, f);
    }

    lemma SizesHold(i: nat)
      requires Valid() && i < |SIZES|
      ensures |caches| == |SIZES| && Classed(caches[i], i) && caches[i] in caches
                && caches[i].pages == pages
    {
    }

    lemma NothingInUse()
      requires |caches| == |SIZES| && large == {} && objects == {} && pages.Valid() && Started(caches, pages, users)
                 && users.user == map[]
      ensures Valid() && Owned() == {} && forall a, n: nat :: !InUse(a, n)
    {
      NoPools();
      NoHomes();
      hide Started;
      hide Cache.Live;
      hide Cache.Valid;
      hide Paged.Pages.Valid;
      hide Classed;
      NothingShared(AllHomes(), pages.AllBusy());
      hide SharedWith;
      hide AllHomes;
    }

    lemma NoPools()
      requires Started(caches, pages, users)
      ensures forall c | c in caches ::
                c.Valid() && c.pages == pages && c.users == users && c.pools == {} && forall a: nat :: !c.Live(a)
      ensures forall i | 0 <= i < |caches| :: Classed(caches[i], i)
      ensures forall i, j | 0 <= i < j < |caches| :: caches[i] != caches[j]
    {
      hide Cache.Live;
      hide Cache.Valid;
      hide Classed;
    }

    lemma NoHomes()
      requires forall c | c in caches :: c.pools == {}
      ensures |AllHomes()| == |caches| && forall i | 0 <= i < |caches| :: AllHomes()[i] == {}
      ensures Paged.Union(AllHomes()) == {}
    {
    }

    lemma NothingShared(homes: seq<set<Block>>, blocks: set<Block>)
      requires |homes| == |caches| && forall i | 0 <= i < |homes| :: homes[i] == {}
      ensures SharedWith(homes, map[], blocks, {})
    {
    }
  }

  lemma {:induction false} PageMultiple(idx: nat)
    ensures idx * PAGE % 64 == 0
  {
    DivisionUnique(idx * PAGE, 64, idx * 64, 0);
  }

  lemma {:induction false} AlignedObject(x: nat, l: Layout, i: nat)
    requires x % l.PoolSize() == 0 && l.objSize % 64 == 0
    ensures ObjectAt(x, l, i) % 64 == 0
  {
    var p, q, k := x / l.PoolSize(), Pow2(l.order), l.objSize / 64;
    assert x == p * (q * PAGE) && l.objSize == k * 64;
    assert p * (q * PAGE) == p * q * 64 * 64;
    assert i * (k * 64) == i * k * 64;
    DivisionUnique(ObjectAt(x, l, i), 64, p * q * 64 + i * k, 0);
  }

  lemma {:induction false} AlignedBlock(b: Block)
    requires Aligned(b.idx, b.order)
    ensures b.idx * PAGE / PAGE == b.idx && b.idx * PAGE % PAGE == 0
              && AlignDown(b.idx * PAGE, Pow2(b.order) * PAGE) == b.idx * PAGE
  {
    var q := b.idx / Pow2(b.order);
    assert b.idx == q * Pow2(b.order);
    assert b.idx * PAGE == q * (Pow2(b.order) * PAGE);
    DivisionUnique(b.idx * PAGE, Pow2(b.order) * PAGE, q, 0);
    assert Pow2(b.order) * PAGE * q == q * (Pow2(b.order) * PAGE);
  }

  lemma {:induction false} PageOfHome(ptr: nat, p: Pool, l: Layout, homes: set<Block>)
    requires PlacedIn(ptr, p.data, l) && HomeOf(p, l) in homes
    ensures HomeOf(p, l).Has(ptr / PAGE)
  {
    BlockBytes(p.data, l);
  }

  lemma {:induction false} MarkedPage(homes: set<Block>, user: map<nat, User>, c: Cache, b: Block, page: nat)
    requires Marked(homes, user, c) && b in homes && b.Has(page)
    ensures page in user && user[page] == CacheOf(c)
  {
  }

  lemma {:induction false} ObjectAndBlock(a: nat, x: nat, l: Layout, b: Block, blocks: set<Block>, homes: set<Block>,
      home: Block)
    requires PlacedIn(a, x, l) && home == Block(x / PAGE, l.order) && home in blocks && home in homes && b in blocks
               && b !in homes
    requires Disjoint(blocks)
    ensures l.objSize > 0 && (a + l.objSize <= b.idx * PAGE || b.idx * PAGE + b.Size() * PAGE <= a)
  {
    assert !Overlap(home, b);
    BlockBytes(x, l);
  }

  lemma {:induction false} BlockAndPool(b: Block, q: Pool, l: Layout, blocks: set<Block>)
    requires SlabLayout.Sound(l) && q.data % l.PoolSize() == 0 && Disjoint(blocks)
    requires b in blocks && HomeOf(q, l) in blocks && b != HomeOf(q, l)
    ensures b.idx * PAGE + b.Size() * PAGE <= q.data + l.metaOffs || q.data + l.PoolSize() <= b.idx * PAGE
  {
    assert !Overlap(b, HomeOf(q, l));
    PageAligned(q.data, l.order);
    BlockBytes(q.data, l);
  }

  /** A cache without pools */
  ghost predicate Empty(c: Cache, pages: Paged.Pages, users: PageUsers)
    reads c, c.pools, c.pages, c.pages.zones, c.pages.arrays
  {
    c.Valid() && c.pages == pages && c.users == users && c.pools == {} && forall a: nat :: !c.Live(a)
  }

  lemma {:induction false} StartMore(cs: seq<Cache>, c: Cache, pages: Paged.Pages, users: PageUsers)
    requires Started(cs, pages, users) && c.pages == pages && Empty(c, pages, users) && c !in cs && |cs| < |SIZES|
               && Classed(c, |cs|)
    ensures Started(cs + [c], pages, users)
  {
    hide Empty;
    hide SIZES;
  }

  ghost predicate Started(caches: seq<Cache>, pages: Paged.Pages, users: PageUsers)
    reads caches, set c, p | c in caches && p in c.pools :: p, pages, pages.zones, pages.arrays
  {
    && |caches| <= |SIZES|
    && (forall c | c in caches :: c.pages == pages && Empty(c, pages, users))
    && (forall i | 0 <= i < |caches| :: Classed(caches[i], i))
    && (forall i, j | 0 <= i < j < |caches| :: caches[i] != caches[j])
  }
}
