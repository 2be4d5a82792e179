/** src/alloc.c: the layout of a slab, and its bitmap. */
module SlabLayout {
  import opened Powers

  const WORD_BITS: nat := 64
  const WORD_BYTES: nat := 8
  const MIN_POOL_OBJS: nat := 8

  /** sizeof(struct mem_pool), with its one bitmap word, and its alignment. */
  const META_BYTES: nat := 48
  const META_ALIGN: nat := 8

  /** One past the largest size_t */
  const SIZE_LIMIT: nat := 0x1_0000_0000_0000_0000

  /** The computations of the layout do not wrap around. */
  predicate Computable(size: nat, align: nat) {
    (size + align) * MIN_POOL_OBJS + META_BYTES <= SIZE_LIMIT / 2
  }

  function Ceil(a: nat, b: nat): nat
    requires b > 0
  {
    (a + b - 1) / b
  }

  function AlignDown(size: nat, align: nat): nat
    requires align > 0
  {
    align * (size / align)
  }

  lemma {:induction false} AlignUpIs(size: nat, align: nat)
    requires align > 0 && size + align <= SIZE_LIMIT
    ensures size <= AlignUp(size, align) < size + align && AlignUp(size, align) % align == 0
  {
    var q := Ceil(size, align);
    var r := (size + align - 1) % align;
    assert size + align - 1 == q * align + r;
    DivisionUnique(AlignUp(size, align), align, q, 0);
  }

  lemma {:induction false} AlignDownIs(size: nat, align: nat)
    requires align > 0
    ensures AlignDown(size, align) <= size < AlignDown(size, align) + align && AlignDown(size, align) % align == 0
  {
    var q := size / align;
    assert size == q * align + size % align;
    DivisionUnique(AlignDown(size, align), align, q, 0);
  }

  /** meta_size, for a pool of at least one object */
  function MetaSize(objs: nat): nat
    requires objs > 0
  {
    AlignUp(META_BYTES + (Ceil(objs, WORD_BITS) - 1) * WORD_BYTES, META_ALIGN)
  }

  lemma {:induction false} MetaSizeIs(objs: nat)
    requires objs > 0
    ensures MetaSize(objs) == META_BYTES + (Ceil(objs, WORD_BITS) - 1) * WORD_BYTES
    ensures objs <= WORD_BITS ==> MetaSize(objs) == META_BYTES
  {
  }

  datatype Layout = Layout(metaOffs: nat, objCount: nat, maskWords: nat, objSize: nat, order: nat) {
    function PoolSize(): (s: nat)
      ensures s > 0
    {
      Pow2(order) * PAGE
    }
  }

  predicate Fits(objSize: nat, objs: nat, poolSize: nat)
    requires objs > 0
  {
    objSize * objs + MetaSize(objs) <= poolSize
  }

  /** A pool: the objects from its start, its metadata at its end, and as many objects as there is room for. */
  predicate Sound(l: Layout) {
    && l.objSize > 0 && l.objCount >= 3 && l.maskWords == Ceil(l.objCount, WORD_BITS)
    && l.objSize * l.objCount <= l.metaOffs && l.metaOffs + MetaSize(l.objCount) == l.PoolSize()
    && !Fits(l.objSize, l.objCount + 1, l.PoolSize())
  }

  /** ilog2 */
  method Log2(x: nat) returns (power: nat)
    requires x <= SIZE_LIMIT / 2
    ensures x <= Pow2(power) < SIZE_LIMIT && (power > 0 ==> Pow2(power - 1) < x)
  {
    var val := 1;
    power := 0;
    while val < x
      invariant val == Pow2(power) && (power > 0 ==> Pow2(power - 1) < x)
      decreases x - val
    {
      val := 2 * val;
      power := power + 1;
    }
  }

  /** Rounding the page count down still leaves room for three objects, though not for MIN_POOL_OBJS. */
  lemma {:induction false} RoomForThree(objSize: nat, poolSize: nat)
    requires objSize > 0
    requires poolSize >= PAGE && poolSize >= (objSize * MIN_POOL_OBJS + META_BYTES) / PAGE * PAGE
    ensures Fits(objSize, 3, poolSize)
  {
    var min := objSize * MIN_POOL_OBJS + META_BYTES;
    var pages := min / PAGE;
    assert min < pages * PAGE + PAGE <= 2 * poolSize + PAGE;
    assert pages >= 1 ==> min < 2 * poolSize;
    MetaSizeIs(3);
  }

  lemma {:induction false} ScaledPages(p: nat, q: nat)
    requires p <= q && q > 0
    ensures p * PAGE <= q * PAGE && q * PAGE >= PAGE
  {
  }

  /** The pool is the smallest block with the page count of eight objects and their metadata, rounded down. */
  predicate IsPoolOrder(objSize: nat, order: nat) {
    var pages := (objSize * MIN_POOL_OBJS + META_BYTES) / PAGE;
    pages <= Pow2(order) && (order > 0 ==> Pow2(order - 1) < pages)
  }

  /** pool_order of mem_cache_layout_setup */
  method PoolOrder(objSize: nat) returns (order: nat)
    requires objSize > 0 && objSize * MIN_POOL_OBJS + META_BYTES <= SIZE_LIMIT / 2
    ensures IsPoolOrder(objSize, order) && PAGE <= Pow2(order) * PAGE < SIZE_LIMIT
    ensures Fits(objSize, 3, Pow2(order) * PAGE)
  {
    hide Fits;
    hide MetaSize;
    MetaSizeIs(MIN_POOL_OBJS);
    var minSize := objSize * MIN_POOL_OBJS + MetaSize(MIN_POOL_OBJS);
    order := Log2(minSize / PAGE);
    ScaledPages(minSize / PAGE, Pow2(order));
    RoomForThree(objSize, Pow2(order) * PAGE);
  }

  /** mem_cache_layout_setup */
  method SetupLayout(size: nat, align: nat) returns (l: Layout)
    requires size > 0 && align > 0 && Computable(size, align)
    ensures Sound(l) && size <= l.objSize < size + align && l.objSize % align == 0
    ensures PAGE <= l.PoolSize() < SIZE_LIMIT && IsPoolOrder(l.objSize, l.order)
  {
    AlignUpIs(size, align);
    hide Pow2;
    hide Ceil;
    hide Fits;
    hide IsPoolOrder;
    var objSize := AlignUp(size, align);
    hide AlignUp;
    var order := PoolOrder(objSize);
    var poolSize := Pow2(order) * PAGE;
    var objs := poolSize / objSize;
    FirstGuess(objSize, poolSize);
    while !Fits(objSize, objs, poolSize)
      invariant objs >= 3 && !Fits(objSize, objs + 1, poolSize)
      decreases objs
    {
      objs := objs - 1;
    }
    assert Fits(objSize, objs, poolSize);
    Room(objSize, objs, poolSize);
    l := Layout(poolSize - MetaSize(objs), objs, Ceil(objs, WORD_BITS), objSize, order);
  }

  lemma {:induction false} Room(objSize: nat, objs: nat, poolSize: nat)
    requires objs > 0 && Fits(objSize, objs, poolSize)
    ensures objSize * objs + MetaSize(objs) <= poolSize
  {
  }

  lemma {:induction false} FirstGuess(objSize: nat, poolSize: nat)
    requires objSize > 0 && Fits(objSize, 3, poolSize)
    ensures var objs := poolSize / objSize; objs >= 3 && !Fits(objSize, objs + 1, poolSize)
  {
    Room(objSize, 3, poolSize);
    hide Fits;
    var q := poolSize / objSize;
    assert poolSize == q * objSize + poolSize % objSize;
    MultipleBelow(3, q + 1, objSize);
    TooMany(objSize, q, poolSize);
  }

  lemma {:induction false} TooMany(objSize: nat, q: nat, poolSize: nat)
    requires poolSize < q * objSize + objSize
    ensures !Fits(objSize, q + 1, poolSize)
  {
    assert objSize * (q + 1) == q * objSize + objSize;
    hide MetaSize;
  }

  /** Fewer objects fit where more do. */
  lemma {:induction false} FitsDown(objSize: nat, objs: nat, more: nat, poolSize: nat)
    requires 0 < objs <= more <= WORD_BITS && Fits(objSize, more, poolSize)
    ensures Fits(objSize, objs, poolSize)
  {
    MetaSizeIs(objs);
    MetaSizeIs(more);
    ScaledObjects(objSize, objs, more);
  }

  lemma {:induction false} ScaledObjects(objSize: nat, objs: nat, more: nat)
    requires objs <= more
    ensures objSize * objs <= objSize * more
  {
    assert objSize * more == objSize * objs + objSize * (more - objs);
  }

  /** A pool has as many objects as fit. */
  lemma {:induction false} CountIs(l: Layout, objs: nat)
    requires Sound(l) && 0 < objs <= WORD_BITS
    ensures l.objCount >= objs <==> Fits(l.objSize, objs, l.PoolSize())
  {
    if l.objCount < objs && Fits(l.objSize, objs, l.PoolSize()) {
      FitsDown(l.objSize, l.objCount + 1, objs, l.PoolSize());
    }
    if l.objCount >= objs {
      MetaSizeIs(objs);
      MetaSizeIs(l.objCount);
      ScaledObjects(l.objSize, objs, l.objCount);
      CeilMonotone(objs, l.objCount);
    }
  }

  lemma {:induction false} CeilMonotone(objs: nat, more: nat)
    requires 0 < objs <= more
    ensures Ceil(objs, WORD_BITS) <= Ceil(more, WORD_BITS)
  {
  }

  /** The bytes that eight objects and their metadata take. */
  function MinBytes(objSize: nat): nat {
    objSize * MIN_POOL_OBJS + META_BYTES
  }

  /** MIN_POOL_OBJS is reached exactly when rounding to whole pages and then to a power of two did not round down:
      those bytes are whole pages, or their page count is not a power of two. */
  lemma {:induction false} MinReached(l: Layout)
    requires Sound(l) && IsPoolOrder(l.objSize, l.order)
    ensures var b := MinBytes(l.objSize);
      l.objCount >= MIN_POOL_OBJS <==> b % PAGE == 0 || !IsPower(b / PAGE)
  {
    var b := MinBytes(l.objSize);
    CountIs(l, MIN_POOL_OBJS);
    MetaSizeIs(MIN_POOL_OBJS);
    PowerAt(b / PAGE, l.order);
    hide Pow2;
    EnoughPages(b, Pow2(l.order));
  }

  lemma {:induction false} EnoughPages(b: nat, pages: nat)
    requires b / PAGE <= pages
    ensures b <= pages * PAGE <==> b % PAGE == 0 || b / PAGE < pages
  {
  }

  ghost predicate IsPower(n: nat) {
    exists k: nat :: Pow2(k) == n
  }

  /** The least power of two at or above n is n itself or n is none. */
  lemma {:induction false} PowerAt(n: nat, order: nat)
    requires n <= Pow2(order) && (order > 0 ==> Pow2(order - 1) < n)
    ensures n < Pow2(order) <==> !IsPower(n)
  {
    if IsPower(n) {
      var k: nat :| Pow2(k) == n;
      if k > order {
        Pow2Monotone(order + 1, k);
      } else if k < order {
        Pow2Monotone(k, order - 1);
      }
    }
  }

  /** Objects of 1017 bytes get a pool of three. */
  lemma {:induction false} ThreeIsReached(l: Layout)
    requires Sound(l) && l.objSize == 1017 && IsPoolOrder(l.objSize, l.order)
    ensures l.order == 0 && l.objCount == 3
  {
    assert Pow2(0) == 1;
  }
}
