/** src/paging.c: kmap and kunmap, the range allocator and the page tables together. */
module Kmap {
  import opened Powers
  import opened PageTables
  import opened PageMap
  import opened KmapRanges

  const KMAP_BEGIN: nat := 0xffff_ffff_0000_0000
  const KMAP_END: nat := 0xffff_ffff_8000_0000
  const HIGHER_BASE: nat := 0xffff_8000_0000_0000
  const MAX_PMEM_SIZE: nat := 0x7fff_0000_0000

  /** The number of the first page of the window, in the 48-bit space. */
  const FIRST: nat := 0xf_fff0_0000

  /** kmap_addr */
  function Address(n: nat): nat {
    KMAP_BEGIN + n * PAGE
  }

  lemma {:induction false} PageBounds(n: nat, v: nat)
    requires n < KMAP_PAGES
    ensures var a := Address(n);
      && a + PAGE <= KMAP_END && a % PAGE == 0 && a % SPAN == (FIRST + n) * PAGE
      && (a + PAGE - 1) % SPAN == (FIRST + n) * PAGE + PAGE - 1 && a / SPAN == (a + PAGE - 1) / SPAN
    ensures (FIRST + n) * PAGE <= v <= (FIRST + n) * PAGE + PAGE - 1 <==> v / PAGE == FIRST + n
    ensures v / PAGE == FIRST + n ==> v - (FIRST + n) * PAGE == v % PAGE && v < SPAN
  {
    assert KMAP_BEGIN == 0xffff * SPAN + FIRST * PAGE;
    assert (FIRST + n) * PAGE + PAGE <= SPAN;
    DivisionUnique(Address(n), SPAN, 0xffff, (FIRST + n) * PAGE);
    DivisionUnique(Address(n) + PAGE - 1, SPAN, 0xffff, (FIRST + n) * PAGE + PAGE - 1);
  }

  lemma {:induction false} WindowBounds()
    ensures KMAP_BEGIN % SPAN == FIRST * PAGE && Wrap(KMAP_END - 1) % SPAN == (FIRST + KMAP_PAGES) * PAGE - 1
    ensures KMAP_BEGIN / SPAN == Wrap(KMAP_END - 1) / SPAN
    ensures forall v: nat :: FIRST * PAGE <= v <= (FIRST + KMAP_PAGES) * PAGE - 1 <==>
              FIRST <= v / PAGE < FIRST + KMAP_PAGES
  {
  }

  /** The tables of the window: one of level 3, two of level 2, and one of level 1 for each 2 MiB. */
  lemma {:induction false} WindowNeeds()
    ensures Need(4, FIRST * PAGE, (FIRST + KMAP_PAGES) * PAGE, 0, false) == 1027
  {
    var from, last := FIRST * PAGE, (FIRST + KMAP_PAGES) * PAGE - 1;
    NeedSmall(4, from, last + 1, 0);
    SizeValues();
    assert Count(2, from, last) == 1024 && Count(3, from, last) == 1026;
  }

  /** addr_kmap finds the range of an address that kmap returned. */
  lemma {:induction false} AddressBack(range: nat)
    requires range < KMAP_PAGES
    ensures Address(range) % PAGE == 0 && (Address(range) - KMAP_BEGIN) / PAGE == range
              && KMAP_BEGIN <= Address(range) < KMAP_END
  {
  }

  predicate Frame(phys: nat) {
    phys % PAGE == 0 && phys + PAGE <= PHYS_LIMIT
  }

  /** What the first `count` pages, shown from page `range` of the window on, make of a translation. */
  function RunLookup(range: nat, pages: seq<nat>, count: nat, before: Translation, v: nat): Translation
    requires count <= |pages|
  {
    var n := v / PAGE - FIRST;
    if range <= n < range + count then Mapped(pages[n - range] + v % PAGE, true, false) else before
  }

  // ----- what a caller sees -----

  /** Byte `off` of page i from an address on, as the tables see it. */
  function ByteAt(addr: nat, i: nat, off: nat): nat {
    (addr + i * PAGE + off) % SPAN
  }

  /** From the address on, the pages appear one after the other, each byte in its place. */
  ghost predicate Visible(mem: Memory, root: nat, addr: nat, pages: seq<nat>) {
    forall i, off: nat | 0 <= i < |pages| && off < PAGE ::
      Walk(mem, root, 4, ByteAt(addr, i, off)) == Mapped(pages[i] + off, true, false)
  }

  /** The mapping of physical memory below the limit that paging_setup makes at HIGHER_BASE. */
  ghost predicate DirectMap(mem: Memory, root: nat, limit: nat) {
    forall x: nat | x < limit :: Walk(mem, root, 4, ByteAt(HIGHER_BASE, 0, x)) == Mapped(x, true, false)
  }

  /** pt_map_pages at HIGHER_BASE makes the direct map. */
  lemma {:induction false} MapsDirectly(mem: Memory, root: nat, limit: nat)
    requires 0 < limit <= MAX_PMEM_SIZE
    requires forall v: nat | HIGHER_BASE % SPAN <= v <= Wrap(HIGHER_BASE + limit - 1) % SPAN ::
               Walk(mem, root, 4, v) == Mapped(0 + (v - HIGHER_BASE % SPAN), true, false)
    ensures DirectMap(mem, root, limit)
  {
    hide Walk;
    assert HIGHER_BASE == 0xffff * SPAN + SPAN / 2;
    forall x: nat | x < limit
      ensures Walk(mem, root, 4, ByteAt(HIGHER_BASE, 0, x)) == Mapped(x, true, false)
    {
      DivisionUnique(HIGHER_BASE + x, SPAN, 0xffff, SPAN / 2 + x);
    }
  }

  /** An address of the direct map shows its frame. */
  lemma {:induction false} DirectVisible(mem: Memory, root: nat, limit: nat, phys: nat)
    requires DirectMap(mem, root, limit) && phys + PAGE <= limit
    ensures Visible(mem, root, Wrap(phys + HIGHER_BASE), [phys])
  {
    hide Walk;
    var addr := Wrap(phys + HIGHER_BASE);
    forall off: nat | off < PAGE
      ensures Walk(mem, root, 4, ByteAt(addr, 0, off)) == Mapped(phys + off, true, false)
    {
      WrapSpan(phys + HIGHER_BASE, off);
      assert ByteAt(addr, 0, off) == ByteAt(HIGHER_BASE, 0, phys + off);
    }
  }

  lemma {:induction false} WrapSpan(a: nat, off: nat)
    ensures (Wrap(a) + off) % SPAN == (a + off) % SPAN
  {
    var q := a / TOP;
    assert a == q * TOP + Wrap(a);
    assert TOP == 0x1_0000 * SPAN;
    var p, r := (Wrap(a) + off) / SPAN, (Wrap(a) + off) % SPAN;
    assert a + off == (q * 0x1_0000 + p) * SPAN + r;
    DivisionUnique(a + off, SPAN, q * 0x1_0000 + p, r);
  }

  /** A run that is shown appears at its address. */
  lemma {:induction false} ShownVisible(m0: Memory, m1: Memory, root: nat, range: nat, pages: seq<nat>)
    requires Shown(m0, m1, root, range, pages, |pages|) && range + |pages| <= KMAP_PAGES
    ensures Visible(m1, root, Address(range), pages)
  {
    hide Walk;
    forall i, off: nat | 0 <= i < |pages| && off < PAGE
      ensures Walk(m1, root, 4, ByteAt(Address(range), i, off)) == Mapped(pages[i] + off, true, false)
    {
      var n := range + i;
      PageBounds(n, 0);
      DivisionUnique(Address(n) + off, SPAN, 0xffff, (FIRST + n) * PAGE + off);
      DivisionUnique((FIRST + n) * PAGE + off, PAGE, FIRST + n, off);
      assert ByteAt(Address(range), i, off) == (FIRST + n) * PAGE + off;
    }
  }

  lemma {:induction false} ShownOutside(m0: Memory, m1: Memory, root: nat, range: nat, pages: seq<nat>)
    requires Shown(m0, m1, root, range, pages, |pages|) && range + |pages| <= KMAP_PAGES
    ensures forall v: nat | v < SPAN && !(FIRST <= v / PAGE < FIRST + KMAP_PAGES) ::
              Walk(m1, root, 4, v) == Walk(m0, root, 4, v)
  {
    hide Walk;
  }

  lemma {:induction false} ClearedOutside(m0: Memory, m1: Memory, root: nat, range: nat, count: nat)
    requires Cleared(m0, m1, root, range, count) && range + count <= KMAP_PAGES
    ensures forall v: nat | v < SPAN && !(FIRST <= v / PAGE < FIRST + KMAP_PAGES) ::
              Walk(m1, root, 4, v) == Walk(m0, root, 4, v)
  {
    hide Walk;
  }

  /** What leaves the addresses outside of the window alone leaves the direct map alone. */
  lemma {:induction false} DirectKept(m0: Memory, m1: Memory, root: nat)
    requires forall v: nat | v < SPAN && !(FIRST <= v / PAGE < FIRST + KMAP_PAGES) ::
               Walk(m1, root, 4, v) == Walk(m0, root, 4, v)
    ensures forall limit: nat | limit <= MAX_PMEM_SIZE && DirectMap(m0, root, limit) :: DirectMap(m1, root, limit)
  {
    hide Walk;
    assert HIGHER_BASE == 0xffff * SPAN + SPAN / 2;
    forall x: nat | x < MAX_PMEM_SIZE
      ensures ByteAt(HIGHER_BASE, 0, x) < SPAN && ByteAt(HIGHER_BASE, 0, x) / PAGE < FIRST
    {
      DivisionUnique(HIGHER_BASE + x, SPAN, 0xffff, SPAN / 2 + x);
    }
  }

  // ----- views of the tables below one root -----

  /** All tables of the window are there. */
  ghost predicate Populated(mem: Memory, root: nat) {
    forall v: nat | FIRST <= v / PAGE < FIRST + KMAP_PAGES :: Reaches(mem, root, 4, v)
  }

  /** Page n of the window translates to the frame. */
  ghost predicate Shows(mem: Memory, root: nat, n: nat, phys: nat) {
    forall v: nat | v / PAGE == FIRST + n :: Walk(mem, root, 4, v) == Mapped(phys + v % PAGE, true, false)
  }

  ghost predicate Hidden(mem: Memory, root: nat, n: nat) {
    forall v: nat | v / PAGE == FIRST + n :: Walk(mem, root, 4, v) == Unmapped
  }

  /** The first `count` pages are shown from page `range` of the window on; the other translations are as before. */
  ghost predicate Shown(m0: Memory, m1: Memory, root: nat, range: nat, pages: seq<nat>, count: nat)
    requires count <= |pages|
  {
    forall v: nat | v < SPAN :: Walk(m1, root, 4, v) == RunLookup(range, pages, count, Walk(m0, root, 4, v), v)
  }

  /** `count` pages from page `range` of the window on are shown no longer; the other translations are as before. */
  ghost predicate Cleared(m0: Memory, m1: Memory, root: nat, range: nat, count: nat) {
    forall v: nat | v < SPAN :: Walk(m1, root, 4, v)
                                == if FIRST + range <= v / PAGE < FIRST + range + count then Unmapped
                                  else Walk(m0, root, 4, v)
  }

  /** The ranges in use show their frames, and the other pages of the window show nothing. */
  ghost predicate Displays(mem: Memory, root: nat, used: map<nat, nat>, frames: map<nat, seq<nat>>) {
    && frames.Keys == used.Keys
    && (forall r | r in used :: r + used[r] <= KMAP_PAGES && |frames[r]| == used[r])
    && (forall r, s | r in used && s in used && r < s :: r + used[r] <= s)
    && (forall r, j {:trigger frames[r][j]} | r in frames && 0 <= j < |frames[r]| ::
       Shows(mem, root, r + j, frames[r][j]))
    && (forall n: nat | n < KMAP_PAGES && Unused(used, n, 1) :: Hidden(mem, root, n))
  }

  lemma {:induction false} ShownStart(m: Memory, root: nat, range: nat, pages: seq<nat>)
    ensures Shown(m, m, root, range, pages, 0) && Cleared(m, m, root, range, 0)
  {
  }

  lemma {:induction false} ShownStep(m0: Memory, m1: Memory, m2: Memory, root: nat, range: nat, pages: seq<nat>, i: nat)
    requires i < |pages| && Shown(m0, m1, root, range, pages, i)
    requires forall v: nat | v < SPAN ::
               Walk(m2, root, 4, v) == if v / PAGE == FIRST + (range + i) then Mapped(pages[i] + v % PAGE, true, false)
                 else Walk(m1, root, 4, v)
    ensures Shown(m0, m2, root, range, pages, i + 1)
  {
    hide Walk;
  }

  lemma {:induction false} ClearedStep(m0: Memory, m1: Memory, m2: Memory, root: nat, range: nat, i: nat)
    requires Cleared(m0, m1, root, range, i)
    requires forall v: nat | v < SPAN ::
               Walk(m2, root, 4, v) == if v / PAGE == FIRST + (range + i) then Unmapped else Walk(m1, root, 4, v)
    ensures Cleared(m0, m2, root, range, i + 1)
  {
    hide Walk;
  }

  lemma {:induction false} StillHidden(m0: Memory, m1: Memory, root: nat, range: nat, pages: seq<nat>, i: nat, n: nat)
    requires i <= |pages| && Shown(m0, m1, root, range, pages, i) && Hidden(m0, root, n) && n >= range + i
               && n < KMAP_PAGES
    ensures Hidden(m1, root, n)
  {
    hide Walk;
  }

  lemma {:induction false} FreshHidden(mem: Memory, root: nat, used: map<nat, nat>, frames: map<nat, seq<nat>>,
      range: nat, count: nat)
    requires Displays(mem, root, used, frames) && range + count <= KMAP_PAGES && Unused(used, range, count)
    ensures forall n | range <= n < range + count :: Hidden(mem, root, n)
  {
  }

  /** Pages outside of the run keep what they show. */
  lemma {:induction false} OutsideRun(m0: Memory, m1: Memory, root: nat, range: nat, count: nat, pages: seq<nat>,
      n: nat, phys: nat)
    requires n < KMAP_PAGES && (n < range || range + count <= n)
    requires (count == |pages| && Shown(m0, m1, root, range, pages, count)) || Cleared(m0, m1, root, range, count)
    ensures Shows(m0, root, n, phys) ==> Shows(m1, root, n, phys)
    ensures Hidden(m0, root, n) ==> Hidden(m1, root, n)
  {
    hide Walk;
  }

  lemma {:induction false} InsideRun(m0: Memory, m1: Memory, root: nat, range: nat, pages: seq<nat>, j: nat)
    requires j < |pages| && range + |pages| <= KMAP_PAGES
    ensures Shown(m0, m1, root, range, pages, |pages|) ==> Shows(m1, root, range + j, pages[j])
    ensures Cleared(m0, m1, root, range, |pages|) ==> Hidden(m1, root, range + j)
  {
    hide Walk;
  }

  lemma {:induction false} ShowsMore(m0: Memory, m1: Memory, root: nat, used: map<nat, nat>, frames: map<nat, seq<nat>>,
      range: nat, pages: seq<nat>)
    requires Displays(m0, root, used, frames) && Shown(m0, m1, root, range, pages, |pages|)
    requires range + |pages| <= KMAP_PAGES && range !in used && Unused(used, range, |pages|)
    ensures var fs := frames[range := pages];
      forall r, j {:trigger fs[r][j]} | r in fs && 0 <= j < |fs[r]| :: Shows(m1, root, r + j, fs[r][j])
  {
    hide Shows;
    hide Hidden;
    hide Shown;
    hide Cleared;
    hide Walk;
    var fs := frames[range := pages];
    forall r, j {:trigger fs[r][j]} | r in fs && 0 <= j < |fs[r]|
      ensures Shows(m1, root, r + j, fs[r][j])
    {
      if r == range {
        InsideRun(m0, m1, root, range, pages, j);
      } else {
        assert fs[r][j] == frames[r][j];
        OutsideRun(m0, m1, root, range, |pages|, pages, r + j, frames[r][j]);
      }
    }
  }

  lemma {:induction false} HiddenMore(m0: Memory, m1: Memory, root: nat, used: map<nat, nat>,
      frames: map<nat, seq<nat>>, range: nat, pages: seq<nat>, n: nat)
    requires Displays(m0, root, used, frames) && Shown(m0, m1, root, range, pages, |pages|)
    requires |pages| > 0 && range !in used && n < KMAP_PAGES && Unused(used[range := |pages|], n, 1)
    ensures Hidden(m1, root, n)
  {
    hide Shows;
    hide Hidden;
    hide Shown;
    hide Cleared;
    hide Walk;
    var used' := used[range := |pages|];
    assert range in used' && forall r | r in used :: r in used' && used'[r] == used[r];
    assert Unused(used, n, 1);
    OutsideRun(m0, m1, root, range, |pages|, pages, n, 0);
  }

  /** A new range in use. */
  lemma {:induction false} DisplayMore(m0: Memory, m1: Memory, root: nat, used: map<nat, nat>,
      frames: map<nat, seq<nat>>, range: nat, pages: seq<nat>)
    requires Displays(m0, root, used, frames) && Shown(m0, m1, root, range, pages, |pages|)
    requires range + |pages| <= KMAP_PAGES && |pages| > 0 && range !in used && Unused(used, range, |pages|)
    requires forall r | r in used :: used[r] > 0
    ensures Displays(m1, root, used[range := |pages|], frames[range := pages])
  {
    hide Shows;
    hide Hidden;
    hide Shown;
    hide Walk;
    ShowsMore(m0, m1, root, used, frames, range, pages);
    var used' := used[range := |pages|];
    forall n: nat | n < KMAP_PAGES && Unused(used', n, 1)
      ensures Hidden(m1, root, n)
    {
      HiddenMore(m0, m1, root, used, frames, range, pages, n);
    }
    ApartMore(used, range, |pages|);
    hide Unused;
  }

  lemma {:induction false} ApartMore(used: map<nat, nat>, range: nat, count: nat)
    requires range !in used && Unused(used, range, count) && count > 0
    requires forall r | r in used :: used[r] > 0
    requires forall r, s | r in used && s in used && r < s :: r + used[r] <= s
    ensures var u := used[range := count]; forall r, s | r in u && s in u && r < s :: r + u[r] <= s
  {
  }

  /** A range in use given back. */
  lemma {:induction false} DisplayLess(m0: Memory, m1: Memory, root: nat, used: map<nat, nat>,
      frames: map<nat, seq<nat>>, range: nat)
    requires Displays(m0, root, used, frames) && range in used && Cleared(m0, m1, root, range, used[range])
    ensures Displays(m1, root, used - {range}, frames - {range})
  {
    hide Shows;
    hide Hidden;
    hide Shown;
    hide Cleared;
    hide Walk;
    var used', frames', count := used - {range}, frames - {range}, used[range];
    forall r, j {:trigger frames'[r][j]} | r in frames' && 0 <= j < |frames'[r]|
      ensures Shows(m1, root, r + j, frames'[r][j])
    {
      assert frames'[r][j] == frames[r][j];
      OutsideRun(m0, m1, root, range, count, [], r + j, frames[r][j]);
    }
    forall n: nat | n < KMAP_PAGES && Unused(used', n, 1)
      ensures Hidden(m1, root, n)
    {
      if range <= n < range + count {
        InsideRun(m0, m1, root, range, frames[range], n - range);
      } else {
        assert forall r | r in used && r != range :: r in used' && used'[r] == used[r];
        assert Unused(used, n, 1);
        OutsideRun(m0, m1, root, range, count, [], n, 0);
      }
    }
  }

  class Window {
    const ranges: Allocator
    const space: AddressSpace
    ghost var frames: map<nat, seq<nat>>

    ghost predicate Valid()
      reads this, space, ranges, ranges.tags, ranges.links
    {
      && ranges.Valid() && space.Valid() && Populated(space.mem, space.root)
      && Displays(space.mem, space.root, ranges.Used(), frames)
    }

    /** kmap_setup: pt_populate_pages over the window, and one free range.  The pages for the tables have to be
        there. */
    constructor (tables: AddressSpace)
      requires tables.Valid() && |tables.pool| >= 1027
      requires forall v: nat | FIRST <= v / PAGE < FIRST + KMAP_PAGES :: Walk(tables.mem, tables.root, 4, v) == Unmapped
      modifies tables
      ensures Valid() && ranges.Used() == map[] && space == tables
      ensures fresh(ranges) && fresh(ranges.tags) && fresh(ranges.links)
      ensures forall v: nat | v < SPAN ::
                Walk(tables.mem, tables.root, 4, v) == Walk(old(tables.mem), tables.root, 4, v)
    {
      space := tables;
      frames := map[];
      WindowBounds();
      WindowNeeds();
      var ok := tables.PopulatePages(KMAP_BEGIN, KMAP_END);
      ranges := new Allocator();
    }

    /** pt_map_pages of one page of the window, with no pool. */
    method MapOne(n: nat, phys: nat)
      requires space.Valid() && n < KMAP_PAGES && Frame(phys)
      requires Populated(space.mem, space.root) && Hidden(space.mem, space.root, n)
      modifies space
      ensures space.Valid() && Populated(space.mem, space.root) && space.pool == old(space.pool)
      ensures forall v: nat | v < SPAN ::
                Walk(space.mem, space.root, 4, v)
                == if v / PAGE == FIRST + n then Mapped(phys + v % PAGE, true, false)
                  else Walk(old(space.mem), space.root, 4, v)
    {
      hide Walk;
      hide Reaches;
      var addr := Address(n);
      PageBounds(n, 0);
      var ok := space.MapPages(addr, addr + PAGE, phys, true);
    }

    /** The loop of kmap: the pages from page `range` of the window on. */
    method MapRun(range: nat, pages: seq<nat>)
      requires space.Valid() && range + |pages| <= KMAP_PAGES && Populated(space.mem, space.root)
      requires forall p | p in pages :: Frame(p)
      requires forall n | range <= n < range + |pages| :: Hidden(space.mem, space.root, n)
      modifies space
      ensures space.Valid() && Populated(space.mem, space.root) && space.pool == old(space.pool)
      ensures Shown(old(space.mem), space.mem, space.root, range, pages, |pages|)
    {
      hide Frame;
      hide Walk;
      hide Populated;
      hide Hidden;
      hide Shown;
      ghost var m0 := space.mem;
      ShownStart(m0, space.root, range, pages);
      var i := 0;
      while i < |pages|
        invariant 0 <= i <= |pages| && space.Valid() && Populated(space.mem, space.root)
                    && space.pool == old(space.pool)
        invariant Shown(m0, space.mem, space.root, range, pages, i)
      {
        StillHidden(m0, space.mem, space.root, range, pages, i, range + i);
        ghost var m1 := space.mem;
        MapOne(range + i, pages[i]);
        ShownStep(m0, m1, space.mem, space.root, range, pages, i);
        i := i + 1;
      }
    }

    /** kmap: 0 pages give no address, 1 page its address in the direct map, more a range of the window that shows them.
        It fails exactly when it is asked for 2^16 pages or more, or the window has no run of that many unused pages. */
    method Map(pages: seq<nat>) returns (addr: nat, ghost range: nat)
      requires Valid() && forall p | p in pages :: Frame(p)
      modifies this`frames, space, ranges, ranges.tags, ranges.links
      ensures Valid() && space.pool == old(space.pool)
      ensures |pages| == 0 ==> addr == 0
      ensures |pages| == 1 ==> addr == Wrap(pages[0] + HIGHER_BASE)
      ensures |pages| < 2 || addr == 0 ==>
                frames == old(frames) && ranges.Used() == old(ranges.Used()) && space.mem == old(space.mem)
      ensures |pages| >= 2 && addr == 0 ==>
                || |pages| >= Pow2(KMAP_ORDERS)
                || forall n: nat | n + |pages| <= KMAP_PAGES :: !Unused(ranges.Used(), n, |pages|)
      ensures |pages| >= 2 && addr != 0 ==>
                && |pages| < Pow2(KMAP_ORDERS) && addr == Address(range)
                && range + |pages| <= KMAP_PAGES && Unused(old(ranges.Used()), range, |pages|)
                && ranges.Used() == old(ranges.Used())[range := |pages|] && frames == old(frames)[range := pages]
                && Shown(old(space.mem), space.mem, space.root, range, pages, |pages|)
                && Visible(space.mem, space.root, addr, pages)
      ensures |pages| == 1 ==> forall limit: nat |
                                 DirectMap(space.mem, space.root, limit) && pages[0] + PAGE <= limit ::
                                 Visible(space.mem, space.root, addr, pages)
      ensures forall limit: nat |
                limit <= MAX_PMEM_SIZE && DirectMap(old(space.mem), space.root, limit) ::
                DirectMap(space.mem, space.root, limit)
    {
      hide Pow2;
      hide Frame;
      hide Walk;
      hide Populated;
      hide Displays;
      hide Shown;
      hide Unused;
      hide Address;
      hide Visible;
      hide DirectMap;
      if |pages| == 0 {
        return 0, 0;
      }
      if |pages| == 1 {
        OnePage(pages);
        return Wrap(pages[0] + HIGHER_BASE), 0;
      }
      ghost var used := ranges.Used();
      ranges.UsedPositive();
      var found, first, order, list := ranges.AllocRange(|pages|);
      range := first;
      if !found {
        return 0, 0;
      }
      FreshHidden(space.mem, space.root, used, frames, first, |pages|);
      MapRun(first, pages);
      DisplayMore(old(space.mem), space.mem, space.root, used, frames, range, pages);
      frames := frames[range := pages];
      AddressBack(first);
      addr := Address(first);
      ShownVisible(old(space.mem), space.mem, space.root, range, pages);
      ShownOutside(old(space.mem), space.mem, space.root, range, pages);
      DirectKept(old(space.mem), space.mem, space.root);
    }

    lemma OnePage(pages: seq<nat>)
      requires |pages| == 1
      ensures forall limit: nat | DirectMap(space.mem, space.root, limit) && pages[0] + PAGE <= limit ::
                Visible(space.mem, space.root, Wrap(pages[0] + HIGHER_BASE), pages)
    {
      hide DirectMap;
      hide Visible;
      assert pages == [pages[0]];
      forall limit: nat | DirectMap(space.mem, space.root, limit) && pages[0] + PAGE <= limit
        ensures Visible(space.mem, space.root, Wrap(pages[0] + HIGHER_BASE), pages)
      {
        DirectVisible(space.mem, space.root, limit, pages[0]);
      }
    }

    /** The loop body of kunmap, for page n of the window. */
    method ClearOne(n: nat)
      requires space.Valid() && n < KMAP_PAGES && Populated(space.mem, space.root)
      modifies space`mem
      ensures space.Valid() && Populated(space.mem, space.root)
      ensures forall v: nat | v < SPAN ::
                Walk(space.mem, space.root, 4, v)
                == if v / PAGE == FIRST + n then Unmapped else Walk(old(space.mem), space.root, 4, v)
    {
      hide Walk;
      hide Reaches;
      PageBounds(n, (FIRST + n) * PAGE);
      space.ClearPage(Address(n));
    }

    method ClearRun(range: nat, count: nat)
      requires space.Valid() && range + count <= KMAP_PAGES && Populated(space.mem, space.root)
      modifies space`mem
      ensures space.Valid() && Populated(space.mem, space.root)
      ensures Cleared(old(space.mem), space.mem, space.root, range, count)
    {
      hide Walk;
      hide Populated;
      hide Cleared;
      ghost var m0 := space.mem;
      ShownStart(m0, space.root, range, []);
      var i := 0;
      while i < count
        invariant 0 <= i <= count && space.Valid() && Populated(space.mem, space.root)
        invariant Cleared(m0, space.mem, space.root, range, i)
      {
        ghost var m1 := space.mem;
        ClearOne(range + i);
        ClearedStep(m0, m1, space.mem, space.root, range, i);
        i := i + 1;
      }
    }

    /** kunmap of what kmap returned: addresses outside of the window are left alone, a range of the window loses
        exactly its translations and is unused again; its tables stay. */
    method Unmap(addr: nat)
      requires Valid()
      requires KMAP_BEGIN <= addr < KMAP_END ==> addr % PAGE == 0 && (addr - KMAP_BEGIN) / PAGE in ranges.Used()
      modifies this`frames, space`mem, ranges, ranges.tags, ranges.links
      ensures Valid()
      ensures !(KMAP_BEGIN <= addr < KMAP_END) ==>
                frames == old(frames) && ranges.Used() == old(ranges.Used()) && space.mem == old(space.mem)
      ensures KMAP_BEGIN <= addr < KMAP_END ==>
                var range := (addr - KMAP_BEGIN) / PAGE;
                && ranges.Used() == old(ranges.Used()) - {range} && frames == old(frames) - {range}
                && Cleared(old(space.mem), space.mem, space.root, range, old(ranges.Used())[range])
      ensures forall limit: nat |
                limit <= MAX_PMEM_SIZE && DirectMap(old(space.mem), space.root, limit) ::
                DirectMap(space.mem, space.root, limit)
    {
      hide DirectMap;
      hide Walk;
      hide Populated;
      hide Displays;
      hide Cleared;
      if addr < KMAP_BEGIN || addr >= KMAP_END {
        return;
      }
      var range := (addr - KMAP_BEGIN) / PAGE;
      ranges.UsedTag(range);
      var count := ranges.tags[range];
      ghost var used := ranges.Used();
      ClearRun(range, count);
      ClearedOutside(old(space.mem), space.mem, space.root, range, count);
      DirectKept(old(space.mem), space.mem, space.root);
      DisplayLess(old(space.mem), space.mem, space.root, used, frames, range);
      count := ranges.Release(range);
      frames := frames - {range};
    }
  }
}
