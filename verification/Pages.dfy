/** src/memory.c: zones of pages on top of the buddy allocator, and how boot fills them. */
module PageAllocator {
  import opened Powers
  import opened Blocks
  import opened BuddyAllocator
  import opened Intervals
  import Boot = BootAllocator

  /** (a + PAGE_SIZE - 1) & ~PAGE_MASK, as a page number */
  function PageUp(a: nat): nat {
    (a + PAGE - 1) / PAGE
  }

  /** First page that __page_alloc_zone_free gives to a zone: page 0 is never handed out. */
  function FirstFree(a: nat): nat {
    if PageUp(a) == 0 then 1 else PageUp(a)
  }

  /** Rounding the ends of the range to pages does not wrap around. */
  predicate Addressable(begin: int, end: int) {
    begin + PAGE - 1 < Boot.ADDRESS_LIMIT && end < Boot.ADDRESS_LIMIT
  }

  predicate AllAddressable(v: seq<Interval>) {
    forall i | 0 <= i < |v| :: Addressable(v[i].begin, v[i].end)
  }

  /** Every byte of the page lies in one of the intervals. */
  predicate WholePage(v: seq<Interval>, page: int) {
    exists i :: 0 <= i < |v| && PageIn(v[i], page)
  }

  predicate PageIn(v: Interval, page: int) {
    v.begin <= page * PAGE && page * PAGE + PAGE <= v.end
  }

  /** Each free interval lies inside one mapped interval. */
  predicate Inside(free: seq<Interval>, mapped: seq<Interval>) {
    forall i | 0 <= i < |free| :: InsideOne(free[i], mapped)
  }

  predicate InsideOne(v: Interval, mapped: seq<Interval>) {
    exists j :: 0 <= j < |mapped| && mapped[j].begin <= v.begin && v.end <= mapped[j].end
  }

  /** What boot leaves in memory_map and free_ranges meets the demand of page_alloc_setup: its lookups find a zone. */
  lemma {:induction false} BytewiseInside(free: seq<Interval>, mapped: seq<Interval>)
    requires Separated(free) && Separated(mapped) && forall x: int :: Covers(free, x) ==> Covers(mapped, x)
    ensures Inside(free, mapped)
  {
    forall i | 0 <= i < |free|
      ensures InsideOne(free[i], mapped)
    {
      forall y | free[i].begin <= y < free[i].end
        ensures Covers(mapped, y)
      {
        assert Covers(free, y);
      }
      var j := RoomInOne(mapped, free[i].begin, free[i].end - free[i].begin);
    }
  }

  /** What is left of v once every range of `taken` has been allocated from it, one after the other. */
  function Left(v: seq<Interval>, taken: seq<Interval>): seq<Interval> {
    if taken == [] then v
    else
      var last := taken[|taken| - 1];
      Removed(Left(v, taken[..|taken| - 1]), last.begin, last.end)
  }

  lemma {:induction false} LeftIs(v: seq<Interval>, taken: seq<Interval>, x: int)
    requires Separated(v) && forall r | r in taken :: r.begin < r.end
    ensures Separated(Left(v, taken))
    ensures Covers(Left(v, taken), x) <==> Covers(v, x) && forall r | r in taken :: !(r.begin <= x < r.end)
  {
    if taken != [] {
      var t, last := taken[..|taken| - 1], taken[|taken| - 1];
      assert taken == t + [last];
      LeftIs(v, t, x);
      RemovedSeparated(Left(v, t), last.begin, last.end);
      RemovedIsDifference(Left(v, t), last.begin, last.end, x);
    }
  }

  /** What balloc_parse_mmap leaves, whatever the entries, and whatever is allocated from it before page_alloc_setup:
      its lookups find a zone for all that is free. */
  lemma {:induction false} BootMemoryFits(entries: seq<Boot.Entry>, kernel: Boot.Entry, taken: seq<Interval>)
    requires forall e | e in entries + [kernel] :: e.length > 0
    requires forall r | r in taken :: r.begin < r.end
    ensures var mapped := Boot.AddedAll(entries + [kernel]);
      var free := Left(Boot.RemovedAll(mapped, entries + [kernel.(kind := 0)]), taken);
      && Separated(mapped) && Separated(free) && Inside(free, mapped)
      && ((forall e | e in entries + [kernel] :: e.End() + PAGE <= Boot.ADDRESS_LIMIT) ==>
         AllAddressable(mapped) && AllAddressable(free))
  {
    var mapped := Boot.AddedAll(entries + [kernel]);
    var out := entries + [kernel.(kind := 0)];
    var parsed := Boot.RemovedAll(mapped, out);
    var free := Left(parsed, taken);
    Boot.AddedAllCovers(entries + [kernel], 0);
    assert out[|entries|] == kernel.(kind := 0) && forall i | 0 <= i < |entries| :: out[i] == (entries + [kernel])[i];
    assert kernel == (entries + [kernel])[|entries|];
    Boot.RemovedAllSeparated(mapped, out);
    LeftIs(parsed, taken, 0);
    forall x: int
      ensures Covers(free, x) ==> Covers(mapped, x)
    {
      Boot.ParsedSafe(entries, kernel, x);
      LeftIs(parsed, taken, x);
    }
    BytewiseInside(free, mapped);
    if forall e | e in entries + [kernel] :: e.End() + PAGE <= Boot.ADDRESS_LIMIT {
      CoveredAddressable(entries, kernel, mapped);
      CoveredAddressable(entries, kernel, free);
    }
  }

  lemma {:induction false} CoveredAddressable(entries: seq<Boot.Entry>, kernel: Boot.Entry, v: seq<Interval>)
    requires forall e | e in entries + [kernel] :: e.length > 0 && e.End() + PAGE <= Boot.ADDRESS_LIMIT
    requires Separated(v) && forall x: int | Covers(v, x) :: Covers(Boot.AddedAll(entries + [kernel]), x)
    ensures AllAddressable(v)
  {
    forall i | 0 <= i < |v|
      ensures Addressable(v[i].begin, v[i].end)
    {
      assert Covers(v, v[i].end - 1);
      Boot.ParsedSafe(entries, kernel, v[i].end - 1);
    }
  }

  lemma {:induction false} WholePages(v: Interval, page: int)
    requires page >= 0
    ensures PageIn(v, page) <==> PageUp(v.begin) <= page < v.end / PAGE
  {
  }

  /** Strictly separated byte intervals are at least a page apart in whole pages. */
  lemma {:induction false} PagesApart(v: Interval, w: Interval)
    requires v.begin < v.end < w.begin
    ensures v.end / PAGE < FirstFree(w.begin) && v.end / PAGE <= PageUp(w.begin)
    ensures PageUp(v.begin) <= PageUp(w.begin) && FirstFree(v.begin) <= FirstFree(w.begin)
  {
  }

  lemma {:induction false} WholeNone(v: seq<Interval>)
    ensures forall p: int :: !WholePage(v[..0], p)
  {
  }

  lemma {:induction false} WholeStep(v: seq<Interval>, n: nat)
    requires n < |v|
    ensures forall p: int :: WholePage(v[..n + 1], p) <==> WholePage(v[..n], p) || PageIn(v[n], p)
  {
    var s, t := v[..n], v[..n + 1];
    forall p: int
      ensures WholePage(t, p) <==> WholePage(s, p) || PageIn(v[n], p)
    {
      if WholePage(s, p) {
        var i :| 0 <= i < |s| && PageIn(s[i], p);
        assert PageIn(t[i], p);
      }
      if PageIn(v[n], p) {
        assert PageIn(t[n], p);
      }
    }
  }

  lemma {:induction false} WithFirst(v: Interval)
    ensures forall p: int :: p >= 1 && PageIn(v, p) <==> FirstFree(v.begin) <= p < v.end / PAGE
  {
    assert FirstFree(v.begin) >= 1;
    forall p: int
      ensures p >= 1 && PageIn(v, p) <==> FirstFree(v.begin) <= p < v.end / PAGE
    {
      if p >= 1 {
        WholePages(v, p);
      }
    }
  }

  /** The zone of the pages of one mapped interval, when it has any. */
  ghost predicate Zoned(zones: seq<Zone>, v: Interval) {
    PageUp(v.begin) < v.end / PAGE ==> exists k :: 0 <= k < |zones| && ZoneOf(zones[k], v)
  }

  /** The page belongs to a zone. */
  ghost predicate Managed(zones: seq<Zone>, page: int) {
    exists k :: 0 <= k < |zones| && zones[k].begin <= page < zones[k].end
  }

  /** A mapped interval has added its whole pages to the zones. */
  lemma {:induction false} ManagedMore(before: seq<Zone>, after: seq<Zone>, v: Interval)
    requires after == before || (|after| == |before| + 1 && after[..|before|] == before && ZoneOf(after[|before|], v))
    requires after == before ==> PageUp(v.begin) >= v.end / PAGE
    ensures forall p: nat :: Managed(after, p) <==> Managed(before, p) || PageIn(v, p)
  {
    forall p: nat
      ensures Managed(after, p) <==> Managed(before, p) || PageIn(v, p)
    {
      WholePages(v, p);
      if after != before {
        assert forall k | 0 <= k < |before| :: after[k] == before[k];
        if Managed(before, p) {
          var k :| 0 <= k < |before| && before[k].begin <= p < before[k].end;
          assert after[k].begin <= p < after[k].end;
        }
        if PageIn(v, p) {
          assert after[|before|].begin <= p < after[|before|].end;
        }
      }
    }
  }

  ghost predicate ZoneOf(z: Zone, v: Interval) {
    z.begin == PageUp(v.begin) && z.end == v.end / PAGE
  }

  /** The first n mapped intervals have their zones. */
  ghost predicate Begun(zones: seq<Zone>, mapped: seq<Interval>, n: nat) {
    && n <= |mapped|
    && (forall i | 0 <= i < n :: Zoned(zones, mapped[i]))
    && (forall p: nat :: Managed(zones, p) <==> WholePage(mapped[..n], p))
    && (n < |mapped| ==> forall z | z in zones :: z.end <= PageUp(mapped[n].begin))
  }

  lemma {:induction false} NoneBegun(mapped: seq<Interval>)
    ensures Begun([], mapped, 0)
  {
    WholeNone(mapped);
  }

  lemma {:induction false} BegunEnds(zones: seq<Zone>, mapped: seq<Interval>, n: nat)
    requires Begun(zones, mapped, n) && n < |mapped|
    ensures forall i | 0 <= i < |zones| :: zones[i].end <= PageUp(mapped[n].begin)
  {
  }

  lemma {:induction false} AllBegun(zones: seq<Zone>, mapped: seq<Interval>)
    requires Begun(zones, mapped, |mapped|)
    ensures forall i | 0 <= i < |mapped| :: Zoned(zones, mapped[i])
    ensures forall p: nat :: Managed(zones, p) <==> WholePage(mapped, p)
  {
    assert mapped[..|mapped|] == mapped;
  }

  lemma {:induction false} BegunMore(before: seq<Zone>, after: seq<Zone>, mapped: seq<Interval>, n: nat)
    requires Begun(before, mapped, n) && n < |mapped| && Separated(mapped)
    requires PageUp(mapped[n].begin) >= mapped[n].end / PAGE ==> after == before
    requires PageUp(mapped[n].begin) < mapped[n].end / PAGE ==>
               |after| == |before| + 1 && after[..|before|] == before && ZoneOf(after[|before|], mapped[n])
    ensures Begun(after, mapped, n + 1)
  {
    ManagedMore(before, after, mapped[n]);
    WholeStep(mapped, n);
    hide WholePage;
    hide Managed;
    hide PageUp;
    hide PageIn;
    if n + 1 < |mapped| {
      PagesApart(mapped[n], mapped[n + 1]);
    }
    assert forall k | 0 <= k < |before| :: after[k] == before[k];
    assert forall z | z in after :: z in before || z == after[|before|];
    forall i | 0 <= i < n + 1
      ensures Zoned(after, mapped[i])
    {
      if i < n && PageUp(mapped[i].begin) < mapped[i].end / PAGE {
        var k :| 0 <= k < |before| && ZoneOf(before[k], mapped[i]);
        assert ZoneOf(after[k], mapped[i]);
      }
    }
  }

  ghost function Union(s: seq<set<Block>>): set<Block> {
    set i, b | 0 <= i < |s| && b in s[i] :: b
  }

  lemma {:induction false} UnionAdded(s: seq<set<Block>>, k: nat, b: Block)
    requires k < |s| && b !in s[k] && forall j | 0 <= j < |s| && j != k :: b !in s[j]
    ensures b !in Union(s) && Union(s[k := s[k] + {b}]) == Union(s) + {b}
  {
    var t := s[k := s[k] + {b}];
    assert b in t[k];
    assert forall j, c | 0 <= j < |s| && c in s[j] :: c in t[j];
  }

  lemma {:induction false} UnionRemoved(s: seq<set<Block>>, k: nat, b: Block)
    requires k < |s| && forall j | 0 <= j < |s| && j != k :: b !in s[j]
    ensures Union(s[k := s[k] - {b}]) == Union(s) - {b}
  {
    var t := s[k := s[k] - {b}];
    assert forall j, c | 0 <= j < |s| && c in s[j] && c != b :: c in t[j];
  }

  /** page_alloc_zones: the zones in address order. */
  class Pages {
    var zones: seq<Zone>
    ghost var arrays: set<array<Flags>>

    ghost predicate Apart()
      reads this
    {
      && (forall i, j | 0 <= i < j < |zones| ::
            zones[i] != zones[j] && zones[i].flags != zones[j].flags && zones[i].end <= zones[j].begin)
      && (forall i | 0 <= i < |zones| :: zones[i].begin < zones[i].end)
      && (forall z | z in zones :: z.flags in arrays)
    }

    ghost predicate Valid()
      reads this, zones, arrays
    {
      Apart() && forall z | z in zones :: z.Valid() && !Within(z.free, 0) && !Within(z.busy, 0)
    }

    /** The page is free in some zone. */
    ghost predicate FreePage(p: int)
      reads this, zones
    {
      exists i :: 0 <= i < |zones| && Within(zones[i].free, p)
    }

    /** Nothing has been handed out and all free blocks end before page x. */
    ghost predicate FreeBefore(x: nat)
      reads this, zones
    {
      forall i | 0 <= i < |zones| :: zones[i].busy == {} && forall b | b in zones[i].free :: b.End() < x
    }

    constructor ()
      ensures Valid() && zones == [] && arrays == {}
    {
      zones := [];
      arrays := {};
    }

    /** page_alloc_zone_find */
    method Find(idx: nat) returns (found: bool, k: nat)
      requires Apart()
      ensures found ==> k < |zones| && zones[k].begin <= idx < zones[k].end
      ensures !found ==> forall i | 0 <= i < |zones| :: !(zones[i].begin <= idx < zones[i].end)
    {
      k := 0;
      while k < |zones|
        invariant 0 <= k <= |zones|
        invariant forall i | 0 <= i < k :: !(zones[i].begin <= idx < zones[i].end)
      {
        if zones[k].begin <= idx < zones[k].end {
          return true, k;
        }
        k := k + 1;
      }
      return false, 0;
    }

    /** list_add_tail of a zone */
    method Push(zone: Zone)
      requires Valid() && zone.Valid() && zone.begin < zone.end && zone.free == zone.busy == {}
      requires zone !in zones && zone.flags !in arrays && forall z | z in zones :: z.end <= zone.begin
      modifies this
      ensures Valid() && zones == old(zones) + [zone] && arrays == old(arrays) + {zone.flags}
    {
      hide Zone.Holds;
      assert !Within({}, 0);
      zones := zones + [zone];
      arrays := arrays + {zone.flags};
    }

    /** __page_alloc_zone_setup: the whole pages of a mapped range, beyond all zones, become a zone. */
    method AddZone(zbegin: nat, zend: nat)
      requires Valid() && FreeBefore(0) && Addressable(zbegin, zend)
      requires forall i | 0 <= i < |zones| :: zones[i].end <= PageUp(zbegin)
      modifies this
      ensures Valid() && FreeBefore(0)
      ensures fresh(set i | |old(zones)| <= i < |zones| :: zones[i]) && fresh(arrays - old(arrays))
      ensures PageUp(zbegin) >= zend / PAGE ==> zones == old(zones)
      ensures PageUp(zbegin) < zend / PAGE ==>
                |zones| == |old(zones)| + 1 && zones[..|old(zones)|] == old(zones)
                  && ZoneOf(zones[|old(zones)|], Interval(zbegin, zend))
    {
      var begin, end := PageUp(zbegin), zend / PAGE;
      if begin >= end {
        return;
      }
      hide Zone.Valid;
      hide Within;
      var zone := new Zone(begin, end);
      Push(zone);
      assert ZoneOf(zones[|zones| - 1], Interval(zbegin, zend));
    }

    /** The other zones and what they hold stay as they were. */
    twostate predicate OnlyAt(k: nat)
      requires k < |zones|
      reads this, zones
    {
      zones == old(zones) && forall i | 0 <= i < |zones| && i != k ::
        zones[i].free == old(zones[i].free) && zones[i].busy == old(zones[i].busy)
    }

    method ReleaseAt(k: nat, first: nat, last: nat)
      requires Valid() && k < |zones| && FreeBefore(first) && 1 <= first
                 && zones[k].begin <= first < last <= zones[k].end
      modifies zones[k], zones[k].flags
      ensures Valid() && OnlyAt(k) && zones[k].busy == old(zones[k].busy)
      ensures forall b | b in zones[k].free :: b.End() <= last
      ensures forall p: int :: Within(zones[k].free, p) <==> Within(old(zones[k].free), p) || first <= p < last
    {
      hide Zone.Holds;
      hide Within;
      assert zones[k] in zones;
      zones[k].Release(first, last);
      assert forall z | z in zones && z != zones[k] :: z.free == old(z.free) && z.busy == old(z.busy) && z.Valid();
    }

    /** __page_alloc_zone_free */
    method FreeRange(zbegin: nat, zend: nat)
      requires Valid() && FreeBefore(FirstFree(zbegin)) && Addressable(zbegin, zend)
      requires FirstFree(zbegin) < zend / PAGE ==>
                 exists i :: 0 <= i < |zones| && zones[i].begin <= FirstFree(zbegin) && zend / PAGE <= zones[i].end
      modifies zones, arrays
      ensures Valid()
      ensures forall x: nat | x >= FirstFree(zbegin) && x > zend / PAGE :: FreeBefore(x)
      ensures forall p: int :: FreePage(p) <==> old(FreePage(p)) || FirstFree(zbegin) <= p < zend / PAGE
    {
      hide Zone.Holds;
      hide Within;
      hide Zone.Valid;
      hide FreePage;
      var begin, end := FirstFree(zbegin), zend / PAGE;
      if begin >= end {
        return;
      }
      var found, k := Find(begin);
      assert found && end <= zones[k].end;
      ReleaseIn(k, begin, end);
    }

    /** Pages that go to one zone are free in all of them. */
    method ReleaseIn(k: nat, first: nat, last: nat)
      requires Valid() && k < |zones| && FreeBefore(first) && 1 <= first
                 && zones[k].begin <= first < last <= zones[k].end
      modifies zones[k], zones[k].flags
      ensures Valid() && forall x: nat | x > last :: FreeBefore(x)
      ensures forall p: int :: FreePage(p) <==> old(FreePage(p)) || first <= p < last
    {
      hide Valid;
      hide Within;
      ReleaseAt(k, first, last);
    }

    /** page_alloc_setup: a zone for the pages of each mapped interval, then the free intervals go to their zones.
        Exactly the whole pages of free memory, other than page 0, are free afterwards. */
    method Setup(mapped: seq<Interval>, free: seq<Interval>)
      requires zones == [] && arrays == {} && Separated(mapped) && Separated(free) && Inside(free, mapped)
      requires AllAddressable(mapped) && AllAddressable(free)
      modifies this
      ensures Valid() && fresh(zones) && fresh(arrays) && NoneBusy()
      ensures forall p: nat :: Managed(zones, p) <==> WholePage(mapped, p)
      ensures forall p: int :: FreePage(p) <==> p >= 1 && WholePage(free, p)
    {
      AddZones(mapped);
      FreeAll(mapped, free);
    }

    /** The first loop of page_alloc_setup. */
    method AddZones(mapped: seq<Interval>)
      requires zones == [] && arrays == {} && Separated(mapped) && AllAddressable(mapped)
      modifies this
      ensures Valid() && FreeBefore(0) && fresh(zones) && fresh(arrays)
      ensures forall i | 0 <= i < |mapped| :: Zoned(zones, mapped[i])
      ensures forall p: nat :: Managed(zones, p) <==> WholePage(mapped, p)
    {
      hide Zone.Valid;
      hide Within;
      hide Begun;
      NoneBegun(mapped);
      var n := 0;
      while n < |mapped|
        invariant 0 <= n <= |mapped| && Valid() && FreeBefore(0) && Begun(zones, mapped, n)
        invariant fresh(zones) && fresh(arrays)
      {
        ghost var before := zones;
        BegunEnds(zones, mapped, n);
        AddZone(mapped[n].begin, mapped[n].end);
        BegunMore(before, zones, mapped, n);
        n := n + 1;
      }
      AllBegun(zones, mapped);
    }

    /** The second loop of page_alloc_setup. */
    method FreeAll(mapped: seq<Interval>, free: seq<Interval>)
      requires Valid() && FreeBefore(0) && Separated(mapped) && Separated(free) && Inside(free, mapped)
                 && AllAddressable(free)
      requires forall i | 0 <= i < |mapped| :: Zoned(zones, mapped[i])
      modifies zones, arrays
      ensures Valid() && zones == old(zones) && NoneBusy()
      ensures forall p: int :: FreePage(p) <==> p >= 1 && WholePage(free, p)
    {
      NothingYet();
      WholeNone(free);
      hide *;
      var n := 0;
      while n < |free|
        invariant 0 <= n <= |free| && Valid() && zones == old(zones) && NoneBusy()
        invariant n < |free| ==> FreeBefore(FirstFree(free[n].begin))
        invariant forall p: int :: FreePage(p) <==> p >= 1 && WholePage(free[..n], p)
      {
        FreeNext(mapped, free, n);
        n := n + 1;
      }
      assert free[..n] == free;
    }

    method FreeNext(mapped: seq<Interval>, free: seq<Interval>, n: nat)
      requires Valid() && n < |free| && FreeBefore(FirstFree(free[n].begin))
      requires Separated(free) && Inside(free, mapped) && AllAddressable(free)
                 && forall i | 0 <= i < |mapped| :: Zoned(zones, mapped[i])
      modifies zones, arrays
      ensures Valid() && NoneBusy() && (n + 1 < |free| ==> FreeBefore(FirstFree(free[n + 1].begin)))
      ensures old(forall p: int :: FreePage(p) <==> p >= 1 && WholePage(free[..n], p)) ==>
                forall p: int :: FreePage(p) <==> p >= 1 && WholePage(free[..n + 1], p)
    {
      hide Zone.Valid;
      ZoneOfFree(mapped, free, n);
      WholeStep(free, n);
      WithFirst(free[n]);
      if n + 1 < |free| {
        PagesApart(free[n], free[n + 1]);
      }
      assert Addressable(free[n].begin, free[n].end);
      hide *;
      FreeRange(free[n].begin, free[n].end);
      Bounded(FirstFree(free[n].begin) + free[n].end / PAGE + 1);
    }

    ghost predicate NoneBusy()
      reads this, zones
    {
      forall z | z in zones :: z.busy == {}
    }

    lemma Bounded(x: nat)
      requires FreeBefore(x)
      ensures NoneBusy()
    {
    }

    lemma NothingYet()
      requires FreeBefore(0)
      ensures NoneBusy() && forall p: int :: !FreePage(p)
      ensures forall x: nat :: FreeBefore(x)
    {
      assert forall z | z in zones :: z.free == {} by {
        forall z | z in zones
          ensures z.free == {}
        {
          assert forall b | b in z.free :: b.End() < 0;
          assert forall b: Block :: b.End() >= 0;
        }
      }
    }

    lemma ZoneOfFree(mapped: seq<Interval>, free: seq<Interval>, n: nat)
      requires n < |free| && Inside(free, mapped) && forall i | 0 <= i < |mapped| :: Zoned(zones, mapped[i])
      ensures var v := free[n];
        FirstFree(v.begin) < v.end / PAGE ==>
          exists i :: 0 <= i < |zones| && zones[i].begin <= FirstFree(v.begin) && v.end / PAGE <= zones[i].end
    {
      var v := free[n];
      assert InsideOne(v, mapped);
      var j :| 0 <= j < |mapped| && mapped[j].begin <= v.begin && v.end <= mapped[j].end;
      assert PageUp(mapped[j].begin) <= PageUp(v.begin) && v.end / PAGE <= mapped[j].end / PAGE;
      assert Zoned(zones, mapped[j]);
      if FirstFree(v.begin) < v.end / PAGE {
        var k :| 0 <= k < |zones| && ZoneOf(zones[k], mapped[j]);
      }
    }

    method AllocAt(k: nat, order: nat) returns (found: bool, idx: nat)
      requires Valid() && k < |zones| && order <= MAX_ORDER
      modifies zones[k], zones[k].flags
      ensures Valid() && OnlyAt(k)
      ensures !found ==> (forall i: nat :: !FreeRun(old(zones[k].free), i, order))
                         && zones[k].free == old(zones[k].free) && zones[k].busy == old(zones[k].busy)
      ensures found ==>
                && idx >= 1 && FreeRun(old(zones[k].free), idx, order)
                && zones[k].busy == old(zones[k].busy) + {Block(idx, order)} && Block(idx, order) !in old(zones[k].busy)
                && SamePages(zones[k].free + {Block(idx, order)}, old(zones[k].free))
    {
      hide Zone.Holds;
      assert zones[k] in zones;
      ghost var list;
      found, idx, list := zones[k].Alloc(order);
      assert forall z | z in zones && z != zones[k] :: z.free == old(z.free) && z.busy == old(z.busy) && z.Valid();
    }

    /** No zone has an aligned run of 2^order free pages, or the order is too large. */
    ghost predicate NoRun(order: nat)
      reads this, zones
    {
      order > MAX_ORDER || forall j, i: nat | 0 <= j < |zones| :: !FreeRun(zones[j].free, i, order)
    }

    /** page_alloc: the address of a block of 2^order free pages, from the first zone that has one; 0 exactly when
        no zone has an aligned run of that many free pages. */
    method Alloc(order: nat) returns (addr: nat, ghost k: nat)
      requires Valid()
      modifies zones, arrays
      ensures Valid() && zones == old(zones)
      ensures addr == 0 ==>
                (forall j | 0 <= j < |zones| ::
                  zones[j].free == old(zones[j].free) && zones[j].busy == old(zones[j].busy))
      ensures addr == 0 <==> old(NoRun(order))
      ensures addr != 0 ==>
                && order <= MAX_ORDER && k < |zones| && OnlyAt(k) && addr % PAGE == 0
                && FreeRun(old(zones[k].free), addr / PAGE, order)
                && (forall j, i: nat | 0 <= j < k :: !FreeRun(old(zones[j].free), i, order))
                && zones[k].busy == old(zones[k].busy) + {Block(addr / PAGE, order)}
                && Block(addr / PAGE, order) !in old(zones[k].busy)
                && SamePages(zones[k].free + {Block(addr / PAGE, order)}, old(zones[k].free))
    {
      hide Valid;
      hide FreeRun;
      hide SamePages;
      if order > MAX_ORDER {
        return 0, 0;
      }
      var found, idx, n := FirstZone(order);
      return if found then idx * PAGE else 0, n;
    }

    /** The loop of page_alloc */
    method FirstZone(order: nat) returns (found: bool, idx: nat, n: nat)
      requires Valid() && order <= MAX_ORDER
      modifies zones, arrays
      ensures Valid() && zones == old(zones)
      ensures !found ==> forall j | 0 <= j < |zones| ::
                           && zones[j].free == old(zones[j].free) && zones[j].busy == old(zones[j].busy)
                           && forall i: nat :: !FreeRun(old(zones[j].free), i, order)
      ensures found ==>
                && n < |zones| && OnlyAt(n) && idx >= 1 && FreeRun(old(zones[n].free), idx, order)
                && (forall j, i: nat | 0 <= j < n :: !FreeRun(old(zones[j].free), i, order))
                && zones[n].busy == old(zones[n].busy) + {Block(idx, order)} && Block(idx, order) !in old(zones[n].busy)
                && SamePages(zones[n].free + {Block(idx, order)}, old(zones[n].free))
    {
      hide Zone.Holds;
      hide Zone.Valid;
      hide Within;
      hide FreeRun;
      hide SamePages;
      found, idx, n := false, 0, 0;
      while n < |zones|
        invariant 0 <= n <= |zones| && Valid() && zones == old(zones) && !found
        invariant forall j | 0 <= j < |zones| ::
                    zones[j].free == old(zones[j].free) && zones[j].busy == old(zones[j].busy)
        invariant forall j, i: nat | 0 <= j < n :: !FreeRun(old(zones[j].free), i, order)
      {
        found, idx := AllocAt(n, order);
        if found {
          return;
        }
        n := n + 1;
      }
    }

    method FreeAt(k: nat, idx: nat, order: nat)
      requires Valid() && k < |zones| && Block(idx, order) in zones[k].busy
      modifies zones[k], zones[k].flags
      ensures Valid() && OnlyAt(k)
      ensures zones[k].busy == old(zones[k].busy) - {Block(idx, order)}
      ensures SamePages(zones[k].free, old(zones[k].free) + {Block(idx, order)})
    {
      hide Zone.Holds;
      assert zones[k] in zones;
      zones[k].Free(idx, order);
      assert forall z | z in zones && z != zones[k] :: z.free == old(z.free) && z.busy == old(z.busy) && z.Valid();
    }

    /** page_free of a block that page_alloc returned. */
    method Free(addr: nat, order: nat, ghost k: nat)
      requires Valid() && addr % PAGE == 0
      requires addr != 0 ==> k < |zones| && Block(addr / PAGE, order) in zones[k].busy
      modifies zones, arrays
      ensures Valid() && zones == old(zones)
      ensures addr == 0 ==> forall j | 0 <= j < |zones| ::
                zones[j].free == old(zones[j].free) && zones[j].busy == old(zones[j].busy)
      ensures addr != 0 ==>
                && OnlyAt(k) && zones[k].busy == old(zones[k].busy) - {Block(addr / PAGE, order)}
                && SamePages(zones[k].free, old(zones[k].free) + {Block(addr / PAGE, order)})
    {
      if addr == 0 {
        return;
      }
      var idx := addr / PAGE;
      var found, n := Find(idx);
      assert found && n == k;
      FreeAt(n, idx, order);
    }

    ghost function BusySets(): seq<set<Block>>
      reads this, zones
    {
      seq(|zones|, i requires 0 <= i < |zones| reads this, zones => zones[i].busy)
    }

    /** The blocks in use in all zones. */
    ghost function AllBusy(): set<Block>
      reads this, zones
    {
      Union(BusySets())
    }

    lemma BusyPlaced(i: nat)
      requires Valid() && i < |zones|
      ensures forall b | b in zones[i].busy :: Placed(b, zones[i].begin, zones[i].end) && b.idx >= 1
    {
      assert zones[i] in zones;
      forall b | b in zones[i].busy
        ensures Placed(b, zones[i].begin, zones[i].end) && b.idx >= 1
      {
        assert b.Has(b.idx);
      }
    }

    /** Blocks in use are naturally aligned, pairwise disjoint, and never hold page 0. */
    lemma BusyApart()
      requires Valid()
      ensures Disjoint(AllBusy())
                && forall b | b in AllBusy() :: Aligned(b.idx, b.order) && b.order <= MAX_ORDER && b.idx >= 1
    {
      forall b | b in AllBusy()
        ensures Aligned(b.idx, b.order) && b.order <= MAX_ORDER && b.idx >= 1
      {
        var i :| 0 <= i < |zones| && b in zones[i].busy;
        BusyPlaced(i);
      }
      forall b, c | b in AllBusy() && c in AllBusy() && b != c
        ensures !Overlap(b, c)
      {
        var i :| 0 <= i < |zones| && b in zones[i].busy;
        var j :| 0 <= j < |zones| && c in zones[j].busy;
        ZonesApart(i, j, b, c);
      }
    }

    lemma ZonesApart(i: nat, j: nat, b: Block, c: Block)
      requires Valid() && i < |zones| && j < |zones| && b in zones[i].busy && c in zones[j].busy && b != c
      ensures !Overlap(b, c)
    {
      BusyPlaced(i);
      BusyPlaced(j);
      assert zones[i] in zones;
      assert i == j ==> zones[i].Valid();
    }

    /** A block of zone k is a block of no other zone. */
    lemma InOneZone(k: nat, b: Block)
      requires Valid() && k < |zones| && Placed(b, zones[k].begin, zones[k].end)
      ensures forall j | 0 <= j < |zones| && j != k :: b !in BusySets()[j]
    {
      forall j | 0 <= j < |zones| && j != k
        ensures b !in zones[j].busy
      {
        BusyPlaced(j);
      }
    }

    /** __page_alloc */
    method AllocPages(order: nat) returns (found: bool, idx: nat)
      requires Valid()
      modifies zones, arrays
      ensures Valid() && zones == old(zones)
      ensures found <==> !old(NoRun(order))
      ensures !found ==> AllBusy() == old(AllBusy())
      ensures found ==>
                && order <= MAX_ORDER && idx >= 1 && Block(idx, order) !in old(AllBusy())
                && AllBusy() == old(AllBusy()) + {Block(idx, order)}
    {
      hide NoRun;
      hide FreeRun;
      hide SamePages;
      hide Valid;
      ghost var sets := BusySets();
      var addr, k := Alloc(order);
      found, idx := addr != 0, addr / PAGE;
      if found {
        assert forall j | 0 <= j < |zones| && j != k :: zones[j].busy == sets[j];
        BusyMore(sets, k, Block(idx, order));
      } else {
        assert BusySets() == sets;
      }
    }

    lemma BusyMore(sets: seq<set<Block>>, k: nat, b: Block)
      requires Valid() && |sets| == |zones| && k < |zones| && zones[k].busy == sets[k] + {b} && b !in sets[k]
      requires forall j | 0 <= j < |zones| && j != k :: zones[j].busy == sets[j]
      ensures b.idx >= 1 && b !in Union(sets) && AllBusy() == Union(sets) + {b}
    {
      BusyPlaced(k);
      InOneZone(k, b);
      hide Valid;
      assert BusySets() == sets[k := sets[k] + {b}];
      UnionAdded(sets, k, b);
    }

    lemma BusyZone(b: Block) returns (k: nat)
      requires Valid() && b in AllBusy()
      ensures k < |zones| && b in zones[k].busy && b in BusySets()[k] && b.idx >= 1
      ensures forall j | 0 <= j < |zones| && j != k :: b !in BusySets()[j]
    {
      k :| 0 <= k < |zones| && b in zones[k].busy;
      BusyPlaced(k);
      InOneZone(k, b);
    }

    /** __page_free */
    method FreePages(idx: nat, order: nat)
      requires Valid() && Block(idx, order) in AllBusy()
      modifies zones, arrays
      ensures Valid() && zones == old(zones) && arrays == old(arrays)
                && AllBusy() == old(AllBusy()) - {Block(idx, order)}
    {
      hide Zone.Valid;
      hide SamePages;
      ghost var k := BusyZone(Block(idx, order));
      ghost var sets := BusySets();
      Free(idx * PAGE, order, k);
      assert BusySets() == sets[k := sets[k] - {Block(idx, order)}];
      UnionRemoved(sets, k, Block(idx, order));
    }
  }
}
