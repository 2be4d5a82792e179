/** Four-level page tables as values: what the hardware walk of src/paging.c's tables yields, and what keeps it. */
module PageTables {
  import opened Powers

  /** The bits of a pte_t outside of PTE_PHYS_MASK that the code uses. */
  datatype Bits = Bits(present: bool, write: bool, user: bool, large: bool)

  /** A pte_t: addr is what PTE_PHYS_MASK selects. */
  datatype Pte = Pte(addr: nat, bits: Bits)

  /** Where an address leads, and whether all entries on the way allow writing and user access. */
  datatype Translation = Unmapped | Mapped(phys: nat, write: bool, user: bool)

  /** Where a table sits: its level, and the address bits above it. */
  datatype Where = Where(level: nat, prefix: nat)

  /** The tables in memory: physical page to entries. */
  type Memory = map<nat, seq<Pte>>

  const ENTRIES: nat := 512
  const NO_BITS := Bits(false, false, false, false)
  const ZERO := Pte(0, NO_BITS)

  /** pml_size: what one entry of a table of this level covers. */
  function Size(level: nat): (s: nat)
    ensures s > 0
  {
    if level <= 1 then 4096 else 512 * Size(level - 1)
  }

  /** pml_offs */
  function Offs(v: nat, level: nat): (i: nat)
    ensures i < ENTRIES
  {
    v / Size(level) % 512
  }

  /** Bit 7 selects a large page at levels 2 and 3 only. */
  predicate IsLeaf(e: Pte, level: nat) {
    e.bits.present && (level == 1 || (level <= 3 && e.bits.large))
  }

  predicate IsTable(e: Pte, level: nat) {
    e.bits.present && !IsLeaf(e, level)
  }

  function Limited(x: Translation, bits: Bits): Translation {
    if x.Unmapped? then x else Mapped(x.phys, x.write && bits.write, x.user && bits.user)
  }

  /** 4-level paging, section 4.5 of the Intel SDM volume 3A, from a table of the given level down. */
  function Walk(mem: Memory, t: nat, level: nat, v: nat): Translation
    decreases level
  {
    if level == 0 || t !in mem || |mem[t]| != ENTRIES then
      Unmapped
    else
      var e := mem[t][Offs(v, level)];
      if !e.bits.present then Unmapped
      else if IsLeaf(e, level) then Mapped(e.addr + v % Size(level), e.bits.write, e.bits.user)
      else Limited(Walk(mem, e.addr, level - 1, v), e.bits)
  }

  /** The walk for v finds tables down to level 1. */
  predicate Reaches(mem: Memory, t: nat, level: nat, v: nat)
    decreases level
  {
    && level >= 1 && t in mem && |mem[t]| == ENTRIES
    && (level == 1 || (IsTable(mem[t][Offs(v, level)], level)
       && Reaches(mem, mem[t][Offs(v, level)].addr, level - 1, v)))
  }

  predicate TableOk(mem: Memory, loc: map<nat, Where>, t: nat)
    requires t in mem && t in loc
  {
    && 1 <= loc[t].level <= 4 && |mem[t]| == ENTRIES
    && forall i | 0 <= i < ENTRIES && IsTable(mem[t][i], loc[t].level) ::
         mem[t][i].bits.write && mem[t][i].bits.user && mem[t][i].addr in loc
           && loc[mem[t][i].addr] == Where(loc[t].level - 1, loc[t].prefix * 512 + i)
  }

  /** Every table has one place, and is entered only from the entry that belongs to it. */
  predicate Tree(mem: Memory, loc: map<nat, Where>) {
    mem.Keys == loc.Keys && forall t | t in loc :: TableOk(mem, loc, t)
  }

  /** v is among the addresses of the table placed there. */
  predicate Holds(w: Where, v: nat) {
    v / Size(w.level + 1) == w.prefix
  }

  // ----- arithmetic -----

  lemma {:induction false} DivDiv(v: nat, d: nat)
    requires d > 0
    ensures v / d / 512 == v / (512 * d)
  {
    var q, r := v / d, v % d;
    assert v == q * d + r;
    var q2, r2 := q / 512, q % 512;
    assert q * d == (q2 * 512 + r2) * d == q2 * (512 * d) + r2 * d;
    assert r2 <= 511;
    assert r2 * d <= 511 * d by { Scale(511 - r2, d); assert (511 - r2) * d == 511 * d - r2 * d; }
    DivisionUnique(v, 512 * d, q2, r2 * d + r);
  }

  /** One more index below the prefix. */
  lemma {:induction false} PrefixStep(v: nat, level: nat)
    requires level >= 1
    ensures v / Size(level) == v / Size(level + 1) * 512 + Offs(v, level)
  {
    DivDiv(v, Size(level));
  }

  /** The table below, seen from the entry that v selects. */
  lemma {:induction false} ChildHolds(w: Where, v: nat)
    requires Holds(w, v) && w.level >= 1
    ensures Holds(Where(w.level - 1, w.prefix * 512 + Offs(v, w.level)), v)
  {
    PrefixStep(v, w.level);
  }

  /** Drops the last d indices of a prefix. */
  function Drop(n: int, d: nat): int
    decreases d
  {
    if d == 0 then n else Drop(n / 512, d - 1)
  }

  /** The addresses of w lie among those of u. */
  predicate Under(w: Where, u: Where) {
    w.level <= u.level && Drop(w.prefix, u.level - w.level) == u.prefix
  }

  lemma {:induction false} DropPrefix(v: nat, level: nat, d: nat)
    requires level >= 1
    ensures Drop(v / Size(level), d) == v / Size(level + d)
    decreases d
  {
    if d > 0 {
      DivDiv(v, Size(level));
      DropPrefix(v, level + 1, d - 1);
    }
  }

  lemma {:induction false} UnderHolds(w: Where, u: Where, v: nat)
    requires Under(w, u) && Holds(w, v)
    ensures Holds(u, v)
  {
    DropPrefix(v, w.level + 1, u.level - w.level);
  }

  lemma {:induction false} DropLast(n: nat, d: nat)
    ensures Drop(n, d + 1) == Drop(n, d) / 512
    decreases d
  {
    if d > 0 {
      DropLast(n / 512, d - 1);
    }
  }

  /** What is under a child is under its parent. */
  lemma {:induction false} UnderChild(w: Where, level: nat, n: nat, i: nat)
    requires Under(w, Where(level, n * 512 + i)) && i < ENTRIES
    ensures Under(w, Where(level + 1, n))
  {
    DropLast(w.prefix, level - w.level);
    DivisionUnique(n * 512 + i, 512, n, i);
  }

  // ----- what a walk depends on -----

  /** A walk depends only on the tables that hold its address. */
  lemma {:induction false} WalkSame(mem: Memory, mem': Memory, loc: map<nat, Where>, t: nat, v: nat)
    requires Tree(mem, loc) && t in loc && Holds(loc[t], v)
    requires forall p | p in loc && loc[p].level <= loc[t].level && Holds(loc[p], v) :: p in mem' && mem'[p] == mem[p]
    ensures Walk(mem', t, loc[t].level, v) == Walk(mem, t, loc[t].level, v)
    ensures Reaches(mem', t, loc[t].level, v) == Reaches(mem, t, loc[t].level, v)
    decreases loc[t].level
  {
    hide Holds;
    hide Tree;
    var l := loc[t].level;
    assert TableOk(mem, loc, t) by { TreeAt(mem, loc, t); }
    var e := mem[t][Offs(v, l)];
    if IsTable(e, l) {
      ChildHolds(loc[t], v);
      WalkSame(mem, mem', loc, e.addr, v);
    }
  }

  lemma {:induction false} TreeAt(mem: Memory, loc: map<nat, Where>, t: nat)
    requires Tree(mem, loc) && t in loc
    ensures t in mem && TableOk(mem, loc, t)
  {
  }

  // ----- what changes a walk -----

  /** What a call has to do from a table down: addresses from..to get phys upwards, or tables without mappings. */
  datatype Job = Job(from: nat, to: nat, phys: nat, bits: Bits)

  function Wanted(job: Job, before: Translation, v: nat): Translation {
    if !(job.from <= v < job.to) then before
      else if job.bits.present then Mapped(job.phys + (v - job.from), job.bits.write, job.bits.user) else Unmapped
  }

  /** Seen from table t, the job is done and everything else is as before; a walk that found all its tables still
      does. */
  ghost predicate Done(before: Memory, after: Memory, t: nat, w: Where, job: Job) {
    forall v: nat | Holds(w, v) ::
      && Walk(after, t, w.level, v) == Wanted(job, Walk(before, t, w.level, v), v)
      && (Reaches(before, t, w.level, v) ==> Reaches(after, t, w.level, v))
      && (!job.bits.large && job.from <= v < job.to ==> Reaches(after, t, w.level, v))
  }

  ghost predicate UnmappedIn(mem: Memory, t: nat, w: Where, from: nat, to: nat) {
    forall v: nat | Holds(w, v) && from <= v < to :: Walk(mem, t, w.level, v) == Unmapped
  }

  ghost predicate ReachesIn(mem: Memory, t: nat, w: Where, from: nat, to: nat) {
    forall v: nat | Holds(w, v) && from <= v < to :: Reaches(mem, t, w.level, v)
  }

  ghost predicate Extends(before: map<nat, Where>, after: map<nat, Where>) {
    forall p | p in before :: p in after && after[p] == before[p]
  }

  /** Of the old tables only those under w have changed. */
  ghost predicate OnlyUnder(before: Memory, after: Memory, loc: map<nat, Where>, w: Where) {
    forall p | p in loc && !Under(loc[p], w) :: p in before && p in after && after[p] == before[p]
  }

  /** An absent entry becomes a leaf, or gets a value that is still absent. */
  lemma {:induction false} LeafStep(mem: Memory, loc: map<nat, Where>, t: nat, i: nat, e: Pte, v: nat)
    requires Tree(mem, loc) && t in loc && Holds(loc[t], v) && i < ENTRIES && !mem[t][i].bits.present
    requires IsLeaf(e, loc[t].level) || !e.bits.present
    ensures var l := loc[t].level; var mem' := mem[t := mem[t][i := e]];
      && (Offs(v, l) != i ==> Walk(mem', t, l, v) == Walk(mem, t, l, v))
      && (Offs(v, l) == i ==> Walk(mem', t, l, v) == if e.bits.present
         then Mapped(e.addr + v % Size(l), e.bits.write, e.bits.user) else Unmapped)
      && (Reaches(mem, t, l, v) ==> Reaches(mem', t, l, v)) && (l == 1 ==> Reaches(mem', t, l, v))
  {
    TreeAt(mem, loc, t);
    hide Tree;
    hide Holds;
    var l, mem' := loc[t].level, mem[t := mem[t][i := e]];
    var f := mem[t][Offs(v, l)];
    if IsTable(f, l) {
      ChildHolds(loc[t], v);
      WalkSame(mem, mem', loc, f.addr, v);
    }
  }

  lemma {:induction false} LeafTree(mem: Memory, loc: map<nat, Where>, t: nat, i: nat, e: Pte)
    requires Tree(mem, loc) && t in loc && i < ENTRIES && !mem[t][i].bits.present
    requires IsLeaf(e, loc[t].level) || !e.bits.present
    ensures Tree(mem[t := mem[t][i := e]], loc)
  {
    var mem' := mem[t := mem[t][i := e]];
    forall p | p in loc
      ensures TableOk(mem', loc, p)
    {
      assert TableOk(mem, loc, p);
    }
  }

  function NewTable(): seq<Pte> {
    seq(ENTRIES, _ => ZERO)
  }

  const TABLE_BITS := Bits(true, true, true, false)

  /** A zeroed page becomes the table of an absent entry: no translation changes. */
  lemma {:induction false} TableStep(mem: Memory, loc: map<nat, Where>, t: nat, i: nat, page: nat, v: nat)
    requires Tree(mem, loc) && t in loc && Holds(loc[t], v) && i < ENTRIES && !mem[t][i].bits.present
    requires page !in loc && loc[t].level >= 2
    ensures var l := loc[t].level; var mem' := mem[page := NewTable()][t := mem[t][i := Pte(page, TABLE_BITS)]];
      Walk(mem', t, l, v) == Walk(mem, t, l, v) && (Reaches(mem, t, l, v) ==> Reaches(mem', t, l, v))
  {
    TreeAt(mem, loc, t);
    var l, mem' := loc[t].level, mem[page := NewTable()][t := mem[t][i := Pte(page, TABLE_BITS)]];
    var f := mem[t][Offs(v, l)];
    assert mem'[t] == mem[t][i := Pte(page, TABLE_BITS)];
    if IsTable(f, l) {
      ChildHolds(loc[t], v);
      hide Tree;
      hide Holds;
      WalkSame(mem, mem', loc, f.addr, v);
    } else if Offs(v, l) == i {
      assert mem'[page] == NewTable();
      assert Walk(mem', page, l - 1, v) == Unmapped;
    }
  }

  lemma {:induction false} TableTree(mem: Memory, loc: map<nat, Where>, t: nat, i: nat, page: nat)
    requires Tree(mem, loc) && t in loc && i < ENTRIES && !mem[t][i].bits.present
    requires page !in loc && loc[t].level >= 2
    ensures Tree(mem[page := NewTable()][t := mem[t][i := Pte(page, TABLE_BITS)]],
                 loc[page := Where(loc[t].level - 1, loc[t].prefix * 512 + i)])
  {
    var mem' := mem[page := NewTable()][t := mem[t][i := Pte(page, TABLE_BITS)]];
    var loc' := loc[page := Where(loc[t].level - 1, loc[t].prefix * 512 + i)];
    assert mem'.Keys == loc'.Keys;
    forall p | p in loc'
      ensures TableOk(mem', loc', p)
    {
      if p != page {
        assert TableOk(mem, loc, p);
      }
    }
  }

  /** A call for the table of entry i does for t what it does for that table. */
  lemma {:induction false} ChildStep(mem: Memory, mem': Memory, loc: map<nat, Where>, t: nat, i: nat, v: nat)
    requires Tree(mem, loc) && t in loc && Holds(loc[t], v) && i < ENTRIES && IsTable(mem[t][i], loc[t].level)
    requires OnlyUnder(mem, mem', loc, Where(loc[t].level - 1, loc[t].prefix * 512 + i))
    ensures var l, c := loc[t].level, mem[t][i].addr;
      && t in mem' && mem'[t] == mem[t] && l >= 2
      && (Offs(v, l) != i ==>
            && Walk(mem', t, l, v) == Walk(mem, t, l, v)
            && Reaches(mem', t, l, v) == Reaches(mem, t, l, v))
      && (Offs(v, l) == i ==>
            && Walk(mem, t, l, v) == Walk(mem, c, l - 1, v) && Walk(mem', t, l, v) == Walk(mem', c, l - 1, v)
            && Reaches(mem, t, l, v) == Reaches(mem, c, l - 1, v)
               && Reaches(mem', t, l, v) == Reaches(mem', c, l - 1, v))
  {
    TreeAt(mem, loc, t);
    var w := Where(loc[t].level - 1, loc[t].prefix * 512 + i);
    assert !Under(loc[t], w);
    var l := loc[t].level;
    if Offs(v, l) != i {
      PrefixStep(v, l);
      assert !Holds(w, v);
      forall p | p in loc && Holds(loc[p], v)
        ensures p in mem' && mem'[p] == mem[p]
      {
        if Under(loc[p], w) {
          UnderHolds(loc[p], w, v);
        }
      }
      hide Tree;
      hide Holds;
      WalkSame(mem, mem', loc, t, v);
    }
  }

  // ----- jobs -----

  lemma {:induction false} DivMonotone(a: nat, b: nat, d: nat)
    requires a <= b && d > 0
    ensures a / d <= b / d
  {
    var p, q := a / d, b / d;
    assert a == p * d + a % d && b == q * d + b % d;
    assert (p - q) * d == p * d - q * d;
    Scale(p - q, d);
  }

  /** Addresses between two of one slot are in that slot. */
  lemma {:induction false} SameSlot(from: nat, to: nat, v: nat, level: nat)
    requires from <= v < to && from / Size(level) == (to - 1) / Size(level)
    ensures v / Size(level) == from / Size(level)
  {
    DivMonotone(from, v, Size(level));
    DivMonotone(v, to - 1, Size(level));
  }

  /** The addresses of a whole slot. */
  lemma {:induction false} SlotRange(from: nat, v: nat, d: nat)
    requires d > 0 && from % d == 0
    ensures v / d == from / d <==> from <= v < from + d
    ensures v / d == from / d ==> v % d == v - from
  {
    var q := from / d;
    assert from == q * d && v == (v / d) * d + v % d;
    if from <= v < from + d {
      DivisionUnique(v, d, q, v - from);
    }
  }

  lemma {:induction false} DoneThen(m0: Memory, m1: Memory, m2: Memory, t: nat, w: Where, j: Job, k: Job)
    requires Done(m0, m1, t, w, j) && Done(m1, m2, t, w, k) && j.from <= j.to == k.from <= k.to
    requires k.bits == j.bits && k.phys == j.phys + (j.to - j.from)
    ensures Done(m0, m2, t, w, Job(j.from, k.to, j.phys, j.bits))
  {
    forall v: nat | Holds(w, v)
      ensures Walk(m2, t, w.level, v) == Wanted(Job(j.from, k.to, j.phys, j.bits), Walk(m0, t, w.level, v), v)
    {
      assert Walk(m2, t, w.level, v) == Wanted(k, Walk(m1, t, w.level, v), v);
      assert Walk(m1, t, w.level, v) == Wanted(j, Walk(m0, t, w.level, v), v);
    }
  }

  /** What is left of the range is still unmapped. */
  lemma {:induction false} StillUnmapped(m0: Memory, m1: Memory, t: nat, w: Where, j: Job, to: nat)
    requires Done(m0, m1, t, w, j) && UnmappedIn(m0, t, w, j.from, to) && j.from <= j.to
    ensures UnmappedIn(m1, t, w, j.to, to)
  {
  }

  /** The slot of entry i of t. */
  predicate InSlot(w: Where, i: nat, from: nat, to: nat) {
    && from < to && Size(w.level) > 0
    && from / Size(w.level) == (to - 1) / Size(w.level) == w.prefix * 512 + i
  }

  lemma {:induction false} SlotHolds(w: Where, i: nat, from: nat, to: nat, v: nat)
    requires InSlot(w, i, from, to) && from <= v < to && i < ENTRIES && w.level >= 1
    ensures Holds(w, v) && Offs(v, w.level) == i
  {
    SameSlot(from, to, v, w.level);
    PrefixStep(v, w.level);
    DivisionUnique(w.prefix * 512 + i, 512, w.prefix, i);
  }

  /** One large or small page: the whole slot. */
  lemma {:induction false} LeafDone(mem: Memory, loc: map<nat, Where>, t: nat, i: nat, phys: nat, bits: Bits, from: nat)
    requires Tree(mem, loc) && t in loc && i < ENTRIES && !mem[t][i].bits.present
    requires var d := Size(loc[t].level); from % d == 0 && InSlot(loc[t], i, from, from + d)
    requires IsLeaf(Pte(phys, bits), loc[t].level) || (!bits.present && loc[t].level == 1)
    requires loc[t].level > 1 ==> bits.large
    ensures var w := loc[t];
      Done(mem, mem[t := mem[t][i := Pte(phys, bits)]], t, w, Job(from, from + Size(w.level), phys, bits))
  {
    var w, e := loc[t], Pte(phys, bits);
    assert TableOk(mem, loc, t);
    forall v: nat | Holds(w, v)
      ensures var mem' := mem[t := mem[t][i := e]]; var job := Job(from, from + Size(w.level), phys, bits);
        && Walk(mem', t, w.level, v) == Wanted(job, Walk(mem, t, w.level, v), v)
        && (Reaches(mem, t, w.level, v) ==> Reaches(mem', t, w.level, v))
        && (!bits.large && from <= v < job.to ==> Reaches(mem', t, w.level, v))
    {
      LeafStep(mem, loc, t, i, e, v);
      PrefixStep(v, w.level);
      SlotRange(from, v, Size(w.level));
      hide *;
    }
  }

  lemma {:induction false} TableDone(mem: Memory, loc: map<nat, Where>, t: nat, i: nat, page: nat, from: nat, phys: nat,
      bits: Bits)
    requires Tree(mem, loc) && t in loc && i < ENTRIES && !mem[t][i].bits.present
    requires page !in loc && loc[t].level >= 2
    ensures Done(mem, mem[page := NewTable()][t := mem[t][i := Pte(page, TABLE_BITS)]], t, loc[t],
              Job(from, from, phys, bits))
  {
    forall v: nat | Holds(loc[t], v)
      ensures var l := loc[t].level; var mem' := mem[page := NewTable()][t := mem[t][i := Pte(page, TABLE_BITS)]];
        Walk(mem', t, l, v) == Walk(mem, t, l, v) && (Reaches(mem, t, l, v) ==> Reaches(mem', t, l, v))
    {
      TableStep(mem, loc, t, i, page, v);
    }
    hide Tree;
    hide Walk;
    hide Reaches;
    hide Holds;
  }

  /** What a call did for the table of entry i, it did for t. */
  lemma {:induction false} ChildDone(mem: Memory, mem': Memory, loc: map<nat, Where>, t: nat, i: nat, job: Job)
    requires Tree(mem, loc) && t in loc && i < ENTRIES && IsTable(mem[t][i], loc[t].level) && loc[t].level >= 1
    requires InSlot(loc[t], i, job.from, job.to)
    requires var w := Where(loc[t].level - 1, loc[t].prefix * 512 + i);
      OnlyUnder(mem, mem', loc, w) && Done(mem, mem', mem[t][i].addr, w, job)
    ensures Done(mem, mem', t, loc[t], job)
  {
    var w, c, l := Where(loc[t].level - 1, loc[t].prefix * 512 + i), mem[t][i].addr, loc[t].level;
    forall v: nat | Holds(loc[t], v)
      ensures Walk(mem', t, l, v) == Wanted(job, Walk(mem, t, l, v), v)
      ensures Reaches(mem, t, l, v) ==> Reaches(mem', t, l, v)
      ensures !job.bits.large && job.from <= v < job.to ==> Reaches(mem', t, l, v)
    {
      ChildStep(mem, mem', loc, t, i, v);
      if Offs(v, l) == i {
        ChildHolds(loc[t], v);
      } else if job.from <= v < job.to {
        SlotHolds(loc[t], i, job.from, job.to, v);
      }
      hide Tree;
      hide OnlyUnder;
      hide Walk;
      hide Reaches;
    }
  }

  /** What is unmapped, or has its tables, below t is so below the table of entry i. */
  lemma {:induction false} ChildRange(mem: Memory, loc: map<nat, Where>, t: nat, i: nat, from: nat, to: nat)
    requires Tree(mem, loc) && t in loc && i < ENTRIES && IsTable(mem[t][i], loc[t].level)
               && InSlot(loc[t], i, from, to)
    ensures loc[t].level >= 2 && mem[t][i].addr in loc
    ensures loc[mem[t][i].addr] == Where(loc[t].level - 1, loc[t].prefix * 512 + i)
    ensures var c := mem[t][i].addr;
      && (forall v: nat | from <= v < to :: Holds(loc[c], v))
      && (UnmappedIn(mem, t, loc[t], from, to) ==> UnmappedIn(mem, c, loc[c], from, to))
      && (ReachesIn(mem, t, loc[t], from, to) ==> ReachesIn(mem, c, loc[c], from, to))
  {
    TreeAt(mem, loc, t);
    var l, c := loc[t].level, mem[t][i].addr;
    assert l >= 2 && loc[c] == Where(l - 1, loc[t].prefix * 512 + i);
    hide *;
    forall v: nat | from <= v < to
      ensures Holds(loc[c], v)
      ensures Holds(loc[t], v) && Walk(mem, t, l, v) == Walk(mem, c, l - 1, v)
      ensures Reaches(mem, t, l, v) == Reaches(mem, c, l - 1, v)
    {
      ChildAt(mem, loc, t, i, from, to, v);
    }
    RangeBelow(mem, t, loc[t], c, loc[c], from, to);
  }

  lemma {:induction false} ChildAt(mem: Memory, loc: map<nat, Where>, t: nat, i: nat, from: nat, to: nat, v: nat)
    requires Tree(mem, loc) && t in loc && i < ENTRIES && IsTable(mem[t][i], loc[t].level)
               && InSlot(loc[t], i, from, to)
    requires from <= v < to
    ensures var l, c := loc[t].level, mem[t][i].addr;
      && l >= 1 && Holds(Where(l - 1, loc[t].prefix * 512 + i), v) && Holds(loc[t], v)
      && Walk(mem, t, l, v) == Walk(mem, c, l - 1, v) && Reaches(mem, t, l, v) == Reaches(mem, c, l - 1, v)
  {
    TreeAt(mem, loc, t);
    SlotHolds(loc[t], i, from, to, v);
    ChildHolds(loc[t], v);
    hide Holds;
    hide Tree;
  }

  lemma {:induction false} RangeBelow(mem: Memory, t: nat, w: Where, c: nat, u: Where, from: nat, to: nat)
    requires forall v: nat | from <= v < to :: Holds(w, v) && Walk(mem, t, w.level, v) == Walk(mem, c, u.level, v)
    requires forall v: nat | from <= v < to :: Reaches(mem, t, w.level, v) == Reaches(mem, c, u.level, v)
    ensures UnmappedIn(mem, t, w, from, to) ==> UnmappedIn(mem, c, u, from, to)
    ensures ReachesIn(mem, t, w, from, to) ==> ReachesIn(mem, c, u, from, to)
  {
    hide Walk;
    hide Reaches;
    hide Holds;
  }

  /** An entry in the way of an unmapped range is absent or a table; it is a table when the range has its tables. */
  lemma {:induction false} EntryFree(mem: Memory, loc: map<nat, Where>, t: nat, i: nat, from: nat, to: nat)
    requires Tree(mem, loc) && t in loc && i < ENTRIES && InSlot(loc[t], i, from, to)
    requires UnmappedIn(mem, t, loc[t], from, to)
    ensures !IsLeaf(mem[t][i], loc[t].level)
    ensures loc[t].level >= 2 && ReachesIn(mem, t, loc[t], from, to) ==> IsTable(mem[t][i], loc[t].level)
  {
    TreeAt(mem, loc, t);
    SlotHolds(loc[t], i, from, to, from);
  }

  lemma {:induction false} OnlyUnderThen(m0: Memory, m1: Memory, m2: Memory, loc0: map<nat, Where>,
      loc1: map<nat, Where>, w: Where)
    requires OnlyUnder(m0, m1, loc0, w) && OnlyUnder(m1, m2, loc1, w) && Extends(loc0, loc1)
    ensures OnlyUnder(m0, m2, loc0, w)
  {
  }

  lemma {:induction false} OnlyUnderParent(mem: Memory, mem': Memory, loc: map<nat, Where>, w: Where, i: nat)
    requires w.level >= 1 && i < ENTRIES && OnlyUnder(mem, mem', loc, Where(w.level - 1, w.prefix * 512 + i))
    ensures OnlyUnder(mem, mem', loc, w)
  {
    forall p | p in loc && !Under(loc[p], w)
      ensures p in mem && p in mem' && mem'[p] == mem[p]
    {
      if Under(loc[p], Where(w.level - 1, w.prefix * 512 + i)) {
        UnderChild(loc[p], w.level - 1, w.prefix, i);
      }
    }
  }

  /** How many new tables a range can need below a table of the given level. */
  function Count(level: nat, from: nat, last: nat): int {
    if level <= 1 then 0 else last / Size(level) - from / Size(level) + 1 + Count(level - 1, from, last)
  }

  lemma {:induction false} CountNonNegative(level: nat, from: nat, last: nat)
    requires from <= last
    ensures Count(level, from, last) >= 0
  {
    if level > 1 {
      DivMonotone(from, last, Size(level));
      CountNonNegative(level - 1, from, last);
    }
  }

  lemma {:induction false} SizeDivides(j: nat, k: nat, x: nat)
    requires 1 <= j <= k && x % Size(k) == 0
    ensures x % Size(j) == 0
  {
    if j < k {
      var q := x / Size(k);
      assert x == q * Size(k) == (512 * q) * Size(k - 1);
      DivisionUnique(x, Size(k - 1), 512 * q, 0);
      SizeDivides(j, k - 1, x);
    }
  }

  lemma {:induction false} BeforeMultiple(x: nat, d: nat)
    requires d > 0 && x > 0 && x % d == 0
    ensures (x - 1) / d == x / d - 1
  {
    var q := x / d;
    assert x == q * d && (q - 1) * d == x - d;
    DivisionUnique(x - 1, d, q - 1, d - 1);
  }

  /** The need of a range is the sum of the needs of its parts. */
  lemma {:induction false} CountSplit(level: nat, from: nat, mid: nat, last: nat, top: nat)
    requires level <= top && from < mid <= last && mid % Size(top) == 0
    ensures Count(level, from, last) == Count(level, from, mid - 1) + Count(level, mid, last)
  {
    if level > 1 {
      SizeDivides(level, top, mid);
      BeforeMultiple(mid, Size(level));
      CountSplit(level - 1, from, mid, last, top);
    }
  }

  // ----- how many tables a range takes -----

  lemma {:induction false} NextSlot(at: nat, d: nat)
    requires d > 0
    ensures var e := at - at % d + d;
      e > at && e % d == 0 && e / d == at / d + 1 && (forall x: nat | at <= x < e :: x / d == at / d)
  {
    var q := at / d;
    assert at == q * d + at % d && (q + 1) * d == q * d + d;
    DivisionUnique((q + 1) * d, d, q + 1, 0);
    forall x: nat | at <= x < q * d + d
      ensures x / d == q
    {
      DivisionUnique(x, d, q, x - q * d);
    }
  }

  /** Where the part of the range that falls to one entry ends. */
  function Next(at: nat, end: nat, level: nat): (n: nat)
    requires at < end
    ensures at < n <= end
  {
    NextSlot(at, Size(level));
    var e := at - at % Size(level) + Size(level);
    if e < end then e else end
  }

  /** The part of a range is a whole entry that one large page can fill. */
  predicate Large(level: nat, from: nat, to: nat, phys: nat, large: bool) {
    2 <= level <= 3 && large && from % Size(level) == 0 && phys % Size(level) == 0 && to == from + Size(level)
  }

  /** The tables that a range takes below a table of the given level, when nothing of it is there and large pages
      are used wherever they fit. */
  function Need(level: nat, from: nat, to: nat, phys: nat, large: bool): nat
    decreases level, if from < to then to - from else 0
  {
    if level <= 1 || from >= to then 0
    else
      var next := Next(from, to, level);
      (if Large(level, from, next, phys, large) then 0 else 1 + Need(level - 1, from, next, phys, large))
      + Need(level, next, to, phys + (next - from), large)
  }

  /** The next boundary does not pass an aligned address. */
  lemma {:induction false} NextUpTo(from: nat, mid: nat, to: nat, level: nat)
    requires from < mid <= to && mid % Size(level) == 0
    ensures Next(from, to, level) == Next(from, mid, level)
    ensures Next(from, mid, level) < mid ==> Next(from, mid, level) % Size(level) == 0
  {
    var d := Size(level);
    NextSlot(from, d);
    DivMonotone(from, mid - 1, d);
    BeforeMultiple(mid, d);
    NextBound(from, mid, d);
  }

  lemma {:induction false} NextBound(from: nat, mid: nat, d: nat)
    requires d > 0 && from < mid && mid % d == 0
    ensures from - from % d + d <= mid
  {
    var q, p := from / d, mid / d;
    assert from == q * d + from % d && mid == p * d;
    MultiplesApart(q, p, d);
  }

  /** The need of a range is the sum of the needs of its parts. */
  lemma {:induction false} NeedSplit(level: nat, from: nat, mid: nat, to: nat, phys: nat, large: bool)
    requires from <= mid <= to && (from == mid || mid == to || mid % Size(level) == 0)
    ensures Need(level, from, to, phys, large) == Need(level, from, mid, phys, large)
              + Need(level, mid, to, phys + (mid - from), large)
    decreases mid - from
  {
    if level > 1 && from < mid < to {
      NextUpTo(from, mid, to, level);
      var next := Next(from, mid, level);
      NeedSplit(level, next, mid, to, phys + (next - from), large);
      assert phys + (next - from) + (mid - next) == phys + (mid - from);
    }
  }

  /** The need of a range in one slot: nothing for a large page; else its table, and what is needed below that. */
  lemma {:induction false} NeedBelow(w: Where, i: nat, from: nat, to: nat, phys: nat, large: bool)
    requires InSlot(w, i, from, to) && w.level >= 2
    ensures Need(w.level, from, to, phys, large)
            == if Large(w.level, from, to, phys, large) then 0 else 1 + Need(w.level - 1, from, to, phys, large)
    ensures Large(w.level, from, to, phys, large) ==> Need(w.level - 1, from, to, phys, large) == 0
  {
    var d := Size(w.level);
    NextSlot(from, d);
    assert Next(from, to, w.level) == to by {
      var e := from - from % d + d;
      if e < to {
        DivMonotone(e, to - 1, d);
      }
    }
    if Large(w.level, from, to, phys, large) {
      SizeDivides(w.level - 1, w.level, from);
      SizeDivides(w.level - 1, w.level, phys);
      SizeDivides(w.level - 1, w.level, d);
      NoneBelow(w.level - 1, from, d, phys);
    }
  }

  lemma {:induction false} AddMod(a: nat, b: nat, d: nat)
    requires d > 0 && a % d == 0 && b % d == 0
    ensures (a + b) % d == 0
  {
    assert a + b == (a / d + b / d) * d;
    DivisionUnique(a + b, d, a / d + b / d, 0);
  }

  /** A range of whole entries takes no tables where large pages are used. */
  lemma {:induction false} NoneBelow(level: nat, from: nat, len: nat, phys: nat)
    requires 1 <= level <= 3 && from % Size(level) == 0 && phys % Size(level) == 0 && len % Size(level) == 0
    ensures Need(level, from, from + len, phys, true) == 0
    decreases len
  {
    if level > 1 && len > 0 {
      var d := Size(level);
      AddMod(from, len, d);
      NextBound(from, from + len, d);
      AddMod(from, d, d);
      AddMod(phys, d, d);
      SubMod(len, d);
      assert Next(from, from + len, level) == from + d;
      NoneBelow(level, from + d, len - d, phys + d);
      assert from + d + (len - d) == from + len;
    }
  }

  lemma {:induction false} SubMod(a: nat, d: nat)
    requires 0 < d <= a && a % d == 0
    ensures (a - d) % d == 0 && d % d == 0
  {
    var q := a / d;
    assert a == q * d && a - d == (q - 1) * d;
    DivisionUnique(a - d, d, q - 1, 0);
  }

  /** Without large pages: one table for each entry that the range touches, on every level above 1. */
  lemma {:induction false} NeedSmall(level: nat, from: nat, to: nat, phys: nat)
    requires from < to
    ensures Need(level, from, to, phys, false) == Count(level, from, to - 1)
    decreases level, to - from
  {
    if level > 1 {
      var next, d := Next(from, to, level), Size(level);
      NextSlot(from, d);
      NeedSmall(level - 1, from, next, phys);
      if next < to {
        NeedSmall(level, next, to, phys + (next - from));
        CountSplit(level, from, next, to - 1, level);
        assert Count(level, from, next - 1) == 1 + Count(level - 1, from, next - 1);
      } else {
        assert (to - 1) / d == from / d;
      }
    }
  }
}
