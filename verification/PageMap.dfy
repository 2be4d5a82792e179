/** src/paging.c: the recursive mapper, in the 64-bit arithmetic of the code. */
module PageMap {
  import opened Powers
  import opened PageTables
  import opened Lists

  const SPAN: nat := 0x1_0000_0000_0000
  const TOP: nat := 0x1_0000_0000_0000_0000
  const PHYS_LIMIT: nat := 0x10_0000_0000_0000

  /** uintptr_t arithmetic */
  function Wrap(x: int): nat {
    x % TOP
  }

  /** ((begin + size) & ~mask) - 1 */
  function EntryEnd(begin: nat, level: nat): nat {
    var x := Wrap(begin + Size(level));
    Wrap(x - x % Size(level) - 1)
  }

  lemma {:induction false} SizeValues()
    ensures Size(1) == 0x1000 && Size(2) == 0x20_0000 && Size(3) == 0x4000_0000 && Size(4) == 0x80_0000_0000
              && Size(5) == SPAN
  {
  }

  /** The slot that holds `begin` ends at or below the top. */
  lemma {:induction false} SlotEnd(begin: nat, d: nat, n: nat)
    requires d > 0 && n * d == TOP && begin < TOP
    ensures begin - begin % d + d == TOP || begin + d < TOP
  {
    var q := begin / d;
    assert begin == q * d + begin % d;
    assert (n - q) * d == n * d - q * d && (n - q - 1) * d == n * d - q * d - d;
    Scale(n - q, d);
    Scale(n - q - 1, d);
  }

  lemma {:induction false} RoundedUp(x: nat, d: nat)
    requires d > 0
    ensures (x + d) % d == x % d
  {
    var q := x / d;
    assert (q + 1) * d == q * d + d;
    DivisionUnique(x + d, d, q + 1, x % d);
  }

  lemma {:induction false} SmallMod(x: nat, d: nat)
    requires x < d
    ensures x % d == x
  {
  }

  lemma {:induction false} EntryEndArith(begin: nat, d: nat, n: nat)
    requires d > 0 && n * d == TOP && begin < TOP
    ensures var x := Wrap(begin + d); Wrap(x - x % d - 1) == begin - begin % d + d - 1
  {
    SlotEnd(begin, d, n);
    RoundedUp(begin, d);
    var r := begin % d;
    assert 0 <= r < d <= TOP && begin - r >= 0 by {
      RemainderBelow(begin, d);
      Scale(n - 1, d);
      assert (n - 1) * d == TOP - d;
      SlotEnd(0, d, n);
    }
    SmallMod(r, d);
    WrapWithin(begin + d);
    WrapWithin(begin + d - r - 1);
    hide Wrap;
  }

  lemma {:induction false} RemainderBelow(x: nat, d: nat)
    requires d > 0
    ensures 0 <= x % d <= x && x % d < d
  {
  }

  lemma {:induction false} WrapWithin(x: int)
    ensures 0 <= x < TOP ==> Wrap(x) == x
    ensures TOP <= x < 2 * TOP ==> Wrap(x) == x - TOP
    ensures Wrap(-1) == TOP - 1
  {
  }

  /** The address arithmetic of an entry's end does not go wrong at the top of the address space. */
  lemma {:induction false} EntryEndValue(begin: nat, level: nat)
    requires begin < TOP && 1 <= level <= 4
    ensures EntryEnd(begin, level) == begin - begin % Size(level) + Size(level) - 1
  {
    SizeValues();
    EntryEndArith(begin, Size(level), TOP / Size(level));
  }

  /** Bits 48 and up do not matter to the index of a table entry or to alignment. */
  lemma {:induction false} WindowOffs(base: nat, at: nat, level: nat)
    requires base % SPAN == 0 && 1 <= level <= 4
    ensures Offs(base + at, level) == Offs(at, level) && (base + at) % Size(level) == at % Size(level)
  {
    SizeValues();
    var m := base / SPAN;
    assert base == m * (SPAN / 512 / Size(level)) * 512 * Size(level);
    WindowArith(m * (SPAN / 512 / Size(level)), at, Size(level));
  }

  lemma {:induction false} WindowArith(m: nat, at: nat, d: nat)
    requires d > 0
    ensures (m * 512 * d + at) / d % 512 == at / d % 512 && (m * 512 * d + at) % d == at % d
  {
    var q, r := at / d, at % d;
    assert (m * 512 + q) * d == m * 512 * d + q * d;
    DivisionUnique(m * 512 * d + at, d, m * 512 + q, r);
  }

  // ----- what a call achieves -----

  datatype State = State(mem: Memory, loc: map<nat, Where>, pool: seq<nat>)

  ghost predicate Sound(s: State) {
    && Tree(s.mem, s.loc) && NoDuplicates(s.pool)
    && forall p | p in s.pool :: p !in s.loc && p > 0 && p % PAGE == 0
  }

  /** The tables that the job takes below a table of the level. */
  function Needed(level: nat, job: Job): nat {
    Need(level, job.from, job.to, job.phys, job.bits.large)
  }

  /** The call did the job; or it found the pool empty, which a pool as large as the need, or tables already in place,
      rules out. */
  ghost predicate Outcome(s0: State, s1: State, t: nat, w: Where, job: Job, ok: bool) {
    && Sound(s1) && Extends(s0.loc, s1.loc)
    && |s1.pool| <= |s0.pool| && s1.pool == s0.pool[|s0.pool| - |s1.pool|..]
    && |s1.pool| >= |s0.pool| - Needed(w.level, job)
    && (ok ==> Done(s0.mem, s1.mem, t, w, job) && OnlyUnder(s0.mem, s1.mem, s0.loc, w))
    && (ReachesIn(s0.mem, t, w, job.from, job.to) ==> ok && s1.pool == s0.pool)
    && (!ok ==> |s0.pool| < Needed(w.level, job))
  }

  lemma {:induction false} OutcomeStart(s: State, t: nat, w: Where, from: nat, phys: nat, bits: Bits)
    requires Sound(s)
    ensures Outcome(s, s, t, w, Job(from, from, phys, bits), true)
  {
  }

  lemma {:induction false} ReachesParts(s0: State, s1: State, t: nat, w: Where, j: Job, to: nat)
    requires Done(s0.mem, s1.mem, t, w, j) && j.from <= j.to <= to && ReachesIn(s0.mem, t, w, j.from, to)
    ensures ReachesIn(s0.mem, t, w, j.from, j.to) && ReachesIn(s1.mem, t, w, j.to, to)
  {
  }

  lemma {:induction false} OutcomeThen(s0: State, s1: State, s2: State, t: nat, w: Where, j: Job, k: Job, ok: bool)
    requires Outcome(s0, s1, t, w, j, true) && Outcome(s1, s2, t, w, k, ok) && w.level >= 1
    requires j.from <= j.to == k.from <= k.to && (j.from == j.to || j.to % Size(w.level) == 0)
    requires k.bits == j.bits && k.phys == j.phys + (j.to - j.from)
    ensures Outcome(s0, s2, t, w, Job(j.from, k.to, j.phys, j.bits), ok)
  {
    hide Done;
    hide OnlyUnder;
    hide ReachesIn;
    hide Sound;
    hide Need;
    hide Extends;
    NeedSplit(w.level, j.from, j.to, k.to, j.phys, j.bits.large);
    ExtendsThen(s0.loc, s1.loc, s2.loc);
    SuffixThen(s0.pool, s1.pool, s2.pool);
    if ok {
      DoneThen(s0.mem, s1.mem, s2.mem, t, w, j, k);
      OnlyUnderThen(s0.mem, s1.mem, s2.mem, s0.loc, s1.loc, w);
    }
    if ReachesIn(s0.mem, t, w, j.from, k.to) {
      ReachesParts(s0, s1, t, w, j, k.to);
    }
  }

  lemma {:induction false} ExtendsThen(a: map<nat, Where>, b: map<nat, Where>, c: map<nat, Where>)
    requires Extends(a, b) && Extends(b, c)
    ensures Extends(a, c)
  {
  }

  lemma {:induction false} SuffixThen(a: seq<nat>, b: seq<nat>, c: seq<nat>)
    requires |b| <= |a| && b == a[|a| - |b|..] && |c| <= |b| && c == b[|b| - |c|..]
    ensures c == a[|a| - |c|..]
  {
  }

  /** A call that failed has failed for the rest of the range as well. */
  lemma {:induction false} OutcomeStops(s0: State, s1: State, t: nat, w: Where, j: Job, to: nat)
    requires Outcome(s0, s1, t, w, j, false) && w.level >= 1
    requires j.from < j.to <= to && (j.to == to || j.to % Size(w.level) == 0)
    ensures Outcome(s0, s1, t, w, j.(to := to), false)
  {
    NeedSplit(w.level, j.from, j.to, to, j.phys, j.bits.large);
    hide Need;
    hide Sound;
  }

  /** A call for one table is a call for another when it did the job there, too. */
  lemma {:induction false} OutcomeLift(s0: State, s1: State, c: nat, u: Where, t: nat, w: Where, job: Job, ok: bool)
    requires Outcome(s0, s1, c, u, job, ok) && Needed(u.level, job) <= Needed(w.level, job)
    requires ok ==> Done(s0.mem, s1.mem, t, w, job) && OnlyUnder(s0.mem, s1.mem, s0.loc, w)
    requires ReachesIn(s0.mem, t, w, job.from, job.to) ==> ReachesIn(s0.mem, c, u, job.from, job.to)
    ensures Outcome(s0, s1, t, w, job, ok)
  {
    hide Done;
    hide OnlyUnder;
    hide ReachesIn;
    hide Sound;
    hide Extends;
    hide Needed;
  }

  lemma {:induction false} OutcomeParts(s0: State, s1: State, t: nat, w: Where, job: Job, ok: bool)
    requires Outcome(s0, s1, t, w, job, ok)
    ensures ok ==> Done(s0.mem, s1.mem, t, w, job) && OnlyUnder(s0.mem, s1.mem, s0.loc, w)
    ensures |s1.pool| >= |s0.pool| - Needed(w.level, job) && (!ok ==> |s0.pool| < Needed(w.level, job))
  {
  }

  /** A call for the table of entry i is the call's work for t. */
  lemma {:induction false} OutcomeChild(s0: State, s1: State, t: nat, i: nat, job: Job, ok: bool)
    requires Sound(s0) && t in s0.loc && i < ENTRIES && IsTable(s0.mem[t][i], s0.loc[t].level)
    requires InSlot(s0.loc[t], i, job.from, job.to) && s0.mem[t][i].addr in s0.loc
    requires Outcome(s0, s1, s0.mem[t][i].addr, s0.loc[s0.mem[t][i].addr], job, ok)
    ensures Outcome(s0, s1, t, s0.loc[t], job, ok)
    ensures var l := s0.loc[t].level;
      !Large(l, job.from, job.to, job.phys, job.bits.large) ==>
        |s1.pool| >= |s0.pool| - (Needed(l, job) - 1) && (!ok ==> |s0.pool| < Needed(l, job) - 1)
  {
    hide Outcome;
    hide Done;
    hide OnlyUnder;
    hide ReachesIn;
    hide UnmappedIn;
    hide Tree;
    hide Need;
    hide InSlot;
    hide IsTable;
    hide Holds;
    hide Large;
    TreeAt(s0.mem, s0.loc, t);
    var c := s0.mem[t][i].addr;
    ChildRange(s0.mem, s0.loc, t, i, job.from, job.to);
    NeedBelow(s0.loc[t], i, job.from, job.to, job.phys, job.bits.large);
    OutcomeParts(s0, s1, c, s0.loc[c], job, ok);
    if ok {
      ChildDone(s0.mem, s1.mem, s0.loc, t, i, job);
      OnlyUnderParent(s0.mem, s1.mem, s0.loc, s0.loc[t], i);
    }
    OutcomeLift(s0, s1, c, s0.loc[c], t, s0.loc[t], job, ok);
  }

  /** The state after a page of the pool became the table of entry i. */
  function WithTable(s: State, t: nat, i: nat): State
    requires t in s.loc && t in s.mem && i < |s.mem[t]| && s.pool != [] && s.loc[t].level >= 1
  {
    State(s.mem[s.pool[0] := NewTable()][t := s.mem[t][i := Pte(s.pool[0], TABLE_BITS)]],
          s.loc[s.pool[0] := Where(s.loc[t].level - 1, s.loc[t].prefix * 512 + i)],
          s.pool[1..])
  }

  lemma {:induction false} TableTaken(s: State, t: nat, i: nat, from: nat, to: nat, phys: nat, bits: Bits)
    requires Sound(s) && t in s.loc && i < ENTRIES && !s.mem[t][i].bits.present && s.loc[t].level >= 2 && s.pool != []
    requires InSlot(s.loc[t], i, from, to) && UnmappedIn(s.mem, t, s.loc[t], from, to)
    ensures var s1 := WithTable(s, t, i);
      && Sound(s1) && Extends(s.loc, s1.loc) && s1.loc[t] == s.loc[t] && IsTable(s1.mem[t][i], s1.loc[t].level)
      && Done(s.mem, s1.mem, t, s.loc[t], Job(from, from, phys, bits)) && OnlyUnder(s.mem, s1.mem, s.loc, s.loc[t])
      && UnmappedIn(s1.mem, t, s.loc[t], from, to)
    ensures !ReachesIn(s.mem, t, s.loc[t], from, to)
  {
    hide Done;
    hide ReachesIn;
    hide UnmappedIn;
    hide Tree;
    hide InSlot;
    hide OnlyUnder;
    TreeAt(s.mem, s.loc, t);
    var page := s.pool[0];
    assert page in s.pool;
    TableTree(s.mem, s.loc, t, i, page);
    TableDone(s.mem, s.loc, t, i, page, from, phys, bits);
    EntryFree(s.mem, s.loc, t, i, from, to);
    StillUnmapped(s.mem, WithTable(s, t, i).mem, t, s.loc[t], Job(from, from, phys, bits), to);
    TableOnly(s, t, i);
    assert forall p | p in s.pool[1..] :: p in s.pool && p != page;
  }

  lemma {:induction false} TableOnly(s: State, t: nat, i: nat)
    requires Sound(s) && t in s.loc && i < ENTRIES && s.loc[t].level >= 2 && s.pool != []
    requires t in s.mem && |s.mem[t]| == ENTRIES
    ensures OnlyUnder(s.mem, WithTable(s, t, i).mem, s.loc, s.loc[t])
  {
    assert s.pool[0] in s.pool;
    assert Under(s.loc[t], s.loc[t]);
  }

  /** Taking a page for the table and then working below it. */
  lemma {:induction false} OutcomeTaken(s0: State, s1: State, s2: State, t: nat, w: Where, job: Job, ok: bool)
    requires Extends(s0.loc, s1.loc) && s0.pool != [] && s1.pool == s0.pool[1..] && job.from < job.to && w.level >= 1
    requires Done(s0.mem, s1.mem, t, w, Job(job.from, job.from, job.phys, job.bits))
               && OnlyUnder(s0.mem, s1.mem, s0.loc, w)
    requires Outcome(s1, s2, t, w, job, ok) && !ReachesIn(s0.mem, t, w, job.from, job.to)
    requires |s2.pool| >= |s1.pool| - (Needed(w.level, job) - 1)
    requires !ok ==> |s1.pool| < Needed(w.level, job) - 1
    ensures Outcome(s0, s2, t, w, job, ok)
  {
    if ok {
      DoneThen(s0.mem, s1.mem, s2.mem, t, w, Job(job.from, job.from, job.phys, job.bits), job);
      OnlyUnderThen(s0.mem, s1.mem, s2.mem, s0.loc, s1.loc, w);
    }
    hide Done;
    hide OnlyUnder;
    hide ReachesIn;
    hide Sound;
    hide Need;
  }

  /** A leaf written into an absent entry. */
  lemma {:induction false} OutcomeLeaf(s: State, t: nat, i: nat, phys: nat, bits: Bits, from: nat)
    requires Sound(s) && t in s.loc && i < ENTRIES && !s.mem[t][i].bits.present
    requires var d := Size(s.loc[t].level); from % d == 0 && InSlot(s.loc[t], i, from, from + d)
    requires IsLeaf(Pte(phys, bits), s.loc[t].level) || (!bits.present && s.loc[t].level == 1)
    requires s.loc[t].level > 1 ==> bits.large
    ensures var w := s.loc[t];
      Outcome(s, s.(mem := s.mem[t := s.mem[t][i := Pte(phys, bits)]]), t, w,
        Job(from, from + Size(w.level), phys, bits), true)
  {
    var w := s.loc[t];
    LeafTree(s.mem, s.loc, t, i, Pte(phys, bits));
    LeafDone(s.mem, s.loc, t, i, phys, bits, from);
    assert Under(w, w);
    hide Done;
    hide ReachesIn;
    hide Tree;
  }

  /** What the range of a call has to satisfy: page aligned, within one 48-bit window and below the table, unmapped. */
  ghost predicate Fits(s: State, pml: nat, begin: nat, last: nat, phys: nat, bits: Bits, level: nat, base: nat) {
    && pml in s.loc && s.loc[pml].level == level
    && base % SPAN == 0 && base <= begin <= last < base + SPAN <= TOP
    && begin % PAGE == 0 && (last + 1) % PAGE == 0 && phys % PAGE == 0 && phys + (last - begin + 1) <= PHYS_LIMIT
    && Holds(s.loc[pml], begin - base) && Holds(s.loc[pml], last - base)
    && UnmappedIn(s.mem, pml, s.loc[pml], begin - base, last + 1 - base)
    && (bits.large ==> bits.present)
  }

  lemma {:induction false} OnePage(from: nat, to: nat)
    requires from % PAGE == 0 && to % PAGE == 0 && from < to && from / PAGE == (to - 1) / PAGE
    ensures to == from + PAGE
  {
  }

  lemma {:induction false} Unbased(base: nat, x: nat)
    requires base % SPAN == 0 && base <= x
    ensures (x - base) % PAGE == x % PAGE
  {
    assert Size(1) == PAGE;
    WindowOffs(base, x - base, 1);
  }

  /** Why the level-1 BUG_ONs of __pt_map_pages cannot fire: there the entry is absent, and the range is one aligned
      page. */
  lemma {:induction false} EntryReady(s: State, pml: nat, i: nat, begin: nat, last: nat, phys: nat, bits: Bits,
      level: nat, base: nat)
    requires Sound(s) && Fits(s, pml, begin, last, phys, bits, level, base)
    requires i < ENTRIES && InSlot(s.loc[pml], i, begin - base, last + 1 - base)
    ensures pml in s.mem && |s.mem[pml]| == ENTRIES && 1 <= level <= 4
    ensures s.mem[pml][i].bits.present ==> level >= 2 && IsTable(s.mem[pml][i], level)
    ensures level == 1 ==> last - begin + 1 == Size(1) && begin % Size(1) == 0 && phys % Size(1) == 0
  {
    TreeAt(s.mem, s.loc, pml);
    if level == 1 {
      LevelOne(s.loc[pml], i, begin, last, base);
    }
    hide UnmappedIn;
    hide InSlot;
    hide Tree;
    hide Holds;
    EntryFree(s.mem, s.loc, pml, i, begin - base, last + 1 - base);
  }

  lemma {:induction false} LevelOne(w: Where, i: nat, begin: nat, last: nat, base: nat)
    requires w.level == 1 && base % SPAN == 0 && base <= begin <= last && InSlot(w, i, begin - base, last + 1 - base)
    requires begin % PAGE == 0 && (last + 1) % PAGE == 0
    ensures Size(1) == PAGE && last - begin + 1 == PAGE
  {
    Unbased(base, begin);
    Unbased(base, last + 1);
    OnePage(begin - base, last + 1 - base);
  }

  lemma {:induction false} ChildFits(s: State, pml: nat, i: nat, begin: nat, last: nat, phys: nat, bits: Bits,
      level: nat, base: nat)
    requires Sound(s) && Fits(s, pml, begin, last, phys, bits, level, base)
    requires i < ENTRIES && InSlot(s.loc[pml], i, begin - base, last + 1 - base)
    requires pml in s.mem && |s.mem[pml]| == ENTRIES && IsTable(s.mem[pml][i], level)
    ensures level >= 2 && s.mem[pml][i].addr in s.loc
              && Fits(s, s.mem[pml][i].addr, begin, last, phys, bits, level - 1, base)
  {
    hide UnmappedIn;
    hide InSlot;
    hide Tree;
    hide Holds;
    ChildRange(s.mem, s.loc, pml, i, begin - base, last + 1 - base);
  }

  lemma {:induction false} EntryLeaf(s: State, pml: nat, i: nat, begin: nat, last: nat, phys: nat, bits: Bits,
      level: nat, base: nat)
    requires Sound(s) && Fits(s, pml, begin, last, phys, bits, level, base)
    requires i < ENTRIES && InSlot(s.loc[pml], i, begin - base, last + 1 - base)
    requires pml in s.mem && |s.mem[pml]| == ENTRIES && !s.mem[pml][i].bits.present && 1 <= level <= 3
    requires last - begin + 1 == Size(level) && begin % Size(level) == 0 && (level > 1 ==> bits.large)
    ensures Outcome(s, s.(mem := s.mem[pml := s.mem[pml][i := Pte(phys, bits)]]), pml, s.loc[pml],
                    Job(begin - base, last + 1 - base, phys, bits), true)
    ensures Sound(s.(mem := s.mem[pml := s.mem[pml][i := Pte(phys, bits)]]))
  {
    hide UnmappedIn;
    hide InSlot;
    hide Tree;
    hide Holds;
    hide Outcome;
    hide Offs;
    WindowOffs(base, begin - base, level);
    LeafSound(s, pml, i, Pte(phys, bits));
    OutcomeLeaf(s, pml, i, phys, bits, begin - base);
  }

  lemma {:induction false} LeafSound(s: State, t: nat, i: nat, e: Pte)
    requires Sound(s) && t in s.loc && t in s.mem && i < |s.mem[t]| && i < ENTRIES && !s.mem[t][i].bits.present
    requires IsLeaf(e, s.loc[t].level) || !e.bits.present
    ensures Sound(s.(mem := s.mem[t := s.mem[t][i := e]]))
  {
    LeafTree(s.mem, s.loc, t, i, e);
    hide Tree;
  }

  /** The test of the code for a large page, in the 48-bit space. */
  lemma {:induction false} NotLarge(begin: nat, last: nat, phys: nat, bits: Bits, level: nat, base: nat)
    requires base % SPAN == 0 && base <= begin <= last && 1 <= level <= 4
    requires !(level != 4 && last - begin + 1 == Size(level) && begin % Size(level) == 0 && phys % Size(level) == 0
               && (((level == 3 || level == 2) && bits.large) || level == 1))
    ensures !Large(level, begin - base, last + 1 - base, phys, bits.large)
  {
    WindowOffs(base, begin - base, level);
  }

  /** An absent entry above level 1 and an empty pool: the BUG_ON that the callers have to rule out. */
  lemma {:induction false} EntryStops(s: State, pml: nat, i: nat, begin: nat, last: nat, phys: nat, bits: Bits,
      level: nat, base: nat)
    requires Sound(s) && Fits(s, pml, begin, last, phys, bits, level, base)
    requires i < ENTRIES && InSlot(s.loc[pml], i, begin - base, last + 1 - base)
    requires pml in s.mem && |s.mem[pml]| == ENTRIES && !s.mem[pml][i].bits.present && level >= 2 && s.pool == []
    requires !Large(level, begin - base, last + 1 - base, phys, bits.large)
    ensures Outcome(s, s, pml, s.loc[pml], Job(begin - base, last + 1 - base, phys, bits), false)
  {
    hide UnmappedIn;
    hide ReachesIn;
    hide InSlot;
    hide Tree;
    hide Holds;
    hide Need;
    EntryFree(s.mem, s.loc, pml, i, begin - base, last + 1 - base);
    NeedBelow(s.loc[pml], i, begin - base, last + 1 - base, phys, bits.large);
  }

  /** The parts of a range follow the entries of the table. */
  lemma {:induction false} NextEntry(w: Where, at: nat, end: nat)
    requires 1 <= w.level <= 4 && at < end && Holds(w, at) && Holds(w, end - 1) && end % PAGE == 0
    ensures var i := Offs(at, w.level); var next := Next(at, end, w.level);
      && at < next <= end && InSlot(w, i, at, next) && next % PAGE == 0 && Holds(w, next - 1)
      && (next < end ==> next % Size(w.level) == 0 && Offs(next, w.level) == i + 1 && Holds(w, next))
      && (next == end ==> Offs(end - 1, w.level) == i)
      && Offs(end - 1, w.level) >= i
  {
    var l, next := w.level, Next(at, end, w.level);
    NextSlot(at, Size(l));
    PrefixStep(at, l);
    PrefixStep(end - 1, l);
    PrefixStep(next - 1, l);
    DivMonotone(at, end - 1, Size(l));
    if next < end {
      SizeDivides(1, l, next);
      SameSlot(at, end, next, l + 1);
      PrefixStep(next, l);
    }
    SameSlot(at, end, next - 1, l + 1);
  }

  lemma {:induction false} RangeStart(s: State, pml: nat, begin: nat, last: nat, phys: nat, bits: Bits, level: nat,
      base: nat)
    requires Sound(s) && Fits(s, pml, begin, last, phys, bits, level, base)
    ensures var from, end := begin - base, last + 1 - base; var w := s.loc[pml];
      && Outcome(s, s, pml, w, Job(from, from, phys, bits), true)
      && Offs(begin, level) == Offs(from, level) <= Offs(last, level) == Offs(end - 1, level)
      && begin == Wrap(base + from) && from % PAGE == 0 && end % PAGE == 0 && 1 <= level <= 4
  {
    hide UnmappedIn;
    hide Holds;
    hide Offs;
    hide Wrap;
    hide Outcome;
    hide Next;
    hide InSlot;
    hide Sound;
    var from, end := begin - base, last + 1 - base;
    LevelBounds(s, pml);
    OutcomeStart(s, pml, s.loc[pml], from, phys, bits);
    WindowOffs(base, from, level);
    WindowOffs(base, end - 1, level);
    Unbased(base, begin);
    Unbased(base, last + 1);
    NextEntry(s.loc[pml], from, end);
    WrapWithin(begin);
  }

  /** The next part of the range is what MapEntry demands. */
  lemma {:induction false} PartReady(s0: State, s: State, pml: nat, w: Where, begin: nat, last: nat, phys: nat,
      bits: Bits, level: nat, base: nat, at: nat)
    requires Sound(s0) && Fits(s0, pml, begin, last, phys, bits, level, base) && w == s0.loc[pml]
    requires Outcome(s0, s, pml, w, Job(begin - base, at, phys, bits), true)
    requires begin - base <= at < last + 1 - base && Holds(w, at) && at % PAGE == 0
    ensures var next := Next(at, last + 1 - base, level);
      at < next <= last + 1 - base && next % PAGE == 0
      && Fits(s, pml, base + at, base + next - 1, phys + (at - (begin - base)), bits, level, base)
  {
    hide Done;
    hide UnmappedIn;
    hide Sound;
    hide Holds;
    hide ReachesIn;
    hide OnlyUnder;
    hide Next;
    hide InSlot;
    hide Need;
    var end := last + 1 - base;
    LevelBounds(s0, pml);
    Unbased(base, begin);
    Unbased(base, last + 1);
    NextEntry(w, at, end);
    StillUnmapped(s0.mem, s.mem, pml, w, Job(begin - base, at, phys, bits), end);
    UnmappedPart(s.mem, pml, w, at, Next(at, end, level), end);
    Rebased(base, at, Next(at, end, level));
    PhysAligned(phys, at, begin - base);
    hide Outcome;
  }

  lemma {:induction false} LevelBounds(s: State, pml: nat)
    requires Sound(s) && pml in s.loc
    ensures 1 <= s.loc[pml].level <= 4
  {
    TreeAt(s.mem, s.loc, pml);
  }

  lemma {:induction false} UnmappedPart(mem: Memory, t: nat, w: Where, from: nat, mid: nat, to: nat)
    requires UnmappedIn(mem, t, w, from, to) && mid <= to
    ensures UnmappedIn(mem, t, w, from, mid)
  {
  }

  lemma {:induction false} Rebased(base: nat, at: nat, next: nat)
    requires base % SPAN == 0 && at % PAGE == 0 && next % PAGE == 0
    ensures (base + at) % PAGE == 0 && (base + next) % PAGE == 0
  {
  }

  lemma {:induction false} PhysAligned(phys: nat, at: nat, from: nat)
    requires phys % PAGE == 0 && at % PAGE == 0 && from % PAGE == 0
    ensures (phys + (at - from)) % PAGE == 0
  {
  }

  lemma {:induction false} PartEnd(last: nat, level: nat, base: nat, at: nat)
    requires base % SPAN == 0 && base + at <= last < TOP && 1 <= level <= 4
    ensures var e := EntryEnd(base + at, level);
      (if e < last then e else last) == base + Next(at, last + 1 - base, level) - 1
  {
    hide EntryEnd;
    hide Wrap;
    hide Offs;
    WindowOffs(base, at, level);
    EntryEndValue(base + at, level);
  }

  /** The address arithmetic of one turn of the loop. */
  lemma {:induction false} PartArith(w: Where, last: nat, level: nat, base: nat, at: nat)
    requires base % SPAN == 0 && base + at <= last < base + SPAN <= TOP && at % PAGE == 0 && (last + 1) % PAGE == 0
    requires 1 <= level <= 4 && w.level == level && Holds(w, at) && Holds(w, last - base)
    ensures Wrap(base + at) == base + at && Offs(at, level) <= Offs(last, level)
    ensures var end := last + 1 - base; var next := Next(at, end, level);
      && (if EntryEnd(base + at, level) < last then EntryEnd(base + at, level) else last) == base + next - 1
      && InSlot(w, Offs(at, level), at, next)
      && (next < end ==> next % Size(level) == 0 && Offs(next, level) == Offs(at, level) + 1 && Holds(w, next))
      && (next < end ==> Offs(last, level) > Offs(at, level)) && (next == end ==> Offs(last, level) == Offs(at, level))
  {
    hide *;
    var end := last + 1 - base;
    Unbased(base, last + 1);
    NextEntry(w, at, end);
    NextMonotone(w, at, end);
    WindowOffs(base, end - 1, level);
    WrapWithin(base + at);
    PartEnd(last, level, base, at);
  }

  lemma {:induction false} NextMonotone(w: Where, at: nat, end: nat)
    requires 1 <= w.level <= 4 && at < end && Holds(w, at) && Holds(w, end - 1) && end % PAGE == 0
    ensures Next(at, end, w.level) < end ==> Offs(end - 1, w.level) > Offs(at, w.level)
  {
    hide *;
    NextEntry(w, at, end);
    if Next(at, end, w.level) < end {
      NextEntry(w, Next(at, end, w.level), end);
    }
  }

  lemma {:induction false} PartDone(s0: State, s1: State, s2: State, pml: nat, w: Where, job: Job, next: nat, end: nat,
      ok: bool)
    requires Outcome(s0, s1, pml, w, job, true) && w.level >= 1 && pml in s0.loc && s0.loc[pml] == w
    requires job.from <= job.to < next <= end && (job.from == job.to || job.to % Size(w.level) == 0)
    requires next == end || next % Size(w.level) == 0
    requires Outcome(s1, s2, pml, w, Job(job.to, next, job.phys + (job.to - job.from), job.bits), ok)
    ensures Outcome(s0, s2, pml, w, job.(to := if ok then next else end), ok)
    ensures pml in s2.loc && s2.loc[pml] == w
  {
    assert pml in s1.loc && pml in s2.loc;
    hide Outcome;
    OutcomeThen(s0, s1, s2, pml, w, job, Job(job.to, next, job.phys + (job.to - job.from), job.bits), ok);
    if !ok {
      OutcomeStops(s0, s2, pml, w, job.(to := next), end);
    }
  }

  lemma {:induction false} TableFits(s: State, pml: nat, i: nat, begin: nat, last: nat, phys: nat, bits: Bits,
      level: nat, base: nat)
    requires Sound(s) && Fits(s, pml, begin, last, phys, bits, level, base)
    requires i < ENTRIES && InSlot(s.loc[pml], i, begin - base, last + 1 - base)
    requires pml in s.mem && |s.mem[pml]| == ENTRIES && !s.mem[pml][i].bits.present && level >= 2 && s.pool != []
    ensures var s1 := WithTable(s, pml, i); var w := s.loc[pml];
      var job := Job(begin - base, last + 1 - base, phys, bits);
      && Sound(s1) && Extends(s.loc, s1.loc) && s1.loc[pml] == w && s1.pool == s.pool[1..]
      && Fits(s1, pml, begin, last, phys, bits, level, base)
      && pml in s1.mem && |s1.mem[pml]| == ENTRIES && IsTable(s1.mem[pml][i], level)
      && Done(s.mem, s1.mem, pml, w, Job(job.from, job.from, phys, bits)) && OnlyUnder(s.mem, s1.mem, s.loc, w)
      && !ReachesIn(s.mem, pml, w, job.from, job.to)
  {
    hide UnmappedIn;
    hide ReachesIn;
    hide InSlot;
    hide Tree;
    hide Holds;
    hide Done;
    hide OnlyUnder;
    TableTaken(s, pml, i, begin - base, last + 1 - base, phys, bits);
  }

  lemma {:induction false} InWindow(begin: nat, last: nat)
    requires begin <= last < TOP && begin / SPAN == last / SPAN
    ensures var base := begin - begin % SPAN;
      && base % SPAN == 0 && base <= begin <= last < base + SPAN <= TOP
      && begin - base == begin % SPAN && last - base == last % SPAN
  {
    var q := begin / SPAN;
    assert begin == q * SPAN + begin % SPAN && last == q * SPAN + last % SPAN;
    assert q <= TOP / SPAN - 1;
  }

  lemma {:induction false} AllHeld()
    ensures forall v: nat :: Holds(Where(4, 0), v) <==> v < SPAN
  {
    SizeValues();
  }

  lemma {:induction false} LowOffs(addr: nat, level: nat)
    requires 1 <= level <= 4
    ensures Offs(addr % SPAN, level) == Offs(addr, level)
  {
    WindowOffs(addr - addr % SPAN, addr % SPAN, level);
  }

  lemma {:induction false} StepDown(s: State, t: nat, addr: nat)
    requires var x := addr % SPAN;
      Sound(s) && t in s.loc && s.loc[t].level >= 2 && Holds(s.loc[t], x) && Reaches(s.mem, t, s.loc[t].level, x)
    ensures var l := s.loc[t].level; var x := addr % SPAN;
      && t in s.mem && |s.mem[t]| == ENTRIES && l <= 4
      && var c := s.mem[t][Offs(addr, l)].addr;
         c in s.loc && s.loc[c].level == l - 1 && Holds(s.loc[c], x) && Reaches(s.mem, c, l - 1, x)
         && LastTable(s.mem, t, l, x) == LastTable(s.mem, c, l - 1, x)
  {
    hide Holds;
    TreeAt(s.mem, s.loc, t);
    LowOffs(addr, s.loc[t].level);
    ChildHolds(s.loc[t], addr % SPAN);
  }

  lemma {:induction false} ClearTree(s: State, t: nat, i: nat)
    requires Sound(s) && t in s.loc && s.loc[t].level == 1 && i < ENTRIES
    ensures t in s.mem && |s.mem[t]| == ENTRIES && Tree(s.mem[t := s.mem[t][i := ZERO]], s.loc)
  {
    TreeAt(s.mem, s.loc, t);
    var mem' := s.mem[t := s.mem[t][i := ZERO]];
    forall p | p in s.loc
      ensures TableOk(mem', s.loc, p)
    {
      assert TableOk(s.mem, s.loc, p);
    }
  }

  /** Clearing the entry for x in a level-1 table changes walks for x's page only. */
  lemma {:induction false} ClearOther(s: State, u: nat, t: nat, x: nat, v: nat)
    requires Sound(s) && t in s.loc && s.loc[t].level == 1 && Holds(s.loc[t], x) && t in s.mem && |s.mem[t]| == ENTRIES
    requires u in s.loc && Holds(s.loc[u], v)
    ensures var mem' := s.mem[t := s.mem[t][Offs(x, 1) := ZERO]]; var l := s.loc[u].level;
      && Reaches(mem', u, l, v) == Reaches(s.mem, u, l, v)
      && (v / PAGE != x / PAGE ==> Walk(mem', u, l, v) == Walk(s.mem, u, l, v))
    decreases s.loc[u].level
  {
    TreeAt(s.mem, s.loc, u);
    var l, e := s.loc[u].level, s.mem[u][Offs(v, s.loc[u].level)];
    if u == t {
      PrefixStep(x, 1);
      PrefixStep(v, 1);
      assert Size(1) == PAGE;
    } else if IsTable(e, l) {
      ChildHolds(s.loc[u], v);
      hide Holds;
      hide Sound;
      ClearOther(s, e.addr, t, x, v);
    }
  }

  /** The level-1 table of a walk that reaches one. */
  function LastTable(mem: Memory, t: nat, level: nat, v: nat): nat
    decreases level
  {
    if level <= 1 || t !in mem
      || |mem[t]| != ENTRIES then t else LastTable(mem, mem[t][Offs(v, level)].addr, level - 1, v)
  }

  lemma {:induction false} SamePage(x: nat, v: nat, level: nat)
    requires x / PAGE == v / PAGE && level >= 1
    ensures x / Size(level) == v / Size(level) && Offs(x, level) == Offs(v, level)
  {
    if level > 1 {
      SamePage(x, v, level - 1);
      DivDiv(x, Size(level - 1));
      DivDiv(v, Size(level - 1));
    }
  }

  /** After the clearing, x's page is unmapped. */
  lemma {:induction false} ClearSame(s: State, u: nat, t: nat, x: nat, v: nat)
    requires Sound(s) && t in s.loc && s.loc[t].level == 1 && t in s.mem && |s.mem[t]| == ENTRIES
    requires u in s.loc && Reaches(s.mem, u, s.loc[u].level, x) && v / PAGE == x / PAGE
               && LastTable(s.mem, u, s.loc[u].level, x) == t
    ensures Walk(s.mem[t := s.mem[t][Offs(x, 1) := ZERO]], u, s.loc[u].level, v) == Unmapped
    decreases s.loc[u].level
  {
    TreeAt(s.mem, s.loc, u);
    var l := s.loc[u].level;
    SamePage(x, v, l);
    if l > 1 {
      hide Sound;
      ClearSame(s, s.mem[u][Offs(x, l)].addr, t, x, v);
    }
  }

  lemma {:induction false} ClearStep(s: State, root: nat, t: nat, x: nat, v: nat)
    requires Sound(s) && t in s.loc && s.loc[t].level == 1 && Holds(s.loc[t], x) && t in s.mem && |s.mem[t]| == ENTRIES
    requires root in s.loc && Holds(s.loc[root], v) && Reaches(s.mem, root, s.loc[root].level, x)
    requires LastTable(s.mem, root, s.loc[root].level, x) == t
    ensures var mem' := s.mem[t := s.mem[t][Offs(x, 1) := ZERO]]; var l := s.loc[root].level;
      && Walk(mem', root, l, v) == (if v / PAGE == x / PAGE then Unmapped else Walk(s.mem, root, l, v))
      && Reaches(mem', root, l, v) == Reaches(s.mem, root, l, v)
  {
    hide Walk;
    hide Reaches;
    hide Holds;
    hide Sound;
    hide LastTable;
    ClearOther(s, root, t, x, v);
    if v / PAGE == x / PAGE {
      ClearSame(s, root, t, x, v);
    }
  }

  lemma {:induction false} FromOutcome(s0: State, s1: State, root: nat, job: Job, ok: bool)
    requires Outcome(s0, s1, root, Where(4, 0), job, ok)
    ensures ok ==> forall v: nat | v < SPAN ::
              && Walk(s1.mem, root, 4, v) == Wanted(job, Walk(s0.mem, root, 4, v), v)
              && (Reaches(s0.mem, root, 4, v) ==> Reaches(s1.mem, root, 4, v))
              && (!job.bits.large && job.from <= v < job.to ==> Reaches(s1.mem, root, 4, v))
    ensures |s0.pool| >= Needed(4, job) ==> ok
    ensures ReachesIn(s0.mem, root, Where(4, 0), job.from, job.to) ==> ok && s1.pool == s0.pool
  {
    hide Walk;
    hide Reaches;
    hide Wanted;
    hide Need;
    hide Sound;
    AllHeld();
  }

  /** The page tables below one root, and the pool that pool_get_page draws zeroed pages from. */
  class AddressSpace {
    const root: nat
    var mem: Memory
    var pool: seq<nat>
    ghost var loc: map<nat, Where>

    ghost function Now(): State
      reads this
    {
      State(mem, loc, pool)
    }

    ghost predicate Valid()
      reads this
    {
      Sound(Now()) && root in loc && loc[root] == Where(4, 0)
    }

    /** An empty level-4 table. */
    constructor (page: nat, pages: seq<nat>)
      requires NoDuplicates(pages) && page !in pages && forall p | p in pages :: p > 0 && p % PAGE == 0
      ensures Valid() && root == page && pool == pages
      ensures forall v: nat | v < SPAN :: Walk(mem, root, 4, v) == Unmapped
    {
      root := page;
      mem := map[page := NewTable()];
      pool := pages;
      loc := map[page := Where(4, 0)];
    }

    /** The body of the loop of __pt_map_pages, for entry i. */
    method MapEntry(pml: nat, i: nat, begin: nat, last: nat, phys: nat, bits: Bits, level: nat, ghost base: nat)
        returns (ok: bool)
      requires Valid() && Fits(Now(), pml, begin, last, phys, bits, level, base)
      requires i < ENTRIES && InSlot(loc[pml], i, begin - base, last + 1 - base)
      modifies this`mem, this`pool, this`loc
      ensures Valid()
      ensures Outcome(old(Now()), Now(), pml, old(loc[pml]), Job(begin - base, last + 1 - base, phys, bits), ok)
      decreases level, 0
    {
      hide Sound;
      hide Outcome;
      hide InSlot;
      hide Walk;
      hide Tree;
      hide Done;
      hide OnlyUnder;
      hide ReachesIn;
      hide UnmappedIn;
      hide Holds;
      ghost var s0, job := Now(), Job(begin - base, last + 1 - base, phys, bits);
      EntryReady(s0, pml, i, begin, last, phys, bits, level, base);
      var tomap, aligned := last - begin + 1, begin % Size(level) == 0 && phys % Size(level) == 0;
      var large := (level == 3 || level == 2) && bits.large;
      if mem[pml][i].bits.present {
        assert level != 1;
        ChildFits(s0, pml, i, begin, last, phys, bits, level, base);
        ok := MapRange(mem[pml][i].addr, begin, last, phys, bits, level - 1, base);
        OutcomeChild(s0, Now(), pml, i, job, ok);
      } else if level != 4 && tomap == Size(level) && aligned && (large || level == 1) {
        EntryLeaf(s0, pml, i, begin, last, phys, bits, level, base);
        mem := mem[pml := mem[pml][i := Pte(phys, bits)]];
        ok := true;
      } else {
        assert level != 1;
        NotLarge(begin, last, phys, bits, level, base);
        if pool == [] {
          EntryStops(s0, pml, i, begin, last, phys, bits, level, base);
          return false;
        }
        TableFits(s0, pml, i, begin, last, phys, bits, level, base);
        ghost var s1 := WithTable(s0, pml, i);
        mem := mem[pool[0] := NewTable()][pml := mem[pml][i := Pte(pool[0], TABLE_BITS)]];
        loc := loc[pool[0] := Where(level - 1, loc[pml].prefix * 512 + i)];
        pool := pool[1..];
        ChildFits(s1, pml, i, begin, last, phys, bits, level, base);
        ok := MapRange(mem[pml][i].addr, begin, last, phys, bits, level - 1, base);
        OutcomeChild(s1, Now(), pml, i, job, ok);
        OutcomeTaken(s0, s1, Now(), pml, s0.loc[pml], job, ok);
      }
    }

    /** __pt_map_pages: both ends are in the range, and it does the job from the given table down. */
    method MapRange(pml: nat, begin: nat, last: nat, phys: nat, bits: Bits, level: nat, ghost base: nat)
        returns (ok: bool)
      requires Valid() && Fits(Now(), pml, begin, last, phys, bits, level, base)
      modifies this`mem, this`pool, this`loc
      ensures Valid()
      ensures Outcome(old(Now()), Now(), pml, old(loc[pml]), Job(begin - base, last + 1 - base, phys, bits), ok)
      decreases level, 1
    {
      hide Outcome;
      hide Walk;
      hide Tree;
      hide InSlot;
      hide UnmappedIn;
      hide Holds;
      hide Wrap;
      hide EntryEnd;
      hide Next;
      hide Sound;
      ghost var s0, from0, end, at := Now(), begin - base, last + 1 - base, begin - base;
      ghost var w := loc[pml];
      RangeStart(s0, pml, begin, last, phys, bits, level, base);
      var final := Offs(last, level);
      var i, va, pa := Offs(begin, level), begin, phys;
      while i <= final
        invariant Valid() && pml in loc && loc[pml] == w
        invariant from0 <= at <= end && va == Wrap(base + at) && pa == phys + (at - from0)
        invariant Outcome(s0, Now(), pml, w, Job(from0, at, phys, bits), true)
        invariant i <= final + 1
        invariant i <= final ==> at < end && i == Offs(at, level) && Holds(w, at) && at % PAGE == 0
        invariant i > final ==> at == end
        invariant at == from0 || at == end || at % Size(level) == 0
        decreases final + 1 - i
      {
        ghost var next := Next(at, end, level);
        PartReady(s0, Now(), pml, w, begin, last, phys, bits, level, base, at);
        PartArith(w, last, level, base, at);
        var entryEnd := EntryEnd(va, level);
        var mapEnd := if entryEnd < last then entryEnd else last;
        var tomap := mapEnd - va + 1;
        ghost var s1 := Now();
        ok := MapEntry(pml, i, va, mapEnd, pa, bits, level, base);
        PartDone(s0, s1, Now(), pml, w, Job(from0, at, phys, bits), next, end, ok);
        if !ok {
          return;
        }
        va, pa, i := Wrap(va + tomap), pa + tomap, i + 1;
        at := next;
      }
      ok := true;
    }

    /** A range within one 48-bit window, its last address included. */
    ghost predicate Range(begin: nat, last: nat, phys: nat) {
      && begin <= last < TOP && begin / SPAN == last / SPAN
      && begin % PAGE == 0 && (last + 1) % PAGE == 0 && phys % PAGE == 0 && phys + (last - begin + 1) <= PHYS_LIMIT
    }

    /** pt_map_pages: each address of [begin, end) is sent to phys + (a - begin); no other translation changes.  It
        does not run out of pages when the pool holds as many as the range can need, nor when its tables are there.
        */
    method MapPages(begin: nat, end: nat, phys: nat, write: bool) returns (ok: bool)
      requires Valid() && begin < TOP && end < TOP && Range(begin, Wrap(end - 1), phys)
      requires forall v: nat | begin % SPAN <= v <= Wrap(end - 1) % SPAN :: Walk(mem, root, 4, v) == Unmapped
      modifies this`mem, this`pool, this`loc
      ensures Valid()
      ensures ok ==> forall v: nat | v < SPAN ::
                && Walk(mem, root, 4, v) == (if begin % SPAN <= v <= Wrap(end - 1) % SPAN
                   then Mapped(phys + (v - begin % SPAN), write, false) else Walk(old(mem), root, 4, v))
                && (Reaches(old(mem), root, 4, v) ==> Reaches(mem, root, 4, v))
      ensures |old(pool)| >= Need(4, begin % SPAN, Wrap(end - 1) % SPAN + 1, phys, true) ==> ok
      ensures (forall v: nat | begin % SPAN <= v <= Wrap(end - 1) % SPAN :: Reaches(old(mem), root, 4, v)) ==>
                ok && pool == old(pool)
    {
      ok := MapAll(begin, Wrap(end - 1), phys, Bits(true, write, false, true));
    }

    /** pt_populate_pages: all tables of the range exist afterwards and no translation changes. */
    method PopulatePages(begin: nat, end: nat) returns (ok: bool)
      requires Valid() && begin < TOP && end < TOP && Range(begin, Wrap(end - 1), 0)
      requires forall v: nat | begin % SPAN <= v <= Wrap(end - 1) % SPAN :: Walk(mem, root, 4, v) == Unmapped
      modifies this`mem, this`pool, this`loc
      ensures Valid()
      ensures ok ==> forall v: nat | v < SPAN ::
                && Walk(mem, root, 4, v) == Walk(old(mem), root, 4, v)
                   && (Reaches(old(mem), root, 4, v) ==> Reaches(mem, root, 4, v))
                && (begin % SPAN <= v <= Wrap(end - 1) % SPAN ==> Reaches(mem, root, 4, v))
      ensures |old(pool)| >= Need(4, begin % SPAN, Wrap(end - 1) % SPAN + 1, 0, false) ==> ok
    {
      ok := MapAll(begin, Wrap(end - 1), 0, NO_BITS);
    }

    method MapAll(begin: nat, last: nat, phys: nat, bits: Bits) returns (ok: bool)
      requires Valid() && Range(begin, last, phys) && (bits.large ==> bits.present)
      requires forall v: nat | begin % SPAN <= v <= last % SPAN :: Walk(mem, root, 4, v) == Unmapped
      modifies this`mem, this`pool, this`loc
      ensures Valid()
      ensures ok ==> forall v: nat | v < SPAN ::
                && Walk(mem, root, 4, v) == Wanted(Job(begin % SPAN, last % SPAN + 1, phys, bits),
                   Walk(old(mem), root, 4, v), v)
                && (Reaches(old(mem), root, 4, v) ==> Reaches(mem, root, 4, v))
                && (!bits.large && begin % SPAN <= v <= last % SPAN ==> Reaches(mem, root, 4, v))
      ensures |old(pool)| >= Need(4, begin % SPAN, last % SPAN + 1, phys, bits.large) ==> ok
      ensures (forall v: nat | begin % SPAN <= v <= last % SPAN :: Reaches(old(mem), root, 4, v)) ==>
                ok && pool == old(pool)
    {
      hide Walk;
      hide Reaches;
      hide Wanted;
      hide Need;
      hide Sound;
      hide Range;
      hide Fits;
      hide Outcome;
      ghost var s0, from, to := Now(), begin % SPAN, last % SPAN + 1;
      RootFits(begin, last, phys, bits);
      FromRoot(from, to);
      ok := MapRange(root, begin, last, phys, bits, 4, begin - from);
      FromOutcome(s0, Now(), root, Job(from, to, phys, bits), ok);
    }

    lemma RootFits(begin: nat, last: nat, phys: nat, bits: Bits)
      requires Valid() && Range(begin, last, phys) && (bits.large ==> bits.present)
      requires forall v: nat | begin % SPAN <= v <= last % SPAN :: Walk(mem, root, 4, v) == Unmapped
      ensures begin % SPAN <= begin && Fits(Now(), root, begin, last, phys, bits, 4, begin - begin % SPAN)
      ensures var base := begin - begin % SPAN; begin - base == begin % SPAN && last + 1 - base == last % SPAN + 1
    {
      hide Walk;
      hide Sound;
      hide Holds;
      InWindow(begin, last);
      AllHeld();
      FromRoot(begin % SPAN, last % SPAN + 1);
      hide UnmappedIn;
    }

    lemma FromRoot(from: nat, to: nat)
      requires Valid()
      ensures (forall v: nat | from <= v < to :: Walk(mem, root, 4, v) == Unmapped) ==>
                UnmappedIn(mem, root, loc[root], from, to)
      ensures (forall v: nat | from <= v < to :: Reaches(mem, root, 4, v)) ==> ReachesIn(mem, root, loc[root], from, to)
    {
      hide Walk;
      hide Reaches;
    }

    /** The body of kunmap's loop: four unchecked steps down from the root, and the last entry is cleared. */
    method ClearPage(addr: nat)
      requires Valid() && Reaches(mem, root, 4, addr % SPAN)
      modifies this`mem
      ensures Valid()
      ensures forall v: nat | v < SPAN ::
                && Walk(mem, root, 4, v) == (if v / PAGE == addr % SPAN / PAGE then Unmapped
                   else Walk(old(mem), root, 4, v))
                && Reaches(mem, root, 4, v) == Reaches(old(mem), root, 4, v)
    {
      hide Walk;
      hide Reaches;
      hide Tree;
      hide Holds;
      ghost var x := addr % SPAN;
      var t, l := root, 4;
      AllHeld();
      while l > 1
        invariant Valid() && Now() == old(Now())
        invariant 1 <= l <= 4 && t in loc && loc[t].level == l && Holds(loc[t], x) && Reaches(mem, t, l, x)
        invariant LastTable(mem, t, l, x) == LastTable(mem, root, 4, x)
        decreases l
      {
        StepDown(Now(), t, addr);
        t := mem[t][Offs(addr, l)].addr;
        l := l - 1;
      }
      TreeAt(mem, loc, t);
      LowOffs(addr, 1);
      assert LastTable(mem, t, 1, x) == t;
      ClearTree(Now(), t, Offs(x, 1));
      ghost var cleared := mem[t := mem[t][Offs(x, 1) := ZERO]];
      forall v: nat | v < SPAN
        ensures Walk(cleared, root, 4, v) == (if v / PAGE == x / PAGE then Unmapped else Walk(mem, root, 4, v))
        ensures Reaches(cleared, root, 4, v) == Reaches(mem, root, 4, v)
      {
        ClearStep(Now(), root, t, x, v);
      }
      mem := mem[t := mem[t][Offs(addr, 1) := ZERO]];
      assert mem == cleared;
    }
  }
}
