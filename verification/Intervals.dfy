/** Sorted, strictly separated interval lists: what the boot allocator's trees hold, read in order. */
module Intervals {
  import opened Powers

  datatype Interval = Interval(begin: nat, end: nat)

  predicate Separated(s: seq<Interval>) {
    && (forall i | 0 <= i < |s| :: s[i].begin < s[i].end)
    && (forall i, j | 0 <= i < j < |s| :: s[i].end < s[j].begin)
  }

  predicate Covers(s: seq<Interval>, x: int) {
    exists i | 0 <= i < |s| :: s[i].begin <= x < s[i].end
  }

  // ----- adding a range -----

  /** How many intervals start below x, the list being sorted. */
  function Below(s: seq<Interval>, x: nat): (p: nat)
    ensures p <= |s|
    ensures forall i | 0 <= i < p :: s[i].begin < x
    ensures p < |s| ==> s[p].begin >= x
  {
    if s == [] || s[0].begin >= x then 0 else 1 + Below(s[1..], x)
  }

  predicate JoinsPrevious(s: seq<Interval>, from: nat) {
    var p := Below(s, from);
    p > 0 && s[p - 1].end >= from
  }

  /** The new interval's end once the previous interval has been merged. */
  function Reach(s: seq<Interval>, from: nat, to: nat): nat {
    var p := Below(s, from);
    if JoinsPrevious(s, from) && s[p - 1].end > to then s[p - 1].end else to
  }

  predicate JoinsNext(s: seq<Interval>, from: nat, to: nat) {
    var p := Below(s, from);
    p < |s| && s[p].begin <= Reach(s, from, to)
  }

  /** The intervals a..b of the list are replaced by v. */
  function Spliced(s: seq<Interval>, a: nat, v: Interval, b: nat): seq<Interval>
    requires a <= b <= |s|
  {
    s[..a] + [v] + s[b..]
  }

  /** Where __balloc_add_range splices: it merges at most one interval on each side. */
  function AddLow(s: seq<Interval>, from: nat): (a: nat)
    ensures a <= Below(s, from)
  {
    if JoinsPrevious(s, from) then Below(s, from) - 1 else Below(s, from)
  }

  function AddHigh(s: seq<Interval>, from: nat, to: nat): (b: nat)
    ensures Below(s, from) <= b <= |s|
  {
    if JoinsNext(s, from, to) then Below(s, from) + 1 else Below(s, from)
  }

  /** The merged interval; when the next one is merged, its end is taken whatever it is. */
  function AddNew(s: seq<Interval>, from: nat, to: nat): Interval {
    var p := Below(s, from);
    Interval(if JoinsPrevious(s, from) then s[p - 1].begin else from, if JoinsNext(s, from, to) then s[p].end
      else Reach(s, from, to))
  }

  /** The list after __balloc_add_range. */
  function Added(s: seq<Interval>, from: nat, to: nat): seq<Interval> {
    Spliced(s, AddLow(s, from), AddNew(s, from, to), AddHigh(s, from, to))
  }

  lemma {:induction false} BelowUnique(s: seq<Interval>, x: nat, p: nat)
    requires Separated(s) && p <= |s|
    requires forall i | 0 <= i < p :: s[i].begin < x
    requires p < |s| ==> s[p].begin >= x
    ensures Below(s, x) == p
  {
  }

  lemma {:induction false} JoinSeparated(a: seq<Interval>, b: seq<Interval>)
    requires Separated(a) && Separated(b)
    requires a != [] && b != [] ==> a[|a| - 1].end < b[0].begin
    ensures Separated(a + b)
  {
    forall i, j | 0 <= i < j < |a + b|
      ensures (a + b)[i].end < (a + b)[j].begin
    {
      if i < |a| <= j {
        assert a[i].end <= a[|a| - 1].end < b[0].begin <= b[j - |a|].begin;
      }
    }
  }

  lemma {:induction false} SplitSeparated(s: seq<Interval>, t: seq<Interval>)
    requires Separated(s + t)
    ensures Separated(s) && Separated(t)
    ensures s != [] && t != [] ==> s[|s| - 1].end < t[0].begin
  {
    assert forall i | 0 <= i < |s| :: (s + t)[i] == s[i];
    assert forall i | 0 <= i < |t| :: (s + t)[|s| + i] == t[i];
  }

  lemma {:induction false} SeparatedOut(s: seq<Interval>, v: Interval, t: seq<Interval>)
    requires Separated(s + [v] + t)
    ensures v.begin < v.end && Separated(s + t)
    ensures (s != [] ==> s[|s| - 1].end < v.begin) && (t != [] ==> v.end < t[0].begin)
  {
    SplitSeparated(s + [v], t);
    SplitSeparated(s, [v]);
    assert [v][0].begin < [v][0].end;
    JoinSeparated(s, t);
  }

  lemma {:induction false} SplicedSeparated(s: seq<Interval>, a: nat, v: Interval, b: nat)
    requires Separated(s) && a <= b <= |s| && v.begin < v.end
    requires (a > 0 ==> s[a - 1].end < v.begin) && (b < |s| ==> v.end < s[b].begin)
    ensures Separated(Spliced(s, a, v, b))
  {
    JoinSeparated(s[..a], [v]);
    JoinSeparated(s[..a] + [v], s[b..]);
  }

  lemma {:induction false} SplicedCovers(s: seq<Interval>, a: nat, v: Interval, b: nat, x: int)
    requires a <= b <= |s|
    ensures Covers(Spliced(s, a, v, b), x) <==> Covers(s[..a], x) || v.begin <= x < v.end || Covers(s[b..], x)
  {
    CoversConcat(s[..a] + [v], s[b..], x);
    CoversConcat(s[..a], [v], x);
    CoversOne(v, x);
  }

  lemma {:induction false} CoversOne(v: Interval, x: int)
    ensures Covers([v], x) <==> v.begin <= x < v.end
  {
    if v.begin <= x < v.end {
      assert [v][0].begin <= x;
    }
  }

  lemma {:induction false} CoversConcat(a: seq<Interval>, b: seq<Interval>, x: int)
    ensures Covers(a + b, x) <==> Covers(a, x) || Covers(b, x)
  {
    if i :| 0 <= i < |a| && a[i].begin <= x < a[i].end {
      assert (a + b)[i] == a[i];
    }
    if i :| 0 <= i < |b| && b[i].begin <= x < b[i].end {
      assert (a + b)[|a| + i] == b[i];
    }
  }

  /** The list stays sorted and strictly separated. */
  lemma {:induction false} AddedSeparated(s: seq<Interval>, from: nat, to: nat)
    requires Separated(s) && from < to
    ensures Separated(Added(s, from, to))
  {
    SplicedSeparated(s, AddLow(s, from), AddNew(s, from, to), AddHigh(s, from, to));
  }

  lemma {:induction false} CutCovers(s: seq<Interval>, a: nat, b: nat, x: int)
    requires a <= b <= |s|
    ensures Covers(s, x) <==> Covers(s[..a], x) || Covers(s[a..b], x) || Covers(s[b..], x)
  {
    assert s == s[..a] + s[a..b] + s[b..];
    CoversConcat(s[..a] + s[a..b], s[b..], x);
    CoversConcat(s[..a], s[a..b], x);
  }

  lemma {:induction false} MiddleCovers(s: seq<Interval>, a: nat, p: nat, b: nat, x: int)
    requires a <= p <= b <= |s| && p - a <= 1 && b - p <= 1
    ensures Covers(s[a..b], x) <==> (a < p && s[a].begin <= x < s[a].end) || (p < b && s[p].begin <= x < s[p].end)
  {
    assert a < p ==> s[a..b][0] == s[a];
    assert p < b ==> s[a..b][p - a] == s[p];
  }

  /** Which bytes are covered after adding. */
  lemma {:induction false} AddedCovers(s: seq<Interval>, from: nat, to: nat, x: int)
    requires Separated(s) && from < to
    ensures Covers(Added(s, from, to), x) <==> Covers(s, x) || from <= x < AddNew(s, from, to).end
  {
    var a, b, v := AddLow(s, from), AddHigh(s, from, to), AddNew(s, from, to);
    SplicedCovers(s, a, v, b, x);
    CutCovers(s, a, b, x);
    MiddleCovers(s, a, Below(s, from), b, x);
  }

  /** Nothing that was covered is lost, and nothing outside the range is gained. */
  lemma {:induction false} AddedBounds(s: seq<Interval>, from: nat, to: nat, x: int)
    requires Separated(s) && from < to
    ensures Covers(s, x) ==> Covers(Added(s, from, to), x)
    ensures Covers(Added(s, from, to), x) ==> Covers(s, x) || from <= x < to
  {
    AddedCovers(s, from, to, x);
  }

  /** An interval that starts inside the new range, or where it ends, but ends before it. */
  predicate Swallows(s: seq<Interval>, from: nat, to: nat) {
    exists i | 0 <= i < |s| :: from <= s[i].begin <= to && s[i].end < to
  }

  lemma {:induction false} SwallowedEnd(s: seq<Interval>, from: nat, to: nat)
    requires Separated(s) && from < to && Swallows(s, from, to)
    ensures var e := AddNew(s, from, to).end; from <= e < to && !Covers(s, e)
  {
    var p := Below(s, from);
    var i :| 0 <= i < |s| && from <= s[i].begin <= to && s[i].end < to;
    assert p <= i && s[p].begin <= to && s[p].end < to;
    assert JoinsNext(s, from, to) && AddNew(s, from, to).end == s[p].end;
    hide *;
    EndUncovered(s, p);
  }

  lemma {:induction false} EndUncovered(s: seq<Interval>, p: nat)
    requires Separated(s) && p < |s|
    ensures s[p].begin < s[p].end && !Covers(s, s[p].end)
  {
  }

  lemma {:induction false} KeptEnd(s: seq<Interval>, from: nat, to: nat, x: int)
    requires Separated(s) && from < to && !Swallows(s, from, to)
    ensures Covers(s, x) || from <= x < AddNew(s, from, to).end <==> Covers(s, x) || from <= x < to
  {
    var p := Below(s, from);
    if JoinsNext(s, from, to) && p < |s| {
      assert s[p].begin <= to ==> s[p].end >= to;
    }
  }

  /** Adding is set union exactly when the range swallows no whole interval. */
  lemma {:induction false} AddedIsUnion(s: seq<Interval>, from: nat, to: nat)
    requires Separated(s) && from < to
    ensures (forall x: int :: Covers(Added(s, from, to), x) <==> Covers(s, x) || from <= x < to) <==>
              !Swallows(s, from, to)
  {
    hide *;
    forall x: int
      ensures Covers(Added(s, from, to), x) <==> Covers(s, x) || from <= x < AddNew(s, from, to).end
      ensures !Swallows(s, from, to) ==> (Covers(Added(s, from, to), x) <==> Covers(s, x) || from <= x < to)
    {
      AddedCovers(s, from, to, x);
      if !Swallows(s, from, to) {
        KeptEnd(s, from, to, x);
      }
    }
    if Swallows(s, from, to) {
      SwallowedEnd(s, from, to);
      var e := AddNew(s, from, to).end;
      assert !Covers(Added(s, from, to), e);
    }
  }

  /** For every input, the bytes that adding covers: of the new range only those before the end of each interval that
      starts inside it, or where it ends. */
  lemma {:induction false} AddedExactly(s: seq<Interval>, from: nat, to: nat, x: int)
    requires Separated(s) && from < to
    ensures Covers(Added(s, from, to), x) <==>
              || Covers(s, x)
              || (from <= x < to && forall i | 0 <= i < |s| && from <= s[i].begin <= to :: x < s[i].end)
  {
    AddedCovers(s, from, to, x);
    hide Added;
    var p, e := Below(s, from), AddNew(s, from, to).end;
    if JoinsNext(s, from, to) {
      assert s[p].begin <= to && e == s[p].end;
      assert forall i | p <= i < |s| :: s[i].end >= e;
    } else if JoinsPrevious(s, from) && s[p - 1].end > to {
      assert from <= x < e ==> s[p - 1].begin <= x < s[p - 1].end;
    }
  }

  /** The first byte of the new range is covered in any case. */
  lemma {:induction false} FirstAdded(s: seq<Interval>, from: nat, to: nat)
    requires Separated(s) && from < to
    ensures Covers(Added(s, from, to), from)
  {
    AddedExactly(s, from, to, from);
    hide Added;
    hide Covers;
  }

  /** An input for which adding is not union: the range loses what lies beyond the interval it swallows. */
  lemma {:induction false} AddedTooShort()
    ensures var s := [Interval(2, 3)];
      Separated(s) && Swallows(s, 1, 5) && Added(s, 1, 5) == [Interval(1, 3)] && !Covers(Added(s, 1, 5), 4)
  {
    var s := [Interval(2, 3)];
    BelowUnique(s, 1, 0);
    assert s[0].begin <= 5;
    assert s[..0] + [Interval(1, 3)] + s[1..] == [Interval(1, 3)];
  }

  /** Adding into a gap merges nothing. */
  lemma {:induction false} AddInGap(s: seq<Interval>, t: seq<Interval>, from: nat, to: nat)
    requires Separated(s + t) && from < to
    requires s != [] ==> s[|s| - 1].end < from
    requires t != [] ==> to < t[0].begin
    ensures Below(s + t, from) == |s| && !JoinsPrevious(s + t, from) && !JoinsNext(s + t, from, to)
    ensures AddLow(s + t, from) == |s| == AddHigh(s + t, from, to) && AddNew(s + t, from, to) == Interval(from, to)
    ensures Added(s + t, from, to) == s + [Interval(from, to)] + t
  {
    var v := s + t;
    assert s != [] ==> v[|s| - 1] == s[|s| - 1];
    assert t != [] ==> v[|s|] == t[0];
    assert forall i | 0 <= i < |s| - 1 :: v[i].end < v[|s| - 1].begin;
    BelowUnique(v, from, |s|);
    assert v[..|s|] == s && v[|s|..] == t;
  }

  // ----- removing a range -----

  /** The first interval that ends above x, the list being sorted. */
  function EndsBy(s: seq<Interval>, x: nat): (p: nat)
    ensures p <= |s|
    ensures forall i | 0 <= i < p :: s[i].end <= x
    ensures p < |s| ==> s[p].end > x
  {
    if s == [] || s[0].end > x then 0 else 1 + EndsBy(s[1..], x)
  }

  lemma {:induction false} EndsByUnique(s: seq<Interval>, x: nat, p: nat)
    requires Separated(s) && p <= |s|
    requires forall i | 0 <= i < p :: s[i].end <= x
    requires p < |s| ==> s[p].end > x
    ensures EndsBy(s, x) == p
  {
  }

  /** What is left of one interval. */
  function Pieces(v: Interval, from: nat, to: nat): seq<Interval> {
    (if v.begin < from then [Interval(v.begin, if v.end < from then v.end else from)] else [])
    + (if v.end > to then [Interval(if v.begin > to then v.begin else to, v.end)] else [])
  }

  function Removed(s: seq<Interval>, from: nat, to: nat): seq<Interval> {
    if s == [] then [] else Removed(s[..|s| - 1], from, to) + Pieces(s[|s| - 1], from, to)
  }

  lemma {:induction false} RemovedSeparated(s: seq<Interval>, from: nat, to: nat)
    requires Separated(s) && from < to
    ensures Separated(Removed(s, from, to))
    ensures forall i | 0 <= i < |Removed(s, from, to)| :: s != [] && Removed(s, from, to)[i].end <= s[|s| - 1].end
  {
    if s != [] {
      var t, v := s[..|s| - 1], s[|s| - 1];
      RemovedSeparated(t, from, to);
      assert t != [] ==> t[|t| - 1].end < v.begin;
      PiecesSeparated(v, from, to);
      hide *;
      AppendPieces(Removed(t, from, to), Pieces(v, from, to), v);
      RemovedSnoc(t, v, from, to);
      assert s == t + [v];
    }
  }

  lemma {:induction false} PiecesSeparated(v: Interval, from: nat, to: nat)
    requires v.begin < v.end && from < to
    ensures Separated(Pieces(v, from, to))
    ensures forall i | 0 <= i < |Pieces(v, from, to)| ::
              v.begin <= Pieces(v, from, to)[i].begin && Pieces(v, from, to)[i].end <= v.end
  {
  }

  lemma {:induction false} AppendPieces(s: seq<Interval>, t: seq<Interval>, v: Interval)
    requires Separated(s) && Separated(t) && v.begin < v.end
    requires forall i | 0 <= i < |s| :: s[i].end < v.begin
    requires forall i | 0 <= i < |t| :: v.begin <= t[i].begin && t[i].end <= v.end
    ensures Separated(s + t) && forall i | 0 <= i < |s + t| :: (s + t)[i].end <= v.end
  {
    JoinSeparated(s, t);
  }

  /** Removing is exact set difference. */
  lemma {:induction false} RemovedIsDifference(s: seq<Interval>, from: nat, to: nat, x: int)
    requires from < to
    ensures Covers(Removed(s, from, to), x) <==> Covers(s, x) && !(from <= x < to)
  {
    if s != [] {
      var v, t := s[|s| - 1], s[..|s| - 1];
      RemovedIsDifference(t, from, to, x);
      CoversConcat(Removed(t, from, to), Pieces(v, from, to), x);
      CoversConcat(t, [v], x);
      assert s == t + [v];
      CoversOne(v, x);
      PiecesCover(v, from, to, x);
    }
  }

  lemma {:induction false} RemovedSnoc(s: seq<Interval>, v: Interval, from: nat, to: nat)
    ensures Removed(s + [v], from, to) == Removed(s, from, to) + Pieces(v, from, to)
  {
    assert (s + [v])[..|s|] == s;
  }

  /** Intervals that miss the range stay as they are. */
  lemma {:induction false} RemovedMiss(s: seq<Interval>, t: seq<Interval>, from: nat, to: nat)
    requires from < to && forall i | 0 <= i < |t| :: t[i].begin < t[i].end && (t[i].end <= from || to <= t[i].begin)
    ensures Removed(s + t, from, to) == Removed(s, from, to) + t
  {
    hide Removed;
    if t == [] {
      assert s + t == s;
    } else {
      var u, v := t[..|t| - 1], t[|t| - 1];
      RemovedMiss(s, u, from, to);
      RemovedSnoc(s + u, v, from, to);
      assert Pieces(v, from, to) == [v];
      hide Pieces;
      assert t == u + [v];
      Regroup(s, u, v);
      Regroup(Removed(s, from, to), u, v);
    }
  }

  lemma {:induction false} Regroup(s: seq<Interval>, u: seq<Interval>, v: Interval)
    ensures s + (u + [v]) == s + u + [v]
  {
  }

  lemma {:induction false} RemovedTail(v: seq<Interval>, i: nat, from: nat, to: nat)
    requires Separated(v) && i <= |v| && from < to && (i < |v| ==> v[i].begin >= to)
    ensures Removed(v, from, to) == Removed(v[..i], from, to) + v[i..]
  {
    hide Removed;
    assert v == v[..i] + v[i..];
    assert forall j | i < j < |v| :: v[i].end < v[j].begin;
    assert forall j | 0 <= j < |v| - i :: v[i..][j] == v[i + j];
    RemovedMiss(v[..i], v[i..], from, to);
  }

  lemma {:induction false} PiecesCover(v: Interval, from: nat, to: nat, x: int)
    requires from < to
    ensures Covers(Pieces(v, from, to), x) <==> v.begin <= x < v.end && !(from <= x < to)
  {
    var p := Pieces(v, from, to);
    if v.begin <= x < v.end && x < from {
      assert p[0].begin <= x < p[0].end;
    }
    if v.begin <= x < v.end && x >= to {
      assert p[|p| - 1].begin <= x < p[|p| - 1].end;
    }
  }

  /** Removing a range that lies inside one interval. */
  lemma {:induction false} CutInside(v: seq<Interval>, i: nat, from: nat, to: nat)
    requires Separated(v) && i < |v| && v[i].begin <= from < to <= v[i].end
    ensures EndsBy(v, from) == i
    ensures Removed(v, from, to) == v[..i] + Pieces(v[i], from, to) + v[i + 1..]
  {
    hide Removed;
    assert forall j | 0 <= j < i :: v[j].end < v[i].begin;
    EndsByUnique(v, from, i);
    RemovedTail(v, i + 1, from, to);
    assert v[..i + 1] == v[..i] + [v[i]];
    RemovedSnoc(v[..i], v[i], from, to);
    RemovedBefore(v[..i], from, to);
  }

  lemma {:induction false} RemovedBefore(v: seq<Interval>, from: nat, to: nat)
    requires from < to && forall j | 0 <= j < |v| :: v[j].begin < v[j].end <= from
    ensures Removed(v, from, to) == v
  {
    RemovedMiss([], v, from, to);
    assert [] + v == v;
  }

  /** A removal splits at most one interval. */
  lemma {:induction false} RemovedLength(s: seq<Interval>, from: nat, to: nat)
    requires Separated(s) && from < to
    ensures |Removed(s, from, to)| <= |s| + 1
  {
    if s != [] {
      var t, v := s[..|s| - 1], s[|s| - 1];
      RemovedLength(t, from, to);
      if v.begin < from && v.end > to {
        RemovedBefore(t, from, to);
      }
    }
  }

  // ----- finding room -----

  /** x is a place for `size` bytes: aligned, inside [from, to), and free throughout. */
  predicate Room(v: seq<Interval>, size: nat, align: nat, from: nat, to: nat, x: nat)
    requires align > 0
  {
    && x % align == 0 && from <= x && x + size <= to
    && forall y | x <= y < x + size :: Covers(v, y)
  }

  /** The lowest such place. */
  predicate LeastRoom(v: seq<Interval>, size: nat, align: nat, from: nat, to: nat, x: nat)
    requires align > 0
  {
    && Room(v, size, align, from, to, x)
    && forall y: nat | Room(v, size, align, from, to, y) :: x <= y
  }

  /** Because the intervals are maximal, room never spans two of them. */
  lemma {:induction false} RoomInOne(v: seq<Interval>, x: nat, size: nat) returns (i: nat)
    requires Separated(v) && size > 0
    requires forall y | x <= y < x + size :: Covers(v, y)
    ensures i < |v| && v[i].begin <= x && x + size <= v[i].end
  {
    assert Covers(v, x);
    i :| 0 <= i < |v| && v[i].begin <= x < v[i].end;
    assert !Covers(v, v[i].end);
  }

  /** No room in the interval w. */
  predicate TooSmall(w: Interval, size: nat, align: nat, from: nat, to: nat)
    requires align > 0
  {
    AlignUp(if w.begin > from then w.begin else from, align) + size > if w.end < to then w.end else to
  }

  lemma {:induction false} TooSmallHasNoRoom(w: Interval, size: nat, align: nat, from: nat, to: nat, x: nat)
    requires align > 0 && TooSmall(w, size, align, from, to)
    requires x % align == 0 && from <= x && x + size <= to
    ensures !(w.begin <= x && x + size <= w.end)
  {
    AlignUpLeast(if w.begin > from then w.begin else from, align);
  }

  /** The first interval that is large enough holds the lowest room. */
  lemma {:induction false} FirstRoom(v: seq<Interval>, size: nat, align: nat, from: nat, to: nat, i: nat)
    requires Separated(v) && size > 0 && align > 0 && i < |v| && !TooSmall(v[i], size, align, from, to)
    requires forall j | 0 <= j < i :: TooSmall(v[j], size, align, from, to)
    ensures LeastRoom(v, size, align, from, to, AlignUp(if v[i].begin > from then v[i].begin else from, align))
  {
    var b := if v[i].begin > from then v[i].begin else from;
    var a := AlignUp(b, align);
    AlignUpLeast(b, align);
    forall y | a <= y < a + size
      ensures Covers(v, y)
    {
      assert v[i].begin <= y < v[i].end;
    }
    forall y: nat | Room(v, size, align, from, to, y)
      ensures a <= y
    {
      var k := RoomInOne(v, y, size);
      if k < i {
        TooSmallHasNoRoom(v[k], size, align, from, to, y);
      } else if k > i {
        assert v[i].end < v[k].begin;
      }
    }
  }

  lemma {:induction false} EarlyTooSmall(v: seq<Interval>, size: nat, align: nat, from: nat, to: nat)
    requires Separated(v) && size > 0 && align > 0
    ensures forall j | 0 <= j < EndsBy(v, from) :: TooSmall(v[j], size, align, from, to)
  {
    AlignUpLeast(from, align);
  }

  lemma {:induction false} NoRoom(v: seq<Interval>, size: nat, align: nat, from: nat, to: nat, i: nat)
    requires Separated(v) && size > 0 && align > 0 && i <= |v| && (i < |v| ==> v[i].begin >= to)
    requires forall j | 0 <= j < i :: TooSmall(v[j], size, align, from, to)
    ensures forall x: nat :: !Room(v, size, align, from, to, x)
  {
    forall x: nat | Room(v, size, align, from, to, x)
      ensures false
    {
      var k := RoomInOne(v, x, size);
      assert forall j | i < j < |v| :: v[i].end < v[j].begin;
      TooSmallHasNoRoom(v[k], size, align, from, to, x);
    }
  }

  lemma {:induction false} HeadEqual(s: seq<Interval>, t: seq<Interval>)
    requires Separated(s) && Separated(t) && s != []
    requires forall x: int :: Covers(s, x) <==> Covers(t, x)
    ensures t != [] && t[0].begin <= s[0].begin && (t[0].begin == s[0].begin ==> s[0].end <= t[0].end)
  {
    assert Covers(s, s[0].begin);
    assert t[0].begin == s[0].begin && t[0].end < s[0].end ==> !Covers(t, t[0].end);
  }

  /** A set of bytes has one separated list. */
  lemma {:induction false} SeparatedUnique(s: seq<Interval>, t: seq<Interval>)
    requires Separated(s) && Separated(t)
    requires forall x: int :: Covers(s, x) <==> Covers(t, x)
    ensures s == t
  {
    if s == [] {
      if t != [] {
        HeadEqual(t, s);
      }
    } else {
      HeadEqual(s, t);
      HeadEqual(t, s);
      forall x: int
        ensures Covers(s[1..], x) <==> Covers(t[1..], x)
      {
        assert s == [s[0]] + s[1..] && t == [t[0]] + t[1..];
        CoversConcat([s[0]], s[1..], x);
        CoversConcat([t[0]], t[1..], x);
        CoversOne(s[0], x);
      }
      SeparatedUnique(s[1..], t[1..]);
    }
  }
}
