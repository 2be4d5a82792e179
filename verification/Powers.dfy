/** Powers of two and addresses aligned to them, in the arithmetic that the C code writes with shifts and masks. */
module Powers {
  /** PAGE_SIZE */
  const PAGE: nat := 4096

  function Pow2(k: nat): (p: nat)
    ensures p > 0
  {
    if k == 0 then 1 else 2 * Pow2(k - 1)
  }

  /** (i & (2^k - 1)) == 0 */
  predicate Aligned(i: nat, k: nat) {
    i % Pow2(k) == 0
  }

  /** i ^ 2^k, for i aligned to 2^k: bit k flipped. */
  function Buddy(i: nat, k: nat): (b: int) {
    if Aligned(i, k + 1) then i + Pow2(k) else i - Pow2(k)
  }

  lemma {:induction false} DivisionUnique(x: int, d: nat, q: int, r: int)
    requires d > 0 && x == q * d + r && 0 <= r < d
    ensures x / d == q && x % d == r
  {
    var p, s := x / d, x % d;
    assert (p - q) * d == r - s;
    assert p - q >= 1 ==> (p - q) * d >= d;
    assert p - q <= -1 ==> (p - q) * d <= -1 * d;
  }

  lemma {:induction false} AlignedMultiple(q: int, k: nat)
    requires q * Pow2(k) >= 0
    ensures Aligned(q * Pow2(k), k)
  {
    DivisionUnique(q * Pow2(k), Pow2(k), q, 0);
  }

  lemma {:induction false} TwiceMod(h: int, d: int)
    requires d > 0
    ensures 2 * h * d % (2 * d) == 0 && (2 * h + 1) * d % (2 * d) == d
  {
    assert 2 * h * d == h * (2 * d) && (2 * h + 1) * d == h * (2 * d) + d;
    DivisionUnique(2 * h * d, 2 * d, h, 0);
    DivisionUnique((2 * h + 1) * d, 2 * d, h, d);
  }

  lemma {:induction false} ParityMod(i: int, d: int, h: int)
    requires d > 0
    ensures i == 2 * h * d ==> i % (2 * d) == 0 && (i + d) % (2 * d) == d
    ensures i == (2 * h + 1) * d ==> i % (2 * d) == d && (i - d) % (2 * d) == 0
  {
    TwiceMod(h, d);
    assert (2 * h + 1) * d == 2 * h * d + d;
  }

  lemma {:induction false} Scale(n: int, d: int)
    requires d > 0
    ensures n >= 1 ==> n * d >= d
    ensures n <= 0 ==> n * d <= 0
  {
  }

  lemma {:induction false} HalfStep(i: nat, d: nat, q: nat)
    requires d > 0 && i == q * d
    ensures i % (2 * d) == 0 || (i >= d && (i - d) % (2 * d) == 0)
    ensures i % (2 * d) == 0 ==> (i + d) % (2 * d) == d
    ensures (i + d) % d == 0
  {
    var h := q / 2;
    ParityMod(i, d, h);
    Scale(q, d);
    assert (q + 1) * d == i + d;
    DivisionUnique(i + d, d, q + 1, 0);
    if q % 2 == 0 {
      assert q == 2 * h;
    } else {
      assert q == 2 * h + 1;
    }
  }

  /** Alignment to 2^(k+1), in terms of 2^k. */
  lemma {:induction false} AlignedStep(i: nat, k: nat)
    requires Aligned(i, k)
    ensures !Aligned(i, k + 1) ==> i >= Pow2(k) && Aligned(i - Pow2(k), k + 1)
    ensures Aligned(i + Pow2(k), k) && (Aligned(i, k + 1) ==> !Aligned(i + Pow2(k), k + 1))
  {
    assert Pow2(k + 1) == 2 * Pow2(k);
    HalfStep(i, Pow2(k), i / Pow2(k));
  }

  lemma {:induction false} AlignedDown(i: nat, j: nat, k: nat)
    requires Aligned(i, k) && j <= k
    ensures Aligned(i, j)
  {
    if j < k {
      var q := i / Pow2(k);
      assert i == q * Pow2(k) == (2 * q) * Pow2(k - 1);
      AlignedMultiple(2 * q, k - 1);
      AlignedDown(i, j, k - 1);
    }
  }

  lemma {:induction false} MultiplesApart(p: int, q: int, d: int)
    requires d > 0 && p * d < q * d
    ensures p * d + d <= q * d
  {
    var n := q - p;
    assert n * d == q * d - p * d;
    Scale(n, d);
  }

  /** Two aligned addresses are equal or a whole block apart. */
  lemma {:induction false} AlignedApart(a: nat, b: nat, k: nat)
    requires Aligned(a, k) && Aligned(b, k) && a < b
    ensures a + Pow2(k) <= b
  {
    MultiplesApart(a / Pow2(k), b / Pow2(k), Pow2(k));
  }

  lemma {:induction false} Pow2Monotone(j: nat, k: nat)
    requires j <= k
    ensures Pow2(j) <= Pow2(k)
  {
    if j < k {
      Pow2Monotone(j, k - 1);
    }
  }

  lemma {:induction false} Pow2Sum(j: nat, k: nat)
    ensures Pow2(j + k) == Pow2(j) * Pow2(k)
  {
    if k > 0 {
      Pow2Sum(j, k - 1);
      assert Pow2(j + k) == 2 * (Pow2(j) * Pow2(k - 1)) == Pow2(j) * (2 * Pow2(k - 1));
    }
  }

  /** The two halves of an aligned block of order k + 1 are each other's buddies. */
  lemma {:induction false} BuddyPair(i: nat, k: nat)
    requires Aligned(i, k)
    ensures var b := Buddy(i, k); var low := if b < i then b else i;
      && b >= 0 && Aligned(b, k) && Buddy(b, k) == i && b != i
      && Aligned(low, k + 1) && (b == low + Pow2(k) || i == low + Pow2(k))
      && (b < i <==> !Aligned(i, k + 1))
  {
    AlignedStep(i, k);
    if !Aligned(i, k + 1) {
      AlignedDown(i - Pow2(k), k, k + 1);
    }
  }

  /** align_up, or (b + mask) & ~mask for mask == align - 1 and align a power of two */
  function AlignUp(b: nat, align: nat): nat
    requires align > 0
  {
    (b + align - 1) / align * align
  }

  lemma {:induction false} AlignUpLeast(b: nat, align: nat)
    requires align > 0
    ensures AlignUp(b, align) % align == 0 && AlignUp(b, align) >= b
    ensures forall x: nat | x % align == 0 && x >= b :: x >= AlignUp(b, align)
  {
    var k := (b + align - 1) / align;
    DivisionUnique(k * align, align, k, 0);
    assert b + align - 1 == k * align + (b + align - 1) % align;
    forall x: nat | x % align == 0 && x >= b
      ensures x >= k * align
    {
      var y := x / align;
      assert x == y * align;
      MultipleBelow(y, k, align);
    }
  }

  lemma {:induction false} MultipleBelow(y: nat, k: nat, align: nat)
    requires align > 0
    ensures if y < k then y * align + align <= k * align else y * align >= k * align
  {
    var n := k - y;
    assert n * align == k * align - y * align;
    Scale(n, align);
  }
}
