/** src/alloc.c: one pool of equal objects with its bitmap. */
module SlabPool {
  import opened Powers
  import opened SlabLayout

  type Word = seq<bool>

  /** Bit `pos` of the bitmask of a pool, counted across words: set when the object is in use, or does not exist. */
  predicate Bit(mask: seq<Word>, pos: nat) {
    pos / WORD_BITS < |mask| && pos % WORD_BITS < |mask[pos / WORD_BITS]| && mask[pos / WORD_BITS][pos % WORD_BITS]
  }

  predicate WholeWords(mask: seq<Word>) {
    forall w | w in mask :: |w| == WORD_BITS
  }

  /** The objects not in use. */
  ghost function Slots(mask: seq<Word>, objs: nat): set<nat> {
    set pos | 0 <= pos < objs && !Bit(mask, pos)
  }

  /** The padding bits are set. */
  predicate Padded(mask: seq<Word>, objs: nat) {
    forall pos | objs <= pos < WORD_BITS * |mask| :: Bit(mask, pos)
  }

  function Full(): Word {
    seq(WORD_BITS, _ => true)
  }

  function Changed(mask: seq<Word>, pos: nat, b: bool): seq<Word>
    requires pos / WORD_BITS < |mask| && WholeWords(mask)
  {
    mask[pos / WORD_BITS := mask[pos / WORD_BITS][pos % WORD_BITS := b]]
  }

  lemma {:induction false} ChangedBits(mask: seq<Word>, pos: nat, b: bool)
    requires pos / WORD_BITS < |mask| && WholeWords(mask)
    ensures var m := Changed(mask, pos, b);
      |m| == |mask| && WholeWords(m) && (forall q: nat | q != pos :: Bit(m, q) == Bit(mask, q)) && Bit(m, pos) == b
  {
    var m := Changed(mask, pos, b);
    forall q: nat | q != pos
      ensures Bit(m, q) == Bit(mask, q)
    {
      if q / WORD_BITS == pos / WORD_BITS {
        assert q % WORD_BITS != pos % WORD_BITS;
      }
    }
  }

  /** A bitmask is determined by its bits: what taking an object changes, giving it back restores. */
  lemma {:induction false} BitsDetermine(m: seq<Word>, n: seq<Word>)
    requires WholeWords(m) && WholeWords(n) && |m| == |n| && forall pos: nat :: Bit(m, pos) == Bit(n, pos)
    ensures m == n
  {
    forall w | 0 <= w < |m|
      ensures m[w] == n[w]
    {
      assert m[w] in m && n[w] in n;
      forall i | 0 <= i < WORD_BITS
        ensures m[w][i] == n[w][i]
      {
        AtPosition(w, i);
        assert Bit(m, WORD_BITS * w + i) == Bit(n, WORD_BITS * w + i);
      }
    }
  }

  lemma {:induction false} AllFree(mask: seq<Word>, n: nat)
    requires forall pos | 0 <= pos < n :: !Bit(mask, pos)
    ensures |Slots(mask, n)| == n
  {
    hide Bit;
    if n > 0 {
      AllFree(mask, n - 1);
      assert Slots(mask, n) == Slots(mask, n - 1) + {n - 1};
    }
  }

  /** Object `pos` changes hands. */
  lemma {:induction false} ChangedSlots(mask: seq<Word>, pos: nat, b: bool, objs: nat)
    requires pos < objs <= WORD_BITS * |mask| && WholeWords(mask) && Padded(mask, objs) && Bit(mask, pos) != b
    ensures pos / WORD_BITS < |mask|
    ensures var m := Changed(mask, pos, b);
      && Padded(m, objs) && |m| == |mask| && WholeWords(m)
      && Slots(m, objs) == (if b then Slots(mask, objs) - {pos} else Slots(mask, objs) + {pos})
      && |Slots(m, objs)| == (if b then |Slots(mask, objs)| - 1 else |Slots(mask, objs)| + 1)
  {
    ChangedBits(mask, pos, b);
    var m := Changed(mask, pos, b);
    hide Changed;
    hide Bit;
    assert Slots(m, objs) == if b then Slots(mask, objs) - {pos} else Slots(mask, objs) + {pos};
  }

  /** A word that is all ones has no free object. */
  lemma {:induction false} FullWord(mask: seq<Word>, w: nat, pos: nat)
    requires w < |mask| && mask[w] == Full() && pos / WORD_BITS == w
    ensures Bit(mask, pos)
  {
  }

  /** The lowest bit that is set in the word. */
  predicate Lowest(word: Word, r: nat) {
    r < |word| && word[r] && forall i | 0 <= i < r :: !word[i]
  }

  /** Some bit of the byte is set: (bitmask & mask) != 0 */
  predicate Byte(word: Word, byte: nat) {
    exists i :: 8 * byte <= i < 8 * byte + 8 && i < |word| && word[i]
  }

  /** ffs: first the byte, then the bit within it. */
  method FindFirst(word: Word) returns (r: nat)
    requires |word| == WORD_BITS && exists i :: 0 <= i < WORD_BITS && word[i]
    ensures Lowest(word, r)
  {
    var byte := 0;
    while byte != 8 && !Byte(word, byte)
      invariant 0 <= byte <= 8 && forall i | 0 <= i < 8 * byte :: !word[i]
      decreases 8 - byte
    {
      byte := byte + 1;
    }
    var bit := 0;
    while bit != 8 && !word[byte * 8 + bit]
      invariant 0 <= bit <= 8 && byte < 8 && Byte(word, byte)
      invariant forall i | 0 <= i < 8 * byte + bit :: !word[i]
      decreases 8 - bit
    {
      bit := bit + 1;
    }
    r := byte * 8 + bit;
  }

  function Negated(word: Word): Word {
    seq(|word|, i requires 0 <= i < |word| => !word[i])
  }

  /** struct mem_pool */
  class Pool {
    const data: nat
    var free: nat
    var bitmask: seq<Word>

    ghost predicate Valid(objs: nat)
      reads this
    {
      && |bitmask| == Ceil(objs, WORD_BITS) && WholeWords(bitmask) && Padded(bitmask, objs)
      && free == |Slots(bitmask, objs)|
    }

    /** mem_pool_bitmap_setup and the fields that mem_pool_create sets.  No word follows the one with the padding,
        so the loop that would fill such words has nothing to do. */
    constructor (addr: nat, l: Layout)
      requires l.objCount > 0 && l.maskWords == Ceil(l.objCount, WORD_BITS)
      ensures Valid(l.objCount) && data == addr && free == l.objCount
      ensures forall pos | 0 <= pos < l.objCount :: !Bit(bitmask, pos)
    {
      data := addr;
      free := l.objCount;
      var pos, word := l.objCount % WORD_BITS, l.objCount / WORD_BITS;
      var mask := seq(l.maskWords, _ => seq(WORD_BITS, _ => false));
      WordsNeeded(l.objCount);
      if pos > 0 {
        mask := mask[word := seq(WORD_BITS, i => i >= pos)];
      }
      SetUp(mask, l.objCount);
      bitmask := mask;
    }

    /** mem_pool_alloc: the first object that is not in use.  There is one when `free` is not 0. */
    method Take(l: Layout) returns (addr: nat, ghost pos: nat)
      requires Valid(l.objCount) && l.objCount > 0 && l.maskWords == Ceil(l.objCount, WORD_BITS) && free > 0
      modifies this
      ensures Valid(l.objCount) && free == old(free) - 1
      ensures pos < l.objCount && !Bit(old(bitmask), pos) && forall q | 0 <= q < pos :: Bit(old(bitmask), q)
      ensures forall q: nat :: Bit(bitmask, q) <==> Bit(old(bitmask), q) || q == pos
      ensures addr == data + pos * l.objSize
    {
      var word, bit := FindSlot(l);
      pos := WORD_BITS * word + bit;
      addr := data + (WORD_BITS * word + bit) * l.objSize;
      Write(l, word, bit, true);
      free := free - 1;
    }

    /** The search of mem_pool_alloc: the first word that is not all ones, and in it the first zero. */
    method FindSlot(l: Layout) returns (word: nat, bit: nat)
      requires Valid(l.objCount) && l.objCount > 0 && l.maskWords == Ceil(l.objCount, WORD_BITS) && free > 0
      ensures var pos := WORD_BITS * word + bit;
        word < |bitmask| && bit < WORD_BITS && pos < l.objCount && !Bit(bitmask, pos)
          && forall q | 0 <= q < pos :: Bit(bitmask, q)
    {
      hide Bit;
      hide Padded;
      hide Ceil;
      word := 0;
      SomeFree(bitmask, l.objCount);
      while bitmask[word] == Full()
        invariant 0 <= word < l.maskWords
        invariant forall q | 0 <= q < WORD_BITS * word :: Bit(bitmask, q)
        decreases l.maskWords - word
      {
        MoreWords(bitmask, l.objCount, word);
        word := word + 1;
      }
      NotFull(bitmask[word]);
      bit := FindFirst(Negated(bitmask[word]));
      LowestSlot(bitmask, word, bit, l.objCount);
    }

    /** pool->bitmask[word] |= 1ul << bit, or &= ~(1ul << bit) */
    method Write(l: Layout, word: nat, bit: nat, b: bool)
      requires |bitmask| == Ceil(l.objCount, WORD_BITS) && WholeWords(bitmask) && Padded(bitmask, l.objCount)
      requires word < |bitmask| && bit < WORD_BITS && l.objCount > 0
      requires var pos := WORD_BITS * word + bit; pos < l.objCount && Bit(bitmask, pos) != b
      modifies this`bitmask
      ensures |bitmask| == Ceil(l.objCount, WORD_BITS) && WholeWords(bitmask) && Padded(bitmask, l.objCount)
      ensures |Slots(bitmask, l.objCount)| == if b then |Slots(old(bitmask), l.objCount)| - 1
                else |Slots(old(bitmask), l.objCount)| + 1
      ensures forall q: nat :: Bit(bitmask, q) == if q == WORD_BITS * word + bit then b else Bit(old(bitmask), q)
    {
      hide Bit;
      hide Padded;
      hide Slots;
      WordsNeeded(l.objCount);
      hide Ceil;
      AtPosition(word, bit);
      ChangedSlots(bitmask, WORD_BITS * word + bit, b, l.objCount);
      ChangedBits(bitmask, WORD_BITS * word + bit, b);
      bitmask := bitmask[word := bitmask[word][bit := b]];
    }

    /** mem_pool_free of an object in use */
    method Give(l: Layout, addr: nat, ghost pos: nat)
      requires Valid(l.objCount) && l.objCount > 0 && l.objSize > 0
      requires addr == data + pos * l.objSize && pos < l.objCount && Bit(bitmask, pos)
      modifies this
      ensures Valid(l.objCount) && free == old(free) + 1 && free <= l.objCount
      ensures forall q: nat :: Bit(bitmask, q) <==> Bit(old(bitmask), q) && q != pos
    {
      var p := (addr - data) / l.objSize;
      PositionBack(pos, l.objSize);
      assert p == pos && p < l.objCount;
      var word, bit := p / WORD_BITS, p % WORD_BITS;
      assert bitmask[word][bit];
      Write(l, word, bit, false);
      free := free + 1;
      SlotsBound(bitmask, l.objCount);
    }
  }

  /** Taking an object and giving it back restores the bitmask and the count. */
  method TakeThenGive(p: Pool, l: Layout)
    requires p.Valid(l.objCount) && l.objCount > 0 && l.objSize > 0 && l.maskWords == Ceil(l.objCount, WORD_BITS)
               && p.free > 0
    modifies p
    ensures p.Valid(l.objCount) && p.bitmask == old(p.bitmask) && p.free == old(p.free)
  {
    hide Bit;
    hide Slots;
    ghost var pos;
    var addr;
    addr, pos := p.Take(l);
    p.Give(l, addr, pos);
    BitsDetermine(p.bitmask, old(p.bitmask));
  }

  lemma {:induction false} SomeFree(mask: seq<Word>, objs: nat)
    requires objs > 0 && |mask| == Ceil(objs, WORD_BITS) && |Slots(mask, objs)| > 0
    ensures |mask| > 0 && exists pos :: 0 <= pos < objs && !Bit(mask, pos)
  {
    WordsNeeded(objs);
    var pos :| pos in Slots(mask, objs);
  }

  /** A full word is not the last. */
  lemma {:induction false} MoreWords(mask: seq<Word>, objs: nat, word: nat)
    requires word < |mask| && mask[word] == Full() && WholeWords(mask) && |mask| == Ceil(objs, WORD_BITS) && objs > 0
    requires forall q | 0 <= q < WORD_BITS * word :: Bit(mask, q)
    requires exists pos :: 0 <= pos < objs && !Bit(mask, pos)
    ensures word + 1 < |mask| && forall q | 0 <= q < WORD_BITS * (word + 1) :: Bit(mask, q)
  {
    WordsNeeded(objs);
    forall q | 0 <= q < WORD_BITS * (word + 1)
      ensures Bit(mask, q)
    {
      if q >= WORD_BITS * word {
        FullWord(mask, word, q);
      }
    }
  }

  lemma {:induction false} NotFull(word: Word)
    requires |word| == WORD_BITS && word != Full()
    ensures exists i :: 0 <= i < WORD_BITS && Negated(word)[i]
  {
    assert exists i :: 0 <= i < WORD_BITS && word[i] != Full()[i];
    var i :| 0 <= i < WORD_BITS && !word[i];
    assert Negated(word)[i];
  }

  lemma {:induction false} AtPosition(word: nat, bit: nat)
    requires bit < WORD_BITS
    ensures (WORD_BITS * word + bit) / WORD_BITS == word && (WORD_BITS * word + bit) % WORD_BITS == bit
  {
  }

  lemma {:induction false} LowestSlot(mask: seq<Word>, word: nat, bit: nat, objs: nat)
    requires word < |mask| && WholeWords(mask) && Lowest(Negated(mask[word]), bit) && Padded(mask, objs)
    requires forall q | 0 <= q < WORD_BITS * word :: Bit(mask, q)
    ensures var pos := WORD_BITS * word + bit;
      bit < WORD_BITS && pos < objs && !Bit(mask, pos) && forall q | 0 <= q < pos :: Bit(mask, q)
  {
    var pos := WORD_BITS * word + bit;
    assert |mask[word]| == WORD_BITS;
    AtPosition(word, bit);
    assert !Bit(mask, pos);
    forall q | WORD_BITS * word <= q < pos
      ensures Bit(mask, q)
    {
      AtPosition(word, q - WORD_BITS * word);
      assert !Negated(mask[word])[q - WORD_BITS * word];
    }
  }

  lemma {:induction false} PositionBack(pos: nat, size: nat)
    requires size > 0
    ensures pos * size / size == pos
  {
    DivisionUnique(pos * size, size, pos, 0);
  }

  /** As many free objects as there are objects: none is in use. */
  lemma {:induction false} AllClear(mask: seq<Word>, n: nat)
    requires |Slots(mask, n)| == n
    ensures forall pos | 0 <= pos < n :: !Bit(mask, pos)
  {
    hide Bit;
    if n > 0 {
      SlotsBound(mask, n - 1);
      assert Slots(mask, n) == if Bit(mask, n - 1) then Slots(mask, n - 1) else Slots(mask, n - 1) + {n - 1};
      AllClear(mask, n - 1);
    }
  }

  lemma {:induction false} SomeUsed(mask: seq<Word>, n: nat, pos: nat)
    requires pos < n && Bit(mask, pos)
    ensures |Slots(mask, n)| < n
  {
    SlotsBound(mask, n);
    if |Slots(mask, n)| == n {
      AllClear(mask, n);
    }
  }

  lemma {:induction false} SlotsBound(mask: seq<Word>, n: nat)
    ensures |Slots(mask, n)| <= n
  {
    hide Bit;
    if n > 0 {
      SlotsBound(mask, n - 1);
      assert Slots(mask, n) == if Bit(mask, n - 1) then Slots(mask, n - 1) else Slots(mask, n - 1) + {n - 1};
    }
  }

  lemma {:induction false} WordsNeeded(objs: nat)
    requires objs > 0
    ensures var n := Ceil(objs, WORD_BITS); var word := objs / WORD_BITS;
      (objs % WORD_BITS > 0 ==> n == word + 1) && (objs % WORD_BITS == 0 ==> n == word) && objs <= WORD_BITS * n
  {
  }

  /** Clear words, but for the bits past the last object. */
  lemma {:induction false} SetUp(mask: seq<Word>, objs: nat)
    requires objs > 0 && |mask| == Ceil(objs, WORD_BITS) && WholeWords(mask)
    requires forall w, i | 0 <= w < |mask| && 0 <= i < WORD_BITS ::
               mask[w][i] == (w == objs / WORD_BITS && i >= objs % WORD_BITS)
    ensures Padded(mask, objs) && |Slots(mask, objs)| == objs && forall pos | 0 <= pos < objs :: !Bit(mask, pos)
  {
    WordsNeeded(objs);
    assert forall pos | 0 <= pos < objs :: !Bit(mask, pos);
    AllFree(mask, objs);
  }
}
