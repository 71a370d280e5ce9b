/** Heap words, header tags and size classes of the segregated-fit allocator.

    Addresses are byte offsets from the fixed heap base 0x800000000, so the
    4-byte encoded pointer of a block is its address and 0 encodes NULL. */
module HeapWords {
  const TWO32: int := 0x1_0000_0000
  const HEAP_BASE: int := 0x8_0000_0000
  const NUM_LISTS := 14
  const LIST0 := 8
  const PROLOGUE_SIZE := 120
  const FIRST_BLOCK := 128
  const MIN_BLOCK := 16

  type Word = w: int | 0 <= w < 0x1_0000_0000

  /** Memory as a map from 4-aligned byte offsets to words. */
  type Memory = map<int, Word>

  function Rd(m: Memory, a: int): Word {
    if a in m then m[a] else 0
  }

  /** A block: its size, whether it is allocated, and whether the block before it is. */
  datatype Block = Block(size: int, alloc: bool, prevAlloc: bool)

  function Tag(b: Block): int {
    b.size + (if b.alloc then 1 else 0) + (if b.prevAlloc then 2 else 0)
  }

  /** w & 0x7, by repeated subtraction. */
  function LowBits(w: nat): nat {
    if w < 8 then w else LowBits(w - 8)
  }

  lemma {:induction false} LowBitsIsMod(w: nat)
    ensures LowBits(w) == w % 8
  {
    if w >= 8 { LowBitsIsMod(w - 8); }
  }

  /** w & ~0x7 */
  function SizeOf(w: Word): int { w - LowBits(w) }

  /** w & 0x1 */
  predicate AllocOf(w: Word) { LowBits(w) in {1, 3, 5, 7} }

  /** w & 0x2: non-zero when the previous block is allocated, whatever its name in the source says. */
  predicate PrevAllocOf(w: Word) { LowBits(w) in {2, 3, 6, 7} }

  lemma {:induction false} LowBitsKeepParity(w: nat)
    ensures LowBits(w) % 2 == w % 2 && LowBits(w) / 2 % 2 == w / 2 % 2 && 0 <= LowBits(w) < 8
  {
    if w >= 8 {
      LowBitsKeepParity(w - 8);
      assert w == (w - 8) + 8 && w / 2 == (w - 8) / 2 + 4;
    }
  }

  /** The three fields of a word in arithmetic terms. */
  lemma FieldsInArithmetic(w: Word)
    ensures SizeOf(w) == w - w % 8 && (AllocOf(w) <==> w % 2 == 1) && (PrevAllocOf(w) <==> w / 2 % 2 == 1)
  {
    LowBitsIsMod(w);
    LowBitsKeepParity(w);
    BitsBelowEight(LowBits(w));
  }

  lemma BitsBelowEight(r: nat)
    requires r < 8
    ensures (r in {1, 3, 5, 7} <==> r % 2 == 1) && (r in {2, 3, 6, 7} <==> r / 2 % 2 == 1)
  { }

  lemma {:induction false} SizeNotNegative(w: nat)
    ensures LowBits(w) <= w
  {
    if w >= 8 { SizeNotNegative(w - 8); }
  }

  /** w | 0x2 */
  function SetPrevAlloc(w: Word): Word {
    LowBitsIsMod(w);
    assert PrevAllocOf(w) || w <= TWO32 - 3;
    if PrevAllocOf(w) then w else w + 2
  }

  /** w & 0xFFFFFFFD */
  function ClearPrevAlloc(w: Word): Word { if PrevAllocOf(w) then w - 2 else w }

  /** The three fields of a header are recovered from the packed word. */
  lemma TagDecodes(b: Block)
    requires b.size % 8 == 0 && 0 <= b.size < TWO32
    ensures 0 <= Tag(b) < TWO32
    ensures SizeOf(Tag(b)) == b.size
    ensures AllocOf(Tag(b)) == b.alloc
    ensures PrevAllocOf(Tag(b)) == b.prevAlloc
  {
    var k := b.size / 8;
    assert b.size == 8 * k && k <= TWO32 / 8 - 1;
    LowBitsOf(k, (if b.alloc then 1 else 0) + (if b.prevAlloc then 2 else 0));
  }

  lemma {:induction false} LowBitsOf(k: nat, j: nat)
    requires j < 8
    ensures LowBits(8 * k + j) == j
  {
    if k > 0 { LowBitsOf(k - 1, j); }
  }

  /** The two bit updates touch only the previous-allocated field. */
  lemma TagUpdates(b: Block)
    requires b.size % 8 == 0 && 0 <= b.size < TWO32
    ensures 0 <= Tag(b) < TWO32
    ensures SetPrevAlloc(Tag(b)) == Tag(b.(prevAlloc := true))
    ensures ClearPrevAlloc(Tag(b)) == Tag(b.(prevAlloc := false))
  {
    TagDecodes(b);
  }

  /** a is the address of a word: a non-negative multiple of four. */
  ghost predicate Cell(a: int)
    decreases if a < 0 then 0 else a
  {
    a == 0 || (4 <= a && Cell(a - 4))
  }

  lemma {:induction false} CellIsMultiple(a: int)
    ensures Cell(a) <==> 0 <= a && a % 4 == 0
    decreases if a < 0 then 0 else a
  {
    if 4 <= a { CellIsMultiple(a - 4); }
  }

  lemma OctCell(a: int)
    requires 0 <= a && a % 8 == 0
    ensures Cell(a)
  {
    CellIsMultiple(a);
    assert a == 4 * (2 * (a / 8));
  }

  lemma {:induction false} CellSum(a: int, b: int)
    requires Cell(a) && Cell(b)
    ensures Cell(a + b) && 0 <= a && 0 <= b
    decreases if b < 0 then 0 else b
  {
    CellIsMultiple(a);
    if b != 0 { CellSum(a, b - 4); }
  }

  /** The header after a block of the size in w. */
  lemma NextCell(bp: int, w: Word)
    requires Cell(bp - 4)
    ensures Cell(bp + SizeOf(w) - 4) && 0 <= SizeOf(w)
  {
    LowBitsIsMod(w);
    assert SizeOf(w) == 8 * (w / 8);
    OctCell(SizeOf(w));
    CellSum(bp - 4, SizeOf(w));
  }

  function W2P(w: Word): int { if w == 0 then 0 else w + HEAP_BASE }

  function P2W(p: int): Word { if p == 0 then 0 else (p - HEAP_BASE) % TWO32 }

  /** Encoding a pointer into a word loses nothing for NULL and for every heap
      address but the base itself, which is the one that reads back as NULL. */
  lemma PointerRoundTrip(p: int)
    ensures p == 0 || HEAP_BASE <= p < HEAP_BASE + TWO32 ==>
      (W2P(P2W(p)) == p <==> p != HEAP_BASE)
    ensures forall w: Word :: P2W(W2P(w)) == w
  {
    forall w: Word ensures P2W(W2P(w)) == w { }
  }

  function Class(size: int): int {
    if size < 16 then 0
    else if size < 32 then 1
    else if size < 64 then 2
    else if size < 128 then 3
    else if size < 256 then 4
    else if size < 512 then 5
    else if size < 1024 then 6
    else if size < 2048 then 7
    else if size < 8192 then 8
    else if size < 16384 then 9
    else if size < 25000 then 10
    else if size < 32784 then 11
    else if size < 65536 then 12
    else 13
  }

  /** Least size of each class, as the checker tests it. */
  function ClassLow(k: int): int
    requires 0 <= k <= NUM_LISTS - 1
  {
    [0, 16, 32, 64, 128, 256, 512, 1024, 2048, 8192, 16384, 25000, 32784, 65536][k]
  }

  lemma ClassBounds(size: int, k: int)
    requires 0 <= size && 0 <= k < NUM_LISTS
    ensures Class(size) == k <==> ClassLow(k) <= size && (k < NUM_LISTS - 1 ==> size < ClassLow(k + 1))
  { }

  /** The list of a size, in numbers. */
  lemma ClassTable(size: int)
    ensures Class(size) == 0 <==> size < 16
    ensures Class(size) == 1 <==> 16 <= size < 32
    ensures Class(size) == 2 <==> 32 <= size < 64
    ensures Class(size) == 3 <==> 64 <= size < 128
    ensures Class(size) == 4 <==> 128 <= size < 256
    ensures Class(size) == 5 <==> 256 <= size < 512
    ensures Class(size) == 6 <==> 512 <= size < 1024
    ensures Class(size) == 7 <==> 1024 <= size < 2048
    ensures Class(size) == 8 <==> 2048 <= size < 8192
    ensures Class(size) == 9 <==> 8192 <= size < 16384
    ensures Class(size) == 10 <==> 16384 <= size < 25000
    ensures Class(size) == 11 <==> 25000 <= size < 32784
    ensures Class(size) == 12 <==> 32784 <= size < 65536
    ensures Class(size) == 13 <==> 65536 <= size
  { }

  lemma ClassMonotone(a: int, b: int)
    requires a <= b
    ensures 0 <= Class(a) <= Class(b) < NUM_LISTS
  { }

  function Root(k: int): int { LIST0 + 8 * k }

  function Align(p: int): int {
    if p < 5 then 1 else ((p + 3) - (p + 3) % 8) % TWO32
  }

  function Max(a: int, b: int): int { if a < b then b else a }

  /** The adjusted block size of a request, in 32-bit unsigned arithmetic. */
  function Asize(n: int): int {
    Max((Align(n) + 8) % TWO32, MIN_BLOCK)
  }

  /** Every adjusted size is a legal block size; it is the least multiple of
      eight that is at least 16 and holds a header and n bytes, and it holds
      them exactly when the 32-bit arithmetic does not wrap. */
  lemma AsizeIsLeast(n: int)
    requires 0 < n
    ensures Asize(n) % 8 == 0 && 16 <= Asize(n) < 0x1_0000_0000
    ensures Asize(n) >= n + 4 <==> n <= 0x1_0000_0000 - 12
    ensures n <= 0x1_0000_0000 - 12 ==>
      forall s :: s % 8 == 0 && s >= 16 && s >= n + 4 ==> Asize(n) <= s
    ensures n <= TWO32 - 12 ==> Asize(n) + 8 <= Max(24, n + 19)
  {
    if 5 <= n <= TWO32 - 12 {
      var q := (n + 3) / 8;
      AsizeBelow(n, q);
      forall s | s % 8 == 0 && s >= 16 && s >= n + 4 ensures Asize(n) <= s {
        assert s == 8 * (s / 8);
        assert s / 8 > q;
      }
    } else if n > TWO32 - 12 {
      AsizeAbove(n);
    }
  }

  lemma AsizeBelow(n: int, q: int)
    requires 5 <= n <= TWO32 - 12 && q == (n + 3) / 8
    ensures Asize(n) == 8 * q + 8 && 8 * q <= n + 3 < 8 * q + 8 && 8 * q + 8 < TWO32
  {
    assert TWO32 == 8 * 536870912;
    assert (n + 3) - (n + 3) % 8 == 8 * q;
    assert Align(n) == 8 * q;
  }

  lemma AsizeAbove(n: int)
    requires n > TWO32 - 12
    ensures Asize(n) % 8 == 0 && 16 <= Asize(n) < TWO32
  {
    assert TWO32 == 8 * 536870912;
    var q := (n + 3) / 8;
    assert (n + 3) - (n + 3) % 8 == 8 * q;
    assert Align(n) % 8 == 0;
  }

  /** Above the wrap the adjusted size is 16 for sixteen requests, and then repeats every 2^32. */
  lemma AsizeWraps(n: int)
    requires 0x1_0000_0000 - 12 < n
    ensures n <= 0x1_0000_0000 + 4 ==> Asize(n) == 16
    ensures 0x1_0000_0000 + 4 < n ==> Asize(n) == Asize(n - 0x1_0000_0000)
  {
    var q := (n + 3) / 8;
    assert (n + 3) - (n + 3) % 8 == 8 * q;
    assert TWO32 == 8 * 536870912;
    if 0x1_0000_0000 + 4 < n {
      var k := n - TWO32;
      assert (k + 3) / 8 == q - 536870912;
      assert (k + 3) - (k + 3) % 8 == 8 * q - TWO32;
    } else {
      assert q == 536870911 || q == 536870912;
    }
  }
}
