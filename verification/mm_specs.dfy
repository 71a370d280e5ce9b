/** What the client sees: the contracts of the allocator over abstract heaps. */
module HeapSpecs {
  import opened HeapWords
  import opened HeapModel
  import opened FreeLists
  import opened HeapSteps

  /** No block met in s can hold asize bytes. */
  ghost predicate AllSmall(h: Heap, s: seq<int>, asize: int) {
    forall x :: x in s ==> x in h.blk && h.blk[x].size < asize
  }

  /** r is the first fitting node of the first list, from the class of asize up, that has one. */
  ghost predicate FirstFit(h: Heap, asize: int, r: int)
    requires ListsOk(h.m, h.nodes, h.clock)
  {
    && IsFree(h.blk, r) && asize <= h.blk[r].size && r in h.nodes
    && var k := h.nodes[r].list;
    && Class(asize) <= k < NUM_LISTS
    && (forall j :: Class(asize) <= j < k ==> 0 <= j && AllSmall(h, ListOf(h, j), asize))
    && (exists i :: 0 <= i < |ListOf(h, k)| && ListOf(h, k)[i] == r && AllSmall(h, ListOf(h, k)[..i], asize))
  }

  /** The first fit comes before every other block that fits: in an earlier list, or earlier in its own. */
  lemma FirstFitComesFirst(h: Heap, asize: int, r: int, q: int)
    requires Clean(h) && FirstFit(h, asize, r) && IsFree(h.blk, q) && asize <= h.blk[q].size && q != r
    ensures IsFree(h.blk, r) && asize <= h.blk[r].size && Class(h.blk[r].size) <= Class(h.blk[q].size)
    ensures var k := Class(h.blk[r].size);
      k == Class(h.blk[q].size) ==>
        exists i, j :: 0 <= i < j < |ListOf(h, k)| && ListOf(h, k)[i] == r && ListOf(h, k)[j] == q
  {
    assert Agrees(h.blk, h.nodes, NONE, r) && Agrees(h.blk, h.nodes, NONE, q);
    assert Placed(h.blk, h.brk, q) && Placed(h.blk, h.brk, r);
    WalkMeetsAll(h, q);
    ClassMonotone(asize, h.blk[q].size);
    var k, kq := Class(h.blk[r].size), Class(h.blk[q].size);
    var sq := ListOf(h, kq);
    var j :| 0 <= j < |sq| && sq[j] == q;
    assert kq < k ==> AllSmall(h, sq, asize);
    if kq == k {
      var i :| 0 <= i < |ListOf(h, k)| && ListOf(h, k)[i] == r && AllSmall(h, ListOf(h, k)[..i], asize);
      SmallInFront(h, ListOf(h, k), asize, j, i);
      assert i < j;
    }
  }

  ghost predicate NoFit(h: Heap, asize: int) {
    forall p :: IsFree(h.blk, p) ==> h.blk[p].size < asize
  }

  lemma ListsSmallNoFit(h: Heap, asize: int)
    requires Clean(h)
    requires forall j :: Class(asize) <= j < NUM_LISTS ==> 0 <= j && AllSmall(h, ListOf(h, j), asize)
    ensures NoFit(h, asize)
  {
    forall p | IsFree(h.blk, p) ensures h.blk[p].size < asize {
      var k := Class(h.blk[p].size);
      assert Agrees(h.blk, h.nodes, NONE, p) && Placed(h.blk, h.brk, p);
      WalkMeetsAll(h, p);
      assert Class(asize) <= k ==> AllSmall(h, ListOf(h, k), asize);
      if asize <= h.blk[p].size {
        ClassMonotone(asize, h.blk[p].size);
      }
    }
  }

  // ----------------------------------------------------------------- the contracts

  /** The sizes place can leave: the adjusted size, or eight bytes more. */
  ghost predicate Handed(asize: int, sz: int) { sz == asize || sz == asize + 8 }

  /** The size place leaves allocated: the remainder stays with the block unless it can hold a block. */
  function Taken(csize: int, asize: int): int {
    if csize - asize >= MIN_BLOCK then asize else csize
  }

  /** There is at most one first fit. */
  lemma FirstFitUnique(h: Heap, asize: int, r: int, r': int)
    requires ListsOk(h.m, h.nodes, h.clock) && FirstFit(h, asize, r) && FirstFit(h, asize, r')
    ensures r == r'
  {
    var k, k' := h.nodes[r].list, h.nodes[r'].list;
    var i :| 0 <= i < |ListOf(h, k)| && ListOf(h, k)[i] == r && AllSmall(h, ListOf(h, k)[..i], asize);
    var j :| 0 <= j < |ListOf(h, k')| && ListOf(h, k')[j] == r' && AllSmall(h, ListOf(h, k')[..j], asize);
    SmallInFront(h, ListOf(h, k'), asize, i, j);
    SmallInFront(h, ListOf(h, k), asize, j, i);
  }

  lemma SmallInFront(h: Heap, s: seq<int>, asize: int, i: nat, j: nat)
    requires j <= |s| && AllSmall(h, s[..j], asize)
    ensures i < j ==> s[i] in h.blk && h.blk[s[i]].size < asize
  {
    if i < j { assert s[..j][i] == s[i]; }
  }

  /** The size of the block the heap will give for asize bytes: what place leaves of the first
      fit, or of the last free bytes of the heap and what it grows by. */
  ghost function GivenSize(h: Heap, asize: int): int
    requires Clean(h)
  {
    if exists r :: FirstFit(h, asize, r) then
      var r :| FirstFit(h, asize, r);
      Taken(h.blk[r].size, asize)
    else
      Taken(FreeBefore(h, h.brk) + Max(asize, 128), asize)
  }

  lemma GivenAtFit(h: Heap, asize: int, r: int)
    requires Clean(h) && FirstFit(h, asize, r)
    ensures GivenSize(h, asize) == Taken(h.blk[r].size, asize)
  {
    var r' :| FirstFit(h, asize, r') && GivenSize(h, asize) == Taken(h.blk[r'].size, asize);
    FirstFitUnique(h, asize, r, r');
  }

  lemma GivenWhenGrown(h: Heap, asize: int)
    requires Clean(h) && NoFit(h, asize)
    ensures GivenSize(h, asize) == Taken(FreeBefore(h, h.brk) + Max(asize, 128), asize)
  { }

  /** mm_malloc(n) takes h to h' and returns r, in a region of limit bytes. */
  ghost predicate MallocSpec(h: Heap, n: int, limit: int, h': Heap, r: int)
    requires Clean(h)
  {
    var asize := Asize(n);
    if n == 0 || (NoFit(h, asize) && h.brk + Max(asize, 128) > limit) then r == 0 && h' == h
    else
      && Clean(h') && r !in Live(h) && r in Live(h')
      && Live(h') == Live(h)[r := Live(h')[r]]
      && Live(h')[r] == GivenSize(h, asize) && Handed(asize, Live(h')[r])
      && SamePayloads(h.m, h'.m, Live(h))
      && h'.brk == (if NoFit(h, asize) then h.brk + Max(asize, 128) else h.brk)
      && (if NoFit(h, asize) then r == h.brk - FreeBefore(h, h.brk) else FirstFit(h, asize, r))
  }

  /** mm_free(p) takes h to h'. */
  ghost predicate FreeSpec(h: Heap, p: int, h': Heap)
    requires p in h.blk
  {
    && Clean(h') && h'.brk == h.brk && Live(h') == Live(h) - {p}
    && SamePayloads(h.m, h'.m, Live(h'))
    && Joined(h, p, h', p - FreeBefore(h, p))
  }

  /** The free block at r is block p of h with the free bytes before and after it, and is first in its list. */
  ghost predicate Joined(h: Heap, p: int, h': Heap, r: int)
    requires p in h.blk
  {
    var n := p + h.blk[p].size;
    && n in h.blk && IsFree(h'.blk, r) && r + h'.blk[r].size == n + FreeAt(h, n)
    && Rd(h'.m, Root(Class(h'.blk[r].size)) + 4) == r
  }

  /** mm_realloc(p, n) of a live p takes h to h' and returns r != 0. */
  ghost predicate ReallocSpec(h: Heap, p: int, n: int, h': Heap, r: int)
    requires Clean(h) && p in Live(h)
  {
    var size := Live(h)[p];
    var asize := Asize(Request(size, n));
    && Clean(h') && r !in Live(h) && r in Live(h')
    && Live(h') == (Live(h) - {p})[r := Live(h')[r]]
    && Live(h')[r] == GivenSize(h, asize) && Handed(asize, Live(h')[r])
    && Count(size, n) + 4 <= Live(h')[r]
    && (n <= TWO32 - 12 ==> n + 4 <= Live(h')[r])
    && h'.brk == (if NoFit(h, asize) then h.brk + Max(asize, 128) else h.brk)
    && SamePayloads(h.m, h'.m, Live(h) - {p})
    && Copied(h.m, p, h'.m, r, if n < size - 4 then n else size - 4)
  }

  /** The bytes mm_realloc asks for, and those it copies, for a block of size bytes. */
  function Request(size: int, n: int): int { if size <= n then n else size }
  function Count(size: int, n: int): int { if size <= n then size else n }

  /** All of mm_realloc(p, n); fault is the copy through NULL after a failed malloc, or
      past the end of a new block whose size has wrapped. */
  ghost predicate ReallocContract(h: Heap, p: int, n: int, limit: int, h': Heap, r: int, fault: bool)
    requires Clean(h) && (p == 0 || p in Live(h))
  {
    if n == 0 then r == 0 && !fault && (if p == 0 then h' == h else FreeSpec(h, p, h'))
    else if p == 0 then !fault && MallocSpec(h, n, limit, h', r)
    else if fault then
      && MallocSpec(h, Request(Live(h)[p], n), limit, h', r)
      && (r != 0 ==> r in Live(h') && Live(h')[r] - 4 < Count(Live(h)[p], n))
    else ReallocSpec(h, p, n, h', r)
  }

  // ------------------------------------------------------------------------- bytes

  function Pow256(k: int): int
    requires 0 <= k < 4
  {
    if k == 0 then 1 else if k == 1 then 0x100 else if k == 2 then 0x1_0000 else 0x100_0000
  }

  function ByteOf(w: Word, k: int): int
    requires 0 <= k < 4
  {
    w / Pow256(k) % 256
  }

  /** The byte at any address, words being little-endian. */
  function ByteAt(m: Memory, a: int): int {
    ByteOf(Rd(m, a - a % 4), a % 4)
  }

  ghost predicate CopiedByte(m: Memory, a: int, m': Memory, b: int, i: int) {
    ByteAt(m', b + i) == ByteAt(m, a + i)
  }

  /** The n bytes at a in m are the n bytes at b in m'. */
  ghost predicate Copied(m: Memory, a: int, m': Memory, b: int, n: int) {
    forall i {:trigger CopiedByte(m, a, m', b, i)} :: 0 <= i < n ==> CopiedByte(m, a, m', b, i)
  }

  /** The word d with its k low bytes replaced by those of s. */
  function MergeBytes(d: Word, s: Word, k: int): int
    requires 0 <= k < 4
  {
    d - d % Pow256(k) + s % Pow256(k)
  }

  lemma MergedByte(d: Word, s: Word, k: int, i: int)
    requires 0 <= i < k < 4
    ensures 0 <= MergeBytes(d, s, k) < TWO32
    ensures ByteOf(MergeBytes(d, s, k), i) == ByteOf(s, i)
  {
    var P := Pow256(k);
    MergeInRange(d, s, k);
    assert d - d % P == P * (d / P);
    assert s == P * (s / P) + s % P;
    LowByte(d / P, s % P, k, i);
    LowByte(s / P, s % P, k, i);
  }

  lemma MergeInRange(d: Word, s: Word, k: int)
    requires 0 <= k < 4
    ensures 0 <= MergeBytes(d, s, k) < TWO32
  {
    var P := Pow256(k);
    assert d == P * (d / P) + d % P;
    assert TWO32 == P * (if k == 0 then TWO32 else if k == 1 then 0x100_0000 else if k == 2 then 0x1_0000 else 0x100);
  }

  lemma LowByte(q: nat, u: nat, k: int, i: int)
    requires 0 <= i < k < 4 && u < Pow256(k)
    ensures (Pow256(k) * q + u) / Pow256(i) % 256 == u / Pow256(i) % 256
  {
    if k == 1 {
      ByteShift(q, u, 1);
    } else if k == 2 {
      if i == 0 { ByteShift(0x100 * q, u, 1); } else { ByteShift(q, u, 0x100); }
    } else {
      if i == 0 { ByteShift(0x1_0000 * q, u, 1); }
      else if i == 1 { ByteShift(0x100 * q, u, 0x100); }
      else { ByteShift(q, u, 0x1_0000); }
    }
  }

  lemma ByteShift(q: nat, u: nat, D: nat)
    requires D == 1 || D == 0x100 || D == 0x1_0000
    ensures (256 * D * q + u) / D % 256 == u / D % 256
  {
    assert (256 * D * q + u) / D == 256 * q + u / D;
  }

  // ----------------------------------------------------------------- client writes

  /** Only words at lo and up, below hi, may differ. */
  ghost predicate OnlyWithin(m: Memory, m': Memory, lo: int, hi: int) {
    forall a {:trigger Rd(m', a)} :: Rd(m', a) == Rd(m, a) || lo <= a < hi
  }

  /** A client that writes inside a live block disturbs neither the invariant nor any other payload. */
  lemma ClientWrite(h: Heap, p: int, m': Memory)
    requires Clean(h) && p in Live(h) && OnlyWithin(h.m, m', p, p + h.blk[p].size - 4)
    ensures Clean(h.(m := m')) && Live(h.(m := m')) == Live(h)
    ensures SamePayloads(h.m, m', Live(h) - {p})
  {
    var h' := h.(m := m');
    forall q ensures BlockOk(h', q) {
      assert BlockOk(h, q);
      assert q in h.blk ==> Placed(h.blk, h.brk, q);
      assert Apart(h.blk, p, q) && Apart(h.blk, q, p);
    }
    NodesFree(h, NONE);
    assert SameLinks(h.m, m', h.nodes) by {
      forall a | IsLinkWord(h.nodes, a) ensures Rd(m', a) == Rd(h.m, a) {
        var y := if a in h.nodes then a else a - 4;
        assert y in h.nodes ==> Placed(h.blk, h.brk, y);
        assert Placed(h.blk, h.brk, p) && Apart(h.blk, p, y) && Apart(h.blk, y, p);
      }
    }
    SameLinksKeepLists(h.m, m', h.nodes, h.clock);
    var others := Live(h) - {p};
    forall q | q in others ensures SameWords(h.m, m', q, q + others[q] - 4) {
      assert Placed(h.blk, h.brk, q) && Placed(h.blk, h.brk, p) && Apart(h.blk, p, q) && Apart(h.blk, q, p);
    }
  }

  /** Byte j of a region that starts at a word, seen from the word that holds it. */
  lemma ByteIn(m: Memory, a: int, i: int, j: int)
    requires Cell(a) && Cell(i) && i <= j < i + 4
    ensures ByteAt(m, a + j) == ByteOf(Rd(m, a + i), j - i)
  {
    CellSum(a, i);
    CellIsMultiple(a + i);
    var q := (a + i) / 4;
    assert a + i == 4 * q && a + j == 4 * q + (j - i);
    assert (a + j) % 4 == j - i;
  }

  /** A word equal to another makes four equal bytes. */
  lemma WordCopied(m: Memory, a: int, m': Memory, b: int, i: int, j: int)
    requires Cell(a) && Cell(b) && Cell(i) && i <= j < i + 4
    requires Rd(m', b + i) == Rd(m, a + i)
    ensures CopiedByte(m, a, m', b, j)
  {
    ByteIn(m, a, i, j);
    ByteIn(m', b, i, j);
  }

  /** Equal words make equal bytes. */
  lemma SameWordsCopied(m: Memory, m': Memory, lo: int, hi: int)
    requires SameWords(m, m', lo, hi) && Cell(lo)
    ensures Copied(m, lo, m', lo, hi - lo)
  {
    forall i | 0 <= i < hi - lo ensures CopiedByte(m, lo, m', lo, i) {
      var k := WordStart(i);
      WordCopied(m, lo, m', lo, k, i);
    }
  }

  lemma WordStart(i: int) returns (k: int)
    requires 0 <= i
    ensures Cell(k) && 0 <= k <= i < k + 4
  {
    k := 4 * (i / 4);
    CellIsMultiple(k);
  }

  lemma CopiedTrans(m0: Memory, a: int, m1: Memory, b: int, m2: Memory, c: int, n: int, k: int)
    requires Copied(m0, a, m1, b, n) && Copied(m1, b, m2, c, k)
    ensures Copied(m0, a, m2, c, if n < k then n else k)
  {
    forall i | 0 <= i < n && i < k ensures CopiedByte(m0, a, m2, c, i) {
      assert CopiedByte(m0, a, m1, b, i) && CopiedByte(m1, b, m2, c, i);
    }
  }
}
