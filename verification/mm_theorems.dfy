/** What the invariant means: the heap as its words show it and as its client sees it. */
module HeapTheorems {
  import opened HeapWords
  import opened HeapModel
  import opened HeapSpecs

  // ------------------------------------------------------------- the implicit list

  /** The blocks met by stepping from header to header until one has size 0. */
  ghost function Walk(m: Memory, p: int, brk: int): seq<int>
    decreases brk - p
  {
    var s := SizeOf(Rd(m, p - 4));
    if s <= 0 || brk < p + s then [p] else [p] + Walk(m, p + s, brk)
  }

  lemma {:induction false} WalkFrom(h: Heap, p: int)
    requires Clean(h) && p in h.blk
    ensures forall q :: q in Walk(h.m, p, h.brk) <==> q in h.blk && p <= q
    ensures var s := Walk(h.m, p, h.brk);
      && s[0] == p && s[|s| - 1] == h.brk
      && forall i :: 0 <= i < |s| - 1 ==> s[i] in h.blk && s[i] != h.brk && s[i + 1] == s[i] + h.blk[s[i]].size
    decreases h.brk - p
  {
    assert Placed(h.blk, h.brk, p) && BlockOk(h, p);
    TagDecodes(h.blk[p]);
    forall q | q in h.blk ensures q <= h.brk && Apart(h.blk, p, q) { assert Placed(h.blk, h.brk, q); }
    if p != h.brk {
      var n := p + h.blk[p].size;
      WalkFrom(h, n);
      var s, t := Walk(h.m, n, h.brk), Walk(h.m, p, h.brk);
      assert t == [p] + s;
      forall i | 0 <= i < |t| - 1 ensures t[i] in h.blk && t[i] != h.brk && t[i + 1] == t[i] + h.blk[t[i]].size {
        assert t[i + 1] == s[i];
        if i > 0 { assert t[i] == s[i - 1]; }
      }
    }
  }

  /** The step from block p to block n as the words show it. */
  ghost predicate TileAt(m: Memory, p: int, n: int) {
    var w, w' := Rd(m, p - 4), Rd(m, n - 4);
    && n == p + SizeOf(w) && p % 8 == 0 && SizeOf(w) % 8 == 0 && MIN_BLOCK <= SizeOf(w)
    && PrevAllocOf(w') == AllocOf(w)
    && (!AllocOf(w) ==> AllocOf(w') && Rd(m, n - 8) == w)
  }

  /** What a well-formed heap looks like in memory, with no reference to the model's blocks. */
  ghost predicate WordsTile(m: Memory, brk: int) {
    var s := Walk(m, 8, brk);
    && 2 <= |s| && s[0] == 8 && s[1] == FIRST_BLOCK && s[|s| - 1] == brk
    && Rd(m, 4) == PROLOGUE_SIZE + 1 && SizeOf(Rd(m, brk - 4)) == 0 && AllocOf(Rd(m, brk - 4))
    && forall i :: 0 <= i < |s| - 1 ==> TileAt(m, s[i], s[i + 1])
  }

  /** Blocks tile the heap from the prologue to a size-0 allocated epilogue, every
      status bit is its predecessor's status, free blocks have equal tags at both
      ends, and no two free blocks are adjacent. */
  lemma CleanHeapTiles(h: Heap)
    requires Clean(h)
    ensures WordsTile(h.m, h.brk)
  {
    WalkFrom(h, 8);
    var s := Walk(h.m, 8, h.brk);
    HeaderReads(h, h.brk);
    assert Placed(h.blk, h.brk, h.brk);
    assert Rd(h.m, 4) == PROLOGUE_SIZE + 1 by { assert BlockOk(h, 8); }
    forall i | 0 <= i < |s| - 1 ensures TileAt(h.m, s[i], s[i + 1]) {
      assert Placed(h.blk, h.brk, s[i]);
      BlockReads(h, s[i]);
    }
  }

  /** When a header says that the block before it is free, the footer there leads back to that block. */
  lemma FooterLeadsBack(h: Heap, p: int)
    requires Clean(h) && p in h.blk && p != 8 && !PrevAllocOf(Rd(h.m, p - 4))
    ensures var q := p - SizeOf(Rd(h.m, p - 8));
      IsFree(h.blk, q) && q + h.blk[q].size == p
  {
    var q := Predecessor(h.blk, h.brk, p);
    assert BlockOk(h, q) && BlockOk(h, p) && Placed(h.blk, h.brk, q);
    HeaderReads(h, p);
    HeaderReads(h, q);
  }

  lemma BlockReads(h: Heap, p: int)
    requires Clean(h) && p in h.blk && p != h.brk
    ensures TileAt(h.m, p, p + h.blk[p].size)
  {
    var n := p + h.blk[p].size;
    assert Placed(h.blk, h.brk, p) && BlockOk(h, p) && BlockOk(h, n);
    HeaderReads(h, p);
    HeaderReads(h, n);
  }

  // ------------------------------------------------------------------ live blocks

  /** Live blocks are 8-aligned, lie strictly between the prologue and the epilogue,
      and neither headers nor payloads of two of them overlap. */
  lemma LiveBlocksDisjoint(h: Heap, p: int, q: int)
    requires Clean(h) && p in Live(h) && q in Live(h) && p != q
    ensures p % 8 == 0 && FIRST_BLOCK <= p && p + Live(h)[p] <= h.brk
    ensures p + Live(h)[p] <= q || q + Live(h)[q] <= p
  {
    assert Placed(h.blk, h.brk, p) && Placed(h.blk, h.brk, q) && Apart(h.blk, p, q) && Apart(h.blk, q, p);
  }

  /** A non-null result of mm_malloc(n): aligned, in the heap, apart from every live block and
      disturbing no payload. It has n payload bytes if and only if n does not wrap, and is then
      at most max(24, n+19) bytes. */
  lemma MallocGives(h: Heap, n: int, limit: int, h': Heap, r: int)
    requires Clean(h) && 0 <= n && MallocSpec(h, n, limit, h', r) && r != 0
    ensures r % 8 == 0 && r in Live(h') && FIRST_BLOCK <= r && r + Live(h')[r] <= h'.brk
    ensures n <= Live(h')[r] - 4 <==> n <= TWO32 - 12
    ensures n <= TWO32 - 12 ==> Live(h')[r] <= Max(24, n + 19)
    ensures forall q :: q in Live(h) ==> r + Live(h')[r] <= q || q + Live(h)[q] <= r
    ensures SamePayloads(h.m, h'.m, Live(h))
  {
    AsizeIsLeast(n);
    assert Placed(h'.blk, h'.brk, r);
    forall q | q in Live(h) ensures r + Live(h')[r] <= q || q + Live(h)[q] <= r {
      assert q in Live(h') && Live(h')[q] == Live(h)[q];
      LiveBlocksDisjoint(h', r, q);
    }
  }

  /** The exact size of the block handed out: asize when 16 bytes of the block found remain, all of
      it otherwise. The block found is the first fit; or, when nothing fits, the growth of the heap together with
      the free block at its end, if there is one. */
  lemma MallocSize(h: Heap, n: int, limit: int, h': Heap, r: int)
    requires Clean(h) && 0 < n && MallocSpec(h, n, limit, h', r) && r != 0
    ensures !NoFit(h, Asize(n)) ==>
      && FirstFit(h, Asize(n), r)
      && Live(h')[r] == if h.blk[r].size >= Asize(n) + 16 then Asize(n) else h.blk[r].size
    ensures NoFit(h, Asize(n)) ==>
      && h'.brk - h.brk == (if Asize(n) < 128 then 128 else Asize(n))
      && Live(h')[r] == (if h'.brk - r >= Asize(n) + 16 then Asize(n) else h'.brk - r)
      && (if h.blk[h.brk].prevAlloc then r == h.brk else IsFree(h.blk, r) && r + h.blk[r].size == h.brk)
  {
    if NoFit(h, Asize(n)) {
      GivenWhenGrown(h, Asize(n));
      if !h.blk[h.brk].prevAlloc {
        assert BlockOk(h, h.brk);
        HeaderReads(h, h.brk);
        FooterLeadsBack(h, h.brk);
      }
    } else {
      GivenAtFit(h, Asize(n), r);
    }
  }

  // ------------------------------------------------------------- faults of mm_realloc

  /** The block given holds asize bytes: the first fit does, and so does a heap that has grown. */
  lemma GivenIsEnough(h: Heap, asize: int)
    requires Clean(h)
    ensures asize <= GivenSize(h, asize)
  {
    if r :| FirstFit(h, asize, r) { GivenAtFit(h, asize, r); }
  }

  /** A moved block keeps its first bytes: byte i of the old payload is byte i of the new one. */
  lemma ReallocKeepsContents(h: Heap, p: int, n: int, limit: int, h': Heap, r: int, i: int)
    requires Clean(h) && p in Live(h) && 0 < n && ReallocContract(h, p, n, limit, h', r, false)
    requires 0 <= i < n && i < Live(h)[p] - 4
    ensures var w, w' := Rd(h.m, p + (i - i % 4)), Rd(h'.m, r + (i - i % 4));
      && (i % 4 == 0 ==> w' % 256 == w % 256)
      && (i % 4 == 1 ==> w' / 256 % 256 == w / 256 % 256)
      && (i % 4 == 2 ==> w' / 65536 % 256 == w / 65536 % 256)
      && (i % 4 == 3 ==> w' / 16777216 % 256 == w / 16777216 % 256)
  {
    SameByte(h, p, n, limit, h', r, i);
    ByteInWord(Rd(h.m, p + (i - i % 4)), Rd(h'.m, r + (i - i % 4)), i % 4);
  }

  lemma SameByte(h: Heap, p: int, n: int, limit: int, h': Heap, r: int, i: int)
    requires Clean(h) && p in Live(h) && 0 < n && ReallocContract(h, p, n, limit, h', r, false)
    requires 0 <= i < n && i < Live(h)[p] - 4
    ensures ByteOf(Rd(h'.m, r + (i - i % 4)), i % 4) == ByteOf(Rd(h.m, p + (i - i % 4)), i % 4)
  {
    assert CopiedByte(h.m, p, h'.m, r, i);
    assert p % 8 == 0 by { assert Placed(h.blk, h.brk, p); }
    assert r % 8 == 0 by { assert Placed(h'.blk, h'.brk, r); }
    ByteSplit(h.m, p, i);
    ByteSplit(h'.m, r, i);
  }

  lemma ByteInWord(w: Word, w': Word, k: int)
    requires 0 <= k < 4 && ByteOf(w', k) == ByteOf(w, k)
    ensures k == 0 ==> w' % 256 == w % 256
    ensures k == 1 ==> w' / 256 % 256 == w / 256 % 256
    ensures k == 2 ==> w' / 65536 % 256 == w / 65536 % 256
    ensures k == 3 ==> w' / 16777216 % 256 == w / 16777216 % 256
  { }

  lemma ByteSplit(m: Memory, p: int, i: int)
    requires p % 8 == 0 && 0 <= i
    ensures ByteAt(m, p + i) == ByteOf(Rd(m, p + (i - i % 4)), i % 4)
  {
    SameOffset(p / 8, i / 4, i % 4, p + i);
  }

  lemma SameOffset(block: int, word: int, k: int, a: int)
    requires 0 <= k < 4 && a == 8 * block + 4 * word + k
    ensures a % 4 == k
  {
    assert a / 4 == 2 * block + word;
  }

  /** mm_realloc faults exactly when the malloc inside finds no room, or the block the heap has
      for it, known before the call, is too small for what is copied. */
  lemma ReallocFaults(h: Heap, p: int, n: int, limit: int, h': Heap, r: int, fault: bool)
    requires Clean(h) && p in Live(h) && 0 < n && ReallocContract(h, p, n, limit, h', r, fault)
    requires h'.brk <= limit
    ensures var asize := Asize(Request(Live(h)[p], n));
      fault <==>
        || (NoFit(h, asize) && h.brk + Max(asize, 128) > limit)
        || GivenSize(h, asize) < Count(Live(h)[p], n) + 4
  { }

  /** What mm_realloc asks of mm_malloc: n bytes to grow a block, and the old size again to shrink
      it, so that a shrunken block is never smaller than it was. */
  lemma ReallocAsks(h: Heap, p: int, n: int, limit: int, h': Heap, r: int, fault: bool)
    requires Clean(h) && p in Live(h) && 0 < n && ReallocContract(h, p, n, limit, h', r, fault)
    requires h'.brk <= limit
    ensures var asked := if n < Live(h)[p] then Live(h)[p] else n;
      && (fault ==> MallocSpec(h, asked, limit, h', r))
      && (!fault ==>
          && r in Live(h') && Live(h')[r] == GivenSize(h, Asize(asked))
          && h'.brk == (if NoFit(h, Asize(asked)) then h.brk + Max(Asize(asked), 128) else h.brk))
    ensures n < Live(h)[p] && !fault ==> Live(h)[p] + 4 <= Live(h')[r]
    ensures n < Live(h)[p] ==> (fault <==>
      NoFit(h, Asize(Live(h)[p])) && h.brk + Max(Asize(Live(h)[p]), 128) > limit)
  {
    if n < Live(h)[p] {
      assert Placed(h.blk, h.brk, p);
      AsizeIsLeast(Live(h)[p]);
      GivenIsEnough(h, Asize(Live(h)[p]));
      ReallocFaults(h, p, n, limit, h', r, fault);
    }
  }

  /** Below the wrap it is never too small. */
  lemma ReallocFits(h: Heap, p: int, n: int)
    requires Clean(h) && p in Live(h) && 0 < n <= TWO32 - 12
    ensures Count(Live(h)[p], n) + 4 <= GivenSize(h, Asize(Request(Live(h)[p], n)))
  {
    var request := Request(Live(h)[p], n);
    assert Placed(h.blk, h.brk, p);
    AsizeIsLeast(request);
    GivenIsEnough(h, Asize(request));
  }

  /** Just above it, a block of at least 24 bytes is always copied past the end of the new one. */
  lemma ReallocOverruns(h: Heap, p: int, limit: int, h': Heap, r: int, fault: bool)
    requires Clean(h) && p in Live(h) && 24 <= Live(h)[p]
    requires ReallocContract(h, p, TWO32 - 4, limit, h', r, fault)
    ensures fault
  {
    assert Live(h)[p] <= TWO32 - 4 by { assert Placed(h.blk, h.brk, p); }
    WrappedRequest();
    ReallocHanded(h, p, TWO32 - 4, limit, h', r, fault);
  }

  lemma WrappedRequest()
    ensures Asize(TWO32 - 4) == 16
  { }

  lemma ReallocHanded(h: Heap, p: int, n: int, limit: int, h': Heap, r: int, fault: bool)
    requires Clean(h) && p in Live(h) && Live(h)[p] <= n && ReallocContract(h, p, n, limit, h', r, fault)
    ensures 0 < n && (fault || Live(h)[p] + 4 <= Asize(n) + 8)
  {
    assert Placed(h.blk, h.brk, p);
  }

  /** For every block size s there is a request that wraps to s. */
  lemma WrapsTo(s: int)
    requires s % 8 == 0 && MIN_BLOCK <= s < TWO32
    ensures Asize(TWO32 + s - 4) == s
  {
    assert (TWO32 + s - 4 + 3) % 8 == 7;
    assert Align(TWO32 + s - 4) == (TWO32 + s - 8) % TWO32;
  }

  /** With that request for a block of s bytes, the eight bytes place may leave decide. */
  lemma ReallocSameSize(h: Heap, p: int, limit: int, h': Heap, r: int, fault: bool)
    requires Clean(h) && p in Live(h) && ReallocContract(h, p, TWO32 + Live(h)[p] - 4, limit, h', r, fault)
    requires h'.brk <= limit
    ensures var s := Live(h)[p];
      fault <==> (NoFit(h, s) && h.brk + Max(s, 128) > limit) || GivenSize(h, s) == s
  {
    var s := Live(h)[p];
    assert Placed(h.blk, h.brk, p);
    WrapsTo(s);
    ReallocFaults(h, p, TWO32 + s - 4, limit, h', r, fault);
    GivenIsEnough(h, s);
    GivenAligned(h, s);
  }

  /** The size given is that of a block. */
  lemma GivenAligned(h: Heap, asize: int)
    requires Clean(h) && asize % 8 == 0
    ensures GivenSize(h, asize) % 8 == 0
  {
    if r :| FirstFit(h, asize, r) {
      GivenAtFit(h, asize, r);
      assert Placed(h.blk, h.brk, r);
    } else if !h.blk[h.brk].prevAlloc {
      assert BlockOk(h, h.brk);
      HeaderReads(h, h.brk);
      FooterLeadsBack(h, h.brk);
      var q := h.brk - FreeBefore(h, h.brk);
      assert Placed(h.blk, h.brk, q);
    }
  }
  // ------------------------------------------------------------ canonical free space

  /** [p, p+s) is a maximal stretch of [128, brk) that meets no live block. */
  ghost predicate IsGap(live: map<int, int>, brk: int, p: int, s: int) {
    && 0 < s && FIRST_BLOCK <= p && p + s <= brk
    && (p == FIRST_BLOCK || exists q :: q in live && q + live[q] == p)
    && (p + s == brk || p + s in live)
    && (forall q :: q in live ==> q + live[q] <= p || p + s <= q)
  }

  /** Free blocks are exactly the maximal gaps between live blocks. */
  lemma FreeBlocksAreGaps(h: Heap, p: int, s: int)
    requires Clean(h)
    ensures IsFree(h.blk, p) && h.blk[p].size == s <==> IsGap(Live(h), h.brk, p, s)
  {
    if IsFree(h.blk, p) && h.blk[p].size == s { FreeIsGap(h, p); }
    if IsGap(Live(h), h.brk, p, s) { GapIsFree(h, p, s); }
  }

  lemma FreeIsGap(h: Heap, p: int)
    requires Clean(h) && IsFree(h.blk, p)
    ensures IsGap(Live(h), h.brk, p, h.blk[p].size)
  {
    FreeInside(h.blk, h.brk, p);
    var live, n := Live(h), p + h.blk[p].size;
    assert Placed(h.blk, h.brk, p) && Placed(h.blk, h.brk, n);
    assert BlockOk(h, p) && BlockOk(h, n);
    assert n == h.brk || n in live;
    if p != FIRST_BLOCK {
      var q := Predecessor(h.blk, h.brk, p);
      assert BlockOk(h, q);
      if q != 8 {
        After(h.blk, h.brk, q);
        assert q in live && q + live[q] == p;
      }
    }
    forall q | q in live ensures q + live[q] <= p || n <= q {
      assert Apart(h.blk, p, q) && Apart(h.blk, q, p);
    }
  }

  lemma GapIsFree(h: Heap, p: int, s: int)
    requires Clean(h) && IsGap(Live(h), h.brk, p, s)
    ensures IsFree(h.blk, p) && h.blk[p].size == s
  {
    var live := Live(h);
    assert Placed(h.blk, h.brk, 8);
    if p != FIRST_BLOCK {
      var q :| q in live && q + live[q] == p;
      assert Placed(h.blk, h.brk, q);
    }
    assert p in h.blk && p != h.brk;
    assert Placed(h.blk, h.brk, p);
    if p in live { assert false; }
    assert IsFree(h.blk, p);
    FreeIsGap(h, p);
    var n := p + h.blk[p].size;
    assert p + s in live ==> Placed(h.blk, h.brk, p + s);
    assert n in live ==> Placed(h.blk, h.brk, n);
  }

  /** The blocks of a heap are determined by its live blocks and its break: the history
      of mallocs and frees leaves no other trace in the implicit list. */
  lemma FreeSpaceIsCanonical(h1: Heap, h2: Heap)
    requires Clean(h1) && Clean(h2) && Live(h1) == Live(h2) && h1.brk == h2.brk
    ensures h1.blk == h2.blk
  {
    forall p | p in h1.blk ensures p in h2.blk && h2.blk[p] == h1.blk[p] { SameBlock(h1, h2, p); }
    forall p | p in h2.blk ensures p in h1.blk { SameShape(h2, h1, p); }
  }

  lemma SameShape(h1: Heap, h2: Heap, p: int)
    requires Clean(h1) && Clean(h2) && Live(h1) == Live(h2) && h1.brk == h2.brk && p in h1.blk
    ensures p in h2.blk && h2.blk[p].size == h1.blk[p].size && h2.blk[p].alloc == h1.blk[p].alloc
  {
    assert Placed(h1.blk, h1.brk, p) && Placed(h2.blk, h2.brk, h2.brk);
    if IsFree(h1.blk, p) {
      FreeIsGap(h1, p);
      GapIsFree(h2, p, h1.blk[p].size);
    } else if p != 8 && p != h1.brk {
      After(h1.blk, h1.brk, p);
      assert p in Live(h1);
      assert p in Live(h2);
    }
  }

  lemma SameBlock(h1: Heap, h2: Heap, p: int)
    requires Clean(h1) && Clean(h2) && Live(h1) == Live(h2) && h1.brk == h2.brk && p in h1.blk
    ensures p in h2.blk && h2.blk[p] == h1.blk[p]
  {
    SameShape(h1, h2, p);
    if p != 8 {
      var q := Predecessor(h1.blk, h1.brk, p);
      SameShape(h1, h2, q);
      assert BlockOk(h1, q) && BlockOk(h2, q);
    }
  }

  /** Prologue, one free block, epilogue. */
  function OneFreeBlock(brk: int): map<int, Block> {
    map[8 := Block(PROLOGUE_SIZE, true, false), FIRST_BLOCK := Block(brk - FIRST_BLOCK, false, true),
        brk := Block(0, true, false)]
  }

  /** When nothing is live, exactly one free block spans the heap. */
  lemma AllFreedIsOneBlock(h: Heap)
    requires Clean(h) && Live(h) == map[] && FIRST_BLOCK < h.brk
    ensures forall p :: IsFree(h.blk, p) <==> p == FIRST_BLOCK
    ensures h.blk == OneFreeBlock(h.brk)
  {
    GapIsFree(h, FIRST_BLOCK, h.brk - FIRST_BLOCK);
    forall p ensures IsFree(h.blk, p) <==> p == FIRST_BLOCK {
      if IsFree(h.blk, p) { FreeIsGap(h, p); }
    }
    forall p | p in h.blk ensures p == 8 || p == FIRST_BLOCK || p == h.brk {
      assert Placed(h.blk, h.brk, p);
      if p != 8 { After(h.blk, h.brk, p); }
      assert IsFree(h.blk, p) || p < FIRST_BLOCK || p == h.brk || p in Live(h);
    }
    assert BlockOk(h, FIRST_BLOCK) && Placed(h.blk, h.brk, h.brk);
    assert h.blk[FIRST_BLOCK] == Block(h.brk - FIRST_BLOCK, false, true);
    assert h.blk[h.brk] == Block(0, true, false);
    assert h.blk.Keys == {8, FIRST_BLOCK, h.brk};
  }

  // ------------------------------------------------------------------ conservation

  ghost function FreeSizes(h: Heap): map<int, int> {
    map p | p in h.blk && !h.blk[p].alloc :: h.blk[p].size
  }

  /** The sum of the sizes in a map. */
  ghost function Total(s: map<int, int>): int {
    if exists k :: k in s then var k :| k in s; s[k] + Total(s - {k}) else 0
  }

  lemma {:induction false} TotalWithout(s: map<int, int>, k: int)
    requires k in s
    ensures Total(s) == s[k] + Total(s - {k})
  {
    var j :| j in s && Total(s) == s[j] + Total(s - {j});
    if j != k {
      TotalWithout(s - {j}, k);
      assert s - {j} - {k} == s - {k} - {j};
      TotalWithout(s - {k}, j);
    }
  }

  lemma TotalAdd(s: map<int, int>, k: int, v: int)
    requires k !in s
    ensures Total(s[k := v]) == Total(s) + v
  {
    TotalWithout(s[k := v], k);
    assert s[k := v] - {k} == s;
  }

  ghost function Below(s: map<int, int>, p: int): map<int, int> {
    map q | q in s && q < p :: s[q]
  }

  lemma {:induction false} ConservedFrom(h: Heap, p: int)
    requires Clean(h) && p in h.blk && FIRST_BLOCK <= p
    ensures Total(Below(Live(h), p)) + Total(Below(FreeSizes(h), p)) == p - FIRST_BLOCK
    decreases p
  {
    if p == FIRST_BLOCK {
      forall q | q in h.blk && q < p ensures q == 8 {
        assert Placed(h.blk, h.brk, 8) && Apart(h.blk, 8, q) && Placed(h.blk, h.brk, q);
      }
      assert Below(Live(h), p) == map[] && Below(FreeSizes(h), p) == map[];
    } else {
      assert p != 8;
      var q := Predecessor(h.blk, h.brk, p);
      BelowNext(h, q, p);
      ConservedFrom(h, q);
      if h.blk[q].alloc {
        TotalAdd(Below(Live(h), q), q, h.blk[q].size);
      } else {
        TotalAdd(Below(FreeSizes(h), q), q, h.blk[q].size);
      }
    }
  }

  /** Passing block q adds it to the live or to the free sizes. */
  lemma BelowNext(h: Heap, q: int, p: int)
    requires Clean(h) && p in h.blk && q in h.blk && q + h.blk[q].size == p && q < p && q != h.brk && FIRST_BLOCK < p
    ensures FIRST_BLOCK <= q
    ensures Below(Live(h), p) == if h.blk[q].alloc then Below(Live(h), q)[q := h.blk[q].size] else Below(Live(h), q)
    ensures Below(FreeSizes(h), p)
         == if h.blk[q].alloc then Below(FreeSizes(h), q) else Below(FreeSizes(h), q)[q := h.blk[q].size]
  {
    if q != 8 { After(h.blk, h.brk, q); }
    assert Placed(h.blk, h.brk, q);
    forall y | y in h.blk && y < p ensures y <= q { assert Apart(h.blk, q, y); }
  }

  /** Live and free sizes always sum to the heap without the prologue. */
  lemma BytesConserved(h: Heap)
    requires Clean(h)
    ensures Total(Live(h)) + Total(FreeSizes(h)) == h.brk - FIRST_BLOCK
  {
    After(h.blk, h.brk, h.brk);
    ConservedFrom(h, h.brk);
    forall p | p in h.blk ensures p <= h.brk { assert Placed(h.blk, h.brk, p); }
    forall p | p in FreeSizes(h) ensures p < h.brk { FreeInside(h.blk, h.brk, p); }
    assert Below(Live(h), h.brk) == Live(h) && Below(FreeSizes(h), h.brk) == FreeSizes(h);
  }

  /** A malloc moves the bytes of its block from free to live, plus what the heap grew;
      the heap grows by max(asize, 128), and only when no free block fits. */
  lemma MallocMovesBytes(h: Heap, n: int, limit: int, h': Heap, r: int)
    requires Clean(h) && 0 < n && MallocSpec(h, n, limit, h', r) && r != 0
    ensures Total(Live(h')) == Total(Live(h)) + Live(h')[r]
    ensures Total(FreeSizes(h'))
         == Total(FreeSizes(h)) - Live(h')[r] + if NoFit(h, Asize(n)) then Max(Asize(n), 128) else 0
  {
    BytesConserved(h);
    BytesConserved(h');
    TotalAdd(Live(h), r, Live(h')[r]);
  }

  lemma FreeMovesBytes(h: Heap, p: int, h': Heap)
    requires Clean(h) && p in Live(h) && FreeSpec(h, p, h')
    ensures Total(FreeSizes(h')) == Total(FreeSizes(h)) + Live(h)[p]
  {
    BytesConserved(h);
    BytesConserved(h');
    TotalWithout(Live(h), p);
  }

  // -------------------------------------------------------------- freeing everything

  /** Freeing every live block, one after another in any order, leaves one free block over the whole heap. */
  lemma {:induction false} FreeingAllLeavesOneBlock(hs: seq<Heap>, ps: seq<int>)
    requires |hs| == |ps| + 1 && Clean(hs[0]) && FIRST_BLOCK < hs[0].brk
    requires forall i :: 0 <= i < |ps| ==> Clean(hs[i]) && ps[i] in Live(hs[i]) && FreeSpec(hs[i], ps[i], hs[i + 1])
    requires forall q :: q in Live(hs[0]) ==> q in ps
    ensures Live(hs[|ps|]) == map[] && hs[|ps|].brk == hs[0].brk
    ensures FreeSizes(hs[|ps|]) == map[FIRST_BLOCK := hs[0].brk - FIRST_BLOCK]
  {
    FreesLeave(hs, ps);
    var h := hs[|ps|];
    assert Live(h) == map[] by { assert forall q :: q !in Live(h); }
    AllFreedIsOneBlock(h);
    OneFreeSize(h);
  }

  lemma OneFreeSize(h: Heap)
    requires h.blk == OneFreeBlock(h.brk)
    requires FIRST_BLOCK < h.brk
    ensures FreeSizes(h) == map[FIRST_BLOCK := h.brk - FIRST_BLOCK]
  { }

  lemma {:induction false} FreesLeave(hs: seq<Heap>, ps: seq<int>)
    requires |hs| == |ps| + 1 && Clean(hs[0])
    requires forall i :: 0 <= i < |ps| ==> Clean(hs[i]) && ps[i] in Live(hs[i]) && FreeSpec(hs[i], ps[i], hs[i + 1])
    ensures Clean(hs[|ps|]) && hs[|ps|].brk == hs[0].brk
    ensures forall q :: q in Live(hs[|ps|]) ==> q in Live(hs[0]) && q !in ps
  {
    if |ps| > 0 {
      var k := |ps| - 1;
      FreesLeave(hs[..k + 1], ps[..k]);
      assert ps == ps[..k] + [ps[k]];
    }
  }
}
