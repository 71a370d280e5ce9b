/** The abstract heap: what the words of memory mean, and when they agree. */
module HeapModel {
  import opened HeapWords

  /** A node of a segregated list: its list, and the time it was inserted.
      Insertion is always at the head, so stamps fall along every list. */
  datatype Node = Node(list: int, stamp: int)

  /** m: the words; brk: the end of the heap; blk: the blocks of the implicit
      list by payload address, the prologue (8) and the epilogue (brk) included;
      nodes: the members of the free lists; clock: the next stamp. */
  datatype Heap = Heap(m: Memory, brk: int, blk: map<int, Block>, nodes: map<int, Node>, clock: int)

  // ---------------------------------------------------------------- geometry

  ghost predicate Placed(blk: map<int, Block>, brk: int, p: int) {
    && p in blk && 8 <= p <= brk && p % 8 == 0 && blk[p].size % 8 == 0
    && if p == brk then blk[p].size == 0 && blk[p].alloc
       else blk[p].size >= MIN_BLOCK && p + blk[p].size <= brk && p + blk[p].size in blk
  }

  ghost predicate Apart(blk: map<int, Block>, p: int, q: int) {
    p in blk && q in blk && p < q ==> p + blk[p].size <= q
  }

  /** The blocks tile the heap from the prologue to the epilogue. */
  ghost predicate Tiled(blk: map<int, Block>, brk: int) {
    && brk % 8 == 0 && FIRST_BLOCK <= brk < TWO32 && brk in blk
    && 8 in blk && blk[8] == Block(PROLOGUE_SIZE, true, false)
    && (forall p {:trigger Placed(blk, brk, p)} :: p in blk ==> Placed(blk, brk, p))
    && (forall p, q {:trigger Apart(blk, p, q)} :: Apart(blk, p, q))
  }

  ghost predicate IsFree(blk: map<int, Block>, p: int) { p in blk && !blk[p].alloc }

  ghost predicate Occupied(blk: map<int, Block>, p: int) { p in blk && blk[p].alloc }

  /** The blocks handed out to the client, with their sizes. */
  ghost function Live(h: Heap): map<int, int> {
    map p | p in h.blk && h.blk[p].alloc && FIRST_BLOCK <= p < h.brk :: h.blk[p].size
  }

  // -------------------------------------------------------------- boundary tags

  ghost predicate HeaderOk(m: Memory, blk: map<int, Block>, p: int) {
    p in blk ==> Rd(m, p - 4) == Tag(blk[p])
  }

  ghost predicate FooterOk(m: Memory, blk: map<int, Block>, p: int) {
    IsFree(blk, p) ==> Rd(m, p + blk[p].size - 8) == Tag(blk[p])
  }

  /** The next header records this block's status. */
  ghost predicate StatusOk(blk: map<int, Block>, brk: int, p: int) {
    p in blk && p != brk && p + blk[p].size in blk ==>
      blk[p + blk[p].size].prevAlloc == blk[p].alloc
  }

  /** The block before a free block is allocated. */
  ghost predicate Coalesced(blk: map<int, Block>, p: int) {
    IsFree(blk, p) ==> blk[p].prevAlloc
  }

  ghost predicate BlockOk(h: Heap, p: int) {
    HeaderOk(h.m, h.blk, p) && FooterOk(h.m, h.blk, p) && StatusOk(h.blk, h.brk, p) && Coalesced(h.blk, p)
  }

  // ----------------------------------------------------------------- free lists

  ghost predicate BackOk(m: Memory, nodes: map<int, Node>, p: int)
    requires p in nodes
  {
    var v := Rd(m, p);
    && Rd(m, v + 4) == p
    && if v in nodes then nodes[v].list == nodes[p].list && nodes[p].stamp < nodes[v].stamp
       else v == Root(nodes[p].list)
  }

  ghost predicate ForwardOk(m: Memory, nodes: map<int, Node>, p: int)
    requires p in nodes
  {
    var n := Rd(m, p + 4);
    n != 0 ==> n in nodes && nodes[n].list == nodes[p].list && nodes[n].stamp < nodes[p].stamp && Rd(m, n) == p
  }

  ghost predicate NodeOk(nodes: map<int, Node>, clock: int, p: int)
    requires p in nodes
  {
    p % 8 == 0 && FIRST_BLOCK <= p < TWO32 && 0 <= nodes[p].list < NUM_LISTS && 0 <= nodes[p].stamp < clock
  }

  ghost predicate LinkOk(m: Memory, nodes: map<int, Node>, clock: int, p: int) {
    p in nodes ==> NodeOk(nodes, clock, p) && BackOk(m, nodes, p) && ForwardOk(m, nodes, p)
  }

  ghost predicate RootOk(m: Memory, nodes: map<int, Node>, k: int) {
    0 <= k < NUM_LISTS ==>
      var n := Rd(m, Root(k) + 4);
      n != 0 ==> n in nodes && nodes[n].list == k && Rd(m, n) == Root(k)
  }

  ghost predicate ListsOk(m: Memory, nodes: map<int, Node>, clock: int) {
    && 0 <= clock
    && (forall p {:trigger LinkOk(m, nodes, clock, p)} :: LinkOk(m, nodes, clock, p))
    && (forall k {:trigger RootOk(m, nodes, k)} :: RootOk(m, nodes, k))
  }

  /** p is a list node exactly when it is a free block other than x, and its size selects its list. */
  ghost predicate Agrees(blk: map<int, Block>, nodes: map<int, Node>, x: int, p: int) {
    && (p in nodes <==> IsFree(blk, p) && p != x)
    && (p in nodes ==> p in blk && nodes[p].list == Class(blk[p].size))
  }

  ghost predicate ListsMatch(blk: map<int, Block>, nodes: map<int, Node>, x: int) {
    forall p {:trigger Agrees(blk, nodes, x, p)} :: Agrees(blk, nodes, x, p)
  }

  const NONE := -1

  /** The invariant between operations. */
  ghost predicate Clean(h: Heap) {
    && Tiled(h.blk, h.brk)
    && (forall p {:trigger BlockOk(h, p)} :: BlockOk(h, p))
    && ListsOk(h.m, h.nodes, h.clock)
    && ListsMatch(h.blk, h.nodes, NONE)
  }

  // -------------------------------------------------------- the state in coalesce

  ghost predicate FooterSizeOk(m: Memory, blk: map<int, Block>, p: int) {
    IsFree(blk, p) ==> SizeOf(Rd(m, p + blk[p].size - 8)) == blk[p].size
  }

  ghost predicate SettledBlock(h: Heap, x: int, p: int)
    requires x in h.blk
  {
    && (p != x ==> HeaderOk(h.m, h.blk, p) && StatusOk(h.blk, h.brk, p))
    && (p != x && p != x + h.blk[x].size ==> FooterOk(h.m, h.blk, p) && Coalesced(h.blk, p))
  }

  /** Only x is unsettled: it is free but in no list, its own tags are not
      claimed, its neighbours may be free, the header after it need not record
      its status yet, and the footer after it is right only about the size. */
  ghost predicate Unsettled(h: Heap, x: int) {
    && Tiled(h.blk, h.brk)
    && FIRST_BLOCK <= x && IsFree(h.blk, x)
    && (forall p {:trigger SettledBlock(h, x, p)} :: SettledBlock(h, x, p))
    && FooterSizeOk(h.m, h.blk, x + h.blk[x].size)
    && ListsOk(h.m, h.nodes, h.clock)
    && ListsMatch(h.blk, h.nodes, x)
  }

  /** The state in which coalescing starts: x has just become free. */
  ghost predicate Pending(h: Heap, x: int) {
    Unsettled(h, x) && HeaderOk(h.m, h.blk, x) && FooterOk(h.m, h.blk, x)
  }

  /** The bytes of the free block that ends at p, as its footer says; none when the block before p is allocated. */
  ghost function FreeBefore(h: Heap, p: int): (k: int)
    requires p in h.blk
    ensures 0 <= k
  {
    SizeNotNegative(Rd(h.m, p - 8));
    if h.blk[p].prevAlloc then 0 else SizeOf(Rd(h.m, p - 8))
  }

  /** The bytes of the block at p if it is free. */
  ghost function FreeAt(h: Heap, p: int): int
    requires p in h.blk
  {
    if h.blk[p].alloc then 0 else h.blk[p].size
  }

  /** x is between two allocated blocks. */
  ghost predicate Isolated(blk: map<int, Block>, x: int) {
    && x in blk && blk[x].prevAlloc
    && x + blk[x].size in blk && blk[x + blk[x].size].alloc
  }

  // --------------------------------------------------------- what changes, what not

  ghost predicate SameWords(m: Memory, m': Memory, lo: int, hi: int) {
    forall a :: lo <= a < hi ==> Rd(m', a) == Rd(m, a)
  }

  /** No payload word of a block in live differs. */
  ghost predicate SamePayloads(m: Memory, m': Memory, live: map<int, int>) {
    forall q {:trigger q in live} :: q in live ==> SameWords(m, m', q, q + live[q] - 4)
  }

  ghost predicate IsLinkWord(nodes: map<int, Node>, a: int) {
    a in nodes || a - 4 in nodes || LIST0 <= a < PROLOGUE_SIZE
  }

  ghost predicate OnlyLinks(m: Memory, m': Memory, nodes: map<int, Node>) {
    forall a {:trigger Rd(m', a)} :: Rd(m', a) == Rd(m, a) || IsLinkWord(nodes, a)
  }

  /** m' holds every link word of m. */
  ghost predicate SameLinks(m: Memory, m': Memory, nodes: map<int, Node>) {
    forall a {:trigger Rd(m', a)} :: IsLinkWord(nodes, a) ==> Rd(m', a) == Rd(m, a)
  }

  // ------------------------------------------------------------------ basic lemmas

  lemma After(blk: map<int, Block>, brk: int, p: int)
    requires Tiled(blk, brk) && p in blk && p != 8
    ensures p >= FIRST_BLOCK
  {
    assert Apart(blk, 8, p);
    assert Placed(blk, brk, p);
  }

  /** Every block but the prologue follows some block. */
  lemma Predecessor(blk: map<int, Block>, brk: int, p: int) returns (q: int)
    requires Tiled(blk, brk) && p in blk && p != 8
    ensures q in blk && q < p && q + blk[q].size == p && q != brk
  {
    After(blk, brk, p);
    assert Placed(blk, brk, p);
    q := 8;
    while q + blk[q].size != p
      invariant q in blk && q < p
      decreases p - q
    {
      assert Apart(blk, q, p) && Placed(blk, brk, q);
      q := q + blk[q].size;
    }
    assert Placed(blk, brk, q);
  }

  /** The header word of a block gives its three fields. */
  lemma HeaderReads(h: Heap, p: int)
    requires Clean(h) && p in h.blk
    ensures SizeOf(Rd(h.m, p - 4)) == h.blk[p].size && AllocOf(Rd(h.m, p - 4)) == h.blk[p].alloc
    ensures PrevAllocOf(Rd(h.m, p - 4)) == h.blk[p].prevAlloc
  {
    assert Placed(h.blk, h.brk, p) && BlockOk(h, p);
    TagDecodes(h.blk[p]);
  }

  /** A free block lies after the prologue and before the epilogue. */
  lemma FreeInside(blk: map<int, Block>, brk: int, p: int)
    requires Tiled(blk, brk) && IsFree(blk, p)
    ensures FIRST_BLOCK <= p && p < brk && Placed(blk, brk, p)
  {
    assert Placed(blk, brk, p);
    After(blk, brk, p);
  }

  /** No link word of a listed block is a header, or the footer of a free block. */
  lemma LinksMissTags(blk: map<int, Block>, brk: int, nodes: map<int, Node>, a: int, p: int)
    requires Tiled(blk, brk) && p in blk && IsLinkWord(nodes, a)
    requires forall y :: y in nodes ==> IsFree(blk, y)
    ensures a != p - 4
    ensures p != 8 && p != brk ==> a != p + blk[p].size - 8
  {
    if p != 8 { After(blk, brk, p); }
    assert Placed(blk, brk, p);
    assert a in nodes ==> Placed(blk, brk, a);
    assert a - 4 in nodes ==> Placed(blk, brk, a - 4);
    assert Apart(blk, p, a) && Apart(blk, a, p) && Apart(blk, a - 4, p);
  }

  lemma OnlyLinksKeepTags(m: Memory, m': Memory, blk: map<int, Block>, brk: int, nodes: map<int, Node>, p: int)
    requires Tiled(blk, brk) && p in blk
    requires forall y :: y in nodes ==> IsFree(blk, y)
    requires OnlyLinks(m, m', nodes)
    ensures Rd(m', p - 4) == Rd(m, p - 4)
    ensures p != 8 && p != brk ==> Rd(m', p + blk[p].size - 8) == Rd(m, p + blk[p].size - 8)
  {
    if Rd(m', p - 4) != Rd(m, p - 4) { LinksMissTags(blk, brk, nodes, p - 4, p); }
    if p != 8 && p != brk && Rd(m', p + blk[p].size - 8) != Rd(m, p + blk[p].size - 8) {
      LinksMissTags(blk, brk, nodes, p + blk[p].size - 8, p);
    }
  }

  /** Writing a header, or the footer of a block, leaves the lists alone. */
  lemma TagWriteKeepsLinks(m: Memory, a: int, w: Word, blk: map<int, Block>, brk: int, nodes: map<int, Node>, p: int)
    requires Tiled(blk, brk) && p in blk && (a == p - 4 || (p != 8 && p != brk && a == p + blk[p].size - 8))
    requires forall y :: y in nodes ==> y in blk && y != 8 && y != brk
    ensures SameLinks(m, m[a := w], nodes)
  {
    if p != 8 { After(blk, brk, p); }
    assert Placed(blk, brk, p);
    assert a in nodes ==> Placed(blk, brk, a);
    assert a - 4 in nodes ==> Placed(blk, brk, a - 4);
    assert Apart(blk, p, a) && Apart(blk, a, p) && Apart(blk, a - 4, p);
  }

  lemma SameLinksKeepLists(m: Memory, m': Memory, nodes: map<int, Node>, clock: int)
    requires ListsOk(m, nodes, clock) && SameLinks(m, m', nodes)
    ensures ListsOk(m', nodes, clock)
  {
    forall p ensures LinkOk(m', nodes, clock, p) {
      assert LinkOk(m, nodes, clock, p);
      if p in nodes {
        assert IsLinkWord(nodes, p) && IsLinkWord(nodes, p + 4);
        assert Rd(m', p) == Rd(m, p) && Rd(m', p + 4) == Rd(m, p + 4);
        var v: int, n: int := Rd(m, p), Rd(m, p + 4);
        assert IsLinkWord(nodes, v + 4);
        assert Rd(m', v + 4) == Rd(m, v + 4);
        assert n != 0 ==> IsLinkWord(nodes, n) && Rd(m', n) == Rd(m, n);
      }
    }
    forall k ensures RootOk(m', nodes, k) {
      assert RootOk(m, nodes, k);
      if 0 <= k < NUM_LISTS {
        var n := Rd(m, Root(k) + 4);
        assert IsLinkWord(nodes, Root(k) + 4);
        assert Rd(m', Root(k) + 4) == n;
        assert n != 0 ==> IsLinkWord(nodes, n) && Rd(m', n) == Rd(m, n);
      }
    }
  }

  // ----------------------------------------------------------------- payload frames

  lemma PayloadsTrans(m0: Memory, m1: Memory, m2: Memory, live: map<int, int>)
    requires SamePayloads(m0, m1, live) && SamePayloads(m1, m2, live)
    ensures SamePayloads(m0, m2, live)
  {
    forall q | q in live ensures SameWords(m0, m2, q, q + live[q] - 4) {
      assert SameWords(m0, m1, q, q + live[q] - 4) && SameWords(m1, m2, q, q + live[q] - 4);
    }
  }

  lemma PayloadsOfFewer(m: Memory, m': Memory, live: map<int, int>, fewer: map<int, int>)
    requires SamePayloads(m, m', live)
    requires forall q :: q in fewer ==> q in live && fewer[q] == live[q]
    ensures SamePayloads(m, m', fewer)
  {
    forall q | q in fewer ensures SameWords(m, m', q, q + fewer[q] - 4) {
      assert SameWords(m, m', q, q + live[q] - 4);
    }
  }

  /** Relinking leaves every payload alone. */
  lemma OnlyLinksKeepPayloads(m: Memory, m': Memory, h: Heap, nodes: map<int, Node>)
    requires Tiled(h.blk, h.brk) && OnlyLinks(m, m', nodes)
    requires forall y :: y in nodes ==> IsFree(h.blk, y)
    ensures SamePayloads(m, m', Live(h))
  {
    var live := Live(h);
    forall q | q in live ensures SameWords(m, m', q, q + live[q] - 4) {
      forall a | q <= a < q + live[q] - 4 ensures Rd(m', a) == Rd(m, a) {
        var y := if a in nodes then a else a - 4;
        assert y in nodes ==> Placed(h.blk, h.brk, y);
        assert Placed(h.blk, h.brk, q) && Apart(h.blk, y, q) && Apart(h.blk, q, y);
      }
    }
  }

  /** Writing the header of a block, or any word inside a free block, leaves every payload alone. */
  lemma TagWriteKeepsPayloads(m: Memory, a: int, w: Word, h: Heap, p: int)
    requires Tiled(h.blk, h.brk) && p in h.blk
    requires a == p - 4 || (IsFree(h.blk, p) && p <= a < p + h.blk[p].size - 4)
    ensures SamePayloads(m, m[a := w], Live(h))
  {
    var live := Live(h);
    forall q | q in live ensures SameWords(m, m[a := w], q, q + live[q] - 4) {
      assert Placed(h.blk, h.brk, p) && Placed(h.blk, h.brk, q) && Apart(h.blk, p, q) && Apart(h.blk, q, p);
    }
  }
}
