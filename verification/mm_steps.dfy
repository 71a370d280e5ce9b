/** The heap steps between the two invariants: freeing, absorbing a neighbour,
    sealing the merged block, and relisting it. */
module HeapSteps {
  import opened HeapWords
  import opened HeapModel
  import opened Tilings

  lemma NextAbsorbed(h: Heap, h': Heap, x: int, p: int)
    requires Unsettled(h, x) && IsFree(h.blk, x + h.blk[x].size) && x + h.blk[x].size != h.brk
    requires x + h.blk[x].size + h.blk[x + h.blk[x].size].size in h.blk
    requires h'.brk == h.brk && h'.blk == MergeBlk(h.blk, x) && h'.nodes == h.nodes - {x + h.blk[x].size}
    requires OnlyLinks(h.m, h'.m, h'.nodes)
    ensures SettledBlock(h', x, p)
  {
    NodesFree(h, x);
    var n := x + h.blk[x].size;
    assert SettledBlock(h, x, p) && SettledBlock(h, x, n) && SettledBlock(h, x, n + h.blk[n].size);
    assert p in h.blk ==> Placed(h.blk, h.brk, p);
    if p in h'.blk {
      OnlyLinksKeepTags(h.m, h'.m, h.blk, h.brk, h'.nodes, p);
    }
  }

  /** Free neighbours of a free block are different list nodes; absorbing one after
      unlinking it leaves the merged block as the only unsettled one. */
  lemma AbsorbNext(h: Heap, x: int, m': Memory)
    requires Unsettled(h, x) && IsFree(h.blk, x + h.blk[x].size)
    requires ListsOk(m', h.nodes - {x + h.blk[x].size}, h.clock)
    requires OnlyLinks(h.m, m', h.nodes - {x + h.blk[x].size})
    ensures x + h.blk[x].size != h.brk
    ensures var h' := h.(m := m', blk := MergeBlk(h.blk, x), nodes := h.nodes - {x + h.blk[x].size});
      && Unsettled(h', x) && h'.blk[x].prevAlloc == h.blk[x].prevAlloc
      && x + h'.blk[x].size in h'.blk && h'.blk[x + h'.blk[x].size].alloc
      && Live(h') == Live(h) && SamePayloads(h.m, m', Live(h))
  {
    var n := x + h.blk[x].size;
    var h' := h.(m := m', blk := MergeBlk(h.blk, x), nodes := h.nodes - {n});
    FreeInside(h.blk, h.brk, n);
    FreeInside(h.blk, h.brk, x);
    MergeTiled(h.blk, h.brk, x);
    NodesFree(h, x);
    var n' := n + h.blk[n].size;
    assert SettledBlock(h, x, n) && SettledBlock(h, x, n') && Placed(h.blk, h.brk, n');
    forall p ensures SettledBlock(h', x, p) {
      NextAbsorbed(h, h', x, p);
    }
    forall p ensures Agrees(h'.blk, h'.nodes, x, p) {
      assert Agrees(h.blk, h.nodes, x, p);
    }
    assert Live(h') == Live(h);
    OnlyLinksKeepPayloads(h.m, m', h, h'.nodes);
  }

  lemma AbsorbedSettles(h: Heap, h': Heap, q: int, x: int, p: int)
    requires Unsettled(h, x) && IsFree(h.blk, q) && q + h.blk[q].size == x && x in h.blk && x != h.brk
    requires h'.brk == h.brk && h'.blk == MergeBlk(h.blk, q) && h'.nodes == h.nodes - {q}
    requires OnlyLinks(h.m, h'.m, h'.nodes)
    ensures SettledBlock(h', q, p)
  {
    NodesFree(h, x);
    assert SettledBlock(h, x, q) && SettledBlock(h, x, p);
    assert p in h.blk ==> Placed(h.blk, h.brk, p);
    if p in h'.blk {
      OnlyLinksKeepTags(h.m, h'.m, h.blk, h.brk, h'.nodes, p);
    }
  }

  lemma AbsorbPrev(h: Heap, q: int, x: int, m': Memory)
    requires Unsettled(h, x) && IsFree(h.blk, q) && q + h.blk[q].size == x
    requires ListsOk(m', h.nodes - {q}, h.clock)
    requires OnlyLinks(h.m, m', h.nodes - {q})
    ensures x != h.brk && x in h.blk
    ensures var h' := h.(m := m', blk := MergeBlk(h.blk, q), nodes := h.nodes - {q});
      && Unsettled(h', q) && h'.blk[q].prevAlloc && q + h'.blk[q].size == x + h.blk[x].size
      && (x + h.blk[x].size in h'.blk) && h'.blk[x + h.blk[x].size] == h.blk[x + h.blk[x].size]
      && Live(h') == Live(h) && SamePayloads(h.m, m', Live(h))
  {
    var h' := h.(m := m', blk := MergeBlk(h.blk, q), nodes := h.nodes - {q});
    FreeInside(h.blk, h.brk, q);
    FreeInside(h.blk, h.brk, x);
    MergeTiled(h.blk, h.brk, q);
    NodesFree(h, x);
    var n := x + h.blk[x].size;
    assert SettledBlock(h, x, q);
    forall p ensures SettledBlock(h', q, p) {
      AbsorbedSettles(h, h', q, x, p);
    }
    if IsFree(h.blk, n) {
      FreeInside(h.blk, h.brk, n);
      OnlyLinksKeepTags(h.m, m', h.blk, h.brk, h'.nodes, n);
    }
    forall p ensures Agrees(h'.blk, h'.nodes, q, p) {
      assert Agrees(h.blk, h.nodes, x, p);
    }
    assert Live(h') == Live(h);
    OnlyLinksKeepPayloads(h.m, m', h, h'.nodes);
  }

  lemma NodesFree(h: Heap, x: int)
    requires Tiled(h.blk, h.brk) && ListsMatch(h.blk, h.nodes, x)
    ensures forall y :: y in h.nodes ==> IsFree(h.blk, y) && y != 8 && y != h.brk
  {
    forall y | y in h.nodes ensures IsFree(h.blk, y) && y != 8 && y != h.brk {
      assert Agrees(h.blk, h.nodes, x, y);
      assert Placed(h.blk, h.brk, y);
    }
  }

  /** Writing the header and the footer of the unsettled block. */
  lemma Seal(h: Heap, x: int, t: Word, m': Memory)
    requires Unsettled(h, x) && Isolated(h.blk, x) && t == Tag(h.blk[x])
    requires m' == h.m[x - 4 := t][x + h.blk[x].size - 8 := t]
    ensures Pending(h.(m := m'), x) && SamePayloads(h.m, m', Live(h))
  {
    var h' := h.(m := m');
    var m1 := h.m[x - 4 := t];
    FreeInside(h.blk, h.brk, x);
    NodesFree(h, x);
    TagWriteKeepsLinks(h.m, x - 4, t, h.blk, h.brk, h.nodes, x);
    SameLinksKeepLists(h.m, m1, h.nodes, h.clock);
    TagWriteKeepsLinks(m1, x + h.blk[x].size - 8, t, h.blk, h.brk, h.nodes, x);
    SameLinksKeepLists(m1, m', h.nodes, h.clock);
    TagWriteKeepsPayloads(h.m, x - 4, t, h, x);
    TagWriteKeepsPayloads(m1, x + h.blk[x].size - 8, t, h, x);
    PayloadsTrans(h.m, m1, m', Live(h));
    forall p ensures SettledBlock(h', x, p) {
      assert SettledBlock(h, x, p);
      assert p in h.blk ==> Placed(h.blk, h.brk, p);
      assert Apart(h.blk, p, x) && Apart(h.blk, x, p);
    }
  }

  /** Listing the isolated block and clearing the status bit after it restores the invariant. */
  lemma Relist(h: Heap, x: int, m1: Memory, nodes': map<int, Node>, clock': int, m2: Memory)
    requires Pending(h, x) && Isolated(h.blk, x)
    requires nodes' == h.nodes[x := Node(Class(h.blk[x].size), h.clock)]
    requires ListsOk(m1, nodes', clock') && OnlyLinks(h.m, m1, nodes')
    requires var n := x + h.blk[x].size;
      m2 == m1[n - 4 := ClearPrevAlloc(Rd(m1, n - 4))]
    ensures var n := x + h.blk[x].size;
      var h' := Heap(m2, h.brk, h.blk[n := h.blk[n].(prevAlloc := false)], nodes', clock');
      Clean(h') && Live(h') == Live(h) && SamePayloads(h.m, m2, Live(h))
  {
    var n := x + h.blk[x].size;
    var h' := Heap(m2, h.brk, h.blk[n := h.blk[n].(prevAlloc := false)], nodes', clock');
    FreeInside(h.blk, h.brk, x);
    NodesFree(h, x);
    assert Placed(h.blk, h.brk, n);
    RetagTiled(h.blk, h.brk, n, h'.blk[n]);
    TagWriteKeepsLinks(m1, n - 4, m2[n - 4], h.blk, h.brk, nodes', n);
    SameLinksKeepLists(m1, m2, nodes', clock');
    forall p ensures BlockOk(h', p) { RelistBlock(h, h', x, m1, p); }
    forall p ensures Agrees(h'.blk, nodes', NONE, p) {
      assert Agrees(h.blk, h.nodes, x, p);
      assert p in h.blk ==> Placed(h.blk, h.brk, p);
    }
    assert Live(h') == Live(h);
    OnlyLinksKeepPayloads(h.m, m1, h, nodes');
    TagWriteKeepsPayloads(m1, n - 4, m2[n - 4], h, n);
    PayloadsTrans(h.m, m1, m2, Live(h));
  }

  lemma RelistBlock(h: Heap, h': Heap, x: int, m1: Memory, p: int)
    requires Pending(h, x) && Isolated(h.blk, x)
    requires forall y :: y in h'.nodes ==> IsFree(h.blk, y)
    requires OnlyLinks(h.m, m1, h'.nodes) && h'.brk == h.brk
    requires var n := x + h.blk[x].size;
      h'.m == m1[n - 4 := ClearPrevAlloc(Rd(m1, n - 4))] && h'.blk == h.blk[n := h.blk[n].(prevAlloc := false)]
    ensures BlockOk(h', p)
  {
    var n := x + h.blk[x].size;
    if p == n {
      RelistNext(h, h', x, m1);
    } else if p in h.blk {
      RelistOther(h, h', x, m1, p);
    }
  }

  /** The block after the one relisted. */
  lemma RelistNext(h: Heap, h': Heap, x: int, m1: Memory)
    requires Pending(h, x) && Isolated(h.blk, x)
    requires forall y :: y in h'.nodes ==> IsFree(h.blk, y)
    requires OnlyLinks(h.m, m1, h'.nodes) && h'.brk == h.brk
    requires var n := x + h.blk[x].size;
      h'.m == m1[n - 4 := ClearPrevAlloc(Rd(m1, n - 4))] && h'.blk == h.blk[n := h.blk[n].(prevAlloc := false)]
    ensures BlockOk(h', x + h.blk[x].size)
  {
    var n := x + h.blk[x].size;
    FreeInside(h.blk, h.brk, x);
    assert Placed(h.blk, h.brk, n) && SettledBlock(h, x, n);
    OnlyLinksKeepTags(h.m, m1, h.blk, h.brk, h'.nodes, n);
    TagUpdates(h.blk[n]);
  }

  lemma RelistOther(h: Heap, h': Heap, x: int, m1: Memory, p: int)
    requires Pending(h, x) && Isolated(h.blk, x)
    requires forall y :: y in h'.nodes ==> IsFree(h.blk, y)
    requires OnlyLinks(h.m, m1, h'.nodes) && h'.brk == h.brk
    requires var n := x + h.blk[x].size;
      h'.m == m1[n - 4 := ClearPrevAlloc(Rd(m1, n - 4))] && h'.blk == h.blk[n := h.blk[n].(prevAlloc := false)]
    requires p in h.blk && p != x + h.blk[x].size
    ensures BlockOk(h', p)
  {
    var n := x + h.blk[x].size;
    FreeInside(h.blk, h.brk, x);
    assert Placed(h.blk, h.brk, n) && Placed(h.blk, h.brk, p) && SettledBlock(h, x, p);
    assert Apart(h.blk, p, x) && Apart(h.blk, x, p) && Apart(h.blk, p, n) && Apart(h.blk, n, p);
    OnlyLinksKeepTags(h.m, m1, h.blk, h.brk, h'.nodes, p);
  }

  /** The words that make the block of k bytes at r free: header, footer, and the bit after it. */
  ghost function RestWords(m: Memory, r: int, k: int, t: Word): Memory {
    var m1 := m[r - 4 := t][r + k - 8 := t];
    m1[r + k - 4 := ClearPrevAlloc(Rd(m1, r + k - 4))]
  }

  /** The words of mm_free before coalescing. */
  ghost function FreeWords(h: Heap, x: int): Memory
    requires x in h.blk && 0 <= Tag(Block(h.blk[x].size, false, h.blk[x].prevAlloc)) < TWO32
  {
    RestWords(h.m, x, h.blk[x].size, Tag(Block(h.blk[x].size, false, h.blk[x].prevAlloc)))
  }

  ghost function FreeBlk(blk: map<int, Block>, x: int): map<int, Block>
    requires x in blk && x + blk[x].size in blk
  {
    var n := x + blk[x].size;
    blk[x := blk[x].(alloc := false)][n := blk[n].(prevAlloc := false)]
  }

  lemma FreeTiled(blk: map<int, Block>, brk: int, x: int)
    requires Tiled(blk, brk) && x in blk && x != 8 && x != brk && x + blk[x].size in blk
    ensures Tiled(FreeBlk(blk, x), brk)
  {
    var n := x + blk[x].size;
    assert Placed(blk, brk, x) && Placed(blk, brk, n);
    RetagTiled(blk, brk, x, blk[x].(alloc := false));
    RetagTiled(blk[x := blk[x].(alloc := false)], brk, n, blk[n].(prevAlloc := false));
  }

  lemma FreePends(h: Heap, x: int)
    requires Clean(h) && x in Live(h)
    ensures x + h.blk[x].size in h.blk && 0 <= Tag(Block(h.blk[x].size, false, h.blk[x].prevAlloc)) < TWO32
    ensures var h' := h.(m := FreeWords(h, x), blk := FreeBlk(h.blk, x));
      && Pending(h', x) && h'.blk[x].size == h.blk[x].size
      && Live(h') == Live(h) - {x} && SamePayloads(h.m, h'.m, Live(h'))
  {
    var n := x + h.blk[x].size;
    assert Placed(h.blk, h.brk, x) && Placed(h.blk, h.brk, n);
    TagDecodes(Block(h.blk[x].size, false, h.blk[x].prevAlloc));
    var t: Word := Tag(Block(h.blk[x].size, false, h.blk[x].prevAlloc));
    var h' := h.(m := FreeWords(h, x), blk := FreeBlk(h.blk, x));
    FreeTiled(h.blk, h.brk, x);
    FreeKeepsLists(h, x, t);
    FreeMarks(h, x, t);
    forall p ensures SettledBlock(h', x, p) { FreeSettles(h, x, t, p); }
    FreeMatches(h, x, h'.m);
    FreeKeepsPayloads(h, h', x, t);
  }

  lemma FreeMatches(h: Heap, x: int, m: Memory)
    requires Clean(h) && x in Live(h) && x + h.blk[x].size in h.blk
    ensures ListsMatch(FreeBlk(h.blk, x), h.nodes, x)
    ensures Live(h.(m := m, blk := FreeBlk(h.blk, x))) == Live(h) - {x}
  {
    var n := x + h.blk[x].size;
    assert Placed(h.blk, h.brk, x) && Placed(h.blk, h.brk, n);
    forall p ensures Agrees(FreeBlk(h.blk, x), h.nodes, x, p) {
      assert Agrees(h.blk, h.nodes, NONE, p);
      assert p in h.blk ==> Placed(h.blk, h.brk, p);
    }
    assert Live(h.(m := m, blk := FreeBlk(h.blk, x))) == Live(h) - {x};
  }

  lemma FreeKeepsPayloads(h: Heap, h': Heap, x: int, t: Word)
    requires Tiled(h'.blk, h'.brk) && x in h.blk && t == Tag(Block(h.blk[x].size, false, h.blk[x].prevAlloc))
    requires IsFree(h'.blk, x) && h'.blk[x].size == h.blk[x].size >= MIN_BLOCK && x + h.blk[x].size in h'.blk
    requires h'.m == FreeWords(h, x)
    ensures SamePayloads(h.m, h'.m, Live(h'))
  {
    var n := x + h.blk[x].size;
    var m1, m2 := h.m[x - 4 := t], h.m[x - 4 := t][n - 8 := t];
    TagWriteKeepsPayloads(h.m, x - 4, t, h', x);
    TagWriteKeepsPayloads(m1, n - 8, t, h', x);
    TagWriteKeepsPayloads(m2, n - 4, h'.m[n - 4], h', n);
    PayloadsTrans(h.m, m1, m2, Live(h'));
    PayloadsTrans(h.m, m2, h'.m, Live(h'));
  }

  lemma FreeSettles(h: Heap, x: int, t: Word, p: int)
    requires Clean(h) && x in Live(h)
    requires x + h.blk[x].size in h.blk && t == Tag(Block(h.blk[x].size, false, h.blk[x].prevAlloc))
    ensures SettledBlock(h.(m := FreeWords(h, x), blk := FreeBlk(h.blk, x)), x, p)
  {
    var n := x + h.blk[x].size;
    assert Placed(h.blk, h.brk, x) && Placed(h.blk, h.brk, n);
    assert BlockOk(h, p);
    assert p in h.blk ==> Placed(h.blk, h.brk, p);
    assert Apart(h.blk, p, x) && Apart(h.blk, x, p) && Apart(h.blk, p, n) && Apart(h.blk, n, p);
    if p == n { FreeMarks(h, x, t); }
  }

  lemma FreeMarks(h: Heap, x: int, t: Word)
    requires Clean(h) && x in Live(h)
    requires x + h.blk[x].size in h.blk && t == Tag(Block(h.blk[x].size, false, h.blk[x].prevAlloc))
    ensures var m', blk', n := FreeWords(h, x), FreeBlk(h.blk, x), x + h.blk[x].size;
      && HeaderOk(m', blk', x) && FooterOk(m', blk', x)
      && HeaderOk(m', blk', n) && FooterSizeOk(m', blk', n)
  {
    var n := x + h.blk[x].size;
    assert Placed(h.blk, h.brk, x) && Placed(h.blk, h.brk, n);
    assert BlockOk(h, n);
    TagUpdates(h.blk[n]);
    assert SizeOf(Tag(h.blk[n])) == h.blk[n].size by { TagDecodes(h.blk[n]); }
  }

  lemma FreeKeepsLists(h: Heap, x: int, t: Word)
    requires Clean(h) && x in Live(h)
    requires x + h.blk[x].size in h.blk && t == Tag(Block(h.blk[x].size, false, h.blk[x].prevAlloc))
    ensures ListsOk(FreeWords(h, x), h.nodes, h.clock)
  {
    var n := x + h.blk[x].size;
    var m1, m2 := h.m[x - 4 := t], h.m[x - 4 := t][n - 8 := t];
    NodesFree(h, NONE);
    TagWriteKeepsLinks(h.m, x - 4, t, h.blk, h.brk, h.nodes, x);
    SameLinksKeepLists(h.m, m1, h.nodes, h.clock);
    TagWriteKeepsLinks(m1, n - 8, t, h.blk, h.brk, h.nodes, x);
    SameLinksKeepLists(m1, m2, h.nodes, h.clock);
    TagWriteKeepsLinks(m2, n - 4, ClearPrevAlloc(Rd(m2, n - 4)), h.blk, h.brk, h.nodes, n);
    SameLinksKeepLists(m2, FreeWords(h, x), h.nodes, h.clock);
  }

  /** The words of extend_heap before coalescing: a free block over the old
      epilogue, and a new epilogue that claims its predecessor is allocated. */
  ghost function ExtendWords(h: Heap, k: int): Memory
    requires h.brk in h.blk && 0 <= Tag(Block(k, false, h.blk[h.brk].prevAlloc)) < TWO32
  {
    var t: Word := Tag(Block(k, false, h.blk[h.brk].prevAlloc));
    h.m[h.brk - 4 := t][h.brk + k - 8 := t][h.brk + k - 4 := 3]
  }

  lemma ExtendPends(h: Heap, k: int)
    requires Clean(h) && k % 8 == 0 && k >= MIN_BLOCK && h.brk + k < TWO32
    ensures 0 <= Tag(Block(k, false, h.blk[h.brk].prevAlloc)) < TWO32
    ensures var h' := h.(m := ExtendWords(h, k), brk := h.brk + k, blk := ExtendBlk(h.blk, h.brk, k));
      && Pending(h', h.brk) && h'.blk[h.brk].size == k
      && Live(h') == Live(h) && SamePayloads(h.m, h'.m, Live(h))
  {
    var x := h.brk;
    TagDecodes(Block(k, false, h.blk[x].prevAlloc));
    var h' := h.(m := ExtendWords(h, k), brk := x + k, blk := ExtendBlk(h.blk, x, k));
    ExtendTiled(h.blk, x, k);
    assert Placed(h.blk, h.brk, x);
    forall p ensures SettledBlock(h', x, p) { ExtendSettles(h, k, p); }
    ExtendSettles(h, k, x);
    forall p ensures Agrees(h'.blk, h'.nodes, x, p) {
      assert Agrees(h.blk, h.nodes, NONE, p);
      assert p in h.blk ==> Placed(h.blk, h.brk, p);
    }
    assert Live(h') == Live(h) by {
      forall p | p in h.blk ensures p <= x { assert Placed(h.blk, h.brk, p); }
    }
    ExtendKeepsOthers(h, h', k);
  }

  lemma ExtendSettles(h: Heap, k: int, p: int)
    requires Clean(h) && k % 8 == 0 && k >= MIN_BLOCK && h.brk + k < TWO32
    requires 0 <= Tag(Block(k, false, h.blk[h.brk].prevAlloc)) < TWO32
    ensures var h' := h.(m := ExtendWords(h, k), brk := h.brk + k, blk := ExtendBlk(h.blk, h.brk, k));
      && SettledBlock(h', h.brk, p)
      && HeaderOk(h'.m, h'.blk, h.brk) && FooterOk(h'.m, h'.blk, h.brk)
  {
    assert BlockOk(h, p);
    assert p in h.blk ==> Placed(h.blk, h.brk, p);
    assert Placed(h.blk, h.brk, h.brk);
  }

  lemma ExtendKeepsOthers(h: Heap, h': Heap, k: int)
    requires Clean(h) && k >= MIN_BLOCK && 0 <= Tag(Block(k, false, h.blk[h.brk].prevAlloc)) < TWO32
    requires h'.m == ExtendWords(h, k) && h'.brk == h.brk + k && h'.blk == ExtendBlk(h.blk, h.brk, k)
    requires Tiled(h'.blk, h'.brk)
    ensures ListsOk(h'.m, h.nodes, h.clock)
    ensures SamePayloads(h.m, h'.m, Live(h'))
  {
    ExtendKeepsLists(h, h', k);
    ExtendKeepsPayloads(h, h', k);
  }

  lemma ExtendKeepsLists(h: Heap, h': Heap, k: int)
    requires Clean(h) && k >= MIN_BLOCK && 0 <= Tag(Block(k, false, h.blk[h.brk].prevAlloc)) < TWO32
    requires h'.m == ExtendWords(h, k) && h'.brk == h.brk + k && h'.blk == ExtendBlk(h.blk, h.brk, k)
    requires Tiled(h'.blk, h'.brk)
    ensures ListsOk(h'.m, h.nodes, h.clock)
  {
    var x := h.brk;
    var t: Word := Tag(Block(k, false, h.blk[x].prevAlloc));
    NodesFree(h, NONE);
    assert forall y :: y in h.nodes ==> y in h'.blk && y != h'.brk by {
      forall y | y in h.nodes ensures y != h'.brk { assert Placed(h.blk, h.brk, y); }
    }
    var m1, m2 := h.m[x - 4 := t], h.m[x - 4 := t][x + k - 8 := t];
    TagWriteKeepsLinks(h.m, x - 4, t, h'.blk, h'.brk, h.nodes, x);
    SameLinksKeepLists(h.m, m1, h.nodes, h.clock);
    TagWriteKeepsLinks(m1, x + k - 8, t, h'.blk, h'.brk, h.nodes, x);
    SameLinksKeepLists(m1, m2, h.nodes, h.clock);
    TagWriteKeepsLinks(m2, x + k - 4, 3, h'.blk, h'.brk, h.nodes, x + k);
    SameLinksKeepLists(m2, h'.m, h.nodes, h.clock);
  }

  lemma ExtendKeepsPayloads(h: Heap, h': Heap, k: int)
    requires h.brk in h.blk && k >= MIN_BLOCK && 0 <= Tag(Block(k, false, h.blk[h.brk].prevAlloc)) < TWO32
    requires h'.m == ExtendWords(h, k) && h'.brk == h.brk + k && h'.blk == ExtendBlk(h.blk, h.brk, k)
    requires Tiled(h'.blk, h'.brk)
    ensures SamePayloads(h.m, h'.m, Live(h'))
  {
    var x := h.brk;
    var t: Word := Tag(Block(k, false, h.blk[x].prevAlloc));
    var m1, m2 := h.m[x - 4 := t], h.m[x - 4 := t][x + k - 8 := t];
    TagWriteKeepsPayloads(h.m, x - 4, t, h', x);
    TagWriteKeepsPayloads(m1, x + k - 8, t, h', x);
    TagWriteKeepsPayloads(m2, x + k - 4, 3, h', x + k);
    PayloadsTrans(h.m, m1, m2, Live(h'));
    PayloadsTrans(h.m, m2, h'.m, Live(h'));
  }

  // ------------------------------------------------------------------- placing

  /** The words place writes before it unlinks bp, which becomes a block of k bytes:
      its header, and the previous-allocated bit of whatever word follows it. */
  ghost function PlaceWords(h: Heap, bp: int, k: int, t: Word): Memory {
    var m1 := h.m[bp - 4 := t];
    m1[bp + k - 4 := SetPrevAlloc(Rd(m1, bp + k - 4))]
  }

  /** Before the split the geometry may already be read as split: nothing linked is hit. */
  lemma PlaceKeepsLists(h: Heap, bp: int, k: int, t: Word, blk': map<int, Block>)
    requires Clean(h) && IsFree(h.blk, bp) && Tiled(blk', h.brk)
    requires forall p :: p in h.blk ==> p in blk'
    requires bp in blk' && bp + k in blk' && k >= MIN_BLOCK
    ensures ListsOk(PlaceWords(h, bp, k, t), h.nodes, h.clock)
  {
    var m1 := h.m[bp - 4 := t];
    NodesFree(h, NONE);
    TagWriteKeepsLinks(h.m, bp - 4, t, blk', h.brk, h.nodes, bp);
    SameLinksKeepLists(h.m, m1, h.nodes, h.clock);
    TagWriteKeepsLinks(m1, bp + k - 4, SetPrevAlloc(Rd(m1, bp + k - 4)), blk', h.brk, h.nodes, bp + k);
    SameLinksKeepLists(m1, PlaceWords(h, bp, k, t), h.nodes, h.clock);
  }

  lemma PlaceKeepsPayloads(h: Heap, bp: int, k: int, t: Word)
    requires Clean(h) && IsFree(h.blk, bp) && MIN_BLOCK <= k <= h.blk[bp].size
    ensures SamePayloads(h.m, PlaceWords(h, bp, k, t), Live(h))
  {
    var m1 := h.m[bp - 4 := t];
    FreeInside(h.blk, h.brk, bp);
    var w := SetPrevAlloc(Rd(m1, bp + k - 4));
    TagWriteKeepsPayloads(h.m, bp - 4, t, h, bp);
    if k == h.blk[bp].size {
      TagWriteKeepsPayloads(m1, bp + k - 4, w, h, bp + k);
    } else {
      TagWriteKeepsPayloads(m1, bp + k - 4, w, h, bp);
    }
    PayloadsTrans(h.m, m1, PlaceWords(h, bp, k, t), Live(h));
  }

  ghost function TakeBlk(blk: map<int, Block>, bp: int): map<int, Block>
    requires bp in blk && bp + blk[bp].size in blk
  {
    var n := bp + blk[bp].size;
    blk[bp := blk[bp].(alloc := true)][n := blk[n].(prevAlloc := true)]
  }

  /** A free block handed out whole. */
  lemma PlaceWhole(h: Heap, bp: int, t: Word, m': Memory)
    requires Clean(h) && IsFree(h.blk, bp) && t == Tag(h.blk[bp].(alloc := true))
    requires ListsOk(m', h.nodes - {bp}, h.clock)
    requires OnlyLinks(PlaceWords(h, bp, h.blk[bp].size, t), m', h.nodes - {bp})
    ensures bp + h.blk[bp].size in h.blk
    ensures var h' := h.(m := m', blk := TakeBlk(h.blk, bp), nodes := h.nodes - {bp});
      Clean(h') && Live(h') == Live(h)[bp := h.blk[bp].size] && SamePayloads(h.m, m', Live(h))
  {
    var k := h.blk[bp].size;
    var n := bp + k;
    FreeInside(h.blk, h.brk, bp);
    assert Placed(h.blk, h.brk, n);
    var h' := h.(m := m', blk := TakeBlk(h.blk, bp), nodes := h.nodes - {bp});
    RetagTiled(h.blk, h.brk, bp, h'.blk[bp]);
    RetagTiled(h.blk[bp := h'.blk[bp]], h.brk, n, h'.blk[n]);
    NodesFree(h, NONE);
    forall p ensures BlockOk(h', p) { PlaceWholeBlock(h, h', bp, t, p); }
    forall p ensures Agrees(h'.blk, h'.nodes, NONE, p) {
      assert Agrees(h.blk, h.nodes, NONE, p);
      assert p in h.blk ==> Placed(h.blk, h.brk, p);
    }
    assert Live(h') == Live(h)[bp := k];
    PlaceKeepsPayloads(h, bp, k, t);
    OnlyLinksKeepPayloads(PlaceWords(h, bp, k, t), m', h, h'.nodes);
    PayloadsTrans(h.m, PlaceWords(h, bp, k, t), m', Live(h));
  }

  lemma PlaceWholeBlock(h: Heap, h': Heap, bp: int, t: Word, p: int)
    requires Clean(h) && IsFree(h.blk, bp) && t == Tag(h.blk[bp].(alloc := true))
    requires OnlyLinks(PlaceWords(h, bp, h.blk[bp].size, t), h'.m, h'.nodes)
    requires forall y :: y in h'.nodes ==> IsFree(h.blk, y)
    requires bp + h.blk[bp].size in h.blk && h'.brk == h.brk && h'.blk == TakeBlk(h.blk, bp)
    ensures BlockOk(h', p)
  {
    var n := bp + h.blk[bp].size;
    FreeInside(h.blk, h.brk, bp);
    assert Placed(h.blk, h.brk, n);
    assert BlockOk(h, p) && BlockOk(h, bp) && BlockOk(h, n);
    assert p in h.blk ==> Placed(h.blk, h.brk, p);
    assert Apart(h.blk, p, bp) && Apart(h.blk, bp, p) && Apart(h.blk, p, n) && Apart(h.blk, n, p);
    TagUpdates(h.blk[n]);
    if p in h.blk {
      OnlyLinksKeepTags(PlaceWords(h, bp, h.blk[bp].size, t), h'.m, h.blk, h.brk, h'.nodes, p);
    }
  }

  /** A free block split: its first k bytes are handed out and the rest is free but unlisted.
      m1 is memory after unlinking bp. */
  lemma SplitPends(h: Heap, bp: int, k: int, t: Word, m1: Memory, t': Word)
    requires Clean(h) && IsFree(h.blk, bp) && k % 8 == 0 && MIN_BLOCK <= k <= h.blk[bp].size - MIN_BLOCK
    requires t == Tag(Block(k, true, h.blk[bp].prevAlloc))
    requires t' == Tag(Block(h.blk[bp].size - k, false, true))
    requires ListsOk(m1, h.nodes - {bp}, h.clock)
    requires OnlyLinks(PlaceWords(h, bp, k, t), m1, h.nodes - {bp})
    ensures var h' := h.(m := RestWords(m1, bp + k, h.blk[bp].size - k, t'), blk := SplitBlk(h.blk, bp, k),
                         nodes := h.nodes - {bp});
      && Pending(h', bp + k) && Isolated(h'.blk, bp + k)
      && Live(h') == Live(h)[bp := k] && SamePayloads(h.m, h'.m, Live(h))
      && !h'.blk[bp + h.blk[bp].size].prevAlloc
      && bp !in Live(h)
  {
    var r, c := bp + k, h.blk[bp].size;
    var h' := h.(m := RestWords(m1, r, c - k, t'), blk := SplitBlk(h.blk, bp, k), nodes := h.nodes - {bp});
    SplitTiled(h.blk, h.brk, bp, k);
    NodesFree(h, NONE);
    SplitIsolated(h, bp, k);
    SplitMatches(h, h', bp, k);
    SplitKeepsOthers(h, h', bp, k, t, m1, t');
    forall p ensures SettledBlock(h', r, p) { SplitSettles(h, h', bp, k, t, m1, t', p); }
    SplitMarks(h, h', bp, k, t, m1, t');
  }

  lemma SplitIsolated(h: Heap, bp: int, k: int)
    requires Clean(h) && IsFree(h.blk, bp) && MIN_BLOCK <= k <= h.blk[bp].size - MIN_BLOCK && bp + k !in h.blk
    ensures var blk' := SplitBlk(h.blk, bp, k);
      && FIRST_BLOCK <= bp + k && IsFree(blk', bp + k) && Isolated(blk', bp + k)
      && bp + k + blk'[bp + k].size == bp + h.blk[bp].size && !blk'[bp + h.blk[bp].size].prevAlloc
  {
    FreeInside(h.blk, h.brk, bp);
    assert BlockOk(h, bp) && BlockOk(h, bp + h.blk[bp].size);
  }

  lemma SplitMatches(h: Heap, h': Heap, bp: int, k: int)
    requires Clean(h) && IsFree(h.blk, bp) && MIN_BLOCK <= k <= h.blk[bp].size - MIN_BLOCK && bp + k !in h.blk
    requires h'.blk == SplitBlk(h.blk, bp, k) && h'.nodes == h.nodes - {bp} && h'.brk == h.brk
    ensures ListsMatch(h'.blk, h'.nodes, bp + k)
    ensures Live(h') == Live(h)[bp := k]
  {
    FreeInside(h.blk, h.brk, bp);
    var r := bp + k;
    forall p ensures Agrees(h'.blk, h'.nodes, r, p) {
      assert Agrees(h.blk, h.nodes, NONE, p);
      assert p in h.blk ==> Placed(h.blk, h.brk, p);
    }
    assert Live(h') == Live(h)[bp := k];
  }

  lemma SplitSettles(h: Heap, h': Heap, bp: int, k: int, t: Word, m1: Memory, t': Word, p: int)
    requires Clean(h) && IsFree(h.blk, bp) && k % 8 == 0 && MIN_BLOCK <= k <= h.blk[bp].size - MIN_BLOCK
    requires t == Tag(Block(k, true, h.blk[bp].prevAlloc))
    requires t' == Tag(Block(h.blk[bp].size - k, false, true))
    requires OnlyLinks(PlaceWords(h, bp, k, t), m1, h'.nodes)
    requires h'.m == RestWords(m1, bp + k, h.blk[bp].size - k, t')
    requires h'.blk == SplitBlk(h.blk, bp, k) && h'.nodes == h.nodes - {bp} && h'.brk == h.brk
    ensures SettledBlock(h', bp + k, p)
  {
    var n := bp + h.blk[bp].size;
    assert bp + k !in h.blk by { SplitTiled(h.blk, h.brk, bp, k); }
    if p == bp || p == n {
      SplitMarks(h, h', bp, k, t, m1, t');
    } else if p in h.blk {
      SplitSettlesOther(h, h', bp, k, t, m1, t', p);
    }
  }

  lemma SplitSettlesOther(h: Heap, h': Heap, bp: int, k: int, t: Word, m1: Memory, t': Word, p: int)
    requires Clean(h) && IsFree(h.blk, bp) && k % 8 == 0 && MIN_BLOCK <= k <= h.blk[bp].size - MIN_BLOCK
    requires t == Tag(Block(k, true, h.blk[bp].prevAlloc))
    requires t' == Tag(Block(h.blk[bp].size - k, false, true))
    requires OnlyLinks(PlaceWords(h, bp, k, t), m1, h'.nodes)
    requires h'.m == RestWords(m1, bp + k, h.blk[bp].size - k, t')
    requires h'.blk == SplitBlk(h.blk, bp, k) && h'.nodes == h.nodes - {bp} && h'.brk == h.brk
    requires p in h.blk && p != bp && p != bp + h.blk[bp].size && bp + k !in h.blk
    ensures SettledBlock(h', bp + k, p)
  {
    var n := bp + h.blk[bp].size;
    FreeInside(h.blk, h.brk, bp);
    NodesFree(h, NONE);
    assert Placed(h.blk, h.brk, n) && Placed(h.blk, h.brk, p);
    assert BlockOk(h, p);
    assert Apart(h.blk, p, bp) && Apart(h.blk, bp, p) && Apart(h.blk, p, n) && Apart(h.blk, n, p);
    OnlyLinksKeepTags(PlaceWords(h, bp, k, t), m1, h.blk, h.brk, h'.nodes, p);
  }

  lemma SplitMarks(h: Heap, h': Heap, bp: int, k: int, t: Word, m1: Memory, t': Word)
    requires Clean(h) && IsFree(h.blk, bp) && k % 8 == 0 && MIN_BLOCK <= k <= h.blk[bp].size - MIN_BLOCK
    requires t == Tag(Block(k, true, h.blk[bp].prevAlloc))
    requires t' == Tag(Block(h.blk[bp].size - k, false, true))
    requires OnlyLinks(PlaceWords(h, bp, k, t), m1, h'.nodes)
    requires h'.m == RestWords(m1, bp + k, h.blk[bp].size - k, t')
    requires h'.blk == SplitBlk(h.blk, bp, k) && h'.nodes == h.nodes - {bp} && h'.brk == h.brk
    ensures SettledBlock(h', bp + k, bp) && SettledBlock(h', bp + k, bp + h.blk[bp].size)
    ensures HeaderOk(h'.m, h'.blk, bp + k) && FooterOk(h'.m, h'.blk, bp + k)
  {
    var n := bp + h.blk[bp].size;
    NodesFree(h, NONE);
    FreeInside(h.blk, h.brk, bp);
    assert Placed(h.blk, h.brk, n);
    assert BlockOk(h, bp) && BlockOk(h, n);
    TagUpdates(h.blk[n]);
    OnlyLinksKeepTags(PlaceWords(h, bp, k, t), m1, h.blk, h.brk, h'.nodes, n);
    OnlyLinksKeepTags(PlaceWords(h, bp, k, t), m1, h.blk, h.brk, h'.nodes, bp);
  }

  lemma SplitKeepsOthers(h: Heap, h': Heap, bp: int, k: int, t: Word, m1: Memory, t': Word)
    requires Clean(h) && IsFree(h.blk, bp) && MIN_BLOCK <= k <= h.blk[bp].size - MIN_BLOCK
    requires ListsOk(m1, h.nodes - {bp}, h.clock)
    requires OnlyLinks(PlaceWords(h, bp, k, t), m1, h'.nodes)
    requires h'.m == RestWords(m1, bp + k, h.blk[bp].size - k, t')
    requires h'.blk == SplitBlk(h.blk, bp, k) && h'.nodes == h.nodes - {bp} && h'.brk == h.brk
    requires Tiled(h'.blk, h'.brk) && bp + k !in h.blk
    ensures ListsOk(h'.m, h'.nodes, h.clock)
    ensures SamePayloads(h.m, h'.m, Live(h))
  {
    var r, c, n := bp + k, h.blk[bp].size, bp + h.blk[bp].size;
    var m2, m3 := m1[r - 4 := t'], m1[r - 4 := t'][n - 8 := t'];
    var w := ClearPrevAlloc(Rd(m3, n - 4));
    NodesFree(h, NONE);
    FreeInside(h.blk, h.brk, bp);
    assert Placed(h.blk, h.brk, n);
    TagWriteKeepsLinks(m1, r - 4, t', h'.blk, h.brk, h'.nodes, r);
    SameLinksKeepLists(m1, m2, h'.nodes, h.clock);
    TagWriteKeepsLinks(m2, n - 8, t', h'.blk, h.brk, h'.nodes, r);
    SameLinksKeepLists(m2, m3, h'.nodes, h.clock);
    TagWriteKeepsLinks(m3, n - 4, w, h'.blk, h.brk, h'.nodes, n);
    SameLinksKeepLists(m3, h'.m, h'.nodes, h.clock);
    SplitKeepsPayloads(h, h', bp, k, t, m1, t');
  }

  lemma SplitKeepsPayloads(h: Heap, h': Heap, bp: int, k: int, t: Word, m1: Memory, t': Word)
    requires Clean(h) && IsFree(h.blk, bp) && MIN_BLOCK <= k <= h.blk[bp].size - MIN_BLOCK
    requires OnlyLinks(PlaceWords(h, bp, k, t), m1, h.nodes - {bp})
    requires h'.m == RestWords(m1, bp + k, h.blk[bp].size - k, t')
    ensures SamePayloads(h.m, h'.m, Live(h))
  {
    var r, n := bp + k, bp + h.blk[bp].size;
    var m2, m3 := m1[r - 4 := t'], m1[r - 4 := t'][n - 8 := t'];
    NodesFree(h, NONE);
    FreeInside(h.blk, h.brk, bp);
    PlaceKeepsPayloads(h, bp, k, t);
    OnlyLinksKeepPayloads(PlaceWords(h, bp, k, t), m1, h, h.nodes - {bp});
    PayloadsTrans(h.m, PlaceWords(h, bp, k, t), m1, Live(h));
    TagWriteKeepsPayloads(m1, r - 4, t', h, bp);
    TagWriteKeepsPayloads(m2, n - 8, t', h, bp);
    TagWriteKeepsPayloads(m3, n - 4, ClearPrevAlloc(Rd(m3, n - 4)), h, n);
    PayloadsTrans(h.m, m1, m2, Live(h));
    PayloadsTrans(h.m, m2, m3, Live(h));
    PayloadsTrans(h.m, m3, h'.m, Live(h));
  }

  /** The rest of a split block, listed, restores the invariant. */
  lemma SplitListed(h: Heap, r: int, m1: Memory, nodes': map<int, Node>, clock': int)
    requires Pending(h, r) && Isolated(h.blk, r) && !h.blk[r + h.blk[r].size].prevAlloc
    requires nodes' == h.nodes[r := Node(Class(h.blk[r].size), h.clock)]
    requires ListsOk(m1, nodes', clock') && OnlyLinks(h.m, m1, nodes')
    ensures var h' := h.(m := m1, nodes := nodes', clock := clock');
      Clean(h') && Live(h') == Live(h) && SamePayloads(h.m, m1, Live(h))
  {
    var n := r + h.blk[r].size;
    var h' := h.(m := m1, nodes := nodes', clock := clock');
    FreeInside(h.blk, h.brk, r);
    NodesFree(h, r);
    assert SettledBlock(h, r, n);
    forall p ensures BlockOk(h', p) {
      assert SettledBlock(h, r, p);
      if p in h.blk {
        assert Placed(h.blk, h.brk, p);
        OnlyLinksKeepTags(h.m, m1, h.blk, h.brk, nodes', p);
      }
    }
    forall p ensures Agrees(h'.blk, nodes', NONE, p) {
      assert Agrees(h.blk, h.nodes, r, p);
      assert p in h.blk ==> Placed(h.blk, h.brk, p);
    }
    OnlyLinksKeepPayloads(h.m, m1, h, nodes');
  }
}
