/** The allocator: the routines of mm.c over an array of words. */
module Allocator {
  import opened HeapWords
  import opened HeapModel
  import opened FreeLists
  import opened Tilings
  import opened HeapSteps
  import opened HeapSpecs

  class Mm {
    /** The region mem_sbrk can hand out; only the words below brk belong to the heap. */
    const mem: array<Word>
    var brk: int
    var heapListp: int
    var list0: int
    ghost var h: Heap

    /** The abstract word at a is the word stored there. */
    ghost predicate MirrorsAt(m: Memory, a: int)
      reads mem
    {
      0 <= a < 4 * mem.Length && Cell(a) ==> Rd(m, a) == mem[a / 4]
    }

    ghost predicate Mirrors(m: Memory)
      reads mem
    {
      forall a {:trigger MirrorsAt(m, a)} :: MirrorsAt(m, a)
    }

    ghost predicate Ok()
      reads this, mem
    {
      Mirrors(h.m) && h.brk == brk && 0 <= brk <= 4 * mem.Length < TWO32 && Cell(brk)
    }

    /** The globals are set, whatever the state of the blocks. */
    ghost predicate Set()
      reads this, mem
    {
      Ok() && heapListp == 8 && list0 == LIST0
    }

    ghost predicate Valid()
      reads this, mem
    {
      Set() && Clean(h)
    }

    /** Before mm_init: no heap at all. */
    ghost predicate Raw()
      reads this, mem
    {
      Ok() && brk == 0 && heapListp == 0
    }

    constructor (words: nat)
      requires 4 * words < TWO32
      ensures Raw() && mem.Length == words && fresh(mem)
    {
      mem := new Word[words];
      brk, heapListp, list0 := 0, 0, 0;
      new;
      h := Heap(map a | 0 <= a < 4 * mem.Length && a % 4 == 0 :: mem[a / 4], 0, map[], map[], 0);
      forall a ensures MirrorsAt(h.m, a) { CellIsMultiple(a); }
    }

    // ---------------------------------------------------------- words and pointers

    method Put(a: int, v: int)
      requires Ok() && 0 <= a < brk && Cell(a) && 0 <= v < TWO32
      modifies mem, `h
      ensures Ok() && h == old(h).(m := old(h).m[a := v])
    {
      CellIsMultiple(a);
      mem[a / 4] := v;
      h := h.(m := h.m[a := v]);
      forall b ensures MirrorsAt(h.m, b) {
        assert old(MirrorsAt(h.m, b));
        CellIsMultiple(b);
      }
    }

    function Get(a: int): (w: Word)
      requires Ok() && 0 <= a < brk && Cell(a)
      reads this, mem
      ensures w == Rd(h.m, a)
    {
      assert MirrorsAt(h.m, a);
      mem[a / 4]
    }

    function GetSize(a: int): (s: int)
      requires Ok() && 0 <= a < brk && Cell(a)
      reads this, mem
      ensures s == SizeOf(Rd(h.m, a))
    {
      SizeOf(Get(a))
    }

    predicate GetAlloc(a: int)
      requires Ok() && 0 <= a < brk && Cell(a)
      reads this, mem
      ensures GetAlloc(a) == AllocOf(Rd(h.m, a))
    {
      AllocOf(Get(a))
    }

    predicate GetPrevFreeStatus(bp: int)
      requires Ok() && 0 <= bp - 4 < brk && Cell(bp - 4)
      reads this, mem
      ensures GetPrevFreeStatus(bp) == PrevAllocOf(Rd(h.m, bp - 4))
    {
      PrevAllocOf(Get(bp - 4))
    }

    function FooterPtr(bp: int): (f: int)
      requires Ok() && 0 <= bp - 4 < brk && Cell(bp - 4)
      reads this, mem
      ensures f == bp + SizeOf(Rd(h.m, bp - 4)) - 8
    {
      bp + GetSize(bp - 4) - 8
    }

    function NextBlockPtr(bp: int): (n: int)
      requires Ok() && 0 <= bp - 4 < brk && Cell(bp - 4)
      reads this, mem
      ensures n == bp + SizeOf(Rd(h.m, bp - 4))
    {
      bp + GetSize(bp - 4)
    }

    function PrevBlockPtr(bp: int): (q: int)
      requires Ok() && 0 <= bp - 8 < brk && Cell(bp - 8)
      reads this, mem
      ensures q == bp - SizeOf(Rd(h.m, bp - 8))
    {
      bp - GetSize(bp - 8)
    }

    function GetPrevPtr(bp: int): (p: int)
      requires Ok() && 0 <= bp < brk && Cell(bp)
      reads this, mem
      ensures p == Rd(h.m, bp)
    {
      Get(bp)
    }

    function GetNextPtr(bp: int): (p: int)
      requires Ok() && 0 <= bp < brk - 4 && Cell(bp + 4)
      reads this, mem
      ensures p == Rd(h.m, bp + 4)
    {
      Get(bp + 4)
    }

    /** size | bits, for a size that is a multiple of eight. */
    function Pack(size: int, bits: int): int
      requires 0 <= bits < 8
    {
      size + bits
    }

    method SetNextHeaderF(bp: int)
      requires Ok() && 0 <= bp - 4 < brk && Cell(bp - 4) && bp + SizeOf(Rd(h.m, bp - 4)) - 4 < brk
      modifies mem, `h
      ensures var a := bp + SizeOf(old(Rd(h.m, bp - 4))) - 4;
        Ok() && h == old(h).(m := old(h).m[a := ClearPrevAlloc(Rd(old(h).m, a))])
    {
      NextCell(bp, Rd(h.m, bp - 4));
      var a := NextBlockPtr(bp) - 4;
      Put(a, ClearPrevAlloc(Get(a)));
    }

    method SetNextHeaderA(bp: int)
      requires Ok() && 0 <= bp - 4 < brk && Cell(bp - 4) && bp + SizeOf(Rd(h.m, bp - 4)) - 4 < brk
      modifies mem, `h
      ensures var a := bp + SizeOf(old(Rd(h.m, bp - 4))) - 4;
        Ok() && h == old(h).(m := old(h).m[a := SetPrevAlloc(Rd(old(h).m, a))])
    {
      NextCell(bp, Rd(h.m, bp - 4));
      var a := NextBlockPtr(bp) - 4;
      Put(a, SetPrevAlloc(Get(a)));
    }

    /** The environment: grants the request if the region has room. The new words are arbitrary. */
    method Sbrk(incr: int) returns (p: int)
      requires Ok() && 0 <= incr && Cell(brk + incr)
      modifies `brk, `h
      ensures Ok()
      ensures p == -1 <==> old(brk) + incr > 4 * mem.Length
      ensures p == -1 ==> brk == old(brk) && h == old(h)
      ensures p != -1 ==> p == old(brk) && brk == old(brk) + incr && h == old(h).(brk := brk)
    {
      if brk + incr > 4 * mem.Length { return -1; }
      p := brk;
      brk := brk + incr;
      h := h.(brk := brk);
    }

    /** The words of block p that carry tags and links. */
    lemma BlockCells(blk: map<int, Block>, p: int)
      requires Tiled(blk, h.brk) && p in blk
      ensures Cell(p - 4) && 0 <= p - 4 && p <= h.brk
      ensures Cell(p + blk[p].size - 4) && 0 <= blk[p].size && p + blk[p].size <= h.brk
    {
      assert Placed(blk, h.brk, p);
      OctCell(p);
      OctCell(blk[p].size);
      CellSum(p, blk[p].size);
    }

    lemma RootCell(k: int)
      requires 0 <= k < NUM_LISTS
      ensures Cell(Root(k) + 4) && 8 <= Root(k) < 116
    {
      CellIsMultiple(Root(k) + 4);
    }

    // ------------------------------------------------------------------ free lists

    function GetListHeader(size: int): (r: int)
      reads `list0
    {
      list0 + Class(size) * 8
    }

    /** The header after bp, or NULL after the last. */
    function GetNextHeader(bp: int): (r: int) {
      if bp < LIST0 + (NUM_LISTS - 1) * 8 then bp + 8 else 0
    }

    /** The lists are in order and made of free blocks, and the heap is tiled. */
    ghost predicate Listed()
      reads this, mem
    {
      && Set() && Tiled(h.blk, h.brk) && ListsOk(h.m, h.nodes, h.clock)
      && forall y :: y in h.nodes ==> IsFree(h.blk, y)
    }

    lemma InBounds(p: int)
      requires Tiled(h.blk, h.brk) && (p == 0 || IsFree(h.blk, p))
      ensures 0 <= p && Cell(p) && Cell(p + 4) && p < h.brk - 8
    {
      if p != 0 {
        FreeInside(h.blk, h.brk, p);
        BlockCells(h.blk, p);
      }
    }

    method ListInsert(bp: int, size: int)
      requires Listed() && IsFree(h.blk, bp) && bp !in h.nodes && size == h.blk[bp].size
      modifies mem, `h
      ensures Set()
      ensures h == old(h).(m := h.m, nodes := old(h).nodes[bp := Node(Class(size), old(h).clock)],
                           clock := old(h).clock + 1)
      ensures 0 <= Class(size) < NUM_LISTS && 0 <= bp < TWO32 && h.m == InsertWords(old(h).m, bp, Class(size))
      ensures Rd(h.m, Root(Class(size)) + 4) == bp
      ensures ListsOk(h.m, h.nodes, h.clock) && OnlyLinks(old(h).m, h.m, h.nodes)
    {
      InBounds(bp);
      FreeInside(h.blk, h.brk, bp);
      ghost var h0, k := h, Class(size);
      var root := GetListHeader(size);
      ClassMonotone(size, size);
      RootCell(k);
      assert RootOk(h.m, h.nodes, k);
      var temp := GetNextPtr(root);
      InBounds(temp);
      LinkFirst(bp, root, temp, k);
      assert LinkOk(h0.m, h0.nodes, h0.clock, temp);
      InsertRoots(h0.m, bp, k, k);
      InsertKeepsLists(h0.m, h0.nodes, h0.clock, bp, k);
      h := h.(nodes := h.nodes[bp := Node(k, h.clock)], clock := h.clock + 1);
    }

    /** The links of bp, of the root before it, and of the node temp after it, if there is one. */
    method LinkFirst(bp: int, root: int, temp: int, ghost k: int)
      requires Ok() && 0 <= k < NUM_LISTS && root == Root(k) && Cell(root + 4) && 8 <= root < 116 < brk - 4
      requires FIRST_BLOCK <= bp < brk - 8 && Cell(bp) && Cell(bp + 4)
      requires temp == Rd(h.m, root + 4) && 0 <= temp < brk && Cell(temp)
      modifies mem, `h
      ensures Ok() && h == old(h).(m := InsertWords(old(h).m, bp, k))
    {
      Put(bp + 4, temp);
      assert GetNextPtr(root) == temp;
      if GetNextPtr(root) != 0 {
        Put(GetNextPtr(root), bp);
      }
      Put(root + 4, bp);
      Put(bp, root);
    }

    method ListRemove(bp: int)
      requires Listed() && bp in h.nodes
      modifies mem, `h
      ensures Set()
      ensures h == old(h).(m := RemoveWords(old(h).m, bp), nodes := old(h).nodes - {bp})
      ensures ListsOk(h.m, h.nodes, h.clock) && OnlyLinks(old(h).m, h.m, h.nodes)
    {
      InBounds(bp);
      ghost var h0 := h;
      assert LinkOk(h.m, h.nodes, h.clock, bp);
      RootCell(h.nodes[bp].list);
      var v, n := GetPrevPtr(bp), GetNextPtr(bp);
      InBounds(n);
      if v in h.nodes { InBounds(v); }
      assert LinkOk(h.m, h.nodes, h.clock, n) && LinkOk(h.m, h.nodes, h.clock, v);
      if GetPrevPtr(bp) != 0 {
        if GetNextPtr(bp) != 0 {
          Put(GetNextPtr(bp), GetPrevPtr(bp));
        }
        assert GetPrevPtr(bp) == v && GetNextPtr(bp) == n;
        Put(GetPrevPtr(bp) + 4, GetNextPtr(bp));
      }
      assert h.m == RemoveWords(h0.m, bp);
      RemoveKeepsLists(h0.m, h0.nodes, h0.clock, bp);
      h := h.(nodes := h.nodes - {bp});
    }

    // ------------------------------------------------------------------ coalescing

    lemma SizeRead(p: int)
      requires Ok() && Tiled(h.blk, h.brk) && p in h.blk && HeaderOk(h.m, h.blk, p)
      ensures 0 <= p - 4 < brk && Cell(p - 4) && Cell(p + h.blk[p].size - 4)
      ensures SizeOf(Rd(h.m, p - 4)) == h.blk[p].size
    {
      BlockCells(h.blk, p);
      assert Placed(h.blk, h.brk, p);
      TagDecodes(h.blk[p]);
    }

    lemma BitsRead(p: int)
      requires Ok() && Tiled(h.blk, h.brk) && p in h.blk && HeaderOk(h.m, h.blk, p)
      ensures AllocOf(Rd(h.m, p - 4)) == h.blk[p].alloc && PrevAllocOf(Rd(h.m, p - 4)) == h.blk[p].prevAlloc
    {
      assert Placed(h.blk, h.brk, p);
      TagDecodes(h.blk[p]);
    }

    /** What a pending heap holds around bp: the block q before it and the block after it. */
    lemma Neighbours(bp: int) returns (q: int)
      requires Ok() && Pending(h, bp)
      ensures FIRST_BLOCK <= bp && bp + h.blk[bp].size <= brk && h.blk[bp].size >= MIN_BLOCK
      ensures bp + h.blk[bp].size in h.blk && HeaderOk(h.m, h.blk, bp + h.blk[bp].size)
      ensures 8 <= q < bp && q in h.blk && q + h.blk[q].size == bp && h.blk[q].alloc == h.blk[bp].prevAlloc
      ensures HeaderOk(h.m, h.blk, q) && Coalesced(h.blk, q)
      ensures IsFree(h.blk, q) ==> SizeOf(Rd(h.m, bp - 8)) == h.blk[q].size
    {
      FreeInside(h.blk, h.brk, bp);
      assert Placed(h.blk, h.brk, bp + h.blk[bp].size);
      assert SettledBlock(h, bp, bp + h.blk[bp].size);
      q := Predecessor(h.blk, h.brk, bp);
      assert Placed(h.blk, h.brk, q);
      assert SettledBlock(h, bp, q);
      TagDecodes(h.blk[q]);
    }

    /** Merges the pending block with its free neighbours, exactly, lists the result and restores the invariant. */
    method Coalesce(bp: int) returns (r: int)
      requires Set() && Pending(h, bp)
      modifies mem, `h
      ensures Valid() && h.brk == old(h).brk
      ensures Live(h) == Live(old(h)) && SamePayloads(old(h).m, h.m, Live(old(h)))
      ensures IsFree(h.blk, r) && r == bp - FreeBefore(old(h), bp)
      ensures var n := bp + old(h).blk[bp].size;
        n in old(h).blk && r + h.blk[r].size == n + FreeAt(old(h), n)
      ensures Rd(h.m, Root(Class(h.blk[r].size)) + 4) == r
    {
      ghost var h0 := h;
      ghost var q := Neighbours(bp);
      ghost var n := bp + h.blk[bp].size;
      SizeRead(bp);
      SizeRead(n);
      var prevAlloc := GetPrevFreeStatus(bp);
      var nextAlloc := GetAlloc(NextBlockPtr(bp) - 4);
      BitsRead(bp);
      BitsRead(n);
      r := bp;
      if prevAlloc && !nextAlloc {
        MergeNext(bp);
      } else if !prevAlloc && nextAlloc {
        r := MergePrev(bp);
      } else if !prevAlloc && !nextAlloc {
        r := MergeBoth(bp);
      }
      ghost var m1 := h.m;
      Relink(r);
      PayloadsTrans(h0.m, m1, h.m, Live(h0));
    }

    /** The tail of coalesce: list the merged block and record its status in the next header. */
    method Relink(bp: int)
      requires Set() && Pending(h, bp) && Isolated(h.blk, bp)
      modifies mem, `h
      ensures Valid() && h.brk == old(h).brk
      ensures Live(h) == Live(old(h)) && SamePayloads(old(h).m, h.m, Live(old(h)))
      ensures IsFree(h.blk, bp) && h.blk[bp].size == old(h).blk[bp].size
      ensures Rd(h.m, Root(Class(h.blk[bp].size)) + 4) == bp
    {
      ghost var h0, n := h, bp + h.blk[bp].size;
      ListMerged(bp);
      ghost var m1 := h.m;
      assert Placed(h0.blk, h0.brk, bp) && Placed(h0.blk, h0.brk, n);
      SetNextHeaderF(bp);
      Relist(h0, bp, m1, h.nodes, h.clock, h.m);
      h := h.(blk := h.blk[n := h.blk[n].(prevAlloc := false)]);
    }

    /** The merged block becomes the first of its list. */
    method ListMerged(bp: int)
      requires Set() && Pending(h, bp)
      modifies mem, `h
      ensures Set()
      ensures h == old(h).(m := h.m, nodes := old(h).nodes[bp := Node(Class(old(h).blk[bp].size), old(h).clock)],
                           clock := old(h).clock + 1)
      ensures ListsOk(h.m, h.nodes, h.clock) && OnlyLinks(old(h).m, h.m, h.nodes)
      ensures 0 <= Class(h.blk[bp].size) < NUM_LISTS && Rd(h.m, Root(Class(h.blk[bp].size)) + 4) == bp
      ensures Rd(h.m, bp - 4) == Rd(old(h).m, bp - 4) && SizeOf(Rd(h.m, bp - 4)) == h.blk[bp].size
      ensures 0 <= bp - 4 < brk && Cell(bp - 4) && Cell(bp + h.blk[bp].size - 4)
    {
      ghost var h0 := h;
      SizeRead(bp);
      NodesFree(h, bp);
      assert Agrees(h.blk, h.nodes, bp, bp);
      var size := GetSize(bp - 4);
      ListInsert(bp, size);
      OnlyLinksKeepTags(h0.m, h.m, h0.blk, h0.brk, h.nodes, bp);
    }

    /** Case 2: the next block is free. */
    method MergeNext(bp: int)
      requires Set() && Pending(h, bp) && h.blk[bp].prevAlloc && IsFree(h.blk, bp + h.blk[bp].size)
      modifies mem, `h
      ensures Set() && Pending(h, bp) && Isolated(h.blk, bp) && h.brk == old(h).brk
      ensures Live(h) == Live(old(h)) && SamePayloads(old(h).m, h.m, Live(old(h)))
      ensures h.blk[bp].size == old(h).blk[bp].size + old(h).blk[bp + old(h).blk[bp].size].size
    {
      ghost var h0, n := h, bp + h.blk[bp].size;
      ghost var q := Neighbours(bp);
      SizeRead(bp);
      SizeRead(n);
      NodesFree(h, bp);
      assert Agrees(h.blk, h.nodes, bp, n);
      assert PrevAllocOf(Rd(h.m, bp - 4)) by { BitsRead(bp); }
      assert h.blk[n].size >= MIN_BLOCK by { FreeInside(h.blk, h.brk, n); }
      assert NextBlockPtr(bp) == n;
      var size := GetSize(bp - 4);
      size := size + GetSize(NextBlockPtr(bp) - 4);
      ListRemove(NextBlockPtr(bp));
      assert Rd(h.m, bp - 4) == Rd(h0.m, bp - 4) by { OnlyLinksKeepTags(h0.m, h.m, h0.blk, h0.brk, h.nodes, bp); }
      AbsorbNext(h0, bp, h.m);
      h := h.(blk := MergeBlk(h.blk, bp));
      ghost var m1 := h.m;
      var bitStatus := if GetPrevFreeStatus(bp) then 2 else 0;
      SealBlock(bp, size, bitStatus);
      PayloadsTrans(h0.m, m1, h.m, Live(h0));
    }

    /** Case 3: the previous block is free. */
    method MergePrev(bp: int) returns (r: int)
      requires Set() && Pending(h, bp) && !h.blk[bp].prevAlloc && Occupied(h.blk, bp + h.blk[bp].size)
      modifies mem, `h
      ensures Set() && Pending(h, r) && Isolated(h.blk, r) && h.brk == old(h).brk
      ensures Live(h) == Live(old(h)) && SamePayloads(old(h).m, h.m, Live(old(h)))
      ensures r == bp - SizeOf(Rd(old(h).m, bp - 8)) && r + h.blk[r].size == bp + old(h).blk[bp].size
    {
      ghost var h0 := h;
      ghost var q := Neighbours(bp);
      SizeRead(bp);
      SizeRead(q);
      NodesFree(h, bp);
      assert Agrees(h.blk, h.nodes, bp, q);
      assert FIRST_BLOCK <= q by { FreeInside(h.blk, h.brk, q); }
      assert PrevAllocOf(Rd(h.m, q - 4)) by { BitsRead(q); }
      assert PrevBlockPtr(bp) == q;
      var size := GetSize(bp - 4);
      size := size + GetSize(PrevBlockPtr(bp) - 4);
      r := PrevBlockPtr(bp);
      ListRemove(r);
      assert Rd(h.m, q - 4) == Rd(h0.m, q - 4) by { OnlyLinksKeepTags(h0.m, h.m, h0.blk, h0.brk, h.nodes, q); }
      AbsorbPrev(h0, r, bp, h.m);
      h := h.(blk := MergeBlk(h.blk, r));
      ghost var m1 := h.m;
      var bitStatus := if GetPrevFreeStatus(r) then 2 else 0;
      SealBlock(r, size, bitStatus);
      PayloadsTrans(h0.m, m1, h.m, Live(h0));
    }

    /** Case 4: both neighbours are free; they may be neighbours in one list. */
    method MergeBoth(bp: int) returns (r: int)
      requires Set() && Pending(h, bp) && !h.blk[bp].prevAlloc && IsFree(h.blk, bp + h.blk[bp].size)
      modifies mem, `h
      ensures Set() && Pending(h, r) && Isolated(h.blk, r) && h.brk == old(h).brk
      ensures Live(h) == Live(old(h)) && SamePayloads(old(h).m, h.m, Live(old(h)))
      ensures r == bp - SizeOf(Rd(old(h).m, bp - 8))
      ensures var n := bp + old(h).blk[bp].size; r + h.blk[r].size == n + old(h).blk[n].size
    {
      ghost var h0, n := h, bp + h.blk[bp].size;
      var size := SumBoth(bp);
      UnlinkBoth(bp, PrevBlockPtr(bp), n);
      r := PrevBlockPtr(bp);
      ghost var m1 := h.m;
      var bitStatus := if GetPrevFreeStatus(r) then 2 else 0;
      SealBlock(r, size, bitStatus);
      PayloadsTrans(h0.m, m1, h.m, Live(h0));
    }

    /** The sum of the three sizes, that of the next block read from its footer. */
    method SumBoth(bp: int) returns (size: int)
      requires Set() && Pending(h, bp) && !h.blk[bp].prevAlloc && IsFree(h.blk, bp + h.blk[bp].size)
      ensures 0 <= bp - 8 < brk && Cell(bp - 8)
      ensures var q := PrevBlockPtr(bp);
        && 8 <= q < bp && IsFree(h.blk, q) && q + h.blk[q].size == bp && Coalesced(h.blk, q)
        && PrevAllocOf(Rd(h.m, q - 4)) == h.blk[q].prevAlloc && q < brk && Cell(q - 4)
        && size == h.blk[q].size + (h.blk[bp].size + h.blk[bp + h.blk[bp].size].size)
      ensures 0 <= h.blk[bp + h.blk[bp].size].size
    {
      ghost var q := Neighbours(bp);
      ghost var n := bp + h.blk[bp].size;
      SizeRead(bp);
      SizeRead(q);
      SizeRead(n);
      assert PrevAllocOf(Rd(h.m, q - 4)) == h.blk[q].prevAlloc by { BitsRead(q); }
      assert n < brk && h.blk[n].size >= MIN_BLOCK && n + h.blk[n].size <= brk by { FreeInside(h.blk, h.brk, n); }
      assert SizeOf(Rd(h.m, n + h.blk[n].size - 8)) == h.blk[n].size;
      assert PrevBlockPtr(bp) == q;
      size := GetSize(bp - 4);
      size := size + (GetSize(PrevBlockPtr(bp) - 4) + GetSize(FooterPtr(NextBlockPtr(bp))));
    }

    /** Both neighbours leave their lists, the previous one first. */
    method UnlinkBoth(bp: int, ghost q: int, ghost n: int)
      requires Set() && Pending(h, bp) && n == bp + h.blk[bp].size && IsFree(h.blk, n)
      requires 8 <= q < bp && IsFree(h.blk, q) && q + h.blk[q].size == bp
      requires SizeOf(Rd(h.m, bp - 8)) == h.blk[q].size
      modifies mem, `h
      ensures Set() && Unsettled(h, q) && Isolated(h.blk, q) && h.brk == old(h).brk
      ensures Rd(h.m, q - 4) == Rd(old(h).m, q - 4) && Rd(h.m, bp - 8) == Rd(old(h).m, bp - 8) && brk == old(brk)
      ensures h.blk[q].size == old(h).blk[q].size + (old(h).blk[bp].size + old(h).blk[n].size)
      ensures Live(h) == Live(old(h)) && SamePayloads(old(h).m, h.m, Live(old(h)))
    {
      ghost var h0 := h;
      FreeInside(h.blk, h.brk, bp);
      FreeInside(h.blk, h.brk, n);
      FreeInside(h.blk, h.brk, q);
      SizeRead(bp);
      NodesFree(h, bp);
      UnlinkPrev(bp, q);
      ghost var m1 := h.m;
      UnlinkNext(bp, q, n, h0);
      PayloadsTrans(h0.m, m1, h.m, Live(h0));
    }

    /** The previous block leaves its list; the two may then be read as one unsettled block. */
    method UnlinkPrev(bp: int, ghost q: int)
      requires Set() && Pending(h, bp) && 8 <= q < bp && IsFree(h.blk, q) && q + h.blk[q].size == bp
      requires SizeOf(Rd(h.m, bp - 8)) == h.blk[q].size
      modifies mem, `h
      ensures Set() && Unsettled(h, q) && h.blk[q].prevAlloc && bp in old(h).blk
      ensures h == old(h).(m := h.m, blk := MergeBlk(old(h).blk, q), nodes := old(h).nodes - {q})
      ensures SizeOf(Rd(h.m, bp - 4)) == old(h).blk[bp].size
      ensures Rd(h.m, q - 4) == Rd(old(h).m, q - 4) && Rd(h.m, bp - 8) == Rd(old(h).m, bp - 8)
      ensures Live(h) == Live(old(h)) && SamePayloads(old(h).m, h.m, Live(old(h)))
    {
      ghost var h0 := h;
      FreeInside(h.blk, h.brk, bp);
      SizeRead(bp);
      NodesFree(h, bp);
      assert Agrees(h.blk, h.nodes, bp, q);
      assert PrevBlockPtr(bp) == q;
      ListRemove(PrevBlockPtr(bp));
      OnlyLinksKeepTags(h0.m, h.m, h0.blk, h0.brk, h.nodes, q);
      OnlyLinksKeepTags(h0.m, h.m, h0.blk, h0.brk, h.nodes, bp);
      AbsorbPrev(h0, q, bp, h.m);
      h := h.(blk := MergeBlk(h0.blk, q));
    }

    /** Then the next block leaves its list and all three may be read as one. */
    method UnlinkNext(bp: int, ghost q: int, ghost n: int, ghost h0: Heap)
      requires Set() && Unsettled(h, q) && h.blk[q].prevAlloc && q + h.blk[q].size == n && IsFree(h.blk, n)
      requires q < bp < n <= brk && Cell(bp - 4) && bp + SizeOf(Rd(h.m, bp - 4)) == n
      requires Tiled(h0.blk, h0.brk) && IsFree(h0.blk, q) && q + h0.blk[q].size == bp
      requires q != 8 && q != h0.brk && forall y :: y in h.nodes ==> IsFree(h0.blk, y)
      modifies mem, `h
      ensures Set() && Unsettled(h, q) && Isolated(h.blk, q) && h.brk == old(h).brk && brk == old(brk)
      ensures h.blk[q].size == old(h).blk[q].size + old(h).blk[n].size
      ensures Rd(h.m, q - 4) == Rd(old(h).m, q - 4) && Rd(h.m, bp - 8) == Rd(old(h).m, bp - 8)
      ensures Live(h) == Live(old(h)) && SamePayloads(old(h).m, h.m, Live(old(h)))
    {
      ghost var h1 := h;
      NodesFree(h, q);
      assert Agrees(h.blk, h.nodes, q, n);
      assert NextBlockPtr(bp) == n;
      ListRemove(NextBlockPtr(bp));
      OnlyLinksKeepTags(h1.m, h.m, h0.blk, h0.brk, h.nodes, q);
      AbsorbNext(h1, q, h.m);
      h := h.(blk := MergeBlk(h1.blk, q));
    }

    /** The header and footer written at the end of every case. */
    method SealBlock(bp: int, size: int, bitStatus: int)
      requires Set() && Unsettled(h, bp) && Isolated(h.blk, bp) && size == h.blk[bp].size && bitStatus == 2
      modifies mem, `h
      ensures Set() && h == old(h).(m := h.m) && Pending(h, bp) && SamePayloads(old(h).m, h.m, Live(h))
    {
      ghost var h0, t := h, Tag(h.blk[bp]);
      FreeInside(h.blk, h.brk, bp);
      BlockCells(h.blk, bp);
      assert 0 <= t < TWO32 && SizeOf(t) == size by { TagDecodes(h.blk[bp]); }
      assert Pack(size, bitStatus) == t;
      Put(bp - 4, Pack(size, bitStatus));
      assert FooterPtr(bp) == bp + size - 8;
      Put(FooterPtr(bp), Pack(size, bitStatus));
      assert h.m == h0.m[bp - 4 := t][bp + h0.blk[bp].size - 8 := t];
      Seal(h0, bp, t, h.m);
    }

    // --------------------------------------------------------------------- placing

    /** Hands out the first asize bytes of a free block, or all of it when the rest could not be a block. */
    method Place(bp: int, asize: int)
      requires Valid() && IsFree(h.blk, bp)
      requires asize % 8 == 0 && MIN_BLOCK <= asize <= h.blk[bp].size
      modifies mem, `h
      ensures Valid() && h.brk == old(h).brk
      ensures Live(h) == Live(old(h))[bp := if old(h).blk[bp].size - asize >= 16 then asize else old(h).blk[bp].size]
      ensures SamePayloads(old(h).m, h.m, Live(old(h)))
    {
      assert BlockOk(h, bp);
      SizeRead(bp);
      var csize := GetSize(bp - 4);
      if csize - asize >= MIN_BLOCK {
        PlaceSplit(bp, asize, csize);
      } else {
        PlaceAll(bp, csize);
      }
    }

    method PlaceAll(bp: int, csize: int)
      requires Valid() && IsFree(h.blk, bp) && csize == h.blk[bp].size
      modifies mem, `h
      ensures Valid() && h.brk == old(h).brk
      ensures Live(h) == Live(old(h))[bp := csize]
      ensures SamePayloads(old(h).m, h.m, Live(old(h)))
    {
      ghost var h0, t := h, Tag(h.blk[bp].(alloc := true));
      assert BlockOk(h, bp) && Agrees(h.blk, h.nodes, NONE, bp);
      FreeInside(h.blk, h.brk, bp);
      SizeRead(bp);
      NodesFree(h, NONE);
      assert PrevAllocOf(Rd(h.m, bp - 4)) == h.blk[bp].prevAlloc by { BitsRead(bp); }
      assert 0 <= t < TWO32 && SizeOf(t) == csize by { TagDecodes(h.blk[bp].(alloc := true)); }
      var bitStatus := if GetPrevFreeStatus(bp) then 2 else 0;
      bitStatus := bitStatus + 1;
      assert Pack(csize, bitStatus) == t;
      Put(bp - 4, Pack(csize, bitStatus));
      SetNextHeaderA(bp);
      assert h.m == PlaceWords(h0, bp, csize, t);
      PlaceKeepsLists(h0, bp, csize, t, h0.blk);
      ListRemove(bp);
      PlaceWhole(h0, bp, t, h.m);
      h := h.(blk := TakeBlk(h.blk, bp));
    }

    method PlaceSplit(bp: int, asize: int, csize: int)
      requires Valid() && IsFree(h.blk, bp) && csize == h.blk[bp].size
      requires asize % 8 == 0 && MIN_BLOCK <= asize <= csize - MIN_BLOCK
      modifies mem, `h
      ensures Valid() && h.brk == old(h).brk
      ensures Live(h) == Live(old(h))[bp := asize]
      ensures SamePayloads(old(h).m, h.m, Live(old(h)))
    {
      ghost var h0 := h;
      var rest := SplitBlock(bp, asize, csize);
      ghost var h1 := h;
      ListRest(rest, csize - asize);
      PayloadsOfFewer(h1.m, h.m, Live(h1), Live(h0));
      PayloadsTrans(h0.m, h1.m, h.m, Live(h0));
    }

    /** Everything but the listing of the remainder. */
    method SplitBlock(bp: int, asize: int, csize: int) returns (rest: int)
      requires Valid() && IsFree(h.blk, bp) && csize == h.blk[bp].size
      requires asize % 8 == 0 && MIN_BLOCK <= asize <= csize - MIN_BLOCK
      modifies mem, `h
      ensures Set() && Pending(h, rest) && Isolated(h.blk, rest) && h.blk[rest].size == csize - asize
      ensures !h.blk[rest + h.blk[rest].size].prevAlloc && h.brk == old(h).brk
      ensures bp !in Live(old(h)) && Live(h) == Live(old(h))[bp := asize]
      ensures SamePayloads(old(h).m, h.m, Live(old(h)))
    {
      ghost var h0 := h;
      ghost var t := TakeFront(bp, asize, csize);
      ghost var m1 := h.m;
      SplitCells(h0.blk, bp, asize);
      rest := NextBlockPtr(bp);
      var bitStatus := 2;
      WriteTags(rest, csize - asize, Pack(csize - asize, bitStatus));
      SplitPends(h0, bp, asize, t, m1, Tag(Block(csize - asize, false, true)));
      h := h.(blk := SplitBlk(h.blk, bp, asize));
    }

    lemma SplitCells(blk: map<int, Block>, bp: int, k: int)
      requires Tiled(blk, h.brk) && IsFree(blk, bp) && k % 8 == 0 && MIN_BLOCK <= k <= blk[bp].size - MIN_BLOCK
      ensures FIRST_BLOCK <= bp && bp + blk[bp].size <= h.brk
      ensures Cell(bp - 4) && Cell(bp + k - 4) && Cell(bp + blk[bp].size - 4)
      ensures var b := Block(blk[bp].size - k, false, true);
        0 <= Tag(b) < TWO32 && Tag(b) == b.size + 2 && SizeOf(Tag(b)) == b.size
    {
      FreeInside(blk, h.brk, bp);
      SplitTiled(blk, h.brk, bp, k);
      BlockCells(SplitBlk(blk, bp, k), bp);
      BlockCells(SplitBlk(blk, bp, k), bp + k);
      TagDecodes(Block(blk[bp].size - k, false, true));
    }

    method ListRest(bp: int, size: int)
      requires Set() && Pending(h, bp) && Isolated(h.blk, bp) && size == h.blk[bp].size
      requires !h.blk[bp + h.blk[bp].size].prevAlloc
      modifies mem, `h
      ensures Valid() && h.brk == old(h).brk && Live(h) == Live(old(h)) && SamePayloads(old(h).m, h.m, Live(old(h)))
    {
      ghost var h0 := h;
      NodesFree(h, bp);
      assert Agrees(h.blk, h.nodes, bp, bp);
      ListInsert(bp, size);
      SplitListed(h0, bp, h.m, h.nodes, h.clock);
    }

    /** The header of the part handed out; the block leaves its list. */
    method TakeFront(bp: int, asize: int, csize: int) returns (ghost t: Word)
      requires Valid() && IsFree(h.blk, bp) && csize == h.blk[bp].size
      requires asize % 8 == 0 && MIN_BLOCK <= asize <= csize - MIN_BLOCK
      modifies mem, `h
      ensures Set() && t == Tag(Block(asize, true, old(h).blk[bp].prevAlloc)) && SizeOf(t) == asize
      ensures h == old(h).(m := h.m, nodes := old(h).nodes - {bp})
      ensures ListsOk(h.m, h.nodes, h.clock) && OnlyLinks(PlaceWords(old(h), bp, asize, t), h.m, h.nodes)
      ensures Rd(h.m, bp - 4) == t
    {
      ghost var h0 := h;
      assert BlockOk(h, bp) && Agrees(h.blk, h.nodes, NONE, bp);
      FreeInside(h.blk, h.brk, bp);
      SizeRead(bp);
      NodesFree(h, NONE);
      assert PrevAllocOf(Rd(h.m, bp - 4)) == h.blk[bp].prevAlloc by { BitsRead(bp); }
      ghost var b := Block(asize, true, h.blk[bp].prevAlloc);
      assert 0 <= Tag(b) < TWO32 && SizeOf(Tag(b)) == asize by { TagDecodes(b); }
      t := Tag(b);
      var bitStatus := if GetPrevFreeStatus(bp) then 2 else 0;
      bitStatus := bitStatus + 1;
      assert Pack(asize, bitStatus) == t;
      Put(bp - 4, Pack(asize, bitStatus));
      SetNextHeaderA(bp);
      assert h.m == PlaceWords(h0, bp, asize, t);
      ghost var m1 := h.m;
      SplitTiled(h0.blk, h0.brk, bp, asize);
      PlaceKeepsLists(h0, bp, asize, t, SplitBlk(h0.blk, bp, asize));
      ListRemove(bp);
      assert Rd(h.m, bp - 4) == Rd(m1, bp - 4) by { OnlyLinksKeepTags(m1, h.m, h0.blk, h0.brk, h.nodes, bp); }
    }

    // ------------------------------------------------------------------- extending

    /** Grows the heap by an even number of words, or leaves everything alone when the region is full. */
    method ExtendHeap(words: int) returns (bp: int)
      requires Valid() && 3 <= words
      modifies mem, `brk, `h
      ensures Valid()
      ensures var size := if words % 2 != 0 then (words + 1) * 4 else words * 4;
        && (bp == 0 <==> old(brk) + size > 4 * mem.Length)
        && (bp == 0 ==> h == old(h) && brk == old(brk))
        && (bp != 0 ==>
            && brk == old(brk) + size && Live(h) == Live(old(h))
            && SamePayloads(old(h).m, h.m, Live(old(h)))
            && IsFree(h.blk, bp) && bp == old(brk) - FreeBefore(old(h), old(brk)) && bp + h.blk[bp].size == brk)
    {
      ghost var h0 := h;
      var size := if words % 2 != 0 then (words + 1) * 4 else words * 4;
      WordBytes(words, size);
      CellSum(brk, size);
      var p := Sbrk(size);
      if p == -1 { return 0; }
      BlankBlock(h0, p, size);
      ghost var h1 := h;
      bp := Coalesce(p);
      PayloadsTrans(h0.m, h1.m, h.m, Live(h0));
      FreeInside(h.blk, h.brk, bp);
    }

    static lemma WordBytes(words: int, size: int)
      requires 3 <= words && size == if words % 2 != 0 then (words + 1) * 4 else words * 4
      ensures size % 8 == 0 && size >= MIN_BLOCK && Cell(size)
    {
      OctCell(size);
    }

    /** The new block takes over the old epilogue, and the new epilogue follows it. */
    method BlankBlock(ghost h0: Heap, bp: int, size: int)
      requires Set() && Clean(h0) && h == h0.(brk := brk) && bp == h0.brk && brk == h0.brk + size
      requires size % 8 == 0 && MIN_BLOCK <= size
      modifies mem, `h
      ensures Set() && Pending(h, bp) && h.blk[bp].size == size && h.brk == brk
      ensures brk in h.blk && h.blk[brk].alloc && FreeBefore(h, bp) == FreeBefore(h0, bp)
      ensures Live(h) == Live(h0) && SamePayloads(h0.m, h.m, Live(h0))
    {
      assert BlockOk(h0, h0.brk) && Placed(h0.blk, h0.brk, h0.brk);
      ghost var b := Block(size, false, h0.blk[h0.brk].prevAlloc);
      assert PrevAllocOf(Rd(h.m, bp - 4)) == b.prevAlloc by { TagDecodes(h0.blk[h0.brk]); }
      assert 0 <= Tag(b) < TWO32 && SizeOf(Tag(b)) == size by { TagDecodes(b); }
      ExtendTiled(h0.blk, h0.brk, size);
      BlockCells(ExtendBlk(h0.blk, h0.brk, size), bp);
      var bitStatus := if GetPrevFreeStatus(bp) then 2 else 0;
      assert Pack(size, bitStatus) == Tag(b);
      WriteBlank(bp, size, Pack(size, bitStatus));
      ExtendPends(h0, size);
      h := h.(blk := ExtendBlk(h0.blk, h0.brk, size));
    }

    /** Header and footer t of the new block, and the new epilogue. */
    method WriteBlank(bp: int, size: int, t: int)
      requires Ok() && 4 <= bp && Cell(bp - 4) && MIN_BLOCK <= size && bp + size <= brk && Cell(bp + size - 4)
      requires 0 <= t < TWO32 && SizeOf(t) == size
      modifies mem, `h
      ensures Ok() && h == old(h).(m := old(h).m[bp - 4 := t][bp + size - 8 := t][bp + size - 4 := 3])
      ensures Rd(h.m, bp - 8) == Rd(old(h).m, bp - 8)
    {
      Put(bp - 4, t);
      Put(FooterPtr(bp), t);
      Put(NextBlockPtr(bp) - 4, Pack(0, 3));
    }

    // -------------------------------------------------------------------- searching

    /** What the scan reads at a node. */
    lemma NodeRead(p: int)
      requires Valid() && p in h.nodes
      ensures IsFree(h.blk, p) && SizeOf(Rd(h.m, p - 4)) == h.blk[p].size
      ensures 0 < p < brk - 4 && 0 <= p - 4 && Cell(p - 4) && Cell(p + 4)
      ensures var n := Rd(h.m, p + 4);
        && (n != 0 ==> n in h.nodes && h.nodes[n].list == h.nodes[p].list)
        && NodesFrom(h, p) == [p] + NodesFrom(h, n)
    {
      assert Agrees(h.blk, h.nodes, NONE, p) && LinkOk(h.m, h.nodes, h.clock, p) && BlockOk(h, p);
      SizeRead(p);
      InBounds(p);
      FreeInside(h.blk, h.brk, p);
    }

    method FindFit(asize: int) returns (r: int)
      requires Valid()
      ensures r == 0 <==> NoFit(h, asize)
      ensures r != 0 ==> FirstFit(h, asize, r)
    {
      ClassMonotone(asize, asize);
      var temp := GetListHeader(asize);
      ghost var k := Class(asize);
      while temp != 0
        invariant Class(asize) <= k <= NUM_LISTS && 0 <= k
        invariant temp == if k < NUM_LISTS then Root(k) else 0
        invariant forall j :: Class(asize) <= j < k ==> AllSmall(h, ListOf(h, j), asize)
        decreases NUM_LISTS - k
      {
        RootCell(k);
        assert RootOk(h.m, h.nodes, k) && h.brk >= FIRST_BLOCK;
        if GetNextPtr(temp) == 0 {
          assert ListOf(h, k) == [];
          temp := GetNextHeader(temp);
          k := k + 1;
          continue;
        }
        ghost var i;
        r, i := FitInList(GetNextPtr(temp), asize, k);
        if r != 0 {
          assert Agrees(h.blk, h.nodes, NONE, r);
          return r;
        }
        if temp < LIST0 + (NUM_LISTS - 1) * 8 {
          temp := temp + 8;
          k := k + 1;
        } else {
          ListsSmallNoFit(h, asize);
          return 0;
        }
      }
      ListsSmallNoFit(h, asize);
      return 0;
    }

    /** The inner loop: the first node of list k that fits, or NULL. */
    method FitInList(head: int, asize: int, ghost k: int) returns (p: int, ghost i: int)
      requires Valid() && 0 <= k < NUM_LISTS && head == Rd(h.m, Root(k) + 4) && head != 0
      ensures p == 0 ==> AllSmall(h, ListOf(h, k), asize)
      ensures p != 0 ==>
        && p in h.nodes && h.nodes[p].list == k && IsFree(h.blk, p) && asize <= h.blk[p].size
        && 0 <= i < |ListOf(h, k)| && ListOf(h, k)[i] == p && AllSmall(h, ListOf(h, k)[..i], asize)
    {
      assert RootOk(h.m, h.nodes, k);
      p, i := head, 0;
      ghost var met: seq<int> := [];
      while p != 0
        invariant p != 0 ==> p in h.nodes && h.nodes[p].list == k
        invariant ListOf(h, k) == met + NodesFrom(h, p)
        invariant AllSmall(h, met, asize)
        decreases |NodesFrom(h, p)|
      {
        NodeRead(p);
        if GetSize(p - 4) >= asize {
          i := |met|;
          assert ListOf(h, k)[i] == p && ListOf(h, k)[..i] == met;
          return;
        }
        ghost var n := Rd(h.m, p + 4);
        assert met + ([p] + NodesFrom(h, n)) == (met + [p]) + NodesFrom(h, n);
        met := met + [p];
        p := GetNextPtr(p);
      }
      assert NodesFrom(h, 0) == [];
      assert ListOf(h, k) == met;
    }

    // --------------------------------------------------------------- malloc and free

    /** NULL for an empty request, or when nothing fits and the region is full; otherwise a new live block. */
    method MmMalloc(size: int) returns (bp: int)
      requires Valid() && 0 <= size
      modifies mem, `brk, `h
      ensures Valid() && MallocSpec(old(h), size, 4 * mem.Length, h, bp)
    {
      if size <= 0 { return 0; }
      ghost var h0 := h;
      var asize := Max((Align(size) + 8) % TWO32, MIN_BLOCK);
      assert asize == Asize(size);
      assert asize % 8 == 0 && asize >= MIN_BLOCK by { AsizeIsLeast(size); }
      bp := FindFit(asize);
      if bp != 0 {
        GivenAtFit(h, asize, bp);
        Place(bp, asize);
        MallocDone(h0, h0, size, h, bp);
      } else {
        bp := MallocGrow(asize, size);
      }
    }

    /** Nothing fits: the heap grows by asize or 128 bytes, whichever is more. */
    method MallocGrow(asize: int, ghost size: int) returns (bp: int)
      requires Valid() && 0 < size && asize == Asize(size) && asize % 8 == 0 && asize >= MIN_BLOCK && NoFit(h, asize)
      modifies mem, `brk, `h
      ensures Valid() && MallocSpec(old(h), size, 4 * mem.Length, h, bp)
    {
      ghost var h0 := h;
      var extendSize := Max(asize, 128);
      EvenWords(extendSize);
      GivenWhenGrown(h, asize);
      bp := ExtendHeap(extendSize / 4);
      if bp == 0 { return 0; }
      ghost var h1 := h;
      Place(bp, asize);
      PayloadsTrans(h0.m, h1.m, h.m, Live(h0));
      MallocDone(h0, h1, size, h, bp);
    }

    static lemma EvenWords(size: int)
      requires size % 8 == 0
      ensures size / 4 % 2 == 0 && size / 4 * 4 == size
    {
      assert size == 8 * (size / 8);
      assert size / 4 == 2 * (size / 8);
    }

    static lemma Remainder(csize: int, asize: int)
      requires csize % 8 == 0 && asize % 8 == 0 && 0 <= csize - asize < 16
      ensures csize == asize || csize == asize + 8
    {
      assert csize == 8 * (csize / 8) && asize == 8 * (asize / 8);
    }

    lemma MallocDone(h0: Heap, h1: Heap, n: int, h2: Heap, bp: int)
      requires Clean(h1) && Live(h1) == Live(h0) && IsFree(h1.blk, bp) && Asize(n) <= h1.blk[bp].size
      requires Clean(h2) && Live(h2) == Live(h1)[bp := Taken(h1.blk[bp].size, Asize(n))] && Asize(n) % 8 == 0
      ensures bp !in Live(h0) && bp in Live(h2) && Live(h2) == Live(h0)[bp := Live(h2)[bp]]
      ensures Live(h2)[bp] == Taken(h1.blk[bp].size, Asize(n)) && Handed(Asize(n), Live(h2)[bp]) && bp != 0
    {
      FreeInside(h1.blk, h1.brk, bp);
      if h1.blk[bp].size - Asize(n) < 16 { Remainder(h1.blk[bp].size, Asize(n)); }
    }

    /** Frees a live block; NULL is ignored, and a call before mm_init only initialises. */
    method MmFree(bp: int)
      requires bp == 0 || (Raw() && 128 <= 4 * mem.Length) || (Valid() && bp in Live(h))
      modifies this, mem
      ensures bp == 0 ==> h == old(h) && mem[..] == old(mem[..]) && brk == old(brk)
      ensures bp == 0 ==> heapListp == old(heapListp) && list0 == old(list0) && (old(Valid()) ==> Valid())
      ensures bp != 0 && old(heapListp) != 0 ==> Valid() && FreeSpec(old(h), bp, h)
      ensures bp != 0 && old(heapListp) == 0 ==> Valid() && Live(h) == map[]
    {
      if bp == 0 { return; }
      if heapListp == 0 {
        var rc := MmInit();
        return;
      }
      ghost var h0 := h;
      MarkFree(bp);
      ghost var m1 := h.m;
      var r := Coalesce(bp);
      PayloadsTrans(h0.m, m1, h.m, Live(h));
    }

    /** Header, footer and successor bit of a block being freed. */
    method MarkFree(bp: int)
      requires Valid() && bp in Live(h)
      modifies mem, `h
      ensures Set() && Pending(h, bp) && h.brk == old(h).brk && h.blk[bp].size == old(h).blk[bp].size
      ensures Live(h) == Live(old(h)) - {bp} && SamePayloads(old(h).m, h.m, Live(h))
      ensures FreeBefore(h, bp) == FreeBefore(old(h), bp)
      ensures var n := bp + h.blk[bp].size; n in h.blk && n in old(h).blk && FreeAt(h, n) == FreeAt(old(h), n)
    {
      ghost var h0, b := h, Block(h.blk[bp].size, false, h.blk[bp].prevAlloc);
      assert FIRST_BLOCK <= bp && bp + b.size <= brk && b.size >= MIN_BLOCK by { assert Placed(h.blk, h.brk, bp); }
      assert b.size % 8 == 0 by { assert Placed(h.blk, h.brk, bp); }
      BlockCells(h.blk, bp);
      assert SizeOf(Rd(h.m, bp - 4)) == b.size && PrevAllocOf(Rd(h.m, bp - 4)) == b.prevAlloc by {
        assert BlockOk(h, bp);
        SizeRead(bp);
        BitsRead(bp);
      }
      assert 0 <= Tag(b) < TWO32 && SizeOf(Tag(b)) == b.size by { TagDecodes(b); }
      var size := GetSize(bp - 4);
      var bitStatus := if GetPrevFreeStatus(bp) then 2 else 0;
      WriteTags(bp, size, Pack(size, bitStatus));
      assert h.m == FreeWords(h0, bp);
      FreePends(h0, bp);
      h := h.(blk := FreeBlk(h.blk, bp));
    }

    /** Header and footer t of the free block at bp, and the successor bit that says it is free. */
    method WriteTags(bp: int, size: int, t: int)
      requires Ok() && 4 <= bp && Cell(bp - 4) && MIN_BLOCK <= size && bp + size <= brk && Cell(bp + size - 4)
      requires 0 <= t < TWO32 && SizeOf(t) == size
      modifies mem, `h
      ensures Ok() && h == old(h).(m := RestWords(old(h).m, bp, size, t))
    {
      Put(bp - 4, t);
      Put(FooterPtr(bp), t);
      SetNextHeaderF(bp);
    }

    // ------------------------------------------------------------------- reallocating

    /** memcpy: n bytes from src to dst, word by word, the last word in part. */
    method MemCopy(dst: int, src: int, n: int)
      requires Ok() && 0 <= n && Cell(src) && src + n <= brk && Cell(dst) && dst + n + 3 <= brk
      requires src + n <= dst || dst + n + 3 <= src
      modifies mem, `h
      ensures Ok() && h == old(h).(m := h.m)
      ensures OnlyWithin(old(h).m, h.m, dst, dst + n) && Copied(old(h).m, src, h.m, dst, n)
    {
      ghost var m0 := h.m;
      var i := 0;
      while i + 4 <= n
        invariant 0 <= i <= n && Cell(i) && Ok() && h == old(h).(m := h.m)
        invariant OnlyWithin(m0, h.m, dst, dst + i) && Copied(m0, src, h.m, dst, i)
      {
        ghost var m1 := h.m;
        CellSum(dst, i);
        CellSum(src, i);
        Put(dst + i, Get(src + i));
        CopyWithin(m0, m1, dst, i, i + 4, Rd(h.m, dst + i));
        CopyStep(m0, m1, h.m, dst, src, i, i + 4, Rd(h.m, dst + i));
        i := i + 4;
      }
      if i < n {
        ghost var m1 := h.m;
        CellSum(dst, i);
        CellSum(src, i);
        MergeInRange(Get(dst + i), Get(src + i), n - i);
        Put(dst + i, MergeBytes(Get(dst + i), Get(src + i), n - i));
        CopyWithin(m0, m1, dst, i, n, Rd(h.m, dst + i));
        CopyStep(m0, m1, h.m, dst, src, i, n, Rd(h.m, dst + i));
      }
    }

    /** A byte below the word just written is as it was. */
    static lemma WordBefore(m1: Memory, m2: Memory, dst: int, i: int, j: int)
      requires Cell(dst) && Cell(i) && 0 <= j < i
      requires forall a :: a != dst + i ==> Rd(m2, a) == Rd(m1, a)
      ensures CopiedByte(m1, dst, m2, dst, j)
    {
      var k := WordStart(j);
      CellIsMultiple(i);
      CellIsMultiple(k);
      WordCopied(m1, dst, m2, dst, k, j);
    }

    static lemma CopyWithin(m0: Memory, m1: Memory, dst: int, i: int, n: int, w: Word)
      requires OnlyWithin(m0, m1, dst, dst + i) && 0 <= i < n
      ensures OnlyWithin(m0, m1[dst + i := w], dst, dst + n)
    {
      forall a ensures Rd(m1[dst + i := w], a) == Rd(m0, a) || dst <= a < dst + n {
        assert Rd(m1, a) == Rd(m0, a) || dst <= a < dst + i;
      }
    }

    /** One word of the copy: w holds the next bytes and nothing copied before is lost. */
    static lemma CopyStep(m0: Memory, m1: Memory, m2: Memory, dst: int, src: int, i: int, n: int, w: Word)
      requires Cell(dst) && Cell(src) && Cell(i) && i < n <= i + 4
      requires OnlyWithin(m0, m1, dst, dst + i) && Copied(m0, src, m1, dst, i)
      requires m2 == m1[dst + i := w]
      requires src + i < dst || dst + i <= src + i
      requires w == (if n == i + 4 then Rd(m0, src + i) else MergeBytes(Rd(m1, dst + i), Rd(m0, src + i), n - i))
      ensures Copied(m0, src, m2, dst, n)
    {
      forall j | 0 <= j < n ensures CopiedByte(m0, src, m2, dst, j) {
        if j < i {
          assert CopiedByte(m0, src, m1, dst, j);
          WordBefore(m1, m2, dst, i, j);
        } else if n == i + 4 {
          WordCopied(m0, src, m2, dst, i, j);
        } else {
          MergedByte(Rd(m1, dst + i), Rd(m0, src + i), n - i, j - i);
          assert ByteOf(Rd(m2, dst + i), j - i) == ByteOf(Rd(m0, src + i), j - i);
          ByteIn(m2, dst, i, j);
          ByteIn(m0, src, i, j);
        }
      }
    }

    /** With a live pointer and a non-zero size: a new block with the old contents, the old block freed.
        The source copies through NULL when the inner malloc fails, and past the end of the new block
        when the size wrapped; here the copy is then not made and a fault is reported. */
    method MmRealloc(ptr: int, size: int) returns (newptr: int, fault: bool)
      requires Valid() && 0 <= size && (ptr == 0 || ptr in Live(h))
      modifies this, mem
      ensures Valid()
      ensures ReallocContract(old(h), ptr, size, 4 * mem.Length, h, newptr, fault)
    {
      fault := false;
      if size == 0 {
        MmFree(ptr);
        return 0, false;
      }
      if ptr == 0 {
        newptr := MmMalloc(size);
        return;
      }
      assert BlockOk(h, ptr) && Placed(h.blk, h.brk, ptr);
      SizeRead(ptr);
      var oldsize := GetSize(ptr - 4);
      if oldsize <= size {
        newptr, fault := Move(ptr, size, oldsize, size);
      } else {
        newptr, fault := Move(ptr, oldsize, size, size);
      }
    }

    /** Both branches of mm_realloc: allocate request bytes, copy, free. */
    method Move(ptr: int, request: int, count: int, ghost size: int) returns (newptr: int, fault: bool)
      requires Valid() && ptr in Live(h) && 0 < size
      requires request == Request(Live(h)[ptr], size) && count == Count(Live(h)[ptr], size)
      modifies this, mem
      ensures Valid()
      ensures ReallocContract(old(h), ptr, size, 4 * mem.Length, h, newptr, fault)
    {
      ghost var h0 := h;
      assert Placed(h.blk, h.brk, ptr);
      newptr := MmMalloc(request);
      if newptr == 0 { return 0, true; }
      ghost var h1 := h;
      TwoLive(h, ptr, newptr);
      assert BlockOk(h, newptr);
      SizeRead(newptr);
      if count > GetSize(newptr - 4) - 4 { return newptr, true; }
      ghost var h2 := CopyAndFree(ptr, newptr, count);
      fault := false;
      MoveDone(h0, ptr, request, count, size, h1, h2, h, newptr);
    }

    /** The old contents go to the new block, and the old block is freed; h2 is the heap in between. */
    method CopyAndFree(ptr: int, newptr: int, count: int) returns (ghost h2: Heap)
      requires Valid() && ptr in Live(h) && newptr in Live(h) && ptr != newptr
      requires 0 <= count <= Live(h)[ptr] && count + 4 <= Live(h)[newptr]
      modifies this, mem
      ensures Valid() && h.brk == old(h).brk
      ensures Live(h2) == Live(old(h)) && SamePayloads(old(h).m, h2.m, Live(old(h)) - {newptr})
      ensures Copied(old(h).m, ptr, h2.m, newptr, count)
      ensures Live(h) == Live(h2) - {ptr} && SamePayloads(h2.m, h.m, Live(h))
    {
      ghost var h1 := h;
      TwoLive(h, ptr, newptr);
      MemCopy(newptr, ptr, count);
      ClientWrite(h1, newptr, h.m);
      h2 := h;
      MmFree(ptr);
    }

    static lemma TwoLive(h: Heap, p: int, q: int)
      requires Clean(h) && p in Live(h) && q in Live(h) && p != q
      ensures Cell(p) && Cell(q) && FIRST_BLOCK <= p && FIRST_BLOCK <= q
      ensures p + Live(h)[p] <= h.brk && q + Live(h)[q] <= h.brk
      ensures p + Live(h)[p] <= q || q + Live(h)[q] <= p
    {
      assert Placed(h.blk, h.brk, p) && Placed(h.blk, h.brk, q);
      assert Apart(h.blk, p, q) && Apart(h.blk, q, p);
      OctCell(p);
      OctCell(q);
    }

    static lemma MoveDone(h0: Heap, p: int, request: int, count: int, size: int, h1: Heap, h2: Heap, h3: Heap, r: int)
      requires Clean(h0) && p in Live(h0) && r !in Live(h0) && r in Live(h1) && Live(h1) == Live(h0)[r := Live(h1)[r]]
      requires SamePayloads(h0.m, h1.m, Live(h0)) && Handed(Asize(request), Live(h1)[r]) && count + 4 <= Live(h1)[r]
      requires Live(h1)[r] == GivenSize(h0, Asize(request))
      requires 0 < size && request == Request(Live(h0)[p], size) && count == Count(Live(h0)[p], size)
      requires Live(h2) == Live(h1) && SamePayloads(h1.m, h2.m, Live(h1) - {r}) && Copied(h1.m, p, h2.m, r, count)
      requires Clean(h1) && Clean(h3) && Live(h3) == Live(h2) - {p} && SamePayloads(h2.m, h3.m, Live(h3))
      requires h3.brk == if NoFit(h0, Asize(request)) then h0.brk + Max(Asize(request), 128) else h0.brk
      ensures ReallocSpec(h0, p, size, h3, r)
    {
      var osz := Live(h0)[p];
      var rest := Live(h0) - {p};
      if osz <= size { AsizeIsLeast(size); }
      assert Live(h3) == rest[r := Live(h1)[r]];
      assert Cell(p) && Cell(r) by { TwoLive(h1, p, r); }
      assert SamePayloads(h0.m, h3.m, rest) by { MovePayloads(h0.m, h1.m, h2.m, h3.m, Live(h0), Live(h1), p, r); }
      assert p in Live(h0) && SameWords(h0.m, h1.m, p, p + osz - 4);
      assert r in Live(h3) && SameWords(h2.m, h3.m, r, r + Live(h3)[r] - 4);
      MoveBytes(h0.m, h1.m, h2.m, h3.m, p, osz - 4, r, Live(h3)[r] - 4, count);
    }

    /** The other payloads survive the malloc, the copy and the free. */
    static lemma MovePayloads(m0: Memory, m1: Memory, m2: Memory, m3: Memory, live: map<int, int>, more: map<int, int>,
                              p: int, r: int)
      requires r !in live && r in more && more == live[r := more[r]] && p in live
      requires SamePayloads(m0, m1, live) && SamePayloads(m1, m2, more - {r}) && SamePayloads(m2, m3, more - {p})
      ensures SamePayloads(m0, m3, live - {p})
    {
      var rest := live - {p};
      PayloadsOfFewer(m0, m1, live, rest);
      PayloadsOfFewer(m1, m2, more - {r}, rest);
      PayloadsOfFewer(m2, m3, more - {p}, rest);
      PayloadsTrans(m0, m1, m2, rest);
      PayloadsTrans(m0, m2, m3, rest);
    }

    /** The bytes copied were those before the malloc, and survive the free. */
    static lemma MoveBytes(m0: Memory, m1: Memory, m2: Memory, m3: Memory, p: int, k: int, r: int, l: int, count: int)
      requires Cell(p) && Cell(r) && SameWords(m0, m1, p, p + k) && SameWords(m2, m3, r, r + l)
      requires Copied(m1, p, m2, r, count)
      ensures var n := if k < count then k else count;
        Copied(m0, p, m3, r, if n < l then n else l)
    {
      SameWordsCopied(m0, m1, p, p + k);
      SameWordsCopied(m2, m3, r, r + l);
      CopiedTrans(m0, p, m1, p, m2, r, k, count);
      CopiedTrans(m0, p, m2, r, m3, r, if k < count then k else count, l);
    }

    // ------------------------------------------------------------------ initialising

    /** Prologue, empty lists, epilogue and a first free block; the first request for memory is granted. */
    method MmInit() returns (rc: int)
      requires Raw() && 128 <= 4 * mem.Length
      modifies this, mem
      ensures rc == if 640 <= 4 * mem.Length then 0 else -1
      ensures Valid() && Live(h) == map[] && brk == if rc == 0 then 640 else 128
    {
      Prologue();
      var p := ExtendHeap(512 / 4);
      if p == 0 { return -1; }
      assert BlockOk(h, 8);
      assert PrevAllocOf(Rd(h.m, 124)) && SizeOf(Rd(h.m, 4)) == 120 by {
        assert Placed(h.blk, h.brk, 8) && BlockOk(h, 128);
        TagDecodes(h.blk[8]);
        assert Placed(h.blk, h.brk, 128);
        TagDecodes(h.blk[128]);
      }
      ghost var h1 := h;
      SetNextHeaderA(list0);
      assert 124 in h1.m && h.m == h1.m;
      return 0;
    }

    /** Everything mm_init writes before it asks for the first block. */
    method Prologue()
      requires Raw() && 128 <= 4 * mem.Length
      modifies this, mem
      ensures Valid() && Live(h) == map[] && brk == 128
    {
      CellIsMultiple(128);
      heapListp := Sbrk(PROLOGUE_SIZE + 8);
      ClearLists();
      CloseProlog();
      list0 := heapListp + 8;
      heapListp := heapListp + 8;
      RootCell(0);
      Put(list0 + 4, 0);
      ghost var m1 := h.m;
      assert SizeOf(121) == 120 && SetPrevAlloc(1) == 3 by { LowBitsIsMod(121); }
      SetNextHeaderA(list0);
      assert h.m == m1[124 := 3];
      h := Heap(h.m, brk, map[8 := Block(PROLOGUE_SIZE, true, false), 128 := Block(0, true, true)], map[], 0);
      EmptyHeapClean(h);
    }

    /** The prologue footer and the epilogue. */
    method CloseProlog()
      requires Ok() && heapListp == 0 && brk == 128
      modifies mem, `h
      ensures Ok() && h == old(h).(m := old(h).m[120 := 121][124 := 1])
    {
      CellIsMultiple(124);
      Put(heapListp + PROLOGUE_SIZE, Pack(PROLOGUE_SIZE, 1));
      Put(heapListp + 4 + PROLOGUE_SIZE, Pack(0, 1));
    }

    /** The padding word, the prologue header and the 28 words of list headers. */
    method ClearLists()
      requires Ok() && heapListp == 0 && brk == 128
      modifies mem, `h
      ensures Ok() && h.brk == old(h).brk && Rd(h.m, 4) == 121
      ensures forall k {:trigger Root(k)} :: 0 <= k < NUM_LISTS ==> Rd(h.m, Root(k) + 4) == 0
    {
      assert Cell(0) && Cell(4);
      Put(heapListp, 0);
      Put(heapListp + 4, Pack(PROLOGUE_SIZE, 1));
      for i := 0 to 2 * NUM_LISTS
        invariant Ok() && heapListp == 0 && brk == 128 && Rd(h.m, 4) == 121
        invariant Cell(8 + i * 4)
        invariant forall k {:trigger Root(k)} :: 0 <= k && Root(k) + 4 < 8 + 4 * i ==> Rd(h.m, Root(k) + 4) == 0
      {
        Put(heapListp + 8 + i * 4, 0);
      }
    }
  }

  lemma EmptyHeapClean(h: Heap)
    requires h.brk == 128 && h.nodes == map[] && h.clock == 0
    requires h.blk == map[8 := Block(PROLOGUE_SIZE, true, false), 128 := Block(0, true, true)]
    requires Rd(h.m, 4) == 121 && Rd(h.m, 124) == 3
    requires forall k {:trigger Root(k)} :: 0 <= k < NUM_LISTS ==> Rd(h.m, Root(k) + 4) == 0
    ensures Clean(h) && Live(h) == map[]
  {
    forall k ensures RootOk(h.m, h.nodes, k) { }
    assert Placed(h.blk, h.brk, 8) && Placed(h.blk, h.brk, 128);
    forall p ensures BlockOk(h, p) { }
  }
}
