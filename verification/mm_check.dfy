/** The heap checker of mm.c: every message it would print is counted, and none is. */
module HeapChecker {
  import opened HeapWords
  import opened HeapModel
  import opened FreeLists
  import opened Allocator

  lemma BlockCell(a: Mm, p: int)
    requires a.Valid() && p in a.h.blk
    ensures 0 <= p - 4 < a.brk && Cell(p - 4) && p % 8 == 0
    ensures if p == a.brk then a.h.blk[p].size == 0 && a.h.blk[p].alloc
      else MIN_BLOCK <= a.h.blk[p].size && p + a.h.blk[p].size in a.h.blk
    ensures Rd(a.h.m, p - 4) == Tag(a.h.blk[p])
    ensures SizeOf(Rd(a.h.m, p - 4)) == a.h.blk[p].size && AllocOf(Rd(a.h.m, p - 4)) == a.h.blk[p].alloc
  {
    assert Placed(a.h.blk, a.h.brk, p) && BlockOk(a.h, p);
    a.BlockCells(a.h.blk, p);
    HeaderReads(a.h, p);
  }

  /** What checkblock finds wrong with the block at bp: alignment, least size (but of the prologue),
      unequal tags of a free block, and a free block after a free one. */
  function BlockErrors(m: Memory, bp: int, list0: int): int {
    var header := Rd(m, bp - 4);
    var size := SizeOf(header);
    (if bp % 8 != 0 then 1 else 0)
    + (if bp != list0 && size < 16 then 1 else 0)
    + (if !AllocOf(header) && header != Rd(m, bp + size - 8) then 1 else 0)
    + (if !AllocOf(header) && !AllocOf(Rd(m, bp + size - 4)) then 1 else 0)
  }

  /** The words checkblock reads lie in the heap. */
  ghost predicate Readable(a: Mm, bp: int)
    reads a
  {
    var header := Rd(a.h.m, bp - 4);
    var size := SizeOf(header);
    && 0 <= bp - 4 < a.brk && Cell(bp - 4)
    && (!AllocOf(header) ==>
        && 0 <= bp + size - 8 && bp + size - 4 < a.brk && Cell(bp + size - 8) && Cell(bp + size - 4))
  }

  /** Every test of checkblock, on any heap where the block can be read. */
  method CheckBlock(a: Mm, bp: int) returns (errors: int)
    requires a.Ok() && Readable(a, bp)
    ensures errors == BlockErrors(a.h.m, bp, a.list0)
  {
    errors := 0;
    if bp % 8 != 0 { errors := errors + 1; }
    if bp != a.list0 {
      if a.GetSize(bp - 4) < MIN_BLOCK { errors := errors + 1; }
    }
    if !a.GetAlloc(bp - 4) {
      if a.Get(bp - 4) != a.Get(a.FooterPtr(bp)) { errors := errors + 1; }
    }
    if !a.GetAlloc(bp - 4) {
      if !a.GetAlloc(a.NextBlockPtr(bp) - 4) { errors := errors + 1; }
    }
  }

  /** None of them fires on a valid heap. */
  lemma NoBlockErrors(a: Mm, bp: int)
    requires a.Valid() && bp in a.h.blk && bp != a.brk
    ensures Readable(a, bp) && BlockErrors(a.h.m, bp, a.list0) == 0
  {
    BlockCell(a, bp);
    var n := bp + a.h.blk[bp].size;
    BlockCell(a, n);
    assert BlockOk(a.h, bp) && BlockOk(a.h, n);
    if !a.h.blk[bp].alloc {
      FreeInside(a.h.blk, a.h.brk, bp);
      assert Cell(n - 8) by { assert Cell(n - 4 - 4); }
    }
  }

  /** The nodes of the lists below k. */
  ghost function Lengths(h: Heap, k: int): int
    requires ListsOk(h.m, h.nodes, h.clock) && 0 <= k <= NUM_LISTS
  {
    if k == 0 then 0 else Lengths(h, k - 1) + |ListOf(h, k - 1)|
  }

  ghost function NodesBelow(h: Heap, k: int): set<int> {
    set y | y in h.nodes && h.nodes[y].list < k
  }

  lemma {:induction false} DistinctLength(s: seq<int>)
    requires forall i, j :: 0 <= i < j < |s| ==> s[i] != s[j]
    ensures |set y | y in s| == |s|
  {
    if s != [] {
      var t := s[..|s| - 1];
      DistinctLength(t);
      assert (set y | y in s) == (set y | y in t) + {s[|s| - 1]};
    }
  }

  lemma BelowNext(h: Heap, j: int, k: int)
    requires ListsOk(h.m, h.nodes, h.clock) && 0 <= j < NUM_LISTS && k == j + 1
    ensures |NodesBelow(h, k)| == |NodesBelow(h, j)| + |ListOf(h, j)|
  {
    ListAsSet(h, j);
    var s := ListOf(h, j);
    var met := set y | y in s;
    var fewer := NodesBelow(h, j);
    forall y ensures y in met <==> y in h.nodes && h.nodes[y].list == j {
      assert y in met <==> y in s;
    }
    forall y ensures y in NodesBelow(h, k) <==> y in fewer || y in met { }
    assert NodesBelow(h, k) == fewer + met && fewer !! met;
  }

  /** The lengths of the lists add up to the number of nodes. */
  lemma {:induction false} LengthsCountNodes(h: Heap, k: int)
    requires ListsOk(h.m, h.nodes, h.clock) && 0 <= k <= NUM_LISTS
    ensures Lengths(h, k) == |NodesBelow(h, k)|
    ensures k == NUM_LISTS ==> NodesBelow(h, k) == h.nodes.Keys
  {
    if k > 0 {
      LengthsCountNodes(h, k - 1);
      BelowNext(h, k - 1, k);
    }
    if k == NUM_LISTS {
      forall y | y in h.nodes ensures h.nodes[y].list < k { assert LinkOk(h.m, h.nodes, h.clock, y); }
    } else if k == 0 {
      forall y | y in h.nodes ensures 0 <= h.nodes[y].list { assert LinkOk(h.m, h.nodes, h.clock, y); }
    }
  }

  lemma ListAsSet(h: Heap, k: int)
    requires ListsOk(h.m, h.nodes, h.clock) && 0 <= k < NUM_LISTS
    ensures |set y | y in ListOf(h, k)| == |ListOf(h, k)|
    ensures forall y :: y in ListOf(h, k) <==> y in h.nodes && h.nodes[y].list == k
  {
    ListIsChain(h, k);
    DistinctLength(ListOf(h, k));
    forall y | y in h.nodes && h.nodes[y].list == k ensures y in ListOf(h, k) { WalkMeetsAll(h, y); }
  }

  /** The first walk of checklist: back links, and the number of nodes. */
  method CheckLinks(a: Mm) returns (errors: int, count: int)
    requires a.Valid()
    ensures errors == 0 && count == |a.h.nodes|
  {
    errors, count := 0, 0;
    ghost var k := 0;
    var header := a.list0;
    while header != 0
      invariant 0 <= k <= NUM_LISTS && header == (if k < NUM_LISTS then Root(k) else 0)
      invariant errors == 0 && count == Lengths(a.h, k)
      decreases NUM_LISTS - k
    {
      var e, c := WalkList(a, header, k);
      errors, count := errors + e, count + c;
      header := a.GetNextHeader(header);
      k := k + 1;
    }
    LengthsCountNodes(a.h, NUM_LISTS);
  }

  method WalkList(a: Mm, header: int, ghost k: int) returns (errors: int, count: int)
    requires a.Valid() && 0 <= k < NUM_LISTS && header == Root(k)
    ensures errors == 0 && count == |ListOf(a.h, k)|
  {
    errors, count := 0, 0;
    ghost var met: seq<int> := [];
    var p := header;
    RootNext(a, k);
    while a.GetNextPtr(p) != 0
      invariant 0 <= p < a.brk - 4 && Cell(p + 4) && AtNode(a.h, p, k)
      invariant errors == 0 && count == |met|
      invariant met + NodesFrom(a.h, Next(a.h, p)) == ListOf(a.h, k)
      decreases |NodesFrom(a.h, Next(a.h, p))|
    {
      var n := a.GetNextPtr(p);
      NextNode(a, n, k);
      if p != a.GetPrevPtr(n) { errors := errors + 1; }
      p := n;
      count := count + 1;
      met := met + [n];
    }
    assert NodesFrom(a.h, 0) == [];
  }

  ghost function Next(h: Heap, p: int): int { Rd(h.m, p + 4) }

  /** The node after p, if any, is a node of list k linked back to p. */
  ghost predicate AtNode(h: Heap, p: int, k: int) {
    Next(h, p) != 0 ==>
      Next(h, p) in h.nodes && h.nodes[Next(h, p)].list == k && Rd(h.m, Next(h, p)) == p
  }

  lemma RootNext(a: Mm, k: int)
    requires a.Valid() && 0 <= k < NUM_LISTS
    ensures Cell(Root(k) + 4) && 8 <= Root(k) < a.brk - 4 && AtNode(a.h, Root(k), k)
    ensures ListOf(a.h, k) == NodesFrom(a.h, Next(a.h, Root(k)))
  {
    a.RootCell(k);
    assert RootOk(a.h.m, a.h.nodes, k) && a.h.brk >= FIRST_BLOCK;
  }

  lemma NextNode(a: Mm, n: int, k: int)
    requires a.Valid() && n in a.h.nodes && a.h.nodes[n].list == k
    ensures 0 < n < a.brk - 4 && Cell(n) && Cell(n + 4) && AtNode(a.h, n, k)
    ensures NodesFrom(a.h, n) == [n] + NodesFrom(a.h, Next(a.h, n))
  {
    assert LinkOk(a.h.m, a.h.nodes, a.h.clock, n) && Agrees(a.h.blk, a.h.nodes, NONE, n);
    a.InBounds(n);
  }

  ghost function FreeUpTo(h: Heap, p: int): set<int> {
    set y | y in h.blk && !h.blk[y].alloc && y <= p
  }

  lemma UpToNext(h: Heap, q: int, p: int)
    requires Clean(h) && q in h.blk && p in h.blk && p == q + h.blk[q].size && q != h.brk
    ensures q < p && FreeUpTo(h, p) == FreeUpTo(h, q) + if h.blk[p].alloc then {} else {p}
  {
    assert Placed(h.blk, h.brk, q);
    forall y | y in h.blk && y <= p && y != p ensures y <= q { assert Apart(h.blk, q, y); }
  }

  /** Between the free blocks and the list nodes there is no difference. */
  lemma FreeIsListed(h: Heap)
    requires Clean(h)
    ensures FreeUpTo(h, h.brk) == h.nodes.Keys && FreeUpTo(h, 8) == {}
  {
    forall y ensures y in FreeUpTo(h, h.brk) <==> y in h.nodes {
      assert Agrees(h.blk, h.nodes, NONE, y);
      assert y in h.blk ==> Placed(h.blk, h.brk, y);
    }
    forall y | y in h.blk && y <= 8 ensures y == 8 { assert Placed(h.blk, h.brk, y); }
  }

  /** The second walk of checklist: the free blocks of the implicit list. */
  method CountFree(a: Mm) returns (count: int)
    requires a.Valid()
    ensures count == |a.h.nodes|
  {
    count := 0;
    var p := a.list0;
    FreeIsListed(a.h);
    BlockCell(a, 8);
    while p != 0
      invariant p in a.h.blk && p != a.brk && 8 <= p && count == |FreeUpTo(a.h, p)|
      decreases a.brk - p
    {
      BlockCell(a, p);
      ghost var q := p;
      p := a.NextBlockPtr(p);
      BlockCell(a, p);
      UpToNext(a.h, q, p);
      if !a.GetAlloc(p - 4) {
        count := count + 1;
      }
      if a.GetSize(p - 4) == 0 { break; }
    }
    assert count == |FreeUpTo(a.h, a.brk)|;
  }

  /** The third walk of checklist: every node lies between the bounds of the heap. */
  method CheckRange(a: Mm) returns (errors: int)
    requires a.Valid()
    ensures errors == 0
  {
    errors := 0;
    ghost var k := 0;
    var header := a.list0;
    while header != 0
      invariant 0 <= k <= NUM_LISTS && header == (if k < NUM_LISTS then Root(k) else 0) && errors == 0
      decreases NUM_LISTS - k
    {
      var p := header;
      RootNext(a, k);
      while a.GetNextPtr(p) != 0
        invariant 0 <= p < a.brk - 4 && Cell(p + 4) && errors == 0 && AtNode(a.h, p, k)
        decreases |NodesFrom(a.h, Next(a.h, p))|
      {
        NextNode(a, a.GetNextPtr(p), k);
        if p < 0 || p > a.brk - 1 { errors := errors + 1; }
        p := a.GetNextPtr(p);
      }
      header := a.GetNextHeader(header);
      k := k + 1;
    }
  }

  /** The lists can be walked and the sizes of their nodes read, wherever those belong. */
  ghost predicate Walkable(a: Mm)
    reads a, a.mem
  {
    && a.Set() && Tiled(a.h.blk, a.h.brk) && ListsOk(a.h.m, a.h.nodes, a.h.clock)
    && forall p :: p in a.h.nodes ==> IsFree(a.h.blk, p) && HeaderOk(a.h.m, a.h.blk, p)
  }

  /** How many of the nodes have a size that does not belong in list k. */
  ghost function Misplaced(h: Heap, s: seq<int>, k: int): int {
    if s == [] then 0
    else (if s[0] in h.blk && Class(h.blk[s[0]].size) != k then 1 else 0) + Misplaced(h, s[1..], k)
  }

  ghost function MisplacedBelow(h: Heap, k: int): int
    requires ListsOk(h.m, h.nodes, h.clock) && 0 <= k <= NUM_LISTS
  {
    if k == 0 then 0 else MisplacedBelow(h, k - 1) + Misplaced(h, ListOf(h, k - 1), k - 1)
  }

  /** The fourteen bucket walks of checklist count the nodes that are in the wrong list. */
  method CheckBuckets(a: Mm) returns (errors: int)
    requires Walkable(a)
    ensures errors == MisplacedBelow(a.h, NUM_LISTS)
  {
    errors := 0;
    var header := a.list0;
    for k := 0 to NUM_LISTS
      invariant header == (if k < NUM_LISTS then Root(k) else 0) && errors == MisplacedBelow(a.h, k)
    {
      var e := CheckBucket(a, header, k);
      errors := errors + e;
      header := a.GetNextHeader(header);
    }
  }

  method CheckBucket(a: Mm, header: int, k: int) returns (errors: int)
    requires Walkable(a) && 0 <= k < NUM_LISTS && header == Root(k)
    ensures errors == Misplaced(a.h, ListOf(a.h, k), k)
  {
    errors := 0;
    a.RootCell(k);
    assert RootOk(a.h.m, a.h.nodes, k);
    var q := a.GetNextPtr(header);
    while q != 0
      invariant q != 0 ==> q in a.h.nodes
      invariant errors + Misplaced(a.h, NodesFrom(a.h, q), k) == Misplaced(a.h, ListOf(a.h, k), k)
      decreases |NodesFrom(a.h, q)|
    {
      assert LinkOk(a.h.m, a.h.nodes, a.h.clock, q);
      a.SizeRead(q);
      a.InBounds(q);
      FreeInside(a.h.blk, a.h.brk, q);
      var size := a.GetSize(q - 4);
      ClassBounds(size, k);
      assert NodesFrom(a.h, q)[1..] == NodesFrom(a.h, Rd(a.h.m, q + 4));
      if size < ClassLow(k) || (k < NUM_LISTS - 1 && size >= ClassLow(k + 1)) { errors := errors + 1; }
      q := a.GetNextPtr(q);
    }
  }

  /** On a valid heap there are none. */
  lemma {:induction false} NoneMisplaced(h: Heap, k: int)
    requires Clean(h) && 0 <= k <= NUM_LISTS
    ensures MisplacedBelow(h, k) == 0
  {
    if k > 0 {
      NoneMisplaced(h, k - 1);
      ListsAreFreeBlocks(h, k - 1);
      var s := ListOf(h, k - 1);
      forall i | 0 <= i < |s| ensures s[i] in h.blk && Class(h.blk[s[i]].size) == k - 1 { assert s[i] in s; }
      NoneInList(h, ListOf(h, k - 1), k - 1);
    }
  }

  lemma {:induction false} NoneInList(h: Heap, s: seq<int>, k: int)
    requires forall i :: 0 <= i < |s| ==> s[i] in h.blk && Class(h.blk[s[i]].size) == k
    ensures Misplaced(h, s, k) == 0
  {
    if s != [] { NoneInList(h, s[1..], k); }
  }

  lemma ValidWalkable(a: Mm)
    requires a.Valid()
    ensures Walkable(a)
  {
    forall p | p in a.h.nodes ensures IsFree(a.h.blk, p) && HeaderOk(a.h.m, a.h.blk, p) {
      assert Agrees(a.h.blk, a.h.nodes, NONE, p) && BlockOk(a.h, p);
    }
  }

  method CheckList(a: Mm) returns (errors: int)
    requires a.Valid()
    ensures errors == 0
  {
    var count1, count2;
    errors, count1 := CheckLinks(a);
    count2 := CountFree(a);
    if count1 != count2 { errors := errors + 1; }
    var e := CheckRange(a);
    errors := errors + e;
    ValidWalkable(a);
    NoneMisplaced(a.h, NUM_LISTS);
    e := CheckBuckets(a);
    errors := errors + e;
  }

  /** On every valid heap the whole check ends, returns 0 and prints no error. */
  method MmCheckHeap(a: Mm) returns (rc: int, errors: int)
    requires a.Valid()
    ensures rc == 0 && errors == 0
  {
    rc, errors := 0, 0;
    BlockCell(a, 8);
    if a.GetSize(a.heapListp - 4) != PROLOGUE_SIZE {
      rc := 1;
    } else if !a.GetAlloc(a.heapListp - 4) {
      rc := 2;
    } else {
      NoBlockErrors(a, 8);
      var e := CheckBlock(a, a.heapListp);
      errors := errors + e;
      var bp := a.heapListp;
      while a.GetSize(bp - 4) > 0
        invariant bp in a.h.blk && 0 <= bp - 4 < a.brk && Cell(bp - 4) && errors == 0
        invariant SizeOf(Rd(a.h.m, bp - 4)) == a.h.blk[bp].size
        decreases a.brk - bp
      {
        BlockCell(a, bp);
        NoBlockErrors(a, bp);
        e := CheckBlock(a, bp);
        errors := errors + e;
        bp := a.NextBlockPtr(bp);
        BlockCell(a, bp);
      }
      BlockCell(a, bp);
      if a.GetSize(bp - 4) != 0 || !a.GetAlloc(bp - 4) {
        rc := 3;
      } else {
        e := CheckList(a);
        errors := errors + e;
      }
    }
  }
}
