/** Segregated free lists: what one insertion, one removal and one walk do to the links. */
module FreeLists {
  import opened HeapWords
  import opened HeapModel

  // ----------------------------------------------------------------- one insertion

  function InsertWords(m: Memory, bp: Word, k: int): Memory
    requires 0 <= k < NUM_LISTS
  {
    var n := Rd(m, Root(k) + 4);
    var m1 := m[bp + 4 := n];
    var m2 := if n != 0 then m1[n := bp] else m1;
    m2[Root(k) + 4 := bp][bp := Root(k)]
  }

  lemma InsertKeepsLists(m: Memory, nodes: map<int, Node>, clock: int, bp: Word, k: int)
    requires ListsOk(m, nodes, clock)
    requires bp !in nodes && bp % 8 == 0 && FIRST_BLOCK <= bp && 0 <= k < NUM_LISTS
    ensures ListsOk(InsertWords(m, bp, k), nodes[bp := Node(k, clock)], clock + 1)
    ensures OnlyLinks(m, InsertWords(m, bp, k), nodes[bp := Node(k, clock)])
  {
    var n: int := Rd(m, Root(k) + 4);
    var m', nodes', clock' := InsertWords(m, bp, k), nodes[bp := Node(k, clock)], clock + 1;
    assert RootOk(m, nodes, k) && LinkOk(m, nodes, clock, n);
    forall a ensures Rd(m', a) == if a == bp then Root(k) else if a == bp + 4 then n
        else if a == Root(k) + 4 then bp else if a == n && n != 0 then bp else Rd(m, a) { }
    assert IsLinkWord(nodes', bp + 4) && IsLinkWord(nodes', Root(k) + 4);
    forall p ensures LinkOk(m', nodes', clock', p) {
      InsertKeepsLink(m, m', nodes, clock, bp, k, n, p);
    }
    forall j ensures RootOk(m', nodes', j) {
      assert RootOk(m, nodes, j);
      assert LinkOk(m, nodes, clock, Rd(m, Root(j) + 4));
    }
  }

  ghost predicate Inserted(m: Memory, m': Memory, nodes: map<int, Node>, bp: int, k: int, n: int) {
    && bp !in nodes && bp % 8 == 0 && FIRST_BLOCK <= bp < TWO32 && 0 <= k < NUM_LISTS && n == Rd(m, Root(k) + 4)
    && forall a :: Rd(m', a) == if a == bp then Root(k) else if a == bp + 4 then n
        else if a == Root(k) + 4 then bp else if a == n && n != 0 then bp else Rd(m, a)
  }

  lemma InsertKeepsLink(m: Memory, m': Memory, nodes: map<int, Node>, clock: int, bp: int, k: int, n: int, p: int)
    requires ListsOk(m, nodes, clock) && Inserted(m, m', nodes, bp, k, n)
    ensures LinkOk(m', nodes[bp := Node(k, clock)], clock + 1, p)
  {
    assert RootOk(m, nodes, k) && LinkOk(m, nodes, clock, n) && LinkOk(m, nodes, clock, p);
    if p in nodes {
      InsertKeepsBack(m, m', nodes, clock, bp, k, n, p);
      InsertKeepsForward(m, m', nodes, clock, bp, k, n, p);
    } else if p == bp {
      assert LinkOk(m, nodes, clock, Root(k));
    }
  }

  lemma InsertKeepsBack(m: Memory, m': Memory, nodes: map<int, Node>, clock: int, bp: int, k: int, n: int, p: int)
    requires ListsOk(m, nodes, clock) && Inserted(m, m', nodes, bp, k, n) && p in nodes
    ensures BackOk(m', nodes[bp := Node(k, clock)], p)
  {
    assert RootOk(m, nodes, k) && LinkOk(m, nodes, clock, p);
    var v: int := Rd(m, p);
    assert LinkOk(m, nodes, clock, v);
    if p == n {
      assert Rd(m', bp + 4) == n;
    } else {
      assert v != Root(k);
      assert Rd(m', v + 4) == Rd(m, v + 4);
    }
  }

  lemma InsertKeepsForward(m: Memory, m': Memory, nodes: map<int, Node>, clock: int, bp: int, k: int, n: int, p: int)
    requires ListsOk(m, nodes, clock) && Inserted(m, m', nodes, bp, k, n) && p in nodes
    ensures ForwardOk(m', nodes[bp := Node(k, clock)], p)
  {
    assert RootOk(m, nodes, k) && LinkOk(m, nodes, clock, p);
    var s: int := Rd(m, p + 4);
    assert LinkOk(m, nodes, clock, s) && LinkOk(m, nodes, clock, n);
    assert Rd(m', p + 4) == s;
    assert s != 0 ==> Rd(m', s) == Rd(m, s);
  }

  // ------------------------------------------------------------------- one removal

  function RemoveWords(m: Memory, bp: int): Memory {
    var v, n := Rd(m, bp), Rd(m, bp + 4);
    var m1 := if n != 0 then m[n := v] else m;
    m1[v + 4 := n]
  }

  lemma RemoveKeepsLists(m: Memory, nodes: map<int, Node>, clock: int, bp: int)
    requires ListsOk(m, nodes, clock) && bp in nodes
    ensures ListsOk(RemoveWords(m, bp), nodes - {bp}, clock)
    ensures OnlyLinks(m, RemoveWords(m, bp), nodes - {bp})
  {
    var v: int, n: int := Rd(m, bp), Rd(m, bp + 4);
    var m', nodes' := RemoveWords(m, bp), nodes - {bp};
    assert LinkOk(m, nodes, clock, bp) && LinkOk(m, nodes, clock, v) && LinkOk(m, nodes, clock, n);
    forall a ensures Rd(m', a) == if a == v + 4 then n else if a == n && n != 0 then v else Rd(m, a) { }
    assert IsLinkWord(nodes', v + 4);
    forall p ensures LinkOk(m', nodes', clock, p) {
      assert LinkOk(m, nodes, clock, p);
      if p in nodes' {
        RemoveKeepsBack(m, m', nodes, clock, bp, v, n, p);
        RemoveKeepsForward(m, m', nodes, clock, bp, v, n, p);
      }
    }
    forall j ensures RootOk(m', nodes', j) {
      assert RootOk(m, nodes, j);
      assert LinkOk(m, nodes, clock, Rd(m, Root(j) + 4));
    }
  }

  ghost predicate Removed(m: Memory, m': Memory, nodes: map<int, Node>, bp: int, v: int, n: int) {
    && bp in nodes && v == Rd(m, bp) && n == Rd(m, bp + 4)
    && forall a :: Rd(m', a) == if a == v + 4 then n else if a == n && n != 0 then v else Rd(m, a)
  }

  lemma RemoveKeepsBack(m: Memory, m': Memory, nodes: map<int, Node>, clock: int, bp: int, v: int, n: int, p: int)
    requires ListsOk(m, nodes, clock) && Removed(m, m', nodes, bp, v, n) && p in nodes && p != bp
    ensures BackOk(m', nodes - {bp}, p)
  {
    assert LinkOk(m, nodes, clock, bp) && LinkOk(m, nodes, clock, v) && LinkOk(m, nodes, clock, p);
    var w: int := Rd(m, p);
    assert LinkOk(m, nodes, clock, w);
    if p == n {
      assert Rd(m', p) == v && Rd(m', v + 4) == n;
    } else {
      assert w != bp && w != v;
      assert Rd(m', p) == w;
      assert Rd(m', w + 4) == p;
    }
  }

  lemma RemoveKeepsForward(m: Memory, m': Memory, nodes: map<int, Node>, clock: int, bp: int, v: int, n: int, p: int)
    requires ListsOk(m, nodes, clock) && Removed(m, m', nodes, bp, v, n) && p in nodes && p != bp
    ensures ForwardOk(m', nodes - {bp}, p)
  {
    assert LinkOk(m, nodes, clock, bp) && LinkOk(m, nodes, clock, n) && LinkOk(m, nodes, clock, p);
    var s: int := Rd(m, p + 4);
    assert LinkOk(m, nodes, clock, s);
    if p == v {
      assert Rd(m', p + 4) == n;
      assert n != 0 ==> Rd(m', n) == v;
    } else {
      assert s != bp && (s != 0 ==> s != n);
      assert Rd(m', p + 4) == s;
      assert s != 0 ==> Rd(m', s) == p;
    }
  }

  // ------------------------------------------------------------- walking the lists

  /** The nodes met by following next links from p. */
  ghost function NodesFrom(h: Heap, p: int): (s: seq<int>)
    requires ListsOk(h.m, h.nodes, h.clock) && (p != 0 ==> p in h.nodes)
    decreases if p == 0 then 0 else 1 + h.nodes[p].stamp, if p == 0 then 0 else 1
  {
    if p == 0 then [] else (
      assert LinkOk(h.m, h.nodes, h.clock, p);
      [p] + NodesFrom(h, Rd(h.m, p + 4))
    )
  }

  /** The nodes of list k, in order. */
  ghost function ListOf(h: Heap, k: int): (s: seq<int>)
    requires ListsOk(h.m, h.nodes, h.clock) && 0 <= k < NUM_LISTS
  {
    assert RootOk(h.m, h.nodes, k);
    NodesFrom(h, Rd(h.m, Root(k) + 4))
  }

  /** What a walk meets: nodes of one list, stamps falling, back links inverse to the walk. */
  ghost predicate Chain(h: Heap, s: seq<int>, k: int) {
    && (forall i :: 0 <= i < |s| ==> s[i] in h.nodes && h.nodes[s[i]].list == k)
    && (forall i, j :: 0 <= i < j < |s| ==> h.nodes[s[j]].stamp < h.nodes[s[i]].stamp)
    && (forall i :: 0 < i < |s| ==> Rd(h.m, s[i]) == s[i - 1])
    && (forall i :: 0 <= i < |s| ==> Rd(h.m, s[i] + 4) == if i + 1 < |s| then s[i + 1] else 0)
  }

  lemma {:induction false} WalkIsChain(h: Heap, p: int)
    requires ListsOk(h.m, h.nodes, h.clock) && p in h.nodes
    ensures Chain(h, NodesFrom(h, p), h.nodes[p].list)
    decreases h.nodes[p].stamp
  {
    assert LinkOk(h.m, h.nodes, h.clock, p);
    var n := Rd(h.m, p + 4);
    if n != 0 {
      WalkIsChain(h, n);
      ChainCons(h, p, n, NodesFrom(h, n), h.nodes[p].list);
    } else {
      assert NodesFrom(h, p) == [p];
    }
  }

  lemma ChainCons(h: Heap, p: int, n: int, s: seq<int>, k: int)
    requires p in h.nodes && n in h.nodes && h.nodes[p].list == k && h.nodes[n].stamp < h.nodes[p].stamp
    requires Rd(h.m, p + 4) == n && Rd(h.m, n) == p
    requires Chain(h, s, k) && s != [] && s[0] == n
    ensures Chain(h, [p] + s, k)
  {
    var t := [p] + s;
    forall i | 0 <= i < |t|
      ensures t[i] in h.nodes && h.nodes[t[i]].list == k && h.nodes[t[i]].stamp <= h.nodes[p].stamp
    {
      if i > 0 { assert t[i] == s[i - 1]; }
    }
    forall i, j | 0 <= i < j < |t| ensures h.nodes[t[j]].stamp < h.nodes[t[i]].stamp {
      assert t[j] == s[j - 1];
      if i > 0 { assert t[i] == s[i - 1]; }
    }
    ChainLinks(h, p, n, s, k, t);
  }

  lemma ChainLinks(h: Heap, p: int, n: int, s: seq<int>, k: int, t: seq<int>)
    requires Rd(h.m, p + 4) == n && Rd(h.m, n) == p && Chain(h, s, k) && s != [] && s[0] == n
    requires |t| == |s| + 1 && t[0] == p && forall i :: 0 < i < |t| ==> t[i] == s[i - 1]
    ensures forall i :: 0 < i < |t| ==> Rd(h.m, t[i]) == t[i - 1]
    ensures forall i :: 0 <= i < |t| ==> Rd(h.m, t[i] + 4) == if i + 1 < |t| then t[i + 1] else 0
  {
    forall i | 0 < i < |t| ensures Rd(h.m, t[i]) == t[i - 1] {
      assert t[i] == s[i - 1];
      if i > 1 { assert t[i - 1] == s[i - 2]; }
    }
    forall i | 0 <= i < |t| ensures Rd(h.m, t[i] + 4) == if i + 1 < |t| then t[i + 1] else 0 {
      if i > 0 {
        assert t[i] == s[i - 1];
        assert Rd(h.m, s[i - 1] + 4) == if i < |s| then s[i] else 0;
      }
      if i + 1 < |t| { assert t[i + 1] == s[i]; }
    }
  }

  /** A walk that meets a node meets its successor. */
  lemma {:induction false} WalkMeetsNext(h: Heap, p: int, y: int)
    requires ListsOk(h.m, h.nodes, h.clock) && p in h.nodes && y in NodesFrom(h, p)
    requires y in h.nodes && Rd(h.m, y + 4) != 0
    ensures Rd(h.m, y + 4) in NodesFrom(h, p)
    decreases h.nodes[p].stamp
  {
    assert LinkOk(h.m, h.nodes, h.clock, p);
    var n := Rd(h.m, p + 4);
    if n != 0 {
      assert n in NodesFrom(h, n);
      if y != p { WalkMeetsNext(h, n, y); }
    }
  }

  /** Every node is met by the walk from the root of its list. */
  lemma {:induction false} WalkMeetsAll(h: Heap, y: int)
    requires ListsOk(h.m, h.nodes, h.clock) && y in h.nodes
    ensures 0 <= h.nodes[y].list < NUM_LISTS && y in ListOf(h, h.nodes[y].list)
    decreases h.clock - h.nodes[y].stamp
  {
    assert LinkOk(h.m, h.nodes, h.clock, y);
    var v := Rd(h.m, y);
    var k := h.nodes[y].list;
    assert RootOk(h.m, h.nodes, k);
    if v in h.nodes {
      assert LinkOk(h.m, h.nodes, h.clock, v);
      WalkMeetsAll(h, v);
      WalkMeetsNext(h, Rd(h.m, Root(k) + 4), v);
    }
  }

  /** The lists are exactly the free blocks: walking list k from its root ends,
      meets the free blocks whose size selects k, each once, with inverse back
      links and the root behind the first; list 0 is empty. */
  lemma ListsAreFreeBlocks(h: Heap, k: int)
    requires Clean(h) && 0 <= k < NUM_LISTS
    ensures Chain(h, ListOf(h, k), k)
    ensures forall p :: p in ListOf(h, k) <==> IsFree(h.blk, p) && Class(h.blk[p].size) == k
    ensures forall i, j :: 0 <= i < j < |ListOf(h, k)| ==> ListOf(h, k)[i] != ListOf(h, k)[j]
    ensures ListOf(h, k) != [] ==> Rd(h.m, ListOf(h, k)[0]) == Root(k)
    ensures ListOf(h, 0) == []
  {
    ListIsChain(h, k);
    ListIsChain(h, 0);
    forall p ensures p in ListOf(h, k) <==> IsFree(h.blk, p) && Class(h.blk[p].size) == k {
      assert Agrees(h.blk, h.nodes, NONE, p);
      assert IsFree(h.blk, p) ==> Placed(h.blk, h.brk, p);
      if p in h.nodes { WalkMeetsAll(h, p); }
    }
    if ListOf(h, 0) != [] {
      var p := ListOf(h, 0)[0];
      assert p in h.nodes;
      assert Agrees(h.blk, h.nodes, NONE, p);
      FreeInside(h.blk, h.brk, p);
    }
  }

  lemma ListIsChain(h: Heap, k: int)
    requires ListsOk(h.m, h.nodes, h.clock) && 0 <= k < NUM_LISTS
    ensures Chain(h, ListOf(h, k), k)
    ensures ListOf(h, k) != [] ==> Rd(h.m, ListOf(h, k)[0]) == Root(k)
  {
    assert RootOk(h.m, h.nodes, k);
    if Rd(h.m, Root(k) + 4) != 0 { WalkIsChain(h, Rd(h.m, Root(k) + 4)); }
  }

  // ------------------------------------------------------ the lists as sequences

  /** The heap after one insertion. */
  ghost function InsertHeap(h: Heap, bp: Word, k: int): Heap
    requires 0 <= k < NUM_LISTS
  {
    h.(m := InsertWords(h.m, bp, k), nodes := h.nodes[bp := Node(k, h.clock)], clock := h.clock + 1)
  }

  lemma {:induction false} InsertKeepsWalk(h: Heap, bp: Word, k: int, p: int)
    requires ListsOk(h.m, h.nodes, h.clock) && (p != 0 ==> p in h.nodes)
    requires bp !in h.nodes && bp % 8 == 0 && FIRST_BLOCK <= bp && 0 <= k < NUM_LISTS
    requires ListsOk(InsertWords(h.m, bp, k), h.nodes[bp := Node(k, h.clock)], h.clock + 1)
    ensures NodesFrom(InsertHeap(h, bp, k), p) == NodesFrom(h, p)
    decreases if p == 0 then 0 else 1 + h.nodes[p].stamp
  {
    if p != 0 {
      var h' := InsertHeap(h, bp, k);
      assert LinkOk(h.m, h.nodes, h.clock, p) && LinkOk(h'.m, h'.nodes, h'.clock, p);
      assert RootOk(h.m, h.nodes, k);
      var n: int := Rd(h.m, Root(k) + 4);
      assert LinkOk(h.m, h.nodes, h.clock, n);
      assert Rd(h'.m, p + 4) == Rd(h.m, p + 4);
      InsertKeepsWalk(h, bp, k, Rd(h.m, p + 4));
    }
  }

  /** An insertion puts the block in front of its list and leaves the other lists as they are. */
  lemma InsertedFirst(h: Heap, bp: Word, k: int, j: int)
    requires ListsOk(h.m, h.nodes, h.clock) && 0 <= j < NUM_LISTS
    requires bp !in h.nodes && bp % 8 == 0 && FIRST_BLOCK <= bp && 0 <= k < NUM_LISTS
    ensures var h' := InsertHeap(h, bp, k);
      && ListsOk(h'.m, h'.nodes, h'.clock)
      && ListOf(h', j) == if j == k then [bp] + ListOf(h, j) else ListOf(h, j)
  {
    InsertKeepsLists(h.m, h.nodes, h.clock, bp, k);
    var h' := InsertHeap(h, bp, k);
    assert RootOk(h.m, h.nodes, j) && RootOk(h.m, h.nodes, k);
    var n: int := Rd(h.m, Root(k) + 4);
    assert LinkOk(h.m, h.nodes, h.clock, n);
    InsertKeepsWalk(h, bp, k, Rd(h.m, Root(j) + 4));
    InsertRoots(h.m, bp, k, j);
    if j == k { assert LinkOk(h'.m, h'.nodes, h'.clock, bp); }
  }

  /** What an insertion makes of the root links. */
  lemma InsertRoots(m: Memory, bp: Word, k: int, j: int)
    requires bp % 8 == 0 && FIRST_BLOCK <= bp && 0 <= k < NUM_LISTS && 0 <= j < NUM_LISTS
    requires var n: int := Rd(m, Root(k) + 4); n % 8 == 0
    ensures var m' := InsertWords(m, bp, k);
      && Rd(m', Root(j) + 4) == (if j == k then bp else Rd(m, Root(j) + 4))
      && Rd(m', bp + 4) == Rd(m, Root(k) + 4)
  { }

  function Omit(s: seq<int>, x: int): seq<int> {
    if s == [] then [] else if s[0] == x then Omit(s[1..], x) else [s[0]] + Omit(s[1..], x)
  }

  lemma {:induction false} OmitAbsent(s: seq<int>, x: int)
    requires x !in s
    ensures Omit(s, x) == s
  {
    if s != [] { OmitAbsent(s[1..], x); }
  }

  /** The heap after one removal. */
  ghost function RemoveHeap(h: Heap, bp: int): Heap {
    h.(m := RemoveWords(h.m, bp), nodes := h.nodes - {bp})
  }

  lemma {:induction false} RemoveFromWalk(h: Heap, bp: int, p: int)
    requires ListsOk(h.m, h.nodes, h.clock) && bp in h.nodes && p in h.nodes && p != bp
    requires ListsOk(RemoveWords(h.m, bp), h.nodes - {bp}, h.clock)
    ensures NodesFrom(RemoveHeap(h, bp), p) == Omit(NodesFrom(h, p), bp)
    decreases h.nodes[p].stamp
  {
    var h' := RemoveHeap(h, bp);
    var v: int, n: int := Rd(h.m, bp), Rd(h.m, bp + 4);
    assert LinkOk(h.m, h.nodes, h.clock, p) && LinkOk(h.m, h.nodes, h.clock, bp);
    assert LinkOk(h.m, h.nodes, h.clock, v) && LinkOk(h.m, h.nodes, h.clock, n);
    var s: int := Rd(h.m, p + 4);
    assert LinkOk(h.m, h.nodes, h.clock, s) && LinkOk(h'.m, h'.nodes, h'.clock, p);
    assert NodesFrom(h, p)[1..] == NodesFrom(h, s);
    if s == bp {
      assert Rd(h'.m, p + 4) == n && NodesFrom(h, s)[1..] == NodesFrom(h, n);
      if n != 0 { RemoveFromWalk(h, bp, n); }
    } else {
      assert Rd(h'.m, p + 4) == s;
      if s != 0 { RemoveFromWalk(h, bp, s); }
    }
  }

  /** A removal takes just this block out of whatever list it is in. */
  lemma RemovedOnly(h: Heap, bp: int, j: int)
    requires ListsOk(h.m, h.nodes, h.clock) && bp in h.nodes && 0 <= j < NUM_LISTS
    ensures var h' := RemoveHeap(h, bp);
      && ListsOk(h'.m, h'.nodes, h'.clock)
      && ListOf(h', j) == Omit(ListOf(h, j), bp)
  {
    RemoveKeepsLists(h.m, h.nodes, h.clock, bp);
    var h' := RemoveHeap(h, bp);
    var v: int, n: int := Rd(h.m, bp), Rd(h.m, bp + 4);
    assert LinkOk(h.m, h.nodes, h.clock, bp) && LinkOk(h.m, h.nodes, h.clock, v) && LinkOk(h.m, h.nodes, h.clock, n);
    assert RootOk(h.m, h.nodes, j) && RootOk(h'.m, h'.nodes, j);
    var s: int := Rd(h.m, Root(j) + 4);
    assert LinkOk(h.m, h.nodes, h.clock, s);
    if s == bp {
      assert Rd(h'.m, Root(j) + 4) == n && ListOf(h, j)[1..] == NodesFrom(h, n);
      if n != 0 { RemoveFromWalk(h, bp, n); }
    } else {
      assert Rd(h'.m, Root(j) + 4) == s;
      if s != 0 { RemoveFromWalk(h, bp, s); }
    }
  }
}
