/** A client of the allocator: its operations carried out by the routines, from mm_init on. */
module HeapClient {
  import opened HeapWords
  import opened HeapModel
  import opened HeapSpecs
  import opened Allocator

  // ------------------------------------------------------------------- operations

  /** What a client can do: the three entry points, and storing a word i bytes into a block it holds. */
  datatype Op = Malloc(n: int) | Free(p: int) | Realloc(p: int, n: int) | Store(p: int, i: int, w: Word)

  /** What the allocator asks of its client: pointers it handed out and has not got back. */
  ghost predicate Allowed(h: Heap, op: Op) {
    match op
    case Malloc(n) => 0 <= n
    case Free(p) => p == 0 || p in Live(h)
    case Realloc(p, n) => 0 <= n && (p == 0 || p in Live(h))
    case Store(p, i, _) => p in Live(h) && Cell(i) && i + 4 <= Live(h)[p] - 4
  }

  /** op takes h to h' and returns r. */
  ghost predicate Step(h: Heap, op: Op, h': Heap, r: int, limit: int)
    requires Clean(h)
  {
    Allowed(h, op) &&
    match op
    case Malloc(n) => MallocSpec(h, n, limit, h', r)
    case Free(p) => if p == 0 then h' == h else FreeSpec(h, p, h')
    case Realloc(p, n) => ReallocContract(h, p, n, limit, h', r, false)
    case Store(p, i, w) => h' == h.(m := h.m[p + i := w])
  }

  /** op gives up or overwrites block p. */
  predicate Touches(op: Op, p: int) {
    match op
    case Malloc(_) => false
    case Free(q) => q == p
    case Realloc(q, _) => q == p
    case Store(q, _, _) => q == p
  }

  lemma StepKeeps(h: Heap, op: Op, h': Heap, r: int, limit: int)
    requires Clean(h) && Step(h, op, h', r, limit)
    ensures Clean(h') && h.brk <= h'.brk
    ensures forall p :: p in Live(h) && !Touches(op, p) ==>
      p in Live(h') && Live(h')[p] == Live(h)[p] && SameWords(h.m, h'.m, p, p + Live(h)[p] - 4)
  {
    match op
    case Malloc(n) => GrowsOnly(h, n, limit, h', r);
    case Free(q) =>
      forall p | p in Live(h) && p != q ensures SameWords(h.m, h'.m, p, p + Live(h)[p] - 4) {
        if q != 0 { assert p in Live(h') && Live(h')[p] == Live(h)[p]; }
      }
    case Realloc(q, n) =>
      if q == 0 && n != 0 { GrowsOnly(h, n, limit, h', r); }
      else if q != 0 {
        forall p | p in Live(h) && p != q
          ensures p in Live(h') && Live(h')[p] == Live(h)[p] && SameWords(h.m, h'.m, p, p + Live(h)[p] - 4)
        {
          assert p in Live(h) - {q};
          assert n == 0 ==> p in Live(h');
        }
      }
    case Store(q, i, w) =>
      CellSum(i, 0);
      ClientWrite(h, q, h'.m);
      forall p | p in Live(h) && p != q ensures SameWords(h.m, h'.m, p, p + Live(h)[p] - 4) {
        assert p in Live(h) - {q};
      }
  }

  lemma GrowsOnly(h: Heap, n: int, limit: int, h': Heap, r: int)
    requires Clean(h) && 0 <= n && MallocSpec(h, n, limit, h', r)
    ensures Clean(h') && h.brk <= h'.brk
    ensures forall p :: p in Live(h) ==>
      p in Live(h') && Live(h')[p] == Live(h)[p] && SameWords(h.m, h'.m, p, p + Live(h)[p] - 4)
  { }

  ghost predicate Run(hs: seq<Heap>, ops: seq<Op>, rs: seq<int>, limit: int) {
    && |hs| == |ops| + 1 && |rs| == |ops| && Clean(hs[0])
    && forall i :: 0 <= i < |ops| ==> Clean(hs[i]) && Step(hs[i], ops[i], hs[i + 1], rs[i], limit)
  }

  /** Over any stretch of a run, a block that is neither freed, reallocated nor written keeps
      its place, its size and every payload word, whatever is split, merged or extended. */
  lemma {:induction false} RunKeepsBlocks(hs: seq<Heap>, ops: seq<Op>, rs: seq<int>, limit: int, i: nat, j: nat, p: int)
    requires Run(hs, ops, rs, limit) && i <= j <= |ops| && p in Live(hs[i])
    requires forall k :: i <= k < j ==> !Touches(ops[k], p)
    ensures Clean(hs[j]) && p in Live(hs[j]) && Live(hs[j])[p] == Live(hs[i])[p]
    ensures forall a :: p <= a < p + Live(hs[i])[p] - 4 ==> Rd(hs[j].m, a) == Rd(hs[i].m, a)
    decreases j
  {
    if j > 0 { StepKeeps(hs[j - 1], ops[j - 1], hs[j], rs[j - 1], limit); }
    if i < j { RunKeepsBlocks(hs, ops, rs, limit, i, j - 1, p); }
  }

  // ------------------------------------------------- carried out by the routines

  /** One operation; fault is the copy mm_realloc must not make. */
  method Exec(a: Mm, op: Op) returns (r: int, fault: bool)
    requires a.Valid() && Allowed(a.h, op)
    modifies a, a.mem
    ensures a.Valid()
    ensures !fault ==> Step(old(a.h), op, a.h, r, 4 * a.mem.Length)
    ensures fault ==>
      && op.Realloc? && op.p in Live(old(a.h))
      && ReallocContract(old(a.h), op.p, op.n, 4 * a.mem.Length, a.h, r, true)
  {
    r, fault := 0, false;
    match op {
      case Malloc(n) => r := a.MmMalloc(n);
      case Free(p) => a.MmFree(p);
      case Realloc(p, n) => r, fault := a.MmRealloc(p, n);
      case Store(p, i, w) => StoreWord(a, p, i, w);
    }
  }

  /** The client's own write. */
  method StoreWord(a: Mm, p: int, i: int, w: Word)
    requires a.Valid() && Allowed(a.h, Store(p, i, w))
    modifies a, a.mem
    ensures a.Valid() && a.h == old(a.h).(m := old(a.h).m[p + i := w])
  {
    ghost var h0 := a.h;
    assert Placed(a.h.blk, a.h.brk, p);
    OctCell(p);
    CellSum(p, i);
    a.Put(p + i, w);
    ClientWrite(h0, p, a.h.m);
  }

  /** Whether op is allowed, for a client that knows the pointers it holds. */
  method MayRun(a: Mm, op: Op, held: set<int>) returns (ok: bool)
    requires a.Valid() && held == Live(a.h).Keys
    ensures ok <==> Allowed(a.h, op)
  {
    match op
    case Malloc(n) => return 0 <= n;
    case Free(p) => return p == 0 || p in held;
    case Realloc(p, n) => return 0 <= n && (p == 0 || p in held);
    case Store(p, i, _) =>
      if p !in held { return false; }
      assert BlockOk(a.h, p) && Placed(a.h.blk, a.h.brk, p);
      a.SizeRead(p);
      CellIsMultiple(i);
      return 0 <= i && i % 4 == 0 && i + 4 <= a.GetSize(p - 4) - 4;
  }

  /** The pointers held after an operation that gave r. */
  function Held(held: set<int>, op: Op, r: int): set<int> {
    match op
    case Malloc(_) => held + if r == 0 then {} else {r}
    case Free(p) => held - {p}
    case Realloc(p, _) => held - {p} + if r == 0 then {} else {r}
    case Store(_, _, _) => held
  }

  lemma HeldIsLive(h: Heap, op: Op, h': Heap, r: int, limit: int)
    requires Clean(h) && Step(h, op, h', r, limit)
    ensures Held(Live(h).Keys, op, r) == Live(h').Keys
  {
    assert 0 !in Live(h);
    if op.Malloc? && r != 0 { assert Live(h').Keys == Live(h).Keys + {r}; }
  }

  /** Any operations, from an empty region on, until one that the allocator does not allow or
      a fault: every heap on the way is clean, and the run is one of the model's. */
  method RunClient(a: Mm, ops: seq<Op>) returns (k: nat, rs: seq<int>, fault: bool, ghost hs: seq<Heap>)
    requires a.Raw() && 128 <= 4 * a.mem.Length
    modifies a, a.mem
    ensures a.Valid() && k <= |ops|
    ensures Run(hs, ops[..k], rs, 4 * a.mem.Length) && Live(hs[0]) == map[]
    ensures forall i :: 0 <= i <= k ==> Clean(hs[i])
    ensures !fault ==> a.h == hs[k] && (k < |ops| ==> !Allowed(hs[k], ops[k]))
    ensures fault ==> k < |ops| && ops[k].Realloc? && Allowed(hs[k], ops[k])
  {
    var rc := a.MmInit();
    k, rs, fault, hs := 0, [], false, [a.h];
    var held: set<int> := {};
    while k < |ops|
      invariant a.Valid() && k <= |ops| && !fault && held == Live(a.h).Keys
      invariant |hs| == k + 1 && hs[k] == a.h && Run(hs, ops[..k], rs, 4 * a.mem.Length) && Live(hs[0]) == map[]
      decreases |ops| - k
    {
      var ok := MayRun(a, ops[k], held);
      if !ok { return; }
      var r;
      r, fault := Exec(a, ops[k]);
      if fault { return; }
      HeldIsLive(hs[k], ops[k], a.h, r, 4 * a.mem.Length);
      RunOn(hs, ops[..k], rs, 4 * a.mem.Length, ops[k], a.h, r);
      assert ops[..k + 1] == ops[..k] + [ops[k]];
      held := Held(held, ops[k], r);
      hs, rs := hs + [a.h], rs + [r];
      k := k + 1;
    }
  }

  lemma RunOn(hs: seq<Heap>, ops: seq<Op>, rs: seq<int>, limit: int, op: Op, h: Heap, r: int)
    requires Run(hs, ops, rs, limit) && Clean(hs[|ops|]) && Step(hs[|ops|], op, h, r, limit)
    ensures Run(hs + [h], ops + [op], rs + [r], limit)
  { }
}
