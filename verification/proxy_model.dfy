/** The proxy's object cache as a recency-ordered sequence of entries. */
module ObjectCacheModel {
  import opened LruModel
  import opened Rio

  const MAX_CACHE_SIZE: int := 1049000
  const MAX_OBJECT_SIZE: int := 102400

  datatype Entry = Entry(id: string, data: seq<Byte>, size: nat)

  function Total(q: seq<Entry>): nat {
    if q == [] then 0 else q[0].size + Total(q[1..])
  }

  lemma {:induction false} TotalConcat(a: seq<Entry>, b: seq<Entry>)
    ensures Total(a + b) == Total(a) + Total(b)
  {
    if a == [] {
      assert a + b == b;
    } else {
      TotalConcat(a[1..], b);
      assert (a + b)[1..] == a[1..] + b;
    }
  }

  /** Dropping entries from the end, one at a time, until the total fits. */
  function Evict(q: seq<Entry>, target: nat): seq<Entry> {
    if Total(q) <= target || q == [] then q else Evict(q[..|q| - 1], target)
  }

  /** Eviction keeps exactly the longest prefix whose total is at most the target. */
  lemma {:induction false} EvictKeepsLongestPrefix(q: seq<Entry>, target: nat)
    ensures Evict(q, target) <= q && Total(Evict(q, target)) <= target
    ensures forall k :: |Evict(q, target)| < k <= |q| ==> target < Total(q[..k])
  {
    if Total(q) > target && q != [] {
      var last := |q| - 1;
      var r := q[..last];
      EvictKeepsLongestPrefix(r, target);
      assert Evict(q, target) <= r <= q;
      forall k | |Evict(q, target)| < k <= |q| ensures target < Total(q[..k]) {
        if k <= last {
          assert q[..k] == r[..k];
        } else {
          assert q[..k] == q;
        }
      }
    }
  }

  /** The first entry with an id, or the length if there is none. */
  function Find(q: seq<Entry>, id: string): (k: nat)
    ensures k <= |q|
    ensures k < |q| ==> q[k].id == id
    ensures forall j :: 0 <= j < k ==> q[j].id != id
  {
    if q == [] then 0 else if q[0].id == id then 0
    else
      var k := Find(q[1..], id);
      assert forall j :: 0 < j <= k ==> q[j] == q[1..][j - 1] || j == |q|;
      k + 1
  }

  function Check(q: seq<Entry>, id: string): bool { Find(q, id) < |q| }

  function ToFront(q: seq<Entry>, k: nat): seq<Entry>
    requires k < |q|
  {
    [q[k]] + (q[..k] + q[k + 1..])
  }

  function Get(q: seq<Entry>, id: string): seq<Entry> {
    if Check(q, id) then ToFront(q, Find(q, id)) else q
  }

  function Insert(q: seq<Entry>, e: Entry): seq<Entry> {
    if e.size > MAX_OBJECT_SIZE then q
    else if e.size + Total(q) > MAX_CACHE_SIZE then [e] + Evict(q, MAX_CACHE_SIZE - e.size)
    else [e] + q
  }

  /** One request as the proxy serves it: looked up if cached, fetched and inserted if not. */
  function Serve(q: seq<Entry>, e: Entry): seq<Entry> {
    if Check(q, e.id) then Get(q, e.id) else Insert(q, e)
  }

  function ServeAll(es: seq<Entry>): seq<Entry> {
    if es == [] then [] else Serve(ServeAll(es[..|es| - 1]), es[|es| - 1])
  }

  // ----------------------------------------------------------------- single steps

  /** Moving to the front is a permutation that keeps the order of the others. */
  lemma ToFrontKeeps(q: seq<Entry>, k: nat)
    requires k < |q|
    ensures multiset(ToFront(q, k)) == multiset(q) && Total(ToFront(q, k)) == Total(q)
    ensures ToFront(q, k)[0] == q[k] && ToFront(q, k)[1..] == q[..k] + q[k + 1..]
  {
    SplitAround(q, k);
    SameEntries(q[..k], q[k], q[k + 1..]);
  }

  lemma SplitAround(q: seq<Entry>, k: nat)
    requires k < |q|
    ensures q == q[..k] + ([q[k]] + q[k + 1..])
  { }

  lemma SameEntries(a: seq<Entry>, x: Entry, b: seq<Entry>)
    ensures Total([x] + (a + b)) == Total(a + ([x] + b))
    ensures multiset([x] + (a + b)) == multiset(a + ([x] + b))
    ensures ([x] + (a + b))[1..] == a + b
  {
    TotalConcat(a, [x] + b);
    TotalConcat(a, b);
    TotalConcat([x], b);
    TotalConcat([x], a + b);
    MultisetFront(a, x, b);
  }

  lemma MultisetFront(a: seq<Entry>, x: Entry, b: seq<Entry>)
    ensures multiset([x] + (a + b)) == multiset(a + ([x] + b))
  {
    assert multiset([x] + (a + b)) == multiset([x]) + multiset(a) + multiset(b);
    assert multiset(a + ([x] + b)) == multiset(a) + (multiset([x]) + multiset(b));
  }

  /** An insert fits the budget, and what it drops is a suffix that could not have been smaller. */
  lemma InsertFits(q: seq<Entry>, e: Entry)
    requires Total(q) <= MAX_CACHE_SIZE && e.size <= MAX_OBJECT_SIZE
    ensures Insert(q, e) != [] && Insert(q, e)[0] == e
    ensures Insert(q, e)[1..] <= q && Total(Insert(q, e)) <= MAX_CACHE_SIZE
    ensures forall k :: |Insert(q, e)| <= k <= |q| ==> MAX_CACHE_SIZE < e.size + Total(q[..k])
  {
    EvictKeepsLongestPrefix(q, MAX_CACHE_SIZE - e.size);
    var r := Insert(q, e);
    assert r == [e] + r[1..];
    TotalConcat([e], r[1..]);
  }

  lemma TotalOf(e: Entry, q: seq<Entry>)
    ensures Total([]) == 0 && Total([e] + q) == e.size + Total(q)
  {
    assert ([e] + q)[1..] == q;
  }

  /** An object of more than 102400 bytes changes nothing; one that fits the 1049000 bytes pushes nothing out. */
  lemma InsertAtLimits(q: seq<Entry>, e: Entry)
    ensures e.size > 102400 ==> Insert(q, e) == q
    ensures e.size <= 102400 && e.size + Total(q) <= 1049000 ==> Insert(q, e) == [e] + q
  { }

  // ------------------------------------------------------------------- whole runs

  function Ids(q: seq<Entry>): (r: seq<string>)
    ensures |r| == |q|
    ensures forall k :: 0 <= k < |q| ==> r[k] == q[k].id
  {
    seq(|q|, k requires 0 <= k < |q| => q[k].id)
  }

  lemma DistinctCovers(q: seq<Entry>, k: nat)
    requires Distinct(Ids(q)) && k < |q|
    ensures Find(q, q[k].id) == k
  {
    var j := Find(q, q[k].id);
    assert Ids(q)[k] == q[k].id;
    assert j < |q| ==> Ids(q)[j] == q[j].id;
  }

  /** The ids requested, leaving out objects too large to be cached that were not cached. */
  function History(es: seq<Entry>): seq<string> {
    if es == [] then []
    else
      var before, e := es[..|es| - 1], es[|es| - 1];
      History(before) + (if Check(ServeAll(before), e.id) || e.size <= MAX_OBJECT_SIZE then [e.id] else [])
  }

  /** Over any run of requests the budget holds, no id is cached twice, and what is cached are
      the most recently requested cacheable objects, in order of their last request. */
  lemma {:induction false} CacheIsMostRecent(es: seq<Entry>)
    ensures Total(ServeAll(es)) <= MAX_CACHE_SIZE
    ensures Distinct(Ids(ServeAll(es)))
    ensures Ids(ServeAll(es)) <= Recency(History(es))
  {
    if es != [] {
      var before, e := es[..|es| - 1], es[|es| - 1];
      CacheIsMostRecent(before);
      var q, h := ServeAll(before), History(before);
      RecencyFacts(h);
      if Check(q, e.id) {
        ServeHit(q, h, e.id);
        assert (h + [e.id])[..|h + [e.id]| - 1] == h;
      } else if e.size <= MAX_OBJECT_SIZE {
        ServeMiss(q, h, e);
        assert (h + [e.id])[..|h + [e.id]| - 1] == h;
      } else {
        assert History(es) == h;
      }
    }
  }

  lemma ServeHit(q: seq<Entry>, h: seq<string>, id: string)
    requires Check(q, id) && Distinct(Ids(q)) && Ids(q) <= Recency(h) && Distinct(Recency(h))
    ensures Total(Get(q, id)) == Total(q) && Distinct(Ids(Get(q, id)))
    ensures Ids(Get(q, id)) <= [id] + Without(Recency(h), id)
  {
    var k, r := Find(q, id), Recency(h);
    ToFrontKeeps(q, k);
    assert Ids(q)[k] == r[k] == id;
    WithoutFacts(r, id);
    HitPlaces(q, r, k, id);
    PrefixById(Get(q, id), [id] + Without(r, id), id);
  }

  lemma HitPlaces(q: seq<Entry>, r: seq<string>, k: nat, id: string)
    requires k < |q| && Ids(q) <= r && Distinct(r) && r[k] == id
    ensures |q| <= |[id] + Without(r, id)|
    ensures forall i :: 0 <= i < |q| ==> ToFront(q, k)[i].id == ([id] + Without(r, id))[i]
  {
    WithoutAt(r, k);
    var w := r[..k] + r[k + 1..];
    forall i | 0 <= i < |q| ensures ToFront(q, k)[i].id == ([id] + w)[i] {
      var j := if i == 0 then k else if i - 1 < k then i - 1 else i;
      assert ToFront(q, k)[i] == q[j];
      assert ([id] + w)[i] == r[j];
      assert Ids(q)[j] == r[j];
    }
  }

  /** Entries whose ids are those of a list without repeats, place by place. */
  lemma PrefixById(p: seq<Entry>, w: seq<string>, id: string)
    requires |p| <= |w| && forall i :: 0 <= i < |p| ==> p[i].id == w[i]
    requires w != [] && w[0] == id && Distinct(w[1..]) && id !in w[1..]
    ensures Distinct(Ids(p)) && Ids(p) <= w
  {
    forall i, j | 0 <= i < j < |p| ensures Ids(p)[i] != Ids(p)[j] {
      assert w[j] == w[1..][j - 1] && w[j] in w[1..];
      if i > 0 { assert w[i] == w[1..][i - 1]; }
    }
  }

  lemma ServeMiss(q: seq<Entry>, h: seq<string>, e: Entry)
    requires !Check(q, e.id) && e.size <= MAX_OBJECT_SIZE && Total(q) <= MAX_CACHE_SIZE
    requires Distinct(Ids(q)) && Ids(q) <= Recency(h) && Distinct(Recency(h))
    ensures Total(Insert(q, e)) <= MAX_CACHE_SIZE && Distinct(Ids(Insert(q, e)))
    ensures Ids(Insert(q, e)) <= [e.id] + Without(Recency(h), e.id)
  {
    InsertFits(q, e);
    var r, n, p := Recency(h), |q|, Insert(q, e);
    WithoutFacts(r, e.id);
    AbsentPrefix(q, r, e.id);
    var w := [e.id] + Without(r, e.id);
    var kept := p[1..];
    assert |kept| <= n;
    forall i | 0 <= i < |p| ensures p[i].id == w[i] {
      if 0 < i {
        assert p[i] == kept[i - 1] == q[i - 1];
        assert w[i] == Without(r, e.id)[i - 1];
      }
    }
    PrefixById(p, w, e.id);
  }

  /** An id not cached may stand later in the recency order; taking it out leaves the cached part. */
  lemma AbsentPrefix(q: seq<Entry>, r: seq<string>, id: string)
    requires !Check(q, id) && Ids(q) <= r && Distinct(r)
    ensures |q| <= |Without(r, id)|
    ensures forall i :: 0 <= i < |q| ==> Without(r, id)[i] == q[i].id
  {
    var front := r[..|q|];
    assert front == Ids(q);
    assert id !in front;
    WithoutPrefix(r, id, |q|);
    WithoutFacts(front, id);
    WithoutFacts(r, id);
  }

  // -------------------------------------------------------- how much is held

  /** The next object in order of recency would not fit any more. */
  ghost predicate Tight(q: seq<Entry>, r: seq<string>, size: string -> nat) {
    |q| < |r| ==> Total(q) + size(r[|q|]) > MAX_CACHE_SIZE
  }

  lemma {:induction false} CacheIsTight(es: seq<Entry>, size: string -> nat)
    requires forall e :: e in es ==> e.size == size(e.id)
    ensures Tight(ServeAll(es), Recency(History(es)), size)
  {
    if es != [] {
      var before, e := es[..|es| - 1], es[|es| - 1];
      var q, h := ServeAll(before), History(before);
      CacheIsTight(before, size);
      CacheIsMostRecent(before);
      RecencyFacts(h);
      assert e.size == size(e.id);
      assert (h + [e.id])[..|h + [e.id]| - 1] == h;
      if Check(q, e.id) {
        HitIsTight(q, Recency(h), e.id, size);
      } else if e.size <= MAX_OBJECT_SIZE {
        forall x | x in q ensures x.size == size(x.id) { ServedBefore(before, x); }
        MissIsTight(q, Recency(h), e, size);
      } else {
        assert History(es) == h;
      }
    }
  }

  lemma HitIsTight(q: seq<Entry>, r: seq<string>, id: string, size: string -> nat)
    requires Check(q, id) && Ids(q) <= r && Distinct(r) && Tight(q, r, size)
    ensures Tight(Get(q, id), [id] + Without(r, id), size)
  {
    var k := Find(q, id);
    ToFrontKeeps(q, k);
    assert Ids(q)[k] == r[k] == id;
    WithoutAt(r, k);
    var w := [id] + Without(r, id);
    assert |q| < |r| ==> w[|q|] == r[|q|];
  }

  lemma MissIsTight(q: seq<Entry>, r: seq<string>, e: Entry, size: string -> nat)
    requires !Check(q, e.id) && Ids(q) <= r && Distinct(r) && Tight(q, r, size) && Total(q) <= MAX_CACHE_SIZE
    requires e.size == size(e.id) <= MAX_OBJECT_SIZE && forall x :: x in q ==> x.size == size(x.id)
    ensures Tight(Insert(q, e), [e.id] + Without(r, e.id), size)
  {
    InsertFits(q, e);
    AbsentPrefix(q, r, e.id);
    var p, w := Insert(q, e), Without(r, e.id);
    var m := |p| - 1;
    assert p == [e] + q[..m];
    TotalConcat([e], q[..m]);
    if m < |q| {
      TotalUpTo(q, m);
      assert q[m] in q && w[m] == q[m].id;
    } else {
      assert q[..m] == q;
      NextUncached(q, r, e.id);
    }
  }

  lemma TotalUpTo(q: seq<Entry>, m: nat)
    requires m < |q|
    ensures Total(q[..m + 1]) == Total(q[..m]) + q[m].size
  {
    assert q[..m + 1] == q[..m] + [q[m]];
    TotalConcat(q[..m], [q[m]]);
  }

  /** Taking out an id not cached leaves the next uncached one, or takes out just that. */
  lemma NextUncached(q: seq<Entry>, r: seq<string>, id: string)
    requires !Check(q, id) && Ids(q) <= r && Distinct(r)
    ensures |Without(r, id)| <= |r|
    ensures |q| < |r| && r[|q|] != id && |q| < |Without(r, id)| ==> Without(r, id)[|q|] == r[|q|]
    ensures |q| == |r| ==> |Without(r, id)| == |q|
  {
    WithoutFacts(r, id);
    forall i | 0 <= i < |q| ensures r[i] != id {
      assert r[i] == Ids(q)[i] == q[i].id;
    }
    if id in r {
      var j :| 0 <= j < |r| && r[j] == id;
      WithoutAt(r, j);
    }
  }

  function SumOf(ids: seq<string>, size: string -> nat): nat {
    if ids == [] then 0 else SumOf(ids[..|ids| - 1], size) + size(ids[|ids| - 1])
  }

  lemma {:induction false} SumOfGrows(ids: seq<string>, size: string -> nat, j: nat, k: nat)
    requires j <= k <= |ids|
    ensures SumOf(ids[..j], size) <= SumOf(ids[..k], size)
    decreases k
  {
    if j < k {
      assert ids[..k][..k - 1] == ids[..k - 1];
      SumOfGrows(ids, size, j, k - 1);
    }
  }

  lemma {:induction false} TotalIsSum(q: seq<Entry>, size: string -> nat)
    requires forall x :: x in q ==> x.size == size(x.id)
    ensures Total(q) == SumOf(Ids(q), size)
  {
    if q != [] {
      var m := |q| - 1;
      TotalIsSum(q[..m], size);
      TotalUpTo(q, m);
      assert q[..m + 1] == q && Ids(q)[..m] == Ids(q[..m]);
      assert q[m] in q;
    }
  }

  /** When every id always comes with one size, the cache holds the longest stretch of the
      recency order that fits the budget: k objects are held if and only if they fit. */
  lemma CacheIsLongestPrefix(es: seq<Entry>, size: string -> nat, k: nat)
    requires forall e :: e in es ==> e.size == size(e.id)
    requires k <= |Recency(History(es))|
    ensures k <= |ServeAll(es)| <==> SumOf(Recency(History(es))[..k], size) <= MAX_CACHE_SIZE
  {
    var q, r := ServeAll(es), Recency(History(es));
    CacheIsMostRecent(es);
    CacheIsTight(es, size);
    forall x | x in q ensures x.size == size(x.id) { ServedBefore(es, x); }
    TotalIsSum(q, size);
    assert r[..|q|] == Ids(q);
    if k <= |q| {
      SumOfGrows(r, size, k, |q|);
    } else {
      assert r[..|q| + 1][..|q|] == r[..|q|];
      SumOfGrows(r, size, |q| + 1, k);
    }
  }

  // ---------------------------------------------------------- what is held

  /** The object last put into the cache under each id, cached still or not. */
  ghost function Stored(es: seq<Entry>): map<string, Entry> {
    if es == [] then map[]
    else
      var before, e := es[..|es| - 1], es[|es| - 1];
      if !Check(ServeAll(before), e.id) && e.size <= MAX_OBJECT_SIZE then Stored(before)[e.id := e]
      else Stored(before)
  }

  ghost predicate Agrees(m: map<string, Entry>, x: Entry) { x.id in m && m[x.id] == x }

  /** What is cached under an id is what was fetched when it was last put there. */
  lemma {:induction false} EntriesWereServed(es: seq<Entry>, k: nat)
    requires k < |ServeAll(es)|
    ensures ServeAll(es)[k] in es && Agrees(Stored(es), ServeAll(es)[k])
    decreases |es|, 0
  {
    var before, e := es[..|es| - 1], es[|es| - 1];
    var q, x := ServeAll(before), ServeAll(es)[k];
    CacheIsMostRecent(es);
    if Check(q, e.id) {
      ToFrontKeeps(q, Find(q, e.id));
      assert x in multiset(q);
      ServedBefore(before, x);
    } else if e.size > MAX_OBJECT_SIZE {
      ServedBefore(before, x);
    } else if k > 0 {
      CacheIsMostRecent(before);
      InsertFits(q, e);
      assert x == Insert(q, e)[1..][k - 1] == q[k - 1];
      assert Ids(ServeAll(es))[0] == e.id && Ids(ServeAll(es))[k] == x.id;
      ServedBefore(before, x);
    } else {
      assert x == e;
    }
  }

  lemma {:induction false} ServedBefore(es: seq<Entry>, x: Entry)
    requires x in ServeAll(es)
    ensures x in es && Agrees(Stored(es), x)
    decreases |es|, 1
  {
    var k :| 0 <= k < |ServeAll(es)| && ServeAll(es)[k] == x;
    EntriesWereServed(es, k);
  }

  /** So a lookup that finds an id finds the object last stored under it. */
  lemma LookupFindsStored(es: seq<Entry>, id: string)
    requires Check(ServeAll(es), id)
    ensures id in Stored(es) && ServeAll(es)[Find(ServeAll(es), id)] == Stored(es)[id]
  {
    EntriesWereServed(es, Find(ServeAll(es), id));
  }
}
