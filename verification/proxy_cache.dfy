/** The proxy's object cache: a doubly linked list behind a sentinel, relinked in place. */
module ObjectCache {
  import opened Rio
  import opened ObjectCacheModel

  class CacheBlock {
    var next: CacheBlock?
    var prev: CacheBlock?
    const id: string
    const data: seq<Byte>
    const size: nat

    constructor (id: string, data: seq<Byte>, size: nat)
      requires size <= |data|
      ensures this.id == id && this.data == data[..size] && this.size == size
      ensures next == null && prev == null
    {
      this.id, this.data, this.size := id, data[..size], size;
      next, prev := null, null;
    }

    function ToEntry(): Entry { Entry(id, data, size) }
  }

  class CacheManager {
    const head: CacheBlock
    var cacheSize: int
    var blockCnt: int
    ghost var spine: seq<CacheBlock>

    /** Next links run along the spine to null, prev links back to the sentinel, and no block repeats. */
    ghost predicate Linked()
      reads this, head, spine
    {
      && head !in spine
      && (forall i, j :: 0 <= i < j < |spine| ==> spine[i] != spine[j])
      && head.next == (if spine == [] then null else spine[0])
      && (forall i {:trigger spine[i].prev} :: 0 <= i < |spine| ==>
          spine[i].prev == if i == 0 then head else spine[i - 1])
      && (forall i {:trigger spine[i].next} :: 0 <= i < |spine| ==>
          spine[i].next == if i + 1 < |spine| then spine[i + 1] else null)
    }

    static lemma TotalWithoutOne(q: seq<Entry>, k: nat)
      requires k < |q|
      ensures Total(q[..k] + q[k + 1..]) == Total(q) - q[k].size
    {
      SplitAround(q, k);
      TotalConcat(q[..k], [q[k]] + q[k + 1..]);
      TotalConcat([q[k]], q[k + 1..]);
      TotalConcat(q[..k], q[k + 1..]);
    }

    /** The cached entries, most recent first. */
    ghost function Contents(): (q: seq<Entry>)
      reads this
      ensures |q| == |spine|
      ensures forall i :: 0 <= i < |q| ==> q[i] == spine[i].ToEntry()
    {
      var s := spine;
      seq(|s|, i requires 0 <= i < |s| => s[i].ToEntry())
    }

    ghost predicate Counted()
      reads this
    {
      cacheSize == Total(Contents()) && blockCnt == |spine|
    }

    /** Every block has as many bytes as it says. */
    ghost predicate Sized()
      reads this
    {
      forall b :: b in spine ==> |b.data| == b.size
    }

    lemma StillSized(was: seq<CacheBlock>)
      requires forall b :: b in was ==> |b.data| == b.size
      requires forall b :: b in spine ==> b in was
      ensures Sized()
    { }

    ghost predicate Valid()
      reads this, head, spine
    {
      Linked() && Counted() && Sized() && cacheSize <= MAX_CACHE_SIZE
    }

    constructor ()
      ensures Valid() && Contents() == [] && fresh(head) && spine == []
      ensures cacheSize == 0 && blockCnt == 0
    {
      head := new CacheBlock("", [], 0);
      cacheSize, blockCnt := 0, 0;
      spine := [];
    }

    method InsertAfterHead(blk: CacheBlock)
      requires Linked() && Counted() && blk !in spine && blk != head
      modifies this, head, spine, blk
      ensures Linked() && Counted() && spine == [blk] + old(spine)
      ensures cacheSize == old(cacheSize) + blk.size && blockCnt == old(blockCnt) + 1
      ensures Contents() == [blk.ToEntry()] + old(Contents())
    {
      ghost var q := Contents();
      if head.next == null {
        head.next := blk;
        blk.prev := head;
        blk.next := null;
      } else {
        blk.next := head.next;
        head.next.prev := blk;
        head.next := blk;
        blk.prev := head;
      }
      cacheSize := cacheSize + blk.size;
      blockCnt := blockCnt + 1;
      spine := [blk] + spine;
      assert Contents() == [blk.ToEntry()] + q;
    }

    method DetachFromList(blk: CacheBlock, ghost k: nat)
      requires Linked() && Counted() && k < |spine| && spine[k] == blk
      modifies this, head, spine
      ensures Linked() && Counted() && spine == old(spine)[..k] + old(spine)[k + 1..]
      ensures cacheSize == old(cacheSize) - blk.size && blockCnt == old(blockCnt) - 1
      ensures Contents() == old(Contents())[..k] + old(Contents())[k + 1..]
    {
      ghost var q := Contents();
      ghost var s := spine;
      Unlink(blk, k);
      cacheSize := cacheSize - blk.size;
      blockCnt := blockCnt - 1;
      spine := spine[..k] + spine[k + 1..];
      forall i | 0 <= i < |spine| ensures spine[i] == s[if i < k then i else i + 1] { }
      TotalWithoutOne(q, k);
      assert Contents() == q[..k] + q[k + 1..];
      Relinked(s, k);
    }

    /** The neighbours of blk skip it. */
    method Unlink(blk: CacheBlock, ghost k: nat)
      requires Linked() && k < |spine| && spine[k] == blk
      modifies head, spine
      ensures forall i {:trigger spine[i].prev} :: 0 <= i < |spine| ==>
        spine[i].prev == if i == 0 then head
          else if i == k + 1 then (if k == 0 then head else spine[k - 1]) else spine[i - 1]
      ensures forall i {:trigger spine[i].next} :: 0 <= i < |spine| ==>
        spine[i].next == if i + 1 == k then (if k + 1 < |spine| then spine[k + 1] else null)
          else if i + 1 < |spine| then spine[i + 1] else null
      ensures head.next == if k > 0 then spine[0] else if |spine| == 1 then null else spine[1]
    {
      assert spine[k].next == blk.next && spine[k].prev == blk.prev;
      if blk.next == null {
        var temp := blk.prev;
        temp.next := null;
      } else {
        var temp := blk.prev;
        temp.next := blk.next;
        blk.next.prev := temp;
      }
    }

    lemma Relinked(s: seq<CacheBlock>, k: nat)
      requires k < |s| && spine == s[..k] + s[k + 1..]
      requires head !in s && forall i, j :: 0 <= i < j < |s| ==> s[i] != s[j]
      requires forall i {:trigger s[i].prev} :: 0 <= i < |s| ==>
        s[i].prev == if i == 0 then head else if i == k + 1 then (if k == 0 then head else s[k - 1]) else s[i - 1]
      requires forall i {:trigger s[i].next} :: 0 <= i < |s| ==>
        s[i].next == if i + 1 == k then (if k + 1 < |s| then s[k + 1] else null)
          else if i + 1 < |s| then s[i + 1] else null
      requires head.next == if k > 0 then s[0] else if |s| == 1 then null else s[1]
      ensures Linked()
    {
      forall i | 0 <= i < |spine|
        ensures spine[i].prev == (if i == 0 then head else spine[i - 1])
        ensures spine[i].next == (if i + 1 < |spine| then spine[i + 1] else null)
      {
        var j := if i < k then i else i + 1;
        assert s[j].prev == spine[i].prev && s[j].next == spine[i].next;
      }
    }

    method MoveToHead(blk: CacheBlock, ghost k: nat)
      requires Valid() && k < |spine| && spine[k] == blk
      modifies this, head, spine
      ensures Valid() && Contents() == ToFront(old(Contents()), k)
      ensures cacheSize == old(cacheSize) && blockCnt == old(blockCnt)
      ensures spine == [blk] + (old(spine)[..k] + old(spine)[k + 1..])
    {
      ToFrontKeeps(Contents(), k);
      DetachFromList(blk, k);
      assert blk !in spine;
      InsertAfterHead(blk);
      StillSized(old(spine));
    }

    /** Unlinks blocks at the end until the total is at most expectedSize; the sentinel always stays. */
    method Evict(expectedSize: int)
      requires Linked() && Counted() && 0 <= expectedSize
      modifies this, head, spine
      ensures Linked() && Counted() && cacheSize <= expectedSize
      ensures cacheSize == Total(Contents()) && blockCnt == |Contents()|
      ensures Contents() == ObjectCacheModel.Evict(old(Contents()), expectedSize) && spine <= old(spine)
    {
      ghost var q := Contents();
      while cacheSize > expectedSize
        invariant Linked() && Counted() && spine <= old(spine)
        invariant ObjectCacheModel.Evict(Contents(), expectedSize) == ObjectCacheModel.Evict(q, expectedSize)
        decreases |spine|
      {
        ghost var k := -1;
        var end := head;
        while end.next != null
          invariant -1 <= k < |spine| && end == (if k == -1 then head else spine[k])
          decreases |spine| - k
        {
          assert k >= 0 ==> spine[k].next == end.next;
          end := end.next;
          k := k + 1;
        }
        assert k >= 0 ==> spine[k].next == end.next;
        DropLast(end);
      }
    }

    method DropLast(end: CacheBlock)
      requires Linked() && Counted() && spine != [] && end == spine[|spine| - 1]
      modifies this, head, spine
      ensures Linked() && Counted() && spine == old(spine)[..|old(spine)| - 1]
      ensures cacheSize == old(cacheSize) - end.size && blockCnt == old(blockCnt) - 1
      ensures Contents() == old(Contents())[..|old(Contents())| - 1]
    {
      ghost var q, last := Contents(), |spine| - 1;
      assert spine[last].prev == end.prev;
      var endPrev := end.prev;
      endPrev.next := null;
      cacheSize := cacheSize - end.size;
      blockCnt := blockCnt - 1;
      spine := spine[..last];
      assert Contents() == q[..last];
      assert q == q[..last] + [q[last]];
      TotalConcat(q[..last], [q[last]]);
    }

    method Check(uri: string) returns (found: bool)
      requires Valid()
      ensures found == ObjectCacheModel.Check(Contents(), uri)
    {
      ghost var k := 0;
      var ptr := head.next;
      while ptr != null
        invariant 0 <= k <= |spine| && ptr == (if k < |spine| then spine[k] else null)
        invariant forall j :: 0 <= j < k ==> spine[j].id != uri
        decreases |spine| - k
      {
        if uri == ptr.id { return true; }
        assert spine[k].next == ptr.next;
        ptr := ptr.next;
        k := k + 1;
      }
      return false;
    }

    /** The first block with the id, moved to the front, or null. */
    method Get(uri: string) returns (blk: CacheBlock?)
      requires Valid()
      modifies this, head, spine
      ensures Valid() && Contents() == ObjectCacheModel.Get(old(Contents()), uri)
      ensures blk == null <==> !ObjectCacheModel.Check(old(Contents()), uri)
      ensures blk != null ==> blk.ToEntry() == old(Contents())[Find(old(Contents()), uri)] == Contents()[0]
      ensures blk == null ==> spine == old(spine)
      ensures blk != null ==> |blk.data| == blk.size
      ensures forall b :: b in spine ==> b in old(spine)
    {
      ghost var k := 0;
      var ptr := head.next;
      while ptr != null
        invariant 0 <= k <= |spine| && ptr == (if k < |spine| then spine[k] else null)
        invariant forall j :: 0 <= j < k ==> spine[j].id != uri
        decreases |spine| - k
      {
        if uri == ptr.id {
          assert Find(Contents(), uri) == k;
          MoveToHead(ptr, k);
          return ptr;
        }
        assert spine[k].next == ptr.next;
        ptr := ptr.next;
        k := k + 1;
      }
      return null;
    }

    /** A copy of the object goes to the front, unless it is too large; the end makes room. */
    method Insert(uri: string, data: seq<Byte>, size: nat)
      requires Valid() && size <= |data|
      modifies this, head, spine
      ensures Valid()
      ensures Contents() == ObjectCacheModel.Insert(old(Contents()), Entry(uri, data[..size], size))
      ensures cacheSize == Total(Contents()) <= 1049000 && blockCnt == |Contents()|
      ensures forall b :: b in spine ==> b in old(spine) || fresh(b)
    {
      if size > MAX_OBJECT_SIZE { return; }
      MakeRoom(size);
      var newBlock := new CacheBlock(uri, data, size);
      InsertAfterHead(newBlock);
    }

    /** The end of the list makes room for size bytes. */
    method MakeRoom(size: nat)
      requires Valid() && size <= MAX_OBJECT_SIZE
      modifies this, head, spine
      ensures Linked() && Counted() && Sized() && cacheSize + size <= MAX_CACHE_SIZE && spine <= old(spine)
      ensures Contents() == if size + Total(old(Contents())) > MAX_CACHE_SIZE
        then ObjectCacheModel.Evict(old(Contents()), MAX_CACHE_SIZE - size) else old(Contents())
    {
      if size + cacheSize > MAX_CACHE_SIZE {
        var expectedSize := MAX_CACHE_SIZE - size;
        Evict(expectedSize);
      }
    }
  }
}
