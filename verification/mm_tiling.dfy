/** Merging, splitting and extending keep the tiling of the heap. */
module Tilings {
  import opened HeapWords
  import opened HeapModel

  /** Block p absorbs the block after it. */
  ghost function MergeBlk(blk: map<int, Block>, p: int): map<int, Block>
    requires p in blk && p + blk[p].size in blk
  {
    var n := p + blk[p].size;
    (blk - {n})[p := blk[p].(size := blk[p].size + blk[n].size)]
  }

  lemma MergeTiled(blk: map<int, Block>, brk: int, p: int)
    requires Tiled(blk, brk) && IsFree(blk, p) && p + blk[p].size in blk && p + blk[p].size != brk
    ensures Tiled(MergeBlk(blk, p), brk)
  {
    var blk' := MergeBlk(blk, p);
    assert p != 8 && p != brk && p + blk[p].size != 8 by {
      FreeInside(blk, brk, p);
      assert Placed(blk, brk, p + blk[p].size);
    }
    forall y | y in blk' ensures Placed(blk', brk, y) {
      MergePlaced(blk, brk, p, y);
    }
    forall y, z ensures Apart(blk', y, z) {
      MergeApart(blk, brk, p, y, z);
    }
  }

  lemma MergeApart(blk: map<int, Block>, brk: int, p: int, y: int, z: int)
    requires Tiled(blk, brk) && IsFree(blk, p) && p + blk[p].size in blk && p + blk[p].size != brk
    ensures Apart(MergeBlk(blk, p), y, z)
  {
    var n := p + blk[p].size;
    assert Apart(blk, y, z) && Apart(blk, n, z);
    assert Placed(blk, brk, p) && Placed(blk, brk, n);
  }

  lemma MergePlaced(blk: map<int, Block>, brk: int, p: int, y: int)
    requires Tiled(blk, brk) && IsFree(blk, p) && p + blk[p].size in blk && p + blk[p].size != brk
    requires y in MergeBlk(blk, p)
    ensures Placed(MergeBlk(blk, p), brk, y)
  {
    FreeInside(blk, brk, p);
    assert Placed(blk, brk, y) && Placed(blk, brk, p + blk[p].size);
    assert Apart(blk, y, p) && Apart(blk, p, y);
  }

  /** Block p becomes two: its first k bytes, and a free rest. */
  ghost function SplitBlk(blk: map<int, Block>, p: int, k: int): map<int, Block>
    requires p in blk
  {
    blk[p := Block(k, true, blk[p].prevAlloc)][p + k := Block(blk[p].size - k, false, true)]
  }

  lemma SplitTiled(blk: map<int, Block>, brk: int, p: int, k: int)
    requires Tiled(blk, brk) && IsFree(blk, p)
    requires k % 8 == 0 && MIN_BLOCK <= k <= blk[p].size - MIN_BLOCK
    ensures p + k !in blk
    ensures Tiled(SplitBlk(blk, p, k), brk)
  {
    var blk' := SplitBlk(blk, p, k);
    FreeInside(blk, brk, p);
    assert Apart(blk, p, p + k);
    forall y | y in blk' ensures Placed(blk', brk, y) {
      assert y in blk ==> Placed(blk, brk, y);
    }
    forall y, z ensures Apart(blk', y, z) {
      SplitApart(blk, brk, p, k, y, z);
    }
  }

  lemma SplitApart(blk: map<int, Block>, brk: int, p: int, k: int, y: int, z: int)
    requires Tiled(blk, brk) && IsFree(blk, p) && p + k !in blk && MIN_BLOCK <= k <= blk[p].size - MIN_BLOCK
    ensures Apart(SplitBlk(blk, p, k), y, z)
  {
    assert Apart(blk, y, z) && Apart(blk, p, z) && Apart(blk, y, p) && Apart(blk, p, y);
  }

  /** Changing the status bits of a block between prologue and epilogue,
      or the previous-allocated bit of the epilogue, changes no geometry. */
  lemma RetagTiled(blk: map<int, Block>, brk: int, p: int, b: Block)
    requires Tiled(blk, brk) && p in blk && p != 8 && b.size == blk[p].size
    requires p == brk ==> b.alloc
    ensures Tiled(blk[p := b], brk)
  {
    var blk' := blk[p := b];
    forall y | y in blk' ensures Placed(blk', brk, y) {
      assert Placed(blk, brk, y);
    }
    forall y, z ensures Apart(blk', y, z) {
      assert Apart(blk, y, z);
    }
  }

  /** The epilogue becomes a block of k bytes, with a new epilogue after it. */
  ghost function ExtendBlk(blk: map<int, Block>, brk: int, k: int): map<int, Block>
    requires brk in blk
  {
    blk[brk := Block(k, false, blk[brk].prevAlloc)][brk + k := Block(0, true, true)]
  }

  lemma ExtendTiled(blk: map<int, Block>, brk: int, k: int)
    requires Tiled(blk, brk) && k % 8 == 0 && k >= MIN_BLOCK && brk + k < TWO32
    ensures brk + k !in blk
    ensures Tiled(ExtendBlk(blk, brk, k), brk + k)
  {
    var blk' := ExtendBlk(blk, brk, k);
    assert brk + k in blk ==> Placed(blk, brk, brk + k);
    assert Placed(blk, brk, brk);
    forall y | y in blk' ensures Placed(blk', brk + k, y) {
      assert y in blk ==> Placed(blk, brk, y);
    }
    forall y, z ensures Apart(blk', y, z) {
      ExtendApart(blk, brk, k, y, z);
    }
  }

  lemma ExtendApart(blk: map<int, Block>, brk: int, k: int, y: int, z: int)
    requires Tiled(blk, brk) && k >= MIN_BLOCK
    ensures Apart(ExtendBlk(blk, brk, k), y, z)
  {
    assert Apart(blk, y, z) && Apart(blk, y, brk);
    assert y in blk ==> Placed(blk, brk, y);
    assert z in blk ==> Placed(blk, brk, z);
  }
}
