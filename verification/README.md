# Verified models of the systems-lab handouts

Five programs of the repository, each written in Dafny in the form its C code has, with the
properties it is meant to have proved for all inputs, all runs or all reachable states.

**Segregated-fit allocator** (`mm_*.dfy`, after `malloclab-handout/mm.c`). Memory is an array of
32-bit words. `Allocator.Mm` carries the routines of `mm.c` over that array; beside it runs a ghost
heap (`HeapModel.Heap`): the words, the blocks of the implicit list, and the nodes of the fourteen
free lists, each with its list and the moment it was inserted. `Clean` is the invariant between
operations; `Unsettled` and `Pending` describe the states inside `mm_free`, `coalesce`, `place` and
`extend_heap` in which block tags and free lists disagree about one block. `HeapSteps` shows how
each group of writes moves between these states, `HeapTheorems` what `Clean` means for the words in
memory and for the client, `HeapClient` runs a client from `mm_init` on, and `HeapChecker`
shows that the program's own checker stays silent.

**Cache simulator** (`lru.dfy`, `csim_*.dfy`, after `cachelab-handout/csim.c`). The class
`CacheSimulator.CacheSim` scans and stamps lines with ages; it is proved to compute
`CacheTraces.Run`, where a set is a list of tags, most recent first. `Run` is proved to be LRU in
the mathematical sense, with the inclusion property and the counter equations.

**Proxy object cache** (`proxy_*.dfy`, after `proxylab-handout/cache.c` and its use in `doit` of
`proxylab-handout/proxy.c`). Blocks linked both ways behind a sentinel, with a byte budget, refine
a sequence of entries in recency order. `ObjectFetch` says what the loop over the server's lines
forwards and caches, and `Proxy` runs requests over Rio connections.

**Rio** (`rio*.dfy`, after the `rio_*` functions of `proxylab-handout/csapp.c`). `read` and `write`
follow an arbitrary schedule of short counts, interrupts and failures; what the client gets does
not depend on it.

**Shell** (`tsh_*.dfy`, after `shelllab-handout/tsh.c`). The job table as a class, refined against
`JobControl`, a transition system of launches, `fg`, `bg`, child reports and the end of waits; and
`Tokenizer.Parser`, which walks its line buffer and ends tokens in place, proved against
`CommandLines.Parse`, whose accepted lines are shown to be exactly those of a printed grammar;
`TypedLines` says in characters what a typed line parses to.

Conventions. In the allocator a pointer is its byte offset from 0x800000000 and 0 is NULL; a block
is named by its payload offset. Long C functions are split into methods at their own seams, so
several members may cite parts of one function.

Where the code does less than its names, comments or purpose suggest, the model follows the code:

- `get_prev_free_status` is non-zero when the previous block is *allocated*.
- `mm_realloc` copies as many bytes as the old block has, header of the next block included, and
  when it shrinks a block it allocates the old size again. When the 32-bit size wraps, the copy can
  run past the new block (`HeapTheorems.ReallocAsks`, `HeapTheorems.ReallocFaults`,
  `HeapTheorems.ReallocOverruns`).
- `rio_readlineb` returns one more than the bytes it stored when a line is ended by `maxlen` or by
  the end of the file (`RioSessions.CountIsLength`, `Rio.CountExceedsLength`). The proxy forwards and caches
  that many bytes, a NUL included (`ObjectFetch.ForwardedIsResponse`, `ObjectFetch.UnendedLine`).
- The proxy caches an object that is too long without the lines that do not fit
  (`ObjectFetch.CachedIsForwarded`, `ObjectFetch.LongResponse`, `ObjectFetch.KeptWithGap`).
- Job ids of the shell can repeat (`JobControl.JidsCanRepeat`); `JobControl.AddKeepsJidsDistinct`
  says exactly when they do not.
- The shell drops what follows the 127th argument without an error (`CommandLines.ParsePrint`).

## Model

| member | source | states |
|---|---|---|
| HeapWords.TagDecodes | malloclab-handout/mm.c:127-153 | size, allocated bit and previous-allocated bit are all recovered from the packed header, for every 8-aligned size |
| HeapWords.FieldsInArithmetic | malloclab-handout/mm.c:143-153 | the masks read as arithmetic: size is w - w % 8, allocated is w % 2, previous-allocated is w / 2 % 2 |
| HeapWords.TagUpdates | malloclab-handout/mm.c:221-229 | setting and clearing bit 1 of a header changes that field of the block and no other |
| HeapWords.PointerRoundTrip | malloclab-handout/mm.c:159-175 | w2p after p2w is the identity on NULL and on every heap address exactly except the base, which reads back as NULL; p2w after w2p is the identity on every word |
| HeapWords.ClassBounds | malloclab-handout/mm.c:258-301 | a size selects list k if and only if it lies between the bounds of bucket k that the checker uses |
| HeapWords.ClassTable | malloclab-handout/mm.c:258-301 | the sizes of each of the fourteen lists, in numbers |
| HeapWords.ClassMonotone | malloclab-handout/mm.c:258-301 | larger sizes select the same or a later list, and always one of the fourteen |
| HeapWords.AsizeIsLeast | malloclab-handout/mm.c:118-121 | the adjusted size is the least multiple of 8 that is at least 16 and n+4, and it holds n bytes if and only if the 32-bit arithmetic does not wrap (n at most 2^32-12) |
| HeapWords.AsizeWraps | malloclab-handout/mm.c:118-121 | above the wrap the adjusted size is 16 for sixteen requests and then repeats every 2^32 |
| HeapModel.Predecessor | malloclab-handout/mm.c:189-191 | every block but the prologue is the next block of some earlier one |
| FreeLists.InsertKeepsLists | malloclab-handout/mm.c:311-325 | the four link writes of an insertion keep all fourteen lists well linked, with the block as new head of its list, and touch only link words |
| FreeLists.RemoveKeepsLists | malloclab-handout/mm.c:329-338 | the two link writes of a removal keep all lists well linked without the block, and touch only link words of the others |
| FreeLists.ListsAreFreeBlocks | malloclab-handout/mm.c:258-338 | in every clean heap the walk from root k ends and meets exactly the free blocks whose size selects k, each once, with inverse back links; list 0 is empty |
| FreeLists.WalkMeetsAll | malloclab-handout/mm.c:304-338 | every listed node is reached from the root of its list by next links |
| FreeLists.InsertedFirst | malloclab-handout/mm.c:311-325 | an insertion puts the block in front of its list and leaves the other thirteen as they are |
| FreeLists.RemovedOnly | malloclab-handout/mm.c:329-338 | a removal takes just this block out of whatever list it is in, keeping the order of the rest |
| HeapSteps.AbsorbNext | malloclab-handout/mm.c:553-565 | after the free next block is unlinked, the merged block is the only unsettled one and no payload has changed |
| HeapSteps.AbsorbPrev | malloclab-handout/mm.c:567-579 | the same for a free previous block, also while the next one is still to be absorbed |
| HeapSteps.Seal | malloclab-handout/mm.c:589-594 | header and footer written over the merged extent settle its tags and nothing else |
| HeapSteps.Relist | malloclab-handout/mm.c:596-598 | listing the merged block and clearing the bit behind it restores the full invariant with the same live blocks and payloads |
| HeapSteps.FreePends | malloclab-handout/mm.c:481-490 | the writes of mm_free leave exactly one pending block and keep every other live payload |
| HeapSteps.ExtendPends | malloclab-handout/mm.c:658-664 | a grown heap whose old epilogue became a free block, with a new epilogue that claims an allocated predecessor, is pending in that block only |
| HeapSteps.PlaceWhole | malloclab-handout/mm.c:633-642 | handing out a whole free block restores the invariant and adds just that block to the live ones |
| HeapSteps.SplitPends | malloclab-handout/mm.c:612-629 | after the split, whose first writes mark a word inside the old block as a header, only the rest is pending, the front is live and all live payloads are kept |
| HeapSteps.SplitListed | malloclab-handout/mm.c:629-630 | listing the rest of a split block restores the invariant |
| HeapSpecs.ListsSmallNoFit | malloclab-handout/mm.c:670-698 | if no list from the class of a size upward has a fitting node, no free block of the heap fits |
| HeapSpecs.FirstFitComesFirst | malloclab-handout/mm.c:670-698 | the first fit comes before every other block that fits: in an earlier list, or earlier in its own |
| HeapSpecs.MergedByte | malloclab-handout/mm.c:444-451 | a word whose low bytes are replaced has exactly the copied bytes there |
| HeapSpecs.ClientWrite | malloclab-handout/mm.c:399-422 | a client writing anywhere inside a block it holds breaks neither the invariant nor another payload |
| Allocator.Mm.constructor | malloclab-handout/mm.c:85-86 | before mm_init there is no heap and the globals are NULL |
| Allocator.Mm.Put | malloclab-handout/mm.c:135-137 | one word changes and no other |
| Allocator.Mm.Get | malloclab-handout/mm.c:139-141 | the word last stored at the address |
| Allocator.Mm.PrevBlockPtr | malloclab-handout/mm.c:193-195 | the address reached by the size in the footer before the header |
| Allocator.Mm.SetNextHeaderF | malloclab-handout/mm.c:221-224 | only the header after the block changes, and there only bit 1, to 0 |
| Allocator.Mm.SetNextHeaderA | malloclab-handout/mm.c:226-229 | only the header after the block changes, and there only bit 1, to 1 |
| Allocator.Mm.Sbrk | malloclab-handout/mm.c:656-657 | the heap end moves by the request, or -1 and no change when the region is full |
| Allocator.Mm.ListInsert | malloclab-handout/mm.c:311-325 | the free block becomes the newest node of the list its size selects, by exactly the link writes of the source; the root points to it |
| Allocator.Mm.LinkFirst | malloclab-handout/mm.c:311-325 | the link writes in the source's order give the words whose lists InsertKeepsLists describes |
| Allocator.Mm.ListRemove | malloclab-handout/mm.c:329-338 | exactly this node leaves its list, by exactly the link writes of the source |
| Allocator.Mm.Coalesce | malloclab-handout/mm.c:546-599 | in all four cases the invariant is restored, live blocks and payloads are unchanged, and the free block returned is exactly the freed extent with its free neighbours and is first in its list |
| Allocator.Mm.MergeNext | malloclab-handout/mm.c:553-565 | case 2 ends with one pending block between allocated neighbours, longer by exactly the next block |
| Allocator.Mm.MergePrev | malloclab-handout/mm.c:567-579 | case 3, starting where the footer before leads back to |
| Allocator.Mm.MergeBoth | malloclab-handout/mm.c:581-595 | case 4, over exactly the three blocks, also when the two removed are neighbours in one list |
| Allocator.Mm.SumBoth | malloclab-handout/mm.c:584-585 | the sum read from the previous block's header and the next block's footer is the sum of the three sizes |
| Allocator.Mm.UnlinkBoth | malloclab-handout/mm.c:586-587 | two removals in a row keep all lists, and the three blocks may then be read as one |
| Allocator.Mm.UnlinkPrev | malloclab-handout/mm.c:586 | the previous block leaves its list and with the freed block may be read as one |
| Allocator.Mm.UnlinkNext | malloclab-handout/mm.c:587 | then the next block leaves its list, and the three may be read as one; the words read later are untouched |
| Allocator.Mm.Relink | malloclab-handout/mm.c:596-598 | from a pending isolated block back to the invariant |
| Allocator.Mm.ListMerged | malloclab-handout/mm.c:596 | the merged block is put first in its list |
| Allocator.Mm.Place | malloclab-handout/mm.c:606-644 | the block becomes live with asize bytes if at least 16 remain, and with all of its bytes otherwise; nothing else changes for the client |
| Allocator.Mm.PlaceSplit | malloclab-handout/mm.c:612-631 | the splitting branch, with the rest listed |
| Allocator.Mm.PlaceAll | malloclab-handout/mm.c:633-642 | the branch that hands out the whole block |
| Allocator.Mm.TakeFront | malloclab-handout/mm.c:613-621 | the words and the lists after the front's header, the speculative next header and the unlinking |
| Allocator.Mm.SplitBlock | malloclab-handout/mm.c:622-629 | the rest is a pending block between allocated neighbours and the front is live |
| Allocator.Mm.ExtendHeap | malloclab-handout/mm.c:650-667 | grows by exactly the even number of words and returns the free block of those and the free bytes before the old end, or NULL with the heap untouched if and only if the region is full |
| Allocator.Mm.BlankBlock | malloclab-handout/mm.c:658-664 | the new block over the old epilogue and the new epilogue, with the footer before them untouched |
| Allocator.Mm.WriteBlank | malloclab-handout/mm.c:662-664 | the three words written, the last of them 3, and the footer before them untouched |
| Allocator.Mm.FindFit | malloclab-handout/mm.c:670-698 | ends; NULL if and only if no free block anywhere fits, otherwise the first fitting node of the first list, from the size's class upward, that has one |
| Allocator.Mm.FitInList | malloclab-handout/mm.c:683-688 | the first fitting node of one list, with everything before it too small |
| Allocator.Mm.MmMalloc | malloclab-handout/mm.c:399-422 | NULL with the heap unchanged for size 0 or when nothing fits and the region is full; otherwise a new live block whose address and size are those the heap before determines, all payloads kept, and the heap grown by max(asize,128) exactly when nothing fitted |
| Allocator.Mm.MallocGrow | malloclab-handout/mm.c:416-420 | the branch that extends the heap, its failure and the exact size of its block included |
| HeapSpecs.FirstFitUnique | malloclab-handout/mm.c:670-698 | there is one first fit at most |
| HeapSpecs.GivenAtFit | malloclab-handout/mm.c:407-412 | with a first fit, the size given is what place leaves of it |
| HeapSpecs.GivenWhenGrown | malloclab-handout/mm.c:414-420 | with none, it is what place leaves of the growth and the free bytes before it |
| Allocator.Mm.MmFree | malloclab-handout/mm.c:474-492 | the block leaves the live ones, every other payload is kept, and the block with the free bytes around it is one free block, first in its list; NULL is ignored; before mm_init the heap is only initialised |
| Allocator.Mm.MarkFree | malloclab-handout/mm.c:481-490 | header, footer and following bit of the freed block make it the one pending block |
| Allocator.Mm.MemCopy | malloclab-handout/mm.c:444-451 | n bytes equal the source's and no word outside the target changes |
| Allocator.Mm.MmRealloc | malloclab-handout/mm.c:427-457 | every size and all ways through: the first min(old payload, n) bytes are kept, the old block is freed, all other live payloads are unchanged; a fault when the malloc inside returns NULL or a block too small for what is copied |
| Allocator.Mm.Move | malloclab-handout/mm.c:441-454 | the growing and the shrinking branch with both faults |
| Allocator.Mm.CopyAndFree | malloclab-handout/mm.c:444-445 | the contents go over before the old block is freed |
| HeapTheorems.ReallocFaults | malloclab-handout/mm.c:441-454 | for every n: a fault if and only if nothing fits and the region is full, or the size the heap has to give, known before the call, is below the bytes copied and a header |
| HeapTheorems.ReallocAsks | malloclab-handout/mm.c:441-454 | growing asks malloc for n bytes, shrinking for the old size again: a shrunken block is at least 4 bytes larger than before, and the heap grows or the call fails just as for that request |
| HeapTheorems.ReallocKeepsContents | malloclab-handout/mm.c:441-454 | byte i of the old payload is byte i of the new one, for every i below n and the old payload size, each byte read from its word by division |
| HeapTheorems.ReallocFits | malloclab-handout/mm.c:441-454 | for n up to 2^32-12 it is never below them |
| HeapTheorems.ReallocOverruns | malloclab-handout/mm.c:441-447 | for n = 2^32-4 every block of at least 24 bytes faults |
| HeapTheorems.WrapsTo | malloclab-handout/mm.c:118-121 | for every block size s the request of 2^32+s-4 bytes has the adjusted size s |
| HeapTheorems.ReallocSameSize | malloclab-handout/mm.c:441-447 | with that request for a block of s bytes it is the eight bytes place may leave that decide: a fault if and only if there is no room or the size given is s |
| Allocator.Mm.MmInit | malloclab-handout/mm.c:366-393 | establishes the invariant with no live block and 640 bytes of heap; -1 if and only if the first block cannot be had |
| Allocator.Mm.Prologue | malloclab-handout/mm.c:368-384 | prologue, fourteen empty lists and epilogue form a clean empty heap |
| HeapTheorems.WalkFrom | malloclab-handout/mm.c:505-530 | stepping by header sizes from any block meets all later blocks in order and ends at the epilogue |
| HeapTheorems.CleanHeapTiles | malloclab-handout/mm.c:366-422 | read from the words alone: blocks tile the heap from prologue to a size-0 allocated epilogue, sizes are multiples of 8 and at least 16, each bit 1 is the predecessor's status, free footers equal headers, no two free blocks touch |
| HeapTheorems.FooterLeadsBack | malloclab-handout/mm.c:193-195 | where a header says the block before it is free, stepping back by the size in the footer reaches that block |
| HeapTheorems.LiveBlocksDisjoint | malloclab-handout/mm.c:399-422 | live blocks are 8-aligned, pairwise disjoint and between prologue and epilogue |
| HeapTheorems.MallocGives | malloclab-handout/mm.c:399-422 | a non-null result for any n is 8-aligned, in the heap, apart from every live block and disturbs no payload; it has n payload bytes if and only if n is at most 2^32-12, and then takes at most max(24, n+19) bytes |
| HeapTheorems.MallocSize | malloclab-handout/mm.c:399-422 | the exact size of the block: asize if 16 bytes of the block found remain, all of it otherwise; the block found is the first fit, or the growth of max(asize,128) with the free block at the end of the heap |
| HeapTheorems.FreeBlocksAreGaps | malloclab-handout/mm.c:546-599 | free blocks are exactly the maximal gaps between live blocks |
| HeapTheorems.FreeSpaceIsCanonical | malloclab-handout/mm.c:546-599 | two heaps with the same live blocks and the same end have the same block structure, whatever their histories |
| HeapTheorems.AllFreedIsOneBlock | malloclab-handout/mm.c:546-599 | with nothing live, exactly one free block spans the heap |
| HeapTheorems.FreeingAllLeavesOneBlock | malloclab-handout/mm.c:474-492 | freeing all live blocks in any order leaves that one block |
| HeapTheorems.BytesConserved | malloclab-handout/mm.c:650-667 | live and free sizes sum to the heap end minus 128 |
| HeapTheorems.MallocMovesBytes | malloclab-handout/mm.c:399-422 | live bytes rise by the block's size and free bytes fall by it, plus max(asize,128) exactly when the heap grew |
| HeapTheorems.FreeMovesBytes | malloclab-handout/mm.c:474-492 | free bytes rise by exactly the freed block's size |
| HeapClient.StepKeeps | malloclab-handout/mm.c:399-492 | under the contracts of the routines, every block an operation does not name stays in place, in size and word for word; a client store keeps the invariant |
| HeapClient.RunKeepsBlocks | malloclab-handout/mm.c:399-492 | the same over every stretch of every run |
| HeapClient.Exec | malloclab-handout/mm.c:399-492 | each client operation, carried out by the routines on a valid heap, leaves a valid heap and is a step of the model, or a fault of mm_realloc |
| HeapClient.RunClient | malloclab-handout/mm.c:366-492 | from an empty region, mm_init and any operations the allocator allows: every heap on the way satisfies the invariant, the first has no live block, and the run is a run of the model |
| HeapClient.HeldIsLive | malloclab-handout/mm.c:399-492 | the pointers returned and not given back are exactly the live blocks |
| HeapChecker.CheckBlock | malloclab-handout/mm.c:721-750 | on any heap where the block can be read, the number of its tests that fail |
| HeapChecker.NoBlockErrors | malloclab-handout/mm.c:721-750 | on a valid heap none does |
| HeapChecker.CheckLinks | malloclab-handout/mm.c:755-770 | the link walk ends, finds no broken link, and counts the nodes |
| HeapChecker.CountFree | malloclab-handout/mm.c:775-783 | the walk over the implicit list counts as many free blocks as there are list nodes |
| HeapChecker.CheckRange | malloclab-handout/mm.c:789-799 | no list node lies outside the heap |
| HeapChecker.CheckBuckets | malloclab-handout/mm.c:801-928 | whatever the sizes in the lists, the number of nodes whose size does not belong in their list |
| HeapChecker.NoneMisplaced | malloclab-handout/mm.c:801-928 | on a valid heap there is none |
| HeapChecker.MmCheckHeap | malloclab-handout/mm.c:497-540 | the whole checker ends, returns 0 and reports nothing on every valid heap |
| HeapChecker.LengthsCountNodes | malloclab-handout/mm.c:755-783 | the lengths of the fourteen lists add up to the number of free blocks |
| LruModel.RecencyFacts | cachelab-handout/csim.c:120-164 | the recency list of a history has exactly its tags, each once |
| LruModel.RecencyByLastUse | cachelab-handout/csim.c:120-164 | it is in falling order of last use |
| LruModel.TouchCommutesWithTake | cachelab-handout/csim.c:128-164 | forgetting all but the e most recent before an access loses nothing after it |
| CacheTraces.TagAndSetNameTheBlock | cachelab-handout/csim.c:124-127 | two addresses share tag and set if and only if they share their block |
| CacheTraces.SetAndTagInNumbers | cachelab-handout/csim.c:124-127 | the set index is the block number modulo 2^s and the tag is the address divided by 2^(s+b) |
| CacheTraces.PowersOfTwo | cachelab-handout/csim.c:88 | the number of sets doubles with each index bit, from one |
| CacheTraces.StepByOp | cachelab-handout/csim.c:111-168 | ignored lines do nothing, loads and stores are one reference, a modify is a hit and one reference |
| CacheTraces.ReferenceCounts | cachelab-handout/csim.c:120-164 | a reference touches only the set of its address and counts one hit or one miss, and an eviction for a miss in a full set |
| CacheTraces.OneMoreLine | cachelab-handout/csim.c:111-168 | what each kind of line adds to the number of references and to the tags of each set |
| CacheTraces.SetsHoldMostRecent | cachelab-handout/csim.c:120-164 | after every trace each set holds exactly the min(E, seen) most recent distinct tags mapped to it, in order |
| CacheTraces.RecentMeansFewNewer | cachelab-handout/csim.c:145-152 | a tag is among the e most recent if and only if fewer than e tags have been used since its last use |
| CacheTraces.HitsAreRecent | cachelab-handout/csim.c:128-143 | the next access counts a hit if and only if its tag has been used and fewer than E tags of its set since |
| CacheTraces.SmallerSetIsPrefix | cachelab-handout/csim.c:128-164 | with E lines a set holds a prefix of what it holds with E+1 lines |
| CacheTraces.MoreLinesNeverHurt | cachelab-handout/csim.c:128-164 | one more line per set never lowers hits and never raises misses, over any trace |
| CacheTraces.ModifyIsLoadThenStore | cachelab-handout/csim.c:114-118 | the modify shortcut equals a load then a store at the same address: same sets, same counters |
| CacheTraces.CountersBalance | cachelab-handout/csim.c:111-165 | hits + misses = loads + stores + 2 modifies, and misses - evictions = valid lines, at most 2^s E |
| CacheSimulator.HitTouches | cachelab-handout/csim.c:131-136 | stamping the line found moves its tag to the front of the recency order |
| CacheSimulator.FillTouches | cachelab-handout/csim.c:154-162 | filling an empty line puts the tag in front and drops none |
| CacheSimulator.EvictTouches | cachelab-handout/csim.c:145-158 | the line of least age in a full set is the last of the recency order, and replacing it is one LRU step |
| CacheSimulator.CacheSim.constructor | cachelab-handout/csim.c:88-98 | all lines empty with age 0, which is the start of every run |
| CacheSimulator.CacheSim.FindTag | cachelab-handout/csim.c:129-140 | a valid line with the tag, or none has it |
| CacheSimulator.CacheSim.FindOldest | cachelab-handout/csim.c:145-152 | the first line of least age |
| CacheSimulator.CacheSim.Hit | cachelab-handout/csim.c:131-138 | one LRU touch of the set and one hit |
| CacheSimulator.CacheSim.Miss | cachelab-handout/csim.c:142-164 | one LRU touch of the set and one miss, with an eviction if and only if the set was full |
| CacheSimulator.CacheSim.Refill | cachelab-handout/csim.c:153-163 | only the victim line changes; an eviction is counted when it was valid |
| CacheSimulator.CacheSim.Refer | cachelab-handout/csim.c:120-164 | one access takes the recency lists and counters to those of the abstract reference |
| CacheSimulator.CacheSim.Access | cachelab-handout/csim.c:111-168 | one trace line, the fall-through of M and ignored letters included |
| CacheSimulator.CacheSim.Simulate | cachelab-handout/csim.c:105-169 | the whole trace ends in the state of the abstract run, with its hits, misses and evictions |
| ObjectCacheModel.EvictKeepsLongestPrefix | proxylab-handout/cache.c:104-120 | eviction keeps exactly the longest prefix of the recency order whose total is at most the target |
| ObjectCacheModel.ToFrontKeeps | proxylab-handout/cache.c:93-99 | moving to the front is a permutation that keeps the total and the order of the others |
| ObjectCacheModel.InsertFits | proxylab-handout/cache.c:158-169 | an insert puts the object first, fits the budget, and drops a suffix no smaller one of which would have done |
| ObjectCacheModel.InsertAtLimits | proxylab-handout/cache.c:158-169 | an object of more than 102400 bytes changes nothing, and one within the 1049000 bytes pushes nothing out |
| ObjectCacheModel.CacheIsMostRecent | proxylab-handout/cache.c:126-169 | over any run of get-if-present-else-insert the budget holds, no id is cached twice, and what is cached are the most recently requested objects that are small enough, in order of last request |
| ObjectCacheModel.CacheIsLongestPrefix | proxylab-handout/cache.c:104-169 | when every id always comes with one size, the k most recent are cached if and only if together they fit the budget |
| ObjectCacheModel.EntriesWereServed | proxylab-handout/cache.c:126-169 | every cached entry is one that was inserted, and it is the one last inserted under its id |
| ObjectCacheModel.LookupFindsStored | proxylab-handout/cache.c:142-153 | a lookup that finds an id finds the object last inserted under it |
| ObjectCacheModel.DistinctCovers | proxylab-handout/cache.c:126-153 | with distinct ids the first match is the only one |
| ObjectCache.CacheBlock.constructor | proxylab-handout/cache.c:34-45 | a copy of the first size bytes, unlinked |
| ObjectCache.CacheManager.constructor | proxylab-handout/cache.c:20-29 | an empty cache behind a fresh sentinel |
| ObjectCache.CacheManager.InsertAfterHead | proxylab-handout/cache.c:51-67 | the block becomes the first, links stay inverse both ways, counters follow |
| ObjectCache.CacheManager.DetachFromList | proxylab-handout/cache.c:75-88 | exactly this block leaves, the others keep their order, counters follow |
| ObjectCache.CacheManager.MoveToHead | proxylab-handout/cache.c:93-99 | one block moves to the front, same blocks, same order of the others |
| ObjectCache.CacheManager.Evict | proxylab-handout/cache.c:104-120 | ends, never unlinks the sentinel, and leaves what the model's eviction leaves |
| ObjectCache.CacheManager.DropLast | proxylab-handout/cache.c:112-116 | the last block leaves and the one before it ends the list |
| ObjectCache.CacheManager.Check | proxylab-handout/cache.c:126-136 | true if and only if some cached entry has the id |
| ObjectCache.CacheManager.Get | proxylab-handout/cache.c:142-153 | the first entry with the id, moved to the front, or NULL and no change if there is none |
| ObjectCache.CacheManager.Insert | proxylab-handout/cache.c:158-169 | a copy goes to the front after eviction; an oversized object changes nothing |
| ObjectCache.CacheManager.MakeRoom | proxylab-handout/cache.c:162-165 | after it the object fits the budget, and nothing leaves when it fitted before |
| ObjectFetch.CachedIsForwarded | proxylab-handout/proxy.c:267-281 | what is cached is what is forwarded if and only if that is at most 102400 bytes; it never exceeds them |
| ObjectFetch.CountedIs | proxylab-handout/proxy.c:267 | each line counts one byte more, a NUL, unless a newline comes within the room of the buffer |
| ObjectFetch.KeptOrSkipped | proxylab-handout/proxy.c:268-271 | a line is kept if and only if it fits behind what is kept, and then the next is looked at |
| ObjectFetch.KeptWithGap | proxylab-handout/proxy.c:268-271 | a line that does not fit is left out although a shorter one behind it is kept |
| ObjectFetch.ForwardedIsResponse | proxylab-handout/proxy.c:267-273 | what is forwarded is the response if and only if the response is empty or ends with a newline, and no 8191 bytes in a row are without one; otherwise it is strictly longer |
| ObjectFetch.CachedIsResponse | proxylab-handout/proxy.c:267-281 | a response of such lines is cached as it is if and only if it has at most 102400 bytes |
| ObjectFetch.LongResponse | proxylab-handout/proxy.c:267-281 | for every line buffer and every fill of the object buffer: n empty lines are forwarded whole and kept up to the limit, a longer response is cached truncated |
| ObjectFetch.LongObject | proxylab-handout/proxy.c:267-281 | with the buffers of proxy.c: n empty lines are all forwarded, and the first 102400 of them are the object |
| ObjectFetch.UnendedLine | proxylab-handout/proxy.c:267-273 | a response of one byte without a newline is forwarded with a NUL behind it |
| ObjectFetch.ProxyHoldsMostRecent | proxylab-handout/proxy.c:225-281 | after any run of requests the cache holds the most recently requested objects, in order of last request, each id once, within the budget |
| ObjectFetch.ProxyHoldsAllThatFit | proxylab-handout/proxy.c:225-281 | and when each object always has one size, the k most recent are held if and only if together they fit |
| Proxy.ReadLine | proxylab-handout/proxy.c:267 | the next line of the server as it is counted; none if and only if the stream is at its end |
| Proxy.KeepLine | proxylab-handout/proxy.c:268-271 | the line goes behind what is kept if it fits, and is skipped otherwise |
| Proxy.HandleLine | proxylab-handout/proxy.c:268-275 | one turn of the loop: kept and forwarded go on by this line |
| Proxy.NextTurn | proxylab-handout/proxy.c:267-277 | that turn and the reading of the next line, of which less is left |
| Proxy.FetchObject | proxylab-handout/proxy.c:261-277 | the loop ends, for every schedule of short reads and writes; the buffer holds the model's object, and the client, if no write fails, has been sent all that is forwarded |
| Proxy.ServeCached | proxylab-handout/proxy.c:191-202 | the object found moves to the front and goes to the client byte for byte |
| Proxy.Serve | proxylab-handout/proxy.c:225-281 | one request: a hit is served from the cache, a miss is fetched, forwarded and cached as the model says |
| Proxy.Connect | proxylab-handout/proxy.c:206-284 | one request over fresh connections: the cache follows the model even if a write to the client fails, and otherwise the client is sent what the model answers |
| Proxy.ServeRequests | proxylab-handout/proxy.c:206-284 | any run of requests over fresh connections, from an empty cache: the cache is the model's, and every client whose writes do not fail is sent the model's answer, whatever the schedules |
| Proxy.AnswersAreResponses | proxylab-handout/proxy.c:225-281 | when all responses for an object have short ended lines and at most 102400 bytes, its clients are sent one of those responses byte for byte |
| Rio.ReadN | proxylab-handout/csapp.c:531-550 | the next min(n, remaining) bytes of the stream under every schedule without a failure |
| Rio.WriteN | proxylab-handout/csapp.c:557-574 | exactly the n bytes in order under every schedule without a failure; after a failure a prefix of them |
| Rio.LineFacts | proxylab-handout/csapp.c:657-677 | a line is a prefix without an inner newline that stops at a newline, at the room given or at the end |
| Rio.LineIs | proxylab-handout/csapp.c:662-674 | those three reasons to stop determine the line |
| RioSessions.CountIsLength | proxylab-handout/csapp.c:662-676 | the count returned equals the bytes stored if and only if a newline comes within the room there is, or there was room and nothing to read |
| Rio.CountIsLengthOrMore | proxylab-handout/csapp.c:662-676 | and otherwise it is exactly one more |
| Rio.NextLineIs | proxylab-handout/csapp.c:657-677 | what is stored: a prefix of what is to come, at most maxlen-1 bytes, no newline before the last, shorter only at a newline or at the end |
| Rio.LineEnds | proxylab-handout/csapp.c:662-666 | the line stored ends with a newline if and only if one is among the first maxlen-1 bytes to come |
| Rio.CountExceedsLength | proxylab-handout/csapp.c:662-676 | a last line of one byte without a newline: one byte is stored and two are counted |
| RioSessions.StoredLength | proxylab-handout/csapp.c:662-676 | the bytes stored can always be told from the count and the last byte counted |
| Rio.RioBuffer.constructor | proxylab-handout/csapp.c:619-624 | nothing taken from the stream yet |
| Rio.RioBuffer.Read | proxylab-handout/csapp.c:587-612 | the next bytes of the stream, at most n, none only at its end or on an error; an interrupt is not seen by the caller |
| Rio.RioBuffer.Refill | proxylab-handout/csapp.c:591-602 | ends for every schedule and loses no byte |
| Rio.RioBuffer.ReadNB | proxylab-handout/csapp.c:631-650 | exactly the next min(n, remaining) bytes; after a failure fewer than n bytes have been taken and stored |
| Rio.RioBuffer.ReadLineB | proxylab-handout/csapp.c:657-677 | stores exactly the next line and a terminator, and takes no byte beyond it; after a failure the bytes taken are stored and end no line |
| RioSessions.SegmentsAreConsecutive | proxylab-handout/csapp.c:587-677 | any interleaving of byte and line reads delivers consecutive, gap-free segments of the stream |
| RioSessions.SegmentIs | proxylab-handout/csapp.c:587-677 | a byte read delivers min(n, remaining) bytes, a line read the next line |
| RioSessions.Session | proxylab-handout/csapp.c:587-677 | a client's calls through one buffer return those segments, which depend on the stream and the calls alone and not on the schedule |
| JobControl.StepKeepsInv | shelllab-handout/tsh.c:243-356 | each launch, fg, bg, batch of reports and end of a wait keeps the table and foreground invariant |
| JobControl.ReapedAllKeeps | shelllab-handout/tsh.c:562-580 | a batch of reports only clears slots and stops jobs |
| JobControl.ReportDecides | shelllab-handout/tsh.c:562-580 | a stop sets the state of just that job to ST, an exit or a signal clears just its slot and makes the next id follow the largest |
| JobControl.BatchDecides | shelllab-handout/tsh.c:562-580 | after a batch a slot is clear if its job exited or was signaled in it, stopped if it only stopped, and as before otherwise |
| JobControl.StopEndsWait | shelllab-handout/tsh.c:255-258 | a foreground job that stops is ST and its wait ends |
| JobControl.ContinueDecides | shelllab-handout/tsh.c:301-356 | fg makes the job with the id the foreground job, bg puts it into the background, and no other slot changes |
| JobControl.AddedIs | shelllab-handout/tsh.c:652-679 | a new job takes the first free slot under the next id, which goes from 16 back to 1; with a full table nothing happens |
| JobControl.WaitEnds | shelllab-handout/tsh.c:255-258 | when a wait may end no job is in the foreground |
| JobControl.JobControlIsSafe | shelllab-handout/tsh.c:243-356 | over every run: at most one job is in the foreground and none at the prompt, each slot is clear or fully set, pids are distinct |
| JobControl.WaitGuard | shelllab-handout/tsh.c:255-256 | the guard never reads through NULL and holds exactly while the launched job is in the table and not stopped |
| JobControl.EvalWaitsForItsJob | shelllab-handout/tsh.c:255-258 | in every reachable wait of eval, it may end if and only if its job was deleted or is stopped |
| JobControl.AddKeepsJidsDistinct | shelllab-handout/tsh.c:660-666 | adding a job keeps job ids distinct if and only if the next id is not in use |
| JobControl.DeleteMakesNextFresh | shelllab-handout/tsh.c:690-693 | after a deletion the next id is not in use |
| JobControl.JidsCanRepeat | shelllab-handout/tsh.c:660-693 | a run of sixteen launches, two exits and two launches after which two live jobs have id 1 |
| ShellJobs.JobList.constructor | shelllab-handout/tsh.c:631-637 | all slots clear, next id 1 |
| ShellJobs.JobList.ClearJob | shelllab-handout/tsh.c:622-628 | one slot is clear and the others are as before |
| ShellJobs.JobList.InitJobs | shelllab-handout/tsh.c:631-637 | every slot is clear |
| ShellJobs.JobList.GetMaxJid | shelllab-handout/tsh.c:640-649 | the largest id in the table, at least 0 |
| ShellJobs.JobList.AddJob | shelllab-handout/tsh.c:652-679 | the first free slot holds the job under the next id, which wraps to 1 after 16; refused for pid below 1 or a full table |
| ShellJobs.JobList.DeleteJob | shelllab-handout/tsh.c:682-698 | the job's slot is clear and the next id follows the largest in use; nothing changes for an unknown pid |
| ShellJobs.JobList.GetFgPid | shelllab-handout/tsh.c:701-709 | the pid of the first foreground job, or 0 |
| ShellJobs.JobList.GetJobPid | shelllab-handout/tsh.c:712-722 | the first slot with the pid, or NULL |
| ShellJobs.JobList.GetJobJid | shelllab-handout/tsh.c:725-735 | the first slot with the id, or NULL |
| ShellJobs.JobList.SigchldHandler | shelllab-handout/tsh.c:556-582 | the batch of reports takes the table to the model's |
| ShellJobs.JobList.Launch | shelllab-handout/tsh.c:243-250 | the parent's part of eval is the model's launch |
| ShellJobs.JobList.MustWait | shelllab-handout/tsh.c:255-256 | evaluates the guard of the wait |
| ShellJobs.JobList.Fg | shelllab-handout/tsh.c:301-319 | fg with a job id is the model's step |
| ShellJobs.JobList.Bg | shelllab-handout/tsh.c:329-347 | bg looks the job up by id and sets it by pid, which is the same job because pids are distinct |
| ShellJobs.EvalForeground | shelllab-handout/tsh.c:243-259 | the invariant holds after the wait, which ends only with the job deleted or stopped |
| ShellJobs.MayAct | shelllab-handout/tsh.c:243-356 | whether an action is enabled, found by the lookup routines and the guards of the waits |
| ShellJobs.Act | shelllab-handout/tsh.c:243-356 | each enabled action, carried out by its routine, is the model's step |
| ShellJobs.RunActions | shelllab-handout/tsh.c:243-356 | any actions from an empty table, until one that is not enabled: the run is a run of the model and its invariant holds |
| CommandLines.ScanPrint | shelllab-handout/tsh.c:445-510 | scanning a printed line takes in its own items one by one, up to a redirection given twice or the 127th argument |
| CommandLines.Explain | shelllab-handout/tsh.c:445-510 | every line scanned without error is, to its end or to the argument that fills the list, a printed line of well-formed items |
| CommandLines.ParsePrint | shelllab-handout/tsh.c:416-541 | a printed line of any length parses to its arguments, files and background mark, and is rejected if and only if a redirection is given twice; only the items up to the 127th argument count, and what follows is dropped without an error |
| CommandLines.ParseIsTheGrammar | shelllab-handout/tsh.c:416-541 | a line parses to a command if and only if it is spelled by items with that meaning, to its end or to the 127th argument |
| CommandLines.QuoteParse | shelllab-handout/tsh.c:416-541 | quoting any arguments and files, with an optional final ampersand, and parsing the line gives the same command back |
| TypedLines.TypedParses | shelllab-handout/tsh.c:416-541 | any words, quoted or bare, with any runs of spaces, tabs and line ends between them, an input and an output file behind < and >, and a final ampersand: the line parses to just these |
| TypedLines.BareWordParses | shelllab-handout/tsh.c:470-477 | a word free of the four delimiters that starts with no quote or operator is one argument as it is |
| TypedLines.OperatorNeedsFile | shelllab-handout/tsh.c:512-516 | an operator without a file is an error |
| TypedLines.QuoteNeedsMatch | shelllab-handout/tsh.c:479-484 | an unmatched quote is an error |
| CommandLines.CutToken | shelllab-handout/tsh.c:470-484 | a printed token, quoted or bare, is cut off whole, whatever follows it |
| CommandLines.CutPrints | shelllab-handout/tsh.c:470-484 | whatever is cut off is such a token |
| Tokenizer.Parser.ParseLine | shelllab-handout/tsh.c:416-541 | ends; the strings behind argv, infile and outfile in the buffer, the terminating NULL, the builtin by its name and the result are those of the parsed command; -1 for every rejected line |
| Tokenizer.Parser.Tokens | shelllab-handout/tsh.c:445-510 | the loop ends in the state of the scan, with all recorded strings intact |
| Tokenizer.Parser.OneToken | shelllab-handout/tsh.c:450-509 | one turn makes the progress the scan makes, or an error the scan makes too |
| Tokenizer.Parser.TokenEnd | shelllab-handout/tsh.c:470-484 | start and end of the token at the pointer; NULL if and only if a quote is unmatched |
| Tokenizer.Parser.Terminate | shelllab-handout/tsh.c:486-487 | the NUL ends this token and leaves every recorded string as it was |
| Tokenizer.Parser.RecordToken | shelllab-handout/tsh.c:486-504 | the token goes to argv, infile or outfile as the pending redirections say; two pending ones are an error |
| Tokenizer.Parser.TakeToken | shelllab-handout/tsh.c:470-504 | the text recorded is the text cut off, and the rest of the line is still unread |
| Tokenizer.Parser.Conclude | shelllab-handout/tsh.c:512-540 | the builtin and the end of argv; an error if a redirection still lacks its file |
| Tokenizer.Parser.Background | shelllab-handout/tsh.c:536-540 | a last argument that starts with an ampersand leaves argv and sets the result |
| Tokenizer.Parser.WhichBuiltin | shelllab-handout/tsh.c:524-534 | the builtin whose name the first argument is |
| Tokenizer.TextsKeep | shelllab-handout/tsh.c:486-499 | strings that end before a position do not change when the buffer changes behind it |

## Left out

- Pointers: addresses are offsets from the fixed base, and `p2w`/`w2p` are covered by their own lemma rather than at every use.
- `mem_sbrk`: memlib.c is not part of this model; a request is granted exactly when it fits a region of any size below 4 GiB, and the first request of `mm_init` is granted.
- Allocator.Mm.MmRealloc: a copy through NULL or past the end of the new block is reported as `fault` and not carried out.
- Allocator.Mm.Move: reports the same faults and does not carry them out.
- Allocator.Mm.MmInit: assumes a region of at least 128 bytes, since the source compares the first result of `mem_sbrk` with NULL and not with -1.
- Allocator.Mm.Prologue: assumes a region of at least 128 bytes.
- Allocator.Mm.ExtendHeap: assumes at least three words, since fewer would make a block smaller than the least; `mm_init` and `mm_malloc` ask for 32 and more.
- HeapChecker.CheckBuckets: the fourteen walks, equal but for their bounds, are one loop over the buckets.
- HeapChecker.MmCheckHeap: messages are counted, not printed; the verbose listing is left out.
- `calloc`, `printlist`, `printblock` and the C assertions of the allocator: no property of their own.
- CacheSimulator.CacheSim.Refer: assumes the clock stays below 2^31, as it does for every trace of fewer accesses.
- CacheSimulator.CacheSim.Access: assumes the same of the clock.
- CacheSimulator.CacheSim.Simulate: assumes the same of the clock, over the whole trace.
- csim's option parsing, reading of trace files and the width of `mask_tag`: a trace is a sequence of operations and addresses, and the tag is the address shifted right by s+b.
- The proxy's networking, header rewriting, error pages and threads: a request is its object's id and the server's answer, and `Rio_readlineb` ends the process when a read fails, so server connections do not fail.
- The `memset` of the line buffer in `doit`: the bytes cleared are not read again before they are overwritten.
- Locks of the object cache: each operation is one atomic step; nothing is said about `cache_insert` taking its mutex twice or keeping it on an oversized object.
- Descriptors of Rio fail with -1 only.
- Socket, process, signal and stdio wrappers of `csapp.c`: thin wrappers with no state.
- ShellJobs.JobList.Fg: excludes a raw pid, where the source uses an unset job id, and unknown ids.
- ShellJobs.JobList.Bg: excludes a raw pid and unknown ids.
- ShellJobs.JobList.SigchldHandler: assumes a stopped child is in the table; the source would write through NULL otherwise.
- ShellJobs.EvalForeground: assumes the same of every batch of reports.
- ShellJobs.RunActions: stops at a report that names a stopped child not in the table.
- `io_redirect`, the signals sent to processes, `quit`, `jobs` and what children do: outside the job table.
- Tokenizer.Parser.ParseLine: assumes a non-NULL line of fewer than 1024 characters, which is what `main` passes on; the half-filled structure of a rejected line is not described.
- `datalab-handout/bits.c` and `cachelab-handout/trans.c`: separate exercises, fixed-width bit puzzles and three matrix shapes, with no state shared with these programs.
