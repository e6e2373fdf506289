# Verified core of the engine

A Dafny model of five parts of the engine, with proofs:

- **The memory manager** (`Zend/zend_alloc.c`), in the 64-bit configuration without debug headers, magic
  numbers or cookies: alignment 8, header 16, smallest block 32, 64 buckets, small blocks below 544 bytes.
- **Copy-on-write assignment** (`Zend/zend_execute.c`, `Zend/zend.h`).
- **Module ordering and startup** (`Zend/zend_API.c`).
- **Exception chaining** (`Zend/zend_exceptions.c`).
- **The thread-safe resource manager** (`TSRM/TSRM.c`).

`dafny verify dfyconfig.toml` checks everything.

## How the memory manager is modelled

The heap is a class (`MemoryManager.Heap`, file `Heap.dfy`) that updates header words, segment list, cache
lists and totals in place and owns the free index, another class (`FreeIndex.FreeIndex`) that updates link words, bucket
heads and bitmaps. What these words mean is a value beside them: which blocks there are, who owns them,
which ring or trie node a free block stands in. One invariant ties words and meaning together
(`HeapState.Inv`, `FreeIndexState.Inv`), and every operation keeps it.

| file | content |
|---|---|
| `Bits.dfy`, `Sizes.dfy` | bit scans, word arithmetic that wraps, true sizes, segment sizes, `safe_address` |
| `Rings.dfy`, `RingSets.dfy` | doubly linked rings with a head, and disjoint families of them |
| `Paths.dfy`, `Tries.dfy` | the bitwise tries of large blocks, by path number |
| `FreeIndexState.dfy`, `FreeIndexSteps.dfy`, `TrieSearch.dfy`, `FreeIndex.dfy`, `FreeIndexTheorems.dfy` | the free index: invariant, effects, what the trie search finds, the class, consequences |
| `HeapLayout.dfy`, `Sums.dfy`, `HeapState.dfy`, `HeapSteps.dfy`, `HeapChanges.dfy` | tiling, totals, the heap invariant and every change of it as a value |
| `Effects.dfy` | heap and index together: what every operation leaves behind in both |
| `Storage.dfy` | the storage below the heap: it may refuse, otherwise returns aligned, disjoint segments; it keeps a record of its replies |
| `Requests.dfy` | what becomes of every request, decided from the heap before the call and, where a segment is asked for, the storage's reply |
| `Heap.dfy` | the class: allocation, free, reallocation, cache flush, shutdown, limit and usage |
| `HeapTheorems.dfy` | tiling by walking the words, disjoint live blocks, conservation of bytes |
| `IndexTheorems.dfy` | on which list a rest or a freed run ends, and that no flush leaves an empty segment |
| `HeapClient.dfy` | the heap refines a store of independent byte arrays, over any sequence of calls |
| `Assignment.dfy`, `Modules.dfy`, `Exceptions.dfy`, `ThreadResources.dfy` | the four other parts |

A bail-out is a result (`Outcome`), not a jump. Memory contents are a map from addresses to bytes that only
`memcpy`, the storage's own move on a segment resize, and callers change. Header words, link words and payload are kept in
separate maps; they do not alias because blocks do not overlap.

Six properties one might expect do not hold of the code in general. For each there is a statement of exactly
when it holds, and a state in which it fails:

- The search of the tries finds a best fit if and only if the best fitting node stands where it looks: in the
  bucket of the request on the path of its bits or one step off it, in a higher bucket at the root
  (`FreeIndex.FreeIndex.SearchLarge`, `FreeIndexTheorems.MissedBestFitExample`). Sound, complete and exact-fit search do hold.
- The walk meant to find the smallest block of a bucket returns it if and only if the bucket's root is the
  smallest (`FreeIndex.FreeIndex.SmallestIn`, `FreeIndexTheorems.RootNotSmallestExample`).
- Removing a small block from the rest list can clear a bit of the small bitmap that is still needed
  (`FreeIndexTheorems.LostBitIff`, `FreeIndexTheorems.LostBitExample`). The small search passes by exactly the rings that have
  lost their bits (`FreeIndex.FreeIndex.SearchSmall`); a lost bit comes back only after the ring has been emptied
  (`FreeIndexTheorems.RemovedLost`, `FreeIndexSteps.AddedKeepsLost`).
- A storage refusal while a segment is resized loses a free block to the index if and only if that block
  lies behind the block being resized; the storage is asked exactly if the resized segment stays within the limit
  (`MemoryManager.Heap.Realloc`, `MemoryManager.Heap.ReallocSegment`, `Requests.CorneredExample`).
- Reported usage is the live total plus the bytes that went through a cache flush, because the flush lowers
  `cached` and not `size`. An allocation or reallocation keeps usage exact if and only if it was exact and the cache
  was empty or the request does not fail, overflow aside. Whether it fails is known before the call, but for the
  reply of the storage where a segment is asked for (`HeapTheorems.AllocKeepsUsageIff`,
  `HeapTheorems.ReallocKeepsUsageIff`, `Requests.FlushExample`).
- Freeing a thread's entry, by the thread itself or by a sweep, calls destructors on null: once for each released id
  that has one, so some call happens if and only if there is such an id and an entry is freed
  (`ThreadResources.Manager.FreeThread`, `ThreadResources.Manager.FreeWorkers`, `ThreadResources.NullCallsIff`, `ThreadResources.NullCallScenario`).

A comment in the source calls the worker sweep one for all threads except the current one; the code sweeps the
caller's hash bucket only, and the model follows the code.

## Model

| member | source | states |
|---|---|---|
| `Bits.HighBit` | Zend/zend_alloc.c:665-691 | the index of the highest set bit; for zero the counter wraps below zero |
| `Bits.LowBit` | Zend/zend_alloc.c:693-725 | the scan by nibbles finds the lowest set bit |
| `Bits.PowerOfTwoIffBitsAgree` | Zend/zend_alloc.c:1079 | lowest and highest set bit agree exactly for powers of two |
| `Sizes.MaskRoundIsLeastMultiple` | Zend/zend_alloc.c:1962 | masking rounds up to the least multiple of a power of two, or wraps below its argument |
| `Sizes.TrueSizeCoversOrWraps` | Zend/zend_alloc.c:539 | every word-sized request has an aligned true size that covers it and its header tightly, or wraps to a small one that the guard catches |
| `Sizes.SegmentSizeCoversOrWraps` | Zend/zend_alloc.c:1958-1970 | for every power-of-two unit, a segment is the least multiple of the unit with room for header and guard, or its size is below the true size; the latter exactly when the sum wraps or the unit cannot hold header and guard |
| `Sizes.SafeAddressExact` | Zend/zend_alloc.c:2461-2562 | over any word base, overflow is reported if and only if nmemb * size + offset does not fit, the high word cannot wrap, and otherwise the value is exact |
| `FreeIndex.FreeIndex.Init` | Zend/zend_alloc.c:892-917 | an empty index satisfies the invariant |
| `FreeIndex.FreeIndex.AddToFreeList` | Zend/zend_alloc.c:727-786 | the block joins the front of the small ring or trie ring of its size, or becomes a node at the one vacant place on the path of its bits; every other ring, trie place and list stays; the bit of a ring that was empty is set and no other bit changes; the descent ends because different sizes part within the bits of the bucket |
| `FreeIndex.FreeIndex.RemoveFromFreeList` | Zend/zend_alloc.c:788-859 | exactly this block leaves its ring; the place of a trie node goes to the last block of its ring, else to the leaf reached by right-first descent, and no other node moves; the small bitmap loses the bit the code clears |
| `FreeIndex.FreeIndex.AddToRestList` | Zend/zend_alloc.c:861-890 | oldest blocks move one by one to their free lists only when 16 large ones are held, up to and including the first large one; then the block is appended; the count of large ones is exact and at most 16; no ring loses or regains a lost bit |
| `FreeIndex.FreeIndex.SearchSmall` | Zend/zend_alloc.c:1922-1931 | what is found fits, is the oldest of its ring and never a sentinel, and is a smallest fitting one of all rings that have not lost their bits |
| `FreeIndex.FreeIndex.SearchRest` | Zend/zend_alloc.c:1940-1955 | the newest of the best fits of the rest list, or null exactly if none fits |
| `FreeIndex.FreeIndex.SearchLarge` | Zend/zend_alloc.c:1807-1878 | null if and only if no block of the tries is large enough; the result is large enough, exact if an exact one exists, and of the best fitting size if and only if the node of that size is within reach of the search; the node is the smallest fit of those examined in the bucket of the request, else the smallest on the walk of the next occupied bucket, and the block returned is the newest in the ring behind it, or the node itself if it is alone |
| `FreeIndex.FreeIndex.SearchBucket` | Zend/zend_alloc.c:1818-1860 | within the bucket of the request: null only if nothing fits, exact if possible, and a best fit of the bucket if and only if a best fit stands on the path of the request or one step off it; it is the smallest fit of all nodes on that path and on the walk from the last branch off it |
| `FreeIndex.FreeIndex.SmallestIn` | Zend/zend_alloc.c:1870-1877 | the smallest of all nodes on its walk, the walk being followed to its end; it is a smallest of its bucket if and only if the root is |
| `FreeIndexTheorems.OneList` | Zend/zend_alloc.c:727-890 | each free block is linked in exactly one small ring, trie ring or the rest list |
| `FreeIndexTheorems.OneNodePerSize` | Zend/zend_alloc.c:735-769 | large blocks of one size share one trie node and its ring |
| `FreeIndexTheorems.NodePlace` | Zend/zend_alloc.c:735-769 | a node at depth d agrees with its path on the d bits below the leading bit; its parent slot holds it and its children are its neighbours |
| `FreeIndexTheorems.AddedOnce` | Zend/zend_alloc.c:727-786 | what insertion promises leaves one index only: sizes, rings, trie places and bitmaps |
| `FreeIndexTheorems.RemovedOnce` | Zend/zend_alloc.c:788-859 | what removal promises leaves one index only |
| `FreeIndexTheorems.LostBitIff` | Zend/zend_alloc.c:845-851 | a removal clears a bit that is still needed if and only if a small block alone on the rest list leaves while the ring of its size holds one block |
| `FreeIndexTheorems.LostBitExample` | Zend/zend_alloc.c:845-851 | such a state satisfies the index invariant |
| `FreeIndexTheorems.RemovedLost` | Zend/zend_alloc.c:836-856 | after a removal the rings with lost bits are those from before and the ring of a stray small block, as far as they are still occupied |
| `FreeIndexSteps.AddedKeepsLost` | Zend/zend_alloc.c:727-786 | an insertion neither loses a bit nor restores a lost one |
| `FreeIndexTheorems.RootNotSmallestExample` | Zend/zend_alloc.c:1870-1877 | the index invariant allows a root that is not the smallest of its bucket |
| `FreeIndexTheorems.MissedBestFitExample` | Zend/zend_alloc.c:1850-1858 | the index invariant allows a best fitting node out of reach of the search |
| `MemoryManager.Startup` | Zend/zend_alloc.c:1042-1131 | a heap exists if and only if the unit is a power of two; it is valid, with at most the reserve allocated; the reserve is denied only for overflow, for the limit or by the storage |
| `MemoryManager.Heap.Finish` | Zend/zend_alloc.c:2026-2056 | the block keeps the true size if the rest can be a block and all of its run otherwise; the rest goes to the rest list or to the free list of its size as the caller asks, and nothing else in the index moves; heap words, `size` and `peak` follow |
| `MemoryManager.Heap.AllocSegment` | Zend/zend_alloc.c:1957-2013 | the limit is reported if and only if the segment needed would pass it, and only otherwise is the storage asked, once; its grant becomes the head of the list and grows `real_size` within the limit, its refusal turns the cached bytes into flushed ones |
| `MemoryManager.Heap.Alloc` | Zend/zend_alloc.c:1880-2057 | which of five ways a request goes, decided before the call: refused for overflow; served from the cache; served from the index whenever the search finds a fit, with the oldest of a smallest small ring, else the block the trie search names, else near the limit the newest best fit of the rest list; refused for the limit if and only if nothing is found and the segment would pass it; else the storage is asked. The whole heap and index after each way are stated: a served request gets one new block, and its rest goes to the rest list if and only if a segment was made for it alone; a refused one frees the reserve only and flushes the cache unless it overflowed |
| `IndexTheorems.AllocRest` | Zend/zend_alloc.c:1957-2044 | after an allocation a rest that can be a block is on the rest list if and only if a new segment was made for the request alone, and otherwise on the free list of its size |
| `MemoryManager.Heap.Release` | Zend/zend_alloc.c:2103-2119 | a used block that belongs to nobody and its free neighbours, taken off the index, become one block on the free list of its size; or, if that run fills its segment, the segment leaves the list and goes back; all else, index included, stays |
| `IndexTheorems.GivenBackLists` | Zend/zend_alloc.c:2103-2119 | after a block is given back, the run around it is on the free list of its size or its segment is gone, its free neighbours have left the index, every other block is where it was, and nothing comes to the rest list |
| `MemoryManager.Heap.FindSegment` | Zend/zend_alloc.c:919-930 | the walk along the list ends at the segment of the block |
| `MemoryManager.Heap.Free` | Zend/zend_alloc.c:2060-2121 | exactly this block changes hands: a small one goes to the front of its cache list while less than 256K is cached and the index stays; any other is taken off `size`, merged with its free neighbours and put on the free list of its size, or its emptied segment is given back; nothing for null |
| `MemoryManager.Heap.FreeCache` | Zend/zend_alloc.c:932-973 | the cached blocks are released one after the other, list by list, each merged and indexed or its segment given back; the cache is empty, no live block changes, `size` keeps the flushed bytes |
| `IndexTheorems.RefusedTidies` | Zend/zend_alloc.c:932-973 | a refused request puts no block on the rest list and leaves behind no segment that its flush emptied |
| `MemoryManager.Heap.SafeError` | Zend/zend_alloc.c:1743-1805 | the reserve and nothing else is freed, the overflow mark moves on |
| `MemoryManager.Heap.Resize` | Zend/zend_alloc.c:2225-2256 | a live block is stretched over its free successor, which leaves the index, and cut; the rest goes to the list the caller names; totals follow |
| `MemoryManager.Heap.Swap` | Zend/zend_alloc.c:2176-2217 | a cached block takes the place of the live one with its bytes; `size` does not change |
| `MemoryManager.Heap.ReallocSegment` | Zend/zend_alloc.c:2262-2357 | the limit is reported if and only if the resized segment would pass it, and only otherwise is the storage asked; on a grant the segment is resized in its place in the list, its free end leaves the index and the new rest joins the rest list, totals follow within the limit and the bytes move with it; a refusal leaves a valid heap if and only if it does not meet an unlinked free successor |
| `MemoryManager.Heap.MoveElsewhere` | Zend/zend_alloc.c:2359-2367 | a new block with the old bytes, the old block freed |
| `MemoryManager.Heap.Realloc` | Zend/zend_alloc.c:2123-2368 | which way a request goes, decided before the call: in place if the block or the block with its free successor is large enough, exchanged for a cached block, by resizing the segment if the block is alone in it, else by allocating, copying and freeing. The whole heap and index after each way are stated. On every way the first min(old, new) bytes are kept and no other live block is disturbed; a refusal keeps the block and flushes the cache unless the request overflowed; the heap is damaged if and only if the storage refuses to resize a segment whose free end was unlinked |
| `IndexTheorems.ReallocRest` | Zend/zend_alloc.c:2123-2368 | after a reallocation the rest is on the rest list if and only if a block alone in its segment was stretched or its segment resized, and otherwise, a shrink included, on the free list of its size |
| `Requests.CorneredExample` | Zend/zend_alloc.c:2257-2301 | a valid heap in which the storage is asked to resize a segment with an unlinked free end |
| `MemoryManager.Heap.SoftShutdown` | Zend/zend_alloc.c:1690-1740 | nothing stays allocated but a new reserve, which is granted if it fits into the kept segment; at most the last segment is kept, at its size; cache and flushed bytes are zero, `size` and `peak` are the reserve, `real_size` and its peak the segments |
| `MemoryManager.Heap.SetLimit` | Zend/zend_alloc.c:2694-2701 | the limit is never below one unit |
| `MemoryManager.Heap.Usage` | Zend/zend_alloc.c:2703-2714 | the total of the segments, or of the live blocks plus all bytes flushed so far |
| `MemoryManager.Heap.PeakUsage` | Zend/zend_alloc.c:2716-2723 | an upper bound of live, cached and flushed bytes, or of the segments |
| `HeapLayout.UnpackPack` | Zend/zend_alloc.c:496-523 | kind and size share one word without loss, and the free, guard and first-block tests read the kind |
| `HeapTheorems.WalkTiles` | Zend/zend_alloc.c:502-523 | following size words from the first block meets exactly the blocks of the segment without gaps up to the guard, and each block's word equals its successor's prev word |
| `HeapTheorems.LivePayloads` | Zend/zend_alloc.c:2026-2056 | live payloads are aligned, at least as long as asked, inside a segment, and pairwise disjoint |
| `HeapTheorems.UsedIsLiveAndCached` | Zend/zend_alloc.c:2049-2052 | `size` is the total of used-marked blocks, live and cached, plus the flushed bytes; `size - cached` is the live total if and only if no flushed bytes are in it |
| `HeapTheorems.AllocKeepsUsageIff` | Zend/zend_alloc.c:1957-2057 | after an allocation usage is exact if and only if it was and the cache was empty or the request does not fail, overflow aside; failing is decided by the heap before the call and the storage's reply if it is asked |
| `HeapTheorems.ReallocKeepsUsageIff` | Zend/zend_alloc.c:2123-2368 | the same for a reallocation that leaves the heap valid |
| `Requests.FlushExample` | Zend/zend_alloc.c:932-973 | a valid heap with exact usage, cached bytes and a request that hits the limit with every index of its free blocks |
| `HeapTheorems.Conservation` | Zend/zend_alloc.c:1999-2044 | `real_size` is live plus cached plus free bytes plus header and guard per segment |
| `HeapClient.Client.Alloc` | Zend/zend_alloc.c:1880-2057 | a new array, all others keep their bytes, and the heap answered as its state before the call demands; or nothing changes for the client |
| `HeapClient.Client.Free` | Zend/zend_alloc.c:2060-2121 | one array goes; all others keep their bytes; the heap and its index are those of the free |
| `HeapClient.Client.Realloc` | Zend/zend_alloc.c:2123-2368 | one array changes its length and keeps the common prefix, all others keep their bytes, and the heap answered as its state before the call demands |
| `HeapClient.Run` | Zend/zend_alloc.c:1880-2368 | any sequence of allocations, frees, writes, reallocations, limit changes and shutdowns acts on independent byte arrays: at each moment the arrays are what the heap holds at the client's pointers; each step is the one of its operation on heap and index, a request is refused only for overflow, limit or by the storage's recorded reply; and the run stops early only at a reallocation of a cornered block that the storage refused |
| `Assignment.Variables.AssignConst` | Zend/zend_execute.c:831-898 | refines changing the value of the target's group; which cell is overwritten, made or dropped, and every count and flag, is stated |
| `Assignment.Variables.AssignCell` | Zend/zend_execute.c:900-957 | the same for a value held in a cell, shared, copied or overwritten |
| `Assignment.Variables.AssignRef` | Zend/zend_execute.c:520-558 | refines moving the target to the group of the source; a plain source cell becomes a reference, copied first if others hold it |
| `Assignment.Variables.Break` | Zend/zend_execute.c:526-536 | a cell that is no reference becomes one of a single holder, copied if it was shared; no value or alias changes |
| `Assignment.Variables.Pair` | Zend/zend_execute.c:543-556 | two holders of one plain cell become aliases of each other and of nobody else |
| `Assignment.Variables.Declare` | Zend/zend_execute.c:187-217 | a variable fetched for writing starts on the shared uninitialized cell, in a group of its own |
| `Assignment.Variables.Get` | Zend/zend_execute.c:285-293 | a read gives the value of the simple store, null for a variable that is not there |
| `Assignment.Variables.Unset` | Zend/zend_execute.h:74-88 | one holder less: a cell without holders goes, one with a single holder left is no reference any more, no other cell changes, and no alias is lost or made |
| `Assignment.SetEffect` | Zend/zend_execute.c:831-957 | the new value is seen through the target and its aliases, every other variable keeps its value, aliases stay |
| `Assignment.RefEffect` | Zend/zend_execute.c:520-558 | the target stands where the source stands, and nothing changes between other variables |
| `Assignment.Run` | Zend/zend_execute.c:520-957 | any program of plain and reference assignments and removals refines the simple store, with every count equal to the number of holders; each step changes the cells as its statement demands |
| `Modules.FindLater` | Zend/zend_API.c:1826-1841 | finds a later module the current one depends on, or there is none or the module is started |
| `Modules.SameNameIff` | Zend/zend_API.c:1832 | a dependency names a module if and only if the names agree letter by letter whatever the case |
| `Modules.Sort` | Zend/zend_API.c:1814-1847 | for an acyclic relation the retry loop ends with a permutation in which no unstarted module has a required or optional dependency after it; it is the outcome of the rounds of the source's loop |
| `Modules.EndsIff` | Zend/zend_API.c:1814-1847 | on modules of different names the rounds come to an end if and only if the dependencies of the unstarted ones are acyclic |
| `Modules.RankedPermutes` | Zend/zend_API.c:1814-1847 | what ranks a list of modules ranks every permutation of it |
| `Modules.OrderedIsRanked` | Zend/zend_API.c:1814-1847 | a finished order exists only for an acyclic relation |
| `Modules.MutualDependence` | Zend/zend_API.c:1831-1837 | two unstarted modules that depend on each other are swapped forever |
| `Modules.StartModule` | Zend/zend_API.c:1751-1805 | a module starts if and only if it was started or its required modules are running, itself included, and its startup function succeeds |
| `Modules.StartModules` | Zend/zend_API.c:1807-1812 | what is kept is started and dependency-closed, and was started before or its startup function succeeds; after the sort a module is removed only if its startup fails or a required module is not there; none is removed if all are registered and work |
| `Modules.KeptIff` | Zend/zend_API.c:1751-1812 | after the pass over a sorted list a module is there if and only if it was started before, or its startup function succeeds and all it requires is running |
| `Modules.Startup` | Zend/zend_API.c:1927-1933 | both together, for any acyclic registry |
| `Exceptions.Context.SetPrevious` | Zend/zend_exceptions.c:37-65 | the two chains are joined end to start if they do not meet and nothing changes if they do; links stay acyclic |
| `Exceptions.ChainedOnce` | Zend/zend_exceptions.c:37-65 | the effect of chaining does not depend on how the two chains are given |
| `Exceptions.Context.Save` | Zend/zend_exceptions.c:67-77 | the pending exception is put aside in front of the one already saved |
| `Exceptions.Context.Restore` | Zend/zend_exceptions.c:79-90 | the saved exception is pending again, behind the current one |
| `Exceptions.Context.Throw` | Zend/zend_exceptions.c:92-115 | the thrown exception is pending, chained to the one before |
| `Exceptions.Run` | Zend/zend_exceptions.c:37-134 | from any valid context, each step of creating, throwing, saving or restoring is the one its operation names, and the links are acyclic after each of them |
| `Exceptions.Printer.Walk` | Zend/zend_exceptions.c:672-748 | on any links, cyclic or not, each reachable exception is printed exactly once, last one first, and all apply counts are zero again |
| `ThreadResources.Manager.constructor` | TSRM/TSRM.c:120-161 | an empty table is valid |
| `ThreadResources.Manager.AllocateId` | TSRM/TSRM.c:215-267 | every entry gets one new cell for the new id and keeps the others; the log of events grows |
| `ThreadResources.Manager.AllocateNew` | TSRM/TSRM.c:270-304 | an entry for the thread in its own bucket, with a cell for each id not released, and the thread's pointer to it; all others stay; the log of events grows; the mutex is given back |
| `ThreadResources.Manager.Resource` | TSRM/TSRM.c:308-379 | the array of the thread's one entry, or the cell made for that id in it, null exactly if the id is released, on the fast path as on the locked one; a thread without an entry gets one, and no other entry changes |
| `ThreadResources.Manager.LockedResource` | TSRM/TSRM.c:337-375 | the same under the mutex, which is free afterwards |
| `ThreadResources.OneEntry` | TSRM/TSRM.c:308-379 | a thread has at most one entry |
| `ThreadResources.SameBucketIff` | TSRM/TSRM.h:100 | two threads share a bucket if and only if their numbers differ by a multiple of the table size |
| `ThreadResources.ReadRight` | TSRM/TSRM.c:84-89 | reading an entry at an id gives a cell that was made for that id in an entry of this thread and is not freed, or null exactly if the id is released |
| `ThreadResources.SameCell` | TSRM/TSRM.c:308-379 | in any run a thread that asks twice for an id gets the same cell, unless that cell has been freed |
| `ThreadResources.Manager.FreeThread` | TSRM/TSRM.c:442-480 | exactly the caller's entry goes; the log grows by the destructor calls of its cells in order and then by their frees in order; destructors are called on null once for each released id that has one if there was an entry, and not otherwise |
| `ThreadResources.Manager.FreeWorkers` | TSRM/TSRM.c:484-526 | exactly the other entries of the caller's bucket go; the log grows without a new cell; destructors are called on null once for each entry swept and each released id that has one |
| `ThreadResources.NullCallsIff` | TSRM/TSRM.c:454-463 | a freed entry costs a destructor call on null if and only if some released id has a destructor |
| `ThreadResources.SweepCosts` | TSRM/TSRM.c:484-526 | a sweep that meets another entry of its bucket while there is such an id makes such a call |
| `ThreadResources.NullCallScenario` | TSRM/TSRM.c:442-526 | a run in which a sweep and then a leaving thread both make such calls |
| `ThreadResources.Manager.FreeId` | TSRM/TSRM.c:530-560 | the id's cells are released and null in every thread, and later threads get none |
| `ThreadResources.Manager.Shutdown` | TSRM/TSRM.c:165-211 | every cell ever made is freed, and destroyed if it has a destructor |
| `ThreadResources.Run` | TSRM/TSRM.c:165-560 | in any run each step is the one of its operation, with the reply the right one for thread and id whichever path found it, the mutex free and every pointer leading to its thread's entry; after shutdown the log of events names each cell once as made, once later as freed, and in between as destroyed if and only if its type has a destructor |

## Left out

- Storage back ends, environment parsing, custom handlers: `Storage.dfy` stands for them and may refuse at any time.
- Debug headers, leak and heap checks, cookies, cache statistics, signal blocking: they do not change what the allocator means.
- The heap structure copied into its own memory at startup, the Windows shutdown variant, full shutdown and storage compaction.
- The floating-point fallback of `safe_address`: not an exact integer test.
- Error messages and `longjmp`: a failed request is an `Outcome`.
- MemoryManager.Heap.Realloc: in the corrupting outcome the model stops where the storage has refused; the cache flush and the bail-out that follow on the damaged heap are not modelled.
- MemoryManager.Heap.ReallocSegment: the list position is looked up before the segment is resized, while the source looks it up afterwards and only if the segment moved.
- MemoryManager.Heap.PeakUsage: states an upper bound, not that the bound was reached; how the peaks move is in the contracts of `Alloc` and `SoftShutdown`.
- Assignment: object `set` handlers, nested values, garbage-collector root buffering, and counts that wrap at 32 bits.
- Assignment.Variables.AssignCell: destructors of overwritten values are not modelled, because values are flat.
- Modules: version checks, conflicts at registration, module globals and what startup functions do.
- Exceptions: reference counts of exception objects, non-exception arguments, re-running a constructor on an existing object, and the text itself.
- Exceptions.Context.Throw: the hook and the redirection of the executing opcode are left out.
- ThreadResources: interpreter contexts, another thread's id as argument, begin and end handlers, failing allocations, and reads that race with a change; each call is one atomic step.
- ThreadResources.Manager.FreeWorkers: the threads whose entries it frees are taken to have ended, since their own pointers are not reset.
