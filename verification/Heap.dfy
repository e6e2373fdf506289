/** The heap in place: `alloc`, `free`, `realloc`, the cache flush and soft shutdown of the memory
    manager. A pointer handed to a caller is the block address plus the header. */
module MemoryManager {
  import opened Bits
  import opened Sizes
  import opened HeapLayout
  import opened Sums
  import opened HeapState
  import opened HeapSteps
  import opened HeapChanges
  import opened Effects
  import opened Requests
  import FI = FreeIndex
  import FS = FreeIndexState
  import FX = FreeIndexSteps
  import TS = TrieSearch
  import Storage

  class Heap {
    const index: FI.FreeIndex
    const storage: Storage.Provider
    var words: Words
    var segs: seq<Segment>
    var cache: seq<seq<int>>
    var books: Books
    var data: Memory
    ghost var view: View

    ghost function State(): HeapState
      reads this, index
    {
      HeapState(words, segs, cache, books, view.blocks, view.live, view.flushed, index.size)
    }

    ghost function Now(): Picture
      reads this, index
    {
      Picture(State(), index.State())
    }

    ghost predicate Valid()
      reads this, index
    {
      Inv(State()) && index.Valid()
    }

    /** The heap structure before its first segment. */
    constructor Bare(unit: nat, reserveSize: nat, memory: Memory)
      requires SegmentUnit(unit)
      ensures Valid() && fresh(index) && fresh(storage) && storage.replies == []
      ensures view == View(map[], map[], 0) && books == StartBooks(unit, reserveSize) && data == memory
      ensures index.size == map[] && forall i {:trigger cache[i]} :: 0 <= i < |cache| ==> cache[i] == []
    {
      index := new FI.FreeIndex();
      storage := new Storage.Provider();
      words := Words(map[], map[]);
      segs := [];
      cache := seq(NUM_BUCKETS, _ => []);
      books := StartBooks(unit, reserveSize);
      data := memory;
      view := View(map[], map[], 0);
      new;
      hide FS.Inv;
      BareOK(State());
    }

    // ----- handing a block out

    /** The end of every allocation: the used block `b` keeps `trueSize` bytes of its run of `n` and the
        rest, if it can be a block, goes to a free list or to the rest list. */
    method Finish(b: int, n: nat, trueSize: nat, req: nat, keepRest: bool)
      requires index.Valid() && b in view.blocks && Ready(State(), b) && BooksOK(State()) && view.blocks[b].size == n
      requires MIN_BLOCK <= trueSize <= n && trueSize % ALIGNMENT == 0 && req + HEADER <= trueSize
      modifies this`words, this`books, this`view, index
      ensures Valid()
      ensures b !in old(view.live) && b in view.live && trueSize <= view.live[b].size < trueSize + MIN_BLOCK
      ensures view.live == old(view.live)[b := Claim(req, view.live[b].size)] && view.flushed == old(view.flushed)
      ensures books == Paid(old(books), view.live[b].size)
      ensures State() == Handed(old(State()), b, trueSize, req)
      ensures RestPlaced(old(index.State()), index.State(), b, n, trueSize, keepRest)
    {
      ghost var h := State();
      hide Ready, BooksOK, Inv, FS.Inv, Placed;
      var rest := n - trueSize;
      if rest < MIN_BLOCK {
        GivenWholeOK(h, b, req);
        words := SetBlock(words, b, Used, n);
        books := Paid(books, n);
        view := view.(live := view.live[b := Claim(req, n)]);
      } else {
        GivenPartOK(h, b, trueSize, req);
        words := SetBlock(SetBlock(words, b, Used, trueSize), b + trueSize, Kind.Free, rest);
        AddFree(b + trueSize, rest, keepRest);
        books := Paid(books, trueSize);
        view := view.(blocks := Split(view.blocks, b, trueSize, true, false), live := view.live[b := Claim(req, trueSize)]);
      }
    }

    /** A free block of `n` bytes to the free lists or to the rest list. */
    method AddFree(b: int, n: nat, keepRest: bool)
      requires index.Valid() && b > 0 && b !in index.size && FS.BlockSize(n)
      modifies index
      ensures index.Valid() && index.size == old(index.size)[b := n]
      ensures Placed(old(index.State()), index.State(), b, n, keepRest)
    {
      hide FS.Inv, FX.Added, FX.Rested;
      ghost var x := index.State();
      if !keepRest {
        index.AddToFreeList(b, n);
        AddedSize(x, index.State(), b, n);
      } else {
        ghost var k;
        k := index.AddToRestList(b, n);
        RestedSize(x, index.State(), b, n, k);
      }
    }

    /** A block found in the index is taken out of it and handed out. */
    method Take(b: int, trueSize: nat, req: nat)
      requires Valid() && b in index.size && trueSize <= index.size[b]
      requires MIN_BLOCK <= trueSize && trueSize % ALIGNMENT == 0 && req + HEADER <= trueSize
      modifies this`words, this`books, this`view, index
      ensures Valid()
      ensures b !in old(view.live) && b in view.live && trueSize <= view.live[b].size < trueSize + MIN_BLOCK
      ensures view.live == old(view.live)[b := Claim(req, view.live[b].size)] && view.flushed == old(view.flushed)
      ensures books == Paid(old(books), view.live[b].size)
      ensures TakenFromIndex(old(Now()), b, trueSize, req, Now())
    {
      ghost var h := State();
      hide FS.Inv, RemovedIf, BooksOK, RestPlaced, Handed;
      TakenReady(h, b);
      var n := words.size[b].size;
      RemoveIf(b, true);
      view := view.(blocks := view.blocks[b := view.blocks[b].(used := true)]);
      assert State() == TakenOut(h, b);
      Finish(b, n, trueSize, req, false);
    }

    /** A small block from the cache list of its size. */
    method TakeCached(i: nat, req: nat) returns (b: int)
      requires Valid() && i < |cache| && cache[i] != [] && req + HEADER <= 8 * i + 32
      modifies this`cache, this`books, this`view
      ensures Valid()
      ensures b !in old(view.live) && view.live == old(view.live)[b := Claim(req, 8 * i + 32)]
      ensures view.flushed == old(view.flushed) && books == old(books).(cached := books.cached)
      ensures books.cached + (8 * i + 32) == old(books.cached) && b == old(cache[i][0])
      ensures TakenFromCache(old(Now()), i, req, Now())
    {
      ghost var h := State();
      CacheHitOK(h, i, req);
      hide FS.Inv, Inv;
      b := cache[i][0];
      cache := cache[i := cache[i][1..]];
      books := books.(cached := books.cached - (8 * i + 32));
      view := view.(live := view.live[b := Claim(req, 8 * i + 32)]);
    }

    /** A segment entered at position `k` of the list, its one block used and covering it. */
    method EnterSegment(k: nat, s: Segment)
      requires Valid() && k <= |segs| && FreshSegment(segs, s) && books.realSize + s.size < WORD
      modifies this`words, this`segs, this`books, this`view
      ensures index.Valid() && First(s) in view.blocks && Ready(State(), First(s)) && BooksOK(State())
      ensures view.blocks[First(s)] == Whole(s, true) && view.live == old(view.live) &&
        view.flushed == old(view.flushed)
      ensures books == Grown(old(books), s.size) && segs == Insert(old(segs), k, s)
      ensures State() == Entered(old(State()), k, s)
    {
      ghost var h := State();
      EnteredOK(h, k, s);
      hide FS.Inv, Inv, Ready, BooksOK;
      books := Grown(books, s.size);
      segs := Insert(segs, k, s);
      words := Words(words.size[End(s) := GUARD_MARK], words.prev[First(s) := FIRST_MARK]);
      view := view.(blocks := view.blocks[First(s) := Whole(s, true)]);
      assert State() == Entered(h, k, s);
    }

    /** A segment entered and its first block handed out. */
    method Furnish(k: nat, s: Segment, trueSize: nat, req: nat, keepRest: bool)
      requires Valid() && k <= |segs| && FreshSegment(segs, s) && books.realSize + s.size < WORD
      requires FS.BlockSize(trueSize) && req + HEADER <= trueSize && trueSize + SEGMENT_HEADER + HEADER <= s.size
      modifies this`words, this`segs, this`books, this`view, index
      ensures Valid()
      ensures First(s) !in old(view.live) && First(s) in view.live &&
        trueSize <= view.live[First(s)].size < trueSize + MIN_BLOCK
      ensures view.live == old(view.live)[First(s) := Claim(req, view.live[First(s)].size)] &&
        view.flushed == old(view.flushed)
      ensures books == Paid(Grown(old(books), s.size), view.live[First(s)].size) && segs == Insert(old(segs), k, s)
      ensures State() == Handed(Entered(old(State()), k, s), First(s), trueSize, req)
      ensures RestPlaced(old(index.State()), index.State(), First(s), s.size - SEGMENT_HEADER - HEADER, trueSize,
        keepRest)
    {
      hide FS.Inv, Inv, BooksOK, Ready, FreshSegment, Handed, RestPlaced;
      EnterSegment(k, s);
      Finish(First(s), s.size - SEGMENT_HEADER - HEADER, trueSize, req, keepRest);
    }

    // ----- taking a block back

    /** Takes the free neighbours of `b` out of the index; returns the run they form with it. The cache
        flush looks at the predecessor first, `free` at the successor. */
    method UnlinkNeighbours(b: int, prevFirst: bool) returns (a: int, total: nat)
      requires index.Valid() && Shaped(State(), b) && b in view.blocks
      requires b + view.blocks[b].size in words.size && b in words.prev
      modifies index
      ensures index.Valid()
      ensures a == RunStart(old(State()), b) && a + total == RunEnd(old(State()), b)
      ensures index.size == Filter(old(index.size), a, a + total)
      ensures NeighboursOff(old(Now()), b, prevFirst, index.State())
    {
      ghost var h := State();
      hide FS.Inv, Shaped, Filter, RunStart, RunEnd, RemovedIf;
      UnlinkFacts(h, b);
      var n := words.size[b].size;
      var next, before := b + n, b - words.prev[b].size;
      var joinNext, joinPrev := words.size[next].kind == Kind.Free, words.prev[b].kind == Kind.Free;
      a := if joinPrev then before else b;
      total := n + (if joinNext then words.size[next].size else 0) + (if joinPrev then words.size[before].size else 0);
      if prevFirst {
        RemoveIf(before, joinPrev);
        RemoveIf(next, joinNext);
      } else {
        RemoveIf(next, joinNext);
        RemoveIf(before, joinPrev);
      }
    }

    method RemoveIf(b: int, present: bool)
      requires index.Valid() && (present ==> b in index.size)
      modifies index
      ensures index.Valid() && index.size == old(index.size) - (if present then {b} else {})
      ensures RemovedIf(old(index.State()), index.State(), b, present)
    {
      hide FS.Inv, FX.Removed;
      if present {
        ghost var x := index.State();
        index.RemoveFromFreeList(b);
        RemovedSize(x, index.State(), b);
      }
    }

    /** A used block that belongs to nobody becomes free: merged with its free neighbours into one block
        of the index, or its whole segment given back to the storage. */
    method Release(b: int, prevFirst: bool)
      requires index.Valid() && Shaped(State(), b) && BooksOK(State()) && b in view.blocks
      modifies this`words, this`segs, this`books, this`view, index
      ensures Valid()
      ensures view.live == old(view.live) && view.flushed == old(view.flushed)
      ensures books == old(books).(realSize := books.realSize) && books.realSize <= old(books.realSize)
      ensures GivenBack(old(Now()), b, prevFirst, Now())
    {
      ghost var h, p := State(), Now();
      hide FS.Inv, Shaped, BooksOK, Inv, RunStart, RunEnd, Gatherable, Released, Filter, NeighboursOff, FX.Added;
      Neighbours(h, b, b);
      var a, total := UnlinkNeighbours(b, prevFirst);
      ghost var m := index.State();
      ReleasedOK(h, b);
      RunAround(h, b, RunStart(h, b));
      if words.prev[a] == FIRST_MARK && words.size[a + total].kind == Guard {
        ReturnSegment(h, b, a - SEGMENT_HEADER);
      } else {
        ReturnRun(h, b, a, total);
      }
    }

    method ReturnRun(ghost h: HeapState, ghost b: int, a: int, total: nat)
      requires index.Valid() && BooksOK(h) && h == State().(free := h.free)
      requires b in h.blocks && b + h.blocks[b].size in h.words.size && b in h.words.prev
      requires a == RunStart(h, b) && a + total == RunEnd(h, b) && index.size == Filter(h.free, a, a + total)
      requires a < a + total && Shaped(Released(h, b), 0) && a !in index.size && a > 0 && FS.BlockSize(total)
      modifies this`words, this`view, index
      ensures Valid() && State() == Released(h, b) && FX.Added(old(index.State()), index.State(), a, total)
      ensures view.live == old(view.live) && view.flushed == old(view.flushed)
    {
      hide FS.Inv, Shaped, BooksOK, Inv, RunStart, RunEnd, FX.Added;
      ReleasedBooks(h, b);
      words := SetBlock(words, a, Kind.Free, total);
      AddFree(a, total, false);
      view := view.(blocks := Merge(view.blocks, a, a + total, false, h.blocks[b].seg));
      assert State() == Released(h, b);
    }

    method ReturnSegment(ghost h: HeapState, ghost b: int, addr: int)
      requires index.Valid() && BooksOK(h) && h == State().(free := h.free) && Shaped(h, b)
      requires b in h.blocks && b + h.blocks[b].size in h.words.size && b in h.words.prev
      requires h.blocks[b].seg.addr == addr
      requires RunStart(h, b) == First(h.blocks[b].seg) && RunEnd(h, b) == End(h.blocks[b].seg)
      requires index.size == Filter(h.free, RunStart(h, b), RunEnd(h, b))
      modifies this`segs, this`books, this`view
      ensures Valid()
      ensures view.live == old(view.live) && view.flushed == old(view.flushed)
      ensures books == old(books).(realSize := books.realSize) && books.realSize <= old(books.realSize)
      ensures SegmentGone(h, h.blocks[b].seg, State())
    {
      hide FS.Inv, Shaped, BooksOK, Inv, RunStart, RunEnd;
      var k := FindSegment(h, b, addr);
      WholeRun(h, b, k);
      VacatedBooks(h, k);
      ghost var s := segs[k];
      view := view.(blocks := Cut(view.blocks, First(s), End(s)));
      books := books.(realSize := books.realSize - segs[k].size);
      segs := Omit(segs, k);
      assert State() == Vacated(h, k).(books := books);
    }

    /** `zend_mm_del_segment`: the walk along the segment list. */
    method FindSegment(ghost h: HeapState, ghost b: int, addr: int) returns (k: nat)
      requires h.segs == segs && Shaped(h, b) && b in h.blocks && h.blocks[b].seg.addr == addr
      ensures k < |segs| && segs[k] == h.blocks[b].seg
    {
      ghost var s := h.blocks[b].seg;
      SegmentListed(h, b);
      hide Shaped;
      k := 0;
      while segs[k].addr != addr
        invariant k < |segs| && forall j :: 0 <= j < k ==> segs[j].addr != addr
        decreases |segs| - k
      {
        k := k + 1;
      }
      SegmentByAddress(h, b, segs[k]);
    }

    /** `_zend_mm_free_int`. The pointer is null or one that is live; the reserve is the heap's own. */
    method Free(p: int)
      requires Valid() && (p == NULL || (p - HEADER in view.live && p != books.reserve))
      modifies this`words, this`segs, this`cache, this`books, this`view, index
      ensures Valid()
      ensures view.live == (if p == NULL then old(view.live) else old(view.live) - {p - HEADER})
      ensures view.flushed == old(view.flushed)
      ensures books == old(books).(size := books.size, cached := books.cached, realSize := books.realSize)
      ensures books.size <= old(books.size) && books.realSize <= old(books.realSize)
      ensures if p == NULL then Now() == old(Now()) else Freed(old(Now()), p - HEADER, Now())
    {
      hide FS.Inv, Inv, Shaped, BooksOK, GivenBack;
      if p == NULL {
        return;
      }
      ghost var h := State();
      var b := p - HEADER;
      LiveBlock(h, b);
      var n := words.size[b].size;
      view := view.(live := view.live - {b});
      if Small(n) && books.cached < CACHE_SIZE {
        CacheFreeOK(h, b);
        var i := BucketIndex(n);
        cache := cache[i := [b] + cache[i]];
        books := books.(cached := books.cached + n);
        return;
      }
      UnclaimBooks(h, b);
      books := books.(size := books.size - n);
      Release(b, false);
    }

    /** `zend_mm_free_cache`: every cached block is freed for good. `size` is not lowered, so the bytes
        stay counted in it: `flushed` says how many. */
    method FreeCache()
      requires Valid()
      modifies this`words, this`segs, this`cache, this`books, this`view, index
      ensures Valid()
      ensures view.live == old(view.live) && view.flushed == old(view.flushed) + old(books.cached)
      ensures books == old(books).(cached := 0, realSize := books.realSize) && books.realSize <= old(books.realSize)
      ensures CacheFlushed(old(Now()), Now())
    {
      hide FS.Inv, Inv, Shaped, BooksOK, Flushed, UpTo;
      CacheShape(State());
      ghost var p, lists := Now(), [];
      FlushNone(p);
      var i := 0;
      while i < NUM_BUCKETS
        invariant 0 <= i <= NUM_BUCKETS && Valid() && |cache| == NUM_BUCKETS
        invariant forall j :: 0 <= j < i ==> cache[j] == []
        invariant Flushing(old(view), old(books), view, books)
        invariant Flushed(p, lists, Now()) && UpTo(lists, i)
      {
        lists := FlushList(i, p, lists);
        i := i + 1;
      }
      AllFlushed(State());
      UpToAscends(lists, i);
    }

    /** Cache list `i` emptied. */
    method FlushList(i: nat, ghost p: Picture, ghost lists: seq<nat>) returns (ghost more: seq<nat>)
      requires Valid() && i < |cache| && Flushed(p, lists, Now()) && UpTo(lists, i)
      modifies this`words, this`segs, this`cache, this`books, this`view, index
      ensures Valid() && cache == old(cache)[i := []]
      ensures Flushing(old(view), old(books), view, books)
      ensures Flushed(p, more, Now()) && UpTo(more, i + 1)
    {
      hide FS.Inv, Inv, Shaped, BooksOK, Flushed, FlushStep;
      more := lists;
      while cache[i] != []
        invariant Valid() && |cache| == |old(cache)| && cache == old(cache)[i := cache[i]]
        invariant Flushing(old(view), old(books), view, books)
        invariant Flushed(p, more, Now()) && UpTo(more, i)
        decreases |cache[i]|
      {
        ghost var m := Now();
        FlushOne(i);
        FlushMore(p, more, m, i, Now());
        more := more + [i];
      }
    }

    method FlushOne(i: nat)
      requires Valid() && i < |cache| && cache[i] != []
      modifies this`words, this`segs, this`cache, this`books, this`view, index
      ensures Valid()
      ensures cache == old(cache)[i := old(cache)[i][1..]]
      ensures Flushing(old(view), old(books), view, books)
      ensures FlushStep(old(Now()), i, Now())
    {
      ghost var h := State();
      hide FS.Inv, Inv, Shaped, BooksOK, GivenBack;
      FlushOneOK(h, i);
      var b := cache[i][0];
      var n := words.size[b].size;
      cache := cache[i := cache[i][1..]];
      books := books.(cached := books.cached - n);
      view := view.(flushed := view.flushed + n);
      assert State() == FlushedOne(h, i);
      Release(b, true);
    }

    /** `zend_mm_safe_error` up to the bail-out: the reserve is given up and the overflow is noted. */
    method SafeError()
      requires Valid()
      modifies this`words, this`segs, this`cache, this`books, this`view, index
      ensures Valid()
      ensures view.live == Spared(old(view.live), old(books.reserve)) && view.flushed == old(view.flushed)
      ensures books.reserve == NULL && books.limit == old(books.limit) && books.unit == old(books.unit)
      ensures books.reserveSize == old(books.reserveSize) &&
        books.overflow == (if old(books.overflow) == 0 then 1 else 2)
      ensures books.realSize <= old(books.realSize) && books.realPeak == old(books.realPeak) &&
        books.peak == old(books.peak)
      ensures DeniedTotals(old(view), old(books), books, old(books.cached))
      ensures ReserveFreed(old(Now()), Now())
    {
      ghost var h := State();
      hide FS.Inv, Inv, Shaped, BooksOK, GivenBack;
      NoReserve(h);
      var r := books.reserve;
      books := books.(reserve := NULL, overflow := if books.overflow == 0 then 1 else 2);
      if r != NULL {
        Free(r);
      }
    }

    /** A failed request: `FreeCache` where the source calls it, then `SafeError`. */
    method Refuse(flush: bool)
      requires Valid()
      modifies this`words, this`segs, this`cache, this`books, this`view, index
      ensures Valid() && Denied(old(view), old(books), view, books, flush)
      ensures Refused(old(Now()), flush, Now())
    {
      hide FS.Inv, Inv, BooksOK, CacheFlushed, ReserveFreed;
      if flush {
        FreeCache();
      }
      SafeError();
    }

    // ----- allocation

    /** A segment for `trueSize` bytes from the storage, and a block of it handed out. The memory limit is
        checked before the storage is asked. */
    method AllocSegment(trueSize: nat, req: nat) returns (r: Outcome)
      requires Valid() && FS.BlockSize(trueSize) && req + HEADER <= trueSize
      modifies this`words, this`segs, this`cache, this`books, this`view, index, storage
      ensures Valid() && Allotted(old(view), old(books), view, books, r, req, trueSize)
      ensures Sized(old(books)) && (r == LimitHit <==> OverLimit(old(books), trueSize)) && r != Corrupted
      ensures AllocTotals(old(State()), NewSegment, trueSize, State(), r)
      ensures Asked(old(State()), if r == LimitHit then OverTheLimit else NewSegment, trueSize, r,
        old(storage.replies), storage.replies)
      ensures AllocEffect(old(Now()), if r == LimitHit then OverTheLimit else NewSegment, req, trueSize, Now(), r)
    {
      hide FS.Inv, Inv, BooksOK, FS.BlockSize, Ready, Allotted, SegmentSize, Denied, Storage.Aligned, SegmentTotal,
        Refused, Handed, RestPlaced;
      SegmentFacts(State(), trueSize);
      PeaksHold(State());
      var keepRest := trueSize > Sub(books.unit, SEGMENT_HEADER + HEADER);
      var size := SegmentSize(books.unit, trueSize);
      if size < trueSize || Add(books.realSize, size) > books.limit {
        Refuse(true);
        DeniedAllotted(old(view), old(books), view, books, LimitHit, req, trueSize);
        return LimitHit;
      }
      var addr := storage.Alloc(segs, size);
      if addr == 0 {
        Refuse(true);
        DeniedAllotted(old(view), old(books), view, books, OutOfMemory, req, trueSize);
        return OutOfMemory;
      }
      var s := Segment(addr, size);
      Furnish(0, s, trueSize, req, keepRest);
      assert segs == [s] + old(segs);
      r := Done(First(s) + HEADER);
      DoneAllotted(old(view), old(books), view, books, r, req, trueSize);
    }

    /** `_zend_mm_alloc_int`. */
    method Alloc(size: nat) returns (r: Outcome)
      requires Valid() && size < WORD
      modifies this`words, this`segs, this`cache, this`books, this`view, index, storage
      ensures Valid() && Allotted(old(view), old(books), view, books, r, size, TrueSize(size))
      ensures size + HEADER + ALIGNMENT > WORD ==> r == OutOfMemory
      ensures AllocDone(old(Now()), size, TrueSize(size), Now(), r, old(storage.replies), storage.replies)
    {
      hide FS.Inv, Inv, BooksOK, Allotted, TrueSize, FX.ListOf, FX.Kept, SegmentSize, LargerDone, NoneLarger,
        ChosenLarger, OverLimit,
        Refused, TakenFromIndex, TakenFromCache;
      ghost var h, p := State(), Now();
      var trueSize := TrueSize(size);
      TrueSizeCoversOrWraps(size);
      CacheShape(h);
      PeaksHold(h);
      SizedBooks(h);
      if Small(trueSize) {
        if trueSize < size {
          Refuse(false);
          DeniedAllotted(old(view), old(books), view, books, OutOfMemory, size, trueSize);
          return OutOfMemory;
        }
        if cache[BucketIndex(trueSize)] != [] {
          var b := TakeCached(BucketIndex(trueSize), size);
          r := Done(b + HEADER);
          DoneAllotted(old(view), old(books), view, books, r, size, trueSize);
          return;
        }
        var best := index.SearchSmall(trueSize);
        if best != NULL {
          r := TakeFit(best, trueSize, size);
          return;
        }
      }
      r := AllocLarger(trueSize, size);
      LargerIsDone(p, size, trueSize, Now(), r, old(storage.replies), storage.replies);
    }

    method TakeFit(best: int, trueSize: nat, req: nat) returns (r: Outcome)
      requires Valid() && best in index.size && trueSize <= index.size[best]
      requires FS.BlockSize(trueSize) && req + HEADER <= trueSize
      modifies this`words, this`books, this`view, index
      ensures Valid() && r == Done(best + HEADER) && Allotted(old(view), old(books), view, books, r, req, trueSize)
      ensures AllocTotals(old(State()), FromIndex, trueSize, State(), r)
      ensures TakenFromIndex(old(Now()), best, trueSize, req, Now())
    {
      hide FS.Inv, Inv, BooksOK, Allotted, TakenFromIndex;
      PeaksHold(State());
      SizedBooks(State());
      Take(best, trueSize, req);
      r := Done(best + HEADER);
      DoneAllotted(old(view), old(books), view, books, r, req, trueSize);
    }

    /** The search behind the small rings: the tries, near the limit the rest list, then the storage. */
    method AllocLarger(trueSize: nat, req: nat) returns (r: Outcome)
      requires Valid() && FS.BlockSize(trueSize) && req + HEADER <= trueSize
      modifies this`words, this`segs, this`cache, this`books, this`view, index, storage
      ensures Valid() && Allotted(old(view), old(books), view, books, r, req, trueSize)
      ensures LargerDone(old(Now()), req, trueSize, Now(), r, old(storage.replies), storage.replies)
    {
      hide FS.Inv, Inv, BooksOK, Allotted, FX.ListOf, FS.BlockSize, SegmentSize, Paid, Grown, FX.BestLarge,
        FX.InReach, TS.Found, FX.NewestFit, OverLimit, TakenFromIndex, TakenFromSegment, Refused;
      SegmentFacts(State(), trueSize);
      SizedBooks(State());
      var best := index.SearchLarge(trueSize);
      if best == NULL && books.realSize >= Sub(books.limit, books.unit) {
        best := index.SearchRest(trueSize);
      }
      if best != NULL {
        r := TakeFit(best, trueSize, req);
      } else {
        r := AllocSegment(trueSize, req);
      }
    }

    // ----- reallocation

    /** A live block stretched over its free successor, if any, and cut to `trueSize` bytes. */
    method Resize(b: int, trueSize: nat, req: nat, keepRest: bool)
      requires Valid() && b in view.live && b + HEADER != books.reserve && trueSize <= Reach(State(), b) - b
      requires FS.BlockSize(trueSize) && req + HEADER <= trueSize
      modifies this`words, this`books, this`view, index
      ensures Valid() && b in view.live && trueSize <= view.live[b].size < trueSize + MIN_BLOCK
      ensures view.live == (old(view.live) - {b})[b := Claim(req, view.live[b].size)] &&
        view.flushed == old(view.flushed)
      ensures old(books.size) >= old(view.live[b].size)
      ensures books == Paid(old(books).(size := old(books.size) - old(view.live[b].size)), view.live[b].size)
      ensures StretchedTo(old(Now()), b, trueSize, req, keepRest, Now())
    {
      ghost var h := State();
      hide FS.Inv, Inv, Shaped, BooksOK, Ready, Merge, Reach, Handed, RestPlaced, RemovedIf;
      StretchedOK(h, b);
      var n := words.size[b].size;
      var next := b + n;
      var joinNext := words.size[next].kind == Kind.Free;
      var total := n + (if joinNext then words.size[next].size else 0);
      RemoveIf(next, joinNext);
      books := books.(size := books.size - n);
      view := view.(blocks := Merge(view.blocks, b, b + total, true, view.blocks[b].seg), live := view.live - {b});
      assert State() == Stretched(h, b);
      Finish(b, total, trueSize, req, keepRest);
    }

    /** The block is large enough and too small to cut: only the size asked for changes. */
    method Relabel(b: int, req: nat)
      requires Valid() && b in view.live && req + HEADER <= view.live[b].size
      modifies this`view
      ensures Valid()
      ensures view == old(view).(live := (old(view.live) - {b})[b := Claim(req, old(view.live[b].size))])
      ensures Relabelled(old(Now()), b, req, Now())
    {
      hide FS.Inv, Inv;
      RelabelledOK(State(), b, req);
      view := view.(live := (view.live - {b})[b := Claim(req, view.live[b].size)]);
    }

    /** A small block exchanged for a larger one of cache list `i`; the old one goes to its own list. */
    method Swap(b: int, i: nat, req: nat) returns (c: int)
      requires Valid() && b in view.live && b + HEADER != books.reserve && i < |cache| && cache[i] != []
      requires req + HEADER <= 8 * i + 32 && view.live[b].size < 8 * i + 32
      modifies this`cache, this`books, this`view, this`data
      ensures Valid()
      ensures c !in old(view.live) && view.live == (old(view.live) - {b})[c := Claim(req, 8 * i + 32)]
      ensures view.flushed == old(view.flushed) && c == old(cache[i][0])
      ensures books == old(books).(cached := books.cached) &&
        books.cached + 8 * i + 32 == old(books.cached + view.live[b].size)
      ensures data == CopyBytes(old(data), c + HEADER, b + HEADER, old(view.live[b].size) - HEADER)
      ensures Exchanged(old(Now()), b, i, req, Now())
    {
      ghost var h := State();
      hide FS.Inv, Inv, CopyBytes, BucketIndex;
      SwappedOK(h, b, i, req);
      c := cache[i][0];
      var n := words.size[b].size;
      data := CopyBytes(data, c + HEADER, b + HEADER, n - HEADER);
      var j, popped := BucketIndex(n), cache[i := cache[i][1..]];
      cache := popped[j := [b] + popped[j]];
      books := books.(cached := books.cached - (8 * i + 32 - n));
      view := view.(live := (view.live - {b})[c := Claim(req, 8 * i + 32)]);
      assert State() == Swapped(h, b, i, req);
    }

    /** The block fills its segment up to a free successor: the segment itself is resized. Its place in
        the list stays; the successor has to go back to the index when the limit is hit. It does not when
        the storage refuses. */
    method ReallocSegment(b: int, trueSize: nat, req: nat) returns (r: Outcome)
      requires Valid() && b in view.live && b + HEADER != books.reserve && Alone(State(), b)
      requires FS.BlockSize(trueSize) && req + HEADER <= trueSize && Reach(State(), b) < b + trueSize
      modifies this`words, this`segs, this`cache, this`books, this`view, this`data, index, storage
      ensures Valid() <==> r != Corrupted
      ensures r.Done? ==> Moved(old(view), old(books), old(data), view, books, data, b, r.ptr - HEADER, req, trueSize)
      ensures !r.Done? ==> data == old(data)
      ensures !r.Done? && r != Corrupted ==> Denied(old(view), old(books), view, books, true)
      ensures Sized(old(books)) && trueSize < WORD && b in old(view.blocks)
      ensures r == LimitHit <==> ResizeOverLimit(old(books), old(view.blocks[b].seg), trueSize)
      ensures Asked(old(State()), if r == LimitHit then OverTheLimit else ResizeSegment, trueSize, r,
        old(storage.replies), storage.replies)
      ensures r == Corrupted ==> Reach(old(State()), b) > b + old(view.live[b].size)
      ensures r == OutOfMemory ==> Reach(old(State()), b) == b + old(view.live[b].size)
      ensures r.Done? ==> books.realSize <= books.limit
      ensures r.Done? ==> var s := Segment(r.ptr - HEADER - SEGMENT_HEADER, SegmentSize(old(books.unit), trueSize));
        Resized(old(State()), b, s, State())
      ensures ResizeEffect(old(Now()), b, req, trueSize, Now(), r)
    {
      ghost var h, p := State(), Now();
      hide FS.Inv, Inv, BooksOK, Shaped, FS.BlockSize, Ready, SegmentSize, Moved, Denied, Reach, Alone, Uprooted,
        Stretched, Filter,
        Resized, SegmentTotal, SegmentsApart, RemovedIf, ResizeEffect, SegmentResized, Next, HasNext;
      SegmentFacts(h, trueSize);
      SizedBooks(h);
      StretchedOK(h, b);
      var next := b + words.size[b].size;
      var joined := words.size[next].kind == Kind.Free;
      NextFacts(h, b);
      RemoveIf(next, joined);
      var k := OwnSegment(h, b);
      var size := SegmentSize(books.unit, trueSize);
      if size < trueSize || Sub(Add(books.realSize, size), segs[k].size) > books.limit {
        RefuseResize(h, p.index, b, next, joined);
        LimitEffect(p, b, req, trueSize, Now());
        return LimitHit;
      }
      var addr := storage.Realloc(segs, k, size);
      if addr == 0 {
        r := LoseNext(h, p.index, b, next, joined, req, trueSize);
        return;
      }
      r := Relocate(h, p.index, b, k, Segment(addr, size), trueSize, req);
      ResizedEffect(p, b, k, Segment(addr, size), req, trueSize, Now(), r);
    }

    /** The storage has refused: a free successor that was unlinked is lost, without one the request is refused. */
    method LoseNext(ghost h: HeapState, ghost x: FS.Index, ghost b: int, next: int, joined: bool, ghost req: nat,
        ghost trueSize: nat) returns (r: Outcome)
      requires next == Next(h, b) && joined == HasNext(h, b) && RemovedIf(x, index.State(), next, joined)
      requires index.Valid() && Inv(h) && h == State().(free := h.free) &&
        index.size == h.free - (if joined then {next} else {})
      requires joined ==> next in h.free && next in words.size && words.size[next].size == h.free[next]
      requires b in h.live && trueSize < WORD
      modifies this`words, this`segs, this`cache, this`books, this`view, index
      ensures r == (if joined then Corrupted else OutOfMemory) && (Valid() <==> r != Corrupted)
      ensures joined ==> h.free[next] > 0
      ensures !joined ==> Denied(old(view), old(books), view, books, true)
      ensures ResizeEffect(Picture(h, x), b, req, trueSize, Now(), r)
    {
      hide FS.Inv, Inv, Denied, FX.Removed, Refused, Next, HasNext;
      SizedBooks(h);
      if joined {
        LostBlock(h, next);
        return Corrupted;
      }
      assert Now() == Picture(h, x);
      Refuse(true);
      r := OutOfMemory;
    }

    /** The successor back in the index, now on the free list of its size, and the request refused. */
    method RefuseResize(ghost h: HeapState, ghost x: FS.Index, ghost b: int, next: int, joined: bool)
      requires next == Next(h, b) && joined == HasNext(h, b) && RemovedIf(x, index.State(), next, joined)
      requires index.Valid() && Inv(h) && h == State().(free := h.free) &&
        index.size == h.free - (if joined then {next} else {})
      requires joined ==> next in h.free && next in words.size && words.size[next].size == h.free[next]
      modifies this`words, this`segs, this`cache, this`books, this`view, index
      ensures Valid() && Denied(old(view), old(books), view, books, true)
      ensures RefusedResize(Picture(h, x), b, Now())
    {
      hide FS.Inv, Inv, Denied, FX.Added, RemovedIf, Refused, Next, HasNext;
      if joined {
        FreeBlock(h, next);
        AddFree(next, words.size[next].size, false);
      }
      assert index.size == h.free && State() == h;
      ghost var y := index.State();
      assert Relisted(x, y, next, if next in h.free then h.free[next] else 0, joined);
      Refuse(true);
    }

    method OwnSegment(ghost h: HeapState, b: int) returns (k: nat)
      requires Inv(h) && h.segs == segs && b in h.live && Alone(h, b)
      ensures k < |segs| && b == First(segs[k]) && segs[k].size < WORD && b in h.blocks && segs[k] == h.blocks[b].seg
      ensures SegmentsApart(segs) && segs[k].addr + segs[k].size <= WORD && Reach(h, b) == End(segs[k])
      ensures segs[k].size <= SegmentTotal(segs)
    {
      hide Inv, Shaped, Alone, Reach, SegmentsApart;
      AloneFacts(h, b);
      k := FindSegment(h.(live := h.live - {b}), b, b - SEGMENT_HEADER);
      OmitTotal(segs, k);
    }

    /** The segment with everything in it out of the list. */
    method Uproot(ghost h: HeapState, b: int, k: nat)
      requires index.Valid() && Inv(h) && h == State().(free := h.free) && index.size == Filter(h.free, b, Reach(h, b))
      requires b in h.live && b + HEADER != books.reserve && k < |segs| && Alone(h, b) && segs[k] == h.blocks[b].seg
      modifies this`segs, this`books, this`view
      ensures h.live[b].size <= h.books.size && h.segs[k].size <= h.books.realSize
      ensures Valid() && State() == Uprooted(h, b, k)
    {
      hide FS.Inv, Inv, Reach, Cut;
      UprootedOK(h, b, k);
      var s, n := segs[k], words.size[b].size;
      view := view.(live := view.live - {b}, blocks := Cut(view.blocks, First(s), End(s)));
      books := books.(size := books.size - n, realSize := books.realSize - s.size);
      segs := Omit(segs, k);
    }

    method Relocate(ghost h: HeapState, ghost x: FS.Index, b: int, k: nat, s: Segment, trueSize: nat,
        req: nat) returns (r: Outcome)
      requires index.Valid() && Inv(h) && h == State().(free := h.free) && index.size == Filter(h.free, b, Reach(h, b))
      requires b in h.live && b + HEADER != books.reserve && k < |segs| && Alone(h, b) && segs[k] == h.blocks[b].seg
      requires FreshSegment(Omit(segs, k), s) && segs[k].size <= s.size && books.realSize - segs[k].size + s.size < WORD
      requires FS.BlockSize(trueSize) && req + HEADER <= trueSize && trueSize + SEGMENT_HEADER + HEADER <= s.size
      requires books.realSize - segs[k].size + s.size <= books.limit && h.live[b].size <= trueSize
      requires b in h.blocks && b == First(segs[k]) && RemovedIf(x, index.State(), Next(h, b), HasNext(h, b))
      modifies this`words, this`segs, this`books, this`view, this`data, index
      ensures Valid() && r.Done?
      ensures Moved(old(view), old(books), old(data), view, books, data, b, r.ptr - HEADER, req, trueSize)
      ensures r.ptr == First(s) + HEADER && books.realSize <= books.limit == old(books.limit)
      ensures Resized(h, b, s, State())
      ensures SegmentResized(Picture(h, x), b, k, s, trueSize, req, Now())
    {
      hide Handed, RestPlaced, RemovedIf, Next, HasNext;
      hide FS.Inv, Inv, BooksOK, Ready, Reach, Alone, FreshSegment, Moved, CopyBytes, Filter, Cut, SameBytes, Kept;
      var from, size := segs[k].addr, segs[k].size;
      Uproot(h, b, k);
      RelocatedBytes(h, b, k, s, data);
      Furnish(k, s, trueSize, req, true);
      data := CopyBytes(data, s.addr, from, size);
      ReplacedInPlace(old(segs), k, s);
      r := Done(First(s) + HEADER);
      MovedWhen(old(view), old(books), old(data), view, books, data, b, First(s), req, trueSize);
    }

    /** A new block, the bytes copied, the old block freed. */
    method MoveElsewhere(b: int, req: nat) returns (r: Outcome)
      requires Valid() && b in view.live && b + HEADER != books.reserve && req < WORD &&
        view.live[b].size <= TrueSize(req)
      modifies this`words, this`segs, this`cache, this`books, this`view, this`data, index, storage
      ensures Valid() && r != Corrupted
      ensures r.Done? ==> Moved(old(view), old(books), old(data), view, books, data, b, r.ptr - HEADER, req, TrueSize(req))
      ensures !r.Done? ==> data == old(data) && Denied(old(view), old(books), view, books, TrueSize(req) >= req)
      ensures AllocAnswer(old(State()), old(index.State()), req, TrueSize(req), r)
      ensures var plan := AllocPlan(old(State()), old(index.State()), req, TrueSize(req));
        && (r.Done? ==> TakenAndFreed(old(Now()), plan, b, req, TrueSize(req), Now(), r))
        && (!r.Done? ==> Refused(old(Now()), TrueSize(req) >= req, Now()))
        && Asked(old(State()), plan, TrueSize(req), r, old(storage.replies), storage.replies)
    {
      hide FS.Inv, Inv, TrueSize, Moved, CopyBytes, SameBytes, Kept, AllocAnswer, AllocTotals, Asked, Allotted, Among,
        Freed, Refused, TakenFromIndex, TakenFromSegment, TakenFromCache;
      LiveBlock(State(), b);
      var n := words.size[b].size;
      r := Alloc(req);
      AllottedFacts(old(view), old(books), view, books, r, req, TrueSize(req), b);
      if !r.Done? {
        return;
      }
      ghost var v, k, m := view, books, Now();
      CopiedBlock(m.heap, r.ptr - HEADER, b, n, data, old(view.live) - {b});
      data := CopyBytes(data, r.ptr, b + HEADER, n - HEADER);
      Free(b + HEADER);
      assert Freed(m, b, Now());
      MovedByCopy(old(view), old(books), old(data), v, k, view, books, data, b, r, req, TrueSize(req));
    }

    /** The part of `realloc` behind the cache: into the free successor, by resizing the segment, or by moving. */
    method Grow(b: int, trueSize: nat, req: nat) returns (r: Outcome)
      requires Valid() && b in view.live && b + HEADER != books.reserve && req < WORD && trueSize == TrueSize(req)
      requires FS.BlockSize(trueSize) && req + HEADER <= trueSize && view.live[b].size < trueSize
      requires !CacheHas(State(), trueSize)
      modifies this`words, this`segs, this`cache, this`books, this`view, this`data, index, storage
      ensures Valid() <==> r != Corrupted
      ensures r.Done? ==> Moved(old(view), old(books), old(data), view, books, data, b, r.ptr - HEADER, req, trueSize)
      ensures !r.Done? ==> data == old(data)
      ensures !r.Done? && r != Corrupted ==> Denied(old(view), old(books), view, books, true)
      ensures ReallocDone(old(Now()), b, req, trueSize, Now(), r, old(storage.replies), storage.replies)
    {
      hide FS.Inv, Inv, TrueSize, Moved, Denied, FS.BlockSize, Reach, Alone, AllocAnswer, ResizeOverLimit, CacheHas,
        Resized,
        SegmentSize, TakenAndFreed, ReallocDone, Asked, StretchedTo, ResizeEffect, Refused;
      ghost var p, log := Now(), storage.replies;
      AloneIff(State(), b);
      LiveBlock(State(), b);
      ClaimBound(State(), b);
      SegmentFacts(State(), trueSize);
      SizedBooks(State());
      var n := words.size[b].size;
      var next := b + n;
      var reach := next + (if words.size[next].kind == Kind.Free then words.size[next].size else 0);
      var alone := words.prev[b] == FIRST_MARK && words.size[reach].kind == Guard;
      if words.size[next].kind == Kind.Free && reach - b >= trueSize {
        Resize(b, trueSize, req, alone);
        r := Done(b + HEADER);
        MovedInPlace(old(view), old(books), data, view, books, b, req, trueSize);
        StretchDone(p, b, req, trueSize, Now(), log);
      } else if alone {
        r := ReallocSegment(b, trueSize, req);
        ResizeDone(p, b, req, trueSize, Now(), r, log, storage.replies);
      } else {
        r := MoveElsewhere(b, req);
        MoveDone(p, b, req, trueSize, Now(), r, log, storage.replies);
      }
    }

    method Shrink(b: int, trueSize: nat, req: nat)
      requires Valid() && b in view.live && b + HEADER != books.reserve
      requires FS.BlockSize(trueSize) && req + HEADER <= trueSize <= view.live[b].size
      modifies this`words, this`books, this`view, index
      ensures Valid() && Moved(old(view), old(books), data, view, books, data, b, b, req, trueSize)
      ensures ReallocTotals(old(State()), InPlace, b, trueSize, State(), Done(b + HEADER))
      ensures ReallocEffect(old(Now()), InPlace, b, req, trueSize, Now(), Done(b + HEADER))
    {
      hide FS.Inv, Inv, Moved, Reach, StretchedTo, Relabelled, SegmentSize, Stretched, Ready, BooksOK, Filter;
      StretchedOK(State(), b);
      SizedBooks(State());
      PeaksHold(State());
      var n := words.size[b].size;
      if n - trueSize >= MIN_BLOCK {
        Resize(b, trueSize, req, false);
      } else {
        Relabel(b, req);
      }
      MovedInPlace(old(view), old(books), data, view, books, b, req, trueSize);
    }

    method GrowFromCache(b: int, trueSize: nat, req: nat) returns (r: Outcome)
      requires Valid() && b in view.live && b + HEADER != books.reserve && view.live[b].size < trueSize
      requires FS.BlockSize(trueSize) && req + HEADER <= trueSize && Small(trueSize)
      requires BucketIndex(trueSize) < |cache| && cache[BucketIndex(trueSize)] != []
      modifies this`cache, this`books, this`view, this`data
      ensures Valid() && r == Done(old(cache[BucketIndex(trueSize)][0]) + HEADER)
      ensures ReallocTotals(old(State()), FromCache, b, trueSize, State(), r)
      ensures ReallocEffect(old(Now()), FromCache, b, req, trueSize, Now(), r)
      ensures Moved(old(view), old(books), old(data), view, books, data, b, r.ptr - HEADER, req, trueSize)
    {
      hide FS.Inv, Inv, Moved, CopyBytes, SameBytes, Kept, Among, Exchanged;
      LiveBlock(State(), b);
      ClaimBound(State(), b);
      SizedBooks(State());
      var c := Swap(b, BucketIndex(trueSize), req);
      AmongOthers(old(view.live), b, c, view.live[c]);
      CopiedBlock(State(), c, b, old(view.live[b].size), old(data), old(view.live) - {b});
      r := Done(c + HEADER);
      MovedWhen(old(view), old(books), old(data), view, books, data, b, c, req, trueSize);
    }

    /** `_zend_mm_realloc_int`. */
    method Realloc(p: int, size: nat) returns (r: Outcome)
      requires Valid() && size < WORD && (p == NULL || (p - HEADER in view.live && p != books.reserve))
      modifies this`words, this`segs, this`cache, this`books, this`view, this`data, index, storage
      ensures Valid() <==> r != Corrupted
      ensures p == NULL ==> Allotted(old(view), old(books), view, books, r, size, TrueSize(size))
      ensures p != NULL && r.Done? ==>
        Moved(old(view), old(books), old(data), view, books, data, p - HEADER, r.ptr - HEADER, size, TrueSize(size))
      ensures !r.Done? || p == NULL ==> data == old(data)
      ensures !r.Done? && r != Corrupted ==> Denied(old(view), old(books), view, books, TrueSize(size) >= size)
      ensures p == NULL ==>
        AllocDone(old(Now()), size, TrueSize(size), Now(), r, old(storage.replies), storage.replies)
      ensures p != NULL ==>
        ReallocDone(old(Now()), p - HEADER, size, TrueSize(size), Now(), r, old(storage.replies), storage.replies)
    {
      hide FS.Inv, Inv, TrueSize, Moved, Denied, Reach, AllocPlan, AllocTotals, GrantedEffect, Resized, Chosen,
        ResizeOverLimit, Alone, Paid, Refused, RefusedResize;
      SizedBooks(State());
      if p == NULL {
        r := Alloc(size);
        return;
      }
      var b, trueSize := p - HEADER, TrueSize(size);
      TrueSizeCoversOrWraps(size);
      LiveBlock(State(), b);
      if trueSize < size {
        Refuse(false);
        return OutOfMemory;
      }
      if trueSize <= words.size[b].size {
        Shrink(b, trueSize, size);
        return Done(p);
      }
      if Small(trueSize) && cache[BucketIndex(trueSize)] != [] {
        r := GrowFromCache(b, trueSize, size);
      } else {
        r := Grow(b, trueSize, size);
      }
    }

    /** A caller's write into its own block. */
    method Write(p: int, i: nat, v: int)
      requires Valid() && p - HEADER in view.live && i < view.live[p - HEADER].req
      modifies this`data
      ensures Valid() && data == old(data)[p + i := v]
    {
      hide FS.Inv, Inv;
      data := data[p + i := v];
    }

    // ----- limits, usage and shutdown

    /** `zend_set_memory_limit`: never below one segment unit. */
    method SetLimit(limit: nat)
      requires Valid() && limit < WORD
      modifies this`books
      ensures Valid() && books == old(books).(limit := if limit >= books.unit then limit else books.unit)
    {
      hide FS.Inv, Shaped;
      var l := if limit >= books.unit then limit else books.unit;
      Rebooked(State(), State().(books := books.(limit := l)), 0);
      books := books.(limit := l);
    }

    /** `zend_memory_usage`: the bytes of the segments, or the bytes in live blocks and with them those that
        went through a cache flush. */
    method Usage(realUsage: bool) returns (n: nat)
      requires Valid()
      ensures n == if realUsage then SegmentTotal(segs) else ClaimTotal(view.live) + view.flushed
    {
      hide FS.Inv, Shaped;
      n := if realUsage then books.realSize else books.size - books.cached;
    }

    /** `zend_memory_peak_usage`: an upper bound of what is in use, cached blocks included. */
    method PeakUsage(realUsage: bool) returns (n: nat)
      requires Valid()
      ensures n >= if realUsage then SegmentTotal(segs) else ClaimTotal(view.live) + CacheTotal(cache) + view.flushed
    {
      hide FS.Inv, Shaped;
      n := if realUsage then books.realPeak else books.peak;
    }

    /** The soft part of `zend_mm_shutdown`: everything is forgotten, of the segments at most the one at the
        end of the list is kept, as one free block, and the reserve is allocated anew. The result says
        whether that succeeded. */
    method SoftShutdown() returns (r: Outcome)
      requires Valid() && books.reserveSize < WORD
      modifies this`words, this`segs, this`cache, this`books, this`view, index, storage
      ensures Valid() && Restarted(old(Now()), Now(), r, old(storage.replies), storage.replies)
    {
      hide FS.Inv, Inv, ReserveAnswer, AllocDone, OneBlock;
      Restart();
      ghost var h, p := State(), Now();
      ghost var done;
      r, done := Reserve();
      BooksEquation(State());
      SizedBooks(h);
      if books.reserveSize > 0 {
        ReserveAnswers(p, h.segs, done, r, old(storage.replies), storage.replies);
        SameReserveAnswer(h.books, old(books).(realSize := SegmentTotal(h.segs)), h.segs, r, old(storage.replies),
          storage.replies);
      }
    }

    /** The reserve block, if one is wanted; the overflow mark is taken back. */
    method Reserve() returns (r: Outcome, ghost done: Picture)
      requires Valid() && books.reserveSize < WORD && view.live == map[] && view.flushed == 0 &&
        books.reserve == NULL &&
        books.cached == 0
      modifies this`words, this`segs, this`cache, this`books, this`view, index, storage
      ensures Valid() && view.flushed == 0 && (r.Done? ==> books.overflow == 0)
      ensures r.Done? ==> segs == old(segs) || (segs != [] && segs[1..] == old(segs))
      ensures r.Done? ==> books.peak == Larger(old(books.peak), books.size) && books.cached <= old(books.cached)
      ensures r.Done? ==> books.realPeak == Larger(old(books.realPeak), books.realSize) && books.realSize >= old(books.realSize)
      ensures books.limit == old(books.limit) && books.unit == old(books.unit) &&
        books.reserveSize == old(books.reserveSize)
      ensures books.reserveSize == 0 ==>
        r == Done(NULL) && view == old(view) && segs == old(segs) && books == old(books).(overflow := 0)
      ensures books.reserveSize > 0 && r.Done? ==>
        && books.reserve == r.ptr && r.ptr != NULL && r.ptr - HEADER in view.live && view.live.Keys == {r.ptr - HEADER}
        && view.live[r.ptr - HEADER].req == books.reserveSize
      ensures !r.Done? ==> view.live == map[] && books.reserve == NULL
      ensures books.reserveSize > 0 ==>
        AllocDone(old(Now()), books.reserveSize, TrueSize(books.reserveSize), done, r, old(storage.replies),
          storage.replies)
      ensures Furnished(old(Now()), Now(), r, old(storage.replies), storage.replies)
      ensures books.reserveSize == 0 ==> storage.replies == old(storage.replies)
    {
      hide FS.Inv, Inv, BooksOK, Shaped, Allotted, AllocAnswer, AllocPlan, Asked, TrueSize, SegmentSize;
      PeaksHold(State());
      if books.reserveSize == 0 {
        NoReserve(State());
        books := books.(overflow := 0);
        return Done(NULL), Now();
      }
      var size := books.reserveSize;
      ghost var v, k := view, books;
      r := Alloc(size);
      done := Now();
      ReserveFacts(v, k, view, books, r, TrueSize(size));
      if r.Done? {
        LiveBlock(State(), r.ptr - HEADER);
        ReservedOK(State(), r.ptr);
        books := books.(reserve := r.ptr, overflow := 0);
      }
    }

    /** The segment that survives a soft shutdown: the last of the list, if a reserve is wanted. */
    method LastSegment() returns (kept: seq<Segment>)
      ensures kept == Survivors(segs, books.reserveSize)
    {
      if segs == [] || books.reserveSize == 0 {
        return [];
      }
      var i := 0;
      while i + 1 < |segs|
        invariant 0 <= i < |segs|
      {
        i := i + 1;
      }
      kept := [segs[i]];
    }

    method Restart()
      requires Valid()
      modifies this`words, this`segs, this`cache, this`books, this`view, index
      ensures Valid() && view.live == map[] && view.flushed == 0
      ensures segs == Survivors(old(segs), books.reserveSize) && OneBlock(index.State(), segs)
      ensures forall i {:trigger cache[i]} :: 0 <= i < |cache| ==> cache[i] == []
      ensures books == Blank(old(books)).(realSize := SegmentTotal(segs), realPeak := SegmentTotal(segs))
    {
      ghost var h := State();
      hide FS.Inv, Inv, BooksOK, Shaped;
      var kept := LastSegment();
      index.Init();
      cache := seq(NUM_BUCKETS, _ => []);
      books := Blank(books);
      segs, view := [], View(map[], map[], 0);
      BlankOK(h, State());
      if kept != [] {
        ListedSegment(h, kept[0]);
        KeepSegment(kept[0]);
      }
    }

    /** An empty heap given one segment as one free block. */
    method KeepSegment(s: Segment)
      requires Valid() && segs == [] && view == View(map[], map[], 0) && index.size == map[]
      requires FreshSegment([], s) && s.size < WORD && books == Blank(books)
      modifies this`words, this`segs, this`books, this`view, index
      ensures Valid() && view.live == map[] && view.flushed == 0 && segs == [s] && OneBlock(index.State(), segs)
      ensures books == old(books).(realSize := SegmentTotal(segs), realPeak := SegmentTotal(segs))
    {
      hide FS.Inv, Inv, FreshSegment, Blank, FS.BlockSize, FX.Added, Findable;
      ghost var h := State();
      OneFreeOK(h, s);
      OneSegmentTotal(s);
      var n := s.size - SEGMENT_HEADER - HEADER;
      ghost var x := index.State();
      AddFree(First(s), n, false);
      FirstAdded(x, index.State(), First(s), n);
      words := SetBlock(Words(words.size[End(s) := GUARD_MARK], words.prev[First(s) := FIRST_MARK]), First(s), Kind.Free, n);
      books := books.(realSize := s.size, realPeak := s.size);
      segs, view := [s], View(map[First(s) := Whole(s, false)], map[], 0);
      assert State() == OneFree(h, s);
    }
  }

  /** `zend_mm_startup_ex` for an external heap structure: a segment unit that is not a power of two is
      refused. */
  method Startup(unit: nat, reserveSize: nat, memory: Memory) returns (heap: Heap?, r: Outcome)
    requires 0 < unit < WORD && reserveSize < WORD
    ensures heap != null <==> exists n :: unit == Pow2(n)
    ensures heap != null ==>
      fresh(heap) && fresh(heap.index) && fresh(heap.storage) && heap.Valid() && heap.data == memory
    ensures heap != null && reserveSize > 0 && r.Done? ==>
      heap.books.reserve == r.ptr && heap.view.live.Keys == {r.ptr - HEADER}
    ensures heap != null && !(reserveSize > 0 && r.Done?) ==> heap.view.live == map[]
    ensures heap != null && reserveSize > 0 ==>
      ReserveAnswer(StartBooks(unit, reserveSize), [], r, [], heap.storage.replies)
  {
    hide FS.Inv, Inv, ReserveAnswer, AllocDone, TrueSize, FX.ListOf;
    var low := LowBit(unit);
    var high := HighBit(unit);
    PowerOfTwoIffBitsAgree(unit, low);
    if low != high {
      return null, OutOfMemory;
    }
    heap := new Heap.Bare(unit, reserveSize, memory);
    ghost var p := heap.Now();
    ghost var done;
    r, done := heap.Reserve();
    if reserveSize > 0 { ReserveAnswers(p, [], done, r, [], heap.storage.replies); }
  }
}
