/** What the operations do to the heap and to its free index together, as relations between the pictures before
    and after. */
module Effects {
  import opened Sizes
  import opened HeapLayout
  import opened Sums
  import opened HeapState
  import opened HeapSteps
  import opened HeapChanges
  import FS = FreeIndexState
  import FX = FreeIndexSteps

  datatype Picture = Picture(heap: HeapState, index: FS.Index)

  // ----- the index alone

  ghost predicate RemovedIf(x: FS.Index, y: FS.Index, b: int, present: bool) {
    if present then FX.Removed(x, y, b) else y == x
  }

  ghost predicate AddedIf(x: FS.Index, y: FS.Index, b: int, n: nat, present: bool) {
    if present then FX.Added(x, y, b, n) else y == x
  }

  /** A free block of `n` bytes on the rest list or on the free list of its size. */
  ghost predicate Placed(x: FS.Index, y: FS.Index, b: int, n: nat, keepRest: bool) {
    if keepRest then exists k :: FX.Rested(x, y, b, n, k) else FX.Added(x, y, b, n)
  }

  /** What is left of a run of `n` bytes when `trueSize` are handed out: placed if it can be a block. */
  ghost predicate RestPlaced(x: FS.Index, y: FS.Index, b: int, n: nat, trueSize: nat, keepRest: bool) {
    if n < trueSize + MIN_BLOCK then y == x else Placed(x, y, b + trueSize, n - trueSize, keepRest)
  }

  ghost predicate RemovedThenPlaced(x: FS.Index, y: FS.Index, c: int, present: bool, b: int, n: nat, trueSize: nat,
      keepRest: bool) {
    exists m :: RemovedIf(x, m, c, present) && RestPlaced(m, y, b, n, trueSize, keepRest)
  }

  /** The block is off its list and on the free list of its size again. */
  ghost predicate Relisted(x: FS.Index, y: FS.Index, b: int, n: nat, present: bool) {
    exists m :: RemovedIf(x, m, b, present) && AddedIf(m, y, b, n, present)
  }

  /** Both neighbours off their lists, in the order given. */
  ghost predicate BothOff(x: FS.Index, y: FS.Index, c: int, inC: bool, d: int, inD: bool) {
    exists m :: RemovedIf(x, m, c, inC) && RemovedIf(m, y, d, inD)
  }

  // ----- a block handed out

  /** The used block `b` keeps `trueSize` bytes of its run, or all of it if the rest cannot be a block. */
  ghost function Handed(h: HeapState, b: int, trueSize: nat, req: nat): HeapState {
    if b !in h.blocks then h
    else if h.blocks[b].size < trueSize + MIN_BLOCK then GivenWhole(h, b, req)
    else GivenPart(h, b, trueSize, req)
  }

  /** A block of the index handed out; its rest goes to the free list of its size. */
  ghost predicate TakenFromIndex(p: Picture, b: int, trueSize: nat, req: nat, p': Picture) {
    && b in p.heap.blocks && b in p.index.size
    && p'.heap == Handed(TakenOut(p.heap, b), b, trueSize, req)
    && RemovedThenPlaced(p.index, p'.index, b, true, b, p.index.size[b], trueSize, false)
  }

  /** A new segment at the head of the list and its first block handed out. */
  ghost predicate TakenFromSegment(p: Picture, s: Segment, trueSize: nat, req: nat, keepRest: bool, p': Picture) {
    && s.size >= SEGMENT_HEADER + HEADER
    && p'.heap == Handed(Entered(p.heap, 0, s), First(s), trueSize, req)
    && RestPlaced(p.index, p'.index, First(s), s.size - SEGMENT_HEADER - HEADER, trueSize, keepRest)
  }

  /** The first block of cache list `i` handed out. */
  ghost predicate TakenFromCache(p: Picture, i: nat, req: nat, p': Picture) {
    && i < |p.heap.cache| && p.heap.cache[i] != [] && 8 * i + 32 <= p.heap.books.cached
    && p'.heap == p.heap.(cache := p.heap.cache[i := p.heap.cache[i][1..]],
                          books := p.heap.books.(cached := p.heap.books.cached - (8 * i + 32)),
                          live := p.heap.live[p.heap.cache[i][0] := Claim(req, 8 * i + 32)])
    && p'.index == p.index
  }

  // ----- a live block changed

  /** Where the free successor of live block `b` is, and whether there is one. */
  ghost function Next(h: HeapState, b: int): int {
    b + if b in h.live then h.live[b].size else 0
  }

  ghost predicate HasNext(h: HeapState, b: int) {
    Next(h, b) in h.words.size && h.words.size[Next(h, b)].kind == Free
  }

  /** Live block `b` over its free successor, if any, and cut. */
  ghost predicate StretchedTo(p: Picture, b: int, trueSize: nat, req: nat, keepRest: bool, p': Picture) {
    && b in p.heap.live && b in p.heap.blocks && p.heap.live[b].size <= p.heap.books.size && b < Reach(p.heap, b)
    && p'.heap == Handed(Stretched(p.heap, b), b, trueSize, req)
    && RemovedThenPlaced(p.index, p'.index, Next(p.heap, b), HasNext(p.heap, b), b, Reach(p.heap, b) - b, trueSize, keepRest)
  }

  ghost predicate Relabelled(p: Picture, b: int, req: nat, p': Picture) {
    && b in p.heap.live && p'.index == p.index
    && p'.heap == p.heap.(live := (p.heap.live - {b})[b := Claim(req, p.heap.live[b].size)])
  }

  ghost predicate Exchanged(p: Picture, b: int, i: nat, req: nat, p': Picture) {
    && b in p.heap.live && i < |p.heap.cache| && p.heap.cache[i] != [] && MIN_BLOCK <= p.heap.live[b].size <= 8 * i + 32
    && BucketIndex(p.heap.live[b].size) < |p.heap.cache| && 8 * i + 32 <= p.heap.books.cached + p.heap.live[b].size
    && p'.heap == Swapped(p.heap, b, i, req) && p'.index == p.index
  }

  /** The segment of block `b`, place `k` of the list, has become `s`; the rest behind the block goes to the rest
      list. */
  ghost predicate SegmentResized(p: Picture, b: int, k: nat, s: Segment, trueSize: nat, req: nat, p': Picture) {
    && b in p.heap.live && k < |p.heap.segs| && First(p.heap.segs[k]) == b && s.size >= SEGMENT_HEADER + HEADER
    && p.heap.live[b].size <= p.heap.books.size && p.heap.segs[k].size <= p.heap.books.realSize
    && k <= |Uprooted(p.heap, b, k).segs|
    && p'.heap == Handed(Entered(Uprooted(p.heap, b, k), k, s), First(s), trueSize, req)
    && RemovedThenPlaced(p.index, p'.index, Next(p.heap, b), HasNext(p.heap, b), First(s), s.size - SEGMENT_HEADER - HEADER,
                         trueSize, true)
  }

  ghost predicate OwnSegmentResized(p: Picture, b: int, s: Segment, trueSize: nat, req: nat, p': Picture) {
    exists k :: SegmentResized(p, b, k, s, trueSize, req, p')
  }

  // ----- a block given back

  /** The loose block `b` and its free neighbours become one block on the free list of its size, or their segment
      is given back. */
  ghost predicate GivenBack(p: Picture, b: int, prevFirst: bool, p': Picture) {
    && GaveBack(p.heap, b, p'.heap)
    && var s, a, e := p.heap.blocks[b].seg, RunStart(p.heap, b), RunEnd(p.heap, b);
      if a == First(s) && e == End(s) then NeighboursOff(p, b, prevFirst, p'.index)
      else exists m :: NeighboursOff(p, b, prevFirst, m) && a < e && FX.Added(m, p'.index, a, e - a)
  }

  ghost predicate NeighboursOff(p: Picture, b: int, prevFirst: bool, y: FS.Index) {
    && b in p.heap.blocks && b + p.heap.blocks[b].size in p.heap.words.size && b in p.heap.words.prev
    && var next, before := b + p.heap.blocks[b].size, b - p.heap.words.prev[b].size;
      var inNext, inBefore := p.heap.words.size[next].kind == Free, p.heap.words.prev[b].kind == Free;
      if prevFirst then BothOff(p.index, y, before, inBefore, next, inNext)
      else BothOff(p.index, y, next, inNext, before, inBefore)
  }

  /** Block `b` freed: put in front of the cache list of its size, or merged and indexed. */
  ghost predicate Freed(p: Picture, b: int, p': Picture) {
    var h, h' := p.heap, p'.heap;
    && b in h.live && FreedTotals(h.books, h.live[b].size, h'.books)
    && var n := h.live[b].size;
      if Small(n) && h.books.cached < CACHE_SIZE then
        && MIN_BLOCK <= n && BucketIndex(n) < |h.cache|
        && h' == h.(live := h.live - {b}, books := h'.books,
                    cache := h.cache[BucketIndex(n) := [b] + h.cache[BucketIndex(n)]])
        && p'.index == p.index
      else
        && n <= h.books.size
        && GivenBack(Picture(h.(live := h.live - {b}, books := h.books.(size := h.books.size - n)), p.index), b, false, p')
  }

  /** The first block of cache list `i` given back for good. */
  ghost predicate FlushStep(p: Picture, i: nat, p': Picture) {
    && i < |p.heap.cache| && p.heap.cache[i] != [] && 8 * i + 32 <= p.heap.books.cached
    && GivenBack(Picture(FlushedOne(p.heap, i), p.index), p.heap.cache[i][0], true, p')
  }

  /** Cached blocks given back one after the other, from the lists named. */
  ghost predicate Flushed(p: Picture, lists: seq<nat>, p': Picture)
    decreases |lists|
  {
    if lists == [] then p' == p
    else
      var earlier, last := lists[..|lists| - 1], lists[|lists| - 1];
      exists m :: Flushed(p, earlier, m) && FlushStep(m, last, p')
  }

  /** All of them, list by list. */
  ghost predicate CacheFlushed(p: Picture, p': Picture) {
    && (exists lists :: Ascending(lists) && Flushed(p, lists, p'))
    && forall i {:trigger p'.heap.cache[i]} :: 0 <= i < |p'.heap.cache| ==> p'.heap.cache[i] == []
  }

  predicate Ascending(lists: seq<nat>) {
    forall i, j {:trigger lists[i], lists[j]} :: 0 <= i < j < |lists| ==> lists[i] <= lists[j]
  }

  /** The reserve, if there is one, freed, and the overflow noted. */
  ghost predicate ReserveFreed(p: Picture, p': Picture) {
    var k := p.heap.books;
    var q := p.(heap := p.heap.(books := k.(reserve := NULL, overflow := if k.overflow == 0 then 1 else 2)));
    if k.reserve == NULL then p' == q else Freed(q, k.reserve - HEADER, p')
  }

  /** A refused request, whole: the cache is flushed if `flush`, then the reserve is freed. */
  ghost predicate Refused(p: Picture, flush: bool, p': Picture) {
    if flush then exists m :: CacheFlushed(p, m) && ReserveFreed(m, p') else ReserveFreed(p, p')
  }

  /** The free successor of `b` is taken off its list and put on the free list of its size before that. */
  ghost predicate RefusedResize(p: Picture, b: int, p': Picture) {
    exists y :: Relisted(p.index, y, Next(p.heap, b), if Next(p.heap, b) in p.heap.free then p.heap.free[Next(p.heap, b)] else 0,
                         HasNext(p.heap, b)) && Refused(p.(index := y), true, p')
  }

  // ----- proof steps

  lemma NextFacts(h: HeapState, b: int)
    requires b in h.live && b in h.words.size && h.words.size[b].size == h.live[b].size &&
      b + h.live[b].size in h.words.size
    ensures Next(h, b) == b + h.words.size[b].size && (HasNext(h, b) <==> h.words.size[Next(h, b)].kind == Free)
  {}

  lemma AddedSize(x: FS.Index, y: FS.Index, b: int, n: nat)
    requires FX.Added(x, y, b, n)
    ensures y.size == x.size[b := n]
  {}

  lemma RestedSize(x: FS.Index, y: FS.Index, b: int, n: nat, k: nat)
    requires FX.Rested(x, y, b, n, k)
    ensures y.size == x.size[b := n]
  {}

  lemma RemovedSize(x: FS.Index, y: FS.Index, b: int)
    requires FX.Removed(x, y, b)
    ensures y.size == x.size - {b}
  {}

  /** What flushing leaves alone, and that bytes move from `cached` to `flushed`. */
  ghost predicate Flushing(v: View, k: Books, v': View, k': Books) {
    && v'.live == v.live && v'.flushed + k'.cached == v.flushed + k.cached
    && k' == k.(cached := k'.cached, realSize := k'.realSize) && k'.realSize <= k.realSize
  }

  lemma UpToAscends(lists: seq<nat>, i: nat)
    requires UpTo(lists, i)
    ensures Ascending(lists)
  {}

  lemma FlushNone(p: Picture)
    ensures Flushed(p, [], p) && UpTo([], 0)
  {}

  /** The lists named so far, up to list `i`. */
  predicate UpTo(lists: seq<nat>, i: nat) {
    Ascending(lists) && forall j :: 0 <= j < |lists| ==> lists[j] <= i
  }

  lemma {:induction false} FlushMore(p: Picture, lists: seq<nat>, m: Picture, i: nat, p': Picture)
    requires Flushed(p, lists, m) && FlushStep(m, i, p')
    ensures Flushed(p, lists + [i], p')
  {
    hide FlushStep;
    var l := lists + [i];
    assert l[..|l| - 1] == lists;
  }

  // ----- what becomes of the lists

  /** Every block of the index is on the list it was on, or on the free list of its size. */
  ghost predicate Tidied(x: FS.Index, y: FS.Index) {
    forall c {:trigger FX.ListOf(y, c)} :: c in y.size ==>
      || (c in x.size && y.size[c] == x.size[c] && FX.ListOf(y, c) == FX.ListOf(x, c))
      || FX.ListOf(y, c) == FX.ListFor(y.size[c])
  }

  /** A segment that is one free block. */
  ghost predicate Idle(h: HeapState, s: Segment) {
    s.size >= SEGMENT_HEADER + HEADER && First(s) in h.blocks && h.blocks[First(s)] == Whole(s, false)
  }

  /** No segment has become one free block. */
  ghost predicate NoneIdled(h: HeapState, h': HeapState) {
    forall s {:trigger Idle(h', s)} :: Idle(h', s) ==> Idle(h, s)
  }
}
