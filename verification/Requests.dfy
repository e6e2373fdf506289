/** What becomes of a request for memory, decided from the heap before the call. The only thing left open is
    whether the storage grants a segment when it is asked for one. */
module Requests {
  import opened Bits
  import opened Sizes
  import opened HeapLayout
  import opened Sums
  import opened HeapState
  import opened HeapSteps
  import opened HeapChanges
  import opened Effects
  import Storage
  import FS = FreeIndexState
  import FX = FreeIndexSteps
  import TS = TrieSearch

  /** Where a request is met, or why it is not. */
  datatype Plan = Overflowing | InPlace | FromCache | FromIndex | OverTheLimit | NewSegment | ResizeSegment

  type Replies = seq<Storage.Reply>

  /** The totals and settings are words. */
  predicate Sized(k: Books) {
    0 < k.unit < WORD && k.limit < WORD && k.realSize < WORD
  }

  /** The segment needed for `trueSize` bytes does not fit under the limit. */
  ghost predicate OverLimit(k: Books, trueSize: nat)
    requires Sized(k) && trueSize < WORD
  {
    var size := SegmentSize(k.unit, trueSize);
    size < trueSize || (size < WORD && Add(k.realSize, size) > k.limit)
  }

  /** The same for a segment that is resized to hold `trueSize` bytes. */
  ghost predicate ResizeOverLimit(k: Books, s: Segment, trueSize: nat)
    requires Sized(k) && trueSize < WORD
  {
    var size := SegmentSize(k.unit, trueSize);
    size < trueSize || (size < WORD && s.size < WORD && Sub(Add(k.realSize, size), s.size) > k.limit)
  }

  /** The cache list of the size is not empty. */
  predicate CacheHas(h: HeapState, trueSize: nat) {
    && MIN_BLOCK <= trueSize && Small(trueSize) && BucketIndex(trueSize) < |h.cache|
    && h.cache[BucketIndex(trueSize)] != []
  }

  ghost predicate NoneKept(x: FS.Index, trueSize: nat) {
    forall b :: FX.Kept(x, b) ==> x.size[b] < trueSize
  }

  ghost predicate NoneInTries(x: FS.Index, trueSize: nat) {
    forall b :: b in x.size && FX.ListOf(x, b) == FX.LargeTrie ==> x.size[b] < trueSize
  }

  ghost predicate NoneRested(x: FS.Index, trueSize: nat) {
    forall b :: b in x.size && FX.ListOf(x, b) == FX.RestList ==> x.size[b] < trueSize
  }

  /** The rest list is searched when the heap is within one unit of its limit. */
  predicate SearchesRest(k: Books)
    requires Sized(k)
  {
    k.realSize >= Sub(k.limit, k.unit)
  }

  /** No block of the tries fits, and none of the rest list if that is searched. */
  ghost predicate NoneLarger(x: FS.Index, k: Books, trueSize: nat)
    requires Sized(k)
  {
    NoneInTries(x, trueSize) && (SearchesRest(k) ==> NoneRested(x, trueSize))
  }

  /** The search finds nothing, although a block may fit: one of a rest list that is not searched, or one in
      a small ring whose bit was lost. */
  ghost predicate NoneFound(x: FS.Index, k: Books, trueSize: nat)
    requires Sized(k)
  {
    NoneLarger(x, k, trueSize) && (Small(trueSize) ==> NoneKept(x, trueSize))
  }

  /** The plan for `alloc`. */
  ghost function AllocPlan(h: HeapState, x: FS.Index, req: nat, trueSize: nat): Plan
    requires Sized(h.books) && trueSize < WORD
  {
    if trueSize < req then Overflowing
    else if CacheHas(h, trueSize) then FromCache
    else if !NoneFound(x, h.books, trueSize) then FromIndex
    else if OverLimit(h.books, trueSize) then OverTheLimit
    else NewSegment
  }

  /** The plan for `realloc` of live block `b`. */
  ghost function ReallocPlan(h: HeapState, x: FS.Index, b: int, req: nat, trueSize: nat): Plan
    requires Sized(h.books) && trueSize < WORD && b in h.live && b in h.blocks
  {
    if trueSize < req then Overflowing
    else if trueSize <= h.live[b].size then InPlace
    else if CacheHas(h, trueSize) then FromCache
    else if trueSize <= Reach(h, b) - b then InPlace
    else if Alone(h, b) then
      if ResizeOverLimit(h.books, h.blocks[b].seg, trueSize) then OverTheLimit else ResizeSegment
    else AllocPlan(h, x, req, trueSize)
  }

  /** The block of the tries or the rest list that is taken. */
  ghost predicate ChosenLarger(x: FS.Index, trueSize: nat, b: int) {
    && b in x.size && x.size[b] >= trueSize
    && if !NoneInTries(x, trueSize) then
         && FX.ListOf(x, b) == FX.LargeTrie
         && ((exists c :: c in x.size && FX.ListOf(x, c) == FX.LargeTrie && x.size[c] == trueSize) ==>
           x.size[b] == trueSize)
         && (forall a :: FX.BestLarge(x, trueSize, a) ==> (x.size[b] == x.size[a] <==> FX.InReach(x, trueSize, a)))
         && TS.Found(x, trueSize, b)
       else
         && FX.ListOf(x, b) == FX.RestList
         && (forall c :: c in x.size && FX.ListOf(x, c) == FX.RestList && x.size[c] >= trueSize ==>
           x.size[b] <= x.size[c])
         && FX.NewestFit(x, trueSize, b)
  }

  /** The block that has been in its small ring for longest. */
  ghost predicate OldestOfRing(x: FS.Index, b: int) {
    && b in x.size && x.size[b] >= MIN_BLOCK
    && var h := FS.SmallHead(BucketIndex(x.size[b])); FS.Ring(x, h) != [] && b == FS.Last(x, h)
  }

  /** The block of the index that is taken: of the small rings a smallest and the oldest of its ring, else the one
      found in the tries, else the newest best fit of the rest list. */
  ghost predicate Chosen(x: FS.Index, trueSize: nat, b: int) {
    if Small(trueSize) && !NoneKept(x, trueSize) then
      && FX.Kept(x, b) && x.size[b] >= trueSize && OldestOfRing(x, b)
      && forall c :: FX.Kept(x, c) && x.size[c] >= trueSize ==> x.size[b] <= x.size[c]
    else ChosenLarger(x, trueSize, b)
  }

  /** How `alloc` answers. A new segment is the one case in which the storage has a say. */
  ghost predicate AllocAnswer(h: HeapState, x: FS.Index, req: nat, trueSize: nat, r: Outcome) {
    && Sized(h.books) && trueSize < WORD
    && match AllocPlan(h, x, req, trueSize)
       case Overflowing => r == OutOfMemory
       case FromCache => r == Done(h.cache[BucketIndex(trueSize)][0] + HEADER)
       case FromIndex => r.Done? && Chosen(x, trueSize, r.ptr - HEADER)
       case OverTheLimit => r == LimitHit
       case NewSegment => r.Done? || r == OutOfMemory
       case _ => false
  }

  /** What a granted request does to the segment list and the totals. */
  ghost predicate AllocTotals(h: HeapState, plan: Plan, trueSize: nat, h': HeapState, r: Outcome) {
    r.Done? ==>
      && var b := r.ptr - HEADER;
      && b in h'.live && Sized(h.books) && trueSize < WORD
      && match plan
         case FromCache =>
           h'.segs == h.segs && h'.books.cached + trueSize == h.books.cached &&
             h'.books == h.books.(cached := h'.books.cached)
         case FromIndex => h'.segs == h.segs && h'.books == Paid(h.books, h'.live[b].size)
         case NewSegment =>
           && h'.segs != [] && h'.segs[1..] == h.segs
           && h'.segs[0].size == SegmentSize(h.books.unit, trueSize) && First(h'.segs[0]) == b
           && h'.books == Paid(Grown(h.books, h'.segs[0].size), h'.live[b].size)
         case _ => false
  }

  /** The same, whole: heap and index after the request, whether granted or refused. */
  ghost predicate AllocEffect(p: Picture, plan: Plan, req: nat, trueSize: nat, p': Picture, r: Outcome) {
    && Sized(p.heap.books) && trueSize < WORD
    && if r.Done? then
         var b := r.ptr - HEADER;
         match plan
         case FromCache => trueSize >= MIN_BLOCK && TakenFromCache(p, BucketIndex(trueSize), req, p')
         case FromIndex => TakenFromIndex(p, b, trueSize, req, p')
         case NewSegment =>
           TakenFromSegment(p, Segment(b - SEGMENT_HEADER, SegmentSize(p.heap.books.unit, trueSize)), trueSize, req,
                            KeepsRest(p.heap.books, trueSize), p')
         case _ => false
       else Refused(p, trueSize >= req, p')
  }

  /** The rest of a new segment goes to the rest list if the segment was made for this request alone. */
  predicate KeepsRest(k: Books, trueSize: nat)
    requires Sized(k)
  {
    trueSize > Sub(k.unit, SEGMENT_HEADER + HEADER)
  }

  /** The storage is asked once if the plan is a new or a larger segment, and then its reply is the outcome. */
  ghost predicate Asked(h: HeapState, plan: Plan, trueSize: nat, r: Outcome, log: Replies, log': Replies) {
    if plan == NewSegment || plan == ResizeSegment then
      && Sized(h.books) && trueSize < WORD
      && log' == log + [Storage.Reply(SegmentSize(h.books.unit, trueSize), if r.Done? then r.ptr - HEADER - SEGMENT_HEADER else 0)]
    else log' == log
  }

  /** What `alloc` does: answer, totals, heap and index after it, and what was asked of the storage. */
  ghost predicate AllocDone(p: Picture, req: nat, trueSize: nat, p': Picture, r: Outcome, log: Replies, log': Replies) {
    && AllocAnswer(p.heap, p.index, req, trueSize, r)
    && var plan := AllocPlan(p.heap, p.index, req, trueSize);
      && AllocTotals(p.heap, plan, trueSize, p'.heap, r) && AllocEffect(p, plan, req, trueSize, p', r)
      && Asked(p.heap, plan, trueSize, r, log, log')
  }

  /** How `realloc` of live block `b` answers. */
  ghost predicate ReallocAnswer(h: HeapState, x: FS.Index, b: int, req: nat, trueSize: nat, r: Outcome) {
    && Sized(h.books) && trueSize < WORD && b in h.live && b in h.blocks
    && match ReallocPlan(h, x, b, req, trueSize)
       case Overflowing => r == OutOfMemory
       case InPlace => r == Done(b + HEADER)
       case FromCache => r == Done(h.cache[BucketIndex(trueSize)][0] + HEADER)
       case FromIndex => r.Done? && Chosen(x, trueSize, r.ptr - HEADER)
       case OverTheLimit => r == LimitHit
       case NewSegment => r.Done? || r == OutOfMemory
       case ResizeSegment => r.Done? || r == (if Reach(h, b) > b + h.live[b].size then Corrupted else OutOfMemory)
  }

  /** What a granted reallocation does to the segment list and the totals. Moving is allocating and freeing. */
  ghost predicate ReallocTotals(h: HeapState, plan: Plan, b: int, trueSize: nat, h': HeapState, r: Outcome) {
    r.Done? ==>
      && b in h.live && b in h.blocks && h.live[b].size <= h.books.size && Sized(h.books) && trueSize < WORD
      && var n, c := h.live[b].size, r.ptr - HEADER;
      match plan
      case InPlace => c in h'.live && h'.segs == h.segs &&
        h'.books == Paid(h.books.(size := h.books.size - n), h'.live[c].size)
      case FromCache =>
        && h'.segs == h.segs && h'.books.cached + trueSize == h.books.cached + n
        && h'.books == h.books.(cached := h'.books.cached)
      case ResizeSegment =>
        Resized(h, b, Segment(c - SEGMENT_HEADER, SegmentSize(h.books.unit, trueSize)), h')
      case _ => exists g :: AllocTotals(h, plan, trueSize, g, r)
  }

  /** A new block taken and the old one freed. */
  ghost predicate TakenAndFreed(p: Picture, plan: Plan, b: int, req: nat, trueSize: nat, p': Picture, r: Outcome) {
    exists m: Picture :: AllocTotals(p.heap, plan, trueSize, m.heap, r) &&
      AllocEffect(p, plan, req, trueSize, m, r) && Freed(m, b, p')
  }

  /** Heap and index after a reallocation. */
  ghost predicate ReallocEffect(p: Picture, plan: Plan, b: int, req: nat, trueSize: nat, p': Picture, r: Outcome) {
    && Sized(p.heap.books) && trueSize < WORD && b in p.heap.live
    && match r
       case Done(ptr) => GrantedEffect(p, plan, b, req, trueSize, p', r)
       case Corrupted => p'.heap == p.heap.(free := p.heap.free - {Next(p.heap, b)}) &&
         FX.Removed(p.index, p'.index, Next(p.heap, b))
       case _ => if ResizeRefused(p.heap, plan, b, trueSize) then RefusedResize(p, b, p') else Refused(p, trueSize >= req, p')
  }

  /** The limit stands in the way of resizing the segment of `b`, after its free successor was unlinked. */
  ghost predicate ResizeRefused(h: HeapState, plan: Plan, b: int, trueSize: nat) {
    plan == OverTheLimit && Alone(h, b)
  }

  ghost predicate GrantedEffect(p: Picture, plan: Plan, b: int, req: nat, trueSize: nat, p': Picture, r: Outcome)
    requires Sized(p.heap.books) && trueSize < WORD && b in p.heap.live && r.Done?
  {
    var n, c := p.heap.live[b].size, r.ptr - HEADER;
    match plan
    case InPlace =>
      if n < trueSize then StretchedTo(p, b, trueSize, req, Alone(p.heap, b), p')
      else if n - trueSize >= MIN_BLOCK then StretchedTo(p, b, trueSize, req, false, p')
      else Relabelled(p, b, req, p')
    case FromCache => trueSize >= MIN_BLOCK && Exchanged(p, b, BucketIndex(trueSize), req, p')
    case ResizeSegment =>
      var s := Segment(c - SEGMENT_HEADER, SegmentSize(p.heap.books.unit, trueSize));
      OwnSegmentResized(p, b, s, trueSize, req, p')
    case _ => TakenAndFreed(p, plan, b, req, trueSize, p', r)
  }

  /** The segment of block `b` has become `s`, in its place in the list. */
  ghost predicate Resized(h: HeapState, b: int, s: Segment, h': HeapState) {
    && b in h.live && b in h.blocks && h.live[b].size <= h.books.size && h.blocks[b].seg.size <= h.books.realSize
    && ResizedInPlace(h.segs, h'.segs, b, s) && First(s) in h'.live
    && var k := h.books.(size := h.books.size - h.live[b].size, realSize := h.books.realSize - h.blocks[b].seg.size);
      h'.books == Paid(Grown(k, s.size), h'.live[First(s)].size)
  }

  /** What `realloc` does: answer, totals, heap and index after it, and what was asked of the storage. */
  ghost predicate ReallocDone(p: Picture, b: int, req: nat, trueSize: nat, p': Picture, r: Outcome, log: Replies,
      log': Replies) {
    && ReallocAnswer(p.heap, p.index, b, req, trueSize, r)
    && var plan := ReallocPlan(p.heap, p.index, b, req, trueSize);
      && ReallocTotals(p.heap, plan, b, trueSize, p'.heap, r) && ReallocEffect(p, plan, b, req, trueSize, p', r)
      && Asked(p.heap, plan, trueSize, r, log, log')
  }

  /** The request fails, given what the storage said last. */
  ghost predicate Fails(plan: Plan, log: Replies) {
    || plan == Overflowing || plan == OverTheLimit
    || ((plan == NewSegment || plan == ResizeSegment) && log != [] && log[|log| - 1].addr == 0)
  }

  // ----- from what the parts of an allocation do to the answer

  lemma SizedBooks(h: HeapState)
    requires Inv(h)
    ensures Sized(h.books)
  {}

  lemma UncachedPlan(h: HeapState, x: FS.Index, req: nat, trueSize: nat)
    requires Sized(h.books) && trueSize < WORD && !CacheHas(h, trueSize)
    ensures var plan := AllocPlan(h, x, req, trueSize); plan != InPlace && plan != FromCache && plan != ResizeSegment
  {}

  /** The plan behind the small rings. */
  ghost function LargerPlan(x: FS.Index, k: Books, trueSize: nat): Plan
    requires Sized(k) && trueSize < WORD
  {
    if !NoneLarger(x, k, trueSize) then FromIndex else if OverLimit(k, trueSize) then OverTheLimit else NewSegment
  }

  /** What that part of `alloc` does. */
  ghost predicate LargerDone(p: Picture, req: nat, trueSize: nat, p': Picture, r: Outcome, log: Replies,
      log': Replies) {
    && Sized(p.heap.books) && trueSize < WORD
    && var plan := LargerPlan(p.index, p.heap.books, trueSize);
    && AllocTotals(p.heap, plan, trueSize, p'.heap, r) && AllocEffect(p, plan, req, trueSize, p', r)
    && Asked(p.heap, plan, trueSize, r, log, log')
    && match plan
       case FromIndex => r.Done? && ChosenLarger(p.index, trueSize, r.ptr - HEADER)
       case OverTheLimit => r == LimitHit
       case _ => r.Done? || r == OutOfMemory
  }

  lemma LargerIsDone(p: Picture, req: nat, trueSize: nat, p': Picture, r: Outcome, log: Replies, log': Replies)
    requires LargerDone(p, req, trueSize, p', r, log, log') && req <= trueSize && !CacheHas(p.heap, trueSize)
    requires Small(trueSize) ==> NoneKept(p.index, trueSize)
    ensures AllocDone(p, req, trueSize, p', r, log, log')
  {
    hide NoneKept, NoneLarger, ChosenLarger, OverLimit, CacheHas, AllocTotals, Asked, AllocEffect;
    assert AllocPlan(p.heap, p.index, req, trueSize) == LargerPlan(p.index, p.heap.books, trueSize);
  }

  /** Live block `b` is too small for `trueSize` bytes and no cached block will do. */
  ghost predicate Growing(h: HeapState, b: int, req: nat, trueSize: nat) {
    && Sized(h.books) && b in h.live && b in h.blocks && h.live[b].size <= h.books.size
    && req <= trueSize < WORD && h.live[b].size < trueSize && !CacheHas(h, trueSize)
  }

  lemma StretchDone(p: Picture, b: int, req: nat, trueSize: nat, p': Picture, log: Replies)
    requires Growing(p.heap, b, req, trueSize) && trueSize <= Reach(p.heap, b) - b && b in p'.heap.live
    requires p'.heap.segs == p.heap.segs && StretchedTo(p, b, trueSize, req, Alone(p.heap, b), p')
    requires p'.heap.books == Paid(p.heap.books.(size := p.heap.books.size - p.heap.live[b].size), p'.heap.live[b].size)
    ensures ReallocDone(p, b, req, trueSize, p', Done(b + HEADER), log, log)
  {
    hide CacheHas, Reach, Alone, AllocPlan, StretchedTo;
  }

  /** What resizing the segment does, by its outcome. */
  ghost predicate ResizeEffect(p: Picture, b: int, req: nat, trueSize: nat, p': Picture, r: Outcome) {
    && Sized(p.heap.books) && trueSize < WORD && b in p.heap.live
    && match r
       case Done(ptr) =>
         OwnSegmentResized(p, b, Segment(ptr - HEADER - SEGMENT_HEADER, SegmentSize(p.heap.books.unit, trueSize)),
                           trueSize, req, p')
       case Corrupted => p'.heap == p.heap.(free := p.heap.free - {Next(p.heap, b)}) &&
         FX.Removed(p.index, p'.index, Next(p.heap, b))
       case LimitHit => RefusedResize(p, b, p')
       case OutOfMemory => Refused(p, true, p')
  }

  lemma LimitEffect(p: Picture, b: int, req: nat, trueSize: nat, p': Picture)
    requires Sized(p.heap.books) && trueSize < WORD && b in p.heap.live && RefusedResize(p, b, p')
    ensures ResizeEffect(p, b, req, trueSize, p', LimitHit)
  {
    hide RefusedResize;
  }

  lemma ResizedEffect(p: Picture, b: int, k: nat, s: Segment, req: nat, trueSize: nat, p': Picture, r: Outcome)
    requires Sized(p.heap.books) && trueSize < WORD && b in p.heap.live && SegmentResized(p, b, k, s, trueSize, req, p')
    requires r == Done(First(s) + HEADER) && s.size == SegmentSize(p.heap.books.unit, trueSize)
    ensures ResizeEffect(p, b, req, trueSize, p', r)
  {
    hide SegmentResized, SegmentSize;
    assert s == Segment(r.ptr - HEADER - SEGMENT_HEADER, SegmentSize(p.heap.books.unit, trueSize));
    assert OwnSegmentResized(p, b, s, trueSize, req, p');
  }

  lemma ResizeDone(p: Picture, b: int, req: nat, trueSize: nat, p': Picture, r: Outcome, log: Replies, log': Replies)
    requires Growing(p.heap, b, req, trueSize) && trueSize > Reach(p.heap, b) - b && Alone(p.heap, b)
    requires r == LimitHit <==> ResizeOverLimit(p.heap.books, p.heap.blocks[b].seg, trueSize)
    requires r == Corrupted ==> Reach(p.heap, b) > b + p.heap.live[b].size
    requires r == OutOfMemory ==> Reach(p.heap, b) == b + p.heap.live[b].size
    requires r.Done? ==>
      Resized(p.heap, b, Segment(r.ptr - HEADER - SEGMENT_HEADER, SegmentSize(p.heap.books.unit, trueSize)), p'.heap)
    requires Asked(p.heap, if r == LimitHit then OverTheLimit else ResizeSegment, trueSize, r, log, log')
    requires ResizeEffect(p, b, req, trueSize, p', r)
    ensures ReallocDone(p, b, req, trueSize, p', r, log, log')
  {
    hide CacheHas, Reach, Alone, AllocPlan, Resized, SegmentSize, ResizeOverLimit, OwnSegmentResized, RefusedResize,
      Refused, FX.Removed;
  }

  lemma MoveDone(p: Picture, b: int, req: nat, trueSize: nat, p': Picture, r: Outcome, log: Replies, log': Replies)
    requires Growing(p.heap, b, req, trueSize) && trueSize > Reach(p.heap, b) - b && !Alone(p.heap, b)
    requires AllocAnswer(p.heap, p.index, req, trueSize, r)
    requires var plan := AllocPlan(p.heap, p.index, req, trueSize);
      if r.Done? then TakenAndFreed(p, plan, b, req, trueSize, p', r) else Refused(p, trueSize >= req, p')
    requires Asked(p.heap, AllocPlan(p.heap, p.index, req, trueSize), trueSize, r, log, log')
    ensures ReallocDone(p, b, req, trueSize, p', r, log, log')
  {
    hide CacheHas, Reach, Alone, AllocPlan, TakenAndFreed, Asked, Chosen, Refused, AllocTotals;
    UncachedPlan(p.heap, p.index, req, trueSize);
    if r.Done? { TakenTotals(p, AllocPlan(p.heap, p.index, req, trueSize), b, req, trueSize, p', r); }
  }

  lemma TakenTotals(p: Picture, plan: Plan, b: int, req: nat, trueSize: nat, p': Picture, r: Outcome)
    requires TakenAndFreed(p, plan, b, req, trueSize, p', r)
    ensures exists g :: AllocTotals(p.heap, plan, trueSize, g, r)
  {
    hide AllocTotals, AllocEffect, Freed;
  }

  // ----- the reserve after a soft shutdown

  /** A block the search can find. */
  ghost predicate Findable(x: FS.Index, b: int) {
    b in x.size && (FX.ListOf(x, b) == FX.LargeTrie || FX.Kept(x, b))
  }

  lemma FirstAdded(x: FS.Index, y: FS.Index, b: int, n: nat)
    requires FS.Inv(x) && x.size == map[] && FX.Added(x, y, b, n)
    ensures y.size == map[b := n] && Findable(y, b)
  {
    if Small(n) {
      var i := BucketIndex(n);
      if FS.Ring(x, FS.SmallHead(i)) != [] { FS.RingBlocks(x, FS.SmallHead(i), FS.Ring(x, FS.SmallHead(i))[0]); }
      SetBitBits(x.bitmap, i, i);
    }
  }

  /** The index of a heap that is one free block, or nothing. */
  ghost predicate OneBlock(x: FS.Index, kept: seq<Segment>) {
    if kept == [] then x.size == map[]
    else x.size == map[First(kept[0]) := Room(kept[0])] && Findable(x, First(kept[0]))
  }

  function Room(s: Segment): nat {
    if s.size < SEGMENT_HEADER + HEADER then 0 else s.size - SEGMENT_HEADER - HEADER
  }

  /** How the request for the reserve is answered when `kept` are the segments left. */
  ghost predicate ReserveAnswer(k: Books, kept: seq<Segment>, r: Outcome, log: Replies, log': Replies) {
    && Sized(k) && k.reserveSize < WORD && TrueSize(k.reserveSize) < WORD
    && var trueSize := TrueSize(k.reserveSize);
      if trueSize < k.reserveSize then r == OutOfMemory && log' == log
      else if kept != [] && trueSize <= Room(kept[0]) then r.Done? && log' == log
      else if OverLimit(k, trueSize) then r == LimitHit && log' == log
      else
        && (r.Done? || r == OutOfMemory)
        && log' == log + [Storage.Reply(SegmentSize(k.unit, trueSize), if r.Done? then r.ptr - HEADER - SEGMENT_HEADER else 0)]
  }

  lemma ReserveAnswers(p: Picture, kept: seq<Segment>, p': Picture, r: Outcome, log: Replies, log': Replies)
    requires p.heap.books.reserveSize < WORD
    requires AllocDone(p, p.heap.books.reserveSize, TrueSize(p.heap.books.reserveSize), p', r, log, log')
    requires FS.Inv(p.index) && OneBlock(p.index, kept)
    requires forall i {:trigger p.heap.cache[i]} :: 0 <= i < |p.heap.cache| ==> p.heap.cache[i] == []
    ensures ReserveAnswer(p.heap.books, kept, r, log, log')
  {
    hide TrueSize, OverLimit, FX.ListOf, Chosen, FS.Lost, SegmentSize, AllocTotals, AllocEffect;
    var h, x := p.heap, p.index;
    var trueSize := TrueSize(h.books.reserveSize);
    TrueSizeCoversOrWraps(h.books.reserveSize);
    if kept == [] || Room(kept[0]) < trueSize {
      NothingLarge(x, trueSize);
    } else {
      var b := First(kept[0]);
      if FX.Kept(x, b) { FX.SmallRingOf(x, b); }
      hide FS.Inv;
      assert x.size[b] >= trueSize;
    }
  }

  lemma SameReserveAnswer(k: Books, k': Books, kept: seq<Segment>, r: Outcome, log: Replies, log': Replies)
    requires ReserveAnswer(k, kept, r, log, log') && k'.unit == k.unit && k'.limit == k.limit
    requires k'.realSize == k.realSize && k'.reserveSize == k.reserveSize
    ensures ReserveAnswer(k', kept, r, log, log')
  {
    hide TrueSize, SegmentSize;
  }

  /** What a soft shutdown leaves: the settings, the last segment if a reserve is wanted, and the reserve. */
  ghost predicate Restarted(p: Picture, p': Picture, r: Outcome, log: Replies, log': Replies) {
    var h, h' := p.heap, p'.heap;
    var k, k', kept := h.books, h'.books, Survivors(h.segs, h.books.reserveSize);
    && h'.flushed == 0 && k'.limit == k.limit && k'.unit == k.unit && k'.reserveSize == k.reserveSize
    && (k.reserveSize == 0 ==>
      r == Done(NULL) && h'.segs == [] && k'.reserve == NULL && h'.live == map[] && log' == log)
    && (k.reserveSize > 0 ==> ReserveAnswer(k.(realSize := SegmentTotal(kept)), kept, r, log, log'))
    && (if r.Done? then
         && k'.overflow == 0 && k'.cached == 0 && k'.size == k'.peak == ClaimTotal(h'.live)
         && k'.realSize == k'.realPeak == SegmentTotal(h'.segs)
         && (h'.segs == kept || (h'.segs != [] && h'.segs[1..] == kept))
         && (k.reserveSize > 0 ==> Reserved(h'.live, k', r.ptr))
       else h'.live == map[] && k'.reserve == NULL)
    && exists m :: Bared(m, k, kept) && Furnished(m, p', r, log, log')
  }

  /** A heap with nothing allocated, whose segments are one free block or none. */
  ghost predicate Bared(p: Picture, k: Books, kept: seq<Segment>) {
    && p.heap.segs == kept && p.heap.live == map[] && p.heap.flushed == 0 && OneBlock(p.index, kept)
    && p.heap.free == p.index.size &&
      p.heap.books == Blank(k).(realSize := SegmentTotal(kept), realPeak := SegmentTotal(kept))
    && forall i {:trigger p.heap.cache[i]} :: 0 <= i < |p.heap.cache| ==> p.heap.cache[i] == []
  }

  /** The reserve allocated from it as any other request, and noted. */
  ghost predicate Furnished(p: Picture, p': Picture, r: Outcome, log: Replies, log': Replies) {
    var k := p.heap.books;
    if k.reserveSize == 0 then p' == p.(heap := p.heap.(books := k.(overflow := 0)))
    else
      && k.reserveSize < WORD
      && exists m ::
        && AllocDone(p, k.reserveSize, TrueSize(k.reserveSize), m, r, log, log')
        && p' == if r.Done? then m.(heap := m.heap.(books := m.heap.books.(reserve := r.ptr, overflow := 0))) else m
  }

  ghost predicate Reserved(live: map<int, Claim>, k: Books, p: int) {
    p != NULL && k.reserve == p && live.Keys == {p - HEADER} && live[p - HEADER].req == k.reserveSize
  }

  // ----- states in which a request fails

  /** The block cannot grow where it is although its free successor reaches the end of the segment, and the
      storage is asked for a larger one. If it refuses, the successor is lost to the index. */
  ghost predicate Cornered(h: HeapState, x: FS.Index, b: int, req: nat, trueSize: nat) {
    && Sized(h.books) && trueSize < WORD && b in h.live && b in h.blocks
    && ReallocPlan(h, x, b, req, trueSize) == ResizeSegment && Reach(h, b) > b + h.live[b].size
  }

  /** One segment of 256 bytes, with a live block of 64 in front of one free block. */
  lemma SmallHeap(limit: nat) returns (h: HeapState)
    requires 256 <= limit < WORD
    ensures Inv(h) && h.books.reserve == 0 && h.books.cached == 0 && h.flushed == 0
    ensures h.books.unit == 256 && h.books.limit == limit && h.books.realSize == 256 && SegmentUnit(256)
    ensures var b := First(Segment(8, 256)); b in h.live && h.live[b].size == 64 && h.free == map[b + 64 := 160]
    ensures var b := First(Segment(8, 256)); Alone(h, b) && Reach(h, b) == b + 224 && h.blocks[b].seg == Segment(8, 256)
    ensures forall i {:trigger h.cache[i]} :: 0 <= i < |h.cache| ==> h.cache[i] == []
  {
    hide Inv, Ready, BooksOK, Shaped;
    var s := Segment(8, 256);
    assert Pow2(4) == 16 && Pow2(8) == 256;
    var k := StartBooks(256, 0).(limit := limit);
    var e := HeapState(Words(map[], map[]), [], seq(NUM_BUCKETS, _ => []), k, map[], map[], 0, map[]);
    BareOK(e);
    EnteredOK(e, 0, s);
    GivenPartOK(Entered(e, 0, s), First(s), 64, 16);
    h := GivenPart(Entered(e, 0, s), First(s), 64, 16);
  }

  lemma Needs256()
    ensures TrueSize(240) == 256
  {
    TrueSizeCoversOrWraps(240);
  }

  /** It can happen that a refusal empties a cache with blocks in it: the heap is at its limit of 256 bytes, the
      block of 64 is in the cache, and a request for 240 bytes needs another segment. */
  lemma FlushExample()
    ensures exists h :: Inv(h) && h.flushed == 0 && h.books.cached > 0 && Hopeless(h, 240)
  {
    hide Inv, Ready, BooksOK, Shaped, TrueSize;
    Needs256();
    var h := SmallHeap(256);
    var b := First(Segment(8, 256));
    CacheFreeOK(h, b);
    var i := BucketIndex(64);
    var g := h.(live := h.live - {b}, cache := h.cache[i := [b] + h.cache[i]], books := h.books.(cached := h.books.cached + 64));
    SegmentSizeCoversOrWraps(256, 256);
    assert OverLimit(g.books, 256) && i != BucketIndex(256);
    forall x: FS.Index | x.size == g.free ensures AllocPlan(g, x, 240, 256) == OverTheLimit {
      NothingLarge(x, 256);
    }
  }

  /** With any index of the heap's free blocks the request hits the limit. */
  ghost predicate Hopeless(h: HeapState, req: nat)
    requires req < WORD
  {
    && Sized(h.books) && TrueSize(req) < WORD
    && forall x: FS.Index {:trigger AllocPlan(h, x, req, TrueSize(req))} ::
      x.size == h.free ==> AllocPlan(h, x, req, TrueSize(req)) == OverTheLimit
  }

  lemma NothingLarge(x: FS.Index, trueSize: nat)
    requires forall b :: b in x.size ==> x.size[b] < trueSize
    ensures NoneInTries(x, trueSize) && NoneRested(x, trueSize) && NoneKept(x, trueSize)
  {}

  /** It can happen that a storage refusal loses a block: with a limit of 1024 bytes, the live block of 64 is to
      hold 240 bytes, and its segment would have to grow to 512. */
  lemma CorneredExample()
    ensures exists h, b :: Inv(h) && InCorner(h, b, 240)
  {
    hide Inv, Reach, TrueSize;
    Needs256();
    var h := SmallHeap(1024);
    var b := First(Segment(8, 256));
    SegmentSizeCoversOrWraps(256, 256);
    assert !ResizeOverLimit(h.books, Segment(8, 256), 256);
    assert InCorner(h, b, 240);
  }

  ghost predicate InCorner(h: HeapState, b: int, req: nat)
    requires req < WORD
  {
    forall x {:trigger Cornered(h, x, b, req, TrueSize(req))} :: Cornered(h, x, b, req, TrueSize(req))
  }
}
