/** What each heap operation does to the heap as a value, and why the invariant survives it. */
module HeapChanges {
  import opened Bits
  import opened Sizes
  import opened HeapLayout
  import opened Sums
  import opened HeapState
  import opened HeapSteps
  import FS = FreeIndexState
  import Storage

  const NULL: int := 0

  /** How a request ends. All but `Done` leave through a bail-out. */
  datatype Outcome = Done(ptr: int) | LimitHit | OutOfMemory | Corrupted

  /** What the words mean: see `HeapState`. */
  datatype View = View(blocks: Blocks, live: map<int, Claim>, flushed: nat)

  function StartBooks(unit: nat, reserveSize: nat): Books {
    Books(0, 0, 0, 0, 0, 0x4000_0000_0000_0000, unit, 0, reserveSize, 0)
  }

  /** The totals of a heap without segments; the settings stay. */
  function Blank(k: Books): Books {
    k.(size := 0, peak := 0, realSize := 0, realPeak := 0, cached := 0, reserve := NULL)
  }

  lemma BareOK(h: HeapState)
    requires h.blocks == map[] && h.live == map[] && h.free == map[] && h.segs == [] && h.flushed == 0
    requires |h.cache| == NUM_BUCKETS && forall i :: 0 <= i < |h.cache| ==> h.cache[i] == []
    requires SegmentUnit(h.books.unit) && h.books.limit < WORD && h.books == Blank(h.books)
    ensures Inv(h)
  {
    EmptyCache(h.cache);
    assert h.live.Keys == {};
  }

  lemma BlankOK(was: HeapState, h: HeapState)
    requires Inv(was) && h.books == Blank(was.books)
    requires h.blocks == map[] && h.live == map[] && h.free == map[] && h.segs == [] && h.flushed == 0
    requires |h.cache| == NUM_BUCKETS && forall i :: 0 <= i < |h.cache| ==> h.cache[i] == []
    ensures Inv(h)
  {
    BareOK(h);
  }

  lemma ListedSegment(h: HeapState, s: Segment)
    requires Inv(h) && s in h.segs
    ensures FreshSegment([], s) && s.size < WORD
  {
    assert SegmentOK(h.blocks, h.words, s);
  }

  /** A heap of one segment that is one free block. */
  ghost function OneFree(h: HeapState, s: Segment): HeapState
    requires s.size >= SEGMENT_HEADER + HEADER
  {
    var n := s.size - SEGMENT_HEADER - HEADER;
    h.(segs := [s], blocks := map[First(s) := Whole(s, false)], free := map[First(s) := n],
       words := SetBlock(Words(h.words.size[End(s) := GUARD_MARK], h.words.prev[First(s) := FIRST_MARK]), First(s), Free, n),
       books := h.books.(realSize := s.size, realPeak := s.size))
  }

  lemma OneFreeOK(h: HeapState, s: Segment)
    requires Inv(h) && h.segs == [] && h.blocks == map[] && h.free == map[] && FreshSegment([], s) && s.size < WORD
    requires h.books == Blank(h.books)
    ensures First(s) > 0 && FS.BlockSize(s.size - SEGMENT_HEADER - HEADER) && Inv(OneFree(h, s))
  {
    hide Shaped;
    OneFreeShaped(h, s);
    EndAligned(s);
    AlignedGap(First(s), End(s));
    OneSegmentTotal(s);
    Rebooked(OneFree(h, s).(books := h.books), OneFree(h, s), 0);
  }

  lemma OneFreeShaped(h: HeapState, s: Segment)
    requires Shaped(h, 0) && h.segs == [] && h.blocks == map[] && h.free == map[] && FreshSegment([], s)
    ensures Shaped(OneFree(h, s).(books := h.books), 0)
  {
    hide Shaped, UseOK, Laid, CacheOK, OneFree;
    var b := First(s);
    WithSegmentOK(h, 0, s);
    var g := WithSegment(h, 0, s);
    SoloRun(g, b);
    OneFreeIs(h, s);
    hide WithSegment;
    GatherOK(g, b, s, b, End(s), false);
    IndexedOK(Gathered(g, s, b, End(s), false), b);
  }

  lemma OneFreeIs(h: HeapState, s: Segment)
    requires h.segs == [] && h.blocks == map[] && h.free == map[] && s.size > SEGMENT_HEADER + HEADER
    ensures var b := First(s);
      var r := Gathered(WithSegment(h, 0, s), s, b, End(s), false);
      r.(free := r.free[b := r.blocks[b].size]) == OneFree(h, s).(books := h.books)
  {
    var f, r := OneFree(h, s), Gathered(WithSegment(h, 0, s), s, First(s), End(s), false);
    assert Insert(h.segs, 0, s) == [s];
    assert r.free[First(s) := r.blocks[First(s)].size] == f.free;
    assert r.blocks == f.blocks;
    assert r.words == f.words;
  }

  lemma OneSegmentTotal(s: Segment)
    ensures SegmentTotal([s]) == s.size
  {}

  lemma CacheHitOK(h: HeapState, i: nat, req: nat)
    requires Inv(h) && i < |h.cache| && h.cache[i] != [] && req + HEADER <= 8 * i + 32
    ensures var b := h.cache[i][0];
      && b !in h.live && 8 * i + 32 <= h.books.cached
      && Inv(h.(cache := h.cache[i := h.cache[i][1..]], books := h.books.(cached := h.books.cached - (8 * i + 32)),
                live := h.live[b := Claim(req, 8 * i + 32)]))
  {
    var b := h.cache[i][0];
    PoppedOK(h, i);
    var g := Popped(h, i);
    ClaimedOK(g, b, req);
    CachePop(h.cache, i);
    ClaimAdd(h.live, b, Claim(req, 8 * i + 32));
    var r := g.(live := h.live[b := Claim(req, 8 * i + 32)]);
    Rebooked(r, r.(books := h.books.(cached := h.books.cached - (8 * i + 32))), 0);
  }

  /** `real_size` and `real_peak` after a segment of `n` bytes is added. */
  function Grown(k: Books, n: nat): Books {
    k.(realSize := k.realSize + n, realPeak := if k.realSize + n > k.realPeak then k.realSize + n else k.realPeak)
  }

  ghost function Entered(h: HeapState, k: nat, s: Segment): HeapState
    requires k <= |h.segs| && s.size >= SEGMENT_HEADER + HEADER
  {
    h.(segs := Insert(h.segs, k, s), blocks := h.blocks[First(s) := Whole(s, true)], books := Grown(h.books, s.size),
       words := Words(h.words.size[End(s) := GUARD_MARK], h.words.prev[First(s) := FIRST_MARK]))
  }

  lemma EnteredOK(h: HeapState, k: nat, s: Segment)
    requires Inv(h) && k <= |h.segs| && FreshSegment(h.segs, s) && h.books.realSize + s.size < WORD
    ensures Ready(Entered(h, k, s), First(s)) && BooksOK(Entered(h, k, s))
  {
    WithSegmentOK(h, k, s);
    var g, e, b := WithSegment(h, k, s), Entered(h, k, s), First(s);
    InsertTotal(h.segs, k, s);
    EndIsFree(g.blocks, g.segs, g.words, s);
    hide Laid, UseOK, Shaped;
    EnteredWords(h, k, s);
    Rebooked(g, e.(words := SetBlock(e.words, b, Used, e.blocks[b].size)), b);
  }

  lemma EnteredWords(h: HeapState, k: nat, s: Segment)
    requires k <= |h.segs| && s.size >= SEGMENT_HEADER + HEADER
    ensures var e := Entered(h, k, s);
      e.(words := SetBlock(e.words, First(s), Used, e.blocks[First(s)].size), books := h.books) == WithSegment(h, k, s)
  {}

  ghost function ViewOf(h: HeapState): View { View(h.blocks, h.live, h.flushed) }

  /** The claims that remain when the reserve is given up. */
  function Spared(live: map<int, Claim>, reserve: int): map<int, Claim> {
    if reserve == NULL then live else live - {reserve - HEADER}
  }

  /** What freeing a block of `n` bytes does to the totals: into the cache while that is small enough. */
  ghost predicate FreedTotals(k: Books, n: nat, k': Books) {
    if Small(n) && k.cached < CACHE_SIZE then k' == k.(cached := k.cached + n)
    else k'.size + n == k.size && k'.realSize <= k.realSize && k' == k.(size := k'.size, realSize := k'.realSize)
  }

  /** A refused request frees nothing but the reserve. If it empties the cache first, the bytes in the cache
      stay in `size` for good. */
  ghost predicate Denied(v: View, k: Books, v': View, k': Books, flush: bool) {
    && v'.live == Spared(v.live, k.reserve) && v'.flushed == v.flushed + (if flush then k.cached else 0)
    && DeniedTotals(v, k, k', if flush then 0 else k.cached)
    && k'.reserve == NULL && k'.overflow == (if k.overflow == 0 then 1 else 2)
    && k'.limit == k.limit && k'.unit == k.unit && k'.reserveSize == k.reserveSize
    && k'.realSize <= k.realSize && k'.realPeak == k.realPeak && k'.peak == k.peak
  }

  /** `size` and `cached` after a refusal that leaves `cached` bytes in the cache before the reserve is freed. */
  ghost predicate DeniedTotals(v: View, k: Books, k': Books, cached: nat) {
    if k.reserve == NULL then k'.size == k.size && k'.cached == cached
    else
      && k.reserve - HEADER in v.live
      && var n := v.live[k.reserve - HEADER].size;
        if Small(n) && cached < CACHE_SIZE then k'.size == k.size && k'.cached == cached + n
        else k'.size + n == k.size && k'.cached == cached
  }

  function Larger(m: int, n: int): int { if m < n then n else m }

  /** What an allocation of `req` bytes does to the claims and to the totals: a new block of at least
      `trueSize` bytes and nothing else, and the real size grows only within the limit. */
  ghost predicate Allotted(v: View, k: Books, v': View, k': Books, r: Outcome, req: nat, trueSize: nat) {
    if r.Done? then
      var b := r.ptr - HEADER;
      && b !in v.live && b in v'.live && trueSize <= v'.live[b].size < trueSize + MIN_BLOCK
      && v'.live == v.live[b := Claim(req, v'.live[b].size)] && v'.flushed == v.flushed
      && k' == k.(size := k'.size, peak := k'.peak, cached := k'.cached, realSize := k'.realSize, realPeak := k'.realPeak)
      && k'.realSize >= k.realSize && (k'.realSize == k.realSize || k'.realSize <= k.limit)
      && k'.peak == Larger(k.peak, k'.size) && k'.realPeak == Larger(k.realPeak, k'.realSize) && k'.cached <= k.cached
    else
      r != Corrupted && Denied(v, k, v', k', trueSize >= req)
  }

  lemma SegmentFacts(h: HeapState, trueSize: nat)
    requires Inv(h) && FS.BlockSize(trueSize)
    ensures 0 < h.books.unit < WORD && h.books.realSize < WORD && h.books.limit < WORD &&
      trueSize < WORD
    ensures Storage.Aligned(h.segs) && h.books.realSize == SegmentTotal(h.segs)
    ensures MIN_BLOCK <= trueSize && trueSize % ALIGNMENT == 0
    ensures var r := SegmentSize(h.books.unit, trueSize);
      && r < WORD && (r < trueSize || (trueSize + SEGMENT_HEADER + HEADER <= r && r % ALIGNMENT == 0))
  {
    SegmentSizeCoversOrWraps(h.books.unit, trueSize);
    forall s | s in h.segs ensures s.addr > 0 && s.addr % ALIGNMENT == 0 && s.size % ALIGNMENT == 0 {
      assert SegmentOK(h.blocks, h.words, s);
    }
  }

  lemma DeniedAllotted(v: View, k: Books, v': View, k': Books, r: Outcome, req: nat, trueSize: nat)
    requires Denied(v, k, v', k', trueSize >= req) && (r == LimitHit || r == OutOfMemory)
    ensures Allotted(v, k, v', k', r, req, trueSize)
  {}

  lemma DoneAllotted(v: View, k: Books, v': View, k': Books, r: Outcome, req: nat, trueSize: nat)
    requires r.Done?
    requires var b := r.ptr - HEADER;
      && b !in v.live && b in v'.live && trueSize <= v'.live[b].size < trueSize + MIN_BLOCK
      && v'.live == v.live[b := Claim(req, v'.live[b].size)] && v'.flushed == v.flushed
    requires k' == k.(size := k'.size, peak := k'.peak, cached := k'.cached, realSize := k'.realSize, realPeak := k'.realPeak)
    requires k'.realSize >= k.realSize && (k'.realSize == k.realSize || k'.realSize <= k.limit)
    requires k'.peak == Larger(k.peak, k'.size) && k'.realPeak == Larger(k.realPeak, k'.realSize) &&
      k'.cached <= k.cached
    ensures Allotted(v, k, v', k', r, req, trueSize)
  {}

  lemma NoReserve(h: HeapState)
    requires Inv(h)
    ensures h.books.reserve != NULL ==> h.books.reserve - HEADER in h.live
    ensures forall o: nat :: Inv(h.(books := h.books.(reserve := NULL, overflow := o)))
  {
    forall o: nat ensures Inv(h.(books := h.books.(reserve := NULL, overflow := o))) {
      Rebooked(h, h.(books := h.books.(reserve := NULL, overflow := o)), 0);
    }
  }

  lemma ReserveFacts(v: View, k: Books, v': View, k': Books, r: Outcome, trueSize: nat)
    requires Allotted(v, k, v', k', r, k.reserveSize, trueSize) && v.live == map[] && k.reserve == NULL &&
      v.flushed == 0
    requires k.cached == 0
    ensures k'.limit == k.limit && k'.unit == k.unit && k'.reserveSize == k.reserveSize && k'.reserve == NULL
    ensures v'.flushed == 0 && (!r.Done? ==> v'.live == map[])
    ensures r.Done? ==> k'.peak == Larger(k.peak, k'.size) && k'.realPeak == Larger(k.realPeak, k'.realSize)
    ensures r.Done? ==> k'.cached <= k.cached && k'.realSize >= k.realSize
    ensures r.Done? ==> var b := r.ptr - HEADER;
      v'.flushed == 0 && b in v'.live && v'.live.Keys == {b} && v'.live[b].req == k.reserveSize
  {}

  lemma ReservedOK(h: HeapState, p: int)
    requires Inv(h) && p - HEADER in h.live
    ensures Inv(h.(books := h.books.(reserve := p, overflow := 0)))
  {
    Rebooked(h, h.(books := h.books.(reserve := p, overflow := 0)), 0);
  }

  lemma LiveBlock(h: HeapState, b: int)
    requires Inv(h) && b in h.live
    ensures b in h.blocks && b in h.words.size && h.words.size[b].size == h.live[b].size == h.blocks[b].size
    ensures MIN_BLOCK <= h.live[b].size < WORD && h.live[b].size % ALIGNMENT == 0
    ensures h.live[b].req + HEADER <= h.live[b].size && |h.cache| == NUM_BUCKETS && b > HEADER && b % ALIGNMENT == 0
  {
    UnclaimedOK(h, b);
    Neighbours(h, 0, b);
    PositiveBlock(h, 0, b);
    assert BlockOK(h.blocks, h.segs, h.words, b);
  }

  /** A small block freed into the cache. */
  lemma CacheFreeOK(h: HeapState, b: int)
    requires Inv(h) && b in h.live && b + HEADER != h.books.reserve && Small(h.live[b].size)
    requires h.books.cached + h.live[b].size < CACHE_SIZE + MAX_SMALL
    ensures MIN_BLOCK <= h.live[b].size && BucketIndex(h.live[b].size) < |h.cache|
    ensures var n := h.live[b].size; var i := BucketIndex(n);
      Inv(h.(live := h.live - {b}, cache := h.cache[i := [b] + h.cache[i]], books := h.books.(cached := h.books.cached + n)))
  {
    var n := h.live[b].size;
    LiveBlock(h, b);
    UnclaimedOK(h, b);
    var g := h.(live := h.live - {b});
    PushedOK(g, b);
    ClaimSplit(h.live, b);
    CachePush(h.cache, BucketIndex(n), b);
    var r := Pushed(g, b);
    Rebooked(r, r.(books := h.books.(cached := h.books.cached + n)), 0);
    hide Shaped;
  }

  lemma UnclaimBooks(h: HeapState, b: int)
    requires Inv(h) && b in h.live && b + HEADER != h.books.reserve
    ensures h.live[b].size <= h.books.size && b in h.blocks
    ensures var g := h.(live := h.live - {b}, books := h.books.(size := h.books.size - h.live[b].size));
      Shaped(g, b) && BooksOK(g)
  {
    UnclaimedOK(h, b);
    ClaimSplit(h.live, b);
    var g := h.(live := h.live - {b});
    Rebooked(g, g.(books := h.books.(size := h.books.size - h.live[b].size)), b);
    hide Shaped;
  }

  // ----- a live block stretched

  /** Where block `b` ends when its free successor is joined to it. */
  ghost function Reach(h: HeapState, b: int): int {
    var e := b + if b in h.words.size then h.words.size[b].size else 0;
    if e in h.words.size && h.words.size[e].kind == Free then e + h.words.size[e].size else e
  }

  /** Block `b` taken from its owner and over its free successor; its words are still to be written. */
  ghost function Stretched(h: HeapState, b: int): HeapState
    requires b in h.live && b in h.blocks && h.live[b].size <= h.books.size && b < Reach(h, b)
  {
    h.(live := h.live - {b}, books := h.books.(size := h.books.size - h.live[b].size),
       blocks := Merge(h.blocks, b, Reach(h, b), true, h.blocks[b].seg), free := Filter(h.free, b, Reach(h, b)))
  }

  lemma StretchedOK(h: HeapState, b: int)
    requires Inv(h) && b in h.live && b + HEADER != h.books.reserve
    ensures b in h.blocks && b in h.words.size && h.words.size[b].size == h.live[b].size <= h.books.size
    ensures var n, next := h.live[b].size, b + h.live[b].size;
      && next in h.words.size && b < Reach(h, b)
      && Reach(h, b) == next + (if h.words.size[next].kind == Free then h.words.size[next].size else 0)
      && (h.words.size[next].kind == Free ==> next in h.free && h.free[next] == h.words.size[next].size)
      && Filter(h.free, b, Reach(h, b)) == h.free - (if h.words.size[next].kind == Free then {next} else {})
    ensures Ready(Stretched(h, b), b) && BooksOK(Stretched(h, b))
    ensures b in Stretched(h, b).blocks && Stretched(h, b).blocks[b].size == Reach(h, b) - b
  {
    hide Shaped, BooksOK, Ready, Filter, RunStart, RunEnd;
    LiveBlock(h, b);
    UnclaimBooks(h, b);
    var g := h.(live := h.live - {b}, books := h.books.(size := h.books.size - h.live[b].size));
    Neighbours(g, b, b);
    ReachIsRunEnd(g, b);
    StretchReady(g, b);
  }

  lemma ReachIsRunEnd(g: HeapState, b: int)
    requires Shaped(g, b) && b in g.blocks && b + g.blocks[b].size in g.words.size && b in g.words.prev
    ensures Reach(g, b) == RunEnd(g, b) > b
    ensures var next := b + g.blocks[b].size;
      && (g.words.size[next].kind == Free ==> next in g.free && g.free[next] == g.words.size[next].size)
      && Filter(g.free, b, Reach(g, b)) == g.free - (if g.words.size[next].kind == Free then {next} else {})
  {
    hide Filter;
    var m, e := b + g.blocks[b].size, RunEnd(g, b);
    Neighbours(g, b, b);
    PositiveBlock(g, b, b);
    assert UseOK(g, b, b);
    if m in g.blocks { PositiveBlock(g, b, m); assert UseOK(g, b, m); }
    RunContents(g, b, b, e);
    FilterIs(g.free, b, b, m, e, g.blocks);
  }

  lemma StretchReady(g: HeapState, b: int)
    requires Shaped(g, b) && BooksOK(g) && b in g.blocks && b + g.blocks[b].size in g.words.size &&
      b in g.words.prev && RunEnd(g, b) > b
    ensures var e := RunEnd(g, b);
      var r := g.(blocks := Merge(g.blocks, b, e, true, g.blocks[b].seg), free := Filter(g.free, b, e));
      Ready(r, b) && BooksOK(r)
  {
    hide Shaped, Gatherable, BooksOK;
    var s, e := g.blocks[b].seg, RunEnd(g, b);
    RunAround(g, b, b);
    GatherOK(g, b, s, b, e, true);
    StretchBooks(g, Gathered(g, s, b, e, true));
  }

  // ----- a live block relabelled or exchanged

  lemma RelabelledOK(h: HeapState, b: int, req: nat)
    requires Inv(h) && b in h.live && req + HEADER <= h.live[b].size
    ensures Inv(h.(live := (h.live - {b})[b := Claim(req, h.live[b].size)]))
  {
    UnclaimedOK(h, b);
    ClaimedOK(h.(live := h.live - {b}), b, req);
    ClaimReplace(h.live, b, b, Claim(req, h.live[b].size));
    hide Shaped;
  }

  /** The bytes in memory, zero where nothing was ever written. */
  type Memory = map<int, int>

  function Byte(data: Memory, x: int): int { if x in data then data[x] else 0 }

  function Shifted(data: Memory, to: int, from: int, x: int): int { Byte(data, x - to + from) }

  /** `memcpy`, as a change of the bytes in memory. */
  function CopyBytes(data: Memory, to: int, from: int, n: int): Memory {
    data + map x | to <= x < to + n :: Shifted(data, to, from, x)
  }

  ghost function Swapped(h: HeapState, b: int, i: nat, req: nat): HeapState
    requires b in h.live && i < |h.cache| && h.cache[i] != [] && MIN_BLOCK <= h.live[b].size <= 8 * i + 32
    requires BucketIndex(h.live[b].size) < |h.cache| && 8 * i + 32 <= h.books.cached + h.live[b].size
  {
    var n, c := h.live[b].size, h.cache[i][0];
    var j, cache := BucketIndex(n), h.cache[i := h.cache[i][1..]];
    h.(live := (h.live - {b})[c := Claim(req, 8 * i + 32)], cache := cache[j := [b] + cache[j]],
       books := h.books.(cached := h.books.cached - (8 * i + 32 - n)))
  }

  lemma SwappedOK(h: HeapState, b: int, i: nat, req: nat)
    requires Inv(h) && b in h.live && b + HEADER != h.books.reserve && i < |h.cache| && h.cache[i] != []
    requires req + HEADER <= 8 * i + 32 && h.live[b].size < 8 * i + 32
    ensures b in h.words.size && h.words.size[b].size == h.live[b].size
    ensures MIN_BLOCK <= h.live[b].size && BucketIndex(h.live[b].size) < |h.cache| &&
      8 * i + 32 <= h.books.cached + h.live[b].size
    ensures h.cache[i][0] !in h.live && Inv(Swapped(h, b, i, req))
  {
    LiveBlock(h, b);
    CacheShape(h);
    CacheHitOK(h, i, req);
    CachedBound(h);
    hide Inv;
    var n, c, w := h.live[b].size, h.cache[i][0], 8 * i + 32;
    var g := h.(cache := h.cache[i := h.cache[i][1..]], books := h.books.(cached := h.books.cached - w),
                live := h.live[c := Claim(req, w)]);
    CacheFreeOK(g, b);
    assert h.live[c := Claim(req, w)] - {b} == (h.live - {b})[c := Claim(req, w)];
  }

  lemma CachedBound(h: HeapState)
    requires Inv(h)
    ensures h.books.cached < CACHE_SIZE + MAX_SMALL
  {}

  lemma BooksEquation(h: HeapState)
    requires Inv(h)
    ensures h.books.size == ClaimTotal(h.live) + h.books.cached + h.flushed && h.books.realSize == SegmentTotal(h.segs)
  {}

  lemma ClaimBound(h: HeapState, b: int)
    requires Inv(h) && b in h.live
    ensures h.live[b].size <= h.books.size
  {
    ClaimSplit(h.live, b);
    hide Shaped;
  }

  lemma PeaksHold(h: HeapState)
    requires Inv(h)
    ensures h.books.size <= h.books.peak && h.books.realSize <= h.books.realPeak
  {}

  /** `others` are claims of `live` on other blocks than `c`. */
  ghost predicate Among(others: map<int, Claim>, live: map<int, Claim>, c: int) {
    forall d {:trigger others[d]} :: d in others ==> d != c && d in live && live[d] == others[d]
  }

  /** Bytes copied into live block `c` disturb no other live block. */
  lemma CopiedBlock(h: HeapState, c: int, b: int, n: nat, data: Memory, others: map<int, Claim>)
    requires Inv(h) && c in h.live && HEADER <= n <= h.live[c].size
    requires Among(others, h.live, c)
    ensures var data' := CopyBytes(data, c + HEADER, b + HEADER, n - HEADER);
      SameBytes(data, b + HEADER, data', c + HEADER, n - HEADER) && Kept(others, data, data')
  {
    hide CopyBytes, SameBytes, Kept;
    LiveApart(h, c);
    CopiedInside(data, c + HEADER, b + HEADER, n - HEADER, 0, n - HEADER);
    CopiedOutside(others, data, c + HEADER, b + HEADER, n - HEADER);
  }

  /** Live blocks do not overlap. */
  lemma LiveApart(h: HeapState, c: int)
    requires Inv(h) && c in h.live
    ensures forall d {:trigger h.live[d]} :: d in h.live && d != c ==>
      d >= c + h.live[c].size || d + h.live[d].size <= c
  {
    UnclaimedOK(h, c);
    forall d | d in h.live && d != c ensures d >= c + h.live[c].size || d + h.live[d].size <= c {
      UnclaimedOK(h, d);
      if c < d { InOrder(h.blocks, c, d); } else { InOrder(h.blocks, d, c); }
    }
  }

  lemma AllottedFacts(v: View, k: Books, v': View, k': Books, r: Outcome, req: nat, trueSize: nat, b: int)
    requires Allotted(v, k, v', k', r, req, trueSize) && b in v.live && v.live[b].size <= trueSize
    ensures !r.Done? ==> r != Corrupted && Denied(v, k, v', k', trueSize >= req)
    ensures r.Done? ==> k'.reserve == k.reserve && b in v'.live
    ensures r.Done? ==> var c := r.ptr - HEADER; c in v'.live && v.live[b].size <= v'.live[c].size
    ensures r.Done? ==> Among(v.live - {b}, v'.live, r.ptr - HEADER)
  {}

  lemma MovedByCopy(v: View, k: Books, data: Memory, v1: View, k1: Books, v2: View, k2: Books, data': Memory, b: int,
      r: Outcome, req: nat, trueSize: nat)
    requires Allotted(v, k, v1, k1, r, req, trueSize) && r.Done? && b in v.live && v.live[b].size <= trueSize
    requires v2.live == v1.live - {b} && v2.flushed == v1.flushed
    requires k2 == k1.(size := k2.size, cached := k2.cached, realSize := k2.realSize) && k2.realSize <= k1.realSize
    requires SameBytes(data, b + HEADER, data', r.ptr, v.live[b].size - HEADER) && Kept(v.live - {b}, data, data')
    ensures Moved(v, k, data, v2, k2, data', b, r.ptr - HEADER, req, trueSize)
  {
    hide SameBytes, Kept;
    var c := r.ptr - HEADER;
    assert v.live[c := Claim(req, v1.live[c].size)] - {b} == (v.live - {b})[c := Claim(req, v1.live[c].size)];
  }

  lemma AmongOthers(live: map<int, Claim>, b: int, c: int, k: Claim)
    requires c !in live
    ensures Among(live - {b}, (live - {b})[c := k], c)
  {}

  lemma MovedInPlace(v: View, k: Books, data: Memory, v': View, k': Books, b: int, req: nat, trueSize: nat)
    requires b in v.live && b in v'.live && trueSize <= v'.live[b].size < trueSize + MIN_BLOCK
    requires v'.live == (v.live - {b})[b := Claim(req, v'.live[b].size)] && v'.flushed == v.flushed
    requires k' == k.(size := k'.size, peak := k'.peak)
    ensures Moved(v, k, data, v', k', data, b, b, req, trueSize)
  {}

  /** What the mark and the guard word around a live block tell. */
  lemma AloneIff(h: HeapState, b: int)
    requires Inv(h) && b in h.live
    ensures var next := b + h.live[b].size;
      && b in h.words.size && h.words.size[b].size == h.live[b].size && b in h.words.prev
      && next in h.words.size && Reach(h, b) in h.words.size
      && Reach(h, b) == next + (if h.words.size[next].kind == Free then h.words.size[next].size else 0)
      && (h.words.size[next].kind == Free <==> Reach(h, b) > next)
      && (Alone(h, b) <==> h.words.prev[b] == FIRST_MARK && h.words.size[Reach(h, b)].kind == Guard)
  {
    hide Shaped, BooksOK, RunEnd;
    LiveBlock(h, b);
    UnclaimedOK(h, b);
    var g := h.(live := h.live - {b});
    Neighbours(g, b, b);
    ReachIsRunEnd(g, b);
    RunAround(g, b, b);
    var next := b + h.live[b].size;
    if next in h.blocks { PositiveBlock(g, b, next); }
  }

  // ----- a segment resized

  /** The block with its free successor is all there is in its segment. */
  ghost predicate Alone(h: HeapState, b: int) {
    && b in h.blocks && b == First(h.blocks[b].seg) && Reach(h, b) == End(h.blocks[b].seg)
  }

  /** Bytes of live blocks other than the one moved stay as they are. */
  ghost predicate Kept(live: map<int, Claim>, data: Memory, data': Memory) {
    forall c, x {:trigger live[c], Byte(data', x)} :: c in live && c + HEADER <= x < c + live[c].size ==>
      Byte(data', x) == Byte(data, x)
  }

  ghost predicate SameBytes(data: Memory, p: int, data': Memory, q: int, n: int) {
    forall x {:trigger Byte(data', x)} :: q <= x < q + n ==> Byte(data', x) == Byte(data, x - q + p)
  }

  /** What a reallocation of live block `b` does: block `c` takes its place, with its bytes, and nothing
      else changes hands. */
  ghost predicate Moved(v: View, k: Books, data: Memory, v': View, k': Books, data': Memory, b: int, c: int, req: nat,
      trueSize: nat) {
    && b in v.live && (c == b || c !in v.live)
    && c in v'.live && trueSize <= v'.live[c].size < trueSize + MIN_BLOCK
    && v'.live == (v.live - {b})[c := Claim(req, v'.live[c].size)] && v'.flushed == v.flushed
    && k' == k.(size := k'.size, peak := k'.peak, cached := k'.cached, realSize := k'.realSize, realPeak := k'.realPeak)
    && (k'.realSize <= k.realSize || k'.realSize <= k.limit)
    && SameBytes(data, b + HEADER, data', c + HEADER, Smaller(v.live[b].size, v'.live[c].size) - HEADER)
    && Kept(v.live - {b}, data, data')
  }

  function Smaller(m: int, n: int): int { if m < n then m else n }

  ghost function Uprooted(h: HeapState, b: int, k: nat): HeapState
    requires b in h.live && k < |h.segs| && h.live[b].size <= h.books.size && h.segs[k].size <= h.books.realSize
  {
    Vacated(h.(live := h.live - {b}), k).(books := h.books.(size := h.books.size - h.live[b].size, realSize := h.books.realSize - h.segs[k].size))
  }

  lemma AloneFacts(h: HeapState, b: int)
    requires Inv(h) && b in h.live && Alone(h, b)
    ensures Shaped(h.(live := h.live - {b}), b) && SegmentsApart(h.segs)
    ensures forall s :: s in h.segs ==> s.size < WORD && s.addr + s.size <= WORD
    ensures b in h.blocks && b == First(h.blocks[b].seg) && Reach(h, b) == End(h.blocks[b].seg)
  {
    UnclaimedOK(h, b);
    forall s | s in h.segs ensures s.size < WORD && s.addr + s.size <= WORD { assert SegmentOK(h.blocks, h.words, s); }
  }

  lemma FreeBlock(h: HeapState, m: int)
    requires Inv(h) && m in h.free
    ensures m > 0 && FS.BlockSize(h.free[m])
  {
    UnindexedOK(h, m);
    PositiveBlock(h, 0, m);
  }

  lemma LostBlock(h: HeapState, m: int)
    requires Inv(h) && m in h.free
    ensures !Inv(h.(free := h.free - {m})) && h.free[m] > 0
  {
    var g := h.(free := h.free - {m});
    UnindexedOK(h, m);
    PositiveBlock(h, 0, m);
    assert !UseOK(g, 0, m);
  }

  lemma UprootedOK(h: HeapState, b: int, k: nat)
    requires Inv(h) && b in h.live && b + HEADER != h.books.reserve && k < |h.segs| && Alone(h, b) &&
      h.segs[k] == h.blocks[b].seg
    ensures h.live[b].size <= h.books.size && h.segs[k].size <= h.books.realSize && Inv(Uprooted(h, b, k))
    ensures b in h.words.size && h.words.size[b].size == h.live[b].size
  {
    hide Shaped, BooksOK, RunStart, RunEnd;
    LiveBlock(h, b);
    UnclaimBooks(h, b);
    var g := h.(live := h.live - {b}, books := h.books.(size := h.books.size - h.live[b].size));
    Neighbours(g, b, b);
    ReachIsRunEnd(g, b);
    RunStartAtFirst(g, b);
    WholeRun(g, b, k);
    VacatedBooks(g, k);
  }

  lemma RunStartAtFirst(g: HeapState, b: int)
    requires b in g.words.prev && g.words.prev[b] == FIRST_MARK
    ensures RunStart(g, b) == b
  {}

  /** Copying the segment moves the bytes of its block and of no other. */
  lemma RelocatedBytes(h: HeapState, b: int, k: nat, s: Segment, data: Memory)
    requires Inv(h) && b in h.live && k < |h.segs| && Alone(h, b) && h.segs[k] == h.blocks[b].seg
    requires h.live[b].size <= h.books.size && h.segs[k].size <= h.books.realSize && Inv(Uprooted(h, b, k))
    requires FreshSegment(Omit(h.segs, k), s) && h.segs[k].size <= s.size
    ensures var data' := CopyBytes(data, s.addr, h.segs[k].addr, h.segs[k].size);
      && SameBytes(data, b + HEADER, data', First(s) + HEADER, h.live[b].size - HEADER)
      && Kept(h.live - {b}, data, data')
  {
    hide CopyBytes, SameBytes, Kept, Inv, FreshSegment;
    var t, u := h.segs[k], Uprooted(h, b, k);
    BlockInSegment(h, b);
    BlocksApart(u, s);
    CopiedInside(data, s.addr, t.addr, t.size, SEGMENT_HEADER + HEADER, h.live[b].size - HEADER);
    CopiedOutside(u.live, data, s.addr, t.addr, t.size);
  }

  lemma BlockInSegment(h: HeapState, b: int)
    requires Inv(h) && b in h.live
    ensures b in h.blocks && First(h.blocks[b].seg) <= b && b + h.live[b].size <= End(h.blocks[b].seg)
  {
    UnclaimedOK(h, b);
    assert BlockOK(h.blocks, h.segs, h.words, b);
  }

  /** Live blocks stay clear of a range no segment meets. */
  lemma BlocksApart(u: HeapState, s: Segment)
    requires Inv(u) && FreshSegment(u.segs, s)
    ensures forall c {:trigger u.live[c]} :: c in u.live ==> c >= s.addr + s.size || c + u.live[c].size <= s.addr
  {
    forall c | c in u.live ensures c >= s.addr + s.size || c + u.live[c].size <= s.addr {
      UnclaimedOK(u, c);
      BlockApart(u.blocks, u.segs, u.words, s, c);
    }
  }

  lemma CopiedAt(data: Memory, to: int, from: int, n: int, x: int)
    ensures Byte(CopyBytes(data, to, from, n), x) == if to <= x < to + n then Byte(data,
      x - to + from) else Byte(data, x)
  {}

  lemma CopiedInside(data: Memory, to: int, from: int, n: int, skip: nat, m: int)
    requires skip + m <= n
    ensures SameBytes(data, from + skip, CopyBytes(data, to, from, n), to + skip, m)
  {
    hide CopyBytes;
    var data', p, q := CopyBytes(data, to, from, n), from + skip, to + skip;
    forall x {:trigger Byte(data', x)} | q <= x < q + m ensures Byte(data', x) == Byte(data, x - q + p) {
      CopiedAt(data, to, from, n, x);
      assert x - q + p == x - to + from;
    }
  }

  lemma CopiedOutside(live: map<int, Claim>, data: Memory, to: int, from: int, n: int)
    requires forall c {:trigger live[c]} :: c in live ==> c + HEADER >= to + n || c + live[c].size <= to
    ensures Kept(live, data, CopyBytes(data, to, from, n))
  {}

  lemma MovedWhen(v: View, k: Books, data: Memory, v': View, k': Books, data': Memory, b: int, c: int, req: nat,
      trueSize: nat)
    requires b in v.live && (c == b || c !in v.live)
    requires c in v'.live && v.live[b].size <= trueSize <= v'.live[c].size < trueSize + MIN_BLOCK
    requires v'.live == (v.live - {b})[c := Claim(req, v'.live[c].size)] && v'.flushed == v.flushed
    requires k' == k.(size := k'.size, peak := k'.peak, cached := k'.cached, realSize := k'.realSize, realPeak := k'.realPeak)
    requires k'.realSize <= k.realSize || k'.realSize <= k.limit
    requires SameBytes(data, b + HEADER, data', c + HEADER, v.live[b].size - HEADER) && Kept(v.live - {b}, data, data')
    ensures Moved(v, k, data, v', k', data', b, c, req, trueSize)
  {}

  lemma StretchBooks(g: HeapState, r: HeapState)
    requires BooksOK(g) && r == g.(blocks := r.blocks, words := r.words, free := r.free)
    ensures BooksOK(r) && BooksOK(r.(words := g.words))
  {}

  lemma CacheShape(h: HeapState)
    requires Inv(h)
    ensures |h.cache| == NUM_BUCKETS
  {}

  lemma AllFlushed(h: HeapState)
    requires Inv(h) && |h.cache| == NUM_BUCKETS && forall j :: 0 <= j < NUM_BUCKETS ==> h.cache[j] == []
    ensures h.books.cached == 0
  {
    EmptyCache(h.cache);
  }

  ghost function FlushedOne(h: HeapState, i: nat): HeapState
    requires i < |h.cache| && h.cache[i] != [] && 8 * i + 32 <= h.books.cached
  {
    Popped(h, i).(books := h.books.(cached := h.books.cached - (8 * i + 32)), flushed := h.flushed + 8 * i + 32)
  }

  lemma FlushOneOK(h: HeapState, i: nat)
    requires Inv(h) && i < |h.cache| && h.cache[i] != []
    ensures var b := h.cache[i][0];
      && b in h.blocks && b in h.words.size && h.words.size[b].size == 8 * i + 32 <= h.books.cached
      && Shaped(FlushedOne(h, i), b) && BooksOK(FlushedOne(h, i))
  {
    var b := h.cache[i][0];
    PoppedOK(h, i);
    CachePop(h.cache, i);
    Neighbours(h, 0, b);
    FlushedShape(Popped(h, i), FlushedOne(h, i), b);
    hide Shaped;
  }

  lemma FlushedShape(g: HeapState, h: HeapState, loose: int)
    requires Shaped(g, loose) && h == g.(books := h.books, flushed := h.flushed)
    ensures Shaped(h, loose)
  {
    hide Laid;
    forall b | b in h.blocks ensures UseOK(h, loose, b) { assert UseOK(g, loose, b); }
  }

  lemma UnlinkFacts(h: HeapState, b: int)
    requires Shaped(h, b) && b in h.blocks && b + h.blocks[b].size in h.words.size && b in h.words.prev
    ensures b in h.words.size && h.words.size[b].size == h.blocks[b].size
    ensures var n := h.blocks[b].size; var next, before := b + n, b - h.words.prev[b].size;
      var joinNext, joinPrev := h.words.size[next].kind == Free, h.words.prev[b].kind == Free;
      var x, y := if joinPrev then {before} else {}, if joinNext then {next} else {};
      && (joinNext ==> next in h.free) && (joinPrev ==> before in h.free && before in h.words.size)
      && before != next
      && RunStart(h, b) == (if joinPrev then before else b)
      && RunEnd(h, b) == RunStart(h, b) + n + (if joinNext then h.words.size[next].size else 0) + (if joinPrev then h.words.size[before].size else 0)
      && Filter(h.free, RunStart(h, b), RunEnd(h, b)) == h.free - x - y
      && Filter(h.free, RunStart(h, b), RunEnd(h, b)) == h.free - y - x
  {
    Neighbours(h, b, b);
    RunFree(h, b);
    PositiveBlock(h, b, b);
    hide Shaped, Filter;
    var n := h.blocks[b].size;
    var next, before := b + n, b - h.words.prev[b].size;
    var x, y := if h.words.prev[b].kind == Free then {before} else {}, if h.words.size[next].kind == Free then {next} else {};
    assert h.free - x - y == h.free - y - x;
  }

  /** The segment of block `b` leaves the list if its free neighbours fill it up, and otherwise the run around
      `b` is one indexed free block. */
  ghost predicate GaveBack(h: HeapState, b: int, h': HeapState) {
    && b in h.blocks && b + h.blocks[b].size in h.words.size && b in h.words.prev
    && var s := h.blocks[b].seg;
      if RunStart(h, b) == First(s) && RunEnd(h, b) == End(s) then SegmentGone(h, s, h')
      else RunStart(h, b) < RunEnd(h, b) && h' == Released(h, b)
  }

  ghost predicate SegmentGone(h: HeapState, s: Segment, h': HeapState) {
    && h'.books.realSize + s.size == h.books.realSize && h'.books == h.books.(realSize := h'.books.realSize)
    && exists k: nat :: k < |h.segs| && h.segs[k] == s && h' == Vacated(h, k).(books := h'.books)
  }

  /** What the list is when the segment of block `b` has been resized. */
  ghost predicate ResizedInPlace(was: seq<Segment>, segs: seq<Segment>, b: int, s: Segment) {
    exists k :: 0 <= k < |was| && First(was[k]) == b && segs == was[k := s]
  }

  lemma ReplacedInPlace(segs: seq<Segment>, k: nat, s: Segment)
    requires k < |segs|
    ensures Insert(Omit(segs, k), k, s) == segs[k := s]
  {}

  /** The segments a soft shutdown keeps: the last of the list if a reserve is wanted. */
  function Survivors(segs: seq<Segment>, reserveSize: nat): seq<Segment> {
    if segs == [] || reserveSize == 0 then [] else [segs[|segs| - 1]]
  }

  lemma SegmentListed(h: HeapState, b: int)
    requires Shaped(h, b) && b in h.blocks
    ensures h.blocks[b].seg in h.segs
    ensures exists j :: 0 <= j < |h.segs| && h.segs[j].addr == h.blocks[b].seg.addr
  {
    assert BlockOK(h.blocks, h.segs, h.words, b);
    var j :| 0 <= j < |h.segs| && h.segs[j] == h.blocks[b].seg;
  }

  /** Segments are told apart by their addresses. */
  lemma SegmentByAddress(h: HeapState, b: int, t: Segment)
    requires Shaped(h, b) && b in h.blocks && t in h.segs && t.addr == h.blocks[b].seg.addr
    ensures t == h.blocks[b].seg
  {
    var s := h.blocks[b].seg;
    assert BlockOK(h.blocks, h.segs, h.words, b);
    assert SegmentOK(h.blocks, h.words, s) && SegmentOK(h.blocks, h.words, t);
    if t != s { TwoSegments(h.segs, s, t); }
  }

  lemma VacatedBooks(h: HeapState, k: nat)
    requires BooksOK(h) && k < |h.segs| && Shaped(Vacated(h, k), 0)
    ensures h.segs[k].size <= h.books.realSize
    ensures Inv(Vacated(h, k).(books := h.books.(realSize := h.books.realSize - h.segs[k].size)))
  {
    OmitTotal(h.segs, k);
    var v := Vacated(h, k);
    Rebooked(v, v.(books := h.books.(realSize := h.books.realSize - h.segs[k].size)), 0);
    hide Shaped;
  }

  lemma ReleasedBooks(h: HeapState, b: int)
    requires BooksOK(h) && b in h.blocks && b + h.blocks[b].size in h.words.size && b in h.words.prev
    requires RunStart(h, b) < RunEnd(h, b) && Shaped(Released(h, b), 0)
    ensures Inv(Released(h, b))
  {
    hide Shaped;
  }

  /** A free block out of the index and marked used in the view. */
  ghost function TakenOut(h: HeapState, b: int): HeapState
    requires b in h.blocks
  {
    h.(free := h.free - {b}, blocks := h.blocks[b := h.blocks[b].(used := true)])
  }

  lemma TakenReady(h: HeapState, b: int)
    requires Inv(h) && b in h.free
    ensures b in h.blocks && b in h.words.size && h.words.size[b].size == h.free[b] == h.blocks[b].size
    ensures Ready(TakenOut(h, b), b) && BooksOK(TakenOut(h, b)) && TakenOut(h, b).blocks[b].size == h.free[b]
  {
    UnindexedOK(h, b);
    var g := h.(free := h.free - {b});
    Neighbours(g, b, b);
    assert NextUsed(g.blocks, b);
    PositiveBlock(g, b, b);
    UsedOK(g, b);
    var k := g.blocks[b];
    var t := TakenOut(h, b);
    assert t.(words := SetBlock(t.words, b, Used, k.size)) ==
      g.(blocks := g.blocks[b := k.(used := true)], words := SetBlock(g.words, b, Used, k.size));
  }
}
