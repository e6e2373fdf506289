/** A heap as a value: header words, segments, cache lists, running totals, and what they mean - the
    blocks, which of them are allocated to whom, and which the free index holds. At most one block is
    `loose`: between two lists while an operation is under way. */
module HeapState {
  import opened Bits
  import opened Sizes
  import opened Rings
  import opened HeapLayout
  import opened Sums

  /** The totals and settings of the heap structure. */
  datatype Books = Books(
    size: nat, peak: nat, realSize: nat, realPeak: nat, cached: nat,
    limit: nat, unit: nat, reserve: int, reserveSize: nat, overflow: nat)

  /** `free` is what the free index holds; `flushed` counts the bytes that went through a cache flush. */
  datatype HeapState = HeapState(
    words: Words, segs: seq<Segment>, cache: seq<seq<int>>, books: Books,
    blocks: Blocks, live: map<int, Claim>, flushed: nat, free: map<int, nat>)

  predicate InCache(h: HeapState, b: int) {
    && b in h.blocks && MIN_BLOCK <= h.blocks[b].size && Small(h.blocks[b].size)
    && BucketIndex(h.blocks[b].size) < |h.cache| && b in h.cache[BucketIndex(h.blocks[b].size)]
  }

  /** Each block is free and indexed, or used and either allocated or cached. */
  ghost predicate UseOK(h: HeapState, loose: int, b: int)
    requires b in h.blocks
  {
    var k := h.blocks[b];
    if b == loose then b !in h.live && !InCache(h, b) && b !in h.free
    else if k.used then
      && b !in h.free
      && (b in h.live <==> !InCache(h, b))
      && (b in h.live ==> h.live[b].size == k.size && h.live[b].req + HEADER <= k.size)
    else
      b !in h.live && !InCache(h, b) && b in h.free && h.free[b] == k.size
  }

  /** No two free blocks are neighbours. */
  ghost predicate NextUsed(blocks: Blocks, b: int)
    requires b in blocks
  {
    var e := b + blocks[b].size;
    !blocks[b].used && e in blocks ==> blocks[e].used
  }

  ghost predicate CacheOK(h: HeapState) {
    && |h.cache| == NUM_BUCKETS
    && (forall i :: 0 <= i < |h.cache| ==> NoDup(h.cache[i]))
    && (forall i, b {:trigger b in h.cache[i]} :: 0 <= i < |h.cache| && b in h.cache[i] ==>
          b in h.blocks && h.blocks[b].used && h.blocks[b].size == 8 * i + 32)
  }

  ghost predicate Shaped(h: HeapState, loose: int) {
    && Laid(h.blocks, h.segs, h.words)
    && (forall b {:trigger UseOK(h, loose, b)} :: b in h.blocks ==> UseOK(h, loose, b))
    && (forall b {:trigger NextUsed(h.blocks, b)} :: b in h.blocks ==> NextUsed(h.blocks, b))
    && (forall b :: b in h.live ==> b in h.blocks)
    && (forall b :: b in h.free ==> b in h.blocks)
    && CacheOK(h)
    && (loose == 0 || loose in h.blocks)
  }

  ghost predicate BooksOK(h: HeapState) {
    var k := h.books;
    && k.cached == CacheTotal(h.cache) < CACHE_SIZE + MAX_SMALL
    && k.size == ClaimTotal(h.live) + k.cached + h.flushed
    && k.size <= k.peak
    && k.realSize == SegmentTotal(h.segs) <= k.realPeak
    && k.realSize < WORD && k.limit < WORD
    && SegmentUnit(k.unit)
    && (k.reserve == 0 || k.reserve - HEADER in h.live)
  }

  ghost predicate Inv(h: HeapState) {
    Shaped(h, 0) && BooksOK(h)
  }

  // ----- a run gathered around the loose block

  /** Every block of the run is the loose one or free. */
  ghost predicate Gatherable(h: HeapState, loose: int, s: Segment, a: int, e: int) {
    && Run(h.blocks, s, a, e) && a <= loose < e
    && forall c {:trigger h.blocks[c]} :: c in h.blocks && a <= c < e ==> c == loose || !h.blocks[c].used
  }

  ghost function Gathered(h: HeapState, s: Segment, a: int, e: int, used: bool): HeapState
    requires a < e
  {
    h.(blocks := Merge(h.blocks, a, e, used, s), words := SetBlock(h.words, a, KindOf(used), e - a),
       free := map c | c in h.free && !(a <= c < e) :: h.free[c])
  }

  /** Neighbours of a run that becomes one free block are used. */
  ghost predicate Enclosed(h: HeapState, s: Segment, a: int, e: int) {
    && (e in h.blocks ==> h.blocks[e].used)
    && (forall c {:trigger h.blocks[c]} :: c in h.blocks && c + h.blocks[c].size == a ==> h.blocks[c].used)
  }

  lemma GatherOK(h: HeapState, loose: int, s: Segment, a: int, e: int, used: bool)
    requires Shaped(h, loose) && loose in h.blocks && Gatherable(h, loose, s, a, e) && (!used ==> Enclosed(h, s, a, e))
    ensures Shaped(Gathered(h, s, a, e, used), a)
  {
    var h' := Gathered(h, s, a, e, used);
    MergeOK(h.blocks, h.segs, h.words, s, a, e, used);
    hide Laid;
    GatherDomains(h, loose, s, a, e, used);
    forall c | c in h'.blocks ensures UseOK(h', a, c) {
      if c != a { assert UseOK(h, loose, c); }
    }
    GatherNext(h, loose, s, a, e, used);
  }

  lemma GatherDomains(h: HeapState, loose: int, s: Segment, a: int, e: int, used: bool)
    requires Shaped(h, loose) && loose in h.blocks && Gatherable(h, loose, s, a, e)
    ensures var h' := Gathered(h, s, a, e, used);
      && CacheOK(h') && a !in h'.live && !InCache(h', a) && a !in h'.free
      && (forall b :: b in h'.live ==> b in h'.blocks && b != a)
      && (forall b :: b in h'.free ==> b in h'.blocks)
  {
    hide Laid;
    var h' := Gathered(h, s, a, e, used);
    forall c | c in h.blocks && a <= c < e ensures c !in h.live && !InCache(h, c) {
      assert UseOK(h, loose, c);
    }
    forall i, b | 0 <= i < |h.cache| && b in h.cache[i] ensures b in h'.blocks && h'.blocks[b] == h.blocks[b] {
      assert InCache(h, b);
    }
  }

  lemma GatherNext(h: HeapState, loose: int, s: Segment, a: int, e: int, used: bool)
    requires Shaped(h, loose) && Gatherable(h, loose, s, a, e) && (!used ==> Enclosed(h, s, a, e))
    ensures var blocks' := Gathered(h, s, a, e, used).blocks;
      forall b {:trigger NextUsed(blocks', b)} :: b in blocks' ==> NextUsed(blocks', b)
  {
    var blocks' := Gathered(h, s, a, e, used).blocks;
    forall b | b in blocks' ensures NextUsed(blocks', b) {
      if b != a { assert NextUsed(h.blocks, b); }
    }
  }

  // ----- the loose block cut in two

  /** The loose block keeps `t` bytes; the rest becomes a free block. */
  ghost function CutOff(h: HeapState, b: int, t: nat): HeapState
    requires b in h.blocks && t <= h.blocks[b].size
  {
    var n := h.blocks[b].size;
    h.(blocks := Split(h.blocks, b, t, true, false), words := SplitWords(h.words, b, n, t, true, false),
       free := h.free[b + t := n - t])
  }

  lemma CutOffOK(h: HeapState, b: int, t: nat)
    requires Shaped(h, b) && b in h.blocks
    requires MIN_BLOCK <= t && t + MIN_BLOCK <= h.blocks[b].size && t % ALIGNMENT == 0
    requires b + h.blocks[b].size in h.blocks ==> h.blocks[b + h.blocks[b].size].used
    ensures b + t !in h.blocks && b + t !in h.free
    ensures Shaped(CutOff(h, b, t), b)
  {
    var h' := CutOff(h, b, t);
    SplitOK(h.blocks, h.segs, h.words, b, t, true, false);
    SplitNew(h.blocks, h.segs, h.words, b, t, true, false);
    hide Laid, BlockOK, UseOK, NextUsed, CacheOK, InCache;
    CutOffDomains(h, b, t);
    forall c | c in h'.blocks ensures UseOK(h', b, c) { CutOffUse(h, b, t, c); }
    CutOffNext(h, b, t);
  }

  lemma CutOffUse(h: HeapState, b: int, t: nat, c: int)
    requires Shaped(h, b) && b in h.blocks && 0 < t < h.blocks[b].size && b + t !in h.blocks
    requires c in CutOff(h, b, t).blocks
    ensures UseOK(CutOff(h, b, t), b, c)
  {
    CutOffDomains(h, b, t);
    hide Laid, CacheOK;
    if c != b && c != b + t { assert UseOK(h, b, c); }
  }

  lemma CutOffDomains(h: HeapState, b: int, t: nat)
    requires Shaped(h, b) && b in h.blocks && 0 < t < h.blocks[b].size && b + t !in h.blocks
    ensures var h' := CutOff(h, b, t);
      && CacheOK(h') && b !in h'.live && !InCache(h', b) && b !in h'.free
      && b + t !in h'.live && !InCache(h', b + t)
      && (forall c :: c in h'.live ==> c in h'.blocks)
      && (forall c :: c in h'.free ==> c in h'.blocks)
  {
    hide Laid;
    var h' := CutOff(h, b, t);
    assert UseOK(h, b, b);
    forall i, c | 0 <= i < |h.cache| && c in h.cache[i] ensures c in h'.blocks && h'.blocks[c] == h.blocks[c] {
      assert InCache(h, c);
    }
  }

  lemma CutOffNext(h: HeapState, b: int, t: nat)
    requires Shaped(h, b) && b in h.blocks && 0 < t < h.blocks[b].size && b + t !in h.blocks
    requires b + h.blocks[b].size in h.blocks ==> h.blocks[b + h.blocks[b].size].used
    ensures var blocks' := CutOff(h, b, t).blocks;
      forall c {:trigger NextUsed(blocks', c)} :: c in blocks' ==> NextUsed(blocks', c)
  {
    var blocks' := CutOff(h, b, t).blocks;
    forall c | c in blocks' ensures NextUsed(blocks', c) {
      if c != b && c != b + t {
        assert NextUsed(h.blocks, c) && BlockOK(h.blocks, h.segs, h.words, c);
        if c < b { assert c + h.blocks[c].size <= b; } else { assert b + h.blocks[b].size <= c; }
      }
    }
  }

  // ----- segments come and go

  ghost function WithSegment(h: HeapState, k: nat, s: Segment): HeapState
    requires k <= |h.segs| && s.size >= SEGMENT_HEADER + HEADER
  {
    h.(segs := Insert(h.segs, k, s), blocks := h.blocks[First(s) := Whole(s, true)],
      words := SegmentWords(h.words, s, true))
  }

  lemma WithSegmentOK(h: HeapState, k: nat, s: Segment)
    requires Shaped(h, 0) && k <= |h.segs| && FreshSegment(h.segs, s)
    ensures First(s) !in h.blocks
    ensures Shaped(WithSegment(h, k, s), First(s))
  {
    var h', b := WithSegment(h, k, s), First(s);
    AddSegmentOK(h.blocks, h.segs, h.words, k, s, true);
    ZeroIsNoBlock(h, 0);
    hide Laid, FreshSegment;
    assert !InCache(h', b);
    forall c | c in h'.blocks ensures UseOK(h', b, c) && NextUsed(h'.blocks, c) {
      if c != b { assert UseOK(h, 0, c) && NextUsed(h.blocks, c); }
    }
  }

  ghost function WithoutSegment(h: HeapState, k: nat): HeapState
    requires k < |h.segs|
  {
    h.(segs := Omit(h.segs, k), blocks := h.blocks - {First(h.segs[k])})
  }

  lemma WithoutSegmentOK(h: HeapState, k: nat)
    requires k < |h.segs|
    requires var b := First(h.segs[k]); Shaped(h, b) && b in h.blocks && b + h.blocks[b].size == End(h.segs[k])
    ensures Shaped(WithoutSegment(h, k), 0)
  {
    var h', b := WithoutSegment(h, k), First(h.segs[k]);
    DropSegmentOK(h.blocks, h.segs, h.words, k);
    assert UseOK(h, b, b);
    WithoutSegmentDomains(h, k);
    hide Laid, CacheOK;
    forall c | c in h'.blocks ensures UseOK(h', 0, c) && NextUsed(h'.blocks, c) {
      assert UseOK(h, b, c) && NextUsed(h.blocks, c);
      ZeroIsNoBlock(h, b);
    }
  }

  lemma ZeroIsNoBlock(h: HeapState, loose: int)
    requires Shaped(h, loose)
    ensures 0 !in h.blocks
  {
    if 0 in h.blocks { PositiveBlock(h, loose, 0); }
  }

  lemma PositiveBlock(h: HeapState, loose: int, b: int)
    requires Shaped(h, loose) && b in h.blocks
    ensures b > HEADER && h.blocks[b].seg in h.segs && MIN_BLOCK <= h.blocks[b].size < WORD &&
      h.blocks[b].size % ALIGNMENT == 0
  {
    assert BlockOK(h.blocks, h.segs, h.words, b);
    assert SegmentOK(h.blocks, h.words, h.blocks[b].seg);
  }

  lemma WithoutSegmentDomains(h: HeapState, k: nat)
    requires k < |h.segs|
    requires var b := First(h.segs[k]); Shaped(h, b) && b in h.blocks
    ensures var h' := WithoutSegment(h, k);
      && CacheOK(h')
      && (forall c :: c in h'.live ==> c in h'.blocks)
      && (forall c :: c in h'.free ==> c in h'.blocks)
  {
    hide Laid;
    var h', b := WithoutSegment(h, k), First(h.segs[k]);
    assert UseOK(h, b, b);
    forall i, c | 0 <= i < |h.cache| && c in h.cache[i] ensures c in h'.blocks { assert InCache(h, c); }
  }

  // ----- the loose block handed over

  lemma IndexedOK(h: HeapState, b: int)
    requires Shaped(h, b) && b in h.blocks && !h.blocks[b].used
    ensures Shaped(h.(free := h.free[b := h.blocks[b].size]), 0)
  {
    ZeroIsNoBlock(h, b);
    var h' := h.(free := h.free[b := h.blocks[b].size]);
    hide Laid;
    forall c | c in h'.blocks ensures UseOK(h', 0, c) { assert UseOK(h, b, c); }
  }

  lemma UnindexedOK(h: HeapState, b: int)
    requires Shaped(h, 0) && b in h.free
    ensures b in h.blocks && !h.blocks[b].used && h.free[b] == h.blocks[b].size
    ensures Shaped(h.(free := h.free - {b}), b)
  {
    ZeroIsNoBlock(h, 0);
    assert UseOK(h, 0, b);
    var h' := h.(free := h.free - {b});
    hide Laid;
    forall c | c in h'.blocks ensures UseOK(h', b, c) { assert UseOK(h, 0, c); }
  }

  lemma ClaimedOK(h: HeapState, b: int, req: nat)
    requires Shaped(h, b) && b in h.blocks && h.blocks[b].used && req + HEADER <= h.blocks[b].size
    ensures b !in h.live
    ensures Shaped(h.(live := h.live[b := Claim(req, h.blocks[b].size)]), 0)
  {
    ZeroIsNoBlock(h, b);
    assert UseOK(h, b, b);
    var h' := h.(live := h.live[b := Claim(req, h.blocks[b].size)]);
    hide Laid;
    forall c | c in h'.blocks ensures UseOK(h', 0, c) { assert UseOK(h, b, c); }
  }

  lemma UnclaimedOK(h: HeapState, b: int)
    requires Shaped(h, 0) && b in h.live
    ensures b in h.blocks && h.blocks[b].used && h.live[b].size == h.blocks[b].size &&
      h.live[b].req + HEADER <= h.blocks[b].size
    ensures Shaped(h.(live := h.live - {b}), b)
  {
    ZeroIsNoBlock(h, 0);
    assert UseOK(h, 0, b);
    var h' := h.(live := h.live - {b});
    hide Laid;
    forall c | c in h'.blocks ensures UseOK(h', b, c) { assert UseOK(h, 0, c); }
  }

  ghost function Pushed(h: HeapState, b: int): HeapState
    requires b in h.blocks && MIN_BLOCK <= h.blocks[b].size && BucketIndex(h.blocks[b].size) < |h.cache|
  {
    var i := BucketIndex(h.blocks[b].size);
    h.(cache := h.cache[i := [b] + h.cache[i]])
  }

  lemma PushedOK(h: HeapState, b: int)
    requires Shaped(h, b) && b in h.blocks && h.blocks[b].used && MIN_BLOCK <= h.blocks[b].size &&
      Small(h.blocks[b].size)
    ensures BucketIndex(h.blocks[b].size) < |h.cache|
    ensures Shaped(Pushed(h, b), 0)
  {
    ZeroIsNoBlock(h, b);
    PositiveBlock(h, b, b);
    assert UseOK(h, b, b);
    var h', i := Pushed(h, b), BucketIndex(h.blocks[b].size);
    hide Laid;
    forall j, c | 0 <= j < |h'.cache| && c in h'.cache[j] ensures (c == b && j == i) || c in h.cache[j] {}
    forall c | c in h'.blocks ensures UseOK(h', 0, c) {
      assert UseOK(h, b, c);
      assert InCache(h', c) <==> InCache(h, c) || c == b;
    }
  }

  ghost function Popped(h: HeapState, i: nat): HeapState
    requires i < |h.cache| && h.cache[i] != []
  {
    h.(cache := h.cache[i := h.cache[i][1..]])
  }

  lemma PoppedOK(h: HeapState, i: nat)
    requires Shaped(h, 0) && i < |h.cache| && h.cache[i] != []
    ensures var b := h.cache[i][0];
      && b in h.blocks && h.blocks[b].used && h.blocks[b].size == 8 * i + 32 && b !in h.live
      && Shaped(Popped(h, i), b)
  {
    var b := h.cache[i][0];
    assert b in h.cache[i];
    ZeroIsNoBlock(h, 0);
    assert UseOK(h, 0, b) && InCache(h, b);
    var h' := Popped(h, i);
    hide Laid;
    forall j, c | 0 <= j < |h'.cache| && c in h'.cache[j] ensures c in h.cache[j] && c != b {
      if j == i {
        var m :| 0 <= m < |h'.cache[i]| && h'.cache[i][m] == c;
        assert h.cache[i][m + 1] == c;
      }
    }
    assert forall c :: c in h.cache[i] && c != b ==> c in h'.cache[i];
    forall c | c in h'.blocks ensures UseOK(h', b, c) {
      assert UseOK(h, 0, c);
      assert InCache(h', c) <==> InCache(h, c) && c != b;
    }
  }
}
