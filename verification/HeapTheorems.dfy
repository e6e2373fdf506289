/** What the heap invariant means for callers: the header words tile every segment, live blocks are
    disjoint, and every byte of the segments is accounted for. */
module HeapTheorems {
  import opened Sizes
  import opened Rings
  import opened HeapLayout
  import opened Sums
  import opened HeapState
  import opened HeapSteps
  import opened HeapChanges
  import opened Effects
  import opened Requests

  // ----- tiling

  /** The blocks met from `b` on when only the size words are followed, up to `e`. */
  ghost function Walk(w: Words, b: int, e: int): seq<int>
    decreases e - b
  {
    if b < e && b in w.size && w.size[b].size > 0 then [b] + Walk(w, b + w.size[b].size, e) else []
  }

  /** Each block of the walk ends where the next one starts, and the last one at `e`. */
  ghost predicate Chained(w: Words, c: seq<int>, e: int) {
    forall i {:trigger Follows(w, c, e, i)} :: 0 <= i < |c| ==> Follows(w, c, e, i)
  }

  ghost predicate Follows(w: Words, c: seq<int>, e: int, i: nat)
    requires i < |c|
  {
    var next := if i + 1 < |c| then c[i + 1] else e;
    c[i] in w.size && c[i] + w.size[c[i]].size == next && next in w.prev && w.prev[next] == w.size[c[i]]
  }

  /** Following the size words from the first block meets exactly the blocks of the segment, in address
      order and without gaps, ends at the guard, and every successor repeats its predecessor's word. */
  lemma WalkTiles(h: HeapState, s: Segment)
    requires Inv(h) && s in h.segs
    ensures var c := Walk(h.words, First(s), End(s));
      && c != [] && c[0] == First(s) && Chained(h.words, c, End(s))
      && (forall x :: x in c <==> x in h.blocks && h.blocks[x].seg == s)
      && First(s) in h.words.prev && h.words.prev[First(s)] == FIRST_MARK
      && End(s) in h.words.size && h.words.size[End(s)] == GUARD_MARK
  {
    assert SegmentOK(h.blocks, h.words, s);
    WalkFrom(h.blocks, h.segs, h.words, s, First(s));
    forall x | x in h.blocks &&
      h.blocks[x].seg == s ensures x >= First(s) { assert BlockOK(h.blocks, h.segs, h.words, x); }
  }

  lemma {:induction false} WalkFrom(blocks: Blocks, segs: seq<Segment>, w: Words, s: Segment, b: int)
    requires Laid(blocks, segs, w) && s in segs && (b == End(s) || (b in blocks && blocks[b].seg == s))
    ensures var c := Walk(w, b, End(s));
      && Chained(w, c, End(s)) && (if b == End(s) then c == [] else c != [] && c[0] == b)
      && (forall x :: x in c <==> x in blocks && blocks[x].seg == s && x >= b)
    decreases End(s) - b
  {
    hide Laid, Chained, Walk;
    WalkStep(blocks, segs, w, s, b);
    if b != End(s) {
      var e := b + blocks[b].size;
      WalkFrom(blocks, segs, w, s, e);
      ChainedStep(w, b, Walk(w, e, End(s)), End(s));
    }
  }

  lemma WalkStep(blocks: Blocks, segs: seq<Segment>, w: Words, s: Segment, b: int)
    requires Laid(blocks, segs, w) && s in segs && (b == End(s) || (b in blocks && blocks[b].seg == s))
    ensures b == End(s) ==> Walk(w, b, End(s)) == [] && Chained(w, [], End(s))
    ensures b == End(s) ==> forall x :: x in blocks && blocks[x].seg == s ==> x < b
    ensures b != End(s) ==> var e := b + blocks[b].size;
      && b < e <= End(s) && b in w.size && w.size[b].size == blocks[b].size && e in w.prev && w.prev[e] == w.size[b]
      && Walk(w, b, End(s)) == [b] + Walk(w, e, End(s)) && (e == End(s) || (e in blocks && blocks[e].seg == s))
      && (forall x :: x in blocks && x > b ==> x >= e)
  {
    if b == End(s) {
      forall x | x in blocks && blocks[x].seg == s ensures x < b { assert BlockOK(blocks, segs, w, x); }
    } else {
      assert BlockOK(blocks, segs, w, b);
    }
  }

  lemma ChainedStep(w: Words, b: int, rest: seq<int>, e: int)
    requires b in w.size && b + w.size[b].size == (if rest == [] then e else rest[0])
    requires b + w.size[b].size in w.prev && w.prev[b + w.size[b].size] == w.size[b]
    requires Chained(w, rest, e)
    ensures Chained(w, [b] + rest, e)
  {
    var c := [b] + rest;
    forall i | 0 <= i < |c| ensures Follows(w, c, e, i) {
      if i > 0 { assert Follows(w, rest, e, i - 1); }
    }
  }

  // ----- live allocations

  /** Live payloads are aligned, at least as long as asked for, inside one segment, and disjoint. */
  lemma LivePayloads(h: HeapState, b: int, c: int)
    requires Inv(h) && b in h.live && c in h.live
    ensures (b + HEADER) % ALIGNMENT == 0 && h.live[b].req <= h.live[b].size - HEADER
    ensures exists s :: s in h.segs && First(s) <= b && b + h.live[b].size <= End(s)
    ensures b != c ==> b + h.live[b].size <= c || c + h.live[c].size <= b
  {
    UnclaimedOK(h, b);
    UnclaimedOK(h, c);
    assert BlockOK(h.blocks, h.segs, h.words, b);
    if b < c { InOrder(h.blocks, b, c); }
    if c < b { InOrder(h.blocks, c, b); }
  }

  // ----- conservation

  /** The sum of the values of `m`. */
  ghost function Total(m: map<int, nat>): nat
    decreases |m|
  {
    if m.Keys == {} then 0 else
      var b := Pick(m.Keys);
      m[b] + Total(m - {b})
  }

  lemma {:induction false} TotalSplit(m: map<int, nat>, b: int)
    requires b in m
    ensures Total(m) == m[b] + Total(m - {b})
    decreases |m|
  {
    assert b in m.Keys;
    var c := Pick(m.Keys);
    if c != b {
      TotalSplit(m - {c}, b);
      TotalSplit(m - {b}, c);
      assert m - {c} - {b} == m - {b} - {c};
    }
  }

  lemma {:induction false} UnionTotal(a: map<int, nat>, b: map<int, nat>)
    requires a.Keys !! b.Keys
    ensures Total(a + b) == Total(a) + Total(b)
    decreases |b|
  {
    if b.Keys == {} {
      assert a + b == a;
    } else {
      var x := Pick(b.Keys);
      UnionTotal(a, b - {x});
      TotalSplit(a + b, x);
      UnionLess(a, b, x);
    }
  }

  lemma UnionLess(a: map<int, nat>, b: map<int, nat>, x: int)
    requires x in b && x !in a
    ensures (a + b) - {x} == a + (b - {x})
  {}

  ghost function LiveSizes(live: map<int, Claim>): map<int, nat> { map b | b in live :: live[b].size }

  lemma {:induction false} LiveTotal(live: map<int, Claim>)
    ensures Total(LiveSizes(live)) == ClaimTotal(live)
    decreases |live|
  {
    var m := LiveSizes(live);
    assert m.Keys == live.Keys;
    if live.Keys != {} {
      var b := Pick(live.Keys);
      LiveTotal(live - {b});
      TotalSplit(m, b);
      assert m - {b} == LiveSizes(live - {b});
    }
  }

  ghost function BlockSizes(blocks: Blocks): map<int, nat> { map b | b in blocks :: blocks[b].size }
  ghost function UsedSizes(blocks: Blocks): map<int, nat> { map b | b in blocks && blocks[b].used :: blocks[b].size }
  ghost function ListSizes(c: seq<int>, n: nat): map<int, nat> { map b | b in c :: n }

  /** The blocks on the cache lists with their sizes. */
  ghost function CachedSizes(cache: seq<seq<int>>): map<int, nat> {
    if cache == [] then map[]
    else CachedSizes(cache[..|cache| - 1]) + ListSizes(cache[|cache| - 1], 8 * (|cache| - 1) + 32)
  }

  lemma {:induction false} ListSizesTotal(c: seq<int>, i: nat)
    requires NoDup(c)
    ensures Total(ListSizes(c, 8 * i + 32)) == ListTotal(|c|, i)
  {
    var m := ListSizes(c, 8 * i + 32);
    if c == [] {
      assert m.Keys == {};
    } else {
      var d := c[1..];
      ListSizesTotal(d, i);
      ListStep(|d|, i);
      hide ListTotal;
      HeadApart(c);
      TotalSplit(m, c[0]);
      assert m - {c[0]} == ListSizes(d, 8 * i + 32);
    }
  }

  lemma HeadApart(c: seq<int>)
    requires NoDup(c) && c != []
    ensures c[0] !in c[1..] && NoDup(c[1..])
  {
    assert forall j :: 0 <= j < |c| - 1 ==> c[1..][j] == c[j + 1] != c[0];
  }

  /** Every list is without repetition and holds blocks of its own size only. */
  ghost predicate Sorted(cache: seq<seq<int>>, size: map<int, nat>) {
    && (forall i :: 0 <= i < |cache| ==> NoDup(cache[i]))
    && (forall i, b {:trigger b in cache[i]} :: 0 <= i < |cache| && b in cache[i] ==>
      b in size && size[b] == 8 * i + 32)
  }

  lemma {:induction false} CachedKeys(cache: seq<seq<int>>, size: map<int, nat>)
    requires Sorted(cache, size)
    ensures forall b {:trigger b in CachedSizes(cache)} :: b in CachedSizes(cache) ==>
      b in size && CachedSizes(cache)[b] == size[b] < 8 * |cache| + 32 && exists i :: 0 <= i < |cache| && b in cache[i]
    ensures forall i, b {:trigger b in cache[i]} :: 0 <= i < |cache| && b in cache[i] ==> b in CachedSizes(cache)
  {
    if cache != [] {
      var k := |cache| - 1;
      var init, last, r := cache[..k], cache[k], CachedSizes(cache);
      assert forall i :: 0 <= i < k ==> init[i] == cache[i];
      CachedKeys(init, size);
      forall b {:trigger b in r} | b in r
        ensures b in size && r[b] == size[b] < 8 * |cache| + 32 && exists i :: 0 <= i < |cache| && b in cache[i]
      {
        if b in last { assert b in cache[k]; }
        else { assert b in CachedSizes(init); var i :| 0 <= i < |init| && b in init[i]; assert b in cache[i]; }
      }
      forall i, b {:trigger b in cache[i]} | 0 <= i < |cache| && b in cache[i] ensures b in r {
        if i < k { assert b in init[i]; }
      }
    }
  }

  lemma {:induction false} CachedTotal(cache: seq<seq<int>>, size: map<int, nat>)
    requires Sorted(cache, size)
    ensures Total(CachedSizes(cache)) == CacheTotal(cache)
  {
    if cache != [] {
      var k := |cache| - 1;
      LastListApart(cache, size);
      CachedTotal(cache[..k], size);
      ListSizesTotal(cache[k], k);
      hide ListTotal, Total, Sorted;
      UnionTotal(CachedSizes(cache[..k]), ListSizes(cache[k], 8 * k + 32));
    }
  }

  lemma LastListApart(cache: seq<seq<int>>, size: map<int, nat>)
    requires Sorted(cache, size) && cache != []
    ensures var k := |cache| - 1;
      && Sorted(cache[..k], size) && NoDup(cache[k])
      && CachedSizes(cache[..k]).Keys !! ListSizes(cache[k], 8 * k + 32).Keys
  {
    var k := |cache| - 1;
    var init := cache[..k];
    assert forall i :: 0 <= i < k ==> init[i] == cache[i];
    CachedKeys(init, size);
    hide CachedSizes;
    forall b | b in cache[k] ensures b !in CachedSizes(init) {}
  }

  /** `size` counts the used-marked blocks: the live ones and the cached ones. */
  lemma UsedIsLiveAndCached(h: HeapState)
    requires Inv(h)
    ensures Total(UsedSizes(h.blocks)) == ClaimTotal(h.live) + h.books.cached
    ensures h.books.size == Total(UsedSizes(h.blocks)) + h.flushed
    ensures h.books.size - h.books.cached == ClaimTotal(h.live) <==> h.flushed == 0
  {
    LiveTotal(h.live);
    assert Sorted(h.cache, BlockSizes(h.blocks));
    CachedTotal(h.cache, BlockSizes(h.blocks));
    UsedSplit(h);
    UnionTotal(LiveSizes(h.live), CachedSizes(h.cache));
  }

  /** Reported usage, live bytes exactly. */
  ghost predicate ExactUsage(h: HeapState) { h.books.size - h.books.cached == ClaimTotal(h.live) }

  /** An allocation leaves usage exact if and only if it was exact and the request does not fail with blocks in
      the cache. That is known before the call, but for what the storage says if a segment is needed. An
      overflowing request leaves the cache alone. */
  lemma AllocKeepsUsageIff(p: Picture, p': Picture, r: Outcome, req: nat, trueSize: nat, log: Replies, log': Replies)
    requires Inv(p.heap) && Inv(p'.heap)
    requires Allotted(ViewOf(p.heap), p.heap.books, ViewOf(p'.heap), p'.heap.books, r, req, trueSize)
    requires AllocDone(p, req, trueSize, p', r, log, log')
    ensures var h, plan := p.heap, AllocPlan(p.heap, p.index, req, trueSize);
      ExactUsage(p'.heap) <==> ExactUsage(h) && (!Fails(plan, log') || plan == Overflowing || h.books.cached == 0)
  {
    hide Inv, UsedSizes, DeniedTotals, CacheHas, NoneFound, OverLimit, ResizeOverLimit, Chosen, Reach, Alone,
      SameBytes, Kept,
      AllocTotals, ReallocTotals, SegmentSize, AllocEffect, ReallocEffect;
    var h, h' := p.heap, p'.heap;
    UsedIsLiveAndCached(h);
    UsedIsLiveAndCached(h');
    if r.Done? { BlockAddress(h', r.ptr - HEADER); }
  }

  /** The same for a reallocation, unless it loses a block. */
  lemma ReallocKeepsUsageIff(p: Picture, p': Picture, data: Memory, data': Memory, r: Outcome, b: int, req: nat,
      trueSize: nat, log: Replies, log': Replies)
    requires Inv(p.heap) && Inv(p'.heap) && ReallocDone(p, b, req, trueSize, p', r, log, log')
    requires var h, h' := p.heap, p'.heap;
      && (r.Done? ==> Moved(ViewOf(h), h.books, data, ViewOf(h'), h'.books, data', b, r.ptr - HEADER, req, trueSize))
      && (!r.Done? ==> Denied(ViewOf(h), h.books, ViewOf(h'), h'.books, trueSize >= req))
    ensures var h, plan := p.heap, ReallocPlan(p.heap, p.index, b, req, trueSize);
      ExactUsage(p'.heap) <==> ExactUsage(h) && (!Fails(plan, log') || plan == Overflowing || h.books.cached == 0)
  {
    hide Inv, UsedSizes, DeniedTotals, CacheHas, NoneFound, OverLimit, ResizeOverLimit, Chosen, Reach, Alone,
      SameBytes, Kept,
      AllocTotals, ReallocTotals, SegmentSize, AllocEffect, ReallocEffect;
    var h, h' := p.heap, p'.heap;
    UsedIsLiveAndCached(h);
    UsedIsLiveAndCached(h');
    if r.Done? { BlockAddress(h', r.ptr - HEADER); }
  }

  /** A live block stands behind the header of its segment. */
  lemma BlockAddress(h: HeapState, b: int)
    requires Inv(h) && b in h.live
    ensures b > SEGMENT_HEADER
  {
    BlockInSegment(h, b);
    assert SegmentOK(h.blocks, h.words, h.blocks[b].seg) by { UnclaimedOK(h, b); assert BlockOK(h.blocks, h.segs, h.words, b); }
  }

  lemma UsedSplit(h: HeapState)
    requires Inv(h)
    ensures LiveSizes(h.live).Keys !! CachedSizes(h.cache).Keys
    ensures UsedSizes(h.blocks) == LiveSizes(h.live) + CachedSizes(h.cache)
  {
    var u, l, c := UsedSizes(h.blocks), LiveSizes(h.live), CachedSizes(h.cache);
    CachedBlocks(h);
    hide CachedSizes, Laid;
    forall b ensures b in u ==> b in l + c && u[b] == (l + c)[b]
      ensures b in l + c ==> b in u
      ensures !(b in l && b in c)
    {
      if b in h.blocks { UsedOne(h, b); }
    }
  }

  lemma UsedOne(h: HeapState, b: int)
    requires Inv(h) && b in h.blocks
    ensures h.blocks[b].used <==> b in h.live || InCache(h, b)
    ensures !(b in h.live && InCache(h, b)) && (b in h.live ==> h.live[b].size == h.blocks[b].size)
  {
    ZeroIsNoBlock(h, 0);
    assert UseOK(h, 0, b);
    if InCache(h, b) { assert b in h.cache[BucketIndex(h.blocks[b].size)]; }
  }

  lemma CachedBlocks(h: HeapState)
    requires Inv(h)
    ensures forall b {:trigger InCache(h, b)} {:trigger b in CachedSizes(h.cache)} :: b in CachedSizes(h.cache) <==>
      InCache(h, b)
    ensures forall b :: b in CachedSizes(h.cache) ==> b in h.blocks && CachedSizes(h.cache)[b] == h.blocks[b].size
  {
    hide CachedSizes, Laid;
    assert Sorted(h.cache, BlockSizes(h.blocks));
    CachedKeys(h.cache, BlockSizes(h.blocks));
    forall b ensures b in CachedSizes(h.cache) <==> InCache(h, b) { CachedOne(h, b); }
  }

  lemma CachedOne(h: HeapState, b: int)
    requires CacheOK(h) && Sorted(h.cache, BlockSizes(h.blocks))
    ensures b in CachedSizes(h.cache) <==> InCache(h, b)
  {
    CachedKeys(h.cache, BlockSizes(h.blocks));
    hide CachedSizes;
    if b in CachedSizes(h.cache) {
      var i :| 0 <= i < |h.cache| && b in h.cache[i];
      assert BucketIndex(8 * i + 32) == i;
    }
  }

  /** The blocks of segment `s` from `b` on, with their sizes. */
  ghost function SegmentSizes(blocks: Blocks, s: Segment, b: int): map<int, nat> {
    map x | x in blocks && blocks[x].seg == s && x >= b :: blocks[x].size
  }

  lemma {:induction false} SegmentBytes(blocks: Blocks, segs: seq<Segment>, w: Words, s: Segment, b: int)
    requires Laid(blocks, segs, w) && s in segs && (b == End(s) || (b in blocks && blocks[b].seg == s))
    ensures b <= End(s) && Total(SegmentSizes(blocks, s, b)) == End(s) - b
    decreases End(s) - b
  {
    hide Laid, Walk, Total;
    WalkStep(blocks, segs, w, s, b);
    var m := SegmentSizes(blocks, s, b);
    if b == End(s) {
      assert m.Keys == {};
      EmptyTotal(m);
    } else {
      var e := b + blocks[b].size;
      SegmentBytes(blocks, segs, w, s, e);
      TotalSplit(m, b);
      assert m - {b} == SegmentSizes(blocks, s, e);
    }
  }

  lemma EmptyTotal(m: map<int, nat>)
    requires m.Keys == {}
    ensures Total(m) == 0
  {}

  /** The blocks of the listed segments with their sizes. */
  ghost function HeldSizes(blocks: Blocks, segs: seq<Segment>): map<int, nat> {
    map x | x in blocks && blocks[x].seg in segs :: blocks[x].size
  }

  lemma {:induction false} HeldBytes(blocks: Blocks, segs: seq<Segment>, w: Words, k: nat)
    requires Laid(blocks, segs, w) && k <= |segs|
    ensures Total(HeldSizes(blocks, segs[k..])) + (SEGMENT_HEADER + HEADER) * (|segs| - k) == SegmentTotal(segs[k..])
    decreases |segs| - k
  {
    hide Laid, Total, BlockOK;
    var m := HeldSizes(blocks, segs[k..]);
    if k == |segs| {
      assert m.Keys == {};
      EmptyTotal(m);
    } else {
      var s := segs[k];
      assert segs[k..] == [s] + segs[k + 1..];
      HeldBytes(blocks, segs, w, k + 1);
      FirstBytes(blocks, segs, w, s);
      HeldStep(blocks, segs, w, k);
      UnionTotal(SegmentSizes(blocks, s, First(s)), HeldSizes(blocks, segs[k + 1..]));
    }
  }

  lemma FirstBytes(blocks: Blocks, segs: seq<Segment>, w: Words, s: Segment)
    requires Laid(blocks, segs, w) && s in segs
    ensures Total(SegmentSizes(blocks, s, First(s))) + SEGMENT_HEADER + HEADER == s.size
  {
    assert SegmentOK(blocks, w, s);
    SegmentBytes(blocks, segs, w, s, First(s));
  }

  lemma HeldStep(blocks: Blocks, segs: seq<Segment>, w: Words, k: nat)
    requires Laid(blocks, segs, w) && k < |segs|
    ensures var a, b := SegmentSizes(blocks, segs[k], First(segs[k])), HeldSizes(blocks, segs[k + 1..]);
      a.Keys !! b.Keys && HeldSizes(blocks, segs[k..]) == a + b
  {
    var s, rest := segs[k], segs[k + 1..];
    assert segs[k..] == [s] + rest;
    assert SegmentOK(blocks, w, s);
    forall i | 0 <= i < |rest| ensures rest[i] != s { assert Apart(segs[k], segs[k + 1 + i]); }
    forall x | x in blocks && blocks[x].seg == s ensures x >= First(s) { assert BlockOK(blocks, segs, w, x); }
  }

  /** Every byte of every segment is in a live block, a cached block or an indexed free block, or belongs
      to the segment header and the guard. */
  lemma Conservation(h: HeapState)
    requires Inv(h)
    ensures h.books.realSize == ClaimTotal(h.live) + h.books.cached + Total(h.free) + (SEGMENT_HEADER + HEADER) * |h.segs|
  {
    UsedIsLiveAndCached(h);
    HeldBytes(h.blocks, h.segs, h.words, 0);
    assert h.segs[0..] == h.segs;
    FreeSplit(h);
    UnionTotal(UsedSizes(h.blocks), h.free);
  }

  lemma FreeSplit(h: HeapState)
    requires Inv(h)
    ensures UsedSizes(h.blocks).Keys !! h.free.Keys && HeldSizes(h.blocks, h.segs) == UsedSizes(h.blocks) + h.free
  {
    hide Laid;
    var u, l := UsedSizes(h.blocks), HeldSizes(h.blocks, h.segs);
    ZeroIsNoBlock(h, 0);
    forall b ensures b in l <==> b in u || b in h.free
      ensures !(b in u && b in h.free)
      ensures b in l ==> l[b] == (u + h.free)[b]
    {
      if b in h.blocks { assert UseOK(h, 0, b); PositiveBlock(h, 0, b); }
    }
  }
}
