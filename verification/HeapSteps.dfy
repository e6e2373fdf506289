/** The steps the heap operations are made of, on values. */
module HeapSteps {
  import opened Bits
  import opened Sizes
  import opened HeapLayout
  import opened Sums
  import opened HeapState

  // ----- what the header words tell

  /** The words around a block say whether its neighbours are free, and whether it is the first or the
      last of its segment. */
  lemma Neighbours(h: HeapState, loose: int, b: int)
    requires Shaped(h, loose) && b in h.blocks
    ensures var k := h.blocks[b]; var e, s := b + k.size, k.seg;
      && b in h.words.size && h.words.size[b] == WordOf(k)
      && e in h.words.size
      && (h.words.size[e].kind == Free <==> e in h.blocks && !h.blocks[e].used)
      && (e in h.blocks ==> h.words.size[e] == WordOf(h.blocks[e]) && h.blocks[e].seg == s)
      && (h.words.size[e].kind == Guard <==> e == End(s))
      && (h.words.size[e].kind == Guard <==> e !in h.blocks)
    ensures b in h.words.prev && (h.words.prev[b] == FIRST_MARK <==> b == First(h.blocks[b].seg))
    ensures h.words.prev[b].kind == Free ==>
      var p := b - h.words.prev[b].size;
      p in h.blocks && !h.blocks[p].used && p + h.blocks[p].size == b && h.blocks[p].seg == h.blocks[b].seg
    ensures forall c {:trigger h.blocks[c]} :: c in h.blocks && c + h.blocks[c].size == b && !h.blocks[c].used ==>
      h.words.prev[b].kind == Free
  {
    hide Shaped, Laid;
    NextNeighbour(h, loose, b);
    PrevNeighbour(h, loose, b);
  }

  lemma NextNeighbour(h: HeapState, loose: int, b: int)
    requires Shaped(h, loose) && b in h.blocks
    ensures var k := h.blocks[b]; var e, s := b + k.size, k.seg;
      && b in h.words.size && h.words.size[b] == WordOf(k)
      && e in h.words.size
      && (h.words.size[e].kind == Free <==> e in h.blocks && !h.blocks[e].used)
      && (e in h.blocks ==> h.words.size[e] == WordOf(h.blocks[e]) && h.blocks[e].seg == s)
      && (h.words.size[e].kind == Guard <==> e == End(s))
      && (h.words.size[e].kind == Guard <==> e !in h.blocks)
  {
    var s := h.blocks[b].seg;
    var e := b + h.blocks[b].size;
    assert BlockOK(h.blocks, h.segs, h.words, b) && SegmentOK(h.blocks, h.words, s);
    EndIsFree(h.blocks, h.segs, h.words, s);
    if e in h.blocks { assert BlockOK(h.blocks, h.segs, h.words, e); }
    hide Shaped, Laid;
  }

  lemma PrevNeighbour(h: HeapState, loose: int, b: int)
    requires Shaped(h, loose) && b in h.blocks
    ensures b in h.words.prev && (h.words.prev[b] == FIRST_MARK <==> b == First(h.blocks[b].seg))
    ensures h.words.prev[b].kind == Free ==>
      var p := b - h.words.prev[b].size;
      p in h.blocks && !h.blocks[p].used && p + h.blocks[p].size == b && h.blocks[p].seg == h.blocks[b].seg
    ensures forall c {:trigger h.blocks[c]} :: c in h.blocks && c + h.blocks[c].size == b && !h.blocks[c].used ==>
      h.words.prev[b].kind == Free
  {
    var s := h.blocks[b].seg;
    assert BlockOK(h.blocks, h.segs, h.words, b) && SegmentOK(h.blocks, h.words, s);
    if b != First(s) { assert BlockOK(h.blocks, h.segs, h.words, b - h.words.prev[b].size); }
    forall c | c in h.blocks && c + h.blocks[c].size == b && !h.blocks[c].used ensures h.words.prev[b].kind == Free {
      assert BlockOK(h.blocks, h.segs, h.words, c);
    }
    hide Shaped, Laid;
  }

  // ----- one block made used

  lemma UsedOK(h: HeapState, b: int)
    requires Shaped(h, b) && b in h.blocks
    ensures var k := h.blocks[b];
      Shaped(h.(blocks := h.blocks[b := k.(used := true)], words := SetBlock(h.words, b, Used, k.size)), b)
  {
    var k := h.blocks[b];
    var e := b + k.size;
    assert BlockOK(h.blocks, h.segs, h.words, b);
    SoloRun(h, b);
    GatherOK(h, b, k.seg, b, e, true);
    assert Merge(h.blocks, b, e, true, k.seg) == h.blocks[b := k.(used := true)];
    assert (map c | c in h.free && !(b <= c < e) :: h.free[c]) == h.free;
  }

  lemma SoloRun(h: HeapState, b: int)
    requires Shaped(h, b) && b in h.blocks
    ensures var k := h.blocks[b];
      && Gatherable(h, b, k.seg, b, b + k.size)
      && (forall c :: c in h.blocks && b <= c < b + k.size ==> c == b)
      && (forall c :: c in h.free && b <= c < b + k.size ==> false)
  {
    assert BlockOK(h.blocks, h.segs, h.words, b) && UseOK(h, b, b);
    assert forall c :: c in h.blocks && b < c ==> b + h.blocks[b].size <= c;
  }

  // ----- a run around a block

  /** The run of block `b` with its free predecessor and its free successor. */
  ghost function RunStart(h: HeapState, b: int): int
    requires b in h.words.prev
  {
    if h.words.prev[b].kind == Free then b - h.words.prev[b].size else b
  }

  ghost function RunEnd(h: HeapState, b: int): int
    requires b in h.blocks && b + h.blocks[b].size in h.words.size
  {
    var e := b + h.blocks[b].size;
    if h.words.size[e].kind == Free then e + h.words.size[e].size else e
  }

  lemma RunAround(h: HeapState, b: int, a: int)
    requires Shaped(h, b) && b in h.blocks && b + h.blocks[b].size in h.words.size && b in h.words.prev
    requires a == b || a == RunStart(h, b)
    ensures var s, e := h.blocks[b].seg, RunEnd(h, b);
      && a <= b && Gatherable(h, b, s, a, e)
      && (e in h.blocks ==> h.blocks[e].used)
      && e in h.words.size && (h.words.size[e].kind == Guard <==> e == End(s))
      && a in h.words.prev && (h.words.prev[a] == FIRST_MARK <==> a == First(s))
  {
    var s, m, e := h.blocks[b].seg, b + h.blocks[b].size, RunEnd(h, b);
    Neighbours(h, b, b);
    PositiveBlock(h, b, b);
    if a != b { Neighbours(h, b, a); PositiveBlock(h, b, a); }
    if m in h.blocks { Neighbours(h, b, m); PositiveBlock(h, b, m); assert NextUsed(h.blocks, m); }
    RunContents(h, b, a, e);
  }

  lemma InOrder(blocks: Blocks, b: int, c: int)
    requires NoOverlap(blocks) && b in blocks && c in blocks && b < c
    ensures b + blocks[b].size <= c
  {}

  /** Only the block and its free neighbours start inside its run. */
  lemma RunContents(h: HeapState, b: int, a: int, e: int)
    requires Shaped(h, b) && b in h.blocks && b + h.blocks[b].size in h.words.size && b in h.words.prev
    requires a == b || a == RunStart(h, b)
    requires e == b + h.blocks[b].size || e == RunEnd(h, b)
    ensures forall c {:trigger h.blocks[c]} :: c in h.blocks && a <= c < e ==>
      c == b || c == a || c == b + h.blocks[b].size
    ensures forall c {:trigger h.blocks[c]} :: c in h.blocks && a <= c < e && c != b ==> !h.blocks[c].used
  {
    var m := b + h.blocks[b].size;
    Neighbours(h, b, b);
    if a != b { assert a + h.blocks[a].size == b; }
    forall c | c in h.blocks && a <= c < e ensures c == b || c == a || c == m {
      if b < c { InOrder(h.blocks, b, c); }
      if a < c < b { InOrder(h.blocks, a, c); }
      if m in h.blocks && m < c { InOrder(h.blocks, m, c); }
    }
  }

  lemma RunEnclosed(h: HeapState, b: int)
    requires Shaped(h, b) && b in h.blocks && b + h.blocks[b].size in h.words.size && b in h.words.prev
    ensures Enclosed(h, h.blocks[b].seg, RunStart(h, b), RunEnd(h, b))
  {
    var a := RunStart(h, b);
    Neighbours(h, b, b);
    RunAround(h, b, a);
    forall c | c in h.blocks && c + h.blocks[c].size == a ensures h.blocks[c].used {
      assert NextUsed(h.blocks, c);
    }
  }

  // ----- a segment emptied

  ghost function Filter(free: map<int, nat>, a: int, e: int): map<int, nat> {
    map c | c in free && !(a <= c < e) :: free[c]
  }

  /** Segment `k` out of the list with everything in it. */
  ghost function Vacated(h: HeapState, k: nat): HeapState
    requires k < |h.segs|
  {
    var s := h.segs[k];
    h.(segs := Omit(h.segs, k), blocks := Cut(h.blocks, First(s), End(s)), free := Filter(h.free, First(s), End(s)))
  }

  lemma VacatedOK(h: HeapState, loose: int, k: nat)
    requires Shaped(h, loose) && loose in h.blocks && k < |h.segs|
    requires Gatherable(h, loose, h.segs[k], First(h.segs[k]), End(h.segs[k]))
    ensures Shaped(Vacated(h, k), 0)
    ensures forall t :: t in Omit(h.segs, k) ==> Apart(h.segs[k], t)
  {
    var s := h.segs[k];
    var a, e := First(s), End(s);
    GatherOK(h, loose, s, a, e, true);
    var g := Gathered(h, s, a, e, true);
    WithoutSegmentOK(g, k);
    OmitApart(h.segs, k) by { assert Laid(h.blocks, h.segs, h.words); }
    var v := Vacated(h, k);
    assert Merge(h.blocks, a, e, true, s) - {a} == v.blocks;
    assert SegmentOK(h.blocks, h.words, s);
    hide Laid, Gatherable;
    LaidForget(v.blocks, v.segs, h.words, s, Used);
    ForgetWords(WithoutSegment(g, k), v);
  }

  lemma ForgetWords(g: HeapState, v: HeapState)
    requires Shaped(g, 0) && v == g.(words := v.words) && Laid(v.blocks, v.segs, v.words)
    ensures Shaped(v, 0)
  {
    hide Laid;
    forall b | b in v.blocks ensures UseOK(v, 0, b) { assert UseOK(g, 0, b); }
  }

  /** The words of a segment no longer listed do not matter. */
  lemma LaidForget(blocks: Blocks, segs: seq<Segment>, w: Words, s: Segment, kind: Kind)
    requires First(s) < End(s) && Laid(blocks, segs, SetBlock(w, First(s), kind, End(s) - First(s)))
    requires forall t :: t in segs ==> Apart(s, t)
    ensures Laid(blocks, segs, w)
  {
    var w1 := SetBlock(w, First(s), kind, End(s) - First(s));
    forall t | t in segs ensures SegmentOK(blocks, w, t) { assert SegmentOK(blocks, w1, t) && Apart(s, t); }
    forall b | b in blocks ensures BlockOK(blocks, segs, w, b) {
      assert BlockOK(blocks, segs, w1, b);
      assert Apart(s, blocks[b].seg);
    }
  }

  // ----- a used block handed out

  /** Block `b` covers its run in the view; its words are still to be written. */
  ghost predicate Ready(h: HeapState, b: int) {
    && b in h.blocks && h.blocks[b].used
    && Shaped(h.(words := SetBlock(h.words, b, Used, h.blocks[b].size)), b)
    && (b + h.blocks[b].size in h.blocks ==> h.blocks[b + h.blocks[b].size].used)
  }

  /** `size` grows by `t`, and `peak` with it. */
  function Paid(k: Books, t: nat): Books {
    k.(size := k.size + t, peak := if k.peak < k.size + t then k.size + t else k.peak)
  }

  ghost function GivenWhole(h: HeapState, b: int, req: nat): HeapState
    requires b in h.blocks
  {
    var n := h.blocks[b].size;
    h.(words := SetBlock(h.words, b, Used, n), live := h.live[b := Claim(req, n)], books := Paid(h.books, n))
  }

  lemma GivenWholeOK(h: HeapState, b: int, req: nat)
    requires Ready(h, b) && BooksOK(h) && req + HEADER <= h.blocks[b].size
    ensures b !in h.live && Inv(GivenWhole(h, b, req))
  {
    var n := h.blocks[b].size;
    var g := h.(words := SetBlock(h.words, b, Used, n));
    ClaimedOK(g, b, req);
    hide Laid, UseOK;
    ClaimAdd(h.live, b, Claim(req, n));
    Rebooked(g.(live := h.live[b := Claim(req, n)]), GivenWhole(h, b, req), 0);
  }

  /** The totals do not touch the shape. */
  lemma Rebooked(g: HeapState, h: HeapState, loose: int)
    requires Shaped(g, loose) && h == g.(books := h.books)
    ensures Shaped(h, loose)
  {
    hide Laid;
    forall b | b in h.blocks ensures UseOK(h, loose, b) { assert UseOK(g, loose, b); }
  }

  ghost function GivenPart(h: HeapState, b: int, t: nat, req: nat): HeapState
    requires b in h.blocks && t <= h.blocks[b].size
  {
    var n := h.blocks[b].size;
    h.(words := SplitWords(h.words, b, n, t, true, false), blocks := Split(h.blocks, b, t, true, false),
       free := h.free[b + t := n - t], live := h.live[b := Claim(req, t)], books := Paid(h.books, t))
  }

  lemma GivenPartOK(h: HeapState, b: int, t: nat, req: nat)
    requires Ready(h, b) && BooksOK(h) && req + HEADER <= t
    requires MIN_BLOCK <= t && t + MIN_BLOCK <= h.blocks[b].size && t % ALIGNMENT == 0
    ensures b !in h.live && b + t !in h.free && Inv(GivenPart(h, b, t, req))
    ensures b + t > 0 && MIN_BLOCK <= h.blocks[b].size - t < WORD && (h.blocks[b].size - t) % ALIGNMENT == 0
  {
    hide Shaped, SplitWords;
    var n := h.blocks[b].size;
    var g := h.(words := SetBlock(h.words, b, Used, n));
    PositiveBlock(g, b, b);
    AlignedGap(t, n);
    CutOffOK(g, b, t);
    var c := CutOff(g, b, t);
    ClaimedOK(c, b, req);
    Overwritten(h.words, b, n, t);
    ClaimAdd(h.live, b, Claim(req, t));
    Rebooked(c.(live := h.live[b := Claim(req, t)]), GivenPart(h, b, t, req), 0);
  }

  /** Cutting a block writes both words again. */
  lemma Overwritten(w: Words, b: int, n: nat, t: nat)
    requires 0 < t < n
    ensures SplitWords(SetBlock(w, b, Used, n), b, n, t, true, false) == SplitWords(w, b, n, t, true, false)
  {
    assert SetBlock(SetBlock(w, b, Used, n), b, Used, t).size == SetBlock(w, b, Used, t).size;
  }

  // ----- a used block given back

  /** The free blocks of the run around `b` are its free neighbours. */
  lemma RunFree(h: HeapState, b: int)
    requires Shaped(h, b) && b in h.blocks && b + h.blocks[b].size in h.words.size && b in h.words.prev
    ensures var a, m, e := RunStart(h, b), b + h.blocks[b].size, RunEnd(h, b);
      && (a != b ==> a in h.free && h.free[a] == h.words.prev[b].size && a in h.words.size && h.words.size[a].size == h.words.prev[b].size)
      && (e != m ==> m in h.free && h.free[m] == h.words.size[m].size && m != a)
      && Filter(h.free, a, e) == h.free - (if a != b then {a} else {}) - (if e != m then {m} else {})
      && (e != m <==> h.words.size[m].kind == Free) && (a != b <==> h.words.prev[b].kind == Free)
  {
    var a, m, e := RunStart(h, b), b + h.blocks[b].size, RunEnd(h, b);
    Neighbours(h, b, b);
    PositiveBlock(h, b, b);
    assert UseOK(h, b, b);
    if a != b { PositiveBlock(h, b, a); Neighbours(h, b, a); assert UseOK(h, b, a); }
    if m in h.blocks { PositiveBlock(h, b, m); assert UseOK(h, b, m); }
    RunContents(h, b, a, e);
    FilterIs(h.free, a, b, m, e, h.blocks);
  }

  lemma FilterIs(free: map<int, nat>, a: int, b: int, m: int, e: int, blocks: Blocks)
    requires a <= b < m <= e && b !in free && forall c :: c in free ==> c in blocks
    requires forall c {:trigger blocks[c]} :: c in blocks && a <= c < e ==> c == b || c == a || c == m
    ensures Filter(free, a, e) == free - (if a != b then {a} else {}) - (if e != m then {m} else {})
  {
    var r := free - (if a != b then {a} else {}) - (if e != m then {m} else {});
    forall c | c in free ensures c in r <==> !(a <= c < e) { assert blocks[c] == blocks[c]; }
  }

  /** The run around `b` as one free block, in the index. */
  ghost function Released(h: HeapState, b: int): HeapState
    requires b in h.blocks && b + h.blocks[b].size in h.words.size && b in h.words.prev
    requires RunStart(h, b) < RunEnd(h, b)
  {
    var a, e := RunStart(h, b), RunEnd(h, b);
    var g := Gathered(h, h.blocks[b].seg, a, e, false);
    g.(free := g.free[a := e - a])
  }

  lemma ReleasedOK(h: HeapState, b: int)
    requires Shaped(h, b) && b in h.blocks && b + h.blocks[b].size in h.words.size && b in h.words.prev
    ensures var a, e := RunStart(h, b), RunEnd(h, b);
      && a < e && Shaped(Released(h, b), 0) && a !in Filter(h.free, a, e)
      && a > 0 && MIN_BLOCK <= e - a < WORD && (e - a) % ALIGNMENT == 0
  {
    hide Shaped, RunStart, RunEnd, Enclosed;
    var s, a, e := h.blocks[b].seg, RunStart(h, b), RunEnd(h, b);
    RunAround(h, b, a);
    RunEnclosed(h, b);
    GatherOK(h, b, s, a, e, false);
    var g := Gathered(h, s, a, e, false);
    PositiveBlock(g, a, a);
    IndexedOK(g, a);
  }

  /** The run around `b` is its whole segment. */
  lemma WholeRun(h: HeapState, b: int, k: nat)
    requires Shaped(h, b) && b in h.blocks && b + h.blocks[b].size in h.words.size && b in h.words.prev
    requires k < |h.segs| && h.segs[k] == h.blocks[b].seg && RunStart(h, b) == First(h.segs[k]) &&
      RunEnd(h, b) == End(h.segs[k])
    ensures Shaped(Vacated(h, k), 0)
  {
    RunAround(h, b, RunStart(h, b));
    VacatedOK(h, b, k);
  }
}
