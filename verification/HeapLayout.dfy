/** Segments tiled by blocks with boundary tags. Every block starts with two words, its own size and
    the size of the block before it; both carry the block's kind. A segment begins with its own
    header and ends with a guard word. */
module HeapLayout {
  import opened Bits
  import opened Sizes

  datatype Kind = Free | Used | Guard

  /** A size word: kind in the low bits, size above. */
  datatype Word = Word(kind: Kind, size: nat)

  function TypeBits(kind: Kind): nat {
    match kind case Free => 0 case Used => 1 case Guard => 3
  }

  /** The machine word: sizes are aligned, so the two low bits are there for the kind. */
  function Pack(w: Word): nat { w.size + TypeBits(w.kind) }

  function Unpack(x: nat): Word {
    Word(if x % 2 == 0 then Free else if x % 4 == 3 then Guard else Used, x - x % 4)
  }

  /** Nothing is lost in the machine word, and the tests on it are tests of the kind. */
  lemma UnpackPack(w: Word)
    requires w.size % ALIGNMENT == 0
    ensures Unpack(Pack(w)) == w
    ensures (Pack(w) % 2 == 0 <==> w.kind == Free) && (Pack(w) % 4 == 3 <==> w.kind == Guard)
    ensures Pack(w) == 3 <==> w == Word(Guard, 0)
  {
    hide Unpack;
    var q := w.size / 8;
    LowBits(q, TypeBits(w.kind));
    UnpackBits(w.size, w.kind);
  }

  lemma UnpackBits(n: nat, kind: Kind)
    requires (n + TypeBits(kind)) % 4 == TypeBits(kind) && (n + TypeBits(kind)) % 2 == TypeBits(kind) % 2
    ensures Unpack(n + TypeBits(kind)) == Word(kind, n)
  {}

  lemma LowBits(q: nat, t: nat)
    requires t < 4
    ensures (8 * q + t) % 4 == t && (8 * q + t) % 2 == t % 2
  {
    DivUnique(8 * q + t, 4, 2 * q, t);
    DivUnique(8 * q + t, 2, 4 * q + t / 2, t % 2);
  }

  datatype Segment = Segment(addr: int, size: nat)

  /** The header words in memory, by block address: `info._size` and `info._prev`. */
  datatype Words = Words(size: map<int, Word>, prev: map<int, Word>)

  /** A block as the layout sees it. */
  datatype Block = Block(size: nat, used: bool, seg: Segment)

  type Blocks = map<int, Block>

  function First(s: Segment): int { s.addr + SEGMENT_HEADER }
  function End(s: Segment): int { s.addr + s.size - HEADER }
  const FIRST_MARK: Word := Word(Guard, 0)
  const GUARD_MARK: Word := Word(Guard, HEADER)

  function KindOf(used: bool): Kind { if used then Used else Free }
  function WordOf(k: Block): Word { Word(KindOf(k.used), k.size) }

  /** `ZEND_MM_BLOCK`: both copies of a block's size word. */
  function SetBlock(w: Words, b: int, kind: Kind, n: nat): Words {
    Words(w.size[b := Word(kind, n)], w.prev[b + n := Word(kind, n)])
  }

  ghost predicate Apart(s: Segment, t: Segment) {
    s.addr + s.size <= t.addr || t.addr + t.size <= s.addr
  }

  ghost predicate SegmentsApart(segs: seq<Segment>) {
    forall i, j :: 0 <= i < j < |segs| ==> Apart(segs[i], segs[j])
  }

  ghost predicate BlockOK(blocks: Blocks, segs: seq<Segment>, w: Words, b: int)
    requires b in blocks
  {
    var k := blocks[b];
    var s := k.seg;
    && s in segs
    && MIN_BLOCK <= k.size && k.size % ALIGNMENT == 0 && b % ALIGNMENT == 0
    && First(s) <= b && b + k.size <= End(s)
    && (b + k.size == End(s) || (b + k.size in blocks && blocks[b + k.size].seg == s))
    && b in w.size && w.size[b] == WordOf(k)
    && b + k.size in w.prev && w.prev[b + k.size] == WordOf(k)
    && b in w.prev
    && (b != First(s) ==>
          var p := b - w.prev[b].size;
          p in blocks && blocks[p].seg == s && p + blocks[p].size == b)
  }

  ghost predicate SegmentOK(blocks: Blocks, w: Words, s: Segment) {
    && s.addr > 0 && s.addr % ALIGNMENT == 0 && s.size % ALIGNMENT == 0
    && SEGMENT_HEADER + MIN_BLOCK + HEADER <= s.size && s.addr + s.size <= WORD
    && First(s) in blocks && blocks[First(s)].seg == s
    && First(s) in w.prev && w.prev[First(s)] == FIRST_MARK
    && End(s) in w.size && w.size[End(s)] == GUARD_MARK
  }

  ghost predicate NoOverlap(blocks: Blocks) {
    forall b, c {:trigger blocks[b], blocks[c]} :: b in blocks && c in blocks && b < c ==> b + blocks[b].size <= c
  }

  /** The blocks exactly tile the segments and the words mirror the blocks. */
  ghost predicate Laid(blocks: Blocks, segs: seq<Segment>, w: Words) {
    && SegmentsApart(segs)
    && NoOverlap(blocks)
    && (forall s {:trigger SegmentOK(blocks, w, s)} :: s in segs ==> SegmentOK(blocks, w, s))
    && (forall b {:trigger BlockOK(blocks, segs, w, b)} :: b in blocks ==> BlockOK(blocks, segs, w, b))
  }

  // ----- runs of blocks

  /** From block `a` up to `e`, a later block boundary of the same segment. */
  ghost predicate Run(blocks: Blocks, s: Segment, a: int, e: int) {
    a in blocks && blocks[a].seg == s && a < e && (e == End(s) || (e in blocks && blocks[e].seg == s))
  }

  function Cut(blocks: Blocks, a: int, e: int): Blocks {
    map c | c in blocks && !(a <= c < e) :: blocks[c]
  }

  /** The run made into one block. */
  function Merge(blocks: Blocks, a: int, e: int, used: bool, s: Segment): Blocks
    requires a < e
  {
    Cut(blocks, a, e)[a := Block(e - a, used, s)]
  }

  lemma RunInside(blocks: Blocks, segs: seq<Segment>, w: Words, s: Segment, a: int, e: int)
    requires Laid(blocks, segs, w) && Run(blocks, s, a, e)
    ensures s in segs && SegmentOK(blocks, w, s) && BlockOK(blocks, segs, w, a)
    ensures First(s) <= a && a + MIN_BLOCK <= e <= End(s) && (e - a) % ALIGNMENT == 0
  {
    assert BlockOK(blocks, segs, w, a) && SegmentOK(blocks, w, s);
    if e in blocks { assert BlockOK(blocks, segs, w, e); assert a + blocks[a].size <= e; }
    EndAligned(s);
    AlignedGap(a, e);
  }

  lemma EndAligned(s: Segment)
    requires s.addr % ALIGNMENT == 0 && s.size % ALIGNMENT == 0
    ensures First(s) % ALIGNMENT == 0 && End(s) % ALIGNMENT == 0
  {}

  lemma AlignedGap(a: int, e: int)
    requires a % ALIGNMENT == 0 && e % ALIGNMENT == 0
    ensures (e - a) % ALIGNMENT == 0 && (a + e) % ALIGNMENT == 0
  {}

  lemma MergeOK(blocks: Blocks, segs: seq<Segment>, w: Words, s: Segment, a: int, e: int, used: bool)
    requires Laid(blocks, segs, w) && Run(blocks, s, a, e)
    ensures Laid(Merge(blocks, a, e, used, s), segs, SetBlock(w, a, KindOf(used), e - a))
  {
    var blocks', w' := Merge(blocks, a, e, used, s), SetBlock(w, a, KindOf(used), e - a);
    RunInside(blocks, segs, w, s, a, e);
    forall t | t in segs ensures SegmentOK(blocks', w', t) { MergeSegment(blocks, segs, w, s, a, e, used, t); }
    forall b | b in blocks' ensures BlockOK(blocks', segs, w', b) { MergeBlock(blocks, segs, w, s, a, e, used, b); }
    MergeNoOverlap(blocks, segs, w, s, a, e, used);
  }

  lemma MergeNoOverlap(blocks: Blocks, segs: seq<Segment>, w: Words, s: Segment, a: int, e: int, used: bool)
    requires Laid(blocks, segs, w) && Run(blocks, s, a, e)
    ensures NoOverlap(Merge(blocks, a, e, used, s))
  {
    var blocks' := Merge(blocks, a, e, used, s);
    forall b, c | b in blocks' && c in blocks' && b < c ensures b + blocks'[b].size <= c {
      if b == a { Beyond(blocks, segs, w, s, a, e, c); }
      else if c != a { assert b + blocks[b].size <= c; }
      else { assert b + blocks[b].size <= a; }
    }
  }

  /** A block after the start of the run and outside it starts at its end or later. */
  lemma Beyond(blocks: Blocks, segs: seq<Segment>, w: Words, s: Segment, a: int, e: int, c: int)
    requires Laid(blocks, segs, w) && Run(blocks, s, a, e) && c in blocks && c > a && !(a <= c < e)
    ensures c >= e
  {}

  lemma MergeSegment(blocks: Blocks, segs: seq<Segment>, w: Words, s: Segment, a: int, e: int, used: bool, t: Segment)
    requires Laid(blocks, segs, w) && Run(blocks, s, a, e) && t in segs
    ensures SegmentOK(Merge(blocks, a, e, used, s), SetBlock(w, a, KindOf(used), e - a), t)
  {
    RunInside(blocks, segs, w, s, a, e);
    assert SegmentOK(blocks, w, t);
    if t != s { TwoSegments(segs, s, t); }
  }

  lemma TwoSegments(segs: seq<Segment>, s: Segment, t: Segment)
    requires SegmentsApart(segs) && s in segs && t in segs && s != t
    ensures Apart(s, t)
  {
    var i :| 0 <= i < |segs| && segs[i] == s;
    var j :| 0 <= j < |segs| && segs[j] == t;
    if i < j { assert Apart(segs[i], segs[j]); } else { assert Apart(segs[j], segs[i]); }
  }

  /** The blocks of a run belong to its segment and end inside it. */
  lemma RunMember(blocks: Blocks, segs: seq<Segment>, w: Words, s: Segment, a: int, e: int, c: int)
    requires Laid(blocks, segs, w) && Run(blocks, s, a, e) && c in blocks && a <= c < e
    ensures blocks[c].seg == s && c + blocks[c].size <= e
  {
    RunInside(blocks, segs, w, s, a, e);
    SameSegment(blocks, segs, w, s, c);
    assert BlockOK(blocks, segs, w, c);
    if e in blocks { assert c + blocks[c].size <= e; }
  }

  lemma SameSegment(blocks: Blocks, segs: seq<Segment>, w: Words, s: Segment, c: int)
    requires Laid(blocks, segs, w) && s in segs && c in blocks && First(s) <= c < End(s)
    ensures blocks[c].seg == s
  {
    assert BlockOK(blocks, segs, w, c);
    if blocks[c].seg != s { TwoSegments(segs, s, blocks[c].seg); }
  }

  lemma MergeBlock(blocks: Blocks, segs: seq<Segment>, w: Words, s: Segment, a: int, e: int, used: bool, b: int)
    requires Laid(blocks, segs, w) && Run(blocks, s, a, e) && b in Merge(blocks, a, e, used, s)
    ensures BlockOK(Merge(blocks, a, e, used, s), segs, SetBlock(w, a, KindOf(used), e - a), b)
  {
    hide Laid, BlockOK, SegmentOK;
    if b == a {
      MergeAtStart(blocks, segs, w, s, a, e, used);
    } else if b == e {
      MergeAtEnd(blocks, segs, w, s, a, e, used);
    } else {
      MergeElsewhere(blocks, segs, w, s, a, e, used, b);
    }
  }

  lemma MergeAtStart(blocks: Blocks, segs: seq<Segment>, w: Words, s: Segment, a: int, e: int, used: bool)
    requires Laid(blocks, segs, w) && Run(blocks, s, a, e)
    ensures BlockOK(Merge(blocks, a, e, used, s), segs, SetBlock(w, a, KindOf(used), e - a), a)
  {
    RunInside(blocks, segs, w, s, a, e);
    hide Laid, SegmentOK;
  }

  lemma MergeAtEnd(blocks: Blocks, segs: seq<Segment>, w: Words, s: Segment, a: int, e: int, used: bool)
    requires Laid(blocks, segs, w) && Run(blocks, s, a, e) && e in blocks
    ensures BlockOK(Merge(blocks, a, e, used, s), segs, SetBlock(w, a, KindOf(used), e - a), e)
  {
    hide Laid;
    RunInside(blocks, segs, w, s, a, e);
    BlockIsOK(blocks, segs, w, e);
    if e == End(s) { EndIsFree(blocks, segs, w, s); }
  }

  lemma BlockIsOK(blocks: Blocks, segs: seq<Segment>, w: Words, b: int)
    requires Laid(blocks, segs, w) && b in blocks
    ensures BlockOK(blocks, segs, w, b)
  {}

  /** No block starts where the guard stands. */
  lemma EndIsFree(blocks: Blocks, segs: seq<Segment>, w: Words, s: Segment)
    requires Laid(blocks, segs, w) && s in segs
    ensures End(s) !in blocks
  {
    assert SegmentOK(blocks, w, s);
    if End(s) in blocks { NotGuard(blocks, segs, w, End(s)); }
  }

  lemma NotGuard(blocks: Blocks, segs: seq<Segment>, w: Words, b: int)
    requires Laid(blocks, segs, w) && b in blocks
    ensures b in w.size && w.size[b].kind != Guard
  {
    assert BlockOK(blocks, segs, w, b);
  }

  lemma MergeElsewhere(blocks: Blocks, segs: seq<Segment>, w: Words, s: Segment, a: int, e: int, used: bool, b: int)
    requires Laid(blocks, segs, w) && Run(blocks, s, a, e) && b in blocks && (b < a || b > e)
    ensures BlockOK(Merge(blocks, a, e, used, s), segs, SetBlock(w, a, KindOf(used), e - a), b)
  {
    assert BlockOK(blocks, segs, w, b);
    RunInside(blocks, segs, w, s, a, e);
    if b < a {
      MergeBefore(blocks, segs, w, s, a, e, used, b);
    } else {
      MergeAfter(blocks, segs, w, s, a, e, used, b);
    }
  }

  lemma MergeAfter(blocks: Blocks, segs: seq<Segment>, w: Words, s: Segment, a: int, e: int, used: bool, b: int)
    requires Laid(blocks, segs, w) && Run(blocks, s, a, e) && b in blocks && b > e
    ensures BlockOK(Merge(blocks, a, e, used, s), segs, SetBlock(w, a, KindOf(used), e - a), b)
  {
    assert BlockOK(blocks, segs, w, b);
    var p := b - w.prev[b].size;
    if b != First(blocks[b].seg) && a <= p < e { RunMember(blocks, segs, w, s, a, e, p); }
    hide Laid, SegmentOK, BlockOK;
    KeptOK(blocks, segs, w, Merge(blocks, a, e, used, s), SetBlock(w, a, KindOf(used), e - a), b);
  }

  lemma MergeBefore(blocks: Blocks, segs: seq<Segment>, w: Words, s: Segment, a: int, e: int, used: bool, b: int)
    requires Laid(blocks, segs, w) && Run(blocks, s, a, e) && b in blocks && b < a
    ensures BlockOK(Merge(blocks, a, e, used, s), segs, SetBlock(w, a, KindOf(used), e - a), b)
  {
    assert BlockOK(blocks, segs, w, b);
    assert b + blocks[b].size <= a;
    var p := b - w.prev[b].size;
    assert p <= b;
    hide Laid, SegmentOK, BlockOK;
    KeptOK(blocks, segs, w, Merge(blocks, a, e, used, s), SetBlock(w, a, KindOf(used), e - a), b);
  }

  /** A block keeps its standing if it, its neighbours and its words are as before. */
  lemma KeptOK(blocks: Blocks, segs: seq<Segment>, w: Words, blocks': Blocks, w': Words, b: int)
    requires b in blocks && BlockOK(blocks, segs, w, b) && b in blocks' && blocks'[b] == blocks[b]
    requires var e := b + blocks[b].size;
      && (e in blocks ==> e in blocks' && blocks'[e].seg == blocks[e].seg)
      && e in w'.prev && w'.prev[e] == w.prev[e]
    requires b in w'.size && w'.size[b] == w.size[b] && b in w'.prev && w'.prev[b] == w.prev[b]
    requires b != First(blocks[b].seg) ==> var p := b - w.prev[b].size; p in blocks' && blocks'[p] == blocks[p]
    ensures BlockOK(blocks', segs, w', b)
  {}

  // ----- splitting a block

  /** Block `b` cut after `t` bytes. */
  function Split(blocks: Blocks, b: int, t: nat, used: bool, restUsed: bool): Blocks
    requires b in blocks && t <= blocks[b].size
  {
    var k := blocks[b];
    blocks[b := Block(t, used, k.seg)][b + t := Block(k.size - t, restUsed, k.seg)]
  }

  function SplitWords(w: Words, b: int, n: nat, t: nat, used: bool, restUsed: bool): Words
    requires t <= n
  {
    SetBlock(SetBlock(w, b, KindOf(used), t), b + t, KindOf(restUsed), n - t)
  }

  lemma SplitOK(blocks: Blocks, segs: seq<Segment>, w: Words, b: int, t: nat, used: bool, restUsed: bool)
    requires Laid(blocks, segs, w) && b in blocks
    requires MIN_BLOCK <= t && t + MIN_BLOCK <= blocks[b].size && t % ALIGNMENT == 0
    ensures Laid(Split(blocks, b, t, used, restUsed), segs, SplitWords(w, b, blocks[b].size, t, used, restUsed))
  {
    hide BlockOK, SegmentOK, NoOverlap, SplitWords, SegmentsApart;
    var n := blocks[b].size;
    var blocks', w' := Split(blocks, b, t, used, restUsed), SplitWords(w, b, n, t, used, restUsed);
    SplitNew(blocks, segs, w, b, t, used, restUsed);
    forall s | s in segs ensures SegmentOK(blocks', w', s) { SplitSegment(blocks, segs, w, b, t, used, restUsed, s); }
    forall c | c in blocks' ensures BlockOK(blocks', segs, w', c) {
      if c != b && c != b + t { SplitKeeps(blocks, segs, w, b, t, used, restUsed, c); }
    }
    SplitNoOverlap(blocks, b, t, used, restUsed);
  }

  lemma SplitNoOverlap(blocks: Blocks, b: int, t: nat, used: bool, restUsed: bool)
    requires NoOverlap(blocks) && b in blocks && 0 < t < blocks[b].size
    ensures NoOverlap(Split(blocks, b, t, used, restUsed))
  {
    var blocks', n := Split(blocks, b, t, used, restUsed), blocks[b].size;
    forall c, d | c in blocks' && d in blocks' && c < d ensures c + blocks'[c].size <= d {
      if c == b || c == b + t {
        if d != b + t { assert b + blocks[b].size <= d; }
      } else if d == b + t {
        assert c < b ==> c + blocks[c].size <= b;
        assert b < c ==> b + n <= c;
      } else {
        assert c + blocks[c].size <= d;
      }
    }
  }

  lemma SplitNew(blocks: Blocks, segs: seq<Segment>, w: Words, b: int, t: nat, used: bool, restUsed: bool)
    requires Laid(blocks, segs, w) && b in blocks
    requires MIN_BLOCK <= t && t + MIN_BLOCK <= blocks[b].size && t % ALIGNMENT == 0
    ensures b + t !in blocks
    ensures var blocks', w' := Split(blocks, b, t, used, restUsed), SplitWords(w, b, blocks[b].size, t, used, restUsed);
      BlockOK(blocks', segs, w', b) && BlockOK(blocks', segs, w', b + t)
  {
    assert BlockOK(blocks, segs, w, b);
    AlignedGap(b, t);
    AlignedGap(t, blocks[b].size);
  }

  lemma SplitSegment(blocks: Blocks, segs: seq<Segment>, w: Words, b: int, t: nat, used: bool, restUsed: bool,
      s: Segment)
    requires Laid(blocks, segs, w) && b in blocks && s in segs
    requires MIN_BLOCK <= t && t + MIN_BLOCK <= blocks[b].size
    ensures SegmentOK(Split(blocks, b, t, used, restUsed), SplitWords(w, b, blocks[b].size, t, used, restUsed), s)
  {
    assert BlockOK(blocks, segs, w, b) && SegmentOK(blocks, w, s);
    if s != blocks[b].seg { TwoSegments(segs, s, blocks[b].seg); }
  }

  lemma SplitKeeps(blocks: Blocks, segs: seq<Segment>, w: Words, b: int, t: nat, used: bool, restUsed: bool, c: int)
    requires Laid(blocks, segs, w) && b in blocks && c in blocks && c != b
    requires MIN_BLOCK <= t && t + MIN_BLOCK <= blocks[b].size
    ensures BlockOK(Split(blocks, b, t, used, restUsed), segs, SplitWords(w, b, blocks[b].size, t, used, restUsed), c)
  {
    assert BlockOK(blocks, segs, w, c) && BlockOK(blocks, segs, w, b);
    if c < b { assert c + blocks[c].size <= b; } else { assert b + blocks[b].size <= c; }
  }

  // ----- whole segments

  /** A segment of one block, entered at position `k` of the list. */
  function Insert(segs: seq<Segment>, k: nat, s: Segment): seq<Segment>
    requires k <= |segs|
  {
    segs[..k] + [s] + segs[k..]
  }

  function Whole(s: Segment, used: bool): Block
    requires s.size >= SEGMENT_HEADER + HEADER
  {
    Block(s.size - SEGMENT_HEADER - HEADER, used, s)
  }

  /** First-block mark, guard and the one block's own words. */
  function SegmentWords(w: Words, s: Segment, used: bool): Words
    requires s.size >= SEGMENT_HEADER + HEADER
  {
    var w1 := Words(w.size[End(s) := GUARD_MARK], w.prev[First(s) := FIRST_MARK]);
    SetBlock(w1, First(s), KindOf(used), s.size - SEGMENT_HEADER - HEADER)
  }

  ghost predicate FreshSegment(segs: seq<Segment>, s: Segment) {
    && s.addr > 0 && s.addr % ALIGNMENT == 0 && s.size % ALIGNMENT == 0
    && SEGMENT_HEADER + MIN_BLOCK + HEADER <= s.size && s.addr + s.size <= WORD
    && forall t :: t in segs ==> Apart(s, t)
  }

  lemma AddSegmentOK(blocks: Blocks, segs: seq<Segment>, w: Words, k: nat, s: Segment, used: bool)
    requires Laid(blocks, segs, w) && k <= |segs| && FreshSegment(segs, s)
    ensures First(s) !in blocks
    ensures Laid(blocks[First(s) := Whole(s, used)], Insert(segs, k, s), SegmentWords(w, s, used))
  {
    hide Laid, SegmentOK, BlockOK, SegmentWords;
    var blocks', segs', w' := blocks[First(s) := Whole(s, used)], Insert(segs, k, s), SegmentWords(w, s, used);
    AddSegmentRoom(blocks, segs, w, s, used);
    AddSegmentList(blocks, segs, w, k, s);
    forall t | t in segs' ensures SegmentOK(blocks', w', t) { AddSegmentOther(blocks, segs, w, k, s, used, t); }
    forall b | b in blocks' ensures BlockOK(blocks', segs', w', b) {
      AddSegmentBlock(blocks, segs, w, k, s, used, b);
    }
    LaidWhen(blocks', segs', w');
  }

  lemma LaidWhen(blocks: Blocks, segs: seq<Segment>, w: Words)
    requires SegmentsApart(segs) && NoOverlap(blocks)
    requires forall s {:trigger SegmentOK(blocks, w, s)} :: s in segs ==> SegmentOK(blocks, w, s)
    requires forall b {:trigger BlockOK(blocks, segs, w, b)} :: b in blocks ==> BlockOK(blocks, segs, w, b)
    ensures Laid(blocks, segs, w)
  {
    hide SegmentOK, BlockOK;
  }

  lemma AddSegmentList(blocks: Blocks, segs: seq<Segment>, w: Words, k: nat, s: Segment)
    requires Laid(blocks, segs, w) && k <= |segs| && FreshSegment(segs, s)
    ensures SegmentsApart(Insert(segs, k, s))
  {
    InsertApart(segs, k, s);
  }

  lemma AddSegmentRoom(blocks: Blocks, segs: seq<Segment>, w: Words, s: Segment, used: bool)
    requires Laid(blocks, segs, w) && FreshSegment(segs, s)
    ensures First(s) !in blocks && NoOverlap(blocks[First(s) := Whole(s, used)])
  {
    hide SegmentOK, BlockOK;
    forall b | b in blocks ensures b >= s.addr + s.size || b + blocks[b].size + HEADER <= s.addr {
      BlockApart(blocks, segs, w, s, b);
    }
    if First(s) in blocks { PositiveSize(blocks, segs, w, First(s)); }
  }

  lemma PositiveSize(blocks: Blocks, segs: seq<Segment>, w: Words, b: int)
    requires Laid(blocks, segs, w) && b in blocks
    ensures blocks[b].size > 0
  {
    assert BlockOK(blocks, segs, w, b);
  }

  lemma AddSegmentOther(blocks: Blocks, segs: seq<Segment>, w: Words, k: nat, s: Segment, used: bool, t: Segment)
    requires Laid(blocks, segs, w) && k <= |segs| && FreshSegment(segs, s) && First(s) !in blocks &&
      t in Insert(segs, k, s)
    ensures SegmentOK(blocks[First(s) := Whole(s, used)], SegmentWords(w, s, used), t)
  {
    hide BlockOK;
    if t != s { assert SegmentOK(blocks, w, t) && Apart(s, t); }
  }

  lemma AddSegmentBlock(blocks: Blocks, segs: seq<Segment>, w: Words, k: nat, s: Segment, used: bool, b: int)
    requires Laid(blocks, segs, w) && k <= |segs| && FreshSegment(segs, s) && b in blocks[First(s) := Whole(s, used)]
    ensures BlockOK(blocks[First(s) := Whole(s, used)], Insert(segs, k, s), SegmentWords(w, s, used), b)
  {
    if First(s) in blocks { BlockApart(blocks, segs, w, s, First(s)); }
    if b == First(s) {
      EndAligned(s);
      AlignedGap(First(s), End(s));
      assert s in Insert(segs, k, s);
    } else {
      AddSegmentKeeps(blocks, segs, w, k, s, used, b);
    }
  }

  lemma BlockApart(blocks: Blocks, segs: seq<Segment>, w: Words, s: Segment, b: int)
    requires Laid(blocks, segs, w) && b in blocks && forall t :: t in segs ==> Apart(s, t)
    ensures var k := blocks[b]; b >= s.addr + s.size || b + k.size + HEADER <= s.addr
  {
    assert BlockOK(blocks, segs, w, b);
    assert Apart(s, blocks[b].seg);
  }

  lemma AddSegmentKeeps(blocks: Blocks, segs: seq<Segment>, w: Words, k: nat, s: Segment, used: bool, b: int)
    requires Laid(blocks, segs, w) && k <= |segs| && FreshSegment(segs, s) && b in blocks && First(s) !in blocks
    ensures BlockOK(blocks[First(s) := Whole(s, used)], Insert(segs, k, s), SegmentWords(w, s, used), b)
  {
    assert BlockOK(blocks, segs, w, b);
    BlockApart(blocks, segs, w, s, b);
    assert forall t :: t in segs ==> t in Insert(segs, k, s);
  }

  lemma InsertApart(segs: seq<Segment>, k: nat, s: Segment)
    requires SegmentsApart(segs) && k <= |segs| && forall t :: t in segs ==> Apart(s, t)
    ensures SegmentsApart(Insert(segs, k, s))
  {
    var segs' := Insert(segs, k, s);
    forall i, j | 0 <= i < j < |segs'| ensures Apart(segs'[i], segs'[j]) {
      var i', j' := if i < k then i else i - 1, if j < k then j else j - 1;
      if i != k { assert segs'[i] == segs[i'] && segs[i'] in segs; }
      if j != k { assert segs'[j] == segs[j'] && segs[j'] in segs; }
      if i != k && j != k { assert Apart(segs[i'], segs[j']); }
    }
  }

  function Omit(segs: seq<Segment>, k: nat): seq<Segment>
    requires k < |segs|
  {
    segs[..k] + segs[k + 1..]
  }

  /** A segment that is one single block, taken out of the list. */
  lemma DropSegmentOK(blocks: Blocks, segs: seq<Segment>, w: Words, k: nat)
    requires Laid(blocks, segs, w) && k < |segs|
    requires var s := segs[k]; First(s) in blocks && First(s) + blocks[First(s)].size == End(s)
    ensures Laid(blocks - {First(segs[k])}, Omit(segs, k), w)
    ensures forall t :: t in Omit(segs, k) ==> Apart(segs[k], t)
  {
    var s := segs[k];
    var blocks', segs' := blocks - {First(s)}, Omit(segs, k);
    OmitApart(segs, k);
    assert SegmentOK(blocks, w, s);
    forall t | t in segs' ensures SegmentOK(blocks', w, t) { assert SegmentOK(blocks, w, t); }
    forall b | b in blocks' ensures BlockOK(blocks', segs', w, b) {
      assert BlockOK(blocks, segs, w, b);
      DropSegmentKeeps(blocks, segs, w, k, b);
    }
    forall b, c | b in blocks' && c in blocks' &&
      b < c ensures b + blocks'[b].size <= c { assert b + blocks[b].size <= c; }
  }

  lemma OmitApart(segs: seq<Segment>, k: nat)
    requires SegmentsApart(segs) && k < |segs|
    ensures SegmentsApart(Omit(segs, k)) && forall t :: t in Omit(segs, k) ==> Apart(segs[k], t) && t in segs
    ensures forall t :: t in segs && t != segs[k] ==> t in Omit(segs, k)
  {
    var segs' := Omit(segs, k);
    forall i, j | 0 <= i < j < |segs'| ensures Apart(segs'[i], segs'[j]) {
      assert Apart(segs[if i < k then i else i + 1], segs[if j < k then j else j + 1]);
    }
    forall t | t in segs' ensures Apart(segs[k], t) && t in segs {
      var i :| 0 <= i < |segs'| && segs'[i] == t;
      var j := if i < k then i else i + 1;
      assert segs[j] == t;
      if j < k { assert Apart(segs[j], segs[k]); } else { assert Apart(segs[k], segs[j]); }
    }
    forall t | t in segs && t != segs[k] ensures t in segs' {
      var i :| 0 <= i < |segs| && segs[i] == t;
      assert segs'[if i < k then i else i - 1] == t;
    }
  }

  lemma DropSegmentKeeps(blocks: Blocks, segs: seq<Segment>, w: Words, k: nat, b: int)
    requires Laid(blocks, segs, w) && k < |segs| && b in blocks && b != First(segs[k])
    requires var s := segs[k]; First(s) in blocks && First(s) + blocks[First(s)].size == End(s)
    ensures BlockOK(blocks - {First(segs[k])}, Omit(segs, k), w, b)
  {
    var s := segs[k];
    OmitApart(segs, k);
    assert BlockOK(blocks, segs, w, b) && BlockOK(blocks, segs, w, First(s)) && SegmentOK(blocks, w, s);
    if blocks[b].seg == s { OnlyBlock(blocks, segs, w, s, b); }
  }

  lemma OnlyBlock(blocks: Blocks, segs: seq<Segment>, w: Words, s: Segment, b: int)
    requires Laid(blocks, segs, w) && b in blocks && blocks[b].seg == s && First(s) in blocks
    requires First(s) + blocks[First(s)].size == End(s)
    ensures b == First(s)
  {
    assert BlockOK(blocks, segs, w, b);
  }
}
