/** Where free blocks are kept after each operation of the heap, and that a flush leaves no segment idle. */
module IndexTheorems {
  import opened Bits
  import opened Sizes
  import opened HeapLayout
  import opened HeapState
  import opened HeapSteps
  import opened HeapChanges
  import opened Effects
  import opened Requests
  import FS = FreeIndexState
  import FX = FreeIndexSteps

  // ----- the rest that is cut off

  /** A block put on the rest list is there, and other blocks stay where they are but for the evicted ones. */
  lemma RestedLists(x: FS.Index, y: FS.Index, b: int, n: nat, k: nat)
    requires FS.Inv(y) && FX.Rested(x, y, b, n, k)
    ensures FX.ListOf(y, b) == FX.RestList
    ensures forall c {:trigger FX.ListOf(y, c)} :: c in x.size ==>
      FX.ListOf(y, c) == FX.ListOf(x, c) || (c in FS.Ring(x, FS.REST) && FX.ListOf(y, c) == FX.ListFor(x.size[c]))
  {
    FX.RestRing(y);
    hide FS.Inv, FX.ListOf;
    assert b in FS.Ring(y, FS.REST);
  }

  /** The rest of a run is on the rest list if it is to be kept there, else on the free list of its size. */
  lemma RestGoesTo(x: FS.Index, y: FS.Index, b: int, n: nat, trueSize: nat, keepRest: bool)
    requires FS.Inv(y) && RestPlaced(x, y, b, n, trueSize, keepRest)
    ensures n >= trueSize + MIN_BLOCK ==>
      FX.ListOf(y, b + trueSize) == if keepRest then FX.RestList else FX.ListFor(n - trueSize)
    ensures forall c {:trigger FX.ListOf(y, c)} :: c in x.size && !(keepRest && c in FS.Ring(x, FS.REST)) ==>
      FX.ListOf(y, c) == FX.ListOf(x, c)
  {
    hide FS.Inv, FX.ListOf, FX.Rested, FX.Added, FX.ListFor, FS.Ring;
    if n >= trueSize + MIN_BLOCK {
      if keepRest {
        var k :| FX.Rested(x, y, b + trueSize, n - trueSize, k);
        RestedLists(x, y, b + trueSize, n - trueSize, k);
      } else {
        AddedLists(x, y, b + trueSize, n - trueSize);
      }
    }
  }

  lemma CutGoesTo(x: FS.Index, y: FS.Index, c: int, present: bool, b: int, n: nat, trueSize: nat, keepRest: bool)
    requires FS.Inv(y) && RemovedThenPlaced(x, y, c, present, b, n, trueSize, keepRest) && n >= trueSize + MIN_BLOCK
    ensures FX.ListOf(y, b + trueSize) == if keepRest then FX.RestList else FX.ListFor(n - trueSize)
  {
    var m :| RemovedIf(x, m, c, present) && RestPlaced(m, y, b, n, trueSize, keepRest);
    hide RestPlaced, RemovedIf, FS.Inv, FX.ListOf;
    RestGoesTo(m, y, b, n, trueSize, keepRest);
  }

  /** The run a granted allocation is cut from. */
  ghost function RunLength(p: Picture, plan: Plan, b: int, trueSize: nat): nat
    requires Sized(p.heap.books) && trueSize < WORD
  {
    match plan
    case FromIndex => if b in p.index.size then p.index.size[b] else 0
    case NewSegment => Room(Segment(b - SEGMENT_HEADER, SegmentSize(p.heap.books.unit, trueSize)))
    case _ => 0
  }

  /** After an allocation the rest is on the rest list if and only if a new segment was made for the request
      alone; otherwise it is on the free list of its size. */
  lemma AllocRest(p: Picture, req: nat, trueSize: nat, p': Picture, r: Outcome, log: Replies, log': Replies)
    requires FS.Inv(p'.index) && AllocDone(p, req, trueSize, p', r, log, log') && r.Done?
    ensures var plan, b := AllocPlan(p.heap, p.index, req, trueSize), r.ptr - HEADER;
      var n := RunLength(p, plan, b, trueSize);
      n >= trueSize + MIN_BLOCK ==>
        FX.ListOf(p'.index, b + trueSize) ==
          if plan == NewSegment && KeepsRest(p.heap.books, trueSize) then FX.RestList else FX.ListFor(n - trueSize)
  {
    hide FS.Inv, FX.ListOf, AllocAnswer, AllocTotals, Asked, AllocPlan, SegmentSize, Handed, RestPlaced,
      RemovedThenPlaced;
    var plan, b := AllocPlan(p.heap, p.index, req, trueSize), r.ptr - HEADER;
    var n := RunLength(p, plan, b, trueSize);
    if n >= trueSize + MIN_BLOCK {
      if plan == FromIndex {
        CutGoesTo(p.index, p'.index, b, true, b, n, trueSize, false);
      } else if plan == NewSegment {
        RestGoesTo(p.index, p'.index, b, n, trueSize, KeepsRest(p.heap.books, trueSize));
      }
    }
  }

  /** The run a block reallocated in place or with its segment is cut from. */
  ghost function NewRunLength(p: Picture, plan: Plan, b: int, trueSize: nat): int
    requires Sized(p.heap.books) && trueSize < WORD && b in p.heap.live
  {
    match plan
    case InPlace =>
      if trueSize <= p.heap.live[b].size < trueSize + MIN_BLOCK then 0 else Reach(p.heap, b) - b
    case ResizeSegment => Room(Segment(b, SegmentSize(p.heap.books.unit, trueSize)))
    case _ => 0
  }

  /** After a reallocation the rest is on the rest list if and only if a block alone in its segment was stretched
      or its segment was resized; otherwise, a shrink included, it is on the free list of its size. */
  lemma ReallocRest(p: Picture, b: int, req: nat, trueSize: nat, p': Picture, r: Outcome, log: Replies, log': Replies)
    requires FS.Inv(p'.index) && ReallocDone(p, b, req, trueSize, p', r, log, log') && r.Done?
    ensures var plan, c := ReallocPlan(p.heap, p.index, b, req, trueSize), r.ptr - HEADER;
      var n := NewRunLength(p, plan, b, trueSize);
      var stretched := p.heap.live[b].size < trueSize && Alone(p.heap, b);
      n >= trueSize + MIN_BLOCK ==>
        FX.ListOf(p'.index, c + trueSize) ==
          if plan == ResizeSegment || (plan == InPlace && stretched) then FX.RestList else FX.ListFor(n - trueSize)
  {
    hide FS.Inv, FX.ListOf, ReallocTotals, Asked, AllocPlan, SegmentSize, Handed, RestPlaced, RemovedThenPlaced,
      Alone, Reach,
      ResizeOverLimit, TakenAndFreed, Relabelled, Exchanged, Uprooted, Entered, Stretched, CacheHas, Chosen;
    var plan, c := ReallocPlan(p.heap, p.index, b, req, trueSize), r.ptr - HEADER;
    var n := NewRunLength(p, plan, b, trueSize);
    if n >= trueSize + MIN_BLOCK {
      if plan == InPlace {
        InPlaceRest(p, b, req, trueSize, p', n);
      } else if plan == ResizeSegment {
        var s := Segment(c - SEGMENT_HEADER, SegmentSize(p.heap.books.unit, trueSize));
        var k :| SegmentResized(p, b, k, s, trueSize, req, p');
        CutGoesTo(p.index, p'.index, Next(p.heap, b), HasNext(p.heap, b), First(s), n, trueSize, true);
      }
    }
  }

  lemma InPlaceRest(p: Picture, b: int, req: nat, trueSize: nat, p': Picture, n: nat)
    requires FS.Inv(p'.index) && b in p.heap.live && n == Reach(p.heap, b) - b >= trueSize + MIN_BLOCK
    requires StretchedTo(p, b, trueSize, req, p.heap.live[b].size < trueSize && Alone(p.heap, b), p')
    ensures FX.ListOf(p'.index, b + trueSize) ==
      if p.heap.live[b].size < trueSize && Alone(p.heap, b) then FX.RestList else FX.ListFor(n - trueSize)
  {
    hide FS.Inv, FX.ListOf, Handed, RemovedThenPlaced, Alone, Reach, Stretched;
    CutGoesTo(p.index, p'.index, Next(p.heap, b), HasNext(p.heap, b), b, n, trueSize,
              p.heap.live[b].size < trueSize && Alone(p.heap, b));
  }

  // ----- a block given back

  lemma OffLists(x: FS.Index, y: FS.Index, c: int, inC: bool, d: int, inD: bool)
    requires BothOff(x, y, c, inC, d, inD)
    ensures y.size == x.size - (if inC then {c} else {}) - (if inD then {d} else {})
    ensures forall e {:trigger FX.ListOf(y, e)} :: e in y.size ==> FX.ListOf(y, e) == FX.ListOf(x, e)
  {
    hide FX.ListOf;
  }

  /** The blocks of the index but for the free neighbours of `b`. */
  ghost function Left(p: Picture, b: int): map<int, nat>
    requires b in p.heap.blocks && b + p.heap.blocks[b].size in p.heap.words.size && b in p.heap.words.prev
  {
    var next, before := b + p.heap.blocks[b].size, b - p.heap.words.prev[b].size;
    p.index.size - (if p.heap.words.size[next].kind == Free then {next} else {})
      - (if p.heap.words.prev[b].kind == Free then {before} else {})
  }

  /** The run around a block given back is on the free list of its size, its free neighbours have left, and every
      other block is where it was; nothing comes to the rest list. */
  lemma GivenBackLists(p: Picture, b: int, prevFirst: bool, p': Picture)
    requires GivenBack(p, b, prevFirst, p')
    ensures var s, a, e := p.heap.blocks[b].seg, RunStart(p.heap, b), RunEnd(p.heap, b);
      var left := Left(p, b);
      && (if a == First(s) && e == End(s) then p'.index.size == left
          else a < e && p'.index.size == left[a := e - a] && FX.ListOf(p'.index, a) == FX.ListFor(e - a))
      && (forall c {:trigger FX.ListOf(p'.index, c)} :: c in left ==> FX.ListOf(p'.index, c) == FX.ListOf(p.index, c))
      && Tidied(p.index, p'.index)
  {
    hide GaveBack, FX.Added;
    var s, a, e := p.heap.blocks[b].seg, RunStart(p.heap, b), RunEnd(p.heap, b);
    if a == First(s) && e == End(s) {
      NeighbourLists(p, b, prevFirst, p'.index);
      hide FX.ListOf, NeighboursOff, FX.ListFor;
    } else {
      var m :| NeighboursOff(p, b, prevFirst, m) && a < e && FX.Added(m, p'.index, a, e - a);
      NeighbourLists(p, b, prevFirst, m);
      AddedLists(m, p'.index, a, e - a);
      hide FX.ListOf, NeighboursOff, FX.ListFor, RunStart, RunEnd;
    }
  }

  lemma NeighbourLists(p: Picture, b: int, prevFirst: bool, y: FS.Index)
    requires NeighboursOff(p, b, prevFirst, y)
    ensures y.size == Left(p, b)
    ensures forall c {:trigger FX.ListOf(y, c)} :: c in y.size ==> FX.ListOf(y, c) == FX.ListOf(p.index, c)
  {
    var next, before := b + p.heap.blocks[b].size, b - p.heap.words.prev[b].size;
    var inNext, inBefore := p.heap.words.size[next].kind == Free, p.heap.words.prev[b].kind == Free;
    hide BothOff, FX.ListOf;
    if prevFirst { OffLists(p.index, y, before, inBefore, next, inNext); }
    else { OffLists(p.index, y, next, inNext, before, inBefore); }
  }

  lemma AddedLists(x: FS.Index, y: FS.Index, b: int, n: nat)
    requires FX.Added(x, y, b, n)
    ensures y.size == x.size[b := n] && FX.ListOf(y, b) == FX.ListFor(n)
    ensures forall c {:trigger FX.ListOf(y, c)} :: c in x.size ==> FX.ListOf(y, c) == FX.ListOf(x, c)
  {
    hide FX.ListOf;
  }

  /** Giving a block back leaves no segment that is one free block behind. */
  lemma GaveBackIdle(h: HeapState, b: int, h': HeapState)
    requires GaveBack(h, b, h')
    ensures NoneIdled(h, h')
  {
    hide RunStart, RunEnd, SetBlock;
  }

  /** The same for a block freed by its owner. */
  lemma FreedTidies(p: Picture, b: int, p': Picture)
    requires Freed(p, b, p')
    ensures Tidied(p.index, p'.index) && NoneIdled(p.heap, p'.heap)
  {
    hide GivenBack, FX.ListOf;
    var h, n := p.heap, p.heap.live[b].size;
    if !(Small(n) && h.books.cached < CACHE_SIZE) {
      var q := Picture(h.(live := h.live - {b}, books := h.books.(size := h.books.size - n)), p.index);
      GivenBackTidies(q, b, false, p');
    }
  }

  lemma GivenBackTidies(p: Picture, b: int, prevFirst: bool, p': Picture)
    requires GivenBack(p, b, prevFirst, p')
    ensures Tidied(p.index, p'.index) && NoneIdled(p.heap, p'.heap)
  {
    GivenBackLists(p, b, prevFirst, p');
    GaveBackIdle(p.heap, b, p'.heap);
    hide GivenBack, Tidied, NoneIdled;
  }

  // ----- a refused request

  lemma TidiedOn(x: FS.Index, y: FS.Index, z: FS.Index)
    requires Tidied(x, y) && Tidied(y, z)
    ensures Tidied(x, z)
  {
    hide FX.ListOf;
  }

  lemma {:induction false} FlushTidies(p: Picture, lists: seq<nat>, p': Picture)
    requires Flushed(p, lists, p')
    ensures Tidied(p.index, p'.index) && NoneIdled(p.heap, p'.heap)
    decreases |lists|
  {
    hide FlushStep, FX.ListOf;
    if lists != [] {
      var earlier, last := lists[..|lists| - 1], lists[|lists| - 1];
      var m :| Flushed(p, earlier, m) && FlushStep(m, last, p');
      FlushTidies(p, earlier, m);
      StepTidies(m, last, p');
      TidiedOn(p.index, m.index, p'.index);
    }
  }

  lemma StepTidies(p: Picture, i: nat, p': Picture)
    requires FlushStep(p, i, p')
    ensures Tidied(p.index, p'.index) && NoneIdled(p.heap, p'.heap)
  {
    hide GivenBack, FX.ListOf;
    GivenBackTidies(Picture(FlushedOne(p.heap, i), p.index), p.heap.cache[i][0], true, p');
  }

  lemma ReserveTidies(p: Picture, p': Picture)
    requires ReserveFreed(p, p')
    ensures Tidied(p.index, p'.index) && NoneIdled(p.heap, p'.heap)
  {
    hide Freed, FX.ListOf;
    var k := p.heap.books;
    var q := p.(heap := p.heap.(books := k.(reserve := NULL, overflow := if k.overflow == 0 then 1 else 2)));
    if k.reserve != NULL { FreedTidies(q, k.reserve - HEADER, p'); }
  }

  /** A refused request puts no block on the rest list that was not there, and no segment that its flush emptied
      is left behind. */
  lemma RefusedTidies(p: Picture, flush: bool, p': Picture)
    requires Refused(p, flush, p')
    ensures Tidied(p.index, p'.index) && NoneIdled(p.heap, p'.heap)
  {
    hide ReserveFreed, Flushed, FX.ListOf;
    if flush {
      var m :| CacheFlushed(p, m) && ReserveFreed(m, p');
      var lists :| Ascending(lists) && Flushed(p, lists, m);
      FlushTidies(p, lists, m);
      ReserveTidies(m, p');
      TidiedOn(p.index, m.index, p'.index);
    } else {
      ReserveTidies(p, p');
    }
  }
}
