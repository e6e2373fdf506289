/** The segment storage below the heap: it may refuse, and otherwise hands out aligned ranges of the
    address space that do not meet any segment in use. */
module Storage {
  import opened Bits
  import opened Sizes
  import opened HeapLayout
  import opened Sums

  ghost predicate Aligned(segs: seq<Segment>) {
    forall s :: s in segs ==> s.addr > 0 && s.addr % ALIGNMENT == 0 && s.size % ALIGNMENT == 0
  }

  /** What the storage said to a request for a segment of `size` bytes: its address, or null. */
  datatype Reply = Reply(size: nat, addr: int)

  class Provider {
    ghost var replies: seq<Reply>

    constructor ()
      ensures replies == []
    {
      replies := [];
    }

    /** A new segment of `size` bytes, or null. */
    method Alloc(segs: seq<Segment>, size: nat) returns (addr: int)
      requires Aligned(segs)
      modifies this
      ensures replies == old(replies) + [Reply(size, addr)]
      ensures addr == 0 || (addr > 0 && addr % ALIGNMENT == 0 && addr + size <= WORD)
      ensures addr != 0 ==> forall s :: s in segs ==> Apart(Segment(addr, size), s)
      ensures addr != 0 ==> SegmentTotal(segs) + size < WORD
    {
      var top, total := Extent(segs);
      if * {
        addr := 0;
      } else {
        addr := if top + size <= WORD && total + size < WORD then top else 0;
      }
      replies := replies + [Reply(size, addr)];
    }

    /** Segment `k` resized to `size` bytes, in place or elsewhere, or null and nothing changed. */
    method Realloc(segs: seq<Segment>, k: nat, size: nat) returns (addr: int)
      requires Aligned(segs) && SegmentsApart(segs) && k < |segs| && segs[k].addr + segs[k].size <= WORD
      modifies this
      ensures replies == old(replies) + [Reply(size, addr)]
      ensures addr == 0 || (addr > 0 && addr % ALIGNMENT == 0 && addr + size <= WORD)
      ensures addr != 0 ==> forall s :: s in Omit(segs, k) ==> Apart(Segment(addr, size), s)
      ensures addr != 0 ==> SegmentTotal(segs) - segs[k].size + size < WORD
    {
      OmitApart(segs, k);
      OmitTotal(segs, k);
      var others := Omit(segs, k);
      var top, total := Extent(others);
      if * {
        addr := 0;
      } else if size <= segs[k].size && total + size < WORD {
        addr := segs[k].addr;
      } else {
        addr := if top + size <= WORD && total + size < WORD then top else 0;
      }
      replies := replies + [Reply(size, addr)];
    }
  }

  /** An aligned address behind all segments, and their total size. */
  method Extent(segs: seq<Segment>) returns (top: nat, total: nat)
    requires Aligned(segs)
    ensures top > 0 && top % ALIGNMENT == 0 && total == SegmentTotal(segs)
    ensures forall s :: s in segs ==> s.addr + s.size <= top
  {
    top, total := ALIGNMENT, 0;
    var i := 0;
    assert segs[0..] == segs;
    while i < |segs|
      invariant 0 <= i <= |segs| && top > 0 && top % ALIGNMENT == 0
      invariant forall j :: 0 <= j < i ==> segs[j].addr + segs[j].size <= top
      invariant total + SegmentTotal(segs[i..]) == SegmentTotal(segs)
    {
      assert segs[i] in segs && segs[i..][1..] == segs[i + 1..];
      AlignedGap(segs[i].addr, segs[i].size);
      if top < segs[i].addr + segs[i].size {
        top := segs[i].addr + segs[i].size;
      }
      total := total + segs[i].size;
      i := i + 1;
    }
  }
}
