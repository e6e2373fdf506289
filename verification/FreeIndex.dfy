/** The free index in place: the link words of free blocks, the bucket heads and the bitmaps, as the
    allocator's list functions update them. */
module FreeIndex {
  import opened Bits
  import opened Sizes
  import opened Paths
  import opened RingSets
  import opened Tries
  import opened FreeIndexState
  import opened FreeIndexSteps
  import opened TrieSearch

  class FreeIndex {
    var size: map<int, nat>
    var links: LinkWords
    var heads: Heads
    ghost var shape: Shape

    ghost function State(): Index
      reads this
    {
      Assemble(size, links, heads, shape)
    }

    ghost predicate Valid()
      reads this
    {
      Inv(State())
    }

    constructor ()
      ensures Valid() && size == map[]
    {
      new;
      Init();
    }

    /** `zend_mm_init`: every ring empty, every trie empty. */
    method Init()
      modifies this
      ensures Valid() && size == map[]
    {
      hide Inv;
      var self, roots := EmptyHeads();
      ghost var none := map h | h in self :: [];
      size, links := map[], LinkWords(self, self, map[], map[], map[]);
      heads := Heads(roots, 0, 0, 0);
      shape := Shape(none, map[], map[], map[]);
      EmptyOK(self, none, roots);
    }

    /** `zend_mm_add_to_free_list` for a block `b` whose size word is `n`. */
    method AddToFreeList(b: int, n: nat)
      requires Valid() && b > 0 && b !in size && BlockSize(n)
      modifies this
      ensures Valid()
      ensures Added(old(State()), State(), b, n)
    {
      hide Inv, Added;
      if !Small(n) {
        AddLarge(b, n);
      } else {
        AddSmall(b, n);
      }
    }

    method AddSmall(b: int, n: nat)
      requires Valid() && b > 0 && b !in size && BlockSize(n) && Small(n)
      modifies this
      ensures Valid()
      ensures Added(old(State()), State(), b, n)
    {
      ghost var x := State();
      var index := BucketIndex(n);
      var head := SmallHead(index);
      SmallHeadLinks(x, head);
      hide Inv, Added;
      if links.prev[head] == head {
        heads := heads.(bitmap := SetBit(heads.bitmap, index));
      }
      var first := links.next[head];
      links := links.(prev := links.prev[first := b][b := head], next := links.next[head := b][b := first]);
      size := size[b := n];
      ghost var y := AddedSmall(x, b, n);
      shape := ShapeOf(y);
      AddedSmallOK(x, b, n);
      AddedSmallEffect(x, b, n);
      assert State() == y;
    }

    method AddLarge(b: int, n: nat)
      requires Valid() && b > 0 && b !in size && BlockSize(n) && !Small(n)
      modifies this
      ensures Valid()
      ensures Added(old(State()), State(), b, n)
    {
      ghost var x := State();
      var index := HighBit(n);
      LargeIndex(x, n);
      var p, holder := BucketSlot(index), NULL;
      ghost var q := Pos(index, 1);
      if heads.bucket[index] == NULL {
        EmptyBucket(x, n);
      } else {
        p, holder, q := FindPlace(n, index);
      }
      hide Inv, Added, Belongs;
      if holder == NULL {
        AddNewNode(b, n, p, q);
      } else {
        AddBehind(b, n, holder);
      }
    }

    /** A block of a new size becomes a trie node in slot `p`; the bitmap bit of a new root is set. */
    method AddNewNode(b: int, n: nat, p: Slot, ghost q: Pos)
      requires Valid() && b > 0 && b !in size && BlockSize(n) && !Small(n)
      requires Vacant(State().trie, q) && Belongs(q, n) && p == SlotOf(State().trie, q)
      requires forall a :: a in shape.at && a in size ==> size[a] != n
      modifies this
      ensures Valid()
      ensures Added(old(State()), State(), b, n)
    {
      ghost var x := State();
      hide Inv, Added, Belongs;
      AddedNodeOK(x, q, b, n);
      AddedNodeEffect(x, q, b, n);
      NewNodeWords(size, links, heads, shape, q, b, n);
      shape := ShapeOf(AddedNode(x, q, b, n));
      size, links, heads := size[b := n], NewNodeLinks(links, p, b), NewNodeHeads(heads, p, b);
    }

    /** A block of a size already present goes into the ring of its node. */
    method AddBehind(b: int, n: nat, holder: int)
      requires Valid() && b > 0 && b !in size && BlockSize(n) && !Small(n)
      requires holder in shape.at && holder in size && size[holder] == n
      modifies this
      ensures Valid()
      ensures Added(old(State()), State(), b, n)
    {
      ghost var x := State();
      NodeLinks(x, holder);
      hide Inv, Added;
      AddedToRingOK(x, holder, b, n);
      AddedToRingEffect(x, holder, b, n);
      var after := links.next[holder];
      var l := links.(child0 := links.child0[b := NULL], child1 := links.child1[b := NULL]);
      l := l.(next := l.next[holder := b][b := after], prev := l.prev[after := b][b := holder], parent := l.parent[b := NoSlot]);
      ghost var y := AddedToRing(x, holder, b, n);
      assert Assemble(size[b := n], l, heads, ShapeOf(y)) == y;
      size, links, shape := size[b := n], l, ShapeOf(y);
    }

    /** `zend_mm_add_to_rest_list` for a block `b` whose size word is `n`; `k` blocks are evicted. */
    method AddToRestList(b: int, n: nat) returns (ghost k: nat)
      requires Valid() && b > 0 && b !in size && BlockSize(n)
      modifies this
      ensures Valid()
      ensures Rested(old(State()), State(), b, n, k)
    {
      hide Inv, Evicted, Rested, LargeCount, NoneLargeBut, BlockSize, AddedRest;
      ghost var x := State();
      k := MakeRoom();
      ghost var y := State();
      EvictDone(x, y, k);
      AppendRest(b, n);
      RestedAfter(x, y, State(), b, n, k);
    }

    /** The rest list emptied from its old end until it may take another large block. */
    method MakeRoom() returns (ghost k: nat)
      requires Valid()
      modifies this
      ensures Valid() && heads.restCount < MAX_REST
      ensures Evicted(old(State()), State(), k) && NoneLargeBut(old(State()), k)
    {
      ghost var x := State();
      k := 0;
      hide Inv, Evicted, OldestEvicted, LargeCount, NoneLargeBut;
      EvictNone(x);
      while heads.restCount >= MAX_REST
        invariant Valid() && Evicted(x, State(), k) && NoneLargeBut(x, k)
        decreases |Ring(State(), REST)|
      {
        ghost var y := State();
        RestFull(y);
        EvictOldest();
        EvictStep(x, y, State(), k);
        k := k + 1;
      }
    }

    /** The oldest block of the rest list goes to the free list of its size. */
    method EvictOldest()
      requires Valid() && Ring(State(), REST) != []
      modifies this
      ensures Valid()
      ensures OldestEvicted(old(State()), State())
    {
      ghost var x := State();
      hide Inv, OldestEvicted, Added, LargeCount, BitmapWithout, ShapeOf, Ring;
      Oldest(x);
      var p := links.next[REST];
      var n := size[p];
      var h := heads;
      if !Small(n) {
        h := h.(restCount := h.restCount - 1);
      }
      TakenOutWords(size, links, heads, shape, p, heads.bitmap);
      ghost var y := TakenOut(x, p, heads.bitmap);
      var prev, next := links.prev[p], links.next[p];
      shape := ShapeOf(y);
      size, heads := size - {p}, h;
      links := links.(next := links.next[prev := next], prev := links.prev[next := prev]);
      assert State() == y;
      AddToFreeList(p, n);
      OldestMoved(x, State());
    }

    method AppendRest(b: int, n: nat)
      requires Valid() && b > 0 && b !in size && BlockSize(n) && heads.restCount < MAX_REST
      modifies this
      ensures Valid()
      ensures State() == AddedRest(old(State()), b, n)
    {
      ghost var x := State();
      hide Inv, LargeCount, ShapeOf;
      AddedRestOK(x, b, n);
      RestLinks(x);
      var l, h := links, heads;
      if !Small(n) {
        l := l.(parent := l.parent[b := RestSlot]);
        h := h.(restCount := h.restCount + 1);
      }
      var prev := l.prev[REST];
      var next := l.next[prev];
      l := l.(prev := l.prev[next := b][b := prev], next := l.next[prev := b][b := next]);
      RestWords(size, links, heads, shape, b, n);
      shape := ShapeOf(AddedRest(x, b, n));
      size, links, heads := size[b := n], l, h;
    }

    /** `zend_mm_remove_from_free_list` */
    method RemoveFromFreeList(b: int)
      requires Valid() && b in size
      modifies this
      ensures Valid()
      ensures Removed(old(State()), State(), b)
    {
      BlockLinks(State(), b);
      hide Inv, Removed;
      if links.prev[b] == b {
        RemoveLoneNode(b);
      } else {
        RemoveFromRing(b);
      }
    }

    /** A trie node alone in its ring leaves the trie; a leaf below it takes its place. */
    method RemoveLoneNode(b: int)
      requires Valid() && b in size && b in links.prev && links.prev[b] == b
      modifies this
      ensures Valid()
      ensures Removed(old(State()), State(), b)
    {
      LoneNode(State(), b);
      hide Inv, Removed;
      var first := if links.child1[b] != NULL then links.child1[b] else links.child0[b];
      if first == NULL {
        RemoveLeaf(b);
      } else {
        RemoveInner(b);
      }
    }

    method RemoveLeaf(b: int)
      requires Valid() && b in shape.at && Ring(State(), b) == [] && b in links.parent && b in size && size[b] > 0
      requires b in links.child0 && links.child0[b] == NULL && b in links.child1 && links.child1[b] == NULL
      modifies this
      ensures Valid()
      ensures Removed(old(State()), State(), b)
    {
      ghost var x := State();
      hide Inv, Removed, StoreLink, ClearedHeads, LeafGone, ShapeOf, Ring;
      LeafDropped(size, links, heads, shape, b);
      LogBound(x, b);
      var index := HighBit(size[b]);
      var p := links.parent[b];
      shape := ShapeOf(LeafGone(x, b));
      size, links, heads := size - {b}, StoreLink(links, p, NULL), ClearedHeads(heads, p, index);
    }

    method RemoveInner(b: int)
      requires Valid() && b in shape.at && Ring(State(), b) == [] && shape.at[b] in shape.node &&
        shape.node[shape.at[b]] == b
      requires b in links.child0 && b in links.child1 && (links.child0[b] != NULL || links.child1[b] != NULL)
      modifies this
      ensures Valid()
      ensures Removed(old(State()), State(), b)
    {
      ghost var x := State();
      hide Inv, Removed, StoreLink, StoreHead, SubstLinks, LeafRaised, ShapeOf, Ring;
      var rp, leaf, l := FindLeaf(b);
      LeafMoved(size, links, heads, shape, b, l);
      var l1, h1 := StoreLink(links, rp, NULL), StoreHead(heads, rp, NULL);
      shape := ShapeOf(LeafRaised(x, b, l));
      size, links, heads := size - {b}, SubstLinks(l1, b, leaf), StoreHead(h1, l1.parent[b], leaf);
    }

    /** A block with ring neighbours is unlinked; a node hands its place to its predecessor. */
    method RemoveFromRing(b: int)
      requires Valid() && b in size && b in links.prev && b in links.next && links.prev[b] != b
      modifies this
      ensures Valid()
      ensures Removed(old(State()), State(), b)
    {
      RingMember(State(), b);
      hide Inv, Removed;
      var p, n := links.prev[b], links.next[b];
      var l := links.(next := links.next[p := n], prev := links.prev[n := p]);
      if Small(size[b]) {
        RemoveSmall(b, l);
      } else if links.parent[b] == RestSlot || links.parent[b] == NoSlot {
        RemoveLarge(b, l);
      } else {
        RemoveHead(b, l);
      }
    }

    method RemoveHead(b: int, l: LinkWords)
      requires Valid() && b in shape.at && Ring(State(), b) != [] && b in links.prev && b in links.next
      requires l == links.(next := links.next[links.prev[b] := links.next[b]], prev := links.prev[links.next[b] := links.prev[b]])
      modifies this
      ensures Valid()
      ensures Removed(old(State()), State(), b)
    {
      ghost var x := State();
      hide Inv, Removed, StoreLink, StoreHead, SubstLinks, ShapeOf, NodePromoted, Ring, NodeOK;
      HandedOver(size, links, heads, shape, b);
      var p := links.prev[b];
      shape := ShapeOf(NodePromoted(x, b));
      size, links, heads := size - {b}, SubstLinks(l, b, p), StoreHead(heads, l.parent[b], p);
    }

    method RemoveSmall(b: int, l: LinkWords)
      requires Valid() && b in size && b !in shape.at && MIN_BLOCK <= size[b] && Small(size[b]) && b in links.prev &&
        b in links.next
      requires l == links.(next := links.next[links.prev[b] := links.next[b]], prev := links.prev[links.next[b] := links.prev[b]])
      modifies this
      ensures Valid()
      ensures Removed(old(State()), State(), b)
    {
      ghost var x := State();
      BitmapTests(x, b);
      MemberGone(x, b);
      hide Inv, Removed, BitmapWithout, ShapeOf;
      var index := BucketIndex(size[b]);
      var h := heads;
      if links.prev[b] == links.next[b] && l.prev[SmallHead(index)] == l.next[SmallHead(index)] {
        h := h.(bitmap := ClearBit(h.bitmap, index));
      }
      TakenOutWords(size, links, heads, shape, b, h.bitmap);
      shape := ShapeOf(TakenOut(x, b, h.bitmap));
      size, links, heads := size - {b}, l, h;
    }

    method RemoveLarge(b: int, l: LinkWords)
      requires Valid() && b in size && b !in shape.at && !Small(size[b]) && b in links.prev && b in links.next &&
        b in links.parent
      requires links.parent[b] == RestSlot <==> Owner(State().ring, b) == REST
      requires l == links.(next := links.next[links.prev[b] := links.next[b]], prev := links.prev[links.next[b] := links.prev[b]])
      modifies this
      ensures Valid()
      ensures Removed(old(State()), State(), b)
    {
      ghost var x := State();
      MemberGone(x, b);
      assert BitmapWithout(x, b) == x.bitmap;
      NotHead(x, b);
      hide Inv, Removed, BitmapWithout, ShapeOf;
      var h := heads;
      if links.parent[b] == RestSlot {
        h := h.(restCount := h.restCount - 1);
      }
      TakenOutWords(size, links, heads, shape, b, heads.bitmap);
      shape := ShapeOf(TakenOut(x, b, heads.bitmap));
      size, links, heads := size - {b}, l, h;
    }

    /** The small-bucket part of the allocation search: the oldest block of the first marked ring. It is
        never a sentinel, and it is a smallest fitting block of the rings that have not lost their bits. */
    method SearchSmall(trueSize: nat) returns (r: int)
      requires Valid() && BlockSize(trueSize) && Small(trueSize)
      ensures r != NULL ==> r in size && size[r] >= trueSize >= MIN_BLOCK && ListOf(State(), r) == SmallRing(BucketIndex(size[r]))
      ensures r != NULL ==> Ring(State(), SmallHead(BucketIndex(size[r]))) != [] && r == Last(State(), SmallHead(BucketIndex(size[r])))
      ensures r != NULL ==> Kept(State(), r)
      ensures forall b :: Kept(State(), b) && size[b] >= trueSize ==> r != NULL && size[r] <= size[b]
    {
      ghost var x := State();
      hide Inv, ListOf;
      var index := BucketIndex(trueSize);
      var bm := Shr(heads.bitmap, index);
      if bm == 0 {
        NoMarkedRing(x, trueSize);
        return NULL;
      }
      var low := LowBit(bm);
      MarkedRing(x, index, low);
      FirstMarked(x, trueSize, low);
      r := links.prev[SmallHead(index + low)];
    }

    /** The scan of the rest list, newest first: the best fitting block, an exact one at once. */
    method SearchRest(trueSize: nat) returns (r: int)
      requires Valid() && BlockSize(trueSize)
      ensures r == NULL <==> forall b :: b in size && ListOf(State(), b) == RestList ==> size[b] < trueSize
      ensures r != NULL ==> r in size && size[r] >= trueSize && ListOf(State(), r) == RestList
      ensures r != NULL ==> forall b :: b in size && ListOf(State(), b) == RestList && size[b] >= trueSize ==>
        size[r] <= size[b]
      ensures r != NULL ==> NewestFit(State(), trueSize, r)
    {
      ghost var x := State();
      hide Inv, ListOf;
      RestRing(x);
      ghost var c := Ring(x, REST);
      ghost var j, k := |c|, 0;
      var p := links.prev[REST];
      r := NULL;
      var bestSize := WORD - 1;
      while p != REST
        invariant 0 <= j <= |c| && p == (if j > 0 then c[j - 1] else REST)
        invariant r == NULL ==> bestSize == WORD - 1
        invariant r != NULL ==> r in size && size[r] == bestSize > trueSize
        invariant r != NULL ==> 0 <= k < |c| && c[k] == r && NewerAreWorse(x, trueSize, r, k)
        invariant NoBetter(x, trueSize, j, r)
        decreases j
      {
        hide NewerAreWorse, NoBetter;
        RestAt(x, j - 1);
        RestLook(x, trueSize, j - 1, r);
        if size[p] == trueSize {
          ExactRest(x, trueSize, j - 1);
          return p;
        } else if size[p] > trueSize && size[p] < bestSize {
          r, bestSize, k := p, size[p], j - 1;
        }
        p := links.prev[p];
        j := j - 1;
      }
      RestBest(x, trueSize, r);
    }

    /** `zend_mm_search_large_block`: a block of the tries of at least `trueSize`. There is one exactly
        when the result is not null, and one of exactly that size is found if there is any. */
    method SearchLarge(trueSize: nat) returns (r: int)
      requires Valid() && BlockSize(trueSize)
      ensures r == NULL <==> forall b :: b in size && ListOf(State(), b) == LargeTrie ==> size[b] < trueSize
      ensures r != NULL ==> r in size && ListOf(State(), r) == LargeTrie && size[r] >= trueSize
      ensures (exists b :: b in size && ListOf(State(), b) == LargeTrie && size[b] == trueSize) ==>
        r != NULL && r in size && size[r] == trueSize
      ensures forall a :: BestLarge(State(), trueSize, a) ==>
        r != NULL && r in size && (size[r] == size[a] <==> InReach(State(), trueSize, a))
      ensures r != NULL ==> Found(State(), trueSize, r)
    {
      ghost var x := State();
      hide Inv, ListOf, NoneAtLeast, BestLarge, InReach, BestFit, Near, Smallest, Found, FoundInBucket, WalkBest;
      ExactHasNode(x, trueSize);
      var index := HighBit(trueSize);
      ShrNext(heads.largeBitmap, index);
      var bm := Shr(heads.largeBitmap, index);
      if bm == 0 {
        NothingAbove(x, trueSize, index);
        NoLargeNode(x, trueSize);
        return NULL;
      }
      if bm % 2 == 1 {
        BucketOccupied(x, index, 0);
        var best := SearchBucket(trueSize, index);
        if best != NULL {
          RingResult(x, trueSize, best);
          OwnBucket(x, trueSize, index, best);
          OwnFound(x, trueSize, index, best);
          return links.next[best];
        }
        bm := bm / 2;
        if bm == 0 {
          NothingAbove(x, trueSize, index + 1);
          NoLargeNode(x, trueSize);
          return NULL;
        }
        index := index + 1;
      } else {
        BucketVacant(x, trueSize, index);
      }
      var low := LowBit(bm);
      BucketOccupied(x, index, low);
      var best := SmallestIn(index + low);
      LargerBucket(x, trueSize, best);
      RingResult(x, trueSize, best);
      NextOccupied(x, trueSize, index, low, best);
      NextFound(x, trueSize, index, low, best);
      r := links.next[best];
    }

    /** The search in the bucket of the request itself: along the bits of the request, remembering
        the last right-hand sibling passed, then down from that. */
    method SearchBucket(trueSize: nat, index: nat) returns (best: int)
      requires Valid() && BlockSize(trueSize) && index == Log2(trueSize) && Pos(index, 1) in shape.node
      ensures best != NULL ==>
        best in shape.at && best in size && size[best] >= trueSize && shape.at[best].bucket == index
      ensures best == NULL ==> NoneAtLeast(State(), trueSize, index)
      ensures (exists a :: a in shape.at && a in size && size[a] == trueSize) ==>
        best != NULL && best in size && size[best] == trueSize
      ensures best != NULL ==>
        (BestFit(State(), trueSize, index, best) <==>
          exists a :: BestFit(State(), trueSize, index, a) && Near(State(), trueSize, a))
      ensures best != NULL ==> FoundInBucket(State(), trueSize, best)
    {
      hide Inv, Candidate, Greater, NoneAtLeast, OnPath, Branch, AllKnown, Walked, BestFit, Near, AllMet, WalkEnd,
        FoundInBucket;
      var bestSize, rst;
      ghost var g;
      best, bestSize, rst, g := FollowBits(trueSize, index);
      ghost var d := Hand(best, bestSize, rst, g);
      HandFacts(State(), trueSize, index, d);
      if bestSize == trueSize {
        ExactFound(State(), trueSize, index, best);
        return;
      }
      best := FollowRest(trueSize, index, best, bestSize, rst, g);
      WalkedFacts(State(), trueSize, index, d, best);
      if best != NULL { BucketFound(State(), trueSize, index, d, best); }
    }

    method FollowBits(trueSize: nat, index: nat) returns (best: int, bestSize: nat, rst: int, ghost g: Pos)
      requires Valid() && BlockSize(trueSize) && index == Log2(trueSize) && Pos(index, 1) in shape.node
      ensures var d := Hand(best, bestSize, rst, g);
        && OnPath(State(), trueSize, index, d.best, d.bestSize) && Branch(State(), trueSize, index, d)
        && (bestSize != trueSize ==> AllKnown(State(), trueSize, index, d) && AllMet(State(), trueSize, d))
      ensures bestSize != trueSize ==> forall a :: a in shape.at && a in size ==> size[a] != trueSize
    {
      ghost var x := State();
      hide Inv, SearchWord, NotAbove, Seen, Passed, AllKnown, OnPath, Branch, Belongs, Shl, Shl1, Shr, TopBit, Log2,
        Met, AllMet;
      SearchWordStart(trueSize);
      StartSearch(x, trueSize, index);
      best, bestSize, rst := NULL, WORD - 1, NULL;
      var p := heads.bucket[index];
      var m: nat := Shl(trueSize, 64 - index);
      g := Pos(index, 1);
      ghost var q, e: nat := Pos(index, 1), index;
      MetStart(x, trueSize, index, Hand(best, bestSize, rst, g));
      while true
        invariant m < WORD && SearchWord(m, trueSize, e) && e <= index
        invariant Met(x, trueSize, q, Hand(best, bestSize, rst, g))
        invariant q in x.trie.node && p == x.trie.node[q] && q.bucket == index && q.path == Shr(trueSize, e)
        invariant NotAbove(x, trueSize, q) && Seen(x, trueSize, q, Hand(best, bestSize, rst, g))
        invariant OnPath(x, trueSize, index, best, bestSize) && bestSize != trueSize
        invariant Branch(x, q.path, index, Hand(best, bestSize, rst, g))
        decreases e
      {
        ghost var d := Hand(best, bestSize, rst, g);
        ghost var d0 := d;
        NodeWords(x, q);
        Considered(x, trueSize, index, d, q, e);
        if size[p] == trueSize {
          best, bestSize := p, size[p];
          return;
        } else if size[p] >= trueSize && size[p] < bestSize {
          best, bestSize := p, size[p];
        }
        d := Hand(best, bestSize, rst, g);
        Deeper(x, trueSize, q, m, e);
        SearchWordStep(m, trueSize, e);
        if !TopBit(m) {
          TurnedLeft(x, trueSize, q, d);
          MetNext(x, trueSize, q, d0, d, 0);
          if links.child1[p] != NULL {
            rst, g := links.child1[p], Down(q, 1);
          }
          d := Hand(best, bestSize, rst, g);
          BranchDown(x, trueSize, Down(q, 0), index, d);
          if links.child0[p] != NULL {
            p, q := links.child0[p], Down(q, 0);
          } else {
            MetAll(x, trueSize, Down(q, 0), d);
            return;
          }
        } else {
          TurnedRight(x, trueSize, q, d);
          MetNext(x, trueSize, q, d0, d, 1);
          BranchDown(x, trueSize, Down(q, 1), index, d);
          if links.child1[p] != NULL {
            p, q := links.child1[p], Down(q, 1);
          } else {
            MetAll(x, trueSize, Down(q, 1), d);
            return;
          }
        }
        m := Shl1(m);
        e := e - 1;
      }
    }

    method FollowRest(trueSize: nat, index: nat, start: int, startSize: nat, rst: int, ghost g: Pos) returns (best: int)
      requires Valid() && BlockSize(trueSize) && index == Log2(trueSize) && startSize != trueSize
      requires var d := Hand(start, startSize, rst, g);
        OnPath(State(), trueSize, index, d.best, d.bestSize) && Branch(State(), trueSize, index, d)
      ensures Walked(State(), index, Hand(start, startSize, rst, g), best)
      ensures WalkEnd(State(), Hand(start, startSize, rst, g), best)
    {
      ghost var x, d := State(), Hand(start, startSize, rst, g);
      hide Inv, Greater, OnPath, Branch, Walked, Reached, OnWalk, Ahead, WalkKnown, WalkHeld;
      WalkStart(x, trueSize, index, d);
      HeldStart(x, trueSize, index, d);
      AheadStart(x, g, start, startSize);
      best := start;
      var bestSize, p := startSize, rst;
      ghost var q := g;
      while p != NULL
        invariant Walking(x, index, d, best, bestSize, p == rst)
        invariant p != NULL ==> q in x.trie.node && p == x.trie.node[q] && Reached(x, d, q)
        invariant p != NULL ==> OnWalk(x.trie.node, g, q) && Ahead(x, g, q, best, bestSize)
        invariant p == NULL && rst != NULL ==> WalkKnown(x, g, best, bestSize)
        invariant WalkHeld(x, d, best, bestSize)
        decreases if p == NULL then 0 else WORD - q.path
      {
        NodeWords(x, q);
        WalkStep(x, trueSize, index, d, best, bestSize, q);
        HeldNext(x, d, best, bestSize, q);
        ghost var was, wasSize := best, bestSize;
        if size[p] == trueSize {
          return p;
        } else if size[p] > trueSize && size[p] < bestSize {
          best, bestSize := p, size[p];
        }
        WalkNext(x, g, q, was, wasSize, best, bestSize);
        var side := if links.child0[p] != NULL then 1 else 0;
        p := LoadSlot(links, heads, ChildSlot(p, side));
        if p != NULL {
          ReachedDown(x, d, q);
          WalkOn(x.trie.node, g, q);
          q := Down(q, side);
          NodeWords(x, q);
        }
      }
      WalkDone(x, index, d, best, bestSize);
      HeldDone(x, d, best, bestSize);
    }

    /** The walk meant to find the smallest block of a bucket. It turns right where a left child exists
        and stops where none does, so it leaves the root only for blocks that are not the smallest. */
    method SmallestIn(index: nat) returns (best: int)
      requires Valid() && Pos(index, 1) in shape.node
      ensures best in shape.at && best in size && shape.at[best].bucket == index
      ensures var root := shape.node[Pos(index, 1)];
        && root in size
        && (best == root || exists a ::
              a in shape.at && a in size && shape.at[a].bucket == index && size[a] < size[best] < size[root])
        && (Smallest(State(), index, best) <==> Smallest(State(), index, root))
      ensures WalkBest(State(), Pos(index, 1), best)
    {
      ghost var x, root := State(), Pos(index, 1);
      hide Inv, Belongs, OnWalk, Ahead, WalkKnown;
      NodeWords(x, root);
      PlaceFacts(x, root);
      best := heads.bucket[index];
      var p := best;
      ghost var q := root;
      RootWalk(x, root, best);
      while true
        invariant OnWalk(x.trie.node, root, q) && best in x.trie.at && OnWalk(x.trie.node, root, x.trie.at[best])
        invariant best != NULL && best in x.size && p in x.size && x.size[best] <= x.size[p]
        invariant Ahead(x, root, q, best, x.size[best])
        invariant q in x.trie.node && p == x.trie.node[q] && q.bucket == index && 1 <= q.path < WORD
        invariant q != root ==> Down(root, 0) in x.trie.node && Prefix(Down(root, 1).path, q.path)
        invariant best in x.trie.at && best in x.size && x.trie.at[best].bucket == index
        invariant best != x.trie.node[root] ==>
          && x.size[best] < x.size[x.trie.node[root]] && Down(root, 0) in x.trie.node
          && x.trie.at[best].path >= 1 && Prefix(Down(root, 1).path, x.trie.at[best].path)
        decreases WORD - q.path
      {
        NodeWords(x, q);
        WalkNext(x, root, q, best, x.size[best], best, x.size[best]);
        var side := if links.child0[p] != NULL then 1 else 0;
        p := LoadSlot(links, heads, ChildSlot(p, side));
        if p == NULL {
          WalkEnds(x, root, best);
          break;
        }
        WalkOn(x.trie.node, root, q);
        assert Prefix(q.path, Down(q, side).path);
        if q != root { PrefixTransitive(Down(root, 1).path, q.path, Down(q, side).path); }
        q := Down(q, side);
        NodeWords(x, q);
        PlaceFacts(x, q);
        if size[p] < size[best] {
          best := p;
        }
      }
      if best != x.trie.node[root] {
        assert Below(x, Down(root, 1), best);
        LeftIsSmaller(x, root, best);
      }
    }

    /** The descent to the leaf that replaces a node: right child first. */
    method FindLeaf(b: int) returns (rp: Slot, leaf: int, ghost l: Pos)
      requires Valid() && b in shape.at && b in links.child0 && b in links.child1
      requires links.child0[b] != NULL || links.child1[b] != NULL
      ensures LeafBelow(State().trie, shape.at[b], l) && l == LeafOf(shape.node, shape.at[b])
      ensures leaf == shape.node[l] && rp == SlotOf(State().trie, l)
    {
      ghost var x, q := State(), shape.at[b];
      NodeWords(x, q);
      hide Inv;
      var side := if links.child1[b] != NULL then 1 else 0;
      rp := ChildSlot(b, side);
      leaf := LoadSlot(links, heads, rp);
      l := Down(q, side);
      assert Prefix(q.path, l.path);
      while true
        invariant l in x.trie.node && leaf == x.trie.node[l] && rp == SlotOf(x.trie, l)
        invariant l.bucket == q.bucket && l.path > q.path >= 1 && Prefix(q.path, l.path)
        invariant LeafOf(x.trie.node, q) == LeafOf(x.trie.node, l)
        decreases WORD - l.path
      {
        NodeWords(x, l);
        var c := if links.child1[leaf] != NULL then 1 else 0;
        var cp := ChildSlot(leaf, c);
        if LoadSlot(links, heads, cp) == NULL {
          return;
        }
        ghost var k := Down(l, c);
        NodeWords(x, k);
        assert Prefix(l.path, k.path);
        PrefixTransitive(q.path, l.path, k.path);
        leaf, rp, l := LoadSlot(links, heads, cp), cp, k;
      }
    }

    /** The insertion descent: the node that already has size `n`, or the vacant slot for it. */
    method FindPlace(n: nat, index: nat) returns (p: Slot, holder: int, ghost q: Pos)
      requires Valid() && BlockSize(n) && !Small(n) && index == Log2(n) < 64
      requires |heads.bucket| == 64 && heads.bucket[index] != NULL
      ensures holder != NULL ==> holder in shape.at && holder in size && size[holder] == n
      ensures holder == NULL ==>
        && Vacant(State().trie, q) && Belongs(q, n) && p == SlotOf(State().trie, q) && q.path > 1
        && forall a :: a in shape.at && a in size ==> size[a] != n
    {
      ghost var x := State();
      hide Inv, NotAbove, SearchWord, Belongs;
      SearchWordStart(n);
      var m: nat := Shl(n, 64 - index);
      p := BucketSlot(index);
      q := Pos(index, 1);
      ghost var e: nat := index;
      StartPath(x, n);
      while true
        invariant m < WORD && SearchWord(m, n, e) && e <= index
        invariant q in x.trie.node && q.bucket == index && q.path == Shr(n, e) && p == SlotOf(x.trie, q)
        invariant NotAbove(x, n, q)
        decreases e
      {
        AtSlot(x, q);
        var prev := LoadSlot(links, heads, p);
        if size[prev] == n {
          holder := prev;
          return;
        }
        Deeper(x, n, q, m, e);
        SearchWordStep(m, n, e);
        p := ChildSlot(prev, if TopBit(m) then 1 else 0);
        q := Down(q, if TopBit(m) then 1 else 0);
        if LoadSlot(links, heads, p) == NULL {
          holder := NULL;
          return;
        }
        m := Shl1(m);
        e := e - 1;
      }
    }
  }
}
