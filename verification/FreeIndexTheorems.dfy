/** What the index invariant means, and the two ways in which the index falls short of what one might
    expect of it. */
module FreeIndexTheorems {
  import opened Bits
  import opened Sizes
  import opened Paths
  import opened RingSets
  import opened Tries
  import opened FreeIndexState
  import opened FreeIndexSteps
  import Rings

  // ----- every free block in exactly one list

  /** `b` is linked into the ring of `h`, or `h` is `b` itself, a node of a trie. */
  ghost predicate LinkedAt(x: Index, b: int, h: int) {
    h in x.ring.rings && (b in x.ring.rings[h] || (b == h && b in x.trie.at))
  }

  /** Each block is linked in one place, and its size decides which it may be. */
  lemma OneList(x: Index, b: int)
    requires Inv(x) && b in x.size
    ensures exists h :: LinkedAt(x, b, h)
    ensures forall h, g :: LinkedAt(x, b, h) && LinkedAt(x, b, g) ==> h == g
    ensures ListOf(x, b).SmallRing? ==> Small(x.size[b]) && LinkedAt(x, b, SmallHead(BucketIndex(x.size[b])))
    ensures ListOf(x, b) == LargeTrie ==> !Small(x.size[b])
    ensures ListOf(x, b) == RestList ==> LinkedAt(x, b, REST)
  {
    assert KindOK(x, b) && MemberOK(x.ring, b);
    assert b in x.ring.home.Keys && x.size[b] == x.size[b];
    assert LinkedAt(x, b, x.ring.home[b]);
    forall h | LinkedAt(x, b, h) ensures h == x.ring.home[b] { assert HeadOK(x.ring, h); }
  }

  /** Blocks of one size share one node: the node of that size and its ring are all of them. */
  lemma OneNodePerSize(x: Index, b: int, c: int)
    requires Inv(x) && b in x.size && c in x.size && x.size[b] == x.size[c]
    requires ListOf(x, b) == LargeTrie && ListOf(x, c) == LargeTrie
    ensures Owner(x.ring, b) == Owner(x.ring, c) && Owner(x.ring, b) in x.trie.at
  {
    assert KindOK(x, b) && KindOK(x, c);
    assert b in x.ring.home.Keys && c in x.ring.home.Keys;
    var h, g := x.ring.home[b], x.ring.home[c];
    assert x.trie.at[h] == x.trie.at[h] && x.trie.at[g] == x.trie.at[g];
  }

  /** A node at depth `d` of bucket `i` holds a size of `i + 1` bits whose top `d + 1` bits are its path, and
      its parent word and child words lead to its neighbours in the trie. */
  lemma NodePlace(x: Index, a: int)
    requires Inv(x) && a in x.trie.at
    ensures a in x.size && x.size[a] > 0 && x.trie.at[a].path > 0
    ensures var q, n := x.trie.at[a], x.size[a]; var d := Log2(q.path);
      && Log2(n) == q.bucket && d <= q.bucket && Shr(n, q.bucket - d) == q.path
      && (forall j: nat :: Bit(q.path, j) <==> Bit(n, q.bucket - d + j))
    ensures var q := x.trie.at[a];
      && a in x.trie.parent && Load(x.trie, x.trie.parent[a]) == a
      && a in x.trie.child0 && x.trie.child0[a] == NodeAt(x.trie, Down(q, 0))
      && a in x.trie.child1 && x.trie.child1[a] == NodeAt(x.trie, Down(q, 1))
  {
    var q := x.trie.at[a];
    assert NodeOK(x.size, x.trie, q);
    if q.path > 1 { assert NodeOK(x.size, x.trie, Up(q)); }
    hide Inv;
    var n := x.size[a];
    PrefixIsShr(q.path, n);
    PathBits(n, q.bucket - Log2(q.path));
  }

  lemma PathBits(n: nat, e: nat)
    ensures forall j: nat {:trigger Bit(Shr(n, e), j)} :: Bit(Shr(n, e), j) <==> Bit(n, e + j)
  {
    hide Shr, Bit;
    forall j: nat ensures Bit(Shr(n, e), j) <==> Bit(n, e + j) { ShrBits(n, e, j); }
  }

  // ----- one outcome

  /** The same blocks in the same rings in the same order, at the same places of the tries, with the same bits. */
  ghost predicate SameIndex(y: Index, z: Index) {
    && y.size == z.size && y.bitmap == z.bitmap && y.trie.node == z.trie.node
    && forall h {:trigger Ring(y, h)} {:trigger Ring(z, h)} :: Ring(y, h) == Ring(z, h)
  }

  /** What insertion promises leaves one outcome only. */
  lemma AddedOnce(x: Index, y: Index, z: Index, b: int, n: nat)
    requires Inv(x) && Added(x, y, b, n) && Added(x, z, b, n)
    ensures SameIndex(y, z)
  {
    if !(Small(n) || exists a :: Takes(x, n, a)) {
      var q :| Vacant(x.trie, q) && Belongs(q, n) && y.trie.node == x.trie.node[q := b];
      var r :| Vacant(x.trie, r) && Belongs(r, n) && z.trie.node == x.trie.node[r := b];
      OneVacancy(x, q, r, n);
    }
    hide Inv, ListOf, Takes;
    forall h ensures Ring(y, h) == Ring(z, h) {
      assert Ring(y, h) == if Takes(x, n, h) then [b] + Ring(x, h) else Ring(x, h);
      assert Ring(z, h) == if Takes(x, n, h) then [b] + Ring(x, h) else Ring(x, h);
    }
  }

  /** The path of a size has one place that can be filled next. */
  lemma OneVacancy(x: Index, q: Pos, r: Pos, n: nat)
    requires Inv(x) && Vacant(x.trie, q) && Belongs(q, n) && Vacant(x.trie, r) && Belongs(r, n)
    ensures q == r
  {
    NotDeeper(x, q, r, n);
    NotDeeper(x, r, q, n);
  }

  lemma NotDeeper(x: Index, q: Pos, r: Pos, n: nat)
    requires Inv(x) && Vacant(x.trie, q) && Belongs(q, n) && Vacant(x.trie, r) && Belongs(r, n)
    ensures r.path <= q.path
  {
    assert Pos(q.bucket, q.path) == q;
    if q.path < r.path {
      PrefixesNest(q.path, r.path, n);
      PrefixPresent(x.size, x.trie, Up(r), q.path);
    }
  }

  /** And so does removal. */
  lemma RemovedOnce(x: Index, y: Index, z: Index, b: int)
    requires Inv(x) && b in x.size && Removed(x, y, b) && Removed(x, z, b)
    ensures SameIndex(y, z)
  {
    forall h ensures Ring(y, h) == Ring(z, h) {
      RingOnce(x, y, h, b);
      RingOnce(x, z, h, b);
      if b !in x.trie.at {
        if h in x.ring.rings { assert HeadOK(x.ring, h); HeadApart(x.ring, h); }
        hide Inv, ListOf;
        OneLeftOver(Ring(x, h), Ring(y, h), Ring(z, h), b);
      }
    }
    hide Inv, ListOf;
  }

  ghost function RingAfter(x: Index, h: int, b: int): seq<int> {
    if h == b then [] else if Ring(x, b) != [] && h == Last(x, b) then Ring(x, b)[..|Ring(x, b)| - 1] else Ring(x, h)
  }

  lemma RingOnce(x: Index, y: Index, h: int, b: int)
    requires RingsWithout(x, y, b)
    ensures b !in x.trie.at ==> LeftOver(Ring(x, h), Ring(y, h), b)
    ensures b in x.trie.at ==> Ring(y, h) == RingAfter(x, h, b)
  {
    hide LeftOver;
  }

  lemma OneLeftOver(c: seq<int>, d: seq<int>, e: seq<int>, b: int)
    requires Rings.NoDup(c) && LeftOver(c, d, b) && LeftOver(c, e, b)
    ensures d == e
  {}

  // ----- the small bitmap

  /** Taking `b` out costs ring `i` the bit it still needs. */
  ghost predicate LosesBit(x: Index, y: Index, i: nat) {
    Bit(x.bitmap, i) && !Bit(y.bitmap, i) && Ring(y, SmallHead(i)) != []
  }

  /** When that happens: a small block alone on the rest list is removed while the ring of its size holds
      exactly one block. */
  ghost predicate StrayAlone(x: Index, b: int) {
    && b in x.size && MIN_BLOCK <= x.size[b] && Small(x.size[b])
    && Ring(x, REST) == [b] && |Ring(x, SmallHead(BucketIndex(x.size[b])))| == 1 &&
      Bit(x.bitmap, BucketIndex(x.size[b]))
  }

  lemma LostBitIff(x: Index, y: Index, b: int)
    requires Inv(x) && b in x.size && Removed(x, y, b)
    ensures (exists i: nat :: LosesBit(x, y, i)) <==> StrayAlone(x, b)
  {
    hide Inv, Removed;
    if i: nat :| LosesBit(x, y, i) {
      LostOnlyThen(x, y, b, i);
    }
    if StrayAlone(x, b) {
      LostThen(x, y, b);
      assert LosesBit(x, y, BucketIndex(x.size[b]));
    }
  }

  lemma LostThen(x: Index, y: Index, b: int)
    requires Inv(x) && b in x.size && Removed(x, y, b) && StrayAlone(x, b)
    ensures LosesBit(x, y, BucketIndex(x.size[b]))
  {
    var i := BucketIndex(x.size[b]);
    assert b in Ring(x, REST);
    RingBlocks(x, REST, b);
    ClearBitBits(x.bitmap, i, i);
    if b in Ring(x, SmallHead(i)) { RingBlocks(x, SmallHead(i), b); }
    assert LeftOver(Ring(x, SmallHead(i)), Ring(y, SmallHead(i)), b);
  }

  lemma LostOnlyThen(x: Index, y: Index, b: int, i: nat)
    requires Inv(x) && b in x.size && Removed(x, y, b) && LosesBit(x, y, i)
    ensures StrayAlone(x, b)
  {
    var n := x.size[b];
    assert KindOK(x, b) && MemberOK(x.ring, b) && b in x.ring.home.Keys;
    var h, j := Owner(x.ring, b), BucketIndex(n);
    ClearBitBits(x.bitmap, j, i);
    assert i == j;
    assert LeftOver(Ring(x, SmallHead(j)), Ring(y, SmallHead(j)), b);
    if h == REST { assert b in Ring(x, REST); }
  }

  /** The rings passed by after a removal, exactly: those passed by before, and the ring of a block that
      was `StrayAlone`, unless they are left empty. With `SameLost` in `Rested` and `AddedKeepsLost` this
      is the history of every lost bit: a removal loses it, and only emptying the ring ends it. */
  lemma RemovedLost(x: Index, y: Index, b: int, i: nat)
    requires Inv(x) && b in x.size && Removed(x, y, b) && i < 64
    ensures Lost(y, i) <==>
      Ring(y, SmallHead(i)) != [] && (Lost(x, i) || (StrayAlone(x, b) && i == BucketIndex(x.size[b])))
  {
    if StrayAlone(x, b) { LostThen(x, y, b); }
    if LosesBit(x, y, i) { LostOnlyThen(x, y, b, i); }
    StillOccupied(x, y, b, i);
    hide Inv, Removed;
  }

  /** A ring occupied after a removal was occupied before, and no removal sets a bit. */
  lemma StillOccupied(x: Index, y: Index, b: int, i: nat)
    requires Inv(x) && b in x.size && Removed(x, y, b) && i < 64
    ensures Ring(y, SmallHead(i)) != [] ==> Ring(x, SmallHead(i)) != []
    ensures Bit(y.bitmap, i) ==> Bit(x.bitmap, i)
    ensures LosesBit(x, y, i) ==> i == BucketIndex(x.size[b])
  {
    assert IsSentinel(SmallHead(i));
    assert LeftOver(Ring(x, SmallHead(i)), Ring(y, SmallHead(i)), b);
    assert BlockSize(x.size[b]);
    if Small(x.size[b]) { ClearBitBits(x.bitmap, BucketIndex(x.size[b]), i); }
  }

  ghost function EmptyIndex(): Index {
    var self := map h | REST <= h <= -1 && IsSentinel(h) :: h;
    var none: map<int, seq<int>> := map h | REST <= h <= -1 && IsSentinel(h) :: [];
    Assemble(map[], LinkWords(self, self, map[], map[], map[]), Heads(seq(64, _ => NULL), 0, 0, 0),
      Shape(none, map[], map[], map[]))
  }

  lemma EmptyIndexOK()
    ensures Inv(EmptyIndex()) && EmptyIndex().size == map[] && EmptyIndex().trie.at == map[] &&
      EmptyIndex().trie.node == map[]
  {
    var x := EmptyIndex();
    EmptyOK(x.ring.next, x.ring.rings, x.trie.bucket);
  }

  /** It can happen: one block of 32 bytes in its ring, one on the rest list. */
  lemma LostBitExample()
    ensures exists x, b :: Inv(x) && StrayAlone(x, b)
  {
    assert BlockSize(32);
    hide Inv, BlockSize;
    var x := EmptyIndex();
    EmptyIndexOK();
    AddedSmallOK(x, 8, 32);
    var y := AddedSmall(x, 8, 32);
    SetBitBits(x.bitmap, 0, 0);
    AddedRestOK(y, 48, 32);
    assert StrayAlone(AddedRest(y, 48, 32), 48);
  }

  // ----- best fit

  /** The root of a bucket need not be its smallest block, and then `SmallestIn` does not find the smallest
      either: 1536 bytes at the root, 1032 to its left. */
  lemma RootNotSmallestExample()
    ensures exists x :: Inv(x) && Pos(10, 1) in x.trie.node && !Smallest(x, 10, x.trie.node[Pos(10, 1)])
  {
    var x := EmptyIndex();
    EmptyIndexOK();
    ExampleNodes();
    hide Inv, Belongs;
    AddedNodeOK(x, Pos(10, 1), 8, 1536);
    var y := AddedNode(x, Pos(10, 1), 8, 1536);
    AddedNodeOK(y, Pos(10, 2), 2000, 1032);
    var z := AddedNode(y, Pos(10, 2), 2000, 1032);
    assert z.trie.node[Pos(10, 1)] == 8 && z.trie.at[2000] == Pos(10, 2) && z.size[2000] < z.size[8];
  }

  lemma ExampleNodes()
    ensures Belongs(Pos(10, 1), 1536) && Belongs(Pos(10, 2), 1032)
  {
    assert Log2(3) == 1 && Log2(24) == 4 && Log2(192) == 7 && Log2(1536) == 10;
    assert Log2(4) == 2 && Log2(16) == 4 && Log2(129) == 7 && Log2(1032) == 10;
    RootIsPrefix(1536);
    assert Prefix(2, 8) && Prefix(2, 16) && Prefix(2, 129) && Prefix(2, 1032);
  }

  /** The search can miss the best fit: 2032 bytes at the root, 2000 to its right and 1536 to the left of
      that. A request of 1032 bytes passes the 1536 by. */
  lemma MissedBestFitExample()
    ensures exists x, a :: Inv(x) && BestLarge(x, 1032, a) && !InReach(x, 1032, a)
  {
    hide Inv, Belongs, BestLarge, InReach, EmptyIndex, Prefix, Log2;
    MissedNodes();
    EmptyIndexOK();
    var x := Planted(EmptyIndex(), Pos(10, 1), 8, 2032);
    var y := Planted(x, Pos(10, 3), 3000, 2000);
    var z := Planted(y, Pos(10, 6), 6000, 1536);
    MissedPlace(z);
  }

  /** A block of a new size planted at a vacant place. */
  lemma Planted(x: Index, q: Pos, b: int, n: nat) returns (y: Index)
    requires Inv(x) && b > 0 && b !in x.size && BlockSize(n) && !Small(n)
    requires Vacant(x.trie, q) && Belongs(q, n) && forall a :: a in x.trie.at && a in x.size ==> x.size[a] != n
    ensures Inv(y) && y.size == x.size[b := n] && y.trie.at == x.trie.at[b := q] && y.trie.node == x.trie.node[q := b]
  {
    y := AddedNode(x, q, b, n);
    AddedNodeOK(x, q, b, n);
    hide Inv, Belongs;
  }

  lemma MissedPlace(x: Index)
    requires x.size == map[8 := 2032, 3000 := 2000, 6000 := 1536]
    requires x.trie.at == map[8 := Pos(10, 1), 3000 := Pos(10, 3), 6000 := Pos(10, 6)]
    ensures BestLarge(x, 1032, 6000) && !InReach(x, 1032, 6000)
  {
    MissedNodes();
  }

  lemma MissedNodes()
    ensures Belongs(Pos(10, 1), 2032) && Belongs(Pos(10, 3), 2000) && Belongs(Pos(10, 6), 1536)
    ensures Log2(1032) == 10 && !Prefix(6, 1032) && !Prefix(3, 1032)
  {
    ExampleNodes();
    assert Log2(7) == 2 && Log2(63) == 5 && Log2(508) == 8 && Log2(2032) == 10;
    assert Log2(31) == 4 && Log2(250) == 7 && Log2(2000) == 10;
    RootIsPrefix(2032);
    assert Prefix(3, 15) && Prefix(3, 62) && Prefix(3, 250) && Prefix(3, 1000) && Prefix(3, 2000);
    assert Prefix(6, 24) && Prefix(6, 96) && Prefix(6, 384) && Prefix(6, 1536);
    assert !Prefix(3, 4) && !Prefix(3, 16) && !Prefix(3, 64) && !Prefix(3, 258);
    assert !Prefix(6, 8) && !Prefix(6, 32) && !Prefix(6, 129) && !Prefix(6, 516);
  }
}
