/** The free index of a heap as a value: 64 small rings with a bitmap, 64 tries of large blocks whose
    nodes head rings of equal size, with their own bitmap, and the rest list. `Inv` is what every
    operation keeps; one lemma per change. */
module FreeIndexState {
  import opened Bits
  import opened Sizes
  import opened Rings
  import opened RingSets
  import opened Tries

  /** Sentinel addresses: the bucket heads lie inside the heap structure, outside all blocks. */
  function SmallHead(i: nat): int { -1 - i }
  const REST: int := -65
  predicate IsSentinel(h: int) { REST <= h <= -1 }

  /** `size` holds the size words of the blocks in the index. */
  datatype Index = Index(
    size: map<int, nat>, ring: RingSet, trie: Trie,
    bitmap: nat, largeBitmap: nat, restCount: nat)

  ghost predicate BlockSize(n: nat) {
    MIN_BLOCK <= n < WORD && n % ALIGNMENT == 0
  }

  /** Each block is in the one list its size and its parent word say. */
  ghost predicate KindOK(x: Index, b: int)
    requires b in x.ring.home && b in x.size
  {
    var h, n := x.ring.home[b], x.size[b];
    if h in x.trie.at then
      && !Small(n)
      && h in x.size && x.size[h] == n
      && (b != h ==> b !in x.trie.at && b in x.trie.parent && x.trie.parent[b] == NoSlot)
    else if h == REST then
      b !in x.trie.at && (!Small(n) ==> b in x.trie.parent && x.trie.parent[b] == RestSlot)
    else
      MIN_BLOCK <= n && Small(n) && h == SmallHead(BucketIndex(n)) && b !in x.trie.at
  }

  ghost predicate KindsOK(x: Index) {
    && x.ring.home.Keys == x.size.Keys
    && (forall b {:trigger x.size[b]} :: b in x.size ==> b > 0 && BlockSize(x.size[b]))
    && (forall b {:trigger KindOK(x, b)} :: b in x.size ==> KindOK(x, b))
    && (forall h :: h in x.ring.rings <==> h in x.trie.at || IsSentinel(h))
    && (forall a {:trigger x.trie.at[a]} :: a in x.trie.at ==> a in x.size)
  }

  /** The members of the ring of `h`. */
  function Ring(x: Index, h: int): seq<int> {
    if h in x.ring.rings then x.ring.rings[h] else []
  }

  ghost predicate BitmapsOK(x: Index) {
    && (forall i: nat {:trigger Bit(x.largeBitmap, i)} :: Bit(x.largeBitmap, i) <==> Pos(i, 1) in x.trie.node)
    && (forall i: nat {:trigger Bit(x.bitmap, i)} :: Bit(x.bitmap, i) ==> i < 64 && Ring(x, SmallHead(i)) != [])
  }

  /** Ring `i` holds blocks but its bit is clear, so that the search passes it by. */
  ghost predicate Lost(x: Index, i: nat) {
    i < 64 && Ring(x, SmallHead(i)) != [] && !Bit(x.bitmap, i)
  }

  /** The number of large blocks in a list. */
  function LargeCount(size: map<int, nat>, c: seq<int>): nat {
    if c == [] then 0
    else (if c[0] in size && !Small(size[c[0]]) then 1 else 0) + LargeCount(size, c[1..])
  }

  ghost predicate Inv(x: Index) {
    && Disjoint(x.ring)
    && Sound(x.size, x.trie)
    && KindsOK(x)
    && BitmapsOK(x)
    && x.restCount == LargeCount(x.size, Ring(x, REST)) <= MAX_REST
  }

  // ----- counting

  lemma {:induction false} CountConcat(size: map<int, nat>, c: seq<int>, d: seq<int>)
    ensures LargeCount(size, c + d) == LargeCount(size, c) + LargeCount(size, d)
  {
    if c == [] {
      assert c + d == d;
    } else {
      CountConcat(size, c[1..], d);
      assert (c + d)[1..] == c[1..] + d;
    }
  }

  lemma {:induction false} CountFrame(size: map<int, nat>, size': map<int, nat>, c: seq<int>)
    requires forall b :: b in c ==> (b in size <==> b in size') && (b in size && b in size' ==> size[b] == size'[b])
    ensures LargeCount(size, c) == LargeCount(size', c)
  {
    if c != [] {
      var h := c[0];
      assert h in c;
      assert (h in size && !Small(size[h])) == (h in size' && !Small(size'[h]));
      assert forall b :: b in c[1..] ==> b in c;
      CountFrame(size, size', c[1..]);
    }
  }

  lemma CountWithout(size: map<int, nat>, c: seq<int>, j: nat)
    requires j < |c|
    ensures LargeCount(size, c) == LargeCount(size, Without(c, j)) + if c[j] in size && !Small(size[c[j]]) then 1 else 0
  {
    assert c == c[..j] + [c[j]] + c[j + 1..];
    CountConcat(size, c[..j] + [c[j]], c[j + 1..]);
    CountConcat(size, c[..j], [c[j]]);
    CountConcat(size, c[..j], c[j + 1..]);
    assert LargeCount(size, [c[j]]) == if c[j] in size && !Small(size[c[j]]) then 1 else 0;
  }

  // ----- members and heads

  /** A block absent from the index is in no ring. */
  lemma FreshBlock(x: Index, b: int)
    requires Inv(x) && b > 0 && b !in x.size
    ensures Absent(x.ring, b) && b !in x.trie.at
  {}

  /** A ring lists blocks of the index only. */
  lemma RingBlocks(x: Index, h: int, b: int)
    requires Inv(x) && h in x.ring.rings && b in x.ring.rings[h]
    ensures b in x.size && b in x.ring.home && x.ring.home[b] == h && KindOK(x, b)
  {
    assert HeadOK(x.ring, h);
    assert b in x.ring.home.Keys;
  }

  // ----- a small block added

  ghost function AddedSmall(x: Index, b: int, n: nat): Index
    requires Inv(x) && Small(n) && n >= MIN_BLOCK
  {
    var h := SmallHead(BucketIndex(n));
    assert HeadOK(x.ring, h);
    assert Linked(x.ring.next, x.ring.prev, Full(x.ring, h), 0);
    x.(size := x.size[b := n], ring := InsertFirst(x.ring, h, b),
       bitmap := if Ring(x, h) == [] then SetBit(x.bitmap, BucketIndex(n)) else x.bitmap)
  }

  lemma AddedSmallOK(x: Index, b: int, n: nat)
    requires Inv(x) && b > 0 && b !in x.size && BlockSize(n) && Small(n)
    ensures Inv(AddedSmall(x, b, n))
  {
    FreshBlock(x, b);
    InsertFirstOK(x.ring, SmallHead(BucketIndex(n)), b);
    SizeFrame(x.size, x.size[b := n], x.trie);
    AddedSmallKinds(x, b, n);
    AddedSmallBits(x, b, n);
    RestCountFresh(x, b, n);
    hide KindsOK, BitmapsOK, Disjoint, Sound, LargeCount;
  }

  /** A block new to the index does not count on the rest list. */
  lemma RestCountFresh(x: Index, b: int, n: nat)
    requires Inv(x) && b !in x.size
    ensures LargeCount(x.size[b := n], Ring(x, REST)) == x.restCount
  {
    forall c | c in Ring(x, REST) ensures c in x.size { RingBlocks(x, REST, c); }
    CountFrame(x.size, x.size[b := n], Ring(x, REST));
  }

  lemma AddedSmallKinds(x: Index, b: int, n: nat)
    requires Inv(x) && b > 0 && b !in x.size && BlockSize(n) && Small(n) && b !in x.trie.at
    ensures KindsOK(AddedSmall(x, b, n))
  {
    hide Sound, BitmapsOK, LargeCount, Disjoint;
    var y := AddedSmall(x, b, n);
    forall c | c in y.size ensures KindOK(y, c) { if c != b { assert KindOK(x, c); } }
  }

  lemma AddedSmallBits(x: Index, b: int, n: nat)
    requires Inv(x) && b > 0 && b !in x.size && BlockSize(n) && Small(n)
    ensures BitmapsOK(AddedSmall(x, b, n))
  {
    var y := AddedSmall(x, b, n);
    forall i: nat ensures Bit(y.bitmap, i) <==>
      Bit(x.bitmap, i) || (i == BucketIndex(n) && Ring(x, SmallHead(i)) == []) {
      SetBitBits(x.bitmap, BucketIndex(n), i);
    }
    forall c | c in Ring(x, REST) ensures c in x.size { RingBlocks(x, REST, c); }
  }

  // ----- a large block added: a new trie node, or one more of a size already there

  ghost function AddedNode(x: Index, q: Pos, b: int, n: nat): Index {
    x.(size := x.size[b := n], ring := NewRing(x.ring, b), trie := AddNode(x.trie, q, b),
       largeBitmap := if q.path == 1 then SetBit(x.largeBitmap, q.bucket) else x.largeBitmap)
  }

  lemma AddedNodeOK(x: Index, q: Pos, b: int, n: nat)
    requires Inv(x) && b > 0 && b !in x.size && BlockSize(n) && !Small(n)
    requires Vacant(x.trie, q) && Belongs(q, n) && forall a :: a in x.trie.at && a in x.size ==> x.size[a] != n
    ensures Inv(AddedNode(x, q, b, n))
  {
    hide Belongs;
    FreshBlock(x, b);
    NewRingOK(x.ring, b);
    SizeFrame(x.size, x.size[b := n], x.trie);
    AddNodeOK(x.size[b := n], x.trie, q, b);
    AddedNodeKinds(x, q, b, n);
    AddedNodeBits(x, q, b, n);
    RestCountFresh(x, b, n);
    assert IsSentinel(REST);
    hide KindsOK, BitmapsOK, Disjoint, Sound, LargeCount;
  }

  lemma AddedNodeBits(x: Index, q: Pos, b: int, n: nat)
    requires Inv(x) && b > 0 && b !in x.size && Vacant(x.trie, q) && !Small(n)
    ensures BitmapsOK(AddedNode(x, q, b, n))
  {
    hide Sound, LargeCount, Disjoint;
    var y := AddedNode(x, q, b, n);
    forall i: nat ensures Bit(y.largeBitmap, i) <==> Bit(x.largeBitmap, i) || (q.path == 1 && i == q.bucket) {
      SetBitBits(x.largeBitmap, q.bucket, i);
    }
    assert y.trie.node == x.trie.node[q := b] && q == Pos(q.bucket, q.path);
    assert forall h :: h != b ==> Ring(y, h) == Ring(x, h);
  }

  lemma AddedNodeKinds(x: Index, q: Pos, b: int, n: nat)
    requires Inv(x) && b > 0 && b !in x.size && BlockSize(n) && !Small(n) && Vacant(x.trie, q)
    requires Absent(x.ring, b) && b !in x.trie.at
    ensures KindsOK(AddedNode(x, q, b, n))
  {
    hide Sound, BitmapsOK, LargeCount, Disjoint, KindOK, BlockSize;
    var y := AddedNode(x, q, b, n);
    forall c | c in y.size ensures KindOK(y, c) { AddedNodeKind(x, q, b, n, c); }
  }

  lemma AddedNodeKind(x: Index, q: Pos, b: int, n: nat, c: int)
    requires Inv(x) && b !in x.size && !Small(n) && b !in x.trie.at && c in AddedNode(x, q, b, n).size
    requires Absent(x.ring, b)
    ensures c in AddedNode(x, q, b, n).ring.home && KindOK(AddedNode(x, q, b, n), c)
  {
    hide Sound, BitmapsOK, LargeCount, Disjoint;
    if c != b { assert KindOK(x, c) && c in x.ring.home.Keys; }
  }

  ghost function AddedToRing(x: Index, a: int, b: int, n: nat): Index
    requires Inv(x) && a in x.trie.at
  {
    assert HeadOK(x.ring, a);
    assert Linked(x.ring.next, x.ring.prev, Full(x.ring, a), 0);
    x.(size := x.size[b := n], ring := InsertFirst(x.ring, a, b),
       trie := x.trie.(parent := x.trie.parent[b := NoSlot], child0 := x.trie.child0[b := NULL], child1 := x.trie.child1[b := NULL]))
  }

  lemma AddedToRingOK(x: Index, a: int, b: int, n: nat)
    requires Inv(x) && b > 0 && b !in x.size && BlockSize(n) && a in x.trie.at && a in x.size && x.size[a] == n
    ensures Inv(AddedToRing(x, a, b, n))
  {
    var y := AddedToRing(x, a, b, n);
    FreshBlock(x, b);
    InsertFirstOK(x.ring, a, b);
    SizeFrame(x.size, y.size, x.trie);
    LinkFrame(y.size, x.trie, y.trie, b);
    AddedToRingKinds(x, a, b, n);
    RestCountFresh(x, b, n);
    hide KindsOK, Disjoint, Sound, LargeCount;
  }

  lemma AddedToRingKinds(x: Index, a: int, b: int, n: nat)
    requires Inv(x) && b > 0 && b !in x.size && BlockSize(n) && a in x.trie.at && a in x.size && x.size[a] == n &&
      b !in x.trie.at
    ensures KindsOK(AddedToRing(x, a, b, n))
  {
    var y := AddedToRing(x, a, b, n);
    assert KindOK(x, a) && HeadOK(x.ring, a);
    hide Sound, BitmapsOK, LargeCount, Disjoint;
    forall c | c in y.size ensures KindOK(y, c) { if c != b { assert KindOK(x, c); } }
  }

  // ----- a block put at the end of the rest list

  ghost function AddedRest(x: Index, b: int, n: nat): Index
    requires Inv(x)
  {
    assert HeadOK(x.ring, REST);
    var c := Full(x.ring, REST);
    assert Linked(x.ring.next, x.ring.prev, c, 0) && Linked(x.ring.next, x.ring.prev, c, |c| - 1);
    x.(size := x.size[b := n], ring := InsertLast(x.ring, REST, b),
       trie := if Small(n) then x.trie else x.trie.(parent := x.trie.parent[b := RestSlot]),
       restCount := if Small(n) then x.restCount else x.restCount + 1)
  }

  lemma AddedRestOK(x: Index, b: int, n: nat)
    requires Inv(x) && b > 0 && b !in x.size && BlockSize(n) && x.restCount < MAX_REST
    ensures Inv(AddedRest(x, b, n))
  {
    var y := AddedRest(x, b, n);
    FreshBlock(x, b);
    InsertLastOK(x.ring, REST, b);
    SizeFrame(x.size, y.size, x.trie);
    LinkFrame(y.size, x.trie, y.trie, b);
    AddedRestKinds(x, b, n);
    RestCountFresh(x, b, n);
    CountConcat(y.size, Ring(x, REST), [b]);
    AddedRestBits(x, b, n);
    assert LargeCount(y.size, [b]) == if Small(n) then 0 else 1;
    hide KindsOK, BitmapsOK, Disjoint, Sound, LargeCount;
  }

  lemma AddedRestBits(x: Index, b: int, n: nat)
    requires Inv(x) && b > 0 && b !in x.size
    ensures BitmapsOK(AddedRest(x, b, n))
  {
    forall c | c in Ring(x, REST) ensures c in x.size { RingBlocks(x, REST, c); }
    hide Sound, LargeCount, Disjoint, KindsOK;
  }

  lemma AddedRestKinds(x: Index, b: int, n: nat)
    requires Inv(x) && b > 0 && b !in x.size && BlockSize(n) && b !in x.trie.at
    ensures KindsOK(AddedRest(x, b, n))
  {
    hide Sound, BitmapsOK, LargeCount, Disjoint, KindOK, BlockSize;
    var y := AddedRest(x, b, n);
    assert y.ring.home.Keys == y.size.Keys;
    forall c | c in y.size ensures KindOK(y, c) { AddedRestKind(x, b, n, c); }
  }

  lemma AddedRestKind(x: Index, b: int, n: nat, c: int)
    requires Inv(x) && b > 0 && b !in x.size && BlockSize(n) && b !in x.trie.at && c in AddedRest(x, b, n).size
    ensures c in AddedRest(x, b, n).ring.home && KindOK(AddedRest(x, b, n), c)
  {
    hide Sound, BitmapsOK, LargeCount, Disjoint;
    if c != b { assert KindOK(x, c); }
  }

  // ----- a block that is not a trie node taken out of its ring

  ghost function TakenOut(x: Index, b: int, bitmap: nat): Index
    requires Inv(x) && b in x.size && b !in x.trie.at
  {
    NotHead(x, b);
    MemberLinks(x.ring, b);
    x.(size := x.size - {b}, ring := Unlink(x.ring, b), bitmap := bitmap,
       restCount := if !Small(x.size[b]) && x.ring.home[b] == REST &&
         x.restCount > 0 then x.restCount - 1 else x.restCount)
  }

  lemma NotHead(x: Index, b: int)
    requires Inv(x) && b in x.size && b !in x.trie.at
    ensures b in x.ring.home && x.ring.home[b] != b && b !in x.ring.rings
  {
    assert b in x.ring.home.Keys;
    assert KindOK(x, b) && MemberOK(x.ring, b);
  }

  /** The bitmap may lose bits, and loses that of a ring left empty. */
  ghost predicate BitmapFits(x: Index, b: int, bitmap: nat)
    requires Inv(x) && b in x.size && b !in x.trie.at
  {
    var y := TakenOut(x, b, bitmap);
    && (forall i: nat {:trigger Bit(bitmap, i)} :: Bit(bitmap, i) ==> Bit(x.bitmap, i) && Ring(y, SmallHead(i)) != [])
  }

  lemma TakenOutOK(x: Index, b: int, bitmap: nat)
    requires Inv(x) && b in x.size && b !in x.trie.at && BitmapFits(x, b, bitmap)
    ensures Inv(TakenOut(x, b, bitmap))
  {
    var y := TakenOut(x, b, bitmap);
    NotHead(x, b);
    UnlinkOK(x.ring, b);
    SizeFrame(x.size, y.size, x.trie);
    forall c | c in y.size ensures KindOK(y, c) { assert KindOK(x, c); }
    TakenOutCount(x, b, bitmap);
    assert forall c :: c in Ring(y, REST) ==> c in Ring(x, REST);
  }

  lemma TakenOutCount(x: Index, b: int, bitmap: nat)
    requires Inv(x) && b in x.size && b !in x.trie.at
    ensures var y := TakenOut(x, b, bitmap); y.restCount == LargeCount(y.size, Ring(y, REST)) <= MAX_REST
  {
    var y := TakenOut(x, b, bitmap);
    NotHead(x, b);
    assert KindOK(x, b);
    var j := Position(x.ring, b);
    if x.ring.home[b] == REST { CountWithout(x.size, Ring(x, REST), j); }
    forall c | c in Ring(y, REST) ensures c in x.size && c != b {
      assert HeadOK(x.ring, REST);
      HeadApart(x.ring, REST);
      if x.ring.home[b] == REST { WithoutDrops(Ring(x, REST), j); }
      RingBlocks(x, REST, c);
    }
    CountFrame(x.size, y.size, Ring(y, REST));
  }

  // ----- a trie node taken out

  /** A node without ring members, replaced in the trie by nothing or by a leaf below it. */
  ghost function NodeGone(x: Index, b: int, trie: Trie, largeBitmap: nat): Index {
    x.(size := x.size - {b}, ring := DropRing(x.ring, b), trie := trie, largeBitmap := largeBitmap)
  }

  lemma NodeGoneOK(x: Index, b: int, trie: Trie, largeBitmap: nat)
    requires Inv(x) && b in x.trie.at && Ring(x, b) == []
    requires Sound(x.size, trie) && trie.at.Keys == x.trie.at.Keys - {b}
    requires forall c :: c in x.trie.parent && c !in x.trie.at ==>
      c in trie.parent && trie.parent[c] == x.trie.parent[c]
    requires forall i: nat {:trigger Bit(largeBitmap, i)} :: Bit(largeBitmap, i) <==> Pos(i, 1) in trie.node
    ensures Inv(NodeGone(x, b, trie, largeBitmap))
  {
    var y := NodeGone(x, b, trie, largeBitmap);
    assert b in x.trie.at.Keys && x.trie.at[b] == x.trie.at[b];
    assert HeadOK(x.ring, b);
    DropRingOK(x.ring, b);
    assert b !in trie.at.Keys;
    SizeFrame(x.size, y.size, trie);
    NodeGoneKinds(x, b, trie, largeBitmap);
    NodeGoneRest(x, b, trie, largeBitmap);
    hide KindsOK, BitmapsOK, Disjoint, Sound, LargeCount;
  }

  lemma NodeGoneRest(x: Index, b: int, trie: Trie, largeBitmap: nat)
    requires Inv(x) && b in x.trie.at
    requires forall i: nat {:trigger Bit(largeBitmap, i)} :: Bit(largeBitmap, i) <==> Pos(i, 1) in trie.node
    ensures var y := NodeGone(x, b, trie, largeBitmap);
      && BitmapsOK(y)
      && Ring(y, REST) == Ring(x, REST) && REST in y.ring.rings
      && LargeCount(y.size, Ring(y, REST)) == x.restCount
  {
    var y := NodeGone(x, b, trie, largeBitmap);
    assert x.trie.at[b] == x.trie.at[b];
    forall c | c in Ring(x, REST) ensures c in x.size && c != b { RingBlocks(x, REST, c); }
    CountFrame(x.size, y.size, Ring(x, REST));
    hide Sound, Disjoint, LargeCount;
  }

  lemma NodeGoneKinds(x: Index, b: int, trie: Trie, largeBitmap: nat)
    requires Inv(x) && b in x.trie.at && Ring(x, b) == []
    requires trie.at.Keys == x.trie.at.Keys - {b}
    requires forall c :: c in x.trie.parent && c !in x.trie.at ==>
      c in trie.parent && trie.parent[c] == x.trie.parent[c]
    ensures KindsOK(NodeGone(x, b, trie, largeBitmap))
  {
    var y := NodeGone(x, b, trie, largeBitmap);
    assert x.trie.at[b] == x.trie.at[b];
    assert forall a :: a in trie.at <==> a in trie.at.Keys;
    assert forall a :: a in x.trie.at <==> a in x.trie.at.Keys;
    forall c | c in y.size ensures KindOK(y, c) {
      assert KindOK(x, c);
      assert c in x.ring.home.Keys;
      assert MemberOK(x.ring, c);
    }
    hide Sound, Disjoint, LargeCount, BitmapsOK, KindOK;
  }

  /** A node with ring members: its last member takes over node and ring. */
  ghost function NodePromoted(x: Index, b: int): Index
    requires Inv(x) && b in x.trie.at && Ring(x, b) != [] && NodeOK(x.size, x.trie, x.trie.at[b])
  {
    assert HeadOK(x.ring, b);
    assert Linked(x.ring.next, x.ring.prev, Full(x.ring, b), 0);
    x.(size := x.size - {b}, ring := Promote(x.ring, b), trie := Replace(x.trie, x.trie.at[b], Last(x, b)))
  }

  ghost function Last(x: Index, b: int): int
    requires Ring(x, b) != []
  {
    Ring(x, b)[|Ring(x, b)| - 1]
  }

  /** The ring of a trie node: further blocks of its size, not nodes themselves. */
  lemma RingOfNode(x: Index, b: int, c: int)
    requires Inv(x) && b in x.trie.at && c in Ring(x, b)
    ensures c != b && c in x.size && b in x.size && x.size[c] == x.size[b] && c > 0
    ensures c !in x.trie.at && c !in x.ring.rings && c in x.ring.home && x.ring.home[c] == b
    ensures c in x.trie.parent && x.trie.parent[c] == NoSlot
  {
    RingBlocks(x, b, c);
    assert HeadOK(x.ring, b);
    HeadApart(x.ring, b);
    assert x.trie.at[b] == x.trie.at[b] && x.size[c] == x.size[c];
  }

  lemma NodePromotedOK(x: Index, b: int)
    requires Inv(x) && b in x.trie.at && Ring(x, b) != []
    ensures NodeOK(x.size, x.trie, x.trie.at[b]) && Inv(NodePromoted(x, b))
  {
    var q, p := x.trie.at[b], Last(x, b);
    assert NodeOK(x.size, x.trie, q);
    var y := NodePromoted(x, b);
    assert HeadOK(x.ring, b) && KindOK(x, b);
    forall c | c in Ring(x, b) ensures c !in x.ring.rings { RingOfNode(x, b, c); }
    PromoteOK(x.ring, b);
    RingOfNode(x, b, p);
    NodePromotedTrie(x, b);
    NodePromotedKinds(x, b);
    NodePromotedRest(x, b);
    hide KindsOK, BitmapsOK, Disjoint, Sound, LargeCount;
  }

  lemma NodePromotedTrie(x: Index, b: int)
    requires Inv(x) && b in x.trie.at && Ring(x, b) != [] && NodeOK(x.size, x.trie, x.trie.at[b])
    ensures var y := NodePromoted(x, b); Sound(y.size, y.trie)
  {
    var y, q, p := NodePromoted(x, b), x.trie.at[b], Last(x, b);
    RingOfNode(x, b, p);
    assert forall a :: a in x.trie.at && a in x.size && a != b ==> x.size[a] != x.size[p];
    ReplaceOK(x.size, x.trie, q, p);
    assert y.trie.at == (x.trie.at - {b})[p := q];
    SizeFrame(x.size, y.size, y.trie);
  }

  lemma NodePromotedKinds(x: Index, b: int)
    requires Inv(x) && b in x.trie.at && Ring(x, b) != [] && NodeOK(x.size, x.trie, x.trie.at[b])
    ensures KindsOK(NodePromoted(x, b))
  {
    var y, q, p := NodePromoted(x, b), x.trie.at[b], Last(x, b);
    RingOfNode(x, b, p);
    assert y.trie.at == (x.trie.at - {b})[p := q];
    hide Sound, Disjoint, LargeCount, BitmapsOK, KindOK;
    forall c | c in y.size ensures KindOK(y, c) { NodePromotedKind(x, b, c); }
  }

  lemma NodePromotedKind(x: Index, b: int, c: int)
    requires Inv(x) && b in x.trie.at && Ring(x, b) != [] && NodeOK(x.size, x.trie, x.trie.at[b])
    requires c in x.size && c != b
    ensures c in NodePromoted(x, b).ring.home && KindOK(NodePromoted(x, b), c)
  {
    hide LargeCount, BitmapsOK, BlockSize;
    var y, q, p := NodePromoted(x, b), x.trie.at[b], Last(x, b);
    RingOfNode(x, b, p);
    assert HeadOK(x.ring, b) && KindOK(x, b) && KindOK(x, c);
    assert c in x.ring.home.Keys;
    if c in x.trie.at { assert HeadOK(x.ring, c); }
    else if c in x.trie.parent && c != p { ReplaceParents(x.size, x.trie, q, p, c); }
    assert y.trie.at == (x.trie.at - {b})[p := q];
    hide Sound;
  }

  lemma NodePromotedRest(x: Index, b: int)
    requires Inv(x) && b in x.trie.at && Ring(x, b) != [] && NodeOK(x.size, x.trie, x.trie.at[b])
    ensures var y := NodePromoted(x, b);
      && BitmapsOK(y)
      && Ring(y, REST) == Ring(x, REST) && REST in y.ring.rings
      && LargeCount(y.size, Ring(y, REST)) == x.restCount
  {
    var y := NodePromoted(x, b);
    NodePromotedRings(x, b);
    hide Sound, Disjoint, KindsOK;
    CountFrame(x.size, y.size, Ring(x, REST));
    hide LargeCount;
  }

  /** The rings of the sentinels stay, and what is in them. */
  lemma NodePromotedRings(x: Index, b: int)
    requires Inv(x) && b in x.trie.at && Ring(x, b) != [] && NodeOK(x.size, x.trie, x.trie.at[b])
    ensures var y := NodePromoted(x, b);
      && (forall h {:trigger Ring(y, h)} :: IsSentinel(h) ==> Ring(y, h) == Ring(x, h))
      && REST in y.ring.rings
      && (forall i :: Pos(i, 1) in y.trie.node <==> Pos(i, 1) in x.trie.node)
      && (forall c :: c in Ring(x, REST) ==> c in x.size && c in y.size && y.size[c] == x.size[c])
  {
    var y := NodePromoted(x, b);
    RingOfNode(x, b, Last(x, b));
    forall c | c in Ring(x, REST) ensures c in x.size && c != b { RingBlocks(x, REST, c); }
    hide Sound, Disjoint, LargeCount, BitmapsOK;
  }
}
