/** What the list functions of the allocator do to the free index, as relations on values, and the
    lemmas their proofs are made of. */
module FreeIndexSteps {
  import opened Bits
  import opened Sizes
  import opened Paths
  import opened Rings
  import opened RingSets
  import opened Tries
  import opened FreeIndexState

  /** Where a free block is kept. */
  datatype List = SmallRing(index: nat) | LargeTrie | RestList

  ghost function ListOf(x: Index, b: int): List {
    var h := Owner(x.ring, b);
    if h in x.trie.at then LargeTrie else if h == REST then RestList else SmallRing(if h < 0 then -1 - h else 0)
  }

  /** The words a free block carries behind its header. */
  datatype LinkWords = LinkWords(next: Links, prev: Links, parent: map<int, Slot>, child0: map<int, int>, child1: map<int, int>)

  /** The heads in the heap structure. The small and rest heads are the link words of sentinels. */
  datatype Heads = Heads(bucket: seq<int>, bitmap: nat, largeBitmap: nat, restCount: nat)

  /** What the words mean: see `RingSets` and `Tries`. */
  datatype Shape = Shape(rings: map<int, seq<int>>, home: map<int, int>, node: map<Pos, int>, at: map<int, Pos>)

  ghost function TrieOf(l: LinkWords, h: Heads, s: Shape): Trie {
    Trie(l.parent, l.child0, l.child1, h.bucket, s.node, s.at)
  }

  ghost function Assemble(size: map<int, nat>, l: LinkWords, h: Heads, s: Shape): Index {
    Index(size, RingSet(l.next, l.prev, s.rings, s.home), TrieOf(l, h, s), h.bitmap, h.largeBitmap, h.restCount)
  }

  ghost function ShapeOf(x: Index): Shape {
    Shape(x.ring.rings, x.ring.home, x.trie.node, x.trie.at)
  }

  /** The bitmap after a block of size `n` is put on its free list: the bit of a small ring that was empty
      is set. */
  ghost function BitmapWith(x: Index, n: nat): nat {
    if MIN_BLOCK <= n && Small(n) && Ring(x, SmallHead(BucketIndex(n))) == [] then SetBit(x.bitmap, BucketIndex(n))
    else x.bitmap
  }

  /** The same rings have lost their bits. */
  ghost predicate SameLost(x: Index, y: Index) {
    forall i: nat {:trigger Lost(y, i)} :: Lost(y, i) <==> Lost(x, i)
  }

  /** The effect of putting `b` on a free list: it joins the list of its size, and nothing else moves. */
  ghost predicate Added(x: Index, y: Index, b: int, n: nat) {
    && y.size == x.size[b := n]
    && n >= MIN_BLOCK
    && ListOf(y, b) == (if Small(n) then SmallRing(BucketIndex(n)) else LargeTrie)
    && (forall c {:trigger ListOf(y, c)} :: c in x.size ==> ListOf(y, c) == ListOf(x, c))
    && (forall h {:trigger Ring(y, h)} :: IsSentinel(h) ==>
          Ring(y, h) == (if Small(n) && h == SmallHead(BucketIndex(n)) then [b] else []) + Ring(x, h))
    && y.restCount == x.restCount && y.bitmap == BitmapWith(x, n)
    && RingsWith(x, y, b, n) && NodesWith(x, y, b, n)
  }

  /** The ring of `h` takes blocks of size `n`: a small ring, or the ring of a trie node of that size. */
  ghost predicate Takes(x: Index, n: nat, h: int) {
    if MIN_BLOCK <= n && Small(n) then h == SmallHead(BucketIndex(n))
    else h in x.trie.at && h in x.size && x.size[h] == n
  }

  /** The block goes to the front of the ring that takes its size, if there is one; no other ring changes. */
  ghost predicate RingsWith(x: Index, y: Index, b: int, n: nat) {
    forall h {:trigger Ring(y, h)} :: Ring(y, h) == if Takes(x, n, h) then [b] + Ring(x, h) else Ring(x, h)
  }

  /** A large block of a new size becomes a node, at the one vacant place on the path of its bits; no other
      node moves. */
  ghost predicate NodesWith(x: Index, y: Index, b: int, n: nat) {
    if Small(n) || exists a :: Takes(x, n, a) then y.trie.node == x.trie.node
    else exists q :: Vacant(x.trie, q) && Belongs(q, n) && y.trie.node == x.trie.node[q := b]
  }

  /** The bitmap after `b` leaves its ring: the bit of its size is cleared when it was alone in its
      ring and at most one block is left in the small ring of that size. */
  ghost function BitmapWithout(x: Index, b: int): nat {
    var n := if b in x.size then x.size[b] else 0;
    if b !in x.trie.at && MIN_BLOCK <= n && Small(n) then
      var i, h := BucketIndex(n), Owner(x.ring, b);
      var left := |Ring(x, SmallHead(i))| - (if h == SmallHead(i) then 1 else 0);
      if |Ring(x, h)| == 1 && left <= 1 then ClearBit(x.bitmap, i) else x.bitmap
    else x.bitmap
  }

  /** The effect of taking `b` off whichever list it is on. */
  ghost predicate Removed(x: Index, y: Index, b: int) {
    && y.size == x.size - {b}
    && (forall c {:trigger ListOf(y, c)} :: c in y.size ==> ListOf(y, c) == ListOf(x, c))
    && (forall h {:trigger Ring(y, h)} :: IsSentinel(h) ==> LeftOver(Ring(x, h), Ring(y, h), b))
    && y.bitmap == BitmapWithout(x, b)
    && RingsWithout(x, y, b) && NodesWithout(x, y, b)
  }

  /** A ring loses the block; that of a node goes to the last block of it, without that block. */
  ghost predicate RingsWithout(x: Index, y: Index, b: int) {
    forall h {:trigger Ring(y, h)} ::
      if b !in x.trie.at then LeftOver(Ring(x, h), Ring(y, h), b)
      else if h == b then Ring(y, h) == []
      else if Ring(x, b) != [] && h == Last(x, b) then Ring(y, h) == Ring(x, b)[..|Ring(x, b)| - 1]
      else Ring(y, h) == Ring(x, h)
  }

  /** The place of a node goes to the last block of its ring. If there is none it goes to the leaf below it that
      is reached by right turns where possible, whose own place is given up. No other node moves. */
  ghost predicate NodesWithout(x: Index, y: Index, b: int) {
    if b !in x.trie.at then y.trie.node == x.trie.node
    else
      var q := x.trie.at[b];
      if Ring(x, b) != [] then y.trie.node == x.trie.node[q := Last(x, b)]
      else
        var l := LeafOf(x.trie.node, q);
        if l == q then y.trie.node == x.trie.node - {q}
        else l in x.trie.node && y.trie.node == (x.trie.node - {l})[q := x.trie.node[l]]
  }

  /** Down from `q`, right where possible. */
  ghost function LeafOf(node: map<Pos, int>, q: Pos): Pos
    decreases WORD - q.path
  {
    if q.path < 1 || q.path >= WORD then q
    else if Down(q, 1) in node then LeafOf(node, Down(q, 1))
    else if Down(q, 0) in node then LeafOf(node, Down(q, 0))
    else q
  }

  /** `d` is `c` without its element `b`, if it has one. */
  ghost predicate LeftOver(c: seq<int>, d: seq<int>, b: int) {
    if b in c then exists j :: 0 <= j < |c| && c[j] == b && d == Without(c, j) else d == c
  }

  /** No block of bucket `index` is smaller than `a`. */
  ghost predicate Smallest(x: Index, index: nat, a: int) {
    a in x.size && forall c {:trigger x.trie.at[c]} :: c in x.trie.at && c in x.size && x.trie.at[c].bucket == index ==> x.size[a] <= x.size[c]
  }

  /** The free list for a block of size `n`. */
  function ListFor(n: nat): List {
    if MIN_BLOCK <= n && Small(n) then SmallRing(BucketIndex(n)) else LargeTrie
  }

  /** The oldest `k` blocks of the rest list are on the free lists of their sizes, all others where they were. */
  ghost predicate EvictedLists(x: Index, y: Index, k: nat)
    requires k <= |Ring(x, REST)|
  {
    forall c {:trigger ListOf(y, c)} :: c in x.size ==>
      ListOf(y, c) == if c in Ring(x, REST)[..k] then ListFor(x.size[c]) else ListOf(x, c)
  }

  /** The oldest block of the rest list off it, nothing else changed. */
  ghost predicate OldestOff(x: Index, y: Index) {
    && Ring(x, REST) != [] && y.size == x.size - {Ring(x, REST)[0]} && y.bitmap == x.bitmap
    && (forall h {:trigger Ring(y, h)} :: Ring(y, h) == if h == REST then Ring(x, REST)[1..] else Ring(x, h))
    && y.trie.node == x.trie.node
  }

  /** It is off the rest list and then put on the free list of its size. */
  ghost predicate OneEvicted(x: Index, y: Index) {
    exists w :: OldestOff(x, w) && Ring(x, REST)[0] in x.size && Added(w, y, Ring(x, REST)[0], x.size[Ring(x, REST)[0]])
  }

  /** The oldest `k` blocks evicted one after the other. */
  ghost predicate EvictedInTurn(x: Index, y: Index, k: nat)
    decreases k
  {
    if k == 0 then y == x else exists m :: EvictedInTurn(x, m, k - 1) && OneEvicted(m, y)
  }

  /** One more block at the end of the rest list, nothing else changed. */
  ghost predicate Appended(x: Index, y: Index, b: int, n: nat) {
    && y.size == x.size[b := n] && y.bitmap == x.bitmap && y.trie.node == x.trie.node
    && (forall h {:trigger Ring(y, h)} :: Ring(y, h) == if h == REST then Ring(x, REST) + [b] else Ring(x, h))
  }

  ghost predicate EvictedThenAppended(x: Index, y: Index, b: int, n: nat, k: nat) {
    exists m :: EvictedInTurn(x, m, k) && Appended(m, y, b, n)
  }

  /** The oldest `k` blocks of the rest list moved to the free lists of their sizes, nothing else changed. */
  ghost predicate Evicted(x: Index, y: Index, k: nat) {
    && y.size == x.size && SameLost(x, y)
    && k <= |Ring(x, REST)| && Ring(y, REST) == Ring(x, REST)[k..]
    && EvictedLists(x, y, k) && EvictedInTurn(x, y, k)
  }

  ghost predicate OldestEvicted(x: Index, y: Index) {
    && y.size == x.size && SameLost(x, y)
    && Ring(x, REST) != [] && Ring(y, REST) == Ring(x, REST)[1..]
    && (forall c {:trigger ListOf(y, c)} :: c in x.size ==>
          ListOf(y, c) == if c == Ring(x, REST)[0] then ListFor(x.size[c]) else ListOf(x, c))
    && OneEvicted(x, y)
  }

  /** So far at most the last evicted block was large. */
  ghost predicate NoneLargeBut(x: Index, k: nat) {
    k > 0 ==> x.restCount >= MAX_REST && k <= |Ring(x, REST)| && LargeCount(x.size, Ring(x, REST)[..k - 1]) == 0
  }

  /** The effect of putting `b` on the rest list. Blocks are evicted, oldest first, only when the list
      is full, and then up to and including the first large one. */
  ghost predicate Rested(x: Index, y: Index, b: int, n: nat, k: nat) {
    && k <= |Ring(x, REST)|
    && LargeCount(x.size, Ring(x, REST)[..k]) == (if x.restCount < MAX_REST then 0 else 1)
    && (if x.restCount < MAX_REST then k == 0 else k > 0 && LargeCount(x.size, Ring(x, REST)[..k - 1]) == 0)
    && y.size == x.size[b := n]
    && Ring(y, REST) == Ring(x, REST)[k..] + [b]
    && EvictedLists(x, y, k)
    && SameLost(x, y)
    && EvictedThenAppended(x, y, b, n, k)
  }

  function StoreLink(l: LinkWords, s: Slot, x: int): LinkWords {
    match s
    case ChildSlot(b, side) => if side == 0 then l.(child0 := l.child0[b := x]) else l.(child1 := l.child1[b := x])
    case _ => l
  }

  function StoreHead(h: Heads, s: Slot, x: int): Heads {
    match s
    case BucketSlot(i) => if i < |h.bucket| then h.(bucket := h.bucket[i := x]) else h
    case _ => h
  }

  function LoadSlot(l: LinkWords, h: Heads, s: Slot): int {
    match s
    case BucketSlot(i) => if i < |h.bucket| then h.bucket[i] else NULL
    case ChildSlot(b, side) =>
      if side == 0 then (if b in l.child0 then l.child0[b] else NULL) else (if b in l.child1 then l.child1[b] else NULL)
    case _ => NULL
  }

  /** The link words of a new node: no children, alone in its ring, stored in slot `p`. */
  function NewNodeLinks(l: LinkWords, p: Slot, b: int): LinkWords {
    var l1 := StoreLink(l.(child0 := l.child0[b := NULL], child1 := l.child1[b := NULL]), p, b);
    l1.(parent := l1.parent[b := p], next := l1.next[b := b], prev := l1.prev[b := b])
  }

  function NewNodeHeads(h: Heads, p: Slot, b: int): Heads {
    var h1 := StoreHead(h, p, b);
    if p.BucketSlot? then h1.(largeBitmap := SetBit(h1.largeBitmap, p.bucket)) else h1
  }

  lemma NewNodeWords(size: map<int, nat>, l: LinkWords, h: Heads, s: Shape, q: Pos, b: int, n: nat)
    requires q.path >= 1
    ensures var x := Assemble(size, l, h, s);
      var y, p := AddedNode(x, q, b, n), SlotOf(x.trie, q);
      Assemble(size[b := n], NewNodeLinks(l, p, b), NewNodeHeads(h, p, b), ShapeOf(y)) == y
  {
    var x := Assemble(size, l, h, s);
    var p := SlotOf(x.trie, q);
    StoreWords(l.(child0 := l.child0[b := NULL], child1 := l.child1[b := NULL]), h, s, p, b);
    hide StoreLink, StoreHead, Store;
  }

  /** Storing through a slot, in the words and in the trie they make up. */
  lemma StoreWords(l: LinkWords, h: Heads, s: Shape, p: Slot, b: int)
    ensures Store(TrieOf(l, h, s), p, b) == TrieOf(StoreLink(l, p, b), StoreHead(h, p, b), s)
    ensures StoreLink(l, p, b).next == l.next && StoreLink(l, p, b).prev == l.prev &&
      StoreLink(l, p, b).parent == l.parent
    ensures StoreHead(h, p, b) == h.(bucket := StoreHead(h, p, b).bucket)
  {}

  lemma LargeIndex(x: Index, n: nat)
    requires Inv(x) && BlockSize(n) && !Small(n)
    ensures |x.trie.bucket| == 64 && Log2(n) < 64
  {
    SearchWordStart(n);
  }

  lemma EmptyBucket(x: Index, n: nat)
    requires Inv(x) && BlockSize(n) && !Small(n) && Log2(n) < 64 && |x.trie.bucket| == 64 &&
      x.trie.bucket[Log2(n)] == NULL
    ensures var q := Pos(Log2(n), 1);
      && Vacant(x.trie, q) && Belongs(q, n) && SlotOf(x.trie, q) == BucketSlot(Log2(n))
      && forall a :: a in x.trie.at && a in x.size ==> x.size[a] != n
  {
    var q := Pos(Log2(n), 1);
    RootIsPrefix(n);
    if q in x.trie.node { AtSlot(x, q); }
    forall a | a in x.trie.at && a in x.size ensures x.size[a] != n {
      if x.size[a] == n { AboveTheGap(x.size, x.trie, a, q); }
    }
  }

  /** No node of size `n` stands above `q` on its search path. */
  ghost predicate NotAbove(x: Index, n: nat, q: Pos) {
    forall a {:trigger x.trie.at[a]} :: a in x.trie.at && a in x.size && x.size[a] == n ==> x.trie.at[a].path >= q.path
  }

  lemma StartPath(x: Index, n: nat)
    requires Inv(x) && n > 1 && Log2(n) < 64 && |x.trie.bucket| == 64 && x.trie.bucket[Log2(n)] != NULL
    ensures Pos(Log2(n), 1) in x.trie.node && NotAbove(x, n, Pos(Log2(n), 1))
  {
    forall a | a in x.trie.at && a in x.size && x.size[a] == n ensures x.trie.at[a].path >= 1 {
      assert NodeOK(x.size, x.trie, x.trie.at[a]);
    }
  }

  /** Following the slot of an occupied place leads to its block. */
  lemma AtSlot(x: Index, q: Pos)
    requires Inv(x) && q in x.trie.node
    ensures Load(x.trie, SlotOf(x.trie, q)) == x.trie.node[q] && x.trie.node[q] in x.trie.at && x.trie.node[q] in x.size
    ensures x.trie.at[x.trie.node[q]] == q && x.trie.node[q] > 0
    ensures forall side :: 0 <= side < 2 ==>
      Load(x.trie, ChildSlot(x.trie.node[q], side)) == NodeAt(x.trie, Down(q, side))
    ensures forall side :: 0 <= side < 2 && Down(q, side) !in x.trie.node ==> Vacant(x.trie, Down(q, side))
    ensures forall side :: 0 <= side < 2 ==> SlotOf(x.trie, Down(q, side)) == ChildSlot(x.trie.node[q], side)
    ensures forall side :: 0 <= side < 2 && Down(q, side) in x.trie.node ==> x.trie.node[Down(q, side)] > 0
  {
    assert NodeOK(x.size, x.trie, q);
    if q.path > 1 { assert NodeOK(x.size, x.trie, Up(q)); assert q == Down(Up(q), q.path % 2); }
    assert Up(Down(q, 0)) == Up(Down(q, 1)) == q;
    if Down(q, 0) in x.trie.node { assert NodeOK(x.size, x.trie, Down(q, 0)); }
    if Down(q, 1) in x.trie.node { assert NodeOK(x.size, x.trie, Down(q, 1)); }
  }

  /** One level down: if the node at `q` has another size, bits remain, and every node of size `n`
      lies at or below the next place; if that is vacant there is none. */
  lemma Deeper(x: Index, n: nat, q: Pos, m: nat, e: nat)
    requires Inv(x) && BlockSize(n) && e <= Log2(n) < 64 && m < WORD && SearchWord(m, n, e)
    requires q in x.trie.node && q.bucket == Log2(n) && q.path == Shr(n, e) && NotAbove(x, n, q)
    requires x.trie.node[q] in x.size && x.size[x.trie.node[q]] != n
    ensures e >= 1
    ensures var r := Down(q, if TopBit(m) then 1 else 0);
      && r.path == Shr(n, e - 1) && Belongs(r, n) && NotAbove(x, n, r)
      && (r !in x.trie.node ==> forall a :: a in x.trie.at && a in x.size ==> x.size[a] != n)
  {
    assert NodeOK(x.size, x.trie, q);
    ShrIsPrefix(n, e);
    if e == 0 { PrefixBelow(n, x.size[x.trie.node[q]]); }
    SearchWordStep(m, n, e);
    ShrIsPrefix(n, e - 1);
    var r := Down(q, if TopBit(m) then 1 else 0);
    forall a | a in x.trie.at && a in x.size && x.size[a] == n ensures x.trie.at[a].path >= r.path {
      var k := x.trie.at[a];
      assert NodeOK(x.size, x.trie, k);
      assert k.path != q.path;
      PrefixesNest(q.path, k.path, n);
      if k.path < r.path { PrefixesNest(k.path, r.path, n); }
    }
    if r !in x.trie.node {
      forall a | a in x.trie.at && a in x.size ensures x.size[a] != n {
        if x.size[a] == n { AboveTheGap(x.size, x.trie, a, r); }
      }
    }
  }

  /** The words of the node at an occupied place. */
  lemma NodeWords(x: Index, q: Pos)
    requires Inv(x) && q in x.trie.node
    ensures var a, t := x.trie.node[q], x.trie;
      && a > 0 && a in t.at && t.at[a] == q && q.path >= 1 && q.path < WORD
      && a in t.child0 && t.child0[a] == NodeAt(t, Down(q, 0)) && SlotOf(t, Down(q, 0)) == ChildSlot(a, 0)
      && a in t.child1 && t.child1[a] == NodeAt(t, Down(q, 1)) && SlotOf(t, Down(q, 1)) == ChildSlot(a, 1)
      && (Down(q, 0) in t.node ==> t.node[Down(q, 0)] != NULL)
      && (Down(q, 1) in t.node ==> t.node[Down(q, 1)] != NULL)
  {
    assert NodeOK(x.size, x.trie, q);
    PrefixBelow(q.path, x.size[x.trie.node[q]]);
    assert x.size[x.trie.node[q]] < WORD;
    assert Up(Down(q, 0)) == Up(Down(q, 1)) == q;
    if Down(q, 0) in x.trie.node { assert NodeOK(x.size, x.trie, Down(q, 0)); }
    if Down(q, 1) in x.trie.node { assert NodeOK(x.size, x.trie, Down(q, 1)); }
  }

  lemma BlockLinks(x: Index, b: int)
    requires Inv(x) && b in x.size
    ensures b in x.ring.next && b in x.ring.prev
  {
    assert b in x.ring.home.Keys;
    if b in x.trie.at { NodeLinks(x, b); } else { NotHead(x, b); MemberLinks(x.ring, b); }
  }

  lemma NotOwnNeighbour(x: Index, b: int)
    requires Inv(x) && b in x.size && b !in x.trie.at
    ensures b in x.ring.prev && x.ring.prev[b] != b
  {
    NotHead(x, b);
    MemberLinks(x.ring, b);
    assert HeadOK(x.ring, x.ring.home[b]);
    var c, j := Full(x.ring, x.ring.home[b]), Position(x.ring, b) + 1;
    assert Before(c, j) == c[j - 1] && c[j] == b;
  }

  /** A block that is its own predecessor is a trie node without ring members. */
  lemma LoneNode(x: Index, b: int)
    requires Inv(x) && b in x.size && b in x.ring.prev && x.ring.prev[b] == b
    ensures b in x.trie.at && Ring(x, b) == [] && x.trie.at[b] in x.trie.node && x.trie.node[x.trie.at[b]] == b
    ensures b in x.trie.parent && b in x.trie.child0 && b in x.trie.child1 && x.size[b] > 0
  {
    if b !in x.trie.at { NotOwnNeighbour(x, b); }
    assert HeadOK(x.ring, b);
    assert Linked(x.ring.next, x.ring.prev, Full(x.ring, b), 0);
    HeadApart(x.ring, b);
    assert NodeOK(x.size, x.trie, x.trie.at[b]);
  }

  lemma LogBound(x: Index, b: int)
    requires Inv(x) && b in x.size
    ensures 0 < x.size[b] < WORD
  {}

  function ClearedHeads(h: Heads, p: Slot, index: nat): Heads {
    var h1 := StoreHead(h, p, NULL);
    if p == BucketSlot(index) then h1.(largeBitmap := ClearBit(h1.largeBitmap, index)) else h1
  }

  ghost function LeafGone(x: Index, b: int): Index
    requires b in x.trie.at && x.trie.at[b] in x.trie.node
  {
    var q := x.trie.at[b];
    NodeGone(x, b, DropLeaf(x.trie, q), if q.path == 1 then ClearBit(x.largeBitmap, q.bucket) else x.largeBitmap)
  }

  lemma LeafDropped(size: map<int, nat>, l: LinkWords, h: Heads, s: Shape, b: int)
    requires var x := Assemble(size, l, h, s);
      && Inv(x) && b in s.at && Ring(x, b) == [] && b in l.parent
      && b in l.child0 && l.child0[b] == NULL && b in l.child1 && l.child1[b] == NULL
    ensures s.at[b] in s.node && b in size && size[b] > 0
    ensures var x := Assemble(size, l, h, s);
      var y := LeafGone(x, b);
      && Inv(y) && Removed(x, y, b)
      && Assemble(size - {b}, StoreLink(l, l.parent[b], NULL), ClearedHeads(h, l.parent[b], Log2(size[b])), ShapeOf(y)) == y
  {
    var x, q := Assemble(size, l, h, s), s.at[b];
    assert NodeOK(x.size, x.trie, q);
    NodeWords(x, q);
    LeafGoneOK(x, b);
    StoreWords(l, h, s, l.parent[b], NULL);
    hide Inv, Removed, Store, StoreLink, StoreHead;
  }

  lemma LeafGoneOK(x: Index, b: int)
    requires Inv(x) && b in x.trie.at && Ring(x, b) == [] && IsLeaf(x.trie, x.trie.at[b]) &&
      x.trie.node[x.trie.at[b]] == b
    ensures Inv(LeafGone(x, b)) && Removed(x, LeafGone(x, b), b)
  {
    var q, y := x.trie.at[b], LeafGone(x, b);
    DropLeafOK(x.size, x.trie, q);
    assert q == Pos(q.bucket, q.path);
    forall i: nat ensures Bit(y.largeBitmap, i) <==> Pos(i, 1) in y.trie.node {
      ClearBitBits(x.largeBitmap, q.bucket, i);
    }
    assert y.trie.at == x.trie.at - {b};
    NodeGoneOK(x, b, y.trie, y.largeBitmap);
    NodeGoneEffect(x, b, y.trie, y.largeBitmap);
  }

  /** The label `subst_block`: block `p` takes over slot and children of node `b`. */
  function SubstLinks(l: LinkWords, b: int, p: int): LinkWords
    requires b in l.parent && b in l.child0 && b in l.child1
  {
    var l1 := StoreLink(l, l.parent[b], p);
    var l2 := l1.(parent := l1.parent[p := l1.parent[b]], child0 := l1.child0[p := l1.child0[b]]);
    var l3 := if l2.child0[p] == NULL then l2 else l2.(parent := l2.parent[l2.child0[p] := ChildSlot(p, 0)]);
    var l4 := l3.(child1 := l3.child1[p := l3.child1[b]]);
    if l4.child1[p] == NULL then l4 else l4.(parent := l4.parent[l4.child1[p] := ChildSlot(p, 1)])
  }

  lemma SubstWords(l: LinkWords, h: Heads, s: Shape, q: Pos, p: int)
    requires q in s.node && s.node[q] in l.parent && s.node[q] in l.child0 && s.node[q] in l.child1
    requires p != s.node[q] && (l.parent[s.node[q]].ChildSlot? ==> l.parent[s.node[q]].block != s.node[q])
    ensures var b := s.node[q];
      var t' := Replace(TrieOf(l, h, s), q, p);
      && TrieOf(SubstLinks(l, b, p), StoreHead(h, l.parent[b], p), s.(node := t'.node, at := t'.at)) == t'
      && SubstLinks(l, b, p).next == l.next && SubstLinks(l, b, p).prev == l.prev
      && StoreHead(h, l.parent[b], p) == h.(bucket := t'.bucket)
  {
    var b := s.node[q];
    StoreWords(l, h, s, l.parent[b], p);
    StoreElsewhere(l, l.parent[b], p, b);
    hide StoreLink, StoreHead, Store;
  }

  lemma StoreElsewhere(l: LinkWords, slot: Slot, x: int, b: int)
    requires b in l.child0 && b in l.child1 && (slot.ChildSlot? ==> slot.block != b)
    ensures var l' := StoreLink(l, slot, x);
      b in l'.child0 && b in l'.child1 && l'.child0[b] == l.child0[b] && l'.child1[b] == l.child1[b]
  {}

  /** The parent slot of a node lies outside it. */
  lemma ParentElsewhere(size: map<int, nat>, t: Trie, q: Pos)
    requires Sound(size, t) && q in t.node
    ensures NodeOK(size, t, q) && (t.parent[t.node[q]].ChildSlot? ==> t.parent[t.node[q]].block != t.node[q])
  {
    assert NodeOK(size, t, q);
    if q.path > 1 { assert NodeOK(size, t, Up(q)); }
  }

  ghost function LeafRaised(x: Index, b: int, l: Pos): Index
    requires b in x.trie.at && x.trie.at[b] in x.trie.node && l in x.trie.node && l != x.trie.at[b]
    requires var t1, a := DropLeaf(x.trie, l), x.trie.node[x.trie.at[b]];
      a in t1.parent && a in t1.child0 && a in t1.child1
  {
    NodeGone(x, b, MoveLeaf(x.trie, x.trie.at[b], l), x.largeBitmap)
  }

  lemma LeafRaisedOK(x: Index, b: int, l: Pos)
    requires Inv(x) && b in x.trie.at && Ring(x, b) == [] && x.trie.at[b] in x.trie.node &&
      x.trie.node[x.trie.at[b]] == b
    requires LeafBelow(x.trie, x.trie.at[b], l) && l == LeafOf(x.trie.node, x.trie.at[b])
    ensures NodeOK(x.size, DropLeaf(x.trie, l), x.trie.at[b])
    ensures Inv(LeafRaised(x, b, l)) && Removed(x, LeafRaised(x, b, l), b)
  {
    var q := x.trie.at[b];
    var t1, p := DropLeaf(x.trie, l), x.trie.node[l];
    MoveLeafOK(x.size, x.trie, q, l);
    DropLeafOK(x.size, x.trie, l);
    assert NodeOK(x.size, x.trie, l);
    var y := LeafRaised(x, b, l);
    assert y.trie.at == (x.trie.at - {p} - {b})[p := q];
    assert y.trie.node == (x.trie.node - {l})[q := p];
    forall c | c in x.trie.parent && c !in x.trie.at ensures c in y.trie.parent &&
      y.trie.parent[c] == x.trie.parent[c] {
      ReplaceParents(x.size, t1, q, p, c);
    }
    RootKept(x.trie, q, l);
    NodeGoneOK(x, b, y.trie, y.largeBitmap);
    NodeGoneEffect(x, b, y.trie, y.largeBitmap);
  }

  lemma RootKept(t: Trie, q: Pos, l: Pos)
    requires LeafBelow(t, q, l)
    ensures forall i: nat :: Pos(i, 1) in t.node <==> Pos(i, 1) == q || Pos(i, 1) in t.node - {l}
  {
    PrefixBelow(q.path, l.path);
  }

  lemma LeafMoved(size: map<int, nat>, l: LinkWords, h: Heads, s: Shape, b: int, k: Pos)
    requires var x := Assemble(size, l, h, s);
      && Inv(x) && b in s.at && Ring(x, b) == [] && s.at[b] in s.node && s.node[s.at[b]] == b
      && LeafBelow(x.trie, s.at[b], k) && k == LeafOf(s.node, s.at[b])
    ensures var x := Assemble(size, l, h, s);
      var q, rp, p := s.at[b], SlotOf(x.trie, k), s.node[k];
      var l1, h1 := StoreLink(l, rp, NULL), StoreHead(h, rp, NULL);
      && NodeOK(size, DropLeaf(x.trie, k), q)
      && b in l1.parent && b in l1.child0 && b in l1.child1
      && var y := LeafRaised(x, b, k);
      && Inv(y) && Removed(x, y, b)
      && Assemble(size - {b}, SubstLinks(l1, b, p), StoreHead(h1, l1.parent[b], p), ShapeOf(y)) == y
  {
    var x, q, p := Assemble(size, l, h, s), s.at[b], s.node[k];
    var rp := SlotOf(x.trie, k);
    LeafRaisedOK(x, b, k);
    StoreWords(l, h, s, rp, NULL);
    var t1 := DropLeaf(x.trie, k);
    var l1, h1, s1 := StoreLink(l, rp, NULL), StoreHead(h, rp, NULL), s.(node := t1.node, at := t1.at);
    assert TrieOf(l1, h1, s1) == t1;
    DropLeafOK(size, x.trie, k);
    ParentElsewhere(size, t1, q);
    assert NodeOK(size, x.trie, k);
    SubstWords(l1, h1, s1, q, p);
    hide Inv, Removed, Store, StoreLink, StoreHead, SubstLinks, Replace;
  }

  /** A block with a neighbour: not a lone node, and its parent word tells its list. */
  lemma RingMember(x: Index, b: int)
    requires Inv(x) && b in x.size && b in x.ring.prev && b in x.ring.next && x.ring.prev[b] != b
    ensures BlockSize(x.size[b])
    ensures !Small(x.size[b]) ==> b in x.trie.parent
    ensures b in x.trie.at <==>
      !Small(x.size[b]) && b in x.trie.parent && x.trie.parent[b] != RestSlot && x.trie.parent[b] != NoSlot
    ensures b in x.trie.at ==> Ring(x, b) != []
    ensures !Small(x.size[b]) && b in x.trie.parent ==> (x.trie.parent[b] == RestSlot <==> Owner(x.ring, b) == REST)
  {
    assert KindOK(x, b);
    assert b in x.ring.home.Keys;
    if b in x.trie.at {
      assert NodeOK(x.size, x.trie, x.trie.at[b]) && HeadOK(x.ring, b);
      assert Linked(x.ring.next, x.ring.prev, Full(x.ring, b), 0);
    }
  }

  lemma HandedOver(size: map<int, nat>, l: LinkWords, h: Heads, s: Shape, b: int)
    requires var x := Assemble(size, l, h, s); Inv(x) && b in s.at && Ring(x, b) != []
    ensures b in l.parent && b in l.child0 && b in l.child1 && b in l.next && b in l.prev
    ensures var x := Assemble(size, l, h, s);
      && NodeOK(size, x.trie, s.at[b])
      && var y, p := NodePromoted(x, b), l.prev[b];
      var l1 := l.(next := l.next[l.prev[b] := l.next[b]], prev := l.prev[l.next[b] := l.prev[b]]);
      && Inv(y) && Removed(x, y, b)
      && Assemble(size - {b}, SubstLinks(l1, b, p), StoreHead(h, l1.parent[b], p), ShapeOf(y)) == y
  {
    var x, q := Assemble(size, l, h, s), s.at[b];
    NodeLinks(x, b);
    NodePromotedOK(x, b);
    NodePromotedEffect(x, b);
    RingOfNode(x, b, Last(x, b));
    assert HeadOK(x.ring, b);
    assert Linked(l.next, l.prev, Full(x.ring, b), 0);
    ParentElsewhere(size, x.trie, q);
    var l1 := l.(next := l.next[l.prev[b] := l.next[b]], prev := l.prev[l.next[b] := l.prev[b]]);
    SubstWords(l1, h, s, q, l.prev[b]);
    hide Inv, Removed, StoreLink, StoreHead, SubstLinks, Replace;
  }

  /** The last block of the ring stands where the node stood. */
  lemma PromotedShape(x: Index, b: int)
    requires Inv(x) && b in x.trie.at && Ring(x, b) != [] && NodeOK(x.size, x.trie, x.trie.at[b])
    ensures var y := NodePromoted(x, b); RingsWithout(x, y, b) && NodesWithout(x, y, b)
  {
    RingOfNode(x, b, Last(x, b));
    assert HeadOK(x.ring, b) && x.trie.at[b] == x.trie.at[b];
    hide Inv;
  }

  lemma NodePromotedEffect(x: Index, b: int)
    requires Inv(x) && b in x.trie.at && Ring(x, b) != [] && NodeOK(x.size, x.trie, x.trie.at[b])
    ensures Removed(x, NodePromoted(x, b), b)
  {
    PromotedShape(x, b);
    hide RingsWithout, NodesWithout;
    var y, p := NodePromoted(x, b), Last(x, b);
    RingOfNode(x, b, p);
    assert y.trie.at == (x.trie.at - {b})[p := x.trie.at[b]];
    assert HeadOK(x.ring, b) && x.trie.at[b] == x.trie.at[b];
    forall c | c in y.size ensures ListOf(y, c) == ListOf(x, c) {
      assert c in x.ring.home.Keys;
      assert KindOK(x, c);
    }
    forall g | IsSentinel(g) ensures LeftOver(Ring(x, g), Ring(y, g), b) {
      if b in Ring(x, g) { RingBlocks(x, g, b); }
    }
  }

  lemma MemberGone(x: Index, b: int)
    requires Inv(x) && b in x.size && b !in x.trie.at
    ensures b in x.ring.next && b in x.ring.prev
    ensures var y := TakenOut(x, b, BitmapWithout(x, b));
      && Inv(y) && Removed(x, y, b)
      && y.restCount == (if Small(x.size[b]) || x.ring.home[b] != REST then x.restCount else x.restCount - 1)
      && (x.ring.home[b] == REST && !Small(x.size[b]) ==> x.restCount > 0)
  {
    NotHead(x, b);
    MemberLinks(x.ring, b);
    MemberBitmap(x, b);
    TakenOutOK(x, b, BitmapWithout(x, b));
    TakenOutEffect(x, b);
    if x.ring.home[b] == REST { CountWithout(x.size, Ring(x, REST), Position(x.ring, b)); }
  }

  lemma MemberBitmap(x: Index, b: int)
    requires Inv(x) && b in x.size && b !in x.trie.at
    ensures BitmapFits(x, b, BitmapWithout(x, b))
  {
    var bm := BitmapWithout(x, b);
    var y := TakenOut(x, b, bm);
    NotHead(x, b);
    assert KindOK(x, b);
    var n, h := x.size[b], x.ring.home[b];
    assert Ring(y, h) == Without(Ring(x, h), Position(x.ring, b));
    assert forall g :: g != h ==> Ring(y, g) == Ring(x, g);
    if Small(n) {
      forall i: nat ensures Bit(ClearBit(x.bitmap, BucketIndex(n)), i) <==> i != BucketIndex(n) && Bit(x.bitmap, i) {
        ClearBitBits(x.bitmap, BucketIndex(n), i);
      }
    }
  }

  lemma TakenOutEffect(x: Index, b: int)
    requires Inv(x) && b in x.size && b !in x.trie.at
    ensures Removed(x, TakenOut(x, b, BitmapWithout(x, b)), b)
  {
    var y := TakenOut(x, b, BitmapWithout(x, b));
    NotHead(x, b);
    forall c | c in y.size ensures ListOf(y, c) == ListOf(x, c) { assert c in x.ring.home.Keys; }
    forall g ensures LeftOver(Ring(x, g), Ring(y, g), b) {
      if b in Ring(x, g) { RingBlocks(x, g, b); }
    }
  }

  lemma TakenOutWords(size: map<int, nat>, l: LinkWords, h: Heads, s: Shape, b: int, bitmap: nat)
    requires var x := Assemble(size, l, h, s); Inv(x) && b in size && b !in s.at && b in l.next && b in l.prev
    ensures var x := Assemble(size, l, h, s);
      var y := TakenOut(x, b, bitmap);
      Assemble(size - {b}, l.(next := l.next[l.prev[b] := l.next[b]], prev := l.prev[l.next[b] := l.prev[b]]),
               h.(bitmap := bitmap, restCount := y.restCount), ShapeOf(y)) == y
  {
    hide Inv;
  }

  /** The two pointer tests of the removal decide the lengths of the rings concerned. */
  lemma BitmapTests(x: Index, b: int)
    requires Inv(x) && b in x.size && b !in x.trie.at && MIN_BLOCK <= x.size[b] && Small(x.size[b])
    requires b in x.ring.next && b in x.ring.prev
    ensures var p, n, h := x.ring.prev[b], x.ring.next[b], SmallHead(BucketIndex(x.size[b]));
      var next', prev' := x.ring.next[p := n], x.ring.prev[n := p];
      && h in next' && h in prev'
      && BitmapWithout(x, b) == if p == n &&
        prev'[h] == next'[h] then ClearBit(x.bitmap, BucketIndex(x.size[b])) else x.bitmap
  {
    NotHead(x, b);
    MemberLinks(x.ring, b);
    UnlinkOK(x.ring, b);
    var r', g, h := Unlink(x.ring, b), x.ring.home[b], SmallHead(BucketIndex(x.size[b]));
    HeadEnds(r', h);
    NeighboursMeet(x, b);
    assert g != h ==> r'.rings[h] == x.ring.rings[h];
  }

  lemma NeighboursMeet(x: Index, b: int)
    requires Inv(x) && b in x.ring.home && x.ring.home[b] != b && b in x.ring.next && b in x.ring.prev
    ensures x.ring.prev[b] == x.ring.next[b] <==> |Ring(x, x.ring.home[b])| == 1
  {
    var h := x.ring.home[b];
    MemberLinks(x.ring, b);
    assert HeadOK(x.ring, h);
    var c, j := Full(x.ring, h), Position(x.ring, b) + 1;
    if |c| > 2 {
      if j + 1 < |c| { assert c[j - 1] != c[j + 1]; } else { assert c[j - 1] != c[0]; }
    }
  }

  lemma HeadEnds(r: RingSet, h: int)
    requires Disjoint(r) && h in r.rings
    ensures h in r.next && h in r.prev
    ensures r.prev[h] == r.next[h] <==> |r.rings[h]| <= 1
  {
    assert HeadOK(r, h);
    var c := Full(r, h);
    assert Linked(r.next, r.prev, c, 0);
    if |c| > 2 { assert c[1] != c[|c| - 1]; }
  }

  lemma NodeGoneEffect(x: Index, b: int, trie: Trie, largeBitmap: nat)
    requires Inv(x) && b in x.trie.at && Ring(x, b) == [] && trie.at.Keys == x.trie.at.Keys - {b}
    requires NodesWithout(x, NodeGone(x, b, trie, largeBitmap), b)
    ensures Removed(x, NodeGone(x, b, trie, largeBitmap), b)
  {
    hide NodesWithout;
    var y := NodeGone(x, b, trie, largeBitmap);
    assert x.trie.at[b] == x.trie.at[b];
    assert forall a :: a in trie.at <==> a in trie.at.Keys;
    assert forall a :: a in x.trie.at <==> a in x.trie.at.Keys;
    forall c | c in y.size ensures ListOf(y, c) == ListOf(x, c) {
      assert c in x.ring.home.Keys;
      assert MemberOK(x.ring, c);
    }
    assert HeadOK(x.ring, b);
    forall g | IsSentinel(g) ensures LeftOver(Ring(x, g), Ring(y, g), b) {
      if b in Ring(x, g) { RingBlocks(x, g, b); }
    }
  }

  lemma NodeLinks(x: Index, a: int)
    requires Inv(x) && a in x.trie.at
    ensures a in x.ring.rings && a in x.ring.next && a in x.ring.prev
  {
    assert HeadOK(x.ring, a);
    assert Linked(x.ring.next, x.ring.prev, Full(x.ring, a), 0);
  }

  lemma AddedNodeEffect(x: Index, q: Pos, b: int, n: nat)
    requires Inv(x) && b > 0 && b !in x.size && BlockSize(n) && !Small(n)
    requires Vacant(x.trie, q) && Belongs(q, n) && forall a :: a in x.trie.at && a in x.size ==> x.size[a] != n
    ensures Added(x, AddedNode(x, q, b, n), b, n)
  {
    hide RingsWith, NodesWith, Belongs;
    AddedNodeShape(x, q, b, n);
    FreshBlock(x, b);
    var y := AddedNode(x, q, b, n);
    assert y.trie.at == x.trie.at[b := q];
    forall c | c in x.size ensures ListOf(y, c) == ListOf(x, c) { assert c in x.ring.home.Keys; assert MemberOK(x.ring, c); }
  }

  lemma AddedNodeShape(x: Index, q: Pos, b: int, n: nat)
    requires Inv(x) && b > 0 && b !in x.size && !Small(n)
    requires Vacant(x.trie, q) && Belongs(q, n) && forall a :: a in x.trie.at && a in x.size ==> x.size[a] != n
    ensures var y := AddedNode(x, q, b, n); RingsWith(x, y, b, n) && NodesWith(x, y, b, n)
  {
    FreshBlock(x, b);
    hide Inv, Belongs;
    assert AddedNode(x, q, b, n).trie.node == x.trie.node[q := b];
  }

  lemma AddedToRingEffect(x: Index, a: int, b: int, n: nat)
    requires Inv(x) && b > 0 && b !in x.size && BlockSize(n) && !Small(n) && a in x.trie.at
    requires a in x.size && x.size[a] == n
    ensures Added(x, AddedToRing(x, a, b, n), b, n)
  {
    FreshBlock(x, b);
    var y := AddedToRing(x, a, b, n);
    assert y.trie.at == x.trie.at;
    forall c | c in x.size ensures ListOf(y, c) == ListOf(x, c) { assert c in x.ring.home.Keys; }
    assert x.trie.at[a] == x.trie.at[a] && Takes(x, n, a);
    forall h | Takes(x, n, h) ensures h == a { assert x.trie.at[h] == x.trie.at[h]; }
  }

  /** An empty ring is one whose head points at itself. */
  lemma SmallHeadLinks(x: Index, h: int)
    requires Inv(x) && IsSentinel(h)
    ensures h in x.ring.rings && h in x.ring.next && h in x.ring.prev
    ensures x.ring.prev[h] == h <==> Ring(x, h) == []
    ensures x.ring.next[h] == if Ring(x, h) == [] then h else Ring(x, h)[0]
    ensures x.ring.prev[h] == if Ring(x, h) == [] then h else Ring(x, h)[|Ring(x, h)| - 1]
  {
    assert HeadOK(x.ring, h);
    HeadApart(x.ring, h);
    assert Linked(x.ring.next, x.ring.prev, Full(x.ring, h), 0);
  }

  lemma AddedSmallEffect(x: Index, b: int, n: nat)
    requires Inv(x) && b > 0 && b !in x.size && BlockSize(n) && Small(n)
    ensures Added(x, AddedSmall(x, b, n), b, n)
  {
    FreshBlock(x, b);
  }

  /** Heads linked to themselves, and null roots. */
  method EmptyHeads() returns (self: Links, roots: seq<int>)
    ensures forall h :: h in self <==> IsSentinel(h)
    ensures forall h :: h in self ==> self[h] == h
    ensures |roots| == 64 && forall j :: 0 <= j < 64 ==> roots[j] == NULL
  {
    self, roots := map[], [];
    var i := 0;
    while i < 64
      invariant 0 <= i <= 64 && |roots| == i
      invariant forall j :: 0 <= j < i ==> roots[j] == NULL
      invariant forall h :: h in self <==> -i <= h <= -1
      invariant forall h :: h in self ==> self[h] == h
    {
      self := self[SmallHead(i) := SmallHead(i)];
      roots := roots + [NULL];
      i := i + 1;
    }
    self := self[REST := REST];
  }

  lemma EmptyOK(self: Links, none: map<int, seq<int>>, roots: seq<int>)
    requires |roots| == 64 && forall j :: 0 <= j < 64 ==> roots[j] == NULL
    requires forall h :: h in self <==> IsSentinel(h)
    requires forall h :: h in self ==> self[h] == h
    requires none.Keys == self.Keys && forall h :: h in none ==> none[h] == []
    ensures Inv(Assemble(map[], LinkWords(self, self, map[], map[], map[]), Heads(roots, 0, 0, 0), Shape(none, map[], map[], map[])))
  {
    var x := Assemble(map[], LinkWords(self, self, map[], map[], map[]), Heads(roots, 0, 0, 0), Shape(none, map[], map[], map[]));
    assert forall h :: h in none <==> h in none.Keys;
    forall h | h in x.ring.rings ensures HeadOK(x.ring, h) {
      assert Linked(x.ring.next, x.ring.prev, Full(x.ring, h), 0);
    }
    forall i: nat ensures !Bit(0, i) { ZeroBits(i); }
  }

  // ----- the rest list

  lemma EvictNone(x: Index)
    requires Inv(x)
    ensures Evicted(x, x, 0) && NoneLargeBut(x, 0)
  {}

  lemma RestFull(y: Index)
    requires Inv(y) && y.restCount > 0
    ensures Ring(y, REST) != []
  {}

  /** The block behind the rest head is the oldest. */
  lemma Oldest(x: Index)
    requires Inv(x) && Ring(x, REST) != []
    ensures REST in x.ring.next && x.ring.next[REST] == Ring(x, REST)[0]
    ensures var p := Ring(x, REST)[0];
      && p in x.size && p > 0 && BlockSize(x.size[p]) && p !in x.trie.at
      && p in x.ring.next && p in x.ring.prev
      && Owner(x.ring, p) == REST
      && var y := TakenOut(x, p, x.bitmap);
      && Inv(y) && y.size == x.size - {p}
      && y.restCount == (if Small(x.size[p]) then x.restCount else x.restCount - 1)
      && (!Small(x.size[p]) ==> x.restCount > 0)
  {
    var p := Ring(x, REST)[0];
    assert p in Ring(x, REST);
    RingBlocks(x, REST, p);
    SmallHeadLinks(x, REST);
    NotHead(x, p);
    MemberLinks(x.ring, p);
    var y := TakenOut(x, p, x.bitmap);
    assert forall g :: g != REST ==> Ring(y, g) == Ring(x, g);
    TakenOutOK(x, p, x.bitmap);
    CountWithout(x.size, Ring(x, REST), 0);
  }

  /** Adding a block to its free list neither loses a bit nor brings a lost one back. */
  lemma AddedKeepsLost(x: Index, y: Index, b: int, n: nat)
    requires Added(x, y, b, n)
    ensures SameLost(x, y)
  {
    hide ListOf, Ring;
    forall i: nat | i < 64 ensures Lost(y, i) <==> Lost(x, i) {
      assert IsSentinel(SmallHead(i));
      assert Ring(y, SmallHead(i)) == (if Small(n) &&
        SmallHead(i) == SmallHead(BucketIndex(n)) then [b] else []) + Ring(x, SmallHead(i));
      if Small(n) { SetBitBits(x.bitmap, BucketIndex(n), i); }
    }
  }

  /** The index while the oldest block of the rest list is on its way to a free list. */
  lemma OldestOut(x: Index)
    requires Inv(x) && Ring(x, REST) != []
    requires Ring(x, REST)[0] in x.size && Ring(x, REST)[0] !in x.trie.at
    ensures var p := Ring(x, REST)[0];
      var y := TakenOut(x, p, x.bitmap);
      && y.size == x.size - {p} && Ring(y, REST) == Ring(x, REST)[1..] && SameLost(x, y)
      && (forall c :: c in x.size && c != p ==> ListOf(y, c) == ListOf(x, c)) && OldestOff(x, y)
  {
    var p := Ring(x, REST)[0];
    var y := TakenOut(x, p, x.bitmap);
    assert p in Ring(x, REST);
    RingBlocks(x, REST, p);
    NotHead(x, p);
    assert HeadOK(x.ring, REST);
    HeadApart(x.ring, REST);
    assert Position(x.ring, p) == 0;
    forall c | c in x.size && c != p ensures ListOf(y, c) == ListOf(x, c) {
      assert c in x.ring.home.Keys;
    }
    hide Inv;
    assert forall h :: h != REST ==> Ring(y, h) == Ring(x, h);
  }

  lemma OldestMoved(x: Index, z: Index)
    requires Inv(x) && Ring(x, REST) != []
    requires var p := Ring(x, REST)[0];
      p in x.size && p !in x.trie.at && Added(TakenOut(x, p, x.bitmap), z, p, x.size[p])
    ensures OldestEvicted(x, z)
  {
    hide Inv, ListOf, TakenOut, Ring, OldestOff, RingsWith, NodesWith;
    var p := Ring(x, REST)[0];
    var y := TakenOut(x, p, x.bitmap);
    OldestOut(x);
    assert OneEvicted(x, z);
    AddedKeepsLost(y, z, p, x.size[p]);
    assert IsSentinel(REST);
    assert Ring(z, REST) == [] + Ring(y, REST);
    assert z.size == x.size;
    forall c | c in x.size ensures ListOf(z, c) == if c == p then ListFor(x.size[c]) else ListOf(x, c) {
      if c != p { assert c in y.size; }
    }
  }

  lemma EvictStep(x: Index, y: Index, z: Index, k: nat)
    requires Inv(x) && Inv(y) && Inv(z) && Evicted(x, y, k) && NoneLargeBut(x, k) && OldestEvicted(y, z) &&
      y.restCount >= MAX_REST
    ensures Evicted(x, z, k + 1) && NoneLargeBut(x, k + 1)
    ensures |Ring(z, REST)| < |Ring(y, REST)|
  {
    hide Inv, LargeCount, OneEvicted, EvictedInTurn;
    EvictLists(x, y, z, k);
    EvictCount(x, y, k);
    InTurn(x, y, z, k);
    hide ListOf;
  }

  lemma InTurn(x: Index, y: Index, z: Index, k: nat)
    requires EvictedInTurn(x, y, k) && OneEvicted(y, z)
    ensures EvictedInTurn(x, z, k + 1)
  {
    hide OneEvicted;
  }

  lemma EvictLists(x: Index, y: Index, z: Index, k: nat)
    requires Inv(x) && Evicted(x, y, k) && OldestEvicted(y, z)
    ensures k < |Ring(x, REST)|
    ensures forall d {:trigger ListOf(z, d)} :: d in x.size ==>
      ListOf(z, d) == if d in Ring(x, REST)[..k + 1] then ListFor(x.size[d]) else ListOf(x, d)
  {
    hide OneEvicted, EvictedInTurn;
    var c := Ring(x, REST);
    assert HeadOK(x.ring, REST);
    HeadApart(x.ring, REST);
    hide Inv, ListOf;
    assert c[..k + 1] == c[..k] + [c[k]];
    assert c[k] !in c[..k];
    forall d | d in x.size ensures ListOf(z, d) == if d in c[..k + 1] then ListFor(x.size[d]) else ListOf(x, d) {
      assert ListOf(y, d) == if d in c[..k] then ListFor(x.size[d]) else ListOf(x, d);
    }
  }

  lemma EvictCount(x: Index, y: Index, k: nat)
    requires Inv(x) && Inv(y) && Evicted(x, y, k) && y.restCount >= MAX_REST
    ensures x.restCount >= MAX_REST && LargeCount(x.size, Ring(x, REST)[..k]) == 0
  {
    hide ListOf, EvictedInTurn;
    var c := Ring(x, REST);
    assert c == c[..k] + c[k..];
    CountConcat(x.size, c[..k], c[k..]);
  }

  lemma EvictDone(x: Index, y: Index, k: nat)
    requires Inv(x) && Inv(y) && Evicted(x, y, k) && NoneLargeBut(x, k) && y.restCount < MAX_REST
    ensures y.size == x.size
    ensures LargeCount(x.size, Ring(x, REST)[..k]) == (if x.restCount < MAX_REST then 0 else 1)
    ensures if x.restCount < MAX_REST then k == 0 else k > 0 && LargeCount(x.size, Ring(x, REST)[..k - 1]) == 0
  {
    hide ListOf, EvictedInTurn, EvictedLists;
    var c := Ring(x, REST);
    assert c == c[..k] + c[k..];
    CountConcat(x.size, c[..k], c[k..]);
    if k > 0 {
      assert c[..k] == c[..k - 1] + [c[k - 1]];
      CountConcat(x.size, c[..k - 1], [c[k - 1]]);
      assert LargeCount(x.size, [c[k - 1]]) <= 1;
    }
  }

  lemma RestLinks(x: Index)
    requires Inv(x)
    ensures REST in x.ring.rings && REST in x.ring.prev && x.ring.prev[REST] in x.ring.next
  {
    assert HeadOK(x.ring, REST);
    var c := Full(x.ring, REST);
    assert Linked(x.ring.next, x.ring.prev, c, 0) && Linked(x.ring.next, x.ring.prev, c, |c| - 1);
  }

  lemma RestWords(size: map<int, nat>, l: LinkWords, h: Heads, s: Shape, b: int, n: nat)
    requires var x := Assemble(size, l, h, s); Inv(x) && REST in l.prev && l.prev[REST] in l.next
    ensures var x := Assemble(size, l, h, s);
      var y, p := AddedRest(x, b, n), l.prev[REST];
      var l1 := if Small(n) then l else l.(parent := l.parent[b := RestSlot]);
      var h1 := if Small(n) then h else h.(restCount := h.restCount + 1);
      Assemble(size[b := n],
               l1.(prev := l1.prev[l1.next[p] := b][b := p], next := l1.next[p := b][b := l1.next[p]]), h1, ShapeOf(y)) == y
  {
    hide Inv;
  }

  lemma RestedAfter(x: Index, y: Index, z: Index, b: int, n: nat, k: nat)
    requires Inv(x) && Inv(y) && Evicted(x, y, k) && b > 0 && b !in x.size && z == AddedRest(y, b, n)
    requires LargeCount(x.size, Ring(x, REST)[..k]) == (if x.restCount < MAX_REST then 0 else 1)
    requires if x.restCount < MAX_REST then k == 0 else k > 0 && LargeCount(x.size, Ring(x, REST)[..k - 1]) == 0
    ensures Rested(x, z, b, n, k)
  {
    hide Inv, ListOf, AddedRest, Ring, LargeCount, Lost, EvictedLists, EvictedInTurn, Appended;
    AppendedLists(y, b, n);
    assert EvictedThenAppended(x, z, b, n, k);
    ListsStay(x, y, z, k);
    assert forall i: nat :: Lost(z, i) <==> Lost(y, i);
  }

  lemma ListsStay(x: Index, y: Index, z: Index, k: nat)
    requires k <= |Ring(x, REST)| && EvictedLists(x, y, k) && forall c :: c in x.size ==> ListOf(z, c) == ListOf(y, c)
    ensures EvictedLists(x, z, k)
  {
    hide ListOf, Ring;
  }

  /** A block put on the rest list joins at the end, and nothing else moves. */
  lemma AppendedLists(x: Index, b: int, n: nat)
    requires Inv(x) && b > 0 && b !in x.size
    ensures var y := AddedRest(x, b, n);
      && y.size == x.size[b := n] && Ring(y, REST) == Ring(x, REST) + [b] && SameLost(x, y)
      && (forall c :: c in x.size ==> ListOf(y, c) == ListOf(x, c)) && Appended(x, y, b, n)
  {
    RestLinks(x);
    var y := AddedRest(x, b, n);
    forall c | c in x.size ensures ListOf(y, c) == ListOf(x, c) {
      assert c in x.ring.home.Keys;
    }
    hide Inv;
    assert forall h :: h != REST ==> Ring(y, h) == Ring(x, h);
  }

  // ----- the large search

  /** No node of the bucket is big enough. */
  ghost predicate NoneAtLeast(x: Index, n: nat, index: nat) {
    forall a {:trigger x.trie.at[a]} :: a in x.trie.at && a in x.size && x.trie.at[a].bucket == index ==> x.size[a] < n
  }

  /** The node `a` stands at `q` or below it. */
  ghost predicate Below(x: Index, q: Pos, a: int) {
    && a in x.trie.at && a in x.size && x.trie.at[a].bucket == q.bucket
    && q.path >= 1 && x.trie.at[a].path >= 1 && Prefix(q.path, x.trie.at[a].path)
  }

  /** A node of the bucket that is big enough. */
  ghost predicate Fits(x: Index, n: nat, index: nat, a: int) {
    a in x.trie.at && a in x.size && x.trie.at[a].bucket == index && x.size[a] >= n
  }

  /** A smallest of them. */
  ghost predicate BestFit(x: Index, n: nat, index: nat, a: int) {
    Fits(x, n, index, a) && forall c {:trigger Fits(x, n, index, c)} :: Fits(x, n, index, c) ==> x.size[a] <= x.size[c]
  }

  /** The place of `a` is on the path of the bits of `n`, or one step off it. */
  ghost predicate Near(x: Index, n: nat, a: int) {
    && a in x.trie.at && x.trie.at[a].path >= 1
    && (Prefix(x.trie.at[a].path, n) || (x.trie.at[a].path >= 2 && Prefix(x.trie.at[a].path / 2, n)))
  }

  /** What the walk has in hand: the best node so far, and the last branch to the right it passed. */
  datatype Hand = Hand(best: int, bestSize: nat, rst: int, g: Pos)

  /** Everything at `g` or below is smaller than `a`. */
  ghost predicate Under(x: Index, g: Pos, a: int) {
    a in x.size && forall c {:trigger Below(x, g, c)} :: Below(x, g, c) ==> x.size[c] < x.size[a]
  }

  /** The node `a` need not be looked at: the best so far, or all of the branch, is no larger, or it is in the branch. */
  ghost predicate Known(x: Index, d: Hand, a: int) {
    || (a in x.size && d.best != NULL && d.bestSize <= x.size[a])
    || (d.rst != NULL && (Below(x, d.g, a) || Under(x, d.g, a)))
  }

  /** Every node that is big enough is known or still ahead. */
  ghost predicate Seen(x: Index, n: nat, q: Pos, d: Hand) {
    forall a {:trigger Fits(x, n, q.bucket, a)} :: Fits(x, n, q.bucket, a) ==> Below(x, q, a) || Known(x, d, a)
  }

  ghost predicate Passed(x: Index, n: nat, q: Pos, d: Hand) {
    forall a {:trigger Fits(x, n, q.bucket, a)} :: Fits(x, n, q.bucket, a) ==>
      || Known(x, d, a)
      || (Below(x, Down(q, 0), a) && Down(q, 0) in x.trie.node)
      || (Below(x, Down(q, 1), a) && Down(q, 1) in x.trie.node)
  }

  ghost predicate AllKnown(x: Index, n: nat, index: nat, d: Hand) {
    forall a {:trigger Fits(x, n, index, a)} :: Fits(x, n, index, a) ==> Known(x, d, a)
  }

  /** The branch leaves the path to `path` on its right. */
  ghost predicate Branch(x: Index, path: nat, index: nat, d: Hand) {
    d.rst != NULL ==>
      && d.g in x.trie.node && d.rst == x.trie.node[d.g] && d.g.bucket == index
      && d.g.path >= 3 && d.g.path % 2 == 1 && path >= 1 && Prefix(d.g.path - 1, path)
  }

  /** The best so far is a node of the bucket on the path of `n`. */
  ghost predicate OnPath(x: Index, n: nat, index: nat, best: int, bestSize: nat) {
    && Candidate(x, n, index, best, bestSize)
    && (best != NULL ==> x.trie.at[best].path >= 1 && Prefix(x.trie.at[best].path, n))
  }

  /** Everything at `g` or below is larger than `n`. */
  ghost predicate Greater(x: Index, n: nat, g: Pos) {
    forall a {:trigger x.trie.at[a]} :: Below(x, g, a) ==> x.size[a] > n
  }

  ghost predicate Candidate(x: Index, n: nat, index: nat, best: int, bestSize: nat) {
    if best == NULL then bestSize == WORD - 1
    else best in x.trie.at && best in x.size && x.trie.at[best].bucket == index && x.size[best] == bestSize >= n
  }

  lemma StartSearch(x: Index, n: nat, index: nat)
    requires Inv(x) && BlockSize(n) && index == Log2(n) && Pos(index, 1) in x.trie.node
    ensures index < 64 && |x.trie.bucket| == 64 && x.trie.bucket[index] == x.trie.node[Pos(index, 1)]
    ensures NotAbove(x, n, Pos(index, 1)) && n != WORD - 1
    ensures var d := Hand(NULL, WORD - 1, NULL, Pos(index, 1));
      OnPath(x, n, index, d.best, d.bestSize) && Branch(x, 1, index, d) && Seen(x, n, Pos(index, 1), d)
  {
    assert NodeOK(x.size, x.trie, Pos(index, 1));
    forall a | a in x.trie.at && a in x.size
      ensures x.trie.at[a].path >= 1 && Prefix(1, x.trie.at[a].path)
    {
      assert NodeOK(x.size, x.trie, x.trie.at[a]);
      RootIsPrefix(x.trie.at[a].path);
    }
  }

  /** Looking at one node keeps a candidate, and makes one if the node is big enough. */
  lemma Consider(x: Index, n: nat, index: nat, best: int, bestSize: nat, q: Pos)
    requires Inv(x) && Candidate(x, n, index, best, bestSize) && q in x.trie.node && q.bucket == index
    ensures var p := x.trie.node[q];
      && p in x.size
      && (x.size[p] >= n ==> Candidate(x, n, index, p, x.size[p]))
      && (x.size[p] >= bestSize ==> best != NULL)
  {
    assert NodeOK(x.size, x.trie, q);
    assert BlockSize(x.size[x.trie.node[q]]);
  }

  /** The size of a node has its place, and everything above it, as a prefix. */
  lemma PlaceFacts(x: Index, q: Pos)
    requires Inv(x) && q in x.trie.node
    ensures var a := x.trie.node[q];
      && a in x.trie.at && x.trie.at[a] == q && a in x.size && q.path >= 1 && x.size[a] >= 1
      && Log2(x.size[a]) == q.bucket && Prefix(q.path, x.size[a])
      && q.bucket < 64 && |x.trie.bucket| == 64 && (q.path == 1 ==> x.trie.bucket[q.bucket] == a)
  {
    assert NodeOK(x.size, x.trie, q);
  }

  lemma BelowPrefix(x: Index, q: Pos, a: int)
    requires Inv(x) && Below(x, q, a)
    ensures x.size[a] >= 1 && Log2(x.size[a]) == q.bucket && Prefix(q.path, x.size[a])
    ensures x.trie.at[a] in x.trie.node && x.trie.node[x.trie.at[a]] == a
  {
    PlaceFacts(x, x.trie.at[a]);
    PrefixTransitive(q.path, x.trie.at[a].path, x.size[a]);
  }

  /** A node at `q` or below is at `q`, or at one of its children or below. */
  lemma BelowSplits(x: Index, q: Pos, a: int)
    requires Inv(x) && Below(x, q, a)
    ensures x.trie.at[a] == q
      || (Below(x, Down(q, 0), a) && Down(q, 0) in x.trie.node)
      || (Below(x, Down(q, 1), a) && Down(q, 1) in x.trie.node)
  {
    var r := x.trie.at[a];
    if r.path != q.path {
      PlaceFacts(x, r);
      ChildTowards(q.path, r.path);
      var c := if Prefix(2 * q.path, r.path) then 0 else 1;
      PrefixPresent(x.size, x.trie, r, 2 * q.path + c);
    }
  }

  lemma {:induction false} ChildTowards(k: nat, s: nat)
    requires k >= 1 && Prefix(k, s) && k != s
    ensures Prefix(2 * k, s) || Prefix(2 * k + 1, s)
  {
    if s / 2 != k { ChildTowards(k, s / 2); PrefixBelow(k, s / 2); }
  }

  /** After a look at the node at `q` only its children are ahead. */
  lemma Looked(x: Index, n: nat, q: Pos, d: Hand, e: Hand)
    requires Inv(x) && q in x.trie.node && Seen(x, n, q, d) && e.rst == d.rst && e.g == d.g
    requires Fits(x, n, q.bucket, x.trie.node[q]) ==> e.best != NULL && e.bestSize <= x.size[x.trie.node[q]]
    requires d.best != NULL ==> e.best != NULL && e.bestSize <= d.bestSize
    ensures Passed(x, n, q, e)
  {
    forall a | Fits(x, n, q.bucket, a) && Below(x, q, a) ensures
      || Known(x, e, a)
      || (Below(x, Down(q, 0), a) && Down(q, 0) in x.trie.node)
      || (Below(x, Down(q, 1), a) && Down(q, 1) in x.trie.node)
    {
      BelowSplits(x, q, a);
      PlaceFacts(x, x.trie.at[a]);
    }
    hide Inv;
  }

  /** What is below a place is smaller than what is below its right sibling. */
  lemma SiblingsOrdered(x: Index, path: nat, bucket: nat, a: int, c: int)
    requires Inv(x) && path >= 3 && path % 2 == 1 && Below(x, Pos(bucket, path - 1), c) &&
      Below(x, Pos(bucket, path), a)
    ensures x.size[c] < x.size[a]
  {
    BelowPrefix(x, Pos(bucket, path - 1), c);
    BelowPrefix(x, Pos(bucket, path), a);
    SiblingDepth(path / 2);
    PrefixOrders(path - 1, path, x.size[c], x.size[a]);
  }

  /** A node known through one branch is known through a later one. */
  lemma LaterBranch(x: Index, q: Pos, d: Hand, a: int)
    requires Inv(x) && q in x.trie.node && q.path >= 1 && Down(q, 1) in x.trie.node && Branch(x, q.path, q.bucket, d)
    requires Known(x, d, a)
    ensures Known(x, d.(rst := x.trie.node[Down(q, 1)], g := Down(q, 1)), a)
  {
    if !(a in x.size && d.best != NULL && d.bestSize <= x.size[a]) {
      PlaceFacts(x, Down(q, 1));
      PlaceFacts(x, d.g);
      assert Below(x, d.g, d.rst) && x.trie.at[d.rst] == d.g;
      forall c | Below(x, Down(q, 1), c) ensures x.size[c] < x.size[a] {
        BelowSibling(x, q, d.g, c);
        SiblingsOrdered(x, d.g.path, q.bucket, d.rst, c);
        if Below(x, d.g, a) { SiblingsOrdered(x, d.g.path, q.bucket, a, c); }
      }
      assert Under(x, Down(q, 1), a);
    }
  }

  lemma BelowSibling(x: Index, q: Pos, g: Pos, c: int)
    requires Below(x, Down(q, 1), c) && q.path >= 1 && g.path >= 3 && Prefix(g.path - 1, q.path)
    ensures Below(x, Pos(q.bucket, g.path - 1), c)
  {
    assert Prefix(q.path, Down(q, 1).path);
    PrefixTransitive(g.path - 1, q.path, Down(q, 1).path);
    PrefixTransitive(g.path - 1, Down(q, 1).path, x.trie.at[c].path);
  }

  /** The request goes left, and a branch on the right is remembered. */
  lemma TurnedLeft(x: Index, n: nat, q: Pos, d: Hand)
    requires Inv(x) && q in x.trie.node && q.path >= 1 && Passed(x, n, q, d) && Branch(x, q.path, q.bucket, d)
    ensures var e := if Down(q, 1) in x.trie.node then d.(rst := x.trie.node[Down(q, 1)], g := Down(q, 1)) else d;
      && Seen(x, n, Down(q, 0), e) && Branch(x, Down(q, 0).path, q.bucket, e)
      && (Down(q, 0) !in x.trie.node ==> AllKnown(x, n, q.bucket, e))
  {
    var e := if Down(q, 1) in x.trie.node then d.(rst := x.trie.node[Down(q, 1)], g := Down(q, 1)) else d;
    if Down(q, 1) in x.trie.node { PlaceFacts(x, Down(q, 1)); }
    forall a | Fits(x, n, q.bucket, a)
      ensures Known(x, e, a) || (Below(x, Down(q, 0), a) && Down(q, 0) in x.trie.node)
    {
      if Known(x, d, a) && Down(q, 1) in x.trie.node { LaterBranch(x, q, d, a); }
    }
  }

  /** The request goes right: everything on the left is smaller. */
  lemma TurnedRight(x: Index, n: nat, q: Pos, d: Hand)
    requires Inv(x) && q in x.trie.node && q.path >= 1 && n >= 1 && Belongs(Down(q, 1), n) && Passed(x, n, q, d)
    requires Branch(x, q.path, q.bucket, d)
    ensures Seen(x, n, Down(q, 1), d) && Branch(x, Down(q, 1).path, q.bucket, d)
    ensures Down(q, 1) !in x.trie.node ==> AllKnown(x, n, q.bucket, d)
  {
    forall a | Below(x, Down(q, 0), a) ensures !Fits(x, n, q.bucket, a) {
      BelowPrefix(x, Down(q, 0), a);
      SiblingDepth(q.path);
      PrefixOrders(2 * q.path, 2 * q.path + 1, x.size[a], n);
    }
  }

  /** The path walked is part of the path of the request. */
  lemma BranchDown(x: Index, n: nat, r: Pos, index: nat, d: Hand)
    requires Branch(x, r.path, index, d) && Belongs(r, n)
    ensures Branch(x, n, index, d)
  {
    if d.rst != NULL { PrefixTransitive(d.g.path - 1, r.path, n); }
  }

  /** The hand after a look at the node at `q`. */
  lemma Considered(x: Index, n: nat, index: nat, d: Hand, q: Pos, e: nat)
    requires Inv(x) && BlockSize(n) && index == Log2(n) && e <= index && q in x.trie.node && q.bucket == index
    requires q.path == Shr(n, e) && OnPath(x, n, index, d.best, d.bestSize) && Seen(x, n, q, d) &&
      Branch(x, q.path, index, d)
    ensures var p := x.trie.node[q];
      && p in x.size && (x.size[p] >= d.bestSize ==> d.best != NULL)
      && var f := if x.size[p] >= n && x.size[p] < d.bestSize then d.(best := p, bestSize := x.size[p]) else d;
      OnPath(x, n, index, f.best, f.bestSize) && Passed(x, n, q, f) && Branch(x, q.path, index, f)
    ensures var p := x.trie.node[q];
      x.size[p] == n ==> OnPath(x, n, index, p, n) && Branch(x, n, index, d.(best := p, bestSize := n))
  {
    Consider(x, n, index, d.best, d.bestSize, q);
    ShrIsPrefix(n, e);
    PlaceFacts(x, q);
    var p := x.trie.node[q];
    var f := if x.size[p] >= n && x.size[p] < d.bestSize then d.(best := p, bestSize := x.size[p]) else d;
    hide Inv, Seen, Passed;
    Looked(x, n, q, d, f);
    BranchDown(x, n, q, index, d);
  }

  lemma HandFacts(x: Index, n: nat, index: nat, d: Hand)
    requires OnPath(x, n, index, d.best, d.bestSize) && BlockSize(n)
    ensures d.best != NULL ==> Fits(x, n, index, d.best) && x.size[d.best] == d.bestSize
    ensures d.bestSize == n ==> d.best != NULL && BestFit(x, n, index, d.best) && Near(x, n, d.best)
  {}

  /** Everything in the branch is larger than the request. */
  lemma BranchGreater(x: Index, n: nat, d: Hand)
    requires Inv(x) && n >= 1 && Branch(x, n, Log2(n), d) && d.rst != NULL
    ensures Greater(x, n, d.g)
  {
    hide Inv, Log2, Prefix;
    forall a | Below(x, d.g, a) ensures x.size[a] > n {
      BelowPrefix(x, d.g, a);
      SiblingDepth(d.g.path / 2);
      PrefixOrders(d.g.path - 1, d.g.path, n, x.size[a]);
    }
  }

  /** The left child of a place is smaller than anything under the right one. */
  lemma LeftIsSmaller(x: Index, root: Pos, best: int)
    requires Inv(x) && root.path >= 1 && Down(root, 0) in x.trie.node && Below(x, Down(root, 1), best)
    ensures var a := x.trie.node[Down(root, 0)];
      && a in x.trie.at && a in x.size && x.trie.at[a] == Down(root, 0) && x.size[a] < x.size[best]
  {
    PlaceFacts(x, Down(root, 0));
    BelowPrefix(x, Down(root, 1), best);
    SiblingDepth(root.path);
    PrefixOrders(2 * root.path, 2 * root.path + 1, x.size[x.trie.node[Down(root, 0)]], x.size[best]);
  }

  /** How the walk down the branch ends: no worse than the best before it or the top of the branch, and if
      it is neither, the branch has a left child and the result lies to the right of it. */
  ghost predicate Walked(x: Index, index: nat, d: Hand, best: int) {
    && (best == NULL ==> d.best == NULL && d.rst == NULL)
    && (best != NULL ==>
          && best in x.trie.at && best in x.size && x.trie.at[best].bucket == index
          && (d.best != NULL ==> x.size[best] <= d.bestSize)
          && (d.rst != NULL ==> d.rst in x.size && x.size[best] <= x.size[d.rst])
          && (best == d.best || (d.rst != NULL && (best == d.rst || OffLeft(x, d.g, best)))))
  }

  ghost predicate OffLeft(x: Index, g: Pos, best: int) {
    Down(g, 0) in x.trie.node && Below(x, Down(g, 1), best)
  }

  /** The walk down the branch so far, where `first` says that its top is still to be looked at. */
  ghost predicate Walking(x: Index, index: nat, d: Hand, best: int, bestSize: nat, first: bool) {
    && Candidate(x, 0, index, best, bestSize)
    && (d.best != NULL ==> best != NULL && bestSize <= d.bestSize)
    && (d.rst != NULL ==> d.rst in x.size && (first || (best != NULL && bestSize <= x.size[d.rst])))
    && (best == d.best || (d.rst != NULL && (best == d.rst || OffLeft(x, d.g, best))))
  }

  /** The place the walk has come to: the top of the branch, or to the right of a left child it has. */
  ghost predicate Reached(x: Index, d: Hand, q: Pos) {
    && q.bucket == d.g.bucket && q.path >= 1 && d.g.path >= 1 && d.g in x.trie.node && d.rst == x.trie.node[d.g]
    && (q == d.g || (Down(d.g, 0) in x.trie.node && Prefix(Down(d.g, 1).path, q.path)))
  }

  lemma WalkStart(x: Index, n: nat, index: nat, d: Hand)
    requires Inv(x) && n >= 1 && index == Log2(n) && OnPath(x, n, index, d.best, d.bestSize) && Branch(x, n, index, d)
    ensures Walking(x, index, d, d.best, d.bestSize, true)
    ensures d.rst != NULL ==>
      d.g in x.trie.node && d.g.bucket == index && d.rst == x.trie.node[d.g] && Reached(x, d, d.g)
    ensures d.rst != NULL ==> Greater(x, n, d.g)
  {
    if d.rst != NULL { PlaceFacts(x, d.g); BranchGreater(x, n, d); }
  }

  lemma WalkStep(x: Index, n: nat, index: nat, d: Hand, best: int, bestSize: nat, q: Pos)
    requires Inv(x) && q in x.trie.node && d.rst != NULL && Reached(x, d, q) && d.g.bucket == index &&
      Greater(x, n, d.g)
    requires Walking(x, index, d, best, bestSize, x.trie.node[q] == d.rst)
    ensures var p := x.trie.node[q];
      && p in x.size && x.size[p] > n
      && var closer := x.size[p] < bestSize;
      Walking(x, index, d, if closer then p else best, if closer then x.size[p] else bestSize, false)
  {
    var p := x.trie.node[q];
    PlaceFacts(x, q);
    if q != d.g {
      PrefixTransitive(d.g.path, Down(d.g, 1).path, q.path);
      assert OffLeft(x, d.g, p);
    }
    assert Below(x, d.g, p) && x.trie.at[p] == q;
    assert BlockSize(x.size[p]);
    hide Inv, Greater;
  }

  lemma ReachedDown(x: Index, d: Hand, q: Pos)
    requires Inv(x) && q in x.trie.node && Reached(x, d, q)
    requires Down(q, 0) in x.trie.node && Down(q, 1) in x.trie.node
    ensures Reached(x, d, Down(q, 1))
  {
    assert Prefix(q.path, Down(q, 1).path);
    if q != d.g { PrefixTransitive(Down(d.g, 1).path, q.path, Down(q, 1).path); }
  }

  lemma WalkDone(x: Index, index: nat, d: Hand, best: int, bestSize: nat)
    requires Walking(x, index, d, best, bestSize, d.rst == NULL)
    ensures Walked(x, index, d, best)
  {}

  /** What the search in a bucket has found. */
  lemma WalkedFacts(x: Index, n: nat, index: nat, d: Hand, best: int)
    requires Inv(x) && n >= 1 && index == Log2(n) && OnPath(x, n, index, d.best, d.bestSize) && Branch(x, n, index, d)
    requires AllKnown(x, n, index, d) && Walked(x, index, d, best)
    ensures best == NULL ==> NoneAtLeast(x, n, index)
    ensures best != NULL ==> Fits(x, n, index, best)
    ensures best != NULL ==> (BestFit(x, n, index, best) <==> exists a :: BestFit(x, n, index, a) && Near(x, n, a))
  {
    if best != NULL {
      BucketResult(x, n, index, d, best);
    } else {
      forall a | a in x.trie.at && a in x.size && x.trie.at[a].bucket == index ensures x.size[a] < n {
        assert Fits(x, n, index, a) ==> Known(x, d, a);
      }
    }
  }

  /** When the result is a best fit: exactly when a best fit stands on the path of the request or one step
      off it. */
  lemma BucketResult(x: Index, n: nat, index: nat, d: Hand, best: int)
    requires Inv(x) && n >= 1 && index == Log2(n) && OnPath(x, n, index, d.best, d.bestSize) && Branch(x, n, index, d)
    requires AllKnown(x, n, index, d) && Walked(x, index, d, best) && best != NULL
    ensures x.size[best] >= n
    ensures BestFit(x, n, index, best) <==> exists a :: BestFit(x, n, index, a) && Near(x, n, a)
  {
    if d.rst != NULL { BranchGreater(x, n, d); PlaceFacts(x, d.g); assert Below(x, d.g, d.rst); }
    ResultFits(x, n, index, d, best);
    if BestFit(x, n, index, best) { ResultNear(x, n, index, d, best); }
    if a :| BestFit(x, n, index, a) && Near(x, n, a) { NearFound(x, n, index, d, best, a); }
  }

  lemma ResultFits(x: Index, n: nat, index: nat, d: Hand, best: int)
    requires Inv(x) && OnPath(x, n, index, d.best, d.bestSize) && Branch(x, n, index, d) &&
      Walked(x, index, d, best) && best != NULL
    requires d.rst != NULL ==> Greater(x, n, d.g) && Below(x, d.g, d.rst)
    ensures Fits(x, n, index, best)
  {
    if d.rst != NULL && OffLeft(x, d.g, best) {
      PrefixTransitive(d.g.path, Down(d.g, 1).path, x.trie.at[best].path);
      assert Below(x, d.g, best);
    }
  }

  lemma ResultNear(x: Index, n: nat, index: nat, d: Hand, best: int)
    requires Inv(x) && n >= 1 && OnPath(x, n, index, d.best, d.bestSize) && Branch(x, n, index, d) &&
      Walked(x, index, d, best)
    requires best != NULL && BestFit(x, n, index, best)
    requires d.rst != NULL ==> Greater(x, n, d.g)
    ensures Near(x, n, best)
  {
    if best != d.best && best != d.rst {
      LeftIsSmaller(x, d.g, best);
      var a := x.trie.node[Down(d.g, 0)];
      assert Below(x, d.g, a);
      assert Fits(x, n, index, a);
    } else if best == d.rst && best != d.best {
      PlaceFacts(x, d.g);
      HalfIsPrefix(d.g.path - 1, n);
    }
  }

  lemma HalfIsPrefix(k: nat, s: nat)
    requires k >= 2 && Prefix(k, s)
    ensures Prefix(k / 2, s)
  {
    PrefixTransitive(k / 2, k, s);
  }

  lemma NearFound(x: Index, n: nat, index: nat, d: Hand, best: int, a: int)
    requires Inv(x) && n >= 1 && OnPath(x, n, index, d.best, d.bestSize) && Branch(x, n, index, d) &&
      AllKnown(x, n, index, d)
    requires Walked(x, index, d, best) && best != NULL && Fits(x, n, index, best)
    requires d.rst != NULL ==> Greater(x, n, d.g) && Below(x, d.g, d.rst)
    requires BestFit(x, n, index, a) && Near(x, n, a)
    ensures BestFit(x, n, index, best)
  {
    assert Known(x, d, a);
    if d.rst != NULL {
      assert Fits(x, n, index, d.rst);
      if Below(x, d.g, a) { OneStepOff(x, n, d, a); }
    }
  }

  /** In the branch only its top is one step off the path. */
  lemma OneStepOff(x: Index, n: nat, d: Hand, a: int)
    requires Inv(x) && n >= 1 && d.rst != NULL && Branch(x, n, d.g.bucket, d) && Below(x, d.g, a) && Near(x, n, a)
    ensures a == d.rst
  {
    var p := x.trie.at[a].path;
    if Prefix(d.g.path, n) { PrefixesNest(d.g.path - 1, d.g.path, n); }
    if Prefix(p, n) {
      PrefixTransitive(d.g.path, p, n);
    } else if p != d.g.path {
      PrefixBelow(d.g.path, p);
      PrefixTransitive(d.g.path, p / 2, n);
    }
    PlaceFacts(x, x.trie.at[a]);
  }

  // ----- from nodes to blocks

  /** A block of the tries has the size of a node. */
  lemma NodeOfBlock(x: Index, b: int) returns (a: int)
    requires Inv(x) && b in x.size && ListOf(x, b) == LargeTrie
    ensures a in x.trie.at && a in x.size && x.size[a] == x.size[b]
  {
    assert b in x.ring.home.Keys;
    assert KindOK(x, b);
    a := x.ring.home[b];
  }

  lemma BlockOfNode(x: Index, a: int)
    requires Inv(x) && a in x.trie.at
    ensures a in x.size && ListOf(x, a) == LargeTrie
  {
    assert HeadOK(x.ring, a) && x.trie.at[a] == x.trie.at[a];
  }

  lemma NoLargeNode(x: Index, n: nat)
    requires Inv(x) && forall a :: a in x.trie.at && a in x.size ==> x.size[a] < n
    ensures forall b :: b in x.size && ListOf(x, b) == LargeTrie ==> x.size[b] < n
    ensures forall a :: !BestLarge(x, n, a)
  {
    forall b | b in x.size && ListOf(x, b) == LargeTrie ensures x.size[b] < n {
      var a := NodeOfBlock(x, b);
    }
  }

  lemma ExactHasNode(x: Index, n: nat)
    requires Inv(x)
    ensures (exists b :: b in x.size && ListOf(x, b) == LargeTrie && x.size[b] == n) ==>
      exists a :: a in x.trie.at && a in x.size && x.size[a] == n
  {
    if b :| b in x.size && ListOf(x, b) == LargeTrie && x.size[b] == n { var a := NodeOfBlock(x, b); }
  }

  /** The block behind a node in its ring is a block of the tries of the same size. */
  lemma RingResult(x: Index, n: nat, best: int)
    requires Inv(x) && best in x.trie.at && best in x.size
    ensures best in x.ring.next
    ensures var r := x.ring.next[best];
      r != NULL && r in x.size && ListOf(x, r) == LargeTrie && x.size[r] == x.size[best]
  {
    NodeLinks(x, best);
    assert Linked(x.ring.next, x.ring.prev, Full(x.ring, best), 0) by { assert HeadOK(x.ring, best); }
    BlockOfNode(x, best);
    if Ring(x, best) != [] { RingOfNode(x, best, Ring(x, best)[0]); }
  }

  /** The word behind a node leads to the first block of its ring, or back to the node. */
  lemma NodeRing(x: Index, a: int)
    requires Inv(x) && a in x.trie.at
    ensures a in x.ring.next && x.ring.next[a] == if Ring(x, a) == [] then a else Ring(x, a)[0]
  {
    NodeLinks(x, a);
    assert Linked(x.ring.next, x.ring.prev, Full(x.ring, a), 0) by { assert HeadOK(x.ring, a); }
  }

  lemma BucketOccupied(x: Index, index: nat, low: nat)
    requires Inv(x) && Bit(Shr(x.largeBitmap, index), low)
    ensures Pos(index + low, 1) in x.trie.node
  {
    ShrBits(x.largeBitmap, index, low);
  }

  /** No bit from `from` on: no node in those buckets, so none as large, and below none at all. */
  lemma NothingAbove(x: Index, n: nat, from: nat)
    requires Inv(x) && BlockSize(n) && Shr(x.largeBitmap, from) == 0
    requires from == Log2(n) || (from == Log2(n) + 1 && NoneAtLeast(x, n, Log2(n)))
    ensures forall a :: a in x.trie.at && a in x.size ==> x.size[a] < n
  {
    hide Inv, Shr, Bit, BlockSize;
    forall a | a in x.trie.at && a in x.size ensures x.size[a] < n {
      var i := x.trie.at[a].bucket;
      BucketMarked(x, a);
      if i >= from { ShrBits(x.largeBitmap, from, i - from); ZeroBits(i - from); }
      assert i < from;
      if x.size[a] >= n { Positive(n); Log2Monotone(n, x.size[a]); }
    }
  }

  lemma Positive(n: nat)
    requires BlockSize(n)
    ensures n >= 1
  {}

  /** The bit of the bucket of a node is set. */
  lemma BucketMarked(x: Index, a: int)
    requires Inv(x) && a in x.trie.at && a in x.size
    ensures var i := x.trie.at[a].bucket; Bit(x.largeBitmap, i) && x.size[a] >= 1 && Log2(x.size[a]) == i
  {
    var q := x.trie.at[a];
    PlaceFacts(x, q);
    RootIsPrefix(q.path);
    PrefixPresent(x.size, x.trie, q, 1);
  }

  lemma BucketVacant(x: Index, n: nat, index: nat)
    requires Inv(x) && BlockSize(n) && index == Log2(n) && Shr(x.largeBitmap, index) % 2 == 0
    ensures NoneAtLeast(x, n, index) && forall a :: a in x.trie.at && a in x.size ==> x.size[a] != n
  {
    ShrBits(x.largeBitmap, index, 0);
    forall a | a in x.trie.at && a in x.size ensures x.trie.at[a].bucket != index && x.size[a] != n {
      var q := x.trie.at[a];
      PlaceFacts(x, q);
      RootIsPrefix(q.path);
      PrefixPresent(x.size, x.trie, q, 1);
    }
  }

  lemma LargerBucket(x: Index, n: nat, best: int)
    requires Inv(x) && BlockSize(n) && best in x.trie.at && best in x.size && x.trie.at[best].bucket > Log2(n)
    ensures x.size[best] > n
  {
    PlaceFacts(x, x.trie.at[best]);
    if x.size[best] <= n { Log2Monotone(x.size[best], n); }
  }

  // ----- when the large search is a best fit

  /** The node of the best fitting size of all buckets. */
  ghost predicate BestLarge(x: Index, n: nat, a: int) {
    && a in x.trie.at && a in x.size && x.size[a] >= n
    && forall c {:trigger x.trie.at[c]} :: c in x.trie.at && c in x.size && x.size[c] >= n ==> x.size[a] <= x.size[c]
  }

  /** Its place is one where the search looks: in the bucket of the request on the path of its bits or one
      step off it, in another bucket at the root. */
  ghost predicate InReach(x: Index, n: nat, a: int) {
    n >= 1 && a in x.trie.at && if x.trie.at[a].bucket == Log2(n) then Near(x, n, a) else x.trie.at[a].path == 1
  }

  lemma SameNode(x: Index, a: int, c: int)
    requires Inv(x) && a in x.trie.at && c in x.trie.at && a in x.size && c in x.size && x.size[a] == x.size[c]
    ensures a == c
  {
    assert x.trie.at[a] == x.trie.at[a] && x.trie.at[c] == x.trie.at[c];
  }

  /** The outcome when the bucket of the request holds a fit. */
  lemma OwnBucketBest(x: Index, n: nat, index: nat, best: int, a: int)
    requires Inv(x) && BlockSize(n) && index == Log2(n) && Fits(x, n, index, best) && BestLarge(x, n, a)
    requires BestFit(x, n, index, best) <==> exists c :: BestFit(x, n, index, c) && Near(x, n, c)
    ensures x.size[best] == x.size[a] <==> InReach(x, n, a)
  {
    PlaceFacts(x, x.trie.at[a]);
    PlaceFacts(x, x.trie.at[best]);
    assert x.size[a] <= x.size[best] by { assert x.trie.at[best] == x.trie.at[best]; }
    Log2Monotone(n, x.size[a]);
    Log2Monotone(x.size[a], x.size[best]);
    forall c | Fits(x, n, index, c) ensures x.size[a] <= x.size[c] { assert x.trie.at[c] == x.trie.at[c]; }
    assert BestFit(x, n, index, a);
    if x.size[best] == x.size[a] {
      var c :| BestFit(x, n, index, c) && Near(x, n, c);
      SameNode(x, a, c);
    }
    hide Inv;
  }

  lemma OwnBucket(x: Index, n: nat, index: nat, best: int)
    requires Inv(x) && BlockSize(n) && index == Log2(n) && Fits(x, n, index, best)
    requires BestFit(x, n, index, best) <==> exists c :: BestFit(x, n, index, c) && Near(x, n, c)
    ensures forall a :: BestLarge(x, n, a) ==> (x.size[best] == x.size[a] <==> InReach(x, n, a))
  {
    hide Inv, Log2, Near, BestFit, InReach;
    forall a | BestLarge(x, n, a) ensures x.size[best] == x.size[a] <==> InReach(x, n, a) {
      OwnBucketBest(x, n, index, best, a);
    }
  }

  /** The outcome when the search goes on to the next occupied bucket. */
  lemma NextBucketBest(x: Index, n: nat, index: nat, best: int, a: int)
    requires Inv(x) && BlockSize(n) && NoneAtLeast(x, n, Log2(n)) && index > Log2(n) && Pos(index, 1) in x.trie.node
    requires forall j :: Log2(n) < j < index ==> !Bit(x.largeBitmap, j)
    requires best in x.trie.at && best in x.size && x.trie.at[best].bucket == index && BestLarge(x, n, a)
    requires Smallest(x, index, best) <==> Smallest(x, index, x.trie.node[Pos(index, 1)])
    ensures x.size[best] == x.size[a] <==> InReach(x, n, a)
  {
    LargerBucket(x, n, best);
    NextBucket(x, n, index, best, a);
    PlaceFacts(x, Pos(index, 1));
    PlaceFacts(x, x.trie.at[a]);
    var root := x.trie.node[Pos(index, 1)];
    assert x.size[a] <= x.size[best] by { assert x.trie.at[best] == x.trie.at[best]; }
    if Smallest(x, index, root) { SameNode(x, a, root); }
    hide Inv, BlockSize, Log2;
  }

  /** The bucket found from the lowest bit at or above `from`. */
  lemma NextOccupied(x: Index, n: nat, from: nat, low: nat, best: int)
    requires Inv(x) && BlockSize(n) && NoneAtLeast(x, n, Log2(n)) && Pos(from + low, 1) in x.trie.node
    requires Log2(n) < from + low && from <= Log2(n) + 1 && forall j :: 0 <= j < low ==>
      !Bit(Shr(x.largeBitmap, from), j)
    requires best in x.trie.at && best in x.size && x.trie.at[best].bucket == from + low
    requires Smallest(x, from + low, best) <==> Smallest(x, from + low, x.trie.node[Pos(from + low, 1)])
    ensures forall a :: BestLarge(x, n, a) ==> (x.size[best] == x.size[a] <==> InReach(x, n, a))
  {
    hide Inv, Log2, Near, InReach, Smallest, NoneAtLeast;
    forall j | Log2(n) < j < from + low ensures !Bit(x.largeBitmap, j) { ShrBits(x.largeBitmap, from, j - from); }
    forall a | BestLarge(x, n, a) ensures x.size[best] == x.size[a] <==> InReach(x, n, a) {
      NextBucketBest(x, n, from + low, best, a);
    }
  }

  lemma NextBucket(x: Index, n: nat, index: nat, best: int, a: int)
    requires Inv(x) && BlockSize(n) && NoneAtLeast(x, n, Log2(n)) && index > Log2(n)
    requires forall j :: Log2(n) < j < index ==> !Bit(x.largeBitmap, j)
    requires best in x.trie.at && best in x.size && x.size[best] >= n && x.trie.at[best].bucket == index &&
      BestLarge(x, n, a)
    ensures x.trie.at[a].bucket == index && Smallest(x, index, a)
  {
    var q := x.trie.at[a];
    PlaceFacts(x, q);
    PlaceFacts(x, x.trie.at[best]);
    assert x.size[a] <= x.size[best] by { assert x.trie.at[best] == x.trie.at[best]; }
    Log2Monotone(n, x.size[a]);
    Log2Monotone(x.size[a], x.size[best]);
    BucketMarked(x, a);
    forall c | c in x.trie.at && c in x.size && x.trie.at[c].bucket == index ensures x.size[a] <= x.size[c] {
      LargerBucket(x, n, c);
    }
  }

  // ----- the small search and the rest scan

  lemma MarkedRing(x: Index, index: nat, low: nat)
    requires Inv(x) && Bit(Shr(x.bitmap, index), low)
    ensures var i := index + low;
      && i < 64 && Ring(x, SmallHead(i)) != [] && SmallHead(i) in x.ring.prev
      && x.ring.prev[SmallHead(i)] == Last(x, SmallHead(i))
      && var r := Last(x, SmallHead(i));
      && r > 0 && r in x.size && BlockSize(x.size[r]) && x.size[r] == 8 * i + 32
      && ListOf(x, r) == SmallRing(i) && Kept(x, r)
  {
    var i := index + low;
    ShrBits(x.bitmap, index, low);
    SmallHeadLinks(x, SmallHead(i));
    var r := Last(x, SmallHead(i));
    RingBlocks(x, SmallHead(i), r);
    assert BlockSize(x.size[r]);
  }

  /** A block in a small ring: its ring is the one of its size. */
  lemma SmallRingOf(x: Index, b: int)
    requires Inv(x) && b in x.size && ListOf(x, b).SmallRing?
    ensures Small(x.size[b]) && BlockSize(x.size[b]) && ListOf(x, b).index == BucketIndex(x.size[b])
    ensures b in Ring(x, SmallHead(BucketIndex(x.size[b])))
  {
    assert b in x.ring.home.Keys;
    assert KindOK(x, b) && MemberOK(x.ring, b);
  }

  /** A block the small search can find: it is in a small ring that has not lost its bit. */
  ghost predicate Kept(x: Index, b: int) {
    b in x.size && ListOf(x, b).SmallRing? && !Lost(x, ListOf(x, b).index)
  }

  lemma NoMarkedRing(x: Index, n: nat)
    requires Inv(x) && BlockSize(n) && Shr(x.bitmap, BucketIndex(n)) == 0
    ensures forall b :: Kept(x, b) ==> x.size[b] < n
  {
    forall b | Kept(x, b) ensures x.size[b] < n {
      SmallRingOf(x, b);
      var i := BucketIndex(x.size[b]);
      if x.size[b] >= n {
        ShrBits(x.bitmap, BucketIndex(n), i - BucketIndex(n));
        ZeroBits(i - BucketIndex(n));
      }
    }
  }

  lemma FirstMarked(x: Index, n: nat, low: nat)
    requires Inv(x) && BlockSize(n) && forall j :: 0 <= j < low ==> !Bit(Shr(x.bitmap, BucketIndex(n)), j)
    ensures forall b :: Kept(x, b) && x.size[b] >= n ==> 8 * (BucketIndex(n) + low) + 32 <= x.size[b]
  {
    forall b | Kept(x, b) && x.size[b] >= n ensures 8 * (BucketIndex(n) + low) + 32 <= x.size[b] {
      SmallRingOf(x, b);
      var i := BucketIndex(x.size[b]);
      ShrBits(x.bitmap, BucketIndex(n), i - BucketIndex(n));
    }
  }

  lemma RestRing(x: Index)
    requires Inv(x)
    ensures REST in x.ring.prev && x.ring.prev[REST] == (if Ring(x, REST) == [] then REST else Last(x, REST))
    ensures forall b :: b in Ring(x, REST) <==> b in x.size && ListOf(x, b) == RestList
    ensures REST !in Ring(x, REST)
    ensures forall b :: b in Ring(x, REST) ==> b > 0
  {
    SmallHeadLinks(x, REST);
    forall b | b in Ring(x, REST) ensures b in x.size && ListOf(x, b) == RestList && b > 0 {
      RingBlocks(x, REST, b);
      assert x.size[b] > 0;
    }
    forall b | b in x.size && ListOf(x, b) == RestList ensures b in Ring(x, REST) {
      assert b in x.ring.home.Keys;
      assert MemberOK(x.ring, b) && x.size[b] > 0;
    }
  }

  /** Of the rest list, the newest block among the smallest that fit. */
  ghost predicate NewestFit(x: Index, n: nat, r: int) {
    exists j :: 0 <= j < |Ring(x, REST)| && Ring(x, REST)[j] == r && NewerAreWorse(x, n, r, j)
  }

  ghost predicate NewerAreWorse(x: Index, n: nat, r: int, j: int) {
    r in x.size && forall i {:trigger Ring(x, REST)[i]} ::
      0 <= i < |Ring(x, REST)| && i > j && Ring(x, REST)[i] in x.size && x.size[Ring(x, REST)[i]] >= n ==>
        x.size[Ring(x, REST)[i]] > x.size[r]
  }

  /** None of the blocks from place `j` on is a better fit than `r`. */
  ghost predicate NoBetter(x: Index, n: nat, j: int, r: int) {
    forall i {:trigger Ring(x, REST)[i]} ::
      0 <= i < |Ring(x, REST)| && i >= j && Ring(x, REST)[i] in x.size && x.size[Ring(x, REST)[i]] >= n ==>
        r != NULL && r in x.size && x.size[r] <= x.size[Ring(x, REST)[i]]
  }

  /** A look at the block at place `j`. */
  lemma RestLook(x: Index, n: nat, j: nat, r: int)
    requires j < |Ring(x, REST)| && NoBetter(x, n, j + 1, r) && Ring(x, REST)[j] in x.size && Ring(x, REST)[j] > 0
    requires r != NULL ==> r in x.size && x.size[r] > n
    ensures var p := Ring(x, REST)[j];
      var better := x.size[p] >= n && (r == NULL || x.size[p] < x.size[r]);
      NoBetter(x, n, j, if better then p else r) && (better ==> NewerAreWorse(x, n, p, j))
  {}

  lemma ExactRest(x: Index, n: nat, j: nat)
    requires Inv(x) && j < |Ring(x, REST)| && Ring(x, REST)[j] in x.size && x.size[Ring(x, REST)[j]] == n
    requires NewerAreWorse(x, n, Ring(x, REST)[j], j)
    ensures NewestFit(x, n, Ring(x, REST)[j]) && ListOf(x, Ring(x, REST)[j]) == RestList
  {
    RestRing(x);
    assert Ring(x, REST)[j] in Ring(x, REST);
  }

  lemma RestBest(x: Index, n: nat, r: int)
    requires Inv(x) && NoBetter(x, n, 0, r)
    ensures forall b :: b in x.size && ListOf(x, b) == RestList && x.size[b] >= n ==>
      r != NULL && r in x.size && x.size[r] <= x.size[b]
  {
    RestRing(x);
    hide ListOf, Inv;
    forall b | b in x.size && ListOf(x, b) == RestList && x.size[b] >= n
      ensures r != NULL && r in x.size && x.size[r] <= x.size[b]
    {
      var i :| 0 <= i < |Ring(x, REST)| && Ring(x, REST)[i] == b;
    }
  }

  lemma RestAt(x: Index, j: nat)
    requires Inv(x) && j < |Ring(x, REST)|
    ensures var p := Ring(x, REST)[j];
      && p in x.size && BlockSize(x.size[p]) && p in x.ring.prev && p > 0
      && x.ring.prev[p] == (if j > 0 then Ring(x, REST)[j - 1] else REST)
  {
    var p := Ring(x, REST)[j];
    RingBlocks(x, REST, p);
    assert HeadOK(x.ring, REST) && x.size[p] > 0;
    var c := Full(x.ring, REST);
    assert Linked(x.ring.next, x.ring.prev, c, j + 1);
  }
}
