/** The tries of large free blocks: one bitwise trie per power of two, linked through two child
    pointers and a pointer back to the slot that holds the node. */
module Tries {
  import opened Bits
  import opened Paths

  const NULL: int := 0

  /** What a `parent` word can point at: nothing, the rest-list mark, the root slot of a bucket, or
      a child slot of another block. */
  datatype Slot = NoSlot | RestSlot | BucketSlot(bucket: nat) | ChildSlot(block: int, side: nat)

  /** A place in a trie: the bucket, and the path number below its root. */
  datatype Pos = Pos(bucket: nat, path: nat)

  /** The link words, and which block stands at which place. */
  datatype Trie = Trie(
    parent: map<int, Slot>, child0: map<int, int>, child1: map<int, int>, bucket: seq<int>,
    node: map<Pos, int>, at: map<int, Pos>)

  function NodeAt(t: Trie, q: Pos): int {
    if q in t.node then t.node[q] else NULL
  }

  function Up(q: Pos): Pos { Pos(q.bucket, q.path / 2) }
  function Down(q: Pos, side: nat): Pos { Pos(q.bucket, 2 * q.path + side) }

  function SlotOf(t: Trie, q: Pos): Slot {
    if q.path <= 1 then BucketSlot(q.bucket) else ChildSlot(NodeAt(t, Up(q)), q.path % 2)
  }

  ghost predicate Belongs(q: Pos, n: nat) {
    q.path >= 1 && n >= 1 && Log2(n) == q.bucket && Prefix(q.path, n)
  }

  ghost predicate NodeOK(size: map<int, nat>, t: Trie, q: Pos)
    requires q in t.node
  {
    var a := t.node[q];
    && q.bucket < 64 && q.path >= 1
    && a > 0 && a in size && Belongs(q, size[a])
    && a in t.at && t.at[a] == q
    && (q.path > 1 ==> Up(q) in t.node)
    && a in t.parent && t.parent[a] == SlotOf(t, q)
    && a in t.child0 && t.child0[a] == NodeAt(t, Down(q, 0))
    && a in t.child1 && t.child1[a] == NodeAt(t, Down(q, 1))
  }

  ghost predicate RootsOK(t: Trie) {
    |t.bucket| == 64 && forall i {:trigger t.bucket[i]} :: 0 <= i < 64 ==> t.bucket[i] == NodeAt(t, Pos(i, 1))
  }

  ghost predicate PlacesOK(t: Trie) {
    forall a {:trigger t.at[a]} :: a in t.at ==> t.at[a] in t.node && t.node[t.at[a]] == a
  }

  ghost predicate SizesUnique(size: map<int, nat>, t: Trie) {
    forall a, b {:trigger t.at[a], t.at[b]} :: a in t.at && b in t.at && a in size && b in size && size[a] == size[b] ==> a == b
  }

  ghost predicate Sound(size: map<int, nat>, t: Trie) {
    && RootsOK(t)
    && PlacesOK(t)
    && SizesUnique(size, t)
    && (forall q {:trigger NodeOK(size, t, q)} :: q in t.node ==> NodeOK(size, t, q))
  }

  /** `*slot` and `*slot = x`. */
  function Load(t: Trie, s: Slot): int {
    match s
    case BucketSlot(i) => if i < |t.bucket| then t.bucket[i] else NULL
    case ChildSlot(b, side) =>
      if side == 0 then (if b in t.child0 then t.child0[b] else NULL) else (if b in t.child1 then t.child1[b] else NULL)
    case _ => NULL
  }

  function Store(t: Trie, s: Slot, x: int): Trie {
    match s
    case BucketSlot(i) => if i < |t.bucket| then t.(bucket := t.bucket[i := x]) else t
    case ChildSlot(b, side) => if side == 0 then t.(child0 := t.child0[b := x]) else t.(child1 := t.child1[b := x])
    case _ => t
  }

  /** Sizes of blocks outside the tries do not matter. */
  lemma SizeFrame(size: map<int, nat>, size': map<int, nat>, t: Trie)
    requires Sound(size, t)
    requires forall a :: a in t.at && a in size ==> a in size' && size'[a] == size[a]
    ensures Sound(size', t)
  {
    forall q | q in t.node ensures NodeOK(size', t, q) { assert NodeOK(size, t, q); }
    forall a, b | a in t.at && b in t.at && a in size' && b in size' && size'[a] == size'[b] ensures a == b {
      assert NodeOK(size, t, t.at[a]) && NodeOK(size, t, t.at[b]);
    }
  }

  /** Nor do the link words of such a block. */
  lemma LinkFrame(size: map<int, nat>, t: Trie, t': Trie, b: int)
    requires Sound(size, t) && b !in t.at
    requires t'.node == t.node && t'.at == t.at && t'.bucket == t.bucket
    requires forall a :: a in t.parent && a != b ==> a in t'.parent && t'.parent[a] == t.parent[a]
    requires forall a :: a in t.child0 && a != b ==> a in t'.child0 && t'.child0[a] == t.child0[a]
    requires forall a :: a in t.child1 && a != b ==> a in t'.child1 && t'.child1[a] == t.child1[a]
    ensures Sound(size, t')
  {
    forall q | q in t'.node ensures NodeOK(size, t', q) { assert NodeOK(size, t, q); }
  }

  // ----- a new node

  ghost predicate Vacant(t: Trie, q: Pos) {
    q.bucket < 64 && q.path >= 1 && q !in t.node && (q.path > 1 ==> Up(q) in t.node)
  }

  /** Block `b`, its children cleared, stored at the vacant place `q`. */
  function AddNode(t: Trie, q: Pos, b: int): Trie {
    var s := SlotOf(t, q);
    var t1 := Store(t.(child0 := t.child0[b := NULL], child1 := t.child1[b := NULL]), s, b);
    t1.(parent := t1.parent[b := s], node := t.node[q := b], at := t.at[b := q])
  }

  lemma AddNodeOK(size: map<int, nat>, t: Trie, q: Pos, b: int)
    requires Sound(size, t) && Vacant(t, q) && b > 0 && b !in t.at && b in size && Belongs(q, size[b])
    requires forall a :: a in t.at && a in size ==> size[a] != size[b]
    ensures Sound(size, AddNode(t, q, b))
  {
    var t' := AddNode(t, q, b);
    AddNodeFlat(size, t, q, b);
    forall r | r in t'.node ensures NodeOK(size, t', r) {
      if r == q { AddNodeNew(size, t, q, b); } else { AddNodeKeeps(size, t, q, b, r); }
    }
  }

  lemma AddNodeFlat(size: map<int, nat>, t: Trie, q: Pos, b: int)
    requires Sound(size, t) && Vacant(t, q) && b > 0 && b !in t.at && b in size
    requires forall a :: a in t.at && a in size ==> size[a] != size[b]
    ensures var t' := AddNode(t, q, b); RootsOK(t') && PlacesOK(t') && SizesUnique(size, t')
  {
    hide NodeOK;
    var t' := AddNode(t, q, b);
    assert t'.node == t.node[q := b] && t'.at == t.at[b := q];
    assert RootsOK(t') by { hide PlacesOK, SizesUnique; }
    hide RootsOK;
  }

  lemma AddNodeNew(size: map<int, nat>, t: Trie, q: Pos, b: int)
    requires Sound(size, t) && Vacant(t, q) && b > 0 && b !in t.at && b in size && Belongs(q, size[b])
    ensures NodeOK(size, AddNode(t, q, b), q)
  {
    hide Belongs;
    if q.path > 1 { assert NodeOK(size, t, Up(q)); }
    ChildlessVacant(size, t, q);
  }

  lemma ChildlessVacant(size: map<int, nat>, t: Trie, q: Pos)
    requires Sound(size, t) && q !in t.node && q.path >= 1
    ensures Down(q, 0) !in t.node && Down(q, 1) !in t.node
  {
    assert Up(Down(q, 0)) == q && Up(Down(q, 1)) == q;
    if Down(q, 0) in t.node { UpPresent(size, t, Down(q, 0)); }
    if Down(q, 1) in t.node { UpPresent(size, t, Down(q, 1)); }
  }

  lemma UpPresent(size: map<int, nat>, t: Trie, q: Pos)
    requires Sound(size, t) && q in t.node && q.path > 1
    ensures Up(q) in t.node
  {
    assert NodeOK(size, t, q);
  }

  lemma AddNodeKeeps(size: map<int, nat>, t: Trie, q: Pos, b: int, r: Pos)
    requires Sound(size, t) && Vacant(t, q) && b > 0 && b !in t.at && r in t.node && r != q
    ensures NodeOK(size, AddNode(t, q, b), r)
  {
    assert NodeOK(size, t, r);
    if r.path > 1 { assert NodeOK(size, t, Up(r)); }
    if q.path > 1 { assert NodeOK(size, t, Up(q)); }
    assert Up(Down(r, 0)) == Up(Down(r, 1)) == r;
    if q.path > 1 && Up(q) == r { assert q == Down(r, q.path % 2); }
  }

  /** Everything between the root and a node is occupied. */
  lemma {:induction false} PrefixPresent(size: map<int, nat>, t: Trie, q: Pos, k: nat)
    requires Sound(size, t) && q in t.node && k >= 1 && Prefix(k, q.path)
    ensures Pos(q.bucket, k) in t.node
    decreases q.path
  {
    assert NodeOK(size, t, q);
    if k != q.path { PrefixPresent(size, t, Up(q), k); }
  }

  /** A block of size `n` can only stand on the search path of `n`, above the first gap in it. */
  lemma AboveTheGap(size: map<int, nat>, t: Trie, a: int, q: Pos)
    requires Sound(size, t) && a in t.at && a in size && q.path >= 1
    requires Belongs(q, size[a]) && q !in t.node
    ensures t.at[a].bucket == q.bucket && 1 <= t.at[a].path < q.path && Prefix(t.at[a].path, q.path)
  {
    var r := t.at[a];
    assert NodeOK(size, t, r);
    if q.path < r.path {
      PrefixesNest(q.path, r.path, size[a]);
      PrefixPresent(size, t, r, q.path);
    } else {
      PrefixesNest(r.path, q.path, size[a]);
    }
  }

  // ----- a leaf removed

  ghost predicate IsLeaf(t: Trie, q: Pos) {
    q in t.node && Down(q, 0) !in t.node && Down(q, 1) !in t.node
  }

  function DropLeaf(t: Trie, q: Pos): Trie
    requires q in t.node
  {
    Store(t, SlotOf(t, q), NULL).(node := t.node - {q}, at := t.at - {t.node[q]})
  }

  lemma DropLeafOK(size: map<int, nat>, t: Trie, q: Pos)
    requires Sound(size, t) && IsLeaf(t, q)
    ensures Sound(size, DropLeaf(t, q))
  {
    var t' := DropLeaf(t, q);
    assert NodeOK(size, t, q);
    DropLeafFlat(size, t, q);
    forall r | r in t'.node ensures NodeOK(size, t', r) { DropLeafKeeps(size, t, q, r); }
  }

  lemma DropLeafFlat(size: map<int, nat>, t: Trie, q: Pos)
    requires Sound(size, t) && IsLeaf(t, q) && t.node[q] in t.at && t.at[t.node[q]] == q && q.bucket < 64 && q.path >= 1
    ensures var t' := DropLeaf(t, q); RootsOK(t') && PlacesOK(t') && SizesUnique(size, t')
  {
    hide NodeOK;
    var t' := DropLeaf(t, q);
    assert t'.node == t.node - {q} && t'.at == t.at - {t.node[q]};
    assert RootsOK(t') by { hide PlacesOK, SizesUnique; }
    hide RootsOK;
  }

  lemma DropLeafKeeps(size: map<int, nat>, t: Trie, q: Pos, r: Pos)
    requires Sound(size, t) && IsLeaf(t, q) && r in t.node && r != q
    ensures NodeOK(size, DropLeaf(t, q), r)
  {
    hide Sound, Belongs, NodeOK, DropLeaf;
    NodeIsOK(size, t, r);
    NodeIsOK(size, t, q);
    RootSlot(size, t);
    if q.path <= 1 {
      DropRootKeeps(size, t, q, r);
    } else {
      ParentIsOK(size, t, q);
      if Up(q) == r { DropChildKeeps(size, t, q, r); } else { DropOtherKeeps(size, t, q, r); }
    }
  }

  lemma ParentIsOK(size: map<int, nat>, t: Trie, q: Pos)
    requires Sound(size, t) && q in t.node && q.path > 1
    ensures Up(q) in t.node && NodeOK(size, t, Up(q))
  {
    assert NodeOK(size, t, q);
  }

  lemma DropRootKeeps(size: map<int, nat>, t: Trie, q: Pos, r: Pos)
    requires IsLeaf(t, q) && r in t.node && r != q && NodeOK(size, t, r) && NodeOK(size, t, q) && |t.bucket| == 64
    requires q.path <= 1
    ensures NodeOK(size, DropLeaf(t, q), r)
  {
    hide Belongs;
    if r.path > 1 { assert r == Down(Up(r), r.path % 2); }
  }

  lemma DropChildKeeps(size: map<int, nat>, t: Trie, q: Pos, r: Pos)
    requires IsLeaf(t, q) && r in t.node && r != q && NodeOK(size, t, r) && NodeOK(size, t, q)
    requires q.path > 1 && Up(q) == r
    ensures NodeOK(size, DropLeaf(t, q), r)
  {
    hide Belongs;
    assert q == Down(r, q.path % 2);
    if r.path > 1 { assert r == Down(Up(r), r.path % 2); }
  }

  lemma DropOtherKeeps(size: map<int, nat>, t: Trie, q: Pos, r: Pos)
    requires IsLeaf(t, q) && r in t.node && r != q && NodeOK(size, t, r) && NodeOK(size, t, q)
    requires q.path > 1 && Up(q) != r && Up(q) in t.node && NodeOK(size, t, Up(q))
    ensures NodeOK(size, DropLeaf(t, q), r)
  {
    hide Belongs;
    assert Up(Down(r, 0)) == Up(Down(r, 1)) == r;
    if r.path > 1 { assert r == Down(Up(r), r.path % 2); }
  }

  lemma NodeIsOK(size: map<int, nat>, t: Trie, q: Pos)
    requires Sound(size, t) && q in t.node
    ensures NodeOK(size, t, q)
  {}

  lemma RootSlot(size: map<int, nat>, t: Trie)
    requires Sound(size, t)
    ensures |t.bucket| == 64
  {}

  // ----- a node handed over to another block

  /** The block at `q` gives its place, its parent slot and its children to `p`. */
  function Replace(t: Trie, q: Pos, p: int): Trie
    requires q in t.node && t.node[q] in t.parent && t.node[q] in t.child0 && t.node[q] in t.child1
  {
    var a := t.node[q];
    var t1 := Store(t, t.parent[a], p);
    var t2 := t1.(parent := t1.parent[p := t.parent[a]], child0 := t1.child0[p := t.child0[a]], child1 := t1.child1[p := t.child1[a]]);
    var t3 := if t.child0[a] == NULL then t2 else t2.(parent := t2.parent[t.child0[a] := ChildSlot(p, 0)]);
    var t4 := if t.child1[a] == NULL then t3 else t3.(parent := t3.parent[t.child1[a] := ChildSlot(p, 1)]);
    t4.(node := t.node[q := p], at := (t.at - {a})[p := q])
  }

  lemma ReplaceOK(size: map<int, nat>, t: Trie, q: Pos, p: int)
    requires Sound(size, t) && q in t.node && p > 0 && p !in t.at && p in size && Belongs(q, size[p])
    requires forall a :: a in t.at && a in size && a != t.node[q] ==> size[a] != size[p]
    ensures NodeOK(size, t, q) && Sound(size, Replace(t, q, p))
  {
    assert NodeOK(size, t, q);
    var t' := Replace(t, q, p);
    ReplaceFlat(size, t, q, p);
    forall r | r in t'.node ensures NodeOK(size, t', r) {
      if r == q { ReplaceNew(size, t, q, p); } else { ReplaceKeeps(size, t, q, p, r); }
    }
  }

  lemma ReplaceFlat(size: map<int, nat>, t: Trie, q: Pos, p: int)
    requires Sound(size, t) && q in t.node && NodeOK(size, t, q) && p > 0 && p !in t.at && p in size
    requires forall a :: a in t.at && a in size && a != t.node[q] ==> size[a] != size[p]
    ensures var t' := Replace(t, q, p); RootsOK(t') && PlacesOK(t') && SizesUnique(size, t')
  {
    assert t.node[q] in t.at && t.at[t.node[q]] == q && q.bucket < 64 && q.path >= 1;
    assert t.parent[t.node[q]] == SlotOf(t, q);
    hide Belongs;
    var t' := Replace(t, q, p);
    assert RootsOK(t') by { hide PlacesOK, SizesUnique; }
    hide RootsOK;
  }

  lemma ReplaceNew(size: map<int, nat>, t: Trie, q: Pos, p: int)
    requires Sound(size, t) && q in t.node && NodeOK(size, t, q) && p > 0 && p !in t.at && p in size &&
      Belongs(q, size[p])
    ensures NodeOK(size, Replace(t, q, p), q)
  {
    hide Belongs;
    assert Down(q, 0) != q && Down(q, 1) != q && Up(q) != q;
    if q.path > 1 { assert NodeOK(size, t, Up(q)); }
    if Down(q, 0) in t.node { assert NodeOK(size, t, Down(q, 0)); }
    if Down(q, 1) in t.node { assert NodeOK(size, t, Down(q, 1)); }
  }

  lemma ReplaceKeeps(size: map<int, nat>, t: Trie, q: Pos, p: int, r: Pos)
    requires Sound(size, t) && q in t.node && NodeOK(size, t, q) && p > 0 && p !in t.at && r in t.node && r != q
    ensures NodeOK(size, Replace(t, q, p), r)
  {
    hide Belongs;
    ReplaceKeepsParent(size, t, q, p, r);
    ReplaceKeepsChildren(size, t, q, p, r);
    assert NodeOK(size, t, r);
  }

  lemma ReplaceKeepsParent(size: map<int, nat>, t: Trie, q: Pos, p: int, r: Pos)
    requires Sound(size, t) && q in t.node && NodeOK(size, t, q) && p > 0 && p !in t.at && r in t.node && r != q
    ensures var t' := Replace(t, q, p); t.node[r] in t'.parent && t'.parent[t.node[r]] == SlotOf(t', r)
  {
    hide Belongs;
    assert NodeOK(size, t, r);
    if r.path > 1 { assert r == Down(Up(r), r.path % 2); }
    if Down(q, 0) in t.node { assert NodeOK(size, t, Down(q, 0)); }
    if Down(q, 1) in t.node { assert NodeOK(size, t, Down(q, 1)); }
    assert Up(Down(q, 0)) == Up(Down(q, 1)) == q;
  }

  lemma ReplaceKeepsChildren(size: map<int, nat>, t: Trie, q: Pos, p: int, r: Pos)
    requires Sound(size, t) && q in t.node && NodeOK(size, t, q) && p > 0 && p !in t.at && r in t.node && r != q
    ensures var t', b := Replace(t, q, p), t.node[r];
      && b in t'.child0 && t'.child0[b] == NodeAt(t', Down(r, 0))
      && b in t'.child1 && t'.child1[b] == NodeAt(t', Down(r, 1))
  {
    hide Belongs;
    var t', b := Replace(t, q, p), t.node[r];
    assert NodeOK(size, t, r);
    assert Up(Down(r, 0)) == Up(Down(r, 1)) == r;
    assert t'.child0[b] == Store(t, t.parent[t.node[q]], p).child0[b];
    assert t'.child1[b] == Store(t, t.parent[t.node[q]], p).child1[b];
    if q.path > 1 { assert NodeOK(size, t, Up(q)); assert q == Down(Up(q), q.path % 2); }
  }

  /** Only nodes have their parent word rewritten. */
  lemma ReplaceParents(size: map<int, nat>, t: Trie, q: Pos, p: int, c: int)
    requires Sound(size, t) && q in t.node && NodeOK(size, t, q) && c in t.parent && c !in t.at && c != p
    ensures var t' := Replace(t, q, p); c in t'.parent && t'.parent[c] == t.parent[c]
  {
    hide Belongs;
    if Down(q, 0) in t.node { assert NodeOK(size, t, Down(q, 0)); }
    if Down(q, 1) in t.node { assert NodeOK(size, t, Down(q, 1)); }
  }

  // ----- a leaf moved up into a place above it

  ghost predicate LeafBelow(t: Trie, q: Pos, l: Pos) {
    q in t.node && IsLeaf(t, l) && l != q && l.bucket == q.bucket && q.path >= 1 && l.path >= 1 &&
      Prefix(q.path, l.path)
  }

  function MoveLeaf(t: Trie, q: Pos, l: Pos): Trie
    requires q in t.node && l in t.node && l != q
    requires var t1 := DropLeaf(t, l); t.node[q] in t1.parent && t.node[q] in t1.child0 && t.node[q] in t1.child1
  {
    Replace(DropLeaf(t, l), q, t.node[l])
  }

  lemma MoveLeafOK(size: map<int, nat>, t: Trie, q: Pos, l: Pos)
    requires Sound(size, t) && LeafBelow(t, q, l)
    ensures NodeOK(size, DropLeaf(t, l), q)
    ensures Sound(size, MoveLeaf(t, q, l))
  {
    var t1, p := DropLeaf(t, l), t.node[l];
    DropLeafOK(size, t, l);
    assert NodeOK(size, t, l) && NodeOK(size, t, q);
    PrefixTransitive(q.path, l.path, size[p]);
    ReplaceOK(size, t1, q, p);
  }
}
