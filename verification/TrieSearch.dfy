/** What the search of the tries looks at, read off the trie alone, and that it takes the smallest fit of that. */
module TrieSearch {
  import opened Bits
  import opened Paths
  import opened Tries
  import opened FreeIndexState
  import opened FreeIndexSteps

  // ----- the walk that turns right

  /** The walk from `q` comes by `p`: it goes on to the right child where both children are there. */
  ghost predicate OnWalk(node: map<Pos, int>, q: Pos, p: Pos)
    decreases WORD - q.path
  {
    p == q || (1 <= q.path < WORD && Down(q, 0) in node && Down(q, 1) in node && OnWalk(node, Down(q, 1), p))
  }

  /** A smallest node of the walk from `q`. */
  ghost predicate WalkBest(x: Index, q: Pos, a: int) {
    && a in x.trie.at && a in x.size && OnWalk(x.trie.node, q, x.trie.at[a])
    && forall c {:trigger x.trie.at[c]} :: c in x.trie.at && c in x.size && OnWalk(x.trie.node, q, x.trie.at[c]) ==>
      x.size[a] <= x.size[c]
  }

  /** Every node of the walk from `start` is no smaller than the best so far, or still ahead from `q`. */
  ghost predicate Ahead(x: Index, start: Pos, q: Pos, best: int, bestSize: nat) {
    forall c {:trigger x.trie.at[c]} :: c in x.trie.at && c in x.size && OnWalk(x.trie.node, start, x.trie.at[c]) ==>
      (best != NULL && bestSize <= x.size[c]) || OnWalk(x.trie.node, q, x.trie.at[c])
  }

  /** No node of the walk from `start` is smaller. */
  ghost predicate WalkKnown(x: Index, start: Pos, best: int, bestSize: nat) {
    forall c {:trigger x.trie.at[c]} :: c in x.trie.at && c in x.size && OnWalk(x.trie.node, start, x.trie.at[c]) ==>
      best != NULL && bestSize <= x.size[c]
  }

  lemma {:induction false} WalkOn(node: map<Pos, int>, start: Pos, q: Pos)
    requires OnWalk(node, start, q) && 1 <= q.path < WORD && Down(q, 0) in node && Down(q, 1) in node
    ensures OnWalk(node, start, Down(q, 1))
    decreases WORD - start.path
  {
    if start == q { assert OnWalk(node, Down(q, 1), Down(q, 1)); } else { WalkOn(node, Down(start, 1), q); }
  }

  /** A look at the node at `q`, and a step on. */
  lemma WalkNext(x: Index, start: Pos, q: Pos, best: int, bestSize: nat, best': int, bestSize': nat)
    requires Inv(x) && Ahead(x, start, q, best, bestSize) && q in x.trie.node && 1 <= q.path < WORD
    requires x.trie.node[q] in x.size && best' != NULL && bestSize' <= x.size[x.trie.node[q]]
    requires best != NULL ==> bestSize' <= bestSize
    ensures Down(q, 0) in x.trie.node && Down(q, 1) in x.trie.node ==> Ahead(x, start, Down(q, 1), best', bestSize')
    ensures !(Down(q, 0) in x.trie.node && Down(q, 1) in x.trie.node) ==> WalkKnown(x, start, best', bestSize')
  {
    forall c | c in x.trie.at && c in x.size && OnWalk(x.trie.node, start, x.trie.at[c]) && x.trie.at[c] == q
      ensures c == x.trie.node[q]
    {
      PlaceFacts(x, q);
      SamePlace(x, c);
    }
    hide Inv;
  }

  lemma AheadStart(x: Index, g: Pos, best: int, bestSize: nat)
    ensures Ahead(x, g, g, best, bestSize) && OnWalk(x.trie.node, g, g)
  {}

  lemma RootWalk(x: Index, root: Pos, best: int)
    requires best in x.trie.at && best in x.size && x.trie.at[best] == root
    ensures OnWalk(x.trie.node, root, root) && Ahead(x, root, root, best, x.size[best])
  {}

  lemma WalkEnds(x: Index, root: Pos, best: int)
    requires best in x.trie.at && best in x.size && OnWalk(x.trie.node, root, x.trie.at[best])
    requires WalkKnown(x, root, best, x.size[best])
    ensures WalkBest(x, root, best)
  {
    hide OnWalk;
  }

  /** What the walk from a branch holds on the way. */
  ghost predicate WalkHeld(x: Index, d: Hand, best: int, bestSize: nat) {
    && (best == NULL ==> d.best == NULL)
    && (best != NULL ==> best in x.trie.at && best in x.size && x.size[best] == bestSize)
    && (best != NULL ==> best == d.best || (d.rst != NULL && OnWalk(x.trie.node, d.g, x.trie.at[best])))
    && (d.best != NULL ==> best != NULL && bestSize <= d.bestSize)
  }

  lemma HeldStart(x: Index, n: nat, index: nat, d: Hand)
    requires OnPath(x, n, index, d.best, d.bestSize)
    ensures WalkHeld(x, d, d.best, d.bestSize)
  {}

  lemma HeldNext(x: Index, d: Hand, best: int, bestSize: nat, q: Pos)
    requires Inv(x) && WalkHeld(x, d, best, bestSize) && q in x.trie.node && d.rst != NULL &&
      OnWalk(x.trie.node, d.g, q)
    ensures var p := x.trie.node[q];
      p in x.size && (x.size[p] < bestSize ==> WalkHeld(x, d, p, x.size[p]))
  {
    PlaceFacts(x, q);
    hide Inv, OnWalk;
  }

  lemma SamePlace(x: Index, c: int)
    requires Inv(x) && c in x.trie.at
    ensures x.trie.at[c] in x.trie.node && x.trie.node[x.trie.at[c]] == c
  {}

  // ----- the path of the bits of the request

  /** Node `c` stands on the path of the bits of `n`. */
  ghost predicate OnBits(x: Index, n: nat, c: int) {
    && n >= 1 && c in x.trie.at && c in x.size && x.trie.at[c].bucket == Log2(n)
    && x.trie.at[c].path >= 1 && Prefix(x.trie.at[c].path, n)
  }

  /** An occupied place to the right of the path. */
  ghost predicate IsBranch(x: Index, n: nat, g: Pos) {
    n >= 1 && g in x.trie.node && g.bucket == Log2(n) && g.path >= 3 && g.path % 2 == 1 && Prefix(g.path - 1, n)
  }

  /** The last of them. */
  ghost predicate LastBranch(x: Index, n: nat, g: Pos) {
    IsBranch(x, n, g) && forall k {:trigger IsBranch(x, n, k)} :: IsBranch(x, n, k) ==> k.path <= g.path
  }

  /** The nodes the search in the bucket of the request looks at: on the path, and on the walk from the last
      branch. */
  ghost predicate Examined(x: Index, n: nat, a: int) {
    OnBits(x, n, a) || (a in x.trie.at && exists g :: LastBranch(x, n, g) && OnWalk(x.trie.node, g, x.trie.at[a]))
  }

  /** A smallest fit of the nodes looked at. */
  ghost predicate FoundInBucket(x: Index, n: nat, a: int) {
    && n >= 1 && Fits(x, n, Log2(n), a) && Examined(x, n, a)
    && forall c {:trigger Examined(x, n, c)} :: Examined(x, n, c) && Fits(x, n, Log2(n), c) ==> x.size[a] <= x.size[c]
  }

  /** Fits on the path above `q` are known, and so is the last branch above it. */
  ghost predicate Met(x: Index, n: nat, q: Pos, d: Hand) {
    && (forall c {:trigger OnBits(x, n, c)} :: OnBits(x, n, c) && x.trie.at[c].path < q.path && x.size[c] >= n ==>
          d.best != NULL && d.bestSize <= x.size[c])
    && (forall g {:trigger IsBranch(x, n, g)} :: IsBranch(x, n, g) && g.path / 2 < q.path ==>
          d.rst != NULL && g.path <= d.g.path)
  }

  ghost predicate AllMet(x: Index, n: nat, d: Hand) {
    && (forall c {:trigger OnBits(x, n, c)} :: OnBits(x, n, c) && x.size[c] >= n ==>
      d.best != NULL && d.bestSize <= x.size[c])
    && (forall g {:trigger IsBranch(x, n, g)} :: IsBranch(x, n, g) ==> d.rst != NULL && g.path <= d.g.path)
  }

  lemma MetStart(x: Index, n: nat, index: nat, d: Hand)
    ensures Met(x, n, Pos(index, 1), d)
  {}

  /** The hand after a turn at `q`: a branch to the right is remembered. */
  ghost function Turned(x: Index, q: Pos, d: Hand, side: nat): Hand {
    if side == 0 && Down(q, 1) in x.trie.node then d.(rst := x.trie.node[Down(q, 1)], g := Down(q, 1)) else d
  }

  lemma MetNext(x: Index, n: nat, q: Pos, d: Hand, f: Hand, side: nat)
    requires Inv(x) && Met(x, n, q, d) && q in x.trie.node && q.path >= 1 && side < 2 && Belongs(Down(q, side), n)
    requires f.rst == d.rst && f.g == d.g && x.trie.node[q] in x.size && Branch(x, q.path, q.bucket, d)
    requires x.size[x.trie.node[q]] >= n ==> f.best != NULL && f.bestSize <= x.size[x.trie.node[q]]
    requires d.best != NULL ==> f.best != NULL && f.bestSize <= d.bestSize
    ensures Met(x, n, Down(q, side), Turned(x, q, f, side))
  {
    var r, e := Down(q, side), Turned(x, q, f, side);
    HalfIsPrefix(r.path, n);
    if d.rst != NULL { PrefixBelow(d.g.path - 1, q.path); }
    forall c | OnBits(x, n, c) && x.trie.at[c].path < r.path && x.size[c] >= n
      ensures e.best != NULL && e.bestSize <= x.size[c]
    {
      NotBetween(q.path, x.trie.at[c].path, r.path, n);
      SamePlace(x, c);
    }
    forall g | IsBranch(x, n, g) && g.path / 2 < r.path ensures e.rst != NULL && g.path <= e.g.path {
      MetBranch(x, n, q, d, g, side);
      NodeAbove(x, Down(q, 1));
    }
  }

  /** No prefix of `n` lies between one and the next. */
  lemma NotBetween(q: nat, k: nat, r: nat, n: nat)
    requires q >= 1 && k >= 1 && r / 2 == q && Prefix(q, n) && Prefix(k, n) && Prefix(r, n) && k < r
    ensures k <= q
  {
    if k > q { PrefixesNest(q, k, n); PrefixesNest(k, r, n); }
  }

  lemma NodeAbove(x: Index, q: Pos)
    requires Inv(x)
    ensures q in x.trie.node ==> x.trie.node[q] != NULL
  {
    if q in x.trie.node { assert NodeOK(x.size, x.trie, q); }
  }

  lemma MetBranch(x: Index, n: nat, q: Pos, d: Hand, g: Pos, side: nat)
    requires Met(x, n, q, d) && q.path >= 1 && side < 2 && Belongs(Down(q, side), n)
    requires IsBranch(x, n, g) && g.path / 2 < Down(q, side).path
    ensures (side == 0 && g == Down(q, 1)) || (g.path / 2 < q.path && d.rst != NULL && g.path <= d.g.path)
  {
    HalfIsPrefix(Down(q, side).path, n);
    HalfIsPrefix(g.path - 1, n);
    NotBetween(q.path, g.path / 2, Down(q, side).path, n);
    if g.path / 2 == q.path && side == 1 { PrefixesNest(g.path - 1, g.path, n); }
  }

  /** At a gap in the path all of it has been seen. */
  lemma MetAll(x: Index, n: nat, r: Pos, d: Hand)
    requires Inv(x) && Met(x, n, r, d) && Belongs(r, n) && r !in x.trie.node
    ensures AllMet(x, n, d)
  {
    forall c | OnBits(x, n, c) && x.size[c] >= n ensures d.best != NULL && d.bestSize <= x.size[c] {
      SamePlace(x, c);
      AboveGap(x, n, r, x.trie.at[c]);
    }
    forall g | IsBranch(x, n, g) ensures d.rst != NULL && g.path <= d.g.path {
      ParentPlace(x, g);
      HalfIsPrefix(g.path - 1, n);
      AboveGap(x, n, r, Up(g));
    }
  }

  lemma ParentPlace(x: Index, g: Pos)
    requires Inv(x) && g in x.trie.node && g.path >= 2
    ensures Up(g) in x.trie.node
  {
    assert NodeOK(x.size, x.trie, g);
  }

  lemma AboveGap(x: Index, n: nat, r: Pos, q: Pos)
    requires Inv(x) && Belongs(r, n) && r !in x.trie.node && q in x.trie.node && q.bucket == r.bucket
    requires q.path >= 1 && Prefix(q.path, n)
    ensures q.path < r.path
  {
    if q.path > r.path { PrefixesNest(r.path, q.path, n); PrefixPresent(x.size, x.trie, q, r.path); }
    assert r == Pos(r.bucket, r.path);
  }

  // ----- the outcome in the bucket of the request

  /** What the walk down from the last branch ends with: the best before it or a node of the walk, and nothing
      better on it. */
  ghost predicate WalkEnd(x: Index, d: Hand, best: int) {
    && (best == NULL ==> d.best == NULL && d.rst == NULL)
    && (best != NULL ==>
          && best in x.trie.at && best in x.size
          && (best == d.best || (d.rst != NULL && OnWalk(x.trie.node, d.g, x.trie.at[best])))
          && (d.best != NULL ==> x.size[best] <= d.bestSize)
          && (d.rst != NULL ==> WalkKnown(x, d.g, best, x.size[best])))
  }

  lemma HeldDone(x: Index, d: Hand, best: int, bestSize: nat)
    requires WalkHeld(x, d, best, bestSize) && (d.rst != NULL ==> best != NULL && WalkKnown(x, d.g, best, bestSize))
    ensures WalkEnd(x, d, best)
  {
    hide OnWalk, WalkKnown;
  }

  lemma ExactFound(x: Index, n: nat, index: nat, best: int)
    requires n >= 1 && index == Log2(n) && OnPath(x, n, index, best, n) && best != NULL
    ensures FoundInBucket(x, n, best)
  {}

  lemma BucketFound(x: Index, n: nat, index: nat, d: Hand, best: int)
    requires n >= 1 && index == Log2(n) && OnPath(x, n, index, d.best, d.bestSize) && Branch(x, n, index, d)
    requires AllMet(x, n, d) && WalkEnd(x, d, best) && best != NULL && Fits(x, n, index, best)
    ensures FoundInBucket(x, n, best)
  {
    if d.rst != NULL { assert IsBranch(x, n, d.g) && LastBranch(x, n, d.g); }
    if best == d.best { assert OnBits(x, n, best); }
    assert Examined(x, n, best);
    forall c | Examined(x, n, c) && Fits(x, n, Log2(n), c) ensures x.size[best] <= x.size[c] {
      if !OnBits(x, n, c) {
        var g :| LastBranch(x, n, g) && OnWalk(x.trie.node, g, x.trie.at[c]);
        assert IsBranch(x, n, g) && g == d.g;
      }
    }
  }

  // ----- the outcome over all buckets

  /** The first occupied bucket behind `i`. */
  ghost predicate NextOccupiedBucket(x: Index, i: nat, j: nat) {
    j > i && Pos(j, 1) in x.trie.node && forall k {:trigger Pos(k, 1)} :: i < k < j ==> Pos(k, 1) !in x.trie.node
  }

  /** The node that is found: in the bucket of the request if that has a fit, else on the walk from the root of
      the next bucket. */
  ghost predicate FoundNode(x: Index, n: nat, a: int) {
    && n >= 1 && a in x.trie.at
    && if exists c :: Fits(x, n, Log2(n), c) then FoundInBucket(x, n, a)
       else NextOccupiedBucket(x, Log2(n), x.trie.at[a].bucket) && WalkBest(x, Pos(x.trie.at[a].bucket, 1), a)
  }

  /** The block handed out for a node: the first of its ring, or the node itself if it is alone. */
  ghost function Behind(x: Index, a: int): int {
    if Ring(x, a) == [] then a else Ring(x, a)[0]
  }

  ghost predicate Found(x: Index, n: nat, r: int) {
    exists a :: FoundNode(x, n, a) && r == Behind(x, a)
  }

  lemma BehindNode(x: Index, a: int)
    requires Inv(x) && a in x.trie.at
    ensures a in x.ring.next && x.ring.next[a] == Behind(x, a)
  {
    NodeRing(x, a);
  }

  lemma OwnFound(x: Index, n: nat, index: nat, best: int)
    requires Inv(x) && n >= 1 && index == Log2(n) && FoundInBucket(x, n, best)
    ensures best in x.ring.next && Found(x, n, x.ring.next[best])
  {
    BehindNode(x, best);
    hide Inv;
    assert Fits(x, n, Log2(n), best) && FoundNode(x, n, best);
  }

  lemma NextFound(x: Index, n: nat, from: nat, low: nat, best: int)
    requires Inv(x) && BlockSize(n) && NoneAtLeast(x, n, Log2(n)) && Pos(from + low, 1) in x.trie.node
    requires Log2(n) < from + low && from <= Log2(n) + 1
    requires forall j :: 0 <= j < low ==> !Bit(Shr(x.largeBitmap, from), j)
    requires best in x.trie.at && x.trie.at[best].bucket == from + low && WalkBest(x, Pos(from + low, 1), best)
    ensures best in x.ring.next && Found(x, n, x.ring.next[best])
  {
    BehindNode(x, best);
    hide Inv, WalkBest, Shr, Bit, Log2, BlockSize;
    Positive(n);
    forall k | Log2(n) < k < from + low ensures Pos(k, 1) !in x.trie.node {
      ShrBits(x.largeBitmap, from, k - from);
      RootBit(x, k);
    }
    assert forall c :: !Fits(x, n, Log2(n), c);
    assert NextOccupiedBucket(x, Log2(n), from + low);
    assert FoundNode(x, n, best);
  }

  lemma RootBit(x: Index, k: nat)
    requires Inv(x)
    ensures Pos(k, 1) in x.trie.node <==> Bit(x.largeBitmap, k)
  {}
}
