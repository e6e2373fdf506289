/** A family of disjoint rings sharing one pair of link words. Every ring has a head; `rings` lists
    the other members in `next` order and `home` maps each member block to the head of its ring.
    A head may itself be a block (a trie node) or a sentinel that lives outside the blocks. */
module RingSets {
  import opened Rings

  datatype RingSet = RingSet(next: Links, prev: Links, rings: map<int, seq<int>>, home: map<int, int>)

  function Full(r: RingSet, h: int): seq<int>
    requires h in r.rings
  {
    [h] + r.rings[h]
  }

  ghost predicate HeadOK(r: RingSet, h: int)
    requires h in r.rings
  {
    && Cycle(r.next, r.prev, Full(r, h))
    && (forall x :: x in r.rings[h] ==> x in r.home && r.home[x] == h)
    && (h in r.home ==> r.home[h] == h)
  }

  ghost predicate MemberOK(r: RingSet, b: int)
    requires b in r.home
  {
    r.home[b] in r.rings && (b == r.home[b] || b in r.rings[r.home[b]])
  }

  ghost predicate Disjoint(r: RingSet) {
    && (forall h {:trigger HeadOK(r, h)} :: h in r.rings ==> HeadOK(r, h))
    && (forall b {:trigger MemberOK(r, b)} :: b in r.home ==> MemberOK(r, b))
  }

  /** The head of the ring an address stands in. */
  function Owner(r: RingSet, x: int): int {
    if x in r.home then r.home[x] else x
  }

  lemma OwnerOfMember(r: RingSet, h: int, x: int)
    requires Disjoint(r) && h in r.rings && x in Full(r, h)
    ensures Owner(r, x) == h
  {
    assert HeadOK(r, h);
  }

  lemma RingsApart(r: RingSet, h: int, g: int, x: int)
    requires Disjoint(r) && h in r.rings && g in r.rings && g != h && x in Full(r, h)
    ensures x !in Full(r, g)
  {
    OwnerOfMember(r, h, x);
    if x in Full(r, g) { OwnerOfMember(r, g, x); }
  }

  /** A ring whose links were not touched is still a ring. */
  lemma KeepCycle(r: RingSet, next': Links, prev': Links, g: int, touched: set<int>)
    requires g in r.rings && Cycle(r.next, r.prev, Full(r, g))
    requires forall x :: x in touched ==> x !in Full(r, g)
    requires forall x :: x in r.next && x !in touched ==> x in next' && next'[x] == r.next[x]
    requires forall x :: x in r.prev && x !in touched ==> x in prev' && prev'[x] == r.prev[x]
    ensures Cycle(next', prev', Full(r, g))
  {
    forall x | x in Full(r, g) ensures x in r.next && x in r.prev {
      var j :| 0 <= j < |Full(r, g)| && Full(r, g)[j] == x;
      assert Linked(r.next, r.prev, Full(r, g), j);
    }
    CycleFrame(r.next, r.prev, next', prev', Full(r, g));
  }

  // ----- the five changes

  ghost function NewRing(r: RingSet, b: int): RingSet {
    RingSet(r.next[b := b], r.prev[b := b], r.rings[b := []], r.home[b := b])
  }

  ghost predicate Absent(r: RingSet, b: int) { b !in r.home && b !in r.rings }

  lemma NewRingOK(r: RingSet, b: int)
    requires Disjoint(r) && Absent(r, b)
    ensures Disjoint(NewRing(r, b))
  {
    var r' := NewRing(r, b);
    assert Linked(r'.next, r'.prev, Full(r', b), 0);
    forall g | g in r'.rings ensures HeadOK(r', g) {
      if g != b {
        assert HeadOK(r, g);
        AbsentElsewhere(r, b, g);
        KeepCycle(r, r'.next, r'.prev, g, {b});
      }
    }
    forall x | x in r'.home ensures MemberOK(r', x) {
      if x != b { assert MemberOK(r, x); }
    }
  }

  lemma AbsentElsewhere(r: RingSet, b: int, g: int)
    requires Disjoint(r) && Absent(r, b) && g in r.rings
    ensures b !in Full(r, g)
  {
    assert HeadOK(r, g);
  }

  /** `b` put behind the head. */
  ghost function InsertFirst(r: RingSet, h: int, b: int): RingSet
    requires h in r.rings && h in r.next
  {
    RingSet(InsertNext(r.next, h, b), InsertPrev(r.next, r.prev, h, b), r.rings[h := [b] + r.rings[h]], r.home[b := h])
  }

  lemma InsertFirstOK(r: RingSet, h: int, b: int)
    requires Disjoint(r) && h in r.rings && Absent(r, b)
    ensures h in r.next && Disjoint(InsertFirst(r, h, b))
  {
    assert HeadOK(r, h);
    var c := Full(r, h);
    AbsentElsewhere(r, b, h);
    CycleInsert(r.next, r.prev, c, 0, b);
    assert c[..1] + [b] + c[1..] == [h] + ([b] + r.rings[h]);
    InsertedOK(r, h, b, InsertFirst(r, h, b), 0);
  }

  /** `b` put before the head, behind the last member. */
  ghost function InsertLast(r: RingSet, h: int, b: int): RingSet
    requires h in r.rings && h in r.prev && r.prev[h] in r.next
  {
    RingSet(InsertNext(r.next, r.prev[h], b), InsertPrev(r.next, r.prev, r.prev[h], b),
            r.rings[h := r.rings[h] + [b]], r.home[b := h])
  }

  lemma InsertLastOK(r: RingSet, h: int, b: int)
    requires Disjoint(r) && h in r.rings && Absent(r, b)
    ensures h in r.prev && r.prev[h] in r.next && Disjoint(InsertLast(r, h, b))
  {
    assert HeadOK(r, h);
    var c := Full(r, h);
    AbsentElsewhere(r, b, h);
    assert Linked(r.next, r.prev, c, 0);
    assert Linked(r.next, r.prev, c, |c| - 1);
    CycleInsert(r.next, r.prev, c, |c| - 1, b);
    assert c[..|c|] + [b] + c[|c|..] == [h] + (r.rings[h] + [b]);
    InsertedOK(r, h, b, InsertLast(r, h, b), |c| - 1);
  }

  lemma InsertedOK(r: RingSet, h: int, b: int, r': RingSet, j: nat)
    requires Disjoint(r) && h in r.rings && Absent(r, b)
    requires j < |Full(r, h)| && Full(r, h)[j] in r.next
    requires r'.next == InsertNext(r.next, Full(r, h)[j], b) && r'.prev == InsertPrev(r.next, r.prev, Full(r, h)[j], b)
    requires r'.home == r.home[b := h]
    requires h in r'.rings && r'.rings == r.rings[h := r'.rings[h]]
    requires forall x :: x in r'.rings[h] <==> x == b || x in r.rings[h]
    requires Cycle(r'.next, r'.prev, Full(r', h))
    ensures Disjoint(r')
  {
    var c := Full(r, h);
    assert HeadOK(r, h);
    assert Linked(r.next, r.prev, c, j);
    assert After(c, j) in c;
    forall g | g in r'.rings ensures HeadOK(r', g) {
      assert HeadOK(r, g);
      if g != h {
        AbsentElsewhere(r, b, g);
        RingsApart(r, h, g, c[j]);
        RingsApart(r, h, g, After(c, j));
        KeepCycle(r, r'.next, r'.prev, g, {b, c[j], After(c, j)});
      }
    }
    forall x | x in r'.home ensures MemberOK(r', x) {
      if x != b { assert MemberOK(r, x); }
    }
  }

  /** Where a member stands in its ring. */
  ghost function Position(r: RingSet, b: int): (j: nat)
    requires Disjoint(r) && b in r.home && r.home[b] != b
    ensures r.home[b] in r.rings && j < |r.rings[r.home[b]]| && r.rings[r.home[b]][j] == b
  {
    assert MemberOK(r, b);
    var j :| 0 <= j < |r.rings[r.home[b]]| && r.rings[r.home[b]][j] == b;
    j
  }

  function Without(c: seq<int>, j: nat): seq<int>
    requires j < |c|
  {
    c[..j] + c[j + 1..]
  }

  lemma WithoutKeeps(c: seq<int>, j: nat, k: nat)
    requires j < |c| && k < |c| && k != j
    ensures c[k] in Without(c, j)
  {
    assert Without(c, j)[if k < j then k else k - 1] == c[k];
  }

  lemma WithoutDrops(c: seq<int>, j: nat)
    requires j < |c| && NoDup(c)
    ensures forall x :: x in Without(c, j) ==> x in c && x != c[j]
  {
    var d := Without(c, j);
    forall x | x in d ensures x in c && x != c[j] {
      var i :| 0 <= i < |d| && d[i] == x;
      assert x == c[if i < j then i else i + 1];
    }
  }

  lemma HeadApart(r: RingSet, h: int)
    requires h in r.rings && NoDup(Full(r, h))
    ensures NoDup(r.rings[h]) && h !in r.rings[h]
  {
    var c, m := Full(r, h), r.rings[h];
    forall i | 0 <= i < |m| ensures m[i] != h { assert c[i + 1] == m[i] && c[0] == h; }
    forall i, j | 0 <= i < j < |m| ensures m[i] != m[j] { assert c[i + 1] == m[i] && c[j + 1] == m[j]; }
  }

  /** A member that is not a head, unlinked from its neighbours. */
  ghost function Unlink(r: RingSet, b: int): RingSet
    requires Disjoint(r) && b in r.home && r.home[b] != b && b in r.next && b in r.prev
  {
    var h, j := r.home[b], Position(r, b);
    RingSet(UnlinkNext(r.next, r.prev, b), UnlinkPrev(r.next, r.prev, b),
            r.rings[h := Without(r.rings[h], j)], r.home - {b})
  }

  /** The link words of a member lead to its ring neighbours. */
  lemma MemberLinks(r: RingSet, b: int)
    requires Disjoint(r) && b in r.home && r.home[b] != b
    ensures b in r.next && b in r.prev
    ensures var h, j := r.home[b], Position(r, b); Linked(r.next, r.prev, Full(r, h), j + 1)
  {
    var h, j := r.home[b], Position(r, b);
    assert HeadOK(r, h);
    assert Full(r, h)[j + 1] == b;
    assert Linked(r.next, r.prev, Full(r, h), j + 1);
  }

  lemma UnlinkOK(r: RingSet, b: int)
    requires Disjoint(r) && b in r.home && r.home[b] != b && b !in r.rings
    ensures b in r.next && b in r.prev && Disjoint(Unlink(r, b)) && Absent(Unlink(r, b), b)
  {
    var h, j := r.home[b], Position(r, b);
    var c := Full(r, h);
    MemberLinks(r, b);
    assert HeadOK(r, h);
    CycleUnlink(r.next, r.prev, c, j + 1);
    var r' := Unlink(r, b);
    assert c[..j + 1] + c[j + 2..] == Full(r', h);
    assert r.next[b] in c && r.prev[b] in c;
    forall g | g in r'.rings ensures HeadOK(r', g) {
      assert HeadOK(r, g);
      if g != h {
        RingsApart(r, h, g, r.next[b]);
        RingsApart(r, h, g, r.prev[b]);
        RingsApart(r, h, g, b);
        KeepCycle(r, r'.next, r'.prev, g, {r.next[b], r.prev[b]});
      } else {
        HeadApart(r, h);
        WithoutDrops(r.rings[h], j);
      }
    }
    forall x | x in r'.home ensures MemberOK(r', x) {
      assert MemberOK(r, x);
      if r.home[x] == h && x != h {
        var k := Position(r, x);
        WithoutKeeps(r.rings[h], j, k);
      }
    }
  }

  /** A block head with an empty ring, dropped; its stale link words are not read again. */
  ghost function DropRing(r: RingSet, h: int): RingSet {
    r.(rings := r.rings - {h}, home := r.home - {h})
  }

  lemma DropRingOK(r: RingSet, h: int)
    requires Disjoint(r) && h in r.rings && h in r.home && r.rings[h] == []
    ensures Disjoint(DropRing(r, h)) && Absent(DropRing(r, h), h)
  {
    var r' := DropRing(r, h);
    assert HeadOK(r, h);
    forall g | g in r'.rings ensures HeadOK(r', g) {
      assert HeadOK(r, g);
      RingsApart(r, h, g, h);
    }
    forall x | x in r'.home ensures MemberOK(r', x) {
      assert MemberOK(r, x);
    }
  }

  /** A block head with members, unlinked; its last member becomes the head. */
  ghost function Promote(r: RingSet, h: int): RingSet
    requires h in r.rings && |r.rings[h]| > 0 && h in r.next && h in r.prev
  {
    var last := |r.rings[h]| - 1;
    var p := r.rings[h][last];
    RingSet(UnlinkNext(r.next, r.prev, h), UnlinkPrev(r.next, r.prev, h),
            (r.rings - {h})[p := r.rings[h][..last]],
            map b | b in r.home && b != h :: if r.home[b] == h then p else r.home[b])
  }

  lemma PromoteOK(r: RingSet, h: int)
    requires Disjoint(r) && h in r.rings && h in r.home && |r.rings[h]| > 0
    requires forall x :: x in r.rings[h] ==> x !in r.rings
    ensures h in r.next && h in r.prev && Disjoint(Promote(r, h)) && Absent(Promote(r, h), h)
    ensures r.prev[h] == r.rings[h][|r.rings[h]| - 1]
  {
    assert HeadOK(r, h);
    assert Linked(r.next, r.prev, Full(r, h), 0);
    var r' := Promote(r, h);
    PromotedHead(r, h);
    forall g | g in r'.rings ensures HeadOK(r', g) {
      if g in r.rings { PromoteKeeps(r, h, g); }
    }
    forall x | x in r'.home ensures MemberOK(r', x) {
      PromoteMember(r, h, x);
    }
  }

  lemma PromotedHead(r: RingSet, h: int)
    requires Disjoint(r) && h in r.rings && h in r.home && |r.rings[h]| > 0 && h in r.next && h in r.prev
    requires Linked(r.next, r.prev, Full(r, h), 0)
    ensures HeadOK(Promote(r, h), r.prev[h])
  {
    var last, m := |r.rings[h]| - 1, r.rings[h];
    assert HeadOK(r, h);
    HeadApart(r, h);
    PromotedCycle(r, h);
    assert forall x :: x in m[..last] ==> x in m;
  }

  lemma PromotedCycle(r: RingSet, h: int)
    requires h in r.rings && |r.rings[h]| > 0 && h in r.next && h in r.prev
    requires Cycle(r.next, r.prev, Full(r, h))
    ensures var r', last := Promote(r, h), |r.rings[h]| - 1;
      var p := r.rings[h][last];
      p in r'.rings && Cycle(r'.next, r'.prev, Full(r', p))
  {
    var c, m, r' := Full(r, h), r.rings[h], Promote(r, h);
    var last := |m| - 1;
    CycleUnlink(r.next, r.prev, c, 0);
    assert c[..0] + c[1..] == m;
    CycleRotate(r'.next, r'.prev, m);
    assert [m[last]] + m[..last] == Full(r', m[last]);
  }

  lemma PromoteKeeps(r: RingSet, h: int, g: int)
    requires Disjoint(r) && h in r.rings && h in r.home && |r.rings[h]| > 0 && h in r.next && h in r.prev
    requires Linked(r.next, r.prev, Full(r, h), 0)
    requires g in r.rings && g != h && g !in r.rings[h]
    ensures HeadOK(Promote(r, h), g)
  {
    var r' := Promote(r, h);
    assert HeadOK(r, g);
    assert r.next[h] in Full(r, h) && r.prev[h] in Full(r, h);
    RingsApart(r, h, g, r.next[h]);
    RingsApart(r, h, g, r.prev[h]);
    RingsApart(r, h, g, h);
    KeepCycle(r, r'.next, r'.prev, g, {r.next[h], r.prev[h]});
  }

  lemma PromoteMember(r: RingSet, h: int, x: int)
    requires Disjoint(r) && h in r.rings && h in r.home && |r.rings[h]| > 0 && h in r.next && h in r.prev
    requires x in r.home && x != h
    requires r.rings[h][|r.rings[h]| - 1] !in r.rings
    ensures MemberOK(Promote(r, h), x)
  {
    assert MemberOK(r, x);
    var r', last := Promote(r, h), |r.rings[h]| - 1;
    if r.home[x] == h && x != r.rings[h][last] {
      var k := Position(r, x);
      assert r'.rings[r.rings[h][last]][k] == x;
    }
  }
}
