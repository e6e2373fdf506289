/** Circular doubly linked lists over raw addresses: the free rings of the allocator. `next` and
    `prev` are the two link words of every block; a ring is described by the addresses it visits. */
module Rings {

  type Links = map<int, int>

  ghost predicate NoDup(c: seq<int>) {
    forall i, j :: 0 <= i < j < |c| ==> c[i] != c[j]
  }

  function After(c: seq<int>, j: nat): int
    requires j < |c|
  {
    if j + 1 < |c| then c[j + 1] else c[0]
  }

  function Before(c: seq<int>, j: nat): int
    requires j < |c|
  {
    if j > 0 then c[j - 1] else c[|c| - 1]
  }

  /** The links at position `j` lead to its two neighbours. */
  ghost predicate Linked(next: Links, prev: Links, c: seq<int>, j: nat)
    requires j < |c|
  {
    c[j] in next && c[j] in prev && next[c[j]] == After(c, j) && prev[c[j]] == Before(c, j)
  }

  /** `c` lists one circular list, in `next` order. */
  ghost predicate Cycle(next: Links, prev: Links, c: seq<int>) {
    |c| > 0 && NoDup(c) && forall j :: 0 <= j < |c| ==> Linked(next, prev, c, j)
  }

  /** Links after `b` is put behind `a`. */
  function InsertNext(next: Links, a: int, b: int): Links
    requires a in next
  {
    next[a := b][b := next[a]]
  }

  function InsertPrev(next: Links, prev: Links, a: int, b: int): Links
    requires a in next
  {
    prev[next[a] := b][b := a]
  }

  /** Links after `b` is taken out. */
  function UnlinkNext(next: Links, prev: Links, b: int): Links
    requires b in next && b in prev
  {
    next[prev[b] := next[b]]
  }

  function UnlinkPrev(next: Links, prev: Links, b: int): Links
    requires b in next && b in prev
  {
    prev[next[b] := prev[b]]
  }

  lemma CycleFrame(next: Links, prev: Links, next': Links, prev': Links, c: seq<int>)
    requires Cycle(next, prev, c)
    requires forall x :: x in c ==> x in next' && x in prev'
    requires forall x :: x in c && x in next ==> next'[x] == next[x]
    requires forall x :: x in c && x in prev ==> prev'[x] == prev[x]
    ensures Cycle(next', prev', c)
  {
    forall j | 0 <= j < |c| ensures Linked(next', prev', c, j) {
      assert Linked(next, prev, c, j);
    }
  }

  /** Inserting behind position `j` splices the new address into the list there. */
  lemma CycleInsert(next: Links, prev: Links, c: seq<int>, j: nat, b: int)
    requires Cycle(next, prev, c) && j < |c| && b !in c
    ensures c[j] in next
    ensures Cycle(InsertNext(next, c[j], b), InsertPrev(next, prev, c[j], b), c[..j + 1] + [b] + c[j + 1..])
  {
    var d := c[..j + 1] + [b] + c[j + 1..];
    assert Linked(next, prev, c, j);
    var n, p := InsertNext(next, c[j], b), InsertPrev(next, prev, c[j], b);
    forall i | 0 <= i < |d| ensures Linked(n, p, d, i) {
      if i <= j {
        assert d[i] == c[i] && Linked(next, prev, c, i);
      } else if i > j + 1 {
        assert d[i] == c[i - 1] && Linked(next, prev, c, i - 1);
      }
    }
  }

  /** The same list read from its last element on. */
  lemma CycleRotate(next: Links, prev: Links, c: seq<int>)
    requires Cycle(next, prev, c)
    ensures Cycle(next, prev, [c[|c| - 1]] + c[..|c| - 1])
  {
    var d := [c[|c| - 1]] + c[..|c| - 1];
    forall i | 0 <= i < |d| ensures Linked(next, prev, d, i) {
      var k := if i == 0 then |c| - 1 else i - 1;
      assert d[i] == c[k] && Linked(next, prev, c, k);
    }
  }

  /** Unlinking position `j` of a longer list leaves the others in order. */
  lemma CycleUnlink(next: Links, prev: Links, c: seq<int>, j: nat)
    requires Cycle(next, prev, c) && j < |c| && |c| > 1
    ensures c[j] in next && c[j] in prev
    ensures Cycle(UnlinkNext(next, prev, c[j]), UnlinkPrev(next, prev, c[j]), c[..j] + c[j + 1..])
  {
    var d := c[..j] + c[j + 1..];
    assert Linked(next, prev, c, j);
    var n, p := UnlinkNext(next, prev, c[j]), UnlinkPrev(next, prev, c[j]);
    forall i | 0 <= i < |d| ensures Linked(n, p, d, i) {
      var k := if i < j then i else i + 1;
      assert d[i] == c[k] && Linked(next, prev, c, k);
    }
  }
}
