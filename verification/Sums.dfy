/** Totals over claims, cache lists and segments. */
module Sums {
  import opened HeapLayout

  /** A live allocation: the bytes asked for and the size of the block given. */
  datatype Claim = Claim(req: nat, size: nat)

  ghost function Pick<T>(keys: set<T>): (b: T)
    requires keys != {}
    ensures b in keys
  {
    var b :| b in keys;
    b
  }

  ghost function ClaimTotal(live: map<int, Claim>): nat
    decreases |live|
  {
    if live.Keys == {} then 0 else
      var b := Pick(live.Keys);
      live[b].size + ClaimTotal(live - {b})
  }

  lemma {:induction false} ClaimSplit(live: map<int, Claim>, b: int)
    requires b in live
    ensures ClaimTotal(live) == live[b].size + ClaimTotal(live - {b})
    decreases |live|
  {
    assert b in live.Keys;
    var c := Pick(live.Keys);
    if c != b {
      ClaimSplit(live - {c}, b);
      ClaimSplit(live - {b}, c);
      assert live - {c} - {b} == live - {b} - {c};
    }
  }

  lemma ClaimAdd(live: map<int, Claim>, b: int, k: Claim)
    requires b !in live
    ensures ClaimTotal(live[b := k]) == ClaimTotal(live) + k.size
  {
    ClaimSplit(live[b := k], b);
    assert live[b := k] - {b} == live;
  }

  lemma ClaimReplace(live: map<int, Claim>, b: int, c: int, k: Claim)
    requires b in live && (c == b || c !in live)
    ensures ClaimTotal((live - {b})[c := k]) == ClaimTotal(live) - live[b].size + k.size
  {
    ClaimSplit(live, b);
    ClaimAdd(live - {b}, c, k);
  }

  /** Bytes on the cache lists: list `i` holds blocks of `8i + 32` bytes. */
  function CacheTotal(cache: seq<seq<int>>): nat {
    if cache == [] then 0
    else CacheTotal(cache[..|cache| - 1]) + ListTotal(|cache[|cache| - 1]|, |cache| - 1)
  }

  function ListTotal(count: nat, i: nat): nat { count * (8 * i + 32) }

  lemma {:induction false} CacheUpdate(cache: seq<seq<int>>, i: nat, c: seq<int>)
    requires i < |cache|
    ensures CacheTotal(cache[i := c]) == CacheTotal(cache) - ListTotal(|cache[i]|, i) + ListTotal(|c|, i)
  {
    var last := |cache| - 1;
    if i == last {
      assert cache[i := c][..last] == cache[..last];
    } else {
      CacheUpdate(cache[..last], i, c);
      assert cache[i := c][..last] == cache[..last][i := c];
    }
  }

  lemma ListStep(count: nat, i: nat)
    ensures ListTotal(count + 1, i) == ListTotal(count, i) + 8 * i + 32
  {}

  lemma CachePush(cache: seq<seq<int>>, i: nat, b: int)
    requires i < |cache|
    ensures CacheTotal(cache[i := [b] + cache[i]]) == CacheTotal(cache) + 8 * i + 32
  {
    CacheUpdate(cache, i, [b] + cache[i]);
    ListStep(|cache[i]|, i);
  }

  lemma CachePop(cache: seq<seq<int>>, i: nat)
    requires i < |cache| && cache[i] != []
    ensures CacheTotal(cache) == CacheTotal(cache[i := cache[i][1..]]) + 8 * i + 32
  {
    CacheUpdate(cache, i, cache[i][1..]);
    ListStep(|cache[i]| - 1, i);
  }

  lemma {:induction false} EmptyCache(cache: seq<seq<int>>)
    requires forall i :: 0 <= i < |cache| ==> cache[i] == []
    ensures CacheTotal(cache) == 0
  {
    if cache != [] { EmptyCache(cache[..|cache| - 1]); }
  }

  function SegmentTotal(segs: seq<Segment>): nat {
    if segs == [] then 0 else segs[0].size + SegmentTotal(segs[1..])
  }

  lemma {:induction false} SegmentConcat(a: seq<Segment>, b: seq<Segment>)
    ensures SegmentTotal(a + b) == SegmentTotal(a) + SegmentTotal(b)
  {
    if a == [] { assert a + b == b; }
    else { SegmentConcat(a[1..], b); assert (a + b)[1..] == a[1..] + b; }
  }

  lemma InsertTotal(segs: seq<Segment>, k: nat, s: Segment)
    requires k <= |segs|
    ensures SegmentTotal(Insert(segs, k, s)) == SegmentTotal(segs) + s.size
  {
    var tail := segs[k..];
    assert Insert(segs, k, s) == segs[..k] + ([s] + tail);
    SegmentConcat(segs[..k], [s] + tail);
    assert ([s] + tail)[1..] == tail;
    SegmentConcat(segs[..k], tail);
    assert segs[..k] + tail == segs;
  }

  lemma OmitTotal(segs: seq<Segment>, k: nat)
    requires k < |segs|
    ensures SegmentTotal(Omit(segs, k)) == SegmentTotal(segs) - segs[k].size
  {
    var tail := segs[k..];
    assert tail[1..] == segs[k + 1..];
    SegmentConcat(segs[..k], tail[1..]);
    SegmentConcat(segs[..k], tail);
    assert segs[..k] + tail == segs;
  }
}
