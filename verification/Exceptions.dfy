/** Chained exceptions: the `previous` links, the pending and the saved exception, and the walk that turns
    a chain into text. Exceptions are object handles; null is zero. */
module Exceptions {
  const NULL: int := 0

  type Links = map<int, int>

  /** `c` is the whole chain of `previous` links from `e`, to an exception without one. */
  ghost predicate IsChain(prev: Links, c: seq<int>, e: int) {
    && c != [] && c[0] == e && c[|c| - 1] !in prev
    && (forall i {:trigger Linked(prev, c, i)} :: 0 <= i < |c| - 1 ==> Linked(prev, c, i))
  }

  ghost predicate Linked(prev: Links, c: seq<int>, i: nat)
    requires i + 1 < |c|
  {
    c[i] in prev && c[i + 1] == prev[c[i]]
  }

  ghost predicate NoDup(c: seq<int>) { forall i, j :: 0 <= i < j < |c| ==> c[i] != c[j] }

  ghost predicate Apart(c: seq<int>, d: seq<int>) { forall x :: x in c ==> x !in d }

  /** Links lead to lower ranks: there is no cycle. */
  ghost predicate Ranked(prev: Links, rank: map<int, nat>) {
    forall e {:trigger prev[e]} :: e in prev ==>
      e in rank && prev[e] in rank && rank[prev[e]] < rank[e] && e != NULL && prev[e] != NULL
  }

  ghost predicate Acyclic(prev: Links) { exists rank :: Ranked(prev, rank) }

  ghost function RankOf(rank: map<int, nat>, e: int): nat { if e in rank then rank[e] else 0 }

  ghost function Chain(prev: Links, rank: map<int, nat>, e: int): (c: seq<int>)
    requires Ranked(prev, rank)
    ensures IsChain(prev, c, e)
    decreases RankOf(rank, e)
  {
    if e in prev then
      var d := Chain(prev, rank, prev[e]);
      assert forall i {:trigger Linked(prev, [e] + d, i)} :: 0 < i < |d| ==> Linked(prev, d, i - 1);
      [e] + d
    else [e]
  }

  lemma Along(prev: Links, c: seq<int>, e: int, i: nat)
    requires IsChain(prev, c, e) && i < |c|
    ensures i + 1 < |c| <==> c[i] in prev
    ensures i + 1 < |c| ==> c[i + 1] == prev[c[i]]
  {
    if i + 1 < |c| { assert Linked(prev, c, i); }
  }

  /** Ranks fall along a chain. */
  lemma {:induction false} RanksFall(prev: Links, rank: map<int, nat>, c: seq<int>, e: int, i: nat, j: nat)
    requires Ranked(prev, rank) && IsChain(prev, c, e) && i < j < |c|
    ensures RankOf(rank, c[j]) < RankOf(rank, c[i])
    decreases j
  {
    assert Linked(prev, c, j - 1);
    if i < j - 1 { RanksFall(prev, rank, c, e, i, j - 1); }
  }

  lemma ChainNoDup(prev: Links, rank: map<int, nat>, c: seq<int>, e: int)
    requires Ranked(prev, rank) && IsChain(prev, c, e)
    ensures NoDup(c)
  {
    forall i, j | 0 <= i < j < |c| ensures c[i] != c[j] { RanksFall(prev, rank, c, e, i, j); }
  }

  lemma {:induction false} ChainUnique(prev: Links, c: seq<int>, d: seq<int>, e: int)
    requires IsChain(prev, c, e) && IsChain(prev, d, e)
    ensures c == d
    decreases |c|
  {
    if e in prev {
      assert |c| > 1 && |d| > 1 && Linked(prev, c, 0) && Linked(prev, d, 0);
      TailChain(prev, c, e);
      TailChain(prev, d, e);
      ChainUnique(prev, c[1..], d[1..], prev[e]);
      assert c == [e] + c[1..] && d == [e] + d[1..];
    } else {
      Along(prev, c, e, 0);
      Along(prev, d, e, 0);
    }
  }

  lemma TailChain(prev: Links, c: seq<int>, e: int)
    requires IsChain(prev, c, e) && |c| > 1
    ensures IsChain(prev, c[1..], c[1])
  {
    forall i | 0 <= i < |c| - 2 ensures Linked(prev, c[1..], i) { assert Linked(prev, c, i + 1); }
  }

  // ----- linking

  /** Linking the end of one chain to another exception: the chains are joined. */
  lemma LinkJoins(prev: Links, c: seq<int>, e: int, d: seq<int>, add: int)
    requires IsChain(prev, c, e) && NoDup(c) && IsChain(prev, d, add) && Apart(c, d)
    ensures IsChain(prev[c[|c| - 1] := add], c + d, e) && IsChain(prev[c[|c| - 1] := add], d, add)
  {
    var t, prev' := c[|c| - 1], prev[c[|c| - 1] := add];
    var s := c + d;
    assert t in c;
    forall i | 0 <= i < |d| - 1 ensures Linked(prev', d, i) { assert Linked(prev, d, i) && d[i] in d; }
    assert d[|d| - 1] in d;
    forall i | 0 <= i < |s| - 1 ensures Linked(prev', s, i) {
      if i < |c| - 1 { assert Linked(prev, c, i) && c[i] != t; }
      if i > |c| - 1 { assert Linked(prev', d, i - |c|); }
    }
  }

  /** The joined chains still rank: everything that leads to the end of `c` moves up. */
  lemma LinkRanked(prev: Links, rank: map<int, nat>, t: int, d: seq<int>, add: int)
    requires Ranked(prev, rank) && t !in prev && IsChain(prev, d, add) && t !in d && t != NULL && add != NULL
    ensures Acyclic(prev[t := add])
  {
    var r := rank[t := RankOf(rank, t)][add := RankOf(rank, add)];
    assert Ranked(prev, r);
    ChainUnique(prev, d, Chain(prev, r, add), add);
    hide IsChain;
    var lift := r[add] + 1;
    var rank' := map e | e in r :: Lifted(prev, r, t, lift, e);
    var prev' := prev[t := add];
    assert Lifted(prev, r, t, lift, add) == r[add] && Lifted(prev, r, t, lift, t) >= lift;
    forall e {:trigger prev'[e]} | e in prev'
      ensures e in rank' && prev'[e] in rank' && rank'[prev'[e]] < rank'[e] && e != NULL && prev'[e] != NULL
    {
      if e != t { LiftedStep(prev, r, t, lift, e); }
    }
    assert Ranked(prev', rank');
  }

  ghost function Lifted(prev: Links, rank: map<int, nat>, t: int, lift: nat, e: int): nat
    requires Ranked(prev, rank) && e in rank
  {
    if t in Chain(prev, rank, e) then rank[e] + lift else rank[e]
  }

  lemma LiftedStep(prev: Links, rank: map<int, nat>, t: int, lift: nat, e: int)
    requires Ranked(prev, rank) && e in prev && e != t
    ensures e in rank && prev[e] in rank && Lifted(prev, rank, t, lift, prev[e]) < Lifted(prev, rank, t, lift, e)
  {
    hide IsChain;
    assert Chain(prev, rank, e) == [e] + Chain(prev, rank, prev[e]);
  }

  // ----- the operations

  class Context {
    var prev: Links
    var current: int
    var saved: int

    ghost predicate Valid()
      reads this
    {
      Acyclic(prev)
    }

    constructor ()
      ensures Valid() && prev == map[] && current == NULL && saved == NULL
    {
      prev, current, saved := map[], NULL, NULL;
      new;
      assert Ranked(prev, map[]);
    }

    /** A new exception constructed with a previous one, or null. */
    method Create(e: int, previous: int)
      requires Valid() && e != NULL && e != previous && e !in prev && forall x {:trigger prev[x]} :: x in prev ==>
        prev[x] != e
      modifies this`prev
      ensures Valid() && prev == if previous == NULL then old(prev) else old(prev)[e := previous]
    {
      if previous != NULL {
        ghost var rank :| Ranked(prev, rank);
        ghost var d := Chain(prev, rank, previous);
        NotInChain(prev, d, previous, e);
        LinkRanked(prev, rank, e, d, previous);
        prev := prev[e := previous];
      }
    }

    /** `zend_exception_set_previous`: the end of the chain of `exception` is linked to `add`, unless the two
        chains meet. */
    method SetPrevious(exception: int, add: int)
      requires Valid()
      modifies this`prev
      ensures Valid() && Chained(old(prev), prev, exception, add)
    {
      ghost var rank :| Ranked(prev, rank);
      ghost var c, d := Chain(prev, rank, exception), Chain(prev, rank, add);
      if exception == add || add == NULL || exception == NULL {
        if add != NULL && exception != NULL {
          assert c[0] in c && d[0] in d;
          ChainedBy(prev, prev, c, exception, d, add);
        }
        return;
      }
      var e := exception;
      ghost var k := 0;
      while e != add
        invariant 0 <= k < |c| && e == c[k] && e != NULL && forall i :: 0 <= i < k ==> c[i] !in d
        invariant prev == old(prev)
        decreases |c| - k
      {
        if k + 1 < |c| { assert Linked(prev, c, k); }
        var met := Among(e, add, d);
        if met {
          assert c[k] in c && c[k] in d;
          ChainedBy(prev, prev, c, exception, d, add);
          return;
        }
        if e !in prev {
          ChainNoDup(prev, rank, c, exception);
          LinkJoins(prev, c, exception, d, add);
          LinkRanked(prev, rank, e, d, add);
          ChainedBy(prev, prev[e := add], c, exception, d, add);
          prev := prev[e := add];
          return;
        }
        e := prev[e];
        k := k + 1;
      }
      assert d[0] in d && c[k] in c;
      ChainedBy(prev, prev, c, exception, d, add);
    }

    /** `zend_throw_exception_internal`, as far as the chain and the pending exception go. */
    method Throw(exception: int)
      requires Valid()
      modifies this
      ensures Valid() && saved == old(saved) && current == if exception != NULL then exception else old(current)
      ensures Chained(old(prev), prev, exception, old(current))
    {
      if exception != NULL {
        SetPrevious(exception, current);
        current := exception;
      }
    }

    /** `zend_exception_save` */
    method Save()
      requires Valid()
      modifies this
      ensures Valid() && current == NULL && saved == if old(current) != NULL then old(current) else old(saved)
      ensures Chained(old(prev), prev, old(current), old(saved))
    {
      if saved != NULL {
        SetPrevious(current, saved);
      }
      if current != NULL {
        saved := current;
      }
      current := NULL;
    }

    /** `zend_exception_restore` */
    method Restore()
      requires Valid()
      modifies this
      ensures Valid() && saved == NULL && current == if old(current) != NULL then old(current) else old(saved)
      ensures Chained(old(prev), prev, old(current), old(saved))
    {
      if saved != NULL {
        if current != NULL {
          SetPrevious(current, saved);
        } else {
          current := saved;
        }
        saved := NULL;
      }
    }

    ghost function Now(): State
      reads this
    {
      State(prev, current, saved)
    }

    method Perform(op: Op)
      requires Valid()
      modifies this
      ensures Valid() && Step(old(Now()), op, Now())
    {
      hide Chained, Acyclic;
      match op {
        case OpCreate(e, p) =>
          if Creatable(prev, e, p) {
            NotLedTo(prev, e);
            Create(e, p);
          }
        case OpThrow(e) => Throw(e);
        case OpSave => Save();
        case OpRestore => Restore();
      }
    }

    /** Is `e` one of the exceptions before `add`? */
    method Among(e: int, add: int, ghost d: seq<int>) returns (met: bool)
      requires IsChain(prev, d, add) && e != add
      ensures met <==> e in d
    {
      var a := add;
      ghost var m := 0;
      while a in prev
        invariant 0 <= m < |d| && a == d[m] && e !in d[..m + 1]
        decreases |d| - m
      {
        assert Linked(prev, d, m);
        a := prev[a];
        m := m + 1;
        assert d[..m + 1] == d[..m] + [d[m]];
        if a == e {
          return true;
        }
      }
      Along(prev, d, add, m);
      assert d[..m + 1] == d;
      return false;
    }
  }

  /** What linking does to two chains: it joins them if they do not meet. */
  ghost predicate Joined(prev: Links, prev': Links, c: seq<int>, e: int, d: seq<int>, add: int)
    requires c != []
  {
    if Apart(c, d) then prev' == prev[c[|c| - 1] := add] && IsChain(prev', c + d, e) && IsChain(prev', d, add)
    else prev' == prev
  }

  /** The links after `zend_exception_set_previous`: the two chains are joined if they do not meet, and without
      an exception on either side nothing changes. */
  ghost predicate Chained(prev: Links, prev': Links, e: int, add: int) {
    if e == NULL || add == NULL then prev' == prev
    else exists c, d :: IsChain(prev, c, e) && IsChain(prev, d, add) && Joined(prev, prev', c, e, d, add)
  }

  lemma ChainedBy(prev: Links, prev': Links, c: seq<int>, e: int, d: seq<int>, add: int)
    requires IsChain(prev, c, e) && IsChain(prev, d, add) && e != NULL && add != NULL
    requires Joined(prev, prev', c, e, d, add)
    ensures Chained(prev, prev', e, add)
  {}

  /** There is only one way to be chained. */
  lemma ChainedOnce(prev: Links, prev': Links, c: seq<int>, e: int, d: seq<int>, add: int)
    requires Chained(prev, prev', e, add) && e != NULL && add != NULL && IsChain(prev, c, e) && IsChain(prev, d, add)
    ensures Joined(prev, prev', c, e, d, add)
  {
    var c', d' :| IsChain(prev, c', e) && IsChain(prev, d', add) && Joined(prev, prev', c', e, d', add);
    ChainUnique(prev, c, c', e);
    ChainUnique(prev, d, d', add);
  }

  lemma NoneLeadsTo(prev: Links, e: int, y: int)
    requires y in prev && forall x {:trigger prev[x]} :: x in prev ==> prev[x] != e
    ensures prev[y] != e
  {}

  lemma NotInChain(prev: Links, d: seq<int>, add: int, e: int)
    requires IsChain(prev, d, add) && e != add && forall x {:trigger prev[x]} :: x in prev ==> prev[x] != e
    ensures e !in d
  {
    forall i | 0 <= i < |d| ensures d[i] != e {
      if i > 0 { Along(prev, d, add, i - 1); NoneLeadsTo(prev, e, d[i - 1]); }
    }
  }

  datatype Op = OpCreate(e: int, previous: int) | OpThrow(e: int) | OpSave | OpRestore

  /** The links, the pending exception and the saved one. */
  datatype State = State(prev: Links, current: int, saved: int)

  /** A new object, not yet part of any chain. */
  predicate Creatable(prev: Links, e: int, previous: int) {
    e != NULL && e != previous && e !in prev && e !in prev.Values
  }

  lemma NotLedTo(prev: Links, e: int)
    requires e !in prev.Values
    ensures forall x {:trigger prev[x]} :: x in prev ==> prev[x] != e
  {}

  /** What each operation does. The links stay acyclic. */
  ghost predicate Step(s: State, op: Op, t: State) {
    && Acyclic(t.prev)
    && match op
       case OpCreate(e, p) =>
         t == if Creatable(s.prev, e, p) && p != NULL then s.(prev := s.prev[e := p]) else s
       case OpThrow(e) =>
         Chained(s.prev, t.prev, e, s.current) && t.saved == s.saved &&
           t.current == (if e != NULL then e else s.current)
       case OpSave =>
         && Chained(s.prev, t.prev, s.current, s.saved)
         && t.current == NULL && t.saved == (if s.current != NULL then s.current else s.saved)
       case OpRestore =>
         && Chained(s.prev, t.prev, s.current, s.saved)
         && t.saved == NULL && t.current == (if s.current != NULL then s.current else s.saved)
  }

  /** However exceptions are created, thrown, saved and restored, from any acyclic links: the run is a trace of
      states, one more than there are operations, and no cycle arises. */
  method Run(context: Context, ops: seq<Op>) returns (ghost trace: seq<State>)
    requires context.Valid()
    modifies context
    ensures context.Valid() && |trace| == |ops| + 1 && trace[0] == old(context.Now()) && trace[|ops|] == context.Now()
    ensures forall i {:trigger trace[i]} :: 0 <= i <= |ops| ==> Acyclic(trace[i].prev)
    ensures forall i :: 0 <= i < |ops| ==> Step(trace[i], ops[i], trace[i + 1])
  {
    hide Acyclic, Chained;
    trace := [context.Now()];
    for i := 0 to |ops|
      invariant context.Valid() && |trace| == i + 1 && trace[0] == old(context.Now()) && trace[i] == context.Now()
      invariant forall j {:trigger trace[j]} :: 0 <= j <= i ==> Acyclic(trace[j].prev)
      invariant forall j :: 0 <= j < i ==> Step(trace[j], ops[j], trace[j + 1])
    {
      context.Perform(ops[i]);
      trace := trace + [context.Now()];
    }
  }

  // ----- the walks of the string conversion, on any links at all

  /** The exception `k` links before `e`, or null. */
  ghost function Back(prev: Links, e: int, k: nat): int {
    if k == 0 then e else
      var p := Back(prev, e, k - 1);
      if p in prev then prev[p] else NULL
  }

  /** The sequence follows the links. */
  ghost predicate Path(prev: Links, v: seq<int>, e: int) {
    forall i {:trigger v[i]} :: 0 <= i < |v| ==> v[i] == Back(prev, e, i) && v[i] != NULL
  }

  /** The link of the last one leads nowhere or to one already in the sequence. */
  ghost predicate Ends(prev: Links, v: seq<int>) {
    v != [] && var last := v[|v| - 1]; last in prev ==> prev[last] == NULL || prev[last] in v
  }

  lemma {:induction false} PathCovers(prev: Links, v: seq<int>, e: int, k: nat)
    requires Path(prev, v, e) && Ends(prev, v) && NULL !in prev
    ensures Back(prev, e, k) == NULL || Back(prev, e, k) in v
  {
    if k == 0 {
      assert v[0] == e;
    } else {
      PathCovers(prev, v, e, k - 1);
      var p := Back(prev, e, k - 1);
      if p in v {
        var i :| 0 <= i < |v| && v[i] == p;
        if i + 1 < |v| { assert v[i + 1] == Back(prev, e, i + 1); }
      }
    }
  }

  /** The apply counts with one more for each exception in `v`. */
  ghost predicate Marked(count: map<int, nat>, v: seq<int>) {
    forall e {:trigger e in count} :: e in count ==> count[e] == if e in v then 1 else 0
  }

  ghost function Unvisited(all: set<int>, v: seq<int>): set<int> { set y | y in all && y !in v }

  lemma FewerUnvisited(all: set<int>, v: seq<int>, x: int)
    requires x in all && x !in v
    ensures Unvisited(all, v + [x]) < Unvisited(all, v)
  {
    assert x in Unvisited(all, v);
    assert x in v + [x];
  }

  lemma ReversedNoDup(v: seq<int>, w: seq<int>)
    requires NoDup(v) && |w| == |v| && forall i {:trigger w[i]} :: 0 <= i < |w| ==> w[i] == v[|v| - 1 - i]
    ensures NoDup(w)
  {
    forall i, j | 0 <= i < j < |w| ensures w[i] != w[j] { assert v[|v| - 1 - j] != v[|v| - 1 - i]; }
  }

  class Printer {
    const prev: Links
    var count: map<int, nat>

    /** Every exception has a count, and all are zero. */
    ghost predicate Clear()
      reads this
    {
      Marked(count, []) && Known()
    }

    ghost predicate Known()
      reads this
    {
      NULL !in prev && forall e {:trigger prev[e]} :: e in prev && prev[e] != NULL ==> prev[e] in count
    }

    /** `Exception::__toString`: both walks. What is printed is every exception reachable from `e`, each
        once, the last one first; the counts are as before. */
    method Walk(e: int) returns (text: seq<int>)
      requires Clear() && e in count && e != NULL
      modifies this`count
      ensures Clear() && count.Keys == old(count.Keys)
      ensures forall k: nat :: Back(prev, e, k) == NULL || Back(prev, e, k) in text
      ensures forall i {:trigger text[i]} :: 0 <= i < |text| ==> text[i] == Back(prev, e, |text| - 1 - i) != NULL
      ensures NoDup(text)
    {
      ghost var v;
      text, v := Print(e);
      Reset(e, v);
      ReversedNoDup(v, text);
      forall i {:trigger text[i]} | 0 <= i < |text| ensures text[i] == Back(prev, e, |text| - 1 - i) != NULL {
        var l := |v| - 1 - i;
        assert text[i] == v[l];
      }
      forall k: nat ensures Back(prev, e, k) == NULL || Back(prev, e, k) in text {
        PathCovers(prev, v, e, k);
        if Back(prev, e, k) in v {
          var i :| 0 <= i < |v| && v[i] == Back(prev, e, k);
          assert text[|v| - 1 - i] == v[i];
        }
      }
    }

    method Print(e: int) returns (text: seq<int>, ghost v: seq<int>)
      requires Clear() && e in count && e != NULL
      modifies this`count
      ensures Known() && Marked(count, v) && count.Keys == old(count.Keys)
      ensures Path(prev, v, e) && Ends(prev, v) && NoDup(v) && forall x :: x in v ==> x in count
      ensures |text| == |v| && forall i {:trigger text[i]} :: 0 <= i < |text| ==> text[i] == v[|v| - 1 - i]
    {
      text, v := [], [];
      var x := e;
      while x != NULL
        invariant Known() && Marked(count, v) && count.Keys == old(count.Keys) && e in count
        invariant Path(prev, v, e) && NoDup(v) && forall y :: y in v ==> y in count
        invariant x != NULL ==> x == Back(prev, e, |v|) && x in count && x !in v
        invariant x == NULL ==> Ends(prev, v)
        invariant |text| == |v| && forall i {:trigger text[i]} :: 0 <= i < |text| ==> text[i] == v[|v| - 1 - i]
        decreases Unvisited(count.Keys, v), x != NULL
      {
        FewerUnvisited(count.Keys, v, x);
        text, v := [x] + text, v + [x];
        count := count[x := count[x] + 1];
        if x in prev && prev[x] != NULL && count[prev[x]] == 0 {
          x := prev[x];
        } else {
          x := NULL;
        }
      }
    }

    method Reset(e: int, ghost v: seq<int>)
      requires Known() && Marked(count, v) && Path(prev, v, e) && Ends(prev, v) && NoDup(v)
      requires e in count && e != NULL && forall x :: x in v ==> x in count
      modifies this`count
      ensures Clear() && count.Keys == old(count.Keys)
    {
      var x := e;
      ghost var k := 0;
      while x != NULL && count[x] != 0
        invariant 0 <= k <= |v| && count.Keys == old(count.Keys) && Known()
        invariant Marked(count, v[k..])
        invariant k < |v| ==> x == v[k]
        invariant x != NULL ==> x in count
        invariant k == |v| ==> x == NULL || x in v
        decreases |v| - k
      {
        count := count[x := count[x] - 1];
        x := if x in prev then prev[x] else NULL;
        k := k + 1;
      }
    }
  }
}
