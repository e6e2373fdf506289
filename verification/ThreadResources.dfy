/** The thread-safe resource manager: per-thread storage arrays in a chained hash table, and a
    thread-local pointer to one's own. Null is zero. */
module ThreadResources {
  const NULL: int := 0

  /** A thread's storage: one cell per issued resource id. */
  datatype Entry = Entry(thread: nat, storage: seq<int>)

  /** A resource type: whether it has a destructor, and whether its id has been released. */
  datatype Type = Type(hasDtor: bool, done: bool)

  /** Chains of entry addresses by hash, the entries, and the types by number. */
  datatype State = State(table: seq<seq<int>>, entry: map<int, Entry>, types: seq<Type>)

  /** Where a cell was constructed. */
  datatype Home = Home(entry: int, id: nat)

  /** Every cell ever constructed, those freed, and those whose destructor has been called. */
  datatype Account = Account(made: map<int, Home>, freed: set<int>, destroyed: set<int>)

  /** What happens to cells, in order. */
  datatype Event = Made(cell: int, home: Home) | Destroyed(cell: int) | Freed(cell: int)

  ghost predicate Recorded(k: Account, e: Event) {
    match e
    case Made(c, h) => c in k.made && k.made[c] == h
    case Destroyed(c) => c in k.destroyed
    case Freed(c) => c in k.freed
  }

  /** `f` must not come after `e`: nothing happens to a freed cell, and a cell is made first. */
  ghost predicate Late(e: Event, f: Event) {
    e.cell == f.cell && (e.Freed? || (e.Destroyed? && f.Made?))
  }

  /** The log is the account with its order: every event once, and none too late. */
  ghost predicate History(log: seq<Event>, k: Account) {
    && (forall i, j {:trigger log[i], log[j]} :: 0 <= i < j < |log| ==> log[i] != log[j] && !Late(log[i], log[j]))
    && (forall e {:trigger e in log} {:trigger Recorded(k, e)} :: e in log <==> Recorded(k, e))
    && k.freed <= k.made.Keys && k.destroyed <= k.made.Keys
  }

  lemma HistoryGrows(log: seq<Event>, k: Account, e: Event, k': Account)
    requires History(log, k) && !Recorded(k, e) && k'.freed <= k'.made.Keys && k'.destroyed <= k'.made.Keys
    requires forall f {:trigger Recorded(k', f)} :: Recorded(k', f) <==> Recorded(k, f) || f == e
    requires forall f {:trigger Recorded(k, f)} :: Recorded(k, f) ==> !Late(f, e)
    ensures History(log + [e], k')
  {
    var l := log + [e];
    forall f ensures f in l <==> Recorded(k', f) {
      assert f in log <==> Recorded(k, f);
      assert f in l <==> f in log || f == e;
    }
    forall i, j {:trigger l[i], l[j]} | 0 <= i < j < |l| ensures l[i] != l[j] && !Late(l[i], l[j]) {
      assert l[i] in log && Recorded(k, l[i]);
    }
  }

  lemma MadeGrows(log: seq<Event>, k: Account, c: int, h: Home)
    requires History(log, k) && c !in k.made
    ensures History(log + [Made(c, h)], k.(made := k.made[c := h]))
  {
    var e, k' := Made(c, h), k.(made := k.made[c := h]);
    assert c !in k.freed && c !in k.destroyed by { assert c !in k.made.Keys; }
    forall f ensures Recorded(k', f) <==> Recorded(k, f) || f == e {}
    HistoryGrows(log, k, e, k');
  }

  lemma DestroyedGrows(log: seq<Event>, k: Account, c: int)
    requires History(log, k) && c in k.made && c !in k.destroyed && c !in k.freed
    ensures History(log + [Destroyed(c)], k.(destroyed := k.destroyed + {c}))
  {
    HistoryGrows(log, k, Destroyed(c), k.(destroyed := k.destroyed + {c}));
  }

  lemma FreedGrows(log: seq<Event>, k: Account, c: int)
    requires History(log, k) && c in k.made && c !in k.freed
    ensures History(log + [Freed(c)], k.(freed := k.freed + {c}))
  {
    HistoryGrows(log, k, Freed(c), k.(freed := k.freed + {c}));
  }

  /** How far a change that goes through all entries has come: the entries that already have a cell for
      the newest type, and those whose cell of type `id` is already released. */
  datatype Phase = Phase(grown: set<int>, id: int, cleared: set<int>)

  function HashOf(thread: nat, n: nat): (h: nat)
    requires n > 0
    ensures h < n
  {
    thread % n
  }

  /** The bucket is the remainder of the thread's number, so two threads share one if and only if their numbers
      differ by a multiple of the table size. */
  lemma SameBucketIff(a: nat, b: nat, n: nat)
    requires n > 0
    ensures HashOf(a, n) < n && exists k: nat :: a == Product(n, k) + HashOf(a, n)
    ensures HashOf(a, n) == HashOf(b, n) <==> exists k: int :: Apart(a, b, n, k)
  {
    assert a == Product(n, a / n) + HashOf(a, n) && b == Product(n, b / n) + HashOf(b, n);
    if HashOf(a, n) == HashOf(b, n) {
      assert Apart(a, b, n, a / n - b / n);
    }
    forall k: int | Apart(a, b, n, k) ensures HashOf(a, n) == HashOf(b, n) {
      OneQuotient(n, a / n, b / n + k, HashOf(a, n), HashOf(b, n));
    }
  }

  ghost predicate Apart(a: nat, b: nat, n: nat, k: int) { a == b + n * k }

  lemma OneQuotient(n: int, p: int, q: int, r: int, t: int)
    requires 0 <= r < n && 0 <= t < n && n * p + r == n * q + t
    ensures r == t
  {
    var d := p - q;
    var m := n * d;
    assert m == n * p - n * q;
    Multiple(n, d);
    assert m == t - r;
  }

  lemma Multiple(n: int, d: int)
    requires n > 0
    ensures d >= 1 ==> n * d >= n
    ensures d <= -1 ==> n * d <= -n
    ensures d == 0 ==> n * d == 0
  {
  }

  ghost predicate ChainOK(s: State, i: nat)
    requires i < |s.table|
  {
    && (forall k, l :: 0 <= k < l < |s.table[i]| ==> s.table[i][k] != s.table[i][l])
    && (forall a {:trigger a in s.table[i]} :: a in s.table[i] ==>
      a in s.entry && HashOf(s.entry[a].thread, |s.table|) == i)
  }

  /** Every entry stands once, in the chain of its hash, and no thread has two. */
  ghost predicate TableOK(s: State) {
    && |s.table| > 0
    && (forall i {:trigger ChainOK(s, i)} :: 0 <= i < |s.table| ==> ChainOK(s, i))
    && (forall a {:trigger s.entry[a]} :: a in s.entry ==>
      a != NULL && a in s.table[HashOf(s.entry[a].thread, |s.table|)])
    && (forall a, b {:trigger s.entry[a], s.entry[b]} :: a in s.entry && b in s.entry && s.entry[a].thread == s.entry[b].thread ==> a == b)
  }

  /** An entry has a cell for every type but the released ones. */
  ghost predicate EntryOK(s: State, x: Phase, a: int)
    requires a in s.entry
  {
    var c := s.entry[a].storage;
    && |c| == |s.types| - (if a in x.grown then 0 else 1)
    && forall i {:trigger c[i]} :: 0 <= i < |c| ==> (c[i] == NULL <==> s.types[i].done || (i == x.id && a in x.cleared))
  }

  /** A cell that is not freed is in the place it was made for, and nothing freed is in any place. */
  ghost predicate CellOK(s: State, k: Account, c: int)
    requires c in k.made
  {
    var h := k.made[c];
    && c != NULL && h.id < |s.types|
    && (c !in k.freed <==>
      h.entry in s.entry && h.id < |s.entry[h.entry].storage| && s.entry[h.entry].storage[h.id] == c)
    && (c in k.destroyed <==> c in k.freed && s.types[h.id].hasDtor)
  }

  ghost predicate PlaceOK(s: State, k: Account, a: int, i: nat)
    requires a in s.entry && i < |s.entry[a].storage|
  {
    var c := s.entry[a].storage[i];
    c != NULL ==> c in k.made && k.made[c] == Home(a, i)
  }

  ghost predicate Inv(s: State, k: Account, x: Phase) {
    && TableOK(s)
    && (forall a {:trigger EntryOK(s, x, a)} :: a in s.entry ==> EntryOK(s, x, a))
    && (forall c {:trigger CellOK(s, k, c)} :: c in k.made ==> CellOK(s, k, c))
    && (forall a, i {:trigger PlaceOK(s, k, a, i)} :: a in s.entry && 0 <= i < |s.entry[a].storage| ==>
      PlaceOK(s, k, a, i))
    && k.freed <= k.made.Keys && k.destroyed <= k.made.Keys
    && x.grown <= s.entry.Keys
  }

  ghost function Settled(s: State): Phase { Phase(s.entry.Keys, -1, {}) }

  ghost predicate Sound(s: State, k: Account) { Inv(s, k, Settled(s)) }

  // ----- a new type

  lemma NewTypeOK(s: State, k: Account, t: Type)
    requires Sound(s, k)
    ensures Inv(s.(types := s.types + [t]), k, Phase({}, -1, {}))
  {
    var n := s.(types := s.types + [t]);
    forall i | 0 <= i < |n.table| ensures ChainOK(n, i) { assert ChainOK(s, i); }
    forall a | a in n.entry ensures EntryOK(n, Phase({}, -1, {}), a) { assert EntryOK(s, Settled(s), a); }
    forall c | c in k.made ensures CellOK(n, k, c) { assert CellOK(s, k, c); }
    forall a, i | a in n.entry &&
      0 <= i < |n.entry[a].storage| ensures PlaceOK(n, k, a, i) { assert PlaceOK(s, k, a, i); }
  }

  ghost function Grown(s: State, a: int, c: int): State
    requires a in s.entry
  {
    s.(entry := s.entry[a := s.entry[a].(storage := s.entry[a].storage + [c])])
  }

  lemma GrownOK(s: State, k: Account, x: Phase, a: int, c: int)
    requires Inv(s, k, x) && a in s.entry && a !in x.grown && x.cleared == {} && s.types != [] &&
      !s.types[|s.types| - 1].done
    requires c != NULL && c !in k.made
    ensures Inv(Grown(s, a, c), k.(made := k.made[c := Home(a, |s.types| - 1)]), x.(grown := x.grown + {a}))
  {
    var t, m, y := Grown(s, a, c), k.(made := k.made[c := Home(a, |s.types| - 1)]), x.(grown := x.grown + {a});
    assert EntryOK(s, x, a);
    SameTable(s, t);
    forall d | d in m.made ensures CellOK(t, m, d) { GrownCell(s, k, x, a, c, d); }
    hide CellOK, TableOK;
    forall b | b in t.entry ensures EntryOK(t, y, b) { assert EntryOK(s, x, b); }
    forall b, i | b in t.entry && 0 <= i < |t.entry[b].storage| ensures PlaceOK(t, m, b, i) {
      if i < |s.entry[b].storage| { assert PlaceOK(s, k, b, i); }
    }
  }

  lemma GrownCell(s: State, k: Account, x: Phase, a: int, c: int, d: int)
    requires Inv(s, k, x) && a in s.entry && a !in x.grown && s.types != [] && c != NULL && c !in k.made
    requires d == c || d in k.made
    ensures CellOK(Grown(s, a, c), k.(made := k.made[c := Home(a, |s.types| - 1)]), d)
  {
    assert EntryOK(s, x, a);
    if d != c { assert CellOK(s, k, d); }
  }

  lemma SameTable(s: State, t: State)
    requires TableOK(s) && t.table == s.table && t.entry.Keys == s.entry.Keys
    requires forall a {:trigger t.entry[a]} :: a in t.entry ==> t.entry[a].thread == s.entry[a].thread
    ensures TableOK(t)
  {
    forall i | 0 <= i < |t.table| ensures ChainOK(t, i) {
      assert ChainOK(s, i);
      forall a | a in t.table[i] ensures a in t.entry &&
        HashOf(t.entry[a].thread, |t.table|) == i { assert a in s.entry.Keys; }
    }
    forall a | a in t.entry ensures a != NULL &&
      a in t.table[HashOf(t.entry[a].thread, |t.table|)] { assert a in s.entry.Keys && s.entry[a] == s.entry[a]; }
    forall a, b | a in t.entry && b in t.entry && t.entry[a].thread == t.entry[b].thread ensures a == b {
      assert a in s.entry.Keys && b in s.entry.Keys && s.entry[a].thread == s.entry[b].thread;
    }
  }

  // ----- an id released

  ghost function Cleared(s: State, a: int, j: nat): State
    requires a in s.entry && j < |s.entry[a].storage|
  {
    s.(entry := s.entry[a := s.entry[a].(storage := s.entry[a].storage[j := NULL])])
  }

  /** Cell `c` freed, after its destructor if its type has one. */
  ghost function Released(k: Account, c: int, hasDtor: bool): Account {
    k.(freed := k.freed + {c}, destroyed := if hasDtor then k.destroyed + {c} else k.destroyed)
  }

  lemma ClearedOK(s: State, k: Account, x: Phase, a: int, j: nat)
    requires Inv(s, k, x) && a in s.entry && j < |s.types| && x.id == j && x.grown == s.entry.Keys && a !in x.cleared
    requires j < |s.entry[a].storage| && s.entry[a].storage[j] != NULL
    ensures Inv(Cleared(s, a, j), Released(k, s.entry[a].storage[j], s.types[j].hasDtor), x.(cleared := x.cleared + {a}))
  {
    var c, t := s.entry[a].storage[j], Cleared(s, a, j);
    var m, y := Released(k, c, s.types[j].hasDtor), x.(cleared := x.cleared + {a});
    assert EntryOK(s, x, a) && PlaceOK(s, k, a, j) && CellOK(s, k, c);
    SameTable(s, t);
    forall b | b in t.entry ensures EntryOK(t, y, b) { assert EntryOK(s, x, b); }
    forall d | d in m.made ensures CellOK(t, m, d) { assert CellOK(s, k, d); }
    forall b, i | b in t.entry &&
      0 <= i < |t.entry[b].storage| ensures PlaceOK(t, m, b, i) { assert PlaceOK(s, k, b, i); }
    assert t.entry.Keys == s.entry.Keys;
  }

  lemma DoneOK(s: State, k: Account, j: nat)
    requires j < |s.types| && Inv(s, k, Phase(s.entry.Keys, j, s.entry.Keys))
    ensures Sound(s.(types := s.types[j := s.types[j].(done := true)]), k)
  {
    var x, t := Phase(s.entry.Keys, j, s.entry.Keys), s.(types := s.types[j := s.types[j].(done := true)]);
    SameTable(s, t);
    forall b | b in t.entry ensures EntryOK(t, Settled(t), b) { assert EntryOK(s, x, b); }
    forall d | d in k.made ensures CellOK(t, k, d) { assert CellOK(s, k, d); }
    forall b, i | b in t.entry &&
      0 <= i < |t.entry[b].storage| ensures PlaceOK(t, k, b, i) { assert PlaceOK(s, k, b, i); }
  }

  // ----- entries come and go

  ghost function Added(s: State, a: int, e: Entry): State
    requires |s.table| > 0
  {
    var h := HashOf(e.thread, |s.table|);
    s.(table := s.table[h := s.table[h] + [a]], entry := s.entry[a := e])
  }

  /** `cells` are the cells of a new entry, each made for its place. */
  ghost predicate CellsFor(cells: map<int, Home>, a: int, c: seq<int>) {
    && (forall d {:trigger cells[d]} :: d in cells ==>
      d != NULL && cells[d].entry == a && cells[d].id < |c| && c[cells[d].id] == d)
    && (forall i {:trigger c[i]} :: 0 <= i < |c| && c[i] != NULL ==> c[i] in cells && cells[c[i]] == Home(a, i))
  }

  lemma AddedTable(s: State, a: int, e: Entry)
    requires TableOK(s) && a !in s.entry && a != NULL && forall b {:trigger s.entry[b]} :: b in s.entry ==>
      s.entry[b].thread != e.thread
    ensures TableOK(Added(s, a, e))
  {
    var t, h := Added(s, a, e), HashOf(e.thread, |s.table|);
    forall i | 0 <= i < |t.table| ensures ChainOK(t, i) {
      assert ChainOK(s, i);
      assert a !in s.table[i];
    }
    forall b | b in t.entry ensures b != NULL && b in t.table[HashOf(t.entry[b].thread, |t.table|)] {
      if b != a { assert s.entry[b] == t.entry[b]; }
    }
    forall b, c | b in t.entry && c in t.entry && t.entry[b].thread == t.entry[c].thread ensures b == c {
      if b != a { assert s.entry[b] == t.entry[b]; }
      if c != a { assert s.entry[c] == t.entry[c]; }
    }
  }

  lemma AddedOK(s: State, k: Account, a: int, e: Entry, cells: map<int, Home>)
    requires Sound(s, k) && a !in s.entry && a != NULL && forall b {:trigger s.entry[b]} :: b in s.entry ==>
      s.entry[b].thread != e.thread
    requires |e.storage| == |s.types|
    requires forall i {:trigger e.storage[i]} :: 0 <= i < |e.storage| ==> (e.storage[i] == NULL <==> s.types[i].done)
    requires CellsFor(cells, a, e.storage) && cells.Keys !! k.made.Keys
    ensures Sound(Added(s, a, e), k.(made := k.made + cells))
  {
    var t, m := Added(s, a, e), k.(made := k.made + cells);
    AddedTable(s, a, e);
    forall b | b in t.entry ensures EntryOK(t, Settled(t), b) { if b != a { assert EntryOK(s, Settled(s), b); } }
    forall d | d in m.made ensures CellOK(t, m, d) {
      if d in cells { assert cells[d] == m.made[d] && d !in k.made.Keys; } else { AddedCell(s, k, a, e, cells, d); }
    }
    forall b, i | b in t.entry && 0 <= i < |t.entry[b].storage| ensures PlaceOK(t, m, b, i) {
      if b != a { assert PlaceOK(s, k, b, i); }
      else if e.storage[i] != NULL { assert e.storage[i] in cells.Keys && cells[e.storage[i]] == Home(a, i); }
    }
  }

  lemma AddedCell(s: State, k: Account, a: int, e: Entry, cells: map<int, Home>, d: int)
    requires Sound(s, k) && a !in s.entry && d in k.made && d !in cells && CellsFor(cells, a, e.storage)
    ensures CellOK(Added(s, a, e), k.(made := k.made + cells), d)
  {
    assert CellOK(s, k, d);
    var h := k.made[d];
    forall i | 0 <= i < |e.storage| ensures e.storage[i] != d { assert e.storage[i] != NULL ==> e.storage[i] in cells; }
  }

  function Without(c: seq<int>, j: nat): seq<int>
    requires j < |c|
  {
    c[..j] + c[j + 1..]
  }

  ghost function Removed(s: State, h: nat, j: nat): State
    requires h < |s.table| && j < |s.table[h]|
  {
    s.(table := s.table[h := Without(s.table[h], j)], entry := s.entry - {s.table[h][j]})
  }

  /** The cells of a storage array, and those of them that have a destructor. */
  ghost function Cells(c: seq<int>, n: nat): set<int>
    requires n <= |c|
  {
    set i | 0 <= i < n && c[i] != NULL :: c[i]
  }

  ghost function DtorCells(c: seq<int>, types: seq<Type>, n: nat): set<int>
    requires n <= |c| && |c| <= |types|
  {
    set i | 0 <= i < n && c[i] != NULL && types[i].hasDtor :: c[i]
  }

  /** The destructor calls over the first `n` cells of a storage, in order. */
  ghost function DtorEvents(c: seq<int>, types: seq<Type>, n: nat): seq<Event>
    requires n <= |c| <= |types|
  {
    if n == 0 then []
    else
      DtorEvents(c, types, n - 1) + if types[n - 1].hasDtor && c[n - 1] != NULL then [Destroyed(c[n - 1])] else []
  }

  /** The frees of the first `n` cells of a storage, in order. */
  ghost function FreeEvents(c: seq<int>, n: nat): seq<Event>
    requires n <= |c|
  {
    if n == 0 then [] else FreeEvents(c, n - 1) + if c[n - 1] != NULL then [Freed(c[n - 1])] else []
  }

  /** A thread's storage released: every destructor has run before the first cell is freed. */
  ghost predicate ReleasedInOrder(c: seq<int>, types: seq<Type>, log: seq<Event>, log': seq<Event>) {
    |c| <= |types| && log' == log + DtorEvents(c, types, |c|) + FreeEvents(c, |c|)
  }

  lemma RemovedTable(s: State, h: nat, j: nat)
    requires TableOK(s) && h < |s.table| && j < |s.table[h]|
    ensures s.table[h][j] in s.entry && TableOK(Removed(s, h, j))
  {
    var t, a, c := Removed(s, h, j), s.table[h][j], s.table[h];
    assert ChainOK(s, h) && a in c;
    var d := Without(c, j);
    assert forall k {:trigger d[k]} :: 0 <= k < |d| ==> d[k] == c[if k < j then k else k + 1];
    forall i | 0 <= i < |t.table| ensures ChainOK(t, i) {
      assert ChainOK(s, i);
      forall b | b in t.table[i] ensures b in t.entry &&
        HashOf(t.entry[b].thread, |t.table|) == i { assert b in s.table[i]; }
    }
    forall b | b in t.entry ensures b != NULL && b in t.table[HashOf(t.entry[b].thread, |t.table|)] {
      assert s.entry[b] == t.entry[b];
      var i := HashOf(s.entry[b].thread, |s.table|);
      if i == h { StillThere(c, j, b); }
    }
    forall b, e | b in t.entry && e in t.entry && t.entry[b].thread == t.entry[e].thread ensures b == e {
      assert s.entry[b] == t.entry[b] && s.entry[e] == t.entry[e];
    }
  }

  lemma StillThere(c: seq<int>, j: nat, b: int)
    requires j < |c| && b in c && b != c[j]
    ensures b in Without(c, j)
  {
    var k :| 0 <= k < |c| && c[k] == b;
    assert Without(c, j)[if k < j then k else k - 1] == b;
  }

  ghost function Emptied(s: State, k: Account, a: int): Account
    requires a in s.entry && |s.entry[a].storage| <= |s.types|
  {
    var c := s.entry[a].storage;
    k.(freed := k.freed + Cells(c, |c|), destroyed := k.destroyed + DtorCells(c, s.types, |c|))
  }

  lemma RemovedOK(s: State, k: Account, h: nat, j: nat)
    requires Sound(s, k) && h < |s.table| && j < |s.table[h]|
    ensures s.table[h][j] in s.entry && |s.entry[s.table[h][j]].storage| <= |s.types|
    ensures Sound(Removed(s, h, j), Emptied(s, k, s.table[h][j]))
  {
    RemovedTable(s, h, j);
    var a := s.table[h][j];
    assert EntryOK(s, Settled(s), a);
    var t, m := Removed(s, h, j), Emptied(s, k, a);
    forall b | b in t.entry ensures EntryOK(t, Settled(t), b) { assert EntryOK(s, Settled(s), b); }
    forall d | d in m.made ensures CellOK(t, m, d) { RemovedCell(s, k, h, j, d); }
    forall b, i | b in t.entry &&
      0 <= i < |t.entry[b].storage| ensures PlaceOK(t, m, b, i) { assert PlaceOK(s, k, b, i); }
    CellsMade(s, k, a);
  }

  lemma CellsMade(s: State, k: Account, a: int)
    requires Sound(s, k) && a in s.entry && |s.entry[a].storage| <= |s.types|
    ensures Cells(s.entry[a].storage, |s.entry[a].storage|) <= k.made.Keys
    ensures DtorCells(s.entry[a].storage, s.types, |s.entry[a].storage|) <= k.made.Keys
  {
    var c := s.entry[a].storage;
    forall i | 0 <= i < |c| && c[i] != NULL ensures c[i] in k.made { assert PlaceOK(s, k, a, i); }
  }

  lemma RemovedCell(s: State, k: Account, h: nat, j: nat, d: int)
    requires Sound(s, k) && h < |s.table| && j < |s.table[h]| && d in k.made
    requires s.table[h][j] in s.entry && |s.entry[s.table[h][j]].storage| <= |s.types|
    ensures CellOK(Removed(s, h, j), Emptied(s, k, s.table[h][j]), d)
  {
    var a := s.table[h][j];
    var c, p := s.entry[a].storage, k.made[d];
    assert CellOK(s, k, d);
    forall i | 0 <= i < |c| && c[i] == d ensures p == Home(a, i) { assert PlaceOK(s, k, a, i); }
    if d in Cells(c, |c|) {
      var i :| 0 <= i < |c| && c[i] == d;
    }
    assert p.entry == a && p.id < |c| && c[p.id] == d ==> d in Cells(c, |c|);
    if d in DtorCells(c, s.types, |c|) {
      var i :| 0 <= i < |c| && c[i] == d && s.types[i].hasDtor;
    }
  }

  // ----- going through all entries

  ghost function Elems(c: seq<int>): set<int> { set a | a in c }

  /** The entries of the first `i` chains. */
  ghost function Before(table: seq<seq<int>>, i: nat): set<int>
    requires i <= |table|
  {
    if i == 0 then {} else Before(table, i - 1) + Elems(table[i - 1])
  }

  lemma {:induction false} BeforeHash(s: State, i: nat, a: int)
    requires TableOK(s) && i <= |s.table|
    ensures a in Before(s.table, i) <==> a in s.entry && HashOf(s.entry[a].thread, |s.table|) < i
    decreases i
  {
    if i > 0 {
      BeforeHash(s, i - 1, a);
      assert ChainOK(s, i - 1);
      if a in s.entry { assert s.entry[a] == s.entry[a]; }
    }
  }

  /** The entry at place `k` of chain `i` has not been met before. */
  lemma NotMet(s: State, i: nat, k: nat)
    requires TableOK(s) && i < |s.table| && k < |s.table[i]|
    ensures s.table[i][k] in s.entry && s.table[i][k] !in Before(s.table, i) + Elems(s.table[i][..k])
    ensures Elems(s.table[i][..k + 1]) == Elems(s.table[i][..k]) + {s.table[i][k]}
  {
    var a := s.table[i][k];
    assert ChainOK(s, i) && a in s.table[i];
    BeforeHash(s, i, a);
    assert s.table[i][..k + 1] == s.table[i][..k] + [a];
    forall l | 0 <= l < k ensures s.table[i][l] != a {}
  }

  lemma AllMet(s: State)
    requires TableOK(s)
    ensures Before(s.table, |s.table|) == s.entry.Keys
  {
    forall a ensures a in Before(s.table, |s.table|) <==> a in s.entry.Keys { BeforeHash(s, |s.table|, a); }
  }

  lemma {:induction false} BeforeEmpty(table: seq<seq<int>>, i: nat)
    requires i <= |table| && forall l :: 0 <= l < |table| ==> table[l] == []
    ensures Before(table, i) == {}
  {
    if i > 0 { BeforeEmpty(table, i - 1); }
  }

  lemma WholeChain(c: seq<int>)
    ensures c[..|c|] == c && Elems(c[..0]) == {}
  {}

  // ----- cells of one entry

  /** Destructor calls on null that releasing a storage array causes: one for each released type that has one. */
  function NullCalls(types: seq<Type>, n: nat): nat
    requires n <= |types|
  {
    if n == 0 then 0 else NullCalls(types, n - 1) + if types[n - 1].hasDtor && types[n - 1].done then 1 else 0
  }

  /** There is such a call if and only if some released type has a destructor. */
  lemma {:induction false} NullCallsIff(types: seq<Type>, n: nat)
    requires n <= |types|
    ensures NullCalls(types, n) > 0 <==> exists j :: 0 <= j < n && types[j].hasDtor && types[j].done
  {
    if n > 0 { NullCallsIff(types, n - 1); }
  }

  lemma CellFacts(s: State, k: Account, a: int, i: nat)
    requires Sound(s, k) && a in s.entry && i < |s.entry[a].storage|
    ensures |s.entry[a].storage| == |s.types|
    ensures var c := s.entry[a].storage;
      && (c[i] == NULL <==> s.types[i].done)
      && (c[i] != NULL ==> c[i] in k.made && k.made[c[i]].id == i && c[i] !in k.freed && c[i] !in k.destroyed)
      && (c[i] != NULL ==> c[i] !in Cells(c, i) && c[i] !in DtorCells(c, s.types, i))
      && Cells(c, i + 1) == Cells(c, i) + (if c[i] != NULL then {c[i]} else {})
      && DtorCells(c, s.types, i + 1) == DtorCells(c, s.types, i) + (if c[i] != NULL &&
        s.types[i].hasDtor then {c[i]} else {})
  {
    var c := s.entry[a].storage;
    assert EntryOK(s, Settled(s), a) && PlaceOK(s, k, a, i);
    if c[i] != NULL { assert CellOK(s, k, c[i]); }
    forall l | 0 <= l < i ensures c[l] != c[i] || c[i] == NULL { assert PlaceOK(s, k, a, l); }
  }

  lemma StorageLength(s: State, k: Account, a: int)
    requires Sound(s, k) && a in s.entry
    ensures |s.entry[a].storage| == |s.types|
  {
    assert EntryOK(s, Settled(s), a);
  }

  ghost predicate Extended(d: Entry, e: Entry) {
    e.thread == d.thread && |e.storage| == |d.storage| + 1 && d.storage <= e.storage && e.storage[|d.storage|] != NULL
  }

  /** The entries in `cleared` have lost cell `j`, the others are as they were. */
  ghost predicate Without1(was: map<int, Entry>, entry: map<int, Entry>, j: nat, cleared: set<int>) {
    forall a {:trigger entry[a]} :: a in entry ==>
      a in was && entry[a] == if a in cleared &&
        j < |was[a].storage| then was[a].(storage := was[a].storage[j := NULL]) else was[a]
  }

  lemma ClearedNone(entry: map<int, Entry>, j: nat)
    ensures Without1(entry, entry, j, {})
  {}

  lemma ClearedOne(was: map<int, Entry>, e: map<int, Entry>, j: nat, cleared: set<int>, a: int)
    requires Without1(was, e, j, cleared) && a in e && a !in cleared && j < |e[a].storage|
    ensures var f := e[a := e[a].(storage := e[a].storage[j := NULL])]; Without1(was, f, j, cleared + {a})
    ensures e[a].storage[j] == NULL ==> Without1(was, e, j, cleared + {a})
  {
    var f := e[a := e[a].(storage := e[a].storage[j := NULL])];
    assert e[a] == was[a];
    forall b {:trigger f[b]} | b in f
      ensures b in was && f[b] == if b in cleared + {a} &&
        j < |was[b].storage| then was[b].(storage := was[b].storage[j := NULL]) else was[b]
    {
      assert e[b] == e[b];
    }
    if e[a].storage[j] == NULL { assert e[a].storage[j := NULL] == e[a].storage && f == e; }
  }

  lemma TlsCleared(tls: map<nat, int>, ended: set<nat>, was: map<int, Entry>, entry: map<int, Entry>, j: nat)
    requires forall t {:trigger tls[t]} :: t in tls && t !in ended ==> tls[t] in was && was[tls[t]].thread == t
    requires entry.Keys == was.Keys && Without1(was, entry, j, entry.Keys)
    ensures forall t {:trigger tls[t]} :: t in tls && t !in ended ==> tls[t] in entry && entry[tls[t]].thread == t
  {
    forall t {:trigger tls[t]} | t in tls && t !in ended ensures tls[t] in entry && entry[tls[t]].thread == t {
      SameThreadCleared(was, entry, j, tls[t]);
    }
  }

  lemma SameThreadCleared(was: map<int, Entry>, entry: map<int, Entry>, j: nat, a: int)
    requires a in was && entry.Keys == was.Keys && Without1(was, entry, j, entry.Keys)
    ensures a in entry && entry[a].thread == was[a].thread
  {
    assert a in entry.Keys && entry[a] == entry[a];
  }

  /** The entries in `grown` have one more cell, the others are as they were. */
  ghost predicate Progress(was: map<int, Entry>, entry: map<int, Entry>, grown: set<int>) {
    forall a {:trigger entry[a]} :: a in entry ==>
      a in was && if a in grown then Extended(was[a], entry[a]) else entry[a] == was[a]
  }

  lemma ProgressNone(entry: map<int, Entry>)
    ensures Progress(entry, entry, {})
  {}

  lemma ProgressOne(was: map<int, Entry>, e: map<int, Entry>, f: map<int, Entry>, grown: set<int>, a: int)
    requires Progress(was, e, grown) && a in e && a !in grown && a in f && f == e[a := f[a]] && Extended(e[a], f[a])
    ensures Progress(was, f, grown + {a})
  {
    forall b {:trigger f[b]} | b in f ensures b in was &&
      if b in grown + {a} then Extended(was[b], f[b]) else f[b] == was[b] {
      assert e[b] == e[b];
    }
  }

  lemma TlsKept(tls: map<nat, int>, ended: set<nat>, was: map<int, Entry>, entry: map<int, Entry>)
    requires forall t {:trigger tls[t]} :: t in tls && t !in ended ==> tls[t] in was && was[tls[t]].thread == t
    requires entry.Keys == was.Keys && Progress(was, entry, entry.Keys)
    ensures forall t {:trigger tls[t]} :: t in tls && t !in ended ==> tls[t] in entry && entry[tls[t]].thread == t
  {
    forall t {:trigger tls[t]} | t in tls && t !in ended ensures tls[t] in entry && entry[tls[t]].thread == t {
      SameThread(was, entry, tls[t]);
    }
  }

  lemma SameThread(was: map<int, Entry>, entry: map<int, Entry>, a: int)
    requires a in was && entry.Keys == was.Keys && Progress(was, entry, entry.Keys)
    ensures a in entry && entry[a].thread == was[a].thread
  {
    assert a in entry.Keys && entry[a] == entry[a];
  }

  /** Everything about the manager that a caller can tell, and what has happened so far. */
  datatype Snapshot = Snapshot(
    state: State, tls: map<nat, int>, locked: bool, ended: set<nat>, account: Account, log: seq<Event>, nullCalls: nat)

  function Product(m: nat, n: nat): nat { m * n }

  lemma ProductStep(m: nat, n: nat)
    ensures Product(m, n + 1) == Product(m, n) + m && Product(m, 0) == 0
  {}

  // ----- the operations

  /** What a caller gets: the storage array itself for id zero, else a cell. */
  datatype Fetched = Array(entry: int) | Cell(cell: int)

  ghost predicate Owns(s: State, thread: nat, a: int) {
    && |s.table| > 0 && a in s.entry && s.entry[a].thread == thread && a in s.table[HashOf(thread, |s.table|)]
  }

  function ReadAt(s: State, a: int, id: nat): Fetched
    requires a in s.entry && id <= |s.entry[a].storage|
  {
    if id == 0 then Array(a) else Cell(s.entry[a].storage[id - 1])
  }

  /** What a fetch returns is right: the caller's own array, or the cell made for that id in it, and null exactly if
      the id has been released. */
  ghost predicate RightFor(s: State, k: Account, self: nat, id: nat, r: Fetched) {
    match r
    case Array(a) => id == 0 && Owns(s, self, a)
    case Cell(c) =>
      && 1 <= id <= |s.types| && (c == NULL <==> s.types[id - 1].done)
      && (c != NULL ==> c in k.made && c !in k.freed && k.made[c].id == id - 1 && Owns(s, self, k.made[c].entry))
  }

  lemma ReadRight(s: State, k: Account, self: nat, a: int, id: nat)
    requires Sound(s, k) && Owns(s, self, a) && id <= |s.entry[a].storage|
    ensures RightFor(s, k, self, id, ReadAt(s, a, id))
  {
    assert EntryOK(s, Settled(s), a);
    if id > 0 {
      var c := s.entry[a].storage[id - 1];
      assert PlaceOK(s, k, a, id - 1);
      if c != NULL { assert CellOK(s, k, c); }
    }
  }

  /** The fast path and the locked lookup cannot differ: a thread has one entry. */
  lemma OneEntry(s: State, k: Account, thread: nat, a: int, b: int)
    requires Sound(s, k) && Owns(s, thread, a) && Owns(s, thread, b)
    ensures a == b
  {}

  class Manager {
    var table: seq<seq<int>>
    var entry: map<int, Entry>
    var types: seq<Type>
    var tls: map<nat, int>
    var locked: bool
    var next: int
    /** Threads whose entries a sweep has freed: they make no more calls. */
    var ended: set<nat>
    ghost var account: Account
    ghost var log: seq<Event>
    ghost var nullCalls: nat

    ghost function Now(): State
      reads this
    {
      State(table, entry, types)
    }

    /** Addresses handed out so far are below `next`, and a thread's pointer leads to its own entry. */
    ghost predicate Bounded()
      reads this
    {
      && next > 0
      && (forall a {:trigger entry[a]} :: a in entry ==> a < next)
      && (forall c :: c in account.made ==> c < next)
    }

    ghost predicate Logged()
      reads this
    {
      History(log, account)
    }

    ghost function Snap(): Snapshot
      reads this
    {
      Snapshot(Now(), tls, locked, ended, account, log, nullCalls)
    }

    ghost predicate TlsOK()
      reads this
    {
      forall t {:trigger tls[t]} :: t in tls && t !in ended ==> tls[t] in entry && entry[tls[t]].thread == t
    }

    ghost predicate Valid()
      reads this
    {
      Sound(Now(), account) && Bounded() && Logged() && TlsOK() && !locked
    }

    /** `tsrm_startup` */
    constructor (threads: nat)
      requires threads > 0
      ensures Valid() && entry == map[] && types == [] && account == Account(map[], {}, {}) && |table| == threads &&
        nullCalls == 0 && log == [] && tls == map[] && ended == {}
    {
      table, entry, types, tls := seq(threads, _ => []), map[], [], map[];
      locked, next := false, 1;
      account, log, ended, nullCalls := Account(map[], {}, {}), [], {}, 0;
    }

    method Lock()
      requires !locked
      modifies this`locked
      ensures locked
    {
      locked := true;
    }

    method Unlock()
      requires locked
      modifies this`locked
      ensures !locked
    {
      locked := false;
    }

    /** The walk along a chain. */
    method Find(h: nat, thread: nat) returns (j: nat)
      requires h < |table| && Entries(Now(), h)
      ensures j <= |table[h]| && (j < |table[h]| ==> table[h][j] in entry && entry[table[h][j]].thread == thread)
      ensures j == |table[h]| ==> forall l {:trigger table[h][l]} :: 0 <= l < |table[h]| ==>
        table[h][l] in entry && entry[table[h][l]].thread != thread
    {
      j := 0;
      while j < |table[h]|
        invariant 0 <= j <= |table[h]|
        invariant forall l {:trigger table[h][l]} :: 0 <= l < j ==>
          table[h][l] in entry && entry[table[h][l]].thread != thread
      {
        if entry[table[h][j]].thread == thread {
          return;
        }
        j := j + 1;
      }
    }

    /** `allocate_new_resource`: an entry at the end of the thread's chain with a cell for every id that is not
        released. The mutex, held on entry, is given back. */
    method AllocateNew(self: nat)
      requires Sound(Now(), account) && Bounded() && Logged() && TlsOK() && locked && self !in ended
      requires forall b {:trigger entry[b]} :: b in entry ==> entry[b].thread != self
      modifies this
      ensures Valid() && types == old(types) && ended == old(ended) && nullCalls == old(nullCalls)
      ensures account.freed == old(account.freed) && account.destroyed == old(account.destroyed)
      ensures forall a :: a in old(entry) ==> a in entry && entry[a] == old(entry[a])
      ensures HasEntry(Now(), self) && |table| == old(|table|)
      ensures self in tls && tls == old(tls)[self := tls[self]]
      ensures forall a :: a in entry && a !in old(entry) ==> entry[a].thread == self
      ensures old(log) <= log
    {
      hide Inv, History, TableOK, CellsFor, HashOf;
      TableFacts(Now(), account);
      var a := next;
      var c: seq<int>;
      ghost var cells;
      c, cells := Construct(a);
      Enter(self, a, c, cells);
      Unlock();
    }

    /** The new entry at the end of its chain, and the thread's pointer to it. */
    method Enter(self: nat, a: int, c: seq<int>, ghost cells: map<int, Home>)
      requires Sound(Now(), account) && Bounded() && TlsOK() && |table| > 0
      requires forall b {:trigger entry[b]} :: b in entry ==> entry[b].thread != self
      requires a < next && a !in entry && a != NULL && |c| == |types|
      requires forall i {:trigger c[i]} :: 0 <= i < |c| ==> (c[i] == NULL <==> types[i].done)
      requires CellsFor(cells, a, c) && cells.Keys !! account.made.Keys && forall d {:trigger cells[d]} :: d in cells ==> d < next
      modifies this`table, this`entry, this`tls, this`account
      ensures Sound(Now(), account) && Bounded() && TlsOK() && HasEntry(Now(), self) && |table| == old(|table|)
      ensures tls == old(tls)[self := a]
      ensures entry == old(entry)[a := Entry(self, c)] && account == old(account.(made := account.made + cells))
    {
      hide Inv, TableOK, CellsFor, HashOf;
      ghost var s, k, e := Now(), account, Entry(self, c);
      AddedOK(s, k, a, e, cells);
      var h := HashOf(self, |table|);
      table := table[h := table[h] + [a]];
      entry := entry[a := Entry(self, c)];
      tls := tls[self := a];
      account := account.(made := account.made + cells);
      OwnFacts(Now(), account, a);
    }

    method Construct(a: int) returns (c: seq<int>, ghost cells: map<int, Home>)
      requires Sound(Now(), account) && Bounded() && Logged() && a == next
      modifies this`next, this`log
      ensures Bounded() && a < next && a !in entry && a != NULL
      ensures |c| == |types| && forall i {:trigger c[i]} :: 0 <= i < |c| ==> (c[i] == NULL <==> types[i].done)
      ensures CellsFor(cells, a, c) && cells.Keys !! account.made.Keys && forall d {:trigger cells[d]} :: d in cells ==> d < next
      ensures History(log, account.(made := account.made + cells))
      ensures old(log) <= log
    {
      hide Inv, History;
      next := next + 1;
      c, cells := [], map[];
      assert account.made + cells == account.made;
      var i := 0;
      while i < |types|
        invariant 0 <= i <= |types| && |c| == i && next > a
        invariant forall l {:trigger c[l]} :: 0 <= l < i ==> (c[l] == NULL <==> types[l].done)
        invariant CellsFor(cells, a, c) && forall d {:trigger cells[d]} :: d in cells ==> a < d < next
        invariant old(log) <= log && History(log, account.(made := account.made + cells))
      {
        if types[i].done {
          c := c + [NULL];
        } else {
          c := c + [next];
          MadeGrows(log, account.(made := account.made + cells), next, Home(a, i));
          log := log + [Made(next, Home(a, i))];
          assert (account.made + cells)[next := Home(a, i)] == account.made + cells[next := Home(a, i)];
          cells := cells[next := Home(a, i)];
          next := next + 1;
        }
        i := i + 1;
      }
      forall d | d in cells ensures d !in account.made { assert cells[d] == cells[d]; }
    }

    /** `ts_allocate_id`: a new resource type, and a cell of it for every thread that has an entry. */
    method AllocateId(hasDtor: bool) returns (id: nat)
      requires Valid()
      modifies this
      ensures Valid() && types == old(types) + [Type(hasDtor, false)] && id == |types|
      ensures table == old(table) && tls == old(tls) && ended == old(ended) && nullCalls == old(nullCalls)
      ensures account.freed == old(account.freed) && account.destroyed == old(account.destroyed)
      ensures entry.Keys == old(entry.Keys) && Progress(old(entry), entry, entry.Keys)
      ensures old(log) <= log
    {
      hide Inv, History, TableOK, Progress;
      Lock();
      NewTypeOK(Now(), account, Type(hasDtor, false));
      types := types + [Type(hasDtor, false)];
      id := |types|;
      ghost var x := Phase({}, -1, {});
      var i := 0;
      ProgressNone(entry);
      while i < |table|
        invariant table == old(table) && 0 <= i <= |table| && x == Phase(Before(table, i), -1, {}) &&
          Inv(Now(), account, x)
        invariant types == old(types) + [Type(hasDtor, false)] && locked && Bounded() && Logged() && tls == old(tls) &&
          ended == old(ended) && nullCalls == old(nullCalls)
        invariant account.freed == old(account.freed) && account.destroyed == old(account.destroyed) && old(log) <= log
        invariant entry.Keys == old(entry.Keys) && Progress(old(entry), entry, x.grown)
      {
        x := GrowChain(old(entry), i, x);
        i := i + 1;
      }
      PhaseTable(Now(), account, x);
      AllMet(Now());
      AllGrown(Now(), account, x);
      TlsKept(tls, ended, old(entry), entry);
      Unlock();
    }

    method GrowChain(ghost was: map<int, Entry>, i: nat, ghost x: Phase) returns (ghost y: Phase)
      requires i < |table| && x == Phase(Before(table, i), -1, {}) && Inv(Now(), account, x) && Bounded() && Logged()
      requires types != [] && !types[|types| - 1].done && Progress(was, entry, x.grown)
      modifies this`entry, this`next, this`account, this`log
      ensures y == Phase(Before(table, i + 1), -1, {}) && Inv(Now(), account, y) && Bounded() && Logged()
      ensures account.freed == old(account.freed) && account.destroyed == old(account.destroyed)
      ensures entry.Keys == old(entry.Keys) && Progress(was, entry, y.grown)
      ensures old(log) <= log
    {
      hide Inv, History, TableOK, Progress;
      y := x;
      var j := 0;
      WholeChain(table[i]);
      while j < |table[i]|
        invariant 0 <= j <= |table[i]| && y == Phase(Before(table, i) + Elems(table[i][..j]), -1, {}) &&
          Inv(Now(), account, y) && Bounded() && Logged()
        invariant account.freed == old(account.freed) && account.destroyed == old(account.destroyed) && old(log) <= log
        invariant entry.Keys == old(entry.Keys) && Progress(was, entry, y.grown)
      {
        PhaseTable(Now(), account, y);
        NotMet(Now(), i, j);
        ghost var e := entry;
        ExtendEntry(table[i][j], y);
        ProgressOne(was, e, entry, y.grown, table[i][j]);
        y := y.(grown := y.grown + {table[i][j]});
        j := j + 1;
      }
    }

    /** One more cell for entry `a`. */
    method ExtendEntry(a: int, ghost x: Phase)
      requires Inv(Now(), account, x) && a in entry && a !in x.grown && x.cleared == {} && types != [] &&
        !types[|types| - 1].done && Bounded() && Logged()
      modifies this`entry, this`next, this`account, this`log
      ensures Inv(Now(), account, x.(grown := x.grown + {a})) && Bounded() && Logged()
      ensures a in old(entry) && entry == old(entry)[a := entry[a]] && Extended(old(entry[a]), entry[a])
      ensures account.freed == old(account.freed) && account.destroyed == old(account.destroyed)
      ensures old(log) <= log
    {
      hide Inv, History;
      GrownOK(Now(), account, x, a, next);
      MadeGrows(log, account, next, Home(a, |types| - 1));
      log := log + [Made(next, Home(a, |types| - 1))];
      entry := entry[a := entry[a].(storage := entry[a].storage + [next])];
      account := account.(made := account.made[next := Home(a, |types| - 1)]);
      next := next + 1;
    }

    /** A destructor called on a cell of type `j`: at most once on each cell, and before it is freed. */
    method CallDtor(j: nat, c: int)
      requires j < |types| && types[j].hasDtor && Logged()
      requires c != NULL ==>
        c in account.made && account.made[c].id == j && c !in account.destroyed && c !in account.freed
      modifies this`account, this`log, this`nullCalls
      ensures account == old(account).(destroyed := old(account.destroyed) + (if c != NULL then {c} else {}))
      ensures nullCalls == old(nullCalls) + if c == NULL then 1 else 0
      ensures log == old(log) + (if c != NULL then [Destroyed(c)] else []) && Logged()
    {
      hide History;
      if c != NULL {
        DestroyedGrows(log, account, c);
        log := log + [Destroyed(c)];
        account := account.(destroyed := account.destroyed + {c});
      } else {
        nullCalls := nullCalls + 1;
      }
    }

    /** `free`: at most once on each cell. */
    method FreeCell(c: int)
      requires c != NULL ==> c in account.made && c !in account.freed
      requires Logged()
      modifies this`account, this`log
      ensures account == old(account).(freed := old(account.freed) + (if c != NULL then {c} else {}))
      ensures log == old(log) + (if c != NULL then [Freed(c)] else []) && Logged()
    {
      hide History;
      if c != NULL {
        FreedGrows(log, account, c);
        log := log + [Freed(c)];
        account := account.(freed := account.freed + {c});
      }
    }

    /** `ts_free_id`: the cells of that id are released in every thread, and later threads get none. */
    method FreeId(id: nat)
      requires Valid() && 1 <= id <= |types|
      modifies this
      ensures Valid() && types == old(types)[id - 1 := old(types)[id - 1].(done := true)]
      ensures table == old(table) && tls == old(tls) && ended == old(ended) && nullCalls == old(nullCalls) &&
        account.made == old(account.made)
      ensures entry.Keys == old(entry.Keys) && Without1(old(entry), entry, id - 1, entry.Keys)
      ensures old(log) <= log
    {
      hide Inv, History, TableOK, Without1;
      var j := id - 1;
      Lock();
      StartClearing(Now(), account, j);
      ghost var x := Phase(entry.Keys, j, {});
      var i := 0;
      ClearedNone(entry, j);
      while i < |table|
        invariant table == old(table) && 0 <= i <= |table| && x == Phase(entry.Keys, j, Before(table, i)) &&
          Inv(Now(), account, x)
        invariant types == old(types) && locked && Bounded() && Logged() && tls == old(tls) && ended == old(ended) &&
          nullCalls == old(nullCalls)
        invariant account.made == old(account.made) && entry.Keys == old(entry.Keys) && old(log) <= log &&
          Without1(old(entry), entry, j, x.cleared)
      {
        x := ClearChain(old(entry), i, j, x);
        i := i + 1;
      }
      PhaseTable(Now(), account, x);
      AllMet(Now());
      DoneOK(Now(), account, j);
      types := types[j := types[j].(done := true)];
      TlsCleared(tls, ended, old(entry), entry, j);
      Unlock();
    }

    method ClearChain(ghost was: map<int, Entry>, i: nat, j: nat, ghost x: Phase) returns (ghost y: Phase)
      requires i < |table| && j < |types| && x == Phase(entry.Keys, j, Before(table, i)) && Inv(Now(), account, x) &&
        Bounded() && Logged()
      requires Without1(was, entry, j, x.cleared)
      modifies this`entry, this`account, this`log, this`nullCalls
      ensures y == Phase(entry.Keys, j, Before(table, i + 1)) && Inv(Now(), account, y) && Bounded() && Logged()
      ensures account.made == old(account.made) && nullCalls == old(nullCalls)
      ensures entry.Keys == old(entry.Keys) && Without1(was, entry, j, y.cleared)
      ensures old(log) <= log
    {
      hide Inv, History, TableOK, Without1;
      y := x;
      var l := 0;
      WholeChain(table[i]);
      while l < |table[i]|
        invariant 0 <= l <= |table[i]| && y == Phase(entry.Keys, j, Before(table, i) + Elems(table[i][..l])) &&
          Inv(Now(), account, y) && Bounded() && Logged()
        invariant account.made == old(account.made) && nullCalls == old(nullCalls) && old(log) <= log
        invariant entry.Keys == old(entry.Keys) && Without1(was, entry, j, y.cleared)
      {
        PhaseTable(Now(), account, y);
        NotMet(Now(), i, l);
        ClearEntry(was, table[i][l], j, y);
        y := y.(cleared := y.cleared + {table[i][l]});
        l := l + 1;
      }
    }

    method ClearEntry(ghost was: map<int, Entry>, a: int, j: nat, ghost x: Phase)
      requires Inv(Now(), account, x) && a in entry && j < |types| && x.id == j && x.grown == entry.Keys &&
        a !in x.cleared && Bounded() && Logged()
      requires Without1(was, entry, j, x.cleared)
      modifies this`entry, this`account, this`log, this`nullCalls
      ensures Inv(Now(), account, x.(cleared := x.cleared + {a})) && Bounded() && Logged()
      ensures account.made == old(account.made) && nullCalls == old(nullCalls)
      ensures entry.Keys == old(entry.Keys) && Without1(was, entry, j, x.cleared + {a})
      ensures old(log) <= log
    {
      hide Inv, History, Without1;
      ghost var s, k := Now(), account;
      ClearFacts(s, k, x, a, j);
      ClearedOne(was, entry, j, x.cleared, a);
      var c := entry[a].storage[j];
      if c != NULL {
        ClearedOK(s, k, x, a, j);
        if types[j].hasDtor {
          CallDtor(j, c);
        }
        FreeCell(c);
        entry := entry[a := entry[a].(storage := entry[a].storage[j := NULL])];
        assert account == Released(k, c, types[j].hasDtor);
      } else {
        SkippedOK(s, k, x, a);
      }
    }

    /** The cells of an entry released: the destructors first, and they are called for missing cells too. */
    method ReleaseStorage(a: int)
      requires Sound(Now(), account) && a in entry && Logged()
      modifies this`account, this`log, this`nullCalls
      ensures |entry[a].storage| <= |types| && account == Emptied(Now(), old(account), a)
      ensures nullCalls == old(nullCalls) + NullCalls(types, |types|)
      ensures ReleasedInOrder(entry[a].storage, types, old(log), log) && old(log) <= log && Logged()
    {
      hide Inv, History;
      ghost var k := account;
      StorageLength(Now(), k, a);
      CallDtors(a);
      FreeCells(k, a);
    }

    method CallDtors(a: int)
      requires Sound(Now(), account) && a in entry && |entry[a].storage| == |types| && Logged()
      modifies this`account, this`log, this`nullCalls
      ensures account == old(account).(destroyed := old(account).destroyed + DtorCells(entry[a].storage, types, |types|))
      ensures nullCalls == old(nullCalls) + NullCalls(types, |types|)
      ensures log == old(log) + DtorEvents(entry[a].storage, types, |types|) && Logged()
    {
      hide Inv, History;
      ghost var s, k := Now(), account;
      var c := entry[a].storage;
      var i := 0;
      while i < |c|
        invariant 0 <= i <= |c| && account == k.(destroyed := k.destroyed + DtorCells(c, types, i))
        invariant log == old(log) + DtorEvents(c, types, i) && Logged()
        invariant nullCalls == old(nullCalls) + NullCalls(types, i)
      {
        CellFacts(s, k, a, i);
        if types[i].hasDtor {
          CallDtor(i, c[i]);
        }
        i := i + 1;
      }
    }

    method FreeCells(ghost k: Account, a: int)
      requires Sound(Now(), k) && a in entry && |entry[a].storage| == |types| &&
        account == k.(destroyed := account.destroyed) && Logged()
      modifies this`account, this`log
      ensures account == old(account).(freed := k.freed + Cells(entry[a].storage, |types|))
      ensures log == old(log) + FreeEvents(entry[a].storage, |types|) && Logged()
    {
      hide Inv, History;
      ghost var s := Now();
      var c := entry[a].storage;
      var i := 0;
      while i < |c|
        invariant 0 <= i <= |c| && account == old(account).(freed := k.freed + Cells(c, i))
        invariant log == old(log) + FreeEvents(c, i) && Logged()
      {
        CellFacts(s, k, a, i);
        FreeCell(c[i]);
        i := i + 1;
      }
    }

    /** The same at shutdown: cell by cell, and only where there is one. */
    method ReleaseChecked(a: int)
      requires Sound(Now(), account) && a in entry && Logged()
      modifies this`account, this`log, this`nullCalls
      ensures |entry[a].storage| <= |types| && account == Emptied(Now(), old(account), a) && nullCalls == old(nullCalls)
      ensures old(log) <= log && Logged()
    {
      hide Inv, History;
      ghost var s, k := Now(), account;
      StorageLength(s, k, a);
      var c := entry[a].storage;
      var i := 0;
      while i < |c|
        invariant 0 <= i <= |c| && nullCalls == old(nullCalls)
        invariant account == k.(destroyed := k.destroyed + DtorCells(c, types, i), freed := k.freed + Cells(c, i))
        invariant old(log) <= log && Logged()
      {
        CellFacts(s, k, a, i);
        if c[i] != NULL {
          if !types[i].done && types[i].hasDtor {
            CallDtor(i, c[i]);
          }
          FreeCell(c[i]);
        }
        i := i + 1;
      }
    }

    /** The entry at place `j` of chain `h` unlinked and freed, its cells having been released. */
    method Unlink(ghost k: Account, h: nat, j: nat)
      requires h < |table| && j < |table[h]| && table[h][j] in entry && |entry[table[h][j]].storage| <= |types|
      requires Sound(Now(), k) && account == Emptied(Now(), k, table[h][j]) && Bounded() && Logged()
      modifies this`table, this`entry
      ensures Sound(Now(), account) && Bounded() && Logged()
      ensures entry == old(entry) - {old(table[h][j])} && table == old(table)[h := Without(old(table[h]), j)]
    {
      hide Inv, History;
      RemovedOK(Now(), k, h, j);
      var a := table[h][j];
      table := table[h := Without(table[h], j)];
      entry := entry - {a};
    }

    /** `ts_free_thread`: the calling thread's entry and its cells. */
    method FreeThread(self: nat)
      requires Valid() && self !in ended
      modifies this
      ensures Valid() && !HasEntry(Now(), self) && types == old(types) && ended == old(ended) &&
        tls == old(tls) - {self}
      ensures forall a :: a in entry <==> a in old(entry) && old(entry[a]).thread != self
      ensures forall a :: a in entry ==> entry[a] == old(entry[a])
      ensures nullCalls == old(nullCalls) + if HasEntry(old(Now()), self) then NullCalls(types, |types|) else 0
      ensures account.made == old(account.made)
      ensures old(log) <= log
      ensures forall a :: Owns(old(Now()), self, a) ==>
        ReleasedInOrder(old(entry[a]).storage, types, old(log), log)
      ensures !HasEntry(old(Now()), self) ==> log == old(log)
    {
      hide Inv, History, TableOK, NullCalls, HashOf, Without, ReleasedInOrder;
      Lock();
      TableFacts(Now(), account);
      var h := HashOf(self, |table|);
      var j := Find(h, self);
      if j < |table[h]| {
        ghost var s, k := Now(), account;
        var a := table[h][j];
        OwnFacts(s, k, a);
        OnlyOwn(s, k, self, a);
        ReleaseStorage(a);
        Unlink(k, h, j);
        tls := tls - {self};
        GoneFrom(Now(), account, self);
      } else {
        NoEntry(Now(), account, self);
        NoPointer(tls, ended, entry, self);
      }
      Unlock();
    }

    /** `ts_free_worker_threads`: every other entry in the caller's chain, and no other. The threads they
        belong to are taken to have ended. */
    method FreeWorkers(self: nat)
      requires Valid() && self !in ended
      modifies this
      ensures Valid() && types == old(types) && tls == old(tls) && |table| == old(|table|) && |table| > 0 &&
        self !in ended
      ensures SweptFor(old(Snap()), Snap(), self) && old(log) <= log
    {
      hide Inv, TableOK, History, Sweeping, SweptFor, Product, NullCalls, Swept;
      Lock();
      ghost var s := Snap();
      SweepBucket(self);
      SweptUnlocked(s, Snap(), self);
      Unlock();
    }

    method SweepBucket(self: nat)
      requires Sound(Now(), account) && Bounded() && Logged() && TlsOK() && self !in ended
      modifies this`table, this`entry, this`account, this`log, this`nullCalls, this`ended
      ensures Sound(Now(), account) && Bounded() && Logged() && TlsOK() && self !in ended
      ensures |table| == old(|table|) && |table| > 0
      ensures SweptFor(old(Snap()), Snap(), self) && old(log) <= log
    {
      hide Inv, TableOK, History, Sweeping, SweptFor, Product, NullCalls, Swept;
      ghost var s := Snap();
      TableFacts(Now(), account);
      var h := HashOf(self, |table|);
      var j := 0;
      StartSweeping(s);
      while j < |table[h]|
        invariant |table| == old(|table|) && h == HashOf(self, |table|) && 0 <= j <= |table[h]| &&
          old(log) <= log && self !in ended
        invariant Sound(Now(), account) && Bounded() && Logged() && TlsOK() && Entries(Now(), h)
        invariant Sweeping(s, Snap(), self)
        invariant forall l :: 0 <= l < j ==> table[h][l] in entry && entry[table[h][l]].thread == self
        decreases |table[h]| - j
      {
        var a := table[h][j];
        if entry[a].thread != self {
          ghost var t := Snap();
          SweepAt(h, j);
          SweepingMore(s, t, Snap(), self, a);
        } else {
          j := j + 1;
        }
      }
      OnlySelf(Now(), account, h, self);
      AllSwept(s, Snap(), self);
    }

    method SweepAt(h: nat, j: nat)
      requires h < |table| && j < |table[h]| && Sound(Now(), account) && Bounded() && Logged() && TlsOK()
      modifies this`table, this`entry, this`account, this`log, this`nullCalls, this`ended
      ensures Sound(Now(), account) && Bounded() && Logged() && TlsOK() && old(table[h][j]) in old(entry)
      ensures entry == old(entry) - {old(table[h][j])} && table == old(table)[h := Without(old(table[h]), j)] &&
        Entries(Now(), h)
      ensures ended == old(ended) + {old(entry[table[h][j]].thread)} &&
        HashOf(old(entry[table[h][j]].thread), |table|) == h
      ensures account.made == old(account.made) && nullCalls == old(nullCalls) + NullCalls(types, |types|)
      ensures |entry| == |old(entry)| - 1
      ensures ReleasedInOrder(old(entry[table[h][j]].storage), types, old(log), log)
    {
      hide Inv, History, TableOK;
      ghost var k := account;
      InChain(Now(), k, h, j);
      var t := entry[table[h][j]].thread;
      ReleaseStorage(table[h][j]);
      Unlink(k, h, j);
      ended := ended + {t};
      TableFacts(Now(), account);
    }

    /** `tsrm_shutdown`: everything is released; every cell ever made is freed, and has been destroyed if its
        type has a destructor. */
    method Shutdown()
      requires Valid()
      modifies this
      ensures entry == map[] && account.freed == account.made.Keys && account.made == old(account.made) &&
        nullCalls == old(nullCalls) && Logged()
      ensures types == old(types)
      ensures forall c {:trigger account.made[c]} :: c in account.made ==>
        account.made[c].id < |types| && (c in account.destroyed <==> types[account.made[c].id].hasDtor)
      ensures old(log) <= log
    {
      hide Inv, History, TableOK;
      var i := 0;
      while i < |table|
        invariant 0 <= i <= |table| == old(|table|) && Sound(Now(), account) && Bounded() && Logged() &&
          types == old(types)
        invariant account.made == old(account.made) && nullCalls == old(nullCalls) && old(log) <= log
        invariant forall l :: 0 <= l < i ==> table[l] == []
      {
        while table[i] != []
          invariant i < |table| == old(|table|) && Sound(Now(), account) && Bounded() && Logged() && types == old(types)
          invariant account.made == old(account.made) && nullCalls == old(nullCalls) && old(log) <= log
          invariant forall l :: 0 <= l < i ==> table[l] == []
          decreases |table[i]|
        {
          TableFacts(Now(), account);
          assert Entries(Now(), i);
          ghost var k := account;
          ReleaseChecked(table[i][0]);
          Unlink(k, i, 0);
        }
        i := i + 1;
      }
      AllReleased(Now(), account);
    }

    /** `ts_resource_ex` for the calling thread. */
    method Resource(self: nat, id: nat) returns (r: Fetched)
      requires Valid() && self !in ended && id <= |types|
      modifies this
      ensures Valid() && types == old(types) && ended == old(ended) && nullCalls == old(nullCalls)
      ensures account.freed == old(account.freed) && account.destroyed == old(account.destroyed)
      ensures forall a :: a in old(entry) ==> a in entry && entry[a] == old(entry[a])
      ensures HasEntry(Now(), self) && |table| == old(|table|)
      ensures exists a :: Owns(Now(), self, a) && id <= |entry[a].storage| && r == ReadAt(Now(), a, id)
      ensures RightFor(Now(), account, self, id, r)
      ensures HasEntry(old(Now()), self) ==> Snap() == old(Snap())
      ensures !HasEntry(old(Now()), self) ==> self in tls && tls == old(tls)[self := tls[self]]
      ensures forall a :: a in entry && a !in old(entry) ==> entry[a].thread == self
      ensures old(log) <= log
    {
      hide Inv, History;
      if self in tls {
        OwnFacts(Now(), account, tls[self]);
        ReadRight(Now(), account, self, tls[self], id);
        return ReadAt(State(table, entry, types), tls[self], id);
      }
      r := LockedResource(self, id);
    }

    /** The slow path: under the mutex, and with an entry made for a thread that has none. */
    method LockedResource(self: nat, id: nat) returns (r: Fetched)
      requires Valid() && self !in ended && id <= |types|
      modifies this
      ensures Valid() && types == old(types) && ended == old(ended) && nullCalls == old(nullCalls)
      ensures account.freed == old(account.freed) && account.destroyed == old(account.destroyed)
      ensures forall a :: a in old(entry) ==> a in entry && entry[a] == old(entry[a])
      ensures HasEntry(Now(), self) && |table| == old(|table|)
      ensures exists a :: Owns(Now(), self, a) && id <= |entry[a].storage| && r == ReadAt(Now(), a, id)
      ensures RightFor(Now(), account, self, id, r)
      ensures HasEntry(old(Now()), self) ==> Snap() == old(Snap())
      ensures !HasEntry(old(Now()), self) ==> self in tls && tls == old(tls)[self := tls[self]]
      ensures forall a :: a in entry && a !in old(entry) ==> entry[a].thread == self
      decreases if HasEntry(Now(), self) then 0 else 1
      ensures old(log) <= log
    {
      hide Inv, History;
      Lock();
      TableFacts(Now(), account);
      var h := HashOf(self, |table|);
      var j := Find(h, self);
      if j == |table[h]| {
        NoEntry(Now(), account, self);
        AllocateNew(self);
        r := LockedResource(self, id);
        return;
      }
      var a := table[h][j];
      OwnFacts(Now(), account, a);
      ReadRight(Now(), account, self, a, id);
      Unlock();
      r := ReadAt(State(table, entry, types), a, id);
    }
  }

  lemma PhaseTable(s: State, k: Account, x: Phase)
    requires Inv(s, k, x)
    ensures TableOK(s)
  {}

  lemma StartClearing(s: State, k: Account, j: nat)
    requires Sound(s, k)
    ensures Inv(s, k, Phase(s.entry.Keys, j, {}))
  {
    forall a | a in s.entry ensures EntryOK(s, Phase(s.entry.Keys, j, {}), a) { assert EntryOK(s, Settled(s), a); }
  }

  /** An entry without a cell of a type that is already released. */
  lemma SkippedOK(s: State, k: Account, x: Phase, a: int)
    requires Inv(s, k, x) && a in s.entry && 0 <= x.id < |s.entry[a].storage| && s.entry[a].storage[x.id] == NULL
    ensures Inv(s, k, x.(cleared := x.cleared + {a}))
  {
    var y := x.(cleared := x.cleared + {a});
    forall b | b in s.entry ensures EntryOK(s, y, b) { assert EntryOK(s, x, b); }
  }

  lemma ClearFacts(s: State, k: Account, x: Phase, a: int, j: nat)
    requires Inv(s, k, x) && a in s.entry && a in x.grown && j < |s.types|
    ensures |s.entry[a].storage| == |s.types|
    ensures var c := s.entry[a].storage[j]; c != NULL ==>
      c in k.made && k.made[c].id == j && c !in k.freed && c !in k.destroyed
  {
    assert EntryOK(s, x, a) && PlaceOK(s, k, a, j);
    var c := s.entry[a].storage[j];
    if c != NULL { assert CellOK(s, k, c); }
  }

  lemma AllGrown(s: State, k: Account, x: Phase)
    requires Inv(s, k, x) && x.grown == s.entry.Keys && x.id == -1 && x.cleared == {}
    ensures Sound(s, k)
  {
    assert x == Settled(s);
  }

  lemma OnlyOwn(s: State, k: Account, thread: nat, a: int)
    requires Sound(s, k) && Owns(s, thread, a)
    ensures HasEntry(s, thread) && forall b :: b in s.entry && s.entry[b].thread == thread ==> b == a
  {}

  lemma GoneFrom(s: State, k: Account, thread: nat)
    requires Sound(s, k) && forall b :: b in s.entry ==> s.entry[b].thread != thread
    ensures !HasEntry(s, thread)
  {}

  lemma NoPointer(tls: map<nat, int>, ended: set<nat>, entry: map<int, Entry>, thread: nat)
    requires forall t {:trigger tls[t]} :: t in tls && t !in ended ==> tls[t] in entry && entry[tls[t]].thread == t
    requires thread !in ended && forall b {:trigger entry[b]} :: b in entry ==> entry[b].thread != thread
    ensures tls - {thread} == tls
  {
    if thread in tls { PointsElsewhere(entry, tls[thread], thread); }
  }

  lemma PointsElsewhere(entry: map<int, Entry>, a: int, thread: nat)
    requires a in entry && forall b {:trigger entry[b]} :: b in entry ==> entry[b].thread != thread
    ensures entry[a].thread != thread
  {}

  /** What has been swept so far: entries of other threads in the caller's bucket. Each of them costs a
      destructor call on null for each released type that has a destructor. */
  ghost predicate Sweeping(s: Snapshot, t: Snapshot, self: nat) {
    var was, entry, n := s.state.entry, t.state.entry, |s.state.table|;
    && n > 0 && n == |t.state.table| && t.state.types == s.state.types && t.account.made == s.account.made
    && (forall a {:trigger entry[a]} :: a in entry ==> a in was && entry[a] == was[a])
    && (forall a {:trigger was[a]} :: a in was && a !in entry ==>
      was[a].thread != self && HashOf(was[a].thread, n) == HashOf(self, n))
    && s.ended <= t.ended && (forall x :: x in t.ended && x !in s.ended ==> Swept(was, entry, x))
    && (forall a {:trigger was[a]} :: a in was && a !in entry ==> was[a].thread in t.ended)
    && |entry| <= |was|
    && t.nullCalls == s.nullCalls + Product(NullCalls(s.state.types, |s.state.types|), |was| - |entry|)
  }

  /** The finished sweep: what is left is the caller's entry and the other buckets. */
  ghost predicate SweptFor(s: Snapshot, t: Snapshot, self: nat) {
    var was, entry, n := s.state.entry, t.state.entry, |s.state.table|;
    && Sweeping(s, t, self) && self !in t.ended
    && (forall a {:trigger was[a]} :: a in was ==>
          (a in entry <==> was[a].thread == self || HashOf(was[a].thread, n) != HashOf(self, n)))
  }

  lemma StartSweeping(s: Snapshot)
    requires |s.state.table| > 0
    ensures forall self {:trigger Sweeping(s, s, self)} :: Sweeping(s, s, self)
  {
    ProductStep(NullCalls(s.state.types, |s.state.types|), 0);
  }

  /** The sweep is the same seen from before the mutex is taken to after it is released. */
  lemma SweptUnlocked(s: Snapshot, t: Snapshot, self: nat)
    requires SweptFor(s, t, self)
    ensures SweptFor(s.(locked := false), t.(locked := false), self)
  {
    hide Product, NullCalls, Swept, HashOf;
  }

  lemma SweepingMore(s: Snapshot, t: Snapshot, u: Snapshot, self: nat, a: int)
    requires Sweeping(s, t, self) && a in t.state.entry && t.state.entry[a].thread != self
    requires |t.state.table| > 0 && HashOf(t.state.entry[a].thread, |t.state.table|) == HashOf(self, |t.state.table|)
    requires u.state.entry == t.state.entry - {a} && u.state.types == t.state.types &&
      |u.state.table| == |t.state.table|
    requires u.account.made == t.account.made && u.ended == t.ended + {t.state.entry[a].thread}
    requires |u.state.entry| == |t.state.entry| - 1
    requires u.nullCalls == t.nullCalls + NullCalls(t.state.types, |t.state.types|)
    ensures Sweeping(s, u, self)
  {
    hide Product, NullCalls, Swept, HashOf;
    var was, e, f := s.state.entry, t.state.entry, u.state.entry;
    assert e[a] == was[a];
    SweptMore(was, e, f, a);
    ProductStep(NullCalls(s.state.types, |s.state.types|), |was| - |e|);
    forall b {:trigger f[b]} | b in f ensures b in was && f[b] == was[b] { assert e[b] == f[b]; }
  }

  lemma AllSwept(s: Snapshot, t: Snapshot, self: nat)
    requires Sweeping(s, t, self) && self !in t.ended
    requires forall a :: a in t.state.entry && HashOf(t.state.entry[a].thread, |t.state.table|) == HashOf(self, |s.state.table|) ==>
      t.state.entry[a].thread == self
    ensures SweptFor(s, t, self)
  {
    hide Product, NullCalls, Swept;
    var was, entry := s.state.entry, t.state.entry;
    forall a {:trigger was[a]} | a in was
      ensures a in entry <==>
        was[a].thread == self || HashOf(was[a].thread, |s.state.table|) != HashOf(self, |s.state.table|)
    {
      if a in entry { assert entry[a] == was[a]; }
    }
  }

  /** A thread had an entry and has it no more. */
  ghost predicate Swept(was: map<int, Entry>, entry: map<int, Entry>, thread: nat) {
    exists a :: a in was && a !in entry && was[a].thread == thread
  }

  lemma SweptMore(was: map<int, Entry>, e: map<int, Entry>, f: map<int, Entry>, a: int)
    requires a in e && f == e - {a} && a in was && was[a] == e[a]
    ensures Swept(was, f, e[a].thread) && forall t :: Swept(was, e, t) ==> Swept(was, f, t)
  {}

  lemma InChain(s: State, k: Account, h: nat, j: nat)
    requires Sound(s, k) && h < |s.table| && j < |s.table[h]|
    ensures s.table[h][j] in s.entry && HashOf(s.entry[s.table[h][j]].thread, |s.table|) == h
    ensures forall b :: b in s.entry && s.entry[b].thread == s.entry[s.table[h][j]].thread ==> b == s.table[h][j]
  {
    var a := s.table[h][j];
    assert ChainOK(s, h) && a in s.table[h];
    forall b | b in s.entry && s.entry[b].thread == s.entry[a].thread ensures b == a {}
  }

  lemma OnlySelf(s: State, k: Account, h: nat, thread: nat)
    requires Sound(s, k) && h < |s.table|
    requires forall l :: 0 <= l < |s.table[h]| ==> s.table[h][l] in s.entry && s.entry[s.table[h][l]].thread == thread
    ensures forall a :: a in s.entry && HashOf(s.entry[a].thread, |s.table|) == h ==> s.entry[a].thread == thread
  {
    forall a | a in s.entry && HashOf(s.entry[a].thread, |s.table|) == h ensures s.entry[a].thread == thread {
      assert s.entry[a] == s.entry[a];
      var l :| 0 <= l < |s.table[h]| && s.table[h][l] == a;
    }
  }

  lemma AllReleased(s: State, k: Account)
    requires Sound(s, k) && forall l :: 0 <= l < |s.table| ==> s.table[l] == []
    ensures s.entry == map[] && k.freed == k.made.Keys
    ensures forall c {:trigger k.made[c]} :: c in k.made ==> k.made[c].id < |s.types| && (c in k.destroyed <==>
      s.types[k.made[c].id].hasDtor)
  {
    AllMet(s);
    BeforeEmpty(s.table, |s.table|);
    assert s.entry.Keys == {};
    forall c {:trigger k.made[c]} | c in k.made
      ensures c in k.freed && k.made[c].id < |s.types| && (c in k.destroyed <==> s.types[k.made[c].id].hasDtor)
    {
      assert CellOK(s, k, c);
    }
  }

  ghost predicate HasEntry(s: State, thread: nat) { exists a :: Owns(s, thread, a) }

  lemma OwnFacts(s: State, k: Account, a: int)
    requires Sound(s, k) && a in s.entry
    ensures Owns(s, s.entry[a].thread, a) && |s.entry[a].storage| == |s.types|
  {
    assert EntryOK(s, Settled(s), a);
  }

  lemma TableFacts(s: State, k: Account)
    requires Sound(s, k)
    ensures |s.table| > 0 && forall h {:trigger Entries(s, h)} :: 0 <= h < |s.table| ==> Entries(s, h)
  {
    forall h | 0 <= h < |s.table| ensures Entries(s, h) {
      assert ChainOK(s, h);
      forall l {:trigger s.table[h][l]} | 0 <= l < |s.table[h]| ensures s.table[h][l] in s.entry { assert s.table[h][l] in s.table[h]; }
    }
  }

  lemma NoEntry(s: State, k: Account, thread: nat)
    requires Sound(s, k)
    requires var h := HashOf(thread, |s.table|);
      forall l {:trigger s.table[h][l]} :: 0 <= l < |s.table[h]| ==>
        s.table[h][l] in s.entry && s.entry[s.table[h][l]].thread != thread
    ensures forall b {:trigger s.entry[b]} :: b in s.entry ==> s.entry[b].thread != thread
    ensures !HasEntry(s, thread)
  {}

  ghost predicate Entries(s: State, h: nat)
    requires h < |s.table|
  {
    forall l {:trigger s.table[h][l]} :: 0 <= l < |s.table[h]| ==> s.table[h][l] in s.entry
  }

  // ----- whole runs

  /** A call by a thread, on its own behalf. */
  datatype Op = OpResource(self: nat, id: nat) | OpAllocateId(hasDtor: bool) | OpFreeId(id: nat)
    | OpFreeThread(self: nat) | OpFreeWorkers(self: nat)

  /** What a call returns. */
  datatype Reply = Nothing | Got(fetched: Fetched) | Issued(id: nat)

  /** What a call does and returns, seen from outside. The mutex is free again, and every thread's pointer leads
      to its own entry. Calls of threads that have ended and ids never issued are passed over. */
  ghost predicate Step(s: Snapshot, op: Op, reply: Reply, t: Snapshot) {
    && Sound(t.state, t.account) && History(t.log, t.account) && s.log <= t.log && !t.locked && PointersOK(t)
    && match op
       case OpResource(self, id) =>
         if self in s.ended || id > |s.state.types| then t == s && reply == Nothing
         else Fetches(t, self, id, reply) && if HasEntry(s.state, self) then t == s else Joined(s, t, self)
       case OpAllocateId(hasDtor) => Enlarged(s, t, hasDtor) && reply == Issued(|t.state.types|)
       case OpFreeId(id) => reply == Nothing && if 1 <= id <= |s.state.types| then Withdrawn(s, t, id - 1) else t == s
       case OpFreeThread(self) => reply == Nothing && if self in s.ended then t == s else Left(s, t, self)
       case OpFreeWorkers(self) => reply == Nothing && if self in s.ended then t == s else SweptFor(s, t, self)
  }

  ghost predicate PointersOK(s: Snapshot) {
    forall t {:trigger s.tls[t]} :: t in s.tls && t !in s.ended ==>
      s.tls[t] in s.state.entry && s.state.entry[s.tls[t]].thread == t
  }

  /** The reply is read from the one entry of the thread, whichever path found it, and is the right one. */
  ghost predicate Fetches(s: Snapshot, self: nat, id: nat, reply: Reply) {
    && reply.Got? && RightFor(s.state, s.account, self, id, reply.fetched)
    && exists a :: Owns(s.state, self, a) && id <= |s.state.entry[a].storage| && reply == Got(ReadAt(s.state, a, id))
  }

  /** A thread without an entry has got one and a pointer to it; no cell is freed or destroyed. */
  ghost predicate Joined(s: Snapshot, t: Snapshot, self: nat) {
    && HasEntry(t.state, self) && t.state.types == s.state.types && t.ended == s.ended && t.nullCalls == s.nullCalls
    && self in t.tls && t.tls == s.tls[self := t.tls[self]]
    && t.account.freed == s.account.freed && t.account.destroyed == s.account.destroyed
    && (forall a :: a in s.state.entry ==> a in t.state.entry && t.state.entry[a] == s.state.entry[a])
    && (forall a :: a in t.state.entry && a !in s.state.entry ==> t.state.entry[a].thread == self)
  }

  /** A new type, and one new cell in every entry. */
  ghost predicate Enlarged(s: Snapshot, t: Snapshot, hasDtor: bool) {
    && t.state.types == s.state.types + [Type(hasDtor, false)] && t.state.table == s.state.table
    && t.tls == s.tls && t.ended == s.ended && t.nullCalls == s.nullCalls
    && t.account.freed == s.account.freed && t.account.destroyed == s.account.destroyed
    && t.state.entry.Keys == s.state.entry.Keys && Progress(s.state.entry, t.state.entry, t.state.entry.Keys)
  }

  /** A type is released: its cells, and only they, are gone. */
  ghost predicate Withdrawn(s: Snapshot, t: Snapshot, j: nat)
    requires j < |s.state.types|
  {
    && t.state.types == s.state.types[j := s.state.types[j].(done := true)] && t.state.table == s.state.table
    && t.tls == s.tls && t.ended == s.ended && t.nullCalls == s.nullCalls && t.account.made == s.account.made
    && t.state.entry.Keys == s.state.entry.Keys && Without1(s.state.entry, t.state.entry, j, t.state.entry.Keys)
  }

  /** A thread's entry is gone; destructors are called on null if it had one, once for each released type
      that has a destructor. */
  ghost predicate Left(s: Snapshot, t: Snapshot, self: nat) {
    && !HasEntry(t.state, self) && t.state.types == s.state.types && t.ended == s.ended && t.tls == s.tls - {self}
    && t.account.made == s.account.made
    && (forall a :: a in t.state.entry <==> a in s.state.entry && s.state.entry[a].thread != self)
    && (forall a :: a in t.state.entry ==> t.state.entry[a] == s.state.entry[a])
    && (forall a :: Owns(s.state, self, a) ==>
         ReleasedInOrder(s.state.entry[a].storage, s.state.types, s.log, t.log))
    && (!HasEntry(s.state, self) ==> t.log == s.log)
    && t.nullCalls == s.nullCalls +
         if HasEntry(s.state, self) then NullCalls(s.state.types, |s.state.types|) else 0
  }

  method Perform(m: Manager, op: Op) returns (reply: Reply)
    requires m.Valid()
    modifies m
    ensures m.Valid() && Step(old(m.Snap()), op, reply, m.Snap())
  {
    hide Sound, History, HasEntry, Progress, Without1, SweptFor, NullCalls, RightFor;
    reply := Nothing;
    match op {
      case OpResource(self, id) =>
        if self !in m.ended && id <= |m.types| {
          var r := m.Resource(self, id);
          reply := Got(r);
        }
      case OpAllocateId(hasDtor) =>
        var id := m.AllocateId(hasDtor);
        reply := Issued(id);
      case OpFreeId(id) =>
        if 1 <= id <= |m.types| {
          m.FreeId(id);
        }
      case OpFreeThread(self) =>
        if self !in m.ended {
          m.FreeThread(self);
        }
      case OpFreeWorkers(self) =>
        if self !in m.ended {
          m.FreeWorkers(self);
        }
    }
  }

  // ----- the same cell each time

  /** An entry that stays keeps its thread. */
  lemma ThreadStays(s: Snapshot, op: Op, reply: Reply, t: Snapshot, a: int)
    requires Step(s, op, reply, t) && a in s.state.entry && a in t.state.entry
    ensures t.state.entry[a].thread == s.state.entry[a].thread
  {
    hide Sound, History, HasEntry, RightFor, NullCalls, Owns;
    assert t.state.entry[a] == t.state.entry[a];
  }

  /** A cell that is not freed later stays where it is. */
  lemma CellStays(s: Snapshot, op: Op, reply: Reply, t: Snapshot, c: int)
    requires Sound(s.state, s.account) && History(s.log, s.account) && Step(s, op, reply, t)
    requires c in s.account.made && Event.Freed(c) !in t.log
    ensures c in t.account.made && t.account.made[c] == s.account.made[c] && c !in t.account.freed
    ensures var a := s.account.made[c].entry;
      a in s.state.entry && a in t.state.entry && t.state.entry[a].thread == s.state.entry[a].thread
  {
    var h := s.account.made[c];
    assert Recorded(s.account, Made(c, h)) && Made(c, h) in s.log && Made(c, h) in t.log &&
      Recorded(t.account, Made(c, h));
    FreedIsLogged(s.log, s.account, c);
    FreedIsLogged(t.log, t.account, c);
    NotYetFreed(s.log, t.log, c);
    assert CellOK(s.state, s.account, c) && CellOK(t.state, t.account, c);
    hide Sound, History;
    ThreadStays(s, op, reply, t, h.entry);
  }

  /** In any run a thread gets the same cell for an id each time, until that cell is freed. */
  lemma {:induction false} SameCell(trace: seq<Snapshot>, ops: seq<Op>, replies: seq<Reply>, i: nat, j: nat, self: nat,
      id: nat, c: int, d: int)
    requires |trace| == |ops| + 1 && |replies| == |ops| && i < j < |ops|
    requires forall k :: 0 <= k < |ops| ==> Step(trace[k], ops[k], replies[k], trace[k + 1])
    requires ops[i] == ops[j] == OpResource(self, id) && replies[i] == Got(Cell(c)) && replies[j] == Got(Cell(d))
    requires c != NULL && Event.Freed(c) !in trace[j + 1].log
    ensures c == d
  {
    hide Sound, History, Step, RightFor;
    var s := trace[i + 1];
    assert Step(trace[i], ops[i], replies[i], s) && Step(trace[j], ops[j], replies[j], trace[j + 1]);
    FetchedHome(trace[i], self, id, c, s);
    var a := s.account.made[c].entry;
    CellKept(trace, ops, replies, i + 1, j + 1, c);
    FetchedAgain(trace[j], self, id, d, trace[j + 1], c, a);
  }

  lemma FetchedHome(s: Snapshot, self: nat, id: nat, c: int, t: Snapshot)
    requires Step(s, OpResource(self, id), Got(Cell(c)), t) && c != NULL
    ensures 1 <= id && c in t.account.made && c !in t.account.freed && t.account.made[c].id == id - 1
    ensures var a := t.account.made[c].entry; a in t.state.entry && t.state.entry[a].thread == self
    ensures Sound(t.state, t.account) && History(t.log, t.account)
  {
    hide Sound, History, HasEntry, Joined;
  }

  lemma {:induction false} CellKept(trace: seq<Snapshot>, ops: seq<Op>, replies: seq<Reply>, i: nat, j: nat, c: int)
    requires |trace| == |ops| + 1 && |replies| == |ops| && 1 <= i <= j <= |ops|
    requires forall k :: 0 <= k < |ops| ==> Step(trace[k], ops[k], replies[k], trace[k + 1])
    requires c in trace[i].account.made && Event.Freed(c) !in trace[j].log
    ensures c in trace[j].account.made && trace[j].account.made[c] == trace[i].account.made[c]
    ensures i < j ==> var a := trace[i].account.made[c].entry;
      a in trace[i].state.entry && a in trace[j].state.entry &&
        trace[j].state.entry[a].thread == trace[i].state.entry[a].thread
    decreases j - i
  {
    hide Sound, History, Step;
    if i < j {
      assert Step(trace[i - 1], ops[i - 1], replies[i - 1], trace[i]);
      LogGrows(trace, ops, replies, i + 1, j);
      StepFacts(trace[i - 1], ops[i - 1], replies[i - 1], trace[i]);
      NotYetFreed(trace[i + 1].log, trace[j].log, c);
      assert Step(trace[i], ops[i], replies[i], trace[i + 1]);
      CellStays(trace[i], ops[i], replies[i], trace[i + 1], c);
      CellKept(trace, ops, replies, i + 1, j, c);
    }
  }

  lemma FreedIsLogged(log: seq<Event>, k: Account, c: int)
    requires History(log, k)
    ensures c in k.freed <==> Event.Freed(c) in log
  {
    assert Event.Freed(c) in log <==> Recorded(k, Event.Freed(c));
  }

  lemma NotYetFreed(log: seq<Event>, log': seq<Event>, c: int)
    requires log <= log' && Event.Freed(c) !in log'
    ensures Event.Freed(c) !in log
  {}

  lemma StepFacts(s: Snapshot, op: Op, reply: Reply, t: Snapshot)
    requires Step(s, op, reply, t)
    ensures Sound(t.state, t.account) && History(t.log, t.account) && s.log <= t.log
  {
    hide Sound, History;
  }

  lemma {:induction false} LogGrows(trace: seq<Snapshot>, ops: seq<Op>, replies: seq<Reply>, i: nat, j: nat)
    requires |trace| == |ops| + 1 && |replies| == |ops| && i <= j <= |ops|
    requires forall k :: 0 <= k < |ops| ==> Step(trace[k], ops[k], replies[k], trace[k + 1])
    ensures trace[i].log <= trace[j].log
    decreases j - i
  {
    hide Step;
    if i < j {
      assert Step(trace[i], ops[i], replies[i], trace[i + 1]);
      StepFacts(trace[i], ops[i], replies[i], trace[i + 1]);
      LogGrows(trace, ops, replies, i + 1, j);
    }
  }

  lemma FetchedAgain(s: Snapshot, self: nat, id: nat, d: int, t: Snapshot, c: int, a: int)
    requires Step(s, OpResource(self, id), Got(Cell(d)), t) && c != NULL && c in t.account.made &&
      Event.Freed(c) !in t.log
    requires t.account.made[c] == Home(a, id - 1) && a in t.state.entry && t.state.entry[a].thread == self && id >= 1
    ensures d == c
  {
    FreedIsLogged(t.log, t.account, c);
    assert CellOK(t.state, t.account, c);
    OwnFacts(t.state, t.account, a);
    var b :| Owns(t.state, self, b) && id <= |t.state.entry[b].storage| && Got(Cell(d)) == Got(ReadAt(t.state, b, id));
    OneEntry(t.state, t.account, self, a, b);
  }

  /** Every cell that is made is freed later, and destroyed in between if and only if its type has a
      destructor; and nothing happens twice. */
  ghost predicate Accounted(log: seq<Event>, types: seq<Type>) {
    && (forall i, j {:trigger log[i], log[j]} :: 0 <= i < j < |log| ==> log[i] != log[j])
    && (forall i {:trigger log[i]} :: 0 <= i < |log| && log[i].Made? ==> FreedLater(log, types, i))
    && (forall i, j {:trigger log[i], log[j]} :: 0 <= i < j < |log| && log[i].Made? && log[j].Made? ==>
      log[i].cell != log[j].cell)
  }

  ghost predicate FreedLater(log: seq<Event>, types: seq<Type>, i: nat)
    requires i < |log| && log[i].Made?
  {
    var c, j := log[i].cell, log[i].home.id;
    && j < |types|
    && (exists f :: i < f < |log| && log[f] == Freed(c))
    && (if types[j].hasDtor then exists d, f :: i < d < f < |log| && log[d] == Destroyed(c) && log[f] == Freed(c)
        else Destroyed(c) !in log)
  }

  lemma AllAccounted(log: seq<Event>, k: Account, types: seq<Type>)
    requires History(log, k) && k.freed == k.made.Keys
    requires forall c {:trigger k.made[c]} :: c in k.made ==> k.made[c].id < |types| && (c in k.destroyed <==>
      types[k.made[c].id].hasDtor)
    ensures Accounted(log, types)
  {
    forall i {:trigger log[i]} | 0 <= i < |log| &&
      log[i].Made? ensures FreedLater(log, types, i) { OneAccounted(log, k, types, i); }
    forall i, j {:trigger log[i], log[j]} | 0 <= i < j < |log| && log[i].Made? && log[j].Made?
      ensures log[i].cell != log[j].cell
    {
      assert log[i] in log && log[j] in log && Recorded(k, log[i]) && Recorded(k, log[j]);
    }
  }

  lemma InTime(log: seq<Event>, k: Account, i: nat, j: nat)
    requires History(log, k) && i < |log| && j < |log| && i != j && Late(log[j], log[i])
    ensures i < j
  {}

  lemma OneAccounted(log: seq<Event>, k: Account, types: seq<Type>, i: nat)
    requires History(log, k) && k.freed == k.made.Keys && i < |log| && log[i].Made?
    requires forall c {:trigger k.made[c]} :: c in k.made ==> k.made[c].id < |types| && (c in k.destroyed <==>
      types[k.made[c].id].hasDtor)
    ensures FreedLater(log, types, i)
  {
    var c := log[i].cell;
    assert log[i] in log && Recorded(k, log[i]) && c in k.made && k.made[c] == log[i].home && c in k.made.Keys;
    assert Recorded(k, Freed(c)) && Freed(c) in log;
    var f :| 0 <= f < |log| && log[f] == Freed(c);
    InTime(log, k, i, f);
    assert Recorded(k, Destroyed(c)) <==> Destroyed(c) in log;
    if types[k.made[c].id].hasDtor {
      var d :| 0 <= d < |log| && log[d] == Destroyed(c);
      InTime(log, k, i, d);
      InTime(log, k, d, f);
    }
  }

  /** Any calls of any threads in any order, then shutdown: the manager goes through one step for each call,
      and at the end every cell ever constructed has been freed, once, and its destructor, if it has one,
      has run on it before, once. */
  method Run(threads: nat, ops: seq<Op>) returns (m: Manager, replies: seq<Reply>, ghost trace: seq<Snapshot>)
    requires threads > 0
    ensures fresh(m) && |replies| == |ops| && |trace| == |ops| + 1 && Fresh(trace[0], threads)
    ensures forall i :: 0 <= i < |ops| ==> Step(trace[i], ops[i], replies[i], trace[i + 1])
    ensures m.entry == map[] && m.types == trace[|ops|].state.types && m.nullCalls == trace[|ops|].nullCalls
    ensures trace[|ops|].log <= m.log && Accounted(m.log, m.types)
    ensures forall e :: e in m.log && e.Made? ==> e in trace[|ops|].log
  {
    hide Sound, History, Step, Accounted;
    m := new Manager(threads);
    replies, trace := [], [m.Snap()];
    for i := 0 to |ops|
      invariant m.Valid() && fresh(m) && |trace| == i + 1 && trace[i] == m.Snap() && Fresh(trace[0], threads)
      invariant |replies| == i && forall j :: 0 <= j < i ==> Step(trace[j], ops[j], replies[j], trace[j + 1])
    {
      var reply := Perform(m, ops[i]);
      replies, trace := replies + [reply], trace + [m.Snap()];
    }
    ghost var k, l := m.account, m.log;
    m.Shutdown();
    AllAccounted(m.log, m.account, m.types);
    NoneMade(l, k, m.log, m.account);
  }

  ghost predicate Fresh(s: Snapshot, threads: nat) {
    && |s.state.table| == threads && s.state.entry == map[] && s.state.types == []
    && s.tls == map[] && !s.locked && s.ended == {} && s.log == [] && s.nullCalls == 0
  }

  lemma NoneMade(log: seq<Event>, k: Account, log': seq<Event>, k': Account)
    requires History(log, k) && History(log', k') && k'.made == k.made
    ensures forall e :: e in log' && e.Made? ==> e in log
  {
    forall e | e in log' && e.Made? ensures e in log { assert Recorded(k', e) && Recorded(k, e); }
  }

  /** Both ways of freeing entries call destructors on null: two threads of one bucket, one type with a
      destructor, released; then the first thread sweeps, and leaves. */
  method NullCallScenario() returns (m: Manager, ghost swept: nat)
    ensures fresh(m) && m.Valid() && 0 < swept < m.nullCalls
  {
    hide Sound, History, SweptFor, NullCalls, HasEntry;
    m := TwoThreads();
    ghost var t := m.Snap();
    m.FreeWorkers(0);
    SweepCosts(t, m.Snap(), 0, 1);
    swept := m.nullCalls;
    m.FreeThread(0);
  }

  method TwoThreads() returns (m: Manager)
    ensures fresh(m) && m.Valid() && |m.table| == 1 && m.ended == {} && HasEntry(m.Now(), 0) && HasEntry(m.Now(), 1)
    ensures NullCalls(m.types, |m.types|) > 0
  {
    hide Sound, History, Progress, Without1, NullCalls, HasEntry, Owns;
    m := new Manager(1);
    var r := m.Resource(0, 0);
    ghost var s, k := m.Now(), m.account;
    r := m.Resource(1, 0);
    Stays(s, k, m.Now(), m.account, 0);
    s, k := m.Now(), m.account;
    var id := m.AllocateId(true);
    SameThreads(s.entry, m.entry);
    Stays(s, k, m.Now(), m.account, 0);
    Stays(s, k, m.Now(), m.account, 1);
    s, k := m.Now(), m.account;
    m.FreeId(id);
    SameThreadsCleared(s.entry, m.entry, id - 1);
    Stays(s, k, m.Now(), m.account, 0);
    Stays(s, k, m.Now(), m.account, 1);
    NullCallsIff(m.types, |m.types|);
    assert m.types[id - 1].hasDtor && m.types[id - 1].done;
  }

  lemma Stays(s: State, k: Account, t: State, l: Account, thread: nat)
    requires Sound(s, k) && Sound(t, l) && HasEntry(s, thread)
    requires forall a :: a in s.entry ==> a in t.entry && t.entry[a].thread == s.entry[a].thread
    ensures HasEntry(t, thread)
  {
    var a :| Owns(s, thread, a);
    OwnFacts(t, l, a);
  }

  lemma SameThreads(was: map<int, Entry>, entry: map<int, Entry>)
    requires entry.Keys == was.Keys && Progress(was, entry, entry.Keys)
    ensures forall a :: a in was ==> a in entry && entry[a].thread == was[a].thread
  {
    forall a | a in was ensures a in entry && entry[a].thread == was[a].thread { SameThread(was, entry, a); }
  }

  lemma SameThreadsCleared(was: map<int, Entry>, entry: map<int, Entry>, j: nat)
    requires entry.Keys == was.Keys && Without1(was, entry, j, entry.Keys)
    ensures forall a :: a in was ==> a in entry && entry[a].thread == was[a].thread
  {
    forall a | a in was ensures a in entry && entry[a].thread == was[a].thread { SameThreadCleared(was, entry, j, a); }
  }

  /** A sweep that meets another entry of the bucket while a released type has a destructor calls it on null. */
  lemma SweepCosts(s: Snapshot, t: Snapshot, self: nat, other: nat)
    requires SweptFor(s, t, self) && Sound(s.state, s.account) && Sound(t.state, t.account) && HasEntry(s.state, self)
    requires HasEntry(s.state, other) && other != self
    requires HashOf(other, |s.state.table|) == HashOf(self, |s.state.table|)
    requires NullCalls(s.state.types, |s.state.types|) > 0
    ensures t.nullCalls > s.nullCalls && HasEntry(t.state, self)
  {
    var a :| Owns(s.state, other, a);
    var b :| Owns(s.state, self, b);
    var was, entry := s.state.entry, t.state.entry;
    assert was[a].thread == other && was[b].thread == self;
    assert a !in entry && b in entry && entry[b] == was[b];
    OwnFacts(t.state, t.account, b);
    Fewer(entry.Keys, was.Keys, a) by { forall c | c in entry.Keys ensures c in was.Keys { assert entry[c] == was[c]; } }
    Positive(NullCalls(s.state.types, |s.state.types|), |was| - |entry|);
  }

  lemma Fewer(x: set<int>, y: set<int>, a: int)
    requires x <= y && a in y && a !in x
    ensures |x| < |y|
  {
    assert y == x + (y - x);
    assert a in y - x;
  }

  lemma Positive(m: nat, n: nat)
    requires m > 0 && n > 0
    ensures Product(m, n) > 0
  {}
}
