/** The heap as its callers see it: a store of independent byte arrays named by their pointers. */
module HeapClient {
  import opened Bits
  import opened Sizes
  import opened HeapLayout
  import opened Sums
  import opened HeapState
  import opened HeapChanges
  import opened Effects
  import opened Requests
  import HeapTheorems
  import M = MemoryManager
  import FS = FreeIndexState
  import Storage

  /** Contents by pointer. */
  type Store = map<int, seq<int>>

  /** The bytes of every array are where its pointer says, and the arrays are the live blocks except the
      heap's own reserve. */
  ghost predicate Holds(store: Store, live: map<int, Claim>, reserve: int, data: Memory) {
    forall p {:trigger Entry(store, live, reserve, data, p)} :: Entry(store, live, reserve, data, p)
  }

  ghost predicate Entry(store: Store, live: map<int, Claim>, reserve: int, data: Memory, p: int) {
    && (p in store <==> p - HEADER in live && p != reserve)
    && (p in store ==> |store[p]| == live[p - HEADER].req && Contains(data, p, store[p]))
  }

  ghost predicate Contains(data: Memory, p: int, s: seq<int>) {
    forall i {:trigger s[i]} :: 0 <= i < |s| ==> Byte(data, p + i) == s[i]
  }

  function Bytes(data: Memory, p: int, n: nat): (s: seq<int>)
    ensures |s| == n && Contains(data, p, s)
  {
    seq(n, i => Byte(data, p + i))
  }

  class Client {
    const heap: M.Heap
    ghost var store: Store

    ghost predicate Valid()
      reads this, heap, heap.index
    {
      heap.Valid() && Holds(store, heap.view.live, heap.books.reserve, heap.data) && heap.books.reserveSize < WORD
    }

    constructor (heap: M.Heap)
      requires heap.Valid() && heap.books.reserveSize < WORD
      requires heap.view.live.Keys == (if heap.books.reserve == NULL then {} else {heap.books.reserve - HEADER})
      ensures this.heap == heap && Valid() && store == map[]
    {
      this.heap := heap;
      store := map[];
    }

    /** A new array of `size` bytes, or nothing changes. */
    method Alloc(size: nat) returns (p: int, ghost r: Outcome)
      requires Valid() && size < WORD
      modifies this, heap, heap.index, heap.storage
      ensures Valid() && heap.data == old(heap.data) && p == (if r.Done? then r.ptr else NULL)
      ensures Allotted(old(heap.view), old(heap.books), heap.view, heap.books, r, size, TrueSize(size))
      ensures AllocDone(old(heap.Now()), size, TrueSize(size), heap.Now(), r,
        old(heap.storage.replies), heap.storage.replies)
      ensures r.Done? ==> p != NULL
      ensures p == NULL ==> store == old(store)
      ensures p != NULL ==> p !in old(store) && p % ALIGNMENT == 0 && p in store && |store[p]| == size
      ensures p != NULL ==> store == old(store)[p := store[p]]
    {
      hide FS.Inv, Inv, TrueSize, Holds, AllocDone, Allotted, Denied;
      SaneLive(heap.State());
      var o := heap.Alloc(size);
      r := o;
      SaneLive(heap.State());
      if o.Done? {
        p := o.ptr;
        AllocHolds(store, old(heap.view), old(heap.books), heap.view, heap.books, heap.data, r, size, TrueSize(size));
        store := store[p := Bytes(heap.data, p, size)];
      } else {
        AllottedDenied(old(heap.view), old(heap.books), heap.view, heap.books, r, size, TrueSize(size));
        DeniedHolds(store, old(heap.view), old(heap.books), heap.view, heap.books, heap.data, TrueSize(size) >= size);
        p := NULL;
      }
    }

    /** The array is gone, the others are untouched. */
    method Free(p: int)
      requires Valid() && (p == NULL || p in store)
      modifies this, heap, heap.index
      ensures Valid() && store == old(store) - {p} && heap.data == old(heap.data)
      ensures if p in old(store) then Freed(old(heap.Now()), p - HEADER, heap.Now()) else heap.Now() == old(heap.Now())
    {
      hide FS.Inv, Inv, Holds, Freed;
      SaneLive(heap.State());
      FreeHolds(store, heap.view.live, heap.books.reserve, heap.data, p);
      if p in store { StoreFacts(store, heap.view.live, heap.books.reserve, heap.data, p); }
      heap.Free(p);
      store := store - {p};
    }

    /** One byte of one array. */
    method Write(p: int, i: nat, v: int)
      requires Valid() && p in store && i < |store[p]|
      modifies this, heap
      ensures Valid() && store == old(store)[p := old(store)[p][i := v]]
      ensures heap.State() == old(heap.State()) && heap.index.State() == old(heap.index.State())
      ensures heap.data == old(heap.data)[p + i := v]
    {
      hide FS.Inv, Inv, Holds;
      WriteHolds(heap.State(), store, heap.data, p, i, v);
      heap.Write(p, i, v);
      store := store[p := store[p][i := v]];
    }

    method SetLimit(limit: nat)
      requires Valid() && limit < WORD
      modifies this, heap
      ensures Valid() && store == old(store) && heap.data == old(heap.data)
      ensures heap.State() == LimitedTo(old(heap.State()), limit) && heap.index.State() == old(heap.index.State())
    {
      hide FS.Inv, Inv, Holds;
      heap.SetLimit(limit);
    }

    /** Nothing is left. */
    method Shutdown() returns (ghost r: Outcome)
      requires Valid()
      modifies this, heap, heap.index, heap.storage
      ensures Valid() && store == map[] && heap.data == old(heap.data)
      ensures Restarted(old(heap.Now()), heap.Now(), r, old(heap.storage.replies), heap.storage.replies)
    {
      hide FS.Inv, Inv, Restarted, Holds;
      var o := heap.SoftShutdown();
      r := o;
      store := map[];
      RestartedHolds(old(heap.Now()), heap.Now(), r, old(heap.storage.replies), heap.storage.replies, heap.data);
    }

    /** The array has a new length and perhaps a new pointer; as many bytes as both lengths have are kept. A
        refusal changes nothing. `ok` is false when the heap is left damaged. */
    method Realloc(p: int, size: nat) returns (q: int, ok: bool, ghost r: Outcome)
      requires Valid() && size < WORD && p in store
      modifies this, heap, heap.index, heap.storage
      ensures ok ==> Valid()
      ensures ok <==> r != Corrupted
      ensures q == (if r.Done? then r.ptr else NULL) && (r.Done? ==> q != NULL)
      ensures r.Done? ==> Moved(old(heap.view), old(heap.books), old(heap.data), heap.view, heap.books, heap.data,
        p - HEADER, q - HEADER, size, TrueSize(size))
      ensures !r.Done? && ok ==> Denied(old(heap.view), old(heap.books), heap.view, heap.books, TrueSize(size) >= size)
      ensures !r.Done? ==> heap.data == old(heap.data)
      ensures ReallocDone(old(heap.Now()), p - HEADER, size, TrueSize(size), heap.Now(), r,
        old(heap.storage.replies), heap.storage.replies)
      ensures ok && q == NULL ==> store == old(store)
      ensures ok && q != NULL ==>
        && (q == p || q !in old(store)) && q in store && store == (old(store) - {p})[q := store[q]] &&
          |store[q]| == size
        && SamePrefix(old(store)[p], store[q])
    {
      hide FS.Inv, Inv, TrueSize, Holds, Denied, Moved, ReallocDone, AllocDone, SamePrefix;
      SaneLive(heap.State());
      StoreFacts(store, heap.view.live, heap.books.reserve, heap.data, p);
      var o := heap.Realloc(p, size);
      r := o;
      q, ok := NULL, o != Corrupted;
      if o.Done? {
        SaneLive(heap.State());
        q := o.ptr;
        ReallocHolds(store, old(heap.view), old(heap.books), old(heap.data), heap.view, heap.books, heap.data, p, q,
          size, TrueSize(size));
        store := (store - {p})[q := Bytes(heap.data, q, size)];
      } else if ok {
        DeniedHolds(store, old(heap.view), old(heap.books), heap.view, heap.books, heap.data, TrueSize(size) >= size);
      }
    }
  }

  // ----- whole programs

  /** The arrays a program knows, by the number it gave them. */
  type Arrays = map<nat, seq<int>>

  /** What a program keeps for an array. */
  datatype Handle = Handle(ptr: int, size: nat)

  type Table = map<nat, Handle>

  datatype Op = OpAlloc(id: nat, size: nat) | OpFree(id: nat) | OpWrite(id: nat, at: nat, byte: int)
    | OpRealloc(id: nat, size: nat) | OpLimit(size: nat) | OpShutdown

  predicate Fits(op: Op) {
    (op.OpAlloc? || op.OpRealloc? || op.OpLimit?) ==> op.size < WORD
  }

  /** A moment of a run: the arrays as the program sees them, its handles, the heap, its free index, the memory
      and what the storage has said so far. */
  datatype Snapshot = Snapshot(
    arrays: Arrays, table: Table, heap: HeapState, index: FS.Index, data: Memory, replies: Replies)

  ghost function Both(s: Snapshot): Picture { Picture(s.heap, s.index) }

  /** The heap is well formed; every array is in memory where its handle points, in a live block of its own;
      and there are no live blocks but those and the reserve. */
  ghost predicate Pictured(s: Snapshot) {
    && Inv(s.heap) && FS.Inv(s.index) && s.index.size == s.heap.free && s.arrays.Keys == s.table.Keys
    && (forall id {:trigger s.table[id]} :: id in s.table ==> ArrayAt(s, id))
    && (forall id, jd {:trigger s.table[id], s.table[jd]} :: id in s.table && jd in s.table && s.table[id].ptr == s.table[jd].ptr ==> id == jd)
    && (forall b {:trigger s.heap.live[b]} :: b in s.heap.live ==>
      b + HEADER == s.heap.books.reserve || HasHandle(s.table, b + HEADER))
  }

  ghost predicate ArrayAt(s: Snapshot, id: nat)
    requires id in s.table
  {
    var p := s.table[id].ptr;
    && id in s.arrays && p - HEADER in s.heap.live && p != s.heap.books.reserve
    && s.heap.live[p - HEADER].req == |s.arrays[id]| == s.table[id].size && Contains(s.data, p, s.arrays[id])
  }

  ghost predicate HasHandle(table: Table, p: int) { exists id :: id in table && table[id].ptr == p }

  /** What a step of a program does to its arrays and to the heap. */
  ghost predicate Step(s: Snapshot, op: Op, t: Snapshot)
    requires Fits(op)
  {
    match op
    case OpAlloc(id, n) => if id in s.arrays then t == s else exists r :: AllocStep(s, id, n, r, t)
    case OpFree(id) => if id in s.table then FreeStep(s, id, t) else t == s
    case OpWrite(id, i, v) => if id in s.table && id in s.arrays &&
      i < |s.arrays[id]| then WriteStep(s, id, i, v, t) else t == s
    case OpRealloc(id, n) => if id in s.table && id in s.arrays then exists r :: ReallocStep(s, id, n, r, t) else t == s
    case OpLimit(n) => t == s.(heap := LimitedTo(s.heap, n))
    case OpShutdown =>
      t.arrays == map[] && t.table == map[] && t.data == s.data &&
      exists r :: Restarted(Both(s), Both(t), r, s.replies, t.replies)
  }

  /** One more array, or a refusal that shows in the heap. */
  ghost predicate AllocStep(s: Snapshot, id: nat, n: nat, r: Outcome, t: Snapshot)
    requires n < WORD
  {
    && Allotted(ViewOf(s.heap), s.heap.books, ViewOf(t.heap), t.heap.books, r, n, TrueSize(n)) && t.data == s.data
    && AllocDone(Both(s), n, TrueSize(n), Both(t), r, s.replies, t.replies)
    && if r.Done? then
         && id in t.arrays && |t.arrays[id]| == n && t.arrays == s.arrays[id := t.arrays[id]]
         && t.table == s.table[id := Handle(r.ptr, n)]
       else t.arrays == s.arrays && t.table == s.table
  }

  ghost predicate FreeStep(s: Snapshot, id: nat, t: Snapshot)
    requires id in s.table
  {
    && t.arrays == s.arrays - {id} && t.table == s.table - {id} && t.data == s.data
    && Freed(Both(s), s.table[id].ptr - HEADER, Both(t)) && t.replies == s.replies
  }

  ghost predicate WriteStep(s: Snapshot, id: nat, i: nat, v: int, t: Snapshot)
    requires id in s.table && id in s.arrays && i < |s.arrays[id]|
  {
    t == s.(arrays := s.arrays[id := s.arrays[id][i := v]], data := s.data[s.table[id].ptr + i := v])
  }

  /** The array keeps the common prefix, or a refusal that shows in the heap. */
  ghost predicate ReallocStep(s: Snapshot, id: nat, n: nat, r: Outcome, t: Snapshot)
    requires id in s.table && id in s.arrays && n < WORD
  {
    var p := s.table[id].ptr;
    && ReallocDone(Both(s), p - HEADER, n, TrueSize(n), Both(t), r, s.replies, t.replies)
    && if r.Done? then
      && Moved(ViewOf(s.heap), s.heap.books, s.data, ViewOf(t.heap), t.heap.books, t.data, p - HEADER, r.ptr - HEADER, n, TrueSize(n))
      && id in t.arrays && |t.arrays[id]| == n && t.arrays == s.arrays[id := t.arrays[id]] &&
        SamePrefix(s.arrays[id], t.arrays[id])
      && t.table == s.table[id := Handle(r.ptr, n)]
    else
      && r != Corrupted && Denied(ViewOf(s.heap), s.heap.books, ViewOf(t.heap), t.heap.books, TrueSize(n) >= n)
      && t.arrays == s.arrays && t.table == s.table && t.data == s.data
  }

  ghost function LimitedTo(h: HeapState, limit: nat): HeapState {
    h.(books := h.books.(limit := if limit >= h.books.unit then limit else h.books.unit))
  }

  /** Each array is the one its pointer names, different arrays have different pointers, and every pointer
      has a handle. */
  ghost predicate Names(s: Arrays, table: Table, store: Store) {
    && s.Keys == table.Keys
    && (forall id {:trigger table[id]} :: id in table ==>
          table[id].ptr in store && id in s && s[id] == store[table[id].ptr] && table[id].size == |s[id]|)
    && (forall id, jd {:trigger table[id], table[jd]} :: id in table && jd in table && table[id].ptr == table[jd].ptr ==> id == jd)
    && (forall p {:trigger HasHandle(table, p)} :: p in store ==> HasHandle(table, p))
  }

  lemma NamesFresh(s: Arrays, table: Table, store: Store, id: nat, p: int, c: seq<int>)
    requires Names(s, table, store) && id !in table && p !in store
    ensures Names(s[id := c], table[id := Handle(p, |c|)], store[p := c])
  {
    var t, u := table[id := Handle(p, |c|)], store[p := c];
    forall q {:trigger HasHandle(t, q)} | q in u ensures HasHandle(t, q) {
      if q == p { assert t[id].ptr == p; } else { KeepsHandle(table, t, q, id); }
    }
  }

  lemma KeepsHandle(table: Table, t: Table, q: int, id: nat)
    requires HasHandle(table, q) && (id in table ==> table[id].ptr != q) && forall jd :: jd in table && jd != id ==>
      jd in t && t[jd] == table[jd]
    ensures HasHandle(t, q)
  {
    var jd :| jd in table && table[jd].ptr == q;
    assert t[jd].ptr == q;
  }

  lemma NamesGone(s: Arrays, table: Table, store: Store, id: nat)
    requires Names(s, table, store) && id in table
    ensures Names(s - {id}, table - {id}, store - {table[id].ptr})
  {
    var t, u := table - {id}, store - {table[id].ptr};
    forall q {:trigger HasHandle(t, q)} | q in u ensures HasHandle(t, q) { assert q in store; KeepsHandle(table, t, q, id); }
    forall jd {:trigger t[jd]} | jd in t
      ensures t[jd].ptr in u && jd in s - {id} && (s - {id})[jd] == u[t[jd].ptr] && t[jd].size == |(s - {id})[jd]|
    {
      assert table[jd] == t[jd] && table[id].ptr != table[jd].ptr;
    }
  }

  lemma NamesWrite(s: Arrays, table: Table, store: Store, id: nat, i: nat, v: int)
    requires Names(s, table, store) && id in table && i < table[id].size
    ensures id in s && table[id].ptr in store && i < |store[table[id].ptr]| && s[id] == store[table[id].ptr]
    ensures Names(s[id := s[id][i := v]], table, store[table[id].ptr := store[table[id].ptr][i := v]])
  {
    var p := table[id].ptr;
    var s', u := s[id := s[id][i := v]], store[p := store[p][i := v]];
    forall jd {:trigger table[jd]} | jd in table
      ensures table[jd].ptr in u && jd in s' && s'[jd] == u[table[jd].ptr] && table[jd].size == |s'[jd]|
    {
      assert jd != id ==> table[jd].ptr != p;
    }
  }

  lemma NamesMoved(s: Arrays, table: Table, store: Store, id: nat, q: int, c: seq<int>)
    requires Names(s, table, store) && id in table && (q == table[id].ptr || q !in store)
    ensures Names(s[id := c], table[id := Handle(q, |c|)], (store - {table[id].ptr})[q := c])
  {
    NamesGone(s, table, store, id);
    NamesFresh(s - {id}, table - {id}, store - {table[id].ptr}, id, q, c);
    assert (s - {id})[id := c] == s[id := c];
    assert (table - {id})[id := Handle(q, |c|)] == table[id := Handle(q, |c|)];
  }

  /** What the client knows is what the moment shows. */
  lemma PicturedWhen(s: Snapshot, store: Store)
    requires Inv(s.heap) && FS.Inv(s.index) && s.index.size == s.heap.free && Names(s.arrays, s.table, store) &&
      Holds(store, s.heap.live, s.heap.books.reserve, s.data)
    ensures Pictured(s)
  {
    hide Inv, FS.Inv, Contains, Entry, ArrayAt, Holds;
    forall id {:trigger s.table[id]} | id in s.table ensures ArrayAt(s, id) { NamedArray(s, store, id); }
    forall b {:trigger s.heap.live[b]} | b in s.heap.live ensures b + HEADER == s.heap.books.reserve ||
      HasHandle(s.table, b + HEADER) {
      LiveIsNamed(s, store, b);
    }
  }

  lemma NamedArray(s: Snapshot, store: Store, id: nat)
    requires Names(s.arrays, s.table, store) && Holds(store, s.heap.live, s.heap.books.reserve, s.data) && id in s.table
    ensures ArrayAt(s, id)
  {
    hide Contains;
    assert Entry(store, s.heap.live, s.heap.books.reserve, s.data, s.table[id].ptr);
  }

  lemma LiveIsNamed(s: Snapshot, store: Store, b: int)
    requires Names(s.arrays, s.table, store) && Holds(store, s.heap.live, s.heap.books.reserve, s.data) &&
      b in s.heap.live
    ensures b + HEADER == s.heap.books.reserve || HasHandle(s.table, b + HEADER)
  {
    hide Contains;
    assert Entry(store, s.heap.live, s.heap.books.reserve, s.data, b + HEADER);
  }

  ghost function Snap(client: Client, arrays: Arrays, table: Table): Snapshot
    reads client, client.heap, client.heap.index, client.heap.storage
  {
    Snapshot(arrays, table, client.heap.State(), client.heap.index.State(), client.heap.data,
      client.heap.storage.replies)
  }

  /** One step. `ok` is false exactly when a reallocation has failed in the one way that damages the heap. */
  method Perform(client: Client, ghost s: Arrays, table: Table, op: Op) returns (next: Table, ok: bool, ghost t: Arrays)
    requires client.Valid() && Names(s, table, client.store) && Fits(op)
    modifies client, client.heap, client.heap.index, client.heap.storage
    ensures ok ==> client.Valid() && Names(t, next, client.store)
    ensures ok ==> Step(old(Snap(client, s, table)), op, Snap(client, t, next))
    ensures !ok ==> op.OpRealloc? && op.id in table && next == table
    ensures !ok ==> Broke(old(Snap(client, s, table)), op, client.heap.storage.replies)
  {
    hide Client.Valid, SamePrefix, Names, Cornered, Freed, Restarted, TrueSize, AllocStep, ReallocStep, Broke;
    NamesFacts(s, table, client.store);
    next, ok, t := table, true, s;
    match op {
      case OpAlloc(id, n) =>
        next, t := PerformAlloc(client, s, table, id, n);
      case OpFree(id) =>
        if id in table {
          NamesGone(s, table, client.store, id);
          client.Free(table[id].ptr);
          next, t := table - {id}, s - {id};
        }
      case OpWrite(id, i, v) =>
        if id in table && i < table[id].size {
          NamesWrite(s, table, client.store, id, i, v);
          client.Write(table[id].ptr, i, v);
          t := s[id := s[id][i := v]];
        }
      case OpRealloc(id, n) =>
        next, ok, t := PerformRealloc(client, s, table, id, n);
      case OpLimit(n) =>
        client.SetLimit(n);
      case OpShutdown =>
        ghost var before, r := Snap(client, s, table), OutOfMemory;
        r := client.Shutdown();
        next, t := map[], map[];
        NoNames();
        assert Restarted(Both(before), Both(Snap(client, t, next)), r, before.replies, client.heap.storage.replies);
    }
  }

  method PerformAlloc(client: Client, ghost s: Arrays, table: Table, id: nat, n: nat) returns (next: Table,
      ghost t: Arrays)
    requires client.Valid() && Names(s, table, client.store) && n < WORD
    modifies client, client.heap, client.heap.index, client.heap.storage
    ensures client.Valid() && Names(t, next, client.store)
    ensures Step(old(Snap(client, s, table)), OpAlloc(id, n), Snap(client, t, next))
  {
    hide Client.Valid, Names, Allotted, TrueSize, AllocDone;
    NamesFacts(s, table, client.store);
    next, t := table, s;
    if id !in table {
      ghost var store, before, r := client.store, Snap(client, s, table), OutOfMemory;
      var p;
      p, r := client.Alloc(n);
      if p != NULL {
        next, t := table[id := Handle(p, n)], s[id := client.store[p]];
        NamesFresh(s, table, store, id, p, client.store[p]);
      }
      assert AllocStep(before, id, n, r, Snap(client, t, next));
    }
  }

  method PerformRealloc(client: Client, ghost s: Arrays, table: Table, id: nat, n: nat)
    returns (next: Table, ok: bool, ghost t: Arrays)
    requires client.Valid() && Names(s, table, client.store) && n < WORD
    modifies client, client.heap, client.heap.index, client.heap.storage
    ensures ok ==> client.Valid() && Names(t, next, client.store)
    ensures ok ==> Step(old(Snap(client, s, table)), OpRealloc(id, n), Snap(client, t, next))
    ensures !ok ==> id in table && next == table
    ensures !ok ==> Broke(old(Snap(client, s, table)), OpRealloc(id, n), client.heap.storage.replies)
  {
    hide Client.Valid, SamePrefix, Names, Moved, Denied, Cornered, ReallocDone, TrueSize;
    NamesFacts(s, table, client.store);
    next, ok, t := table, true, s;
    if id in table {
      ghost var store, before, r := client.store, Snap(client, s, table), OutOfMemory;
      var q;
      q, ok, r := client.Realloc(table[id].ptr, n);
      if !ok {
        ghost var b, log := table[id].ptr - HEADER, client.heap.storage.replies;
        LostInCorner(Both(before), b, n, TrueSize(n), client.heap.Now(), before.replies, log);
      }
      if ok {
        if q != NULL {
          next, t := table[id := Handle(q, n)], s[id := client.store[q]];
          NamesMoved(s, table, store, id, q, client.store[q]);
        }
        assert ReallocStep(before, id, n, r, Snap(client, t, next));
      }
    }
  }

  lemma LostInCorner(p: Picture, b: int, req: nat, trueSize: nat, p': Picture, log: Replies, log': Replies)
    requires ReallocDone(p, b, req, trueSize, p', Corrupted, log, log')
    ensures Cornered(p.heap, p.index, b, req, trueSize)
    ensures log' == log + [Storage.Reply(SegmentSize(p.heap.books.unit, trueSize), 0)]
  {
    hide SegmentSize;
  }

  lemma NamesFacts(s: Arrays, table: Table, store: Store)
    requires Names(s, table, store)
    ensures forall id :: id in s <==> id in table
    ensures forall id {:trigger table[id]} :: id in table ==>
      table[id].ptr in store && s[id] == store[table[id].ptr] && |s[id]| == table[id].size
  {
    forall id ensures id in s <==> id in table { assert id in s.Keys <==> id in table.Keys; }
  }

  lemma NoNames()
    ensures Names(map[], map[], map[])
  {}

  /** Any program on any started heap. The run is a trace of moments, one more than there are steps, each as
      `Pictured`, the first the heap as given and the last the heap as left. It ends early only if a
      reallocation fails in the one way that damages the heap; then the block was cornered. */
  method Run(client: Client, ops: seq<Op>) returns (ghost trace: seq<Snapshot>, ok: bool)
    requires client.Valid() && client.store == map[]
    requires forall i :: 0 <= i < |ops| ==> Fits(ops[i])
    modifies client, client.heap, client.heap.index, client.heap.storage
    ensures 0 < |trace| <= |ops| + 1 &&
      trace[0] == old(Snap(client, map[], map[]))
    ensures forall i {:trigger trace[i]} :: 0 <= i < |trace| ==> Pictured(trace[i])
    ensures forall i :: 0 <= i < |trace| - 1 ==> Step(trace[i], ops[i], trace[i + 1])
    ensures ok ==> |trace| == |ops| + 1 && client.Valid()
    ensures ok ==> trace[|ops|].heap == client.heap.State() && trace[|ops|].index == client.heap.index.State()
    ensures ok ==> trace[|ops|].data == client.heap.data && trace[|ops|].replies == client.heap.storage.replies
    ensures !ok ==> |trace| <= |ops| && Broke(trace[|trace| - 1], ops[|trace| - 1], client.heap.storage.replies)
  {
    hide Client.Valid, Step, Names, Pictured, Cornered, TrueSize;
    var table: Table := map[];
    ghost var s: Arrays := map[];
    NoNames();
    ShowNow(client, s, table);
    trace, ok := [Snap(client, s, table)], true;
    var i := 0;
    while i < |ops|
      invariant 0 <= i <= |ops| && client.Valid() && Names(s, table, client.store) && ok
      invariant |trace| == i + 1 && trace[i] == Snap(client, s, table)
      invariant trace[0] == old(Snap(client, map[], map[]))
      invariant forall j {:trigger trace[j]} :: 0 <= j <= i ==> Pictured(trace[j])
      invariant forall j :: 0 <= j < i ==> Step(trace[j], ops[j], trace[j + 1])
    {
      ghost var t;
      table, ok, t := Perform(client, s, table, ops[i]);
      if !ok {
        return;
      }
      ShowNow(client, t, table);
      s, trace, i := t, trace + [Snap(client, t, table)], i + 1;
    }
  }

  /** The operation is a reallocation of a cornered block, and the storage has refused to resize its segment. */
  ghost predicate Broke(s: Snapshot, op: Op, replies: Replies) {
    && op.OpRealloc? && op.size < WORD && op.id in s.table
    && Cornered(s.heap, s.index, s.table[op.id].ptr - HEADER, op.size, TrueSize(op.size))
    && replies == s.replies + [Storage.Reply(SegmentSize(s.heap.books.unit, TrueSize(op.size)), 0)]
  }

  lemma ShowNow(client: Client, s: Arrays, table: Table)
    requires client.Valid() && Names(s, table, client.store)
    ensures Pictured(Snap(client, s, table))
  {
    hide Inv, Names, Holds, FS.Inv;
    PicturedWhen(Snap(client, s, table), client.store);
  }

  ghost predicate SamePrefix(s: seq<int>, t: seq<int>) {
    forall i {:trigger t[i]} :: 0 <= i < |s| && i < |t| ==> t[i] == s[i]
  }

  /** What the invariant says of live blocks one by one, and of the reserve. */
  ghost predicate Sane(live: map<int, Claim>, reserve: int) {
    && (forall b {:trigger SaneBlock(live, b)} :: b in live ==> SaneBlock(live, b))
    && (reserve == NULL || reserve - HEADER in live)
  }

  ghost predicate SaneBlock(live: map<int, Claim>, b: int)
    requires b in live
  {
    b > HEADER && b % ALIGNMENT == 0 && live[b].req + HEADER <= live[b].size
  }

  lemma SaneLive(h: HeapState)
    requires Inv(h)
    ensures Sane(h.live, h.books.reserve)
  {
    forall b | b in h.live ensures SaneBlock(h.live, b) { LiveBlock(h, b); }
  }

  lemma RestartedHolds(p: Picture, p': Picture, r: Outcome, log: Replies, log': Replies, data: Memory)
    requires Restarted(p, p', r, log, log')
    ensures Holds(map[], p'.heap.live, p'.heap.books.reserve, data) &&
      p'.heap.books.reserveSize == p.heap.books.reserveSize
  {
    hide ReserveAnswer, Bared, Furnished, SegmentTotal, ClaimTotal;
  }

  lemma StoreFacts(store: Store, live: map<int, Claim>, reserve: int, data: Memory, p: int)
    requires Holds(store, live, reserve, data) && Sane(live, reserve) && p in store
    ensures p != NULL && p - HEADER in live && p != reserve && |store[p]| == live[p - HEADER].req
  {
    assert Entry(store, live, reserve, data, p);
    assert SaneBlock(live, p - HEADER);
  }

  lemma AllocHolds(store: Store, v: View, k: Books, v': View, k': Books, data: Memory, r: Outcome, size: nat,
      trueSize: nat)
    requires Holds(store, v.live, k.reserve, data) && Sane(v.live, k.reserve) && Sane(v'.live, k'.reserve)
    requires Allotted(v, k, v', k', r, size, trueSize) && r.Done?
    ensures r.ptr !in store && r.ptr != NULL && r.ptr % ALIGNMENT == 0 && k'.reserveSize == k.reserveSize
    ensures Holds(store[r.ptr := Bytes(data, r.ptr, size)], v'.live, k'.reserve, data)
  {
    hide Contains;
    var p := r.ptr;
    assert SaneBlock(v'.live, p - HEADER);
    AlignedGap(p - HEADER, HEADER);
    assert Entry(store, v.live, k.reserve, data, p);
    var t := store[p := Bytes(data, p, size)];
    forall q ensures Entry(t, v'.live, k'.reserve, data, q) {
      assert Entry(store, v.live, k.reserve, data, q);
    }
  }

  lemma AllottedDenied(v: View, k: Books, v': View, k': Books, r: Outcome, size: nat, trueSize: nat)
    requires Allotted(v, k, v', k', r, size, trueSize) && !r.Done?
    ensures Denied(v, k, v', k', trueSize >= size)
  {}

  lemma DeniedHolds(store: Store, v: View, k: Books, v': View, k': Books, data: Memory, flush: bool)
    requires Holds(store, v.live, k.reserve, data) && Sane(v.live, k.reserve) && Denied(v, k, v', k', flush)
    ensures Holds(store, v'.live, k'.reserve, data) && k'.reserveSize == k.reserveSize
  {
    hide Contains;
    forall p ensures Entry(store, v'.live, k'.reserve, data, p) {
      assert Entry(store, v.live, k.reserve, data, p);
      if p - HEADER in v.live { assert SaneBlock(v.live, p - HEADER); }
    }
  }

  lemma FreeHolds(store: Store, live: map<int, Claim>, reserve: int, data: Memory, p: int)
    requires Holds(store, live, reserve, data) && Sane(live, reserve) && (p == NULL || p in store)
    ensures p != NULL ==> p - HEADER in live && p != reserve
    ensures Holds(store - {p}, if p == NULL then live else live - {p - HEADER}, reserve, data)
  {
    hide Contains;
    assert Entry(store, live, reserve, data, p);
    if p - HEADER in live { assert SaneBlock(live, p - HEADER); }
    var t, l := store - {p}, if p == NULL then live else live - {p - HEADER};
    forall q ensures Entry(t, l, reserve, data, q) {
      assert Entry(store, live, reserve, data, q);
    }
  }

  lemma WriteHolds(h: HeapState, store: Store, data: Memory, p: int, i: nat, v: int)
    requires Inv(h) && Holds(store, h.live, h.books.reserve, data) && p in store && i < |store[p]|
    ensures p - HEADER in h.live && |store[p]| == h.live[p - HEADER].req
    ensures Holds(store[p := store[p][i := v]], h.live, h.books.reserve, data[p + i := v])
  {
    hide Inv;
    assert Entry(store, h.live, h.books.reserve, data, p);
    var t, data' := store[p := store[p][i := v]], data[p + i := v];
    forall q ensures Entry(t, h.live, h.books.reserve, data', q) {
      assert Entry(store, h.live, h.books.reserve, data, q);
      if q in store && q != p {
        HeapTheorems.LivePayloads(h, p - HEADER, q - HEADER);
        HeapTheorems.LivePayloads(h, q - HEADER, p - HEADER);
      }
    }
  }

  lemma ReallocHolds(store: Store, v: View, k: Books, data: Memory, v': View, k': Books, data': Memory, p: int,
      q: int, size: nat, trueSize: nat)
    requires Holds(store, v.live, k.reserve, data) && Sane(v.live, k.reserve) && Sane(v'.live, k'.reserve) && p in store
    requires Moved(v, k, data, v', k', data', p - HEADER, q - HEADER, size, trueSize)
    ensures q != NULL && (q == p || q !in store) && k'.reserveSize == k.reserveSize
    ensures Holds((store - {p})[q := Bytes(data', q, size)], v'.live, k'.reserve, data')
    ensures SamePrefix(store[p], Bytes(data', q, size))
  {
    hide Contains, SamePrefix, SameBytes, Kept;
    var b, c := p - HEADER, q - HEADER;
    assert SaneBlock(v.live, b) && SaneBlock(v'.live, c);
    assert Entry(store, v.live, k.reserve, data, p) && Entry(store, v.live, k.reserve, data, q);
    PrefixKept(data, p, data', q, store[p], size, Smaller(v.live[b].size, v'.live[c].size) - HEADER);
    var t := (store - {p})[q := Bytes(data', q, size)];
    forall o ensures Entry(t, v'.live, k'.reserve, data', o) {
      assert Entry(store, v.live, k.reserve, data, o);
      if o in store && o != p {
        assert SaneBlock(v.live, o - HEADER);
        OthersKept(v.live - {b}, data, data', o, store[o]);
      }
    }
  }

  lemma PrefixKept(data: Memory, p: int, data': Memory, q: int, s: seq<int>, size: nat, n: int)
    requires Contains(data, p, s) && SameBytes(data, p, data', q, n) && (|s| <= n || size <= n)
    ensures SamePrefix(s, Bytes(data', q, size))
  {
    var t := Bytes(data', q, size);
    forall i {:trigger t[i]} | 0 <= i < |s| && i < |t| ensures t[i] == s[i] {
      assert Byte(data', q + i) == Byte(data, q + i - q + p);
      assert q + i - q + p == p + i;
    }
  }

  lemma OthersKept(live: map<int, Claim>, data: Memory, data': Memory, p: int, s: seq<int>)
    requires Kept(live, data, data') && p - HEADER in live && |s| + HEADER <= live[p - HEADER].size &&
      Contains(data, p, s)
    ensures Contains(data', p, s)
  {
    forall i {:trigger s[i]} | 0 <= i < |s| ensures Byte(data', p + i) == s[i] {
      assert live[p - HEADER].size == live[p - HEADER].size && Byte(data', p + i) == Byte(data, p + i);
    }
  }
}
