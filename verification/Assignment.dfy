/** Copy-on-write variables: slots point at reference-counted cells, and a flag tells a cell that is
    merely shared from one whose slots are references to one another. */
module Assignment {
  /** Values are flat here: what a cell holds, not what that refers to. */
  datatype Value = Null | Scalar(int)

  datatype Cell = Cell(value: Value, refcount: nat, isRef: bool)

  /** Slots by variable, cells by address. */
  datatype Vars = Vars(slot: map<nat, int>, cell: map<int, Cell>)

  /** The shared cell of variables without a value. It counts two more holders than it has. */
  const UNINIT: int := 0

  ghost function Holders(slot: map<nat, int>, c: int): set<nat> { set x | x in slot && slot[x] == c }

  ghost predicate CellOK(s: Vars, c: int)
    requires c in s.cell
  {
    && s.cell[c].refcount == |Holders(s.slot, c)| + (if c == UNINIT then 2 else 0)
    && s.cell[c].refcount >= 1
  }

  /** Every slot has a cell, every count is exact, and no cell is left behind. */
  ghost predicate Inv(s: Vars) {
    && (forall x {:trigger s.slot[x]} :: x in s.slot ==> s.slot[x] in s.cell)
    && (forall c {:trigger CellOK(s, c)} :: c in s.cell ==> CellOK(s, c))
    && UNINIT in s.cell && s.cell[UNINIT].value == Null && !s.cell[UNINIT].isRef
  }

  // ----- the simple store

  /** Variables belong to groups, and groups have values. */
  datatype Simple = Simple(group: map<nat, nat>, value: map<nat, Value>, next: nat)

  ghost predicate SimpleOK(m: Simple) {
    && (forall x {:trigger m.group[x]} :: x in m.group ==> m.group[x] in m.value)
    && (forall g :: g in m.value ==> g < m.next)
  }

  /** `$x = v` changes the value of the group of `$x`. */
  function SimpleSet(m: Simple, x: nat, v: Value): Simple {
    if x in m.group then m.(value := m.value[m.group[x] := v]) else m
  }

  /** `$x = &$y` moves `$x` to the group of `$y`. */
  function SimpleRef(m: Simple, x: nat, y: nat): Simple {
    if y in m.group then m.(group := m.group[x := m.group[y]]) else m
  }

  /** A new variable in a group of its own. */
  function SimpleDeclare(m: Simple, x: nat): Simple {
    Simple(m.group[x := m.next], m.value[m.next := Null], m.next + 1)
  }

  function SimpleUnset(m: Simple, x: nat): Simple { m.(group := m.group - {x}) }

  function SimpleGet(m: Simple, x: nat): Value {
    if x in m.group && m.group[x] in m.value then m.value[m.group[x]] else Null
  }

  function SimpleTouch(m: Simple, x: nat): Simple { if x in m.group then m else SimpleDeclare(m, x) }

  /** Statements of a program over variables. */
  datatype Op = OpConst(x: nat, v: Value) | OpCopy(x: nat, y: nat) | OpRef(x: nat, y: nat) | OpUnset(x: nat)

  function SimpleStep(m: Simple, op: Op): Simple {
    match op
    case OpConst(x, v) => SimpleSet(SimpleTouch(m, x), x, v)
    case OpCopy(x, y) => SimpleSet(SimpleTouch(m, x), x, SimpleGet(m, y))
    case OpRef(x, y) => SimpleRef(SimpleTouch(SimpleTouch(m, y), x), x, y)
    case OpUnset(x) => if x in m.group then SimpleUnset(m, x) else m
  }

  function SimpleRun(ops: seq<Op>): Simple {
    if ops == [] then Simple(map[], map[], 0) else SimpleStep(SimpleRun(ops[..|ops| - 1]), ops[|ops| - 1])
  }

  /** Two variables are references to one another. */
  ghost predicate Alias(s: Vars, x: nat, y: nat)
    requires Inv(s) && x in s.slot && y in s.slot
  {
    s.slot[x] == s.slot[y] && (assert s.slot[x] in s.cell; s.cell[s.slot[x]].isRef)
  }

  ghost predicate Refines(s: Vars, m: Simple)
    requires Inv(s)
  {
    && SimpleOK(m) && m.group.Keys == s.slot.Keys
    && (forall x {:trigger s.slot[x]} :: x in s.slot ==> m.value[m.group[x]] == s.cell[s.slot[x]].value)
    && (forall x, y {:trigger Alias(s, x, y)} :: x in s.slot && y in s.slot && x != y ==> (m.group[x] == m.group[y] <==> Alias(s, x, y)))
  }

  // ----- changes

  /** `i_zval_ptr_dtor`: one holder less; a cell without holders is freed, one with a single holder is no
      reference any more. */
  function Drop(cell: map<int, Cell>, c: int): (rest: map<int, Cell>)
    requires c in cell && cell[c].refcount >= 1
    ensures c in rest <==> cell[c].refcount > 1
    ensures c in rest ==> rest[c].value == cell[c].value && rest[c].refcount + 1 == cell[c].refcount
    ensures c in rest ==> (rest[c].isRef <==> cell[c].isRef && rest[c].refcount > 1)
    ensures forall d :: d != c ==> (d in rest <==> d in cell) && (d in cell ==> rest[d] == cell[d])
  {
    var k := cell[c];
    if k.refcount == 1 then cell - {c} else cell[c := Cell(k.value, k.refcount - 1, k.isRef && k.refcount != 2)]
  }

  function AddRef(cell: map<int, Cell>, c: int): map<int, Cell>
    requires c in cell
  {
    cell[c := cell[c].(refcount := cell[c].refcount + 1)]
  }

  /** Slot `x` now holds cell `d`. */
  function Redirect(s: Vars, x: nat, d: int): Vars
    requires x in s.slot && s.slot[x] in s.cell && d in s.cell && d != s.slot[x] && s.cell[s.slot[x]].refcount >= 1
  {
    Vars(s.slot[x := d], Drop(AddRef(s.cell, d), s.slot[x]))
  }

  /** Slot `x` now holds a cell of its own, at address `k`. */
  function Fresh(s: Vars, x: nat, k: int, v: Value): Vars
    requires x in s.slot && s.slot[x] in s.cell && s.cell[s.slot[x]].refcount >= 1
  {
    Vars(s.slot[x := k], Drop(s.cell, s.slot[x])[k := Cell(v, 1, false)])
  }

  function Write(s: Vars, c: int, v: Value): Vars
    requires c in s.cell
  {
    s.(cell := s.cell[c := s.cell[c].(value := v)])
  }

  function Mark(s: Vars, c: int): Vars
    requires c in s.cell
  {
    s.(cell := s.cell[c := s.cell[c].(isRef := true)])
  }

  // ----- which cells are shared, copied and written

  /** Slot `x` has a cell with a holder. */
  predicate Held(s: Vars, x: nat) {
    x in s.slot && s.slot[x] in s.cell && s.cell[s.slot[x]].refcount >= 1
  }

  /** A value assigned: written into the cell, or into a new cell `k` if the cell is shared and no reference. */
  ghost predicate ConstCells(s: Vars, x: nat, v: Value, k: int, t: Vars) {
    && Held(s, x)
    && var c := s.slot[x];
      t == if s.cell[c].refcount > 1 && !s.cell[c].isRef then Fresh(s, x, k, v) else Write(s, c, v)
  }

  /** A cell assigned: shared if neither it nor the target is a reference, else copied; and copied into a new cell
      only if the target shares its own. */
  ghost predicate CopyCells(s: Vars, x: nat, value: int, k: int, t: Vars) {
    && Held(s, x) && value in s.cell
    && var c, v := s.slot[x], s.cell[value].value;
      t == if c == value then s
           else if !s.cell[c].isRef && !s.cell[value].isRef then Redirect(s, x, value)
           else if s.cell[c].isRef || s.cell[c].refcount == 1 then Write(s, c, v)
           else Fresh(s, x, k, v)
  }

  /** A cell that is no reference becomes one of slot `x` alone: a copy if it is shared. */
  ghost predicate BrokenCells(s: Vars, x: nat, k: int, t: Vars) {
    && Held(s, x)
    && var c := s.slot[x];
      t == if s.cell[c].refcount > 1 then Mark(Fresh(s, x, k, s.cell[c].value), k) else Mark(s, c)
  }

  /** Two slots of one cell get it as a reference: a copy if others hold it too. */
  ghost predicate PairedCells(s: Vars, x: nat, y: nat, k: int, t: Vars) {
    && Held(s, x) && Held(s, y)
    && var c := s.slot[x];
      if c == UNINIT || s.cell[c].refcount > 2 then
        && var u := Fresh(s, x, k, s.cell[c].value);
        y in u.slot && u.slot[y] in u.cell && u.slot[y] != k && u.cell[u.slot[y]].refcount >= 1 &&
          t == Mark(Redirect(u, y, k), k)
      else t == Mark(s, c)
  }

  /** A reference assigned: slot `x` holds the cell of `y`, which is a reference. */
  ghost predicate RefCells(s: Vars, x: nat, y: nat, k: int, t: Vars) {
    && Held(s, x) && Held(s, y)
    && if s.slot[x] != s.slot[y] then
         if s.cell[s.slot[y]].isRef then t == Redirect(s, x, s.slot[y])
         else exists u :: BrokenCells(s, y, k, u) && RedirectedTo(u, x, y, t)
       else if s.cell[s.slot[x]].isRef then t == s
       else if x == y then BrokenCells(s, x, k, t)
       else PairedCells(s, x, y, k, t)
  }

  ghost predicate RedirectedTo(s: Vars, x: nat, y: nat, t: Vars) {
    Held(s, x) && Held(s, y) && s.slot[x] != s.slot[y] && t == Redirect(s, x, s.slot[y])
  }

  /** A variable fetched for writing. */
  ghost predicate TouchCells(s: Vars, x: nat, t: Vars) {
    UNINIT in s.cell && t == if x in s.slot then s else Vars(s.slot[x := UNINIT], AddRef(s.cell, UNINIT))
  }

  ghost predicate UnsetCells(s: Vars, x: nat, t: Vars) {
    Held(s, x) && t == Vars(s.slot - {x}, Drop(s.cell, s.slot[x]))
  }

  /** What a statement does to the cells; `k` is the address of the next new one. */
  ghost predicate StepCells(s: Vars, op: Op, k: int, t: Vars) {
    match op
    case OpConst(x, v) => exists u :: TouchCells(s, x, u) && ConstCells(u, x, v, k, t)
    case OpCopy(x, y) =>
      var c := if y in s.slot then s.slot[y] else UNINIT;
      exists u :: TouchCells(s, x, u) && CopyCells(u, x, c, k, t)
    case OpRef(x, y) => exists u, w :: TouchCells(s, y, u) && TouchCells(u, x, w) && RefCells(w, x, y, k, t)
    case OpUnset(x) => if x in s.slot then UnsetCells(s, x, t) else t == s
  }

  // ----- holders

  lemma HoldersMove(slot: map<nat, int>, x: nat, d: int)
    requires x in slot && slot[x] != d
    ensures |Holders(slot[x := d], d)| == |Holders(slot, d)| + 1
    ensures |Holders(slot[x := d], slot[x])| == |Holders(slot, slot[x])| - 1
    ensures forall e :: e != d && e != slot[x] ==> Holders(slot[x := d], e) == Holders(slot, e)
  {
    var c := slot[x];
    assert Holders(slot[x := d], d) == Holders(slot, d) + {x};
    assert x in Holders(slot, c) && Holders(slot[x := d], c) == Holders(slot, c) - {x};
  }

  lemma HeldCell(s: Vars, x: nat)
    requires Inv(s) && x in s.slot
    ensures s.slot[x] in s.cell && CellOK(s, s.slot[x]) &&
      s.cell[s.slot[x]].refcount >= (if s.slot[x] == UNINIT then 3 else 1)
  {
    assert x in Holders(s.slot, s.slot[x]);
  }

  /** With a count of one the only holder is `x`. */
  lemma OnlyHolder(s: Vars, x: nat)
    requires Inv(s) && x in s.slot && s.slot[x] in s.cell && s.cell[s.slot[x]].refcount == 1
    ensures s.slot[x] != UNINIT && forall y :: y in s.slot && y != x ==> s.slot[y] != s.slot[x]
  {
    HeldCell(s, x);
    var h := Holders(s.slot, s.slot[x]);
    forall y | y in s.slot && y != x ensures s.slot[y] != s.slot[x] {
      if y in h { assert {x, y} <= h; Subset({x, y}, h); }
    }
  }

  lemma Subset(a: set<nat>, b: set<nat>)
    requires a <= b
    ensures |a| <= |b|
  {
    assert b == a + (b - a);
  }

  lemma RedirectInv(s: Vars, x: nat, d: int)
    requires Inv(s) && x in s.slot && d in s.cell && d != s.slot[x]
    ensures s.slot[x] in s.cell && s.cell[s.slot[x]].refcount >= 1 && Inv(Redirect(s, x, d))
  {
    HeldCell(s, x);
    var t, c := Redirect(s, x, d), s.slot[x];
    HoldersMove(s.slot, x, d);
    assert CellOK(s, d);
    forall e | e in t.cell ensures CellOK(t, e) { assert CellOK(s, e); }
    forall y | y in t.slot ensures t.slot[y] in t.cell {
      if y != x && s.slot[y] == c { OthersHold(s, x, y); }
    }
  }

  lemma OthersHold(s: Vars, x: nat, y: nat)
    requires Inv(s) && x in s.slot && y in s.slot && x != y && s.slot[x] == s.slot[y]
    ensures s.slot[x] in s.cell && s.cell[s.slot[x]].refcount >= 2
  {
    HeldCell(s, x);
    if s.cell[s.slot[x]].refcount == 1 { OnlyHolder(s, x); }
  }

  lemma FreshInv(s: Vars, x: nat, k: int, v: Value)
    requires Inv(s) && x in s.slot && k !in s.cell
    ensures s.slot[x] in s.cell && s.cell[s.slot[x]].refcount >= 1 && Inv(Fresh(s, x, k, v))
  {
    HeldCell(s, x);
    var t, c := Fresh(s, x, k, v), s.slot[x];
    HoldersMove(s.slot, x, k);
    NoHolders(s, k);
    forall e | e in t.cell ensures CellOK(t, e) { if e != k { assert CellOK(s, e); } }
    forall y | y in t.slot ensures t.slot[y] in t.cell {
      if y != x && s.slot[y] == c { OthersHold(s, x, y); }
    }
  }

  lemma NoHolders(s: Vars, k: int)
    requires Inv(s) && k !in s.cell
    ensures Holders(s.slot, k) == {}
  {}

  lemma SameSlotsInv(s: Vars, t: Vars)
    requires Inv(s) && t.slot == s.slot && t.cell.Keys == s.cell.Keys
    requires forall c {:trigger t.cell[c]} :: c in t.cell ==> t.cell[c].refcount == s.cell[c].refcount
    requires t.cell[UNINIT] == s.cell[UNINIT]
    ensures Inv(t)
  {
    forall c | c in t.cell ensures CellOK(t, c) { assert CellOK(s, c); }
  }

  // ----- each change refines a change of the simple store

  lemma FreshRefines(s: Vars, m: Simple, x: nat, k: int, v: Value)
    requires Inv(s) && Refines(s, m) && x in s.slot && k !in s.cell && !s.cell[s.slot[x]].isRef
    ensures s.cell[s.slot[x]].refcount >= 1 && Inv(Fresh(s, x, k, v)) && Refines(Fresh(s, x, k, v), SimpleSet(m, x, v))
  {
    FreshInv(s, x, k, v);
    HeldCell(s, x);
    SetKeepsGroups(s, m, Fresh(s, x, k, v), x, v);
  }

  /** A change that gives the group of `x` the value `v` and keeps which slots are aliases. */
  lemma SetKeepsGroups(s: Vars, m: Simple, t: Vars, x: nat, v: Value)
    requires Inv(s) && Refines(s, m) && Inv(t) && x in s.slot && t.slot.Keys == s.slot.Keys
    requires forall y {:trigger t.slot[y]} :: y in t.slot ==>
      t.cell[t.slot[y]].value == (if y == x || Alias(s, x, y) then v else s.cell[s.slot[y]].value)
    requires forall y, z {:trigger Alias(t, y, z)} :: y in t.slot && z in t.slot && y != z ==> (Alias(t, y, z) <==>
      Alias(s, y, z))
    ensures Refines(t, SimpleSet(m, x, v))
  {
    var n := SimpleSet(m, x, v);
    forall y | y in t.slot ensures n.value[n.group[y]] == t.cell[t.slot[y]].value {
      assert y != x ==> (m.group[x] == m.group[y] <==> Alias(s, x, y));
    }
  }

  lemma WriteRefines(s: Vars, m: Simple, x: nat, v: Value)
    requires Inv(s) && Refines(s, m) && x in s.slot && (s.cell[s.slot[x]].isRef || s.cell[s.slot[x]].refcount == 1)
    ensures Inv(Write(s, s.slot[x], v)) && Refines(Write(s, s.slot[x], v), SimpleSet(m, x, v))
  {
    HeldCell(s, x);
    if s.cell[s.slot[x]].refcount == 1 { OnlyHolder(s, x); }
    var t := Write(s, s.slot[x], v);
    SameSlotsInv(s, t);
    SetKeepsGroups(s, m, t, x, v);
  }

  lemma ShareRefines(s: Vars, m: Simple, x: nat, d: int)
    requires Inv(s) && Refines(s, m) && x in s.slot && d in s.cell && d != s.slot[x] && !s.cell[s.slot[x]].isRef &&
      !s.cell[d].isRef
    ensures s.cell[s.slot[x]].refcount >= 1
    ensures Inv(Redirect(s, x, d)) && Refines(Redirect(s, x, d), SimpleSet(m, x, s.cell[d].value))
  {
    RedirectInv(s, x, d);
    SetKeepsGroups(s, m, Redirect(s, x, d), x, s.cell[d].value);
  }

  /** Marking the cell of a single holder makes no aliases. */
  lemma MarkRefines(s: Vars, m: Simple, x: nat)
    requires Inv(s) && Refines(s, m) && x in s.slot && s.cell[s.slot[x]].refcount == 1
    ensures Inv(Mark(s, s.slot[x])) && Refines(Mark(s, s.slot[x]), m)
  {
    OnlyHolder(s, x);
    var t := Mark(s, s.slot[x]);
    SameSlotsInv(s, t);
    forall y, z | y in t.slot && z in t.slot && y != z ensures Alias(t, y, z) <==> Alias(s, y, z) {}
  }

  /** Marking the cell of two holders makes them aliases of one another. */
  lemma PairRefines(s: Vars, m: Simple, x: nat, y: nat)
    requires Inv(s) && Refines(s, m) && x in s.slot && y in s.slot && x != y && s.slot[x] == s.slot[y]
    requires s.slot[x] != UNINIT && s.cell[s.slot[x]].refcount == 2 && !s.cell[s.slot[x]].isRef
    ensures Inv(Mark(s, s.slot[x])) && Refines(Mark(s, s.slot[x]), SimpleRef(m, x, y))
  {
    var t, n := Mark(s, s.slot[x]), SimpleRef(m, x, y);
    SameSlotsInv(s, t);
    TwoHolders(s, x, y);
    assert m.group[x] != m.group[y] && s.cell[s.slot[y]].value == s.cell[s.slot[x]].value by { assert !Alias(s, x, y); }
    forall a, b | a in t.slot && b in t.slot && a != b ensures n.group[a] == n.group[b] <==> Alias(t, a, b) {
      assert m.group[a] == m.group[b] <==> Alias(s, a, b);
      if a != y { assert m.group[a] == m.group[y] <==> Alias(s, a, y); }
      if b != y { assert m.group[b] == m.group[y] <==> Alias(s, b, y); }
    }
  }

  lemma TwoHolders(s: Vars, x: nat, y: nat)
    requires Inv(s) && x in s.slot && y in s.slot && x != y && s.slot[x] == s.slot[y]
    requires s.slot[x] != UNINIT && s.cell[s.slot[x]].refcount == 2
    ensures forall z :: z in s.slot && s.slot[z] == s.slot[x] ==> z == x || z == y
  {
    var h := Holders(s.slot, s.slot[x]);
    assert CellOK(s, s.slot[x]);
    forall z | z in s.slot && s.slot[z] == s.slot[x] ensures z == x || z == y {
      assert {x, y, z} <= h;
      Subset({x, y, z}, h);
    }
  }

  /** Joining a reference cell: `x` leaves its group for that of `y`. */
  lemma JoinRefines(s: Vars, m: Simple, x: nat, y: nat)
    requires Inv(s) && Refines(s, m) && x in s.slot && y in s.slot && s.slot[x] != s.slot[y] && s.cell[s.slot[y]].isRef
    ensures s.cell[s.slot[x]].refcount >= 1
    ensures Inv(Redirect(s, x, s.slot[y])) && Refines(Redirect(s, x, s.slot[y]), SimpleRef(m, x, y))
  {
    RedirectInv(s, x, s.slot[y]);
    var t, n := Redirect(s, x, s.slot[y]), SimpleRef(m, x, y);
    forall a, b | a in t.slot && b in t.slot && a != b ensures n.group[a] == n.group[b] <==> Alias(t, a, b) {
      JoinAlias(s, m, x, y, a, b);
    }
  }

  lemma JoinAlias(s: Vars, m: Simple, x: nat, y: nat, a: nat, b: nat)
    requires Inv(s) && Refines(s, m) && x in s.slot && y in s.slot && s.slot[x] != s.slot[y] && s.cell[s.slot[y]].isRef
    requires s.cell[s.slot[x]].refcount >= 1 && Inv(Redirect(s, x, s.slot[y])) && a in s.slot && b in s.slot && a != b
    ensures var n := SimpleRef(m, x, y); n.group[a] == n.group[b] <==> Alias(Redirect(s, x, s.slot[y]), a, b)
  {
    var t, c := Redirect(s, x, s.slot[y]), s.slot[x];
    assert m.group[a] == m.group[b] <==> Alias(s, a, b);
    if a == x && b != y { assert m.group[y] == m.group[b] <==> Alias(s, y, b); }
    if b == x && a != y { assert m.group[y] == m.group[a] <==> Alias(s, y, a); }
    if a != x && b != x && s.slot[a] == c && s.slot[b] == c { ThreeHold(s, x, a, b); }
  }

  lemma ThreeHold(s: Vars, x: nat, a: nat, b: nat)
    requires Inv(s) && x in s.slot && a in s.slot && b in s.slot && x != a && x != b && a != b
    requires s.slot[a] == s.slot[x] && s.slot[b] == s.slot[x]
    ensures s.cell[s.slot[x]].refcount >= 3
  {
    HeldCell(s, x);
    Subset({x, a, b}, Holders(s.slot, s.slot[x]));
  }

  // ----- variables come and go

  function Declared(s: Vars, x: nat): Vars
    requires UNINIT in s.cell
  {
    Vars(s.slot[x := UNINIT], AddRef(s.cell, UNINIT))
  }

  lemma DeclareInv(s: Vars, x: nat)
    requires Inv(s) && x !in s.slot
    ensures Inv(Declared(s, x))
  {
    var t := Declared(s, x);
    assert Holders(t.slot, UNINIT) == Holders(s.slot, UNINIT) + {x};
    forall c | c in t.cell ensures CellOK(t, c) {
      assert CellOK(s, c);
      if c != UNINIT { assert Holders(t.slot, c) == Holders(s.slot, c); }
    }
  }

  lemma DeclareRefines(s: Vars, m: Simple, x: nat)
    requires Inv(s) && Refines(s, m) && x !in s.slot
    ensures Inv(Declared(s, x)) && Refines(Declared(s, x), SimpleDeclare(m, x))
  {
    DeclareInv(s, x);
    var t, n := Declared(s, x), SimpleDeclare(m, x);
    forall a, b | a in t.slot && b in t.slot && a != b ensures n.group[a] == n.group[b] <==> Alias(t, a, b) {
      if a != x && b != x { assert m.group[a] == m.group[b] <==> Alias(s, a, b); }
    }
  }

  function Unsetted(s: Vars, x: nat): Vars
    requires x in s.slot && s.slot[x] in s.cell && s.cell[s.slot[x]].refcount >= 1
  {
    Vars(s.slot - {x}, Drop(s.cell, s.slot[x]))
  }

  lemma UnsetInv(s: Vars, x: nat)
    requires Inv(s) && x in s.slot
    ensures s.slot[x] in s.cell && s.cell[s.slot[x]].refcount >= 1 && Inv(Unsetted(s, x))
  {
    HeldCell(s, x);
    var t, c := Unsetted(s, x), s.slot[x];
    assert x in Holders(s.slot, c) && Holders(t.slot, c) == Holders(s.slot, c) - {x};
    forall e | e in t.cell ensures CellOK(t, e) {
      assert CellOK(s, e);
      if e != c { assert Holders(t.slot, e) == Holders(s.slot, e); }
    }
    forall y | y in t.slot ensures t.slot[y] in t.cell {
      if s.slot[y] == c { OthersHold(s, x, y); }
    }
  }

  lemma UnsetRefines(s: Vars, m: Simple, x: nat)
    requires Inv(s) && Refines(s, m) && x in s.slot
    ensures s.slot[x] in s.cell && s.cell[s.slot[x]].refcount >= 1 && Inv(Unsetted(s, x))
    ensures Refines(Unsetted(s, x), SimpleUnset(m, x))
  {
    UnsetInv(s, x);
    var t, n := Unsetted(s, x), SimpleUnset(m, x);
    forall a, b | a in t.slot && b in t.slot && a != b ensures n.group[a] == n.group[b] <==> Alias(t, a, b) {
      assert m.group[a] == m.group[b] <==> Alias(s, a, b);
      if s.slot[a] == s.slot[x] && s.slot[b] == s.slot[x] { ThreeHold(s, x, a, b); }
    }
  }

  // ----- the operations

  class Variables {
    var slot: map<nat, int>
    var cell: map<int, Cell>
    var next: int
    ghost var simple: Simple

    ghost function State(): Vars
      reads this
    {
      Vars(slot, cell)
    }

    ghost predicate Valid()
      reads this
    {
      Inv(State()) && Refines(State(), simple) && forall c :: c in cell ==> c < next
    }

    constructor ()
      ensures Valid() && simple == Simple(map[], map[], 0)
      ensures State() == Vars(map[], map[UNINIT := Cell(Null, 2, false)])
    {
      slot, cell, next := map[], map[UNINIT := Cell(Null, 2, false)], 1;
      simple := Simple(map[], map[], 0);
      new;
      assert Holders(slot, UNINIT) == {};
    }

    /** `ALLOC_ZVAL` and `INIT_PZVAL_COPY`, the old cell of the slot losing one holder. */
    method Split(x: nat, v: Value)
      requires Valid() && x in slot && slot[x] in cell && !cell[slot[x]].isRef
      modifies this
      ensures Valid() && simple == SimpleSet(old(simple), x, v)
      ensures slot == old(slot)[x := old(next)] && old(next) !in old(cell) && old(next) in cell &&
        cell[slot[x]] == Cell(v, 1, false)
      ensures old(cell[slot[x]].refcount) >= 1 && State() == Fresh(old(State()), x, old(next), v)
    {
      FreshRefines(State(), simple, x, next, v);
      var c := slot[x];
      cell := Drop(cell, c)[next := Cell(v, 1, false)];
      slot := slot[x := next];
      next := next + 1;
      simple := SimpleSet(simple, x, v);
    }

    /** The value written into the cell of the slot. */
    method Overwrite(x: nat, v: Value)
      requires Valid() && x in slot && slot[x] in cell && (cell[slot[x]].isRef || cell[slot[x]].refcount == 1)
      modifies this
      ensures Valid() && simple == SimpleSet(old(simple), x, v)
      ensures State() == Write(old(State()), old(slot[x]), v)
    {
      WriteRefines(State(), simple, x, v);
      var c := slot[x];
      cell := cell[c := cell[c].(value := v)];
      simple := SimpleSet(simple, x, v);
    }

    /** The slot made one more holder of the cell `value`. */
    method Share(x: nat, value: int)
      requires Valid() && x in slot && slot[x] in cell && value in cell && slot[x] != value && !cell[slot[x]].isRef &&
        !cell[value].isRef
      modifies this
      ensures Valid() && simple == SimpleSet(old(simple), x, old(cell[value].value))
      ensures slot == old(slot)[x := value] && value in cell &&
        cell[value] == old(cell[value]).(refcount := old(cell[value].refcount) + 1)
      ensures Held(old(State()), x) && State() == Redirect(old(State()), x, value)
    {
      ShareRefines(State(), simple, x, value);
      var c, v := slot[x], cell[value].value;
      cell := Drop(AddRef(cell, value), c);
      slot := slot[x := value];
      simple := SimpleSet(simple, x, v);
    }

    /** `zend_assign_tmp_to_variable` and `zend_assign_const_to_variable`. */
    method AssignConst(x: nat, v: Value)
      requires Valid() && x in slot
      modifies this
      ensures Valid() && simple == SimpleSet(old(simple), x, v)
      ensures ConstCells(old(State()), x, v, old(next), State())
    {
      hide Refines;
      HeldCell(State(), x);
      var c := slot[x];
      if cell[c].refcount > 1 && !cell[c].isRef {
        Split(x, v);
      } else {
        Overwrite(x, v);
      }
    }

    /** `zend_assign_to_variable`, the value given as a cell. */
    method AssignCell(x: nat, value: int)
      requires Valid() && x in slot && value in cell
      modifies this
      ensures Valid() && simple == SimpleSet(old(simple), x, old(cell[value].value))
      ensures CopyCells(old(State()), x, value, old(next), State())
    {
      hide Refines;
      HeldCell(State(), x);
      SetSame(State(), simple, x);
      var c, v := slot[x], cell[value].value;
      if !cell[c].isRef {
        if cell[c].refcount == 1 {
          if c == value {
            return;
          } else if !cell[value].isRef {
            Share(x, value);
          } else {
            Overwrite(x, v);
          }
        } else if cell[value].isRef {
          Split(x, v);
        } else if c != value {
          Share(x, value);
        }
      } else if c != value {
        Overwrite(x, v);
      }
    }

    /** `zend_assign_to_variable_reference` */
    method AssignRef(x: nat, y: nat)
      requires Valid() && x in slot && y in slot
      modifies this
      ensures Valid() && simple == SimpleRef(old(simple), x, y)
      ensures RefCells(old(State()), x, y, old(next), State())
    {
      hide Refines, Inv, BrokenCells, PairedCells;
      HeldCell(State(), x);
      HeldCell(State(), y);
      if slot[x] != slot[y] {
        if !cell[slot[y]].isRef {
          Break(y);
        }
        ghost var u := State();
        Join(x, y);
        assert RedirectedTo(u, x, y, State());
      } else if !cell[slot[x]].isRef {
        if x == y {
          Break(x);
          RefSelf(simple, x);
        } else {
          Pair(x, y);
        }
      } else {
        RefAliases(State(), simple, x, y);
      }
    }

    /** A cell that is not a reference becomes one, with `x` as its only holder: a copy if it is shared. */
    method Break(x: nat)
      requires Valid() && x in slot && slot[x] in cell && !cell[slot[x]].isRef
      modifies this
      ensures Valid() && simple == old(simple) && slot.Keys == old(slot).Keys
      ensures slot[x] in cell && cell[slot[x]].isRef
      ensures forall z :: z in slot && z != x ==> slot[z] == old(slot[z]) && slot[z] != slot[x]
      ensures BrokenCells(old(State()), x, old(next), State())
    {
      hide Refines;
      SetSame(State(), simple, x);
      HeldCell(State(), x);
      if cell[slot[x]].refcount > 1 {
        Split(x, cell[slot[x]].value);
      }
      HeldCell(State(), x);
      OnlyHolder(State(), x);
      MarkRefines(State(), simple, x);
      var c := slot[x];
      cell := cell[c := cell[c].(isRef := true)];
    }

    /** The slot made one more holder of the reference cell of `y`; its own cell loses it. */
    method Join(x: nat, y: nat)
      requires Valid() && x in slot && y in slot && slot[x] != slot[y] && slot[y] in cell && cell[slot[y]].isRef
      modifies this
      ensures Valid() && simple == SimpleRef(old(simple), x, y)
      ensures RedirectedTo(old(State()), x, y, State())
    {
      HeldCell(State(), x);
      HeldCell(State(), y);
      JoinRefines(State(), simple, x, y);
      var c, d := slot[x], slot[y];
      cell := Drop(AddRef(cell, d), c);
      slot := slot[x := d];
      simple := SimpleRef(simple, x, y);
    }

    /** Two slots of one cell that is not a reference: they get it for themselves if others hold it too. */
    method Pair(x: nat, y: nat)
      requires Valid() && x in slot && y in slot && x != y && slot[x] == slot[y] && slot[x] in cell &&
        !cell[slot[x]].isRef
      modifies this
      ensures Valid() && simple == SimpleRef(old(simple), x, y)
      ensures PairedCells(old(State()), x, y, old(next), State())
    {
      hide Refines;
      var c := slot[x];
      HeldCell(State(), x);
      HeldCell(State(), y);
      SetSame(State(), simple, x);
      SetSame(State(), simple, y);
      OthersHold(State(), x, y);
      if c == UNINIT || cell[c].refcount > 2 {
        Split(x, cell[c].value);
        Share(y, slot[x]);
      }
      PairRefines(State(), simple, x, y);
      var d := slot[x];
      cell := cell[d := cell[d].(isRef := true)];
      simple := SimpleRef(simple, x, y);
    }

    /** The value a variable has when it is read. */
    method Get(x: nat) returns (v: Value)
      requires Valid()
      ensures v == SimpleGet(simple, x)
    {
      v := if x in slot then cell[slot[x]].value else cell[UNINIT].value;
    }

    /** A variable fetched for writing. */
    method Touch(x: nat)
      requires Valid()
      modifies this
      ensures Valid() && x in slot && simple == SimpleTouch(old(simple), x)
      ensures forall y :: y in old(slot) ==> y in slot && slot[y] == old(slot[y])
      ensures forall c :: c in old(cell) ==> c in cell && cell[c].value == old(cell[c].value)
      ensures TouchCells(old(State()), x, State()) && next == old(next)
    {
      hide Refines;
      SameVariables(State(), simple);
      if x !in slot {
        Declare(x);
      }
    }

    method Perform(op: Op)
      requires Valid()
      modifies this
      ensures Valid() && simple == SimpleStep(old(simple), op)
      ensures StepCells(old(State()), op, old(next), State())
    {
      hide Refines, Inv, ConstCells, CopyCells, RefCells, UnsetCells;
      CommonFacts(State(), simple);
      match op {
        case OpConst(x, v) =>
          Touch(x);
          ghost var u := State();
          AssignConst(x, v);
          assert TouchCells(old(State()), x, u);
        case OpCopy(x, y) =>
          var value := if y in slot then slot[y] else UNINIT;
          Touch(x);
          ghost var u := State();
          AssignCell(x, value);
          assert TouchCells(old(State()), x, u);
        case OpRef(x, y) =>
          Touch(y);
          ghost var u := State();
          Touch(x);
          ghost var w := State();
          AssignRef(x, y);
          assert TouchCells(old(State()), y, u) && TouchCells(u, x, w);
        case OpUnset(x) =>
          if x in slot {
            Unset(x);
          }
      }
    }

    /** A variable fetched for writing that does not exist yet. */
    method Declare(x: nat)
      requires Valid() && x !in slot
      modifies this
      ensures Valid() && x in slot && simple == SimpleDeclare(old(simple), x) && slot == old(slot)[x := UNINIT]
      ensures TouchCells(old(State()), x, State()) && next == old(next)
      ensures forall c :: c in old(cell) ==> c in cell && cell[c].value == old(cell[c].value)
    {
      DeclareRefines(State(), simple, x);
      slot := slot[x := UNINIT];
      cell := AddRef(cell, UNINIT);
      simple := SimpleDeclare(simple, x);
    }

    /** A variable removed, through `i_zval_ptr_dtor`. */
    method Unset(x: nat)
      requires Valid() && x in slot
      modifies this
      ensures Valid() && simple == SimpleUnset(old(simple), x)
      ensures UnsetCells(old(State()), x, State())
      ensures var c := old(slot[x]);
        && c in old(cell) && (c in cell <==> old(cell[c].refcount) > 1)
        && (c in cell ==> (cell[c].isRef <==> old(cell[c].isRef) && cell[c].refcount > 1))
    {
      HeldCell(State(), x);
      UnsetRefines(State(), simple, x);
      cell := Drop(cell, slot[x]);
      slot := slot - {x};
      simple := SimpleUnset(simple, x);
    }
  }

  /** Any program over plain and by-reference assignments: the cells agree with the simple store. */
  method Run(ops: seq<Op>) returns (vars: Variables, ghost trace: seq<Vars>)
    ensures fresh(vars) && vars.Valid() && vars.simple == SimpleRun(ops)
    ensures |trace| == |ops| + 1 && trace[|ops|] == vars.State()
    ensures trace[0] == Vars(map[], map[UNINIT := Cell(Null, 2, false)])
    ensures forall i {:trigger trace[i]} :: 0 <= i < |ops| ==> CellsMove(trace[i], ops[i], trace[i + 1])
  {
    vars := new Variables();
    trace := [vars.State()];
    var i := 0;
    while i < |ops|
      invariant 0 <= i <= |ops| && vars.Valid() && fresh(vars) && vars.simple == SimpleRun(ops[..i])
      invariant |trace| == i + 1 && trace[i] == vars.State() &&
        trace[0] == Vars(map[], map[UNINIT := Cell(Null, 2, false)])
      invariant forall j {:trigger trace[j]} :: 0 <= j < i ==> CellsMove(trace[j], ops[j], trace[j + 1])
    {
      hide StepCells;
      ghost var s, k := vars.State(), vars.next;
      vars.Perform(ops[i]);
      assert CellsMove(s, ops[i], vars.State());
      trace := trace + [vars.State()];
      assert ops[..i + 1][..i] == ops[..i];
      i := i + 1;
    }
    assert ops[..|ops|] == ops;
  }

  ghost predicate CellsMove(s: Vars, op: Op, t: Vars) { exists k :: StepCells(s, op, k, t) }

  lemma SameVariables(s: Vars, m: Simple)
    requires Inv(s) && Refines(s, m)
    ensures m.group.Keys == s.slot.Keys
  {}

  lemma CommonFacts(s: Vars, m: Simple)
    requires Inv(s) && Refines(s, m)
    ensures UNINIT in s.cell && s.cell[UNINIT].value == Null && m.group.Keys == s.slot.Keys
    ensures forall x {:trigger s.slot[x]} :: x in s.slot ==>
      s.slot[x] in s.cell && s.cell[s.slot[x]].value == SimpleGet(m, x)
  {}

  // ----- what that says of the cells

  function ValueOf(s: Vars, x: nat): Value
    requires x in s.slot && s.slot[x] in s.cell
  {
    s.cell[s.slot[x]].value
  }

  /** A store that refines an assignment: the new value is seen through `x` and its aliases, every other
      variable keeps its value, and aliases stay what they are. */
  lemma SetEffect(s: Vars, m: Simple, t: Vars, x: nat, v: Value, y: nat, z: nat)
    requires Inv(s) && Refines(s, m) && Inv(t) && Refines(t, SimpleSet(m, x, v)) && x in s.slot && y in s.slot &&
      z in s.slot
    ensures t.slot.Keys == s.slot.Keys && t.slot[z] in t.cell
    ensures ValueOf(t, z) == if z == x || Alias(s, x, z) then v else ValueOf(s, z)
    ensures y != z ==> (Alias(t, y, z) <==> Alias(s, y, z))
  {
    assert t.slot[z] == t.slot[z] && s.slot[z] == s.slot[z];
    assert z != x ==> (m.group[x] == m.group[z] <==> Alias(s, x, z));
    assert y != z ==> (m.group[y] == m.group[z] <==> Alias(s, y, z)) && (m.group[y] == m.group[z] <==> Alias(t, y, z));
  }

  /** A store that refines `$x = &$y`: `x` stands where `y` stands, among the aliases of `y` and with its
      value, and between other variables nothing changes. */
  lemma RefEffect(s: Vars, m: Simple, t: Vars, x: nat, y: nat, a: nat, b: nat)
    requires Inv(s) && Refines(s, m) && Inv(t) && Refines(t, SimpleRef(m, x, y)) && x in s.slot && y in s.slot &&
      a in s.slot && b in s.slot
    ensures t.slot.Keys == s.slot.Keys && t.slot[a] in t.cell
    ensures ValueOf(t, a) == ValueOf(s, if a == x then y else a)
    ensures a != b ==> var a', b' := if a == x then y else a, if b == x then y else b; Alias(t, a, b) <==>
      a' == b' || Alias(s, a', b')
  {
    var a', b' := if a == x then y else a, if b == x then y else b;
    assert t.slot[a] == t.slot[a] && s.slot[a'] == s.slot[a'];
    assert a' != b' ==> (m.group[a'] == m.group[b'] <==> Alias(s, a', b'));
    var n := SimpleRef(m, x, y);
    assert a != b ==> (n.group[a] == n.group[b] <==> Alias(t, a, b));
  }

  lemma RefSelf(m: Simple, x: nat)
    ensures SimpleRef(m, x, x) == m
  {
    if x in m.group { assert m.group[x := m.group[x]] == m.group; }
  }

  lemma RefAliases(s: Vars, m: Simple, x: nat, y: nat)
    requires Inv(s) && Refines(s, m) && x in s.slot && y in s.slot && Alias(s, x, y)
    ensures SimpleRef(m, x, y) == m
  {
    RefSelf(m, x);
    assert x != y ==> (m.group[x] == m.group[y] <==> Alias(s, x, y));
  }

  lemma SetSame(s: Vars, m: Simple, x: nat)
    requires Inv(s) && Refines(s, m) && x in s.slot
    ensures SimpleSet(m, x, s.cell[s.slot[x]].value) == m
  {
    assert m.value[m.group[x] := m.value[m.group[x]]] == m.value;
  }
}
