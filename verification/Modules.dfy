/** Extension modules: the registry is sorted so that no module stands before one it depends on, then
    started in that order. */
module Modules {
  datatype Kind = Required | Conflicts | Optional
  datatype Dep = Dep(name: string, kind: Kind)
  datatype Module = Module(name: string, deps: seq<Dep>, started: bool)

  function LowerChar(c: char): char { if 'A' <= c <= 'Z' then c + 32 as char else c }

  function Lower(s: string): string { if s == "" then "" else [LowerChar(s[0])] + Lower(s[1..]) }

  /** `strcasecmp` says equal; also the key of the registry. */
  predicate SameName(a: string, b: string) { Lower(a) == Lower(b) }

  /** Two characters are equal but for the case of a letter. */
  predicate SameLetter(a: char, b: char) {
    || a == b
    || ('A' <= a <= 'Z' && 'a' <= b <= 'z' && b as int - a as int == 'a' as int - 'A' as int)
    || ('A' <= b <= 'Z' && 'a' <= a <= 'z' && a as int - b as int == 'a' as int - 'A' as int)
  }

  /** Names agree if and only if they agree letter by letter, whatever the case. */
  lemma {:induction false} SameNameIff(a: string, b: string)
    ensures SameName(a, b) <==> |a| == |b| && forall i :: 0 <= i < |a| ==> SameLetter(a[i], b[i])
  {
    if a != "" && b != "" {
      SameNameIff(a[1..], b[1..]);
      HeadAndTail(a, b);
      assert Lower(a)[0] == LowerChar(a[0]) && Lower(a)[1..] == Lower(a[1..]);
      assert Lower(b)[0] == LowerChar(b[0]) && Lower(b)[1..] == Lower(b[1..]);
      SameLower(a[0], b[0]);
    }
  }

  lemma SameLower(a: char, b: char)
    ensures LowerChar(a) == LowerChar(b) <==> SameLetter(a, b)
  {}

  lemma HeadAndTail(a: string, b: string)
    requires a != "" && b != ""
    ensures (|a| == |b| && forall i :: 0 <= i < |a| ==> SameLetter(a[i], b[i])) <==>
      SameLetter(a[0], b[0]) && |a[1..]| == |b[1..]| && forall i :: 0 <= i < |a[1..]| ==>
        SameLetter(a[1..][i], b[1..][i])
  {
    if SameLetter(a[0], b[0]) && |a[1..]| == |b[1..]| && forall i :: 0 <= i < |a[1..]| ==>
      SameLetter(a[1..][i], b[1..][i]) {
      forall i | 0 <= i < |a| ensures SameLetter(a[i], b[i]) {
        if i > 0 { assert a[i] == a[1..][i - 1] && b[i] == b[1..][i - 1]; }
      }
    }
  }

  predicate Names(d: Dep, r: Module) { d.kind != Conflicts && SameName(d.name, r.name) }

  /** Module `m` has a required or optional dependency on `r`. */
  ghost predicate Wants(m: Module, r: Module) { exists d :: d in m.deps && Names(d, r) }

  ghost predicate Distinct(s: seq<Module>) {
    forall i, j {:trigger s[i].name, s[j].name} :: 0 <= i < |s| && 0 <= j < |s| && i != j ==>
      !SameName(s[i].name, s[j].name)
  }

  /** An unstarted module ranks above every other module it depends on: there is no cycle. */
  ghost predicate Ranked(s: seq<Module>, rank: map<string, nat>) {
    && (forall i {:trigger s[i]} :: 0 <= i < |s| ==> Lower(s[i].name) in rank)
    && (forall i, j {:trigger Wants(s[i], s[j])} :: 0 <= i < |s| && 0 <= j < |s| && i != j && !s[i].started && Wants(s[i], s[j]) ==>
          rank[Lower(s[j].name)] < rank[Lower(s[i].name)])
  }

  /** The first `n` modules have no dependency standing after them. */
  ghost predicate OrderedTo(s: seq<Module>, n: nat) {
    forall i, j {:trigger Wants(s[i], s[j])} :: 0 <= i < n && i < j < |s| && n <= |s| && !s[i].started ==>
      !Wants(s[i], s[j])
  }

  ghost predicate Ordered(s: seq<Module>) { OrderedTo(s, |s|) }

  // ----- the sort

  /** The first module from `k` on that dependency `d` names, or the length. */
  function FirstNamed(s: seq<Module>, d: Dep, k: nat): (j: nat)
    requires k <= |s|
    ensures k <= j <= |s| && (j < |s| ==> Names(d, s[j])) && forall l :: k <= l < j ==> !Names(d, s[l])
    decreases |s| - k
  {
    if k == |s| || Names(d, s[k]) then k else FirstNamed(s, d, k + 1)
  }

  /** The place of the module that the first satisfiable dependency from `d` on names, looked for after `i`. */
  function LaterFrom(s: seq<Module>, i: nat, d: nat): (j: nat)
    requires i < |s| && d <= |s[i].deps|
    ensures i < j <= |s| && (j < |s| ==> Wants(s[i], s[j]))
    ensures j == |s| ==> forall e, k {:trigger Names(s[i].deps[e], s[k])} :: d <= e < |s[i].deps| && i < k < |s| ==>
      !Names(s[i].deps[e], s[k])
    decreases |s[i].deps| - d
  {
    if d == |s[i].deps| then |s|
    else
      var j := FirstNamed(s, s[i].deps[d], i + 1);
      if j < |s| then assert s[i].deps[d] in s[i].deps; j else LaterFrom(s, i, d + 1)
  }

  /** A module after `i` that module `i` depends on, if `i` is not started; or the length. */
  function Later(s: seq<Module>, i: nat): (j: nat)
    requires i < |s|
    ensures i < j <= |s| && (j < |s| ==> !s[i].started && Wants(s[i], s[j]))
  {
    if s[i].started then |s| else LaterFrom(s, i, 0)
  }

  lemma NoneLater(s: seq<Module>, i: nat)
    requires i < |s| && Later(s, i) == |s|
    ensures s[i].started || forall k :: i < k < |s| ==> !Wants(s[i], s[k])
  {
    if !s[i].started {
      forall k | i < k < |s| ensures !Wants(s[i], s[k]) {
        forall d | d in s[i].deps ensures !Names(d, s[k]) {
          var e :| 0 <= e < |s[i].deps| && s[i].deps[e] == d;
          assert !Names(s[i].deps[e], s[k]);
        }
      }
    }
  }

  /** The search for a later module that the module at `i` depends on. */
  method FindLater(a: array<Module>, i: nat) returns (j: nat)
    requires i < a.Length
    ensures j == Later(a[..], i)
  {
    var m := a[i];
    ghost var s := a[..];
    if !m.started {
      var d := 0;
      while d < |m.deps|
        invariant 0 <= d <= |m.deps| && LaterFrom(s, i, 0) == LaterFrom(s, i, d)
      {
        if m.deps[d].kind != Conflicts {
          j := i + 1;
          while j < a.Length
            invariant i < j <= a.Length && FirstNamed(s, m.deps[d], i + 1) == FirstNamed(s, m.deps[d], j)
          {
            if SameName(m.deps[d].name, a[j].name) {
              return;
            }
            j := j + 1;
          }
        }
        d := d + 1;
      }
    }
    return a.Length;
  }

  /** Where the sort stands. */
  datatype Cursor = Cursor(list: seq<Module>, at: nat)

  /** One round of the sort: the module trades places with one it depends on, or is left behind. */
  function Round(c: Cursor): Cursor {
    if c.at >= |c.list| then c
    else
      var j := Later(c.list, c.at);
      if j < |c.list| then Cursor(Swap(c.list, c.at, j), c.at) else Cursor(c.list, c.at + 1)
  }

  function Rounds(c: Cursor, k: nat): Cursor
    decreases k
  {
    if k == 0 then c else Rounds(Round(c), k - 1)
  }

  /** The sort ends at all. */
  ghost predicate Ends(s: seq<Module>) {
    exists k: nat :: Rounds(Cursor(s, 0), k).at >= |s|
  }

  ghost predicate Acyclic(s: seq<Module>) { exists rank :: Ranked(s, rank) }

  /** `zend_sort_modules`: a module that depends on a later one trades places with it, and the place is
      looked at again. */
  method Sort(a: array<Module>, ghost rank: map<string, nat>)
    requires Ranked(a[..], rank)
    modifies a
    ensures multiset(a[..]) == multiset(old(a[..])) && Ordered(a[..])
    ensures old(Distinct(a[..])) ==> Distinct(a[..])
    ensures exists k: nat :: Rounds(Cursor(old(a[..]), 0), k) == Cursor(a[..], a.Length)
  {
    hide LaterFrom, Distinct, Lower;
    var i := 0;
    ghost var start, k: nat := Cursor(a[..], 0), 0;
    while i < a.Length
      invariant 0 <= i <= a.Length && multiset(a[..]) == multiset(old(a[..]))
      invariant old(Distinct(a[..])) ==> Distinct(a[..])
      invariant Ranked(a[..], rank) && OrderedTo(a[..], i) && Rounds(start, k) == Cursor(a[..], i)
      decreases a.Length - i, if i < a.Length then rank[Lower(a[..][i].name)] else 0
    {
      var j := FindLater(a, i);
      ghost var s := a[..];
      OneMoreRound(start, k);
      k := k + 1;
      if j < a.Length {
        SwapRanked(s, rank, i, j);
        SwapOrdered(s, i, j);
        SwapMultiset(s, i, j);
        if Distinct(s) { SwapDistinct(s, i, j); }
        a[i], a[j] := a[j], a[i];
        assert a[..] == Swap(s, i, j);
        assert Wants(s[i], s[j]);
      } else {
        NoneLater(s, i);
        i := i + 1;
      }
    }
  }

  lemma {:induction false} OneMoreRound(c: Cursor, k: nat)
    ensures Rounds(c, k + 1) == Round(Rounds(c, k))
    decreases k
  {
    if k > 0 { OneMoreRound(Round(c), k - 1); }
  }

  /** The sort ends if and only if its input has no cycle. */
  lemma EndsIff(s: seq<Module>)
    requires Distinct(s)
    ensures Ends(s) <==> Acyclic(s)
  {
    if k: nat :| Rounds(Cursor(s, 0), k).at >= |s| {
      RoundsKeep(Cursor(s, 0), k);
      var t := Rounds(Cursor(s, 0), k).list;
      OrderedIsRanked(t);
      var rank :| Ranked(t, rank);
      RankedPermutes(t, s, rank);
    }
    if rank :| Ranked(s, rank) {
      var k := EndsFrom(Cursor(s, 0), rank);
    }
  }

  lemma {:induction false} RoundsKeep(c: Cursor, k: nat)
    requires Distinct(c.list) && c.at <= |c.list| && OrderedTo(c.list, c.at)
    ensures var r := Rounds(c, k);
      && |r.list| == |c.list| && r.at <= |r.list| && multiset(r.list) == multiset(c.list)
      && Distinct(r.list) && OrderedTo(r.list, r.at)
    decreases k
  {
    if k > 0 {
      RoundKeeps(c);
      RoundsKeep(Round(c), k - 1);
    }
  }

  lemma RoundKeeps(c: Cursor)
    requires Distinct(c.list) && c.at <= |c.list| && OrderedTo(c.list, c.at)
    ensures var r := Round(c);
      && |r.list| == |c.list| && r.at <= |r.list| && multiset(r.list) == multiset(c.list)
      && Distinct(r.list) && OrderedTo(r.list, r.at)
  {
    if c.at < |c.list| {
      var j := Later(c.list, c.at);
      if j < |c.list| {
        SwapOrdered(c.list, c.at, j);
        SwapMultiset(c.list, c.at, j);
        SwapDistinct(c.list, c.at, j);
      } else {
        NoneLater(c.list, c.at);
      }
    }
  }

  lemma {:induction false} EndsFrom(c: Cursor, rank: map<string, nat>) returns (k: nat)
    requires Ranked(c.list, rank) && c.at <= |c.list|
    ensures Rounds(c, k).at >= |c.list|
    decreases |c.list| - c.at, RankAt(c, rank)
  {
    hide Ranked, Round, Lower;
    if c.at == |c.list| {
      k := 0;
    } else {
      RoundShrinks(c, rank);
      var l := EndsFrom(Round(c), rank);
      k := l + 1;
    }
  }

  ghost function RankAt(c: Cursor, rank: map<string, nat>): nat {
    if c.at < |c.list| && Lower(c.list[c.at].name) in rank then rank[Lower(c.list[c.at].name)] else 0
  }

  lemma RoundShrinks(c: Cursor, rank: map<string, nat>)
    requires Ranked(c.list, rank) && c.at < |c.list|
    ensures var r := Round(c);
      && Ranked(r.list, rank) && |r.list| == |c.list| && r.at <= |r.list|
      && (r.at > c.at || (r.at == c.at && RankAt(r, rank) < RankAt(c, rank)))
  {
    hide LaterFrom, Lower;
    var j := Later(c.list, c.at);
    if j < |c.list| {
      SwapRanked(c.list, rank, c.at, j);
      assert Wants(c.list[c.at], c.list[j]);
      hide Wants;
    }
  }

  /** What ranks a list ranks every arrangement of it. */
  lemma RankedPermutes(s: seq<Module>, t: seq<Module>, rank: map<string, nat>)
    requires Ranked(s, rank) && multiset(t) == multiset(s) && Distinct(t)
    ensures Ranked(t, rank)
  {
    forall i {:trigger t[i]} | 0 <= i < |t| ensures Lower(t[i].name) in rank {
      var i' := Whereabouts(t, s, i);
    }
    forall i, j {:trigger Wants(t[i], t[j])} | 0 <= i < |t| && 0 <= j < |t| && i != j && !t[i].started &&
      Wants(t[i], t[j])
      ensures rank[Lower(t[j].name)] < rank[Lower(t[i].name)]
    {
      var i' := Whereabouts(t, s, i);
      var j' := Whereabouts(t, s, j);
      assert !SameName(t[i].name, t[j].name);
      assert Wants(s[i'], s[j']);
    }
  }

  lemma Whereabouts(t: seq<Module>, s: seq<Module>, i: nat) returns (k: nat)
    requires multiset(t) == multiset(s) && i < |t|
    ensures k < |s| && s[k] == t[i]
  {
    assert t[i] in multiset(t);
    k :| 0 <= k < |s| && s[k] == t[i];
  }

  function Swap(s: seq<Module>, i: nat, j: nat): seq<Module>
    requires i < |s| && j < |s|
  {
    s[i := s[j]][j := s[i]]
  }

  lemma SwapMultiset(s: seq<Module>, i: nat, j: nat)
    requires i < |s| && j < |s|
    ensures multiset(Swap(s, i, j)) == multiset(s)
  {}

  lemma SwapRanked(s: seq<Module>, rank: map<string, nat>, i: nat, j: nat)
    requires i < |s| && j < |s| && Ranked(s, rank)
    ensures Ranked(Swap(s, i, j), rank)
  {
    var t := Swap(s, i, j);
    forall k, l | 0 <= k < |t| && 0 <= l < |t| && k != l && !t[k].started && Wants(t[k], t[l])
      ensures rank[Lower(t[l].name)] < rank[Lower(t[k].name)]
    {
      var k', l' := Swapped(i, j, k), Swapped(i, j, l);
      assert t[k] == s[k'] && t[l] == s[l'];
    }
  }

  function Swapped(i: nat, j: nat, k: nat): nat { if k == i then j else if k == j then i else k }

  lemma SwapDistinct(s: seq<Module>, i: nat, j: nat)
    requires i < |s| && j < |s| && Distinct(s)
    ensures Distinct(Swap(s, i, j))
  {
    var t := Swap(s, i, j);
    forall k, l | 0 <= k < |t| && 0 <= l < |t| && k != l ensures !SameName(t[k].name, t[l].name) {
      assert !SameName(s[Swapped(i, j, k)].name, s[Swapped(i, j, l)].name);
    }
  }

  lemma SwapOrdered(s: seq<Module>, i: nat, j: nat)
    requires i < j < |s| && OrderedTo(s, i)
    ensures OrderedTo(Swap(s, i, j), i)
  {
    var t := Swap(s, i, j);
    forall k, l | 0 <= k < i && k < l < |t| && !t[k].started ensures !Wants(t[k], t[l]) {
      assert t[k] == s[k] && t[l] == s[Swapped(i, j, l)];
    }
  }

  /** The sort can only come to an end where there is no cycle: a finished order ranks the modules. */
  lemma OrderedIsRanked(s: seq<Module>)
    requires Ordered(s) && Distinct(s)
    ensures exists rank :: Ranked(s, rank)
  {
    var rank := Positions(s, |s|);
    PositionsAre(s, |s|);
    forall i, j | 0 <= i < |s| && 0 <= j < |s| && i != j && !s[i].started && Wants(s[i], s[j])
      ensures rank[Lower(s[j].name)] < rank[Lower(s[i].name)]
    {
      assert i > j;
    }
    assert Ranked(s, rank);
  }

  ghost function Positions(s: seq<Module>, n: nat): map<string, nat>
    requires n <= |s|
  {
    if n == 0 then map[] else Positions(s, n - 1)[Lower(s[n - 1].name) := n - 1]
  }

  lemma {:induction false} PositionsAre(s: seq<Module>, n: nat)
    requires n <= |s| && Distinct(s)
    ensures forall i {:trigger s[i]} :: 0 <= i < n ==>
      Lower(s[i].name) in Positions(s, n) && Positions(s, n)[Lower(s[i].name)] == i
  {
    if n > 0 {
      PositionsAre(s, n - 1);
      forall i {:trigger s[i]} | 0 <= i < n - 1 ensures Lower(s[i].name) != Lower(s[n - 1].name) { assert !SameName(s[i].name, s[n - 1].name); }
    }
  }

  /** Two unstarted modules that depend on each other trade places forever. */
  lemma MutualDependence(a: Module, b: Module)
    requires !a.started && !b.started && Wants(a, b) && Wants(b, a)
    ensures !Ordered([a, b]) && !Ordered([b, a]) && Swap(Swap([a, b], 0, 1), 0, 1) == [a, b]
    ensures forall rank :: !Ranked([a, b], rank)
  {
    var s := [a, b];
    assert Wants(s[0], s[1]) && Wants(s[1], s[0]);
    var t := [b, a];
    assert Wants(t[0], t[1]);
  }

  // ----- the startup pass

  lemma OneOfName(reg: seq<Module>, k: nat, l: nat)
    requires Distinct(reg) && k < |reg| && l < |reg| && SameName(reg[k].name, reg[l].name)
    ensures k == l
  {}

  ghost predicate Present(reg: seq<Module>, name: string) {
    exists k :: 0 <= k < |reg| && SameName(reg[k].name, name)
  }

  /** A reason to be removed: the startup function fails, or a required module is not there. */
  ghost predicate Excused(reg: seq<Module>, m: Module, works: set<string>) {
    Lower(m.name) !in works || exists d :: d in m.deps && d.kind == Required && !Present(reg, d.name)
  }

  /** Where the first `c` modules of the list have gone. */
  ghost predicate Settled(list: seq<Module>, c: nat, reg: seq<Module>, works: set<string>) {
    forall k {:trigger list[k]} :: 0 <= k < c && c <= |list| ==>
      Present(reg, list[k].name) || (!list[k].started && (Ordered(list) ==> Excused(reg, list[k], works)))
  }

  /** The registry is what is left of the first `c` modules, all started, and the others as they were. */
  ghost predicate Suffix(list: seq<Module>, c: nat, reg: seq<Module>, i: nat) {
    && i <= |reg| && c <= |list| && |reg| - i == |list| - c
    && (forall k {:trigger reg[k]} :: i <= k < |reg| ==> reg[k] == list[k - i + c])
    && (forall k {:trigger reg[k]} :: 0 <= k < i ==> Comes(list, c, reg[k]))
  }

  ghost predicate Comes(list: seq<Module>, c: nat, m: Module) {
    exists l :: 0 <= l < c && l < |list| && m == list[l].(started := true)
  }

  /** A started module of the registry by that name. */
  ghost predicate Running(reg: seq<Module>, name: string) {
    exists k :: 0 <= k < |reg| && SameName(reg[k].name, name) && reg[k].started
  }

  ghost predicate Met(reg: seq<Module>, m: Module) {
    forall d {:trigger d in m.deps} :: d in m.deps && d.kind == Required ==> Running(reg, d.name)
  }

  /** `zend_hash_find` by the lower-case name, and whether the module found is started. */
  method FindRunning(reg: seq<Module>, name: string) returns (found: bool)
    requires Distinct(reg)
    ensures found <==> Running(reg, name)
  {
    var k := 0;
    while k < |reg|
      invariant 0 <= k <= |reg|
      invariant forall l :: 0 <= l < k ==> !SameName(reg[l].name, name)
    {
      if SameName(reg[k].name, name) {
        forall l | 0 <= l < |reg| && SameName(reg[l].name, name) ensures l == k { OneOfName(reg, k, l); }
        return reg[k].started;
      }
      k := k + 1;
    }
    return false;
  }

  /** `zend_startup_module_ex` for module `i`: it is marked started, its required modules are looked up,
      and its startup function is called. `works` tells for which modules that succeeds. */
  method StartModule(reg: seq<Module>, i: nat, works: set<string>) returns (ok: bool)
    requires i < |reg| && Distinct(reg)
    ensures ok <==> reg[i].started || (Met(Started(reg, i), reg[i]) && Lower(reg[i].name) in works)
  {
    var m := reg[i];
    if m.started {
      return true;
    }
    var marked := Started(reg, i);
    assert Distinct(marked) by { SameNames(reg, marked); }
    var d := 0;
    while d < |m.deps|
      invariant 0 <= d <= |m.deps|
      invariant forall e {:trigger m.deps[e]} :: 0 <= e < d && m.deps[e].kind == Required ==>
        Running(marked, m.deps[e].name)
    {
      if m.deps[d].kind == Required {
        var found := FindRunning(marked, m.deps[d].name);
        if !found {
          assert m.deps[d] in m.deps;
          return false;
        }
      }
      d := d + 1;
    }
    return Lower(m.name) in works;
  }

  function Started(reg: seq<Module>, i: nat): seq<Module>
    requires i < |reg|
  {
    reg[i := reg[i].(started := true)]
  }

  function Removed(reg: seq<Module>, i: nat): seq<Module>
    requires i < |reg|
  {
    reg[..i] + reg[i + 1..]
  }

  /** Modules up to `i` have been through the pass: they are started, and those the pass started have all
      they require. `before` names the modules started earlier. */
  ghost predicate Closed(reg: seq<Module>, i: nat, before: set<string>) {
    forall k {:trigger reg[k]} :: 0 <= k < i && i <= |reg| ==>
      reg[k].started && (Lower(reg[k].name) in before || Met(reg, reg[k]))
  }

  /** The first `i` modules were started before, or their startup functions succeed. */
  ghost predicate Working(reg: seq<Module>, i: nat, before: set<string>, works: set<string>) {
    forall k {:trigger reg[k]} :: 0 <= k < i && i <= |reg| ==>
      Lower(reg[k].name) in before || Lower(reg[k].name) in works
  }

  /** Modules from `i` on are as they were. */
  ghost predicate Untouched(reg: seq<Module>, i: nat, before: set<string>) {
    forall k {:trigger reg[k]} :: i <= k < |reg| ==> (reg[k].started <==> Lower(reg[k].name) in before)
  }

  ghost function NamesStarted(reg: seq<Module>): set<string> {
    set k | 0 <= k < |reg| && reg[k].started :: Lower(reg[k].name)
  }

  /** Every required module is registered. */
  ghost predicate Registered(reg: seq<Module>) {
    forall k, d {:trigger d in reg[k].deps} :: 0 <= k < |reg| && d in reg[k].deps && d.kind == Required ==>
      exists l :: 0 <= l < |reg| && SameName(reg[l].name, d.name)
  }

  function AllStarted(reg: seq<Module>, n: nat): seq<Module>
    requires n <= |reg|
  {
    seq(|reg|, k requires 0 <= k < |reg| => if k < n then reg[k].(started := true) else reg[k])
  }

  ghost predicate AllWork(reg: seq<Module>, works: set<string>) {
    forall k {:trigger reg[k]} :: 0 <= k < |reg| ==> Lower(reg[k].name) in works
  }

  /** The pass of `zend_startup_modules`: modules that cannot start are removed. What is kept is started and
      closed under required dependencies; after the sort, nothing is removed unless a required module is
      missing or a startup function fails. */
  method StartModules(list: seq<Module>, works: set<string>) returns (reg: seq<Module>)
    requires Distinct(list)
    ensures Distinct(reg) && Closed(reg, |reg|, NamesStarted(list))
    ensures forall k :: 0 <= k < |reg| ==> Comes(list, |list|, reg[k])
    ensures Settled(list, |list|, reg, works)
    ensures Ordered(list) && Registered(list) && AllWork(list, works) ==> reg == AllStarted(list, |list|)
    ensures Working(reg, |reg|, NamesStarted(list), works)
  {
    hide Working, Closed, Untouched, Settled, Suffix, Distinct, AllStarted, Ordered, Registered, AllWork, Started,
      Removed, Met;
    ghost var before := NamesStarted(list);
    ghost var good := Ordered(list) && Registered(list) && AllWork(list, works);
    reg := list;
    var i := 0;
    ghost var c := 0;
    StartPass(list, works);
    while i < |reg|
      invariant 0 <= i <= |reg| && Distinct(reg) && Closed(reg, i, before) && Untouched(reg, i, before)
      invariant Working(reg, i, before, works)
      invariant c <= |list| && Suffix(list, c, reg, i) && Settled(list, c, reg, works)
      invariant good ==> c == i && |reg| == |list| && reg == AllStarted(list, i)
      decreases |reg| - i
    {
      var ok := StartModule(reg, i, works);
      if good { GoodStarts(list, works, i); }
      if ok {
        KeepSettled(list, c, reg, i, works);
        KeepClosed(reg, i, before);
        KeepWorking(reg, i, before, works);
        if good { OneMoreStarted(list, i); }
        reg := Mark(reg, i);
        i := i + 1;
      } else {
        StartedBefore(reg, i, before);
        RemoveSettled(list, c, reg, i, works);
        RemoveClosed(reg, i, before);
        RemoveWorking(reg, i, before, works);
        reg := Delete(reg, i);
      }
      c := c + 1;
    }
    EndPass(list, c, reg);
  }

  /** `module_started` set in the registry. */
  method Mark(reg: seq<Module>, i: nat) returns (r: seq<Module>)
    requires i < |reg| && Distinct(reg)
    ensures r == Started(reg, i) && Distinct(r) && |r| == |reg|
  {
    SameNames(reg, Started(reg, i));
    return Started(reg, i);
  }

  /** `zend_hash_bucket_delete` */
  method Delete(reg: seq<Module>, i: nat) returns (r: seq<Module>)
    requires i < |reg|
    ensures r == Removed(reg, i) && |r| == |reg| - 1
  {
    return Removed(reg, i);
  }

  lemma StartPass(list: seq<Module>, works: set<string>)
    requires Distinct(list)
    ensures Closed(list, 0, NamesStarted(list)) && Untouched(list, 0, NamesStarted(list))
    ensures Working(list, 0, NamesStarted(list), works)
    ensures Suffix(list, 0, list, 0) && Settled(list, 0, list, works) && list == AllStarted(list, 0)
  {
    NamesStartedAre(list);
  }

  lemma EndPass(list: seq<Module>, c: nat, reg: seq<Module>)
    requires Suffix(list, c, reg, |reg|)
    ensures c == |list| && forall k :: 0 <= k < |reg| ==> Comes(list, |list|, reg[k])
  {}

  lemma StartedBefore(reg: seq<Module>, i: nat, before: set<string>)
    requires Closed(reg, i, before) && i <= |reg|
    ensures forall k {:trigger reg[k]} :: 0 <= k < i ==> reg[k].started
  {}

  lemma OneMoreStarted(list: seq<Module>, i: nat)
    requires i < |list|
    ensures |AllStarted(list, i)| == |list| && Started(AllStarted(list, i), i) == AllStarted(list, i + 1)
  {}

  lemma KeepSettled(list: seq<Module>, c: nat, reg: seq<Module>, i: nat, works: set<string>)
    requires i < |reg| && Suffix(list, c, reg, i) && Settled(list, c, reg, works)
    ensures Suffix(list, c + 1, Started(reg, i), i + 1) && Settled(list, c + 1, Started(reg, i), works)
  {
    var t := Started(reg, i);
    assert reg[i] == list[c];
    forall name ensures Present(t, name) <==> Present(reg, name) {
      if k :| 0 <= k < |reg| && SameName(reg[k].name, name) { assert SameName(t[k].name, name); }
      if k :| 0 <= k < |t| && SameName(t[k].name, name) { assert SameName(reg[k].name, name); }
    }
    forall k {:trigger t[k]} | 0 <= k < i + 1 ensures Comes(list, c + 1, t[k]) {
      if k < i {
        var l :| 0 <= l < c && reg[k] == list[l].(started := true);
        assert t[k] == list[l].(started := true);
      } else {
        assert t[i] == list[c].(started := true);
      }
    }
    assert Present(reg, list[c].name);
  }

  lemma RemoveSettled(list: seq<Module>, c: nat, reg: seq<Module>, i: nat, works: set<string>)
    requires i < |reg| && Suffix(list, c, reg, i) && Settled(list, c, reg, works) && Distinct(list) && !reg[i].started
    requires !Met(Started(reg, i), reg[i]) || Lower(reg[i].name) !in works
    requires forall k {:trigger reg[k]} :: 0 <= k < i ==> reg[k].started
    ensures Suffix(list, c + 1, Removed(reg, i), i) && Settled(list, c + 1, Removed(reg, i), works)
  {
    var t := Removed(reg, i);
    assert reg[i] == list[c];
    assert forall k {:trigger t[k]} :: 0 <= k < |t| ==> t[k] == reg[if k < i then k else k + 1];
    RemoveSuffix(list, c, reg, i);
    forall k {:trigger list[k]} | 0 <= k < c + 1
      ensures Present(t, list[k].name) || (!list[k].started && (Ordered(list) ==> Excused(t, list[k], works)))
    {
      if k == c {
        if Ordered(list) && Lower(reg[i].name) in works { NotPresent(list, c, reg, i); }
      } else {
        assert !SameName(list[k].name, list[c].name);
        StillSettled(list, k, reg, i, works);
      }
    }
  }

  lemma RemoveSuffix(list: seq<Module>, c: nat, reg: seq<Module>, i: nat)
    requires i < |reg| && Suffix(list, c, reg, i)
    ensures Suffix(list, c + 1, Removed(reg, i), i)
  {
    var t := Removed(reg, i);
    forall k {:trigger t[k]} | 0 <= k < i ensures Comes(list, c + 1, t[k]) {
      assert t[k] == reg[k];
      var l :| 0 <= l < c && reg[k] == list[l].(started := true);
    }
  }

  lemma GoneStays(reg: seq<Module>, i: nat, name: string)
    requires i < |reg| && Present(Removed(reg, i), name)
    ensures Present(reg, name)
  {
    var t := Removed(reg, i);
    var k :| 0 <= k < |t| && SameName(t[k].name, name);
    assert t[k] == reg[if k < i then k else k + 1];
  }

  /** Removing an unstarted module takes nothing from those settled before it. */
  lemma StillSettled(list: seq<Module>, k: nat, reg: seq<Module>, i: nat, works: set<string>)
    requires i < |reg| && k < |list|
    requires Present(reg, list[k].name) || (!list[k].started && (Ordered(list) ==> Excused(reg, list[k], works)))
    requires !SameName(list[k].name, reg[i].name)
    ensures var t := Removed(reg, i);
      Present(t, list[k].name) || (!list[k].started && (Ordered(list) ==> Excused(t, list[k], works)))
  {
    var t, m := Removed(reg, i), list[k];
    if Present(reg, m.name) {
      var l :| 0 <= l < |reg| && SameName(reg[l].name, m.name);
      assert t[if l < i then l else l - 1] == reg[l];
    } else if Excused(reg, m, works) && Lower(m.name) in works {
      var d :| d in m.deps && d.kind == Required && !Present(reg, d.name);
      if Present(t, d.name) { GoneStays(reg, i, d.name); }
    }
  }

  /** In a sorted list, what a module misses when its turn comes is not in the registry at all. */
  lemma NotPresent(list: seq<Module>, c: nat, reg: seq<Module>, i: nat)
    requires i < |reg| && Suffix(list, c, reg, i) && Ordered(list) && !reg[i].started && !Met(Started(reg, i), reg[i])
    requires forall k {:trigger reg[k]} :: 0 <= k < i ==> reg[k].started
    ensures exists d :: d in list[c].deps && d.kind == Required && !Present(Removed(reg, i), d.name)
  {
    var t, m := Removed(reg, i), reg[i];
    assert m == list[c];
    var d :| d in m.deps && d.kind == Required && !Running(Started(reg, i), d.name);
    forall k | 0 <= k < |t| ensures !SameName(t[k].name, d.name) {
      var l := if k < i then k else k + 1;
      assert t[k] == reg[l] == Started(reg, i)[l];
      if l > i {
        assert reg[l] == list[l - i + c];
        assert !Wants(list[c], list[l - i + c]);
        assert !Names(d, reg[l]);
      }
    }
  }

  /** After the pass over a sorted list a module is there if and only if it was started before, or its startup
      function succeeds and all it requires is running. */
  lemma KeptIff(list: seq<Module>, reg: seq<Module>, works: set<string>, k: nat)
    requires Distinct(list) && Ordered(list) && k < |list| && Closed(reg, |reg|, NamesStarted(list))
    requires Settled(list, |list|, reg, works) && Working(reg, |reg|, NamesStarted(list), works)
    requires forall j :: 0 <= j < |reg| ==> Comes(list, |list|, reg[j])
    ensures Present(reg, list[k].name) <==> list[k].started || (Lower(list[k].name) in works && Met(reg, list[k]))
  {
    NamesStartedAre(list);
    if Present(reg, list[k].name) {
      var j :| 0 <= j < |reg| && SameName(reg[j].name, list[k].name);
      assert Comes(list, |list|, reg[j]);
      var l :| 0 <= l < |list| && reg[j] == list[l].(started := true);
      OneOfName(list, k, l);
      assert list[k].started <==> Lower(list[k].name) in NamesStarted(list);
      if Met(reg, reg[j]) { assert Met(reg, list[k]); }
    }
    assert forall d :: d in list[k].deps && d.kind == Required && Running(reg, d.name) ==> Present(reg, d.name);
  }

  lemma NamesStartedAre(reg: seq<Module>)
    requires Distinct(reg)
    ensures Untouched(reg, 0, NamesStarted(reg))
  {
    forall k {:trigger reg[k]} | 0 <= k < |reg| ensures reg[k].started <==> Lower(reg[k].name) in NamesStarted(reg) {
      if Lower(reg[k].name) in NamesStarted(reg) {
        var l :| 0 <= l < |reg| && reg[l].started && Lower(reg[l].name) == Lower(reg[k].name);
        OneOfName(reg, k, l);
      }
    }
  }

  lemma SameNames(reg: seq<Module>, reg': seq<Module>)
    requires Distinct(reg) && |reg'| == |reg| && forall k {:trigger reg'[k]} :: 0 <= k < |reg| ==>
      reg'[k].name == reg[k].name
    ensures Distinct(reg')
  {
    forall i, j | 0 <= i < |reg'| && 0 <= j < |reg'| && i != j ensures !SameName(reg'[i].name, reg'[j].name) {
      assert !SameName(reg[i].name, reg[j].name);
    }
  }

  lemma StartedMet(reg: seq<Module>, i: nat, m: Module)
    requires i < |reg| && Met(reg, m)
    ensures Met(Started(reg, i), m)
  {
    forall d | d in m.deps && d.kind == Required ensures Running(Started(reg, i), d.name) {
      var k :| 0 <= k < |reg| && SameName(reg[k].name, d.name) && reg[k].started;
      assert SameName(Started(reg, i)[k].name, d.name);
    }
  }

  lemma KeepClosed(reg: seq<Module>, i: nat, before: set<string>)
    requires i < |reg| && Closed(reg, i, before) && Untouched(reg, i, before)
    requires reg[i].started || Met(Started(reg, i), reg[i])
    ensures Closed(Started(reg, i), i + 1, before) && Untouched(Started(reg, i), i + 1, before)
  {
    var t := Started(reg, i);
    forall k {:trigger t[k]} | 0 <= k < i + 1 ensures t[k].started && (Lower(t[k].name) in before || Met(t, t[k])) {
      if k < i {
        assert reg[k] == t[k];
        if Met(reg, reg[k]) { StartedMet(reg, i, reg[k]); }
      } else {
        assert t[i].deps == reg[i].deps && t[i].name == reg[i].name;
        if Met(t, reg[i]) { assert Met(t, t[i]); }
      }
    }
  }

  lemma KeepWorking(reg: seq<Module>, i: nat, before: set<string>, works: set<string>)
    requires i < |reg| && Working(reg, i, before, works) && Untouched(reg, i, before)
    requires reg[i].started || Lower(reg[i].name) in works
    ensures Working(Started(reg, i), i + 1, before, works)
  {
    var t := Started(reg, i);
    forall k {:trigger t[k]} | 0 <= k < i + 1 ensures Lower(t[k].name) in before || Lower(t[k].name) in works {
      assert t[k].name == reg[k].name;
    }
  }

  lemma RemoveWorking(reg: seq<Module>, i: nat, before: set<string>, works: set<string>)
    requires i < |reg| && Working(reg, i, before, works)
    ensures Working(Removed(reg, i), i, before, works)
  {
    var t := Removed(reg, i);
    forall k {:trigger t[k]} | 0 <= k < i ensures Lower(t[k].name) in before || Lower(t[k].name) in works {
      assert t[k] == reg[k];
    }
  }

  lemma RemoveClosed(reg: seq<Module>, i: nat, before: set<string>)
    requires i < |reg| && Distinct(reg) && Closed(reg, i, before) && Untouched(reg, i, before) && !reg[i].started
    ensures var t := Removed(reg, i); Distinct(t) && Closed(t, i, before) && Untouched(t, i, before)
  {
    var t := Removed(reg, i);
    assert forall k {:trigger t[k]} :: 0 <= k < |t| ==> t[k] == reg[if k < i then k else k + 1];
    forall k, l | 0 <= k < |t| && 0 <= l < |t| && k != l ensures !SameName(t[k].name, t[l].name) {
      assert !SameName(reg[if k < i then k else k + 1].name, reg[if l < i then l else l + 1].name);
    }
    forall k {:trigger t[k]} | 0 <= k < i ensures t[k].started && (Lower(t[k].name) in before || Met(t, t[k])) {
      assert t[k] == reg[k];
      if Met(reg, reg[k]) { RemovedMet(reg, i, reg[k]); }
    }
  }

  lemma RemovedMet(reg: seq<Module>, i: nat, m: Module)
    requires i < |reg| && !reg[i].started && Met(reg, m)
    ensures Met(Removed(reg, i), m)
  {
    forall d | d in m.deps && d.kind == Required ensures Running(Removed(reg, i), d.name) {
      var k :| 0 <= k < |reg| && SameName(reg[k].name, d.name) && reg[k].started;
      var l := if k < i then k else k - 1;
      assert Removed(reg, i)[l] == reg[k];
    }
  }

  /** In a sorted registry with everything present the required modules of module `i` are running. */
  lemma GoodStarts(list: seq<Module>, works: set<string>, i: nat)
    requires Ordered(list) && Registered(list) && AllWork(list, works) && i < |list|
    ensures var reg := AllStarted(list, i);
      reg[i].started || (Met(Started(reg, i), reg[i]) && Lower(reg[i].name) in works)
  {
    var reg := AllStarted(list, i);
    var m := list[i];
    if !m.started {
      forall d | d in m.deps && d.kind == Required ensures Running(Started(reg, i), d.name) {
        var l :| 0 <= l < |list| && SameName(list[l].name, d.name);
        if l > i { assert Names(d, list[l]); assert Wants(list[i], list[l]); }
        assert SameName(Started(reg, i)[l].name, d.name);
      }
    }
  }

  /** `zend_startup_modules` */
  method Startup(a: array<Module>, works: set<string>, ghost rank: map<string, nat>) returns (reg: seq<Module>)
    requires Ranked(a[..], rank) && Distinct(a[..])
    modifies a
    ensures multiset(a[..]) == multiset(old(a[..])) && Ordered(a[..])
    ensures Closed(reg, |reg|, NamesStarted(a[..])) && Settled(a[..], a.Length, reg, works)
    ensures forall k :: 0 <= k < |reg| ==> Comes(a[..], a.Length, reg[k])
    ensures Registered(a[..]) && AllWork(a[..], works) ==> reg == AllStarted(a[..], a.Length)
    ensures Working(reg, |reg|, NamesStarted(a[..]), works)
  {
    Sort(a, rank);
    reg := StartModules(a[..], works);
  }
}
