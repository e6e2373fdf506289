/** Positions in a bitwise trie. A trie position is numbered by the bits read so far, leading one
    included: the root is 1 and the children of `k` are `2k` and `2k+1`. A size belongs under a
    position when that number is a binary prefix of it. */
module Paths {
  import opened Bits

  predicate Prefix(k: nat, s: nat)
    requires k >= 1
  {
    k == s || (s > k && Prefix(k, s / 2))
  }

  lemma {:induction false} RootIsPrefix(s: nat)
    requires s >= 1
    ensures Prefix(1, s)
  {
    if s > 1 { RootIsPrefix(s / 2); }
  }

  lemma {:induction false} PrefixTransitive(j: nat, k: nat, s: nat)
    requires j >= 1 && k >= 1 && Prefix(j, k) && Prefix(k, s)
    ensures Prefix(j, s)
  {
    PrefixBelow(j, k);
    if k != s { PrefixTransitive(j, k, s / 2); PrefixBelow(k, s); }
  }

  lemma {:induction false} PrefixBelow(k: nat, s: nat)
    requires k >= 1 && Prefix(k, s)
    ensures k <= s && Log2(k) <= Log2(s)
    ensures Log2(k) == Log2(s) ==> k == s
  {
    if k != s { PrefixBelow(k, s / 2); }
  }

  /** Two prefixes of one number are comparable. */
  lemma {:induction false} PrefixesNest(j: nat, k: nat, s: nat)
    requires j >= 1 && k >= 1 && Prefix(j, s) && Prefix(k, s) && j < k
    ensures Prefix(j, k) && 2 * j <= k
  {
    if k == s {
      PrefixBelow(j, s / 2);
    } else {
      PrefixBelow(k, s / 2);
      PrefixesNest(j, k, s / 2);
    }
  }

  /** Positions of equal depth order the sizes below them. */
  lemma {:induction false} PrefixOrders(j: nat, k: nat, r: nat, s: nat)
    requires 1 <= j < k && Log2(j) == Log2(k)
    requires Prefix(j, r) && Prefix(k, s) && r >= 1 && s >= 1 && Log2(r) == Log2(s)
    ensures r < s
  {
    PrefixBelow(j, r);
    PrefixBelow(k, s);
    if j != r {
      PrefixOrders(j, k, r / 2, s / 2);
    }
  }

  lemma SiblingDepth(k: nat)
    requires k >= 1
    ensures Log2(2 * k) == Log2(2 * k + 1) == Log2(k) + 1
  {}

  // ----- the shifted search word

  /** One left shift of a word: the top bit falls out. */
  function Shl1(m: nat): nat
    requires m < WORD
    ensures Shl1(m) < WORD
  {
    if 2 * m < WORD then 2 * m else 2 * m - WORD
  }

  /** `x << n` on words. */
  function Shl(x: nat, n: nat): nat
    requires x < WORD
    ensures Shl(x, n) < WORD
  {
    if n == 0 then x else Shl1(Shl(x, n - 1))
  }

  /** `(m >> 63) & 1` */
  predicate TopBit(m: nat) { m >= WORD / 2 }

  /** `m` holds the low `e` bits of `s` at its top. */
  ghost predicate SearchWord(m: nat, s: nat, e: nat) {
    e <= 64 && m == Low(s, e) * Pow2(64 - e)
  }

  lemma {:induction false} LowTop(x: nat, e: nat)
    requires e > 0
    ensures Low(x, e) == Low(x, e - 1) + if Bit(x, e - 1) then Pow2(e - 1) else 0
  {
    if e > 1 { LowTop(x / 2, e - 1); }
  }

  lemma {:induction false} ShrTop(x: nat, e: nat)
    requires e > 0
    ensures Shr(x, e - 1) == 2 * Shr(x, e) + if Bit(x, e - 1) then 1 else 0
  {
    if e > 1 { ShrTop(x / 2, e - 1); }
  }

  /** One step of the descent: the top bit of the word is the next bit of the size, and the shifted
      word serves the next level. */
  lemma SearchWordStep(m: nat, s: nat, e: nat)
    requires m < WORD && 1 <= e <= 63 && SearchWord(m, s, e)
    ensures TopBit(m) <==> Bit(s, e - 1)
    ensures SearchWord(Shl1(m), s, e - 1)
    ensures Shr(s, e - 1) == 2 * Shr(s, e) + if TopBit(m) then 1 else 0
  {
    LowTop(s, e);
    ShrTop(s, e);
    SplitAt(s, e - 1);
    Pow2Word();
    Pow2Add(e - 1, 64 - e);
    TopShift(Low(s, e - 1), Pow2(e - 1), Pow2(64 - e), if Bit(s, e - 1) then 1 else 0);
  }

  lemma TopShift(l: nat, p: nat, q: nat, top: nat)
    requires top <= 1 && l < p && q > 0 && p * q == WORD / 2
    ensures var m := (l + (if top == 1 then p else 0)) * q;
      && (m >= WORD / 2 <==> top == 1)
      && m < WORD
      && Shl1(m) == l * (2 * q)
  {
    MulStep(q, p, l);
    assert (l + p) * q == l * q + p * q;
    assert l * (2 * q) == 2 * (l * q);
  }

  /** The initial word `size << (64 - index)`. */
  lemma SearchWordStart(s: nat)
    requires 1 < s < WORD
    ensures 1 <= Log2(s) <= 63
    ensures SearchWord(Shl(s, 64 - Log2(s)), s, Log2(s))
    ensures Shr(s, Log2(s)) == 1
  {
    var i := Log2(s);
    Log2Bounds(s);
    Pow2Word();
    if i >= 64 { Pow2Monotone(64, i); }
    ShiftAway(s);
    SplitAt(s, i);
    Pow2Add(i, 63 - i);
    TopShift(Low(s, i), Pow2(i), Pow2(63 - i), 1);
    ShlNoDrop(s, 63 - i);
  }

  lemma {:induction false} ShiftAway(s: nat)
    requires s >= 1
    ensures Shr(s, Log2(s)) == 1
  {
    if s > 1 { ShiftAway(s / 2); }
  }

  lemma {:induction false} ShlNoDrop(x: nat, n: nat)
    requires x < WORD && x * Pow2(n) < WORD
    ensures Shl(x, n) == x * Pow2(n)
  {
    if n > 0 {
      assert x * Pow2(n) == 2 * (x * Pow2(n - 1));
      ShlNoDrop(x, n - 1);
    }
  }

  /** The positions of the descent are the prefixes of the size. */
  lemma {:induction false} ShrIsPrefix(s: nat, e: nat)
    requires s >= 1 && e <= Log2(s)
    ensures Shr(s, e) >= 1 && Prefix(Shr(s, e), s) && Log2(Shr(s, e)) == Log2(s) - e
  {
    if e > 0 {
      ShrIsPrefix(s / 2, e - 1);
      PrefixBelow(Shr(s, e), s / 2);
    }
  }

  lemma {:induction false} PrefixIsShr(k: nat, s: nat)
    requires k >= 1 && Prefix(k, s)
    ensures Log2(k) <= Log2(s) && k == Shr(s, Log2(s) - Log2(k))
  {
    PrefixBelow(k, s);
    if k != s { PrefixIsShr(k, s / 2); }
  }
}
