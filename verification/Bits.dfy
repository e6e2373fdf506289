/** Machine words, shifts and bit scans: the arithmetic under the allocator's bitmaps,
    bucket indices and mask rounding. A word is a natural number below `WORD`. */
module Bits {

  const WORD: nat := 0x1_0000_0000_0000_0000

  function Pow2(n: nat): (r: nat)
    ensures r >= 1
  {
    if n == 0 then 1 else 2 * Pow2(n - 1)
  }

  /** Bit `i` of `x`. */
  predicate Bit(x: nat, i: nat) {
    if i == 0 then x % 2 == 1 else Bit(x / 2, i - 1)
  }

  /** `x | (1 << i)` */
  function SetBit(x: nat, i: nat): nat {
    if i == 0 then (if x % 2 == 1 then x else x + 1) else 2 * SetBit(x / 2, i - 1) + x % 2
  }

  /** `x & ~(1 << i)` */
  function ClearBit(x: nat, i: nat): nat {
    if i == 0 then (if x % 2 == 1 then x - 1 else x) else 2 * ClearBit(x / 2, i - 1) + x % 2
  }

  /** `x >> i` */
  function Shr(x: nat, i: nat): nat {
    if i == 0 then x else Shr(x / 2, i - 1)
  }

  /** The low `k` bits of `x`. */
  function Low(x: nat, k: nat): nat {
    if k == 0 then 0 else 2 * Low(x / 2, k - 1) + x % 2
  }

  /** `x & y` */
  function And(x: nat, y: nat): nat {
    if x == 0 || y == 0 then 0 else 2 * And(x / 2, y / 2) + (if x % 2 == 1 && y % 2 == 1 then 1 else 0)
  }

  /** Position of the highest set bit. */
  function Log2(x: nat): nat
    requires x > 0
  {
    if x == 1 then 0 else 1 + Log2(x / 2)
  }

  // ----- bit lemmas

  lemma {:induction false} SetBitBits(x: nat, i: nat, j: nat)
    ensures Bit(SetBit(x, i), j) <==> j == i || Bit(x, j)
  {
    if i > 0 && j > 0 {
      SetBitBits(x / 2, i - 1, j - 1);
      assert SetBit(x, i) / 2 == SetBit(x / 2, i - 1);
    }
  }

  lemma {:induction false} ClearBitBits(x: nat, i: nat, j: nat)
    ensures Bit(ClearBit(x, i), j) <==> j != i && Bit(x, j)
  {
    if i > 0 && j > 0 {
      ClearBitBits(x / 2, i - 1, j - 1);
      assert ClearBit(x, i) / 2 == ClearBit(x / 2, i - 1);
    }
  }

  lemma {:induction false} ShrNext(x: nat, i: nat)
    ensures Shr(x, i + 1) == Shr(x, i) / 2
  {
    if i > 0 { ShrNext(x / 2, i - 1); }
  }

  lemma {:induction false} ShrBits(x: nat, i: nat, j: nat)
    ensures Bit(Shr(x, i), j) <==> Bit(x, i + j)
  {
    if i > 0 { ShrBits(x / 2, i - 1, j); }
  }

  /** A nonzero number has a set bit. */
  lemma {:induction false} NonzeroHasBit(x: nat) returns (i: nat)
    requires x > 0
    ensures Bit(x, i)
  {
    if x % 2 == 1 { i := 0; } else { i := NonzeroHasBit(x / 2); i := i + 1; }
  }

  lemma {:induction false} BitMeansNonzero(x: nat, i: nat)
    requires Bit(x, i)
    ensures x > 0 && i <= Log2(x)
  {
    if i > 0 { BitMeansNonzero(x / 2, i - 1); }
  }

  lemma {:induction false} ZeroBits(i: nat)
    ensures !Bit(0, i)
  {
    if i > 0 { ZeroBits(i - 1); }
  }

  lemma {:induction false} Log2Bounds(x: nat)
    requires x > 0
    ensures Pow2(Log2(x)) <= x < Pow2(Log2(x) + 1)
  {
    if x > 1 { Log2Bounds(x / 2); }
  }

  lemma {:induction false} Log2Monotone(x: nat, y: nat)
    requires 0 < x <= y
    ensures Log2(x) <= Log2(y)
  {
    if x > 1 { Log2Monotone(x / 2, y / 2); }
  }

  lemma {:induction false} Log2Unique(x: nat, n: nat)
    requires Pow2(n) <= x < Pow2(n + 1)
    ensures Log2(x) == n
  {
    if n > 0 { Log2Unique(x / 2, n - 1); }
  }

  lemma Pow2Word()
    ensures Pow2(64) == WORD && Pow2(63) == WORD / 2
  {
    assert Pow2(8) == 256;
    Pow2Add(8, 8); Pow2Add(16, 16); Pow2Add(32, 32);
  }

  lemma {:induction false} Pow2Add(a: nat, b: nat)
    ensures Pow2(a + b) == Pow2(a) * Pow2(b)
  {
    if a > 0 {
      Pow2Add(a - 1, b);
      DoubleProduct(Pow2(a - 1), Pow2(b));
      assert Pow2(a + b) == 2 * Pow2(a - 1 + b) && Pow2(a) == 2 * Pow2(a - 1);
    }
  }

  lemma {:induction false} Pow2Monotone(a: nat, b: nat)
    requires a <= b
    ensures Pow2(a) <= Pow2(b)
  {
    if a < b { Pow2Monotone(a, b - 1); }
  }

  /** Shifting and keeping the low bits is division with remainder by a power of two. */
  lemma ShiftIsDivision(x: nat, k: nat)
    ensures Shr(x, k) == x / Pow2(k) && Low(x, k) == x % Pow2(k)
  {
    SplitAt(x, k);
    DivUnique(x, Pow2(k), Shr(x, k), Low(x, k));
  }

  lemma {:induction false} SplitAt(x: nat, k: nat)
    ensures x == Pow2(k) * Shr(x, k) + Low(x, k) && Low(x, k) < Pow2(k)
  {
    if k > 0 {
      SplitAt(x / 2, k - 1);
      DoubleProduct(Pow2(k - 1), Shr(x, k));
    }
  }

  lemma DoubleProduct(p: nat, s: nat)
    ensures (2 * p) * s == 2 * (p * s)
  {}

  lemma MulStep(d: nat, q: nat, p: nat)
    requires q > p
    ensures d * q >= d * p + d
  {
    var e: nat := q - p - 1;
    assert d * e >= 0;
    assert q == p + 1 + e;
    assert d * (p + 1 + e) == d * p + d + d * e;
  }

  lemma DivUnique(x: nat, d: nat, q: nat, r: nat)
    requires d > 0 && x == d * q + r && r < d
    ensures x / d == q && x % d == r
  {
    QuotientsAgree(d, q, r, x / d, x % d);
  }

  lemma QuotientsAgree(d: nat, q: nat, r: nat, q': nat, r': nat)
    requires r < d && r' < d && d * q + r == d * q' + r'
    ensures q == q' && r == r'
  {
    if q > q' { MulStep(d, q, q'); }
    if q < q' { MulStep(d, q', q); }
  }

  // ----- the two bit scans

  /** `zend_mm_high_bit`, the shift loop. For zero the unsigned `n-1` wraps. */
  method HighBit(size: nat) returns (r: nat)
    requires size < WORD
    ensures size > 0 ==> r == Log2(size)
    ensures size == 0 ==> r == 0xFFFF_FFFF
  {
    var s: nat, n: nat := size, 0;
    while s != 0
      invariant s == 0 ==> (if size == 0 then n == 0 else n == Log2(size) + 1)
      invariant s > 0 ==> size > 0 && n + Log2(s) == Log2(size)
      decreases s
    {
      s := s / 2;
      n := n + 1;
    }
    r := if n == 0 then 0xFFFF_FFFF else n - 1;
  }

  /** The table indexed by a nibble: position of its lowest set bit, 4 for a zero nibble. */
  const NIBBLE: seq<nat> := [4, 0, 1, 0, 2, 0, 1, 0, 3, 0, 1, 0, 2, 0, 1, 0]

  /** `s` is what is left of `size` once `index` zero bits are shifted out. */
  ghost predicate ShiftedOut(size: nat, s: nat, index: nat) {
    && (forall j: nat {:trigger Bit(s, j)} :: Bit(s, j) <==> Bit(size, index + j))
    && (forall j {:trigger Bit(size, j)} :: 0 <= j < index ==> !Bit(size, j))
  }

  /** `zend_mm_low_bit`, the nibble loop. On zero it does not terminate. */
  method LowBit(size: nat) returns (r: nat)
    requires size > 0
    ensures Bit(size, r)
    ensures forall j :: 0 <= j < r ==> !Bit(size, j)
  {
    hide Bit;
    var s: nat, index: nat := size, 0;
    var n := NIBBLE[s % 16];
    while n == 4
      invariant s > 0 && n == NIBBLE[s % 16] && ShiftedOut(size, s, index)
      decreases s
    {
      hide ShiftedOut;
      NibbleOut(size, s, index);
      s := s / 16;
      index := index + n;
      n := NIBBLE[s % 16];
    }
    NibbleFound(size, s, index);
    r := index + n;
  }

  lemma NibbleOut(size: nat, s: nat, index: nat)
    requires s > 0 && ShiftedOut(size, s, index) && NIBBLE[s % 16] == 4
    ensures s / 16 > 0 && ShiftedOut(size, s / 16, index + 4)
  {
    hide Bit;
    NibbleScan(s);
    var t := s / 16;
    forall j: nat ensures Bit(t, j) <==> Bit(size, index + 4 + j) {
      ShiftNibble(s, j);
      assert Bit(s, 4 + j) <==> Bit(size, index + (4 + j));
    }
    forall j | 0 <= j < index + 4 ensures !Bit(size, j) {
      if j >= index { assert !Bit(s, j - index); }
    }
  }

  lemma NibbleFound(size: nat, s: nat, index: nat)
    requires s > 0 && ShiftedOut(size, s, index) && NIBBLE[s % 16] != 4
    ensures var r := index + NIBBLE[s % 16]; Bit(size, r) && forall j :: 0 <= j < r ==> !Bit(size, j)
  {
    hide Bit;
    NibbleScan(s);
    var r := index + NIBBLE[s % 16];
    forall j | 0 <= j < r ensures !Bit(size, j) {
      if j >= index { assert !Bit(s, j - index); }
    }
  }

  lemma ShiftNibble(s: nat, j: nat)
    ensures Bit(s / 16, j) <==> Bit(s, 4 + j)
  {
    assert s / 2 / 2 / 2 / 2 == s / 16;
    assert Bit(s, 4 + j) == Bit(s / 2, 3 + j) == Bit(s / 2 / 2, 2 + j) == Bit(s / 2 / 2 / 2, 1 + j);
  }

  lemma NibbleScan(s: nat)
    requires s > 0
    ensures var n := NIBBLE[s % 16];
      && (n < 4 ==> Bit(s, n))
      && (forall j :: 0 <= j < n ==> !Bit(s, j))
      && (n == 4 ==> s / 16 > 0)
      && n <= 4
  {
    var s1: nat := s / 2;
    var s2: nat := s1 / 2;
    var s3: nat := s2 / 2;
    assert Bit(s, 1) == Bit(s1, 0);
    assert Bit(s, 2) == Bit(s1, 1) == Bit(s2, 0);
    assert Bit(s, 3) == Bit(s1, 2) == Bit(s2, 1) == Bit(s3, 0);
    NibbleDigits(s, s % 2, s1 % 2, s2 % 2, s3 % 2, s3 / 2);
  }

  lemma NibbleDigits(s: nat, d0: nat, d1: nat, d2: nat, d3: nat, h: nat)
    requires d0 < 2 && d1 < 2 && d2 < 2 && d3 < 2
    requires s == d0 + 2 * (d1 + 2 * (d2 + 2 * (d3 + 2 * h)))
    ensures var n := NIBBLE[s % 16];
      && n <= 4
      && (n == 0 <==> d0 == 1)
      && (n == 1 <==> d0 == 0 && d1 == 1)
      && (n == 2 <==> d0 == 0 && d1 == 0 && d2 == 1)
      && (n == 3 <==> d0 == 0 && d1 == 0 && d2 == 0 && d3 == 1)
      && (n == 4 ==> s / 16 == h)
  {
    DivUnique(s, 16, h, d0 + 2 * d1 + 4 * d2 + 8 * d3);
    NibbleTable(d0, d1, d2, d3);
  }

  lemma NibbleTable(d0: nat, d1: nat, d2: nat, d3: nat)
    requires d0 < 2 && d1 < 2 && d2 < 2 && d3 < 2
    ensures NIBBLE[d0 + 2 * d1 + 4 * d2 + 8 * d3]
         == if d0 == 1 then 0 else if d1 == 1 then 1 else if d2 == 1 then 2 else if d3 == 1 then 3 else 4
  {}

  /** The start-up test for the segment unit: lowest and highest set bit agree exactly when the
      number is a power of two. */
  lemma {:induction false} PowerOfTwoIffBitsAgree(x: nat, low: nat)
    requires x > 0 && Bit(x, low) && forall j :: 0 <= j < low ==> !Bit(x, j)
    ensures low == Log2(x) <==> exists n :: x == Pow2(n)
  {
    if low == Log2(x) { OnlyTopBit(x); }
    if n :| x == Pow2(n) { Pow2Bits(n, low); Log2Unique(x, n); }
  }

  lemma {:induction false} OnlyTopBit(x: nat)
    requires x > 0 && forall j :: 0 <= j < Log2(x) ==> !Bit(x, j)
    ensures x == Pow2(Log2(x))
  {
    if x > 1 {
      assert !Bit(x, 0);
      forall j | 0 <= j < Log2(x / 2) ensures !Bit(x / 2, j) { assert Bit(x / 2, j) == Bit(x, j + 1); }
      OnlyTopBit(x / 2);
    }
  }

  lemma {:induction false} Pow2Bits(n: nat, j: nat)
    ensures Bit(Pow2(n), j) <==> j == n
  {
    if n == 0 {
      if j > 0 { ZeroBits(j - 1); }
    } else if j > 0 {
      Pow2Bits(n - 1, j - 1);
    }
  }

  // ----- masks

  /** Masking with `~(2^k - 1)` clears the low `k` bits: it rounds down to a multiple of 2^k. */
  lemma {:induction false} AndHighMask(x: nat, k: nat, n: nat)
    requires k <= n && x < Pow2(n)
    ensures Pow2(n) >= Pow2(k) && And(x, Pow2(n) - Pow2(k)) + Low(x, k) == x
    decreases n
  {
    Pow2Monotone(k, n);
    if n > 0 {
      AndHighMask(x / 2, if k == 0 then 0 else k - 1, n - 1);
      AndHalves(x, Pow2(n) - Pow2(k));
    }
  }

  lemma AndHalves(x: nat, y: nat)
    ensures And(x, y) == 2 * And(x / 2, y / 2) + if y % 2 == 1 then x % 2 else 0
  {}
}
