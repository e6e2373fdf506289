/** Request sizes, segment sizes and overflow-checked address arithmetic. The configuration is the
    64-bit one without debug headers, cookies or end magic. */
module Sizes {
  import opened Bits

  const ALIGNMENT: nat := 8
  const HEADER: nat := 16
  const MIN_BLOCK: nat := 32
  const SEGMENT_HEADER: nat := 16
  const MIN_SIZE: nat := 16
  const NUM_BUCKETS: nat := 64
  const MAX_SMALL: nat := 544
  const CACHE_SIZE: nat := 262144
  const MAX_REST: nat := 16

  /** Wrapping word addition and subtraction. */
  function Add(x: nat, y: nat): nat
    requires x < WORD && y < WORD
  {
    if x + y < WORD then x + y else x + y - WORD
  }

  function Sub(x: nat, y: nat): nat
    requires x < WORD && y < WORD
  {
    if y <= x then x - y else x + WORD - y
  }

  /** `(size + unit-1) & ~(unit-1)` on words. */
  function MaskRound(size: nat, unit: nat): nat
    requires 0 < unit < WORD && size < WORD
  {
    And(Add(size, unit - 1), WORD - unit)
  }

  /** `ZEND_MM_TRUE_SIZE` */
  function TrueSize(size: nat): nat
    requires size < WORD
  {
    if size < MIN_SIZE then MIN_BLOCK else MaskRound(Add(size, HEADER), ALIGNMENT)
  }

  /** `ZEND_MM_SMALL_SIZE` */
  predicate Small(trueSize: nat) { trueSize < MAX_SMALL }

  /** `ZEND_MM_BUCKET_INDEX` */
  function BucketIndex(trueSize: nat): nat
    requires trueSize >= MIN_BLOCK
  {
    trueSize / 8 - 4
  }

  /** The size of the segment requested for a block of `trueSize` bytes. */
  function SegmentSize(unit: nat, trueSize: nat): nat
    requires 0 < unit < WORD && trueSize < WORD
  {
    if trueSize > Sub(unit, SEGMENT_HEADER + HEADER)
    then MaskRound(Add(trueSize, SEGMENT_HEADER + HEADER), unit)
    else unit
  }

  /** A legal segment unit. One too small for the segment header and the guard is legal too: with it every
      request for a segment fails. */
  ghost predicate SegmentUnit(unit: nat) {
    0 < unit < WORD && exists n :: unit == Pow2(n)
  }

  /** Mask rounding by a power of two yields the least multiple at or above `size`, or wraps, and
      then the result is below `size`. */
  lemma MaskRoundIsLeastMultiple(size: nat, unit: nat, n: nat)
    requires size < WORD && unit == Pow2(n) < WORD
    ensures var r := MaskRound(size, unit);
      && r % unit == 0
      && (if size + unit - 1 < WORD then size <= r < size + unit else r < size && r < unit)
  {
    var x := Add(size, unit - 1);
    MaskRoundClears(x, unit, n);
    RoundDown(x, unit);
  }

  lemma MaskRoundClears(x: nat, unit: nat, n: nat)
    requires x < WORD && unit == Pow2(n) < WORD
    ensures And(x, WORD - unit) == x - x % unit
  {
    Pow2Word();
    if n > 64 { Pow2Monotone(64, n); }
    AndHighMask(x, n, 64);
    ShiftIsDivision(x, n);
  }

  lemma RoundDown(x: nat, unit: nat)
    requires unit > 0
    ensures 0 <= x % unit < unit && x % unit <= x && (x - x % unit) % unit == 0
  {
    DivUnique(x - x % unit, unit, x / unit, 0);
  }

  /** Every word-sized request: the true size is aligned, at least a minimal block and covers request
      and header tightly, or the computation wrapped and the guard `trueSize < size` of the small
      branch catches it. */
  lemma TrueSizeCoversOrWraps(size: nat)
    requires size < WORD
    ensures var t := TrueSize(size);
      && t < WORD
      && t % ALIGNMENT == 0
      && (if size + HEADER + ALIGNMENT - 1 < WORD
          then MIN_BLOCK <= t && size + HEADER <= t && !(t < size) && (t == MIN_BLOCK || t < size + HEADER + ALIGNMENT)
          else Small(t) && t < size)
  {
    assert Pow2(3) == 8;
    if size >= MIN_SIZE { MaskRoundIsLeastMultiple(Add(size, HEADER), 8, 3); }
  }

  /** A segment for `trueSize` is the least multiple of the unit with room for the segment header
      and the guard, or its size is below `trueSize`, which the caller rejects: because it wrapped, or
      because the unit cannot hold the header and the guard. */
  lemma SegmentSizeCoversOrWraps(unit: nat, trueSize: nat)
    requires SegmentUnit(unit) && MIN_BLOCK <= trueSize < WORD && trueSize % ALIGNMENT == 0
    ensures var r := SegmentSize(unit, trueSize);
      && r < WORD && r % unit == 0
      && (r < trueSize || (trueSize + SEGMENT_HEADER + HEADER <= r && r % ALIGNMENT == 0
                           && r < trueSize + SEGMENT_HEADER + HEADER + unit))
      && (r < trueSize <==> unit < SEGMENT_HEADER + HEADER || trueSize + SEGMENT_HEADER + HEADER + unit - 1 >= WORD)
  {
    if unit < SEGMENT_HEADER + HEADER {
      TinyUnit(unit, trueSize);
    } else {
      var n: nat, c: nat := UnitExponent(unit);
      hide Pow2;
      if trueSize > unit - 32 {
        RoundedSegment(unit, trueSize, n);
      } else {
        DivUnique(unit, unit, 1, 0);
      }
      MultipleOfEight(SegmentSize(unit, trueSize), unit, c);
    }
  }

  lemma RoundedSegment(unit: nat, trueSize: nat, n: nat)
    requires SEGMENT_HEADER + HEADER <= unit == Pow2(n) <= WORD / 2 && unit - 32 < trueSize < WORD
    ensures var r := SegmentSize(unit, trueSize);
      && r < WORD && r % unit == 0
      && (r < trueSize || trueSize + 32 <= r < trueSize + 32 + unit)
      && (r < trueSize <==> trueSize + 32 + unit - 1 >= WORD)
  {
    hide Pow2, MaskRound;
    MaskRoundIsLeastMultiple(Add(trueSize, 32), unit, n);
    var r := SegmentSize(unit, trueSize);
    assert r < unit ==> r == 0 by { if r < unit { DivUnique(r, unit, 0, r); } }
  }

  lemma TinyUnit(unit: nat, trueSize: nat)
    requires SegmentUnit(unit) && unit < SEGMENT_HEADER + HEADER && MIN_BLOCK <= trueSize < WORD
    ensures SegmentSize(unit, trueSize) < trueSize && SegmentSize(unit, trueSize) % unit == 0
  {
    if trueSize > Sub(unit, SEGMENT_HEADER + HEADER) {
      var n :| unit == Pow2(n);
      MaskRoundIsLeastMultiple(Add(trueSize, 32), unit, n);
    } else {
      DivUnique(unit, unit, 1, 0);
    }
  }

  lemma UnitExponent(unit: nat) returns (n: nat, c: nat)
    requires SegmentUnit(unit) && SEGMENT_HEADER + HEADER <= unit
    ensures unit == Pow2(n) == c * 32 && unit <= WORD / 2
  {
    n :| unit == Pow2(n);
    Pow2Word();
    assert Pow2(4) == 16 && Pow2(5) == 32;
    if n < 5 { Pow2Monotone(n, 4); }
    if n >= 64 { Pow2Monotone(64, n); }
    Pow2Monotone(n, 63);
    Pow2Add(n - 5, 5);
    c := Pow2(n - 5);
  }

  lemma MultipleOfEight(r: nat, unit: nat, c: nat)
    requires unit == c * 32 > 0 && r % unit == 0
    ensures r % 8 == 0
  {
    var q, rest := Parts(r, unit);
    EightTimes(c, q);
    DivUnique(r, 8, 4 * (c * q), 0);
  }

  lemma EightTimes(c: nat, q: nat)
    ensures (c * 32) * q == 8 * (4 * (c * q))
  {}

  // ----- safe_address

  datatype Checked = Overflow | Exact(value: nat)

  /** The double-word form: full product into a high and a low word, offset added to the low word,
      its carry added to the high word; a nonzero high word is overflow. */
  function SafeAddress(base: nat, nmemb: nat, size: nat, offset: nat): Checked
    requires base > 0
  {
    AddWithCarry(base, nmemb * size, offset)
  }

  function AddWithCarry(base: nat, product: nat, offset: nat): Checked
    requires base > 0
  {
    var res := (product % base + offset) % base;
    if HighWord(base, product, offset) % base != 0 then Overflow else Exact(res)
  }

  /** High word of the product plus the carry out of the low word, before it is stored in a word. */
  function HighWord(base: nat, product: nat, offset: nat): nat
    requires base > 0
  {
    product / base + (product % base + offset) / base
  }

  /** Over words of any base, overflow is reported exactly when the true value does not fit, and
      otherwise the value is exact: the high word plus the carry cannot itself wrap to zero. */
  lemma SafeAddressExact(base: nat, nmemb: nat, size: nat, offset: nat)
    requires nmemb < base && size < base && offset < base
    ensures HighWord(base, nmemb * size, offset) < base
    ensures SafeAddress(base, nmemb, size, offset)
         == if nmemb * size + offset < base then Exact(nmemb * size + offset) else Overflow
  {
    ProductBound(base, nmemb, size);
    AddWithCarryExact(base, nmemb * size, offset);
  }

  lemma AddWithCarryExact(base: nat, p: nat, offset: nat)
    requires offset < base && p + base <= base * base
    ensures HighWord(base, p, offset) < base
    ensures AddWithCarry(base, p, offset) == if p + offset < base then Exact(p + offset) else Overflow
  {
    var h, l := Parts(p, base);
    var c, r := Parts(l + offset, base);
    CarryIsQuotient(base, p, offset, h, l, c, r);
  }

  lemma ProductBound(base: nat, n: nat, s: nat)
    requires n < base && s < base
    ensures n * s + base <= base * base
  {
    assert n * s <= n * base by { MulLeft(n, s, base); }
    MulStep(base, base, n);
    assert n * base == base * n;
  }

  lemma MulLeft(n: nat, a: nat, b: nat)
    requires a <= b
    ensures n * a <= n * b
  {
    if a < b { MulStep(n, b, a); }
  }

  lemma Parts(x: nat, d: nat) returns (q: nat, r: nat)
    requires d > 0
    ensures q == x / d && r == x % d && x == d * q + r && r < d
  {
    q, r := x / d, x % d;
  }

  /** High word `h` and carry `c` together are the quotient of the sum. */
  lemma CarryIsQuotient(base: nat, p: nat, o: nat, h: nat, l: nat, c: nat, r: nat)
    requires o < base && p == base * h + l && l + o == base * c + r && r < base && p + base <= base * base
    ensures h + c < base && (h + c) % base == h + c && (h + c == 0 <==> p + o < base) && (p + o < base ==> r == p + o)
  {
    Carried(base, p, o, h, l, c, r);
    SmallQuotient(base, p + o, h + c, r);
  }

  lemma Carried(base: nat, p: nat, o: nat, h: nat, l: nat, c: nat, r: nat)
    requires p == base * h + l && l + o == base * c + r
    ensures p + o == base * (h + c) + r
  {
    Distribute(base, h, c);
  }

  lemma Distribute(d: nat, x: nat, y: nat)
    ensures d * (x + y) == d * x + d * y
  {}

  lemma SmallQuotient(base: nat, t: nat, q: nat, r: nat)
    requires t == base * q + r && r < base && t < base * base
    ensures q < base && q % base == q && (q == 0 <==> t < base) && (t < base ==> r == t)
  {
    if q >= base { MulLeft(base, base, q); }
    DivUnique(q, base, 0, q);
    if q >= 1 { MulLeft(base, 1, q); }
  }
}
