/** Addresses and alignment arithmetic on 64-bit words (crates/common/src/types.rs).

    Words are naturals below `U64`; the bit operations are written out on naturals, so
    that `AlignUp` keeps the source's mask form. */
module Types {
  const PAGE_SIZE: nat := 16 * 1024
  const U16: nat := 0x1_0000
  const U32: nat := 0x1_0000_0000
  const U64: nat := 0x1_0000_0000_0000_0000

  function Max(a: nat, b: nat): nat {
    if a < b then b else a
  }

  function Min(a: nat, b: nat): nat {
    if a < b then a else b
  }

  function Pow2(n: nat): (p: nat)
    ensures p > 0
  {
    if n == 0 then 1 else 2 * Pow2(n - 1)
  }

  ghost predicate PowerOfTwo(a: nat) {
    exists k: nat | k < 64 :: a == Pow2(k)
  }

  /** Bitwise conjunction. */
  function And(x: nat, y: nat): nat {
    if x == 0 || y == 0 then 0
    else (if x % 2 == 1 && y % 2 == 1 then 1 else 0) + 2 * And(x / 2, y / 2)
  }

  /** Bitwise complement of a 64-bit word. */
  function Not64(x: nat): nat
    requires x < U64
  {
    U64 - 1 - x
  }

  function AlignUp(value: nat, alignment: nat): nat
    requires alignment > 0 && value + (alignment - 1) < U64
  {
    var mask := alignment - 1;
    And(value + mask, Not64(mask))
  }

  function AlignDown(value: nat, alignment: nat): nat
    requires 0 < alignment <= U64 && value < U64
  {
    And(value, Not64(alignment - 1))
  }

  predicate IsAligned(value: nat, alignment: nat)
    requires alignment > 0
  {
    And(value, alignment - 1) == 0
  }

  lemma HalveRemainder(v: nat, p: nat)
    requires p > 0
    ensures v % (2 * p) == 2 * ((v / 2) % p) + v % 2
  {
    var q, r := (v / 2) / p, (v / 2) % p;
    assert v == (2 * p) * q + (2 * r + v % 2);
    RemainderIs(v, 2 * p, q, 2 * r + v % 2);
  }

  lemma RemainderIs(v: int, d: nat, q: int, r: nat)
    requires d > 0 && v == d * q + r && r < d
    ensures v % d == r
  {
    var k := v / d - q;
    assert r - v % d == d * k;
    ScaledStep(d, k);
  }

  lemma ScaledStep(d: nat, k: int)
    ensures k >= 1 ==> d * k >= d
    ensures k <= -1 ==> d * k + d <= 0
  {
  }

  lemma {:induction false} Pow2Sum(a: nat, b: nat)
    ensures Pow2(a + b) == Pow2(a) * Pow2(b)
  {
    if a > 0 {
      Pow2Sum(a - 1, b);
    }
  }

  lemma Pow2Of64()
    ensures Pow2(14) == PAGE_SIZE && Pow2(64) == U64
  {
    assert Pow2(4) == 16 && Pow2(6) == 64;
    Pow2Sum(4, 4);
    Pow2Sum(8, 6);
    Pow2Sum(8, 8);
    Pow2Sum(16, 16);
    Pow2Sum(32, 32);
  }

  /** One step of `And`, without its recursion. */
  lemma AndStep(v: nat, y: nat)
    ensures And(v, 2 * y) == 2 * And(v / 2, y)
    ensures And(v, 2 * y + 1) == v % 2 + 2 * And(v / 2, y)
  {
    assert (2 * y) / 2 == y && (2 * y + 1) / 2 == y;
    assert (2 * y) % 2 == 0 && (2 * y + 1) % 2 == 1;
  }

  lemma HighMaskStep(v: nat, p: nat, q: nat)
    requires 0 < q <= p && And(v / 2, p - q) == v / 2 - (v / 2) % q
    ensures And(v, 2 * p - 2 * q) == v - v % (2 * q)
  {
    hide And;
    HalveRemainder(v, q);
    AndStep(v, p - q);
    assert 2 * p - 2 * q == 2 * (p - q);
  }

  lemma LowMaskStep(v: nat, q: nat)
    requires q > 0 && And(v / 2, q - 1) == (v / 2) % q
    ensures And(v, 2 * q - 1) == v % (2 * q)
  {
    hide And;
    HalveRemainder(v, q);
    AndStep(v, q - 1);
    assert 2 * q - 1 == 2 * (q - 1) + 1;
  }

  /** Masking with 2^k - 1 keeps the low k bits. */
  lemma {:induction false} AndLowMask(v: nat, k: nat)
    ensures And(v, Pow2(k) - 1) == v % Pow2(k)
  {
    if k > 0 {
      hide And;
      AndLowMask(v / 2, k - 1);
      LowMaskStep(v, Pow2(k - 1));
    }
  }

  /** Masking with the complement of 2^k - 1 clears the low k bits. */
  lemma {:induction false} AndHighMask(v: nat, n: nat, k: nat)
    requires k <= n && v < Pow2(n)
    ensures Pow2(k) <= Pow2(n)
    ensures And(v, Pow2(n) - Pow2(k)) == v - v % Pow2(k)
  {
    if k == 0 {
      AndLowMask(v, n);
      WithinModulus(v, Pow2(n));
      assert Pow2(n) - Pow2(0) == Pow2(n) - 1;
    } else {
      hide And;
      AndHighMask(v / 2, n - 1, k - 1);
      HighMaskStep(v, Pow2(n - 1), Pow2(k - 1));
    }
  }

  lemma WithinModulus(v: nat, d: nat)
    requires v < d
    ensures v % d == v && v % 1 == 0
  {
  }

  lemma {:induction false} Pow2Divides(j: nat, k: nat)
    requires j <= k
    ensures Pow2(j) <= Pow2(k) && Pow2(k) % Pow2(j) == 0
  {
    if j == k {
      RemainderIs(Pow2(k), Pow2(j), 1, 0);
    } else {
      Pow2Divides(j, k - 1);
      var q := Pow2(k - 1) / Pow2(j);
      assert Pow2(k) == Pow2(j) * (2 * q);
      RemainderIs(Pow2(k), Pow2(j), 2 * q, 0);
    }
  }

  /** Clearing the mask bits subtracts the remainder, leaving a multiple. */
  lemma ClearedMask(v: nat, alignment: nat)
    requires PowerOfTwo(alignment) && v < U64
    ensures alignment <= U64
    ensures And(v, Not64(alignment - 1)) == v - v % alignment
    ensures (v - v % alignment) % alignment == 0
  {
    var k: nat :| k < 64 && alignment == Pow2(k);
    Pow2Of64();
    AndHighMask(v, 64, k);
    WithoutRemainder(v, alignment);
  }

  lemma WithoutRemainder(v: nat, d: nat)
    requires d > 0
    ensures (v - v % d) % d == 0
  {
    var q := v / d;
    assert v - v % d == d * q;
    RemainderIs(d * q, d, q, 0);
  }

  /** For a power of two, `AlignUp` is the least multiple at or above its argument. */
  lemma AlignUpIsLeastMultiple(value: nat, alignment: nat)
    requires PowerOfTwo(alignment) && value + (alignment - 1) < U64
    ensures AlignUp(value, alignment) % alignment == 0
    ensures value <= AlignUp(value, alignment) < value + alignment
    ensures forall m: nat | value <= m && m % alignment == 0 :: AlignUp(value, alignment) <= m
  {
    ClearedMask(value + (alignment - 1), alignment);
    forall m: nat | value <= m && m % alignment == 0
      ensures AlignUp(value, alignment) <= m
    {
      MultiplesApart(AlignUp(value, alignment), m, alignment);
    }
  }

  /** Two multiples closer than the modulus are equal, so a multiple below `r` is a whole step below. */
  lemma MultiplesApart(r: nat, m: nat, d: nat)
    requires d > 0 && r % d == 0 && m % d == 0 && r < m + d
    ensures r <= m
  {
    var a, b := r / d, m / d;
    assert r == d * a && m == d * b;
    assert r - m == d * (a - b);
    ScaledStep(d, a - b);
  }

  /** For a power of two, `AlignDown` is the greatest multiple at or below its argument. */
  lemma AlignDownIsGreatestMultiple(value: nat, alignment: nat)
    requires PowerOfTwo(alignment) && value < U64
    ensures alignment <= U64
    ensures AlignDown(value, alignment) % alignment == 0
    ensures AlignDown(value, alignment) <= value < AlignDown(value, alignment) + alignment
    ensures forall m: nat | m <= value && m % alignment == 0 :: m <= AlignDown(value, alignment)
  {
    ClearedMask(value, alignment);
    forall m: nat | m <= value && m % alignment == 0
      ensures m <= AlignDown(value, alignment)
    {
      MultiplesApart(m, AlignDown(value, alignment), alignment);
    }
  }

  /** `IsAligned` recognises exactly the multiples, which are the fixed points of `AlignUp`. */
  lemma IsAlignedMeansMultiple(value: nat, alignment: nat)
    requires PowerOfTwo(alignment) && value + (alignment - 1) < U64
    ensures IsAligned(value, alignment) <==> value % alignment == 0
    ensures IsAligned(value, alignment) <==> AlignUp(value, alignment) == value
  {
    var k: nat :| k < 64 && alignment == Pow2(k);
    AndLowMask(value, k);
    AlignUpIsLeastMultiple(value, alignment);
  }

  lemma PowersDivide(a: nat, b: nat)
    requires PowerOfTwo(a) && PowerOfTwo(b) && a <= b
    ensures a > 0 && b % a == 0
  {
    var j: nat :| j < 64 && a == Pow2(j);
    var k: nat :| k < 64 && b == Pow2(k);
    if j <= k {
      Pow2Divides(j, k);
    } else {
      Pow2Divides(k, j);
      RemainderIs(b, a, 1, 0);
    }
  }

  lemma PageIsPowerOfTwo()
    ensures PowerOfTwo(PAGE_SIZE)
  {
    Pow2Of64();
  }

  /** Alignments are never weaker than a page: a multiple of the larger power is one of the
      smaller. Anything up to a page counts as a page. */
  lemma EffectiveAlignment(alignment: nat)
    requires PowerOfTwo(Max(alignment, PAGE_SIZE))
    ensures Max(alignment, PAGE_SIZE) % PAGE_SIZE == 0
    ensures PowerOfTwo(alignment) ==> alignment > 0 && Max(alignment, PAGE_SIZE) % alignment == 0
    ensures alignment <= PAGE_SIZE ==> Max(alignment, PAGE_SIZE) == PAGE_SIZE
  {
    hide PowerOfTwo;
    PageIsPowerOfTwo();
    PowersDivide(PAGE_SIZE, Max(alignment, PAGE_SIZE));
    if PowerOfTwo(alignment) {
      PowersDivide(alignment, Max(alignment, PAGE_SIZE));
    }
  }

  lemma MultipleOfMultiple(x: nat, big: nat, small: nat)
    requires small > 0 && big > 0 && big % small == 0 && x % big == 0
    ensures x % small == 0
  {
    var a, b := x / big, big / small;
    assert x == big * a && big == small * b;
    assert x == small * (b * a) by {
      assert (small * b) * a == small * (b * a);
    }
    RemainderIs(x, small, b * a, 0);
  }

  /** Splitting a number at a divisor. */
  lemma LowHigh(low: nat, high: nat, d: nat)
    requires low < d
    ensures (low + d * high) % d == low && (low + d * high) / d == high
  {
    RemainderIs(low + d * high, d, high, low);
    var q := (low + d * high) / d;
    assert d * q == d * high;
    ScaledStep(d, q - high);
    assert d * (q - high) == d * q - d * high;
  }
}
