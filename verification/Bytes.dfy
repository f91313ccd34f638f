/** Bytes and little-endian words, as the `byteorder` reads and `to_le_bytes` writes of the
    source see them. */
module Bytes {
  import opened Types

  type byte = x: int | 0 <= x < 256

  function U16At(d: seq<byte>, p: nat): (v: nat)
    requires p + 2 <= |d|
    ensures v < U16
  {
    d[p] as int + 256 * (d[p + 1] as int)
  }

  function U32At(d: seq<byte>, p: nat): (v: nat)
    requires p + 4 <= |d|
    ensures v < U32
  {
    U16At(d, p) + U16 * U16At(d, p + 2)
  }

  function U64At(d: seq<byte>, p: nat): (v: nat)
    requires p + 8 <= |d|
    ensures v < U64
  {
    U32At(d, p) + U32 * U32At(d, p + 4)
  }

  function Le16(v: nat): (d: seq<byte>)
    requires v < U16
    ensures |d| == 2
  {
    [v % 256, v / 256]
  }

  function Le32(v: nat): (d: seq<byte>)
    requires v < U32
    ensures |d| == 4
  {
    Le16(v % U16) + Le16(v / U16)
  }

  function Le64(v: nat): (d: seq<byte>)
    requires v < U64
    ensures |d| == 8
  {
    Le32(v % U32) + Le32(v / U32)
  }

  /** Two's complement reading of a 32-bit word. */
  function SignedOf32(v: nat): int
    requires v < U32
  {
    if v < 0x8000_0000 then v else v - U32
  }

  function UnsignedOf32(i: int): (v: nat)
    requires -0x8000_0000 <= i < 0x8000_0000
    ensures v < U32 && SignedOf32(v) == i
  {
    if i >= 0 then i else i + U32
  }

  function SignedOf64(v: nat): int
    requires v < U64
  {
    if v < 0x8000_0000_0000_0000 then v else v - U64
  }

  /** `p` is where `part` starts inside `d`. */
  predicate Holds(d: seq<byte>, p: nat, part: seq<byte>) {
    p + |part| <= |d| && d[p..p + |part|] == part
  }

  lemma HoldsParts(d: seq<byte>, p: nat, a: seq<byte>, b: seq<byte>)
    requires Holds(d, p, a + b)
    ensures Holds(d, p, a) && Holds(d, p + |a|, b)
  {
    var ab := a + b;
    assert d[p..p + |a|] == d[p..p + |ab|][..|a|] == ab[..|a|] == a;
    assert d[p + |a|..p + |a| + |b|] == d[p..p + |ab|][|a|..] == ab[|a|..] == b;
  }

  lemma HoldsAt(d: seq<byte>, p: nat, part: seq<byte>, i: nat)
    requires Holds(d, p, part) && i < |part|
    ensures d[p + i] == part[i]
  {
    assert d[p + i] == d[p..p + |part|][i];
  }

  /** Reading back a written word gives the word. */
  lemma Read16(d: seq<byte>, p: nat, v: nat)
    requires v < U16 && Holds(d, p, Le16(v))
    ensures U16At(d, p) == v
  {
    HoldsAt(d, p, Le16(v), 0);
    HoldsAt(d, p, Le16(v), 1);
  }

  lemma Read32(d: seq<byte>, p: nat, v: nat)
    requires v < U32 && Holds(d, p, Le32(v))
    ensures U32At(d, p) == v
  {
    HoldsParts(d, p, Le16(v % U16), Le16(v / U16));
    Read16(d, p, v % U16);
    Read16(d, p + 2, v / U16);
  }

  lemma Read64(d: seq<byte>, p: nat, v: nat)
    requires v < U64 && Holds(d, p, Le64(v))
    ensures U64At(d, p) == v
  {
    HoldsParts(d, p, Le32(v % U32), Le32(v / U32));
    Read32(d, p, v % U32);
    Read32(d, p + 4, v / U32);
  }

  /** Writing back a word gives its bytes, so words are equal only if their bytes are. */
  lemma WrittenBack(d: seq<byte>)
    requires |d| == 8
    ensures Le64(U64At(d, 0)) == d
  {
    WrittenBack32(d, 0);
    WrittenBack32(d, 4);
    hide U32At, Le32;
    LowHigh(U32At(d, 0), U32At(d, 4), U32);
    assert d == d[0..4] + d[4..8];
  }

  lemma WrittenBack32(d: seq<byte>, p: nat)
    requires p + 4 <= |d|
    ensures Le32(U32At(d, p)) == d[p..p + 4]
  {
    LowHigh(U16At(d, p), U16At(d, p + 2), U16);
    LowHigh(d[p], d[p + 1], 256);
    LowHigh(d[p + 2], d[p + 3], 256);
    assert d[p..p + 4] == [d[p], d[p + 1]] + [d[p + 2], d[p + 3]];
  }

  /** A word reads the same wherever the same bytes stand. */
  lemma Same16(d: seq<byte>, p: nat, e: seq<byte>, q: nat)
    requires p + 2 <= |d| && q + 2 <= |e| && d[p..p + 2] == e[q..q + 2]
    ensures U16At(d, p) == U16At(e, q)
  {
    assert d[p] == d[p..p + 2][0] && d[p + 1] == d[p..p + 2][1];
    assert e[q] == e[q..q + 2][0] && e[q + 1] == e[q..q + 2][1];
  }

  lemma Same32(d: seq<byte>, p: nat, e: seq<byte>, q: nat)
    requires p + 4 <= |d| && q + 4 <= |e| && d[p..p + 4] == e[q..q + 4]
    ensures U32At(d, p) == U32At(e, q)
  {
    SameSub(d, p, e, q, 4, 0, 2);
    SameSub(d, p, e, q, 4, 2, 2);
    Same16(d, p, e, q);
    Same16(d, p + 2, e, q + 2);
  }

  lemma Same64(d: seq<byte>, p: nat, e: seq<byte>, q: nat)
    requires p + 8 <= |d| && q + 8 <= |e| && d[p..p + 8] == e[q..q + 8]
    ensures U64At(d, p) == U64At(e, q)
  {
    SameSub(d, p, e, q, 8, 0, 4);
    SameSub(d, p, e, q, 8, 4, 4);
    Same32(d, p, e, q);
    Same32(d, p + 4, e, q + 4);
  }

  lemma SubOfSub<T>(d: seq<T>, p: nat, n: nat, i: nat, k: nat)
    requires p + n <= |d| && i + k <= n
    ensures d[p + i..p + i + k] == d[p..p + n][i..i + k]
  {
    var a, b := d[p + i..p + i + k], d[p..p + n][i..i + k];
    forall j | 0 <= j < k
      ensures a[j] == b[j]
    {
      assert a[j] == d[p + i + j] == d[p..p + n][i + j];
    }
  }

  lemma SameSub<T>(d: seq<T>, p: nat, e: seq<T>, q: nat, n: nat, i: nat, k: nat)
    requires p + n <= |d| && q + n <= |e| && d[p..p + n] == e[q..q + n] && i + k <= n
    ensures d[p + i..p + i + k] == e[q + i..q + i + k]
  {
    SubOfSub(d, p, n, i, k);
    SubOfSub(e, q, n, i, k);
  }

  // ---------------------------------------------------------------------------
  // Tables of variable-length records
  // ---------------------------------------------------------------------------

  function Flatten(rs: seq<seq<byte>>): seq<byte> {
    if rs == [] then [] else Flatten(rs[..|rs| - 1]) + rs[|rs| - 1]
  }

  /** Where record `i` starts in the flattened table. */
  function OffsetOf(rs: seq<seq<byte>>, i: nat): nat
    requires i <= |rs|
  {
    |Flatten(rs[..i])|
  }

  lemma {:induction false} RecordAt(rs: seq<seq<byte>>, i: nat)
    requires i < |rs|
    ensures Holds(Flatten(rs), OffsetOf(rs, i), rs[i])
    ensures OffsetOf(rs, i + 1) == OffsetOf(rs, i) + |rs[i]|
  {
    assert rs[..i + 1][..i] == rs[..i];
    var init, last := rs[..|rs| - 1], rs[|rs| - 1];
    if i < |rs| - 1 {
      RecordAt(init, i);
      assert init[..i] == rs[..i];
      var p := OffsetOf(rs, i);
      assert Flatten(rs)[p..p + |rs[i]|] == Flatten(init)[p..p + |rs[i]|];
    } else {
      assert Flatten(rs)[|Flatten(init)|..] == last;
    }
  }

  lemma {:induction false} FixedOffsets(rs: seq<seq<byte>>, i: nat, n: nat)
    requires i <= |rs| && forall k | 0 <= k < |rs| :: |rs[k]| == n
    ensures OffsetOf(rs, i) == n * i
  {
    if i > 0 {
      FixedOffsets(rs, i - 1, n);
      RecordAt(rs, i - 1);
    }
  }

  lemma HoldsInside(d: seq<byte>, p: nat, table: seq<byte>, q: nat, part: seq<byte>)
    requires Holds(d, p, table) && Holds(table, q, part)
    ensures Holds(d, p + q, part)
  {
    SubOfSub(d, p, |table|, q, |part|);
  }

  lemma HoldsLength(d: seq<byte>, p: nat, part: seq<byte>)
    requires Holds(d, p, part)
    ensures p + |part| <= |d|
  {
  }

  lemma FindsRecord(d: seq<byte>, p: nat, rs: seq<seq<byte>>, i: nat)
    requires Holds(d, p, Flatten(rs)) && i < |rs|
    ensures Holds(d, p + OffsetOf(rs, i), rs[i])
    ensures p + OffsetOf(rs, i) + |rs[i]| <= |d|
  {
    RecordAt(rs, i);
    HoldsInside(d, p, Flatten(rs), OffsetOf(rs, i), rs[i]);
  }
}
