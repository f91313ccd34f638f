/** The virtual memory area map (crates/core/src/memory/virtual_memory.rs).

    The flat meaning of the map is a function from address to attributes. Mapping and
    unmapping are pointwise updates of that function; the search for free space looks at one
    area at a time, because areas are never merged. */
module VirtualMemory {
  import opened Wrappers
  import opened Types
  import opened Bytes
  import opened Tiling

  datatype VMAType =
    | Free | Reserved | Direct | Flexible | Pooled | PoolReserved | Stack | ThreadData | Code | File

  datatype VmaAttributes = VmaAttributes(vmaType: VMAType, prot: nat, name: seq<byte>, disallowMerge: bool)

  type VirtualMemoryArea = Tile<VmaAttributes>

  const FREE := VmaAttributes(Free, 0, [], false)

  const FIXED: nat := 0x10
  const NO_COALESCE: nat := 0x400000

  /** Whether the single-bit flag `bit` is set. */
  predicate Contains(flags: nat, bit: nat)
    requires bit > 0
  {
    (flags / bit) % 2 == 1
  }

  /** A flag word contains a bit when it is what is below the bit, the bit, and an even multiple
      of it above. */
  lemma ContainsBit(bit: nat, low: nat, high: nat)
    requires bit > 0 && low < bit
    ensures Contains(low + bit * (1 + 2 * high), bit)
    ensures !Contains(low + bit * (2 * high), bit)
  {
    LowHigh(low, 1 + 2 * high, bit);
    LowHigh(low, 2 * high, bit);
    RemainderIs(1 + 2 * high, 2, high, 1);
    RemainderIs(2 * high, 2, high, 0);
  }

  predicate Overlaps(t: VirtualMemoryArea, addr: nat, size: nat) {
    addr < t.base + t.size && addr + size > t.base
  }

  predicate IsFree(t: VirtualMemoryArea) {
    t.attr.vmaType == Free
  }

  // ---------------------------------------------------------------------------
  // Overwriting a range
  // ---------------------------------------------------------------------------

  /** What of one area lies below `lo`. */
  ghost function PieceBelow(t: VirtualMemoryArea, lo: nat): seq<VirtualMemoryArea> {
    if t.base >= lo then [] else [Tile(t.base, Min(t.End(), lo) - t.base, t.attr)]
  }

  /** What of one area lies at and above `hi`. */
  ghost function PieceAbove(t: VirtualMemoryArea, hi: nat): seq<VirtualMemoryArea> {
    if t.End() <= hi then [] else [Tile(Max(t.base, hi), t.End() - Max(t.base, hi), t.attr)]
  }

  ghost function ClipBelow(ts: seq<VirtualMemoryArea>, lo: nat): seq<VirtualMemoryArea> {
    if ts == [] then [] else PieceBelow(ts[0], lo) + ClipBelow(ts[1..], lo)
  }

  ghost function ClipAbove(ts: seq<VirtualMemoryArea>, hi: nat): seq<VirtualMemoryArea> {
    if ts == [] then [] else PieceAbove(ts[0], hi) + ClipAbove(ts[1..], hi)
  }

  /** The areas after [lo, hi) was given the attributes `attr`. */
  ghost function Overwrite(ts: seq<VirtualMemoryArea>, lo: nat, hi: nat, attr: VmaAttributes): seq<VirtualMemoryArea>
    requires lo <= hi
  {
    ClipBelow(ts, lo) + [Tile(lo, hi - lo, attr)] + ClipAbove(ts, hi)
  }

  lemma OrderedTail(ts: seq<VirtualMemoryArea>)
    requires Ordered(ts) && ts != []
    ensures Ordered(ts[1..])
    ensures forall i | 0 <= i < |ts[1..]| :: ts[0].End() <= ts[1..][i].base
  {
    assert ts == [ts[0]] + ts[1..];
    OrderedSplit([ts[0]], ts[1..]);
    assert [ts[0]][0] == ts[0];
  }

  lemma OrderedCons(t: VirtualMemoryArea, rest: seq<VirtualMemoryArea>)
    requires t.size > 0 && Ordered(rest)
    requires forall i | 0 <= i < |rest| :: t.End() <= rest[i].base
    ensures Ordered([t] + rest)
  {
    OrderedJoin([t], rest, t.End());
  }

  lemma {:induction false} ClipBelowOrdered(ts: seq<VirtualMemoryArea>, floor: nat, lo: nat)
    requires Ordered(ts) && forall j | 0 <= j < |ts| :: floor <= ts[j].base
    ensures Ordered(ClipBelow(ts, lo))
    ensures forall i | 0 <= i < |ClipBelow(ts, lo)| ::
              floor <= ClipBelow(ts, lo)[i].base && ClipBelow(ts, lo)[i].End() <= lo
  {
    if ts != [] {
      OrderedTail(ts);
      ClipBelowOrdered(ts[1..], ts[0].End(), lo);
      if ts[0].base < lo {
        OrderedCons(PieceBelow(ts[0], lo)[0], ClipBelow(ts[1..], lo));
      } else {
        assert ClipBelow(ts, lo) == ClipBelow(ts[1..], lo);
      }
    }
  }

  lemma {:induction false} ClipAboveOrdered(ts: seq<VirtualMemoryArea>, floor: nat, hi: nat)
    requires Ordered(ts) && forall j | 0 <= j < |ts| :: floor <= ts[j].base
    ensures Ordered(ClipAbove(ts, hi))
    ensures forall i | 0 <= i < |ClipAbove(ts, hi)| ::
              floor <= ClipAbove(ts, hi)[i].base && hi <= ClipAbove(ts, hi)[i].base
  {
    if ts != [] {
      OrderedTail(ts);
      ClipAboveOrdered(ts[1..], ts[0].End(), hi);
      if ts[0].End() > hi {
        OrderedCons(PieceAbove(ts[0], hi)[0], ClipAbove(ts[1..], hi));
      } else {
        assert ClipAbove(ts, hi) == ClipAbove(ts[1..], hi);
      }
    }
  }

  lemma AtCons(t: VirtualMemoryArea, rest: seq<VirtualMemoryArea>, b: nat)
    requires Ordered([t] + rest)
    ensures At([t] + rest, b) == if t.Has(b) then Some(t.attr) else At(rest, b)
  {
    AtJoin([t], rest, b);
    if t.Has(b) {
      OrderedSplit([t], rest);
      AtOwner([t], 0, b);
    }
  }

  lemma {:induction false} ClipBelowAt(ts: seq<VirtualMemoryArea>, lo: nat, b: nat)
    requires Ordered(ts)
    ensures At(ClipBelow(ts, lo), b) == if b < lo then At(ts, b) else None
  {
    ClipBelowOrdered(ts, 0, lo);
    if ts != [] {
      OrderedTail(ts);
      ClipBelowAt(ts[1..], lo, b);
      assert ts == [ts[0]] + ts[1..];
      AtCons(ts[0], ts[1..], b);
      if ts[0].base < lo {
        AtCons(ClipBelow(ts, lo)[0], ClipBelow(ts[1..], lo), b);
      } else {
        assert ClipBelow(ts, lo) == ClipBelow(ts[1..], lo);
      }
    }
  }

  lemma {:induction false} ClipAboveAt(ts: seq<VirtualMemoryArea>, hi: nat, b: nat)
    requires Ordered(ts)
    ensures At(ClipAbove(ts, hi), b) == if hi <= b then At(ts, b) else None
  {
    ClipAboveOrdered(ts, 0, hi);
    if ts != [] {
      OrderedTail(ts);
      ClipAboveAt(ts[1..], hi, b);
      assert ts == [ts[0]] + ts[1..];
      AtCons(ts[0], ts[1..], b);
      if ts[0].End() > hi {
        AtCons(ClipAbove(ts, hi)[0], ClipAbove(ts[1..], hi), b);
      } else {
        assert ClipAbove(ts, hi) == ClipAbove(ts[1..], hi);
      }
    }
  }

  /** Overwriting is a pointwise update of the flat map, wherever the range lies. */
  lemma OverwriteIsUpdate(ts: seq<VirtualMemoryArea>, lo: nat, hi: nat, attr: VmaAttributes)
    requires Ordered(ts) && lo < hi
    ensures Ordered(Overwrite(ts, lo, hi, attr))
    ensures forall b: nat :: At(Overwrite(ts, lo, hi, attr), b) == if lo <= b < hi then Some(attr) else At(ts, b)
  {
    var below, t, above := ClipBelow(ts, lo), Tile(lo, hi - lo, attr), ClipAbove(ts, hi);
    ClipBelowOrdered(ts, 0, lo);
    ClipAboveOrdered(ts, 0, hi);
    OrderedJoin([t], above, hi);
    OrderedJoin(below, [t] + above, lo);
    assert below + [t] + above == below + ([t] + above);
    forall b: nat
      ensures At(below + ([t] + above), b) == if lo <= b < hi then Some(attr) else At(ts, b)
    {
      ClipBelowAt(ts, lo, b);
      ClipAboveAt(ts, hi, b);
      AtJoin(below, [t] + above, b);
      AtCons(t, above, b);
    }
  }

  /** Inside the region, overwriting keeps the partition: no gap and no overlap appears. */
  lemma OverwriteKeepsTiles(ts: seq<VirtualMemoryArea>, base: nat, end: nat, lo: nat, hi: nat, attr: VmaAttributes)
    requires Tiles(ts, base, end) && base <= lo < hi <= end
    ensures Tiles(Overwrite(ts, lo, hi, attr), base, end)
  {
    hide Ordered, Overwrite;
    TilesOrdered(ts, base, end);
    TilesCoverAll(ts, base, end);
    OverwriteIsUpdate(ts, lo, hi, attr);
    CoverTiles(Overwrite(ts, lo, hi, attr), base, end);
  }

  lemma TilesOrdered(ts: seq<VirtualMemoryArea>, lo: nat, hi: nat)
    requires Tiles(ts, lo, hi)
    ensures Ordered(ts)
  {
  }

  lemma {:induction false} ClipsAddOne(ts: seq<VirtualMemoryArea>, lo: nat, hi: nat)
    requires Ordered(ts) && lo < hi
    ensures |ClipBelow(ts, lo)| + |ClipAbove(ts, hi)| <= |ts| + 1
    ensures (forall i | 0 <= i < |ts| :: lo <= ts[i].base) ==> |ClipBelow(ts, lo)| + |ClipAbove(ts, hi)| <= |ts|
  {
    if ts != [] {
      OrderedTail(ts);
      ClipsAddOne(ts[1..], lo, hi);
      if ts[0].base < lo && ts[0].End() > hi {
        assert forall i | 0 <= i < |ts[1..]| :: lo <= ts[1..][i].base;
      } else if forall i | 0 <= i < |ts| :: lo <= ts[i].base {
        assert forall i | 0 <= i < |ts[1..]| :: lo <= ts[1..][i].base;
      }
    }
  }

  /** Each overwrite adds at most two areas. */
  lemma OverwriteAddsTwo(ts: seq<VirtualMemoryArea>, lo: nat, hi: nat, attr: VmaAttributes)
    requires Ordered(ts) && lo < hi
    ensures |Overwrite(ts, lo, hi, attr)| <= |ts| + 2
  {
    ClipsAddOne(ts, lo, hi);
  }

  // ---------------------------------------------------------------------------
  // Searching for free space
  // ---------------------------------------------------------------------------

  /** Sums the search forms stay inside 64 bits. */
  ghost predicate Searchable(ts: seq<VirtualMemoryArea>, size: nat) {
    forall i | 0 <= i < |ts| :: ts[i].End() + PAGE_SIZE + size <= U64
  }

  predicate Holds(t: VirtualMemoryArea, size: nat, alignment: nat)
    requires alignment > 0 && t.base + (alignment - 1) < U64
  {
    IsFree(t) && AlignUp(t.base, alignment) + size <= t.base + t.size
  }

  ghost function FirstHolding(ts: seq<VirtualMemoryArea>, size: nat, k: nat): (r: Option<nat>)
    requires Searchable(ts, size) && k <= |ts|
    ensures r.Some? ==> k <= r.value < |ts| && Holds(ts[r.value], size, PAGE_SIZE)
    ensures r.Some? ==> forall i | k <= i < r.value :: !Holds(ts[i], size, PAGE_SIZE)
    ensures r.None? ==> forall i | k <= i < |ts| :: !Holds(ts[i], size, PAGE_SIZE)
    decreases |ts| - k
  {
    hide Holds;
    if k == |ts| then None
    else if Holds(ts[k], size, PAGE_SIZE) then Some(k)
    else FirstHolding(ts, size, k + 1)
  }

  ghost function FreeRegion(ts: seq<VirtualMemoryArea>, size: nat): Option<nat>
    requires Searchable(ts, size)
  {
    var r := FirstHolding(ts, size, 0);
    if r.None? then None else Some(AlignUp(ts[r.value].base, PAGE_SIZE))
  }

  /** `a` is a page-aligned base from which `size` bytes fit inside the one free area `t`. */
  ghost predicate RoomIn(t: VirtualMemoryArea, a: nat, size: nat) {
    IsFree(t) && a % PAGE_SIZE == 0 && t.base <= a && a + size <= t.End()
  }

  ghost predicate Room(ts: seq<VirtualMemoryArea>, a: nat, size: nat) {
    exists i | 0 <= i < |ts| :: RoomIn(ts[i], a, size)
  }

  lemma HoldsIffRoom(t: VirtualMemoryArea, size: nat)
    requires t.End() + PAGE_SIZE + size <= U64
    ensures Holds(t, size, PAGE_SIZE) ==> RoomIn(t, AlignUp(t.base, PAGE_SIZE), size)
    ensures forall a: nat | RoomIn(t, a, size) :: Holds(t, size, PAGE_SIZE) && AlignUp(t.base, PAGE_SIZE) <= a
  {
    PageIsPowerOfTwo();
    AlignUpIsLeastMultiple(t.base, PAGE_SIZE);
  }

  /** The search finds the lowest page-aligned base with room inside a single free area, and
      finds none exactly when no single free area has room. */
  lemma FreeRegionIsLowestRoom(ts: seq<VirtualMemoryArea>, size: nat)
    requires Ordered(ts) && Searchable(ts, size)
    ensures match FreeRegion(ts, size)
            case Some(a) => Room(ts, a, size) && forall b: nat | Room(ts, b, size) :: a <= b
            case None => forall b: nat :: !Room(ts, b, size)
  {
    hide AlignUp;
    var r := FirstHolding(ts, size, 0);
    if r.Some? {
      HoldsIffRoom(ts[r.value], size);
    }
    forall b: nat | Room(ts, b, size)
      ensures r.Some? && AlignUp(ts[r.value].base, PAGE_SIZE) <= b
    {
      var i :| 0 <= i < |ts| && RoomIn(ts[i], b, size);
      HoldsIffRoom(ts[i], size);
      LowerRoom(ts, size, r, i, b);
    }
  }

  lemma LowerRoom(ts: seq<VirtualMemoryArea>, size: nat, r: Option<nat>, i: nat, b: nat)
    requires Ordered(ts) && Searchable(ts, size) && r == FirstHolding(ts, size, 0)
    requires i < |ts| && RoomIn(ts[i], b, size) && Holds(ts[i], size, PAGE_SIZE)
    ensures r.Some? && AlignUp(ts[r.value].base, PAGE_SIZE) <= b
  {
    hide AlignUp;
    HoldsIffRoom(ts[i], size);
    assert r.Some? && r.value <= i;
    var j := r.value;
    HoldsIffRoom(ts[j], size);
    assert j < i ==> ts[j].End() <= ts[i].base;
  }

  /** Room found this way was free, byte for byte. */
  lemma RoomWasFree(ts: seq<VirtualMemoryArea>, a: nat, size: nat, b: nat)
    requires Ordered(ts) && Room(ts, a, size) && a <= b < a + size
    ensures At(ts, b).Some? && At(ts, b).value.vmaType == Free
  {
    var i :| 0 <= i < |ts| && RoomIn(ts[i], a, size);
    AtOwner(ts, i, b);
  }

  ghost predicate FreeBytes(ts: seq<VirtualMemoryArea>, a: nat, size: nat) {
    forall b | a <= b < a + size :: At(ts, b).Some? && At(ts, b).value.vmaType == Free
  }

  /** The search can miss free bytes: two free areas side by side are not one. */
  lemma SearchMissesSplitSpace(base: nat, n: nat)
    requires base % PAGE_SIZE == 0 && n > 0 && base + (4 * n + 1) * PAGE_SIZE <= U64
    ensures var half := n * PAGE_SIZE;
            var ts := [Tile(base, half, FREE), Tile(base + half, half, FREE)];
            && Tiles(ts, base, base + 2 * half)
            && FreeBytes(ts, base, 2 * half)
            && Searchable(ts, 2 * half)
            && FreeRegion(ts, 2 * half) == None
  {
    hide AlignUp;
    var half := n * PAGE_SIZE;
    var ts := [Tile(base, half, FREE), Tile(base + half, half, FREE)];
    TwoHalves(base, half);
    assert Searchable(ts, 2 * half);
    NoRoomInHalves(ts, half, 2 * half);
    FreeRegionIsLowestRoom(ts, 2 * half);
  }

  lemma TwoHalves(base: nat, half: nat)
    requires half > 0
    ensures Tiles([Tile(base, half, FREE), Tile(base + half, half, FREE)], base, base + 2 * half)
    ensures FreeBytes([Tile(base, half, FREE), Tile(base + half, half, FREE)], base, 2 * half)
  {
    var ts := [Tile(base, half, FREE), Tile(base + half, half, FREE)];
    forall b | base <= b < base + 2 * half
      ensures At(ts, b) == Some(FREE)
    {
      AtOwner(ts, if b < base + half then 0 else 1, b);
    }
  }

  lemma NoRoomInHalves(ts: seq<VirtualMemoryArea>, half: nat, size: nat)
    requires half > 0 && size == 2 * half && |ts| == 2 && ts[0].size == half && ts[1].size == half
    ensures forall a: nat :: !Room(ts, a, size)
  {
  }

  /** It misses nothing while no two free areas are neighbours. */
  lemma SearchIsCompleteWhenSeparate(ts: seq<VirtualMemoryArea>, lo: nat, hi: nat, a: nat, size: nat)
    requires Tiles(ts, lo, hi) && Searchable(ts, size) && size > 0
    requires forall i, j | 0 <= i && j == i + 1 && j < |ts| :: !(IsFree(ts[i]) && IsFree(ts[j]))
    requires a % PAGE_SIZE == 0 && FreeBytes(ts, a, size)
    ensures FreeRegion(ts, size).Some? && FreeRegion(ts, size).value <= a
  {
    hide FreeRegion, AlignUp, Contiguous;
    assert At(ts, a).Some?;
    var i :| 0 <= i < |ts| && ts[i].Has(a);
    AtOwner(ts, i, a);
    NeighbourNotFree(ts, lo, hi, i);
    assert ts[i].End() >= a + size;
    assert RoomIn(ts[i], a, size);
    assert Room(ts, a, size);
    TilesOrdered(ts, lo, hi);
    FreeRegionIsLowestRoom(ts, size);
  }

  lemma NeighbourNotFree(ts: seq<VirtualMemoryArea>, lo: nat, hi: nat, i: nat)
    requires Tiles(ts, lo, hi) && i < |ts| && IsFree(ts[i])
    requires forall k, j | 0 <= k && j == k + 1 && j < |ts| :: !(IsFree(ts[k]) && IsFree(ts[j]))
    ensures At(ts, ts[i].End()).Some? ==> At(ts, ts[i].End()).value.vmaType != Free
  {
    TilesCover(ts, lo, hi, ts[i].End());
    if i + 1 < |ts| {
      assert ts[i].End() == ts[i + 1].base && ts[i + 1].size > 0;
      AtOwner(ts, i + 1, ts[i].End());
    }
  }

  /** `c` is a piece of `t`. */
  ghost predicate PieceOf(c: VirtualMemoryArea, t: VirtualMemoryArea) {
    c.attr == t.attr && t.base <= c.base && c.End() <= t.End()
  }

  lemma {:induction false} ClipBelowPieces(ts: seq<VirtualMemoryArea>, lo: nat, i: nat) returns (j: nat)
    requires i < |ClipBelow(ts, lo)|
    ensures j < |ts| && PieceOf(ClipBelow(ts, lo)[i], ts[j])
  {
    var n := |PieceBelow(ts[0], lo)|;
    if i < n {
      j := 0;
    } else {
      var k := ClipBelowPieces(ts[1..], lo, i - n);
      j := k + 1;
    }
  }

  lemma {:induction false} ClipAbovePieces(ts: seq<VirtualMemoryArea>, hi: nat, i: nat) returns (j: nat)
    requires i < |ClipAbove(ts, hi)|
    ensures j < |ts| && PieceOf(ClipAbove(ts, hi)[i], ts[j])
  {
    var n := |PieceAbove(ts[0], hi)|;
    if i < n {
      j := 0;
    } else {
      var k := ClipAbovePieces(ts[1..], hi, i - n);
      j := k + 1;
    }
  }

  /** Mapping never makes room: where there is room afterwards there was room before. */
  lemma MappingShrinksRoom(ts: seq<VirtualMemoryArea>, lo: nat, hi: nat, attr: VmaAttributes, a: nat, size: nat)
    requires lo <= hi && attr.vmaType != Free && Room(Overwrite(ts, lo, hi, attr), a, size)
    ensures Room(ts, a, size)
  {
    var us := Overwrite(ts, lo, hi, attr);
    var below := ClipBelow(ts, lo);
    var i :| 0 <= i < |us| && RoomIn(us[i], a, size);
    var j;
    if i < |below| {
      j := ClipBelowPieces(ts, lo, i);
    } else {
      assert i != |below|;
      j := ClipAbovePieces(ts, hi, i - |below| - 1);
    }
    assert RoomIn(ts[j], a, size);
  }
}
