/** Whole runs of map and unmap calls (crates/core/src/memory/virtual_memory.rs). */
module VirtualRuns {
  import opened Wrappers
  import opened Types
  import opened Tiling
  import opened VirtualMemory

  /** The map and unmap calls, with page-aligned sizes the host accepts. */
  datatype Call =
    | MapAnywhere(size: nat, attr: VmaAttributes)
    | MapFixed(addr: nat, size: nat, attr: VmaAttributes)
    | Unmap(addr: nat, size: nat)

  /** Fixed maps and unmaps stay inside the region, and no sum leaves 64 bits. */
  ghost predicate InRange(c: Call, base: nat, end: nat) {
    && c.size > 0
    && end + PAGE_SIZE + c.size <= U64
    && (c.MapAnywhere? || (base <= c.addr && c.addr + c.size <= end))
  }

  lemma TilesSearchable(ts: seq<VirtualMemoryArea>, base: nat, end: nat, size: nat)
    requires Tiles(ts, base, end) && end + PAGE_SIZE + size <= U64
    ensures Searchable(ts, size)
  {
    TilesBounds(ts, base, end);
  }

  /** The address range a call rewrites, if any. */
  ghost function Target(ts: seq<VirtualMemoryArea>, base: nat, end: nat, c: Call): Option<nat>
    requires Tiles(ts, base, end) && InRange(c, base, end)
  {
    TilesSearchable(ts, base, end, c.size);
    if c.MapAnywhere? then FreeRegion(ts, c.size) else Some(c.addr)
  }

  ghost function NewAttributes(c: Call): VmaAttributes {
    if c.Unmap? then FREE else c.attr
  }

  ghost function Step(ts: seq<VirtualMemoryArea>, base: nat, end: nat, c: Call): seq<VirtualMemoryArea>
    requires Tiles(ts, base, end) && InRange(c, base, end)
  {
    match Target(ts, base, end, c)
    case None => ts
    case Some(a) => Overwrite(ts, a, a + c.size, NewAttributes(c))
  }

  lemma StepKeepsTiles(ts: seq<VirtualMemoryArea>, base: nat, end: nat, c: Call)
    requires Tiles(ts, base, end) && InRange(c, base, end)
    ensures Tiles(Step(ts, base, end, c), base, end)
    ensures |Step(ts, base, end, c)| <= |ts| + 2
    ensures forall b: nat ::
              At(Step(ts, base, end, c), b)
              == match Target(ts, base, end, c)
                 case None => At(ts, b)
                 case Some(a) => if a <= b < a + c.size then Some(NewAttributes(c)) else At(ts, b)
  {
    hide Tiles, Ordered, Overwrite, FreeRegion;
    TilesOrdered(ts, base, end);
    TargetInRange(ts, base, end, c);
    match Target(ts, base, end, c)
    case None =>
    case Some(a) =>
      OverwriteKeepsTiles(ts, base, end, a, a + c.size, NewAttributes(c));
      OverwriteIsUpdate(ts, a, a + c.size, NewAttributes(c));
      OverwriteAddsTwo(ts, a, a + c.size, NewAttributes(c));
  }

  lemma TargetInRange(ts: seq<VirtualMemoryArea>, base: nat, end: nat, c: Call)
    requires Tiles(ts, base, end) && InRange(c, base, end)
    ensures match Target(ts, base, end, c)
            case None => true
            case Some(a) =>
              base <= a && a + c.size <= end && (c.MapAnywhere? ==> FreeBytes(ts, a, c.size))
  {
    hide FreeRegion;
    TilesSearchable(ts, base, end, c.size);
    FreeRegionIsLowestRoom(ts, c.size);
    TilesBounds(ts, base, end);
    if c.MapAnywhere? && FreeRegion(ts, c.size).Some? {
      var a := FreeRegion(ts, c.size).value;
      forall b | a <= b < a + c.size
        ensures At(ts, b).Some? && At(ts, b).value.vmaType == Free
      {
        RoomWasFree(ts, a, c.size, b);
      }
    }
  }

  ghost predicate AllInRange(cs: seq<Call>, base: nat, end: nat) {
    forall i | 0 <= i < |cs| :: InRange(cs[i], base, end)
  }

  ghost function Run(base: nat, end: nat, cs: seq<Call>): (ts: seq<VirtualMemoryArea>)
    requires base < end && AllInRange(cs, base, end)
    ensures Tiles(ts, base, end)
  {
    if cs == [] then [Tile(base, end - base, FREE)]
    else
      var ts := Run(base, end, cs[..|cs| - 1]);
      StepKeepsTiles(ts, base, end, cs[|cs| - 1]);
      Step(ts, base, end, cs[|cs| - 1])
  }

  /** Call `k` of a run wrote byte `b`. */
  ghost predicate Wrote(base: nat, end: nat, cs: seq<Call>, k: nat, b: nat)
    requires base < end && k < |cs| && AllInRange(cs, base, end)
  {
    var target := Target(Run(base, end, cs[..k]), base, end, cs[k]);
    target.Some? && target.value <= b < target.value + cs[k].size
  }

  /** Over every run the areas partition the region, their sizes add up to it, there are at
      most two more areas per call ... */
  lemma {:induction false} EveryRunPartitions(base: nat, end: nat, cs: seq<Call>)
    requires base < end && AllInRange(cs, base, end)
    ensures Tiles(Run(base, end, cs), base, end)
    ensures SizeOf(Run(base, end, cs), IsFreeAttributes) + SizeOf(Run(base, end, cs), IsUsedAttributes) == end - base
    ensures |Run(base, end, cs)| <= 1 + 2 * |cs|
  {
    hide Tiles, Step;
    SizesConserved(Run(base, end, cs), base, end, IsFreeAttributes, IsUsedAttributes);
    if cs != [] {
      EveryRunPartitions(base, end, cs[..|cs| - 1]);
      StepKeepsTiles(Run(base, end, cs[..|cs| - 1]), base, end, cs[|cs| - 1]);
    }
  }

  predicate IsFreeAttributes(a: VmaAttributes) {
    a.vmaType == Free
  }

  predicate IsUsedAttributes(a: VmaAttributes) {
    a.vmaType != Free
  }

  lemma LastCall(base: nat, end: nat, cs: seq<Call>, b: nat)
    requires base < end && cs != [] && AllInRange(cs, base, end)
    ensures At(Run(base, end, cs), b) ==
            if Wrote(base, end, cs, |cs| - 1, b) then Some(NewAttributes(cs[|cs| - 1]))
            else At(Run(base, end, cs[..|cs| - 1]), b)
  {
    hide Tiles, Step, Target;
    StepKeepsTiles(Run(base, end, cs[..|cs| - 1]), base, end, cs[|cs| - 1]);
  }

  lemma EarlierCalls(base: nat, end: nat, cs: seq<Call>, init: seq<Call>, b: nat)
    requires base < end && AllInRange(cs, base, end) && init <= cs
    ensures AllInRange(init, base, end)
    ensures forall k: nat | k < |init| :: Wrote(base, end, cs, k, b) == Wrote(base, end, init, k, b)
  {
    hide Tiles, Run, Target;
    forall k: nat | k < |init|
      ensures Wrote(base, end, cs, k, b) == Wrote(base, end, init, k, b)
    {
      assert cs[..k] == init[..k];
    }
  }

  /** ... and each byte has the attributes of the last call that wrote it. */
  lemma {:induction false} LastWriteWins(base: nat, end: nat, cs: seq<Call>, k: nat, b: nat)
    requires base < end && AllInRange(cs, base, end)
    requires k < |cs| && Wrote(base, end, cs, k, b)
    requires forall l: nat | k < l < |cs| :: !Wrote(base, end, cs, l, b)
    ensures At(Run(base, end, cs), b)
            == Some(if cs[k].Unmap? then VmaAttributes(Free, 0, [], false) else cs[k].attr)
  {
    hide Wrote, Run;
    LastCall(base, end, cs, b);
    if k < |cs| - 1 {
      EarlierCalls(base, end, cs, cs[..|cs| - 1], b);
      LastWriteWins(base, end, cs[..|cs| - 1], k, b);
    }
  }

  lemma {:induction false} NeverWrittenStaysFree(base: nat, end: nat, cs: seq<Call>, b: nat)
    requires base <= b < end && AllInRange(cs, base, end)
    requires forall k: nat | k < |cs| :: !Wrote(base, end, cs, k, b)
    ensures At(Run(base, end, cs), b) == Some(VmaAttributes(Free, 0, [], false))
  {
    if cs == [] {
      AtOnly(Tile(base, end - base, FREE), b);
    } else {
      hide Wrote, Run;
      LastCall(base, end, cs, b);
      EarlierCalls(base, end, cs, cs[..|cs| - 1], b);
      NeverWrittenStaysFree(base, end, cs[..|cs| - 1], b);
    }
  }

  lemma AtOnly(t: VirtualMemoryArea, b: nat)
    requires t.Has(b)
    ensures At([t], b) == Some(t.attr)
  {
    assert [t][0] == t;
  }

  /** The search's blind spot is one call away from boot: unmapping the lower half of untouched
      space cuts it in two, and then nothing larger than a half can be mapped although every
      byte is free. */
  lemma SearchMissIsReached(base: nat, n: nat)
    requires base % PAGE_SIZE == 0 && n > 0 && base + (4 * n + 1) * PAGE_SIZE <= U64
    ensures var half := n * PAGE_SIZE;
            var cut := [Unmap(base, half)];
            && AllInRange(cut, base, base + 2 * half)
            && Run(base, base + 2 * half, cut) == [Tile(base, half, FREE), Tile(base + half, half, FREE)]
            && FreeBytes(Run(base, base + 2 * half, cut), base, 2 * half)
            && forall attr :: InRange(MapAnywhere(2 * half, attr), base, base + 2 * half)
                              && Target(Run(base, base + 2 * half, cut), base, base + 2 * half,
                                        MapAnywhere(2 * half, attr)) == None
  {
    hide Run, Tiles, Ordered, FreeRegion, FreeBytes, Searchable;
    var half := n * PAGE_SIZE;
    CutInRange(base, half);
    UnmapCuts(base, half);
    SearchMissesSplitSpace(base, n);
  }

  lemma CutInRange(base: nat, half: nat)
    requires half > 0 && base + 3 * half + PAGE_SIZE <= U64
    ensures AllInRange([Unmap(base, half)], base, base + 2 * half)
  {
  }

  lemma OneCall(base: nat, end: nat, c: Call)
    requires base < end && AllInRange([c], base, end)
    ensures InRange(c, base, end) && Tiles([Tile(base, end - base, FREE)], base, end)
    ensures Run(base, end, [c]) == Step([Tile(base, end - base, FREE)], base, end, c)
  {
    hide Step, Ordered;
    assert [c][0] == c && [c][..|[c]| - 1] == [];
    assert Run(base, end, []) == [Tile(base, end - base, FREE)];
  }

  lemma ClipsOfOne(t: VirtualMemoryArea, lo: nat, hi: nat)
    ensures ClipBelow([t], lo) == PieceBelow(t, lo) && ClipAbove([t], hi) == PieceAbove(t, hi)
  {
    assert [t][1..] == [];
    assert PieceBelow(t, lo) + [] == PieceBelow(t, lo) && PieceAbove(t, hi) + [] == PieceAbove(t, hi);
  }

  lemma UnmapCuts(base: nat, half: nat)
    requires half > 0 && AllInRange([Unmap(base, half)], base, base + 2 * half)
    ensures Run(base, base + 2 * half, [Unmap(base, half)]) == [Tile(base, half, FREE), Tile(base + half, half, FREE)]
  {
    hide Run, AllInRange, Tiles, ClipBelow, ClipAbove;
    OneCall(base, base + 2 * half, Unmap(base, half));
    ClipsOfOne(Tile(base, 2 * half, FREE), base, base + half);
  }
}
