/** The memory manager's class: its carving loop edits the VMA map in place
    (crates/core/src/memory/virtual_memory.rs). */
module VirtualManager {
  import opened Wrappers
  import opened Types
  import opened Bytes
  import opened Tiling
  import opened VirtualMemory
  import opened VirtualRuns

  // ---------------------------------------------------------------------------
  // The carving loop
  // ---------------------------------------------------------------------------

  /** The pieces of one area left outside [lo, hi). */
  ghost function Outside(t: VirtualMemoryArea, lo: nat, hi: nat): seq<VirtualMemoryArea>
    requires lo <= hi
  {
    if !Overlaps(t, lo, hi - lo) then [t]
    else PieceBelow(t, lo) + PieceAbove(t, hi)
  }

  ghost function Carved(ts: seq<VirtualMemoryArea>, lo: nat, hi: nat): seq<VirtualMemoryArea>
    requires lo <= hi
  {
    if ts == [] then [] else Outside(ts[0], lo, hi) + Carved(ts[1..], lo, hi)
  }

  lemma {:induction false} ClipBelowNone(ts: seq<VirtualMemoryArea>, lo: nat)
    requires forall i | 0 <= i < |ts| :: lo <= ts[i].base
    ensures ClipBelow(ts, lo) == []
  {
    if ts != [] {
      ClipBelowNone(ts[1..], lo);
    }
  }

  lemma OutsideIsPieces(t: VirtualMemoryArea, lo: nat, hi: nat)
    requires lo < hi && t.size > 0
    ensures Outside(t, lo, hi) == PieceBelow(t, lo) + PieceAbove(t, hi)
    ensures t.End() <= lo ==> PieceAbove(t, hi) == []
  {
    if t.End() <= lo {
      assert PieceBelow(t, lo) + PieceAbove(t, hi) == [t];
    } else if t.base >= hi {
      assert PieceBelow(t, lo) + PieceAbove(t, hi) == [t];
    }
  }

  /** Carving leaves what lies below and what lies above. */
  lemma {:induction false} CarvedIsClips(ts: seq<VirtualMemoryArea>, lo: nat, hi: nat)
    requires Ordered(ts) && lo < hi
    ensures Carved(ts, lo, hi) == ClipBelow(ts, lo) + ClipAbove(ts, hi)
  {
    if ts != [] {
      OrderedTail(ts);
      CarvedIsClips(ts[1..], lo, hi);
      OutsideIsPieces(ts[0], lo, hi);
      if ts[0].End() > lo {
        ClipBelowNone(ts[1..], lo);
      }
      Interleaved(PieceBelow(ts[0], lo), PieceAbove(ts[0], hi), ClipBelow(ts[1..], lo), ClipAbove(ts[1..], hi));
    }
  }

  lemma Interleaved<T>(a: seq<T>, b: seq<T>, c: seq<T>, d: seq<T>)
    requires b == [] || c == []
    ensures (a + b) + (c + d) == (a + c) + (b + d)
  {
  }

  lemma {:induction false} CarvedJoin(xs: seq<VirtualMemoryArea>, ys: seq<VirtualMemoryArea>, lo: nat, hi: nat)
    requires lo <= hi
    ensures Carved(xs + ys, lo, hi) == Carved(xs, lo, hi) + Carved(ys, lo, hi)
  {
    if xs == [] {
      assert xs + ys == ys;
    } else {
      assert (xs + ys)[1..] == xs[1..] + ys;
      CarvedJoin(xs[1..], ys, lo, hi);
    }
  }

  lemma {:induction false} CarvedDisjoint(ts: seq<VirtualMemoryArea>, lo: nat, hi: nat)
    requires lo <= hi && forall i | 0 <= i < |ts| :: !Overlaps(ts[i], lo, hi - lo)
    ensures Carved(ts, lo, hi) == ts
  {
    if ts != [] {
      CarvedDisjoint(ts[1..], lo, hi);
    }
  }

  lemma OutsideOrdered(t: VirtualMemoryArea, lo: nat, hi: nat)
    requires lo < hi && t.size > 0
    ensures Ordered(Outside(t, lo, hi))
    ensures forall i | 0 <= i < |Outside(t, lo, hi)| ::
              t.base <= Outside(t, lo, hi)[i].base && Outside(t, lo, hi)[i].End() <= t.End()
  {
  }

  lemma {:induction false} CarvedOrdered(ts: seq<VirtualMemoryArea>, floor: nat, top: nat, lo: nat, hi: nat)
    requires Ordered(ts) && lo < hi
    requires forall i | 0 <= i < |ts| :: floor <= ts[i].base && ts[i].End() <= top
    ensures Ordered(Carved(ts, lo, hi))
    ensures forall i | 0 <= i < |Carved(ts, lo, hi)| ::
              floor <= Carved(ts, lo, hi)[i].base && Carved(ts, lo, hi)[i].End() <= top
  {
    if ts != [] {
      OrderedTail(ts);
      CarvedOrdered(ts[1..], ts[0].End(), top, lo, hi);
      OutsideOrdered(ts[0], lo, hi);
      hide Ordered, Outside;
      OrderedJoin(Outside(ts[0], lo, hi), Carved(ts[1..], lo, hi), ts[0].End());
    }
  }

  /** Bases of the areas from `k` on that overlap the range. */
  ghost function Overlapping(ts: seq<VirtualMemoryArea>, addr: nat, size: nat, k: nat): seq<nat>
    requires k <= |ts|
    decreases |ts| - k
  {
    if k == |ts| then []
    else (if Overlaps(ts[k], addr, size) then [ts[k].base] else []) + Overlapping(ts, addr, size, k + 1)
  }

  lemma OverlappingStep(ts: seq<VirtualMemoryArea>, addr: nat, size: nat, k: nat, found: seq<nat>)
    requires k < |ts|
    ensures found + Overlapping(ts, addr, size, k)
            == (if Overlaps(ts[k], addr, size) then found + [ts[k].base] else found)
               + Overlapping(ts, addr, size, k + 1)
  {
  }

  lemma {:induction false} NextOverlapping(ts: seq<VirtualMemoryArea>, addr: nat, size: nat, k: nat) returns (p: nat)
    requires k <= |ts| && Overlapping(ts, addr, size, k) != []
    ensures k <= p < |ts| && Overlaps(ts[p], addr, size)
    ensures forall i | k <= i < p :: !Overlaps(ts[i], addr, size)
    ensures Overlapping(ts, addr, size, k) == [ts[p].base] + Overlapping(ts, addr, size, p + 1)
    decreases |ts| - k
  {
    if Overlaps(ts[k], addr, size) {
      p := k;
    } else {
      p := NextOverlapping(ts, addr, size, k + 1);
    }
  }

  lemma {:induction false} NoneOverlapping(ts: seq<VirtualMemoryArea>, addr: nat, size: nat, k: nat)
    requires k <= |ts| && Overlapping(ts, addr, size, k) == []
    ensures forall i | k <= i < |ts| :: !Overlaps(ts[i], addr, size)
    decreases |ts| - k
  {
    if k < |ts| {
      NoneOverlapping(ts, addr, size, k + 1);
    }
  }

  /** The map with one area replaced by what is left of it outside [lo, hi). */
  function OutsideMap(m: map<nat, VirtualMemoryArea>, t: VirtualMemoryArea, lo: nat, hi: nat)
    : map<nat, VirtualMemoryArea>
  {
    var removed := m - {t.base};
    var withBefore := if t.base < lo then removed[t.base := Tile(t.base, lo - t.base, t.attr)] else removed;
    if t.End() > hi then withBefore[hi := Tile(hi, t.End() - hi, t.attr)] else withBefore
  }

  /** The carving loop with the areas before `n` carved and the rest untouched. */
  ghost predicate CarveProgress(m: map<nat, VirtualMemoryArea>, ts: seq<VirtualMemoryArea>, n: nat, lo: nat, hi: nat)
    requires lo <= hi
  {
    n <= |ts| && Represents(m, Carved(ts[..n], lo, hi) + ts[n..])
  }

  lemma CarveStarts(m: map<nat, VirtualMemoryArea>, ts: seq<VirtualMemoryArea>, lo: nat, hi: nat)
    requires lo <= hi && Represents(m, ts)
    ensures CarveProgress(m, ts, 0, lo, hi)
  {
    assert Carved(ts[..0], lo, hi) + ts[0..] == ts;
  }

  lemma CarveEnds(m: map<nat, VirtualMemoryArea>, ts: seq<VirtualMemoryArea>, lo: nat, hi: nat)
    requires lo <= hi && CarveProgress(m, ts, |ts|, lo, hi)
    ensures Represents(m, Carved(ts, lo, hi))
  {
    assert ts[..|ts|] == ts && ts[|ts|..] == [];
    assert Carved(ts, lo, hi) + [] == Carved(ts, lo, hi);
  }

  lemma CarveSkips(m: map<nat, VirtualMemoryArea>, ts: seq<VirtualMemoryArea>, n: nat, p: nat, lo: nat, hi: nat)
    requires lo <= hi && CarveProgress(m, ts, n, lo, hi) && n <= p <= |ts|
    requires forall i | n <= i < p :: !Overlaps(ts[i], lo, hi - lo)
    ensures CarveProgress(m, ts, p, lo, hi)
  {
    hide Represents, Outside, Carved;
    var skipped := ts[n..p];
    CarvedJoin(ts[..n], skipped, lo, hi);
    CarvedDisjoint(skipped, lo, hi);
    assert ts[..p] == ts[..n] + skipped;
    assert ts[n..] == skipped + ts[p..];
    var carved := Carved(ts[..n], lo, hi);
    assert (carved + skipped) + ts[p..] == carved + (skipped + ts[p..]);
  }

  lemma CarveOne(m: map<nat, VirtualMemoryArea>, ts: seq<VirtualMemoryArea>, p: nat, lo: nat, hi: nat)
    requires Ordered(ts) && lo < hi && CarveProgress(m, ts, p, lo, hi) && p < |ts|
    requires Overlaps(ts[p], lo, hi - lo)
    ensures ts[p].base in m && m[ts[p].base] == ts[p]
    ensures CarveProgress(OutsideMap(m, ts[p], lo, hi), ts, p + 1, lo, hi)
  {
    hide Ordered, Represents, Carved;
    var pre, t, post := Carved(ts[..p], lo, hi), ts[p], ts[p + 1..];
    assert ts[p..] == [t] + post;
    assert pre + ts[p..] == pre + [t] + post;
    PartlyCarvedOrdered(ts, p, lo, hi);
    PartlyCarvedOrdered(ts, p + 1, lo, hi);
    CarvedSnoc(ts, p, lo, hi);
    RepresentedAt(m, pre, t, post);
    OutsideRepresents(m, pre, t, post, lo, hi);
  }

  lemma RepresentedAt(m: map<nat, VirtualMemoryArea>, pre: seq<VirtualMemoryArea>, t: VirtualMemoryArea,
                      post: seq<VirtualMemoryArea>)
    requires Represents(m, pre + [t] + post)
    ensures t.base in m && m[t.base] == t
  {
    assert (pre + [t] + post)[|pre|] == t;
  }

  lemma CarvedSnoc(ts: seq<VirtualMemoryArea>, p: nat, lo: nat, hi: nat)
    requires lo <= hi && p < |ts|
    ensures Carved(ts[..p + 1], lo, hi) == Carved(ts[..p], lo, hi) + Outside(ts[p], lo, hi)
  {
    assert ts[..p + 1] == ts[..p] + [ts[p]];
    CarvedJoin(ts[..p], [ts[p]], lo, hi);
    assert Carved([ts[p]], lo, hi) == Outside(ts[p], lo, hi) + [];
  }

  lemma PartlyCarvedOrdered(ts: seq<VirtualMemoryArea>, n: nat, lo: nat, hi: nat)
    requires Ordered(ts) && lo < hi && n <= |ts|
    ensures Ordered(Carved(ts[..n], lo, hi) + ts[n..])
  {
    hide Ordered, Carved;
    var xs, ys := ts[..n], ts[n..];
    assert ts == xs + ys;
    OrderedSplit(xs, ys);
    if ys == [] {
      var top := TopOf(xs);
      CarvedOrdered(xs, 0, top, lo, hi);
      assert Carved(xs, lo, hi) + ys == Carved(xs, lo, hi);
    } else {
      CarvedOrdered(xs, 0, ys[0].base, lo, hi);
      BottomOf(ys);
      OrderedJoin(Carved(xs, lo, hi), ys, ys[0].base);
    }
  }

  lemma TopOf(ts: seq<VirtualMemoryArea>) returns (top: nat)
    requires Ordered(ts)
    ensures forall i | 0 <= i < |ts| :: ts[i].End() <= top
  {
    top := if ts == [] then 0 else ts[|ts| - 1].End();
    forall i | 0 <= i < |ts|
      ensures ts[i].End() <= top
    {
      assert i < |ts| - 1 ==> ts[i].End() <= ts[|ts| - 1].base;
    }
  }

  lemma BottomOf(ts: seq<VirtualMemoryArea>)
    requires Ordered(ts) && ts != []
    ensures forall i | 0 <= i < |ts| :: ts[0].base <= ts[i].base
  {
    forall i | 0 <= i < |ts|
      ensures ts[0].base <= ts[i].base
    {
      assert i > 0 ==> ts[0].End() <= ts[i].base;
    }
  }

  lemma OutsideRepresents(m: map<nat, VirtualMemoryArea>, pre: seq<VirtualMemoryArea>, t: VirtualMemoryArea,
                          post: seq<VirtualMemoryArea>, lo: nat, hi: nat)
    requires lo < hi && Overlaps(t, lo, hi - lo)
    requires Ordered(pre + [t] + post) && Represents(m, pre + [t] + post)
    requires Ordered(pre + Outside(t, lo, hi) + post)
    ensures Represents(OutsideMap(m, t, lo, hi), pre + Outside(t, lo, hi) + post)
  {
    hide Ordered, Represents;
    RepresentsRemove(m, pre, t, post);
    var m0 := m - {t.base};
    if t.base < lo {
      var before := Tile(t.base, lo - t.base, t.attr);
      if t.End() > hi {
        var after := Tile(hi, t.End() - hi, t.attr);
        assert pre + Outside(t, lo, hi) + post == (pre + [before]) + [after] + post;
        DropMiddle(pre + [before], after, post);
        RepresentsInsert(m0, pre, before, post);
        RepresentsInsert(m0[before.base := before], pre + [before], after, post);
      } else {
        assert Outside(t, lo, hi) == [before];
        RepresentsInsert(m0, pre, before, post);
      }
    } else if t.End() > hi {
      var after := Tile(hi, t.End() - hi, t.attr);
      assert Outside(t, lo, hi) == [after];
      RepresentsInsert(m0, pre, after, post);
    } else {
      assert pre + Outside(t, lo, hi) + post == pre + post;
    }
  }

  lemma DropMiddle(xs: seq<VirtualMemoryArea>, t: VirtualMemoryArea, zs: seq<VirtualMemoryArea>)
    requires Ordered(xs + [t] + zs)
    ensures Ordered(xs + zs)
  {
    OrderedSplit(xs + [t], zs);
    OrderedSplit(xs, [t]);
    assert forall i | 0 <= i < |xs| :: xs[i] == (xs + [t])[i];
  }

  /** Inserting the new area into the hole gives the overwritten areas. */
  lemma HoleFilled(m: map<nat, VirtualMemoryArea>, ts: seq<VirtualMemoryArea>, lo: nat, hi: nat, attr: VmaAttributes)
    requires Ordered(ts) && lo < hi && Represents(m, Carved(ts, lo, hi))
    ensures Represents(m[lo := Tile(lo, hi - lo, attr)], Overwrite(ts, lo, hi, attr))
  {
    CarvedIsClips(ts, lo, hi);
    OverwriteIsUpdate(ts, lo, hi, attr);
    RepresentsInsert(m, ClipBelow(ts, lo), Tile(lo, hi - lo, attr), ClipAbove(ts, hi));
  }

  // ---------------------------------------------------------------------------
  // The manager
  // ---------------------------------------------------------------------------

  /** Where a mapping goes: to the address given, or to free space. */
  ghost function Placement(ts: seq<VirtualMemoryArea>, virtualAddr: nat, size: nat, flags: nat): Option<nat>
    requires Searchable(ts, size)
  {
    if virtualAddr == 0 || !Contains(flags, FIXED) then FreeRegion(ts, size) else Some(virtualAddr)
  }

  /** Flag 0x10 and an address other than zero are what fixes a mapping, whatever the other
      flags; flag 0x400000 is what keeps it from being merged. */
  lemma FlagsDecide(ts: seq<VirtualMemoryArea>, virtualAddr: nat, size: nat, low: nat, high: nat)
    requires Searchable(ts, size)
    ensures low < 0x10 && virtualAddr != 0 ==>
              Placement(ts, virtualAddr, size, low + 0x10 * (1 + 2 * high)) == Some(virtualAddr)
    ensures low < 0x10 ==> Placement(ts, virtualAddr, size, low + 0x10 * (2 * high)) == FreeRegion(ts, size)
    ensures Placement(ts, 0, size, low) == FreeRegion(ts, size)
    ensures low < 0x40_0000 ==> Contains(low + 0x40_0000 * (1 + 2 * high), NO_COALESCE)
                                && !Contains(low + 0x40_0000 * (2 * high), NO_COALESCE)
  {
    hide FreeRegion, Contains;
    if low < 0x10 {
      ContainsBit(0x10, low, high);
    }
    if low < 0x40_0000 {
      ContainsBit(0x40_0000, low, high);
    }
  }

  /** The flags of an anonymous private mapping are searched for, and with FIXED are placed. */
  lemma CommonFlags(ts: seq<VirtualMemoryArea>, virtualAddr: nat, size: nat)
    requires Searchable(ts, size)
    ensures Placement(ts, virtualAddr, size, 0x1002) == FreeRegion(ts, size)
    ensures virtualAddr != 0 ==> Placement(ts, virtualAddr, size, 0x1012) == Some(virtualAddr)
  {
    FlagsDecide(ts, virtualAddr, size, 2, 0x80);
  }

  datatype MapError = NoFreeRegion | OsRefused

  class MemoryManager {
    var vmaMap: map<nat, VirtualMemoryArea>
    const userBase: nat
    const userSize: nat
    ghost var tiles: seq<VirtualMemoryArea>

    /** The map holds disjoint areas; nothing here needs them to cover the region. */
    ghost predicate Valid()
      reads this
    {
      Represents(vmaMap, tiles) && Ordered(tiles)
    }

    /** The areas partition the user region. */
    ghost predicate Covers()
      reads this
    {
      Tiles(tiles, userBase, userBase + userSize)
    }

    constructor (base: nat, size: nat)
      requires size > 0
      ensures Valid() && Covers() && userBase == base && userSize == size
      ensures tiles == [Tile(base, size, FREE)]
    {
      userBase, userSize := base, size;
      vmaMap := map[base := Tile(base, size, FREE)];
      tiles := [Tile(base, size, FREE)];
      new;
      assert tiles[0] == Tile(base, size, FREE);
    }

    /** Find a free region of the given size in the VMA map. */
    method FindFreeRegion(size: nat) returns (r: Option<nat>)
      requires Valid() && Searchable(tiles, size)
      ensures r == FreeRegion(tiles, size)
    {
      hide Ordered, Represents, AlignUp;
      VisitedInOrder(vmaMap, tiles);
      var keys: seq<nat> := SortedKeys(vmaMap.Keys);
      var i := 0;
      while i < |keys|
        invariant 0 <= i <= |keys|
        invariant FirstHolding(tiles, size, 0) == FirstHolding(tiles, size, i)
      {
        var vma := vmaMap[keys[i]];
        assert vma == tiles[i];
        if IsFree(vma) {
          var alignedBase := AlignUp(vma.base, PAGE_SIZE);
          if alignedBase + size <= vma.base + vma.size {
            return Some(alignedBase);
          }
        }
        i := i + 1;
      }
      return None;
    }

    /** Carve a region out of existing VMAs: collect the overlapping ones, then trim each. */
    method CarveVma(addr: nat, size: nat)
      requires Valid() && size > 0
      modifies this`vmaMap
      ensures Represents(vmaMap, Carved(tiles, addr, addr + size))
    {
      hide Ordered, Represents, Outside, Carved, CarveProgress;
      var end := addr + size;
      var overlapping := CollectOverlapping(addr, size);
      ghost var n := 0;
      CarveStarts(vmaMap, tiles, addr, end);
      var j := 0;
      while j < |overlapping|
        invariant 0 <= j <= |overlapping| && n <= |tiles|
        invariant overlapping[j..] == Overlapping(tiles, addr, size, n)
        invariant CarveProgress(vmaMap, tiles, n, addr, end)
      {
        ghost var p := NextOverlapping(tiles, addr, size, n);
        CarveSkips(vmaMap, tiles, n, p, addr, end);
        CarveOne(vmaMap, tiles, p, addr, end);
        assert overlapping[j..][0] == overlapping[j];
        assert overlapping[j + 1..] == overlapping[j..][1..];
        vmaMap := OutsideMap(vmaMap, vmaMap[overlapping[j]], addr, end);
        n := p + 1;
        j := j + 1;
      }
      NoneOverlapping(tiles, addr, size, n);
      CarveSkips(vmaMap, tiles, n, |tiles|, addr, end);
      CarveEnds(vmaMap, tiles, addr, end);
    }

    method CollectOverlapping(addr: nat, size: nat) returns (overlapping: seq<nat>)
      requires Valid()
      ensures overlapping == Overlapping(tiles, addr, size, 0)
    {
      hide Ordered, Represents, SortedKeys, Bases;
      VisitedInOrder(vmaMap, tiles);
      var keys: seq<nat> := SortedKeys(vmaMap.Keys);
      overlapping := [];
      var i := 0;
      while i < |keys|
        invariant 0 <= i <= |keys|
        invariant overlapping + Overlapping(tiles, addr, size, i) == Overlapping(tiles, addr, size, 0)
      {
        var base: nat := keys[i];
        assert vmaMap[base] == tiles[i];
        OverlappingStep(tiles, addr, size, i, overlapping);
        if base < addr + size && Overlaps(vmaMap[base], addr, size) {
          overlapping := overlapping + [base];
        }
        i := i + 1;
      }
    }

    /** Carve the range out and record it with new attributes. */
    method Replace(addr: nat, size: nat, attr: VmaAttributes)
      requires Valid() && size > 0
      modifies this
      ensures Valid() && tiles == Overwrite(old(tiles), addr, addr + size, attr)
      ensures old(Covers()) && userBase <= addr && addr + size <= userBase + userSize ==> Covers()
    {
      hide Ordered, Tiles, Represents, Overwrite, Carved;
      CarveVma(addr, size);
      HoleFilled(vmaMap, tiles, addr, addr + size, attr);
      OverwriteIsUpdate(tiles, addr, addr + size, attr);
      if Covers() && userBase <= addr && addr + size <= userBase + userSize {
        OverwriteKeepsTiles(tiles, userBase, userBase + userSize, addr, addr + size, attr);
      }
      vmaMap := vmaMap[addr := Tile(addr, size, attr)];
      tiles := Overwrite(tiles, addr, addr + size, attr);
    }

    /** Map memory into the virtual address space. The host's answer to the mapping call is
        `osMaps`; it always rejects an empty range. */
    method MapMemory(virtualAddr: nat, size: nat, prot: nat, flags: nat, vmaType: VMAType, name: seq<byte>, osMaps: bool)
      returns (r: Result<nat, MapError>)
      requires Valid() && size + PAGE_SIZE <= U64 && Searchable(tiles, AlignUp(size, PAGE_SIZE))
      modifies this
      ensures Valid()
      ensures var alignedSize := AlignUp(size, PAGE_SIZE);
              var place := Placement(old(tiles), virtualAddr, alignedSize, flags);
              var attr := VmaAttributes(vmaType, prot, name, Contains(flags, NO_COALESCE));
              && (r == Err(NoFreeRegion) <==> place == None)
              && (r.Err? ==> vmaMap == old(vmaMap) && tiles == old(tiles))
              && (r.Ok? ==>
                    && place == Some(r.value) && alignedSize > 0
                    && tiles == Overwrite(old(tiles), r.value, r.value + alignedSize, attr)
                    && (old(Covers()) && userBase <= r.value && r.value + alignedSize <= userBase + userSize
                        ==> Covers()))
              && (place.Some? && osMaps && alignedSize > 0 ==> r.Ok?)
      ensures var alignedSize := AlignUp(size, PAGE_SIZE);
              var attr := VmaAttributes(vmaType, prot, name, Contains(flags, NO_COALESCE));
              var call := if virtualAddr == 0 || !Contains(flags, FIXED) then MapAnywhere(alignedSize, attr)
                          else MapFixed(virtualAddr, alignedSize, attr);
              old(Covers()) && InRange(call, userBase, userBase + userSize) && osMaps ==>
                tiles == Step(old(tiles), userBase, userBase + userSize, call)
    {
      hide Ordered, Tiles, Represents, Overwrite, FreeRegion, AlignUp;
      var alignedSize := AlignUp(size, PAGE_SIZE);
      var addr: nat := virtualAddr;
      if virtualAddr == 0 || !Contains(flags, FIXED) {
        var found := FindFreeRegion(alignedSize);
        if found.None? {
          return Err(NoFreeRegion);
        }
        addr := found.value;
      }
      if !osMaps || alignedSize == 0 {
        return Err(OsRefused);
      }
      Replace(addr, alignedSize, VmaAttributes(vmaType, prot, name, Contains(flags, NO_COALESCE)));
      return Ok(addr);
    }

    /** Unmap memory from the virtual address space. */
    method UnmapMemory(virtualAddr: nat, size: nat, osUnmaps: bool) returns (ok: bool)
      requires Valid() && size + PAGE_SIZE <= U64
      modifies this
      ensures Valid()
      ensures var alignedSize := AlignUp(size, PAGE_SIZE);
              && ok == (osUnmaps && alignedSize > 0)
              && (!ok ==> vmaMap == old(vmaMap) && tiles == old(tiles))
              && (ok ==>
                    && tiles == Overwrite(old(tiles), virtualAddr, virtualAddr + alignedSize, FREE)
                    && (old(Covers()) && userBase <= virtualAddr && virtualAddr + alignedSize <= userBase + userSize
                        ==> Covers()))
      ensures var call := Unmap(virtualAddr, AlignUp(size, PAGE_SIZE));
              old(Covers()) && InRange(call, userBase, userBase + userSize) && osUnmaps ==>
                tiles == Step(old(tiles), userBase, userBase + userSize, call)
    {
      hide Ordered, Tiles, Represents, Overwrite, AlignUp;
      var alignedSize := AlignUp(size, PAGE_SIZE);
      if !osUnmaps || alignedSize == 0 {
        return false;
      }
      Replace(virtualAddr, alignedSize, FREE);
      return true;
    }
  }
}
