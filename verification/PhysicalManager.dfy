/** The direct memory manager's class: it edits its area map in place, and its contracts tie
    the map to the sequences of `PhysicalMemory` (crates/core/src/memory/physical_memory.rs). */
module PhysicalManager {
  import opened Wrappers
  import opened Types
  import opened Tiling
  import opened PhysicalMemory
  import opened PhysicalRuns

  /** What one allocation does: the abstract step, first-fit over bytes, a pointwise update. */
  ghost predicate AllocationResult(was: seq<PhysicalMemoryArea>, total: nat, searchStart: nat, searchEnd: nat,
                                   size: nat, alignment: nat, now: seq<PhysicalMemoryArea>, r: Option<nat>)
    requires Tiles(was, 0, total) && Sound(total, searchStart, size, alignment)
  {
    var effective := Max(alignment, PAGE_SIZE);
    && (r.None? ==> now == was && forall a: nat :: !Grantable(was, searchStart, searchEnd, size, effective, a))
    && (r.Some? ==>
          && Grantable(was, searchStart, searchEnd, size, effective, r.value)
          && (forall a: nat | Grantable(was, searchStart, searchEnd, size, effective, a) :: r.value <= a)
          && forall b: nat ::
               At(now, b) == if r.value <= b < r.value + size then Some(ALLOCATED) else At(was, b))
    && forall held ::
         Step(World(was, held), total, Allocate(searchStart, searchEnd, size, alignment))
         == World(now, if r.None? then held else held[r.value := Grant(size, alignment)])
  }

  lemma AllocationHolds(was: seq<PhysicalMemoryArea>, total: nat, searchStart: nat, searchEnd: nat,
                        size: nat, alignment: nat)
    requires Managed(was, total) && Sound(total, searchStart, size, alignment)
    requires Searchable(was, searchStart, Max(alignment, PAGE_SIZE))
    ensures var effective := Max(alignment, PAGE_SIZE);
            var fit := FirstFit(was, searchStart, searchEnd, size, effective, 0);
            if fit.None? then
              AllocationResult(was, total, searchStart, searchEnd, size, alignment, was, None)
            else
              var addr := Candidate(was[fit.value], searchStart, effective);
              AllocationResult(was, total, searchStart, searchEnd, size, alignment,
                               SplitAt(was, fit.value, addr, size, ALLOCATED), Some(addr))
  {
    hide Ordered, Contiguous, KnownStates, NoAdjacentFree, Grantable, SplitAt;
    var effective := Max(alignment, PAGE_SIZE);
    EffectiveAlignment(alignment);
    FirstFitIsLeastGrantable(was, total, searchStart, searchEnd, size, effective);
    var fit := FirstFit(was, searchStart, searchEnd, size, effective, 0);
    if fit.Some? {
      var addr := Candidate(was[fit.value], searchStart, effective);
      SplitAtIsUpdate(was, total, fit.value, addr, size, ALLOCATED);
    }
  }

  lemma TilesOrdered(ts: seq<PhysicalMemoryArea>, total: nat)
    requires Tiles(ts, 0, total)
    ensures Ordered(ts) && |ts| > 0
  {
  }

  lemma ManagedTiles(ts: seq<PhysicalMemoryArea>, total: nat)
    requires Managed(ts, total)
    ensures Tiles(ts, 0, total) && Ordered(ts) && KnownStates(ts)
  {
  }

  lemma FitBounds(t: PhysicalMemoryArea, searchStart: nat, searchEnd: nat, size: nat, alignment: nat)
    requires alignment > 0 && Max(t.base, searchStart) + (alignment - 1) < U64
    requires Fits(t, searchStart, searchEnd, size, alignment)
    ensures t.attr.dmaType == Free
    ensures t.base <= Candidate(t, searchStart, alignment)
    ensures Candidate(t, searchStart, alignment) + size <= t.End()
  {
  }

  /** Carving and then marking the carved area is the grant. */
  lemma MarkSplit(ts: seq<PhysicalMemoryArea>, i: nat, addr: nat, size: nat) returns (k: nat)
    requires i < |ts| && ts[i].attr == FREE && ts[i].base <= addr && addr + size <= ts[i].End()
    ensures k < |SplitAt(ts, i, addr, size, FREE)| && SplitAt(ts, i, addr, size, FREE)[k].base == addr
    ensures Marked(SplitAt(ts, i, addr, size, FREE), k, Allocated) == SplitAt(ts, i, addr, size, ALLOCATED)
  {
    k := if addr > ts[i].base then i + 1 else i;
    assert SplitAt(ts, i, addr, size, FREE)[k] == Tile(addr, size, FREE);
  }

  lemma SplitStates(ts: seq<PhysicalMemoryArea>, i: nat, addr: nat, size: nat)
    requires KnownStates(ts) && i < |ts| && ts[i].base <= addr && addr + size <= ts[i].End()
    ensures KnownStates(SplitAt(ts, i, addr, size, ts[i].attr))
  {
  }

  lemma OnlyOwner(ts: seq<PhysicalMemoryArea>, i: nat, n: nat, b: nat)
    requires Ordered(ts) && n <= i < |ts| && ts[i].Has(b)
    ensures ts[n].Has(b) ==> n == i
  {
  }

  lemma NamesUnique(ts: seq<PhysicalMemoryArea>, addr: nat, size: nat, i: nat)
    requires Ordered(ts) && Names(ts, i, addr, size)
    ensures forall j: nat, z: nat | Names(ts, j, addr, z) :: j == i && z == size
  {
    forall j: nat, z: nat | Names(ts, j, addr, z)
      ensures j == i && z == size
    {
      DistinctBases(ts, i, j);
    }
  }

  lemma OrderedDrop(xs: seq<PhysicalMemoryArea>, ys: seq<PhysicalMemoryArea>, zs: seq<PhysicalMemoryArea>)
    requires Ordered(xs + ys + zs)
    ensures Ordered(xs + zs)
  {
    OrderedSplit(xs + ys, zs);
    OrderedSplit(xs, ys);
    assert forall i | 0 <= i < |xs| :: xs[i] == (xs + ys)[i];
  }

  lemma RepresentsPiece(m: map<nat, PhysicalMemoryArea>, left: seq<PhysicalMemoryArea>, t: PhysicalMemoryArea,
                        right: seq<PhysicalMemoryArea>, post: seq<PhysicalMemoryArea>)
    requires Represents(m, left + post)
    requires Ordered(left + [t] + right + post)
    ensures Represents(m[t.base := t], left + [t] + post)
  {
    OrderedDrop(left + [t], right, post);
    RepresentsInsert(m, left, t, post);
  }

  /** The map after carving: the containing area replaced by its pieces, one insertion each. */
  function CarvedMap(m: map<nat, PhysicalMemoryArea>, t: PhysicalMemoryArea, addr: nat, size: nat)
    : map<nat, PhysicalMemoryArea>
    requires t.base <= addr && addr + size <= t.End()
  {
    var removed := m - {t.base};
    var withBefore :=
      if addr > t.base then removed[t.base := Tile(t.base, addr - t.base, t.attr)] else removed;
    var withMiddle := withBefore[addr := Tile(addr, size, t.attr)];
    var end := addr + size;
    if end < t.End() then withMiddle[end := Tile(end, t.End() - end, t.attr)] else withMiddle
  }

  lemma RepresentsCarve(m: map<nat, PhysicalMemoryArea>, ts: seq<PhysicalMemoryArea>, i: nat, addr: nat, size: nat)
    requires i < |ts| && ts[i].base <= addr && addr + size <= ts[i].End()
    requires Ordered(ts) && Represents(m, ts)
    requires Ordered(SplitAt(ts, i, addr, size, ts[i].attr))
    ensures Represents(CarvedMap(m, ts[i], addr, size), SplitAt(ts, i, addr, size, ts[i].attr))
  {
    hide Ordered, Represents;
    var t, pre, post := ts[i], ts[..i], ts[i + 1..];
    var end := addr + size;
    var before := if addr > t.base then [Tile(t.base, addr - t.base, t.attr)] else [];
    var mid := Tile(addr, size, t.attr);
    var after := if end < t.End() then [Tile(end, t.End() - end, t.attr)] else [];
    assert ts == pre + [t] + post;
    RepresentsRemove(m, pre, t, post);
    var m0 := m - {t.base};
    var m1 := if addr > t.base then m0[t.base := before[0]] else m0;
    assert SplitAt(ts, i, addr, size, t.attr) == pre + before + [mid] + after + post;
    if addr > t.base {
      assert pre + before + [mid] + after + post == pre + [before[0]] + ([mid] + after) + post;
      RepresentsPiece(m0, pre, before[0], [mid] + after, post);
      assert pre + [before[0]] == pre + before;
    } else {
      assert pre + before == pre;
    }
    RepresentsPiece(m1, pre + before, mid, after, post);
    if end < t.End() {
      assert pre + before + [mid] + after + post == (pre + before + [mid]) + [after[0]] + [] + post;
      RepresentsPiece(m1[addr := mid], pre + before + [mid], after[0], [], post);
      assert (pre + before + [mid]) + [after[0]] == pre + before + [mid] + after;
    } else {
      assert pre + before + [mid] + after == pre + before + [mid];
    }
  }

  lemma RepresentsMark(m: map<nat, PhysicalMemoryArea>, ts: seq<PhysicalMemoryArea>, i: nat, kind: PhysicalMemoryType)
    requires i < |ts| && Ordered(ts) && Ordered(Marked(ts, i, kind)) && Represents(m, ts)
    ensures Represents(m[ts[i].base := Marked(ts, i, kind)[i]], Marked(ts, i, kind))
  {
    hide Ordered, Represents;
    var pre, t, u, post := ts[..i], ts[i], Marked(ts, i, kind)[i], ts[i + 1..];
    assert ts == pre + [t] + post && Marked(ts, i, kind) == pre + [u] + post;
    RepresentsUpdate(m, pre, t, u, post);
  }

  lemma RepresentsJoin(m: map<nat, PhysicalMemoryArea>, ts: seq<PhysicalMemoryArea>, j: nat)
    requires j + 1 < |ts| && Ordered(ts) && Ordered(JoinedAt(ts, j)) && Represents(m, ts)
    ensures Represents((m - {ts[j + 1].base})[ts[j].base := Joined(ts[j], ts[j + 1])], JoinedAt(ts, j))
  {
    hide Ordered, Represents;
    var pre, x, y, post := ts[..j], ts[j], ts[j + 1], ts[j + 2..];
    assert ts == (pre + [x]) + [y] + post;
    RepresentsRemove(m, pre + [x], y, post);
    assert pre + [x] + post == (pre + [x]) + post;
    OrderedDrop(pre + [x], [y], post);
    RepresentsUpdate(m - {y.base}, pre, x, Joined(x, y), post);
  }

  /** The repaired loop with `d` areas final, area `d` surviving and the keys from `i` unvisited. */
  ghost predicate CoalesceProgress(was: seq<PhysicalMemoryArea>, now: seq<PhysicalMemoryArea>, i: nat, d: nat) {
    && i <= |was|
    && d < |now|
    && now[d + 1..] == was[i..]
    && Coalesce(was) == now[..d] + Coalesce(now[d..])
  }

  lemma CoalesceProgressStarts(was: seq<PhysicalMemoryArea>)
    requires |was| > 0
    ensures CoalesceProgress(was, was, 1, 0)
  {
    assert was[0..] == was;
  }

  lemma CoalesceProgressNext(was: seq<PhysicalMemoryArea>, now: seq<PhysicalMemoryArea>, i: nat, d: nat)
    requires CoalesceProgress(was, now, i, d) && i < |was|
    ensures d + 1 < |now| && now[d + 1] == was[i]
  {
    assert now[d + 1..][0] == was[i..][0];
  }

  lemma CoalesceProgressJoin(was: seq<PhysicalMemoryArea>, now: seq<PhysicalMemoryArea>, i: nat, d: nat)
    requires CoalesceProgress(was, now, i, d) && i < |was| && d + 1 < |now|
    requires CanCoalesce(now[d], now[d + 1])
    ensures CoalesceProgress(was, JoinedAt(now, d), i + 1, d)
    ensures JoinedAt(now, d)[d].base == now[d].base
  {
    var us, joined := now[d..], JoinedAt(now, d);
    assert us[0] == now[d] && us[1] == now[d + 1] && us[2..] == now[d + 2..];
    assert joined[d..] == [Joined(us[0], us[1])] + us[2..];
    assert joined[..d] == now[..d];
    assert joined[d + 1..] == now[d + 1..][1..] == was[i..][1..] == was[i + 1..];
  }

  lemma CoalesceProgressSkip(was: seq<PhysicalMemoryArea>, now: seq<PhysicalMemoryArea>, i: nat, d: nat)
    requires CoalesceProgress(was, now, i, d) && i < |was| && d + 1 < |now|
    requires !CanCoalesce(now[d], now[d + 1])
    ensures CoalesceProgress(was, now, i + 1, d + 1)
  {
    var us := now[d..];
    assert us[0] == now[d] && us[1] == now[d + 1] && us[1..] == now[d + 1..];
    assert now[..d + 1] == now[..d] + [now[d]];
    assert now[d + 2..] == now[d + 1..][1..] == was[i..][1..] == was[i + 1..];
  }

  lemma CoalesceProgressEnds(was: seq<PhysicalMemoryArea>, now: seq<PhysicalMemoryArea>, d: nat)
    requires CoalesceProgress(was, now, |was|, d)
    ensures now == Coalesce(was)
  {
    assert now[d + 1..] == [];
    assert now[d..] == [now[d]];
    assert now == now[..d] + [now[d]];
  }

  lemma JoinStates(ts: seq<PhysicalMemoryArea>, j: nat)
    requires j + 1 < |ts| && KnownStates(ts)
    ensures KnownStates(JoinedAt(ts, j))
  {
  }

  /** The loop as written before pair (i, i + 1): nothing before could merge, except that the
      pair just visited may have. */
  ghost predicate MergeProgress(was: seq<PhysicalMemoryArea>, i: nat, merged: bool) {
    && i < |was|
    && (merged ==> i > 0 && CanMergeWith(was[i - 1], was[i]))
    && forall j, k | 0 <= j && k == j + 1 && k < |was| && k < (if merged then i else i + 1) ::
         !CanMergeWith(was[j], was[k])
  }

  lemma MergeProgressStarts(was: seq<PhysicalMemoryArea>)
    requires |was| > 0
    ensures MergeProgress(was, 0, false)
  {
  }

  lemma MergeProgresses(was: seq<PhysicalMemoryArea>, i: nat)
    requires i + 1 < |was| && MergeProgress(was, i, false)
    ensures MergeProgress(was, i + 1, CanMergeWith(was[i], was[i + 1]))
  {
  }

  lemma MergeProgressEnds(was: seq<PhysicalMemoryArea>, total: nat, i: nat, merged: bool)
    requires Tiles(was, 0, total) && MergeProgress(was, i, merged) && (i + 1 < |was| ==> merged)
    ensures i + 1 == |was| <==> !MergesBeforeLast(was)
    ensures i + 1 == |was| ==> (if merged then JoinedAt(was, i - 1) else was) == MergedAsWritten(was)
    ensures forall b: nat :: At(if merged then JoinedAt(was, i - 1) else was, b) == At(was, b)
  {
    hide Ordered, Contiguous;
    if merged {
      JoinKeepsFlatMap(was, total, i - 1);
    }
  }

  /** A lookup by base and size succeeds exactly on the area those name. */
  lemma Lookup(m: map<nat, PhysicalMemoryArea>, ts: seq<PhysicalMemoryArea>, addr: nat, size: nat) returns (i: nat)
    requires Ordered(ts) && Represents(m, ts)
    ensures addr in m && m[addr].size == size <==> exists k: nat :: Names(ts, k, addr, size)
    ensures addr in m && m[addr].size == size ==> Names(ts, i, addr, size)
    ensures forall k: nat | Names(ts, k, addr, size) :: k == i
  {
    i := 0;
    if addr in m && m[addr].size == size {
      i :| 0 <= i < |ts| && ts[i].base == addr;
      assert m[ts[i].base] == ts[i];
      assert Names(ts, i, addr, size);
      NamesUnique(ts, addr, size, i);
    }
    if k: nat :| Names(ts, k, addr, size) {
      assert m[ts[k].base] == ts[k];
    }
  }

  /** The abstract release, when at most area `i` is named. */
  lemma ReleaseStep(ts: seq<PhysicalMemoryArea>, total: nat, addr: nat, size: nat, i: nat)
    requires Tiles(ts, 0, total) && forall k: nat | Names(ts, k, addr, size) :: k == i
    ensures forall held ::
              Step(World(ts, held), total, Release(addr, size))
              == if Names(ts, i, addr, size) then World(Released(ts, i), held - {addr}) else World(ts, held)
  {
    hide Tiles, Released;
  }

  /** What one release as written does to the area it names. */
  ghost predicate FreedAsWritten(was: seq<PhysicalMemoryArea>, i: nat, now: seq<PhysicalMemoryArea>,
                                 outcome: FreeOutcome)
    requires i < |was|
  {
    var marked := Marked(was, i, Free);
    && outcome == (if MergesBeforeLast(marked) then Panicked else Freed)
    && (outcome == Freed ==> now == MergedAsWritten(marked))
    && forall b: nat :: At(now, b) == if was[i].Has(b) then Some(FREE) else At(was, b)
  }

  datatype FreeOutcome = Freed | Refused | Panicked

  // ---------------------------------------------------------------------------
  // The manager
  // ---------------------------------------------------------------------------

  class PhysicalMemoryManager {
    var areas: map<nat, PhysicalMemoryArea>
    const totalSize: nat
    ghost var tiles: seq<PhysicalMemoryArea>

    /** The map agrees with the areas in address order, whatever state those are in. */
    ghost predicate Consistent()
      reads this
    {
      Represents(areas, tiles) && Tiles(tiles, 0, totalSize) && KnownStates(tiles)
    }

    ghost predicate Valid()
      reads this
    {
      Represents(areas, tiles) && Managed(tiles, totalSize)
    }

    constructor (total: nat)
      requires total > 0
      ensures Valid() && totalSize == total
      ensures tiles == Boot(total).areas
    {
      totalSize := total;
      areas := map[0 := Tile(0, total, FREE)];
      tiles := [Tile(0, total, FREE)];
      new;
      assert tiles[0] == Tile(0, total, FREE);
    }

    /** Allocate a region of physical memory. */
    method Allocate(searchStart: nat, searchEnd: nat, size: nat, alignment: nat) returns (r: Option<nat>)
      requires Valid() && Sound(totalSize, searchStart, size, alignment)
      modifies this
      ensures Valid()
      ensures AllocationResult(old(tiles), totalSize, searchStart, searchEnd, size, alignment, tiles, r)
      ensures r.None? ==> areas == old(areas)
    {
      hide Ordered, Tiles, Managed, Represents, Fits, SplitAt, Grantable;
      var effective := Max(alignment, PAGE_SIZE);
      ManagedTiles(tiles, totalSize);
      SoundIsSearchable(tiles, totalSize, searchStart, size, alignment);
      VisitedInOrder(areas, tiles);
      var keys := SortedKeys(areas.Keys);
      var i := 0;
      while i < |keys|
        invariant 0 <= i <= |keys|
        invariant areas == old(areas) && tiles == old(tiles)
        invariant FirstFit(tiles, searchStart, searchEnd, size, effective, 0)
                  == FirstFit(tiles, searchStart, searchEnd, size, effective, i)
      {
        var area := areas[keys[i]];
        if Fits(area, searchStart, searchEnd, size, effective) {
          var addr := Candidate(area, searchStart, effective);
          FitBounds(area, searchStart, searchEnd, size, effective);
          assert area == tiles[i];
          CarveArea(addr, size, i);
          ghost var k := MarkSplit(old(tiles), i, addr, size);
          MarkArea(addr, Allocated, k);
          GrantKeepsManaged(old(tiles), totalSize, i, addr, size);
          AllocationHolds(old(tiles), totalSize, searchStart, searchEnd, size, alignment);
          return Some(addr);
        }
        i := i + 1;
      }
      AllocationHolds(tiles, totalSize, searchStart, searchEnd, size, alignment);
      return None;
    }

    /** Set the state of the area at `addr`. */
    method MarkArea(addr: nat, kind: PhysicalMemoryType, ghost k: nat)
      requires Consistent() && (kind == PhysicalMemoryType.Free || kind == Allocated)
      requires k < |tiles| && tiles[k].base == addr
      modifies this
      ensures Consistent() && tiles == Marked(old(tiles), k, kind)
    {
      hide Ordered, Contiguous, Represents;
      MarkIsUpdate(tiles, totalSize, k, kind);
      RepresentsMark(areas, tiles, k, kind);
      VisitedInOrder(areas, tiles);
      assert Bases(tiles)[k] == addr;
      var area := areas[addr];
      areas := areas[addr := area.(attr := area.attr.(dmaType := kind))];
      tiles := Marked(tiles, k, kind);
    }

    /** Carve a region out of the area that contains it. */
    method CarveArea(addr: nat, size: nat, ghost i: nat)
      requires Consistent() && size > 0
      requires i < |tiles| && tiles[i].base <= addr && addr + size <= tiles[i].End()
      modifies this
      ensures Consistent()
      ensures tiles == SplitAt(old(tiles), i, addr, size, old(tiles)[i].attr)
    {
      hide Ordered, Tiles, KnownStates, Represents, SplitAt;
      TilesOrdered(tiles, totalSize);
      VisitedInOrder(areas, tiles);
      var keys := SortedKeys(areas.Keys);
      var n := 0;
      while n < |keys| && !areas[keys[n]].Has(addr)
        invariant 0 <= n <= i
      {
        assert n < i;
        n := n + 1;
      }
      OnlyOwner(tiles, i, n, addr);
      var area := areas[keys[n]];
      assert area == tiles[i];
      ghost var result := SplitAt(tiles, i, addr, size, tiles[i].attr);
      SplitAtIsUpdate(tiles, totalSize, i, addr, size, tiles[i].attr);
      SplitStates(tiles, i, addr, size);
      TilesOrdered(result, totalSize);
      RepresentsCarve(areas, tiles, i, addr, size);
      areas := CarvedMap(areas, area, addr, size);
      tiles := result;
    }

    /** Free a previously allocated region, as written. */
    method Free(addr: nat, size: nat) returns (outcome: FreeOutcome)
      requires Valid()
      modifies this
      ensures outcome == Refused <==> !exists i: nat :: Names(old(tiles), i, addr, size)
      ensures outcome == Refused ==> areas == old(areas) && tiles == old(tiles)
      ensures forall i: nat | Names(old(tiles), i, addr, size) :: FreedAsWritten(old(tiles), i, tiles, outcome)
      ensures outcome == Panicked ==> Consistent()
      ensures outcome != Panicked ==> Valid()
    {
      hide Ordered, Contiguous, KnownStates, NoAdjacentFree, Represents, Marked, MergesBeforeLast, MergedAsWritten;
      ghost var i := Lookup(areas, tiles, addr, size);
      if addr in areas && areas[addr].size == size {
        MarkFreeIsUpdate(tiles, totalSize, i);
        MarkArea(addr, PhysicalMemoryType.Free, i);
        ghost var marked := tiles;
        var completed := MergeAdjacent();
        if completed {
          AsWrittenKeepsManaged(marked, totalSize);
          return Freed;
        }
        return Panicked;
      }
      return Refused;
    }

    /** Remove the area at `nextKey` and add its size to the one at `currentKey`. */
    method AbsorbNext(currentKey: nat, nextKey: nat, ghost j: nat)
      requires Consistent() && j + 1 < |tiles| && CanMergeWith(tiles[j], tiles[j + 1])
      requires tiles[j].base == currentKey && tiles[j + 1].base == nextKey
      modifies this
      ensures Consistent() && tiles == JoinedAt(old(tiles), j)
      ensures nextKey !in areas
    {
      hide Ordered, Tiles, KnownStates, Represents, JoinedAt, SortedKeys, Bases;
      TilesOrdered(tiles, totalSize);
      VisitedInOrder(areas, tiles);
      assert Bases(tiles)[j] == currentKey && Bases(tiles)[j + 1] == nextKey;
      JoinKeepsFlatMap(tiles, totalSize, j);
      JoinStates(tiles, j);
      TilesOrdered(JoinedAt(tiles, j), totalSize);
      RepresentsJoin(areas, tiles, j);
      DistinctBases(tiles, j, j + 1);
      var current, next := areas[currentKey], areas[nextKey];
      areas := (areas - {nextKey})[currentKey := current.(size := current.size + next.size)];
      tiles := JoinedAt(tiles, j);
    }

    /** The merging loop as written: the keys are read once, so a key whose area was just
        absorbed is looked up again and is missing. Returns false where the original panics. */
    method MergeAdjacent() returns (completed: bool)
      requires Consistent()
      modifies this
      ensures Consistent()
      ensures completed <==> !MergesBeforeLast(old(tiles))
      ensures completed ==> tiles == MergedAsWritten(old(tiles))
      ensures forall b: nat :: At(tiles, b) == At(old(tiles), b)
    {
      hide Ordered, Tiles, KnownStates, Represents, JoinedAt, SortedKeys, Bases, MergeProgress, MergesBeforeLast, MergedAsWritten;
      TilesOrdered(tiles, totalSize);
      VisitedInOrder(areas, tiles);
      var keys := SortedKeys(areas.Keys);
      ghost var was := tiles;
      var i := 0;
      MergeProgressStarts(was);
      ghost var merged := false;
      while i + 1 < |keys|
        invariant 0 <= i < |keys|
        invariant MergeProgress(was, i, merged)
        invariant merged ==> i > 0 && tiles == JoinedAt(was, i - 1)
        invariant !merged ==> tiles == was
        invariant merged ==> keys[i] !in areas
        invariant !merged ==> areas == old(areas)
        invariant Consistent()
      {
        if keys[i] !in areas {
          break;
        }
        var current := areas[keys[i]];
        var next := areas[keys[i + 1]];
        assert current == was[i] && next == was[i + 1];
        MergeProgresses(was, i);
        if CanMergeWith(current, next) {
          AbsorbNext(keys[i], keys[i + 1], i);
          merged := true;
        }
        i := i + 1;
      }
      MergeProgressEnds(was, totalSize, i, merged);
      return i + 1 == |keys|;
    }

    /** Free a previously allocated region, coalescing as the comment describes. */
    method RepairedFree(addr: nat, size: nat) returns (freed: bool)
      requires Valid()
      modifies this
      ensures Valid()
      ensures freed <==> exists i: nat :: Names(old(tiles), i, addr, size)
      ensures !freed ==> areas == old(areas) && tiles == old(tiles)
      ensures forall i: nat | Names(old(tiles), i, addr, size) :: tiles == Released(old(tiles), i)
      ensures forall held ::
                Step(World(old(tiles), held), totalSize, Release(addr, size))
                == World(tiles, if freed then held - {addr} else held)
    {
      hide Ordered, Contiguous, KnownStates, NoAdjacentFree, Represents, Marked, Step;
      ghost var i := Lookup(areas, tiles, addr, size);
      ReleaseStep(tiles, totalSize, addr, size, i);
      if addr in areas && areas[addr].size == size {
        ReleaseIsUpdate(tiles, totalSize, i);
        MarkArea(addr, PhysicalMemoryType.Free, i);
        RepairedMergeAdjacent();
        return true;
      }
      return false;
    }

    /** The merging loop, repaired: the surviving key is carried from one pair to the next and
        only free areas are joined. */
    method RepairedMergeAdjacent()
      requires Consistent()
      modifies this
      ensures Consistent()
      ensures tiles == Coalesce(old(tiles))
    {
      hide Ordered, Tiles, KnownStates, Represents, JoinedAt, SortedKeys, Bases, Coalesce, CoalesceProgress;
      TilesOrdered(tiles, totalSize);
      VisitedInOrder(areas, tiles);
      var keys := SortedKeys(areas.Keys);
      ghost var was := tiles;
      var current := keys[0];
      var i := 1;
      ghost var d := 0;
      CoalesceProgressStarts(was);
      while i < |keys|
        invariant 1 <= i <= |keys|
        invariant CoalesceProgress(was, tiles, i, d)
        invariant d < |tiles| && tiles[d].base == current
        invariant Consistent()
      {
        var next := keys[i];
        CoalesceProgressNext(was, tiles, i, d);
        TilesOrdered(tiles, totalSize);
        VisitedInOrder(areas, tiles);
        assert Bases(tiles)[d] == current && Bases(tiles)[d + 1] == next;
        if CanCoalesce(areas[current], areas[next]) {
          CoalesceProgressJoin(was, tiles, i, d);
          AbsorbNext(current, next, d);
        } else {
          CoalesceProgressSkip(was, tiles, i, d);
          d := d + 1;
          current := next;
        }
        i := i + 1;
      }
      CoalesceProgressEnds(was, tiles, d);
    }
  }
}
