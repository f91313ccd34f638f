/** Direct memory allocation (crates/core/src/memory/physical_memory.rs).

    This module says on sequences of areas what carving, marking, merging and searching
    compute, and proves what those mean for a flat map from byte to state. `PhysicalRuns`
    takes this to whole runs, and `PhysicalManager` holds the source's class. */
module PhysicalMemory {
  import opened Wrappers
  import opened Types
  import opened Tiling

  datatype PhysicalMemoryType = Free | Allocated | Mapped | Pooled | Committed | Flexible

  datatype AreaAttributes = AreaAttributes(memoryType: int, dmaType: PhysicalMemoryType)

  type PhysicalMemoryArea = Tile<AreaAttributes>

  /** Nothing in the manager ever sets `memory_type`, so areas are in one of two states. */
  const FREE := AreaAttributes(0, Free)
  const ALLOCATED := AreaAttributes(0, Allocated)

  predicate IsFree(a: AreaAttributes) {
    a == FREE
  }

  predicate IsAllocated(a: AreaAttributes) {
    a == ALLOCATED
  }

  predicate CanMergeWith(current: PhysicalMemoryArea, next: PhysicalMemoryArea) {
    && current.base + current.size == next.base
    && current.attr.memoryType == next.attr.memoryType
    && current.attr.dmaType == next.attr.dmaType
  }

  /** The rule the comment on the merging loop states: only free areas coalesce. */
  predicate CanCoalesce(current: PhysicalMemoryArea, next: PhysicalMemoryArea) {
    current.attr.dmaType == Free && CanMergeWith(current, next)
  }

  function Joined(current: PhysicalMemoryArea, next: PhysicalMemoryArea): PhysicalMemoryArea {
    current.(size := current.size + next.size)
  }

  ghost predicate NoAdjacentFree(ts: seq<PhysicalMemoryArea>) {
    forall i, j | 0 <= i && j == i + 1 && j < |ts| :: !(ts[i].attr == FREE && ts[j].attr == FREE)
  }

  ghost predicate KnownStates(ts: seq<PhysicalMemoryArea>) {
    forall i | 0 <= i < |ts| :: ts[i].attr == FREE || ts[i].attr == ALLOCATED
  }

  /** The manager's invariant: the areas partition the memory and free space is coalesced. */
  ghost predicate Managed(ts: seq<PhysicalMemoryArea>, total: nat) {
    Tiles(ts, 0, total) && KnownStates(ts) && NoAdjacentFree(ts)
  }

  // ---------------------------------------------------------------------------
  // Searching
  // ---------------------------------------------------------------------------

  /** A request whose sums stay inside 64 bits. Alignments up to a page, zero among them, count
      as a page; larger ones are powers of two. */
  ghost predicate Sound(total: nat, searchStart: nat, size: nat, alignment: nat) {
    && size > 0
    && PowerOfTwo(Max(alignment, PAGE_SIZE))
    && Max(total, searchStart) + Max(alignment, PAGE_SIZE) + size <= U64
  }

  /** The first address the search considers inside an area. */
  function Candidate(t: PhysicalMemoryArea, searchStart: nat, alignment: nat): nat
    requires alignment > 0 && Max(t.base, searchStart) + (alignment - 1) < U64
  {
    AlignUp(Max(t.base, searchStart), alignment)
  }

  predicate Fits(t: PhysicalMemoryArea, searchStart: nat, searchEnd: nat, size: nat, alignment: nat)
    requires alignment > 0 && Max(t.base, searchStart) + (alignment - 1) < U64
  {
    var alignedBase := Candidate(t, searchStart, alignment);
    && t.attr.dmaType == Free
    && alignedBase >= t.base
    && alignedBase + size <= t.End()
    && alignedBase + size <= searchEnd
  }

  ghost predicate Searchable(ts: seq<PhysicalMemoryArea>, searchStart: nat, alignment: nat) {
    && alignment > 0
    && forall i | 0 <= i < |ts| :: Max(ts[i].base, searchStart) + (alignment - 1) < U64
  }

  /** Index of the first fitting area at or after `k`. */
  ghost function FirstFit(ts: seq<PhysicalMemoryArea>, searchStart: nat, searchEnd: nat, size: nat,
                          alignment: nat, k: nat): (r: Option<nat>)
    requires Searchable(ts, searchStart, alignment) && k <= |ts|
    ensures r.Some? ==> k <= r.value < |ts| && Fits(ts[r.value], searchStart, searchEnd, size, alignment)
    ensures r.Some? ==> forall i | k <= i < r.value :: !Fits(ts[i], searchStart, searchEnd, size, alignment)
    ensures r.None? ==> forall i | k <= i < |ts| :: !Fits(ts[i], searchStart, searchEnd, size, alignment)
    decreases |ts| - k
  {
    hide Fits;
    if k == |ts| then None
    else if Fits(ts[k], searchStart, searchEnd, size, alignment) then Some(k)
    else FirstFit(ts, searchStart, searchEnd, size, alignment, k + 1)
  }

  /** What a caller asks for, on the flat map: an aligned address in the search window whose
      whole range is free. */
  ghost predicate Grantable(ts: seq<PhysicalMemoryArea>, searchStart: nat, searchEnd: nat, size: nat,
                            alignment: nat, a: nat) {
    && alignment > 0
    && a % alignment == 0
    && searchStart <= a
    && a + size <= searchEnd
    && forall b | a <= b < a + size :: At(ts, b) == Some(FREE)
  }

  lemma AfterFreeIsNotFree(ts: seq<PhysicalMemoryArea>, total: nat, i: nat)
    requires Managed(ts, total) && i < |ts| && ts[i].attr == FREE
    ensures At(ts, ts[i].End()) != Some(FREE)
  {
    TilesCover(ts, 0, total, ts[i].End());
    if i + 1 < |ts| {
      assert ts[i].End() == ts[i + 1].base;
      assert ts[i + 1].size > 0;
      AtOwner(ts, i + 1, ts[i].End());
    }
  }

  /** Coalescing is what lets a search over single areas see every free range. */
  lemma FreeRangeInOneArea(ts: seq<PhysicalMemoryArea>, total: nat, a: nat, size: nat) returns (i: nat)
    requires Managed(ts, total) && size > 0
    requires forall b | a <= b < a + size :: At(ts, b) == Some(FREE)
    ensures i < |ts| && ts[i].attr == FREE && ts[i].base <= a && a + size <= ts[i].End()
  {
    assert At(ts, a) == Some(FREE);
    i :| 0 <= i < |ts| && ts[i].Has(a) && ts[i].attr == FREE;
    AfterFreeIsNotFree(ts, total, i);
  }

  /** The search over areas is a first-fit search over bytes: it finds the least grantable
      address, and finds none exactly when there is none. */
  lemma FirstFitIsLeastGrantable(ts: seq<PhysicalMemoryArea>, total: nat, searchStart: nat, searchEnd: nat,
                                 size: nat, alignment: nat)
    requires Managed(ts, total) && size > 0 && PowerOfTwo(alignment)
    requires Searchable(ts, searchStart, alignment)
    ensures var r := FirstFit(ts, searchStart, searchEnd, size, alignment, 0);
            if r.Some? then
              var a := Candidate(ts[r.value], searchStart, alignment);
              && Grantable(ts, searchStart, searchEnd, size, alignment, a)
              && forall b: nat | Grantable(ts, searchStart, searchEnd, size, alignment, b) :: a <= b
            else
              forall b: nat :: !Grantable(ts, searchStart, searchEnd, size, alignment, b)
  {
    var r := FirstFit(ts, searchStart, searchEnd, size, alignment, 0);
    if r.Some? {
      FitIsGrantable(ts, searchStart, searchEnd, size, alignment, r.value);
    }
    forall b: nat | Grantable(ts, searchStart, searchEnd, size, alignment, b)
      ensures r.Some? && Candidate(ts[r.value], searchStart, alignment) <= b
    {
      GrantableFits(ts, total, searchStart, searchEnd, size, alignment, b, r);
    }
  }

  lemma FitIsGrantable(ts: seq<PhysicalMemoryArea>, searchStart: nat, searchEnd: nat, size: nat,
                       alignment: nat, i: nat)
    requires Ordered(ts) && KnownStates(ts) && PowerOfTwo(alignment) && i < |ts|
    requires Searchable(ts, searchStart, alignment)
    requires Fits(ts[i], searchStart, searchEnd, size, alignment)
    ensures Grantable(ts, searchStart, searchEnd, size, alignment, Candidate(ts[i], searchStart, alignment))
  {
    var a := Candidate(ts[i], searchStart, alignment);
    AlignUpIsLeastMultiple(Max(ts[i].base, searchStart), alignment);
    forall b | a <= b < a + size
      ensures At(ts, b) == Some(FREE)
    {
      AtOwner(ts, i, b);
    }
  }

  lemma GrantableFits(ts: seq<PhysicalMemoryArea>, total: nat, searchStart: nat, searchEnd: nat, size: nat,
                      alignment: nat, b: nat, r: Option<nat>)
    requires Managed(ts, total) && size > 0 && PowerOfTwo(alignment)
    requires Searchable(ts, searchStart, alignment)
    requires Grantable(ts, searchStart, searchEnd, size, alignment, b)
    requires r == FirstFit(ts, searchStart, searchEnd, size, alignment, 0)
    ensures r.Some? && Candidate(ts[r.value], searchStart, alignment) <= b
  {
    var i := FreeRangeInOneArea(ts, total, b, size);
    AlignUpIsLeastMultiple(Max(ts[i].base, searchStart), alignment);
    assert Fits(ts[i], searchStart, searchEnd, size, alignment);
    var j := r.value;
    if j < i {
      assert ts[j].End() <= ts[i].base;
    }
  }

  // ---------------------------------------------------------------------------
  // Carving and marking
  // ---------------------------------------------------------------------------

  /** An area split around [addr, addr + size), the middle piece carrying `attr`: at most one
      piece is left over on either side. */
  ghost function Split(t: PhysicalMemoryArea, addr: nat, size: nat, attr: AreaAttributes): seq<PhysicalMemoryArea>
    requires t.base <= addr && addr + size <= t.End()
  {
    (if addr > t.base then [Tile(t.base, addr - t.base, t.attr)] else [])
    + [Tile(addr, size, attr)]
    + (if addr + size < t.End() then [Tile(addr + size, t.End() - (addr + size), t.attr)] else [])
  }

  ghost function SplitAt(ts: seq<PhysicalMemoryArea>, i: nat, addr: nat, size: nat, attr: AreaAttributes)
    : seq<PhysicalMemoryArea>
    requires i < |ts| && ts[i].base <= addr && addr + size <= ts[i].End()
  {
    ts[..i] + Split(ts[i], addr, size, attr) + ts[i + 1..]
  }

  lemma SplitTiles(t: PhysicalMemoryArea, addr: nat, size: nat, attr: AreaAttributes)
    requires t.base <= addr && addr + size <= t.End() && size > 0
    ensures Tiles(Split(t, addr, size, attr), t.base, t.End())
  {
    var before, mid, after :=
      Tile(t.base, addr - t.base, t.attr), Tile(addr, size, attr), Tile(addr + size, t.End() - (addr + size), t.attr);
    var ps := Split(t, addr, size, attr);
    if addr > t.base {
      assert ps == if addr + size < t.End() then [before, mid, after] else [before, mid];
    } else {
      assert ps == if addr + size < t.End() then [mid, after] else [mid];
    }
  }

  lemma SplitOwner(t: PhysicalMemoryArea, addr: nat, size: nat, attr: AreaAttributes, b: nat)
    requires t.base <= addr && addr + size <= t.End() && size > 0 && t.Has(b)
    ensures At(Split(t, addr, size, attr), b) == Some(if addr <= b < addr + size then attr else t.attr)
  {
    SplitTiles(t, addr, size, attr);
    var ps := Split(t, addr, size, attr);
    var k := if addr > t.base then 1 else 0;
    AtOwner(ps, if b < addr then 0 else if b < addr + size then k else k + 1, b);
  }

  /** Splitting an area is a pointwise update of the flat map. */
  lemma SplitAtIsUpdate(ts: seq<PhysicalMemoryArea>, total: nat, i: nat, addr: nat, size: nat, attr: AreaAttributes)
    requires Tiles(ts, 0, total) && i < |ts| && size > 0
    requires ts[i].base <= addr && addr + size <= ts[i].End()
    ensures Tiles(SplitAt(ts, i, addr, size, attr), 0, total)
    ensures forall b: nat ::
              At(SplitAt(ts, i, addr, size, attr), b) == if addr <= b < addr + size then Some(attr) else At(ts, b)
  {
    var t := ts[i];
    var pre, ps, post := ts[..i], Split(t, addr, size, attr), ts[i + 1..];
    assert t.size > 0;
    assert ts == pre + [t] + post;
    SplitTiles(t, addr, size, attr);
    TilesSplice(pre, [t], ps, post, 0, t.base, t.End(), total);
    forall b: nat
      ensures At(pre + ps + post, b) == if addr <= b < addr + size then Some(attr) else At(ts, b)
    {
      TilesCover(ps, t.base, t.End(), b);
      TilesCover([t], t.base, t.End(), b);
      SpliceAt(pre, [t], ps, post, b);
      if t.Has(b) {
        AtOwner(ts, i, b);
        SplitOwner(t, addr, size, attr, b);
      }
    }
  }

  ghost function Marked(ts: seq<PhysicalMemoryArea>, i: nat, kind: PhysicalMemoryType): seq<PhysicalMemoryArea>
    requires i < |ts|
  {
    ts[i := ts[i].(attr := ts[i].attr.(dmaType := kind))]
  }

  lemma SeparateJoin(xs: seq<PhysicalMemoryArea>, ys: seq<PhysicalMemoryArea>)
    requires KnownStates(xs) && KnownStates(ys) && NoAdjacentFree(xs) && NoAdjacentFree(ys)
    requires xs != [] && ys != [] ==> xs[|xs| - 1].attr != FREE || ys[0].attr != FREE
    ensures KnownStates(xs + ys) && NoAdjacentFree(xs + ys)
  {
  }

  lemma SeparateSlice(ts: seq<PhysicalMemoryArea>, i: nat, j: nat)
    requires i <= j <= |ts| && KnownStates(ts) && NoAdjacentFree(ts)
    ensures KnownStates(ts[i..j]) && NoAdjacentFree(ts[i..j])
  {
    var us := ts[i..j];
    forall k, l | 0 <= k && l == k + 1 && l < |us|
      ensures !(us[k].attr == FREE && us[l].attr == FREE)
    {
      assert us[k] == ts[i + k] && us[l] == ts[i + l];
    }
  }

  /** Granting keeps the invariant. */
  lemma GrantKeepsManaged(ts: seq<PhysicalMemoryArea>, total: nat, i: nat, addr: nat, size: nat)
    requires Managed(ts, total) && i < |ts| && size > 0 && ts[i].attr == FREE
    requires ts[i].base <= addr && addr + size <= ts[i].End()
    ensures Managed(SplitAt(ts, i, addr, size, ALLOCATED), total)
  {
    SplitAtIsUpdate(ts, total, i, addr, size, ALLOCATED);
    var pre, ps, post := ts[..i], Split(ts[i], addr, size, ALLOCATED), ts[i + 1..];
    SeparateSlice(ts, 0, i);
    SeparateSlice(ts, i + 1, |ts|);
    assert ts[..i] == ts[0..i] && post == ts[i + 1..|ts|];
    assert i > 0 ==> pre[|pre| - 1] == ts[i - 1] && ts[i - 1].attr != FREE;
    assert i + 1 < |ts| ==> post[0] == ts[i + 1] && ts[i + 1].attr != FREE;
    SeparateJoin(pre, ps);
    SeparateJoin(pre + ps, post);
  }

  // ---------------------------------------------------------------------------
  // Coalescing
  // ---------------------------------------------------------------------------

  ghost function JoinedAt(ts: seq<PhysicalMemoryArea>, j: nat): seq<PhysicalMemoryArea>
    requires j + 1 < |ts|
  {
    ts[..j] + [Joined(ts[j], ts[j + 1])] + ts[j + 2..]
  }

  /** Joining two mergeable neighbours changes the areas, not the flat map. */
  lemma JoinKeepsFlatMap(ts: seq<PhysicalMemoryArea>, total: nat, j: nat)
    requires Tiles(ts, 0, total) && j + 1 < |ts| && CanMergeWith(ts[j], ts[j + 1])
    ensures Tiles(JoinedAt(ts, j), 0, total)
    ensures forall b: nat :: At(JoinedAt(ts, j), b) == At(ts, b)
  {
    var pre, x, y, post := ts[..j], ts[j], ts[j + 1], ts[j + 2..];
    assert ts == pre + [x, y] + post;
    JoinTiles(pre, x, y, post, 0, total);
  }

  lemma JoinTiles(pre: seq<PhysicalMemoryArea>, x: PhysicalMemoryArea, y: PhysicalMemoryArea,
                  post: seq<PhysicalMemoryArea>, lo: nat, hi: nat)
    requires Tiles(pre + [x, y] + post, lo, hi) && CanMergeWith(x, y)
    ensures Tiles(pre + [Joined(x, y)] + post, lo, hi)
    ensures forall b: nat :: At(pre + [Joined(x, y)] + post, b) == At(pre + [x, y] + post, b)
  {
    var ts, xy := pre + [x, y] + post, Joined(x, y);
    assert ts[|pre|] == x && ts[|pre| + 1] == y;
    assert Tiles([x, y], x.base, y.End());
    assert Tiles([xy], x.base, y.End());
    TilesSplice(pre, [x, y], [xy], post, lo, x.base, y.End(), hi);
    forall b: nat
      ensures At(pre + [xy] + post, b) == At(ts, b)
    {
      TilesCover([x, y], x.base, y.End(), b);
      TilesCover([xy], x.base, y.End(), b);
      SpliceAt(pre, [x, y], [xy], post, b);
      if x.base <= b < y.End() {
        AtOwner([xy], 0, b);
        AtOwner(ts, if b < y.base then |pre| else |pre| + 1, b);
      }
    }
  }

  /** What the merging loop is described to do: one pass that carries the surviving area and
      joins every following free neighbour into it. */
  ghost function Coalesce(ts: seq<PhysicalMemoryArea>): seq<PhysicalMemoryArea>
    decreases |ts|
  {
    if |ts| < 2 then ts
    else if CanCoalesce(ts[0], ts[1]) then Coalesce([Joined(ts[0], ts[1])] + ts[2..])
    else [ts[0]] + Coalesce(ts[1..])
  }

  /** Replacing what follows the first area by another partition of it with the same flat map. */
  lemma KeepHead(t: PhysicalMemoryArea, xs: seq<PhysicalMemoryArea>, ys: seq<PhysicalMemoryArea>, lo: nat, hi: nat)
    requires Tiles([t] + xs, lo, hi) && Tiles(ys, t.End(), hi)
    requires forall b: nat :: At(ys, b) == At(xs, b)
    ensures Tiles([t] + ys, lo, hi)
    ensures forall b: nat :: At([t] + ys, b) == At([t] + xs, b)
  {
    assert ([t] + xs)[0] == t && t.size > 0;
    TilesJoin([t], ys, lo, t.End(), hi);
    forall b: nat
      ensures At([t] + ys, b) == At([t] + xs, b)
    {
      AtJoin([t], ys, b);
      AtJoin([t], xs, b);
    }
  }

  /** Joining the first two areas. */
  lemma JoinHead(ts: seq<PhysicalMemoryArea>, lo: nat, hi: nat)
    requires Tiles(ts, lo, hi) && |ts| >= 2 && CanMergeWith(ts[0], ts[1])
    ensures Tiles([Joined(ts[0], ts[1])] + ts[2..], lo, hi)
    ensures forall b: nat :: At([Joined(ts[0], ts[1])] + ts[2..], b) == At(ts, b)
  {
    hide Tiles;
    assert ts == [] + [ts[0], ts[1]] + ts[2..];
    assert [Joined(ts[0], ts[1])] + ts[2..] == [] + [Joined(ts[0], ts[1])] + ts[2..];
    JoinTiles([], ts[0], ts[1], ts[2..], lo, hi);
  }

  /** Coalescing keeps the partition and the flat map. */
  lemma {:induction false} CoalesceKeepsFlatMap(ts: seq<PhysicalMemoryArea>, lo: nat, hi: nat)
    requires Tiles(ts, lo, hi)
    ensures Tiles(Coalesce(ts), lo, hi)
    ensures Coalesce(ts) != [] && Coalesce(ts)[0].attr == ts[0].attr
    ensures forall b: nat :: At(Coalesce(ts), b) == At(ts, b)
    decreases |ts|
  {
    if |ts| >= 2 {
      hide Ordered, Contiguous;
      if CanCoalesce(ts[0], ts[1]) {
        JoinHead(ts, lo, hi);
        CoalesceKeepsFlatMap([Joined(ts[0], ts[1])] + ts[2..], lo, hi);
      } else {
        TilesTail(ts, lo, hi);
        CoalesceKeepsFlatMap(ts[1..], ts[0].End(), hi);
        assert ts == [ts[0]] + ts[1..];
        KeepHead(ts[0], ts[1..], Coalesce(ts[1..]), lo, hi);
      }
    }
  }

  lemma SeparateHead(t: PhysicalMemoryArea, next: PhysicalMemoryArea, rest: seq<PhysicalMemoryArea>)
    requires t.attr == FREE || t.attr == ALLOCATED
    requires t.End() == next.base && !CanCoalesce(t, next)
    requires rest != [] && rest[0].attr == next.attr
    requires KnownStates(rest) && NoAdjacentFree(rest)
    ensures KnownStates([t] + rest) && NoAdjacentFree([t] + rest)
  {
    SeparateJoin([t], rest);
  }

  /** After coalescing no two free areas touch. */
  lemma {:induction false} CoalesceSeparatesFree(ts: seq<PhysicalMemoryArea>, lo: nat, hi: nat)
    requires Tiles(ts, lo, hi) && KnownStates(ts)
    ensures NoAdjacentFree(Coalesce(ts)) && KnownStates(Coalesce(ts))
    decreases |ts|
  {
    hide Ordered, NoAdjacentFree;
    if |ts| < 2 {
      SeparateFew(ts);
    } else if CanCoalesce(ts[0], ts[1]) {
      JoinHead(ts, lo, hi);
      CoalesceSeparatesFree([Joined(ts[0], ts[1])] + ts[2..], lo, hi);
    } else {
      TilesTail(ts, lo, hi);
      CoalesceSeparatesFree(ts[1..], ts[0].End(), hi);
      CoalesceKeepsFlatMap(ts[1..], ts[0].End(), hi);
      SeparateHead(ts[0], ts[1], Coalesce(ts[1..]));
    }
  }

  lemma SeparateFew(ts: seq<PhysicalMemoryArea>)
    requires |ts| < 2
    ensures NoAdjacentFree(ts)
  {
  }

  /** Coalescing never touches an allocated area. */
  lemma {:induction false} CoalesceKeepsAllocated(ts: seq<PhysicalMemoryArea>, t: PhysicalMemoryArea)
    requires t.attr == ALLOCATED
    ensures t in Coalesce(ts) <==> t in ts
    decreases |ts|
  {
    if |ts| >= 2 {
      if CanCoalesce(ts[0], ts[1]) {
        assert ts == [ts[0], ts[1]] + ts[2..];
        CoalesceKeepsAllocated([Joined(ts[0], ts[1])] + ts[2..], t);
      } else {
        assert ts == [ts[0]] + ts[1..];
        CoalesceKeepsAllocated(ts[1..], t);
      }
    }
  }

  /** A coalesced partition is a fixed point. */
  lemma {:induction false} CoalesceFixpoint(ts: seq<PhysicalMemoryArea>)
    requires KnownStates(ts) && NoAdjacentFree(ts)
    ensures Coalesce(ts) == ts
    decreases |ts|
  {
    if |ts| >= 2 {
      assert !(ts[0].attr == FREE && ts[1].attr == FREE);
      CoalesceFixpointTail(ts);
      CoalesceFixpoint(ts[1..]);
    }
  }

  lemma CoalesceFixpointTail(ts: seq<PhysicalMemoryArea>)
    requires |ts| > 0 && KnownStates(ts) && NoAdjacentFree(ts)
    ensures KnownStates(ts[1..]) && NoAdjacentFree(ts[1..])
  {
    var rest := ts[1..];
    forall i, j | 0 <= i && j == i + 1 && j < |rest|
      ensures !(rest[i].attr == FREE && rest[j].attr == FREE)
    {
      assert rest[i] == ts[i + 1] && rest[j] == ts[j + 1];
    }
  }

  /** The pass walks over a coalesced prefix unchanged. */
  lemma {:induction false} CoalescePrefix(pre: seq<PhysicalMemoryArea>, rest: seq<PhysicalMemoryArea>)
    requires rest != [] && KnownStates(pre + [rest[0]]) && NoAdjacentFree(pre + [rest[0]])
    ensures Coalesce(pre + rest) == pre + Coalesce(rest)
  {
    if pre == [] {
      assert pre + rest == rest;
    } else {
      var ts, marked := pre + rest, pre + [rest[0]];
      HeadsDoNotCoalesce(marked);
      CoalesceFixpointTail(marked);
      assert marked[1..] == pre[1..] + [rest[0]];
      CoalescePrefix(pre[1..], rest);
      CoalesceHeadSkip(ts, pre[0], pre[1..] + rest);
    }
  }

  lemma HeadsDoNotCoalesce(ts: seq<PhysicalMemoryArea>)
    requires |ts| >= 2 && KnownStates(ts) && NoAdjacentFree(ts)
    ensures !CanCoalesce(ts[0], ts[1])
  {
  }

  lemma CoalesceHeadSkip(ts: seq<PhysicalMemoryArea>, t: PhysicalMemoryArea, rest: seq<PhysicalMemoryArea>)
    requires rest != [] && ts == [t] + rest && !CanCoalesce(t, rest[0])
    ensures Coalesce(ts) == [t] + Coalesce(rest)
  {
    assert ts[1..] == rest;
  }

  // ---------------------------------------------------------------------------
  // Releasing
  // ---------------------------------------------------------------------------

  /** The area a release names: same base, same size. */
  ghost predicate Names(ts: seq<PhysicalMemoryArea>, i: nat, addr: nat, size: nat) {
    i < |ts| && ts[i].base == addr && ts[i].size == size
  }

  /** The loop as written survives only if every pair it can merge is the last pair. */
  ghost predicate MergesBeforeLast(ts: seq<PhysicalMemoryArea>) {
    exists j, k | 0 <= j && k == j + 1 && k < |ts| - 1 :: CanMergeWith(ts[j], ts[k])
  }

  ghost predicate LastPairMerges(ts: seq<PhysicalMemoryArea>) {
    |ts| >= 2 && CanMergeWith(ts[|ts| - 2], ts[|ts| - 1])
  }

  ghost function MergedAsWritten(ts: seq<PhysicalMemoryArea>): seq<PhysicalMemoryArea> {
    if LastPairMerges(ts) then JoinedAt(ts, |ts| - 2) else ts
  }

  /** What the merging loop as written leaves behind; None when it panics. */
  ghost function MergeOutcome(ts: seq<PhysicalMemoryArea>): Option<seq<PhysicalMemoryArea>> {
    if MergesBeforeLast(ts) then None else Some(MergedAsWritten(ts))
  }

  /** Exactly when the loop as written does what it is described to do: no pair but the last
      can merge, and the last pair is not two allocated areas. */
  lemma AsWrittenMeetsDescriptionIff(ts: seq<PhysicalMemoryArea>, total: nat)
    requires Tiles(ts, 0, total) && KnownStates(ts)
    ensures MergeOutcome(ts) == Some(Coalesce(ts)) <==>
            (!MergesBeforeLast(ts) && (LastPairMerges(ts) ==> ts[|ts| - 1].attr == FREE))
  {
    if !MergesBeforeLast(ts) {
      if LastPairMerges(ts) && ts[|ts| - 1].attr == FREE {
        LastFreePairCoalesces(ts);
      } else {
        NoFreePairToCoalesce(ts);
      }
    }
  }

  lemma NoFreePairToCoalesce(ts: seq<PhysicalMemoryArea>)
    requires Contiguous(ts) && KnownStates(ts) && !MergesBeforeLast(ts)
    requires LastPairMerges(ts) ==> ts[|ts| - 1].attr != FREE
    ensures Coalesce(ts) == ts
  {
    forall i, j | 0 <= i && j == i + 1 && j < |ts|
      ensures !(ts[i].attr == FREE && ts[j].attr == FREE)
    {
      assert ts[i].End() == ts[j].base;
    }
    CoalesceFixpoint(ts);
  }

  lemma LastFreePairCoalesces(ts: seq<PhysicalMemoryArea>)
    requires Contiguous(ts) && KnownStates(ts) && !MergesBeforeLast(ts)
    requires LastPairMerges(ts) && ts[|ts| - 1].attr == FREE
    ensures Coalesce(ts) == JoinedAt(ts, |ts| - 2)
  {
    var n := |ts| - 2;
    var pre, x, y := ts[..n], ts[n], ts[n + 1];
    var head := pre + [x];
    forall i, j | 0 <= i && j == i + 1 && j < |head|
      ensures !(head[i].attr == FREE && head[j].attr == FREE)
    {
      assert head[i] == ts[i] && head[j] == ts[j];
      assert ts[i].End() == ts[j].base;
    }
    CoalescePrefix(pre, [x, y]);
    assert ts == pre + [x, y];
    assert [x, y][2..] == [];
    assert Coalesce([x, y]) == Coalesce([Joined(x, y)] + []);
    assert [Joined(x, y)] + [] == [Joined(x, y)];
    assert ts[n + 2..] == [];
  }

  /** Whenever the loop as written completes, it leaves a managed partition with the same flat map. */
  lemma AsWrittenKeepsManaged(ts: seq<PhysicalMemoryArea>, total: nat)
    requires Tiles(ts, 0, total) && KnownStates(ts) && !MergesBeforeLast(ts)
    ensures Managed(MergedAsWritten(ts), total)
    ensures forall b: nat :: At(MergedAsWritten(ts), b) == At(ts, b)
  {
    var us := MergedAsWritten(ts);
    if LastPairMerges(ts) {
      JoinKeepsFlatMap(ts, total, |ts| - 2);
      assert |us| == |ts| - 1;
      forall i | 0 <= i < |us|
        ensures us[i].attr == ts[i].attr
      {
      }
    }
    forall i, j | 0 <= i && j == i + 1 && j < |us|
      ensures !(us[i].attr == FREE && us[j].attr == FREE)
    {
      assert ts[i].End() == ts[j].base;
      assert !CanMergeWith(ts[i], ts[j]) || (j == |ts| - 1 && us == ts);
    }
  }

  /** Marking an area is a pointwise update of the flat map. */
  lemma MarkIsUpdate(ts: seq<PhysicalMemoryArea>, total: nat, i: nat, kind: PhysicalMemoryType)
    requires Tiles(ts, 0, total) && i < |ts|
    ensures Tiles(Marked(ts, i, kind), 0, total)
    ensures forall b: nat ::
              At(Marked(ts, i, kind), b) ==
              if ts[i].Has(b) then Some(AreaAttributes(ts[i].attr.memoryType, kind)) else At(ts, b)
  {
    var t := ts[i];
    assert t.size > 0;
    var attr := AreaAttributes(t.attr.memoryType, kind);
    SplitAtIsUpdate(ts, total, i, t.base, t.size, attr);
    assert Split(t, t.base, t.size, attr) == [Tile(t.base, t.size, attr)];
    assert Marked(ts, i, kind) == SplitAt(ts, i, t.base, t.size, attr);
  }

  lemma MarkFreeIsUpdate(ts: seq<PhysicalMemoryArea>, total: nat, i: nat)
    requires Tiles(ts, 0, total) && KnownStates(ts) && i < |ts|
    ensures Tiles(Marked(ts, i, Free), 0, total) && KnownStates(Marked(ts, i, Free))
    ensures forall b: nat :: At(Marked(ts, i, Free), b) == if ts[i].Has(b) then Some(FREE) else At(ts, b)
  {
    MarkIsUpdate(ts, total, i, Free);
  }

  /** The described release: mark the named area free, then coalesce. */
  ghost function Released(ts: seq<PhysicalMemoryArea>, i: nat): seq<PhysicalMemoryArea>
    requires i < |ts|
  {
    Coalesce(Marked(ts, i, Free))
  }

  /** A release frees exactly the named area's bytes and keeps the invariant. */
  lemma ReleaseIsUpdate(ts: seq<PhysicalMemoryArea>, total: nat, i: nat)
    requires Managed(ts, total) && i < |ts|
    ensures Managed(Released(ts, i), total)
    ensures forall b: nat :: At(Released(ts, i), b) == if ts[i].Has(b) then Some(FREE) else At(ts, b)
  {
    MarkIsUpdate(ts, total, i, Free);
    CoalesceKeepsFlatMap(Marked(ts, i, Free), 0, total);
    CoalesceSeparatesFree(Marked(ts, i, Free), 0, total);
  }

  /** Releasing a grant just made restores the exact areas, across both neighbours. */
  lemma AllocateThenRelease(ts: seq<PhysicalMemoryArea>, total: nat, i: nat, addr: nat, size: nat) returns (k: nat)
    requires Managed(ts, total) && i < |ts| && size > 0 && ts[i].attr == FREE
    requires ts[i].base <= addr && addr + size <= ts[i].End()
    ensures Names(SplitAt(ts, i, addr, size, ALLOCATED), k, addr, size)
    ensures Released(SplitAt(ts, i, addr, size, ALLOCATED), k) == ts
  {
    k := if addr > ts[i].base then i + 1 else i;
    assert SplitAt(ts, i, addr, size, ALLOCATED)[k] == Tile(addr, size, ALLOCATED);
    assert Marked(SplitAt(ts, i, addr, size, ALLOCATED), k, Free) == SplitAt(ts, i, addr, size, FREE);
    FreePiecesCoalesceBack(ts, i, addr, size);
  }

  lemma SameStates(xs: seq<PhysicalMemoryArea>, ys: seq<PhysicalMemoryArea>)
    requires |xs| == |ys| && forall a | 0 <= a < |ys| :: ys[a].attr == xs[a].attr
    requires KnownStates(xs) && NoAdjacentFree(xs)
    ensures KnownStates(ys) && NoAdjacentFree(ys)
  {
  }

  lemma SplitIsFree(t: PhysicalMemoryArea, addr: nat, size: nat)
    requires t.attr == FREE && t.base <= addr && addr + size <= t.End()
    ensures Split(t, addr, size, FREE) != [] && Split(t, addr, size, FREE)[0].attr == FREE
  {
  }

  lemma FreePiecesCoalesceBack(ts: seq<PhysicalMemoryArea>, i: nat, addr: nat, size: nat)
    requires KnownStates(ts) && NoAdjacentFree(ts) && i < |ts| && ts[i].attr == FREE
    requires ts[i].base <= addr && addr + size <= ts[i].End()
    ensures Coalesce(SplitAt(ts, i, addr, size, FREE)) == ts
  {
    hide KnownStates, NoAdjacentFree, Split, Coalesce;
    var t := ts[i];
    var pre, ps, post := ts[..i], Split(t, addr, size, FREE), ts[i + 1..];
    SplitIsFree(t, addr, size);
    SeparateSlice(ts, 0, i + 1);
    SeparateSlice(ts, i, |ts|);
    SameStates(ts[0..i + 1], pre + [ps[0]]);
    assert (ps + post)[0] == ps[0];
    CoalescePrefix(pre, ps + post);
    assert pre + ps + post == pre + (ps + post);
    CoalescePieces(t, addr, size, post);
    assert [t] + post == ts[i..|ts|];
    CoalesceFixpoint(ts[i..|ts|]);
    assert ts == pre + ts[i..|ts|];
  }

  /** Three consecutive free areas coalesce into the one they make up. */
  lemma CoalesceThree(x: PhysicalMemoryArea, y: PhysicalMemoryArea, z: PhysicalMemoryArea,
                      post: seq<PhysicalMemoryArea>)
    requires CanCoalesce(x, y) && CanCoalesce(y, z)
    ensures Coalesce([x, y, z] + post) == Coalesce([Joined(Joined(x, y), z)] + post)
  {
    hide Coalesce;
    assert [x, y, z] + post == [x, y] + ([z] + post);
    CoalesceHead(x, y, [z] + post);
    assert [Joined(x, y)] + ([z] + post) == [Joined(x, y), z] + post;
    CoalesceHead(Joined(x, y), z, post);
  }

  /** The up to three free pieces of one area coalesce back into it. */
  lemma CoalescePieces(t: PhysicalMemoryArea, addr: nat, size: nat, post: seq<PhysicalMemoryArea>)
    requires t.attr == FREE && t.base <= addr && addr + size <= t.End()
    ensures Coalesce(Split(t, addr, size, FREE) + post) == Coalesce([t] + post)
  {
    hide Coalesce;
    var before, mid, after :=
      Tile(t.base, addr - t.base, FREE), Tile(addr, size, FREE), Tile(addr + size, t.End() - (addr + size), FREE);
    var ps := Split(t, addr, size, FREE);
    if addr > t.base && addr + size < t.End() {
      assert ps == [before, mid, after];
      CoalesceThree(before, mid, after, post);
    } else if addr > t.base {
      assert ps == [before, mid];
      CoalesceHead(before, mid, post);
    } else if addr + size < t.End() {
      assert ps == [mid, after];
      CoalesceHead(mid, after, post);
    } else {
      assert ps == [t];
    }
  }

  lemma CoalesceHead(x: PhysicalMemoryArea, y: PhysicalMemoryArea, post: seq<PhysicalMemoryArea>)
    requires CanCoalesce(x, y)
    ensures Coalesce([x, y] + post) == Coalesce([Joined(x, y)] + post)
  {
    var ts := [x, y] + post;
    assert ts[2..] == post;
  }
}
