/** Whole runs of the direct memory allocator, with the callers' own record of what they hold
    (crates/core/src/memory/physical_memory.rs). */
module PhysicalRuns {
  import opened Wrappers
  import opened Types
  import opened Tiling
  import opened PhysicalMemory

  datatype Request =
    | Allocate(searchStart: nat, searchEnd: nat, size: nat, alignment: nat)
    | Release(addr: nat, size: nat)

  /** What a caller was promised for an address it was given. */
  datatype Grant = Grant(size: nat, alignment: nat)

  /** The manager together with the callers' own record of what they hold. */
  datatype World = World(areas: seq<PhysicalMemoryArea>, held: map<nat, Grant>)

  ghost predicate WellFormed(total: nat, r: Request) {
    match r
    case Allocate(searchStart, _, size, alignment) => Sound(total, searchStart, size, alignment)
    case Release(_, _) => true
  }

  lemma SoundIsSearchable(ts: seq<PhysicalMemoryArea>, total: nat, searchStart: nat, size: nat, alignment: nat)
    requires Tiles(ts, 0, total) && Sound(total, searchStart, size, alignment)
    ensures Searchable(ts, searchStart, Max(alignment, PAGE_SIZE))
  {
    TilesBounds(ts, 0, total);
  }

  ghost function Step(w: World, total: nat, r: Request): World
    requires Tiles(w.areas, 0, total) && WellFormed(total, r)
  {
    match r
    case Allocate(searchStart, searchEnd, size, alignment) =>
      var effective := Max(alignment, PAGE_SIZE);
      SoundIsSearchable(w.areas, total, searchStart, size, alignment);
      var fit := FirstFit(w.areas, searchStart, searchEnd, size, effective, 0);
      if fit.None? then w
      else
        var addr := Candidate(w.areas[fit.value], searchStart, effective);
        World(SplitAt(w.areas, fit.value, addr, size, ALLOCATED), w.held[addr := Grant(size, alignment)])
    case Release(addr, size) =>
      if exists i: nat :: Names(w.areas, i, addr, size) then
        var i: nat :| Names(w.areas, i, addr, size);
        World(Released(w.areas, i), w.held - {addr})
      else
        w
  }

  /** What a grant promises of its address: a page, and the alignment asked for where that is
      one. */
  ghost predicate AlignedAs(a: nat, alignment: nat) {
    && a % PAGE_SIZE == 0
    && (PowerOfTwo(alignment) ==> a % alignment == 0)
  }

  /** A held address is an allocated area of its own, as large and as aligned as promised. */
  ghost predicate Backed(ts: seq<PhysicalMemoryArea>, a: nat, g: Grant) {
    && Tile(a, g.size, ALLOCATED) in ts
    && AlignedAs(a, g.alignment)
  }

  /** Every held address is backed, and every allocated area is held by someone. */
  ghost predicate Safe(w: World, total: nat) {
    && Managed(w.areas, total)
    && (forall a | a in w.held :: Backed(w.areas, a, w.held[a]))
    && (forall t | t in w.areas && t.attr == ALLOCATED :: t.base in w.held && w.held[t.base].size == t.size)
  }

  lemma GrantKeepsSafe(w: World, total: nat, searchStart: nat, searchEnd: nat, size: nat, alignment: nat)
    requires Safe(w, total) && Sound(total, searchStart, size, alignment)
    ensures Safe(Step(w, total, Allocate(searchStart, searchEnd, size, alignment)), total)
  {
    var effective := Max(alignment, PAGE_SIZE);
    SoundIsSearchable(w.areas, total, searchStart, size, alignment);
    var fit := FirstFit(w.areas, searchStart, searchEnd, size, effective, 0);
    if fit.Some? {
      var addr := Candidate(w.areas[fit.value], searchStart, effective);
      CandidateAligned(w.areas[fit.value], searchStart, alignment);
      HoldingKeepsSafe(w, total, fit.value, addr, Grant(size, alignment));
    }
  }

  lemma HoldingKeepsSafe(w: World, total: nat, i: nat, addr: nat, g: Grant)
    requires Safe(w, total) && i < |w.areas| && w.areas[i].attr == FREE && g.size > 0
    requires w.areas[i].base <= addr && addr + g.size <= w.areas[i].End()
    requires AlignedAs(addr, g.alignment)
    ensures Safe(World(SplitAt(w.areas, i, addr, g.size, ALLOCATED), w.held[addr := g]), total)
  {
    GrantKeepsManaged(w.areas, total, i, addr, g.size);
    AllocatedAfterGrant(w.areas, i, addr, g.size);
    GrantIsNew(w, total, i, addr);
    hide Managed, SplitAt, AlignedAs;
    RecordFollows(w, total, SplitAt(w.areas, i, addr, g.size, ALLOCATED), addr, g);
  }

  /** One more allocated area and its holder. */
  lemma RecordFollows(w: World, total: nat, us: seq<PhysicalMemoryArea>, addr: nat, g: Grant)
    requires Safe(w, total) && Managed(us, total) && addr !in w.held && AlignedAs(addr, g.alignment)
    requires forall t: PhysicalMemoryArea | t.attr == ALLOCATED ::
               t in us <==> t in w.areas || t == Tile(addr, g.size, ALLOCATED)
    ensures Safe(World(us, w.held[addr := g]), total)
  {
    hide Managed, AlignedAs;
    forall a | a in w.held
      ensures Backed(us, a, w.held[a])
    {
      assert Backed(w.areas, a, w.held[a]);
    }
    assert Tile(addr, g.size, ALLOCATED) in us;
    assert Backed(us, addr, g);
  }

  lemma CandidateAligned(t: PhysicalMemoryArea, searchStart: nat, alignment: nat)
    requires PowerOfTwo(Max(alignment, PAGE_SIZE))
    requires Max(t.base, searchStart) + (Max(alignment, PAGE_SIZE) - 1) < U64
    ensures AlignedAs(Candidate(t, searchStart, Max(alignment, PAGE_SIZE)), alignment)
  {
    hide PowerOfTwo;
    var effective := Max(alignment, PAGE_SIZE);
    var a := Candidate(t, searchStart, effective);
    EffectiveAlignment(alignment);
    AlignUpIsLeastMultiple(Max(t.base, searchStart), effective);
    MultipleOfMultiple(a, effective, PAGE_SIZE);
    if PowerOfTwo(alignment) {
      MultipleOfMultiple(a, effective, alignment);
    }
  }

  lemma ReleaseKeepsSafe(w: World, total: nat, i: nat)
    requires Safe(w, total) && i < |w.areas|
    ensures Safe(World(Released(w.areas, i), w.held - {w.areas[i].base}), total)
  {
    ReleaseIsUpdate(w.areas, total, i);
    AllocatedAfterRelease(w.areas, i);
    forall a | a in w.held && a != w.areas[i].base
      ensures Backed(Released(w.areas, i), a, w.held[a])
    {
      assert Backed(w.areas, a, w.held[a]);
    }
  }

  lemma StepKeepsSafe(w: World, total: nat, r: Request)
    requires Safe(w, total) && WellFormed(total, r)
    ensures Safe(Step(w, total, r), total)
  {
    match r
    case Allocate(searchStart, searchEnd, size, alignment) =>
      GrantKeepsSafe(w, total, searchStart, searchEnd, size, alignment);
    case Release(addr, size) =>
      forall i: nat | Names(w.areas, i, addr, size)
        ensures Safe(World(Released(w.areas, i), w.held - {addr}), total)
      {
        ReleaseKeepsSafe(w, total, i);
      }
  }

  lemma AllocatedAfterGrant(ts: seq<PhysicalMemoryArea>, i: nat, addr: nat, size: nat)
    requires i < |ts| && ts[i].attr == FREE && ts[i].base <= addr && addr + size <= ts[i].End()
    ensures forall t: PhysicalMemoryArea | t.attr == ALLOCATED ::
              t in SplitAt(ts, i, addr, size, ALLOCATED) <==> t in ts || t == Tile(addr, size, ALLOCATED)
  {
    assert ts == ts[..i] + [ts[i]] + ts[i + 1..];
  }

  lemma GrantIsNew(w: World, total: nat, i: nat, addr: nat)
    requires Safe(w, total) && i < |w.areas| && w.areas[i].attr == FREE && w.areas[i].Has(addr)
    ensures addr !in w.held
  {
    AtOwner(w.areas, i, addr);
    forall a | a in w.held
      ensures At(w.areas, a) == Some(ALLOCATED)
    {
      var _ := HeldBytes(w, total, a);
    }
  }

  lemma HeldBytes(w: World, total: nat, a: nat) returns (i: nat)
    requires Safe(w, total) && a in w.held
    ensures Names(w.areas, i, a, w.held[a].size)
    ensures a < a + w.held[a].size <= total
    ensures forall b | a <= b < a + w.held[a].size :: At(w.areas, b) == Some(ALLOCATED)
  {
    assert Backed(w.areas, a, w.held[a]);
    i :| 0 <= i < |w.areas| && w.areas[i] == Tile(a, w.held[a].size, ALLOCATED);
    assert w.areas[i].size > 0;
    TilesBounds(w.areas, 0, total);
    forall b | a <= b < a + w.held[a].size
      ensures At(w.areas, b) == Some(ALLOCATED)
    {
      AtOwner(w.areas, i, b);
    }
  }

  lemma AllocatedAfterRelease(ts: seq<PhysicalMemoryArea>, i: nat)
    requires Ordered(ts) && KnownStates(ts) && i < |ts|
    ensures forall t: PhysicalMemoryArea | t.attr == ALLOCATED ::
              t in Released(ts, i) <==> t in ts && t.base != ts[i].base
  {
    var us := Marked(ts, i, Free);
    forall t: PhysicalMemoryArea | t.attr == ALLOCATED
      ensures t in Released(ts, i) <==> t in ts && t.base != ts[i].base
    {
      CoalesceKeepsAllocated(us, t);
      if k: nat :| k < |ts| && ts[k] == t {
        DistinctBases(ts, k, i);
        if k != i {
          assert us[k] == t;
        }
      }
      if k: nat :| k < |us| && us[k] == t {
        assert k != i && ts[k] == t;
        DistinctBases(ts, k, i);
      }
    }
  }

  ghost function Boot(total: nat): World {
    World([Tile(0, total, FREE)], map[])
  }

  ghost function Run(total: nat, rs: seq<Request>): (w: World)
    requires total > 0 && forall r | r in rs :: WellFormed(total, r)
    ensures Safe(w, total)
  {
    if rs == [] then Boot(total)
    else
      var w := Run(total, rs[..|rs| - 1]);
      StepKeepsSafe(w, total, rs[|rs| - 1]);
      Step(w, total, rs[|rs| - 1])
  }

  /** Releasing a grant just made takes the request back: the areas are exactly those before it,
      and so is everything where the callers' record is sound. */
  lemma AllocateThenReleaseRestores(w: World, total: nat, searchStart: nat, searchEnd: nat, size: nat,
                                    alignment: nat)
    requires Managed(w.areas, total) && Sound(total, searchStart, size, alignment)
    requires Searchable(w.areas, searchStart, Max(alignment, PAGE_SIZE))
    ensures var request := Allocate(searchStart, searchEnd, size, alignment);
            var fit := FirstFit(w.areas, searchStart, searchEnd, size, Max(alignment, PAGE_SIZE), 0);
            fit.Some? ==>
              var a := Candidate(w.areas[fit.value], searchStart, Max(alignment, PAGE_SIZE));
              && Tiles(Step(w, total, request).areas, 0, total)
              && Step(Step(w, total, request), total, Release(a, size)).areas == w.areas
              && (Safe(w, total) ==> Step(Step(w, total, request), total, Release(a, size)) == w)
  {
    var effective := Max(alignment, PAGE_SIZE);
    var fit := FirstFit(w.areas, searchStart, searchEnd, size, effective, 0);
    if fit.Some? {
      var a := Candidate(w.areas[fit.value], searchStart, effective);
      GrantTakenBack(w, total, fit.value, a, Grant(size, alignment));
    }
  }

  lemma GrantTakenBack(w: World, total: nat, i: nat, a: nat, g: Grant)
    requires Managed(w.areas, total) && i < |w.areas| && w.areas[i].attr == FREE && g.size > 0
    requires w.areas[i].base <= a && a + g.size <= w.areas[i].End()
    ensures var granted := World(SplitAt(w.areas, i, a, g.size, ALLOCATED), w.held[a := g]);
            && Tiles(granted.areas, 0, total)
            && Step(granted, total, Release(a, g.size)).areas == w.areas
            && (Safe(w, total) ==> Step(granted, total, Release(a, g.size)) == w)
  {
    hide SplitAt, Released, Safe, Tiles, KnownStates, NoAdjacentFree, Names, Step;
    GrantKeepsManaged(w.areas, total, i, a, g.size);
    var k := AllocateThenRelease(w.areas, total, i, a, g.size);
    ReleaseOfNamed(World(SplitAt(w.areas, i, a, g.size, ALLOCATED), w.held[a := g]), total, a, g.size, k);
    if Safe(w, total) {
      FreeIsNotHeld(w, total, i, a, g.size);
      assert w.held[a := g] - {a} == w.held;
    }
  }

  lemma FreeIsNotHeld(w: World, total: nat, i: nat, a: nat, size: nat)
    requires Safe(w, total) && i < |w.areas| && w.areas[i].attr == FREE && size > 0
    requires w.areas[i].base <= a && a + size <= w.areas[i].End()
    ensures a !in w.held
  {
    GrantIsNew(w, total, i, a);
  }

  /** Releasing what names area `k`. */
  lemma ReleaseOfNamed(w: World, total: nat, a: nat, size: nat, k: nat)
    requires Managed(w.areas, total) && Names(w.areas, k, a, size)
    ensures k < |w.areas| && Tiles(w.areas, 0, total)
    ensures Step(w, total, Release(a, size)) == World(Released(w.areas, k), w.held - {a})
  {
    hide Released;
    OneNamed(w.areas, total, a, size, k);
  }

  /** At most one area has a base. */
  lemma OneNamed(ts: seq<PhysicalMemoryArea>, total: nat, addr: nat, size: nat, i: nat)
    requires Managed(ts, total) && Names(ts, i, addr, size)
    ensures forall j: nat | Names(ts, j, addr, size) :: j == i
  {
    forall j: nat | Names(ts, j, addr, size)
      ensures j == i
    {
      DistinctBases(ts, i, j);
    }
  }

  /** What a holder may rely on: the address it was given is aligned, the range is allocated
      memory, and giving it back with its own size is accepted. */
  ghost predicate HolderIsServed(w: World, total: nat, a: nat)
    requires Tiles(w.areas, 0, total) && a in w.held
  {
    var g := w.held[a];
    && AlignedAs(a, g.alignment)
    && (forall b | a <= b < a + g.size :: At(w.areas, b) == Some(ALLOCATED))
    && (exists i: nat :: Names(w.areas, i, a, g.size))
    && Step(w, total, Release(a, g.size)).held == w.held - {a}
  }

  lemma SafeServes(w: World, total: nat, a: nat)
    requires Safe(w, total) && a in w.held
    ensures HolderIsServed(w, total, a)
  {
    assert Backed(w.areas, a, w.held[a]);
    var i := HeldBytes(w, total, a);
    assert Names(w.areas, i, a, w.held[a].size);
  }

  /** Over every run every holder is served, held ranges never overlap, and the free and the
      allocated bytes add up to the whole memory. */
  lemma EveryRunIsSafe(total: nat, rs: seq<Request>)
    requires total > 0 && forall r | r in rs :: WellFormed(total, r)
    ensures forall a | a in Run(total, rs).held :: HolderIsServed(Run(total, rs), total, a)
    ensures forall a, c | a in Run(total, rs).held && c in Run(total, rs).held && a < c ::
              a + Run(total, rs).held[a].size <= c
    ensures SizeOf(Run(total, rs).areas, IsFree) + SizeOf(Run(total, rs).areas, IsAllocated) == total
  {
    var w := Run(total, rs);
    forall a | a in w.held
      ensures HolderIsServed(w, total, a)
    {
      SafeServes(w, total, a);
    }
    forall a, c | a in w.held && c in w.held && a < c
      ensures a + w.held[a].size <= c
    {
      HeldDisjoint(w, total, a, c);
    }
    BytesConserved(w.areas, total);
  }

  lemma HeldDisjoint(w: World, total: nat, a: nat, c: nat)
    requires Safe(w, total) && a in w.held && c in w.held && a < c
    ensures a + w.held[a].size <= c
  {
    var i := HeldBytes(w, total, a);
    var j := HeldBytes(w, total, c);
    if j < i {
      assert false;
    }
    assert i != j;
  }

  lemma BytesConserved(ts: seq<PhysicalMemoryArea>, total: nat)
    requires Managed(ts, total)
    ensures SizeOf(ts, IsFree) + SizeOf(ts, IsAllocated) == total
  {
    SizesConserved(ts, 0, total, IsFree, IsAllocated);
  }
}
