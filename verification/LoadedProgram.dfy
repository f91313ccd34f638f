/** From the linker's state to the relocated program (crates/core/src/linker/mod.rs).

    What `load_module` left behind is one guest memory in which every module's image stands at
    its base; the relocation theorems' hypotheses follow for all modules at once. */
module LoadedProgram {
  import opened Bytes
  import opened Tiling
  import opened Stubs
  import opened Relocation
  import opened RelocatedImage
  import L = Linker
  import MI = ModuleImage

  predicate Spans(m: L.Module, a: nat) {
    m.baseVirtualAddr <= a < m.baseVirtualAddr + m.alignedBaseSize
  }

  ghost function RangeOf(m: L.Module): (r: Memory)
    requires |m.image| == m.alignedBaseSize
  {
    map a: nat | a < m.baseVirtualAddr + m.alignedBaseSize && Spans(m, a) :: m.image[a - m.baseVirtualAddr]
  }

  ghost predicate Sized(ms: seq<L.Module>) {
    forall i | 0 <= i < |ms| :: |ms[i].image| == ms[i].alignedBaseSize
  }

  /** Guest memory with the modules' images in it, and nothing else. */
  ghost function MemoryOf(ms: seq<L.Module>): Memory
    requires Sized(ms)
  {
    if ms == [] then map[] else MemoryOf(ms[..|ms| - 1]) + RangeOf(ms[|ms| - 1])
  }

  ghost predicate AllApart(ms: seq<L.Module>) {
    forall i, j | 0 <= i < j < |ms| :: L.Apart(ms[i], ms[j])
  }

  ghost predicate Stands(mem: Memory, m: L.Module)
    requires |m.image| == m.alignedBaseSize
  {
    forall a: nat | Spans(m, a) :: a in mem && mem[a] == m.image[a - m.baseVirtualAddr]
  }

  lemma StandsApart(mem: Memory, m: L.Module, last: L.Module)
    requires |m.image| == m.alignedBaseSize && |last.image| == last.alignedBaseSize
    requires Stands(mem, m) && L.Apart(m, last)
    ensures Stands(mem + RangeOf(last), m)
  {
  }

  lemma StandsItself(mem: Memory, last: L.Module)
    requires |last.image| == last.alignedBaseSize
    ensures Stands(mem + RangeOf(last), last)
  {
  }

  /** No module's image overwrites another's. */
  lemma {:induction false} EveryImageStands(ms: seq<L.Module>, i: nat)
    requires Sized(ms) && AllApart(ms) && i < |ms|
    ensures Stands(MemoryOf(ms), ms[i])
  {
    hide L.Apart, Stands, RangeOf;
    var init, last := ms[..|ms| - 1], ms[|ms| - 1];
    if i < |ms| - 1 {
      EveryImageStands(init, i);
      StandsApart(MemoryOf(init), ms[i], last);
    } else {
      StandsItself(MemoryOf(init), last);
    }
  }

  function MappingOf(m: L.Module): Mapping {
    Mapping(m.elf, m.name, m.baseVirtualAddr, m.minAddr, m.alignedBaseSize)
  }

  /** A module as the relocation pass sees it. */
  function TablesOf(m: L.Module): Loaded {
    Loaded(m.baseVirtualAddr, m.relocations)
  }

  ghost function AllTables(ms: seq<L.Module>): (r: seq<Loaded>)
    ensures |r| == |ms| && forall i | 0 <= i < |ms| :: r[i] == TablesOf(ms[i])
  {
    seq(|ms|, i requires 0 <= i < |ms| => TablesOf(ms[i]))
  }

  lemma GenuineIsMapped(m: L.Module)
    requires L.Genuine(m)
    ensures MI.MapsSegments(m.elf.programHeaders, m.minAddr, m.alignedBaseSize)
    ensures m.image == LoadedImage(MappingOf(m)) && |m.image| == m.alignedBaseSize
  {
    hide MI.MapsSegments, L.MappedSize, L.Extends;
  }

  lemma SaneModules(h: L.Host, st: L.State)
    requires L.Sane(h, st)
    ensures Sized(st.modules) && AllApart(st.modules)
    ensures forall i | 0 <= i < |st.modules| :: L.Genuine(st.modules[i])
  {
    hide L.Apart;
    assert L.InPlace(st);
    hide Tiles, L.TrustedHost, L.UniqueNames, L.Names, L.Files, L.Genuine, L.Owns;
    forall i | 0 <= i < |st.modules|
      ensures |st.modules[i].image| == st.modules[i].alignedBaseSize
    {
      GenuineIsMapped(st.modules[i]);
    }
    forall i, j | 0 <= i < j < |st.modules|
      ensures L.Apart(st.modules[i], st.modules[j])
    {
      L.ModulesApart(h, st, i, j);
    }
  }

  /** Whatever was loaded, each module's image, patched or not, stands in the one guest memory. */
  lemma LoadedImagesStand(h: L.Host, st: L.State, i: nat)
    requires L.Sane(h, st) && i < |st.modules|
    ensures Sized(st.modules)
    ensures MI.MapsSegments(st.modules[i].elf.programHeaders, st.modules[i].minAddr, st.modules[i].alignedBaseSize)
    ensures HoldsImage(MemoryOf(st.modules), MappingOf(st.modules[i]))
  {
    hide L.Sane, MI.MapsSegments, L.Genuine, LoadedImage, MemoryOf;
    SaneModules(h, st);
    GenuineIsMapped(st.modules[i]);
    EveryImageStands(st.modules, i);
  }

  /** Every slot a module's relocations write lies in its own mapping. */
  ghost predicate SlotsInside(m: L.Module) {
    forall j | 0 <= j < |m.relocations| && Writes(Target(m.baseVirtualAddr, m.relocations[j])) ::
      m.relocations[j].offset + 8 <= m.alignedBaseSize
  }

  ghost predicate SlotsDisjoint(m: L.Module) {
    DisjointSlots(TargetsOf(TablesOf(m)))
  }

  /** A target's slot lies in the mapping of one of the modules. */
  ghost predicate InSome(ms: seq<L.Module>, t: Target) {
    exists i | 0 <= i < |ms| :: InModule(ms[i], t)
  }

  ghost predicate InModule(m: L.Module, t: Target) {
    m.baseVirtualAddr <= SlotOf(t) && SlotOf(t) + 8 <= m.baseVirtualAddr + m.alignedBaseSize
  }

  lemma TablesPrefix(ms: seq<L.Module>)
    requires ms != []
    ensures AllTables(ms)[..|ms| - 1] == AllTables(ms[..|ms| - 1])
    ensures AllTables(ms)[|ms| - 1] == TablesOf(ms[|ms| - 1])
  {
  }

  /** With that, the slots of all modules are mapped, and disjoint when each module's own are. */
  lemma {:induction false} SlotsOfAll(ms: seq<L.Module>)
    requires AllApart(ms) && forall i | 0 <= i < |ms| :: SlotsInside(ms[i]) && SlotsDisjoint(ms[i])
    ensures forall t | t in AllTargets(AllTables(ms)) && Writes(t) :: InSome(ms, t)
    ensures DisjointSlots(AllTargets(AllTables(ms)))
  {
    if ms != [] {
      var init, last := ms[..|ms| - 1], ms[|ms| - 1];
      SlotsOfAll(init);
      TablesPrefix(ms);
      var before, own := AllTargets(AllTables(init)), TargetsOf(TablesOf(last));
      hide L.Apart, Writes, DisjointSlots;
      assert SlotsInside(last) && SlotsDisjoint(last);
      OwnSlots(last);
      OthersSlots(ms, before);
      JoinedSlots(before, own, init, last);
      forall t | t in before + own && Writes(t)
        ensures InSome(ms, t)
      {
        assert t in own ==> InModule(ms[|ms| - 1], t);
      }
    }
  }

  lemma OwnSlots(m: L.Module)
    requires SlotsInside(m)
    ensures forall t | t in TargetsOf(TablesOf(m)) && Writes(t) :: InModule(m, t)
  {
    hide Writes;
    forall t | t in TargetsOf(TablesOf(m)) && Writes(t)
      ensures InModule(m, t)
    {
      var j :| 0 <= j < |m.relocations| && t == TargetsOf(TablesOf(m))[j];
      assert t == Target(m.baseVirtualAddr, m.relocations[j]);
    }
  }

  lemma OthersSlots(ms: seq<L.Module>, ts: seq<Target>)
    requires ms != [] && AllApart(ms)
    requires forall t | t in ts && Writes(t) :: InSome(ms[..|ms| - 1], t)
    ensures forall t | t in ts && Writes(t) ::
              InSome(ms, t) && (SlotOf(t) + 8 <= ms[|ms| - 1].baseVirtualAddr
                                || ms[|ms| - 1].baseVirtualAddr + ms[|ms| - 1].alignedBaseSize <= SlotOf(t))
  {
    hide Writes;
    forall t | t in ts && Writes(t)
      ensures InSome(ms, t) && (SlotOf(t) + 8 <= ms[|ms| - 1].baseVirtualAddr
                                || ms[|ms| - 1].baseVirtualAddr + ms[|ms| - 1].alignedBaseSize <= SlotOf(t))
    {
      var init := ms[..|ms| - 1];
      var i :| 0 <= i < |init| && InModule(init[i], t);
      assert init[i] == ms[i];
      assert L.Apart(ms[i], ms[|ms| - 1]);
    }
  }

  lemma JoinedSlots(before: seq<Target>, own: seq<Target>, init: seq<L.Module>, last: L.Module)
    requires DisjointSlots(before) && DisjointSlots(own)
    requires forall t | t in own && Writes(t) :: InModule(last, t)
    requires forall t | t in before && Writes(t) ::
               SlotOf(t) + 8 <= last.baseVirtualAddr || last.baseVirtualAddr + last.alignedBaseSize <= SlotOf(t)
    ensures DisjointSlots(before + own)
  {
    hide Writes;
    var all := before + own;
    forall i, j | 0 <= i < j < |all| && Writes(all[i]) && Writes(all[j])
      ensures SlotOf(all[i]) + 8 <= SlotOf(all[j]) || SlotOf(all[j]) + 8 <= SlotOf(all[i])
    {
      if j < |before| {
        assert all[i] == before[i] && all[j] == before[j];
      } else if i < |before| {
        assert all[i] == before[i] && all[j] == own[j - |before|];
        assert all[i] in before && all[j] in own;
      } else {
        assert all[i] == own[i - |before|] && all[j] == own[j - |before|];
      }
    }
  }

  lemma SlotIsMapped(ms: seq<L.Module>, t: Target)
    requires Sized(ms) && AllApart(ms) && InSome(ms, t)
    ensures Mapped(MemoryOf(ms), SlotOf(t), 8)
  {
    var i :| 0 <= i < |ms| && InModule(ms[i], t);
    EveryImageStands(ms, i);
  }

  /** The slots of everything that was loaded are mapped and disjoint. */
  lemma LoadedSlots(h: L.Host, st: L.State)
    requires L.Sane(h, st)
    requires forall i | 0 <= i < |st.modules| :: SlotsInside(st.modules[i]) && SlotsDisjoint(st.modules[i])
    ensures Sized(st.modules)
    ensures AllMapped(AllTargets(AllTables(st.modules)), MemoryOf(st.modules))
    ensures DisjointSlots(AllTargets(AllTables(st.modules)))
  {
    hide L.Sane, L.Genuine, MemoryOf, Writes, InSome, Mapped, DisjointSlots, AllTargets, AllApart, Sized,
      SlotsInside, SlotsDisjoint;
    SaneModules(h, st);
    SlotsOfAll(st.modules);
    var ts := AllTargets(AllTables(st.modules));
    forall k | 0 <= k < |ts| && Writes(ts[k])
      ensures Mapped(MemoryOf(st.modules), SlotOf(ts[k]), 8)
    {
      SlotIsMapped(st.modules, ts[k]);
    }
  }

  lemma WritingTypes(t: Target)
    requires Writes(t)
    ensures t.reloc.relType in {1, 6, 7, 8, 16}
  {
  }

  /** The relocation pass over everything that was loaded: every relocation's slot ends with its
      own value, which is what the relocation means. */
  lemma LoadedProgramRelocates(h: L.Host, st: L.State, rs: Resolver, names: seq<Stubs.Name>, j: nat, p: Stubs.Name)
    requires L.Sane(h, st) && |names| <= MAX_STUBS
    requires forall i | 0 <= i < |st.modules| :: SlotsInside(st.modules[i]) && SlotsDisjoint(st.modules[i])
    requires j < |AllTargets(AllTables(st.modules))| && Writes(AllTargets(AllTables(st.modules))[j])
    requires IsBaseName(AllTargets(AllTables(st.modules))[j].reloc.symbolName, p)
    ensures Sized(st.modules)
    ensures var ts, before := AllTargets(AllTables(st.modules)), LinkState(MemoryOf(st.modules), names);
            && AllMapped(ts, before.memory) && DisjointSlots(ts)
            && var after := ApplyAll(rs, ts, |ts|, before).memory;
               && Mapped(after, SlotOf(ts[j]), 8)
               && ReadWord(after, SlotOf(ts[j])) == ValueOf(rs, ts[j], StubNumber(rs, ts, j, before))
               && Means(rs, ts[j], p, StubNumber(rs, ts, j, before), ReadWord(after, SlotOf(ts[j])))
  {
    hide *;
    LoadedSlots(h, st);
    RelocatesWord(rs, AllTargets(AllTables(st.modules)), j, LinkState(MemoryOf(st.modules), names), p);
  }

  lemma RelocatesWord(rs: Resolver, ts: seq<Target>, j: nat, st: LinkState, p: Stubs.Name)
    requires j < |ts| && AllMapped(ts, st.memory) && DisjointSlots(ts) && |st.stubNames| <= MAX_STUBS
    requires Writes(ts[j]) && IsBaseName(ts[j].reloc.symbolName, p)
    ensures var after := ApplyAll(rs, ts, |ts|, st).memory;
            && Mapped(after, SlotOf(ts[j]), 8)
            && ReadWord(after, SlotOf(ts[j])) == ValueOf(rs, ts[j], StubNumber(rs, ts, j, st))
            && Means(rs, ts[j], p, StubNumber(rs, ts, j, st), ReadWord(after, SlotOf(ts[j])))
  {
    hide ReadWord, Mapped, ApplyAll, IsBaseName, AllMapped, DisjointSlots, StubNumber, Means, ValueOf, Writes;
    WritingTypes(ts[j]);
    SlotHoldsValue(rs, ts, |ts|, j, st);
    SlotMeaning(rs, ts, j, st, p);
  }
}
