/** Loading a module and, recursively, its dependencies (crates/core/src/linker/mod.rs).

    A module is pushed before its dependencies are visited, so cyclic dependencies end. The
    first part gives the search as functions on states and proves what holds when a load
    returns; the class at the end is the source's linker over the memory manager's class. */
module Linker {
  import opened Wrappers
  import opened Types
  import opened Bytes
  import opened Tiling
  import E = Elf
  import opened ModuleImage
  import Patches
  import VM = VirtualMemory
  import VirtualRuns
  import VirtualManager

  datatype Path = Path(dir: seq<Name>, file: Name)

  /** The name of the main executable, "eboot.bin". */
  const EBOOT: Name := [0x65, 0x62, 0x6F, 0x6F, 0x74, 0x2E, 0x62, 0x69, 0x6E]

  /** The directory "sce_module". */
  const SCE_MODULE: Name := [0x73, 0x63, 0x65, 0x5F, 0x6D, 0x6F, 0x64, 0x75, 0x6C, 0x65]

  datatype Module = Module(
    name: Name, file: Path, elf: E.Elf, baseVirtualAddr: nat, alignedBaseSize: nat, minAddr: nat,
    image: seq<byte>, relocations: seq<ParsedRelocation>, tlsIndex: nat)

  datatype LoadError =
    | Missing
    | BadElf(elfError: E.ElfError)
    | NoLoadSegments
    | NoMemory(mapError: VirtualManager.MapError)

  type Disk = map<Path, seq<byte>>

  /** The files there are, and the user region modules are mapped into. */
  datatype Host = Host(disk: Disk, base: nat, end: nat)

  datatype State = State(modules: seq<Module>, areas: seq<VM.VirtualMemoryArea>, maxTlsIndex: nat)

  // ---------------------------------------------------------------------------
  // Loading one file
  // ---------------------------------------------------------------------------

  lemma {:induction false} ExtentOrdered(phs: seq<E.ProgramHeader>, k: nat)
    requires k <= |phs|
    ensures ExtentOf(phs, k).0 < U64 - 1 ==> ExtentOf(phs, k).0 <= ExtentOf(phs, k).1
  {
    if k > 0 {
      ExtentOrdered(phs, k - 1);
    }
  }

  /** The file has a LOAD segment, and the sums over its extent stay inside 64 bits. */
  ghost predicate Extends(elf: E.Elf) {
    && ExtentOf(elf.programHeaders, |elf.programHeaders|).0 < U64 - 1
    && ExtentOf(elf.programHeaders, |elf.programHeaders|).1 + 4 * PAGE_SIZE <= U64
  }

  ghost function Lowest(elf: E.Elf): nat {
    ExtentOf(elf.programHeaders, |elf.programHeaders|).0
  }

  /** Bytes mapped for a module. */
  ghost function MappedSize(elf: E.Elf): nat
    requires Extends(elf)
  {
    ExtentOrdered(elf.programHeaders, |elf.programHeaders|);
    var (lo, hi) := ExtentOf(elf.programHeaders, |elf.programHeaders|);
    AlignUp(hi - lo, PAGE_SIZE)
  }

  lemma MappedSizeBound(elf: E.Elf)
    requires Extends(elf)
    ensures MappedSize(elf) <= ExtentOf(elf.programHeaders, |elf.programHeaders|).1 + PAGE_SIZE
    ensures AlignUp(MappedSize(elf), PAGE_SIZE) == MappedSize(elf)
  {
    hide AlignUp, IsAligned, ExtentOf;
    ExtentOrdered(elf.programHeaders, |elf.programHeaders|);
    var (lo, hi) := ExtentOf(elf.programHeaders, |elf.programHeaders|);
    PageIsPowerOfTwo();
    AlignUpIsLeastMultiple(hi - lo, PAGE_SIZE);
    IsAlignedMeansMultiple(AlignUp(hi - lo, PAGE_SIZE), PAGE_SIZE);
  }

  /** The mapping is the least whole number of pages from the lowest start to past every end. */
  lemma MappingIsLeast(elf: E.Elf)
    requires Extends(elf)
    ensures MappedSize(elf) % PAGE_SIZE == 0
    ensures forall i | 0 <= i < |elf.programHeaders| && elf.programHeaders[i].phdrType == E.Load ::
              Lowest(elf) <= elf.programHeaders[i].vaddr
              && elf.programHeaders[i].vaddr + elf.programHeaders[i].memsz <= Lowest(elf) + MappedSize(elf)
    ensures exists i | 0 <= i < |elf.programHeaders| ::
              elf.programHeaders[i].phdrType == E.Load && elf.programHeaders[i].vaddr == Lowest(elf)
    ensures forall size: nat | size % PAGE_SIZE == 0 && Encloses(elf, size) :: MappedSize(elf) <= size
  {
    hide AlignUp, ExtentOf;
    var phs := elf.programHeaders;
    var (lo, hi) := ExtentOf(phs, |phs|);
    ExtentOrdered(phs, |phs|);
    ExtentIsTight(phs, |phs|);
    PageIsPowerOfTwo();
    AlignUpIsLeastMultiple(hi - lo, PAGE_SIZE);
    forall i | 0 <= i < |phs| && phs[i].phdrType == E.Load
      ensures lo <= phs[i].vaddr && phs[i].vaddr + phs[i].memsz <= hi
    {
      ExtentSpans(phs, |phs|, i);
    }
    forall size: nat | size % PAGE_SIZE == 0 && Encloses(elf, size)
      ensures MappedSize(elf) <= size
    {
      assert hi > 0 ==> exists i | 0 <= i < |phs| :: phs[i].phdrType == E.Load && phs[i].vaddr + phs[i].memsz == hi;
    }
  }

  /** `size` bytes from the lowest start reach past every LOAD segment. */
  ghost predicate Encloses(elf: E.Elf, size: nat) {
    forall i | 0 <= i < |elf.programHeaders| && elf.programHeaders[i].phdrType == E.Load ::
      elf.programHeaders[i].vaddr + elf.programHeaders[i].memsz <= Lowest(elf) + size
  }

  /** What the loader relies on in a file it accepts: no copy leaves the mapping, sums stay
      inside 64 bits and no dynamic table is sliced out of range. */
  ghost predicate Trusted(d: seq<byte>, end: nat) {
    E.ParseFile(d).Ok? ==>
      var elf := E.ParseFile(d).value;
      && end + ExtentOf(elf.programHeaders, |elf.programHeaders|).1 + 4 * PAGE_SIZE <= U64
      && (Extends(elf) ==> MapsSegments(elf.programHeaders, Lowest(elf), MappedSize(elf)))
      && ParseRelocations(elf).Some?
  }

  /** No copy leaves the mapping of a file whose segments have room for their file bytes. */
  lemma WellSizedIsTrusted(d: seq<byte>, end: nat)
    requires E.ParseFile(d).Ok?
    requires var elf := E.ParseFile(d).value;
             && WellSized(elf.programHeaders)
             && end + ExtentOf(elf.programHeaders, |elf.programHeaders|).1 + 4 * PAGE_SIZE <= U64
             && ParseRelocations(elf).Some?
    ensures Trusted(d, end)
  {
    hide E.ParseFile, ParseRelocations, AlignUp, ExtentOf, WellSized, MapsSegments;
    var elf := E.ParseFile(d).value;
    if Extends(elf) {
      ExtentOrdered(elf.programHeaders, |elf.programHeaders|);
      CopiesStayInside(elf.programHeaders);
    }
  }

  ghost predicate TrustedHost(h: Host) {
    h.base < h.end && forall p | p in h.disk :: Trusted(h.disk[p], h.end)
  }

  /** Where a file would be mapped, or why it cannot be loaded. */
  ghost function LoadOutcome(h: Host, areas: seq<VM.VirtualMemoryArea>, path: Path): Result<(E.Elf, nat), LoadError>
    requires TrustedHost(h) && Tiles(areas, h.base, h.end)
  {
    if path !in h.disk then Err(Missing)
    else
      var parsed := E.ParseFile(h.disk[path]);
      if parsed.Err? then Err(BadElf(parsed.error))
      else
        var elf := parsed.value;
        assert Trusted(h.disk[path], h.end);
        if ExtentOf(elf.programHeaders, |elf.programHeaders|).0 == U64 - 1 then Err(NoLoadSegments)
        else
          ExtentAtMost(elf.programHeaders, |elf.programHeaders|);
          MappedSizeBound(elf);
          VirtualRuns.TilesSearchable(areas, h.base, h.end, MappedSize(elf));
          var place := VM.FreeRegion(areas, MappedSize(elf));
          if place.None? then Err(NoMemory(VirtualManager.NoFreeRegion))
          else if MappedSize(elf) == 0 then Err(NoMemory(VirtualManager.OsRefused))
          else Ok((elf, place.value))
  }

  lemma {:induction false} ExtentAtMost(phs: seq<E.ProgramHeader>, k: nat)
    requires k <= |phs|
    ensures ExtentOf(phs, k).0 <= U64 - 1
  {
    if k > 0 {
      ExtentAtMost(phs, k - 1);
    }
  }

  ghost function CodeAttributes(name: Name): VM.VmaAttributes {
    VM.VmaAttributes(VM.Code, 7, name, false)
  }

  ghost predicate HasTls(elf: E.Elf) {
    exists i | 0 <= i < |elf.programHeaders| :: elf.programHeaders[i].phdrType == E.Tls
  }

  /** The loaded image, with the main executable's assertion traps patched. */
  ghost function LoadedImage(elf: E.Elf, name: Name): seq<byte>
    requires Extends(elf) && MapsSegments(elf.programHeaders, Lowest(elf), MappedSize(elf))
  {
    var image := Image(elf, Lowest(elf), MappedSize(elf), |elf.programHeaders|);
    if name == EBOOT then Patches.PatchTraps(image) else image
  }

  /** The state with the file at `path` mapped and its module pushed. */
  ghost function Pushed(h: Host, st: State, path: Path): State
    requires TrustedHost(h) && Tiles(st.areas, h.base, h.end) && LoadOutcome(h, st.areas, path).Ok?
  {
    var (elf, base) := LoadOutcome(h, st.areas, path).value;
    assert Trusted(h.disk[path], h.end);
    ExtentAtMost(elf.programHeaders, |elf.programHeaders|);
    var size := MappedSize(elf);
    var tlsIndex := if HasTls(elf) then st.maxTlsIndex + 1 else 0;
    var m := Module(path.file, path, elf, base, size, Lowest(elf), LoadedImage(elf, path.file),
                    ParseRelocations(elf).value, tlsIndex);
    State(st.modules + [m], VM.Overwrite(st.areas, base, base + size, CodeAttributes(path.file)),
          if HasTls(elf) then st.maxTlsIndex + 1 else st.maxTlsIndex)
  }

  // ---------------------------------------------------------------------------
  // The search
  // ---------------------------------------------------------------------------

  ghost function Names(ms: seq<Module>): set<Name> {
    set i | 0 <= i < |ms| :: ms[i].name
  }

  ghost function Files(disk: Disk): set<Name> {
    set p | p in disk :: p.file
  }

  ghost predicate UniqueNames(ms: seq<Module>) {
    forall i, j | 0 <= i < j < |ms| :: ms[i].name != ms[j].name
  }

  /** Every byte of the module's mapping is code of its name. */
  ghost predicate Owns(areas: seq<VM.VirtualMemoryArea>, m: Module) {
    forall b | m.baseVirtualAddr <= b < m.baseVirtualAddr + m.alignedBaseSize ::
      At(areas, b) == Some(CodeAttributes(m.name))
  }

  /** The module is what loading its file gives. */
  ghost predicate Genuine(m: Module) {
    && Extends(m.elf)
    && MapsSegments(m.elf.programHeaders, Lowest(m.elf), MappedSize(m.elf))
    && m.minAddr == Lowest(m.elf)
    && m.alignedBaseSize == MappedSize(m.elf) > 0
    && m.image == LoadedImage(m.elf, m.name)
    && Some(m.relocations) == ParseRelocations(m.elf)
  }

  ghost predicate InPlace(st: State) {
    forall i | 0 <= i < |st.modules| :: Genuine(st.modules[i]) && Owns(st.areas, st.modules[i])
  }

  /** Every module is a file on disk, parsed. */
  ghost predicate FromDisk(h: Host, st: State) {
    forall i | 0 <= i < |st.modules| :: IsFile(h, st.modules[i])
  }

  ghost predicate IsFile(h: Host, m: Module) {
    && m.file in h.disk && m.name == m.file.file
    && E.ParseFile(h.disk[m.file]) == Ok(m.elf)
  }

  ghost function TlsCount(ms: seq<Module>): nat {
    if ms == [] then 0 else TlsCount(ms[..|ms| - 1]) + (if HasTls(ms[|ms| - 1].elf) then 1 else 0)
  }

  /** Modules with a TLS segment are numbered from one in load order; the others have number
      zero. */
  ghost predicate TlsNumbered(st: State) {
    && st.maxTlsIndex == TlsCount(st.modules)
    && forall i | 0 <= i < |st.modules| ::
         st.modules[i].tlsIndex == if HasTls(st.modules[i].elf) then TlsCount(st.modules[..i]) + 1 else 0
  }

  ghost predicate Sane(h: Host, st: State) {
    && TrustedHost(h)
    && Tiles(st.areas, h.base, h.end)
    && UniqueNames(st.modules)
    && Names(st.modules) <= Files(h.disk)
    && InPlace(st)
    && FromDisk(h, st)
    && TlsNumbered(st)
  }

  /** Names on disk that are not loaded yet: what bounds the recursion. */
  ghost function Unloaded(h: Host, ms: seq<Module>): nat {
    |Files(h.disk) - Names(ms)|
  }

  /** Loading only adds modules and only takes free space. */
  ghost predicate Grows(st: State, st': State) {
    && st.modules <= st'.modules
    && forall a: nat, size: nat :: VM.Room(st'.areas, a, size) ==> VM.Room(st.areas, a, size)
  }

  /** The first loaded module with a name. */
  function IndexOf(ms: seq<Module>, name: Name, k: nat): (r: Option<nat>)
    requires k <= |ms|
    ensures r.Some? ==> k <= r.value < |ms| && ms[r.value].name == name
    ensures r.None? ==> forall i | k <= i < |ms| :: ms[i].name != name
    decreases |ms| - k
  {
    if k == |ms| then None else if ms[k].name == name then Some(k) else IndexOf(ms, name, k + 1)
  }

  /** A dependency is looked for beside its module, then in the module directory. */
  function FindDependency(disk: Disk, dir: seq<Name>, dep: Name): (r: Option<Path>)
    ensures r.Some? ==> r.value in disk && r.value.file == dep
  {
    if Path(dir, dep) in disk then Some(Path(dir, dep))
    else if Path(dir + [SCE_MODULE], dep) in disk then Some(Path(dir + [SCE_MODULE], dep))
    else None
  }

  /** A file beside the module is preferred to one in the module directory, and nothing is found
      only when there is neither. */
  lemma FindsBesideFirst(disk: Disk, dir: seq<Name>, dep: Name)
    ensures Path(dir, dep) in disk ==> FindDependency(disk, dir, dep) == Some(Path(dir, dep))
    ensures Path(dir, dep) !in disk && Path(dir + [SCE_MODULE], dep) in disk ==>
              FindDependency(disk, dir, dep) == Some(Path(dir + [SCE_MODULE], dep))
    ensures Path(dir, dep) !in disk && Path(dir + [SCE_MODULE], dep) !in disk ==> FindDependency(disk, dir, dep) == None
  {
  }

  /** Two modules never share a TLS number. */
  lemma TlsNumbersDiffer(h: Host, st: State, i: nat, j: nat)
    requires Sane(h, st) && i < j < |st.modules| && HasTls(st.modules[i].elf) && HasTls(st.modules[j].elf)
    ensures 0 < st.modules[i].tlsIndex < st.modules[j].tlsIndex <= st.maxTlsIndex
  {
    hide Tiles, UniqueNames, Names, Files, TrustedHost, InPlace, FromDisk, TlsNumbered, HasTls;
    TlsOrdered(st, i, j);
  }

  lemma TlsOrdered(st: State, i: nat, j: nat)
    requires TlsNumbered(st) && i < j < |st.modules| && HasTls(st.modules[i].elf) && HasTls(st.modules[j].elf)
    ensures 0 < st.modules[i].tlsIndex < st.modules[j].tlsIndex <= st.maxTlsIndex
  {
    hide HasTls, TlsCount;
    var ms := st.modules;
    TlsCountStep(ms, i);
    TlsCountStep(ms, j);
    TlsCountGrows(ms, i + 1, j);
    TlsCountGrows(ms, j + 1, |ms|);
    assert ms[..|ms|] == ms;
  }

  lemma TlsCountStep(ms: seq<Module>, i: nat)
    requires i < |ms| && HasTls(ms[i].elf)
    ensures TlsCount(ms[..i + 1]) == TlsCount(ms[..i]) + 1
  {
    hide HasTls;
    assert ms[..i + 1][..i] == ms[..i];
  }

  lemma {:induction false} TlsCountGrows(ms: seq<Module>, i: nat, j: nat)
    requires i <= j <= |ms|
    ensures TlsCount(ms[..i]) <= TlsCount(ms[..j])
    decreases j
  {
    if i < j {
      TlsCountGrows(ms, i, j - 1);
      assert ms[..j][..j - 1] == ms[..j - 1];
    }
  }

  /** Pushing a module keeps the state sane, grows it, and shrinks what is left to load. */
  lemma PushKeepsSane(h: Host, st: State, path: Path)
    requires Sane(h, st) && IndexOf(st.modules, path.file, 0).None? && LoadOutcome(h, st.areas, path).Ok?
    ensures Sane(h, Pushed(h, st, path)) && Grows(st, Pushed(h, st, path))
    ensures Unloaded(h, Pushed(h, st, path).modules) < Unloaded(h, st.modules)
  {
    hide Tiles, VM.Overwrite, VM.FreeRegion, LoadedImage, MappedSize, E.ParseFile, LoadOutcome, InPlace, VM.FreeBytes,
      FromDisk, TlsNumbered;
    PushedIsNumbered(h, st, path);
    PlaceIsInside(h, st.areas, path);
    PushedNames(h, st.modules, Pushed(h, st, path).modules[|st.modules|]);
    PushTakesSpace(h, st, path);
    PushStaysInPlace(h, st, path);
  }

  lemma PushedIsNumbered(h: Host, st: State, path: Path)
    requires Sane(h, st) && LoadOutcome(h, st.areas, path).Ok?
    ensures FromDisk(h, Pushed(h, st, path)) && TlsNumbered(Pushed(h, st, path))
  {
    hide Tiles, VM.Overwrite, VM.FreeRegion, LoadedImage, MappedSize, E.ParseFile, LoadOutcome, InPlace, VM.FreeBytes,
      UniqueNames, Names, Files, HasTls;
    PlaceIsInside(h, st.areas, path);
    var st' := Pushed(h, st, path);
    assert st'.modules[..|st.modules|] == st.modules;
    forall i | 0 <= i < |st.modules|
      ensures st'.modules[i] == st.modules[i] && st'.modules[..i] == st.modules[..i]
    {
    }
    forall i | 0 <= i < |st.modules|
      ensures IsFile(h, st'.modules[i])
    {
      assert IsFile(h, st.modules[i]);
    }
  }

  lemma PushStaysInPlace(h: Host, st: State, path: Path)
    requires Sane(h, st) && LoadOutcome(h, st.areas, path).Ok?
    ensures InPlace(Pushed(h, st, path))
  {
    hide Tiles, VM.Overwrite, E.ParseFile, LoadOutcome, Genuine, Owns, VM.FreeBytes, UniqueNames, Names, Files,
      FromDisk, TlsNumbered, TrustedHost, Pushed, Ordered, Extends, MappedSize, MapsSegments;
    var (elf, base) := LoadOutcome(h, st.areas, path).value;
    var st' := Pushed(h, st, path);
    PlaceIsInside(h, st.areas, path);
    PushedIsGenuine(h, st, path);
    SaneOrdered(h, st);
    OverwriteOwns(st.areas, st'.modules[|st.modules|]);
    forall i | 0 <= i < |st.modules|
      ensures Genuine(st'.modules[i]) && Owns(st'.areas, st'.modules[i])
    {
      assert st'.modules[i] == st.modules[i];
      OwnedStaysOwned(st.areas, st.modules[i], base, MappedSize(elf), CodeAttributes(path.file));
    }
  }

  lemma SaneOrdered(h: Host, st: State)
    requires Sane(h, st)
    ensures Ordered(st.areas)
  {
  }

  lemma PushedIsGenuine(h: Host, st: State, path: Path)
    requires Sane(h, st) && LoadOutcome(h, st.areas, path).Ok?
    ensures var (elf, base) := LoadOutcome(h, st.areas, path).value;
            var st' := Pushed(h, st, path);
            && st'.modules == st.modules + [st'.modules[|st.modules|]]
            && Genuine(st'.modules[|st.modules|])
            && st'.modules[|st.modules|].baseVirtualAddr == base && st'.modules[|st.modules|].name == path.file
            && Extends(elf) && st'.modules[|st.modules|].alignedBaseSize == MappedSize(elf)
            && st'.areas == VM.Overwrite(st.areas, base, base + MappedSize(elf), CodeAttributes(path.file))
  {
    hide Tiles, VM.Overwrite, VM.FreeRegion, VM.FreeBytes, LoadedImage, MappedSize, E.ParseFile, LoadOutcome, Extends,
      MapsSegments, InPlace, UniqueNames, Names, Files, ParseRelocations;
    PlaceIsInside(h, st.areas, path);
    assert Trusted(h.disk[path], h.end);
  }

  lemma OverwriteOwns(areas: seq<VM.VirtualMemoryArea>, m: Module)
    requires Ordered(areas) && m.alignedBaseSize > 0
    ensures Owns(VM.Overwrite(areas, m.baseVirtualAddr, m.baseVirtualAddr + m.alignedBaseSize, CodeAttributes(m.name)), m)
  {
    hide Ordered, VM.Overwrite;
    VM.OverwriteIsUpdate(areas, m.baseVirtualAddr, m.baseVirtualAddr + m.alignedBaseSize, CodeAttributes(m.name));
  }

  /** A mapping made from free bytes takes none of a module's. */
  lemma OwnedStaysOwned(areas: seq<VM.VirtualMemoryArea>, m: Module, base: nat, size: nat, attr: VM.VmaAttributes)
    requires Ordered(areas) && size > 0 && VM.FreeBytes(areas, base, size) && Owns(areas, m)
    ensures Owns(VM.Overwrite(areas, base, base + size, attr), m)
  {
    hide Ordered, VM.Overwrite;
    var after := VM.Overwrite(areas, base, base + size, attr);
    VM.OverwriteIsUpdate(areas, base, base + size, attr);
    forall b | m.baseVirtualAddr <= b < m.baseVirtualAddr + m.alignedBaseSize
      ensures At(after, b) == Some(CodeAttributes(m.name))
    {
      assert At(areas, b) == Some(CodeAttributes(m.name));
    }
  }

  ghost predicate Apart(m: Module, n: Module) {
    || m.baseVirtualAddr + m.alignedBaseSize <= n.baseVirtualAddr
    || n.baseVirtualAddr + n.alignedBaseSize <= m.baseVirtualAddr
  }

  /** Loaded modules lie apart: a byte two modules owned would be code of two names. */
  lemma ModulesApart(h: Host, st: State, i: nat, j: nat)
    requires Sane(h, st) && i < j < |st.modules|
    ensures Apart(st.modules[i], st.modules[j])
  {
    hide Tiles, Names, Files, TrustedHost, Genuine, Owns, Apart;
    var m, n := st.modules[i], st.modules[j];
    assert Genuine(m) && Owns(st.areas, m) && Genuine(n) && Owns(st.areas, n);
    OwnersApart(st.areas, m, n);
  }

  lemma OwnersApart(areas: seq<VM.VirtualMemoryArea>, m: Module, n: Module)
    requires Owns(areas, m) && Owns(areas, n) && m.name != n.name
    requires Genuine(m) && Genuine(n)
    ensures Apart(m, n)
  {
    var b := Max(m.baseVirtualAddr, n.baseVirtualAddr);
    assert b < m.baseVirtualAddr + m.alignedBaseSize ==> At(areas, b) == Some(CodeAttributes(m.name));
    assert b < n.baseVirtualAddr + n.alignedBaseSize ==> At(areas, b) == Some(CodeAttributes(n.name));
  }

  /** Every byte of a mapping is readable, writable and executable code under its module's name. */
  lemma ModuleIsCode(h: Host, st: State, i: nat, b: nat)
    requires Sane(h, st) && i < |st.modules|
    requires st.modules[i].baseVirtualAddr <= b < st.modules[i].baseVirtualAddr + st.modules[i].alignedBaseSize
    ensures At(st.areas, b) == Some(VM.VmaAttributes(VM.Code, 1 + 2 + 4, st.modules[i].name, false))
  {
    hide Tiles, UniqueNames, Names, Files, TrustedHost, Genuine, FromDisk, TlsNumbered;
    assert Owns(st.areas, st.modules[i]);
  }

  /** They lie inside the user region. */
  lemma ModulesInside(h: Host, st: State, i: nat)
    requires Sane(h, st) && i < |st.modules|
    ensures h.base <= st.modules[i].baseVirtualAddr
    ensures st.modules[i].baseVirtualAddr + st.modules[i].alignedBaseSize <= h.end
  {
    hide Tiles, UniqueNames, Names, Files, TrustedHost;
    var m := st.modules[i];
    assert Genuine(m) && Owns(st.areas, m);
    TilesCover(st.areas, h.base, h.end, m.baseVirtualAddr);
    TilesCover(st.areas, h.base, h.end, m.baseVirtualAddr + m.alignedBaseSize - 1);
  }

  lemma PushTakesSpace(h: Host, st: State, path: Path)
    requires Sane(h, st) && LoadOutcome(h, st.areas, path).Ok?
    ensures Tiles(Pushed(h, st, path).areas, h.base, h.end)
    ensures forall a: nat, size: nat :: VM.Room(Pushed(h, st, path).areas, a, size) ==> VM.Room(st.areas, a, size)
  {
    hide Tiles, VM.Overwrite, VM.Room, VM.FreeRegion, LoadedImage, MappedSize, E.ParseFile, LoadOutcome;
    var (elf, base) := LoadOutcome(h, st.areas, path).value;
    PlaceIsInside(h, st.areas, path);
    var areas := Pushed(h, st, path).areas;
    VM.OverwriteKeepsTiles(st.areas, h.base, h.end, base, base + MappedSize(elf), CodeAttributes(path.file));
    forall a: nat, size: nat | VM.Room(areas, a, size)
      ensures VM.Room(st.areas, a, size)
    {
      VM.MappingShrinksRoom(st.areas, base, base + MappedSize(elf), CodeAttributes(path.file), a, size);
    }
  }

  lemma PlaceIsInside(h: Host, areas: seq<VM.VirtualMemoryArea>, path: Path)
    requires TrustedHost(h) && Tiles(areas, h.base, h.end) && LoadOutcome(h, areas, path).Ok?
    ensures path in h.disk && E.ParseFile(h.disk[path]) == Ok(LoadOutcome(h, areas, path).value.0)
    ensures var (elf, base) := LoadOutcome(h, areas, path).value;
            && Extends(elf) && MappedSize(elf) > 0
            && MapsSegments(elf.programHeaders, Lowest(elf), MappedSize(elf))
            && h.base <= base && base + MappedSize(elf) <= h.end
            && VM.FreeBytes(areas, base, MappedSize(elf))
  {
    hide VM.FreeRegion, VM.FreeBytes, E.ParseFile, MappedSize, MapsSegments;
    var (elf, base) := LoadOutcome(h, areas, path).value;
    assert Trusted(h.disk[path], h.end);
    ExtentAtMost(elf.programHeaders, |elf.programHeaders|);
    MappedSizeBound(elf);
    VirtualRuns.TilesSearchable(areas, h.base, h.end, MappedSize(elf));
    VM.FreeRegionIsLowestRoom(areas, MappedSize(elf));
    TilesBounds(areas, h.base, h.end);
    RoomIsFree(areas, base, MappedSize(elf));
  }

  lemma RoomIsFree(areas: seq<VM.VirtualMemoryArea>, a: nat, size: nat)
    requires Ordered(areas) && VM.Room(areas, a, size)
    ensures VM.FreeBytes(areas, a, size)
  {
    hide VM.Room;
    forall b | a <= b < a + size
      ensures At(areas, b).Some? && At(areas, b).value.vmaType == VM.Free
    {
      VM.RoomWasFree(areas, a, size, b);
    }
  }

  lemma PushedNames(h: Host, ms: seq<Module>, m: Module)
    requires UniqueNames(ms) && Names(ms) <= Files(h.disk)
    requires m.file in h.disk && m.name == m.file.file && forall i | 0 <= i < |ms| :: ms[i].name != m.name
    ensures UniqueNames(ms + [m]) && Names(ms + [m]) <= Files(h.disk)
    ensures Unloaded(h, ms + [m]) < Unloaded(h, ms)
  {
    var files := Files(h.disk);
    assert m.name in files;
    forall n | n in Names(ms + [m])
      ensures n in Names(ms) + {m.name}
    {
      var i :| 0 <= i < |ms + [m]| && (ms + [m])[i].name == n;
      assert i < |ms| ==> ms[i].name == n;
    }
    assert (ms + [m])[|ms|].name == m.name;
    assert Names(ms) <= Names(ms + [m]) by {
      forall n | n in Names(ms)
        ensures n in Names(ms + [m])
      {
        var i :| 0 <= i < |ms| && ms[i].name == n;
        assert (ms + [m])[i].name == n;
      }
    }
    assert Names(ms + [m]) == Names(ms) + {m.name};
    assert files - Names(ms + [m]) == (files - Names(ms)) - {m.name};
  }

  lemma NamesGrow(h: Host, st: State, st': State)
    requires Grows(st, st')
    ensures Names(st.modules) <= Names(st'.modules)
    ensures Unloaded(h, st'.modules) <= Unloaded(h, st.modules)
  {
    forall n | n in Names(st.modules)
      ensures n in Names(st'.modules)
    {
      var i :| 0 <= i < |st.modules| && st.modules[i].name == n;
      assert st'.modules[i] == st.modules[i];
    }
    SubsetSize(Files(h.disk) - Names(st'.modules), Files(h.disk) - Names(st.modules));
  }

  lemma {:induction false} SubsetSize<T>(a: set<T>, b: set<T>)
    requires a <= b
    ensures |a| <= |b|
  {
    if a != {} {
      var x :| x in a;
      SubsetSize(a - {x}, b - {x});
    }
  }

  /** Load a module, then its dependencies; an already loaded name is found, not loaded. */
  ghost function Load(h: Host, st: State, path: Path): (r: (State, Result<nat, LoadError>))
    requires Sane(h, st)
    ensures Sane(h, r.0) && Grows(st, r.0)
    decreases Unloaded(h, st.modules), 0
  {
    hide LoadOutcome, Pushed, Unloaded, NeededModules, UniqueNames, Names, Files, InPlace, FromDisk, TlsNumbered, Tiles, TrustedHost;
    var found := IndexOf(st.modules, path.file, 0);
    if found.Some? then (st, Ok(found.value))
    else
      var outcome := LoadOutcome(h, st.areas, path);
      if outcome.Err? then (st, Err(outcome.error))
      else
        PushKeepsSane(h, st, path);
        var deps := NeededModules(outcome.value.0);
        (LoadAll(h, Pushed(h, st, path), path.dir, deps), Ok(|st.modules|))
  }

  ghost function LoadAll(h: Host, st: State, dir: seq<Name>, deps: seq<Name>): (r: State)
    requires Sane(h, st)
    ensures Sane(h, r) && Grows(st, r)
    decreases Unloaded(h, st.modules), |deps| + 1
  {
    if deps == [] then st
    else
      var path := FindDependency(h.disk, dir, deps[0]);
      if path.None? then LoadAll(h, st, dir, deps[1..])
      else
        var st1 := Load(h, st, path.value).0;
        NamesGrow(h, st, st1);
        LoadAll(h, st1, dir, deps[1..])
  }

  // ---------------------------------------------------------------------------
  // What holds when a load returns
  // ---------------------------------------------------------------------------

  /** A dependency is missing from disk, loaded, or cannot be loaded in this state. */
  ghost predicate DependencySettled(h: Host, st: State, dir: seq<Name>, dep: Name)
    requires TrustedHost(h) && Tiles(st.areas, h.base, h.end)
  {
    match FindDependency(h.disk, dir, dep)
    case None => true
    case Some(path) => dep in Names(st.modules) || LoadOutcome(h, st.areas, path).Err?
  }

  ghost predicate Settled(h: Host, st: State, m: Module)
    requires TrustedHost(h) && Tiles(st.areas, h.base, h.end)
  {
    forall k | 0 <= k < |NeededModules(m.elf)| :: DependencySettled(h, st, m.file.dir, NeededModules(m.elf)[k])
  }

  /** A file that cannot be loaded still cannot be once more space is taken. */
  lemma FailurePersists(h: Host, st: State, st': State, path: Path)
    requires Sane(h, st) && Sane(h, st') && Grows(st, st')
    requires LoadOutcome(h, st.areas, path).Err?
    ensures LoadOutcome(h, st'.areas, path).Err?
  {
    hide Tiles, VM.FreeRegion, E.ParseFile, MappedSize;
    if LoadOutcome(h, st'.areas, path).Ok? {
      var (elf, base) := LoadOutcome(h, st'.areas, path).value;
      assert Trusted(h.disk[path], h.end);
      ExtentAtMost(elf.programHeaders, |elf.programHeaders|);
      MappedSizeBound(elf);
      RoomDecides(h, st'.areas, MappedSize(elf));
      RoomDecides(h, st.areas, MappedSize(elf));
    }
  }

  lemma RoomDecides(h: Host, areas: seq<VM.VirtualMemoryArea>, size: nat)
    requires Tiles(areas, h.base, h.end) && h.end + PAGE_SIZE + size <= U64
    ensures VM.Searchable(areas, size)
    ensures match VM.FreeRegion(areas, size)
            case Some(a) => VM.Room(areas, a, size)
            case None => forall b: nat :: !VM.Room(areas, b, size)
  {
    VirtualRuns.TilesSearchable(areas, h.base, h.end, size);
    VM.FreeRegionIsLowestRoom(areas, size);
  }

  /** Every LOAD segment ends at most `size` bytes behind the start of every other. */
  ghost predicate Spans(phs: seq<E.ProgramHeader>, size: nat) {
    forall i, j | 0 <= i < |phs| && 0 <= j < |phs| && phs[i].phdrType == E.Load && phs[j].phdrType == E.Load ::
      phs[j].vaddr + phs[j].memsz <= phs[i].vaddr + size
  }

  ghost predicate StartsBelowTop(phs: seq<E.ProgramHeader>) {
    exists i | 0 <= i < |phs| :: phs[i].phdrType == E.Load && phs[i].vaddr < U64 - 1
  }

  ghost predicate NotEmpty(phs: seq<E.ProgramHeader>) {
    exists i, j | 0 <= i < |phs| && 0 <= j < |phs| ::
      phs[i].phdrType == E.Load && phs[j].phdrType == E.Load && phs[i].vaddr < phs[j].vaddr + phs[j].memsz
  }

  /** One free area holds whole pages enough for every LOAD segment. */
  ghost predicate HasRoom(areas: seq<VM.VirtualMemoryArea>, phs: seq<E.ProgramHeader>) {
    exists a: nat, size: nat :: VM.Room(areas, a, size) && size % PAGE_SIZE == 0 && Spans(phs, size)
  }

  /** What a file must be to load; the first condition that fails decides the error. */
  ghost predicate Loadable(h: Host, areas: seq<VM.VirtualMemoryArea>, path: Path) {
    && path in h.disk && E.ParseFile(h.disk[path]).Ok?
    && var phs := E.ParseFile(h.disk[path]).value.programHeaders;
       StartsBelowTop(phs) && HasRoom(areas, phs) && NotEmpty(phs)
  }

  /** A file loads exactly when it is there and parses, and there is room for its segments. */
  lemma LoadsIff(h: Host, areas: seq<VM.VirtualMemoryArea>, path: Path)
    requires TrustedHost(h) && Tiles(areas, h.base, h.end)
    ensures LoadOutcome(h, areas, path).Ok? <==> Loadable(h, areas, path)
    ensures path !in h.disk ==> LoadOutcome(h, areas, path) == Err(Missing)
    ensures path in h.disk ==>
              match E.ParseFile(h.disk[path])
              case Err(e) => LoadOutcome(h, areas, path) == Err(BadElf(e))
              case Ok(elf) =>
                if !StartsBelowTop(elf.programHeaders) then LoadOutcome(h, areas, path) == Err(NoLoadSegments)
                else if !HasRoom(areas, elf.programHeaders) then
                  LoadOutcome(h, areas, path) == Err(NoMemory(VirtualManager.NoFreeRegion))
                else if !NotEmpty(elf.programHeaders) then
                  LoadOutcome(h, areas, path) == Err(NoMemory(VirtualManager.OsRefused))
                else
                  LoadOutcome(h, areas, path).Ok? && LoadOutcome(h, areas, path).value.0 == elf
  {
    hide E.ParseFile, ExtentOf, StartsBelowTop, HasRoom, NotEmpty, VM.FreeRegion, MappedSize, Tiles;
    if path in h.disk && E.ParseFile(h.disk[path]).Ok? {
      var elf := E.ParseFile(h.disk[path]).value;
      assert Trusted(h.disk[path], h.end);
      ExtentAtMost(elf.programHeaders, |elf.programHeaders|);
      StartIsLowest(elf);
      if Extends(elf) {
        MappedSizeBound(elf);
        EmptyIffZero(elf);
        RoomDecides(h, areas, MappedSize(elf));
        RoomIffMapped(areas, elf);
      }
    }
  }

  lemma StartIsLowest(elf: E.Elf)
    ensures StartsBelowTop(elf.programHeaders) <==> Lowest(elf) < U64 - 1
  {
    hide ExtentOf;
    var phs := elf.programHeaders;
    ExtentIsTight(phs, |phs|);
    ExtentAtMost(phs, |phs|);
    forall i | 0 <= i < |phs| && phs[i].phdrType == E.Load
      ensures Lowest(elf) <= phs[i].vaddr
    {
      ExtentSpans(phs, |phs|, i);
    }
  }

  lemma EmptyIffZero(elf: E.Elf)
    requires Extends(elf)
    ensures NotEmpty(elf.programHeaders) <==> MappedSize(elf) > 0
  {
    hide ExtentOf, MappedSize, Extends;
    var phs := elf.programHeaders;
    MappingIsLeast(elf);
    var i :| 0 <= i < |phs| && phs[i].phdrType == E.Load && phs[i].vaddr == Lowest(elf);
    if !NotEmpty(phs) {
      assert forall j | 0 <= j < |phs| && phs[j].phdrType == E.Load :: phs[j].vaddr + phs[j].memsz <= phs[i].vaddr;
      assert Encloses(elf, 0);
    }
  }

  lemma RoomIffMapped(areas: seq<VM.VirtualMemoryArea>, elf: E.Elf)
    requires Extends(elf)
    ensures HasRoom(areas, elf.programHeaders) <==> exists a: nat :: VM.Room(areas, a, MappedSize(elf))
  {
    hide ExtentOf, MappedSize, Extends, VM.IsFree;
    var phs, mapped := elf.programHeaders, MappedSize(elf);
    MappingIsLeast(elf);
    assert mapped % PAGE_SIZE == 0 && Spans(phs, mapped);
    if HasRoom(areas, phs) {
      var a: nat, size: nat :| VM.Room(areas, a, size) && size % PAGE_SIZE == 0 && Spans(phs, size);
      assert Encloses(elf, size);
      var k :| 0 <= k < |areas| && VM.RoomIn(areas[k], a, size);
      assert VM.RoomIn(areas[k], a, mapped);
      assert VM.Room(areas, a, mapped);
    }
    if a: nat :| VM.Room(areas, a, mapped) {
      assert HasRoom(areas, phs);
    }
  }

  lemma DependencyStaysSettled(h: Host, st: State, st': State, dir: seq<Name>, dep: Name)
    requires Sane(h, st) && Sane(h, st') && Grows(st, st') && DependencySettled(h, st, dir, dep)
    ensures DependencySettled(h, st', dir, dep)
  {
    hide Sane, LoadOutcome, Files;
    SaneTiles(h, st);
    SaneTiles(h, st');
    NamesGrow(h, st, st');
    var path := FindDependency(h.disk, dir, dep);
    if path.Some? && LoadOutcome(h, st.areas, path.value).Err? {
      FailurePersists(h, st, st', path.value);
    }
  }

  lemma SaneTiles(h: Host, st: State)
    requires Sane(h, st)
    ensures TrustedHost(h) && Tiles(st.areas, h.base, h.end)
  {
  }

  lemma StaysSettled(h: Host, st: State, st': State, m: Module)
    requires Sane(h, st) && Sane(h, st') && Grows(st, st') && Settled(h, st, m)
    ensures Settled(h, st', m)
  {
    hide Sane, Grows, DependencySettled, NeededModules;
    SaneTiles(h, st);
    SaneTiles(h, st');
    forall k | 0 <= k < |NeededModules(m.elf)|
      ensures DependencySettled(h, st', m.file.dir, NeededModules(m.elf)[k])
    {
      DependencyStaysSettled(h, st, st', m.file.dir, NeededModules(m.elf)[k]);
    }
  }

  /** Modules from index `n` on are settled. */
  ghost predicate SettledFrom(h: Host, st: State, n: nat)
    requires TrustedHost(h) && Tiles(st.areas, h.base, h.end)
  {
    forall i | n <= i < |st.modules| :: Settled(h, st, st.modules[i])
  }

  lemma SettledFromGrows(h: Host, st: State, st': State, n: nat)
    requires Sane(h, st) && Sane(h, st') && Grows(st, st') && SettledFrom(h, st, n)
    requires SettledFrom(h, st', |st.modules|)
    ensures SettledFrom(h, st', n)
  {
    hide Sane, Settled;
    SaneTiles(h, st);
    SaneTiles(h, st');
    forall i | n <= i < |st.modules|
      ensures Settled(h, st', st'.modules[i])
    {
      StaysSettled(h, st, st', st.modules[i]);
    }
  }

  /** What one load promises, whatever the dependency graph. */
  ghost predicate LoadPromise(h: Host, st: State, path: Path, st': State, r: Result<nat, LoadError>)
    requires Sane(h, st) && Sane(h, st')
  {
    && SettledFrom(h, st', |st.modules|)
    && (r.Ok? ==> r.value < |st'.modules| && st'.modules[r.value].name == path.file)
    && (r.Err? ==> st' == st && LoadOutcome(h, st.areas, path).Err?)
  }

  lemma {:induction false} LoadKeepsPromise(h: Host, st: State, path: Path)
    requires Sane(h, st)
    ensures LoadPromise(h, st, path, Load(h, st, path).0, Load(h, st, path).1)
    decreases Unloaded(h, st.modules), 0
  {
    hide Sane, Grows, Settled, LoadOutcome, Pushed, LoadAll, Unloaded;
    SaneTiles(h, st);
    if IndexOf(st.modules, path.file, 0).None? && LoadOutcome(h, st.areas, path).Ok? {
      PushKeepsSane(h, st, path);
      var st1, deps := Pushed(h, st, path), NeededModules(LoadOutcome(h, st.areas, path).value.0);
      PushedModule(h, st, path);
      DependenciesSettle(h, st1, path.dir, deps);
      PushedSettles(h, st, st1, LoadAll(h, st1, path.dir, deps), path.dir, deps);
    }
  }

  lemma PushedModule(h: Host, st: State, path: Path)
    requires Sane(h, st) && LoadOutcome(h, st.areas, path).Ok?
    ensures var st1 := Pushed(h, st, path);
            && |st1.modules| == |st.modules| + 1
            && st1.modules[|st.modules|].name == path.file
            && st1.modules[|st.modules|].file == path
            && st1.modules[|st.modules|].elf == LoadOutcome(h, st.areas, path).value.0
  {
    hide LoadOutcome, LoadedImage, MappedSize, VM.Overwrite, Tiles;
    PlaceIsInside(h, st.areas, path);
  }

  /** Once its dependencies were visited, the module just pushed is settled. */
  lemma PushedSettles(h: Host, st: State, st1: State, st': State, dir: seq<Name>, deps: seq<Name>)
    requires Sane(h, st1) && Sane(h, st') && Grows(st1, st')
    requires |st1.modules| == |st.modules| + 1
    requires st1.modules[|st.modules|].file.dir == dir && NeededModules(st1.modules[|st.modules|].elf) == deps
    requires SettledFrom(h, st', |st1.modules|)
    requires forall k | 0 <= k < |deps| :: DependencySettled(h, st', dir, deps[k])
    ensures SettledFrom(h, st', |st.modules|)
    ensures |st.modules| < |st'.modules| && st'.modules[|st.modules|] == st1.modules[|st.modules|]
  {
    hide Sane, DependencySettled;
    SaneTiles(h, st');
  }

  lemma {:induction false} DependenciesSettle(h: Host, st: State, dir: seq<Name>, deps: seq<Name>)
    requires Sane(h, st)
    ensures var st' := LoadAll(h, st, dir, deps);
            && SettledFrom(h, st', |st.modules|)
            && forall k | 0 <= k < |deps| :: DependencySettled(h, st', dir, deps[k])
    decreases Unloaded(h, st.modules), |deps| + 1
  {
    hide Sane, Grows, Settled, DependencySettled, Load, Unloaded;
    SaneTiles(h, st);
    if deps != [] {
      var path := FindDependency(h.disk, dir, deps[0]);
      var st1 := if path.None? then st else Load(h, st, path.value).0;
      if path.Some? {
        LoadKeepsPromise(h, st, path.value);
        NamesGrow(h, st, st1);
      } else {
        GrowsSame(st);
      }
      FirstSettles(h, st, st1, dir, deps[0]);
      DependenciesSettle(h, st1, dir, deps[1..]);
      var st' := LoadAll(h, st1, dir, deps[1..]);
      SettledFromGrows(h, st1, st', |st.modules|);
      DependencyStaysSettled(h, st1, st', dir, deps[0]);
    }
  }

  lemma GrowsSame(st: State)
    ensures Grows(st, st)
  {
  }

  lemma GrowsOn(a: State, b: State, c: State)
    requires Grows(a, b) && Grows(b, c)
    ensures Grows(a, c)
  {
  }

  lemma FirstSettles(h: Host, st: State, st1: State, dir: seq<Name>, dep: Name)
    requires Sane(h, st) && Sane(h, st1)
    requires match FindDependency(h.disk, dir, dep)
             case None => st1 == st
             case Some(path) =>
               st1 == Load(h, st, path).0 && LoadPromise(h, st, path, st1, Load(h, st, path).1)
    ensures SettledFrom(h, st1, |st.modules|) && DependencySettled(h, st1, dir, dep)
  {
    hide Load, LoadOutcome, Settled, Sane, Tiles, TrustedHost, FindDependency, NeededModules;
    SaneTiles(h, st);
    SaneTiles(h, st1);
    var path := FindDependency(h.disk, dir, dep);
    if path.Some? {
      var r := Load(h, st, path.value).1;
      assert r.Ok? ==> st1.modules[r.value].name in Names(st1.modules);
    }
  }

  /** From a fresh linker: whatever cycles the dependencies form, the load returns with unique
      names, an index naming the requested module, mappings that lie apart, and every dependency
      of every loaded module loaded, absent from disk, or impossible to load even now. */
  lemma TopLevelLoad(h: Host, st: State, path: Path)
    requires Sane(h, st) && st.modules == []
    ensures var (st', r) := Load(h, st, path);
            && UniqueNames(st'.modules)
            && (r.Ok? ==> r.value < |st'.modules| && st'.modules[r.value].name == path.file)
            && (r.Err? ==> st' == st && LoadOutcome(h, st.areas, path).Err?)
            && (forall i | 0 <= i < |st'.modules| :: Settled(h, st', st'.modules[i]))
            && (forall i, j | 0 <= i < j < |st'.modules| :: Apart(st'.modules[i], st'.modules[j]))
  {
    hide Load, LoadOutcome, Settled, Apart, InPlace;
    LoadKeepsPromise(h, st, path);
    var st' := Load(h, st, path).0;
    forall i, j | 0 <= i < j < |st'.modules|
      ensures Apart(st'.modules[i], st'.modules[j])
    {
      ModulesApart(h, st', i, j);
    }
  }

  // ---------------------------------------------------------------------------
  // One file, step by step
  // ---------------------------------------------------------------------------

  ghost function Finished(m: Module): Module {
    if m.name == EBOOT then m.(image := Patches.PatchTraps(m.image)) else m
  }

  /** The checks before anything is mapped. */
  lemma OutcomeBeforeMapping(h: Host, areas: seq<VM.VirtualMemoryArea>, path: Path)
    requires TrustedHost(h) && Tiles(areas, h.base, h.end)
    ensures path !in h.disk ==> LoadOutcome(h, areas, path) == Err(Missing)
    ensures path in h.disk ==>
              var parsed := E.ParseFile(h.disk[path]);
              && (parsed.Err? ==> LoadOutcome(h, areas, path) == Err(BadElf(parsed.error)))
              && (parsed.Ok? && ExtentOf(parsed.value.programHeaders, |parsed.value.programHeaders|).0 == U64 - 1 ==>
                    LoadOutcome(h, areas, path) == Err(NoLoadSegments))
  {
    hide E.ParseFile, Tiles, ExtentOf;
  }

  /** The mapping request for a file that passed the checks. */
  lemma OutcomeOfMapping(h: Host, areas: seq<VM.VirtualMemoryArea>, path: Path, elf: E.Elf, lo: nat, hi: nat)
    requires TrustedHost(h) && Tiles(areas, h.base, h.end)
    requires path in h.disk && E.ParseFile(h.disk[path]) == Ok(elf)
    requires (lo, hi) == ExtentOf(elf.programHeaders, |elf.programHeaders|) && lo != U64 - 1
    ensures Extends(elf) && lo == Lowest(elf) && lo <= hi && hi + 4 * PAGE_SIZE <= U64
    ensures MappedSize(elf) == AlignUp(hi - lo, PAGE_SIZE) && MappedSize(elf) + PAGE_SIZE <= U64
    ensures AlignUp(MappedSize(elf), PAGE_SIZE) == MappedSize(elf)
    ensures VM.Searchable(areas, MappedSize(elf))
    ensures LoadOutcome(h, areas, path) ==
            (var place := VM.FreeRegion(areas, MappedSize(elf));
             if place.None? then Err(NoMemory(VirtualManager.NoFreeRegion))
             else if MappedSize(elf) == 0 then Err(NoMemory(VirtualManager.OsRefused))
             else Ok((elf, place.value)))
  {
    hide E.ParseFile, Tiles, ExtentOf, AlignUp, VM.FreeRegion;
    assert Trusted(h.disk[path], h.end);
    ExtentAtMost(elf.programHeaders, |elf.programHeaders|);
    ExtentOrdered(elf.programHeaders, |elf.programHeaders|);
    MappedSizeBound(elf);
    VirtualRuns.TilesSearchable(areas, h.base, h.end, MappedSize(elf));
  }

  lemma TrustedFile(h: Host, path: Path, elf: E.Elf)
    requires TrustedHost(h) && path in h.disk && E.ParseFile(h.disk[path]) == Ok(elf) && Extends(elf)
    ensures ParseRelocations(elf).Some? && MapsSegments(elf.programHeaders, Lowest(elf), MappedSize(elf))
  {
    hide E.ParseFile, ParseRelocations, MapsSegments, MappedSize, Extends;
    assert Trusted(h.disk[path], h.end);
  }

  /** What loading a file adds to the state. */
  lemma PushedIs(h: Host, st: State, path: Path, elf: E.Elf, m: Module, hasTls: bool)
    requires TrustedHost(h) && Tiles(st.areas, h.base, h.end)
    requires LoadOutcome(h, st.areas, path) == Ok((elf, m.baseVirtualAddr)) && hasTls == HasTls(elf)
    requires m.name == path.file && m.file == path && m.elf == elf
    requires Extends(elf) && m.alignedBaseSize == MappedSize(elf) && m.minAddr == Lowest(elf)
    requires MapsSegments(elf.programHeaders, m.minAddr, m.alignedBaseSize)
    requires m.image == Image(elf, m.minAddr, m.alignedBaseSize, |elf.programHeaders|)
    requires Some(m.relocations) == ParseRelocations(elf)
    requires m.tlsIndex == if hasTls then st.maxTlsIndex + 1 else 0
    ensures Pushed(h, st, path) ==
            State(st.modules + [Finished(m)],
                  VM.Overwrite(st.areas, m.baseVirtualAddr, m.baseVirtualAddr + m.alignedBaseSize,
                               CodeAttributes(path.file)),
                  if hasTls then st.maxTlsIndex + 1 else st.maxTlsIndex)
  {
    hide LoadOutcome, E.ParseFile, Tiles, ExtentOf, MappedSize, Image, ParseRelocations, VM.Overwrite;
    PlaceIsInside(h, st.areas, path);
  }

  method FindTls(phs: seq<E.ProgramHeader>) returns (found: bool)
    ensures found <==> exists i | 0 <= i < |phs| :: phs[i].phdrType == E.Tls
  {
    var i := 0;
    while i < |phs|
      invariant 0 <= i <= |phs|
      invariant forall k | 0 <= k < i :: phs[k].phdrType != E.Tls
    {
      if phs[i].phdrType == E.Tls {
        return true;
      }
      i := i + 1;
    }
    return false;
  }

  // ---------------------------------------------------------------------------
  // The linker
  // ---------------------------------------------------------------------------

  class Linker {
    var modules: seq<Module>
    var maxTlsIndex: nat
    const memory: VirtualManager.MemoryManager

    ghost function Snapshot(): State
      reads this, memory
    {
      State(modules, memory.tiles, maxTlsIndex)
    }

    ghost predicate Valid(h: Host)
      reads this, memory
    {
      && memory.Valid()
      && memory.userBase == h.base && memory.userBase + memory.userSize == h.end
      && Sane(h, Snapshot())
    }

    constructor (manager: VirtualManager.MemoryManager)
      ensures modules == [] && maxTlsIndex == 0 && memory == manager
    {
      modules, maxTlsIndex, memory := [], 0, manager;
    }

    /** Parse, map and copy one file; the module's assertion traps are not patched yet. */
    method LoadFile(h: Host, path: Path) returns (r: Result<Module, LoadError>)
      requires Valid(h)
      modifies memory, this`maxTlsIndex
      ensures memory.Valid()
      ensures var outcome := LoadOutcome(h, old(memory.tiles), path);
              if outcome.Err? then r == Err(outcome.error) && Snapshot() == old(Snapshot())
              else
                && r.Ok? && r.value.name == path.file && r.value.elf == outcome.value.0
                && State(modules + [Finished(r.value)], memory.tiles, maxTlsIndex) == Pushed(h, old(Snapshot()), path)
    {
      hide LoadOutcome, Pushed, AlignUp, Image, VM.Overwrite, VM.FreeRegion, E.ParseFile, Tiles, ParseRelocations,
        Extends, ExtentOf, Finished, MappedSize, VM.Searchable, MapsSegments, UniqueNames, Names, Files, TrustedHost;
      OutcomeBeforeMapping(h, memory.tiles, path);
      if path !in h.disk {
        return Err(Missing);
      }
      var parsed := E.Parse(h.disk[path]);
      if parsed.Err? {
        return Err(BadElf(parsed.error));
      }
      var elf := parsed.value;
      var minAddr, maxAddr := ComputeExtent(elf.programHeaders);
      if minAddr == U64 - 1 {
        return Err(NoLoadSegments);
      }
      OutcomeOfMapping(h, memory.tiles, path, elf, minAddr, maxAddr);
      TrustedFile(h, path, elf);
      var alignedBaseSize := AlignUp(maxAddr - minAddr, PAGE_SIZE);
      var mapped := memory.MapMemory(0, alignedBaseSize, 7, 0x1002, VM.Code, path.file, true);
      if mapped.Err? {
        assert mapped.error == VirtualManager.NoFreeRegion || mapped.error == VirtualManager.OsRefused;
        return Err(NoMemory(mapped.error));
      }
      r := FillModule(h, path, elf, minAddr, mapped.value, alignedBaseSize);
      PushedIs(h, old(Snapshot()), path, elf, r.value, HasTls(elf));
    }

    /** Copy the segments into the mapped, zeroed memory and collect the module's tables. */
    method FillModule(h: Host, path: Path, elf: E.Elf, minAddr: nat, base: nat, size: nat)
      returns (r: Result<Module, LoadError>)
      requires MapsSegments(elf.programHeaders, minAddr, size) && ParseRelocations(elf).Some?
      modifies this`maxTlsIndex
      ensures maxTlsIndex == if HasTls(elf) then old(maxTlsIndex) + 1 else old(maxTlsIndex)
      ensures r == Ok(Module(path.file, path, elf, base, size, minAddr,
                             Image(elf, minAddr, size, |elf.programHeaders|), ParseRelocations(elf).value,
                             if HasTls(elf) then old(maxTlsIndex) + 1 else 0))
    {
      hide MapsSegments, Image, ParseRelocations;
      var image := new byte[size](_ => 0);
      CopySegments(elf, minAddr, image);
      var relocations := ReadRelocations(elf);
      var tlsIndex := 0;
      var hasTls := FindTls(elf.programHeaders);
      if hasTls {
        maxTlsIndex := maxTlsIndex + 1;
        tlsIndex := maxTlsIndex;
      }
      return Ok(Module(path.file, path, elf, base, size, minAddr, image[..], relocations.value, tlsIndex));
    }

    /** Load a module from disk, and recursively load its dependencies. */
    method LoadModule(h: Host, path: Path) returns (r: Result<nat, LoadError>)
      requires Valid(h)
      modifies this, memory
      ensures Valid(h)
      ensures (Snapshot(), r) == Load(h, old(Snapshot()), path)
      decreases Unloaded(h, modules), 0
    {
      hide LoadOutcome, Pushed, Unloaded, Grows, Tiles, UniqueNames, Names, Files, TrustedHost, Finished;
      var found := IndexOf(modules, path.file, 0);
      if found.Some? {
        return Ok(found.value);
      }
      var loaded := LoadFile(h, path);
      if loaded.Err? {
        return Err(loaded.error);
      }
      PushKeepsSane(h, old(Snapshot()), path);
      var index := |modules|;
      var m := PatchModule(loaded.value);
      modules := modules + [m];
      assert Snapshot() == Pushed(h, old(Snapshot()), path);
      LoadDependencies(h, path.dir, NeededModules(loaded.value.elf));
      return Ok(index);
    }

    /** Patch the assertion traps of the main executable. */
    method PatchModule(m: Module) returns (patched: Module)
      ensures patched == Finished(m)
    {
      patched := m;
      if m.name == EBOOT {
        var code := new byte[|m.image|](i requires 0 <= i < |m.image| => m.image[i]);
        assert code[..] == m.image;
        var count := Patches.PatchAssertionTraps(code);
        Patches.PatchIsUnique(m.image, code[..], Patches.PatchTraps(m.image));
        patched := m.(image := code[..]);
      }
    }

    method LoadDependencies(h: Host, dir: seq<Name>, deps: seq<Name>)
      requires Valid(h)
      modifies this, memory
      ensures Valid(h)
      ensures Snapshot() == LoadAll(h, old(Snapshot()), dir, deps)
      decreases Unloaded(h, modules), 1
    {
      hide LoadOutcome, Pushed, Unloaded, Tiles, UniqueNames, Names, Files, TrustedHost, Load, Grows, LoadAll,
        FindDependency, InPlace, FromDisk, TlsNumbered;
      var i := 0;
      GrowsSame(Snapshot());
      assert deps[0..] == deps;
      while i < |deps|
        invariant 0 <= i <= |deps|
        invariant Valid(h) && Grows(old(Snapshot()), Snapshot())
        invariant LoadAll(h, Snapshot(), dir, deps[i..]) == LoadAll(h, old(Snapshot()), dir, deps)
      {
        NamesGrow(h, old(Snapshot()), Snapshot());
        VisitsNext(h, Snapshot(), dir, deps, i);
        var path := FindDependency(h.disk, dir, deps[i]);
        ghost var before := Snapshot();
        if path.Some? {
          var ignored := LoadModule(h, path.value);
          GrowsOn(old(Snapshot()), before, Snapshot());
        }
        i := i + 1;
      }
      VisitsNone(h, Snapshot(), dir, deps);
    }
  }

  lemma VisitsNone(h: Host, st: State, dir: seq<Name>, deps: seq<Name>)
    requires Sane(h, st)
    ensures LoadAll(h, st, dir, deps[|deps|..]) == st
  {
  }

  lemma VisitsNext(h: Host, st: State, dir: seq<Name>, deps: seq<Name>, i: nat)
    requires Sane(h, st) && i < |deps|
    ensures LoadAll(h, st, dir, deps[i..])
            == match FindDependency(h.disk, dir, deps[i])
               case None => LoadAll(h, st, dir, deps[i + 1..])
               case Some(path) => LoadAll(h, Load(h, st, path).0, dir, deps[i + 1..])
  {
    hide Load, Sane, FindDependency;
    assert deps[i..][0] == deps[i] && deps[i..][1..] == deps[i + 1..];
  }
}
