/** From the bytes of a file to what is loaded for it (crates/core/src/linker/mod.rs and
    crates/core/src/loader/elf.rs): the names written in a module's dynamic section are the
    dependencies that `load_module` loads. */
module NamedDependencies {
  import opened Wrappers
  import opened Bytes
  import opened Tiling
  import E = Elf
  import EW = ElfWriter
  import DT = DynamicTables
  import MI = ModuleImage
  import opened Linker

  /** Where the loader looks for `name` from a module in `dir`: beside it, and then in
      "sce_module". */
  ghost predicate Present(disk: Disk, dir: seq<MI.Name>, name: MI.Name) {
    Path(dir, name) in disk || Path(dir + [SCE_MODULE], name) in disk
  }

  ghost function Chosen(disk: Disk, dir: seq<MI.Name>, name: MI.Name): Path
    requires Present(disk, dir, name)
  {
    if Path(dir, name) in disk then Path(dir, name) else Path(dir + [SCE_MODULE], name)
  }

  /** A name among a module's needed ones, present on disk, is loaded, or its file is none that
      loads into the space that is left. */
  lemma NeededIsLoaded(h: Host, st: State, path: Path, i: nat, name: MI.Name)
    requires Sane(h, st) && st.modules == []
    requires i < |Load(h, st, path).0.modules|
    requires name in MI.NeededModules(Load(h, st, path).0.modules[i].elf)
    requires Present(h.disk, Load(h, st, path).0.modules[i].file.dir, name)
    ensures var st' := Load(h, st, path).0;
            && Tiles(st'.areas, h.base, h.end)
            && (name in Names(st'.modules)
                || !Loadable(h, st'.areas, Chosen(h.disk, st'.modules[i].file.dir, name)))
  {
    hide Load, LoadOutcome, Loadable, MI.NeededModules, Names, FindDependency, Tiles, TrustedHost, Apart, Grows;
    TopLevelLoad(h, st, path);
    var st' := Load(h, st, path).0;
    var m := st'.modules[i];
    assert Settled(h, st', m);
    var k :| 0 <= k < |MI.NeededModules(m.elf)| && MI.NeededModules(m.elf)[k] == name;
    assert DependencySettled(h, st', m.file.dir, MI.NeededModules(m.elf)[k]);
    FindsBesideFirst(h.disk, m.file.dir, name);
    SaneTiles(h, st');
    LoadsIff(h, st'.areas, Chosen(h.disk, m.file.dir, name));
  }

  /** The file of a loaded module, written out: dynamic entries `es`, library bytes `lib`, and in
      them the needed names `names`. */
  ghost predicate Written(d: seq<byte>, skipped: seq<byte>, header: E.ElfHeader, phs: seq<E.ProgramHeader>,
                          es: seq<E.DynamicEntry>, lib: seq<byte>, strtab: nat, strsz: nat, names: seq<MI.Name>)
  {
    && EW.LaidOut(d, skipped, header, phs, es, lib)
    && DT.First(es, 0x6100_0035, strtab) && DT.First(es, 0x6100_0037, strsz)
    && DT.NeededStand(es, lib, strtab, strsz, names)
  }

  lemma WrittenNeeds(d: seq<byte>, skipped: seq<byte>, header: E.ElfHeader, phs: seq<E.ProgramHeader>,
                     es: seq<E.DynamicEntry>, lib: seq<byte>, strtab: nat, strsz: nat, names: seq<MI.Name>)
    requires Written(d, skipped, header, phs, es, lib, strtab, strsz, names)
    ensures E.ParseFile(d).Ok? && MI.NeededModules(E.ParseFile(d).value) == names
  {
    hide EW.LaidOut, DT.First, DT.NeededStand, E.ParseFile, MI.NeededIn;
    var elf := EW.ParsesLayout(d, skipped, header, phs, es, lib);
    DT.ReadsNeeded(es, es, lib, strtab, strsz, names);
  }

  /** From a fresh linker: if the file of any module that was loaded has this layout, each name
      written in its DT_NEEDED and import-library entries, and present on disk, is loaded when
      the load returns, unless its file is none that loads into the space that is left. */
  lemma WrittenNameIsLoaded(h: Host, st: State, path: Path, i: nat, name: MI.Name, skipped: seq<byte>,
                            header: E.ElfHeader, phs: seq<E.ProgramHeader>, es: seq<E.DynamicEntry>, lib: seq<byte>,
                            strtab: nat, strsz: nat, names: seq<MI.Name>)
    requires Sane(h, st) && st.modules == []
    requires i < |Load(h, st, path).0.modules|
    requires var m := Load(h, st, path).0.modules[i];
             && m.file in h.disk
             && Written(h.disk[m.file], skipped, header, phs, es, lib, strtab, strsz, names)
             && Present(h.disk, m.file.dir, name)
    requires name in names
    ensures var st' := Load(h, st, path).0;
            && Tiles(st'.areas, h.base, h.end)
            && (name in Names(st'.modules)
                || !Loadable(h, st'.areas, Chosen(h.disk, st'.modules[i].file.dir, name)))
  {
    hide Load, LoadOutcome, Loadable, Written, MI.NeededModules, Names, Tiles, TrustedHost, E.ParseFile, Present;
    var m := Load(h, st, path).0.modules[i];
    assert IsFile(h, m);
    WrittenNeeds(h.disk[m.file], skipped, header, phs, es, lib, strtab, strsz, names);
    NeededIsLoaded(h, st, path, i, name);
  }

  /** The requested module itself is the file at its path, or the load failed for that file. */
  lemma RequestedIsFile(h: Host, st: State, path: Path)
    requires Sane(h, st) && st.modules == [] && Load(h, st, path).1.Ok?
    ensures var (st', r) := Load(h, st, path);
            && r.value < |st'.modules| && st'.modules[r.value].file == path && path in h.disk
            && E.ParseFile(h.disk[path]) == Ok(st'.modules[r.value].elf)
  {
    hide LoadOutcome, LoadAll, Tiles, TrustedHost, UniqueNames, Names, Files, InPlace, TlsNumbered, E.ParseFile;
    assert LoadOutcome(h, st.areas, path).Ok?;
    PushKeepsSane(h, st, path);
    PushedModule(h, st, path);
    var st1 := Pushed(h, st, path);
    var st' := Load(h, st, path).0;
    assert Grows(st1, st');
    assert st'.modules[0] == st1.modules[0];
    assert IsFile(h, st'.modules[0]);
  }
}
