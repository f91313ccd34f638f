# Verification of the anotherps4 core

A Dafny model of the emulator's path from memory to a running command stream:
allocate direct and virtual memory, parse ELF, SELF and PARAM.SFO files, load
a module and its dependencies, patch and relocate it, dispatch its traps, and
process the PM4 commands and kernel events it produces. `dafny verify
dfyconfig.toml` checks the whole project.

Code that changes things in place is modelled that way: the two memory
managers, the linker, the symbol and stub tables, the thread table, the event
queue and the command processor are classes over maps, sequences and arrays;
parsers, patchers and packet writers are methods with the source's loops. Each
is proved equal to a function on values, and the theorems are about those
functions.

| file | what it holds |
|---|---|
| `Types.dfy`, `Bytes.dfy`, `Wrappers.dfy` | 64-bit mask arithmetic, little-endian words, options and results |
| `Tiling.dfy` | address ranges in an ordered map, and the flat map from byte to attributes they stand for |
| `PhysicalMemory.dfy` | carving, marking, merging and searching direct memory, on sequences of areas |
| `PhysicalRuns.dfy`, `PhysicalDepartures.dfy`, `PhysicalManager.dfy` | whole runs with the callers' grants; where the merging loop departs from its comment; the class |
| `VirtualMemory.dfy`, `VirtualRuns.dfy`, `VirtualManager.dfy` | overwriting and searching the VMA map; whole runs; the class |
| `Psf.dfy` | the PARAM.SFO parser, a serializer of its layout, the round trip |
| `Elf.dfy`, `ElfWriter.dfy` | the ELF and SELF parser; the layout of its tables, and that files with this layout parse to exactly them |
| `SelfRefinement.dfy`, `SelfWriter.dfy` | a SELF parses like the ELF it wraps; making such a SELF from any ELF |
| `ModuleImage.dfy`, `DynamicTables.dfy` | the module image and dynamic tables; the layout of relocation, symbol and string tables |
| `Patches.dfy` | the two patching loops |
| `Linker.dfy`, `NamedDependencies.dfy` | recursive loading; the names written in a file are what is loaded for it |
| `Symbols.dfy`, `Stubs.dfy`, `Relocation.dfy` | symbol lookup, trampolines, relocation |
| `RelocatedImage.dfy`, `LoadedProgram.dfy` | relocation over one loaded image, and over everything the linker loaded |
| `Dispatcher.dfy`, `PatchedProgram.dfy` | host thread bases, the illegal-instruction handler, an import call end to end; the same after system calls were patched |
| `Pm4.dfy`, `EventQueue.dfy` | the command stream and its writers; the event queue under every interleaving |

## Where the code and its description differ

The model follows the code; each difference is a theorem.

- The comment on `merge_adjacent` (`crates/core/src/memory/physical_memory.rs`,
  line 194) says that free areas are merged, but `can_merge_with` also accepts
  two allocated neighbours. `HeldGrantsAreJoined` is a reachable run in which
  two grants that are still held become one area and can no longer be freed.
- The same loop reads its keys once (line 197) and looks a key up again after
  removing it (lines 204 and 210). It panics exactly when a pair of areas
  before the last pair can merge (`MergeAdjacent`), which an ordinary run
  reaches (`FirstReleasePanics`). `AsWrittenMeetsDescriptionIff` says exactly
  when the loop does what its comment says; `RepairedMergeAdjacent`, which
  carries the surviving key and joins free areas only, always does, and the
  theorems over whole runs are about it.
- `find_free_region` sees one area at a time and areas are never merged, so it
  can fail although enough adjacent space is free (`SearchMissesSplitSpace`),
  one unmap away from boot (`SearchMissIsReached`).
- Segments are copied to `base + vaddr - min_addr` but relocations write at
  `base + offset`, so a relocation lands `min_addr` bytes behind the word it
  names: on it in modules linked at zero (`RelocationReachesWord`), partly on
  it below eight, and past it from there on (`NamedWordBytes`).
- `patch_syscalls` runs over the main executable's whole mapping after
  relocation and rewrites 0x0F 0x05 pairs inside relocated words too. A stub
  address survives in its slot exactly when it contains no such pair
  (`BoundSlotSurvivesIff`); `StubAddressIsCorrupted` is one that does not.
- The addend is added to GLOB_DAT and JUMP_SLOT relocations, which the System V
  AMD64 psABI does not do (`FollowsPsAbiIff`).

## Model

| member | source | states |
|---|---|---|
| `Types.AlignUpIsLeastMultiple` | crates/common/src/types.rs:35-38 | For a power of two the mask expression is the least multiple at or above the value |
| `Types.AlignDownIsGreatestMultiple` | crates/common/src/types.rs:42-44 | For a power of two it is the greatest multiple at or below the value |
| `Types.IsAlignedMeansMultiple` | crates/common/src/types.rs:48-50 | The test accepts exactly the multiples, which are exactly the fixed points of aligning up |
| `Types.EffectiveAlignment` | crates/core/src/memory/physical_memory.rs:85 | What an alignment is raised to is a multiple of the page, and of the alignment itself where that is a power of two; anything up to a page counts as a page |
| `Tiling.VisitedInOrder` | crates/core/src/memory/physical_memory.rs:88-88 | Iterating the ordered map visits the areas in address order |
| `Tiling.SizesConserved` | crates/core/src/memory/physical_memory.rs:41-70 | However the attributes of a partition are divided in two, the two total sizes add up to the region |
| `PhysicalMemory.FreeRangeInOneArea` | crates/core/src/memory/physical_memory.rs:88-96 | While free space is coalesced, a free byte range lies inside one free area, which is what makes a search over areas complete |
| `PhysicalMemory.FirstFitIsLeastGrantable` | crates/core/src/memory/physical_memory.rs:85-121 | The search finds the least aligned address in the window whose whole range is free, and fails exactly when there is no such address |
| `PhysicalMemory.SplitAtIsUpdate` | crates/core/src/memory/physical_memory.rs:153-191 | Splitting an area into up to three pieces keeps the partition and changes the flat byte map on the carved range only |
| `PhysicalMemory.GrantKeepsManaged` | crates/core/src/memory/physical_memory.rs:96-105 | A grant keeps the partition and leaves no two free areas side by side |
| `PhysicalMemory.JoinKeepsFlatMap` | crates/core/src/memory/physical_memory.rs:209-213 | Joining two areas that `can_merge_with` accepts keeps the partition and the byte map |
| `PhysicalMemory.CoalesceKeepsFlatMap` | crates/core/src/memory/physical_memory.rs:194-215 | The described merging (one pass, surviving area carried, free areas only) keeps the partition and the byte map |
| `PhysicalMemory.CoalesceSeparatesFree` | crates/core/src/memory/physical_memory.rs:194-215 | Afterwards no two neighbouring areas are free |
| `PhysicalMemory.CoalesceKeepsAllocated` | crates/core/src/memory/physical_memory.rs:194-215 | No allocated area appears, disappears or changes |
| `PhysicalMemory.CoalesceFixpoint` | crates/core/src/memory/physical_memory.rs:194-215 | Coalesced areas are left as they are |
| `PhysicalMemory.AsWrittenMeetsDescriptionIff` | crates/core/src/memory/physical_memory.rs:34-38 | The loop as written gives the described result if and only if no pair before the last can merge and the last pair, if it merges, is free |
| `PhysicalMemory.AsWrittenKeepsManaged` | crates/core/src/memory/physical_memory.rs:195-215 | Whenever the loop as written completes, the partition, the byte map and the separation of free areas hold |
| `PhysicalMemory.MarkIsUpdate` | crates/core/src/memory/physical_memory.rs:102-105 | Setting the state of an area changes the byte map on that area only |
| `PhysicalMemory.ReleaseIsUpdate` | crates/core/src/memory/physical_memory.rs:125-134 | A described release frees exactly the named area's bytes and keeps the invariant |
| `PhysicalMemory.AllocateThenRelease` | crates/core/src/memory/physical_memory.rs:125-215 | Releasing a grant just made restores the exact areas, merging back across both neighbours |
| `PhysicalRuns.StepKeepsSafe` | crates/core/src/memory/physical_memory.rs:78-134 | Every request keeps: each held address is an allocated area of its own, aligned to a page and to the power of two asked for, and each allocated area is held |
| `PhysicalRuns.SafeServes` | crates/core/src/memory/physical_memory.rs:125-134 | A holder's range is allocated memory and giving it back with its own size is accepted |
| `PhysicalRuns.AllocateThenReleaseRestores` | crates/core/src/memory/physical_memory.rs:78-134 | Stated on the requests: releasing a grant just made restores the areas, and with them the whole record of who holds what |
| `PhysicalRuns.HeldDisjoint` | crates/core/src/memory/physical_memory.rs:78-122 | Held ranges never overlap |
| `PhysicalRuns.BytesConserved` | crates/core/src/memory/physical_memory.rs:51-70 | Free and allocated bytes add up to the total size |
| `PhysicalRuns.EveryRunIsSafe` | crates/core/src/memory/physical_memory.rs:51-134 | Over every run of requests from boot: every holder is served, held ranges never overlap, and free and allocated bytes add up to the total |
| `PhysicalDepartures.FillWithPages` | crates/core/src/memory/physical_memory.rs:78-122 | From boot, `n` one-page requests fill an `m`-page memory from the bottom, whatever `n` and `m` |
| `PhysicalDepartures.FirstReleasePanics` | crates/core/src/memory/physical_memory.rs:197-205 | A reachable failure: with three or more such grants in a memory of at least four pages, the first release makes the loop as written panic |
| `PhysicalDepartures.HeldGrantsAreJoined` | crates/core/src/memory/physical_memory.rs:34-38 | A reachable departure: in a memory filled by three grants, releasing the first joins the other two, and neither can be released any more |
| `PhysicalManager.AllocationHolds` | crates/core/src/memory/physical_memory.rs:78-122 | The areas after a search and split meet every clause `Allocate` promises |
| `PhysicalManager.ReleaseStep` | crates/core/src/memory/physical_memory.rs:125-134 | The abstract release acts on the one area the address and size name, and on nothing when they name none |
| `PhysicalManager.PhysicalMemoryManager.constructor` | crates/core/src/memory/physical_memory.rs:51-70 | The manager boots with one free area |
| `PhysicalManager.PhysicalMemoryManager.Allocate` | crates/core/src/memory/physical_memory.rs:78-122 | The least grantable address, or nothing exactly when there is none; the byte map changes on the grant only; the result is the abstract step |
| `PhysicalManager.PhysicalMemoryManager.MarkArea` | crates/core/src/memory/physical_memory.rs:102-105 | The area at an address gets a new state and nothing else changes |
| `PhysicalManager.PhysicalMemoryManager.CarveArea` | crates/core/src/memory/physical_memory.rs:137-192 | The containing area is replaced by its pieces |
| `PhysicalManager.PhysicalMemoryManager.Free` | crates/core/src/memory/physical_memory.rs:125-134 | As written: refused exactly when no area has this base and size; otherwise exactly that area's bytes become free, and the call panics exactly when a pair before the last can merge |
| `PhysicalManager.PhysicalMemoryManager.AbsorbNext` | crates/core/src/memory/physical_memory.rs:209-213 | One merge: the second area's key goes, the first area grows |
| `PhysicalManager.PhysicalMemoryManager.MergeAdjacent` | crates/core/src/memory/physical_memory.rs:195-215 | The loop as written completes if and only if no pair before the last can merge, then merges at most the last pair; it never changes the byte map |
| `PhysicalManager.PhysicalMemoryManager.RepairedMergeAdjacent` | crates/core/src/memory/physical_memory.rs:194-215 | The repaired loop computes the described coalescing |
| `PhysicalManager.PhysicalMemoryManager.RepairedFree` | crates/core/src/memory/physical_memory.rs:125-134 | With the repaired loop a release is the abstract step and always keeps the invariant |
| `VirtualMemory.OverwriteIsUpdate` | crates/core/src/memory/virtual_memory.rs:256-272 | Carving and inserting is a pointwise update of the address-to-attributes function, wherever the range lies |
| `VirtualMemory.OverwriteKeepsTiles` | crates/core/src/memory/virtual_memory.rs:350-393 | Inside the region it leaves no gap and no overlap |
| `VirtualMemory.OverwriteAddsTwo` | crates/core/src/memory/virtual_memory.rs:350-393 | It adds at most two entries |
| `VirtualMemory.FreeRegionIsLowestRoom` | crates/core/src/memory/virtual_memory.rs:329-347 | The search finds the lowest page-aligned base with room inside a single free area, and fails exactly when no single free area has room |
| `VirtualMemory.RoomWasFree` | crates/core/src/memory/virtual_memory.rs:332-340 | Every byte of the region found was free |
| `VirtualMemory.SearchMissesSplitSpace` | crates/core/src/memory/virtual_memory.rs:329-347 | Because areas are never merged the search can fail although twice the space is free, for free halves of any page count |
| `VirtualMemory.SearchIsCompleteWhenSeparate` | crates/core/src/memory/virtual_memory.rs:329-347 | It misses no free bytes while no two free areas are neighbours |
| `VirtualMemory.MappingShrinksRoom` | crates/core/src/memory/virtual_memory.rs:256-272 | Mapping never makes room |
| `VirtualRuns.TargetInRange` | crates/core/src/memory/virtual_memory.rs:245-250 | A call that is not FIXED takes only free bytes inside the region |
| `VirtualRuns.StepKeepsTiles` | crates/core/src/memory/virtual_memory.rs:236-308 | Each call keeps the partition, adds at most two areas and is a pointwise update |
| `VirtualRuns.EveryRunPartitions` | crates/core/src/memory/virtual_memory.rs:152-308 | Over every run the areas partition the region, their sizes add up to it, and there are at most two more per call |
| `VirtualRuns.LastWriteWins` | crates/core/src/memory/virtual_memory.rs:236-308 | Over every run a byte has the attributes of the last call that covered it |
| `VirtualRuns.NeverWrittenStaysFree` | crates/core/src/memory/virtual_memory.rs:152-176 | A byte no call covered is as it was at boot |
| `VirtualRuns.SearchMissIsReached` | crates/core/src/memory/virtual_memory.rs:287-347 | The search's failure is one call from boot: after unmapping the lower half of untouched space nothing larger than a half can be mapped, although every byte is free |
| `VirtualManager.CarvedIsClips` | crates/core/src/memory/virtual_memory.rs:350-393 | Trimming the overlapping areas one by one leaves what lies below the range and what lies above it |
| `VirtualManager.CarveOne` | crates/core/src/memory/virtual_memory.rs:365-392 | One round of the carving loop replaces one overlapping area by its pieces in the ordered map |
| `VirtualManager.HoleFilled` | crates/core/src/memory/virtual_memory.rs:261-271 | Inserting the new area into the carved hole gives the overwritten areas |
| `VirtualManager.FlagsDecide` | crates/core/src/memory/virtual_memory.rs:245-250 | Flag 0x10 and a non-zero address fix a mapping whatever the other flags, and flag 0x400000 is recorded against merging |
| `VirtualManager.CommonFlags` | crates/core/src/memory/virtual_memory.rs:245-250 | Flags 0x1012 place at the given address, flags 0x1002 search |
| `VirtualManager.MemoryManager.constructor` | crates/core/src/memory/virtual_memory.rs:165-176 | The map starts with one free area over the user region |
| `VirtualManager.MemoryManager.FindFreeRegion` | crates/core/src/memory/virtual_memory.rs:329-347 | The loop over the map finds the specified region |
| `VirtualManager.MemoryManager.CollectOverlapping` | crates/core/src/memory/virtual_memory.rs:358-363 | Collects the bases of exactly the overlapping areas, in order |
| `VirtualManager.MemoryManager.CarveVma` | crates/core/src/memory/virtual_memory.rs:350-393 | The map holds what every area leaves outside the range |
| `VirtualManager.MemoryManager.Replace` | crates/core/src/memory/virtual_memory.rs:258-271 | Carve and insert give the overwritten areas and keep the partition |
| `VirtualManager.MemoryManager.MapMemory` | crates/core/src/memory/virtual_memory.rs:236-284 | Errors change nothing; success places the range as requested, overwrites it and is the abstract step; no region is found exactly when no free area has room |
| `VirtualManager.MemoryManager.UnmapMemory` | crates/core/src/memory/virtual_memory.rs:287-308 | The range becomes one free area, or nothing changes; in range it is the abstract step |
| `Psf.Parse` | crates/formats/src/psf.rs:135-226 | The cursor-driven parser computes the specified result for every input, error cases included |
| `Psf.ReadIndexTable` | crates/formats/src/psf.rs:160-170 | The index table is read whole, or the file ends inside it |
| `Psf.ReadEntries` | crates/formats/src/psf.rs:172-223 | Entries are inserted in order; the first malformed one decides the error |
| `Psf.ReadKey` | crates/formats/src/psf.rs:180-187 | A key is the bytes up to a zero; a file ending first is an error |
| `Psf.ReadsEntry` | crates/formats/src/psf.rs:292-348 | In a file with the documented layout, entry `i` read through its three tables is entry `i` |
| `Psf.ParsesLayout` | crates/formats/src/psf.rs:135-226 | Parsing any file with that layout gives its version and the meaning of its entries |
| `Psf.ParsesEitherMagic` | crates/formats/src/psf.rs:138-226 | The same file is read alike with the magic in either byte order, every other word keeping its own |
| `Psf.RoundTrip` | crates/formats/src/psf.rs:135-226 | Writing entries and parsing them back gives the version and the meaning of the entries |
| `Psf.LastEntryWins` | crates/formats/src/psf.rs:222-222 | Under a duplicate key the last entry counts |
| `Psf.RefusesMagic` | crates/formats/src/psf.rs:138-170 | Another magic, a short header and a cut index are refused |
| `Psf.RefusesValues` | crates/formats/src/psf.rs:194-219 | Unknown formats, text that is no UTF-8 and values cut off are refused, each with its error |
| `Psf.ReadsEmptyText` | crates/formats/src/psf.rs:205-213 | Text of length zero or one is empty |
| `Psf.RefusesEntries` | crates/formats/src/psf.rs:180-197 | A key without an end or that is no UTF-8 is refused; otherwise the value decides |
| `Psf.FirstRefusalDecides` | crates/formats/src/psf.rs:175-223 | The first refused entry is the error of the file |
| `Psf.MapRoundTrip` | crates/formats/src/psf.rs:135-226 | Every map that fits the offset widths survives the trip, in whatever order it is written |
| `Elf.Parse` | crates/core/src/loader/elf.rs:475-627 | The parser computes the specified result for every input |
| `Elf.ReadElf` | crates/core/src/loader/elf.rs:491-627 | Header, program headers and dynamic data from the ELF offset on |
| `Elf.ReadSelfSegments` | crates/core/src/loader/elf.rs:831-845 | The segment table is read whole, or the file ends inside it, and the cursor stands behind it |
| `Elf.ReadProgramHeaders` | crates/core/src/loader/elf.rs:495-500 | The program headers are read whole, or the file ends inside them |
| `Elf.FindDynamicHeaders` | crates/core/src/loader/elf.rs:506-516 | The last header of each of the two types is used |
| `Elf.ReadDynamicEntries` | crates/core/src/loader/elf.rs:560-576 | Entries up to the null tag, the header's size or the end of the file |
| `Elf.ReadDynamicParts` | crates/core/src/loader/elf.rs:541-606 | Both dynamic parts are read at their resolved offsets, truncated where the file ends |
| `Elf.OwnSegment` | crates/core/src/loader/elf.rs:700-705 | The first blocked segment with the header's own id |
| `Elf.EnclosingSegment` | crates/core/src/loader/elf.rs:709-722 | The first blocked segment whose header's file range holds the offset |
| `Elf.ChildFollowsParent` | crates/core/src/loader/elf.rs:700-722 | What resolves through a parent lies as far into the parent's resolved bytes as into its ELF bytes |
| `Elf.OffsetIsCursorPosition` | crates/core/src/loader/elf.rs:645-656 | The offset recomputed from the SELF header is where the cursor stood, so later lookups resolve as the parser's did |
| `SelfRefinement.ResolvesToBytes` | crates/core/src/loader/elf.rs:688-725 | Every header with a place in the SELF has its ELF bytes at its resolved offset |
| `SelfRefinement.DisjointParentsPlace` | crates/core/src/loader/elf.rs:709-722 | With disjoint parent ranges, lying inside some parent is a place |
| `SelfRefinement.SelfParsesLikeElf` | crates/core/src/loader/elf.rs:475-627 | A decrypted SELF around an ELF parses, with the same header, program headers and dynamic entries, and library data that are the bytes of its header in the ELF |
| `SelfRefinement.SelfHoldsElfBytes` | crates/core/src/loader/elf.rs:671-680 | The bytes the loader reads for any consulted header are those of the plain ELF |
| `SelfWriter.SegmentPointsAtBytes` | crates/core/src/loader/elf.rs:831-845 | In a SELF that wraps an ELF with one blocked segment per header, the parser reads segment `k` as header `k`'s and it points at that header's bytes |
| `SelfWriter.ReadsFullHeader` | crates/core/src/loader/elf.rs:811-829 | A SELF header written out field by field is read back, whatever the padding |
| `SelfWriter.ReadsSegment` | crates/core/src/loader/elf.rs:836-843 | A segment record written out is read back |
| `SelfWriter.MadeSelfWraps` | crates/core/src/loader/elf.rs:475-627 | Such a SELF, whatever the distance to its segments, meets every hypothesis of the refinement |
| `SelfWriter.WrapThenLoad` | crates/core/src/linker/module.rs:69-214 | Wrapping and loading is loading: for every ELF whose headers lie in the file, the SELF made from it parses and loads to the same program and image |
| `ElfWriter.TypeOfOwnCode` | crates/core/src/loader/elf.rs:189-212 | Every raw program header type survives decoding: known codes have their own type and all others are kept |
| `ElfWriter.ReadsElfHeader` | crates/core/src/loader/elf.rs:847-893 | An ELF header written out field by field is read back, whatever the bytes the loader skips |
| `ElfWriter.ReadsProgramHeader` | crates/core/src/loader/elf.rs:895-910 | A program header written out field by field is read back |
| `ElfWriter.ReadsEntries` | crates/core/src/loader/elf.rs:560-576 | Dynamic entries written out, and ended by a null tag unless they fill the header's size, are read back exactly |
| `ElfWriter.ParsesLayout` | crates/core/src/loader/elf.rs:475-627 | Any file in which these tables stand where its headers say parses to exactly its header, program headers, dynamic entries and library bytes, the last as far as the file goes |
| `ElfWriter.ReadsLibrary` | crates/core/src/loader/elf.rs:593-605 | The library bytes are those that stand at their offset: all of them, or those before the file ends |
| `ElfWriter.DropsOtherFlags` | crates/core/src/loader/elf.rs:902-902 | Program header flag bits above the three defined ones are dropped |
| `ElfWriter.RefusesHeaders` | crates/core/src/loader/elf.rs:476-493 | Each way the first bytes are refused, in order: too short, no magic of either format, another class, byte order or machine |
| `ElfWriter.RefusesCutTable` | crates/core/src/loader/elf.rs:496-500 | A program header table cut off by the end of the file is refused |
| `ModuleImage.ComputeExtent` | crates/core/src/linker/module.rs:83-91 | The loop computes lowest start and highest end of the LOAD segments |
| `ModuleImage.ExtentSpans` | crates/core/src/linker/module.rs:83-91 | The extent spans every LOAD segment |
| `ModuleImage.ExtentIsTight` | crates/core/src/linker/module.rs:83-95 | Its ends are those of some LOAD segments, and without any it is empty |
| `ModuleImage.CopiesStayInside` | crates/core/src/linker/module.rs:97-131 | With file sizes within memory sizes, no copy leaves the page-aligned mapping |
| `ModuleImage.CopySegments` | crates/core/src/linker/module.rs:116-139 | The loop leaves the specified image in the zeroed mapping |
| `ModuleImage.CopyBytes` | crates/core/src/linker/module.rs:127-131 | One segment copy writes its range and nothing else |
| `ModuleImage.LastCopyWins` | crates/core/src/linker/module.rs:118-139 | A byte is that of the last segment copied over it |
| `ModuleImage.UncopiedIsZero` | crates/core/src/linker/module.rs:118-139 | A byte nothing was copied over is zero |
| `ModuleImage.SegmentAppears` | crates/core/src/linker/module.rs:118-139 | With disjoint copies every copied segment appears byte for byte |
| `ModuleImage.FileSegmentAppears` | crates/core/src/linker/module.rs:118-139 | In a plain ELF exactly the LOAD segments with in-bounds file bytes are copied, and each appears as the bytes at its file offset |
| `ModuleImage.SelfImageIsElfImage` | crates/core/src/linker/module.rs:118-139 | A SELF and the ELF it wraps leave the same image |
| `ModuleImage.SelfLoadsLikeElf` | crates/core/src/linker/module.rs:69-214 | Headers, needed modules, relocations and image of a SELF all equal those of the plain ELF |
| `ModuleImage.StringAt` | crates/core/src/loader/elf.rs:787-792 | A table string runs from its offset to a zero or the end of the data |
| `ModuleImage.ReadRelocationTable` | crates/core/src/linker/module.rs:235-265 | The loop reads the specified table, or panics exactly where the specification says |
| `ModuleImage.ReadRelocations` | crates/core/src/linker/module.rs:217-302 | Standard relocations, then jump slots; nothing without the symbol and string tables |
| `DynamicTables.ReadsString` | crates/core/src/linker/module.rs:226-232 | A null-terminated name in the string table is read back |
| `DynamicTables.ReadsSymbol` | crates/core/src/linker/module.rs:244-252 | A symbol record gives its name, binding and type; index zero gives none |
| `DynamicTables.ReadsRelocation` | crates/core/src/linker/module.rs:236-263 | A relocation entry written out, read through its symbol and name, is that relocation |
| `DynamicTables.ReadsTable` | crates/core/src/linker/module.rs:235-265 | A table of such entries is read as exactly its relocations, in order |
| `DynamicTables.ReadsNameless` | crates/core/src/linker/module.rs:244-252 | A symbol outside its table or cut off is no symbol; a name outside the string table is empty |
| `DynamicTables.CutEntries` | crates/core/src/linker/module.rs:237-239 | An entry the data cuts off is skipped, and one behind the data panics |
| `DynamicTables.FindsFirst` | crates/core/src/loader/elf.rs:749-754 | A lookup by tag finds exactly the first entry with it |
| `DynamicTables.NoTables` | crates/core/src/linker/module.rs:220-235 | Without its symbol or string table entries, or without address or size, there are no relocations |
| `DynamicTables.ReadsDynamicString` | crates/core/src/loader/elf.rs:768-793 | The string at an offset is the null-terminated one in the string table, and empty outside it |
| `DynamicTables.ReadsNeeded` | crates/core/src/loader/elf.rs:796-807 | The needed modules are exactly the non-empty strings of the DT_NEEDED (0x1) and import-library (0x61000015) entries, in entry order |
| `DynamicTables.NeedsNothing` | crates/core/src/loader/elf.rs:769-776 | Without a string table nothing is needed |
| `DynamicTables.ReadsBothTables` | crates/core/src/linker/module.rs:217-302 | The two tables that the dynamic section names, by the format's tag numbers, are read as exactly their relocations, the standard ones first |
| `Patches.PatchAssertionTraps` | crates/core/src/linker/mod.rs:98-124 | Exactly the occurrences of the pattern in the original bytes are rewritten, nothing else changes, and the count is theirs |
| `Patches.TrapsApart` | crates/core/src/linker/mod.rs:98-120 | Occurrences never overlap, so skipping six bytes misses none |
| `Patches.TrapCountIsSize` | crates/core/src/linker/mod.rs:119-126 | The count is the number of occurrences |
| `Patches.TrapInContext` | crates/core/src/linker/mod.rs:98-124 | One occurrence becomes the replacement bytes, and what stands on either side of it is patched on its own |
| `Patches.NoTrapRemains` | crates/core/src/linker/mod.rs:98-124 | No occurrence survives or is created |
| `Patches.PatchIsUnique` | crates/core/src/linker/mod.rs:98-124 | The description determines the patched bytes |
| `Patches.PatchIsIdempotent` | crates/core/src/linker/mod.rs:98-124 | Patching patched code changes nothing |
| `Patches.PatchSyscalls` | crates/core/src/hle/dispatcher.rs:466-487 | Every `syscall` becomes `ud2`, nothing else changes, and the count is exact |
| `Patches.SyscallCountIsSize` | crates/core/src/hle/dispatcher.rs:480-486 | The count is the number of `syscall` pairs |
| `Patches.SurvivesIff` | crates/core/src/hle/dispatcher.rs:466-487 | Bytes survive patching if and only if no `syscall` pair ends among them |
| `Patches.SyscallInContext` | crates/core/src/hle/dispatcher.rs:466-487 | One `syscall` becomes `ud2`, and what stands on either side of it is patched on its own |
| `Patches.NoSyscallRemains` | crates/core/src/hle/dispatcher.rs:466-487 | None remains, so patching again changes nothing |
| `Linker.Load` | crates/core/src/linker/mod.rs:57-153 | The search ends on every finite, possibly cyclic dependency graph, keeps names unique and every module's image and mapping in place, and only adds modules and takes free space |
| `Linker.LoadAll` | crates/core/src/linker/mod.rs:133-150 | Visiting a list of dependencies ends too, keeps the same invariant and only adds modules and takes free space |
| `Linker.PushKeepsSane` | crates/core/src/linker/mod.rs:69-85 | Pushing a module keeps names unique and mappings in place, and shrinks the set of names left to load |
| `Linker.LoadsIff` | crates/core/src/linker/module.rs:69-107 | A file loads exactly when it is there and parses, a LOAD segment starts below the top, and one free area holds pages enough for all of them, not none; the first of these to fail names the error |
| `Linker.FailurePersists` | crates/core/src/linker/mod.rs:140-146 | A file that could not be loaded cannot be loaded after more modules were |
| `Linker.LoadKeepsPromise` | crates/core/src/linker/mod.rs:57-153 | Every load settles the modules it added, returns an index naming the requested module, and changes nothing when it fails |
| `Linker.DependenciesSettle` | crates/core/src/linker/mod.rs:133-150 | After the loop every listed dependency is loaded, absent from disk, or impossible to load |
| `Linker.TopLevelLoad` | crates/core/src/linker/mod.rs:57-153 | From a fresh linker: unique names, the right index, mappings that lie apart, and every dependency of every loaded module loaded, absent or impossible to load |
| `Linker.FindsBesideFirst` | crates/core/src/linker/mod.rs:134-149 | A file beside the module is preferred to one in its module directory, and nothing is found only when there is neither |
| `NamedDependencies.NeededIsLoaded` | crates/core/src/linker/mod.rs:130-150 | From a fresh linker, a needed name of any loaded module that is on disk is loaded, or its file is none that loads into the space left |
| `NamedDependencies.WrittenNeeds` | crates/core/src/loader/elf.rs:796-807 | A file whose dynamic section and string table hold these names needs exactly them |
| `NamedDependencies.WrittenNameIsLoaded` | crates/core/src/linker/mod.rs:57-153 | From the bytes on: each name written in a loaded file's DT_NEEDED and import-library entries, and present on disk, is loaded when the load returns, unless its file is none that loads into the space left |
| `NamedDependencies.RequestedIsFile` | crates/core/src/linker/mod.rs:57-85 | The module returned is the file at the requested path |
| `Linker.MappingIsLeast` | crates/core/src/linker/module.rs:83-97 | The mapping starts at the lowest LOAD address and is the least whole number of pages that reaches past every LOAD segment |
| `Linker.TlsNumbersDiffer` | crates/core/src/linker/module.rs:163-166 | Modules with a TLS segment have numbers of their own, ascending in load order |
| `Linker.ModuleIsCode` | crates/core/src/linker/module.rs:100-107 | Every byte of a mapping is readable, writable and executable code under its module's name |
| `Linker.ModulesApart` | crates/core/src/linker/module.rs:99-107 | Loaded modules occupy disjoint ranges: every byte of a mapping is code of its module's name |
| `Linker.ModulesInside` | crates/core/src/linker/module.rs:99-107 | They lie inside the user region |
| `Linker.OwnedStaysOwned` | crates/core/src/memory/virtual_memory.rs:236-284 | A mapping made from free bytes takes none of a loaded module's |
| `Linker.WellSizedIsTrusted` | crates/core/src/linker/module.rs:83-139 | Files whose segments have room for their file bytes meet what the loader relies on |
| `Linker.Linker.constructor` | crates/core/src/linker/mod.rs:35-44 | No modules and no TLS index yet |
| `Linker.Linker.LoadFile` | crates/core/src/linker/module.rs:69-214 | Parsing, mapping and copying one file gives the specified module or the specified error, which changes nothing |
| `Linker.Linker.FillModule` | crates/core/src/linker/module.rs:116-178 | The copied image, the relocations and the next TLS index |
| `Linker.FindTls` | crates/core/src/loader/elf.rs:728-732 | Whether there is a TLS header |
| `Linker.Linker.LoadModule` | crates/core/src/linker/mod.rs:57-153 | The recursive method computes the specified search and terminates |
| `Linker.Linker.PatchModule` | crates/core/src/linker/mod.rs:91-128 | The main executable's traps are patched; other modules are left alone |
| `Linker.Linker.LoadDependencies` | crates/core/src/linker/mod.rs:134-150 | The loop loads each dependency found beside the module or in its module directory |
| `Symbols.SymbolResolver.constructor` | crates/core/src/loader/symbols.rs:53-57 | No symbols |
| `Symbols.SymbolResolver.AddSymbol` | crates/core/src/loader/symbols.rs:60-63 | The NID resolves to the record from then on and no other NID changes |
| `Symbols.SymbolResolver.Resolve` | crates/core/src/loader/symbols.rs:71-83 | The NID's address, else that of a record with the name, else nothing |
| `Symbols.ResolutionIsDetermined` | crates/core/src/loader/symbols.rs:71-83 | Whether a lookup finds anything never depends on iteration order, and the address does not when same-named records share it |
| `Stubs.StubAllocator.constructor` | crates/core/src/hle/stubs.rs:32-72 | Every slot of the region traps on its first two bytes and is padded with NOPs |
| `Stubs.StubAllocator.NextStub` | crates/core/src/hle/stubs.rs:75-83 | The next slot and its name, until 4096 are used |
| `Stubs.StubAllocator.AllocateStub` | crates/core/src/hle/stubs.rs:94-101 | The same, with address zero when none is left |
| `Stubs.StubIsIdentified` | crates/core/src/hle/stubs.rs:104-147 | A stub's address finds its index and name however many stubs came later, and no two share an address |
| `Stubs.SlotBelongsToStub` | crates/core/src/hle/stubs.rs:135-147 | Every byte of a slot belongs to its stub |
| `Relocation.ApplyRelocation` | crates/core/src/linker/relocation.rs:13-86 | One relocation performs the specified step |
| `Relocation.RelocateAll` | crates/core/src/linker/mod.rs:166-190 | The nested loops perform all steps in module and table order |
| `Relocation.SlotHoldsValue` | crates/core/src/linker/relocation.rs:13-86 | With disjoint slots, every slot ends with its own relocation's value |
| `Relocation.BaseNameIs` | crates/core/src/linker/relocation.rs:36-36 | A name is looked up under its part before the first # |
| `Relocation.SlotMeaning` | crates/core/src/linker/relocation.rs:19-77 | After the pass a slot reads, by relocation type number: base plus addend; a symbol found under its name before the #, else under its full name, plus addend; its own stub plus addend, or the addend once stubs ran out; the addend without a name; or one |
| `Relocation.RegisteredNidIsReached` | crates/core/src/linker/relocation.rs:38-41 | A symbol registered under the NID is what the slot refers to |
| `Relocation.RegisteredNameIsReached` | crates/core/src/linker/relocation.rs:38-41 | Failing that a record of that name, and then the full name as NID and as record name |
| `Relocation.OtherTypesWriteNothing` | crates/core/src/linker/relocation.rs:78-84 | Other relocation types write nothing |
| `Relocation.OtherBytesUnchanged` | crates/core/src/linker/relocation.rs:13-86 | No byte outside the slots changes |
| `Relocation.StubsInUse` | crates/core/src/linker/relocation.rs:42-56 | One stub per unresolved import, up to 4096, earlier ones kept |
| `Relocation.ImportHasItsStub` | crates/core/src/linker/relocation.rs:42-56 | Every unresolved import is recorded by name under the stub its slot refers to, until the stubs are used up |
| `Relocation.ImportIsRecorded` | crates/core/src/linker/relocation.rs:45-56 | The name recorded for an unresolved import is the known one of its part before the #, else its full name |
| `Relocation.StubNumbersDiffer` | crates/core/src/linker/relocation.rs:42-56 | Different unresolved imports get different stubs |
| `Relocation.NeedsStubIff` | crates/core/src/linker/relocation.rs:34-56 | An import gets a stub exactly when neither its base name nor its full name is a registered NID or name |
| `Relocation.FollowsPsAbiIff` | crates/core/src/linker/relocation.rs:23-69 | The value is that of section 4.4.1 of the System V AMD64 psABI if and only if the type is not a GOT entry or the addend is zero |
| `RelocatedImage.UntrappedBytes` | crates/core/src/linker/mod.rs:91-128 | Patching assertion traps leaves the copied bytes outside them |
| `RelocatedImage.CopiedBytes` | crates/core/src/linker/module.rs:123-131 | Before relocation the memory holds the file's bytes of every copied segment, outside patched traps, at base + vaddr - min_addr |
| `RelocatedImage.UntouchedBytesAreFile` | crates/core/src/linker/mod.rs:166-190 | After relocation it still does wherever no slot lies |
| `RelocatedImage.RelocationReachesWord` | crates/core/src/linker/relocation.rs:19-19 | In a module linked at zero the word a relocation names ends with its value |
| `RelocatedImage.NamedWordBytes` | crates/core/src/linker/relocation.rs:19-27 | For any link address: the first min_addr bytes of the word a relocation names stay the file's and its value begins behind them |
| `LoadedProgram.EveryImageStands` | crates/core/src/linker/module.rs:116-139 | No module's image overwrites another's |
| `LoadedProgram.LoadedImagesStand` | crates/core/src/linker/mod.rs:57-153 | Whatever was loaded, each module's image, patched or not, stands at its base in the one guest memory |
| `LoadedProgram.SlotsOfAll` | crates/core/src/linker/mod.rs:166-190 | With slots inside their modules, the slots of all modules are mapped, and disjoint when each module's own are |
| `LoadedProgram.LoadedProgramRelocates` | crates/core/src/linker/mod.rs:166-190 | After loading, every relocation of every module leaves in its slot what it means |
| `LoadedProgram.LoadedSlots` | crates/core/src/linker/mod.rs:166-190 | The slots of everything that was loaded are mapped and disjoint |
| `Dispatcher.ThreadFsMap.constructor` | crates/core/src/hle/dispatcher.rs:16-16 | No thread has a base |
| `Dispatcher.ThreadFsMap.RegisterThreadFs` | crates/core/src/hle/dispatcher.rs:18-28 | The thread's base is recorded unless all slots belong to others; no other thread's base changes |
| `Dispatcher.ThreadFsMap.GetThreadFs` | crates/core/src/hle/dispatcher.rs:30-49 | The base in the thread's first slot, zero without one |
| `Dispatcher.EmulateRet` | crates/core/src/hle/dispatcher.rs:208-213 | The return address is popped into RIP |
| `Dispatcher.DispatchStub` | crates/core/src/hle/dispatcher.rs:156-213 | The stub's name is looked up, its host function run, the result stored and the return emulated |
| `Dispatcher.OnSigill` | crates/core/src/hle/dispatcher.rs:84-247 | The handler, over the thread table, the stub table and the saved registers, performs the specified step or ending |
| `Dispatcher.StubCallReturns` | crates/core/src/hle/dispatcher.rs:156-213 | A trap at a stub runs the host function of its name and returns to the pushed address |
| `Dispatcher.ArgumentsAreCallers` | crates/core/src/hle/dispatcher.rs:161-182 | The handler takes the arguments where the caller put them: RDI, RSI, RDX, RCX, R8, R9, the word on top of the caller's stack, XMM0 and XMM1 |
| `Dispatcher.UnservedCallReturnsZero` | crates/core/src/hle/dispatcher.rs:102-118 | On a thread without a host base the same call returns zero at once |
| `Dispatcher.OtherTrapsAbort` | crates/core/src/hle/dispatcher.rs:235-240 | Any other illegal instruction ends the process |
| `Dispatcher.FilledSlotTraps` | crates/core/src/hle/stubs.rs:50-63 | In memory that holds the filled stub region every stub address traps |
| `Dispatcher.PatchedSyscallResumes` | crates/core/src/hle/dispatcher.rs:214-234 | A `syscall` of the original code, executed after patching, resumes right behind itself with zero in RAX and everything else unchanged, unless it asked to exit |
| `Dispatcher.SlotHoldsStub` | crates/core/src/linker/relocation.rs:42-68 | After the pass a bound jump slot holds its stub's address |
| `Dispatcher.ImportCallReturns` | crates/core/src/hle/dispatcher.rs:153-213 | Calling an unresolved import runs the host function recorded for that relocation on the caller's arguments, whatever stubs came later, and resumes after the call with the result in RAX, or in XMM0 with RAX zero, and every other register as before |
| `PatchedProgram.WordSurvivesIff` | crates/anotherps4-bin/src/main.rs:248-260 | A relocated word reads the same after patching if and only if no `syscall` pair ends in it, wherever it lies |
| `PatchedProgram.StubSurvivesIff` | crates/anotherps4-bin/src/main.rs:248-260 | For a stub address in the patched region: if and only if none of its bytes 0x0F is followed by 0x05 |
| `PatchedProgram.StubAddressIsCorrupted` | crates/core/src/hle/dispatcher.rs:477-480 | A stub address that is not kept: 0x7F00_050F_0010 becomes 0x7F00_0B0F_0010 |
| `PatchedProgram.BoundSlotSurvivesIff` | crates/anotherps4-bin/src/main.rs:224-260 | After relocation and patching a bound slot holds its stub if and only if that holds of its stub's address |
| `PatchedProgram.PatchedImportCallReturns` | crates/core/src/hle/dispatcher.rs:153-213 | An import call in the program as it starts, relocated and patched, returns as promised when no pair ended in its slot |
| `Pm4.DecodesOwnCode` | crates/gpu/src/liverpool/pm4.rs:63-114 | Every opcode is decoded from its own code |
| `Pm4.DecodesNothingElse` | crates/gpu/src/liverpool/pm4.rs:63-114 | A decoded code is the opcode's own |
| `Pm4.ParsesOwnHeader` | crates/gpu/src/liverpool/pm4.rs:137-157 | A header made from an opcode and a count is parsed as these |
| `Pm4.WalkPacket` | crates/gpu/src/liverpool/command_processor.rs:40-55 | A packet of any opcode and body executes as that, and the walk goes on behind it |
| `Pm4.RegisterPacket` | crates/gpu/src/liverpool/command_processor.rs:71-103 | Opcodes 0x69, 0x76, 0x68 and 0x79 write their values to consecutive context, shader, config and user registers, whole or cut off |
| `Pm4.IndexBasePacket` | crates/gpu/src/liverpool/command_processor.rs:121-126 | Opcode 0x26 sets the index address to its first dword below its second |
| `Pm4.SingleValuePackets` | crates/gpu/src/liverpool/command_processor.rs:116-136 | Opcodes 0x2A, 0x13 and 0x2F set index type, index size and instance count |
| `Pm4.OtherOpcodesChangeNothing` | crates/gpu/src/liverpool/command_processor.rs:45-55 | Every other opcode, known or not, changes nothing |
| `Pm4.ShortPacketsChangeNothing` | crates/gpu/src/liverpool/command_processor.rs:72-136 | A packet cut off before its operands changes nothing |
| `Pm4.OtherTypesSkipOne` | crates/gpu/src/liverpool/command_processor.rs:35-59 | A dword that is no type 3 header is skipped alone |
| `Pm4.SetRegistersWrite` | crates/gpu/src/liverpool/command_processor.rs:71-103 | Single-register packets write exactly their registers, in order, in the space of their opcode, and nothing else |
| `Pm4.PacketsTile` | crates/gpu/src/liverpool/command_processor.rs:31-60 | The packets of a walk tile the buffer |
| `Pm4.WalkExecutesPackets` | crates/gpu/src/liverpool/command_processor.rs:31-60 | The walk executes them in order |
| `Pm4.WalkJoin` | crates/gpu/src/liverpool/command_processor.rs:28-63 | Processing a concatenation is processing the parts in turn when the first ends on a packet boundary |
| `Pm4.CompleteJoin` | crates/gpu/src/liverpool/command_processor.rs:40-55 | Buffers that end on a boundary join to one that does |
| `Pm4.SpliceIdle` | crates/gpu/src/liverpool/command_processor.rs:28-63 | What executes to nothing can be spliced in at any boundary |
| `Pm4.SpliceInsidePacketMatters` | crates/gpu/src/liverpool/command_processor.rs:40-55 | Inside a packet it cannot: the same two dwords become the packet's body |
| `Pm4.CommandProcessor.constructor` | crates/gpu/src/liverpool/command_processor.rs:19-25 | Registers at their defaults |
| `Pm4.CommandProcessor.ProcessCommandBuffer` | crates/gpu/src/liverpool/command_processor.rs:28-63 | The loop performs the walk and counts one submission |
| `Pm4.CommandProcessor.ProcessType3Packet` | crates/gpu/src/liverpool/command_processor.rs:66-157 | One packet has the specified effect on registers and write trace |
| `Pm4.CommandProcessor.WriteRegisters` | crates/gpu/src/liverpool/command_processor.rs:71-79 | Values go to consecutive registers in order; a body of fewer than two dwords writes nothing |
| `Pm4.WaitFlipIsIdle` | crates/core/src/hle/exports.rs:995-1005 | The wait-flip packet is one whole packet that changes nothing |
| `Pm4.NopPairsAreIdle` | crates/core/src/hle/exports.rs:969-979 | So is any number of padding pairs |
| `Pm4.WritersSpliceFreely` | crates/core/src/hle/exports.rs:969-1005 | Either can be spliced in at any packet boundary without effect |
| `Pm4.InitSequenceIsComplete` | crates/core/src/hle/exports.rs:930-963 | The 126-dword initialisation sequence ends on a packet boundary |
| `Pm4.InitSequenceEffect` | crates/core/src/hle/exports.rs:930-963 | The sequence performs exactly its 42 register writes in order and sets one instance |
| `Pm4.InitBufferActsAsSequence` | crates/core/src/hle/exports.rs:929-980 | The 256 dwords written act exactly as the sequence, and leave no packet open for what follows |
| `Pm4.DrawInitDefaultHardwareState` | crates/core/src/hle/exports.rs:916-988 | A short buffer is refused untouched; otherwise exactly the first 256 dwords are the sequence and its padding |
| `Pm4.PadWithNops` | crates/core/src/hle/exports.rs:969-979 | NOP pairs fill the range, with a zero dword where no pair fits |
| `Pm4.InsertWaitFlipDone` | crates/core/src/hle/exports.rs:989-1010 | Exactly seven dwords are written, and they are the idle packet |
| `EventQueue.StepConserves` | crates/core/src/kernel/equeue.rs:78-99 | Each locked stretch keeps: batches in drain order, then what is pending, are the triggered events |
| `EventQueue.EveryRunConserves` | crates/core/src/kernel/equeue.rs:78-99 | So does every interleaving of any number of threads |
| `EventQueue.EveryBatchIsBounded` | crates/core/src/kernel/equeue.rs:97-98 | No batch exceeds what its waiter asked for |
| `EventQueue.DeliveredOnce` | crates/core/src/kernel/equeue.rs:97-98 | Each place in each batch holds the event at its own position of the triggered sequence, different places different positions and earlier ones earlier: delivered at most once and in order |
| `EventQueue.WakeTakesWhatArrived` | crates/core/src/kernel/equeue.rs:91-98 | A waiter that slept takes what arrived meanwhile, and nothing only if nothing is pending or it asked for none |
| `EventQueue.DrainTakesOldest` | crates/core/src/kernel/equeue.rs:88-98 | Every drain, on entry or on waking, takes the oldest pending events, as many as asked for unless fewer are there, and a waiter that sleeps takes none yet |
| `EventQueue.EventQueue.constructor` | crates/core/src/kernel/equeue.rs:58-64 | Nothing pending |
| `EventQueue.EventQueue.TriggerEvent` | crates/core/src/kernel/equeue.rs:78-81 | The event is appended: the trigger step |
| `EventQueue.EventQueue.WaitEnter` | crates/core/src/kernel/equeue.rs:84-95 | Sleeps exactly when nothing is pending and there is a timeout; otherwise the entering step |
| `EventQueue.EventQueue.WaitWake` | crates/core/src/kernel/equeue.rs:93-98 | The waking step |
| `EventQueue.EventQueue.Drain` | crates/core/src/kernel/equeue.rs:97-98 | The oldest events, as many as asked for and there |

## Left out

- PhysicalManager.PhysicalMemoryManager.Allocate: does not model 64-bit wrap-around; requests are required to have a positive size, an alignment of at most a page or a power of two, and sums that stay inside 64 bits (the system call in `crates/core/src/kernel/memory_syscalls.rs` rejects a zero size).
- PhysicalManager.PhysicalMemoryManager.Free: after a panic the model only keeps the partition and the byte map; no further call is modelled from that state.
- PhysicalManager.PhysicalMemoryManager.constructor: does not model a direct memory of size zero; the source's only caller passes a constant.
- VirtualManager.MemoryManager.MapMemory: does not model 64-bit wrap-around of sums; the host's answer to the mapping call is a parameter, except that it always rejects an empty range.
- VirtualRuns.EveryRunPartitions: covers FIXED maps and unmaps inside the user region; outside it a call is still a pointwise update (`OverwriteIsUpdate`), but the region is then no longer what the areas cover.
- Patches.PatchSyscalls: does not model a region of size zero, for which the source's bound underflows.
- Elf.Parse: offsets are unbounded, so a sum or seek beyond 64 bits, where the source would overflow or fail, reads past the end here.
- SelfWriter.WrapThenLoad: gives every header a segment of its own; SELFs in which headers share a parent's segment are covered by `SelfLoadsLikeElf`.
- ModuleImage.CopiesStayInside: covers segments with room for their file bytes; with more of them the copy may leave the mapping, which the source does not check.
- Linker.Load: relies on files whose copies stay inside their mapping, which the source does not check, and whose dynamic tables are not sliced out of range, where the source panics (`Trusted`; `ReadRelocations` says when). Mapping calls for modules are taken to succeed once space is found.
- Linker.Linker.LoadFile: relies on the same of the file it loads.
- Linker.Linker.LoadModule: relies on the same of every file on disk.
- Relocation.RelocateAll: takes the guest memory as one map; `LoadedProgram` builds it from the linker's modules. DTPMOD64 stores 1, as the source does behind its FIXME.
- LoadedProgram.LoadedProgramRelocates: covers modules whose slots lie disjoint inside their own mappings; the source does not check where a slot lies.
- RelocatedImage.NamedWordBytes: covers words of file bytes outside patched assertion traps; the entry point, which the source also takes relative to the base alone, is not modelled.
- Symbols.SymbolResolver.Resolve: hash map iteration order is any order, so among records that share a name any one may be found. Merging resolvers is left out.
- Stubs.StubAllocator.AllocateStub: a process without an initialised allocator, for which the source answers zero, is not modelled.
- Dispatcher.ImportCallReturns: the host function is any function of the name, the arguments and memory that leaves the pushed return address alone (`CallReady`); the handler's own switching of FS bases is reduced to whether the thread has one. Call numbers other than exit are a fake success, as in the source.
- Dispatcher.ThreadFsMap.RegisterThreadFs: does not model unsynchronised access from several threads.
- Psf.MapRoundTrip: UTF-8 validity is a parameter and strings are their bytes; lossy decoding elsewhere is the identity.
- Pm4.DrawInitDefaultHardwareState: null pointers, for which both writers answer zero, are not modelled, and the returned pointer is the number of dwords to advance.
- Pm4.CommandProcessor.ProcessType3Packet: register writes are an ordered log, because the source only traces them; draws, dispatches and fences have no effect there either.
- EventQueue.EventQueue.WaitEnter: the length of the sleep is not modelled; a sleeping waiter may wake at any time.
- Real memory mapping, protection, raw pointers and signal delivery: guest memory is an array or a map.
- Path resolution beyond plain file names in a directory and its module directory, and NID encoding: host-dependent. The table of known NIDs is a parameter.
- TLS images, process parameters, EH frames, init functions and exports of a module: addresses computed by one addition each.
- SIGSEGV recovery, register dumps and the rest of the export dispatcher: heuristics and independent easy branches.
- The Vulkan renderer, window, CLI, logging, audio, input, shader, thread and time functions: foreign calls or placeholders.
