/** Loading a module's segments and reading its dynamic tables (crates/core/src/linker/module.rs
    and the string lookups of crates/core/src/loader/elf.rs). */
module ModuleImage {
  import opened Wrappers
  import opened Types
  import opened Bytes
  import opened Elf
  import SR = SelfRefinement

  type Name = seq<byte>

  // ---------------------------------------------------------------------------
  // Extent
  // ---------------------------------------------------------------------------

  /** Every LOAD segment has room for its file bytes. */
  ghost predicate WellSized(phs: seq<ProgramHeader>) {
    forall i | 0 <= i < |phs| && phs[i].phdrType == Load :: phs[i].filesz <= phs[i].memsz
  }

  /** Lowest start and highest end over the LOAD segments of the first `k` headers. */
  ghost function ExtentOf(phs: seq<ProgramHeader>, k: nat): (nat, nat)
    requires k <= |phs|
  {
    if k == 0 then (U64 - 1, 0)
    else
      var (lo, hi) := ExtentOf(phs, k - 1);
      var ph := phs[k - 1];
      if ph.phdrType != Load then (lo, hi) else (Min(lo, ph.vaddr), Max(hi, ph.vaddr + ph.memsz))
  }

  /** The extent spans every LOAD segment. */
  lemma {:induction false} ExtentSpans(phs: seq<ProgramHeader>, k: nat, i: nat)
    requires i < k <= |phs| && phs[i].phdrType == Load
    ensures ExtentOf(phs, k).0 <= phs[i].vaddr && phs[i].vaddr + phs[i].memsz <= ExtentOf(phs, k).1
  {
    if i < k - 1 {
      ExtentSpans(phs, k - 1, i);
    }
  }

  /** ... and no more: each end is some segment's, and without LOAD segments it is empty. */
  lemma {:induction false} ExtentIsTight(phs: seq<ProgramHeader>, k: nat)
    requires k <= |phs|
    ensures (forall i | 0 <= i < k :: phs[i].phdrType != Load) ==> ExtentOf(phs, k) == (U64 - 1, 0)
    ensures ExtentOf(phs, k).0 == U64 - 1
            || exists i | 0 <= i < k :: phs[i].phdrType == Load && phs[i].vaddr == ExtentOf(phs, k).0
    ensures ExtentOf(phs, k).1 == 0
            || exists i | 0 <= i < k :: phs[i].phdrType == Load && phs[i].vaddr + phs[i].memsz == ExtentOf(phs, k).1
  {
    if k > 0 {
      ExtentIsTight(phs, k - 1);
      assert phs[k - 1] == phs[k - 1];
    }
  }

  method ComputeExtent(phs: seq<ProgramHeader>) returns (minAddr: nat, maxAddr: nat)
    ensures (minAddr, maxAddr) == ExtentOf(phs, |phs|)
  {
    minAddr, maxAddr := U64 - 1, 0;
    var i := 0;
    while i < |phs|
      invariant 0 <= i <= |phs|
      invariant (minAddr, maxAddr) == ExtentOf(phs, i)
    {
      if phs[i].phdrType == Load {
        var segStart, segEnd := phs[i].vaddr, phs[i].vaddr + phs[i].memsz;
        minAddr := Min(minAddr, segStart);
        maxAddr := Max(maxAddr, segEnd);
      }
      i := i + 1;
    }
  }

  // ---------------------------------------------------------------------------
  // The image
  // ---------------------------------------------------------------------------

  /** Header `i` is a LOAD segment whose file range is in bounds, so its bytes are copied. */
  predicate Copied(elf: Elf, i: nat)
    requires i < |elf.programHeaders|
  {
    var ph := elf.programHeaders[i];
    ph.phdrType == Load && ph.filesz > 0 && ResolveFileOffset(elf, i, ph) + ph.filesz <= |elf.data|
  }

  ghost function SegmentBytes(elf: Elf, i: nat): (r: seq<byte>)
    requires i < |elf.programHeaders| && Copied(elf, i)
    ensures |r| == elf.programHeaders[i].filesz
  {
    var p := ResolveFileOffset(elf, i, elf.programHeaders[i]);
    elf.data[p..p + elf.programHeaders[i].filesz]
  }

  /** The mapping [minAddr, minAddr + size) of guest addresses holds every LOAD segment. */
  ghost predicate MapsSegments(phs: seq<ProgramHeader>, minAddr: nat, size: nat) {
    forall i | 0 <= i < |phs| && phs[i].phdrType == Load ::
      minAddr <= phs[i].vaddr && phs[i].vaddr + phs[i].filesz <= minAddr + size
  }

  /** The page-aligned extent holds every file-backed byte: no copy leaves the mapping. */
  lemma CopiesStayInside(phs: seq<ProgramHeader>)
    requires WellSized(phs)
    requires var (lo, hi) := ExtentOf(phs, |phs|); lo <= hi && hi - lo + PAGE_SIZE <= U64
    ensures var (lo, hi) := ExtentOf(phs, |phs|); MapsSegments(phs, lo, AlignUp(hi - lo, PAGE_SIZE))
  {
    hide AlignUp, PowerOfTwo, ExtentOf;
    var (lo, hi) := ExtentOf(phs, |phs|);
    PageIsPowerOfTwo();
    AlignUpIsLeastMultiple(hi - lo, PAGE_SIZE);
    forall i | 0 <= i < |phs| && phs[i].phdrType == Load
      ensures lo <= phs[i].vaddr && phs[i].vaddr + phs[i].filesz <= lo + AlignUp(hi - lo, PAGE_SIZE)
    {
      ExtentSpans(phs, |phs|, i);
    }
  }

  /** The mapped bytes after the first `k` headers were copied, in header order. */
  ghost function Image(elf: Elf, minAddr: nat, size: nat, k: nat): (r: seq<byte>)
    requires k <= |elf.programHeaders| && MapsSegments(elf.programHeaders, minAddr, size)
    ensures |r| == size
  {
    if k == 0 then seq(size, _ => 0)
    else
      var before := Image(elf, minAddr, size, k - 1);
      if !Copied(elf, k - 1) then before
      else
        var p := elf.programHeaders[k - 1].vaddr - minAddr;
        before[..p] + SegmentBytes(elf, k - 1) + before[p + elf.programHeaders[k - 1].filesz..]
  }

  /** Copied segment `i` covers offset `x` of the mapping. */
  ghost predicate CoversOffset(elf: Elf, minAddr: nat, i: nat, x: nat)
    requires i < |elf.programHeaders|
  {
    Copied(elf, i) && elf.programHeaders[i].vaddr <= minAddr + x < elf.programHeaders[i].vaddr + elf.programHeaders[i].filesz
  }

  /** A byte of the mapping is the byte of the last segment copied over it ... */
  lemma {:induction false} LastCopyWins(elf: Elf, minAddr: nat, size: nat, k: nat, i: nat, x: nat)
    requires k <= |elf.programHeaders| && MapsSegments(elf.programHeaders, minAddr, size)
    requires x < size && i < k && CoversOffset(elf, minAddr, i, x)
    requires forall j | i < j < k :: !CoversOffset(elf, minAddr, j, x)
    ensures Image(elf, minAddr, size, k)[x] == SegmentBytes(elf, i)[minAddr + x - elf.programHeaders[i].vaddr]
  {
    if i < k - 1 {
      LastCopyWins(elf, minAddr, size, k - 1, i, x);
      CopyLeaves(elf, minAddr, size, k, x);
    }
  }

  /** ... and zero where nothing was copied. */
  lemma {:induction false} UncopiedIsZero(elf: Elf, minAddr: nat, size: nat, k: nat, x: nat)
    requires k <= |elf.programHeaders| && MapsSegments(elf.programHeaders, minAddr, size)
    requires x < size && forall j | 0 <= j < k :: !CoversOffset(elf, minAddr, j, x)
    ensures Image(elf, minAddr, size, k)[x] == 0
  {
    if k > 0 {
      UncopiedIsZero(elf, minAddr, size, k - 1, x);
      CopyLeaves(elf, minAddr, size, k, x);
    }
  }

  lemma CopyLeaves(elf: Elf, minAddr: nat, size: nat, k: nat, x: nat)
    requires 0 < k <= |elf.programHeaders| && MapsSegments(elf.programHeaders, minAddr, size)
    requires x < size && !CoversOffset(elf, minAddr, k - 1, x)
    ensures Image(elf, minAddr, size, k)[x] == Image(elf, minAddr, size, k - 1)[x]
  {
  }

  ghost predicate DisjointCopies(elf: Elf) {
    forall a, b | 0 <= a < b < |elf.programHeaders| && Copied(elf, a) && Copied(elf, b) ::
      var p, q := elf.programHeaders[a], elf.programHeaders[b];
      p.vaddr + p.filesz <= q.vaddr || q.vaddr + q.filesz <= p.vaddr
  }

  /** With disjoint copies, every copied segment appears byte for byte. */
  lemma SegmentAppears(elf: Elf, minAddr: nat, size: nat, i: nat)
    requires MapsSegments(elf.programHeaders, minAddr, size)
    requires i < |elf.programHeaders| && Copied(elf, i)
    requires DisjointCopies(elf)
    ensures var p := elf.programHeaders[i].vaddr - minAddr;
            Image(elf, minAddr, size, |elf.programHeaders|)[p..p + elf.programHeaders[i].filesz]
            == SegmentBytes(elf, i)
  {
    hide Image, SegmentBytes, ResolveFileOffset;
    var ph := elf.programHeaders[i];
    var p := ph.vaddr - minAddr;
    forall x | p <= x < p + ph.filesz
      ensures Image(elf, minAddr, size, |elf.programHeaders|)[x] == SegmentBytes(elf, i)[x - p]
    {
      forall j | i < j < |elf.programHeaders|
        ensures !CoversOffset(elf, minAddr, j, x)
      {
        var q := elf.programHeaders[j];
        assert Copied(elf, j) ==> ph.vaddr + ph.filesz <= q.vaddr || q.vaddr + q.filesz <= ph.vaddr;
      }
      LastCopyWins(elf, minAddr, size, |elf.programHeaders|, i, x);
    }
  }

  /** Copy every LOAD segment's file bytes into the freshly mapped, zeroed memory. */
  method CopySegments(elf: Elf, minAddr: nat, memory: array<byte>)
    requires MapsSegments(elf.programHeaders, minAddr, memory.Length)
    requires forall x | 0 <= x < memory.Length :: memory[x] == 0
    modifies memory
    ensures memory[..] == Image(elf, minAddr, memory.Length, |elf.programHeaders|)
  {
    hide ResolveFileOffset;
    assert memory[..] == seq(memory.Length, _ => 0);
    var i := 0;
    while i < |elf.programHeaders|
      invariant 0 <= i <= |elf.programHeaders|
      invariant memory[..] == Image(elf, minAddr, memory.Length, i)
    {
      var ph := elf.programHeaders[i];
      if ph.phdrType == Load {
        var src := ResolveFileOffset(elf, i, ph);
        if ph.filesz > 0 && src + ph.filesz <= |elf.data| {
          CopyBytes(elf.data[src..src + ph.filesz], memory, ph.vaddr - minAddr);
        }
      }
      i := i + 1;
    }
  }

  method CopyBytes(bytes: seq<byte>, memory: array<byte>, dest: nat)
    requires dest + |bytes| <= memory.Length
    modifies memory
    ensures memory[..] == old(memory[..dest]) + bytes + old(memory[dest + |bytes|..])
  {
    var n := 0;
    while n < |bytes|
      invariant 0 <= n <= |bytes|
      invariant forall x | 0 <= x < memory.Length ::
                  memory[x] == if dest <= x < dest + n then bytes[x - dest] else old(memory[x])
    {
      memory[dest + n] := bytes[n];
      n := n + 1;
    }
  }

  /** The refinement reaches memory: a SELF and the ELF it wraps load to the same image. */
  lemma {:induction false} SelfImageIsElfImage(s: seq<byte>, e: seq<byte>, plain: Elf, wrapped: Elf, minAddr: nat,
                                               size: nat, k: nat)
    requires SR.Wraps(s, e, plain) && ParseFile(s) == Ok(wrapped)
    requires wrapped.programHeaders == plain.programHeaders && wrapped.data == s && plain.data == e
    requires MapsSegments(plain.programHeaders, minAddr, size) && k <= |plain.programHeaders|
    ensures Image(wrapped, minAddr, size, k) == Image(plain, minAddr, size, k)
  {
    hide SR.Wraps, ParseFile, ResolveFileOffset, MapsSegments;
    if k > 0 {
      SelfImageIsElfImage(s, e, plain, wrapped, minAddr, size, k - 1);
      SameSegment(s, e, plain, wrapped, k - 1);
    }
  }

  lemma SameSegment(s: seq<byte>, e: seq<byte>, plain: Elf, wrapped: Elf, i: nat)
    requires SR.Wraps(s, e, plain) && ParseFile(s) == Ok(wrapped)
    requires wrapped.programHeaders == plain.programHeaders && wrapped.data == s && plain.data == e
    requires i < |plain.programHeaders|
    ensures Copied(wrapped, i) == Copied(plain, i)
    ensures Copied(plain, i) ==> SegmentBytes(wrapped, i) == SegmentBytes(plain, i)
  {
    hide SR.Wraps, ParseFile, ResolveFileOffset;
    if plain.programHeaders[i].phdrType == Load && plain.programHeaders[i].filesz > 0 {
      SR.SelfHoldsElfBytes(s, e, plain, wrapped, i);
    }
  }

  /** In a plain ELF exactly the LOAD segments whose file range is in bounds are copied, and
      each appears in the image as the file's bytes at its offset. */
  lemma FileSegmentAppears(e: seq<byte>, plain: Elf, minAddr: nat, size: nat, i: nat)
    requires ParseFile(e) == Ok(plain) && !plain.isSelf && i < |plain.programHeaders|
    requires MapsSegments(plain.programHeaders, minAddr, size) && DisjointCopies(plain)
    ensures var ph := plain.programHeaders[i];
            && (Copied(plain, i) <==> ph.phdrType == Load && ph.filesz > 0 && ph.offset + ph.filesz <= |e|)
            && (Copied(plain, i) ==>
                  && minAddr <= ph.vaddr && ph.vaddr + ph.filesz <= minAddr + size
                  && Image(plain, minAddr, size, |plain.programHeaders|)[ph.vaddr - minAddr..ph.vaddr - minAddr + ph.filesz]
                     == e[ph.offset..ph.offset + ph.filesz])
  {
    hide Image, DisjointCopies;
    PlainOffsets(e, plain, i);
    if Copied(plain, i) {
      SegmentAppears(plain, minAddr, size, i);
    }
  }

  lemma PlainOffsets(e: seq<byte>, plain: Elf, i: nat)
    requires ParseFile(e) == Ok(plain) && !plain.isSelf && i < |plain.programHeaders|
    ensures plain.data == e && ResolveFileOffset(plain, i, plain.programHeaders[i]) == plain.programHeaders[i].offset
  {
    hide ElfHeaderAt, DynamicPart, DynlibPart, ProgramHeaders, SelfSegments, U32At;
  }

  /** Everything the loader takes from a SELF equals what it takes from the plain ELF. */
  lemma SelfLoadsLikeElf(s: seq<byte>, e: seq<byte>, plain: Elf, minAddr: nat, size: nat) returns (wrapped: Elf)
    requires SR.Wraps(s, e, plain) && MapsSegments(plain.programHeaders, minAddr, size)
    ensures ParseFile(s) == Ok(wrapped)
    ensures wrapped.header == plain.header && wrapped.programHeaders == plain.programHeaders
    ensures NeededModules(wrapped) == NeededModules(plain)
    ensures ParseRelocations(wrapped) == ParseRelocations(plain)
    ensures Image(wrapped, minAddr, size, |plain.programHeaders|) == Image(plain, minAddr, size, |plain.programHeaders|)
  {
    hide SR.Wraps, MapsSegments, NeededIn, RelocationsIn, Image;
    wrapped := SR.SelfParsesLikeElf(s, e, plain);
    PlainData(s, e, plain);
    SelfImageIsElfImage(s, e, plain, wrapped, minAddr, size, |plain.programHeaders|);
  }

  lemma PlainData(s: seq<byte>, e: seq<byte>, plain: Elf)
    requires SR.Wraps(s, e, plain)
    ensures plain.data == e
  {
    hide ElfHeaderAt, DynamicPart, DynlibPart, ProgramHeaders, SelfSegments, U32At;
  }

  // ---------------------------------------------------------------------------
  // Dynamic tables
  // ---------------------------------------------------------------------------

  const DT_NEEDED: int := 0x1
  const DT_SCE_IMPORT_LIB: int := 0x6100_0015
  const DT_SCE_JMPREL: int := 0x6100_0029
  const DT_SCE_PLTRELSZ: int := 0x6100_002D
  const DT_SCE_RELA: int := 0x6100_002F
  const DT_SCE_RELASZ: int := 0x6100_0031
  const DT_SCE_STRTAB: int := 0x6100_0035
  const DT_SCE_STRSZ: int := 0x6100_0037
  const DT_SCE_SYMTAB: int := 0x6100_0039
  const DT_SCE_SYMTABSZ: int := 0x6100_003F

  datatype ParsedRelocation = ParsedRelocation(
    offset: nat, relType: nat, addend: int, symbolName: Name, symbolBinding: nat, symbolType: nat, isJmpRel: bool)

  /** The value of the first entry with a tag. */
  function DynamicValue(entries: seq<DynamicEntry>, tag: int): Option<nat> {
    if entries == [] then None
    else if entries[0].tag == tag then Some(entries[0].value)
    else DynamicValue(entries[1..], tag)
  }

  /** The bytes from `p` up to a zero or the end of the data. */
  function StringAt(d: seq<byte>, p: nat): (r: Name)
    ensures 0 !in r
    ensures p <= |d| ==> p + |r| <= |d| && r == d[p..p + |r|] && (p + |r| == |d| || d[p + |r|] == 0)
    decreases |d| - p
  {
    if p >= |d| || d[p] == 0 then [] else [d[p]] + StringAt(d, p + 1)
  }

  function NeededIn(entries: seq<DynamicEntry>, all: seq<DynamicEntry>, dynlib: seq<byte>): seq<Name> {
    if entries == [] then []
    else
      var name := DynamicString(all, dynlib, entries[0].value);
      (if (entries[0].tag == DT_NEEDED || entries[0].tag == DT_SCE_IMPORT_LIB) && name != [] then [name] else [])
      + NeededIn(entries[1..], all, dynlib)
  }

  function DynamicString(entries: seq<DynamicEntry>, dynlib: seq<byte>, offset: nat): Name {
    var strtab, strsz := DynamicValue(entries, DT_SCE_STRTAB), DynamicValue(entries, DT_SCE_STRSZ);
    if strtab.None? || strsz.None? || offset >= strsz.value || strtab.value + offset >= |dynlib| then []
    else StringAt(dynlib, strtab.value + offset)
  }

  function NeededModules(elf: Elf): seq<Name> {
    NeededIn(elf.dynamicEntries, elf.dynamicEntries, elf.dynlibData)
  }

  datatype Tables = Tables(symtab: nat, symtabSize: nat, strtab: nat, strtabSize: nat)

  /** A symbol's name, binding and type; None where an out-of-range slice panics. */
  function SymbolOf(d: seq<byte>, t: Tables, index: nat): Option<(Name, nat, nat)> {
    if index == 0 || index * 24 >= t.symtabSize then Some(([], 0, 0))
    else
      var p := t.symtab + index * 24;
      if p > |d| then None
      else if p + 24 > |d| then Some(([], 0, 0))
      else
        var nameOffset, info := U32At(d, p), d[p + 4] as nat;
        if nameOffset >= t.strtabSize then Some(([], info / 16, info % 16))
        else if t.strtab + nameOffset > |d| then None
        else Some((StringAt(d, t.strtab + nameOffset), info / 16, info % 16))
  }

  /** Entries `i..count` of a relocation table; entries cut off by the end are skipped. */
  function RelocationTable(d: seq<byte>, t: Tables, start: nat, count: nat, i: nat, isJmpRel: bool)
    : Option<seq<ParsedRelocation>>
    requires i <= count
    decreases count - i
  {
    if i == count then Some([])
    else
      var p := start + i * 24;
      if p > |d| then None
      else
        var one := RelocationAt(d, t, p, isJmpRel);
        if one.None? then None
        else
          var rest := RelocationTable(d, t, start, count, i + 1, isJmpRel);
          if rest.None? then None else Some(one.value + rest.value)
  }

  function RelocationAt(d: seq<byte>, t: Tables, p: nat, isJmpRel: bool): Option<seq<ParsedRelocation>> {
    if p + 24 > |d| then Some([])
    else
      var info := U64At(d, p + 8);
      var symbol := SymbolOf(d, t, info / U32);
      if symbol.None? then None
      else
        Some([ParsedRelocation(U64At(d, p), info % U32, SignedOf64(U64At(d, p + 16)),
                               symbol.value.0, symbol.value.1, symbol.value.2, isJmpRel)])
  }

  function TableIn(entries: seq<DynamicEntry>, d: seq<byte>, t: Tables, offTag: int, sizeTag: int, isJmpRel: bool)
    : Option<seq<ParsedRelocation>>
  {
    var off, size := DynamicValue(entries, offTag), DynamicValue(entries, sizeTag);
    if off.None? || size.None? then Some([])
    else RelocationTable(d, t, off.value, size.value / 24, 0, isJmpRel)
  }

  /** Standard relocations, then the jump slots; None where the original panics. */
  function RelocationsIn(entries: seq<DynamicEntry>, d: seq<byte>): Option<seq<ParsedRelocation>> {
    var symtab, symtabSize := DynamicValue(entries, DT_SCE_SYMTAB), DynamicValue(entries, DT_SCE_SYMTABSZ);
    var strtab, strtabSize := DynamicValue(entries, DT_SCE_STRTAB), DynamicValue(entries, DT_SCE_STRSZ);
    if symtab.None? || symtabSize.None? || strtab.None? || strtabSize.None? then Some([])
    else
      var t := Tables(symtab.value, symtabSize.value, strtab.value, strtabSize.value);
      var standard := TableIn(entries, d, t, DT_SCE_RELA, DT_SCE_RELASZ, false);
      var jumps := TableIn(entries, d, t, DT_SCE_JMPREL, DT_SCE_PLTRELSZ, true);
      if standard.None? || jumps.None? then None else Some(standard.value + jumps.value)
  }

  function ParseRelocations(elf: Elf): Option<seq<ParsedRelocation>> {
    RelocationsIn(elf.dynamicEntries, elf.dynlibData)
  }

  /** Read one relocation table; None where the original panics. */
  method ReadRelocationTable(d: seq<byte>, t: Tables, start: nat, count: nat, isJmpRel: bool)
    returns (r: Option<seq<ParsedRelocation>>)
    ensures r == RelocationTable(d, t, start, count, 0, isJmpRel)
  {
    hide RelocationAt;
    var parsed := [];
    var i := 0;
    while i < count
      invariant 0 <= i <= count
      invariant RelocationTable(d, t, start, count, 0, isJmpRel).None?
                == RelocationTable(d, t, start, count, i, isJmpRel).None?
      invariant RelocationTable(d, t, start, count, i, isJmpRel).Some? ==>
                  RelocationTable(d, t, start, count, 0, isJmpRel).value
                  == parsed + RelocationTable(d, t, start, count, i, isJmpRel).value
    {
      var p := start + i * 24;
      if p > |d| {
        return None;
      }
      var one := RelocationAt(d, t, p, isJmpRel);
      if one.None? {
        return None;
      }
      if RelocationTable(d, t, start, count, i + 1, isJmpRel).Some? {
        assert parsed + (one.value + RelocationTable(d, t, start, count, i + 1, isJmpRel).value)
               == (parsed + one.value) + RelocationTable(d, t, start, count, i + 1, isJmpRel).value;
      }
      parsed := parsed + one.value;
      i := i + 1;
    }
    assert parsed + [] == parsed;
    return Some(parsed);
  }

  /** Parse the relocations named by the dynamic section; None where the original panics. */
  method ReadRelocations(elf: Elf) returns (r: Option<seq<ParsedRelocation>>)
    ensures r == ParseRelocations(elf)
  {
    hide DynamicValue, RelocationTable;
    var entries, d := elf.dynamicEntries, elf.dynlibData;
    var symtab, symtabSize := DynamicValue(entries, DT_SCE_SYMTAB), DynamicValue(entries, DT_SCE_SYMTABSZ);
    var strtab, strtabSize := DynamicValue(entries, DT_SCE_STRTAB), DynamicValue(entries, DT_SCE_STRSZ);
    if symtab.None? || symtabSize.None? || strtab.None? || strtabSize.None? {
      return Some([]);
    }
    var t := Tables(symtab.value, symtabSize.value, strtab.value, strtabSize.value);
    var standard, jumps := Some([]), Some([]);
    var relaOff, relaSize := DynamicValue(entries, DT_SCE_RELA), DynamicValue(entries, DT_SCE_RELASZ);
    if relaOff.Some? && relaSize.Some? {
      standard := ReadRelocationTable(d, t, relaOff.value, relaSize.value / 24, false);
      if standard.None? {
        return None;
      }
    }
    var jumpOff, jumpSize := DynamicValue(entries, DT_SCE_JMPREL), DynamicValue(entries, DT_SCE_PLTRELSZ);
    if jumpOff.Some? && jumpSize.Some? {
      jumps := ReadRelocationTable(d, t, jumpOff.value, jumpSize.value / 24, true);
      if jumps.None? {
        return None;
      }
    }
    return Some(standard.value + jumps.value);
  }
}
