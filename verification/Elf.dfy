/** ELF and SELF parsing (crates/core/src/loader/elf.rs).

    A SELF file is a 32-byte header, a segment table, the ELF and program headers, and the
    segments' bytes at places of their own. `Parse` follows the source's cursor and
    `ParseFile` says what it computes. */
module Elf {
  import opened Wrappers
  import opened Types
  import opened Bytes

  const SELF_MAGIC: nat := 0x1D3D154F
  const ELF_MAGIC: seq<byte> := [0x7F, 0x45, 0x4C, 0x46]
  const EM_X86_64: nat := 62

  datatype SelfHeader = SelfHeader(
    version: nat, mode: nat, endian: nat, attributes: nat, category: nat, programType: nat,
    headerSize: nat, metaSize: nat, fileSize: nat, segmentCount: nat)

  datatype SelfSegmentHeader = SelfSegmentHeader(flags: nat, fileOffset: nat, fileSize: nat, memorySize: nat) {
    predicate IsBlocked() {
      (flags / 0x800) % 2 == 1
    }

    function GetId(): nat {
      (flags / 0x10_0000) % 0x1000
    }
  }

  datatype ElfHeader = ElfHeader(
    elfType: nat, version: nat, entry: nat, phoff: nat, shoff: nat, flags: nat,
    ehsize: nat, phentsize: nat, phnum: nat, shentsize: nat, shnum: nat, shstrndx: nat)

  datatype ProgramType =
    | Null | Load | Dynamic | Interp | Note | Phdr | Tls
    | SceRela | SceDynlibData | SceProcParam | SceModuleParam | SceRelro
    | GnuEhFrame | GnuStack | GnuRelro | SceComment | SceLibVersion
    | Unknown(raw: nat)

  datatype ProgramHeader = ProgramHeader(
    phdrType: ProgramType, flags: nat, offset: nat, vaddr: nat, paddr: nat, filesz: nat, memsz: nat, align: nat)

  datatype DynamicEntry = DynamicEntry(tag: int, value: nat)

  datatype Elf = Elf(
    isSelf: bool, selfHeader: Option<SelfHeader>, selfSegments: seq<SelfSegmentHeader>, header: ElfHeader,
    programHeaders: seq<ProgramHeader>, dynamicEntries: seq<DynamicEntry>, dynlibData: seq<byte>, data: seq<byte>)

  datatype ElfError = Io | NotElf | Not64Bit(cls: nat) | NotLittleEndian(data: nat) | NotX86_64(machine: nat)

  // ---------------------------------------------------------------------------
  // Records
  // ---------------------------------------------------------------------------

  function ProgramTypeOf(v: nat): ProgramType {
    if v == 0x0 then Null
    else if v == 0x1 then Load
    else if v == 0x2 then Dynamic
    else if v == 0x3 then Interp
    else if v == 0x4 then Note
    else if v == 0x6 then Phdr
    else if v == 0x7 then Tls
    else if v == 0x6000_0000 then SceRela
    else if v == 0x6100_0000 then SceDynlibData
    else if v == 0x6100_0001 then SceProcParam
    else if v == 0x6100_0002 then SceModuleParam
    else if v == 0x6100_0010 then SceRelro
    else if v == 0x6474_E550 then GnuEhFrame
    else if v == 0x6474_E551 then GnuStack
    else if v == 0x6474_E552 then GnuRelro
    else if v == 0x6FFF_FF00 then SceComment
    else if v == 0x6FFF_FF01 then SceLibVersion
    else Unknown(v)
  }

  function SelfHeaderAt(d: seq<byte>, p: nat): SelfHeader
    requires p + 32 <= |d|
  {
    SelfHeader(d[p + 4], d[p + 5], d[p + 6], d[p + 7], d[p + 8], d[p + 9],
               U16At(d, p + 12), U16At(d, p + 14), U32At(d, p + 16), U16At(d, p + 24))
  }

  function SelfSegmentAt(d: seq<byte>, p: nat): SelfSegmentHeader
    requires p + 32 <= |d|
  {
    SelfSegmentHeader(U64At(d, p), U64At(d, p + 8), U64At(d, p + 16), U64At(d, p + 24))
  }

  /** The ELF header at `p`, with the source's order of checks: a short file is reported where
      the reading stops. */
  function ElfHeaderAt(d: seq<byte>, p: nat): Result<ElfHeader, ElfError> {
    if p + 4 > |d| then Err(Io)
    else if d[p..p + 4] != ELF_MAGIC then Err(NotElf)
    else if p + 5 > |d| then Err(Io)
    else if d[p + 4] != 2 then Err(Not64Bit(d[p + 4]))
    else if p + 6 > |d| then Err(Io)
    else if d[p + 5] != 1 then Err(NotLittleEndian(d[p + 5]))
    else if p + 20 > |d| then Err(Io)
    else if U16At(d, p + 18) != EM_X86_64 then Err(NotX86_64(U16At(d, p + 18)))
    else if p + 64 > |d| then Err(Io)
    else Ok(HeaderFields(d, p))
  }

  function HeaderFields(d: seq<byte>, p: nat): ElfHeader
    requires p + 64 <= |d|
  {
    ElfHeader(U16At(d, p + 16), U32At(d, p + 20), U64At(d, p + 24), U64At(d, p + 32), U64At(d, p + 40),
              U32At(d, p + 48), U16At(d, p + 52), U16At(d, p + 54), U16At(d, p + 56), U16At(d, p + 58),
              U16At(d, p + 60), U16At(d, p + 62))
  }

  /** Only the three defined program flag bits are kept. */
  function ProgramHeaderAt(d: seq<byte>, p: nat): ProgramHeader
    requires p + 56 <= |d|
  {
    ProgramHeader(ProgramTypeOf(U32At(d, p)), U32At(d, p + 4) % 8, U64At(d, p + 8), U64At(d, p + 16),
                  U64At(d, p + 24), U64At(d, p + 32), U64At(d, p + 40), U64At(d, p + 48))
  }

  function SelfSegments(d: seq<byte>, n: nat): (r: seq<SelfSegmentHeader>)
    requires 32 + 32 * n <= |d|
    ensures |r| == n && forall k | 0 <= k < n :: r[k] == SelfSegmentAt(d, 32 + 32 * k)
  {
    seq(n, k requires 0 <= k < n => SelfSegmentAt(d, 32 + 32 * k))
  }

  function ProgramHeaders(d: seq<byte>, p: nat, n: nat): (r: seq<ProgramHeader>)
    requires n > 0 ==> p + 56 * n <= |d|
    ensures |r| == n && forall k | 0 <= k < n :: r[k] == ProgramHeaderAt(d, p + 56 * k)
  {
    seq(n, k requires 0 <= k < n => ProgramHeaderAt(d, p + 56 * k))
  }

  /** The last program header of a type. */
  function LastOf(phs: seq<ProgramHeader>, t: ProgramType): (r: Option<nat>)
    ensures r.Some? ==> r.value < |phs| && phs[r.value].phdrType == t
    ensures r.None? ==> forall k | 0 <= k < |phs| :: phs[k].phdrType != t
    ensures r.Some? ==> forall k | r.value < k < |phs| :: phs[k].phdrType != t
  {
    if phs == [] then None
    else if phs[|phs| - 1].phdrType == t then Some(|phs| - 1)
    else LastOf(phs[..|phs| - 1], t)
  }

  /** Entries from `p`, at most `n`, up to the null tag or the end of the file. */
  function DynamicEntriesAt(d: seq<byte>, p: nat, n: nat): seq<DynamicEntry>
    decreases n
  {
    if n == 0 || p + 16 > |d| || SignedOf64(U64At(d, p)) == 0 then []
    else [DynamicEntry(SignedOf64(U64At(d, p)), U64At(d, p + 8))] + DynamicEntriesAt(d, p + 16, n - 1)
  }

  /** The bytes of [p, p + n), cut off where the file ends. */
  function DataAt(d: seq<byte>, p: nat, n: nat): seq<byte> {
    if p + n <= |d| then d[p..p + n] else if p < |d| then d[p..] else []
  }

  // ---------------------------------------------------------------------------
  // Where a program header's bytes are
  // ---------------------------------------------------------------------------

  /** The first blocked segment at or after `k` whose id is `idx`. */
  function OwnSegment(segs: seq<SelfSegmentHeader>, idx: nat, k: nat): (r: Option<nat>)
    requires k <= |segs|
    ensures r.Some? ==> k <= r.value < |segs| && segs[r.value].IsBlocked() && segs[r.value].GetId() == idx
    ensures forall i | k <= i < (if r.Some? then r.value else |segs|) ::
              !(segs[i].IsBlocked() && segs[i].GetId() == idx)
    decreases |segs| - k
  {
    if k == |segs| then None
    else if segs[k].IsBlocked() && segs[k].GetId() == idx then Some(k)
    else OwnSegment(segs, idx, k + 1)
  }

  /** Blocked segment `i` belongs to a header whose file range holds `target`. */
  predicate Encloses(segs: seq<SelfSegmentHeader>, phs: seq<ProgramHeader>, i: nat, target: nat)
    requires i < |segs|
  {
    && segs[i].IsBlocked()
    && segs[i].GetId() < |phs|
    && phs[segs[i].GetId()].offset <= target < phs[segs[i].GetId()].offset + phs[segs[i].GetId()].filesz
  }

  function EnclosingSegment(segs: seq<SelfSegmentHeader>, phs: seq<ProgramHeader>, target: nat, k: nat)
    : (r: Option<nat>)
    requires k <= |segs|
    ensures r.Some? ==> k <= r.value < |segs| && Encloses(segs, phs, r.value, target)
    ensures forall i | k <= i < (if r.Some? then r.value else |segs|) :: !Encloses(segs, phs, i, target)
    decreases |segs| - k
  {
    if k == |segs| then None
    else if Encloses(segs, phs, k, target) then Some(k)
    else EnclosingSegment(segs, phs, target, k + 1)
  }

  /** The real file offset of program header `idx`. */
  function Resolve(isSelf: bool, segs: seq<SelfSegmentHeader>, phs: seq<ProgramHeader>, idx: nat, ph: ProgramHeader,
                   elfOffset: nat): nat
  {
    if !isSelf then ph.offset
    else
      var own := OwnSegment(segs, idx, 0);
      if own.Some? then segs[own.value].fileOffset
      else
        var parent := EnclosingSegment(segs, phs, ph.offset, 0);
        if parent.Some? then
          segs[parent.value].fileOffset + (ph.offset - phs[segs[parent.value].GetId()].offset)
        else
          elfOffset + ph.offset
  }

  function ElfOffset(elf: Elf): nat {
    if elf.isSelf && elf.selfHeader.Some? then 32 + elf.selfHeader.value.segmentCount * 32 else 0
  }

  function ResolveFileOffset(elf: Elf, idx: nat, ph: ProgramHeader): nat {
    Resolve(elf.isSelf, elf.selfSegments, elf.programHeaders, idx, ph, ElfOffset(elf))
  }

  /** The two searches agree: what resolves through a parent lies as far into the parent's
      resolved bytes as it lies into the parent's ELF bytes. */
  lemma ChildFollowsParent(segs: seq<SelfSegmentHeader>, phs: seq<ProgramHeader>, idx: nat, ph: ProgramHeader,
                           elfOffset: nat)
    requires OwnSegment(segs, idx, 0).None?
    requires EnclosingSegment(segs, phs, ph.offset, 0).Some?
    ensures var parent := segs[EnclosingSegment(segs, phs, ph.offset, 0).value].GetId();
            && parent < |phs|
            && phs[parent].offset <= ph.offset < phs[parent].offset + phs[parent].filesz
            && Resolve(true, segs, phs, idx, ph, elfOffset) - Resolve(true, segs, phs, parent, phs[parent], elfOffset)
               == ph.offset - phs[parent].offset
  {
    var s := EnclosingSegment(segs, phs, ph.offset, 0).value;
    var own := OwnSegment(segs, segs[s].GetId(), 0);
    assert own.Some? && own.value <= s;
    assert Encloses(segs, phs, own.value, ph.offset);
  }

  // ---------------------------------------------------------------------------
  // What the parser computes
  // ---------------------------------------------------------------------------

  function DynamicPart(d: seq<byte>, isSelf: bool, segs: seq<SelfSegmentHeader>, phs: seq<ProgramHeader>,
                       elfOffset: nat): seq<DynamicEntry>
  {
    var i := LastOf(phs, Dynamic);
    if i.None? then []
    else
      var ph := phs[i.value];
      var p := Resolve(isSelf, segs, phs, i.value, ph, elfOffset);
      if p < |d| then DynamicEntriesAt(d, p, ph.filesz / 16) else []
  }

  function DynlibPart(d: seq<byte>, isSelf: bool, segs: seq<SelfSegmentHeader>, phs: seq<ProgramHeader>,
                      elfOffset: nat): seq<byte>
  {
    var i := LastOf(phs, SceDynlibData);
    if i.None? then []
    else DataAt(d, Resolve(isSelf, segs, phs, i.value, phs[i.value], elfOffset), phs[i.value].filesz)
  }

  /** The ELF at `elfOffset`, behind `segs` when it is wrapped. */
  function ParseElfAt(d: seq<byte>, isSelf: bool, selfHeader: Option<SelfHeader>, segs: seq<SelfSegmentHeader>,
                      elfOffset: nat): Result<Elf, ElfError>
  {
    var header := ElfHeaderAt(d, elfOffset);
    if header.Err? then Err(header.error)
    else
      var h := header.value;
      if h.phnum > 0 && elfOffset + h.phoff + 56 * h.phnum > |d| then Err(Io)
      else
        var phs := ProgramHeaders(d, elfOffset + h.phoff, h.phnum);
        Ok(Elf(isSelf, selfHeader, segs, h, phs, DynamicPart(d, isSelf, segs, phs, elfOffset),
               DynlibPart(d, isSelf, segs, phs, elfOffset), d))
  }

  function ParseFile(d: seq<byte>): Result<Elf, ElfError> {
    if |d| < 4 then Err(Io)
    else if U32At(d, 0) != SELF_MAGIC then ParseElfAt(d, false, None, [], 0)
    else if |d| < 32 then Err(Io)
    else
      var sh := SelfHeaderAt(d, 0);
      if 32 + 32 * sh.segmentCount > |d| then Err(Io)
      else ParseElfAt(d, true, Some(sh), SelfSegments(d, sh.segmentCount), 32 + 32 * sh.segmentCount)
  }

  /** The offset recomputed from the SELF header is where the cursor stood after reading it, so
      later lookups resolve as the parser's own did. */
  lemma OffsetIsCursorPosition(d: seq<byte>)
    requires ParseFile(d).Ok?
    ensures var elf := ParseFile(d).value;
            && ElfOffset(elf) == (if U32At(d, 0) == SELF_MAGIC then 32 + 32 * |elf.selfSegments| else 0)
            && ElfHeaderAt(d, ElfOffset(elf)) == Ok(elf.header)
            && elf.dynamicEntries
               == DynamicPart(d, elf.isSelf, elf.selfSegments, elf.programHeaders, ElfOffset(elf))
            && elf.dynlibData == DynlibPart(d, elf.isSelf, elf.selfSegments, elf.programHeaders, ElfOffset(elf))
  {
    hide ElfHeaderAt, DynamicPart, DynlibPart, ProgramHeaders, SelfSegments, U32At;
  }

  // ---------------------------------------------------------------------------
  // The parser
  // ---------------------------------------------------------------------------

  /** Parse an ELF or SELF from raw bytes. */
  method Parse(d: seq<byte>) returns (r: Result<Elf, ElfError>)
    ensures r == ParseFile(d)
  {
    hide ParseElfAt, SelfHeaderAt, SelfSegments, U32At;
    if |d| < 4 {
      return Err(Io);
    }
    if U32At(d, 0) != SELF_MAGIC {
      r := ReadElf(d, false, None, [], 0);
    } else {
      if |d| < 32 {
        return Err(Io);
      }
      var sh := SelfHeaderAt(d, 0);
      var segs, elfOffset, complete := ReadSelfSegments(d, sh.segmentCount);
      if !complete {
        return Err(Io);
      }
      r := ReadElf(d, true, Some(sh), segs, elfOffset);
    }
  }

  /** Read the ELF header, the program headers and the dynamic linking data. */
  method ReadElf(d: seq<byte>, isSelf: bool, selfHeader: Option<SelfHeader>, segs: seq<SelfSegmentHeader>,
                 elfOffset: nat) returns (r: Result<Elf, ElfError>)
    ensures r == ParseElfAt(d, isSelf, selfHeader, segs, elfOffset)
  {
    hide ElfHeaderAt, DynamicPart, DynlibPart, ProgramHeaders;
    var header := ElfHeaderAt(d, elfOffset);
    if header.Err? {
      return Err(header.error);
    }
    var phs, complete := ReadProgramHeaders(d, elfOffset + header.value.phoff, header.value.phnum);
    if !complete {
      return Err(Io);
    }
    var entries, dynlib := ReadDynamicParts(d, isSelf, segs, phs, elfOffset);
    return Ok(Elf(isSelf, selfHeader, segs, header.value, phs, entries, dynlib, d));
  }

  method ReadDynamicParts(d: seq<byte>, isSelf: bool, segs: seq<SelfSegmentHeader>, phs: seq<ProgramHeader>,
                          elfOffset: nat) returns (entries: seq<DynamicEntry>, dynlib: seq<byte>)
    ensures entries == DynamicPart(d, isSelf, segs, phs, elfOffset)
    ensures dynlib == DynlibPart(d, isSelf, segs, phs, elfOffset)
  {
    hide Resolve, DynamicEntriesAt, DataAt, LastOf;
    entries, dynlib := [], [];
    var dynamicIdx, dynlibIdx := FindDynamicHeaders(phs);
    if dynamicIdx.Some? {
      var ph := phs[dynamicIdx.value];
      var p := Resolve(isSelf, segs, phs, dynamicIdx.value, ph, elfOffset);
      if p < |d| {
        entries := ReadDynamicEntries(d, p, ph.filesz / 16);
      }
    }
    if dynlibIdx.Some? {
      var ph := phs[dynlibIdx.value];
      dynlib := DataAt(d, Resolve(isSelf, segs, phs, dynlibIdx.value, ph, elfOffset), ph.filesz);
    }
  }

  /** Read the segment table; false when the file ends inside it. */
  method ReadSelfSegments(d: seq<byte>, count: nat)
    returns (segs: seq<SelfSegmentHeader>, position: nat, complete: bool)
    requires |d| >= 32
    ensures complete <==> 32 + 32 * count <= |d|
    ensures complete ==> segs == SelfSegments(d, count) && position == 32 + 32 * count
  {
    hide SelfSegmentAt;
    segs, position := [], 32;
    while |segs| < count
      invariant |segs| <= count && position == 32 + 32 * |segs| <= |d|
      invariant forall k | 0 <= k < |segs| :: segs[k] == SelfSegmentAt(d, 32 + 32 * k)
      decreases count - |segs|
    {
      if position + 32 > |d| {
        return segs, position, false;
      }
      segs := segs + [SelfSegmentAt(d, position)];
      position := position + 32;
    }
    return segs, position, true;
  }

  method ReadProgramHeaders(d: seq<byte>, start: nat, count: nat) returns (phs: seq<ProgramHeader>, complete: bool)
    ensures complete <==> count == 0 || start + 56 * count <= |d|
    ensures complete ==> phs == ProgramHeaders(d, start, count)
  {
    hide ProgramHeaderAt;
    phs := [];
    var position := start;
    while |phs| < count
      invariant |phs| <= count && position == start + 56 * |phs|
      invariant phs != [] ==> position <= |d|
      invariant forall k | 0 <= k < |phs| :: phs[k] == ProgramHeaderAt(d, start + 56 * k)
      decreases count - |phs|
    {
      if position + 56 > |d| {
        return phs, false;
      }
      phs := phs + [ProgramHeaderAt(d, position)];
      position := position + 56;
    }
    return phs, true;
  }

  method FindDynamicHeaders(phs: seq<ProgramHeader>) returns (dynamicIdx: Option<nat>, dynlibIdx: Option<nat>)
    ensures dynamicIdx == LastOf(phs, Dynamic) && dynlibIdx == LastOf(phs, SceDynlibData)
  {
    dynamicIdx, dynlibIdx := None, None;
    var i := 0;
    while i < |phs|
      invariant 0 <= i <= |phs|
      invariant dynamicIdx == LastOf(phs[..i], Dynamic) && dynlibIdx == LastOf(phs[..i], SceDynlibData)
    {
      assert phs[..i + 1][..i] == phs[..i];
      if phs[i].phdrType == Dynamic {
        dynamicIdx := Some(i);
      } else if phs[i].phdrType == SceDynlibData {
        dynlibIdx := Some(i);
      }
      i := i + 1;
    }
    assert phs[..|phs|] == phs;
  }

  method ReadDynamicEntries(d: seq<byte>, start: nat, count: nat) returns (entries: seq<DynamicEntry>)
    ensures entries == DynamicEntriesAt(d, start, count)
  {
    hide U64At, SignedOf64;
    entries := [];
    var position: nat, left: nat := start, count;
    while left > 0
      invariant entries + DynamicEntriesAt(d, position, left) == DynamicEntriesAt(d, start, count)
    {
      if position + 16 > |d| {
        break;
      }
      var tag, value := SignedOf64(U64At(d, position)), U64At(d, position + 8);
      if tag == 0 {
        break;
      }
      assert entries + ([DynamicEntry(tag, value)] + DynamicEntriesAt(d, position + 16, left - 1))
             == (entries + [DynamicEntry(tag, value)]) + DynamicEntriesAt(d, position + 16, left - 1);
      entries := entries + [DynamicEntry(tag, value)];
      position := position + 16;
      left := left - 1;
    }
  }
}
