/** The layout of the tables the parsers of crates/core/src/loader/elf.rs read: an ELF header, its
    program headers and dynamic entries written out byte by byte. Any file in which they stand
    where the headers say parses to exactly them. */
module ElfWriter {
  import opened Wrappers
  import opened Types
  import opened Bytes
  import opened Elf

  function CodeOf(t: ProgramType): nat {
    match t
    case Null => 0x0
    case Load => 0x1
    case Dynamic => 0x2
    case Interp => 0x3
    case Note => 0x4
    case Phdr => 0x6
    case Tls => 0x7
    case SceRela => 0x6000_0000
    case SceDynlibData => 0x6100_0000
    case SceProcParam => 0x6100_0001
    case SceModuleParam => 0x6100_0002
    case SceRelro => 0x6100_0010
    case GnuEhFrame => 0x6474_E550
    case GnuStack => 0x6474_E551
    case GnuRelro => 0x6474_E552
    case SceComment => 0x6FFF_FF00
    case SceLibVersion => 0x6FFF_FF01
    case Unknown(raw) => raw
  }

  /** Every type the parser can produce is the type of its own code. */
  lemma TypeOfOwnCode(v: nat)
    ensures CodeOf(ProgramTypeOf(v)) == v
    ensures ProgramTypeOf(CodeOf(ProgramTypeOf(v))) == ProgramTypeOf(v)
  {
  }

  predicate IsHeader(h: ElfHeader) {
    && h.elfType < U16 && h.version < U32 && h.entry < U64 && h.phoff < U64 && h.shoff < U64 && h.flags < U32
    && h.ehsize < U16 && h.phentsize < U16 && h.phnum < U16 && h.shentsize < U16 && h.shnum < U16
    && h.shstrndx < U16
  }

  predicate IsProgramHeader(ph: ProgramHeader) {
    && ProgramTypeOf(CodeOf(ph.phdrType)) == ph.phdrType && CodeOf(ph.phdrType) < U32 && ph.flags < 8
    && ph.offset < U64 && ph.vaddr < U64 && ph.paddr < U64 && ph.filesz < U64 && ph.memsz < U64 && ph.align < U64
  }

  predicate IsDynamicEntry(e: DynamicEntry) {
    e.tag != 0 && -0x8000_0000_0000_0000 <= e.tag < 0x8000_0000_0000_0000 && e.value < U64
  }

  /** Two's complement writing of a 64-bit word. */
  function UnsignedOf64(i: int): (v: nat)
    requires -0x8000_0000_0000_0000 <= i < 0x8000_0000_0000_0000
    ensures v < U64 && SignedOf64(v) == i
  {
    if i >= 0 then i else i + U64
  }

  // ---------------------------------------------------------------------------
  // The layout
  // ---------------------------------------------------------------------------

  /** Magic, class 64, little endian, then bytes the loader skips. */
  function IdentBytes(skipped: seq<byte>): (r: seq<byte>)
    requires |skipped| == 10
    ensures |r| == 16
  {
    ELF_MAGIC + [2, 1] + skipped
  }

  function HeaderBytes(skipped: seq<byte>, h: ElfHeader): (r: seq<byte>)
    requires |skipped| == 10 && IsHeader(h)
    ensures |r| == 64
  {
    IdentBytes(skipped) + AddressBytes(h) + CountBytes(h)
  }

  function AddressBytes(h: ElfHeader): (r: seq<byte>)
    requires IsHeader(h)
    ensures |r| == 32
  {
    Le16(h.elfType) + Le16(EM_X86_64) + Le32(h.version) + Le64(h.entry) + Le64(h.phoff) + Le64(h.shoff)
  }

  function CountBytes(h: ElfHeader): (r: seq<byte>)
    requires IsHeader(h)
    ensures |r| == 16
  {
    Le32(h.flags) + Le16(h.ehsize) + Le16(h.phentsize) + Le16(h.phnum) + Le16(h.shentsize) + Le16(h.shnum)
    + Le16(h.shstrndx)
  }

  function ProgramHeaderBytes(ph: ProgramHeader): (r: seq<byte>)
    requires IsProgramHeader(ph)
    ensures |r| == 56
  {
    Le32(CodeOf(ph.phdrType)) + Le32(ph.flags) + Le64(ph.offset) + Le64(ph.vaddr) + Le64(ph.paddr)
    + Le64(ph.filesz) + Le64(ph.memsz) + Le64(ph.align)
  }

  function DynamicBytes(e: DynamicEntry): (r: seq<byte>)
    requires IsDynamicEntry(e)
    ensures |r| == 16
  {
    Le64(UnsignedOf64(e.tag)) + Le64(e.value)
  }

  /** Program header `k` stands in entry `k` of the table at `start`. */
  ghost predicate TableHolds(d: seq<byte>, start: nat, phs: seq<ProgramHeader>) {
    forall k | 0 <= k < |phs| ::
      IsProgramHeader(phs[k]) && Holds(d, start + 56 * k, ProgramHeaderBytes(phs[k]))
  }

  /** The entries stand at `p`, followed by a null tag unless they fill all `n` places or the file
      ends before another. */
  ghost predicate EntriesStand(d: seq<byte>, p: nat, es: seq<DynamicEntry>, n: nat)
    decreases n
  {
    if es == [] then n == 0 || p + 16 > |d| || Holds(d, p, Le64(0) + Le64(0))
    else
      && n > 0 && IsDynamicEntry(es[0])
      && Holds(d, p, DynamicBytes(es[0]))
      && EntriesStand(d, p + 16, es[1..], n - 1)
  }

  // ---------------------------------------------------------------------------
  // Reading it back
  // ---------------------------------------------------------------------------

  lemma ReadsIdent(d: seq<byte>, p: nat, skipped: seq<byte>)
    requires |skipped| == 10 && Holds(d, p, IdentBytes(skipped))
    ensures p + 16 <= |d| && d[p..p + 4] == ELF_MAGIC && d[p + 4] == 2 && d[p + 5] == 1
  {
    HoldsParts(d, p, ELF_MAGIC + [2, 1], skipped);
    HoldsParts(d, p, ELF_MAGIC, [2, 1]);
    HoldsAt(d, p + 4, [2, 1], 0);
    HoldsAt(d, p + 4, [2, 1], 1);
  }

  lemma ReadsAddresses(d: seq<byte>, p: nat, h: ElfHeader)
    requires IsHeader(h) && Holds(d, p, AddressBytes(h))
    ensures p + 32 <= |d|
    ensures U16At(d, p) == h.elfType && U16At(d, p + 2) == EM_X86_64 && U32At(d, p + 4) == h.version
    ensures U64At(d, p + 8) == h.entry && U64At(d, p + 16) == h.phoff && U64At(d, p + 24) == h.shoff
  {
    hide U16At, U32At, U64At, Le16, Le32, Le64, Holds;
    var a, b, c := Le16(h.elfType), Le16(EM_X86_64), Le32(h.version);
    var e, f, g := Le64(h.entry), Le64(h.phoff), Le64(h.shoff);
    HoldsLength(d, p, AddressBytes(h));
    HoldsParts(d, p, a + b + c + e + f, g);
    HoldsParts(d, p, a + b + c + e, f);
    HoldsParts(d, p, a + b + c, e);
    HoldsParts(d, p, a + b, c);
    HoldsParts(d, p, a, b);
    Read16(d, p, h.elfType);
    Read16(d, p + 2, EM_X86_64);
    Read32(d, p + 4, h.version);
    Read64(d, p + 8, h.entry);
    Read64(d, p + 16, h.phoff);
    Read64(d, p + 24, h.shoff);
  }

  lemma ReadsCounts(d: seq<byte>, p: nat, h: ElfHeader)
    requires IsHeader(h) && Holds(d, p, CountBytes(h))
    ensures p + 16 <= |d|
    ensures U32At(d, p) == h.flags && U16At(d, p + 4) == h.ehsize && U16At(d, p + 6) == h.phentsize
    ensures U16At(d, p + 8) == h.phnum && U16At(d, p + 10) == h.shentsize && U16At(d, p + 12) == h.shnum
    ensures U16At(d, p + 14) == h.shstrndx
  {
    hide U16At, U32At, Le16, Le32, Holds;
    var a, b, c, e := Le32(h.flags), Le16(h.ehsize), Le16(h.phentsize), Le16(h.phnum);
    var f, g, i := Le16(h.shentsize), Le16(h.shnum), Le16(h.shstrndx);
    HoldsLength(d, p, CountBytes(h));
    HoldsParts(d, p, a + b + c + e + f + g, i);
    HoldsParts(d, p, a + b + c + e + f, g);
    HoldsParts(d, p, a + b + c + e, f);
    HoldsParts(d, p, a + b + c, e);
    HoldsParts(d, p, a + b, c);
    HoldsParts(d, p, a, b);
    Read32(d, p, h.flags);
    Read16(d, p + 4, h.ehsize);
    Read16(d, p + 6, h.phentsize);
    Read16(d, p + 8, h.phnum);
    Read16(d, p + 10, h.shentsize);
    Read16(d, p + 12, h.shnum);
    Read16(d, p + 14, h.shstrndx);
  }

  /** A header that stands at `p` is read from there. */
  lemma ReadsElfHeader(d: seq<byte>, p: nat, skipped: seq<byte>, h: ElfHeader)
    requires |skipped| == 10 && IsHeader(h) && Holds(d, p, HeaderBytes(skipped, h))
    ensures ElfHeaderAt(d, p) == Ok(h)
  {
    hide U16At, U32At, U64At, Holds, IsHeader, IdentBytes, AddressBytes, CountBytes;
    HoldsLength(d, p, HeaderBytes(skipped, h));
    HoldsParts(d, p, IdentBytes(skipped) + AddressBytes(h), CountBytes(h));
    HoldsParts(d, p, IdentBytes(skipped), AddressBytes(h));
    ReadsIdent(d, p, skipped);
    ReadsAddresses(d, p + 16, h);
    ReadsCounts(d, p + 48, h);
  }

  lemma ReadsProgramHeader(d: seq<byte>, p: nat, ph: ProgramHeader)
    requires IsProgramHeader(ph) && Holds(d, p, ProgramHeaderBytes(ph))
    ensures p + 56 <= |d| && ProgramHeaderAt(d, p) == ph
  {
    hide U32At, U64At, Le32, Le64, Holds, CodeOf, ProgramTypeOf;
    var a, b, c, e := Le32(CodeOf(ph.phdrType)), Le32(ph.flags), Le64(ph.offset), Le64(ph.vaddr);
    var f, g, i, j := Le64(ph.paddr), Le64(ph.filesz), Le64(ph.memsz), Le64(ph.align);
    HoldsLength(d, p, ProgramHeaderBytes(ph));
    HoldsParts(d, p, a + b + c + e + f + g + i, j);
    HoldsParts(d, p, a + b + c + e + f + g, i);
    HoldsParts(d, p, a + b + c + e + f, g);
    HoldsParts(d, p, a + b + c + e, f);
    HoldsParts(d, p, a + b + c, e);
    HoldsParts(d, p, a + b, c);
    HoldsParts(d, p, a, b);
    Read32(d, p, CodeOf(ph.phdrType));
    Read32(d, p + 4, ph.flags);
    Read64(d, p + 8, ph.offset);
    Read64(d, p + 16, ph.vaddr);
    Read64(d, p + 24, ph.paddr);
    ReadsSizes(d, p + 32, ph);
  }

  /** Flag bits above the three defined ones are dropped. */
  lemma DropsOtherFlags(d: seq<byte>, p: nat, flags: nat, others: nat)
    requires p + 56 <= |d| && flags < 8 && flags + 8 * others < U32
    requires Holds(d, p + 4, Le32(flags + 8 * others))
    ensures ProgramHeaderAt(d, p).flags == flags
  {
    hide U32At, U64At, Le32, ProgramTypeOf;
    Read32(d, p + 4, flags + 8 * others);
    LowHigh(flags, others, 8);
  }

  lemma ReadsSizes(d: seq<byte>, p: nat, ph: ProgramHeader)
    requires IsProgramHeader(ph)
    requires Holds(d, p, Le64(ph.filesz)) && Holds(d, p + 8, Le64(ph.memsz)) && Holds(d, p + 16, Le64(ph.align))
    ensures p + 24 <= |d|
    ensures U64At(d, p) == ph.filesz && U64At(d, p + 8) == ph.memsz && U64At(d, p + 16) == ph.align
  {
    hide U64At, Le64;
    Read64(d, p, ph.filesz);
    Read64(d, p + 8, ph.memsz);
    Read64(d, p + 16, ph.align);
  }

  lemma ReadsTable(d: seq<byte>, start: nat, phs: seq<ProgramHeader>)
    requires TableHolds(d, start, phs)
    ensures phs != [] ==> start + 56 * |phs| <= |d|
    ensures ProgramHeaders(d, start, |phs|) == phs
  {
    hide ProgramHeaderAt, IsProgramHeader, Holds, ProgramHeaderBytes;
    forall k | 0 <= k < |phs|
      ensures start + 56 * k + 56 <= |d| && ProgramHeaderAt(d, start + 56 * k) == phs[k]
    {
      ReadsProgramHeader(d, start + 56 * k, phs[k]);
    }
    if phs != [] {
      assert start + 56 * (|phs| - 1) + 56 <= |d|;
    }
  }

  lemma ReadsOneEntry(d: seq<byte>, p: nat, e: DynamicEntry)
    requires IsDynamicEntry(e) && Holds(d, p, DynamicBytes(e))
    ensures p + 16 <= |d| && SignedOf64(U64At(d, p)) == e.tag && U64At(d, p + 8) == e.value
  {
    hide U64At, Le64;
    HoldsParts(d, p, Le64(UnsignedOf64(e.tag)), Le64(e.value));
    Read64(d, p, UnsignedOf64(e.tag));
    Read64(d, p + 8, e.value);
  }

  lemma ReadsNullTag(d: seq<byte>, p: nat)
    requires Holds(d, p, Le64(0) + Le64(0))
    ensures p + 16 <= |d| && SignedOf64(U64At(d, p)) == 0
  {
    hide U64At, Le64;
    HoldsParts(d, p, Le64(0), Le64(0));
    Read64(d, p, 0);
  }

  /** Dynamic entries that stand at `p` are read from there, up to the null tag. */
  lemma {:induction false} ReadsEntries(d: seq<byte>, p: nat, es: seq<DynamicEntry>, n: nat)
    requires EntriesStand(d, p, es, n)
    ensures DynamicEntriesAt(d, p, n) == es
    decreases n
  {
    hide U64At, SignedOf64, Holds, DynamicBytes, IsDynamicEntry;
    if es != [] {
      ReadsOneEntry(d, p, es[0]);
      assert IsDynamicEntry(es[0]);
      NotNull(es[0]);
      ReadsEntries(d, p + 16, es[1..], n - 1);
      assert es == [es[0]] + es[1..];
    } else if n > 0 && p + 16 <= |d| {
      ReadsNullTag(d, p);
    }
  }

  lemma NotNull(e: DynamicEntry)
    requires IsDynamicEntry(e)
    ensures e.tag != 0
  {
  }

  /** `lib` is what the file has of the `n` bytes at `p`: all of them, or what there is before the
      file ends. */
  ghost predicate LibraryStands(d: seq<byte>, p: nat, n: nat, lib: seq<byte>) {
    if p > |d| then lib == []
    else Holds(d, p, lib) && (|lib| == n || (|lib| < n && p + |lib| == |d|))
  }

  /** The tables of an ELF file stand where its headers say. */
  ghost predicate LaidOut(d: seq<byte>, skipped: seq<byte>, h: ElfHeader, phs: seq<ProgramHeader>,
                          es: seq<DynamicEntry>, lib: seq<byte>)
  {
    && |skipped| == 10 && IsHeader(h) && h.phnum == |phs|
    && Holds(d, 0, HeaderBytes(skipped, h))
    && TableHolds(d, h.phoff, phs)
    && (match LastOf(phs, Dynamic)
        case None => es == []
        case Some(i) => EntriesStand(d, phs[i].offset, es, phs[i].filesz / 16))
    && match LastOf(phs, SceDynlibData)
       case None => lib == []
       case Some(i) => LibraryStands(d, phs[i].offset, phs[i].filesz, lib)
  }

  lemma ReadsLibrary(d: seq<byte>, p: nat, n: nat, lib: seq<byte>)
    requires LibraryStands(d, p, n, lib)
    ensures DataAt(d, p, n) == lib
  {
  }

  lemma EntriesHaveRoom(d: seq<byte>, p: nat, es: seq<DynamicEntry>, n: nat)
    requires EntriesStand(d, p, es, n)
    ensures es != [] ==> p + 16 <= |d|
  {
    if es != [] {
      HoldsLength(d, p, DynamicBytes(es[0]));
    }
  }

  lemma ElfMagicIsNotSelf(d: seq<byte>)
    requires |d| >= 4 && d[0..4] == ELF_MAGIC
    ensures U32At(d, 0) != SELF_MAGIC
  {
    assert d[0] == d[0..4][0] && d[1] == d[0..4][1] && d[2] == d[0..4][2] && d[3] == d[0..4][3];
  }

  lemma StartsWithMagic(d: seq<byte>)
    requires ElfHeaderAt(d, 0).Ok?
    ensures |d| >= 4 && d[0..4] == ELF_MAGIC
  {
  }

  /** Any file with this layout parses to exactly its header, program headers, dynamic entries
      and library bytes. */
  lemma ParsesLayout(d: seq<byte>, skipped: seq<byte>, h: ElfHeader, phs: seq<ProgramHeader>, es: seq<DynamicEntry>,
                     lib: seq<byte>) returns (elf: Elf)
    requires LaidOut(d, skipped, h, phs, es, lib)
    ensures ParseFile(d) == Ok(elf) && !elf.isSelf && elf.data == d
    ensures elf.header == h && elf.programHeaders == phs && elf.dynamicEntries == es && elf.dynlibData == lib
  {
    hide ElfHeaderAt, ProgramHeaders, HeaderBytes, TableHolds, EntriesStand, DynamicEntriesAt, U32At, Holds, DataAt,
      LibraryStands, IsHeader;
    ReadsElfHeader(d, 0, skipped, h);
    StartsWithMagic(d);
    ElfMagicIsNotSelf(d);
    ReadsTable(d, h.phoff, phs);
    var i, j := LastOf(phs, Dynamic), LastOf(phs, SceDynlibData);
    if i.Some? {
      ReadsEntries(d, phs[i.value].offset, es, phs[i.value].filesz / 16);
      EntriesHaveRoom(d, phs[i.value].offset, es, phs[i.value].filesz / 16);
    }
    if j.Some? {
      ReadsLibrary(d, phs[j.value].offset, phs[j.value].filesz, lib);
    }
    elf := ParseFile(d).value;
  }

  // ---------------------------------------------------------------------------
  // What is refused
  // ---------------------------------------------------------------------------

  /** Every way the first bytes of a file are refused, in the order they are looked at: the magic
      of neither format, another class, another byte order, another machine, or too few bytes. */
  lemma RefusesHeaders(d: seq<byte>)
    ensures |d| < 4 ==> ParseFile(d) == Err(Io)
    ensures |d| >= 4 && d[0..4] != [0x7F, 0x45, 0x4C, 0x46] && d[0..4] != [0x4F, 0x15, 0x3D, 0x1D] ==>
              ParseFile(d) == Err(NotElf)
    ensures |d| >= 5 && d[0..4] == [0x7F, 0x45, 0x4C, 0x46] && d[4] != 2 ==> ParseFile(d) == Err(Not64Bit(d[4]))
    ensures |d| >= 6 && d[0..5] == [0x7F, 0x45, 0x4C, 0x46, 2] && d[5] != 1 ==>
              ParseFile(d) == Err(NotLittleEndian(d[5]))
    ensures |d| >= 20 && d[0..6] == [0x7F, 0x45, 0x4C, 0x46, 2, 1] && d[18..20] != [62, 0] ==>
              ParseFile(d) == Err(NotX86_64(d[18] as int + 256 * (d[19] as int)))
    ensures |d| < 64 && [0x7F, 0x45, 0x4C, 0x46, 2, 1] <= d && (|d| >= 20 ==> d[18..20] == [62, 0]) ==>
              ParseFile(d) == Err(Io)
  {
    if |d| >= 4 {
      FirstBytes(d);
      FirstWord(d);
    }
  }

  lemma FirstBytes(d: seq<byte>)
    requires |d| >= 4
    ensures |d| >= 5 ==> d[0..5] == d[0..4] + [d[4]]
    ensures |d| >= 6 ==> d[0..6] == d[0..5] + [d[5]] && ([0x7F, 0x45, 0x4C, 0x46, 2, 1] <= d <==> d[0..6] == [0x7F, 0x45, 0x4C, 0x46, 2, 1])
    ensures |d| >= 20 ==> d[18..20] == [d[18], d[19]]
  {
  }

  /** The SELF magic, byte for byte. */
  lemma FirstWord(d: seq<byte>)
    requires |d| >= 4
    ensures U32At(d, 0) == SELF_MAGIC <==> d[0..4] == [0x4F, 0x15, 0x3D, 0x1D]
  {
    var magic: seq<byte> := [0x4F, 0x15, 0x3D, 0x1D];
    assert magic == Le32(SELF_MAGIC);
    WrittenBack32(d, 0);
    assert Holds(d, 0, d[0..4]);
    if d[0..4] == magic {
      Read32(d, 0, SELF_MAGIC);
    }
  }

  /** A program header table cut off by the end of the file is refused. */
  lemma RefusesCutTable(d: seq<byte>, skipped: seq<byte>, h: ElfHeader)
    requires |skipped| == 10 && IsHeader(h) && Holds(d, 0, HeaderBytes(skipped, h))
    requires h.phnum > 0 && h.phoff + 56 * h.phnum > |d|
    ensures ParseFile(d) == Err(Io)
  {
    hide ElfHeaderAt, U32At, HeaderBytes, Holds;
    ReadsElfHeader(d, 0, skipped, h);
    StartsWithMagic(d);
    ElfMagicIsNotSelf(d);
  }
}
