/** Wrapping an ELF in a SELF: the partner of the parser in crates/core/src/loader/elf.rs.

    `MakeSelf` gives every program header a blocked segment of its own and puts the segments'
    bytes behind the ELF, any distance away. Whatever ELF is wrapped, the loader unwraps it. */
module SelfWriter {
  import opened Wrappers
  import opened Types
  import opened Bytes
  import opened Elf
  import opened SelfRefinement
  import MI = ModuleImage

  /** The headers' bytes lie in the file, segment ids are twelve bits wide, and offsets and sizes
      are 64-bit words. */
  ghost predicate Wrappable(e: seq<byte>, phs: seq<ProgramHeader>, pad: seq<byte>) {
    && |phs| <= 0x1000
    && DataOffset(e, |phs|, pad) + |e| < U64
    && forall i | 0 <= i < |phs| :: InFile(e, phs[i]) && phs[i].memsz < U64
  }

  /** Where the segments' bytes start: behind the tables, the ELF and the padding. */
  function DataOffset(e: seq<byte>, n: nat, pad: seq<byte>): nat {
    32 + 32 * n + |e| + |pad|
  }

  function Zeros(n: nat): (r: seq<byte>)
    ensures |r| == n
  {
    seq(n, _ => 0)
  }

  /** Magic, no further attributes, and the segment count. */
  function SelfHeaderBytes(n: nat): (r: seq<byte>)
    requires n < U16
    ensures |r| == 32
  {
    Le32(SELF_MAGIC) + Zeros(20) + Le16(n) + Zeros(6)
  }

  /** A blocked segment with id `k`. */
  function SegmentRecord(k: nat, fileOffset: nat, ph: ProgramHeader): (r: seq<byte>)
    requires k < 0x1000 && fileOffset < U64 && ph.filesz < U64 && ph.memsz < U64
    ensures |r| == 32
  {
    Le64(0x800 + k * 0x10_0000) + Le64(fileOffset) + Le64(ph.filesz) + Le64(ph.memsz)
  }

  ghost function RecordOf(e: seq<byte>, phs: seq<ProgramHeader>, pad: seq<byte>, k: nat): (r: seq<byte>)
    requires Wrappable(e, phs, pad) && k < |phs|
    ensures |r| == 32
  {
    assert InFile(e, phs[k]);
    SegmentRecord(k, DataOffset(e, |phs|, pad) + phs[k].offset, phs[k])
  }

  /** The first `n` records of the segment table. */
  ghost function SegmentRecords(e: seq<byte>, phs: seq<ProgramHeader>, pad: seq<byte>, n: nat): (rs: seq<seq<byte>>)
    requires Wrappable(e, phs, pad) && n <= |phs|
    ensures |rs| == n
  {
    if n == 0 then [] else SegmentRecords(e, phs, pad, n - 1) + [RecordOf(e, phs, pad, n - 1)]
  }

  lemma {:induction false} RecordIs(e: seq<byte>, phs: seq<ProgramHeader>, pad: seq<byte>, n: nat, k: nat)
    requires Wrappable(e, phs, pad) && k < n <= |phs|
    ensures SegmentRecords(e, phs, pad, n)[k] == RecordOf(e, phs, pad, k)
  {
    hide Wrappable, RecordOf;
    if k < n - 1 {
      RecordIs(e, phs, pad, n - 1, k);
    }
  }

  lemma RecordSizes(e: seq<byte>, phs: seq<ProgramHeader>, pad: seq<byte>, n: nat)
    requires Wrappable(e, phs, pad) && n <= |phs|
    ensures forall k | 0 <= k < n :: |SegmentRecords(e, phs, pad, n)[k]| == 32
  {
    hide Wrappable, RecordOf, SegmentRecords;
    forall k | 0 <= k < n
      ensures |SegmentRecords(e, phs, pad, n)[k]| == 32
    {
      RecordIs(e, phs, pad, n, k);
    }
  }

  ghost function MakeSelf(e: seq<byte>, phs: seq<ProgramHeader>, pad: seq<byte>): seq<byte>
    requires Wrappable(e, phs, pad)
  {
    SelfHeaderBytes(|phs|) + Flatten(SegmentRecords(e, phs, pad, |phs|)) + e + pad + e
  }

  /** Where the five parts stand. */
  lemma Parts(h: seq<byte>, t: seq<byte>, e: seq<byte>, pad: seq<byte>)
    ensures var s := h + t + e + pad + e;
            && Holds(s, 0, h)
            && Holds(s, |h|, t)
            && Holds(s, |h| + |t|, e)
            && Holds(s, |h| + |t| + |e| + |pad|, e)
  {
    var s := h + t + e + pad + e;
    assert s[0..|h|] == h;
    assert s[|h|..|h| + |t|] == t;
    assert s[|h| + |t|..|h| + |t| + |e|] == e;
    assert s[|h| + |t| + |e| + |pad|..] == e;
  }

  lemma TableLength(e: seq<byte>, phs: seq<ProgramHeader>, pad: seq<byte>)
    requires Wrappable(e, phs, pad)
    ensures |Flatten(SegmentRecords(e, phs, pad, |phs|))| == 32 * |phs|
  {
    hide Wrappable, RecordOf, SegmentRecords;
    var rs := SegmentRecords(e, phs, pad, |phs|);
    RecordSizes(e, phs, pad, |phs|);
    FixedOffsets(rs, |rs|, 32);
    assert rs[..|rs|] == rs;
  }

  lemma Layout(e: seq<byte>, phs: seq<ProgramHeader>, pad: seq<byte>)
    requires Wrappable(e, phs, pad)
    ensures var s, n := MakeSelf(e, phs, pad), |phs|;
            && Holds(s, 0, SelfHeaderBytes(n))
            && Holds(s, 32, Flatten(SegmentRecords(e, phs, pad, |phs|)))
            && Holds(s, 32 + 32 * n, e)
            && Holds(s, DataOffset(e, n, pad), e)
            && 32 + 32 * n <= |s|
  {
    hide Wrappable, Holds, Flatten, RecordOf, SelfHeaderBytes;
    TableLength(e, phs, pad);
    assert |phs| < U16 by {
      WrappableCount(e, phs, pad);
    }
    Parts(SelfHeaderBytes(|phs|), Flatten(SegmentRecords(e, phs, pad, |phs|)), e, pad);
  }

  lemma WrappableCount(e: seq<byte>, phs: seq<ProgramHeader>, pad: seq<byte>)
    requires Wrappable(e, phs, pad)
    ensures |phs| <= 0x1000
    ensures forall i | 0 <= i < |phs| :: InFile(e, phs[i])
  {
  }

  lemma ReadsSelfHeader(s: seq<byte>, n: nat)
    requires n < U16 && Holds(s, 0, SelfHeaderBytes(n))
    ensures |s| >= 32 && U32At(s, 0) == SELF_MAGIC && U16At(s, 24) == n
  {
    hide U32At, U16At, Le32, Le16;
    var magic, count := Le32(SELF_MAGIC), Le16(n);
    HoldsParts(s, 0, magic + Zeros(20) + count, Zeros(6));
    HoldsParts(s, 0, magic + Zeros(20), count);
    HoldsParts(s, 0, magic, Zeros(20));
    Read32(s, 0, SELF_MAGIC);
    Read16(s, 24, n);
  }

  predicate IsSelfHeader(h: SelfHeader) {
    && h.version < 256 && h.mode < 256 && h.endian < 256 && h.attributes < 256 && h.category < 256
    && h.programType < 256 && h.headerSize < U16 && h.metaSize < U16 && h.fileSize < U32 && h.segmentCount < U16
  }

  /** A whole SELF header: the fields, and the padding between them. */
  function FullHeaderBytes(h: SelfHeader, pad1: seq<byte>, pad2: seq<byte>, pad3: seq<byte>): (r: seq<byte>)
    requires IsSelfHeader(h) && |pad1| == 2 && |pad2| == 4 && |pad3| == 6
    ensures |r| == 32
  {
    (Le32(SELF_MAGIC) + [h.version, h.mode, h.endian, h.attributes, h.category, h.programType])
    + (pad1 + Le16(h.headerSize) + Le16(h.metaSize) + Le32(h.fileSize)) + (pad2 + Le16(h.segmentCount) + pad3)
  }

  lemma ReadsSelfBytes(s: seq<byte>, h: SelfHeader)
    requires IsSelfHeader(h)
    requires Holds(s, 0, Le32(SELF_MAGIC) + [h.version, h.mode, h.endian, h.attributes, h.category, h.programType])
    ensures |s| >= 10 && U32At(s, 0) == SELF_MAGIC
    ensures s[4] == h.version && s[5] == h.mode && s[6] == h.endian && s[7] == h.attributes && s[8] == h.category
    ensures s[9] == h.programType
  {
    var tail: seq<byte> := [h.version, h.mode, h.endian, h.attributes, h.category, h.programType];
    HoldsParts(s, 0, Le32(SELF_MAGIC), tail);
    hide U32At, Le32;
    Read32(s, 0, SELF_MAGIC);
    assert s[4..10] == tail;
    assert s[4] == s[4..10][0] && s[5] == s[4..10][1] && s[6] == s[4..10][2];
    assert s[7] == s[4..10][3] && s[8] == s[4..10][4] && s[9] == s[4..10][5];
  }

  lemma ReadsSelfSizes(s: seq<byte>, h: SelfHeader, pad1: seq<byte>)
    requires IsSelfHeader(h) && |pad1| == 2
    requires Holds(s, 10, pad1 + Le16(h.headerSize) + Le16(h.metaSize) + Le32(h.fileSize))
    ensures |s| >= 20
    ensures U16At(s, 12) == h.headerSize && U16At(s, 14) == h.metaSize && U32At(s, 16) == h.fileSize
  {
    hide U16At, U32At, Le16, Le32;
    HoldsParts(s, 10, pad1 + Le16(h.headerSize) + Le16(h.metaSize), Le32(h.fileSize));
    HoldsParts(s, 10, pad1 + Le16(h.headerSize), Le16(h.metaSize));
    HoldsParts(s, 10, pad1, Le16(h.headerSize));
    Read16(s, 12, h.headerSize);
    Read16(s, 14, h.metaSize);
    Read32(s, 16, h.fileSize);
  }

  /** A SELF header written out field by field is read back. */
  lemma ReadsFullHeader(s: seq<byte>, h: SelfHeader, pad1: seq<byte>, pad2: seq<byte>, pad3: seq<byte>)
    requires IsSelfHeader(h) && |pad1| == 2 && |pad2| == 4 && |pad3| == 6
    requires Holds(s, 0, FullHeaderBytes(h, pad1, pad2, pad3))
    ensures |s| >= 32 && U32At(s, 0) == SELF_MAGIC && SelfHeaderAt(s, 0) == h
  {
    hide U16At, U32At, Le16, Le32, Holds;
    var a := Le32(SELF_MAGIC) + [h.version, h.mode, h.endian, h.attributes, h.category, h.programType];
    var b := pad1 + Le16(h.headerSize) + Le16(h.metaSize) + Le32(h.fileSize);
    var c := pad2 + Le16(h.segmentCount) + pad3;
    HoldsLength(s, 0, a + b + c);
    HoldsParts(s, 0, a + b, c);
    HoldsParts(s, 0, a, b);
    ReadsSelfBytes(s, h);
    ReadsSelfSizes(s, h, pad1);
    HoldsParts(s, 20, pad2 + Le16(h.segmentCount), pad3);
    HoldsParts(s, 20, pad2, Le16(h.segmentCount));
    Read16(s, 24, h.segmentCount);
  }

  /** The flags of segment `k` say that it is blocked and has id `k`. */
  lemma FlagsOf(k: nat, segment: SelfSegmentHeader)
    requires k < 0x1000 && segment.flags == 0x800 + k * 0x10_0000
    ensures segment.IsBlocked() && segment.GetId() == k
  {
    BlockedBit(k);
    IdBits(k);
  }

  lemma BlockedBit(k: nat)
    ensures ((0x800 + k * 0x10_0000) / 0x800) % 2 == 1
  {
    RemainderIs(1 + 2 * (256 * k), 2, 256 * k, 1);
    assert (0x800 + k * 0x10_0000) / 0x800 == 1 + 512 * k;
  }

  lemma IdBits(k: nat)
    requires k < 0x1000
    ensures ((0x800 + k * 0x10_0000) / 0x10_0000) % 0x1000 == k
  {
    assert (0x800 + k * 0x10_0000) / 0x10_0000 == k;
  }

  lemma ReadsSegment(s: seq<byte>, p: nat, k: nat, fileOffset: nat, ph: ProgramHeader)
    requires k < 0x1000 && fileOffset < U64 && ph.filesz < U64 && ph.memsz < U64
    requires Holds(s, p, SegmentRecord(k, fileOffset, ph))
    ensures p + 32 <= |s|
    ensures SelfSegmentAt(s, p) == SelfSegmentHeader(0x800 + k * 0x10_0000, fileOffset, ph.filesz, ph.memsz)
  {
    hide U64At, Le64;
    var flags := 0x800 + k * 0x10_0000;
    FourWords(s, p, Le64(flags), Le64(fileOffset), Le64(ph.filesz), Le64(ph.memsz));
    Read64(s, p, flags);
    Read64(s, p + 8, fileOffset);
    Read64(s, p + 16, ph.filesz);
    Read64(s, p + 24, ph.memsz);
  }

  lemma FourWords(s: seq<byte>, p: nat, a: seq<byte>, b: seq<byte>, c: seq<byte>, d: seq<byte>)
    requires Holds(s, p, a + b + c + d)
    ensures Holds(s, p, a) && Holds(s, p + |a|, b)
    ensures Holds(s, p + |a| + |b|, c) && Holds(s, p + |a| + |b| + |c|, d)
    ensures p + |a| + |b| + |c| + |d| <= |s|
  {
    HoldsParts(s, p, a + b + c, d);
    HoldsParts(s, p, a + b, c);
    HoldsParts(s, p, a, b);
  }

  /** Record `k` of the table, as the parser reads it. */
  lemma ReadsRecord(e: seq<byte>, phs: seq<ProgramHeader>, pad: seq<byte>, s: seq<byte>, k: nat)
    requires Wrappable(e, phs, pad) && k < |phs|
    requires Holds(s, 32, Flatten(SegmentRecords(e, phs, pad, |phs|)))
    ensures 32 + 32 * k + 32 <= |s|
    ensures SelfSegmentAt(s, 32 + 32 * k).IsBlocked() && SelfSegmentAt(s, 32 + 32 * k).GetId() == k
    ensures SelfSegmentAt(s, 32 + 32 * k).fileOffset == DataOffset(e, |phs|, pad) + phs[k].offset
  {
    hide Holds, Flatten, SelfSegmentAt, SegmentRecord;
    var rs := SegmentRecords(e, phs, pad, |phs|);
    RecordAt(rs, k);
    RecordIs(e, phs, pad, |phs|, k);
    RecordSizes(e, phs, pad, |phs|);
    FixedOffsets(rs, k, 32);
    HoldsInside(s, 32, Flatten(rs), 32 * k, rs[k]);
    assert InFile(e, phs[k]);
    ReadsSegment(s, 32 + 32 * k, k, DataOffset(e, |phs|, pad) + phs[k].offset, phs[k]);
    FlagsOf(k, SelfSegmentAt(s, 32 + 32 * k));
  }

  /** Segment `k` belongs to header `k` and points at its bytes. */
  lemma SegmentPointsAtBytes(e: seq<byte>, phs: seq<ProgramHeader>, pad: seq<byte>, k: nat)
    requires Wrappable(e, phs, pad) && k < |phs|
    ensures var s, n := MakeSelf(e, phs, pad), |phs|;
            && 32 + 32 * n <= |s| && InFile(e, phs[k])
            && SelfSegments(s, n)[k].IsBlocked() && SelfSegments(s, n)[k].GetId() == k
            && Holds(s, SelfSegments(s, n)[k].fileOffset, FileBytes(e, phs[k]))
  {
    hide Wrappable, Holds, Flatten, MakeSelf, SelfSegmentAt, RecordOf;
    var s := MakeSelf(e, phs, pad);
    Layout(e, phs, pad);
    WrappableCount(e, phs, pad);
    ReadsRecord(e, phs, pad, s, k);
    PartHeld(s, DataOffset(e, |phs|, pad), e, phs[k].offset, phs[k].filesz);
  }

  lemma PartHeld(s: seq<byte>, p: nat, e: seq<byte>, i: nat, k: nat)
    requires Holds(s, p, e) && i + k <= |e|
    ensures Holds(s, p + i, e[i..i + k])
  {
    SubOfSub(s, p, |e|, i, k);
  }

  lemma HeaderInFile(e: seq<byte>, plain: Elf)
    requires ElfHeaderAt(e, 0) == Ok(plain.header)
    ensures |e| >= 64
  {
  }

  lemma CopiesTables(s: seq<byte>, elfOffset: nat, e: seq<byte>, plain: Elf)
    requires Holds(s, elfOffset, e) && ParseFile(e) == Ok(plain) && !plain.isSelf
    ensures TablesCopied(s, elfOffset, e, plain.header)
  {
    hide ParseFile, Holds, ElfHeaderAt, ProgramHeaders, DynamicPart, DynlibPart;
    var h := plain.header;
    PlainFacts(e, plain);
    HeaderInFile(e, plain);
    PartHeld(s, elfOffset, e, 0, 64);
    assert e[0..64] == e[..64];
    if h.phnum > 0 {
      PartHeld(s, elfOffset, e, h.phoff, 56 * h.phnum);
    }
  }

  lemma OwnSegmentFound(segs: seq<SelfSegmentHeader>, i: nat)
    requires i < |segs| && segs[i].IsBlocked() && segs[i].GetId() == i
    ensures OwnSegment(segs, i, 0).Some?
  {
  }

  /** The segments of the SELF made hold their headers' bytes and give every header a place. */
  lemma SegmentsServe(e: seq<byte>, phs: seq<ProgramHeader>, pad: seq<byte>)
    requires Wrappable(e, phs, pad)
    ensures var s, n := MakeSelf(e, phs, pad), |phs|;
            && 32 + 32 * n <= |s|
            && SegmentsHoldParents(s, SelfSegments(s, n), e, phs)
            && AllPlaced(s, SelfSegments(s, n), e, phs, 32 + 32 * n)
  {
    hide Wrappable, MakeSelf, Holds, OwnSegment, EnclosingSegment, SelfSegmentAt;
    var s, n := MakeSelf(e, phs, pad), |phs|;
    Layout(e, phs, pad);
    var segs := SelfSegments(s, n);
    forall k | 0 <= k < n
      ensures segs[k].IsBlocked() && segs[k].GetId() == k && InFile(e, phs[k])
      ensures Holds(s, segs[k].fileOffset, FileBytes(e, phs[k]))
      ensures OwnSegment(segs, k, 0).Some?
    {
      SegmentPointsAtBytes(e, phs, pad, k);
      OwnSegmentFound(segs, k);
    }
  }

  lemma Assembled(s: seq<byte>, e: seq<byte>, plain: Elf, n: nat)
    requires ParseFile(e) == Ok(plain) && !plain.isSelf
    requires |s| >= 32 && U32At(s, 0) == SELF_MAGIC && U16At(s, 24) == n && 32 + 32 * n <= |s|
    requires TablesCopied(s, 32 + 32 * n, e, plain.header)
    requires SegmentsHoldParents(s, SelfSegments(s, n), e, plain.programHeaders)
    requires AllPlaced(s, SelfSegments(s, n), e, plain.programHeaders, 32 + 32 * n)
    ensures Wraps(s, e, plain)
  {
    hide ParseFile, SelfSegments, TablesCopied, SegmentsHoldParents, AllPlaced, U32At, U16At;
  }

  /** What was made is a decrypted SELF around the ELF. */
  lemma MadeSelfWraps(e: seq<byte>, plain: Elf, pad: seq<byte>)
    requires ParseFile(e) == Ok(plain) && !plain.isSelf && Wrappable(e, plain.programHeaders, pad)
    ensures Wraps(MakeSelf(e, plain.programHeaders, pad), e, plain)
  {
    hide Wrappable, Wraps, MakeSelf, ParseFile, Holds, SelfHeaderBytes, SelfSegments, TablesCopied,
      SegmentsHoldParents, AllPlaced, U32At, U16At;
    var phs := plain.programHeaders;
    var s := MakeSelf(e, phs, pad);
    WrappableCount(e, phs, pad);
    Layout(e, phs, pad);
    ReadsSelfHeader(s, |phs|);
    CopiesTables(s, 32 + 32 * |phs|, e, plain);
    SegmentsServe(e, phs, pad);
    Assembled(s, e, plain, |phs|);
  }

  /** Wrapping and loading is loading: for every ELF and any distance to the segments' bytes, the
      SELF made from it parses, and its header, program headers, needed modules, relocations and
      image are those of the ELF. */
  lemma WrapThenLoad(e: seq<byte>, plain: Elf, pad: seq<byte>, minAddr: nat, size: nat) returns (wrapped: Elf)
    requires ParseFile(e) == Ok(plain) && !plain.isSelf && Wrappable(e, plain.programHeaders, pad)
    requires MI.MapsSegments(plain.programHeaders, minAddr, size)
    ensures ParseFile(MakeSelf(e, plain.programHeaders, pad)) == Ok(wrapped) && wrapped.isSelf
    ensures wrapped.header == plain.header && wrapped.programHeaders == plain.programHeaders
    ensures MI.NeededModules(wrapped) == MI.NeededModules(plain)
    ensures MI.ParseRelocations(wrapped) == MI.ParseRelocations(plain)
    ensures MI.Image(wrapped, minAddr, size, |plain.programHeaders|)
            == MI.Image(plain, minAddr, size, |plain.programHeaders|)
  {
    hide Wrappable, Wraps, MakeSelf, ParseFile, MI.Image, MI.MapsSegments, MI.NeededModules, MI.ParseRelocations;
    var s := MakeSelf(e, plain.programHeaders, pad);
    MadeSelfWraps(e, plain, pad);
    var again := SelfParsesLikeElf(s, e, plain);
    wrapped := MI.SelfLoadsLikeElf(s, e, plain, minAddr, size);
  }
}
