/** Loading a SELF refines loading the ELF it wraps (crates/core/src/loader/elf.rs).

    `Wraps` says what a decrypted SELF has to contain; the theorem is that parsing it yields
    the program headers, dynamic entries and dynamic library data of the plain ELF, and that
    every consulted header's bytes stand at its resolved offset. */
module SelfRefinement {
  import opened Wrappers
  import opened Types
  import opened Bytes
  import opened Elf

  /** The bytes of a program header inside the plain ELF. */
  ghost predicate InFile(e: seq<byte>, ph: ProgramHeader) {
    ph.offset + ph.filesz <= |e|
  }

  ghost function FileBytes(e: seq<byte>, ph: ProgramHeader): seq<byte>
    requires InFile(e, ph)
  {
    e[ph.offset..ph.offset + ph.filesz]
  }

  /** The headers whose bytes the loader reads. */
  ghost predicate Consulted(phs: seq<ProgramHeader>, i: nat) {
    && i < |phs|
    && phs[i].filesz > 0
    && (phs[i].phdrType == Load || LastOf(phs, Dynamic) == Some(i) || LastOf(phs, SceDynlibData) == Some(i))
  }

  /** Every blocked segment of a known header holds that header's bytes. */
  ghost predicate SegmentsHoldParents(s: seq<byte>, segs: seq<SelfSegmentHeader>, e: seq<byte>,
                                      phs: seq<ProgramHeader>)
  {
    forall k | 0 <= k < |segs| && segs[k].IsBlocked() && segs[k].GetId() < |phs| ::
      var parent := phs[segs[k].GetId()];
      InFile(e, parent) && Holds(s, segs[k].fileOffset, FileBytes(e, parent))
  }

  /** A header's bytes have a place: a segment of its own, or wholly inside the first parent
      that holds its start, or, outside every parent, at its ELF offset behind the tables. */
  ghost predicate Placed(s: seq<byte>, segs: seq<SelfSegmentHeader>, e: seq<byte>, phs: seq<ProgramHeader>,
                         elfOffset: nat, i: nat)
    requires i < |phs|
  {
    var ph := phs[i];
    && InFile(e, ph)
    && (OwnSegment(segs, i, 0).Some?
        || match EnclosingSegment(segs, phs, ph.offset, 0)
           case Some(k) =>
             var parent := phs[segs[k].GetId()];
             ph.offset + ph.filesz <= parent.offset + parent.filesz
           case None => Holds(s, elfOffset + ph.offset, FileBytes(e, ph)))
  }

  /** `s` is a decrypted SELF around the file `e`, which parses as the plain ELF `plain`. */
  ghost predicate Wraps(s: seq<byte>, e: seq<byte>, plain: Elf) {
    && ParseFile(e) == Ok(plain) && !plain.isSelf
    && |s| >= 32 && U32At(s, 0) == SELF_MAGIC && 32 + 32 * U16At(s, 24) <= |s|
    && TablesCopied(s, 32 + 32 * U16At(s, 24), e, plain.header)
    && SegmentsHoldParents(s, SelfSegments(s, U16At(s, 24)), e, plain.programHeaders)
    && AllPlaced(s, SelfSegments(s, U16At(s, 24)), e, plain.programHeaders, 32 + 32 * U16At(s, 24))
  }

  /** The ELF header and the program header table stand behind the SELF tables. */
  ghost predicate TablesCopied(s: seq<byte>, elfOffset: nat, e: seq<byte>, h: ElfHeader) {
    && |e| >= 64
    && Holds(s, elfOffset, e[..64])
    && (h.phnum > 0 ==>
          && h.phoff + 56 * h.phnum <= |e|
          && Holds(s, elfOffset + h.phoff, e[h.phoff..h.phoff + 56 * h.phnum]))
  }

  ghost predicate AllPlaced(s: seq<byte>, segs: seq<SelfSegmentHeader>, e: seq<byte>, phs: seq<ProgramHeader>,
                            elfOffset: nat)
  {
    forall i | Consulted(phs, i) :: Placed(s, segs, e, phs, elfOffset, i)
  }

  /** With disjoint parents, lying inside some parent is enough to be placed. */
  lemma DisjointParentsPlace(s: seq<byte>, segs: seq<SelfSegmentHeader>, e: seq<byte>, phs: seq<ProgramHeader>,
                             elfOffset: nat, i: nat, k: nat)
    requires i < |phs| && InFile(e, phs[i]) && phs[i].filesz > 0
    requires forall a, b | 0 <= a < |segs| && 0 <= b < |segs| && segs[a].IsBlocked() && segs[b].IsBlocked()
                           && segs[a].GetId() < |phs| && segs[b].GetId() < |phs|
                           && segs[a].GetId() != segs[b].GetId() ::
               var p, q := phs[segs[a].GetId()], phs[segs[b].GetId()];
               p.offset + p.filesz <= q.offset || q.offset + q.filesz <= p.offset
    requires k < |segs| && segs[k].IsBlocked() && segs[k].GetId() < |phs|
    requires phs[segs[k].GetId()].offset <= phs[i].offset
    requires phs[i].offset + phs[i].filesz <= phs[segs[k].GetId()].offset + phs[segs[k].GetId()].filesz
    ensures Placed(s, segs, e, phs, elfOffset, i)
  {
    assert Encloses(segs, phs, k, phs[i].offset);
    var found := EnclosingSegment(segs, phs, phs[i].offset, 0);
    assert found.Some? && found.value <= k;
    assert Encloses(segs, phs, found.value, phs[i].offset);
    assert segs[found.value].GetId() == segs[k].GetId();
  }

  /** Every placed header's bytes stand at its resolved offset. */
  lemma ResolvesToBytes(s: seq<byte>, segs: seq<SelfSegmentHeader>, e: seq<byte>, phs: seq<ProgramHeader>,
                        elfOffset: nat, i: nat)
    requires i < |phs| && SegmentsHoldParents(s, segs, e, phs) && Placed(s, segs, e, phs, elfOffset, i)
    ensures Holds(s, Resolve(true, segs, phs, i, phs[i], elfOffset), FileBytes(e, phs[i]))
  {
    var ph := phs[i];
    var own, found := OwnSegment(segs, i, 0), EnclosingSegment(segs, phs, ph.offset, 0);
    if own.None? && found.Some? {
      var seg := segs[found.value];
      var parent := phs[seg.GetId()];
      assert Encloses(segs, phs, found.value, ph.offset);
      PartOfHeld(s, seg.fileOffset, e, parent.offset, parent.filesz, ph.offset - parent.offset, ph.filesz);
    }
  }

  lemma PartOfHeld(s: seq<byte>, p: nat, e: seq<byte>, q: nat, n: nat, i: nat, k: nat)
    requires q + n <= |e| && i + k <= n && Holds(s, p, e[q..q + n])
    ensures Holds(s, p + i, e[q + i..q + i + k])
  {
    SameSub(s, p, e, q, n, i, k);
  }

  // ---------------------------------------------------------------------------
  // Records read the same
  // ---------------------------------------------------------------------------

  lemma SameWord16(s: seq<byte>, p: nat, e: seq<byte>, q: nat, n: nat, i: nat)
    requires p + n <= |s| && q + n <= |e| && s[p..p + n] == e[q..q + n] && i + 2 <= n
    ensures U16At(s, p + i) == U16At(e, q + i)
  {
    SameSub(s, p, e, q, n, i, 2);
    Same16(s, p + i, e, q + i);
  }

  lemma SameWord32(s: seq<byte>, p: nat, e: seq<byte>, q: nat, n: nat, i: nat)
    requires p + n <= |s| && q + n <= |e| && s[p..p + n] == e[q..q + n] && i + 4 <= n
    ensures U32At(s, p + i) == U32At(e, q + i)
  {
    SameSub(s, p, e, q, n, i, 4);
    Same32(s, p + i, e, q + i);
  }

  lemma SameWord64(s: seq<byte>, p: nat, e: seq<byte>, q: nat, n: nat, i: nat)
    requires p + n <= |s| && q + n <= |e| && s[p..p + n] == e[q..q + n] && i + 8 <= n
    ensures U64At(s, p + i) == U64At(e, q + i)
  {
    SameSub(s, p, e, q, n, i, 8);
    Same64(s, p + i, e, q + i);
  }

  lemma SameFields(s: seq<byte>, p: nat, e: seq<byte>, q: nat)
    requires p + 64 <= |s| && q + 64 <= |e| && s[p..p + 64] == e[q..q + 64]
    ensures HeaderFields(s, p) == HeaderFields(e, q)
  {
    hide U16At, U32At, U64At;
    SameWord16(s, p, e, q, 64, 16);
    SameWord32(s, p, e, q, 64, 20);
    SameWord64(s, p, e, q, 64, 24);
    SameWord64(s, p, e, q, 64, 32);
    SameWord64(s, p, e, q, 64, 40);
    SameWord32(s, p, e, q, 64, 48);
    SameFieldsTail(s, p, e, q);
  }

  lemma SameFieldsTail(s: seq<byte>, p: nat, e: seq<byte>, q: nat)
    requires p + 64 <= |s| && q + 64 <= |e| && s[p..p + 64] == e[q..q + 64]
    ensures U16At(s, p + 52) == U16At(e, q + 52) && U16At(s, p + 54) == U16At(e, q + 54)
    ensures U16At(s, p + 56) == U16At(e, q + 56) && U16At(s, p + 58) == U16At(e, q + 58)
    ensures U16At(s, p + 60) == U16At(e, q + 60) && U16At(s, p + 62) == U16At(e, q + 62)
  {
    hide U16At;
    SameWord16(s, p, e, q, 64, 52);
    SameWord16(s, p, e, q, 64, 54);
    SameWord16(s, p, e, q, 64, 56);
    SameWord16(s, p, e, q, 64, 58);
    SameWord16(s, p, e, q, 64, 60);
    SameWord16(s, p, e, q, 64, 62);
  }

  lemma SameElfHeader(s: seq<byte>, p: nat, e: seq<byte>)
    requires |e| >= 64 && Holds(s, p, e[..64])
    ensures ElfHeaderAt(s, p) == ElfHeaderAt(e, 0)
  {
    assert e[..64] == e[0..64];
    SameFields(s, p, e, 0);
    SameWord16(s, p, e, 0, 64, 18);
    SameSub(s, p, e, 0, 64, 0, 4);
    HoldsAt(s, p, e[..64], 4);
    HoldsAt(s, p, e[..64], 5);
  }

  lemma SameProgramHeader(s: seq<byte>, p: nat, e: seq<byte>, q: nat)
    requires p + 56 <= |s| && q + 56 <= |e| && s[p..p + 56] == e[q..q + 56]
    ensures ProgramHeaderAt(s, p) == ProgramHeaderAt(e, q)
  {
    hide U32At, U64At, ProgramTypeOf;
    SameWord32(s, p, e, q, 56, 0);
    SameWord32(s, p, e, q, 56, 4);
    SameWord64(s, p, e, q, 56, 8);
    SameWord64(s, p, e, q, 56, 16);
    SameWord64(s, p, e, q, 56, 24);
    SameWord64(s, p, e, q, 56, 32);
    SameWord64(s, p, e, q, 56, 40);
    SameWord64(s, p, e, q, 56, 48);
  }

  lemma SameProgramHeaders(s: seq<byte>, p: nat, e: seq<byte>, q: nat, n: nat)
    requires q + 56 * n <= |e| && Holds(s, p, e[q..q + 56 * n])
    ensures ProgramHeaders(s, p, n) == ProgramHeaders(e, q, n)
  {
    hide ProgramHeaderAt;
    forall k | 0 <= k < n
      ensures ProgramHeaderAt(s, p + 56 * k) == ProgramHeaderAt(e, q + 56 * k)
    {
      SameSub(s, p, e, q, 56 * n, 56 * k, 56);
      SameProgramHeader(s, p + 56 * k, e, q + 56 * k);
    }
  }

  lemma SameDynamicEntry(s: seq<byte>, p: nat, e: seq<byte>, q: nat, m: nat)
    requires q + m <= |e| && Holds(s, p, e[q..q + m]) && 16 <= m
    ensures p + 16 <= |s| && q + 16 + (m - 16) <= |e|
    ensures U64At(s, p) == U64At(e, q) && U64At(s, p + 8) == U64At(e, q + 8)
    ensures Holds(s, p + 16, e[q + 16..q + 16 + (m - 16)])
  {
    hide U64At;
    SameWord64(s, p, e, q, m, 0);
    SameWord64(s, p, e, q, m, 8);
    PartOfHeld(s, p, e, q, m, 16, m - 16);
  }

  lemma FirstEntry(d: seq<byte>, p: nat, n: nat)
    requires n > 0 && p + 16 <= |d|
    ensures DynamicEntriesAt(d, p, n)
            == if SignedOf64(U64At(d, p)) == 0 then []
               else [DynamicEntry(SignedOf64(U64At(d, p)), U64At(d, p + 8))] + DynamicEntriesAt(d, p + 16, n - 1)
  {
  }

  lemma {:induction false} SameDynamicEntries(s: seq<byte>, p: nat, e: seq<byte>, q: nat, m: nat, n: nat)
    requires q + m <= |e| && Holds(s, p, e[q..q + m]) && 16 * n <= m
    ensures DynamicEntriesAt(s, p, n) == DynamicEntriesAt(e, q, n)
    decreases n
  {
    if n > 0 {
      hide U64At, SignedOf64, Holds, DynamicEntriesAt;
      SameDynamicEntry(s, p, e, q, m);
      SameDynamicEntries(s, p + 16, e, q + 16, m - 16, n - 1);
      FirstEntry(s, p, n);
      FirstEntry(e, q, n);
    }
  }

  // ---------------------------------------------------------------------------
  // The refinement
  // ---------------------------------------------------------------------------

  lemma SameDynamicPart(s: seq<byte>, segs: seq<SelfSegmentHeader>, e: seq<byte>, phs: seq<ProgramHeader>,
                        elfOffset: nat)
    requires SegmentsHoldParents(s, segs, e, phs)
    requires AllPlaced(s, segs, e, phs, elfOffset)
    ensures DynamicPart(s, true, segs, phs, elfOffset) == DynamicPart(e, false, [], phs, 0)
  {
    hide SegmentsHoldParents, Placed, Resolve, Holds;
    var i := LastOf(phs, Dynamic);
    if i.Some? {
      var ph := phs[i.value];
      var p := Resolve(true, segs, phs, i.value, ph, elfOffset);
      ResolvePlain(phs, i.value);
      if ph.filesz > 0 {
        assert Consulted(phs, i.value);
        PlacedInFile(s, segs, e, phs, elfOffset, i.value);
        ResolvesToBytes(s, segs, e, phs, elfOffset, i.value);
        HoldsWithin(s, p, FileBytes(e, ph));
        SameDynamicEntries(s, p, e, ph.offset, ph.filesz, ph.filesz / 16);
      }
    }
  }

  lemma ResolvePlain(phs: seq<ProgramHeader>, i: nat)
    requires i < |phs|
    ensures Resolve(false, [], phs, i, phs[i], 0) == phs[i].offset
  {
  }

  lemma PlacedInFile(s: seq<byte>, segs: seq<SelfSegmentHeader>, e: seq<byte>, phs: seq<ProgramHeader>,
                     elfOffset: nat, i: nat)
    requires i < |phs| && Placed(s, segs, e, phs, elfOffset, i)
    ensures InFile(e, phs[i])
  {
  }

  lemma HoldsWithin(d: seq<byte>, p: nat, part: seq<byte>)
    requires Holds(d, p, part)
    ensures p + |part| <= |d| && d[p..p + |part|] == part
  {
  }

  lemma SameDynlibPart(s: seq<byte>, segs: seq<SelfSegmentHeader>, e: seq<byte>, phs: seq<ProgramHeader>,
                       elfOffset: nat)
    requires SegmentsHoldParents(s, segs, e, phs)
    requires AllPlaced(s, segs, e, phs, elfOffset)
    ensures DynlibPart(s, true, segs, phs, elfOffset) == DynlibPart(e, false, [], phs, 0)
  {
    hide SegmentsHoldParents, Placed, Resolve, Holds;
    var i := LastOf(phs, SceDynlibData);
    if i.Some? {
      var ph := phs[i.value];
      var p := Resolve(true, segs, phs, i.value, ph, elfOffset);
      ResolvePlain(phs, i.value);
      if ph.filesz > 0 {
        assert Consulted(phs, i.value);
        PlacedInFile(s, segs, e, phs, elfOffset, i.value);
        ResolvesToBytes(s, segs, e, phs, elfOffset, i.value);
        HoldsWithin(s, p, FileBytes(e, ph));
      }
    }
  }

  /** Both are the header's bytes in the plain ELF. */
  lemma DynlibIsFileBytes(e: seq<byte>, phs: seq<ProgramHeader>, i: nat)
    requires LastOf(phs, SceDynlibData) == Some(i) && i < |phs| && InFile(e, phs[i])
    ensures DynlibPart(e, false, [], phs, 0) == FileBytes(e, phs[i])
  {
  }

  lemma PlainFacts(e: seq<byte>, plain: Elf)
    requires ParseFile(e) == Ok(plain) && !plain.isSelf
    ensures ElfHeaderAt(e, 0) == Ok(plain.header)
    ensures plain.header.phnum > 0 ==> plain.header.phoff + 56 * plain.header.phnum <= |e|
    ensures plain.programHeaders == ProgramHeaders(e, plain.header.phoff, plain.header.phnum)
    ensures plain.dynamicEntries == DynamicPart(e, false, [], plain.programHeaders, 0)
    ensures plain.dynlibData == DynlibPart(e, false, [], plain.programHeaders, 0)
  {
    hide ElfHeaderAt, DynamicPart, DynlibPart, ProgramHeaders, SelfSegments, U32At;
  }

  lemma SameTables(s: seq<byte>, elfOffset: nat, e: seq<byte>, h: ElfHeader)
    requires TablesCopied(s, elfOffset, e, h) && ElfHeaderAt(e, 0) == Ok(h)
    ensures ElfHeaderAt(s, elfOffset) == Ok(h)
    ensures h.phnum > 0 ==> elfOffset + h.phoff + 56 * h.phnum <= |s| && h.phoff + 56 * h.phnum <= |e|
    ensures ProgramHeaders(s, elfOffset + h.phoff, h.phnum) == ProgramHeaders(e, h.phoff, h.phnum)
  {
    hide ElfHeaderAt, ProgramHeaders, Holds;
    SameElfHeader(s, elfOffset, e);
    if h.phnum > 0 {
      HoldsWithin(s, elfOffset + h.phoff, e[h.phoff..h.phoff + 56 * h.phnum]);
      SameProgramHeaders(s, elfOffset + h.phoff, e, h.phoff, h.phnum);
    } else {
      assert ProgramHeaders(s, elfOffset + h.phoff, 0) == [] == ProgramHeaders(e, h.phoff, 0);
    }
  }

  lemma DynlibBytes(s: seq<byte>, e: seq<byte>, plain: Elf)
    requires Wraps(s, e, plain)
    ensures match LastOf(plain.programHeaders, SceDynlibData)
            case None => plain.dynlibData == []
            case Some(i) =>
              var ph := plain.programHeaders[i];
              if ph.filesz == 0 then plain.dynlibData == []
              else InFile(e, ph) && plain.dynlibData == FileBytes(e, ph)
  {
    hide ParseFile, SelfSegments, ProgramHeaders, ElfHeaderAt, DynamicPart, U16At, U32At, TablesCopied,
      SegmentsHoldParents, Placed, FileBytes, InFile;
    PlainFacts(e, plain);
    var phs, n := plain.programHeaders, U16At(s, 24);
    var i := LastOf(phs, SceDynlibData);
    if i.Some? && phs[i.value].filesz > 0 {
      assert Consulted(phs, i.value);
      PlacedInFile(s, SelfSegments(s, n), e, phs, 32 + 32 * n, i.value);
      DynlibIsFileBytes(e, phs, i.value);
    }
  }

  /** A SELF around an ELF parses, and to the same program. */
  lemma SelfParsesLikeElf(s: seq<byte>, e: seq<byte>, plain: Elf) returns (wrapped: Elf)
    requires Wraps(s, e, plain)
    ensures ParseFile(s) == Ok(wrapped)
    ensures wrapped.isSelf && wrapped.data == s && wrapped.selfSegments == SelfSegments(s, U16At(s, 24))
    ensures ElfOffset(wrapped) == 32 + 32 * U16At(s, 24)
    ensures wrapped.header == plain.header
    ensures wrapped.programHeaders == plain.programHeaders
    ensures wrapped.dynamicEntries == plain.dynamicEntries
    ensures wrapped.dynlibData == plain.dynlibData
    ensures match LastOf(plain.programHeaders, SceDynlibData)
            case None => wrapped.dynlibData == []
            case Some(i) =>
              var ph := plain.programHeaders[i];
              if ph.filesz == 0 then wrapped.dynlibData == []
              else InFile(e, ph) && wrapped.dynlibData == FileBytes(e, ph)
  {
    hide ParseFile, SelfSegments, ProgramHeaders, ElfHeaderAt, DynamicPart, DynlibPart, U16At, U32At, TablesCopied,
      SegmentsHoldParents, AllPlaced;
    var n := U16At(s, 24);
    DynlibBytes(s, e, plain);
    PlainFacts(e, plain);
    SameTables(s, 32 + 32 * n, e, plain.header);
    SameDynamicPart(s, SelfSegments(s, n), e, plain.programHeaders, 32 + 32 * n);
    SameDynlibPart(s, SelfSegments(s, n), e, plain.programHeaders, 32 + 32 * n);
    wrapped := ParsesWrapped(s, n, plain.header, plain.programHeaders);
  }

  lemma ParsesWrapped(s: seq<byte>, n: nat, h: ElfHeader, phs: seq<ProgramHeader>) returns (wrapped: Elf)
    requires |s| >= 32 && U32At(s, 0) == SELF_MAGIC && n == U16At(s, 24) && 32 + 32 * n <= |s|
    requires ElfHeaderAt(s, 32 + 32 * n) == Ok(h)
    requires h.phnum > 0 ==> 32 + 32 * n + h.phoff + 56 * h.phnum <= |s|
    requires ProgramHeaders(s, 32 + 32 * n + h.phoff, h.phnum) == phs
    ensures ParseFile(s) == Ok(wrapped)
    ensures wrapped == Elf(true, Some(SelfHeaderAt(s, 0)), SelfSegments(s, n), h, phs,
                           DynamicPart(s, true, SelfSegments(s, n), phs, 32 + 32 * n),
                           DynlibPart(s, true, SelfSegments(s, n), phs, 32 + 32 * n), s)
    ensures ElfOffset(wrapped) == 32 + 32 * n
  {
    hide ElfHeaderAt, DynamicPart, DynlibPart, ProgramHeaders, SelfSegments, U32At, U16At;
    wrapped := Elf(true, Some(SelfHeaderAt(s, 0)), SelfSegments(s, n), h, phs,
                   DynamicPart(s, true, SelfSegments(s, n), phs, 32 + 32 * n),
                   DynlibPart(s, true, SelfSegments(s, n), phs, 32 + 32 * n), s);
  }

  /** The bytes the loader copies or reads for a header are those of the plain ELF. */
  lemma SelfHoldsElfBytes(s: seq<byte>, e: seq<byte>, plain: Elf, wrapped: Elf, i: nat)
    requires Wraps(s, e, plain) && ParseFile(s) == Ok(wrapped) && Consulted(plain.programHeaders, i)
    ensures var ph := plain.programHeaders[i];
            && InFile(e, ph)
            && ResolveFileOffset(plain, i, ph) == ph.offset
            && Holds(s, ResolveFileOffset(wrapped, i, ph), FileBytes(e, ph))
  {
    hide ParseFile, SelfSegments, U16At, U32At, TablesCopied, SegmentsHoldParents, Placed;
    var n := U16At(s, 24);
    var again := SelfParsesLikeElf(s, e, plain);
    PlacedInFile(s, SelfSegments(s, n), e, plain.programHeaders, 32 + 32 * n, i);
    ResolvesToBytes(s, SelfSegments(s, n), e, plain.programHeaders, 32 + 32 * n, i);
  }
}
