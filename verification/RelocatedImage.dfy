/** A module's segments and its relocations in one memory (crates/core/src/linker/module.rs,
    relocation.rs and mod.rs).

    Segments are copied to `base + vaddr - minAddr`, while a relocation writes at
    `base + offset`. Both use link-time addresses, so a relocation lands `minAddr` bytes behind
    the word it names: on it exactly in modules linked at address zero. */
module RelocatedImage {
  import opened Types
  import opened Bytes
  import opened Stubs
  import opened Relocation
  import E = Elf
  import MI = ModuleImage
  import L = Linker
  import Patches

  /** A module mapped at `base`: its segments copied and, in the main executable, its assertion
      traps patched. */
  datatype Mapping = Mapping(elf: E.Elf, name: MI.Name, base: nat, minAddr: nat, size: nat)

  ghost predicate WellFormed(p: Mapping) {
    && MI.MapsSegments(p.elf.programHeaders, p.minAddr, p.size)
    && MI.DisjointCopies(p.elf)
  }

  /** The bytes the copy loop leaves. */
  ghost function CopiedImage(p: Mapping): (image: seq<byte>)
    requires MI.MapsSegments(p.elf.programHeaders, p.minAddr, p.size)
    ensures |image| == p.size
  {
    MI.Image(p.elf, p.minAddr, p.size, |p.elf.programHeaders|)
  }

  ghost function LoadedImage(p: Mapping): (image: seq<byte>)
    requires MI.MapsSegments(p.elf.programHeaders, p.minAddr, p.size)
    ensures |image| == p.size
  {
    if p.name == L.EBOOT then Patches.PatchTraps(CopiedImage(p)) else CopiedImage(p)
  }

  ghost predicate HoldsImage(m: Memory, p: Mapping)
    requires MI.MapsSegments(p.elf.programHeaders, p.minAddr, p.size)
  {
    var image := LoadedImage(p);
    forall a | p.base <= a < p.base + p.size :: a in m && m[a] == image[a - p.base]
  }

  /** Segment `i` has file bytes for the `n` bytes at link-time address `v`. */
  ghost predicate Backs(p: Mapping, i: nat, v: nat, n: nat) {
    && i < |p.elf.programHeaders|
    && MI.Copied(p.elf, i)
    && p.elf.programHeaders[i].vaddr <= v
    && v + n <= p.elf.programHeaders[i].vaddr + p.elf.programHeaders[i].filesz
  }

  ghost function FileBytesOf(p: Mapping, i: nat, v: nat, n: nat): (r: seq<byte>)
    requires Backs(p, i, v, n)
    ensures |r| == n
  {
    var start := v - p.elf.programHeaders[i].vaddr;
    MI.SegmentBytes(p.elf, i)[start..start + n]
  }

  /** No patched assertion trap reaches into [x, x + n) of the image. */
  ghost predicate FreeOfTraps(p: Mapping, x: nat, n: nat)
    requires MI.MapsSegments(p.elf.programHeaders, p.minAddr, p.size)
  {
    p.name == L.EBOOT ==>
      forall y, k: nat | x <= y < x + n :: !Patches.InTrap(CopiedImage(p), k, y)
  }

  /** Where the copy loop puts the byte with link-time address `v`. */
  function CopyOf(p: Mapping, v: nat): nat
    requires p.minAddr <= v
  {
    p.base + (v - p.minAddr)
  }

  lemma BackedInMapping(p: Mapping, i: nat, v: nat, n: nat)
    requires WellFormed(p) && Backs(p, i, v, n)
    ensures p.minAddr <= p.elf.programHeaders[i].vaddr <= v && v + n <= p.minAddr + p.size
    ensures p.elf.programHeaders[i].vaddr + p.elf.programHeaders[i].filesz <= p.minAddr + p.size
  {
  }

  /** The copies have the file's bytes at their place. */
  lemma ImageBytes(p: Mapping, i: nat, v: nat, n: nat)
    requires WellFormed(p) && Backs(p, i, v, n)
    ensures p.minAddr <= v && v + n <= p.minAddr + p.size
    ensures CopiedImage(p)[v - p.minAddr..v - p.minAddr + n] == FileBytesOf(p, i, v, n)
  {
    hide MI.Copied, MI.MapsSegments, MI.DisjointCopies, MI.Image, MI.SegmentBytes;
    BackedInMapping(p, i, v, n);
    var ph := p.elf.programHeaders[i];
    MI.SegmentAppears(p.elf, p.minAddr, p.size, i);
    SubOfSub(CopiedImage(p), ph.vaddr - p.minAddr, ph.filesz, v - ph.vaddr, n);
  }

  /** Outside the traps the loaded image is what was copied. */
  lemma UntrappedBytes(p: Mapping, x: nat, n: nat)
    requires WellFormed(p) && x + n <= p.size && FreeOfTraps(p, x, n)
    ensures LoadedImage(p)[x..x + n] == CopiedImage(p)[x..x + n]
  {
    hide CopiedImage, MI.MapsSegments, MI.DisjointCopies, Patches.InTrap, Patches.PatchTraps;
    if p.name == L.EBOOT {
      var copied := CopiedImage(p);
      assert Patches.TrapsPatched(copied, LoadedImage(p));
      forall y | x <= y < x + n
        ensures LoadedImage(p)[y] == copied[y]
      {
        assert forall k: nat :: !Patches.InTrap(copied, k, y);
      }
    }
  }

  /** Before relocation the backed bytes outside the traps are the file's. */
  lemma CopiedBytes(m: Memory, p: Mapping, i: nat, v: nat, n: nat)
    requires WellFormed(p) && HoldsImage(m, p) && Backs(p, i, v, n)
    requires p.minAddr <= v && FreeOfTraps(p, v - p.minAddr, n)
    ensures Mapped(m, CopyOf(p, v), n)
    ensures Slice(m, CopyOf(p, v), n) == FileBytesOf(p, i, v, n)
  {
    hide FileBytesOf, Backs, CopiedImage, LoadedImage, FreeOfTraps, MI.MapsSegments, MI.DisjointCopies;
    ImageBytes(p, i, v, n);
    UntrappedBytes(p, v - p.minAddr, n);
    var image := LoadedImage(p);
    forall x | CopyOf(p, v) <= x < CopyOf(p, v) + n
      ensures x in m && m[x] == image[x - p.base]
    {
    }
    assert Slice(m, CopyOf(p, v), n) == image[v - p.minAddr..v - p.minAddr + n];
  }

  /** No relocation but `j` writes into [a, a + n). */
  ghost predicate TouchedOnlyBy(ts: seq<Target>, j: nat, a: nat, n: nat) {
    forall l | 0 <= l < |ts| && l != j && Writes(ts[l]) :: SlotOf(ts[l]) + 8 <= a || a + n <= SlotOf(ts[l])
  }

  /** No relocation writes into [a, a + n). */
  ghost predicate Untouched(ts: seq<Target>, a: nat, n: nat) {
    TouchedOnlyBy(ts, |ts|, a, n)
  }

  /** After the pass, backed bytes outside every trap and slot are still the file's. */
  lemma UntouchedBytesAreFile(rs: Resolver, ts: seq<Target>, st: LinkState, p: Mapping, i: nat, v: nat, n: nat)
    requires WellFormed(p) && HoldsImage(st.memory, p) && Backs(p, i, v, n)
    requires p.minAddr <= v && FreeOfTraps(p, v - p.minAddr, n)
    requires AllMapped(ts, st.memory) && Untouched(ts, CopyOf(p, v), n)
    ensures Mapped(ApplyAll(rs, ts, |ts|, st).memory, CopyOf(p, v), n)
    ensures Slice(ApplyAll(rs, ts, |ts|, st).memory, CopyOf(p, v), n) == FileBytesOf(p, i, v, n)
  {
    hide WellFormed, HoldsImage, Backs, AllMapped, FileBytesOf, FreeOfTraps;
    CopiedBytes(st.memory, p, i, v, n);
    var a, after := CopyOf(p, v), ApplyAll(rs, ts, |ts|, st).memory;
    forall x | a <= x < a + n
      ensures x in after && after[x] == st.memory[x]
    {
      OtherBytesUnchanged(rs, ts, |ts|, st, x);
      assert x in st.memory.Keys;
    }
    assert Slice(after, a, n) == Slice(st.memory, a, n);
  }

  /** In a module linked at zero, the word a relocation names ends up with its value. */
  lemma RelocationReachesWord(rs: Resolver, ts: seq<Target>, st: LinkState, p: Mapping, j: nat)
    requires p.minAddr == 0
    requires j < |ts| && ts[j].base == p.base && Writes(ts[j])
    requires AllMapped(ts, st.memory) && DisjointSlots(ts) && |st.stubNames| <= MAX_STUBS
    ensures Mapped(ApplyAll(rs, ts, |ts|, st).memory, CopyOf(p, ts[j].reloc.offset), 8)
    ensures ReadWord(ApplyAll(rs, ts, |ts|, st).memory, CopyOf(p, ts[j].reloc.offset))
            == ValueOf(rs, ts[j], StubNumber(rs, ts, j, st))
  {
    SlotHoldsValue(rs, ts, |ts|, j, st);
  }

  /** The word a relocation names, when no other slot lies on it: its first `minAddr` bytes stay
      the file's, and the value begins behind them. Linked at zero the word is the value; from
      eight on it is untouched; in between it is neither. */
  lemma NamedWordBytes(rs: Resolver, ts: seq<Target>, st: LinkState, p: Mapping, i: nat, j: nat, x: nat)
    requires WellFormed(p) && HoldsImage(st.memory, p) && x < 8
    requires j < |ts| && ts[j].base == p.base && Writes(ts[j]) && Backs(p, i, ts[j].reloc.offset, 8)
    requires p.minAddr <= ts[j].reloc.offset && FreeOfTraps(p, ts[j].reloc.offset - p.minAddr, 8)
    requires AllMapped(ts, st.memory) && DisjointSlots(ts) && |st.stubNames| <= MAX_STUBS
    requires TouchedOnlyBy(ts, j, CopyOf(p, ts[j].reloc.offset), 8)
    ensures var after, named := ApplyAll(rs, ts, |ts|, st).memory, CopyOf(p, ts[j].reloc.offset);
            && named + x in after
            && after[named + x] == if x < p.minAddr then FileBytesOf(p, i, ts[j].reloc.offset, 8)[x]
                                   else Le64(ValueOf(rs, ts[j], StubNumber(rs, ts, j, st)))[x - p.minAddr]
  {
    var named := CopyOf(p, ts[j].reloc.offset);
    if x < p.minAddr {
      UnreachedByte(rs, ts, st, p, i, j, x);
    } else {
      SlotByteValue(rs, ts, st, j, x - p.minAddr);
      assert SlotOf(ts[j]) + (x - p.minAddr) == named + x;
    }
  }

  lemma UnreachedByte(rs: Resolver, ts: seq<Target>, st: LinkState, p: Mapping, i: nat, j: nat, x: nat)
    requires WellFormed(p) && HoldsImage(st.memory, p) && x < 8 && x < p.minAddr
    requires j < |ts| && ts[j].base == p.base && Backs(p, i, ts[j].reloc.offset, 8)
    requires p.minAddr <= ts[j].reloc.offset && FreeOfTraps(p, ts[j].reloc.offset - p.minAddr, 8)
    requires AllMapped(ts, st.memory) && TouchedOnlyBy(ts, j, CopyOf(p, ts[j].reloc.offset), 8)
    ensures var after, named := ApplyAll(rs, ts, |ts|, st).memory, CopyOf(p, ts[j].reloc.offset);
            named + x in after && after[named + x] == FileBytesOf(p, i, ts[j].reloc.offset, 8)[x]
  {
    hide WellFormed, HoldsImage, Backs, AllMapped, FileBytesOf, FreeOfTraps;
    var named := CopyOf(p, ts[j].reloc.offset);
    CopiedBytes(st.memory, p, i, ts[j].reloc.offset, 8);
    assert Slice(st.memory, named, 8)[x] == st.memory[named + x];
    OtherBytesUnchanged(rs, ts, |ts|, st, named + x);
    assert named + x in st.memory.Keys;
  }

  lemma SlotByteValue(rs: Resolver, ts: seq<Target>, st: LinkState, j: nat, y: nat)
    requires j < |ts| && Writes(ts[j]) && y < 8
    requires AllMapped(ts, st.memory) && DisjointSlots(ts) && |st.stubNames| <= MAX_STUBS
    ensures var after := ApplyAll(rs, ts, |ts|, st).memory;
            && SlotOf(ts[j]) + y in after
            && after[SlotOf(ts[j]) + y] == Le64(ValueOf(rs, ts[j], StubNumber(rs, ts, j, st)))[y]
  {
    SlotHoldsValue(rs, ts, |ts|, j, st);
    var after := ApplyAll(rs, ts, |ts|, st).memory;
    hide AllMapped, DisjointSlots, ApplyAll, ValueOf, U64At, Le64, Writes, StubNumber;
    var slot := Slice(after, SlotOf(ts[j]), 8);
    WrittenBack(slot);
    assert slot[y] == after[SlotOf(ts[j]) + y];
  }
}
