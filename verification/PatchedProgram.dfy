/** The program as it starts (crates/anotherps4-bin/src/main.rs): relocated, and then the main
    executable's whole mapping patched by `patch_syscalls`, data included.

    A relocated word survives that exactly when no `syscall` byte pair ends in it. Stub
    addresses are such words, so whether an import can be called depends on its address. */
module PatchedProgram {
  import opened Wrappers
  import opened Types
  import opened Bytes
  import opened Stubs
  import opened Relocation
  import opened Dispatcher
  import Patches

  /** The memory after the region [base, base + n) was patched. */
  ghost function PatchedRegion(m: Memory, base: nat, n: nat): (m': Memory)
    requires Mapped(m, base, n)
    ensures m'.Keys == m.Keys
  {
    var code := Patches.SyscallsPatched(Slice(m, base, n));
    map x | x in m :: if base <= x < base + n then code[x - base] else m[x]
  }

  /** The second byte of a `syscall` pair of the region stands at `x`. */
  predicate EndsAt(m: Memory, base: nat, n: nat, x: nat)
    requires Mapped(m, base, n)
  {
    base <= x < base + n && Patches.SyscallEnds(Slice(m, base, n), x - base)
  }

  lemma PatchedByte(m: Memory, base: nat, n: nat, x: nat)
    requires Mapped(m, base, n) && x in m
    ensures x in PatchedRegion(m, base, n)
    ensures PatchedRegion(m, base, n)[x] == if EndsAt(m, base, n, x) then 0x0B else m[x]
    ensures EndsAt(m, base, n, x) ==> m[x] == 0x05
  {
  }

  /** A word reads the same after patching if and only if no `syscall` pair ends in it, wherever
      it lies. */
  lemma WordSurvivesIff(m: Memory, base: nat, n: nat, a: nat)
    requires Mapped(m, base, n) && Mapped(m, a, 8)
    ensures Mapped(PatchedRegion(m, base, n), a, 8)
    ensures ReadWord(PatchedRegion(m, base, n), a) == ReadWord(m, a)
            <==> forall x | a <= x < a + 8 :: !EndsAt(m, base, n, x)
  {
    hide PatchedRegion, EndsAt, U64At, Le64;
    var m' := PatchedRegion(m, base, n);
    forall x | a <= x < a + 8
      ensures x in m' && m'[x] == (if EndsAt(m, base, n, x) then 0x0B else m[x])
      ensures EndsAt(m, base, n, x) ==> m[x] == 0x05
    {
      PatchedByte(m, base, n, x);
    }
    SameWordIff(m, m', a);
  }

  lemma SameWordIff(m: Memory, m': Memory, a: nat)
    requires Mapped(m, a, 8) && Mapped(m', a, 8)
    ensures ReadWord(m', a) == ReadWord(m, a) <==> forall x | a <= x < a + 8 :: m'[x] == m[x]
  {
    hide U64At, Le64;
    var s, s' := Slice(m, a, 8), Slice(m', a, 8);
    WrittenBack(s);
    WrittenBack(s');
    if s == s' {
      forall x | a <= x < a + 8
        ensures m'[x] == m[x]
      {
        assert m'[x] == s'[x - a] == s[x - a] == m[x];
      }
    } else {
      assert exists i | 0 <= i < 8 :: s[i] != s'[i];
    }
  }

  /** For a stub address in a slot of the region, that is a condition on the address alone: none
      of its bytes 0x0F is followed by 0x05. */
  lemma StubSurvivesIff(m: Memory, base: nat, n: nat, a: nat, stubBase: nat, k: nat)
    requires Mapped(m, base, n) && base <= a && a + 8 <= base + n && Mapped(m, a, 8)
    requires stubBase % STUB_SIZE == 0 && StubAddress(stubBase, k) < U64
    requires ReadWord(m, a) == StubAddress(stubBase, k)
    ensures Mapped(PatchedRegion(m, base, n), a, 8)
    ensures ReadWord(PatchedRegion(m, base, n), a) == StubAddress(stubBase, k)
            <==> forall i: nat :: !Patches.SyscallEnds(Le64(StubAddress(stubBase, k)), i)
  {
    hide PatchedRegion, U64At, Le64, EndsAt, Patches.SyscallEnds;
    var bytes := Le64(StubAddress(stubBase, k));
    WordSurvivesIff(m, base, n, a);
    WrittenBack(Slice(m, a, 8));
    FirstByteIsAligned(stubBase, k);
    forall i | 0 <= i < 8
      ensures EndsAt(m, base, n, a + i) <==> Patches.SyscallEnds(bytes, i)
    {
      EndsInWord(m, base, n, a, bytes, i);
    }
    forall i: nat
      ensures Patches.SyscallEnds(bytes, i) ==> i < 8
    {
      EndsInside(bytes, i);
    }
    SameEnds(m, base, n, a, bytes);
  }

  lemma EndsInside(s: seq<byte>, i: nat)
    ensures Patches.SyscallEnds(s, i) ==> i < |s|
  {
  }

  lemma SameEnds(m: Memory, base: nat, n: nat, a: nat, bytes: seq<byte>)
    requires Mapped(m, base, n)
    requires forall i: nat | i < 8 :: EndsAt(m, base, n, a + i) <==> Patches.SyscallEnds(bytes, i)
    requires forall i: nat | Patches.SyscallEnds(bytes, i) :: i < 8
    ensures (forall x | a <= x < a + 8 :: !EndsAt(m, base, n, x)) <==> (forall i: nat :: !Patches.SyscallEnds(bytes, i))
  {
    hide EndsAt, Patches.SyscallEnds;
    if forall i: nat :: !Patches.SyscallEnds(bytes, i) {
      forall x | a <= x < a + 8
        ensures !EndsAt(m, base, n, x)
      {
        assert EndsAt(m, base, n, a + (x - a)) <==> Patches.SyscallEnds(bytes, x - a);
      }
    }
  }

  /** The lowest byte of a stub address is a multiple of sixteen, so no pair can end there. */
  lemma FirstByteIsAligned(stubBase: nat, k: nat)
    requires stubBase % STUB_SIZE == 0 && StubAddress(stubBase, k) < U64
    ensures Le64(StubAddress(stubBase, k))[0] != 0x05
  {
    hide Le64;
    var address := StubAddress(stubBase, k);
    LowByteOf(address);
    assert address % STUB_SIZE == 0 by {
      SumOfMultiples(stubBase, k, STUB_SIZE);
    }
  }

  lemma LowByteOf(v: nat)
    requires v < U64
    ensures Le64(v)[0] % STUB_SIZE == v % STUB_SIZE
  {
    var q32, q16, q8 := v / U32, v % U32 / U16, v % U32 % U16 / 256;
    assert v == Le64(v)[0] + STUB_SIZE * (16 * q8 + 16 * 256 * q16 + 16 * 256 * U16 * q32);
    SameRemainder(Le64(v)[0], 16 * q8 + 16 * 256 * q16 + 16 * 256 * U16 * q32, STUB_SIZE);
  }

  lemma SameRemainder(r: nat, q: nat, d: nat)
    requires d > 0
    ensures (r + d * q) % d == r % d
  {
    RemainderIs(r + d * q, d, q + r / d, r % d);
  }

  lemma SumOfMultiples(base: nat, k: nat, d: nat)
    requires d > 0 && base % d == 0
    ensures (base + k * d) % d == 0
  {
    SameRemainder(base, k, d);
  }

  lemma EndsInWord(m: Memory, base: nat, n: nat, a: nat, bytes: seq<byte>, i: nat)
    requires Mapped(m, base, n) && base <= a && a + 8 <= base + n && Mapped(m, a, 8)
    requires bytes == Slice(m, a, 8) && bytes[0] != 0x05 && i < 8
    ensures EndsAt(m, base, n, a + i) <==> Patches.SyscallEnds(bytes, i)
  {
    var region := Slice(m, base, n);
    var x := a + i - base;
    assert region[x] == m[a + i] == bytes[i];
    assert i > 0 ==> region[x - 1] == m[a + i - 1] == bytes[i - 1];
  }

  /** A stub address a page-aligned region can have, and what patching makes of it. */
  lemma StubAddressIsCorrupted()
    ensures var stubBase, address := 0x7F00_050F_0000, 0x7F00_050F_0010;
            && stubBase % 0x1000 == 0 && StubAddress(stubBase, 1) == address
            && U64At(Patches.SyscallsPatched(Le64(address)), 0) == 0x7F00_0B0F_0010
  {
    var bytes: seq<byte> := [0x10, 0x00, 0x0F, 0x05, 0x00, 0x7F, 0x00, 0x00];
    assert Le64(0x7F00_050F_0010) == bytes;
    assert Patches.SyscallsPatched(bytes) == [0x10, 0x00, 0x0F, 0x0B, 0x00, 0x7F, 0x00, 0x00];
  }

  /** After relocation and patching, a bound slot of the patched region still holds its stub if
      and only if the stub's address has no byte 0x0F followed by 0x05. */
  lemma BoundSlotSurvivesIff(rs: Resolver, ts: seq<Target>, j: nat, st: LinkState, base: nat, n: nat)
    requires BoundImport(rs, ts, j, st) && rs.stubBase % STUB_SIZE == 0
    requires Mapped(SlotMemory(rs, ts, j, st), base, n)
    requires base <= SlotOf(ts[j]) && SlotOf(ts[j]) + 8 <= base + n
    ensures Mapped(PatchedRegion(SlotMemory(rs, ts, j, st), base, n), SlotOf(ts[j]), 8)
    ensures var address := StubAddress(rs.stubBase, StubNumber(rs, ts, j, st));
            && address < U64
            && (ReadWord(PatchedRegion(SlotMemory(rs, ts, j, st), base, n), SlotOf(ts[j])) == address
                <==> forall i: nat :: !Patches.SyscallEnds(Le64(address), i))
  {
    hide PatchedRegion, ReadWord, Mapped, ApplyAll, Le64, Patches.SyscallEnds, AllMapped, DisjointSlots, NeedsStub;
    SlotHoldsStub(rs, ts, j, st);
    StubSurvivesIff(SlotMemory(rs, ts, j, st), base, n, SlotOf(ts[j]), rs.stubBase, StubNumber(rs, ts, j, st));
  }

  /** An import call in the program as it starts: the slot holds what relocation and patching
      left there, and no `syscall` pair ended in it. */
  lemma PatchedImportCallReturns(rs: Resolver, ts: seq<Target>, j: nat, st: LinkState, h: HostFunctions,
                                 hostFs: nat, names: seq<Name>, r: Registers, m: Memory, returnTo: nat,
                                 base: nat, n: nat)
    requires BoundImport(rs, ts, j, st) && hostFs != 0
    requires ApplyAll(rs, ts, |ts|, st).stubNames <= names
    requires CallReady(rs, ts[j], h, names, r, m, returnTo)
    requires Mapped(SlotMemory(rs, ts, j, st), base, n)
    requires Mapped(PatchedRegion(SlotMemory(rs, ts, j, st), base, n), SlotOf(ts[j]), 8)
    requires ReadWord(m, SlotOf(ts[j])) == ReadWord(PatchedRegion(SlotMemory(rs, ts, j, st), base, n), SlotOf(ts[j]))
    requires forall x | SlotOf(ts[j]) <= x < SlotOf(ts[j]) + 8 :: !EndsAt(SlotMemory(rs, ts, j, st), base, n, x)
    ensures var (r1, m1) := CallThrough(r, m, SlotOf(ts[j]), returnTo);
            var name := StubNameFor(rs, ts[j].reloc.symbolName);
            var (result, m2) := h.dispatch(name, CallerArguments(r, m), m1);
            var outcome := HandleSigill(h, hostFs, rs.stubBase, names, r1, m1);
            outcome.Resumed? && outcome.memory == m2
            && Served(r, outcome.regs, h.isFloat(name), result, returnTo)
  {
    hide BoundImport, CallReady, PatchedRegion, ReadWord, EndsAt, ApplyAll, HandleSigill, Readable, CallThrough, Served;
    BoundFacts(rs, ts, j, st);
    WordSurvivesIff(SlotMemory(rs, ts, j, st), base, n, SlotOf(ts[j]));
    ImportCallReturns(rs, ts, j, st, h, hostFs, names, r, m, returnTo);
  }
}
