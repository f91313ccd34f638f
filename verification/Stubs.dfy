/** Trampolines for unresolved imports (crates/core/src/hle/stubs.rs). */
module Stubs {
  import opened Wrappers
  import opened Types
  import opened Bytes

  type Name = seq<byte>

  const STUB_SIZE: nat := 16
  const MAX_STUBS: nat := 4096
  const STUB_REGION_SIZE: nat := STUB_SIZE * MAX_STUBS

  /** "UnknownStub" */
  const UNKNOWN_STUB: Name := [0x55, 0x6E, 0x6B, 0x6E, 0x6F, 0x77, 0x6E, 0x53, 0x74, 0x75, 0x62]

  function StubAddress(base: nat, k: nat): nat {
    base + k * STUB_SIZE
  }

  predicate IsStubAddress(base: nat, used: nat, addr: nat) {
    base <= addr < base + used * STUB_SIZE
  }

  function StubIndex(base: nat, used: nat, addr: nat): Option<nat> {
    if IsStubAddress(base, used, addr) then Some((addr - base) / STUB_SIZE) else None
  }

  function StubNameAt(names: seq<Name>, k: nat): Name {
    if k < |names| then names[k] else UNKNOWN_STUB
  }

  /** An address handed out finds its own index and name, however many stubs came later; two
      stubs never share an address. */
  lemma StubIsIdentified(base: nat, names: seq<Name>, later: seq<Name>, k: nat)
    requires k < |names| && names <= later
    ensures IsStubAddress(base, |later|, StubAddress(base, k))
    ensures StubIndex(base, |later|, StubAddress(base, k)) == Some(k)
    ensures StubNameAt(later, k) == names[k]
    ensures forall l: nat | l != k :: StubAddress(base, l) != StubAddress(base, k)
  {
    assert (k * STUB_SIZE) / STUB_SIZE == k;
  }

  /** Every byte of a stub's slot belongs to that stub alone. */
  lemma SlotBelongsToStub(base: nat, used: nat, k: nat, i: nat)
    requires k < used && i < STUB_SIZE
    ensures StubIndex(base, used, StubAddress(base, k) + i) == Some(k)
  {
    assert (k * STUB_SIZE + i) / STUB_SIZE == k;
  }

  /** Each slot is `ud2` padded with NOPs. */
  function StubByte(x: nat): byte {
    if x % STUB_SIZE == 0 then 0x0F else if x % STUB_SIZE == 1 then 0x0B else 0x90
  }

  class StubAllocator {
    const base: nat
    var used: nat
    var names: seq<Name>

    ghost predicate Valid()
      reads this
    {
      used == |names| <= MAX_STUBS && base + STUB_REGION_SIZE <= U64
    }

    /** Fill the freshly mapped region with trapping slots. */
    constructor (base: nat, region: array<byte>)
      requires region.Length == STUB_REGION_SIZE && base + STUB_REGION_SIZE <= U64
      modifies region
      ensures Valid() && this.base == base && names == []
      ensures forall x | 0 <= x < STUB_REGION_SIZE :: region[x] == StubByte(x)
    {
      this.base, used, names := base, 0, [];
      new;
      var i := 0;
      while i < MAX_STUBS
        invariant 0 <= i <= MAX_STUBS && this.base == base && used == 0 && names == []
        invariant forall x | 0 <= x < i * STUB_SIZE :: region[x] == StubByte(x)
      {
        var slot := i * STUB_SIZE;
        region[slot] := 0x0F;
        region[slot + 1] := 0x0B;
        var j := 2;
        while j < STUB_SIZE
          invariant 2 <= j <= STUB_SIZE && slot == i * STUB_SIZE && used == 0 && names == []
          invariant forall x | 0 <= x < slot :: region[x] == StubByte(x)
          invariant region[slot] == 0x0F && region[slot + 1] == 0x0B
          invariant forall x | slot + 2 <= x < slot + j :: region[x] == 0x90
        {
          region[slot + j] := 0x90;
          j := j + 1;
        }
        forall x | slot <= x < slot + STUB_SIZE
          ensures region[x] == StubByte(x)
        {
          SlotByte(i, x - slot);
        }
        i := i + 1;
      }
    }

    /** The next stub address, or None when the region is used up. */
    method NextStub(name: Name) returns (r: Option<nat>)
      requires Valid()
      modifies this
      ensures Valid()
      ensures old(|names|) < MAX_STUBS ==>
                r == Some(StubAddress(base, old(|names|))) && names == old(names) + [name]
      ensures old(|names|) >= MAX_STUBS ==> r == None && names == old(names)
    {
      if used >= MAX_STUBS {
        return None;
      }
      var addr := base + used * STUB_SIZE;
      used := used + 1;
      names := names + [name];
      return Some(addr);
    }

    /** A stub for `name`; address zero when none is left. */
    method AllocateStub(name: Name) returns (addr: nat)
      requires Valid()
      modifies this
      ensures Valid()
      ensures addr == StubFor(base, old(|names|)) && names == WithStub(old(names), name)
    {
      var r := NextStub(name);
      addr := if r.None? then 0 else r.value;
    }

    predicate IsStub(addr: nat)
      reads this
    {
      IsStubAddress(base, used, addr)
    }

    function GetStubIndex(addr: nat): Option<nat>
      reads this
    {
      StubIndex(base, used, addr)
    }

    function GetStubName(k: nat): Name
      reads this
    {
      StubNameAt(names, k)
    }
  }

  lemma SlotByte(i: nat, r: nat)
    requires r < STUB_SIZE
    ensures (i * STUB_SIZE + r) % STUB_SIZE == r
  {
  }

  /** The address given to the request that finds `n` stubs in use. */
  function StubFor(base: nat, n: nat): nat {
    if n < MAX_STUBS then StubAddress(base, n) else 0
  }

  function WithStub(names: seq<Name>, name: Name): seq<Name> {
    if |names| < MAX_STUBS then names + [name] else names
  }
}
