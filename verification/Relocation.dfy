/** Applying relocations (crates/core/src/linker/relocation.rs and `relocate_all`).

    Guest memory is a finite map from mapped addresses to bytes. The state also carries the
    names of the stubs handed out so far, because an unresolved import allocates one. */
module Relocation {
  import opened Wrappers
  import opened Types
  import opened Bytes
  import opened Stubs
  import MI = ModuleImage
  import Symbols

  type Memory = map<nat, byte>

  const R_X86_64_64: nat := 1
  const R_X86_64_GLOB_DAT: nat := 6
  const R_X86_64_JUMP_SLOT: nat := 7
  const R_X86_64_RELATIVE: nat := 8
  const R_X86_64_DTPMOD64: nat := 16

  // ---------------------------------------------------------------------------
  // Memory
  // ---------------------------------------------------------------------------

  predicate Mapped(m: Memory, a: nat, n: nat) {
    forall x | a <= x < a + n :: x in m
  }

  function Slice(m: Memory, a: nat, n: nat): (r: seq<byte>)
    requires Mapped(m, a, n)
    ensures |r| == n
  {
    seq(n, i requires 0 <= i < n => m[a + i])
  }

  function ReadWord(m: Memory, a: nat): nat
    requires Mapped(m, a, 8)
  {
    U64At(Slice(m, a, 8), 0)
  }

  function WriteWord(m: Memory, a: nat, v: nat): (m': Memory)
    requires v < U64 && Mapped(m, a, 8)
    ensures m'.Keys == m.Keys && forall x :: x in m' <==> x in m
  {
    var bytes := Le64(v);
    map x | x in m :: if a <= x < a + 8 then bytes[x - a] else m[x]
  }

  lemma ReadWritten(m: Memory, a: nat, v: nat)
    requires v < U64 && Mapped(m, a, 8)
    ensures ReadWord(WriteWord(m, a, v), a) == v
  {
    var s := Slice(WriteWord(m, a, v), a, 8);
    assert s == Le64(v);
    assert Holds(s, 0, Le64(v));
    Read64(s, 0, v);
  }

  lemma WriteLeaves(m: Memory, a: nat, v: nat, b: nat)
    requires v < U64 && Mapped(m, a, 8) && Mapped(m, b, 8) && (a + 8 <= b || b + 8 <= a)
    ensures ReadWord(WriteWord(m, a, v), b) == ReadWord(m, b)
  {
    assert Slice(WriteWord(m, a, v), b, 8) == Slice(m, b, 8);
  }

  // ---------------------------------------------------------------------------
  // One relocation
  // ---------------------------------------------------------------------------

  /** The tables relocation reads: symbol addresses and the names of known NIDs. */
  datatype Resolver = Resolver(hle: Name -> Option<nat>, knownNid: Name -> Option<Name>, stubBase: nat)

  datatype Target = Target(base: nat, reloc: MI.ParsedRelocation)

  datatype LinkState = LinkState(memory: Memory, stubNames: seq<Name>)

  /** The part of a symbol name before the first '#'. */
  function BaseName(name: Name): Name {
    if name == [] || name[0] == 0x23 then [] else [name[0]] + BaseName(name[1..])
  }

  predicate IsSymbolic(relType: nat) {
    relType == R_X86_64_64 || relType == R_X86_64_GLOB_DAT || relType == R_X86_64_JUMP_SLOT
  }

  /** Unknown types are only reported. */
  predicate Writes(t: Target) {
    IsSymbolic(t.reloc.relType) || t.reloc.relType == R_X86_64_RELATIVE || t.reloc.relType == R_X86_64_DTPMOD64
  }

  function SlotOf(t: Target): nat {
    t.base + t.reloc.offset
  }

  /** The symbol's address: under its base name, else under its full name. */
  function Lookup(rs: Resolver, name: Name): Option<nat> {
    var byBase := rs.hle(BaseName(name));
    if byBase.Some? then byBase else rs.hle(name)
  }

  /** A named symbol nothing provides: it gets a stub. */
  predicate NeedsStub(rs: Resolver, t: Target) {
    IsSymbolic(t.reloc.relType) && t.reloc.symbolName != [] && Lookup(rs, t.reloc.symbolName).None?
  }

  /** The lookups answer for the registered symbols. */
  ghost predicate AnswersFor(rs: Resolver, symbols: map<Name, Symbols.SymbolRecord>) {
    forall name :: Symbols.Resolves(symbols, name, rs.hle(name))
  }

  ghost predicate Provided(symbols: map<Name, Symbols.SymbolRecord>, name: Name) {
    name in symbols || exists nid | nid in symbols :: symbols[nid].name == name
  }

  /** An import gets a stub exactly when neither its base name nor its full name is the NID or
      the name of any registered symbol. */
  lemma NeedsStubIff(rs: Resolver, symbols: map<Name, Symbols.SymbolRecord>, t: Target)
    requires AnswersFor(rs, symbols)
    ensures NeedsStub(rs, t) <==>
            && IsSymbolic(t.reloc.relType) && t.reloc.symbolName != []
            && !Provided(symbols, BaseName(t.reloc.symbolName)) && !Provided(symbols, t.reloc.symbolName)
  {
    assert Symbols.Resolves(symbols, BaseName(t.reloc.symbolName), rs.hle(BaseName(t.reloc.symbolName)));
    assert Symbols.Resolves(symbols, t.reloc.symbolName, rs.hle(t.reloc.symbolName));
  }

  function StubNameFor(rs: Resolver, name: Name): Name {
    var known := rs.knownNid(BaseName(name));
    if known.Some? then known.value else name
  }

  /** The address a symbolic relocation starts from when `n` stubs are in use. */
  function SymbolAddress(rs: Resolver, t: Target, n: nat): nat {
    if t.reloc.symbolName == [] then 0
    else
      var found := Lookup(rs, t.reloc.symbolName);
      if found.Some? then found.value else StubFor(rs.stubBase, n)
  }

  /** The value stored in the slot when `n` stubs are in use; addition wraps at 64 bits. */
  function ValueOf(rs: Resolver, t: Target, n: nat): (v: nat)
    ensures v < U64
  {
    if t.reloc.relType == R_X86_64_RELATIVE then (t.base + t.reloc.addend) % U64
    else if IsSymbolic(t.reloc.relType) then (SymbolAddress(rs, t, n) + t.reloc.addend) % U64
    else 1
  }

  function Apply(rs: Resolver, t: Target, st: LinkState): LinkState
    requires Writes(t) ==> Mapped(st.memory, SlotOf(t), 8)
  {
    if !Writes(t) then st
    else
      LinkState(WriteWord(st.memory, SlotOf(t), ValueOf(rs, t, |st.stubNames|)),
                if NeedsStub(rs, t) then WithStub(st.stubNames, StubNameFor(rs, t.reloc.symbolName))
                else st.stubNames)
  }

  /** The value section 4.4.1 of the System V AMD64 psABI assigns: B + A, S + A, or S alone for
      the two GOT entry types. */
  function PsAbiValue(rs: Resolver, t: Target, n: nat): nat {
    if t.reloc.relType == R_X86_64_RELATIVE then (t.base + t.reloc.addend) % U64
    else if t.reloc.relType == R_X86_64_64 then (SymbolAddress(rs, t, n) + t.reloc.addend) % U64
    else SymbolAddress(rs, t, n) % U64
  }

  /** The code adds the addend to every symbolic type, so it follows the standard exactly when
      the type is not a GOT entry or the addend is zero modulo 2^64. */
  lemma FollowsPsAbiIff(rs: Resolver, t: Target, n: nat)
    requires IsSymbolic(t.reloc.relType) || t.reloc.relType == R_X86_64_RELATIVE
    ensures ValueOf(rs, t, n) == PsAbiValue(rs, t, n) <==>
            (t.reloc.relType == R_X86_64_RELATIVE || t.reloc.relType == R_X86_64_64 || t.reloc.addend % U64 == 0)
  {
    AddendVanishes(SymbolAddress(rs, t, n), t.reloc.addend);
  }

  lemma AddendVanishes(s: nat, a: int)
    ensures (s + a) % U64 == s % U64 <==> a % U64 == 0
  {
  }

  // ---------------------------------------------------------------------------
  // All relocations
  // ---------------------------------------------------------------------------

  ghost predicate AllMapped(ts: seq<Target>, m: Memory) {
    forall j | 0 <= j < |ts| && Writes(ts[j]) :: Mapped(m, SlotOf(ts[j]), 8)
  }

  /** The state after the first `k` relocations. */
  ghost function ApplyAll(rs: Resolver, ts: seq<Target>, k: nat, st: LinkState): (r: LinkState)
    requires k <= |ts| && AllMapped(ts, st.memory)
    ensures r.memory.Keys == st.memory.Keys
  {
    if k == 0 then st
    else
      var before := ApplyAll(rs, ts, k - 1, st);
      MappedSame(st.memory, before.memory, SlotOf(ts[k - 1]));
      Apply(rs, ts[k - 1], before)
  }

  /** Stubs requested by the first `k` relocations. */
  ghost function Requests(rs: Resolver, ts: seq<Target>, k: nat): nat
    requires k <= |ts|
  {
    if k == 0 then 0 else Requests(rs, ts, k - 1) + (if NeedsStub(rs, ts[k - 1]) then 1 else 0)
  }

  lemma {:induction false} StubsInUse(rs: Resolver, ts: seq<Target>, k: nat, st: LinkState)
    requires k <= |ts| && AllMapped(ts, st.memory) && |st.stubNames| <= MAX_STUBS
    ensures |ApplyAll(rs, ts, k, st).stubNames| == Min(|st.stubNames| + Requests(rs, ts, k), MAX_STUBS)
    ensures st.stubNames <= ApplyAll(rs, ts, k, st).stubNames
  {
    if k > 0 {
      StubsInUse(rs, ts, k - 1, st);
    }
  }

  ghost predicate DisjointSlots(ts: seq<Target>) {
    forall i, j | 0 <= i < j < |ts| && Writes(ts[i]) && Writes(ts[j]) ::
      SlotOf(ts[i]) + 8 <= SlotOf(ts[j]) || SlotOf(ts[j]) + 8 <= SlotOf(ts[i])
  }

  /** Which stub relocation `j` would get: one per earlier request, never reused. */
  ghost function StubNumber(rs: Resolver, ts: seq<Target>, j: nat, st: LinkState): nat
    requires j <= |ts|
  {
    |st.stubNames| + Requests(rs, ts, j)
  }

  /** Every slot ends up with its own relocation's value. */
  lemma {:induction false} SlotHoldsValue(rs: Resolver, ts: seq<Target>, k: nat, j: nat, st: LinkState)
    requires j < k <= |ts| && AllMapped(ts, st.memory) && DisjointSlots(ts) && Writes(ts[j])
    requires |st.stubNames| <= MAX_STUBS
    ensures Mapped(ApplyAll(rs, ts, k, st).memory, SlotOf(ts[j]), 8)
    ensures ReadWord(ApplyAll(rs, ts, k, st).memory, SlotOf(ts[j]))
            == ValueOf(rs, ts[j], StubNumber(rs, ts, j, st))
  {
    hide Mapped, WriteWord, ReadWord, ValueOf;
    MappedSame(st.memory, ApplyAll(rs, ts, k, st).memory, SlotOf(ts[j]));
    var before := ApplyAll(rs, ts, k - 1, st);
    MappedSame(st.memory, before.memory, SlotOf(ts[j]));
    if j == k - 1 {
      StubsInUse(rs, ts, j, st);
      ReadWritten(before.memory, SlotOf(ts[j]), ValueOf(rs, ts[j], |before.stubNames|));
      ValueSaturates(rs, ts[j], |before.stubNames|, StubNumber(rs, ts, j, st));
    } else {
      SlotHoldsValue(rs, ts, k - 1, j, st);
      if Writes(ts[k - 1]) {
        MappedSame(st.memory, before.memory, SlotOf(ts[k - 1]));
        WriteLeaves(before.memory, SlotOf(ts[k - 1]), ValueOf(rs, ts[k - 1], |before.stubNames|), SlotOf(ts[j]));
      }
    }
  }

  lemma MappedSame(m: Memory, m': Memory, a: nat)
    requires m.Keys == m'.Keys
    ensures Mapped(m, a, 8) == Mapped(m', a, 8)
  {
    assert forall x :: x in m <==> x in m';
  }

  lemma ValueSaturates(rs: Resolver, t: Target, n: nat, n': nat)
    requires n == Min(n', MAX_STUBS)
    ensures ValueOf(rs, t, n) == ValueOf(rs, t, n')
  {
  }

  /** `p` is the part of a symbol's name before its first '#', or all of it without one. */
  predicate IsBaseName(name: Name, p: Name) {
    0x23 !in p && (name == p || p + [0x23] <= name)
  }

  /** A name is looked up, and recorded, under its part before the first '#'. */
  lemma {:induction false} BaseNameIs(name: Name, p: Name)
    requires IsBaseName(name, p)
    ensures BaseName(name) == p
  {
    if p != [] {
      assert name[0] == p[0] && p[0] in p;
      BaseNameIs(name[1..], p[1..]);
    } else {
      assert name != [] ==> name[0] == ([] + [0x23])[0];
    }
  }

  /** What a relocation stores, type by type, where `p` is its symbol's name before the '#' and
      its import would get stub `n`: the base plus the addend; a module number; no symbol at all;
      a symbol found under `p`, else under its full name; or the import's own stub, or zero when
      none is left. */
  ghost predicate Means(rs: Resolver, t: Target, p: Name, n: nat, word: nat) {
    var kind, name, addend := t.reloc.relType, t.reloc.symbolName, t.reloc.addend;
    if kind == 8 then word == (t.base + addend) % U64
    else if kind == 16 then word == 1
    else if name == [] then word == addend % U64
    else
      match rs.hle(p)
      case Some(a) => word == (a + addend) % U64
      case None =>
        match rs.hle(name)
        case Some(a) => word == (a + addend) % U64
        case None => word == ((if n < 4096 then rs.stubBase + 16 * n else 0) + addend) % U64
  }

  lemma ValueMeans(rs: Resolver, t: Target, p: Name, n: nat)
    requires t.reloc.relType in {1, 6, 7, 8, 16} && IsBaseName(t.reloc.symbolName, p)
    ensures Writes(t) && Means(rs, t, p, n, ValueOf(rs, t, n))
  {
    BaseNameIs(t.reloc.symbolName, p);
    hide BaseName, IsBaseName;
  }

  /** After the whole pass every relocation's slot reads what the relocation means. */
  lemma SlotMeaning(rs: Resolver, ts: seq<Target>, j: nat, st: LinkState, p: Name)
    requires j < |ts| && AllMapped(ts, st.memory) && DisjointSlots(ts) && |st.stubNames| <= MAX_STUBS
    requires ts[j].reloc.relType in {1, 6, 7, 8, 16} && IsBaseName(ts[j].reloc.symbolName, p)
    ensures var m, slot := ApplyAll(rs, ts, |ts|, st).memory, ts[j].base + ts[j].reloc.offset;
            Mapped(m, slot, 8) && Means(rs, ts[j], p, StubNumber(rs, ts, j, st), ReadWord(m, slot))
  {
    hide ReadWord, Mapped, ApplyAll, IsBaseName, AllMapped, DisjointSlots, StubNumber, Means, ValueOf, Writes;
    ValueMeans(rs, ts[j], p, StubNumber(rs, ts, j, st));
    SlotHoldsValue(rs, ts, |ts|, j, st);
  }

  /** A symbol registered under the NID `p` is what the slot refers to. */
  lemma RegisteredNidIsReached(rs: Resolver, symbols: map<Name, Symbols.SymbolRecord>, ts: seq<Target>, j: nat,
                               st: LinkState, p: Name)
    requires AnswersFor(rs, symbols) && p in symbols
    requires j < |ts| && AllMapped(ts, st.memory) && DisjointSlots(ts) && |st.stubNames| <= MAX_STUBS
    requires ts[j].reloc.relType in {1, 6, 7} && ts[j].reloc.symbolName != [] && IsBaseName(ts[j].reloc.symbolName, p)
    ensures var m := ApplyAll(rs, ts, |ts|, st).memory;
            && Mapped(m, ts[j].base + ts[j].reloc.offset, 8)
            && ReadWord(m, ts[j].base + ts[j].reloc.offset)
               == (symbols[p].virtualAddress + ts[j].reloc.addend) % U64
  {
    hide ReadWord, Mapped, ApplyAll, AllMapped, DisjointSlots;
    assert Symbols.Resolves(symbols, p, rs.hle(p));
    SlotMeaning(rs, ts, j, st, p);
  }

  /** Where `p` is no NID, it is a record of that name, if there is one; failing that the full
      name is tried, as a NID and then as a record's. */
  lemma RegisteredNameIsReached(rs: Resolver, symbols: map<Name, Symbols.SymbolRecord>, ts: seq<Target>, j: nat,
                                st: LinkState, p: Name)
    requires AnswersFor(rs, symbols) && p !in symbols
    requires j < |ts| && AllMapped(ts, st.memory) && DisjointSlots(ts) && |st.stubNames| <= MAX_STUBS
    requires ts[j].reloc.relType in {1, 6, 7} && ts[j].reloc.symbolName != [] && IsBaseName(ts[j].reloc.symbolName, p)
    ensures var m, slot, full := ApplyAll(rs, ts, |ts|, st).memory, ts[j].base + ts[j].reloc.offset, ts[j].reloc.symbolName;
            && Mapped(m, slot, 8)
            && if HasRecord(symbols, p) then HoldsRecord(symbols, p, ReadWord(m, slot), ts[j].reloc.addend)
               else if full in symbols then ReadWord(m, slot) == (symbols[full].virtualAddress + ts[j].reloc.addend) % U64
               else HasRecord(symbols, full) ==> HoldsRecord(symbols, full, ReadWord(m, slot), ts[j].reloc.addend)
  {
    hide ReadWord, Mapped, ApplyAll, AllMapped, DisjointSlots;
    var full := ts[j].reloc.symbolName;
    assert Symbols.Resolves(symbols, p, rs.hle(p));
    assert Symbols.Resolves(symbols, full, rs.hle(full));
    SlotMeaning(rs, ts, j, st, p);
  }

  ghost predicate HasRecord(symbols: map<Name, Symbols.SymbolRecord>, name: Name) {
    exists nid | nid in symbols :: symbols[nid].name == name
  }

  /** `word` is the address of some record of that name, plus the addend. */
  ghost predicate HoldsRecord(symbols: map<Name, Symbols.SymbolRecord>, name: Name, word: nat, addend: int) {
    exists nid | nid in symbols ::
      symbols[nid].name == name && word == (symbols[nid].virtualAddress + addend) % U64
  }

  /** Relocations of any other type write nothing. */
  lemma OtherTypesWriteNothing(rs: Resolver, t: Target, st: LinkState)
    requires t.reloc.relType !in {1, 6, 7, 8, 16}
    ensures Apply(rs, t, st) == st
  {
  }

  /** No byte outside the slots changes. */
  lemma {:induction false} OtherBytesUnchanged(rs: Resolver, ts: seq<Target>, k: nat, st: LinkState, x: nat)
    requires k <= |ts| && AllMapped(ts, st.memory) && x in st.memory
    requires forall j | 0 <= j < k && Writes(ts[j]) :: !(SlotOf(ts[j]) <= x < SlotOf(ts[j]) + 8)
    ensures ApplyAll(rs, ts, k, st).memory[x] == st.memory[x]
  {
    if k > 0 {
      hide Mapped, ValueOf;
      OtherBytesUnchanged(rs, ts, k - 1, st, x);
      MappedSame(st.memory, ApplyAll(rs, ts, k - 1, st).memory, SlotOf(ts[k - 1]));
    }
  }

  /** Every unresolved import is recorded under a stub of its own, in order, until none is left. */
  lemma {:induction false} ImportHasItsStub(rs: Resolver, ts: seq<Target>, k: nat, j: nat, st: LinkState)
    requires j < k <= |ts| && AllMapped(ts, st.memory) && NeedsStub(rs, ts[j])
    requires StubNumber(rs, ts, j, st) < MAX_STUBS
    ensures var n := StubNumber(rs, ts, j, st);
            && n < |ApplyAll(rs, ts, k, st).stubNames|
            && ApplyAll(rs, ts, k, st).stubNames[n] == StubNameFor(rs, ts[j].reloc.symbolName)
            && SymbolAddress(rs, ts[j], n) == StubAddress(rs.stubBase, n)
  {
    StubsInUse(rs, ts, j, st);
    if j < k - 1 {
      ImportHasItsStub(rs, ts, k - 1, j, st);
    }
  }

  /** The recorded name is the known one of the part before the '#', or else the full name. */
  lemma ImportIsRecorded(rs: Resolver, ts: seq<Target>, j: nat, st: LinkState, p: Name)
    requires j < |ts| && AllMapped(ts, st.memory) && StubNumber(rs, ts, j, st) < MAX_STUBS
    requires ts[j].reloc.relType in {1, 6, 7} && ts[j].reloc.symbolName != [] && IsBaseName(ts[j].reloc.symbolName, p)
    requires rs.hle(p) == None && rs.hle(ts[j].reloc.symbolName) == None
    ensures var n, names := StubNumber(rs, ts, j, st), ApplyAll(rs, ts, |ts|, st).stubNames;
            && n < |names|
            && names[n] == match rs.knownNid(p) case Some(known) => known case None => ts[j].reloc.symbolName
  {
    BaseNameIs(ts[j].reloc.symbolName, p);
    ImportHasItsStub(rs, ts, |ts|, j, st);
  }

  lemma {:induction false} StubNumbersDiffer(rs: Resolver, ts: seq<Target>, i: nat, j: nat, st: LinkState)
    requires i < j <= |ts| && NeedsStub(rs, ts[i])
    ensures StubNumber(rs, ts, i, st) < StubNumber(rs, ts, j, st)
    decreases j
  {
    if i < j - 1 {
      StubNumbersDiffer(rs, ts, i, j - 1, st);
    }
  }

  // ---------------------------------------------------------------------------
  // The linker's pass
  // ---------------------------------------------------------------------------

  class GuestMemory {
    var bytes: Memory

    constructor (bytes: Memory)
      ensures this.bytes == bytes
    {
      this.bytes := bytes;
    }
  }

  /** A loaded module as the pass sees it. */
  datatype Loaded = Loaded(base: nat, relocations: seq<MI.ParsedRelocation>)

  function TargetsOf(m: Loaded): (ts: seq<Target>)
    ensures |ts| == |m.relocations|
  {
    seq(|m.relocations|, j requires 0 <= j < |m.relocations| => Target(m.base, m.relocations[j]))
  }

  /** Every relocation of every module, in the order of the pass. */
  ghost function AllTargets(ms: seq<Loaded>): seq<Target> {
    if ms == [] then [] else AllTargets(ms[..|ms| - 1]) + TargetsOf(ms[|ms| - 1])
  }

  ghost function StateOf(memory: GuestMemory, stubs: StubAllocator): LinkState
    reads memory, stubs
  {
    LinkState(memory.bytes, stubs.names)
  }

  /** Apply a single relocation to a loaded module. */
  method ApplyRelocation(rs: Resolver, t: Target, memory: GuestMemory, stubs: StubAllocator)
    requires stubs.Valid() && stubs.base == rs.stubBase
    requires Writes(t) ==> Mapped(memory.bytes, SlotOf(t), 8)
    modifies memory, stubs
    ensures stubs.Valid() && StateOf(memory, stubs) == Apply(rs, t, old(StateOf(memory, stubs)))
  {
    hide Mapped, WriteWord;
    var reloc := t.reloc;
    if reloc.relType == R_X86_64_RELATIVE {
      memory.bytes := WriteWord(memory.bytes, SlotOf(t), (t.base + reloc.addend) % U64);
    } else if IsSymbolic(reloc.relType) {
      var resolvedAddr := 0;
      if reloc.symbolName != [] {
        var byBase := rs.hle(BaseName(reloc.symbolName));
        if byBase.Some? {
          resolvedAddr := byBase.value;
        } else {
          var byName := rs.hle(reloc.symbolName);
          if byName.Some? {
            resolvedAddr := byName.value;
          } else {
            var known := rs.knownNid(BaseName(reloc.symbolName));
            resolvedAddr := stubs.AllocateStub(if known.Some? then known.value else reloc.symbolName);
          }
        }
      }
      memory.bytes := WriteWord(memory.bytes, SlotOf(t), (resolvedAddr + reloc.addend) % U64);
    } else if reloc.relType == R_X86_64_DTPMOD64 {
      memory.bytes := WriteWord(memory.bytes, SlotOf(t), 1);
    }
  }

  /** Relocate all modules. */
  method RelocateAll(rs: Resolver, ms: seq<Loaded>, memory: GuestMemory, stubs: StubAllocator)
    requires stubs.Valid() && stubs.base == rs.stubBase
    requires AllMapped(AllTargets(ms), memory.bytes)
    modifies memory, stubs
    ensures stubs.Valid()
    ensures StateOf(memory, stubs) == ApplyAll(rs, AllTargets(ms), |AllTargets(ms)|, old(StateOf(memory, stubs)))
  {
    hide Mapped, Apply, AllMapped, ApplyAll, AllTargets;
    ghost var ts, st := AllTargets(ms), StateOf(memory, stubs);
    ghost var done := 0;
    NothingDone(rs, ms, st);
    var i := 0;
    while i < |ms|
      invariant 0 <= i <= |ms| && stubs.Valid()
      invariant done == |AllTargets(ms[..i])| && done <= |ts|
      invariant StateOf(memory, stubs) == ApplyAll(rs, ts, done, st)
    {
      TargetsInOrder(ms, i);
      var j := 0;
      while j < |ms[i].relocations|
        invariant 0 <= j <= |ms[i].relocations| && stubs.Valid()
        invariant done == |AllTargets(ms[..i])| + j && done <= |ts|
        invariant StateOf(memory, stubs) == ApplyAll(rs, ts, done, st)
      {
        var t := Target(ms[i].base, ms[i].relocations[j]);
        assert ts[done] == t;
        SlotMapped(rs, ts, done, st);
        ApplyRelocation(rs, t, memory, stubs);
        OneDone(rs, ts, done, st);
        done := done + 1;
        j := j + 1;
      }
      i := i + 1;
    }
  }

  lemma NothingDone(rs: Resolver, ms: seq<Loaded>, st: LinkState)
    requires AllMapped(AllTargets(ms), st.memory)
    ensures ms[..|ms|] == ms && AllTargets(ms[..0]) == [] && ApplyAll(rs, AllTargets(ms), 0, st) == st
  {
  }

  lemma OneDone(rs: Resolver, ts: seq<Target>, k: nat, st: LinkState)
    requires k < |ts| && AllMapped(ts, st.memory)
    requires Writes(ts[k]) ==> Mapped(ApplyAll(rs, ts, k, st).memory, SlotOf(ts[k]), 8)
    ensures ApplyAll(rs, ts, k + 1, st) == Apply(rs, ts[k], ApplyAll(rs, ts, k, st))
  {
  }

  lemma SlotMapped(rs: Resolver, ts: seq<Target>, k: nat, st: LinkState)
    requires k < |ts| && AllMapped(ts, st.memory)
    ensures Writes(ts[k]) ==> Mapped(ApplyAll(rs, ts, k, st).memory, SlotOf(ts[k]), 8)
    ensures Writes(ts[k]) ==> Mapped(st.memory, SlotOf(ts[k]), 8)
  {
    MappedSame(st.memory, ApplyAll(rs, ts, k, st).memory, SlotOf(ts[k]));
  }

  /** The targets of a prefix of the modules are a prefix of the targets. */
  lemma {:induction false} TargetsGrow(ms: seq<Loaded>, i: nat)
    requires i <= |ms|
    ensures AllTargets(ms[..i]) <= AllTargets(ms)
  {
    if i == |ms| {
      assert ms[..i] == ms;
    } else {
      assert ms[..|ms| - 1][..i] == ms[..i];
      TargetsGrow(ms[..|ms| - 1], i);
    }
  }

  lemma TargetsInOrder(ms: seq<Loaded>, i: nat)
    requires i < |ms|
    ensures |AllTargets(ms[..i + 1])| == |AllTargets(ms[..i])| + |ms[i].relocations| <= |AllTargets(ms)|
    ensures forall j | 0 <= j < |ms[i].relocations| ::
              AllTargets(ms)[|AllTargets(ms[..i])| + j] == Target(ms[i].base, ms[i].relocations[j])
  {
    var before, upTo, all := AllTargets(ms[..i]), AllTargets(ms[..i + 1]), AllTargets(ms);
    assert ms[..i + 1][..i] == ms[..i];
    assert upTo == before + TargetsOf(ms[i]);
    TargetsGrow(ms, i + 1);
    forall j | 0 <= j < |ms[i].relocations|
      ensures all[|before| + j] == Target(ms[i].base, ms[i].relocations[j])
    {
      assert all[|before| + j] == upTo[|before| + j] == TargetsOf(ms[i])[j];
    }
  }
}
