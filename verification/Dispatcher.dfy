/** Trap dispatch (crates/core/src/hle/dispatcher.rs).

    Imports are called through slots that hold stub addresses. A stub starts with `ud2`; the
    trap handler looks the stub's name up, runs the host function and emulates the stub's
    `ret`. The last part follows one such call from the relocation that bound the slot to the
    instruction after the call. */
module Dispatcher {
  import opened Wrappers
  import opened Types
  import opened Bytes
  import opened Stubs
  import opened Relocation
  import Patches

  // ---------------------------------------------------------------------------
  // Host thread bases
  // ---------------------------------------------------------------------------

  const MAX_THREADS: nat := 64

  /** Slots pair a thread id with its host FS base; id zero marks an empty one. The base of the
      first slot with this id, zero if there is none. */
  ghost function LookupFs(s: seq<(nat, nat)>, tid: nat, i: nat): (fs: nat)
    requires i <= |s|
    ensures (forall j | i <= j < |s| :: s[j].0 != tid) ==> fs == 0
    decreases |s| - i
  {
    if i == |s| then 0 else if s[i].0 == tid then s[i].1 else LookupFs(s, tid, i + 1)
  }

  lemma {:induction false} LookupFirst(s: seq<(nat, nat)>, tid: nat, i: nat, k: nat)
    requires i <= k < |s| && s[k].0 == tid && forall j | i <= j < k :: s[j].0 != tid
    ensures LookupFs(s, tid, i) == s[k].1
    decreases |s| - i
  {
    if i < k {
      LookupFirst(s, tid, i + 1, k);
    }
  }

  lemma {:induction false} LookupUntouched(s: seq<(nat, nat)>, t: seq<(nat, nat)>, tid: nat, i: nat, k: nat)
    requires |s| == |t| && i <= |s| && k < |s| && t == s[k := t[k]] && s[k].0 != tid && t[k].0 != tid
    ensures LookupFs(t, tid, i) == LookupFs(s, tid, i)
    decreases |s| - i
  {
    if i < |s| {
      LookupUntouched(s, t, tid, i + 1, k);
    }
  }

  class ThreadFsMap {
    const slots: array<(nat, nat)>

    ghost predicate Valid()
      reads this
    {
      slots.Length == MAX_THREADS
    }

    constructor ()
      ensures Valid() && fresh(slots)
      ensures forall tid: nat :: LookupFs(slots[..], tid, 0) == 0
    {
      slots := new (nat, nat)[MAX_THREADS](_ => (0, 0));
      new;
      forall tid: nat
        ensures LookupFs(slots[..], tid, 0) == 0
      {
        AllEmpty(slots[..], tid, 0);
      }
    }

    /** Record a thread's host FS base in the first slot that is empty or its own. With no such
        slot the call is dropped. */
    method RegisterThreadFs(tid: nat, fsBase: nat)
      requires Valid() && tid != 0
      modifies slots
      ensures var room := exists i | 0 <= i < MAX_THREADS :: old(slots[i].0) == 0 || old(slots[i].0) == tid;
              && (room ==> LookupFs(slots[..], tid, 0) == fsBase)
              && (!room ==> slots[..] == old(slots[..]))
      ensures forall other: nat | other != tid && other != 0 ::
                LookupFs(slots[..], other, 0) == LookupFs(old(slots[..]), other, 0)
    {
      var i := 0;
      while i < MAX_THREADS
        invariant 0 <= i <= MAX_THREADS
        invariant forall j | 0 <= j < i :: slots[j].0 != 0 && slots[j].0 != tid
        invariant slots[..] == old(slots[..])
      {
        if slots[i].0 == 0 || slots[i].0 == tid {
          ghost var s := slots[..];
          slots[i] := (tid, fsBase);
          LookupFirst(slots[..], tid, 0, i);
          forall other: nat | other != tid && other != 0
            ensures LookupFs(slots[..], other, 0) == LookupFs(s, other, 0)
          {
            LookupUntouched(s, slots[..], other, 0, i);
          }
          return;
        }
        i := i + 1;
      }
    }

    /** The calling thread's host FS base, zero if it never registered. */
    method GetThreadFs(tid: nat) returns (fs: nat)
      requires Valid()
      ensures fs == LookupFs(slots[..], tid, 0)
    {
      var i := 0;
      while i < MAX_THREADS
        invariant 0 <= i <= MAX_THREADS
        invariant LookupFs(slots[..], tid, 0) == LookupFs(slots[..], tid, i)
      {
        if slots[i].0 == tid {
          return slots[i].1;
        }
        i := i + 1;
      }
      return 0;
    }
  }

  lemma {:induction false} AllEmpty(s: seq<(nat, nat)>, tid: nat, i: nat)
    requires i <= |s| && forall j | 0 <= j < |s| :: s[j] == (0, 0)
    ensures LookupFs(s, tid, i) == 0
    decreases |s| - i
  {
    if i < |s| {
      AllEmpty(s, tid, i + 1);
    }
  }

  // ---------------------------------------------------------------------------
  // The handler
  // ---------------------------------------------------------------------------

  datatype Registers = Registers(
    rip: nat, rsp: nat, rax: nat, rdi: nat, rsi: nat, rdx: nat, rcx: nat, r8: nat, r9: nat, r10: nat,
    xmm: Option<Xmm>)

  /** The low and high halves of XMM0 and the low half of XMM1; absent when the kernel saved no
      floating point state. */
  datatype Xmm = Xmm(xmm0Low: nat, xmm0High: nat, xmm1Low: nat)

  datatype Arguments = Arguments(
    a1: nat, a2: nat, a3: nat, a4: nat, a5: nat, a6: nat, stackArg: nat, f0: nat, f1: nat)

  /** Host functions: they see the stub's name, the arguments and guest memory. */
  datatype HostFunctions = HostFunctions(
    dispatch: (Name, Arguments, Memory) -> (nat, Memory),
    isFloat: Name -> bool)

  datatype Outcome = Resumed(regs: Registers, memory: Memory) | Exited | Aborted

  /** Call numbers: exit ends the process, everything else is a fake success. */
  const SYS_EXIT: nat := 1

  function ArgumentsOf(r: Registers, m: Memory): Arguments
    requires r.rsp != 0 ==> Mapped(m, r.rsp + 8, 8)
  {
    Arguments(r.rdi, r.rsi, r.rdx, r.rcx, r.r8, r.r9,
              if r.rsp != 0 then ReadWord(m, r.rsp + 8) else 0,
              if r.xmm.Some? then r.xmm.value.xmm0Low else 0,
              if r.xmm.Some? then r.xmm.value.xmm1Low else 0)
  }

  /** The result goes to XMM0 for float functions, with RAX cleared, and to RAX otherwise. */
  function WithResult(r: Registers, float: bool, result: nat): Registers {
    if !float then r.(rax := result)
    else if r.xmm.None? then r.(rax := 0)
    else r.(rax := 0, xmm := Some(Xmm(result, 0, r.xmm.value.xmm1Low)))
  }

  /** The handler can read what it looks at: the trapping instruction, the return address and
      the first stack argument, the former also after the host function ran. */
  ghost predicate Readable(h: HostFunctions, r: Registers, m: Memory, base: nat, names: seq<Name>) {
    && Mapped(m, r.rip, 2)
    && Mapped(m, r.rsp, 8)
    && (r.rsp != 0 ==> Mapped(m, r.rsp + 8, 8))
    && (IsStubAddress(base, |names|, r.rip) ==>
          var name := StubNameAt(names, StubIndex(base, |names|, r.rip).value);
          Mapped(h.dispatch(name, ArgumentsOf(r, m), m).1, r.rsp, 8))
  }

  function IsUd2(m: Memory, a: nat): bool
    requires Mapped(m, a, 2)
  {
    m[a] == 0x0F && m[a + 1] == 0x0B
  }

  /** One illegal-instruction trap. Without a host FS base no host code may run, so the trap is
      answered with zero. */
  function HandleSigill(h: HostFunctions, hostFs: nat, base: nat, names: seq<Name>, r: Registers, m: Memory): Outcome
    requires Readable(h, r, m, base, names)
  {
    if !IsUd2(m, r.rip) then Aborted
    else if hostFs == 0 then
      if IsStubAddress(base, |names|, r.rip) then
        Resumed(r.(rsp := r.rsp + 8, rip := ReadWord(m, r.rsp), rax := 0), m)
      else
        Resumed(r.(rip := r.rip + 2, rax := 0), m)
    else if IsStubAddress(base, |names|, r.rip) then
      var index := StubIndex(base, |names|, r.rip);
      var name := StubNameAt(names, index.value);
      var (result, m') := h.dispatch(name, ArgumentsOf(r, m), m);
      var r' := WithResult(r, h.isFloat(name), result);
      Resumed(r'.(rsp := r'.rsp + 8, rip := ReadWord(m', r'.rsp)), m')
    else if r.rax == SYS_EXIT then Exited
    else Resumed(r.(rax := 0, rip := r.rip + 2), m)
  }

  datatype Ending = Resume | Exit | Abort

  /** The registers the kernel saved, which the handler changes in place. */
  class SavedContext {
    var registers: Registers

    constructor (registers: Registers)
      ensures this.registers == registers
    {
      this.registers := registers;
    }
  }

  /** Pop the return address into RIP. */
  method EmulateRet(context: SavedContext, memory: GuestMemory)
    requires Mapped(memory.bytes, context.registers.rsp, 8)
    modifies context
    ensures var r := old(context.registers);
            context.registers == r.(rsp := r.rsp + 8, rip := ReadWord(memory.bytes, r.rsp))
  {
    var returnAddr := ReadWord(memory.bytes, context.registers.rsp);
    context.registers := context.registers.(rsp := context.registers.rsp + 8);
    context.registers := context.registers.(rip := returnAddr);
  }

  /** Run the host function of the stub at RIP and hand its result to the guest. */
  method DispatchStub(h: HostFunctions, stubs: StubAllocator, context: SavedContext, memory: GuestMemory)
    requires stubs.Valid() && stubs.IsStub(context.registers.rip)
    requires Readable(h, context.registers, memory.bytes, stubs.base, stubs.names)
    modifies context, memory
    ensures var r, m := old(context.registers), old(memory.bytes);
            var name := StubNameAt(stubs.names, StubIndex(stubs.base, |stubs.names|, r.rip).value);
            var (result, m') := h.dispatch(name, ArgumentsOf(r, m), m);
            && memory.bytes == m' && Mapped(m', r.rsp, 8)
            && context.registers
               == WithResult(r, h.isFloat(name), result).(rsp := r.rsp + 8, rip := ReadWord(m', r.rsp))
  {
    hide Mapped, ReadWord, ArgumentsOf;
    var r := context.registers;
    var index := stubs.GetStubIndex(r.rip);
    var name := stubs.GetStubName(index.value);
    var (result, after) := h.dispatch(name, ArgumentsOf(r, memory.bytes), memory.bytes);
    memory.bytes := after;
    context.registers := WithResult(r, h.isFloat(name), result);
    EmulateRet(context, memory);
  }

  /** The SIGILL handler, on the calling thread's saved registers. */
  method OnSigill(h: HostFunctions, threads: ThreadFsMap, tid: nat, stubs: StubAllocator, context: SavedContext,
                  memory: GuestMemory) returns (ending: Ending)
    requires threads.Valid() && stubs.Valid()
    requires Readable(h, context.registers, memory.bytes, stubs.base, stubs.names)
    modifies context, memory
    ensures match HandleSigill(h, LookupFs(threads.slots[..], tid, 0), stubs.base, stubs.names,
                               old(context.registers), old(memory.bytes))
            case Resumed(r, m) => ending == Resume && context.registers == r && memory.bytes == m
            case Exited => ending == Exit
            case Aborted => ending == Abort
  {
    hide Mapped, ReadWord, ArgumentsOf, LookupFs;
    var hostFs := threads.GetThreadFs(tid);
    var r := context.registers;
    if !IsUd2(memory.bytes, r.rip) {
      return Abort;
    }
    if hostFs == 0 {
      if stubs.IsStub(r.rip) {
        EmulateRet(context, memory);
      } else {
        context.registers := r.(rip := r.rip + 2);
      }
      context.registers := context.registers.(rax := 0);
      return Resume;
    }
    if stubs.IsStub(r.rip) {
      DispatchStub(h, stubs, context, memory);
      return Resume;
    }
    if r.rax == SYS_EXIT {
      return Exit;
    }
    context.registers := r.(rax := 0);
    context.registers := context.registers.(rip := r.rip + 2);
    return Resume;
  }

  // ---------------------------------------------------------------------------
  // An import call, end to end
  // ---------------------------------------------------------------------------

  /** A call through the word at `slot`: the return address is pushed. */
  function CallThrough(r: Registers, m: Memory, slot: nat, returnTo: nat): (Registers, Memory)
    requires Mapped(m, slot, 8) && r.rsp >= 8 && Mapped(m, r.rsp - 8, 8) && returnTo < U64
  {
    (r.(rip := ReadWord(m, slot), rsp := r.rsp - 8), WriteWord(m, r.rsp - 8, returnTo))
  }

  /** The stub's slot in memory still holds its trapping instruction. */
  ghost predicate StubIntact(m: Memory, a: nat) {
    Mapped(m, a, 2) && IsUd2(m, a)
  }

  /** In memory that holds the stub region as it was filled, every slot traps. */
  lemma FilledSlotTraps(m: Memory, base: nat, k: nat)
    requires k < MAX_STUBS
    requires forall a | base <= a < base + STUB_REGION_SIZE :: a in m && m[a] == StubByte(a - base)
    ensures StubIntact(m, StubAddress(base, k))
  {
    SlotByte(k, 0);
    SlotByte(k, 1);
    assert StubByte(k * STUB_SIZE) == 0x0F && StubByte(k * STUB_SIZE + 1) == 0x0B;
  }

  ghost predicate HoldsCode(m: Memory, base: nat, code: seq<byte>) {
    forall a | base <= a < base + |code| :: a in m && m[a] == code[a - base]
  }

  /** A `syscall` of the original code, executed after patching: the guest goes on right behind
      it with zero in RAX and everything else as it was, unless it asked to exit. */
  lemma PatchedSyscallResumes(h: HostFunctions, hostFs: nat, stubBase: nat, names: seq<Name>, r: Registers, m: Memory,
                              base: nat, code: seq<byte>, i: nat)
    requires Patches.SyscallEnds(code, i) && r.rip == base + i - 1
    requires HoldsCode(m, base, Patches.SyscallsPatched(code))
    requires Readable(h, r, m, stubBase, names) && !IsStubAddress(stubBase, |names|, r.rip)
    ensures HandleSigill(h, hostFs, stubBase, names, r, m)
            == if hostFs != 0 && r.rax == 1 then Exited
               else Resumed(r.(rip := base + i + 1, rax := 0), m)
  {
    var patched := Patches.SyscallsPatched(code);
    assert !Patches.SyscallEnds(code, i - 1);
    assert patched[i - 1] == 0x0F && patched[i] == 0x0B;
    assert m[base + (i - 1)] == 0x0F && m[base + i] == 0x0B;
  }

  /** Import `j` was bound by the pass: it is an unresolved jump slot with addend zero that got
      one of the 4096 stubs. */
  ghost predicate BoundImport(rs: Resolver, ts: seq<Target>, j: nat, st: LinkState) {
    && j < |ts| && AllMapped(ts, st.memory) && DisjointSlots(ts) && |st.stubNames| <= MAX_STUBS
    && ts[j].reloc.relType == R_X86_64_JUMP_SLOT && ts[j].reloc.addend == 0 && NeedsStub(rs, ts[j])
    && StubNumber(rs, ts, j, st) < MAX_STUBS
    && rs.stubBase + STUB_REGION_SIZE <= U64
  }

  /** The slot of a bound import holds its stub's address. */
  lemma SlotHoldsStub(rs: Resolver, ts: seq<Target>, j: nat, st: LinkState)
    requires BoundImport(rs, ts, j, st)
    ensures Mapped(ApplyAll(rs, ts, |ts|, st).memory, SlotOf(ts[j]), 8)
    ensures ReadWord(ApplyAll(rs, ts, |ts|, st).memory, SlotOf(ts[j]))
            == StubAddress(rs.stubBase, StubNumber(rs, ts, j, st))
  {
    hide Mapped, ReadWord, ApplyAll;
    SlotHoldsValue(rs, ts, |ts|, j, st);
    ImportHasItsStub(rs, ts, |ts|, j, st);
  }

  /** A trap at a stub dispatches the stub's name and returns to the pushed address. */
  lemma StubCallReturns(h: HostFunctions, hostFs: nat, base: nat, names: seq<Name>, k: nat, r: Registers, m: Memory)
    requires k < |names| && r.rip == StubAddress(base, k) && hostFs != 0
    requires Readable(h, r, m, base, names) && IsUd2(m, r.rip)
    ensures var (result, m') := h.dispatch(names[k], ArgumentsOf(r, m), m);
            && Mapped(m', r.rsp, 8)
            && HandleSigill(h, hostFs, base, names, r, m)
               == Resumed(WithResult(r, h.isFloat(names[k]), result).(rsp := r.rsp + 8, rip := ReadWord(m', r.rsp)), m')
  {
    hide ReadWord, Mapped;
    StubIsIdentified(base, names, names, k);
  }

  /** What a host function is given, in terms of the caller's registers and memory before the
      call: the six integer argument registers, the word on top of the caller's stack, and the
      low halves of XMM0 and XMM1. */
  ghost function CallerArguments(r: Registers, m: Memory): Arguments
    requires Mapped(m, r.rsp, 8)
  {
    Arguments(
      a1 := r.rdi, a2 := r.rsi, a3 := r.rdx, a4 := r.rcx, a5 := r.r8, a6 := r.r9,
      stackArg := if r.rsp == 8 then 0 else ReadWord(m, r.rsp),
      f0 := if r.xmm.None? then 0 else r.xmm.value.xmm0Low,
      f1 := if r.xmm.None? then 0 else r.xmm.value.xmm1Low)
  }

  /** How a call that was served leaves the caller: behind the call, the result in RAX, or in XMM0
      with a zero high half and RAX zero for a float function, and everything else as before. */
  ghost predicate Served(before: Registers, after: Registers, float: bool, result: nat, returnTo: nat) {
    && after.rip == returnTo && after.rsp == before.rsp
    && after.rdi == before.rdi && after.rsi == before.rsi && after.rdx == before.rdx && after.rcx == before.rcx
    && after.r8 == before.r8 && after.r9 == before.r9 && after.r10 == before.r10
    && after.rax == (if float then 0 else result)
    && after.xmm.Some? == before.xmm.Some?
    && (before.xmm.Some? ==>
          && after.xmm.value.xmm0Low == (if float then result else before.xmm.value.xmm0Low)
          && after.xmm.value.xmm0High == (if float then 0 else before.xmm.value.xmm0High)
          && after.xmm.value.xmm1Low == before.xmm.value.xmm1Low)
  }

  /** What the call itself needs, with `m` the memory before it: the slot and the stack are
      mapped, pushing the return address leaves the stub alone, the handler can read the stack,
      and the host function does not overwrite the return address. */
  ghost predicate CallReady(rs: Resolver, t: Target, h: HostFunctions, names: seq<Name>, r: Registers, m: Memory,
                            returnTo: nat)
  {
    && r.rsp >= 8 && returnTo < U64
    && Mapped(m, SlotOf(t), 8) && Mapped(m, r.rsp - 8, 8) && Mapped(m, r.rsp, 8)
    && var (r1, m1) := CallThrough(r, m, SlotOf(t), returnTo);
       && StubIntact(m1, r1.rip)
       && Readable(h, r1, m1, rs.stubBase, names)
       && var m2 := h.dispatch(StubNameFor(rs, t.reloc.symbolName), CallerArguments(r, m), m1).1;
          Mapped(m2, r1.rsp, 8) && ReadWord(m2, r1.rsp) == ReadWord(m1, r1.rsp)
  }

  /** The handler takes its arguments where the caller put them. */
  lemma ArgumentsAreCallers(r: Registers, m: Memory, slot: nat, returnTo: nat)
    requires Mapped(m, slot, 8) && r.rsp >= 8 && Mapped(m, r.rsp - 8, 8) && Mapped(m, r.rsp, 8) && returnTo < U64
    ensures var (r1, m1) := CallThrough(r, m, slot, returnTo);
            && (r1.rsp != 0 ==> Mapped(m1, r1.rsp + 8, 8))
            && ArgumentsOf(r1, m1) == CallerArguments(r, m)
  {
    hide ReadWord, WriteWord;
    WriteLeaves(m, r.rsp - 8, returnTo, r.rsp);
  }

  lemma ResultIsServed(r: Registers, float: bool, result: nat, returnTo: nat)
    ensures Served(r, WithResult(r, float, result).(rip := returnTo), float, result, returnTo)
  {
  }

  /** Calling an unresolved import: whatever stubs were added after the pass, the call traps,
      the host function recorded for that relocation runs on the caller's arguments, and the
      guest goes on after the call with the result and everything else as before. The slot still
      holds what the pass stored. */
  lemma ImportCallReturns(rs: Resolver, ts: seq<Target>, j: nat, st: LinkState, h: HostFunctions, hostFs: nat,
                          names: seq<Name>, r: Registers, m: Memory, returnTo: nat)
    requires BoundImport(rs, ts, j, st) && hostFs != 0
    requires ApplyAll(rs, ts, |ts|, st).stubNames <= names
    requires CallReady(rs, ts[j], h, names, r, m, returnTo)
    requires ReadWord(m, SlotOf(ts[j])) == ReadWord(SlotMemory(rs, ts, j, st), SlotOf(ts[j]))
    ensures var (r1, m1) := CallThrough(r, m, SlotOf(ts[j]), returnTo);
            var name := StubNameFor(rs, ts[j].reloc.symbolName);
            var (result, m2) := h.dispatch(name, CallerArguments(r, m), m1);
            var outcome := HandleSigill(h, hostFs, rs.stubBase, names, r1, m1);
            outcome.Resumed? && outcome.memory == m2
            && Served(r, outcome.regs, h.isFloat(name), result, returnTo)
  {
    hide Mapped, ReadWord, WriteWord, ApplyAll, BoundImport, ArgumentsOf, CallerArguments, Served, WithResult;
    BoundFacts(rs, ts, j, st);
    SlotHoldsStub(rs, ts, j, st);
    ImportHasItsStub(rs, ts, |ts|, j, st);
    var n := StubNumber(rs, ts, j, st);
    var (r1, m1) := CallThrough(r, m, SlotOf(ts[j]), returnTo);
    ArgumentsAreCallers(r, m, SlotOf(ts[j]), returnTo);
    ReadWritten(m, r.rsp - 8, returnTo);
    assert names[n] == ApplyAll(rs, ts, |ts|, st).stubNames[n];
    StubCallReturns(h, hostFs, rs.stubBase, names, n, r1, m1);
    var name := StubNameFor(rs, ts[j].reloc.symbolName);
    var (result, m2) := h.dispatch(name, CallerArguments(r, m), m1);
    ResultFollowsPush(r, r1, h.isFloat(name), result);
    ResultIsServed(r, h.isFloat(name), result, returnTo);
  }

  /** Storing a result does not depend on RIP and RSP. */
  lemma ResultFollowsPush(r: Registers, r1: Registers, float: bool, result: nat)
    requires r1 == r.(rip := r1.rip, rsp := r1.rsp)
    ensures WithResult(r1, float, result).(rsp := r.rsp, rip := r.rip) == WithResult(r, float, result)
  {
  }

  /** On a thread without a host base no host function runs: the same call returns zero at once. */
  lemma UnservedCallReturnsZero(h: HostFunctions, base: nat, names: seq<Name>, k: nat, r: Registers, m: Memory,
                                slot: nat, returnTo: nat)
    requires k < |names| && Mapped(m, slot, 8) && ReadWord(m, slot) == StubAddress(base, k)
    requires r.rsp >= 8 && returnTo < U64 && Mapped(m, r.rsp - 8, 8)
    requires var (r1, m1) := CallThrough(r, m, slot, returnTo);
             StubIntact(m1, r1.rip) && Readable(h, r1, m1, base, names)
    ensures var (r1, m1) := CallThrough(r, m, slot, returnTo);
            var outcome := HandleSigill(h, 0, base, names, r1, m1);
            outcome.Resumed? && outcome.memory == m1 && Served(r, outcome.regs, false, 0, returnTo)
  {
    hide ReadWord, WriteWord, Mapped;
    StubIsIdentified(base, names, names, k);
    ReadWritten(m, r.rsp - 8, returnTo);
  }

  /** Any other illegal instruction ends the process. */
  lemma OtherTrapsAbort(h: HostFunctions, hostFs: nat, base: nat, names: seq<Name>, r: Registers, m: Memory)
    requires Readable(h, r, m, base, names) && [m[r.rip], m[r.rip + 1]] != [0x0F, 0x0B]
    ensures HandleSigill(h, hostFs, base, names, r, m) == Aborted
  {
  }

  ghost function SlotMemory(rs: Resolver, ts: seq<Target>, j: nat, st: LinkState): (m: Memory)
    requires BoundImport(rs, ts, j, st)
    ensures Mapped(m, SlotOf(ts[j]), 8)
  {
    SlotHoldsStub(rs, ts, j, st);
    ApplyAll(rs, ts, |ts|, st).memory
  }

  lemma BoundFacts(rs: Resolver, ts: seq<Target>, j: nat, st: LinkState)
    requires BoundImport(rs, ts, j, st)
    ensures j < |ts| && AllMapped(ts, st.memory) && NeedsStub(rs, ts[j])
    ensures StubNumber(rs, ts, j, st) < MAX_STUBS
  {
  }
}
