/** The PM4 command stream (crates/gpu/src/liverpool/command_processor.rs and pm4.rs, and the two
    packet writers of crates/core/src/hle/exports.rs).

    `Walk` is the processing loop as a function on buffers. Its packets tile the buffer, and
    processing a concatenation is processing the parts in turn whenever the first part ends on
    a packet boundary; the packets the writers emit then change nothing where they are spliced
    in. Register decoding is only traced by the original, so register writes are an ordered
    log. */
module Pm4 {
  import opened Wrappers
  import opened Types

  type u32 = x: int | 0 <= x < U32

  datatype Pm4Opcode =
    | Nop | SetBase | ClearState | IndexBufferSize | DispatchDirect | DispatchIndirect | AtomicGds
    | OcclusionQuery | SetPredication | RegRmw | DrawIndirect | DrawIndexIndirect | IndexBase | DrawIndex2
    | ContextControl | IndexType | DrawIndexAuto | NumInstances | DrawIndexMultiAuto | IndirectBufferConst
    | DrawIndexOffset2 | WriteData | MemSemaphore | WaitRegMem | IndirectBuffer | CopyData | PfpSyncMe
    | SurfaceSync | EventWrite | EventWriteEop | EventWriteEos | ReleaseMem | DmaData | AcquireMem
    | LoadShReg | LoadContextReg | SetConfigReg | SetContextReg | SetShReg | SetUconfigReg | LoadConstRam
    | WriteConstRam | DumpConstRam | IncrementCeCounter | IncrementDeCounter | WaitOnCeCounter
    | WaitOnDeCounterDiff

  function CodeOf(op: Pm4Opcode): nat {
    match op
    case Nop => 0x10
    case SetBase => 0x11
    case ClearState => 0x12
    case IndexBufferSize => 0x13
    case DispatchDirect => 0x15
    case DispatchIndirect => 0x16
    case AtomicGds => 0x1D
    case OcclusionQuery => 0x1F
    case SetPredication => 0x20
    case RegRmw => 0x21
    case DrawIndirect => 0x24
    case DrawIndexIndirect => 0x25
    case IndexBase => 0x26
    case DrawIndex2 => 0x27
    case ContextControl => 0x28
    case IndexType => 0x2A
    case DrawIndexAuto => 0x2D
    case NumInstances => 0x2F
    case DrawIndexMultiAuto => 0x30
    case IndirectBufferConst => 0x33
    case DrawIndexOffset2 => 0x35
    case WriteData => 0x37
    case MemSemaphore => 0x39
    case WaitRegMem => 0x3C
    case IndirectBuffer => 0x3F
    case CopyData => 0x40
    case PfpSyncMe => 0x42
    case SurfaceSync => 0x43
    case EventWrite => 0x46
    case EventWriteEop => 0x47
    case EventWriteEos => 0x48
    case ReleaseMem => 0x49
    case DmaData => 0x50
    case AcquireMem => 0x58
    case LoadShReg => 0x5F
    case LoadContextReg => 0x61
    case SetConfigReg => 0x68
    case SetContextReg => 0x69
    case SetShReg => 0x76
    case SetUconfigReg => 0x79
    case LoadConstRam => 0x80
    case WriteConstRam => 0x81
    case DumpConstRam => 0x83
    case IncrementCeCounter => 0x84
    case IncrementDeCounter => 0x85
    case WaitOnCeCounter => 0x86
    case WaitOnDeCounterDiff => 0x88
  }

  function FromU32(value: nat): Option<Pm4Opcode> {
    if value < 0x26 then DrawCode(value)
    else if value < 0x40 then StateCode(value)
    else if value < 0x60 then MemoryCode(value)
    else RegisterCode(value)
  }

  function DrawCode(value: nat): Option<Pm4Opcode> {
    if value == 0x10 then Some(Nop)
    else if value == 0x11 then Some(SetBase)
    else if value == 0x12 then Some(ClearState)
    else if value == 0x13 then Some(IndexBufferSize)
    else if value == 0x15 then Some(DispatchDirect)
    else if value == 0x16 then Some(DispatchIndirect)
    else if value == 0x1D then Some(AtomicGds)
    else if value == 0x1F then Some(OcclusionQuery)
    else if value == 0x20 then Some(SetPredication)
    else if value == 0x21 then Some(RegRmw)
    else if value == 0x24 then Some(DrawIndirect)
    else if value == 0x25 then Some(DrawIndexIndirect)
    else None
  }

  function StateCode(value: nat): Option<Pm4Opcode> {
    if value == 0x26 then Some(IndexBase)
    else if value == 0x27 then Some(DrawIndex2)
    else if value == 0x28 then Some(ContextControl)
    else if value == 0x2A then Some(IndexType)
    else if value == 0x2D then Some(DrawIndexAuto)
    else if value == 0x2F then Some(NumInstances)
    else if value == 0x30 then Some(DrawIndexMultiAuto)
    else if value == 0x33 then Some(IndirectBufferConst)
    else if value == 0x35 then Some(DrawIndexOffset2)
    else if value == 0x37 then Some(WriteData)
    else if value == 0x39 then Some(MemSemaphore)
    else if value == 0x3C then Some(WaitRegMem)
    else if value == 0x3F then Some(IndirectBuffer)
    else None
  }

  function MemoryCode(value: nat): Option<Pm4Opcode> {
    if value == 0x40 then Some(CopyData)
    else if value == 0x42 then Some(PfpSyncMe)
    else if value == 0x43 then Some(SurfaceSync)
    else if value == 0x46 then Some(EventWrite)
    else if value == 0x47 then Some(EventWriteEop)
    else if value == 0x48 then Some(EventWriteEos)
    else if value == 0x49 then Some(ReleaseMem)
    else if value == 0x50 then Some(DmaData)
    else if value == 0x58 then Some(AcquireMem)
    else if value == 0x5F then Some(LoadShReg)
    else None
  }

  function RegisterCode(value: nat): Option<Pm4Opcode> {
    if value == 0x61 then Some(LoadContextReg)
    else if value == 0x68 then Some(SetConfigReg)
    else if value == 0x69 then Some(SetContextReg)
    else if value == 0x76 then Some(SetShReg)
    else if value == 0x79 then Some(SetUconfigReg)
    else if value == 0x80 then Some(LoadConstRam)
    else if value == 0x81 then Some(WriteConstRam)
    else if value == 0x83 then Some(DumpConstRam)
    else if value == 0x84 then Some(IncrementCeCounter)
    else if value == 0x85 then Some(IncrementDeCounter)
    else if value == 0x86 then Some(WaitOnCeCounter)
    else if value == 0x88 then Some(WaitOnDeCounterDiff)
    else None
  }

  /** Decoding recognises exactly the defined codes. */
  lemma DecodesOwnCode(op: Pm4Opcode)
    ensures FromU32(CodeOf(op)) == Some(op)
  {
  }

  lemma DrawCodeIsExact(value: nat)
    ensures DrawCode(value).Some? ==> CodeOf(DrawCode(value).value) == value
  {
  }

  lemma StateCodeIsExact(value: nat)
    ensures StateCode(value).Some? ==> CodeOf(StateCode(value).value) == value
  {
  }

  lemma MemoryCodeIsExact(value: nat)
    ensures MemoryCode(value).Some? ==> CodeOf(MemoryCode(value).value) == value
  {
  }

  lemma RegisterCodeIsExact(value: nat)
    ensures RegisterCode(value).Some? ==> CodeOf(RegisterCode(value).value) == value
  {
  }

  lemma DecodesNothingElse(value: nat)
    ensures FromU32(value).Some? ==> CodeOf(FromU32(value).value) == value
  {
    DrawCodeIsExact(value);
    StateCodeIsExact(value);
    MemoryCodeIsExact(value);
    RegisterCodeIsExact(value);
    hide DrawCode, StateCode, MemoryCode, RegisterCode, CodeOf;
  }

  datatype Pm4Type = Type0 | Type2 | Type3

  datatype Pm4Header = Pm4Header(packetType: Pm4Type, count: nat, opcode: Option<Pm4Opcode>)

  /** Bits 30-31 are the type (the undefined type is treated as padding), bits 16-29 the count,
      bits 8-15 the opcode. */
  function ParseHeader(header: u32): Pm4Header {
    var bits := (header / 0x4000_0000) % 4;
    var packetType := if bits == 0 then Type0 else if bits == 3 then Type3 else Type2;
    Pm4Header(packetType, (header / 0x1_0000) % 0x4000,
              if packetType == Type3 then FromU32((header / 0x100) % 0x100) else None)
  }

  // ---------------------------------------------------------------------------
  // Packets
  // ---------------------------------------------------------------------------

  datatype RegisterSpace = Context | Shader | Config | Uconfig

  datatype RegisterWrite = RegisterWrite(space: RegisterSpace, offset: u32, value: u32)

  datatype Gpu = Gpu(
    numInstances: u32, indexBase: nat, indexSize: u32, indexType: u32, writes: seq<RegisterWrite>)

  /** Consecutive registers, the offset wrapping at 32 bits. */
  function WritesOf(space: RegisterSpace, start: u32, values: seq<u32>): (r: seq<RegisterWrite>)
    ensures |r| == |values|
  {
    seq(|values|, i requires 0 <= i < |values| => RegisterWrite(space, (start + i) % U32, values[i]))
  }

  function SpaceOf(op: Pm4Opcode): Option<RegisterSpace> {
    match op
    case SetContextReg => Some(Context)
    case SetShReg => Some(Shader)
    case SetConfigReg => Some(Config)
    case SetUconfigReg => Some(Uconfig)
    case _ => None
  }

  function ExecuteType3(op: Pm4Opcode, body: seq<u32>, g: Gpu): Gpu {
    if SpaceOf(op).Some? then
      if |body| >= 2 then g.(writes := g.writes + WritesOf(SpaceOf(op).value, body[0], body[1..])) else g
    else if op == NumInstances && |body| > 0 then g.(numInstances := body[0])
    else if op == IndexBase && |body| >= 2 then g.(indexBase := body[0] + body[1] * U32)
    else if op == IndexType && |body| > 0 then g.(indexType := body[0])
    else if op == IndexBufferSize && |body| > 0 then g.(indexSize := body[0])
    else g
  }

  /** Dwords a packet claims. */
  function ClaimedLength(header: u32): (n: nat)
    ensures n > 0
  {
    var h := ParseHeader(header);
    if h.packetType == Type3 then 2 + h.count else 1
  }

  /** Dwords the loop consumes: a packet cut off by the end of the buffer is taken short. */
  function PacketLength(dcb: seq<u32>): (n: nat)
    requires dcb != []
    ensures 0 < n <= |dcb|
  {
    Min(ClaimedLength(dcb[0]), |dcb|)
  }

  function ExecutePacket(packet: seq<u32>, g: Gpu): Gpu
    requires packet != []
  {
    var h := ParseHeader(packet[0]);
    if h.packetType == Type3 && h.opcode.Some? then ExecuteType3(h.opcode.value, packet[1..], g) else g
  }

  function Walk(dcb: seq<u32>, g: Gpu): Gpu
    decreases |dcb|
  {
    if dcb == [] then g
    else
      var n := PacketLength(dcb);
      Walk(dcb[n..], ExecutePacket(dcb[..n], g))
  }

  /** The walk of the buffer ends exactly at a packet's end. */
  predicate Complete(dcb: seq<u32>)
    decreases |dcb|
  {
    dcb == [] || (ClaimedLength(dcb[0]) <= |dcb| && Complete(dcb[ClaimedLength(dcb[0])..]))
  }

  /** The packets of a walk. */
  function Packets(dcb: seq<u32>): seq<seq<u32>>
    decreases |dcb|
  {
    if dcb == [] then [] else [dcb[..PacketLength(dcb)]] + Packets(dcb[PacketLength(dcb)..])
  }

  function Concat(ps: seq<seq<u32>>): seq<u32> {
    if ps == [] then [] else ps[0] + Concat(ps[1..])
  }

  ghost function ExecuteAll(ps: seq<seq<u32>>, g: Gpu): Gpu
    requires forall i | 0 <= i < |ps| :: ps[i] != []
  {
    if ps == [] then g else ExecuteAll(ps[1..], ExecutePacket(ps[0], g))
  }

  lemma ConcatCons(p: seq<u32>, ps: seq<seq<u32>>)
    ensures Concat([p] + ps) == p + Concat(ps)
  {
    assert ([p] + ps)[1..] == ps;
  }

  /** The packets tile the buffer ... */
  lemma {:induction false} PacketsTile(dcb: seq<u32>)
    ensures Concat(Packets(dcb)) == dcb
    ensures forall i | 0 <= i < |Packets(dcb)| :: Packets(dcb)[i] != []
    decreases |dcb|
  {
    if dcb != [] {
      var n := PacketLength(dcb);
      PacketsTile(dcb[n..]);
      var rest := Packets(dcb[n..]);
      assert Packets(dcb) == [dcb[..n]] + rest;
      hide *;
      ConcatCons(dcb[..n], rest);
      assert dcb == dcb[..n] + dcb[n..];
    }
  }

  /** ... and the walk executes them in order. */
  lemma {:induction false} WalkExecutesPackets(dcb: seq<u32>, g: Gpu)
    ensures forall i | 0 <= i < |Packets(dcb)| :: Packets(dcb)[i] != []
    ensures Walk(dcb, g) == ExecuteAll(Packets(dcb), g)
    decreases |dcb|
  {
    PacketsTile(dcb);
    if dcb != [] {
      hide PacketLength, ExecutePacket, Concat;
      var n := PacketLength(dcb);
      WalkExecutesPackets(dcb[n..], ExecutePacket(dcb[..n], g));
      assert Packets(dcb)[0] == dcb[..n];
      assert Packets(dcb)[1..] == Packets(dcb[n..]);
    }
  }

  /** Processing is a homomorphism at packet boundaries. */
  lemma {:induction false} WalkJoin(a: seq<u32>, b: seq<u32>, g: Gpu)
    requires Complete(a)
    ensures Walk(a + b, g) == Walk(b, Walk(a, g))
    decreases |a|
  {
    if a == [] {
      assert a + b == b;
    } else {
      var n := ClaimedLength(a[0]);
      assert (a + b)[..n] == a[..n] && (a + b)[n..] == a[n..] + b;
      WalkJoin(a[n..], b, ExecutePacket(a[..n], g));
    }
  }

  lemma {:induction false} CompleteJoin(a: seq<u32>, b: seq<u32>)
    requires Complete(a) && Complete(b)
    ensures Complete(a + b)
    decreases |a|
  {
    if a == [] {
      assert a + b == b;
    } else {
      var n := ClaimedLength(a[0]);
      assert (a + b)[n..] == a[n..] + b;
      CompleteJoin(a[n..], b);
    }
  }

  /** A packet that executes to nothing can be put in or taken out at any packet boundary. */
  lemma SpliceIdle(a: seq<u32>, idle: seq<u32>, b: seq<u32>, g: Gpu)
    requires Complete(a) && Complete(idle) && forall x :: Walk(idle, x) == x
    ensures Walk(a + idle + b, g) == Walk(a + b, g)
  {
    assert a + idle + b == a + (idle + b);
    WalkJoin(a, idle + b, g);
    WalkJoin(idle, b, Walk(a, g));
    WalkJoin(a, b, g);
  }

  /** At a boundary is where it has to be: after a header that still waits for its body, the
      same two dwords are taken for that body. */
  lemma SpliceInsidePacketMatters(g: Gpu)
    ensures var cut: seq<u32> := [0xC000_2F00];
            var rest: seq<u32> := [7];
            && !Complete(cut)
            && Walk(cut + rest, g).numInstances == 7
            && Walk(cut + NOP_PAIR + rest, g).numInstances == 0xC000_1000
  {
    var cut: seq<u32> := [0xC000_2F00];
    var rest: seq<u32> := [7];
    assert ParseHeader(0xC000_2F00) == Pm4Header(Type3, 0, Some(NumInstances));
    var s := cut + rest;
    assert s[..2] == s && s[2..] == [] && s[1..] == [7];
    var t := cut + NOP_PAIR + rest;
    assert t[..2] == [0xC000_2F00, 0xC000_1000] && t[2..] == [0, 7];
    assert ParseHeader(0) == Pm4Header(Type0, 0, None) && ParseHeader(7) == Pm4Header(Type0, 0, None);
    IgnoredWords(0, 7, ExecutePacket(t[..2], g));
  }

  lemma IgnoredWords(x: u32, y: u32, g: Gpu)
    requires ParseHeader(x).packetType == Type0 && ParseHeader(y).packetType == Type0
    ensures Walk([x, y], g) == g
  {
    var s: seq<u32> := [x, y];
    var t: seq<u32> := [y];
    assert s[1..] == t && t[1..] == [];
    assert PacketLength(s) == 1 && PacketLength(t) == 1;
    assert Walk(t, g) == Walk([], ExecutePacket(t[..1], g));
  }

  /** The walk's next packet, in terms of the buffer. */
  lemma NextPacket(dcb: seq<u32>, offset: nat, g: Gpu)
    requires offset < |dcb|
    ensures var h := ParseHeader(dcb[offset]);
            var end := if h.packetType == Type3 then Min(offset + 2 + h.count, |dcb|) else offset + 1;
            && offset < end <= |dcb|
            && Walk(dcb[offset..], g)
               == Walk(dcb[end..], if h.packetType == Type3 && h.opcode.Some?
                                   then ExecuteType3(h.opcode.value, dcb[offset + 1..end], g) else g)
  {
    hide ParseHeader, ExecuteType3;
    var rest, h := dcb[offset..], ParseHeader(dcb[offset]);
    var n := PacketLength(rest);
    assert rest[0] == dcb[offset];
    assert rest[n..] == dcb[offset + n..] && rest[..n][1..] == dcb[offset + 1..offset + n];
  }

  lemma WalkNothing(g: Gpu)
    ensures Walk([], g) == g
  {
  }

  // ---------------------------------------------------------------------------
  // The processor
  // ---------------------------------------------------------------------------

  class CommandProcessor {
    var gpu: Gpu
    var submitCount: nat

    constructor ()
      ensures gpu == Gpu(0, 0, 0, 0, []) && submitCount == 0
    {
      gpu, submitCount := Gpu(0, 0, 0, 0, []), 0;
    }

    /** Process a PM4 command buffer. */
    method ProcessCommandBuffer(dcb: seq<u32>)
      modifies this
      ensures gpu == Walk(dcb, old(gpu)) && submitCount == old(submitCount) + 1
    {
      hide ParseHeader, ExecuteType3, ExecutePacket, Walk;
      var offset := 0;
      assert dcb[0..] == dcb;
      while offset < |dcb|
        invariant 0 <= offset <= |dcb| && submitCount == old(submitCount)
        invariant Walk(dcb[offset..], gpu) == Walk(dcb, old(gpu))
      {
        var header := ParseHeader(dcb[offset]);
        NextPacket(dcb, offset, gpu);
        match header.packetType {
          case Type3 =>
            var bodyDwords := header.count + 1;
            var end := Min(offset + 1 + bodyDwords, |dcb|);
            var body := dcb[offset + 1..end];
            if header.opcode.Some? {
              ProcessType3Packet(header.opcode.value, body);
            }
            offset := end;
          case _ =>
            offset := offset + 1;
        }
      }
      assert dcb[offset..] == [];
      WalkNothing(gpu);
      submitCount := submitCount + 1;
    }

    /** Handle a type 3 packet. */
    method ProcessType3Packet(op: Pm4Opcode, body: seq<u32>)
      modifies this`gpu
      ensures gpu == ExecuteType3(op, body, old(gpu))
    {
      match op {
        case SetContextReg => WriteRegisters(Context, body);
        case SetShReg => WriteRegisters(Shader, body);
        case SetConfigReg => WriteRegisters(Config, body);
        case SetUconfigReg => WriteRegisters(Uconfig, body);
        case NumInstances =>
          if |body| > 0 {
            gpu := gpu.(numInstances := body[0]);
          }
        case IndexBase =>
          if |body| >= 2 {
            gpu := gpu.(indexBase := body[0] + body[1] * U32);
          }
        case IndexType =>
          if |body| > 0 {
            gpu := gpu.(indexType := body[0]);
          }
        case IndexBufferSize =>
          if |body| > 0 {
            gpu := gpu.(indexSize := body[0]);
          }
        case _ =>
      }
    }

    /** Write the body's values to consecutive registers. */
    method WriteRegisters(space: RegisterSpace, body: seq<u32>)
      modifies this`gpu
      ensures gpu == if |body| >= 2
                     then old(gpu).(writes := old(gpu).writes + WritesOf(space, body[0], body[1..]))
                     else old(gpu)
    {
      if |body| >= 2 {
        var values := body[1..];
        var i := 0;
        while i < |values|
          invariant 0 <= i <= |values|
          invariant gpu == old(gpu).(writes := old(gpu).writes + WritesOf(space, body[0], values)[..i])
        {
          gpu := gpu.(writes := gpu.writes + [RegisterWrite(space, (body[0] + i) % U32, values[i])]);
          i := i + 1;
        }
        assert WritesOf(space, body[0], values)[..|values|] == WritesOf(space, body[0], values);
      }
    }
  }

  // ---------------------------------------------------------------------------
  // Packets built by hand
  // ---------------------------------------------------------------------------

  /** A type 3 header for a body of `count + 1` dwords. */
  function HeaderOf(op: Pm4Opcode, count: nat): u32
    requires count < 0x4000
  {
    CodesAreBytes(op);
    0xC000_0000 + count * 0x1_0000 + CodeOf(op) * 0x100
  }

  lemma CodesAreBytes(op: Pm4Opcode)
    ensures CodeOf(op) < 0x100
  {
  }

  /** The three fields of a type 3 header; the lowest byte is in none of them. */
  lemma HeaderBits(count: nat, code: nat, low: nat)
    requires count < 0x4000 && code < 0x100 && low < 0x100
    ensures var h := 0xC000_0000 + count * 0x1_0000 + code * 0x100 + low;
            (h / 0x4000_0000) % 4 == 3 && (h / 0x1_0000) % 0x4000 == count && (h / 0x100) % 0x100 == code
  {
    var h := 0xC000_0000 + count * 0x1_0000 + code * 0x100 + low;
    LowHigh(count * 0x1_0000 + code * 0x100 + low, 3, 0x4000_0000);
    LowHigh(code * 0x100 + low, 0xC000 + count, 0x1_0000);
    LowHigh(count, 3, 0x4000);
    LowHigh(low, (0xC000 + count) * 0x100 + code, 0x100);
    LowHigh(code, 0xC000 + count, 0x100);
    assert h == low + 0x100 * ((0xC000 + count) * 0x100 + code);
  }

  /** A header is parsed as what it was made from. */
  lemma ParsesOwnHeader(op: Pm4Opcode, count: nat)
    requires count < 0x4000
    ensures ParseHeader(HeaderOf(op, count)) == Pm4Header(Type3, count, Some(op))
  {
    hide CodeOf, FromU32;
    CodesAreBytes(op);
    HeaderBits(count, CodeOf(op), 0);
    DecodesOwnCode(op);
  }

  /** A packet with opcode `op` and body `body` executes as that, and the walk goes on behind it. */
  lemma WalkPacket(op: Pm4Opcode, body: seq<u32>, rest: seq<u32>, g: Gpu)
    requires 0 < |body| <= 0x4000
    ensures Walk([HeaderOf(op, |body| - 1)] + body + rest, g) == Walk(rest, ExecuteType3(op, body, g))
  {
    hide HeaderOf, ParseHeader, ExecuteType3;
    ParsesOwnHeader(op, |body| - 1);
    var packet: seq<u32> := [HeaderOf(op, |body| - 1)] + body;
    var dcb := packet + rest;
    assert PacketLength(dcb) == |packet|;
    assert dcb[..|packet|] == packet && dcb[|packet|..] == rest && packet[1..] == body;
  }

  // ---------------------------------------------------------------------------
  // What packets do, word for word
  // ---------------------------------------------------------------------------

  /** `header` announces opcode number `code` and `count + 1` dwords; its lowest byte is free. */
  ghost predicate Announces(header: u32, code: nat, count: nat) {
    && code < 0x100 && count < 0x4000
    && 0xC000_0000 + count * 0x1_0000 + code * 0x100 <= header
    && header < 0xC000_0000 + count * 0x1_0000 + (code + 1) * 0x100
  }

  /** The body is whole, or the buffer ends before its end. */
  ghost predicate Bodied(body: seq<u32>, count: nat, rest: seq<u32>) {
    |body| == count + 1 || (|body| < count + 1 && rest == [])
  }

  /** The numbers of the opcodes that have an effect, and the register space of four of them. */
  ghost predicate Sets(code: nat, space: RegisterSpace) {
    match space
    case Context => code == 0x69
    case Shader => code == 0x76
    case Config => code == 0x68
    case Uconfig => code == 0x79
  }

  lemma ParsesAnnounced(header: u32, code: nat, count: nat)
    requires Announces(header, code, count)
    ensures ParseHeader(header) == Pm4Header(Type3, count, FromU32(code))
  {
    hide FromU32;
    HeaderBits(count, code, header - (0xC000_0000 + count * 0x1_0000 + code * 0x100));
  }

  lemma WalkAnnounced(header: u32, code: nat, count: nat, body: seq<u32>, rest: seq<u32>, g: Gpu)
    requires Announces(header, code, count) && Bodied(body, count, rest)
    ensures Walk([header] + body + rest, g)
            == Walk(rest, if FromU32(code).Some? then ExecuteType3(FromU32(code).value, body, g) else g)
  {
    hide ParseHeader, ExecuteType3, FromU32, Announces;
    ParsesAnnounced(header, code, count);
    var packet: seq<u32> := [header] + body;
    var dcb := packet + rest;
    assert PacketLength(dcb) == |packet|;
    assert dcb[..|packet|] == packet && dcb[|packet|..] == rest && packet[1..] == body;
  }

  /** The four kinds of register packet write their values to consecutive registers of their own
      space, from the offset their first dword gives. */
  lemma RegisterPacket(header: u32, code: nat, space: RegisterSpace, count: nat, start: u32, values: seq<u32>,
                       rest: seq<u32>, log: seq<RegisterWrite>, g: Gpu)
    requires Announces(header, code, count) && Sets(code, space) && values != []
    requires Bodied([start] + values, count, rest)
    requires |log| == |values|
    requires forall i | 0 <= i < |log| :: log[i] == RegisterWrite(space, (start + i) % U32, values[i])
    ensures Walk([header] + ([start] + values) + rest, g) == Walk(rest, g.(writes := g.writes + log))
  {
    hide Announces, Walk;
    WalkAnnounced(header, code, count, [start] + values, rest, g);
    SetCodes(code, space);
    hide FromU32, CodeOf;
    var body := [start] + values;
    assert body[1..] == values;
    assert WritesOf(space, start, values) == log;
  }

  lemma SetCodes(code: nat, space: RegisterSpace)
    requires Sets(code, space)
    ensures FromU32(code).Some? && SpaceOf(FromU32(code).value) == Some(space)
  {
  }

  /** The index buffer's address is the first dword below the second. */
  lemma IndexBasePacket(address: nat, rest: seq<u32>, g: Gpu)
    requires address < U64
    ensures Walk([0xC001_2600, address % U32, address / U32] + rest, g) == Walk(rest, g.(indexBase := address))
  {
    var body: seq<u32> := [address % U32, address / U32];
    IndexBaseEffect(address, g);
    assert FromU32(0x26) == Some(IndexBase);
    hide Walk, FromU32, ExecuteType3;
    WalkAnnounced(0xC001_2600, 0x26, 1, body, rest, g);
    assert [0xC001_2600, address % U32, address / U32] + rest == [0xC001_2600] + body + rest;
  }

  lemma IndexBaseEffect(address: nat, g: Gpu)
    requires address < U64
    ensures ExecuteType3(IndexBase, [address % U32, address / U32], g) == g.(indexBase := address)
  {
  }

  /** The three packets that set one register each. */
  lemma SingleValuePackets(value: u32, rest: seq<u32>, g: Gpu)
    ensures Walk([0xC000_2A00, value] + rest, g) == Walk(rest, g.(indexType := value))
    ensures Walk([0xC000_1300, value] + rest, g) == Walk(rest, g.(indexSize := value))
    ensures Walk([0xC000_2F00, value] + rest, g) == Walk(rest, g.(numInstances := value))
  {
    SingleValueEffects(value, g);
    hide Walk, FromU32, ExecuteType3;
    SingleValuePacket(0xC000_2A00, 0x2A, value, rest, g);
    SingleValuePacket(0xC000_1300, 0x13, value, rest, g);
    SingleValuePacket(0xC000_2F00, 0x2F, value, rest, g);
  }

  lemma SingleValueEffects(value: u32, g: Gpu)
    ensures FromU32(0x2A) == Some(IndexType) && ExecuteType3(IndexType, [value], g) == g.(indexType := value)
    ensures FromU32(0x13) == Some(IndexBufferSize) && ExecuteType3(IndexBufferSize, [value], g) == g.(indexSize := value)
    ensures FromU32(0x2F) == Some(NumInstances) && ExecuteType3(NumInstances, [value], g) == g.(numInstances := value)
  {
  }

  lemma SingleValuePacket(header: u32, code: nat, value: u32, rest: seq<u32>, g: Gpu)
    requires code < 0x100 && header == 0xC000_0000 + code * 0x100
    ensures Walk([header, value] + rest, g)
            == Walk(rest, if FromU32(code).Some? then ExecuteType3(FromU32(code).value, [value], g) else g)
  {
    hide Walk, FromU32, ExecuteType3;
    WalkAnnounced(header, code, 0, [value], rest, g);
    assert [header, value] + rest == [header] + [value] + rest;
  }

  /** Every other opcode, known or not, changes nothing, whatever its body. */
  lemma OtherOpcodesChangeNothing(header: u32, code: nat, count: nat, body: seq<u32>, rest: seq<u32>, g: Gpu)
    requires Announces(header, code, count) && Bodied(body, count, rest)
    requires code !in {0x69, 0x76, 0x68, 0x79, 0x26, 0x2A, 0x13, 0x2F}
    ensures Walk([header] + body + rest, g) == Walk(rest, g)
  {
    WalkAnnounced(header, code, count, body, rest, g);
    DecodesNothingElse(code);
    if FromU32(code).Some? {
      InertCodes(FromU32(code).value, body, g);
    }
    hide Walk, FromU32, ExecuteType3, CodeOf;
  }

  lemma InertCodes(op: Pm4Opcode, body: seq<u32>, g: Gpu)
    requires CodeOf(op) !in {0x69, 0x76, 0x68, 0x79, 0x26, 0x2A, 0x13, 0x2F}
    ensures ExecuteType3(op, body, g) == g
  {
  }

  /** A packet the buffer cuts off before its operands changes nothing. */
  lemma ShortPacketsChangeNothing(header: u32, code: nat, count: nat, body: seq<u32>, g: Gpu)
    requires Announces(header, code, count) && Bodied(body, count, [])
    requires body == [] || (|body| == 1 && code in {0x69, 0x76, 0x68, 0x79, 0x26})
    ensures Walk([header] + body, g) == g
  {
    hide Announces, FromU32;
    assert [header] + body + [] == [header] + body;
    WalkAnnounced(header, code, count, body, [], g);
    if body != [] {
      NeedsTwo(code);
    }
  }

  lemma NeedsTwo(code: nat)
    requires code in {0x69, 0x76, 0x68, 0x79, 0x26}
    ensures FromU32(code).Some? && (SpaceOf(FromU32(code).value).Some? || FromU32(code).value == IndexBase)
  {
  }

  /** A dword that is no type 3 header is skipped alone. */
  lemma OtherTypesSkipOne(word: u32, rest: seq<u32>, g: Gpu)
    requires word < 0xC000_0000
    ensures Walk([word] + rest, g) == Walk(rest, g)
  {
    hide FromU32, ExecuteType3;
    var dcb := [word] + rest;
    assert ParseHeader(word).packetType != Type3;
    assert PacketLength(dcb) == 1 && dcb[1..] == rest && dcb[..1] == [word];
  }

  // ---------------------------------------------------------------------------
  // The writers
  // ---------------------------------------------------------------------------

  /** A NOP with a body of six dwords. */
  const WAIT_FLIP: seq<u32> := [0xC000_1000 + 5 * 0x1_0000, 0, 0, 0, 0, 0, 0]

  const NOP_PAIR: seq<u32> := [0xC000_1000, 0]

  const HW_INIT_PACKET_SIZE: nat := 0x100

  /** Packets that each set one register: header, register offset, value. */
  function SetRegisters(ws: seq<(Pm4Opcode, u32, u32)>): (r: seq<u32>)
    ensures |r| == 3 * |ws|
  {
    if ws == [] then []
    else [0xC001_0000 + CodeOf(ws[0].0) * 0x100, ws[0].1, ws[0].2] + SetRegisters(ws[1..])
  }

  function InitShaderState(): (r: seq<(Pm4Opcode, u32, u32)>)
    ensures |r| == 18
  {
    [
      (SetShReg, 0x216, 0xFFFFFFFF), (SetShReg, 0x217, 0xFFFFFFFF), (SetShReg, 0x215, 0x0),
      (SetContextReg, 0x2F9, 0x2D), (SetContextReg, 0x282, 0x8), (SetContextReg, 0x280, 0x80008),
      (SetContextReg, 0x281, 0xFFFF0000), (SetContextReg, 0x204, 0x0), (SetContextReg, 0x206, 0x43F),
      (SetContextReg, 0x83, 0xFFFF), (SetContextReg, 0x317, 0x10), (SetContextReg, 0x2FA, 0x3F800000),
      (SetContextReg, 0x2FC, 0x3F800000), (SetContextReg, 0x2FB, 0x3F800000), (SetContextReg, 0x2FD, 0x3F800000),
      (SetContextReg, 0x202, 0xCC0010), (SetContextReg, 0x30E, 0xFFFFFFFF), (SetContextReg, 0x30F, 0xFFFFFFFF)
    ]
  }

  function InitContextState(): (r: seq<(Pm4Opcode, u32, u32)>)
    ensures |r| == 19
  {
    [
      (SetShReg, 0x7, 0x1701FF), (SetShReg, 0x46, 0x1701FD), (SetShReg, 0x87, 0x1701FF),
      (SetShReg, 0xC7, 0x1701FD), (SetShReg, 0x107, 0x17), (SetShReg, 0x147, 0x1701FD), (SetShReg, 0x47, 0x1C),
      (SetContextReg, 0x1B1, 0x2), (SetContextReg, 0x101, 0x0), (SetContextReg, 0x100, 0xFFFFFFFF),
      (SetContextReg, 0x103, 0x0), (SetContextReg, 0x284, 0x0), (SetContextReg, 0x290, 0x0),
      (SetContextReg, 0x2AE, 0x0), (SetContextReg, 0x102, 0x0), (SetContextReg, 0x292, 0x0),
      (SetContextReg, 0x293, 0x6020000), (SetContextReg, 0x2F8, 0x0), (SetContextReg, 0x2DE, 0x1E9)
    ]
  }

  function InitLastState(): (r: seq<(Pm4Opcode, u32, u32)>)
    ensures |r| == 2
  {
    [
      (SetUconfigReg, 0x200, 0xE0000000), (SetContextReg, 0x2AA, 0xFF)
    ]
  }

  /** The 126 dwords of the hardware initialisation: clear state, registers, one instance,
      registers, a write of three consecutive registers, registers. */
  function InitSequence(): (r: seq<u32>)
    ensures |r| == 126
  {
    hide SetRegisters, InitShaderState, InitContextState, InitLastState;
    [0xC000_1200, 0] + SetRegisters(InitShaderState())
    + [0xC000_2F00, 1] + SetRegisters(InitContextState())
    + [0xC003_6900, 0x295, 0x100, 0x100, 4] + SetRegisters(InitLastState())
  }

  ghost function NopPairs(n: nat): (r: seq<u32>)
    ensures |r| == 2 * n
    ensures forall k | 0 <= k < 2 * n :: r[k] == if k % 2 == 0 then 0xC000_1000 else 0
  {
    seq(2 * n, k => if k % 2 == 0 then 0xC000_1000 else 0)
  }

  lemma OneIdlePacket(packet: seq<u32>, g: Gpu)
    requires packet != [] && ClaimedLength(packet[0]) == |packet| && ExecutePacket(packet, g) == g
    ensures Walk(packet, g) == g
  {
    assert packet[..|packet|] == packet && packet[|packet|..] == [];
  }

  lemma WaitFlipHeader()
    ensures ParseHeader(WAIT_FLIP[0]) == Pm4Header(Type3, 5, Some(Nop))
  {
  }

  lemma WaitFlipIsIdle(g: Gpu)
    ensures Complete(WAIT_FLIP) && Walk(WAIT_FLIP, g) == g
  {
    hide ParseHeader, FromU32, Complete;
    WaitFlipHeader();
    OnePacket(WAIT_FLIP);
    OneIdlePacket(WAIT_FLIP, g);
  }

  lemma NopHeader()
    ensures ParseHeader(NOP_PAIR[0]) == Pm4Header(Type3, 0, Some(Nop))
  {
  }

  lemma NopPairIsIdle(g: Gpu)
    ensures Complete(NOP_PAIR) && Walk(NOP_PAIR, g) == g
  {
    hide ParseHeader, FromU32, Complete;
    NopHeader();
    OnePacket(NOP_PAIR);
    OneIdlePacket(NOP_PAIR, g);
  }

  lemma {:induction false} NopPairsAreIdle(n: nat, g: Gpu)
    ensures Complete(NopPairs(n)) && Walk(NopPairs(n), g) == g
  {
    if n == 0 {
      assert NopPairs(0) == [];
    } else {
      hide Complete, Walk;
      assert NopPairs(n) == NOP_PAIR + NopPairs(n - 1);
      NopPairIsIdle(g);
      NopPairsAreIdle(n - 1, g);
      CompleteJoin(NOP_PAIR, NopPairs(n - 1));
      WalkJoin(NOP_PAIR, NopPairs(n - 1), g);
    }
  }

  /** The wait-for-flip packet, and any padding, can be spliced in at a packet boundary. */
  lemma WritersSpliceFreely(a: seq<u32>, b: seq<u32>, n: nat, g: Gpu)
    requires Complete(a)
    ensures Walk(a + WAIT_FLIP + b, g) == Walk(a + b, g)
    ensures Walk(a + NopPairs(n) + b, g) == Walk(a + b, g)
  {
    hide Walk, Complete;
    WaitFlipIsIdle(g);
    NopPairsAreIdle(n, g);
    forall x
      ensures Complete(WAIT_FLIP) && Walk(WAIT_FLIP, x) == x
      ensures Complete(NopPairs(n)) && Walk(NopPairs(n), x) == x
    {
      WaitFlipIsIdle(x);
      NopPairsAreIdle(n, x);
    }
    SpliceIdle(a, WAIT_FLIP, b, g);
    SpliceIdle(a, NopPairs(n), b, g);
  }

  lemma OnePacket(packet: seq<u32>)
    requires packet != [] && ClaimedLength(packet[0]) == |packet|
    ensures Complete(packet)
  {
    assert packet[|packet|..] == [];
  }

  lemma RegisterHeader(code: nat)
    requires code < 0x100
    ensures ClaimedLength(0xC001_0000 + code * 0x100) == 3
  {
    hide FromU32;
    var h := 0xC001_0000 + code * 0x100;
    assert h / 0x4000_0000 == 3 && h / 0x1_0000 == 0xC001;
  }

  lemma {:induction false} SetRegistersIsComplete(ws: seq<(Pm4Opcode, u32, u32)>)
    ensures Complete(SetRegisters(ws))
  {
    if ws != [] {
      var packet: seq<u32> := [0xC001_0000 + CodeOf(ws[0].0) * 0x100, ws[0].1, ws[0].2];
      CodesAreBytes(ws[0].0);
      RegisterHeader(CodeOf(ws[0].0));
      hide CodeOf, ClaimedLength;
      OnePacket(packet);
      SetRegistersIsComplete(ws[1..]);
      CompleteJoin(packet, SetRegisters(ws[1..]));
    }
  }

  /** The hardware initialisation sequence ends on a packet boundary. */
  lemma InitSequenceIsComplete()
    ensures Complete(InitSequence())
  {
    hide SetRegisters, InitShaderState, InitContextState, InitLastState, Complete;
    var clear, instances, three := [0xC000_1200, 0], [0xC000_2F00, 1], [0xC003_6900, 0x295, 0x100, 0x100, 4];
    InitHeaders();
    SetRegistersIsComplete(InitShaderState());
    SetRegistersIsComplete(InitContextState());
    SetRegistersIsComplete(InitLastState());
    CompleteSix(clear, SetRegisters(InitShaderState()), instances, SetRegisters(InitContextState()), three,
                SetRegisters(InitLastState()));
  }

  lemma InitHeaders()
    ensures Complete([0xC000_1200, 0]) && Complete([0xC000_2F00, 1])
    ensures Complete([0xC003_6900, 0x295, 0x100, 0x100, 4])
  {
    hide FromU32;
    OnePacket([0xC000_1200, 0]);
    OnePacket([0xC000_2F00, 1]);
    OnePacket([0xC003_6900, 0x295, 0x100, 0x100, 4]);
  }

  lemma CompleteSix(a: seq<u32>, b: seq<u32>, c: seq<u32>, d: seq<u32>, e: seq<u32>, f: seq<u32>)
    requires Complete(a) && Complete(b) && Complete(c) && Complete(d) && Complete(e) && Complete(f)
    ensures Complete(a + b + c + d + e + f)
  {
    hide Complete;
    CompleteJoin(a, b);
    CompleteJoin(a + b, c);
    CompleteJoin(a + b + c, d);
    CompleteJoin(a + b + c + d, e);
    CompleteJoin(a + b + c + d + e, f);
  }

  ghost predicate SetsRegisters(ws: seq<(Pm4Opcode, u32, u32)>) {
    forall i | 0 <= i < |ws| :: SpaceOf(ws[i].0).Some?
  }

  /** The writes a list of single-register packets asks for. */
  ghost function Requested(ws: seq<(Pm4Opcode, u32, u32)>): (r: seq<RegisterWrite>)
    requires SetsRegisters(ws)
  {
    seq(|ws|, i requires 0 <= i < |ws| => RegisterWrite(SpaceOf(ws[i].0).value, ws[i].1, ws[i].2))
  }

  /** One such packet. */
  lemma OneRegisterWrite(op: Pm4Opcode, offset: u32, value: u32, rest: seq<u32>, g: Gpu)
    requires SpaceOf(op).Some?
    ensures Walk([HeaderOf(op, 1), offset, value] + rest, g)
            == Walk(rest, g.(writes := g.writes + [RegisterWrite(SpaceOf(op).value, offset, value)]))
  {
    hide Walk, HeaderOf, SpaceOf;
    var body: seq<u32> := [offset, value];
    assert [HeaderOf(op, 1), offset, value] + rest == [HeaderOf(op, |body| - 1)] + body + rest;
    WalkPacket(op, body, rest, g);
    assert body[1..] == [value];
    assert WritesOf(SpaceOf(op).value, offset, [value]) == [RegisterWrite(SpaceOf(op).value, offset, value)];
  }

  lemma RequestedCons(ws: seq<(Pm4Opcode, u32, u32)>, log: seq<RegisterWrite>)
    requires SetsRegisters(ws) && ws != []
    ensures SpaceOf(ws[0].0).Some? && SetsRegisters(ws[1..])
    ensures log + [RegisterWrite(SpaceOf(ws[0].0).value, ws[0].1, ws[0].2)] + Requested(ws[1..]) == log + Requested(ws)
  {
    hide SpaceOf;
    var first := RegisterWrite(SpaceOf(ws[0].0).value, ws[0].1, ws[0].2);
    assert Requested(ws) == [first] + Requested(ws[1..]);
  }

  /** Single-register packets write exactly their registers, in order, and nothing else. */
  lemma {:induction false} SetRegistersWrite(ws: seq<(Pm4Opcode, u32, u32)>, rest: seq<u32>, g: Gpu)
    requires SetsRegisters(ws)
    ensures Walk(SetRegisters(ws) + rest, g) == Walk(rest, g.(writes := g.writes + Requested(ws)))
    decreases |ws|
  {
    hide Walk, CodeOf, SpaceOf, HeaderOf;
    if ws == [] {
      assert SetRegisters(ws) + rest == rest && g.writes + Requested(ws) == g.writes;
    } else {
      hide SetRegisters, Requested, SetsRegisters;
      RequestedCons(ws, g.writes);
      SetRegistersCons(ws, rest);
      OneRegisterWrite(ws[0].0, ws[0].1, ws[0].2, SetRegisters(ws[1..]) + rest, g);
      var first := RegisterWrite(SpaceOf(ws[0].0).value, ws[0].1, ws[0].2);
      SetRegistersWrite(ws[1..], rest, g.(writes := g.writes + [first]));
    }
  }

  lemma SetRegistersCons(ws: seq<(Pm4Opcode, u32, u32)>, rest: seq<u32>)
    requires ws != []
    ensures SetRegisters(ws) + rest == [HeaderOf(ws[0].0, 1), ws[0].1, ws[0].2] + (SetRegisters(ws[1..]) + rest)
  {
    hide CodeOf;
    CodesAreBytes(ws[0].0);
  }

  lemma ShaderStateSetsRegisters()
    ensures SetsRegisters(InitShaderState())
  {
  }

  lemma ContextStateSetsRegisters()
    ensures SetsRegisters(InitContextState())
  {
  }

  lemma InitStatesSetRegisters()
    ensures SetsRegisters(InitShaderState()) && SetsRegisters(InitContextState()) && SetsRegisters(InitLastState())
  {
    ShaderStateSetsRegisters();
    ContextStateSetsRegisters();
    hide InitShaderState, InitContextState;
  }

  /** The three registers the sequence writes with one packet. */
  ghost function InitThreeWrites(): seq<RegisterWrite> {
    [RegisterWrite(Context, 0x295, 0x100), RegisterWrite(Context, 0x296, 0x100), RegisterWrite(Context, 0x297, 4)]
  }

  ghost function InitWrites(): seq<RegisterWrite> {
    InitStatesSetRegisters();
    Requested(InitShaderState()) + Requested(InitContextState()) + InitThreeWrites() + Requested(InitLastState())
  }

  /** The whole effect of the hardware initialisation: its registers in order, one instance. */
  lemma InitSequenceEffect(g: Gpu)
    ensures Walk(InitSequence(), g) == g.(numInstances := 1, writes := g.writes + InitWrites())
  {
    hide Walk, SetRegisters, InitShaderState, InitContextState, InitLastState, Requested, HeaderOf, ParseHeader;
    InitStatesSetRegisters();
    var shader, context, last := Requested(InitShaderState()), Requested(InitContextState()), Requested(InitLastState());
    var tail3 := SetRegisters(InitLastState());
    var tail2 := [0xC003_6900, 0x295, 0x100, 0x100, 4] + tail3;
    var tail1 := SetRegisters(InitContextState()) + tail2;
    var tail0: seq<u32> := [0xC000_2F00, 1] + tail1;
    var body := SetRegisters(InitShaderState()) + tail0;
    assert InitSequence() == [0xC000_1200, 0] + body;
    ClearPacket(body, g);
    var g1 := g.(writes := g.writes + shader);
    SetRegistersWrite(InitShaderState(), tail0, g);
    InstancesPacket(tail1, g1);
    var g2 := g1.(numInstances := 1);
    var g3 := g2.(writes := g2.writes + context);
    SetRegistersWrite(InitContextState(), tail2, g2);
    ThreeRegistersPacket(tail3, g3);
    var g4 := g3.(writes := g3.writes + InitThreeWrites());
    SetRegistersWrite(InitLastState(), [], g4);
    assert tail3 + [] == tail3;
    WalkNothing(g4.(writes := g4.writes + last));
    assert g4.writes + last == g.writes + InitWrites();
  }

  lemma InitHeaderWords()
    ensures HeaderOf(ClearState, 0) == 0xC000_1200
    ensures HeaderOf(NumInstances, 0) == 0xC000_2F00
    ensures HeaderOf(SetContextReg, 3) == 0xC003_6900
  {
  }

  lemma InitInstancesEffect(g: Gpu)
    ensures ExecuteType3(NumInstances, [1], g) == g.(numInstances := 1)
  {
  }

  lemma InitThreeRegistersEffect(g: Gpu)
    ensures ExecuteType3(SetContextReg, [0x295, 0x100, 0x100, 4], g)
            == g.(writes := g.writes + InitThreeWrites())
  {
    var body: seq<u32> := [0x295, 0x100, 0x100, 4];
    assert body[1..] == [0x100, 0x100, 4];
    assert WritesOf(Context, 0x295, [0x100, 0x100, 4]) == InitThreeWrites();
  }

  /** The three packets of the sequence that are not single-register writes. */
  lemma ClearPacket(rest: seq<u32>, g: Gpu)
    ensures Walk([0xC000_1200, 0] + rest, g) == Walk(rest, g)
  {
    InitHeaderWords();
    var body: seq<u32> := [0];
    assert ExecuteType3(ClearState, body, g) == g;
    hide HeaderOf, CodeOf, ExecuteType3, Walk;
    WalkPacket(ClearState, body, rest, g);
    assert [0xC000_1200, 0] + rest == [HeaderOf(ClearState, 0)] + body + rest;
  }

  lemma InstancesPacket(rest: seq<u32>, g: Gpu)
    ensures Walk([0xC000_2F00, 1] + rest, g) == Walk(rest, g.(numInstances := 1))
  {
    hide HeaderOf, CodeOf, ExecuteType3, Walk;
    var body: seq<u32> := [1];
    InitHeaderWords();
    InitInstancesEffect(g);
    WalkPacket(NumInstances, body, rest, g);
    assert [0xC000_2F00, 1] + rest == [HeaderOf(NumInstances, 0)] + body + rest;
  }

  lemma ThreeRegistersPacket(rest: seq<u32>, g: Gpu)
    ensures Walk([0xC003_6900, 0x295, 0x100, 0x100, 4] + rest, g)
            == Walk(rest, g.(writes := g.writes + InitThreeWrites()))
  {
    hide HeaderOf, CodeOf, ExecuteType3, WritesOf, InitThreeWrites, Walk;
    var body: seq<u32> := [0x295, 0x100, 0x100, 4];
    InitHeaderWords();
    InitThreeRegistersEffect(g);
    WalkPacket(SetContextReg, body, rest, g);
    assert [0xC003_6900, 0x295, 0x100, 0x100, 4] + rest == [HeaderOf(SetContextReg, 3)] + body + rest;
  }

  /** What the initialisation writer leaves in its 256 dwords. */
  ghost function InitBuffer(): seq<u32> {
    InitSequence() + NopPairs((HW_INIT_PACKET_SIZE - 126) / 2)
  }

  /** Commands after the initialisation buffer see exactly the registers the sequence set: the
      padding is idle and leaves no packet open. */
  lemma InitBufferActsAsSequence(b: seq<u32>, g: Gpu)
    ensures |InitBuffer()| == HW_INIT_PACKET_SIZE && Complete(InitBuffer())
    ensures Walk(InitBuffer() + b, g) == Walk(b, Walk(InitSequence(), g))
  {
    hide Walk, Complete, InitSequence;
    var pad := NopPairs((HW_INIT_PACKET_SIZE - 126) / 2);
    InitSequenceIsComplete();
    NopPairsAreIdle((HW_INIT_PACKET_SIZE - 126) / 2, Walk(InitSequence(), g));
    CompleteJoin(InitSequence(), pad);
    WalkJoin(InitSequence() + pad, b, g);
    WalkJoin(InitSequence(), pad, g);
  }

  /** A command buffer with the writer's dwords at its start. */
  ghost function Initialised(was: seq<u32>): seq<u32>
    requires |was| >= HW_INIT_PACKET_SIZE
  {
    InitBuffer() + was[HW_INIT_PACKET_SIZE..]
  }

  /** sceGnmDrawInitDefaultHardwareState350: fill the command buffer, or refuse a short one. */
  method DrawInitDefaultHardwareState(cmdbuf: array<u32>, size: nat) returns (advanced: nat)
    requires size <= cmdbuf.Length
    modifies cmdbuf
    ensures size < HW_INIT_PACKET_SIZE ==> advanced == 0 && cmdbuf[..] == old(cmdbuf[..])
    ensures size >= HW_INIT_PACKET_SIZE ==>
              advanced == HW_INIT_PACKET_SIZE && cmdbuf[..] == Initialised(old(cmdbuf[..]))
  {
    hide InitSequence;
    if size < HW_INIT_PACKET_SIZE {
      return 0;
    }
    var init := InitSequence();
    CopyWords(cmdbuf, init);
    PadWithNops(cmdbuf, |init|, HW_INIT_PACKET_SIZE);
    ghost var expected := InitBuffer();
    assert |expected| == HW_INIT_PACKET_SIZE;
    forall x | 0 <= x < HW_INIT_PACKET_SIZE
      ensures cmdbuf[x] == expected[x]
    {
    }
    assert cmdbuf[..] == expected + old(cmdbuf[HW_INIT_PACKET_SIZE..]);
    return HW_INIT_PACKET_SIZE;
  }

  method CopyWords(cmdbuf: array<u32>, words: seq<u32>)
    requires |words| <= cmdbuf.Length
    modifies cmdbuf
    ensures forall x | 0 <= x < cmdbuf.Length :: cmdbuf[x] == if x < |words| then words[x] else old(cmdbuf[x])
  {
    var i := 0;
    while i < |words|
      invariant 0 <= i <= |words|
      invariant forall x | 0 <= x < cmdbuf.Length :: cmdbuf[x] == if x < i then words[x] else old(cmdbuf[x])
    {
      cmdbuf[i] := words[i];
      i := i + 1;
    }
  }

  /** Pad [start, end) with NOP pairs, and a zero dword where no pair fits. */
  method PadWithNops(cmdbuf: array<u32>, start: nat, end: nat)
    requires start <= end <= cmdbuf.Length
    modifies cmdbuf
    ensures forall x | 0 <= x < cmdbuf.Length ::
              cmdbuf[x] == if !(start <= x < end) then old(cmdbuf[x])
                           else if (x - start) % 2 == 0 && x + 1 < end then 0xC000_1000 else 0
  {
    var offset := start;
    while offset < end
      invariant start <= offset <= end && ((offset - start) % 2 == 0 || offset == end)
      invariant forall x | 0 <= x < cmdbuf.Length ::
                  cmdbuf[x] == if !(start <= x < offset) then old(cmdbuf[x])
                               else if (x - start) % 2 == 0 && x + 1 < end then 0xC000_1000 else 0
    {
      if offset + 2 <= end {
        cmdbuf[offset] := 0xC000_1000;
        cmdbuf[offset + 1] := 0;
        offset := offset + 2;
      } else {
        cmdbuf[offset] := 0;
        offset := offset + 1;
      }
    }
  }

  /** sceGnmInsertWaitFlipDone: one NOP packet of seven dwords. */
  method InsertWaitFlipDone(cmdbuf: array<u32>) returns (advanced: nat)
    requires cmdbuf.Length >= 7
    modifies cmdbuf
    ensures advanced == 7 && cmdbuf[..7] == WAIT_FLIP && cmdbuf[7..] == old(cmdbuf[7..])
  {
    var size := 7;
    var headerSize := size - 1;
    cmdbuf[0] := 0xC000_1000 + (headerSize - 1) * 0x1_0000;
    var i := 1;
    while i < size
      invariant 1 <= i <= size
      invariant cmdbuf[0] == WAIT_FLIP[0] && forall x | 1 <= x < i :: cmdbuf[x] == 0
      invariant cmdbuf[7..] == old(cmdbuf[7..])
    {
      cmdbuf[i] := 0;
      i := i + 1;
    }
    return size;
  }
}
