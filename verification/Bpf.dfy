/** Classic BPF as seccomp runs it: the four instruction kinds the filter uses, their
    8-byte encoding, and an interpreter over `struct seccomp_data`. */
module Bpf {
  type u8 = x: int | 0 <= x < 0x100
  type u16 = x: int | 0 <= x < 0x1_0000
  type u32 = x: int | 0 <= x < 0x1_0000_0000

  const LOAD_WORD_ABSOLUTE: u16 := 0x20
  const JUMP_IF_EQUAL: u16 := 0x15
  const JUMP_IF_AT_LEAST: u16 := 0x35
  const RETURN: u16 := 0x06

  /** `struct sock_filter`. */
  datatype Instruction = Op(code: u16, k: u32, jt: u8, jf: u8)

  /** The words of `struct seccomp_data` that a filter may load: the syscall number, the
      architecture, the instruction pointer and the six arguments, low word first. */
  datatype SeccompData = SeccompData(nr: u32, arch: u32, ip: seq<u32>, args: seq<u32>) {
    ghost predicate Valid() { |ip| == 2 && |args| == 12 }

    function Word(offset: u32): (w: u32)
      requires |ip| == 2 && |args| == 12 && offset % 4 == 0 && offset < 64
    {
      if offset == 0 then nr
      else if offset == 4 then arch
      else if offset < 16 then ip[offset / 4 - 2]
      else args[offset / 4 - 4]
    }

    /** The low word of the second system-call argument, at offset 24. */
    function SecondArgument(): u32
      requires |args| == 12
    {
      args[2]
    }
  }

  datatype Run = Returned(value: u32) | Faulted

  /** The next program counter and accumulator, or `None` when the machine stops at `pc`. */
  datatype Step = Next(pc: nat, a: u32) | Stop(run: Run)

  function ExecuteOp(op: Instruction, data: SeccompData, pc: nat, a: u32): (s: Step)
    requires data.Valid()
    ensures s.Next? ==> s.pc > pc
  {
    if op.code == LOAD_WORD_ABSOLUTE then
      if op.k % 4 == 0 && op.k < 64 then Next(pc + 1, data.Word(op.k)) else Stop(Faulted)
    else if op.code == JUMP_IF_EQUAL then Next(pc + 1 + if a == op.k then op.jt else op.jf, a)
    else if op.code == JUMP_IF_AT_LEAST then Next(pc + 1 + if a >= op.k then op.jt else op.jf, a)
    else if op.code == RETURN then Stop(Returned(op.k))
    else Stop(Faulted)
  }

  /** The four instructions by their numbers in the kernel's header. */
  lemma OpcodesMean(k: u32, jt: u8, jf: u8, data: SeccompData, pc: nat, a: u32)
    requires data.Valid()
    ensures k in {0, 4, 24} ==>
              ExecuteOp(Op(0x20, k, jt, jf), data, pc, a)
              == Next(pc + 1, if k == 0 then data.nr else if k == 4 then data.arch else data.args[2])
    ensures ExecuteOp(Op(0x15, k, jt, jf), data, pc, a) == Next(if a == k then pc + 1 + jt else pc + 1 + jf, a)
    ensures ExecuteOp(Op(0x35, k, jt, jf), data, pc, a) == Next(if k <= a then pc + 1 + jt else pc + 1 + jf, a)
    ensures ExecuteOp(Op(0x06, k, jt, jf), data, pc, a) == Stop(Returned(k))
  {
  }

  /** Execution from `pc` with accumulator `a`: running off the end, an unknown instruction
      or a load outside the data is a fault. */
  function Execute(program: seq<Instruction>, data: SeccompData, pc: nat, a: u32): Run
    requires data.Valid()
    decreases |program| - pc
  {
    if pc >= |program| then Faulted
    else
      match ExecuteOp(program[pc], data, pc, a)
      case Next(pc', a') => Execute(program, data, pc', a')
      case Stop(run) => run
  }

  /** How many instructions that execution takes: jumps go forward, so no more than remain. */
  function StepCount(program: seq<Instruction>, data: SeccompData, pc: nat, a: u32): (steps: nat)
    requires data.Valid()
    ensures pc <= |program| ==> steps <= |program| - pc
    decreases |program| - pc
  {
    if pc >= |program| then 0
    else
      match ExecuteOp(program[pc], data, pc, a)
      case Next(pc', a') => 1 + StepCount(program, data, pc', a')
      case Stop(_) => 1
  }

  // ----- encoding -----

  function LittleEndian16(x: u16): seq<u8> { [x % 0x100, x / 0x100] }

  function FromLittleEndian16(b: seq<u8>): u16
    requires |b| == 2
  {
    var b0: int, b1: int := b[0], b[1];
    b0 + 0x100 * b1
  }

  function LittleEndian32(x: u32): seq<u8> {
    LittleEndian16(x % 0x1_0000) + LittleEndian16(x / 0x1_0000)
  }

  function FromLittleEndian32(b: seq<u8>): u32
    requires |b| == 4
  {
    var low: int, high: int := FromLittleEndian16(b[..2]), FromLittleEndian16(b[2..]);
    low + 0x1_0000 * high
  }

  lemma LittleEndian16RoundTrips(x: u16, b: seq<u8>)
    requires |b| == 2
    ensures FromLittleEndian16(LittleEndian16(x)) == x
    ensures LittleEndian16(FromLittleEndian16(b)) == b
  {
  }

  lemma FromLittleEndian32Inverts(x: u32)
    ensures FromLittleEndian32(LittleEndian32(x)) == x
  {
    var low, high := LittleEndian16(x % 0x1_0000), LittleEndian16(x / 0x1_0000);
    LittleEndian16RoundTrips(x % 0x1_0000, low);
    LittleEndian16RoundTrips(x / 0x1_0000, high);
    assert (low + high)[..2] == low && (low + high)[2..] == high;
  }

  lemma LittleEndian32Inverts(b: seq<u8>)
    requires |b| == 4
    ensures LittleEndian32(FromLittleEndian32(b)) == b
  {
    var low, high := FromLittleEndian16(b[..2]), FromLittleEndian16(b[2..]);
    LittleEndian16RoundTrips(low, b[..2]);
    LittleEndian16RoundTrips(high, b[2..]);
    assert FromLittleEndian32(b) % 0x1_0000 == low && FromLittleEndian32(b) / 0x1_0000 == high;
    assert b == b[..2] + b[2..];
  }

  /** `struct.pack("=HBBI", code, jt, jf, k)` on a little-endian machine. */
  function EncodeOp(op: Instruction): (bytes: seq<u8>)
    ensures |bytes| == 8
  {
    LittleEndian16(op.code) + [op.jt, op.jf] + LittleEndian32(op.k)
  }

  function DecodeOp(bytes: seq<u8>): Instruction
    requires |bytes| == 8
  {
    Op(FromLittleEndian16(bytes[..2]), FromLittleEndian32(bytes[4..]), bytes[2], bytes[3])
  }

  function Encode(program: seq<Instruction>): (bytes: seq<u8>)
    ensures |bytes| == 8 * |program|
  {
    if program == [] then [] else EncodeOp(program[0]) + Encode(program[1..])
  }

  function Decode(bytes: seq<u8>): (program: seq<Instruction>)
    requires |bytes| % 8 == 0
    ensures |program| == |bytes| / 8
  {
    if bytes == [] then [] else [DecodeOp(bytes[..8])] + Decode(bytes[8..])
  }

  /** The layout in bytes: code, jump offsets, operand, low byte first. */
  lemma OpLayout(op: Instruction)
    ensures var b: seq<int> := EncodeOp(op);
            && b[0] + 0x100 * b[1] == op.code && b[2] == op.jt && b[3] == op.jf
            && b[4] + 0x100 * b[5] + 0x1_0000 * b[6] + 0x100_0000 * b[7] == op.k
  {
    LayoutOf32(op.k);
    assert EncodeOp(op)[4..] == LittleEndian32(op.k);
  }

  lemma LayoutOf32(x: u32)
    ensures var b: seq<int> := LittleEndian32(x); b[0] + 0x100 * b[1] + 0x1_0000 * b[2] + 0x100_0000 * b[3] == x
  {
    var low: seq<int>, high: seq<int> := LittleEndian16(x % 0x1_0000), LittleEndian16(x / 0x1_0000);
    assert low[0] + 0x100 * low[1] == x % 0x1_0000 && high[0] + 0x100 * high[1] == x / 0x1_0000;
  }

  /** The structure is its words one after another. */
  lemma WordLayout(data: SeccompData, i: nat)
    requires data.Valid() && i < 16
    ensures data.Word(4 * i) == ([data.nr, data.arch] + data.ip + data.args)[i]
  {
  }

  lemma OpRoundTrips(op: Instruction, bytes: seq<u8>)
    requires |bytes| == 8
    ensures DecodeOp(EncodeOp(op)) == op
    ensures EncodeOp(DecodeOp(bytes)) == bytes
  {
    LittleEndian16RoundTrips(op.code, bytes[..2]);
    FromLittleEndian32Inverts(op.k);
    LittleEndian32Inverts(bytes[4..]);
    assert EncodeOp(op)[..2] == LittleEndian16(op.code) && EncodeOp(op)[4..] == LittleEndian32(op.k);
    assert bytes == bytes[..2] + [bytes[2], bytes[3]] + bytes[4..];
  }

  /** Programs and their encodings correspond one to one. */
  lemma {:induction false} DecodeInvertsEncode(program: seq<Instruction>)
    ensures Decode(Encode(program)) == program
  {
    if program != [] {
      DecodeInvertsEncode(program[1..]);
      OpRoundTrips(program[0], EncodeOp(program[0]));
      assert Encode(program)[..8] == EncodeOp(program[0]);
      assert Encode(program)[8..] == Encode(program[1..]);
    }
  }

  lemma {:induction false} EncodeInvertsDecode(bytes: seq<u8>)
    requires |bytes| % 8 == 0
    ensures Encode(Decode(bytes)) == bytes
  {
    if bytes != [] {
      var first, rest := DecodeOp(bytes[..8]), Decode(bytes[8..]);
      EncodeInvertsDecode(bytes[8..]);
      OpRoundTrips(first, bytes[..8]);
      assert Decode(bytes)[1..] == rest;
    }
  }
}
