/** The part of the eBPF machine that the device filter uses: the encoding of one
    instruction and its execution, after sections 3, 4.3 and 5.1 of RFC 9669. */
module BpfMachine {
  import opened Common

  /** Two's complement narrowing to 16 bits, Rust's `as i16`. */
  function WrapI16(x: int): i16 {
    var r := x % TWO_16;
    if r < 0x8000 then r else r - TWO_16
  }

  /** Two's complement reinterpretation, Rust's `u32 as i32`. */
  function WrapI32(x: u32): i32 {
    if x < TWO_31 then x else x - TWO_32
  }

  /** An immediate as a 64-bit operand: sign-extended, then read as unsigned. */
  function SignExtend(imm: i32): u64 {
    if imm >= 0 then imm else imm + TWO_64
  }

  /** One instruction slot; `regs` holds the destination in its low four bits
      and the source in its high four bits. */
  datatype Insn = Insn(code: u8, regs: u8, off: i16, imm: i32)

  const LDX_MEM_W: u8 := 0x61
  const JEQ_K: u8 := 0x15
  const JNE_K: u8 := 0x55
  const MOV64_K: u8 := 0xb7
  const EXIT: u8 := 0x95

  /** The opcodes by their fields. The class is in the low three bits: 1 is LDX,
      5 JMP, 7 ALU64. For loads the size is in the next two bits, 0 for a word, and
      the mode in the upper three, 3 for regular memory. For arithmetic and jumps
      the source is in the next bit, 0 for the immediate, and the operation in the
      upper four: 1 JEQ, 5 JNE and 9 EXIT among jumps, 11 MOV in arithmetic. */
  lemma OpcodesByFields(code: u8)
    ensures code == LDX_MEM_W <==> code % 8 == 1 && code / 8 % 4 == 0 && code / 32 == 3
    ensures code == JEQ_K <==> code % 8 == 5 && code / 8 % 2 == 0 && code / 16 == 1
    ensures code == JNE_K <==> code % 8 == 5 && code / 8 % 2 == 0 && code / 16 == 5
    ensures code == EXIT <==> code % 8 == 5 && code / 8 % 2 == 0 && code / 16 == 9
    ensures code == MOV64_K <==> code % 8 == 7 && code / 8 % 2 == 0 && code / 16 == 11
  {
  }

  /** What a register may hold: nothing yet, the context pointer, or a number. */
  datatype Value = Uninit | CtxPtr | Num(n: u64)

  /** The fields of `struct bpf_cgroup_dev_ctx` at offsets 0, 4 and 8. */
  datatype DeviceCtx = DeviceCtx(accessType: u32, major: u32, minor: u32)

  datatype Machine = Machine(pc: int, regs: map<nat, Value>)

  datatype Outcome = Exit(r0: u64) | Fault | Running(m: Machine)

  function Reg(m: Machine, r: nat): Value {
    if r in m.regs then m.regs[r] else Uninit
  }

  /** A 32-bit load from the context, zero-extended. */
  function LoadWord(d: DeviceCtx, off: i16): Value {
    if off == 0 then Num(d.accessType)
    else if off == 4 then Num(d.major)
    else if off == 8 then Num(d.minor)
    else Uninit
  }

  /** One step. Leaving the program, reading an uninitialised register, loading
      outside the context and any other opcode are faults. */
  function Step(prog: seq<Insn>, d: DeviceCtx, m: Machine): Outcome {
    if !(0 <= m.pc < |prog|) then Fault else
    var i := prog[m.pc];
    var dst, src := i.regs % 16, i.regs / 16;
    if i.code == LDX_MEM_W then
      if Reg(m, src).CtxPtr? && LoadWord(d, i.off).Num?
      then Running(Machine(m.pc + 1, m.regs[dst := LoadWord(d, i.off)])) else Fault
    else if i.code == JEQ_K || i.code == JNE_K then
      if !Reg(m, dst).Num? then Fault else
      var equal := Reg(m, dst).n == SignExtend(i.imm);
      var taken := if i.code == JEQ_K then equal else !equal;
      Running(Machine(if taken then m.pc + 1 + i.off else m.pc + 1, m.regs))
    else if i.code == MOV64_K then
      Running(Machine(m.pc + 1, m.regs[dst := Num(SignExtend(i.imm))]))
    else if i.code == EXIT then
      if Reg(m, 0).Num? then Exit(Reg(m, 0).n) else Fault
    else Fault
  }

  /** At most `steps` steps from `m`. */
  function Run(prog: seq<Insn>, d: DeviceCtx, m: Machine, steps: nat): Outcome
    decreases steps
  {
    if steps == 0 then Running(m)
    else
      match Step(prog, d, m)
      case Running(m') => Run(prog, d, m', steps - 1)
      case done => done
  }

  /** Registers at entry: R1 points to the context. */
  function Entry(): Machine {
    Machine(0, map[1 := CtxPtr])
  }

  /** Some number of steps from the entry ends the program with `r`. */
  ghost predicate Returns(prog: seq<Insn>, d: DeviceCtx, r: u64) {
    exists steps: nat :: Run(prog, d, Entry(), steps) == Exit(r)
  }

  /** Once a run has ended, allowing it more steps changes nothing. */
  lemma {:induction false} RunMonotone(prog: seq<Insn>, d: DeviceCtx, m: Machine, k: nat, steps: nat)
    requires !Run(prog, d, m, k).Running? && k <= steps
    ensures Run(prog, d, m, steps) == Run(prog, d, m, k)
    decreases k
  {
    match Step(prog, d, m)
    case Running(m') => RunMonotone(prog, d, m', k - 1, steps - 1);
    case _ =>
  }

  /** A program returns at most one value for a given device. */
  lemma ReturnsUnique(prog: seq<Insn>, d: DeviceCtx, r: u64, s: u64)
    requires Returns(prog, d, r) && Returns(prog, d, s)
    ensures r == s
  {
    var k: nat :| Run(prog, d, Entry(), k) == Exit(r);
    var l: nat :| Run(prog, d, Entry(), l) == Exit(s);
    if k <= l { RunMonotone(prog, d, Entry(), k, l); } else { RunMonotone(prog, d, Entry(), l, k); }
  }
}
