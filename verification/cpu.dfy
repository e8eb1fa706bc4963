/** The interpreter core of `CPU` (src/cpu.cpp): 32 general-purpose registers,
    HI/LO, the `pc`/`nextPC` pair and a sticky `halted` flag, stepped one
    instruction at a time.  The model follows the code as written: J and JAL
    redirect on the same step (no delay slot), every unimplemented encoding halts
    the CPU while `pc` still advances, and register 0 is an ordinary register.

    Words are unsigned integers: `uint32_t` as `u32`, `uint64_t` as `u64`, with
    the 64-bit wrap-around of `pc + 4` and `pc + 8` written out by `Add64`.  The
    bit fields of an instruction are taken with division and remainder by powers
    of two (`instr >> 26` is `instr / 2^26`, `instr & 0x3F` is `instr % 2^6`). */
module Cpu {
  import opened Base

  /** The general-purpose register file: exactly 32 64-bit registers. */
  type RegFile = r: seq<u64> | |r| == 32 witness seq(32, _ => 0)

  datatype Cpu = Cpu(regs: RegFile, hi: u64, lo: u64, pc: u64, nextPC: u64, halted: bool)

  /** The MMU's 32-bit instruction read as a partial function of the address:
      an address outside the map is a fetch fault. */
  type InstrMemory = map<u64, u32>

  /** Entry point loaded by `reset` (the physical PROM address). */
  const RESET_PC: u64 := 0x1FC0_0000

  /** Register written by JAL. */
  const LINK_REG: int := 31

  /** `uint64_t` addition. */
  function Add64(a: u64, b: u64): (r: u64)
    ensures a + b < U64_MODULUS ==> r == a + b
    ensures a + b >= U64_MODULUS ==> r == a + b - U64_MODULUS
  {
    (a + b) % U64_MODULUS
  }

  // ----- instruction fields -----------------------------------------------

  /** `instr >> 26`. */
  function Opcode(instr: u32): int { instr / 0x400_0000 }

  /** `instr & 0x3F`. */
  function Funct(instr: u32): int { instr % 0x40 }

  /** `instr & 0x03FFFFFF`: the 26-bit target field of J/JAL. */
  function TargetField(instr: u32): int { instr % 0x400_0000 }

  /** The decoded forms the interpreter distinguishes. */
  datatype Instruction =
    | Break                           // SPECIAL, funct 0x0D
    | UnimplementedFunct(funct: int)  // any other SPECIAL funct
    | Jump(target: int)               // opcode 2
    | JumpAndLink(target: int)        // opcode 3
    | UnimplementedOpcode(opcode: int)

  /** Whether executing `i` stops the interpreter. */
  predicate Halts(i: Instruction) {
    i.Break? || i.UnimplementedFunct? || i.UnimplementedOpcode?
  }

  /** Whether `i` carries a well-formed 26-bit jump target. */
  predicate WellFormed(i: Instruction) {
    (i.Jump? || i.JumpAndLink?) ==> 0 <= i.target < 0x400_0000
  }

  /** The two-level switch of `stepOnce_mmu` on the opcode and the SPECIAL funct. */
  function Decode(instr: u32): (i: Instruction)
    ensures WellFormed(i)
  {
    var op := Opcode(instr);
    if op == 0 then
      (if Funct(instr) == 0x0D then Break else UnimplementedFunct(Funct(instr)))
    else if op == 2 then Jump(TargetField(instr))
    else if op == 3 then JumpAndLink(TargetField(instr))
    else UnimplementedOpcode(op)
  }

  /** An instruction word from its opcode and its low 26 bits. */
  function Encode(opcode: int, low: int): u32
    requires 0 <= opcode < 0x40 && 0 <= low < 0x400_0000
  {
    opcode * 0x400_0000 + low
  }

  /** Decoding classifies every word exactly by its opcode and funct fields,
      and the J/JAL target survives an encode/decode round trip. */
  lemma DecodeClassifies(opcode: int, low: int)
    requires 0 <= opcode < 0x40 && 0 <= low < 0x400_0000
    ensures Opcode(Encode(opcode, low)) == opcode
    ensures opcode == 2 ==> Decode(Encode(opcode, low)) == Jump(low)
    ensures opcode == 3 ==> Decode(Encode(opcode, low)) == JumpAndLink(low)
    ensures opcode == 0 && low % 0x40 == 0x0D ==> Decode(Encode(opcode, low)) == Break
    ensures opcode == 0 && low % 0x40 != 0x0D ==> Decode(Encode(opcode, low)) == UnimplementedFunct(low % 0x40)
    ensures opcode !in {0, 2, 3} ==> Decode(Encode(opcode, low)) == UnimplementedOpcode(opcode)
  {
  }

  /** `(pc & 0xF0000000) | ((instr & 0x03FFFFFF) << 2)`: bits 31..28 of `pc`
      (the 32-bit mask also clears bits 63..32) joined with the target field
      shifted left by two, which occupies bits 27..2 and so cannot overlap. */
  function JumpTarget(pc: u64, target: int): (r: u64)
    requires 0 <= target < 0x400_0000
    ensures r < U32_MODULUS && r % 4 == 0
    ensures r / 0x1000_0000 == (pc % U32_MODULUS) / 0x1000_0000
    ensures r % 0x1000_0000 == target * 4
  {
    (pc % U32_MODULUS) / 0x1000_0000 * 0x1000_0000 + target * 4
  }

  // ----- operations ---------------------------------------------------------

  /** `CPU::reset` (also what the constructor does). */
  function Reset(): (c: Cpu)
    ensures forall i: u32 :: ReadReg(c, i) == 0
    ensures c.hi == 0 && c.lo == 0
    ensures c.pc == 0x1FC0_0000 && PcPaired(c)
    ensures !c.halted
  {
    Cpu(seq(32, _ => 0), 0, 0, RESET_PC, RESET_PC + 4, false)
  }

  /** `CPU::read_reg`: registers 0..31, and 0 for any larger index. */
  function ReadReg(c: Cpu, idx: u32): (v: u64)
    ensures idx < 32 ==> v == c.regs[idx]
    ensures idx >= 32 ==> v == 0
  {
    if idx < 32 then c.regs[idx] else 0
  }

  /** `CPU::write_reg`: stores into registers 0..31 (register 0 included);
      a larger index is ignored. */
  function WriteReg(c: Cpu, idx: u32, val: u64): (r: Cpu)
    ensures forall j: u32 :: ReadReg(r, j) == if j == idx && idx < 32 then val else ReadReg(c, j)
    ensures idx >= 32 ==> r == c
    ensures r.pc == c.pc && r.nextPC == c.nextPC && r.hi == c.hi && r.lo == c.lo && r.halted == c.halted
  {
    if idx < 32 then c.(regs := c.regs[idx := val]) else c
  }

  /** `CPU::setPC`: moves the program counter and re-establishes `nextPC`;
      it does not clear `halted`. */
  function SetPC(c: Cpu, addr: u64): (r: Cpu)
    ensures r.pc == addr && PcPaired(r)
    ensures r.regs == c.regs && r.hi == c.hi && r.lo == c.lo && r.halted == c.halted
  {
    c.(pc := addr, nextPC := Add64(addr, 4))
  }

  /** The effect of one decoded instruction before the final `pc = nextPC;
      nextPC += 4`. */
  function Execute(c: Cpu, i: Instruction): Cpu
    requires WellFormed(i)
  {
    match i
    case Jump(t) => c.(nextPC := JumpTarget(c.pc, t))
    case JumpAndLink(t) => c.(regs := c.regs[LINK_REG := Add64(c.pc, 8)], nextPC := JumpTarget(c.pc, t))
    case _ => c.(halted := true)
  }

  /** The common tail of every fetched step: `pc = nextPC; nextPC += 4`. */
  function Retire(e: Cpu): Cpu {
    e.(pc := e.nextPC, nextPC := Add64(e.nextPC, 4))
  }

  /** The `pc`/`nextPC` pairing that `reset`, `setPC` and every completed step establish. */
  predicate PcPaired(c: Cpu) {
    c.nextPC == Add64(c.pc, 4)
  }

  /** `CPU::stepOnce_mmu`. */
  function Step(c: Cpu, mem: InstrMemory): (r: Cpu)
    // a halted CPU is left exactly as it is
    ensures c.halted ==> r == c
    // a fetch fault halts and changes nothing else
    ensures !c.halted && c.pc !in mem ==> r == c.(halted := true)
    // a fetched instruction ends with nextPC == pc + 4 and HI/LO untouched
    ensures !c.halted && c.pc in mem ==> PcPaired(r) && r.hi == c.hi && r.lo == c.lo
    // opcodes other than J/JAL (BREAK and every other SPECIAL funct included)
    // halt, yet pc still moves on to the old nextPC
    ensures !c.halted && c.pc in mem && Opcode(mem[c.pc]) != 2 && Opcode(mem[c.pc]) != 3 ==>
      r == c.(halted := true, pc := c.nextPC, nextPC := Add64(c.nextPC, 4))
    // J redirects pc on this very step and touches no register
    ensures !c.halted && c.pc in mem && Opcode(mem[c.pc]) == 2 ==>
      && !r.halted && r.regs == c.regs
      && r.pc == JumpTarget(c.pc, TargetField(mem[c.pc]))
    // JAL does the same and links old pc + 8 into register 31 only
    ensures !c.halted && c.pc in mem && Opcode(mem[c.pc]) == 3 ==>
      && !r.halted && r.regs == c.regs[31 := Add64(c.pc, 8)]
      && r.pc == JumpTarget(c.pc, TargetField(mem[c.pc]))
  {
    if c.halted then c
    else if c.pc !in mem then c.(halted := true)
    else Retire(Execute(c, Decode(mem[c.pc])))
  }

  /** `n` successive calls of `stepOnce_mmu`. */
  function Run(c: Cpu, mem: InstrMemory, n: nat): Cpu
    decreases n
  {
    if n == 0 then c else Run(Step(c, mem), mem, n - 1)
  }

  // ----- properties -----------------------------------------------------------

  /** Under the pairing invariant, each halting encoding still advances `pc`
      by exactly four. */
  lemma HaltingStepAdvances(c: Cpu, mem: InstrMemory)
    requires !c.halted && PcPaired(c) && c.pc in mem
    requires Halts(Decode(mem[c.pc]))
    ensures Step(c, mem).halted
    ensures Step(c, mem).pc == Add64(c.pc, 4) && PcPaired(Step(c, mem))
    ensures Step(c, mem).regs == c.regs
  {
  }

  /** The pairing holds after any number of steps from a paired state. */
  lemma {:induction false} RunKeepsPairing(c: Cpu, mem: InstrMemory, n: nat)
    requires PcPaired(c)
    ensures PcPaired(Run(c, mem, n))
    decreases n
  {
    if n > 0 {
      RunKeepsPairing(Step(c, mem), mem, n - 1);
    }
  }

  /** Once halted, no number of further steps changes anything. */
  lemma {:induction false} HaltedIsFinal(c: Cpu, mem: InstrMemory, n: nat)
    requires c.halted
    ensures Run(c, mem, n) == c
    decreases n
  {
    if n > 0 {
      HaltedIsFinal(Step(c, mem), mem, n - 1);
    }
  }

  /** Stepping never changes HI, LO or any register but 31, the JAL link. */
  lemma {:induction false} RunOnlyLinks(c: Cpu, mem: InstrMemory, n: nat)
    ensures Run(c, mem, n).hi == c.hi && Run(c, mem, n).lo == c.lo
    ensures forall j: u32 :: j != 31 ==> ReadReg(Run(c, mem, n), j) == ReadReg(c, j)
    decreases n
  {
    if n > 0 {
      RunOnlyLinks(Step(c, mem), mem, n - 1);
    }
  }

  /** A J whose target is its own address spins forever: there is no delay slot,
      so the instruction after it is never fetched and the CPU never halts. */
  lemma {:induction false} JumpToSelfSpins(c: Cpu, mem: InstrMemory, n: nat)
    requires !c.halted && PcPaired(c)
    requires c.pc < U32_MODULUS && c.pc % 4 == 0
    requires c.pc in mem && mem[c.pc] == Encode(2, (c.pc % 0x1000_0000) / 4)
    ensures Run(c, mem, n) == c
    decreases n
  {
    if n > 0 {
      DecodeClassifies(2, (c.pc % 0x1000_0000) / 4);
      assert Step(c, mem) == c;
      JumpToSelfSpins(Step(c, mem), mem, n - 1);
    }
  }

  /** A J/JAL target field built from the low 28 bits of a word-aligned 32-bit
      address in the same 256 MiB segment as `pc` jumps to exactly that address. */
  lemma JumpTargetReaches(pc: u64, a: u64)
    requires pc < U32_MODULUS && a < U32_MODULUS && a % 4 == 0
    requires pc / 0x1000_0000 == a / 0x1000_0000
    ensures JumpTarget(pc, (a % 0x1000_0000) / 4) == a
  {
    var low := a % 0x1000_0000;
    DivModUnique(a, 4, a / 4, 0);
    DivModUnique(a, 0x1000_0000, a / 0x1000_0000, low);
    DivModUnique(a / 4, 0x400_0000, a / 0x1000_0000, low / 4) by {
      DivModUnique(low, 4, low / 4, low % 4);
      assert a == (a / 0x1000_0000) * 0x1000_0000 + (low / 4) * 4 + low % 4;
      DivModUnique(a, 4, (a / 0x1000_0000) * 0x400_0000 + low / 4, low % 4);
    }
    var r := JumpTarget(pc, low / 4);
    assert pc % U32_MODULUS == pc;
    DivModUnique(r, 0x1000_0000, pc / 0x1000_0000, (low / 4) * 4);
  }

  /** JAL at address `a` followed by a J back to `a + 8` (the usual call/return
      shape, without a delay slot): after the two steps, register 31 holds
      `a + 8` and execution resumes there. */
  lemma CallAndReturn(c: Cpu, mem: InstrMemory, callee: u64)
    requires !c.halted && PcPaired(c)
    requires c.pc + 8 < U32_MODULUS && c.pc % 4 == 0
    requires callee < U32_MODULUS && callee % 4 == 0
    requires c.pc / 0x1000_0000 == callee / 0x1000_0000 == (c.pc + 8) / 0x1000_0000
    requires c.pc in mem && mem[c.pc] == Encode(3, (callee % 0x1000_0000) / 4)
    requires callee in mem && mem[callee] == Encode(2, ((c.pc + 8) % 0x1000_0000) / 4)
    ensures ReadReg(Run(c, mem, 2), 31) == c.pc + 8
    ensures Run(c, mem, 2).pc == c.pc + 8 && !Run(c, mem, 2).halted
  {
    DecodeClassifies(3, (callee % 0x1000_0000) / 4);
    JumpTargetReaches(c.pc, callee);
    var c1 := Step(c, mem);
    assert c1.pc == callee;
    DecodeClassifies(2, ((c.pc + 8) % 0x1000_0000) / 4);
    JumpTargetReaches(callee, c.pc + 8);
    var c2 := Step(c1, mem);
    assert c2.pc == c.pc + 8;
    assert Run(c, mem, 2) == c2;
  }
}
