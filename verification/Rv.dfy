/** The integer core of the interpreter (cpu.c): register words, the base ALU, control transfer,
    loads and stores, traps.  Registers are 64-bit words, written as naturals below 2^64 with
    wrap-around explicit; an RV32 register holds its value sign-extended.  Instruction fields are
    given already extracted (decode.h); memory and address translation are given by an
    environment, since both engines run the same code for them. */
module Rv {
  import opened Basics
  import opened Words
  import opened RvWords

  type Reg = r: nat | r < 32

  // ---- Instructions -----------------------------------------------------------------------

  datatype Opcode = OpLui | OpAuipc | OpImm | OpReg | OpImm32 | OpReg32 | OpLoad | OpStore
                  | OpBranch | OpJal | OpJalr | OpFence | OpOther

  datatype Inst = Inst(raw: Word, op: Opcode, rd: Reg, rs1: Reg, rs2: Reg, f3: nat, f7: nat,
                       immI: Word, immS: Word, immB: Word, immU: Word, immJ: Word, shamt: nat) {
    function F6(): nat { f7 / 2 }
    /** Instruction bit 30. */
    predicate Bit30() { f7 / 32 % 2 == 1 }
  }

  /** What field extraction guarantees: immediates are sign-extended from at most 32 bits, branch
      and jump offsets are even, and the six-bit shift-amount field is the low part of the
      I-immediate. */
  predicate WellFormed(i: Inst) {
    && i.f3 < 8 && i.f7 < 128
    && Sext32(i.immI) == i.immI && Sext32(i.immU) == i.immU
    && i.immB % 2 == 0 && i.immJ % 2 == 0
    && i.immI % 64 == i.shamt
  }

  // ---- Which encodings the extensions claim -----------------------------------------------

  predicate IsBitmanipImm(i: Inst) {
    || (i.f3 == 1 && ((i.f7 == 0x30 && i.rs2 in {0, 1, 2, 4, 5}) || (i.f7 != 0x30 && i.F6() in {0x12, 0x1a, 0x0a})))
    || (i.f3 == 5 && (i.F6() == 0x18 || i.F6() == 0x12 || (i.f7 == 0x14 && i.rs2 == 7)
                      || ((i.f7 == 0x34 || i.f7 == 0x35) && i.rs2 == 0x18)))
  }

  predicate IsBitmanipOp(rv64: bool, i: Inst) {
    || (i.f7 == 0x10 && i.f3 in {2, 4, 6})
    || (i.f7 == 0x20 && i.f3 in {4, 6, 7})
    || (i.f7 == 0x30 && i.f3 in {1, 5})
    || (i.f7 == 0x05 && i.f3 in {1, 2, 3, 4, 5, 6, 7})
    || (i.f7 == 0x24 && i.f3 in {1, 5})
    || ((i.f7 == 0x14 || i.f7 == 0x34) && i.f3 == 1)
    || (i.f7 == 0x04 && !rv64 && i.f3 == 4 && i.rs2 == 0)
  }

  predicate IsBitmanipOp32(i: Inst) {
    || (i.f7 == 0x04 && (i.f3 == 0 || (i.f3 == 4 && i.rs2 == 0)))
    || (i.f7 == 0x10 && i.f3 in {2, 4, 6})
    || (i.f7 == 0x30 && i.f3 in {1, 5})
  }

  predicate IsBitmanipImm32(i: Inst) {
    || (i.f3 == 1 && (i.F6() == 0x02 || (i.f7 == 0x30 && i.rs2 in {0, 1, 2})))
    || (i.f3 == 5 && i.f7 == 0x30)
  }

  // ---- The base ALU -----------------------------------------------------------------------

  /** Shift amounts are taken modulo the register width. */
  function ShiftAmount(rv64: bool, v: Word): nat { v % (if rv64 then 64 else 32) }

  function ShiftRight(rv64: bool, arith: bool, a: Word, n: nat): Word {
    if arith then (if rv64 then Asr64(a, n) else Asr32(a, n))
    else (if rv64 then ShiftDown(a, n) else ShiftDown(Low32(a), n))
  }

  function BaseOpImm(rv64: bool, i: Inst, a: Word): Word {
    var n := ShiftAmount(rv64, i.immI);
    match i.f3
    case 0 => (a + i.immI) % W64
    case 2 => Flag(AsSigned(a) < AsSigned(i.immI))
    case 3 => Flag(a < i.immI)
    case 4 => Bitwise(Xor, a, i.immI)
    case 6 => Bitwise(Or, a, i.immI)
    case 7 => Bitwise(And, a, i.immI)
    case 1 => Shift(a, n)
    case 5 => ShiftRight(rv64, i.Bit30(), a, n)
    case _ => 0
  }

  function BaseOp(rv64: bool, i: Inst, a: Word, b: Word): Word {
    var n := ShiftAmount(rv64, b);
    var alt := i.f7 == 0x20;
    match i.f3
    case 0 => if alt then (a - b) % W64 else (a + b) % W64
    case 1 => Shift(a, n)
    case 2 => Flag(AsSigned(a) < AsSigned(b))
    case 3 => Flag(a < b)
    case 4 => Bitwise(Xor, a, b)
    case 5 => ShiftRight(rv64, alt, a, n)
    case 6 => Bitwise(Or, a, b)
    case 7 => Bitwise(And, a, b)
    case _ => 0
  }

  /** The *W groups: a 32-bit result, sign-extended; other funct3 values are illegal. */
  function BaseOpImm32(i: Inst, a: Word): Option<Word> {
    var n := i.immI % 32;
    match i.f3
    case 0 => Some(Sext32(Low32(a) + Low32(i.immI)))
    case 1 => Some(Sext32(Shift(Low32(a), n)))
    case 5 => Some(Sext32(if i.Bit30() then Asr32(a, n) else ShiftDown(Low32(a), n)))
    case _ => None
  }

  function BaseOp32(i: Inst, a: Word, b: Word): Option<Word> {
    var n := b % 32;
    var alt := i.f7 == 0x20;
    match i.f3
    case 0 => Some(Sext32(if alt then Low32(a) - Low32(b) else Low32(a) + Low32(b)))
    case 1 => Some(Sext32(Shift(Low32(a), n)))
    case 5 => Some(Sext32(if alt then Asr32(a, n) else ShiftDown(Low32(a), n)))
    case _ => None
  }

  /** Results of the extension instructions, shared by both engines and taken as given. */
  datatype Ext = Ext(
    bitmanipImm: (Inst, Word) -> Word, bitmanipOp: (Inst, Word, Word) -> Word,
    bitmanipImm32: (Inst, Word) -> Word, bitmanipOp32: (Inst, Word, Word) -> Word,
    mulDiv: (Inst, Word, Word) -> Word, mulDivW: (Inst, Word, Word) -> Option<Word>)

  /** The value an OP / OP-IMM / OP-32 / OP-IMM-32 instruction hands to reg_write, or None for an
      illegal-instruction trap (exec_op_imm, exec_op, exec_op_imm32, exec_op32). */
  function AluResult(x: Ext, rv64: bool, i: Inst, a: Word, b: Word): Option<Word> {
    match i.op
    case OpImm => Some(if IsBitmanipImm(i) then x.bitmanipImm(i, a) else BaseOpImm(rv64, i, a))
    case OpReg =>
      Some(if i.f7 == 1 then x.mulDiv(i, a, b)
           else if IsBitmanipOp(rv64, i) then x.bitmanipOp(i, a, b)
           else BaseOp(rv64, i, a, b))
    case OpImm32 =>
      if !rv64 then None
      else if IsBitmanipImm32(i) then Some(x.bitmanipImm32(i, a))
      else BaseOpImm32(i, a)
    case OpReg32 =>
      if !rv64 then None
      else if i.f7 == 1 then x.mulDivW(i, a, b)
      else if IsBitmanipOp32(i) then Some(x.bitmanipOp32(i, a, b))
      else BaseOp32(i, a, b)
    case _ => None
  }

  predicate BranchTaken(i: Inst, a: Word, b: Word) {
    match i.f3
    case 0 => a == b
    case 1 => a != b
    case 4 => AsSigned(a) < AsSigned(b)
    case 5 => AsSigned(a) >= AsSigned(b)
    case 6 => a < b
    case 7 => a >= b
    case _ => false
  }

  // ---- Hart state and traps ---------------------------------------------------------------

  type Regs = s: seq<Word> | |s| == 32 witness seq(32, _ => 0)

  function Read(regs: Regs, r: Reg): Word { if r == 0 then 0 else regs[r] }

  /** reg_write: x0 is discarded, everything else is stored sign-extended from XLEN. */
  function Write(rv64: bool, regs: Regs, r: Reg, v: Word): Regs {
    if r == 0 then regs else regs[r := SextX(rv64, v)]
  }

  /** x0 holds zero, and on RV32 every register is sign-extended. */
  predicate RegsOk(rv64: bool, regs: Regs) {
    regs[0] == 0 && forall r :: 0 <= r < 32 ==> SextX(rv64, regs[r]) == regs[r]
  }

  datatype Halt = Running | HaltExit | HaltBreak | HaltIllegal | HaltMemFault

  /** User 0, supervisor 1, machine 3. */
  type Priv = p: nat | p <= 3

  /** mstatus by field; `others` stands for the bits no modelled step touches. */
  datatype Status = Status(sie: bool, mie: bool, spie: bool, mpie: bool, spp: bool, mpp: Priv,
                           fs: nat, mprv: bool, sum: bool, mxr: bool, others: nat)

  /** The six interrupt bits of mie, mip and mideleg. */
  datatype Irqs = Irqs(ssoft: bool, msoft: bool, stimer: bool, mtimer: bool, sext: bool, mext: bool)

  datatype Cause = Cause(interrupt: bool, code: nat)

  datatype Csr = Csr(mstatus: Status, mie: Irqs, mideleg: Irqs, medeleg: set<nat>, mtvec: Word, stvec: Word,
                     mepc: Word, sepc: Word, mcause: Cause, scause: Cause, mtval: Word, stval: Word,
                     satp: Word, stce: bool, stimecmp: nat)

  /** The part of the platform a step reads: the external and software interrupt lines, the timer
      comparator, and a pending power-off. */
  datatype Plat = Plat(msip: bool, meip: bool, seip: bool, mtimecmp: nat, poweroff: bool)

  /** Everything a step may change, except the interrupt-pending shadow and the platform clock. */
  datatype Core<W> = Core(rv64: bool, regs: Regs, pc: Word, instret: nat, priv: Priv, csr: Csr,
                          halt: Halt, plat: Plat, world: W)

  function TrapBase(tvec: Word): Word { tvec - tvec % 4 }

  /** Where a trap goes: the base, or its own entry for an interrupt under a vectored tvec. */
  function TrapEntry(tvec: Word, cause: Cause): Word {
    if cause.interrupt && tvec % 2 == 1 then (TrapBase(tvec) + 4 * cause.code) % W64 else TrapBase(tvec)
  }

  /** enter_trap: stack the state, raise the privilege, vector. */
  function EnterTrap<W>(c: Core<W>, cause: Cause, tval: Word, toS: bool): Core<W> {
    var s := c.csr.mstatus;
    if toS then
      var s' := s.(spie := s.sie, sie := false, spp := c.priv != 0);
      c.(csr := c.csr.(sepc := c.pc, scause := cause, stval := tval, mstatus := s'), priv := 1,
         pc := TrapEntry(c.csr.stvec, cause))
    else
      var s' := s.(mpie := s.mie, mie := false, mpp := c.priv);
      c.(csr := c.csr.(mepc := c.pc, mcause := cause, mtval := tval, mstatus := s'), priv := 3,
         pc := TrapEntry(c.csr.mtvec, cause))
  }

  /** The built-in environment's answer to a trap no handler is installed for. */
  function LegacyHalt(code: nat): Halt {
    if code == 3 then HaltBreak
    else if code == 0 || code == 1 || (4 <= code && code <= 7) then HaltMemFault
    else HaltIllegal
  }

  /** raise_trap, for the exceptions that reach a handler or stop the hart. */
  function RaiseTrap<W>(c: Core<W>, code: nat, tval: Word): Core<W> {
    var toS := c.priv <= 1 && code in c.csr.medeleg;
    var tvec := if toS then c.csr.stvec else c.csr.mtvec;
    if TrapBase(tvec) == 0 then c.(halt := LegacyHalt(code)) else EnterTrap(c, Cause(false, code), tval, toS)
  }

  // ---- Memory environment -----------------------------------------------------------------

  datatype Access = Load | Store

  /** What a translation depends on besides memory. */
  datatype Ctx = Ctx(priv: Priv, mstatus: Status, satp: Word)

  datatype Trans<W> = Fault(code: nat) | Ok(pa: Word, world: W)
  datatype Loaded<W> = Value(v: Word, world: W) | LoadOut(addr: Word, world: W)
  datatype Stored<W> = Done(world: W) | StoreOut(addr: Word, world: W)

  datatype Env<!W> = Env(
    ext: Ext,
    translate: (W, Ctx, Word, Access) -> Trans<W>,
    isDevice: nat -> bool,
    load: (W, Word, Inst) -> Loaded<W>,
    store: (W, Word, Inst, Word) -> Stored<W>)

  function CtxOf<W>(c: Core<W>): Ctx { Ctx(c.priv, c.csr.mstatus, c.csr.satp) }

  // ---- One instruction --------------------------------------------------------------------

  datatype Outcome<W> = Retired(core: Core<W>) | Trapped(core: Core<W>) | Device | Other

  /** The tail of cpu_step: an odd target traps, otherwise the instruction retires. */
  function Retire<W>(c: Core<W>, next: Word): Outcome<W> {
    if next % 2 == 1 then Trapped(RaiseTrap(c, 0, next))
    else Retired(c.(pc := SextX(c.rv64, next), instret := c.instret + 1))
  }

  function EffectiveAddress<W>(c: Core<W>, i: Inst): Word {
    (Read(c.regs, i.rs1) + (if i.op == OpStore then i.immS else i.immI)) % W64
  }

  function AccessOf(i: Inst): Access { if i.op == OpStore then Store else Load }

  datatype MemOutcome<W> = MemOk(core: Core<W>) | MemTrap(core: Core<W>) | MemDevice

  /** exec_load / exec_store with the out-of-range tail (cpu_exec_mem). */
  function ExecMem<W>(env: Env<W>, c: Core<W>, i: Inst): MemOutcome<W> {
    var va := EffectiveAddress(c, i);
    match env.translate(c.world, CtxOf(c), va, AccessOf(i))
    case Fault(code) => MemTrap(RaiseTrap(c, code, va))
    case Ok(pa, w) =>
      if env.isDevice(pa) then MemDevice
      else if i.op == OpStore then
        match env.store(w, pa, i, Read(c.regs, i.rs2))
        case Done(w') => MemOk(c.(world := w'))
        case StoreOut(addr, w') => MemTrap(RaiseTrap(c.(world := w'), 7, addr))
      else
        match env.load(w, pa, i)
        case Value(v, w') => MemOk(c.(world := w', regs := Write(c.rv64, c.regs, i.rd, v)))
        case LoadOut(addr, w') => MemTrap(RaiseTrap(c.(world := w', regs := Write(c.rv64, c.regs, i.rd, 0)), 5, addr))
  }

  function ExecAlu<W>(env: Env<W>, c: Core<W>, i: Inst): Outcome<W> {
    match AluResult(env.ext, c.rv64, i, Read(c.regs, i.rs1), Read(c.regs, i.rs2))
    case None => Trapped(RaiseTrap(c, 2, i.raw))
    case Some(v) => Retired(c.(regs := Write(c.rv64, c.regs, i.rd, v)))
  }

  predicate IsAlu(i: Inst) { i.op == OpImm || i.op == OpReg || i.op == OpImm32 || i.op == OpReg32 }
  predicate IsMem(i: Inst) { i.op == OpLoad || i.op == OpStore }

  function Plus(a: Word, b: Word): Word { (a + b) % W64 }

  /** The decode-and-execute part of cpu_step on the instruction `i` of length `ilen` at c.pc. */
  function ExecOne<W>(env: Env<W>, c: Core<W>, i: Inst, ilen: Word): Outcome<W> {
    var fall := Plus(c.pc, ilen);
    if IsAlu(i) then
      match ExecAlu(env, c, i)
      case Retired(c') => Retire(c', fall)
      case o => o
    else if IsMem(i) then
      match ExecMem(env, c, i)
      case MemOk(c') => Retire(c', fall)
      case MemTrap(c') => Trapped(c')
      case MemDevice => Device
    else
      match i.op
      case OpLui => Retire(c.(regs := Write(c.rv64, c.regs, i.rd, i.immU)), fall)
      case OpAuipc => Retire(c.(regs := Write(c.rv64, c.regs, i.rd, Plus(c.pc, i.immU))), fall)
      case OpJal => Retire(c.(regs := Write(c.rv64, c.regs, i.rd, fall)), Plus(c.pc, i.immJ))
      case OpJalr =>
        var sum := Plus(Read(c.regs, i.rs1), i.immI);
        Retire(c.(regs := Write(c.rv64, c.regs, i.rd, fall)), sum - sum % 2)
      case OpBranch =>
        Retire(c, if BranchTaken(i, Read(c.regs, i.rs1), Read(c.regs, i.rs2)) then Plus(c.pc, i.immB) else fall)
      case OpFence => Retire(c, fall)
      case _ => Other
  }
}
