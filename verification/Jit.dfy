/** The basic-block translator (jit.c): the host operations it emits for each guest instruction,
    what they do, and the proof that they leave the same hart as the interpreter.

    Host code is kept as its control-flow tree: a forward `je` is the pair of its two successors,
    and every `jmp .epi` is an Exit leaf carrying nothing, the step count being in the return
    register by then. */
module Jit {
  import opened Words
  import opened RvWords
  import opened Rv

  datatype HostReg = Rax | Rcx
  datatype AluKind = Add | Sub | Bit(k: Logic)
  datatype ShiftKind = ShlK | ShrK | SarK
  datatype CC = CcE | CcNe | CcL | CcGe | CcB | CcAe

  datatype HostOp =
    | Ld(r: HostReg, src: Reg)                 // mov r64, [regs + 8*src]
    | Ld32(r: HostReg, src: Reg)               // mov r32, [...] (zero-extends)
    | St(dst: Reg, r: HostReg)
    | StPc(r: HostReg)
    | Imm(r: HostReg, v: Word)
    | Alu(k: AluKind, w64: bool)               // rax op= rcx
    | AluImm(k: AluKind, w64: bool, v: Word)   // rax op= sign-extended imm32
    | Cmp                                      // cmp rax, rcx
    | CmpImm(v: Word)                          // cmp rax, imm
    | ShiftImm(s: ShiftKind, w64: bool, count: nat)
    | ShiftCl(s: ShiftKind, w64: bool)
    | Sext                                     // movsxd rax, eax
    | SetCc(cc: CC)                            // setcc al; movzx eax, al
    | CMov(cc: CC)                             // cmovcc rax, rcx
    | Retires(n: nat)                          // add [instret], n
    | RetSteps(n: nat)                         // mov eax, n
    | CallAlu(inst: Inst)                      // call jit_h_alu; test eax, eax
    | CallMem(inst: Inst)                      // call jit_h_mem; test eax, eax

  datatype Code = Exit | Do(op: HostOp, next: Code) | IfEq(eq: Code, ne: Code)

  datatype Host<W> = Host(core: Core<W>, rax: Word, rcx: Word, left: Word, right: Word, ret: nat)

  // ---- What host operations do ------------------------------------------------------------

  function Reg64<W>(h: Host<W>, r: HostReg): Word { if r == Rax then h.rax else h.rcx }
  function SetReg<W>(h: Host<W>, r: HostReg, v: Word): Host<W> { if r == Rax then h.(rax := v) else h.(rcx := v) }

  function AluValue(k: AluKind, a: Word, b: Word): Word {
    match k
    case Add => (a + b) % W64
    case Sub => (a - b) % W64
    case Bit(op) => Bitwise(op, a, b)
  }

  /** A 32-bit host operation zero-extends its result. */
  function Narrow(w64: bool, v: Word): Word { if w64 then v else Low32(v) }

  /** Host shifts mask the count to the operand width. */
  function HostShift(s: ShiftKind, w64: bool, a: Word, count: nat): Word {
    var n := count % (if w64 then 64 else 32);
    match s
    case ShlK => if w64 then Shift(a, n) else Low32(Shift(Low32(a), n))
    case ShrK => if w64 then ShiftDown(a, n) else ShiftDown(Low32(a), n)
    case SarK => if w64 then Asr64(a, n) else Low32(Asr32(a, n))
  }

  predicate CondHolds(cc: CC, l: Word, r: Word) {
    match cc
    case CcE => l == r
    case CcNe => l != r
    case CcL => AsSigned(l) < AsSigned(r)
    case CcGe => AsSigned(l) >= AsSigned(r)
    case CcB => l < r
    case CcAe => l >= r
  }

  /** jit_h_mem: probe the translation, refuse a device, else run the interpreter's access. */
  function HelperMem<W>(env: Env<W>, c: Core<W>, i: Inst): (Core<W>, Word) {
    match env.translate(c.world, CtxOf(c), EffectiveAddress(c, i), AccessOf(i))
    case Fault(_) => MemStatus(c, ExecMem(env, c, i))
    case Ok(pa, w) =>
      if env.isDevice(pa) then (c.(world := w), 3) else MemStatus(c, ExecMem(env, c.(world := w), i))
  }

  function MemStatus<W>(c: Core<W>, o: MemOutcome<W>): (Core<W>, Word) {
    match o
    case MemOk(c') => (c', 0)
    case MemTrap(c') => (c', 1)
    case MemDevice => (c, 3)
  }

  function HelperAlu<W>(env: Env<W>, c: Core<W>, i: Inst): (Core<W>, Word) {
    match ExecAlu(env, c, i)
    case Retired(c') => (c', 0)
    case Trapped(c') => (c', 1)
    case _ => (c, 1)
  }

  function Perform<W>(env: Env<W>, op: HostOp, h: Host<W>): Host<W> {
    match op
    case Ld(r, s) => SetReg(h, r, h.core.regs[s])
    case Ld32(r, s) => SetReg(h, r, Low32(h.core.regs[s]))
    case St(d, r) => h.(core := h.core.(regs := h.core.regs[d := Reg64(h, r)]))
    case StPc(r) => h.(core := h.core.(pc := Reg64(h, r)))
    case Imm(r, v) => SetReg(h, r, v)
    case Alu(k, w) => h.(rax := Narrow(w, AluValue(k, h.rax, h.rcx)))
    case AluImm(k, w, v) => h.(rax := Narrow(w, AluValue(k, h.rax, v)))
    case Cmp => h.(left := h.rax, right := h.rcx)
    case CmpImm(v) => h.(left := h.rax, right := v)
    case ShiftImm(s, w, n) => h.(rax := HostShift(s, w, h.rax, n))
    case ShiftCl(s, w) => h.(rax := HostShift(s, w, h.rax, h.rcx))
    case Sext => h.(rax := Sext32(h.rax))
    case SetCc(cc) => h.(rax := Flag(CondHolds(cc, h.left, h.right)))
    case CMov(cc) => if CondHolds(cc, h.left, h.right) then h.(rax := h.rcx) else h
    case Retires(n) => h.(core := h.core.(instret := h.core.instret + n))
    case RetSteps(n) => h.(ret := n)
    case CallAlu(i) => var (c, s) := HelperAlu(env, h.core, i); h.(core := c, rax := s, left := s, right := 0)
    case CallMem(i) => var (c, s) := HelperMem(env, h.core, i); h.(core := c, rax := s, left := s, right := 0)
  }

  function Run<W>(env: Env<W>, code: Code, h: Host<W>): Host<W> {
    match code
    case Exit => h
    case Do(op, next) => Run(env, next, Perform(env, op, h))
    case IfEq(eq, ne) => if h.left == h.right then Run(env, eq, h) else Run(env, ne, h)
  }

  // ---- Emission ---------------------------------------------------------------------------

  /** Store rax to guest rd, re-sign-extending on RV32 where the producer was arithmetic. */
  function PutRd(rv64: bool, rd: Reg, needsSext: bool, next: Code): Code {
    var store := if rd != 0 then Do(St(rd, Rax), next) else next;
    if !rv64 && needsSext then Do(Sext, store) else store
  }

  function GlueAlu(k: nat, next: Code): Code {
    IfEq(next, Do(Retires(k), Do(RetSteps(k + 1), Exit)))
  }

  function GlueMem(k: nat, next: Code): Code {
    IfEq(next, Do(CmpImm(3), IfEq(Do(Retires(k), Do(RetSteps(k), Exit)),
                                  Do(Retires(k), Do(RetSteps(k + 1), Exit)))))
  }

  function HelperAluCall(i: Inst, vs: Word, k: nat, next: Code): Code {
    Do(Imm(Rax, vs), Do(StPc(Rax), Do(CallAlu(i), GlueAlu(k, next))))
  }

  function HelperMemCall(i: Inst, vs: Word, k: nat, next: Code): Code {
    Do(Imm(Rax, vs), Do(StPc(Rax), Do(CallMem(i), GlueMem(k, next))))
  }

  function EmitOpImm(rv64: bool, i: Inst, vs: Word, k: nat, next: Code): Code {
    if i.f3 == 0 then Do(Ld(Rax, i.rs1), Do(AluImm(Add, true, i.immI), PutRd(rv64, i.rd, true, next)))
    else if i.f3 == 2 || i.f3 == 3 then
      Do(Ld(Rax, i.rs1), Do(CmpImm(i.immI), Do(SetCc(if i.f3 == 2 then CcL else CcB), PutRd(rv64, i.rd, false, next))))
    else if i.f3 == 4 || i.f3 == 6 || i.f3 == 7 then
      Do(Ld(Rax, i.rs1), Do(AluImm(Bit(if i.f3 == 4 then Xor else if i.f3 == 6 then Or else And), true, i.immI),
                            PutRd(rv64, i.rd, false, next)))
    else if i.f3 == 1 && i.F6() == 0 then
      Do(Ld(Rax, i.rs1), Do(ShiftImm(ShlK, rv64, i.shamt % (if rv64 then 64 else 32)), PutRd(rv64, i.rd, true, next)))
    else if i.f3 == 5 && (i.F6() == 0 || i.F6() == 0x10) then
      Do(Ld(Rax, i.rs1), Do(ShiftImm(if i.F6() == 0x10 then SarK else ShrK, rv64, i.shamt % (if rv64 then 64 else 32)),
                            PutRd(rv64, i.rd, true, next)))
    else HelperAluCall(i, vs, k, next)
  }

  function EmitOp(rv64: bool, i: Inst, vs: Word, k: nat, next: Code): Code {
    if !(i.f7 == 0 || (i.f7 == 0x20 && (i.f3 == 0 || i.f3 == 5))) then HelperAluCall(i, vs, k, next)
    else Do(Ld(Rax, i.rs1), Do(Ld(Rcx, i.rs2),
      match i.f3
      case 0 => Do(Alu(if i.f7 == 0x20 then Sub else Add, true), PutRd(rv64, i.rd, true, next))
      case 1 => Do(ShiftCl(ShlK, rv64), PutRd(rv64, i.rd, true, next))
      case 2 => Do(Cmp, Do(SetCc(CcL), PutRd(rv64, i.rd, false, next)))
      case 3 => Do(Cmp, Do(SetCc(CcB), PutRd(rv64, i.rd, false, next)))
      case 4 => Do(Alu(Bit(Xor), true), PutRd(rv64, i.rd, false, next))
      case 5 => Do(ShiftCl(if i.f7 == 0x20 then SarK else ShrK, rv64), PutRd(rv64, i.rd, true, next))
      case 6 => Do(Alu(Bit(Or), true), PutRd(rv64, i.rd, false, next))
      case _ => Do(Alu(Bit(And), true), PutRd(rv64, i.rd, false, next))))
  }

  function EmitOpImm32(i: Inst, vs: Word, k: nat, next: Code): Code {
    if !(i.f3 == 0 || (i.f3 == 1 && i.F6() == 0) || (i.f3 == 5 && (i.F6() == 0 || i.F6() == 0x10))) then
      HelperAluCall(i, vs, k, next)
    else
      var op := if i.f3 == 0 then AluImm(Add, false, i.immI)
                else ShiftImm(if i.f3 == 1 then ShlK else if i.F6() == 0x10 then SarK else ShrK, false, i.shamt % 32);
      Do(Ld32(Rax, i.rs1), Do(op, Do(Sext, PutRd(true, i.rd, false, next))))
  }

  function EmitOp32(i: Inst, vs: Word, k: nat, next: Code): Code {
    if !((i.f7 == 0 && (i.f3 == 0 || i.f3 == 1 || i.f3 == 5)) || (i.f7 == 0x20 && (i.f3 == 0 || i.f3 == 5))) then
      HelperAluCall(i, vs, k, next)
    else
      var op := if i.f3 == 0 then Alu(if i.f7 == 0x20 then Sub else Add, false)
                else ShiftCl(if i.f3 == 1 then ShlK else if i.f7 == 0x20 then SarK else ShrK, false);
      Do(Ld32(Rax, i.rs1), Do(Ld32(Rcx, i.rs2), Do(op, Do(Sext, PutRd(true, i.rd, false, next)))))
  }

  /** What the translator does with an instruction: go on after it, end the block with it, or end
      the block before it. */
  datatype Kind = Cont | Term | Stop

  function KindOf(rv64: bool, i: Inst): Kind {
    match i.op
    case OpBranch => Term
    case OpJal => Term
    case OpJalr => Term
    case OpImm32 => if rv64 then Cont else Stop
    case OpReg32 => if rv64 then Cont else Stop
    case OpFence => if i.f3 == 1 then Stop else Cont
    case OpOther => Stop
    case _ => Cont
  }

  function EmitCont(rv64: bool, i: Inst, va: nat, k: nat, next: Code): Code {
    var vs := SextX(rv64, va);
    match i.op
    case OpLui => if i.rd != 0 then Do(Imm(Rax, SextX(rv64, i.immU)), Do(St(i.rd, Rax), next)) else next
    case OpAuipc => if i.rd != 0 then Do(Imm(Rax, SextX(rv64, va + i.immU)), Do(St(i.rd, Rax), next)) else next
    case OpImm => EmitOpImm(rv64, i, vs, k, next)
    case OpReg => EmitOp(rv64, i, vs, k, next)
    case OpImm32 => EmitOpImm32(i, vs, k, next)
    case OpReg32 => EmitOp32(i, vs, k, next)
    case OpLoad => HelperMemCall(i, vs, k, next)
    case OpStore => HelperMemCall(i, vs, k, next)
    case _ => next
  }

  function CcOf(f3: nat): CC {
    if f3 == 0 then CcE else if f3 == 1 then CcNe else if f3 == 4 then CcL
    else if f3 == 5 then CcGe else if f3 == 6 then CcB else CcAe
  }

  /** Store the next pc from rax, credit k + 1 retired instructions, return k + 1 steps. */
  function Finish(k: nat): Code { Do(StPc(Rax), Do(Retires(k + 1), Do(RetSteps(k + 1), Exit))) }

  function EmitTerm(rv64: bool, i: Inst, va: nat, ilen: nat, k: nat): Code {
    var fall := SextX(rv64, va + ilen);
    match i.op
    case OpBranch =>
      if i.f3 == 2 || i.f3 == 3 then Do(Imm(Rax, fall), Finish(k))
      else Do(Ld(Rax, i.rs1), Do(Ld(Rcx, i.rs2), Do(Cmp, Do(Imm(Rax, fall),
             Do(Imm(Rcx, SextX(rv64, va + i.immB)), Do(CMov(CcOf(i.f3)), Finish(k)))))))
    case OpJal =>
      var jump := Do(Imm(Rax, SextX(rv64, va + i.immJ)), Finish(k));
      if i.rd != 0 then Do(Imm(Rax, fall), Do(St(i.rd, Rax), jump)) else jump
    case _ =>
      var link := if i.rd != 0 then Do(Imm(Rcx, fall), Do(St(i.rd, Rcx), Finish(k))) else Finish(k);
      Do(Ld(Rax, i.rs1), Do(AluImm(Add, true, i.immI), Do(AluImm(Bit(And), true, W64 - 2), if rv64 then link else Do(Sext, link))))
  }

  /** The value put_rd stores: re-extended where asked for on RV32. */
  function Fix(rv64: bool, needsSext: bool, v: Word): Word { if !rv64 && needsSext then Sext32(v) else v }

  function ArchShift(rv64: bool, s: ShiftKind, a: Word, n: nat): Word {
    if s == ShlK then Shift(a, n) else ShiftRight(rv64, s == SarK, a, n)
  }

  // ---- Inline operations compute the interpreter's values ---------------------------------

  lemma HostShiftCorrect(rv64: bool, s: ShiftKind, a: Word, count: nat)
    ensures Fix(rv64, true, HostShift(s, rv64, a, count))
         == SextX(rv64, ArchShift(rv64, s, a, count % (if rv64 then 64 else 32)))
  {
    hide Sext32, Shift, ShiftDown, Asr64;
    var n := count % (if rv64 then 64 else 32);
    SextOfLow(Shift(a, n));
    SextOfLow(Shift(Low32(a), n));
    SextOfLow(Asr32(a, n));
    ShiftOfLow(a, n);
  }
}
