/** One translated instruction leaves the hart the interpreter would leave.

    Between instructions a block keeps neither the pc nor the retired count in memory, so the
    hart it stands for is `Seen`: the pc is the instruction's own address and the k earlier
    instructions count as retired. */
module JitInsn {
  import opened Words
  import opened RvWords
  import opened Rv
  import opened Jit

  function Seen<W>(c: Core<W>, va: nat, k: nat): Core<W> {
    c.(pc := SextX(c.rv64, va), instret := c.instret + k)
  }

  // ---- Running straight-line host code ----------------------------------------------------

  function Wrote<W>(h: Host<W>, rd: Reg, v: Word): Host<W> {
    h.(rax := SextX(h.core.rv64, v), core := h.core.(regs := Write(h.core.rv64, h.core.regs, rd, v)))
  }

  lemma PutRdRuns<W>(env: Env<W>, rd: Reg, needsSext: bool, next: Code, h: Host<W>, v: Word)
    requires Fix(h.core.rv64, needsSext, h.rax) == SextX(h.core.rv64, v)
    ensures Run(env, PutRd(h.core.rv64, rd, needsSext, next), h) == Run(env, next, Wrote(h, rd, v))
  {
    hide Sext32;
    var rv64 := h.core.rv64;
    var h1 := h.(rax := SextX(rv64, v));
    var store := if rd != 0 then Do(St(rd, Rax), next) else next;
    assert Run(env, PutRd(rv64, rd, needsSext, next), h) == Run(env, store, h1) by {
      if !rv64 && needsSext { assert Perform(env, Sext, h) == h1; } else { assert h1 == h; }
    }
    if rd != 0 { assert Perform(env, St(rd, Rax), h1) == Wrote(h, rd, v); }
  }

  /** Load, one operation, put_rd. */
  lemma Shape2<W>(env: Env<W>, ld: HostOp, op: HostOp, rd: Reg, needsSext: bool, next: Code, h: Host<W>, v: Word)
    requires var h1 := Perform(env, op, Perform(env, ld, h));
             h1.core == h.core && Fix(h.core.rv64, needsSext, h1.rax) == SextX(h.core.rv64, v)
    ensures Run(env, Do(ld, Do(op, PutRd(h.core.rv64, rd, needsSext, next))), h)
         == Run(env, next, Wrote(Perform(env, op, Perform(env, ld, h)), rd, v))
  {
    hide Sext32, Perform, PutRd, Fix, SextX, Wrote;
    PutRdRuns(env, rd, needsSext, next, Perform(env, op, Perform(env, ld, h)), v);
  }

  lemma Shape3<W>(env: Env<W>, ld: HostOp, op: HostOp, op2: HostOp, rd: Reg, needsSext: bool, next: Code, h: Host<W>, v: Word)
    requires var h1 := Perform(env, op2, Perform(env, op, Perform(env, ld, h)));
             h1.core == h.core && Fix(h.core.rv64, needsSext, h1.rax) == SextX(h.core.rv64, v)
    ensures Run(env, Do(ld, Do(op, Do(op2, PutRd(h.core.rv64, rd, needsSext, next)))), h)
         == Run(env, next, Wrote(Perform(env, op2, Perform(env, op, Perform(env, ld, h))), rd, v))
  {
    hide Sext32, Perform, PutRd, Fix, SextX, Wrote;
    var h0 := Perform(env, ld, h);
    var tail := Do(op, Do(op2, PutRd(h.core.rv64, rd, needsSext, next)));
    assert Run(env, Do(ld, tail), h) == Run(env, tail, h0);
    assert Run(env, tail, h0) == Run(env, Do(op2, PutRd(h.core.rv64, rd, needsSext, next)), Perform(env, op, h0));
    PutRdRuns(env, rd, needsSext, next, Perform(env, op2, Perform(env, op, h0)), v);
  }

  lemma Shape4<W>(env: Env<W>, ld: HostOp, ld2: HostOp, op: HostOp, op2: HostOp, rd: Reg, needsSext: bool, next: Code, h: Host<W>, v: Word)
    requires var h1 := Perform(env, op2, Perform(env, op, Perform(env, ld2, Perform(env, ld, h))));
             h1.core == h.core && Fix(h.core.rv64, needsSext, h1.rax) == SextX(h.core.rv64, v)
    requires Perform(env, ld, h).core == h.core
    ensures Run(env, Do(ld, Do(ld2, Do(op, Do(op2, PutRd(h.core.rv64, rd, needsSext, next))))), h)
         == Run(env, next, Wrote(Perform(env, op2, Perform(env, op, Perform(env, ld2, Perform(env, ld, h)))), rd, v))
  {
    hide Sext32, Perform, PutRd, Fix, SextX, Wrote;
    var h0 := Perform(env, ld, h);
    assert Run(env, Do(ld, Do(ld2, Do(op, Do(op2, PutRd(h.core.rv64, rd, needsSext, next))))), h)
        == Run(env, Do(ld2, Do(op, Do(op2, PutRd(h.core.rv64, rd, needsSext, next)))), h0);
    Shape3(env, ld2, op, op2, rd, needsSext, next, h0, v);
  }

  // ---- Inlined OP-IMM ---------------------------------------------------------------------

  predicate InlinesOpImm(i: Inst) {
    (i.f3 == 1 ==> i.F6() == 0) && (i.f3 == 5 ==> i.F6() == 0 || i.F6() == 0x10)
  }

  /** The bit-manipulation encodings are disjoint from the inlined ones, and funct6 tells the two
      right shifts apart as bit 30 does. */
  lemma InlineOpImmIsBase(i: Inst)
    requires WellFormed(i) && InlinesOpImm(i)
    ensures !IsBitmanipImm(i)
    ensures i.f3 == 5 ==> (i.Bit30() <==> i.F6() == 0x10)
  {
  }

  lemma RegisterRead(rv64: bool, regs: Regs, r: Reg)
    requires RegsOk(rv64, regs)
    ensures Read(regs, r) == regs[r] && SextX(rv64, regs[r]) == regs[r]
  {
  }

  /** The host's shift by the immediate field is the architectural one. */
  lemma ShiftImmValue(rv64: bool, i: Inst, s: ShiftKind, a: Word)
    requires WellFormed(i)
    ensures Fix(rv64, true, HostShift(s, rv64, a, i.shamt % (if rv64 then 64 else 32)))
         == SextX(rv64, ArchShift(rv64, s, a, ShiftAmount(rv64, i.immI)))
  {
    hide Sext32, HostShift, ArchShift, Fix, SextX;
    Masked(i.immI);
    HostShiftCorrect(rv64, s, a, i.shamt % (if rv64 then 64 else 32));
  }

  lemma Masked(x: nat)
    ensures x % 64 % 64 == x % 64 && x % 64 % 32 == x % 32 && x % 32 % 32 == x % 32
  {
  }

  lemma LogicValue(rv64: bool, k: Logic, a: Word, b: Word)
    requires SextX(rv64, a) == a && SextX(rv64, b) == b
    ensures SextX(rv64, Bitwise(k, a, b)) == Bitwise(k, a, b)
  {
    hide Bitwise, Sext32;
    if !rv64 { SextLogic(k, a, b); }
  }

  lemma ImmediateIsSext(rv64: bool, i: Inst)
    requires WellFormed(i)
    ensures SextX(rv64, i.immI) == i.immI && SextX(rv64, i.immU) == i.immU
  {
  }

  ghost predicate Continues<W(!new)>(env: Env<W>, code: Code, next: Code, h: Host<W>, c: Core<W>) {
    exists h' :: Run(env, code, h) == Run(env, next, h') && h'.core == c
  }

  function AfterWrite<W>(c: Core<W>, rd: Reg, v: Word): Core<W> {
    c.(regs := Write(c.rv64, c.regs, rd, v))
  }

  lemma OpImmAdd<W(!new)>(env: Env<W>, i: Inst, vs: Word, k: nat, next: Code, h: Host<W>)
    requires RegsOk(h.core.rv64, h.core.regs) && WellFormed(i) && i.f3 == 0
    ensures Continues(env, EmitOpImm(h.core.rv64, i, vs, k, next), next, h, AfterWrite(h.core, i.rd, BaseOpImm(h.core.rv64, i, Read(h.core.regs, i.rs1))))
  {
    hide Sext32, Shift, ShiftDown, Asr64, Bitwise, ShiftRight, HostShift, RegsOk, Run, PutRd, ShiftAmount, AsSigned;
    var rv64 := h.core.rv64;
    var a := h.core.regs[i.rs1];
    var v := BaseOpImm(rv64, i, a);
    RegisterRead(rv64, h.core.regs, i.rs1);
    ImmediateIsSext(rv64, i);
    Shape2(env, Ld(Rax, i.rs1), AluImm(Add, true, i.immI), i.rd, true, next, h, v);
  }

  lemma OpImmCompare<W(!new)>(env: Env<W>, i: Inst, vs: Word, k: nat, next: Code, h: Host<W>)
    requires RegsOk(h.core.rv64, h.core.regs) && WellFormed(i) && (i.f3 == 2 || i.f3 == 3)
    ensures Continues(env, EmitOpImm(h.core.rv64, i, vs, k, next), next, h, AfterWrite(h.core, i.rd, BaseOpImm(h.core.rv64, i, Read(h.core.regs, i.rs1))))
  {
    hide Sext32, Shift, ShiftDown, Asr64, Bitwise, ShiftRight, HostShift, RegsOk, Run, PutRd, ShiftAmount, AsSigned;
    var rv64 := h.core.rv64;
    var a := h.core.regs[i.rs1];
    var v := BaseOpImm(rv64, i, a);
    RegisterRead(rv64, h.core.regs, i.rs1);
    ImmediateIsSext(rv64, i);
    SmallSext();
    Shape3(env, Ld(Rax, i.rs1), CmpImm(i.immI), SetCc(if i.f3 == 2 then CcL else CcB), i.rd, false, next, h, v);
  }

  lemma OpImmLogic<W(!new)>(env: Env<W>, i: Inst, vs: Word, k: nat, next: Code, h: Host<W>)
    requires RegsOk(h.core.rv64, h.core.regs) && WellFormed(i) && (i.f3 == 4 || i.f3 == 6 || i.f3 == 7)
    ensures Continues(env, EmitOpImm(h.core.rv64, i, vs, k, next), next, h, AfterWrite(h.core, i.rd, BaseOpImm(h.core.rv64, i, Read(h.core.regs, i.rs1))))
  {
    hide Sext32, Shift, ShiftDown, Asr64, Bitwise, ShiftRight, HostShift, RegsOk, Run, PutRd, ShiftAmount, AsSigned;
    var rv64 := h.core.rv64;
    var a := h.core.regs[i.rs1];
    var v := BaseOpImm(rv64, i, a);
    RegisterRead(rv64, h.core.regs, i.rs1);
    ImmediateIsSext(rv64, i);
    var kind := if i.f3 == 4 then Xor else if i.f3 == 6 then Or else And;
    LogicValue(rv64, kind, a, i.immI);
    Shape2(env, Ld(Rax, i.rs1), AluImm(Bit(kind), true, i.immI), i.rd, false, next, h, v);
  }

  lemma OpImmShift<W(!new)>(env: Env<W>, i: Inst, vs: Word, k: nat, next: Code, h: Host<W>)
    requires RegsOk(h.core.rv64, h.core.regs) && WellFormed(i) && InlinesOpImm(i) && (i.f3 == 1 || i.f3 == 5)
    ensures Continues(env, EmitOpImm(h.core.rv64, i, vs, k, next), next, h, AfterWrite(h.core, i.rd, BaseOpImm(h.core.rv64, i, Read(h.core.regs, i.rs1))))
  {
    hide Sext32, Shift, ShiftDown, Asr64, Bitwise, ShiftRight, HostShift, RegsOk, Run, PutRd, ShiftAmount, AsSigned;
    var rv64 := h.core.rv64;
    var a := h.core.regs[i.rs1];
    var v := BaseOpImm(rv64, i, a);
    RegisterRead(rv64, h.core.regs, i.rs1);
    ImmediateIsSext(rv64, i);
    InlineOpImmIsBase(i);
    var kind := if i.f3 == 1 then ShlK else if i.F6() == 0x10 then SarK else ShrK;
    ShiftImmValue(rv64, i, kind, a);
    Shape2(env, Ld(Rax, i.rs1), ShiftImm(kind, rv64, i.shamt % (if rv64 then 64 else 32)), i.rd, true, next, h, v);
  }

  lemma OpImmInline<W(!new)>(env: Env<W>, i: Inst, vs: Word, k: nat, next: Code, h: Host<W>)
    requires RegsOk(h.core.rv64, h.core.regs) && WellFormed(i) && InlinesOpImm(i)
    ensures Continues(env, EmitOpImm(h.core.rv64, i, vs, k, next), next, h,
                      AfterWrite(h.core, i.rd, BaseOpImm(h.core.rv64, i, Read(h.core.regs, i.rs1))))
  {
    hide Continues, AfterWrite, BaseOpImm, EmitOpImm, RegsOk, Read;
    match i.f3 {
      case 0 => OpImmAdd(env, i, vs, k, next, h);
      case 2 => OpImmCompare(env, i, vs, k, next, h);
      case 3 => OpImmCompare(env, i, vs, k, next, h);
      case 1 => OpImmShift(env, i, vs, k, next, h);
      case 5 => OpImmShift(env, i, vs, k, next, h);
      case _ => OpImmLogic(env, i, vs, k, next, h);
    }
  }

  // ---- Inlined OP -------------------------------------------------------------------------

  predicate InlinesOp(i: Inst) { i.f7 == 0 || (i.f7 == 0x20 && (i.f3 == 0 || i.f3 == 5)) }

  lemma InlineOpIsBase(rv64: bool, i: Inst)
    requires InlinesOp(i)
    ensures i.f7 != 1 && !IsBitmanipOp(rv64, i)
  {
  }

  lemma ShiftRegValue(rv64: bool, s: ShiftKind, a: Word, b: Word)
    ensures Fix(rv64, true, HostShift(s, rv64, a, b)) == SextX(rv64, ArchShift(rv64, s, a, ShiftAmount(rv64, b)))
  {
    hide Sext32, HostShift, ArchShift, Fix, SextX;
    HostShiftCorrect(rv64, s, a, b);
  }

  lemma OpAdd<W(!new)>(env: Env<W>, i: Inst, vs: Word, k: nat, next: Code, h: Host<W>)
    requires RegsOk(h.core.rv64, h.core.regs) && WellFormed(i) && InlinesOp(i) && i.f3 == 0
    ensures Continues(env, EmitOp(h.core.rv64, i, vs, k, next), next, h, AfterWrite(h.core, i.rd, BaseOp(h.core.rv64, i, Read(h.core.regs, i.rs1), Read(h.core.regs, i.rs2))))
  {
    hide Sext32, Shift, ShiftDown, Asr64, Bitwise, ShiftRight, HostShift, RegsOk, Run, PutRd, ShiftAmount, AsSigned;
    var rv64 := h.core.rv64;
    var a, b := h.core.regs[i.rs1], h.core.regs[i.rs2];
    var v := BaseOp(rv64, i, a, b);
    RegisterRead(rv64, h.core.regs, i.rs1);
    RegisterRead(rv64, h.core.regs, i.rs2);
    Shape3(env, Ld(Rax, i.rs1), Ld(Rcx, i.rs2), Alu(if i.f7 == 0x20 then Sub else Add, true), i.rd, true, next, h, v);
  }

  lemma OpCompare<W(!new)>(env: Env<W>, i: Inst, vs: Word, k: nat, next: Code, h: Host<W>)
    requires RegsOk(h.core.rv64, h.core.regs) && WellFormed(i) && InlinesOp(i) && (i.f3 == 2 || i.f3 == 3)
    ensures Continues(env, EmitOp(h.core.rv64, i, vs, k, next), next, h, AfterWrite(h.core, i.rd, BaseOp(h.core.rv64, i, Read(h.core.regs, i.rs1), Read(h.core.regs, i.rs2))))
  {
    hide Sext32, Shift, ShiftDown, Asr64, Bitwise, ShiftRight, HostShift, RegsOk, Run, PutRd, ShiftAmount, AsSigned;
    var rv64 := h.core.rv64;
    var a, b := h.core.regs[i.rs1], h.core.regs[i.rs2];
    var v := BaseOp(rv64, i, a, b);
    RegisterRead(rv64, h.core.regs, i.rs1);
    RegisterRead(rv64, h.core.regs, i.rs2);
    SmallSext();
    Shape4(env, Ld(Rax, i.rs1), Ld(Rcx, i.rs2), Cmp, SetCc(if i.f3 == 2 then CcL else CcB), i.rd, false, next, h, v);
  }

  lemma OpLogic<W(!new)>(env: Env<W>, i: Inst, vs: Word, k: nat, next: Code, h: Host<W>)
    requires RegsOk(h.core.rv64, h.core.regs) && WellFormed(i) && InlinesOp(i) && (i.f3 == 4 || i.f3 == 6 || i.f3 == 7)
    ensures Continues(env, EmitOp(h.core.rv64, i, vs, k, next), next, h, AfterWrite(h.core, i.rd, BaseOp(h.core.rv64, i, Read(h.core.regs, i.rs1), Read(h.core.regs, i.rs2))))
  {
    hide Sext32, Shift, ShiftDown, Asr64, Bitwise, ShiftRight, HostShift, RegsOk, Run, PutRd, ShiftAmount, AsSigned;
    var rv64 := h.core.rv64;
    var a, b := h.core.regs[i.rs1], h.core.regs[i.rs2];
    var v := BaseOp(rv64, i, a, b);
    RegisterRead(rv64, h.core.regs, i.rs1);
    RegisterRead(rv64, h.core.regs, i.rs2);
    var kind := if i.f3 == 4 then Xor else if i.f3 == 6 then Or else And;
    LogicValue(rv64, kind, a, b);
    Shape3(env, Ld(Rax, i.rs1), Ld(Rcx, i.rs2), Alu(Bit(kind), true), i.rd, false, next, h, v);
  }

  lemma OpShift<W(!new)>(env: Env<W>, i: Inst, vs: Word, k: nat, next: Code, h: Host<W>)
    requires RegsOk(h.core.rv64, h.core.regs) && WellFormed(i) && InlinesOp(i) && (i.f3 == 1 || i.f3 == 5)
    ensures Continues(env, EmitOp(h.core.rv64, i, vs, k, next), next, h, AfterWrite(h.core, i.rd, BaseOp(h.core.rv64, i, Read(h.core.regs, i.rs1), Read(h.core.regs, i.rs2))))
  {
    hide Sext32, Shift, ShiftDown, Asr64, Bitwise, ShiftRight, HostShift, RegsOk, Run, PutRd, ShiftAmount, AsSigned;
    var rv64 := h.core.rv64;
    var a, b := h.core.regs[i.rs1], h.core.regs[i.rs2];
    var v := BaseOp(rv64, i, a, b);
    RegisterRead(rv64, h.core.regs, i.rs1);
    RegisterRead(rv64, h.core.regs, i.rs2);
    var kind := if i.f3 == 1 then ShlK else if i.f7 == 0x20 then SarK else ShrK;
    ShiftRegValue(rv64, kind, a, b);
    Shape3(env, Ld(Rax, i.rs1), Ld(Rcx, i.rs2), ShiftCl(kind, rv64), i.rd, true, next, h, v);
  }

  lemma OpInline<W(!new)>(env: Env<W>, i: Inst, vs: Word, k: nat, next: Code, h: Host<W>)
    requires RegsOk(h.core.rv64, h.core.regs) && WellFormed(i) && InlinesOp(i)
    ensures Continues(env, EmitOp(h.core.rv64, i, vs, k, next), next, h,
                      AfterWrite(h.core, i.rd, BaseOp(h.core.rv64, i, Read(h.core.regs, i.rs1), Read(h.core.regs, i.rs2))))
  {
    hide Continues, AfterWrite, BaseOp, EmitOp, RegsOk, Read;
    match i.f3 {
      case 0 => OpAdd(env, i, vs, k, next, h);
      case 2 => OpCompare(env, i, vs, k, next, h);
      case 3 => OpCompare(env, i, vs, k, next, h);
      case 1 => OpShift(env, i, vs, k, next, h);
      case 5 => OpShift(env, i, vs, k, next, h);
      case _ => OpLogic(env, i, vs, k, next, h);
    }
  }

  lemma SmallSext()
    ensures Sext32(0) == 0 && Sext32(1) == 1
  {
  }

  // ---- Inlined OP-IMM-32 and OP-32 --------------------------------------------------------

  predicate InlinesOpImm32(i: Inst) {
    i.f3 == 0 || (i.f3 == 1 && i.F6() == 0) || (i.f3 == 5 && (i.F6() == 0 || i.F6() == 0x10))
  }

  predicate InlinesOp32(i: Inst) {
    (i.f7 == 0 && (i.f3 == 0 || i.f3 == 1 || i.f3 == 5)) || (i.f7 == 0x20 && (i.f3 == 0 || i.f3 == 5))
  }

  lemma InlineWordIsBase(i: Inst)
    requires WellFormed(i)
    ensures InlinesOpImm32(i) ==> !IsBitmanipImm32(i) && (i.f3 == 5 ==> (i.Bit30() <==> i.F6() == 0x10))
    ensures InlinesOp32(i) ==> i.f7 != 1 && !IsBitmanipOp32(i)
  {
  }

  /** A 32-bit host shift of the zero-extended operand, then movsxd. */
  lemma WordShiftValue(s: ShiftKind, a: Word, count: nat)
    ensures var n := count % 32;
      Sext32(HostShift(s, false, Low32(a), count))
        == Sext32(match s case ShlK => Shift(Low32(a), n) case SarK => Asr32(a, n) case ShrK => ShiftDown(Low32(a), n))
  {
    hide Sext32, Shift, ShiftDown, Asr64;
    var n := count % 32;
    assert Low32(Low32(a)) == Low32(a);
    SextOfLow(Shift(Low32(a), n));
    SextOfLow(Asr32(a, n));
    AsrOfLow(a, n);
  }

  lemma WordSumValue(a: Word, b: Word)
    ensures Sext32(Low32((Low32(a) + b) % W64)) == Sext32(Low32(a) + Low32(b))
    ensures Sext32(Low32((Low32(a) + Low32(b)) % W64)) == Sext32(Low32(a) + Low32(b))
    ensures Sext32(Low32((Low32(a) - Low32(b)) % W64)) == Sext32(Low32(a) - Low32(b))
  {
    hide Sext32, Low32;
    SextOfLow((Low32(a) + b) % W64);
    SextOfLow((Low32(a) + Low32(b)) % W64);
    SextOfLow((Low32(a) - Low32(b)) % W64);
    SextOfLow(Low32(a) + b);
    SextOfLow(Low32(a) + Low32(b));
    SextOfLow(Low32(a) - Low32(b));
    SextOfSum(b, Low32(a));
  }

  lemma OpImm32Add<W(!new)>(env: Env<W>, i: Inst, vs: Word, k: nat, next: Code, h: Host<W>)
    requires RegsOk(h.core.rv64, h.core.regs) && h.core.rv64 && WellFormed(i) && i.f3 == 0
    ensures BaseOpImm32(i, Read(h.core.regs, i.rs1)).Some?
    ensures Continues(env, EmitOpImm32(i, vs, k, next), next, h, AfterWrite(h.core, i.rd, BaseOpImm32(i, Read(h.core.regs, i.rs1)).value))
  {
    hide Sext32, Low32, Shift, ShiftDown, Asr64, RegsOk, Run, PutRd, AsSigned, HostShift;
    var a := h.core.regs[i.rs1];
    RegisterRead(true, h.core.regs, i.rs1);
    WordSumValue(a, i.immI);
    Shape3(env, Ld32(Rax, i.rs1), AluImm(Add, false, i.immI), Sext, i.rd, false, next, h, BaseOpImm32(i, a).value);
  }

  lemma OpImm32Shift<W(!new)>(env: Env<W>, i: Inst, vs: Word, k: nat, next: Code, h: Host<W>)
    requires RegsOk(h.core.rv64, h.core.regs) && h.core.rv64 && WellFormed(i) && InlinesOpImm32(i) && i.f3 != 0
    ensures BaseOpImm32(i, Read(h.core.regs, i.rs1)).Some?
    ensures Continues(env, EmitOpImm32(i, vs, k, next), next, h, AfterWrite(h.core, i.rd, BaseOpImm32(i, Read(h.core.regs, i.rs1)).value))
  {
    hide Sext32, Low32, Shift, ShiftDown, Asr64, RegsOk, Run, PutRd, AsSigned, HostShift;
    var a := h.core.regs[i.rs1];
    RegisterRead(true, h.core.regs, i.rs1);
    InlineWordIsBase(i);
    ImmediateCount(i);
    var kind := if i.f3 == 1 then ShlK else if i.F6() == 0x10 then SarK else ShrK;
    WordShiftValue(kind, a, i.shamt % 32);
    hide Inst.F6, Inst.Bit30, WellFormed;
    Shape3(env, Ld32(Rax, i.rs1), ShiftImm(kind, false, i.shamt % 32), Sext, i.rd, false, next, h, BaseOpImm32(i, a).value);
  }

  lemma OpImm32Inline<W(!new)>(env: Env<W>, i: Inst, vs: Word, k: nat, next: Code, h: Host<W>)
    requires RegsOk(h.core.rv64, h.core.regs) && h.core.rv64 && WellFormed(i) && InlinesOpImm32(i)
    ensures BaseOpImm32(i, Read(h.core.regs, i.rs1)).Some?
    ensures Continues(env, EmitOpImm32(i, vs, k, next), next, h, AfterWrite(h.core, i.rd, BaseOpImm32(i, Read(h.core.regs, i.rs1)).value))
  {
    hide Continues, AfterWrite, BaseOpImm32, EmitOpImm32, RegsOk, Read;
    if i.f3 == 0 { OpImm32Add(env, i, vs, k, next, h); } else { OpImm32Shift(env, i, vs, k, next, h); }
  }

  lemma Op32Add<W(!new)>(env: Env<W>, i: Inst, vs: Word, k: nat, next: Code, h: Host<W>)
    requires RegsOk(h.core.rv64, h.core.regs) && h.core.rv64 && WellFormed(i) && InlinesOp32(i) && i.f3 == 0
    ensures BaseOp32(i, Read(h.core.regs, i.rs1), Read(h.core.regs, i.rs2)).Some?
    ensures Continues(env, EmitOp32(i, vs, k, next), next, h, AfterWrite(h.core, i.rd, BaseOp32(i, Read(h.core.regs, i.rs1), Read(h.core.regs, i.rs2)).value))
  {
    hide Sext32, Low32, Shift, ShiftDown, Asr64, RegsOk, Run, PutRd, AsSigned, HostShift;
    var a, b := h.core.regs[i.rs1], h.core.regs[i.rs2];
    RegisterRead(true, h.core.regs, i.rs1);
    RegisterRead(true, h.core.regs, i.rs2);
    WordSumValue(a, b);
    Shape4(env, Ld32(Rax, i.rs1), Ld32(Rcx, i.rs2), Alu(if i.f7 == 0x20 then Sub else Add, false), Sext, i.rd, false, next, h,
           BaseOp32(i, a, b).value);
  }

  lemma Op32Shift<W(!new)>(env: Env<W>, i: Inst, vs: Word, k: nat, next: Code, h: Host<W>)
    requires RegsOk(h.core.rv64, h.core.regs) && h.core.rv64 && WellFormed(i) && InlinesOp32(i) && i.f3 != 0
    ensures BaseOp32(i, Read(h.core.regs, i.rs1), Read(h.core.regs, i.rs2)).Some?
    ensures Continues(env, EmitOp32(i, vs, k, next), next, h, AfterWrite(h.core, i.rd, BaseOp32(i, Read(h.core.regs, i.rs1), Read(h.core.regs, i.rs2)).value))
  {
    hide Sext32, Low32, Shift, ShiftDown, Asr64, RegsOk, Run, PutRd, AsSigned, HostShift;
    var a, b := h.core.regs[i.rs1], h.core.regs[i.rs2];
    RegisterRead(true, h.core.regs, i.rs1);
    RegisterRead(true, h.core.regs, i.rs2);
    var kind := if i.f3 == 1 then ShlK else if i.f7 == 0x20 then SarK else ShrK;
    WordShiftValue(kind, a, Low32(b));
    LowCount(b);
    Shape4(env, Ld32(Rax, i.rs1), Ld32(Rcx, i.rs2), ShiftCl(kind, false), Sext, i.rd, false, next, h, BaseOp32(i, a, b).value);
  }

  lemma ImmediateCount(i: Inst)
    requires WellFormed(i)
    ensures i.shamt % 32 % 32 == i.immI % 32
  {
    hide Sext32;
    var q := i.immI / 64;
    assert i.immI == 32 * (2 * q) + i.shamt;
    assert i.shamt == 32 * (i.shamt / 32) + i.shamt % 32;
    Residues(2 * q + i.shamt / 32, i.shamt % 32);
  }

  lemma Residues(q: nat, r: nat)
    requires r < 32
    ensures (32 * q + r) % 32 == r && r % 32 == r
  {
  }

  lemma LowCount(b: Word)
    ensures Low32(b) % 32 == b % 32
  {
  }

  lemma Op32Inline<W(!new)>(env: Env<W>, i: Inst, vs: Word, k: nat, next: Code, h: Host<W>)
    requires RegsOk(h.core.rv64, h.core.regs) && h.core.rv64 && WellFormed(i) && InlinesOp32(i)
    ensures BaseOp32(i, Read(h.core.regs, i.rs1), Read(h.core.regs, i.rs2)).Some?
    ensures Continues(env, EmitOp32(i, vs, k, next), next, h, AfterWrite(h.core, i.rd, BaseOp32(i, Read(h.core.regs, i.rs1), Read(h.core.regs, i.rs2)).value))
  {
    hide Continues, AfterWrite, BaseOp32, EmitOp32, RegsOk, Read;
    if i.f3 == 0 { Op32Add(env, i, vs, k, next, h); } else { Op32Shift(env, i, vs, k, next, h); }
  }
}
