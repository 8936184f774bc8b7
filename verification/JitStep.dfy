/** The translated form of each instruction against `ExecOne`: helper calls, straight-line
    instructions and control transfers. */
module JitStep {
  import opened Basics
  import opened Words
  import opened RvWords
  import opened Rv
  import opened Jit
  import opened JitInsn

  // ---- The retired count is not read by an access or an ALU operation ----------------------

  function Count<W>(c: Core<W>, n: nat): Core<W> { c.(instret := n) }

  lemma TrapIgnoresCount<W>(c: Core<W>, n: nat, code: nat, tval: Word)
    ensures RaiseTrap(Count(c, n), code, tval) == Count(RaiseTrap(c, code, tval), n)
  {
  }

  lemma AluIgnoresCount<W>(env: Env<W>, c: Core<W>, i: Inst, n: nat)
    ensures var o, p := ExecAlu(env, c, i), ExecAlu(env, Count(c, n), i);
      (o.Retired? || o.Trapped?) && (o.Retired? ==> p == Retired(Count(o.core, n)))
        && (o.Trapped? ==> p == Trapped(Count(o.core, n)))
  {
    hide RaiseTrap, AluResult, Read, Write;
    TrapIgnoresCount(c, n, 2, i.raw);
  }

  function CountMem<W>(o: MemOutcome<W>, n: nat): MemOutcome<W> {
    match o
    case MemOk(c) => MemOk(Count(c, n))
    case MemTrap(c) => MemTrap(Count(c, n))
    case MemDevice => MemDevice
  }

  lemma MemIgnoresCount<W>(env: Env<W>, c: Core<W>, i: Inst, n: nat)
    ensures ExecMem(env, Count(c, n), i) == CountMem(ExecMem(env, c, i), n)
  {
    hide RaiseTrap, Read, Write;
    var va := EffectiveAddress(c, i);
    match env.translate(c.world, CtxOf(c), va, AccessOf(i)) {
      case Fault(code) => TrapIgnoresCount(c, n, code, va);
      case Ok(pa, w) =>
        var r := Read(c.regs, i.rs2);
        match env.store(w, pa, i, r) {
          case StoreOut(addr, w') => TrapIgnoresCount(c.(world := w'), n, 7, addr);
          case Done(_) =>
        }
        match env.load(w, pa, i) {
          case LoadOut(addr, w') =>
            TrapIgnoresCount(c.(world := w', regs := Write(c.rv64, c.regs, i.rd, 0)), n, 5, addr);
          case Value(_, _) =>
        }
    }
  }

  // ---- Helper calls -----------------------------------------------------------------------

  /** The hart at the call: pc stored, nothing else changed. */
  function AtCall<W>(c: Core<W>, vs: Word): Core<W> { c.(pc := vs) }

  function CallState<W>(h: Host<W>, c: Core<W>, status: Word): Host<W> {
    h.(core := c, rax := status, left := status, right := 0)
  }

  lemma AluCallRuns<W>(env: Env<W>, i: Inst, vs: Word, k: nat, next: Code, h: Host<W>)
    ensures var (c, status) := HelperAlu(env, AtCall(h.core, vs), i);
      Run(env, HelperAluCall(i, vs, k, next), h)
        == (if status == 0 then Run(env, next, CallState(h, c, status))
            else CallState(h, Count(c, c.instret + k), status).(ret := k + 1))
  {
    hide HelperAlu;
    var (c, status) := HelperAlu(env, AtCall(h.core, vs), i);
    var h1 := Perform(env, Imm(Rax, vs), h);
    var h2 := Perform(env, StPc(Rax), h1);
    assert h2.core == AtCall(h.core, vs);
    var h3 := Perform(env, CallAlu(i), h2);
    assert h3 == CallState(h, c, status);
    var call := Do(CallAlu(i), GlueAlu(k, next));
    assert Run(env, HelperAluCall(i, vs, k, next), h) == Run(env, call, h2);
    assert Run(env, call, h2) == Run(env, GlueAlu(k, next), h3);
    if status != 0 { TwoOpsExit(env, Retires(k), RetSteps(k + 1), h3); }
  }

  lemma TwoOpsExit<W>(env: Env<W>, op: HostOp, op2: HostOp, h: Host<W>)
    ensures Run(env, Do(op, Do(op2, Exit)), h) == Perform(env, op2, Perform(env, op, h))
  {
    hide Perform;
    assert Run(env, Do(op2, Exit), Perform(env, op, h)) == Perform(env, op2, Perform(env, op, h));
  }

  lemma MemCallRuns<W>(env: Env<W>, i: Inst, vs: Word, k: nat, next: Code, h: Host<W>)
    ensures var (c, status) := HelperMem(env, AtCall(h.core, vs), i);
      var r := Run(env, HelperMemCall(i, vs, k, next), h);
        && (status == 0 ==> r == Run(env, next, CallState(h, c, status)))
        && (status != 0 ==> r.core == Count(c, c.instret + k) && r.ret == if status == 3 then k else k + 1)
  {
    hide HelperMem;
    var (c, status) := HelperMem(env, AtCall(h.core, vs), i);
    var h1 := Perform(env, Imm(Rax, vs), h);
    var h2 := Perform(env, StPc(Rax), h1);
    assert h2.core == AtCall(h.core, vs);
    var h3 := Perform(env, CallMem(i), h2);
    assert h3 == CallState(h, c, status);
    var call := Do(CallMem(i), GlueMem(k, next));
    assert Run(env, HelperMemCall(i, vs, k, next), h) == Run(env, call, h2);
    assert Run(env, call, h2) == Run(env, GlueMem(k, next), h3);
    if status != 0 { MemExit(env, k, next, h3); }
  }

  lemma MemExit<W>(env: Env<W>, k: nat, next: Code, h: Host<W>)
    requires h.left != h.right && h.rax == h.left
    ensures Run(env, GlueMem(k, next), h).core == Count(h.core, h.core.instret + k)
    ensures Run(env, GlueMem(k, next), h).ret == if h.rax == 3 then k else k + 1
  {
    var h1 := Perform(env, CmpImm(3), h);
    var abort, trap := Do(Retires(k), Do(RetSteps(k), Exit)), Do(Retires(k), Do(RetSteps(k + 1), Exit));
    assert Run(env, GlueMem(k, next), h) == Run(env, Do(CmpImm(3), IfEq(abort, trap)), h);
    assert Run(env, Do(CmpImm(3), IfEq(abort, trap)), h) == Run(env, IfEq(abort, trap), h1);
    TwoOpsExit(env, Retires(k), RetSteps(k), h1);
    TwoOpsExit(env, Retires(k), RetSteps(k + 1), h1);
  }

  // ---- The probe --------------------------------------------------------------------------

  /** Translating again finds the same page and changes nothing more (jit_h_mem relies on it). */
  ghost predicate Idempotent<W(!new)>(env: Env<W>) {
    forall w, ctx, va, acc :: var t := env.translate(w, ctx, va, acc);
      t.Ok? ==> env.translate(t.world, ctx, va, acc) == t
  }

  /** Memory as the probe of a refused device access leaves it. */
  function Probed<W>(env: Env<W>, c: Core<W>, i: Inst): W {
    match env.translate(c.world, CtxOf(c), EffectiveAddress(c, i), AccessOf(i))
    case Ok(_, w) => w
    case Fault(_) => c.world
  }

  /** jit_h_mem is the interpreter's access, except that it refuses devices. */
  lemma HelperMemIsExecMem<W(!new)>(env: Env<W>, c: Core<W>, i: Inst)
    requires Idempotent(env)
    ensures match ExecMem(env, c, i)
      case MemOk(c') => HelperMem(env, c, i) == (c', 0)
      case MemTrap(c') => HelperMem(env, c, i) == (c', 1)
      case MemDevice => HelperMem(env, c, i) == (c.(world := Probed(env, c, i)), 3)
  {
    hide RaiseTrap, Read, Write, EffectiveAddress;
    var va, acc := EffectiveAddress(c, i), AccessOf(i);
    var t := env.translate(c.world, CtxOf(c), va, acc);
    if t.Ok? {
      var c1 := c.(world := t.world);
      assert env.translate(c1.world, CtxOf(c1), va, acc) == t;
      assert EffectiveAddress(c1, i) == va by { AddressOfRegs(c, c1, i); }
      assert !env.isDevice(t.pa) ==> ExecMem(env, c1, i) == ExecMem(env, c, i);
    }
  }

  lemma AddressOfRegs<W>(c: Core<W>, d: Core<W>, i: Inst)
    requires c.regs == d.regs
    ensures EffectiveAddress(c, i) == EffectiveAddress(d, i)
  {
  }

  // ---- Program counters -------------------------------------------------------------------

  lemma PcPlus(rv64: bool, va: nat, d: Word)
    ensures SextX(rv64, Plus(SextX(rv64, va), d)) == SextX(rv64, va + d)
  {
    if rv64 {
      SumMod(va, d);
    } else {
      hide Sext32;
      SextOfLow(Sext32(va) + d);
      SextOfSum(va, d);
    }
  }

  lemma SumMod(a: int, b: int)
    ensures (a % W64 + b) % W64 % W64 == (a + b) % W64
  {
  }

  lemma EvenPc(rv64: bool, va: nat, d: Word)
    requires va % 2 == 0 && d % 2 == 0
    ensures Plus(SextX(rv64, va), d) % 2 == 0
  {
  }

  /** Retiring to the next instruction in line. */
  lemma FallThrough<W>(e: Core<W>, va: nat, ilen: Word, k: nat)
    requires va % 2 == 0 && ilen % 2 == 0
    ensures var c := Seen(e, va, k); Retire(c, Plus(c.pc, ilen)) == Retired(Seen(e, va + ilen, k + 1))
  {
    hide SextX, Plus;
    PcPlus(e.rv64, va, ilen);
    EvenPc(e.rv64, va, ilen);
  }

  // ---- Straight-line instructions ---------------------------------------------------------

  /** What the translated instruction at `va`, the k-th of its block, must do, given the
      interpreter's outcome: run on into `next` standing for the retired hart, or leave the block
      with the trapped hart having consumed k + 1 steps, or leave it before the instruction. */
  ghost predicate StepAgrees<W(!new)>(env: Env<W>, code: Code, next: Code, h: Host<W>, i: Inst, va: nat, ilen: nat, k: nat,
                                      o: Outcome<W>) {
    match o
    case Retired(c) => exists h' :: Run(env, code, h) == Run(env, next, h') && Seen(h'.core, va + ilen, k + 1) == c
    case Trapped(c) => Run(env, code, h).core == c && Run(env, code, h).ret == k + 1
    case Device =>
      var c := Seen(h.core, va, k);
      Run(env, code, h).core == c.(world := Probed(env, c, i)) && Run(env, code, h).ret == k
    case Other => false
  }

  lemma InlineAgrees<W(!new)>(env: Env<W>, code: Code, next: Code, h: Host<W>, i: Inst, va: nat, ilen: Word, k: nat, v: Word)
    requires va % 2 == 0 && ilen % 2 == 0 && IsAlu(i)
    requires Continues(env, code, next, h, AfterWrite(h.core, i.rd, v))
    requires AluResult(env.ext, h.core.rv64, i, Read(h.core.regs, i.rs1), Read(h.core.regs, i.rs2)) == Some(v)
    ensures StepAgrees(env, code, next, h, i, va, ilen, k, ExecOne(env, Seen(h.core, va, k), i, ilen))
  {
    hide SextX, Plus, Run, AluResult, Read, Write, Retire;
    var e := AfterWrite(h.core, i.rd, v);
    FallThrough(e, va, ilen, k);
    assert Seen(e, va, k) == AfterWrite(Seen(h.core, va, k), i.rd, v);
    var h' :| Run(env, code, h) == Run(env, next, h') && h'.core == e;
    assert Seen(h'.core, va + ilen, k + 1) == Seen(e, va + ilen, k + 1);
  }

  lemma AluCallAgrees<W(!new)>(env: Env<W>, next: Code, h: Host<W>, i: Inst, va: nat, ilen: Word, k: nat)
    requires va % 2 == 0 && ilen % 2 == 0 && IsAlu(i)
    ensures StepAgrees(env, HelperAluCall(i, SextX(h.core.rv64, va), k, next), next, h, i, va, ilen, k,
                       ExecOne(env, Seen(h.core, va, k), i, ilen))
  {
    hide SextX, Plus, Run, AluResult, Read, Write, Retire, RaiseTrap, ExecAlu, HelperAluCall;
    var vs := SextX(h.core.rv64, va);
    var a := AtCall(h.core, vs);
    var n := h.core.instret + k;
    assert Seen(h.core, va, k) == Count(a, n);
    AluIgnoresCount(env, a, i, n);
    AluKeeps(env, a, i);
    AluCallRuns(env, i, vs, k, next, h);
    var (e, status) := HelperAlu(env, a, i);
    assert Seen(e, va, k) == Count(e, n) || status != 0;
    FallThrough(e, va, ilen, k);
    assert status == 0 ==> CallState(h, e, status).core == e;
  }

  lemma AluKeeps<W>(env: Env<W>, c: Core<W>, i: Inst)
    ensures var o := ExecAlu(env, c, i); o.Retired? || o.Trapped?
    ensures var o := ExecAlu(env, c, i);
      o.core.instret == c.instret && o.core.rv64 == c.rv64 && (o.Retired? ==> o.core.pc == c.pc)
  {
    hide AluResult, Read, Write;
  }

  lemma MemKeeps<W>(env: Env<W>, c: Core<W>, i: Inst)
    ensures var o := ExecMem(env, c, i);
      !o.MemDevice? ==> o.core.instret == c.instret && o.core.rv64 == c.rv64 && (o.MemOk? ==> o.core.pc == c.pc)
  {
    hide Read, Write;
  }

  lemma MemCallAgrees<W(!new)>(env: Env<W>, next: Code, h: Host<W>, i: Inst, va: nat, ilen: Word, k: nat)
    requires va % 2 == 0 && ilen % 2 == 0 && IsMem(i) && Idempotent(env)
    ensures StepAgrees(env, HelperMemCall(i, SextX(h.core.rv64, va), k, next), next, h, i, va, ilen, k,
                       ExecOne(env, Seen(h.core, va, k), i, ilen))
  {
    hide SextX, Plus, Run, Read, Write, Retire, RaiseTrap, ExecMem, HelperMemCall, HelperMem, Idempotent;
    var vs := SextX(h.core.rv64, va);
    var a := AtCall(h.core, vs);
    var n := h.core.instret + k;
    assert Seen(h.core, va, k) == Count(a, n);
    MemIgnoresCount(env, a, i, n);
    MemKeeps(env, a, i);
    HelperMemIsExecMem(env, a, i);
    MemCallRuns(env, i, vs, k, next, h);
    var (e, status) := HelperMem(env, a, i);
    FallThrough(e, va, ilen, k);
    assert status == 0 ==> Seen(e, va, k) == Count(e, n) && CallState(h, e, status).core == e;
    assert Probed(env, Count(a, n), i) == Probed(env, a, i) by { ProbedIgnoresCount(env, a, i, n); }
  }

  lemma ProbedIgnoresCount<W>(env: Env<W>, c: Core<W>, i: Inst, n: nat)
    ensures Probed(env, Count(c, n), i) == Probed(env, c, i)
  {
  }

  lemma OpImmAgrees<W(!new)>(env: Env<W>, next: Code, h: Host<W>, i: Inst, va: nat, ilen: Word, k: nat)
    requires va % 2 == 0 && ilen % 2 == 0 && WellFormed(i) && RegsOk(h.core.rv64, h.core.regs) && i.op == OpImm
    ensures StepAgrees(env, EmitOpImm(h.core.rv64, i, SextX(h.core.rv64, va), k, next), next, h, i, va, ilen, k,
                       ExecOne(env, Seen(h.core, va, k), i, ilen))
  {
    hide StepAgrees, ExecOne, Continues, RegsOk, SextX, PutRd, HelperAluCall, BaseOpImm, IsBitmanipImm, Read;
    var vs := SextX(h.core.rv64, va);
    if InlinesOpImm(i) {
      OpImmInline(env, i, vs, k, next, h);
      InlineOpImmIsBase(i);
      InlineAgrees(env, EmitOpImm(h.core.rv64, i, vs, k, next), next, h, i, va, ilen, k,
                   BaseOpImm(h.core.rv64, i, Read(h.core.regs, i.rs1)));
    } else {
      AluCallAgrees(env, next, h, i, va, ilen, k);
    }
  }

  lemma OpAgrees<W(!new)>(env: Env<W>, next: Code, h: Host<W>, i: Inst, va: nat, ilen: Word, k: nat)
    requires va % 2 == 0 && ilen % 2 == 0 && WellFormed(i) && RegsOk(h.core.rv64, h.core.regs) && i.op == OpReg
    ensures StepAgrees(env, EmitOp(h.core.rv64, i, SextX(h.core.rv64, va), k, next), next, h, i, va, ilen, k,
                       ExecOne(env, Seen(h.core, va, k), i, ilen))
  {
    hide StepAgrees, ExecOne, Continues, RegsOk, SextX, PutRd, HelperAluCall, BaseOp, IsBitmanipOp, Read;
    var vs := SextX(h.core.rv64, va);
    if InlinesOp(i) {
      OpInline(env, i, vs, k, next, h);
      InlineOpIsBase(h.core.rv64, i);
      InlineAgrees(env, EmitOp(h.core.rv64, i, vs, k, next), next, h, i, va, ilen, k,
                   BaseOp(h.core.rv64, i, Read(h.core.regs, i.rs1), Read(h.core.regs, i.rs2)));
    } else {
      AluCallAgrees(env, next, h, i, va, ilen, k);
    }
  }

  lemma OpImm32Agrees<W(!new)>(env: Env<W>, next: Code, h: Host<W>, i: Inst, va: nat, ilen: Word, k: nat)
    requires va % 2 == 0 && ilen % 2 == 0 && WellFormed(i) && RegsOk(h.core.rv64, h.core.regs) && i.op == OpImm32 && h.core.rv64
    ensures StepAgrees(env, EmitOpImm32(i, SextX(h.core.rv64, va), k, next), next, h, i, va, ilen, k,
                       ExecOne(env, Seen(h.core, va, k), i, ilen))
  {
    hide StepAgrees, ExecOne, Continues, RegsOk, SextX, PutRd, HelperAluCall, BaseOpImm32, IsBitmanipImm32, Read;
    var vs := SextX(h.core.rv64, va);
    if InlinesOpImm32(i) {
      OpImm32Inline(env, i, vs, k, next, h);
      InlineWordIsBase(i);
      InlineAgrees(env, EmitOpImm32(i, vs, k, next), next, h, i, va, ilen, k,
                   BaseOpImm32(i, Read(h.core.regs, i.rs1)).value);
    } else {
      AluCallAgrees(env, next, h, i, va, ilen, k);
    }
  }

  lemma Op32Agrees<W(!new)>(env: Env<W>, next: Code, h: Host<W>, i: Inst, va: nat, ilen: Word, k: nat)
    requires va % 2 == 0 && ilen % 2 == 0 && WellFormed(i) && RegsOk(h.core.rv64, h.core.regs) && i.op == OpReg32 && h.core.rv64
    ensures StepAgrees(env, EmitOp32(i, SextX(h.core.rv64, va), k, next), next, h, i, va, ilen, k,
                       ExecOne(env, Seen(h.core, va, k), i, ilen))
  {
    hide StepAgrees, ExecOne, Continues, RegsOk, SextX, PutRd, HelperAluCall, BaseOp32, IsBitmanipOp32, Read;
    var vs := SextX(h.core.rv64, va);
    if InlinesOp32(i) {
      Op32Inline(env, i, vs, k, next, h);
      InlineWordIsBase(i);
      InlineAgrees(env, EmitOp32(i, vs, k, next), next, h, i, va, ilen, k,
                   BaseOp32(i, Read(h.core.regs, i.rs1), Read(h.core.regs, i.rs2)).value);
    } else {
      AluCallAgrees(env, next, h, i, va, ilen, k);
    }
  }

  /** LUI and AUIPC store a constant. */
  lemma UpperAgrees<W(!new)>(env: Env<W>, next: Code, h: Host<W>, i: Inst, va: nat, ilen: Word, k: nat)
    requires va % 2 == 0 && ilen % 2 == 0 && (i.op == OpLui || i.op == OpAuipc)
    ensures StepAgrees(env, EmitCont(h.core.rv64, i, va, k, next), next, h, i, va, ilen, k,
                       ExecOne(env, Seen(h.core, va, k), i, ilen))
  {
    hide SextX, Plus, Read, Retire;
    var rv64 := h.core.rv64;
    var v := if i.op == OpLui then i.immU else Plus(SextX(rv64, va), i.immU);
    PcPlus(rv64, va, i.immU);
    var e := AfterWrite(h.core, i.rd, v);
    FallThrough(e, va, ilen, k);
    assert Seen(e, va, k) == AfterWrite(Seen(h.core, va, k), i.rd, v);
    var x := SextX(rv64, v);
    var code := EmitCont(rv64, i, va, k, next);
    if i.rd != 0 {
      assert code == Do(Imm(Rax, x), Do(St(i.rd, Rax), next));
      var h1 := h.(rax := x, core := e);
      assert Perform(env, St(i.rd, Rax), Perform(env, Imm(Rax, x), h)) == h1;
      assert Run(env, code, h) == Run(env, next, h1);
    } else {
      assert e == h.core;
    }
  }

  /** Every straight-line instruction the translator accepts agrees with the interpreter. */
  lemma ContAgrees<W(!new)>(env: Env<W>, next: Code, h: Host<W>, i: Inst, va: nat, ilen: Word, k: nat)
    requires va % 2 == 0 && ilen % 2 == 0 && WellFormed(i) && RegsOk(h.core.rv64, h.core.regs) && Idempotent(env)
    requires KindOf(h.core.rv64, i) == Cont
    ensures StepAgrees(env, EmitCont(h.core.rv64, i, va, k, next), next, h, i, va, ilen, k,
                       ExecOne(env, Seen(h.core, va, k), i, ilen))
  {
    hide StepAgrees, ExecOne, RegsOk, SextX, EmitOp, EmitOpImm, EmitOp32, EmitOpImm32, HelperMemCall, WellFormed, Idempotent;
    match i.op {
      case OpLui => UpperAgrees(env, next, h, i, va, ilen, k);
      case OpAuipc => UpperAgrees(env, next, h, i, va, ilen, k);
      case OpImm => OpImmAgrees(env, next, h, i, va, ilen, k);
      case OpReg => OpAgrees(env, next, h, i, va, ilen, k);
      case OpImm32 => OpImm32Agrees(env, next, h, i, va, ilen, k);
      case OpReg32 => Op32Agrees(env, next, h, i, va, ilen, k);
      case OpLoad => MemCallAgrees(env, next, h, i, va, ilen, k);
      case OpStore => MemCallAgrees(env, next, h, i, va, ilen, k);
      case OpFence => FenceAgrees(env, next, h, i, va, ilen, k);
    }
  }

  lemma FenceAgrees<W(!new)>(env: Env<W>, next: Code, h: Host<W>, i: Inst, va: nat, ilen: Word, k: nat)
    requires va % 2 == 0 && ilen % 2 == 0 && i.op == OpFence && i.f3 != 1
    ensures StepAgrees(env, EmitCont(h.core.rv64, i, va, k, next), next, h, i, va, ilen, k,
                       ExecOne(env, Seen(h.core, va, k), i, ilen))
  {
    hide SextX, Plus, Retire;
    FallThrough(h.core, va, ilen, k);
  }

  // ---- Control transfers ------------------------------------------------------------------

  lemma FinishRuns<W>(env: Env<W>, h: Host<W>, k: nat)
    ensures var r := Run(env, Finish(k), h);
      r.core == h.core.(pc := h.rax, instret := h.core.instret + k + 1) && r.ret == k + 1
  {
    var h1 := Perform(env, StPc(Rax), h);
    assert Run(env, Finish(k), h) == Run(env, Do(Retires(k + 1), Do(RetSteps(k + 1), Exit)), h1);
    TwoOpsExit(env, Retires(k + 1), RetSteps(k + 1), h1);
  }

  /** The block ends with the hart of the retired instruction. */
  ghost predicate Ends<W>(env: Env<W>, code: Code, h: Host<W>, k: nat, o: Outcome<W>) {
    o.Retired? && Run(env, code, h).core == o.core && Run(env, code, h).ret == k + 1
  }

  /** Retiring to an even target other than the next instruction. */
  lemma JumpTo<W>(e: Core<W>, va: nat, k: nat, target: Word, x: Word)
    requires target % 2 == 0 && x == SextX(e.rv64, target)
    ensures Retire(Seen(e, va, k), target) == Retired(e.(pc := x, instret := e.instret + k + 1))
  {
  }

  lemma ExecOfBranch<W>(env: Env<W>, c: Core<W>, i: Inst, ilen: Word)
    requires i.op == OpBranch
    ensures ExecOne(env, c, i, ilen)
         == Retire(c, if BranchTaken(i, Read(c.regs, i.rs1), Read(c.regs, i.rs2)) then Plus(c.pc, i.immB) else Plus(c.pc, ilen))
  {
  }

  lemma ExecOfJal<W>(env: Env<W>, c: Core<W>, i: Inst, ilen: Word)
    requires i.op == OpJal
    ensures ExecOne(env, c, i, ilen) == Retire(AfterWrite(c, i.rd, Plus(c.pc, ilen)), Plus(c.pc, i.immJ))
  {
  }

  lemma ExecOfJalr<W>(env: Env<W>, c: Core<W>, i: Inst, ilen: Word)
    requires i.op == OpJalr
    ensures var sum := Plus(Read(c.regs, i.rs1), i.immI);
      ExecOne(env, c, i, ilen) == Retire(AfterWrite(c, i.rd, Plus(c.pc, ilen)), sum - sum % 2)
  {
  }

  lemma BranchAgrees<W(!new)>(env: Env<W>, h: Host<W>, i: Inst, va: nat, ilen: Word, k: nat)
    requires va % 2 == 0 && ilen % 2 == 0 && WellFormed(i) && RegsOk(h.core.rv64, h.core.regs) && i.op == OpBranch
    ensures Ends(env, EmitTerm(h.core.rv64, i, va, ilen, k), h, k, ExecOne(env, Seen(h.core, va, k), i, ilen))
  {
    hide SextX, Plus, Retire, AsSigned, Finish, RegsOk, ExecOne;
    ExecOfBranch(env, Seen(h.core, va, k), i, ilen);
    var rv64 := h.core.rv64;
    var fall, taken := SextX(rv64, va + ilen), SextX(rv64, va + i.immB);
    var a, b := h.core.regs[i.rs1], h.core.regs[i.rs2];
    RegisterRead(rv64, h.core.regs, i.rs1);
    RegisterRead(rv64, h.core.regs, i.rs2);
    EvenPc(rv64, va, ilen); EvenPc(rv64, va, i.immB);
    PcPlus(rv64, va, ilen); PcPlus(rv64, va, i.immB);
    var pc := SextX(rv64, va);
    JumpTo(h.core, va, k, Plus(pc, ilen), fall);
    JumpTo(h.core, va, k, Plus(pc, i.immB), taken);
    if i.f3 == 2 || i.f3 == 3 {
      FinishRuns(env, h.(rax := fall), k);
    } else {
      var h1 := h.(rax := if BranchTaken(i, a, b) then taken else fall, rcx := taken, left := a, right := b);
      BranchRuns(env, h, i, fall, taken, k);
      FinishRuns(env, h1, k);
    }
  }

  lemma BranchRuns<W>(env: Env<W>, h: Host<W>, i: Inst, fall: Word, taken: Word, k: nat)
    requires i.f3 < 8 && i.f3 != 2 && i.f3 != 3
    ensures var a, b := h.core.regs[i.rs1], h.core.regs[i.rs2];
      Run(env, Do(Ld(Rax, i.rs1), Do(Ld(Rcx, i.rs2), Do(Cmp, Do(Imm(Rax, fall), Do(Imm(Rcx, taken), Do(CMov(CcOf(i.f3)), Finish(k))))))), h)
        == Run(env, Finish(k), h.(rax := if BranchTaken(i, a, b) then taken else fall, rcx := taken, left := a, right := b))
  {
    hide AsSigned, Finish;
    var a, b := h.core.regs[i.rs1], h.core.regs[i.rs2];
    var h3 := h.(rax := a, rcx := b, left := a, right := b);
    var tail := Do(Imm(Rax, fall), Do(Imm(Rcx, taken), Do(CMov(CcOf(i.f3)), Finish(k))));
    assert Run(env, Do(Ld(Rcx, i.rs2), Do(Cmp, tail)), h.(rax := a)) == Run(env, tail, h3);
    var h5 := h3.(rax := fall, rcx := taken);
    assert Run(env, tail, h3) == Run(env, Do(CMov(CcOf(i.f3)), Finish(k)), h5);
  }

  lemma JalAgrees<W(!new)>(env: Env<W>, h: Host<W>, i: Inst, va: nat, ilen: Word, k: nat)
    requires va % 2 == 0 && ilen % 2 == 0 && WellFormed(i) && i.op == OpJal
    ensures Ends(env, EmitTerm(h.core.rv64, i, va, ilen, k), h, k, ExecOne(env, Seen(h.core, va, k), i, ilen))
  {
    hide SextX, Plus, Retire, Finish, ExecOne;
    ExecOfJal(env, Seen(h.core, va, k), i, ilen);
    var rv64 := h.core.rv64;
    var pc := SextX(rv64, va);
    var fall, target := SextX(rv64, va + ilen), SextX(rv64, va + i.immJ);
    EvenPc(rv64, va, i.immJ);
    PcPlus(rv64, va, ilen); PcPlus(rv64, va, i.immJ);
    var e := AfterWrite(h.core, i.rd, Plus(pc, ilen));
    assert Seen(e, va, k) == AfterWrite(Seen(h.core, va, k), i.rd, Plus(pc, ilen));
    JumpTo(e, va, k, Plus(pc, i.immJ), target);
    var jump := Do(Imm(Rax, target), Finish(k));
    var h1 := if i.rd != 0 then h.(rax := fall, core := e) else h;
    assert h1.core == e;
    assert Run(env, EmitTerm(rv64, i, va, ilen, k), h) == Run(env, jump, h1) by {
      if i.rd != 0 { assert Perform(env, St(i.rd, Rax), Perform(env, Imm(Rax, fall), h)) == h1; }
    }
    FinishRuns(env, h1.(rax := target), k);
  }

  /** The jump-and-link-register target: bit zero cleared, and the base read before the link. */
  lemma JalrTarget(rv64: bool, a: Word, imm: Word)
    ensures var sum := Plus(a, imm); Bitwise(And, sum, W64 - 2) == sum - sum % 2 && (sum - sum % 2) % 2 == 0
  {
    hide Bitwise;
    ClearBitZero(Plus(a, imm));
  }

  lemma JalrAgrees<W(!new)>(env: Env<W>, h: Host<W>, i: Inst, va: nat, ilen: Word, k: nat)
    requires va % 2 == 0 && ilen % 2 == 0 && WellFormed(i) && RegsOk(h.core.rv64, h.core.regs) && i.op == OpJalr
    ensures Ends(env, EmitTerm(h.core.rv64, i, va, ilen, k), h, k, ExecOne(env, Seen(h.core, va, k), i, ilen))
  {
    hide SextX, Plus, Retire, Finish, Bitwise, RegsOk, Run, Perform, WellFormed, ExecOne;
    ExecOfJalr(env, Seen(h.core, va, k), i, ilen);
    var rv64 := h.core.rv64;
    var pc := SextX(rv64, va);
    var a := h.core.regs[i.rs1];
    RegisterRead(rv64, h.core.regs, i.rs1);
    JalrTarget(rv64, a, i.immI);
    PcPlus(rv64, va, ilen);
    var sum := Plus(a, i.immI);
    var target := sum - sum % 2;
    var e := AfterWrite(h.core, i.rd, Plus(pc, ilen));
    assert Seen(e, va, k) == AfterWrite(Seen(h.core, va, k), i.rd, Plus(pc, ilen));
    JumpTo(e, va, k, target, SextX(rv64, target));
    JalrRuns(env, h, i, va, ilen, k);
  }

  lemma JalrRuns<W>(env: Env<W>, h: Host<W>, i: Inst, va: nat, ilen: Word, k: nat)
    requires i.op == OpJalr
    ensures var rv64 := h.core.rv64;
      var sum := Plus(h.core.regs[i.rs1], i.immI);
      var e := h.core.(regs := if i.rd == 0 then h.core.regs else h.core.regs[i.rd := SextX(rv64, va + ilen)]);
      var r := Run(env, EmitTerm(rv64, i, va, ilen, k), h);
        r.core == e.(pc := SextX(rv64, sum - sum % 2), instret := e.instret + k + 1) && r.ret == k + 1
  {
    hide Finish, Bitwise, Sext32;
    var rv64 := h.core.rv64;
    var fall := SextX(rv64, va + ilen);
    var sum := Plus(h.core.regs[i.rs1], i.immI);
    JalrTarget(rv64, h.core.regs[i.rs1], i.immI);
    var link := if i.rd != 0 then Do(Imm(Rcx, fall), Do(St(i.rd, Rcx), Finish(k))) else Finish(k);
    var h2 := h.(rax := sum - sum % 2);
    var rest := if rv64 then link else Do(Sext, link);
    assert Run(env, EmitTerm(rv64, i, va, ilen, k), h) == Run(env, rest, h2) by { JalrHead(env, h, i, rest); }
    var h3 := h.(rax := SextX(rv64, sum - sum % 2));
    assert Run(env, rest, h2) == Run(env, link, h3);
    var e := h.core.(regs := if i.rd == 0 then h.core.regs else h.core.regs[i.rd := fall]);
    var h4 := if i.rd != 0 then h3.(rcx := fall, core := e) else h3;
    assert Run(env, link, h3) == Run(env, Finish(k), h4);
    FinishRuns(env, h4, k);
  }

  lemma JalrHead<W>(env: Env<W>, h: Host<W>, i: Inst, rest: Code)
    ensures var sum := Plus(h.core.regs[i.rs1], i.immI);
      Run(env, Do(Ld(Rax, i.rs1), Do(AluImm(Add, true, i.immI), Do(AluImm(Bit(And), true, W64 - 2), rest))), h)
        == Run(env, rest, h.(rax := sum - sum % 2))
  {
    hide Bitwise;
    var a := h.core.regs[i.rs1];
    var sum := Plus(a, i.immI);
    JalrTarget(true, a, i.immI);
    var h1 := h.(rax := sum);
    assert Perform(env, AluImm(Add, true, i.immI), Perform(env, Ld(Rax, i.rs1), h)) == h1;
    assert Perform(env, AluImm(Bit(And), true, W64 - 2), h1) == h.(rax := sum - sum % 2);
    assert Run(env, Do(AluImm(Bit(And), true, W64 - 2), rest), h1) == Run(env, rest, h.(rax := sum - sum % 2));
  }

  lemma TermAgrees<W(!new)>(env: Env<W>, h: Host<W>, i: Inst, va: nat, ilen: Word, k: nat)
    requires va % 2 == 0 && ilen % 2 == 0 && WellFormed(i) && RegsOk(h.core.rv64, h.core.regs)
    requires KindOf(h.core.rv64, i) == Term
    ensures Ends(env, EmitTerm(h.core.rv64, i, va, ilen, k), h, k, ExecOne(env, Seen(h.core, va, k), i, ilen))
  {
    hide Ends, EmitTerm, ExecOne, RegsOk, WellFormed, Seen;
    match i.op {
      case OpBranch => BranchAgrees(env, h, i, va, ilen, k);
      case OpJal => JalAgrees(env, h, i, va, ilen, k);
      case OpJalr => JalrAgrees(env, h, i, va, ilen, k);
    }
  }
}
