/** The hart as the emulator keeps it, one object updated in place (cpu.c): trap entry, the timer
    relays, interrupt delivery, fetch, execution and the step, each tied to the functions of `Rv` and
    `Machine`. */
module Hart {
  import opened Basics
  import opened Words
  import opened RvWords
  import opened Rv
  import opened Machine
  import R = Rv
  import Mach = Machine

  // ---- Interrupt priority -----------------------------------------------------------------

  /** Interrupt numbers from the highest priority down. */
  function Order(k: nat): nat {
    if k == 0 then 11 else if k == 1 then 3 else if k == 2 then 7 else if k == 3 then 9 else if k == 4 then 1 else 5
  }

  predicate IrqBit(b: Irqs, irq: nat) {
    if irq == 11 then b.mext else if irq == 3 then b.msoft else if irq == 7 then b.mtimer
    else if irq == 9 then b.sext else if irq == 1 then b.ssoft else irq == 5 && b.stimer
  }

  predicate Deliverable<W>(m: Machine<W>, irq: nat) {
    IrqBit(m.mip, irq) && IrqBit(m.core.csr.mie, irq) && Gate(m.core, IrqBit(m.core.csr.mideleg, irq))
  }

  function First<W>(m: Machine<W>, k: nat): Option<(nat, bool)>
    decreases 6 - k
  {
    if k >= 6 then None
    else if Deliverable(m, Order(k)) then Some((Order(k), IrqBit(m.core.csr.mideleg, Order(k))))
    else First(m, k + 1)
  }

  lemma FirstStep<W>(m: Machine<W>, k: nat, irq: nat)
    requires k < 6 && irq == Order(k)
    ensures First(m, k) == if Deliverable(m, irq) then Some((irq, IrqBit(m.core.csr.mideleg, irq))) else First(m, k + 1)
  {
    hide Deliverable, IrqBit;
  }

  /** Scanning the priority table takes the interrupt the fixed order names. */
  lemma FirstIsTaken<W>(m: Machine<W>)
    ensures First(m, 0) == Taken(m)
  {
    assert First(m, 6) == None;
    hide Gate, First;
    FirstStep(m, 0, 11); FirstStep(m, 1, 3); FirstStep(m, 2, 7);
    FirstStep(m, 3, 9); FirstStep(m, 4, 1); FirstStep(m, 5, 5);
  }

  // ---- The hart ---------------------------------------------------------------------------

  /** What a step leaves to code outside the integer core: nothing, the device side of an access whose
      address has been translated, or the whole instruction. */
  datatype Rest = Complete | AtDevice(pa: Word, i: Inst, ilen: Word) | Outside(i: Inst, ilen: Word)

  class Cpu<W> {
    const rv64: bool
    var regs: Regs
    var pc: Word
    var instret: nat
    var priv: Priv
    var csr: Csr
    var halt: Halt
    var plat: Plat
    var world: W
    var mip: Irqs
    var armed: bool
    var mtime: nat
    /** Set when a trap has redirected the pc in this step. */
    var trapped: bool

    /** cpu_init: machine mode, registers and interrupt state clear. */
    constructor (rv64: bool, entry: Word, csr: Csr, plat: Plat, world: W)
      ensures State() == Mach.Machine(R.Core(rv64, seq(32, _ => 0), entry, 0, 3, csr, Running, plat, world),
                                      Irqs(false, false, false, false, false, false), false, 0)
    {
      this.rv64, this.csr, this.plat, this.world := rv64, csr, plat, world;
      regs, pc, instret, priv, halt := seq(32, _ => 0), entry, 0, 3, Running;
      mip, armed, mtime := Irqs(false, false, false, false, false, false), false, 0;
      trapped := false;
    }

    ghost function Core(): Core<W>
      reads this
    {
      R.Core(rv64, regs, pc, instret, priv, csr, halt, plat, world)
    }

    ghost function State(): Machine<W>
      reads this
    {
      Mach.Machine(Core(), mip, armed, mtime)
    }

    /** enter_trap. */
    method EnterTrap(cause: Cause, tval: Word, toS: bool)
      modifies this`csr, this`priv, this`pc, this`trapped
      ensures Core() == R.EnterTrap(old(Core()), cause, tval, toS) && trapped
    {
      hide TrapBase, TrapEntry;
      var s := csr.mstatus;
      var tvec;
      if toS {
        s := s.(spie := s.sie, sie := false, spp := priv != 0);
        csr := csr.(sepc := pc, scause := cause, stval := tval, mstatus := s);
        priv := 1;
        tvec := csr.stvec;
      } else {
        s := s.(mpie := s.mie, mie := false, mpp := priv);
        csr := csr.(mepc := pc, mcause := cause, mtval := tval, mstatus := s);
        priv := 3;
        tvec := csr.mtvec;
      }
      pc := TrapEntry(tvec, cause);
      trapped := true;
    }

    /** raise_trap, for exceptions that reach a handler or stop the hart. */
    method RaiseTrap(code: nat, tval: Word)
      modifies this`csr, this`priv, this`pc, this`halt, this`trapped
      ensures Core() == R.RaiseTrap(old(Core()), code, tval) && (trapped || halt != Running)
    {
      var toS := priv <= 1 && code in csr.medeleg;
      var tvec := if toS then csr.stvec else csr.mtvec;
      if TrapBase(tvec) == 0 {
        halt := LegacyHalt(code);
        return;
      }
      EnterTrap(Cause(false, code), tval, toS);
    }

    /** firmware_timer_tick, sstc_tick and the refresh in effective_mip, in that order. */
    method Refresh()
      modifies this`mip, this`armed
      ensures State() == Sync(old(State()))
    {
      var mtip := mtime >= plat.mtimecmp;
      if armed && mtip {
        mip := mip.(stimer := true);
        armed := false;
      }
      if csr.stce { mip := mip.(stimer := instret >= csr.stimecmp); }
      mip := mip.(msoft := plat.msip, mtimer := mtip, mext := plat.meip, sext := plat.seip);
    }

    /** take_interrupt, after the refresh. */
    method TakeInterrupt() returns (took: bool)
      modifies this`csr, this`priv, this`pc, this`trapped
      ensures match Taken(old(State()))
        case Some((irq, toS)) => took && Core() == R.EnterTrap(old(Core()), Cause(true, irq), 0, toS)
        case None => !took && Core() == old(Core()) && trapped == old(trapped)
    {
      hide R.EnterTrap, Taken;
      FirstIsTaken(State());
      var mOn := priv < 3 || (priv == 3 && csr.mstatus.mie);
      var sOn := priv < 1 || (priv == 1 && csr.mstatus.sie);
      var k := 0;
      while k < 6
        invariant 0 <= k <= 6 && State() == old(State()) && trapped == old(trapped)
        invariant First(old(State()), 0) == First(old(State()), k)
      {
        var i := Order(k);
        if IrqBit(mip, i) && IrqBit(csr.mie, i) {
          var toS := IrqBit(csr.mideleg, i);
          if if toS then sOn else mOn {
            EnterTrap(Cause(true, i), 0, toS);
            return true;
          }
        }
        k := k + 1;
      }
      return false;
    }

    /** cpu_pre_step: whether the step was consumed. */
    method PreStep() returns (consumed: bool)
      modifies this`csr, this`priv, this`pc, this`halt, this`mip, this`armed, this`trapped
      ensures State() == Mach.PreStep(old(State())).m && consumed == Mach.PreStep(old(State())).Consumed?
      ensures !consumed ==> trapped == old(trapped)
    {
      hide R.EnterTrap, Taken, Sync;
      if plat.poweroff {
        halt := HaltExit;
        return true;
      }
      Refresh();
      consumed := TakeInterrupt();
    }

    // ---- Fetch --------------------------------------------------------------------------

    /** Translate the pc and read the instruction, the two halves of a 32-bit one separately; a fault
        traps. */
    method FetchInst(sys: Sys<W>) returns (f: Option<(Inst, Word)>)
      modifies this`world, this`csr, this`priv, this`pc, this`halt, this`trapped
      ensures match FetchCore(sys, old(Core()))
        case FetchTrap(code, tval, w) => f.None? && Core() == R.RaiseTrap(old(Core()).(world := w), code, tval)
        case Fetched(i, ilen, w) => f == Some((i, ilen)) && Core() == old(Core()).(world := w)
      ensures f.Some? ==> trapped == old(trapped)
    {
      hide R.RaiseTrap, FetchUpper;
      var ctx := Ctx(priv, csr.mstatus, csr.satp);
      match sys.resolve(world, ctx, pc) {
        case Fault(code) =>
          RaiseTrap(code, pc);
          return None;
        case Ok(pa, w) =>
          world := w;
          if sys.env.isDevice(pa) {
            f := Given(sys.deviceFetch(world, ctx, pc));
            return;
          }
          var lo := sys.half(world, pa);
          if lo.None? {
            RaiseTrap(1, pc);
            return None;
          }
          if lo.value % 4 == 3 {
            f := FetchUpperHalf(sys, lo.value);
            return;
          }
          var i := sys.expand(lo.value, rv64);
          if i.None? {
            RaiseTrap(2, lo.value);
            return None;
          }
          return Some((i.value, 2));
      }
    }

    method FetchUpperHalf(sys: Sys<W>, lo: U16) returns (f: Option<(Inst, Word)>)
      modifies this`world, this`csr, this`priv, this`pc, this`halt, this`trapped
      ensures match FetchUpper(sys, old(world), CtxOf(old(Core())), old(pc), lo)
        case FetchTrap(code, tval, w) => f.None? && Core() == R.RaiseTrap(old(Core()).(world := w), code, tval)
        case Fetched(i, ilen, w) => f == Some((i, ilen)) && Core() == old(Core()).(world := w)
      ensures f.Some? ==> trapped == old(trapped)
    {
      hide R.RaiseTrap, Plus;
      var ctx := Ctx(priv, csr.mstatus, csr.satp);
      var next := Plus(pc, 2);
      match sys.resolve(world, ctx, next) {
        case Fault(code) =>
          RaiseTrap(code, next);
          return None;
        case Ok(pa, w) =>
          world := w;
          if sys.env.isDevice(pa) {
            f := Given(sys.deviceFetch(world, ctx, pc));
            return;
          }
          var hi := sys.half(world, pa);
          if hi.None? {
            RaiseTrap(1, next);
            return None;
          }
          return Some((sys.decode(lo + 0x1_0000 * hi.value), 4));
      }
    }

    /** A fetch from a device window, as the device answers it. */
    method Given(answer: Fetch<W>) returns (f: Option<(Inst, Word)>)
      modifies this`world, this`csr, this`priv, this`pc, this`halt, this`trapped
      ensures match answer
        case FetchTrap(code, tval, w) => f.None? && Core() == R.RaiseTrap(old(Core()).(world := w), code, tval)
        case Fetched(i, ilen, w) => f == Some((i, ilen)) && Core() == old(Core()).(world := w)
      ensures f.Some? ==> trapped == old(trapped)
    {
      hide R.RaiseTrap;
      world := answer.world;
      match answer {
        case FetchTrap(code, tval, _) =>
          RaiseTrap(code, tval);
          return None;
        case Fetched(i, ilen, _) => return Some((i, ilen));
      }
    }

    // ---- Execution ----------------------------------------------------------------------

    /** reg_write. */
    method RegWrite(rd: Reg, v: Word)
      modifies this`regs
      ensures regs == Write(rv64, old(regs), rd, v)
    {
      if rd != 0 { regs := regs[rd := SextX(rv64, v)]; }
    }

    /** exec_op, exec_op_imm and their word forms. */
    method ExecuteAlu(env: Env<W>, i: Inst)
      modifies this`regs, this`csr, this`priv, this`pc, this`halt, this`trapped
      ensures ExecAlu(env, old(Core()), i).Retired? || ExecAlu(env, old(Core()), i).Trapped?
      ensures Core() == ExecAlu(env, old(Core()), i).core
      ensures if ExecAlu(env, old(Core()), i).Retired? then trapped == old(trapped) && halt == old(halt) else trapped || halt != Running
    {
      hide R.RaiseTrap, AluResult, Write;
      match AluResult(env.ext, rv64, i, Read(regs, i.rs1), Read(regs, i.rs2)) {
        case None => RaiseTrap(2, i.raw);
        case Some(v) => RegWrite(i.rd, v);
      }
    }

    /** exec_load and exec_store with the access-fault tail of cpu_step; a device is left to the caller. */
    method ExecuteMem(env: Env<W>, i: Inst) returns (device: Option<Word>)
      modifies this`regs, this`world, this`csr, this`priv, this`pc, this`halt, this`trapped
      ensures match ExecMem(env, old(Core()), i)
        case MemOk(c) => device.None? && Core() == c && trapped == old(trapped) && halt == old(halt)
        case MemTrap(c) => device.None? && Core() == c && (trapped || halt != Running)
        case MemDevice =>
          && device.Some? && Core() == old(Core()).(world := world)
          && env.translate(old(world), CtxOf(old(Core())), EffectiveAddress(old(Core()), i), AccessOf(i)) == Ok(device.value, world)
    {
      hide R.RaiseTrap, Write;
      var va := (Read(regs, i.rs1) + (if i.op == OpStore then i.immS else i.immI)) % W64;
      match env.translate(world, Ctx(priv, csr.mstatus, csr.satp), va, AccessOf(i)) {
        case Fault(code) =>
          RaiseTrap(code, va);
          return None;
        case Ok(pa, w) =>
          world := w;
          if env.isDevice(pa) { return Some(pa); }
          if i.op == OpStore {
            var s := env.store(world, pa, i, Read(regs, i.rs2));
            world := s.world;
            if s.StoreOut? { RaiseTrap(7, s.addr); }
          } else {
            var l := env.load(world, pa, i);
            world := l.world;
            RegWrite(i.rd, if l.Value? then l.v else 0);
            if l.LoadOut? { RaiseTrap(5, l.addr); }
          }
          return None;
      }
    }

    /** The tail of cpu_step. */
    method Commit(next: Word)
      modifies this`instret, this`csr, this`priv, this`pc, this`halt, this`trapped
      ensures Retire(old(Core()), next).Retired? || Retire(old(Core()), next).Trapped?
      ensures Core() == Retire(old(Core()), next).core
    {
      hide R.RaiseTrap, SextX;
      if next % 2 == 1 {
        RaiseTrap(0, next);
        return;
      }
      instret := instret + 1;
      pc := SextX(rv64, next);
    }

    /** The opcode dispatch of cpu_step, the groups outside the integer core left to the caller. */
    method Execute(env: Env<W>, i: Inst, ilen: Word) returns (rest: Rest)
      requires halt == Running && !trapped
      modifies this`regs, this`world, this`instret, this`csr, this`priv, this`pc, this`halt, this`trapped
      ensures match ExecOne(env, old(Core()), i, ilen)
        case Retired(c) => rest == Complete && Core() == c
        case Trapped(c) => rest == Complete && Core() == c
        case Device =>
          && rest.AtDevice? && rest.i == i && rest.ilen == ilen && Core() == old(Core()).(world := world)
          && env.translate(old(world), CtxOf(old(Core())), EffectiveAddress(old(Core()), i), AccessOf(i)) == Ok(rest.pa, world)
        case Other => rest == Outside(i, ilen) && Core() == old(Core())
    {
      hide R.RaiseTrap, Write, Read, Plus, AluResult, ExecAlu, ExecMem, Retire, BranchTaken, EffectiveAddress;
      var next := Plus(pc, ilen);
      if IsAlu(i) {
        ExecuteAlu(env, i);
      } else if IsMem(i) {
        var device := ExecuteMem(env, i);
        if device.Some? { return AtDevice(device.value, i, ilen); }
      } else {
        match i.op {
          case OpLui => RegWrite(i.rd, i.immU);
          case OpAuipc => RegWrite(i.rd, Plus(pc, i.immU));
          case OpJal =>
            RegWrite(i.rd, next);
            next := Plus(pc, i.immJ);
          case OpJalr =>
            var sum := Plus(Read(regs, i.rs1), i.immI);
            RegWrite(i.rd, next);
            next := sum - sum % 2;
          case OpBranch => if BranchTaken(i, Read(regs, i.rs1), Read(regs, i.rs2)) { next := Plus(pc, i.immB); }
          case OpFence =>
          case _ => return Outside(i, ilen);
        }
      }
      if trapped || halt != Running { return Complete; }
      Commit(next);
      return Complete;
    }

    /** cpu_step on a running hart, up to what is left to a device or to the other instruction groups. */
    method Step(sys: Sys<W>) returns (rest: Rest)
      requires halt == Running
      modifies this
      ensures var done := Mach.Step(sys, old(State()));
        match rest
        case Complete => State() == done
        case AtDevice(pa, i, ilen) => done == sys.device(State(), pa, i, ilen)
        case Outside(i, ilen) => done == sys.other(State(), i, ilen)
    {
      hide R.EnterTrap, Taken, Sync, ExecOne, R.RaiseTrap, FetchAt, EffectiveAddress;
      ghost var before := State();
      trapped := false;
      var consumed := PreStep();
      if consumed { return Complete; }
      ghost var s := State();
      PreStepRuns(before);
      var f := FetchInst(sys);
      if f.None? { return Complete; }
      var (i, ilen) := f.value;
      ghost var m := State();
      assert m == s.(core := s.core.(world := m.core.world));
      rest := Execute(sys.env, i, ilen);
      assert State() == m.(core := Core());
    }
  }

  lemma PreStepRuns<W>(m: Machine<W>)
    ensures PreStep(m).Proceed? ==> PreStep(m).m.core == m.core
  {
    hide Taken;
  }
}
