/** What an instruction of the integer core leaves alone. */
module RvFrame {
  import opened RvWords
  import opened Rv
  import opened Machine

  /** What a retired instruction of a block leaves alone. */
  predicate SameGates<W>(c: Core<W>, d: Core<W>) {
    c.csr == d.csr && c.priv == d.priv && c.plat == d.plat && c.halt == d.halt && c.rv64 == d.rv64
  }

  lemma RetiredKeeps<W>(env: Env<W>, c: Core<W>, i: Inst, ilen: Word)
    ensures var o := ExecOne(env, c, i, ilen);
      o.Retired? ==> SameGates(c, o.core) && o.core.instret == c.instret + 1
  {
    hide RaiseTrap, RegsOk, Write, Read, AluResult, Plus, BranchTaken, SextX, EffectiveAddress;
  }

  lemma WriteKeepsRegs(rv64: bool, regs: Regs, rd: Reg, v: Word)
    requires RegsOk(rv64, regs)
    ensures RegsOk(rv64, Write(rv64, regs, rd, v))
  {
    SextXTwice(rv64, v);
  }

  lemma SextXTwice(rv64: bool, v: int)
    ensures SextX(rv64, SextX(rv64, v)) == SextX(rv64, v)
  {
    SextTwice(v);
  }

  /** What every instruction, retired or trapped, keeps. */
  predicate Frame<W>(c: Core<W>, d: Core<W>) {
    SameTimers(c, d) && d.instret >= c.instret && d.rv64 == c.rv64 && RegsOk(d.rv64, d.regs)
  }

  lemma TrapFrame<W>(c: Core<W>, code: nat, tval: Word)
    requires RegsOk(c.rv64, c.regs)
    ensures Frame(c, RaiseTrap(c, code, tval))
  {
    hide RegsOk;
  }

  lemma RetireFrame<W>(c: Core<W>, next: Word)
    requires RegsOk(c.rv64, c.regs)
    ensures Frame(c, Retire(c, next).core)
  {
    hide RegsOk, RaiseTrap;
    TrapFrame(c, 0, next);
  }

  lemma AluFrame<W>(env: Env<W>, c: Core<W>, i: Inst)
    requires RegsOk(c.rv64, c.regs)
    ensures var o := ExecAlu(env, c, i); (o.Retired? || o.Trapped?) && Frame(c, o.core)
  {
    hide RegsOk, RaiseTrap, Write, AluResult, Read;
    TrapFrame(c, 2, i.raw);
    match AluResult(env.ext, c.rv64, i, Read(c.regs, i.rs1), Read(c.regs, i.rs2)) {
      case Some(v) => WriteKeepsRegs(c.rv64, c.regs, i.rd, v);
      case None =>
    }
  }

  lemma MemFrame<W>(env: Env<W>, c: Core<W>, i: Inst)
    requires RegsOk(c.rv64, c.regs) && !ExecMem(env, c, i).MemDevice?
    ensures Frame(c, ExecMem(env, c, i).core)
  {
    hide RegsOk, RaiseTrap, Write, Read, EffectiveAddress;
    var va := EffectiveAddress(c, i);
    match env.translate(c.world, CtxOf(c), va, AccessOf(i)) {
      case Fault(code) => TrapFrame(c, code, va);
      case Ok(pa, w) =>
        if i.op == OpStore {
          match env.store(w, pa, i, Read(c.regs, i.rs2)) {
            case Done(_) =>
            case StoreOut(addr, w') => TrapFrame(c.(world := w'), 7, addr);
          }
        } else {
          match env.load(w, pa, i) {
            case Value(v, _) => WriteKeepsRegs(c.rv64, c.regs, i.rd, v);
            case LoadOut(addr, w') =>
              WriteKeepsRegs(c.rv64, c.regs, i.rd, 0);
              TrapFrame(c.(world := w', regs := Write(c.rv64, c.regs, i.rd, 0)), 5, addr);
          }
        }
    }
  }

  lemma ExecFrame<W>(env: Env<W>, c: Core<W>, i: Inst, ilen: Word)
    requires RegsOk(c.rv64, c.regs)
    ensures var o := ExecOne(env, c, i, ilen); (o.Retired? || o.Trapped?) ==> Frame(c, o.core)
  {
    hide RegsOk, Write, Read, ExecMem, ExecAlu, Retire, Plus, BranchTaken, AluResult;
    var fall := Plus(c.pc, ilen);
    if IsAlu(i) {
      AluFrame(env, c, i);
      RetireFrame(ExecAlu(env, c, i).core, fall);
    } else if IsMem(i) {
      var o := ExecMem(env, c, i);
      if !o.MemDevice? {
        MemFrame(env, c, i);
        RetireFrame(o.core, fall);
      }
    } else {
      JumpFrame(env, c, i, ilen);
    }
  }

  lemma JumpFrame<W>(env: Env<W>, c: Core<W>, i: Inst, ilen: Word)
    requires RegsOk(c.rv64, c.regs) && !IsAlu(i) && !IsMem(i)
    ensures var o := ExecOne(env, c, i, ilen); (o.Retired? || o.Trapped?) ==> Frame(c, o.core)
  {
    hide RegsOk, Write, Read, Retire, Plus, BranchTaken, Frame;
    var fall := Plus(c.pc, ilen);
    if i.op == OpLui {
      LinkFrame(c, i.rd, i.immU, fall);
    } else if i.op == OpAuipc {
      LinkFrame(c, i.rd, Plus(c.pc, i.immU), fall);
    } else if i.op == OpJal {
      LinkFrame(c, i.rd, fall, Plus(c.pc, i.immJ));
    } else if i.op == OpJalr {
      var sum := Plus(Read(c.regs, i.rs1), i.immI);
      LinkFrame(c, i.rd, fall, sum - sum % 2);
    } else {
      RetireFrame(c, fall);
      RetireFrame(c, Plus(c.pc, i.immB));
    }
  }

  /** Write a register and go on at `next`. */
  lemma LinkFrame<W>(c: Core<W>, rd: Reg, v: Word, next: Word)
    requires RegsOk(c.rv64, c.regs)
    ensures Frame(c, Retire(c.(regs := Write(c.rv64, c.regs, rd, v)), next).core)
  {
    hide RegsOk, Write, Retire;
    WriteKeepsRegs(c.rv64, c.regs, rd, v);
    RetireFrame(c.(regs := Write(c.rv64, c.regs, rd, v)), next);
  }
}
