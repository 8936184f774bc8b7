/** The program counter stays in its stored form (even, sign-extended on RV32) through every step,
    under exactly the condition on the trap vectors that makes it so. */
module JitPc {
  import opened RvWords
  import opened Rv
  import opened Machine
  import opened RvFrame
  import opened JitLaws

  // ---- Trap entries -----------------------------------------------------------------------

  /** Where a trap entry on RV32 is in stored form: everywhere, except that enter_trap does not extend
      the sum of a vectored entry, so an entry on the other side of 2 GiB from its base is not. */
  lemma TrapEntryStored(tvec: Word, cause: Cause)
    requires Sext32(tvec) == tvec && cause.code < 16
    ensures Sext32(TrapEntry(tvec, cause)) == TrapEntry(tvec, cause)
       <==> !(cause.interrupt && tvec % 2 == 1 && TrapBase(tvec) < 0x8000_0000 <= TrapBase(tvec) + 4 * cause.code)
  {
    hide Sext32;
    StoredWord(tvec);
    StoredWord(TrapEntry(tvec, cause));
    BaseBounds(tvec);
    hide TrapBase;
    if cause.interrupt && tvec % 2 == 1 { EntryValue(TrapBase(tvec), 4 * cause.code); }
  }

  /** The sign-extended 32-bit words. */
  lemma StoredWord(x: Word)
    ensures Sext32(x) == x <==> x < 0x8000_0000 || x >= 0x1_0000_0000_0000_0000 - 0x8000_0000
  {
  }

  lemma BaseBounds(tvec: Word)
    ensures TrapBase(tvec) <= tvec < TrapBase(tvec) + 4 && TrapBase(tvec) % 4 == 0
  {
  }

  /** The 64-bit sum, whether or not it wraps. */
  lemma EntryValue(base: Word, off: nat)
    requires off <= 60
    ensures (base + off) % 0x1_0000_0000_0000_0000 == if base + off < 0x1_0000_0000_0000_0000 then base + off else base + off - 0x1_0000_0000_0000_0000
  {
  }

  /** A handler table just below 2 GiB: the machine timer's entry is past it. */
  lemma TrapEntryEscapes()
    ensures Sext32(0x7fff_fff1) == 0x7fff_fff1
    ensures TrapEntry(0x7fff_fff1, Cause(true, 7)) == 0x8000_000c
    ensures Sext32(0x8000_000c) != 0x8000_000c
  {
  }

  lemma EvenEntry(tvec: Word, cause: Cause)
    ensures TrapEntry(tvec, cause) % 2 == 0 && TrapBase(tvec) % 2 == 0
  {
  }

  lemma EntryStored(rv64: bool, tvec: Word, cause: Cause)
    requires TvecOk(rv64, tvec) && (cause.interrupt ==> cause.code < 12)
    ensures TrapEntry(tvec, cause) % 2 == 0 && SextX(rv64, TrapEntry(tvec, cause)) == TrapEntry(tvec, cause)
  {
    EvenEntry(tvec, cause);
    if !rv64 {
      hide Sext32;
      TrapEntryStored(tvec, if cause.interrupt then cause else Cause(false, 0));
    }
  }

  lemma EnterKeepsPc<W>(c: Core<W>, cause: Cause, tval: Word, toS: bool)
    requires VectorsOk(c) && (cause.interrupt ==> cause.code < 12)
    ensures PcOk(EnterTrap(c, cause, tval, toS))
  {
    hide TrapEntry, TvecOk, SextX;
    EntryStored(c.rv64, if toS then c.csr.stvec else c.csr.mtvec, cause);
  }

  lemma TrapKeepsPc<W>(c: Core<W>, code: nat, tval: Word)
    requires PcOk(c) && VectorsOk(c)
    ensures PcOk(RaiseTrap(c, code, tval))
  {
    hide EnterTrap, TvecOk, SextX;
    EnterKeepsPc(c, Cause(false, code), tval, c.priv <= 1 && code in c.csr.medeleg);
  }

  // ---- Instructions -----------------------------------------------------------------------

  lemma RetireKeepsPc<W>(c: Core<W>, next: Word)
    requires PcOk(c) && VectorsOk(c)
    ensures PcOk(Retire(c, next).core)
  {
    hide RaiseTrap, VectorsOk;
    TrapKeepsPc(c, 0, next);
    if next % 2 == 0 {
      SextXTwice(c.rv64, next);
      EvenSext(c.rv64, next);
    }
  }

  lemma EvenSext(rv64: bool, v: Word)
    requires v % 2 == 0
    ensures SextX(rv64, v) % 2 == 0
  {
  }

  lemma AluKeepsPc<W>(env: Env<W>, c: Core<W>, i: Inst)
    requires PcOk(c) && VectorsOk(c)
    ensures var o := ExecAlu(env, c, i); (o.Retired? || o.Trapped?) && PcOk(o.core) && VectorsOk(o.core)
  {
    hide AluResult, RaiseTrap, Read, Write, SextX, TvecOk;
    TrapKeepsPc(c, 2, i.raw);
    TrapKeepsVectors(c, 2, i.raw);
  }

  lemma TrapKeepsVectors<W>(c: Core<W>, code: nat, tval: Word)
    requires VectorsOk(c)
    ensures VectorsOk(RaiseTrap(c, code, tval))
  {
    hide TvecOk;
  }

  lemma MemKeepsPc<W>(env: Env<W>, c: Core<W>, i: Inst)
    requires PcOk(c) && VectorsOk(c)
    ensures var o := ExecMem(env, c, i); !o.MemDevice? ==> PcOk(o.core) && (o.MemOk? ==> VectorsOk(o.core))
  {
    hide RaiseTrap, Read, Write, SextX, TvecOk, EffectiveAddress;
    var va := EffectiveAddress(c, i);
    match env.translate(c.world, CtxOf(c), va, AccessOf(i)) {
      case Fault(code) => TrapKeepsPc(c, code, va);
      case Ok(pa, w) =>
        if i.op == OpStore {
          match env.store(w, pa, i, Read(c.regs, i.rs2)) {
            case Done(_) =>
            case StoreOut(addr, w') => TrapKeepsPc(c.(world := w'), 7, addr);
          }
        } else {
          match env.load(w, pa, i) {
            case Value(_, _) =>
            case LoadOut(addr, w') => TrapKeepsPc(c.(world := w', regs := Write(c.rv64, c.regs, i.rd, 0)), 5, addr);
          }
        }
    }
  }

  lemma LinkKeepsPc<W>(c: Core<W>, rd: Reg, v: Word, next: Word)
    requires PcOk(c) && VectorsOk(c)
    ensures PcOk(Retire(c.(regs := Write(c.rv64, c.regs, rd, v)), next).core)
  {
    hide Write, Retire, SextX, TvecOk;
    RetireKeepsPc(c.(regs := Write(c.rv64, c.regs, rd, v)), next);
  }

  lemma ExecKeepsPc<W>(env: Env<W>, c: Core<W>, i: Inst, ilen: Word)
    requires PcOk(c) && VectorsOk(c)
    ensures var o := ExecOne(env, c, i, ilen); o.Retired? || o.Trapped? ==> PcOk(o.core)
  {
    hide Write, Read, Retire, ExecAlu, ExecMem, Plus, BranchTaken, VectorsOk, PcOk;
    var fall := Plus(c.pc, ilen);
    if IsAlu(i) {
      AluKeepsPc(env, c, i);
      RetireKeepsPc(ExecAlu(env, c, i).core, fall);
    } else if IsMem(i) {
      MemKeepsPc(env, c, i);
      var o := ExecMem(env, c, i);
      if o.MemOk? { RetireKeepsPc(o.core, fall); }
    } else if i.op == OpLui {
      LinkKeepsPc(c, i.rd, i.immU, fall);
    } else if i.op == OpAuipc {
      LinkKeepsPc(c, i.rd, Plus(c.pc, i.immU), fall);
    } else if i.op == OpJal {
      LinkKeepsPc(c, i.rd, fall, Plus(c.pc, i.immJ));
    } else if i.op == OpJalr {
      var sum := Plus(Read(c.regs, i.rs1), i.immI);
      LinkKeepsPc(c, i.rd, fall, sum - sum % 2);
    } else {
      RetireKeepsPc(c, fall);
      RetireKeepsPc(c, Plus(c.pc, i.immB));
    }
  }

  // ---- Whole steps ------------------------------------------------------------------------

  lemma TakenCode<W>(m: Machine<W>)
    ensures var t := Taken(m); t.Some? ==> t.value.0 < 12
  {
  }

  lemma DeviceKeeps<W(!new)>(sys: Sys<W>, m: Machine<W>, i: Inst, ilen: Word)
    requires OthersLaw(sys)
    ensures Keeps(m, DeviceAccess(sys, m, i, ilen))
  {
    hide Keeps, EffectiveAddress;
    match sys.env.translate(m.core.world, CtxOf(m.core), EffectiveAddress(m.core, i), AccessOf(i)) {
      case Fault(_) => KeepsSelf(m, m.core.world);
      case Ok(pa, w) =>
        var m' := m.(core := m.core.(world := w));
        assert Keeps(m', sys.device(m', pa, i, ilen));
        KeepsFrom(m, w, sys.device(m', pa, i, ilen));
    }
  }

  lemma KeepsSelf<W>(m: Machine<W>, w: W)
    ensures Keeps(m, m.(core := m.core.(world := w))) && Keeps(m, m)
  {
    hide RegsOk, SextX, TvecOk;
  }

  lemma KeepsFrom<W>(m: Machine<W>, w: W, m': Machine<W>)
    requires Keeps(m.(core := m.core.(world := w)), m')
    ensures Keeps(m, m')
  {
    hide RegsOk, SextX, TvecOk;
  }

  /** Executing a fetched instruction keeps the registers and the pc in stored form. */
  lemma ExecFetchedKeeps<W(!new)>(sys: Sys<W>, m: Machine<W>, i: Inst, ilen: Word)
    requires OthersLaw(sys) && RegsOk(m.core.rv64, m.core.regs)
    ensures Keeps(m, ExecFetched(sys, m, i, ilen))
  {
    hide RegsOk, SextX, TvecOk, ExecOne, PcOk, VectorsOk;
    ExecFrame(sys.env, m.core, i, ilen);
    if PcOk(m.core) && VectorsOk(m.core) { ExecKeepsPc(sys.env, m.core, i, ilen); }
    DeviceKeeps(sys, m, i, ilen);
    assert Keeps(m, sys.other(m, i, ilen));
  }

  lemma ExecStepKeeps<W(!new)>(sys: Sys<W>, m: Machine<W>)
    requires OthersLaw(sys) && RegsOk(m.core.rv64, m.core.regs)
    ensures Keeps(m, ExecStep(sys, m))
  {
    hide RegsOk, ExecFetched, FetchAt, OthersLaw, Keeps;
    match FetchCore(sys, m.core) {
      case FetchTrap(code, tval, w) => TrapKeeps(m, w, code, tval);
      case Fetched(i, ilen, w) =>
        ExecFetchedKeeps(sys, m.(core := m.core.(world := w)), i, ilen);
        KeepsFrom(m, w, ExecFetched(sys, m.(core := m.core.(world := w)), i, ilen));
    }
  }

  lemma TrapKeeps<W>(m: Machine<W>, w: W, code: nat, tval: Word)
    requires RegsOk(m.core.rv64, m.core.regs)
    ensures Keeps(m, m.(core := RaiseTrap(m.core.(world := w), code, tval)))
  {
    hide RegsOk, RaiseTrap, SextX, TvecOk;
    var c := m.core.(world := w);
    TrapFrame(c, code, tval);
    if PcOk(c) && VectorsOk(c) { TrapKeepsPc(c, code, tval); }
  }

  /** Every step keeps the registers sign-extended and, under the vector condition, the pc. */
  lemma StepKeeps<W(!new)>(sys: Sys<W>, m: Machine<W>)
    requires OthersLaw(sys) && RegsOk(m.core.rv64, m.core.regs)
    ensures Keeps(m, Step(sys, m))
  {
    hide RegsOk, ExecStep, OthersLaw, SextX, TvecOk, EnterTrap, Taken;
    match PreStep(m) {
      case Consumed(_) =>
        var s := Sync(m);
        var t := Taken(s);
        TakenCode(s);
        if t.Some? {
          EnterKeepsRegs(s.core, Cause(true, t.value.0), t.value.1);
          if VectorsOk(m.core) { EnterKeepsPc(s.core, Cause(true, t.value.0), 0, t.value.1); }
        }
      case Proceed(s) => ExecStepKeeps(sys, s);
    }
  }

  lemma EnterKeepsRegs<W>(c: Core<W>, cause: Cause, toS: bool)
    ensures var d := EnterTrap(c, cause, 0, toS); d.regs == c.regs && d.rv64 == c.rv64
  {
  }
}
