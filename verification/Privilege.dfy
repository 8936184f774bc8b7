/** Privilege (cpu.c: enter_trap, raise_trap, exec_csr, csr_write, exec_mret, exec_sret; sbi.c:
    sbi_hsm, hsm_enter): how a hart's privilege can rise, and who may change the machine-mode
    trap set-up.  Control and status registers are given by their fields, as in `Rv`. */
module Privilege {
  import opened Words
  import opened RvWords
  import opened Rv
  import opened Machine
  import opened RvFrame

  datatype Hsm = Started | Stopped

  /** A hart with its firmware lifecycle state. */
  datatype Hart<W> = Hart(m: Machine<W>, hsm: Hsm)

  // ---- CSR instructions -------------------------------------------------------------------

  /** The registers a CSR instruction can write, with the new contents; anything else is stored
      outside this model. */
  datatype CsrWrite =
    | Mstatus(status: Status) | Medeleg(causes: set<nat>) | Mideleg(irqs: Irqs) | Mie(irqs: Irqs) | Mtvec(v: Word)
    | Menvcfg(stce: bool) | Mepc(v: Word) | Mcause(cause: Cause) | Mtval(v: Word) | Mip(irqs: Irqs)
    | Sstatus(status: Status) | Sie(irqs: Irqs) | Stvec(v: Word) | Sepc(v: Word) | Scause(cause: Cause) | Stval(v: Word)
    | Sip(irqs: Irqs) | Stimecmp(t: nat) | Satp(v: Word) | Elsewhere(addr: nat)

  function AddressOf(w: CsrWrite): nat {
    match w
    case Mstatus(_) => 0x300
    case Medeleg(_) => 0x302
    case Mideleg(_) => 0x303
    case Mie(_) => 0x304
    case Mtvec(_) => 0x305
    case Menvcfg(_) => 0x30a
    case Mepc(_) => 0x341
    case Mcause(_) => 0x342
    case Mtval(_) => 0x343
    case Mip(_) => 0x344
    case Sstatus(_) => 0x100
    case Sie(_) => 0x104
    case Stvec(_) => 0x105
    case Sepc(_) => 0x141
    case Scause(_) => 0x142
    case Stval(_) => 0x143
    case Sip(_) => 0x144
    case Stimecmp(_) => 0x14d
    case Satp(_) => 0x180
    case Elsewhere(addr) => addr
  }

  function LowestPrivilege(addr: nat): nat { addr / 256 % 4 }
  predicate ReadOnly(addr: nat) { addr / 1024 % 4 == 3 }
  predicate Rv32Only(addr: nat) { addr in {0xc80, 0xc81, 0xc82, 0x310, 0x31a, 0x15d} }

  /** The bits of an S-mode view written back into the M-mode register. */
  function SView(irqs: Irqs, v: Irqs): Irqs { irqs.(ssoft := v.ssoft, stimer := v.stimer, sext := v.sext) }

  function CsrStore<W>(m: Machine<W>, w: CsrWrite, satpOk: bool): Machine<W> {
    var c := m.core.csr;
    match w
    case Mip(irqs) => m.(mip := irqs)
    case Sip(irqs) => m.(mip := SView(m.mip, irqs))
    case _ =>
      m.(core := m.core.(csr :=
        match w
        case Mstatus(s) => c.(mstatus := s)
        case Medeleg(d) => c.(medeleg := d)
        case Mideleg(d) => c.(mideleg := d)
        case Mie(e) => c.(mie := e)
        case Mtvec(v) => c.(mtvec := v)
        case Menvcfg(b) => c.(stce := b)
        case Mepc(v) => c.(mepc := v)
        case Mcause(x) => c.(mcause := x)
        case Mtval(v) => c.(mtval := v)
        case Sstatus(s) =>
          c.(mstatus := c.mstatus.(sie := s.sie, spie := s.spie, spp := s.spp, fs := s.fs, sum := s.sum, mxr := s.mxr))
        case Sie(e) => c.(mie := SView(c.mie, e))
        case Stvec(v) => c.(stvec := v)
        case Sepc(v) => c.(sepc := v)
        case Scause(x) => c.(scause := x)
        case Stval(v) => c.(stval := v)
        case Stimecmp(t) => c.(stimecmp := t)
        case Satp(v) => if satpOk then c.(satp := v) else c
        case _ => c))
  }

  /** Is the access refused? */
  predicate CsrDenied<W>(c: Core<W>, addr: nat, writes: bool) {
    || c.priv < LowestPrivilege(addr)
    || (writes && ReadOnly(addr))
    || (c.rv64 && Rv32Only(addr))
    || ((addr == 0x14d || addr == 0x15d) && c.priv == 1 && !c.csr.stce)
  }

  // ---- Steps ------------------------------------------------------------------------------

  /** What one hart does in one step, as far as privilege is concerned. */
  datatype Event =
    | Integer(i: Inst, ilen: Word)                      // an instruction of the integer core
    | Access(i: Inst, ilen: Word, v: Word, plat: Plat)   // a device access: the value read, the platform after it
    | Exception(code: nat, tval: Word)                  // any synchronous trap other than an environment call
    | Interrupt                                         // the pending interrupt, if one is deliverable
    | CsrRead(addr: nat, raw: Word)
    | CsrUpdate(w: CsrWrite, satpOk: bool, raw: Word)    // satpOk: the scheme selected is supported
    | Mret
    | Sret
    | EcallTrap                                         // environment call with a handler installed
    | HartStart(target: nat, pc: Word)                  // firmware calls, with no handler installed
    | HartStop
    | HartResume(pc: Word)                              // non-retentive suspend

  function MapCore<W>(h: Hart<W>, c: Core<W>): Hart<W> { h.(m := h.m.(core := c)) }

  function ExecMret<W>(c: Core<W>): Core<W> {
    if c.priv < 3 then RaiseTrap(c, 2, 0)
    else
      var s := c.csr.mstatus;
      var s' := s.(mie := s.mpie, mpie := true, mpp := 0, mprv := s.mprv && s.mpp == 3);
      c.(csr := c.csr.(mstatus := s'), priv := s.mpp, pc := c.csr.mepc)
  }

  function ExecSret<W>(c: Core<W>): Core<W> {
    if c.priv < 1 then RaiseTrap(c, 2, 0)
    else
      var s := c.csr.mstatus;
      var s' := s.(sie := s.spie, spie := true, spp := false, mprv := false);
      c.(csr := c.csr.(mstatus := s'), priv := if s.spp then 1 else 0, pc := c.csr.sepc)
  }

  /** hsm_enter: bring a hart up in S-mode with paging and supervisor interrupts off. */
  function Enter<W>(h: Hart<W>, pc: Word): Hart<W> {
    var c := h.m.core;
    var csr := c.csr.(satp := 0, mstatus := c.csr.mstatus.(sie := false));
    Hart(h.m.(core := c.(pc := pc, priv := 1, csr := csr, halt := Running)), Started)
  }

  function AfterOne<W>(c: Core<W>, o: Outcome<W>): Core<W> { if o.Retired? || o.Trapped? then o.core else c }

  /** The stepping hart. */
  function Own<W>(env: Env<W>, h: Hart<W>, e: Event): Hart<W> {
    var c := h.m.core;
    match e
    case Integer(i, ilen) => MapCore(h, AfterOne(c, ExecOne(env, c, i, ilen)))
    case Access(i, ilen, v, plat) =>
      var c' := c.(plat := plat, regs := if i.op == OpLoad then Write(c.rv64, c.regs, i.rd, v) else c.regs);
      MapCore(h, Retire(c', Plus(c.pc, ilen)).core)
    case Exception(code, tval) => MapCore(h, RaiseTrap(c, code, tval))
    case Interrupt =>
      var s := Sync(h.m);
      (match Taken(s)
       case Some((irq, toS)) => h.(m := s.(core := EnterTrap(s.core, Cause(true, irq), 0, toS)))
       case None => h.(m := s))
    case CsrRead(addr, raw) => if CsrDenied(c, addr, false) then MapCore(h, RaiseTrap(c, 2, raw)) else h
    case CsrUpdate(w, ok, raw) =>
      if CsrDenied(c, AddressOf(w), true) then MapCore(h, RaiseTrap(c, 2, raw)) else h.(m := CsrStore(h.m, w, ok))
    case Mret => MapCore(h, ExecMret(c))
    case Sret => MapCore(h, ExecSret(c))
    case EcallTrap => MapCore(h, RaiseTrap(c, 8 + c.priv, 0))
    case HartStop => if c.priv == 1 then Hart(h.m.(core := c.(halt := HaltExit)), Stopped) else h
    case HartResume(pc) => if c.priv == 1 then Enter(h, pc) else h
    case HartStart(_, _) => h
  }

  /** A step of hart i: itself, and the hart it may start.  A stopped hart's slot does nothing.  The
      firmware calls reach the firmware only from S-mode. */
  function HartStep<W>(env: Env<W>, harts: seq<Hart<W>>, i: nat, e: Event): seq<Hart<W>>
    requires i < |harts|
  {
    if harts[i].hsm == Stopped then harts
    else if e.HartStart? && harts[i].m.core.priv == 1 && e.target < |harts| && harts[e.target].hsm == Stopped
    then harts[e.target := Enter(harts[e.target], e.pc)]
    else harts[i := Own(env, harts[i], e)]
  }

  // ---- What is promised -------------------------------------------------------------------

  /** Entry k of the trap vector. */
  function Vector(tvec: Word, k: nat): Word { (tvec - tvec % 4 + 4 * k) % W64 }

  /** The hart has just entered a trap handler: its pc is the vector of the mode it is now in. */
  predicate InHandler<W>(c: Core<W>) {
    var tvec := if c.priv == 3 then c.csr.mtvec else c.csr.stvec;
    (c.priv == 1 || c.priv == 3) && exists k :: 0 <= k < 12 && c.pc == Vector(tvec, k)
  }

  /** The machine-mode trap set-up. */
  predicate SameMachineMode<W>(c: Core<W>, d: Core<W>) {
    && c.csr.mtvec == d.csr.mtvec && c.csr.mepc == d.csr.mepc && c.csr.mcause == d.csr.mcause && c.csr.mtval == d.csr.mtval
    && c.csr.medeleg == d.csr.medeleg && c.csr.mideleg == d.csr.mideleg && c.csr.stce == d.csr.stce
  }

  /** Privilege rises only by entering a handler, and a hart below machine mode that stays below it
      leaves the machine-mode set-up alone. */
  predicate Protected<W>(c: Core<W>, d: Core<W>) {
    && (d.priv > c.priv ==> InHandler(d))
    && (c.priv < 3 && d.priv < 3 ==> SameMachineMode(c, d))
  }

  /** Firmware parks a hart only in S-mode. */
  predicate Parked<W>(harts: seq<Hart<W>>) {
    forall j :: 0 <= j < |harts| && harts[j].hsm == Stopped ==> harts[j].m.core.priv == 1
  }

  // ---- Traps ------------------------------------------------------------------------------

  /** Entering a trap never lowers privilege, lands on the vector, and touches the machine-mode
      registers only when it enters machine mode. */
  lemma EnterTrapSafe<W>(c: Core<W>, cause: Cause, tval: Word, toS: bool)
    requires (toS ==> c.priv <= 1) && cause.code < 12
    ensures var d := EnterTrap(c, cause, tval, toS);
      && d.priv >= c.priv && d.priv == (if toS then 1 else 3) && InHandler(d)
      && (toS ==> SameMachineMode(c, d))
      && (if toS then d.csr.sepc == c.pc && d.csr.scause == cause else d.csr.mepc == c.pc && d.csr.mcause == cause)
  {
    var d := EnterTrap(c, cause, tval, toS);
    var tvec := if toS then c.csr.stvec else c.csr.mtvec;
    var k := if cause.interrupt && tvec % 2 == 1 then cause.code else 0;
    assert d.pc == Vector(tvec, k);
  }

  lemma RaiseTrapProtects<W>(c: Core<W>, code: nat, tval: Word)
    ensures Protected(c, RaiseTrap(c, code, tval))
  {
    hide EnterTrap, InHandler;
    var toS := c.priv <= 1 && code in c.csr.medeleg;
    EnterTrapSafeAny(c, Cause(false, code), tval, toS);
  }

  /** For exceptions the cause number does not enter the vector. */
  lemma EnterTrapSafeAny<W>(c: Core<W>, cause: Cause, tval: Word, toS: bool)
    requires (toS ==> c.priv <= 1) && !cause.interrupt
    ensures var d := EnterTrap(c, cause, tval, toS);
      d.priv >= c.priv && d.priv == (if toS then 1 else 3) && InHandler(d) && (toS ==> SameMachineMode(c, d))
  {
    var d := EnterTrap(c, cause, tval, toS);
    var tvec := if toS then c.csr.stvec else c.csr.mtvec;
    assert d.pc == Vector(tvec, 0);
  }

  lemma InterruptProtects<W>(m: Machine<W>)
    ensures var s := Sync(m); var t := Taken(s);
      t.Some? ==> Protected(m.core, EnterTrap(s.core, Cause(true, t.value.0), 0, t.value.1))
  {
    hide EnterTrap, InHandler;
    var s := Sync(m);
    var t := Taken(s);
    if t.Some? {
      TakenGate(s);
      EnterTrapSafe(s.core, Cause(true, t.value.0), 0, t.value.1);
    }
  }

  lemma TakenGate<W>(s: Machine<W>)
    ensures var t := Taken(s); t.Some? ==> t.value.0 < 12 && (t.value.1 ==> s.core.priv <= 1)
  {
  }

  lemma CsrStoreProtects<W>(m: Machine<W>, w: CsrWrite, ok: bool)
    requires !CsrDenied(m.core, AddressOf(w), true)
    ensures Protected(m.core, CsrStore(m, w, ok).core) && CsrStore(m, w, ok).core.priv == m.core.priv
  {
    hide InHandler;
  }

  lemma ReturnsProtect<W>(c: Core<W>)
    ensures Protected(c, ExecMret(c)) && Protected(c, ExecSret(c))
  {
    hide InHandler, RaiseTrap;
    RaiseTrapProtects(c, 2, 0);
  }

  /** A handler's return undoes the trap: pc, privilege and the interrupt enable come back, and no
      other enable or delegation has moved. */
  lemma MachineTrapReturns<W>(c: Core<W>, cause: Cause, tval: Word)
    ensures var d := ExecMret(EnterTrap(c, cause, tval, false));
      && d.pc == c.pc && d.priv == c.priv && d.regs == c.regs
      && d.csr.mstatus == c.csr.mstatus.(mpie := true, mpp := 0, mprv := c.csr.mstatus.mprv && c.priv == 3)
      && d.csr.mie == c.csr.mie && d.csr.mideleg == c.csr.mideleg && d.csr.medeleg == c.csr.medeleg
  {
    hide TrapEntry;
  }

  lemma SupervisorTrapReturns<W>(c: Core<W>, cause: Cause, tval: Word)
    requires c.priv <= 1
    ensures var d := ExecSret(EnterTrap(c, cause, tval, true));
      && d.pc == c.pc && d.priv == c.priv && d.regs == c.regs
      && d.csr.mstatus == c.csr.mstatus.(spie := true, spp := false, mprv := false)
      && SameMachineMode(c, d)
  {
    hide TrapEntry;
  }

  // ---- The integer core -------------------------------------------------------------------

  lemma SameIsProtected<W>(c: Core<W>, d: Core<W>)
    requires d.csr == c.csr && d.priv == c.priv
    ensures Protected(c, d)
  {
    hide InHandler;
  }

  lemma TrapFromProtects<W>(c: Core<W>, d: Core<W>, code: nat, tval: Word)
    requires d.csr == c.csr && d.priv == c.priv
    ensures Protected(c, RaiseTrap(d, code, tval))
  {
    hide InHandler, RaiseTrap;
    RaiseTrapProtects(d, code, tval);
  }

  lemma RetireProtects<W>(c: Core<W>, d: Core<W>, next: Word)
    requires d.csr == c.csr && d.priv == c.priv
    ensures Protected(c, Retire(d, next).core)
  {
    hide InHandler, RaiseTrap, SextX;
    if next % 2 == 1 { TrapFromProtects(c, d, 0, next); } else { SameIsProtected(c, Retire(d, next).core); }
  }

  lemma MemProtects<W>(env: Env<W>, c: Core<W>, i: Inst)
    ensures var o := ExecMem(env, c, i); o.MemTrap? ==> Protected(c, o.core)
    ensures var o := ExecMem(env, c, i); o.MemOk? ==> o.core.csr == c.csr && o.core.priv == c.priv
  {
    hide InHandler, RaiseTrap, Read, Write, EffectiveAddress;
    var va := EffectiveAddress(c, i);
    match env.translate(c.world, CtxOf(c), va, AccessOf(i)) {
      case Fault(code) => TrapFromProtects(c, c, code, va);
      case Ok(pa, w) =>
        var s, l := env.store(w, pa, i, Read(c.regs, i.rs2)), env.load(w, pa, i);
        if s.StoreOut? { TrapFromProtects(c, c.(world := s.world), 7, s.addr); }
        if l.LoadOut? { TrapFromProtects(c, c.(world := l.world, regs := Write(c.rv64, c.regs, i.rd, 0)), 5, l.addr); }
    }
  }

  lemma AluProtects<W>(env: Env<W>, c: Core<W>, i: Inst)
    ensures var o := ExecAlu(env, c, i);
      if o.Retired? then o.core.csr == c.csr && o.core.priv == c.priv else o.Trapped? && Protected(c, o.core)
  {
    hide InHandler, RaiseTrap, Read, Write, AluResult;
    TrapFromProtects(c, c, 2, i.raw);
  }

  lemma WriteProtects<W>(c: Core<W>, rd: Reg, v: Word, next: Word)
    ensures Protected(c, Retire(c.(regs := Write(c.rv64, c.regs, rd, v)), next).core)
  {
    hide InHandler, Retire, Write;
    RetireProtects(c, c.(regs := Write(c.rv64, c.regs, rd, v)), next);
  }

  /** No instruction of the integer core raises privilege except by trapping, nor touches the
      machine-mode set-up. */
  lemma IntegerProtects<W>(env: Env<W>, c: Core<W>, i: Inst, ilen: Word)
    ensures Protected(c, AfterOne(c, ExecOne(env, c, i, ilen)))
  {
    hide InHandler, ExecOne, Protected;
    var o := ExecOne(env, c, i, ilen);
    if o.Retired? {
      RetiredKeeps(env, c, i, ilen);
      SameIsProtected(c, o.core);
    } else if o.Trapped? {
      TrappedProtects(env, c, i, ilen);
    } else {
      SameIsProtected(c, c);
    }
  }

  lemma TrappedProtects<W>(env: Env<W>, c: Core<W>, i: Inst, ilen: Word)
    requires ExecOne(env, c, i, ilen).Trapped?
    ensures Protected(c, ExecOne(env, c, i, ilen).core)
  {
    hide InHandler, Retire, Read, Write, Plus, BranchTaken, ExecAlu, ExecMem, Protected;
    var fall := Plus(c.pc, ilen);
    if IsAlu(i) {
      AluProtects(env, c, i);
      var o := ExecAlu(env, c, i);
      if o.Retired? { RetireProtects(c, o.core, fall); }
    } else if IsMem(i) {
      MemProtects(env, c, i);
      var o := ExecMem(env, c, i);
      if o.MemOk? { RetireProtects(c, o.core, fall); }
    } else if i.op == OpJal || i.op == OpJalr || i.op == OpLui || i.op == OpAuipc {
      var sum := Plus(Read(c.regs, i.rs1), i.immI);
      WriteProtects(c, i.rd, i.immU, fall);
      WriteProtects(c, i.rd, Plus(c.pc, i.immU), fall);
      WriteProtects(c, i.rd, fall, Plus(c.pc, i.immJ));
      WriteProtects(c, i.rd, fall, sum - sum % 2);
    } else {
      RetireProtects(c, c, fall);
      RetireProtects(c, c, Plus(c.pc, i.immB));
    }
  }

  // ---- The interpreter's run --------------------------------------------------------------

  /** Devices and the instructions outside the integer core, of which `OwnProtects` covers the
      privileged ones, keep the promise. */
  ghost predicate OthersProtect<W(!new)>(sys: Sys<W>) {
    && (forall m: Machine<W>, i, ilen :: Protected(m.core, sys.other(m, i, ilen).core))
    && (forall m: Machine<W>, pa, i, ilen :: Protected(m.core, sys.device(m, pa, i, ilen).core))
  }

  lemma WorldProtects<W>(c: Core<W>, w: W, d: Core<W>)
    requires Protected(c.(world := w), d)
    ensures Protected(c, d)
  {
    hide InHandler;
  }

  lemma FetchedProtects<W(!new)>(sys: Sys<W>, m: Machine<W>, i: Inst, ilen: Word)
    requires OthersProtect(sys)
    ensures Protected(m.core, ExecFetched(sys, m, i, ilen).core)
  {
    hide Protected, ExecOne, EffectiveAddress;
    IntegerProtects(sys.env, m.core, i, ilen);
    match ExecOne(sys.env, m.core, i, ilen) {
      case Device =>
        var t := sys.env.translate(m.core.world, CtxOf(m.core), EffectiveAddress(m.core, i), AccessOf(i));
        if t.Ok? {
          var m' := m.(core := m.core.(world := t.world));
          assert Protected(m'.core, sys.device(m', t.pa, i, ilen).core);
          WorldProtects(m.core, t.world, sys.device(m', t.pa, i, ilen).core);
        } else {
          SameIsProtected(m.core, m.core);
        }
      case Other => assert Protected(m.core, sys.other(m, i, ilen).core);
      case _ =>
    }
  }

  /** Every step of the interpreter keeps the promise. */
  lemma StepProtected<W(!new)>(sys: Sys<W>, m: Machine<W>)
    requires OthersProtect(sys)
    ensures Protected(m.core, Step(sys, m).core)
  {
    hide Protected, OthersProtect, FetchAt, ExecFetched, RaiseTrap, EnterTrap, Taken;
    InterruptProtects(m);
    match PreStep(m) {
      case Consumed(m') => if m.core.plat.poweroff { SameIsProtected(m.core, m'.core); }
      case Proceed(s) =>
        match FetchCore(sys, s.core) {
          case FetchTrap(code, tval, w) => TrapFromProtects(m.core, s.core.(world := w), code, tval);
          case Fetched(i, ilen, w) =>
            FetchedProtects(sys, s.(core := s.core.(world := w)), i, ilen);
            WorldProtects(s.core, w, ExecFetched(sys, s.(core := s.core.(world := w)), i, ilen).core);
        }
    }
  }

  /** Over any run of the interpreter, code that stays below machine mode leaves the machine-mode set-up
      as it found it. */
  lemma {:induction false} StepsProtect<W(!new)>(sys: Sys<W>, m: Machine<W>, n: nat)
    requires OthersProtect(sys) && forall j :: 0 <= j <= n ==> Steps(sys, m, j).core.priv < 3
    ensures SameMachineMode(m.core, Steps(sys, m, n).core)
  {
    hide Step, OthersProtect, InHandler;
    if n > 0 {
      StepsProtect(sys, m, n - 1);
      var x := Steps(sys, m, n - 1);
      assert Steps(sys, m, n).core.priv < 3 && x.core.priv < 3;
      StepProtected(sys, Tick(x));
    }
  }

  // ---- Every step, every run --------------------------------------------------------------

  lemma OwnProtects<W>(env: Env<W>, h: Hart<W>, e: Event)
    ensures Protected(h.m.core, Own(env, h, e).m.core)
    ensures Own(env, h, e).hsm == Stopped && h.hsm == Started ==> Own(env, h, e).m.core.priv == 1
  {
    hide InHandler, RaiseTrap, EnterTrap, Taken, CsrStore, CsrDenied, AddressOf, ExecOne, Retire, Write, Plus;
    var c := h.m.core;
    match e {
      case Integer(i, ilen) => IntegerProtects(env, c, i, ilen);
      case Access(i, ilen, v, plat) =>
        RetireProtects(c, c.(plat := plat, regs := if i.op == OpLoad then Write(c.rv64, c.regs, i.rd, v) else c.regs), Plus(c.pc, ilen));
      case Exception(code, tval) => RaiseTrapProtects(c, code, tval);
      case Interrupt => InterruptProtects(h.m);
      case CsrRead(_, raw) => RaiseTrapProtects(c, 2, raw);
      case CsrUpdate(w, ok, raw) =>
        RaiseTrapProtects(c, 2, raw);
        if !CsrDenied(c, AddressOf(w), true) { CsrStoreProtects(h.m, w, ok); }
      case Mret => ReturnsProtect(c);
      case Sret => ReturnsProtect(c);
      case EcallTrap => RaiseTrapProtects(c, 8 + c.priv, 0);
      case _ =>
    }
  }

  /** Every step of every hart, whatever it is, on every hart. */
  lemma HartStepProtects<W>(env: Env<W>, harts: seq<Hart<W>>, i: nat, e: Event)
    requires i < |harts| && Parked(harts)
    ensures |HartStep(env, harts, i, e)| == |harts| && Parked(HartStep(env, harts, i, e))
    ensures forall j :: 0 <= j < |harts| ==> Protected(harts[j].m.core, HartStep(env, harts, i, e)[j].m.core)
  {
    hide InHandler, Own;
    OwnProtects(env, harts[i], e);
  }

  datatype Move = Move(i: nat, e: Event)

  function RunMoves<W>(env: Env<W>, harts: seq<Hart<W>>, moves: seq<Move>): seq<Hart<W>>
    decreases |moves|
  {
    if moves == [] then harts
    else if moves[0].i < |harts| then RunMoves(env, HartStep(env, harts, moves[0].i, moves[0].e), moves[1..])
    else RunMoves(env, harts, moves[1..])
  }

  /** Hart j stays below machine mode throughout. */
  predicate StaysBelow<W>(env: Env<W>, harts: seq<Hart<W>>, moves: seq<Move>, j: nat)
    requires j < |harts|
    decreases |moves|
  {
    harts[j].m.core.priv < 3 &&
    (moves != [] ==>
      if moves[0].i < |harts| then
        var next := HartStep(env, harts, moves[0].i, moves[0].e);
        j < |next| && StaysBelow(env, next, moves[1..], j)
      else StaysBelow(env, harts, moves[1..], j))
  }

  /** Over any run, a hart that never enters machine mode cannot change the machine-mode set-up,
      and no sibling changes it for it. */
  lemma {:induction false} RunProtects<W>(env: Env<W>, harts: seq<Hart<W>>, moves: seq<Move>, j: nat)
    requires j < |harts| && Parked(harts) && StaysBelow(env, harts, moves, j)
    ensures |RunMoves(env, harts, moves)| == |harts|
    ensures SameMachineMode(harts[j].m.core, RunMoves(env, harts, moves)[j].m.core)
    decreases |moves|
  {
    hide HartStep, Parked;
    if moves != [] {
      if moves[0].i < |harts| {
        HartStepProtects(env, harts, moves[0].i, moves[0].e);
        RunProtects(env, HartStep(env, harts, moves[0].i, moves[0].e), moves[1..], j);
      } else {
        RunProtects(env, harts, moves[1..], j);
      }
    }
  }

  // ---- The interpreter with its other instructions in place -------------------------------

  /** What an atomic or floating-point instruction does: registers, memory and the floating-point
      status, or a trap. */
  datatype Effect<W> = Does(regs: Regs, world: W, fs: nat) | Traps(code: nat, tval: Word, world: W)

  /** An instruction outside the integer core: a SYSTEM instruction, with the value a CSR access reads, or
      one of the unprivileged groups. */
  datatype Group<W> = System(e: Event, v: Word) | Unprivileged(effect: Effect<W>)

  /** exec_system and the tail of cpu_step after it. */
  function SystemStep<W>(env: Env<W>, m: Machine<W>, e: Event, v: Word, i: Inst, ilen: Word): Machine<W> {
    var c, m' := m.core, Own(env, Hart(m, Started), e).m;
    match e
    case CsrRead(addr, _) => if CsrDenied(c, addr, false) then m' else Finish(m', i.rd, v, Plus(c.pc, ilen))
    case CsrUpdate(w, _, _) => if CsrDenied(c, AddressOf(w), true) then m' else Finish(m', i.rd, v, Plus(c.pc, ilen))
    case Mret => if c.priv < 3 then m' else m'.(core := Retire(m'.core, m'.core.pc).core)
    case Sret => if c.priv < 1 then m' else m'.(core := Retire(m'.core, m'.core.pc).core)
    case _ => m'
  }

  function Finish<W>(m: Machine<W>, rd: Reg, v: Word, next: Word): Machine<W> {
    m.(core := Retire(m.core.(regs := Write(m.core.rv64, m.core.regs, rd, v)), next).core)
  }

  function UnprivilegedStep<W>(m: Machine<W>, effect: Effect<W>, ilen: Word): Machine<W> {
    var c := m.core;
    match effect
    case Traps(code, tval, w) => m.(core := RaiseTrap(c.(world := w), code, tval))
    case Does(regs, w, fs) =>
      var c' := c.(regs := regs, world := w, csr := c.csr.(mstatus := c.csr.mstatus.(fs := fs)));
      m.(core := Retire(c', Plus(c.pc, ilen)).core)
  }

  function OtherStep<W>(env: Env<W>, group: (Machine<W>, Inst, Word) -> Group<W>, m: Machine<W>, i: Inst, ilen: Word): Machine<W> {
    match group(m, i, ilen)
    case System(e, v) => SystemStep(env, m, e, v, i, ilen)
    case Unprivileged(effect) => UnprivilegedStep(m, effect, ilen)
  }

  /** A device access: the value read, the platform and memory after it. */
  function DeviceStep<W>(env: Env<W>, answer: (Machine<W>, Word, Inst, Word) -> (Word, Plat, W), m: Machine<W>, pa: Word, i: Inst,
                         ilen: Word): Machine<W>
  {
    var (v, plat, w) := answer(m, pa, i, ilen);
    Own(env, Hart(m.(core := m.core.(world := w)), Started), Access(i, ilen, v, plat)).m
  }

  /** The system with its remaining instructions and its devices put in. */
  function WithSystem<W>(sys: Sys<W>, group: (Machine<W>, Inst, Word) -> Group<W>,
                         answer: (Machine<W>, Word, Inst, Word) -> (Word, Plat, W)): Sys<W>
  {
    sys.(other := (m: Machine<W>, i: Inst, ilen: Word) => OtherStep(sys.env, group, m, i, ilen),
         device := (m: Machine<W>, pa: Word, i: Inst, ilen: Word) => DeviceStep(sys.env, answer, m, pa, i, ilen))
  }

  /** Retiring after a change that did not raise privilege keeps the promise. */
  lemma RetireAfter<W>(c: Core<W>, d: Core<W>, next: Word)
    requires Protected(c, d) && d.priv <= c.priv
    ensures Protected(c, Retire(d, next).core)
  {
    hide InHandler, RaiseTrap, SextX;
    RaiseTrapProtects(d, 0, next);
  }

  lemma FinishProtects<W>(c: Core<W>, m: Machine<W>, rd: Reg, v: Word, next: Word)
    requires Protected(c, m.core) && m.core.priv <= c.priv
    ensures Protected(c, Finish(m, rd, v, next).core)
  {
    hide InHandler, Retire, Write;
    RetireAfter(c, m.core.(regs := Write(m.core.rv64, m.core.regs, rd, v)), next);
  }

  lemma ReturnsDoNotRaise<W>(c: Core<W>)
    ensures c.priv >= 3 ==> ExecMret(c).priv <= c.priv
    ensures c.priv >= 1 ==> ExecSret(c).priv <= c.priv
  {
    hide RaiseTrap;
  }

  lemma SystemStepProtects<W>(env: Env<W>, m: Machine<W>, e: Event, v: Word, i: Inst, ilen: Word)
    ensures Protected(m.core, SystemStep(env, m, e, v, i, ilen).core)
  {
    hide Protected, InHandler, RaiseTrap, Retire, Write, Plus, CsrStore, CsrDenied, AddressOf, ExecMret, ExecSret, Finish, ExecOne, Taken;
    var c, m' := m.core, Own(env, Hart(m, Started), e).m;
    OwnProtects(env, Hart(m, Started), e);
    match e {
      case CsrRead(addr, _) =>
        if !CsrDenied(c, addr, false) { FinishProtects(c, m', i.rd, v, Plus(c.pc, ilen)); }
      case CsrUpdate(w, ok, _) =>
        if !CsrDenied(c, AddressOf(w), true) {
          CsrStoreProtects(m, w, ok);
          FinishProtects(c, m', i.rd, v, Plus(c.pc, ilen));
        }
      case Mret =>
        ReturnsDoNotRaise(c);
        if c.priv >= 3 { RetireAfter(c, m'.core, m'.core.pc); }
      case Sret =>
        ReturnsDoNotRaise(c);
        if c.priv >= 1 { RetireAfter(c, m'.core, m'.core.pc); }
      case _ =>
    }
  }

  lemma UnprivilegedProtects<W>(m: Machine<W>, effect: Effect<W>, ilen: Word)
    ensures Protected(m.core, UnprivilegedStep(m, effect, ilen).core)
  {
    hide InHandler, RaiseTrap, Retire, Plus;
    var c := m.core;
    match effect {
      case Traps(code, tval, w) => TrapFromProtects(c, c.(world := w), code, tval);
      case Does(regs, w, fs) =>
        RetireAfter(c, c.(regs := regs, world := w, csr := c.csr.(mstatus := c.csr.mstatus.(fs := fs))), Plus(c.pc, ilen));
    }
  }

  /** So nothing is left to assume: SYSTEM instructions, atomics, floating point and devices keep the
      promise. */
  lemma SystemProtects<W(!new)>(sys: Sys<W>, group: (Machine<W>, Inst, Word) -> Group<W>,
                                answer: (Machine<W>, Word, Inst, Word) -> (Word, Plat, W))
    ensures OthersProtect(WithSystem(sys, group, answer))
  {
    hide Protected, SystemStep, UnprivilegedStep, Own;
    var full := WithSystem(sys, group, answer);
    forall m: Machine<W>, i, ilen ensures Protected(m.core, full.other(m, i, ilen).core) {
      match group(m, i, ilen) {
        case System(e, v) => SystemStepProtects(sys.env, m, e, v, i, ilen);
        case Unprivileged(effect) => UnprivilegedProtects(m, effect, ilen);
      }
    }
    forall m: Machine<W>, pa, i, ilen ensures Protected(m.core, full.device(m, pa, i, ilen).core) {
      var (v, plat, w) := answer(m, pa, i, ilen);
      OwnProtects(sys.env, Hart(m.(core := m.core.(world := w)), Started), Access(i, ilen, v, plat));
      WorldProtects(m.core, w, DeviceStep(sys.env, answer, m, pa, i, ilen).core);
    }
  }

  /** Over any run of the whole interpreter, code that stays below machine mode leaves the machine-mode
      set-up as it found it, and every rise of privilege enters a handler. */
  lemma SystemRunProtects<W(!new)>(sys: Sys<W>, group: (Machine<W>, Inst, Word) -> Group<W>,
                                   answer: (Machine<W>, Word, Inst, Word) -> (Word, Plat, W), m: Machine<W>, n: nat)
    ensures var full := WithSystem(sys, group, answer);
      && ((forall j :: 0 <= j <= n ==> Steps(full, m, j).core.priv < 3) ==> SameMachineMode(m.core, Steps(full, m, n).core))
      && (var x := Steps(full, m, n); Protected(x.core, Step(full, Tick(x)).core))
  {
    hide Protected, OthersProtect, Steps, Step, WithSystem;
    var full := WithSystem(sys, group, answer);
    SystemProtects(sys, group, answer);
    if forall j :: 0 <= j <= n ==> Steps(full, m, j).core.priv < 3 { StepsProtect(full, m, n); }
    TickProtects(full, Steps(full, m, n));
  }

  lemma TickProtects<W(!new)>(sys: Sys<W>, x: Machine<W>)
    requires OthersProtect(sys)
    ensures Protected(x.core, Step(sys, Tick(x)).core)
  {
    hide Protected, OthersProtect, Step;
    StepProtected(sys, Tick(x));
  }
}
