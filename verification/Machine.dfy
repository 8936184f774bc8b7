/** One hart on its platform: the instruction-boundary prologue, interrupt delivery, and the
    interpreter's step (cpu.c: firmware_timer_tick, sstc_tick, effective_mip, take_interrupt,
    cpu_pre_step, cpu_step). */
module Machine {
  import opened Basics
  import opened RvWords
  import opened Rv

  /** The hart, its stored interrupt-pending bits, the armed flag of the firmware timer relay, and
      the platform clock. */
  datatype Machine<W> = Machine(core: Core<W>, mip: Irqs, armed: bool, mtime: nat)

  datatype Fetch<W> = FetchTrap(code: nat, tval: Word, world: W) | Fetched(inst: Inst, ilen: Word, world: W)

  /** The rest of the system.  `resolve` translates a pc, `half` reads a halfword of plain memory,
      `expand` is None on an illegal compressed encoding.  `inTables` tells a store to the page tables.
      Fetching from a device window, the device side of an access once translated, and every
      instruction a block never contains are given as they are. */
  datatype Sys<!W> = Sys(
    env: Env<W>,
    resolve: (W, Ctx, Word) -> Trans<W>,
    half: (W, nat) -> Option<U16>,
    expand: (nat, bool) -> Option<Inst>,
    decode: nat -> Inst,
    inTables: (W, Word, Inst) -> bool,
    deviceFetch: (W, Ctx, Word) -> Fetch<W>,
    device: (Machine<W>, Word, Inst, Word) -> Machine<W>,
    other: (Machine<W>, Inst, Word) -> Machine<W>)

  predicate MachineTimer<W>(m: Machine<W>) { m.mtime >= m.core.plat.mtimecmp }

  /** Bring the pending bits up to date: relay a reached deadline, drive STIP from stimecmp, and
      reflect the device lines. */
  function Sync<W>(m: Machine<W>): Machine<W> {
    var mtip := MachineTimer(m);
    var relayed := m.mip.stimer || (m.armed && mtip);
    var stip := if m.core.csr.stce then m.core.instret >= m.core.csr.stimecmp else relayed;
    var p := m.core.plat;
    m.(mip := Irqs(m.mip.ssoft, p.msip, stip, mtip, p.seip, p.meip), armed := m.armed && !mtip)
  }

  predicate MOn<W>(c: Core<W>) { c.priv < 3 || (c.priv == 3 && c.csr.mstatus.mie) }
  predicate SOn<W>(c: Core<W>) { c.priv < 1 || (c.priv == 1 && c.csr.mstatus.sie) }
  predicate Gate<W>(c: Core<W>, delegated: bool) { if delegated then SOn(c) else MOn(c) }

  /** The interrupt taken at this boundary, by the fixed priority order. */
  function Taken<W>(m: Machine<W>): Option<(nat, bool)> {
    var c := m.core;
    var e, d := c.csr.mie, c.csr.mideleg;
    if m.mip.mext && e.mext && Gate(c, d.mext) then Some((11, d.mext))
    else if m.mip.msoft && e.msoft && Gate(c, d.msoft) then Some((3, d.msoft))
    else if m.mip.mtimer && e.mtimer && Gate(c, d.mtimer) then Some((7, d.mtimer))
    else if m.mip.sext && e.sext && Gate(c, d.sext) then Some((9, d.sext))
    else if m.mip.ssoft && e.ssoft && Gate(c, d.ssoft) then Some((1, d.ssoft))
    else if m.mip.stimer && e.stimer && Gate(c, d.stimer) then Some((5, d.stimer))
    else None
  }

  datatype Prologue<W> = Consumed(m: Machine<W>) | Proceed(m: Machine<W>)

  function PreStep<W>(m: Machine<W>): Prologue<W> {
    if m.core.plat.poweroff then Consumed(m.(core := m.core.(halt := HaltExit)))
    else
      var s := Sync(m);
      match Taken(s)
      case Some((irq, toS)) => Consumed(s.(core := EnterTrap(s.core, Cause(true, irq), 0, toS)))
      case None => Proceed(s)
  }

  /** The fetch of cpu_step: the two halves of a 32-bit instruction are translated separately. */
  function FetchAt<W>(sys: Sys<W>, w: W, rv64: bool, ctx: Ctx, pc: Word): Fetch<W> {
    match sys.resolve(w, ctx, pc)
    case Fault(code) => FetchTrap(code, pc, w)
    case Ok(pa, w1) =>
      if sys.env.isDevice(pa) then sys.deviceFetch(w1, ctx, pc)
      else
        match sys.half(w1, pa)
        case None => FetchTrap(1, pc, w1)
        case Some(lo) =>
          if lo % 4 == 3 then FetchUpper(sys, w1, ctx, pc, lo)
          else
            match sys.expand(lo, rv64)
            case None => FetchTrap(2, lo, w1)
            case Some(i) => Fetched(i, 2, w1)
  }

  function FetchUpper<W>(sys: Sys<W>, w: W, ctx: Ctx, pc: Word, lo: U16): Fetch<W> {
    var next := Plus(pc, 2);
    match sys.resolve(w, ctx, next)
    case Fault(code) => FetchTrap(code, next, w)
    case Ok(pa, w1) =>
      if sys.env.isDevice(pa) then sys.deviceFetch(w1, ctx, pc)
      else
        match sys.half(w1, pa)
        case None => FetchTrap(1, next, w1)
        case Some(hi) => Fetched(sys.decode(lo + 0x1_0000 * hi), 4, w1)
  }

  function FetchCore<W>(sys: Sys<W>, c: Core<W>): Fetch<W> { FetchAt(sys, c.world, c.rv64, CtxOf(c), c.pc) }

  /** Fetch and execute one instruction. */
  function ExecStep<W>(sys: Sys<W>, m: Machine<W>): Machine<W> {
    match FetchCore(sys, m.core)
    case FetchTrap(code, tval, w) => m.(core := RaiseTrap(m.core.(world := w), code, tval))
    case Fetched(i, ilen, w) => ExecFetched(sys, m.(core := m.core.(world := w)), i, ilen)
  }

  function ExecFetched<W>(sys: Sys<W>, m: Machine<W>, i: Inst, ilen: Word): Machine<W> {
    match ExecOne(sys.env, m.core, i, ilen)
    case Retired(c) => m.(core := c)
    case Trapped(c) => m.(core := c)
    case Device => DeviceAccess(sys, m, i, ilen)
    case Other => sys.other(m, i, ilen)
  }

  /** A device access: the address is translated, then the device sees it. */
  function DeviceAccess<W>(sys: Sys<W>, m: Machine<W>, i: Inst, ilen: Word): Machine<W> {
    match sys.env.translate(m.core.world, CtxOf(m.core), EffectiveAddress(m.core, i), AccessOf(i))
    case Fault(_) => m
    case Ok(pa, w) => sys.device(m.(core := m.core.(world := w)), pa, i, ilen)
  }

  function Step<W>(sys: Sys<W>, m: Machine<W>): Machine<W> {
    match PreStep(m)
    case Consumed(m') => m'
    case Proceed(m') => ExecStep(sys, m')
  }

  function Tick<W>(m: Machine<W>): Machine<W> { m.(mtime := m.mtime + 1) }

  predicate Halted<W>(m: Machine<W>) { m.core.halt != Running || m.core.plat.poweroff }

  /** n rounds of the interpreter's loop: tick, then step. */
  function Steps<W>(sys: Sys<W>, m: Machine<W>, n: nat): Machine<W> {
    if n == 0 then m else Step(sys, Tick(Steps(sys, m, n - 1)))
  }

  // ---- The stored pending bits are a cache ------------------------------------------------

  predicate SameTimers<W>(c: Core<W>, d: Core<W>) {
    c.plat == d.plat && c.csr.stce == d.csr.stce && c.csr.stimecmp == d.csr.stimecmp
  }

  /** Refreshing the pending bits early makes no difference to a later refresh, whatever the hart
      has retired and however far the clock has moved in between. */
  lemma SyncAbsorbs<W>(m: Machine<W>, c: Core<W>, t: nat)
    requires SameTimers(m.core, c) && t >= m.mtime && c.instret >= m.core.instret
    ensures Sync(Sync(m).(core := c, mtime := t)) == Sync(m.(core := c, mtime := t))
  {
  }

  /** Machines the guest cannot tell apart: equal up to the refresh of the stored pending bits. */
  ghost predicate Equiv<W>(a: Machine<W>, b: Machine<W>) {
    a.core == b.core && a.mtime == b.mtime && Sync(a) == Sync(b)
  }

  lemma StepRespectsEquiv<W>(sys: Sys<W>, a: Machine<W>, b: Machine<W>)
    requires Equiv(a, b)
    ensures Equiv(Step(sys, Tick(a)), Step(sys, Tick(b)))
  {
    hide ExecStep, EnterTrap, Taken;
    SyncAbsorbs(a, a.core, a.mtime + 1);
    SyncAbsorbs(b, b.core, b.mtime + 1);
    assert Sync(a).(core := a.core, mtime := a.mtime + 1) == Sync(b).(core := b.core, mtime := b.mtime + 1);
    assert Sync(Tick(a)) == Sync(Tick(b));
    if a.core.plat.poweroff {
      HaltKeepsSync(Tick(a), Tick(b));
    }
  }

  lemma HaltKeepsSync<W>(a: Machine<W>, b: Machine<W>)
    requires a.core == b.core && a.mtime == b.mtime && Sync(a) == Sync(b)
    ensures Sync(a.(core := a.core.(halt := HaltExit))) == Sync(b.(core := b.core.(halt := HaltExit)))
  {
  }

  lemma {:induction false} StepsRespectEquiv<W>(sys: Sys<W>, a: Machine<W>, b: Machine<W>, n: nat)
    requires Equiv(a, b)
    ensures Equiv(Steps(sys, a, n), Steps(sys, b, n))
  {
    hide Equiv, Step, Tick;
    if n > 0 {
      StepsRespectEquiv(sys, a, b, n - 1);
      StepRespectsEquiv(sys, Steps(sys, a, n - 1), Steps(sys, b, n - 1));
    }
  }

  lemma {:induction false} StepsAdd<W>(sys: Sys<W>, m: Machine<W>, a: nat, b: nat)
    ensures Steps(sys, Steps(sys, m, a), b) == Steps(sys, m, a + b)
  {
    hide Step, Tick;
    if b > 0 { StepsAdd(sys, m, a, b - 1); }
  }
}
