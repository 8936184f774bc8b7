/** The block dispatcher and the JIT run loop against the interpreter (jit.c: jit_run; cpu.c:
    cpu_interrupt_horizon; quanta.c: quanta_run). */
module JitRun {
  import opened Basics
  import opened Rv
  import opened Jit
  import opened JitStep
  import opened JitBlock
  import opened Machine
  import opened RvFrame

  // ---- The interrupt horizon --------------------------------------------------------------

  const Far: nat := 0x4000_0000_0000_0000

  function Until(now: nat, deadline: nat): nat { if now >= deadline then 0 else deadline - now }

  predicate HorizonGate<W>(c: Core<W>, delegated: bool) {
    if delegated then SOn(c) else c.priv < 3 || c.csr.mstatus.mie
  }

  /** How many instructions may run before a time-driven interrupt could be taken. */
  function Horizon<W>(m: Machine<W>): nat {
    var c := m.core;
    var dMtip := Until(m.mtime, c.plat.mtimecmp);
    var h1 := if c.csr.mie.mtimer && HorizonGate(c, c.csr.mideleg.mtimer) then Min(Far, dMtip) else Far;
    if !(c.csr.mie.stimer && HorizonGate(c, c.csr.mideleg.stimer)) then h1
    else
      var h2 := if m.armed then Min(h1, dMtip) else h1;
      if c.csr.stce then Min(h2, Until(c.instret, c.csr.stimecmp)) else h2
  }

  /** The boundary after j retired instructions. */
  function Boundary<W>(s: Machine<W>, c: Core<W>, j: nat): Machine<W> {
    Sync(s.(core := c, mtime := s.mtime + j))
  }

  /** Soundness of the horizon: as long as fewer instructions than the horizon have retired, the
      boundary takes no interrupt. */
  lemma HorizonSound<W>(s: Machine<W>, c: Core<W>, j: nat)
    requires Taken(s) == None && Sync(s) == s && j < Horizon(s)
    requires SameGates(s.core, c) && c.instret == s.core.instret + j
    ensures Taken(Boundary(s, c, j)) == None
  {
    var n := Boundary(s, c, j);
    var e, d := c.csr.mie, c.csr.mideleg;
    GateImplies(c, d.mtimer);
    GateImplies(c, d.stimer);
    hide MOn, SOn, HorizonGate;
    assert forall b :: Gate(c, b) == Gate(s.core, b) && HorizonGate(c, b) == HorizonGate(s.core, b) by { SameGate(s.core, c); }
    hide Gate;
    assert !(n.mip.mtimer && e.mtimer && Gate(c, d.mtimer));
    assert !(n.mip.stimer && e.stimer && Gate(c, d.stimer));
  }

  /** The horizon is no shorter than it has to be: unless it is the unbounded value, an interrupt is
      taken at the very boundary it names.  With Sstc on, an armed firmware deadline still bounds
      the horizon although it no longer raises STIP, so that case is excluded. */
  lemma HorizonTight<W>(s: Machine<W>, c: Core<W>)
    requires Sync(s) == s && Horizon(s) < Far && !(s.armed && c.csr.stce)
    requires SameGates(s.core, c) && c.instret == s.core.instret + Horizon(s)
    ensures Taken(Boundary(s, c, Horizon(s))).Some?
  {
    var n := Boundary(s, c, Horizon(s));
    var e, d := c.csr.mie, c.csr.mideleg;
    assert Gate(c, d.mtimer) == HorizonGate(c, d.mtimer) && Gate(c, d.stimer) == HorizonGate(c, d.stimer);
    assert forall b :: Gate(c, b) == Gate(s.core, b) && HorizonGate(c, b) == HorizonGate(s.core, b) by { SameGate(s.core, c); }
    hide MOn, SOn, HorizonGate, Gate;
    assert (n.mip.mtimer && e.mtimer && Gate(c, d.mtimer)) || (n.mip.stimer && e.stimer && Gate(c, d.stimer));
  }

  lemma GateImplies<W>(c: Core<W>, delegated: bool)
    ensures Gate(c, delegated) ==> HorizonGate(c, delegated)
  {
  }

  lemma SameGate<W>(c: Core<W>, d: Core<W>)
    requires SameGates(c, d)
    ensures forall b :: Gate(d, b) == Gate(c, b) && HorizonGate(d, b) == HorizonGate(c, b)
  {
  }

  lemma HorizonShrinks<W>(s: Machine<W>, c: Core<W>)
    requires Sync(s) == s && SameGates(s.core, c) && c.instret == s.core.instret + 1
    ensures Horizon(Boundary(s, c, 1)) + 1 >= Horizon(s)
  {
    SameGate(s.core, c);
    hide HorizonGate, SOn, MOn;
  }

  // ---- A block against the interpreter's rounds -------------------------------------------

  /** The instructions in turn, as the interpreter leaves the hart: nothing happens to a refused
      device access. */
  function ArchExec<W>(env: Env<W>, c: Core<W>, insts: seq<Decoded>): (Core<W>, nat)
    decreases |insts|
  {
    if insts == [] then (c, 0)
    else
      match ExecOne(env, c, insts[0].inst, insts[0].ilen)
      case Retired(c') =>
        if KindOf(c.rv64, insts[0].inst) == Term then (c', 1)
        else var (d, n) := ArchExec(env, c', insts[1..]); (d, n + 1)
      case Trapped(c') => (c', 1)
      case _ => (c, 0)
  }

  /** If the block stops at a device access, the probe of that access changed nothing: the accessed
      and dirty bits it would set are already set. */
  ghost predicate QuietExit<W>(env: Env<W>, c: Core<W>, insts: seq<Decoded>)
    decreases |insts|
  {
    insts != [] ==>
      match ExecOne(env, c, insts[0].inst, insts[0].ilen)
      case Retired(c') => KindOf(c.rv64, insts[0].inst) != Term ==> QuietExit(env, c', insts[1..])
      case Device => Probed(env, c, insts[0].inst) == c.world
      case _ => true
  }

  lemma {:induction false} ExitState<W>(env: Env<W>, c: Core<W>, insts: seq<Decoded>)
    ensures BlockExec(env, c, insts).1 == ArchExec(env, c, insts).1
    ensures BlockExec(env, c, insts).0 == ArchExec(env, c, insts).0 <==> QuietExit(env, c, insts)
    decreases |insts|
  {
    hide ExecOne, Probed, KindOf;
    if insts != [] {
      var o := ExecOne(env, c, insts[0].inst, insts[0].ilen);
      if o.Retired? && KindOf(c.rv64, insts[0].inst) != Term { ExitState(env, o.core, insts[1..]); }
    }
  }

  /** The interpreter, running from c, fetches exactly the block's instructions, and fetching them
      changes nothing. */
  ghost predicate FetchesBlock<W>(sys: Sys<W>, c: Core<W>, insts: seq<Decoded>)
    decreases |insts|
  {
    insts != [] ==>
      && FetchCore(sys, c) == Fetched(insts[0].inst, insts[0].ilen, c.world)
      && var o := ExecOne(sys.env, c, insts[0].inst, insts[0].ilen);
         (o.Retired? && KindOf(c.rv64, insts[0].inst) != Term ==> FetchesBlock(sys, o.core, insts[1..]))
  }

  /** A machine that has passed the prologue of a step without being interrupted. */
  ghost predicate Passed<W>(s: Machine<W>) {
    Sync(s) == s && Taken(s) == None && !Halted(s)
  }

  /** The machine the dispatcher leaves after a block: the clock advanced by the steps consumed. */
  function Advanced<W>(s: Machine<W>, c: Core<W>, n: nat): Machine<W>
    requires n > 0
  {
    s.(core := c, mtime := s.mtime + n - 1)
  }

  ghost predicate RoundsAgree<W>(sys: Sys<W>, s: Machine<W>, insts: seq<Decoded>) {
    var (c, n) := ArchExec(sys.env, s.core, insts);
    n > 0 ==>
      && Equiv(Advanced(s, c, n), Steps(sys, ExecStep(sys, s), n - 1))
      && forall j :: 0 <= j < n - 1 ==> !Halted(Steps(sys, ExecStep(sys, s), j))
  }

  lemma FirstInstruction<W>(sys: Sys<W>, s: Machine<W>, insts: seq<Decoded>)
    requires insts != [] && FetchesBlock(sys, s.core, insts)
    ensures var o := ExecOne(sys.env, s.core, insts[0].inst, insts[0].ilen);
      o.Retired? || o.Trapped? ==> ExecStep(sys, s) == s.(core := o.core)
  {
    hide ExecOne, FetchAt;
    assert s.core.(world := s.core.world) == s.core;
    assert s.(core := s.core) == s;
  }

  lemma {:induction false} ArchFrame<W>(env: Env<W>, c: Core<W>, insts: seq<Decoded>)
    requires RegsOk(c.rv64, c.regs)
    ensures Frame(c, ArchExec(env, c, insts).0)
    ensures ArchExec(env, c, insts).1 <= |insts|
    decreases |insts|
  {
    hide ExecOne, KindOf, RegsOk;
    if insts != [] {
      ExecFrame(env, c, insts[0].inst, insts[0].ilen);
      var o := ExecOne(env, c, insts[0].inst, insts[0].ilen);
      if o.Retired? && KindOf(c.rv64, insts[0].inst) != Term { ArchFrame(env, o.core, insts[1..]); }
    }
  }

  lemma NextPassed<W>(sys: Sys<W>, s: Machine<W>, c: Core<W>)
    requires Passed(s) && SameGates(s.core, c) && c.instret == s.core.instret + 1 && Horizon(s) >= 2
    ensures var s' := Boundary(s, c, 1);
      Passed(s') && s'.core == c && Horizon(s') + 1 >= Horizon(s) && Step(sys, Tick(s.(core := c))) == ExecStep(sys, s')
  {
    hide Horizon, Taken, ExecStep;
    HorizonSound(s, c, 1);
    HorizonShrinks(s, c);
    var t := s.(core := c, mtime := s.mtime + 1);
    assert Tick(s.(core := c)) == t;
    SyncAbsorbs(t, c, t.mtime);
  }

  /** Leaving out the refresh at an earlier boundary does not show later. */
  lemma AdvancedEquiv<W>(s: Machine<W>, c: Core<W>, d: Core<W>, n: nat, m: Machine<W>)
    requires n > 0 && SameTimers(s.core, c) && SameTimers(c, d) && d.instret >= c.instret
    requires Equiv(Advanced(Boundary(s, c, 1), d, n), m)
    ensures Equiv(Advanced(s, d, n + 1), m)
  {
    var t := s.(core := c, mtime := s.mtime + 1);
    SyncAbsorbs(t, d, s.mtime + n);
    assert t.(core := d, mtime := s.mtime + n) == Advanced(s, d, n + 1);
    assert Boundary(s, c, 1) == Sync(t);
    assert Sync(t).(core := d, mtime := s.mtime + n) == Advanced(Boundary(s, c, 1), d, n) by { ClockOf(t); }
  }

  lemma ClockOf<W>(m: Machine<W>)
    ensures Sync(m).mtime == m.mtime && Sync(m).core == m.core
  {
  }

  lemma RoundsShift<W>(sys: Sys<W>, e: Machine<W>, x: Machine<W>, n: nat)
    requires Step(sys, Tick(e)) == x
    ensures Steps(sys, e, n + 1) == Steps(sys, x, n)
  {
    hide Step, Tick;
    assert Steps(sys, e, 0) == e;
    assert Steps(sys, e, 1) == x;
    StepsAdd(sys, e, 1, n);
  }

  lemma JoinRounds<W>(sys: Sys<W>, s: Machine<W>, c: Core<W>, insts: seq<Decoded>)
    requires insts != [] && Passed(s) && ExecOne(sys.env, s.core, insts[0].inst, insts[0].ilen) == Retired(c)
    requires KindOf(s.core.rv64, insts[0].inst) != Term && ArchExec(sys.env, c, insts[1..]).1 > 0
    requires ExecStep(sys, s) == s.(core := c) && Step(sys, Tick(s.(core := c))) == ExecStep(sys, Boundary(s, c, 1))
    requires Boundary(s, c, 1).core == c && SameGates(s.core, c) && RegsOk(c.rv64, c.regs)
    requires RoundsAgree(sys, Boundary(s, c, 1), insts[1..])
    ensures RoundsAgree(sys, s, insts)
  {
    hide ExecOne, KindOf, RegsOk, ExecStep, Sync, Horizon, Taken, Equiv, Boundary, Step, Steps, Passed;
    var s' := Boundary(s, c, 1);
    var (d, n) := ArchExec(sys.env, c, insts[1..]);
    ArchFrame(sys.env, c, insts[1..]);
    var e := s.(core := c);
    RoundsShift(sys, e, ExecStep(sys, s'), n - 1);
    AdvancedEquiv(s, c, d, n, Steps(sys, e, n));
    forall j | 0 <= j < n ensures !Halted(Steps(sys, e, j)) {
      if j == 0 { NothingYet(sys, s, c); } else { RoundsShift(sys, e, ExecStep(sys, s'), j - 1); }
    }
  }

  lemma NothingYet<W>(sys: Sys<W>, s: Machine<W>, c: Core<W>)
    requires Passed(s) && SameGates(s.core, c)
    ensures !Halted(Steps(sys, s.(core := c), 0))
  {
  }

  /** Running the instructions of a block takes the interpreter through as many uninterrupted
      rounds, none of which halts before the last. */
  lemma {:induction false} BlockRounds<W>(sys: Sys<W>, s: Machine<W>, insts: seq<Decoded>)
    requires Passed(s) && FetchesBlock(sys, s.core, insts) && |insts| <= Horizon(s) && RegsOk(s.core.rv64, s.core.regs)
    ensures RoundsAgree(sys, s, insts)
    decreases |insts|
  {
    hide ExecOne, KindOf, RegsOk, ExecStep, Sync, Horizon, Taken, RoundsAgree, Passed, Boundary;
    if insts == [] {
      OneRound(sys, s, insts);
    } else {
      var o := ExecOne(sys.env, s.core, insts[0].inst, insts[0].ilen);
      FirstInstruction(sys, s, insts);
      if o.Retired? && KindOf(s.core.rv64, insts[0].inst) != Term && ArchExec(sys.env, o.core, insts[1..]).1 > 0 {
        RetiredKeeps(sys.env, s.core, insts[0].inst, insts[0].ilen);
        ExecFrame(sys.env, s.core, insts[0].inst, insts[0].ilen);
        ArchFrame(sys.env, o.core, insts[1..]);
        NextPassed(sys, s, o.core);
        BlockRounds(sys, Boundary(s, o.core, 1), insts[1..]);
        JoinRounds(sys, s, o.core, insts);
      } else {
        OneRound(sys, s, insts);
      }
    }
  }

  /** A block that stops after its first instruction. */
  lemma OneRound<W>(sys: Sys<W>, s: Machine<W>, insts: seq<Decoded>)
    requires insts != [] ==>
      var o := ExecOne(sys.env, s.core, insts[0].inst, insts[0].ilen);
      && (o.Retired? || o.Trapped? ==> ExecStep(sys, s) == s.(core := o.core))
      && !(o.Retired? && KindOf(s.core.rv64, insts[0].inst) != Term && ArchExec(sys.env, o.core, insts[1..]).1 > 0)
    ensures RoundsAgree(sys, s, insts)
  {
    hide ExecOne, KindOf, ExecStep, Sync, Step;
    if insts != [] {
      var o := ExecOne(sys.env, s.core, insts[0].inst, insts[0].ilen);
      if o.Retired? && KindOf(s.core.rv64, insts[0].inst) != Term { NoStepsNoChange(sys.env, o.core, insts[1..]); }
    }
  }

  lemma NoStepsNoChange<W>(env: Env<W>, c: Core<W>, insts: seq<Decoded>)
    requires ArchExec(env, c, insts).1 == 0
    ensures ArchExec(env, c, insts).0 == c
  {
    hide ExecOne, KindOf;
  }

  /** A block run that consumed steps leaves the interpreter's machine exactly when the device
      access it may have stopped at was probed without effect. */
  lemma BlockExitExact<W>(sys: Sys<W>, s: Machine<W>, insts: seq<Decoded>)
    requires Passed(s) && FetchesBlock(sys, s.core, insts) && |insts| <= Horizon(s) && RegsOk(s.core.rv64, s.core.regs)
    requires BlockExec(sys.env, s.core, insts).1 > 0
    ensures var (c, n) := BlockExec(sys.env, s.core, insts);
      Equiv(Advanced(s, c, n), Steps(sys, ExecStep(sys, s), n - 1)) <==> QuietExit(sys.env, s.core, insts)
  {
    hide Passed, FetchesBlock, Horizon, RegsOk, BlockExec, ArchExec, QuietExit, Steps, ExecStep, Sync;
    BlockRounds(sys, s, insts);
    ExitState(sys.env, s.core, insts);
  }

  /** Where a block refuses a device access, part of it is still ahead, and what has run has retired. */
  lemma {:induction false} RefusedExit<W>(env: Env<W>, c: Core<W>, insts: seq<Decoded>)
    requires BlockExec(env, c, insts).0 != ArchExec(env, c, insts).0
    ensures var (e, n) := ArchExec(env, c, insts); n < |insts| && SameGates(c, e) && e.instret == c.instret + n
    decreases |insts|
  {
    hide ExecOne, Probed, KindOf;
    if insts != [] {
      RetiredKeeps(env, c, insts[0].inst, insts[0].ilen);
      var o := ExecOne(env, c, insts[0].inst, insts[0].ilen);
      if o.Retired? && KindOf(c.rv64, insts[0].inst) != Term { RefusedExit(env, o.core, insts[1..]); }
    }
  }

  /** The boundary there is inside the horizon the block was admitted under: no interrupt is taken
      before the access is made. */
  lemma RefusedProceeds<W>(env: Env<W>, s: Machine<W>, insts: seq<Decoded>)
    requires Passed(s) && |insts| <= Horizon(s) && ArchExec(env, s.core, insts).1 > 0
    requires BlockExec(env, s.core, insts).0 != ArchExec(env, s.core, insts).0
    ensures var (e, n) := ArchExec(env, s.core, insts);
      n < |insts| && !Halted(Advanced(s, e, n)) && PreStep(Tick(Advanced(s, e, n))).Proceed?
  {
    RefusedExit(env, s.core, insts);
    var (e, n) := ArchExec(env, s.core, insts);
    hide BlockExec, ArchExec, Horizon, Taken;
    HorizonSound(s, e, n);
    assert Tick(Advanced(s, e, n)) == s.(core := e, mtime := s.mtime + n);
  }
}
