/** One turn of the JIT loop (jit_run, or a step of the interpreter where it declines) keeps the
    relation to the interpreter's run. */
module JitTurn {
  import opened RvWords
  import opened Rv
  import opened Machine
  import opened Jit
  import opened JitInsn
  import opened JitStep
  import opened JitBlock
  import opened JitRun
  import opened JitTranslate
  import opened JitLaws
  import opened JitFresh
  import opened JitFetch
  import opened JitSim

  // ---- Host code --------------------------------------------------------------------------

  lemma StartSeen<W>(c: Core<W>)
    requires PcOk(c)
    ensures BlockAddress(c.rv64, c.pc) % 2 == 0 && Seen(c, BlockAddress(c.rv64, c.pc), 0) == c
  {
    SextOfLow(c.pc);
    assert c.(pc := c.pc, instret := c.instret + 0) == c;
  }

  /** The host code of a block executes the block. */
  lemma BlockRun<W(!new)>(env: Env<W>, c: Core<W>, insts: seq<Decoded>)
    requires IsBlock(c.rv64, insts) && PcOk(c) && RegsOk(c.rv64, c.regs) && Idempotent(env)
    ensures var r := Run(env, Compile(c.rv64, insts, BlockAddress(c.rv64, c.pc), 0), StartBlock(c));
      (r.core, r.ret) == BlockExec(env, c, insts)
  {
    hide IsBlock, PcOk, RegsOk, Idempotent, Run, Compile, BlockExec;
    StartSeen(c);
    BlockCorrect(env, insts, BlockAddress(c.rv64, c.pc), 0, StartBlock(c));
  }

  // ---- The interpreter's side of a turn ---------------------------------------------------

  /** A turn from x took n of at most max of the interpreter's steps and ended in m; when it has used
      them all, in the interpreter's machine. */
  ghost predicate TurnAgrees<W>(sys: Sys<W>, x: Machine<W>, m: Machine<W>, n: nat, max: nat) {
    && 0 < n <= max && Sim(sys, m, Steps(sys, x, n)) && (n == max ==> Equiv(m, Steps(sys, x, n)))
    && (forall j :: 0 <= j < n ==> !Halted(Steps(sys, x, j)))
    && (n > 1 ==> NoFences(sys, x, n))
  }

  lemma OneStep<W>(sys: Sys<W>, x: Machine<W>, m: Machine<W>, max: nat)
    requires !Halted(x) && Equiv(m, Step(sys, Tick(x))) && max > 0
    ensures TurnAgrees(sys, x, m, 1, max)
  {
    hide Step, Tick, Equiv, Halted, Poised;
    assert Steps(sys, x, 0) == x;
    assert Steps(sys, x, 1) == Step(sys, Tick(x));
  }

  /** The interpreter stands, after its prologue, where the block is entered. */
  ghost predicate Entered<W>(sys: Sys<W>, x: Machine<W>, s: Machine<W>, pa: Word, dirty: iset<nat>, max: nat)
    requires max > 0
  {
    && Passed(s) && RegsOk(s.core.rv64, s.core.regs) && PcOk(s.core)
    && Step(sys, Tick(x)) == ExecStep(sys, s) && (FencesNext(sys, x) <==> Fences(sys, s))
    && pa % 4096 == s.core.pc % 4096 && PageMapped(sys, s.core.world, CtxOf(s.core), s.core.pc, pa)
    && LocalAt(sys, s.core, pa, dirty) && Obeys(sys, ExecStep(sys, s), DirtyAt(sys, s, dirty), max - 1)
  }

  lemma EnteredReady<W>(sys: Sys<W>, s: Machine<W>, pa: Word, block: Block, dirty: iset<nat>)
    requires PcOk(s.core) && pa % 4096 == s.core.pc % 4096 && PageMapped(sys, s.core.world, CtxOf(s.core), s.core.pc, pa)
    requires LocalAt(sys, s.core, pa, dirty) && block.Some?
    requires EntryOk(sys, s.core.world, s.core.rv64, pa, s.core.pc, block, dirty)
    ensures Ready(sys, s.core, block.value, 0, s.core.pc, pa, dirty)
  {
    hide IsBlock, Placed, BlockFresh, LocalAt, PageMapped;
    SextOfLow(s.core.pc);
    assert Offset(block.value, 0) == 0;
  }

  /** Running the host code of the block, or retrying in the interpreter what it refused. */
  lemma BlockTurn<W(!new)>(sys: Sys<W>, x: Machine<W>, s: Machine<W>, pa: Word, block: Block, dirty: iset<nat>, max: nat)
    requires Laws(sys) && !Halted(x) && max > 0 && Entered(sys, x, s, pa, dirty, max)
    requires block.Some? && EntryOk(sys, s.core.world, s.core.rv64, pa, s.core.pc, block, dirty)
    requires |block.value| <= max && |block.value| <= Horizon(s)
    ensures var (c, n) := BlockExec(sys.env, s.core, block.value);
      && (n > 0 ==> TurnAgrees(sys, x, Advanced(s, c, n), n, max))
      && (n == 0 ==> TurnAgrees(sys, x, Step(sys, s.(core := c)), 1, max))
  {
    hide Laws, Passed, RegsOk, PcOk, ExecStep, Step, PageMapped, LocalAt, Obeys, Horizon, IsBlock, Placed, BlockFresh, FetchesBlock,
      Ready, Fences, FencesNext, BlockExec, ArchExec, DirtyAt, Sim, Poised, Equiv, Steps, Halted;
    var insts := block.value;
    EnteredReady(sys, s, pa, block, dirty);
    ReadyKind(sys, s.core, insts, 0, s.core.pc, pa, dirty);
    assert insts[0..] == insts;
    BlockFetches(sys, s, insts, 0, s.core.pc, pa, dirty, max);
    ExitPoised(sys, s, insts, 0, s.core.pc, pa, dirty, max);
    ArchFrame(sys.env, s.core, insts);
    var (c, n) := BlockExec(sys.env, s.core, insts);
    if n > 0 {
      BlockRounds(sys, s, insts);
      BlockNoFence(sys, s, insts);
      JoinTurn(sys, x, s, insts, max);
    } else {
      NoStepsNoChange(sys.env, s.core, insts);
      RetryTurn(sys, x, s, c, max);
    }
  }

  lemma JoinTurn<W>(sys: Sys<W>, x: Machine<W>, s: Machine<W>, insts: seq<Decoded>, max: nat)
    requires Step(sys, Tick(x)) == ExecStep(sys, s) && (FencesNext(sys, x) <==> Fences(sys, s)) && !Halted(x)
    requires Passed(s) && |insts| <= Horizon(s) && 0 < ArchExec(sys.env, s.core, insts).1 <= |insts| <= max
    requires RoundsAgree(sys, s, insts) && ExitSim(sys, s.core, insts)
    requires !Fences(sys, s) && NoFences(sys, ExecStep(sys, s), ArchExec(sys.env, s.core, insts).1 - 1)
    ensures var (c, n) := BlockExec(sys.env, s.core, insts); n > 0 && TurnAgrees(sys, x, Advanced(s, c, n), n, max)
  {
    hide ExecStep, Step, Fences, FencesNext, BlockExec, ArchExec, Poised, Sync, Halted, Steps, Passed, Horizon, PreStep, Equiv;
    var (c, n) := BlockExec(sys.env, s.core, insts);
    var e := ArchExec(sys.env, s.core, insts).0;
    var y := ExecStep(sys, s);
    RoundsShift(sys, x, y, n - 1);
    NoSteps(sys, x);
    forall j | 0 <= j < n ensures !Halted(Steps(sys, x, j)) && !FencesNext(sys, Steps(sys, x, j)) {
      if j > 0 { RoundsShift(sys, x, y, j - 1); }
    }
    if c != e {
      RefusedProceeds(sys.env, s, insts);
      JoinAhead(sys, s, c, e, n, Steps(sys, x, n));
    }
  }

  /** A refused exit is ahead of the interpreter, with no interrupt before the access. */
  lemma JoinAhead<W>(sys: Sys<W>, s: Machine<W>, c: Core<W>, e: Core<W>, n: nat, b: Machine<W>)
    requires n > 0 && Poised(sys, c, e) && Equiv(Advanced(s, e, n), b)
    requires !Halted(Advanced(s, e, n)) && PreStep(Tick(Advanced(s, e, n))).Proceed?
    ensures Ahead(sys, Advanced(s, c, n), b) && PreStep(Tick(b)).Proceed?
  {
    hide Poised, Sync, Taken, EnterTrap;
    assert Advanced(s, c, n).(core := e) == Advanced(s, e, n);
    SamePrologue(Advanced(s, e, n), b);
  }

  lemma NoSteps<W>(sys: Sys<W>, m: Machine<W>)
    ensures Steps(sys, m, 0) == m
  {
  }

  lemma RetryTurn<W(!new)>(sys: Sys<W>, x: Machine<W>, s: Machine<W>, c: Core<W>, max: nat)
    requires max > 0 && Laws(sys) && !Halted(x) && Passed(s) && Step(sys, Tick(x)) == ExecStep(sys, s)
    requires c == s.core || Poised(sys, c, s.core)
    ensures TurnAgrees(sys, x, Step(sys, s.(core := c)), 1, max)
  {
    hide Passed, ExecStep, Step, Poised, Halted, Idempotent, TranslateLaw, LoadLaw, StoreLaw, ResolveLaw, FetchLaw, OthersLaw;
    PoisedWorld(sys, s, c);
    PassedWithWorld(s, c.world);
    StepOfPassed(sys, s.(core := c));
    if c != s.core { DeviceRetry(sys, s, c); } else { assert s.(core := c) == s; }
    OneStep(sys, x, Step(sys, s.(core := c)), max);
  }

  lemma PoisedWorld<W>(sys: Sys<W>, s: Machine<W>, c: Core<W>)
    requires c == s.core || Poised(sys, c, s.core)
    ensures c == s.core.(world := c.world)
  {
    hide Fetchable, ExecOne, Probed;
  }

  // ---- The turn ---------------------------------------------------------------------------

  /** What the loop knows of the interpreter's machine before a turn. */
  ghost predicate Sound<W>(sys: Sys<W>, x: Machine<W>, dirty: iset<nat>, max: nat) {
    RegsOk(x.core.rv64, x.core.regs) && PcOk(x.core) && !Halted(x) && max > 0 && Obeys(sys, x, dirty, max)
  }

  /** What the table has for the place the JIT's machine stands at. */
  ghost predicate TableHas<W>(sys: Sys<W>, a: Machine<W>, w: W, block: Block, dirty: iset<nat>) {
    var r := sys.resolve(a.core.world, CtxOf(a.core), a.core.pc);
    r.Ok? ==> EntryOk(sys, w, a.core.rv64, r.pa, a.core.pc, block, dirty)
  }

  lemma EnterBlock<W(!new)>(sys: Sys<W>, x: Machine<W>, s: Machine<W>, pa: Word, w: W, dirty: iset<nat>, max: nat)
    requires Laws(sys) && Sound(sys, x, dirty, max) && PreStep(Tick(x)) == Proceed(s)
    requires sys.resolve(s.core.world, CtxOf(s.core), s.core.pc) == Ok(pa, w)
    ensures Entered(sys, x, s.(core := s.core.(world := w)), pa, dirty, max) && s.core == x.core && SameCode(sys, x.core.world, w)
    ensures Passed(s) && ExecStep(sys, s.(core := s.core.(world := w))) == ExecStep(sys, s)
  {
    hide RegsOk, ExecStep, PageMapped, LocalAt, Obeys, SextX, FetchAt, Sync, Taken, Horizon, Passed, DirtyAt, Idempotent, TranslateLaw,
      LoadLaw, StoreLaw, ResolveLaw, FetchLaw, OthersLaw, SameCode, VectorsOk;
    TickPasses(x);
    ResolvedStep(sys, s, pa, w);
    PassedWithWorld(s, w);
    ObeysHead(sys, x, dirty, max);
    SameDirty(sys, s, w, dirty);
  }

  lemma TickPasses<W>(x: Machine<W>)
    requires PreStep(Tick(x)).Proceed? && !Halted(x)
    ensures var s := PreStep(Tick(x)).m; Passed(s) && s.core == x.core
  {
    hide Taken, Sync;
    PassedAfterPre(Tick(x));
  }

  lemma DeclinedTurn<W>(sys: Sys<W>, x: Machine<W>, s: Machine<W>, max: nat)
    requires max > 0 && !Halted(x) && Passed(s) && Step(sys, Tick(x)) == ExecStep(sys, s)
    ensures TurnAgrees(sys, x, Step(sys, s), 1, max)
  {
    hide Passed, ExecStep, Step, Halted, Sync;
    StepOfPassed(sys, s);
    OneStep(sys, x, Step(sys, s), max);
  }

  lemma EnterAgrees<W(!new)>(sys: Sys<W>, x: Machine<W>, s: Machine<W>, pa: Word, block: Block, dirty: iset<nat>, max: nat)
    requires Laws(sys) && !Halted(x) && max > 0 && Entered(sys, x, s, pa, dirty, max)
    requires EntryOk(sys, s.core.world, s.core.rv64, pa, s.core.pc, block, dirty)
    ensures var (m', n) := Enter(sys, s, block, max);
      if n == 0 then TurnAgrees(sys, x, Step(sys, m'), 1, max) else TurnAgrees(sys, x, m'.(mtime := m'.mtime + n - 1), n, max)
  {
    hide Passed, RegsOk, PcOk, ExecStep, Step, PageMapped, LocalAt, Obeys, Horizon, IsBlock, Placed, BlockFresh, Halted, BlockExec, Run,
      Compile, TurnAgrees, Idempotent, TranslateLaw, LoadLaw, StoreLaw, ResolveLaw, FetchLaw, OthersLaw, DirtyAt, Fences, FencesNext;
    if block.None? || |block.value| > max || |block.value| > Horizon(s) {
      DeclinedTurn(sys, x, s, max);
    } else {
      BlockTurn(sys, x, s, pa, block, dirty, max);
      BlockRun(sys.env, s.core, block.value);
    }
  }

  /** One turn, from a machine equal to the interpreter's. */
  lemma LevelTurn<W(!new)>(sys: Sys<W>, a: Machine<W>, x: Machine<W>, block: Block, dirty: iset<nat>, max: nat)
    requires Laws(sys) && Sound(sys, x, dirty, max) && Equiv(a, x) && TableHas(sys, a, x.core.world, block, dirty)
    ensures var (m, n) := Turn(sys, Tick(a), block, max); TurnAgrees(sys, x, m, n, max)
  {
    hide RegsOk, PcOk, ExecStep, Obeys, Horizon, Halted, EntryOk, Enter, TurnAgrees, Idempotent, TranslateLaw, LoadLaw, StoreLaw,
      ResolveLaw, FetchLaw, OthersLaw, Sync, Taken, EnterTrap, Entered, SameCode, Passed;
    SamePrologue(a, x);
    match PreStep(Tick(x)) {
      case Consumed(m) => OneStepTo(sys, x, m, max);
      case Proceed(s) =>
        TickPasses(x);
        match sys.resolve(s.core.world, CtxOf(s.core), s.core.pc) {
          case Fault(_) => DeclinedTurn(sys, x, s, max);
          case Ok(pa, w) =>
            EnterBlock(sys, x, s, pa, w, dirty, max);
            EntrySameCode(sys, x.core.world, w, x.core.rv64, pa, x.core.pc, block, dirty);
            EnterAgrees(sys, x, s.(core := s.core.(world := w)), pa, block, dirty, max);
        }
    }
  }

  lemma OneStepTo<W>(sys: Sys<W>, x: Machine<W>, m: Machine<W>, max: nat)
    requires max > 0 && !Halted(x) && PreStep(Tick(x)) == Consumed(m)
    ensures TurnAgrees(sys, x, m, 1, max)
  {
    hide PreStep, Halted, Sync;
    OneStep(sys, x, m, max);
  }

  // ---- With memory one access ahead -------------------------------------------------------

  lemma PoisedAccess<W>(sys: Sys<W>, d: Core<W>, c: Core<W>) returns (i: Inst, ilen: Word)
    requires Poised(sys, d, c)
    ensures FetchCore(sys, c) == Fetched(i, ilen, c.world) && ExecOne(sys.env, c, i, ilen).Device?
    ensures d == c.(world := Probed(sys.env, c, i))
  {
    hide ExecOne, Probed, FetchAt, Fetchable;
    var va0, pa, off;
    i, ilen, va0, pa, off :| PoisedAt(sys, d, c, i, ilen, va0, pa, off);
    FetchableFetches(sys, c, i, ilen, va0, pa, off);
  }

  /** The interpreter's next step makes the access either way, and the two machines are equal again. */
  lemma Reconverges<W(!new)>(sys: Sys<W>, a: Machine<W>, x: Machine<W>)
    requires Idempotent(sys.env) && TranslateLaw(sys) && Sim(sys, a, x) && !Halted(x)
    ensures Equiv(Step(sys, Tick(a)), Step(sys, Tick(x)))
  {
    hide Poised, Idempotent, TranslateLaw, ExecStep, Sync, Taken, EnterTrap;
    if Equiv(a, x) {
      StepRespectsEquiv(sys, a, x);
    } else {
      PoisedWorld(sys, x, a.core);
      AheadPrologue(a, x);
      TickPasses(x);
      var s := PreStep(Tick(x)).m;
      DeviceRetry(sys, s, a.core);
      StepProceeds(sys, x, s);
      StepProceeds(sys, a, s.(core := a.core));
    }
  }

  /** A block looked up where the access was refused starts with that access, and refuses it again
      at once. */
  lemma RefusedAgain<W(!new)>(sys: Sys<W>, x: Machine<W>, s: Machine<W>, d: Core<W>, pa: Word, block: Block, dirty: iset<nat>, max: nat)
    requires Laws(sys) && max > 0 && Entered(sys, x, s, pa, dirty, max) && Poised(sys, d, s.core)
    requires block.Some? && EntryOk(sys, s.core.world, s.core.rv64, pa, s.core.pc, block, dirty)
    ensures BlockExec(sys.env, d, block.value) == (d, 0)
  {
    hide Laws, Passed, RegsOk, PcOk, ExecStep, Step, PageMapped, LocalAt, Obeys, IsBlock, Placed, BlockFresh, Ready, Fences, FencesNext,
      DirtyAt, Poised, ExecOne, Probed, Idempotent, FetchAt;
    EnteredReady(sys, s, pa, block, dirty);
    ReadyKind(sys, s.core, block.value, 0, s.core.pc, pa, dirty);
    ReadyFetches(sys, s.core, block.value, 0, s.core.pc, pa, dirty);
    var i, ilen := PoisedAccess(sys, d, s.core);
    assert Idempotent(sys.env) by { LawsIdempotent(sys); }
    ProbedAgain(sys, s.core, i, ilen);
    assert block.value[0] == Decoded(i, ilen);
    assert d.(world := d.world) == d;
  }

  lemma LawsIdempotent<W(!new)>(sys: Sys<W>)
    requires Laws(sys)
    ensures Idempotent(sys.env) && TranslateLaw(sys) && ResolveLaw(sys)
  {
  }

  lemma AheadEnter<W(!new)>(sys: Sys<W>, x: Machine<W>, s: Machine<W>, d: Core<W>, pa: Word, block: Block, dirty: iset<nat>, max: nat)
    requires Laws(sys) && !Halted(x) && max > 0 && Entered(sys, x, s, pa, dirty, max) && Poised(sys, d, s.core)
    requires EntryOk(sys, s.core.world, s.core.rv64, pa, s.core.pc, block, dirty)
    ensures Enter(sys, s.(core := d), block, max) == (s.(core := d), 0)
  {
    hide Laws, Passed, RegsOk, PcOk, ExecStep, Step, PageMapped, LocalAt, Obeys, IsBlock, Placed, BlockFresh, Fences, FencesNext,
      DirtyAt, Poised, Idempotent, BlockExec, Run, Compile, Horizon;
    if block.Some? {
      PoisedWorld(sys, s, d);
      SameForms(s.core, d);
      RefusedAgain(sys, x, s, d, pa, block, dirty, max);
      LawsIdempotent(sys);
      BlockRun(sys.env, d, block.value);
    }
  }

  lemma SameForms<W>(c: Core<W>, d: Core<W>)
    requires d == c.(world := d.world)
    ensures PcOk(d) == PcOk(c) && RegsOk(d.rv64, d.regs) == RegsOk(c.rv64, c.regs)
  {
  }

  /** One turn, from a machine whose next device access is already translated. */
  lemma AheadTurn<W(!new)>(sys: Sys<W>, a: Machine<W>, x: Machine<W>, block: Block, dirty: iset<nat>, max: nat)
    requires Laws(sys) && Sound(sys, x, dirty, max) && TableHas(sys, a, x.core.world, block, dirty)
    requires Ahead(sys, a, x) && PreStep(Tick(x)).Proceed?
    ensures var (m, n) := Turn(sys, Tick(a), block, max); TurnAgrees(sys, x, m, n, max)
  {
    hide RegsOk, PcOk, ExecStep, Obeys, Horizon, Halted, EntryOk, Enter, TurnAgrees, Laws, Sync, Taken, EnterTrap, Entered, Passed,
      Poised, LocalAt, VectorsOk, SameCode;
    PoisedWorld(sys, x, a.core);
    AheadPrologue(a, x);
    TickPasses(x);
    LawsIdempotent(sys);
    var s := PreStep(Tick(x)).m;
    DeviceRetry(sys, s, a.core);
    var pa := sys.resolve(a.core.world, CtxOf(a.core), a.core.pc).pa;
    assert s.(core := s.core.(world := s.core.world)) == s;
    EnterBlock(sys, x, s, pa, s.core.world, dirty, max);
    AheadEnter(sys, x, s, a.core, pa, block, dirty, max);
    assert s.(core := a.core).(core := a.core.(world := a.core.world)) == s.(core := a.core);
    StepProceeds(sys, x, s);
    RetryTurn(sys, x, s, a.core, max);
  }

  lemma StepProceeds<W>(sys: Sys<W>, x: Machine<W>, s: Machine<W>)
    requires PreStep(Tick(x)) == Proceed(s)
    ensures Step(sys, Tick(x)) == ExecStep(sys, s)
  {
    hide PreStep, ExecStep;
  }

  /** One turn of the JIT loop keeps the relation to the interpreter, which meanwhile takes as many
      steps as the turn consumed; a turn that uses up the steps it may take ends in its machine. */
  lemma TurnCorrect<W(!new)>(sys: Sys<W>, a: Machine<W>, x: Machine<W>, block: Block, dirty: iset<nat>, max: nat)
    requires Laws(sys) && Sound(sys, x, dirty, max) && Sim(sys, a, x) && TableHas(sys, a, x.core.world, block, dirty)
    ensures var (m, n) := Turn(sys, Tick(a), block, max); TurnAgrees(sys, x, m, n, max)
  {
    hide Laws, Sound, TableHas, Equiv, Poised, Turn, TurnAgrees, PreStep;
    if Equiv(a, x) {
      LevelTurn(sys, a, x, block, dirty, max);
    } else {
      AheadTurn(sys, a, x, block, dirty, max);
    }
  }
}
