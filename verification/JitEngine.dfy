/** The dispatcher with its block table (jit_run) and the two branches of quanta_run on one hart: the
    JIT's run against the interpreter's. */
module JitEngine {
  import opened Basics
  import opened RvWords
  import opened Rv
  import opened Machine
  import opened JitStep
  import opened JitBlock
  import opened JitRun
  import opened JitTranslate
  import opened JitLaws
  import opened JitPc
  import opened JitFetch
  import opened JitSim
  import opened JitTurn
  import opened JitTable

  // ---- Runs -------------------------------------------------------------------------------

  /** A run of at most `cap` steps that stops at the first halt. */
  ghost predicate RunLength<W>(sys: Sys<W>, m: Machine<W>, cap: nat, n: nat) {
    && n <= cap
    && (forall j :: 0 <= j < n ==> !Halted(Steps(sys, m, j)))
    && (n == cap || Halted(Steps(sys, m, n)))
  }

  /** The step count of a run is determined by its start. */
  lemma RunLengthUnique<W>(sys: Sys<W>, m: Machine<W>, cap: nat, a: nat, b: nat)
    requires RunLength(sys, m, cap, a) && RunLength(sys, m, cap, b)
    ensures a == b
  {
  }

  /** The interpreter branch of quanta_run on one hart. */
  method RunInterpreter<W>(sys: Sys<W>, start: Machine<W>, cap: nat) returns (m: Machine<W>, steps: nat)
    ensures m == Steps(sys, start, steps) && RunLength(sys, start, cap, steps)
  {
    hide Step, Tick, Halted;
    m, steps := start, 0;
    while !Halted(m) && steps < cap
      invariant steps <= cap && m == Steps(sys, start, steps)
      invariant forall j :: 0 <= j < steps ==> !Halted(Steps(sys, start, j))
    {
      m := Step(sys, Tick(m));
      steps := steps + 1;
    }
  }

  // ---- What a run keeps -------------------------------------------------------------------

  /** Registers and pc in stored form, and the guest's side still kept. */
  ghost predicate Going<W>(sys: Sys<W>, x: Machine<W>, dirty: iset<nat>, n: nat) {
    RegsOk(x.core.rv64, x.core.regs) && PcOk(x.core) && Obeys(sys, x, dirty, n)
  }

  lemma GoingStep<W(!new)>(sys: Sys<W>, x: Machine<W>, dirty: iset<nat>, n: nat)
    requires OthersLaw(sys) && Going(sys, x, dirty, n) && n > 0 && !Halted(x)
    ensures Going(sys, Step(sys, Tick(x)), DirtyNext(sys, x, dirty), n - 1) && Step(sys, Tick(x)).core.rv64 == x.core.rv64
  {
    hide RegsOk, PcOk, Obeys, Step, DirtyNext, OthersLaw, PreStep, LocalAt, VectorsOk;
    ObeysHead(sys, x, dirty, n);
    StepKeeps(sys, Tick(x));
  }

  lemma {:induction false} GoingSteps<W(!new)>(sys: Sys<W>, x: Machine<W>, dirty: iset<nat>, n: nat, k: nat)
    requires OthersLaw(sys) && Going(sys, x, dirty, n) && k <= n
    requires forall j :: 0 <= j < k ==> !Halted(Steps(sys, x, j))
    ensures Going(sys, Steps(sys, x, k), DirtyAfter(sys, x, dirty, k), n - k) && Steps(sys, x, k).core.rv64 == x.core.rv64
    decreases k
  {
    hide Going, Step, DirtyNext, OthersLaw, Halted, Tick;
    NoSteps(sys, x);
    if k > 0 {
      assert !Halted(Steps(sys, x, 0));
      GoingStep(sys, x, dirty, n);
      var y := Step(sys, Tick(x));
      forall j | 0 <= j < k - 1 ensures !Halted(Steps(sys, y, j)) { RoundsShift(sys, x, y, j); assert !Halted(Steps(sys, x, j + 1)); }
      RoundsShift(sys, x, y, k - 1);
      GoingSteps(sys, y, DirtyNext(sys, x, dirty), n - 1, k - 1);
    }
  }

  lemma {:induction false} TableSteps<W(!new)>(sys: Sys<W>, x: Machine<W>, made: Made, dirty: iset<nat>, n: nat)
    requires Laws(sys) && RegsOk(x.core.rv64, x.core.regs) && TableFresh(sys, x.core.world, x.core.rv64, made, dirty)
    requires NoFences(sys, x, n) && forall j :: 0 <= j < n ==> !Halted(Steps(sys, x, j))
    ensures TableFresh(sys, Steps(sys, x, n).core.world, x.core.rv64, made, DirtyAfter(sys, x, dirty, n))
    decreases n
  {
    hide Laws, TableFresh, RegsOk, Step, DirtyNext, Halted, Tick, FencesNext;
    NoSteps(sys, x);
    if n > 0 {
      assert !Halted(Steps(sys, x, 0)) && !FencesNext(sys, Steps(sys, x, 0));
      TableStep(sys, x, made, dirty);
      var y := Step(sys, Tick(x));
      StepForms(sys, x);
      forall j | 0 <= j < n - 1 ensures !Halted(Steps(sys, y, j)) && !FencesNext(sys, Steps(sys, y, j)) {
        RoundsShift(sys, x, y, j);
        assert !Halted(Steps(sys, x, j + 1)) && !FencesNext(sys, Steps(sys, x, j + 1));
      }
      RoundsShift(sys, x, y, n - 1);
      TableSteps(sys, y, made, DirtyNext(sys, x, dirty), n - 1);
    }
  }

  lemma StepForms<W(!new)>(sys: Sys<W>, x: Machine<W>)
    requires Laws(sys) && RegsOk(x.core.rv64, x.core.regs)
    ensures var y := Step(sys, Tick(x)); y.core.rv64 == x.core.rv64 && RegsOk(y.core.rv64, y.core.regs)
  {
    hide RegsOk, PcOk, VectorsOk, Step, Idempotent, TranslateLaw, LoadLaw, StoreLaw, ResolveLaw, FetchLaw, OthersLaw;
    StepKeeps(sys, Tick(x));
  }

  // ---- The relation during a run ----------------------------------------------------------

  lemma TranslateKeeps<W(!new)>(sys: Sys<W>, w: W, ctx: Ctx, va: Word, acc: Access)
    requires TranslateLaw(sys)
    ensures var t := sys.env.translate(w, ctx, va, acc); t.Ok? ==> SameCode(sys, w, t.world) && KeepsMaps(sys, w, t.world)
  {
    hide SameCode, KeepsMaps;
  }

  /** The poised hart fetches the same access, from the same code. */
  lemma PoisedFetch<W(!new)>(sys: Sys<W>, d: Core<W>, c: Core<W>) returns (i: Inst, ilen: Word)
    requires TranslateLaw(sys) && Poised(sys, d, c)
    ensures FetchCore(sys, c) == Fetched(i, ilen, c.world) && FetchCore(sys, d) == Fetched(i, ilen, d.world) && IsMem(i)
    ensures SameCode(sys, c.world, d.world) && d == c.(world := d.world) && c.halt == Running && !c.plat.poweroff
  {
    hide ExecOne, Probed, FetchAt, Fetchable, SameCode, KeepsMaps, TranslateLaw, EffectiveAddress;
    var va0, pa, off;
    i, ilen, va0, pa, off :| PoisedAt(sys, d, c, i, ilen, va0, pa, off);
    DeviceTranslates(sys.env, c, i, ilen);
    TranslateKeeps(sys, c.world, CtxOf(c), EffectiveAddress(c, i), AccessOf(i));
    FetchableKept(sys, c, d.world, i, ilen, va0, pa, off);
    FetchableFetches(sys, c, i, ilen, va0, pa, off);
    FetchableFetches(sys, d, i, ilen, va0, pa, off);
  }

  /** What the relation means: everything but memory is the interpreter's, memory holds the same code,
      and a machine that has halted is the interpreter's altogether. */
  lemma SimMeans<W(!new)>(sys: Sys<W>, a: Machine<W>, x: Machine<W>)
    requires TranslateLaw(sys) && Sim(sys, a, x)
    ensures a.core == x.core.(world := a.core.world) && a.mtime == x.mtime
    ensures SameCode(sys, x.core.world, a.core.world)
    ensures Halted(x) ==> Equiv(a, x)
  {
    hide Poised, Sync, TranslateLaw, FetchAt;
    if !Equiv(a, x) { var i, ilen := PoisedFetch(sys, a.core, x.core); }
  }

  /** Both machines see the same FENCE.I. */
  lemma SimFences<W(!new)>(sys: Sys<W>, a: Machine<W>, x: Machine<W>)
    requires TranslateLaw(sys) && Sim(sys, a, x) && !Halted(x)
    ensures FencesNext(sys, a) == FencesNext(sys, x)
  {
    hide Poised, Sync, TranslateLaw, FetchAt, Taken, EnterTrap, SameCode;
    if Equiv(a, x) {
      SamePrologue(a, x);
    } else {
      var i, ilen := PoisedFetch(sys, a.core, x.core);
      AheadPrologue(a, x);
      if PreStep(Tick(x)).Proceed? { TickKeepsCore(x); }
    }
  }

  // ---- The dispatcher ---------------------------------------------------------------------

  lemma FreshInsert<W>(sys: Sys<W>, w: W, rv64: bool, made: Made, made': Made, pa: Word, pc: Word, block: Block, dirty: iset<nat>)
    requires TableFresh(sys, w, rv64, made, dirty) && EntryOk(sys, w, rv64, pa, pc, block, dirty)
    requires made' == made || made' == made[(pa, pc) := block] || made' == map[(pa, pc) := block]
    ensures TableFresh(sys, w, rv64, made', dirty)
  {
    hide EntryOk;
  }

  lemma DecodesCode<W(!new)>(sys: Sys<W>, w: W)
    requires Laws(sys)
    ensures DecodesWell(CodeOf(sys, w))
  {
    hide WellFormed;
  }

  /** jit_run: the prologue, the translation of the pc, the table, and the block.  The table stays true
      of memory, and what is run is what it has. */
  method JitRunBlock<W(!new)>(table: Table, sys: Sys<W>, m: Machine<W>, max: nat, size: seq<Decoded> -> nat,
                              ghost w: W, ghost dirty: iset<nat>)
    returns (m': Machine<W>, n: nat, ghost block: Block)
    requires table.Valid() && Laws(sys) && SameCode(sys, w, m.core.world)
    requires TableFresh(sys, w, m.core.rv64, table.made, dirty)
    modifies table, table.entries
    ensures table.Valid() && TableFresh(sys, w, m.core.rv64, table.made, dirty)
    ensures TableHas(sys, m, w, block, dirty) && (m', n) == Dispatch(sys, m, block, max)
  {
    hide Laws, TableFresh, EntryOk, SameCode, Enter, Sync, Taken, EnterTrap, Translated;
    block := None;
    NoneOk(sys, w, m, dirty);
    match PreStep(m) {
      case Consumed(x) => return x, 1, None;
      case Proceed(s) =>
        ProceedCore(m);
        match sys.resolve(s.core.world, CtxOf(s.core), s.core.pc) {
          case Fault(_) => return s, 0, None;
          case Ok(pa, w1) =>
            DecodesCode(sys, w1);
            ghost var made := table.made;
            var b := table.BlockAt(CodeOf(sys, w1), s.core.rv64, pa, s.core.pc, size);
            FoundOk(sys, w, s.core, pa, w1, size, made, table.made, b, dirty);
            var r := Enter(sys, s.(core := s.core.(world := w1)), b, max);
            return r.0, r.1, b;
        }
    }
  }

  lemma ProceedCore<W>(m: Machine<W>)
    ensures PreStep(m).Proceed? ==> PreStep(m).m.core == m.core
  {
    hide Taken;
  }

  lemma NoneOk<W>(sys: Sys<W>, w: W, m: Machine<W>, dirty: iset<nat>)
    ensures TableHas(sys, m, w, None, dirty)
  {
  }

  lemma FoundOk<W(!new)>(sys: Sys<W>, w: W, c: Core<W>, pa: Word, w1: W, size: seq<Decoded> -> nat, was: Made, made: Made,
                         block: Block, dirty: iset<nat>)
    requires Laws(sys) && SameCode(sys, w, c.world) && sys.resolve(c.world, CtxOf(c), c.pc) == Ok(pa, w1)
    requires TableFresh(sys, w, c.rv64, was, dirty) && (pa, c.pc) in made && made[(pa, c.pc)] == block
    requires if made == was then (pa, c.pc) in was
      else Translated(CodeOf(sys, w1), c.rv64, pa, c.pc, size, block) && (made == was[(pa, c.pc) := block] || made == map[(pa, c.pc) := block])
    ensures EntryOk(sys, w, c.rv64, pa, c.pc, block, dirty) && TableFresh(sys, w, c.rv64, made, dirty)
  {
    hide EntryOk, Translated, CodeOf, Idempotent, TranslateLaw, LoadLaw, StoreLaw, FetchLaw, OthersLaw;
    if made != was {
      assert SameCode(sys, c.world, w1);
      assert SameCode(sys, w1, w);
      TranslatedOk(sys, w1, c.rv64, pa, c.pc, size, block, dirty);
      EntrySameCode(sys, w1, w, c.rv64, pa, c.pc, block, dirty);
      FreshInsert(sys, w, c.rv64, was, made, pa, c.pc, block, dirty);
    } else {
      assert EntryOk(sys, w, c.rv64, (pa, c.pc).0, (pa, c.pc).1, was[(pa, c.pc)], dirty);
    }
  }

  // ---- Whole runs -------------------------------------------------------------------------

  lemma {:induction false} ObeysLess<W>(sys: Sys<W>, x: Machine<W>, dirty: iset<nat>, n: nat, k: nat)
    requires Obeys(sys, x, dirty, n) && k <= n
    ensures Obeys(sys, x, dirty, k)
    decreases k
  {
    hide LocalOk, Step, DirtyNext, Halted, Tick;
    if k > 0 && !Halted(x) { ObeysLess(sys, Step(sys, Tick(x)), DirtyNext(sys, x, dirty), n - 1, k - 1); }
  }

  lemma ExtendRun<W(!new)>(sys: Sys<W>, start: Machine<W>, done: nat, m: Machine<W>, n: nat, max: nat, dirty: iset<nat>, left: nat)
    requires OthersLaw(sys) && max <= left && Going(sys, Steps(sys, start, done), dirty, left)
    requires forall j :: 0 <= j < done ==> !Halted(Steps(sys, start, j))
    requires TurnAgrees(sys, Steps(sys, start, done), m, n, max)
    ensures var x := Steps(sys, start, done);
      Sim(sys, m, Steps(sys, start, done + n)) && Going(sys, Steps(sys, start, done + n), DirtyAfter(sys, x, dirty, n), left - n)
    ensures Steps(sys, start, done + n) == Steps(sys, Steps(sys, start, done), n)
    ensures n == max ==> Equiv(m, Steps(sys, start, done + n))
    ensures Steps(sys, start, done + n).core.rv64 == Steps(sys, start, done).core.rv64
    ensures forall j :: 0 <= j < done + n ==> !Halted(Steps(sys, start, j))
  {
    hide Steps, Sim, Going, OthersLaw, Halted, DirtyAfter, FencesNext, Equiv;
    var x := Steps(sys, start, done);
    GoingSteps(sys, x, dirty, left, n);
    StepsAdd(sys, start, done, n);
    forall j | 0 <= j < done + n ensures !Halted(Steps(sys, start, j)) {
      if j >= done { StepsAdd(sys, start, done, j - done); assert !Halted(Steps(sys, x, j - done)); }
    }
  }

  /** What the JIT keeps between turns: its machine is related to the interpreter's, which has `left`
      steps of the guest's contract still to run, and the table is true of memory. */
  ghost predicate InStep<W>(sys: Sys<W>, m: Machine<W>, x: Machine<W>, made: Made, dirty: iset<nat>, left: nat) {
    Sim(sys, m, x) && Going(sys, x, dirty, left) && TableFresh(sys, x.core.world, x.core.rv64, made, dirty)
  }

  lemma StartInStep<W>(sys: Sys<W>, start: Machine<W>, cap: nat)
    requires RegsOk(start.core.rv64, start.core.regs) && PcOk(start.core) && Obeys(sys, start, iset{}, cap)
    ensures InStep(sys, start, start, map[], iset{}, cap)
  {
    hide RegsOk, PcOk, Obeys, Step, Sync;
  }

  /** A turn of the dispatcher or, where it declines, of the interpreter, against the interpreter's run. */
  lemma TurnInStep<W(!new)>(sys: Sys<W>, start: Machine<W>, done: nat, a: Machine<W>, made: Made, block: Block, dirty: iset<nat>,
                            max: nat, left: nat)
    requires Laws(sys) && 0 < max <= left && InStep(sys, a, Steps(sys, start, done), made, dirty, left) && !Halted(a)
    requires forall j :: 0 <= j < done ==> !Halted(Steps(sys, start, j))
    requires TableHas(sys, a, Steps(sys, start, done).core.world, block, dirty)
    ensures var (m, n) := Turn(sys, Tick(a), block, max); var x := Steps(sys, start, done);
      && 0 < n <= max && (n == max ==> Equiv(m, Steps(sys, start, done + n)))
      && (forall j :: 0 <= j < done + n ==> !Halted(Steps(sys, start, j)))
      && InStep(sys, m, Steps(sys, start, done + n), if FencesNext(sys, a) then map[] else made, DirtyAfter(sys, x, dirty, n), left - n)
  {
    hide Steps, Sim, TableFresh, TableHas, Turn, RegsOk, PcOk, Obeys, FencesNext, TurnAgrees, DirtyAfter, Equiv,
      Idempotent, TranslateLaw, LoadLaw, StoreLaw, ResolveLaw, FetchLaw, OthersLaw;
    var x := Steps(sys, start, done);
    SimMeans(sys, a, x);
    ObeysLess(sys, x, dirty, left, max);
    TurnCorrect(sys, a, x, block, dirty, max);
    var (m, n) := Turn(sys, Tick(a), block, max);
    TurnFacts(sys, x, m, n, max);
    ExtendRun(sys, start, done, m, n, max, dirty, left);
    SimFences(sys, a, x);
    if FencesNext(sys, a) {
      EmptyFresh(sys, Steps(sys, x, n).core.world, x.core.rv64, DirtyAfter(sys, x, dirty, n));
    } else {
      TableSteps(sys, x, made, dirty, n);
    }
  }

  lemma TurnFacts<W>(sys: Sys<W>, x: Machine<W>, m: Machine<W>, n: nat, max: nat)
    requires TurnAgrees(sys, x, m, n, max)
    ensures 0 < n <= max && (forall j :: 0 <= j < n ==> !Halted(Steps(sys, x, j)))
    ensures FencesNext(sys, x) || NoFences(sys, x, n)
  {
    hide Sim, FencesNext, Halted, Step;
    NoSteps(sys, x);
  }

  lemma EmptyFresh<W>(sys: Sys<W>, w: W, rv64: bool, dirty: iset<nat>)
    ensures TableFresh(sys, w, rv64, map[], dirty)
  {
  }

  /** Between calls the JIT's machine is the interpreter's. */
  ghost predicate Level<W>(sys: Sys<W>, m: Machine<W>, x: Machine<W>, made: Made, dirty: iset<nat>, left: nat) {
    InStep(sys, m, x, made, dirty, left) && Equiv(m, x)
  }

  /** The JIT branch of quanta_run, continuing with the table of earlier calls: it stops after the same
      number of steps as the interpreter, in its machine, and leaves the table true of memory.  A block
      that refuses a device access has steps left to retry it in, so no call ends ahead. */
  method ContinueJit<W(!new)>(table: Table, sys: Sys<W>, start: Machine<W>, cap: nat, size: seq<Decoded> -> nat,
                              ghost x0: Machine<W>, ghost since: iset<nat>, ghost left: nat)
    returns (m: Machine<W>, steps: nat, ghost dirty: iset<nat>)
    requires Laws(sys) && cap <= left && table.Valid() && Level(sys, start, x0, table.made, since, left)
    modifies table, table.entries
    ensures table.Valid() && RunLength(sys, x0, cap, steps)
    ensures Level(sys, m, Steps(sys, x0, steps), table.made, dirty, left - steps)
  {
    hide Steps, Step, Laws, Sim, InStep, TableFresh, TableHas, Dispatch, RegsOk, PcOk, Obeys, FencesNext, DirtyAfter, Equiv;
    m, steps, dirty := start, 0, since;
    NoSteps(sys, x0);
    while !Halted(m) && steps < cap
      invariant steps <= cap && table.Valid()
      invariant InStep(sys, m, Steps(sys, x0, steps), table.made, dirty, left - steps)
      invariant steps == cap ==> Equiv(m, Steps(sys, x0, steps))
      invariant forall j :: 0 <= j < steps ==> !Halted(Steps(sys, x0, j))
      decreases cap - steps
    {
      ghost var x := Steps(sys, x0, steps);
      var before := m;
      InStepMeans(sys, m, x, table.made, dirty, left - steps);
      TickHas(sys, m, x.core.world, dirty);
      var n: nat;
      ghost var block: Block;
      m, n, block := JitRunBlock(table, sys, Tick(m), cap - steps, size, x.core.world, dirty);
      FreshInStep(sys, before, x, table.made, dirty, left - steps);
      TurnInStep(sys, x0, steps, before, table.made, block, dirty, cap - steps, left - steps);
      if n == 0 {
        m, n := Step(sys, m), 1;
      } else {
        m := m.(mtime := m.mtime + n - 1);
      }
      assert (m, n) == Turn(sys, Tick(before), block, cap - steps);
      if FencesNext(sys, before) { table.Flush(); }
      dirty := DirtyAfter(sys, x, dirty, n);
      steps := steps + n;
    }
    InStepMeans(sys, m, Steps(sys, x0, steps), table.made, dirty, left - steps);
  }

  /** A run from an empty table: the interpreter's step count and the interpreter's machine. */
  method RunJit<W(!new)>(sys: Sys<W>, start: Machine<W>, cap: nat, size: seq<Decoded> -> nat) returns (m: Machine<W>, steps: nat)
    requires Laws(sys) && RegsOk(start.core.rv64, start.core.regs) && PcOk(start.core) && Obeys(sys, start, iset{}, cap)
    ensures RunLength(sys, start, cap, steps) && Equiv(m, Steps(sys, start, steps))
  {
    hide Laws, InStep, RegsOk, PcOk, Obeys, RunLength, Sim, Steps;
    var table := new Table();
    StartInStep(sys, start, cap);
    ghost var dirty;
    m, steps, dirty := ContinueJit(table, sys, start, cap, size, start, iset{}, cap);
  }

  // ---- Between calls ----------------------------------------------------------------------

  /** The host has changed the external interrupt lines (a byte or a frame has arrived). */
  function SetLines<W>(m: Machine<W>, seip: bool, meip: bool): Machine<W> {
    m.(core := m.core.(plat := m.core.plat.(seip := seip, meip := meip)))
  }

  lemma LinesEquiv<W>(a: Machine<W>, x: Machine<W>, seip: bool, meip: bool)
    requires Equiv(a, x)
    ensures Equiv(SetLines(a, seip, meip), SetLines(x, seip, meip))
  {
  }

  /** A call may be resumed after such a change, if the guest keeps its contract from there. */
  lemma ResumeWithLines<W>(sys: Sys<W>, m: Machine<W>, x: Machine<W>, made: Made, dirty: iset<nat>, left: nat, more: nat, seip: bool, meip: bool)
    requires Level(sys, m, x, made, dirty, left) && Obeys(sys, SetLines(x, seip, meip), dirty, more)
    ensures Level(sys, SetLines(m, seip, meip), SetLines(x, seip, meip), made, dirty, more)
  {
    hide Obeys, RegsOk, SextX, TableFresh, Equiv, Ahead;
    LinesEquiv(m, x, seip, meip);
  }

  lemma PoisedLines<W>(sys: Sys<W>, a: Machine<W>, x: Machine<W>, seip: bool, meip: bool)
    requires Poised(sys, a.core, x.core)
    ensures Poised(sys, SetLines(a, seip, meip).core, SetLines(x, seip, meip).core)
  {
    hide ExecOne, Probed, At, EffectiveAddress, Plus;
    var i, ilen, va0, pa, off :| PoisedAt(sys, a.core, x.core, i, ilen, va0, pa, off);
    var c, c' := x.core, SetLines(x, seip, meip).core;
    DeviceTranslates(sys.env, c, i, ilen);
    AddressOfRegs(c, c', i);
    TranslatesDevice(sys.env, c', i, ilen);
    DeviceTranslates(sys.env, c', i, ilen);
    assert PoisedAt(sys, SetLines(a, seip, meip).core, c', i, ilen, va0, pa, off);
  }

  /** What a change of the lines in the middle of a call would do to the relation: it is kept exactly if
      the machines were equal or no interrupt is taken before the access. */
  lemma LinesExactly<W>(sys: Sys<W>, a: Machine<W>, x: Machine<W>, seip: bool, meip: bool)
    requires Sim(sys, a, x)
    ensures var a', x' := SetLines(a, seip, meip), SetLines(x, seip, meip);
      Sim(sys, a', x') <==> Equiv(a, x) || PreStep(Tick(x')).Proceed?
  {
    hide Poised, PreStep, Sync;
    if Equiv(a, x) {
      LinesEquiv(a, x, seip, meip);
    } else {
      PoisedWorld(sys, x, a.core);
      PoisedLines(sys, a, x, seip, meip);
      LinesEquiv(a.(core := x.core), x, seip, meip);
      var a', x' := SetLines(a, seip, meip), SetLines(x, seip, meip);
      assert SetLines(a.(core := x.core), seip, meip) == a'.(core := x'.core);
    }
  }

  /** And if one is taken, the difference shows. */
  lemma InterruptShows<W>(sys: Sys<W>, a: Machine<W>, x: Machine<W>)
    requires Ahead(sys, a, x) && !Halted(x) && PreStep(Tick(x)).Consumed?
    ensures Equiv(Step(sys, Tick(a)), Step(sys, Tick(x))) <==> Equiv(a, x)
  {
    hide Poised, Taken;
    PoisedWorld(sys, x, a.core);
    AheadPrologue(a, x);
    if a.core == x.core {
      assert a.(core := x.core) == a;
      StepRespectsEquiv(sys, a, x);
    } else {
      ConsumedWorld(a);
      ConsumedWorld(x);
    }
  }

  lemma InStepMeans<W(!new)>(sys: Sys<W>, m: Machine<W>, x: Machine<W>, made: Made, dirty: iset<nat>, left: nat)
    requires Laws(sys) && InStep(sys, m, x, made, dirty, left)
    ensures Sim(sys, m, x) && SameCode(sys, x.core.world, m.core.world) && TableFresh(sys, x.core.world, m.core.rv64, made, dirty)
    ensures Halted(m) == Halted(x) && (Halted(m) ==> Equiv(m, x)) && m.core.rv64 == x.core.rv64
  {
    hide TableFresh, Going, Sim, SameCode, Equiv, Idempotent, TranslateLaw, LoadLaw, StoreLaw, ResolveLaw, FetchLaw, OthersLaw;
    SimMeans(sys, m, x);
  }

  lemma TickHas<W>(sys: Sys<W>, m: Machine<W>, w: W, dirty: iset<nat>)
    ensures forall block :: TableHas(sys, Tick(m), w, block, dirty) == TableHas(sys, m, w, block, dirty)
  {
    hide EntryOk;
  }

  lemma FreshInStep<W>(sys: Sys<W>, m: Machine<W>, x: Machine<W>, made: Made, dirty: iset<nat>, left: nat)
    requires exists was :: InStep(sys, m, x, was, dirty, left)
    requires TableFresh(sys, x.core.world, x.core.rv64, made, dirty)
    ensures InStep(sys, m, x, made, dirty, left)
  {
    hide Sim, Going, TableFresh;
  }
}
