/** One turn of the JIT loop against the interpreter.

    A block that stops at a device access has already translated the address, so the JIT's memory can
    be one accessed or dirty bit ahead of the interpreter's.  The bit is the one the interpreter sets
    when it makes the access in its next step, after which the two agree again. */
module JitSim {
  import opened Basics
  import opened Words
  import opened RvWords
  import opened Rv
  import opened Machine
  import opened RvFrame
  import opened Jit
  import opened JitStep
  import opened JitBlock
  import opened JitRun
  import opened JitTranslate
  import opened JitLaws
  import opened JitFresh
  import opened JitFetch

  // ---- The dispatcher ---------------------------------------------------------------------

  type Block = Option<seq<Decoded>>

  function StartBlock<W>(c: Core<W>): Host<W> { Host(c, 0, 0, 0, 0, 0) }

  /** jit_run, given the block the table holds for the pc: the machine left behind and the steps
      consumed, zero asking for the interpreter. */
  function Dispatch<W>(sys: Sys<W>, m: Machine<W>, block: Block, maxSteps: nat): (Machine<W>, nat) {
    match PreStep(m)
    case Consumed(m') => (m', 1)
    case Proceed(s) =>
      match sys.resolve(s.core.world, CtxOf(s.core), s.core.pc)
      case Fault(_) => (s, 0)
      case Ok(pa, w) => Enter(sys, s.(core := s.core.(world := w)), block, maxSteps)
  }

  function Enter<W>(sys: Sys<W>, s: Machine<W>, block: Block, maxSteps: nat): (Machine<W>, nat) {
    if block.None? || |block.value| > maxSteps || |block.value| > Horizon(s) then (s, 0)
    else
      var c := s.core;
      var r := Run(sys.env, Compile(c.rv64, block.value, BlockAddress(c.rv64, c.pc), 0), StartBlock(c));
      (s.(core := r.core), r.ret)
  }

  /** One turn of the JIT loop after the tick: dispatch, or step the interpreter. */
  function Turn<W>(sys: Sys<W>, m: Machine<W>, block: Block, maxSteps: nat): (Machine<W>, nat) {
    var (m', n) := Dispatch(sys, m, block, maxSteps);
    if n == 0 then (Step(sys, m'), 1) else (m'.(mtime := m'.mtime + n - 1), n)
  }

  // ---- The relation -----------------------------------------------------------------------

  /** The hart d is c with the address of the device access it is about to make already translated. */
  ghost predicate Poised<W>(sys: Sys<W>, d: Core<W>, c: Core<W>) {
    exists i, ilen, va0, pa, off :: PoisedAt(sys, d, c, i, ilen, va0, pa, off)
  }

  ghost predicate PoisedAt<W>(sys: Sys<W>, d: Core<W>, c: Core<W>, i: Inst, ilen: Word, va0: Word, pa: Word, off: nat) {
    && Fetchable(sys, c, i, ilen, va0, pa, off) && c.halt == Running && !c.plat.poweroff
    && ExecOne(sys.env, c, i, ilen).Device?
    && d == c.(world := Probed(sys.env, c, i))
  }

  /** The instruction is read from plain memory at a pc whose translation is settled. */
  ghost predicate Fetchable<W>(sys: Sys<W>, c: Core<W>, i: Inst, ilen: Word, va0: Word, pa: Word, off: nat) {
    && At(CodeOf(sys, c.world), c.rv64, va0, pa, off) == Some(Decoded(i, ilen)) && pa + off < W64
    && sys.resolve(c.world, CtxOf(c), c.pc) == Ok(pa + off, c.world)
    && (ilen == 4 ==> pa + off + 2 < W64 && sys.resolve(c.world, CtxOf(c), Plus(c.pc, 2)) == Ok(pa + off + 2, c.world))
  }

  /** The JIT's machine a is the interpreter's machine b, or b with its next device access probed and no
      interrupt to take before it. */
  ghost predicate Sim<W>(sys: Sys<W>, a: Machine<W>, b: Machine<W>) {
    Equiv(a, b) || (Ahead(sys, a, b) && PreStep(Tick(b)).Proceed?)
  }

  ghost predicate Ahead<W>(sys: Sys<W>, a: Machine<W>, b: Machine<W>) {
    Poised(sys, a.core, b.core) && Equiv(a.(core := b.core), b)
  }

  // ---- Retrying a refused access ----------------------------------------------------------

  lemma DeviceTranslates<W>(env: Env<W>, c: Core<W>, i: Inst, ilen: Word)
    requires ExecOne(env, c, i, ilen).Device?
    ensures IsMem(i) && var t := env.translate(c.world, CtxOf(c), EffectiveAddress(c, i), AccessOf(i));
      t.Ok? && env.isDevice(t.pa) && Probed(env, c, i) == t.world
  {
    hide RaiseTrap, Write, Read, AluResult, Plus, BranchTaken, EffectiveAddress, SextX;
  }

  lemma TranslatesDevice<W>(env: Env<W>, c: Core<W>, i: Inst, ilen: Word)
    requires IsMem(i) && var t := env.translate(c.world, CtxOf(c), EffectiveAddress(c, i), AccessOf(i)); t.Ok? && env.isDevice(t.pa)
    ensures ExecOne(env, c, i, ilen).Device?
  {
    hide EffectiveAddress;
  }

  /** With the address already translated the access is the same access. */
  lemma ProbedAgain<W(!new)>(sys: Sys<W>, c: Core<W>, i: Inst, ilen: Word)
    requires Idempotent(sys.env) && ExecOne(sys.env, c, i, ilen).Device?
    ensures var d := c.(world := Probed(sys.env, c, i)); ExecOne(sys.env, d, i, ilen).Device? && Probed(sys.env, d, i) == d.world
  {
    hide ExecOne, EffectiveAddress;
    var d := c.(world := Probed(sys.env, c, i));
    DeviceTranslates(sys.env, c, i, ilen);
    AddressOfRegs(c, d, i);
    TranslatesDevice(sys.env, d, i, ilen);
  }

  lemma SameDeviceAccess<W(!new)>(sys: Sys<W>, m: Machine<W>, i: Inst, ilen: Word)
    requires Idempotent(sys.env) && ExecOne(sys.env, m.core, i, ilen).Device?
    ensures var d := m.core.(world := Probed(sys.env, m.core, i));
      ExecFetched(sys, m.(core := d), i, ilen) == ExecFetched(sys, m, i, ilen)
  {
    hide ExecOne, EffectiveAddress;
    var d := m.core.(world := Probed(sys.env, m.core, i));
    DeviceTranslates(sys.env, m.core, i, ilen);
    ProbedAgain(sys, m.core, i, ilen);
    AddressOfRegs(m.core, d, i);
    assert m.(core := d).(core := d.(world := d.world)) == m.(core := d);
  }

  lemma FetchableFetches<W>(sys: Sys<W>, c: Core<W>, i: Inst, ilen: Word, va0: Word, pa: Word, off: nat)
    requires Fetchable(sys, c, i, ilen, va0, pa, off)
    ensures FetchCore(sys, c) == Fetched(i, ilen, c.world)
  {
    hide At, FetchAt, Plus;
    FetchFrom(sys, c, va0, pa, off);
  }

  lemma FetchableKept<W>(sys: Sys<W>, c: Core<W>, w: W, i: Inst, ilen: Word, va0: Word, pa: Word, off: nat)
    requires Fetchable(sys, c, i, ilen, va0, pa, off) && SameCode(sys, c.world, w) && KeepsMaps(sys, c.world, w)
    ensures Fetchable(sys, c.(world := w), i, ilen, va0, pa, off)
  {
    hide At, Plus;
    AtKept(sys, c.world, w, c.rv64, va0, pa, off);
    assert MapKept(sys.resolve(c.world, CtxOf(c), c.pc), sys.resolve(w, CtxOf(c), c.pc), c.world, w);
    assert MapKept(sys.resolve(c.world, CtxOf(c), Plus(c.pc, 2)), sys.resolve(w, CtxOf(c), Plus(c.pc, 2)), c.world, w);
  }

  /** Stepping from the poised hart is stepping from the hart: the access is made either way. */
  lemma DeviceRetry<W(!new)>(sys: Sys<W>, s: Machine<W>, d: Core<W>)
    requires Idempotent(sys.env) && TranslateLaw(sys) && Poised(sys, d, s.core)
    ensures ExecStep(sys, s.(core := d)) == ExecStep(sys, s)
    ensures sys.resolve(d.world, CtxOf(d), d.pc).Ok? && sys.resolve(d.world, CtxOf(d), d.pc).world == d.world
    ensures sys.resolve(s.core.world, CtxOf(d), d.pc) == Ok(sys.resolve(d.world, CtxOf(d), d.pc).pa, s.core.world)
  {
    hide At, ExecOne, Probed, ExecFetched, FetchAt, SameCode, KeepsMaps, Idempotent, EffectiveAddress;
    var i, ilen, va0, pa, off :| PoisedAt(sys, d, s.core, i, ilen, va0, pa, off);
    DeviceTranslates(sys.env, s.core, i, ilen);
    FetchableKept(sys, s.core, d.world, i, ilen, va0, pa, off);
    FetchableFetches(sys, s.core, i, ilen, va0, pa, off);
    FetchableFetches(sys, d, i, ilen, va0, pa, off);
    SameDeviceAccess(sys, s, i, ilen);
    RetiredStep(sys, s, i, ilen);
    RetiredStep(sys, s.(core := d), i, ilen);
  }

  // ---- Leaving a block --------------------------------------------------------------------

  lemma ReadyPoised<W>(sys: Sys<W>, c: Core<W>, insts: seq<Decoded>, j: nat, pc0: Word, pa: Word, dirty: iset<nat>)
    requires Ready(sys, c, insts, j, pc0, pa, dirty)
    ensures Fetchable(sys, c, insts[j].inst, insts[j].ilen, BlockAddress(c.rv64, pc0), pa, Offset(insts, j))
  {
    hide SextX, PageMapped, At, Offset, PageAt, KeepsOwnPage, IsBlock, Placed, FetchAt;
    var off, n := Offset(insts, j), insts[j].ilen;
    BlockKind(c.rv64, insts, j);
    PlacedAt(sys, c.rv64, pc0, pa, insts, j);
    PagePlaces(sys, c.world, c.rv64, CtxOf(c), pc0, pa, off, n);
    assert FreshAt(sys, c.world, c.rv64, BlockAddress(c.rv64, pc0), pa, insts[j], off, dirty);
  }

  /** A block leaves the hart as the interpreter does, or with the refused access probed. */
  ghost predicate ExitSim<W>(sys: Sys<W>, c: Core<W>, insts: seq<Decoded>) {
    var (d, n) := BlockExec(sys.env, c, insts);
    var (e, k) := ArchExec(sys.env, c, insts);
    n == k && (d == e || Poised(sys, d, e))
  }

  lemma {:induction false} ExitPoised<W(!new)>(sys: Sys<W>, t: Machine<W>, insts: seq<Decoded>, j: nat, pc0: Word, pa: Word,
                                               dirty: iset<nat>, n: nat)
    requires Laws(sys) && Passed(t) && Ready(sys, t.core, insts, j, pc0, pa, dirty)
    requires |insts| - j <= Horizon(t) && |insts| - j <= n && Obeys(sys, ExecStep(sys, t), DirtyAt(sys, t, dirty), n - 1)
    ensures ExitSim(sys, t.core, insts[j..])
    decreases |insts| - j
  {
    hide SextX, PageMapped, Offset, PageAt, KeepsOwnPage, IsBlock, Placed, FetchAt, Laws, BlockFresh, ExecOne, LocalAt, LocalOk,
      KindOf, Passed, Horizon, Ready, Obeys, ExecStep, Sync, Taken, Boundary, PreStep, Step, Poised, Probed, Writes;
    var c := t.core;
    ReadyKind(sys, c, insts, j, pc0, pa, dirty);
    var d := insts[j];
    assert insts[j..][0] == d && insts[j..][1..] == insts[j + 1..];
    var o := ExecOne(sys.env, c, d.inst, d.ilen);
    if o.Retired? && KindOf(c.rv64, d.inst) != Term {
      if j + 1 < |insts| {
        var s := NextReady(sys, t, insts, j, pc0, pa, dirty, n);
        ExitPoised(sys, s, insts, j + 1, pc0, pa, dirty + Writes(sys, t), n - 1);
      } else {
        assert insts[j + 1..] == [];
        assert BlockExec(sys.env, o.core, []) == (o.core, 0) && ArchExec(sys.env, o.core, []) == (o.core, 0);
      }
    } else if o.Device? {
      ReadyPoised(sys, c, insts, j, pc0, pa, dirty);
      StillRunning(t);
      PoisedWitness(sys, c, d.inst, d.ilen, BlockAddress(c.rv64, pc0), pa, Offset(insts, j));
    }
  }

  lemma StillRunning<W>(t: Machine<W>)
    requires Passed(t)
    ensures t.core.halt == Running && !t.core.plat.poweroff
  {
  }

  lemma PoisedWitness<W>(sys: Sys<W>, c: Core<W>, i: Inst, ilen: Word, va0: Word, pa: Word, off: nat)
    requires Fetchable(sys, c, i, ilen, va0, pa, off) && ExecOne(sys.env, c, i, ilen).Device?
    requires c.halt == Running && !c.plat.poweroff
    ensures Poised(sys, c.(world := Probed(sys.env, c, i)), c)
  {
    hide Fetchable, ExecOne, Probed;
    assert PoisedAt(sys, c.(world := Probed(sys.env, c, i)), c, i, ilen, va0, pa, off);
  }

  // ---- FENCE.I ----------------------------------------------------------------------------

  /** The next step executes a FENCE.I. */
  predicate FencesNext<W>(sys: Sys<W>, x: Machine<W>) {
    match PreStep(Tick(x))
    case Consumed(_) => false
    case Proceed(s) => Fences(sys, s)
  }

  ghost predicate NoFences<W>(sys: Sys<W>, x: Machine<W>, n: nat) {
    forall j :: 0 <= j < n ==> !FencesNext(sys, Steps(sys, x, j))
  }

  lemma FirstNoFence<W>(sys: Sys<W>, s: Machine<W>, insts: seq<Decoded>)
    requires insts != [] && FetchesBlock(sys, s.core, insts) && IsBlock(s.core.rv64, insts)
    ensures !Fences(sys, s)
  {
    hide ExecOne, FetchAt, KindOf, IsBlock;
    BlockKind(s.core.rv64, insts, 0);
    NotFence(s.core.rv64, insts[0].inst);
  }

  /** No step of a block is a FENCE.I. */
  lemma {:induction false} BlockNoFence<W>(sys: Sys<W>, s: Machine<W>, insts: seq<Decoded>)
    requires Passed(s) && FetchesBlock(sys, s.core, insts) && |insts| <= Horizon(s) && RegsOk(s.core.rv64, s.core.regs)
    requires IsBlock(s.core.rv64, insts)
    ensures var n := ArchExec(sys.env, s.core, insts).1; n > 0 ==> !Fences(sys, s) && NoFences(sys, ExecStep(sys, s), n - 1)
    decreases |insts|
  {
    hide ExecOne, KindOf, RegsOk, ExecStep, Sync, Horizon, Taken, Passed, Boundary, IsBlock, FetchAt, Fences, PreStep, Step;
    if insts != [] {
      var o := ExecOne(sys.env, s.core, insts[0].inst, insts[0].ilen);
      FirstInstruction(sys, s, insts);
      FirstNoFence(sys, s, insts);
      if o.Retired? && KindOf(s.core.rv64, insts[0].inst) != Term && ArchExec(sys.env, o.core, insts[1..]).1 > 0 {
        BlockHead(s.core.rv64, insts);
        RetiredKeeps(sys.env, s.core, insts[0].inst, insts[0].ilen);
        ExecFrame(sys.env, s.core, insts[0].inst, insts[0].ilen);
        ArchFrame(sys.env, o.core, insts[1..]);
        NextPassed(sys, s, o.core);
        BoundaryProceeds(s, o.core);
        var s' := Boundary(s, o.core, 1);
        BlockNoFence(sys, s', insts[1..]);
        NoFencesShift(sys, s.(core := o.core), s', ArchExec(sys.env, o.core, insts[1..]).1 - 1);
      }
    }
  }

  lemma NoFencesShift<W>(sys: Sys<W>, e: Machine<W>, s: Machine<W>, n: nat)
    requires PreStep(Tick(e)) == Proceed(s) && !Fences(sys, s) && NoFences(sys, ExecStep(sys, s), n)
    ensures NoFences(sys, e, n + 1)
  {
    hide Sync, Taken, ExecStep, Fences, PreStep;
    forall j | 0 <= j < n + 1 ensures !FencesNext(sys, Steps(sys, e, j)) {
      if j > 0 { RoundsShift(sys, e, ExecStep(sys, s), j - 1); }
    }
  }

  // ---- What the table must hold -----------------------------------------------------------

  /** A block the translator made for this place, true of memory wherever it has not been stored to. */
  ghost predicate EntryOk<W>(sys: Sys<W>, w: W, rv64: bool, pa: Word, pc: Word, block: Block, dirty: iset<nat>) {
    block.Some? ==>
      && block.value != [] && IsBlock(rv64, block.value) && Placed(sys, BlockAddress(rv64, pc), pa, block.value)
      && BlockFresh(sys, w, rv64, BlockAddress(rv64, pc), pa, block.value, dirty)
  }

  lemma EntrySameCode<W>(sys: Sys<W>, w: W, w': W, rv64: bool, pa: Word, pc: Word, block: Block, dirty: iset<nat>)
    requires EntryOk(sys, w, rv64, pa, pc, block, dirty) && SameCode(sys, w, w')
    ensures EntryOk(sys, w', rv64, pa, pc, block, dirty)
  {
    hide IsBlock, Placed, BlockFresh;
    if block.Some? {
      FreshKept(sys, w, w', rv64, BlockAddress(rv64, pc), pa, block.value, dirty, iset{});
      assert dirty + iset{} == dirty;
    }
  }

  // ---- The prologue -----------------------------------------------------------------------

  lemma PassedAfterPre<W>(m: Machine<W>)
    requires PreStep(m).Proceed? && !Halted(m)
    ensures PreStep(m).m == Sync(m) && Passed(Sync(m)) && Sync(m).core == m.core
  {
    hide Taken;
    SyncAbsorbs(m, m.core, m.mtime);
    assert Sync(m).(core := m.core, mtime := m.mtime) == Sync(m);
  }

  /** The prologue does not look at memory. */
  lemma PassedWithWorld<W>(s: Machine<W>, w: W)
    requires Passed(s)
    ensures Passed(s.(core := s.core.(world := w))) && Horizon(s.(core := s.core.(world := w))) == Horizon(s)
  {
  }

  lemma StepOfPassed<W>(sys: Sys<W>, s: Machine<W>)
    requires Passed(s)
    ensures Step(sys, s) == ExecStep(sys, s)
  {
    hide Taken, Sync, ExecStep;
  }

  lemma SamePrologue<W>(a: Machine<W>, x: Machine<W>)
    requires Equiv(a, x) && !Halted(x)
    ensures PreStep(Tick(a)) == PreStep(Tick(x))
  {
    hide Taken, EnterTrap;
    SyncAbsorbs(a, a.core, a.mtime + 1);
    SyncAbsorbs(x, x.core, x.mtime + 1);
    assert Sync(a).(core := a.core, mtime := a.mtime + 1) == Sync(x).(core := x.core, mtime := x.mtime + 1);
    assert Sync(Tick(a)) == Sync(Tick(x));
  }

  /** Memory ahead of the interpreter's does not show in the prologue. */
  lemma AheadPrologue<W>(a: Machine<W>, x: Machine<W>)
    requires a.core == x.core.(world := a.core.world) && Equiv(a.(core := x.core), x) && !Halted(x)
    ensures match PreStep(Tick(x))
      case Consumed(_) => PreStep(Tick(a)).Consumed?
      case Proceed(s) => PreStep(Tick(a)) == Proceed(s.(core := a.core))
  {
    var b := a.(core := x.core);
    SamePrologue(b, x);
    SyncWorld(Tick(b), a.core.world);
    TakenWorld(Sync(Tick(b)), a.core.world);
    hide Taken, Sync, EnterTrap;
    assert Tick(b).(core := a.core) == Tick(a);
  }

  lemma SyncWorld<W>(m: Machine<W>, w: W)
    ensures var c := m.core.(world := w); Sync(m.(core := c)) == Sync(m).(core := c) && Sync(m).core == m.core
  {
  }

  lemma TakenWorld<W>(m: Machine<W>, w: W)
    ensures Taken(m.(core := m.core.(world := w))) == Taken(m)
  {
  }

  // ---- Translating the pc -----------------------------------------------------------------

  /** Translating the pc first does not change the step: the interpreter translates it again. */
  lemma ResolvedStep<W(!new)>(sys: Sys<W>, s: Machine<W>, pa: Word, w: W)
    requires ResolveLaw(sys) && sys.resolve(s.core.world, CtxOf(s.core), s.core.pc) == Ok(pa, w)
    ensures var s' := s.(core := s.core.(world := w));
      && sys.resolve(w, CtxOf(s.core), s.core.pc) == Ok(pa, w) && SameCode(sys, s.core.world, w)
      && pa % 4096 == s.core.pc % 4096 && PageMapped(sys, w, CtxOf(s.core), s.core.pc, pa)
      && FetchCore(sys, s'.core) == FetchCore(sys, s.core) && ExecStep(sys, s') == ExecStep(sys, s)
  {
    hide ExecFetched, RaiseTrap, FetchUpper;
    var c := s.core;
    var s' := s.(core := c.(world := w));
    assert SamePage(c.pc, c.pc) && PageAt(pa, c.pc) == pa;
    var f := FetchCore(sys, c);
    assert FetchCore(sys, s'.core) == f;
    assert s'.core.(world := f.world) == c.(world := f.world);
    assert s'.(core := c.(world := f.world)) == s.(core := c.(world := f.world));
  }

  lemma SameDirty<W>(sys: Sys<W>, s: Machine<W>, w: W, dirty: iset<nat>)
    requires FetchCore(sys, s.core.(world := w)) == FetchCore(sys, s.core)
    ensures DirtyAt(sys, s.(core := s.core.(world := w)), dirty) == DirtyAt(sys, s, dirty)
  {
    hide ExecFetched, ExecOne, FetchAt, StoreBytes, Changed;
    var f := FetchCore(sys, s.core);
    var s' := s.(core := s.core.(world := w));
    assert s'.core.(world := f.world) == s.core.(world := f.world);
    assert s'.(core := s.core.(world := f.world)) == s.(core := s.core.(world := f.world));
  }
}
