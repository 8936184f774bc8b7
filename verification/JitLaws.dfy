/** What the translator relies on.

    `Laws` is about the emulator's memory: how translations, loads and stores affect the code that can
    be fetched and the mapping of the page it is fetched from.  Memory built from the page-table walk
    meets it (`JitPaged`).  `Obeys` is about the guest: the FENCE.I contract, no store that remaps the
    page it runs from, and trap vectors that keep the pc in its stored form.  It is stated of the
    interpreter's run alone. */
module JitLaws {
  import opened RvWords
  import opened Rv
  import opened Machine
  import opened JitStep

  // ---- Memory -----------------------------------------------------------------------------

  ghost predicate SameCode<W>(sys: Sys<W>, w: W, w': W) {
    forall h: nat :: sys.half(w', h) == sys.half(w, h)
  }

  /** A translation of a pc keeps its answer, and goes on changing nothing if it changed nothing. */
  ghost predicate MapKept<W>(r: Trans<W>, r': Trans<W>, w: W, w': W) {
    match r
    case Fault(code) => r' == Fault(code)
    case Ok(pa, x) => r'.Ok? && r'.pa == pa && (x == w ==> r'.world == w')
  }

  ghost predicate KeepsMaps<W>(sys: Sys<W>, w: W, w': W) {
    forall ctx, pc: Word :: MapKept(sys.resolve(w, ctx, pc), sys.resolve(w', ctx, pc), w, w')
  }

  predicate SamePage(a: Word, b: Word) { a / 4096 == b / 4096 }

  /** The address `at` in the physical page of `pa`. */
  function PageAt(pa: Word, at: Word): Word { pa / 4096 * 4096 + at % 4096 }

  /** Every pc of the page is mapped into the page of `pa`, and translating it changes nothing. */
  ghost predicate PageMapped<W>(sys: Sys<W>, w: W, ctx: Ctx, pc: Word, pa: Word) {
    forall at: Word :: SamePage(pc, at) ==> sys.resolve(w, ctx, at) == Ok(PageAt(pa, at), w)
  }

  function Width(i: Inst): nat { if i.f3 % 4 == 0 then 1 else if i.f3 % 4 == 1 then 2 else if i.f3 % 4 == 2 then 4 else 8 }

  /** The halfword at h meets the bytes of the store. */
  predicate Overlaps(h: nat, pa: Word, i: Inst) { h < pa + Width(i) && pa < h + 2 }

  ghost predicate TranslateLaw<W(!new)>(sys: Sys<W>) {
    forall w, ctx, va, acc :: var t := sys.env.translate(w, ctx, va, acc);
      t.Ok? ==> SameCode(sys, w, t.world) && KeepsMaps(sys, w, t.world)
  }

  ghost predicate LoadLaw<W(!new)>(sys: Sys<W>) {
    forall w, pa, i :: var w' := sys.env.load(w, pa, i).world; SameCode(sys, w, w') && KeepsMaps(sys, w, w')
  }

  /** A store changes only the halfwords it meets, and no mapping unless it writes a page table. */
  ghost predicate StoreLaw<W(!new)>(sys: Sys<W>) {
    forall w, pa, i, v :: var w' := sys.env.store(w, pa, i, v).world;
      && (forall h: nat :: !Overlaps(h, pa, i) ==> sys.half(w', h) == sys.half(w, h))
      && (!sys.inTables(w, pa, i) ==> KeepsMaps(sys, w, w'))
  }

  /** Translating a pc leaves the code alone and settles the mapping of its page. */
  ghost predicate ResolveLaw<W(!new)>(sys: Sys<W>) {
    forall w, ctx, pc: Word :: var r := sys.resolve(w, ctx, pc);
      r.Ok? ==> SameCode(sys, w, r.world) && r.pa % 4096 == pc % 4096 && PageMapped(sys, r.world, ctx, pc, r.pa)
  }

  ghost predicate FetchLaw<W(!new)>(sys: Sys<W>) {
    && (forall w, ctx, pc :: SameCode(sys, w, sys.deviceFetch(w, ctx, pc).world))
    && (forall x, rv64 :: sys.expand(x, rv64).Some? ==> WellFormed(sys.expand(x, rv64).value))
    && (forall x :: WellFormed(sys.decode(x)))
  }

  // ---- The pc -----------------------------------------------------------------------------

  /** The pc as control transfers leave it: even, and sign-extended on RV32. */
  predicate PcOk<W>(c: Core<W>) { c.pc % 2 == 0 && SextX(c.rv64, c.pc) == c.pc }

  /** A trap vector none of whose entries leaves the stored form. */
  predicate TvecOk(rv64: bool, tvec: Word) {
    rv64 || (Sext32(tvec) == tvec && !(tvec % 2 == 1 && TrapBase(tvec) < 0x8000_0000 <= TrapBase(tvec) + 44))
  }

  predicate VectorsOk<W>(c: Core<W>) { TvecOk(c.rv64, c.csr.mtvec) && TvecOk(c.rv64, c.csr.stvec) }

  /** What everything outside the integer core keeps. */
  ghost predicate Keeps<W>(m: Machine<W>, m': Machine<W>) {
    && m'.core.rv64 == m.core.rv64
    && (RegsOk(m.core.rv64, m.core.regs) ==> RegsOk(m'.core.rv64, m'.core.regs))
    && (PcOk(m.core) && VectorsOk(m.core) ==> PcOk(m'.core))
  }

  ghost predicate OthersLaw<W(!new)>(sys: Sys<W>) {
    && (forall m, i, ilen :: Keeps(m, sys.other(m, i, ilen)))
    && (forall m, pa, i, ilen :: Keeps(m, sys.device(m, pa, i, ilen)))
  }

  ghost predicate Laws<W(!new)>(sys: Sys<W>) {
    && Idempotent(sys.env) && TranslateLaw(sys) && LoadLaw(sys) && StoreLaw(sys)
    && ResolveLaw(sys) && FetchLaw(sys) && OthersLaw(sys)
  }

  // ---- What a step writes -----------------------------------------------------------------

  predicate IsFenceI(i: Inst) { i.op == OpFence && i.f3 == 1 }

  ghost function Changed<W>(sys: Sys<W>, w: W, w': W): iset<nat> { iset h: nat | sys.half(w', h) != sys.half(w, h) }

  /** The halfwords met by a store instruction. */
  ghost function StoreBytes<W>(sys: Sys<W>, c: Core<W>, i: Inst): iset<nat> {
    var t := sys.env.translate(c.world, CtxOf(c), EffectiveAddress(c, i), AccessOf(i));
    if i.op == OpStore && t.Ok? then iset h: nat | Overlaps(h, t.pa, i) else iset{}
  }

  /** The halfwords a step may change: those its store meets, or for a device access and the
      instructions outside the integer core those it does change. */
  ghost function Writes<W>(sys: Sys<W>, s: Machine<W>): iset<nat> {
    match FetchCore(sys, s.core)
    case FetchTrap(_, _, _) => iset{}
    case Fetched(i, ilen, w) =>
      var m := s.(core := s.core.(world := w));
      var o := ExecOne(sys.env, m.core, i, ilen);
      if o.Retired? || o.Trapped? then StoreBytes(sys, m.core, i)
      else Changed(sys, w, ExecFetched(sys, m, i, ilen).core.world)
  }

  predicate Fences<W>(sys: Sys<W>, s: Machine<W>) {
    var f := FetchCore(sys, s.core); f.Fetched? && IsFenceI(f.inst)
  }

  /** Halfwords stored to since the last FENCE.I. */
  ghost function DirtyAt<W>(sys: Sys<W>, s: Machine<W>, dirty: iset<nat>): iset<nat> {
    if Fences(sys, s) then iset{} else dirty + Writes(sys, s)
  }

  ghost function DirtyNext<W>(sys: Sys<W>, x: Machine<W>, dirty: iset<nat>): iset<nat> {
    match PreStep(Tick(x))
    case Consumed(_) => dirty
    case Proceed(s) => DirtyAt(sys, s, dirty)
  }

  // ---- The guest's side -------------------------------------------------------------------

  predicate Wide<W>(sys: Sys<W>, w: W, h: nat) { var x := sys.half(w, h); x.Some? && x.value % 4 == 3 }

  /** The instruction at physical address pa has not been stored to; its upper half counts when it
      follows in the same page. */
  ghost predicate CleanAt<W>(sys: Sys<W>, w: W, pa: nat, dirty: iset<nat>) {
    pa !in dirty && (Wide(sys, w, pa) && pa % 4096 != 4094 ==> pa + 2 !in dirty)
  }

  /** A store to the page tables leaves the page it is fetched from where it is. */
  ghost predicate KeepsOwnPage<W>(sys: Sys<W>, c: Core<W>, pa: Word) {
    var f := FetchCore(sys, c);
    f.Fetched? && f.world == c.world && f.inst.op == OpStore ==>
      var t := sys.env.translate(c.world, CtxOf(c), EffectiveAddress(c, f.inst), Store);
      var o := ExecOne(sys.env, c, f.inst, f.ilen);
      t.Ok? && sys.inTables(t.world, t.pa, f.inst) && o.Retired? ==> PageMapped(sys, o.core.world, CtxOf(c), c.pc, pa)
  }

  /** The obligations of one fetch, at a hart whose pc is already translated to pa. */
  ghost predicate LocalAt<W>(sys: Sys<W>, c: Core<W>, pa: Word, dirty: iset<nat>) {
    !sys.env.isDevice(pa) ==> CleanAt(sys, c.world, pa, dirty) && KeepsOwnPage(sys, c, pa)
  }

  ghost predicate LocalOk<W>(sys: Sys<W>, x: Machine<W>, dirty: iset<nat>) {
    VectorsOk(x.core) &&
    match PreStep(Tick(x))
    case Consumed(_) => true
    case Proceed(s) =>
      var r := sys.resolve(s.core.world, CtxOf(s.core), s.core.pc);
      r.Ok? ==> LocalAt(sys, s.core.(world := r.world), r.pa, dirty)
  }

  /** The next n steps of the interpreter from x keep the contract. */
  ghost predicate Obeys<W>(sys: Sys<W>, x: Machine<W>, dirty: iset<nat>, n: nat)
    decreases n
  {
    n > 0 && !Halted(x) ==>
      LocalOk(sys, x, dirty) && Obeys(sys, Step(sys, Tick(x)), DirtyNext(sys, x, dirty), n - 1)
  }

  /** What Obeys leaves after k steps. */
  ghost function DirtyAfter<W>(sys: Sys<W>, x: Machine<W>, dirty: iset<nat>, k: nat): iset<nat>
    decreases k
  {
    if k == 0 then dirty else DirtyAfter(sys, Step(sys, Tick(x)), DirtyNext(sys, x, dirty), k - 1)
  }
}
