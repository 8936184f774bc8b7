/** A fresh block is what the interpreter fetches as it runs, and running it keeps the table fresh. */
module JitFetch {
  import opened Words
  import opened RvWords
  import opened Rv
  import opened Machine
  import opened RvFrame
  import opened Jit
  import opened JitStep
  import opened JitBlock
  import opened JitRun
  import opened JitTranslate
  import opened JitLaws
  import opened JitFresh

  /** The block lies in its page, in plain memory. */
  ghost predicate Placed<W>(sys: Sys<W>, va0: Word, pa: nat, insts: seq<Decoded>) {
    forall j :: 0 <= j < |insts| ==>
      va0 % 4096 + Offset(insts, j) + insts[j].ilen <= 4096 && !sys.env.isDevice(pa + Offset(insts, j))
  }

  /** The hart c stands before the j-th instruction of a fresh block whose page is mapped, and the
      guest keeps its side for this fetch. */
  ghost predicate Ready<W>(sys: Sys<W>, c: Core<W>, insts: seq<Decoded>, j: nat, pc0: Word, pa: Word, dirty: iset<nat>) {
    && j < |insts| && IsBlock(c.rv64, insts) && Placed(sys, BlockAddress(c.rv64, pc0), pa, insts)
    && SextX(c.rv64, pc0) == pc0 && pa % 4096 == pc0 % 4096 && PageMapped(sys, c.world, CtxOf(c), pc0, pa)
    && c.pc == SextX(c.rv64, BlockAddress(c.rv64, pc0) + Offset(insts, j))
    && BlockFresh(sys, c.world, c.rv64, BlockAddress(c.rv64, pc0), pa, insts, dirty)
    && LocalAt(sys, c, PageAt(pa, c.pc), dirty)
  }

  lemma {:induction false} OffsetBound(rv64: bool, insts: seq<Decoded>, j: nat)
    requires IsBlock(rv64, insts) && j <= |insts|
    ensures Offset(insts, j) <= 4 * j
  {
    hide WellFormed, KindOf;
    if j > 0 { OffsetBound(rv64, insts, j - 1); }
  }

  lemma OffsetNext(insts: seq<Decoded>, j: nat)
    requires j < |insts|
    ensures Offset(insts, j + 1) == Offset(insts, j) + insts[j].ilen
  {
  }

  lemma BlockKind(rv64: bool, insts: seq<Decoded>, j: nat)
    requires IsBlock(rv64, insts) && j < |insts|
    ensures KindOf(rv64, insts[j].inst) == Cont || KindOf(rv64, insts[j].inst) == Term
    ensures insts[j].ilen == 2 || insts[j].ilen == 4
  {
    hide KindOf, WellFormed;
  }

  lemma NotFence(rv64: bool, i: Inst)
    requires KindOf(rv64, i) != Stop
    ensures !IsFenceI(i)
  {
  }

  lemma PlacedAt<W>(sys: Sys<W>, rv64: bool, pc0: Word, pa: nat, insts: seq<Decoded>, j: nat)
    requires Placed(sys, BlockAddress(rv64, pc0), pa, insts) && j < |insts| && SextX(rv64, pc0) == pc0 && pc0 % 4096 < 4096
    ensures pc0 % 4096 + Offset(insts, j) + insts[j].ilen <= 4096 && !sys.env.isDevice(pa + Offset(insts, j))
  {
    hide Offset, SextX;
    PcAtOffset(rv64, pc0, 0);
  }

  /** A ready hart fetches the block's instruction: neither half of it has been stored to. */
  lemma ReadyFetches<W>(sys: Sys<W>, c: Core<W>, insts: seq<Decoded>, j: nat, pc0: Word, pa: Word, dirty: iset<nat>)
    requires Ready(sys, c, insts, j, pc0, pa, dirty)
    ensures FetchCore(sys, c) == Fetched(insts[j].inst, insts[j].ilen, c.world)
    ensures pc0 % 4096 + Offset(insts, j) + insts[j].ilen <= 4096 && c.pc == pc0 + Offset(insts, j)
    ensures pa + Offset(insts, j) < W64 && PageAt(pa, c.pc) == pa + Offset(insts, j) && KeepsOwnPage(sys, c, PageAt(pa, c.pc))
  {
    hide SextX, PageMapped, At, Offset, PageAt, KeepsOwnPage, IsBlock, Placed, FetchAt;
    var off, n := Offset(insts, j), insts[j].ilen;
    BlockKind(c.rv64, insts, j);
    PlacedAt(sys, c.rv64, pc0, pa, insts, j);
    PagePlaces(sys, c.world, c.rv64, CtxOf(c), pc0, pa, off, n);
    assert FreshAt(sys, c.world, c.rv64, BlockAddress(c.rv64, pc0), pa, insts[j], off, dirty);
    FetchFrom(sys, c, BlockAddress(c.rv64, pc0), pa, off);
  }

  lemma StraightPc<W>(env: Env<W>, c: Core<W>, i: Inst, ilen: Word)
    requires KindOf(c.rv64, i) == Cont
    ensures var o := ExecOne(env, c, i, ilen);
      o.Retired? ==> o.core.pc == SextX(c.rv64, Plus(c.pc, ilen)) && o.core.rv64 == c.rv64
  {
    hide RaiseTrap, Write, Read, AluResult, Plus, SextX, EffectiveAddress;
  }

  /** The page stays mapped and the block stays fresh over a retired instruction. */
  lemma ReadyNext<W(!new)>(sys: Sys<W>, c: Core<W>, c': Core<W>, insts: seq<Decoded>, j: nat, pc0: Word, pa: Word,
                           dirty: iset<nat>, more: iset<nat>)
    requires Laws(sys) && Ready(sys, c, insts, j, pc0, pa, dirty) && j + 1 < |insts|
    requires ExecOne(sys.env, c, insts[j].inst, insts[j].ilen) == Retired(c') && KindOf(c.rv64, insts[j].inst) == Cont
    requires ChangesOnly(sys, c.world, c'.world, more)
    ensures c'.rv64 == c.rv64 && CtxOf(c') == CtxOf(c) && PageMapped(sys, c'.world, CtxOf(c'), pc0, pa)
    ensures c'.pc == SextX(c'.rv64, BlockAddress(c'.rv64, pc0) + Offset(insts, j + 1))
    ensures LocalAt(sys, c', PageAt(pa, c'.pc), dirty + more) ==> Ready(sys, c', insts, j + 1, pc0, pa, dirty + more)
  {
    hide SextX, PageMapped, Offset, PageAt, KeepsOwnPage, IsBlock, Placed, FetchAt, Laws, BlockFresh, ExecOne, LocalAt, KindOf, Plus;
    ReadyFetches(sys, c, insts, j, pc0, pa, dirty);
    BlockKind(c.rv64, insts, j);
    var off := Offset(insts, j);
    RetiredKeeps(sys.env, c, insts[j].inst, insts[j].ilen);
    StraightPc(sys.env, c, insts[j].inst, insts[j].ilen);
    PcPlus(c.rv64, BlockAddress(c.rv64, pc0) + off, insts[j].ilen);
    OffsetNext(insts, j);
    PageMappedMove(sys, c.world, CtxOf(c), pc0, pa, off);
    CoreKeepsPage(sys, c, insts[j].inst, insts[j].ilen, pa + off);
    PageMappedMove(sys, c'.world, CtxOf(c), pc0, pa, off);
    FreshKept(sys, c.world, c'.world, c.rv64, BlockAddress(c.rv64, pc0), pa, insts, dirty, more);
  }

  lemma ObeysHead<W>(sys: Sys<W>, x: Machine<W>, dirty: iset<nat>, n: nat)
    requires Obeys(sys, x, dirty, n) && n > 0 && !Halted(x)
    ensures LocalOk(sys, x, dirty) && Obeys(sys, Step(sys, Tick(x)), DirtyNext(sys, x, dirty), n - 1)
  {
    hide LocalOk, Step, DirtyNext;
  }

  lemma LocalAtBoundary<W>(sys: Sys<W>, x: Machine<W>, s: Machine<W>, pa: Word, dirty: iset<nat>)
    requires LocalOk(sys, x, dirty) && PreStep(Tick(x)) == Proceed(s)
    requires sys.resolve(s.core.world, CtxOf(s.core), s.core.pc) == Ok(pa, s.core.world)
    ensures LocalAt(sys, s.core, pa, dirty)
  {
    hide LocalAt, VectorsOk, Sync, Taken;
    assert s.core.(world := s.core.world) == s.core;
  }

  lemma BoundaryProceeds<W>(s: Machine<W>, c: Core<W>)
    requires Passed(s) && SameGates(s.core, c) && c.instret == s.core.instret + 1 && Horizon(s) >= 2
    ensures PreStep(Tick(s.(core := c))) == Proceed(Boundary(s, c, 1))
  {
    hide Horizon, Taken;
    HorizonSound(s, c, 1);
    assert Tick(s.(core := c)) == s.(core := c, mtime := s.mtime + 1);
  }

  lemma PcIsMapped<W>(sys: Sys<W>, c: Core<W>, pc0: Word, pa: Word)
    requires PageMapped(sys, c.world, CtxOf(c), pc0, pa) && SamePage(pc0, c.pc)
    ensures sys.resolve(c.world, CtxOf(c), c.pc) == Ok(PageAt(pa, c.pc), c.world)
  {
  }

  lemma StaysInPlace<W>(sys: Sys<W>, rv64: bool, pc0: Word, pa: Word, insts: seq<Decoded>, j: nat)
    requires IsBlock(rv64, insts) && Placed(sys, BlockAddress(rv64, pc0), pa, insts) && SextX(rv64, pc0) == pc0 && j < |insts|
    ensures SamePage(pc0, SextX(rv64, BlockAddress(rv64, pc0) + Offset(insts, j)))
  {
    hide SextX, Offset, IsBlock, Placed;
    BlockKind(rv64, insts, j);
    PlacedAt(sys, rv64, pc0, pa, insts, j);
    PcAtOffset(rv64, pc0, Offset(insts, j));
  }

  /** A fresh block, entered at a boundary that has been passed, is what the interpreter fetches until
      it leaves the block. */
  lemma {:induction false} BlockFetches<W(!new)>(sys: Sys<W>, t: Machine<W>, insts: seq<Decoded>, j: nat, pc0: Word, pa: Word,
                                                 dirty: iset<nat>, n: nat)
    requires Laws(sys) && Passed(t) && Ready(sys, t.core, insts, j, pc0, pa, dirty)
    requires |insts| - j <= Horizon(t) && |insts| - j <= n && Obeys(sys, ExecStep(sys, t), DirtyAt(sys, t, dirty), n - 1)
    ensures FetchesBlock(sys, t.core, insts[j..])
    decreases |insts| - j
  {
    hide SextX, PageMapped, Offset, PageAt, KeepsOwnPage, IsBlock, Placed, FetchAt, Laws, BlockFresh, ExecOne, LocalAt, LocalOk,
      KindOf, Passed, Horizon, Ready, Obeys, ExecStep, Sync, Taken, Boundary, PreStep, Step;
    var c := t.core;
    ReadyKind(sys, c, insts, j, pc0, pa, dirty);
    var d := insts[j];
    assert insts[j..][0] == d && insts[j..][1..] == insts[j + 1..];
    ReadyFetches(sys, c, insts, j, pc0, pa, dirty);
    var o := ExecOne(sys.env, c, d.inst, d.ilen);
    if o.Retired? && KindOf(c.rv64, d.inst) != Term {
      if j + 1 < |insts| {
        var s := NextReady(sys, t, insts, j, pc0, pa, dirty, n);
        BlockFetches(sys, s, insts, j + 1, pc0, pa, dirty + Writes(sys, t), n - 1);
      } else {
        assert insts[j + 1..] == [];
      }
    }
  }

  lemma ReadyKind<W>(sys: Sys<W>, c: Core<W>, insts: seq<Decoded>, j: nat, pc0: Word, pa: Word, dirty: iset<nat>)
    requires Ready(sys, c, insts, j, pc0, pa, dirty)
    ensures j < |insts| && IsBlock(c.rv64, insts) && (KindOf(c.rv64, insts[j].inst) == Cont || KindOf(c.rv64, insts[j].inst) == Term)
    ensures Placed(sys, BlockAddress(c.rv64, pc0), pa, insts) && SextX(c.rv64, pc0) == pc0
  {
    hide SextX, PageMapped, Offset, PageAt, KindOf, IsBlock, Placed, BlockFresh, LocalAt;
    BlockKind(c.rv64, insts, j);
  }

  lemma RetiredStep<W>(sys: Sys<W>, t: Machine<W>, i: Inst, ilen: Word)
    requires FetchCore(sys, t.core) == Fetched(i, ilen, t.core.world)
    ensures var o := ExecOne(sys.env, t.core, i, ilen);
      && (o.Retired? || o.Trapped? ==> ExecStep(sys, t) == t.(core := o.core))
      && ExecStep(sys, t) == ExecFetched(sys, t, i, ilen)
      && (Fences(sys, t) <==> IsFenceI(i))
  {
    hide FetchAt, ExecOne;
    assert t.core.(world := t.core.world) == t.core;
    assert t.(core := t.core) == t;
  }

  /** The next boundary inside the block: passed, ready, and with the guest's side still kept. */
  lemma NextReady<W(!new)>(sys: Sys<W>, t: Machine<W>, insts: seq<Decoded>, j: nat, pc0: Word, pa: Word, dirty: iset<nat>, n: nat)
    returns (s: Machine<W>)
    requires Laws(sys) && Passed(t) && Ready(sys, t.core, insts, j, pc0, pa, dirty) && j + 1 < |insts|
    requires |insts| - j <= Horizon(t) && |insts| - j <= n && Obeys(sys, ExecStep(sys, t), DirtyAt(sys, t, dirty), n - 1)
    requires ExecOne(sys.env, t.core, insts[j].inst, insts[j].ilen).Retired? && KindOf(t.core.rv64, insts[j].inst) == Cont
    ensures s.core == ExecOne(sys.env, t.core, insts[j].inst, insts[j].ilen).core
    ensures Passed(s) && Ready(sys, s.core, insts, j + 1, pc0, pa, dirty + Writes(sys, t)) && Horizon(s) + 1 >= Horizon(t)
    ensures Obeys(sys, ExecStep(sys, s), DirtyAt(sys, s, dirty + Writes(sys, t)), n - 2)
  {
    hide SextX, PageMapped, Offset, PageAt, KeepsOwnPage, IsBlock, Placed, FetchAt, Laws, BlockFresh, ExecOne, LocalAt, LocalOk,
      KindOf, Passed, Horizon, Ready, Obeys, ExecStep, Sync, Taken, Boundary, PreStep, Step, Writes;
    var d := insts[j];
    ReadyFetches(sys, t.core, insts, j, pc0, pa, dirty);
    ReadyKind(sys, t.core, insts, j, pc0, pa, dirty);
    RetiredStep(sys, t, d.inst, d.ilen);
    RetiredKeeps(sys.env, t.core, d.inst, d.ilen);
    NotFence(t.core.rv64, d.inst);
    StepChanges(sys, t);
    var c := ExecOne(sys.env, t.core, d.inst, d.ilen).core;
    var x := t.(core := c);
    var more := Writes(sys, t);
    s := Boundary(t, c, 1);
    NextPassed(sys, t, c);
    BoundaryProceeds(t, c);
    ReadyNext(sys, t.core, c, insts, j, pc0, pa, dirty, more);
    NotHalted(t, c);
    ObeysHead(sys, x, dirty + more, n - 1);
    StaysInPlace(sys, c.rv64, pc0, pa, insts, j + 1);
    PcIsMapped(sys, c, pc0, pa);
    LocalAtBoundary(sys, x, s, PageAt(pa, c.pc), dirty + more);
  }

  lemma NotHalted<W>(t: Machine<W>, c: Core<W>)
    requires Passed(t) && SameGates(t.core, c)
    ensures !Halted(t.(core := c))
  {
  }
}
