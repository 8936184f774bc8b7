/** Translated blocks and memory: a block stays true of the code it was made from, instruction by
    instruction, as long as the instruction has not been stored to; and the interpreter then fetches
    exactly the block. */
module JitFresh {
  import opened Basics
  import opened Words
  import opened RvWords
  import opened Rv
  import opened Machine
  import opened JitStep
  import opened JitBlock
  import opened JitTranslate
  import opened JitLaws

  // ---- Steps change what they store to ----------------------------------------------------

  /** Outside a set of halfwords, memory has not changed. */
  ghost predicate ChangesOnly<W>(sys: Sys<W>, w: W, w': W, where: iset<nat>) {
    forall h: nat :: h !in where ==> sys.half(w', h) == sys.half(w, h)
  }

  lemma FetchSameCode<W(!new)>(sys: Sys<W>, c: Core<W>)
    requires ResolveLaw(sys) && FetchLaw(sys)
    ensures SameCode(sys, c.world, FetchCore(sys, c).world)
  {
    var ctx := CtxOf(c);
    var r := sys.resolve(c.world, ctx, c.pc);
    if r.Ok? {
      var w1 := r.world;
      assert SameCode(sys, w1, sys.deviceFetch(w1, ctx, c.pc).world);
      UpperSameCode(sys, w1, ctx, c.pc);
      hide FetchUpper;
    }
  }

  lemma UpperSameCode<W(!new)>(sys: Sys<W>, w: W, ctx: Ctx, pc: Word)
    requires ResolveLaw(sys) && FetchLaw(sys)
    ensures forall lo: U16 :: SameCode(sys, w, FetchUpper(sys, w, ctx, pc, lo).world)
  {
    var r := sys.resolve(w, ctx, Plus(pc, 2));
    if r.Ok? { assert SameCode(sys, r.world, sys.deviceFetch(r.world, ctx, pc).world); }
  }

  /** An instruction of the integer core changes the halfwords its store meets, and no others. */
  lemma CoreChanges<W(!new)>(sys: Sys<W>, c: Core<W>, i: Inst, ilen: Word)
    requires TranslateLaw(sys) && LoadLaw(sys) && StoreLaw(sys)
    ensures var o := ExecOne(sys.env, c, i, ilen);
      o.Retired? || o.Trapped? ==> ChangesOnly(sys, c.world, o.core.world, StoreBytes(sys, c, i))
  {
    hide Write, Read, AluResult, BranchTaken, Plus, SextX, RaiseTrap, EffectiveAddress;
    if IsMem(i) {
      MemChanges(sys, c, i);
      MemWorld(sys.env, c, i, ilen);
    } else {
      StillWorld(sys.env, c, i, ilen);
    }
  }

  lemma TrapWorld<W>(c: Core<W>, code: nat, tval: Word)
    ensures RaiseTrap(c, code, tval).world == c.world
  {
  }

  lemma RetireWorld<W>(c: Core<W>, next: Word)
    ensures var o := Retire(c, next); (o.Retired? || o.Trapped?) && o.core.world == c.world
  {
    hide RaiseTrap;
    TrapWorld(c, 0, next);
  }

  lemma MemWorld<W>(env: Env<W>, c: Core<W>, i: Inst, ilen: Word)
    requires IsMem(i)
    ensures var o, m := ExecOne(env, c, i, ilen), ExecMem(env, c, i);
      if m.MemDevice? then o.Device? else (o.Retired? || o.Trapped?) && o.core.world == m.core.world
  {
    hide Retire, ExecMem;
    var m := ExecMem(env, c, i);
    if m.MemOk? { RetireWorld(m.core, Plus(c.pc, ilen)); }
  }

  lemma StillWorld<W>(env: Env<W>, c: Core<W>, i: Inst, ilen: Word)
    requires !IsMem(i)
    ensures var o := ExecOne(env, c, i, ilen); (o.Retired? || o.Trapped?) ==> o.core.world == c.world
  {
    hide Write, Read, AluResult, BranchTaken, Plus, SextX, TrapEntry, TrapBase;
  }

  lemma MemChanges<W(!new)>(sys: Sys<W>, c: Core<W>, i: Inst)
    requires TranslateLaw(sys) && LoadLaw(sys) && StoreLaw(sys)
    ensures var m := ExecMem(sys.env, c, i); !m.MemDevice? ==> ChangesOnly(sys, c.world, m.core.world, StoreBytes(sys, c, i))
  {
    hide Write, Read, RaiseTrap, EffectiveAddress;
    var va := EffectiveAddress(c, i);
    match sys.env.translate(c.world, CtxOf(c), va, AccessOf(i)) {
      case Fault(code) => TrapWorld(c, code, va);
      case Ok(pa, w) =>
        assert SameCode(sys, c.world, w);
        if i.op == OpStore {
          var s := sys.env.store(w, pa, i, Read(c.regs, i.rs2));
          if s.StoreOut? { TrapWorld(c.(world := s.world), 7, s.addr); }
        } else {
          var l := sys.env.load(w, pa, i);
          assert SameCode(sys, w, l.world);
          if l.LoadOut? { TrapWorld(c.(world := l.world, regs := Write(c.rv64, c.regs, i.rd, 0)), 5, l.addr); }
        }
    }
  }

  /** Every step changes no halfword outside Writes. */
  lemma StepChanges<W(!new)>(sys: Sys<W>, s: Machine<W>)
    requires Laws(sys)
    ensures ChangesOnly(sys, s.core.world, ExecStep(sys, s).core.world, Writes(sys, s))
  {
    hide ExecOne, RaiseTrap, FetchAt, StoreBytes, Idempotent, OthersLaw;
    FetchSameCode(sys, s.core);
    match FetchCore(sys, s.core) {
      case FetchTrap(code, tval, w) => TrapWorld(s.core.(world := w), code, tval);
      case Fetched(i, ilen, w) => CoreChanges(sys, s.core.(world := w), i, ilen);
    }
  }

  // ---- Fresh blocks -----------------------------------------------------------------------

  ghost predicate CleanInst(h: nat, ilen: nat, dirty: iset<nat>) { h !in dirty && (ilen == 4 ==> h + 2 !in dirty) }

  /** Each instruction of the block that has not been stored to is what memory holds at its place,
      and an instruction whose first half has not been stored to has its length. */
  ghost predicate FreshAt<W>(sys: Sys<W>, w: W, rv64: bool, va0: Word, pa: nat, d: Decoded, off: nat, dirty: iset<nat>) {
    && (CleanInst(pa + off, d.ilen, dirty) ==> At(CodeOf(sys, w), rv64, va0, pa, off) == Some(d))
    && (pa + off !in dirty ==> (d.ilen == 4 <==> Wide(sys, w, pa + off)))
  }

  ghost predicate BlockFresh<W>(sys: Sys<W>, w: W, rv64: bool, va0: Word, pa: nat, insts: seq<Decoded>, dirty: iset<nat>) {
    forall j :: 0 <= j < |insts| ==> FreshAt(sys, w, rv64, va0, pa, insts[j], Offset(insts, j), dirty)
  }

  /** What the translator has just collected is fresh. */
  lemma TranslatedFresh<W>(sys: Sys<W>, w: W, rv64: bool, va0: Word, pa: nat, insts: seq<Decoded>, dirty: iset<nat>)
    requires Holds(CodeOf(sys, w), rv64, va0, pa, insts)
    ensures BlockFresh(sys, w, rv64, va0, pa, insts, dirty)
  {
    hide At, Offset, Holds;
    forall j | 0 <= j < |insts| ensures FreshAt(sys, w, rv64, va0, pa, insts[j], Offset(insts, j), dirty) {
      HoldsHere(CodeOf(sys, w), rv64, va0, pa, insts, j);
      AtLength(sys, w, rv64, va0, pa, Offset(insts, j));
    }
  }

  lemma AtLength<W>(sys: Sys<W>, w: W, rv64: bool, va0: Word, pa: nat, off: nat)
    ensures var d := At(CodeOf(sys, w), rv64, va0, pa, off);
      d.Some? ==> (d.value.ilen == 4 <==> Wide(sys, w, pa + off)) && (d.value.ilen == 2 || d.value.ilen == 4)
  {
    hide PageEnd;
  }

  /** Reading an instruction depends on its own halfwords. */
  lemma AtKept<W>(sys: Sys<W>, w: W, w': W, rv64: bool, va0: Word, pa: nat, off: nat)
    requires sys.half(w', pa + off) == sys.half(w, pa + off)
    requires Wide(sys, w, pa + off) ==> sys.half(w', pa + off + 2) == sys.half(w, pa + off + 2)
    ensures At(CodeOf(sys, w'), rv64, va0, pa, off) == At(CodeOf(sys, w), rv64, va0, pa, off)
  {
    hide PageEnd;
  }

  lemma FreshKept<W>(sys: Sys<W>, w: W, w': W, rv64: bool, va0: Word, pa: nat, insts: seq<Decoded>, dirty: iset<nat>, more: iset<nat>)
    requires BlockFresh(sys, w, rv64, va0, pa, insts, dirty) && ChangesOnly(sys, w, w', more)
    ensures BlockFresh(sys, w', rv64, va0, pa, insts, dirty + more)
  {
    hide At, Offset;
    forall j | 0 <= j < |insts| ensures FreshAt(sys, w', rv64, va0, pa, insts[j], Offset(insts, j), dirty + more) {
      FreshAtKept(sys, w, w', rv64, va0, pa, insts[j], Offset(insts, j), dirty, more);
    }
  }

  lemma FreshAtKept<W>(sys: Sys<W>, w: W, w': W, rv64: bool, va0: Word, pa: nat, d: Decoded, off: nat, dirty: iset<nat>, more: iset<nat>)
    requires FreshAt(sys, w, rv64, va0, pa, d, off, dirty) && ChangesOnly(sys, w, w', more)
    ensures FreshAt(sys, w', rv64, va0, pa, d, off, dirty + more)
  {
    hide At;
    if pa + off !in dirty + more {
      assert sys.half(w', pa + off) == sys.half(w, pa + off);
      if CleanInst(pa + off, d.ilen, dirty + more) { AtKept(sys, w, w', rv64, va0, pa, off); }
    }
  }

  // ---- Pages ------------------------------------------------------------------------------

  /** The translator stays in the page. */
  lemma AtInPage(cm: CodeMemory, rv64: bool, va0: Word, pa: nat, off: nat)
    requires off <= 2048 && At(cm, rv64, va0, pa, off).Some?
    ensures va0 % 4096 + off + At(cm, rv64, va0, pa, off).value.ilen <= 4096
  {
    var d := At(cm, rv64, va0, pa, off).value;
    assert (var va := (va0 + off) % W64; (va + d.ilen) % W64 <= PageEnd(va0)) && (d.ilen == 2 || d.ilen == 4);
    StaysInPage(va0, off, d.ilen);
  }

  lemma StaysInPage(va0: Word, off: nat, n: nat)
    requires off <= 2048 && (n == 2 || n == 4)
    requires var va := (va0 + off) % W64; (va + n) % W64 <= PageEnd(va0) && (va + 2) % W64 <= PageEnd(va0)
    ensures va0 % 4096 + off + n <= 4096
  {
    var page, p := va0 / 4096, va0 % 4096;
    assert va0 == 4096 * page + p;
    if page + 1 < W64 / 4096 {
      assert PageEnd(va0) == 4096 * page + 4096;
      assert va0 + off + n < W64;
      assert (va0 + off) % W64 == va0 + off;
      assert (va0 + off + n) % W64 == va0 + off + n;
    } else {
      assert PageEnd(va0) == 0;
    }
  }

  /** The address a block is translated for: the pc, without its extension on RV32. */
  function BlockAddress(rv64: bool, pc: Word): Word { if rv64 then pc else Low32(pc) }

  lemma PcAtOffset(rv64: bool, pc0: Word, off: nat)
    requires SextX(rv64, pc0) == pc0 && pc0 % 4096 + off < 4096
    ensures BlockAddress(rv64, pc0) % 4096 == pc0 % 4096 && pc0 + off < W64
    ensures SextX(rv64, BlockAddress(rv64, pc0) + off) == pc0 + off
    ensures SamePage(pc0, pc0 + off) && (pc0 + off) % 4096 == pc0 % 4096 + off
  {
    PageOffset(pc0, off);
    if !rv64 { NarrowOffset(pc0, off); }
  }

  lemma PageOffset(pc0: Word, off: nat)
    requires pc0 % 4096 + off < 4096
    ensures pc0 + off < W64 && SamePage(pc0, pc0 + off) && (pc0 + off) % 4096 == pc0 % 4096 + off
  {
    var page := pc0 / 4096;
    assert pc0 == 4096 * page + pc0 % 4096;
    assert page < W64 / 4096;
  }

  lemma NarrowOffset(pc0: Word, off: nat)
    requires Sext32(pc0) == pc0 && pc0 % 4096 + off < 4096
    ensures Low32(pc0) % 4096 == pc0 % 4096 && Sext32(Low32(pc0) + off) == pc0 + off
  {
    var low := Low32(pc0);
    var page := low / 4096;
    assert low == 4096 * page + low % 4096;
    assert low % 4096 == pc0 % 4096;
    assert page < W32 / 4096;
    assert (low + off) % W32 == low + off;
  }

  lemma PageAtOffset(pa: Word, pc0: Word, off: nat)
    requires pa % 4096 == pc0 % 4096 && pc0 % 4096 + off < 4096
    ensures pc0 + off < W64 && PageAt(pa, pc0 + off) == pa + off
  {
    PageOffset(pc0, off);
  }

  lemma PageMappedMove<W>(sys: Sys<W>, w: W, ctx: Ctx, pc0: Word, pa: Word, off: nat)
    requires pa % 4096 == pc0 % 4096 && pc0 % 4096 + off < 4096 && pc0 + off < W64 && pa + off < W64
    ensures PageMapped(sys, w, ctx, pc0, pa) <==> PageMapped(sys, w, ctx, pc0 + off, pa + off)
  {
    PageOffset(pc0, off);
    PageOffset(pa, off);
    assert forall at: Word :: SamePage(pc0, at) <==> SamePage(pc0 + off, at);
    assert forall at: Word :: PageAt(pa, at) == PageAt(pa + off, at);
  }

  /** Where a mapped page puts the pc at an offset, and the halfword after it. */
  lemma PagePlaces<W>(sys: Sys<W>, w: W, rv64: bool, ctx: Ctx, pc0: Word, pa: Word, off: nat, n: nat)
    requires SextX(rv64, pc0) == pc0 && pa % 4096 == pc0 % 4096 && PageMapped(sys, w, ctx, pc0, pa)
    requires (n == 2 || n == 4) && pc0 % 4096 + off + n <= 4096
    ensures pc0 + off + 2 <= W64 && pa + off + n <= W64 && SextX(rv64, BlockAddress(rv64, pc0) + off) == pc0 + off
    ensures sys.resolve(w, ctx, pc0 + off) == Ok(pa + off, w) && PageAt(pa, pc0 + off) == pa + off
    ensures n == 4 ==> sys.resolve(w, ctx, Plus(pc0 + off, 2)) == Ok(pa + off + 2, w)
    ensures n == 4 ==> (pa + off) % 4096 != 4094
  {
    hide SextX;
    PcAtOffset(rv64, pc0, off);
    PageAtOffset(pa, pc0, off);
    PageOffset(pa, off);
    PageOffset(pc0, off + 1);
    PageOffset(pa, off + n - 1);
    if n == 4 {
      PageOffset(pc0, off + 2);
      PageAtOffset(pa, pc0, off + 2);
      assert Plus(pc0 + off, 2) == pc0 + (off + 2);
    }
  }

  /** The interpreter fetches what the code memory holds. */
  lemma FetchFrom<W>(sys: Sys<W>, c: Core<W>, va0: Word, pa: Word, off: nat)
    requires At(CodeOf(sys, c.world), c.rv64, va0, pa, off).Some? && pa + off < W64
    requires sys.resolve(c.world, CtxOf(c), c.pc) == Ok(pa + off, c.world)
    requires At(CodeOf(sys, c.world), c.rv64, va0, pa, off).value.ilen == 4 ==>
      pa + off + 2 < W64 && sys.resolve(c.world, CtxOf(c), Plus(c.pc, 2)) == Ok(pa + off + 2, c.world)
    ensures var d := At(CodeOf(sys, c.world), c.rv64, va0, pa, off).value;
      FetchCore(sys, c) == Fetched(d.inst, d.ilen, c.world)
  {
    hide PageEnd, Plus;
  }

  // ---- The mapping of the page survives the block -----------------------------------------

  lemma KeepsMapsTrans<W>(sys: Sys<W>, a: W, b: W, c: W)
    requires KeepsMaps(sys, a, b) && KeepsMaps(sys, b, c)
    ensures KeepsMaps(sys, a, c)
  {
    forall ctx, pc: Word ensures MapKept(sys.resolve(a, ctx, pc), sys.resolve(c, ctx, pc), a, c) {
      assert MapKept(sys.resolve(a, ctx, pc), sys.resolve(b, ctx, pc), a, b);
      assert MapKept(sys.resolve(b, ctx, pc), sys.resolve(c, ctx, pc), b, c);
    }
  }

  lemma MapsKeepPage<W>(sys: Sys<W>, w: W, w': W, ctx: Ctx, pc: Word, pa: Word)
    requires KeepsMaps(sys, w, w') && PageMapped(sys, w, ctx, pc, pa)
    ensures PageMapped(sys, w', ctx, pc, pa)
  {
    forall at: Word | SamePage(pc, at) ensures sys.resolve(w', ctx, at) == Ok(PageAt(pa, at), w') {
      assert MapKept(sys.resolve(w, ctx, at), sys.resolve(w', ctx, at), w, w');
    }
  }

  lemma MemMaps<W(!new)>(sys: Sys<W>, c: Core<W>, i: Inst)
    requires TranslateLaw(sys) && LoadLaw(sys) && StoreLaw(sys)
    ensures var m := ExecMem(sys.env, c, i); var t := sys.env.translate(c.world, CtxOf(c), EffectiveAddress(c, i), AccessOf(i));
      m.MemOk? ==> t.Ok? && ((i.op == OpStore ==> !sys.inTables(t.world, t.pa, i)) ==> KeepsMaps(sys, c.world, m.core.world))
  {
    hide Write, Read, RaiseTrap, EffectiveAddress, KeepsMaps, SameCode;
    var t := sys.env.translate(c.world, CtxOf(c), EffectiveAddress(c, i), AccessOf(i));
    if t.Ok? {
      assert KeepsMaps(sys, c.world, t.world);
      var v := Read(c.regs, i.rs2);
      var x := if i.op == OpStore then sys.env.store(t.world, t.pa, i, v).world else sys.env.load(t.world, t.pa, i).world;
      if i.op == OpStore ==> !sys.inTables(t.world, t.pa, i) {
        assert KeepsMaps(sys, t.world, x);
        KeepsMapsTrans(sys, c.world, t.world, x);
      }
    }
  }

  /** A retired instruction that keeps the contract leaves the page it was fetched from mapped. */
  lemma CoreKeepsPage<W(!new)>(sys: Sys<W>, c: Core<W>, i: Inst, ilen: Word, pa: Word)
    requires Laws(sys) && FetchCore(sys, c) == Fetched(i, ilen, c.world) && PageMapped(sys, c.world, CtxOf(c), c.pc, pa)
    requires KeepsOwnPage(sys, c, pa) && ExecOne(sys.env, c, i, ilen).Retired?
    ensures PageMapped(sys, ExecOne(sys.env, c, i, ilen).core.world, CtxOf(c), c.pc, pa)
  {
    hide FetchAt, EffectiveAddress, KeepsMaps, PageMapped, ExecOne, ExecMem, Idempotent, OthersLaw, ResolveLaw, FetchLaw;
    var o := ExecOne(sys.env, c, i, ilen);
    if IsMem(i) {
      MemMaps(sys, c, i);
      MemWorld(sys.env, c, i, ilen);
      MemRetires(sys.env, c, i, ilen);
      var t := sys.env.translate(c.world, CtxOf(c), EffectiveAddress(c, i), AccessOf(i));
      if !(i.op == OpStore && sys.inTables(t.world, t.pa, i)) { MapsKeepPage(sys, c.world, o.core.world, CtxOf(c), c.pc, pa); }
    } else {
      StillWorld(sys.env, c, i, ilen);
    }
  }

  lemma MemRetires<W>(env: Env<W>, c: Core<W>, i: Inst, ilen: Word)
    requires IsMem(i) && ExecOne(env, c, i, ilen).Retired?
    ensures ExecMem(env, c, i).MemOk?
  {
    hide ExecMem, Retire;
  }
}
