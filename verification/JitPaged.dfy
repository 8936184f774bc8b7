/** A machine whose memory is the page-table walk over bytes of RAM: it meets everything the JIT
    theorems rely on, and it shows that a refused device access can be seen. */
module JitPaged {
  import opened Basics
  import Mmu
  import opened Words
  import opened RvWords
  import opened Rv
  import opened Machine
  import opened Jit
  import opened JitStep
  import opened JitBlock
  import opened RvFrame
  import opened JitRun
  import opened JitTranslate
  import opened JitLaws
  import opened JitSim
  import opened JitTurn
  import opened JitEngine

  /** The page tables, and RAM byte by byte. */
  datatype World = World(tables: Mmu.Memory, ram: map<nat, Byte>)

  /** The parts of the platform that stay given: the devices, instruction decoding, what a store to a
      page-table cell does to it, the bytes of such a cell with its marks, and the instructions outside the integer core. */
  datatype Board = Board(
    ext: Ext,
    isDevice: nat -> bool,
    edit: (Mmu.Memory, Word, Inst, Word) -> Mmu.Memory,
    peek: (Mmu.Memory, nat) -> Byte,
    expand: (nat, bool) -> Option<Inst>,
    decode: nat -> Inst,
    deviceFetch: (World, Ctx, Word) -> Fetch<World>,
    device: (Machine<World>, Word, Inst, Word) -> Machine<World>,
    other: (Machine<World>, Inst, Word) -> Machine<World>)

  // ---- Translation ------------------------------------------------------------------------

  function ModeOf(ctx: Ctx): Mmu.Mode {
    Mmu.Ctx(ctx.priv, ctx.mstatus.mprv, ctx.mstatus.mpp, ctx.mstatus.sum, ctx.mstatus.mxr)
  }

  /** mmu_translate, with the physical address as the 64-bit word it is. */
  function Translated(rv64: bool, w: World, ctx: Ctx, va: Word, acc: Mmu.Access): Trans<World> {
    var (r, tables) := Mmu.Plain(rv64, ctx.satp, w.tables, ModeOf(ctx), va, acc);
    match r
    case PageFault(cause) => Fault(cause)
    case Physical(pa) => Ok(pa % W64, w.(tables := tables))
  }

  function MmuAccess(acc: Access): Mmu.Access { if acc == Store then Mmu.Store else Mmu.Load }

  // ---- Bytes ------------------------------------------------------------------------------

  function ByteOf(v: nat, k: nat): Byte {
    if k == 0 then v % 256 else ByteOf(v / 256, k - 1)
  }

  predicate InRam(w: World, pa: nat, n: nat) { forall k :: pa <= k < pa + n ==> k in w.ram }

  function WriteBytes(ram: map<nat, Byte>, pa: nat, v: nat, n: nat): map<nat, Byte>
  {
    if n == 0 then ram else WriteBytes(ram, pa, v, n - 1)[pa + n - 1 := ByteOf(v, n - 1)]
  }

  /** The address lies in a cell of a page table. */
  predicate InTable(w: World, pa: nat) { exists t :: t in w.tables && t <= pa < t + 8 }

  /** A byte as a load sees it: in a page table, with the accessed and dirty bits as they are now. */
  function ByteAt(b: Board, w: World, pa: nat): Byte
    requires pa in w.ram
  {
    if InTable(w, pa) then b.peek(w.tables, pa) else w.ram[pa]
  }

  function ReadBytes(b: Board, w: World, pa: nat, n: nat): nat
    requires InRam(w, pa, n)
    decreases n
  {
    if n == 0 then 0 else ByteAt(b, w, pa) + 256 * ReadBytes(b, w, pa + 1, n - 1)
  }

  function Half(w: World, h: nat): Option<U16> {
    if h in w.ram && h + 1 in w.ram then var lo: int, hi: int := w.ram[h], w.ram[h + 1]; Some(lo + 256 * hi) else None
  }

  /** Loads sign-extend unless the top bit of funct3 is set. */
  function Extend(i: Inst, v: nat): Word {
    if i.f3 / 4 % 2 == 1 then v % W64
    else if Width(i) == 1 then (if v % 256 < 128 then v % 256 else v % 256 + W64 - 256)
    else if Width(i) == 2 then (if v % 65536 < 32768 then v % 65536 else v % 65536 + W64 - 65536)
    else if Width(i) == 4 then Sext32(v)
    else v % W64
  }

  function LoadBytes(b: Board, w: World, pa: Word, i: Inst): Loaded<World> {
    if InRam(w, pa, Width(i)) then Value(Extend(i, ReadBytes(b, w, pa, Width(i))), w) else LoadOut(pa, w)
  }

  /** The store meets a cell of a page table. */
  predicate MeetsTable(w: World, pa: Word, i: Inst) { exists t :: t in w.tables && t < pa + Width(i) && pa < t + 8 }

  function StoreBytesTo(b: Board, w: World, pa: Word, i: Inst, v: Word): Stored<World> {
    var w' := if MeetsTable(w, pa, i) then w.(tables := b.edit(w.tables, pa, i, v)) else w;
    if InRam(w, pa, Width(i)) then Done(w'.(ram := WriteBytes(w.ram, pa, v, Width(i)))) else StoreOut(pa, w)
  }

  // ---- The system -------------------------------------------------------------------------

  function PagedSys(b: Board, rv64: bool): Sys<World> {
    Sys(
      Env(b.ext, (w, ctx, va, acc) => Translated(rv64, w, ctx, va, MmuAccess(acc)), b.isDevice,
          (w, pa, i) => LoadBytes(b, w, pa, i), (w, pa, i, v) => StoreBytesTo(b, w, pa, i, v)),
      (w, ctx, pc) => Translated(rv64, w, ctx, pc, Mmu.Fetch),
      Half, b.expand, b.decode, MeetsTable, b.deviceFetch, b.device, b.other)
  }

  /** What is asked of the given parts: decoded instructions are in range, and neither devices nor the
      other instructions spoil the form of the registers and the pc. */
  ghost predicate BoardOk(b: Board) {
    && (forall w, ctx, pc :: b.deviceFetch(w, ctx, pc).world.ram == w.ram)
    && (forall x, rv64 :: b.expand(x, rv64).Some? ==> WellFormed(b.expand(x, rv64).value))
    && (forall x :: WellFormed(b.decode(x)))
    && (forall m, i, ilen :: Keeps(m, b.other(m, i, ilen)))
    && (forall m, pa, i, ilen :: Keeps(m, b.device(m, pa, i, ilen)))
  }

  // ---- The laws hold ----------------------------------------------------------------------

  lemma SameRam(b: Board, rv64: bool, w: World, w': World)
    requires w'.ram == w.ram
    ensures SameCode(PagedSys(b, rv64), w, w')
  {
  }

  /** Marking page tables keeps every mapping. */
  lemma MarksKeepMaps(b: Board, rv64: bool, w: World, w': World)
    requires Mmu.Extends(w.tables, w'.tables)
    ensures KeepsMaps(PagedSys(b, rv64), w, w')
  {
    hide Mmu.Plain, Mmu.Extends;
    var sys := PagedSys(b, rv64);
    forall ctx, pc: Word ensures MapKept(sys.resolve(w, ctx, pc), sys.resolve(w', ctx, pc), w, w') {
      Mmu.PlainExtends(rv64, ctx.satp, w.tables, w'.tables, ModeOf(ctx), pc, Mmu.Fetch);
    }
  }

  lemma TranslatedTwice(rv64: bool, w: World, ctx: Ctx, va: Word, acc: Mmu.Access)
    ensures var t := Translated(rv64, w, ctx, va, acc); t.Ok? ==> Translated(rv64, t.world, ctx, va, acc) == t
    ensures var t := Translated(rv64, w, ctx, va, acc); t.Ok? ==> t.world.ram == w.ram && Mmu.Extends(w.tables, t.world.tables)
  {
    hide Mmu.Plain, Mmu.Extends;
    Mmu.PlainMarks(rv64, ctx.satp, w.tables, ModeOf(ctx), va, acc);
    if Translated(rv64, w, ctx, va, acc).Ok? { Mmu.PlainIdempotent(rv64, ctx.satp, w.tables, ModeOf(ctx), va, acc); }
  }

  lemma PagedTranslate(b: Board, rv64: bool)
    ensures Idempotent(PagedSys(b, rv64).env) && TranslateLaw(PagedSys(b, rv64))
  {
    hide SameCode, KeepsMaps, Translated;
    var sys := PagedSys(b, rv64);
    forall w, ctx, va, acc
      ensures var t := sys.env.translate(w, ctx, va, acc);
        t.Ok? ==> sys.env.translate(t.world, ctx, va, acc) == t && SameCode(sys, w, t.world) && KeepsMaps(sys, w, t.world)
    {
      TranslatedTwice(rv64, w, ctx, va, MmuAccess(acc));
      var t := Translated(rv64, w, ctx, va, MmuAccess(acc));
      if t.Ok? {
        SameRam(b, rv64, w, t.world);
        MarksKeepMaps(b, rv64, w, t.world);
      }
    }
  }

  lemma PagedLoad(b: Board, rv64: bool)
    ensures LoadLaw(PagedSys(b, rv64))
  {
    hide SameCode, KeepsMaps, Translated;
    var sys := PagedSys(b, rv64);
    forall w, pa, i ensures var w' := sys.env.load(w, pa, i).world; SameCode(sys, w, w') && KeepsMaps(sys, w, w') {
      SameRam(b, rv64, w, w);
      ExtendsSelf(w.tables);
      MarksKeepMaps(b, rv64, w, w);
    }
  }

  lemma ExtendsSelf(mem: Mmu.Memory)
    ensures Mmu.Extends(mem, mem)
  {
  }

  lemma {:induction false} WriteBytesAt(ram: map<nat, Byte>, pa: nat, v: nat, n: nat)
    ensures forall k: nat :: k < pa || pa + n <= k ==> (k in WriteBytes(ram, pa, v, n) <==> k in ram)
    ensures forall k: nat :: (k < pa || pa + n <= k) && k in ram ==> WriteBytes(ram, pa, v, n)[k] == ram[k]
  {
    if n > 0 { WriteBytesAt(ram, pa, v, n - 1); }
  }

  lemma StoreKeeps(b: Board, rv64: bool, w: World, pa: Word, i: Inst, v: Word, h: nat)
    requires !Overlaps(h, pa, i)
    ensures Half(StoreBytesTo(b, w, pa, i, v).world, h) == Half(w, h)
  {
    hide MeetsTable, InRam, WriteBytes, Width;
    WriteBytesAt(w.ram, pa, v, Width(i));
  }

  lemma PagedStore(b: Board, rv64: bool)
    ensures StoreLaw(PagedSys(b, rv64))
  {
    hide KeepsMaps, Translated, Half, StoreBytesTo, MeetsTable;
    var sys := PagedSys(b, rv64);
    forall w, pa, i, v
      ensures var w' := sys.env.store(w, pa, i, v).world;
        && (forall h: nat :: !Overlaps(h, pa, i) ==> sys.half(w', h) == sys.half(w, h))
        && (!sys.inTables(w, pa, i) ==> KeepsMaps(sys, w, w'))
    {
      forall h: nat | !Overlaps(h, pa, i) ensures Half(StoreBytesTo(b, w, pa, i, v).world, h) == Half(w, h) {
        StoreKeeps(b, rv64, w, pa, i, v, h);
      }
      if !MeetsTable(w, pa, i) {
        StoreTables(b, w, pa, i, v);
        MarksKeepMaps(b, rv64, w, StoreBytesTo(b, w, pa, i, v).world);
      }
    }
  }

  lemma StoreTables(b: Board, w: World, pa: Word, i: Inst, v: Word)
    requires !MeetsTable(w, pa, i)
    ensures Mmu.Extends(w.tables, StoreBytesTo(b, w, pa, i, v).world.tables)
  {
    hide MeetsTable, InRam, WriteBytes;
    ExtendsSelf(w.tables);
  }

  /** Translating one pc of a page settles the page. */
  lemma ResolveSettles(rv64: bool, w: World, ctx: Ctx, pc: Word, at: Word)
    requires Translated(rv64, w, ctx, pc, Mmu.Fetch).Ok? && SamePage(pc, at)
    ensures var r := Translated(rv64, w, ctx, pc, Mmu.Fetch);
      r.pa % 4096 == pc % 4096 && Translated(rv64, r.world, ctx, at, Mmu.Fetch) == Ok(PageAt(r.pa, at), r.world)
  {
    hide Mmu.Plain;
    var r := Translated(rv64, w, ctx, pc, Mmu.Fetch);
    Mmu.PlainIdempotent(rv64, ctx.satp, w.tables, ModeOf(ctx), pc, Mmu.Fetch);
    Mmu.PlainSamePage(rv64, ctx.satp, r.world.tables, ModeOf(ctx), pc, at, Mmu.Fetch);
    var pa := Mmu.Plain(rv64, ctx.satp, w.tables, ModeOf(ctx), pc, Mmu.Fetch).0.pa;
    PageOfWord(pa, pc, at);
  }

  lemma PageOfWord(pa: nat, pc: Word, at: Word)
    requires pa % 4096 == pc % 4096
    ensures pa % W64 % 4096 == pc % 4096 && (pa - pc % 4096 + at % 4096) % W64 == PageAt(pa % W64, at)
  {
    var page := pa / 4096;
    assert pa == 4096 * page + pc % 4096;
    PageOfWrap(page, pc % 4096);
    PageOfWrap(page, at % 4096);
  }

  lemma PageOfWrap(page: nat, off: nat)
    requires off < 4096
    ensures (4096 * page + off) % W64 == 4096 * (page % 0x10_0000_0000_0000) + off
  {
    var q, r := page / 0x10_0000_0000_0000, page % 0x10_0000_0000_0000;
    assert page == 0x10_0000_0000_0000 * q + r;
    assert 4096 * page + off == W64 * q + (4096 * r + off);
  }

  lemma PagedResolve(b: Board, rv64: bool)
    ensures ResolveLaw(PagedSys(b, rv64))
  {
    hide SameCode, PageMapped, Translated, SamePage;
    var sys := PagedSys(b, rv64);
    forall w, ctx, pc: Word
      ensures var r := sys.resolve(w, ctx, pc);
        r.Ok? ==> SameCode(sys, w, r.world) && r.pa % 4096 == pc % 4096 && PageMapped(sys, r.world, ctx, pc, r.pa)
    {
      if Translated(rv64, w, ctx, pc, Mmu.Fetch).Ok? { PageSettles(b, rv64, w, ctx, pc); }
    }
  }

  lemma PageSettles(b: Board, rv64: bool, w: World, ctx: Ctx, pc: Word)
    requires Translated(rv64, w, ctx, pc, Mmu.Fetch).Ok?
    ensures var sys := PagedSys(b, rv64); var r := sys.resolve(w, ctx, pc);
      SameCode(sys, w, r.world) && r.pa % 4096 == pc % 4096 && PageMapped(sys, r.world, ctx, pc, r.pa)
  {
    hide SameCode, Translated, SamePage;
    var r := Translated(rv64, w, ctx, pc, Mmu.Fetch);
    TranslatedTwice(rv64, w, ctx, pc, Mmu.Fetch);
    SameRam(b, rv64, w, r.world);
    SelfPage(pc);
    ResolveSettles(rv64, w, ctx, pc, pc);
    forall at: Word | SamePage(pc, at) ensures Translated(rv64, r.world, ctx, at, Mmu.Fetch) == Ok(PageAt(r.pa, at), r.world) {
      ResolveSettles(rv64, w, ctx, pc, at);
    }
  }

  lemma SelfPage(pc: Word)
    ensures SamePage(pc, pc)
  {
  }

  lemma PagedFetch(b: Board, rv64: bool)
    requires BoardOk(b)
    ensures FetchLaw(PagedSys(b, rv64)) && OthersLaw(PagedSys(b, rv64))
  {
    hide SameCode, WellFormed, Keeps, Translated;
    var sys := PagedSys(b, rv64);
    forall w, ctx, pc ensures SameCode(sys, w, sys.deviceFetch(w, ctx, pc).world) {
      SameRam(b, rv64, w, b.deviceFetch(w, ctx, pc).world);
    }
  }

  /** Memory under the page-table walk meets the laws the JIT relies on. */
  lemma PagedLaws(b: Board, rv64: bool)
    requires BoardOk(b)
    ensures Laws(PagedSys(b, rv64))
  {
    hide Idempotent, TranslateLaw, LoadLaw, StoreLaw, ResolveLaw, FetchLaw, OthersLaw, PagedSys, BoardOk;
    PagedTranslate(b, rv64);
    PagedLoad(b, rv64);
    PagedStore(b, rv64);
    PagedResolve(b, rv64);
    PagedFetch(b, rv64);
  }

  // ---- The JIT on this machine ------------------------------------------------------------

  /** The same machine but for page-table entries that have been marked accessed or dirty. */
  ghost predicate MarkedOnly(a: Machine<World>, x: Machine<World>) {
    && a.core == x.core.(world := a.core.world) && a.mtime == x.mtime
    && a.core.world.ram == x.core.world.ram && Mmu.Extends(x.core.world.tables, a.core.world.tables)
  }

  lemma SimMarks(b: Board, rv64: bool, a: Machine<World>, x: Machine<World>)
    requires Sim(PagedSys(b, rv64), a, x)
    ensures MarkedOnly(a, x)
  {
    hide Poised, Sync, PagedSys, FetchAt, ExecOne, Probed, EffectiveAddress, Mmu.Extends;
    var sys := PagedSys(b, rv64);
    if Equiv(a, x) {
      ExtendsSelf(x.core.world.tables);
    } else {
      var i, ilen := PoisedAccess(sys, a.core, x.core);
      DeviceTranslates(sys.env, x.core, i, ilen);
      TranslateMarks(b, rv64, x.core.world, CtxOf(x.core), EffectiveAddress(x.core, i), AccessOf(i));
    }
  }

  lemma TranslateMarks(b: Board, rv64: bool, w: World, ctx: Ctx, va: Word, acc: Access)
    ensures var t := PagedSys(b, rv64).env.translate(w, ctx, va, acc);
      t.Ok? ==> t.world.ram == w.ram && Mmu.Extends(w.tables, t.world.tables)
  {
    hide Translated, Mmu.Extends;
    TranslatedTwice(rv64, w, ctx, va, MmuAccess(acc));
  }

  /** A JIT run over paged memory: the interpreter's step count and the interpreter's machine, RAM and
      page tables included. */
  method RunPaged(b: Board, start: Machine<World>, cap: nat, size: seq<Decoded> -> nat) returns (m: Machine<World>, steps: nat)
    requires BoardOk(b) && RegsOk(start.core.rv64, start.core.regs) && PcOk(start.core)
    requires Obeys(PagedSys(b, start.core.rv64), start, iset{}, cap)
    ensures var sys := PagedSys(b, start.core.rv64);
      RunLength(sys, start, cap, steps) && Equiv(m, Steps(sys, start, steps))
  {
    hide BoardOk, RegsOk, PcOk, Obeys, Laws, RunLength, Steps, Equiv;
    PagedLaws(b, start.core.rv64);
    m, steps := RunJit(PagedSys(b, start.core.rv64), start, cap, size);
  }

  // ---- A refused device access can show ---------------------------------------------------

  const Root: nat := 0x10_0000
  const Code: Word := 0x8000_0000
  const Port: Word := 0x1000_0000

  function Gigapage(ppn: nat, a: bool): Mmu.Pte { Mmu.Pte(true, true, false, true, false, a, false, ppn, 0) }

  /** Two gigapages: the devices, never accessed yet, and RAM, which the running code has marked. */
  function Tables(): Mmu.Memory { map[Root * 4096 := Gigapage(0, false), Root * 4096 + 16 := Gigapage(0x8_0000, true)] }

  const Lui: nat := 0x1000_00b7
  const Lw: nat := 0xa103

  /** lui x1, 0x10000; lw x2, 0(x1). */
  function DeviceBlock(b: Board): seq<Decoded> { [Decoded(b.decode(Lui), 4), Decoded(b.decode(Lw), 4)] }

  /** A supervisor about to run the block, on a board that decodes it and has a device at the port. */
  predicate AtBlock(b: Board, c: Core<World>) {
    && c.rv64 && c.pc == Code && c.priv == 1 && !c.csr.mstatus.mprv && c.csr.satp == 8 * Mmu.P60 + Root && c.world.tables == Tables()
    && Half(c.world, Code) == Some(0xb7) && Half(c.world, Code + 2) == Some(0x1000)
    && Half(c.world, Code + 4) == Some(0xa103) && Half(c.world, Code + 6) == Some(0)
    && b.isDevice(Port) && (forall k: nat :: Code <= k < Code + 8 ==> !b.isDevice(k))
    && (var i := b.decode(Lui); i.op == OpLui && i.rd == 1 && i.immU == Port)
    && (var i := b.decode(Lw); i.op == OpLoad && i.rd == 2 && i.rs1 == 1 && i.immI == 0)
  }

  lemma GigapageOf(mem: Mmu.Memory, va: nat, ppn: nat, a: bool)
    requires va < 0x100_0000_0000 && var cell := Root * 4096 + va / 0x4000_0000 % 512 * 8; cell in mem && mem[cell] == Gigapage(ppn, a)
    ensures Mmu.Descend(Mmu.Sv39, mem, va / 4096, Root, 2) == Mmu.Leaf(Root * 4096 + va / 0x4000_0000 % 512 * 8, Gigapage(ppn, a), 2)
  {
    assert Mmu.Span(Mmu.Sv39, 2) == 0x4_0000;
    assert va / 4096 / 0x4_0000 == va / 0x4000_0000;
  }

  /** A kernel translation through one of the two gigapages. */
  lemma ThroughGigapage(w: World, ctx: Ctx, va: Word, acc: Mmu.Access, ppn: nat, a: bool)
    requires ctx.priv == 1 && !ctx.mstatus.mprv && ctx.satp == 8 * Mmu.P60 + Root && va < 0x40_0000_0000 && acc != Mmu.Store
    requires ppn % 0x4_0000 == 0 && ppn * 4096 + va % 0x4000_0000 < W64
    requires var cell := Root * 4096 + va / 0x4000_0000 % 512 * 8; cell in w.tables && w.tables[cell] == Gigapage(ppn, a)
    ensures var cell := Root * 4096 + va / 0x4000_0000 % 512 * 8;
      Translated(true, w, ctx, va, acc) == Ok(ppn * 4096 + va % 0x4000_0000, w.(tables := w.tables[cell := Gigapage(ppn, true)]))
  {
    GigapageOf(w.tables, va, ppn, a);
    assert Mmu.Span(Mmu.Sv39, 2) == 0x4_0000;
    SatpOf();
    hide Mmu.Descend, Mmu.Span, Mmu.SchemeOf, Mmu.Root;
    assert va / 4096 % 0x4_0000 * 4096 + va % 4096 == va % 0x4000_0000;
    assert Mmu.Canonical(va);
  }

  lemma SatpOf()
    ensures var satp := 8 * Mmu.P60 + Root; Mmu.SchemeOf(true, satp) == Mmu.Sv39 && Mmu.Root(Mmu.Sv39, satp) == Root
  {
  }

  predicate Supervisor(c: Core<World>) {
    c.rv64 && c.priv == 1 && !c.csr.mstatus.mprv && c.csr.satp == 8 * Mmu.P60 + Root && c.world.tables == Tables()
  }

  lemma CodeSettled(c: Core<World>, va: Word)
    requires Supervisor(c) && Code <= va < Code + 8
    ensures Translated(true, c.world, CtxOf(c), va, Mmu.Fetch) == Ok(va, c.world)
  {
    hide Translated;
    assert va / 0x4000_0000 % 512 == 2;
    ThroughGigapage(c.world, CtxOf(c), va, Mmu.Fetch, 0x8_0000, true);
    assert Tables()[Root * 4096 + 16 := Gigapage(0x8_0000, true)] == Tables();
    assert c.world.(tables := Tables()) == c.world;
  }

  lemma PortMarks(c: Core<World>)
    requires Supervisor(c)
    ensures Translated(true, c.world, CtxOf(c), Port, Mmu.Load) == Ok(Port, c.world.(tables := Tables()[Root * 4096 := Gigapage(0, true)]))
  {
    hide Translated;
    assert Port / 0x4000_0000 % 512 == 0;
    ThroughGigapage(c.world, CtxOf(c), Port, Mmu.Load, 0, false);
  }

  lemma FetchWord(b: Board, c: Core<World>, lo: U16, hi: U16)
    requires Supervisor(c) && Code <= c.pc <= Code + 4 && (forall k: nat :: Code <= k < Code + 8 ==> !b.isDevice(k))
    requires Half(c.world, c.pc) == Some(lo) && lo % 4 == 3 && Half(c.world, c.pc + 2) == Some(hi)
    ensures FetchCore(PagedSys(b, true), c) == Fetched(b.decode(lo + 0x1_0000 * hi), 4, c.world)
  {
    hide Translated, Half, Supervisor;
    CodeSettled(c, c.pc);
    CodeSettled(c, c.pc + 2);
  }

  /** The first instruction retires and leaves the hart before the second. */
  lemma AfterLui(b: Board, c: Core<World>) returns (d: Core<World>)
    requires AtBlock(b, c)
    ensures ExecOne(PagedSys(b, true).env, c, b.decode(Lui), 4) == Retired(d)
    ensures Supervisor(d) && d.world == c.world && d.pc == Code + 4 && Read(d.regs, 1) == Port
  {
    hide Half, Translated;
    d := c.(regs := Write(true, c.regs, 1, Port), pc := Code + 4, instret := c.instret + 1);
    assert Plus(c.pc, 4) == Code + 4;
  }

  lemma LwRefused(b: Board, d: Core<World>)
    requires Supervisor(d) && Read(d.regs, 1) == Port && b.isDevice(Port)
    requires var i := b.decode(Lw); i.op == OpLoad && i.rs1 == 1 && i.immI == 0
    ensures var sys, i := PagedSys(b, true), b.decode(Lw);
      ExecOne(sys.env, d, i, 4).Device? && Probed(sys.env, d, i) == d.world.(tables := Tables()[Root * 4096 := Gigapage(0, true)])
  {
    hide Translated, Supervisor, Tables;
    PortMarks(d);
    var sys, i := PagedSys(b, true), b.decode(Lw);
    assert EffectiveAddress(d, i) == Port && MmuAccess(AccessOf(i)) == Mmu.Load;
    assert sys.env.translate(d.world, CtxOf(d), Port, AccessOf(i)) == Translated(true, d.world, CtxOf(d), Port, Mmu.Load);
  }

  lemma StopsSecond<W>(env: Env<W>, c: Core<W>, a: Decoded, b: Decoded, d: Core<W>)
    requires ExecOne(env, c, a.inst, a.ilen) == Retired(d) && KindOf(c.rv64, a.inst) != Term
    requires ExecOne(env, d, b.inst, b.ilen).Device?
    ensures BlockExec(env, c, [a, b]) == (d.(world := Probed(env, d, b.inst)), 1)
    ensures ArchExec(env, c, [a, b]) == (d, 1)
  {
    hide ExecOne, Probed, KindOf;
    assert [a, b][1..] == [b];
    assert BlockExec(env, d, [b]) == (d.(world := Probed(env, d, b.inst)), 0);
    assert ArchExec(env, d, [b]) == (d, 0);
  }

  lemma FetchesTwo<W>(sys: Sys<W>, c: Core<W>, a: Decoded, b: Decoded, d: Core<W>)
    requires FetchCore(sys, c) == Fetched(a.inst, a.ilen, c.world) && FetchCore(sys, d) == Fetched(b.inst, b.ilen, d.world)
    requires ExecOne(sys.env, c, a.inst, a.ilen) == Retired(d) && ExecOne(sys.env, d, b.inst, b.ilen).Device?
    ensures FetchesBlock(sys, c, [a, b])
  {
    hide ExecOne, FetchAt, KindOf;
    assert [a, b][1..] == [b];
    assert FetchesBlock(sys, d, [b]);
  }

  /** Under these page tables the block stops at the device load after one retired instruction.  The
      interpreter, one step further too, has not touched the leaf of the device page; the probe has
      marked it accessed.  Equality with the interpreter is therefore conditional there
      (JitRun.BlockExitExact), and the next step restores it. */
  lemma ProbeCanShow(b: Board, c: Core<World>)
    requires AtBlock(b, c)
    ensures FetchesBlock(PagedSys(b, true), c, DeviceBlock(b))
    ensures var env := PagedSys(b, true).env;
      && BlockExec(env, c, DeviceBlock(b)).1 == 1 && ArchExec(env, c, DeviceBlock(b)).1 == 1
      && BlockExec(env, c, DeviceBlock(b)).0.world.tables == Tables()[Root * 4096 := Gigapage(0, true)]
      && ArchExec(env, c, DeviceBlock(b)).0.world.tables == Tables() && !Tables()[Root * 4096].a
  {
    hide Translated, ExecOne, Probed, FetchAt, PagedSys, Half;
    var sys := PagedSys(b, true);
    var d := AfterLui(b, c);
    FetchWord(b, c, 0xb7, 0x1000);
    FetchWord(b, d, 0xa103, 0);
    LwRefused(b, d);
    FetchesTwo(sys, c, DeviceBlock(b)[0], DeviceBlock(b)[1], d);
    StopsSecond(sys.env, c, DeviceBlock(b)[0], DeviceBlock(b)[1], d);
  }

  /** The hart before the load, as the interpreter and as the block leave it. */
  lemma AheadAtLoad(b: Board, c: Core<World>) returns (d: Core<World>)
    requires AtBlock(b, c) && c.halt == Running && !c.plat.poweroff
    ensures ArchExec(PagedSys(b, true).env, c, DeviceBlock(b)).0 == d && SameGates(c, d)
    ensures var e := BlockExec(PagedSys(b, true).env, c, DeviceBlock(b)).0; e != d && Poised(PagedSys(b, true), e, d)
  {
    hide Translated, ExecOne, Probed, FetchAt, PagedSys, Half;
    var sys := PagedSys(b, true);
    d := AfterLui(b, c);
    RetiredKeeps(sys.env, c, b.decode(Lui), 4);
    LwRefused(b, d);
    StopsSecond(sys.env, c, DeviceBlock(b)[0], DeviceBlock(b)[1], d);
    assert Tables()[Root * 4096 := Gigapage(0, true)][Root * 4096].a && !Tables()[Root * 4096].a;
    LoadReadable(b, d);
    PoisedWitness(sys, d, b.decode(Lw), 4, Code, Code, 4);
  }

  lemma LoadReadable(b: Board, d: Core<World>)
    requires Supervisor(d) && d.pc == Code + 4 && (forall k: nat :: Code <= k < Code + 8 ==> !b.isDevice(k))
    requires Half(d.world, Code + 4) == Some(0xa103) && Half(d.world, Code + 6) == Some(0)
    ensures Fetchable(PagedSys(b, true), d, b.decode(Lw), 4, Code, Code, 4)
  {
    hide Translated, Half, Supervisor;
    CodeSettled(d, Code + 4);
    CodeSettled(d, Code + 6);
    assert PageEnd(Code) == Code + 4096;
  }

  /** Were the call to end there and the host to raise the machine external line, the interrupt would be
      taken with the page already marked on one side only. */
  lemma LineWouldShow(b: Board, s: Machine<World>, seip: bool)
    requires AtBlock(b, s.core) && s.core.halt == Running && !s.core.plat.poweroff
    requires s.core.csr.mie.mext && !s.core.csr.mideleg.mext
    ensures var sys := PagedSys(b, true);
      var a := SetLines(Advanced(s, BlockExec(sys.env, s.core, DeviceBlock(b)).0, 1), seip, true);
      var x := SetLines(Advanced(s, ArchExec(sys.env, s.core, DeviceBlock(b)).0, 1), seip, true);
      Ahead(sys, a, x) && PreStep(Tick(x)).Consumed? && !Equiv(Step(sys, Tick(a)), Step(sys, Tick(x)))
  {
    hide BlockExec, ArchExec, Poised, PagedSys, AtBlock, Step;
    var sys := PagedSys(b, true);
    assert s.core.priv == 1 by { BlockPriv(b, s.core); }
    var d := AheadAtLoad(b, s.core);
    var e := BlockExec(sys.env, s.core, DeviceBlock(b)).0;
    var a0, x0 := Advanced(s, e, 1), Advanced(s, d, 1);
    PoisedLines(sys, a0, x0, seip, true);
    var a, x := SetLines(a0, seip, true), SetLines(x0, seip, true);
    PoisedWorld(sys, x0, e);
    assert a.(core := x.core) == x;
    RaisedTaken(x);
    InterruptShows(sys, a, x);
  }

  lemma BlockPriv(b: Board, c: Core<World>)
    requires AtBlock(b, c)
    ensures c.priv == 1
  {
    hide Half;
  }

  lemma RaisedTaken<W>(x: Machine<W>)
    requires x.core.plat.meip && x.core.csr.mie.mext && !x.core.csr.mideleg.mext && x.core.priv < 3
    ensures PreStep(Tick(x)).Consumed?
  {
    hide EnterTrap;
  }
}
