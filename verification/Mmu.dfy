/** Address translation (mmu.c): the Sv32 and Sv39 walks with hardware accessed/dirty bits, and the
    direct-mapped TLB in front of them.

    Page tables are cells addressed by their (naturally aligned) physical address; a cell outside
    mapped memory is absent.  A page-table entry is given by its fields. */
module Mmu {
  import opened Basics
  datatype Pte = Pte(v: bool, r: bool, w: bool, x: bool, u: bool, a: bool, d: bool, ppn: nat, others: nat)
  type Memory = map<nat, Pte>

  datatype Access = Fetch | Load | Store
  datatype Mode = Ctx(priv: nat, mprv: bool, mpp: nat, sum: bool, mxr: bool)

  datatype Result = PageFault(cause: nat) | Physical(pa: nat)

  // ---- satp and the two schemes -----------------------------------------------------------

  datatype Scheme = Bare | Sv32 | Sv39 | Unsupported

  const P12: nat := 0x1000
  const P38: nat := 0x40_0000_0000
  const P39: nat := 0x80_0000_0000
  const P44: nat := 0x1000_0000_0000
  const P60: nat := 0x1000_0000_0000_0000
  const P64: nat := 0x1_0000_0000_0000_0000

  function SchemeOf(rv64: bool, satp: nat): Scheme {
    if !rv64 then (if satp / 0x8000_0000 % 2 == 1 then Sv32 else Bare)
    else if satp / P60 % 16 == 0 then Bare
    else if satp / P60 % 16 == 8 then Sv39
    else Unsupported
  }

  function Root(s: Scheme, satp: nat): nat { if s == Sv32 then satp % 0x40_0000 else satp % P44 }
  function Asid(s: Scheme, satp: nat): nat { if s == Sv32 then satp / 0x40_0000 % 512 else satp / P44 % 0x1_0000 }

  function TopLevel(s: Scheme): nat { if s == Sv32 then 1 else 2 }
  function PteSize(s: Scheme): nat { if s == Sv32 then 4 else 8 }

  /** Pages per entry of a table at this level. */
  function Span(s: Scheme, level: nat): nat {
    var n := if s == Sv32 then 1024 else 512;
    if level == 0 then 1 else if level == 1 then n else n * n
  }

  function Index(s: Scheme, vpn: nat, level: nat): nat {
    if s == Sv32 then vpn / Span(Sv32, level) % 1024 else vpn / Span(Sv39, level) % 512
  }

  predicate Canonical(va: nat) {
    va == if va % P39 >= P38 then va % P39 + P64 - P39 else va % P39
  }

  function Cause(acc: Access): nat { if acc == Fetch then 12 else if acc == Store then 15 else 13 }

  function EffectivePriv(m: Mode, acc: Access): nat { if acc != Fetch && m.mprv then m.mpp else m.priv }

  /** May a leaf with these permission bits serve the access? */
  predicate Permits(m: Mode, r: bool, w: bool, x: bool, u: bool, acc: Access) {
    && (if EffectivePriv(m, acc) == 0 then u else u ==> acc != Fetch && m.sum)
    && match acc
       case Fetch => x
       case Load => r || (m.mxr && x)
       case Store => w
  }

  // ---- The walk ---------------------------------------------------------------------------

  datatype Found = NoLeaf | Leaf(addr: nat, pte: Pte, level: nat)

  function Cell(s: Scheme, table: nat, vpn: nat, level: nat): nat {
    table * P12 + Index(s, vpn, level) * PteSize(s)
  }

  /** Descend from the table at physical page `table` to the leaf for this page, if there is one. */
  function Descend(s: Scheme, mem: Memory, vpn: nat, table: nat, level: nat): Found
    decreases level
  {
    var addr := Cell(s, table, vpn, level);
    if addr !in mem then NoLeaf
    else
      var pte := mem[addr];
      if !pte.v || (!pte.r && pte.w) then NoLeaf
      else if pte.r || pte.x then Leaf(addr, pte, level)
      else if level == 0 then NoLeaf
      else Descend(s, mem, vpn, pte.ppn, level - 1)
  }

  predicate Aligned(s: Scheme, f: Found)
    requires f.Leaf?
  {
    f.pte.ppn % Span(s, f.level) == 0
  }

  /** The page number, the low fields of a superpage taken from the address. */
  function PageNumber(s: Scheme, f: Found, vpn: nat): nat
    requires f.Leaf?
  {
    f.pte.ppn + vpn % Span(s, f.level)
  }

  function Touch(pte: Pte, acc: Access): Pte { pte.(a := true, d := pte.d || acc == Store) }

  function Address(ppn: nat, va: nat): nat { ppn * P12 + va % P12 }

  /** A translation with no TLB, once paging applies. */
  function Walk(s: Scheme, root: nat, mem: Memory, m: Mode, va: nat, acc: Access): (Result, Memory) {
    var vpn := va / P12;
    var f := Descend(s, mem, vpn, root, TopLevel(s));
    if f.NoLeaf? || !Permits(m, f.pte.r, f.pte.w, f.pte.x, f.pte.u, acc) || !Aligned(s, f) then
      (PageFault(Cause(acc)), mem)
    else
      (Physical(Address(PageNumber(s, f, vpn), va)), mem[f.addr := Touch(f.pte, acc)])
  }

  predicate Paged(rv64: bool, satp: nat, m: Mode, acc: Access) {
    var s := SchemeOf(rv64, satp);
    EffectivePriv(m, acc) != 3 && (s == Sv32 || s == Sv39)
  }

  function Va(rv64: bool, va: nat): nat { if rv64 then va else va % P32 }

  /** mmu_translate on a machine with no TLB. */
  function Plain(rv64: bool, satp: nat, mem: Memory, m: Mode, va0: nat, acc: Access): (Result, Memory) {
    var va := Va(rv64, va0);
    var s := SchemeOf(rv64, satp);
    if !Paged(rv64, satp, m, acc) then (Physical(va), mem)
    else if s == Sv39 && !Canonical(va) then (PageFault(Cause(acc)), mem)
    else Walk(s, Root(s, satp), mem, m, va, acc)
  }

  // ---- The TLB ----------------------------------------------------------------------------

  datatype Entry = Entry(valid: bool, vpn: nat, asid: nat, ppn: nat, r: bool, w: bool, x: bool, u: bool, d: bool)

  const Slots: nat := 16

  type Tlb = t: seq<Entry> | |t| == 16 witness seq(16, _ => Entry(false, 0, 0, 0, false, false, false, false, false))

  predicate Hits(e: Entry, vpn: nat, asid: nat, acc: Access) {
    e.valid && e.vpn == vpn && e.asid == asid && (acc != Store || e.d)
  }

  function Fill(s: Scheme, f: Found, vpn: nat, asid: nat, acc: Access): Entry
    requires f.Leaf?
  {
    var p := Touch(f.pte, acc);
    Entry(true, vpn, asid, PageNumber(s, f, vpn), p.r, p.w, p.x, p.u, p.d)
  }

  /** mmu_translate. */
  function Cached(rv64: bool, satp: nat, tlb: Tlb, mem: Memory, m: Mode, va0: nat, acc: Access): (Result, Tlb, Memory) {
    var va := Va(rv64, va0);
    var s := SchemeOf(rv64, satp);
    if !Paged(rv64, satp, m, acc) then (Physical(va), tlb, mem)
    else if s == Sv39 && !Canonical(va) then (PageFault(Cause(acc)), tlb, mem)
    else
      var vpn := va / P12;
      var e := tlb[vpn % Slots];
      if Hits(e, vpn, Asid(s, satp), acc) then
        if Permits(m, e.r, e.w, e.x, e.u, acc) then (Physical(Address(e.ppn, va)), tlb, mem)
        else (PageFault(Cause(acc)), tlb, mem)
      else
        var f := Descend(s, mem, vpn, Root(s, satp), TopLevel(s));
        var (r, mem') := Walk(s, Root(s, satp), mem, m, va, acc);
        if r.PageFault? then (r, tlb, mem')
        else (r, tlb[vpn % Slots := Fill(s, f, vpn, Asid(s, satp), acc)], mem')
  }

  // ---- Coherence --------------------------------------------------------------------------

  /** The entry says what a walk would find, with the accessed bit set, and dirty only if the leaf
      is dirty. */
  predicate Agrees(s: Scheme, root: nat, mem: Memory, e: Entry) {
    var f := Descend(s, mem, e.vpn, root, TopLevel(s));
    && f.Leaf? && Aligned(s, f) && e.ppn == PageNumber(s, f, e.vpn)
    && e.r == f.pte.r && e.w == f.pte.w && e.x == f.pte.x && e.u == f.pte.u
    && f.pte.a && (e.d ==> f.pte.d)
  }

  predicate Coherent(rv64: bool, satp: nat, tlb: Tlb, mem: Memory) {
    var s := SchemeOf(rv64, satp);
    forall k :: 0 <= k < Slots && tlb[k].valid ==>
      tlb[k].asid == Asid(s, satp) && Agrees(s, Root(s, satp), mem, tlb[k])
  }

  /** The same page tables but for accessed and dirty bits that have been set. */
  predicate Extends(mem: Memory, mem': Memory) {
    && mem.Keys == mem'.Keys
    && forall k :: k in mem ==> PteExtends(mem[k], mem'[k])
  }

  predicate PteExtends(p: Pte, q: Pte) {
    q.(a := p.a, d := p.d) == p && (p.a ==> q.a) && (p.d ==> q.d)
  }

  /** Accessed and dirty bits do not steer the walk: it finds the same leaf cell, whose entry differs
      in those bits at most.  This holds for superpages and for tables that contain themselves. */
  lemma {:induction false} DescendExtends(s: Scheme, mem: Memory, mem': Memory, vpn: nat, table: nat, level: nat)
    requires Extends(mem, mem')
    ensures var f, g := Descend(s, mem, vpn, table, level), Descend(s, mem', vpn, table, level);
      && (f.NoLeaf? <==> g.NoLeaf?)
      && (f.Leaf? ==> g.addr == f.addr && g.level == f.level && f.addr in mem && f.pte == mem[f.addr] && g.pte == mem'[f.addr])
    decreases level
  {
    hide Cell;
    var addr := Cell(s, table, vpn, level);
    if addr in mem {
      var p, q := mem[addr], mem'[addr];
      assert PteExtends(p, q);
      if level > 0 { DescendExtends(s, mem, mem', vpn, p.ppn, level - 1); }
    }
  }

  lemma AgreesExtends(s: Scheme, root: nat, mem: Memory, mem': Memory, e: Entry)
    requires Extends(mem, mem') && Agrees(s, root, mem, e)
    ensures Agrees(s, root, mem', e)
  {
    hide Descend, Span;
    DescendExtends(s, mem, mem', e.vpn, root, TopLevel(s));
    var f := Descend(s, mem, e.vpn, root, TopLevel(s));
    assert PteExtends(mem[f.addr], mem'[f.addr]);
  }

  lemma CoherentExtends(rv64: bool, satp: nat, tlb: Tlb, mem: Memory, mem': Memory)
    requires Extends(mem, mem') && Coherent(rv64, satp, tlb, mem)
    ensures Coherent(rv64, satp, tlb, mem')
  {
    hide Agrees, Extends;
    var s := SchemeOf(rv64, satp);
    forall k | 0 <= k < Slots && tlb[k].valid ensures Agrees(s, Root(s, satp), mem', tlb[k]) {
      AgreesExtends(s, Root(s, satp), mem, mem', tlb[k]);
    }
  }

  lemma {:induction false} DescendFinds(s: Scheme, mem: Memory, vpn: nat, table: nat, level: nat)
    ensures var f := Descend(s, mem, vpn, table, level); f.Leaf? ==> f.addr in mem && mem[f.addr] == f.pte
    decreases level
  {
    hide Cell;
    var addr := Cell(s, table, vpn, level);
    if addr in mem && level > 0 { DescendFinds(s, mem, vpn, mem[addr].ppn, level - 1); }
  }

  /** A translation changes page tables only by setting accessed and dirty bits. */
  lemma WalkExtends(s: Scheme, root: nat, mem: Memory, m: Mode, va: nat, acc: Access)
    ensures Extends(mem, Walk(s, root, mem, m, va, acc).1)
  {
    hide Descend, Permits, Span;
    DescendFinds(s, mem, va / P12, root, TopLevel(s));
  }

  // ---- Hits and fills ---------------------------------------------------------------------

  /** A hit answers as the walk it replaces, and that walk would have left memory alone. */
  lemma HitIsWalk(s: Scheme, root: nat, mem: Memory, e: Entry, m: Mode, va: nat, acc: Access)
    requires Agrees(s, root, mem, e) && e.vpn == va / P12 && (acc == Store ==> e.d)
    ensures Walk(s, root, mem, m, va, acc)
         == (if Permits(m, e.r, e.w, e.x, e.u, acc) then (Physical(Address(e.ppn, va)), mem) else (PageFault(Cause(acc)), mem))
  {
    hide Descend, Permits, Span, Address;
    DescendFinds(s, mem, e.vpn, root, TopLevel(s));
    var f := Descend(s, mem, e.vpn, root, TopLevel(s));
    assert Touch(f.pte, acc) == f.pte;
    assert mem[f.addr := f.pte] == mem;
  }

  /** What a miss caches agrees with the page tables it leaves. */
  lemma FillAgrees(s: Scheme, root: nat, mem: Memory, m: Mode, va: nat, asid: nat, acc: Access)
    requires Walk(s, root, mem, m, va, acc).0.Physical?
    ensures var f := Descend(s, mem, va / P12, root, TopLevel(s));
      f.Leaf? && Agrees(s, root, Walk(s, root, mem, m, va, acc).1, Fill(s, f, va / P12, asid, acc))
  {
    hide Descend, Permits, Span;
    var vpn := va / P12;
    var f := Descend(s, mem, vpn, root, TopLevel(s));
    var mem' := Walk(s, root, mem, m, va, acc).1;
    DescendFinds(s, mem, vpn, root, TopLevel(s));
    WalkExtends(s, root, mem, m, va, acc);
    DescendExtends(s, mem, mem', vpn, root, TopLevel(s));
  }

  /** One translation: with a coherent TLB the answer and the memory are those of the walk, and the
      TLB stays coherent. */
  lemma CachedIsPlain(rv64: bool, satp: nat, tlb: Tlb, mem: Memory, m: Mode, va0: nat, acc: Access)
    requires Coherent(rv64, satp, tlb, mem)
    ensures var (r, tlb', mem') := Cached(rv64, satp, tlb, mem, m, va0, acc);
      (r, mem') == Plain(rv64, satp, mem, m, va0, acc) && Coherent(rv64, satp, tlb', mem')
  {
    hide Descend, Permits, Span, Address, Agrees, Canonical, SchemeOf, Root, Asid, Walk, Fill;
    var va := Va(rv64, va0);
    var s := SchemeOf(rv64, satp);
    if Paged(rv64, satp, m, acc) && (s == Sv39 ==> Canonical(va)) {
      var vpn := va / P12;
      var e := tlb[vpn % Slots];
      if Hits(e, vpn, Asid(s, satp), acc) {
        HitIsWalk(s, Root(s, satp), mem, e, m, va, acc);
      } else {
        WalkExtends(s, Root(s, satp), mem, m, va, acc);
        CoherentExtends(rv64, satp, tlb, mem, Walk(s, Root(s, satp), mem, m, va, acc).1);
        if Walk(s, Root(s, satp), mem, m, va, acc).0.Physical? {
          FillAgrees(s, Root(s, satp), mem, m, va, Asid(s, satp), acc);
          FillFields(s, mem, vpn, Root(s, satp), Asid(s, satp), acc);
        }
      }
    }
  }

  lemma FillFields(s: Scheme, mem: Memory, vpn: nat, root: nat, asid: nat, acc: Access)
    ensures var f := Descend(s, mem, vpn, root, TopLevel(s)); f.Leaf? ==> Fill(s, f, vpn, asid, acc).asid == asid
  {
    hide Descend;
  }

  // ---- Whole runs -------------------------------------------------------------------------

  /** What can happen between a flush and the next: translations in any mode, a satp write (which
      flushes unless it selects an unsupported scheme and is dropped), and any edit of the page
      tables followed by SFENCE.VMA. */
  datatype Event = Translation(m: Mode, va: nat, acc: Access) | WriteSatp(value: nat) | EditAndFence(mem: Memory)

  function Flushed(tlb: Tlb): Tlb { seq(Slots, k requires 0 <= k < Slots => tlb[k].(valid := false)) }

  lemma FlushCoherent(rv64: bool, satp: nat, tlb: Tlb, mem: Memory)
    ensures Coherent(rv64, satp, Flushed(tlb), mem)
  {
  }

  function NewSatp(rv64: bool, satp: nat, value: nat): nat { if SchemeOf(rv64, value) == Unsupported then satp else value }

  function RunCached(rv64: bool, satp: nat, tlb: Tlb, mem: Memory, events: seq<Event>): (seq<Result>, Memory)
    decreases |events|
  {
    if events == [] then ([], mem)
    else
      match events[0]
      case Translation(m, va, acc) =>
        var (r, tlb', mem') := Cached(rv64, satp, tlb, mem, m, va, acc);
        var (rs, last) := RunCached(rv64, satp, tlb', mem', events[1..]);
        ([r] + rs, last)
      case WriteSatp(value) =>
        if SchemeOf(rv64, value) == Unsupported then RunCached(rv64, satp, tlb, mem, events[1..])
        else RunCached(rv64, value, Flushed(tlb), mem, events[1..])
      case EditAndFence(edited) => RunCached(rv64, satp, Flushed(tlb), edited, events[1..])
  }

  function RunPlain(rv64: bool, satp: nat, mem: Memory, events: seq<Event>): (seq<Result>, Memory)
    decreases |events|
  {
    if events == [] then ([], mem)
    else
      match events[0]
      case Translation(m, va, acc) =>
        var (r, mem') := Plain(rv64, satp, mem, m, va, acc);
        var (rs, last) := RunPlain(rv64, satp, mem', events[1..]);
        ([r] + rs, last)
      case WriteSatp(value) => RunPlain(rv64, NewSatp(rv64, satp, value), mem, events[1..])
      case EditAndFence(edited) => RunPlain(rv64, satp, edited, events[1..])
  }

  /** From a coherent TLB on (a flushed one, say), every run gives the same addresses and faults, and
      the same memory, as a machine with no TLB. */
  lemma {:induction false} TlbInvisible(rv64: bool, satp: nat, tlb: Tlb, mem: Memory, events: seq<Event>)
    requires Coherent(rv64, satp, tlb, mem)
    ensures RunCached(rv64, satp, tlb, mem, events) == RunPlain(rv64, satp, mem, events)
    decreases |events|
  {
    hide Coherent, Cached, Plain, SchemeOf, Flushed;
    if events != [] {
      match events[0] {
        case Translation(m, va, acc) =>
          CachedIsPlain(rv64, satp, tlb, mem, m, va, acc);
          var (_, tlb', mem') := Cached(rv64, satp, tlb, mem, m, va, acc);
          TlbInvisible(rv64, satp, tlb', mem', events[1..]);
        case WriteSatp(value) =>
          FlushCoherent(rv64, value, tlb, mem);
          if SchemeOf(rv64, value) == Unsupported {
            TlbInvisible(rv64, satp, tlb, mem, events[1..]);
          } else {
            TlbInvisible(rv64, value, Flushed(tlb), mem, events[1..]);
          }
        case EditAndFence(edited) =>
          FlushCoherent(rv64, satp, tlb, edited);
          TlbInvisible(rv64, satp, Flushed(tlb), edited, events[1..]);
      }
    }
  }

  /** Translating again gives the same page and changes nothing more. */
  lemma PlainIdempotent(rv64: bool, satp: nat, mem: Memory, m: Mode, va0: nat, acc: Access)
    requires Plain(rv64, satp, mem, m, va0, acc).0.Physical?
    ensures var (r, mem') := Plain(rv64, satp, mem, m, va0, acc); Plain(rv64, satp, mem', m, va0, acc) == (r, mem')
  {
    hide Descend, Permits, Span, Address, SchemeOf, Root, Canonical;
    var va := Va(rv64, va0);
    var s := SchemeOf(rv64, satp);
    if Paged(rv64, satp, m, acc) {
      var root := Root(s, satp);
      var f := Descend(s, mem, va / P12, root, TopLevel(s));
      var mem' := Walk(s, root, mem, m, va, acc).1;
      DescendFinds(s, mem, va / P12, root, TopLevel(s));
      WalkExtends(s, root, mem, m, va, acc);
      DescendExtends(s, mem, mem', va / P12, root, TopLevel(s));
      assert mem'[f.addr := Touch(f.pte, acc)] == mem';
    }
  }

  lemma SameLeaf(s: Scheme, f: Found, g: Found, vpn: nat)
    requires f.Leaf? && g.Leaf? && g.level == f.level && g.pte.ppn == f.pte.ppn
    ensures Aligned(s, g) == Aligned(s, f) && PageNumber(s, g, vpn) == PageNumber(s, f, vpn)
  {
    hide Span;
  }

  lemma UpdateSame(mem: Memory, k: nat, p: Pte)
    requires k in mem
    ensures mem[k := p] == mem <==> p == mem[k]
  {
    if mem[k := p] == mem { assert mem[k := p][k] == p; }
  }

  lemma WalkAgain(s: Scheme, root: nat, mem: Memory, mem': Memory, m: Mode, va: nat, acc: Access)
    requires Extends(mem, mem')
    ensures Walk(s, root, mem', m, va, acc).0 == Walk(s, root, mem, m, va, acc).0
    ensures Walk(s, root, mem, m, va, acc).1 == mem ==> Walk(s, root, mem', m, va, acc).1 == mem'
  {
    hide Descend, Permits, Address, Aligned, PageNumber;
    var f, g := Descend(s, mem, va / P12, root, TopLevel(s)), Descend(s, mem', va / P12, root, TopLevel(s));
    DescendExtends(s, mem, mem', va / P12, root, TopLevel(s));
    if f.Leaf? {
      assert PteExtends(mem[f.addr], mem'[f.addr]);
      SameLeaf(s, f, g, va / P12);
      UpdateSame(mem, f.addr, Touch(f.pte, acc));
      UpdateSame(mem', f.addr, Touch(g.pte, acc));
      hide Extends;
    }
  }

  /** Setting accessed and dirty bits changes no translation: the same answer for every address, and a
      translation that had nothing left to mark still has nothing. */
  lemma PlainExtends(rv64: bool, satp: nat, mem: Memory, mem': Memory, m: Mode, va0: nat, acc: Access)
    requires Extends(mem, mem')
    ensures Plain(rv64, satp, mem', m, va0, acc).0 == Plain(rv64, satp, mem, m, va0, acc).0
    ensures Plain(rv64, satp, mem, m, va0, acc).1 == mem ==> Plain(rv64, satp, mem', m, va0, acc).1 == mem'
  {
    hide Walk, SchemeOf, Root, Canonical, Extends;
    var s := SchemeOf(rv64, satp);
    WalkAgain(s, Root(s, satp), mem, mem', m, Va(rv64, va0), acc);
  }

  lemma PlainMarks(rv64: bool, satp: nat, mem: Memory, m: Mode, va0: nat, acc: Access)
    ensures Extends(mem, Plain(rv64, satp, mem, m, va0, acc).1)
  {
    hide Walk, SchemeOf, Root, Canonical;
    var s := SchemeOf(rv64, satp);
    WalkExtends(s, Root(s, satp), mem, m, Va(rv64, va0), acc);
  }

  /** The page an address is in decides everything but the offset. */
  lemma PlainSamePage(rv64: bool, satp: nat, mem: Memory, m: Mode, va0: nat, at: nat, acc: Access)
    requires va0 / P12 == at / P12 && at < P64 && va0 < P64
    ensures var r, q := Plain(rv64, satp, mem, m, va0, acc), Plain(rv64, satp, mem, m, at, acc);
      && q.1 == r.1
      && (r.0.Physical? ==> q.0.Physical? && r.0.pa % P12 == va0 % P12 && q.0.pa == r.0.pa - va0 % P12 + at % P12)
  {
    hide Descend, Permits, Span, SchemeOf, Root, Canonical;
    SamePageVa(rv64, va0, at);
    SchemeWidth(rv64, satp);
    PageOfAddress(0, Va(rv64, va0));
    var s := SchemeOf(rv64, satp);
    var f := Descend(s, mem, Va(rv64, va0) / P12, Root(s, satp), TopLevel(s));
    if f.Leaf? { PageOfAddress(PageNumber(s, f, Va(rv64, va0) / P12), Va(rv64, va0)); }
  }

  lemma SchemeWidth(rv64: bool, satp: nat)
    ensures SchemeOf(rv64, satp) == Sv39 ==> rv64
  {
  }

  lemma PageOfAddress(ppn: nat, va: nat)
    ensures Address(ppn, va) % P12 == va % P12
  {
  }

  lemma SamePageVa(rv64: bool, va: nat, at: nat)
    requires va / P12 == at / P12 && at < P64 && va < P64
    ensures var v, u := Va(rv64, va), Va(rv64, at);
      && v / P12 == u / P12 && v % P12 == va % P12 && u % P12 == at % P12 && (rv64 ==> (Canonical(v) <==> Canonical(u)))
      && v - va % P12 == u - at % P12
  {
    if rv64 { SamePageCanonical(va, at); } else { SamePageLow(va, at); }
  }

  lemma SamePageLow(va: nat, at: nat)
    requires va / P12 == at / P12
    ensures va % P32 / P12 == at % P32 / P12 && va % P32 % P12 == va % P12 && at % P32 % P12 == at % P12
    ensures va % P32 - va % P12 == at % P32 - at % P12
  {
    LowPage(va);
    LowPage(at);
  }

  lemma LowPage(va: nat)
    ensures va % P32 == va / P12 % 0x10_0000 * P12 + va % P12
  {
  }

  lemma SamePageCanonical(va: nat, at: nat)
    requires va / P12 == at / P12
    ensures Canonical(va) <==> Canonical(at)
  {
    WidePage(va);
    WidePage(at);
  }

  lemma WidePage(va: nat)
    ensures va % P39 == va / P12 % 0x800_0000 * P12 + va % P12
  {
  }

  // ---- The hart's MMU state, updated in place ---------------------------------------------

  class HartMmu {
    const rv64: bool
    var satp: nat
    var mem: Memory
    const tlb: array<Entry>

    ghost predicate Valid()
      reads this, tlb
    {
      tlb.Length == Slots && Coherent(rv64, satp, tlb[..], mem)
    }

    constructor (rv64: bool, mem: Memory)
      ensures Valid() && this.rv64 == rv64 && this.mem == mem && satp == 0 && fresh(tlb)
    {
      this.rv64 := rv64;
      this.mem := mem;
      satp := 0;
      tlb := new Entry[Slots](_ => Entry(false, 0, 0, 0, false, false, false, false, false));
    }

    /** The level-by-level walk. */
    method FindLeaf(s: Scheme, vpn: nat) returns (f: Found)
      ensures f == Descend(s, mem, vpn, Root(s, satp), TopLevel(s))
    {
      hide Root, Cell;
      var table, level := Root(s, satp), TopLevel(s);
      while true
        invariant Descend(s, mem, vpn, table, level) == Descend(s, mem, vpn, Root(s, satp), TopLevel(s))
        decreases level
      {
        var addr := Cell(s, table, vpn, level);
        if addr !in mem { return NoLeaf; }
        var pte := mem[addr];
        if !pte.v || (!pte.r && pte.w) { return NoLeaf; }
        if pte.r || pte.x { return Leaf(addr, pte, level); }
        if level == 0 { return NoLeaf; }
        table, level := pte.ppn, level - 1;
      }
    }

    /** mmu_translate. */
    method Translate(m: Mode, va0: nat, acc: Access) returns (r: Result)
      requires Valid()
      modifies this`mem, tlb
      ensures Valid()
      ensures (r, mem) == Plain(rv64, satp, old(mem), m, va0, acc)
    {
      hide Descend, Permits, Span, Address, Coherent, Canonical, SchemeOf, Root, Asid, Aligned, Agrees;
      ghost var before := tlb[..];
      CachedIsPlain(rv64, satp, tlb[..], mem, m, va0, acc);
      var va := Va(rv64, va0);
      var s := SchemeOf(rv64, satp);
      if !Paged(rv64, satp, m, acc) { return Physical(va); }
      if s == Sv39 && !Canonical(va) { return PageFault(Cause(acc)); }
      var vpn := va / P12;
      var e := tlb[vpn % Slots];
      if Hits(e, vpn, Asid(s, satp), acc) {
        if !Permits(m, e.r, e.w, e.x, e.u, acc) { return PageFault(Cause(acc)); }
        return Physical(Address(e.ppn, va));
      }
      var f := FindLeaf(s, vpn);
      if f.NoLeaf? || !Permits(m, f.pte.r, f.pte.w, f.pte.x, f.pte.u, acc) || !Aligned(s, f) { return PageFault(Cause(acc)); }
      DescendFinds(s, mem, vpn, Root(s, satp), TopLevel(s));
      var pte := Touch(f.pte, acc);
      if pte != f.pte { mem := mem[f.addr := pte]; }
      assert mem == old(mem)[f.addr := pte];
      tlb[vpn % Slots] := Fill(s, f, vpn, Asid(s, satp), acc);
      assert tlb[..] == before[vpn % Slots := Fill(s, f, vpn, Asid(s, satp), acc)];
      return Physical(Address(PageNumber(s, f, vpn), va));
    }

    /** mmu_flush. */
    method Flush()
      requires tlb.Length == Slots
      modifies tlb
      ensures tlb[..] == Flushed(old(tlb[..])) && Valid()
    {
      var k := 0;
      while k < Slots
        invariant 0 <= k <= Slots
        invariant forall j :: 0 <= j < k ==> tlb[j] == old(tlb[j]).(valid := false)
        invariant forall j :: k <= j < Slots ==> tlb[j] == old(tlb[j])
      {
        tlb[k] := tlb[k].(valid := false);
        k := k + 1;
      }
      assert tlb[..] == Flushed(old(tlb[..]));
      FlushCoherent(rv64, satp, old(tlb[..]), mem);
    }

    /** csr_write of satp: an unsupported mode is dropped, anything else flushes. */
    method SetSatp(value: nat)
      requires Valid()
      modifies this`satp, tlb
      ensures Valid() && satp == NewSatp(rv64, old(satp), value)
    {
      hide Coherent, SchemeOf, Flushed;
      if SchemeOf(rv64, value) == Unsupported { return; }
      satp := value;
      Flush();
    }
  }
}
