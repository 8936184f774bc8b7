/** The block table and code arena of the translator (jit.c: struct Jit, jit_flush, the lookup in
    jit_run and the commit in translate): four-way sets, stale entries told by their generation,
    and a whole-table flush when the arena is full. */
module JitTable {
  import opened Basics
  import opened RvWords
  import opened Rv
  import opened Machine
  import opened JitBlock
  import opened JitTranslate
  import opened JitLaws
  import opened JitFresh
  import opened JitFetch
  import opened JitSim

  const Sets: nat := 8192
  const Ways: nat := 4
  const Arena: nat := 0x200_0000
  const CodeMax: nat := 16384

  datatype Entry = Entry(gen: nat, pa: Word, va: Word, block: Block)

  /** Which blocks have been made since the last flush, by physical address and pc. */
  type Made = map<(Word, Word), Block>

  /** What translating at this place gives: the one block there is, or nothing where there is none or
      its host code does not fit the buffer. */
  ghost predicate Translated(cm: CodeMemory, rv64: bool, pa: Word, pc: Word, size: seq<Decoded> -> nat, block: Block) {
    exists insts :: TranslatedFrom(cm, rv64, pa, pc, size, block, insts)
  }

  ghost predicate TranslatedFrom(cm: CodeMemory, rv64: bool, pa: Word, pc: Word, size: seq<Decoded> -> nat, block: Block,
                                 insts: seq<Decoded>)
  {
    && IsBlock(rv64, insts) && |insts| <= MaxInsns
    && Holds(cm, rv64, BlockAddress(rv64, pc), pa, insts) && Complete(cm, rv64, BlockAddress(rv64, pc), pa, insts)
    && block == if insts == [] || size(insts) > CodeMax then None else Some(insts)
  }

  class Table {
    var gen: nat
    var used: nat
    var victim: nat
    const entries: array2<Entry>
    ghost var made: Made

    /** Live entries are blocks made since the last flush; the arena is not overrun. */
    ghost predicate Valid()
      reads this, entries
    {
      && entries.Length0 == Sets && entries.Length1 == Ways && used <= Arena
      && (forall s, w :: 0 <= s < Sets && 0 <= w < Ways ==> entries[s, w].gen <= gen)
      && forall s, w :: 0 <= s < Sets && 0 <= w < Ways && entries[s, w].gen == gen ==>
           var e := entries[s, w]; e.pa / 2 % Sets == s && (e.pa, e.va) in made && made[(e.pa, e.va)] == e.block
    }

    constructor ()
      ensures Valid() && made == map[] && fresh(entries)
    {
      gen, used, victim, made := 1, 0, 0, map[];
      entries := new Entry[Sets, Ways]((i, j) => Entry(0, 0, 0, None));
    }

    /** jit_flush: every entry is stale at once, and the arena is empty. */
    method Flush()
      requires Valid()
      modifies this
      ensures Valid() && made == map[] && used == 0 && victim == old(victim)
      ensures gen > old(gen) && forall s, w :: 0 <= s < Sets && 0 <= w < Ways ==> entries[s, w].gen < gen
    {
      gen := gen + 1;
      used := 0;
      made := map[];
    }

    predicate Matches(e: Entry, pa: Word, va: Word)
      reads this
    {
      e.gen == gen && e.pa == pa && e.va == va
    }

    /** The way holding the block of this address, if there is one. */
    method Find(s: nat, pa: Word, va: Word) returns (w: nat)
      requires Valid() && s < Sets
      ensures w <= Ways
      ensures w < Ways ==> Matches(entries[s, w], pa, va)
      ensures w == Ways ==> forall v :: 0 <= v < Ways ==> !Matches(entries[s, v], pa, va)
    {
      w := 0;
      while w < Ways
        invariant w <= Ways && forall v :: 0 <= v < w ==> !Matches(entries[s, v], pa, va)
      {
        if Matches(entries[s, w], pa, va) { return; }
        w := w + 1;
      }
    }

    /** A stale way, else the next in rotation. */
    method Claim(s: nat) returns (w: nat)
      requires Valid() && s < Sets
      modifies this`victim
      ensures Valid() && w < Ways
      ensures entries[s, w].gen == gen ==> forall v :: 0 <= v < Ways ==> entries[s, v].gen == gen
    {
      w := 0;
      while w < Ways
        invariant w <= Ways && forall v :: 0 <= v < w ==> entries[s, v].gen == gen
      {
        if entries[s, w].gen != gen { return; }
        w := w + 1;
      }
      w := victim % Ways;
      victim := victim + 1;
    }

    /** Enter a new translation; an arena too full for its code flushes everything else. */
    method Commit(s: nat, w: nat, pa: Word, va: Word, block: Block, len: nat)
      requires Valid() && s == pa / 2 % Sets && w < Ways && len <= CodeMax
      requires forall v :: 0 <= v < Ways ==> !Matches(entries[s, v], pa, va)
      modifies this, entries
      ensures Valid() && (made == old(made)[(pa, va) := block] || made == map[(pa, va) := block])
    {
      if block.Some? && used + len > Arena { Flush(); }
      entries[s, w] := Entry(gen, pa, va, block);
      made := made[(pa, va) := block];
      if block.Some? { used := used + len; }
    }

    /** The table part of jit_run: a hit is exactly the block made for this physical address and pc
        since the last flush; a miss translates what memory holds now. */
    method BlockAt(cm: CodeMemory, rv64: bool, pa: Word, pc: Word, size: seq<Decoded> -> nat) returns (block: Block)
      requires Valid() && DecodesWell(cm)
      modifies this, entries
      ensures Valid() && (pa, pc) in made && made[(pa, pc)] == block
      ensures if made == old(made) then (pa, pc) in old(made)
        else Translated(cm, rv64, pa, pc, size, block) && (made == old(made)[(pa, pc) := block] || made == map[(pa, pc) := block])
    {
      hide DecodesWell, IsBlock, Holds, Complete;
      var s := pa / 2 % Sets;
      var w := Find(s, pa, pc);
      if w < Ways { return entries[s, w].block; }
      w := Claim(s);
      var insts := Translate(cm, rv64, BlockAddress(rv64, pc), pa);
      var len := size(insts);
      block := if insts == [] || len > CodeMax then None else Some(insts);
      assert TranslatedFrom(cm, rv64, pa, pc, size, block, insts);
      Commit(s, w, pa, pc, block, if len > CodeMax then 0 else len);
    }
  }

  // ---- The table against memory -----------------------------------------------------------

  /** Every block made since the last flush is true of memory wherever it has not been stored to. */
  ghost predicate TableFresh<W>(sys: Sys<W>, w: W, rv64: bool, made: Made, dirty: iset<nat>) {
    forall k :: k in made ==> EntryOk(sys, w, rv64, k.0, k.1, made[k], dirty)
  }

  lemma TranslatedPlaced<W>(sys: Sys<W>, w: W, rv64: bool, va0: Word, pa: Word, insts: seq<Decoded>)
    requires IsBlock(rv64, insts) && |insts| <= MaxInsns && Holds(CodeOf(sys, w), rv64, va0, pa, insts)
    ensures Placed(sys, va0, pa, insts)
  {
    hide IsBlock, Holds, Offset, At;
    forall j | 0 <= j < |insts|
      ensures va0 % 4096 + Offset(insts, j) + insts[j].ilen <= 4096 && !sys.env.isDevice(pa + Offset(insts, j))
    {
      HoldsHere(CodeOf(sys, w), rv64, va0, pa, insts, j);
      OffsetBound(rv64, insts, j);
      AtInPage(CodeOf(sys, w), rv64, va0, pa, Offset(insts, j));
      AtPlain(sys, w, rv64, va0, pa, Offset(insts, j));
    }
  }

  lemma AtPlain<W>(sys: Sys<W>, w: W, rv64: bool, va0: Word, pa: Word, off: nat)
    requires At(CodeOf(sys, w), rv64, va0, pa, off).Some?
    ensures !sys.env.isDevice(pa + off)
  {
    hide PageEnd;
  }

  /** What has just been translated is good, whatever was stored to before. */
  lemma TranslatedOk<W>(sys: Sys<W>, w: W, rv64: bool, pa: Word, pc: Word, size: seq<Decoded> -> nat, block: Block, dirty: iset<nat>)
    requires Translated(CodeOf(sys, w), rv64, pa, pc, size, block)
    ensures EntryOk(sys, w, rv64, pa, pc, block, dirty)
  {
    hide IsBlock, Holds, Complete, Placed, BlockFresh;
    var insts :| TranslatedFrom(CodeOf(sys, w), rv64, pa, pc, size, block, insts);
    TranslatedFresh(sys, w, rv64, BlockAddress(rv64, pc), pa, insts, dirty);
    TranslatedPlaced(sys, w, rv64, BlockAddress(rv64, pc), pa, insts);
  }

  /** A step that is not a FENCE.I keeps the table true of memory. */
  lemma TableStep<W(!new)>(sys: Sys<W>, x: Machine<W>, made: Made, dirty: iset<nat>)
    requires Laws(sys) && TableFresh(sys, x.core.world, x.core.rv64, made, dirty) && !FencesNext(sys, x) && !Halted(x)
    ensures TableFresh(sys, Step(sys, Tick(x)).core.world, x.core.rv64, made, DirtyNext(sys, x, dirty))
  {
    hide Laws, EntryOk, ExecStep, Fences, Sync, Taken, Writes, EnterTrap;
    match PreStep(Tick(x)) {
      case Consumed(m) => ConsumedWorld(x);
      case Proceed(s) =>
        TickKeepsCore(x);
        StepChanges(sys, s);
        var w' := ExecStep(sys, s).core.world;
        forall k | k in made ensures EntryOk(sys, w', x.core.rv64, k.0, k.1, made[k], dirty + Writes(sys, s)) {
          EntryKept(sys, s.core.world, w', x.core.rv64, k.0, k.1, made[k], dirty, Writes(sys, s));
        }
    }
  }

  lemma TickKeepsCore<W>(x: Machine<W>)
    requires PreStep(Tick(x)).Proceed?
    ensures PreStep(Tick(x)).m.core == x.core
  {
    hide Taken;
  }

  lemma ConsumedWorld<W>(x: Machine<W>)
    requires PreStep(Tick(x)).Consumed?
    ensures PreStep(Tick(x)).m.core.world == x.core.world
  {
    hide Taken;
  }

  lemma EntryKept<W>(sys: Sys<W>, w: W, w': W, rv64: bool, pa: Word, pc: Word, block: Block, dirty: iset<nat>, more: iset<nat>)
    requires EntryOk(sys, w, rv64, pa, pc, block, dirty) && ChangesOnly(sys, w, w', more)
    ensures EntryOk(sys, w', rv64, pa, pc, block, dirty + more)
  {
    hide IsBlock, Placed, BlockFresh, ChangesOnly;
    if block.Some? { FreshKept(sys, w, w', rv64, BlockAddress(rv64, pc), pa, block.value, dirty, more); }
  }
}
