/** Collecting a block (jit.c: translate): instructions from one page of plain RAM, at most 128 of
    them, up to and including a control transfer or up to the first untranslatable one. */
module JitTranslate {
  import opened Basics
  import opened Words
  import opened RvWords
  import opened Rv
  import opened Jit
  import opened Machine
  import opened JitBlock

  /** Guest code as the translator reads it: `half` refuses anything that is not RAM, `expand` is
      None on an illegal compressed encoding. */
  datatype CodeMemory = CodeMemory(half: nat -> Option<U16>, expand: (nat, bool) -> Option<Inst>, decode: nat -> Inst)

  /** The code a system holds in a given world. */
  function CodeOf<W>(sys: Sys<W>, w: W): CodeMemory {
    CodeMemory((h: nat) => if sys.env.isDevice(h) then None else sys.half(w, h), sys.expand, sys.decode)
  }

  ghost predicate DecodesWell(cm: CodeMemory) {
    && (forall x, rv64 :: cm.expand(x, rv64).Some? ==> WellFormed(cm.expand(x, rv64).value))
    && (forall x :: WellFormed(cm.decode(x)))
  }

  const MaxInsns: nat := 128

  /** One past the page, in 64-bit arithmetic: zero for the topmost page. */
  function PageEnd(va: Word): Word { (va - va % 4096 + 4096) % W64 }

  /** The instruction at offset `off` of the block, if it can be read without leaving the page. */
  function At(cm: CodeMemory, rv64: bool, va0: Word, pa: nat, off: nat): Option<Decoded> {
    var va := (va0 + off) % W64;
    if (va + 2) % W64 > PageEnd(va0) then None
    else
      match cm.half(pa + off)
      case None => None
      case Some(lo) =>
        if lo % 4 != 3 then
          match cm.expand(lo, rv64)
          case None => None
          case Some(i) => Some(Decoded(i, 2))
        else if (va + 4) % W64 > PageEnd(va0) then None
        else
          match cm.half(pa + off + 2)
          case None => None
          case Some(hi) => Some(Decoded(cm.decode(lo + 0x1_0000 * hi), 4))
  }

  function Offset(insts: seq<Decoded>, j: nat): nat
    requires j <= |insts|
  {
    if j == 0 then 0 else Offset(insts, j - 1) + insts[j - 1].ilen
  }

  lemma {:induction false} OffsetPrefix(a: seq<Decoded>, b: seq<Decoded>, j: nat)
    requires j <= |a|
    ensures Offset(a + b, j) == Offset(a, j)
  {
    if j > 0 { OffsetPrefix(a, b, j - 1); }
  }

  /** The instructions really are those at their addresses. */
  ghost predicate Holds(cm: CodeMemory, rv64: bool, va0: Word, pa: nat, insts: seq<Decoded>) {
    forall j :: 0 <= j < |insts| ==> At(cm, rv64, va0, pa, Offset(insts, j)) == Some(insts[j])
  }

  ghost predicate Straight(rv64: bool, insts: seq<Decoded>) {
    IsBlock(rv64, insts) && (insts != [] ==> KindOf(rv64, insts[|insts| - 1].inst) == Cont)
  }

  /** The block could not be longer. */
  ghost predicate Complete(cm: CodeMemory, rv64: bool, va0: Word, pa: nat, insts: seq<Decoded>) {
    || |insts| == MaxInsns
    || (insts != [] && KindOf(rv64, insts[|insts| - 1].inst) == Term)
    || var d := At(cm, rv64, va0, pa, Offset(insts, |insts|)); d.None? || KindOf(rv64, d.value.inst) == Stop
  }

  lemma HoldsAt(cm: CodeMemory, rv64: bool, va0: Word, pa: nat, insts: seq<Decoded>, d: Decoded, j: nat)
    requires Holds(cm, rv64, va0, pa, insts) && At(cm, rv64, va0, pa, Offset(insts, |insts|)) == Some(d) && j <= |insts|
    ensures At(cm, rv64, va0, pa, Offset(insts + [d], j)) == Some((insts + [d])[j])
  {
    hide At, Offset;
    OffsetPrefix(insts, [d], j);
    if j < |insts| { assert (insts + [d])[j] == insts[j]; }
  }

  lemma HoldsAppend(cm: CodeMemory, rv64: bool, va0: Word, pa: nat, insts: seq<Decoded>, d: Decoded)
    requires Holds(cm, rv64, va0, pa, insts) && At(cm, rv64, va0, pa, Offset(insts, |insts|)) == Some(d)
    ensures Holds(cm, rv64, va0, pa, insts + [d])
  {
    hide At, Offset;
    forall j | 0 <= j < |insts + [d]| ensures At(cm, rv64, va0, pa, Offset(insts + [d], j)) == Some((insts + [d])[j]) {
      HoldsAt(cm, rv64, va0, pa, insts, d, j);
    }
  }

  lemma OffsetAppend(insts: seq<Decoded>, d: Decoded)
    ensures Offset(insts + [d], |insts| + 1) == Offset(insts, |insts|) + d.ilen
  {
    OffsetPrefix(insts, [d], |insts|);
  }

  lemma BlockAppend(rv64: bool, insts: seq<Decoded>, d: Decoded)
    requires Straight(rv64, insts) && WellFormed(d.inst) && d.ilen in {2, 4} && KindOf(rv64, d.inst) != Stop
    ensures IsBlock(rv64, insts + [d])
    ensures KindOf(rv64, d.inst) == Cont ==> Straight(rv64, insts + [d])
  {
    hide WellFormed, KindOf;
    var more := insts + [d];
    forall j | 0 <= j < |more|
      ensures WellFormed(more[j].inst) && more[j].ilen in {2, 4} && KindOf(rv64, more[j].inst) != Stop
      ensures j < |more| - 1 ==> KindOf(rv64, more[j].inst) == Cont
    {
      if j < |insts| { assert more[j] == insts[j]; } else { assert more[j] == d; }
    }
    assert more[|more| - 1] == d;
  }

  lemma AtWellFormed(cm: CodeMemory, rv64: bool, va0: Word, pa: nat, off: nat)
    requires DecodesWell(cm)
    ensures var d := At(cm, rv64, va0, pa, off); d.Some? ==> WellFormed(d.value.inst) && d.value.ilen in {2, 4}
  {
    hide WellFormed;
  }

  /** The translation loop.  What it returns is a block, holds what memory holds, and is as long as
      the page, the size limit and the first untranslatable instruction allow. */
  method Translate(cm: CodeMemory, rv64: bool, va0: Word, pa: nat) returns (insts: seq<Decoded>)
    requires DecodesWell(cm)
    ensures IsBlock(rv64, insts) && |insts| <= MaxInsns
    ensures Holds(cm, rv64, va0, pa, insts)
    ensures Complete(cm, rv64, va0, pa, insts)
  {
    hide At, DecodesWell, WellFormed, KindOf, Holds, Straight, IsBlock, Offset;
    insts := [];
    var off: nat := 0;
    EmptyBlock(cm, rv64, va0, pa);
    while |insts| < MaxInsns
      invariant Straight(rv64, insts) && |insts| <= MaxInsns
      invariant Holds(cm, rv64, va0, pa, insts) && off == Offset(insts, |insts|)
    {
      var next := At(cm, rv64, va0, pa, off);
      if next.None? { break; }
      var d := next.value;
      AtWellFormed(cm, rv64, va0, pa, off);
      var kind := KindOf(rv64, d.inst);
      if kind == Stop { break; }
      HoldsAppend(cm, rv64, va0, pa, insts, d);
      BlockAppend(rv64, insts, d);
      OffsetAppend(insts, d);
      insts := insts + [d];
      off := off + d.ilen;
      if kind == Term { return; }
    }
    StraightIsBlock(rv64, insts);
  }

  lemma EmptyBlock(cm: CodeMemory, rv64: bool, va0: Word, pa: nat)
    ensures Straight(rv64, []) && Holds(cm, rv64, va0, pa, []) && Offset([], 0) == 0
  {
  }

  lemma StraightIsBlock(rv64: bool, insts: seq<Decoded>)
    requires Straight(rv64, insts)
    ensures IsBlock(rv64, insts)
  {
  }

  /** These three properties leave no choice: two blocks for the same place are the same. */
  lemma {:induction false} BlockUnique(cm: CodeMemory, rv64: bool, va0: Word, pa: nat, a: seq<Decoded>, b: seq<Decoded>)
    requires IsBlock(rv64, a) && IsBlock(rv64, b) && |a| <= MaxInsns && |b| <= MaxInsns
    requires Holds(cm, rv64, va0, pa, a) && Complete(cm, rv64, va0, pa, a)
    requires Holds(cm, rv64, va0, pa, b) && Complete(cm, rv64, va0, pa, b)
    ensures a == b
  {
    hide At, KindOf, WellFormed, Complete, Holds;
    var n := if |a| <= |b| then |a| else |b|;
    SamePrefix(cm, rv64, va0, pa, a, b, n);
    NotLonger(cm, rv64, va0, pa, a, b);
    NotLonger(cm, rv64, va0, pa, b, a);
  }

  lemma {:induction false} SamePrefix(cm: CodeMemory, rv64: bool, va0: Word, pa: nat, a: seq<Decoded>, b: seq<Decoded>, n: nat)
    requires Holds(cm, rv64, va0, pa, a) && Holds(cm, rv64, va0, pa, b) && n <= |a| && n <= |b|
    ensures Offset(a, n) == Offset(b, n) && forall j :: 0 <= j < n ==> a[j] == b[j]
  {
    hide At, Holds;
    if n > 0 {
      SamePrefix(cm, rv64, va0, pa, a, b, n - 1);
      HoldsHere(cm, rv64, va0, pa, a, n - 1);
      HoldsHere(cm, rv64, va0, pa, b, n - 1);
    }
  }

  lemma HoldsHere(cm: CodeMemory, rv64: bool, va0: Word, pa: nat, a: seq<Decoded>, j: nat)
    requires Holds(cm, rv64, va0, pa, a) && j < |a|
    ensures At(cm, rv64, va0, pa, Offset(a, j)) == Some(a[j])
  {
    hide At, Offset;
  }

  lemma NotLonger(cm: CodeMemory, rv64: bool, va0: Word, pa: nat, a: seq<Decoded>, b: seq<Decoded>)
    requires IsBlock(rv64, b) && |b| <= MaxInsns
    requires Holds(cm, rv64, va0, pa, a) && Complete(cm, rv64, va0, pa, a) && Holds(cm, rv64, va0, pa, b)
    ensures |b| <= |a|
  {
    hide At, KindOf, WellFormed, Holds, Offset;
    if |a| < |b| {
      HoldsHere(cm, rv64, va0, pa, b, |a|);
      SamePrefix(cm, rv64, va0, pa, a, b, |a|);
    }
  }
}
