/** Basic blocks: what `translate` collects, the host code it emits for them, and the proof that
    running that code is executing the instructions one after another. */
module JitBlock {
  import opened RvWords
  import opened Rv
  import opened RvFrame
  import opened Jit
  import opened JitInsn
  import opened JitStep

  datatype Decoded = Decoded(inst: Inst, ilen: Word)

  /** Hand the next pc to the dispatcher. */
  function Tail(rv64: bool, va: nat, k: nat): Code {
    Do(Imm(Rax, SextX(rv64, va)), Do(StPc(Rax), Do(Retires(k), Do(RetSteps(k), Exit))))
  }

  /** The code for the instructions from the k-th on, the first of them at `va`. */
  function Compile(rv64: bool, insts: seq<Decoded>, va: nat, k: nat): Code {
    if insts == [] then Tail(rv64, va, k)
    else
      var d := insts[0];
      if KindOf(rv64, d.inst) == Term then EmitTerm(rv64, d.inst, va, d.ilen, k)
      else EmitCont(rv64, d.inst, va, k, Compile(rv64, insts[1..], va + d.ilen, k + 1))
  }

  /** Straight-line instructions, at most the last of them a control transfer. */
  predicate IsBlock(rv64: bool, insts: seq<Decoded>) {
    forall j :: 0 <= j < |insts| ==>
      && WellFormed(insts[j].inst) && insts[j].ilen in {2, 4}
      && KindOf(rv64, insts[j].inst) != Stop
      && (j < |insts| - 1 ==> KindOf(rv64, insts[j].inst) == Cont)
  }

  /** Execute the instructions in turn, stopping after a trap and before a device access; the
      second component counts the steps consumed. */
  function BlockExec<W>(env: Env<W>, c: Core<W>, insts: seq<Decoded>): (Core<W>, nat)
    decreases |insts|
  {
    if insts == [] then (c, 0)
    else
      match ExecOne(env, c, insts[0].inst, insts[0].ilen)
      case Retired(c') =>
        if KindOf(c.rv64, insts[0].inst) == Term then (c', 1)
        else var (d, n) := BlockExec(env, c', insts[1..]); (d, n + 1)
      case Trapped(c') => (c', 1)
      case Device => (c.(world := Probed(env, c, insts[0].inst)), 0)
      case Other => (c, 0)
  }

  // ---- The block theorem ------------------------------------------------------------------

  lemma TailRuns<W>(env: Env<W>, h: Host<W>, va: nat, k: nat)
    ensures var r := Run(env, Tail(h.core.rv64, va, k), h); r.core == Seen(h.core, va, k) && r.ret == k
  {
    hide SextX;
    var pc := SextX(h.core.rv64, va);
    var h2 := h.(rax := pc, core := h.core.(pc := pc));
    assert Perform(env, StPc(Rax), Perform(env, Imm(Rax, pc), h)) == h2;
    assert Run(env, Tail(h.core.rv64, va, k), h) == Run(env, Do(Retires(k), Do(RetSteps(k), Exit)), h2);
    TwoOpsExit(env, Retires(k), RetSteps(k), h2);
  }

  ghost predicate BlockAgrees<W>(env: Env<W>, insts: seq<Decoded>, va: nat, k: nat, h: Host<W>) {
    var r := Run(env, Compile(h.core.rv64, insts, va, k), h);
    var (c, n) := BlockExec(env, Seen(h.core, va, k), insts);
    r.core == c && r.ret == k + n
  }

  lemma BlockHead(rv64: bool, insts: seq<Decoded>)
    requires IsBlock(rv64, insts) && insts != []
    ensures WellFormed(insts[0].inst) && insts[0].ilen % 2 == 0 && IsBlock(rv64, insts[1..])
    ensures KindOf(rv64, insts[0].inst) == Cont || KindOf(rv64, insts[0].inst) == Term
  {
  }

  /** Running a block's host code executes its instructions: same registers, memory, CSRs, pc and
      retired count at each of the exits, and the return value is the number of steps consumed. */
  lemma {:induction false} BlockCorrect<W(!new)>(env: Env<W>, insts: seq<Decoded>, va: nat, k: nat, h: Host<W>)
    requires IsBlock(h.core.rv64, insts) && va % 2 == 0 && RegsOk(h.core.rv64, h.core.regs) && Idempotent(env)
    ensures BlockAgrees(env, insts, va, k, h)
    decreases |insts|
  {
    hide Run, ExecOne, SextX, RegsOk, Idempotent, EmitTerm, EmitCont, IsBlock, WellFormed, KindOf, StepAgrees, Ends, BlockAgrees;
    if insts == [] {
      TailBlock(env, va, k, h);
    } else {
      var d := insts[0];
      BlockHead(h.core.rv64, insts);
      if KindOf(h.core.rv64, d.inst) == Term {
        TermAgrees(env, h, d.inst, va, d.ilen, k);
        TermBlock(env, insts, va, k, h);
      } else {
        var next := Compile(h.core.rv64, insts[1..], va + d.ilen, k + 1);
        var c := Seen(h.core, va, k);
        ContAgrees(env, next, h, d.inst, va, d.ilen, k);
        var o := ExecOne(env, c, d.inst, d.ilen);
        if o.Retired? {
          var h' := ContinueAt(env, next, h, d, va, k);
          ExecFrame(env, c, d.inst, d.ilen);
          BlockCorrect(env, insts[1..], va + d.ilen, k + 1, h');
          ContinueBlock(env, insts, va, k, h, h');
        } else {
          StopBlock(env, insts, va, k, h);
        }
      }
    }
  }

  lemma TailBlock<W>(env: Env<W>, va: nat, k: nat, h: Host<W>)
    ensures BlockAgrees(env, [], va, k, h)
  {
    hide Run, SextX, Tail;
    TailRuns(env, h, va, k);
  }

  lemma TermBlock<W(!new)>(env: Env<W>, insts: seq<Decoded>, va: nat, k: nat, h: Host<W>)
    requires insts != [] && KindOf(h.core.rv64, insts[0].inst) == Term
    requires var d := insts[0];
      Ends(env, EmitTerm(h.core.rv64, d.inst, va, d.ilen, k), h, k, ExecOne(env, Seen(h.core, va, k), d.inst, d.ilen))
    ensures BlockAgrees(env, insts, va, k, h)
  {
    hide Run, SextX, ExecOne, EmitTerm, EmitCont, KindOf;
  }

  /** Where the host stands after a retired instruction. */
  lemma ContinueAt<W(!new)>(env: Env<W>, next: Code, h: Host<W>, d: Decoded, va: nat, k: nat) returns (h': Host<W>)
    requires var o := ExecOne(env, Seen(h.core, va, k), d.inst, d.ilen);
      o.Retired? && StepAgrees(env, EmitCont(h.core.rv64, d.inst, va, k, next), next, h, d.inst, va, d.ilen, k, o)
    ensures Run(env, EmitCont(h.core.rv64, d.inst, va, k, next), h) == Run(env, next, h')
    ensures var o := ExecOne(env, Seen(h.core, va, k), d.inst, d.ilen);
      Seen(h'.core, va + d.ilen, k + 1) == o.core && h'.core.rv64 == o.core.rv64 && h'.core.regs == o.core.regs
  {
    hide Run, SextX, ExecOne, EmitCont;
    var o := ExecOne(env, Seen(h.core, va, k), d.inst, d.ilen);
    h' :| Run(env, EmitCont(h.core.rv64, d.inst, va, k, next), h) == Run(env, next, h') && Seen(h'.core, va + d.ilen, k + 1) == o.core;
  }

  lemma ContinueBlock<W(!new)>(env: Env<W>, insts: seq<Decoded>, va: nat, k: nat, h: Host<W>, h': Host<W>)
    requires insts != [] && KindOf(h.core.rv64, insts[0].inst) == Cont && h'.core.rv64 == h.core.rv64
    requires var d := insts[0];
      var next := Compile(h.core.rv64, insts[1..], va + d.ilen, k + 1);
      && Run(env, EmitCont(h.core.rv64, d.inst, va, k, next), h) == Run(env, next, h')
      && ExecOne(env, Seen(h.core, va, k), d.inst, d.ilen) == Retired(Seen(h'.core, va + d.ilen, k + 1))
      && BlockAgrees(env, insts[1..], va + d.ilen, k + 1, h')
    ensures BlockAgrees(env, insts, va, k, h)
  {
    hide Run, SextX, ExecOne, EmitTerm, EmitCont, KindOf;
  }

  lemma StopBlock<W(!new)>(env: Env<W>, insts: seq<Decoded>, va: nat, k: nat, h: Host<W>)
    requires insts != [] && KindOf(h.core.rv64, insts[0].inst) == Cont
    requires var d := insts[0];
      var next := Compile(h.core.rv64, insts[1..], va + d.ilen, k + 1);
      var o := ExecOne(env, Seen(h.core, va, k), d.inst, d.ilen);
      !o.Retired? && StepAgrees(env, EmitCont(h.core.rv64, d.inst, va, k, next), next, h, d.inst, va, d.ilen, k, o)
    ensures BlockAgrees(env, insts, va, k, h)
  {
    hide Run, SextX, ExecOne, EmitTerm, EmitCont, KindOf, Probed;
  }
}
