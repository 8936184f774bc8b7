/** Reverse execution in the debugger stub (gdbstub.c): a ring of checkpoints and deterministic
    replay.  The machine is any deterministic step function; the debugger writes nothing. */
module GdbReverse {
  datatype Target<!S> = Target(step: S -> S, halted: S -> bool, pc: S -> nat)
  datatype Checkpoint<S> = Checkpoint(step: nat, snap: S)

  const MaxCheckpoints: nat := 33
  const Interval: nat := 4096
  const P64: nat := 0x1_0000_0000_0000_0000

  /** The t-th state of the history. */
  function At<S>(m: Target<S>, start: S, t: nat): S {
    if t == 0 then start else m.step(At(m, start, t - 1))
  }

  /** Replaying from any point of the history stays on it. */
  lemma {:induction false} AtCompose<S>(m: Target<S>, start: S, a: nat, b: nat)
    ensures At(m, At(m, start, a), b) == At(m, start, a + b)
    decreases b
  {
    if b > 0 { AtCompose(m, start, a, b - 1); }
  }

  /** The machine runs at least to step t. */
  ghost predicate Reaches<S>(m: Target<S>, start: S, t: nat) {
    forall k :: 0 <= k < t ==> !m.halted(At(m, start, k))
  }

  /** Every checkpoint is the state of its step; the first is the start. */
  ghost predicate Faithful<S>(m: Target<S>, start: S, cp: seq<Checkpoint<S>>, reached: nat) {
    && 1 <= |cp| <= MaxCheckpoints && cp[0] == Checkpoint(0, start)
    && forall i :: 0 <= i < |cp| ==> cp[i].step <= reached && cp[i].snap == At(m, start, cp[i].step)
  }

  /** The slot holds the oldest checkpoint other than the first. */
  predicate Evicts<S>(cp: seq<Checkpoint<S>>, slot: nat) {
    1 <= slot < |cp| && forall i :: 1 <= i < |cp| ==> cp[slot].step <= cp[i].step
  }

  /** No breakpoint at steps from lo up to hi. */
  ghost predicate NoBreak<S>(m: Target<S>, start: S, bp: set<nat>, lo: nat, hi: nat) {
    forall k :: lo <= k < hi ==> m.pc(At(m, start, k)) !in bp
  }

  /** t is the last step before cur whose pc is a breakpoint. */
  ghost predicate LastBreak<S>(m: Target<S>, start: S, bp: set<nat>, cur: nat, t: nat) {
    t < cur && m.pc(At(m, start, t)) in bp && NoBreak(m, start, bp, t + 1, cur)
  }

  /** What a scan of the steps before cur reports. */
  ghost predicate Scanned<S>(m: Target<S>, start: S, bp: set<nat>, cur: nat, found: bool, hit: nat) {
    if found then LastBreak(m, start, bp, cur, hit) else hit == 0 && NoBreak(m, start, bp, 0, cur)
  }

  lemma ScanStep<S>(m: Target<S>, start: S, bp: set<nat>, cur: nat, found: bool, hit: nat)
    requires Scanned(m, start, bp, cur, found, hit)
    ensures if m.pc(At(m, start, cur)) in bp then Scanned(m, start, bp, cur + 1, true, cur)
            else Scanned(m, start, bp, cur + 1, found, hit)
  {
    hide At;
  }

  lemma NothingScanned<S>(m: Target<S>, start: S, bp: set<nat>)
    ensures Scanned(m, start, bp, 0, false, 0)
  {
  }

  /** What the 64-bit distance test of stub_step decides: a checkpoint is due after the interval, and
      also whenever the current step lies before the last checkpoint. */
  lemma DueExactly(now: nat, last: nat)
    requires now < P64 - Interval && last < P64 - Interval
    ensures (now - last) % P64 >= Interval <==> now < last || now >= last + Interval
  {
    if now < last { assert (now - last) % P64 == now - last + P64; }
  }

  /** One step after going back from the checkpoint at 4096 to the start, far inside the interval. */
  lemma DueBehind()
    ensures (1 - 4096) % P64 >= Interval && 1 < 4096 + Interval
  {
    DueExactly(1, 4096);
  }

  class GdbStub<S> {
    const m: Target<S>
    var q: S
    var nsteps: nat
    var cp: seq<Checkpoint<S>>
    var lastCp: nat
    var reverseUsed: bool
    var bp: set<nat>
    ghost const start: S
    ghost var reached: nat

    /** The machine is at step `nsteps` of the history. */
    ghost predicate Here()
      reads this
    {
      nsteps <= reached && Reaches(m, start, reached) && q == At(m, start, nsteps)
    }

    ghost predicate Valid()
      reads this
    {
      Here() && Faithful(m, start, cp, reached)
    }

    /** Attaching takes the step-0 checkpoint. */
    constructor (m: Target<S>, q: S)
      ensures Valid() && start == q && nsteps == 0 && reached == 0 && bp == {} && this.m == m
    {
      this.m, this.q, start := m, q, q;
      nsteps, reached, lastCp, reverseUsed, bp := 0, 0, 0, false, {};
      cp := [Checkpoint(0, q)];
    }

    /** raw_step; the result says whether the machine still runs. */
    method RawStep() returns (runs: bool)
      requires Here()
      modifies this`q, this`nsteps, this`reached
      ensures Here() && reached >= old(reached)
      ensures if m.halted(old(q)) then nsteps == old(nsteps) && !runs
              else nsteps == old(nsteps) + 1 && runs == !m.halted(q)
      ensures reached == if nsteps > old(reached) then nsteps else old(reached)
    {
      if m.halted(q) { return false; }
      q := m.step(q);
      nsteps := nsteps + 1;
      if nsteps > reached { reached := nsteps; }
      runs := !m.halted(q);
    }

    /** cp_add: the step-0 checkpoint is never evicted. */
    method AddCheckpoint()
      requires Valid()
      modifies this`cp, this`lastCp
      ensures Valid() && lastCp == nsteps && Checkpoint(nsteps, q) in cp
      ensures |old(cp)| < MaxCheckpoints ==> cp == old(cp) + [Checkpoint(nsteps, q)]
      ensures |old(cp)| == MaxCheckpoints ==> exists slot: nat :: Evicts(old(cp), slot) && cp == old(cp)[slot := Checkpoint(nsteps, q)]
    {
      var here := Checkpoint(nsteps, q);
      if |cp| < MaxCheckpoints {
        cp := cp + [here];
        assert cp[|cp| - 1] == here;
      } else {
        var slot, i := 1, 2;
        while i < |cp|
          invariant 2 <= i <= |cp| && 1 <= slot < |cp|
          invariant forall k :: 1 <= k < i ==> cp[slot].step <= cp[k].step
        {
          if cp[i].step < cp[slot].step { slot := i; }
          i := i + 1;
        }
        assert Evicts(cp, slot);
        cp := cp[slot := here];
        assert cp[slot] == here;
      }
      lastCp := nsteps;
    }

    /** stub_step: forward one instruction, with periodic checkpoints once reversing is in use.  The
        distance since the last checkpoint is taken in 64 bits, so going back makes it large. */
    method StubStep() returns (runs: bool)
      requires Valid()
      modifies this`q, this`nsteps, this`reached, this`cp, this`lastCp
      ensures Valid() && reached >= old(reached)
      ensures if m.halted(old(q)) then nsteps == old(nsteps) && !runs
              else nsteps == old(nsteps) + 1 && runs == !m.halted(q)
      ensures if reverseUsed && runs && (nsteps - old(lastCp)) % P64 >= Interval
              then Checkpoint(nsteps, q) in cp && lastCp == nsteps
              else cp == old(cp) && lastCp == old(lastCp)
    {
      runs := RawStep();
      if reverseUsed && runs && (nsteps - lastCp) % P64 >= Interval { AddCheckpoint(); }
    }

    /** The nearest checkpoint at or before a step. */
    method Nearest(target: nat) returns (best: nat)
      requires Valid()
      ensures best < |cp| && cp[best].step <= target
      ensures forall i :: 0 <= i < |cp| && cp[i].step <= target ==> cp[i].step <= cp[best].step
    {
      best := 0;
      var i := 1;
      while i < |cp|
        invariant 1 <= i <= |cp| && best < |cp| && cp[best].step <= target
        invariant forall k :: 0 <= k < i && cp[k].step <= target ==> cp[k].step <= cp[best].step
      {
        if cp[i].step <= target && cp[i].step > cp[best].step { best := i; }
        i := i + 1;
      }
    }

    /** goto_step: exactly the requested step of the history, whatever checkpoints there are. */
    method GotoStep(target: nat)
      requires Valid() && target <= reached
      modifies this`q, this`nsteps, this`reached
      ensures Valid() && nsteps == target && q == At(m, start, target) && reached == old(reached)
    {
      var best := Nearest(target);
      q := cp[best].snap;
      nsteps := cp[best].step;
      while nsteps < target
        invariant Valid() && nsteps <= target && reached == old(reached)
      {
        var runs := RawStep();
        if !runs { break; }
      }
    }

    /** Reverse single-step. */
    method ReverseStep()
      requires Valid()
      modifies this
      ensures Valid() && reverseUsed && reached == old(reached) && bp == old(bp)
      ensures nsteps == (if old(nsteps) > 0 then old(nsteps) - 1 else 0)
    {
      reverseUsed := true;
      if nsteps > 0 { GotoStep(nsteps - 1); }
    }

    /** Replay from the start, remembering the last breakpoint passed before step `cur`. */
    method Scan(cur: nat) returns (found: bool, hit: nat)
      requires Valid() && nsteps == 0 && cur <= reached
      modifies this`q, this`nsteps, this`reached
      ensures Valid() && reached == old(reached) && Scanned(m, start, bp, cur, found, hit)
    {
      hide At, Faithful, Scanned;
      found, hit := false, 0;
      assert Scanned(m, start, bp, 0, false, 0) by { NothingScanned(m, start, bp); }
      while nsteps < cur
        invariant Valid() && nsteps <= cur && reached == old(reached)
        invariant Scanned(m, start, bp, nsteps, found, hit)
      {
        ScanStep(m, start, bp, nsteps, found, hit);
        if m.pc(q) in bp { hit, found := nsteps, true; }
        var runs := RawStep();
        if !runs { break; }
      }
    }

    /** Reverse continue: the most recent breakpoint strictly before here, else the start. */
    method ReverseContinue()
      requires Valid()
      modifies this
      ensures Valid() && reached == old(reached) && bp == old(bp)
      ensures LastBreak(m, start, bp, old(nsteps), nsteps) || (nsteps == 0 && NoBreak(m, start, bp, 0, old(nsteps)))
    {
      hide At, Faithful;
      reverseUsed := true;
      var cur := nsteps;
      if cur == 0 { return; }
      GotoStep(0);
      var found, hit := Scan(cur);
      GotoStep(if found then hit else 0);
    }

    /** Continue forward to a breakpoint or a halt, for at most `limit` instructions (a debugger may
        interrupt).  It stops at the first breakpoint after the instruction it starts with. */
    method Continue(limit: nat) returns (runs: bool)
      requires Valid()
      modifies this`q, this`nsteps, this`reached, this`cp, this`lastCp
      ensures Valid() && reached >= old(reached) && nsteps >= old(nsteps)
      ensures NoBreak(m, start, bp, old(nsteps) + 1, nsteps)
      ensures if runs then nsteps == old(nsteps) + 1 + limit || m.pc(q) in bp else m.halted(q)
    {
      hide At, Faithful;
      runs := StubStep();
      var guard := 0;
      while runs && guard < limit
        invariant Valid() && reached >= old(reached) && nsteps >= old(nsteps)
        invariant NoBreak(m, start, bp, old(nsteps) + 1, nsteps)
        invariant if runs then guard <= limit && nsteps == old(nsteps) + 1 + guard else m.halted(q)
      {
        if m.pc(q) in bp { return; }
        runs := StubStep();
        guard := guard + 1;
      }
    }
  }
}
