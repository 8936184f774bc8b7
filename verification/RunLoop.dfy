/** The machine's scheduler (quanta.c: quanta_step, quanta_run, machine_poll_halt), for any harts:
    a step of one hart may change the shared platform and start or stop its siblings. */
module RunLoop {
  import opened Basics

  datatype Kind = Exit | Fault(kind: nat)

  /** Why a hart, or the machine, stopped, and the exit code that goes with it. */
  datatype Reason = Reason(kind: Kind, code: nat)

  datatype System<!S> = System(
    tick: S -> S,
    step: (S, nat) -> S,
    stopped: (S, nat) -> bool,
    reason: (S, nat) -> Reason,
    powerOff: S -> Option<nat>)

  /** The harts and platform, the scheduler cursor, and the machine-level halt state. */
  datatype Run<S> = Run(s: S, sched: nat, halted: bool, cause: Reason)

  /** The platform clock stops nobody. */
  ghost predicate TickHarmless<S(!new)>(sys: System<S>) {
    forall s, i :: sys.stopped(sys.tick(s), i) == sys.stopped(s, i)
  }

  ghost predicate SomeoneRuns<S>(sys: System<S>, n: nat, s: S) { exists i :: 0 <= i < n && !sys.stopped(s, i) }

  /** Unless the machine is halted, some hart is running. */
  ghost predicate Good<S>(sys: System<S>, n: nat, m: Run<S>) {
    m.sched < n && (!m.halted ==> SomeoneRuns(sys, n, m.s))
  }

  // ---- Polling ----------------------------------------------------------------------------

  predicate AllStopped<S>(sys: System<S>, n: nat, s: S) { forall i :: 0 <= i < n ==> sys.stopped(s, i) }

  /** The first hart that stopped for a reason other than a clean exit, else hart 0. */
  function Culprit<S>(sys: System<S>, n: nat, s: S, i: nat): nat
    requires i <= n
    decreases n - i
  {
    if i == n then 0 else if sys.reason(s, i).kind != Exit then i else Culprit(sys, n, s, i + 1)
  }

  function Poll<S>(sys: System<S>, n: nat, m: Run<S>): Run<S> {
    if sys.powerOff(m.s).Some? then m.(halted := true, cause := Reason(Exit, sys.powerOff(m.s).value))
    else if AllStopped(sys, n, m.s) then m.(halted := true, cause := sys.reason(m.s, Culprit(sys, n, m.s, 0)))
    else m
  }

  /** A fault is surfaced ahead of a clean exit: the reported reason is a clean exit only if every
      hart exited cleanly. */
  lemma {:induction false} FaultSurfaces<S>(sys: System<S>, n: nat, s: S, i: nat)
    requires i <= n && n > 0 && exists k :: i <= k < n && sys.reason(s, k).kind != Exit
    ensures sys.reason(s, Culprit(sys, n, s, i)).kind != Exit && i <= Culprit(sys, n, s, i) < n
    ensures forall k :: i <= k < Culprit(sys, n, s, i) ==> sys.reason(s, k).kind == Exit
    decreases n - i
  {
    if sys.reason(s, i).kind == Exit { FaultSurfaces(sys, n, s, i + 1); }
  }

  lemma {:induction false} CulpritIsHart<S>(sys: System<S>, n: nat, s: S, i: nat)
    requires i <= n && n > 0
    ensures Culprit(sys, n, s, i) < n
    ensures sys.reason(s, Culprit(sys, n, s, i)).kind == Exit ==> Culprit(sys, n, s, i) == 0
    decreases n - i
  {
    if i < n && sys.reason(s, i).kind == Exit { CulpritIsHart(sys, n, s, i + 1); }
  }

  /** What a poll reports: the power-off code, else reason and exit code of one and the same hart once
      all have stopped, and that hart is the boot hart exactly if nobody before it failed. */
  lemma PollReports<S>(sys: System<S>, n: nat, m: Run<S>)
    requires n > 0 && !m.halted
    ensures var p := Poll(sys, n, m);
      && (p.halted <==> sys.powerOff(m.s).Some? || AllStopped(sys, n, m.s))
      && (sys.powerOff(m.s).Some? ==> p.cause == Reason(Exit, sys.powerOff(m.s).value))
      && (sys.powerOff(m.s).None? && p.halted ==>
            exists i :: 0 <= i < n && p.cause == sys.reason(m.s, i) && forall k :: 0 <= k < n && k < i ==> sys.reason(m.s, k).kind == Exit)
      && (sys.powerOff(m.s).None? && p.halted && p.cause.kind == Exit ==>
            p.cause == sys.reason(m.s, 0) && forall k :: 0 <= k < n ==> sys.reason(m.s, k).kind == Exit)
  {
    CulpritIsHart(sys, n, m.s, 0);
    if exists k :: 0 <= k < n && sys.reason(m.s, k).kind != Exit {
      FaultSurfaces(sys, n, m.s, 0);
    } else {
      assert sys.reason(m.s, Culprit(sys, n, m.s, 0)).kind == Exit;
    }
  }

  // ---- One scheduler slot -----------------------------------------------------------------

  function Ticked<S>(sys: System<S>, m: Run<S>): S { if m.sched == 0 then sys.tick(m.s) else m.s }

  predicate Steps<S>(sys: System<S>, m: Run<S>) { !sys.stopped(Ticked(sys, m), m.sched) }

  function Next(n: nat, i: nat): nat { if i + 1 >= n then 0 else i + 1 }

  /** Tick at the start of a round, step the hart if it runs, move the cursor, poll. */
  function Slot<S>(sys: System<S>, n: nat, m: Run<S>): Run<S> {
    var s := Ticked(sys, m);
    var s' := if Steps(sys, m) then sys.step(s, m.sched) else s;
    Poll(sys, n, m.(s := s', sched := Next(n, m.sched)))
  }

  lemma SlotGood<S(!new)>(sys: System<S>, n: nat, m: Run<S>)
    requires Good(sys, n, m) && !m.halted
    ensures Good(sys, n, Slot(sys, n, m))
  {
  }

  /** Slots until the next running hart, looking at most k ahead. */
  function Distance<S>(sys: System<S>, n: nat, s: S, i: nat, k: nat): nat
    decreases k
  {
    if k == 0 || !sys.stopped(s, i) then 0 else 1 + Distance(sys, n, s, Next(n, i), k - 1)
  }

  lemma {:induction false} DistanceFrame<S>(sys: System<S>, n: nat, s: S, t: S, i: nat, k: nat)
    requires forall j :: sys.stopped(s, j) == sys.stopped(t, j)
    ensures Distance(sys, n, s, i, k) == Distance(sys, n, t, i, k)
    decreases k
  {
    if k > 0 { DistanceFrame(sys, n, s, t, Next(n, i), k - 1); }
  }

  /** Looking further ahead than a running hart does not change the distance. */
  lemma {:induction false} DistanceEnough<S>(sys: System<S>, n: nat, s: S, i: nat, r: nat, k: nat)
    requires i < n && r < n && !sys.stopped(s, r)
    requires k >= (if r >= i then r - i else r + n - i)
    ensures Distance(sys, n, s, i, k) == Distance(sys, n, s, i, k + 1)
    decreases k
  {
    if k > 0 && sys.stopped(s, i) { DistanceEnough(sys, n, s, Next(n, i), r, k - 1); }
  }

  function Wait<S>(sys: System<S>, n: nat, m: Run<S>): nat { Distance(sys, n, m.s, m.sched, n) }

  /** An idle slot brings the next running hart closer. */
  lemma IdleSlot<S(!new)>(sys: System<S>, n: nat, m: Run<S>)
    requires Good(sys, n, m) && !m.halted && !Steps(sys, m) && TickHarmless(sys)
    ensures Wait(sys, n, Slot(sys, n, m)) < Wait(sys, n, m)
  {
    var r :| 0 <= r < n && !sys.stopped(m.s, r);
    var t := Ticked(sys, m);
    assert forall j :: sys.stopped(t, j) == sys.stopped(m.s, j);
    var next := Next(n, m.sched);
    assert Slot(sys, n, m).s == t && Slot(sys, n, m).sched == next;
    DistanceFrame(sys, n, m.s, t, next, n);
    DistanceEnough(sys, n, m.s, next, r, n - 1);
  }

  // ---- The run loop -----------------------------------------------------------------------

  const DefaultMaxSteps: nat := 100_000_000

  /** Run until `cap` hart-instructions have executed or the machine halts. */
  function RunFor<S(!new)>(sys: System<S>, n: nat, m: Run<S>, cap: nat): (Run<S>, nat)
    requires Good(sys, n, m) && TickHarmless(sys)
    decreases cap, Wait(sys, n, m)
  {
    if m.halted || cap == 0 then (m, 0)
    else
      SlotGood(sys, n, m);
      var m' := Slot(sys, n, m);
      if Steps(sys, m) then
        var (last, k) := RunFor(sys, n, m', cap - 1);
        (last, k + 1)
      else
        IdleSlot(sys, n, m);
        RunFor(sys, n, m', cap)
  }

  lemma {:induction false} RunForBounded<S(!new)>(sys: System<S>, n: nat, m: Run<S>, cap: nat)
    requires Good(sys, n, m) && TickHarmless(sys)
    ensures var (last, k) := RunFor(sys, n, m, cap);
      k <= cap && (k == cap || last.halted) && Good(sys, n, last)
    decreases cap, Wait(sys, n, m)
  {
    hide Slot, Good, TickHarmless, Wait, Steps;
    if !(m.halted || cap == 0) {
      SlotGood(sys, n, m);
      if Steps(sys, m) {
        RunForBounded(sys, n, Slot(sys, n, m), cap - 1);
      } else {
        IdleSlot(sys, n, m);
        RunForBounded(sys, n, Slot(sys, n, m), cap);
      }
    }
  }

  /** Running a steps and then b is running a + b. */
  lemma {:induction false} RunForSplits<S(!new)>(sys: System<S>, n: nat, m: Run<S>, a: nat, b: nat)
    requires Good(sys, n, m) && TickHarmless(sys)
    ensures var (m1, k1) := RunFor(sys, n, m, a);
      Good(sys, n, m1) &&
      var (m2, k2) := RunFor(sys, n, m1, b);
      RunFor(sys, n, m, a + b) == (m2, k1 + k2)
    decreases a, Wait(sys, n, m)
  {
    hide Slot, Good, TickHarmless, Wait, Steps;
    RunForBounded(sys, n, m, a);
    if m.halted {
      assert RunFor(sys, n, m, b) == (m, 0);
    } else if a > 0 {
      SlotGood(sys, n, m);
      if Steps(sys, m) {
        RunForSplits(sys, n, Slot(sys, n, m), a - 1, b);
        assert a + b - 1 == a - 1 + b;
      } else {
        IdleSlot(sys, n, m);
        RunForSplits(sys, n, Slot(sys, n, m), a, b);
      }
    }
  }

  // ---- The machine, updated in place ------------------------------------------------------

  class Quanta<S(!new)> {
    const sys: System<S>
    const n: nat
    var s: S
    var sched: nat
    var halted: bool
    var cause: Reason

    ghost function State(): Run<S>
      reads this
    {
      Run(s, sched, halted, cause)
    }

    ghost predicate Valid()
      reads this
    {
      Good(sys, n, State()) && TickHarmless(sys)
    }

    constructor (sys: System<S>, n: nat, s: S)
      requires TickHarmless(sys) && n > 0 && SomeoneRuns(sys, n, s)
      ensures Valid() && this.sys == sys && this.n == n && State() == Run(s, 0, false, Reason(Exit, 0))
    {
      this.sys, this.n, this.s := sys, n, s;
      sched, halted, cause := 0, false, Reason(Exit, 0);
    }

    /** machine_poll_halt. */
    method PollHalt()
      requires sched < n
      modifies this`halted, this`cause
      ensures State() == Poll(sys, n, old(State()))
    {
      var off := sys.powerOff(s);
      if off.Some? {
        halted, cause := true, Reason(Exit, off.value);
        return;
      }
      var abnormal, i := n, 0;
      while i < n
        invariant 0 <= i <= n && forall k :: 0 <= k < i ==> sys.stopped(s, k)
        invariant abnormal <= n && (abnormal == n ==> Culprit(sys, n, s, 0) == Culprit(sys, n, s, i))
        invariant abnormal < n ==> Culprit(sys, n, s, 0) == abnormal
      {
        if !sys.stopped(s, i) {
          assert !AllStopped(sys, n, s);
          return;
        }
        if sys.reason(s, i).kind != Exit && abnormal == n { abnormal := i; }
        i := i + 1;
      }
      halted := true;
      cause := sys.reason(s, if abnormal < n then abnormal else 0);
    }

    /** quanta_step. */
    method Step()
      requires Valid()
      modifies this
      ensures Valid() && State() == if old(halted) then old(State()) else Slot(sys, n, old(State()))
    {
      if halted { return; }
      SlotGood(sys, n, State());
      if sched == 0 { s := sys.tick(s); }
      if !sys.stopped(s, sched) { s := sys.step(s, sched); }
      sched := if sched + 1 >= n then 0 else sched + 1;
      PollHalt();
    }

    /** The interpreter branch of quanta_run; a limit of zero stands for the default.  It always
        returns, having executed at most the limit, and fewer only if the machine halted. */
    method RunSteps(maxSteps: nat) returns (steps: nat)
      requires Valid()
      modifies this
      ensures Valid()
      ensures var cap := if maxSteps > 0 then maxSteps else DefaultMaxSteps;
        (State(), steps) == RunFor(sys, n, old(State()), cap) && steps <= cap && (steps == cap || halted)
    {
      hide Slot, Good, TickHarmless, Steps, Wait;
      var cap := if maxSteps > 0 then maxSteps else DefaultMaxSteps;
      steps := 0;
      RunForBounded(sys, n, State(), cap);
      while !halted && steps < cap
        invariant Valid() && steps <= cap
        invariant var (last, k) := RunFor(sys, n, State(), cap - steps);
          RunFor(sys, n, old(State()), cap) == (last, steps + k)
        decreases cap - steps, Wait(sys, n, State())
      {
        ghost var m := State();
        SlotGood(sys, n, m);
        assert Steps(sys, m) == !sys.stopped(if sched == 0 then sys.tick(s) else s, sched) by { StepsIs(sys, m); }
        var ran := !sys.stopped(if sched == 0 then sys.tick(s) else s, sched);
        if !ran { IdleSlot(sys, n, m); }
        Step();
        if ran { steps := steps + 1; }
      }
      assert RunFor(sys, n, State(), cap - steps) == (State(), 0);
    }
  }

  lemma StepsIs<S>(sys: System<S>, m: Run<S>)
    ensures Steps(sys, m) == !sys.stopped(if m.sched == 0 then sys.tick(m.s) else m.s, m.sched)
  {
  }
}
