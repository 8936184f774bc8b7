/** Load-reserved/store-conditional between harts (cpu.c: break_reservation, exec_amo, exec_store).

    Memory is an array of 32-bit words.  A store of `width` bytes at `addr` gives new values to all
    the words it touches; which bytes of a word it changes does not matter here.  `loaded` is what
    a hart's last load-reserved returned. */
module LrSc {
  import opened Basics
  import R = RvWords

  datatype Hart = Hart(valid: bool, addr: nat, loaded: nat)
  datatype Smp = Smp(mem: seq<nat>, harts: seq<Hart>)

  function WordOf(addr: nat): nat { addr - addr % 4 }

  /** Void every hart's reservation of the word at this address. */
  function Break(harts: seq<Hart>, addr: nat): (r: seq<Hart>)
    ensures |r| == |harts|
  {
    seq(|harts|, i requires 0 <= i < |harts| =>
      if harts[i].valid && harts[i].addr == WordOf(addr) then harts[i].(valid := false) else harts[i])
  }

  predicate InRange(s: Smp, addr: nat) { addr % 4 == 0 && addr / 4 < |s.mem| }

  /** Words touched by a store. */
  function Touched(addr: nat, width: nat): nat
    requires width > 0
  {
    (addr % 4 + width + 3) / 4
  }

  function Overwrite(mem: seq<nat>, at: nat, values: seq<nat>): (r: seq<nat>)
    requires at + |values| <= |mem|
    ensures |r| == |mem|
  {
    mem[..at] + values + mem[at + |values|..]
  }

  datatype Event =
    | LoadReserved(h: nat, addr: nat)
    | StoreConditional(h: nat, addr: nat, value: nat)
    | Amo(h: nat, addr: nat, value: nat)
    | Store(h: nat, addr: nat, width: nat, values: seq<nat>)

  /** Does the store-conditional succeed? */
  predicate Succeeds(s: Smp, h: nat, addr: nat)
    requires h < |s.harts|
  {
    s.harts[h].valid && s.harts[h].addr == addr
  }

  /** One instruction of one hart.  A misaligned atomic, or an atomic outside memory, traps and changes
      nothing; a store outside memory traps after it has voided reservations. */
  function Step(s: Smp, e: Event): Smp {
    if e.h >= |s.harts| then s
    else
      match e
      case LoadReserved(h, a) =>
        if InRange(s, a) then s.(harts := s.harts[h := Hart(true, a, s.mem[a / 4])]) else s
      case StoreConditional(h, a, v) =>
        if a % 4 != 0 then s
        else if Succeeds(s, h, a) then
          if !InRange(s, a) then s
          else
            var harts := Break(s.harts, a);
            Smp(s.mem[a / 4 := v], harts[h := harts[h].(valid := false)])
        else s.(harts := s.harts[h := s.harts[h].(valid := false)])
      case Amo(h, a, v) => if InRange(s, a) then Smp(s.mem[a / 4 := v], Break(s.harts, a)) else s
      case Store(h, a, w, vs) =>
        if w == 0 || |vs| != Touched(a, w) then s
        else Smp(if a / 4 + |vs| <= |s.mem| then Overwrite(s.mem, a / 4, vs) else s.mem, Break(s.harts, a))
  }

  /** A valid reservation means the word is as it was when reserved. */
  predicate Reserved(s: Smp) {
    forall i :: 0 <= i < |s.harts| && s.harts[i].valid ==>
      InRange(s, s.harts[i].addr) && s.mem[s.harts[i].addr / 4] == s.harts[i].loaded
  }

  /** A store that stays within one aligned word. */
  predicate WithinWord(e: Event) { e.Store? && e.width > 0 ==> e.addr % 4 + e.width <= 4 }

  lemma StepKeepsReserved(s: Smp, e: Event)
    requires Reserved(s) && WithinWord(e)
    ensures Reserved(Step(s, e)) && |Step(s, e).harts| == |s.harts| && |Step(s, e).mem| == |s.mem|
  {
    if e.h < |s.harts| {
      match e {
        case LoadReserved(h, a) =>
        case StoreConditional(h, a, v) => if InRange(s, a) { WriteKeeps(s, a, v); }
        case Amo(h, a, v) => if InRange(s, a) { WriteKeeps(s, a, v); }
        case Store(h, a, w, vs) =>
          if w > 0 && |vs| == Touched(a, w) {
            if a / 4 + |vs| <= |s.mem| {
              OneWord(s.mem, a, w, vs);
              WriteKeeps(s, WordOf(a), vs[0]);
              assert Break(s.harts, WordOf(a)) == Break(s.harts, a);
            } else {
              assert Reserved(s.(harts := Break(s.harts, a)));
            }
          }
      }
    }
  }

  lemma WriteKeeps(s: Smp, a: nat, v: nat)
    requires Reserved(s) && InRange(s, a)
    ensures Reserved(Smp(s.mem[a / 4 := v], Break(s.harts, a)))
  {
  }

  lemma OneWord(mem: seq<nat>, a: nat, w: nat, vs: seq<nat>)
    requires w > 0 && a % 4 + w <= 4 && |vs| == Touched(a, w) && a / 4 + |vs| <= |mem|
    ensures |vs| == 1 && WordOf(a) / 4 == a / 4 && WordOf(a) % 4 == 0
    ensures Overwrite(mem, a / 4, vs) == mem[a / 4 := vs[0]]
  {
    assert vs == [vs[0]];
  }

  function Run(s: Smp, events: seq<Event>): Smp {
    if events == [] then s else Step(Run(s, events[..|events| - 1]), events[|events| - 1])
  }

  /** In every interleaving whose stores stay within words, every valid reservation protects its
      word. */
  lemma {:induction false} RunKeepsReserved(s: Smp, events: seq<Event>)
    requires Reserved(s) && forall i :: 0 <= i < |events| ==> WithinWord(events[i])
    ensures Reserved(Run(s, events)) && |Run(s, events).harts| == |s.harts| && |Run(s, events).mem| == |s.mem|
  {
    hide Reserved, Step;
    if events != [] {
      var n := |events| - 1;
      RunKeepsReserved(s, events[..n]);
      StepKeepsReserved(Run(s, events[..n]), events[n]);
    }
  }

  // ---- Which stores are safe --------------------------------------------------------------

  ghost predicate StoreSafe(addr: nat, width: nat) {
    forall s: Smp, h: nat, vs: seq<nat> :: Reserved(s) ==> Reserved(Step(s, Store(h, addr, width, vs)))
  }

  /** break_reservation voids the first word a store touches and no other.  A store therefore keeps
      the invariant in every state exactly when it stays within one aligned word: a misaligned or
      doubleword store does not. */
  lemma StoreSafeExactly(addr: nat, width: nat)
    requires width > 0
    ensures StoreSafe(addr, width) <==> addr % 4 + width <= 4
  {
    if addr % 4 + width <= 4 {
      forall s: Smp, h: nat, vs: seq<nat> | Reserved(s) ensures Reserved(Step(s, Store(h, addr, width, vs))) {
        StepKeepsReserved(s, Store(h, addr, width, vs));
      }
    } else {
      Straddle(addr, width);
    }
  }

  lemma Straddle(addr: nat, width: nat)
    requires addr % 4 + width > 4
    ensures !StoreSafe(addr, width)
  {
    var n := Touched(addr, width);
    var first := addr / 4;
    var s := Smp(seq(first + n, _ => 0), [Hart(true, 4 * (first + 1), 0)]);
    var vs := seq(n, _ => 1);
    assert Reserved(s);
    var t := Step(s, Store(0, addr, width, vs));
    assert t.harts[0] == s.harts[0];
    assert t.mem[first + 1] == 1;
    assert !Reserved(t);
  }

  // ---- Atomic operations ------------------------------------------------------------------

  datatype AmoOp = AmoSwap | AmoAdd | AmoXor | AmoAnd | AmoOr | AmoMin | AmoMax | AmoMinu | AmoMaxu

  function Signed(x: nat): int { if x >= 0x8000_0000 then x - P32 else x }

  /** The new word, from the old one and the operand. */
  function AmoResult(op: AmoOp, o: nat, b: nat): nat {
    match op
    case AmoSwap => b
    case AmoAdd => (o + b) % P32
    case AmoXor => R.Bits(R.Xor, o, b, 32)
    case AmoAnd => R.Bits(R.And, o, b, 32)
    case AmoOr => R.Bits(R.Or, o, b, 32)
    case AmoMin => if Signed(o) < Signed(b) then o else b
    case AmoMax => if Signed(o) > Signed(b) then o else b
    case AmoMinu => if o < b then o else b
    case AmoMaxu => if o > b then o else b
  }

  lemma {:induction false} BitsCommute(k: R.Logic, o: nat, a: nat, b: nat, n: nat)
    ensures R.Bits(k, R.Bits(k, o, a, n), b, n) == R.Bits(k, R.Bits(k, o, b, n), a, n)
    decreases n
  {
    if n > 0 {
      BitsCommute(k, o / 2, a / 2, b / 2, n - 1);
      var x, y := R.Bits(k, o / 2, a / 2, n - 1), R.Bits(k, o / 2, b / 2, n - 1);
      var p, q := R.BitOf(k, o % 2, a % 2), R.BitOf(k, o % 2, b % 2);
      BitCommute(k, o % 2, a % 2, b % 2);
      hide R.BitOf;
      TopAndRest(p, x);
      TopAndRest(q, y);
    }
  }

  lemma BitCommute(k: R.Logic, o: nat, a: nat, b: nat)
    requires o < 2 && a < 2 && b < 2
    ensures R.BitOf(k, R.BitOf(k, o, a), b) == R.BitOf(k, R.BitOf(k, o, b), a)
    ensures R.BitOf(k, o, a) < 2 && R.BitOf(k, o, b) < 2
  {
  }

  lemma TopAndRest(p: nat, x: nat)
    requires p < 2
    ensures (p + 2 * x) % 2 == p && (p + 2 * x) / 2 == x
  {
  }

  lemma SumWraps(x: nat, y: nat)
    ensures (x % P32 + y) % P32 == (x + y) % P32
  {
  }

  /** Two harts' AMOs of the same kind leave the same word in either order; only a swap does not. */
  lemma AmosCommute(op: AmoOp, o: nat, a: nat, b: nat)
    requires o < P32 && a < P32 && b < P32 && op != AmoSwap
    ensures AmoResult(op, AmoResult(op, o, a), b) == AmoResult(op, AmoResult(op, o, b), a)
  {
    hide R.Bits;
    match op {
      case AmoAdd =>
        SumWraps(o + a, b);
        SumWraps(o + b, a);
      case AmoXor => BitsCommute(R.Xor, o, a, b, 32);
      case AmoAnd => BitsCommute(R.And, o, a, b, 32);
      case AmoOr => BitsCommute(R.Or, o, a, b, 32);
      case _ =>
    }
  }

  // ---- A shared counter -------------------------------------------------------------------

  /** Every write to the counter word adds one: a store-conditional to the value its hart loaded, an
      atomic to the value in memory.  Plain stores go elsewhere. */
  predicate Increments(s: Smp, e: Event, x: nat) {
    e.h < |s.harts| && InRange(s, x) ==>
      match e
      case LoadReserved(_, _) => true
      case StoreConditional(h, a, v) => a == x ==> v == (s.harts[h].loaded + 1) % P32
      case Amo(_, a, v) => a == x ==> v == (s.mem[x / 4] + 1) % P32
      case Store(_, a, _, _) => WordOf(a) != x
  }

  predicate Bumps(s: Smp, e: Event, x: nat) {
    e.h < |s.harts| && InRange(s, x) &&
      match e
      case StoreConditional(h, a, _) => a == x && Succeeds(s, h, x)
      case Amo(_, a, _) => a == x
      case _ => false
  }

  predicate Disciplined(s: Smp, events: seq<Event>, x: nat) {
    events != [] ==>
      var n := |events| - 1;
      Disciplined(s, events[..n], x) && WithinWord(events[n]) && Increments(Run(s, events[..n]), events[n], x)
  }

  /** Store-conditionals that succeeded on the word, and atomics. */
  function BumpCount(s: Smp, events: seq<Event>, x: nat): nat {
    if events == [] then 0
    else
      var n := |events| - 1;
      BumpCount(s, events[..n], x) + if Bumps(Run(s, events[..n]), events[n], x) then 1 else 0
  }

  lemma StepCounts(s: Smp, e: Event, x: nat)
    requires Reserved(s) && WithinWord(e) && InRange(s, x) && Increments(s, e, x) && s.mem[x / 4] < P32
    ensures InRange(Step(s, e), x)
    ensures Step(s, e).mem[x / 4] == if Bumps(s, e, x) then (s.mem[x / 4] + 1) % P32 else s.mem[x / 4]
  {
    if e.h < |s.harts| && e.Store? && e.width > 0 && |e.values| == Touched(e.addr, e.width) && e.addr / 4 + |e.values| <= |s.mem| {
      OneWord(s.mem, e.addr, e.width, e.values);
      assert e.addr / 4 != x / 4 by { SameWord(e.addr, x); }
    }
  }

  lemma SameWord(a: nat, x: nat)
    requires x % 4 == 0
    ensures a / 4 == x / 4 <==> WordOf(a) == x
  {
  }

  /** No update is lost: in every interleaving the counter is its start plus the number of
      successful store-conditionals and atomics on it. */
  lemma {:induction false} CounterExact(s: Smp, events: seq<Event>, x: nat)
    requires Reserved(s) && InRange(s, x) && s.mem[x / 4] < P32 && Disciplined(s, events, x)
    ensures var t := Run(s, events);
      InRange(t, x) && t.mem[x / 4] < P32 && t.mem[x / 4] == (s.mem[x / 4] + BumpCount(s, events, x)) % P32
    ensures Reserved(Run(s, events))
  {
    hide Reserved, Step, Increments, Bumps, WithinWord;
    if events != [] {
      var n := |events| - 1;
      var t := Run(s, events[..n]);
      CounterExact(s, events[..n], x);
      StepCounts(t, events[n], x);
      StepKeepsReserved(t, events[n]);
      AddOne(s.mem[x / 4] + BumpCount(s, events[..n], x));
    }
  }

  lemma AddOne(a: nat)
    ensures (a % P32 + 1) % P32 == (a + 1) % P32 && a % P32 < P32
  {
  }

  // ---- The harts, updated in place --------------------------------------------------------

  class Machine {
    const mem: array<nat>
    const harts: array<Hart>

    constructor (words: nat, n: nat)
      ensures mem.Length == words && harts.Length == n && fresh(mem) && fresh(harts) && Reserved(State())
    {
      mem := new nat[words](_ => 0);
      harts := new Hart[n](_ => Hart(false, 0, 0));
    }

    ghost function State(): Smp
      reads mem, harts
    {
      Smp(mem[..], harts[..])
    }

    /** break_reservation. */
    method BreakReservation(addr: nat)
      modifies harts
      ensures harts[..] == Break(old(harts[..]), addr)
    {
      var word := WordOf(addr);
      var i := 0;
      while i < harts.Length
        invariant 0 <= i <= harts.Length
        invariant forall j :: 0 <= j < i ==> harts[j] == Break(old(harts[..]), addr)[j]
        invariant forall j :: i <= j < harts.Length ==> harts[j] == old(harts[j])
      {
        if harts[i].valid && harts[i].addr == word { harts[i] := harts[i].(valid := false); }
        i := i + 1;
      }
      assert harts[..] == Break(old(harts[..]), addr);
    }

    /** LR.W; the result is what the hart loads, unless it traps. */
    method LoadReserve(h: nat, addr: nat) returns (value: nat, trap: bool)
      requires h < harts.Length
      modifies harts
      ensures State() == Step(old(State()), LoadReserved(h, addr)) && trap == !InRange(State(), addr)
      ensures !trap ==> value == mem[addr / 4]
    {
      if addr % 4 != 0 || addr / 4 >= mem.Length { return 0, true; }
      value, trap := mem[addr / 4], false;
      harts[h] := Hart(true, addr, value);
      assert harts[..] == old(harts[..])[h := Hart(true, addr, value)];
    }

    /** SC.W; zero means success. */
    method StoreCond(h: nat, addr: nat, value: nat) returns (fail: nat, trap: bool)
      requires h < harts.Length
      modifies mem, harts
      ensures State() == Step(old(State()), StoreConditional(h, addr, value))
      ensures trap == (addr % 4 != 0 || (Succeeds(old(State()), h, addr) && addr / 4 >= mem.Length))
      ensures !trap ==> fail == if Succeeds(old(State()), h, addr) then 0 else 1
    {
      hide Break;
      trap := false;
      if addr % 4 != 0 { return 1, true; }
      fail := if harts[h].valid && harts[h].addr == addr then 0 else 1;
      if fail == 0 {
        if addr / 4 >= mem.Length { return 0, true; }
        mem[addr / 4] := value;
        assert mem[..] == old(mem[..])[addr / 4 := value];
        BreakReservation(addr);
      }
      ghost var before := harts[..];
      harts[h] := harts[h].(valid := false);
      assert harts[..] == before[h := before[h].(valid := false)];
    }

    /** AMO*.W: combines the word with the operand, writes the result back and returns the old word
        sign-extended, unless it traps. */
    method AmoWord(h: nat, addr: nat, op: AmoOp, b: R.Word) returns (value: R.Word, trap: bool)
      requires h < harts.Length
      modifies mem, harts
      ensures trap == !InRange(old(State()), addr) && (trap ==> State() == old(State()))
      ensures !trap ==>
        var o := old(mem[addr / 4]);
        State() == Step(old(State()), Amo(h, addr, AmoResult(op, o, b % P32))) && value == R.Sext32(o)
    {
      hide Break, AmoResult;
      if addr % 4 != 0 || addr / 4 >= mem.Length { return 0, true; }
      var o := mem[addr / 4];
      var r := AmoResult(op, o, b % P32);
      mem[addr / 4] := r;
      assert mem[..] == old(mem[..])[addr / 4 := r];
      BreakReservation(addr);
      return R.Sext32(o), false;
    }

    /** A store of any width and alignment. */
    method StoreBytes(h: nat, addr: nat, width: nat, values: seq<nat>)
      requires h < harts.Length && width > 0 && |values| == Touched(addr, width)
      modifies mem, harts
      ensures State() == Step(old(State()), Store(h, addr, width, values))
    {
      hide Break;
      BreakReservation(addr);
      var at := addr / 4;
      if at + |values| > mem.Length { return; }
      var k := 0;
      while k < |values|
        invariant 0 <= k <= |values| && harts[..] == Break(old(harts[..]), addr)
        invariant forall j :: 0 <= j < mem.Length ==> mem[j] == if at <= j < at + k then values[j - at] else old(mem[j])
      {
        mem[at + k] := values[k];
        k := k + 1;
      }
      assert mem[..] == Overwrite(old(mem[..]), at, values);
    }
  }
}
