/** The set-associative cache model (cache.c): time stamps in an array of lines, against the
    recency list of `Lru`. */
module Cache {
  import opened Basics
  import opened Powers
  import opened Lru

  datatype Line = Line(valid: bool, tag: nat, used: nat)
  datatype Access = Ref(index: nat, tag: nat)

  // ---- One set ----------------------------------------------------------------------------

  /** The ways hold the most recent tags: `order[i]` is the way holding the i-th most recently used
      tag.  Ways fill from the left and time stamps fall along the order. */
  ghost predicate SetOk(row: seq<Line>, stack: seq<nat>, order: seq<nat>, tick: nat) {
    && Distinct(stack) && |order| == Min(|row|, |stack|)
    && (forall w :: 0 <= w < |row| ==> (row[w].valid <==> w < |order|))
    && (forall i :: 0 <= i < |order| ==> order[i] < |order| && row[order[i]].tag == stack[i] && row[order[i]].used <= tick)
    && (forall w :: 0 <= w < |order| ==> w in order)
    && (forall i, j :: 0 <= i < j < |order| ==> row[order[i]].used > row[order[j]].used)
  }

  /** A valid line holds tag t exactly when t is among the most recent. */
  lemma HoldsRecent(row: seq<Line>, stack: seq<nat>, order: seq<nat>, tick: nat, t: nat)
    requires SetOk(row, stack, order, tick)
    ensures (exists w :: 0 <= w < |row| && row[w].valid && row[w].tag == t) <==> t in stack[..|order|]
  {
    if t in stack[..|order|] {
      var i :| 0 <= i < |order| && stack[i] == t;
      assert row[order[i]].valid;
    }
    if w :| 0 <= w < |row| && row[w].valid && row[w].tag == t {
      assert w in order;
      var i :| 0 <= i < |order| && order[i] == w;
      assert stack[..|order|][i] == t;
    }
  }

  function Stamp(row: seq<Line>, w: nat, tag: nat, tick: nat): seq<Line>
    requires w < |row|
  {
    row[w := Line(true, tag, tick)]
  }

  /** A hit moves its way to the front. */
  lemma HitKeeps(row: seq<Line>, stack: seq<nat>, order: seq<nat>, tick: nat, w: nat) returns (order': seq<nat>)
    requires SetOk(row, stack, order, tick) && w < |row| && row[w].valid
    ensures SetOk(Stamp(row, w, row[w].tag, tick + 1), Touch(stack, row[w].tag), order', tick + 1)
  {
    hide Without;
    assert w in order;
    var i :| 0 <= i < |order| && order[i] == w;
    var tag := row[w].tag;
    assert stack[i] == tag;
    order' := [w] + order[..i] + order[i + 1..];
    WithoutAt(stack, i);
    TouchDistinct(stack, tag);
    FrontOrder(order, i);
    StampedOrder(row, stack, order, tick, i);
  }

  lemma TouchDistinct(stack: seq<nat>, t: nat)
    requires Distinct(stack)
    ensures Distinct(Touch(stack, t))
  {
    WithoutDistinct(stack, t);
  }

  lemma FrontOrder(order: seq<nat>, i: nat)
    requires i < |order|
    ensures var o := [order[i]] + order[..i] + order[i + 1..];
      |o| == |order| && forall w :: w in o <==> w in order
  {
    var o := [order[i]] + order[..i] + order[i + 1..];
    assert order == order[..i] + [order[i]] + order[i + 1..];
  }

  lemma StampedOrder(row: seq<Line>, stack: seq<nat>, order: seq<nat>, tick: nat, i: nat)
    requires SetOk(row, stack, order, tick) && i < |order|
    ensures var w := order[i]; var o := [w] + order[..i] + order[i + 1..];
      var row' := Stamp(row, w, row[w].tag, tick + 1); var stack' := [stack[i]] + (stack[..i] + stack[i + 1..]);
      && (forall k :: 0 <= k < |o| ==> o[k] < |o| && row'[o[k]].tag == stack'[k] && row'[o[k]].used <= tick + 1)
      && (forall a, b :: 0 <= a < b < |o| ==> row'[o[a]].used > row'[o[b]].used)
  {
    var w := order[i];
    var o := [w] + order[..i] + order[i + 1..];
    var row' := Stamp(row, w, row[w].tag, tick + 1);
    assert forall k :: 0 < k < |o| ==> o[k] == order[if k <= i then k - 1 else k];
    assert forall k :: 0 <= k < |order| && k != i ==> order[k] != w;
  }

  /** A miss in a set with a free way: nothing is evicted, and the tag is new altogether. */
  lemma FillKeeps(row: seq<Line>, stack: seq<nat>, order: seq<nat>, tick: nat, tag: nat) returns (order': seq<nat>)
    requires SetOk(row, stack, order, tick) && |order| < |row| && tag !in stack[..|order|]
    ensures SetOk(Stamp(row, |order|, tag, tick + 1), Touch(stack, tag), order', tick + 1)
  {
    assert stack[..|order|] == stack;
    TouchDistinct(stack, tag);
    TouchNew(stack, tag);
    order' := [|order|] + order;
    hide Touch, Distinct;
    FilledOrder(row, stack, order, tick, tag);
  }

  lemma FilledOrder(row: seq<Line>, stack: seq<nat>, order: seq<nat>, tick: nat, tag: nat)
    requires SetOk(row, stack, order, tick) && |order| < |row|
    ensures var v := |order|; var o := [v] + order; var row' := Stamp(row, v, tag, tick + 1); var stack' := [tag] + stack;
      && (forall k :: 0 <= k < |o| ==> o[k] < |o| && row'[o[k]].tag == stack'[k] && row'[o[k]].used <= tick + 1)
      && (forall a, b :: 0 <= a < b < |o| ==> row'[o[a]].used > row'[o[b]].used)
      && (forall w :: 0 <= w < |o| ==> w in o)
  {
    var o := [|order|] + order;
    assert forall k :: 0 < k < |o| ==> o[k] == order[k - 1];
    assert forall w :: 0 <= w < |order| ==> w in order;
  }

  lemma TouchNew(stack: seq<nat>, tag: nat)
    requires tag !in stack
    ensures Touch(stack, tag) == [tag] + stack
  {
    WithoutAbsent(stack, tag);
  }

  /** In a full set the way with the smallest stamp holds the least recently used resident tag. */
  lemma VictimIsLast(row: seq<Line>, stack: seq<nat>, order: seq<nat>, tick: nat, v: nat)
    requires SetOk(row, stack, order, tick) && |order| == |row| > 0 && v < |row|
    requires forall w :: 0 <= w < |row| ==> row[v].used <= row[w].used
    ensures order[|order| - 1] == v
  {
    assert v in order;
    var i :| 0 <= i < |order| && order[i] == v;
    var last := order[|order| - 1];
    assert row[v].used <= row[last].used;
  }

  lemma EvictKeeps(row: seq<Line>, stack: seq<nat>, order: seq<nat>, tick: nat, tag: nat, v: nat) returns (order': seq<nat>)
    requires SetOk(row, stack, order, tick) && |order| == |row| > 0 && v < |row| && tag !in stack[..|order|]
    requires forall w :: 0 <= w < |row| ==> row[v].used <= row[w].used
    ensures SetOk(Stamp(row, v, tag, tick + 1), Touch(stack, tag), order', tick + 1)
  {
    hide Without;
    var n := |order| - 1;
    VictimIsLast(row, stack, order, tick, v);
    TouchDistinct(stack, tag);
    assert tag !in stack[..n];
    WithoutPrefix(stack, tag, n);
    FrontOrder(order, n);
    order' := [v] + order[..n];
    assert order' == [order[n]] + order[..n] + order[n + 1..];
    EvictedOrder(row, stack, order, tick, tag);
  }

  lemma EvictedOrder(row: seq<Line>, stack: seq<nat>, order: seq<nat>, tick: nat, tag: nat)
    requires SetOk(row, stack, order, tick) && |order| == |row| > 0
    requires var n := |order| - 1; |Without(stack, tag)| >= n && Without(stack, tag)[..n] == stack[..n]
    ensures var n := |order| - 1; var v := order[n]; var o := [v] + order[..n];
      var row' := Stamp(row, v, tag, tick + 1); var stack' := Touch(stack, tag);
      && (forall k :: 0 <= k < |o| ==> o[k] < |o| && row'[o[k]].tag == stack'[k] && row'[o[k]].used <= tick + 1)
      && (forall a, b :: 0 <= a < b < |o| ==> row'[o[a]].used > row'[o[b]].used)
  {
    hide Without;
    var n := |order| - 1;
    var v := order[n];
    var o := [v] + order[..n];
    assert forall k :: 0 < k < |o| ==> o[k] == order[k - 1];
    assert forall k :: 0 <= k < n ==> order[k] != v && Without(stack, tag)[k] == Without(stack, tag)[..n][k] == stack[..n][k] == stack[k];
  }

  // ---- Whole traces -----------------------------------------------------------------------

  /** The tags accessed in one set. */
  function Tags(history: seq<Access>, s: nat): seq<nat> {
    if history == [] then []
    else
      var n := |history| - 1;
      if history[n].index == s then Tags(history[..n], s) + [history[n].tag] else Tags(history[..n], s)
  }

  predicate Misses(history: seq<Access>, a: Access, assoc: nat) {
    a.tag !in Resident(Tags(history, a.index), assoc)
  }

  /** Misses of an LRU cache of the given associativity, by the textbook. */
  function MissCount(history: seq<Access>, assoc: nat): nat {
    if history == [] then 0
    else
      var n := |history| - 1;
      MissCount(history[..n], assoc) + if Misses(history[..n], history[n], assoc) then 1 else 0
  }

  /** With the same sets, more ways never miss more, on any trace. */
  lemma {:induction false} MoreWaysMissLess(history: seq<Access>, a: nat, b: nat)
    requires a <= b
    ensures MissCount(history, b) <= MissCount(history, a)
  {
    hide Resident, Tags;
    if history != [] {
      var n := |history| - 1;
      MoreWaysMissLess(history[..n], a, b);
      Inclusion(Tags(history[..n], history[n].index), a, b);
    }
  }

  lemma TagsAppend(history: seq<Access>, a: Access, s: nat)
    ensures Tags(history + [a], s) == if a.index == s then Tags(history, s) + [a.tag] else Tags(history, s)
    ensures Stack(Tags(history + [a], s)) == if a.index == s then Touch(Stack(Tags(history, s)), a.tag) else Stack(Tags(history, s))
  {
    hide Touch;
    assert (history + [a])[..|history|] == history;
    var t := Tags(history, s);
    assert (t + [a.tag])[..|t|] == t;
  }

  lemma MissAppend(history: seq<Access>, a: Access, assoc: nat)
    ensures MissCount(history + [a], assoc) == MissCount(history, assoc) + if Misses(history, a, assoc) then 1 else 0
  {
    hide Misses;
    assert (history + [a])[..|history|] == history;
  }

  // ---- Geometry ---------------------------------------------------------------------------

  ghost predicate IsPow2(x: nat) { exists n: nat :: x == Pow2(n) }

  /** Halving down to one. */
  predicate PowerOfTwo(x: nat) { x == 1 || (x > 0 && x % 2 == 0 && PowerOfTwo(x / 2)) }

  lemma {:induction false} PowerOfTwoIs(x: nat)
    requires PowerOfTwo(x)
    ensures IsPow2(x)
  {
    if x == 1 {
      assert Pow2(0) == 1;
    } else {
      PowerOfTwoIs(x / 2);
      var n: nat :| x / 2 == Pow2(n);
      assert Pow2(n + 1) == 2 * Pow2(n);
    }
  }

  /** The smallest n with 2^n >= x. */
  method Log2(x: nat) returns (n: nat)
    requires IsPow2(x)
    ensures x == Pow2(n)
  {
    n := 0;
    ghost var k: nat :| x == Pow2(k);
    while Pow2(n) < x
      invariant n <= k
      decreases k - n
    {
      n := n + 1;
    }
    Pow2Mono(n, k);
  }

  function IndexOf(addr: nat, offsetBits: nat, indexBits: nat): nat { Low(Shr(addr, offsetBits), indexBits) }
  function TagOf(addr: nat, offsetBits: nat, indexBits: nat): nat { Shr(addr, offsetBits + indexBits) }

  /** Set index and tag together name the block: two addresses share both exactly when they lie in
      the same block. */
  lemma BlockNamed(a: nat, b: nat, offsetBits: nat, indexBits: nat)
    ensures Pow2(offsetBits) > 0
    ensures (IndexOf(a, offsetBits, indexBits) == IndexOf(b, offsetBits, indexBits)
             && TagOf(a, offsetBits, indexBits) == TagOf(b, offsetBits, indexBits))
       <==> a / Pow2(offsetBits) == b / Pow2(offsetBits)
    ensures IndexOf(a, offsetBits, indexBits) < Pow2(indexBits)
  {
    hide Shr, Low, Shl, Pow2;
    ShrShr(a, offsetBits, indexBits);
    ShrShr(b, offsetBits, indexBits);
    ShiftSplit(Shr(a, offsetBits), indexBits);
    ShiftSplit(Shr(b, offsetBits), indexBits);
    ShiftsAreDivision(a, offsetBits);
    ShiftsAreDivision(b, offsetBits);
  }

  // ---- The cache --------------------------------------------------------------------------

  class LruCache {
    const numSets: nat
    const assoc: nat
    const offsetBits: nat
    const indexBits: nat
    const lines: array2<Line>
    var tick: nat
    var loads: nat
    var stores: nat
    var hits: nat
    var misses: nat
    ghost var history: seq<Access>
    ghost var orders: seq<seq<nat>>

    ghost function Row(s: nat): (row: seq<Line>)
      requires lines.Length0 == numSets && lines.Length1 == assoc && s < numSets
      reads lines
      ensures |row| == assoc
    {
      seq(assoc, w requires 0 <= w < assoc reads lines => lines[s, w])
    }

    ghost predicate Shape()
      reads this
    {
      && lines.Length0 == numSets == |orders| && lines.Length1 == assoc > 0 && numSets == Pow2(indexBits)
    }

    ghost predicate Counted()
      reads this
    {
      tick == |history| == loads + stores == hits + misses && misses == MissCount(history, assoc)
    }

    ghost predicate Valid()
      reads this, lines
    {
      && Shape() && Counted()
      && forall s :: 0 <= s < numSets ==> SetOk(Row(s), Stack(Tags(history, s)), orders[s], tick)
    }

    constructor (numSets: nat, assoc: nat, offsetBits: nat, indexBits: nat)
      requires numSets == Pow2(indexBits) && assoc > 0
      ensures Valid() && history == [] && fresh(lines)
      ensures this.numSets == numSets && this.assoc == assoc && this.offsetBits == offsetBits && this.indexBits == indexBits
    {
      this.numSets, this.assoc, this.offsetBits, this.indexBits := numSets, assoc, offsetBits, indexBits;
      lines := new Line[numSets, assoc]((i, j) => Line(false, 0, 0));
      tick, loads, stores, hits, misses := 0, 0, 0, 0, 0;
      history := [];
      orders := seq(numSets, _ => []);
    }

    /** After any trace a set holds exactly the `assoc` most recently used tags that map to it. */
    lemma Holds(s: nat, t: nat)
      requires Valid() && s < numSets
      ensures (exists w :: 0 <= w < assoc && lines[s, w].valid && lines[s, w].tag == t) <==> t in Resident(Tags(history, s), assoc)
    {
      hide SetOk, Tags, Stack, MissCount;
      HoldsRecent(Row(s), Stack(Tags(history, s)), orders[s], tick, t);
      OrderLength(Row(s), Stack(Tags(history, s)), orders[s], tick);
      if w :| 0 <= w < assoc && lines[s, w].valid && lines[s, w].tag == t { assert Row(s)[w] == lines[s, w]; }
      if w :| 0 <= w < assoc && Row(s)[w].valid && Row(s)[w].tag == t { assert Row(s)[w] == lines[s, w]; }
    }

    /** The scan for a matching way. */
    method Find(s: nat, tag: nat) returns (w: nat)
      requires Shape() && s < numSets
      ensures w <= assoc
      ensures w < assoc ==> lines[s, w].valid && lines[s, w].tag == tag
      ensures w == assoc ==> forall v :: 0 <= v < assoc ==> !(lines[s, v].valid && lines[s, v].tag == tag)
    {
      w := 0;
      while w < assoc
        invariant w <= assoc
        invariant forall v :: 0 <= v < w ==> !(lines[s, v].valid && lines[s, v].tag == tag)
      {
        if lines[s, w].valid && lines[s, w].tag == tag { return; }
        w := w + 1;
      }
    }

    /** The scan for a victim: the first free way, else the one with the oldest stamp. */
    method Victim(s: nat) returns (victim: nat)
      requires Shape() && s < numSets
      ensures victim < assoc
      ensures !lines[s, victim].valid ==> forall v :: 0 <= v < victim ==> lines[s, v].valid
      ensures lines[s, victim].valid ==> forall v :: 0 <= v < assoc ==> lines[s, v].valid && lines[s, victim].used <= lines[s, v].used
    {
      victim := 0;
      var w := 0;
      while w < assoc
        invariant w <= assoc && victim < assoc && (victim < w || victim == 0)
        invariant forall v :: 0 <= v < w ==> lines[s, v].valid && lines[s, victim].used <= lines[s, v].used
      {
        if !lines[s, w].valid {
          victim := w;
          break;
        }
        if lines[s, w].used < lines[s, victim].used { victim := w; }
        w := w + 1;
      }
    }

    /** The way an access stamps: the matching one, else the victim. */
    method Choose(s: nat, tag: nat) returns (w: nat, hit: bool)
      requires Valid() && s < numSets
      ensures w < assoc && hit == (tag in Resident(Tags(history, s), assoc))
      ensures hit ==> lines[s, w].valid && lines[s, w].tag == tag
      ensures !hit && !lines[s, w].valid ==> forall v :: 0 <= v < w ==> lines[s, v].valid
      ensures !hit && lines[s, w].valid ==> forall v :: 0 <= v < assoc ==> lines[s, v].valid && lines[s, w].used <= lines[s, v].used
    {
      hide SetOk, Tags, Resident, MissCount;
      Holds(s, tag);
      w := Find(s, tag);
      hit := w < assoc;
      if !hit { w := Victim(s); }
    }

    /** cache_access. */
    method Access(addr: nat, isStore: bool)
      requires Valid()
      modifies this, lines
      ensures Valid()
      ensures history == old(history) + [Ref(IndexOf(addr, offsetBits, indexBits), TagOf(addr, offsetBits, indexBits))]
      ensures loads == old(loads) + (if isStore then 0 else 1) && stores == old(stores) + (if isStore then 1 else 0)
      ensures hits == old(hits) + 1 <==> !Misses(old(history), history[|history| - 1], assoc)
    {
      hide SetOk, Tags, Resident, MissCount, Stack, Touch, IndexOf, TagOf, Stamp;
      BlockNamed(addr, addr, offsetBits, indexBits);
      var index, tag := IndexOf(addr, offsetBits, indexBits), TagOf(addr, offsetBits, indexBits);
      ghost var a := Ref(index, tag);
      var w, hit := Choose(index, tag);
      ghost var order := Chosen(index, tag, w);
      MissAppend(history, a, assoc);
      if isStore { stores := stores + 1; } else { loads := loads + 1; }
      tick := tick + 1;
      if hit { hits := hits + 1; } else { misses := misses + 1; }
      lines[index, w] := Line(true, tag, tick);
      orders := orders[index := order];
      history := history + [a];
      forall s | 0 <= s < numSets ensures SetOk(Row(s), Stack(Tags(history, s)), orders[s], tick) {
        TagsAppend(old(history), a, s);
        if s == index {
          assert Row(s) == old(Row(s))[w := Line(true, tag, tick)];
          StampIs(old(Row(s)), w, tag, tick);
        } else {
          assert Row(s) == old(Row(s));
          SetOkLater(old(Row(s)), Stack(Tags(old(history), s)), orders[s], old(tick));
        }
      }
    }

    lemma Chosen(s: nat, tag: nat, w: nat) returns (order: seq<nat>)
      requires Valid() && s < numSets && w < assoc
      requires var hit := tag in Resident(Tags(history, s), assoc);
        && (hit ==> lines[s, w].valid && lines[s, w].tag == tag)
        && (!hit && !lines[s, w].valid ==> forall v :: 0 <= v < w ==> lines[s, v].valid)
        && (!hit && lines[s, w].valid ==> forall v :: 0 <= v < assoc ==> lines[s, v].valid && lines[s, w].used <= lines[s, v].used)
      ensures SetOk(Stamp(Row(s), w, tag, tick + 1), Touch(Stack(Tags(history, s)), tag), order, tick + 1)
    {
      hide SetOk, Tags, MissCount, Stack, Touch, Stamp;
      OrderLength(Row(s), Stack(Tags(history, s)), orders[s], tick);
      order := StampKeeps(Row(s), Stack(Tags(history, s)), orders[s], tick, tag, w);
    }
  }

  lemma StampIs(row: seq<Line>, w: nat, tag: nat, tick: nat)
    requires w < |row|
    ensures Stamp(row, w, tag, tick) == row[w := Line(true, tag, tick)]
  {
  }

  lemma SetOkLater(row: seq<Line>, stack: seq<nat>, order: seq<nat>, tick: nat)
    requires SetOk(row, stack, order, tick)
    ensures SetOk(row, stack, order, tick + 1)
  {
  }

  /** What stamping the way chosen by the two scans does to a set. */
  lemma StampKeeps(row: seq<Line>, stack: seq<nat>, order: seq<nat>, tick: nat, tag: nat, w: nat) returns (order': seq<nat>)
    requires SetOk(row, stack, order, tick) && w < |row|
    requires tag in stack[..|order|] ==> row[w].valid && row[w].tag == tag
    requires tag !in stack[..|order|] && !row[w].valid ==> forall v :: 0 <= v < w ==> row[v].valid
    requires tag !in stack[..|order|] && row[w].valid ==> forall v :: 0 <= v < |row| ==> row[v].valid && row[w].used <= row[v].used
    ensures SetOk(Stamp(row, w, tag, tick + 1), Touch(stack, tag), order', tick + 1)
  {
    WaysFill(row, stack, order, tick);
    hide SetOk;
    if tag in stack[..|order|] {
      order' := HitKeeps(row, stack, order, tick, w);
    } else if !row[w].valid {
      assert w == |order| by { assert row[if |order| < w then |order| else w].valid <==> |order| < w; }
      order' := FillKeeps(row, stack, order, tick, tag);
    } else {
      assert row[|row| - 1].valid;
      order' := EvictKeeps(row, stack, order, tick, tag, w);
    }
  }

  lemma WaysFill(row: seq<Line>, stack: seq<nat>, order: seq<nat>, tick: nat)
    requires SetOk(row, stack, order, tick)
    ensures |order| <= |row| && forall w :: 0 <= w < |row| ==> (row[w].valid <==> w < |order|)
  {
  }

  lemma OrderLength(row: seq<Line>, stack: seq<nat>, order: seq<nat>, tick: nat)
    requires SetOk(row, stack, order, tick)
    ensures |order| == Min(|row|, |stack|)
  {
  }

  // ---- Setting up -------------------------------------------------------------------------

  /** The outcome of cache_init's checks: rejected, the remainder by a product that has wrapped to zero,
      or a number of sets. */
  datatype Geometry = Bad | DividesByZero | Good(numSets: nat)

  type U32 = x: nat | x < 0x1_0000_0000

  /** The checks of cache_init, the bytes per set in 32 bits. */
  function CheckGeometry(size: U32, assoc: U32, block: U32): Geometry {
    if !PowerOfTwo(block) || block < 4 || !PowerOfTwo(assoc) then Bad
    else
      var perSet := assoc * block % P32;
      if size == 0 then Bad
      else if perSet == 0 then DividesByZero
      else if size % perSet != 0 || !PowerOfTwo(size / perSet) then Bad
      else Good(size / perSet)
  }

  /** The product of two powers of two is itself or, from 2^32 on, zero in 32 bits. */
  lemma ProductWraps(a: nat, b: nat)
    requires PowerOfTwo(a) && PowerOfTwo(b)
    ensures a * b % P32 == if a * b < P32 then a * b else 0
    ensures a * b > 0
  {
    var k := ProductPower(a, b);
    hide PowerOfTwo, Pow2;
    PowWraps(k);
  }

  lemma PowWraps(k: nat)
    ensures Pow2(k) % P32 == if Pow2(k) < P32 then Pow2(k) else 0
  {
    Pow2Words();
    hide Pow2;
    Pow2Positive(k);
    if k >= 32 {
      PowSum(k - 32, 32);
      MultipleOf(Pow2(k - 32));
      Pow2Mono(32, k);
    } else {
      Pow2Mono(k, 31);
      PowDouble(31);
    }
  }

  lemma PowSum(m: nat, n: nat)
    ensures Pow2(m) * Pow2(n) == Pow2(m + n)
  {
    ShlIsTimes(Pow2(m), n);
    ShlShl(1, m, n);
  }

  lemma MultipleOf(q: nat)
    ensures q * P32 % P32 == 0
  {
  }

  /** Which geometries are accepted, and which reach a division by zero: exactly those of at least
      2^32 bytes per set, with any other than an empty size. */
  lemma GeometryExactly(size: U32, assoc: U32, block: U32)
    ensures var g := CheckGeometry(size, assoc, block); var shaped := PowerOfTwo(block) && block >= 4 && PowerOfTwo(assoc);
      && (g == DividesByZero <==> shaped && size > 0 && assoc * block >= P32)
      && (g.Good? <==> shaped && assoc * block < P32 && exists n: nat :: Divides(n, assoc * block, size))
      && (g.Good? ==> Divides(g.numSets, assoc * block, size))
  {
    if PowerOfTwo(block) && block >= 4 && PowerOfTwo(assoc) {
      ProductWraps(assoc, block);
      var k := ProductPower(assoc, block);
      hide PowerOfTwo, Pow2;
      SetsExactly(size, assoc * block, k);
    }
  }

  /** A size is a power of two of sets exactly when the remainder is zero and the quotient one. */
  lemma SetsExactly(size: nat, per: nat, k: nat)
    requires per == Pow2(k) > 0
    ensures (size > 0 && size % per == 0 && PowerOfTwo(size / per)) <==> exists n: nat :: Divides(n, per, size)
    ensures size > 0 && size % per == 0 && PowerOfTwo(size / per) ==> Divides(size / per, per, size)
  {
    hide PowerOfTwo, Pow2;
    if n: nat :| Divides(n, per, size) { Quotient(n, k, size); }
    if size > 0 && size % per == 0 && PowerOfTwo(size / per) {
      BackProduct(size, k);
      assert Divides(size / per, per, size);
    }
  }

  lemma {:induction false} PowIsPower(n: nat)
    ensures PowerOfTwo(Pow2(n))
  {
    if n == 0 {
      assert Pow2(0) == 1;
    } else {
      PowIsPower(n - 1);
      PowDouble(n - 1);
      Pow2Positive(n);
    }
  }

  /** 65536 ways of 64 KiB blocks. */
  lemma GeometryDivides()
    ensures CheckGeometry(4096, 0x1_0000, 0x1_0000) == DividesByZero
  {
    hide PowerOfTwo, Pow2;
    Pow2Values();
    PowIsPower(16);
    GeometryExactly(4096, 0x1_0000, 0x1_0000);
  }

  /** The size is a power of two of sets. */
  predicate Divides(n: nat, per: nat, size: nat) { PowerOfTwo(n) && n * per == size }

  lemma ProductPower(a: nat, b: nat) returns (k: nat)
    requires PowerOfTwo(a) && PowerOfTwo(b)
    ensures a * b == Pow2(k) > 0
  {
    PowerOfTwoIs(a);
    PowerOfTwoIs(b);
    var m: nat :| a == Pow2(m);
    var n: nat :| b == Pow2(n);
    k := m + n;
    hide Pow2;
    PowSum(m, n);
    Pow2Positive(k);
  }

  lemma Quotient(n: nat, k: nat, size: nat)
    requires Divides(n, Pow2(k), size)
    ensures Pow2(k) > 0 && size > 0 && size % Pow2(k) == 0 && size / Pow2(k) == n
  {
    assert n > 0;
    hide Shl, Shr, Low, Pow2, PowerOfTwo;
    ShiftsAreDivision(n, k);
    ShiftsAreDivision(size, k);
    ShlThenShr(n, k);
    Positive(n, Pow2(k));
  }

  lemma BackProduct(size: nat, k: nat)
    requires Pow2(k) > 0 && size % Pow2(k) == 0
    ensures size / Pow2(k) * Pow2(k) == size
  {
    hide Shl, Shr, Low, Pow2;
    ShiftsAreDivision(size, k);
    ShiftSplit(size, k);
    ShlIsTimes(size / Pow2(k), k);
  }

  lemma Positive(a: nat, b: nat)
    requires a > 0 && b > 0
    ensures a * b > 0
  {
  }

  /** cache_init: null for a geometry it rejects. */
  method CacheInit(size: U32, assoc: U32, block: U32) returns (g: Geometry, c: LruCache?)
    ensures g == CheckGeometry(size, assoc, block) && (c != null <==> g.Good?)
    ensures c != null ==> fresh(c) && fresh(c.lines) && c.Valid() && c.history == [] && c.assoc == assoc
    ensures c != null ==> c.numSets == g.numSets && Pow2(c.offsetBits) == block && c.numSets * (c.assoc * block) == size
  {
    g := CheckGeometry(size, assoc, block);
    if !g.Good? { return g, null; }
    GeometryExactly(size, assoc, block);
    PowerOfTwoIs(block);
    PowerOfTwoIs(g.numSets);
    var offsetBits := Log2(block);
    var indexBits := Log2(g.numSets);
    c := new LruCache(g.numSets, assoc, offsetBits, indexBits);
  }

  /** Two caches with the same sets and blocks after the same trace: the one with more ways holds
      everything the other does, and has missed no more. */
  lemma CompareCaches(a: LruCache, b: LruCache, s: nat, t: nat)
    requires a.Valid() && b.Valid() && a.numSets == b.numSets && a.history == b.history && a.assoc <= b.assoc && s < a.numSets
    ensures (exists w :: 0 <= w < a.assoc && a.lines[s, w].valid && a.lines[s, w].tag == t) ==>
      exists w :: 0 <= w < b.assoc && b.lines[s, w].valid && b.lines[s, w].tag == t
    ensures b.misses <= a.misses
  {
    hide SetOk, Tags, Resident, MissCount;
    a.Holds(s, t);
    b.Holds(s, t);
    Inclusion(Tags(a.history, s), a.assoc, b.assoc);
    MoreWaysMissLess(a.history, a.assoc, b.assoc);
  }
}
