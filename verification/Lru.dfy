/** The textbook recency list, and the two things everybody uses it for: what an LRU set holds, and
    that a larger set never misses more. */
module Lru {
  import opened Basics
  // ---- Recency ----------------------------------------------------------------------------

  function Without(l: seq<nat>, t: nat): seq<nat> {
    if l == [] then [] else if l[0] == t then Without(l[1..], t) else [l[0]] + Without(l[1..], t)
  }

  /** Move t to the front. */
  function Touch(l: seq<nat>, t: nat): seq<nat> { [t] + Without(l, t) }

  /** The distinct tags of a trace, most recently used first. */
  function Stack(trace: seq<nat>): seq<nat> {
    if trace == [] then [] else Touch(Stack(trace[..|trace| - 1]), trace[|trace| - 1])
  }

  predicate Distinct(l: seq<nat>) { forall i, j :: 0 <= i < j < |l| ==> l[i] != l[j] }

  lemma {:induction false} WithoutMembers(l: seq<nat>, t: nat)
    ensures forall x :: x in Without(l, t) <==> x in l && x != t
    ensures |Without(l, t)| <= |l|
  {
    if l != [] {
      WithoutMembers(l[1..], t);
      assert l == [l[0]] + l[1..];
    }
  }

  lemma {:induction false} WithoutAbsent(l: seq<nat>, t: nat)
    requires t !in l
    ensures Without(l, t) == l
  {
    if l != [] {
      assert l == [l[0]] + l[1..];
      WithoutAbsent(l[1..], t);
    }
  }

  /** Removing the element at position i of a list of distinct elements. */
  lemma {:induction false} WithoutAt(l: seq<nat>, i: nat)
    requires Distinct(l) && i < |l|
    ensures Without(l, l[i]) == l[..i] + l[i + 1..]
  {
    if i == 0 {
      WithoutAbsent(l[1..], l[0]);
    } else {
      WithoutAt(l[1..], i - 1);
      assert l[1..][..i - 1] == l[1..i] && l[1..][i..] == l[i + 1..];
    }
  }

  /** Elements before the first n that are not t stay where they are. */
  lemma {:induction false} WithoutPrefix(l: seq<nat>, t: nat, n: nat)
    requires n <= |l| && t !in l[..n]
    ensures |Without(l, t)| >= n && Without(l, t)[..n] == l[..n]
  {
    if n > 0 {
      assert l[..n] == [l[0]] + l[1..][..n - 1];
      WithoutPrefix(l[1..], t, n - 1);
    }
  }

  lemma {:induction false} WithoutDistinct(l: seq<nat>, t: nat)
    requires Distinct(l)
    ensures Distinct(Without(l, t)) && t !in Without(l, t)
  {
    WithoutMembers(l, t);
    if exists i :: 0 <= i < |l| && l[i] == t {
      var i :| 0 <= i < |l| && l[i] == t;
      WithoutAt(l, i);
    } else {
      WithoutAbsent(l, t);
    }
  }

  lemma {:induction false} StackDistinct(trace: seq<nat>)
    ensures Distinct(Stack(trace))
    ensures forall t :: t in Stack(trace) <==> t in trace
  {
    if trace != [] {
      var n := |trace| - 1;
      StackDistinct(trace[..n]);
      WithoutDistinct(Stack(trace[..n]), trace[n]);
      WithoutMembers(Stack(trace[..n]), trace[n]);
      assert trace == trace[..n] + [trace[n]];
    }
  }

  /** When t was last used (its largest position in the trace). */
  function LastUse(trace: seq<nat>, t: nat): int {
    if trace == [] then -1 else if trace[|trace| - 1] == t then |trace| - 1 else LastUse(trace[..|trace| - 1], t)
  }

  lemma {:induction false} LastUseBound(trace: seq<nat>, t: nat)
    ensures -1 <= LastUse(trace, t) < |trace|
    ensures LastUse(trace, t) >= 0 ==> trace[LastUse(trace, t)] == t
  {
    if trace != [] { LastUseBound(trace[..|trace| - 1], t); }
  }

  /** The stack really is ordered by recency: earlier in the list means used later. */
  lemma {:induction false} StackByRecency(trace: seq<nat>, i: nat, j: nat)
    requires i < j < |Stack(trace)|
    ensures LastUse(trace, Stack(trace)[i]) > LastUse(trace, Stack(trace)[j])
  {
    var n := |trace| - 1;
    var prev := trace[..n];
    var t := trace[n];
    var l := Stack(prev);
    StackDistinct(prev);
    StackDistinct(trace);
    LastUseBound(prev, Stack(trace)[j]);
    if i > 0 {
      var p, q := WithoutOrder(l, t, i - 1, j - 1);
      StackByRecency(prev, p, q);
      assert Stack(trace)[0] == t && Stack(trace)[i] == l[p] && Stack(trace)[j] == l[q];
    }
  }

  /** Removing an element keeps the others in order. */
  lemma WithoutOrder(l: seq<nat>, t: nat, i: nat, j: nat) returns (p: nat, q: nat)
    requires Distinct(l) && i < j < |Without(l, t)|
    ensures p < q < |l| && l[p] == Without(l, t)[i] && l[q] == Without(l, t)[j]
  {
    if t in l {
      var k :| 0 <= k < |l| && l[k] == t;
      WithoutAt(l, k);
      p := if i < k then i else i + 1;
      q := if j < k then j else j + 1;
    } else {
      WithoutAbsent(l, t);
      p, q := i, j;
    }
  }

  // ---- What a set of a given associativity holds ------------------------------------------

  /** The `assoc` most recently used distinct tags. */
  function Resident(trace: seq<nat>, assoc: nat): seq<nat> { Stack(trace)[..Min(assoc, |Stack(trace)|)] }

  /** Stack inclusion. */
  lemma Inclusion(trace: seq<nat>, a: nat, b: nat)
    requires a <= b
    ensures Resident(trace, a) <= Resident(trace, b)
    ensures forall t :: t in Resident(trace, a) ==> t in Resident(trace, b)
  {
    hide Stack;
    var x, y := Resident(trace, a), Resident(trace, b);
    assert x == y[..|x|];
    forall t | t in x ensures t in y {
      var i :| 0 <= i < |x| && x[i] == t;
      assert y[i] == t;
    }
  }
}
