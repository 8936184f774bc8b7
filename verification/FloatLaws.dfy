/** What "correctly rounded" buys: the result is the nearest (or the next, in the directed modes)
    of ALL the format's numbers, and the sign, magnitude, mode and format determine the bits and
    the flags. */
module FloatLaws {
  import opened Powers
  import opened Ieee754
  import opened Rounding
  import opened SoftFloat
  import opened FloatOps

  // ---- Binades are disjoint ---------------------------------------------------------------

  lemma BinadeUnique(x: real, e1: int, e2: int)
    requires InBinade(x, e1) && InBinade(x, e2)
    ensures e1 == e2
  {
    hide Scale;
    ScaleOneOrder(e1, e2 + 1);
    ScaleOneOrder(e2, e1 + 1);
  }

  // ---- Patterns are determined by sign and magnitude --------------------------------------

  lemma SameFields(f: Format, a: nat, b: nat)
    requires Significand(f, a) == Significand(f, b) && LastPlace(f, a) == LastPlace(f, b)
    ensures ExpField(f, a) == ExpField(f, b) && FracField(f, a) == FracField(f, b)
  {
    hide Shl, Shr, Low, ExpField, FracField;
    FracIsWord(f, a);
    FracIsWord(f, b);
  }

  lemma SameBits(f: Format, a: nat, b: nat)
    requires a < Pow2(f.width) && b < Pow2(f.width)
    requires SignOf(f, a) == SignOf(f, b) && ExpField(f, a) == ExpField(f, b) && FracField(f, a) == FracField(f, b)
    ensures a == b
  {
    hide Shl, Shr, Low, SignOf, ExpField, FracField;
    Assemble(f, a);
    Assemble(f, b);
  }

  lemma MagnitudeInjective(f: Format, a: nat, b: nat)
    requires a < Pow2(f.width) && b < Pow2(f.width) && IsFinite(f, a) && IsFinite(f, b)
    requires SignOf(f, a) == SignOf(f, b) && Magnitude(f, a) == Magnitude(f, b)
    ensures a == b
  {
    hide Shl, Shr, Low, Scale, SignOf, ExpField, FracField, Significand, LastPlace, IsFinite, InBinade, IsZero;
    if IsZero(f, a) || IsZero(f, b) {
      BothZero(f, a, b);
    } else {
      var e1 := OwnQuantum(f, a);
      var e2 := OwnQuantum(f, b);
      BinadeUnique(Magnitude(f, a), e1, e2);
      ScaleOrder(Significand(f, a) as real, Significand(f, b) as real, LastPlace(f, a));
      SameFields(f, a, b);
    }
    SameBits(f, a, b);
  }

  lemma BothZero(f: Format, a: nat, b: nat)
    requires a < Pow2(f.width) && b < Pow2(f.width) && IsFinite(f, a) && IsFinite(f, b)
    requires Magnitude(f, a) == Magnitude(f, b) && (IsZero(f, a) || IsZero(f, b))
    ensures ExpField(f, a) == ExpField(f, b) && FracField(f, a) == FracField(f, b)
  {
    hide Shl, Shr, Low, Scale, Magnitude;
    if IsZero(f, a) {
      ZeroMagnitude(f, a);
      if !IsZero(f, b) { UnpackFinite(f, b); }
    } else {
      ZeroMagnitude(f, b);
      UnpackFinite(f, a);
    }
  }

  /** A number has exactly one correct rounding: bits and flags alike. */
  lemma RoundingUnique(f: Format, sign: bool, x: real, rm: RoundingMode, b1: nat, r1: Flags, b2: nat, r2: Flags)
    requires CorrectlyRounded(f, sign, x, rm, b1, r1) && CorrectlyRounded(f, sign, x, rm, b2, r2)
    ensures b1 == b2 && r1 == r2
  {
    hide Shl, Shr, Low, Scale, SignOf, IsFinite, Magnitude, InBinade, RoundInt, InfBits, MaxFiniteBits, TinyAfterRounding;
    var e1 :| InBinade(x, e1) && RoundedAt(f, sign, x, e1, rm, b1, r1);
    var e2 :| InBinade(x, e2) && RoundedAt(f, sign, x, e2, rm, b2, r2);
    BinadeUnique(x, e1, e2);
    var q := Quantum(f, e1);
    if Scale(RoundInt(Scale(x, -q), sign, rm) as real, q) < Scale(1.0, EMax(f) + 1) {
      MagnitudeInjective(f, b1, b2);
    }
  }

  // ---- Nearest among all the format's numbers ---------------------------------------------

  predicate TowardZero(sign: bool, rm: RoundingMode) { rm == RTZ || rm == (if sign then RUP else RDN) }
  predicate AwayFromZero(sign: bool, rm: RoundingMode) { rm == (if sign then RDN else RUP) }

  function Distance(x: real, y: real): real { if x < y then y - x else x - y }

  /** In units of the quantum, another number of the format is either an integer, or lies below
      the integer 2^mantbits, which is itself at most z. */
  predicate OffGrid(f: Format, w: real, z: real) { w < Pow2(f.mantbits) as real <= z }
  predicate OnGrid(w: real) { w == w.Floor as real }

  lemma GridCases(f: Format, x: real, e: int, w: nat)
    requires InBinade(x, e) && w < Pow2(f.width) && IsFinite(f, w)
    ensures var q := Quantum(f, e);
            OnGrid(Scale(Magnitude(f, w), -q)) || OffGrid(f, Scale(Magnitude(f, w), -q), Scale(x, -q))
  {
    hide Shl, Shr, Low, Scale, IsFinite;
    var q, m, p := Quantum(f, e), Significand(f, w), LastPlace(f, w);
    ScaleScale(m as real, p, 0 - q);
    if p >= q {
      ScaleNat(m, p - q);
      FloorOfNat(Shl(m, p - q));
    } else {
      var M := f.mantbits;
      SignificandBelow(f, w);
      LastPlaceAtLeast(f, w);
      ScaleBelowPow(m, M + 1, p);
      ScaleOneOrder(q + M, M + 1 + p);
      Unscale(Magnitude(f, w), q, Pow2(M));
      Unscale(x, q, Pow2(M));
      ScalePow(M, q);
    }
  }

  lemma FloorOfNat(n: nat)
    ensures OnGrid(n as real)
  {
  }

  lemma SignificandBelow(f: Format, w: nat)
    ensures Significand(f, w) < Pow2(f.mantbits + 1)
  {
    hide Shl, Shr, Low, ExpField, FracField;
    FracIsWord(f, w);
    PowDouble(f.mantbits);
  }

  /** In units of the quantum: a directed mode leaves no number of the format strictly between. */
  lemma DirectedBest(f: Format, z: real, w: real, sign: bool, rm: RoundingMode)
    requires z >= 0.0 && (OnGrid(w) || OffGrid(f, w, z))
    ensures var n := RoundInt(z, sign, rm) as real;
            && (TowardZero(sign, rm) ==> n <= z && (w <= z ==> w <= n))
            && (AwayFromZero(sign, rm) ==> z <= n && (z <= w ==> n <= w))
  {
    hide Pow2;
    if OffGrid(f, w, z) { assert Pow2(f.mantbits) <= z.Floor; }
  }

  /** In units of the quantum: a nearest mode is beaten by no number of the format. */
  lemma NearestBest(f: Format, z: real, w: real, sign: bool, rm: RoundingMode)
    requires z >= 0.0 && (OnGrid(w) || OffGrid(f, w, z)) && (rm == RNE || rm == RMM)
    ensures Distance(RoundInt(z, sign, rm) as real, z) <= Distance(w, z)
  {
    hide Pow2, RoundInt, OnGrid, OffGrid;
    NearerThanFloor(z, sign, rm);
    if OnGrid(w) {
      assert w == w.Floor as real by { GridPoint(w); }
      FloorOrCeiling(z, w.Floor);
    } else {
      BelowFloor(f, w, z);
    }
  }

  lemma GridPoint(w: real)
    requires OnGrid(w)
    ensures w == w.Floor as real
  {
  }

  lemma BelowFloor(f: Format, w: real, z: real)
    requires OffGrid(f, w, z)
    ensures Distance(z.Floor as real, z) <= Distance(w, z)
  {
    hide Pow2;
    assert Pow2(f.mantbits) <= z.Floor;
  }

  lemma NearerThanFloor(z: real, sign: bool, rm: RoundingMode)
    requires z >= 0.0 && (rm == RNE || rm == RMM)
    ensures Distance(RoundInt(z, sign, rm) as real, z) <= Distance(z.Floor as real, z)
    ensures Distance(RoundInt(z, sign, rm) as real, z) <= Distance((z.Floor + 1) as real, z)
  {
  }

  lemma FloorOrCeiling(z: real, k: int)
    ensures Distance(z.Floor as real, z) <= Distance(k as real, z) || Distance((z.Floor + 1) as real, z) <= Distance(k as real, z)
  {
    var n := z.Floor;
    if k <= n { IntOrder(k, n); } else { IntOrder(n + 1, k); }
  }

  lemma IntOrder(a: int, b: int)
    requires a <= b
    ensures a as real <= b as real
  {
  }

  lemma ScaleDistance(x: real, y: real, q: int)
    ensures Distance(Scale(x, q), Scale(y, q)) == Scale(Distance(x, y), q)
  {
    hide Scale;
    ScaleOrder(x, y, q);
    ScaleAdd(Distance(x, y), if x < y then x else y, q);
  }

  lemma ScaleBack(x: real, q: int)
    ensures Scale(Scale(x, -q), q) == x
  {
    ScaleScale(x, -q, q);
  }

  /** The rounded result is the best of all the format's finite numbers: no finite number w lies
      strictly between it and x in a directed mode, and none is closer to x in a nearest mode. */
  lemma RoundedIsBest(f: Format, sign: bool, x: real, rm: RoundingMode, bits: nat, raised: Flags, w: nat)
    requires CorrectlyRounded(f, sign, x, rm, bits, raised) && !raised.of
    requires w < Pow2(f.width) && IsFinite(f, w)
    ensures IsFinite(f, bits)
    ensures TowardZero(sign, rm) ==>
              Magnitude(f, bits) <= x && (Magnitude(f, w) <= x ==> Magnitude(f, w) <= Magnitude(f, bits))
    ensures AwayFromZero(sign, rm) ==>
              x <= Magnitude(f, bits) && (x <= Magnitude(f, w) ==> Magnitude(f, bits) <= Magnitude(f, w))
    ensures rm == RNE || rm == RMM ==> Distance(Magnitude(f, bits), x) <= Distance(Magnitude(f, w), x)
  {
    hide Shl, Scale, SignOf, IsFinite, Magnitude, RoundInt, InfBits, MaxFiniteBits, TinyAfterRounding, OnGrid, OffGrid, Distance;
    var e :| InBinade(x, e) && RoundedAt(f, sign, x, e, rm, bits, raised);
    var q := Quantum(f, e);
    var z, v := Scale(x, -q), Scale(Magnitude(f, w), -q);
    var n := RoundInt(z, sign, rm) as real;
    GridCases(f, x, e, w);
    ScalePositive(1.0, e);
    ScalePositive(x, -q);
    DirectedBest(f, z, v, sign, rm);
    if rm == RNE || rm == RMM { NearestBest(f, z, v, sign, rm); }
    ScaleBack(x, q);
    ScaleBack(Magnitude(f, w), q);
    BestScaled(n, z, v, q);
  }

  /** Orders and distances survive scaling. */
  lemma BestScaled(n: real, z: real, v: real, q: int)
    ensures n <= z <==> Scale(n, q) <= Scale(z, q)
    ensures v <= z <==> Scale(v, q) <= Scale(z, q)
    ensures v <= n <==> Scale(v, q) <= Scale(n, q)
    ensures z <= v <==> Scale(z, q) <= Scale(v, q)
    ensures z <= n <==> Scale(z, q) <= Scale(n, q)
    ensures n <= v <==> Scale(n, q) <= Scale(v, q)
    ensures Distance(n, z) <= Distance(v, z) <==> Distance(Scale(n, q), Scale(z, q)) <= Distance(Scale(v, q), Scale(z, q))
  {
    hide Scale, Distance;
    ScaleOrder(z, n, q);
    ScaleOrder(n, z, q);
    ScaleOrder(z, v, q);
    ScaleOrder(v, z, q);
    ScaleOrder(n, v, q);
    ScaleOrder(v, n, q);
    ScaleDistance(n, z, q);
    ScaleDistance(v, z, q);
    ScaleOrder(Distance(v, z), Distance(n, z), q);
  }
}
