/** The round-and-pack step (softfloat.c: srjam64, roundpack) and the proof that it rounds
    correctly.  The argument runs through one relation: a significand word `s` AGREES with an
    exact real z at granularity 2^g when the two compare alike with every multiple of 2^g. */
module Rounding {
  import opened Powers
  import opened Ieee754

  datatype Packed = Packed(bits: nat, flags: Flags)

  /** Number of round bits kept below the fraction, and where the leading one is aligned. */
  function RoundBits(f: Format): nat { if f.width == 32 then 7 else 10 }
  function LeadPos(f: Format): nat { if f.width == 32 then 30 else 62 }

  lemma FormatFacts(f: Format)
    ensures LeadPos(f) == f.mantbits + RoundBits(f)
    ensures f.width == LeadPos(f) + 2 == f.mantbits + f.expbits + 1
    ensures AllOnes(f) == 2 * f.bias + 1
    ensures Pow2(f.expbits) == AllOnes(f) + 1
    ensures RoundBits(f) >= 2 && f.mantbits >= 23 && f.bias >= 127 && 32 <= f.width <= 64
  {
    Pow2Values();
  }

  /** Shift right by dist, jamming any lost bits into bit 0. */
  function Srjam64(a: nat, dist: nat): nat {
    if dist == 0 then a
    else if dist >= 64 then (if a != 0 then 1 else 0)
    else
      var r := Shr(a, dist);
      if Low(a, dist) != 0 && r % 2 == 0 then r + 1 else r
  }

  function RoundInc(f: Format, sign: bool, rm: RoundingMode): nat {
    if rm == RNE || rm == RMM then Pow2(RoundBits(f) - 1)
    else if rm == (if sign then RDN else RUP) then (if f.width == 32 then 0x7f else 0x3ff)
    else 0
  }

  /** The significand left after adding the increment, dropping the round bits and breaking a
      tie to even. */
  function RoundedSig(f: Format, sign: bool, rm: RoundingMode, sigp: nat): nat {
    var sig := Shr(sigp + RoundInc(f, sign, rm), RoundBits(f));
    if rm == RNE && Low(sigp, RoundBits(f)) == Pow2(RoundBits(f) - 1) then sig - sig % 2 else sig
  }

  /** The common tail of roundpack: round, then add sign, exponent and significand. */
  function RoundAndAdd(f: Format, sign: bool, exp: nat, sigp: nat, rm: RoundingMode, flags: Flags): Packed {
    var sig := RoundedSig(f, sign, rm, sigp);
    var exp := if sig == 0 then 0 else exp;
    Packed((if sign then Pow2(f.width - 1) else 0) + Shl(exp, f.mantbits) + sig,
           if Low(sigp, RoundBits(f)) != 0 then flags.(nx := true) else flags)
  }

  function RoundPack(f: Format, sign: bool, exp: int, sigp: nat, rm: RoundingMode, flags: Flags): Packed {
    var inc := RoundInc(f, sign, rm);
    var infExp := AllOnes(f);
    var overflowBit := Pow2(f.width - 1);
    if exp < 0 then
      var isTiny := exp < -1 || sigp + inc < overflowBit;
      var jammed := Srjam64(sigp, -exp);
      RoundAndAdd(f, sign, 0, jammed, rm,
                  if isTiny && Low(jammed, RoundBits(f)) != 0 then flags.(uf := true) else flags)
    else if exp >= infExp - 2 && (exp > infExp - 2 || sigp + inc >= overflowBit) then
      Packed(if inc != 0 then InfBits(f, sign) else MaxFiniteBits(f, sign), flags.(of := true, nx := true))
    else
      RoundAndAdd(f, sign, exp, sigp, rm, flags)
  }

  // ---- Agreement at granularity 2^g -------------------------------------------------------

  /** s and z lie in the same place relative to the multiples of 2^g. */
  predicate Agrees(z: real, s: nat, g: nat) {
    if Low(s, g) == 0 then z == s as real
    else Shl(Shr(s, g), g) as real < z < Shl(Shr(s, g) + 1, g) as real
  }

  lemma AgreesAtMultiple(z: real, s: nat, g: nat, m: nat)
    requires Agrees(z, s, g)
    ensures s < Shl(m, g) <==> z < Shl(m, g) as real
    ensures s == Shl(m, g) <==> z == Shl(m, g) as real
  {
    hide Shl, Shr, Low;
    var k := Shr(s, g);
    ShiftSplit(s, g);
    ShlOrder(k, m, g);
    ShlOrder(m, k + 1, g);
    ShlAdd(k, 1, g);
  }

  /** Agreement is enough to know the floor, and whether it is exact, in units of 2^g. */
  lemma AgreesFloor(z: real, s: nat, g: nat)
    requires Agrees(z, s, g)
    ensures Scale(z, 0 - g).Floor == Shr(s, g)
    ensures Scale(z, 0 - g) == Shr(s, g) as real <==> Low(s, g) == 0
  {
    hide Shl, Shr, Low, Scale;
    var k := Shr(s, g);
    var w := Scale(z, 0 - g);
    assert Scale(w, g) == z by { ScaleScale(z, 0 - g, g); assert Scale(z, 0) == z by { ScaleUnit(z); } }
    ShiftSplit(s, g);
    ScaleNat(k, g);
    ScaleNat(k + 1, g);
    ScaleOrder(w, k as real, g);
    ScaleOrder(w, (k + 1) as real, g);
  }

  lemma ScaleUnit(z: real)
    ensures Scale(z, 0) == z
  {
  }

  // ---- Rounding a number known to the half unit -------------------------------------------

  /** RoundInt of y, where floor(2y) == k and `exact` says whether 2y == k. */
  function RoundHalves(k: nat, exact: bool, sign: bool, rm: RoundingMode): nat {
    var n := k / 2;
    match rm
    case RNE => if k % 2 == 1 && (!exact || n % 2 == 1) then n + 1 else n
    case RTZ => n
    case RDN => if sign && !(exact && k % 2 == 0) then n + 1 else n
    case RUP => if !sign && !(exact && k % 2 == 0) then n + 1 else n
    case RMM => if k % 2 == 1 then n + 1 else n
  }

  lemma RoundIntFromHalves(w: real, k: nat, sign: bool, rm: RoundingMode)
    requires w.Floor == k
    ensures RoundInt(w / 2.0, sign, rm) == RoundHalves(k, w == k as real, sign, rm)
    ensures RoundInt(w / 2.0, sign, rm) as real == w / 2.0 <==> w == k as real && k % 2 == 0
  {
    var y := w / 2.0;
    assert k == 2 * (k / 2) + k % 2;
    assert y.Floor == k / 2;
  }

  lemma LowZero(s: nat, R: nat)
    requires R > 0
    ensures Low(s, R) == 0 <==> Low(s, R - 1) == 0 && Shr(s, R - 1) % 2 == 0
  {
    LowStep(s, R);
    Pow2Positive(R - 1);
  }

  lemma RoundedSigIsRoundHalves(f: Format, sign: bool, rm: RoundingMode, s: nat)
    ensures RoundedSig(f, sign, rm, s)
         == RoundHalves(Shr(s, RoundBits(f) - 1), Low(s, RoundBits(f) - 1) == 0, sign, rm)
  {
    hide Shl, Shr, Low, Pow2;
    var R := RoundBits(f);
    LowStep(s, R);
    LowZero(s, R);
    AddHalf(s, R);
    AddMask(s, R);
    MaskValue(f);
  }

  lemma MaskValue(f: Format)
    ensures (if f.width == 32 then 0x7f else 0x3ff) == Pow2(RoundBits(f)) - 1
  {
    assert Pow2(7) == 128;
    Pow2Values();
  }

  lemma LowStep(s: nat, R: nat)
    requires R > 0
    ensures Shr(s, R) == Shr(s, R - 1) / 2
    ensures Low(s, R) == Low(s, R - 1) + (if Shr(s, R - 1) % 2 == 1 then Pow2(R - 1) else 0)
    ensures Low(s, R - 1) < Pow2(R - 1)
  {
    ShiftSplit(s, R - 1);
    ShlZero(R - 1);
  }

  lemma AddHalf(s: nat, R: nat)
    requires R > 0
    ensures Shr(s + Pow2(R - 1), R) == (Shr(s, R - 1) + 1) / 2
  {
    var g := R - 1;
    ShiftSplit(s, g);
    ShlAdd(Shr(s, g), 1, g);
    ShrUnique(s + Pow2(g), g, Shr(s, g) + 1, Low(s, g));
  }

  lemma AddMask(s: nat, R: nat)
    ensures Pow2(R) >= 1
    ensures Shr(s + (Pow2(R) - 1), R) == if Low(s, R) == 0 then Shr(s, R) else Shr(s, R) + 1
  {
    hide Shl, Shr, Low;
    Pow2Positive(R);
    ShiftSplit(s, R);
    if Low(s, R) == 0 {
      ShrUnique(s + (Pow2(R) - 1), R, Shr(s, R), Pow2(R) - 1);
    } else {
      ShlAdd(Shr(s, R), 1, R);
      ShrUnique(s + (Pow2(R) - 1), R, Shr(s, R) + 1, Low(s, R) - 1);
    }
  }

  /** If s agrees with z to the half place, rounding the word rounds the number. */
  lemma RoundedSigCorrect(f: Format, sign: bool, rm: RoundingMode, z: real, s: nat)
    requires Agrees(z, s, RoundBits(f) - 1)
    ensures RoundInt(Scale(z, 0 - RoundBits(f)), sign, rm) == RoundedSig(f, sign, rm, s)
    ensures Scale(z, 0 - RoundBits(f)) == RoundedSig(f, sign, rm, s) as real <==> Low(s, RoundBits(f)) == 0
  {
    hide Shl, Shr, Low, RoundedSig, RoundInt, RoundHalves, Agrees;
    var g := RoundBits(f) - 1;
    var w := Scale(z, 0 - g);
    AgreesFloor(z, s, g);
    RoundIntFromHalves(w, Shr(s, g), sign, rm);
    RoundedSigIsRoundHalves(f, sign, rm, s);
    LowZero(s, RoundBits(f));
    assert Scale(z, 0 - RoundBits(f)) == w / 2.0 by { ScaleStep(z, 0 - RoundBits(f)); }
  }

  // ---- Jamming keeps agreement ------------------------------------------------------------

  lemma JamCompare(s: nat, d: nat, c: nat)
    requires s < Pow2(64) && c % 2 == 0
    ensures Srjam64(s, d) < c <==> s < Shl(c, d)
    ensures Srjam64(s, d) == c <==> s == Shl(c, d)
  {
    if d == 0 {
    } else if d >= 64 {
      ShlZero(d);
      if c > 0 {
        ShlOrder(1, c, d);
        Pow2Mono(64, d);
      }
    } else {
      ShrBelow(s, d, c);
      ShrBelow(s, d, c + 1);
      ShlAdd(c, 1, d);
      ShiftSplit(s, d);
    }
  }

  /** How z/2^d compares with an even multiple, read off from how s compares. */
  lemma ScaledCompare(z: real, s: nat, g: nat, d: nat, m: nat)
    requires Agrees(z, s, g)
    ensures s < Shl(Shl(m, g), d) <==> Scale(z, 0 - d) < Shl(m, g) as real
    ensures s == Shl(Shl(m, g), d) <==> Scale(z, 0 - d) == Shl(m, g) as real
  {
    hide Shl, Scale, Agrees;
    var c := Shl(m, g);
    var w := Scale(z, 0 - d);
    assert Scale(w, d) == z by { ScaleScale(z, 0 - d, d); ScaleUnit(z); }
    assert Shl(c, d) == Shl(Shl(m, d), g) by { ShlShl(m, g, d); ShlShl(m, d, g); }
    AgreesAtMultiple(z, s, g, Shl(m, d));
    ScaleNat(c, d);
    ScaleOrder(w, c as real, d);
  }

  lemma JamAgrees(z: real, s: nat, g: nat, d: nat)
    requires Agrees(z, s, g) && g >= 1 && s < Pow2(64)
    ensures Agrees(Scale(z, 0 - d), Srjam64(s, d), g)
  {
    hide Shl, Shr, Low, Scale, Srjam64;
    var s' := Srjam64(s, d);
    var m := Shr(s', g);
    ShiftSplit(s', g);
    ShlAdd(m, 1, g);
    ShlEven(m, g);
    ShlEven(m + 1, g);
    JamCompare(s, d, Shl(m, g));
    JamCompare(s, d, Shl(m + 1, g));
    ScaledCompare(z, s, g, d, m);
    ScaledCompare(z, s, g, d, m + 1);
  }

  // ---- The additive pack ------------------------------------------------------------------

  lemma Fields(f: Format, sign: bool, field: nat, frac: nat)
    requires field <= AllOnes(f) && frac < Pow2(f.mantbits)
    ensures var bits := (if sign then Pow2(f.width - 1) else 0) + Shl(field, f.mantbits) + frac;
            && bits < Pow2(f.width)
            && SignOf(f, bits) == sign && ExpField(f, bits) == field && FracField(f, bits) == frac
  {
    hide Shl, Shr, Low, Pow2;
    var M, E := f.mantbits, f.expbits;
    var s: nat := if sign then 1 else 0;
    var top := Shl(s, E) + field;
    var bits := (if sign then Pow2(f.width - 1) else 0) + Shl(field, M) + frac;
    FormatFacts(f);
    assert Shl(Shl(s, E), M) == Shl(s, E + M) by { ShlShl(s, E, M); }
    assert Shl(s, E + M) == if sign then Pow2(f.width - 1) else 0 by { ShlZero(E + M); PowIsShl(E + M); }
    ShlAdd(Shl(s, E), field, M);
    assert bits == Shl(top, M) + frac;
    ShrUnique(bits, M, top, frac);
    ShrUnique(top, E, s, field);
    ShrShr(bits, M, E);
    SignTop(f, s, field, frac, top);
  }

  lemma PowIsShl(n: nat)
    ensures Pow2(n) == Shl(1, n)
  {
  }

  lemma SignTop(f: Format, s: nat, field: nat, frac: nat, top: nat)
    requires s <= 1 && field <= AllOnes(f) && frac < Pow2(f.mantbits) && top == Shl(s, f.expbits) + field
    ensures Shl(top, f.mantbits) + frac < Pow2(f.width)
  {
    hide Shl, Shr, Low, Pow2;
    FormatFacts(f);
    PowIsShl(f.expbits);
    PowIsShl(f.mantbits);
    ShlOrder(1, s, f.expbits);
    assert top + 1 <= Shl(1, f.expbits) + Shl(1, f.expbits);
    ShlAdd(1, 1, f.expbits);
    ShlShl(2, f.expbits, f.mantbits);
    ShlOrder(Shl(2, f.expbits), top + 1, f.mantbits);
    ShlAdd(top, 1, f.mantbits);
    DoublePow(f.width - 1);
  }

  lemma DoublePow(n: nat)
    ensures Shl(2, n) == Pow2(n + 1)
  {
    ShlShl(1, 1, n);
    assert Shl(1, 1) == 2;
  }

  /** One addition packs all three shapes: a subnormal, a normal whose leading one is the
      implicit bit, and a rounding carry that becomes the next binade's least number. */
  lemma PackValue(f: Format, sign: bool, exp: nat, sig: nat)
    requires sig <= Pow2(f.mantbits + 1)
    requires exp == 0 || sig >= Pow2(f.mantbits)
    requires exp + 1 < AllOnes(f) && (sig == Pow2(f.mantbits + 1) ==> exp + 2 < AllOnes(f))
    ensures var bits := (if sign then Pow2(f.width - 1) else 0) + Shl(exp, f.mantbits) + sig;
            && bits < Pow2(f.width) && IsFinite(f, bits) && SignOf(f, bits) == sign
            && Magnitude(f, bits) == Scale(sig as real, QMin(f) + exp)
  {
    hide Shl, Shr, Low, Scale, SignOf, ExpField, FracField;
    var M := f.mantbits;
    PowIsShl(M);
    DoublePow(M);
    ShlAdd(1, 1, M);
    if sig < Pow2(M) {
      Fields(f, sign, exp, sig);
    } else if sig < Pow2(M + 1) {
      ShlAdd(exp, 1, M);
      Fields(f, sign, exp + 1, sig - Pow2(M));
    } else {
      ShlAdd(exp, 2, M);
      Pow2Positive(M);
      Fields(f, sign, exp + 2, 0);
      ScaleStep(Pow2(M) as real, QMin(f) + exp);
      ScaleDouble(Pow2(M) as real, QMin(f) + exp);
    }
  }

  // ---- Bounds on the rounded significand --------------------------------------------------

  lemma IncBelow(f: Format, sign: bool, rm: RoundingMode)
    ensures RoundInc(f, sign, rm) < Pow2(RoundBits(f))
    ensures RoundInc(f, sign, rm) != 0 <==> OverflowsToInf(sign, rm)
  {
    MaskValue(f);
    Pow2Positive(RoundBits(f) - 1);
  }

  /** Reaching an even significand is decided by the carry out of the addition. */
  lemma SigReaches(f: Format, sign: bool, rm: RoundingMode, s: nat, c: nat)
    requires c % 2 == 0
    ensures RoundedSig(f, sign, rm, s) >= c <==> s + RoundInc(f, sign, rm) >= Shl(c, RoundBits(f))
  {
    hide Shl, Shr, Low, RoundInc;
    ShrBelow(s + RoundInc(f, sign, rm), RoundBits(f), c);
  }

  lemma SigAtMost(f: Format, sign: bool, rm: RoundingMode, s: nat, c: nat)
    requires s < Shl(c, RoundBits(f))
    ensures RoundedSig(f, sign, rm, s) <= c
  {
    hide Shl, Shr, Low, RoundInc;
    var R := RoundBits(f);
    IncBelow(f, sign, rm);
    ShlAdd(c, 1, R);
    ShrBelow(s + RoundInc(f, sign, rm), R, c + 1);
  }

  lemma PowShift(f: Format, k: nat)
    ensures Shl(Pow2(f.mantbits + k), RoundBits(f)) == Pow2(LeadPos(f) + k)
    ensures Pow2(f.mantbits + k) % 2 == 0
  {
    FormatFacts(f);
    ShlShl(1, f.mantbits + k, RoundBits(f));
    ShlEven(1, f.mantbits + k);
  }

  /** A normalised word rounds to a significand in [2^mantbits, 2^(mantbits+1)], and reaches
      the upper end exactly on carry-out. */
  lemma NormalSigBounds(f: Format, sign: bool, rm: RoundingMode, s: nat)
    requires Pow2(LeadPos(f)) <= s < Pow2(LeadPos(f) + 1)
    ensures Pow2(f.mantbits) <= RoundedSig(f, sign, rm, s) <= Pow2(f.mantbits + 1)
    ensures RoundedSig(f, sign, rm, s) == Pow2(f.mantbits + 1) <==> s + RoundInc(f, sign, rm) >= Pow2(f.width - 1)
  {
    hide Shl, Shr, Low, Pow2, RoundedSig, RoundInc;
    FormatFacts(f);
    PowShift(f, 0);
    PowShift(f, 1);
    SigReaches(f, sign, rm, s, Pow2(f.mantbits));
    SigReaches(f, sign, rm, s, Pow2(f.mantbits + 1));
    SigAtMost(f, sign, rm, s, Pow2(f.mantbits + 1));
  }

  lemma ScalePow(k: nat, q: int)
    ensures Scale(Pow2(k) as real, q) == Scale(1.0, k + q)
  {
    ScaleNat(1, k);
    ScaleScale(1.0, k, q);
  }

  lemma ScaleBelowPow(n: nat, k: nat, q: int)
    ensures n <= Pow2(k) <==> Scale(n as real, q) <= Scale(1.0, k + q)
    ensures n < Pow2(k) <==> Scale(n as real, q) < Scale(1.0, k + q)
  {
    hide Scale, Pow2;
    ScalePow(k, q);
    ScaleOrder(n as real, Pow2(k) as real, q);
  }

  lemma ScaleOneOrder(a: int, b: int)
    ensures a < b <==> Scale(1.0, a) < Scale(1.0, b)
  {
    ScalePositive(1.0, a);
    ScalePositive(1.0, b);
    ScaleStep(1.0, a);
    ScaleStep(1.0, b);
    if a < b { ScaleExponentMono(1.0, a + 1, b); } else { ScaleExponentMono(1.0, b, a); }
  }

  // ---- Round-and-pack is correct ----------------------------------------------------------

  /** The number being packed: sign, binade e, exact magnitude x = y * 2^(e - LeadPos), where the
      normalised word sigp agrees with y to half a place. */
  predicate Aligned(f: Format, x: real, e: int, y: real, sigp: nat) {
    && Pow2(LeadPos(f)) <= sigp < Pow2(LeadPos(f) + 1)
    && Agrees(y, sigp, RoundBits(f) - 1)
    && x == Scale(y, e - LeadPos(f))
  }

  lemma AlignedBinade(f: Format, x: real, e: int, y: real, sigp: nat)
    requires Aligned(f, x, e, y, sigp)
    ensures InBinade(x, e)
  {
    hide Shl, Scale, Agrees;
    var L, g := LeadPos(f), RoundBits(f) - 1;
    FormatFacts(f);
    ShlShl(1, L - g, g);
    ShlShl(1, L + 1 - g, g);
    AgreesAtMultiple(y, sigp, g, Shl(1, L - g));
    AgreesAtMultiple(y, sigp, g, Shl(1, L + 1 - g));
    ScalePow(L, e - L);
    ScalePow(L + 1, e - L);
    ScaleOrder(y, Pow2(L) as real, e - L);
    ScaleOrder(y, Pow2(L + 1) as real, e - L);
  }

  /** Rounding at full precision, whatever the exponent. */
  lemma UnboundedRounding(f: Format, sign: bool, x: real, e: int, y: real, sigp: nat, rm: RoundingMode)
    requires Aligned(f, x, e, y, sigp)
    ensures RoundInt(Scale(x, f.mantbits - e), sign, rm) == RoundedSig(f, sign, rm, sigp)
    ensures Scale(x, f.mantbits - e) == RoundedSig(f, sign, rm, sigp) as real <==> Low(sigp, RoundBits(f)) == 0
  {
    hide Shl, Scale, Agrees, RoundInt, RoundedSig;
    FormatFacts(f);
    ScaleScale(y, e - LeadPos(f), f.mantbits - e);
    RoundedSigCorrect(f, sign, rm, y, sigp);
  }

  lemma OverflowCase(f: Format, sign: bool, x: real, e: int, y: real, sigp: nat, rm: RoundingMode)
    requires Aligned(f, x, e, y, sigp)
    requires e > EMax(f) || (e == EMax(f) && sigp + RoundInc(f, sign, rm) >= Pow2(f.width - 1))
    ensures RoundedAt(f, sign, x, e, rm,
                      if RoundInc(f, sign, rm) != 0 then InfBits(f, sign) else MaxFiniteBits(f, sign),
                      NoFlags.(of := true, nx := true))
  {
    hide Shl, Scale, Low, Pow2, Agrees, RoundInt, RoundedSig, RoundInc, InfBits, MaxFiniteBits;
    var M := f.mantbits;
    var n := RoundedSig(f, sign, rm, sigp);
    FormatFacts(f);
    IncBelow(f, sign, rm);
    UnboundedRounding(f, sign, x, e, y, sigp, rm);
    NormalSigBounds(f, sign, rm, sigp);
    ScaleBelowPow(n, M, e - M);
    ScaleBelowPow(n, M + 1, e - M);
    ScaleOneOrder(e, EMax(f) + 1);
  }

  lemma NormalCase(f: Format, sign: bool, x: real, e: int, y: real, sigp: nat, rm: RoundingMode)
    requires Aligned(f, x, e, y, sigp)
    requires EMin(f) <= e <= EMax(f)
    requires e == EMax(f) ==> sigp + RoundInc(f, sign, rm) < Pow2(f.width - 1)
    ensures var p := RoundAndAdd(f, sign, e + f.bias - 1, sigp, rm, NoFlags);
            RoundedAt(f, sign, x, e, rm, p.bits, p.flags)
  {
    hide Shl, Scale, Low, Pow2, Agrees, RoundInt, RoundedSig, RoundInc, IsFinite, SignOf, Magnitude;
    var M := f.mantbits;
    var n := RoundedSig(f, sign, rm, sigp);
    FormatFacts(f);
    UnboundedRounding(f, sign, x, e, y, sigp, rm);
    NormalSigBounds(f, sign, rm, sigp);
    Pow2Positive(M);
    PackValue(f, sign, e + f.bias - 1, n);
    NormalNotSpecial(f, n, e);
  }

  lemma NormalNotSpecial(f: Format, n: nat, e: int)
    requires Pow2(f.mantbits) <= n <= Pow2(f.mantbits + 1)
    requires EMin(f) <= e <= EMax(f) && (e == EMax(f) ==> n < Pow2(f.mantbits + 1))
    ensures Scale(1.0, EMin(f)) <= Scale(n as real, e - f.mantbits) < Scale(1.0, EMax(f) + 1)
  {
    hide Scale, Pow2;
    var M := f.mantbits;
    ScaleBelowPow(n, M, e - M);
    ScaleBelowPow(n, M + 1, e - M);
    ScaleOneOrder(e, EMin(f));
    ScaleOneOrder(e + 1, EMax(f) + 1);
    ScaleOneOrder(EMax(f) + 1, e + 1);
  }

  /** The after-rounding tininess test of the subnormal branch is the standard's. */
  lemma TinyTest(f: Format, sign: bool, x: real, e: int, y: real, sigp: nat, rm: RoundingMode)
    requires Aligned(f, x, e, y, sigp) && e < EMin(f)
    ensures TinyAfterRounding(f, sign, x, e, rm)
       <==> e + 1 < EMin(f) || sigp + RoundInc(f, sign, rm) < Pow2(f.width - 1)
  {
    hide Shl, Scale, Low, Pow2, Agrees, RoundInt, RoundedSig, RoundInc;
    var M := f.mantbits;
    var m := RoundedSig(f, sign, rm, sigp);
    FormatFacts(f);
    UnboundedRounding(f, sign, x, e, y, sigp, rm);
    NormalSigBounds(f, sign, rm, sigp);
    ScaleBelowPow(m, M + 1, e - M);
    ScaleOneOrder(e + 1, EMin(f));
  }

  lemma SubnormalRounding(f: Format, sign: bool, x: real, e: int, y: real, sigp: nat, rm: RoundingMode)
    requires Aligned(f, x, e, y, sigp) && e < EMin(f)
    ensures var s := Srjam64(sigp, EMin(f) - e);
            var n := RoundedSig(f, sign, rm, s);
            && n <= Pow2(f.mantbits)
            && RoundInt(Scale(x, 0 - QMin(f)), sign, rm) == n
            && (Scale(x, 0 - QMin(f)) == n as real <==> Low(s, RoundBits(f)) == 0)
  {
    hide Shl, Scale, Low, Pow2, Agrees, RoundInt, RoundedSig, Srjam64;
    var L, M, d := LeadPos(f), f.mantbits, EMin(f) - e;
    var R: int := RoundBits(f);
    var s := Srjam64(sigp, d);
    FormatFacts(f);
    Pow2Mono(L + 1, 64);
    JamAgrees(y, sigp, R - 1, d);
    RoundedSigCorrect(f, sign, rm, Scale(y, 0 - d), s);
    ScaleScale(y, 0 - d, 0 - R);
    ScaleScale(y, e - L, 0 - QMin(f));
    PowShift(f, 0);
    EvenPow(L);
    JamCompare(sigp, d, Pow2(L));
    PowSum(L, d);
    Pow2Mono(L + 1, L + d);
    SigAtMost(f, sign, rm, s, Pow2(M));
  }

  lemma EvenPow(n: nat)
    requires n > 0
    ensures Pow2(n) % 2 == 0
  {
    ShlEven(1, n);
  }

  lemma PowSum(a: nat, b: nat)
    ensures Shl(Pow2(a), b) == Pow2(a + b)
  {
    ShlShl(1, a, b);
  }

  lemma SubnormalCase(f: Format, sign: bool, x: real, e: int, y: real, sigp: nat, rm: RoundingMode)
    requires Aligned(f, x, e, y, sigp) && e < EMin(f)
    ensures var p := RoundPack(f, sign, e + f.bias - 1, sigp, rm, NoFlags);
            RoundedAt(f, sign, x, e, rm, p.bits, p.flags)
  {
    hide Shl, Scale, Low, Pow2, Agrees, RoundInt, RoundedSig, RoundInc, Srjam64, IsFinite, SignOf, Magnitude,
      TinyAfterRounding;
    var M := f.mantbits;
    var s := Srjam64(sigp, EMin(f) - e);
    var n := RoundedSig(f, sign, rm, s);
    FormatFacts(f);
    SubnormalRounding(f, sign, x, e, y, sigp, rm);
    TinyTest(f, sign, x, e, y, sigp, rm);
    PowStrict(M);
    PackValue(f, sign, 0, n);
    ScaleBelowPow(n, M, QMin(f));
    ScaleOneOrder(EMin(f), EMax(f) + 1);
    ShlZero(M);
  }

  lemma PowStrict(n: nat)
    ensures Pow2(n) < Pow2(n + 1)
  {
    Pow2Positive(n);
  }

  lemma AddAccrues(f: Format, sign: bool, exp: nat, sigp: nat, rm: RoundingMode, flags: Flags)
    ensures var p := RoundAndAdd(f, sign, exp, sigp, rm, NoFlags);
            RoundAndAdd(f, sign, exp, sigp, rm, flags) == Packed(p.bits, flags.Or(p.flags))
  {
    hide Shl, Low, Pow2, RoundedSig;
  }

  /** Flags accumulate: what a call leaves is what it found or-ed with what it raises. */
  lemma FlagsAccrue(f: Format, sign: bool, exp: int, sigp: nat, rm: RoundingMode, flags: Flags)
    ensures var p := RoundPack(f, sign, exp, sigp, rm, NoFlags);
            RoundPack(f, sign, exp, sigp, rm, flags) == Packed(p.bits, flags.Or(p.flags))
  {
    hide Shl, Low, Pow2, RoundAndAdd, RoundInc, Srjam64, InfBits, MaxFiniteBits;
    if exp < 0 {
      var jammed := Srjam64(sigp, -exp);
      AddAccrues(f, sign, 0, jammed, rm, flags);
      AddAccrues(f, sign, 0, jammed, rm, flags.(uf := true));
      AddAccrues(f, sign, 0, jammed, rm, NoFlags.(uf := true));
    } else {
      AddAccrues(f, sign, exp, sigp, rm, flags);
    }
  }

  /** The single rounding step returns the correct rounding, with exactly the flags it calls
      for, of every number whose normalised significand word it is handed. */
  lemma RoundPackCorrect(f: Format, sign: bool, x: real, e: int, y: real, sigp: nat, rm: RoundingMode)
    requires Aligned(f, x, e, y, sigp)
    ensures InBinade(x, e)
    ensures var p := RoundPack(f, sign, e + f.bias - 1, sigp, rm, NoFlags);
            RoundedAt(f, sign, x, e, rm, p.bits, p.flags)
  {
    hide Shl, Scale, Low, Pow2, RoundAndAdd, RoundInc, Srjam64, InfBits, MaxFiniteBits, RoundedAt, Aligned;
    FormatFacts(f);
    AlignedBinade(f, x, e, y, sigp);
    if e < EMin(f) {
      SubnormalCase(f, sign, x, e, y, sigp, rm);
    } else if e > EMax(f) || (e == EMax(f) && sigp + RoundInc(f, sign, rm) >= Pow2(f.width - 1)) {
      OverflowCase(f, sign, x, e, y, sigp, rm);
    } else {
      NormalCase(f, sign, x, e, y, sigp, rm);
    }
  }

  /** A result p with accrued flags is the correct rounding of the number (sign, x): its bits are,
      and its flags are those found on entry or-ed with exactly those the rounding raises. */
  ghost predicate RoundsTo(f: Format, sign: bool, x: real, rm: RoundingMode, flags: Flags, p: Packed) {
    exists raised :: p.flags == flags.Or(raised) && CorrectlyRounded(f, sign, x, rm, p.bits, raised)
  }

  /** The same for a signed exact result that may be zero: an exact zero is +0, except -0 when
      rounding down, and raises nothing. */
  ghost predicate SumRoundsTo(f: Format, s: real, rm: RoundingMode, flags: Flags, p: Packed) {
    if s == 0.0 then p == Packed(ZeroBits(f, rm == RDN), flags)
    else RoundsTo(f, s < 0.0, if s < 0.0 then -s else s, rm, flags, p)
  }
}
