/** Conversions (softfloat.c: f32_to_f64, f64_to_f32, to_int_mag, fp_to_int, int_to_fp). */
module FloatConvert {
  import opened Powers
  import opened Ieee754
  import opened Rounding
  import opened Words
  import opened SoftFloat
  import opened FloatOps
  import opened FloatLaws

  // ---- Float to integer -------------------------------------------------------------------

  datatype IntMag = IntMag(mag: nat, overflow: bool, inexact: bool)

  function ToIntMag(sig: u64, exp2: int, sign: bool, rm: RoundingMode): IntMag {
    if sig == 0 then IntMag(0, false, false)
    else if exp2 >= 0 then
      if (63 - Clz64(sig)) + exp2 > 63 then IntMag(0, true, false)
      else IntMag(Shl(sig, exp2), false, false)
    else
      var rsh := -exp2;
      var floorv := if rsh >= 64 then 0 else Shr(sig, rsh);
      var roundbit := rsh <= 64 && Shr(sig, rsh - 1) % 2 == 1;
      var sticky := if rsh - 1 >= 64 then sig != 0 else Low(sig, rsh - 1) != 0;
      var inexact := roundbit || sticky;
      var inc :=
        match rm
        case RNE => roundbit && (sticky || floorv % 2 == 1)
        case RTZ => false
        case RDN => sign && inexact
        case RUP => !sign && inexact
        case RMM => roundbit;
      IntMag(floorv + (if inc then 1 else 0), false, inexact)
  }

  /** The parts the shift produces, for every distance, are those of the half-unit view. */
  lemma ShiftParts(sig: u64, rsh: nat)
    requires rsh >= 1
    ensures var k := Shr(sig, rsh - 1);
            && (if rsh >= 64 then 0 else Shr(sig, rsh)) == k / 2
            && ((rsh <= 64 && Shr(sig, rsh - 1) % 2 == 1) <==> k % 2 == 1)
            && ((if rsh - 1 >= 64 then sig != 0 else Low(sig, rsh - 1) != 0) <==> Low(sig, rsh - 1) != 0)
  {
    hide Shl, Shr, Low;
    Pow2Words();
    LowStep(sig, rsh);
    if rsh >= 65 {
      Pow2Mono(64, rsh - 1);
      ShrSmall(sig, rsh - 1);
    } else if rsh == 64 {
      ShrSmall(sig, 64);
    }
  }

  lemma FractionRounds(sig: u64, exp2: int, sign: bool, rm: RoundingMode)
    requires sig > 0 && exp2 < 0
    ensures var t := ToIntMag(sig, exp2, sign, rm); var x := Scale(sig as real, exp2);
            !t.overflow && t.mag == RoundInt(x, sign, rm) && (t.inexact <==> t.mag as real != x)
  {
    hide Shl, Shr, Low, Scale, RoundInt, Clz64;
    var rsh := -exp2;
    var g := rsh - 1;
    AgreesExact(sig, g);
    AgreesFloor(sig as real, sig, g);
    var w := Scale(sig as real, 0 - g);
    RoundIntFromHalves(w, Shr(sig, g), sign, rm);
    ScaleStep(sig as real, exp2);
    ShiftParts(sig, rsh);
  }

  lemma TopBitShift(sig: u64, exp2: nat)
    requires sig > 0
    ensures (63 - Clz64(sig)) + exp2 > 63 <==> Shl(sig, exp2) >= Pow2(64)
  {
    hide Shl, Clz64;
    ClzCorrect(sig);
    var m := 63 - Clz64(sig);
    ShiftedBounds(sig, m, exp2);
    if m + exp2 > 63 { Pow2Mono(64, m + exp2); } else { Pow2Mono(m + exp2 + 1, 64); }
  }

  /** The integer magnitude is the exactly rounded one, or it does not fit 64 bits. */
  lemma ToIntMagCorrect(sig: u64, exp2: int, sign: bool, rm: RoundingMode)
    ensures var t := ToIntMag(sig, exp2, sign, rm); var x := Scale(sig as real, exp2);
            && (t.overflow <==> RoundInt(x, sign, rm) >= W64)
            && (!t.overflow ==> t.mag == RoundInt(x, sign, rm) && (t.inexact <==> t.mag as real != x))
  {
    hide Shl, Shr, Low, Scale, RoundInt, Clz64;
    Pow2Words();
    if sig == 0 {
      ScaleZero(exp2);
      RoundIntExact(0, sign, rm);
    } else if exp2 >= 0 {
      ScaleNat(sig, exp2);
      RoundIntExact(Shl(sig, exp2), sign, rm);
      TopBitShift(sig, exp2);
    } else {
      FractionRounds(sig, exp2, sign, rm);
      FractionBelow(sig, exp2, sign, rm);
    }
  }

  lemma FractionBelow(sig: u64, exp2: int, sign: bool, rm: RoundingMode)
    requires sig > 0 && exp2 < 0
    ensures ToIntMag(sig, exp2, sign, rm).mag < W64
  {
    hide Shl, Low, Clz64;
    if -exp2 < 64 {
      ShrShr(sig, 1, -exp2 - 1);
      ShiftSplit(Shr(sig, 1), -exp2 - 1);
      ShlIncreasing(Shr(sig, -exp2), 0, -exp2 - 1);
      ShlUnits(Shr(sig, -exp2));
      assert Shr(sig, 1) == Shr(sig, 0) / 2;
    }
  }

  type IntBits = n: nat | n == 32 || n == 64 witness 32

  function Modulus(n: IntBits): nat { if n == 32 then W32 else W64 }
  function MaxInt(isSigned: bool, n: IntBits): nat { if isSigned then Modulus(n) / 2 - 1 else Modulus(n) - 1 }
  function MinIntMag(isSigned: bool, n: IntBits): nat { if isSigned then Modulus(n) / 2 else 0 }

  /** The integer an n-bit pattern denotes. */
  function IntValue(isSigned: bool, n: IntBits, bits: nat): int {
    if isSigned && bits >= Modulus(n) / 2 then bits - Modulus(n) else bits
  }

  const Inexact := NoFlags.(nx := true)

  function FpToInt(f: Format, a: nat, isSigned: bool, n: IntBits, rm: RoundingMode, flags: Flags): Packed
    requires a < Pow2(f.width)
  {
    var u := Unpack(f, a);
    var maxpos, minneg := MaxInt(isSigned, n), MinIntMag(isSigned, n);
    if u.cls == NaN then Packed(maxpos, flags.Or(Invalid))
    else if u.cls == Zero then Packed(0, flags)
    else if u.cls == Inf then Packed(if u.sign then minneg else maxpos, flags.Or(Invalid))
    else
      var t := ToIntMag(u.sig.lo, u.exp2, u.sign, rm);
      if u.sign then
        if t.overflow || t.mag > minneg then Packed(minneg, flags.Or(Invalid))
        else if !isSigned && t.mag != 0 then Packed(0, flags.Or(Invalid))
        else Packed((W64 - t.mag) % Modulus(n), if t.inexact then flags.Or(Inexact) else flags)
      else if t.overflow || t.mag > maxpos then Packed(maxpos, flags.Or(Invalid))
      else Packed(t.mag, if t.inexact then flags.Or(Inexact) else flags)
  }

  /** Saturating conversion: the exactly rounded integer if it is in range, else the nearest end
      of the range and invalid; inexact exactly when in range and rounded. */
  predicate ToIntSpec(f: Format, a: nat, isSigned: bool, n: IntBits, rm: RoundingMode, flags: Flags, p: Packed) {
    var lo, hi: int := -(MinIntMag(isSigned, n) as int), MaxInt(isSigned, n);
    var v := IntValue(isSigned, n, p.bits);
    var r := RoundInt(Magnitude(f, a), SignOf(f, a), rm);
    var signed := if SignOf(f, a) then -r else r;
    && p.bits < Modulus(n)
    && if IsNaN(f, a) then v == hi && p.flags == flags.Or(Invalid)
       else if IsInf(f, a) then v == (if SignOf(f, a) then lo else hi) && p.flags == flags.Or(Invalid)
       else if signed > hi then v == hi && p.flags == flags.Or(Invalid)
       else if signed < lo then v == lo && p.flags == flags.Or(Invalid)
       else v == signed && p.flags == if r as real != Magnitude(f, a) then flags.Or(Inexact) else flags
  }

  lemma FpToIntCorrect(f: Format, a: nat, isSigned: bool, n: IntBits, rm: RoundingMode, flags: Flags)
    requires a < Pow2(f.width)
    ensures ToIntSpec(f, a, isSigned, n, rm, flags, FpToInt(f, a, isSigned, n, rm, flags))
  {
    hide Shl, Scale, SignOf, Magnitude, Unpack, IsNaN, IsInf, IsZero, IsFinite, IsSignalling, Flags.Or, RoundInt, ToIntMag,
      FpToInt, ToIntSpec, MaxInt, MinIntMag;
    Classified(f, a);
    if IsZero(f, a) {
      FpToIntZero(f, a, isSigned, n, rm, flags);
    } else if IsFinite(f, a) {
      UnpackFinite(f, a);
      var u := Unpack(f, a);
      ToIntMagCorrect(u.sig.lo, u.exp2, u.sign, rm);
      FpToIntFinite(f, a, isSigned, n, rm, flags, u, ToIntMag(u.sig.lo, u.exp2, u.sign, rm));
    } else {
      FpToIntSpecial(f, a, isSigned, n, rm, flags);
    }
  }

  lemma FpToIntZero(f: Format, a: nat, isSigned: bool, n: IntBits, rm: RoundingMode, flags: Flags)
    requires a < Pow2(f.width) && IsZero(f, a)
    ensures ToIntSpec(f, a, isSigned, n, rm, flags, FpToInt(f, a, isSigned, n, rm, flags))
  {
    hide Shl, Scale, SignOf, Magnitude, Unpack, IsNaN, IsInf, IsZero, IsFinite, IsSignalling, Flags.Or, RoundInt, ToIntMag;
    Classified(f, a);
    ZeroMagnitude(f, a);
    RoundIntExact(0, SignOf(f, a), rm);
  }

  lemma FpToIntSpecial(f: Format, a: nat, isSigned: bool, n: IntBits, rm: RoundingMode, flags: Flags)
    requires a < Pow2(f.width) && !IsZero(f, a) && !IsFinite(f, a)
    ensures ToIntSpec(f, a, isSigned, n, rm, flags, FpToInt(f, a, isSigned, n, rm, flags))
  {
    hide Shl, Scale, SignOf, Magnitude, Unpack, IsNaN, IsInf, IsZero, IsFinite, IsSignalling, Flags.Or, RoundInt, ToIntMag;
    Classified(f, a);
  }

  lemma FpToIntFinite(f: Format, a: nat, isSigned: bool, n: IntBits, rm: RoundingMode, flags: Flags, u: Unpacked, t: IntMag)
    requires a < Pow2(f.width) && IsFinite(f, a) && u == Unpack(f, a) && u.cls == Normal
    requires u.sign == SignOf(f, a) && !IsNaN(f, a) && !IsInf(f, a)
    requires t == ToIntMag(u.sig.lo, u.exp2, u.sign, rm)
    requires var r := RoundInt(Magnitude(f, a), SignOf(f, a), rm);
             && (t.overflow <==> r >= W64)
             && (!t.overflow ==> t.mag == r && (t.inexact <==> r as real != Magnitude(f, a)))
    ensures ToIntSpec(f, a, isSigned, n, rm, flags, FpToInt(f, a, isSigned, n, rm, flags))
  {
    hide Shl, Scale, SignOf, Magnitude, Unpack, IsNaN, IsInf, IsZero, IsFinite, Flags.Or, RoundInt, ToIntMag;
  }

  // ---- Integer to float -------------------------------------------------------------------

  function IntToFp(f: Format, mag: u64, sign: bool, rm: RoundingMode, flags: Flags): Packed {
    if mag == 0 then Packed(0, flags) else RoundMag(f, sign, U128(0, mag), 0, false, rm, flags)
  }

  /** Zero is +0, whatever the mode; every other integer is rounded once. */
  lemma IntToFpCorrect(f: Format, mag: u64, sign: bool, rm: RoundingMode, flags: Flags)
    ensures var p := IntToFp(f, mag, sign, rm, flags);
      if mag == 0 then IsZero(f, p.bits) && !SignOf(f, p.bits) && p.flags == flags else RoundsTo(f, sign, mag as real, rm, flags, p)
  {
    hide Scale, V, RoundMag, RoundsTo, Msb128, SignOf, IsZero;
    if mag == 0 {
      ZeroShape(f, false);
    } else {
      LowWord(mag);
      ScaleUnit(mag as real);
      RoundMagCorrect(f, sign, U128(0, mag), 0, false, mag as real, rm, flags);
    }
  }

  lemma ZeroShape(f: Format, sign: bool)
    ensures var z := ZeroBits(f, sign); z < Pow2(f.width) && IsZero(f, z) && SignOf(f, z) == sign
  {
    hide Shl, SignOf, ExpField, FracField, Pow2;
    ShlZero(f.mantbits);
    Pow2Positive(f.mantbits);
    Fields(f, sign, 0, 0);
  }

  lemma InfShape(f: Format, sign: bool)
    ensures var z := InfBits(f, sign); z < Pow2(f.width) && IsInf(f, z) && SignOf(f, z) == sign
  {
    hide Shl, SignOf, ExpField, FracField, Pow2;
    Pow2Positive(f.mantbits);
    Fields(f, sign, AllOnes(f), 0);
  }

  lemma QuietShape(f: Format)
    ensures var z := QNaN(f); z < Pow2(f.width) && IsNaN(f, z) && !IsSignalling(f, z)
  {
    hide Shl, Shr, SignOf, ExpField, FracField, Pow2;
    var M := f.mantbits;
    PowDouble(M - 1);
    Pow2Positive(M - 1);
    Fields(f, false, AllOnes(f), Pow2(M - 1));
    QuietBits(f);
    PowIsShl(M - 1);
    ShrUnique(Pow2(M - 1), M - 1, 1, 0);
  }

  lemma QuietPowers()
    ensures Pow2(22) == 0x40_0000 && Pow2(23) == 0x80_0000
    ensures Pow2(51) == 0x8_0000_0000_0000 && Pow2(52) == 0x10_0000_0000_0000
  {
    Pow2Values();
    assert Pow2(20) == 0x10_0000;
    assert Pow2(28) == 0x1000_0000;
    assert Pow2(36) == 0x10_0000_0000;
    assert Pow2(44) == 0x1000_0000_0000;
  }

  lemma QuietBits(f: Format)
    ensures QNaN(f) == Shl(AllOnes(f), f.mantbits) + Pow2(f.mantbits - 1)
  {
    hide Shl;
    QuietPowers();
    ShlIsTimes(AllOnes(f), f.mantbits);
  }

  /** A magnitude that is a whole number of quanta in its binade rounds to itself, silently. */
  lemma ExactRounding(f: Format, sign: bool, m: nat, p: int, e: int, rm: RoundingMode, bits: nat, raised: Flags)
    requires CorrectlyRounded(f, sign, Scale(m as real, p), rm, bits, raised)
    requires InBinade(Scale(m as real, p), e) && e <= EMax(f) && p >= Quantum(f, e)
    ensures raised == NoFlags && bits < Pow2(f.width) && IsFinite(f, bits)
    ensures SignOf(f, bits) == sign && Magnitude(f, bits) == Scale(m as real, p)
  {
    hide Shl, Scale, SignOf, IsFinite, Magnitude, RoundInt, InfBits, MaxFiniteBits, TinyAfterRounding;
    var x := Scale(m as real, p);
    var e' :| InBinade(x, e') && RoundedAt(f, sign, x, e', rm, bits, raised);
    BinadeUnique(x, e, e');
    var q := Quantum(f, e);
    ScaleScale(m as real, p, 0 - q);
    ScaleNat(m, p - q);
    RoundIntExact(Shl(m, p - q), sign, rm);
    ScaleBack(x, q);
    ScaleOneOrder(EMax(f) + 1, e + 1);
  }

  lemma IntBinade(m: nat) returns (e: nat)
    requires 0 < m <= W32
    ensures InBinade(Scale(m as real, 0), e) && e <= 32
  {
    hide Shl, Scale;
    e := TopBitExists(m);
    Pow2Words();
    if e > 32 { Pow2Mono(33, e); PowDouble(32); }
    ScaleBelowPow(m, e, 0);
    ScaleBelowPow(m, e + 1, 0);
  }

  /** Every integer of at most 32 bits converts to binary64 exactly, and raises nothing. */
  lemma SmallIntExact(mag: u64, sign: bool, rm: RoundingMode, flags: Flags)
    requires 0 < mag <= W32
    ensures var p := IntToFp(F64, mag, sign, rm, flags);
            && p.flags == flags && p.bits < Pow2(64) && IsFinite(F64, p.bits)
            && SignOf(F64, p.bits) == sign && Magnitude(F64, p.bits) == mag as real
  {
    hide Shl, Scale, SignOf, IsFinite, Magnitude, IntToFp;
    var p := IntToFp(F64, mag, sign, rm, flags);
    IntToFpCorrect(F64, mag, sign, rm, flags);
    var raised :| p.flags == flags.Or(raised) && CorrectlyRounded(F64, sign, mag as real, rm, p.bits, raised);
    ScaleUnit(mag as real);
    var e := IntBinade(mag);
    ExactRounding(F64, sign, mag, 0, e, rm, p.bits, raised);
  }

  /** int32 (or uint32) -> binary64 -> back is the identity in every pair of rounding modes, and
      leaves the flags alone. */
  lemma RoundTrip32(isSigned: bool, v: int, rm: RoundingMode, rm': RoundingMode, flags: Flags)
    requires -(MinIntMag(isSigned, 32) as int) <= v <= MaxInt(isSigned, 32)
    ensures var p := IntToFp(F64, if v < 0 then -v else v, v < 0, rm, flags);
            && p.bits < Pow2(64)
            && var r := FpToInt(F64, p.bits, isSigned, 32, rm', p.flags);
               IntValue(isSigned, 32, r.bits) == v && r.flags == flags
  {
    hide Shl, Scale, SignOf, IsFinite, Magnitude, RoundMag, FpToInt, IsNaN, IsInf, RoundInt;
    var mag := if v < 0 then -v else v;
    var p := IntToFp(F64, mag, v < 0, rm, flags);
    if mag == 0 {
      Pow2Positive(64);
      ZeroShape(F64, false);
      ZeroMagnitude(F64, 0);
      assert p.bits == 0;
    } else {
      SmallIntExact(mag, v < 0, rm, flags);
    }
    FpToIntCorrect(F64, p.bits, isSigned, 32, rm', p.flags);
    FiniteIsNeither(F64, p.bits);
    RoundIntExact(mag, v < 0, rm');
    RoundIntExact(mag, SignOf(F64, p.bits), rm');
  }

  lemma FiniteIsNeither(f: Format, bits: nat)
    ensures IsFinite(f, bits) <==> !IsNaN(f, bits) && !IsInf(f, bits)
  {
  }

  // ---- Between the two float widths -------------------------------------------------------

  function Widen(a: nat, flags: Flags): Packed
    requires a < Pow2(32)
  {
    var u := Unpack(F32, a);
    if u.cls == NaN then Packed(QNaN(F64), if u.snan then flags.Or(Invalid) else flags)
    else if u.cls == Inf then Packed(InfBits(F64, u.sign), flags)
    else if u.cls == Zero then Packed(ZeroBits(F64, u.sign), flags)
    else RoundMag(F64, u.sign, u.sig, u.exp2, false, RNE, flags)
  }

  function Narrow(a: nat, rm: RoundingMode, flags: Flags): Packed
    requires a < Pow2(64)
  {
    var u := Unpack(F64, a);
    if u.cls == NaN then Packed(QNaN(F32), if u.snan then flags.Or(Invalid) else flags)
    else if u.cls == Inf then Packed(InfBits(F32, u.sign), flags)
    else if u.cls == Zero then Packed(ZeroBits(F32, u.sign), flags)
    else RoundMag(F32, u.sign, u.sig, u.exp2, false, rm, flags)
  }

  /** The NaN every conversion of a NaN gives, and its flags. */
  predicate QuietsNaN(f: Format, from: Format, a: nat, flags: Flags, p: Packed) {
    p == Packed(QNaN(f), if IsSignalling(from, a) then flags.Or(Invalid) else flags)
  }

  /** Infinities and zeros keep their sign, NaNs become the quiet NaN, everything else is rounded
      once. */
  lemma NarrowCorrect(a: nat, rm: RoundingMode, flags: Flags)
    requires a < Pow2(64)
    ensures var p := Narrow(a, rm, flags);
      if IsNaN(F64, a) then QuietsNaN(F32, F64, a, flags, p)
      else if IsFinite(F64, a) && !IsZero(F64, a) then RoundsTo(F32, SignOf(F64, a), Magnitude(F64, a), rm, flags, p)
      else
        && p.flags == flags && p.bits < Pow2(32) && SignOf(F32, p.bits) == SignOf(F64, a)
        && (IsInf(F64, a) <==> IsInf(F32, p.bits)) && (IsZero(F64, a) <==> IsZero(F32, p.bits))
  {
    hide Shl, Scale, SignOf, Magnitude, Unpack, IsFinite, IsZero, IsInf, IsNaN, IsSignalling, RoundMag, RoundsTo, V, Msb128, InfBits,
      ZeroBits, QNaN, Flags.Or;
    Classified(F64, a);
    var u := Unpack(F64, a);
    if u.cls == Normal {
      UnpackFinite(F64, a);
      RoundMagCorrect(F32, u.sign, u.sig, u.exp2, false, Magnitude(F64, a), rm, flags);
    } else {
      InfShape(F32, u.sign);
      ZeroShape(F32, u.sign);
      NotBoth(F32, InfBits(F32, u.sign));
      NotBoth(F32, ZeroBits(F32, u.sign));
    }
  }

  lemma NotBoth(f: Format, a: nat)
    ensures !(IsInf(f, a) && IsZero(f, a)) && (IsZero(f, a) ==> IsFinite(f, a)) && (IsInf(f, a) ==> !IsFinite(f, a) && !IsNaN(f, a))
  {
    hide ExpField, FracField;
  }

  lemma WidenNormal(a: nat, flags: Flags)
    requires a < Pow2(32) && IsFinite(F32, a) && !IsZero(F32, a)
    ensures var p := Widen(a, flags);
            && p.flags == flags && p.bits < Pow2(64) && IsFinite(F64, p.bits)
            && SignOf(F64, p.bits) == SignOf(F32, a) && Magnitude(F64, p.bits) == Magnitude(F32, a)
  {
    hide Shl, Scale, SignOf, Magnitude, Unpack, IsFinite, IsZero, RoundMag, V, Msb128, Significand, LastPlace, InBinade;
    Classified(F32, a);
    UnpackFinite(F32, a);
    var u, x := Unpack(F32, a), Magnitude(F32, a);
    RoundMagCorrect(F64, u.sign, u.sig, u.exp2, false, x, RNE, flags);
    var p := Widen(a, flags);
    var raised :| p.flags == flags.Or(raised) && CorrectlyRounded(F64, u.sign, x, RNE, p.bits, raised);
    var e := OwnQuantum(F32, a);
    ExactRounding(F64, u.sign, V(u.sig), u.exp2, e, RNE, p.bits, raised);
  }

  /** Every binary32 number is a binary64 number: widening is exact and raises nothing; infinities keep
      their sign, and a NaN becomes the quiet NaN, invalid if it was signalling. */
  lemma WidenExact(a: nat, flags: Flags)
    requires a < Pow2(32)
    ensures var p := Widen(a, flags);
      if IsNaN(F32, a) then QuietsNaN(F64, F32, a, flags, p)
      else
        && p.flags == flags && p.bits < Pow2(64) && SignOf(F64, p.bits) == SignOf(F32, a)
        && (IsInf(F32, a) <==> IsInf(F64, p.bits)) && (IsFinite(F32, a) <==> IsFinite(F64, p.bits))
        && (IsFinite(F32, a) ==> Magnitude(F64, p.bits) == Magnitude(F32, a))
  {
    hide Shl, Scale, SignOf, Magnitude, Unpack, IsFinite, IsZero, IsInf, IsNaN, IsSignalling, RoundMag, InfBits, ZeroBits, QNaN, Flags.Or;
    Classified(F32, a);
    var u, p := Unpack(F32, a), Widen(a, flags);
    if u.cls == Normal {
      WidenNormal(a, flags);
      FiniteIsNeither(F64, p.bits);
    } else if u.cls == Inf {
      InfShape(F64, u.sign);
      NotBoth(F64, p.bits);
    } else if u.cls == Zero {
      ZeroShape(F64, u.sign);
      NotBoth(F64, p.bits);
      ZeroMagnitude(F32, a);
      ZeroMagnitude(F64, p.bits);
    }
  }

  lemma WidenNarrowNormal(a: nat, rm: RoundingMode, flags: Flags)
    requires a < Pow2(32) && IsFinite(F32, a) && !IsZero(F32, a)
    ensures Widen(a, flags).bits < Pow2(64)
    ensures Narrow(Widen(a, flags).bits, rm, flags) == Packed(a, flags)
  {
    hide Shl, Scale, SignOf, Magnitude, Unpack, IsFinite, IsZero, RoundMag, Widen, Narrow, IsNaN, IsInf;
    WidenNormal(a, flags);
    var b := Widen(a, flags).bits;
    UnpackFinite(F32, a);
    NonzeroMagnitude(F64, b);
    FiniteIsNeither(F64, b);
    NarrowCorrect(b, rm, flags);
    RepresentableRounds(F32, a, rm, flags);
    var p := Narrow(b, rm, flags);
    var r1 :| p.flags == flags.Or(r1) && CorrectlyRounded(F32, SignOf(F32, a), Magnitude(F32, a), rm, p.bits, r1);
    var r2 :| flags == flags.Or(r2) && CorrectlyRounded(F32, SignOf(F32, a), Magnitude(F32, a), rm, a, r2);
    RoundingUnique(F32, SignOf(F32, a), Magnitude(F32, a), rm, p.bits, r1, a, r2);
  }

  /** Widening then narrowing returns the very same pattern and flags, in every mode, for every pattern
      that is not a NaN; a NaN comes back as the quiet NaN with nothing further raised. */
  lemma WidenNarrow(a: nat, rm: RoundingMode, flags: Flags)
    requires a < Pow2(32)
    ensures Widen(a, flags).bits < Pow2(64)
    ensures !IsNaN(F32, a) ==> Narrow(Widen(a, flags).bits, rm, flags) == Packed(a, flags)
    ensures IsNaN(F32, a) ==> Narrow(Widen(a, flags).bits, rm, flags) == Packed(QNaN(F32), flags)
  {
    hide Shl, Scale, SignOf, Magnitude, Unpack, IsFinite, IsZero, IsInf, IsNaN, IsSignalling, RoundMag, QNaN, Flags.Or, Widen, Narrow;
    FiniteIsNeither(F32, a);
    WidenExact(a, flags);
    var b := Widen(a, flags).bits;
    QuietShape(F64);
    NarrowCorrect(b, rm, flags);
    if IsFinite(F32, a) && !IsZero(F32, a) {
      WidenNarrowNormal(a, rm, flags);
    } else if !IsNaN(F32, a) {
      FiniteIsNeither(F64, b);
      NotBoth(F64, b);
      ZeroWidens(a, flags);
      SameShape(F32, Narrow(b, rm, flags).bits, a);
    }
  }

  lemma ZeroWidens(a: nat, flags: Flags)
    requires a < Pow2(32)
    ensures IsZero(F32, a) ==> IsZero(F64, Widen(a, flags).bits)
  {
    hide Shl, SignOf, Unpack, IsZero, RoundMag, ZeroBits, InfBits, QNaN, Flags.Or;
    Classified(F32, a);
    ZeroShape(F64, Unpack(F32, a).sign);
  }

  /** A zero or an infinity is determined by its sign. */
  lemma SameShape(f: Format, a: nat, b: nat)
    requires a < Pow2(f.width) && b < Pow2(f.width) && SignOf(f, a) == SignOf(f, b)
    requires (IsZero(f, a) && IsZero(f, b)) || (IsInf(f, a) && IsInf(f, b))
    ensures a == b
  {
    hide Shl, SignOf, ExpField, FracField;
    SameBits(f, a, b);
  }

  lemma NonzeroMagnitude(f: Format, bits: nat)
    requires Magnitude(f, bits) > 0.0
    ensures !IsZero(f, bits)
  {
    hide Magnitude;
    if IsZero(f, bits) { ZeroMagnitude(f, bits); }
  }
}
