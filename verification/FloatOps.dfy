/** The operations generic over the format (softfloat.c: unpack, fp_add, fp_mul, fp_div, fp_sqrt,
    fp_muladd), each specified as "compute exactly, round once" with the special cases of
    IEEE 754-2019 sections 6 and 7. */
module FloatOps {
  import opened Powers
  import opened Ieee754
  import opened Rounding
  import opened Words
  import opened SoftFloat

  datatype Class = Zero | Normal | Inf | NaN

  datatype Unpacked = Unpacked(sign: bool, cls: Class, snan: bool, sig: U128, exp2: int)

  function Unpack(f: Format, bits: nat): Unpacked
    requires bits < Pow2(f.width)
  {
    var sign, exp, frac := SignOf(f, bits), ExpField(f, bits), FracField(f, bits);
    FracIsWord(f, bits);
    if exp == 0 then
      if frac == 0 then Unpacked(sign, Zero, false, U128(0, 0), 0)
      else Unpacked(sign, Normal, false, U128(0, frac), (1 - f.bias) - f.mantbits)
    else if exp == AllOnes(f) then
      if frac == 0 then Unpacked(sign, Inf, false, U128(0, 0), 0)
      else Unpacked(sign, NaN, Shr(frac, f.mantbits - 1) % 2 == 0, U128(0, 0), 0)
    else Unpacked(sign, Normal, false, U128(0, Pow2(f.mantbits) + frac), (exp - f.bias) - f.mantbits)
  }

  lemma FracIsWord(f: Format, bits: nat)
    ensures FracField(f, bits) < Pow2(f.mantbits)
    ensures Pow2(f.mantbits) + FracField(f, bits) < W64
  {
    hide Shl, Low;
    FormatFacts(f);
    ShiftSplit(bits, f.mantbits);
    PowDouble(f.mantbits);
    Pow2Mono(f.mantbits + 1, 64);
    Pow2Words();
  }

  /** The class of an unpacked operand is the class of the pattern. */
  lemma Classified(f: Format, bits: nat)
    requires bits < Pow2(f.width)
    ensures var u := Unpack(f, bits);
            && u.sign == SignOf(f, bits) && u.snan == IsSignalling(f, bits)
            && (u.cls == NaN <==> IsNaN(f, bits)) && (u.cls == Inf <==> IsInf(f, bits))
            && (u.cls == Zero <==> IsZero(f, bits)) && (u.cls == Normal <==> IsFinite(f, bits) && !IsZero(f, bits))
            && (IsNaN(f, bits) || IsInf(f, bits) <==> !IsFinite(f, bits))
  {
    hide Shl, Shr, Low, SignOf;
  }

  /** A finite nonzero operand unpacks to its significand and last place. */
  lemma UnpackFinite(f: Format, bits: nat)
    requires bits < Pow2(f.width) && IsFinite(f, bits) && !IsZero(f, bits)
    ensures var u := Unpack(f, bits);
            && u.cls == Normal && u.sig.hi == 0
            && 0 < V(u.sig) == u.sig.lo == Significand(f, bits) < Pow2(f.mantbits + 1)
            && u.exp2 == LastPlace(f, bits)
            && Magnitude(f, bits) == Scale(V(u.sig) as real, u.exp2) > 0.0
  {
    hide Shl, Shr, Low, Scale;
    FracIsWord(f, bits);
    PowDouble(f.mantbits);
    Pow2Positive(f.mantbits);
    ScalePositive(Significand(f, bits) as real, LastPlace(f, bits));
  }

  lemma ZeroMagnitude(f: Format, bits: nat)
    requires IsZero(f, bits)
    ensures Magnitude(f, bits) == 0.0 && IsFinite(f, bits)
  {
    ScaleZero(QMin(f));
  }

  // ---- A representable number rounds to itself --------------------------------------------

  lemma {:induction false} TopBitExists(m: nat) returns (k: nat)
    requires m > 0
    ensures Pow2(k) <= m < Pow2(k + 1)
  {
    if m == 1 {
      k := 0;
      PowZero();
      PowDouble(0);
    } else {
      var h := TopBitExists(m / 2);
      PowDouble(h);
      PowDouble(h + 1);
      k := h + 1;
    }
  }

  /** The binade of a finite nonzero number, and the fact that its own last place is the quantum
      available there. */
  lemma OwnQuantum(f: Format, bits: nat) returns (e: int)
    requires bits < Pow2(f.width) && IsFinite(f, bits) && !IsZero(f, bits)
    ensures InBinade(Magnitude(f, bits), e) && Quantum(f, e) == LastPlace(f, bits) && e <= EMax(f)
  {
    hide Shl, Shr, Low, Scale;
    var m, q := Significand(f, bits), LastPlace(f, bits);
    FracIsWord(f, bits);
    FormatFacts(f);
    Pow2Positive(f.mantbits);
    ExpBelow(f, bits);
    if ExpField(f, bits) == 0 {
      var k := TopBitExists(m);
      e := q + k;
      if k >= f.mantbits { Pow2Mono(f.mantbits, k); }
      ScaleBelowPow(m, k, q);
      ScaleBelowPow(m, k + 1, q);
    } else {
      e := q + f.mantbits;
      PowDouble(f.mantbits);
      ScaleBelowPow(m, f.mantbits, q);
      ScaleBelowPow(m, f.mantbits + 1, q);
    }
  }

  lemma ExpBelow(f: Format, bits: nat)
    ensures ExpField(f, bits) <= AllOnes(f)
  {
    hide Shl, Shr, Low;
    FormatFacts(f);
    ShiftSplit(Shr(bits, f.mantbits), f.expbits);
  }

  lemma RoundIntExact(n: nat, sign: bool, rm: RoundingMode)
    ensures RoundInt(n as real, sign, rm) == n
  {
  }

  lemma RepresentableRounds(f: Format, bits: nat, rm: RoundingMode, flags: Flags)
    requires bits < Pow2(f.width) && IsFinite(f, bits) && !IsZero(f, bits)
    ensures RoundsTo(f, SignOf(f, bits), Magnitude(f, bits), rm, flags, Packed(bits, flags))
    ensures Magnitude(f, bits) > 0.0
  {
    hide RoundedAt, InBinade, Magnitude, SignOf, IsFinite, IsZero, Quantum;
    var e := OwnQuantum(f, bits);
    UnpackFinite(f, bits);
    OwnRounding(f, bits, e, rm);
    assert CorrectlyRounded(f, SignOf(f, bits), Magnitude(f, bits), rm, bits, NoFlags);
    assert flags == flags.Or(NoFlags);
  }

  lemma OwnRounding(f: Format, bits: nat, e: int, rm: RoundingMode)
    requires bits < Pow2(f.width) && IsFinite(f, bits)
    requires InBinade(Magnitude(f, bits), e) && Quantum(f, e) == LastPlace(f, bits) && e <= EMax(f)
    ensures RoundedAt(f, SignOf(f, bits), Magnitude(f, bits), e, rm, bits, NoFlags)
  {
    hide Shl, Shr, Low, Scale, SignOf, RoundInt, Significand, LastPlace, IsFinite, TinyAfterRounding;
    var m, q, x := Significand(f, bits), LastPlace(f, bits), Magnitude(f, bits);
    assert Scale(x, 0 - q) == m as real by { ScaleScale(m as real, q, 0 - q); ScaleUnit(m as real); }
    RoundIntExact(m, SignOf(f, bits), rm);
    ScaleOneOrder(EMax(f) + 1, e + 1);
  }

  /** b ^ sign_bit. */
  function FlipSign(f: Format, bits: nat): int {
    if SignOf(f, bits) then bits - Pow2(f.width - 1) else bits + Pow2(f.width - 1)
  }

  lemma Assemble(f: Format, bits: nat)
    requires bits < Pow2(f.width)
    ensures bits == (if SignOf(f, bits) then Pow2(f.width - 1) else 0) + Shl(ExpField(f, bits), f.mantbits) + FracField(f, bits)
  {
    hide Shl, Shr, Low, Pow2;
    var top := Shr(bits, f.mantbits);
    FormatFacts(f);
    ShiftSplit(bits, f.mantbits);
    ShiftSplit(top, f.expbits);
    ShrShr(bits, f.mantbits, f.expbits);
    PowDouble(f.width - 1);
    PowIsShl(f.width - 1);
    ShrBelow(bits, f.width - 1, 2);
    DoublePow(f.width - 1);
    ShlAdd(Shl(Shr(top, f.expbits), f.expbits), Low(top, f.expbits), f.mantbits);
    ShlShl(Shr(top, f.expbits), f.expbits, f.mantbits);
    ShlZero(f.width - 1);
  }

  lemma LastPlaceAtLeast(f: Format, w: nat)
    ensures LastPlace(f, w) >= QMin(f)
  {
    hide Shl, Shr, Low, ExpField, FracField;
  }

  lemma FlipSignFields(f: Format, bits: nat)
    requires bits < Pow2(f.width)
    ensures 0 <= FlipSign(f, bits) < Pow2(f.width)
    ensures var b := FlipSign(f, bits);
            && SignOf(f, b) == !SignOf(f, bits)
            && ExpField(f, b) == ExpField(f, bits) && FracField(f, b) == FracField(f, bits)
  {
    hide Shl, Shr, Low, Pow2, SignOf, ExpField, FracField;
    Assemble(f, bits);
    FracIsWord(f, bits);
    ExpBelow(f, bits);
    Fields(f, !SignOf(f, bits), ExpField(f, bits), FracField(f, bits));
  }

  // ---- Addition and subtraction -----------------------------------------------------------

  ghost predicate AddSpec(f: Format, a: nat, b: nat, sub: bool, rm: RoundingMode, flags: Flags, p: Packed) {
    var sa, sb := SignOf(f, a), SignOf(f, b) != sub;
    if IsNaN(f, a) || IsNaN(f, b) then
      p == Packed(QNaN(f), if IsSignalling(f, a) || IsSignalling(f, b) then flags.Or(Invalid) else flags)
    else if IsInf(f, a) && IsInf(f, b) && sa != sb then p == Packed(QNaN(f), flags.Or(Invalid))
    else if IsInf(f, a) then p == Packed(InfBits(f, sa), flags)
    else if IsInf(f, b) then p == Packed(InfBits(f, sb), flags)
    else if IsZero(f, a) && IsZero(f, b) && sa == sb then p == Packed(ZeroBits(f, sa), flags)
    else SumRoundsTo(f, Signed(sa, Magnitude(f, a)) + Signed(sb, Magnitude(f, b)), rm, flags, p)
  }

  method FpAdd(f: Format, a: nat, b: nat, sub: bool, rm: RoundingMode, flags: Flags) returns (p: Packed)
    requires a < Pow2(f.width) && b < Pow2(f.width)
    ensures AddSpec(f, a, b, sub, rm, flags, p)
  {
    hide Shl, Scale, SignOf, Magnitude, InfBits, ZeroBits, RoundsTo, Unpack, IsNaN, IsInf, IsZero, IsFinite, IsSignalling, QNaN, Flags.Or;
    var ua, ub := Unpack(f, a), Unpack(f, b);
    Classified(f, a);
    Classified(f, b);
    var sb := ub.sign != sub;
    if ua.cls == NaN || ub.cls == NaN {
      return Packed(QNaN(f), if ua.snan || ub.snan then flags.Or(Invalid) else flags);
    }
    if ua.cls == Inf || ub.cls == Inf {
      if ua.cls == Inf && ub.cls == Inf {
        if ua.sign != sb { return Packed(QNaN(f), flags.Or(Invalid)); }
        return Packed(InfBits(f, ua.sign), flags);
      }
      return Packed(InfBits(f, if ua.cls == Inf then ua.sign else sb), flags);
    }
    if ua.cls == Zero && ub.cls == Zero {
      ZeroMagnitude(f, a);
      ZeroMagnitude(f, b);
      if ua.sign == sb { return Packed(ZeroBits(f, ua.sign), flags); }
      return Packed(ZeroBits(f, rm == RDN), flags);
    }
    p := AddFinite(f, a, b, sub, rm, flags);
  }

  method AddFinite(f: Format, a: nat, b: nat, sub: bool, rm: RoundingMode, flags: Flags) returns (p: Packed)
    requires a < Pow2(f.width) && b < Pow2(f.width) && IsFinite(f, a) && IsFinite(f, b)
    requires !(IsZero(f, a) && IsZero(f, b))
    ensures SumRoundsTo(f, Signed(SignOf(f, a), Magnitude(f, a)) + Signed(SignOf(f, b) != sub, Magnitude(f, b)), rm, flags, p)
  {
    hide Shl, Scale, SignOf, Significand, LastPlace, Magnitude, RoundsTo, FlipSign, ExpField, FracField, Unpack;
    var ua, ub := Unpack(f, a), Unpack(f, b);
    Classified(f, a);
    Classified(f, b);
    if ua.cls == Zero {
      ZeroMagnitude(f, a);
      RepresentableRounds(f, b, rm, flags);
      if sub {
        FlipSignFields(f, b);
        SameMagnitude(f, b, FlipSign(f, b));
        RepresentableRounds(f, FlipSign(f, b), rm, flags);
        return Packed(FlipSign(f, b), flags);
      }
      return Packed(b, flags);
    }
    if ub.cls == Zero {
      ZeroMagnitude(f, b);
      RepresentableRounds(f, a, rm, flags);
      return Packed(a, flags);
    }
    UnpackFinite(f, a);
    UnpackFinite(f, b);
    p := AddCore(f, ua.sign, ua.sig, ua.exp2, ub.sign != sub, ub.sig, ub.exp2, rm, flags);
  }

  lemma SameMagnitude(f: Format, a: nat, b: nat)
    requires ExpField(f, a) == ExpField(f, b) && FracField(f, a) == FracField(f, b)
    ensures Magnitude(f, a) == Magnitude(f, b)
  {
  }

  // ---- Multiplication ---------------------------------------------------------------------

  ghost predicate MulSpec(f: Format, a: nat, b: nat, rm: RoundingMode, flags: Flags, p: Packed) {
    var sign := SignOf(f, a) != SignOf(f, b);
    if IsNaN(f, a) || IsNaN(f, b) then
      p == Packed(QNaN(f), if IsSignalling(f, a) || IsSignalling(f, b) then flags.Or(Invalid) else flags)
    else if (IsInf(f, a) && IsZero(f, b)) || (IsZero(f, a) && IsInf(f, b)) then p == Packed(QNaN(f), flags.Or(Invalid))
    else if IsInf(f, a) || IsInf(f, b) then p == Packed(InfBits(f, sign), flags)
    else if IsZero(f, a) || IsZero(f, b) then p == Packed(ZeroBits(f, sign), flags)
    else RoundsTo(f, sign, Product(Magnitude(f, a), Magnitude(f, b)), rm, flags, p)
  }

  method FpMul(f: Format, a: nat, b: nat, rm: RoundingMode, flags: Flags) returns (p: Packed)
    requires a < Pow2(f.width) && b < Pow2(f.width)
    ensures MulSpec(f, a, b, rm, flags, p)
  {
    hide Shl, Scale, SignOf, Magnitude, InfBits, ZeroBits, RoundsTo, RoundMag, Mul64, Unpack, IsNaN, IsInf, IsZero, IsFinite,
      IsSignalling, Product, QNaN, Flags.Or;
    var ua, ub := Unpack(f, a), Unpack(f, b);
    Classified(f, a);
    Classified(f, b);
    var sign := ua.sign != ub.sign;
    if ua.cls == NaN || ub.cls == NaN {
      return Packed(QNaN(f), if ua.snan || ub.snan then flags.Or(Invalid) else flags);
    }
    if ua.cls == Inf || ub.cls == Inf {
      if ua.cls == Zero || ub.cls == Zero { return Packed(QNaN(f), flags.Or(Invalid)); }
      return Packed(InfBits(f, sign), flags);
    }
    if ua.cls == Zero || ub.cls == Zero { return Packed(ZeroBits(f, sign), flags); }
    UnpackFinite(f, a);
    UnpackFinite(f, b);
    p := RoundMag(f, sign, Mul64(ua.sig.lo, ub.sig.lo), ua.exp2 + ub.exp2, false, rm, flags);
    ProductCorrect(f, sign, ua, ub, Magnitude(f, a), Magnitude(f, b), rm, flags);
  }

  /** The 128-bit product of two significands is the exact product of the magnitudes. */
  lemma ExactProduct(ua: Unpacked, ub: Unpacked, x: real, y: real)
    requires ua.sig.hi == 0 && ub.sig.hi == 0 && V(ua.sig) > 0 && V(ub.sig) > 0
    requires x == Scale(V(ua.sig) as real, ua.exp2) && y == Scale(V(ub.sig) as real, ub.exp2)
    ensures V(Mul64(ua.sig.lo, ub.sig.lo)) > 0
    ensures Product(x, y) == Scale(V(Mul64(ua.sig.lo, ub.sig.lo)) as real, ua.exp2 + ub.exp2)
  {
    hide Scale, Mul64, V;
    LowWord(ua.sig.lo);
    LowWord(ub.sig.lo);
    Mul64Correct(ua.sig.lo, ub.sig.lo);
    var p := ua.sig.lo * ub.sig.lo;
    PositiveProduct(ua.sig.lo, ub.sig.lo);
    ScaleProduct(ua.sig.lo as real, ua.exp2, ub.sig.lo as real, ub.exp2, x, y, p as real);
  }

  lemma PositiveProduct(a: nat, b: nat)
    requires a > 0 && b > 0
    ensures a * b > 0 && (a * b) as real == a as real * b as real
  {
  }

  lemma ProductCorrect(f: Format, sign: bool, ua: Unpacked, ub: Unpacked, x: real, y: real, rm: RoundingMode, flags: Flags)
    requires ua.sig.hi == 0 && ub.sig.hi == 0 && V(ua.sig) > 0 && V(ub.sig) > 0
    requires x == Scale(V(ua.sig) as real, ua.exp2) && y == Scale(V(ub.sig) as real, ub.exp2)
    ensures RoundsTo(f, sign, Product(x, y), rm, flags,
                     RoundMag(f, sign, Mul64(ua.sig.lo, ub.sig.lo), ua.exp2 + ub.exp2, false, rm, flags))
  {
    hide Scale, Mul64, V, RoundMag, RoundsTo, Msb128, Product;
    ExactProduct(ua, ub, x, y);
    RoundMagCorrect(f, sign, Mul64(ua.sig.lo, ub.sig.lo), ua.exp2 + ub.exp2, false, Product(x, y), rm, flags);
  }

  // ---- Division ---------------------------------------------------------------------------

  /** Left-align a significand so that its top bit sits at mantbits. */
  function Normalised(f: Format, u: Unpacked): Unpacked {
    if u.cls != Normal || (u.sig.hi == 0 && u.sig.lo == 0) then u
    else
      var shift := f.mantbits - Msb128(u.sig);
      if shift > 0 then u.(sig := Shl128(u.sig, shift), exp2 := u.exp2 - shift) else u
  }

  lemma NormalisedCorrect(f: Format, u: Unpacked)
    requires u.cls == Normal && 0 < V(u.sig) < Pow2(f.mantbits + 1)
    ensures var n := Normalised(f, u);
            && Pow2(f.mantbits) <= V(n.sig) < Pow2(f.mantbits + 1)
            && n.sig.hi == 0 && V(n.sig) == n.sig.lo
            && Scale(V(n.sig) as real, n.exp2) == Scale(V(u.sig) as real, u.exp2)
  {
    hide Shl, Low, Scale, V, Msb128, Shl128;
    var M := f.mantbits;
    ZeroValue(u.sig);
    MsbCorrect(u.sig);
    FormatFacts(f);
    if Msb128(u.sig) > M { Pow2Mono(M + 1, Msb128(u.sig)); }
    var shift := M - Msb128(u.sig);
    ShiftedBounds(V(u.sig), Msb128(u.sig), shift);
    Pow2Mono(M + 1, 128);
    if shift > 0 {
      Shl128Exact(u.sig, shift);
      ScaleUp(V(u.sig), shift, u.exp2 - shift);
    }
    NarrowWord(Normalised(f, u).sig, M + 1);
  }

  lemma NarrowWord(a: U128, L: nat)
    requires V(a) < Pow2(L) && L <= 64
    ensures a.hi == 0 && V(a) == a.lo
  {
    LowWordOf(a, L);
  }

  /** Fraction bits computed beyond the integer quotient, and root. */
  function QuotientBits(f: Format): nat { if f.width == 32 then 28 else 61 }
  function HalfRootBits(f: Format): nat { if f.width == 32 then 28 else 35 }

  ghost predicate DivSpec(f: Format, a: nat, b: nat, rm: RoundingMode, flags: Flags, p: Packed) {
    var sign := SignOf(f, a) != SignOf(f, b);
    if IsNaN(f, a) || IsNaN(f, b) then
      p == Packed(QNaN(f), if IsSignalling(f, a) || IsSignalling(f, b) then flags.Or(Invalid) else flags)
    else if (IsInf(f, a) && IsInf(f, b)) || (IsZero(f, a) && IsZero(f, b)) then p == Packed(QNaN(f), flags.Or(Invalid))
    else if IsInf(f, a) then p == Packed(InfBits(f, sign), flags)
    else if IsZero(f, b) then p == Packed(InfBits(f, sign), flags.Or(DivideByZero))
    else if IsInf(f, b) || IsZero(f, a) then p == Packed(ZeroBits(f, sign), flags)
    else forall x :: Product(Magnitude(f, b), x) == Magnitude(f, a) ==> RoundsTo(f, sign, x, rm, flags, p)
  }

  method FpDiv(f: Format, a: nat, b: nat, rm: RoundingMode, flags: Flags) returns (p: Packed)
    requires a < Pow2(f.width) && b < Pow2(f.width)
    ensures DivSpec(f, a, b, rm, flags, p)
  {
    hide Shl, Scale, SignOf, Magnitude, InfBits, ZeroBits, RoundsTo, Unpack, IsNaN, IsInf, IsZero, IsFinite,
      IsSignalling, Product, QNaN, Flags.Or;
    var ua, ub := Unpack(f, a), Unpack(f, b);
    Classified(f, a);
    Classified(f, b);
    var sign := ua.sign != ub.sign;
    if ua.cls == NaN || ub.cls == NaN {
      return Packed(QNaN(f), if ua.snan || ub.snan then flags.Or(Invalid) else flags);
    }
    if ua.cls == Inf {
      if ub.cls == Inf { return Packed(QNaN(f), flags.Or(Invalid)); }
      return Packed(InfBits(f, sign), flags);
    }
    if ub.cls == Inf { return Packed(ZeroBits(f, sign), flags); }
    if ub.cls == Zero {
      if ua.cls == Zero { return Packed(QNaN(f), flags.Or(Invalid)); }
      return Packed(InfBits(f, sign), flags.Or(DivideByZero));
    }
    if ua.cls == Zero { return Packed(ZeroBits(f, sign), flags); }
    UnpackFinite(f, a);
    UnpackFinite(f, b);
    p := DivideSigs(f, sign, ua, ub, rm, flags);
  }

  /** The dividend's high word is below the divisor, so the quotient fits one word, and the
      quotient keeps more bits than the format rounds to. */
  lemma QuotientFits(f: Format, sa: nat, sb: nat, num: U128)
    requires Pow2(f.mantbits) <= sa < Pow2(f.mantbits + 1)
    requires Pow2(f.mantbits) <= sb < Pow2(f.mantbits + 1)
    requires V(num) == Shl(sa, QuotientBits(f))
    ensures num.hi < sb
    ensures V(num) >= Shl(sb, f.mantbits + 2)
  {
    hide Shl;
    var M, P := f.mantbits, QuotientBits(f);
    ShlOrder(sa, Pow2(M + 1), P);
    ShlShl(1, M + 1, P);
    ShlWord(num.hi);
    Pow2Mono(M + 1 + P, M + 64);
    ShlShl(1, M, 64);
    ShlOrder(num.hi, Pow2(M), 64);
    ShlOrder(sa, Pow2(M), P);
    ShlShl(1, M, P);
    ShlOrder(sb, Pow2(M + 1), M + 2);
    ShlShl(1, M + 1, M + 2);
    assert M + P >= 2 * M + 3 || f.width == 64;
    if f.width == 32 { Pow2Mono(2 * M + 3, M + P); } else { Pow2Mono(2 * M + 3, M + P); }
  }

  lemma NumeratorExact(f: Format, sig: U128)
    requires V(sig) < Pow2(f.mantbits + 1)
    ensures V(Shl128(sig, QuotientBits(f))) == Shl(V(sig), QuotientBits(f))
  {
    hide Shl, V, Shl128;
    var M, P := f.mantbits, QuotientBits(f);
    ShlOrder(V(sig), Pow2(M + 1), P);
    ShlShl(1, M + 1, P);
    Pow2Mono(M + 1 + P, 128);
    Shl128Exact(sig, P);
  }

  method DivideSigs(f: Format, sign: bool, ua: Unpacked, ub: Unpacked, rm: RoundingMode, flags: Flags) returns (p: Packed)
    requires ua.cls == Normal && 0 < V(ua.sig) < Pow2(f.mantbits + 1)
    requires ub.cls == Normal && 0 < V(ub.sig) < Pow2(f.mantbits + 1)
    ensures forall x :: Product(Scale(V(ub.sig) as real, ub.exp2), x) == Scale(V(ua.sig) as real, ua.exp2)
                   ==> RoundsTo(f, sign, x, rm, flags, p)
  {
    hide Shl, Scale, V, RoundsTo, RoundMag, Shl128, Normalised, Product, Msb128;
    var na, nb := Normalised(f, ua), Normalised(f, ub);
    NormalisedCorrect(f, ua);
    NormalisedCorrect(f, ub);
    var P := QuotientBits(f);
    var num := Shl128(na.sig, P);
    NumeratorExact(f, na.sig);
    QuotientFits(f, V(na.sig), V(nb.sig), num);
    var q, rem := Udiv128by64(num, nb.sig.lo);
    p := RoundMag(f, sign, U128(0, q), na.exp2 - nb.exp2 - P, rem != 0, rm, flags);
    QuotientLarge(f, q, nb.sig.lo, rem, V(num));
    forall x | Product(Scale(V(ub.sig) as real, ub.exp2), x) == Scale(V(ua.sig) as real, ua.exp2)
      ensures RoundsTo(f, sign, x, rm, flags, p)
    {
      QuotientDescribed(na.sig.lo, na.exp2, nb.sig.lo, nb.exp2, P, q, rem, x);
      LowWord(q);
      RoundMagCorrect(f, sign, U128(0, q), na.exp2 - nb.exp2 - P, rem != 0, x, rm, flags);
    }
  }

  lemma QuotientAtLeast(q: nat, s: nat, rem: nat, num: nat, k: nat)
    requires num == q * s + rem && rem < s && num >= s * k
    ensures q >= k
  {
    Successor(q, s);
    if q + 1 <= k { TimesMono(s, q + 1, k); }
  }

  lemma Successor(q: nat, s: nat)
    ensures s * (q + 1) == q * s + s
  {
  }

  lemma QuotientLarge(f: Format, q: u64, sb: nat, rem: nat, num: nat)
    requires num == q * sb + rem && rem < sb && num >= Shl(sb, f.mantbits + 2)
    ensures V(U128(0, q)) > 0 && Msb128(U128(0, q)) >= f.mantbits + 1
  {
    hide Shl, Msb128, V;
    var k := Pow2(f.mantbits + 2);
    ShlIsTimes(sb, f.mantbits + 2);
    QuotientAtLeast(q, sb, rem, num, k);
    Pow2Positive(f.mantbits + 2);
    LowWord(q);
    AtLeastMsb(U128(0, q), f.mantbits + 2);
  }

  lemma AtLeastMsb(a: U128, k: nat)
    requires V(a) >= Pow2(k)
    ensures V(a) > 0 && Msb128(a) >= k
  {
    hide Shl, Msb128, V;
    Pow2Positive(k);
    MsbCorrect(a);
    if Msb128(a) < k { Pow2Mono(Msb128(a) + 1, k); }
  }

  lemma RealTimesSign(r: real, d: real)
    requires r > 0.0
    ensures d < 0.0 ==> r * d < 0.0
    ensures d == 0.0 ==> r * d == 0.0
    ensures d > 0.0 ==> r * d > 0.0
    ensures d >= 1.0 ==> r * d >= r
  {
  }

  /** A real quotient t with s * t == q * s + rem lies in [q, q + 1), at q exactly when rem is 0. */
  lemma RealQuotient(t: real, q: nat, s: nat, rem: nat)
    requires s > 0 && rem < s && s as real * t == (q * s + rem) as real
    ensures rem == 0 ==> t == q as real
    ensures rem != 0 ==> q as real < t < (q + 1) as real
  {
    var d := t - q as real;
    var r := s as real;
    assert (q * s) as real == q as real * r;
    assert r * d == rem as real;
    RealTimesSign(r, d);
  }

  lemma ScaledTimes(x: real, y: real, e: int, u: real, p: real)
    requires u == Scale(x, e) && p == x * y
    ensures u * y == Scale(p, e)
  {
    ScaleTimes(x, y, e);
  }

  /** Clearing exponents from b * x == a. */
  lemma ClearExponents(sa: nat, ea: int, b: real, eb: int, x: real, P: nat, u: real, t: real)
    requires u == Scale(b, eb) && u * x == Scale(sa as real, ea) && t == Scale(x, eb - ea + P)
    ensures b * t == Shl(sa, P) as real
  {
    hide Shl, Scale;
    var w := b * x;
    var k := eb - ea + P;
    ScaledTimes(b, x, eb, u, w);
    Commute(x, b);
    ScaledTimes(x, b, k, t, w);
    Commute(t, b);
    ScaleScale(w, eb, k - eb);
    ScaleScale(sa as real, ea, k - eb);
    ScaleNat(sa, P);
  }

  lemma QuotientDescribed(sa: nat, ea: int, sb: nat, eb: int, P: nat, q: nat, rem: nat, x: real)
    requires sb > 0 && rem < sb && Shl(sa, P) == q * sb + rem
    requires Product(Scale(sb as real, eb), x) == Scale(sa as real, ea)
    ensures Describes(q, ea - eb - P, rem != 0, x)
  {
    hide Shl, Scale;
    var k := eb - ea + P;
    ClearExponents(sa, ea, sb as real, eb, x, P, Scale(sb as real, eb), Scale(x, k));
    RealQuotient(Scale(x, k), q, sb, rem);
    Unscale(x, 0 - k, q);
    Unscale(x, 0 - k, q + 1);
  }

  // ---- Square root ------------------------------------------------------------------------

  ghost predicate SqrtSpec(f: Format, a: nat, rm: RoundingMode, flags: Flags, p: Packed) {
    if IsNaN(f, a) then p == Packed(QNaN(f), if IsSignalling(f, a) then flags.Or(Invalid) else flags)
    else if IsZero(f, a) then p == Packed(a, flags)
    else if SignOf(f, a) then p == Packed(QNaN(f), flags.Or(Invalid))
    else if IsInf(f, a) then p == Packed(InfBits(f, false), flags)
    else forall x :: x > 0.0 && Product(x, x) == Magnitude(f, a) ==> RoundsTo(f, false, x, rm, flags, p)
  }

  method FpSqrt(f: Format, a: nat, rm: RoundingMode, flags: Flags) returns (p: Packed)
    requires a < Pow2(f.width)
    ensures SqrtSpec(f, a, rm, flags, p)
  {
    hide Shl, Scale, SignOf, Magnitude, InfBits, RoundsTo, Unpack, IsNaN, IsInf, IsZero, IsFinite,
      IsSignalling, Product, QNaN, Flags.Or;
    var ua := Unpack(f, a);
    Classified(f, a);
    if ua.cls == NaN { return Packed(QNaN(f), if ua.snan then flags.Or(Invalid) else flags); }
    if ua.cls == Zero { return Packed(a, flags); }
    if ua.sign { return Packed(QNaN(f), flags.Or(Invalid)); }
    if ua.cls == Inf { return Packed(InfBits(f, false), flags); }
    UnpackFinite(f, a);
    p := RootSig(f, ua, rm, flags);
  }

  /** Shift an odd exponent's significand up by one, making the exponent even. */
  function EvenExponent(u: Unpacked): Unpacked {
    if u.exp2 % 2 == 1 then u.(sig := Shl128(u.sig, 1), exp2 := u.exp2 - 1) else u
  }

  lemma EvenExponentCorrect(f: Format, u: Unpacked)
    requires Pow2(f.mantbits) <= V(u.sig) < Pow2(f.mantbits + 1)
    ensures var n := EvenExponent(u);
            && n.exp2 % 2 == 0 && Pow2(f.mantbits) <= V(n.sig) < Pow2(f.mantbits + 2)
            && Scale(V(n.sig) as real, n.exp2) == Scale(V(u.sig) as real, u.exp2)
  {
    hide Shl, Scale, V, Shl128;
    var M := f.mantbits;
    FormatFacts(f);
    Pow2Mono(M + 2, 128);
    Pow2Mono(M + 1, M + 2);
    if u.exp2 % 2 == 1 {
      ShlOne(V(u.sig));
      PowDouble(M + 1);
      Shl128Exact(u.sig, 1);
      ScaleUp(V(u.sig), 1, u.exp2 - 1);
    }
  }

  lemma RadicandExact(f: Format, sig: U128)
    requires Pow2(f.mantbits) <= V(sig) < Pow2(f.mantbits + 2)
    ensures V(Shl128(sig, 2 * HalfRootBits(f))) == Shl(V(sig), 2 * HalfRootBits(f)) >= Pow2(2 * (f.mantbits + 1))
  {
    hide Shl, V, Shl128;
    var M, P := f.mantbits, 2 * HalfRootBits(f);
    ShlOrder(V(sig), Pow2(M + 2), P);
    ShlShl(1, M + 2, P);
    Pow2Mono(M + 2 + P, 128);
    Shl128Exact(sig, P);
    ShlOrder(V(sig), Pow2(M), P);
    ShlShl(1, M, P);
    Pow2Mono(2 * (M + 1), M + P);
  }

  lemma RootLarge(root: u64, rad: nat, k: nat)
    requires rad < (root + 1) * (root + 1) && rad >= Pow2(2 * k)
    ensures root >= Pow2(k)
  {
    hide Shl;
    var w := Pow2(k);
    ShlShl(1, k, k);
    ShlIsTimes(w, k);
    CommuteNat(root + 1, w);
    if root + 1 <= w {
      TimesMono(root + 1, root + 1, w);
      TimesMono(w, root + 1, w);
    }
  }

  lemma CommuteNat(a: nat, b: nat)
    ensures a * b == b * a
  {
  }

  method RootSig(f: Format, u: Unpacked, rm: RoundingMode, flags: Flags) returns (p: Packed)
    requires u.cls == Normal && 0 < V(u.sig) < Pow2(f.mantbits + 1)
    ensures forall x :: x > 0.0 && Product(x, x) == Scale(V(u.sig) as real, u.exp2) ==> RoundsTo(f, false, x, rm, flags, p)
  {
    hide Shl, Scale, V, RoundsTo, RoundMag, Shl128, Normalised, EvenExponent, Product, Msb128;
    NormalisedCorrect(f, u);
    EvenExponentCorrect(f, Normalised(f, u));
    var n := EvenExponent(Normalised(f, u));
    var P := HalfRootBits(f);
    var rad := Shl128(n.sig, 2 * P);
    RadicandExact(f, n.sig);
    var root, remNz := Isqrt128(rad);
    p := RoundMag(f, false, U128(0, root), n.exp2 / 2 - P, remNz, rm, flags);
    RootLarge(root, V(rad), f.mantbits + 1);
    LowWord(root);
    AtLeastMsb(U128(0, root), f.mantbits + 1);
    forall x | x > 0.0 && Product(x, x) == Scale(V(u.sig) as real, u.exp2)
      ensures RoundsTo(f, false, x, rm, flags, p)
    {
      RootDescribed(V(n.sig), n.exp2, P, root, remNz, x);
      RoundMagCorrect(f, false, U128(0, root), n.exp2 / 2 - P, remNz, x, rm, flags);
    }
  }

  /** A positive real t with t * t between consecutive squares lies between their roots. */
  lemma RealRoot(t: real, root: nat, rad: nat)
    requires t > 0.0 && Product(t, t) == rad as real
    requires root * root <= rad < (root + 1) * (root + 1)
    ensures root * root == rad ==> t == root as real
    ensures root * root != rad ==> root as real < t < (root + 1) as real
  {
    hide Product;
    SquareAsReal(root);
    SquareAsReal(root + 1);
    SquareOrder(t, root as real);
    SquareOrder(t, (root + 1) as real);
  }

  lemma SquareAsReal(n: nat)
    ensures (n * n) as real == Product(n as real, n as real)
  {
  }

  lemma SquareOrder(t: real, r: real)
    requires t >= 0.0 && r >= 0.0
    ensures t < r <==> Product(t, t) < Product(r, r)
    ensures t == r <==> Product(t, t) == Product(r, r)
  {
    var d, s := r - t, r + t;
    assert d * s == r * r - t * t;
    if s > 0.0 { RealTimesSign(s, d); Commute(d, s); }
  }

  lemma RootDescribed(sig: nat, e: int, P: nat, root: nat, remNz: bool, x: real)
    requires e % 2 == 0 && x > 0.0 && Product(x, x) == Scale(sig as real, e)
    requires root * root <= Shl(sig, 2 * P) < (root + 1) * (root + 1)
    requires remNz <==> root * root != Shl(sig, 2 * P)
    ensures Describes(root, e / 2 - P, remNz, x)
  {
    hide Shl, Scale;
    var h := P - e / 2;
    var t, p := Scale(x, h), x * x;
    ScaleProduct(x, h, x, h, t, t, p);
    ScaleScale(sig as real, e, 2 * h);
    ScaleNat(sig, 2 * P);
    ScalePositive(x, h);
    RealRoot(t, root, Shl(sig, 2 * P));
    Unscale(x, 0 - h, root);
    Unscale(x, 0 - h, root + 1);
  }

  // ---- Fused multiply-add -----------------------------------------------------------------

  ghost predicate MulAddSpec(f: Format, a: nat, b: nat, c: nat, rm: RoundingMode, flags: Flags, p: Packed) {
    var ps, sc := SignOf(f, a) != SignOf(f, b), SignOf(f, c);
    var productInvalid := (IsInf(f, a) && IsZero(f, b)) || (IsZero(f, a) && IsInf(f, b));
    if IsNaN(f, a) || IsNaN(f, b) || IsNaN(f, c) || productInvalid then
      p == Packed(QNaN(f), if IsSignalling(f, a) || IsSignalling(f, b) || IsSignalling(f, c) || productInvalid
                           then flags.Or(Invalid) else flags)
    else if IsInf(f, a) || IsInf(f, b) then
      p == if IsInf(f, c) && sc != ps then Packed(QNaN(f), flags.Or(Invalid)) else Packed(InfBits(f, ps), flags)
    else if IsInf(f, c) then p == Packed(InfBits(f, sc), flags)
    else if (IsZero(f, a) || IsZero(f, b)) && IsZero(f, c) && ps == sc then p == Packed(ZeroBits(f, ps), flags)
    else SumRoundsTo(f, Signed(ps, Product(Magnitude(f, a), Magnitude(f, b))) + Signed(sc, Magnitude(f, c)), rm, flags, p)
  }

  method FpMulAdd(f: Format, a: nat, b: nat, c: nat, rm: RoundingMode, flags: Flags) returns (p: Packed)
    requires a < Pow2(f.width) && b < Pow2(f.width) && c < Pow2(f.width)
    ensures MulAddSpec(f, a, b, c, rm, flags, p)
  {
    hide Shl, Scale, SignOf, Magnitude, InfBits, ZeroBits, SumRoundsTo, Unpack, IsNaN, IsInf, IsZero, IsFinite,
      IsSignalling, Product, QNaN, Flags.Or, Signed;
    var ua, ub, uc := Unpack(f, a), Unpack(f, b), Unpack(f, c);
    Classified(f, a);
    Classified(f, b);
    Classified(f, c);
    var psign := ua.sign != ub.sign;
    var prodInvalid := (ua.cls == Inf && ub.cls == Zero) || (ua.cls == Zero && ub.cls == Inf);
    if ua.cls == NaN || ub.cls == NaN || uc.cls == NaN || prodInvalid {
      return Packed(QNaN(f), if ua.snan || ub.snan || uc.snan || prodInvalid then flags.Or(Invalid) else flags);
    }
    if ua.cls == Inf || ub.cls == Inf {
      if uc.cls == Inf && uc.sign != psign { return Packed(QNaN(f), flags.Or(Invalid)); }
      return Packed(InfBits(f, psign), flags);
    }
    if uc.cls == Inf { return Packed(InfBits(f, uc.sign), flags); }
    if (ua.cls == Zero || ub.cls == Zero) && uc.cls == Zero && psign == uc.sign {
      return Packed(ZeroBits(f, psign), flags);
    }
    p := MulAddFinite(f, a, b, c, rm, flags);
  }

  method MulAddFinite(f: Format, a: nat, b: nat, c: nat, rm: RoundingMode, flags: Flags) returns (p: Packed)
    requires a < Pow2(f.width) && b < Pow2(f.width) && c < Pow2(f.width)
    requires IsFinite(f, a) && IsFinite(f, b) && IsFinite(f, c)
    requires !((IsZero(f, a) || IsZero(f, b)) && IsZero(f, c) && (SignOf(f, a) != SignOf(f, b)) == SignOf(f, c))
    ensures SumRoundsTo(f, Signed(SignOf(f, a) != SignOf(f, b), Product(Magnitude(f, a), Magnitude(f, b)))
                           + Signed(SignOf(f, c), Magnitude(f, c)), rm, flags, p)
  {
    hide Shl, Scale, SignOf, Magnitude, RoundsTo, Unpack, IsNaN, IsInf, IsZero, IsFinite, IsSignalling, Product, RoundMag, Mul64, V;
    var ua, ub, uc := Unpack(f, a), Unpack(f, b), Unpack(f, c);
    Classified(f, a);
    Classified(f, b);
    Classified(f, c);
    var psign := ua.sign != ub.sign;
    if uc.cls == Zero { ZeroMagnitude(f, c); } else { UnpackFinite(f, c); }
    if ua.cls == Zero || ub.cls == Zero {
      ZeroProduct(f, a, b);
      if uc.cls == Zero { return Packed(ZeroBits(f, rm == RDN), flags); }
      RepresentableRounds(f, c, rm, flags);
      return Packed(c, flags);
    }
    UnpackFinite(f, a);
    UnpackFinite(f, b);
    var sigP, eP := Mul64(ua.sig.lo, ub.sig.lo), ua.exp2 + ub.exp2;
    ExactProduct(ua, ub, Magnitude(f, a), Magnitude(f, b));
    if uc.cls == Zero {
      DescribesPositive(V(sigP), eP, false, Product(Magnitude(f, a), Magnitude(f, b)));
      RoundMagCorrect(f, psign, sigP, eP, false, Product(Magnitude(f, a), Magnitude(f, b)), rm, flags);
      return RoundMag(f, psign, sigP, eP, false, rm, flags);
    }
    p := AddCore(f, psign, sigP, eP, uc.sign, uc.sig, uc.exp2, rm, flags);
  }

  lemma ZeroProduct(f: Format, a: nat, b: nat)
    requires IsZero(f, a) || IsZero(f, b)
    ensures Product(Magnitude(f, a), Magnitude(f, b)) == 0.0
  {
    hide Magnitude, IsZero;
    if IsZero(f, a) { ZeroMagnitude(f, a); } else { ZeroMagnitude(f, b); }
  }
}
