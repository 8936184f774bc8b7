/** Comparison (softfloat.c: fcmp, the relations built on it, fp_minmax): ordering bit patterns by
    class, sign, leading exponent and left-aligned significand is ordering the numbers they denote. */
module FloatCompare {
  import opened Powers
  import opened Ieee754
  import opened Rounding
  import opened Words
  import opened SoftFloat
  import opened FloatOps

  function Leading(u: Unpacked): int { u.exp2 + (if u.cls == Zero then -100000 else Msb128(u.sig)) }

  function LeftAligned(sig: U128): U128
    requires V(sig) > 0
  {
    MsbCorrect(sig);
    Shl128(sig, 127 - Msb128(sig))
  }

  function CompareMagnitudes(ua: Unpacked, ub: Unpacked): int
    requires ua.cls == Normal ==> V(ua.sig) > 0
    requires ub.cls == Normal ==> V(ub.sig) > 0
    requires ua.cls == Zero ==> ub.cls != Zero && Leading(ua) != Leading(ub)
    requires ub.cls == Zero ==> Leading(ua) != Leading(ub)
    requires ua.cls != NaN && ub.cls != NaN
  {
    if ua.cls == Inf || ub.cls == Inf then (if ua.cls == Inf then 1 else 0) - (if ub.cls == Inf then 1 else 0)
    else if Leading(ua) != Leading(ub) then (if Leading(ua) < Leading(ub) then -1 else 1)
    else Cmp128(LeftAligned(ua.sig), LeftAligned(ub.sig))
  }

  /** A nonzero operand's leading exponent is far above the sentinel that stands for zero. */
  lemma LeadingAboveZero(f: Format, bits: nat)
    requires bits < Pow2(f.width) && IsFinite(f, bits) && !IsZero(f, bits)
    ensures Leading(Unpack(f, bits)) >= QMin(f) > -100000
  {
    hide Shl, Scale, Unpack, V, Msb128, IsFinite, IsZero, Magnitude, Significand;
    Classified(f, bits);
    UnpackFinite(f, bits);
    MsbCorrect(Unpack(f, bits).sig);
    LastPlaceAtLeast(f, bits);
  }

  lemma UnpackedZero(f: Format, bits: nat)
    requires bits < Pow2(f.width) && IsZero(f, bits)
    ensures Leading(Unpack(f, bits)) == -100000
  {
    hide Shl, SignOf;
  }

  function Fcmp(f: Format, a: nat, b: nat): int
    requires a < Pow2(f.width) && b < Pow2(f.width) && !IsNaN(f, a) && !IsNaN(f, b)
  {
    var ua, ub := Unpack(f, a), Unpack(f, b);
    if ua.cls == Zero && ub.cls == Zero then 0
    else if ua.sign != ub.sign then (if ua.sign then -1 else 1)
    else
      Comparable(f, a, b);
      var mag := CompareMagnitudes(ua, ub);
      if ua.sign then -mag else mag
  }

  lemma Comparable(f: Format, a: nat, b: nat)
    requires a < Pow2(f.width) && b < Pow2(f.width) && !IsNaN(f, a) && !IsNaN(f, b)
    requires !(IsZero(f, a) && IsZero(f, b))
    ensures var ua, ub := Unpack(f, a), Unpack(f, b);
            && (ua.cls == Normal ==> V(ua.sig) > 0) && (ub.cls == Normal ==> V(ub.sig) > 0)
            && (ua.cls == Zero ==> ub.cls != Zero && Leading(ua) != Leading(ub))
            && (ub.cls == Zero ==> Leading(ua) != Leading(ub))
            && ua.cls != NaN && ub.cls != NaN
  {
    hide Shl, Scale, Unpack, V, Leading, IsFinite, IsZero, IsInf, IsNaN, Magnitude, Significand;
    Classified(f, a);
    Classified(f, b);
    Ready(f, a);
    Ready(f, b);
  }

  lemma Ready(f: Format, a: nat)
    requires a < Pow2(f.width)
    ensures var u := Unpack(f, a);
            && (u.cls == Normal ==> V(u.sig) > 0 && Leading(u) > -100000)
            && (u.cls == Zero ==> Leading(u) == -100000)
            && (u.cls == Inf ==> Leading(u) > -100000)
  {
    hide Shl, Scale, V, IsFinite, Magnitude, Significand;
    Classified(f, a);
    if IsZero(f, a) { UnpackedZero(f, a); }
    else if IsFinite(f, a) { UnpackFinite(f, a); LeadingAboveZero(f, a); }
    else { InfLeading(f, a); }
  }

  lemma InfLeading(f: Format, a: nat)
    requires a < Pow2(f.width) && !IsFinite(f, a)
    ensures Leading(Unpack(f, a)) > -100000
  {
    hide Shl, Shr, Low, SignOf;
    assert Clz64(0) == 64;
  }

  lemma LeadingDecides(sa: U128, ea: int, sb: U128, eb: int)
    requires V(sa) > 0 && V(sb) > 0 && ea + Msb128(sa) < eb + Msb128(sb)
    ensures Scale(V(sa) as real, ea) < Scale(V(sb) as real, eb)
  {
    hide Shl, Scale, V, Msb128;
    MsbCorrect(sa);
    MsbCorrect(sb);
    ScaleBelowPow(V(sa), Msb128(sa) + 1, ea);
    ScaleBelowPow(V(sb), Msb128(sb), eb);
    ScaleOneOrder(eb + Msb128(sb), ea + Msb128(sa) + 1);
  }

  lemma AlignedValue(s: U128, e: int)
    requires V(s) > 0
    ensures Scale(V(s) as real, e) == Scale(V(LeftAligned(s)) as real, e + Msb128(s) - 127)
  {
    hide Shl, Scale, V, Msb128, Shl128;
    MsbCorrect(s);
    var n := 127 - Msb128(s);
    ShiftedBounds(V(s), Msb128(s), n);
    Shl128Exact(s, n);
    ScaleUp(V(s), n, e - n);
  }

  lemma SignificandDecides(sa: U128, ea: int, sb: U128, eb: int)
    requires V(sa) > 0 && V(sb) > 0 && ea + Msb128(sa) == eb + Msb128(sb)
    ensures var c := Cmp128(LeftAligned(sa), LeftAligned(sb));
            && (c < 0 <==> Scale(V(sa) as real, ea) < Scale(V(sb) as real, eb))
            && (c == 0 <==> Scale(V(sa) as real, ea) == Scale(V(sb) as real, eb))
  {
    hide Shl, Scale, V, Msb128, LeftAligned, Cmp128;
    AlignedValue(sa, ea);
    AlignedValue(sb, eb);
    Cmp128Correct(LeftAligned(sa), LeftAligned(sb));
    ScaleOrder(V(LeftAligned(sa)) as real, V(LeftAligned(sb)) as real, ea + Msb128(sa) - 127);
  }

  lemma MagnitudesCompared(f: Format, a: nat, b: nat)
    requires a < Pow2(f.width) && b < Pow2(f.width) && IsFinite(f, a) && IsFinite(f, b)
    requires !(IsZero(f, a) && IsZero(f, b)) && !IsNaN(f, a) && !IsNaN(f, b)
    ensures (Comparable(f, a, b); CompareMagnitudes(Unpack(f, a), Unpack(f, b))) < 0 <==> Magnitude(f, a) < Magnitude(f, b)
    ensures (Comparable(f, a, b); CompareMagnitudes(Unpack(f, a), Unpack(f, b))) == 0 <==> Magnitude(f, a) == Magnitude(f, b)
  {
    hide Shl, Scale, Unpack, V, Leading, LeftAligned, Cmp128, IsFinite, IsZero, IsInf, IsNaN, Magnitude, Significand, LastPlace;
    Comparable(f, a, b);
    Classified(f, a);
    Classified(f, b);
    var ua, ub := Unpack(f, a), Unpack(f, b);
    Ready(f, a);
    Ready(f, b);
    if IsZero(f, a) {
      ZeroMagnitude(f, a);
      UnpackFinite(f, b);
    } else if IsZero(f, b) {
      ZeroMagnitude(f, b);
      UnpackFinite(f, a);
    } else {
      UnpackFinite(f, a);
      UnpackFinite(f, b);
      LeadingOfNormal(ua);
      LeadingOfNormal(ub);
      if Leading(ua) < Leading(ub) { LeadingDecides(ua.sig, ua.exp2, ub.sig, ub.exp2); }
      else if Leading(ua) > Leading(ub) { LeadingDecides(ub.sig, ub.exp2, ua.sig, ua.exp2); }
      else { SignificandDecides(ua.sig, ua.exp2, ub.sig, ub.exp2); }
    }
  }

  lemma LeadingOfNormal(u: Unpacked)
    requires u.cls == Normal
    ensures Leading(u) == u.exp2 + Msb128(u.sig)
  {
  }

  lemma FiniteCompared(f: Format, a: nat, b: nat)
    requires a < Pow2(f.width) && b < Pow2(f.width) && IsFinite(f, a) && IsFinite(f, b)
    requires !IsNaN(f, a) && !IsNaN(f, b)
    ensures Fcmp(f, a, b) < 0 <==> Value(f, a) < Value(f, b)
    ensures Fcmp(f, a, b) == 0 <==> Value(f, a) == Value(f, b)
  {
    hide Shl, Unpack, CompareMagnitudes, IsFinite, IsZero, IsInf, IsNaN, Magnitude, SignOf;
    Classified(f, a);
    Classified(f, b);
    NonNegative(f, a);
    NonNegative(f, b);
    if !(IsZero(f, a) && IsZero(f, b)) {
      Comparable(f, a, b);
      MagnitudesCompared(f, a, b);
    }
  }

  lemma NonNegative(f: Format, a: nat)
    requires a < Pow2(f.width) && IsFinite(f, a)
    ensures Magnitude(f, a) >= 0.0 && (Magnitude(f, a) == 0.0 <==> IsZero(f, a))
  {
    hide Shl, Magnitude, IsZero, IsFinite;
    if IsZero(f, a) { ZeroMagnitude(f, a); } else { UnpackFinite(f, a); }
  }

  // ---- The extended number line -----------------------------------------------------------

  datatype Point = MinusInfinity | Number(v: real) | PlusInfinity

  /** The point a pattern that is not a NaN denotes. */
  function PointOf(f: Format, a: nat): Point {
    if IsFinite(f, a) then Number(Value(f, a)) else if SignOf(f, a) then MinusInfinity else PlusInfinity
  }

  predicate Less(x: Point, y: Point) {
    match x
    case MinusInfinity => y != MinusInfinity
    case Number(v) => y == PlusInfinity || (y.Number? && v < y.v)
    case PlusInfinity => false
  }

  lemma InfiniteCompared(f: Format, a: nat, b: nat)
    requires a < Pow2(f.width) && b < Pow2(f.width) && !IsNaN(f, a) && !IsNaN(f, b) && !(IsFinite(f, a) && IsFinite(f, b))
    ensures Fcmp(f, a, b) < 0 <==> Less(PointOf(f, a), PointOf(f, b))
    ensures Fcmp(f, a, b) == 0 <==> PointOf(f, a) == PointOf(f, b)
  {
    hide Shl, Unpack, Leading, LeftAligned, Cmp128, IsFinite, IsZero, IsInf, IsNaN, Value, SignOf, V;
    Classified(f, a);
    Classified(f, b);
    Comparable(f, a, b);
  }

  /** The comparison of patterns is the comparison of the points they denote, with -0 equal to +0 and
      the infinities at the ends. */
  lemma FcmpCorrect(f: Format, a: nat, b: nat)
    requires a < Pow2(f.width) && b < Pow2(f.width) && !IsNaN(f, a) && !IsNaN(f, b)
    ensures Fcmp(f, a, b) < 0 <==> Less(PointOf(f, a), PointOf(f, b))
    ensures Fcmp(f, a, b) == 0 <==> PointOf(f, a) == PointOf(f, b)
  {
    hide Fcmp, IsNaN, IsFinite, Value, SignOf;
    if IsFinite(f, a) && IsFinite(f, b) { FiniteCompared(f, a, b); } else { InfiniteCompared(f, a, b); }
  }

  // ---- The relations ----------------------------------------------------------------------

  /** f32_eq and f64_eq: quiet, so only a signalling NaN is invalid. */
  function FpEq(f: Format, a: nat, b: nat, flags: Flags): (bool, Flags)
    requires a < Pow2(f.width) && b < Pow2(f.width)
  {
    var ua, ub := Unpack(f, a), Unpack(f, b);
    Classified(f, a);
    Classified(f, b);
    if ua.cls == NaN || ub.cls == NaN then (false, if ua.snan || ub.snan then flags.Or(Invalid) else flags)
    else (Fcmp(f, a, b) == 0, flags)
  }

  /** f32_lt and f64_lt: signalling. */
  function FpLt(f: Format, a: nat, b: nat, flags: Flags): (bool, Flags)
    requires a < Pow2(f.width) && b < Pow2(f.width)
  {
    Classified(f, a);
    Classified(f, b);
    if Unpack(f, a).cls == NaN || Unpack(f, b).cls == NaN then (false, flags.Or(Invalid)) else (Fcmp(f, a, b) < 0, flags)
  }

  /** f32_le and f64_le. */
  function FpLe(f: Format, a: nat, b: nat, flags: Flags): (bool, Flags)
    requires a < Pow2(f.width) && b < Pow2(f.width)
  {
    Classified(f, a);
    Classified(f, b);
    if Unpack(f, a).cls == NaN || Unpack(f, b).cls == NaN then (false, flags.Or(Invalid)) else (Fcmp(f, a, b) <= 0, flags)
  }

  predicate Unordered(f: Format, a: nat, b: nat) { IsNaN(f, a) || IsNaN(f, b) }

  /** The three relations: false whenever a NaN is involved, otherwise the order of the points; the
      flags of IEEE 754 section 5.11. */
  lemma RelationsCorrect(f: Format, a: nat, b: nat, flags: Flags)
    requires a < Pow2(f.width) && b < Pow2(f.width)
    ensures FpEq(f, a, b, flags).0 <==> !Unordered(f, a, b) && PointOf(f, a) == PointOf(f, b)
    ensures FpLt(f, a, b, flags).0 <==> !Unordered(f, a, b) && Less(PointOf(f, a), PointOf(f, b))
    ensures FpLe(f, a, b, flags).0 <==> !Unordered(f, a, b) && !Less(PointOf(f, b), PointOf(f, a))
    ensures FpEq(f, a, b, flags).1 == if IsSignalling(f, a) || IsSignalling(f, b) then flags.Or(Invalid) else flags
    ensures FpLt(f, a, b, flags).1 == FpLe(f, a, b, flags).1 == if Unordered(f, a, b) then flags.Or(Invalid) else flags
  {
    hide Fcmp, IsNaN, PointOf, Unpack, Shl, Flags.Or;
    Classified(f, a);
    Classified(f, b);
    SignallingIsNaN(f, a);
    SignallingIsNaN(f, b);
    if !Unordered(f, a, b) {
      FcmpCorrect(f, a, b);
      Trichotomy(PointOf(f, a), PointOf(f, b));
    }
  }

  lemma SignallingIsNaN(f: Format, a: nat)
    ensures IsSignalling(f, a) ==> IsNaN(f, a)
  {
    hide Shr, IsNaN;
  }

  lemma Trichotomy(x: Point, y: Point)
    ensures Less(x, y) || x == y || Less(y, x)
    ensures !(Less(x, y) && Less(y, x)) && (x == y ==> !Less(x, y))
  {
  }

  // ---- Minimum and maximum ----------------------------------------------------------------

  /** fp_minmax. */
  function FpMinMax(f: Format, a: nat, b: nat, wantMax: bool, flags: Flags): Packed
    requires a < Pow2(f.width) && b < Pow2(f.width)
  {
    var ua, ub := Unpack(f, a), Unpack(f, b);
    Classified(f, a);
    Classified(f, b);
    if ua.cls == NaN || ub.cls == NaN then
      var raised := if ua.snan || ub.snan then flags.Or(Invalid) else flags;
      Packed(if ua.cls == NaN && ub.cls == NaN then QNaN(f) else if ua.cls == NaN then b else a, raised)
    else
      var c := Fcmp(f, a, b);
      Packed(if c == 0 then (if ua.sign == !wantMax then a else b) else if wantMax then (if c > 0 then a else b) else if c < 0 then a else b,
             flags)
  }

  /** The result is the operand nobody is beyond; among equal points (the two zeros) it takes the sign
      the direction asks for; a single NaN loses to the number. */
  lemma MinMaxCorrect(f: Format, a: nat, b: nat, wantMax: bool, flags: Flags)
    requires a < Pow2(f.width) && b < Pow2(f.width)
    ensures var r := FpMinMax(f, a, b, wantMax, flags);
      && r.flags == (if IsSignalling(f, a) || IsSignalling(f, b) then flags.Or(Invalid) else flags)
      && if IsNaN(f, a) then r.bits == (if IsNaN(f, b) then QNaN(f) else b)
         else if IsNaN(f, b) then r.bits == a
         else
           && r.bits in {a, b}
           && (forall x :: x in {a, b} ==>
                 if wantMax then !Less(PointOf(f, r.bits), PointOf(f, x)) else !Less(PointOf(f, x), PointOf(f, r.bits)))
           && (PointOf(f, a) == PointOf(f, b) ==>
                 SignOf(f, r.bits) == if wantMax then SignOf(f, a) && SignOf(f, b) else SignOf(f, a) || SignOf(f, b))
  {
    hide Fcmp, IsNaN, PointOf, Unpack, Shl, Flags.Or, SignOf, QNaN;
    Classified(f, a);
    Classified(f, b);
    SignallingIsNaN(f, a);
    SignallingIsNaN(f, b);
    if !Unordered(f, a, b) {
      FcmpCorrect(f, a, b);
      Trichotomy(PointOf(f, a), PointOf(f, b));
      Trichotomy(PointOf(f, a), PointOf(f, a));
      Trichotomy(PointOf(f, b), PointOf(f, b));
    }
  }
}
