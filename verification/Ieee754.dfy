/** The reference meaning of binary floating point: what a bit pattern denotes, and what it
    means for a bit pattern and a set of raised flags to be the correct rounding of an exact
    real magnitude (IEEE 754-2019 sections 3.4, 4.3 and 7).  Nothing here mentions how the
    emulator computes; the two formats are one definition. */
module Ieee754 {
  import opened Powers

  datatype RoundingMode = RNE | RTZ | RDN | RUP | RMM

  /** The accrued-exception flags of fcsr. */
  datatype Flags = Flags(nv: bool, dz: bool, of: bool, uf: bool, nx: bool) {
    function Or(that: Flags): Flags {
      Flags(nv || that.nv, dz || that.dz, of || that.of, uf || that.uf, nx || that.nx)
    }
  }

  const NoFlags := Flags(false, false, false, false, false)
  const Invalid := NoFlags.(nv := true)
  const DivideByZero := NoFlags.(dz := true)

  datatype Fmt = Fmt(mantbits: nat, expbits: nat, bias: nat, width: nat)

  const F32 := Fmt(23, 8, 127, 32)
  const F64 := Fmt(52, 11, 1023, 64)

  type Format = f: Fmt | f == F32 || f == F64 witness F32

  function EMin(f: Format): int { 1 - f.bias }
  function EMax(f: Format): int { f.bias }

  /** The exponent of the least quantum, i.e. of the last place of a subnormal. */
  function QMin(f: Format): int { EMin(f) - f.mantbits }

  // ---- What a bit pattern denotes -------------------------------------------------------

  function SignOf(f: Format, bits: nat): bool { Shr(bits, f.width - 1) % 2 == 1 }
  function ExpField(f: Format, bits: nat): nat { Low(Shr(bits, f.mantbits), f.expbits) }
  function FracField(f: Format, bits: nat): nat { Low(bits, f.mantbits) }
  function AllOnes(f: Format): nat { if f.width == 32 then 0xff else 0x7ff }

  predicate IsFinite(f: Format, bits: nat) { ExpField(f, bits) != AllOnes(f) }
  predicate IsInf(f: Format, bits: nat) { ExpField(f, bits) == AllOnes(f) && FracField(f, bits) == 0 }
  predicate IsNaN(f: Format, bits: nat) { ExpField(f, bits) == AllOnes(f) && FracField(f, bits) != 0 }
  predicate IsZero(f: Format, bits: nat) { ExpField(f, bits) == 0 && FracField(f, bits) == 0 }

  /** A NaN whose leading fraction bit is clear is signalling. */
  predicate IsSignalling(f: Format, bits: nat) {
    IsNaN(f, bits) && Shr(FracField(f, bits), f.mantbits - 1) % 2 == 0
  }

  /** The integer significand of a finite pattern and the exponent of its last place. */
  function Significand(f: Format, bits: nat): nat {
    if ExpField(f, bits) == 0 then FracField(f, bits) else Pow2(f.mantbits) + FracField(f, bits)
  }
  function LastPlace(f: Format, bits: nat): int {
    if ExpField(f, bits) == 0 then QMin(f) else ExpField(f, bits) - f.bias - f.mantbits
  }

  /** |v| for the finite value v a pattern denotes. */
  function Magnitude(f: Format, bits: nat): real {
    Scale(Significand(f, bits) as real, LastPlace(f, bits))
  }

  function Signed(sign: bool, x: real): real { if sign then -x else x }
  function Value(f: Format, bits: nat): real { Signed(SignOf(f, bits), Magnitude(f, bits)) }

  /** The exact product, named so that it can be carried around as one term. */
  function Product(x: real, y: real): real { x * y }

  function InfBits(f: Format, sign: bool): nat {
    (if sign then Pow2(f.width - 1) else 0) + Shl(AllOnes(f), f.mantbits)
  }
  function MaxFiniteBits(f: Format, sign: bool): nat {
    ShlIncreasing(AllOnes(f), 0, f.mantbits);
    InfBits(f, sign) - 1
  }
  function ZeroBits(f: Format, sign: bool): nat { if sign then Pow2(f.width - 1) else 0 }
  function QNaN(f: Format): nat { if f.width == 32 then 0x7fc0_0000 else 0x7ff8_0000_0000_0000 }

  // ---- Rounding -------------------------------------------------------------------------

  /** The magnitude z >= 0 rounded to an integer; `sign` is the sign of the number. */
  function RoundInt(z: real, sign: bool, rm: RoundingMode): int {
    var n := z.Floor;
    var frac := z - n as real;
    match rm
    case RNE => if frac > 0.5 || (frac == 0.5 && n % 2 == 1) then n + 1 else n
    case RTZ => n
    case RDN => if sign && frac > 0.0 then n + 1 else n
    case RUP => if !sign && frac > 0.0 then n + 1 else n
    case RMM => if frac >= 0.5 then n + 1 else n
  }

  /** x lies in [2^e, 2^(e+1)). */
  predicate InBinade(x: real, e: int) { Scale(1.0, e) <= x < Scale(1.0, e + 1) }

  /** The exponent of the last place available to a magnitude in binade e. */
  function Quantum(f: Format, e: int): int { (if e < EMin(f) then EMin(f) else e) - f.mantbits }

  /** Whether overflow rounds to infinity rather than to the largest finite number. */
  predicate OverflowsToInf(sign: bool, rm: RoundingMode) {
    rm == RNE || rm == RMM || rm == (if sign then RDN else RUP)
  }

  /** Tininess after rounding: rounded to the format's precision with an unbounded exponent
      range, the magnitude is still below the least normal number. */
  predicate TinyAfterRounding(f: Format, sign: bool, x: real, e: int, rm: RoundingMode) {
    Scale(RoundInt(Scale(x, f.mantbits - e), sign, rm) as real, e - f.mantbits) < Scale(1.0, EMin(f))
  }

  /** `bits` and `raised` are the correct rounding of the number of sign `sign` and exact
      magnitude x, where x lies in binade e. */
  predicate RoundedAt(f: Format, sign: bool, x: real, e: int, rm: RoundingMode, bits: nat, raised: Flags) {
    var q := Quantum(f, e);
    var z := Scale(x, -q);
    var n := RoundInt(z, sign, rm);
    if Scale(n as real, q) >= Scale(1.0, EMax(f) + 1) then
      && raised == NoFlags.(of := true, nx := true)
      && bits == if OverflowsToInf(sign, rm) then InfBits(f, sign) else MaxFiniteBits(f, sign)
    else
      && bits < Pow2(f.width)
      && IsFinite(f, bits)
      && SignOf(f, bits) == sign
      && Magnitude(f, bits) == Scale(n as real, q)
      && raised == NoFlags.(nx := n as real != z,
                            uf := n as real != z && TinyAfterRounding(f, sign, x, e, rm))
  }

  ghost predicate CorrectlyRounded(f: Format, sign: bool, x: real, rm: RoundingMode, bits: nat, raised: Flags) {
    exists e :: InBinade(x, e) && RoundedAt(f, sign, x, e, rm, bits, raised)
  }
}
