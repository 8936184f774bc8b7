/** The arithmetic operations of softfloat.c, and their correctness against Ieee754. */
module SoftFloat {
  import opened Powers
  import opened Ieee754
  import opened Rounding
  import opened Words
  import opened Wide

  /** x | 1 when `bit` is set. */
  function OrBit0(x: u64, bit: bool): nat { if bit && x % 2 == 0 then x + 1 else x }

  /** Align the leading one of `mant` to LeadPos, jamming whatever is shifted out. */
  function AlignedWord(f: Format, mant: U128, sticky: bool): nat {
    var shift := LeadPos(f) - Msb128(mant);
    if shift >= 0 then OrBit0(Shl128(mant, shift).lo, sticky)
    else
      var j := Shr128Jam(mant, -shift);
      OrBit0(j.value.lo, j.lost || sticky)
  }

  function RoundMag(f: Format, sign: bool, mant: U128, exp2: int, sticky: bool, rm: RoundingMode, flags: Flags): Packed {
    if mant.hi == 0 && mant.lo == 0 then Packed(ZeroBits(f, sign), flags)
    else RoundPack(f, sign, exp2 + Msb128(mant) + f.bias - 1, AlignedWord(f, mant, sticky), rm, flags)
  }

  /** The magnitude a (mant, exp2, sticky) triple describes: exact without the sticky bit, and
      strictly inside the last place with it. */
  predicate Describes(m: nat, exp2: int, sticky: bool, x: real) {
    if sticky then Scale(m as real, exp2) < x < Scale((m + 1) as real, exp2)
    else x == Scale(m as real, exp2)
  }

  // ---- Alignment keeps agreement ----------------------------------------------------------

  lemma AgreesExact(s: nat, g: nat)
    ensures Agrees(s as real, s, g)
  {
    hide Shl, Shr, Low;
    ShiftSplit(s, g);
    ShlAdd(Shr(s, g), 1, g);
  }

  lemma OddHasLowBit(s: nat, g: nat)
    requires s % 2 == 1 && g >= 1
    ensures Low(s, g) != 0
  {
    hide Shl, Shr, Low;
    ShiftSplit(s, g);
    ShlEven(Shr(s, g), g);
  }

  /** A number strictly inside the cell [m, m+1) * 2^h agrees, at any coarser granularity, with
      the cell's lower end with its last bit set. */
  lemma JamBetween(y: real, m: nat, h: nat, s: nat, g: nat)
    requires Shl(m, h) as real < y < Shl(m + 1, h) as real
    requires h <= g && g >= 1
    requires s % 2 == 1 && (s == Shl(m, h) || (s == Shl(m, h) + 1 && Shl(m, h) % 2 == 0))
    ensures Agrees(y, s, g)
  {
    hide Shl, Shr, Low;
    var k := Shr(s, g);
    OddHasLowBit(s, g);
    ShiftSplit(s, g);
    ShlEven(k, g);
    ShlAdd(k, 1, g);
    ShlShl(k + 1, g - h, h);
    ShlOrder(m, Shl(k + 1, g - h), h);
    ShlOrder(Shl(k + 1, g - h), m + 1, h);
  }

  lemma ShiftedBounds(m: nat, mb: nat, n: nat)
    requires Pow2(mb) <= m < Pow2(mb + 1)
    ensures Pow2(mb + n) <= Shl(m, n) < Pow2(mb + n + 1)
    ensures Shl(m + 1, n) <= Pow2(mb + n + 1)
  {
    hide Shl;
    ShlShl(1, mb, n);
    ShlShl(1, mb + 1, n);
    ShlOrder(m, Pow2(mb), n);
    ShlOrder(m, Pow2(mb + 1), n);
    ShlOrder(Pow2(mb + 1), m + 1, n);
  }

  lemma LowWordOf(a: U128, L: nat)
    requires V(a) < Pow2(L) && L <= 64
    ensures V(a) == a.lo
  {
    Pow2Mono(L, 64);
    Pow2Words();
  }

  /** Rescaling the exact magnitude to the word's last place. */
  lemma Rescale(x: real, exp2: int, n: int, m: nat)
    ensures var y := Scale(x, n - exp2);
            && (x < Scale(m as real, exp2) <==> y < Scale(m as real, n))
            && (x == Scale(m as real, exp2) <==> y == Scale(m as real, n))
  {
    hide Scale;
    ScaleScale(m as real, exp2, n - exp2);
    ScaleOrder(x, Scale(m as real, exp2), n - exp2);
  }

  lemma AlignLeft(f: Format, mant: U128, exp2: int, sticky: bool, x: real)
    requires V(mant) > 0 && Describes(V(mant), exp2, sticky, x)
    requires Msb128(mant) <= LeadPos(f) && (sticky ==> Msb128(mant) >= f.mantbits + 1)
    ensures var s := AlignedWord(f, mant, sticky);
            && Pow2(LeadPos(f)) <= s < Pow2(LeadPos(f) + 1)
            && Agrees(Scale(x, LeadPos(f) - Msb128(mant) - exp2), s, RoundBits(f) - 1)
  {
    hide Shl, Shr, Low, Scale, V, Msb128, Agrees, Shl128;
    MsbCorrect(mant);
    var L, mb, m := LeadPos(f), Msb128(mant), V(mant);
    var n := L - mb;
    FormatFacts(f);
    ShiftedBounds(m, mb, n);
    Pow2Mono(L + 1, 128);
    Shl128Exact(mant, n);
    LowWordOf(Shl128(mant, n), L + 1);
    ScaleNat(m, n);
    ScaleNat(m + 1, n);
    Rescale(x, exp2, n, m);
    Rescale(x, exp2, n, m + 1);
    EvenPow(L + 1);
    if sticky {
      OddOr(Shl128(mant, n).lo, sticky);
      JamBetween(Scale(x, n - exp2), m, n, AlignedWord(f, mant, sticky), RoundBits(f) - 1);
    } else {
      AgreesExact(Shl(m, n), RoundBits(f) - 1);
    }
  }

  lemma OddOr(x: u64, bit: bool)
    ensures bit ==> OrBit0(x, bit) % 2 == 1 && (OrBit0(x, bit) == x || (OrBit0(x, bit) == x + 1 && x % 2 == 0))
    ensures !bit ==> OrBit0(x, bit) == x
  {
  }

  lemma AlignRight(f: Format, mant: U128, exp2: int, sticky: bool, x: real)
    requires V(mant) > 0 && Describes(V(mant), exp2, sticky, x) && Msb128(mant) > LeadPos(f)
    ensures var s := AlignedWord(f, mant, sticky);
            && Pow2(LeadPos(f)) <= s < Pow2(LeadPos(f) + 1)
            && Agrees(Scale(x, LeadPos(f) - Msb128(mant) - exp2), s, RoundBits(f) - 1)
  {
    hide Shl, Shr, Low, Scale, V, Msb128, Agrees, Shr128Jam;
    MsbCorrect(mant);
    var L, mb, m := LeadPos(f), Msb128(mant), V(mant);
    var d := mb - L;
    var j := Shr(m, d);
    FormatFacts(f);
    Shr128Correct(mant, d);
    ShrBelow(m, d, Pow2(L));
    ShrBelow(m, d, Pow2(L + 1));
    ShlShl(1, L, d);
    ShlShl(1, L + 1, d);
    LowWordOf(Shr128Jam(mant, d).value, L + 1);
    EvenPow(L + 1);
    OddOr(Shr128Jam(mant, d).value.lo, Low(m, d) != 0 || sticky);
    ShiftedInside(m, d, exp2, sticky, x);
    ShlUnits(j);
    if Low(m, d) != 0 || sticky {
      JamBetween(Scale(x, L - mb - exp2), j, 0, AlignedWord(f, mant, sticky), RoundBits(f) - 1);
    } else {
      AgreesExact(j, RoundBits(f) - 1);
    }
  }

  lemma ShlUnits(j: nat)
    ensures Shl(j, 0) == j && Shl(j + 1, 0) == j + 1
  {
  }

  lemma ShiftedInside(m: nat, d: nat, exp2: int, sticky: bool, x: real)
    requires Describes(m, exp2, sticky, x)
    ensures Describes(Shr(m, d), exp2 + d, Low(m, d) != 0 || sticky, x)
    ensures var y := Scale(x, 0 - d - exp2); var j := Shr(m, d);
            if Low(m, d) != 0 || sticky then j as real < y < (j + 1) as real else y == j as real
  {
    hide Shl, Shr, Low, Scale;
    var j := Shr(m, d);
    ShiftSplit(m, d);
    ShlAdd(j, 1, d);
    ScaleUp(j, d, exp2);
    ScaleUp(j + 1, d, exp2);
    ScaleOrder(Shl(j, d) as real, m as real, exp2);
    ScaleOrder((m + 1) as real, Shl(j + 1, d) as real, exp2);
    ScaleOrder(m as real, (m + 1) as real, exp2);
    Unscale(x, exp2 + d, j);
    Unscale(x, exp2 + d, j + 1);
  }

  lemma ScaleUp(j: nat, d: nat, e: int)
    ensures Scale(Shl(j, d) as real, e) == Scale(j as real, e + d)
  {
    hide Scale;
    ScaleNat(j, d);
    ScaleScale(j as real, d, e);
  }

  lemma Unscale(x: real, e: int, j: nat)
    ensures x < Scale(j as real, e) <==> Scale(x, 0 - e) < j as real
    ensures x == Scale(j as real, e) <==> Scale(x, 0 - e) == j as real
  {
    hide Scale;
    ScaleScale(j as real, e, 0 - e);
    ScaleUnit(j as real);
    ScaleOrder(x, Scale(j as real, e), 0 - e);
  }

  // ---- round_mag is correct ---------------------------------------------------------------

  /** round_mag returns the correct rounding of every magnitude its arguments describe, provided
      a sticky bit lands below the half place. */
  lemma RoundMagCorrect(f: Format, sign: bool, mant: U128, exp2: int, sticky: bool, x: real, rm: RoundingMode, flags: Flags)
    requires V(mant) > 0 && Describes(V(mant), exp2, sticky, x)
    requires sticky ==> Msb128(mant) >= f.mantbits + 1
    ensures RoundsTo(f, sign, x, rm, flags, RoundMag(f, sign, mant, exp2, sticky, rm, flags))
  {
    hide Shl, Shr, Low, Scale, V, Msb128, Agrees, AlignedWord, RoundPack, InBinade, RoundedAt;
    ZeroValue(mant);
    var s := AlignedWord(f, mant, sticky);
    var e := exp2 + Msb128(mant);
    var y := Scale(x, LeadPos(f) - e);
    if Msb128(mant) <= LeadPos(f) { AlignLeft(f, mant, exp2, sticky, x); }
    else { AlignRight(f, mant, exp2, sticky, x); }
    ScaleScale(x, LeadPos(f) - e, e - LeadPos(f));
    ScaleUnit(x);
    RoundPackCorrect(f, sign, x, e, y, s, rm);
    FlagsAccrue(f, sign, e + f.bias - 1, s, rm, flags);
  }

  lemma ZeroValue(a: U128)
    ensures V(a) == 0 <==> a.hi == 0 && a.lo == 0
  {
  }

  // ---- add_core: one exact sum in a 256-bit window ----------------------------------------

  /** The signed number a sign, significand and exponent stand for. */
  function Num(sign: bool, m: nat, e: int): real { Signed(sign, Scale(m as real, e)) }

  /** The window: the higher-leading operand sits exactly at the top, the other is exact or, when
      it runs off the bottom, strictly inside its last window place. */
  predicate Window(A: nat, B: nat, stickyY: bool, wbot: int, x: real, y: real) {
    && Pow2(253) <= A < Pow2(254) && B < Pow2(254)
    && (stickyY ==> B < Pow2(128))
    && x == Scale(A as real, wbot)
    && Describes(B, wbot, stickyY, y)
  }

  lemma PlaceTop(sig: U128, e: int)
    requires V(sig) > 0
    ensures var A := Shl(V(sig), 253 - Msb128(sig));
            && Pow2(253) <= A < Pow2(254) && Low(A, 256) == A
            && Scale(V(sig) as real, e) == Scale(A as real, e + Msb128(sig) - 253)
  {
    hide Shl, Shr, Low, Scale, V, Msb128;
    MsbCorrect(sig);
    var n := 253 - Msb128(sig);
    ShiftedBounds(V(sig), Msb128(sig), n);
    Pow2Mono(254, 256);
    ShrSmall(Shl(V(sig), n), 256);
    ScaleUp(V(sig), n, e - n);
  }

  lemma PlaceExact(sig: U128, e: int, n: nat)
    requires V(sig) > 0 && Msb128(sig) + n <= 253
    ensures var B := Shl(V(sig), n);
            && B < Pow2(254) && Low(B, 256) == B
            && Describes(B, e - n, false, Scale(V(sig) as real, e))
  {
    hide Shl, Shr, Low, Scale, V, Msb128;
    MsbCorrect(sig);
    ShiftedBounds(V(sig), Msb128(sig), n);
    Pow2Mono(Msb128(sig) + n + 1, 254);
    Pow2Mono(254, 256);
    ShrSmall(Shl(V(sig), n), 256);
    ScaleUp(V(sig), n, e - n);
  }

  lemma PlaceJammed(sig: U128, e: int, d: nat)
    requires V(sig) > 0
    ensures var B := Shr(V(sig), d);
            && B < Pow2(128) && B < Pow2(254)
            && Describes(B, e + d, Low(V(sig), d) != 0, Scale(V(sig) as real, e))
  {
    hide Shl, Shr, Low, Scale, V;
    Fits128(sig);
    ShiftSplit(V(sig), d);
    ShlIncreasing(Shr(V(sig), d), 0, d);
    ShlUnits(Shr(V(sig), d));
    Pow2Mono(128, 254);
    ShiftedInside(V(sig), d, e, false, Scale(V(sig) as real, e));
  }

  method AlignWindow(sigX: U128, eX: int, sigY: U128, eY: int) returns (A: U256, B: U256, stickyY: bool)
    requires V(sigX) > 0 && V(sigY) > 0 && eX + Msb128(sigX) >= eY + Msb128(sigY)
    ensures Window(Val(A), Val(B), stickyY, eX + Msb128(sigX) - 253,
                   Scale(V(sigX) as real, eX), Scale(V(sigY) as real, eY))
  {
    hide Shl, Shr, Low, Scale, V, Val, Msb128;
    MsbCorrect(sigX);
    MsbCorrect(sigY);
    var wbot := eX + Msb128(sigX) - 253;
    A := Shl128To256(sigX, eX - wbot);
    PlaceTop(sigX, eX);
    var shY := eY - wbot;
    if shY >= 0 {
      B := Shl128To256(sigY, shY);
      stickyY := false;
      PlaceExact(sigY, eY, shY);
    } else {
      From128Value(sigY);
      B, stickyY := Shr256Jam(From128(sigY), -shY);
      PlaceJammed(sigY, eY, -shY);
    }
  }

  lemma DescribesSum(A: nat, B: nat, sticky: bool, e: int, x: real, y: real)
    requires x == Scale(A as real, e) && Describes(B, e, sticky, y)
    ensures Describes(A + B, e, sticky, x + y)
  {
    hide Scale;
    ScaleAdd(A as real, B as real, e);
    ScaleAdd(A as real, (B + 1) as real, e);
  }

  /** Subtracting a floored tail: the true difference lies one place lower, plus a sticky bit. */
  lemma DescribesDifference(A: nat, B: nat, sticky: bool, e: int, x: real, y: real)
    requires x == Scale(A as real, e) && Describes(B, e, sticky, y) && A >= B + (if sticky then 1 else 0)
    ensures Describes(A - B - (if sticky then 1 else 0), e, sticky, x - y)
  {
    hide Scale;
    ScaleAdd((A - B) as real, B as real, e);
    if sticky { ScaleAdd((A - B - 1) as real, (B + 1) as real, e); }
  }

  lemma DescribesReverse(A: nat, B: nat, e: int, x: real, y: real)
    requires x == Scale(A as real, e) && Describes(B, e, false, y) && B >= A
    ensures Describes(B - A, e, false, y - x)
    ensures A == B ==> x == y
  {
    hide Scale;
    ScaleAdd((B - A) as real, A as real, e);
  }

  /** The window sum: sign, exact-or-sticky magnitude M, and whether everything cancelled. */
  method WindowSum(sX: bool, sY: bool, A: U256, B: U256, stickyY: bool, ghost wbot: int, ghost x: real, ghost y: real)
    returns (M: U256, sign: bool, sticky: bool, cancelled: bool)
    requires Window(Val(A), Val(B), stickyY, wbot, x, y)
    ensures cancelled ==> Signed(sX, x) + Signed(sY, y) == 0.0
    ensures !cancelled ==>
              && Signed(sX, x) + Signed(sY, y) == Signed(sign, (if sX == sY then x + y else if sign == sX then x - y else y - x))
              && Describes(Val(M), wbot, sticky, if sX == sY then x + y else if sign == sX then x - y else y - x)
              && Val(M) > 0 && (sticky ==> Val(M) >= Pow2(128))
  {
    hide Shl, Shr, Low, Scale, Val, Describes;
    cancelled := false;
    WindowBounds();
    if sX == sY {
      M := Add256(A, B);
      Pow2Mono(255, 256);
      ShrSmall(Val(A) + Val(B), 256);
      sign, sticky := sX, stickyY;
      DescribesSum(Val(A), Val(B), stickyY, wbot, x, y);
    } else {
      var c := Cmp256(A, B);
      if c > 0 {
        M := Sub256(A, B);
        sign, sticky := sX, false;
        if stickyY {
          From128Value(U128(0, 1));
          LowWord(1);
          M := Sub256(M, From128(U128(0, 1)));
          sticky := true;
        }
        DescribesDifference(Val(A), Val(B), stickyY, wbot, x, y);
      } else {
        DescribesReverse(Val(A), Val(B), wbot, x, y);
        if c < 0 {
          M := Sub256(B, A);
          sign, sticky := sY, stickyY;
        } else {
          M, sign, sticky, cancelled := A, sX, false, true;
        }
      }
    }
  }

  lemma WindowBounds()
    ensures Pow2(254) + Pow2(254) == Pow2(255)
    ensures Pow2(128) + Pow2(128) + 1 < Pow2(253)
  {
    hide Shl;
    assert Pow2(255) == 2 * Pow2(254) by { PowDouble(254); }
    PowDouble(128);
    Pow2Mono(130, 253);
    PowDouble(129);
    Pow2Positive(129);
    Pow2Mono(1, 129);
    PowDouble(0);
    PowZero();
  }

  lemma LowPair(M: U256)
    requires Val(M) < Pow2(128)
    ensures V(U128(M[1], M[0])) == Val(M)
  {
    hide Shl, Shr, Low;
    Suffix(M, 2);
    ShrSmall(Val(M), 128);
    assert From(M, 1) == M[1] + From(M, 2) * W64;
    assert From(M, 0) == M[0] + From(M, 1) * W64;
  }

  /** Reduce the 256-bit magnitude to 128 bits plus sticky, and round. */
  method ReduceAndRound(f: Format, sign: bool, M: U256, wbot: int, sticky: bool, rm: RoundingMode, flags: Flags, ghost x: real)
    returns (p: Packed)
    requires Val(M) > 0 && (sticky ==> Val(M) >= Pow2(128)) && Describes(Val(M), wbot, sticky, x)
    ensures RoundsTo(f, sign, x, rm, flags, p)
  {
    hide Shl, Shr, Low, Scale, Val, V, Describes, RoundMag, RoundsTo, Msb128;
    var mb := Msb256(M);
    FormatFacts(f);
    if mb <= 127 {
      Pow2Mono(mb + 1, 128);
      LowPair(M);
      p := RoundMag(f, sign, U128(M[1], M[0]), wbot, sticky, rm, flags);
      RoundMagCorrect(f, sign, U128(M[1], M[0]), wbot, sticky, x, rm, flags);
    } else {
      var red, lost := Shr256Jam(M, mb - 127);
      var mant := U128(red[1], red[0]);
      TopAligned(Val(M), mb);
      LowPair(red);
      ShiftedInside(Val(M), mb - 127, wbot, sticky, x);
      Pow2Positive(127);
      Msb127(mant);
      p := RoundMag(f, sign, mant, wbot + (mb - 127), sticky || lost, rm, flags);
      RoundMagCorrect(f, sign, mant, wbot + (mb - 127), sticky || lost, x, rm, flags);
    }
  }

  lemma TopAligned(M: nat, mb: nat)
    requires mb > 127 && Pow2(mb) <= M < Pow2(mb + 1)
    ensures Pow2(127) <= Shr(M, mb - 127) < Pow2(128)
  {
    hide Shl, Shr;
    ShrBelow(M, mb - 127, Pow2(127));
    ShrBelow(M, mb - 127, Pow2(128));
    ShlShl(1, 127, mb - 127);
    ShlShl(1, 128, mb - 127);
  }

  lemma Msb127(a: U128)
    requires V(a) >= Pow2(127)
    ensures Msb128(a) == 127
  {
    hide Shl, Msb128, V;
    Pow2Positive(127);
    MsbCorrect(a);
    if Msb128(a) < 127 { Pow2Mono(Msb128(a) + 1, 127); }
  }

  /** Add two nonzero signed magnitudes: the single correct rounding of the exact sum, at any
      exponent gap. */
  method AddCore(f: Format, sX: bool, sigX: U128, eX: int, sY: bool, sigY: U128, eY: int, rm: RoundingMode, flags: Flags)
    returns (p: Packed)
    requires V(sigX) > 0 && V(sigY) > 0
    ensures SumRoundsTo(f, Num(sX, V(sigX), eX) + Num(sY, V(sigY), eY), rm, flags, p)
  {
    if eY + Msb128(sigY) > eX + Msb128(sigX) {
      p := AddOrdered(f, sY, sigY, eY, sX, sigX, eX, rm, flags);
    } else {
      p := AddOrdered(f, sX, sigX, eX, sY, sigY, eY, rm, flags);
    }
  }

  method AddOrdered(f: Format, sX: bool, sigX: U128, eX: int, sY: bool, sigY: U128, eY: int, rm: RoundingMode, flags: Flags)
    returns (p: Packed)
    requires V(sigX) > 0 && V(sigY) > 0 && eX + Msb128(sigX) >= eY + Msb128(sigY)
    ensures SumRoundsTo(f, Num(sX, V(sigX), eX) + Num(sY, V(sigY), eY), rm, flags, p)
  {
    hide Shl, Scale, Val, V, Describes, RoundsTo, Msb128, Window, ZeroBits;
    ghost var x, y := Scale(V(sigX) as real, eX), Scale(V(sigY) as real, eY);
    var wbot := eX + Msb128(sigX) - 253;
    var A, B, stickyY := AlignWindow(sigX, eX, sigY, eY);
    var M, sign, sticky, cancelled := WindowSum(sX, sY, A, B, stickyY, wbot, x, y);
    Is0Value(M);
    if cancelled || (Is0(M) && !sticky) { return Packed(ZeroBits(f, rm == RDN), flags); }
    ghost var mag := if sX == sY then x + y else if sign == sX then x - y else y - x;
    DescribesPositive(Val(M), wbot, sticky, mag);
    p := ReduceAndRound(f, sign, M, wbot, sticky, rm, flags, mag);
  }

  lemma DescribesPositive(m: nat, e: int, sticky: bool, x: real)
    requires m > 0 && Describes(m, e, sticky, x)
    ensures x > 0.0
  {
    ScalePositive(m as real, e);
  }
}
