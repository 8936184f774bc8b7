/** Multi-word unsigned arithmetic (softfloat.c: the u128 helpers, mul64, udiv128by64,
    isqrt128).  A machine word is a natural below 2^64; a shift that drops bits is written
    out, and the OR of two disjoint bit fields is their sum. */
module Words {
  import opened Powers

  const W32: nat := 0x1_0000_0000
  const W64: nat := 0x1_0000_0000_0000_0000

  type u64 = x: int | 0 <= x < 0x1_0000_0000_0000_0000

  datatype U128 = U128(hi: u64, lo: u64)

  /** The number a two-word value stands for. */
  function V(a: U128): nat { a.hi * W64 + a.lo }

  lemma ShlWord(a: nat)
    ensures Shl(a, 64) == a * W64
  {
    ShlIsTimes(a, 64);
    Pow2Words();
  }

  lemma Fits128(a: U128)
    ensures V(a) < Pow2(128)
  {
    hide Shl, Pow2;
    ShlWord(a.hi + 1);
    ShlWord(W64);
    Pow2Words();
    ShlOrder(W64, a.hi + 1, 64);
    ShlShlPow();
  }

  lemma ShlShlPow()
    ensures Shl(W64, 64) == Pow2(128)
  {
    hide Shl;
    Pow2Words();
    ShlShl(1, 64, 64);
  }

  // ---- Leading zeros ----------------------------------------------------------------------

  /** One rung of the clz cascade: shift up by k if the top k bits are clear. */
  function ClzStep(x: u64, n: nat, k: nat): (r: (u64, nat))
    requires k <= 64
  {
    if x < Pow2(64 - k) then ClzShift(x, k); (Shl(x, k), n + k) else (x, n)
  }

  lemma ClzShift(x: nat, k: nat)
    requires k <= 64 && x < Pow2(64 - k)
    ensures Shl(x, k) < W64
  {
    hide Shl;
    Pow2Words();
    ShlOrder(x, Pow2(64 - k), k);
    ShlShl(1, 64 - k, k);
  }

  function Clz64(x: u64): nat {
    if x == 0 then 64
    else
      var a := ClzStep(x, 0, 32);
      var b := ClzStep(a.0, a.1, 16);
      var c := ClzStep(b.0, b.1, 8);
      var d := ClzStep(c.0, c.1, 4);
      var e := ClzStep(d.0, d.1, 2);
      ClzStep(e.0, e.1, 1).1
  }

  lemma ClzStepKeeps(x: nat, y: u64, n: nat, k: nat)
    requires 0 < k <= 32 && y == Shl(x, n) && y >= Pow2(64 - 2 * k)
    ensures var r := ClzStep(y, n, k); r.0 == Shl(x, r.1) && r.0 >= Pow2(64 - k)
  {
    hide Shl;
    if y < Pow2(64 - k) {
      ShlShl(x, n, k);
      ShlOrder(y, Pow2(64 - 2 * k), k);
      ShlShl(1, 64 - 2 * k, k);
    }
  }

  lemma ClzCorrect(x: u64)
    requires x > 0
    ensures 0 <= Clz64(x) <= 63
    ensures Pow2(63 - Clz64(x)) <= x < Pow2(64 - Clz64(x))
  {
    hide Shl, Pow2, ClzStep;
    assert Pow2(0) == 1 by { PowZero(); }
    assert x == Shl(x, 0) by { ShlUnit(x); }
    ClzStepKeeps(x, x, 0, 32);
    var a := ClzStep(x, 0, 32);
    ClzStepKeeps(x, a.0, a.1, 16);
    var b := ClzStep(a.0, a.1, 16);
    ClzStepKeeps(x, b.0, b.1, 8);
    var c := ClzStep(b.0, b.1, 8);
    ClzStepKeeps(x, c.0, c.1, 4);
    var d := ClzStep(c.0, c.1, 4);
    ClzStepKeeps(x, d.0, d.1, 2);
    var e := ClzStep(d.0, d.1, 2);
    ClzStepKeeps(x, e.0, e.1, 1);
    var r := ClzStep(e.0, e.1, 1);
    TopBit(x, r.1);
  }

  lemma PowZero()
    ensures Pow2(0) == 1
  {
  }

  lemma ShlUnit(x: nat)
    ensures Shl(x, 0) == x
  {
  }

  lemma TopBit(x: nat, n: nat)
    requires x > 0 && Pow2(63) <= Shl(x, n) < W64
    ensures n <= 63 && Pow2(63 - n) <= x < Pow2(64 - n)
  {
    hide Shl;
    Pow2Words();
    if n > 63 {
      ShlOrder(1, x, n);
      if n > 64 { Pow2Mono(64, n); }
    } else {
      ShlShl(1, 63 - n, n);
      ShlShl(1, 64 - n, n);
      ShlOrder(x, Pow2(63 - n), n);
      ShlOrder(x, Pow2(64 - n), n);
    }
  }

  function Clz128(a: U128): nat { if a.hi != 0 then Clz64(a.hi) else 64 + Clz64(a.lo) }
  function Msb128(a: U128): int { 127 - Clz128(a) }

  lemma MsbCorrect(a: U128)
    requires V(a) > 0
    ensures 0 <= Msb128(a) <= 127
    ensures Pow2(Msb128(a)) <= V(a) < Pow2(Msb128(a) + 1)
  {
    hide Shl, Pow2, Clz64;
    if a.hi != 0 {
      ClzCorrect(a.hi);
      var m := 63 - Clz64(a.hi);
      ShlWord(a.hi);
      ShlWord(a.hi + 1);
      HighBit(a.hi, m);
    } else {
      ClzCorrect(a.lo);
    }
  }

  lemma HighBit(h: nat, m: nat)
    requires Pow2(m) <= h < Pow2(m + 1)
    ensures Pow2(m + 64) <= Shl(h, 64) && Shl(h + 1, 64) <= Pow2(m + 65)
  {
    ShlShl(1, m, 64);
    ShlShl(1, m + 1, 64);
    ShlOrder(h, Pow2(m), 64);
    ShlOrder(Pow2(m + 1), h + 1, 64);
  }

  // ---- Shifts -----------------------------------------------------------------------------

  lemma LowIsWord(a: nat)
    ensures Low(a, 64) < W64
  {
    ShiftSplit(a, 64);
    Pow2Words();
  }

  lemma ShrIsWord(a: u64, n: nat)
    ensures Shr(a, n) < W64
  {
    ShiftSplit(a, n);
    ShlIncreasing(Shr(a, n), 0, n);
  }

  /** A word shifted up by n, or-ed with n bits coming in from below, is a word. */
  lemma JoinIsWord(hi: nat, lo: u64, n: nat)
    requires 0 < n < 64
    ensures Low(Shl(hi, n), 64) + Shr(lo, 64 - n) < W64
  {
    hide Shl, Shr, Low;
    Pow2Words();
    LowOfShl(hi, n, 64 - n);
    ShiftSplit(hi, 64 - n);
    ShrBelow(lo, 64 - n, Pow2(n));
    ShlShl(1, n, 64 - n);
    JoinBelow(Low(hi, 64 - n), 64 - n, Shr(lo, 64 - n), n);
  }

  function Shl128(a: U128, n: nat): U128 {
    if n == 0 then a
    else if n >= 64 then LowIsWord(Shl(a.lo, n - 64)); U128(Low(Shl(a.lo, n - 64), 64), 0)
    else
      JoinIsWord(a.hi, a.lo, n); LowIsWord(Shl(a.lo, n));
      U128(Low(Shl(a.hi, n), 64) + Shr(a.lo, 64 - n), Low(Shl(a.lo, n), 64))
  }

  /** A word pair is a 128-bit field: top parts above it drop out. */
  lemma Low128(a: nat, top: nat, r: U128)
    requires a == Shl(Shl(top, 64), 64) + V(r)
    ensures Low(a, 128) == V(r)
  {
    hide Shl, Low;
    ShlShl(top, 64, 64);
    Fits128(r);
    ShrUnique(a, 128, top, V(r));
  }

  lemma Shl128Correct(a: U128, n: nat)
    requires n <= 127
    ensures V(Shl128(a, n)) == Low(Shl(V(a), n), 128)
  {
    hide Shl, Shr, Low;
    ShlWord(a.hi);
    ShlAdd(Shl(a.hi, 64), a.lo, n);
    ShlShl(a.hi, 64, n);
    if n == 0 {
      ShlUnit(V(a));
      ShlZero(64);
      Low128(V(a), 0, a);
    } else if n >= 64 {
      Shl128High(a, n);
    } else {
      Shl128Low(a, n);
    }
  }

  lemma Shl128Low(a: U128, n: nat)
    requires 0 < n < 64
    requires Shl(V(a), n) == Shl(a.hi, 64 + n) + Shl(a.lo, n)
    ensures V(Shl128(a, n)) == Low(Shl(V(a), n), 128)
  {
    hide Shl, Shr, Low;
    var up, lo := Shl(a.hi, n), Shl(a.lo, n);
    ShlShl(a.hi, n, 64);
    ShiftSplit(up, 64);
    ShiftSplit(lo, 64);
    LowOfShl(a.lo, n, 64 - n);
    ShlAdd(Shl(Shr(up, 64), 64), Low(up, 64), 64);
    ShlAdd(Low(up, 64), Shr(lo, 64), 64);
    ShlWord(Low(up, 64) + Shr(lo, 64));
    Low128(Shl(V(a), n), Shr(up, 64), Shl128(a, n));
  }

  lemma Shl128High(a: U128, n: nat)
    requires 64 <= n <= 127
    requires Shl(V(a), n) == Shl(a.hi, 64 + n) + Shl(a.lo, n)
    ensures V(Shl128(a, n)) == Low(Shl(V(a), n), 128)
  {
    hide Shl, Shr, Low;
    var m := n - 64;
    var lo := Shl(a.lo, m);
    ShiftSplit(lo, 64);
    ShlShl(a.lo, m, 64);
    ShlAdd(Shl(Shr(lo, 64), 64), Low(lo, 64), 64);
    ShlWord(Low(lo, 64));
    ShlShl(a.hi, m, 128);
    ShlShl(Shl(a.hi, m), 64, 64);
    ShlAdd(Shl(Shl(a.hi, m), 64), Shl(Shr(lo, 64), 64), 64);
    ShlAdd(Shl(a.hi, m), Shr(lo, 64), 64);
    Low128(Shl(V(a), n), Shl(a.hi, m) + Shr(lo, 64), Shl128(a, n));
  }

  datatype Jammed = Jammed(value: U128, lost: bool)

  function Shr128Jam(a: U128, n: nat): Jammed {
    if n == 0 then Jammed(a, false)
    else if n >= 128 then Jammed(U128(0, 0), a.hi != 0 || a.lo != 0)
    else if n >= 64 then
      ShrIsWord(a.hi, n - 64);
      Jammed(U128(0, Shr(a.hi, n - 64)), a.lo != 0 || Low(a.hi, n - 64) != 0)
    else
      ShrIsWord(a.hi, n); JoinIsWord(a.hi, a.lo, 64 - n);
      Jammed(U128(Shr(a.hi, n), Low(Shl(a.hi, 64 - n), 64) + Shr(a.lo, n)), Low(a.lo, n) != 0)
  }

  lemma Shr128Correct(a: U128, n: nat)
    ensures V(Shr128Jam(a, n).value) == Shr(V(a), n)
    ensures Shr128Jam(a, n).lost <==> Low(V(a), n) != 0
  {
    hide Shl, Shr, Low;
    ShlWord(a.hi);
    if n == 0 {
      ShiftZero(V(a));
    } else if n >= 128 {
      Fits128(a);
      Pow2Mono(128, n);
      ShrSmall(V(a), n);
    } else if n >= 64 {
      Pow2Words();
      ShrUnique(V(a), 64, a.hi, a.lo);
      ShrShr(V(a), 64, n - 64);
      LowOfShr(V(a), 64, n - 64);
      ShlOrder(0, Low(a.hi, n - 64), 64);
      ShlZero(64);
    } else {
      Shr128Low(a, n);
    }
  }

  lemma ShiftZero(a: nat)
    ensures Shr(a, 0) == a && Low(a, 0) == 0
  {
  }

  lemma Shr128Low(a: U128, n: nat)
    requires 0 < n < 64
    ensures V(Shr128Jam(a, n).value) == Shr(V(a), n)
    ensures Shr128Jam(a, n).lost <==> Low(V(a), n) != 0
  {
    hide Shl, Shr, Low;
    var up := Shl(a.hi, 64 - n);
    ShiftSplit(a.lo, n);
    ShiftSplit(up, 64);
    LowOfShl(a.hi, 64 - n, n);
    ShlWord(a.hi);
    ShlWord(Shr(a.hi, n));
    ShlShl(a.hi, 64 - n, n);
    ShlAdd(up, Shr(a.lo, n), n);
    ShrUnique(V(a), n, up + Shr(a.lo, n), Low(a.lo, n));
  }

  // ---- Add, subtract, compare, single bits ------------------------------------------------

  function Add128(a: U128, b: U128): U128 {
    var lo := (a.lo + b.lo) % W64;
    U128((a.hi + b.hi + (if lo < a.lo then 1 else 0)) % W64, lo)
  }

  function Sub128(a: U128, b: U128): U128 {
    U128((a.hi - b.hi - (if a.lo < b.lo then 1 else 0)) % W64, (a.lo - b.lo) % W64)
  }

  function Cmp128(a: U128, b: U128): int {
    if a.hi != b.hi then (if a.hi < b.hi then -1 else 1)
    else if a.lo != b.lo then (if a.lo < b.lo then -1 else 1)
    else 0
  }

  const W128: nat := 0x1_0000_0000_0000_0000_0000_0000_0000_0000

  lemma Add128Correct(a: U128, b: U128)
    ensures V(Add128(a, b)) == (V(a) + V(b)) % W128
  {
    var carry := if a.lo + b.lo >= W64 then 1 else 0;
    var top := if a.hi + b.hi + carry >= W64 then 1 else 0;
    CarryOut(a.lo, b.lo, 0);
    CarryOut(a.hi, b.hi, carry);
    assert V(Add128(a, b)) + top * W128 == V(a) + V(b);
  }

  lemma CarryOut(x: u64, y: u64, c: nat)
    requires c <= 1
    ensures (x + y + c) % W64 == if x + y + c >= W64 then x + y + c - W64 else x + y + c
  {
  }

  lemma Sub128Correct(a: U128, b: U128)
    ensures V(Sub128(a, b)) == (V(a) - V(b)) % W128
  {
    var borrow := if a.lo < b.lo then 1 else 0;
    var top := if a.hi < b.hi + borrow then 1 else 0;
    assert V(Sub128(a, b)) == V(a) - V(b) + top * W128;
  }

  lemma Sub128Exact(a: U128, b: U128)
    requires V(b) <= V(a)
    ensures V(Sub128(a, b)) == V(a) - V(b)
  {
    hide Sub128;
    Sub128Correct(a, b);
  }

  lemma Cmp128Correct(a: U128, b: U128)
    ensures Cmp128(a, b) < 0 <==> V(a) < V(b)
    ensures Cmp128(a, b) == 0 <==> V(a) == V(b)
  {
  }

  function GetBit128(a: U128, i: int): nat {
    if i < 0 || i > 127 then 0
    else (if i >= 64 then Shr(a.hi, i - 64) else Shr(a.lo, i)) % 2
  }

  lemma GetBitCorrect(a: U128, i: nat)
    requires i <= 127
    ensures GetBit128(a, i) == Shr(V(a), i) % 2
  {
    hide Shl, Shr, Low;
    ShlWord(a.hi);
    Pow2Words();
    if i >= 64 {
      ShrUnique(V(a), 64, a.hi, a.lo);
      ShrShr(V(a), 64, i - 64);
    } else {
      ShrOfJoin(a.hi, a.lo, i);
      ShlEven(a.hi, 64 - i);
    }
  }

  lemma ShrOfJoin(hi: nat, lo: nat, i: nat)
    requires i <= 64
    ensures Shr(Shl(hi, 64) + lo, i) == Shl(hi, 64 - i) + Shr(lo, i)
  {
    hide Shl, Shr, Low;
    ShiftSplit(lo, i);
    ShlShl(hi, 64 - i, i);
    ShlAdd(Shl(hi, 64 - i), Shr(lo, i), i);
    ShrUnique(Shl(hi, 64) + lo, i, Shl(hi, 64 - i) + Shr(lo, i), Low(lo, i));
  }

  // ---- 64 x 64 -> 128 from 32-bit partial products ----------------------------------------

  const MaxPartial: nat := (W32 - 1) * (W32 - 1)

  function Combine(ll: nat, lh: nat, hl: nat, hh: nat): U128 {
    var cross := ll / W32 + lh % W32 + hl % W32;
    U128((hh + lh / W32 + hl / W32 + cross / W32) % W64, ll % W32 + (cross % W32) * W32)
  }

  function Mul64(a: u64, b: u64): U128 {
    var al, ah, bl, bh := a % W32, a / W32, b % W32, b / W32;
    PartialBound(al, bl); PartialBound(al, bh); PartialBound(ah, bl); PartialBound(ah, bh);
    Combine(al * bl, al * bh, ah * bl, ah * bh)
  }

  lemma TimesMono(x: nat, y: nat, z: nat)
    requires y <= z
    ensures 0 <= x * y <= x * z
  {
    var d := z - y;
    assert x * d >= 0;
    assert x * (y + d) == x * y + x * d;
  }

  lemma PartialBound(x: nat, y: nat)
    requires x < W32 && y < W32
    ensures 0 <= x * y <= MaxPartial
  {
    TimesMono(x, y, W32 - 1);
  }

  lemma ProductOfHalves(al: nat, ah: nat, bl: nat, bh: nat, a: nat, b: nat)
    requires a == ah * W32 + al && b == bh * W32 + bl
    ensures a * b == (ah * bh) * W64 + (al * bh + ah * bl) * W32 + al * bl
  {
    assert a * b == (ah * W32) * (bh * W32) + (ah * W32) * bl + al * (bh * W32) + al * bl;
    assert (ah * W32) * (bh * W32) == (ah * bh) * W64;
  }

  lemma CombineCorrect(ll: nat, lh: nat, hl: nat, hh: nat)
    requires ll <= MaxPartial && lh <= MaxPartial && hl <= MaxPartial && hh <= MaxPartial
    ensures V(Combine(ll, lh, hl, hh)) == hh * W64 + (lh + hl) * W32 + ll
  {
  }

  /** The four partial products carry the whole product, and no carry is lost. */
  lemma Mul64Correct(a: u64, b: u64)
    ensures V(Mul64(a, b)) == a * b
  {
    hide Combine, V;
    var al, ah, bl, bh := a % W32, a / W32, b % W32, b / W32;
    PartialBound(al, bl); PartialBound(al, bh); PartialBound(ah, bl); PartialBound(ah, bh);
    CombineCorrect(al * bl, al * bh, ah * bl, ah * bh);
    ProductOfHalves(al, ah, bl, bh, a, b);
  }

  // ---- 128 / 64 restoring division --------------------------------------------------------

  /** Appending bit b to the dividend and (if it goes) subtracting the divisor once. */
  lemma DivStep(n: nat, q: nat, d: nat, r: nat, b: nat)
    requires n == q * d + r && r < d && b <= 1
    ensures 2 * r + b < d ==> 2 * n + b == (2 * q) * d + (2 * r + b)
    ensures 2 * r + b >= d ==> 2 * n + b == (2 * q + 1) * d + (2 * r + b - d) && 2 * r + b - d < d
  {
    assert (2 * q) * d == 2 * (q * d);
    assert (2 * q + 1) * d == 2 * (q * d) + d;
  }

  lemma NextBit(num: U128, i: nat)
    requires i < 64
    ensures Shr(V(num), i) == 2 * Shr(V(num), i + 1) + Shr(num.lo, i) % 2
  {
    hide Shl;
    ShlWord(num.hi);
    ShrOfJoin(num.hi, num.lo, i);
    ShlEven(num.hi, 64 - i);
    assert Shr(V(num), i + 1) == Shr(V(num), i) / 2;
  }

  lemma TopWord(num: U128)
    ensures Shr(V(num), 64) == num.hi
  {
    hide Shl, Shr;
    ShlWord(num.hi);
    Pow2Words();
    ShrUnique(V(num), 64, num.hi, num.lo);
  }

  lemma ShlOne(a: nat)
    ensures Shl(a, 1) == 2 * a
  {
    assert Shl(a, 0) == a;
  }

  /** Shifting the remainder left in a 64-bit register: the bit that falls off is the carry. */
  lemma ShiftRegister(r: u64, b: nat)
    requires b <= 1
    ensures var carry := Shr(r, 63); var low := Low(Shl(r, 1), 64) + b;
            low < W64 && 2 * r + b == (if carry != 0 then W64 else 0) + low
  {
    hide Low;
    Pow2Words();
    var t := Shl(r, 1);
    ShlOne(r);
    LowIsWord(t);
    LowOfShl(r, 1, 63);
    ShiftSplit(t, 64);
    ShlWord(Shr(t, 64));
    ShlEven(Low(r, 63), 1);
  }

  method Udiv128by64(num: U128, den: u64) returns (q: u64, rem: u64)
    requires num.hi < den
    ensures V(num) == q * den + rem && rem < den
  {
    q, rem := 0, num.hi;
    ghost var quo: nat := 0;
    var i := 63;
    hide Shl, Shr, V;
    TopWord(num);
    ShlZero(64);
    PowZero();
    while i >= 0
      invariant -1 <= i <= 63 && rem < den
      invariant quo < Pow2(63 - i) && q == Shl(quo, i + 1)
      invariant Shr(V(num), i + 1) == quo * den + rem
    {
      q, rem, quo := DivideBit(num, den, i, q, rem, quo);
      i := i - 1;
    }
    ShiftZero(V(num));
    ShlUnit(quo);
  }

  method DivideBit(num: U128, den: u64, i: nat, q: u64, rem: u64, ghost quo: nat) returns (q': u64, rem': u64, ghost quo': nat)
    requires i <= 63 && rem < den
    requires quo < Pow2(63 - i) && q == Shl(quo, i + 1)
    requires Shr(V(num), i + 1) == quo * den + rem
    ensures rem' < den && quo' < Pow2(64 - i) && q' == Shl(quo', i)
    ensures Shr(V(num), i) == quo' * den + rem'
  {
    hide Shl, Shr, Low, V;
    var bit := Shr(num.lo, i) % 2;
    var carry := Shr(rem, 63);
    ShiftRegister(rem, bit);
    rem' := Low(Shl(rem, 1), 64) + bit;
    NextBit(num, i);
    DivStep(Shr(V(num), i + 1), quo, den, rem, bit);
    QuotientBit(quo, i);
    if carry != 0 || rem' >= den {
      rem' := (rem' - den) % W64;
      q' := q + Shl(1, i);
      quo' := 2 * quo + 1;
    } else {
      q' := q;
      quo' := 2 * quo;
    }
  }

  lemma QuotientBit(quo: nat, i: nat)
    requires i <= 63 && quo < Pow2(63 - i)
    ensures 2 * quo + 1 < Pow2(64 - i)
    ensures Shl(quo, i + 1) == Shl(2 * quo, i)
    ensures Shl(2 * quo + 1, i) == Shl(quo, i + 1) + Shl(1, i) < W64
  {
    hide Low;
    assert Pow2(64 - i) == 2 * Pow2(63 - i);
    ShlShl(quo, 1, i);
    ShlOne(quo);
    ShlAdd(2 * quo, 1, i);
    Pow2Words();
    ShlShl(1, 64 - i, i);
    ShlOrder(2 * quo + 1, Pow2(64 - i), i);
  }

  // ---- Integer square root, two radicand bits per step ------------------------------------

  lemma Shl128Exact(a: U128, n: nat)
    requires n <= 127 && Shl(V(a), n) < Pow2(128)
    ensures V(Shl128(a, n)) == Shl(V(a), n)
  {
    hide Shl, Shr, Low, V;
    Shl128Correct(a, n);
    ShrSmall(Shl(V(a), n), 128);
  }

  /** Quadrupling a value of at most 66 bits in a two-word register, then adding a small one. */
  lemma QuadAdd(a: U128, b: nat)
    requires V(a) < 4 * W64 && b < W64
    ensures V(Add128(Shl128(a, 2), U128(0, b))) == 4 * V(a) + b
  {
    hide Shl, V;
    FourTimes(V(a));
    Pow128();
    Shl128Exact(a, 2);
    Add128Correct(Shl128(a, 2), U128(0, b));
    assert V(U128(0, b)) == b by { LowWord(b); }
  }

  lemma FourTimes(a: nat)
    ensures Shl(a, 2) == 4 * a
  {
    ShlOne(a);
  }

  lemma Pow128()
    ensures Pow2(128) == W128
  {
    hide Shl;
    ShlShlPow();
    ShlWord(W64);
  }

  lemma LowWord(b: u64)
    ensures V(U128(0, b)) == b
  {
  }

  lemma TwoBits(x: U128, i: nat)
    requires i <= 63
    ensures Shr(V(x), 2 * i) == 4 * Shr(V(x), 2 * i + 2) + 2 * GetBit128(x, 2 * i + 1) + GetBit128(x, 2 * i)
  {
    hide V, GetBit128;
    GetBitCorrect(x, 2 * i);
    GetBitCorrect(x, 2 * i + 1);
    var n := Shr(V(x), 2 * i);
    assert Shr(V(x), 2 * i + 1) == n / 2;
    assert Shr(V(x), 2 * i + 2) == n / 2 / 2;
  }

  /** Appending two bits b to the radicand and one bit to the root. */
  lemma RootStep(n: nat, root: nat, rem: nat, b: nat)
    requires n == root * root + rem && rem <= 2 * root && b <= 3
    ensures 4 * rem + b < 4 * root + 1 ==>
              4 * n + b == (2 * root) * (2 * root) + (4 * rem + b) && 4 * rem + b <= 2 * (2 * root)
    ensures 4 * rem + b >= 4 * root + 1 ==>
              && 4 * n + b == (2 * root + 1) * (2 * root + 1) + (4 * rem + b - (4 * root + 1))
              && 4 * rem + b - (4 * root + 1) <= 2 * (2 * root + 1)
  {
    var sq := root * root;
    assert (2 * root) * (2 * root) == 4 * sq;
    assert (2 * root + 1) * (2 * root + 1) == 4 * sq + 4 * root + 1;
  }

  method RootBit(x: U128, i: nat, root: u64, rem: U128) returns (root': u64, rem': U128)
    requires i <= 63 && root < Pow2(63 - i)
    requires Shr(V(x), 2 * i + 2) == root * root + V(rem) && V(rem) <= 2 * root
    ensures root' < Pow2(64 - i)
    ensures Shr(V(x), 2 * i) == root' * root' + V(rem') && V(rem') <= 2 * root'
  {
    hide Shl, Shr, V, GetBit128, Add128, Sub128, Cmp128, Shl128;
    var two := 2 * GetBit128(x, 2 * i + 1) + GetBit128(x, 2 * i);
    BitBound(x, 2 * i);
    BitBound(x, 2 * i + 1);
    rem' := Add128(Shl128(rem, 2), U128(0, two));
    QuadAdd(rem, two);
    var trial := Add128(Shl128(U128(0, root), 2), U128(0, 1));
    LowWord(root);
    QuadAdd(U128(0, root), 1);
    TwoBits(x, i);
    RootStep(Shr(V(x), 2 * i + 2), root, V(rem), two);
    RootBound(root, i);
    Cmp128Correct(rem', trial);
    if Cmp128(rem', trial) >= 0 {
      Sub128Exact(rem', trial);
      rem' := Sub128(rem', trial);
      root' := Low(Shl(root, 1), 64) + 1;
    } else {
      root' := Low(Shl(root, 1), 64);
    }
  }

  lemma BitBound(x: U128, i: int)
    ensures 0 <= GetBit128(x, i) <= 1
  {
  }

  lemma RootBound(root: u64, i: nat)
    requires i <= 63 && root < Pow2(63 - i)
    ensures Low(Shl(root, 1), 64) == 2 * root && 2 * root + 1 < W64 && 2 * root + 1 < Pow2(64 - i)
  {
    hide Low;
    Pow2Words();
    assert Pow2(64 - i) == 2 * Pow2(63 - i);
    Pow2Mono(64 - i, 64);
    ShlOne(root);
    ShrSmall(2 * root, 64);
  }

  method Isqrt128(x: U128) returns (root: u64, remNz: bool)
    ensures root * root <= V(x) < (root + 1) * (root + 1)
    ensures remNz <==> root * root != V(x)
  {
    hide Shl, Shr;
    root := 0;
    var rem := U128(0, 0);
    var i := 63;
    Fits128(x);
    ShrSmall(V(x), 128);
    PowZero();
    while i >= 0
      invariant -1 <= i <= 63 && root < Pow2(63 - i)
      invariant Shr(V(x), 2 * i + 2) == root * root + V(rem) && V(rem) <= 2 * root
    {
      root, rem := RootBit(x, i, root, rem);
      i := i - 1;
    }
    ShiftZero(V(x));
    SquareNext(root);
    remNz := rem.hi != 0 || rem.lo != 0;
  }

  lemma SquareNext(r: nat)
    ensures (r + 1) * (r + 1) == r * r + 2 * r + 1
  {
  }
}
