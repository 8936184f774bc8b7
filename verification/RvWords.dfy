/** 64-bit register words and the operations the integer core uses on them: sign extension,
    shifts, bitwise logic. */
module RvWords {
  import opened Powers
  import opened Words

  type Word = u64

  // ---- Words ------------------------------------------------------------------------------

  function Low32(v: int): Word { v % W32 }

  /** The low 32 bits, sign-extended to the register width. */
  function Sext32(v: int): Word {
    if v % W32 >= 0x8000_0000 then v % W32 + (W64 - W32) else v % W32
  }

  /** Sign-extend from bit XLEN-1 (cpu.c: sext_xlen; jit.c: sf). */
  function SextX(rv64: bool, v: int): Word { if rv64 then v % W64 else Sext32(v) }

  function AsSigned(v: Word): int { if v >= 0x8000_0000_0000_0000 then v - W64 else v }

  function Shift(a: Word, n: nat): Word { LowIsWord(Shl(a, n)); Low(Shl(a, n), 64) }

  function ShiftDown(a: Word, n: nat): Word { ShrIsWord(a, n); Shr(a, n) }

  /** Arithmetic right shift. */
  function Asr64(v: Word, n: nat): Word {
    if v >= 0x8000_0000_0000_0000 then W64 - 1 - ShiftDown(W64 - 1 - v, n) else ShiftDown(v, n)
  }

  /** Arithmetic right shift of the low 32 bits; the result sign-extended. */
  function Asr32(v: Word, n: nat): Word { Asr64(Sext32(v), n) }

  function Flag(b: bool): Word { if b then 1 else 0 }

  datatype Logic = And | Or | Xor

  function BitOf(k: Logic, a: nat, b: nat): nat {
    match k
    case And => if a == 1 && b == 1 then 1 else 0
    case Or => if a == 1 || b == 1 then 1 else 0
    case Xor => if a != b then 1 else 0
  }

  /** The bitwise operation on the low n bits of a and b. */
  function Bits(k: Logic, a: nat, b: nat, n: nat): nat {
    if n == 0 then 0 else BitOf(k, a % 2, b % 2) + 2 * Bits(k, a / 2, b / 2, n - 1)
  }

  lemma {:induction false} BitsBound(k: Logic, a: nat, b: nat, n: nat)
    ensures Bits(k, a, b, n) < Pow2(n)
  {
    if n > 0 { BitsBound(k, a / 2, b / 2, n - 1); }
  }

  function Bitwise(k: Logic, a: Word, b: Word): Word {
    BitsBound(k, a, b, 64); Pow2Words();
    Bits(k, a, b, 64)
  }

  // ---- Laws of sign extension -------------------------------------------------------------

  lemma SextOfLow(v: int)
    ensures Sext32(v % W32) == Sext32(v)
    ensures Sext32(Low32(v)) == Sext32(v) && Sext32(v % W64) == Sext32(v)
    ensures Low32(v % W64) == Low32(v)
  {
    Residue(v);
  }

  lemma Residue(v: int)
    ensures (v % W64) % W32 == v % W32 && (v % W32) % W32 == v % W32
  {
  }

  lemma SextTwice(v: int)
    ensures Sext32(v) % W32 == v % W32
    ensures Sext32(Sext32(v)) == Sext32(v)
    ensures Low32(Sext32(v)) == Low32(v)
  {
  }

  /** Sign extension is a congruence: only the low 32 bits of a sum matter. */
  lemma SextOfSum(a: int, b: int)
    ensures Sext32(Sext32(a) + b) == Sext32(a + b)
    ensures Sext32(Low32(a) + b) == Sext32(a + b)
  {
    Congruent(Sext32(a), a, b);
    Congruent(Low32(a), a, b);
  }

  lemma Congruent(x: int, y: int, b: int)
    requires x % W32 == y % W32
    ensures (x + b) % W32 == (y + b) % W32
  {
  }

  // ---- Bitwise operations -----------------------------------------------------------------

  lemma HalveShift(a: nat, n: nat)
    requires n > 0
    ensures Shr(a, n) == Shr(a / 2, n - 1)
    ensures Low(a, n) / 2 == Low(a / 2, n - 1) && Low(a, n) % 2 == a % 2
  {
    ShrShr(a, 1, n - 1);
    LowOfShr(a, 1, n - 1);
    assert Shr(a, 1) == a / 2 && Low(a, 1) == a % 2 by { assert Shr(a, 0) == a; }
    assert Shl(Low(a / 2, n - 1), 1) == 2 * Low(a / 2, n - 1) by { assert Shl(Low(a / 2, n - 1), 0) == Low(a / 2, n - 1); }
  }

  /** The operation on n + m bits splits into its low m and its high n bits. */
  lemma {:induction false} BitsSplit(k: Logic, a: nat, b: nat, n: nat, m: nat)
    ensures Bits(k, a, b, m + n) == Bits(k, a, b, m) + Shl(Bits(k, Shr(a, m), Shr(b, m), n), m)
  {
    if m > 0 {
      BitsSplit(k, a / 2, b / 2, n, m - 1);
      HalveShift(a, m);
      HalveShift(b, m);
      assert m + n - 1 == m - 1 + n;
    }
  }

  lemma {:induction false} BitsOfLow(k: Logic, a: nat, b: nat, n: nat)
    ensures Bits(k, Low(a, n), Low(b, n), n) == Bits(k, a, b, n)
  {
    if n > 0 {
      BitsOfLow(k, a / 2, b / 2, n - 1);
      HalveShift(a, n);
      HalveShift(b, n);
    }
  }

  /** n copies of one bit. */
  function Fill(bit: nat, n: nat): nat { if n == 0 then 0 else bit + 2 * Fill(bit, n - 1) }

  lemma {:induction false} FillValue(n: nat)
    ensures Fill(0, n) == 0 && Fill(1, n) == Pow2(n) - 1
  {
    if n > 0 { FillValue(n - 1); }
  }

  lemma {:induction false} BitsOfFill(k: Logic, x: nat, y: nat, n: nat)
    requires x < 2 && y < 2
    ensures Bits(k, Fill(x, n), Fill(y, n), n) == Fill(BitOf(k, x, y), n)
  {
    if n > 0 { BitsOfFill(k, x, y, n - 1); }
  }

  lemma {:induction false} AndOnes(a: nat, n: nat)
    requires a < Pow2(n)
    ensures Bits(And, a, Fill(1, n), n) == a
  {
    if n > 0 { AndOnes(a / 2, n - 1); }
  }

  function TopBit(a: int): nat { if a % W32 >= 0x8000_0000 then 1 else 0 }

  lemma WordsAsDivision(a: nat)
    ensures Shr(a, 32) == a / W32 && Low(a, 32) == a % W32 && Shl(a, 32) == a * W32
    ensures Shr(a, 31) == a / 0x8000_0000 && Shl(a, 31) == a * 0x8000_0000
  {
    hide Shr, Shl, Low, Pow2;
    Pow2Words();
    Pow2Half();
    ShiftsAreDivision(a, 32);
    ShiftsAreDivision(a, 31);
  }

  lemma Pow2Half()
    ensures Pow2(31) == 0x8000_0000
  {
    Pow2Words();
    assert Pow2(32) == 2 * Pow2(31);
  }

  /** The upper half of a sign-extended word repeats bit 31. */
  lemma SextHalves(a: Word)
    requires Sext32(a) == a
    ensures Shr(a, 32) == Fill(TopBit(a), 32) && Shr(a, 31) % 2 == TopBit(a)
  {
    hide Shr, Shl, Low, Pow2, Fill;
    WordsAsDivision(a);
    FillValue(32);
    Pow2Words();
  }

  lemma BitsTop(k: Logic, a: nat, b: nat)
    requires Shr(a, 31) % 2 == TopBit(a) && Shr(b, 31) % 2 == TopBit(b)
    ensures Bits(k, a, b, 32) >= 0x8000_0000 <==> BitOf(k, TopBit(a), TopBit(b)) == 1
  {
    hide Shr, Shl, Low, Pow2, TopBit;
    BitsSplit(k, a, b, 1, 31);
    BitsBound(k, a, b, 31);
    Pow2Half();
    var x, y := Shr(a, 31), Shr(b, 31);
    assert Bits(k, x, y, 1) == BitOf(k, x % 2, y % 2) by { assert Bits(k, x / 2, y / 2, 0) == 0; }
    WordsAsDivision(Bits(k, x, y, 1));
  }

  /** Bitwise logic on sign-extended words gives a sign-extended word, which is why the translator
      omits the re-extension after it. */
  lemma SextLogic(k: Logic, a: Word, b: Word)
    requires Sext32(a) == a && Sext32(b) == b
    ensures Sext32(Bitwise(k, a, b)) == Bitwise(k, a, b)
  {
    hide Shr, Shl, Low, Pow2, Fill, Bits, TopBit, BitOf, Sext32;
    var t := BitOf(k, TopBit(a), TopBit(b));
    SextHalves(a);
    SextHalves(b);
    BitsTop(k, a, b);
    BitsSplit(k, a, b, 32, 32);
    BitsBound(k, a, b, 32);
    BitsOfFill(k, TopBit(a), TopBit(b), 32);
    Pow2Words();
    BitIsBit(k, TopBit(a), TopBit(b));
    SextFromHalves(t, Bits(k, a, b, 32));
  }

  lemma SextFromHalves(t: nat, low: nat)
    requires (t == 0 || t == 1) && low < W32 && (low >= 0x8000_0000 <==> t == 1)
    ensures Sext32(low + Shl(Fill(t, 32), 32)) == low + Shl(Fill(t, 32), 32)
  {
    hide Shl, Fill, Pow2;
    FillHigh(t);
    var v := low + Shl(Fill(t, 32), 32);
    assert v % W32 == low;
  }

  lemma FillHigh(t: nat)
    requires t == 0 || t == 1
    ensures Shl(Fill(t, 32), 32) == if t == 1 then W64 - W32 else 0
  {
    hide Shl, Fill, Pow2;
    FillValue(32);
    Pow2Words();
    if t == 0 { ShlZero(32); } else { ShlIsTimes(Fill(1, 32), 32); }
  }

  lemma BitIsBit(k: Logic, x: nat, y: nat)
    ensures BitOf(k, x, y) == 0 || BitOf(k, x, y) == 1
  {
  }

  /** Masking off bit zero. */
  lemma ClearBitZero(a: Word)
    ensures Bitwise(And, a, W64 - 2) == a - a % 2
  {
    hide Shr, Shl, Low, Fill, Pow2;
    Pow2Words();
    FillValue(63);
    assert Pow2(64) == 2 * Pow2(63) by { PowDouble(63); }
    AndOnes(a / 2, 63);
  }

  // ---- Narrow shifts ----------------------------------------------------------------------

  lemma ShlHalves(a: Word, n: nat)
    ensures Shl(a, n) == Shl(a / W32, n) * W32 + Shl(a % W32, n)
  {
    hide Shr, Shl, Low, Pow2;
    var hi, lo := a / W32, a % W32;
    WordsAsDivision(hi);
    ShlAdd(Shl(hi, 32), lo, n);
    ShlShl(hi, 32, n);
    ShlShl(hi, n, 32);
    WordsAsDivision(Shl(hi, n));
  }

  lemma DropMultiple(x: nat, y: nat)
    ensures (x * W32 + y) % W32 == y % W32
  {
  }

  lemma LowOfShift(a: Word, n: nat)
    ensures Low32(Shift(a, n)) == Shl(a, n) % W32
  {
    hide Shr, Shl, Low, Pow2;
    LowIsResidue(Shl(a, n));
    Residue(Shl(a, n));
  }

  /** A left shift commutes with dropping the upper half. */
  lemma ShiftOfLow(a: Word, n: nat)
    ensures Low32(Shift(Low32(a), n)) == Low32(Shift(a, n))
  {
    hide Shr, Shl, Low, Pow2, Shift;
    ShlHalves(a, n);
    DropMultiple(Shl(a / W32, n), Shl(a % W32, n));
    LowOfShift(a, n);
    LowOfShift(Low32(a), n);
  }

  lemma LowIsResidue(x: nat)
    ensures Low(x, 64) == x % W64
  {
    Pow2Words();
    ShiftsAreDivision(x, 64);
  }

  lemma AsrOfLow(a: Word, n: nat)
    ensures Asr32(Low32(a), n) == Asr32(a, n)
  {
    SextOfLow(a);
  }
}
