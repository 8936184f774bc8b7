/** The 256-bit accumulator (softfloat.c: msb256, cmp256, add256, sub256, shl128_256,
    shr256_jam).  Word 0 is least significant. */
module Wide {
  import opened Powers
  import opened Words

  type U256 = w: seq<u64> | |w| == 4 witness [0, 0, 0, 0]

  /** The value of words k and up, in units of word k. */
  function From(w: seq<u64>, k: nat): nat
    requires k <= |w|
    decreases |w| - k
  {
    if k == |w| then 0 else w[k] + From(w, k + 1) * W64
  }

  /** The value of the words below k. */
  function Below(w: seq<u64>, k: nat): nat
    requires k <= |w|
  {
    if k == 0 then 0 else Below(w, k - 1) + Shl(w[k - 1], 64 * (k - 1))
  }

  function Val(w: U256): nat { From(w, 0) }

  function From128(a: U128): U256 { [a.lo, a.hi, 0, 0] }

  lemma From128Value(a: U128)
    ensures Val(From128(a)) == V(a)
  {
    var w := From128(a);
    assert From(w, 4) == 0;
    assert From(w, 3) == 0;
    assert From(w, 2) == 0;
    assert From(w, 1) == a.hi;
  }

  lemma {:induction false} SplitAt(w: seq<u64>, k: nat)
    requires k <= |w|
    ensures From(w, 0) == Below(w, k) + Shl(From(w, k), 64 * k)
    ensures Below(w, k) < Pow2(64 * k)
  {
    hide Shl;
    if k > 0 {
      SplitAt(w, k - 1);
      var n := 64 * (k - 1);
      ShlWord(From(w, k));
      ShlAdd(w[k - 1], Shl(From(w, k), 64), n);
      ShlShl(From(w, k), 64, n);
      Pow2Words();
      JoinBelow(w[k - 1], 64, Below(w, k - 1), n);
    } else {
      PowZero();
      ShlUnit(From(w, 0));
    }
  }

  lemma FitsWide(w: U256)
    ensures Val(w) < Pow2(256) && Val(w) == Below(w, 4)
  {
    hide Shl;
    SplitAt(w, 4);
    ShlZero(256);
  }

  lemma Suffix(w: U256, k: nat)
    requires k <= 4
    ensures Shr(Val(w), 64 * k) == From(w, k) && Low(Val(w), 64 * k) == Below(w, k)
  {
    hide Shl, Shr, Low;
    SplitAt(w, k);
    ShrUnique(Val(w), 64 * k, From(w, k), Below(w, k));
  }

  // ---- Zero test, leading bit and comparison ----------------------------------------------

  predicate Is0(w: U256) { w[0] == 0 && w[1] == 0 && w[2] == 0 && w[3] == 0 }

  lemma {:induction false} FromZero(w: seq<u64>, k: nat)
    requires k <= |w|
    ensures From(w, k) == 0 <==> forall i :: k <= i < |w| ==> w[i] == 0
    decreases |w| - k
  {
    if k < |w| { FromZero(w, k + 1); }
  }

  lemma Is0Value(w: U256)
    ensures Is0(w) <==> Val(w) == 0
  {
    FromZero(w, 0);
  }

  /** The index of the top set bit, or -1. */
  method Msb256(w: U256) returns (m: int)
    ensures Val(w) == 0 ==> m == -1
    ensures Val(w) > 0 ==> 0 <= m <= 255 && Pow2(m) <= Val(w) < Pow2(m + 1)
  {
    hide Shl, Clz64;
    var i := 3;
    while i >= 0
      invariant -1 <= i <= 3 && From(w, i + 1) == 0
    {
      if w[i] != 0 {
        ClzCorrect(w[i]);
        SplitAt(w, i);
        TopWordBit(w[i], 63 - Clz64(w[i]), i, Below(w, i));
        Pow2Positive(i * 64 + (63 - Clz64(w[i])));
        return i * 64 + (63 - Clz64(w[i]));
      }
      i := i - 1;
    }
    return -1;
  }

  lemma TopWordBit(h: nat, m: nat, i: nat, low: nat)
    requires Pow2(m) <= h < Pow2(m + 1) && low < Pow2(64 * i)
    ensures Pow2(i * 64 + m) <= Shl(h, 64 * i) + low < Pow2(i * 64 + m + 1)
  {
    hide Shl;
    ShlShl(1, m, 64 * i);
    ShlOrder(h, Pow2(m), 64 * i);
    JoinBelow(h, m + 1, low, 64 * i);
  }

  method Cmp256(a: U256, b: U256) returns (c: int)
    ensures c < 0 <==> Val(a) < Val(b)
    ensures c == 0 <==> Val(a) == Val(b)
  {
    var i := 3;
    while i >= 0
      invariant -1 <= i <= 3 && From(a, i + 1) == From(b, i + 1)
    {
      if a[i] != b[i] {
        DecidedAt(a, b, i);
        return if a[i] < b[i] then -1 else 1;
      }
      i := i - 1;
    }
    return 0;
  }

  lemma DecidedAt(a: U256, b: U256, i: nat)
    requires i < 4 && From(a, i + 1) == From(b, i + 1) && a[i] != b[i]
    ensures Val(a) != Val(b) && (Val(a) < Val(b) <==> a[i] < b[i])
  {
    hide Shl, Below, Pow2;
    SplitAt(a, i);
    SplitAt(b, i);
    LeadDecides(From(a, i), Below(a, i), From(b, i), Below(b, i), 64 * i);
  }

  /** With different leading parts the trailing parts do not matter. */
  lemma LeadDecides(p: nat, x: nat, q: nat, y: nat, n: nat)
    requires p != q && x < Pow2(n) && y < Pow2(n)
    ensures Shl(p, n) + x != Shl(q, n) + y && (Shl(p, n) + x < Shl(q, n) + y <==> p < q)
  {
    hide Shl;
    ShlAdd(p, 1, n);
    ShlAdd(q, 1, n);
    ShlOrder(q, p + 1, n);
    ShlOrder(p, q + 1, n);
  }

  // ---- Addition and subtraction -----------------------------------------------------------

  lemma {:induction false} BelowPrefix(w: seq<u64>, x: seq<u64>, k: nat)
    requires k <= |w| && k <= |x| && forall i :: 0 <= i < k ==> w[i] == x[i]
    ensures Below(w, k) == Below(x, k)
  {
    if k > 0 { BelowPrefix(w, x, k - 1); }
  }

  lemma CarryStep(x: nat, y: nat, c: nat, s: nat, c': nat, n: nat)
    requires s + c' * W64 == x + y + c
    ensures Shl(s, n) + Shl(c', n + 64) == Shl(x, n) + Shl(y, n) + Shl(c, n)
  {
    hide Shl;
    ShlWord(c');
    ShlAdd(s, Shl(c', 64), n);
    ShlShl(c', 64, n);
    ShlAdd(x + y, c, n);
    ShlAdd(x, y, n);
  }

  method Add256(a: U256, b: U256) returns (r: U256)
    ensures Val(r) == Low(Val(a) + Val(b), 256)
  {
    hide Shl, Low;
    r := [0, 0, 0, 0];
    var carry := 0;
    var i := 0;
    ShlZero(0);
    while i < 4
      invariant 0 <= i <= 4 && 0 <= carry <= 1
      invariant Below(r, i) + Shl(carry, 64 * i) == Below(a, i) + Below(b, i)
    {
      var s := (a[i] + carry) % W64;
      var c1 := if s < carry then 1 else 0;
      var t := (s + b[i]) % W64;
      var c2 := if t < b[i] then 1 else 0;
      CarryStep(a[i], b[i], carry, t, c1 + c2, 64 * i);
      BelowPrefix(r, r[i := t], i);
      r := r[i := t];
      carry := c1 + c2;
      i := i + 1;
    }
    FitsWide(r);
    FitsWide(a);
    FitsWide(b);
    ShrUnique(Val(a) + Val(b), 256, carry, Val(r));
  }

  method Sub256(a: U256, b: U256) returns (r: U256)
    requires Val(b) <= Val(a)
    ensures Val(r) == Val(a) - Val(b)
  {
    hide Shl, Low;
    r := [0, 0, 0, 0];
    var borrow := 0;
    var i := 0;
    ShlZero(0);
    while i < 4
      invariant 0 <= i <= 4 && 0 <= borrow <= 1
      invariant Below(r, i) + Below(b, i) == Below(a, i) + Shl(borrow, 64 * i)
    {
      var bi := (b[i] + borrow) % W64;
      var b0 := if bi < borrow then 1 else 0;
      var d := (a[i] - bi) % W64;
      var b1 := if a[i] < bi then 1 else 0;
      BorrowStep(a[i], b[i], borrow, d, b0 + b1, 64 * i);
      BelowPrefix(r, r[i := d], i);
      r := r[i := d];
      borrow := b0 + b1;
      i := i + 1;
    }
    FitsWide(r);
    FitsWide(a);
    FitsWide(b);
    NoBorrow(Val(r), Val(b), Val(a), borrow);
  }

  lemma BorrowStep(x: nat, y: nat, c: nat, d: nat, c': nat, n: nat)
    requires d + y + c == x + c' * W64
    ensures Shl(d, n) + Shl(y, n) + Shl(c, n) == Shl(x, n) + Shl(c', n + 64)
  {
    hide Shl;
    ShlWord(c');
    ShlAdd(x, Shl(c', 64), n);
    ShlShl(c', 64, n);
    ShlAdd(d + y, c, n);
    ShlAdd(d, y, n);
  }

  lemma NoBorrow(r: nat, b: nat, a: nat, borrow: nat)
    requires b <= a && r < Pow2(256) && r + b == a + Shl(borrow, 256) && borrow <= 1
    ensures r == a - b
  {
    ShlZero(256);
  }

  // ---- Left shift -------------------------------------------------------------------------

  /** The bits word j-1 pushes into word j when every word moves up by `bit`. */
  function Spill(s: U256, bit: nat, j: nat): nat
    requires bit < 64 && j <= 4
  {
    if bit > 0 && j > 0 then Shr(s[j - 1], 64 - bit) else 0
  }

  function ShiftedUp(s: U256, bit: nat, j: nat): u64
    requires bit < 64 && j < 4
  {
    LowIsWord(Shl(s[j], bit));
    if bit > 0 && j > 0 then JoinIsWord(s[j], s[j - 1], bit); Low(Shl(s[j], bit), 64) + Shr(s[j - 1], 64 - bit)
    else Low(Shl(s[j], bit), 64)
  }

  /** One word: what stays and what spills make up the shifted word. */
  lemma SpillStep(s: U256, bit: nat, j: nat)
    requires bit < 64 && j < 4
    ensures ShiftedUp(s, bit, j) + Shl(Spill(s, bit, j + 1), 64) == Shl(s[j], bit) + Spill(s, bit, j)
  {
    hide Shl, Shr, Low;
    ShiftSplit(Shl(s[j], bit), 64);
    if bit > 0 {
      LowOfShl(s[j], bit, 64 - bit);
    } else {
      ShlUnit(s[j]);
      Pow2Words();
      ShrSmall(s[j], 64);
    }
  }

  lemma {:induction false} ShiftUpTelescopes(s: U256, r: U256, word: nat, bit: nat, j: nat)
    requires bit < 64 && word + j <= 4
    requires forall i :: 0 <= i < word ==> r[i] == 0
    requires forall i :: word <= i < 4 ==> r[i] == ShiftedUp(s, bit, i - word)
    ensures Below(r, word + j) + Shl(Spill(s, bit, j), 64 * (word + j)) == Shl(Below(s, j), 64 * word + bit)
  {
    hide Shl, Shr, Low, ShiftedUp, Spill;
    if j == 0 {
      BelowZeros(r, word);
      ShlZero(64 * word);
      ShlZero(64 * word + bit);
      assert Spill(s, bit, 0) == 0 by { SpillNone(s, bit); }
    } else {
      ShiftUpTelescopes(s, r, word, bit, j - 1);
      var n, k := 64 * word + bit, 64 * (word + j - 1);
      SpillStep(s, bit, j - 1);
      ShlAdd(r[word + j - 1], Shl(Spill(s, bit, j), 64), k);
      ShlShl(Spill(s, bit, j), 64, k);
      ShlAdd(Shl(s[j - 1], bit), Spill(s, bit, j - 1), k);
      ShlShl(s[j - 1], bit, k);
      ShlAdd(Below(s, j - 1), Shl(s[j - 1], 64 * (j - 1)), n);
      ShlShl(s[j - 1], 64 * (j - 1), n);
    }
  }

  lemma SpillNone(s: U256, bit: nat)
    requires bit < 64
    ensures Spill(s, bit, 0) == 0
  {
  }

  lemma {:induction false} BelowZeros(r: seq<u64>, k: nat)
    requires k <= |r| && forall i :: 0 <= i < k ==> r[i] == 0
    ensures Below(r, k) == 0
  {
    if k > 0 {
      BelowZeros(r, k - 1);
      ShlZero(64 * (k - 1));
    }
  }

  lemma ShiftUpCorrect(s: U256, r: U256, word: nat, bit: nat)
    requires bit < 64 && word < 4
    requires forall i :: 0 <= i < word ==> r[i] == 0
    requires forall i :: word <= i < 4 ==> r[i] == ShiftedUp(s, bit, i - word)
    ensures Val(r) == Low(Shl(Val(s), 64 * word + bit), 256)
  {
    hide Shl, Shr, Low, ShiftedUp, Spill;
    var n, k := 64 * word + bit, 4 - word;
    ShiftUpTelescopes(s, r, word, bit, k);
    FitsWide(r);
    SplitAt(s, k);
    ShlAdd(Below(s, k), Shl(From(s, k), 64 * k), n);
    ShlShl(From(s, k), 64 * k, n);
    ShlShl(From(s, k), bit, 256);
    ShlAdd(Spill(s, bit, k), Shl(From(s, k), bit), 256);
    ShrUnique(Shl(Val(s), n), 256, Spill(s, bit, k) + Shl(From(s, k), bit), Val(r));
  }

  method Shl128To256(a: U128, n: nat) returns (r: U256)
    ensures Val(r) == Low(Shl(V(a), n), 256)
  {
    hide Shl, Shr, Low, V;
    var s := From128(a);
    r := [0, 0, 0, 0];
    From128Value(a);
    if n >= 256 {
      ShiftedOut(V(a), n);
      Is0Value(r);
      return;
    }
    var word, bit := n / 64, n % 64;
    var i := 3;
    while i >= word
      invariant word - 1 <= i <= 3
      invariant forall j :: 0 <= j <= i ==> r[j] == 0
      invariant forall j :: i < j < 4 ==> r[j] == ShiftedUp(s, bit, j - word)
    {
      var v := Low(Shl(s[i - word], bit), 64);
      LowIsWord(Shl(s[i - word], bit));
      if bit != 0 && i - word - 1 >= 0 {
        JoinIsWord(s[i - word], s[i - word - 1], bit);
        v := v + Shr(s[i - word - 1], 64 - bit);
      }
      r := r[i := v];
      i := i - 1;
    }
    ShiftUpCorrect(s, r, word, bit);
  }

  lemma ShiftedOut(v: nat, n: nat)
    requires n >= 256
    ensures Low(Shl(v, n), 256) == 0
  {
    hide Shl, Low;
    ShlShl(v, n - 256, 256);
    ShlThenShr(Shl(v, n - 256), 256);
  }

  // ---- Right shift with jam ---------------------------------------------------------------

  function ShiftedDown(a: U256, bit: nat, j: nat): u64
    requires bit < 64 && j < 4
  {
    ShrIsWord(a[j], bit);
    if bit > 0 && j + 1 < 4 then JoinIsWord(a[j + 1], a[j], 64 - bit); Shr(a[j], bit) + Low(Shl(a[j + 1], 64 - bit), 64)
    else Shr(a[j], bit)
  }

  lemma LowOfFrom(a: U256, j: nat, bit: nat)
    requires j < 4 && bit <= 64
    ensures Low(From(a, j), bit) == Low(a[j], bit)
  {
    hide Shl, Shr, Low;
    var t := From(a, j + 1);
    ShlWord(t);
    ShiftSplit(a[j], bit);
    ShlShl(t, 64 - bit, bit);
    ShlAdd(Shl(t, 64 - bit), Shr(a[j], bit), bit);
    ShrUnique(From(a, j), bit, Shl(t, 64 - bit) + Shr(a[j], bit), Low(a[j], bit));
  }

  /** Words j and up shifted down by `bit`: word j of the result and the rest. */
  lemma ShiftDownStep(a: U256, bit: nat, j: nat)
    requires bit < 64 && j < 4
    ensures Shr(From(a, j), bit) == ShiftedDown(a, bit, j) + Shr(From(a, j + 1), bit) * W64
  {
    hide Shl, Shr, Low;
    var t := From(a, j + 1);
    ShlWord(t);
    ShrOfJoin(t, a[j], bit);
    ShlWord(Shr(t, bit));
    if bit == 0 {
      ShiftZero(t);
    } else {
      LowOfShl(t, 64 - bit, bit);
      ShiftSplit(Shl(t, 64 - bit), 64);
      if j + 1 < 4 {
        LowOfFrom(a, j + 1, bit);
        LowOfShl(a[j + 1], 64 - bit, bit);
      } else {
        NothingAbove(bit);
      }
    }
  }

  lemma NothingAbove(bit: nat)
    requires bit <= 64
    ensures Shr(0, bit) == 0 && Shl(0, 64 - bit) == 0
  {
    Pow2Positive(bit);
    ShrSmall(0, bit);
    ShlZero(64 - bit);
  }

  lemma {:induction false} ShiftDownFrom(a: U256, r: U256, word: nat, bit: nat, i: nat)
    requires bit < 64 && word < 4 && i + word <= 4
    requires forall k :: 0 <= k < 4 ==> r[k] == if k + word < 4 then ShiftedDown(a, bit, k + word) else 0
    ensures From(r, i) == Shr(From(a, i + word), bit)
    decreases 4 - i
  {
    hide Shl, Shr, Low, ShiftedDown;
    if i + word == 4 {
      FromZero(r, i);
      NothingAbove(bit);
    } else {
      ShiftDownFrom(a, r, word, bit, i + 1);
      ShiftDownStep(a, bit, i + word);
    }
  }

  lemma ShiftDownCorrect(a: U256, r: U256, word: nat, bit: nat)
    requires bit < 64 && word < 4
    requires forall k :: 0 <= k < 4 ==> r[k] == if k + word < 4 then ShiftedDown(a, bit, k + word) else 0
    ensures Val(r) == Shr(Val(a), 64 * word + bit)
  {
    hide Shl, Shr, Low, ShiftedDown;
    ShiftDownFrom(a, r, word, bit, 0);
    Suffix(a, word);
    ShrShr(Val(a), 64 * word, bit);
  }

  lemma {:induction false} BelowNonzero(w: seq<u64>, k: nat)
    requires k <= |w|
    ensures Below(w, k) != 0 <==> exists i :: 0 <= i < k && w[i] != 0
  {
    if k > 0 {
      BelowNonzero(w, k - 1);
      ShlOrder(0, w[k - 1], 64 * (k - 1));
      ShlZero(64 * (k - 1));
    }
  }

  lemma LostBits(a: U256, word: nat, bit: nat)
    requires bit < 64 && word < 4
    ensures Low(Val(a), 64 * word + bit) != 0
       <==> (exists i :: 0 <= i < word && a[i] != 0) || Low(a[word], bit) != 0
  {
    hide Shl, Shr, Low;
    LowOfShr(Val(a), 64 * word, bit);
    Suffix(a, word);
    LowOfFrom(a, word, bit);
    BelowNonzero(a, word);
    ShlOrder(0, Low(a[word], bit), 64 * word);
    ShlZero(64 * word);
  }

  method Shr256Jam(a: U256, n: nat) returns (r: U256, lost: bool)
    ensures Val(r) == Shr(Val(a), n)
    ensures lost <==> Low(Val(a), n) != 0
  {
    hide Shl, Shr, Low, Val, ShiftedDown;
    if n == 0 {
      ShiftZero(Val(a));
      return a, false;
    }
    if n >= 256 {
      r, lost := [0, 0, 0, 0], !Is0(a);
      Is0Value(a);
      Is0Value(r);
      FitsWide(a);
      Pow2Mono(256, n);
      ShrSmall(Val(a), n);
      return;
    }
    var word, bit := n / 64, n % 64;
    lost := false;
    var i := 0;
    while i < word
      invariant 0 <= i <= word
      invariant lost <==> exists j :: 0 <= j < i && a[j] != 0
    {
      if a[i] != 0 { lost := true; }
      i := i + 1;
    }
    if bit != 0 && Low(a[word], bit) != 0 { lost := true; }
    LostBits(a, word, bit);
    ShiftZero(a[word]);
    r := ShiftDownWords(a, word, bit);
  }

  method ShiftDownWords(a: U256, word: nat, bit: nat) returns (r: U256)
    requires bit < 64 && word < 4
    ensures Val(r) == Shr(Val(a), 64 * word + bit)
  {
    hide Shl, Shr, Low;
    r := [0, 0, 0, 0];
    var i := 0;
    while i + word < 4
      invariant 0 <= i <= 4 - word
      invariant forall k :: 0 <= k < i ==> r[k] == ShiftedDown(a, bit, k + word)
      invariant forall k :: i <= k < 4 ==> r[k] == 0
    {
      var v := Shr(a[i + word], bit);
      ShrIsWord(a[i + word], bit);
      if bit != 0 && i + word + 1 < 4 {
        JoinIsWord(a[i + word + 1], a[i + word], 64 - bit);
        v := v + Low(Shl(a[i + word + 1], 64 - bit), 64);
      }
      r := r[i := v];
      i := i + 1;
    }
    ShiftDownCorrect(a, r, word, bit);
  }
}
