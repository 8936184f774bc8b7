/** Binary shifts of naturals and binary scaling of reals.  Both are defined by doubling and
    halving, so that everything built on them is linear arithmetic; `ShiftsAreDivision` ties
    them to multiplication and division by a power of two. */
module Powers {

  function Shl(a: nat, n: nat): nat {
    if n == 0 then a else 2 * Shl(a, n - 1)
  }

  function Shr(a: nat, n: nat): nat {
    if n == 0 then a else Shr(a, n - 1) / 2
  }

  /** The low n bits of a. */
  function Low(a: nat, n: nat): nat {
    if n == 0 then 0 else Low(a, n - 1) + Shl(Shr(a, n - 1) % 2, n - 1)
  }

  function Pow2(n: nat): nat { Shl(1, n) }

  // ---- Left shifts ------------------------------------------------------------------------

  lemma {:induction false} ShlAdd(a: nat, b: nat, n: nat)
    ensures Shl(a + b, n) == Shl(a, n) + Shl(b, n)
  {
    if n > 0 { ShlAdd(a, b, n - 1); }
  }

  lemma {:induction false} ShlZero(n: nat)
    ensures Shl(0, n) == 0
  {
    if n > 0 { ShlZero(n - 1); }
  }

  lemma {:induction false} ShlShl(a: nat, m: nat, n: nat)
    ensures Shl(Shl(a, m), n) == Shl(a, m + n)
  {
    if n > 0 { ShlShl(a, m, n - 1); }
  }

  lemma {:induction false} ShlOrder(a: nat, b: nat, n: nat)
    ensures a < b <==> Shl(a, n) < Shl(b, n)
    ensures a == b <==> Shl(a, n) == Shl(b, n)
  {
    if n > 0 { ShlOrder(a, b, n - 1); }
  }

  lemma {:induction false} ShlIncreasing(a: nat, m: nat, n: nat)
    requires m <= n
    ensures Shl(a, m) <= Shl(a, n)
  {
    if m < n { ShlIncreasing(a, m, n - 1); }
  }

  lemma {:induction false} ShlIsTimes(a: nat, n: nat)
    ensures Shl(a, n) == a * Pow2(n)
  {
    if n > 0 {
      ShlIsTimes(a, n - 1);
      TimesDouble(a, Pow2(n - 1));
    }
  }

  lemma TimesDouble(a: nat, p: nat)
    ensures a * (2 * p) == 2 * (a * p)
  {
  }

  lemma {:induction false} ShlEven(a: nat, n: nat)
    requires n > 0
    ensures Shl(a, n) % 2 == 0
  {
  }

  lemma Pow2Positive(n: nat)
    ensures Pow2(n) >= 1
  {
    ShlOrder(0, 1, n);
    ShlZero(n);
  }

  lemma Pow2Mono(m: nat, n: nat)
    requires m <= n
    ensures Pow2(m) <= Pow2(n)
  {
    ShlIncreasing(1, m, n);
  }

  lemma Pow2Values()
    ensures Pow2(8) == 0x100 && Pow2(10) == 0x400 && Pow2(11) == 0x800 && Pow2(12) == 0x1000
    ensures Pow2(16) == 0x1_0000
  {
    assert Pow2(4) == 16;
    assert Pow2(8) == 256;
    assert Pow2(12) == 4096;
  }

  lemma Pow2Words()
    ensures Pow2(32) == 0x1_0000_0000
    ensures Pow2(64) == 0x1_0000_0000_0000_0000
  {
    Pow2Values();
    assert Pow2(24) == 0x100_0000;
    assert Pow2(32) == 0x1_0000_0000;
    assert Pow2(40) == 0x100_0000_0000;
    assert Pow2(48) == 0x1_0000_0000_0000;
    assert Pow2(56) == 0x100_0000_0000_0000;
  }

  // ---- Right shifts -----------------------------------------------------------------------

  lemma {:induction false} ShiftSplit(a: nat, n: nat)
    ensures a == Shl(Shr(a, n), n) + Low(a, n)
    ensures Low(a, n) < Pow2(n)
  {
    if n > 0 {
      ShiftSplit(a, n - 1);
      var q := Shr(a, n - 1);
      assert q == 2 * (q / 2) + q % 2;
      ShlAdd(2 * (q / 2), q % 2, n - 1);
      ShlShl(q / 2, 1, n - 1);
      assert Shl(q / 2, 1) == 2 * (q / 2);
      ShlOrder(q % 2, 2, n - 1);
      ShlAdd(q % 2, 1, n - 1);
      ShlOrder(q % 2 + 1, 2, n - 1);
      ShlShl(1, 1, n - 1);
      assert Shl(1, 1) == 2;
    }
  }

  lemma ShrUnique(a: nat, n: nat, q: nat, r: nat)
    requires a == Shl(q, n) + r && r < Pow2(n)
    ensures Shr(a, n) == q && Low(a, n) == r
  {
    ShiftSplit(a, n);
    var p := Shr(a, n);
    if q < p {
      ShlAdd(q, 1, n);
      ShlOrder(p, q + 1, n);
    } else if p < q {
      ShlAdd(p, 1, n);
      ShlOrder(q, p + 1, n);
    }
  }

  lemma Quotient(a: nat, u: nat)
    requires u > 0
    ensures a / u >= 0 && a == (a / u) * u + a % u
  {
  }

  lemma ShiftsAreDivision(a: nat, n: nat)
    ensures Pow2(n) > 0 && Shl(a, n) == a * Pow2(n)
    ensures Shr(a, n) == a / Pow2(n) && Low(a, n) == a % Pow2(n)
  {
    hide Shl, Shr, Low, Pow2;
    Pow2Positive(n);
    ShlIsTimes(a, n);
    Quotient(a, Pow2(n));
    ShlIsTimes(a / Pow2(n), n);
    ShrUnique(a, n, a / Pow2(n), a % Pow2(n));
  }

  lemma {:induction false} ShrShr(a: nat, m: nat, n: nat)
    ensures Shr(Shr(a, m), n) == Shr(a, m + n)
  {
    if n > 0 { ShrShr(a, m, n - 1); }
  }

  /** Where a shifted value lies relative to a bound: a >> n < b iff a < b << n. */
  lemma ShrBelow(a: nat, n: nat, b: nat)
    ensures Shr(a, n) < b <==> a < Shl(b, n)
  {
    ShiftSplit(a, n);
    var q := Shr(a, n);
    ShlOrder(q, b, n);
    ShlAdd(q, 1, n);
    ShlOrder(b, q + 1, n);
  }

  lemma ShrSmall(a: nat, n: nat)
    requires a < Pow2(n)
    ensures Shr(a, n) == 0 && Low(a, n) == a
  {
    ShlZero(n);
    ShrUnique(a, n, 0, a);
  }

  lemma ShlThenShr(a: nat, n: nat)
    ensures Shr(Shl(a, n), n) == a && Low(Shl(a, n), n) == 0
  {
    Pow2Positive(n);
    ShrUnique(Shl(a, n), n, a, 0);
  }

  lemma LowOfShl(a: nat, n: nat, m: nat)
    ensures Low(Shl(a, n), n + m) == Shl(Low(a, m), n)
    ensures Shr(Shl(a, n), n + m) == Shr(a, m)
  {
    hide Shl, Shr, Low;
    ShiftSplit(a, m);
    ShlAdd(Shl(Shr(a, m), m), Low(a, m), n);
    ShlShl(Shr(a, m), m, n);
    ShlOrder(Low(a, m), Pow2(m), n);
    ShlShl(1, m, n);
    ShrUnique(Shl(a, n), n + m, Shr(a, m), Shl(Low(a, m), n));
  }

  lemma LowOfShr(a: nat, m: nat, n: nat)
    ensures Low(a, m + n) == Shl(Low(Shr(a, m), n), m) + Low(a, m)
  {
    hide Shl, Shr, Low;
    var q := Shr(a, m);
    ShiftSplit(a, m);
    ShiftSplit(q, n);
    ShlAdd(Shl(Shr(q, n), n), Low(q, n), m);
    ShlShl(Shr(q, n), n, m);
    JoinBelow(Low(q, n), n, Low(a, m), m);
    ShrUnique(a, m + n, Shr(q, n), Shl(Low(q, n), m) + Low(a, m));
  }

  /** A field of n bits above a field of m bits fills m + n bits. */
  lemma JoinBelow(hi: nat, n: nat, lo: nat, m: nat)
    requires hi < Pow2(n) && lo < Pow2(m)
    ensures Shl(hi, m) + lo < Pow2(m + n)
  {
    hide Shl;
    ShlAdd(hi, 1, m);
    ShlOrder(Pow2(n), hi + 1, m);
    ShlShl(1, n, m);
  }

  // ---- Scaling a real by 2^e --------------------------------------------------------------

  /** x * 2^e, for any integer exponent e. */
  function Scale(x: real, e: int): (r: real)
    decreases if e < 0 then -e else e
  {
    if e == 0 then x else if e > 0 then 2.0 * Scale(x, e - 1) else Scale(x, e + 1) / 2.0
  }

  lemma ScaleStep(x: real, e: int)
    ensures Scale(x, e + 1) == 2.0 * Scale(x, e)
  {
  }

  lemma {:induction false} ScaleDouble(x: real, e: int)
    ensures Scale(2.0 * x, e) == 2.0 * Scale(x, e)
    decreases if e < 0 then -e else e
  {
    if e > 0 { ScaleDouble(x, e - 1); } else if e < 0 { ScaleDouble(x, e + 1); }
  }

  lemma {:induction false} ScaleScale(x: real, a: int, b: int)
    ensures Scale(Scale(x, a), b) == Scale(x, a + b)
    decreases if b < 0 then -b else b
  {
    if b > 0 {
      ScaleScale(x, a, b - 1);
      ScaleStep(x, a + b - 1);
    } else if b < 0 {
      ScaleScale(x, a, b + 1);
      ScaleStep(x, a + b);
    }
  }

  lemma {:induction false} ScaleAdd(x: real, y: real, e: int)
    ensures Scale(x + y, e) == Scale(x, e) + Scale(y, e)
    decreases if e < 0 then -e else e
  {
    if e > 0 { ScaleAdd(x, y, e - 1); } else if e < 0 { ScaleAdd(x, y, e + 1); }
  }

  lemma {:induction false} ScaleZero(e: int)
    ensures Scale(0.0, e) == 0.0
    decreases if e < 0 then -e else e
  {
    if e > 0 { ScaleZero(e - 1); } else if e < 0 { ScaleZero(e + 1); }
  }

  lemma {:induction false} ScaleOrder(x: real, y: real, e: int)
    ensures x < y <==> Scale(x, e) < Scale(y, e)
    ensures x == y <==> Scale(x, e) == Scale(y, e)
    decreases if e < 0 then -e else e
  {
    if e > 0 { ScaleOrder(x, y, e - 1); } else if e < 0 { ScaleOrder(x, y, e + 1); }
  }

  lemma ScalePositive(x: real, e: int)
    ensures x > 0.0 <==> Scale(x, e) > 0.0
    ensures x == 0.0 <==> Scale(x, e) == 0.0
  {
    ScaleZero(e);
    ScaleOrder(0.0, x, e);
  }

  lemma {:induction false} ScaleNat(a: nat, n: nat)
    ensures Scale(a as real, n) == Shl(a, n) as real
  {
    if n > 0 { ScaleNat(a, n - 1); }
  }

  lemma {:induction false} ScaleExponentMono(x: real, a: int, b: int)
    requires x >= 0.0 && a <= b
    ensures Scale(x, a) <= Scale(x, b)
    decreases b - a
  {
    if a < b {
      ScaleExponentMono(x, a, b - 1);
      ScaleStep(x, b - 1);
      ScalePositive(x, b - 1);
    }
  }

  lemma {:induction false} ScaleTimes(x: real, y: real, e: int)
    ensures Scale(x, e) * y == Scale(x * y, e)
    decreases if e < 0 then -e else e
  {
    if e > 0 {
      ScaleTimes(x, y, e - 1);
      DoubleTimes(Scale(x, e - 1), y);
    } else if e < 0 {
      ScaleTimes(x, y, e + 1);
      DoubleTimes(Scale(x, e), y);
    }
  }

  lemma DoubleTimes(x: real, y: real)
    ensures (2.0 * x) * y == 2.0 * (x * y)
  {
  }

  lemma PowDouble(n: nat)
    ensures Pow2(n + 1) == 2 * Pow2(n)
  {
  }

  lemma Commute(x: real, y: real)
    ensures x * y == y * x
  {
  }

  /** Scaled factors multiply.  The factors and the product are named, so that each product
      term is a product of two variables. */
  lemma ScaleProduct(x: real, a: int, y: real, b: int, u: real, v: real, p: real)
    requires u == Scale(x, a) && v == Scale(y, b) && p == x * y
    ensures u * v == Scale(p, a + b)
  {
    hide Scale;
    var w := x * v;
    assert u * v == Scale(w, a) by { ScaleTimes(x, v, a); }
    assert v * x == Scale(p, b) by { ScaleTimes(y, x, b); Commute(x, y); }
    assert w == v * x by { Commute(x, v); }
    ScaleScale(p, b, a);
  }
}
