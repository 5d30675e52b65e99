/**
  Doubling in GF(2^8) modulo x^8 + x^4 + x^3 + x^2 + 1 (0x11D), on eight-bit vectors: doubling
  1 walks through all 255 non-zero values before it returns to 1.  This is the one fact that
  makes a log/antilog table a multiplication table.
*/
module Generator {

  lemma BitsInjective(a: bv8, b: bv8)
    ensures a as int == b as int <==> a == b
  {
  }

  // ----- powers of the generator

  /** Multiplication by x. */
  function Double(a: bv8): bv8 {
    (a << 1) ^ (if a & 0x80 != 0 then 0x1D else 0)
  }

  function Shift(n: nat, a: bv8): bv8 {
    if n == 0 then a else Double(Shift(n - 1, a))
  }

  /** The antilog table's entry for n, without its bound of 512. */
  function Exp(n: nat): bv8 {
    Shift(n, 1)
  }

  /** Exclusive-or under a name, so that proofs can hide its bits. */
  function Add(a: bv8, b: bv8): bv8 {
    a ^ b
  }

  lemma ShiftLeftXor(a: bv8, b: bv8)
    ensures (a ^ b) << 1 == (a << 1) ^ (b << 1)
  {
  }

  lemma TopBitXor(a: bv8, b: bv8)
    ensures (a ^ b) & 0x80 == (a & 0x80) ^ (b & 0x80)
  {
  }

  lemma TopBit(a: bv8)
    ensures a & 0x80 == 0 || a & 0x80 == 0x80
  {
  }

  lemma DoubleAdd(a: bv8, b: bv8)
    ensures Double(Add(a, b)) == Add(Double(a), Double(b))
  {
    ShiftLeftXor(a, b);
    TopBitXor(a, b);
    TopBit(a);
    TopBit(b);
  }

  lemma DoubleInjective(a: bv8, b: bv8)
    requires Double(a) == Double(b)
    ensures a == b
  {
  }

  lemma {:induction false} ShiftAdd(n: nat, a: bv8, b: bv8)
    ensures Shift(n, Add(a, b)) == Add(Shift(n, a), Shift(n, b))
  {
    hide Double, Add;
    if n > 0 {
      ShiftAdd(n - 1, a, b);
      DoubleAdd(Shift(n - 1, a), Shift(n - 1, b));
    }
  }

  lemma {:induction false} ShiftInjective(n: nat, a: bv8, b: bv8)
    requires Shift(n, a) == Shift(n, b)
    ensures a == b
  {
    if n > 0 {
      DoubleInjective(Shift(n - 1, a), Shift(n - 1, b));
      ShiftInjective(n - 1, a, b);
    }
  }

  lemma {:induction false} ShiftShift(m: nat, n: nat, a: bv8)
    ensures Shift(m, Shift(n, a)) == Shift(m + n, a)
  {
    if m > 0 {
      ShiftShift(m - 1, n, a);
    }
  }

  lemma {:induction false} ShiftZero(n: nat)
    ensures Shift(n, 0) == 0
  {
    if n > 0 {
      ShiftZero(n - 1);
    }
  }

  lemma ExpNonZero(n: nat)
    ensures Exp(n) != 0
  {
    if Exp(n) == 0 {
      ShiftZero(n);
      ShiftInjective(n, 1, 0);
    }
  }

  // ----- the generator has order 255

  lemma ShiftEight(n: nat)
    ensures Exp(n + 8) == Double(Double(Double(Double(Double(Double(Double(Double(Exp(n)))))))))
  {
    assert Exp(n + 2) == Double(Exp(n + 1));
    assert Exp(n + 3) == Double(Exp(n + 2));
    assert Exp(n + 4) == Double(Exp(n + 3));
    assert Exp(n + 5) == Double(Exp(n + 4));
    assert Exp(n + 6) == Double(Exp(n + 5));
    assert Exp(n + 7) == Double(Exp(n + 6));
  }

  lemma Exp32()
    ensures Exp(32) == 0x9D
  {
    ShiftEight(0);
    ShiftEight(8);
    ShiftEight(16);
    ShiftEight(24);
  }

  lemma Exp64()
    ensures Exp(64) == 0x5F
  {
    Exp32();
    ShiftEight(32);
    ShiftEight(40);
    ShiftEight(48);
    ShiftEight(56);
  }

  lemma Exp96()
    ensures Exp(96) == 0xD9
  {
    Exp64();
    ShiftEight(64);
    ShiftEight(72);
    ShiftEight(80);
    ShiftEight(88);
  }

  lemma Exp128()
    ensures Exp(128) == 0x85
  {
    Exp96();
    ShiftEight(96);
    ShiftEight(104);
    ShiftEight(112);
    ShiftEight(120);
  }

  lemma Exp160()
    ensures Exp(160) == 0xE6
  {
    Exp128();
    ShiftEight(128);
    ShiftEight(136);
    ShiftEight(144);
    ShiftEight(152);
  }

  lemma Exp192()
    ensures Exp(192) == 0x82
  {
    Exp160();
    ShiftEight(160);
    ShiftEight(168);
    ShiftEight(176);
    ShiftEight(184);
  }

  lemma Exp224()
    ensures Exp(224) == 0x12
  {
    Exp192();
    ShiftEight(192);
    ShiftEight(200);
    ShiftEight(208);
    ShiftEight(216);
  }

  lemma Exp256()
    ensures Exp(256) == 0x02
  {
    Exp224();
    ShiftEight(224);
    ShiftEight(232);
    ShiftEight(240);
    ShiftEight(248);
  }

  lemma ExpPeriod()
    ensures Exp(255) == 1
  {
    Exp256();
    DoubleInjective(Exp(255), 1);
  }

  lemma ExpShift(n: nat)
    ensures Exp(n + 255) == Exp(n)
  {
    ExpPeriod();
    ShiftShift(n, 255, 1);
  }

  /** Subtractive Euclid on exponents: two periods have a common divisor that is a period. */
  lemma {:induction false} CommonPeriod(a: nat, b: nat) returns (g: nat, x: nat, y: nat)
    requires 0 < a && 0 < b && Exp(a) == 1 && Exp(b) == 1
    ensures 0 < g && a == x * g && b == y * g && Exp(g) == 1
    decreases a + b
  {
    if a == b {
      g, x, y := a, 1, 1;
    } else if a < b {
      ExpDifference(a, b);
      g, x, y := CommonPeriod(a, b - a);
      y := x + y;
    } else {
      ExpDifference(b, a);
      g, x, y := CommonPeriod(a - b, b);
      x := x + y;
    }
  }

  lemma ExpDifference(m: nat, n: nat)
    requires m <= n && Exp(m) == Exp(n)
    ensures Exp(n - m) == 1
  {
    ShiftShift(m, n - m, 1);
    ShiftInjective(m, Exp(n - m), 1);
  }

  lemma ProductGrows(m: nat, n: nat, g: nat)
    ensures m <= n ==> m * g <= n * g
  {
    if m <= n {
      assert n * g == m * g + (n - m) * g;
    }
  }

  lemma ProperDivisorsOf255(x: nat, g: nat)
    requires x * g == 255 && 0 < g < 255
    ensures g in {1, 3, 5, 15, 17, 51, 85}
  {
    if g <= 15 {
      assert g in {1, 2, 3, 4, 5, 6, 7, 8, 9, 10, 11, 12, 13, 14, 15};
    } else {
      ProductGrows(16, x, g);
      assert x in {0, 1, 2, 3, 4, 5, 6, 7, 8, 9, 10, 11, 12, 13, 14, 15};
    }
  }

  lemma ExpAtDivisors(g: nat)
    requires g in {1, 3, 5, 15, 17, 51, 85}
    ensures Exp(g) != 1
  {
    if Exp(g) == 1 {
      // Every period is a period of 255's cofactors; the largest proper divisors suffice.
      if g == 1 || g == 3 || g == 5 || g == 15 {
        ExpMultiple(15 / g, g);
        ExpAt15();
      } else if g == 17 || g == 51 {
        ExpMultiple(51 / g, g);
        ExpAt51();
      } else {
        ExpAt85();
      }
    }
  }

  lemma {:induction false} ExpMultiple(m: nat, g: nat)
    requires Exp(g) == 1
    ensures Exp(m * g) == 1
  {
    if m > 0 {
      ExpMultiple(m - 1, g);
      assert m * g == (m - 1) * g + g;
      ShiftShift((m - 1) * g, g, 1);
    }
  }

  lemma ExpAt15()
    ensures Exp(15) == 0x26
  {
    ShiftEight(0);
    ShiftEight(8);
    assert Exp(16) == 0x4C;
    DoubleInjective(Exp(15), 0x26);
  }

  lemma ExpAt51()
    ensures Exp(51) == 0x0A
  {
    Exp32();
    ShiftEight(32);
    ShiftEight(40);
    assert Exp(49) == Double(Exp(48));
    assert Exp(50) == Double(Exp(49));
  }

  lemma ExpAt85()
    ensures Exp(85) == 0xD6
  {
    Exp64();
    ShiftEight(64);
    ShiftEight(72);
    ShiftEight(80);
    assert Exp(87) == Double(Exp(86));
    assert Double(Double(Double(0xD6))) == Exp(88);
    DoubleInjective(Exp(87), Double(Double(0xD6)));
    DoubleInjective(Exp(86), Double(0xD6));
    DoubleInjective(Exp(85), 0xD6);
  }

  /** No smaller power of the generator is 1. */
  lemma OrderIs255(d: nat)
    requires 0 < d < 255
    ensures Exp(d) != 1
  {
    if Exp(d) == 1 {
      ExpPeriod();
      var g, x, y := CommonPeriod(255, d);
      ProductGrows(1, y, g);
      ProperDivisorsOf255(x, g);
      ExpAtDivisors(g);
    }
  }

  lemma ExpInjective(i: nat, j: nat)
    requires i < 255 && j < 255 && Exp(i) == Exp(j)
    ensures i == j
  {
    if i < j {
      ExpDifference(i, j);
      OrderIs255(j - i);
    } else if j < i {
      ExpDifference(j, i);
      OrderIs255(i - j);
    }
  }

  // ----- ... so it reaches every non-zero byte

  ghost function Powers(n: nat): set<int> {
    set i | 0 <= i < n :: Exp(i) as int
  }

  ghost function Range(n: nat): set<int> {
    if n == 0 then {} else Range(n - 1) + {n}
  }

  lemma {:induction false} InRange(n: nat, i: int)
    ensures i in Range(n) <==> 1 <= i <= n
  {
    if n > 0 {
      InRange(n - 1, i);
    }
  }

  lemma {:induction false} PowersSize(n: nat)
    requires n <= 255
    ensures |Powers(n)| == n
  {
    if n == 0 {
      assert Powers(0) == {};
    } else {
      PowersSize(n - 1);
      assert Exp(n - 1) as int !in Powers(n - 1) by {
        if Exp(n - 1) as int in Powers(n - 1) {
          var i :| 0 <= i < n - 1 && Exp(i) as int == Exp(n - 1) as int;
          BitsInjective(Exp(i), Exp(n - 1));
          ExpInjective(i, n - 1);
        }
      }
      assert Powers(n) == Powers(n - 1) + {Exp(n - 1) as int};
    }
  }

  lemma {:induction false} RangeSize(n: nat)
    ensures |Range(n)| == n
  {
    if n > 0 {
      RangeSize(n - 1);
      InRange(n - 1, n);
    }
  }

  lemma SubsetOfSameSize(a: set<int>, b: set<int>)
    requires a <= b && |a| == |b|
    ensures a == b
  {
    assert |b - a| == |b| - |a|;
    assert b - a == {};
  }

  lemma ExpSurjective(a: bv8)
    requires a != 0
    ensures exists n: nat :: n < 255 && Exp(n) == a
  {
    PowersSize(255);
    RangeSize(255);
    forall v | v in Powers(255) ensures v in Range(255) {
      var i :| 0 <= i < 255 && Exp(i) as int == v;
      ExpNonZero(i);
      BitsInjective(Exp(i), 0);
      InRange(255, v);
    }
    SubsetOfSameSize(Powers(255), Range(255));
    BitsInjective(a, 0);
    InRange(255, a as int);
    assert a as int in Powers(255);
    var n :| 0 <= n < 255 && Exp(n) as int == a as int;
    BitsInjective(Exp(n), a);
  }

  // ----- a byte is the sum of its set bits

  function BitValue(v: bv8, i: nat): bv8
    requires i < 8
  {
    v & (1 << i)
  }

  function LowBits(v: bv8, n: nat): bv8
    requires n <= 8
  {
    if n == 0 then 0 else Add(LowBits(v, n - 1), BitValue(v, n - 1))
  }

  lemma LowBitsAll(v: bv8)
    ensures LowBits(v, 8) == v
  {
    assert LowBits(v, 1) == v & 1;
    assert LowBits(v, 2) == v & 3;
    assert LowBits(v, 3) == v & 7;
    assert LowBits(v, 4) == v & 15;
    assert LowBits(v, 5) == v & 31;
    assert LowBits(v, 6) == v & 63;
    assert LowBits(v, 7) == v & 127;
  }

  lemma BitValueCases(v: bv8, i: nat)
    requires i < 8
    ensures BitValue(v, i) == 0 || BitValue(v, i) == 1 << i
  {
  }
}
