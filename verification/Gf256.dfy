/**
  The field GF(256) of the erasure code: bytes under exclusive-or and under the product the
  log/antilog tables compute.
*/
module Gf256 {
  import opened Bytes
  import G = Generator

  /** a times the n-th power of the generator. */
  function Shift(n: nat, a: byte): byte {
    G.Shift(n, a as bv8) as int
  }

  /** The antilog table's entry for n, without its bound of 512. */
  function Exp(n: nat): byte {
    Shift(n, 1)
  }

  lemma ShiftBits(n: nat, a: byte)
    ensures Shift(n, a) as bv8 == G.Shift(n, a as bv8)
  {
    hide G.Shift;
    BitsByte(G.Shift(n, a as bv8));
  }

  lemma ExpBits(n: nat)
    ensures Exp(n) as bv8 == G.Exp(n)
  {
    ShiftBits(n, 1);
  }

  lemma ExpOfBits(n: nat)
    ensures Exp(n) == G.Exp(n) as int
  {
    hide G.Shift;
  }

  lemma ShiftXor(n: nat, a: byte, b: byte)
    ensures Shift(n, Xor(a, b)) == Xor(Shift(n, a), Shift(n, b))
  {
    hide G.Add, G.Shift;
    XorBits(a, b);
    ShiftBits(n, a);
    ShiftBits(n, b);
    G.ShiftAdd(n, a as bv8, b as bv8);
  }

  lemma ShiftShift(m: nat, n: nat, a: byte)
    ensures Shift(m, Shift(n, a)) == Shift(m + n, a)
  {
    hide *;
    ShiftBits(n, a);
    ShiftBits(m, Shift(n, a));
    ShiftBits(m + n, a);
    G.ShiftShift(m, n, a as bv8);
    SameBits(Shift(m, Shift(n, a)), Shift(m + n, a));
  }

  lemma ShiftZero(n: nat)
    ensures Shift(n, 0) == 0
  {
    hide G.Shift;
    G.ShiftZero(n);
  }

  lemma ExpNonZero(n: nat)
    ensures Exp(n) != 0
  {
    hide *;
    ExpBits(n);
    G.ExpNonZero(n);
  }

  lemma ExpPeriod(n: nat)
    ensures Exp(255) == 1
    ensures Exp(n + 255) == Exp(n)
  {
    hide *;
    ExpBits(255);
    ExpBits(n);
    ExpBits(n + 255);
    G.ExpPeriod();
    G.ExpShift(n);
    SameBits(Exp(255), 1);
    SameBits(Exp(n + 255), Exp(n));
  }

  lemma ExpInjective(i: nat, j: nat)
    requires i < 255 && j < 255 && Exp(i) == Exp(j)
    ensures i == j
  {
    hide *;
    ExpBits(i);
    ExpBits(j);
    G.ExpInjective(i, j);
  }

  lemma ExpSurjective(a: byte)
    requires a != 0
    ensures exists n: nat :: n < 255 && Exp(n) == a
  {
    hide *;
    ByteBits(a);
    ByteBits(0);
    G.ExpSurjective(a as bv8);
    var n: nat :| n < 255 && G.Exp(n) == a as bv8;
    ExpBits(n);
    SameBits(Exp(n), a);
  }

  /** The log table's entry for a non-zero byte. */
  ghost function Log(a: byte): (n: nat)
    requires a != 0
    ensures n < 255 && Exp(n) == a
  {
    ExpSurjective(a);
    var n: nat :| n < 255 && Exp(n) == a;
    n
  }

  lemma LogExp(i: nat)
    requires i < 255
    ensures Exp(i) != 0 && Log(Exp(i)) == i
  {
    hide *;
    ExpNonZero(i);
    ExpInjective(i, Log(Exp(i)));
  }

  lemma ShiftOne(n: nat)
    ensures Shift(n, 1) == Exp(n)
  {
  }

  lemma ExpZero()
    ensures Exp(0) == 1
  {
    G.BitsInjective(1, 1);
  }

  // ----- the field

  ghost function Mul(a: byte, b: byte): byte {
    if a == 0 || b == 0 then 0 else Exp(Log(a) + Log(b))
  }

  ghost function Inv(a: byte): byte
    requires a != 0
  {
    Exp(255 - Log(a))
  }

  lemma MulZero(a: byte)
    ensures Mul(a, 0) == 0 == Mul(0, a)
  {
  }

  lemma MulCommutes(a: byte, b: byte)
    ensures Mul(a, b) == Mul(b, a)
  {
  }

  lemma MulNonZero(a: byte, b: byte)
    ensures Mul(a, b) == 0 <==> a == 0 || b == 0
  {
    hide Exp, Shift;
    if a != 0 && b != 0 {
      ExpNonZero(Log(a) + Log(b));
    }
  }

  lemma MulIsShift(a: byte, b: byte)
    requires b != 0
    ensures Mul(a, b) == Shift(Log(b), a)
  {
    hide Exp, Shift;
    if a == 0 {
      ShiftZero(Log(b));
    } else {
      ShiftOne(Log(a));
      ShiftOne(Log(a) + Log(b));
      ShiftShift(Log(b), Log(a), 1);
    }
  }

  /** Exponents with the same power act alike on every byte. */
  lemma SameExponent(m: nat, n: nat, a: byte)
    requires Exp(m) == Exp(n)
    ensures Shift(m, a) == Shift(n, a)
  {
    hide *;
    if a == 0 {
      ShiftZero(m);
      ShiftZero(n);
    } else {
      var l := Log(a);
      ShiftOne(l);
      ShiftOne(m);
      ShiftOne(n);
      ShiftShift(m, l, 1);
      ShiftShift(n, l, 1);
      ShiftShift(l, m, 1);
      ShiftShift(l, n, 1);
    }
  }

  lemma MulAssociates(a: byte, b: byte, c: byte)
    ensures Mul(Mul(a, b), c) == Mul(a, Mul(b, c))
  {
    hide *;
    MulZero(a);
    MulZero(b);
    MulZero(c);
    MulNonZero(b, c);
    if b == 0 {
      MulZero(c);
    } else if c == 0 {
      MulZero(Mul(a, b));
    } else {
      // Both sides shift a by exponents of the same power.
      var lb, lc, lbc := Log(b), Log(c), Log(Mul(b, c));
      MulIsShift(a, b);
      MulIsShift(Mul(a, b), c);
      ShiftShift(lc, lb, a);
      MulIsShift(b, c);
      ShiftOne(lb);
      ShiftOne(lc + lb);
      ShiftShift(lc, lb, 1);
      SameExponent(lc + lb, lbc, a);
      MulIsShift(a, Mul(b, c));
    }
  }

  lemma MulDistributes(a: byte, b: byte, c: byte)
    ensures Mul(Xor(a, b), c) == Xor(Mul(a, c), Mul(b, c))
    ensures Mul(c, Xor(a, b)) == Xor(Mul(c, a), Mul(c, b))
  {
    hide *;
    var ab := Xor(a, b);
    MulCommutes(ab, c);
    MulCommutes(a, c);
    MulCommutes(b, c);
    if c == 0 {
      MulZero(a);
      MulZero(b);
      MulZero(ab);
      XorZero(0);
    } else {
      MulIsShift(a, c);
      MulIsShift(b, c);
      MulIsShift(ab, c);
      ShiftXor(Log(c), a, b);
    }
  }

  lemma MulOne(a: byte)
    ensures Mul(a, 1) == a == Mul(1, a)
  {
    hide *;
    ExpZero();
    LogExp(0);
    MulIsShift(a, 1);
    MulCommutes(a, 1);
    if a == 0 {
      MulZero(1);
    } else {
      ShiftOne(Log(a));
      ShiftOne(0);
      ShiftShift(0, Log(a), 1);
    }
  }

  lemma MulInv(a: byte)
    requires a != 0
    ensures Inv(a) != 0
    ensures Mul(a, Inv(a)) == 1 == Mul(Inv(a), a)
  {
    hide Exp, Shift, Mul;
    var l := Log(a);
    ExpNonZero(255 - l);
    MulIsShift(Inv(a), a);
    ShiftOne(255 - l);
    ShiftOne(255);
    ShiftShift(l, 255 - l, 1);
    ExpPeriod(0);
    MulCommutes(a, Inv(a));
  }

  // ----- an independent reading: the product of polynomials over GF(2)

  predicate Bit(b: byte, i: nat)
    requires i < 8
  {
    G.BitValue(b as bv8, i) != 0
  }

  /** The sum of x^i * a, reduced modulo the field polynomial, over the set bits i < n of b. */
  function PolyMul(a: byte, b: byte, n: nat): byte
    requires n <= 8
  {
    if n == 0 then 0
    else Xor(PolyMul(a, b, n - 1), if Bit(b, n - 1) then Shift(n - 1, a) else 0)
  }

  function Power2(n: nat): byte
    requires n < 8
  {
    ((1 as bv8) << n) as int
  }

  function LowBits(b: byte, n: nat): byte
    requires n <= 8
  {
    G.LowBits(b as bv8, n) as int
  }

  lemma LowBitsAll(b: byte)
    ensures LowBits(b, 0) == 0
    ensures LowBits(b, 8) == b
  {
    hide G.BitValue, G.Add;
    G.LowBitsAll(b as bv8);
    ByteBits(b);
  }

  lemma LowBitsStep(b: byte, n: nat)
    requires n < 8
    ensures LowBits(b, n + 1) == Xor(LowBits(b, n), if Bit(b, n) then Power2(n) else 0)
  {
    hide G.BitValue, G.Add;
    XorOfBits(G.LowBits(b as bv8, n), G.BitValue(b as bv8, n));
    G.BitValueCases(b as bv8, n);
  }

  lemma SmallPowers(n: nat)
    requires n < 8
    ensures Exp(n) == Power2(n)
  {
    assert G.Exp(1) == 2;
    assert G.Exp(2) == 4;
    assert G.Exp(3) == 8;
    assert G.Exp(4) == 16;
    assert G.Exp(5) == 32;
    assert G.Exp(6) == 64;
    assert G.Exp(7) == 128;
  }

  lemma MulPower2(a: byte, n: nat)
    requires n < 8
    ensures Mul(a, Power2(n)) == Shift(n, a)
  {
    hide *;
    SmallPowers(n);
    LogExp(n);
    MulIsShift(a, Power2(n));
  }

  lemma {:induction false} PolyMulLow(a: byte, b: byte, n: nat)
    requires n <= 8
    ensures PolyMul(a, b, n) == Mul(a, LowBits(b, n))
  {
    hide Xor, Shift, Exp, Mul, Bit, Power2, LowBits;
    MulZero(a);
    if n == 0 {
      LowBitsAll(b);
    } else {
      PolyMulLow(a, b, n - 1);
      LowBitsStep(b, n - 1);
      MulPower2(a, n - 1);
      MulDistributes(LowBits(b, n - 1), if Bit(b, n - 1) then Power2(n - 1) else 0, a);
    }
  }

  /** The product by tables is the product of polynomials modulo the field polynomial. */
  lemma MulIsPolynomialProduct(a: byte, b: byte)
    ensures Mul(a, b) == PolyMul(a, b, 8)
  {
    hide *;
    PolyMulLow(a, b, 8);
    LowBitsAll(b);
  }
}
