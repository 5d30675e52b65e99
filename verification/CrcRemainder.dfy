/**
  What CRC-32 is: the complement of a remainder.  Bit strings are polynomials over GF(2), the coefficient
  of the highest power first.  The message, least significant bit of each byte first, is multiplied by
  x^32, its first 32 bits are inverted, and what is left of it modulo the generator of IEEE 802.3 is
  inverted again.
*/
module CrcRemainder {
  import opened Bytes
  import opened Crc

  const DEGREE: nat := 32

  /** The powers of x in the generator. */
  predicate InGenerator(power: nat) {
    power in {32, 26, 23, 22, 16, 12, 11, 10, 8, 7, 5, 4, 2, 1, 0}
  }

  function Generator(): (g: seq<bool>)
    ensures |g| == 33 && forall i :: 0 <= i < 33 ==> g[i] == InGenerator(32 - i)
  {
    seq(33, i requires 0 <= i < 33 => InGenerator(32 - i))
  }

  function Zeros(n: nat): (z: seq<bool>)
    ensures |z| == n && forall i :: 0 <= i < n ==> !z[i]
  {
    seq(n, _ => false)
  }

  /** The sum of two polynomials, the shorter one reaching only the highest powers of the longer. */
  function AddAtTop(p: seq<bool>, top: seq<bool>): (s: seq<bool>)
    requires |top| <= |p|
    ensures |s| == |p|
    ensures forall i :: 0 <= i < |p| ==> s[i] == if i < |top| then p[i] != top[i] else p[i]
  {
    seq(|p|, i requires 0 <= i < |p| => if i < |top| then p[i] != top[i] else p[i])
  }

  // ----- division

  /** One step of long division: the highest power is cancelled and dropped. */
  function Cancelled(p: seq<bool>): (r: seq<bool>)
    requires |p| > DEGREE
    ensures |r| == |p| - 1
  {
    if p[0] then AddAtTop(p, Generator())[1..] else p[1..]
  }

  function Remainder(p: seq<bool>): (r: seq<bool>)
    requires |p| >= DEGREE
    ensures |r| == DEGREE
    decreases |p|
  {
    if |p| == DEGREE then p else Remainder(Cancelled(p))
  }

  function Quotient(p: seq<bool>): (q: seq<bool>)
    requires |p| >= DEGREE
    ensures |q| == |p| - DEGREE
    decreases |p|
  {
    if |p| == DEGREE then [] else [p[0]] + Quotient(Cancelled(p))
  }

  /** The product with the generator: a copy of it under every power of q. */
  function Product(q: seq<bool>): (p: seq<bool>)
    ensures |p| == |q| + DEGREE
  {
    if |q| == 0 then Zeros(DEGREE)
    else if q[0] then AddAtTop([false] + Product(q[1..]), Generator())
    else [false] + Product(q[1..])
  }

  lemma ProductAt(q: seq<bool>, i: nat)
    requires 0 < |q| && i < |q| + DEGREE
    ensures Product(q)[i] == ((i > 0 && Product(q[1..])[i - 1]) != (q[0] && i < 33 && Generator()[i]))
  {
    hide Generator;
  }

  lemma CancelledAt(p: seq<bool>, i: nat)
    requires |p| > DEGREE && 0 < i < |p|
    ensures p[i] == (Cancelled(p)[i - 1] != (p[0] && i < 33 && Generator()[i]))
  {
    hide Generator;
  }

  /** A remainder set under the lowest powers. */
  function Lowered(r: seq<bool>, n: nat): (p: seq<bool>)
    requires |r| <= n
    ensures |p| == n
  {
    Zeros(n - |r|) + r
  }

  /** Division is right: p is the product of quotient and generator, plus the remainder. */
  lemma {:induction false} DivisionIsExact(p: seq<bool>)
    requires |p| >= DEGREE
    ensures p == AddAtTop(Product(Quotient(p)), Lowered(Remainder(p), |p|))
    decreases |p|
  {
    hide Generator, Product, Cancelled;
    if |p| > DEGREE {
      var r, q := Cancelled(p), Quotient(p);
      DivisionIsExact(r);
      assert q[1..] == Quotient(r);
      LeadingOne();
      forall i | 0 <= i < |p| ensures p[i] == AddAtTop(Product(q), Lowered(Remainder(p), |p|))[i] {
        ProductAt(q, i);
        if i > 0 {
          CancelledAt(p, i);
        }
      }
    } else {
      NothingTimes();
    }
  }

  lemma NothingTimes()
    ensures Product([]) == Zeros(DEGREE)
  {
  }

  lemma LeadingOne()
    ensures Generator()[0]
  {
    assert InGenerator(32);
  }

  // ----- the register, reflected

  /** The low n bits of a word, least significant first. */
  function LowBits(a: bv32, n: nat): (bits: seq<bool>)
    ensures |bits| == n
    decreases n
  {
    if n == 0 then [] else [a & 1 == 1] + LowBits(Half(a), n - 1)
  }

  /** A word as a polynomial: its least significant bit is the coefficient of x^31. */
  function Reflected(a: bv32): (bits: seq<bool>)
    ensures |bits| == 32
  {
    LowBits(a, 32)
  }

  lemma {:induction false} LowBitsPlus(a: bv32, b: bv32, n: nat)
    ensures LowBits(Plus(a, b), n) == AddAtTop(LowBits(a, n), LowBits(b, n))
    decreases n
  {
    hide Half, Plus;
    if n > 0 {
      LowBitsPlus(Half(a), Half(b), n - 1);
      HalfPlus(a, b);
      LowPlus(a, b);
    }
  }

  lemma LowPlus(a: bv32, b: bv32)
    ensures (Plus(a, b) & 1 == 1) == ((a & 1 == 1) != (b & 1 == 1))
  {
    LowBitXor(a, b);
    LowBit(a);
    LowBit(b);
  }

  function Halves(a: bv32, n: nat): bv32
    decreases n
  {
    if n == 0 then a else Halves(Half(a), n - 1)
  }

  /** Low bits are low bits before and after any cut. */
  lemma {:induction false} LowBitsSplit(a: bv32, n: nat, k: nat)
    ensures LowBits(a, n + k) == LowBits(a, n) + LowBits(Halves(a, n), k)
    decreases n
  {
    hide Half;
    if n == 0 {
      assert LowBits(a, 0) + LowBits(a, k) == LowBits(a, k);
    } else {
      LowBitsSplit(Half(a), n - 1, k);
      assert [a & 1 == 1] + (LowBits(Half(a), n - 1) + LowBits(Halves(a, n), k)) == LowBits(a, n) + LowBits(Halves(a, n), k);
    }
  }

  lemma {:induction false} HalvesAdd(a: bv32, n: nat, k: nat)
    ensures Halves(a, n + k) == Halves(Halves(a, n), k)
    decreases n
  {
    hide Half;
    if n > 0 {
      HalvesAdd(Half(a), n - 1, k);
    }
  }

  lemma EightHalves(a: bv32)
    ensures Halves(a, 8) == a >> 8
  {
    var a1 := Half(a);
    var a2 := Half(a1);
    var a3 := Half(a2);
    var a4 := Half(a3);
    var a5 := Half(a4);
    var a6 := Half(a5);
    var a7 := Half(a6);
    assert Halves(a, 8) == Halves(a1, 7) == Halves(a2, 6) == Halves(a3, 5) == Halves(a4, 4);
    assert Halves(a4, 4) == Halves(a5, 3) == Halves(a6, 2) == Halves(a7, 1) == Half(a7);
  }

  lemma AllHalves(a: bv32)
    ensures Halves(a, 32) == 0
  {
    hide Halves;
    HalvesAdd(a, 8, 24);
    HalvesAdd(a >> 8, 8, 16);
    HalvesAdd(a >> 8 >> 8, 8, 8);
    EightHalves(a);
    EightHalves(a >> 8);
    EightHalves(a >> 8 >> 8);
    EightHalves(a >> 8 >> 8 >> 8);
  }

  lemma OneMore(a: bv32, n: nat)
    ensures LowBits(a, n + 1) == [a & 1 == 1] + LowBits(Half(a), n)
  {
  }

  /** Halving drops the coefficient of x^31 and brings in a zero. */
  lemma HalfReflected(a: bv32)
    ensures Reflected(Half(a)) == Reflected(a)[1..] + [false]
  {
    hide Half, Halves;
    AllHalves(a);
    LowBitsSplit(a, 32, 1);
    ZeroBit();
    OneMore(a, 32);
    hide LowBits;
    assert Reflected(Half(a)) == LowBits(a, 33)[1..];
  }

  lemma ZeroBit()
    ensures LowBits(0, 1) == [false]
  {
  }

  lemma {:induction false} BitAt(a: bv32, n: nat, i: nat)
    requires i < n
    ensures LowBits(a, n)[i] == (Halves(a, i) & 1 == 1)
    decreases n
  {
    hide Half;
    if i > 0 {
      BitAt(Half(a), n - 1, i - 1);
    }
  }

  lemma NotHalved(a: bv32)
    ensures Halves(a, 0) == a
  {
  }

  lemma Halved1(a: bv32)
    ensures Halves(a, 1) == a >> 1
  {
  }

  lemma Halved2(a: bv32)
    ensures Halves(a, 2) == a >> 2
  {
    var a1 := Half(a);
    assert Halves(a, 2) == Halves(a1, 1) == Half(a1);
  }

  lemma Halved3(a: bv32)
    ensures Halves(a, 3) == a >> 3
  {
    var a1 := Half(a);
    var a2 := Half(a1);
    assert Halves(a, 3) == Halves(a1, 2) == Halves(a2, 1) == Half(a2);
  }

  lemma Halved4(a: bv32)
    ensures Halves(a, 4) == a >> 4
  {
    var a1 := Half(a);
    var a2 := Half(a1);
    var a3 := Half(a2);
    assert Halves(a, 4) == Halves(a1, 3) == Halves(a2, 2) == Halves(a3, 1) == Half(a3);
  }

  lemma Halved5(a: bv32)
    ensures Halves(a, 5) == a >> 5
  {
    var a1 := Half(a);
    var a2 := Half(a1);
    var a3 := Half(a2);
    var a4 := Half(a3);
    assert Halves(a, 5) == Halves(a1, 4) == Halves(a2, 3) == Halves(a3, 2) == Halves(a4, 1) == Half(a4);
  }

  lemma Halved6(a: bv32)
    ensures Halves(a, 6) == a >> 6
  {
    var a1 := Half(a);
    var a2 := Half(a1);
    var a3 := Half(a2);
    var a4 := Half(a3);
    var a5 := Half(a4);
    assert Halves(a, 6) == Halves(a1, 5) == Halves(a2, 4) == Halves(a3, 3) == Halves(a4, 2) == Halves(a5, 1) == Half(a5);
  }

  lemma Halved7(a: bv32)
    ensures Halves(a, 7) == a >> 7
  {
    var a1 := Half(a);
    var a2 := Half(a1);
    var a3 := Half(a2);
    var a4 := Half(a3);
    var a5 := Half(a4);
    var a6 := Half(a5);
    assert Halves(a, 7) == Halves(a1, 6) == Halves(a2, 5) == Halves(a3, 4)
        == Halves(a4, 3) == Halves(a5, 2) == Halves(a6, 1) == Half(a6);
  }

  /** The low eight bits of a word, one by one. */
  lemma EightBits(a: bv32)
    ensures var b := LowBits(a, 8);
      && b[0] == (a & 1 == 1) && b[1] == ((a >> 1) & 1 == 1) && b[2] == ((a >> 2) & 1 == 1) && b[3] == ((a >> 3) & 1 == 1)
      && b[4] == ((a >> 4) & 1 == 1) && b[5] == ((a >> 5) & 1 == 1) && b[6] == ((a >> 6) & 1 == 1)
      && b[7] == ((a >> 7) & 1 == 1)
  {
    hide *;
    NotHalved(a);
    Halved1(a);
    Halved2(a);
    Halved3(a);
    Halved4(a);
    Halved5(a);
    Halved6(a);
    Halved7(a);
    BitAt(a, 8, 0);
    BitAt(a, 8, 1);
    BitAt(a, 8, 2);
    BitAt(a, 8, 3);
    BitAt(a, 8, 4);
    BitAt(a, 8, 5);
    BitAt(a, 8, 6);
    BitAt(a, 8, 7);
  }

  lemma WordByBytes(a: bv32)
    ensures Reflected(a) == LowBits(a, 8) + LowBits(a >> 8, 8) + LowBits(a >> 16, 8) + LowBits(a >> 24, 8)
  {
    hide *;
    HalvesByEight(a);
    WordByParts(a, a >> 8, a >> 16, a >> 24);
  }

  lemma HalvesByEight(a: bv32)
    ensures Halves(a, 8) == a >> 8 && Halves(a >> 8, 8) == a >> 16 && Halves(a >> 16, 8) == a >> 24
  {
    hide *;
    EightHalves(a);
    SecondByte(a);
    ThirdByte(a);
  }

  lemma SecondByte(a: bv32)
    ensures Halves(a >> 8, 8) == a >> 16
  {
    EightHalves(a >> 8);
  }

  lemma ThirdByte(a: bv32)
    ensures Halves(a >> 16, 8) == a >> 24
  {
    EightHalves(a >> 16);
  }

  lemma WordByParts(a: bv32, b: bv32, c: bv32, d: bv32)
    requires Halves(a, 8) == b && Halves(b, 8) == c && Halves(c, 8) == d
    ensures Reflected(a) == LowBits(a, 8) + LowBits(b, 8) + LowBits(c, 8) + LowBits(d, 8)
  {
    hide LowBits, Halves;
    LowBitsSplit(a, 8, 24);
    LowBitsSplit(b, 8, 16);
    LowBitsSplit(c, 8, 8);
  }

  /** The constant of the source is the generator without its leading one. */
  lemma PolyIsGenerator()
    ensures Reflected(POLY) == Generator()[1..]
  {
    hide LowBits;
    WordByBytes(POLY);
    PolyBytes();
  }

  lemma PolyBytes()
    ensures LowBits(POLY, 8) == Generator()[1..9]
    ensures LowBits(POLY >> 8, 8) == Generator()[9..17]
    ensures LowBits(POLY >> 16, 8) == Generator()[17..25]
    ensures LowBits(POLY >> 24, 8) == Generator()[25..33]
  {
    hide LowBits;
    EightBits(POLY);
    EightBits(POLY >> 8);
    EightBits(POLY >> 16);
    EightBits(POLY >> 24);
  }

  // ----- feeding a bit is a step of the division

  /** What is still to be divided when the register is a and these bits are to come. */
  function Pending(a: bv32, bits: seq<bool>): (p: seq<bool>)
    ensures |p| == |bits| + DEGREE
  {
    AddAtTop(bits + Zeros(DEGREE), Reflected(a))
  }

  lemma ShiftReflected(a: bv32, i: nat)
    requires i < 32
    ensures Reflected(Shift(a))[i] == ((i < 31 && Reflected(a)[i + 1]) != (a & 1 == 1 && Generator()[i + 1]))
  {
    hide LowBits, Half, Plus, Generator;
    HalfReflected(a);
    LowBitsPlus(Half(a), Tap(a), 32);
    LowBit(a);
    if a & 1 == 1 {
      PolyIsGenerator();
    } else {
      ZeroReflected();
    }
  }

  lemma ZeroReflected()
    ensures Reflected(0) == Zeros(32)
  {
    hide LowBits;
    WordByBytes(0);
    EightBits(0);
  }

  lemma ValueReflected(b: bool)
    ensures Reflected(Value(b)) == [b] + Zeros(31)
  {
    hide LowBits;
    WordByBytes(Value(b));
    EightBits(Value(b));
    EightBits(0);
  }

  lemma LowIsFirst(a: bv32)
    ensures Reflected(a)[0] == (a & 1 == 1)
  {
  }

  lemma FedStep(a: bv32, bits: seq<bool>)
    requires |bits| > 0
    ensures Cancelled(Pending(a, bits)) == Pending(Shift(Plus(a, Value(bits[0]))), bits[1..])
  {
    hide LowBits, Shift, Plus, Value, Generator, Cancelled, Reflected;
    var b := Plus(a, Value(bits[0]));
    var p, next := Pending(a, bits), Pending(Shift(b), bits[1..]);
    LowBitsPlus(a, Value(bits[0]), 32);
    FirstReflected(a, bits[0]);
    LowIsFirst(b);
    LeadingOne();
    forall i | 0 <= i < |next| ensures Cancelled(p)[i] == next[i] {
      CancelledAt(p, i + 1);
      if i < 32 {
        ShiftReflected(b, i);
      }
    }
  }

  lemma FirstReflected(a: bv32, bit: bool)
    ensures var r := Reflected(Plus(a, Value(bit)));
      r[0] == (Reflected(a)[0] != bit) && forall i :: 1 <= i < 32 ==> r[i] == Reflected(a)[i]
  {
    hide LowBits, Plus, Value;
    LowBitsPlus(a, Value(bit), 32);
    ValueReflected(bit);
  }

  /** The register after feeding these bits is the remainder of all that was pending. */
  lemma {:induction false} FeedIsRemainder(a: bv32, bits: seq<bool>)
    ensures Reflected(Feed(a, bits)) == Remainder(Pending(a, bits))
    decreases |bits|
  {
    hide LowBits, Shift, Plus, Value, Cancelled, Reflected, Pending;
    if |bits| == 0 {
      NothingPending(a, bits);
      FeedEmpty(a);
      assert bits == [];
    } else {
      var next := Shift(Plus(a, Value(bits[0])));
      assert bits == bits[..1] + bits[1..];
      FeedConcat(a, bits[..1], bits[1..]);
      FeedOne(a, bits[..1]);
      FeedIsRemainder(next, bits[1..]);
      FedStep(a, bits);
      PendingLength(a, bits);
    }
  }

  lemma PendingLength(a: bv32, bits: seq<bool>)
    ensures |Pending(a, bits)| == |bits| + DEGREE
  {
  }

  lemma NothingPending(a: bv32, bits: seq<bool>)
    requires |bits| == 0
    ensures Pending(a, bits) == Reflected(a)
  {
    hide LowBits;
  }

  lemma FeedOne(a: bv32, bits: seq<bool>)
    requires |bits| == 1
    ensures Feed(a, bits) == Shift(Plus(a, Value(bits[0])))
  {
    hide Shift, Plus, Value;
    assert bits[..0] == [];
    FeedEmpty(a);
  }

  // ----- the whole

  function Inverted(p: seq<bool>): (r: seq<bool>)
    ensures |r| == |p|
  {
    seq(|p|, i requires 0 <= i < |p| => !p[i])
  }

  function InvertFirst32(p: seq<bool>): (r: seq<bool>)
    requires |p| >= 32
    ensures |r| == |p|
  {
    Inverted(p[..32]) + p[32..]
  }

  lemma NotReflected(a: bv32)
    ensures Reflected(Not(a)) == Inverted(Reflected(a))
  {
    hide LowBits;
    NotIsPlus(a);
    LowBitsPlus(a, 0xFFFF_FFFF, 32);
    OnesReflected();
    assert Reflected(0xFFFF_FFFF) == LowBits(0xFFFF_FFFF, 32);
    assert Reflected(Not(a)) == AddAtTop(Reflected(a), Reflected(0xFFFF_FFFF));
  }

  lemma NotIsPlus(a: bv32)
    ensures Not(a) == Plus(a, 0xFFFF_FFFF)
  {
  }

  lemma OnesReflected()
    ensures forall i :: 0 <= i < 32 ==> Reflected(0xFFFF_FFFF)[i]
  {
    hide LowBits;
    WordByBytes(0xFFFF_FFFF);
    EightBits(0xFFFF_FFFF);
    EightBits(0xFF_FFFF);
    EightBits(0xFFFF);
    EightBits(0xFF);
  }

  /** CRC-32 of a message, as a polynomial, is the complemented remainder. */
  lemma Crc32IsRemainder(msg: seq<byte>)
    ensures Reflected(Crc32(msg)) == Inverted(Remainder(InvertFirst32(Bits(msg) + Zeros(32))))
  {
    hide LowBits, Register, Feed, Remainder, Bits, Reflected;
    var ones := Not(0);
    RegisterIsFeed(ones, msg);
    FeedIsRemainder(ones, Bits(msg));
    NotReflected(Register(ones, msg));
    AllOnes();
    OnesReflected();
    assert Pending(ones, Bits(msg)) == InvertFirst32(Bits(msg) + Zeros(32));
  }

  lemma AllOnes()
    ensures Not(0) == 0xFFFF_FFFF
  {
  }

  /** Going on from an earlier CRC: the same with the earlier register added to the first 32 bits. */
  lemma UpdateIsRemainder(crc: bv32, msg: seq<byte>)
    ensures Reflected(Update(crc, msg))
            == Inverted(Remainder(AddAtTop(Bits(msg) + Zeros(32), Inverted(Reflected(crc)))))
  {
    hide LowBits, Register, Feed, Remainder, Bits, Reflected;
    RegisterIsFeed(Not(crc), msg);
    FeedIsRemainder(Not(crc), Bits(msg));
    NotReflected(Register(Not(crc), msg));
    NotReflected(crc);
  }
}
