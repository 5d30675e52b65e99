/**
  CRC-32 (IEEE 802.3, reflected) as the core computes it, and the algebra behind it: the register
  is a linear function of what it is fed, and feeding it is injective.
*/
module Crc {
  import opened Bytes
  import G = Generator

  const POLY: bv32 := 0xEDB88320

  /** Exclusive-or of words under a name, so that proofs can hide its bits. */
  function Plus(a: bv32, b: bv32): bv32 {
    a ^ b
  }

  lemma XorAssociates(a: bv32, b: bv32, c: bv32)
    ensures (a ^ b) ^ c == a ^ (b ^ c)
  {
  }

  lemma PlusAssociates(a: bv32, b: bv32, c: bv32)
    ensures Plus(Plus(a, b), c) == Plus(a, Plus(b, c))
  {
    XorAssociates(a, b, c);
  }

  lemma PlusSwap(a: bv32, b: bv32, c: bv32, d: bv32)
    ensures Plus(Plus(a, b), Plus(c, d)) == Plus(Plus(a, c), Plus(b, d))
  {
    hide Plus;
    PlusAssociates(a, b, Plus(c, d));
    PlusAssociates(b, c, d);
    PlusCommutes(b, c);
    PlusAssociates(c, b, d);
    PlusAssociates(a, c, Plus(b, d));
  }

  lemma PlusCommutes(a: bv32, b: bv32)
    ensures Plus(a, b) == Plus(b, a)
  {
  }

  lemma PlusZero(a: bv32)
    ensures Plus(a, 0) == a == Plus(0, a)
    ensures Plus(a, a) == 0
  {
  }

  lemma PlusIsZero(a: bv32, b: bv32)
    ensures Plus(a, b) == 0 <==> a == b
  {
  }

  function Half(a: bv32): bv32 {
    a >> 1
  }

  function Tap(a: bv32): bv32 {
    if a & 1 != 0 then POLY else 0
  }

  /** One shift of the register. */
  function Shift(a: bv32): bv32 {
    Plus(Half(a), Tap(a))
  }

  lemma HalfPlus(a: bv32, b: bv32)
    ensures Half(Plus(a, b)) == Plus(Half(a), Half(b))
  {
  }

  lemma LowBitXor(a: bv32, b: bv32)
    ensures (a ^ b) & 1 == (a & 1) ^ (b & 1)
  {
  }

  lemma LowBit(a: bv32)
    ensures a & 1 == 0 || a & 1 == 1
  {
  }

  lemma TapPlus(a: bv32, b: bv32)
    ensures Tap(Plus(a, b)) == Plus(Tap(a), Tap(b))
  {
    LowBitXor(a, b);
    LowBit(a);
    LowBit(b);
  }

  lemma ShiftPlus(a: bv32, b: bv32)
    ensures Shift(Plus(a, b)) == Plus(Shift(a), Shift(b))
  {
    hide Plus, Half, Tap;
    HalfPlus(a, b);
    TapPlus(a, b);
    PlusSwap(Half(a), Half(b), Tap(a), Tap(b));
  }

  /** The polynomial's constant term survives the shift, so nothing is lost. */
  lemma ShiftInjective(a: bv32, b: bv32)
    requires Shift(a) == Shift(b)
    ensures a == b
  {
  }

  function Shifts(n: nat, a: bv32): bv32 {
    if n == 0 then a else Shift(Shifts(n - 1, a))
  }

  /** The mask form the inner loop uses is the conditional form. */
  lemma MaskForm(a: bv32)
    ensures (a >> 1) ^ (POLY & (0 - (a & 1))) == Shift(a)
  {
    LowBit(a);
  }

  function Word(b: byte): bv32 {
    (b as bv8) as bv32
  }

  /** The register after a message. */
  function Register(r: bv32, msg: seq<byte>): bv32 {
    if |msg| == 0 then r else Shifts(8, Plus(Register(r, msg[..|msg| - 1]), Word(msg[|msg| - 1])))
  }

  function Not(a: bv32): bv32 {
    !a
  }

  /** loraitp_crc32_update */
  function Update(crc: bv32, msg: seq<byte>): bv32 {
    Not(Register(Not(crc), msg))
  }

  /** loraitp_crc32 */
  function Crc32(msg: seq<byte>): bv32 {
    Update(0, msg)
  }

  /** The inner loop. */
  method ShiftByte(start: bv32) returns (reg: bv32)
    ensures reg == Shifts(8, start)
  {
    hide Shift;
    reg := start;
    for b := 0 to 8
      invariant reg == Shifts(b, start)
    {
      MaskForm(reg);
      reg := (reg >> 1) ^ (POLY & (0 - (reg & 1)));
    }
  }

  method UpdateCrc(crc: bv32, buf: array<byte>, len: nat) returns (out: bv32)
    requires len <= buf.Length
    ensures out == Update(crc, buf[..len])
  {
    hide Shift, Shifts, Plus, Word, Not;
    var reg := Not(crc);
    assert buf[..0] == [];
    for i := 0 to len
      invariant reg == Register(Not(crc), buf[..i])
    {
      assert buf[..i + 1][..i] == buf[..i];
      reg := Plus(reg, Word(buf[i]));
      reg := ShiftByte(reg);
    }
    out := Not(reg);
  }

  // ----- consecutive pieces

  lemma NotNot(a: bv32)
    ensures Not(Not(a)) == a
  {
  }

  lemma {:induction false} RegisterConcat(r: bv32, a: seq<byte>, b: seq<byte>)
    ensures Register(r, a + b) == Register(Register(r, a), b)
  {
    hide Shifts, Word, Plus;
    if |b| == 0 {
      assert a + b == a;
    } else {
      assert (a + b)[..|a + b| - 1] == a + b[..|b| - 1];
      RegisterConcat(r, a, b[..|b| - 1]);
    }
  }

  /** Updating piece by piece gives the CRC of the whole, however it is cut. */
  lemma UpdateConcat(crc: bv32, a: seq<byte>, b: seq<byte>)
    ensures Update(Update(crc, a), b) == Update(crc, a + b)
  {
    hide Register, Not;
    NotNot(Register(Not(crc), a));
    RegisterConcat(Not(crc), a, b);
  }

  // ----- linearity

  lemma {:induction false} ShiftsPlus(n: nat, a: bv32, b: bv32)
    ensures Shifts(n, Plus(a, b)) == Plus(Shifts(n, a), Shifts(n, b))
  {
    hide Shift, Plus;
    if n > 0 {
      ShiftsPlus(n - 1, a, b);
      ShiftPlus(Shifts(n - 1, a), Shifts(n - 1, b));
    }
  }

  lemma {:induction false} ShiftsInjective(n: nat, a: bv32, b: bv32)
    requires Shifts(n, a) == Shifts(n, b)
    ensures a == b
  {
    hide Shift;
    if n > 0 {
      ShiftInjective(Shifts(n - 1, a), Shifts(n - 1, b));
      ShiftsInjective(n - 1, a, b);
    }
  }

  lemma {:induction false} ShiftsZero(n: nat)
    ensures Shifts(n, 0) == 0
  {
    if n > 0 {
      ShiftsZero(n - 1);
    }
  }

  function Value(b: bool): bv32 {
    if b then 1 else 0
  }

  /** The register fed bit by bit. */
  function Feed(r: bv32, bits: seq<bool>): bv32 {
    if |bits| == 0 then r else Shift(Plus(Feed(r, bits[..|bits| - 1]), Value(bits[|bits| - 1])))
  }

  function Differ(a: seq<bool>, b: seq<bool>): (d: seq<bool>)
    requires |a| == |b|
    ensures |d| == |a|
  {
    seq(|a|, i requires 0 <= i < |a| => a[i] != b[i])
  }

  lemma ValueDiffer(a: bool, b: bool)
    ensures Value(a != b) == Plus(Value(a), Value(b))
  {
  }

  lemma {:induction false} FeedLinear(r: bv32, s: bv32, a: seq<bool>, b: seq<bool>)
    requires |a| == |b|
    ensures Feed(Plus(r, s), Differ(a, b)) == Plus(Feed(r, a), Feed(s, b))
  {
    hide Shift, Plus, Value;
    if |a| > 0 {
      var n := |a| - 1;
      FeedLinear(r, s, a[..n], b[..n]);
      assert Differ(a, b)[..n] == Differ(a[..n], b[..n]);
      ValueDiffer(a[n], b[n]);
      PlusSwap(Feed(r, a[..n]), Feed(s, b[..n]), Value(a[n]), Value(b[n]));
      ShiftPlus(Plus(Feed(r, a[..n]), Value(a[n])), Plus(Feed(s, b[..n]), Value(b[n])));
    }
  }

  lemma {:induction false} FeedConcat(r: bv32, a: seq<bool>, b: seq<bool>)
    ensures Feed(r, a + b) == Feed(Feed(r, a), b)
  {
    hide Shift, Plus, Value;
    if |b| == 0 {
      assert a + b == a;
    } else {
      assert (a + b)[..|a + b| - 1] == a + b[..|b| - 1];
      FeedConcat(r, a, b[..|b| - 1]);
    }
  }

  lemma {:induction false} FeedZeros(r: bv32, z: seq<bool>)
    requires forall i :: 0 <= i < |z| ==> !z[i]
    ensures Feed(r, z) == Shifts(|z|, r)
  {
    hide Shift, Plus;
    if |z| > 0 {
      FeedZeros(r, z[..|z| - 1]);
      PlusZero(Feed(r, z[..|z| - 1]));
    }
  }

  // ----- up to 32 bits fit the register

  function Unit(n: nat): bv32
    requires n < 32
  {
    if n == 0 then 1 else Unit(n - 1) << 1
  }

  function Pack(bits: seq<bool>): bv32
    requires |bits| <= 32
  {
    if |bits| == 0 then 0
    else Plus(Pack(bits[..|bits| - 1]), if bits[|bits| - 1] then Unit(|bits| - 1) else 0)
  }

  lemma UnitStep(n: nat)
    requires n < 31
    ensures Unit(n + 1) == Unit(n) << 1
  {
  }

  lemma UnitDoubles(n: nat)
    requires n < 31
    ensures Shift(Unit(n + 1)) == Unit(n)
  {
    hide *;
    UnitLow(n);
    UnitStep(n);
    HalveUnit(Unit(n));
  }

  lemma {:induction false} ShiftsUnit(n: nat)
    requires n < 32
    ensures Shifts(n, Unit(n)) == 1
  {
    hide Shift;
    if n > 0 {
      ShiftsUnit(n - 1);
      UnitDoubles(n - 1);
      ShiftsStep(n - 1, Unit(n));
    }
  }

  lemma {:induction false} ShiftsStep(n: nat, a: bv32)
    ensures Shifts(n + 1, a) == Shifts(n, Shift(a))
  {
    hide Shift;
    if n > 0 {
      ShiftsStep(n - 1, a);
    }
  }

  lemma HalveUnit(u: bv32)
    requires u < 0x8000_0000
    ensures Shift(u << 1) == u
  {
  }

  lemma {:induction false} UnitLow(n: nat)
    requires n < 31
    ensures 0 < Unit(n) <= 0x4000_0000
  {
    assert Unit(0) == 1 && Unit(1) == 2 && Unit(2) == 4 && Unit(3) == 8;
    assert Unit(4) == 16 && Unit(5) == 32 && Unit(6) == 64 && Unit(7) == 128;
    assert Unit(8) == 0x100 && Unit(9) == 0x200 && Unit(10) == 0x400 && Unit(11) == 0x800;
    assert Unit(12) == 0x1000 && Unit(13) == 0x2000 && Unit(14) == 0x4000 && Unit(15) == 0x8000;
    assert Unit(16) == 0x1_0000 && Unit(17) == 0x2_0000 && Unit(18) == 0x4_0000 && Unit(19) == 0x8_0000;
    assert Unit(20) == 0x10_0000 && Unit(21) == 0x20_0000 && Unit(22) == 0x40_0000 && Unit(23) == 0x80_0000;
    assert Unit(24) == 0x100_0000 && Unit(25) == 0x200_0000 && Unit(26) == 0x400_0000 && Unit(27) == 0x800_0000;
    assert Unit(28) == 0x1000_0000 && Unit(29) == 0x2000_0000 && Unit(30) == 0x4000_0000;
  }

  lemma {:induction false} UnitIsPower(n: nat)
    requires n < 32
    ensures Unit(n) != 0 && Unit(n) & (Unit(n) - 1) == 0
  {
    hide *;
    if n == 0 {
      UnitZero();
    } else {
      UnitIsPower(n - 1);
      UnitLow(n - 1);
      UnitStep(n - 1);
      PowerDoubles(Unit(n - 1));
    }
  }

  lemma UnitZero()
    ensures Unit(0) == 1
  {
  }

  lemma PowerDoubles(u: bv32)
    requires u != 0 && u & (u - 1) == 0 && u < 0x8000_0000
    ensures u << 1 != 0 && (u << 1) & ((u << 1) - 1) == 0
  {
  }

  lemma AddTopBit(x: bv32, u: bv32)
    requires u != 0 && u & (u - 1) == 0 && x < u
    ensures u <= x ^ u
    ensures u < 0x8000_0000 ==> x ^ u < u << 1
  {
  }

  lemma BelowDouble(x: bv32, u: bv32)
    requires u < 0x8000_0000 && x < u
    ensures x < u << 1
  {
  }

  lemma PackLast(bits: seq<bool>)
    requires 0 < |bits| <= 32
    ensures var n := |bits| - 1; Pack(bits) == Plus(Pack(bits[..n]), if bits[n] then Unit(n) else 0)
  {
    hide Plus, Unit;
  }

  lemma {:induction false} PackBelow(bits: seq<bool>)
    requires |bits| < 32
    ensures Pack(bits) < Unit(|bits|)
  {
    hide *;
    if |bits| == 0 {
      UnitZero();
      PackEmpty();
      assert bits == [];
    } else {
      var n := |bits| - 1;
      PackBelow(bits[..n]);
      PackLast(bits);
      PackStep(Pack(bits[..n]), n, bits[n]);
    }
  }

  lemma PackEmpty()
    ensures Pack([]) == 0
  {
  }

  /** A short bit string with a set bit packs to a non-zero word. */
  lemma {:induction false} PackNonZero(bits: seq<bool>, i: nat)
    requires i < |bits| <= 32 && bits[i]
    ensures Pack(bits) != 0
  {
    hide *;
    var n := |bits| - 1;
    PackLast(bits);
    PackBelow(bits[..n]);
    PackStep(Pack(bits[..n]), n, bits[n]);
    if i < n {
      PackNonZero(bits[..n], i);
    }
  }

  lemma PackStep(x: bv32, n: nat, b: bool)
    requires n < 32 && x < Unit(n)
    ensures var y := Plus(x, if b then Unit(n) else 0);
      && (n < 31 ==> y < Unit(n + 1)) && (b ==> y != 0) && (!b ==> y == x)
  {
    hide Unit;
    UnitIsPower(n);
    AddTopBit(x, Unit(n));
    PlusZero(x);
    if n < 31 {
      UnitLow(n);
      UnitStep(n);
      BelowDouble(x, Unit(n));
    }
  }

  /** Feeding up to 32 bits from zero is shifting their packed word through. */
  lemma {:induction false} FeedIsShiftedWord(bits: seq<bool>)
    requires |bits| <= 32
    ensures Feed(0, bits) == Shifts(|bits|, Pack(bits))
  {
    hide Shift, Plus, Unit;
    if |bits| > 0 {
      var n := |bits| - 1;
      var p := Pack(bits[..n]);
      FeedIsShiftedWord(bits[..n]);
      ShiftsUnit(n);
      ShiftsZero(n);
      ShiftsPlus(n, p, if bits[n] then Unit(n) else 0);
    }
  }

  lemma {:induction false} FeedFrom(r: bv32, bits: seq<bool>)
    ensures Feed(r, bits) == Plus(Shifts(|bits|, r), Feed(0, bits))
  {
    hide Shift, Plus, Value;
    if |bits| == 0 {
      PlusZero(r);
    } else {
      var n := |bits| - 1;
      FeedFrom(r, bits[..n]);
      PlusAssociates(Shifts(n, r), Feed(0, bits[..n]), Value(bits[n]));
      ShiftPlus(Shifts(n, r), Plus(Feed(0, bits[..n]), Value(bits[n])));
    }
  }

  // ----- burst errors

  /** a and b differ only inside 32 consecutive bits, the first of which is number at. */
  predicate BurstAt(a: seq<bool>, b: seq<bool>, at: nat)
    requires |a| == |b|
  {
    forall i :: 0 <= i < |a| && a[i] != b[i] ==> at <= i < at + 32
  }

  /** The difference of two such strings is zeros, then at most 32 bits with one set, then zeros. */
  lemma BurstShape(a: seq<bool>, b: seq<bool>, at: nat) returns (hi: nat, k: nat)
    requires |a| == |b| && a != b && BurstAt(a, b, at)
    ensures at <= hi <= |a| && hi - at <= 32 && k < hi - at
    ensures Differ(a, b)[at..hi][k]
    ensures forall i :: 0 <= i < at ==> !Differ(a, b)[i]
    ensures forall i :: hi <= i < |a| ==> !Differ(a, b)[i]
  {
    var j :| 0 <= j < |a| && a[j] != b[j];
    hi := if at + 32 < |a| then at + 32 else |a|;
    k := j - at;
    assert Differ(a, b)[at..hi][k] == Differ(a, b)[j];
  }

  lemma BurstFeed(d: seq<bool>, at: nat, hi: nat, k: nat)
    requires at <= hi <= |d| && hi - at <= 32 && k < hi - at && d[at..hi][k]
    requires forall i :: 0 <= i < at ==> !d[i]
    requires forall i :: hi <= i < |d| ==> !d[i]
    ensures Feed(0, d) != 0
  {
    hide Feed, Plus, Pack, Shifts;
    var w := d[at..hi];
    assert d == d[..at] + w + d[hi..];
    FeedConcat(0, d[..at] + w, d[hi..]);
    FeedConcat(0, d[..at], w);
    FeedZeros(0, d[..at]);
    ShiftsZero(at);
    FeedIsShiftedWord(w);
    PackNonZero(w, k);
    NonZeroStays(|w|, Pack(w));
    FeedZeros(Feed(0, w), d[hi..]);
    NonZeroStays(|d[hi..]|, Feed(0, w));
  }

  lemma BurstChangesRegister(r: bv32, a: seq<bool>, b: seq<bool>, at: nat)
    requires |a| == |b| && a != b && BurstAt(a, b, at)
    ensures Feed(r, a) != Feed(r, b)
  {
    hide Feed, Plus, Differ;
    var hi, k := BurstShape(a, b, at);
    BurstFeed(Differ(a, b), at, hi, k);
    FeedLinear(r, r, a, b);
    PlusZero(r);
    PlusIsZero(Feed(r, a), Feed(r, b));
  }

  lemma NonZeroStays(n: nat, a: bv32)
    requires a != 0
    ensures Shifts(n, a) != 0
  {
    hide Shifts;
    ShiftsZero(n);
    if Shifts(n, a) == 0 {
      ShiftsInjective(n, a, 0);
    }
  }

  // ----- bytes as bits, least significant first

  function VectorBits(v: bv8): (bits: seq<bool>)
    ensures |bits| == 8
  {
    [(v >> 0) & 1 == 1, (v >> 1) & 1 == 1, (v >> 2) & 1 == 1, (v >> 3) & 1 == 1,
     (v >> 4) & 1 == 1, (v >> 5) & 1 == 1, (v >> 6) & 1 == 1, (v >> 7) & 1 == 1]
  }

  function ByteBits(b: byte): (bits: seq<bool>)
    ensures |bits| == 8
  {
    VectorBits(b as bv8)
  }

  function Bits(msg: seq<byte>): (bits: seq<bool>)
    ensures |bits| == 8 * |msg|
  {
    if |msg| == 0 then [] else Bits(msg[..|msg| - 1]) + ByteBits(msg[|msg| - 1])
  }

  /** The low n bits of v as a word. */
  function LowWord(v: bv8, n: nat): bv32
    requires n <= 8
  {
    (v as bv32) & (if n == 8 then 255 else Unit(n) - 1)
  }

  lemma LowStep0(v: bv8)
    ensures LowWord(v, 1) == Plus(LowWord(v, 0), if VectorBits(v)[0] then Unit(0) else 0)
  {
    hide Unit;
    SmallUnits();
  }

  lemma LowStep1(v: bv8)
    ensures LowWord(v, 2) == Plus(LowWord(v, 1), if VectorBits(v)[1] then Unit(1) else 0)
  {
    hide Unit;
    SmallUnits();
  }

  lemma LowStep2(v: bv8)
    ensures LowWord(v, 3) == Plus(LowWord(v, 2), if VectorBits(v)[2] then Unit(2) else 0)
  {
    hide Unit;
    SmallUnits();
  }

  lemma LowStep3(v: bv8)
    ensures LowWord(v, 4) == Plus(LowWord(v, 3), if VectorBits(v)[3] then Unit(3) else 0)
  {
    hide Unit;
    SmallUnits();
  }

  lemma LowStep4(v: bv8)
    ensures LowWord(v, 5) == Plus(LowWord(v, 4), if VectorBits(v)[4] then Unit(4) else 0)
  {
    hide Unit;
    SmallUnits();
  }

  lemma LowStep5(v: bv8)
    ensures LowWord(v, 6) == Plus(LowWord(v, 5), if VectorBits(v)[5] then Unit(5) else 0)
  {
    hide Unit;
    SmallUnits();
  }

  lemma LowStep6(v: bv8)
    ensures LowWord(v, 7) == Plus(LowWord(v, 6), if VectorBits(v)[6] then Unit(6) else 0)
  {
    hide Unit;
    SmallUnits();
  }

  lemma LowStep7(v: bv8)
    ensures LowWord(v, 8) == Plus(LowWord(v, 7), if VectorBits(v)[7] then Unit(7) else 0)
  {
    hide Unit;
    SmallUnits();
  }

  lemma LowWordStep(v: bv8, n: nat)
    requires n < 8
    ensures LowWord(v, n + 1) == Plus(LowWord(v, n), if VectorBits(v)[n] then Unit(n) else 0)
  {
    hide *;
    if n == 0 {
      LowStep0(v);
    } else if n == 1 {
      LowStep1(v);
    } else if n == 2 {
      LowStep2(v);
    } else if n == 3 {
      LowStep3(v);
    } else if n == 4 {
      LowStep4(v);
    } else if n == 5 {
      LowStep5(v);
    } else if n == 6 {
      LowStep6(v);
    } else if n == 7 {
      LowStep7(v);
    }
  }

  lemma {:induction false} PackLow(v: bv8, n: nat)
    requires n <= 8
    ensures Pack(VectorBits(v)[..n]) == LowWord(v, n)
  {
    hide *;
    if n == 0 {
      PackEmpty();
      LowWordEnds(v);
      assert VectorBits(v)[..0] == [];
    } else {
      PackLow(v, n - 1);
      PackLast(VectorBits(v)[..n]);
      assert VectorBits(v)[..n][..n - 1] == VectorBits(v)[..n - 1];
      LowWordStep(v, n - 1);
    }
  }

  lemma LowWordEnds(v: bv8)
    ensures LowWord(v, 0) == 0 && LowWord(v, 8) == v as bv32
  {
  }

  lemma PackVector(v: bv8)
    ensures Pack(VectorBits(v)) == v as bv32
  {
    hide *;
    PackLow(v, 8);
    LowWordEnds(v);
    assert VectorBits(v)[..8] == VectorBits(v);
  }

  lemma SmallUnits()
    ensures Unit(0) == 1 && Unit(1) == 2 && Unit(2) == 4 && Unit(3) == 8
    ensures Unit(4) == 16 && Unit(5) == 32 && Unit(6) == 64 && Unit(7) == 128
  {
  }

  lemma ByteFed(r: bv32, b: byte)
    ensures Shifts(8, Plus(r, Word(b))) == Feed(r, ByteBits(b))
  {
    hide Shifts, Plus, Feed, Pack, VectorBits;
    PackVector(b as bv8);
    FeedIsShiftedWord(ByteBits(b));
    FeedFrom(r, ByteBits(b));
    ShiftsPlus(8, r, Word(b));
  }

  /** The byte-wise register is the bit-serial one. */
  lemma {:induction false} RegisterIsFeed(r: bv32, msg: seq<byte>)
    ensures Register(r, msg) == Feed(r, Bits(msg))
  {
    hide Shifts, Plus, Feed, Word, ByteBits;
    if |msg| == 0 {
      FeedFrom(r, []);
      FeedEmpty(r);
    } else {
      var n := |msg| - 1;
      RegisterIsFeed(r, msg[..n]);
      ByteFed(Register(r, msg[..n]), msg[n]);
      FeedConcat(r, Bits(msg[..n]), ByteBits(msg[n]));
    }
  }

  lemma FeedEmpty(r: bv32)
    ensures Feed(r, []) == r
  {
  }

  lemma BitsDetermineByte(a: byte, b: byte)
    requires ByteBits(a) == ByteBits(b)
    ensures a == b
  {
    hide Pack, VectorBits;
    PackVector(a as bv8);
    PackVector(b as bv8);
    SameWord(a as bv8, b as bv8);
    SameBits(a, b);
  }

  lemma SameWord(v: bv8, w: bv8)
    requires v as bv32 == w as bv32
    ensures v == w
  {
  }

  lemma {:induction false} BitsDetermineMessage(a: seq<byte>, b: seq<byte>)
    requires |a| == |b| && Bits(a) == Bits(b)
    ensures a == b
  {
    hide ByteBits;
    if |a| > 0 {
      var n := |a| - 1;
      assert Bits(a)[..8 * n] == Bits(a[..n]) && Bits(b)[..8 * n] == Bits(b[..n]);
      assert Bits(a)[8 * n..] == ByteBits(a[n]) && Bits(b)[8 * n..] == ByteBits(b[n]);
      BitsDetermineMessage(a[..n], b[..n]);
      BitsDetermineByte(a[n], b[n]);
    }
  }

  /** Two images of one length that differ only within 32 consecutive bits have different CRCs. */
  lemma BurstDetected(a: seq<byte>, b: seq<byte>, at: nat)
    requires |a| == |b| && a != b && BurstAt(Bits(a), Bits(b), at)
    ensures Crc32(a) != Crc32(b)
  {
    hide Register, Bits, Feed;
    if Bits(a) == Bits(b) {
      BitsDetermineMessage(a, b);
    }
    var r := Not(0);
    RegisterIsFeed(r, a);
    RegisterIsFeed(r, b);
    BurstChangesRegister(r, Bits(a), Bits(b), at);
    NotNot(Register(r, a));
    NotNot(Register(r, b));
  }

  // ----- affinity

  function XorAll(a: seq<byte>, b: seq<byte>): (c: seq<byte>)
    requires |a| == |b|
    ensures |c| == |a|
  {
    seq(|a|, i requires 0 <= i < |a| => Xor(a[i], b[i]))
  }

  lemma WidenXor(v: bv8, w: bv8)
    ensures G.Add(v, w) as bv32 == Plus(v as bv32, w as bv32)
  {
  }

  lemma WordXor(a: byte, b: byte)
    ensures Word(Xor(a, b)) == Plus(Word(a), Word(b))
  {
    hide Xor, Plus, G.Add;
    XorBits(a, b);
    WidenXor(a as bv8, b as bv8);
  }

  lemma {:induction false} RegisterLinear(r: bv32, s: bv32, a: seq<byte>, b: seq<byte>)
    requires |a| == |b|
    ensures Register(Plus(r, s), XorAll(a, b)) == Plus(Register(r, a), Register(s, b))
  {
    hide Shifts, Plus, Word, Xor;
    if |a| > 0 {
      var n := |a| - 1;
      assert XorAll(a, b)[..n] == XorAll(a[..n], b[..n]);
      RegisterLinear(r, s, a[..n], b[..n]);
      WordXor(a[n], b[n]);
      PlusSwap(Register(r, a[..n]), Register(s, b[..n]), Word(a[n]), Word(b[n]));
      ShiftsPlus(8, Plus(Register(r, a[..n]), Word(a[n])), Plus(Register(s, b[..n]), Word(b[n])));
    }
  }

  /** The update is affine: three updates of equal lengths add up to the update of the sums. */
  lemma UpdateAffine(p: bv32, q: bv32, r: bv32, a: seq<byte>, b: seq<byte>, c: seq<byte>)
    requires |a| == |b| == |c|
    ensures Update(Plus(Plus(p, q), r), XorAll(XorAll(a, b), c))
            == Plus(Plus(Update(p, a), Update(q, b)), Update(r, c))
  {
    hide Register, Plus, Not, XorAll;
    NotPlus(p, q, r);
    RegisterLinear(Not(p), Not(q), a, b);
    RegisterLinear(Plus(Not(p), Not(q)), Not(r), XorAll(a, b), c);
    NotPlus(Register(Not(p), a), Register(Not(q), b), Register(Not(r), c));
  }

  lemma NotPlus(p: bv32, q: bv32, r: bv32)
    ensures Not(Plus(Plus(p, q), r)) == Plus(Plus(Not(p), Not(q)), Not(r))
  {
  }
}
