/**
  Bytes as numbers 0..255 with exclusive-or.  The definition of Xor goes through eight-bit
  vectors; proofs use the laws below and hide the definition.
*/
module Bytes {
  import G = Generator

  type byte = x: int | 0 <= x < 256

  function Xor(a: byte, b: byte): byte {
    G.Add(a as bv8, b as bv8) as int
  }

  lemma ByteBitsAtMost(a: int)
    requires 0 <= a < 256
    ensures (a as bv8) as int <= a
  {
  }

  lemma ByteBitsAtLeast(a: int)
    requires 0 <= a < 256
    ensures a <= (a as bv8) as int
  {
  }

  lemma ByteBits(a: byte)
    ensures (a as bv8) as int == a
  {
    ByteBitsAtMost(a);
    ByteBitsAtLeast(a);
  }

  lemma BitsByte(v: bv8)
    ensures (v as int) as bv8 == v
  {
  }

  lemma XorBits(a: byte, b: byte)
    ensures Xor(a, b) as bv8 == G.Add(a as bv8, b as bv8)
  {
    hide G.Add;
    BitsByte(G.Add(a as bv8, b as bv8));
  }

  lemma XorOfBits(v: bv8, w: bv8)
    ensures Xor(v as int, w as int) == G.Add(v, w) as int
  {
    hide G.Add;
    BitsByte(v);
    BitsByte(w);
  }

  lemma SameBits(a: byte, b: byte)
    requires a as bv8 == b as bv8
    ensures a == b
  {
    ByteBits(a);
    ByteBits(b);
  }

  lemma BitLaws(u: bv8, v: bv8, w: bv8)
    ensures G.Add(u, v) == G.Add(v, u)
    ensures G.Add(G.Add(u, v), w) == G.Add(u, G.Add(v, w))
    ensures G.Add(u, 0) == u
    ensures G.Add(u, u) == 0
  {
  }

  lemma XorCommutes(a: byte, b: byte)
    ensures Xor(a, b) == Xor(b, a)
  {
    hide G.Add;
    BitLaws(a as bv8, b as bv8, 0);
  }

  lemma XorAssociates(a: byte, b: byte, c: byte)
    ensures Xor(Xor(a, b), c) == Xor(a, Xor(b, c))
  {
    hide G.Add;
    XorBits(a, b);
    XorBits(b, c);
    BitLaws(a as bv8, b as bv8, c as bv8);
  }

  lemma XorZero(a: byte)
    ensures Xor(a, 0) == a == Xor(0, a)
  {
    hide G.Add;
    BitLaws(a as bv8, 0, 0);
    ByteBits(a);
    XorCommutes(a, 0);
  }

  lemma XorSelf(a: byte)
    ensures Xor(a, a) == 0
  {
    hide G.Add;
    BitLaws(a as bv8, 0, 0);
  }

  lemma XorIsZero(a: byte, b: byte)
    ensures Xor(a, b) == 0 <==> a == b
  {
    hide *;
    XorSelf(a);
    if Xor(a, b) == 0 {
      XorAssociates(a, b, b);
      XorSelf(b);
      XorZero(a);
      XorZero(b);
    }
  }

  /** (a + b) + (c + d) = (a + c) + (b + d). */
  lemma XorSwap(a: byte, b: byte, c: byte, d: byte)
    ensures Xor(Xor(a, b), Xor(c, d)) == Xor(Xor(a, c), Xor(b, d))
  {
    hide *;
    XorAssociates(a, b, Xor(c, d));
    XorAssociates(b, c, d);
    XorCommutes(b, c);
    XorAssociates(c, b, d);
    XorAssociates(a, c, Xor(b, d));
  }
}
