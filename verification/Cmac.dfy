/**
  AES-CMAC as RFC 4493 defines it, over an arbitrary block function, and the code that computes it over a
  nonce and a message held in two places.
*/
module Cmac {
  import opened Bytes
  import opened BitStrings
  import Segments

  type Block = s: seq<byte> | |s| == 16 witness seq(16, _ => 0)

  function ZeroBlock(): Block {
    seq(16, _ => 0)
  }

  // ----- RFC 4493

  /** Exclusive or of two blocks. */
  function Xor16(a: Block, b: Block): (c: Block)
    ensures forall i :: 0 <= i < 16 ==> c[i] == Xor(a[i], b[i])
  {
    seq(16, i requires 0 <= i < 16 => Xor(a[i], b[i]))
  }

  /** y is x shifted left by one bit, as the 128-bit string it is. */
  ghost predicate Shifted(x: Block, y: Block) {
    Segments.Unpack(y) == Segments.Unpack(x)[1..] + [false]
  }

  /** A byte shifted left, with the bit that comes in. */
  function Twice(a: byte, carry: bool): byte {
    var b: int := 2 * (a as int) % 256;
    if carry then b + 1 else b
  }

  /** The bytes of a block shifted left. */
  function ShiftLeft(x: Block): Block {
    seq(16, i requires 0 <= i < 16 => Twice(x[i], i + 1 < 16 && x[i + 1] >= 128))
  }

  const RB: byte := 0x87

  /** Section 2.3, one half of the subkey generation: shift, and fold the bit shifted out back in. */
  function NextKey(x: Block): Block {
    var y := ShiftLeft(x);
    if x[0] >= 128 then y[15 := Xor(y[15], RB)] else y
  }

  function K1(E: Block -> Block): Block {
    NextKey(E(ZeroBlock()))
  }

  function K2(E: Block -> Block): Block {
    NextKey(K1(E))
  }

  /** Number of blocks: at least one. */
  function BlockCount(len: nat): (n: nat)
    ensures n >= 1
  {
    if len == 0 then 1 else (len + 15) / 16
  }

  /** Block i of a message, which has to be whole. */
  function BlockAt(msg: seq<byte>, i: nat): Block
    requires 16 * i + 16 <= |msg|
  {
    msg[16 * i..16 * i + 16]
  }

  /** padding(x): a one bit, then zeroes. */
  function Padding(x: seq<byte>): Block
    requires |x| < 16
  {
    x + [0x80] + seq(15 - |x|, _ => 0)
  }

  /** Section 2.4 steps 1 to 4: the last block, complete or padded, with its subkey. */
  function LastBlock(E: Block -> Block, msg: seq<byte>): Block {
    var n := BlockCount(|msg|);
    if |msg| > 0 && |msg| % 16 == 0 then Xor16(BlockAt(msg, n - 1), K1(E)) else Xor16(Padding(msg[16 * (n - 1)..]), K2(E))
  }

  /** Steps 5 and 6: the chain over the first i blocks. */
  function Chain(E: Block -> Block, msg: seq<byte>, i: nat): Block
    requires 16 * i <= |msg|
  {
    if i == 0 then ZeroBlock() else E(Xor16(Chain(E, msg, i - 1), BlockAt(msg, i - 1)))
  }

  function Rfc4493(E: Block -> Block, msg: seq<byte>): Block {
    var n := BlockCount(|msg|);
    E(Xor16(Chain(E, msg, n - 1), LastBlock(E, msg)))
  }

  // ----- the shift

  lemma {:induction false} WordDropsTop(c: nat, n: nat)
    ensures Word(c, n + 1)[1..] == Word(c, n)
  {
    if n > 0 {
      WordDropsTop(c / 2, n - 1);
      assert Word(c, n + 1)[1..] == Word(c / 2, n)[1..] + [c % 2 == 1];
    }
  }

  lemma {:induction false} WordIgnoresTop(c: nat, n: nat)
    ensures Word(c + Pow2(n), n) == Word(c, n)
  {
    if n > 0 {
      WordIgnoresTop(c / 2, n - 1);
      assert (c + Pow2(n)) / 2 == c / 2 + Pow2(n - 1) && (c + Pow2(n)) % 2 == c % 2;
    }
  }

  /** A shifted byte: its last seven bits and the one that comes in. */
  lemma TwiceBits(a: byte, carry: bool)
    ensures Word(Twice(a, carry), 8) == Word(a, 8)[1..] + [carry]
    ensures Word(a, 8)[0] == (a >= 128)
  {
    hide Word, Pow2, Twice;
    var low: nat := if a >= 128 then a - 128 else a;
    TwiceLow(a, carry, low);
    WordSnoc(low, carry, 7);
    TopBit(a);
    WordDropsTop(a, 7);
    Seven();
    if a >= 128 {
      WordIgnoresTop(low, 7);
    }
  }

  lemma TwiceLow(a: byte, carry: bool, low: nat)
    requires low == if a >= 128 then a - 128 else a
    ensures Twice(a, carry) == 2 * low + if carry then 1 else 0
  {
  }

  lemma WordSnoc(c: nat, bit: bool, n: nat)
    ensures Word(2 * c + if bit then 1 else 0, n + 1) == Word(c, n) + [bit]
  {
  }

  lemma Seven()
    ensures Pow2(7) == 128
  {
    assert Pow2(4) == 16;
  }

  lemma {:induction false} TopOf(c: nat, n: nat)
    requires c < Pow2(n + 1)
    ensures Word(c, n + 1)[0] == (c >= Pow2(n))
  {
    if n > 0 {
      TopOf(c / 2, n - 1);
      assert Word(c, n + 1)[0] == Word(c / 2, n)[0];
    }
  }

  lemma TopBit(a: byte)
    ensures Word(a, 8)[0] == (a >= 128)
  {
    Seven();
    assert Pow2(8) == 2 * Pow2(7);
    TopOf(a, 7);
  }

  /** Bit 8 * i + j of a block. */
  lemma {:induction false} BitOfBlock(x: seq<byte>, i: nat, j: nat)
    requires i < |x| && j < 8
    ensures Segments.Unpack(x)[8 * i + j] == Word(x[i], 8)[j]
  {
    var n := |x| - 1;
    if i < n {
      BitOfBlock(x[..n], i, j);
    }
  }

  /** The byte-wise shift is the shift of the 128-bit string. */
  lemma ShiftLeftShifts(x: Block)
    ensures Shifted(x, ShiftLeft(x))
  {
    hide Word, Twice;
    var y := ShiftLeft(x);
    var s, t := Segments.Unpack(x), Segments.Unpack(y);
    hide Segments.Unpack;
    forall k | 0 <= k < 128 ensures t[k] == (s[1..] + [false])[k] {
      var i, j := k / 8, k % 8;
      BitOfBlock(y, i, j);
      TwiceBits(x[i], i + 1 < 16 && x[i + 1] >= 128);
      if j < 7 {
        BitOfBlock(x, i, j + 1);
      } else if i < 15 {
        BitOfBlock(x, i + 1, 0);
        TwiceBits(x[i + 1], false);
      }
    }
  }

  // ----- the code

  /** shift_left: from the last byte to the first, carrying. */
  method ShiftLeftInto(x: array<byte>, out: array<byte>)
    requires x.Length == out.Length == 16 && x != out
    modifies out
    ensures out[..] == ShiftLeft(x[..])
  {
    hide ShiftedAt;
    var carry := false;
    var i := 16;
    while i > 0
      invariant 0 <= i <= 16 && carry == (i < 16 && x[i] >= 128)
      invariant forall k :: i <= k < 16 ==> ShiftedAt(x[..], k, out[k])
    {
      i := i - 1;
      ShiftHere(x[..], i, carry);
      out[i] := Twice(x[i], carry);
      carry := x[i] >= 128;
    }
    IsShiftLeft(x[..], out[..]);
  }

  /** v is byte k of x shifted left. */
  predicate ShiftedAt(x: Block, k: nat, v: byte) {
    k < 16 && v == Twice(x[k], k + 1 < 16 && x[k + 1] >= 128)
  }

  lemma ShiftHere(x: Block, k: nat, carry: bool)
    requires k < 16 && carry == (k + 1 < 16 && x[k + 1] >= 128)
    ensures ShiftedAt(x, k, Twice(x[k], carry))
  {
    hide Twice;
  }

  lemma IsShiftLeft(x: Block, y: Block)
    requires forall k :: 0 <= k < 16 ==> ShiftedAt(x, k, y[k])
    ensures y == ShiftLeft(x)
  {
    hide Twice;
    forall k | 0 <= k < 16 ensures y[k] == ShiftLeft(x)[k] {
      assert ShiftedAt(x, k, y[k]);
    }
  }

  /** subkeys */
  method Subkeys(E: Block -> Block, k1: array<byte>, k2: array<byte>)
    requires k1.Length == k2.Length == 16 && k1 != k2
    modifies k1, k2
    ensures k1[..] == K1(E) && k2[..] == K2(E)
  {
    hide Twice, Xor, ShiftLeft;
    var l := new byte[16];
    var enc := E(ZeroBlock());
    forall i | 0 <= i < 16 {
      l[i] := enc[i];
    }
    assert l[..] == enc;
    ShiftLeftInto(l, k1);
    if l[0] >= 128 {
      k1[15] := Xor(k1[15], RB);
    }
    ShiftLeftInto(k1, k2);
    if k1[0] >= 128 {
      k2[15] := Xor(k2[15], RB);
    }
  }

  /** Byte p of the nonce followed by the message, without joining them. */
  function ByteAt(nonce: seq<byte>, msg: seq<byte>, p: nat): byte
    requires p < |nonce| + |msg|
  {
    if p < |nonce| then nonce[p] else msg[p - |nonce|]
  }

  /** Block b of the two, filled up with zeroes. */
  method GatherBlock(nonce: seq<byte>, msg: seq<byte>, off: nat, take: nat) returns (blk: array<byte>)
    requires take <= 16 && off + take <= |nonce| + |msg|
    ensures fresh(blk) && blk.Length == 16
    ensures blk[..] == (nonce + msg)[off..off + take] + seq(16 - take, _ => 0)
  {
    blk := new byte[16](_ => 0);
    for i := 0 to take
      invariant forall k :: 0 <= k < i ==> blk[k] == (nonce + msg)[off + k]
      invariant forall k :: i <= k < 16 ==> blk[k] == 0
    {
      blk[i] := ByteAt(nonce, msg, off + i);
    }
  }

  function Least(a: nat, b: nat): nat {
    if a < b then a else b
  }

  method XorInto(blk: array<byte>, key: array<byte>)
    requires blk.Length == key.Length == 16 && blk != key
    modifies blk
    ensures blk[..] == Xor16(old(blk[..]), key[..])
  {
    hide Xor;
    for i := 0 to 16
      invariant forall k :: 0 <= k < i ==> blk[k] == Xor(old(blk[k]), key[k])
      invariant forall k :: i <= k < 16 ==> blk[k] == old(blk[k])
    {
      blk[i] := Xor(blk[i], key[i]);
    }
    assert blk[..] == Xor16(old(blk[..]), key[..]);
  }

  /**
    loraitp_cmac over nonce then message, truncated: what RFC 4493 gives for the two joined, for every
    length including none at all.
  */
  method ComputeCmac(E: Block -> Block, nonce: seq<byte>, msg: seq<byte>, outLen: nat) returns (mac: seq<byte>)
    requires outLen <= 16
    ensures mac == Rfc4493(E, nonce + msg)[..outLen]
  {
    hide Xor16, K1, K2, Padding, Chain, Rfc4493, BlockAt, LastBlock;
    var k1, k2 := new byte[16], new byte[16];
    Subkeys(E, k1, k2);
    ghost var all := nonce + msg;
    var total := |nonce| + |msg|;
    var n := (total + 15) / 16;
    if n == 0 {
      n := 1;
    }
    var x := ZeroBlock();
    ChainStarts(E, all);
    for b := 0 to n
      invariant k1[..] == K1(E) && k2[..] == K2(E)
      invariant 16 * b <= total || b == n
      invariant b < n ==> x == Chain(E, all, b)
      invariant b == n ==> x == Rfc4493(E, all)
    {
      var blk := PrepareBlock(E, nonce, msg, k1, k2, b, n);
      ChainGoesOn(E, all, b);
      var tmp := Xor16(x, blk);
      x := E(tmp);
    }
    mac := x[..outLen];
  }

  lemma ChainStarts(E: Block -> Block, all: seq<byte>)
    ensures Chain(E, all, 0) == ZeroBlock()
  {
  }

  lemma ChainGoesOn(E: Block -> Block, all: seq<byte>, b: nat)
    requires b < BlockCount(|all|)
    ensures 16 * b <= |all|
    ensures b + 1 < BlockCount(|all|) ==> 16 * b + 16 <= |all|
    ensures b + 1 < BlockCount(|all|) ==> Chain(E, all, b + 1) == E(Xor16(Chain(E, all, b), BlockAt(all, b)))
    ensures b + 1 == BlockCount(|all|) ==> Rfc4493(E, all) == E(Xor16(Chain(E, all, b), LastBlock(E, all)))
  {
    hide Xor16, BlockAt, LastBlock;
  }

  /** The block to be chained in next: a whole block of the message, or the last one with its subkey. */
  method PrepareBlock(E: Block -> Block, nonce: seq<byte>, msg: seq<byte>, k1: array<byte>, k2: array<byte>, b: nat, n: nat)
    returns (out: Block)
    requires n == BlockCount(|nonce| + |msg|) && b < n
    requires k1.Length == k2.Length == 16 && k1[..] == K1(E) && k2[..] == K2(E)
    ensures b + 1 < n ==> 16 * b + 16 <= |nonce + msg| && out == BlockAt(nonce + msg, b)
    ensures b + 1 == n ==> out == LastBlock(E, nonce + msg)
  {
    hide Xor16, K1, K2, Padding;
    ghost var all := nonce + msg;
    var total := |nonce| + |msg|;
    var off := b * 16;
    var take := Least(total - off, 16);
    var blk := GatherBlock(nonce, msg, off, take);
    if b + 1 == n {
      assert all[off..off + take] == all[16 * (n - 1)..];
      FinishBlock(E, all, blk, take, k1, k2);
    }
    out := blk[..];
  }

  /** The last block, complete or padded, with its subkey. */
  method FinishBlock(E: Block -> Block, ghost all: seq<byte>, blk: array<byte>, take: nat, k1: array<byte>, k2: array<byte>)
    requires blk.Length == k1.Length == k2.Length == 16 && blk != k1 && blk != k2
    requires k1[..] == K1(E) && k2[..] == K2(E)
    requires take <= 16 && take == |all| - 16 * (BlockCount(|all|) - 1)
    requires blk[..] == all[16 * (BlockCount(|all|) - 1)..] + seq(16 - take, _ => 0)
    modifies blk
    ensures blk[..] == LastBlock(E, all)
  {
    hide Xor16, K1, K2, Padding, LastBlock, BlockAt;
    ghost var was := blk[..];
    if take == 16 {
      assert was == all[16 * (BlockCount(|all|) - 1)..];
      WholeLast(E, all, was);
      XorInto(blk, k1);
    } else {
      blk[take] := 0x80;
      PaddedLast(E, all, was, blk[..], take);
      XorInto(blk, k2);
    }
  }

  lemma WholeLast(E: Block -> Block, all: seq<byte>, was: Block)
    requires 16 == |all| - 16 * (BlockCount(|all|) - 1)
    requires was == all[16 * (BlockCount(|all|) - 1)..]
    ensures LastBlock(E, all) == Xor16(was, K1(E))
  {
    hide Xor16, K1, K2, Padding;
    assert was == BlockAt(all, BlockCount(|all|) - 1);
  }

  lemma PaddedLast(E: Block -> Block, all: seq<byte>, was: Block, blk: Block, take: nat)
    requires take < 16 && blk == was[take := 0x80] && take == |all| - 16 * (BlockCount(|all|) - 1)
    requires was == all[16 * (BlockCount(|all|) - 1)..] + seq(16 - take, _ => 0)
    ensures LastBlock(E, all) == Xor16(blk, K2(E))
  {
    hide Xor16, K1, K2;
    assert blk == Padding(all[16 * (BlockCount(|all|) - 1)..]);
  }

  /** The subkeys of the example in section 4 of RFC 4493. */
  const EXAMPLE_K1: Block := [0xfb, 0xee, 0xd6, 0x18, 0x35, 0x71, 0x33, 0x66, 0x7c, 0x85, 0xe0, 0x8f, 0x72, 0x36, 0xa8, 0xde]
  const EXAMPLE_K2: Block := [0xf7, 0xdd, 0xac, 0x30, 0x6a, 0xe2, 0x66, 0xcc, 0xf9, 0x0b, 0xc1, 0x1e, 0xe4, 0x6d, 0x51, 0x3b]

  /** The bit shifted out is folded back as the standard's constant says. */
  lemma RfcSubkeyExample()
    ensures NextKey(EXAMPLE_K1) == EXAMPLE_K2
  {
    hide Xor;
    LastByteFolds();
    ExampleShifts();
    var y := ShiftLeft(EXAMPLE_K1);
    assert y[15 := Xor(y[15], 0x87)] == EXAMPLE_K2;
  }

  lemma ExampleShifts()
    ensures ShiftLeft(EXAMPLE_K1) == EXAMPLE_K2[15 := 0xbc]
  {
    var k2 := EXAMPLE_K2[15 := 0xbc];
    forall i | 0 <= i < 16 ensures ShiftLeft(EXAMPLE_K1)[i] == k2[i] {
    }
  }

  lemma LastByteFolds()
    ensures Xor(0xbc, 0x87) == 0x3b
  {
    assert (0xbc as bv8) ^ (0x87 as bv8) == 0x3b as bv8;
  }
}
