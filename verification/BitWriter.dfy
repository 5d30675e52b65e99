/** The encoder's output: a byte buffer with a bit accumulator in front of it. */
module BitWriter {
  import opened Arithmetic
  import opened Bytes
  import opened BitStrings
  import opened Segments

  function Min(a: nat, b: nat): nat {
    if a < b then a else b
  }

  class Writer {
    const buf: array<byte>
    var len: nat
    var overflow: bool
    var acc: nat          // bit_acc, a 32-bit number
    var cnt: nat          // bit_cnt
    ghost var out: seq<byte>    // everything put out, had there been room
    ghost var done: seq<byte>   // what was put out before the current segment
    ghost var bits: seq<bool>   // the bits of the current segment

    /** The buffer holds as much of the output as fits, and overflow says whether that is not all. */
    ghost predicate Output()
      reads this`len, this`overflow, this`out, buf
    {
      len == Min(|out|, buf.Length) && buf[..len] == out[..len] && (overflow <==> |out| > buf.Length)
    }

    /** Whole bytes of the segment are out; the last cnt bits wait in the accumulator. */
    ghost predicate Pending()
      reads this
    {
      && cnt <= |bits| && (|bits| - cnt) % 8 == 0
      && out == done + Stuff(Pack(bits[..|bits| - cnt])) && Holds(acc, bits[|bits| - cnt..])
    }

    ghost predicate Valid()
      reads this, buf
    {
      Output() && Pending() && cnt < 8
    }

    constructor (cap: nat)
      ensures Valid() && done == [] && bits == [] && out == [] && buf.Length == cap && fresh(buf)
    {
      buf := new byte[cap](_ => 0);
      len, overflow, acc, cnt := 0, false, 0, 0;
      out, done, bits := [], [], [];
    }

    /** put_byte */
    method PutByte(b: byte)
      requires Output()
      modifies this`len, this`overflow, this`out, buf
      ensures Output() && out == old(out) + [b]
    {
      if len >= buf.Length {
        overflow := true;
      } else {
        buf[len] := b;
        len := len + 1;
      }
      out := out + [b];
    }

    /** Between segments bytes go straight out. */
    method PutRaw(b: byte)
      requires Valid() && bits == []
      modifies this`len, this`overflow, this`out, this`done, buf
      ensures Valid() && done == old(done) + [b] && out == done
    {
      hide Holds, Stuff, Pack;
      NothingPending();
      assert bits[..|bits| - cnt] == [];
      PutByte(b);
      done := done + [b];
    }

    /** put_bits */
    method PutBits(code: nat, size: nat)
      requires Valid() && size <= 16 && code < 0x1_0000
      modifies this, buf
      ensures Valid() && done == old(done) && bits == old(bits) + Word(code % Pow2(size), size)
    {
      hide Holds, Stuff, Pack, Word, Pow2, Rem, Quot;
      if size == 0 {
        NoBits(code, bits);
        return;
      }
      ShiftBits(code, size);
      while cnt >= 8
        invariant Output() && Pending() && done == old(done)
        invariant bits == old(bits) + Word(code % Pow2(size), size)
      {
        DropByte();
      }
    }

    method ShiftBits(code: nat, size: nat)
      requires Valid() && size <= 16
      modifies this`acc, this`cnt, this`bits
      ensures Output() && Pending() && cnt == old(cnt) + size
      ensures bits == old(bits) + Word(code % Pow2(size), size)
    {
      hide Holds, Stuff, Pack, Word, Pow2, Rem, Quot;
      ghost var w := bits[|bits| - cnt..];
      ShiftIn(acc, w, code % Pow2(size), size);
      acc := Rem(acc * Pow2(size) + code % Pow2(size), Pow2(WORD));
      cnt := cnt + size;
      ghost var was := bits;
      bits := bits + Word(code % Pow2(size), size);
      assert bits[..|bits| - cnt] == was[..|was| - (cnt - size)];
      assert bits[|bits| - cnt..] == w + Word(code % Pow2(size), size);
    }

    /** A data byte, and the zero that goes behind 0xFF. */
    method PutStuffed(b: byte)
      requires Output()
      modifies this`len, this`overflow, this`out, buf
      ensures Output() && out == old(out) + Stuffed(b)
    {
      PutByte(b);
      if b == 0xFF {
        PutByte(0x00);
      }
    }

    /** One whole byte out of the accumulator. */
    method DropByte()
      requires Output() && Pending() && cnt >= 8
      modifies this`len, this`overflow, this`out, this`cnt, buf
      ensures Output() && Pending() && cnt == old(cnt) - 8
    {
      hide Output, Holds, Pack, Stuff, Stuffed, Pow2, Rem, Quot, ByteOf;
      DropPending(done, bits, acc, cnt, out);
      var b: byte := Rem(Quot(acc, Pow2(cnt - 8)), 256);
      PutStuffed(b);
      cnt := cnt - 8;
    }

    /** Padding to a whole byte. */
    method PadBits()
      requires Valid()
      modifies this, buf
      ensures Valid() && cnt == 0 && done == old(done) && bits == Padded(old(bits))
    {
      hide Output, Holds, Stuff, Pack, Word, Pow2, Ones, Short, Padded;
      ghost var k := 0;
      NoPadding(bits);
      while cnt > 0
        invariant Valid() && done == old(done) && bits == old(bits) + Ones(k)
        invariant k <= Short(|old(bits)|)
        decreases Short(|old(bits)|) - k
      {
        ghost var was := bits;
        PutBits(0xFF, 1);
        OneMore(old(bits), was, bits, k);
        k := k + 1;
      }
      PaddedNow(old(bits), k);
    }

    /** flush_bits */
    method FlushBits()
      requires Valid()
      modifies this, buf
      ensures Valid() && bits == [] && done == old(done) + Segment(old(bits)) && out == done
    {
      hide Output, Holds, Stuff, Pack, Padded;
      PadBits();
      assert bits[..|bits|] == bits;
      done := out;
      bits := [];
      acc := 0;
      cnt := 0;
      NothingPending();
    }
  }

  /** The next whole byte of what is pending, and what is pending without it. */
  lemma DropPending(done: seq<byte>, bits: seq<bool>, acc: nat, cnt: nat, out: seq<byte>)
    requires 8 <= cnt <= |bits| && (|bits| - cnt) % 8 == 0
    requires out == done + Stuff(Pack(bits[..|bits| - cnt])) && Holds(acc, bits[|bits| - cnt..])
    ensures var b := Rem(Quot(acc, Pow2(cnt - 8)), 256);
      && 0 <= b < 256 && out + Stuffed(b) == done + Stuff(Pack(bits[..|bits| - (cnt - 8)]))
      && Holds(acc, bits[|bits| - (cnt - 8)..])
  {
    hide Holds, Pack, Stuff, Stuffed, Pow2, Rem, Quot, ByteOf;
    var q := |bits| - cnt;
    var w := bits[q..];
    TopByte(acc, w);
    assert w[..8] == bits[q..q + 8] && w[8..] == bits[q + 8..];
    PackNext(bits, q);
    StuffNext(Pack(bits[..q]), ByteOf(w[..8]));
  }

  lemma NoBits(code: nat, bits: seq<bool>)
    ensures bits + Word(code % Pow2(0), 0) == bits
  {
  }

  lemma PackNext(s: seq<bool>, q: nat)
    requires q % 8 == 0 && q + 8 <= |s|
    ensures Pack(s[..q + 8]) == Pack(s[..q]) + [ByteOf(s[q..q + 8])]
  {
    hide ByteOf;
    assert s[..q + 8][..q] == s[..q] && s[..q + 8][q..] == s[q..q + 8];
  }

  lemma StuffNext(bytes: seq<byte>, b: byte)
    ensures Stuff(bytes + [b]) == Stuff(bytes) + Stuffed(b)
  {
    assert (bytes + [b])[..|bytes|] == bytes;
  }

  /** A padding bit: the segment was not yet whole, and is now one bit nearer. */
  lemma OneMore(s: seq<bool>, was: seq<bool>, now: seq<bool>, k: nat)
    requires was == s + Ones(k) && now == was + Word(0xFF % Pow2(1), 1) && k <= Short(|s|) && |was| % 8 != 0
    ensures now == s + Ones(k + 1) && k + 1 <= Short(|s|)
  {
    assert Pow2(1) == 2;
    assert Word(1, 1) == [true];
    assert Ones(k) + [true] == Ones(k + 1);
  }

  lemma NoPadding(s: seq<bool>)
    ensures s == s + Ones(0)
  {
  }

  lemma PaddedNow(s: seq<bool>, k: nat)
    requires k <= Short(|s|) && (|s| + k) % 8 == 0
    ensures s + Ones(k) == Padded(s)
  {
  }

  lemma NothingPending()
    ensures Holds(0, []) && Stuff(Pack([])) == []
  {
  }
}
