/**
  Entropy-coded segments as bytes: bits packed eight to a byte, the last byte padded with ones, and a zero
  stuffed behind every 0xFF so that a marker can be told from data (ITU-T T.81 sections B.1.1.5 and F.1.2.3).
*/
module Segments {
  import opened Arithmetic
  import opened Bytes
  import opened BitStrings

  // ----- bits and bytes

  function ByteOf(s: seq<bool>): byte
    requires |s| == 8
  {
    ValueBelow(s);
    assert Pow2(8) == 256;
    Value(s)
  }

  function Pack(s: seq<bool>): (bytes: seq<byte>)
    requires |s| % 8 == 0
    ensures |bytes| == |s| / 8
  {
    if |s| == 0 then [] else Pack(s[..|s| - 8]) + [ByteOf(s[|s| - 8..])]
  }

  function Unpack(bytes: seq<byte>): (s: seq<bool>)
    ensures |s| == 8 * |bytes|
  {
    if |bytes| == 0 then [] else Unpack(bytes[..|bytes| - 1]) + Word(bytes[|bytes| - 1], 8)
  }

  lemma {:induction false} UnpackPack(s: seq<bool>)
    requires |s| % 8 == 0
    ensures Unpack(Pack(s)) == s
  {
    hide Word, ByteOf;
    if |s| > 0 {
      var init, last := s[..|s| - 8], s[|s| - 8..];
      UnpackPack(init);
      assert Pack(s)[..|Pack(s)| - 1] == Pack(init);
      WordOfByte(last);
    }
  }

  lemma WordOfByte(s: seq<bool>)
    requires |s| == 8
    ensures Word(ByteOf(s), 8) == s
  {
    hide Word, Value;
    WordOfValue(s);
  }

  // ----- stuffing

  function Stuffed(b: byte): (s: seq<byte>) {
    if b == 0xFF then [0xFF, 0x00] else [b]
  }

  function Stuff(bytes: seq<byte>): seq<byte> {
    if |bytes| == 0 then [] else Stuff(bytes[..|bytes| - 1]) + Stuffed(bytes[|bytes| - 1])
  }

  /** The decoder's view: a zero after 0xFF is dropped. */
  function Unstuff(s: seq<byte>): seq<byte> {
    if |s| == 0 then []
    else if s[0] == 0xFF && |s| > 1 && s[1] == 0x00 then [0xFF] + Unstuff(s[2..])
    else [s[0]] + Unstuff(s[1..])
  }

  lemma {:induction false} StuffCons(bytes: seq<byte>)
    requires |bytes| > 0
    ensures Stuff(bytes) == Stuffed(bytes[0]) + Stuff(bytes[1..])
  {
    var n := |bytes| - 1;
    if n > 0 {
      StuffCons(bytes[..n]);
      assert bytes[..n][1..] == bytes[1..][..n - 1];
    }
  }

  lemma {:induction false} UnstuffStuff(bytes: seq<byte>)
    ensures Unstuff(Stuff(bytes)) == bytes
  {
    hide Stuff;
    if |bytes| > 0 {
      StuffCons(bytes);
      UnstuffStuff(bytes[1..]);
      var s := Stuff(bytes);
      if bytes[0] == 0xFF {
        assert s[2..] == Stuff(bytes[1..]);
      } else {
        assert s[1..] == Stuff(bytes[1..]);
      }
    } else {
      StuffNothing();
    }
  }

  lemma StuffNothing()
    ensures Stuff([]) == []
  {
  }

  /** Inside stuffed data every 0xFF has a zero behind it. */
  ghost predicate NoMarker(s: seq<byte>) {
    forall i :: 0 <= i < |s| && s[i] == 0xFF ==> ZeroBehind(s, i)
  }

  predicate ZeroBehind(s: seq<byte>, i: nat) {
    i + 1 < |s| && s[i + 1] == 0x00
  }

  lemma {:induction false} StuffHidesMarkers(bytes: seq<byte>)
    ensures NoMarker(Stuff(bytes))
  {
    if |bytes| > 0 {
      var n := |bytes| - 1;
      StuffHidesMarkers(bytes[..n]);
      var s, init := Stuff(bytes), Stuff(bytes[..n]);
      forall i | 0 <= i < |s| && s[i] == 0xFF ensures ZeroBehind(s, i) {
        if i < |init| {
          assert ZeroBehind(init, i);
        }
      }
    }
  }

  // ----- markers

  datatype Piece = NoMarkerLeft | Piece(data: seq<byte>, marker: byte, rest: seq<byte>)

  /** Data up to the first 0xFF that is not followed by a zero, and the marker code behind that. */
  function NextMarker(s: seq<byte>): Piece {
    if |s| < 2 then NoMarkerLeft
    else if s[0] == 0xFF && s[1] != 0x00 then Piece([], s[1], s[2..])
    else
      var n := if s[0] == 0xFF then 2 else 1;
      match NextMarker(s[n..])
      case NoMarkerLeft => NoMarkerLeft
      case Piece(data, marker, rest) => Piece(s[..n] + data, marker, rest)
  }

  /** A marker behind stuffed data is found where it is, and the data before it is whole. */
  lemma {:induction false} MarkerFound(bytes: seq<byte>, marker: byte, rest: seq<byte>)
    requires marker != 0
    ensures NextMarker(Stuff(bytes) + [0xFF, marker] + rest) == Piece(Stuff(bytes), marker, rest)
  {
    hide Stuff;
    var s := Stuff(bytes) + [0xFF, marker] + rest;
    if |bytes| == 0 {
      StuffNothing();
      assert s[2..] == rest;
    } else {
      StuffCons(bytes);
      MarkerFound(bytes[1..], marker, rest);
      var n := |Stuffed(bytes[0])|;
      assert s[..n] == Stuffed(bytes[0]) && s[n..] == Stuff(bytes[1..]) + [0xFF, marker] + rest;
    }
  }

  // ----- a segment

  function Ones(n: nat): (s: seq<bool>)
    ensures |s| == n
  {
    seq(n, _ => true)
  }

  /** Bits short of a whole byte. */
  function Short(n: nat): (k: nat)
    ensures k < 8 && (n + k) % 8 == 0
  {
    if n % 8 == 0 then 0 else 8 - n % 8
  }

  function Padded(s: seq<bool>): (p: seq<bool>)
    ensures |p| % 8 == 0
  {
    s + Ones(Short(|s|))
  }

  function Segment(s: seq<bool>): seq<byte> {
    Stuff(Pack(Padded(s)))
  }

  /** The decoder has the bits back, with fewer than eight ones after them. */
  lemma SegmentBits(s: seq<bool>)
    ensures Unpack(Unstuff(Segment(s))) == s + Ones(Short(|s|))
    ensures NoMarker(Segment(s))
  {
    hide Stuff, Pack, Unpack, Unstuff;
    UnstuffStuff(Pack(Padded(s)));
    UnpackPack(Padded(s));
    StuffHidesMarkers(Pack(Padded(s)));
  }

  // ----- the accumulator

  const WORD: nat := 32

  /** The low |w| bits of the accumulator spell w. */
  predicate Holds(acc: nat, w: seq<bool>) {
    Rem(acc, Pow2(|w|)) == Value(w)
  }

  lemma RemOfRem(x: nat, m: nat, k: nat)
    requires m > 0 && k > 0 && m * k > 0
    ensures Rem(Rem(x, m * k), m) == Rem(x, m)
  {
    hide Quot, Rem;
    var q, s := Quot(x, m * k), Rem(x, m * k);
    Split(x, m * k);
    Split(s, m);
    Split(x, m);
    assert q * (m * k) == (q * k) * m;
    assert (q * k + Quot(s, m)) * m == (q * k) * m + Quot(s, m) * m;
    SplitUnique(x, m, q * k + Quot(s, m), Rem(s, m));
  }

  /** Shifting in a word, in 32 bits. */
  lemma ShiftIn(acc: nat, w: seq<bool>, c: nat, n: nat)
    requires Holds(acc, w) && c < Pow2(n) && |w| + n <= WORD
    ensures Holds(Rem(acc * Pow2(n) + c, Pow2(WORD)), w + Word(c, n))
  {
    hide Quot, Rem, Pow2, Value, Word;
    var p, m := Pow2(n), Pow2(|w|);
    var x := acc * p + c;
    Split(acc, m);
    var q, v := Quot(acc, m), Value(w);
    ValueBelow(w);
    ValueConcat(w, Word(c, n));
    ValueOfWord(c, n);
    ValueBelow(w + Word(c, n));
    Pow2Add(|w|, n);
    Spread(q, m, v, p);
    SplitUnique(x, m * p, q, v * p + c);
    Pow2Add(|w| + n, WORD - (|w| + n));
    RemOfRem(x, m * p, Pow2(WORD - (|w| + n)));
  }

  lemma Spread(q: nat, m: nat, v: nat, p: nat)
    ensures (q * m + v) * p == q * (m * p) + v * p
  {
  }

  /** The top eight of more bits. */
  lemma TopByte(acc: nat, w: seq<bool>)
    requires Holds(acc, w) && |w| >= 8
    ensures Rem(Quot(acc, Pow2(|w| - 8)), 256) == ByteOf(w[..8])
    ensures Holds(acc, w[8..])
  {
    hide Quot, Rem, Pow2, Value;
    var p := Pow2(|w| - 8);
    var q, hi, lo := Quot(acc, Pow2(|w|)), Value(w[..8]), Value(w[8..]);
    assert w == w[..8] + w[8..];
    ValueConcat(w[..8], w[8..]);
    ValueBelow(w[..8]);
    ValueBelow(w[8..]);
    Eight();
    Pow2Add(8, |w| - 8);
    Split(acc, Pow2(|w|));
    Spread(q, 256, hi, p);
    assert acc == (q * 256 + hi) * p + lo;
    SplitUnique(acc, p, q * 256 + hi, lo);
    SplitUnique(q * 256 + hi, 256, q, hi);
  }

  lemma Eight()
    ensures Pow2(8) == 256
  {
  }
}
