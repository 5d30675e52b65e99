/** The body of a STAT: the missing chunks of a block as a bitmap or a list, whichever is shorter. */
module Stat {
  import opened Wrappers
  import opened Bytes
  import opened Frames

  const BITMAP: nat := 0
  const LIST: nat := 1
  const COMPLETE: nat := 2

  // ----- bits of a byte

  function Test(v: bv8, i: nat): bool
    requires i < 8
  {
    v & ((1 as bv8) << i) != 0
  }

  function With(v: bv8, i: nat): bv8
    requires i < 8
  {
    v | ((1 as bv8) << i)
  }

  function Bit(b: byte, i: nat): bool
    requires i < 8
  {
    Test(b as bv8, i)
  }

  function SetBit(b: byte, i: nat): byte
    requires i < 8
  {
    With(b as bv8, i) as int
  }

  lemma SetBitSets(b: byte, i: nat, j: nat)
    requires i < 8 && j < 8
    ensures Bit(SetBit(b, i), j) == (i == j || Bit(b, j))
  {
    hide Test, With;
    BitsByte(With(b as bv8, i));
    TestWith(b as bv8, i, j);
  }

  lemma TestWith(v: bv8, i: nat, j: nat)
    requires i < 8 && j < 8
    ensures Test(With(v, i), j) == (i == j || Test(v, j))
  {
    OneBit(i, j);
    OrAnd(v, (1 as bv8) << i, (1 as bv8) << j);
  }

  lemma OneBit(i: nat, j: nat)
    requires i < 8 && j < 8
    ensures ((1 as bv8) << i) & ((1 as bv8) << j) == if i == j then (1 as bv8) << i else 0
    ensures (1 as bv8) << i != 0
  {
  }

  lemma OrAnd(v: bv8, a: bv8, b: bv8)
    ensures (v | a) & b == (v & b) | (a & b)
  {
  }

  lemma NoBits(i: nat)
    requires i < 8
    ensures !Bit(0, i)
  {
  }

  /** Bit t of a bitmap. */
  function BitAt(body: seq<byte>, t: nat): bool
    requires t < 8 * |body|
  {
    Bit(body[t / 8], t % 8)
  }

  // ----- encoding

  /** What a receiver reports: chunk numbers of one block, in order. */
  ghost predicate IsReport(missing: seq<nat>, base: nat, k: nat) {
    && (forall i :: 0 <= i < |missing| ==> base <= missing[i] < base + k)
    && (forall i, j :: 0 <= i < j < |missing| ==> missing[i] < missing[j])
  }

  /** The largest number in the list, relative to the block. */
  function RelMax(missing: seq<nat>, base: nat, n: nat): nat
    requires n <= |missing| && forall i :: 0 <= i < |missing| ==> base <= missing[i]
  {
    if n == 0 then 0
    else
      var r := RelMax(missing, base, n - 1);
      if missing[n - 1] - base > r then missing[n - 1] - base else r
  }

  function BitmapBytes(missing: seq<nat>, base: nat): nat
    requires forall i :: 0 <= i < |missing| ==> base <= missing[i]
  {
    RelMax(missing, base, |missing|) / 8 + 1
  }

  /** loraitp_stat_choose_enc */
  function ChooseEnc(missing: seq<nat>, base: nat): nat
    requires forall i :: 0 <= i < |missing| ==> base <= missing[i]
  {
    if |missing| == 0 then COMPLETE
    else if |missing| * 2 < BitmapBytes(missing, base) then LIST
    else BITMAP
  }

  function ListBody(missing: seq<nat>, n: nat): (body: seq<byte>)
    requires n <= |missing|
    ensures |body| == 2 * n
  {
    if n == 0 then [] else ListBody(missing, n - 1) + [missing[n - 1] % 256, missing[n - 1] / 256 % 256]
  }

  /** The bitmap of exactly these chunks. */
  ghost predicate IsBitmap(body: seq<byte>, missing: seq<nat>, base: nat) {
    forall t: nat :: t < 8 * |body| ==> (BitAt(body, t) <==> base + t in missing)
  }

  /** The bitmap of the first n chunks listed, in a body of len bytes. */
  function BitmapBody(missing: seq<nat>, base: nat, len: nat, n: nat): (body: seq<byte>)
    requires n <= |missing| && forall i :: 0 <= i < |missing| ==> base <= missing[i]
    ensures |body| == len
  {
    if n == 0 then seq(len, _ => 0)
    else
      var b := BitmapBody(missing, base, len, n - 1);
      var rel := missing[n - 1] - base;
      if rel / 8 < len then b[rel / 8 := SetBit(b[rel / 8], rel % 8)] else b
  }

  /** loraitp_stat_encode_body, into a buffer of cap bytes; None when it does not fit. */
  function EncodeBody(enc: nat, missing: seq<nat>, base: nat, cap: nat): Option<seq<byte>>
    requires forall i :: 0 <= i < |missing| ==> base <= missing[i]
  {
    if enc == COMPLETE then Some([])
    else if enc == LIST then
      if |missing| * 2 > cap || |missing| * 2 > 255 then None else Some(ListBody(missing, |missing|))
    else
      var need := BitmapBytes(missing, base);
      if need > cap || need > 255 then None else Some(BitmapBody(missing, base, need, |missing|))
  }

  method EncodeStatBody(enc: nat, missing: seq<nat>, base: nat, cap: nat) returns (r: Option<seq<byte>>)
    requires forall i :: 0 <= i < |missing| ==> base <= missing[i]
    ensures r == EncodeBody(enc, missing, base, cap)
  {
    if enc == COMPLETE {
      return Some([]);
    }
    if enc == LIST {
      if |missing| * 2 > cap || |missing| * 2 > 255 {
        return None;
      }
      var body := [];
      for i := 0 to |missing|
        invariant body == ListBody(missing, i)
      {
        body := body + [missing[i] % 256, missing[i] / 256 % 256];
      }
      return Some(body);
    }
    var relMax := 0;
    for i := 0 to |missing|
      invariant relMax == RelMax(missing, base, i)
    {
      var rel := missing[i] - base;
      if rel > relMax {
        relMax := rel;
      }
    }
    var need := relMax / 8 + 1;
    if need > cap || need > 255 {
      return None;
    }
    var out := new byte[need](_ => 0);
    FillBitmap(out, missing, base);
    return Some(out[..]);
  }

  lemma {:induction false} RelMaxBounds(missing: seq<nat>, base: nat, n: nat)
    requires n <= |missing| && forall i :: 0 <= i < |missing| ==> base <= missing[i]
    ensures forall i :: 0 <= i < n ==> missing[i] - base <= RelMax(missing, base, n)
  {
    if n > 0 {
      RelMaxBounds(missing, base, n - 1);
    }
  }

  /** The loop that ORs the bits in. */
  method FillBitmap(out: array<byte>, missing: seq<nat>, base: nat)
    requires forall i :: 0 <= i < |missing| ==> base <= missing[i]
    requires out.Length == BitmapBytes(missing, base)
    requires forall x :: 0 <= x < out.Length ==> out[x] == 0
    modifies out
    ensures out[..] == BitmapBody(missing, base, out.Length, |missing|)
  {
    hide SetBit;
    RelMaxBounds(missing, base, |missing|);
    assert out[..] == BitmapBody(missing, base, out.Length, 0);
    for i := 0 to |missing|
      invariant out[..] == BitmapBody(missing, base, out.Length, i)
    {
      var rel := missing[i] - base;
      assert out[..][rel / 8] == out[rel / 8];
      out[rel / 8] := SetBit(out[rel / 8], rel % 8);
    }
  }

  /** The bits set are exactly those of the chunks listed. */
  lemma {:induction false} BitmapBits(missing: seq<nat>, base: nat, len: nat, n: nat, t: nat)
    requires n <= |missing| && forall i :: 0 <= i < |missing| ==> base <= missing[i]
    requires t < 8 * len
    ensures BitAt(BitmapBody(missing, base, len, n), t) <==> base + t in missing[..n]
  {
    hide Bit, SetBit;
    if n == 0 {
      NoBits(t % 8);
    } else {
      BitmapBits(missing, base, len, n - 1, t);
      assert missing[..n] == missing[..n - 1] + [missing[n - 1]];
      var rel := missing[n - 1] - base;
      var b := BitmapBody(missing, base, len, n - 1);
      if rel / 8 < len && t / 8 == rel / 8 {
        SetBitSets(b[rel / 8], rel % 8, t % 8);
      }
    }
  }

  lemma BitmapIsExact(missing: seq<nat>, base: nat, len: nat)
    requires forall i :: 0 <= i < |missing| ==> base <= missing[i]
    ensures IsBitmap(BitmapBody(missing, base, len, |missing|), missing, base)
  {
    hide BitmapBody, BitAt;
    forall t: nat | t < 8 * len
      ensures BitAt(BitmapBody(missing, base, len, |missing|), t) <==> base + t in missing
    {
      BitmapBits(missing, base, len, |missing|, t);
      assert missing[..|missing|] == missing;
    }
  }

  // ----- decoding

  /** The numbers a bitmap of t bits stands for, in order. */
  function FromBitmap(body: seq<byte>, base: nat, t: nat): (out: seq<nat>)
    requires t <= 8 * |body|
    ensures |out| <= t
  {
    if t == 0 then []
    else FromBitmap(body, base, t - 1) + if BitAt(body, t - 1) then [U16(base + (t - 1))] else []
  }

  function FromList(body: seq<byte>, n: nat): (out: seq<nat>)
    requires 2 * n <= |body|
    ensures |out| == n
  {
    if n == 0 then [] else FromList(body, n - 1) + [(body[2 * n - 2] as int) + 256 * (body[2 * n - 1] as int)]
  }

  /** loraitp_stat_decode_body; None when there are more entries than cap. */
  function DecodeBody(enc: nat, body: seq<byte>, base: nat, cap: nat): Option<seq<nat>> {
    if enc == COMPLETE then Some([])
    else
      var out := if enc == LIST then FromList(body, |body| / 2) else FromBitmap(body, base, 8 * |body|);
      if |out| <= cap then Some(out) else None
  }

  method DecodeList(body: seq<byte>, cap: nat) returns (r: Option<seq<nat>>)
    ensures r == DecodeBody(LIST, body, 0, cap)
  {
    var out: seq<nat> := [];
    var n := 0;
    while 2 * n + 1 < |body|
      invariant 2 * n <= |body| && out == FromList(body, n) && n <= cap
    {
      if n >= cap {
        return None;
      }
      out := out + [(body[2 * n] as int) + 256 * (body[2 * n + 1] as int)];
      n := n + 1;
    }
    return Some(out);
  }

  method DecodeBitmap(body: seq<byte>, base: nat, cap: nat) returns (r: Option<seq<nat>>)
    ensures r == DecodeBody(BITMAP, body, base, cap)
  {
    hide FromBitmap;
    var out: seq<nat> := [];
    BitmapStart(body, base);
    for i := 0 to |body|
      invariant out == FromBitmap(body, base, 8 * i) && |out| <= cap
    {
      var full;
      full, out := DecodeByte(body, base, i, out, cap);
      if full {
        return None;
      }
    }
    return Some(out);
  }

  lemma BitmapStart(body: seq<byte>, base: nat)
    ensures FromBitmap(body, base, 0) == []
  {
  }

  lemma BitmapStep(body: seq<byte>, base: nat, i: nat, bit: nat)
    requires i < |body| && bit < 8
    ensures FromBitmap(body, base, 8 * i + bit + 1)
            == FromBitmap(body, base, 8 * i + bit) + if Bit(body[i], bit) then [U16(base + (8 * i + bit))] else []
  {
    hide Bit, U16;
    assert (8 * i + bit) / 8 == i && (8 * i + bit) % 8 == bit;
  }

  /** The eight bits of one byte; full when there are more entries than cap. */
  method DecodeByte(body: seq<byte>, base: nat, i: nat, out0: seq<nat>, cap: nat) returns (full: bool, out: seq<nat>)
    requires i < |body| && out0 == FromBitmap(body, base, 8 * i) && |out0| <= cap
    ensures full ==> |FromBitmap(body, base, 8 * |body|)| > cap
    ensures !full ==> out == FromBitmap(body, base, 8 * (i + 1)) && |out| <= cap
  {
    hide Bit, U16, FromBitmap;
    out := out0;
    for bit := 0 to 8
      invariant out == FromBitmap(body, base, 8 * i + bit) && |out| <= cap
    {
      BitmapStep(body, base, i, bit);
      if Bit(body[i], bit) {
        if |out| >= cap {
          BitmapGrows(body, base, 8 * i + bit + 1, 8 * |body|);
          return true, out;
        }
        out := out + [U16(base + (8 * i + bit))];
      }
    }
    return false, out;
  }

  method DecodeStatBody(enc: nat, body: seq<byte>, base: nat, cap: nat) returns (r: Option<seq<nat>>)
    ensures r == DecodeBody(enc, body, base, cap)
  {
    if enc == COMPLETE {
      return Some([]);
    }
    if enc == LIST {
      r := DecodeList(body, cap);
    } else {
      r := DecodeBitmap(body, base, cap);
    }
  }

  lemma {:induction false} BitmapGrows(body: seq<byte>, base: nat, s: nat, t: nat)
    requires s <= t <= 8 * |body|
    ensures |FromBitmap(body, base, s)| <= |FromBitmap(body, base, t)|
  {
    if s < t {
      BitmapGrows(body, base, s, t - 1);
    }
  }

  // ----- agreement

  lemma {:induction false} ListRoundTrip(missing: seq<nat>, n: nat)
    requires n <= |missing| && forall i :: 0 <= i < |missing| ==> missing[i] < 0x1_0000
    ensures FromList(ListBody(missing, n), n) == missing[..n]
  {
    if n > 0 {
      ListRoundTrip(missing, n - 1);
      FromListPrefix(ListBody(missing, n), ListBody(missing, n - 1), n - 1);
      assert missing[..n] == missing[..n - 1] + [missing[n - 1]];
    }
  }

  lemma {:induction false} FromListPrefix(a: seq<byte>, b: seq<byte>, n: nat)
    requires 2 * n <= |b| <= |a| && a[..|b|] == b
    ensures FromList(a, n) == FromList(b, n)
  {
    if n > 0 {
      FromListPrefix(a, b, n - 1);
      assert a[2 * n - 2] == a[..|b|][2 * n - 2] && a[2 * n - 1] == a[..|b|][2 * n - 1];
    }
  }

  /** Walking the bitmap from the left spells out the report. */
  lemma {:induction false} BitmapSpells(body: seq<byte>, missing: seq<nat>, base: nat, k: nat, t: nat, n: nat)
    requires t <= 8 * |body| && IsBitmap(body, missing, base) && IsReport(missing, base, k) && base + k <= 0x1_0000
    requires n <= |missing| && (forall i :: 0 <= i < n ==> missing[i] < base + t)
    requires forall i :: n <= i < |missing| ==> missing[i] >= base + t
    ensures FromBitmap(body, base, t) == missing[..n]
    decreases t
  {
    hide BitAt;
    if t == 0 {
      assert n == 0;
    } else {
      assert BitAt(body, t - 1) <==> base + (t - 1) in missing;
      if n > 0 && missing[n - 1] == base + (t - 1) {
        BitmapSpells(body, missing, base, k, t - 1, n - 1);
        assert missing[..n] == missing[..n - 1] + [missing[n - 1]];
      } else {
        BitmapSpells(body, missing, base, k, t - 1, n);
      }
    }
  }

  /** Decoding the encoded body of the chosen encoding gives back the report, whatever the block. */
  lemma StatRoundTrip(missing: seq<nat>, base: nat, k: nat, cap: nat)
    requires IsReport(missing, base, k) && k <= 256 && base + k <= 0x1_0000 && |missing| <= cap
    ensures var enc := ChooseEnc(missing, base);
      && EncodeBody(enc, missing, base, 255).Some?
      && DecodeBody(enc, EncodeBody(enc, missing, base, 255).value, base, cap) == Some(missing)
  {
    hide BitAt, FromBitmap, FromList, ListBody, BitmapBody;
    var n := |missing|;
    ChosenIsShortest(missing, base, k);
    if ChooseEnc(missing, base) == LIST {
      ListRoundTrip(missing, n);
      assert missing[..n] == missing;
    } else if ChooseEnc(missing, base) == BITMAP {
      RelMaxBounds(missing, base, n);
      BitmapIsExact(missing, base, BitmapBytes(missing, base));
      BitmapSpells(BitmapBody(missing, base, BitmapBytes(missing, base), n), missing, base, k,
                   8 * BitmapBytes(missing, base), n);
      assert missing[..n] == missing;
    } else {
      assert missing == [];
    }
  }

  /** The chosen encoding is never longer than the other one, and always fits a STAT. */
  lemma ChosenIsShortest(missing: seq<nat>, base: nat, k: nat)
    requires IsReport(missing, base, k) && k <= 256
    ensures var enc := ChooseEnc(missing, base);
      && (enc == LIST ==> 2 * |missing| < BitmapBytes(missing, base) <= 32)
      && (enc == BITMAP ==> BitmapBytes(missing, base) <= 2 * |missing| && BitmapBytes(missing, base) <= 32)
      && (enc == COMPLETE <==> missing == [])
  {
    RelMaxTop(missing, base, k, |missing|);
  }

  lemma {:induction false} RelMaxTop(missing: seq<nat>, base: nat, k: nat, n: nat)
    requires IsReport(missing, base, k) && n <= |missing|
    ensures RelMax(missing, base, n) < k || RelMax(missing, base, n) == 0
  {
    if n > 0 {
      RelMaxTop(missing, base, k, n - 1);
    }
  }

  // ----- what is refused and what is chosen, without naming either

  /** A body is turned away only for having more entries than there is room for. */
  lemma RefusedForRoom(enc: nat, body: seq<byte>, base: nat, cap: nat)
    requires enc == 0 || enc == 1
    ensures DecodeBody(enc, body, base, cap) == None
            <==> (if enc == 1 then |body| / 2 else BitsSet(body, 8 * |body|)) > cap
  {
    hide FromBitmap, BitAt;
    BitmapEntries(body, base, 8 * |body|);
  }

  /** Bits set among the first t. */
  function BitsSet(body: seq<byte>, t: nat): nat
    requires t <= 8 * |body|
  {
    if t == 0 then 0 else BitsSet(body, t - 1) + if BitAt(body, t - 1) then 1 else 0
  }

  lemma {:induction false} BitmapEntries(body: seq<byte>, base: nat, t: nat)
    requires t <= 8 * |body|
    ensures |FromBitmap(body, base, t)| == BitsSet(body, t)
  {
    hide BitAt;
    if t > 0 {
      BitmapEntries(body, base, t - 1);
    }
  }

  // ----- the layout on the air

  /** The bitmap of one chunk: zero bytes, then a byte with the bit of its place, least significant first. */
  lemma OneChunkBitmap(base: nat, t: nat)
    requires t < 128
    ensures EncodeBody(0, [base + t], base, 255) == Some(seq(t / 8, _ => 0) + [[1, 2, 4, 8, 16, 32, 64, 128][t % 8]])
  {
    hide SetBit;
    BitValue(t % 8);
    var missing := [base + t];
    assert missing[..0] == [];
    assert RelMax(missing, base, 1) == t by {
      assert RelMax(missing, base, 0) == 0;
    }
    assert BitmapBody(missing, base, t / 8 + 1, 0) == seq(t / 8 + 1, _ => 0);
    assert BitmapBody(missing, base, t / 8 + 1, 1) == seq(t / 8, _ => 0) + [SetBit(0, t % 8)];
  }

  lemma BitValue(i: nat)
    requires i < 8
    ensures SetBit(0, i) as int == [1, 2, 4, 8, 16, 32, 64, 128][i]
  {
  }

  /** Entry i of a list is two bytes, the low one first. */
  lemma {:induction false} ListEntry(missing: seq<nat>, n: nat, i: nat)
    requires i < n <= |missing| && missing[i] < 0x1_0000
    ensures (ListBody(missing, n)[2 * i] as int) + 256 * (ListBody(missing, n)[2 * i + 1] as int) == missing[i]
  {
    if i < n - 1 {
      ListEntry(missing, n - 1, i);
    }
  }

  /** A list on the air, two bytes to each chunk number; a complete block needs no body. */
  lemma ListOnAir(missing: seq<nat>, base: nat, i: nat)
    requires (forall j :: 0 <= j < |missing| ==> base <= missing[j] < 0x1_0000) && 2 * |missing| <= 255 && i < |missing|
    ensures var r := EncodeBody(1, missing, base, 255);
      && r.Some? && |r.value| == 2 * |missing|
      && (r.value[2 * i] as int) + 256 * (r.value[2 * i + 1] as int) == missing[i]
    ensures EncodeBody(2, [], base, 255) == Some([]) && ChooseEnc([], base) == 2
    ensures ChooseEnc(missing, base) in {0, 1}
  {
    ListEntry(missing, |missing|, i);
  }
}
