/** The META frame on the wire: its fields, little-endian, and the list of tagged values behind them. */
module MetaFrame {
  import opened Wrappers
  import opened Bytes

  // ----- little-endian numbers

  function Le(v: nat, n: nat): (p: seq<byte>)
    ensures |p| == n
  {
    if n == 0 then [] else [v % 256] + Le(v / 256, n - 1)
  }

  function Number(p: seq<byte>): nat {
    if |p| == 0 then 0 else p[0] + 256 * Number(p[1..])
  }

  function Limit(n: nat): (l: nat)
    ensures l > 0
  {
    if n == 0 then 1 else 256 * Limit(n - 1)
  }

  lemma {:induction false} NumberOfLe(v: nat, n: nat)
    requires v < Limit(n)
    ensures Number(Le(v, n)) == v
  {
    if n > 0 {
      NumberOfLe(v / 256, n - 1);
    }
  }

  lemma {:induction false} LeOfNumber(p: seq<byte>)
    ensures Number(p) < Limit(|p|) && Le(Number(p), |p|) == p
  {
    if |p| > 0 {
      LeOfNumber(p[1..]);
      assert Number(p) % 256 == p[0] && Number(p) / 256 == Number(p[1..]);
    }
  }

  // ----- the frame

  datatype Tlv = Tlv(tag: byte, value: seq<byte>)

  datatype Announcement = Announcement(sid: nat, imgId: nat, layer: nat, imgLen: nat, chunk: nat, codec: nat, crc: nat,
                                       width: nat, height: nat, flags: nat, block: nat, nParity: nat,
                                       nonce: seq<byte>, tlvs: seq<Tlv>)

  const HDR: nat := 26
  const MAX_TLV: nat := 8
  const META: byte := 0x01

  /** What the fields can hold, a chunk that is not empty, and a block of 1 to 256 chunks. */
  ghost predicate InRange(a: Announcement) {
    && a.sid < Limit(1) && a.imgId < Limit(2) && a.layer < Limit(1) && a.imgLen < Limit(3)
    && 1 <= a.chunk < Limit(1) && a.codec < Limit(1) && a.crc < Limit(4)
    && a.width < Limit(2) && a.height < Limit(2) && a.flags < Limit(1) && 1 <= a.block <= 256 && a.nParity < Limit(2)
    && |a.nonce| == 4 && TlvsFit(a.tlvs)
  }

  /** At most eight values of at most 255 bytes. */
  ghost predicate TlvsFit(tlvs: seq<Tlv>) {
    |tlvs| <= MAX_TLV && forall i :: 0 <= i < |tlvs| ==> |tlvs[i].value| <= 255
  }

  /** A block of 256 goes out as zero. */
  function BlockByte(block: nat): nat {
    if block == 256 then 0 else block % 256
  }

  /** Bytes 0 to 9, and 10 to 25. */
  function Front(a: Announcement): (p: seq<byte>)
    ensures |p| == 10
  {
    [META] + Le(a.sid, 1) + Le(a.imgId, 2) + Le(a.layer, 1) + Le(a.imgLen, 3) + Le(a.chunk, 1) + Le(a.codec, 1)
  }

  function Back(a: Announcement): (p: seq<byte>)
    ensures |p| == 12 + |a.nonce|
  {
    Le(a.crc, 4) + Le(a.width, 2) + Le(a.height, 2) + Le(a.flags, 1) + Le(BlockByte(a.block), 1) + Le(a.nParity, 2)
    + a.nonce
  }

  function Header(a: Announcement): (p: seq<byte>)
    ensures |p| == 22 + |a.nonce|
  {
    Front(a) + Back(a)
  }

  function TlvBytes(t: Tlv): (p: seq<byte>)
    ensures |p| == 2 + |t.value|
  {
    [t.tag, |t.value| % 256] + t.value
  }

  function AllTlvBytes(tlvs: seq<Tlv>): seq<byte> {
    if |tlvs| == 0 then [] else AllTlvBytes(tlvs[..|tlvs| - 1]) + TlvBytes(tlvs[|tlvs| - 1])
  }

  function Frame(a: Announcement): seq<byte> {
    Header(a) + AllTlvBytes(a.tlvs)
  }

  // ----- encoding

  /** Bytes behind what is already written. */
  method PutBytes(out: array<byte>, at: nat, data: seq<byte>, ghost done: seq<byte>) returns (next: nat)
    requires at + |data| <= out.Length && out[..at] == done
    modifies out
    ensures next == at + |data| && out[..next] == done + data
    ensures forall x :: next <= x < out.Length ==> out[x] == old(out[x])
  {
    for i := 0 to |data|
      invariant forall x :: 0 <= x < at ==> out[x] == done[x]
      invariant forall x :: 0 <= x < i ==> out[at + x] == data[x]
      invariant forall x :: at + |data| <= x < out.Length ==> out[x] == old(out[x])
    {
      out[at + i] := data[i];
    }
    next := at + |data|;
    assert out[at..next] == data && out[..at] == done;
  }

  method PutHeader(a: Announcement, out: array<byte>)
    requires |a.nonce| == 4 && HDR <= out.Length
    modifies out
    ensures out[..HDR] == Header(a) && forall x :: HDR <= x < out.Length ==> out[x] == old(out[x])
  {
    hide Front, Back;
    var o := PutFront(a, out);
    o := PutBack(a, out, o);
  }

  method PutFront(a: Announcement, out: array<byte>) returns (o: nat)
    requires HDR <= out.Length
    modifies out
    ensures o == 10 && out[..o] == Front(a) && forall x :: o <= x < out.Length ==> out[x] == old(out[x])
  {
    hide Le;
    o := PutBytes(out, 0, [META], []);
    o := PutBytes(out, o, Le(a.sid, 1), out[..o]);
    o := PutBytes(out, o, Le(a.imgId, 2), out[..o]);
    o := PutBytes(out, o, Le(a.layer, 1), out[..o]);
    o := PutBytes(out, o, Le(a.imgLen, 3), out[..o]);
    o := PutBytes(out, o, Le(a.chunk, 1), out[..o]);
    o := PutBytes(out, o, Le(a.codec, 1), out[..o]);
  }

  method PutBack(a: Announcement, out: array<byte>, at: nat) returns (o: nat)
    requires |a.nonce| == 4 && at + 16 <= out.Length
    modifies out
    ensures o == at + 16 && out[..o] == old(out[..at]) + Back(a)
    ensures forall x :: o <= x < out.Length ==> out[x] == old(out[x])
  {
    hide Le;
    ghost var front := out[..at];
    o := PutBytes(out, at, Le(a.crc, 4), out[..at]);
    o := PutBytes(out, o, Le(a.width, 2), out[..o]);
    o := PutBytes(out, o, Le(a.height, 2), out[..o]);
    o := PutBytes(out, o, Le(a.flags, 1), out[..o]);
    o := PutBytes(out, o, Le(BlockByte(a.block), 1), out[..o]);
    o := PutBytes(out, o, Le(a.nParity, 2), out[..o]);
    o := PutBytes(out, o, a.nonce, out[..o]);
    assert out[..o] == front + Back(a);
  }

  lemma {:induction false} TlvsGrow(tlvs: seq<Tlv>, i: nat)
    requires i <= |tlvs|
    ensures |AllTlvBytes(tlvs[..i])| <= |AllTlvBytes(tlvs)|
    decreases |tlvs|
  {
    hide TlvBytes;
    var n := |tlvs| - 1;
    if i <= n {
      TlvsGrow(tlvs[..n], i);
      assert tlvs[..n][..i] == tlvs[..i];
    } else {
      assert tlvs[..i] == tlvs;
    }
  }

  lemma NextTlv(tlvs: seq<Tlv>, i: nat)
    requires i < |tlvs|
    ensures AllTlvBytes(tlvs[..i + 1]) == AllTlvBytes(tlvs[..i]) + TlvBytes(tlvs[i])
  {
    hide TlvBytes;
    assert tlvs[..i + 1][..i] == tlvs[..i];
  }

  /** The sizing loop. */
  method CountNeed(tlvs: seq<Tlv>) returns (need: nat)
    ensures need == HDR + |AllTlvBytes(tlvs)|
  {
    hide AllTlvBytes, TlvBytes;
    need := HDR;
    NoTlvs(tlvs);
    for i := 0 to |tlvs|
      invariant need == HDR + |AllTlvBytes(tlvs[..i])|
    {
      NextTlv(tlvs, i);
      need := need + 2 + |tlvs[i].value|;
    }
    assert tlvs[..|tlvs|] == tlvs;
  }

  lemma NoTlvs(tlvs: seq<Tlv>)
    ensures AllTlvBytes(tlvs[..0]) == []
  {
  }

  /** loraitp_encode_meta: the whole frame, or nothing when it does not fit. */
  method EncodeMeta(a: Announcement, out: array<byte>) returns (len: int)
    requires |a.nonce| == 4 && TlvsFit(a.tlvs)
    modifies out
    ensures len == if |Frame(a)| <= out.Length then |Frame(a)| else -1
    ensures len >= 0 ==> out[..len] == Frame(a) && forall x :: len <= x < out.Length ==> out[x] == old(out[x])
    ensures len < 0 ==> out[..] == old(out[..])
  {
    hide Header, Le, AllTlvBytes, TlvBytes;
    var need := CountNeed(a.tlvs);
    if out.Length < need {
      return -1;
    }
    PutHeader(a, out);
    var o := HDR;
    NoTlvs(a.tlvs);
    for i := 0 to |a.tlvs|
      invariant o == HDR + |AllTlvBytes(a.tlvs[..i])|
      invariant o <= need && out[..o] == Header(a) + AllTlvBytes(a.tlvs[..i])
      invariant forall x :: need <= x < out.Length ==> out[x] == old(out[x])
    {
      TlvsGrow(a.tlvs, i + 1);
      NextTlv(a.tlvs, i);
      ghost var done := AllTlvBytes(a.tlvs[..i]);
      o := PutBytes(out, o, TlvBytes(a.tlvs[i]), out[..o]);
      assert Header(a) + done + TlvBytes(a.tlvs[i]) == Header(a) + (done + TlvBytes(a.tlvs[i]));
    }
    assert a.tlvs[..|a.tlvs|] == a.tlvs;
    return o;
  }

  // ----- decoding

  /** The TLV loop from place i, with n values read already; values that overrun the frame are an error. */
  function ReadTlvs(buf: seq<byte>, i: nat, n: nat): Option<seq<Tlv>>
    decreases |buf| - i
  {
    if i + 2 > |buf| || n >= MAX_TLV then Some([])
    else if i + 2 + buf[i + 1] > |buf| then None
    else
      match ReadTlvs(buf, i + 2 + buf[i + 1], n + 1)
      case None => None
      case Some(rest) => Some([Tlv(buf[i], buf[i + 2..i + 2 + buf[i + 1]])] + rest)
  }

  function Fields(buf: seq<byte>, tlvs: seq<Tlv>): Announcement
    requires |buf| >= HDR
  {
    Announcement(Number(buf[1..2]), Number(buf[2..4]), Number(buf[4..5]), Number(buf[5..8]), Number(buf[8..9]),
                 Number(buf[9..10]), Number(buf[10..14]), Number(buf[14..16]), Number(buf[16..18]), Number(buf[18..19]),
                 if buf[19] != 0 then Number(buf[19..20]) else 256, Number(buf[20..22]), buf[22..26], tlvs)
  }

  /** loraitp_decode_meta, for any bytes at all. */
  function Decode(buf: seq<byte>): Option<Announcement> {
    if |buf| < HDR || buf[8] == 0 then None
    else
      match ReadTlvs(buf, HDR, 0)
      case None => None
      case Some(tlvs) => Some(Fields(buf, tlvs))
  }

  method DecodeMeta(buf: seq<byte>) returns (r: Option<Announcement>)
    ensures r == Decode(buf)
  {
    hide Fields;
    if |buf| < HDR {
      return None;
    }
    if buf[8] == 0 {
      return None;
    }
    var tlvs: seq<Tlv> := [];
    var i := HDR;
    PrependNothing(ReadTlvs(buf, HDR, 0));
    while i + 2 <= |buf| && |tlvs| < MAX_TLV
      invariant i >= HDR && |tlvs| <= MAX_TLV
      invariant ReadTlvs(buf, HDR, 0) == Prepend(tlvs, ReadTlvs(buf, i, |tlvs|))
      decreases |buf| - i
    {
      var t, l := buf[i], buf[i + 1];
      if i + 2 + l > |buf| {
        return None;
      }
      PrependMore(tlvs, Tlv(t, buf[i + 2..i + 2 + l]), ReadTlvs(buf, i + 2 + l, |tlvs| + 1));
      tlvs := tlvs + [Tlv(t, buf[i + 2..i + 2 + l])];
      i := i + 2 + l;
    }
    PrependEnd(tlvs);
    return Some(Fields(buf, tlvs));
  }

  function Prepend(a: seq<Tlv>, r: Option<seq<Tlv>>): Option<seq<Tlv>> {
    match r
    case None => None
    case Some(b) => Some(a + b)
  }

  lemma PrependNothing(r: Option<seq<Tlv>>)
    ensures Prepend([], r) == r
  {
    if r.Some? {
      assert [] + r.value == r.value;
    }
  }

  lemma PrependEnd(a: seq<Tlv>)
    ensures Prepend(a, Some([])) == Some(a)
  {
    assert a + [] == a;
  }

  lemma PrependMore(a: seq<Tlv>, t: Tlv, r: Option<seq<Tlv>>)
    ensures Prepend(a, Prepend([t], r)) == Prepend(a + [t], r)
  {
    if r.Some? {
      assert a + ([t] + r.value) == a + [t] + r.value;
    }
  }

  // ----- round trip

  /** From the front. */
  function TlvsFrom(tlvs: seq<Tlv>): seq<byte> {
    if |tlvs| == 0 then [] else TlvBytes(tlvs[0]) + TlvsFrom(tlvs[1..])
  }

  lemma {:induction false} SameTlvBytes(tlvs: seq<Tlv>)
    ensures AllTlvBytes(tlvs) == TlvsFrom(tlvs)
  {
    hide TlvBytes;
    if |tlvs| > 0 {
      var n := |tlvs| - 1;
      SameTlvBytes(tlvs[..n]);
      SnocTlv(tlvs[..n], tlvs[n]);
      assert tlvs[..n] + [tlvs[n]] == tlvs;
    }
  }

  lemma {:induction false} SnocTlv(tlvs: seq<Tlv>, t: Tlv)
    ensures TlvsFrom(tlvs + [t]) == TlvsFrom(tlvs) + TlvBytes(t)
  {
    hide TlvBytes;
    if |tlvs| == 0 {
      assert (tlvs + [t])[1..] == [];
      assert TlvsFrom(tlvs + [t]) == TlvBytes(t) + [];
    } else {
      SnocTlv(tlvs[1..], t);
      assert (tlvs + [t])[1..] == tlvs[1..] + [t];
    }
  }

  /** One value read off. */
  lemma ReadOne(head: seq<byte>, t: Tlv, rest: seq<byte>, n: nat)
    requires |t.value| <= 255 && n < MAX_TLV
    ensures ReadTlvs(head + (TlvBytes(t) + rest), |head|, n)
            == Prepend([t], ReadTlvs(head + (TlvBytes(t) + rest), |head + TlvBytes(t)|, n + 1))
  {
    var buf, i := head + (TlvBytes(t) + rest), |head|;
    assert buf[i] == t.tag && buf[i + 1] == |t.value|;
    assert buf[i + 2..i + 2 + |t.value|] == t.value;
  }

  lemma {:induction false} TlvsBack(head: seq<byte>, tlvs: seq<Tlv>, n: nat)
    requires n + |tlvs| <= MAX_TLV && forall i :: 0 <= i < |tlvs| ==> |tlvs[i].value| <= 255
    ensures ReadTlvs(head + TlvsFrom(tlvs), |head|, n) == Some(tlvs)
    decreases |tlvs|
  {
    hide TlvBytes;
    if |tlvs| > 0 {
      var t, rest := tlvs[0], TlvsFrom(tlvs[1..]);
      ReadOne(head, t, rest, n);
      hide ReadTlvs;
      assert head + TlvBytes(t) + rest == head + (TlvBytes(t) + rest);
      TlvsBack(head + TlvBytes(t), tlvs[1..], n + 1);
      assert [t] + tlvs[1..] == tlvs;
    }
  }

  /** Where each field stands in the header. */
  lemma HeaderFields(a: Announcement, rest: seq<byte>)
    requires |a.nonce| == 4
    ensures var f := Header(a) + rest;
      && f[1..2] == Le(a.sid, 1) && f[2..4] == Le(a.imgId, 2) && f[4..5] == Le(a.layer, 1) && f[5..8] == Le(a.imgLen, 3)
      && f[8..9] == Le(a.chunk, 1) && f[9..10] == Le(a.codec, 1) && f[10..14] == Le(a.crc, 4)
      && f[14..16] == Le(a.width, 2) && f[16..18] == Le(a.height, 2) && f[18..19] == Le(a.flags, 1)
      && f[19..20] == Le(BlockByte(a.block), 1) && f[20..22] == Le(a.nParity, 2) && f[22..26] == a.nonce
  {
    hide Le;
  }

  lemma SingleByte(p: seq<byte>, k: nat)
    requires k < |p|
    ensures Number(p[k..k + 1]) == p[k]
  {
    assert p[k..k + 1][1..] == [];
  }

  /** Every in-range announcement, with all its tagged values, is decoded from its frame exactly. */
  lemma MetaRoundTrip(a: Announcement)
    requires InRange(a)
    ensures Decode(Frame(a)) == Some(a)
  {
    hide Le, Number, Header, Limit, Fields, ReadTlvs;
    SameTlvBytes(a.tlvs);
    TlvsBack(Header(a), a.tlvs, 0);
    FieldsBack(a);
  }

  lemma FieldsBack(a: Announcement)
    requires InRange(a)
    ensures Fields(Frame(a), a.tlvs) == a && Frame(a)[8] != 0
  {
    hide Le, Number, Header, Limit;
    var f := Frame(a);
    HeaderFields(a, AllTlvBytes(a.tlvs));
    NumberOfLe(a.sid, 1);
    NumberOfLe(a.imgId, 2);
    NumberOfLe(a.layer, 1);
    NumberOfLe(a.imgLen, 3);
    NumberOfLe(a.chunk, 1);
    NumberOfLe(a.codec, 1);
    NumberOfLe(a.crc, 4);
    NumberOfLe(a.width, 2);
    NumberOfLe(a.height, 2);
    NumberOfLe(a.flags, 1);
    NumberOfLe(a.nParity, 2);
    OneByte();
    NumberOfLe(BlockByte(a.block), 1);
    SingleByte(f, 8);
    SingleByte(f, 19);
  }

  lemma OneByte()
    ensures Limit(1) == 256
  {
  }

  /** Whatever bytes are accepted, encoding what was understood gives them back, up to where reading stopped. */
  lemma DecodedReencodes(buf: seq<byte>)
    requires Decode(buf).Some?
    ensures var f := Frame(Decode(buf).value); 1 <= |f| <= |buf| && f[1..] == buf[1..|f|]
  {
    hide Le, Number, Header, ReadTlvs;
    var tlvs := ReadTlvs(buf, HDR, 0).value;
    TlvsAreThere(buf, HDR, 0);
    SameTlvBytes(tlvs);
    HeaderIsThere(buf, tlvs);
    var h, t := Header(Fields(buf, tlvs)), TlvsFrom(tlvs);
    assert buf[1..HDR + |t|] == buf[1..HDR] + buf[HDR..HDR + |t|];
    assert (h + t)[1..] == h[1..] + t;
  }

  lemma {:induction false} TlvsAreThere(buf: seq<byte>, i: nat, n: nat)
    requires i <= |buf| && ReadTlvs(buf, i, n).Some?
    ensures var t := TlvsFrom(ReadTlvs(buf, i, n).value); i + |t| <= |buf| && buf[i..i + |t|] == t
    decreases |buf| - i
  {
    if i + 2 <= |buf| && n < MAX_TLV {
      var l := buf[i + 1];
      TlvsAreThere(buf, i + 2 + l, n + 1);
      var rest := ReadTlvs(buf, i + 2 + l, n + 1).value;
      var head := Tlv(buf[i], buf[i + 2..i + 2 + l]);
      assert ([head] + rest)[1..] == rest;
      assert TlvBytes(head) == buf[i..i + 2 + l];
    }
  }

  lemma HeaderIsThere(buf: seq<byte>, tlvs: seq<Tlv>)
    requires |buf| >= HDR
    ensures Header(Fields(buf, tlvs))[1..] == buf[1..HDR]
  {
    hide Le, Number;
    LeOfNumber(buf[1..2]);
    LeOfNumber(buf[2..4]);
    LeOfNumber(buf[4..5]);
    LeOfNumber(buf[5..8]);
    LeOfNumber(buf[8..9]);
    LeOfNumber(buf[9..10]);
    LeOfNumber(buf[10..14]);
    LeOfNumber(buf[14..16]);
    LeOfNumber(buf[16..18]);
    LeOfNumber(buf[18..19]);
    LeOfNumber(buf[20..22]);
    BlockIsThere(buf);
    Cut(buf);
  }

  lemma BlockIsThere(buf: seq<byte>)
    requires |buf| >= HDR
    ensures Le(BlockByte(if buf[19] != 0 then Number(buf[19..20]) else 256), 1) == buf[19..20]
  {
    SingleByte(buf, 19);
  }

  lemma Cut(buf: seq<byte>)
    requires |buf| >= HDR
    ensures buf[1..HDR] == buf[1..2] + buf[2..4] + buf[4..5] + buf[5..8] + buf[8..9] + buf[9..10] + buf[10..14]
                           + buf[14..16] + buf[16..18] + buf[18..19] + buf[19..20] + buf[20..22] + buf[22..26]
  {
  }

  // ----- exactly what is accepted

  /** From place i, with n values before, stand these values and no room to read another: eight are the most. */
  ghost predicate StandAt(buf: seq<byte>, i: nat, n: nat, tlvs: seq<Tlv>) {
    var end := i + |TlvsFrom(tlvs)|;
    && n + |tlvs| <= 8 && (forall t :: 0 <= t < |tlvs| ==> |tlvs[t].value| <= 255)
    && end <= |buf| && buf[i..end] == TlvsFrom(tlvs)
    && (n + |tlvs| == 8 || end + 2 > |buf|)
  }

  lemma {:induction false} ReadStands(buf: seq<byte>, i: nat, n: nat)
    requires i <= |buf| && n <= 8 && ReadTlvs(buf, i, n).Some?
    ensures StandAt(buf, i, n, ReadTlvs(buf, i, n).value)
    decreases |buf| - i
  {
    if i + 2 <= |buf| && n < MAX_TLV {
      var next := i + 2 + buf[i + 1];
      ReadStands(buf, next, n + 1);
      var rest := ReadTlvs(buf, next, n + 1).value;
      var head := Tlv(buf[i], buf[i + 2..next]);
      assert ([head] + rest)[1..] == rest;
      assert TlvBytes(head) == buf[i..next];
      assert buf[i..next + |TlvsFrom(rest)|] == buf[i..next] + buf[next..next + |TlvsFrom(rest)|];
    }
  }

  lemma {:induction false} StandsRead(buf: seq<byte>, i: nat, n: nat, tlvs: seq<Tlv>)
    requires i <= |buf| && StandAt(buf, i, n, tlvs)
    ensures ReadTlvs(buf, i, n) == Some(tlvs)
    decreases |tlvs|
  {
    if |tlvs| > 0 {
      var t, rest := tlvs[0], TlvsFrom(tlvs[1..]);
      var end := i + |TlvsFrom(tlvs)|;
      var next := i + |TlvBytes(t)|;
      assert buf[i..end][..|TlvBytes(t)|] == TlvBytes(t) && buf[i..end][|TlvBytes(t)|..] == rest;
      assert buf[i..next] == TlvBytes(t) && buf[next..end] == rest;
      assert buf[i] == buf[i..next][0] && buf[i + 1] == buf[i..next][1];
      assert buf[i + 2..next] == buf[i..next][2..];
      StandsRead(buf, next, n + 1, tlvs[1..]);
      assert [t] + tlvs[1..] == tlvs;
    }
  }

  /** A META is accepted exactly when it has a whole header, a chunk size, and whole values behind it, and then with those. */
  lemma AcceptedExactly(buf: seq<byte>)
    ensures Decode(buf).Some? <==> |buf| >= 26 && buf[8] != 0 && exists tlvs :: StandAt(buf, 26, 0, tlvs)
    ensures Decode(buf).Some? ==> StandAt(buf, 26, 0, Decode(buf).value.tlvs)
  {
    hide StandAt, ReadTlvs, Number;
    if |buf| >= HDR {
      if ReadTlvs(buf, HDR, 0).Some? {
        ReadStands(buf, HDR, 0);
      }
      forall tlvs | StandAt(buf, HDR, 0, tlvs) ensures ReadTlvs(buf, HDR, 0).Some? {
        StandsRead(buf, HDR, 0, tlvs);
      }
    }
  }

  // ----- the layout of the frame, offset by offset

  /** A number of two, three or four bytes, the low one first, is what its bytes add up to. */
  lemma LeBytes(v: nat)
    ensures v < 0x100 ==> Le(v, 1)[0] as int == v
    ensures v < 0x1_0000 ==> Le(v, 2)[0] + 0x100 * (Le(v, 2)[1] as int) == v
    ensures v < 0x100_0000 ==> Le(v, 3)[0] + 0x100 * (Le(v, 3)[1] as int) + 0x1_0000 * (Le(v, 3)[2] as int) == v
    ensures v < 0x1_0000_0000 ==>
              Le(v, 4)[0] + 0x100 * (Le(v, 4)[1] as int) + 0x1_0000 * (Le(v, 4)[2] as int)
              + 0x100_0000 * (Le(v, 4)[3] as int) == v
  {
    var a: nat := v / 256;
    var b: nat := a / 256;
    var c: nat := b / 256;
    assert Le(v, 1) == [v % 256];
    assert Le(a, 1) == [a % 256] && Le(b, 1) == [b % 256] && Le(c, 1) == [c % 256];
    assert Le(v, 2) == [v % 256] + Le(a, 1);
    assert Le(a, 2) == [a % 256] + Le(b, 1);
    assert Le(b, 2) == [b % 256] + Le(c, 1);
    assert Le(v, 3) == [v % 256] + Le(a, 2);
    assert Le(a, 3) == [a % 256] + Le(b, 2);
    assert Le(v, 4) == [v % 256] + Le(a, 3);
  }

  /** Where every field of a META stands. */
  lemma MetaLayout(a: Announcement)
    requires InRange(a)
    ensures var f := Frame(a);
      && |f| >= 26 && f[0] == 1 && f[1] as int == a.sid && f[4] as int == a.layer && f[8] as int == a.chunk
      && f[9] as int == a.codec && f[18] as int == a.flags && f[22..26] == a.nonce && f[26..] == AllTlvBytes(a.tlvs)
      && f[19] as int == (if a.block == 256 then 0 else a.block)
      && f[2..4] == Le(a.imgId, 2) && f[5..8] == Le(a.imgLen, 3) && f[10..14] == Le(a.crc, 4)
      && f[14..16] == Le(a.width, 2) && f[16..18] == Le(a.height, 2) && f[20..22] == Le(a.nParity, 2)
  {
    hide Le, AllTlvBytes;
    LeBytes(a.sid);
    LeBytes(a.layer);
    LeBytes(a.chunk);
    LeBytes(a.codec);
    LeBytes(a.flags);
    LeBytes(BlockByte(a.block));
    FrontAt(a);
    BackAt(a);
    var f := Frame(a);
    assert f[..10] == Front(a) && f[10..26] == Back(a);
    hide Front, Back;
    assert f[2..4] == Front(a)[2..4] && f[5..8] == Front(a)[5..8];
    assert f[10..14] == Back(a)[0..4] && f[14..16] == Back(a)[4..6] && f[16..18] == Back(a)[6..8];
    assert f[20..22] == Back(a)[10..12] && f[22..26] == Back(a)[12..16];
    assert f[18] == Back(a)[8] && f[19] == Back(a)[9];
  }

  lemma FrontAt(a: Announcement)
    ensures var p := Front(a);
      && p[0] == 1 && p[1] == Le(a.sid, 1)[0] && p[2..4] == Le(a.imgId, 2) && p[4] == Le(a.layer, 1)[0]
      && p[5..8] == Le(a.imgLen, 3) && p[8] == Le(a.chunk, 1)[0] && p[9] == Le(a.codec, 1)[0]
  {
    hide Le;
  }

  lemma BackAt(a: Announcement)
    requires |a.nonce| == 4
    ensures var p := Back(a);
      && p[0..4] == Le(a.crc, 4) && p[4..6] == Le(a.width, 2) && p[6..8] == Le(a.height, 2) && p[8] == Le(a.flags, 1)[0]
      && p[9] == Le(BlockByte(a.block), 1)[0] && p[10..12] == Le(a.nParity, 2) && p[12..16] == a.nonce
  {
    hide Le;
  }
}
