/** Authenticating frames: which ones carry a tag, what it covers, and what a receiver accepts. */
module Sealing {
  import opened Wrappers
  import opened Bytes
  import opened Cmac

  const MAC_LEN: nat := 4
  const VERSION: nat := 0

  const META: nat := 0x01
  const DATA: nat := 0x02
  const IDENT: nat := 0x09
  const PARITY: nat := 0x0A
  const ABORT: nat := 0x0B

  datatype Outcome = Length(n: nat) | ArgError | NoSupport

  /** loraitp_frame_type: the low five bits of the control byte. */
  function FrameType(frame: seq<byte>): Outcome {
    if |frame| < 2 then ArgError
    else if frame[0] / 32 != VERSION then NoSupport
    else Length(frame[0] % 32)
  }

  /** loraitp_frame_is_authenticated: control frames always, DATA and PARITY when asked for, IDENT never. */
  predicate IsAuthenticated(t: nat, macData: bool) {
    if t == DATA || t == PARITY then macData else META <= t <= ABORT && t != IDENT
  }

  /** mac_nonce: a META is the frame that delivers the nonce, so it is authenticated without one. */
  function MacNonce(t: nat, nonce: seq<byte>): seq<byte> {
    if t == META then [0, 0, 0, 0] else nonce
  }

  /** The tag of a frame of type t. */
  function Tag(E: Block -> Block, t: nat, nonce: seq<byte>, frame: seq<byte>): (tag: seq<byte>)
    ensures |tag| == MAC_LEN
  {
    Rfc4493(E, MacNonce(t, nonce) + frame)[..MAC_LEN]
  }

  /** A frame that has to carry a tag. */
  predicate Protected(E: Option<Block -> Block>, frame: seq<byte>, macData: bool) {
    E.Some? && FrameType(frame).Length? && IsAuthenticated(FrameType(frame).n, macData)
  }

  /** What a receiver makes of the bytes it heard: the length of the frame without its tag, or an error. */
  function Opened(E: Option<Block -> Block>, nonce: seq<byte>, macData: bool, bytes: seq<byte>): Outcome {
    if E.None? then Length(|bytes|)
    else if !FrameType(bytes).Length? then FrameType(bytes)
    else if !IsAuthenticated(FrameType(bytes).n, macData) then Length(|bytes|)
    else if |bytes| < MAC_LEN + 2 then ArgError
    else
      var body := |bytes| - MAC_LEN;
      if bytes[body..] == Tag(E.value, FrameType(bytes).n, nonce, bytes[..body]) then Length(body) else ArgError
  }

  /** loraitp_seal: the tag goes behind the frame, or nothing is written. */
  method Seal(E: Option<Block -> Block>, nonce: seq<byte>, macData: bool, buf: array<byte>, len: nat, cap: nat)
    returns (r: Outcome)
    requires len <= cap <= buf.Length
    modifies buf
    ensures var frame := old(buf[..len]);
      && (E.None? ==> r == Length(len))
      && (E.Some? && !FrameType(frame).Length? ==> r == FrameType(frame))
      && (E.Some? && FrameType(frame).Length? && !Protected(E, frame, macData) ==> r == Length(len))
      && (Protected(E, frame, macData) ==> r == if len + MAC_LEN > cap then ArgError else Length(len + MAC_LEN))
      && (Protected(E, frame, macData) && len + MAC_LEN <= cap ==>
            buf[..len + MAC_LEN] == frame + Tag(E.value, FrameType(frame).n, nonce, frame)
            && buf[len + MAC_LEN..] == old(buf[len + MAC_LEN..]))
      && (!(Protected(E, frame, macData) && len + MAC_LEN <= cap) ==> buf[..] == old(buf[..]))
  {
    hide Rfc4493;
    if E.None? {
      return Length(len);
    }
    var frame := buf[..len];
    var t := FrameType(frame);
    if !t.Length? {
      return t;
    }
    if !IsAuthenticated(t.n, macData) {
      return Length(len);
    }
    if len + MAC_LEN > cap {
      return ArgError;
    }
    var tag := ComputeCmac(E.value, MacNonce(t.n, nonce), frame, MAC_LEN);
    for i := 0 to MAC_LEN
      invariant buf[..len] == frame && buf[len..len + i] == tag[..i]
      invariant buf[len + MAC_LEN..] == old(buf[len + MAC_LEN..])
    {
      buf[len + i] := tag[i];
    }
    assert buf[..len + MAC_LEN] == buf[..len] + buf[len..len + MAC_LEN];
    return Length(len + MAC_LEN);
  }

  function Or(a: byte, b: byte): byte {
    ((a as bv8) | (b as bv8)) as int
  }

  lemma OrZero(a: byte, b: byte)
    ensures Or(a, b) == 0 <==> a == 0 && b == 0
  {
    OrZeroBits(a as bv8, b as bv8);
    ZeroBits(a);
    ZeroBits(b);
    BitsByte((a as bv8) | (b as bv8));
  }

  lemma OrZeroBits(v: bv8, w: bv8)
    ensures v | w == 0 <==> v == 0 && w == 0
  {
  }

  lemma ZeroBits(a: byte)
    ensures a as bv8 == 0 <==> a == 0
  {
    if a as bv8 == 0 {
      SameBits(a, 0);
    }
  }

  /** loraitp_unseal, with its constant-time comparison. */
  method Unseal(E: Option<Block -> Block>, nonce: seq<byte>, macData: bool, bytes: seq<byte>) returns (r: Outcome)
    ensures r == Opened(E, nonce, macData, bytes)
  {
    hide Rfc4493, Or, Xor;
    if E.None? {
      return Length(|bytes|);
    }
    var t := FrameType(bytes);
    if !t.Length? {
      return t;
    }
    if !IsAuthenticated(t.n, macData) {
      return Length(|bytes|);
    }
    if |bytes| < MAC_LEN + 2 {
      return ArgError;
    }
    var body := |bytes| - MAC_LEN;
    var want := ComputeCmac(E.value, MacNonce(t.n, nonce), bytes[..body], MAC_LEN);
    var diff: byte := 0;
    for i := 0 to MAC_LEN
      invariant diff == 0 <==> bytes[body..body + i] == want[..i]
    {
      OrZero(diff, Xor(bytes[body + i], want[i]));
      XorIsZero(bytes[body + i], want[i]);
      assert bytes[body..body + (i + 1)] == bytes[body..body + i] + [bytes[body + i]];
      assert want[..i + 1] == want[..i] + [want[i]];
      diff := Or(diff, Xor(bytes[body + i], want[i]));
    }
    assert bytes[body..] == bytes[body..body + MAC_LEN] && want[..MAC_LEN] == want;
    r := if diff != 0 then ArgError else Length(body);
  }

  /** Unsealing a sealed frame gives back the length of the original, for every frame type and any block function. */
  lemma UnsealSealed(E: Option<Block -> Block>, nonce: seq<byte>, macData: bool, frame: seq<byte>)
    requires FrameType(frame).Length?
    ensures var sealed := if Protected(E, frame, macData)
                          then frame + Tag(E.value, FrameType(frame).n, nonce, frame) else frame;
      Opened(E, nonce, macData, sealed) == Length(|frame|)
  {
    hide Rfc4493;
    if Protected(E, frame, macData) {
      var sealed := frame + Tag(E.value, FrameType(frame).n, nonce, frame);
      assert sealed[..|frame|] == frame && sealed[|frame|..] == Tag(E.value, FrameType(frame).n, nonce, frame);
    }
  }

  /** Of all four-byte endings of a protected frame exactly one is accepted. */
  lemma OneTagAccepted(E: Option<Block -> Block>, nonce: seq<byte>, macData: bool, frame: seq<byte>, end: seq<byte>)
    requires Protected(E, frame, macData) && |end| == MAC_LEN
    ensures Opened(E, nonce, macData, frame + end) == Length(|frame|)
            <==> end == Tag(E.value, FrameType(frame).n, nonce, frame)
  {
    hide Rfc4493;
    assert (frame + end)[..|frame|] == frame && (frame + end)[|frame|..] == end;
  }

  // ----- which frames, and under which nonce

  /**
    Of all frame types, META, EOB, STAT, FIN, FINACK, PROBE, PROBEACK and ABORT always carry a tag, DATA and
    PARITY when the session asks for it, and nothing else does.
  */
  lemma WhichCarryTags(t: nat, macData: bool)
    ensures IsAuthenticated(t, macData)
            <==> t in {0x01, 0x03, 0x04, 0x05, 0x06, 0x07, 0x08, 0x0B} || (t in {0x02, 0x0A} && macData)
  {
    assert t in {0x01, 0x03, 0x04, 0x05, 0x06, 0x07, 0x08, 0x0B}
        <==> t == 1 || t == 3 || t == 4 || t == 5 || t == 6 || t == 7 || t == 8 || t == 11;
  }

  /** A META can be opened by a receiver that does not know the session's nonce yet. */
  lemma MetaNeedsNoNonce(E: Block -> Block, nonce: seq<byte>, other: seq<byte>, macData: bool, frame: seq<byte>)
    requires FrameType(frame) == Length(0x01)
    ensures Opened(Some(E), other, macData, frame + Tag(E, 0x01, nonce, frame)) == Length(|frame|)
  {
    hide Rfc4493;
    var tag := Tag(E, 0x01, nonce, frame);
    assert (frame + tag)[..|frame|] == frame && (frame + tag)[|frame|..] == tag;
    assert (frame + tag)[0] == frame[0];
  }

  /** Every other tag is over the nonce of its own session. */
  lemma OthersAreSalted(E: Block -> Block, t: nat, nonce: seq<byte>, frame: seq<byte>)
    requires t != 0x01
    ensures Tag(E, t, nonce, frame) == Rfc4493(E, nonce + frame)[..4]
    ensures Tag(E, 0x01, nonce, frame) == Rfc4493(E, [0, 0, 0, 0] + frame)[..4]
  {
    hide Rfc4493;
  }
}
