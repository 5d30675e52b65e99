/** The broadcast sender: every block's source chunks, then its parity, with META sprinkled through. */
module Sender {
  import opened Bytes
  import opened Arithmetic
  import opened Frames
  import opened Image
  import opened Layout
  import opened Erasure
  import opened Tables
  import Fec

  /** What goes over the air.  A STAT carries its encoded body. */
  datatype Packet =
    | MetaP(m: Meta)
    | DataP(id: FrameId, payload: seq<byte>)
    | EobP(block: nat, round: nat)
    | StatP(block: nat, round: nat, enc: nat, body: seq<byte>)
    | FinP
    | FinAckP(status: nat)
    | IdentP

  /** The o-th DATA or PARITY frame of the transfer. */
  ghost function PacketAt(m: Meta, image: seq<byte>, o: nat): Packet
    requires Conforming(m) && o < TotalFrames(m)
  {
    OrdinalInvertsOrder(m, o);
    DataP(IdOfOrdinal(m, o), Payload(m, image, IdOfOrdinal(m, o)))
  }

  const META_EVERY: nat := 16

  /** The first n frames, with a META after every sixteenth. */
  ghost function Sprinkled(m: Meta, image: seq<byte>, n: nat): seq<Packet>
    requires Conforming(m) && n <= TotalFrames(m)
  {
    if n == 0 then []
    else Sprinkled(m, image, n - 1) + [PacketAt(m, image, n - 1)] + if n % META_EVERY == 0 then [MetaP(m)] else []
  }

  /** Everything a broadcast puts on the air. */
  ghost function Broadcast(m: Meta, image: seq<byte>): seq<Packet>
    requires Conforming(m)
  {
    [MetaP(m), MetaP(m), MetaP(m)] + Sprinkled(m, image, TotalFrames(m)) + [FinP, FinP, FinP]
  }

  lemma PacketOfPlace(m: Meta, image: seq<byte>, b: nat, slot: nat)
    requires Conforming(m) && IsPlace(m, b, slot)
    ensures Exists(m, IdAt(m, b, slot)) && Before(m, b) + slot < TotalFrames(m)
    ensures PacketAt(m, image, Before(m, b) + slot) == DataP(IdAt(m, b, slot), Payload(m, image, IdAt(m, b, slot)))
  {
    hide NChunks, NBlocks, BlockK, Quot, Rem, IdAt, Payload, Conforming, Exists, TotalFrames, BlockOf, SlotOf,
         IdOfOrdinal, Ordinal;
    PlaceOrdinal(m, b, slot);
  }

  /** One padded chunk copied into the block buffer. */
  method LoadChunk(m: Meta, image: seq<byte>, i: nat, buf: array<byte>, at: nat)
    requires at + m.chunk <= buf.Length
    modifies buf
    ensures buf[at..at + m.chunk] == PaddedChunk(m, image, i)
    ensures forall x :: 0 <= x < buf.Length && !(at <= x < at + m.chunk) ==> buf[x] == old(buf[x])
  {
    var c := ChunkAt(m, image, i);
    for j := 0 to m.chunk
      invariant forall x :: at <= x < at + j ==> buf[x] == PaddedChunk(m, image, i)[x - at]
      invariant forall x :: 0 <= x < buf.Length && !(at <= x < at + j) ==> buf[x] == old(buf[x])
    {
      buf[at + j] := if j < |c| then c[j] else 0;
    }
  }

  method LoadBlock(m: Meta, image: seq<byte>, b: nat, buf: array<byte>)
    requires BlockK(m, b) * m.chunk <= buf.Length
    modifies buf
    ensures Rows(buf[..], m.chunk, BlockK(m, b)) == BlockData(m, image, b)
  {
    hide BlockK, PaddedChunk, Rows;
    var k := BlockK(m, b);
    for i := 0 to k
      invariant forall p :: 0 <= p < i ==> Rows(buf[..], m.chunk, k)[p] == PaddedChunk(m, image, b * m.block + p)
    {
      RowBounds(i, k, m.chunk);
      ghost var before := buf[..];
      LoadChunk(m, image, b * m.block + i, buf, i * m.chunk);
      RowsUpdate(before, buf[..], m.chunk, k, i);
      RowOf(buf[..], m.chunk, k, i);
    }
  }

  /**
    The broadcast branch of loraitp_send_image, for buffers of the size it checks for.  Without parity the
    encoder refuses the first block, and only the announcement has gone out.  An empty image has no block.
  */
  method SendBroadcast(g: GfTables, m: Meta, image: seq<byte>, blockbuf: array<byte>, paritybuf: array<byte>)
    returns (rc: Fec.Status, sent: seq<Packet>)
    requires g.Valid() && blockbuf != paritybuf && {blockbuf, paritybuf} !! {g.exp, g.log}
    requires (Conforming(m) || Empty(m)) && |image| == m.imgLen
    requires BlockK(m, 0) * m.chunk <= blockbuf.Length && m.nParity * m.chunk <= paritybuf.Length
    modifies g, g.exp, g.log, blockbuf, paritybuf
    ensures Conforming(m) ==> rc == if m.nParity == 0 then Fec.ArgError else Fec.Ok
    ensures Conforming(m) && rc == Fec.Ok ==> sent == Broadcast(m, image)
    ensures rc != Fec.Ok ==> sent == [MetaP(m), MetaP(m), MetaP(m)]
    ensures Empty(m) ==> rc == Fec.Ok && sent == [MetaP(m), MetaP(m), MetaP(m), FinP, FinP, FinP]
  {
    hide Conforming, Empty, NChunks, NBlocks, BlockK, TotalFrames, Sprinkled;
    sent := [MetaP(m), MetaP(m), MetaP(m)];
    var since := 0;
    rc := Fec.Ok;
    SomeBlockUnlessEmpty(m, image);
    for b := 0 to NBlocks(m)
      invariant g.Valid() && rc == Fec.Ok && (b > 0 ==> m.nParity > 0)
      invariant Conforming(m) ==> SentUpTo(m, image, sent, since, Before(m, b))
      invariant Empty(m) ==> sent == [MetaP(m), MetaP(m), MetaP(m)]
    {
      rc, sent, since := SendBlock(g, m, image, b, blockbuf, paritybuf, sent, since);
      if rc != Fec.Ok {
        return;
      }
    }
    if Conforming(m) {
      BlocksCoverEverything(m);
    }
    sent := sent + [FinP, FinP, FinP];
  }

  lemma SomeBlockUnlessEmpty(m: Meta, image: seq<byte>)
    ensures Conforming(m) ==> NBlocks(m) > 0 && !Empty(m) && Sprinkled(m, image, 0) == []
    ensures Empty(m) ==> NBlocks(m) == 0
  {
    if Conforming(m) {
      SprinkledNone(m, image);
      Extent(m);
    }
    if Empty(m) {
      EmptyShape(m);
    }
  }

  lemma SprinkledNone(m: Meta, image: seq<byte>)
    requires Conforming(m)
    ensures Sprinkled(m, image, 0) == []
  {
    hide Conforming, TotalFrames;
  }

  /** What has been sent when the first n frames are out. */
  ghost predicate SentUpTo(m: Meta, image: seq<byte>, sent: seq<Packet>, since: nat, n: nat) {
    && Conforming(m) && n <= TotalFrames(m)
    && sent == [MetaP(m), MetaP(m), MetaP(m)] + Sprinkled(m, image, n)
    && since == n % META_EVERY
  }

  /** One frame, and a META behind it when it is the sixteenth since the last. */
  method Emit(m: Meta, ghost image: seq<byte>, sent0: seq<Packet>, since0: nat, ghost n: nat, p: Packet)
    returns (sent: seq<Packet>, since: nat)
    requires SentUpTo(m, image, sent0, since0, n) && n < TotalFrames(m) && p == PacketAt(m, image, n)
    ensures SentUpTo(m, image, sent, since, n + 1)
  {
    hide Conforming, PacketAt, TotalFrames;
    sent := sent0 + [p];
    since := since0 + 1;
    if since >= META_EVERY {
      since := 0;
      sent := sent + [MetaP(m)];
    }
  }

  method SendSource(m: Meta, image: seq<byte>, b: nat, sent0: seq<Packet>, since0: nat)
    returns (sent: seq<Packet>, since: nat)
    requires b < NBlocks(m) && SentUpTo(m, image, sent0, since0, Before(m, b))
    ensures SentUpTo(m, image, sent, since, Before(m, b) + BlockK(m, b))
  {
    hide Conforming, NChunks, NBlocks, BlockK, TotalFrames, PacketAt, Exists, IdAt, Before, Payload, ChunkAt;
    sent, since := sent0, since0;
    for i := 0 to BlockK(m, b)
      invariant SentUpTo(m, image, sent, since, Before(m, b) + i)
    {
      PacketOfPlace(m, image, b, i);
      DataPacket(m, image, b, i);
      sent, since := Emit(m, image, sent, since, Before(m, b) + i,
                          DataP(FrameId(b * m.block + i, false), ChunkAt(m, image, b * m.block + i)));
    }
  }

  method SendParity(m: Meta, ghost image: seq<byte>, b: nat, paritybuf: array<byte>, sent0: seq<Packet>, since0: nat)
    returns (sent: seq<Packet>, since: nat)
    requires m.nParity * m.chunk <= paritybuf.Length && BlockK(m, b) + m.nParity <= 255
    requires b < NBlocks(m) && SentUpTo(m, image, sent0, since0, Before(m, b) + BlockK(m, b))
    requires forall i :: 0 <= i < m.nParity ==>
               Rows(paritybuf[..], m.chunk, m.nParity)[i] == FrameRow(m, image, b, BlockK(m, b) + i)
    ensures SentUpTo(m, image, sent, since, Before(m, b + 1))
  {
    hide Conforming, NChunks, NBlocks, BlockK, TotalFrames, PacketAt, Exists, IdAt, Payload, Rows, FrameRow;
    sent, since := sent0, since0;
    for i := 0 to m.nParity
      invariant SentUpTo(m, image, sent, since, Before(m, b) + BlockK(m, b) + i)
    {
      RowOf(paritybuf[..], m.chunk, m.nParity, i);
      PacketOfPlace(m, image, b, BlockK(m, b) + i);
      ParityPacket(m, image, b, i);
      sent, since := Emit(m, image, sent, since, Before(m, b) + BlockK(m, b) + i,
                          DataP(FrameId(b * m.nParity + i, true), paritybuf[i * m.chunk..i * m.chunk + m.chunk]));
    }
  }

  /** One block of the broadcast. */
  method SendBlock(g: GfTables, m: Meta, image: seq<byte>, b: nat, blockbuf: array<byte>, paritybuf: array<byte>,
                   sent0: seq<Packet>, since0: nat) returns (rc: Fec.Status, sent: seq<Packet>, since: nat)
    requires g.Valid() && blockbuf != paritybuf && {blockbuf, paritybuf} !! {g.exp, g.log}
    requires b < NBlocks(m) && SentUpTo(m, image, sent0, since0, Before(m, b))
    requires BlockK(m, 0) * m.chunk <= blockbuf.Length && m.nParity * m.chunk <= paritybuf.Length
    modifies g, g.exp, g.log, blockbuf, paritybuf
    ensures g.Valid() && rc == if m.nParity == 0 then Fec.ArgError else Fec.Ok
    ensures rc == Fec.Ok ==> SentUpTo(m, image, sent, since, Before(m, b + 1))
    ensures rc != Fec.Ok ==> sent == sent0 && since == since0
  {
    hide Conforming, NChunks, NBlocks, BlockK, TotalFrames, Rows, FrameRow, Sprinkled, Before;
    rc := EncodeBlock(g, m, image, b, blockbuf, paritybuf);
    if rc != Fec.Ok {
      return rc, sent0, since0;
    }
    sent, since := SendSource(m, image, b, sent0, since0);
    sent, since := SendParity(m, image, b, paritybuf, sent, since);
  }

  /** The block read from the image and its parity frames computed. */
  method EncodeBlock(g: GfTables, m: Meta, image: seq<byte>, b: nat, blockbuf: array<byte>, paritybuf: array<byte>)
    returns (rc: Fec.Status)
    requires g.Valid() && blockbuf != paritybuf && {blockbuf, paritybuf} !! {g.exp, g.log}
    requires Conforming(m) && b < NBlocks(m)
    requires BlockK(m, 0) * m.chunk <= blockbuf.Length && m.nParity * m.chunk <= paritybuf.Length
    modifies g, g.exp, g.log, blockbuf, paritybuf
    ensures g.Valid() && rc == if m.nParity == 0 then Fec.ArgError else Fec.Ok
    ensures BlockK(m, b) + m.nParity <= 255
    ensures rc == Fec.Ok ==> forall i :: 0 <= i < m.nParity ==>
              Rows(paritybuf[..], m.chunk, m.nParity)[i] == FrameRow(m, image, b, BlockK(m, b) + i)
  {
    hide Conforming, NChunks, NBlocks, BlockK, Rows, CodeFrame, BlockData;
    var k := BlockK(m, b);
    RoomForBlock(m, b, blockbuf.Length);
    LoadBlock(m, image, b, blockbuf);
    rc := Fec.Encode(g, blockbuf, k, m.chunk, paritybuf, m.nParity);
  }

  lemma RoomForBlock(m: Meta, b: nat, size: nat)
    requires Conforming(m) && b < NBlocks(m) && BlockK(m, 0) * m.chunk <= size
    ensures BlockK(m, b) * m.chunk <= size && 1 <= BlockK(m, b) && BlockK(m, b) + m.nParity <= 255
  {
    hide Conforming, NChunks, NBlocks, BlockK;
    BlockKAt(m, b);
    BlockFits(m, b);
    TimesMonotone(BlockK(m, b), BlockK(m, 0), m.chunk);
  }

  lemma DataPacket(m: Meta, image: seq<byte>, b: nat, i: nat)
    requires Conforming(m) && b < NBlocks(m) && i < BlockK(m, b)
    ensures IsPlace(m, b, i) && Exists(m, IdAt(m, b, i))
    ensures IdAt(m, b, i) == FrameId(b * m.block + i, false)
    ensures Payload(m, image, IdAt(m, b, i)) == ChunkAt(m, image, b * m.block + i)
  {
    hide Conforming, NChunks, NBlocks, BlockK, Exists, ChunkAt, BlockOf, SlotOf;
    IdAtPlace(m, b, i);
  }

  lemma ParityPacket(m: Meta, image: seq<byte>, b: nat, i: nat)
    requires Conforming(m) && b < NBlocks(m) && i < m.nParity
    ensures var slot := BlockK(m, b) + i;
      && IsPlace(m, b, slot) && Exists(m, IdAt(m, b, slot)) && BlockK(m, b) + m.nParity <= 255
      && IdAt(m, b, slot) == FrameId(b * m.nParity + i, true)
      && Payload(m, image, IdAt(m, b, slot)) == FrameRow(m, image, b, slot)
  {
    hide Conforming, NChunks, NBlocks, BlockK, Exists, FrameRow, BlockOf, SlotOf;
    IdAtPlace(m, b, BlockK(m, b) + i);
    BlockFits(m, b);
  }

  // ----- the shape of a broadcast

  lemma {:induction false} SprinkledShape(m: Meta, image: seq<byte>, n: nat)
    requires Conforming(m) && n <= TotalFrames(m)
    ensures |Sprinkled(m, image, n)| == n + n / 16
    ensures forall o :: 0 <= o < n ==> Sprinkled(m, image, n)[o + o / 16] == PacketAt(m, image, o)
    ensures forall g :: 0 <= g < n / 16 ==> Sprinkled(m, image, n)[17 * g + 16] == MetaP(m)
  {
    hide Conforming, TotalFrames, PacketAt;
    if n > 0 {
      SprinkledShape(m, image, n - 1);
    }
  }

  /**
    A broadcast is three METAs, then every frame of the transfer once and in order with a META behind each
    sixteen of them, and three FINs.
  */
  lemma BroadcastShape(m: Meta, image: seq<byte>)
    requires Conforming(m)
    ensures var s, n := Broadcast(m, image), TotalFrames(m);
      && |s| == n + n / 16 + 6
      && s[..3] == [MetaP(m), MetaP(m), MetaP(m)] && s[|s| - 3..] == [FinP, FinP, FinP]
      && (forall o :: 0 <= o < n ==> s[3 + o + o / 16] == PacketAt(m, image, o))
      && (forall g :: 0 <= g < n / 16 ==> s[3 + 17 * g + 16] == MetaP(m))
  {
    hide Conforming, TotalFrames, PacketAt, Sprinkled;
    SprinkledShape(m, image, TotalFrames(m));
    var metas, frames, fins := [MetaP(m), MetaP(m), MetaP(m)], Sprinkled(m, image, TotalFrames(m)), [FinP, FinP, FinP];
    assert Broadcast(m, image) == metas + frames + fins;
  }
}
