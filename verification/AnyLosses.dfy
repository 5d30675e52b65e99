/** A broadcast heard through any losses at all: what the receiver ends up claiming, and holding. */
module AnyLosses {
  import opened Bytes
  import opened Arithmetic
  import opened Frames
  import opened Image
  import opened Linear
  import opened Erasure
  import opened Sender
  import opened Receiver
  import opened Reception
  import opened Accounting
  import opened Safety
  import B = BroadcastProof

  /** Genuine packets, block after block. */
  ghost predicate Flows(m: Meta, image: seq<byte>, sent: seq<Packet>, blk: nat)
    decreases |sent|
  {
    |sent| > 0 ==>
      && Genuine(m, image, sent[0]) && PacketBlock(m, sent[0], blk) >= blk
      && Flows(m, image, sent[1..], PacketBlock(m, sent[0], blk))
  }

  /** A broadcast's frames come block after block. */
  lemma {:induction false} AirsFlow(m: Meta, image: seq<byte>, sent: seq<Packet>, floor: nat, blk: nat)
    requires B.Airs(m, image, sent, floor) && |image| == m.imgLen && Before(m, blk) <= floor
    ensures Flows(m, image, sent, blk)
    decreases |sent|
  {
    hide Conforming, NChunks, NBlocks, BlockK, TotalFrames, Before, Ordinal, Exists, BlockNo, SlotNo, Payload;
    if |sent| > 0 {
      match sent[0]
      case MetaP(_) => AirsFlow(m, image, sent[1..], floor, blk);
      case DataP(id, _) =>
        B.FramePlace(m, id);
        if BlockNo(m, id) < blk {
          BeforeMonotone(m, BlockNo(m, id) + 1, blk);
        }
        AirsFlow(m, image, sent[1..], Ordinal(m, id.seqNo, id.parity) + 1, BlockNo(m, id));
      case FinP => AirsFlow(m, image, sent[1..], B.Max(floor, TotalFrames(m)), blk);
      case IdentP => AirsFlow(m, image, sent[1..], floor, blk);
    }
  }

  lemma {:induction false} ListenAccounts(rx: Rx, m: Meta, image: seq<byte>, got: set<nat>, sent: seq<Packet>,
                                          fates: seq<B.Fate>, blk: nat) returns (got': set<nat>)
    requires Known(rx, m, image, got) && Flows(m, image, sent, blk) && (rx.outcome == Listening ==> rx.cur <= blk)
    ensures Known(B.Listen(rx, sent, fates), m, image, got') && got <= got'
    ensures SameTransfer(rx, B.Listen(rx, sent, fates))
    decreases |fates|
  {
    hide Conforming, Genuine, OnPacket, StillRecoverable, Accounted, Closed, PacketBlock;
    if |fates| == 0 {
      got' := got;
    } else if fates[0] == B.Quiet {
      SilenceAccounts(rx, m, image, got);
      got' := ListenAccounts(OnSilence(rx), m, image, got, sent, fates[1..], blk);
    } else if |sent| == 0 {
      got' := ListenAccounts(rx, m, image, got, sent, fates[1..], blk);
    } else {
      var next := PacketBlock(m, sent[0], blk);
      if fates[0] == B.Lost {
        got' := ListenAccounts(rx, m, image, got, sent[1..], fates[1..], next);
      } else {
        got' := HearOne(rx, m, image, got, sent[0], blk);
        got' := ListenAccounts(OnPacket(rx, sent[0]).0, m, image, got', sent[1..], fates[1..], next);
      }
    }
  }

  lemma SilenceAccounts(rx: Rx, m: Meta, image: seq<byte>, got: set<nat>)
    requires Known(rx, m, image, got)
    ensures Known(OnSilence(rx), m, image, got) && SameTransfer(rx, OnSilence(rx))
    ensures OnSilence(rx).outcome == Listening ==> OnSilence(rx) == rx
  {
    hide Conforming, NChunks, NBlocks, BlockK, StillRecoverable, Tracks, BufferGenuine, StoredAsHeard, Below;
  }

  lemma HearOne(rx: Rx, m: Meta, image: seq<byte>, got: set<nat>, p: Packet, blk: nat) returns (got': set<nat>)
    requires Known(rx, m, image, got) && (rx.outcome == Listening ==> rx.cur <= blk)
    requires Genuine(m, image, p) && PacketBlock(m, p, blk) >= blk
    ensures var n := OnPacket(rx, p).0;
      && Known(n, m, image, got') && got <= got' && SameTransfer(rx, n)
      && (n.outcome == Listening ==> n.cur <= PacketBlock(m, p, blk))
  {
    hide Conforming, Genuine, Accounted, Closed;
    if rx.outcome != Listening {
      Stopped(rx, p);
      got' := got;
    } else {
      ThenListening(rx, p);
      hide OnPacket;
      got' := PacketAccounts(rx, m, image, got, p);
    }
  }

  /** A receiver that has stopped stays as it is. */
  lemma Stopped(rx: Rx, p: Packet)
    ensures rx.outcome != Listening ==> OnPacket(rx, p).0 == rx
  {
    hide OnData, Begin, Flush;
  }

  lemma ThenListening(rx: Rx, p: Packet)
    ensures OnPacket(rx, p).0.outcome == Listening ==> rx.outcome == Listening
  {
    hide OnData, Begin, Flush;
  }

  /** From the moment the receiver is switched on. */
  lemma {:induction false} WaitAccounts(rx: Rx, m: Meta, image: seq<byte>, sent: seq<Packet>, fates: seq<B.Fate>, blk: nat)
    returns (got: set<nat>)
    requires !rx.haveMeta && rx.outcome == Listening && Flows(m, image, sent, blk)
    ensures var n := B.Listen(rx, sent, fates);
      && n.broadcast == rx.broadcast
      && ((!n.haveMeta && n.outcome == Listening) || Known(n, m, image, got))
    decreases |fates|
  {
    hide Conforming, Exists, Payload, Flush, OnData, StillRecoverable, Begin, Known, NBlocks, BlockNo;
    if |fates| == 0 {
      got := {};
    } else if fates[0] == B.Quiet || |sent| == 0 {
      got := WaitAccounts(rx, m, image, sent, fates[1..], blk);
    } else {
      var next := PacketBlock(m, sent[0], blk);
      if fates[0] == B.Delivered && sent[0].MetaP? {
        BeginAccounts(rx, m, image);
        KnownFirst(Begin(rx, m), m, image, {});
        got := ListenAccounts(Begin(rx, m), m, image, {}, sent[1..], fates[1..], next);
        assert Begin(rx, m).broadcast == rx.broadcast by {
          BeginMode(rx, m);
        }
      } else {
        got := WaitAccounts(rx, m, image, sent[1..], fates[1..], next);
      }
    }
  }

  lemma KnownFirst(rx: Rx, m: Meta, image: seq<byte>, got: set<nat>)
    requires Accounted(rx, m, image, got)
    ensures Known(rx, m, image, got)
  {
    hide Accounted;
  }

  lemma BeginMode(rx: Rx, m: Meta)
    ensures Begin(rx, m).broadcast == rx.broadcast
  {
    hide NChunks, BlockK, SessionScratch;
  }

  /** What a receiver may be found in after any stretch of a transfer. */
  ghost predicate Sound(n: Rx, m: Meta, image: seq<byte>) {
    (!n.haveMeta && n.outcome == Listening) || exists got :: Known(n, m, image, got)
  }

  /**
    Whatever the channel does to a broadcast, every chunk the receiver has stored is the image's, every
    other chunk is still blank, and its count of chunks is exact.
  */
  lemma BroadcastIsSafe(m: Meta, image: seq<byte>, memory: seq<byte>, fates: seq<B.Fate>)
    requires Conforming(m) && |image| == m.imgLen
    ensures Sound(B.Listen(Start(true, memory), Broadcast(m, image), fates), m, image)
  {
    hide Conforming, Broadcast, Known, B.Listen, Flows;
    B.BroadcastAirs(m, image);
    AirsFlow(m, image, Broadcast(m, image), 0, 0);
    var got := WaitAccounts(Start(true, memory), m, image, Broadcast(m, image), fates, 0);
  }

  /** No chunk of the image is all zeroes. */
  ghost predicate NoBlankChunk(m: Meta, image: seq<byte>) {
    forall c :: 0 <= c < NChunks(m) ==> !Blank(image, m, c)
  }

  /**
    COMPLETE in a broadcast does not promise the whole image: the receiver judges the last block only.  The
    image is whole exactly when every chunk has been counted; otherwise some chunk of the store is blank.
  */
  lemma CompleteIsWholeWhenCounted(m: Meta, image: seq<byte>, memory: seq<byte>, fates: seq<B.Fate>)
    requires Conforming(m) && |image| == m.imgLen
    requires B.Listen(Start(true, memory), Broadcast(m, image), fates).outcome == Complete
    ensures var n := B.Listen(Start(true, memory), Broadcast(m, image), fates);
      && (n.have == n.total ==> n.store == image)
      && (n.have != n.total ==> exists c :: 0 <= c < NChunks(m) && Blank(n.store, m, c))
      && (NoBlankChunk(m, image) ==> (n.store == image <==> n.have == n.total))
  {
    hide Conforming, Broadcast, B.Listen, Flows, NChunks, Tracks, Accounted, Blank, Holds;
    var n := B.Listen(Start(true, memory), Broadcast(m, image), fates);
    BroadcastIsSafe(m, image, memory, fates);
    var got :| Known(n, m, image, got);
    NotListening(n, m, image, got);
    WholeIsImage(n.store, m, image, got);
    InRange(n.store, m, image, got);
    if n.have != n.total {
      var c := SomeMissing(n.store, m, image, got);
    }
  }

  lemma SomeMissing(store: seq<byte>, m: Meta, image: seq<byte>, got: set<nat>) returns (c: nat)
    requires Tracks(store, m, image, got) && got != UpTo(NChunks(m))
    ensures c < NChunks(m) && Blank(store, m, c)
  {
    hide NChunks, Conforming, Blank;
    if forall c :: 0 <= c < NChunks(m) ==> c in got {
      AllThere(got, NChunks(m));
    }
    c :| 0 <= c < NChunks(m) && c !in got;
    assert TracksAt(store, m, image, got, c);
  }

  lemma AllThere(got: set<nat>, n: nat)
    requires Below(got, n) && forall c :: 0 <= c < n ==> c in got
    ensures got == UpTo(n)
  {
  }

  // ----- a block nobody missed

  /** Three chunks, a block each, one parity frame to a block. */
  const SMALL: Meta := Meta(1, 3, 1, 1, 1)

  lemma SmallShape()
    ensures Conforming(SMALL) && NChunks(SMALL) == 3 && NBlocks(SMALL) == 3
    ensures BlockK(SMALL, 0) == 1 && BlockK(SMALL, 1) == 1 && BlockK(SMALL, 2) == 1
    ensures Before(SMALL, 0) == 0 && Before(SMALL, 1) == 2 && Before(SMALL, 2) == 4
    ensures SessionScratch(BlockK(SMALL, 0), 1, 1) == 5
  {
  }

  lemma SmallFrame(b: nat)
    requires b < 3
    ensures var id := FrameId(b, false);
      && BlockNo(SMALL, id) == b && SlotNo(SMALL, id) == 0 && Ordinal(SMALL, b, false) == 2 * b
  {
    SmallShape();
    assert Quot(b, 1) == b && Rem(b, 1) == 0;
  }

  /** One-byte rows, two to a block, in a receiver of the small transfer. */
  predicate SmallRx(rx: Rx, b: nat, present: seq<bool>) {
    && rx.meta == SMALL && rx.haveMeta && rx.broadcast && rx.fecOk && rx.outcome == Listening && rx.lost == 0
    && rx.cur == b < 3 && rx.present == present && |rx.buf| == 2 && |rx.store| == 3 && rx.have < 3
  }

  function One(): seq<bool> {
    Nothing()[0 := true]
  }

  lemma SmallFlush(rx: Rx, b: nat, v: byte)
    requires SmallRx(rx, b, One()) && rx.buf[0] == [v]
    ensures Flush(rx) == rx.(store := rx.store[b := v], have := rx.have + 1)
  {
    hide Decoded, CountPresent;
    SmallShape();
    hide BlockK;
    assert AllPresent(rx.present, 1);
    FlushPlainIs(rx);
    hide Flush;
    assert Base(rx) == b && ChunkAt(SMALL, rx.store, b) == rx.store[b..b + 1];
    U16Small(rx.have + 1);
    assert Put(rx.store, b, [v]) == rx.store[b := v];
    assert WriteOut(rx, 1) == StoreRow(WriteOut(rx, 0), 0) == StoreRow(rx, 0);
  }

  lemma SmallPlace(rx: Rx, b: nat, v: byte)
    requires SmallRx(rx, b, Nothing())
    ensures var id := FrameId(b, false);
      && Placeable(rx, id)
      && Place(rx, id, [v]) == rx.(buf := rx.buf[0 := [v]], present := One())
      && HaveInBlock(Place(rx, id, [v])) == 1
  {
    SmallFrame(b);
    SmallShape();
    hide BlockK, SlotNo, BlockNo;
    assert Pad([v], 1) == [v];
    B.CountNothing(2);
    B.CountSet(Nothing(), 2, 0);
  }

  /** The first source frame is placed, and the receiver goes on listening. */
  lemma SmallFirst(rx: Rx, v: byte)
    requires SmallRx(rx, 0, Nothing()) && !rx.sawAny
    ensures OnPacket(rx, DataP(FrameId(0, false), [v])).0
            == rx.(sawAny := true, maxOrdinal := 0, buf := rx.buf[0 := [v]], present := One())
  {
    SmallFrame(0);
    SmallShape();
    hide BlockK, SlotNo, BlockNo, Ordinal, Placeable, Place, HaveInBlock, Flush;
    var a := rx.(sawAny := true, maxOrdinal := 0);
    assert Arrive(rx, FrameId(0, false)) == a;
    SmallPlace(a, 0, v);
  }

  /** The first frame of the last block, with the middle block not heard of at all. */
  lemma SmallLast(rx: Rx, u: byte, v: byte)
    requires SmallRx(rx, 0, One()) && rx.sawAny && rx.maxOrdinal == 0 && rx.buf[0] == [u] && rx.have == 0
    ensures var n := OnPacket(rx, DataP(FrameId(2, false), [v])).0;
      n.outcome == Complete && n.have == 2 && n.total == rx.total && n.store == rx.store[0 := u][2 := v]
  {
    SmallFrame(2);
    SmallShape();
    hide BlockK, SlotNo, BlockNo, Ordinal, Placeable, Place, HaveInBlock, Flush;
    var seen := rx.(maxOrdinal := 4);
    SmallFlush(seen, 0, u);
    var a := Arrive(rx, FrameId(2, false));
    assert a == Reset(Flush(seen), 2);
    SmallPlace(a, 2, v);
    var p := Place(a, FrameId(2, false), [v]);
    SmallFlush(p, 2, v);
  }

  /** Without a META in between, frame i of the broadcast is packet i. */
  lemma {:induction false} SprinkledAt(m: Meta, image: seq<byte>, n: nat)
    requires Conforming(m) && n <= TotalFrames(m) && n < META_EVERY
    ensures |Sprinkled(m, image, n)| == n
    ensures forall i :: 0 <= i < n ==> Sprinkled(m, image, n)[i] == PacketAt(m, image, i)
  {
    hide Conforming, TotalFrames, PacketAt;
    if n > 0 {
      SprinkledAt(m, image, n - 1);
    }
  }

  lemma SmallId(b: nat)
    requires b < 3
    ensures Width(SMALL) == 2 && IdOfOrdinal(SMALL, 2 * b) == FrameId(b, false)
  {
    SmallShape();
    hide NChunks, NBlocks, BlockK, Conforming;
    SplitUnique(2 * b, 2, b, 0);
  }

  lemma SmallChunk(image: seq<byte>, b: nat)
    requires |image| == 3 && b < 3
    ensures ChunkAt(SMALL, image, b) == [image[b]]
  {
  }

  lemma SmallTotal()
    ensures Conforming(SMALL) && TotalFrames(SMALL) == 6
  {
    SmallShape();
    hide NChunks, NBlocks, Conforming;
  }

  /** The first frame of block b of the small image. */
  lemma SmallPacket(image: seq<byte>, b: nat)
    requires |image| == 3 && b < 3
    ensures Conforming(SMALL) && TotalFrames(SMALL) == 6
    ensures PacketAt(SMALL, image, 2 * b) == DataP(FrameId(b, false), [image[b]])
  {
    hide Conforming, TotalFrames, IdOfOrdinal, ChunkAt, Exists, BlockOf, SlotOf, FrameRow;
    SmallTotal();
    OrdinalInvertsOrder(SMALL, 2 * b);
    SmallId(b);
    SmallChunk(image, b);
  }

  const SMALL_LOSSES: seq<B.Fate> :=
    [B.Delivered, B.Lost, B.Lost, B.Delivered, B.Lost, B.Lost, B.Lost, B.Delivered]

  /** Where the frames used are in the broadcast of the small image. */
  lemma SmallBroadcast(image: seq<byte>)
    requires |image| == 3
    ensures Conforming(SMALL)
    ensures var sent := Broadcast(SMALL, image);
      |sent| == 12 && sent[0] == MetaP(SMALL) && sent[3] == DataP(FrameId(0, false), [image[0]])
      && sent[7] == DataP(FrameId(2, false), [image[2]])
  {
    hide Conforming, Sprinkled, PacketAt, TotalFrames;
    SmallPacket(image, 0);
    SmallPacket(image, 2);
    SprinkledAt(SMALL, image, 6);
    var metas, frames, fins := [MetaP(SMALL), MetaP(SMALL), MetaP(SMALL)], Sprinkled(SMALL, image, 6), [FinP, FinP, FinP];
    assert Broadcast(SMALL, image) == metas + frames + fins;
    assert frames[0] == PacketAt(SMALL, image, 2 * 0) && frames[4] == PacketAt(SMALL, image, 2 * 2);
  }

  /**
    The early COMPLETE of a broadcast can be wrong.  Of the broadcast of a three-byte image the first META, the
    first frame and the last source frame get through, nothing of the middle block: the receiver moves from
    block 0 to block 2 and reports the image complete with a hole in it.
  */
  lemma SkippedBlockGoesUnnoticed(u: byte, w: byte, v: byte)
    ensures Conforming(SMALL)
    ensures var n := B.Listen(Start(true, [0, 0, 0, 0, 0]), Broadcast(SMALL, [u, w, v]), SMALL_LOSSES);
      n.outcome == Complete && n.have == 2 && n.total == 3 && n.store == [u, 0, v]
  {
    SmallShape();
    hide NChunks, NBlocks, BlockK, SessionScratch, Conforming, Broadcast, OnData, Flush, B.Listen;
    var image := [u, w, v];
    SmallBroadcast(image);
    var sent := Broadcast(SMALL, image);
    var rx0 := Begin(Start(true, [0, 0, 0, 0, 0]), SMALL);
    SmallFirst(rx0, u);
    var rx1 := OnPacket(rx0, sent[3]).0;
    SmallLast(rx1, u, v);
    var rx2 := OnPacket(rx1, sent[7]).0;
    hide OnPacket, Begin;
    ListenSteps(rx0, rx1, rx2, sent);
  }

  lemma ListenSteps(rx0: Rx, rx1: Rx, rx2: Rx, sent: seq<Packet>)
    requires |sent| == 12
    requires rx1 == OnPacket(rx0, sent[3]).0 && rx2 == OnPacket(rx1, sent[7]).0
    requires OnPacket(Start(true, [0, 0, 0, 0, 0]), sent[0]).0 == rx0
    ensures B.Listen(Start(true, [0, 0, 0, 0, 0]), sent, SMALL_LOSSES) == rx2
  {
    hide OnPacket;
    var fates := SMALL_LOSSES;
    assert B.Listen(rx2, sent[8..], fates[8..]) == rx2;
    assert B.Listen(rx1, sent[7..], fates[7..]) == rx2;
    assert B.Listen(rx1, sent[6..], fates[6..]) == rx2;
    assert B.Listen(rx1, sent[5..], fates[5..]) == rx2;
    assert B.Listen(rx1, sent[4..], fates[4..]) == rx2;
    assert B.Listen(rx0, sent[3..], fates[3..]) == rx2;
    assert B.Listen(rx0, sent[2..], fates[2..]) == rx2;
    assert B.Listen(rx0, sent[1..], fates[1..]) == rx2;
  }
}
