/**
  Broadcast end to end: whatever the channel loses, a receiver that has heard a META and then at least
  k frames of every block stops with the image complete and equal to the sender's.
*/
module BroadcastProof {
  import opened Bytes
  import opened Arithmetic
  import opened Frames
  import opened Image
  import opened Erasure
  import opened Sender
  import opened Receiver
  import opened Reception
  import opened Accounting

  /** What becomes of the next packet; Quiet is a listening window that closes empty in between. */
  datatype Fate = Delivered | Lost | Quiet

  /** The receiver after a stretch of channel. */
  ghost function Listen(rx: Rx, sent: seq<Packet>, fates: seq<Fate>): Rx
    decreases |fates|
  {
    if |fates| == 0 then rx
    else if fates[0] == Quiet then Listen(OnSilence(rx), sent, fates[1..])
    else if |sent| == 0 then Listen(rx, sent, fates[1..])
    else Listen(if fates[0] == Delivered then OnPacket(rx, sent[0]).0 else rx, sent[1..], fates[1..])
  }

  /** Genuine packets of one transfer, the frames in order and numbered from "floor" on. */
  ghost predicate Airs(m: Meta, image: seq<byte>, sent: seq<Packet>, floor: nat)
    decreases |sent|
  {
    Conforming(m) &&
    (|sent| > 0 ==>
       match sent[0]
       case MetaP(m') => m' == m && Airs(m, image, sent[1..], floor)
       case DataP(id, payload) =>
         && Exists(m, id) && payload == Payload(m, image, id)
         && Ordinal(m, id.seqNo, id.parity) >= floor
         && Airs(m, image, sent[1..], Ordinal(m, id.seqNo, id.parity) + 1)
       case IdentP => Airs(m, image, sent[1..], floor)
       case FinP => Airs(m, image, sent[1..], Max(floor, TotalFrames(m)))
       case _ => false)
  }

  /** Frames of block b that the channel still delivers to a receiver that has, or has not, a META. */
  ghost function Coming(m: Meta, sent: seq<Packet>, fates: seq<Fate>, b: nat, on: bool): nat
    decreases |fates|
  {
    if |fates| == 0 then 0
    else if fates[0] == Quiet then Coming(m, sent, fates[1..], b, on)
    else if |sent| == 0 then Coming(m, sent, fates[1..], b, on)
    else if fates[0] == Lost then Coming(m, sent[1..], fates[1..], b, on)
    else
      match sent[0]
      case MetaP(_) => Coming(m, sent[1..], fates[1..], b, true)
      case DataP(id, _) => (if on && BlockNo(m, id) == b then 1 else 0) + Coming(m, sent[1..], fates[1..], b, on)
      case _ => Coming(m, sent[1..], fates[1..], b, on)
  }

  function Max(a: nat, b: nat): nat {
    if a > b then a else b
  }

  /** BlockNo and SlotNo are the place the sender gave the frame. */
  lemma FramePlace(m: Meta, id: FrameId)
    requires Conforming(m) && Exists(m, id)
    ensures var b, slot := BlockNo(m, id), SlotNo(m, id);
      && b == BlockOf(m, id.seqNo, id.parity) && slot == SlotOf(m, id.seqNo, id.parity)
      && IsPlace(m, b, slot) && BlockK(m, b) + m.nParity <= 255
      && Ordinal(m, id.seqNo, id.parity) == Before(m, b) + slot < Before(m, b + 1) <= TotalFrames(m)
  {
    hide NChunks, NBlocks, BlockK, Conforming, TotalFrames, Quot, Rem, IdAt;
    PlaceOfId(m, id);
    var b := BlockOf(m, id.seqNo, id.parity);
    BlockFits(m, b);
    BlocksCoverEverything(m);
    BeforeMonotone(m, b + 1, NBlocks(m));
  }

  /** No more frames of a block are coming than the sender has left to send. */
  lemma {:induction false} ComingBound(m: Meta, image: seq<byte>, sent: seq<Packet>, fates: seq<Fate>, b: nat, on: bool,
                                       floor: nat)
    requires Airs(m, image, sent, floor)
    ensures Coming(m, sent, fates, b, on) <= Max(Before(m, b + 1), floor) - Max(Before(m, b), floor)
    decreases |fates|
  {
    hide Conforming, TotalFrames, Before, Ordinal, Exists, BlockNo, SlotNo;
    Grows(m, b);
    if |fates| > 0 {
      if fates[0] == Quiet || |sent| == 0 {
        ComingBound(m, image, sent, fates[1..], b, on, floor);
      } else {
        match sent[0]
        case MetaP(_) => ComingBound(m, image, sent[1..], fates[1..], b, on || fates[0] == Delivered, floor);
        case DataP(id, _) =>
          FramePlace(m, id);
          ComingBound(m, image, sent[1..], fates[1..], b, on, Ordinal(m, id.seqNo, id.parity) + 1);
        case FinP => ComingBound(m, image, sent[1..], fates[1..], b, on, Max(floor, TotalFrames(m)));
        case IdentP => ComingBound(m, image, sent[1..], fates[1..], b, on, floor);
      }
    }
  }

  lemma Grows(m: Meta, b: nat)
    ensures Before(m, b) <= Before(m, b + 1)
  {
    hide BlockK;
  }

  // ----- a receiver that has heard a META

  /** What the receiver knows while it listens: finished blocks are stored, the current one is genuine. */
  ghost predicate Hearing(rx: Rx, m: Meta, image: seq<byte>, floor: nat) {
    && rx.broadcast && rx.fecOk && rx.lost == 0 && Accounted(rx, m, image, UpTo(Base(rx)))
    && (if rx.sawAny then Before(m, rx.cur) <= rx.maxOrdinal < floor else rx.cur == 0)
    && HeardUpTo(rx, m)
    && (rx.cur + 1 == NBlocks(m) ==> HaveInBlock(rx) < BlockK(m, rx.cur))
  }

  /** Only frames up to the highest ordinal heard are marked present. */
  ghost predicate HeardUpTo(rx: Rx, m: Meta) {
    forall i :: 0 <= i < |rx.present| && rx.present[i] ==> rx.sawAny && Before(m, rx.cur) + i <= rx.maxOrdinal
  }

  /** With what is still to come, every unfinished block gets k frames. */
  ghost predicate Enough(rx: Rx, m: Meta, sent: seq<Packet>, fates: seq<Fate>) {
    forall b :: rx.cur <= b < NBlocks(m) ==> EnoughFor(rx, m, sent, fates, b)
  }

  ghost predicate EnoughFor(rx: Rx, m: Meta, sent: seq<Packet>, fates: seq<Fate>, b: nat) {
    (if b == rx.cur then HaveInBlock(rx) else 0) + Coming(m, sent, fates, b, true) >= BlockK(m, b)
  }

  ghost predicate Finished(rx: Rx, image: seq<byte>) {
    rx.outcome == Complete && rx.store == image
  }

  /** While enough is coming the block is never given up. */
  lemma NotGivenUp(rx: Rx, m: Meta, image: seq<byte>, sent: seq<Packet>, fates: seq<Fate>, floor: nat)
    requires InTransfer(rx, m) && Airs(m, image, sent, floor) && EnoughFor(rx, m, sent, fates, rx.cur)
    requires if rx.sawAny then rx.maxOrdinal < floor else rx.cur == 0
    ensures StillRecoverable(rx)
  {
    hide NChunks, NBlocks, BlockK, Conforming, TotalFrames, Coming, HaveInBlock, Airs;
    ComingBound(m, image, sent, fates, rx.cur, true, floor);
  }

  /** When the sender has moved on from block b, b needs nothing more. */
  lemma PassedBlockHasEnough(rx: Rx, m: Meta, image: seq<byte>, sent: seq<Packet>, fates: seq<Fate>, floor: nat, b: nat)
    requires EnoughFor(rx, m, sent, fates, b) && Airs(m, image, sent, floor) && Before(m, b + 1) <= floor
    ensures (if b == rx.cur then HaveInBlock(rx) else 0) >= BlockK(m, b)
  {
    hide NBlocks, BlockK, Conforming, TotalFrames, Coming, HaveInBlock, Airs, Before;
    Grows(m, b);
    ComingBound(m, image, sent, fates, b, true, floor);
  }

  /** Enough is not over yet: something that counts is still to be delivered. */
  lemma NotOver(rx: Rx, m: Meta, image: seq<byte>, sent: seq<Packet>, fates: seq<Fate>, floor: nat)
    requires Hearing(rx, m, image, floor) && Airs(m, image, sent, floor) && Enough(rx, m, sent, fates)
    ensures |fates| > 0
    ensures floor < TotalFrames(m)
  {
    hide NChunks, NBlocks, BlockK, Conforming, TotalFrames, HaveInBlock, Before, BufferGenuine, HeardUpTo, Tracks, Airs;
    var last := NBlocks(m) - 1;
    assert EnoughFor(rx, m, sent, fates, last);
    BlockKAt(m, last);
    BlocksCoverEverything(m);
    if floor >= TotalFrames(m) {
      PassedBlockHasEnough(rx, m, image, sent, fates, floor, last);
    }
  }

  lemma {:induction false} CountSet(present: seq<bool>, n: nat, i: nat)
    requires i < n <= |present| && !present[i]
    ensures CountPresent(present[i := true], n) == CountPresent(present, n) + 1
  {
    if i < n - 1 {
      CountSet(present, n - 1, i);
    } else {
      CountOther(present, n - 1, i);
    }
  }

  lemma {:induction false} CountOther(present: seq<bool>, n: nat, i: nat)
    requires n <= i < |present|
    ensures CountPresent(present[i := true], n) == CountPresent(present, n)
  {
    if n > 0 {
      CountOther(present, n - 1, i);
    }
  }

  lemma {:induction false} CountNothing(n: nat)
    requires n <= PRESENT
    ensures CountPresent(Nothing(), n) == 0
  {
    if n > 0 {
      CountNothing(n - 1);
    }
  }

  // ----- one frame

  /** After Arrive and before Place: the frame's block is current, and its place is still empty. */
  ghost predicate ReadyFor(a: Rx, m: Meta, image: seq<byte>, id: FrameId) {
    && a.broadcast && a.fecOk && a.lost == 0 && Accounted(a, m, image, UpTo(Base(a))) && Exists(m, id)
    && a.cur == BlockNo(m, id) && SlotNo(m, id) < PRESENT && !a.present[SlotNo(m, id)]
    && a.sawAny && a.maxOrdinal == Ordinal(m, id.seqNo, id.parity) && HeardUpTo(a, m)
  }

  /** A frame of the current block: only the ordinal bookkeeping changes. */
  lemma ArriveSameBlock(rx: Rx, m: Meta, image: seq<byte>, id: FrameId, floor: nat)
    requires Hearing(rx, m, image, floor) && Exists(m, id) && Ordinal(m, id.seqNo, id.parity) >= floor
    requires BlockNo(m, id) == rx.cur
    ensures ReadyFor(Arrive(rx, id), m, image, id)
    ensures HaveInBlock(Arrive(rx, id)) == HaveInBlock(rx)
  {
    hide NChunks, NBlocks, BlockK, Conforming, TotalFrames, Before, Ordinal, Exists, BlockNo, SlotNo, FrameRow, Tracks,
         CountPresent;
    FramePlace(m, id);
    var a := Arrive(rx, id);
    forall i | 0 <= i < |a.present| && i < Slots(a) && a.present[i] ensures RowGenuine(a, m, image, i) {
      assert RowGenuine(rx, m, image, i);
    }
  }

  /** The first frame of the next block: the old block is flushed whole. */
  lemma ArriveNextBlock(rx: Rx, m: Meta, image: seq<byte>, id: FrameId, floor: nat)
    requires Hearing(rx, m, image, floor) && Exists(m, id) && Ordinal(m, id.seqNo, id.parity) >= floor
    requires BlockNo(m, id) == rx.cur + 1 && HaveInBlock(rx) >= BlockK(m, rx.cur)
    ensures ReadyFor(Arrive(rx, id), m, image, id)
    ensures HaveInBlock(Arrive(rx, id)) == 0
  {
    hide NChunks, NBlocks, BlockK, Conforming, TotalFrames, Before, Ordinal, Exists, BlockNo, SlotNo, FrameRow,
         CountPresent, Tracks, Flush, Base, BufferGenuine, AllPresent, UpTo, BlockCounted;
    FramePlace(m, id);
    var ord := Ordinal(m, id.seqNo, id.parity);
    var seen := rx.(maxOrdinal := ord, sawAny := true);
    SeenSame(rx, m, image, ord);
    FlushWhole(seen, m, image);
    var a := Arrive(rx, id);
    assert a == Reset(Flush(seen), rx.cur + 1);
    InTransferBounds(rx, m);
    BlockKAt(m, rx.cur);
    NextBase(rx, a, m);
    EmptyBlock(a, m, image);
  }

  /** flush_block on a block that can be had whole: all chunks up to its end are stored. */
  lemma FlushWhole(rx: Rx, m: Meta, image: seq<byte>)
    requires rx.fecOk && Accounted(rx, m, image, UpTo(Base(rx))) && HaveInBlock(rx) >= BlockK(m, rx.cur)
    ensures Flushed(rx, Flush(rx), m, image, UpTo(Base(rx) + BlockK(m, rx.cur))) && Flush(rx).lost == rx.lost
  {
    hide NChunks, NBlocks, BlockK, Conforming, Tracks, Flush, Base, BufferGenuine, HaveInBlock, AllPresent;
    var got := FlushAccounts(rx, m, image, UpTo(Base(rx)));
    assert got == UpTo(Base(rx) + BlockK(m, rx.cur));
  }

  lemma EmptyBlock(a: Rx, m: Meta, image: seq<byte>)
    requires a.meta == m && a.present == Nothing() && BlockK(m, a.cur) + m.nParity <= PRESENT
    ensures BufferGenuine(a, m, image) && HaveInBlock(a) == 0
  {
    hide BlockK, FrameRow;
    CountNothing(Slots(a));
  }

  lemma NextBase(rx: Rx, a: Rx, m: Meta)
    requires rx.meta == m && a.meta == m && a.cur == rx.cur + 1
    ensures Base(a) == Base(rx) + m.block
  {
    assert (rx.cur + 1) * m.block == rx.cur * m.block + m.block;
  }

  lemma SeenSame(rx: Rx, m: Meta, image: seq<byte>, ord: nat)
    requires rx.fecOk && Accounted(rx, m, image, UpTo(Base(rx)))
    ensures var seen := rx.(maxOrdinal := ord, sawAny := true);
      Accounted(seen, m, image, UpTo(Base(seen))) && HaveInBlock(seen) == HaveInBlock(rx) && Base(seen) == Base(rx)
  {
    hide NChunks, NBlocks, BlockK, Conforming, FrameRow, CountPresent, Tracks;
    var seen := rx.(maxOrdinal := ord, sawAny := true);
    forall i | 0 <= i < |seen.present| && i < Slots(seen) && seen.present[i] ensures RowGenuine(seen, m, image, i) {
      assert RowGenuine(rx, m, image, i);
    }
  }

  /** Placing the frame marks one more of the block, genuinely. */
  lemma PlaceGenuine(a: Rx, m: Meta, image: seq<byte>, id: FrameId)
    requires ReadyFor(a, m, image, id)
    ensures Placeable(a, id)
    ensures var p := Place(a, id, Payload(m, image, id));
      && Accounted(p, m, image, UpTo(Base(p))) && HeardUpTo(p, m)
      && p == a.(buf := p.buf, present := p.present) && Base(p) == Base(a)
      && HaveInBlock(p) == HaveInBlock(a) + 1
  {
    hide NChunks, NBlocks, BlockK, Conforming, TotalFrames, Before, Ordinal, Exists, BlockNo, SlotNo, FrameRow, Tracks,
         CountPresent, Payload;
    FramePlace(m, id);
    InTransferBounds(a, m);
    PaddedPayload(m, image, id);
    var slot := SlotNo(m, id);
    var p := Place(a, id, Payload(m, image, id));
    CountSet(a.present, Slots(a), slot);
    forall i | 0 <= i < |p.present| && i < Slots(p) && p.present[i] ensures RowGenuine(p, m, image, i) {
      if i != slot {
        assert RowGenuine(a, m, image, i);
      }
    }
  }

  /** The last block complete: the transfer ends with the image in the store. */
  lemma LastBlockFinishes(p: Rx, m: Meta, image: seq<byte>)
    requires p.broadcast && p.fecOk && p.lost == 0 && Accounted(p, m, image, UpTo(Base(p)))
    requires p.cur + 1 == NBlocks(m) && HaveInBlock(p) >= BlockK(m, p.cur)
    ensures Finished(Judge(p), image)
  {
    hide NChunks, NBlocks, BlockK, Conforming, Tracks, Flush, HaveInBlock, BufferGenuine, UpTo;
    FlushWhole(p, m, image);
    BlockKAt(m, p.cur);
    UpToCount(NChunks(m));
    WholeIsImage(Flush(p).store, m, image, UpTo(NChunks(m)));
  }

  /** Which block the next frame can belong to, and that the one left behind is recoverable. */
  lemma NextFrameBlock(rx: Rx, m: Meta, image: seq<byte>, id: FrameId, sent: seq<Packet>, fates: seq<Fate>, floor: nat)
    requires Hearing(rx, m, image, floor) && Enough(rx, m, sent, fates) && Airs(m, image, sent, floor)
    requires |fates| > 0 && fates[0] == Delivered && |sent| > 0 && sent[0].DataP? && sent[0].id == id
    ensures BlockNo(m, id) == rx.cur
            || (BlockNo(m, id) == rx.cur + 1 && HaveInBlock(rx) >= BlockK(m, rx.cur))
  {
    hide NChunks, NBlocks, BlockK, Conforming, TotalFrames, Before, Ordinal, Exists, BlockNo, SlotNo, HaveInBlock,
         BufferGenuine, HeardUpTo, Tracks;
    FramePlace(m, id);
    var blk, ord := BlockNo(m, id), Ordinal(m, id.seqNo, id.parity);
    if blk < rx.cur {
      BeforeMonotone(m, blk + 1, rx.cur);
    } else if blk > rx.cur {
      BeforeMonotone(m, rx.cur + 1, blk);
      assert EnoughFor(rx, m, sent, fates, rx.cur);
      assert EnoughFor(rx, m, sent[1..], fates[1..], rx.cur);
      PassedBlockHasEnough(rx, m, image, sent[1..], fates[1..], ord + 1, rx.cur);
      if blk > rx.cur + 1 {
        var skipped := rx.cur + 1;
        BeforeMonotone(m, skipped + 1, blk);
        assert EnoughFor(rx, m, sent, fates, skipped);
        assert EnoughFor(rx, m, sent[1..], fates[1..], skipped);
        PassedBlockHasEnough(rx, m, image, sent[1..], fates[1..], ord + 1, skipped);
        BlockKAt(m, skipped);
      }
    }
  }

  /** One delivered frame: either the transfer is finished, or the receiver goes on with enough to come. */
  lemma HearData(rx: Rx, m: Meta, image: seq<byte>, sent: seq<Packet>, fates: seq<Fate>, floor: nat)
    requires Hearing(rx, m, image, floor) && Enough(rx, m, sent, fates) && Airs(m, image, sent, floor)
    requires |fates| > 0 && fates[0] == Delivered && |sent| > 0 && sent[0].DataP?
    ensures var n, next := OnPacket(rx, sent[0]).0, Ordinal(m, sent[0].id.seqNo, sent[0].id.parity) + 1;
      Finished(n, image) || (Hearing(n, m, image, next) && Enough(n, m, sent[1..], fates[1..]))
  {
    hide NChunks, NBlocks, BlockK, Conforming, TotalFrames, Before, Ordinal, Exists, BlockNo, SlotNo, HaveInBlock,
         BufferGenuine, HeardUpTo, Tracks, Arrive, Place, Placeable, StillRecoverable, Flush, Base, Payload, UpTo, Below,
         StoredAsHeard;
    var id := sent[0].id;
    FramePlace(m, id);
    NextFrameBlock(rx, m, image, id, sent, fates, floor);
    if BlockNo(m, id) == rx.cur {
      ArriveSameBlock(rx, m, image, id, floor);
    } else {
      ArriveNextBlock(rx, m, image, id, floor);
    }
    var a := Arrive(rx, id);
    PlaceGenuine(a, m, image, id);
    var p := Place(a, id, Payload(m, image, id));
    forall b | p.cur <= b < NBlocks(m) ensures EnoughFor(p, m, sent[1..], fates[1..], b) {
      assert EnoughFor(rx, m, sent, fates, b);
    }
    HearPlaced(p, m, image, sent[1..], fates[1..], Ordinal(m, id.seqNo, id.parity));
  }

  /** The judgement after a frame is placed, while enough is still to come. */
  lemma HearPlaced(p: Rx, m: Meta, image: seq<byte>, sent: seq<Packet>, fates: seq<Fate>, ord: nat)
    requires p.broadcast && p.fecOk && p.lost == 0 && Accounted(p, m, image, UpTo(Base(p))) && HeardUpTo(p, m)
    requires p.sawAny && Before(m, p.cur) <= p.maxOrdinal == ord
    requires Enough(p, m, sent, fates) && Airs(m, image, sent, ord + 1)
    ensures var n := Judge(p);
      Finished(n, image) || (Hearing(n, m, image, ord + 1) && Enough(n, m, sent, fates))
  {
    hide NChunks, NBlocks, BlockK, Conforming, TotalFrames, Before, HaveInBlock, BufferGenuine, HeardUpTo, Tracks,
         StillRecoverable, Flush, Base, UpTo, Below, StoredAsHeard, Airs, Coming;
    if p.cur + 1 == NBlocks(m) && HaveInBlock(p) >= BlockK(m, p.cur) {
      LastBlockFinishes(p, m, image);
    } else {
      assert EnoughFor(p, m, sent, fates, p.cur);
      NotGivenUp(p, m, image, sent, fates, ord + 1);
    }
  }

  // ----- the whole channel

  lemma {:induction false} HearingFinishes(rx: Rx, m: Meta, image: seq<byte>, sent: seq<Packet>, fates: seq<Fate>, floor: nat)
    requires Hearing(rx, m, image, floor) && Enough(rx, m, sent, fates) && Airs(m, image, sent, floor)
    ensures Finished(Listen(rx, sent, fates), image)
    decreases |fates|
  {
    hide NChunks, NBlocks, BlockK, Conforming, TotalFrames, Before, Ordinal, Exists, BlockNo, SlotNo, HaveInBlock,
         BufferGenuine, HeardUpTo, Tracks, OnPacket, StillRecoverable, Payload;
    NotOver(rx, m, image, sent, fates, floor);
    if fates[0] == Quiet || |sent| == 0 {
      StillEnough(rx, m, sent, fates, sent, fates[1..]);
      assert EnoughFor(rx, m, sent, fates, rx.cur);
      NotGivenUp(rx, m, image, sent, fates, floor);
      HearingFinishes(rx, m, image, sent, fates[1..], floor);
    } else if fates[0] == Delivered && sent[0].DataP? {
      HearData(rx, m, image, sent, fates, floor);
      var n := OnPacket(rx, sent[0]).0;
      if Finished(n, image) {
        FinishedStays(n, image, sent[1..], fates[1..]);
      } else {
        HearingFinishes(n, m, image, sent[1..], fates[1..], Ordinal(m, sent[0].id.seqNo, sent[0].id.parity) + 1);
      }
    } else {
      StillEnough(rx, m, sent, fates, sent[1..], fates[1..]);
      FinNotHeard(rx, m, image, sent, fates, floor);
      if fates[0] == Delivered {
        OtherPacketsIgnored(rx, m, sent[0]);
      }
      var next := if sent[0].DataP? then Ordinal(m, sent[0].id.seqNo, sent[0].id.parity) + 1
                  else if sent[0].FinP? then Max(floor, TotalFrames(m)) else floor;
      HearingFinishes(rx, m, image, sent[1..], fates[1..], next);
    }
  }

  /** Losing a packet, or hearing one that is not a frame, takes nothing from what is coming. */
  lemma StillEnough(rx: Rx, m: Meta, sent: seq<Packet>, fates: seq<Fate>, sent': seq<Packet>, fates': seq<Fate>)
    requires Enough(rx, m, sent, fates) && |fates| > 0 && fates' == fates[1..]
    requires sent' == if fates[0] == Quiet || |sent| == 0 then sent else sent[1..]
    requires fates[0] == Delivered && |sent| > 0 ==> !sent[0].DataP?
    ensures Enough(rx, m, sent', fates')
  {
    hide NBlocks, BlockK, HaveInBlock;
    forall b | rx.cur <= b < NBlocks(m) ensures EnoughFor(rx, m, sent', fates', b) {
      assert EnoughFor(rx, m, sent, fates, b);
    }
  }

  /** A FIN cannot be heard while frames are still needed: none come after it. */
  lemma FinNotHeard(rx: Rx, m: Meta, image: seq<byte>, sent: seq<Packet>, fates: seq<Fate>, floor: nat)
    requires Hearing(rx, m, image, floor) && Enough(rx, m, sent, fates) && Airs(m, image, sent, floor)
    requires |fates| > 0 && |sent| > 0 && fates[0] != Quiet && (fates[0] == Delivered ==> !sent[0].DataP?)
    ensures !sent[0].FinP?
  {
    hide NChunks, NBlocks, BlockK, Conforming, TotalFrames, HaveInBlock, BufferGenuine, HeardUpTo, Tracks, Before;
    if sent[0].FinP? {
      StillEnough(rx, m, sent, fates, sent[1..], fates[1..]);
      var last := NBlocks(m) - 1;
      assert EnoughFor(rx, m, sent[1..], fates[1..], last);
      BlockKAt(m, last);
      BlocksCoverEverything(m);
      PassedBlockHasEnough(rx, m, image, sent[1..], fates[1..], Max(floor, TotalFrames(m)), last);
    }
  }

  lemma OtherPacketsIgnored(rx: Rx, m: Meta, p: Packet)
    requires rx.haveMeta && rx.meta == m && (p == MetaP(m) || p == IdentP)
    ensures OnPacket(rx, p).0 == rx
  {
  }

  lemma {:induction false} FinishedStays(rx: Rx, image: seq<byte>, sent: seq<Packet>, fates: seq<Fate>)
    requires Finished(rx, image)
    ensures Finished(Listen(rx, sent, fates), image)
    decreases |fates|
  {
    if |fates| > 0 {
      if fates[0] == Quiet {
        FinishedStays(OnSilence(rx), image, sent, fates[1..]);
      } else if |sent| == 0 {
        FinishedStays(rx, image, sent, fates[1..]);
      } else {
        FinishedStays(if fates[0] == Delivered then OnPacket(rx, sent[0]).0 else rx, image, sent[1..], fates[1..]);
      }
    }
  }

  // ----- before the first META is heard

  /** From the moment the receiver is switched on. */
  lemma {:induction false} WaitingFinishes(rx: Rx, m: Meta, image: seq<byte>, sent: seq<Packet>, fates: seq<Fate>, floor: nat)
    requires Waiting(rx, m) && |image| == m.imgLen && Airs(m, image, sent, floor)
    requires forall b :: 0 <= b < NBlocks(m) ==> WillHear(m, sent, fates, b)
    ensures Finished(Listen(rx, sent, fates), image)
    decreases |fates|
  {
    hide NChunks, NBlocks, BlockK, Conforming, TotalFrames, Before, Ordinal, Exists, BlockNo, SlotNo, StillRecoverable,
         Payload, HaveInBlock, Begin, SessionScratch;
    assert WillHear(m, sent, fates, 0) && 0 < BlockK(m, 0) by {
      Extent(m);
      BlockKAt(m, 0);
    }
    if fates[0] == Quiet || |sent| == 0 {
      WaitOn(m, sent, fates, sent, fates[1..]);
      WaitingFinishes(rx, m, image, sent, fates[1..], floor);
    } else if fates[0] == Delivered && sent[0].MetaP? {
      BeginHearing(rx, m, image, sent, fates, floor);
      HearingFinishes(Begin(rx, m), m, image, sent[1..], fates[1..], floor);
    } else {
      WaitOn(m, sent, fates, sent[1..], fates[1..]);
      var next := if sent[0].DataP? then Ordinal(m, sent[0].id.seqNo, sent[0].id.parity) + 1
                  else if sent[0].FinP? then Max(floor, TotalFrames(m)) else floor;
      WaitingFinishes(rx, m, image, sent[1..], fates[1..], next);
    }
  }

  /** A receiver that has heard nothing yet, with scratch memory for a block of m. */
  ghost predicate Waiting(rx: Rx, m: Meta) {
    && rx.broadcast && !rx.haveMeta && rx.outcome == Listening && rx.lost == 0
    && |rx.memory| > 0 && |rx.memory| >= SessionScratch(BlockK(m, 0), m.nParity, m.chunk)
  }

  /** A META gets through, and after it at least k frames of block b. */
  ghost predicate WillHear(m: Meta, sent: seq<Packet>, fates: seq<Fate>, b: nat) {
    Coming(m, sent, fates, b, false) >= BlockK(m, b)
  }

  lemma WaitOn(m: Meta, sent: seq<Packet>, fates: seq<Fate>, sent': seq<Packet>, fates': seq<Fate>)
    requires forall b :: 0 <= b < NBlocks(m) ==> WillHear(m, sent, fates, b)
    requires |fates| > 0 && fates' == fates[1..]
    requires sent' == if fates[0] == Quiet || |sent| == 0 then sent else sent[1..]
    requires fates[0] == Delivered && |sent| > 0 ==> !sent[0].MetaP?
    ensures forall b :: 0 <= b < NBlocks(m) ==> WillHear(m, sent', fates', b)
  {
    hide NBlocks, BlockK;
    forall b | 0 <= b < NBlocks(m) ensures WillHear(m, sent', fates', b) {
      assert WillHear(m, sent, fates, b);
    }
  }

  lemma BeginHearing(rx: Rx, m: Meta, image: seq<byte>, sent: seq<Packet>, fates: seq<Fate>, floor: nat)
    requires Waiting(rx, m) && |image| == m.imgLen && Airs(m, image, sent, floor)
    requires |fates| > 0 && fates[0] == Delivered && |sent| > 0 && sent[0].MetaP?
    requires forall b :: 0 <= b < NBlocks(m) ==> WillHear(m, sent, fates, b)
    ensures Hearing(Begin(rx, m), m, image, floor) && Enough(Begin(rx, m), m, sent[1..], fates[1..])
  {
    hide NChunks, NBlocks, BlockK, Conforming, TotalFrames, Before, Ordinal, Exists, BlockNo, SlotNo, StillRecoverable,
         Payload, HaveInBlock, SessionScratch, BufferRows, BufferGenuine, Tracks, UpTo;
    var n := Begin(rx, m);
    BeginAccounts(rx, m, image);
    assert UpTo(Base(n)) == {} by {
      UpToCount(Base(n));
    }
    ConformingBounds(m);
    Extent(m);
    BlockKAt(m, 0);
    EmptyBlock(n, m, image);
    forall b | n.cur <= b < NBlocks(m) ensures EnoughFor(n, m, sent[1..], fates[1..], b) {
      assert WillHear(m, sent, fates, b);
    }
  }

  // ----- what the sender puts on the air

  lemma {:induction false} SprinkledAirs(m: Meta, image: seq<byte>, n: nat, rest: seq<Packet>)
    requires Conforming(m) && n <= TotalFrames(m) && Airs(m, image, rest, n)
    ensures Airs(m, image, Sprinkled(m, image, n) + rest, 0)
  {
    hide Conforming, TotalFrames, Airs, PacketAt;
    if n == 0 {
      assert Sprinkled(m, image, n) + rest == rest;
    } else {
      var tail := if n % META_EVERY == 0 then [MetaP(m)] else [];
      MetaAirs(m, image, tail, rest, n);
      FrameAirs(m, image, n - 1, tail + rest);
      SprinkledAirs(m, image, n - 1, [PacketAt(m, image, n - 1)] + (tail + rest));
      Regroup(Sprinkled(m, image, n - 1), [PacketAt(m, image, n - 1)], tail, rest);
    }
  }

  lemma Regroup(a: seq<Packet>, b: seq<Packet>, c: seq<Packet>, d: seq<Packet>)
    ensures a + b + c + d == a + (b + (c + d))
  {
  }

  lemma FrameAirs(m: Meta, image: seq<byte>, o: nat, rest: seq<Packet>)
    requires Conforming(m) && o < TotalFrames(m) && Airs(m, image, rest, o + 1)
    ensures Airs(m, image, [PacketAt(m, image, o)] + rest, o)
  {
    hide Conforming, TotalFrames, Ordinal, Exists, Payload, IdOfOrdinal;
    OrdinalInvertsOrder(m, o);
    assert ([PacketAt(m, image, o)] + rest)[1..] == rest;
  }

  lemma {:induction false} MetaAirs(m: Meta, image: seq<byte>, metas: seq<Packet>, rest: seq<Packet>, floor: nat)
    requires Airs(m, image, rest, floor) && forall i :: 0 <= i < |metas| ==> metas[i] == MetaP(m)
    ensures Airs(m, image, metas + rest, floor)
  {
    hide Conforming, TotalFrames, Ordinal, Exists, Payload;
    if |metas| == 0 {
      assert metas + rest == rest;
    } else {
      MetaAirs(m, image, metas[1..], rest, floor);
      assert (metas + rest)[1..] == metas[1..] + rest;
    }
  }

  lemma FinsAir(m: Meta, image: seq<byte>)
    requires Conforming(m)
    ensures Airs(m, image, [FinP, FinP, FinP], TotalFrames(m))
  {
    hide Conforming, TotalFrames;
    assert Airs(m, image, [], TotalFrames(m));
    assert [FinP, FinP, FinP][1..] == [FinP, FinP] && [FinP, FinP][1..] == [FinP] && [FinP][1..] == [];
    assert Airs(m, image, [FinP], TotalFrames(m));
    assert Airs(m, image, [FinP, FinP], TotalFrames(m));
  }

  lemma BroadcastAirs(m: Meta, image: seq<byte>)
    requires Conforming(m)
    ensures Airs(m, image, Broadcast(m, image), 0)
  {
    hide Conforming, TotalFrames, Sprinkled, Airs;
    FinsAir(m, image);
    SprinkledAirs(m, image, TotalFrames(m), [FinP, FinP, FinP]);
    var metas := [MetaP(m), MetaP(m), MetaP(m)];
    MetaAirs(m, image, metas, Sprinkled(m, image, TotalFrames(m)) + [FinP, FinP, FinP], 0);
    assert Broadcast(m, image) == metas + (Sprinkled(m, image, TotalFrames(m)) + [FinP, FinP, FinP]);
  }

  /**
    End to end: whatever the channel loses of a broadcast, a receiver that hears a META and afterwards at
    least k of the k + r frames of every block stops with the image complete and byte for byte the sender's.
  */
  lemma BroadcastDelivers(m: Meta, image: seq<byte>, memory: seq<byte>, fates: seq<Fate>)
    requires Conforming(m) && |image| == m.imgLen
    requires |memory| >= SessionScratch(BlockK(m, 0), m.nParity, m.chunk)
    requires forall b :: 0 <= b < NBlocks(m) ==> WillHear(m, Broadcast(m, image), fates, b)
    ensures Finished(Listen(Start(true, memory), Broadcast(m, image), fates), image)
  {
    hide Conforming, TotalFrames, Sprinkled, Airs, NBlocks, BlockK, Broadcast, SessionScratch;
    BroadcastAirs(m, image);
    ScratchAtLeast(BlockK(m, 0), m.nParity, m.chunk);
    ConformingBounds(m);
    WaitingFinishes(Start(true, memory), m, image, Broadcast(m, image), fates, 0);
  }

  lemma ScratchAtLeast(k: nat, r: nat, chunk: nat)
    ensures SessionScratch(k, r, chunk) >= chunk
  {
  }
}
