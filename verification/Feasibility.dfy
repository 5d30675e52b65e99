/**
  The receiver's feasibility test is exact for the block it is working on, in every state a lossy broadcast
  can leave it in.
*/
module Feasibility {
  import opened Bytes
  import opened Frames
  import opened Erasure
  import opened Receiver
  import opened Reception
  import opened Sender
  import A = Accounting
  import I = Image
  import Reached = Unheard
  import B = BroadcastProof

  /** Place i of the current block is still ahead of the highest ordinal heard. */
  ghost predicate ToCome(rx: Rx, i: nat) {
    i < Slots(rx) && (rx.sawAny ==> Before(rx.meta, rx.cur) + i > rx.maxOrdinal)
  }

  /** What the bitmap can look like after some delivery of the frames still to come. */
  ghost predicate Later(rx: Rx, p: seq<bool>) {
    |p| == |rx.present| && forall i :: 0 <= i < |p| ==> LaterAt(rx, p, i)
  }

  ghost predicate LaterAt(rx: Rx, p: seq<bool>, i: nat)
    requires i < |p| == |rx.present|
  {
    if p[i] then rx.present[i] || ToCome(rx, i) else !rx.present[i]
  }

  /** Every frame still to come, delivered. */
  ghost function AllLater(rx: Rx): (p: seq<bool>) {
    seq(|rx.present|, i requires 0 <= i < |rx.present| => rx.present[i] || ToCome(rx, i))
  }

  /** At most the remaining places can be gained over the first n ... */
  lemma {:induction false} GainAtMost(rx: Rx, p: seq<bool>, n: nat)
    requires Later(rx, p) && n <= Slots(rx) <= |rx.present|
    ensures CountPresent(p, n) <= CountPresent(rx.present, n) + (if n > Passed(rx) then n - Passed(rx) else 0)
  {
    hide BlockK, Before;
    if n > 0 {
      GainAtMost(rx, p, n - 1);
      assert LaterAt(rx, p, n - 1);
    }
  }

  /** ... and all of them are, when everything to come arrives and nothing beyond the highest ordinal was there. */
  lemma {:induction false} GainAll(rx: Rx, n: nat)
    requires n <= Slots(rx) <= |rx.present| && B.HeardUpTo(rx, rx.meta)
    ensures CountPresent(AllLater(rx), n) == CountPresent(rx.present, n) + (if n > Passed(rx) then n - Passed(rx) else 0)
  {
    hide BlockK, Before;
    if n > 0 {
      GainAll(rx, n - 1);
    }
  }

  ghost function Passed(rx: Rx): nat {
    FramesSent(rx.meta, rx.cur, rx.sawAny, rx.maxOrdinal)
  }

  /**
    The block is judged lost if and only if no delivery of its frames still to come brings it to k
    distinct frames.
  */
  lemma LostExactlyWhenHopeless(rx: Rx, m: Meta)
    requires InTransfer(rx, m) && B.HeardUpTo(rx, m)
    ensures StillRecoverable(rx) <==> exists p :: Later(rx, p) && CountPresent(p, Slots(rx)) >= BlockK(m, rx.cur)
  {
    hide BlockK, Before, NBlocks, NChunks, Conforming, B.HeardUpTo;
    InTransferBounds(rx, m);
    var all := AllLater(rx);
    GainAll(rx, Slots(rx));
    assert Later(rx, all) by {
      forall i | 0 <= i < |all| ensures LaterAt(rx, all, i) {
      }
    }
    forall p | Later(rx, p)
      ensures CountPresent(p, Slots(rx)) <= CountPresent(all, Slots(rx))
    {
      GainAtMost(rx, p, Slots(rx));
    }
    if StillRecoverable(rx) {
      assert Later(rx, all) && CountPresent(all, Slots(rx)) >= BlockK(m, rx.cur);
    }
  }

  /** Once a block is judged lost, no channel whatsoever completes it from what the sender has left to send. */
  lemma NoContinuationCompletes(rx: Rx, m: Meta, image: seq<byte>, sent: seq<Packet>, fates: seq<B.Fate>)
    requires InTransfer(rx, m) && !StillRecoverable(rx)
    requires B.Airs(m, image, sent, if rx.sawAny then rx.maxOrdinal + 1 else 0)
    ensures HaveInBlock(rx) + B.Coming(m, sent, fates, rx.cur, true) < BlockK(m, rx.cur)
  {
    hide BlockK, Before, NBlocks, NChunks, Conforming, B.Airs, B.Coming, HaveInBlock;
    InTransferBounds(rx, m);
    B.ComingBound(m, image, sent, fates, rx.cur, true, if rx.sawAny then rx.maxOrdinal + 1 else 0);
    assert Before(m, rx.cur + 1) == Before(m, rx.cur) + Slots(rx) by {
      BeforeNext(m, rx.cur);
    }
  }

  lemma BeforeNext(m: Meta, b: nat)
    ensures Before(m, b + 1) == Before(m, b) + BlockK(m, b) + m.nParity
  {
  }

  // ----- every state of every broadcast

  /** The first frame the receiver has no reason to think was sent. */
  function NextUnheard(rx: Rx): nat {
    if rx.sawAny then rx.maxOrdinal + 1 else 0
  }

  /** While the receiver listens to a broadcast, whatever was lost of it, its marks are of frames up to the highest heard. */
  lemma ListeningState(m: Meta, image: seq<byte>, memory: seq<byte>, fates: seq<B.Fate>)
    requires Conforming(m) && |image| == m.imgLen
    ensures var n := B.Listen(Start(true, memory), Broadcast(m, image), fates);
      n.outcome == Listening && n.haveMeta ==> InTransfer(n, m) && B.HeardUpTo(n, m) && NextUnheard(n) <= TotalFrames(m)
  {
    hide TotalFrames, Conforming, Broadcast, B.Listen, B.Airs, B.HeardUpTo, NBlocks, BlockK, Reached.Charted, Reached.AllReached;
    B.BroadcastAirs(m, image);
    var n := B.Listen(Start(true, memory), Broadcast(m, image), fates);
    Reached.WaitVerdict(Start(true, memory), m, image, Broadcast(m, image), fates, 0);
    if n.outcome == Listening && n.haveMeta {
      var got, heard :| Reached.Charted(n, m, image, got, heard);
      ChartedState(n, m, image, got, heard);
    }
  }

  lemma ChartedState(n: Rx, m: Meta, image: seq<byte>, got: set<nat>, heard: set<nat>)
    requires Reached.Charted(n, m, image, got, heard)
    ensures InTransfer(n, m) && B.HeardUpTo(n, m) && NextUnheard(n) <= TotalFrames(m)
  {
    hide Conforming, B.HeardUpTo, NBlocks, BlockK, TotalFrames, A.Accounted, Reached.BlockCharted;
    Reached.AccountedPlace(n, m, image, got);
  }

  /** What follows the first o frames of a broadcast. */
  ghost function BroadcastFrom(m: Meta, image: seq<byte>, o: nat): seq<Packet>
    requires Conforming(m) && o <= TotalFrames(m)
    decreases TotalFrames(m) - o
  {
    if o == TotalFrames(m) then [FinP, FinP, FinP]
    else [PacketAt(m, image, o)] + ((if (o + 1) % META_EVERY == 0 then [MetaP(m)] else []) + BroadcastFrom(m, image, o + 1))
  }

  lemma {:induction false} BroadcastSplits(m: Meta, image: seq<byte>, o: nat)
    requires Conforming(m) && o <= TotalFrames(m)
    ensures Broadcast(m, image) == [MetaP(m), MetaP(m), MetaP(m)] + Sprinkled(m, image, o) + BroadcastFrom(m, image, o)
    decreases TotalFrames(m) - o
  {
    hide Conforming, TotalFrames, PacketAt;
    if o < TotalFrames(m) {
      BroadcastSplits(m, image, o + 1);
      var metas, before, meta := [MetaP(m), MetaP(m), MetaP(m)], Sprinkled(m, image, o),
          if (o + 1) % META_EVERY == 0 then [MetaP(m)] else [];
      var rest := BroadcastFrom(m, image, o + 1);
      assert Sprinkled(m, image, o + 1) == before + [PacketAt(m, image, o)] + meta;
      Regroup(metas, before, [PacketAt(m, image, o)], meta, rest);
    }
  }

  lemma Regroup(a: seq<Packet>, b: seq<Packet>, c: seq<Packet>, d: seq<Packet>, e: seq<Packet>)
    ensures a + (b + c + d) + e == a + b + (c + (d + e))
  {
  }

  function AllDelivered(n: nat): (fates: seq<B.Fate>)
    ensures |fates| == n && forall i :: 0 <= i < n ==> fates[i] == B.Delivered
  {
    seq(n, _ => B.Delivered)
  }

  /** All that is left, delivered, holds every frame of the block from o on. */
  lemma {:induction false} AllComing(m: Meta, image: seq<byte>, o: nat, b: nat)
    requires Conforming(m) && o <= TotalFrames(m) && b < NBlocks(m)
    ensures var rest := BroadcastFrom(m, image, o);
      B.Coming(m, rest, AllDelivered(|rest|), b, true) == B.Max(Before(m, b + 1), o) - B.Max(Before(m, b), o)
    decreases TotalFrames(m) - o
  {
    hide Conforming, TotalFrames, NBlocks, Before, PacketAt, BlockNo;
    B.Grows(m, b);
    if o == TotalFrames(m) {
      FinsBring(m, b);
      BlocksCoverEverything(m);
      BeforeMonotone(m, b + 1, NBlocks(m));
    } else {
      AllComing(m, image, o + 1, b);
      var rest, next := BroadcastFrom(m, image, o), BroadcastFrom(m, image, o + 1);
      var meta := if (o + 1) % META_EVERY == 0 then [MetaP(m)] else [];
      MetaBrings(m, meta, next, b);
      assert rest[1..] == meta + next;
      assert AllDelivered(|rest|)[1..] == AllDelivered(|rest| - 1);
      FrameOfBlock(m, image, o, b);
    }
  }

  /** Frame o is of block b exactly when its number is among b's. */
  lemma FrameOfBlock(m: Meta, image: seq<byte>, o: nat, b: nat)
    requires Conforming(m) && o < TotalFrames(m) && b < NBlocks(m)
    ensures PacketAt(m, image, o).DataP?
    ensures BlockNo(m, PacketAt(m, image, o).id) == b <==> Before(m, b) <= o < Before(m, b + 1)
  {
    hide Conforming, TotalFrames, NBlocks, Before, BlockNo, Ordinal, Exists, IdOfOrdinal, I.Payload;
    OrdinalInvertsOrder(m, o);
    var id := IdOfOrdinal(m, o);
    B.FramePlace(m, id);
    var own := BlockNo(m, id);
    if own < b {
      BeforeMonotone(m, own + 1, b);
    } else if own > b {
      BeforeMonotone(m, b + 1, own);
    }
  }

  lemma MetaBrings(m: Meta, meta: seq<Packet>, next: seq<Packet>, b: nat)
    requires meta == [] || meta == [MetaP(m)]
    ensures B.Coming(m, meta + next, AllDelivered(|meta + next|), b, true) == B.Coming(m, next, AllDelivered(|next|), b, true)
  {
    if meta == [] {
      assert meta + next == next;
    } else {
      assert (meta + next)[1..] == next;
      assert AllDelivered(|meta + next|)[1..] == AllDelivered(|next|);
    }
  }

  lemma FinsBring(m: Meta, b: nat)
    ensures B.Coming(m, [FinP, FinP, FinP], AllDelivered(3), b, true) == 0
  {
    assert [FinP, FinP, FinP][1..] == [FinP, FinP] && [FinP, FinP][1..] == [FinP] && [FinP][1..] == [];
    assert AllDelivered(3)[1..] == AllDelivered(2) && AllDelivered(2)[1..] == AllDelivered(1) && AllDelivered(1)[1..] == [];
    assert B.Coming(m, [FinP], AllDelivered(1), b, true) == 0;
    assert B.Coming(m, [FinP, FinP], AllDelivered(2), b, true) == 0;
  }

  /**
    In every state a lossy broadcast leaves a listening receiver in, the block is judged recoverable if and only
    if some fate of what follows the last frame heard brings it, together with the distinct frames it has, to k.
  */
  lemma RecoverableExactlyWhenSomeFateIs(m: Meta, image: seq<byte>, memory: seq<byte>, fates: seq<B.Fate>)
    requires Conforming(m) && |image| == m.imgLen
    ensures var n := B.Listen(Start(true, memory), Broadcast(m, image), fates);
      n.outcome == Listening && n.haveMeta ==>
        && NextUnheard(n) <= TotalFrames(m) && B.HeardUpTo(n, m)
        && (StillRecoverable(n) <==> exists more :: CanComplete(n, m, image, more))
  {
    hide Conforming, Broadcast, B.Listen, TotalFrames, NBlocks, BlockK, StillRecoverable, CanComplete, B.HeardUpTo;
    var n := B.Listen(Start(true, memory), Broadcast(m, image), fates);
    ListeningState(m, image, memory, fates);
    if n.outcome == Listening && n.haveMeta {
      RecoverableBySomeFate(n, m, image);
    }
  }

  /** With this fate of what is left, the block gets k distinct frames. */
  ghost predicate CanComplete(rx: Rx, m: Meta, image: seq<byte>, more: seq<B.Fate>)
    requires Conforming(m) && NextUnheard(rx) <= TotalFrames(m)
  {
    HaveInBlock(rx) + B.Coming(m, BroadcastFrom(m, image, NextUnheard(rx)), more, rx.cur, true) >= BlockK(m, rx.cur)
  }

  lemma RecoverableBySomeFate(rx: Rx, m: Meta, image: seq<byte>)
    requires InTransfer(rx, m) && NextUnheard(rx) <= TotalFrames(m)
    ensures StillRecoverable(rx) <==> exists more :: CanComplete(rx, m, image, more)
  {
    hide Conforming, TotalFrames, NBlocks, BlockK, Before, NChunks, HaveInBlock, B.Airs, BroadcastFrom, B.Coming;
    InTransferBounds(rx, m);
    BeforeNext(m, rx.cur);
    var rest := BroadcastFrom(m, image, NextUnheard(rx));
    AllComing(m, image, NextUnheard(rx), rx.cur);
    if StillRecoverable(rx) {
      assert CanComplete(rx, m, image, AllDelivered(|rest|));
    } else {
      RestAirs(m, image, NextUnheard(rx));
      forall more ensures !CanComplete(rx, m, image, more) {
        NoContinuationCompletes(rx, m, image, rest, more);
      }
    }
  }

  lemma {:induction false} RestAirs(m: Meta, image: seq<byte>, o: nat)
    requires Conforming(m) && o <= TotalFrames(m)
    ensures B.Airs(m, image, BroadcastFrom(m, image, o), o)
    decreases TotalFrames(m) - o
  {
    hide Conforming, TotalFrames, B.Airs, PacketAt;
    if o == TotalFrames(m) {
      B.FinsAir(m, image);
    } else {
      RestAirs(m, image, o + 1);
      var meta := if (o + 1) % META_EVERY == 0 then [MetaP(m)] else [];
      B.MetaAirs(m, image, meta, BroadcastFrom(m, image, o + 1), o + 1);
      B.FrameAirs(m, image, o, meta + BroadcastFrom(m, image, o + 1));
    }
  }

  // ----- when the receiver gives up

  /** A window that closes empty ends a broadcast exactly when no fate of what is left completes the block. */
  lemma SilenceGivesUpExactly(m: Meta, image: seq<byte>, memory: seq<byte>, fates: seq<B.Fate>)
    requires Conforming(m) && |image| == m.imgLen
    ensures var n := B.Listen(Start(true, memory), Broadcast(m, image), fates);
      n.outcome == Listening && n.haveMeta ==>
        && NextUnheard(n) <= TotalFrames(m)
        && (OnSilence(n).outcome == Unrecoverable <==> !exists more :: CanComplete(n, m, image, more))
        && (OnSilence(n).outcome != Unrecoverable ==> OnSilence(n) == n)
  {
    hide Conforming, Broadcast, B.Listen, TotalFrames, CanComplete, StillRecoverable, B.HeardUpTo;
    var n := B.Listen(Start(true, memory), Broadcast(m, image), fates);
    RecoverableExactlyWhenSomeFateIs(m, image, memory, fates);
    ListensInBroadcast(Start(true, memory), Broadcast(m, image), fates);
  }

  lemma {:induction false} ListensInBroadcast(rx: Rx, sent: seq<Packet>, fates: seq<B.Fate>)
    ensures B.Listen(rx, sent, fates).broadcast == rx.broadcast
    decreases |fates|
  {
    hide OnPacket, StillRecoverable;
    if |fates| > 0 {
      if fates[0] == B.Quiet {
        ListensInBroadcast(OnSilence(rx), sent, fates[1..]);
      } else if |sent| == 0 {
        ListensInBroadcast(rx, sent, fates[1..]);
      } else {
        SameMode(rx, sent[0]);
        ListensInBroadcast(if fates[0] == B.Delivered then OnPacket(rx, sent[0]).0 else rx, sent[1..], fates[1..]);
      }
    }
  }

  lemma SameMode(rx: Rx, p: Packet)
    ensures OnPacket(rx, p).0.broadcast == rx.broadcast
  {
    hide BlockK, NChunks, NBlocks, StillRecoverable, Report, MissingUpTo, SessionScratch, BufferRows, CanDecode, Decoded,
         HaveInBlock, AllPresent, Ordinal, BlockNo, SlotNo, Flush;
    FlushMode(rx);
    match p
    case DataP(id, payload) =>
      var ord := Ordinal(rx.meta, id.seqNo, id.parity);
      FlushMode(rx.(maxOrdinal := if !rx.sawAny || ord > rx.maxOrdinal then ord else rx.maxOrdinal, sawAny := true));
      var a := Arrive(rx, id);
      if Placeable(a, id) {
        FlushMode(Place(a, id, payload));
      }
    case _ =>
  }

  lemma FlushMode(rx: Rx)
    ensures Flush(rx).broadcast == rx.broadcast
  {
    hide BlockK, CanDecode, Decoded, AllPresent, MarkAll;
    var k := BlockK(rx.meta, rx.cur);
    WriteMode(rx, k);
    if CanDecode(rx) {
      CanDecodeFits(rx);
      var n := Slots(rx);
      var d := Decoded(rx.buf[..n], rx.present[..n], k, rx.meta.nParity, rx.meta.chunk);
      WriteMode(rx.(buf := d + rx.buf[k..], present := MarkAll(rx.present, k)), k);
    }
  }

  lemma CanDecodeFits(rx: Rx)
    requires CanDecode(rx)
    ensures BlockK(rx.meta, rx.cur) <= Slots(rx) <= |rx.buf| && Slots(rx) <= |rx.present|
  {
    hide BlockK;
  }

  lemma {:induction false} WriteMode(rx: Rx, n: nat)
    ensures WriteOut(rx, n).broadcast == rx.broadcast
  {
    if n > 0 {
      WriteMode(rx, n - 1);
    }
  }

  /**
    After a frame is placed the receiver finishes if it was the last block and that has k frames; otherwise it gives
    up exactly when no fate of what is left can complete the block.
  */
  lemma FrameGivesUpExactly(p: Rx, m: Meta, image: seq<byte>)
    requires InTransfer(p, m) && p.broadcast && NextUnheard(p) <= TotalFrames(m)
    ensures Judge(p).outcome == Unrecoverable <==> !exists more :: CanComplete(p, m, image, more)
    ensures Judge(p).outcome in {Complete, Incomplete} <==> p.cur + 1 == NBlocks(m) && HaveInBlock(p) >= BlockK(m, p.cur)
    ensures Judge(p).outcome == Listening ==> Judge(p) == p
  {
    hide Conforming, TotalFrames, NBlocks, BlockK, CanComplete, Flush, HaveInBlock, NChunks;
    RecoverableBySomeFate(p, m, image);
  }
}
