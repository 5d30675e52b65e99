/**
  What is left of a transfer that ends early.  Whenever a frame or a FIN stops the receiver, everything it
  has heard of the image is in the store: nothing is lost with the block it was working on.
*/
module Salvage {
  import opened Bytes
  import opened Frames
  import opened Image
  import opened Sender
  import opened Receiver
  import opened Reception
  import opened Accounting
  import opened Safety
  import opened AnyLosses
  import Unheard
  import B = BroadcastProof

  /** Source chunk c waits in the block buffer. */
  predicate Buffered(rx: Rx, c: nat) {
    Base(rx) <= c < Base(rx) + BlockK(rx.meta, rx.cur) && c - Base(rx) < |rx.present| && rx.present[c - Base(rx)]
  }

  ghost predicate Safe(rx: Rx, got: set<nat>, c: nat) {
    c in got || Buffered(rx, c)
  }

  /** Every chunk heard is stored and counted, or waits in the buffer. */
  ghost predicate Salvaged(rx: Rx, m: Meta, image: seq<byte>, got: set<nat>, chunks: set<nat>) {
    Accounted(rx, m, image, got) && forall c :: c in chunks ==> Safe(rx, got, c)
  }

  /** A stopped receiver has them all. */
  ghost predicate Kept(n: Rx, m: Meta, image: seq<byte>, got: set<nat>, chunks: set<nat>) {
    Closed(n, m, image, got) && chunks <= got
  }

  /** Once the marks are counted nothing waits any more. */
  lemma AllCounted(rx: Rx, got: set<nat>, got': set<nat>, chunks: set<nat>)
    requires got <= got' && MarksCounted(rx, got') && forall c :: c in chunks ==> Safe(rx, got, c)
    ensures chunks <= got'
  {
    hide BlockK, Base;
    forall c | c in chunks ensures c in got' {
      assert Safe(rx, got, c);
      if c !in got {
        assert rx.present[c - Base(rx)] && Base(rx) + (c - Base(rx)) in got';
      }
    }
  }

  lemma StillSafe(rx: Rx, n: Rx, got: set<nat>, got': set<nat>, chunks: set<nat>)
    requires got <= got' && n.meta == rx.meta && n.cur == rx.cur && |n.present| == |rx.present|
    requires forall i :: 0 <= i < |rx.present| && rx.present[i] ==> n.present[i]
    requires forall c :: c in chunks ==> Safe(rx, got, c)
    ensures forall c :: c in chunks ==> Safe(n, got', c)
  {
    hide BlockK, Base;
    SameBase(rx, n);
    forall c | c in chunks ensures Safe(n, got', c) {
      assert Safe(rx, got, c);
    }
  }

  /** Up to the frame's block: whatever waited is stored when the block changes. */
  lemma ArriveSalvages(rx: Rx, m: Meta, image: seq<byte>, got: set<nat>, chunks: set<nat>, id: FrameId) returns (got': set<nat>)
    requires Salvaged(rx, m, image, got, chunks) && Exists(m, id) && BlockNo(m, id) >= rx.cur
    ensures var a := Arrive(rx, id);
      Salvaged(a, m, image, got', chunks) && a.cur == BlockNo(m, id) && SameTransfer(rx, a)
  {
    hide Accounted, Arrive, BlockNo, Exists, Safe, MarksCounted, BlockGot, HasBlock, Below, BlockK, Ordinal, U16;
    AccountedTransfer(rx, m, image, got);
    got' := ArriveAccounts(rx, m, image, got, id);
    var a := Arrive(rx, id);
    AccountedTransfer(a, m, image, got');
    if BlockNo(m, id) == rx.cur {
      StillSafe(rx, a, got, got', chunks);
    } else {
      AllCounted(rx, got, got', chunks);
      forall c | c in chunks ensures Safe(a, got', c) {
        CountedIsSafe(a, got', c);
      }
    }
  }

  lemma CountedIsSafe(rx: Rx, got: set<nat>, c: nat)
    requires c in got
    ensures Safe(rx, got, c)
  {
  }

  /** The chunk a frame carries, if it is a source frame. */
  function ChunkOf(id: FrameId): set<nat> {
    if id.parity then {} else {id.seqNo}
  }

  lemma PlaceSalvages(a: Rx, m: Meta, image: seq<byte>, got: set<nat>, chunks: set<nat>, id: FrameId) returns (got': set<nat>)
    requires Salvaged(a, m, image, got, chunks) && Exists(m, id) && BlockNo(m, id) == a.cur && Placeable(a, id)
    ensures Salvaged(Place(a, id, Payload(m, image, id)), m, image, got', chunks + ChunkOf(id))
  {
    hide Accounted, Place, Placeable, Payload, BlockNo, SlotNo, Exists, Safe, BlockK, Base;
    AccountedTransfer(a, m, image, got);
    got' := PlaceAccounts(a, m, image, got, id);
    var p := Place(a, id, Payload(m, image, id));
    AccountedTransfer(p, m, image, got');
    StillSafe(a, p, got, got', chunks);
    if !id.parity {
      SourceFrame(m, image, id);
      NowBuffered(p, m, id, SlotNo(m, id));
    }
  }

  lemma NowBuffered(p: Rx, m: Meta, id: FrameId, slot: nat)
    requires p.meta == m && slot < |p.present| && p.present[slot] && slot < BlockK(m, p.cur)
    requires id.seqNo == p.cur * m.block + slot
    ensures forall got: set<nat> :: Safe(p, got, id.seqNo)
  {
    hide BlockK;
  }

  /** One frame: it goes on with everything safe, or it has stopped with everything stored. */
  lemma DataSalvages(rx: Rx, m: Meta, image: seq<byte>, got: set<nat>, chunks: set<nat>, id: FrameId) returns (got': set<nat>)
    requires Salvaged(rx, m, image, got, chunks) && Exists(m, id) && BlockNo(m, id) >= rx.cur
    ensures var n := OnData(rx, id, Payload(m, image, id));
      if n.outcome == Listening then Salvaged(n, m, image, got', chunks + ChunkOf(id))
      else Kept(n, m, image, got', chunks + ChunkOf(id))
  {
    hide Accounted, Arrive, Place, Placeable, Payload, BlockNo, SlotNo, Exists, Judge, Closed, Safe, MarksCounted, BlockK, HasBlock,
         BlockGot;
    AccountedTransfer(rx, m, image, got);
    got' := ArriveSalvages(rx, m, image, got, chunks, id);
    var a := Arrive(rx, id);
    AccountedTransfer(a, m, image, got');
    if !id.parity {
      SourcePlaceable(a, m, image, got', id);
    }
    if Placeable(a, id) {
      got' := PlaceSalvages(a, m, image, got', chunks, id);
      var p := Place(a, id, Payload(m, image, id));
      AccountedTransfer(p, m, image, got');
      var before := got';
      got' := JudgeAccounts(p, m, image, before);
      if Judge(p).outcome != Listening {
        AllCounted(p, before, got', chunks + ChunkOf(id));
      } else {
        got' := before;
      }
    } else {
      assert chunks + ChunkOf(id) == chunks;
    }
  }

  /**
    When a frame stops the receiver, every source chunk of its block that is marked present is in the store, and
    the block is counted lost if and only if it could not be had whole.
  */
  lemma StopKeepsTheBlock(rx: Rx, m: Meta, image: seq<byte>, got: set<nat>, id: FrameId)
    requires Accounted(rx, m, image, got) && Exists(m, id) && BlockNo(m, id) >= rx.cur && Placeable(Arrive(rx, id), id)
    ensures var p := Place(Arrive(rx, id), id, Payload(m, image, id)); var n := OnData(rx, id, Payload(m, image, id));
      n.outcome != Listening ==>
        && (forall i :: 0 <= i < BlockK(m, p.cur) && i < |p.present| && p.present[i] ==> Holds(n.store, m, image, Base(p) + i))
        && n.lost == if HasBlock(p) then p.lost else U16(p.lost + 1)
  {
    hide Accounted, Arrive, Place, Placeable, Payload, BlockNo, SlotNo, Exists, Judge, Tracks, BlockK, HasBlock, Base, BlockGot,
         Holds, U16, Below;
    AccountedTransfer(rx, m, image, got);
    var before := ArriveAccounts(rx, m, image, got, id);
    var a := Arrive(rx, id);
    var placed := PlaceAccounts(a, m, image, before, id);
    var p := Place(a, id, Payload(m, image, id));
    AccountedTransfer(p, m, image, placed);
    var got' := JudgeAccounts(p, m, image, placed);
    var n := Judge(p);
    if n.outcome != Listening {
      forall i | 0 <= i < BlockK(m, p.cur) && i < |p.present| && p.present[i]
        ensures Holds(n.store, m, image, Base(p) + i)
      {
        CountedIsHeld(n.store, m, image, got', Base(p) + i);
      }
    }
  }

  lemma CountedIsHeld(store: seq<byte>, m: Meta, image: seq<byte>, got: set<nat>, c: nat)
    requires Tracks(store, m, image, got) && c in got
    ensures c < NChunks(m) && Holds(store, m, image, c)
  {
    hide Conforming, NChunks, Holds, Blank;
    assert c < NChunks(m);
    assert TracksAt(store, m, image, got, c);
  }

  /** Any genuine packet of this block or a later one. */
  lemma PacketSalvages(rx: Rx, m: Meta, image: seq<byte>, got: set<nat>, chunks: set<nat>, p: Packet) returns (got': set<nat>)
    requires Salvaged(rx, m, image, got, chunks) && Genuine(m, image, p) && PacketBlock(m, p, rx.cur) >= rx.cur
    ensures var n := OnPacket(rx, p).0; var all := chunks + if p.DataP? then ChunkOf(p.id) else {};
      if n.outcome == Listening then Salvaged(n, m, image, got', all) else Kept(n, m, image, got', all)
  {
    hide Accounted, OnData, Flush, Closed, Safe, BlockNo, Exists, Payload, MarksCounted, BlockK, Report, MissingUpTo, HasBlock,
         BlockGot, Base, UpTo;
    AccountedTransfer(rx, m, image, got);
    assert chunks + {} == chunks;
    match p {
      case MetaP(_) => got' := got;
      case DataP(id, _) => got' := DataSalvages(rx, m, image, got, chunks, id);
      case EobP(b, round) =>
        got' := EobAccounts(rx, m, image, got, b, round);
        var n := OnPacket(rx, p).0;
        AccountedTransfer(n, m, image, got');
        if b > rx.cur {
          AllCounted(rx, got, got', chunks);
          forall c | c in chunks ensures Safe(n, got', c) {
            CountedIsSafe(n, got', c);
          }
        }
      case FinP =>
        got' := FinAccounts(rx, m, image, got);
        AllCounted(rx, got, got', chunks);
        FinCloses(rx, m, image, got');
      case IdentP => got' := got;
    }
  }

  lemma FinCloses(rx: Rx, m: Meta, image: seq<byte>, got: set<nat>)
    requires Closed(OnPacket(rx, FinP).0, m, image, got)
    ensures OnPacket(rx, FinP).0.outcome != Listening
  {
    hide OnPacket, Tracks;
  }

  // ----- the whole channel

  /** The source chunks a receiver hears, from its first META until it stops. */
  ghost function HeardChunks(rx: Rx, sent: seq<Packet>, fates: seq<B.Fate>): set<nat>
    decreases |fates|
  {
    if |fates| == 0 || rx.outcome != Listening then {}
    else if fates[0] == B.Quiet then HeardChunks(OnSilence(rx), sent, fates[1..])
    else if |sent| == 0 then HeardChunks(rx, sent, fates[1..])
    else if fates[0] == B.Lost then HeardChunks(rx, sent[1..], fates[1..])
    else
      (if rx.haveMeta && sent[0].DataP? then ChunkOf(sent[0].id) else {})
      + HeardChunks(OnPacket(rx, sent[0]).0, sent[1..], fates[1..])
  }

  /** The receiver gives up in a listening window that closes empty; that path has no flush. */
  ghost predicate EndsInSilence(rx: Rx, sent: seq<Packet>, fates: seq<B.Fate>)
    decreases |fates|
  {
    |fates| > 0 && rx.outcome == Listening &&
    if fates[0] == B.Quiet then OnSilence(rx).outcome != Listening || EndsInSilence(OnSilence(rx), sent, fates[1..])
    else if |sent| == 0 then EndsInSilence(rx, sent, fates[1..])
    else EndsInSilence(if fates[0] == B.Delivered then OnPacket(rx, sent[0]).0 else rx, sent[1..], fates[1..])
  }

  /** Where chunk c is in the end: in the store, or left in the buffer of a receiver that did not stop by a packet. */
  ghost predicate EndsUp(n: Rx, m: Meta, image: seq<byte>, silent: bool, c: nat) {
    c < NChunks(m) && (Holds(n.store, m, image, c) || ((silent || n.outcome == Listening) && Buffered(n, c)))
  }

  ghost predicate AllEndUp(n: Rx, m: Meta, image: seq<byte>, silent: bool, chunks: set<nat>) {
    forall c :: c in chunks ==> EndsUp(n, m, image, silent, c)
  }

  lemma KeptEndsUp(n: Rx, m: Meta, image: seq<byte>, got: set<nat>, chunks: set<nat>, silent: bool)
    requires Kept(n, m, image, got, chunks)
    ensures AllEndUp(n, m, image, silent, chunks)
  {
    hide Tracks, Holds, NChunks, Buffered;
    forall c | c in chunks ensures EndsUp(n, m, image, silent, c) {
      CountedIsHeld(n.store, m, image, got, c);
    }
  }

  lemma SalvagedEndsUp(rx: Rx, n: Rx, m: Meta, image: seq<byte>, got: set<nat>, chunks: set<nat>, silent: bool)
    requires Salvaged(rx, m, image, got, chunks) && n == rx.(outcome := n.outcome)
    requires silent || n.outcome == Listening
    ensures AllEndUp(n, m, image, silent, chunks)
  {
    hide Tracks, Holds, NChunks, BlockK, Base, BufferGenuine, StoredAsHeard, Below;
    SameBase(rx, n);
    AccountedBlock(rx, m, image, got);
    forall c | c in chunks ensures EndsUp(n, m, image, silent, c) {
      assert Safe(rx, got, c);
      if c in got {
        CountedIsHeld(n.store, m, image, got, c);
      }
    }
  }

  lemma AccountedBlock(rx: Rx, m: Meta, image: seq<byte>, got: set<nat>)
    requires Accounted(rx, m, image, got)
    ensures Tracks(rx.store, m, image, got) && rx.meta == m && Base(rx) + BlockK(m, rx.cur) <= NChunks(m)
  {
    hide Tracks, NChunks, NBlocks, BlockK, BufferGenuine, StoredAsHeard, Below, Conforming;
    InTransferBounds(rx, m);
  }

  lemma {:induction false} ListenSalvages(rx: Rx, m: Meta, image: seq<byte>, got: set<nat>, chunks: set<nat>, sent: seq<Packet>,
                                          fates: seq<B.Fate>, blk: nat)
    requires Salvaged(rx, m, image, got, chunks) && Flows(m, image, sent, blk) && rx.cur <= blk
    ensures AllEndUp(B.Listen(rx, sent, fates), m, image, EndsInSilence(rx, sent, fates),
                     chunks + HeardChunks(rx, sent, fates))
    decreases |fates|
  {
    hide Accounted, Genuine, OnPacket, StillRecoverable, PacketBlock, Safe, Closed, AllEndUp, NBlocks;
    AccountedTransfer(rx, m, image, got);
    if |fates| == 0 {
      SalvagedEndsUp(rx, rx, m, image, got, chunks, false);
      assert chunks + {} == chunks;
    } else if fates[0] == B.Quiet {
      if OnSilence(rx) == rx {
        ListenSalvages(rx, m, image, got, chunks, sent, fates[1..], blk);
      } else {
        Unheard.StoppedListens(OnSilence(rx), sent, fates[1..]);
        SalvagedEndsUp(rx, OnSilence(rx), m, image, got, chunks, true);
        assert chunks + HeardChunks(rx, sent, fates) == chunks;
      }
    } else if |sent| == 0 {
      ListenSalvages(rx, m, image, got, chunks, sent, fates[1..], blk);
    } else {
      var next := PacketBlock(m, sent[0], blk);
      if fates[0] == B.Lost {
        ListenSalvages(rx, m, image, got, chunks, sent[1..], fates[1..], next);
      } else {
        HearSalvages(rx, m, image, got, chunks, sent, fates, blk);
      }
    }
  }

  lemma {:induction false} HearSalvages(rx: Rx, m: Meta, image: seq<byte>, got: set<nat>, chunks: set<nat>, sent: seq<Packet>,
                                        fates: seq<B.Fate>, blk: nat)
    requires Salvaged(rx, m, image, got, chunks) && Flows(m, image, sent, blk) && rx.cur <= blk
    requires |fates| > 0 && |sent| > 0 && fates[0] == B.Delivered
    ensures AllEndUp(B.Listen(rx, sent, fates), m, image, EndsInSilence(rx, sent, fates),
                     chunks + HeardChunks(rx, sent, fates))
    decreases |fates|, 0
  {
    hide Accounted, Genuine, OnPacket, StillRecoverable, PacketBlock, Safe, Closed, AllEndUp, ChunkOf, NBlocks, Kept;
    AccountedTransfer(rx, m, image, got);
    var p, n := sent[0], OnPacket(rx, sent[0]).0;
    NoEarlier(m, p, rx.cur, blk);
    var got' := PacketSalvages(rx, m, image, got, chunks, p);
    var all := chunks + if p.DataP? then ChunkOf(p.id) else {};
    assert chunks + HeardChunks(rx, sent, fates) == all + HeardChunks(n, sent[1..], fates[1..]);
    if n.outcome == Listening {
      StaysBehind(rx, m, image, got, p, blk);
      ListenSalvages(n, m, image, got', all, sent[1..], fates[1..], PacketBlock(m, p, blk));
    } else {
      Unheard.StoppedListens(n, sent[1..], fates[1..]);
      KeptEndsUp(n, m, image, got', all, false);
      NothingMore(n, sent[1..], fates[1..]);
      assert all + {} == all;
    }
  }

  lemma NothingMore(n: Rx, sent: seq<Packet>, fates: seq<B.Fate>)
    requires n.outcome != Listening
    ensures HeardChunks(n, sent, fates) == {} && !EndsInSilence(n, sent, fates)
  {
  }

  lemma NoEarlier(m: Meta, p: Packet, cur: nat, blk: nat)
    requires PacketBlock(m, p, blk) >= blk >= cur
    ensures PacketBlock(m, p, cur) >= cur
  {
    hide BlockNo;
  }

  /** The receiver never gets ahead of the sender. */
  lemma StaysBehind(rx: Rx, m: Meta, image: seq<byte>, got: set<nat>, p: Packet, blk: nat)
    requires Accounted(rx, m, image, got) && Genuine(m, image, p) && PacketBlock(m, p, blk) >= blk >= rx.cur
    ensures OnPacket(rx, p).0.outcome == Listening ==> OnPacket(rx, p).0.cur <= PacketBlock(m, p, blk)
  {
    hide Accounted, Genuine, OnPacket, Closed;
    var got' := HearOne(rx, m, image, got, p, blk);
  }

  /** From the moment the receiver is switched on. */
  lemma {:induction false} WaitSalvages(rx: Rx, m: Meta, image: seq<byte>, sent: seq<Packet>, fates: seq<B.Fate>, blk: nat)
    requires !rx.haveMeta && rx.outcome == Listening && Flows(m, image, sent, blk)
    ensures AllEndUp(B.Listen(rx, sent, fates), m, image, EndsInSilence(rx, sent, fates), HeardChunks(rx, sent, fates))
    decreases |fates|
  {
    hide Conforming, Exists, Payload, Flush, OnData, StillRecoverable, Begin, NBlocks, BlockNo, EndsUp, Accounted, NChunks, ChunkOf;
    if |fates| == 0 {
    } else if fates[0] == B.Quiet || |sent| == 0 {
      WaitSalvages(rx, m, image, sent, fates[1..], blk);
    } else {
      var next := PacketBlock(m, sent[0], blk);
      if fates[0] == B.Delivered && sent[0].MetaP? {
        BeginAccounts(rx, m, image);
        NothingHeard(Begin(rx, m), m, image);
        ListenSalvages(Begin(rx, m), m, image, {}, {}, sent[1..], fates[1..], next);
        assert {} + HeardChunks(Begin(rx, m), sent[1..], fates[1..]) == HeardChunks(rx, sent, fates);
      } else {
        WaitSalvages(rx, m, image, sent[1..], fates[1..], next);
        assert {} + HeardChunks(rx, sent[1..], fates[1..]) == HeardChunks(rx, sent[1..], fates[1..]);
      }
    }
  }

  lemma NothingHeard(rx: Rx, m: Meta, image: seq<byte>)
    requires Accounted(rx, m, image, {})
    ensures Salvaged(rx, m, image, {}, {})
  {
    hide Accounted;
  }

  /**
    Whatever is lost of a broadcast, when a frame or a FIN stops the receiver every source chunk it heard after
    a META is in the store.  Only a window that closes empty can leave some in the buffer, and then only
    of the block it was working on.
  */
  lemma HeardIsStored(m: Meta, image: seq<byte>, memory: seq<byte>, fates: seq<B.Fate>, c: nat)
    requires Conforming(m) && |image| == m.imgLen
    requires c in HeardChunks(Start(true, memory), Broadcast(m, image), fates)
    ensures var rx, sent := Start(true, memory), Broadcast(m, image); var n := B.Listen(rx, sent, fates);
      && c < NChunks(m)
      && (n.outcome != Listening && !EndsInSilence(rx, sent, fates) ==> Holds(n.store, m, image, c))
      && (Holds(n.store, m, image, c) || Buffered(n, c))
  {
    hide Conforming, Broadcast, B.Listen, Flows, HeardChunks, EndsInSilence, Holds, Buffered, NChunks;
    B.BroadcastAirs(m, image);
    AirsFlow(m, image, Broadcast(m, image), 0, 0);
    var rx, sent := Start(true, memory), Broadcast(m, image);
    WaitSalvages(rx, m, image, sent, fates, 0);
    assert EndsUp(B.Listen(rx, sent, fates), m, image, EndsInSilence(rx, sent, fates), c);
  }
}
