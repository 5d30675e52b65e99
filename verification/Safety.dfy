/**
  Safety of reception in both modes: whatever genuine packets get through, in the order they were sent,
  the store never holds a wrong chunk and the counts never lie.
*/
module Safety {
  import opened Wrappers
  import opened Bytes
  import opened Arithmetic
  import opened Frames
  import opened Image
  import opened Erasure
  import opened Sender
  import opened Receiver
  import opened Reception
  import opened Accounting
  import B = BroadcastProof

  /** A packet the sender of this transfer can have sent. */
  ghost predicate Genuine(m: Meta, image: seq<byte>, p: Packet) {
    && Conforming(m) && |image| == m.imgLen
    && match p
       case MetaP(m') => m' == m
       case DataP(id, payload) => Exists(m, id) && payload == Payload(m, image, id)
       case EobP(b, _) => b < NBlocks(m)
       case FinP => true
       case IdentP => true
       case _ => false
  }

  /** The block a packet belongs to, for a receiver already at block "cur". */
  function PacketBlock(m: Meta, p: Packet, cur: nat): nat {
    match p
    case DataP(id, _) => BlockNo(m, id)
    case EobP(b, _) => b
    case _ => cur
  }

  /** Block b is stored whole. */
  ghost predicate BlockGot(m: Meta, got: set<nat>, b: nat) {
    forall c :: b * m.block <= c < b * m.block + BlockK(m, b) ==> c in got
  }

  ghost predicate Known(rx: Rx, m: Meta, image: seq<byte>, got: set<nat>) {
    Accounted(rx, m, image, got) || Closed(rx, m, image, got)
  }

  /** Fields no packet of the transfer changes. */
  ghost predicate SameTransfer(rx: Rx, n: Rx) {
    n.broadcast == rx.broadcast && n.memory == rx.memory && n.haveMeta == rx.haveMeta && n.meta == rx.meta && n.fecOk == rx.fecOk
  }

  // ----- moving to another block

  lemma NextStart(m: Meta, b: nat, c: nat)
    requires Conforming(m) && b < c < NBlocks(m)
    ensures b * m.block + BlockK(m, b) <= c * m.block
  {
    hide NChunks, NBlocks, Conforming, BlockK;
    BlockKAt(m, b);
    TimesMonotone(b, c, m.block);
  }

  lemma EnterBlock(rx: Rx, m: Meta, image: seq<byte>, got: set<nat>, b: nat) returns (got': set<nat>)
    requires Accounted(rx, m, image, got) && rx.cur < b < NBlocks(m)
    ensures Accounted(Reset(Flush(rx), b), m, image, got') && AddedFrom(got, got', rx.cur * m.block)
    ensures BlockGot(m, got', rx.cur) <==> HasBlock(rx)
    ensures Below(got', rx.cur * m.block + BlockK(m, rx.cur)) && MarksCounted(rx, got')
    ensures Flush(rx).maxOrdinal == rx.maxOrdinal && Flush(rx).sawAny == rx.sawAny
    ensures SameTransfer(rx, Flush(rx)) && Flush(rx).lost == if HasBlock(rx) then rx.lost else U16(rx.lost + 1)
  {
    hide NChunks, NBlocks, BlockK, Conforming, Tracks, Flush, BufferGenuine, HaveInBlock, AllPresent, Base, HasBlock;
    got' := FlushAccounts(rx, m, image, got);
    var n := Reset(Flush(rx), b);
    NextStart(m, rx.cur, b);
    BlockCountedIsGot(rx, m, got');
    BlockCountedIsGot(n, m, got');
    FreshBlock(n, m, image, got');
  }

  lemma BlockCountedIsGot(rx: Rx, m: Meta, got: set<nat>)
    requires rx.meta == m
    ensures BlockCounted(rx, got) <==> BlockGot(m, got, rx.cur)
    ensures Base(rx) == rx.cur * m.block
  {
    hide BlockK;
  }

  // ----- one frame

  lemma ArriveAccounts(rx: Rx, m: Meta, image: seq<byte>, got: set<nat>, id: FrameId) returns (got': set<nat>)
    requires Accounted(rx, m, image, got) && Exists(m, id) && BlockNo(m, id) >= rx.cur
    ensures Accounted(Arrive(rx, id), m, image, got') && AddedFrom(got, got', rx.cur * m.block)
    ensures SameTransfer(rx, Arrive(rx, id)) && Arrive(rx, id).cur == BlockNo(m, id)
    ensures Arrive(rx, id).lost == if BlockNo(m, id) == rx.cur || HasBlock(rx) then rx.lost else U16(rx.lost + 1)
    ensures Arrive(rx, id).sawAny
    ensures var ord := Ordinal(m, id.seqNo, id.parity);
      Arrive(rx, id).maxOrdinal == if !rx.sawAny || ord > rx.maxOrdinal then ord else rx.maxOrdinal
    ensures BlockNo(m, id) == rx.cur ==> got' == got && Arrive(rx, id).present == rx.present
    ensures BlockNo(m, id) > rx.cur ==>
              && Arrive(rx, id).present == Nothing() && (BlockGot(m, got', rx.cur) <==> HasBlock(rx))
              && Below(got', rx.cur * m.block + BlockK(m, rx.cur)) && MarksCounted(rx, got')
  {
    hide NChunks, NBlocks, BlockK, Conforming, Tracks, Flush, BufferGenuine, HaveInBlock, AllPresent, Base, BlockNo, Exists,
         Ordinal, StoredAsHeard, Below;
    B.FramePlace(m, id);
    var ord := Ordinal(m, id.seqNo, id.parity);
    var seen := rx.(maxOrdinal := if !rx.sawAny || ord > rx.maxOrdinal then ord else rx.maxOrdinal, sawAny := true);
    SeenAccounts(rx, seen, m, image, got);
    if BlockNo(m, id) == rx.cur {
      got' := got;
    } else {
      got' := EnterBlock(seen, m, image, got, BlockNo(m, id));
      SameBase(rx, seen);
    }
  }

  lemma SeenAccounts(rx: Rx, seen: Rx, m: Meta, image: seq<byte>, got: set<nat>)
    requires Accounted(rx, m, image, got)
    requires seen == rx.(maxOrdinal := seen.maxOrdinal, sawAny := seen.sawAny)
    ensures Accounted(seen, m, image, got) && (HasBlock(seen) <==> HasBlock(rx))
  {
    hide NChunks, NBlocks, BlockK, Conforming, Tracks, FrameRow, CountPresent, AllPresent;
    forall i | 0 <= i < |seen.present| && i < Slots(seen) && seen.present[i] && seen.fecOk
      ensures RowGenuine(seen, m, image, i)
    {
      assert RowGenuine(rx, m, image, i);
    }
    forall i | 0 <= i < BlockK(m, seen.cur) && i < |seen.present| && !seen.fecOk ensures HeardStored(seen, got, i) {
      assert HeardStored(rx, got, i);
    }
  }

  /** The frame's chunk after it is placed: stored, buffered, or (parity without a buffer) ignored. */
  lemma PlaceAccounts(a: Rx, m: Meta, image: seq<byte>, got: set<nat>, id: FrameId) returns (got': set<nat>)
    requires Accounted(a, m, image, got) && Exists(m, id) && BlockNo(m, id) == a.cur && Placeable(a, id)
    ensures var p := Place(a, id, Payload(m, image, id));
      && Accounted(p, m, image, got') && AddedFrom(got, got', a.cur * m.block)
      && SameTransfer(a, p) && p.cur == a.cur && p.lost == a.lost && p.maxOrdinal == a.maxOrdinal && p.sawAny == a.sawAny
      && SlotNo(m, id) < |a.present| && p.present == a.present[SlotNo(m, id) := true]
  {
    hide NChunks, NBlocks, BlockK, Conforming, Tracks, BufferGenuine, Exists, BlockNo, SlotNo, Payload, Base, StoredAsHeard, Pad,
         Put;
    if a.fecOk {
      got' := got;
      PlaceInBuffer(a, m, image, got, id);
    } else if !a.present[SlotNo(m, id)] {
      got' := got + {id.seqNo};
      PlaceInStore(a, m, image, got, id);
    } else {
      got' := got;
    }
  }

  lemma PlaceInBuffer(a: Rx, m: Meta, image: seq<byte>, got: set<nat>, id: FrameId)
    requires Accounted(a, m, image, got) && Exists(m, id) && BlockNo(m, id) == a.cur && a.fecOk && Placeable(a, id)
    ensures Accounted(Place(a, id, Payload(m, image, id)), m, image, got)
  {
    hide NChunks, NBlocks, BlockK, Conforming, Tracks, Exists, BlockNo, SlotNo, Payload, FrameRow;
    B.FramePlace(m, id);
    PaddedPayload(m, image, id);
    var p, slot := Place(a, id, Payload(m, image, id)), SlotNo(m, id);
    forall i | 0 <= i < |p.present| && i < Slots(p) && p.present[i] ensures RowGenuine(p, m, image, i) {
      if i != slot {
        assert RowGenuine(a, m, image, i);
      }
    }
  }

  lemma PlaceInStore(a: Rx, m: Meta, image: seq<byte>, got: set<nat>, id: FrameId)
    requires Accounted(a, m, image, got) && Exists(m, id) && BlockNo(m, id) == a.cur && !a.fecOk && Placeable(a, id)
    requires !a.present[SlotNo(m, id)]
    ensures Accounted(Place(a, id, Payload(m, image, id)), m, image, got + {id.seqNo})
    ensures id.seqNo >= a.cur * m.block
  {
    hide NChunks, NBlocks, BlockK, Conforming, Tracks, Exists, BlockNo, SlotNo, Payload, ChunkAt, U16, Base, BufferGenuine, Put,
         Pad, FrameRow;
    var slot, no := SlotNo(m, id), id.seqNo;
    SourceFrameHere(a, m, image, got, id);
    StoreOne(a.store, m, image, got, no);
    CountOne(a.store, m, image, got, no);
    var p := Place(a, id, Payload(m, image, id));
    SameBase(a, p);
    BlockCountedIsGot(a, m, got);
    StillStoredAsHeard(a, p, got, slot);
    TracksLength(p.store, m, image, got + {no});
  }

  lemma SourceFrameHere(a: Rx, m: Meta, image: seq<byte>, got: set<nat>, id: FrameId)
    requires Accounted(a, m, image, got) && Exists(m, id) && BlockNo(m, id) == a.cur && !a.fecOk && Placeable(a, id)
    requires !a.present[SlotNo(m, id)]
    ensures Payload(m, image, id) == ChunkAt(m, image, id.seqNo) && id.seqNo == Base(a) + SlotNo(m, id)
    ensures SlotNo(m, id) < BlockK(m, a.cur) && id.seqNo !in got && id.seqNo < NChunks(m)
    ensures id.seqNo < Base(a) + BlockK(m, a.cur)
  {
    hide NChunks, NBlocks, BlockK, Conforming, Tracks, Exists, BlockNo, SlotNo, Payload, ChunkAt, BufferGenuine, FrameRow;
    SourceFrame(m, image, id);
    InTransferBounds(a, m);
    assert HeardStored(a, got, SlotNo(m, id));
  }

  lemma CountOne(store: seq<byte>, m: Meta, image: seq<byte>, got: set<nat>, no: nat)
    requires Tracks(store, m, image, got) && no < NChunks(m) && no !in got
    ensures U16(|got| + 1) == |got + {no}|
  {
    hide NChunks, Conforming, U16;
    WholeIsImage(store, m, image, got);
    CountedAll(got + {no}, NChunks(m));
    U16Small(|got| + 1);
  }

  lemma SourceFrame(m: Meta, image: seq<byte>, id: FrameId)
    requires Conforming(m) && Exists(m, id) && !id.parity
    ensures Payload(m, image, id) == ChunkAt(m, image, id.seqNo)
    ensures SlotNo(m, id) < BlockK(m, BlockNo(m, id)) && id.seqNo == BlockNo(m, id) * m.block + SlotNo(m, id)
  {
    hide NChunks, NBlocks, BlockK, Conforming, Quot, Rem, ChunkAt;
    PlaceOfId(m, id);
    PlaceOfData(m, id, BlockOf(m, id.seqNo, false), SlotOf(m, id.seqNo, false));
  }

  /** Room for every source place of the block. */
  lemma SourcePlaceable(a: Rx, m: Meta, image: seq<byte>, got: set<nat>, id: FrameId)
    requires Accounted(a, m, image, got) && Exists(m, id) && !id.parity && BlockNo(m, id) == a.cur
    ensures Placeable(a, id) && SlotNo(m, id) < BlockK(m, a.cur) <= |a.present|
  {
    hide NChunks, NBlocks, BlockK, Conforming, Tracks, BufferGenuine, StoredAsHeard, Below, Exists, BlockNo, SlotNo, Payload;
    InTransferBounds(a, m);
    B.FramePlace(m, id);
    SourceFrame(m, image, id);
  }

  lemma StillStoredAsHeard(a: Rx, p: Rx, got: set<nat>, slot: nat)
    requires StoredAsHeard(a, got) && slot < |a.present| && p.present == a.present[slot := true]
    requires p.meta == a.meta && p.cur == a.cur
    ensures StoredAsHeard(p, got + {Base(a) + slot})
  {
    hide BlockK, Base;
    SameBase(a, p);
    var all := got + {Base(a) + slot};
    forall i | 0 <= i < BlockK(p.meta, p.cur) && i < |p.present| ensures HeardStored(p, all, i) {
      assert HeardStored(a, got, i);
    }
  }

  lemma JudgeAccounts(p: Rx, m: Meta, image: seq<byte>, got: set<nat>) returns (got': set<nat>)
    requires Accounted(p, m, image, got)
    ensures Known(Judge(p), m, image, got') && AddedFrom(got, got', p.cur * m.block) && SameTransfer(p, Judge(p))
    ensures Judge(p) == p || Judge(p).outcome != Listening
    ensures Judge(p).outcome == Complete && p.lost < 0xFFFF ==>
              p.lost == 0 && HasBlock(p) && p.cur + 1 == NBlocks(m) && BlockGot(m, got', p.cur)
    ensures Judge(p).outcome != Listening ==>
              && Closed(Judge(p), m, image, got') && MarksCounted(p, got')
              && Judge(p).lost == if HasBlock(p) then p.lost else U16(p.lost + 1)
    ensures !p.broadcast ==> Judge(p) == p && got' == got
    ensures Judge(p).cur == p.cur
  {
    hide NChunks, NBlocks, BlockK, Conforming, Tracks, Flush, BufferGenuine, HaveInBlock, StillRecoverable, StoredAsHeard, Below,
         HasBlock, BlockCounted, BlockGot, Base;
    if !p.broadcast || Judge(p) == p {
      got' := got;
      AccountedTransfer(p, m, image, got);
    } else {
      got' := FlushAccounts(p, m, image, got);
      BlockCountedIsGot(p, m, got');
      if p.lost < 0xFFFF {
        U16Small(p.lost + 1);
      }
    }
  }

  lemma DataAccounts(rx: Rx, m: Meta, image: seq<byte>, got: set<nat>, id: FrameId) returns (got': set<nat>)
    requires Accounted(rx, m, image, got) && Exists(m, id) && BlockNo(m, id) >= rx.cur
    ensures var n := OnData(rx, id, Payload(m, image, id));
      Known(n, m, image, got') && got <= got' && SameTransfer(rx, n) && n.cur == BlockNo(m, id)
  {
    hide NChunks, NBlocks, BlockK, Conforming, Tracks, Flush, BufferGenuine, HaveInBlock, StillRecoverable, StoredAsHeard, Below,
         Arrive, Place, Placeable, Judge, BlockNo, Exists, Payload, Accounted, Closed, BlockGot, HasBlock;
    got' := ArriveAccounts(rx, m, image, got, id);
    var a := Arrive(rx, id);
    AccountedTransfer(rx, m, image, got);
    AccountedTransfer(a, m, image, got');
    if Placeable(a, id) {
      got' := PlaceAccounts(a, m, image, got', id);
      got' := JudgeAccounts(Place(a, id, Payload(m, image, id)), m, image, got');
    }
  }

  lemma AccountedTransfer(rx: Rx, m: Meta, image: seq<byte>, got: set<nat>)
    requires Accounted(rx, m, image, got)
    ensures rx.meta == m && rx.haveMeta && rx.outcome == Listening && rx.cur < NBlocks(m) && Conforming(m)
  {
    hide NChunks, NBlocks, BlockK, Conforming, Tracks, BufferGenuine, StoredAsHeard, Below;
  }

  // ----- any packet

  /** The answer to a packet never claims more than the store holds. */
  ghost predicate HonestAnswer(rx: Rx, image: seq<byte>, answer: Option<Packet>) {
    answer == Some(FinAckP(0)) ==> rx.store == image
  }

  lemma FinAccounts(rx: Rx, m: Meta, image: seq<byte>, got: set<nat>) returns (got': set<nat>)
    requires Accounted(rx, m, image, got)
    ensures var (n, answer) := OnPacket(rx, FinP);
      && Closed(n, m, image, got') && got <= got' && SameTransfer(rx, n) && n.cur == rx.cur
      && (n.outcome == Complete <==> got' == UpTo(NChunks(m))) && (n.outcome == Complete ==> n.store == image)
      && answer == (if rx.broadcast then None else Some(FinAckP(if n.outcome == Complete then 0 else 2)))
      && (BlockGot(m, got', rx.cur) <==> HasBlock(rx))
      && AddedFrom(got, got', rx.cur * m.block) && Below(got', rx.cur * m.block + BlockK(m, rx.cur))
      && MarksCounted(rx, got') && n.lost == if HasBlock(rx) then rx.lost else U16(rx.lost + 1)
  {
    hide NChunks, NBlocks, BlockK, Conforming, Tracks, Flush, BufferGenuine, HasBlock, StoredAsHeard, Below, BlockCounted,
         BlockGot, Base, UpTo;
    AccountedTransfer(rx, m, image, got);
    got' := FlushAccounts(rx, m, image, got);
    BlockCountedIsGot(rx, m, got');
    InRange(Flush(rx).store, m, image, got');
    WholeIsImage(Flush(rx).store, m, image, got');
  }

  lemma InRange(store: seq<byte>, m: Meta, image: seq<byte>, got: set<nat>)
    requires Tracks(store, m, image, got)
    ensures |got| == NChunks(m) <==> got == UpTo(NChunks(m))
  {
    hide NChunks, Conforming;
    CountedAll(got, NChunks(m));
  }

  lemma EobAccounts(rx: Rx, m: Meta, image: seq<byte>, got: set<nat>, b: nat, round: nat) returns (got': set<nat>)
    requires Accounted(rx, m, image, got) && rx.cur <= b < NBlocks(m)
    ensures var n := OnPacket(rx, EobP(b, round)).0;
      && Accounted(n, m, image, got') && got <= got' && SameTransfer(rx, n) && n.cur == b
      && OnPacket(rx, EobP(b, round)).1 == Report(b, round, MissingUpTo(n, BlockK(m, b)), Base(n))
      && (b == rx.cur ==> n == rx && got' == got)
      && (b > rx.cur ==> n.present == Nothing() && (BlockGot(m, got', rx.cur) <==> HasBlock(rx)) && MarksCounted(rx, got'))
  {
    hide NChunks, NBlocks, BlockK, Conforming, Tracks, Flush, BufferGenuine, HasBlock, StoredAsHeard, Below, BlockGot, Base,
         MissingUpTo, Report, Accounted;
    AccountedTransfer(rx, m, image, got);
    if b == rx.cur {
      got' := got;
    } else {
      got' := EnterBlock(rx, m, image, got, b);
    }
  }

  /** Hearing one genuine packet of the current block or a later one. */
  lemma PacketAccounts(rx: Rx, m: Meta, image: seq<byte>, got: set<nat>, p: Packet) returns (got': set<nat>)
    requires Known(rx, m, image, got) && Genuine(m, image, p) && PacketBlock(m, p, rx.cur) >= rx.cur
    ensures var (n, answer) := OnPacket(rx, p);
      Known(n, m, image, got') && got <= got' && SameTransfer(rx, n) && HonestAnswer(n, image, answer)
      && (n.cur == rx.cur || n.cur == PacketBlock(m, p, rx.cur))
  {
    hide NChunks, NBlocks, BlockK, Conforming, Tracks, Flush, OnData, HasBlock, BlockGot, Exists, Payload, BlockNo, Report,
         MissingUpTo, Base, UpTo, Accounted;
    if rx.outcome != Listening {
      got' := got;
      NotListening(rx, m, image, got);
    } else {
      AccountedTransfer(rx, m, image, got);
      match p {
        case MetaP(m') => got' := got;
        case DataP(id, payload) => got' := DataAccounts(rx, m, image, got, id);
        case EobP(b, round) =>
          got' := EobAccounts(rx, m, image, got, b, round);
          ReportIsStat(b, round, MissingUpTo(OnPacket(rx, p).0, BlockK(m, b)), Base(OnPacket(rx, p).0));
        case FinP => got' := FinAccounts(rx, m, image, got);
        case IdentP => got' := got;
      }
    }
  }

  lemma NotListening(rx: Rx, m: Meta, image: seq<byte>, got: set<nat>)
    requires Known(rx, m, image, got)
    ensures rx.outcome != Listening ==> Closed(rx, m, image, got)
  {
    hide NChunks, NBlocks, BlockK, Conforming, Tracks, BufferGenuine, StoredAsHeard, Below;
  }

  lemma ReportIsStat(b: nat, round: nat, missing: seq<nat>, base: nat)
    requires forall i :: 0 <= i < |missing| ==> base <= missing[i]
    ensures Report(b, round, missing, base).Some? ==> Report(b, round, missing, base).value.StatP?
  {
  }
}
