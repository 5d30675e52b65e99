/** What the receiver hears, and says, keeps the invariant. */
module InteractiveHear {
  import opened Bytes
  import opened Frames
  import opened Image
  import opened Sender
  import opened Receiver
  import opened Reception
  import opened Accounting
  import opened Safety
  import opened Interactive
  import opened InteractiveInv
  import opened InteractiveSend
  import opened InteractiveReply
  import B = BroadcastProof
  import Stat

  // ----- one source frame in interactive mode

  /** The bitmap after hearing source frame id. */
  function MarkedAfter(rx: Rx, m: Meta, id: FrameId): seq<bool> {
    var p := if BlockNo(m, id) == rx.cur then rx.present else Nothing();
    if SlotNo(m, id) < |p| then p[SlotNo(m, id) := true] else p
  }

  lemma HearSource(rx: Rx, m: Meta, image: seq<byte>, got: set<nat>, id: FrameId) returns (got': set<nat>)
    requires Accounted(rx, m, image, got) && !rx.broadcast && Exists(m, id) && !id.parity && BlockNo(m, id) >= rx.cur
    ensures var n := OnData(rx, id, Payload(m, image, id));
      && Accounted(n, m, image, got') && got <= got' && !n.broadcast && n.cur == BlockNo(m, id)
      && n.present == MarkedAfter(rx, m, id) && SlotNo(m, id) < BlockK(m, n.cur) <= |n.present|
      && (n.cur > rx.cur && HasBlock(rx) ==> BlockGot(m, got', rx.cur))
  {
    hide NChunks, NBlocks, BlockK, Conforming, Arrive, Place, Placeable, BlockNo, SlotNo, Exists, Payload, Accounted,
         BlockGot, HasBlock, Flush;
    var before := ArriveAccounts(rx, m, image, got, id);
    var a := Arrive(rx, id);
    AccountedTransfer(rx, m, image, got);
    AccountedTransfer(a, m, image, before);
    SourcePlaceable(a, m, image, before, id);
    got' := PlaceAccounts(a, m, image, before, id);
    GotMore(m, before, got', rx.cur);
  }

  lemma GotMore(m: Meta, got: set<nat>, got': set<nat>, b: nat)
    requires got <= got'
    ensures BlockGot(m, got, b) ==> BlockGot(m, got', b)
  {
    hide BlockK;
  }

  // ----- what the agreed blocks become

  predicate KeepsMarks(rx: Rx, n: Rx) {
    |rx.present| <= |n.present| && forall i :: 0 <= i < |rx.present| && rx.present[i] ==> n.present[i]
  }

  /** Held blocks stay held while the receiver stays at its block or moves on. */
  lemma HeldOn(rx: Rx, n: Rx, m: Meta, got: set<nat>, got': set<nat>, agreed: set<nat>)
    requires AllHeld(rx, m, got, agreed) && got <= got' && rx.meta == m
    requires n.cur == rx.cur && Active(n) ==> KeepsMarks(rx, n)
    requires n.cur != rx.cur || !Active(n) ==> (HasBlock(rx) ==> BlockGot(m, got', rx.cur))
    ensures AllHeld(n, m, got', agreed)
  {
    hide BlockK, BlockGot;
    forall b | b in agreed ensures HeldBlock(n, m, got', b) {
      assert HeldBlock(rx, m, got, b);
      GotMore(m, got, got', b);
    }
  }

  // ----- the sender's part

  lemma TxInvMoves(m: Meta, tx: Tx, rx: Rx, n: Rx)
    requires TxInv(m, tx, rx) && Active(rx) && Active(n) && n.meta == rx.meta == m
    requires rx.cur < n.cur <= TxRank(m, tx) && !Repairing(tx)
    ensures TxInv(m, tx, n)
  {
    hide NBlocks, BlockK, NeedsListed;
    if Here(tx) {
      AllListed(m, tx, n);
    }
  }

  lemma TxInvMarks(m: Meta, tx: Tx, rx: Rx, n: Rx, slot: nat)
    requires TxInv(m, tx, rx) && Active(rx) && Active(n) && n.meta == rx.meta == m && n.cur == rx.cur
    requires slot < |rx.present| && n.present == rx.present[slot := true]
    requires Repairing(tx) ==> BeforeRest(tx, Base(rx) + slot)
    ensures TxInv(m, tx, n)
  {
    hide NBlocks, BlockK, Stat.IsReport, Base;
    SameBase(rx, n);
    forall c: nat | c != Base(rx) + slot ensures Lacks(n, c) <==> Lacks(rx, c) {
    }
    assert !Lacks(n, Base(rx) + slot);
  }

  // ----- packets still in flight

  /** The rest of the queue, seen by a receiver that has heard its head. */
  lemma QueueMoves(m: Meta, image: seq<byte>, tx: Tx, rx: Rx, n: Rx, q: seq<Packet>)
    requires QueueInv(m, image, tx, rx, q) && |q| > 0 && !Repairing(tx)
    requires Active(n) ==> n.cur <= Rank(m, q[0]) || (n.cur == rx.cur && Active(rx))
    ensures QueueInv(m, image, tx, n, q[1..])
  {
    hide NBlocks, BlockK, OnAir, Rank, Past;
    forall i | 0 <= i < |q[1..]| ensures Queued(m, image, tx, n, q[1..][i]) {
      assert Queued(m, image, tx, rx, q[i + 1]) && Behind(m, tx, q[0], q[i + 1]);
    }
    forall i, j | 0 <= i < j < |q[1..]| ensures Behind(m, tx, q[1..][i], q[1..][j]) {
      assert Behind(m, tx, q[i + 1], q[j + 1]);
    }
  }

  lemma QueueRepairs(m: Meta, image: seq<byte>, tx: Tx, rx: Rx, n: Rx, q: seq<Packet>, slot: nat)
    requires QueueInv(m, image, tx, rx, q) && |q| > 0 && Repairing(tx) && q[0].DataP?
    requires Active(rx) && Active(n) && n.meta == rx.meta == m && n.cur == rx.cur
    requires slot < |rx.present| && n.present == rx.present[slot := true] && q[0].id.seqNo == Base(rx) + slot
    ensures QueueInv(m, image, tx, n, q[1..])
  {
    hide NBlocks, BlockK, OnAir, Rank, Past, Base, BeforeRest;
    SameBase(rx, n);
    forall i | 0 <= i < |q[1..]| ensures Queued(m, image, tx, n, q[1..][i]) {
      assert Queued(m, image, tx, rx, q[i + 1]) && Behind(m, tx, q[0], q[i + 1]);
    }
    forall i, j | 0 <= i < j < |q[1..]| ensures Behind(m, tx, q[1..][i], q[1..][j]) {
      assert Behind(m, tx, q[i + 1], q[j + 1]);
    }
  }

  // ----- what has been said

  /** Hearing anything but the question being asked means that question has not been answered yet. */
  lemma AirBefore(m: Meta, image: seq<byte>, tx: Tx, rx: Rx, n: Rx, q: seq<Packet>, air: set<Packet>)
    requires AirInv(m, image, tx, rx, q, air) && |q| > 0 && rx.outcome == Listening
    requires !(q[0].EobP? && Asked(tx, q[0].block, q[0].round))
    ensures AirInv(m, image, tx, n, q[1..], air)
  {
    hide Answer, Past;
    forall p | p in air ensures SaidBy(m, image, tx, n, q[1..], p) {
      assert SaidBy(m, image, tx, rx, q, p);
    }
  }

  // ----- the step, packet by packet

  /** A packet that leaves the receiver as it was and unanswered. */
  lemma IgnoredKeepsInv(m: Meta, image: seq<byte>, s: Sys, n: Sys)
    requires Inv(m, image, s) && |s.queue| > 0 && n == s.(queue := s.queue[1..])
    ensures Inv(m, image, n)
  {
    LoseKeepsInv(m, image, s, n);
  }

  lemma FirstMetaKeepsInv(m: Meta, image: seq<byte>, s: Sys, n: Sys)
    requires Inv(m, image, s) && |s.queue| > 0 && s.queue[0] == MetaP(m) && !s.rx.haveMeta
    requires n == s.(queue := s.queue[1..], rx := Begin(s.rx, m))
    ensures Inv(m, image, n)
  {
    hide Conforming, NBlocks, BlockK, QueueInv, AirInv, Begin, Stat.IsReport, NeedsListed, AllHeld;
    BeginAccounts(s.rx, m, image);
    BeginIs(s.rx, m);
    assert Accounts(n.rx, m, image, n.agreed, {}) by {
      assert AllHeld(n.rx, m, {}, {}) by {
        NoneHeld(n.rx, m);
      }
    }
    QueueMoves(m, image, s.tx, s.rx, n.rx, s.queue);
    AirBefore(m, image, s.tx, s.rx, n.rx, s.queue, s.air);
    AllListedIfFirst(m, s.tx, n.rx);
  }

  lemma NoneHeld(rx: Rx, m: Meta)
    ensures AllHeld(rx, m, {}, {})
  {
    hide HeldBlock;
  }

  lemma BeginIs(rx: Rx, m: Meta)
    ensures var n := Begin(rx, m); n.broadcast == rx.broadcast && n.haveMeta && n.meta == m && n.outcome == rx.outcome
  {
    hide NChunks, BlockK, SessionScratch;
  }

  lemma AllListedIfFirst(m: Meta, tx: Tx, rx: Rx)
    requires rx.meta == m
    ensures tx.todo == BlockChunks(m, tx.b) ==> NeedsListed(m, tx, rx)
  {
    hide NeedsListed, BlockK;
    if tx.todo == BlockChunks(m, tx.b) {
      AllListed(m, tx, rx);
    }
  }

  lemma DataKeepsInv(m: Meta, image: seq<byte>, s: Sys, n: Sys, id: FrameId)
    requires Inv(m, image, s) && Exists(m, id) && Active(s.rx)
    requires |s.queue| > 0 && s.queue[0] == DataP(id, Payload(m, image, id))
    requires n == s.(queue := s.queue[1..], rx := OnData(s.rx, id, Payload(m, image, id)))
    ensures Inv(m, image, n)
  {
    hide Conforming, NBlocks, BlockK, NChunks, OnData, Payload, Exists, BlockNo, SlotNo, Accounted, Closed, QueueInv, TxInv,
         AirInv, HasBlock, BlockGot, AllHeld, Base;
    var rx, q := s.rx, s.queue;
    HeadQueued(m, image, s.tx, rx, q);
    RxActive(rx, m, image, s.agreed);
    var got :| Accounted(rx, m, image, got) && Accounts(rx, m, image, s.agreed, got);
    var got' := HearSource(rx, m, image, got, id);
    AccountedTransfer(n.rx, m, image, got');
    HeldOn(rx, n.rx, m, got, got', s.agreed);
    assert Accounts(n.rx, m, image, n.agreed, got');
    AirBefore(m, image, s.tx, rx, n.rx, q, s.air);
    SourceFrame(m, image, id);
    BlockCountedIsGot(rx, m, got);
    if n.rx.cur == rx.cur {
      DataHere(m, image, s.tx, rx, n.rx, q, SlotNo(m, id));
    } else {
      DataAhead(m, image, s.tx, rx, n.rx, q);
    }
  }

  /** The packet about to be heard. */
  lemma HeadQueued(m: Meta, image: seq<byte>, tx: Tx, rx: Rx, q: seq<Packet>)
    requires QueueInv(m, image, tx, rx, q) && |q| > 0
    ensures Queued(m, image, tx, rx, q[0])
  {
    hide Queued, Behind;
  }

  lemma DataHere(m: Meta, image: seq<byte>, tx: Tx, rx: Rx, n: Rx, q: seq<Packet>, slot: nat)
    requires QueueInv(m, image, tx, rx, q) && |q| > 0 && q[0].DataP? && TxInv(m, tx, rx)
    requires Active(rx) && Active(n) && n.meta == rx.meta == m && n.cur == rx.cur
    requires slot < |rx.present| && n.present == rx.present[slot := true] && q[0].id.seqNo == Base(rx) + slot
    ensures QueueInv(m, image, tx, n, q[1..]) && TxInv(m, tx, n)
  {
    hide NBlocks, BlockK, QueueInv, TxInv, Base, OnAir, Rank, Past, BeforeRest, Lacks;
    HeadQueued(m, image, tx, rx, q);
    TxInvMarks(m, tx, rx, n, slot);
    if Repairing(tx) {
      QueueRepairs(m, image, tx, rx, n, q, slot);
    } else {
      QueueMoves(m, image, tx, rx, n, q);
    }
  }

  lemma DataAhead(m: Meta, image: seq<byte>, tx: Tx, rx: Rx, n: Rx, q: seq<Packet>)
    requires QueueInv(m, image, tx, rx, q) && |q| > 0 && TxInv(m, tx, rx)
    requires Active(rx) && Active(n) && n.meta == rx.meta == m && rx.cur < n.cur == Rank(m, q[0])
    ensures QueueInv(m, image, tx, n, q[1..]) && TxInv(m, tx, n)
  {
    hide NBlocks, BlockK, QueueInv, OnAir, Rank, Past, BeforeRest, NeedsListed, Stat.IsReport;
    HeadQueued(m, image, tx, rx, q);
    TxInvMoves(m, tx, rx, n);
    QueueMoves(m, image, tx, rx, n, q);
  }

  lemma EobKeepsInv(m: Meta, image: seq<byte>, s: Sys, n: Sys, b: nat, round: nat)
    requires Inv(m, image, s) && HearStep(s, n) && s.queue[0] == EobP(b, round) && Active(s.rx)
    ensures Inv(m, image, n)
  {
    hide Conforming, NBlocks, BlockK, NChunks, OnPacket, Accounted, Closed, QueueInv, TxInv, AirInv, HasBlock, BlockGot, AllHeld,
         Base, MissingUpTo, Report, Past;
    var rx, q := s.rx, s.queue;
    HeadQueued(m, image, s.tx, rx, q);
    RxActive(rx, m, image, s.agreed);
    var got :| Accounted(rx, m, image, got) && Accounts(rx, m, image, s.agreed, got);
    var got' := EobAccounts(rx, m, image, got, b, round);
    AccountedTransfer(n.rx, m, image, got');
    HeldOn(rx, n.rx, m, got, got', s.agreed);
    assert Accounts(n.rx, m, image, n.agreed, got');
    EobAir(m, image, s.tx, rx, n.rx, q, s.air, n.air);
    if b > rx.cur {
      DataAhead(m, image, s.tx, rx, n.rx, q);
    } else {
      TailQueue(m, image, s.tx, rx, q);
    }
  }

  lemma EobAir(m: Meta, image: seq<byte>, tx: Tx, rx: Rx, n: Rx, q: seq<Packet>, air: set<Packet>, air': set<Packet>)
    requires QueueInv(m, image, tx, rx, q) && AirInv(m, image, tx, rx, q, air) && |q| > 0 && q[0].EobP?
    requires Active(rx) && Active(n) && n.meta == m && n.cur == q[0].block && (n.cur == rx.cur ==> n == rx)
    requires air' == if Answer(m, n, q[0].round).Some? then air + {Answer(m, n, q[0].round).value} else air
    ensures AirInv(m, image, tx, n, q[1..], air')
  {
    hide Queued, Base, MissingUpTo, OnAir, BlockK, Rank;
    if Asked(tx, q[0].block, q[0].round) {
      forall p | p in air ensures SaidBy(m, image, tx, n, q[1..], p) {
        assert SaidBy(m, image, tx, rx, q, p);
      }
    } else {
      AirBefore(m, image, tx, rx, n, q, air);
    }
    if Answer(m, n, q[0].round).Some? {
      NewStat(m, image, tx, rx, n, q);
    }
  }

  lemma NewStat(m: Meta, image: seq<byte>, tx: Tx, rx: Rx, n: Rx, q: seq<Packet>)
    requires QueueInv(m, image, tx, rx, q) && |q| > 0 && q[0].EobP? && Active(n) && n.cur == q[0].block
    requires Answer(m, n, q[0].round).Some?
    ensures SaidBy(m, image, tx, n, q[1..], Answer(m, n, q[0].round).value)
  {
    hide Base, MissingUpTo, OnAir, BlockK, Rank, Stat.ChooseEnc, Stat.EncodeBody;
    HeadQueued(m, image, tx, rx, q);
    var p := q[0];
    if Asked(tx, p.block, p.round) {
      forall i | 0 <= i < |q[1..]| ensures q[1..][i] == EobP(tx.b, tx.round) {
        assert Behind(m, tx, q[0], q[i + 1]);
      }
    }
  }

  lemma FinKeepsInv(m: Meta, image: seq<byte>, s: Sys, n: Sys)
    requires Inv(m, image, s) && HearStep(s, n) && s.queue[0] == FinP && Active(s.rx)
    ensures Inv(m, image, n)
  {
    hide Conforming, NBlocks, BlockK, NChunks, OnPacket, Accounted, QueueInv, TxInv, AirInv, HasBlock, BlockGot, AllHeld,
         Base, UpTo;
    var rx, q := s.rx, s.queue;
    HeadQueued(m, image, s.tx, rx, q);
    TxHere(m, s.tx, rx);
    RxActive(rx, m, image, s.agreed);
    var got :| Accounted(rx, m, image, got) && Accounts(rx, m, image, s.agreed, got);
    var got' := FinAccounts(rx, m, image, got);
    AccountedTransfer(rx, m, image, got);
    assert n.rx.outcome != Listening;
    HeldOn(rx, n.rx, m, got, got', s.agreed);
    assert Accounts(n.rx, m, image, n.agreed, got');
    assert !Here(s.tx);
    QueueMoves(m, image, s.tx, rx, n.rx, q);
    TxInvDone(m, s.tx, rx, n.rx);
    FinAir(m, image, s.tx, rx, n.rx, q, s.air, n.air);
  }

  lemma TxInvDone(m: Meta, tx: Tx, rx: Rx, n: Rx)
    requires TxInv(m, tx, rx) && !Here(tx) && !Active(n)
    ensures TxInv(m, tx, n)
  {
  }

  lemma FinAir(m: Meta, image: seq<byte>, tx: Tx, rx: Rx, n: Rx, q: seq<Packet>, air: set<Packet>, air': set<Packet>)
    requires AirInv(m, image, tx, rx, q, air) && |q| > 0 && q[0] == FinP && Active(rx)
    requires n.outcome != Listening && (n.outcome == Complete ==> n.store == image)
    requires air' == air + {FinAckP(if n.outcome == Complete then 0 else 2)}
    ensures AirInv(m, image, tx, n, q[1..], air')
  {
    hide SaidBy;
    AirBefore(m, image, tx, rx, n, q, air);
    FinSaid(m, image, tx, n, q[1..], if n.outcome == Complete then 0 else 2);
  }

  lemma FinSaid(m: Meta, image: seq<byte>, tx: Tx, n: Rx, q: seq<Packet>, status: nat)
    requires n.outcome != Listening && (status == 0 ==> n.store == image)
    ensures SaidBy(m, image, tx, n, q, FinAckP(status))
  {
    hide Answer, Settled, Past, Asked;
  }

  lemma HearKeepsInv(m: Meta, image: seq<byte>, s: Sys, n: Sys)
    requires Inv(m, image, s) && HearStep(s, n)
    ensures Inv(m, image, n)
  {
    hide Conforming, NBlocks, BlockK, RxInv, TxInv, QueueInv, AirInv, OnData, Begin, Flush, Report, MissingUpTo, Base;
    HeadQueued(m, image, s.tx, s.rx, s.queue);
    RxActive(s.rx, m, image, s.agreed);
    var p := s.queue[0];
    if s.rx.outcome != Listening || (!s.rx.haveMeta && !p.MetaP?) || (s.rx.haveMeta && p.MetaP?) {
      assert n == s.(queue := s.queue[1..]);
      IgnoredKeepsInv(m, image, s, n);
    } else {
      match p {
        case MetaP(_) => FirstMetaKeepsInv(m, image, s, n);
        case DataP(id, _) => DataKeepsInv(m, image, s, n, id);
        case EobP(b, round) => EobKeepsInv(m, image, s, n, b, round);
        case FinP => FinKeepsInv(m, image, s, n);
      }
    }
  }
}
