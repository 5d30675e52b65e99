/** The interactive sender's transmissions keep the invariant. */
module InteractiveSend {
  import opened Wrappers
  import opened Bytes
  import opened Arithmetic
  import opened Frames
  import opened Image
  import opened Sender
  import opened Receiver
  import opened Accounting
  import opened Safety
  import opened Interactive
  import opened InteractiveInv
  import B = BroadcastProof
  import Stat

  lemma AppendQueue(m: Meta, image: seq<byte>, tx: Tx, rx: Rx, q: seq<Packet>, p: Packet)
    requires QueueInv(m, image, tx, rx, q) && Queued(m, image, tx, rx, p)
    requires forall i :: 0 <= i < |q| ==> Behind(m, tx, q[i], p)
    ensures QueueInv(m, image, tx, rx, q + [p])
  {
    hide Queued, Behind;
  }

  /** tx' is no earlier in the transfer than tx. */
  ghost predicate Onward(m: Meta, tx: Tx, tx': Tx) {
    TxRank(m, tx) <= TxRank(m, tx') && forall b, round :: Past(tx, b, round) ==> Past(tx', b, round)
  }

  /** Moving on to a fresh block, or to the end. */
  ghost predicate StartsOver(m: Meta, tx: Tx) {
    (tx.phase == Sending(0) && tx.round == 0 && tx.b < NBlocks(m) && tx.todo == BlockChunks(m, tx.b)) || tx.phase.Closing?
  }

  lemma StartOver(m: Meta, image: seq<byte>, tx: Tx, tx': Tx, rx: Rx, q: seq<Packet>, air: set<Packet>)
    requires Conforming(m) && StartsOver(m, tx') && Onward(m, tx, tx')
    requires QueueInv(m, image, tx, rx, q) && AirInv(m, image, tx, rx, q, air)
    requires Active(rx) ==> rx.cur <= TxRank(m, tx) && rx.meta == m
    ensures QueueInv(m, image, tx', rx, q) && AirInv(m, image, tx', rx, q, air) && TxInv(m, tx', rx)
  {
    hide Conforming, NBlocks, BlockK, OnAir, Answer;
    forall i | 0 <= i < |q| ensures Queued(m, image, tx', rx, q[i]) {
      assert Queued(m, image, tx, rx, q[i]);
    }
    forall i, j | 0 <= i < j < |q| ensures Behind(m, tx', q[i], q[j]) {
      assert Behind(m, tx, q[i], q[j]);
    }
    forall p | p in air ensures SaidBy(m, image, tx', rx, q, p) {
      assert SaidBy(m, image, tx, rx, q, p);
    }
    if tx'.phase.Sending? {
      BlockKAt(m, tx'.b);
      AllListed(m, tx', rx);
    }
  }

  lemma AllListed(m: Meta, tx: Tx, rx: Rx)
    requires tx.todo == BlockChunks(m, tx.b) && (Active(rx) ==> rx.meta == m)
    ensures Stat.IsReport(tx.todo, tx.b * m.block, BlockK(m, tx.b)) && NeedsListed(m, tx, rx)
  {
    hide BlockK;
    if Active(rx) && rx.cur == tx.b {
      forall c: nat | Lacks(rx, c) ensures c in tx.todo {
        assert tx.todo[c - Base(rx)] == c;
      }
    }
  }

  lemma EnterStartsOver(cfg: Config, m: Meta, tx: Tx, b: nat)
    requires (tx.phase.Announcing? && b == 0) || (Here(tx) && b == tx.b + 1 && tx.b < NBlocks(m))
    ensures StartsOver(m, EnterTx(cfg, m, b)) && Onward(m, tx, EnterTx(cfg, m, b))
  {
    hide NBlocks, BlockK;
  }

  /** A source chunk of the block the sender is at. */
  lemma SourcePacket(m: Meta, image: seq<byte>, b: nat, c: nat)
    requires Conforming(m) && |image| == m.imgLen && b < NBlocks(m) && b * m.block <= c < b * m.block + BlockK(m, b)
    ensures var p := DataP(FrameId(c, false), ChunkAt(m, image, c));
      && OnAir(m, image, p) && Rank(m, p) == b && SlotNo(m, p.id) == c - b * m.block < BlockK(m, b)
  {
    hide Conforming, NChunks, NBlocks, BlockK, ChunkAt, BlockOf, SlotOf, Quot, Rem;
    var i := c - b * m.block;
    DataPacket(m, image, b, i);
    IdAtPlace(m, b, i);
    B.FramePlace(m, FrameId(c, false));
  }

  /** Sending entry i of the list: the queue and the rest of the list still fit together. */
  lemma ChunkQueued(m: Meta, image: seq<byte>, tx: Tx, rx: Rx, q: seq<Packet>)
    requires Conforming(m) && |image| == m.imgLen && TxInv(m, tx, rx) && QueueInv(m, image, tx, rx, q) && tx.phase.Sending?
    ensures var p, tx' := DataP(FrameId(tx.todo[tx.phase.i], false), ChunkAt(m, image, tx.todo[tx.phase.i])),
                          tx.(phase := Sending(tx.phase.i + 1));
      QueueInv(m, image, tx', rx, q + [p])
  {
    hide Conforming, NBlocks, BlockK, OnAir, ChunkAt, Rank, NeedsListed, Lacks;
    var i := tx.phase.i;
    var p, tx' := DataP(FrameId(tx.todo[i], false), ChunkAt(m, image, tx.todo[i])), tx.(phase := Sending(i + 1));
    SourcePacket(m, image, tx.b, tx.todo[i]);
    forall x | 0 <= x < |q| ensures Queued(m, image, tx', rx, q[x]) && Behind(m, tx', q[x], p) {
      assert Queued(m, image, tx, rx, q[x]);
    }
    forall x, y | 0 <= x < y < |q| ensures Behind(m, tx', q[x], q[y]) {
      assert Behind(m, tx, q[x], q[y]);
    }
    AppendQueue(m, image, tx', rx, q, p);
  }

  /** The list is out: on to the first EOB. */
  lemma ListOut(m: Meta, image: seq<byte>, tx: Tx, tx': Tx, rx: Rx, q: seq<Packet>)
    requires QueueInv(m, image, tx, rx, q) && tx.phase.Sending? && tx' == tx.(phase := Asking(0))
    ensures QueueInv(m, image, tx', rx, q)
  {
    hide NBlocks, BlockK, OnAir, Rank, Lacks;
    forall i | 0 <= i < |q| ensures Queued(m, image, tx', rx, q[i]) {
      assert Queued(m, image, tx, rx, q[i]);
    }
    forall i, j | 0 <= i < j < |q| ensures Behind(m, tx', q[i], q[j]) {
      assert Queued(m, image, tx, rx, q[i]) && Behind(m, tx, q[i], q[j]);
    }
  }

  lemma AirStays(m: Meta, image: seq<byte>, tx: Tx, tx': Tx, rx: Rx, q: seq<Packet>, q': seq<Packet>, air: set<Packet>)
    requires AirInv(m, image, tx, rx, q, air) && Onward(m, tx, tx')
    requires forall b, round :: Past(tx, b, round) ==> !Asked(tx', b, round)
    ensures AirInv(m, image, tx', rx, q', air)
  {
    hide Answer, Settled, Past, Asked;
    forall p | p in air ensures SaidBy(m, image, tx', rx, q', p) {
      assert SaidBy(m, image, tx, rx, q, p);
    }
  }

  lemma SendChunk(cfg: Config, m: Meta, image: seq<byte>, s: Sys, n: Sys)
    requires Inv(m, image, s) && SendStep(cfg, m, image, s, n) && s.tx.phase.Sending?
    ensures Inv(m, image, n)
  {
    hide Conforming, RxInv, QueueInv, AirInv, ChunkAt, EnterTx, Onward, Lacks, NBlocks, BlockK, Stat.IsReport;
    var tx, i := s.tx, s.tx.phase.i;
    ChunkQueued(m, image, tx, s.rx, s.queue);
    var tx1 := tx.(phase := Sending(i + 1));
    RxActive(s.rx, m, image, s.agreed);
    if i + 1 < |tx.todo| {
      SendingOn(m, tx, n.tx);
      AirStays(m, image, tx, n.tx, s.rx, s.queue, n.queue, s.air);
    } else if cfg.eobRetry > 0 {
      ListOut(m, image, tx1, n.tx, s.rx, n.queue);
      SendingOn(m, tx, n.tx);
      AirStays(m, image, tx, n.tx, s.rx, s.queue, n.queue, s.air);
    } else {
      SendingOn(m, tx, tx1);
      AirStays(m, image, tx, tx1, s.rx, s.queue, n.queue, s.air);
      EnterStartsOver(cfg, m, tx1, tx.b + 1);
      StartOver(m, image, tx1, n.tx, s.rx, n.queue, s.air);
    }
  }

  lemma SendingOn(m: Meta, tx: Tx, tx': Tx)
    requires tx.phase.Sending? && tx' == tx.(phase := tx'.phase) && (tx'.phase.Sending? || tx'.phase.Asking?)
    ensures Onward(m, tx, tx') && forall b, round :: Past(tx, b, round) ==> !Asked(tx', b, round)
  {
    hide NBlocks;
  }

  lemma RxActive(rx: Rx, m: Meta, image: seq<byte>, agreed: set<nat>)
    requires RxInv(rx, m, image, agreed)
    ensures Active(rx) ==> rx.meta == m && exists got :: Accounted(rx, m, image, got) && Accounts(rx, m, image, agreed, got)
  {
    hide Accounted, AllHeld;
    if Active(rx) {
      var got :| Accounts(rx, m, image, agreed, got);
      assert Accounted(rx, m, image, got);
      AccountedTransfer(rx, m, image, got);
    }
  }

  lemma SendOther(cfg: Config, m: Meta, image: seq<byte>, s: Sys, n: Sys)
    requires Inv(m, image, s) && SendStep(cfg, m, image, s, n) && !s.tx.phase.Sending?
    ensures Inv(m, image, n)
  {
    hide Conforming, RxInv, EnterTx, NBlocks, BlockK, Stat.IsReport, Lacks, AirInv, Onward;
    RxActive(s.rx, m, image, s.agreed);
    var p := Sends(m, image, s.tx).value;
    SendOtherQueue(m, image, s.tx, s.rx, s.queue, p);
    match s.tx.phase {
      case Announcing(left) =>
        AirStays(m, image, s.tx, s.tx, s.rx, s.queue, n.queue, s.air) by {
          AnnouncingSays(m, s.tx);
        }
        if left == 1 {
          EnterStartsOver(cfg, m, s.tx, 0);
          StartOver(m, image, s.tx, n.tx, s.rx, n.queue, s.air);
        } else {
          StillAnnouncing(m, image, s.tx, n.tx, s.rx, n.queue, s.air);
        }
      case Asking(retry) => AskQueue(m, image, s.tx, n.tx, s.rx, s.queue, s.air);
      case Closing =>
        CloseAir(m, image, s.tx, n.tx, s.rx, s.queue, n.queue, s.air);
    }
  }

  lemma AnnouncingSays(m: Meta, tx: Tx)
    requires tx.phase.Announcing?
    ensures Onward(m, tx, tx) && forall b, round :: Past(tx, b, round) ==> !Asked(tx, b, round)
  {
    hide NBlocks;
  }

  /** The packet fits behind everything in flight. */
  lemma SendOtherQueue(m: Meta, image: seq<byte>, tx: Tx, rx: Rx, q: seq<Packet>, p: Packet)
    requires Conforming(m) && |image| == m.imgLen && TxInv(m, tx, rx) && QueueInv(m, image, tx, rx, q)
    requires !tx.phase.Sending? && Sends(m, image, tx) == Some(p)
    ensures QueueInv(m, image, tx, rx, q + [p])
  {
    hide Conforming, NBlocks, BlockK, BlockNo, Lacks, NeedsListed, Stat.IsReport;
    assert Queued(m, image, tx, rx, p);
    forall i | 0 <= i < |q| ensures Behind(m, tx, q[i], p) {
      assert Queued(m, image, tx, rx, q[i]);
    }
    AppendQueue(m, image, tx, rx, q, p);
  }

  lemma StillAnnouncing(m: Meta, image: seq<byte>, tx: Tx, tx': Tx, rx: Rx, q: seq<Packet>, air: set<Packet>)
    requires tx.phase.Announcing? && tx' == tx.(phase := tx'.phase) && tx'.phase.Announcing?
    requires QueueInv(m, image, tx, rx, q) && AirInv(m, image, tx, rx, q, air)
    ensures QueueInv(m, image, tx', rx, q) && AirInv(m, image, tx', rx, q, air)
  {
    hide NBlocks, BlockK, OnAir, Answer;
    forall i | 0 <= i < |q| ensures Queued(m, image, tx', rx, q[i]) {
      assert Queued(m, image, tx, rx, q[i]);
    }
    forall i, j | 0 <= i < j < |q| ensures Behind(m, tx', q[i], q[j]) {
      assert Behind(m, tx, q[i], q[j]);
    }
    forall p | p in air ensures SaidBy(m, image, tx', rx, q, p) {
      assert SaidBy(m, image, tx, rx, q, p);
    }
  }

  /** From the EOB to waiting for its answer: what is settled stays settled. */
  lemma AskQueue(m: Meta, image: seq<byte>, tx: Tx, tx': Tx, rx: Rx, q: seq<Packet>, air: set<Packet>)
    requires tx.phase.Asking? && tx' == tx.(phase := Awaiting(tx.phase.retry))
    requires QueueInv(m, image, tx, rx, q + [EobP(tx.b, tx.round)]) && AirInv(m, image, tx, rx, q, air)
    ensures var q' := q + [EobP(tx.b, tx.round)];
      QueueInv(m, image, tx', rx, q') && AirInv(m, image, tx', rx, q', air)
  {
    hide NBlocks, BlockK, OnAir, Answer, Lacks, Rank;
    var q' := q + [EobP(tx.b, tx.round)];
    forall i | 0 <= i < |q'| ensures Queued(m, image, tx', rx, q'[i]) {
      assert Queued(m, image, tx, rx, q'[i]);
    }
    forall i, j | 0 <= i < j < |q'| ensures Behind(m, tx', q'[i], q'[j]) {
      assert Behind(m, tx, q'[i], q'[j]);
    }
    forall p | p in air ensures SaidBy(m, image, tx', rx, q', p) {
      assert SaidBy(m, image, tx, rx, q, p);
    }
  }

  lemma CloseAir(m: Meta, image: seq<byte>, tx: Tx, tx': Tx, rx: Rx, q: seq<Packet>, q': seq<Packet>, air: set<Packet>)
    requires tx.phase.Closing? && tx' == tx.(phase := AwaitingFin)
    requires QueueInv(m, image, tx, rx, q') && AirInv(m, image, tx, rx, q, air)
    ensures QueueInv(m, image, tx', rx, q') && AirInv(m, image, tx', rx, q', air)
  {
    hide NBlocks, BlockK, OnAir, Answer, Lacks, Rank, Settled;
    forall i | 0 <= i < |q'| ensures Queued(m, image, tx', rx, q'[i]) {
      assert Queued(m, image, tx, rx, q'[i]);
    }
    forall i, j | 0 <= i < j < |q'| ensures Behind(m, tx', q'[i], q'[j]) {
      assert Behind(m, tx, q'[i], q'[j]);
    }
    forall p | p in air ensures SaidBy(m, image, tx', rx, q', p) {
      assert SaidBy(m, image, tx, rx, q, p);
    }
  }

  lemma SendKeepsInv(cfg: Config, m: Meta, image: seq<byte>, s: Sys, n: Sys)
    requires Inv(m, image, s) && SendStep(cfg, m, image, s, n)
    ensures Inv(m, image, n)
  {
    hide Inv, SendStep;
    if s.tx.phase.Sending? {
      SendChunk(cfg, m, image, s, n);
    } else {
      SendOther(cfg, m, image, s, n);
    }
  }
}
