/**
  Interactive transfers over a channel that loses nothing: every run comes to an end, with every block
  agreed, the image in the receiver's store, and the sender told so.
*/
module InteractiveDelivery {
  import opened Wrappers
  import opened Bytes
  import opened Frames
  import opened Image
  import opened Sender
  import opened Receiver
  import opened Reception
  import opened Accounting
  import opened Safety
  import opened AnyLosses
  import opened Interactive
  import opened InteractiveInv
  import opened InteractiveSend
  import opened InteractiveReply
  import opened InteractiveHear
  import opened InteractiveProof
  import Unheard
  import Stat

  // ----- a channel that loses nothing

  /** The answer the sender is waiting for. */
  predicate Awaited(tx: Tx, reply: Option<Packet>) {
    Matches(tx, reply) || (tx.phase.AwaitingFin? && reply.Some? && reply.value.FinAckP?)
  }

  /** A window brings the answer, once everything sent has been heard. */
  ghost predicate AnswerStep(cfg: Config, m: Meta, s: Sys, n: Sys, reply: Option<Packet>) {
    s.queue == [] && Awaited(s.tx, reply) && ReplyStep(cfg, m, s, n, reply)
  }

  ghost predicate LosslessNext(cfg: Config, m: Meta, image: seq<byte>, s: Sys, n: Sys) {
    || SendStep(cfg, m, image, s, n) || HearStep(s, n)
    || exists reply :: AnswerStep(cfg, m, s, n, reply)
  }

  ghost predicate LosslessRun(cfg: Config, m: Meta, image: seq<byte>, memory: seq<byte>, run: seq<Sys>) {
    |run| > 0 && run[0] == Init(m, memory) && forall i :: 0 <= i < |run| - 1 ==> LosslessNext(cfg, m, image, run[i], run[i + 1])
  }

  lemma LosslessIsNext(cfg: Config, m: Meta, image: seq<byte>, s: Sys, n: Sys)
    requires LosslessNext(cfg, m, image, s, n)
    ensures Next(cfg, m, image, s, n)
  {
    hide SendStep, HearStep, ReplyStep, Awaited;
  }

  /** A configuration that gives every block a chance. */
  predicate Willing(cfg: Config) {
    cfg.maxRounds > 0 && cfg.eobRetry > 0
  }

  // ----- what is on its way

  /** A source chunk of block b in flight. */
  predicate ChunkPacket(m: Meta, p: Packet, b: nat) {
    p.DataP? && !p.id.parity && b * m.block <= p.id.seqNo < b * m.block + BlockK(m, b)
  }

  predicate InFlight(m: Meta, tx: Tx, q: seq<Packet>, i: nat)
    requires i < |q|
  {
    match tx.phase
    case Announcing(_) => q[i].MetaP?
    case Sending(_) => q[i].MetaP? || ChunkPacket(m, q[i], tx.b)
    case Asking(_) => q[i].MetaP? || ChunkPacket(m, q[i], tx.b)
    case Awaiting(_) => q[i].MetaP? || ChunkPacket(m, q[i], tx.b) || (i == |q| - 1 && q[i] == EobP(tx.b, 0))
    case _ => q[i] == FinP
  }

  /** In the closing phases nothing but the FIN is in flight. */
  predicate ClosingQueue(tx: Tx, q: seq<Packet>) {
    match tx.phase
    case Closing => q == []
    case AwaitingFin => q == [] || q == [FinP]
    case Returned(_) => q == []
    case _ => true
  }

  /** Chunk c is in flight or has arrived in its block. */
  predicate OnTheWay(m: Meta, rx: Rx, q: seq<Packet>, b: nat, c: nat) {
    || (exists i :: 0 <= i < |q| && q[i].DataP? && q[i].id == FrameId(c, false))
    || (Active(rx) && rx.meta == m && rx.cur == b && b * m.block <= c < b * m.block + |rx.present| && rx.present[c - b * m.block])
  }

  /** Entries of the list that are out. */
  function Gone(tx: Tx): nat {
    if tx.phase.Sending? then tx.phase.i else |tx.todo|
  }

  ghost predicate ListGone(m: Meta, tx: Tx, rx: Rx, q: seq<Packet>) {
    tx.todo == BlockChunks(m, tx.b) && Gone(tx) <= |tx.todo|
    && forall j :: 0 <= j < Gone(tx) ==> OnTheWay(m, rx, q, tx.b, tx.todo[j])
  }

  /** The question has been asked, or answered. */
  ghost predicate Pending(tx: Tx, q: seq<Packet>, air: set<Packet>) {
    match tx.phase
    case Awaiting(_) => (|q| > 0 && q[|q| - 1] == EobP(tx.b, 0)) || (exists p :: p in air && Matches(tx, Some(p)))
    case AwaitingFin => q == [FinP] || FinAckP(0) in air
    case _ => true
  }

  /** A META comes before everything else. */
  predicate MetaFirst(tx: Tx, rx: Rx, q: seq<Packet>) {
    if rx.haveMeta then true
    else if |q| > 0 then q[0].MetaP?
    else tx.phase == Announcing(3)
  }

  ghost predicate Agreements(m: Meta, tx: Tx, agreed: set<nat>) {
    agreed == UpTo(if tx.phase.Announcing? then 0 else if Here(tx) then tx.b else NBlocks(m))
  }

  /** The receiver has stopped exactly when the FIN has been heard, and then with the image. */
  ghost predicate Ending(tx: Tx, rx: Rx, q: seq<Packet>, image: seq<byte>, air: set<Packet>) {
    && (if (tx.phase.AwaitingFin? && q == []) || tx.phase.Returned? then rx.outcome == Complete && rx.store == image
        else rx.outcome == Listening)
    && (forall status :: FinAckP(status) in air ==> status == 0)
    && (tx.phase.Returned? ==> tx.phase.ok)
  }

  ghost predicate Smooth(m: Meta, image: seq<byte>, s: Sys) {
    && !s.rx.broadcast && (s.rx.haveMeta ==> s.rx.meta == m)
    && (s.tx.phase.Announcing? ==> 0 < s.tx.phase.left <= 3)
    && (forall i :: 0 <= i < |s.queue| ==> InFlight(m, s.tx, s.queue, i))
    && (Here(s.tx) ==> s.tx.round == 0 && s.tx.b < NBlocks(m) && ListGone(m, s.tx, s.rx, s.queue))
    && (s.tx.phase.Sending? ==> s.tx.phase.i < |s.tx.todo|)
    && ClosingQueue(s.tx, s.queue) && MetaFirst(s.tx, s.rx, s.queue) && Agreements(m, s.tx, s.agreed)
    && Pending(s.tx, s.queue, s.air) && Ending(s.tx, s.rx, s.queue, image, s.air)
  }

  lemma InitSmooth(m: Meta, image: seq<byte>, memory: seq<byte>)
    ensures Smooth(m, image, Init(m, memory))
  {
  }

  // ----- transmissions

  lemma Appended(m: Meta, rx: Rx, q: seq<Packet>, p: Packet, b: nat, c: nat)
    ensures OnTheWay(m, rx, q, b, c) ==> OnTheWay(m, rx, q + [p], b, c)
    ensures p.DataP? && p.id == FrameId(c, false) ==> OnTheWay(m, rx, q + [p], b, c)
  {
    var more := q + [p];
    if exists i :: 0 <= i < |q| && q[i].DataP? && q[i].id == FrameId(c, false) {
      var i :| 0 <= i < |q| && q[i].DataP? && q[i].id == FrameId(c, false);
      assert more[i] == q[i];
    }
    if p.DataP? && p.id == FrameId(c, false) {
      assert more[|q|] == p;
    }
  }

  lemma AnnounceSmooth(cfg: Config, m: Meta, image: seq<byte>, s: Sys, n: Sys)
    requires Smooth(m, image, s) && Willing(cfg) && Conforming(m) && SendStep(cfg, m, image, s, n) && s.tx.phase.Announcing?
    ensures Smooth(m, image, n)
  {
    hide Conforming, NBlocks, BlockK, OnTheWay;
    Extent(m);
    BlockKAt(m, 0);
    forall j | 0 <= j < |n.queue| ensures InFlight(m, n.tx, n.queue, j) {
      if j < |s.queue| {
        assert InFlight(m, s.tx, s.queue, j);
      }
    }
  }

  lemma ChunkSmooth(cfg: Config, m: Meta, image: seq<byte>, s: Sys, n: Sys)
    requires Smooth(m, image, s) && Willing(cfg) && Conforming(m) && SendStep(cfg, m, image, s, n) && s.tx.phase.Sending?
    ensures Smooth(m, image, n)
  {
    hide Conforming, NBlocks, BlockK, OnTheWay, ChunkAt;
    var tx, i := s.tx, s.tx.phase.i;
    var p := DataP(FrameId(tx.todo[i], false), ChunkAt(m, image, tx.todo[i]));
    assert n.queue == s.queue + [p];
    forall j | 0 <= j < Gone(n.tx) ensures OnTheWay(m, n.rx, n.queue, n.tx.b, n.tx.todo[j]) {
      Appended(m, s.rx, s.queue, p, tx.b, tx.todo[j]);
    }
    forall j | 0 <= j < |n.queue| ensures InFlight(m, n.tx, n.queue, j) {
      if j < |s.queue| {
        assert InFlight(m, s.tx, s.queue, j);
      }
    }
  }

  lemma AskSmooth(cfg: Config, m: Meta, image: seq<byte>, s: Sys, n: Sys)
    requires Smooth(m, image, s) && Conforming(m) && SendStep(cfg, m, image, s, n) && s.tx.phase.Asking?
    ensures Smooth(m, image, n)
  {
    hide Conforming, NBlocks, BlockK, OnTheWay;
    var p := EobP(s.tx.b, s.tx.round);
    assert n.queue == s.queue + [p];
    forall j | 0 <= j < Gone(n.tx) ensures OnTheWay(m, n.rx, n.queue, n.tx.b, n.tx.todo[j]) {
      Appended(m, s.rx, s.queue, p, s.tx.b, s.tx.todo[j]);
    }
    forall j | 0 <= j < |n.queue| ensures InFlight(m, n.tx, n.queue, j) {
      if j < |s.queue| {
        assert InFlight(m, s.tx, s.queue, j);
      }
    }
  }

  lemma CloseSmooth(cfg: Config, m: Meta, image: seq<byte>, s: Sys, n: Sys)
    requires Smooth(m, image, s) && SendStep(cfg, m, image, s, n) && s.tx.phase.Closing?
    ensures Smooth(m, image, n)
  {
    hide NBlocks, BlockK, OnTheWay;
  }

  lemma SendSmooth(cfg: Config, m: Meta, image: seq<byte>, s: Sys, n: Sys)
    requires Smooth(m, image, s) && Willing(cfg) && Conforming(m) && SendStep(cfg, m, image, s, n)
    ensures Smooth(m, image, n)
  {
    hide Smooth, Conforming, Sent;
    match s.tx.phase
    case Announcing(_) => AnnounceSmooth(cfg, m, image, s, n);
    case Sending(_) => ChunkSmooth(cfg, m, image, s, n);
    case Asking(_) => AskSmooth(cfg, m, image, s, n);
    case Closing => CloseSmooth(cfg, m, image, s, n);
  }

  // ----- what is heard

  /** Nothing but the head leaves the queue. */
  lemma TailInFlight(m: Meta, tx: Tx, q: seq<Packet>)
    requires |q| > 0 && forall i :: 0 <= i < |q| ==> InFlight(m, tx, q, i)
    requires !tx.phase.AwaitingFin?
    ensures forall i :: 0 <= i < |q[1..]| ==> InFlight(m, tx, q[1..], i)
  {
    hide NBlocks, BlockK;
    forall i | 0 <= i < |q[1..]| ensures InFlight(m, tx, q[1..], i) {
      assert InFlight(m, tx, q, i + 1);
    }
  }

  /** A chunk behind the head, or already there, is still on its way when the head is gone. */
  lemma StillOnTheWay(m: Meta, rx: Rx, n: Rx, q: seq<Packet>, b: nat, c: nat)
    requires |q| > 0 && OnTheWay(m, rx, q, b, c)
    requires q[0].DataP? && q[0].id == FrameId(c, false) ==> OnTheWay(m, n, [], b, c)
    requires Active(rx) && rx.meta == m && rx.cur == b ==>
               && Active(n) && n.meta == m && n.cur == b && |n.present| == |rx.present|
               && forall i :: 0 <= i < |rx.present| && rx.present[i] ==> n.present[i]
    ensures OnTheWay(m, n, q[1..], b, c)
  {
    if i :| 0 <= i < |q| && q[i].DataP? && q[i].id == FrameId(c, false) {
      if i > 0 {
        assert q[1..][i - 1] == q[i];
      }
    }
  }

  lemma HearMetaSmooth(m: Meta, image: seq<byte>, s: Sys, n: Sys)
    requires Smooth(m, image, s) && Inv(m, image, s) && HearStep(s, n) && s.queue[0].MetaP?
    ensures Smooth(m, image, n)
  {
    hide Conforming, NBlocks, BlockK, OnTheWay, RxInv, TxInv, AirInv, QueueInv, Begin;
    HeadQueued(m, image, s.tx, s.rx, s.queue);
    assert InFlight(m, s.tx, s.queue, 0);
    TailInFlight(m, s.tx, s.queue);
    BeginIs(s.rx, m);
    if Here(s.tx) {
      forall j | 0 <= j < Gone(s.tx) ensures OnTheWay(m, n.rx, n.queue, s.tx.b, s.tx.todo[j]) {
        StillOnTheWay(m, s.rx, n.rx, s.queue, s.tx.b, s.tx.todo[j]);
      }
    }
    if s.tx.phase.Awaiting? && |s.queue| > 1 {
      assert n.queue[|n.queue| - 1] == s.queue[|s.queue| - 1];
    }
  }

  /** What hearing a chunk of the sender's block does to the receiver. */
  lemma ChunkHeard(m: Meta, image: seq<byte>, s: Sys, n: Sys)
    requires Inv(m, image, s) && HearStep(s, n) && Active(s.rx) && !s.rx.broadcast && ChunkPacket(m, s.queue[0], s.tx.b)
    requires s.tx.b < NBlocks(m) && s.rx.meta == m
    ensures var c, rx, x := s.queue[0].id.seqNo, n.rx, s.tx.b;
      && n.queue == s.queue[1..] && n.air == s.air && n.tx == s.tx && n.agreed == s.agreed
      && Active(rx) && rx.meta == m && rx.cur == x && !rx.broadcast
      && OnTheWay(m, rx, [], x, c)
      && (s.rx.cur == x ==> |rx.present| == |s.rx.present|
                            && forall i :: 0 <= i < |s.rx.present| && s.rx.present[i] ==> rx.present[i])
  {
    hide Conforming, NBlocks, BlockK, NChunks, OnData, Payload, Exists, BlockNo, SlotNo, Accounted, TxInv, AirInv, ChunkAt,
         AllHeld, HasBlock, BlockGot, QueueInv, Closed;
    var rx, p := s.rx, s.queue[0];
    HeadQueued(m, image, s.tx, rx, s.queue);
    RxActive(rx, m, image, s.agreed);
    SourcePacket(m, image, s.tx.b, p.id.seqNo);
    var got :| Accounted(rx, m, image, got) && Accounts(rx, m, image, s.agreed, got);
    var got' := HearSource(rx, m, image, got, p.id);
    AccountedTransfer(n.rx, m, image, got');
  }

  lemma HearChunkSmooth(m: Meta, image: seq<byte>, s: Sys, n: Sys)
    requires Smooth(m, image, s) && Inv(m, image, s) && HearStep(s, n) && ChunkPacket(m, s.queue[0], s.tx.b) && Here(s.tx)
    ensures Smooth(m, image, n)
  {
    hide Conforming, NBlocks, BlockK, OnTheWay, Inv, OnPacket, Agreements;
    ChunkHeard(m, image, s, n);
    TailInFlight(m, s.tx, s.queue);
    forall j | 0 <= j < Gone(s.tx) ensures OnTheWay(m, n.rx, n.queue, s.tx.b, s.tx.todo[j]) {
      SameFrame(s.queue[0].id, s.tx.todo[j]);
      StillOnTheWay(m, s.rx, n.rx, s.queue, s.tx.b, s.tx.todo[j]);
    }
    if s.tx.phase.Awaiting? && |s.queue| > 1 {
      assert n.queue[|n.queue| - 1] == s.queue[|s.queue| - 1];
    }
  }

  lemma SameFrame(id: FrameId, c: nat)
    ensures id == FrameId(c, false) ==> id.seqNo == c
  {
  }

  /** With nothing but an EOB in flight, or nothing at all, the whole block has arrived. */
  lemma AllArrived(m: Meta, image: seq<byte>, s: Sys)
    requires Smooth(m, image, s) && Conforming(m) && s.tx.phase.Awaiting?
    requires s.queue == [] || s.queue == [EobP(s.tx.b, 0)]
    ensures Active(s.rx) && s.rx.meta == m && s.rx.cur == s.tx.b && AllPresent(s.rx.present, BlockK(m, s.tx.b))
  {
    hide Conforming, NBlocks, BlockK, Agreements, InFlight;
    BlockKAt(m, s.tx.b);
    var k := BlockK(m, s.tx.b);
    forall j | 0 <= j < k ensures Arrived(m, s.rx, s.tx.b, j) {
      assert OnTheWay(m, s.rx, s.queue, s.tx.b, s.tx.todo[j]);
    }
    assert Arrived(m, s.rx, s.tx.b, 0) && Arrived(m, s.rx, s.tx.b, k - 1);
    forall j | 0 <= j < k ensures s.rx.present[j] {
      assert Arrived(m, s.rx, s.tx.b, j);
    }
  }

  predicate Arrived(m: Meta, rx: Rx, b: nat, j: nat) {
    Active(rx) && rx.meta == m && rx.cur == b && j < |rx.present| && rx.present[j]
  }

  lemma HearEobSmooth(m: Meta, image: seq<byte>, s: Sys, n: Sys)
    requires Smooth(m, image, s) && Inv(m, image, s) && HearStep(s, n) && s.tx.phase.Awaiting? && s.queue == [EobP(s.tx.b, 0)]
    ensures Smooth(m, image, n)
  {
    hide Conforming, NBlocks, BlockK, OnTheWay, Inv, Agreements, Report, MissingUpTo, Base;
    InvConforming(m, image, s);
    AllArrived(m, image, s);
    EobHeard(m, image, s.rx, s.tx.b, s.agreed);
    forall j | 0 <= j < Gone(s.tx) ensures OnTheWay(m, n.rx, n.queue, s.tx.b, s.tx.todo[j]) {
      StillOnTheWay(m, s.rx, n.rx, s.queue, s.tx.b, s.tx.todo[j]);
    }
    var p := Report(s.tx.b, 0, MissingUpTo(s.rx, BlockK(m, s.tx.b)), Base(s.rx)).value;
    assert p in n.air && Matches(n.tx, Some(p));
  }

  lemma InvConforming(m: Meta, image: seq<byte>, s: Sys)
    requires Inv(m, image, s)
    ensures Conforming(m) && |image| == m.imgLen && RxInv(s.rx, m, image, s.agreed)
  {
    hide Conforming, RxInv, TxInv, QueueInv, AirInv;
  }

  /** The receiver answers an EOB of its block with a STAT, and stays as it is. */
  lemma EobHeard(m: Meta, image: seq<byte>, rx: Rx, b: nat, agreed: set<nat>)
    requires Conforming(m) && RxInv(rx, m, image, agreed) && Active(rx) && rx.cur == b
    ensures var r := Report(b, 0, MissingUpTo(rx, BlockK(m, b)), Base(rx));
      && OnPacket(rx, EobP(b, 0)) == (rx, r)
      && r.Some? && r.value.StatP? && r.value.block == b && r.value.round == 0
  {
    hide Conforming, NBlocks, BlockK, MissingUpTo, Base, Stat.EncodeBody, Stat.ChooseEnc, Accepted;
    RxActive(rx, m, image, agreed);
    RxRoom(rx, m, image, agreed);
    MissingExact(rx, BlockK(m, b));
    ReportAccepted(m, b, 0, MissingUpTo(rx, BlockK(m, b)), Base(rx), BlockK(m, b));
  }

  /** With every block agreed the FIN ends the transfer with the image. */
  lemma FinHeard(m: Meta, image: seq<byte>, rx: Rx, agreed: set<nat>)
    requires Conforming(m) && RxInv(rx, m, image, agreed) && Active(rx) && agreed == UpTo(NBlocks(m))
    ensures var (n, answer) := OnPacket(rx, FinP);
      n.outcome == Complete && n.store == image && answer == Some(FinAckP(0)) && n.meta == m && n.haveMeta && !n.broadcast
  {
    hide Conforming, NBlocks, BlockK, NChunks, Accounted, HasBlock, BlockGot, OnPacket, Closed, Below;
    RxActive(rx, m, image, agreed);
    var got :| Accounted(rx, m, image, got) && Accounts(rx, m, image, agreed, got);
    var got' := FinAccounts(rx, m, image, got);
    var n := OnPacket(rx, FinP).0;
    AccountedTransfer(rx, m, image, got);
    forall b | 0 <= b < NBlocks(m) ensures BlockGot(m, got', b) {
      assert b in agreed;
      AgreedIsGot(rx, m, got, got', b);
    }
    ClosedBelow(n, m, image, got');
    Unheard.WholeIsAllBlocks(m, got');
  }

  lemma AgreedIsGot(rx: Rx, m: Meta, got: set<nat>, got': set<nat>, b: nat)
    requires HeldBlock(rx, m, got, b) && got <= got' && rx.meta == m && (BlockGot(m, got', rx.cur) <==> HasBlock(rx))
    ensures BlockGot(m, got', b)
  {
    hide BlockK, BlockGot, AllPresent;
    GotMore(m, got, got', b);
  }

  lemma ClosedBelow(n: Rx, m: Meta, image: seq<byte>, got: set<nat>)
    requires Closed(n, m, image, got)
    ensures Below(got, NChunks(m))
  {
    hide Conforming, NChunks;
  }

  lemma HearFinSmooth(m: Meta, image: seq<byte>, s: Sys, n: Sys)
    requires Smooth(m, image, s) && Inv(m, image, s) && HearStep(s, n) && s.queue == [FinP] && s.tx.phase.AwaitingFin?
    ensures Smooth(m, image, n)
  {
    hide Conforming, NBlocks, BlockK, OnTheWay, Inv, OnPacket;
    InvConforming(m, image, s);
    FinHeard(m, image, s.rx, s.agreed);
  }

  lemma HearSmooth(m: Meta, image: seq<byte>, s: Sys, n: Sys)
    requires Smooth(m, image, s) && Inv(m, image, s) && HearStep(s, n)
    ensures Smooth(m, image, n)
  {
    hide Inv, OnPacket, OnTheWay, NBlocks, BlockK, Agreements, Pending, Ending, ListGone;
    assert InFlight(m, s.tx, s.queue, 0);
    var p := s.queue[0];
    if p.MetaP? {
      HearMetaSmooth(m, image, s, n);
    } else if p.DataP? {
      HearChunkSmooth(m, image, s, n);
    } else if p.EobP? {
      HearEobSmooth(m, image, s, n);
    } else {
      HearFinSmooth(m, image, s, n);
    }
  }

  // ----- what comes back

  /** The STAT of a block that has arrived says so, and the sender goes on to the next. */
  lemma StatAnswers(cfg: Config, m: Meta, image: seq<byte>, s: Sys, n: Sys, reply: Option<Packet>)
    requires Smooth(m, image, s) && Inv(m, image, s) && AnswerStep(cfg, m, s, n, reply) && s.tx.phase.Awaiting?
    ensures n == s.(tx := EnterTx(cfg, m, s.tx.b + 1), agreed := s.agreed + {s.tx.b})
    ensures Active(s.rx) && s.rx.meta == m
  {
    hide Conforming, NBlocks, BlockK, Inv, OnTheWay, Accepted, InFlight, AllPresent, EnterTx, Agreements, Settled, IsLacking,
         Stat.IsReport, MissingUpTo, ListGone, Pending;
    InvConforming(m, image, s);
    AllArrived(m, image, s);
    AcceptedStatIsExact(m, image, s, reply.value);
  }

  lemma NextBlockSmooth(cfg: Config, m: Meta, image: seq<byte>, s: Sys, n: Sys)
    requires Smooth(m, image, s) && Conforming(m) && Willing(cfg) && s.tx.phase.Awaiting? && s.queue == []
    requires Active(s.rx) && n == s.(tx := EnterTx(cfg, m, s.tx.b + 1), agreed := s.agreed + {s.tx.b})
    ensures Smooth(m, image, n)
  {
    hide Conforming, NBlocks, BlockK, OnTheWay, InFlight;
    assert n.agreed == UpTo(s.tx.b + 1);
    if s.tx.b + 1 < NBlocks(m) {
      BlockKAt(m, s.tx.b + 1);
    }
  }

  lemma StatSmooth(cfg: Config, m: Meta, image: seq<byte>, s: Sys, n: Sys, reply: Option<Packet>)
    requires Smooth(m, image, s) && Inv(m, image, s) && Willing(cfg) && AnswerStep(cfg, m, s, n, reply) && s.tx.phase.Awaiting?
    ensures Smooth(m, image, n)
  {
    hide Smooth, Inv, EnterTx, ReplyStep;
    InvConforming(m, image, s);
    StatAnswers(cfg, m, image, s, n, reply);
    NextBlockSmooth(cfg, m, image, s, n);
  }

  lemma FinAckSmooth(cfg: Config, m: Meta, image: seq<byte>, s: Sys, n: Sys, reply: Option<Packet>)
    requires Smooth(m, image, s) && AnswerStep(cfg, m, s, n, reply) && s.tx.phase.AwaitingFin?
    ensures Smooth(m, image, n)
  {
    hide NBlocks, BlockK, OnTheWay, InFlight;
    var FinAckP(status) := reply.value;
    assert FinAckP(status) in s.air;
  }

  lemma LosslessKeepsSmooth(cfg: Config, m: Meta, image: seq<byte>, s: Sys, n: Sys)
    requires Smooth(m, image, s) && Inv(m, image, s) && Willing(cfg) && LosslessNext(cfg, m, image, s, n)
    ensures Smooth(m, image, n) && Inv(m, image, n)
  {
    hide Smooth, Inv, SendStep, HearStep, ReplyStep;
    LosslessIsNext(cfg, m, image, s, n);
    StepKeepsInv(cfg, m, image, s, n);
    InvConforming(m, image, s);
    if SendStep(cfg, m, image, s, n) {
      SendSmooth(cfg, m, image, s, n);
    } else if HearStep(s, n) {
      HearSmooth(m, image, s, n);
    } else {
      var reply :| AnswerStep(cfg, m, s, n, reply);
      if s.tx.phase.Awaiting? {
        StatSmooth(cfg, m, image, s, n, reply);
      } else {
        FinAckSmooth(cfg, m, image, s, n, reply);
      }
    }
  }

  lemma {:induction false} LosslessIsSmooth(cfg: Config, m: Meta, image: seq<byte>, memory: seq<byte>, run: seq<Sys>, i: nat)
    requires Conforming(m) && |image| == m.imgLen && Willing(cfg) && LosslessRun(cfg, m, image, memory, run) && i < |run|
    ensures Smooth(m, image, run[i]) && Inv(m, image, run[i])
  {
    hide Conforming, Smooth, Inv, LosslessNext;
    if i == 0 {
      InitSmooth(m, image, memory);
      InitInv(m, image, memory);
    } else {
      LosslessIsSmooth(cfg, m, image, memory, run, i - 1);
      LosslessKeepsSmooth(cfg, m, image, run[i - 1], run[i]);
    }
  }

  /**
    When every packet is heard and every answer returned, a transfer that has ended has ended well: all blocks
    are agreed, the receiver is complete, its store is the image, and the sender returns success.
  */
  lemma LosslessDelivers(cfg: Config, m: Meta, image: seq<byte>, memory: seq<byte>, run: seq<Sys>, i: nat)
    requires Conforming(m) && |image| == m.imgLen && Willing(cfg) && LosslessRun(cfg, m, image, memory, run) && i < |run|
    requires run[i].tx.phase.Returned?
    ensures run[i].tx.phase == Returned(true) && run[i].rx.outcome == Complete && run[i].rx.store == image
    ensures forall b :: 0 <= b < NBlocks(m) ==> b in run[i].agreed
  {
    hide Conforming, Inv, LosslessRun, NBlocks, OnTheWay, InFlight;
    LosslessIsSmooth(cfg, m, image, memory, run, i);
  }

  // ----- and it does end

  /** At most this much is left to do for the blocks from b on: two for each packet, one for each answer. */
  function BlocksLeft(m: Meta, b: nat): nat
    decreases NBlocks(m) - b
  {
    if b < NBlocks(m) then 2 * BlockK(m, b) + 3 + BlocksLeft(m, b + 1) else 0
  }

  function Left(m: Meta, tx: Tx): nat {
    match tx.phase
    case Announcing(left) => 2 * left + BlocksLeft(m, 0) + 3
    case Sending(i) => (if i <= |tx.todo| then 2 * (|tx.todo| - i) else 0) + 3 + BlocksLeft(m, tx.b + 1) + 3
    case Asking(_) => 3 + BlocksLeft(m, tx.b + 1) + 3
    case Awaiting(_) => 1 + BlocksLeft(m, tx.b + 1) + 3
    case Closing => 3
    case AwaitingFin => 1
    case Returned(_) => 0
  }

  function StepsLeft(m: Meta, s: Sys): nat {
    Left(m, s.tx) + |s.queue|
  }

  lemma EnterLeft(cfg: Config, m: Meta, b: nat)
    requires Willing(cfg)
    ensures Left(m, EnterTx(cfg, m, b)) <= BlocksLeft(m, b) + 3
  {
    hide NBlocks, BlockK;
  }

  /** Every step brings the end nearer. */
  lemma StepsRunOut(cfg: Config, m: Meta, image: seq<byte>, s: Sys, n: Sys)
    requires Smooth(m, image, s) && Inv(m, image, s) && Willing(cfg) && LosslessNext(cfg, m, image, s, n)
    ensures StepsLeft(m, n) < StepsLeft(m, s)
  {
    hide Inv, NBlocks, BlockK, OnTheWay, InFlight, OnPacket, Accepted, EnterTx, BlocksLeft, Agreements, Pending, Ending, MetaFirst;
    EnterLeft(cfg, m, 0);
    EnterLeft(cfg, m, s.tx.b + 1);
    InvConforming(m, image, s);
    if SendStep(cfg, m, image, s, n) {
    } else if HearStep(s, n) {
    } else {
      var reply :| AnswerStep(cfg, m, s, n, reply);
      if s.tx.phase.Awaiting? {
        AllArrived(m, image, s);
        AcceptedStatIsExact(m, image, s, reply.value);
      }
    }
  }

  /** Until the sender returns there is always a step to take. */
  lemma NeverStuck(cfg: Config, m: Meta, image: seq<byte>, s: Sys) returns (n: Sys)
    requires Smooth(m, image, s) && !s.tx.phase.Returned?
    ensures LosslessNext(cfg, m, image, s, n)
  {
    hide NBlocks, BlockK, OnTheWay, InFlight, OnPacket, Agreements, Ending, MetaFirst, Accepted, Sent, Replied;
    if |s.queue| > 0 {
      var (rx, answer) := OnPacket(s.rx, s.queue[0]);
      n := s.(queue := s.queue[1..], rx := rx, air := if answer.Some? then s.air + {answer.value} else s.air);
      assert HearStep(s, n);
    } else if Sends(m, image, s.tx).Some? {
      n := s.(tx := Sent(cfg, m, s.tx), queue := s.queue + [Sends(m, image, s.tx).value]);
      assert SendStep(cfg, m, image, s, n);
    } else {
      var p: Packet;
      if s.tx.phase.Awaiting? {
        p :| p in s.air && Matches(s.tx, Some(p));
      } else {
        p := FinAckP(0);
      }
      n := s.(tx := Replied(cfg, m, s.tx, Some(p)),
              agreed := if Matches(s.tx, Some(p)) && p.enc == Stat.COMPLETE then s.agreed + {s.tx.b} else s.agreed);
      assert AnswerStep(cfg, m, s, n, Some(p));
    }
  }

  /** No run without losses is longer than its packets and answers. */
  lemma {:induction false} LosslessIsShort(cfg: Config, m: Meta, image: seq<byte>, memory: seq<byte>, run: seq<Sys>, i: nat)
    requires Conforming(m) && |image| == m.imgLen && Willing(cfg) && LosslessRun(cfg, m, image, memory, run) && i < |run|
    ensures i + StepsLeft(m, run[i]) <= StepsLeft(m, run[0])
  {
    hide Conforming, LosslessNext, StepsLeft, Inv, Smooth;
    if i > 0 {
      LosslessIsShort(cfg, m, image, memory, run, i - 1);
      LosslessIsSmooth(cfg, m, image, memory, run, i - 1);
      StepsRunOut(cfg, m, image, run[i - 1], run[i]);
    }
  }

  /** Every run without losses can be carried on to its end. */
  lemma {:induction false} LosslessEnds(cfg: Config, m: Meta, image: seq<byte>, memory: seq<byte>, run: seq<Sys>)
    returns (whole: seq<Sys>)
    requires Conforming(m) && |image| == m.imgLen && Willing(cfg) && LosslessRun(cfg, m, image, memory, run)
    ensures LosslessRun(cfg, m, image, memory, whole) && run <= whole && whole[|whole| - 1].tx.phase == Returned(true)
    ensures whole[|whole| - 1].rx.outcome == Complete && whole[|whole| - 1].rx.store == image
    decreases StepsLeft(m, run[|run| - 1])
  {
    hide Conforming, LosslessNext, StepsLeft, Inv, Smooth, NBlocks;
    var last := run[|run| - 1];
    if last.tx.phase.Returned? {
      whole := run;
      LosslessDelivers(cfg, m, image, memory, run, |run| - 1);
    } else {
      LosslessIsSmooth(cfg, m, image, memory, run, |run| - 1);
      var n := NeverStuck(cfg, m, image, last);
      StepsRunOut(cfg, m, image, last, n);
      whole := LosslessEnds(cfg, m, image, memory, run + [n]);
    }
  }
}
