/** What every reachable state of the interactive protocol satisfies. */
module InteractiveInv {
  import opened Wrappers
  import opened Bytes
  import opened Frames
  import opened Sender
  import opened Receiver
  import opened Safety
  import opened Interactive
  import Stat

  // ----- order of packets

  function Rank(m: Meta, p: Packet): nat {
    match p
    case DataP(id, _) => BlockNo(m, id)
    case EobP(b, _) => b
    case FinP => NBlocks(m)
    case _ => 0
  }

  predicate Here(tx: Tx) {
    tx.phase.Sending? || tx.phase.Asking? || tx.phase.Awaiting?
  }

  function TxRank(m: Meta, tx: Tx): nat {
    if tx.phase.Announcing? then 0 else if Here(tx) then tx.b else NBlocks(m)
  }

  /** EOBs of this block and round can be out already. */
  predicate Past(tx: Tx, b: nat, round: nat) {
    match tx.phase
    case Announcing(_) => false
    case Sending(_) => b < tx.b || (b == tx.b && round < tx.round)
    case Asking(_) => b < tx.b || (b == tx.b && round <= tx.round)
    case Awaiting(_) => b < tx.b || (b == tx.b && round <= tx.round)
    case _ => true
  }

  /** A STAT of this block and round is what the sender is asking for. */
  predicate Asked(tx: Tx, b: nat, round: nat) {
    (tx.phase.Asking? || tx.phase.Awaiting?) && b == tx.b && round == tx.round
  }

  predicate Repairing(tx: Tx) {
    Here(tx) && tx.round > 0
  }

  // ----- what the receiver still needs

  predicate Active(rx: Rx) {
    rx.haveMeta && rx.outcome == Listening
  }

  /** Chunk c belongs to the receiver's current block and is not marked present. */
  predicate Lacks(rx: Rx, c: nat) {
    Base(rx) <= c < Base(rx) + BlockK(rx.meta, rx.cur) && c - Base(rx) < |rx.present| && !rx.present[c - Base(rx)]
  }

  /** Whatever is missing from block b is on the to-do list. */
  ghost predicate NeedsListed(m: Meta, tx: Tx, rx: Rx) {
    Active(rx) && rx.cur == tx.b ==> forall c :: Lacks(rx, c) ==> c in tx.todo
  }

  // ----- the invariant, part by part

  /** A packet the interactive sender can have sent. */
  ghost predicate OnAir(m: Meta, image: seq<byte>, p: Packet) {
    Genuine(m, image, p) && (p.DataP? ==> !p.id.parity) && !p.IdentP?
  }

  /** A packet in flight. */
  ghost predicate Queued(m: Meta, image: seq<byte>, tx: Tx, rx: Rx, p: Packet) {
    && OnAir(m, image, p) && Rank(m, p) <= TxRank(m, tx)
    && (Active(rx) ==> p.MetaP? || rx.cur <= Rank(m, p))
    && (p.EobP? ==> Past(tx, p.block, p.round))
    && (Repairing(tx) ==> Repair(m, tx, rx, p))
  }

  /** While a block is being repaired only its EOBs and chunks the receiver lacks are in flight. */
  ghost predicate Repair(m: Meta, tx: Tx, rx: Rx, p: Packet) {
    || (p.EobP? && p.block == tx.b)
    || (p.DataP? && Lacks(rx, p.id.seqNo) && BeforeRest(tx, p.id.seqNo))
  }

  /** c comes before everything still to be sent of the list. */
  predicate BeforeRest(tx: Tx, c: nat) {
    tx.phase.Sending? ==> forall t :: tx.phase.i <= t < |tx.todo| ==> c < tx.todo[t]
  }

  /** A packet in flight and one behind it. */
  ghost predicate Behind(m: Meta, tx: Tx, p: Packet, q: Packet) {
    && Rank(m, p) <= Rank(m, q)
    && (p.EobP? && Asked(tx, p.block, p.round) ==> q == p)
    && (Repairing(tx) && p.DataP? && q.DataP? ==> p.id.seqNo < q.id.seqNo)
  }

  ghost predicate QueueInv(m: Meta, image: seq<byte>, tx: Tx, rx: Rx, q: seq<Packet>) {
    && (forall i :: 0 <= i < |q| ==> Queued(m, image, tx, rx, q[i]))
    && (forall i, j :: 0 <= i < j < |q| ==> Behind(m, tx, q[i], q[j]))
  }

  /** The receiver has answered the question being asked, and nothing can change the answer. */
  ghost predicate Settled(m: Meta, tx: Tx, rx: Rx, q: seq<Packet>) {
    Active(rx) && rx.cur == tx.b && forall i :: 0 <= i < |q| ==> q[i] == EobP(tx.b, tx.round)
  }

  ghost predicate SaidBy(m: Meta, image: seq<byte>, tx: Tx, rx: Rx, q: seq<Packet>, p: Packet) {
    match p
    case StatP(b, round, _, _) =>
      && Past(tx, b, round)
      && (Asked(tx, b, round) ==> Settled(m, tx, rx, q) && Answer(m, rx, round) == Some(p))
    case FinAckP(status) => rx.outcome != Listening && (status == 0 ==> rx.store == image)
    case _ => false
  }

  /** The receiver's STAT for its current block. */
  function Answer(m: Meta, rx: Rx, round: nat): Option<Packet> {
    Report(rx.cur, round, MissingUpTo(rx, BlockK(m, rx.cur)), Base(rx))
  }

  ghost predicate AirInv(m: Meta, image: seq<byte>, tx: Tx, rx: Rx, q: seq<Packet>, air: set<Packet>) {
    forall p :: p in air ==> SaidBy(m, image, tx, rx, q, p)
  }

  ghost predicate TxInv(m: Meta, tx: Tx, rx: Rx) {
    && (tx.phase.Announcing? ==> tx.phase.left > 0)
    && (Active(rx) ==> rx.cur <= TxRank(m, tx))
    && (Here(tx) ==>
          && tx.b < NBlocks(m) && Stat.IsReport(tx.todo, tx.b * m.block, BlockK(m, tx.b))
          && (tx.round == 0 ==> tx.todo == BlockChunks(m, tx.b))
          && NeedsListed(m, tx, rx)
          && (tx.phase.Sending? ==> tx.phase.i < |tx.todo|))
    && (Repairing(tx) ==> Active(rx) && rx.cur == tx.b && RestLacking(tx, rx))
  }

  /** Every chunk still to be repeated is lacking. */
  ghost predicate RestLacking(tx: Tx, rx: Rx) {
    tx.phase.Sending? ==> forall t :: tx.phase.i <= t < |tx.todo| ==> Lacks(rx, tx.todo[t])
  }

  /** Block b reaches the store whole, now or when the receiver moves on. */
  ghost predicate HeldBlock(rx: Rx, m: Meta, got: set<nat>, b: nat) {
    BlockGot(m, got, b) || (Active(rx) && rx.cur == b && AllPresent(rx.present, BlockK(m, b)))
  }

  ghost predicate AllHeld(rx: Rx, m: Meta, got: set<nat>, agreed: set<nat>) {
    forall b :: b in agreed ==> HeldBlock(rx, m, got, b)
  }

  ghost predicate Accounts(rx: Rx, m: Meta, image: seq<byte>, agreed: set<nat>, got: set<nat>) {
    Known(rx, m, image, got) && AllHeld(rx, m, got, agreed)
  }

  ghost predicate RxInv(rx: Rx, m: Meta, image: seq<byte>, agreed: set<nat>) {
    && !rx.broadcast
    && if rx.haveMeta then exists got :: Accounts(rx, m, image, agreed, got)
       else rx.outcome == Listening && agreed == {}
  }

  ghost predicate Inv(m: Meta, image: seq<byte>, s: Sys) {
    && Conforming(m) && |image| == m.imgLen
    && RxInv(s.rx, m, image, s.agreed)
    && TxInv(m, s.tx, s.rx)
    && QueueInv(m, image, s.tx, s.rx, s.queue)
    && AirInv(m, image, s.tx, s.rx, s.queue, s.air)
  }

  lemma InitInv(m: Meta, image: seq<byte>, memory: seq<byte>)
    requires Conforming(m) && |image| == m.imgLen
    ensures Inv(m, image, Init(m, memory))
  {
    hide Conforming;
  }

  // ----- losing a packet

  lemma LoseKeepsInv(m: Meta, image: seq<byte>, s: Sys, n: Sys)
    requires Inv(m, image, s) && LoseStep(s, n)
    ensures Inv(m, image, n)
  {
    hide Conforming, RxInv, TxInv, Queued, Behind, Answer;
    TailQueue(m, image, s.tx, s.rx, s.queue);
    forall p | p in n.air ensures SaidBy(m, image, n.tx, n.rx, n.queue, p) {
      assert SaidBy(m, image, s.tx, s.rx, s.queue, p);
    }
  }

  lemma TailQueue(m: Meta, image: seq<byte>, tx: Tx, rx: Rx, q: seq<Packet>)
    requires QueueInv(m, image, tx, rx, q) && |q| > 0
    ensures QueueInv(m, image, tx, rx, q[1..])
  {
    hide Queued, Behind;
    forall i, j | 0 <= i < j < |q[1..]| ensures Behind(m, tx, q[1..][i], q[1..][j]) {
      assert Behind(m, tx, q[i + 1], q[j + 1]);
    }
  }
}
