/**
  The interactive protocol as a state machine: the sender's loop of rounds and retries, a lossy in-order
  channel to the receiver, and a return channel that may lose, delay and repeat what the receiver says.
*/
module Interactive {
  import opened Wrappers
  import opened Bytes
  import opened Frames
  import opened Image
  import opened Sender
  import opened Receiver
  import Stat

  datatype Config = Config(maxRounds: nat, eobRetry: nat)

  /** Where the interactive branch of loraitp_send_image is. */
  datatype Phase =
    | Announcing(left: nat)   // METAs still to send
    | Sending(i: nat)         // next entry of the to-do list
    | Asking(retry: nat)      // about to send an EOB
    | Awaiting(retry: nat)    // listening for the STAT
    | Closing                 // about to send the FIN
    | AwaitingFin
    | Returned(ok: bool)

  datatype Tx = Tx(phase: Phase, b: nat, round: nat, todo: seq<nat>)

  /** "air" is everything the receiver has ever said; "agreed" the blocks whose COMPLETE was accepted. */
  datatype Sys = Sys(tx: Tx, queue: seq<Packet>, rx: Rx, air: set<Packet>, agreed: set<nat>)

  /** Entries of the sender's to-do array. */
  const TODO: nat := 128

  function BlockChunks(m: Meta, b: nat): (todo: seq<nat>)
    ensures |todo| == BlockK(m, b)
  {
    seq(BlockK(m, b), i => b * m.block + i)
  }

  /** The top of the loop over blocks. */
  function EnterTx(cfg: Config, m: Meta, b: nat): Tx {
    if b < NBlocks(m) && cfg.maxRounds > 0 then Tx(Sending(0), b, 0, BlockChunks(m, b))
    else Tx(Closing, 0, 0, [])
  }

  /** Only what belongs to the block stays on the list. */
  function Keep(out: seq<nat>, lo: nat, hi: nat): seq<nat> {
    if |out| == 0 then []
    else Keep(out[..|out| - 1], lo, hi) + if lo <= out[|out| - 1] < hi then [out[|out| - 1]] else []
  }

  /** The to-do list an accepted STAT leads to. */
  function Accepted(m: Meta, b: nat, enc: nat, body: seq<byte>): seq<nat> {
    var base := b * m.block;
    if enc == Stat.COMPLETE then []
    else
      match Stat.DecodeBody(enc, body, base, TODO)
      case None => []
      case Some(out) => Keep(out, base, base + BlockK(m, b))
  }

  function NextRound(cfg: Config, m: Meta, tx: Tx, todo: seq<nat>): Tx {
    if todo == [] || tx.round + 1 >= cfg.maxRounds then EnterTx(cfg, m, tx.b + 1)
    else Tx(Sending(0), tx.b, tx.round + 1, todo)
  }

  function NextRetry(cfg: Config, m: Meta, tx: Tx, retry: nat): Tx {
    if retry < cfg.eobRetry then tx.(phase := Asking(retry)) else EnterTx(cfg, m, tx.b + 1)
  }

  /** The packet the sender transmits next, if it is its turn. */
  function Sends(m: Meta, image: seq<byte>, tx: Tx): Option<Packet> {
    match tx.phase
    case Announcing(_) => Some(MetaP(m))
    case Sending(i) => if i < |tx.todo| then Some(DataP(FrameId(tx.todo[i], false), ChunkAt(m, image, tx.todo[i]))) else None
    case Asking(_) => Some(EobP(tx.b, tx.round))
    case Closing => Some(FinP)
    case _ => None
  }

  /** The sender once that packet is out. */
  function Sent(cfg: Config, m: Meta, tx: Tx): Tx {
    match tx.phase
    case Announcing(left) => if left > 1 then tx.(phase := Announcing(left - 1)) else EnterTx(cfg, m, 0)
    case Sending(i) => if i + 1 < |tx.todo| then tx.(phase := Sending(i + 1)) else NextRetry(cfg, m, tx, 0)
    case Asking(retry) => tx.(phase := Awaiting(retry))
    case Closing => tx.(phase := AwaitingFin)
    case _ => tx
  }

  /** Whether this reply is the STAT the sender is waiting for. */
  predicate Matches(tx: Tx, reply: Option<Packet>) {
    tx.phase.Awaiting? && reply.Some? && reply.value.StatP? && reply.value.block == tx.b && reply.value.round == tx.round
  }

  /** The sender after a listening window: a reply, or None for silence. */
  function Replied(cfg: Config, m: Meta, tx: Tx, reply: Option<Packet>): Tx {
    if Matches(tx, reply) then NextRound(cfg, m, tx, Accepted(m, tx.b, reply.value.enc, reply.value.body))
    else if tx.phase.Awaiting? then NextRetry(cfg, m, tx, tx.phase.retry + 1)
    else if tx.phase.AwaitingFin? then
      tx.(phase := Returned(!(reply.Some? && reply.value.FinAckP? && reply.value.status != 0)))
    else tx
  }

  function Init(m: Meta, memory: seq<byte>): Sys {
    Sys(Tx(Announcing(3), 0, 0, []), [], Start(false, memory), {}, {})
  }

  /** The sender transmits. */
  ghost predicate SendStep(cfg: Config, m: Meta, image: seq<byte>, s: Sys, n: Sys) {
    && Sends(m, image, s.tx).Some?
    && n == s.(tx := Sent(cfg, m, s.tx), queue := s.queue + [Sends(m, image, s.tx).value])
  }

  /** The oldest packet in flight is lost ... */
  ghost predicate LoseStep(s: Sys, n: Sys) {
    |s.queue| > 0 && n == s.(queue := s.queue[1..])
  }

  /** ... or heard by the receiver, which may answer. */
  ghost predicate HearStep(s: Sys, n: Sys) {
    && |s.queue| > 0
    && var (rx, answer) := OnPacket(s.rx, s.queue[0]);
       n == s.(queue := s.queue[1..], rx := rx, air := if answer.Some? then s.air + {answer.value} else s.air)
  }

  /** The sender's listening window ends, with something the receiver once said or with nothing. */
  ghost predicate ReplyStep(cfg: Config, m: Meta, s: Sys, n: Sys, reply: Option<Packet>) {
    && (s.tx.phase.Awaiting? || s.tx.phase.AwaitingFin?) && (reply.Some? ==> reply.value in s.air)
    && n == s.(tx := Replied(cfg, m, s.tx, reply),
               agreed := if Matches(s.tx, reply) && reply.value.enc == Stat.COMPLETE then s.agreed + {s.tx.b} else s.agreed)
  }

  ghost predicate Next(cfg: Config, m: Meta, image: seq<byte>, s: Sys, n: Sys) {
    || SendStep(cfg, m, image, s, n) || LoseStep(s, n) || HearStep(s, n)
    || exists reply :: ReplyStep(cfg, m, s, n, reply)
  }

  /** A run from power-on. */
  ghost predicate Run(cfg: Config, m: Meta, image: seq<byte>, memory: seq<byte>, run: seq<Sys>) {
    |run| > 0 && run[0] == Init(m, memory) && forall i :: 0 <= i < |run| - 1 ==> Next(cfg, m, image, run[i], run[i + 1])
  }
}
