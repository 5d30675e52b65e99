/** Safety of interactive transfers over every run of the protocol. */
module InteractiveProof {
  import opened Wrappers
  import opened Bytes
  import opened Frames
  import opened Image
  import opened Sender
  import opened Receiver
  import opened Accounting
  import opened Safety
  import opened AnyLosses
  import opened Interactive
  import opened InteractiveInv
  import opened InteractiveSend
  import opened InteractiveReply
  import opened InteractiveHear
  import Stat

  lemma StepKeepsInv(cfg: Config, m: Meta, image: seq<byte>, s: Sys, n: Sys)
    requires Inv(m, image, s) && Next(cfg, m, image, s, n)
    ensures Inv(m, image, n)
  {
    hide Inv, SendStep, LoseStep, HearStep, ReplyStep;
    if SendStep(cfg, m, image, s, n) {
      SendKeepsInv(cfg, m, image, s, n);
    } else if LoseStep(s, n) {
      LoseKeepsInv(m, image, s, n);
    } else if HearStep(s, n) {
      HearKeepsInv(m, image, s, n);
    } else {
      var reply :| ReplyStep(cfg, m, s, n, reply);
      ReplyKeepsInv(cfg, m, image, s, n, reply);
    }
  }

  lemma {:induction false} RunKeepsInv(cfg: Config, m: Meta, image: seq<byte>, memory: seq<byte>, run: seq<Sys>, i: nat)
    requires Conforming(m) && |image| == m.imgLen && Run(cfg, m, image, memory, run) && i < |run|
    ensures Inv(m, image, run[i])
  {
    hide Conforming, Inv, Next;
    if i == 0 {
      InitInv(m, image, memory);
    } else {
      RunKeepsInv(cfg, m, image, memory, run, i - 1);
      StepKeepsInv(cfg, m, image, run[i - 1], run[i]);
    }
  }

  /**
    In every state of every run, whatever is lost on the way out and lost, delayed or repeated on the way
    back: each chunk stored is the image's, each other chunk is blank, and the count is exact.
  */
  lemma InteractiveIsSafe(cfg: Config, m: Meta, image: seq<byte>, memory: seq<byte>, run: seq<Sys>, i: nat)
    requires Conforming(m) && |image| == m.imgLen && Run(cfg, m, image, memory, run) && i < |run|
    ensures Sound(run[i].rx, m, image)
  {
    hide Conforming, Run, Known, TxInv, QueueInv, AirInv, AllHeld;
    RunKeepsInv(cfg, m, image, memory, run, i);
    var s := run[i];
    if s.rx.haveMeta {
      var got :| Accounts(s.rx, m, image, s.agreed, got);
      assert Known(s.rx, m, image, got);
    }
  }

  /** A FINACK of 0 is only ever sent by a receiver whose store is the image, and its store then stays so. */
  lemma FinAckZeroMeansWhole(cfg: Config, m: Meta, image: seq<byte>, memory: seq<byte>, run: seq<Sys>, i: nat)
    requires Conforming(m) && |image| == m.imgLen && Run(cfg, m, image, memory, run) && i < |run|
    ensures FinAckP(0) in run[i].air ==> run[i].rx.store == image
  {
    hide Conforming, Run, RxInv, TxInv, QueueInv, Settled, Answer, Past;
    RunKeepsInv(cfg, m, image, memory, run, i);
    var s := run[i];
    if FinAckP(0) in s.air {
      assert SaidBy(m, image, s.tx, s.rx, s.queue, FinAckP(0));
    }
  }

  /** The chunks of block b are in the store. */
  ghost predicate BlockStored(store: seq<byte>, m: Meta, image: seq<byte>, b: nat) {
    forall c :: b * m.block <= c < b * m.block + BlockK(m, b) ==> Holds(store, m, image, c)
  }

  lemma GotStored(store: seq<byte>, m: Meta, image: seq<byte>, got: set<nat>, b: nat)
    requires Tracks(store, m, image, got) && BlockGot(m, got, b)
    ensures BlockStored(store, m, image, b)
  {
    hide NChunks, BlockK, Conforming, Holds, Blank;
    forall c | b * m.block <= c < b * m.block + BlockK(m, b) ensures Holds(store, m, image, c) {
      assert c in got;
      assert TracksAt(store, m, image, got, c);
    }
  }

  /**
    An accepted COMPLETE is a promise kept: the receiver holds the whole block from then on, and when it
    stops the block is in the store.
  */
  lemma AgreedBlocksAreKept(cfg: Config, m: Meta, image: seq<byte>, memory: seq<byte>, run: seq<Sys>, i: nat, b: nat)
    requires Conforming(m) && |image| == m.imgLen && Run(cfg, m, image, memory, run) && i < |run| && b in run[i].agreed
    ensures var rx := run[i].rx;
      BlockStored(rx.store, m, image, b) || (Active(rx) && rx.cur == b && AllPresent(rx.present, BlockK(m, b)))
    ensures run[i].rx.outcome != Listening ==> BlockStored(run[i].rx.store, m, image, b)
  {
    hide Conforming, Run, TxInv, QueueInv, AirInv, NChunks, BlockK, NBlocks, Tracks, BlockStored, BlockGot;
    RunKeepsInv(cfg, m, image, memory, run, i);
    var s := run[i];
    var got :| Accounts(s.rx, m, image, s.agreed, got);
    assert HeldBlock(s.rx, m, got, b);
    KnownTracks(s.rx, m, image, got);
    if BlockGot(m, got, b) {
      GotStored(s.rx.store, m, image, got, b);
    }
  }

  lemma KnownTracks(rx: Rx, m: Meta, image: seq<byte>, got: set<nat>)
    requires Known(rx, m, image, got)
    ensures Tracks(rx.store, m, image, got)
  {
    hide Tracks;
  }

  /** With every block agreed, the receiver that hears the FIN has the image. */
  lemma AllAgreedDelivers(cfg: Config, m: Meta, image: seq<byte>, memory: seq<byte>, run: seq<Sys>, i: nat)
    requires Conforming(m) && |image| == m.imgLen && Run(cfg, m, image, memory, run) && i < |run|
    requires forall b :: 0 <= b < NBlocks(m) ==> b in run[i].agreed
    ensures run[i].rx.outcome != Listening ==> run[i].rx.store == image
  {
    hide Conforming, Run, NChunks, BlockK, NBlocks, ChunkAt;
    var s := run[i];
    if s.rx.outcome != Listening {
      assert |s.rx.store| == m.imgLen by {
        StoreLength(cfg, m, image, memory, run, i);
      }
      forall c | 0 <= c < NChunks(m) ensures Holds(s.rx.store, m, image, c) {
        var b := BlockOfChunk(m, c);
        AgreedBlocksAreKept(cfg, m, image, memory, run, i, b);
      }
      AllHeldIsImage(s.rx.store, m, image);
    }
  }

  lemma StoreLength(cfg: Config, m: Meta, image: seq<byte>, memory: seq<byte>, run: seq<Sys>, i: nat)
    requires Conforming(m) && |image| == m.imgLen && Run(cfg, m, image, memory, run) && i < |run|
    ensures run[i].rx.outcome != Listening ==> |run[i].rx.store| == m.imgLen
  {
    hide Conforming, Run, Tracks, Accounted;
    InteractiveIsSafe(cfg, m, image, memory, run, i);
    if run[i].rx.outcome != Listening {
      var got :| Known(run[i].rx, m, image, got);
      KnownTracks(run[i].rx, m, image, got);
      TracksLength(run[i].rx.store, m, image, got);
    }
  }

  /** No retransmission is wasted: every chunk repeated, when it gets through, was lacking. */
  lemma RepeatsWereMissing(cfg: Config, m: Meta, image: seq<byte>, memory: seq<byte>, run: seq<Sys>, i: nat)
    requires Conforming(m) && |image| == m.imgLen && Run(cfg, m, image, memory, run) && i < |run|
    requires Repairing(run[i].tx) && |run[i].queue| > 0 && run[i].queue[0].DataP?
    ensures var rx, c := run[i].rx, run[i].queue[0].id.seqNo;
      Active(rx) && Lacks(rx, c)
  {
    hide Conforming, Run, RxInv, AirInv, Lacks, OnAir, Rank, NBlocks, BlockK;
    RunKeepsInv(cfg, m, image, memory, run, i);
    HeadQueued(m, image, run[i].tx, run[i].rx, run[i].queue);
  }

  /** The list is what the receiver lacks, in order, and nothing but EOBs of this round is in flight. */
  ghost predicate ExactToDo(m: Meta, s: Sys, todo: seq<nat>) {
    && IsLacking(s.rx, todo) && (forall c: nat :: c in todo ==> c in s.tx.todo)
    && Stat.IsReport(todo, s.tx.b * m.block, BlockK(m, s.tx.b))
    && (forall q :: 0 <= q < |s.queue| ==> s.queue[q] == EobP(s.tx.b, s.tx.round))
  }

  /** In every run, the to-do list after an accepted STAT is what the receiver lacks, and part of the old list. */
  lemma ToDoIsWhatIsLacking(cfg: Config, m: Meta, image: seq<byte>, memory: seq<byte>, run: seq<Sys>, i: nat, p: Packet)
    requires Conforming(m) && |image| == m.imgLen && Run(cfg, m, image, memory, run) && i < |run|
    requires Matches(run[i].tx, Some(p)) && p in run[i].air
    ensures ExactToDo(m, run[i], Accepted(m, run[i].tx.b, p.enc, p.body))
  {
    hide Conforming, Run, Inv, Accepted, Lacks, BlockK, Stat.IsReport, MissingUpTo;
    RunKeepsInv(cfg, m, image, memory, run, i);
    AcceptedStatIsExact(m, image, run[i], p);
  }
}
