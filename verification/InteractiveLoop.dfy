/** The interactive sender as the source writes it, in loops, and the machine it follows. */
module InteractiveLoop {
  import opened Wrappers
  import opened Bytes
  import opened Frames
  import opened Image
  import opened Sender
  import opened Receiver
  import opened Interactive
  import Stat

  /** What the sender does: transmit a packet, or listen for a while. */
  datatype Event = Out(p: Packet) | In(reply: Option<Packet>)

  /** One event of the machine; None when it would not do that now. */
  function Step(cfg: Config, m: Meta, image: seq<byte>, tx: Tx, e: Event): Option<Tx> {
    match e
    case Out(p) => if Sends(m, image, tx) == Some(p) then Some(Sent(cfg, m, tx)) else None
    case In(reply) => if tx.phase.Awaiting? || tx.phase.AwaitingFin? then Some(Replied(cfg, m, tx, reply)) else None
  }

  /** The machine after these events. */
  function Walk(cfg: Config, m: Meta, image: seq<byte>, log: seq<Event>): Option<Tx> {
    if |log| == 0 then Some(Tx(Announcing(3), 0, 0, []))
    else
      match Walk(cfg, m, image, log[..|log| - 1])
      case None => None
      case Some(tx) => Step(cfg, m, image, tx, log[|log| - 1])
  }

  lemma WalkOn(cfg: Config, m: Meta, image: seq<byte>, log: seq<Event>, e: Event)
    ensures Walk(cfg, m, image, log + [e])
            == match Walk(cfg, m, image, log) case None => None case Some(tx) => Step(cfg, m, image, tx, e)
  {
    hide Step;
    assert (log + [e])[..|log|] == log;
  }

  /** The log leads the machine to tx. */
  ghost predicate At(cfg: Config, m: Meta, image: seq<byte>, log: seq<Event>, tx: Tx) {
    Walk(cfg, m, image, log) == Some(tx)
  }

  /** What the listening windows of a log brought. */
  function Replies(log: seq<Event>): seq<Option<Packet>> {
    if |log| == 0 then []
    else Replies(log[..|log| - 1]) + if log[|log| - 1].In? then [log[|log| - 1].reply] else []
  }

  /** There have been this many listening windows, and the i-th brought replies(i). */
  ghost predicate Listened(log: seq<Event>, replies: nat -> Option<Packet>, windows: nat) {
    |Replies(log)| == windows && forall i: nat :: i < windows ==> Replies(log)[i] == replies(i)
  }

  lemma RepliesOn(log: seq<Event>, e: Event)
    ensures Replies(log + [e]) == Replies(log) + if e.In? then [e.reply] else []
  {
    assert (log + [e])[..|log|] == log;
  }

  /** Transmitting what the machine transmits. */
  method Emit(cfg: Config, m: Meta, image: seq<byte>, log0: seq<Event>, ghost tx: Tx, p: Packet) returns (log: seq<Event>)
    requires At(cfg, m, image, log0, tx) && Sends(m, image, tx) == Some(p)
    ensures At(cfg, m, image, log, Sent(cfg, m, tx)) && Replies(log) == Replies(log0) && log == log0 + [Out(p)]
  {
    hide Walk, Sent, Sends;
    log := log0 + [Out(p)];
    WalkOn(cfg, m, image, log0, Out(p));
    RepliesOn(log0, Out(p));
  }

  /** The next listening window, when the machine listens. */
  method Listen(cfg: Config, m: Meta, image: seq<byte>, log0: seq<Event>, ghost tx: Tx, replies: nat -> Option<Packet>,
                windows: nat) returns (reply: Option<Packet>, log: seq<Event>)
    requires At(cfg, m, image, log0, tx) && (tx.phase.Awaiting? || tx.phase.AwaitingFin?)
    requires Listened(log0, replies, windows)
    ensures reply == replies(windows) && Listened(log, replies, windows + 1) && log == log0 + [In(reply)]
    ensures At(cfg, m, image, log, Replied(cfg, m, tx, reply))
  {
    hide Walk, Replied, Replies;
    reply := replies(windows);
    log := log0 + [In(reply)];
    WalkOn(cfg, m, image, log0, In(reply));
    RepliesOn(log0, In(reply));
  }

  /** The in-place filter: keep only what belongs to the block. */
  method KeepOnly(out: seq<nat>, lo: nat, hi: nat) returns (kept: seq<nat>)
    ensures kept == Keep(out, lo, hi)
  {
    kept := [];
    for i := 0 to |out|
      invariant kept == Keep(out[..i], lo, hi)
    {
      assert out[..i + 1][..i] == out[..i];
      if lo <= out[i] < hi {
        kept := kept + [out[i]];
      }
    }
    assert out[..|out|] == out;
  }

  /** The to-do list from a STAT's body. */
  method TakeStat(m: Meta, b: nat, enc: nat, body: seq<byte>) returns (todo: seq<nat>)
    ensures todo == Accepted(m, b, enc, body)
  {
    hide Stat.DecodeBody, Keep, BlockK;
    if enc == Stat.COMPLETE {
      return [];
    }
    var r := Stat.DecodeStatBody(enc, body, b * m.block, TODO);
    match r {
      case None => todo := [];
      case Some(out) => todo := KeepOnly(out, b * m.block, b * m.block + BlockK(m, b));
    }
  }

  /** A pass over a list, as it goes into the log. */
  function Pass(m: Meta, image: seq<byte>, todo: seq<nat>): (l: seq<Event>)
    ensures |l| == |todo|
    ensures forall i :: 0 <= i < |l| ==> l[i] == Out(DataP(FrameId(todo[i], false), ChunkAt(m, image, todo[i])))
  {
    seq(|todo|, i requires 0 <= i < |todo| => Out(DataP(FrameId(todo[i], false), ChunkAt(m, image, todo[i]))))
  }

  /** n EOBs of a round, each with what its listening window brought. */
  function Asks(b: nat, round: nat, replies: nat -> Option<Packet>, w: nat, n: nat): (l: seq<Event>)
    ensures |l| == 2 * n
    ensures forall j :: 0 <= j < n ==> l[2 * j] == Out(EobP(b, round)) && l[2 * j + 1] == In(replies(w + j))
  {
    if n == 0 then [] else Asks(b, round, replies, w, n - 1) + [Out(EobP(b, round)), In(replies(w + (n - 1)))]
  }

  /** One pass over the to-do list. */
  method SendList(cfg: Config, m: Meta, image: seq<byte>, b: nat, round: nat, todo: seq<nat>, log0: seq<Event>)
    returns (log: seq<Event>)
    requires |todo| > 0 && At(cfg, m, image, log0, Tx(Sending(0), b, round, todo))
    ensures At(cfg, m, image, log, NextRetry(cfg, m, Tx(Sending(|todo| - 1), b, round, todo), 0))
    ensures Replies(log) == Replies(log0) && log == log0 + Pass(m, image, todo)
  {
    hide At, ChunkAt, EnterTx, Replies;
    log := log0;
    assert log0 + Pass(m, image, todo)[..0] == log0;
    for i := 0 to |todo|
      invariant Replies(log) == Replies(log0) && log == log0 + Pass(m, image, todo)[..i]
      invariant i < |todo| ==> At(cfg, m, image, log, Tx(Sending(i), b, round, todo))
      invariant i == |todo| ==> At(cfg, m, image, log, NextRetry(cfg, m, Tx(Sending(|todo| - 1), b, round, todo), 0))
    {
      log := Emit(cfg, m, image, log, Tx(Sending(i), b, round, todo),
                  DataP(FrameId(todo[i], false), ChunkAt(m, image, todo[i])));
      assert Pass(m, image, todo)[..i + 1] == Pass(m, image, todo)[..i] + [Pass(m, image, todo)[i]];
    }
    assert Pass(m, image, todo)[..|todo|] == Pass(m, image, todo);
  }

  /** This reply is the STAT of the round. */
  predicate Answers(b: nat, round: nat, reply: Option<Packet>) {
    reply.Some? && reply.value.StatP? && reply.value.block == b && reply.value.round == round
  }

  /**
    EOB and listen, up to eob_retry times: the first reply of the round is taken, and the list is the one
    its body stands for.
  */
  method AskRound(cfg: Config, m: Meta, image: seq<byte>, b: nat, round: nat, todo0: seq<nat>,
                  replies: nat -> Option<Packet>, windows0: nat, log0: seq<Event>)
    returns (gotStat: bool, todo: seq<nat>, windows: nat, log: seq<Event>)
    requires |todo0| > 0 && At(cfg, m, image, log0, NextRetry(cfg, m, Tx(Sending(|todo0| - 1), b, round, todo0), 0))
    requires Listened(log0, replies, windows0)
    ensures Listened(log, replies, windows) && windows0 <= windows <= windows0 + cfg.eobRetry
    ensures log == log0 + Asks(b, round, replies, windows0, windows - windows0)
    ensures forall i :: windows0 <= i < windows - 1 ==> !Answers(b, round, replies(i))
    ensures gotStat ==>
              && windows > windows0 && Answers(b, round, replies(windows - 1))
              && todo == Accepted(m, b, replies(windows - 1).value.enc, replies(windows - 1).value.body)
              && exists phase :: At(cfg, m, image, log, NextRound(cfg, m, Tx(phase, b, round, todo0), todo))
    ensures !gotStat ==>
              && windows == windows0 + cfg.eobRetry
              && (windows > windows0 ==> !Answers(b, round, replies(windows - 1)))
              && At(cfg, m, image, log, EnterTx(cfg, m, b + 1))
  {
    hide At, EnterTx, Accepted, Replies, Listened, Asks;
    NoAsks(b, round, replies, windows0);
    gotStat, todo, windows, log := false, todo0, windows0, log0;
    var retry := 0;
    SameRetry(cfg, m, Tx(Sending(|todo0| - 1), b, round, todo0), Tx(Asking(0), b, round, todo0), 0);
    while retry < cfg.eobRetry && !gotStat
      invariant retry <= cfg.eobRetry && Listened(log, replies, windows)
      invariant windows == windows0 + retry + if gotStat then 1 else 0
      invariant windows0 <= windows <= windows0 + cfg.eobRetry
      invariant log == log0 + Asks(b, round, replies, windows0, windows - windows0)
      invariant forall i :: windows0 <= i < windows0 + retry ==> !Answers(b, round, replies(i))
      invariant !gotStat ==> At(cfg, m, image, log, NextRetry(cfg, m, Tx(Asking(0), b, round, todo0), retry))
      invariant gotStat ==>
                  && Answers(b, round, replies(windows - 1))
                  && todo == Accepted(m, b, replies(windows - 1).value.enc, replies(windows - 1).value.body)
                  && exists phase :: At(cfg, m, image, log, NextRound(cfg, m, Tx(phase, b, round, todo0), todo))
      decreases cfg.eobRetry - retry, !gotStat
    {
      ghost var was := log;
      log := Emit(cfg, m, image, log, Tx(Asking(retry), b, round, todo0), EobP(b, round));
      ListenedOn(was, log, replies, windows);
      ghost var tx := Tx(Awaiting(retry), b, round, todo0);
      var reply;
      reply, log := Listen(cfg, m, image, log, tx, replies, windows);
      OneMoreAsk(b, round, replies, windows0, windows - windows0);
      windows := windows + 1;
      if reply.Some? && reply.value.StatP? && reply.value.block == b && reply.value.round == round {
        gotStat := true;
        todo := TakeStat(m, b, reply.value.enc, reply.value.body);
        assert At(cfg, m, image, log, NextRound(cfg, m, Tx(tx.phase, b, round, todo0), todo));
      } else {
        SameRetry(cfg, m, tx, Tx(Asking(0), b, round, todo0), retry + 1);
        retry := retry + 1;
      }
    }
  }

  lemma NoAsks(b: nat, round: nat, replies: nat -> Option<Packet>, w: nat)
    ensures Asks(b, round, replies, w, 0) == []
  {
  }

  lemma OneMoreAsk(b: nat, round: nat, replies: nat -> Option<Packet>, w: nat, n: nat)
    ensures Asks(b, round, replies, w, n + 1) == Asks(b, round, replies, w, n) + [Out(EobP(b, round)), In(replies(w + n))]
  {
  }

  lemma ListenedOn(log0: seq<Event>, log: seq<Event>, replies: nat -> Option<Packet>, windows: nat)
    requires Listened(log0, replies, windows) && Replies(log) == Replies(log0)
    ensures Listened(log, replies, windows)
  {
  }

  /** Only block, round and list matter for what comes next. */
  lemma SameRetry(cfg: Config, m: Meta, x: Tx, y: Tx, retry: nat)
    requires x.b == y.b && x.round == y.round && x.todo == y.todo
    ensures NextRetry(cfg, m, x, retry) == NextRetry(cfg, m, y, retry)
  {
    hide EnterTx;
  }

  // ----- what one block leaves in the log

  /** The last EOB was answered, and the list its STAT stands for is empty. */
  ghost predicate EndsAgreed(m: Meta, b: nat, part: seq<Event>) {
    |part| >= 2 && part[|part| - 1].In? &&
    exists round: nat ::
      && part[|part| - 2] == Out(EobP(b, round)) && Answers(b, round, part[|part| - 1].reply)
      && Accepted(m, b, part[|part| - 1].reply.value.enc, part[|part| - 1].reply.value.body) == []
  }

  /** Every round has been asked about, and the last one answered. */
  ghost predicate EndsSpent(cfg: Config, b: nat, part: seq<Event>) {
    && (forall r :: 0 <= r < cfg.maxRounds ==> Out(EobP(b, r)) in part)
    && |part| >= 2 && part[|part| - 1].In? && cfg.maxRounds > 0
    && part[|part| - 2] == Out(EobP(b, cfg.maxRounds - 1)) && Answers(b, cfg.maxRounds - 1, part[|part| - 1].reply)
  }

  /** The last eob_retry things the sender did were EOBs of one round, each without its answer. */
  ghost predicate EndsUnanswered(cfg: Config, b: nat, part: seq<Event>) {
    |part| >= 2 * cfg.eobRetry &&
    var last := part[|part| - 2 * cfg.eobRetry..];
    exists round: nat :: round < cfg.maxRounds && Unanswered(b, round, last, cfg.eobRetry)
  }

  ghost predicate Unanswered(b: nat, round: nat, l: seq<Event>, n: nat)
    requires |l| == 2 * n
  {
    forall j :: 0 <= j < n ==> AskedInVain(b, round, l[2 * j], l[2 * j + 1])
  }

  predicate AskedInVain(b: nat, round: nat, e: Event, f: Event) {
    e == Out(EobP(b, round)) && f.In? && !Answers(b, round, f.reply)
  }

  /**
    A block's part of the log: all its chunks in order, then an EOB; and it is left only on a STAT with nothing
    on its list, after the last round, or after eob_retry EOBs in vain.
  */
  ghost predicate BlockSent(cfg: Config, m: Meta, image: seq<byte>, b: nat, part: seq<Event>) {
    if cfg.maxRounds == 0 then part == []
    else
      && Pass(m, image, BlockChunks(m, b)) <= part
      && (cfg.eobRetry > 0 ==> |part| > BlockK(m, b) && part[BlockK(m, b)] == Out(EobP(b, 0)))
      && (EndsAgreed(m, b, part) || EndsSpent(cfg, b, part) || EndsUnanswered(cfg, b, part))
  }

  /** What a block has left in the log when a round begins. */
  ghost predicate RoundsBefore(cfg: Config, m: Meta, image: seq<byte>, b: nat, round: nat, todo: seq<nat>, part: seq<Event>) {
    if round == 0 then part == [] && todo == BlockChunks(m, b)
    else
      && Pass(m, image, BlockChunks(m, b)) <= part
      && (cfg.eobRetry > 0 ==> |part| > BlockK(m, b) && part[BlockK(m, b)] == Out(EobP(b, 0)))
      && (forall r :: 0 <= r < round ==> Out(EobP(b, r)) in part)
      && |part| >= 2 && part[|part| - 1].In? && part[|part| - 2] == Out(EobP(b, round - 1))
      && Answers(b, round - 1, part[|part| - 1].reply)
  }

  /** A round adds a pass and its EOBs, the first of them right behind the chunks. */
  lemma RoundStarts(cfg: Config, m: Meta, image: seq<byte>, b: nat, round: nat, todo: seq<nat>, part: seq<Event>,
                    asks: seq<Event>)
    requires RoundsBefore(cfg, m, image, b, round, todo, part)
    requires |asks| > 0 ==> asks[0] == Out(EobP(b, round))
    requires cfg.eobRetry > 0 ==> |asks| > 0
    ensures var after := part + Pass(m, image, todo) + asks;
      && Pass(m, image, BlockChunks(m, b)) <= after
      && (cfg.eobRetry > 0 ==> |after| > BlockK(m, b) && after[BlockK(m, b)] == Out(EobP(b, 0)))
      && (forall r :: 0 <= r < round ==> Out(EobP(b, r)) in after)
  {
    hide BlockK, ChunkAt;
    var pass, chunks := Pass(m, image, todo), Pass(m, image, BlockChunks(m, b));
    if round == 0 {
      assert part + pass + asks == chunks + asks;
    } else {
      assert part + pass + asks == part + (pass + asks);
    }
  }

  /** After a round that was answered. */
  lemma RoundAnswered(cfg: Config, m: Meta, image: seq<byte>, b: nat, round: nat, todo: seq<nat>, part: seq<Event>,
                      replies: nat -> Option<Packet>, w: nat, n: nat)
    requires RoundsBefore(cfg, m, image, b, round, todo, part) && 0 < n && Answers(b, round, replies(w + n - 1))
    ensures var after := part + Pass(m, image, todo) + Asks(b, round, replies, w, n);
      && RoundsBefore(cfg, m, image, b, round + 1, [], after)
      && (Accepted(m, b, replies(w + n - 1).value.enc, replies(w + n - 1).value.body) == [] ==> EndsAgreed(m, b, after))
      && (round + 1 == cfg.maxRounds ==> EndsSpent(cfg, b, after))
  {
    hide BlockK, Asks, Pass, Accepted;
    var asks := Asks(b, round, replies, w, n);
    assert asks[2 * 0] == Out(EobP(b, round));
    RoundStarts(cfg, m, image, b, round, todo, part, asks);
    var after := part + Pass(m, image, todo) + asks;
    assert after[|after| - 2] == asks[2 * (n - 1)] && after[|after| - 1] == asks[2 * (n - 1) + 1];
    assert Out(EobP(b, round)) in after;
  }

  /** After a round asked about in vain. */
  lemma RoundInVain(cfg: Config, m: Meta, image: seq<byte>, b: nat, round: nat, todo: seq<nat>, part: seq<Event>,
                    replies: nat -> Option<Packet>, w: nat)
    requires RoundsBefore(cfg, m, image, b, round, todo, part) && round < cfg.maxRounds
    requires forall i :: w <= i < w + cfg.eobRetry ==> !Answers(b, round, replies(i))
    ensures BlockSent(cfg, m, image, b, part + Pass(m, image, todo) + Asks(b, round, replies, w, cfg.eobRetry))
  {
    hide BlockK, Asks, Pass, EndsAgreed, EndsSpent;
    var asks := Asks(b, round, replies, w, cfg.eobRetry);
    if cfg.eobRetry > 0 {
      assert asks[2 * 0] == Out(EobP(b, round));
    }
    RoundStarts(cfg, m, image, b, round, todo, part, asks);
    var after := part + Pass(m, image, todo) + asks;
    assert after[|after| - 2 * cfg.eobRetry..] == asks;
    forall j | 0 <= j < cfg.eobRetry ensures AskedInVain(b, round, asks[2 * j], asks[2 * j + 1]) {
      assert asks[2 * j + 1] == In(replies(w + j));
    }
    assert Unanswered(b, round, asks, cfg.eobRetry);
  }

  lemma NoRounds(cfg: Config, m: Meta, image: seq<byte>, b: nat)
    ensures cfg.maxRounds == 0 ==> BlockSent(cfg, m, image, b, [])
  {
  }

  lemma RoundsAreSent(cfg: Config, m: Meta, image: seq<byte>, b: nat, round: nat, part: seq<Event>)
    requires round > 0 && cfg.maxRounds > 0 && RoundsBefore(cfg, m, image, b, round, [], part)
    requires EndsAgreed(m, b, part) || EndsSpent(cfg, b, part)
    ensures BlockSent(cfg, m, image, b, part)
  {
    hide BlockK, Pass, EndsAgreed, EndsSpent, EndsUnanswered;
  }

  /** One block: rounds of sending, asking and repairing. */
  method SendBlockInteractive(cfg: Config, m: Meta, image: seq<byte>, b: nat, replies: nat -> Option<Packet>,
                              windows0: nat, log0: seq<Event>)
    returns (windows: nat, log: seq<Event>, ghost part: seq<Event>)
    requires Conforming(m) && b < NBlocks(m) && At(cfg, m, image, log0, EnterTx(cfg, m, b))
    requires Listened(log0, replies, windows0)
    ensures At(cfg, m, image, log, EnterTx(cfg, m, b + 1)) && Listened(log, replies, windows)
    ensures log == log0 + part && BlockSent(cfg, m, image, b, part)
  {
    hide At, Conforming, NBlocks, BlockK, Replies, Listened, BlockSent, Pass, Asks, EndsAgreed, EndsSpent, Accepted, Answers,
         RoundsBefore;
    BlockKAt(m, b);
    windows, log, part := windows0, log0, [];
    var todo: seq<nat> := BlockChunks(m, b);
    var round := 0;
    var more := true;
    NothingBefore(cfg, m, image, b);
    NoRounds(cfg, m, image, b);
    while round < cfg.maxRounds && more
      invariant |todo| > 0 && Listened(log, replies, windows) && log == log0 + part && round <= cfg.maxRounds
      invariant more && round < cfg.maxRounds ==> At(cfg, m, image, log, Tx(Sending(0), b, round, todo))
      invariant more && round < cfg.maxRounds ==> RoundsBefore(cfg, m, image, b, round, todo, part)
      invariant !(more && round < cfg.maxRounds) ==> At(cfg, m, image, log, EnterTx(cfg, m, b + 1))
      invariant !(more && round < cfg.maxRounds) ==> BlockSent(cfg, m, image, b, part)
      decreases cfg.maxRounds - round, more
    {
      ghost var was, w := log, windows;
      log := SendList(cfg, m, image, b, round, todo, log);
      ListenedOn(was, log, replies, windows);
      var gotStat, list;
      gotStat, list, windows, log := AskRound(cfg, m, image, b, round, todo, replies, windows, log);
      ghost var after := part + Pass(m, image, todo) + Asks(b, round, replies, w, windows - w);
      assert log == log0 + after;
      if !gotStat {
        more := false;
        RoundInVain(cfg, m, image, b, round, todo, part, replies, w);
        part := after;
      } else {
        RoundOver(cfg, m, image, b, round, todo, list, log);
        RoundAnswered(cfg, m, image, b, round, todo, part, replies, w, windows - w);
        if |list| == 0 || round + 1 == cfg.maxRounds {
          RoundsAreSent(cfg, m, image, b, round + 1, after);
        }
        part := after;
        if |list| == 0 {
          more := false;
        } else {
          AnyList(cfg, m, image, b, round + 1, list, part);
          todo := list;
          round := round + 1;
        }
      }
    }
  }

  lemma NothingBefore(cfg: Config, m: Meta, image: seq<byte>, b: nat)
    ensures RoundsBefore(cfg, m, image, b, 0, BlockChunks(m, b), [])
  {
  }

  lemma AnyList(cfg: Config, m: Meta, image: seq<byte>, b: nat, round: nat, todo: seq<nat>, part: seq<Event>)
    requires round > 0 && RoundsBefore(cfg, m, image, b, round, [], part)
    ensures RoundsBefore(cfg, m, image, b, round, todo, part)
  {
    hide BlockK, Pass;
  }

  /** Where the machine is after an accepted STAT. */
  lemma RoundOver(cfg: Config, m: Meta, image: seq<byte>, b: nat, round: nat, todo: seq<nat>, list: seq<nat>, log: seq<Event>)
    requires exists phase :: At(cfg, m, image, log, NextRound(cfg, m, Tx(phase, b, round, todo), list))
    ensures At(cfg, m, image, log, if list == [] || round + 1 >= cfg.maxRounds then EnterTx(cfg, m, b + 1)
                                   else Tx(Sending(0), b, round + 1, list))
  {
    hide At, EnterTx;
  }

  /** The parts of all blocks before n, one behind the other from the third event on. */
  ghost predicate BlocksSent(cfg: Config, m: Meta, image: seq<byte>, log: seq<Event>, cuts: seq<nat>, n: nat) {
    && |cuts| == n + 1 && cuts[0] == 3 && cuts[n] <= |log|
    && forall b :: 0 <= b < n ==> BlockSentAt(cfg, m, image, log, cuts, b)
  }

  ghost predicate BlockSentAt(cfg: Config, m: Meta, image: seq<byte>, log: seq<Event>, cuts: seq<nat>, b: nat)
    requires b + 1 < |cuts|
  {
    cuts[b] <= cuts[b + 1] <= |log| && BlockSent(cfg, m, image, b, log[cuts[b]..cuts[b + 1]])
  }

  lemma BlocksSentOn(cfg: Config, m: Meta, image: seq<byte>, log: seq<Event>, cuts: seq<nat>, b: nat, part: seq<Event>)
    requires BlocksSent(cfg, m, image, log, cuts, b) && cuts[b] == |log| && BlockSent(cfg, m, image, b, part)
    ensures BlocksSent(cfg, m, image, log + part, cuts + [|log + part|], b + 1)
  {
    hide BlockSent, BlockSentAt;
    var longer, more := log + part, cuts + [|log + part|];
    forall c | 0 <= c < b + 1 ensures BlockSentAt(cfg, m, image, longer, more, c) {
      if c < b {
        assert BlockSentAt(cfg, m, image, log, cuts, c);
        SentStays(cfg, m, image, log, part, cuts, more, c);
      } else {
        LastSent(cfg, m, image, log, part, more, b);
      }
    }
  }

  lemma SentStays(cfg: Config, m: Meta, image: seq<byte>, log: seq<Event>, rest: seq<Event>, cuts: seq<nat>, more: seq<nat>, c: nat)
    requires c + 1 < |cuts| <= |more| && more[c] == cuts[c] && more[c + 1] == cuts[c + 1]
    requires BlockSentAt(cfg, m, image, log, cuts, c)
    ensures BlockSentAt(cfg, m, image, log + rest, more, c)
  {
    hide BlockSent;
    assert (log + rest)[cuts[c]..cuts[c + 1]] == log[cuts[c]..cuts[c + 1]];
  }

  lemma LastSent(cfg: Config, m: Meta, image: seq<byte>, log: seq<Event>, part: seq<Event>, more: seq<nat>, b: nat)
    requires b + 1 < |more| && more[b] == |log| && more[b + 1] == |log + part| && BlockSent(cfg, m, image, b, part)
    ensures BlockSentAt(cfg, m, image, log + part, more, b)
  {
    hide BlockSent;
    assert (log + part)[|log|..|log + part|] == part;
  }

  lemma BlocksSentBehind(cfg: Config, m: Meta, image: seq<byte>, log: seq<Event>, cuts: seq<nat>, b: nat, rest: seq<Event>)
    requires BlocksSent(cfg, m, image, log, cuts, b)
    ensures BlocksSent(cfg, m, image, log + rest, cuts, b)
  {
    hide BlockSent, BlockSentAt;
    forall c | 0 <= c < b ensures BlockSentAt(cfg, m, image, log + rest, cuts, c) {
      assert BlockSentAt(cfg, m, image, log, cuts, c);
      SentStays(cfg, m, image, log, rest, cuts, cuts, c);
    }
  }

  /** A FINACK that reports the image incomplete. */
  predicate SaysIncomplete(reply: Option<Packet>) {
    reply.Some? && reply.value.FinAckP? && reply.value.status != 0
  }

  /**
    The interactive branch of loraitp_send_image: when the i-th listening window brings replies(i), what it
    transmits and when it listens is a path of the state machine, from the announcement to its return value.
    Behind three METAs every block has its part of the log; then come the FIN and one window, and the
    result is false only if that window brings a FINACK that says so.
  */
  method SendInteractive(cfg: Config, m: Meta, image: seq<byte>, replies: nat -> Option<Packet>)
    returns (ok: bool, log: seq<Event>, ghost cuts: seq<nat>)
    requires Conforming(m)
    ensures exists tx :: At(cfg, m, image, log, tx) && tx.phase == Returned(ok)
    ensures exists windows :: Listened(log, replies, windows)
    ensures |log| >= 5 && log[..3] == [Out(MetaP(m)), Out(MetaP(m)), Out(MetaP(m))]
    ensures BlocksSent(cfg, m, image, log, cuts, NBlocks(m)) && cuts[NBlocks(m)] == |log| - 2
    ensures log[|log| - 2] == Out(FinP) && log[|log| - 1].In? && ok == !SaysIncomplete(log[|log| - 1].reply)
  {
    hide Conforming, NBlocks, BlockK, Replies, BlockSent;
    log := [];
    NoReplies(replies);
    for i := 0 to 3
      invariant Listened(log, replies, 0) && log == seq(i, _ => Out(MetaP(m)))
      invariant i < 3 ==> At(cfg, m, image, log, Tx(Announcing(3 - i), 0, 0, []))
      invariant i == 3 ==> At(cfg, m, image, log, EnterTx(cfg, m, 0))
    {
      log := Emit(cfg, m, image, log, Tx(Announcing(3 - i), 0, 0, []), MetaP(m));
    }
    hide At, Listened;
    ghost var head := log;
    var windows := 0;
    cuts := [3];
    for b := 0 to NBlocks(m)
      invariant At(cfg, m, image, log, EnterTx(cfg, m, b)) && Listened(log, replies, windows)
      invariant head <= log && BlocksSent(cfg, m, image, log, cuts, b) && cuts[b] == |log|
    {
      ghost var part;
      ghost var before := log;
      windows, log, part := SendBlockInteractive(cfg, m, image, b, replies, windows, log);
      BlocksSentOn(cfg, m, image, before, cuts, b, part);
      cuts := cuts + [|log|];
    }
    ghost var closing, was := Tx(Closing, 0, 0, []), log;
    log := Emit(cfg, m, image, log, closing, FinP);
    ListenedOn(was, log, replies, windows);
    var reply;
    reply, log := Listen(cfg, m, image, log, Tx(AwaitingFin, 0, 0, []), replies, windows);
    BlocksSentBehind(cfg, m, image, was, cuts, NBlocks(m), [Out(FinP), In(reply)]);
    assert log == was + [Out(FinP), In(reply)];
    ok := !(reply.Some? && reply.value.FinAckP? && reply.value.status != 0);
    assert At(cfg, m, image, log, Tx(Returned(ok), 0, 0, []));
  }

  lemma NoReplies(replies: nat -> Option<Packet>)
    ensures Listened([], replies, 0)
  {
  }

  /** So no chunk of the image is left out. */
  lemma EveryChunkIsSent(cfg: Config, m: Meta, image: seq<byte>, log: seq<Event>, cuts: seq<nat>, c: nat)
    requires Conforming(m) && BlocksSent(cfg, m, image, log, cuts, NBlocks(m)) && cfg.maxRounds > 0 && c < NChunks(m)
    ensures Out(DataP(FrameId(c, false), ChunkAt(m, image, c))) in log
  {
    hide Conforming, NChunks, NBlocks, BlockK, ChunkAt, EndsAgreed, EndsSpent, EndsUnanswered;
    var b := BlockOfChunk(m, c);
    assert BlockSentAt(cfg, m, image, log, cuts, b);
    var part, pass := log[cuts[b]..cuts[b + 1]], Pass(m, image, BlockChunks(m, b));
    var i := c - b * m.block;
    assert pass[i] == Out(DataP(FrameId(c, false), ChunkAt(m, image, c)));
    assert part[i] == pass[i] && log[cuts[b] + i] == part[i];
  }

  // ----- the loops among the rest of the system

  /** The sender does something, or the channel does. */
  datatype Move = Acts(e: Event) | Loses | Hears

  function SenderLog(moves: seq<Move>): seq<Event> {
    if |moves| == 0 then []
    else SenderLog(moves[..|moves| - 1]) + if moves[|moves| - 1].Acts? then [moves[|moves| - 1].e] else []
  }

  lemma SenderLogOn(moves: seq<Move>)
    requires |moves| > 0
    ensures var before, last := moves[..|moves| - 1], moves[|moves| - 1];
      SenderLog(moves) == if last.Acts? then SenderLog(before) + [last.e] else SenderLog(before)
  {
    assert SenderLog(moves[..|moves| - 1]) + [] == SenderLog(moves[..|moves| - 1]);
  }

  /** The system after one move. */
  ghost function Moved(cfg: Config, m: Meta, s: Sys, mv: Move): Sys {
    match mv
    case Acts(Out(p)) => s.(tx := Sent(cfg, m, s.tx), queue := s.queue + [p])
    case Acts(In(reply)) =>
      s.(tx := Replied(cfg, m, s.tx, reply),
         agreed := if Matches(s.tx, reply) && reply.value.enc == Stat.COMPLETE then s.agreed + {s.tx.b} else s.agreed)
    case Loses => if |s.queue| > 0 then s.(queue := s.queue[1..]) else s
    case Hears =>
      if |s.queue| == 0 then s
      else
        var (rx, answer) := OnPacket(s.rx, s.queue[0]);
        s.(queue := s.queue[1..], rx := rx, air := if answer.Some? then s.air + {answer.value} else s.air)
  }

  ghost function Played(cfg: Config, m: Meta, memory: seq<byte>, moves: seq<Move>): Sys {
    if |moves| == 0 then Init(m, memory)
    else Moved(cfg, m, Played(cfg, m, memory, moves[..|moves| - 1]), moves[|moves| - 1])
  }

  /** What the channel can do: only packets in flight are lost or heard, and only what was said comes back. */
  ghost predicate Carried(cfg: Config, m: Meta, memory: seq<byte>, moves: seq<Move>) {
    |moves| > 0 ==>
      && Carried(cfg, m, memory, moves[..|moves| - 1])
      && var s := Played(cfg, m, memory, moves[..|moves| - 1]);
         match moves[|moves| - 1]
         case Acts(Out(_)) => true
         case Acts(In(reply)) => reply.Some? ==> reply.value in s.air
         case _ => |s.queue| > 0
  }

  /** The loops' path is the sender's part of what is played, and every move a step of the system. */
  lemma {:induction false} PlayedFollows(cfg: Config, m: Meta, image: seq<byte>, memory: seq<byte>, moves: seq<Move>)
    requires Carried(cfg, m, memory, moves) && Walk(cfg, m, image, SenderLog(moves)).Some?
    ensures Played(cfg, m, memory, moves).tx == Walk(cfg, m, image, SenderLog(moves)).value
    ensures |moves| > 0 ==>
              Next(cfg, m, image, Played(cfg, m, memory, moves[..|moves| - 1]), Played(cfg, m, memory, moves))
  {
    hide OnPacket, Sent, Replied, Sends, Step, Moved, Next;
    if |moves| > 0 {
      var before, last := moves[..|moves| - 1], moves[|moves| - 1];
      SenderLogOn(moves);
      if last.Acts? {
        WalkOn(cfg, m, image, SenderLog(before), last.e);
      }
      PlayedFollows(cfg, m, image, memory, before);
      MoveIsStep(cfg, m, image, Played(cfg, m, memory, before), last);
    }
  }

  lemma MoveIsStep(cfg: Config, m: Meta, image: seq<byte>, s: Sys, mv: Move)
    requires match mv
             case Acts(e) =>
               Step(cfg, m, image, s.tx, e).Some? && (e.In? && e.reply.Some? ==> e.reply.value in s.air)
             case _ => |s.queue| > 0
    ensures Next(cfg, m, image, s, Moved(cfg, m, s, mv))
    ensures mv.Acts? ==> Step(cfg, m, image, s.tx, mv.e) == Some(Moved(cfg, m, s, mv).tx)
    ensures !mv.Acts? ==> Moved(cfg, m, s, mv).tx == s.tx
  {
    hide OnPacket, Sent, Replied, Sends;
    var n := Moved(cfg, m, s, mv);
    match mv
    case Acts(Out(p)) => assert SendStep(cfg, m, image, s, n);
    case Acts(In(reply)) => assert ReplyStep(cfg, m, s, n, reply);
    case Loses => assert LoseStep(s, n);
    case Hears => assert HearStep(s, n);
  }

  /**
    Whatever the channel does in between, as long as it only brings the sender what the receiver has said, the
    path of the sender's loops is the sender's part of a run of the system.
  */
  lemma LoopsRun(cfg: Config, m: Meta, image: seq<byte>, memory: seq<byte>, moves: seq<Move>, tx: Tx) returns (run: seq<Sys>)
    requires Carried(cfg, m, memory, moves) && At(cfg, m, image, SenderLog(moves), tx)
    ensures Run(cfg, m, image, memory, run) && |run| == |moves| + 1 && run[|moves|].tx == tx
  {
    hide Walk, Next, Played, Carried;
    run := seq(|moves| + 1, i requires 0 <= i <= |moves| => Played(cfg, m, memory, moves[..i]));
    assert moves[..|moves|] == moves;
    assert run[0] == Init(m, memory) by {
      NothingPlayed(cfg, m, memory);
      assert moves[..0] == [];
    }
    forall i | 0 <= i < |moves| ensures Next(cfg, m, image, run[i], run[i + 1]) {
      PrefixCarried(cfg, m, image, memory, moves, i + 1);
      PlayedFollows(cfg, m, image, memory, moves[..i + 1]);
      assert moves[..i + 1][..i] == moves[..i];
    }
    PlayedFollows(cfg, m, image, memory, moves);
  }

  lemma NothingPlayed(cfg: Config, m: Meta, memory: seq<byte>)
    ensures Played(cfg, m, memory, []) == Init(m, memory)
  {
  }

  lemma {:induction false} PrefixCarried(cfg: Config, m: Meta, image: seq<byte>, memory: seq<byte>, moves: seq<Move>, i: nat)
    requires i <= |moves| && Carried(cfg, m, memory, moves) && Walk(cfg, m, image, SenderLog(moves)).Some?
    ensures Carried(cfg, m, memory, moves[..i]) && Walk(cfg, m, image, SenderLog(moves[..i])).Some?
    decreases |moves|
  {
    hide Step, Played, SenderLog;
    if i < |moves| {
      var before, last := moves[..|moves| - 1], moves[|moves| - 1];
      SenderLogOn(moves);
      if last.Acts? {
        WalkOn(cfg, m, image, SenderLog(before), last.e);
      }
      PrefixCarried(cfg, m, image, memory, before, i);
      assert before[..i] == moves[..i];
    } else {
      assert moves[..i] == moves;
    }
  }
}
