/** What the sender makes of a reply: an accepted STAT is exactly what the receiver lacks. */
module InteractiveReply {
  import opened Wrappers
  import opened Bytes
  import opened Frames
  import opened Sender
  import opened Receiver
  import opened Reception
  import opened Accounting
  import opened Safety
  import opened Interactive
  import opened InteractiveInv
  import opened InteractiveSend
  import Stat

  // ----- the receiver's list of missing chunks

  predicate Listed(rx: Rx, n: nat, c: nat) {
    Base(rx) <= c < Base(rx) + n && !(c - Base(rx) < |rx.present| && rx.present[c - Base(rx)])
  }

  lemma {:induction false} MissingExact(rx: Rx, n: nat)
    ensures Stat.IsReport(MissingUpTo(rx, n), Base(rx), n)
    ensures forall c: nat :: c in MissingUpTo(rx, n) <==> Listed(rx, n, c)
  {
    hide Base;
    if n > 0 {
      MissingExact(rx, n - 1);
    }
  }

  lemma MissingIsLacking(rx: Rx)
    requires BlockK(rx.meta, rx.cur) <= |rx.present|
    ensures forall c: nat :: c in MissingUpTo(rx, BlockK(rx.meta, rx.cur)) <==> Lacks(rx, c)
    ensures MissingUpTo(rx, BlockK(rx.meta, rx.cur)) == [] <==> AllPresent(rx.present, BlockK(rx.meta, rx.cur))
  {
    hide BlockK, Base, MissingUpTo;
    var k := BlockK(rx.meta, rx.cur);
    var missing := MissingUpTo(rx, k);
    MissingExact(rx, k);
    forall c: nat ensures c in missing <==> Lacks(rx, c) {
      assert c in missing <==> Listed(rx, k, c);
    }
    if missing == [] {
      forall i | 0 <= i < k ensures rx.present[i] {
        assert Lacks(rx, Base(rx) + i) ==> Base(rx) + i in missing;
      }
    }
    if |missing| > 0 {
      assert missing[0] in missing;
      assert Lacks(rx, missing[0]);
    }
  }

  lemma {:induction false} KeepAll(out: seq<nat>, lo: nat, hi: nat)
    requires forall i :: 0 <= i < |out| ==> lo <= out[i] < hi
    ensures Keep(out, lo, hi) == out
  {
    if |out| > 0 {
      KeepAll(out[..|out| - 1], lo, hi);
      assert out == out[..|out| - 1] + [out[|out| - 1]];
    }
  }

  /** Whatever a STAT says, the sender takes up what it names within the block, and nothing else. */
  lemma AcceptedIsWithin(m: Meta, b: nat, enc: nat, body: seq<byte>, c: nat)
    ensures var all := Stat.DecodeBody(enc, body, b * m.block, 128);
      c in Accepted(m, b, enc, body) <==>
        all.Some? && c in all.value && b * m.block <= c < b * m.block + BlockK(m, b)
  {
    hide BlockK;
    var all := Stat.DecodeBody(enc, body, b * m.block, 128);
    if all.Some? {
      KeepsWithin(all.value, b * m.block, b * m.block + BlockK(m, b), c);
    }
  }

  lemma {:induction false} KeepsWithin(out: seq<nat>, lo: nat, hi: nat, c: nat)
    ensures c in Keep(out, lo, hi) <==> c in out && lo <= c < hi
  {
    if |out| > 0 {
      KeepsWithin(out[..|out| - 1], lo, hi, c);
      assert out == out[..|out| - 1] + [out[|out| - 1]];
    }
  }

  /** Decoding the body of a report gives the report back. */
  lemma ReportAccepted(m: Meta, b: nat, round: nat, missing: seq<nat>, base: nat, k: nat)
    requires Stat.IsReport(missing, base, k)
    requires Conforming(m) && b < NBlocks(m) && base == b * m.block && k == BlockK(m, b)
    ensures var r := Report(b, round, missing, base);
      && r.Some? && r.value.StatP?
      && Accepted(m, b, r.value.enc, r.value.body) == missing
      && (r.value.enc == Stat.COMPLETE <==> missing == [])
  {
    hide Conforming, NChunks, NBlocks, BlockK, Stat.ChooseEnc, Stat.EncodeBody, Stat.DecodeBody, Keep;
    BlockKAt(m, b);
    ConformingBounds(m);
    ReportShort(missing, base, k);
    Stat.StatRoundTrip(missing, base, k, TODO);
    Stat.ChosenIsShortest(missing, base, k);
    KeepAll(missing, base, base + k);
  }

  lemma ReportShort(missing: seq<nat>, base: nat, k: nat)
    requires Stat.IsReport(missing, base, k)
    ensures |missing| <= k
  {
    if |missing| > 0 {
      Spread(missing, base, k, |missing| - 1);
    }
  }

  lemma {:induction false} Spread(missing: seq<nat>, base: nat, k: nat, i: nat)
    requires Stat.IsReport(missing, base, k) && i < |missing|
    ensures missing[i] >= base + i
  {
    if i > 0 {
      Spread(missing, base, k, i - 1);
    }
  }

  /**
    An accepted STAT tells the sender exactly what the receiver lacks at that moment, however often it was
    lost, delayed or repeated; nothing still in flight can change that, and the list only shrinks.
  */
  lemma AcceptedStatIsExact(m: Meta, image: seq<byte>, s: Sys, p: Packet)
    requires Inv(m, image, s) && p in s.air && Matches(s.tx, Some(p))
    ensures Settled(m, s.tx, s.rx, s.queue)
    ensures Accepted(m, s.tx.b, p.enc, p.body) == MissingUpTo(s.rx, BlockK(m, s.tx.b))
    ensures IsLacking(s.rx, Accepted(m, s.tx.b, p.enc, p.body))
    ensures forall c: nat :: c in Accepted(m, s.tx.b, p.enc, p.body) ==> c in s.tx.todo
    ensures p.enc == Stat.COMPLETE <==> AllPresent(s.rx.present, BlockK(m, s.tx.b))
    ensures p.enc == Stat.COMPLETE <==> Accepted(m, s.tx.b, p.enc, p.body) == []
    ensures Stat.IsReport(MissingUpTo(s.rx, BlockK(m, s.tx.b)), s.tx.b * m.block, BlockK(m, s.tx.b))
  {
    hide Conforming, NBlocks, BlockK, QueueInv, Settled, MissingUpTo, Report, Accepted, Lacks, Stat.IsReport, AllPresent;
    assert SaidBy(m, image, s.tx, s.rx, s.queue, p);
    RxActive(s.rx, m, image, s.agreed);
    SettledIs(m, s.tx, s.rx, s.queue);
    RxRoom(s.rx, m, image, s.agreed);
    MissingExact(s.rx, BlockK(m, s.tx.b));
    MissingIsLacking(s.rx);
    ReportAccepted(m, s.tx.b, s.tx.round, MissingUpTo(s.rx, BlockK(m, s.tx.b)), s.tx.b * m.block,
                   BlockK(m, s.tx.b));
  }

  lemma SettledIs(m: Meta, tx: Tx, rx: Rx, q: seq<Packet>)
    ensures Settled(m, tx, rx, q) ==> Active(rx) && rx.cur == tx.b
  {
  }

  lemma RxRoom(rx: Rx, m: Meta, image: seq<byte>, agreed: set<nat>)
    requires RxInv(rx, m, image, agreed)
    ensures Active(rx) ==> rx.meta == m && rx.cur < NBlocks(m) && BlockK(m, rx.cur) <= |rx.present|
    ensures Active(rx) ==> Base(rx) == rx.cur * m.block
  {
    hide Conforming, NBlocks, BlockK, NChunks, Tracks, BufferGenuine, StoredAsHeard, Below, AllHeld;
    if Active(rx) {
      var got :| Accounts(rx, m, image, agreed, got);
      InTransferBounds(rx, m);
    }
  }

  // ----- the step

  /** The next round of repairs: everything on the new list is lacking, nothing else is in flight. */
  lemma NextRoundQueue(m: Meta, image: seq<byte>, tx: Tx, tx': Tx, rx: Rx, q: seq<Packet>)
    requires tx.phase.Awaiting? && tx' == Tx(Sending(0), tx.b, tx.round + 1, tx'.todo)
    requires QueueInv(m, image, tx, rx, q) && Settled(m, tx, rx, q)
    ensures QueueInv(m, image, tx', rx, q)
  {
    hide NBlocks, BlockK, OnAir, Lacks;
    forall i | 0 <= i < |q| ensures Queued(m, image, tx', rx, q[i]) {
      assert Queued(m, image, tx, rx, q[i]);
    }
    forall i, j | 0 <= i < j < |q| ensures Behind(m, tx', q[i], q[j]) {
      assert Behind(m, tx, q[i], q[j]);
    }
  }

  lemma NextRoundAir(m: Meta, image: seq<byte>, tx: Tx, tx': Tx, rx: Rx, q: seq<Packet>, air: set<Packet>)
    requires AirInv(m, image, tx, rx, q, air)
    requires tx.phase.Awaiting? && (tx' == Tx(Sending(0), tx.b, tx.round + 1, tx'.todo))
    ensures AirInv(m, image, tx', rx, q, air)
  {
    hide Answer, Settled;
    forall p | p in air ensures SaidBy(m, image, tx', rx, q, p) {
      assert SaidBy(m, image, tx, rx, q, p);
    }
  }

  /** The list is what the receiver lacks. */
  ghost predicate IsLacking(rx: Rx, todo: seq<nat>) {
    forall c: nat :: c in todo <==> Lacks(rx, c)
  }

  lemma NextRoundTx(m: Meta, tx: Tx, tx': Tx, rx: Rx)
    requires tx' == Tx(Sending(0), tx.b, tx.round + 1, tx'.todo) && Stat.IsReport(tx'.todo, tx.b * m.block, BlockK(m, tx.b))
    requires tx.phase.Awaiting? && Active(rx) && rx.cur == tx.b && |tx'.todo| > 0 && IsLacking(rx, tx'.todo)
    requires TxInv(m, tx, rx)
    ensures TxInv(m, tx', rx)
  {
    hide NBlocks, BlockK, Stat.IsReport, Lacks;
    assert forall t :: 0 <= t < |tx'.todo| ==> tx'.todo[t] in tx'.todo;
  }

  lemma Agree(rx: Rx, m: Meta, image: seq<byte>, agreed: set<nat>)
    requires RxInv(rx, m, image, agreed) && Active(rx) && AllPresent(rx.present, BlockK(m, rx.cur))
    ensures RxInv(rx, m, image, agreed + {rx.cur})
  {
    hide Known, BlockK, AllPresent, BlockGot;
    var got :| Accounts(rx, m, image, agreed, got);
    forall b | b in agreed + {rx.cur} ensures HeldBlock(rx, m, got, b) {
    }
    assert Accounts(rx, m, image, agreed + {rx.cur}, got);
  }

  /** The matching STAT has come. */
  lemma StatKeepsInv(cfg: Config, m: Meta, image: seq<byte>, s: Sys, n: Sys, p: Packet)
    requires Inv(m, image, s) && ReplyStep(cfg, m, s, n, Some(p)) && Matches(s.tx, Some(p))
    ensures Inv(m, image, n)
  {
    hide Conforming, NBlocks, BlockK, QueueInv, AirInv, RxInv, TxInv, Settled, EnterTx, Onward, StartsOver, Accepted, Lacks,
         AllPresent, Stat.IsReport;
    RxActive(s.rx, m, image, s.agreed);
    AcceptedStatIsExact(m, image, s, p);
    SettledIs(m, s.tx, s.rx, s.queue);
    if p.enc == Stat.COMPLETE {
      Agree(s.rx, m, image, s.agreed);
    }
    var todo := Accepted(m, s.tx.b, p.enc, p.body);
    TxHere(m, s.tx, s.rx);
    if todo == [] || s.tx.round + 1 >= cfg.maxRounds {
      EnterStartsOver(cfg, m, s.tx, s.tx.b + 1);
      StartOver(m, image, s.tx, n.tx, s.rx, n.queue, s.air);
    } else {
      NextRoundQueue(m, image, s.tx, n.tx, s.rx, s.queue);
      NextRoundAir(m, image, s.tx, n.tx, s.rx, s.queue, s.air);
      NextRoundTx(m, s.tx, n.tx, s.rx);
    }
  }

  lemma TxHere(m: Meta, tx: Tx, rx: Rx)
    requires TxInv(m, tx, rx)
    ensures Here(tx) ==> tx.b < NBlocks(m)
    ensures Active(rx) ==> rx.cur <= TxRank(m, tx)
  {
    hide NBlocks, BlockK, Stat.IsReport, NeedsListed, RestLacking;
  }

  /** Any other end of the listening window after an EOB. */
  lemma RetryKeepsInv(cfg: Config, m: Meta, image: seq<byte>, s: Sys, n: Sys, reply: Option<Packet>)
    requires Inv(m, image, s) && ReplyStep(cfg, m, s, n, reply) && !Matches(s.tx, reply) && s.tx.phase.Awaiting?
    ensures Inv(m, image, n)
  {
    hide Conforming, NBlocks, BlockK, QueueInv, AirInv, RxInv, EnterTx, Onward, StartsOver, Lacks, Stat.IsReport;
    RxActive(s.rx, m, image, s.agreed);
    if s.tx.phase.retry + 1 < cfg.eobRetry {
      AskAgain(m, image, s.tx, n.tx, s.rx, s.queue, s.air);
    } else {
      EnterStartsOver(cfg, m, s.tx, s.tx.b + 1);
      StartOver(m, image, s.tx, n.tx, s.rx, s.queue, s.air);
    }
  }

  lemma AskAgain(m: Meta, image: seq<byte>, tx: Tx, tx': Tx, rx: Rx, q: seq<Packet>, air: set<Packet>)
    requires tx.phase.Awaiting? && tx' == tx.(phase := Asking(tx.phase.retry + 1))
    requires QueueInv(m, image, tx, rx, q) && AirInv(m, image, tx, rx, q, air)
    ensures QueueInv(m, image, tx', rx, q) && AirInv(m, image, tx', rx, q, air)
  {
    hide NBlocks, BlockK, OnAir, Answer, Lacks, Rank;
    forall i | 0 <= i < |q| ensures Queued(m, image, tx', rx, q[i]) {
      assert Queued(m, image, tx, rx, q[i]);
    }
    forall i, j | 0 <= i < j < |q| ensures Behind(m, tx', q[i], q[j]) {
      assert Behind(m, tx, q[i], q[j]);
    }
    forall p | p in air ensures SaidBy(m, image, tx', rx, q, p) {
      assert SaidBy(m, image, tx, rx, q, p);
    }
  }

  /** The listening window after the FIN. */
  lemma ReturnKeepsInv(cfg: Config, m: Meta, image: seq<byte>, s: Sys, n: Sys, reply: Option<Packet>)
    requires Inv(m, image, s) && ReplyStep(cfg, m, s, n, reply) && s.tx.phase.AwaitingFin?
    ensures Inv(m, image, n)
  {
    hide Conforming, NBlocks, BlockK, RxInv, OnAir, Answer, Lacks, Rank, Settled;
    forall i | 0 <= i < |s.queue| ensures Queued(m, image, n.tx, s.rx, s.queue[i]) {
      assert Queued(m, image, s.tx, s.rx, s.queue[i]);
    }
    forall i, j | 0 <= i < j < |s.queue| ensures Behind(m, n.tx, s.queue[i], s.queue[j]) {
      assert Behind(m, s.tx, s.queue[i], s.queue[j]);
    }
    forall p | p in s.air ensures SaidBy(m, image, n.tx, s.rx, s.queue, p) {
      assert SaidBy(m, image, s.tx, s.rx, s.queue, p);
    }
  }

  lemma ReplyKeepsInv(cfg: Config, m: Meta, image: seq<byte>, s: Sys, n: Sys, reply: Option<Packet>)
    requires Inv(m, image, s) && ReplyStep(cfg, m, s, n, reply)
    ensures Inv(m, image, n)
  {
    hide Inv;
    if Matches(s.tx, reply) {
      StatKeepsInv(cfg, m, image, s, n, reply.value);
    } else if s.tx.phase.Awaiting? {
      RetryKeepsInv(cfg, m, image, s, n, reply);
    } else {
      ReturnKeepsInv(cfg, m, image, s, n, reply);
    }
  }
}
