/** An image without a byte: no chunk, no block, only METAs and FINs, and the empty store is complete. */
module EmptyImage {
  import opened Bytes
  import opened Frames
  import opened Erasure
  import opened Sender
  import opened Receiver
  import B = BroadcastProof

  /** METAs of the transfer and FINs. */
  predicate Bare(m: Meta, sent: seq<Packet>) {
    forall i :: 0 <= i < |sent| ==> sent[i] == MetaP(m) || sent[i] == FinP
  }

  /** A FIN gets through to a receiver that has, or has not, a META. */
  ghost predicate FinHeard(sent: seq<Packet>, fates: seq<B.Fate>, on: bool)
    decreases |fates|
  {
    if |fates| == 0 then false
    else if fates[0] == B.Quiet || |sent| == 0 then FinHeard(sent, fates[1..], on)
    else if fates[0] == B.Lost then FinHeard(sent[1..], fates[1..], on)
    else (on && sent[0].FinP?) || FinHeard(sent[1..], fates[1..], on || sent[0].MetaP?)
  }

  /** A receiver of the transfer: nothing to have, and nothing missing. */
  ghost predicate Idle(rx: Rx, m: Meta) {
    && rx.haveMeta && rx.meta == m && rx.outcome == Listening && rx.cur == 0
    && rx.have == 0 && rx.total == 0 && rx.store == []
  }

  ghost predicate Done(rx: Rx) {
    rx.outcome == Complete && rx.have == rx.total == 0 && rx.store == []
  }

  lemma IdleHears(rx: Rx, m: Meta)
    requires Idle(rx, m) && Empty(m)
    ensures OnPacket(rx, MetaP(m)).0 == rx && OnSilence(rx) == rx && Done(OnPacket(rx, FinP).0)
  {
    EmptyShape(m);
    hide BlockK;
  }

  lemma BeginsIdle(rx: Rx, m: Meta)
    requires Empty(m) && rx.outcome == Listening && !rx.haveMeta
    ensures Idle(OnPacket(rx, MetaP(m)).0, m)
  {
    EmptyShape(m);
    hide NChunks, BlockK, SessionScratch, BufferRows;
  }

  lemma {:induction false} DoneStays(rx: Rx, sent: seq<Packet>, fates: seq<B.Fate>)
    requires Done(rx)
    ensures B.Listen(rx, sent, fates) == rx
    decreases |fates|
  {
    if |fates| > 0 {
      if fates[0] == B.Quiet || |sent| == 0 {
        DoneStays(rx, sent, fates[1..]);
      } else {
        DoneStays(rx, sent[1..], fates[1..]);
      }
    }
  }

  lemma {:induction false} IdleListens(rx: Rx, m: Meta, sent: seq<Packet>, fates: seq<B.Fate>)
    requires Idle(rx, m) && Empty(m) && Bare(m, sent)
    ensures var n := B.Listen(rx, sent, fates);
      if FinHeard(sent, fates, true) then Done(n) else n.outcome == Listening
    decreases |fates|
  {
    hide OnPacket;
    IdleHears(rx, m);
    if |fates| > 0 {
      if fates[0] == B.Quiet || |sent| == 0 {
        IdleListens(rx, m, sent, fates[1..]);
      } else if fates[0] == B.Delivered && sent[0].FinP? {
        DoneStays(OnPacket(rx, FinP).0, sent[1..], fates[1..]);
      } else {
        IdleListens(rx, m, sent[1..], fates[1..]);
      }
    }
  }

  /** Whatever is lost, the receiver completes the empty image exactly when a FIN reaches it after a META. */
  lemma {:induction false} EmptyImageCompletes(rx: Rx, m: Meta, sent: seq<Packet>, fates: seq<B.Fate>)
    requires Empty(m) && Bare(m, sent) && rx.outcome == Listening && !rx.haveMeta
    ensures var n := B.Listen(rx, sent, fates);
      if FinHeard(sent, fates, false) then Done(n) else n.outcome == Listening
    decreases |fates|
  {
    hide OnPacket, Begin;
    if |fates| > 0 {
      if fates[0] == B.Quiet || |sent| == 0 {
        EmptyImageCompletes(rx, m, sent, fates[1..]);
      } else if fates[0] == B.Delivered && sent[0].MetaP? {
        BeginsIdle(rx, m);
        IdleListens(OnPacket(rx, MetaP(m)).0, m, sent[1..], fates[1..]);
      } else {
        NothingYet(rx);
        EmptyImageCompletes(rx, m, sent[1..], fates[1..]);
      }
    }
  }

  lemma NothingYet(rx: Rx)
    requires rx.outcome == Listening && !rx.haveMeta
    ensures OnPacket(rx, FinP).0 == rx
  {
  }
}
