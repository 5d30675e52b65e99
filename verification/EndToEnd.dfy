/** One image through the air: the sender's loop, a lossy channel, and the receiver's loop. */
module EndToEnd {
  import opened Bytes
  import opened Frames
  import opened Tables
  import opened Sender
  import opened Receiver
  import opened Session
  import B = BroadcastProof

  /** What the receiver's listening windows bring when the channel treats the packets so. */
  function Through(sent: seq<Packet>, fates: seq<B.Fate>): (events: seq<Event>)
    decreases |fates|
  {
    if |fates| == 0 then []
    else if fates[0] == B.Quiet then [Silent] + Through(sent, fates[1..])
    else if |sent| == 0 then Through(sent, fates[1..])
    else (if fates[0] == B.Delivered then [Heard(sent[0])] else []) + Through(sent[1..], fates[1..])
  }

  lemma {:induction false} AfterFirst(rx: Rx, events: seq<Event>)
    requires |events| > 0
    ensures After(rx, events)
            == After(match events[0] case Silent => OnSilence(rx) case Heard(p) => OnPacket(rx, p).0, events[1..])
  {
    hide OnPacket, OnSilence;
    var n := |events| - 1;
    if n > 0 {
      AfterFirst(rx, events[..n]);
      assert events[..n][1..] == events[1..][..n - 1];
    } else {
      assert events[..0] == [] && events[1..] == [];
    }
  }

  /** Listening to the channel is working through those windows. */
  lemma {:induction false} ListenIsAfter(rx: Rx, sent: seq<Packet>, fates: seq<B.Fate>)
    ensures B.Listen(rx, sent, fates) == After(rx, Through(sent, fates))
    decreases |fates|
  {
    hide OnPacket, OnSilence;
    if |fates| > 0 {
      var events := Through(sent, fates);
      if fates[0] == B.Quiet {
        ListenIsAfter(OnSilence(rx), sent, fates[1..]);
        AfterFirst(rx, events);
        assert events[1..] == Through(sent, fates[1..]);
      } else if |sent| == 0 {
        ListenIsAfter(rx, sent, fates[1..]);
      } else if fates[0] == B.Delivered {
        ListenIsAfter(OnPacket(rx, sent[0]).0, sent[1..], fates[1..]);
        AfterFirst(rx, events);
        assert events[1..] == Through(sent[1..], fates[1..]);
      } else {
        ListenIsAfter(rx, sent[1..], fates[1..]);
        assert events == Through(sent[1..], fates[1..]);
      }
    }
  }

  /** Nothing reaches the receiver that was not sent, and every packet sent is well shaped. */
  lemma {:induction false} ThroughPlausible(m: Meta, image: seq<byte>, sent: seq<Packet>, fates: seq<B.Fate>, floor: nat)
    requires B.Airs(m, image, sent, floor)
    ensures forall i :: 0 <= i < |Through(sent, fates)| && Through(sent, fates)[i].Heard? ==>
              Plausible(m, Through(sent, fates)[i].p)
    decreases |fates|
  {
    hide Conforming, TotalFrames, Ordinal, Exists;
    if |fates| > 0 {
      if fates[0] == B.Quiet || |sent| == 0 {
        ThroughPlausible(m, image, sent, fates[1..], floor);
      } else {
        var next := match sent[0]
          case DataP(id, _) => Ordinal(m, id.seqNo, id.parity) + 1
          case FinP => B.Max(floor, TotalFrames(m))
          case _ => floor;
        ThroughPlausible(m, image, sent[1..], fates[1..], next);
      }
    }
  }

  /**
    The sender's broadcast loop feeding the receiver's loop through any channel that lets a META and then k
    frames of every block pass: the receiver's object ends COMPLETE with the sender's image in its store.
  */
  method Transfer(g: GfTables, m: Meta, image: seq<byte>, blockbuf: array<byte>, paritybuf: array<byte>,
                  memory: seq<byte>, fates: seq<B.Fate>) returns (rx: ImageReceiver)
    requires g.Valid() && blockbuf != paritybuf && {blockbuf, paritybuf} !! {g.exp, g.log}
    requires Conforming(m) && m.nParity > 0 && |image| == m.imgLen
    requires BlockK(m, 0) * m.chunk <= blockbuf.Length && m.nParity * m.chunk <= paritybuf.Length
    requires |memory| >= SessionScratch(BlockK(m, 0), m.nParity, m.chunk)
    requires forall b :: 0 <= b < NBlocks(m) ==> B.WillHear(m, Broadcast(m, image), fates, b)
    modifies g, g.exp, g.log, blockbuf, paritybuf
    ensures rx.outcome == Complete && rx.store == image
  {
    hide *;
    var rc, sent := SendBroadcast(g, m, image, blockbuf, paritybuf);
    B.BroadcastAirs(m, image);
    ThroughPlausible(m, image, sent, fates, 0);
    B.BroadcastDelivers(m, image, memory, fates);
    ListenIsAfter(Start(true, memory), sent, fates);
    rx := new ImageReceiver(true, memory);
    MetNothing(rx, m);
    var said := rx.ReceiveImage(m, Through(sent, fates));
    SeenStore(rx, image);
  }

  lemma MetNothing(rx: ImageReceiver, m: Meta)
    requires rx.Valid() && exists memory :: rx.View() == Start(true, memory)
    ensures rx.InStep(m)
  {
  }

  lemma SeenStore(rx: ImageReceiver, image: seq<byte>)
    requires B.Finished(rx.View(), image)
    ensures rx.outcome == Complete && rx.store == image
  {
  }
}
