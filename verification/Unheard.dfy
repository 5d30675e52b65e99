/**
  What the early COMPLETE of a broadcast is worth.  The receiver finishes the block it is in without a
  look at blocks it has skipped: COMPLETE means the whole image if and only if some frame of every block
  was heard.
*/
module Unheard {
  import opened Bytes
  import opened Frames
  import opened Image
  import opened Sender
  import opened Receiver
  import opened Reception
  import opened Accounting
  import opened Safety
  import A = AnyLosses
  import B = BroadcastProof

  /**
    The blocks heard of so far.  Those behind the receiver are stored whole as long as none is counted
    lost; a block not heard of is not stored whole.
  */
  ghost predicate Charted(rx: Rx, m: Meta, image: seq<byte>, got: set<nat>, heard: set<nat>) {
    && Accounted(rx, m, image, got) && rx.broadcast && rx.lost <= rx.cur
    && (forall b :: b in heard ==> b <= rx.cur)
    && (if rx.cur in heard then rx.sawAny && Before(m, rx.cur) <= rx.maxOrdinal < TotalFrames(m)
        else rx.cur == 0 && rx.present == Nothing() && !rx.sawAny)
    && B.HeardUpTo(rx, m)
    && forall b :: 0 <= b < NBlocks(m) ==> BlockCharted(rx, m, got, heard, b)
  }

  ghost predicate BlockCharted(rx: Rx, m: Meta, got: set<nat>, heard: set<nat>, b: nat) {
    && (b !in heard ==> !BlockGot(m, got, b))
    && (b in heard && b < rx.cur && rx.lost == 0 ==> BlockGot(m, got, b))
  }

  /** Chunks of one block say nothing about another. */
  lemma OtherBlock(m: Meta, got: set<nat>, got': set<nat>, c: nat, b: nat)
    requires Conforming(m) && b < c < NBlocks(m) && AddedFrom(got, got', c * m.block)
    ensures BlockGot(m, got', b) <==> BlockGot(m, got, b)
  {
    hide Conforming, NChunks, NBlocks, BlockK;
    NextStart(m, b, c);
  }

  /** A block ahead of everything stored is not stored. */
  lemma BlockAhead(m: Meta, got: set<nat>, b: nat)
    requires Conforming(m) && b < NBlocks(m) && Below(got, b * m.block)
    ensures !BlockGot(m, got, b)
  {
    hide Conforming, NChunks, NBlocks, BlockK;
    BlockKAt(m, b);
    assert b * m.block !in got;
  }

  /** A block with nothing marked is not there. */
  lemma NothingIsNoBlock(rx: Rx, m: Meta)
    requires InTransfer(rx, m) && rx.present == Nothing()
    ensures !HasBlock(rx)
  {
    hide Conforming, NChunks, NBlocks, BlockK;
    InTransferBounds(rx, m);
    B.CountNothing(Slots(rx));
    assert !rx.present[0];
  }

  /** What Accounted says about where the receiver is, without what is in its memory. */
  lemma AccountedPlace(rx: Rx, m: Meta, image: seq<byte>, got: set<nat>)
    requires Accounted(rx, m, image, got)
    ensures InTransfer(rx, m) && |rx.present| == PRESENT && Below(got, rx.cur * m.block + BlockK(m, rx.cur))
    ensures rx.fecOk ==> Below(got, rx.cur * m.block)
  {
    hide Conforming, NChunks, NBlocks, BlockK, Tracks, BufferGenuine, StoredAsHeard;
    BlockCountedIsGot(rx, m, got);
  }

  /** After a change of block and before the frame is placed. */
  lemma ArriveCharts(rx: Rx, m: Meta, image: seq<byte>, got: set<nat>, heard: set<nat>, id: FrameId) returns (got': set<nat>)
    requires Charted(rx, m, image, got, heard) && Exists(m, id) && BlockNo(m, id) >= rx.cur
    requires rx.sawAny ==> rx.maxOrdinal < Ordinal(m, id.seqNo, id.parity)
    ensures var a := Arrive(rx, id);
      && Charted(a, m, image, got', heard + {BlockNo(m, id)})
      && a.maxOrdinal == Ordinal(m, id.seqNo, id.parity) && SameTransfer(rx, a)
  {
    hide Conforming, NChunks, NBlocks, BlockK, Accounted, Flush, BlockNo, SlotNo, Exists, Ordinal, BlockGot, HasBlock, Below, U16,
         Before, TotalFrames, AddedFrom;
    got' := ArriveAccounts(rx, m, image, got, id);
    AccountedTransfer(rx, m, image, got);
    B.FramePlace(m, id);
    var a, blk := Arrive(rx, id), BlockNo(m, id);
    AccountedPlace(rx, m, image, got);
    AccountedPlace(a, m, image, got');
    LostFits(rx, m);
    if blk == rx.cur {
      SameBlockCharts(rx, a, m, got, heard);
    } else {
      if rx.cur !in heard {
        NothingIsNoBlock(rx, m);
      }
      NewBlockCharts(rx, a, m, got, got', heard);
    }
  }

  lemma LostFits(rx: Rx, m: Meta)
    requires rx.lost <= rx.cur < NBlocks(m)
    ensures rx.lost < 0xFFFF && U16(rx.lost + 1) == rx.lost + 1
  {
    hide NChunks;
    U16Small(rx.lost + 1);
  }

  lemma SameBlockCharts(rx: Rx, a: Rx, m: Meta, got: set<nat>, heard: set<nat>)
    requires a.cur == rx.cur && a.lost == rx.lost && forall b :: 0 <= b < NBlocks(m) ==> BlockCharted(rx, m, got, heard, b)
    ensures forall b :: 0 <= b < NBlocks(m) ==> BlockCharted(a, m, got, heard + {rx.cur}, b)
  {
    hide NBlocks, BlockGot;
    forall b | 0 <= b < NBlocks(m) ensures BlockCharted(a, m, got, heard + {rx.cur}, b) {
      assert BlockCharted(rx, m, got, heard, b);
    }
  }

  lemma NewBlockCharts(rx: Rx, a: Rx, m: Meta, got: set<nat>, got': set<nat>, heard: set<nat>)
    requires Conforming(m) && rx.cur < a.cur < NBlocks(m) && AddedFrom(got, got', rx.cur * m.block)
    requires rx.lost <= rx.cur && a.lost == if HasBlock(rx) then rx.lost else rx.lost + 1
    requires BlockGot(m, got', rx.cur) <==> HasBlock(rx)
    requires rx.cur !in heard ==> !HasBlock(rx)
    requires Below(got', rx.cur * m.block + BlockK(m, rx.cur))
    requires forall b :: b in heard ==> b <= rx.cur
    requires forall b :: 0 <= b < NBlocks(m) ==> BlockCharted(rx, m, got, heard, b)
    ensures forall b :: 0 <= b < NBlocks(m) ==> BlockCharted(a, m, got', heard + {a.cur}, b)
  {
    hide Conforming, NChunks, NBlocks, BlockK, BlockGot, HasBlock, Below, AddedFrom;
    forall b | 0 <= b < NBlocks(m) ensures BlockCharted(a, m, got', heard + {a.cur}, b) {
      assert BlockCharted(rx, m, got, heard, b);
      if b < rx.cur {
        OtherBlock(m, got, got', rx.cur, b);
      } else if b > rx.cur {
        AheadOf(m, got', rx.cur, b);
      }
    }
  }

  lemma AheadOf(m: Meta, got: set<nat>, c: nat, b: nat)
    requires Conforming(m) && c < b < NBlocks(m) && Below(got, c * m.block + BlockK(m, c))
    ensures !BlockGot(m, got, b)
  {
    hide Conforming, NChunks, NBlocks, BlockK;
    NextStart(m, c, b);
    BlockAhead(m, got, b);
  }

  /** Placing a frame of the current block. */
  lemma PlaceCharts(a: Rx, m: Meta, image: seq<byte>, got: set<nat>, heard: set<nat>, id: FrameId) returns (got': set<nat>)
    requires Charted(a, m, image, got, heard) && Exists(m, id) && BlockNo(m, id) == a.cur && a.cur in heard
    requires a.maxOrdinal == Ordinal(m, id.seqNo, id.parity) && Placeable(a, id)
    ensures var p := Place(a, id, Payload(m, image, id));
      Charted(p, m, image, got', heard) && p.maxOrdinal == a.maxOrdinal && p.sawAny && p.cur == a.cur && SameTransfer(a, p)
  {
    hide Conforming, NChunks, NBlocks, BlockK, Accounted, BlockNo, SlotNo, Exists, Ordinal, BlockGot, Below, Before, TotalFrames, AddedFrom,
         Place, Payload, Placeable;
    got' := PlaceAccounts(a, m, image, got, id);
    AccountedTransfer(a, m, image, got);
    B.FramePlace(m, id);
    var p := Place(a, id, Payload(m, image, id));
    AccountedPlace(a, m, image, got);
    AccountedPlace(p, m, image, got');
    forall b | 0 <= b < NBlocks(m) ensures BlockCharted(p, m, got', heard, b) {
      assert BlockCharted(a, m, got, heard, b);
      if b < a.cur {
        OtherBlock(m, got, got', a.cur, b);
      } else if b > a.cur {
        AheadOf(m, got', a.cur, b);
      }
    }
  }

  /** Every block of the transfer is in the set. */
  ghost predicate AllHeard(m: Meta, heard: set<nat>) {
    forall b :: 0 <= b < NBlocks(m) ==> b in heard
  }

  /** All chunks is all blocks. */
  lemma WholeIsAllBlocks(m: Meta, got: set<nat>)
    requires Conforming(m) && Below(got, NChunks(m))
    ensures got == UpTo(NChunks(m)) <==> forall b :: 0 <= b < NBlocks(m) ==> BlockGot(m, got, b)
  {
    hide Conforming, NChunks, NBlocks, BlockK;
    if got == UpTo(NChunks(m)) {
      forall b | 0 <= b < NBlocks(m) ensures BlockGot(m, got, b) {
        BlockKAt(m, b);
      }
    }
    if forall b :: 0 <= b < NBlocks(m) ==> BlockGot(m, got, b) {
      forall c | 0 <= c < NChunks(m) ensures c in got {
        var b := BlockOfChunk(m, c);
        assert BlockGot(m, got, b);
      }
      A.AllThere(got, NChunks(m));
    }
  }

  lemma ClosedCount(n: Rx, m: Meta, image: seq<byte>, got: set<nat>)
    requires Known(n, m, image, got) && n.outcome != Listening
    ensures Conforming(m) && Below(got, NChunks(m))
    ensures n.have == n.total <==> got == UpTo(NChunks(m))
  {
    hide NChunks, NBlocks, BlockK, BufferGenuine, StoredAsHeard, UpTo, Conforming;
    NotListening(n, m, image, got);
    InRange(n.store, m, image, got);
  }

  /** The early verdict: COMPLETE is the whole image exactly when every block has been heard of. */
  lemma JudgeVerdict(p: Rx, m: Meta, image: seq<byte>, got: set<nat>, heard: set<nat>)
    requires Charted(p, m, image, got, heard) && p.cur in heard
    ensures var n := Judge(p);
      && (n == p || n.outcome != Listening)
      && (n.outcome == Complete ==> p.cur + 1 == NBlocks(m) && (n.have == n.total <==> AllHeard(m, heard)))
  {
    hide Conforming, NChunks, NBlocks, BlockK, Accounted, BlockGot, Below, Before, TotalFrames, AddedFrom, Judge, Known, HasBlock, UpTo;
    AccountedTransfer(p, m, image, got);
    LostFits(p, m);
    var got' := JudgeAccounts(p, m, image, got);
    var n := Judge(p);
    if n.outcome == Complete {
      ClosedCount(n, m, image, got');
      WholeIsAllBlocks(m, got');
      forall b | 0 <= b < NBlocks(m) ensures BlockGot(m, got', b) <==> b in heard {
        assert BlockCharted(p, m, got, heard, b);
        if b < p.cur {
          OtherBlock(m, got, got', p.cur, b);
        }
      }
    }
  }

  /** A FIN: COMPLETE only when every block has been heard of. */
  lemma FinVerdict(rx: Rx, m: Meta, image: seq<byte>, got: set<nat>, heard: set<nat>)
    requires Charted(rx, m, image, got, heard)
    ensures var n := OnPacket(rx, FinP).0;
      n.outcome != Listening && (n.outcome == Complete ==> n.have == n.total && AllHeard(m, heard))
  {
    hide Conforming, NChunks, NBlocks, BlockK, Accounted, BlockGot, Below, Before, TotalFrames, AddedFrom, OnPacket, HasBlock, UpTo, Tracks;
    var got' := FinAccounts(rx, m, image, got);
    AccountedTransfer(rx, m, image, got);
    AccountedPlace(rx, m, image, got);
    var n := OnPacket(rx, FinP).0;
    ClosedCount(n, m, image, got');
    if n.outcome == Complete {
      WholeIsAllBlocks(m, got');
      forall b | 0 <= b < NBlocks(m) ensures b in heard {
        assert BlockCharted(rx, m, got, heard, b) && BlockGot(m, got', b);
        if b < rx.cur {
          OtherBlock(m, got, got', rx.cur, b);
        } else if b > rx.cur {
          AheadOf(m, got', rx.cur, b);
        } else if b !in heard {
          NothingIsNoBlock(rx, m);
        }
      }
    }
  }

  /** One delivered frame. */
  lemma DataVerdict(rx: Rx, m: Meta, image: seq<byte>, got: set<nat>, heard: set<nat>, id: FrameId) returns (got': set<nat>)
    requires Charted(rx, m, image, got, heard) && Exists(m, id)
    requires if rx.sawAny then rx.maxOrdinal < Ordinal(m, id.seqNo, id.parity) else true
    ensures var n, heard' := OnData(rx, id, Payload(m, image, id)), heard + {BlockNo(m, id)};
      && (n.outcome == Listening ==> Charted(n, m, image, got', heard') && n.maxOrdinal == Ordinal(m, id.seqNo, id.parity))
      && (n.outcome == Complete ==>
            BlockNo(m, id) + 1 == NBlocks(m) && (n.have == n.total <==> AllHeard(m, heard')))
  {
    hide Conforming, NChunks, NBlocks, BlockK, Accounted, BlockNo, SlotNo, Exists, Ordinal, Before, Place, Payload, Placeable,
         Judge, Arrive, B.HeardUpTo, BlockCharted;
    NoWayBack(rx, m, image, got, heard, id);
    got' := ArriveCharts(rx, m, image, got, heard, id);
    var a, heard' := Arrive(rx, id), heard + {BlockNo(m, id)};
    AccountedTransfer(rx, m, image, got);
    ArrivesAt(rx, m, id);
    if Placeable(a, id) {
      got' := PlaceCharts(a, m, image, got', heard', id);
      JudgeVerdict(Place(a, id, Payload(m, image, id)), m, image, got', heard');
      StillListening(Place(a, id, Payload(m, image, id)), m, image, got');
    } else {
      StillListening(a, m, image, got');
    }
  }

  lemma StillListening(a: Rx, m: Meta, image: seq<byte>, got: set<nat>)
    requires Accounted(a, m, image, got)
    ensures a.outcome == Listening
  {
    AccountedTransfer(a, m, image, got);
  }

  lemma ArrivesAt(rx: Rx, m: Meta, id: FrameId)
    requires rx.meta == m
    ensures Arrive(rx, id).cur == BlockNo(m, id)
  {
    hide Flush, BlockNo, Ordinal;
  }

  /** A later frame is of this block or a later one. */
  lemma NoWayBack(rx: Rx, m: Meta, image: seq<byte>, got: set<nat>, heard: set<nat>, id: FrameId)
    requires Charted(rx, m, image, got, heard) && Exists(m, id)
    requires rx.sawAny ==> rx.maxOrdinal < Ordinal(m, id.seqNo, id.parity)
    ensures BlockNo(m, id) >= rx.cur
  {
    hide Conforming, NChunks, NBlocks, BlockK, Accounted, BlockNo, SlotNo, Exists, Ordinal, Before, B.HeardUpTo, BlockCharted;
    AccountedTransfer(rx, m, image, got);
    B.FramePlace(m, id);
    if BlockNo(m, id) < rx.cur {
      BeforeMonotone(m, BlockNo(m, id) + 1, rx.cur);
    }
  }

  // ----- the whole channel

  /** Some frame of block b has been, or will be, heard. */
  ghost predicate HeardOf(m: Meta, sent: seq<Packet>, fates: seq<B.Fate>, heard: set<nat>, b: nat) {
    b in heard || B.Coming(m, sent, fates, b, true) > 0
  }

  ghost predicate AllHeardOf(m: Meta, sent: seq<Packet>, fates: seq<B.Fate>, heard: set<nat>) {
    forall b :: 0 <= b < NBlocks(m) ==> HeardOf(m, sent, fates, heard, b)
  }

  /** Hearing a frame now and having heard it are the same. */
  lemma HeardNow(m: Meta, sent: seq<Packet>, fates: seq<B.Fate>, heard: set<nat>)
    requires |fates| > 0 && fates[0] == B.Delivered && |sent| > 0 && sent[0].DataP?
    ensures AllHeardOf(m, sent, fates, heard)
            <==> AllHeardOf(m, sent[1..], fates[1..], heard + {BlockNo(m, sent[0].id)})
  {
    hide NBlocks, BlockNo;
    forall b | 0 <= b < NBlocks(m)
      ensures HeardOf(m, sent, fates, heard, b) <==> HeardOf(m, sent[1..], fates[1..], heard + {BlockNo(m, sent[0].id)}, b)
    {
    }
  }

  /** Nothing else the channel does makes a difference. */
  lemma NotHeardNow(m: Meta, sent: seq<Packet>, fates: seq<B.Fate>, sent': seq<Packet>, heard: set<nat>)
    requires |fates| > 0 && sent' == if fates[0] == B.Quiet || |sent| == 0 then sent else sent[1..]
    requires fates[0] == B.Delivered && |sent| > 0 ==> !sent[0].DataP?
    ensures AllHeardOf(m, sent, fates, heard) <==> AllHeardOf(m, sent', fates[1..], heard)
  {
    hide NBlocks, BlockNo;
    forall b | 0 <= b < NBlocks(m)
      ensures HeardOf(m, sent, fates, heard, b) <==> HeardOf(m, sent', fates[1..], heard, b)
    {
    }
  }

  /** Behind the last block's first frames nothing of an earlier block comes. */
  lemma NothingLate(m: Meta, image: seq<byte>, sent: seq<Packet>, fates: seq<B.Fate>, heard: set<nat>, floor: nat)
    requires B.Airs(m, image, sent, floor) && NBlocks(m) > 0 && NBlocks(m) - 1 in heard
    requires Before(m, NBlocks(m) - 1) <= floor
    ensures AllHeardOf(m, sent, fates, heard) <==> AllHeard(m, heard)
  {
    hide NBlocks, Before, B.Airs, Conforming, B.Coming;
    forall b | 0 <= b < NBlocks(m) ensures HeardOf(m, sent, fates, heard, b) <==> b in heard {
      if b < NBlocks(m) - 1 {
        BeforeMonotone(m, b + 1, NBlocks(m) - 1);
        B.Grows(m, b);
        B.ComingBound(m, image, sent, fates, b, true, floor);
      }
    }
  }

  lemma {:induction false} StoppedListens(rx: Rx, sent: seq<Packet>, fates: seq<B.Fate>)
    requires rx.outcome != Listening
    ensures B.Listen(rx, sent, fates) == rx
    decreases |fates|
  {
    hide OnPacket;
    if |fates| > 0 {
      if fates[0] == B.Quiet || |sent| == 0 {
        StoppedListens(rx, sent, fates[1..]);
      } else {
        A.Stopped(rx, sent[0]);
        StoppedListens(rx, sent[1..], fates[1..]);
      }
    }
  }

  /** The verdict on the rest of a broadcast: n is where it leads. */
  ghost predicate Verdict(n: Rx, m: Meta, image: seq<byte>, all: bool) {
    && (n.outcome == Complete ==> (n.have == n.total <==> all))
    && (n.outcome == Listening && n.haveMeta ==> exists got, heard :: Charted(n, m, image, got, heard))
  }

  lemma {:induction false} ListenVerdict(rx: Rx, m: Meta, image: seq<byte>, got: set<nat>, heard: set<nat>, sent: seq<Packet>,
                                         fates: seq<B.Fate>, floor: nat)
    requires Charted(rx, m, image, got, heard) && B.Airs(m, image, sent, floor)
    requires rx.sawAny ==> rx.maxOrdinal < floor
    ensures Verdict(B.Listen(rx, sent, fates), m, image, AllHeardOf(m, sent, fates, heard))
    decreases |fates|
  {
    hide Conforming, TotalFrames, Before, Ordinal, Exists, BlockNo, Payload, OnData, Charted, StillRecoverable, AllHeardOf, Flush;
    ChartedMeta(rx, m, image, got, heard);
    if |fates| == 0 {
      assert Charted(rx, m, image, got, heard);
    } else if fates[0] == B.Quiet || |sent| == 0 {
      NotHeardNow(m, sent, fates, sent, heard);
      if fates[0] == B.Quiet && !StillRecoverable(rx) {
        StoppedListens(OnSilence(rx), sent, fates[1..]);
      } else {
        ListenVerdict(rx, m, image, got, heard, sent, fates[1..], floor);
      }
    } else if fates[0] == B.Delivered && sent[0].DataP? {
      HeardNow(m, sent, fates, heard);
      ListenData(rx, m, image, got, heard, sent, fates, floor);
    } else if fates[0] == B.Delivered && sent[0].FinP? {
      NotHeardNow(m, sent, fates, sent[1..], heard);
      FinVerdict(rx, m, image, got, heard);
      StoppedListens(OnPacket(rx, FinP).0, sent[1..], fates[1..]);
      HeardIsHeardOf(m, sent, fates, heard);
    } else {
      NotHeardNow(m, sent, fates, sent[1..], heard);
      if fates[0] == B.Delivered {
        B.OtherPacketsIgnored(rx, m, sent[0]);
      }
      var next := if sent[0].DataP? then Ordinal(m, sent[0].id.seqNo, sent[0].id.parity) + 1
                  else if sent[0].FinP? then B.Max(floor, TotalFrames(m)) else floor;
      ListenVerdict(rx, m, image, got, heard, sent[1..], fates[1..], next);
    }
  }

  lemma ChartedMeta(rx: Rx, m: Meta, image: seq<byte>, got: set<nat>, heard: set<nat>)
    requires Charted(rx, m, image, got, heard)
    ensures rx.meta == m && rx.haveMeta && rx.outcome == Listening && rx.broadcast && Conforming(m) && NBlocks(m) > 0
  {
    hide Conforming, NChunks, NBlocks, BlockK, Accounted, B.HeardUpTo, BlockCharted;
    AccountedTransfer(rx, m, image, got);
  }

  lemma HeardIsHeardOf(m: Meta, sent: seq<Packet>, fates: seq<B.Fate>, heard: set<nat>)
    ensures AllHeard(m, heard) ==> AllHeardOf(m, sent, fates, heard)
  {
    hide NBlocks, B.Coming;
  }

  lemma {:induction false} ListenData(rx: Rx, m: Meta, image: seq<byte>, got: set<nat>, heard: set<nat>, sent: seq<Packet>,
                                      fates: seq<B.Fate>, floor: nat)
    requires Charted(rx, m, image, got, heard) && B.Airs(m, image, sent, floor)
    requires rx.sawAny ==> rx.maxOrdinal < floor
    requires |fates| > 0 && fates[0] == B.Delivered && |sent| > 0 && sent[0].DataP?
    ensures Verdict(B.Listen(rx, sent, fates), m, image, AllHeardOf(m, sent[1..], fates[1..], heard + {BlockNo(m, sent[0].id)}))
    decreases |fates|, 0
  {
    hide Conforming, TotalFrames, Before, Ordinal, Exists, BlockNo, Payload, OnData, Charted, AllHeardOf, NBlocks;
    ChartedMeta(rx, m, image, got, heard);
    var id := sent[0].id;
    var got' := DataVerdict(rx, m, image, got, heard, id);
    var n, ord := OnData(rx, id, Payload(m, image, id)), Ordinal(m, id.seqNo, id.parity);
    if n.outcome == Listening {
      ListenVerdict(n, m, image, got', heard + {BlockNo(m, id)}, sent[1..], fates[1..], ord + 1);
    } else {
      StoppedListens(n, sent[1..], fates[1..]);
      if n.outcome == Complete {
        B.FramePlace(m, id);
        NothingLate(m, image, sent[1..], fates[1..], heard + {BlockNo(m, id)}, ord + 1);
      }
    }
  }

  /** Some frame of block b gets through after a META. */
  ghost predicate Reached(m: Meta, sent: seq<Packet>, fates: seq<B.Fate>, b: nat) {
    B.Coming(m, sent, fates, b, false) > 0
  }

  ghost predicate AllReached(m: Meta, sent: seq<Packet>, fates: seq<B.Fate>) {
    forall b :: 0 <= b < NBlocks(m) ==> Reached(m, sent, fates, b)
  }

  lemma NotReachedNow(m: Meta, sent: seq<Packet>, fates: seq<B.Fate>, sent': seq<Packet>)
    requires |fates| > 0 && sent' == if fates[0] == B.Quiet || |sent| == 0 then sent else sent[1..]
    requires fates[0] == B.Delivered && |sent| > 0 ==> !sent[0].MetaP?
    ensures AllReached(m, sent, fates) <==> AllReached(m, sent', fates[1..])
  {
    hide NBlocks, BlockNo;
    forall b | 0 <= b < NBlocks(m) ensures Reached(m, sent, fates, b) <==> Reached(m, sent', fates[1..], b) {
    }
  }

  lemma ReachedFromNow(m: Meta, sent: seq<Packet>, fates: seq<B.Fate>)
    requires |fates| > 0 && fates[0] == B.Delivered && |sent| > 0 && sent[0].MetaP?
    ensures AllReached(m, sent, fates) <==> AllHeardOf(m, sent[1..], fates[1..], {})
  {
    hide NBlocks, BlockNo;
    forall b | 0 <= b < NBlocks(m) ensures Reached(m, sent, fates, b) <==> HeardOf(m, sent[1..], fates[1..], {}, b) {
    }
  }

  lemma BeginCharts(rx: Rx, m: Meta, image: seq<byte>)
    requires Conforming(m) && |image| == m.imgLen && rx.outcome == Listening && rx.broadcast && rx.lost == 0
    ensures Charted(Begin(rx, m), m, image, {}, {})
  {
    hide Conforming, NChunks, NBlocks, BlockK, Accounted, SessionScratch, BufferRows;
    BeginAccounts(rx, m, image);
    var n := Begin(rx, m);
    forall b | 0 <= b < NBlocks(m) ensures BlockCharted(n, m, {}, {}, b) {
      BlockAhead(m, {}, b);
    }
  }

  /** From the moment the receiver is switched on. */
  lemma {:induction false} WaitVerdict(rx: Rx, m: Meta, image: seq<byte>, sent: seq<Packet>, fates: seq<B.Fate>, floor: nat)
    requires !rx.haveMeta && rx.outcome == Listening && rx.broadcast && rx.lost == 0
    requires |image| == m.imgLen && B.Airs(m, image, sent, floor)
    ensures Verdict(B.Listen(rx, sent, fates), m, image, AllReached(m, sent, fates))
    decreases |fates|
  {
    hide Conforming, TotalFrames, Before, Ordinal, Exists, BlockNo, Payload, OnData, Charted, AllHeardOf, AllReached, Begin, Flush,
         StillRecoverable;
    if |fates| == 0 {
    } else if fates[0] == B.Quiet || |sent| == 0 {
      NotReachedNow(m, sent, fates, sent);
      WaitVerdict(rx, m, image, sent, fates[1..], floor);
    } else if fates[0] == B.Delivered && sent[0].MetaP? {
      ReachedFromNow(m, sent, fates);
      BeginCharts(rx, m, image);
      FreshEars(rx, m);
      ListenVerdict(Begin(rx, m), m, image, {}, {}, sent[1..], fates[1..], floor);
    } else {
      NotReachedNow(m, sent, fates, sent[1..]);
      var next := if sent[0].DataP? then Ordinal(m, sent[0].id.seqNo, sent[0].id.parity) + 1
                  else if sent[0].FinP? then B.Max(floor, TotalFrames(m)) else floor;
      WaitVerdict(rx, m, image, sent[1..], fates[1..], next);
    }
  }

  lemma FreshEars(rx: Rx, m: Meta)
    ensures !Begin(rx, m).sawAny
  {
    hide NChunks, BlockK, SessionScratch, BufferRows;
  }

  /**
    When a broadcast ends COMPLETE, the image is whole if and only if some frame of every block got through
    after a META; otherwise a chunk of the store is blank.
  */
  lemma CompleteIsWholeWhenAllReached(m: Meta, image: seq<byte>, memory: seq<byte>, fates: seq<B.Fate>)
    requires Conforming(m) && |image| == m.imgLen
    requires B.Listen(Start(true, memory), Broadcast(m, image), fates).outcome == Complete
    ensures var n := B.Listen(Start(true, memory), Broadcast(m, image), fates);
      && (n.have == n.total
          <==> forall b :: 0 <= b < NBlocks(m) ==> B.Coming(m, Broadcast(m, image), fates, b, false) > 0)
      && (n.have == n.total ==> n.store == image)
      && (n.have != n.total ==> exists c :: 0 <= c < NChunks(m) && Blank(n.store, m, c))
  {
    hide Conforming, Broadcast, B.Listen, NChunks, NBlocks, B.Coming, Blank, B.Airs;
    B.BroadcastAirs(m, image);
    var sent := Broadcast(m, image);
    WaitVerdict(Start(true, memory), m, image, sent, fates, 0);
    A.CompleteIsWholeWhenCounted(m, image, memory, fates);
    ReachedMeans(m, sent, fates);
  }

  lemma ReachedMeans(m: Meta, sent: seq<Packet>, fates: seq<B.Fate>)
    ensures AllReached(m, sent, fates) <==> forall b :: 0 <= b < NBlocks(m) ==> B.Coming(m, sent, fates, b, false) > 0
  {
    hide NBlocks;
    if AllReached(m, sent, fates) {
      forall b | 0 <= b < NBlocks(m) ensures B.Coming(m, sent, fates, b, false) > 0 {
        assert Reached(m, sent, fates, b);
      }
    } else {
      var b :| 0 <= b < NBlocks(m) && !Reached(m, sent, fates, b);
      assert B.Coming(m, sent, fates, b, false) == 0;
    }
  }
}
