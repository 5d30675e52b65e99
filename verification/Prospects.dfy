/**
  When the reference receiver gives a broadcast up, and when it goes on: exactly as long as something it
  still lacks can come.
*/
module Prospects {
  import opened Bytes
  import opened Frames
  import opened Image
  import opened Sender
  import opened Assembly
  import B = BroadcastProof
  import F = Feasibility

  /** With this fate of what follows the last frame heard, block b, incomplete so far, gets k frames. */
  ghost predicate CanFinish(m: Meta, image: seq<byte>, a: Asm, more: seq<B.Fate>, b: nat)
    requires Conforming(m) && -1 <= a.maxOrdinal < TotalFrames(m)
  {
    && b < NBlocks(m) && Have(m, a, b) < BlockK(m, b)
    && Total(m, a, F.BroadcastFrom(m, image, a.maxOrdinal + 1), more, b) >= BlockK(m, b)
  }

  /** In the middle of a transfer, nothing heard that was not sent. */
  ghost predicate Placed(m: Meta, image: seq<byte>, a: Asm, floor: nat) {
    Underway(m, image, a, floor) && a.maxOrdinal < TotalFrames(m)
  }

  lemma PlacedShape(m: Meta, image: seq<byte>, a: Asm, floor: nat)
    requires Placed(m, image, a, floor)
    ensures Conforming(m) && -1 <= a.maxOrdinal < TotalFrames(m) && Underway(m, image, a, a.maxOrdinal + 1)
    ensures forall next: nat :: next >= floor ==> Placed(m, image, a, next)
  {
    hide Conforming, Kept, PassedIn, TotalFrames;
  }

  /** If everything to come is heard, an incomplete block gets all the highest ordinal has not passed. */
  lemma AllThatIsLeft(m: Meta, image: seq<byte>, a: Asm, b: nat)
    requires Conforming(m) && -1 <= a.maxOrdinal < TotalFrames(m) && b < NBlocks(m)
    ensures var rest := F.BroadcastFrom(m, image, a.maxOrdinal + 1);
      Total(m, a, rest, F.AllDelivered(|rest|), b) == Have(m, a, b) + BlockK(m, b) + m.nParity - SentFor(m, a, b)
  {
    hide Conforming, NBlocks, BlockK, TotalFrames, F.BroadcastFrom, B.Coming, Before, Have;
    F.AllComing(m, image, a.maxOrdinal + 1, b);
    Assembly.BeforeNext(m, b);
    B.Grows(m, b);
  }

  /** Some incomplete block is judged recoverable if and only if some fate of what is left completes one. */
  lemma RecoverableExactly(m: Meta, image: seq<byte>, a: Asm, floor: nat)
    requires Placed(m, image, a, floor)
    ensures Conforming(m) && -1 <= a.maxOrdinal < TotalFrames(m)
    ensures AnyRecoverable(m, a) <==> exists more, b: nat :: CanFinish(m, image, a, more, b)
  {
    hide Conforming, NBlocks, BlockK, TotalFrames, F.BroadcastFrom, Total, Underway, Have, SentFor;
    PlacedShape(m, image, a, floor);
    var rest := F.BroadcastFrom(m, image, a.maxOrdinal + 1);
    if AnyRecoverable(m, a) {
      var b :| 0 <= b < NBlocks(m) && Hopeful(m, a, b);
      AllThatIsLeft(m, image, a, b);
      assert CanFinish(m, image, a, F.AllDelivered(|rest|), b);
    } else {
      F.RestAirs(m, image, a.maxOrdinal + 1);
      forall more, b: nat ensures !CanFinish(m, image, a, more, b) {
        HopelessStaysSo(m, image, a, rest, more, a.maxOrdinal + 1);
        NotComplete(m, a, b);
        assert b < NBlocks(m) && !BlockComplete(m, a, b) ==> Total(m, a, rest, more, b) < BlockK(m, b);
      }
    }
  }

  // ----- every state of every broadcast

  ghost predicate Standing(m: Meta, image: seq<byte>, st: State, floor: nat) {
    match st
    case Going(m', a) => m' == m && Placed(m, image, a, floor) && AnyRecoverable(m, a)
    case Unrecoverable(m', a) => m' == m && Placed(m, image, a, floor) && !AnyRecoverable(m, a) && !AllComplete(m, a)
    case _ => true
  }

  lemma StandingLater(m: Meta, image: seq<byte>, st: State, floor: nat, next: nat)
    requires Standing(m, image, st, floor) && floor <= next
    ensures Standing(m, image, st, next)
  {
    hide AnyRecoverable, AllComplete, Placed;
    if st.Going? || st.Unrecoverable? {
      PlacedShape(m, image, st.asm, floor);
    }
  }

  /** At the start everything can come. */
  lemma StartStands(m: Meta, image: seq<byte>, floor: nat)
    requires Conforming(m) && |image| == m.imgLen
    ensures Standing(m, image, Going(m, EMPTY), floor)
  {
    hide Conforming, NBlocks, BlockK, TotalFrames, Have, Underway, AllComplete, Before;
    EmptyUnderway(m, image, floor);
    Extent(m);
    BlockKAt(m, 0);
    B.Grows(m, 0);
    BlocksCoverEverything(m);
    BeforeMonotone(m, 1, NBlocks(m));
    BeforeFirst(m);
    assert Hopeful(m, EMPTY, 0);
  }

  lemma BeforeFirst(m: Meta)
    ensures Before(m, 0) == 0 && Before(m, 1) == BlockK(m, 0) + m.nParity
  {
    hide BlockK;
  }

  lemma FrameStands(m: Meta, image: seq<byte>, a: Asm, id: FrameId, floor: nat)
    requires Placed(m, image, a, floor) && Exists(m, id) && Ordinal(m, id.seqNo, id.parity) >= floor
    ensures Standing(m, image, Judged(m, HearFrame(m, a, id, Payload(m, image, id))), Ordinal(m, id.seqNo, id.parity) + 1)
  {
    hide Conforming, Exists, Ordinal, Payload, HearFrame, Kept, PassedIn, AllComplete, AnyRecoverable, TotalFrames, NBlocks;
    FrameCounts(m, image, a, id, floor);
    OrderInvertsOrdinal(m, id);
  }

  lemma {:induction false} FollowStands(m: Meta, image: seq<byte>, st: State, sent: seq<Packet>, fates: seq<B.Fate>,
                                        floor: nat)
    requires Conforming(m) && |image| == m.imgLen && Standing(m, image, st, floor) && B.Airs(m, image, sent, floor)
    ensures exists last: nat :: Standing(m, image, Follow(st, sent, fates), last)
    decreases |fates|
  {
    hide Conforming, AnyRecoverable, AllComplete, Placed, HearFrame, Exists, Ordinal, Payload, TotalFrames;
    if |fates| == 0 {
      assert Standing(m, image, Follow(st, sent, fates), floor);
    } else {
      if fates[0] == B.Quiet {
        assert Silence(st) == st;
        FollowStands(m, image, st, sent, fates[1..], floor);
        assert Follow(st, sent, fates) == Follow(st, sent, fates[1..]);
      } else if |sent| == 0 {
        FollowStands(m, image, st, sent, fates[1..], floor);
        assert Follow(st, sent, fates) == Follow(st, sent, fates[1..]);
      } else {
        var next := if sent[0].DataP? then Ordinal(m, sent[0].id.seqNo, sent[0].id.parity) + 1
                    else if sent[0].FinP? then B.Max(floor, TotalFrames(m)) else floor;
        var on := if fates[0] == B.Delivered then Heard(st, sent[0]) else st;
        StandingLater(m, image, st, floor, next);
        if fates[0] == B.Delivered {
          HeardStands(m, image, st, sent[0], floor, next);
        }
        FollowStands(m, image, on, sent[1..], fates[1..], next);
        assert Follow(st, sent, fates) == Follow(on, sent[1..], fates[1..]);
      }
    }
  }

  lemma HeardStands(m: Meta, image: seq<byte>, st: State, p: Packet, floor: nat, next: nat)
    requires Conforming(m) && |image| == m.imgLen && Standing(m, image, st, floor) && floor <= next
    requires p.MetaP? ==> p.m == m
    requires p.DataP? ==> && Exists(m, p.id) && p.payload == Payload(m, image, p.id)
                          && floor <= Ordinal(m, p.id.seqNo, p.id.parity) < next
    ensures Standing(m, image, Heard(st, p), next)
  {
    hide Conforming, AnyRecoverable, AllComplete, Placed, HearFrame, Exists, Ordinal, Payload, TotalFrames, Judged;
    StandingLater(m, image, st, floor, next);
    if st.Waiting? && p.MetaP? {
      StartStands(m, image, next);
    } else if st.Going? && p.DataP? {
      FrameStands(m, image, st.asm, p.id, floor);
      StandingLater(m, image, Judged(m, HearFrame(m, st.asm, p.id, p.payload)), Ordinal(m, p.id.seqNo, p.id.parity) + 1,
                    next);
    }
  }

  /**
    Whatever is lost of a broadcast, the reference receiver goes on exactly while some fate of what is left could
    complete a block, and once it has given up, none completes any.
  */
  lemma GivesUpExactly(m: Meta, image: seq<byte>, fates: seq<B.Fate>)
    requires Conforming(m) && |image| == m.imgLen
    ensures var end := Follow(Waiting, Broadcast(m, image), fates);
      end.Going? || end.Unrecoverable? ==>
        && end.m == m && -1 <= end.asm.maxOrdinal < TotalFrames(m)
        && (end.Going? <==> exists more, b: nat :: CanFinish(m, image, end.asm, more, b))
        && (end.Unrecoverable? ==> !AllComplete(m, end.asm))
  {
    hide Conforming, Broadcast, Follow, AllComplete, AnyRecoverable, Placed, TotalFrames, CanFinish, B.Airs;
    B.BroadcastAirs(m, image);
    FollowStands(m, image, Waiting, Broadcast(m, image), fates, 0);
    var end := Follow(Waiting, Broadcast(m, image), fates);
    var last: nat :| Standing(m, image, end, last);
    if end.Going? || end.Unrecoverable? {
      RecoverableExactly(m, image, end.asm, last);
    }
  }
}
