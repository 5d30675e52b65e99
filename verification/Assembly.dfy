/**
  The reference receiver of the simulator: it keeps every frame of the image and judges all blocks, not
  only the current one.  Its broadcast verdict is exact.
*/
module Assembly {
  import opened Arithmetic
  import opened Bytes
  import opened Frames
  import opened Image
  import opened Erasure
  import opened Sender
  import R = Receiver
  import Safety
  import B = BroadcastProof

  /** Source chunks by number, parity frames by block and index, and the highest ordinal heard (-1 for none). */
  datatype Asm = Asm(src: map<nat, seq<byte>>, par: map<(nat, nat), seq<byte>>, maxOrdinal: int)

  const EMPTY: Asm := Asm(map[], map[], -1)

  /** Which frames of block b are here. */
  function Present(m: Meta, a: Asm, b: nat): (p: seq<bool>)
    ensures |p| == BlockK(m, b) + m.nParity
  {
    seq(BlockK(m, b) + m.nParity, i requires 0 <= i =>
      if i < BlockK(m, b) then b * m.block + i in a.src else (b, i - BlockK(m, b)) in a.par)
  }

  /** have_in_block */
  ghost function Have(m: Meta, a: Asm, b: nat): nat {
    CountPresent(Present(m, a, b), BlockK(m, b) + m.nParity)
  }

  ghost predicate BlockComplete(m: Meta, a: Asm, b: nat) {
    Have(m, a, b) >= BlockK(m, b)
  }

  /** frames_sent_for_block */
  function SentFor(m: Meta, a: Asm, b: nat): int {
    var total, ahead := BlockK(m, b) + m.nParity, a.maxOrdinal + 1 - Before(m, b);
    var least := if ahead < total then ahead else total;
    if least > 0 then least else 0
  }

  ghost predicate Recoverable(m: Meta, a: Asm, b: nat) {
    Have(m, a, b) + (BlockK(m, b) + m.nParity - SentFor(m, a, b)) >= BlockK(m, b)
  }

  ghost predicate Hopeful(m: Meta, a: Asm, b: nat) {
    !BlockComplete(m, a, b) && Recoverable(m, a, b)
  }

  ghost predicate AnyRecoverable(m: Meta, a: Asm) {
    exists b :: 0 <= b < NBlocks(m) && Hopeful(m, a, b)
  }

  ghost predicate AllComplete(m: Meta, a: Asm) {
    forall b :: 0 <= b < NBlocks(m) ==> BlockComplete(m, a, b)
  }

  /** A DATA or PARITY frame; numbers that belong to no frame of the image leave the chunks alone. */
  function HearFrame(m: Meta, a: Asm, id: FrameId, payload: seq<byte>): Asm {
    var ord := Ordinal(m, id.seqNo, id.parity);
    var seen := a.(maxOrdinal := if ord > a.maxOrdinal then ord else a.maxOrdinal);
    if id.parity then
      if m.nParity == 0 || Quot(id.seqNo, m.nParity) >= NBlocks(m) then seen
      else seen.(par := a.par[(Quot(id.seqNo, m.nParity), Rem(id.seqNo, m.nParity)) := payload])
    else if id.seqNo >= NChunks(m) then seen
    else seen.(src := a.src[id.seqNo := payload])
  }

  /** A number that is no frame's leaves nothing behind but the ordinal. */
  lemma StrangersLeaveNothing(m: Meta, a: Asm, id: FrameId, payload: seq<byte>)
    requires !Exists(m, id)
    ensures HearFrame(m, a, id, payload).src == a.src && HearFrame(m, a, id, payload).par == a.par
  {
    hide NChunks, NBlocks, Quot, Rem, Ordinal;
    if id.parity && m.nParity > 0 {
      Split(id.seqNo, m.nParity);
      if Quot(id.seqNo, m.nParity) < NBlocks(m) {
        TimesMonotone(Quot(id.seqNo, m.nParity), NBlocks(m), m.nParity);
        assert false;
      }
    }
  }

  // ----- the receiver's loop in broadcast mode

  datatype State =
    | Waiting
    | Going(m: Meta, asm: Asm)
    | Complete(m: Meta, asm: Asm)
    | Unrecoverable(m: Meta, asm: Asm)
    | Incomplete(m: Meta, asm: Asm)

  ghost function Judged(m: Meta, a: Asm): State {
    if AllComplete(m, a) then Complete(m, a) else if !AnyRecoverable(m, a) then Unrecoverable(m, a) else Going(m, a)
  }

  ghost function Heard(st: State, p: Packet): State {
    match st
    case Waiting => if p.MetaP? then Going(p.m, EMPTY) else st
    case Going(m, a) =>
      (match p
       case MetaP(m') => if m'.imgId != m.imgId then Going(m', EMPTY) else st
       case DataP(id, payload) => Judged(m, HearFrame(m, a, id, payload))
       case FinP =>
         if AllComplete(m, a) then Complete(m, a) else if !AnyRecoverable(m, a) then Unrecoverable(m, a) else Incomplete(m, a)
       case _ => st)
    case _ => st
  }

  ghost function Silence(st: State): State {
    if st.Going? && !AnyRecoverable(st.m, st.asm)
    then if AllComplete(st.m, st.asm) then Complete(st.m, st.asm) else Unrecoverable(st.m, st.asm)
    else st
  }

  /** The receiver after a stretch of channel. */
  ghost function Follow(st: State, sent: seq<Packet>, fates: seq<B.Fate>): State
    decreases |fates|
  {
    if |fates| == 0 then st
    else if fates[0] == B.Quiet then Follow(Silence(st), sent, fates[1..])
    else if |sent| == 0 then Follow(st, sent, fates[1..])
    else Follow(if fates[0] == B.Delivered then Heard(st, sent[0]) else st, sent[1..], fates[1..])
  }

  // ----- what is kept

  ghost predicate SourceGenuine(m: Meta, image: seq<byte>, a: Asm, s: nat)
    requires s in a.src
  {
    s < NChunks(m) && (a.src[s] == ChunkAt(m, image, s) || a.src[s] == PaddedChunk(m, image, s))
  }

  ghost predicate ParityGenuine(m: Meta, image: seq<byte>, a: Asm, b: nat, i: nat)
    requires (b, i) in a.par
  {
    && b < NBlocks(m) && i < m.nParity && BlockK(m, b) + m.nParity <= 255
    && a.par[(b, i)] == FrameRow(m, image, b, BlockK(m, b) + i)
  }

  /** Every chunk kept is the image's, padded or not, and every parity frame its block's. */
  ghost predicate Kept(m: Meta, image: seq<byte>, a: Asm) {
    && (forall s :: s in a.src ==> SourceGenuine(m, image, a, s))
    && (forall b: nat, i: nat :: (b, i) in a.par ==> ParityGenuine(m, image, a, b, i))
  }

  function Later(x: int, y: int): int {
    if x > y then x else y
  }

  /** n is a, with the frame at one place of one block marked as well. */
  ghost predicate OneMore(m: Meta, a: Asm, n: Asm, blk: nat, slot: nat) {
    && blk < NBlocks(m) && slot < BlockK(m, blk) + m.nParity
    && Present(m, n, blk) == Present(m, a, blk)[slot := true]
    && forall b :: 0 <= b < NBlocks(m) && b != blk ==> SamePresent(m, a, n, b)
  }

  ghost predicate SamePresent(m: Meta, a: Asm, n: Asm, b: nat) {
    Present(m, n, b) == Present(m, a, b)
  }

  /** A genuine frame takes its place. */
  lemma FrameKept(m: Meta, image: seq<byte>, a: Asm, id: FrameId)
    requires Conforming(m) && |image| == m.imgLen && Exists(m, id) && Kept(m, image, a)
    ensures var n := HearFrame(m, a, id, Payload(m, image, id));
      && Kept(m, image, n) && n.maxOrdinal == Later(Ordinal(m, id.seqNo, id.parity), a.maxOrdinal)
      && OneMore(m, a, n, R.BlockNo(m, id), R.SlotNo(m, id))
  {
    hide Conforming, Ordinal, Kept, OneMore, Payload, R.BlockNo, R.SlotNo, Exists;
    if id.parity {
      ParityKept(m, image, a, id);
    } else {
      SourceKept(m, image, a, id);
    }
  }

  lemma SourceKept(m: Meta, image: seq<byte>, a: Asm, id: FrameId)
    requires Conforming(m) && |image| == m.imgLen && Exists(m, id) && Kept(m, image, a) && !id.parity
    ensures var n := HearFrame(m, a, id, Payload(m, image, id));
      && Kept(m, image, n) && n.maxOrdinal == Later(Ordinal(m, id.seqNo, id.parity), a.maxOrdinal)
      && OneMore(m, a, n, R.BlockNo(m, id), R.SlotNo(m, id))
  {
    hide Conforming, NChunks, NBlocks, BlockK, FrameRow, ChunkAt, PaddedChunk, Ordinal, Payload, R.BlockNo, R.SlotNo;
    B.FramePlace(m, id);
    Safety.SourceFrame(m, image, id);
    var n := HearFrame(m, a, id, Payload(m, image, id));
    forall s | s in n.src ensures SourceGenuine(m, image, n, s) {
      assert s in a.src ==> SourceGenuine(m, image, a, s);
    }
    forall b: nat, i: nat | (b, i) in n.par ensures ParityGenuine(m, image, n, b, i) {
      assert ParityGenuine(m, image, a, b, i);
    }
    SourceMarked(m, a, n, R.BlockNo(m, id), R.SlotNo(m, id));
  }

  lemma SourceMarked(m: Meta, a: Asm, n: Asm, blk: nat, slot: nat)
    requires Conforming(m) && blk < NBlocks(m) && slot < BlockK(m, blk) && n.par == a.par
    requires forall s: nat :: s in n.src <==> s in a.src || s == blk * m.block + slot
    ensures OneMore(m, a, n, blk, slot)
  {
    hide Conforming, NChunks, NBlocks, BlockK;
    forall b | 0 <= b < NBlocks(m) && b != blk ensures SamePresent(m, a, n, b) {
      forall i | 0 <= i < |Present(m, n, b)| ensures Present(m, n, b)[i] == Present(m, a, b)[i] {
        if i < BlockK(m, b) {
          BlocksApart(m, b, i, blk, slot);
        }
      }
    }
  }

  lemma BlocksApart(m: Meta, b: nat, i: nat, c: nat, j: nat)
    requires Conforming(m) && b < NBlocks(m) && c < NBlocks(m) && i < BlockK(m, b) && j < BlockK(m, c) && b != c
    ensures b * m.block + i != c * m.block + j
  {
    hide Conforming, NChunks, NBlocks, BlockK;
    BlockKAt(m, b);
    BlockKAt(m, c);
    if b < c {
      TimesMonotone(b, c, m.block);
    } else {
      TimesMonotone(c, b, m.block);
    }
  }

  lemma ParityKept(m: Meta, image: seq<byte>, a: Asm, id: FrameId)
    requires Conforming(m) && |image| == m.imgLen && Exists(m, id) && Kept(m, image, a) && id.parity
    ensures var n := HearFrame(m, a, id, Payload(m, image, id));
      && Kept(m, image, n) && n.maxOrdinal == Later(Ordinal(m, id.seqNo, id.parity), a.maxOrdinal)
      && OneMore(m, a, n, R.BlockNo(m, id), R.SlotNo(m, id))
  {
    hide Conforming, NChunks, NBlocks, BlockK, FrameRow, ChunkAt, PaddedChunk, Ordinal, Quot, Rem, OneMore;
    B.FramePlace(m, id);
    var blk, slot := R.BlockNo(m, id), R.SlotNo(m, id);
    var n := HearFrame(m, a, id, Payload(m, image, id));
    forall s | s in n.src ensures SourceGenuine(m, image, n, s) {
      assert SourceGenuine(m, image, a, s);
    }
    forall b: nat, i: nat | (b, i) in n.par ensures ParityGenuine(m, image, n, b, i) {
      assert (b, i) in a.par ==> ParityGenuine(m, image, a, b, i);
    }
    ParityMarked(m, a, n, blk, slot - BlockK(m, blk));
  }

  lemma ParityMarked(m: Meta, a: Asm, n: Asm, blk: nat, p: nat)
    requires blk < NBlocks(m) && p < m.nParity && n.src == a.src
    requires forall b: nat, i: nat :: (b, i) in n.par <==> (b, i) in a.par || (b == blk && i == p)
    ensures OneMore(m, a, n, blk, BlockK(m, blk) + p)
  {
    hide NChunks, NBlocks, BlockK;
    forall b | 0 <= b < NBlocks(m) && b != blk ensures SamePresent(m, a, n, b) {
    }
  }

  // ----- counting

  lemma MarkedCounts(m: Meta, a: Asm, n: Asm, blk: nat, slot: nat)
    requires OneMore(m, a, n, blk, slot) && !Present(m, a, blk)[slot]
    ensures forall b :: 0 <= b < NBlocks(m) ==> Have(m, n, b) == Have(m, a, b) + if b == blk then 1 else 0
  {
    hide NBlocks, BlockK, Present, CountPresent;
    B.CountSet(Present(m, a, blk), BlockK(m, blk) + m.nParity, slot);
    forall b | 0 <= b < NBlocks(m) && b != blk ensures Have(m, n, b) == Have(m, a, b) {
      assert SamePresent(m, a, n, b);
    }
  }

  /** Frames beyond the highest ordinal are not here yet. */
  ghost predicate PassedIn(m: Meta, a: Asm, b: nat) {
    forall i :: 0 <= i < |Present(m, a, b)| && Present(m, a, b)[i] ==> Before(m, b) + i <= a.maxOrdinal
  }

  /** The receiver in the middle of a transfer: some block is not complete, nothing is ahead of the sender. */
  ghost predicate Underway(m: Meta, image: seq<byte>, a: Asm, floor: nat) {
    && Conforming(m) && |image| == m.imgLen && Kept(m, image, a) && -1 <= a.maxOrdinal < floor
    && (forall b :: 0 <= b < NBlocks(m) ==> PassedIn(m, a, b))
  }

  /** One frame of block blk more. */
  ghost predicate Counts(m: Meta, a: Asm, n: Asm, blk: nat) {
    forall b :: 0 <= b < NBlocks(m) ==> Have(m, n, b) == Have(m, a, b) + if b == blk then 1 else 0
  }

  lemma FrameCounts(m: Meta, image: seq<byte>, a: Asm, id: FrameId, floor: nat)
    requires Underway(m, image, a, floor) && Exists(m, id) && Ordinal(m, id.seqNo, id.parity) >= floor
    ensures var n := HearFrame(m, a, id, Payload(m, image, id));
      Underway(m, image, n, Ordinal(m, id.seqNo, id.parity) + 1) && Counts(m, a, n, R.BlockNo(m, id))
  {
    hide Conforming, NBlocks, BlockK, Ordinal, Kept, Payload, R.BlockNo, R.SlotNo, Exists, Present, Before, HearFrame, Have;
    var n, blk, slot := HearFrame(m, a, id, Payload(m, image, id)), R.BlockNo(m, id), R.SlotNo(m, id);
    FrameKept(m, image, a, id);
    B.FramePlace(m, id);
    assert PassedIn(m, a, blk);
    assert !Present(m, a, blk)[slot];
    MarkedCounts(m, a, n, blk, slot);
    forall b | 0 <= b < NBlocks(m) ensures PassedIn(m, n, b) {
      assert PassedIn(m, a, b);
      assert b != blk ==> SamePresent(m, a, n, b);
    }
  }

  // ----- the verdict

  /** Frames of block b heard so far and still delivered. */
  ghost function Total(m: Meta, a: Asm, sent: seq<Packet>, fates: seq<B.Fate>, b: nat): nat {
    Have(m, a, b) + B.Coming(m, sent, fates, b, true)
  }

  /** Every block gets k of its frames. */
  ghost predicate EnoughOfAll(m: Meta, a: Asm, sent: seq<Packet>, fates: seq<B.Fate>) {
    forall b :: 0 <= b < NBlocks(m) ==> Total(m, a, sent, fates, b) >= BlockK(m, b)
  }

  /** What is still to come of a block is at most what the highest ordinal has not passed. */
  lemma ComingRemains(m: Meta, image: seq<byte>, a: Asm, sent: seq<Packet>, fates: seq<B.Fate>, floor: nat, b: nat)
    requires Underway(m, image, a, floor) && B.Airs(m, image, sent, floor) && b < NBlocks(m)
    ensures B.Coming(m, sent, fates, b, true) <= BlockK(m, b) + m.nParity - SentFor(m, a, b)
    ensures B.Coming(m, sent, fates, b, true) <= BlockK(m, b) + m.nParity
  {
    hide Conforming, NBlocks, BlockK, Kept, Before, B.Airs, B.Coming;
    B.ComingBound(m, image, sent, fates, b, true, floor);
    BeforeNext(m, b);
  }

  lemma BeforeNext(m: Meta, b: nat)
    ensures Before(m, b + 1) == Before(m, b) + BlockK(m, b) + m.nParity
  {
  }

  /** When no incomplete block is recoverable, no continuation completes any of them. */
  lemma HopelessStaysSo(m: Meta, image: seq<byte>, a: Asm, sent: seq<Packet>, fates: seq<B.Fate>, floor: nat)
    requires Underway(m, image, a, floor) && B.Airs(m, image, sent, floor) && !AnyRecoverable(m, a)
    ensures forall b :: 0 <= b < NBlocks(m) && !BlockComplete(m, a, b) ==> Total(m, a, sent, fates, b) < BlockK(m, b)
  {
    hide Conforming, NBlocks, BlockK, Kept, B.Airs, B.Coming, Have, SentFor;
    forall b | 0 <= b < NBlocks(m) && !BlockComplete(m, a, b) ensures Total(m, a, sent, fates, b) < BlockK(m, b) {
      assert !Hopeful(m, a, b);
      ComingRemains(m, image, a, sent, fates, floor, b);
    }
  }

  /** The verdict so far is right: not all blocks are complete. */
  ghost predicate Ongoing(m: Meta, image: seq<byte>, a: Asm, floor: nat) {
    Underway(m, image, a, floor) && !AllComplete(m, a)
  }

  lemma HopelessNotEnough(m: Meta, image: seq<byte>, a: Asm, sent: seq<Packet>, fates: seq<B.Fate>, floor: nat)
    requires Ongoing(m, image, a, floor) && B.Airs(m, image, sent, floor) && !AnyRecoverable(m, a)
    ensures !EnoughOfAll(m, a, sent, fates)
  {
    hide Conforming, NBlocks, BlockK, Kept, B.Airs, Total, BlockComplete, AnyRecoverable, Underway;
    HopelessStaysSo(m, image, a, sent, fates, floor);
    var b :| 0 <= b < NBlocks(m) && !BlockComplete(m, a, b);
    assert Total(m, a, sent, fates, b) < BlockK(m, b);
  }

  /** One more frame heard, one fewer to come. */
  lemma EnoughMoves(m: Meta, a: Asm, n: Asm, sent: seq<Packet>, fates: seq<B.Fate>, blk: nat)
    requires Counts(m, a, n, blk) && |fates| > 0 && |sent| > 0 && fates[0] == B.Delivered && sent[0].DataP?
    requires R.BlockNo(m, sent[0].id) == blk
    ensures EnoughOfAll(m, n, sent[1..], fates[1..]) <==> EnoughOfAll(m, a, sent, fates)
  {
    hide NBlocks, BlockK, Have, R.BlockNo;
    assert forall b :: 0 <= b < NBlocks(m) ==> Total(m, n, sent[1..], fates[1..], b) == Total(m, a, sent, fates, b);
  }

  lemma EnoughStays(m: Meta, a: Asm, sent: seq<Packet>, fates: seq<B.Fate>, sent': seq<Packet>, fates': seq<B.Fate>)
    requires |fates| > 0 && fates' == fates[1..]
    requires sent' == if fates[0] == B.Quiet || |sent| == 0 then sent else sent[1..]
    requires fates[0] == B.Delivered && |sent| > 0 ==> !sent[0].DataP?
    ensures EnoughOfAll(m, a, sent', fates') <==> EnoughOfAll(m, a, sent, fates)
  {
    hide NBlocks, BlockK, Have;
    assert forall b :: 0 <= b < NBlocks(m) ==> Total(m, a, sent', fates', b) == Total(m, a, sent, fates, b);
  }

  /** A frame that completes the last incomplete block. */
  lemma CompleteIsEnough(m: Meta, a: Asm, sent: seq<Packet>, fates: seq<B.Fate>)
    requires AllComplete(m, a)
    ensures EnoughOfAll(m, a, sent, fates)
  {
    hide NBlocks, BlockK, Have, B.Coming;
    forall b | 0 <= b < NBlocks(m) ensures Total(m, a, sent, fates, b) >= BlockK(m, b) {
      assert BlockComplete(m, a, b);
    }
  }

  /** After the last frame nothing is coming. */
  lemma NothingAfterFin(m: Meta, image: seq<byte>, a: Asm, sent: seq<Packet>, fates: seq<B.Fate>, floor: nat)
    requires Ongoing(m, image, a, floor) && B.Airs(m, image, sent, floor) && floor >= TotalFrames(m)
    ensures !EnoughOfAll(m, a, sent, fates)
  {
    hide Conforming, NBlocks, BlockK, Kept, B.Airs, BlockComplete, Underway, Before, TotalFrames, B.Coming;
    var b :| 0 <= b < NBlocks(m) && !BlockComplete(m, a, b);
    assert Conforming(m) by {
      UnderwayShape(m, image, a, floor);
    }
    BlocksCoverEverything(m);
    BeforeMonotone(m, b + 1, NBlocks(m));
    B.Grows(m, b);
    B.ComingBound(m, image, sent, fates, b, true, floor);
    NotComplete(m, a, b);
    assert Total(m, a, sent, fates, b) < BlockK(m, b);
  }

  lemma UnderwayShape(m: Meta, image: seq<byte>, a: Asm, floor: nat)
    requires Underway(m, image, a, floor)
    ensures Conforming(m) && |image| == m.imgLen
  {
    hide Conforming, Kept, PassedIn;
  }

  lemma NotComplete(m: Meta, a: Asm, b: nat)
    ensures !BlockComplete(m, a, b) <==> Have(m, a, b) < BlockK(m, b)
  {
    hide BlockK, Have;
  }

  /** The state at the end, when the transfer of m got under way. */
  ghost predicate Ended(m: Meta, image: seq<byte>, st: State) {
    st.Complete? ==> st.m == m && Kept(m, image, st.asm) && AllComplete(m, st.asm)
  }

  /** A receiver that has stopped stays as it is. */
  lemma {:induction false} StoppedStays(st: State, sent: seq<Packet>, fates: seq<B.Fate>)
    requires !st.Waiting? && !st.Going?
    ensures Follow(st, sent, fates) == st
    decreases |fates|
  {
    if |fates| > 0 {
      if fates[0] == B.Quiet {
        StoppedStays(st, sent, fates[1..]);
      } else if |sent| == 0 {
        StoppedStays(st, sent, fates[1..]);
      } else {
        StoppedStays(st, sent[1..], fates[1..]);
      }
    }
  }

  /** The receiver finds the image complete if and only if the channel lets k frames of every block through. */
  lemma {:induction false} VerdictExact(m: Meta, image: seq<byte>, a: Asm, sent: seq<Packet>, fates: seq<B.Fate>, floor: nat)
    requires Ongoing(m, image, a, floor) && B.Airs(m, image, sent, floor)
    ensures var end := Follow(Going(m, a), sent, fates);
      (end.Complete? <==> EnoughOfAll(m, a, sent, fates)) && Ended(m, image, end)
    decreases |fates|
  {
    hide Conforming, NBlocks, BlockK, Kept, AllComplete, AnyRecoverable, EnoughOfAll, Underway, HearFrame, TotalFrames,
         Ordinal, Exists, Payload, R.BlockNo;
    if |fates| == 0 {
      NoneComing(m, a, sent, fates);
    } else if fates[0] == B.Quiet || |sent| == 0 {
      EnoughStays(m, a, sent, fates, sent, fates[1..]);
      if fates[0] == B.Quiet && !AnyRecoverable(m, a) {
        HopelessNotEnough(m, image, a, sent, fates, floor);
        StoppedStays(Unrecoverable(m, a), sent, fates[1..]);
      } else {
        VerdictExact(m, image, a, sent, fates[1..], floor);
      }
    } else if fates[0] == B.Delivered && sent[0].DataP? {
      DataVerdict(m, image, a, sent, fates, floor);
    } else if fates[0] == B.Delivered && sent[0].FinP? {
      EnoughStays(m, a, sent, fates, sent[1..], fates[1..]);
      OngoingLater(m, image, a, floor, B.Max(floor, TotalFrames(m)));
      NothingAfterFin(m, image, a, sent[1..], fates[1..], B.Max(floor, TotalFrames(m)));
      StoppedStays(Heard(Going(m, a), sent[0]), sent[1..], fates[1..]);
    } else {
      EnoughStays(m, a, sent, fates, sent[1..], fates[1..]);
      var next := if sent[0].DataP? then Ordinal(m, sent[0].id.seqNo, sent[0].id.parity) + 1
                  else if sent[0].FinP? then B.Max(floor, TotalFrames(m)) else floor;
      OngoingLater(m, image, a, floor, next);
      VerdictExact(m, image, a, sent[1..], fates[1..], next);
    }
  }

  lemma NoneComing(m: Meta, a: Asm, sent: seq<Packet>, fates: seq<B.Fate>)
    requires |fates| == 0 && !AllComplete(m, a)
    ensures !EnoughOfAll(m, a, sent, fates)
  {
    hide NBlocks, BlockK, Have;
    var b :| 0 <= b < NBlocks(m) && !BlockComplete(m, a, b);
    assert Total(m, a, sent, fates, b) == Have(m, a, b);
  }

  lemma OngoingLater(m: Meta, image: seq<byte>, a: Asm, floor: nat, next: nat)
    requires Ongoing(m, image, a, floor) && floor <= next
    ensures Ongoing(m, image, a, next)
  {
    hide Conforming, Kept, AllComplete, PassedIn;
  }

  lemma {:induction false} DataVerdict(m: Meta, image: seq<byte>, a: Asm, sent: seq<Packet>, fates: seq<B.Fate>, floor: nat)
    requires Ongoing(m, image, a, floor) && B.Airs(m, image, sent, floor)
    requires |fates| > 0 && |sent| > 0 && fates[0] == B.Delivered && sent[0].DataP?
    ensures var end := Follow(Going(m, a), sent, fates);
      (end.Complete? <==> EnoughOfAll(m, a, sent, fates)) && Ended(m, image, end)
    decreases |fates|, 0
  {
    hide Conforming, NBlocks, BlockK, Kept, AllComplete, AnyRecoverable, EnoughOfAll, HearFrame, TotalFrames,
         Ordinal, Exists, Payload, R.BlockNo, PassedIn;
    var id := sent[0].id;
    var next := Ordinal(m, id.seqNo, id.parity) + 1;
    var n := HearFrame(m, a, id, Payload(m, image, id));
    FrameCounts(m, image, a, id, floor);
    EnoughMoves(m, a, n, sent, fates, R.BlockNo(m, id));
    if AllComplete(m, n) {
      CompleteIsEnough(m, n, sent[1..], fates[1..]);
      StoppedStays(Complete(m, n), sent[1..], fates[1..]);
    } else if !AnyRecoverable(m, n) {
      HopelessNotEnough(m, image, n, sent[1..], fates[1..], next);
      StoppedStays(Unrecoverable(m, n), sent[1..], fates[1..]);
    } else {
      VerdictExact(m, image, n, sent[1..], fates[1..], next);
    }
  }

  // ----- from the moment the receiver is switched on

  lemma EmptyUnderway(m: Meta, image: seq<byte>, floor: nat)
    requires Conforming(m) && |image| == m.imgLen
    ensures Ongoing(m, image, EMPTY, floor) && forall b :: 0 <= b < NBlocks(m) ==> Have(m, EMPTY, b) == 0
  {
    hide Conforming, NBlocks, BlockK;
    forall b | 0 <= b < NBlocks(m) ensures Have(m, EMPTY, b) == 0 {
      NonePresent(Present(m, EMPTY, b), BlockK(m, b) + m.nParity);
    }
    Extent(m);
    BlockKAt(m, 0);
    assert !BlockComplete(m, EMPTY, 0);
  }

  lemma {:induction false} NonePresent(p: seq<bool>, n: nat)
    requires n <= |p| && forall i :: 0 <= i < |p| ==> !p[i]
    ensures CountPresent(p, n) == 0
  {
    if n > 0 {
      NonePresent(p, n - 1);
    }
  }

  /** k frames of every block after the first META heard. */
  ghost predicate AllWillBeHeard(m: Meta, sent: seq<Packet>, fates: seq<B.Fate>) {
    forall b :: 0 <= b < NBlocks(m) ==> B.WillHear(m, sent, fates, b)
  }

  lemma {:induction false} WaitVerdict(m: Meta, image: seq<byte>, sent: seq<Packet>, fates: seq<B.Fate>, floor: nat)
    requires Conforming(m) && |image| == m.imgLen && B.Airs(m, image, sent, floor)
    ensures var end := Follow(Waiting, sent, fates);
      (end.Complete? <==> AllWillBeHeard(m, sent, fates)) && Ended(m, image, end)
    decreases |fates|
  {
    hide Conforming, NChunks, NBlocks, BlockK, AllComplete, AnyRecoverable, TotalFrames, Ordinal, Exists, Payload, HearFrame;
    if |fates| == 0 {
      NothingHeard(m, sent, fates);
    } else if fates[0] == B.Delivered && |sent| > 0 && sent[0].MetaP? {
      EmptyUnderway(m, image, floor);
      VerdictExact(m, image, EMPTY, sent[1..], fates[1..], floor);
      FromNothing(m, sent, fates);
    } else {
      WaitStays(m, sent, fates);
      var on := |sent| > 0 && fates[0] != B.Quiet;
      var next := if on && sent[0].DataP? then Ordinal(m, sent[0].id.seqNo, sent[0].id.parity) + 1
                  else if on && sent[0].FinP? then B.Max(floor, TotalFrames(m)) else floor;
      WaitVerdict(m, image, if on then sent[1..] else sent, fates[1..], next);
    }
  }

  lemma NothingHeard(m: Meta, sent: seq<Packet>, fates: seq<B.Fate>)
    requires Conforming(m) && |fates| == 0
    ensures !AllWillBeHeard(m, sent, fates)
  {
    hide Conforming, NChunks, NBlocks, BlockK;
    Extent(m);
    BlockKAt(m, 0);
    assert !B.WillHear(m, sent, fates, 0);
  }

  lemma FromNothing(m: Meta, sent: seq<Packet>, fates: seq<B.Fate>)
    requires |fates| > 0 && |sent| > 0 && fates[0] == B.Delivered && sent[0].MetaP?
    requires forall b :: 0 <= b < NBlocks(m) ==> Have(m, EMPTY, b) == 0
    ensures EnoughOfAll(m, EMPTY, sent[1..], fates[1..]) <==> AllWillBeHeard(m, sent, fates)
  {
    hide NBlocks, BlockK, Have;
    assert forall b :: 0 <= b < NBlocks(m) ==>
             (Total(m, EMPTY, sent[1..], fates[1..], b) >= BlockK(m, b) <==> B.WillHear(m, sent, fates, b));
  }

  lemma WaitStays(m: Meta, sent: seq<Packet>, fates: seq<B.Fate>)
    requires |fates| > 0 && !(fates[0] == B.Delivered && |sent| > 0 && sent[0].MetaP?)
    ensures AllWillBeHeard(m, sent, fates)
            <==> AllWillBeHeard(m, if |sent| > 0 && fates[0] != B.Quiet then sent[1..] else sent, fates[1..])
  {
    hide NBlocks, BlockK;
    var sent' := if |sent| > 0 && fates[0] != B.Quiet then sent[1..] else sent;
    assert forall b :: 0 <= b < NBlocks(m) ==> (B.WillHear(m, sent, fates, b) <==> B.WillHear(m, sent', fates[1..], b));
  }

  /**
    The broadcast verdict of the reference receiver is exact: it declares the image complete if and only if
    a META and then at least k frames of every block get through, whatever else is lost.
  */
  lemma BroadcastVerdict(m: Meta, image: seq<byte>, fates: seq<B.Fate>)
    requires Conforming(m) && |image| == m.imgLen
    ensures var end := Follow(Waiting, Broadcast(m, image), fates);
      (end.Complete? <==> AllWillBeHeard(m, Broadcast(m, image), fates)) && Ended(m, image, end)
  {
    hide Conforming, Broadcast, AllWillBeHeard, Ended, Follow;
    B.BroadcastAirs(m, image);
    WaitVerdict(m, image, Broadcast(m, image), fates, 0);
  }

  // ----- putting the image together

  function ChunkOrZeros(m: Meta, a: Asm, i: nat): seq<byte> {
    if i in a.src then a.src[i] else R.Zeros(m.chunk)
  }

  /** The first n chunks end to end, all but the last of the image padded. */
  function Joined(m: Meta, a: Asm, n: nat): seq<byte> {
    if n == 0 then []
    else Joined(m, a, n - 1) + if n < NChunks(m) then Pad(ChunkOrZeros(m, a, n - 1), m.chunk) else ChunkOrZeros(m, a, n - 1)
  }

  /** image(): cut or filled up to the announced length. */
  function ImageOf(m: Meta, a: Asm): seq<byte> {
    Pad(Joined(m, a, NChunks(m)), m.imgLen)
  }

  ghost predicate AllHere(m: Meta, a: Asm) {
    forall i :: 0 <= i < NChunks(m) ==> i in a.src
  }

  lemma {:induction false} JoinedIs(m: Meta, image: seq<byte>, a: Asm, n: nat)
    requires Conforming(m) && |image| == m.imgLen && Kept(m, image, a) && AllHere(m, a) && n < NChunks(m)
    ensures 0 <= n * m.chunk <= m.imgLen && Joined(m, a, n) == image[..n * m.chunk]
  {
    hide Conforming, NChunks, ChunkAt;
    ChunkBounds(m, image, n);
    if n > 0 {
      JoinedIs(m, image, a, n - 1);
      ChunkBounds(m, image, n - 1);
      assert SourceGenuine(m, image, a, n - 1);
      var c := ChunkAt(m, image, n - 1);
      assert Pad(a.src[n - 1], m.chunk) == c;
      assert n * m.chunk == (n - 1) * m.chunk + m.chunk;
      assert image[..n * m.chunk] == image[..(n - 1) * m.chunk] + c;
    }
  }

  /** With every chunk there, the image is the sender's, so its checksum cannot differ. */
  lemma ImageIsOriginal(m: Meta, image: seq<byte>, a: Asm)
    requires Conforming(m) && |image| == m.imgLen && Kept(m, image, a) && AllHere(m, a)
    ensures ImageOf(m, a) == image
  {
    hide Conforming, NChunks, ChunkAt;
    Extent(m);
    var n := NChunks(m) - 1;
    JoinedIs(m, image, a, n);
    ChunkBounds(m, image, n);
    assert SourceGenuine(m, image, a, n);
    var c := ChunkAt(m, image, n);
    assert image == image[..n * m.chunk] + c;
    JoinedLast(m, a);
  }

  lemma JoinedLast(m: Meta, a: Asm)
    requires NChunks(m) > 0
    ensures Joined(m, a, NChunks(m)) == Joined(m, a, NChunks(m) - 1) + ChunkOrZeros(m, a, NChunks(m) - 1)
  {
    hide NChunks;
  }
}
