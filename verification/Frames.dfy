/**
  The counts a META implies, and the position of every frame in the broadcast sender's order.
*/
module Frames {
  import opened Arithmetic

  /** The fields of a META that shape a transfer. */
  datatype Meta = Meta(imgId: nat, imgLen: nat, chunk: nat, block: nat, nParity: nat)

  function U16(x: nat): nat {
    x % 0x1_0000
  }

  function NChunks(m: Meta): nat {
    if m.chunk == 0 then 0 else U16(Quot(m.imgLen + m.chunk - 1, m.chunk))
  }

  /** The block size in force; a block field of zero stands for 256. */
  function BlockSize(m: Meta): (b: nat)
    ensures b > 0
  {
    if m.block != 0 then m.block else 256
  }

  function NBlocks(m: Meta): nat {
    U16(Quot(NChunks(m) + BlockSize(m) - 1, BlockSize(m)))
  }

  function BlockK(m: Meta, blk: nat): nat {
    var start := blk * BlockSize(m);
    if start >= NChunks(m) then 0
    else if NChunks(m) - start < BlockSize(m) then NChunks(m) - start else BlockSize(m)
  }

  function TotalFrames(m: Meta): nat {
    NChunks(m) + NBlocks(m) * m.nParity
  }

  /** Frames of the first blk blocks. */
  function Before(m: Meta, blk: nat): nat {
    if blk == 0 then 0 else Before(m, blk - 1) + BlockK(m, blk - 1) + m.nParity
  }

  /** Which block and which place inside it a frame's number stands for. */
  function BlockOf(m: Meta, seqNo: nat, parity: bool): nat
    requires parity ==> m.nParity > 0
  {
    if parity then Quot(seqNo, m.nParity) else Quot(seqNo, BlockSize(m))
  }

  function SlotOf(m: Meta, seqNo: nat, parity: bool): nat
    requires parity ==> m.nParity > 0
  {
    if parity then BlockK(m, Quot(seqNo, m.nParity)) + Rem(seqNo, m.nParity) else Rem(seqNo, BlockSize(m))
  }

  /** loraitp_frame_ordinal */
  function Ordinal(m: Meta, seqNo: nat, parity: bool): nat {
    if parity && m.nParity == 0 then 0
    else Before(m, BlockOf(m, seqNo, parity)) + SlotOf(m, seqNo, parity)
  }

  method FrameOrdinal(m: Meta, seqNo: nat, parity: bool) returns (ord: nat)
    ensures ord == Ordinal(m, seqNo, parity)
  {
    var blk, within;
    if parity {
      if m.nParity == 0 {
        return 0;
      }
      blk := Quot(seqNo, m.nParity);
      within := BlockK(m, blk) + Rem(seqNo, m.nParity);
    } else {
      blk := Quot(seqNo, BlockSize(m));
      within := Rem(seqNo, BlockSize(m));
    }
    var before := 0;
    for i := 0 to blk
      invariant before == Before(m, i)
    {
      before := before + BlockK(m, i) + m.nParity;
    }
    return before + within;
  }

  /** A META the erasure code, the receive bitmap and the 16-bit counters can serve. */
  predicate Conforming(m: Meta) {
    && 1 <= m.chunk <= 255 && 1 <= m.block <= 128 && 0 < m.imgLen
    && Quot(m.imgLen + m.chunk - 1, m.chunk) < 0x1_0000
    && BlockK(m, 0) + m.nParity <= 255
    && NBlocks(m) * m.nParity < 0x1_0000
  }

  /** A META of an image without a byte. */
  predicate Empty(m: Meta) {
    m.imgLen == 0 && 1 <= m.chunk <= 255 && 1 <= m.block <= 128
  }

  lemma EmptyShape(m: Meta)
    requires Empty(m)
    ensures NChunks(m) == 0 && NBlocks(m) == 0 && TotalFrames(m) == 0
    ensures forall b: nat :: BlockK(m, b) == 0
  {
    assert Quot(m.chunk - 1, m.chunk) == 0;
    assert NChunks(m) == 0;
    assert Quot(m.block - 1, m.block) == 0;
  }

  // ----- the shape of a transfer

  /** Chunks and blocks cover the image, with only the last of each allowed to be short. */
  lemma Extent(m: Meta)
    requires Conforming(m)
    ensures 0 < NChunks(m) && (NChunks(m) - 1) * m.chunk < m.imgLen <= NChunks(m) * m.chunk
    ensures 0 < NBlocks(m) && (NBlocks(m) - 1) * m.block < NChunks(m) <= NBlocks(m) * m.block
  {
    hide Quot, Rem, U16;
    CeilDiv(m.imgLen, m.chunk);
    U16Small(Quot(m.imgLen + m.chunk - 1, m.chunk));
    CeilDiv(NChunks(m), m.block);
    U16Small(Quot(NChunks(m) + m.block - 1, m.block));
  }

  lemma U16Small(x: nat)
    requires x < 0x1_0000
    ensures U16(x) == x
  {
  }

  lemma ConformingBounds(m: Meta)
    requires Conforming(m)
    ensures 1 <= m.chunk <= 255 && 1 <= m.block <= 128 && BlockK(m, 0) + m.nParity <= 255
    ensures NChunks(m) < 0x1_0000 && NBlocks(m) * m.nParity < 0x1_0000
  {
    hide Quot, NBlocks, BlockK;
  }

  lemma BlockKAt(m: Meta, b: nat)
    requires Conforming(m) && b < NBlocks(m)
    ensures 1 <= BlockK(m, b) <= BlockK(m, 0) <= m.block
    ensures b < NBlocks(m) - 1 ==> BlockK(m, b) == m.block
    ensures b * m.block + BlockK(m, b) <= NChunks(m)
    ensures b == NBlocks(m) - 1 ==> b * m.block + BlockK(m, b) == NChunks(m)
  {
    hide Quot, Rem, NChunks, NBlocks;
    Extent(m);
    TimesMonotone(b, NBlocks(m) - 1, m.block);
    TimesMonotone(0, b, m.block);
    assert NBlocks(m) * m.block == (NBlocks(m) - 1) * m.block + m.block;
  }

  function Width(m: Meta): nat {
    m.block + m.nParity
  }

  lemma {:induction false} BeforeClosed(m: Meta, b: nat)
    requires Conforming(m) && b < NBlocks(m)
    ensures Before(m, b) == b * Width(m)
  {
    hide Quot, Rem, NChunks, NBlocks, BlockK, Conforming;
    if b > 0 {
      BeforeClosed(m, b - 1);
      BlockKAt(m, b - 1);
      assert b * Width(m) == (b - 1) * Width(m) + Width(m);
    }
  }

  lemma {:induction false} BlocksSum(m: Meta, b: nat)
    requires Conforming(m) && b <= NBlocks(m)
    ensures Before(m, b) == (if b == NBlocks(m) then NChunks(m) else b * m.block) + b * m.nParity
  {
    hide Quot, Rem, NChunks, NBlocks, BlockK, Conforming;
    Extent(m);
    if b > 0 {
      BlocksSum(m, b - 1);
      BlockKAt(m, b - 1);
      assert b * m.block == (b - 1) * m.block + m.block;
      assert b * m.nParity == (b - 1) * m.nParity + m.nParity;
    }
  }

  /** The blocks add up: source chunks to n_chunks, all frames to the announced total. */
  lemma BlocksCoverEverything(m: Meta)
    requires Conforming(m)
    ensures Before(m, NBlocks(m)) == TotalFrames(m)
  {
    hide Quot, Rem, NChunks, NBlocks, BlockK, Conforming;
    BlocksSum(m, NBlocks(m));
  }

  // ----- ordinals

  /** A DATA or PARITY frame by its number. */
  datatype FrameId = FrameId(seqNo: nat, parity: bool)

  /** The frame at place "slot" of block b: source chunks first, then parity. */
  function IdAt(m: Meta, b: nat, slot: nat): FrameId {
    if slot < BlockK(m, b) then FrameId(b * m.block + slot, false)
    else FrameId(b * m.nParity + (slot - BlockK(m, b)), true)
  }

  predicate Exists(m: Meta, id: FrameId) {
    if id.parity then m.nParity > 0 && id.seqNo < NBlocks(m) * m.nParity else id.seqNo < NChunks(m)
  }

  /** b is a block of the transfer and slot a place in it. */
  predicate IsPlace(m: Meta, b: nat, slot: nat) {
    b < NBlocks(m) && slot < BlockK(m, b) + m.nParity
  }

  predicate StandsAt(m: Meta, id: FrameId, b: nat, slot: nat) {
    && Exists(m, id)
    && BlockOf(m, id.seqNo, id.parity) == b && SlotOf(m, id.seqNo, id.parity) == slot
    && IsPlace(m, b, slot) && id == IdAt(m, b, slot)
  }

  lemma IdAtData(m: Meta, b: nat, slot: nat)
    requires Conforming(m) && b < NBlocks(m) && slot < BlockK(m, b)
    ensures StandsAt(m, IdAt(m, b, slot), b, slot)
  {
    hide Quot, Rem, NChunks, NBlocks, BlockK, Conforming;
    ConformingBounds(m);
    BlockKAt(m, b);
    SplitUnique(b * m.block + slot, m.block, b, slot);
  }

  lemma IdAtParity(m: Meta, b: nat, p: nat)
    requires Conforming(m) && b < NBlocks(m) && p < m.nParity
    ensures StandsAt(m, IdAt(m, b, BlockK(m, b) + p), b, BlockK(m, b) + p)
  {
    hide Quot, Rem, NChunks, NBlocks, BlockK, Conforming;
    SplitUnique(b * m.nParity + p, m.nParity, b, p);
    TimesMonotone(b, NBlocks(m), m.nParity);
  }

  lemma IdAtPlace(m: Meta, b: nat, slot: nat)
    requires Conforming(m) && IsPlace(m, b, slot)
    ensures StandsAt(m, IdAt(m, b, slot), b, slot)
  {
    hide NChunks, NBlocks, BlockK, Conforming, StandsAt, IdAt;
    if slot < BlockK(m, b) {
      IdAtData(m, b, slot);
    } else {
      IdAtParity(m, b, slot - BlockK(m, b));
    }
  }

  lemma PlaceOrdinal(m: Meta, b: nat, slot: nat)
    requires Conforming(m) && IsPlace(m, b, slot)
    ensures var id := IdAt(m, b, slot);
      && StandsAt(m, id, b, slot) && Ordinal(m, id.seqNo, id.parity) == Before(m, b) + slot < TotalFrames(m)
      && Width(m) > 0 && IdOfOrdinal(m, Before(m, b) + slot) == id
  {
    hide NChunks, NBlocks, BlockK, Quot, Rem, IdAt, Conforming, TotalFrames, Before;
    IdAtPlace(m, b, slot);
    OrderInvertsOrdinal(m, IdAt(m, b, slot));
  }

  /** Every frame that exists is at some place of some block. */
  lemma PlaceOfId(m: Meta, id: FrameId)
    requires Conforming(m) && Exists(m, id)
    ensures StandsAt(m, id, BlockOf(m, id.seqNo, id.parity), SlotOf(m, id.seqNo, id.parity))
  {
    hide Quot, Rem, NChunks, NBlocks, BlockK;
    Extent(m);
    if id.parity {
      QuotBelow(id.seqNo, m.nParity, NBlocks(m));
      Split(id.seqNo, m.nParity);
    } else {
      QuotBelow(id.seqNo, m.block, NBlocks(m));
      Split(id.seqNo, m.block);
      DataInBlock(m, Quot(id.seqNo, m.block), Rem(id.seqNo, m.block));
    }
  }

  lemma DataInBlock(m: Meta, b: nat, i: nat)
    requires b * m.block + i < NChunks(m) && i < m.block
    ensures i < BlockK(m, b)
  {
    hide NChunks;
  }

  /** Every chunk is in some block. */
  lemma BlockOfChunk(m: Meta, c: nat) returns (b: nat)
    requires Conforming(m) && c < NChunks(m)
    ensures b < NBlocks(m) && b * m.block <= c < b * m.block + BlockK(m, b)
  {
    hide Conforming, NChunks, NBlocks, BlockK;
    ConformingBounds(m);
    Extent(m);
    b := Quot(c, m.block);
    Split(c, m.block);
    QuotBelow(c, m.block, NBlocks(m));
    DataInBlock(m, b, Rem(c, m.block));
  }

  /** Block and place of the frame that is o-th in the sender's order. */
  function IdOfOrdinal(m: Meta, o: nat): FrameId
    requires Width(m) > 0
  {
    IdAt(m, Quot(o, Width(m)), Rem(o, Width(m)))
  }

  lemma OrdinalPlace(m: Meta, o: nat)
    requires Conforming(m) && o < TotalFrames(m)
    ensures Width(m) > 0
    ensures IsPlace(m, Quot(o, Width(m)), Rem(o, Width(m)))
    ensures o == Before(m, Quot(o, Width(m))) + Rem(o, Width(m))
  {
    hide Quot, Rem, NChunks, NBlocks, BlockK, Before, TotalFrames;
    var w, last := Width(m), NBlocks(m) - 1;
    TotalSplit(m);
    BlockKAt(m, last);
    assert NBlocks(m) * w == last * w + w;
    QuotBelow(o, w, NBlocks(m));
    Split(o, w);
    BlockKAt(m, Quot(o, w));
    BeforeClosed(m, Quot(o, w));
  }

  lemma TotalSplit(m: Meta)
    requires Conforming(m)
    ensures NBlocks(m) > 0
    ensures TotalFrames(m) == (NBlocks(m) - 1) * Width(m) + BlockK(m, NBlocks(m) - 1) + m.nParity
  {
    hide Quot, Rem, NChunks, NBlocks, BlockK, TotalFrames, Conforming;
    Extent(m);
    BlocksCoverEverything(m);
    BeforeClosed(m, NBlocks(m) - 1);
  }

  /** loraitp_frame_ordinal is the index of a frame in the sender's order, and onto 0 .. total - 1. */
  lemma OrdinalInvertsOrder(m: Meta, o: nat)
    requires Conforming(m) && o < TotalFrames(m)
    ensures Width(m) > 0
    ensures var id := IdOfOrdinal(m, o); Exists(m, id) && Ordinal(m, id.seqNo, id.parity) == o
  {
    hide Quot, Rem, NChunks, NBlocks, BlockK, Before, TotalFrames, IdAt, Conforming;
    OrdinalPlace(m, o);
    IdAtPlace(m, Quot(o, Width(m)), Rem(o, Width(m)));
  }

  lemma {:induction false} BeforeMonotone(m: Meta, b: nat, c: nat)
    requires b <= c
    ensures Before(m, b) <= Before(m, c)
  {
    hide BlockK;
    if b < c {
      BeforeMonotone(m, b, c - 1);
    }
  }

  /** ... and one-to-one: the frame with a given ordinal is the one the order puts there. */
  lemma OrderInvertsOrdinal(m: Meta, id: FrameId)
    requires Conforming(m) && Exists(m, id)
    ensures Width(m) > 0
    ensures var o := Ordinal(m, id.seqNo, id.parity); o < TotalFrames(m) && IdOfOrdinal(m, o) == id
  {
    hide Quot, Rem, NChunks, NBlocks, BlockK, TotalFrames, IdAt;
    PlaceOfId(m, id);
    var b, slot := BlockOf(m, id.seqNo, id.parity), SlotOf(m, id.seqNo, id.parity);
    BeforeClosed(m, b);
    BlockKAt(m, b);
    SplitUnique(Before(m, b) + slot, Width(m), b, slot);
    BlocksCoverEverything(m);
    BeforeMonotone(m, b + 1, NBlocks(m));
  }
}
