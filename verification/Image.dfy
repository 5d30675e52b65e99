/** An image cut into chunks and blocks, and the frames that carry it. */
module Image {
  import opened Bytes
  import opened Arithmetic
  import opened Frames
  import opened Linear
  import opened Erasure

  /** Chunk i of an image: chunk_len_at makes only the last one short. */
  function ChunkAt(m: Meta, image: seq<byte>, i: nat): (c: seq<byte>)
    ensures |c| <= m.chunk
  {
    var a := i * m.chunk;
    if a >= |image| then []
    else if |image| - a < m.chunk then image[a..]
    else image[a..a + m.chunk]
  }

  /** Chunk i is not empty, lies inside the image, and only the last one is short. */
  lemma ChunkBounds(m: Meta, image: seq<byte>, i: nat)
    requires Conforming(m) && |image| == m.imgLen && i < NChunks(m)
    ensures 0 <= i * m.chunk < m.imgLen
    ensures var c := ChunkAt(m, image, i);
      && 1 <= |c| && i * m.chunk + |c| <= m.imgLen && c == image[i * m.chunk..i * m.chunk + |c|]
      && (i + 1 < NChunks(m) ==> |c| == m.chunk)
      && (i + 1 == NChunks(m) ==> i * m.chunk + |c| == m.imgLen)
  {
    hide NChunks, NBlocks, Conforming;
    ConformingBounds(m);
    Extent(m);
    TimesMonotone(i, NChunks(m) - 1, m.chunk);
    assert NChunks(m) * m.chunk == (NChunks(m) - 1) * m.chunk + m.chunk;
  }

  function Pad(c: seq<byte>, len: nat): (p: seq<byte>)
    ensures |p| == len
    ensures forall j :: 0 <= j < len ==> p[j] == if j < |c| then c[j] else 0
  {
    seq(len, j requires 0 <= j < len => if j < |c| then c[j] else 0)
  }

  function PaddedChunk(m: Meta, image: seq<byte>, i: nat): (p: seq<byte>)
    ensures |p| == m.chunk
  {
    Pad(ChunkAt(m, image, i), m.chunk)
  }

  /** The chunks of block b, padded to equal length. */
  function BlockData(m: Meta, image: seq<byte>, b: nat): (d: Matrix)
    ensures |d| == BlockK(m, b)
    ensures forall i :: 0 <= i < |d| ==> d[i] == PaddedChunk(m, image, b * m.block + i)
    ensures Shape(d, BlockK(m, b), m.chunk)
  {
    seq(BlockK(m, b), i requires 0 <= i < BlockK(m, b) => PaddedChunk(m, image, b * m.block + i))
  }

  lemma BlockFits(m: Meta, b: nat)
    requires Conforming(m) && b < NBlocks(m)
    ensures 1 <= BlockK(m, b) && BlockK(m, b) + m.nParity <= 255
  {
    hide NChunks, NBlocks, BlockK;
    BlockKAt(m, b);
    ConformingBounds(m);
  }

  /** Frame "slot" of block b's codeword. */
  ghost function FrameRow(m: Meta, image: seq<byte>, b: nat, slot: nat): (row: seq<byte>)
    requires BlockK(m, b) + m.nParity <= 255 && slot < BlockK(m, b) + m.nParity
    ensures |row| == m.chunk
  {
    CodeFrame(BlockData(m, image, b), BlockK(m, b), m.nParity, m.chunk, slot)
  }

  /** What a DATA or PARITY frame carries: source chunks unpadded, parity whole. */
  ghost function Payload(m: Meta, image: seq<byte>, id: FrameId): (p: seq<byte>)
    requires Conforming(m) && Exists(m, id)
    ensures |p| <= m.chunk
  {
    PlaceOfId(m, id);
    BlockFits(m, BlockOf(m, id.seqNo, id.parity));
    if id.parity then FrameRow(m, image, BlockOf(m, id.seqNo, true), SlotOf(m, id.seqNo, true))
    else ChunkAt(m, image, id.seqNo)
  }

  /** Padded, a payload is its frame of the codeword. */
  lemma PaddedPayload(m: Meta, image: seq<byte>, id: FrameId)
    requires Conforming(m) && Exists(m, id)
    ensures BlockK(m, BlockOf(m, id.seqNo, id.parity)) + m.nParity <= 255
    ensures IsPlace(m, BlockOf(m, id.seqNo, id.parity), SlotOf(m, id.seqNo, id.parity))
    ensures Pad(Payload(m, image, id), m.chunk)
            == FrameRow(m, image, BlockOf(m, id.seqNo, id.parity), SlotOf(m, id.seqNo, id.parity))
  {
    hide NChunks, NBlocks, BlockK, Quot, Rem, CodeFrame, BlockData, ChunkAt, Conforming;
    PlaceOfId(m, id);
    var b, slot := BlockOf(m, id.seqNo, id.parity), SlotOf(m, id.seqNo, id.parity);
    BlockFits(m, b);
    if !id.parity {
      PlaceOfData(m, id, b, slot);
      Systematic(BlockData(m, image, b), BlockK(m, b), m.nParity, m.chunk, slot);
    }
  }

  lemma PlaceOfData(m: Meta, id: FrameId, b: nat, slot: nat)
    requires Conforming(m) && StandsAt(m, id, b, slot) && !id.parity
    ensures slot < BlockK(m, b) && id.seqNo == b * m.block + slot
  {
    hide NChunks, NBlocks, BlockK, Quot, Rem, Conforming;
  }

  // ----- the image store

  function WriteAt(store: seq<byte>, off: nat, data: seq<byte>): (s: seq<byte>)
    requires off + |data| <= |store|
    ensures |s| == |store|
    ensures s[off..off + |data|] == data
    ensures forall x :: 0 <= x < |store| && !(off <= x < off + |data|) ==> s[x] == store[x]
  {
    store[..off] + data + store[off + |data|..]
  }

  /** Chunk i of the store is chunk i of the image. */
  predicate Holds(store: seq<byte>, m: Meta, image: seq<byte>, i: nat) {
    ChunkAt(m, store, i) == ChunkAt(m, image, i)
  }

  /** Writing one chunk leaves the others as they were. */
  lemma WriteChunk(store: seq<byte>, m: Meta, image: seq<byte>, i: nat)
    requires Conforming(m) && |image| == |store| == m.imgLen && i < NChunks(m)
    ensures 0 <= i * m.chunk && i * m.chunk + |ChunkAt(m, image, i)| <= m.imgLen
    ensures var s := WriteAt(store, i * m.chunk, ChunkAt(m, image, i));
      && Holds(s, m, image, i)
      && forall j :: 0 <= j < NChunks(m) && Holds(store, m, image, j) ==> Holds(s, m, image, j)
  {
    hide NChunks, NBlocks, Conforming, WriteAt, ChunkAt;
    ChunkBounds(m, image, i);
    var s := WriteAt(store, i * m.chunk, ChunkAt(m, image, i));
    ChunkBounds(m, s, i);
    SameChunkLength(m, s, image, i);
    SameChunkLength(m, store, image, i);
    forall j | 0 <= j < NChunks(m) && j != i ensures ChunkAt(m, s, j) == ChunkAt(m, store, j) {
      ChunkUntouched(m, store, s, i, j);
    }
  }

  lemma SameChunkLength(m: Meta, x: seq<byte>, y: seq<byte>, i: nat)
    requires |x| == |y|
    ensures |ChunkAt(m, x, i)| == |ChunkAt(m, y, i)|
  {
  }

  lemma ChunkUntouched(m: Meta, x: seq<byte>, y: seq<byte>, i: nat, j: nat)
    requires Conforming(m) && |x| == |y| == m.imgLen && i < NChunks(m) && j < NChunks(m) && i != j
    requires forall t :: 0 <= t < |x| && !(i * m.chunk <= t < i * m.chunk + |ChunkAt(m, x, i)|) ==> y[t] == x[t]
    ensures ChunkAt(m, y, j) == ChunkAt(m, x, j)
  {
    hide NChunks, NBlocks, Conforming, ChunkAt;
    ChunkBounds(m, x, i);
    ChunkBounds(m, x, j);
    ChunkBounds(m, y, j);
    SameChunkLength(m, x, y, j);
    if i < j {
      TimesMonotone(i, j, m.chunk);
    } else {
      TimesMonotone(j, i, m.chunk);
    }
  }

  /** A store that holds every chunk is the image. */
  lemma AllHeldIsImage(store: seq<byte>, m: Meta, image: seq<byte>)
    requires Conforming(m) && |image| == |store| == m.imgLen
    requires forall i :: 0 <= i < NChunks(m) ==> Holds(store, m, image, i)
    ensures store == image
  {
    hide NChunks, NBlocks, Conforming, Quot, Rem, ChunkAt;
    forall x | 0 <= x < m.imgLen ensures store[x] == image[x] {
      ConformingBounds(m);
      var i := ChunkOf(m, x);
      ChunkBounds(m, store, i);
      ChunkBounds(m, image, i);
      SameChunkLength(m, store, image, i);
      assert Holds(store, m, image, i);
      assert ChunkAt(m, store, i)[x - i * m.chunk] == ChunkAt(m, image, i)[x - i * m.chunk];
    }
  }

  lemma ChunkOf(m: Meta, x: nat) returns (i: nat)
    requires Conforming(m) && x < m.imgLen
    ensures i < NChunks(m) && i * m.chunk <= x < i * m.chunk + m.chunk
  {
    hide NChunks, NBlocks, Conforming, Quot, Rem;
    ConformingBounds(m);
    Extent(m);
    i := Quot(x, m.chunk);
    Split(x, m.chunk);
    QuotBelow(x, m.chunk, NChunks(m));
  }
}
