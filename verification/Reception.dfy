/** What the receiver keeps while genuine frames of one image arrive: its buffer, its store, its counts. */
module Reception {
  import opened Bytes
  import opened Frames
  import opened Image
  import opened Linear
  import opened Erasure
  import opened Receiver

  /** The receiver is inside a transfer of m, with room for a block when it uses erasure coding. */
  ghost predicate InTransfer(rx: Rx, m: Meta) {
    && Conforming(m) && rx.haveMeta && rx.meta == m && rx.outcome == Listening
    && |rx.present| == PRESENT && |rx.store| == m.imgLen && rx.total == NChunks(m)
    && rx.cur < NBlocks(m)
    && (rx.fecOk ==> Shape(rx.buf, BlockK(m, 0) + m.nParity, m.chunk))
  }

  /** Row i of the block buffer is the frame sent there. */
  ghost predicate RowGenuine(rx: Rx, m: Meta, image: seq<byte>, i: nat) {
    && BlockK(m, rx.cur) + m.nParity <= 255 && i < BlockK(m, rx.cur) + m.nParity && i < |rx.buf|
    && rx.buf[i] == FrameRow(m, image, rx.cur, i)
  }

  /** Every frame in the block buffer is the one sent. */
  ghost predicate BufferGenuine(rx: Rx, m: Meta, image: seq<byte>) {
    forall i :: 0 <= i < |rx.present| && i < Slots(rx) && rx.present[i] ==> RowGenuine(rx, m, image, i)
  }

  lemma InTransferBounds(rx: Rx, m: Meta)
    requires InTransfer(rx, m)
    ensures 1 <= BlockK(m, rx.cur) <= BlockK(m, 0) && BlockK(m, 0) + m.nParity <= 255
    ensures Base(rx) + BlockK(m, rx.cur) <= NChunks(m) < 0x1_0000
    ensures Slots(rx) == BlockK(m, rx.cur) + m.nParity <= 255
  {
    hide NChunks, NBlocks, BlockK, Conforming;
    BlockKAt(m, rx.cur);
    ConformingBounds(m);
  }

  // ----- the erasure decoder inside flush_block

  /** Genuine frames decode to the block's data. */
  lemma DecodedIsData(frames: Matrix, present: seq<bool>, data: Matrix, k: nat, r: nat, len: nat)
    requires k + r <= 255 && |present| == k + r && Shape(frames, k + r, len) && Shape(data, k, len)
    requires CountPresent(present, k + r) >= k
    requires Consistent(frames, present, data, k, r, len)
    ensures Decoded(frames, present, k, r, len) == data
  {
    hide CodeFrame, CountPresent, Picked;
    PickedFrames(present, k + r, k);
    PickedSelection(present, k, r);
    var idx := Picked(present, k + r, k);
    assert Explains(data, frames, present, k, r, len);
    var d := Decoded(frames, present, k, r, len);
    assert Explains(d, frames, present, k, r, len);
    forall p | 0 <= p < k ensures CodeFrame(d, k, r, len, idx[p]) == CodeFrame(data, k, r, len, idx[p]) {
      assert idx[p] in idx;
    }
    AnyKFramesDetermineTheBlock(d, data, k, r, len, idx);
  }

  lemma {:induction false} CountSlice(present: seq<bool>, n: nat, i: nat)
    requires i <= n <= |present|
    ensures CountPresent(present[..n], i) == CountPresent(present, i)
  {
    if i > 0 {
      CountSlice(present, n, i - 1);
    }
  }

  lemma {:induction false} CountAll(present: seq<bool>, k: nat, n: nat)
    requires k <= n <= |present|
    ensures AllPresent(present, k) ==> CountPresent(present, n) >= k
    ensures CountPresent(present, k) <= CountPresent(present, n)
  {
    if n > k {
      CountAll(present, k, n - 1);
    } else if n > 0 {
      if AllPresent(present, k) {
        assert AllPresent(present, k - 1);
      }
      CountAll(present, k - 1, k - 1);
    }
  }

  // ----- writing a block out

  /** The row of a source frame, cut to its chunk's length, is the chunk. */
  lemma RowIsChunk(m: Meta, image: seq<byte>, store: seq<byte>, no: nat)
    requires Conforming(m) && |image| == |store| == m.imgLen && no < NChunks(m)
    ensures |ChunkAt(m, store, no)| <= m.chunk
    ensures PaddedChunk(m, image, no)[..|ChunkAt(m, store, no)|] == ChunkAt(m, image, no)
  {
    hide NChunks, NBlocks, BlockK, Conforming, ChunkAt;
    SameChunkLength(m, store, image, no);
  }

  /** Rows 0 .. k-1 of the buffer are the padded chunks of block cur, all present. */
  ghost predicate BlockReady(rx: Rx, m: Meta, image: seq<byte>, k: nat) {
    && k <= |rx.present| && k <= |rx.buf|
    && forall i :: 0 <= i < k ==> rx.present[i] && rx.buf[i] == PaddedChunk(m, image, Base(rx) + i)
  }

  lemma SameBase(rx: Rx, w: Rx)
    requires w.cur == rx.cur && w.meta == rx.meta
    ensures Base(w) == Base(rx) && Slots(w) == Slots(rx)
  {
  }

  /** A block whose frames are genuine and of which at least k are present. */
  ghost predicate Recoverable(rx: Rx, m: Meta, image: seq<byte>) {
    && InTransfer(rx, m) && |image| == m.imgLen && BufferGenuine(rx, m, image)
    && HaveInBlock(rx) >= BlockK(m, rx.cur)
  }

  lemma DecodedBlockReady(rx: Rx, m: Meta, image: seq<byte>)
    requires Recoverable(rx, m, image) && rx.fecOk && CanDecode(rx)
    ensures Decoded(rx.buf[..Slots(rx)], rx.present[..Slots(rx)], BlockK(m, rx.cur), m.nParity, m.chunk)
            == BlockData(m, image, rx.cur)
  {
    hide NChunks, NBlocks, BlockK, Conforming, CodeFrame, BlockData, CountPresent, Decoded;
    InTransferBounds(rx, m);
    var k, n := BlockK(m, rx.cur), Slots(rx);
    var data := BlockData(m, image, rx.cur);
    CountSlice(rx.present, n, n);
    forall i | 0 <= i < n && rx.present[..n][i] ensures rx.buf[..n][i] == CodeFrame(data, k, m.nParity, m.chunk, i) {
      assert RowGenuine(rx, m, image, i);
    }
    DecodedIsData(rx.buf[..n], rx.present[..n], data, k, m.nParity, m.chunk);
  }

  lemma DecodedReady(rx: Rx, m: Meta, image: seq<byte>)
    requires InTransfer(rx, m) && rx.fecOk
    ensures var k := BlockK(m, rx.cur);
      && k <= |rx.buf| && |BlockData(m, image, rx.cur)| == k
      && BlockReady(rx.(buf := BlockData(m, image, rx.cur) + rx.buf[k..], present := MarkAll(rx.present, k)), m, image, k)
      && Shape(BlockData(m, image, rx.cur) + rx.buf[k..], BlockK(m, 0) + m.nParity, m.chunk)
  {
    hide NChunks, NBlocks, BlockK, Conforming, PaddedChunk;
    InTransferBounds(rx, m);
  }

  /** Without parity, having k of the k frames is having them all. */
  lemma {:induction false} NoParityAll(present: seq<bool>, k: nat, n: nat)
    requires k <= n <= |present| && CountPresent(present, n) >= k
    ensures n == k ==> AllPresent(present, k)
  {
    if n == k && k > 0 {
      NoParityAll(present, k - 1, k - 1);
      assert AllPresent(present, k - 1);
    }
  }
}
