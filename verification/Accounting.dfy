/**
  What a receiver has stored, in either mode and whatever is lost: every chunk counted is the image's,
  every other one is still blank, and the count is exact.
*/
module Accounting {
  import opened Bytes
  import opened Frames
  import opened Image
  import opened Linear
  import opened Erasure
  import Layout
  import opened Receiver
  import opened Reception

  /** Chunk c of the store is as the fresh store had it. */
  ghost predicate Blank(store: seq<byte>, m: Meta, c: nat) {
    forall j :: 0 <= j < |ChunkAt(m, store, c)| ==> ChunkAt(m, store, c)[j] == 0
  }

  ghost predicate TracksAt(store: seq<byte>, m: Meta, image: seq<byte>, got: set<nat>, c: nat) {
    if c in got then Holds(store, m, image, c) else Blank(store, m, c)
  }

  /** The chunks in "got" are stored and no other chunk has been touched. */
  ghost predicate Tracks(store: seq<byte>, m: Meta, image: seq<byte>, got: set<nat>) {
    && Conforming(m) && |image| == |store| == m.imgLen
    && (forall c :: c in got ==> c < NChunks(m))
    && (forall c :: 0 <= c < NChunks(m) ==> TracksAt(store, m, image, got, c))
  }

  ghost predicate Below(got: set<nat>, n: nat) {
    forall c :: c in got ==> c < n
  }

  /** A listening receiver whose stored and counted chunks are exactly those in "got". */
  ghost predicate Accounted(rx: Rx, m: Meta, image: seq<byte>, got: set<nat>) {
    && InTransfer(rx, m) && |image| == m.imgLen && Tracks(rx.store, m, image, got) && rx.have == |got|
    && (if rx.fecOk then BufferGenuine(rx, m, image) && Below(got, Base(rx))
        else Below(got, Base(rx) + BlockK(m, rx.cur)) && StoredAsHeard(rx, got))
  }

  /** Without erasure coding, a mark in the bitmap means the chunk is in the store. */
  ghost predicate StoredAsHeard(rx: Rx, got: set<nat>) {
    forall i :: 0 <= i < BlockK(rx.meta, rx.cur) && i < |rx.present| ==> HeardStored(rx, got, i)
  }

  ghost predicate HeardStored(rx: Rx, got: set<nat>, i: nat)
    requires i < |rx.present|
  {
    rx.present[i] <==> Base(rx) + i in got
  }

  /** A receiver that has stopped. */
  ghost predicate Closed(rx: Rx, m: Meta, image: seq<byte>, got: set<nat>) {
    rx.outcome != Listening && rx.total == NChunks(m) && Tracks(rx.store, m, image, got) && rx.have == |got|
  }

  // ----- counting

  ghost function UpTo(n: nat): (s: set<nat>)
    ensures forall c :: c in s <==> 0 <= c < n
  {
    if n == 0 then {} else UpTo(n - 1) + {n - 1}
  }

  lemma {:induction false} UpToCount(n: nat)
    ensures |UpTo(n)| == n
  {
    if n > 0 {
      UpToCount(n - 1);
    }
  }

  lemma {:induction false} SubsetCount(a: set<nat>, b: set<nat>)
    requires a <= b
    ensures |a| <= |b| && (|a| == |b| ==> a == b)
    decreases |b|
  {
    if b != {} {
      var x :| x in b;
      if x in a {
        SubsetCount(a - {x}, b - {x});
        assert a == a - {x} + {x} && b == b - {x} + {x};
      } else {
        SubsetCount(a, b - {x});
      }
    }
  }

  /** At most n_chunks chunks are counted, and n_chunks means all of them. */
  lemma CountedAll(got: set<nat>, n: nat)
    requires Below(got, n)
    ensures |got| <= n && (|got| == n <==> got == UpTo(n))
  {
    UpToCount(n);
    SubsetCount(got, UpTo(n));
  }

  /** Everything counted is the whole image. */
  lemma WholeIsImage(store: seq<byte>, m: Meta, image: seq<byte>, got: set<nat>)
    requires Tracks(store, m, image, got)
    ensures |got| <= NChunks(m) < 0x1_0000
    ensures |got| == NChunks(m) ==> store == image
  {
    hide NChunks, NBlocks, Conforming, Holds, Blank, ChunkAt;
    ConformingBounds(m);
    CountedAll(got, NChunks(m));
    if |got| == NChunks(m) {
      forall c | 0 <= c < NChunks(m) ensures Holds(store, m, image, c) {
        assert TracksAt(store, m, image, got, c);
      }
      AllHeldIsImage(store, m, image);
    }
  }

  // ----- one chunk stored

  lemma StoreOne(store: seq<byte>, m: Meta, image: seq<byte>, got: set<nat>, no: nat)
    requires Tracks(store, m, image, got) && no < NChunks(m)
    ensures Tracks(Put(store, no * m.chunk, ChunkAt(m, image, no)), m, image, got + {no})
  {
    hide NChunks, NBlocks, Conforming, Holds, ChunkAt, WriteAt, Blank;
    WriteChunk(store, m, image, no);
    OthersUntouched(store, m, image, no);
    var s := Put(store, no * m.chunk, ChunkAt(m, image, no));
    forall c | 0 <= c < NChunks(m) ensures TracksAt(s, m, image, got + {no}, c) {
      assert TracksAt(store, m, image, got, c);
      if c != no {
        SameChunkSame(store, s, m, c);
      }
    }
  }

  lemma SameChunkSame(x: seq<byte>, y: seq<byte>, m: Meta, c: nat)
    requires ChunkAt(m, x, c) == ChunkAt(m, y, c)
    ensures Blank(x, m, c) <==> Blank(y, m, c)
  {
    hide ChunkAt;
  }

  lemma OthersUntouched(store: seq<byte>, m: Meta, image: seq<byte>, no: nat)
    requires Conforming(m) && |image| == |store| == m.imgLen && no < NChunks(m)
    ensures forall c :: 0 <= c < NChunks(m) && c != no ==>
              ChunkAt(m, Put(store, no * m.chunk, ChunkAt(m, image, no)), c) == ChunkAt(m, store, c)
  {
    hide NChunks, NBlocks, Conforming, ChunkAt, WriteAt;
    WriteChunk(store, m, image, no);
    SameChunkLength(m, store, image, no);
    var s := Put(store, no * m.chunk, ChunkAt(m, image, no));
    forall c | 0 <= c < NChunks(m) && c != no ensures ChunkAt(m, s, c) == ChunkAt(m, store, c) {
      ChunkUntouched(m, store, s, no, c);
    }
  }

  // ----- the output loop of flush_block

  /** The chunks of the current block whose place among the first n is marked. */
  ghost function Marked(rx: Rx, n: nat): (s: set<nat>) {
    if n == 0 then {}
    else if n - 1 < |rx.present| && rx.present[n - 1] then Marked(rx, n - 1) + {Base(rx) + (n - 1)}
    else Marked(rx, n - 1)
  }

  /** Marked source rows of the buffer are the padded chunks. */
  ghost predicate SourcesGenuine(rx: Rx, m: Meta, image: seq<byte>, n: nat) {
    && n <= |rx.present| && n <= |rx.buf|
    && forall i :: 0 <= i < n && rx.present[i] ==> rx.buf[i] == PaddedChunk(m, image, Base(rx) + i)
  }

  lemma {:induction false} MarkedRange(rx: Rx, n: nat)
    requires n <= |rx.present|
    ensures forall c :: c in Marked(rx, n) ==> Base(rx) <= c < Base(rx) + n && rx.present[c - Base(rx)]
    ensures forall i :: 0 <= i < n && rx.present[i] ==> Base(rx) + i in Marked(rx, n)
  {
    hide Base;
    if n > 0 {
      MarkedRange(rx, n - 1);
    }
  }

  /** The output loop after n chunks. */
  ghost predicate WrittenOut(rx: Rx, w: Rx, m: Meta, image: seq<byte>, got: set<nat>, n: nat) {
    && w == rx.(store := w.store, have := w.have)
    && Tracks(w.store, m, image, got + Marked(rx, n)) && w.have == |got + Marked(rx, n)|
    && Below(got + Marked(rx, n), Base(rx) + n)
  }

  lemma {:induction false} WriteOutAccounts(rx: Rx, m: Meta, image: seq<byte>, got: set<nat>, n: nat)
    requires rx.meta == m && Tracks(rx.store, m, image, got) && rx.have == |got| && Below(got, Base(rx))
    requires SourcesGenuine(rx, m, image, n) && Base(rx) + n <= NChunks(m)
    ensures WrittenOut(rx, WriteOut(rx, n), m, image, got, n)
  {
    hide NChunks, Base, Tracks, SourcesGenuine, StoreRow, WrittenOut;
    if n == 0 {
      NothingWritten(rx, m, image, got);
    } else {
      SourceGenuineAt(rx, m, image, n);
      WriteOutAccounts(rx, m, image, got, n - 1);
      StoreRowAccounts(rx, WriteOut(rx, n - 1), m, image, got, n);
    }
  }

  lemma NothingWritten(rx: Rx, m: Meta, image: seq<byte>, got: set<nat>)
    requires Tracks(rx.store, m, image, got) && rx.have == |got| && Below(got, Base(rx))
    ensures WrittenOut(rx, rx, m, image, got, 0)
  {
    hide Tracks, Base;
    assert got + Marked(rx, 0) == got;
  }

  lemma StoreRowAccounts(rx: Rx, w: Rx, m: Meta, image: seq<byte>, got: set<nat>, n: nat)
    requires n > 0 && WrittenOut(rx, w, m, image, got, n - 1) && rx.meta == m && Base(rx) + n <= NChunks(m)
    requires n <= |rx.present| && n <= |rx.buf|
    requires rx.present[n - 1] ==> rx.buf[n - 1] == PaddedChunk(m, image, Base(rx) + (n - 1))
    ensures WrittenOut(rx, StoreRow(w, n - 1), m, image, got, n)
  {
    hide NChunks, NBlocks, BlockK, Conforming, ChunkAt, PaddedChunk, Holds, U16, Base, Put, Tracks;
    SameBase(rx, w);
    if rx.present[n - 1] {
      var all := got + Marked(rx, n - 1);
      WriteOne(w, m, image, all, Base(rx) + (n - 1), n);
      assert got + Marked(rx, n) == all + {Base(rx) + (n - 1)};
    }
  }

  lemma SourceGenuineAt(rx: Rx, m: Meta, image: seq<byte>, n: nat)
    requires SourcesGenuine(rx, m, image, n) && n > 0
    ensures SourcesGenuine(rx, m, image, n - 1) && n <= |rx.present| && n <= |rx.buf|
    ensures rx.present[n - 1] ==> rx.buf[n - 1] == PaddedChunk(m, image, Base(rx) + (n - 1))
  {
    hide PaddedChunk, Base;
  }

  lemma WriteOne(w: Rx, m: Meta, image: seq<byte>, all: set<nat>, no: nat, n: nat)
    requires w.meta == m && Tracks(w.store, m, image, all) && w.have == |all| && Below(all, no) && no < NChunks(m)
    requires 0 < n <= |w.buf| && w.buf[n - 1] == PaddedChunk(m, image, no)
    ensures var len, row := |ChunkAt(m, w.store, no)|, w.buf[n - 1];
      && len <= |row| && row[..len] == ChunkAt(m, image, no)
      && Tracks(Put(w.store, no * m.chunk, row[..len]), m, image, all + {no})
      && U16(w.have + 1) == |all + {no}|
  {
    hide NChunks, NBlocks, BlockK, Conforming, ChunkAt, PaddedChunk, Holds, U16, Put, Blank;
    WholeIsImage(w.store, m, image, all);
    RowIsChunk(m, image, w.store, no);
    StoreOne(w.store, m, image, all, no);
    CountedAll(all, no);
    U16Small(w.have + 1);
  }

  // ----- flush_block

  lemma BufferSources(rx: Rx, m: Meta, image: seq<byte>)
    requires InTransfer(rx, m) && rx.fecOk && |image| == m.imgLen && BufferGenuine(rx, m, image)
    ensures SourcesGenuine(rx, m, image, BlockK(m, rx.cur))
  {
    hide NChunks, NBlocks, BlockK, Conforming, CodeFrame, PaddedChunk;
    InTransferBounds(rx, m);
    forall i | 0 <= i < BlockK(m, rx.cur) && rx.present[i]
      ensures rx.buf[i] == PaddedChunk(m, image, Base(rx) + i)
    {
      assert RowGenuine(rx, m, image, i);
      Systematic(BlockData(m, image, rx.cur), BlockK(m, rx.cur), m.nParity, m.chunk, i);
    }
  }

  /** What flush_block leaves: the store tracks "got", the bookkeeping of the block is as it was. */
  ghost predicate Flushed(rx: Rx, f: Rx, m: Meta, image: seq<byte>, got: set<nat>) {
    && f == rx.(buf := f.buf, present := f.present, store := f.store, have := f.have, lost := f.lost)
    && Tracks(f.store, m, image, got) && f.have == |got| && Below(got, Base(rx) + BlockK(m, rx.cur))
    && |f.store| == m.imgLen && |f.present| == PRESENT && (rx.fecOk ==> Shape(f.buf, BlockK(m, 0) + m.nParity, m.chunk))
  }

  /** The whole current block is counted. */
  ghost predicate BlockCounted(rx: Rx, got: set<nat>) {
    forall c :: Base(rx) <= c < Base(rx) + BlockK(rx.meta, rx.cur) ==> c in got
  }

  /** Only chunks from base on have been added. */
  ghost predicate AddedFrom(got: set<nat>, got': set<nat>, base: nat) {
    got <= got' && forall c :: c in got' && c < base ==> c in got
  }

  /** Every source chunk marked present is counted. */
  ghost predicate MarksCounted(rx: Rx, got: set<nat>) {
    forall i :: 0 <= i < BlockK(rx.meta, rx.cur) && i < |rx.present| && rx.present[i] ==> Base(rx) + i in got
  }

  /** The block can be had whole: every chunk heard, or enough frames to decode. */
  ghost predicate HasBlock(rx: Rx) {
    AllPresent(rx.present, BlockK(rx.meta, rx.cur))
    || (rx.fecOk && HaveInBlock(rx) >= BlockK(rx.meta, rx.cur))
  }

  lemma FlushAccounts(rx: Rx, m: Meta, image: seq<byte>, got: set<nat>) returns (got': set<nat>)
    requires Accounted(rx, m, image, got)
    ensures Flushed(rx, Flush(rx), m, image, got') && AddedFrom(got, got', Base(rx))
    ensures BlockCounted(rx, got') <==> HasBlock(rx)
    ensures MarksCounted(rx, got')
    ensures Flush(rx).lost == if HasBlock(rx) then rx.lost else U16(rx.lost + 1)
  {
    hide NChunks, NBlocks, BlockK, Conforming, Holds, WriteOut, Tracks, BufferGenuine, Base, HaveInBlock, U16, Flush, CanDecode,
         BlockCounted, AllPresent, MarksCounted;
    InTransferBounds(rx, m);
    if !rx.fecOk {
      got' := got;
      FlushBare(rx);
      HeardIsCounted(rx, m, image, got);
    } else if CanDecode(rx) {
      got' := FlushDecoded(rx, m, image, got);
    } else {
      got' := FlushPlain(rx, m, image, got);
    }
  }

  lemma HeardIsCounted(rx: Rx, m: Meta, image: seq<byte>, got: set<nat>)
    requires Accounted(rx, m, image, got) && !rx.fecOk
    ensures MarksCounted(rx, got)
    ensures BlockCounted(rx, got) <==> AllPresent(rx.present, BlockK(m, rx.cur))
  {
    hide NChunks, NBlocks, BlockK, Conforming, Tracks, BufferGenuine, Base;
    InTransferBounds(rx, m);
    forall i | 0 <= i < BlockK(m, rx.cur) ensures HeardStored(rx, got, i) {
    }
    forall i | 0 <= i < BlockK(m, rx.cur) && rx.present[i] ensures Base(rx) + i in got {
      assert HeardStored(rx, got, i);
    }
    if AllPresent(rx.present, BlockK(m, rx.cur)) {
      forall c | Base(rx) <= c < Base(rx) + BlockK(m, rx.cur) ensures c in got {
        assert HeardStored(rx, got, c - Base(rx));
      }
    }
    if BlockCounted(rx, got) {
      forall i | 0 <= i < BlockK(m, rx.cur) ensures rx.present[i] {
        assert Base(rx) + i in got && HeardStored(rx, got, i);
      }
    }
  }

  /** flush_block without erasure coding: nothing to write, only a loss to count. */
  lemma FlushBare(rx: Rx)
    requires !rx.fecOk && BlockK(rx.meta, rx.cur) > 0
    ensures Flush(rx) == rx.(lost := if AllPresent(rx.present, BlockK(rx.meta, rx.cur)) then rx.lost else U16(rx.lost + 1))
  {
    hide BlockK, WriteOut, AllPresent, U16;
  }

  /** flush_block without decoding, as an equation. */
  lemma FlushPlainIs(rx: Rx)
    requires rx.fecOk && !CanDecode(rx) && BlockK(rx.meta, rx.cur) > 0
    ensures var k, w := BlockK(rx.meta, rx.cur), WriteOut(rx, BlockK(rx.meta, rx.cur));
      Flush(rx) == w.(lost := if AllPresent(rx.present, k) then w.lost else U16(w.lost + 1))
  {
    hide BlockK, WriteOut, CanDecode, AllPresent, U16;
  }

  /** flush_block with decoding, as an equation. */
  lemma FlushDecodedIs(rx: Rx)
    requires rx.fecOk && CanDecode(rx) && BlockK(rx.meta, rx.cur) > 0
    ensures var k, n := BlockK(rx.meta, rx.cur), Slots(rx);
      && k <= n <= |rx.buf| && n <= |rx.present|
      && Flush(rx) == WriteOut(rx.(buf := Decoded(rx.buf[..n], rx.present[..n], k, rx.meta.nParity, rx.meta.chunk)
                                          + rx.buf[k..],
                                   present := MarkAll(rx.present, k)), k)
  {
    hide BlockK, WriteOut, AllPresent, U16, Decoded, MarkAll;
  }

  lemma TracksLength(store: seq<byte>, m: Meta, image: seq<byte>, got: set<nat>)
    requires Tracks(store, m, image, got)
    ensures |store| == m.imgLen
  {
    hide NChunks, Conforming;
  }

  /** All marked means all counted; a block that is not all marked is not all counted. */
  lemma MarkedBlock(rx: Rx, got: set<nat>)
    requires BlockK(rx.meta, rx.cur) <= |rx.present| && Below(got, Base(rx))
    ensures BlockCounted(rx, got + Marked(rx, BlockK(rx.meta, rx.cur)))
            <==> AllPresent(rx.present, BlockK(rx.meta, rx.cur))
  {
    hide BlockK, Base, Marked;
    var k := BlockK(rx.meta, rx.cur);
    MarkedRange(rx, k);
    var all := got + Marked(rx, k);
    if BlockCounted(rx, all) {
      forall i | 0 <= i < k ensures rx.present[i] {
        assert Base(rx) + i in all;
      }
    }
    if AllPresent(rx.present, k) {
      forall c | Base(rx) <= c < Base(rx) + k ensures c in all {
        assert rx.present[c - Base(rx)];
      }
    }
  }

  lemma MarkedAreCounted(rx: Rx, got: set<nat>)
    requires BlockK(rx.meta, rx.cur) <= |rx.present|
    ensures MarksCounted(rx, got + Marked(rx, BlockK(rx.meta, rx.cur)))
  {
    hide BlockK, Base, Marked;
    MarkedRange(rx, BlockK(rx.meta, rx.cur));
  }

  lemma WholeCountsMarks(rx: Rx, got: set<nat>)
    ensures BlockCounted(rx, got) ==> MarksCounted(rx, got)
  {
    hide BlockK, Base;
  }

  lemma FlushPlain(rx: Rx, m: Meta, image: seq<byte>, got: set<nat>) returns (got': set<nat>)
    requires Accounted(rx, m, image, got) && rx.fecOk && !CanDecode(rx)
    ensures Flushed(rx, Flush(rx), m, image, got') && AddedFrom(got, got', Base(rx))
    ensures BlockCounted(rx, got') <==> HasBlock(rx)
    ensures MarksCounted(rx, got')
    ensures Flush(rx).lost == if HasBlock(rx) then rx.lost else U16(rx.lost + 1)
  {
    hide NChunks, NBlocks, BlockK, Conforming, Flush, WriteOut, Tracks, BufferGenuine, Base, U16, Marked, CountPresent,
         AllPresent, SourcesGenuine, BlockCounted, MarksCounted;
    InTransferBounds(rx, m);
    MarkedAreCounted(rx, got);
    got' := got + Marked(rx, BlockK(m, rx.cur));
    BufferSources(rx, m, image);
    WriteOutAccounts(rx, m, image, got, BlockK(m, rx.cur));
    FlushPlainIs(rx);
    TracksLength(Flush(rx).store, m, image, got');
    MarkedBlock(rx, got);
    MarkedRange(rx, BlockK(m, rx.cur));
    if HaveInBlock(rx) >= BlockK(m, rx.cur) {
      NoParityAll(rx.present, BlockK(m, rx.cur), Slots(rx));
    }
  }

  lemma FlushDecoded(rx: Rx, m: Meta, image: seq<byte>, got: set<nat>) returns (got': set<nat>)
    requires Accounted(rx, m, image, got) && rx.fecOk && CanDecode(rx)
    ensures Flushed(rx, Flush(rx), m, image, got') && AddedFrom(got, got', Base(rx))
    ensures BlockCounted(rx, got') && HasBlock(rx) && MarksCounted(rx, got')
    ensures Flush(rx).lost == rx.lost
  {
    hide NChunks, NBlocks, BlockK, Conforming, Flush, WriteOut, Tracks, BufferGenuine, Base, U16, Decoded, BlockData,
         HaveInBlock, PaddedChunk, Marked, CountPresent, AllPresent, SourcesGenuine, BlockCounted, BlockReady, MarksCounted;
    InTransferBounds(rx, m);
    var k := BlockK(m, rx.cur);
    DecodedBlockReady(rx, m, image);
    DecodedReady(rx, m, image);
    var d := rx.(buf := BlockData(m, image, rx.cur) + rx.buf[k..], present := MarkAll(rx.present, k));
    SameBase(rx, d);
    ReadySources(d, m, image, k);
    got' := got + Marked(d, k);
    WriteOutAccounts(d, m, image, got, k);
    FlushDecodedIs(rx);
    TracksLength(Flush(rx).store, m, image, got');
    MarkedBlock(d, got);
    MarkedRange(d, k);
    CountedSame(rx, d, got');
    WholeCountsMarks(rx, got');
  }

  lemma ReadySources(d: Rx, m: Meta, image: seq<byte>, k: nat)
    requires BlockReady(d, m, image, k)
    ensures SourcesGenuine(d, m, image, k) && AllPresent(d.present, k)
  {
    hide PaddedChunk;
  }

  lemma CountedSame(rx: Rx, d: Rx, got: set<nat>)
    requires d.meta == rx.meta && d.cur == rx.cur
    ensures BlockCounted(d, got) <==> BlockCounted(rx, got)
  {
    hide BlockK, Base;
    SameBase(rx, d);
  }

  // ----- the first META

  /** With nothing marked there is nothing to be wrong about. */
  lemma FreshBlock(n: Rx, m: Meta, image: seq<byte>, got: set<nat>)
    requires n.present == Nothing() && n.meta == m && Below(got, Base(n))
    ensures BufferGenuine(n, m, image) && StoredAsHeard(n, got)
    ensures Below(got, Base(n) + BlockK(m, n.cur))
  {
    hide NChunks, BlockK, FrameRow, Base;
    forall i | 0 <= i < BlockK(m, n.cur) && i < |n.present| ensures HeardStored(n, got, i) {
    }
  }

  /** Scratch memory that is large enough holds a block. */
  lemma BufferFits(memory: seq<byte>, k: nat, r: nat, chunk: nat)
    ensures |memory| >= SessionScratch(k, r, chunk) ==> Shape(BufferRows(memory, chunk, k + r), k + r, chunk)
  {
    hide Layout.Rows;
    if |memory| >= SessionScratch(k, r, chunk) {
      assert (k + r) * chunk <= |memory| by {
        assert k * (2 * k) >= 0;
      }
    }
  }

  /** Begin on the META of the transfer: nothing stored yet. */
  lemma BeginAccounts(rx: Rx, m: Meta, image: seq<byte>)
    requires Conforming(m) && |image| == m.imgLen && rx.outcome == Listening
    ensures Accounted(Begin(rx, m), m, image, {}) && Begin(rx, m).cur == 0
  {
    hide Conforming, NChunks, NBlocks, BlockK, ChunkAt, SessionScratch, FrameRow, BufferRows, BufferGenuine, StoredAsHeard;
    Extent(m);
    BufferFits(rx.memory, BlockK(m, 0), m.nParity, m.chunk);
    var n := Begin(rx, m);
    FreshStore(n.store, m, image);
    FreshBlock(n, m, image, {});
  }

  lemma FreshStore(store: seq<byte>, m: Meta, image: seq<byte>)
    requires Conforming(m) && |image| == |store| == m.imgLen && forall x :: 0 <= x < |store| ==> store[x] == 0
    ensures Tracks(store, m, image, {})
  {
    hide Conforming, NChunks, ChunkAt;
    forall c | 0 <= c < NChunks(m) ensures TracksAt(store, m, image, {}, c) {
      ChunkBounds(m, store, c);
      forall j | 0 <= j < |ChunkAt(m, store, c)| ensures ChunkAt(m, store, c)[j] == 0 {
        assert ChunkAt(m, store, c)[j] == store[c * m.chunk + j];
      }
    }
  }
}
