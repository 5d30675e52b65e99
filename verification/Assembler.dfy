/** The reference receiver's object and loops: frames into dictionaries, verdicts, erasure decoding, the image. */
module Assembler {
  import opened Arithmetic
  import opened Bytes
  import opened Frames
  import opened Image
  import opened Linear
  import opened Erasure
  import opened Layout
  import opened Tables
  import opened Sender
  import opened Assembly
  import B = BroadcastProof
  import Fec
  import R = Receiver
  import Safety
  import Session
  import EndToEnd

  /** Frame i of block b as the decoder is given it. */
  function RowFor(m: Meta, a: Asm, b: nat, i: nat): seq<byte> {
    if i < BlockK(m, b) then if b * m.block + i in a.src then a.src[b * m.block + i] else []
    else if (b, i - BlockK(m, b)) in a.par then a.par[(b, i - BlockK(m, b))] else []
  }

  /** The rows for the frames that are here, padded to equal length. */
  ghost predicate RowsLoaded(m: Meta, a: Asm, b: nat, rows: Matrix, n: nat) {
    && |rows| == BlockK(m, b) + m.nParity && n <= |rows|
    && forall i :: 0 <= i < n && Present(m, a, b)[i] ==> rows[i] == Pad(RowFor(m, a, b, i), m.chunk)
  }

  /** Padded, what is kept is the block's codeword. */
  lemma LoadedConsistent(m: Meta, image: seq<byte>, a: Asm, b: nat, rows: Matrix)
    requires Conforming(m) && |image| == m.imgLen && Kept(m, image, a) && b < NBlocks(m)
    requires Shape(rows, BlockK(m, b) + m.nParity, m.chunk) && RowsLoaded(m, a, b, rows, |rows|)
    ensures BlockK(m, b) + m.nParity <= 255
    ensures Consistent(rows, Present(m, a, b), BlockData(m, image, b), BlockK(m, b), m.nParity, m.chunk)
  {
    hide Conforming, NChunks, NBlocks, BlockK, CodeFrame, ChunkAt, BlockData, Kept, RowFor, PaddedChunk, Present;
    BlockFits(m, b);
    forall i | 0 <= i < BlockK(m, b) + m.nParity && Present(m, a, b)[i]
      ensures rows[i] == CodeFrame(BlockData(m, image, b), BlockK(m, b), m.nParity, m.chunk, i)
    {
      LoadedFrame(m, image, a, b, i);
    }
  }

  lemma LoadedFrame(m: Meta, image: seq<byte>, a: Asm, b: nat, i: nat)
    requires Kept(m, image, a) && BlockK(m, b) + m.nParity <= 255 && i < BlockK(m, b) + m.nParity && Present(m, a, b)[i]
    ensures Pad(RowFor(m, a, b, i), m.chunk) == FrameRow(m, image, b, i)
  {
    hide Conforming, NChunks, NBlocks, BlockK, CodeFrame, ChunkAt, BlockData, Kept, RowFor, PaddedChunk;
    if i < BlockK(m, b) {
      SourceRow(m, image, a, b, i);
      Systematic(BlockData(m, image, b), BlockK(m, b), m.nParity, m.chunk, i);
    } else {
      ParityRow(m, image, a, b, i - BlockK(m, b));
    }
  }

  lemma SourceRow(m: Meta, image: seq<byte>, a: Asm, b: nat, i: nat)
    requires Kept(m, image, a) && i < BlockK(m, b) && b * m.block + i in a.src
    ensures Pad(RowFor(m, a, b, i), m.chunk) == PaddedChunk(m, image, b * m.block + i)
  {
    hide NChunks, NBlocks, BlockK, ChunkAt;
    assert SourceGenuine(m, image, a, b * m.block + i);
  }

  lemma ParityRow(m: Meta, image: seq<byte>, a: Asm, b: nat, i: nat)
    requires Kept(m, image, a) && (b, i) in a.par && BlockK(m, b) + m.nParity <= 255 && i < m.nParity
    ensures Pad(RowFor(m, a, b, BlockK(m, b) + i), m.chunk) == FrameRow(m, image, b, BlockK(m, b) + i)
  {
    hide NChunks, NBlocks, BlockK, FrameRow;
    assert ParityGenuine(m, image, a, b, i);
  }

  class Assembler {
    const m: Meta
    var src: map<nat, seq<byte>>
    var par: map<(nat, nat), seq<byte>>
    var maxOrdinal: int

    constructor (m: Meta)
      ensures this.m == m && View() == EMPTY
    {
      this.m := m;
      src, par, maxOrdinal := map[], map[], -1;
    }

    function View(): Asm
      reads this
    {
      Asm(src, par, maxOrdinal)
    }

    // ----- accounting

    method HaveInBlock(b: nat) returns (n: nat)
      ensures n == Have(m, View(), b)
    {
      hide BlockK;
      var k := BlockK(m, b);
      n := 0;
      for i := 0 to k
        invariant n == CountPresent(Present(m, View(), b), i)
      {
        if b * m.block + i in src {
          n := n + 1;
        }
      }
      for p := 0 to m.nParity
        invariant n == CountPresent(Present(m, View(), b), k + p)
      {
        if (b, p) in par {
          n := n + 1;
        }
      }
    }

    method FramesSentForBlock(b: nat) returns (n: int)
      ensures n == SentFor(m, View(), b)
    {
      hide BlockK;
      var start := 0;
      for i := 0 to b
        invariant start == Before(m, i)
      {
        start := start + BlockK(m, i) + m.nParity;
      }
      var total := BlockK(m, b) + m.nParity;
      var ahead := maxOrdinal + 1 - start;
      n := if ahead < total then ahead else total;
      n := if n > 0 then n else 0;
    }

    method IsAnyRecoverable() returns (yes: bool)
      ensures yes == AnyRecoverable(m, View())
    {
      hide BlockK, NBlocks, Have, SentFor;
      for b := 0 to NBlocks(m)
        invariant forall c :: 0 <= c < b ==> !Hopeful(m, View(), c)
      {
        var have := HaveInBlock(b);
        var done := FramesSentForBlock(b);
        var k := BlockK(m, b);
        if have < k && have + (k + m.nParity - done) >= k {
          assert Hopeful(m, View(), b);
          return true;
        }
      }
      return false;
    }

    method IsAllComplete() returns (yes: bool)
      ensures yes == AllComplete(m, View())
    {
      hide BlockK, NBlocks, Have;
      for b := 0 to NBlocks(m)
        invariant forall c :: 0 <= c < b ==> BlockComplete(m, View(), c)
      {
        var have := HaveInBlock(b);
        if have < BlockK(m, b) {
          assert !BlockComplete(m, View(), b);
          return false;
        }
      }
      return true;
    }

    // ----- frames

    method Hear(id: FrameId, payload: seq<byte>)
      modifies this
      ensures View() == HearFrame(m, old(View()), id, payload)
    {
      hide NChunks, NBlocks, Ordinal;
      var ord := FrameOrdinal(m, id.seqNo, id.parity);
      if ord > maxOrdinal {
        maxOrdinal := ord;
      }
      if id.parity {
        if m.nParity == 0 {
          return;
        }
        var blk, index := Quot(id.seqNo, m.nParity), Rem(id.seqNo, m.nParity);
        if blk >= NBlocks(m) {
          return;
        }
        par := par[(blk, index) := payload];
      } else {
        if id.seqNo >= NChunks(m) {
          return;
        }
        src := src[id.seqNo := payload];
      }
    }

    // ----- decoding

    /** The frames of block b laid out for the decoder. */
    method LoadFrames(b: nat, buf: array<byte>) returns (present: seq<bool>)
      requires (BlockK(m, b) + m.nParity) * m.chunk <= buf.Length
      modifies buf
      ensures present == Present(m, View(), b)
      ensures RowsLoaded(m, View(), b, Rows(buf[..], m.chunk, BlockK(m, b) + m.nParity), BlockK(m, b) + m.nParity)
    {
      hide BlockK, Rows, RowFor;
      var n := BlockK(m, b) + m.nParity;
      present := [];
      for i := 0 to n
        invariant present == Present(m, View(), b)[..i]
        invariant RowsLoaded(m, View(), b, Rows(buf[..], m.chunk, n), i)
      {
        var here := if i < BlockK(m, b) then b * m.block + i in src else (b, i - BlockK(m, b)) in par;
        present := present + [here];
        if here {
          LoadRow(buf, n, i, RowFor(m, View(), b, i));
        }
      }
    }

    method LoadRow(buf: array<byte>, n: nat, i: nat, payload: seq<byte>)
      requires i < n && n * m.chunk <= buf.Length
      modifies buf
      ensures Rows(buf[..], m.chunk, n) == old(Rows(buf[..], m.chunk, n))[i := Pad(payload, m.chunk)]
    {
      hide Rows;
      RowBounds(i, n, m.chunk);
      ghost var before := buf[..];
      var at := i * m.chunk;
      for j := 0 to m.chunk
        invariant forall x :: at <= x < at + j ==> buf[x] == Pad(payload, m.chunk)[x - at]
        invariant forall x :: 0 <= x < buf.Length && !(at <= x < at + j) ==> buf[x] == before[x]
      {
        buf[at + j] := if j < |payload| then payload[j] else 0;
      }
      RowsUpdate(before, buf[..], m.chunk, n, i);
      RowOf(buf[..], m.chunk, n, i);
      assert buf[at..at + m.chunk] == Pad(payload, m.chunk);
    }

    /** gf256.decode on one block, and its missing chunks filled in. */
    method DecodeBlock(g: GfTables, b: nat, ghost image: seq<byte>)
      requires g.Valid() && Conforming(m) && |image| == m.imgLen && b < NBlocks(m)
      requires Kept(m, image, View()) && BlockComplete(m, View(), b)
      modifies this`src, g, g.exp, g.log
      ensures g.Valid() && Kept(m, image, View())
      ensures forall s :: s in src <==> s in old(src) || b * m.block <= s < b * m.block + BlockK(m, b)
    {
      hide Conforming, NChunks, NBlocks, BlockK, Rows, CountPresent, Kept, Consistent, Fec.Rebuilt, Present, BlockData;
      BlockFits(m, b);
      var k, r := BlockK(m, b), m.nParity;
      var buf := new byte[(k + r) * m.chunk](_ => 0);
      var scratch := new byte[k * (2 * k)](_ => 0);
      var work := new byte[m.chunk](_ => 0);
      var present := LoadFrames(b, buf);
      ghost var before := Rows(buf[..], m.chunk, k + r);
      LoadedConsistent(m, image, View(), b, before);
      var rc := Fec.Decode(g, buf, present, k, r, m.chunk, scratch, work);
      ghost var data := BlockData(m, image, b);
      ghost var after := Rows(buf[..], m.chunk, k + r);
      assert after[..k] == data by {
        RebuiltIsData(before, after, present, data, k, r, m.chunk);
      }
      FillSources(b, buf, data, image);
    }

    method FillSources(b: nat, buf: array<byte>, ghost data: Matrix, ghost image: seq<byte>)
      requires Conforming(m) && |image| == m.imgLen && b < NBlocks(m) && Kept(m, image, View())
      requires (BlockK(m, b) + m.nParity) * m.chunk <= buf.Length && data == BlockData(m, image, b)
      requires BlockK(m, b) <= |Rows(buf[..], m.chunk, BlockK(m, b) + m.nParity)|
      requires Rows(buf[..], m.chunk, BlockK(m, b) + m.nParity)[..BlockK(m, b)] == data
      modifies this`src
      ensures Kept(m, image, View())
      ensures forall s :: s in src <==> s in old(src) || b * m.block <= s < b * m.block + BlockK(m, b)
    {
      hide Conforming, NChunks, NBlocks, BlockK, Rows, BlockData, Kept;
      BlockKAt(m, b);
      for i := 0 to BlockK(m, b)
        invariant Kept(m, image, View())
        invariant forall s :: s in src <==> s in old(src) || b * m.block <= s < b * m.block + i
      {
        if b * m.block + i !in src {
          FillSource(b, i, buf, data, image);
        }
      }
    }

    method FillSource(b: nat, i: nat, buf: array<byte>, ghost data: Matrix, ghost image: seq<byte>)
      requires Kept(m, image, View()) && b * m.block + i < NChunks(m) && i < BlockK(m, b)
      requires (BlockK(m, b) + m.nParity) * m.chunk <= buf.Length && data == BlockData(m, image, b)
      requires BlockK(m, b) <= |Rows(buf[..], m.chunk, BlockK(m, b) + m.nParity)|
      requires Rows(buf[..], m.chunk, BlockK(m, b) + m.nParity)[..BlockK(m, b)] == data
      modifies this`src
      ensures Kept(m, image, View())
      ensures forall s :: s in src <==> s in old(src) || s == b * m.block + i
    {
      hide NChunks, BlockK, Rows, PaddedChunk, Kept;
      RowOf(buf[..], m.chunk, BlockK(m, b) + m.nParity, i);
      var row := buf[i * m.chunk..i * m.chunk + m.chunk];
      assert row == data[i];
      KeptMore(m, image, View(), b * m.block + i, row);
      src := src[b * m.block + i := row];
    }

    /** decode_blocks: erasure decoding where it is needed and possible. */
    method DecodeBlocks(g: GfTables, ghost image: seq<byte>)
      requires g.Valid() && Conforming(m) && |image| == m.imgLen && Kept(m, image, View())
      modifies this`src, g, g.exp, g.log
      ensures g.Valid() && Kept(m, image, View())
      ensures forall s :: s in old(src) ==> s in src
      ensures forall b :: 0 <= b < NBlocks(m) ==> BlockComplete(m, old(View()), b) ==> SourcesHere(m, View(), b)
      ensures AllComplete(m, old(View())) ==> AllHere(m, View())
    {
      hide Conforming, NChunks, NBlocks, BlockK, Kept, Have;
      for b := 0 to NBlocks(m)
        invariant g.Valid() && Kept(m, image, View()) && View() == old(View()).(src := src)
        invariant forall s :: s in old(src) ==> s in src
        invariant forall c :: 0 <= c < b ==> BlockComplete(m, old(View()), c) ==> SourcesHere(m, View(), c)
        invariant forall c :: b <= c < NBlocks(m) ==> SamePresent(m, old(View()), View(), c)
      {
        ghost var was := View();
        DecodeNext(g, b, image, old(View()));
        forall c | b + 1 <= c < NBlocks(m) ensures SamePresent(m, old(View()), View(), c) {
          assert SamePresent(m, old(View()), was, c) && SamePresent(m, was, View(), c);
        }
      }
      if AllComplete(m, old(View())) {
        AllBlocksHere(m, old(View()), View());
      }
    }

    /** One turn of the loop over blocks. */
    method DecodeNext(g: GfTables, b: nat, ghost image: seq<byte>, ghost first: Asm)
      requires g.Valid() && Conforming(m) && |image| == m.imgLen && b < NBlocks(m)
      requires Kept(m, image, View()) && SamePresent(m, first, View(), b)
      modifies this`src, g, g.exp, g.log
      ensures g.Valid() && Kept(m, image, View()) && forall s :: s in old(src) ==> s in src
      ensures BlockComplete(m, first, b) ==> SourcesHere(m, View(), b)
      ensures forall c :: 0 <= c < b && SourcesHere(m, old(View()), c) ==> SourcesHere(m, View(), c)
      ensures forall c :: b < c < NBlocks(m) ==> SamePresent(m, old(View()), View(), c)
    {
      hide Conforming, NChunks, NBlocks, BlockK, Kept, Present;
      var all := AllSources(b);
      if all {
        return;
      }
      var have := HaveInBlock(b);
      if m.nParity == 0 || have < BlockK(m, b) {
        NoParityNoDecode(m, View(), b);
        return;
      }
      ghost var was := View();
      DecodeBlock(g, b, image);
      OtherBlocksSame(m, was, View(), b);
    }

    method AllSources(b: nat) returns (all: bool)
      ensures all == SourcesHere(m, View(), b)
    {
      hide BlockK;
      for i := 0 to BlockK(m, b)
        invariant forall j :: 0 <= j < i ==> SourceHere(m, View(), b, j)
      {
        if b * m.block + i !in src {
          assert !SourceHere(m, View(), b, i);
          return false;
        }
      }
      return true;
    }

    /** image() */
    method MakeImage() returns (image: seq<byte>)
      ensures image == ImageOf(m, View())
    {
      hide NChunks, ChunkOrZeros;
      var buf: seq<byte> := [];
      for i := 0 to NChunks(m)
        invariant buf == Joined(m, View(), i)
      {
        var c := ChunkOrZeros(m, View(), i);
        buf := buf + if i < NChunks(m) - 1 then Pad(c, m.chunk) else c;
      }
      image := if |buf| > m.imgLen then buf[..m.imgLen] else buf + R.Zeros(m.imgLen - |buf|);
    }
  }

  /** A decoder's result on genuine frames. */
  lemma RebuiltIsData(before: Matrix, after: Matrix, present: seq<bool>, data: Matrix, k: nat, r: nat, len: nat)
    requires k + r <= 255 && |present| == k + r && Shape(before, k + r, len) && Shape(after, k + r, len)
    requires Shape(data, k, len) && Fec.Rebuilt(before, after, present, k, r, len)
    requires Consistent(before, present, data, k, r, len)
    ensures after[..k] == data
  {
    hide Consistent, CodeFrame, Picked;
  }

  lemma KeptMore(m: Meta, image: seq<byte>, a: Asm, s: nat, chunk: seq<byte>)
    requires Kept(m, image, a) && s < NChunks(m) && chunk == PaddedChunk(m, image, s)
    ensures Kept(m, image, a.(src := a.src[s := chunk]))
  {
    hide NChunks, NBlocks, BlockK, PaddedChunk, ChunkAt, FrameRow;
    var n := a.(src := a.src[s := chunk]);
    forall t | t in n.src ensures SourceGenuine(m, image, n, t) {
      assert t in a.src ==> SourceGenuine(m, image, a, t);
    }
    forall b: nat, i: nat | (b, i) in n.par ensures ParityGenuine(m, image, n, b, i) {
      assert ParityGenuine(m, image, a, b, i);
    }
  }

  predicate SourceHere(m: Meta, a: Asm, b: nat, i: nat) {
    b * m.block + i in a.src
  }

  /** Every source chunk of block b is here. */
  ghost predicate SourcesHere(m: Meta, a: Asm, b: nat) {
    forall i :: 0 <= i < BlockK(m, b) ==> SourceHere(m, a, b, i)
  }

  /** Without parity a complete block has all its source chunks already. */
  lemma NoParityNoDecode(m: Meta, a: Asm, b: nat)
    requires m.nParity == 0 || Have(m, a, b) < BlockK(m, b)
    ensures BlockComplete(m, a, b) ==> SourcesHere(m, a, b)
  {
    hide BlockK;
    if m.nParity == 0 && BlockComplete(m, a, b) {
      NoneMissing(Present(m, a, b), BlockK(m, b));
      forall i | 0 <= i < BlockK(m, b) ensures SourceHere(m, a, b, i) {
        assert Present(m, a, b)[i];
      }
    }
  }

  lemma {:induction false} NoneMissing(p: seq<bool>, n: nat)
    requires n <= |p| && CountPresent(p, n) >= n
    ensures forall i :: 0 <= i < n ==> p[i]
  {
    if n > 0 {
      NoneMissing(p, n - 1);
    }
  }

  lemma OtherBlocksSame(m: Meta, a: Asm, n: Asm, b: nat)
    requires Conforming(m) && b < NBlocks(m) && n.par == a.par
    requires forall s: nat :: s in n.src <==> s in a.src || b * m.block <= s < b * m.block + BlockK(m, b)
    ensures SourcesHere(m, n, b)
    ensures forall c :: 0 <= c < NBlocks(m) && c != b ==> SamePresent(m, a, n, c)
    ensures forall c :: 0 <= c < b && SourcesHere(m, a, c) ==> SourcesHere(m, n, c)
  {
    hide Conforming, NChunks, NBlocks, BlockK;
    forall c | 0 <= c < NBlocks(m) && c != b ensures SamePresent(m, a, n, c) {
      forall i | 0 <= i < |Present(m, n, c)| ensures Present(m, n, c)[i] == Present(m, a, c)[i] {
        if i < BlockK(m, c) && b * m.block <= c * m.block + i < b * m.block + BlockK(m, b) {
          BlocksApart(m, c, i, b, c * m.block + i - b * m.block);
        }
      }
    }
    forall c | 0 <= c < b && SourcesHere(m, a, c) ensures SourcesHere(m, n, c) {
      forall i | 0 <= i < BlockK(m, c) ensures SourceHere(m, n, c, i) {
        assert SourceHere(m, a, c, i);
      }
    }
  }

  lemma AllBlocksHere(m: Meta, first: Asm, a: Asm)
    requires Conforming(m) && AllComplete(m, first)
    requires forall c :: 0 <= c < NBlocks(m) ==> BlockComplete(m, first, c) ==> SourcesHere(m, a, c)
    ensures AllHere(m, a)
  {
    hide Conforming, NChunks, NBlocks, BlockK, BlockComplete;
    forall s | 0 <= s < NChunks(m) ensures s in a.src {
      var c := BlockOfChunk(m, s);
      assert BlockComplete(m, first, c) && SourcesHere(m, a, c);
      assert SourceHere(m, a, c, s - c * m.block);
    }
  }

  // ----- the receiver's loop

  /** The receiver after a sequence of listening windows. */
  ghost function Work(st: State, events: seq<Session.Event>): State {
    if |events| == 0 then st
    else
      var before := Work(st, events[..|events| - 1]);
      match events[|events| - 1]
      case Silent => Silence(before)
      case Heard(p) => Assembly.Heard(before, p)
  }

  lemma {:induction false} WorkFirst(st: State, events: seq<Session.Event>)
    requires |events| > 0
    ensures Work(st, events)
            == Work(match events[0] case Silent => Silence(st) case Heard(p) => Assembly.Heard(st, p), events[1..])
  {
    hide Silence, Assembly.Heard;
    var n := |events| - 1;
    if n > 0 {
      WorkFirst(st, events[..n]);
      assert events[..n][1..] == events[1..][..n - 1];
    } else {
      assert events[..0] == [] && events[1..] == [];
    }
  }

  /** Following the channel is working through what it lets pass. */
  lemma {:induction false} FollowIsWork(st: State, sent: seq<Packet>, fates: seq<B.Fate>)
    ensures Follow(st, sent, fates) == Work(st, EndToEnd.Through(sent, fates))
    decreases |fates|
  {
    hide Silence, Assembly.Heard;
    if |fates| > 0 {
      var events := EndToEnd.Through(sent, fates);
      if fates[0] == B.Quiet {
        FollowIsWork(Silence(st), sent, fates[1..]);
        WorkFirst(st, events);
        assert events[1..] == EndToEnd.Through(sent, fates[1..]);
      } else if |sent| == 0 {
        FollowIsWork(st, sent, fates[1..]);
      } else if fates[0] == B.Delivered {
        FollowIsWork(Assembly.Heard(st, sent[0]), sent[1..], fates[1..]);
        WorkFirst(st, events);
        assert events[1..] == EndToEnd.Through(sent[1..], fates[1..]);
      } else {
        FollowIsWork(st, sent[1..], fates[1..]);
        assert events == EndToEnd.Through(sent[1..], fates[1..]);
      }
    }
  }

  lemma {:induction false} DoneStaysDone(st: State, events: seq<Session.Event>, i: nat)
    requires i <= |events| && !Work(st, events[..i]).Waiting? && !Work(st, events[..i]).Going?
    ensures Work(st, events) == Work(st, events[..i])
    decreases |events|
  {
    if i == |events| {
      assert events[..i] == events;
    } else {
      var n := |events| - 1;
      assert events[..n][..i] == events[..i];
      DoneStaysDone(st, events[..n], i);
    }
  }

  /** The object is where the state machine is. */
  ghost predicate At(st: State, asm: Assembler?)
    reads asm
  {
    match st
    case Waiting => asm == null
    case Going(m, a) => asm != null && asm.m == m && asm.View() == a
    case Complete(m, a) => asm != null && asm.m == m && asm.View() == a
    case Unrecoverable(m, a) => asm != null && asm.m == m && asm.View() == a
    case Incomplete(m, a) => asm != null && asm.m == m && asm.View() == a
  }

  datatype Verdict = Listening | IsComplete | IsUnrecoverable | IsIncomplete

  function VerdictOf(st: State): Verdict {
    match st
    case Waiting => Listening
    case Going(_, _) => Listening
    case Complete(_, _) => IsComplete
    case Unrecoverable(_, _) => IsUnrecoverable
    case Incomplete(_, _) => IsIncomplete
  }

  ghost predicate InTransfer(m: Meta, image: seq<byte>, st: State) {
    st.Waiting? || (st.m == m && Kept(m, image, st.asm))
  }

  /** The verdict after a frame. */
  method JudgeFrame(asm: Assembler) returns (verdict: Verdict)
    ensures verdict == VerdictOf(Judged(asm.m, asm.View()))
  {
    hide AllComplete, AnyRecoverable;
    var all := asm.IsAllComplete();
    if all {
      return IsComplete;
    }
    var any := asm.IsAnyRecoverable();
    verdict := if any then Listening else IsUnrecoverable;
  }

  method JudgeSilence(asm: Assembler) returns (verdict: Verdict)
    ensures verdict == VerdictOf(Silence(Going(asm.m, asm.View())))
  {
    hide AllComplete, AnyRecoverable;
    var any := asm.IsAnyRecoverable();
    if any {
      return Listening;
    }
    var all := asm.IsAllComplete();
    verdict := if all then IsComplete else IsUnrecoverable;
  }

  method JudgeFin(asm: Assembler) returns (verdict: Verdict)
    ensures verdict == VerdictOf(Assembly.Heard(Going(asm.m, asm.View()), FinP))
  {
    hide AllComplete, AnyRecoverable;
    var all := asm.IsAllComplete();
    if all {
      return IsComplete;
    }
    var any := asm.IsAnyRecoverable();
    verdict := if any then IsIncomplete else IsUnrecoverable;
  }

  lemma GenuineKept(m: Meta, image: seq<byte>, st: State, p: Packet)
    requires InTransfer(m, image, st) && Safety.Genuine(m, image, p)
    ensures InTransfer(m, image, Assembly.Heard(st, p))
  {
    hide Conforming, Exists, Payload, Kept, AllComplete, AnyRecoverable, HearFrame, NBlocks;
    if st.Going? && p.DataP? {
      FrameKept(m, image, st.asm, p.id);
    }
    NothingKept(m, image);
  }

  lemma NothingKept(m: Meta, image: seq<byte>)
    ensures Kept(m, image, EMPTY)
  {
  }

  lemma SilenceKept(m: Meta, image: seq<byte>, st: State)
    requires InTransfer(m, image, st)
    ensures InTransfer(m, image, Silence(st))
  {
    hide Kept, AllComplete, AnyRecoverable;
  }

  /** One window: the object follows the state machine. */
  method Window(asm0: Assembler?, e: Session.Event, ghost st: State, ghost m: Meta, ghost image: seq<byte>)
    returns (asm: Assembler?, verdict: Verdict)
    requires At(st, asm0) && (st.Waiting? || st.Going?) && InTransfer(m, image, st)
    requires e.Heard? ==> Safety.Genuine(m, image, e.p)
    modifies asm0
    ensures asm == asm0 || (asm0 == null && fresh(asm))
    ensures var next := match e case Silent => Silence(st) case Heard(p) => Assembly.Heard(st, p);
      At(next, asm) && verdict == VerdictOf(next) && InTransfer(m, image, next)
  {
    hide AllComplete, AnyRecoverable, HearFrame, Kept, Safety.Genuine;
    asm, verdict := asm0, Listening;
    match e {
      case Silent =>
        SilenceKept(m, image, st);
        if asm != null {
          verdict := JudgeSilence(asm);
        }
      case Heard(p) =>
        GenuineKept(m, image, st, p);
        SameMeta(m, image, p);
        if asm == null {
          if p.MetaP? {
            asm := new Assembler(p.m);
          }
        } else if p.DataP? {
          asm.Hear(p.id, p.payload);
          verdict := JudgeFrame(asm);
        } else if p.FinP? {
          verdict := JudgeFin(asm);
        }
    }
  }

  lemma SameMeta(m: Meta, image: seq<byte>, p: Packet)
    requires Safety.Genuine(m, image, p)
    ensures p.MetaP? ==> p.m == m
  {
    hide Conforming, Exists, NBlocks;
  }

  /**
    receiver() in broadcast mode.  A verdict of "complete" comes with the sender's image, so the checksum
    comparison that follows cannot fail.
  */
  method ReceiveBroadcast(g: GfTables, events: seq<Session.Event>, ghost m: Meta, ghost image: seq<byte>)
    returns (verdict: Verdict, out: seq<byte>)
    requires g.Valid() && Conforming(m) && |image| == m.imgLen
    requires forall i :: 0 <= i < |events| && events[i].Heard? ==> Safety.Genuine(m, image, events[i].p)
    modifies g, g.exp, g.log
    ensures g.Valid() && verdict == VerdictOf(Work(Waiting, events))
    ensures verdict == IsComplete ==> out == image
  {
    hide Conforming, AllComplete, AnyRecoverable, HearFrame, Kept, Safety.Genuine, Silence, Assembly.Heard;
    var asm: Assembler? := null;
    verdict := Listening;
    ghost var st := Waiting;
    var i := 0;
    assert events[..0] == [];
    while i < |events| && verdict == Listening
      invariant i <= |events| && st == Work(Waiting, events[..i]) && At(st, asm) && verdict == VerdictOf(st)
      invariant InTransfer(m, image, st) && (asm == null || fresh(asm)) && g.Valid()
    {
      assert events[..i + 1][..i] == events[..i];
      asm, verdict := Window(asm, events[i], st, m, image);
      st := Work(Waiting, events[..i + 1]);
      i := i + 1;
    }
    if verdict == Listening {
      assert events[..|events|] == events;
      return verdict, [];
    }
    DoneStaysDone(Waiting, events, i);
    if verdict == IsComplete {
      CompleteMeansAll(events, i);
    }
    asm.DecodeBlocks(g, image);
    out := asm.MakeImage();
    if verdict == IsComplete {
      ImageIsOriginal(m, image, asm.View());
    }
  }

  lemma {:induction false} CompleteMeansAll(events: seq<Session.Event>, i: nat)
    requires i <= |events|
    ensures var st := Work(Waiting, events[..i]); st.Complete? ==> AllComplete(st.m, st.asm)
  {
    hide AllComplete, AnyRecoverable, HearFrame;
    if i > 0 {
      CompleteMeansAll(events, i - 1);
      assert events[..i][..i - 1] == events[..i - 1];
    }
  }
}
