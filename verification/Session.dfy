/**
  The receiver as the source has it: an object that updates its bitmap, block buffer, counters and store in
  place.  Each operation is proved to do to the object's abstract value what the state machine says.
*/
module Session {
  import opened Wrappers
  import opened Bytes
  import opened Arithmetic
  import opened Frames
  import opened Image
  import opened Linear
  import opened Erasure
  import opened Layout
  import opened Tables
  import opened Sender
  import opened Receiver
  import Reception
  import Fec
  import Stat

  /** No block is larger than the first. */
  lemma AnyBlockFits(m: Meta, b: nat)
    requires Conforming(m)
    ensures BlockK(m, b) <= BlockK(m, 0) && BlockK(m, b) + m.nParity <= 255
  {
    hide NChunks, NBlocks, Conforming;
    ConformingBounds(m);
    Extent(m);
    if b < NBlocks(m) {
      hide BlockK;
      BlockKAt(m, b);
    } else {
      TimesMonotone(NBlocks(m), b, m.block);
    }
  }

  /** The scratch memory holds a block of m, the tableau to decode it, and one chunk more. */
  predicate Fits(m: Meta, cap: nat) {
    SessionScratch(BlockK(m, 0), m.nParity, m.chunk) <= cap
  }

  lemma FitsParts(m: Meta, cap: nat, k: nat)
    requires Fits(m, cap) && k <= BlockK(m, 0)
    ensures (BlockK(m, 0) + m.nParity) * m.chunk <= cap && (k + m.nParity) * m.chunk <= cap
    ensures k * (2 * k) <= cap && m.chunk <= cap
  {
    hide BlockK;
    var k0 := BlockK(m, 0);
    SquareGrows(k, k0);
    TimesMonotone(k + m.nParity, k0 + m.nParity, m.chunk);
    TimesMonotone(0, k0 + m.nParity, m.chunk);
  }

  lemma SquareGrows(k: nat, n: nat)
    requires k <= n
    ensures 0 <= k * (2 * k) <= n * (2 * n)
  {
    TimesMonotone(k, n, k);
    TimesMonotone(k, n, n);
  }

  // ----- decoding in the block buffer

  lemma RowsPrefix(s: seq<byte>, w: nat, n: nat, q: nat)
    requires q <= n && n * w <= |s|
    ensures q * w <= |s| && Rows(s, w, q) == Rows(s, w, n)[..q]
  {
    TimesMonotone(q, n, w);
    forall i | 0 <= i < q ensures Rows(s, w, q)[i] == Rows(s, w, n)[i] {
      RowOf(s, w, n, i);
      RowOf(s, w, q, i);
    }
  }

  /** Rows past the first q are the same when the bytes past them are. */
  lemma RowsSuffix(s: seq<byte>, s': seq<byte>, w: nat, n: nat, q: nat)
    requires q <= n && n * w <= |s| == |s'| && q * w <= |s| && s[q * w..] == s'[q * w..]
    ensures forall i :: q <= i < n ==> Rows(s, w, n)[i] == Rows(s', w, n)[i]
  {
    forall i | q <= i < n ensures Rows(s, w, n)[i] == Rows(s', w, n)[i] {
      RowOf(s, w, n, i);
      RowOf(s', w, n, i);
      TimesMonotone(q, i, w);
      RowBounds(i, n, w);
      assert s[i * w..i * w + w] == s[q * w..][i * w - q * w..i * w + w - q * w];
      assert s'[i * w..i * w + w] == s'[q * w..][i * w - q * w..i * w + w - q * w];
    }
  }

  /** The block left by a successful decode is the one the state machine speaks of. */
  lemma RebuiltIsDecoded(before: Matrix, after: Matrix, present: seq<bool>, k: nat, r: nat, len: nat)
    requires k + r <= 255 && |present| == k + r && CountPresent(present, k + r) >= k
    requires Shape(before, k + r, len) && Shape(after, k + r, len) && Fec.Rebuilt(before, after, present, k, r, len)
    ensures Decoded(before, present, k, r, len) == after[..k]
  {
    hide CodeFrame, CountPresent, Picked;
    PickedFrames(present, k + r, k);
    PickedSelection(present, k, r);
    var idx := Picked(present, k + r, k);
    assert Explains(after[..k], before, present, k, r, len);
    var d := Decoded(before, present, k, r, len);
    assert Explains(d, before, present, k, r, len);
    forall p | 0 <= p < k ensures CodeFrame(d, k, r, len, idx[p]) == CodeFrame(after[..k], k, r, len, idx[p]) {
      assert idx[p] in idx;
    }
    AnyKFramesDetermineTheBlock(d, after[..k], k, r, len, idx);
  }

  /** The whole buffer after decoding its first k + r rows. */
  lemma DecodedBuffer(s: seq<byte>, s': seq<byte>, present: seq<bool>, k: nat, r: nat, len: nat, n: nat)
    requires k + r <= 255 && k + r <= n && n * len <= |s| == |s'| && |present| == k + r
    requires CountPresent(present, k + r) >= k && (k + r) * len <= |s| && s[(k + r) * len..] == s'[(k + r) * len..]
    requires Fec.Rebuilt(Rows(s, len, k + r), Rows(s', len, k + r), present, k, r, len)
    ensures Rows(s', len, n) == Decoded(Rows(s, len, n)[..k + r], present, k, r, len) + Rows(s, len, n)[k..]
  {
    hide Rows, CountPresent, Picked, CodeFrame, Decoded, Consistent;
    var b: Matrix := Rows(s, len, n);
    var a: Matrix := Rows(s', len, n);
    RowsPrefix(s, len, n, k + r);
    RowsPrefix(s', len, n, k + r);
    RowsSuffix(s, s', len, n, k + r);
    RebuiltIsDecoded(b[..k + r], a[..k + r], present, k, r, len);
    assert a[..k + r][..k] == a[..k];
    forall i | k <= i < n ensures a[i] == b[i] {
      if i < k + r {
        assert a[..k + r][i] == b[..k + r][i];
      }
    }
    assert a == a[..k] + a[k..];
    assert a[k..] == b[k..];
  }

  /** What one listening window of the receiver brings. */
  datatype Event = Silent | Heard(p: Packet)

  /** The receiver after a sequence of windows. */
  ghost function After(rx: Rx, events: seq<Event>): Rx {
    if |events| == 0 then rx
    else
      var before := After(rx, events[..|events| - 1]);
      match events[|events| - 1]
      case Silent => OnSilence(before)
      case Heard(p) => OnPacket(before, p).0
  }

  /** What it has said. */
  ghost function Says(rx: Rx, events: seq<Event>): seq<Packet> {
    if |events| == 0 then []
    else
      var said := Says(rx, events[..|events| - 1]);
      match events[|events| - 1]
      case Silent => said
      case Heard(p) =>
        var answer := OnPacket(After(rx, events[..|events| - 1]), p).1;
        if answer.Some? then said + [answer.value] else said
  }

  /** Once there is a result nothing changes it. */
  lemma StopStays(rx: Rx, p: Packet)
    ensures rx.outcome != Listening ==> OnPacket(rx, p) == (rx, None) && OnSilence(rx) == rx
  {
    hide OnData, Begin, Flush;
  }

  lemma {:induction false} StoppedIsDone(rx: Rx, events: seq<Event>, i: nat)
    requires i <= |events| && (i < |events| ==> After(rx, events[..i]).outcome != Listening)
    ensures After(rx, events) == After(rx, events[..i]) && Says(rx, events) == Says(rx, events[..i])
    decreases |events|
  {
    hide OnPacket, OnSilence;
    if i == |events| {
      assert events[..i] == events;
    } else {
      var n := |events| - 1;
      assert events[..n][..i] == events[..i];
      StoppedIsDone(rx, events[..n], i);
      if events[n].Heard? {
        StopStays(After(rx, events[..n]), events[n].p);
      } else {
        StopStays(After(rx, events[..n]), FinP);
      }
    }
  }

  lemma FitsIs(m: Meta, bytes: seq<byte>)
    ensures Fits(m, |bytes|) <==> |bytes| >= SessionScratch(BlockK(m, 0), m.nParity, m.chunk)
  {
    hide BlockK, SessionScratch;
  }

  /** Begin, with the buffer named as the object names it. */
  lemma BeginIs(rx: Rx, m: Meta)
    ensures var ok := |rx.memory| > 0 && |rx.memory| >= SessionScratch(BlockK(m, 0), m.nParity, m.chunk);
      Begin(rx, m) == rx.(haveMeta := true, meta := m, fecOk := ok, buf := BufferOf(ok, m, rx.memory), store := Zeros(m.imgLen),
                          total := NChunks(m), have := 0, sawAny := false, maxOrdinal := 0, cur := 0, present := Nothing())
  {
    hide BlockK, SessionScratch, NChunks, Zeros, BufferRows;
  }

  lemma BeginMeta(rx: Rx, m: Meta)
    ensures Begin(rx, m).haveMeta && Begin(rx, m).meta == m
  {
    hide NChunks, BlockK, SessionScratch, BufferRows;
  }

  /** The rows of the block buffer, when there is one. */
  function BufferOf(fecOk: bool, m: Meta, bytes: seq<byte>): Matrix {
    if fecOk then BufferRows(bytes, m.chunk, BlockK(m, 0) + m.nParity) else []
  }

  lemma BufferShape(m: Meta, bytes: seq<byte>)
    requires Fits(m, |bytes|)
    ensures Shape(BufferOf(true, m, bytes), BlockK(m, 0) + m.nParity, m.chunk)
  {
    hide BlockK, Rows, Fits;
    FitsParts(m, |bytes|, 0);
  }

  lemma RowBytes(m: Meta, bytes: seq<byte>, i: nat, len: nat)
    requires Fits(m, |bytes|) && i < BlockK(m, 0) + m.nParity && len <= m.chunk
    ensures var b := BufferOf(true, m, bytes); i < |b| && |b[i]| == m.chunk
    ensures 0 <= i * m.chunk && i * m.chunk + len <= |bytes|
    ensures bytes[i * m.chunk..i * m.chunk + len] == BufferOf(true, m, bytes)[i][..len]
  {
    hide BlockK, Rows, Fits;
    FitsParts(m, |bytes|, 0);
    RowOf(bytes, m.chunk, BlockK(m, 0) + m.nParity, i);
  }

  lemma RowFilled(m: Meta, before: seq<byte>, after: seq<byte>, slot: nat, payload: seq<byte>)
    requires Fits(m, |before|) && |after| == |before| && slot < BlockK(m, 0) + m.nParity
    requires 0 <= slot * m.chunk && slot * m.chunk + m.chunk <= |before|
    requires forall x :: slot * m.chunk <= x < slot * m.chunk + m.chunk ==>
               after[x] == Pad(payload, m.chunk)[x - slot * m.chunk]
    requires forall x :: 0 <= x < |before| && !(slot * m.chunk <= x < slot * m.chunk + m.chunk) ==> after[x] == before[x]
    ensures slot < |BufferOf(true, m, before)|
    ensures BufferOf(true, m, after) == BufferOf(true, m, before)[slot := Pad(payload, m.chunk)]
  {
    hide BlockK, Rows, Fits;
    FitsParts(m, |before|, 0);
    var n := BlockK(m, 0) + m.nParity;
    RowsUpdate(before, after, m.chunk, n, slot);
    RowOf(after, m.chunk, n, slot);
    assert after[slot * m.chunk..slot * m.chunk + m.chunk] == Pad(payload, m.chunk);
  }

  /** For a conforming META a frame has a place when it is a frame of the block, and kept when not parity. */
  lemma IsPlaceable(m: Meta, fecOk: bool, a: Rx, id: FrameId)
    requires Conforming(m) && a.meta == m && a.fecOk == fecOk && |a.present| == PRESENT
    requires fecOk ==> |a.buf| == BlockK(m, 0) + m.nParity
    ensures Placeable(a, id) <==>
            SlotNo(m, id) < BlockK(m, BlockNo(m, id)) + m.nParity && (fecOk || !id.parity)
  {
    hide Conforming, BlockK, SlotNo, BlockNo;
    AnyBlockFits(m, BlockNo(m, id));
  }

  /** A packet of the transfer m, as far as its shape goes. */
  predicate Plausible(m: Meta, p: Packet) {
    match p
    case MetaP(m') => m' == m && Conforming(m)
    case DataP(_, payload) => |payload| <= m.chunk
    case _ => true
  }

  class ImageReceiver {
    const g: GfTables
    const blockbuf: array<byte>
    const scratch: array<byte>
    const work: array<byte>
    const marks: array<bool>
    const broadcast: bool
    ghost var memory: seq<byte>   // the scratch memory when the transfer began
    var haveMeta: bool
    var meta: Meta
    var fecOk: bool
    var cur: nat
    var store: seq<byte>
    var maxOrdinal: nat
    var sawAny: bool
    var have: nat
    var total: nat
    var lost: nat
    var outcome: Outcome

    ghost predicate Valid()
      reads this, g, g.exp, g.log, blockbuf
    {
      && g.Valid() && marks.Length == PRESENT
      && blockbuf.Length == scratch.Length == work.Length == |memory|
      && blockbuf != scratch && blockbuf != work && scratch != work
      && {blockbuf, scratch, work} !! {g.exp, g.log}
      && (haveMeta ==> Conforming(meta))
      && (fecOk ==> haveMeta && Fits(meta, blockbuf.Length))
      && (!fecOk ==> blockbuf[..] == memory)
    }

    /** The abstract value. */
    ghost function View(): Rx
      reads this, blockbuf, marks
    {
      Rx(broadcast, memory, haveMeta, meta, fecOk, cur, marks[..], BufferOf(fecOk, meta, blockbuf[..]), store,
         maxOrdinal, sawAny, have, total, lost, outcome)
    }

    constructor (broadcast: bool, memory: seq<byte>)
      ensures Valid() && View() == Start(broadcast, memory)
      ensures fresh(g) && fresh(g.exp) && fresh(g.log)
      ensures fresh(blockbuf) && fresh(scratch) && fresh(work) && fresh(marks)
    {
      g := new GfTables();
      blockbuf := new byte[|memory|](i requires 0 <= i < |memory| => memory[i]);
      scratch := new byte[|memory|](_ => 0);
      work := new byte[|memory|](_ => 0);
      marks := new bool[PRESENT](_ => false);
      this.broadcast := broadcast;
      this.memory := memory;
      haveMeta, meta, fecOk, cur, store := false, Meta(0, 0, 0, 0, 0), false, 0, [];
      maxOrdinal, sawAny, have, total, lost, outcome := 0, false, 0, 0, 0, Listening;
      new;
      assert marks[..] == Nothing();
    }

    // ----- counting

    /** have_in_block */
    method CountHere() returns (n: nat)
      requires Valid() && haveMeta
      ensures n == HaveInBlock(View())
    {
      hide Conforming, BlockK, Fits;
      AnyBlockFits(meta, cur);
      n := 0;
      for i := 0 to BlockK(meta, cur) + meta.nParity
        invariant n == CountPresent(marks[..], i)
      {
        if marks[i] {
          n := n + 1;
        }
      }
    }

    /** Whether every source chunk of the block is marked. */
    method AllHere(k: nat) returns (complete: bool)
      requires Valid() && k <= PRESENT
      ensures complete == AllPresent(marks[..], k)
    {
      for i := 0 to k
        invariant AllPresent(marks[..], i)
      {
        if !marks[i] {
          assert !marks[..][i];
          return false;
        }
      }
      return true;
    }

    // ----- flush_block

    /** loraitp_fec_decode on the block buffer, and the marks it earns. */
    method DecodeBlock(k: nat)
      requires Valid() && fecOk && CanDecode(View()) && k == BlockK(meta, cur) > 0
      modifies g, g.exp, g.log, blockbuf, scratch, work, marks
      ensures Valid()
      ensures var v, n := old(View()), Slots(old(View()));
        && n <= |v.buf| && n <= |v.present| && k <= n
        && View() == v.(buf := Decoded(v.buf[..n], v.present[..n], k, meta.nParity, meta.chunk) + v.buf[k..],
                        present := MarkAll(v.present, k))
    {
      hide Conforming, BlockK, Decoded, CountPresent, Fits, Rows, Fec.Rebuilt;
      AnyBlockFits(meta, cur);
      FitsParts(meta, blockbuf.Length, k);
      var r := meta.nParity;
      ghost var v, bytes := View(), blockbuf[..];
      var present := marks[..k + r];
      CountTake(v.present, k + r);
      var rc := Fec.Decode(g, blockbuf, present, k, r, meta.chunk, scratch, work);
      DecodedBuffer(bytes, blockbuf[..], present, k, r, meta.chunk, BlockK(meta, 0) + r);
      MarkSources(k);
    }

    method MarkSources(k: nat)
      requires k <= marks.Length
      modifies marks
      ensures marks[..] == MarkAll(old(marks[..]), k)
    {
      for i := 0 to k
        invariant marks[..] == MarkAll(old(marks[..]), i)
      {
        marks[i] := true;
      }
    }

    /** image_write of the port: outside the store nothing happens. */
    method ImageWrite(off: nat, data: seq<byte>)
      modifies this`store
      ensures store == Put(old(store), off, data)
    {
      if off + |data| <= |store| {
        store := store[..off] + data + store[off + |data|..];
      }
    }

    /** The output loop: marked source chunks to storage. */
    method WriteRows(k: nat)
      requires Valid() && fecOk && k <= BlockK(meta, 0) + meta.nParity && k <= PRESENT
      modifies this`store, this`have
      ensures Valid() && View() == WriteOut(old(View()), k)
    {
      hide Conforming, BlockK, Fits, BufferOf, ChunkAt, U16, Put, StoreRow;
      for i := 0 to k
        invariant Valid() && View() == WriteOut(old(View()), i)
        invariant View() == old(View()).(store := store, have := have)
      {
        WriteRow(i);
      }
    }

    method WriteRow(i: nat)
      requires Valid() && fecOk && i < BlockK(meta, 0) + meta.nParity && i < PRESENT
      modifies this`store, this`have
      ensures Valid() && View() == StoreRow(old(View()), i)
      ensures View() == old(View()).(store := store, have := have)
    {
      hide Conforming, BlockK, Fits, BufferOf, ChunkAt, U16, Put;
      if marks[i] {
        var no := cur * meta.block + i;
        var len := |ChunkAt(meta, store, no)|;
        RowBytes(meta, blockbuf[..], i, len);
        ImageWrite(no * meta.chunk, blockbuf[i * meta.chunk..i * meta.chunk + len]);
        have := U16(have + 1);
      }
    }

    method FlushBlock()
      requires Valid() && haveMeta
      modifies this`store, this`have, this`lost, g, g.exp, g.log, blockbuf, scratch, work, marks
      ensures Valid() && View() == Flush(old(View()))
    {
      hide Conforming, BlockK, Fits, BufferOf, U16, Decoded, CountPresent, WriteOut, AllPresent, MarkAll;
      AnyBlockFits(meta, cur);
      var k := BlockK(meta, cur);
      if k == 0 {
        return;
      }
      ghost var v := View();
      var complete := AllHere(k);
      if !fecOk {
        if !complete {
          lost := U16(lost + 1);
        }
        return;
      }
      BufferShape(meta, blockbuf[..]);
      if !complete && meta.nParity > 0 {
        var n := CountHere();
        if n >= k {
          DecodeBlock(k);
          complete := true;
        }
      }
      WriteRows(k);
      if !complete {
        lost := U16(lost + 1);
      }
    }

    method ResetBlock(b: nat)
      requires Valid()
      modifies this`cur, marks
      ensures Valid() && View() == Reset(old(View()), b)
    {
      hide Conforming, BlockK, Fits, BufferOf;
      cur := b;
      for i := 0 to marks.Length
        invariant forall j :: 0 <= j < i ==> !marks[j]
        invariant Valid() && View() == old(View()).(cur := b, present := marks[..])
      {
        marks[i] := false;
      }
      assert marks[..] == Nothing();
    }

    // ----- recoverability

    /** frames_sent_for_block */
    method FramesSentForBlock(b: nat) returns (n: nat)
      requires Valid()
      ensures n == FramesSent(meta, b, sawAny, maxOrdinal)
    {
      hide Conforming, BlockK, Fits, BufferOf;
      var start := 0;
      for i := 0 to b
        invariant start == Before(meta, i)
      {
        start := start + BlockK(meta, i) + meta.nParity;
      }
      var all := BlockK(meta, b) + meta.nParity;
      var elapsed := if sawAny then maxOrdinal + 1 else 0;
      if elapsed <= start {
        return 0;
      }
      n := if elapsed - start > all then all else elapsed - start;
    }

    /** loraitp_rx_still_recoverable */
    method IsStillRecoverable() returns (yes: bool)
      requires Valid()
      ensures yes == StillRecoverable(View())
    {
      hide Conforming, BlockK, Fits, BufferOf, FramesSent, HaveInBlock;
      if !haveMeta {
        return true;
      }
      var k := BlockK(meta, cur);
      var n := CountHere();
      if n >= k {
        return true;
      }
      var done := FramesSentForBlock(cur);
      yes := n + (k + meta.nParity - done) >= k;
    }

    // ----- frames

    method ArriveFrame(id: FrameId)
      requires Valid() && haveMeta
      modifies this`maxOrdinal, this`sawAny, this`cur, this`store, this`have, this`lost
      modifies g, g.exp, g.log, blockbuf, scratch, work, marks
      ensures Valid() && View() == Arrive(old(View()), id)
    {
      hide Conforming, BlockK, Fits, BufferOf, Flush, Ordinal, BlockNo;
      var ord := FrameOrdinal(meta, id.seqNo, id.parity);
      if !sawAny || ord > maxOrdinal {
        maxOrdinal := ord;
      }
      sawAny := true;
      var blk := BlockNo(meta, id);
      if blk != cur {
        FlushBlock();
        ResetBlock(blk);
      }
    }

    /** memset and memcpy of a payload into its row. */
    method FillRow(slot: nat, payload: seq<byte>)
      requires Valid() && fecOk && slot < BlockK(meta, 0) + meta.nParity && |payload| <= meta.chunk
      modifies blockbuf
      ensures Valid()
      ensures slot < |old(View()).buf|
      ensures View() == old(View()).(buf := old(View()).buf[slot := Pad(payload, meta.chunk)])
    {
      hide Conforming, BlockK, Fits, BufferOf, Rows;
      ghost var before := blockbuf[..];
      RowBytes(meta, before, slot, meta.chunk);
      var at := slot * meta.chunk;
      for j := 0 to meta.chunk
        invariant forall x :: at <= x < at + j ==> blockbuf[x] == Pad(payload, meta.chunk)[x - at]
        invariant forall x :: 0 <= x < blockbuf.Length && !(at <= x < at + j) ==> blockbuf[x] == before[x]
      {
        blockbuf[at + j] := if j < |payload| then payload[j] else 0;
      }
      RowFilled(meta, before, blockbuf[..], slot, payload);
    }

    method PlaceFrame(id: FrameId, payload: seq<byte>)
      requires Valid() && haveMeta && Placeable(View(), id) && |payload| <= meta.chunk
      modifies this`store, this`have, blockbuf, marks
      ensures Valid() && View() == Place(old(View()), id, payload)
    {
      hide Conforming, BlockK, Fits, BufferOf, SlotNo, Put, U16;
      var slot := SlotNo(meta, id);
      if fecOk {
        BufferShape(meta, blockbuf[..]);
        FillRow(slot, payload);
        marks[slot] := true;
      } else if !marks[slot] {
        ImageWrite(id.seqNo * meta.chunk, payload);
        marks[slot] := true;
        have := U16(have + 1);
      }
    }

    /** Early completion and early abandonment. */
    method JudgeProgress()
      requires Valid() && haveMeta
      modifies this`outcome, this`store, this`have, this`lost, g, g.exp, g.log, blockbuf, scratch, work, marks
      ensures Valid() && View() == Judge(old(View()))
    {
      hide Conforming, BlockK, NBlocks, Fits, BufferOf, Flush, HaveInBlock, StillRecoverable;
      if broadcast {
        var n := CountHere();
        if cur + 1 == NBlocks(meta) && n >= BlockK(meta, cur) {
          FlushBlock();
          outcome := if lost != 0 then Incomplete else Complete;
          return;
        }
        var ok := IsStillRecoverable();
        if !ok {
          FlushBlock();
          outcome := Unrecoverable;
        }
      }
    }

    method HearFrame(id: FrameId, payload: seq<byte>)
      requires Valid() && haveMeta && |payload| <= meta.chunk
      modifies this`maxOrdinal, this`sawAny, this`cur, this`outcome, this`store, this`have, this`lost
      modifies g, g.exp, g.log, blockbuf, scratch, work, marks
      ensures Valid() && View() == OnData(old(View()), id, payload)
    {
      hide Conforming, BlockK, Fits, BufferOf, SlotNo, BlockNo, Arrive, Place, Judge;
      ArriveFrame(id);
      if fecOk {
        BufferShape(meta, blockbuf[..]);
      }
      IsPlaceable(meta, fecOk, View(), id);
      var k := BlockK(meta, BlockNo(meta, id));
      if SlotNo(meta, id) < k + meta.nParity && (fecOk || !id.parity) {
        PlaceFrame(id, payload);
        JudgeProgress();
      }
    }

    // ----- the other packets

    method HearEob(b: nat, round: nat) returns (answer: Option<Packet>)
      requires Valid() && haveMeta && outcome == Listening
      modifies this`cur, this`store, this`have, this`lost, g, g.exp, g.log, blockbuf, scratch, work, marks
      ensures Valid() && (View(), answer) == OnPacket(old(View()), EobP(b, round))
    {
      hide Conforming, BlockK, Fits, BufferOf, Flush, Report, MissingUpTo;
      if b != cur {
        FlushBlock();
        ResetBlock(b);
      }
      answer := ReportMissing(round);
    }

    /** The STAT for the current block. */
    method ReportMissing(round: nat) returns (answer: Option<Packet>)
      requires Valid() && haveMeta
      ensures answer == Report(cur, round, MissingUpTo(View(), BlockK(meta, cur)), Base(View()))
    {
      hide Conforming, BlockK, Fits, BufferOf, Stat.ChooseEnc, Stat.EncodeBody;
      AnyBlockFits(meta, cur);
      var base := cur * meta.block;
      var missing: seq<nat> := [];
      for i := 0 to BlockK(meta, cur)
        invariant missing == MissingUpTo(View(), i)
      {
        if !marks[i] {
          missing := missing + [base + i];
        }
      }
      var enc := Stat.ChooseEnc(missing, base);
      var body := Stat.EncodeStatBody(enc, missing, base, 255);
      match body {
        case None => answer := None;
        case Some(bytes) => answer := Some(StatP(cur, round, enc, bytes));
      }
    }

    method HearFin() returns (answer: Option<Packet>)
      requires Valid() && haveMeta && outcome == Listening
      modifies this`outcome, this`store, this`have, this`lost, g, g.exp, g.log, blockbuf, scratch, work, marks
      ensures Valid() && (View(), answer) == OnPacket(old(View()), FinP)
    {
      hide Conforming, BlockK, Fits, BufferOf, Flush;
      FlushBlock();
      var complete := have == total;
      outcome := if complete then Complete else Incomplete;
      answer := if broadcast then None else Some(FinAckP(if complete then 0 else 2));
    }

    /** A META of another image than the one in progress starts a transfer, in the memory as it is. */
    method HearMeta(m: Meta)
      requires Valid() && Conforming(m)
      modifies this, marks
      ensures Valid()
      ensures View() == if !old(haveMeta) || old(meta).imgId != m.imgId
                        then Begin(old(View()).(memory := old(blockbuf[..])), m) else old(View())
    {
      hide *;
      if !haveMeta || meta.imgId != m.imgId {
        BeginTransfer(m);
      }
    }

    method BeginTransfer(m: Meta)
      requires Valid() && Conforming(m)
      modifies this, marks
      ensures Valid() && View() == Begin(old(View()).(memory := old(blockbuf[..])), m)
    {
      hide Conforming, NChunks, BlockK, SessionScratch, BufferRows, Zeros, BufferOf, Fits, Begin, Nothing;
      ghost var v := View();
      TakeMeta(m);
      FreshCounts(m);
      ResetBlock(0);
      BeginIs(v.(memory := memory), m);
    }

    /** The META itself, and whether the scratch memory holds its blocks. */
    method TakeMeta(m: Meta)
      requires Valid() && Conforming(m)
      modifies this`memory, this`haveMeta, this`meta, this`fecOk
      ensures Valid() && memory == old(blockbuf[..]) == blockbuf[..] && haveMeta && meta == m
      ensures fecOk == (|memory| > 0 && |memory| >= SessionScratch(BlockK(m, 0), m.nParity, m.chunk))
    {
      hide Conforming, NChunks, BlockK, SessionScratch, Fits, GfTables.Valid;
      FitsIs(m, blockbuf[..]);
      memory := blockbuf[..];
      haveMeta, meta := true, m;
      fecOk := blockbuf.Length > 0 && blockbuf.Length >= SessionScratch(BlockK(m, 0), m.nParity, m.chunk);
    }

    method FreshCounts(m: Meta)
      requires Valid()
      modifies this`total, this`have, this`store, this`sawAny, this`maxOrdinal
      ensures Valid()
      ensures total == NChunks(m) && have == 0 && store == Zeros(m.imgLen) && !sawAny && maxOrdinal == 0
    {
      hide Conforming, NChunks, BlockK, SessionScratch, Fits, Zeros, GfTables.Valid;
      total := NChunks(m);
      have := 0;
      store := Zeros(m.imgLen);
      sawAny := false;
      maxOrdinal := 0;
    }

    /** A listening window that closed empty. */
    method Silence()
      requires Valid()
      modifies this`outcome
      ensures Valid() && View() == OnSilence(old(View()))
    {
      hide Conforming, BlockK, Fits, BufferOf, StillRecoverable;
      if outcome == Listening && haveMeta && broadcast {
        var ok := IsStillRecoverable();
        if !ok {
          outcome := Unrecoverable;
        }
      }
    }

    /** The receiver has met no other transfer than m. */
    ghost predicate InStep(m: Meta)
      reads this
    {
      haveMeta ==> meta == m
    }

    /** One packet: the object does what the state machine does, and says what it says. */
    method Hear(ghost m: Meta, p: Packet) returns (answer: Option<Packet>)
      requires Valid() && InStep(m) && Plausible(m, p)
      modifies this, g, g.exp, g.log, blockbuf, scratch, work, marks
      ensures Valid() && InStep(m) && (View(), answer) == OnPacket(old(View()), p)
    {
      hide Conforming, BlockK, Fits, BufferOf, OnData, Begin, Flush, Report, MissingUpTo;
      answer := None;
      if outcome != Listening {
        return;
      }
      match p {
        case MetaP(m') =>
          HearMeta(m');
          assert haveMeta && meta == m' by {
            BeginMeta(old(View()).(memory := old(blockbuf[..])), m');
          }
        case DataP(id, payload) =>
          if haveMeta {
            HearFrame(id, payload);
          }
        case EobP(b, round) =>
          if haveMeta {
            answer := HearEob(b, round);
          }
        case FinP =>
          if haveMeta {
            answer := HearFin();
          }
        case _ =>
      }
    }

    /** loraitp_receive_image: packets and silences until there is a result. */
    method ReceiveImage(ghost m: Meta, events: seq<Event>) returns (said: seq<Packet>)
      requires Valid() && InStep(m)
      requires forall i :: 0 <= i < |events| && events[i].Heard? ==> Plausible(m, events[i].p)
      modifies this, g, g.exp, g.log, blockbuf, scratch, work, marks
      ensures Valid() && View() == After(old(View()), events) && said == Says(old(View()), events)
    {
      hide Conforming, BlockK, Fits, BufferOf, OnPacket, OnSilence;
      said := [];
      var i := 0;
      assert events[..0] == [];
      while i < |events| && outcome == Listening
        invariant i <= |events| && Valid() && InStep(m)
        invariant View() == After(old(View()), events[..i]) && said == Says(old(View()), events[..i])
      {
        assert events[..i + 1][..i] == events[..i];
        match events[i] {
          case Silent => Silence();
          case Heard(p) =>
            var answer := Hear(m, p);
            if answer.Some? {
              said := said + [answer.value];
            }
        }
        i := i + 1;
      }
      StoppedIsDone(old(View()), events, i);
      assert events[..|events|] == events;
    }
  }

  lemma CountTake(present: seq<bool>, n: nat)
    requires n <= |present|
    ensures CountPresent(present[..n], n) == CountPresent(present, n)
  {
    Reception.CountSlice(present, n, n);
  }
}
