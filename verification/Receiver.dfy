/** The receiver's state machine: what each packet heard, or each silence, does to its state. */
module Receiver {
  import opened Wrappers
  import opened Bytes
  import opened Arithmetic
  import opened Frames
  import opened Image
  import opened Linear
  import opened Erasure
  import opened Layout
  import opened Sender
  import Stat

  datatype Outcome = Listening | Complete | Incomplete | Unrecoverable

  /** Entries of the reception bitmap. */
  const PRESENT: nat := 384

  datatype Rx = Rx(
    broadcast: bool,
    memory: seq<byte>,     // the caller's scratch memory as handed over; empty when there is none
    haveMeta: bool,
    meta: Meta,
    fecOk: bool,
    cur: nat,
    present: seq<bool>,
    buf: Matrix,           // the block buffer, a row per frame of a block
    store: seq<byte>,      // the image store
    maxOrdinal: nat,
    sawAny: bool,
    have: nat,             // chunks_have
    total: nat,            // chunks_total
    lost: nat,             // blocks_lost
    outcome: Outcome)

  function Nothing(): seq<bool> {
    seq(PRESENT, _ => false)
  }

  /** loraitp_fec_session_scratch */
  function SessionScratch(k: nat, r: nat, chunk: nat): nat {
    (k + r) * chunk + k * (2 * k) + chunk
  }

  function Start(broadcast: bool, memory: seq<byte>): Rx {
    Rx(broadcast, memory, false, Meta(0, 0, 0, 0, 0), false, 0, Nothing(), [], [], 0, false, 0, 0, 0, Listening)
  }

  // ----- counting

  function Slots(rx: Rx): nat {
    BlockK(rx.meta, rx.cur) + rx.meta.nParity
  }

  /** The first chunk of the current block. */
  function Base(rx: Rx): nat {
    rx.cur * rx.meta.block
  }

  /** have_in_block; the bitmap is longer than any block. */
  ghost function HaveInBlock(rx: Rx): nat {
    if Slots(rx) <= |rx.present| then CountPresent(rx.present, Slots(rx)) else 0
  }

  /** frames_sent_for_block */
  function FramesSent(m: Meta, b: nat, sawAny: bool, maxOrdinal: nat): nat {
    var start, all := Before(m, b), BlockK(m, b) + m.nParity;
    var elapsed := if sawAny then maxOrdinal + 1 else 0;
    if elapsed <= start then 0 else if elapsed - start > all then all else elapsed - start
  }

  /** loraitp_rx_still_recoverable */
  ghost predicate StillRecoverable(rx: Rx) {
    !rx.haveMeta
    || HaveInBlock(rx) >= BlockK(rx.meta, rx.cur)
    || HaveInBlock(rx) + (Slots(rx) - FramesSent(rx.meta, rx.cur, rx.sawAny, rx.maxOrdinal)) >= BlockK(rx.meta, rx.cur)
  }

  // ----- flushing a block

  predicate AllPresent(present: seq<bool>, k: nat) {
    k <= |present| && forall i :: 0 <= i < k ==> present[i]
  }

  function MarkAll(present: seq<bool>, k: nat): (p: seq<bool>)
    ensures |p| == |present|
  {
    seq(|present|, i requires 0 <= i < |present| => i < k || present[i])
  }

  /** d is a block that explains the k frames a decoder picks. */
  ghost predicate Explains(d: Matrix, frames: Matrix, present: seq<bool>, k: nat, r: nat, len: nat) {
    && k + r <= 255 && |present| == k + r && Shape(frames, k + r, len) && Shape(d, k, len)
    && forall i :: i in Picked(present, k + r, k) && i < k + r ==> CodeFrame(d, k, r, len, i) == frames[i]
  }

  /** The source chunks erasure decoding leaves in the buffer. */
  ghost function Decoded(frames: Matrix, present: seq<bool>, k: nat, r: nat, len: nat): Matrix {
    if d :| Explains(d, frames, present, k, r, len) then d else frames
  }

  /** Writing past the end of the image does not happen for a conforming transfer. */
  function Put(store: seq<byte>, off: nat, data: seq<byte>): (s: seq<byte>)
    ensures |s| == |store|
  {
    if off + |data| <= |store| then WriteAt(store, off, data) else store
  }

  /** Source chunk i of the block handed to storage, unpadded, and counted, if it is present. */
  function StoreRow(rx: Rx, i: nat): Rx {
    if i < |rx.present| && rx.present[i] && i < |rx.buf| then
      var no := Base(rx) + i;
      var len, row := |ChunkAt(rx.meta, rx.store, no)|, rx.buf[i];
      rx.(store := Put(rx.store, no * rx.meta.chunk, if len <= |row| then row[..len] else row),
          have := U16(rx.have + 1))
    else rx
  }

  /** The first n source chunks. */
  function WriteOut(rx: Rx, n: nat): Rx {
    if n == 0 then rx else StoreRow(WriteOut(rx, n - 1), n - 1)
  }

  ghost predicate CanDecode(rx: Rx) {
    var k := BlockK(rx.meta, rx.cur);
    && !AllPresent(rx.present, k) && rx.meta.nParity > 0 && HaveInBlock(rx) >= k
    && Slots(rx) <= |rx.present| && Slots(rx) <= |rx.buf|
  }

  /** flush_block */
  ghost function Flush(rx: Rx): Rx {
    var k := BlockK(rx.meta, rx.cur);
    if k == 0 then rx
    else
      var complete := AllPresent(rx.present, k);
      if !rx.fecOk then rx.(lost := if complete then rx.lost else U16(rx.lost + 1))
      else if CanDecode(rx) then
        var n := Slots(rx);
        var d := Decoded(rx.buf[..n], rx.present[..n], k, rx.meta.nParity, rx.meta.chunk);
        WriteOut(rx.(buf := d + rx.buf[k..], present := MarkAll(rx.present, k)), k)
      else
        var w := WriteOut(rx, k);
        w.(lost := if complete then w.lost else U16(w.lost + 1))
  }

  function Reset(rx: Rx, b: nat): Rx {
    rx.(cur := b, present := Nothing())
  }

  // ----- packets

  /** The first n rows of the scratch memory: the block buffer, uncleared. */
  function BufferRows(memory: seq<byte>, w: nat, n: nat): Matrix {
    if n * w <= |memory| then Rows(memory, w, n) else []
  }

  function Zeros(n: nat): (s: seq<byte>)
    ensures |s| == n && forall x :: 0 <= x < n ==> s[x] == 0
  {
    seq(n, _ => 0)
  }

  /** A META for a new image: a fresh store, and erasure coding if the scratch can hold a block. */
  function Begin(rx: Rx, m: Meta): Rx {
    var k := BlockK(m, 0);
    var ok := |rx.memory| > 0 && |rx.memory| >= SessionScratch(k, m.nParity, m.chunk);
    Reset(rx.(haveMeta := true, meta := m, fecOk := ok,
              buf := if ok then BufferRows(rx.memory, m.chunk, k + m.nParity) else [],
              store := Zeros(m.imgLen),
              total := NChunks(m), have := 0, sawAny := false, maxOrdinal := 0), 0)
  }

  /** Ordinal bookkeeping and the change of block, before a DATA or PARITY frame is placed. */
  ghost function Arrive(rx: Rx, id: FrameId): Rx {
    var ord := Ordinal(rx.meta, id.seqNo, id.parity);
    var seen := rx.(maxOrdinal := if !rx.sawAny || ord > rx.maxOrdinal then ord else rx.maxOrdinal, sawAny := true);
    var blk := BlockNo(rx.meta, id);
    if blk != seen.cur then Reset(Flush(seen), blk) else seen
  }

  function ParityOrOne(m: Meta): (n: nat)
    ensures n > 0
  {
    if m.nParity != 0 then m.nParity else 1
  }

  function BlockNo(m: Meta, id: FrameId): nat {
    if id.parity then Quot(id.seqNo, ParityOrOne(m)) else Quot(id.seqNo, BlockSize(m))
  }

  function SlotNo(m: Meta, id: FrameId): nat {
    if id.parity then BlockK(m, BlockNo(m, id)) + Rem(id.seqNo, ParityOrOne(m)) else Rem(id.seqNo, BlockSize(m))
  }

  /** Whether the frame's place exists, and is looked at at all without erasure coding. */
  predicate Placeable(rx: Rx, id: FrameId) {
    && SlotNo(rx.meta, id) < BlockK(rx.meta, BlockNo(rx.meta, id)) + rx.meta.nParity
    && SlotNo(rx.meta, id) < |rx.present|
    && (if rx.fecOk then SlotNo(rx.meta, id) < |rx.buf| else !id.parity)
  }

  /** The frame into the block buffer, or straight to storage. */
  function Place(rx: Rx, id: FrameId, payload: seq<byte>): Rx
    requires Placeable(rx, id)
  {
    var slot := SlotNo(rx.meta, id);
    if rx.fecOk then
      rx.(buf := rx.buf[slot := Pad(payload, rx.meta.chunk)], present := rx.present[slot := true])
    else if !rx.present[slot] then
      rx.(store := Put(rx.store, id.seqNo * rx.meta.chunk, payload), present := rx.present[slot := true],
          have := U16(rx.have + 1))
    else rx
  }

  /** Early completion and early abandonment, after each frame placed in broadcast mode. */
  ghost function Judge(rx: Rx): Rx {
    if !rx.broadcast then rx
    else if rx.cur + 1 == NBlocks(rx.meta) && HaveInBlock(rx) >= BlockK(rx.meta, rx.cur) then
      var f := Flush(rx);
      f.(outcome := if f.lost != 0 then Incomplete else Complete)
    else if !StillRecoverable(rx) then Flush(rx).(outcome := Unrecoverable)
    else rx
  }

  ghost function OnData(rx: Rx, id: FrameId, payload: seq<byte>): Rx {
    var a := Arrive(rx, id);
    if Placeable(a, id) then Judge(Place(a, id, payload)) else a
  }

  /** The source chunks of the current block not yet present. */
  function MissingUpTo(rx: Rx, n: nat): (missing: seq<nat>)
    ensures forall i :: 0 <= i < |missing| ==> Base(rx) <= missing[i]
  {
    if n == 0 then []
    else
      var before := MissingUpTo(rx, n - 1);
      if n - 1 < |rx.present| && rx.present[n - 1] then before
      else before + [Base(rx) + (n - 1)]
  }

  function Report(block: nat, round: nat, missing: seq<nat>, base: nat): Option<Packet>
    requires forall i :: 0 <= i < |missing| ==> base <= missing[i]
  {
    var enc := Stat.ChooseEnc(missing, base);
    match Stat.EncodeBody(enc, missing, base, 255)
    case None => None
    case Some(body) => Some(StatP(block, round, enc, body))
  }

  /** The receiver's move on hearing p: its next state, and its answer if any. */
  ghost function OnPacket(rx: Rx, p: Packet): (Rx, Option<Packet>) {
    if rx.outcome != Listening then (rx, None)
    else
      match p
      case MetaP(m) => (if !rx.haveMeta || rx.meta.imgId != m.imgId then Begin(rx, m) else rx, None)
      case DataP(id, payload) => (if rx.haveMeta then OnData(rx, id, payload) else rx, None)
      case EobP(block, round) =>
        if !rx.haveMeta then (rx, None)
        else
          var a := if block != rx.cur then Reset(Flush(rx), block) else rx;
          (a, Report(block, round, MissingUpTo(a, BlockK(a.meta, block)), Base(a)))
      case FinP =>
        if !rx.haveMeta then (rx, None)
        else
          var f := Flush(rx);
          var done := f.have == f.total;
          (f.(outcome := if done then Complete else Incomplete),
           if rx.broadcast then None else Some(FinAckP(if done then 0 else 2)))
      case _ => (rx, None)
  }

  /** A listening window that closed empty. */
  ghost function OnSilence(rx: Rx): Rx {
    if rx.outcome == Listening && rx.haveMeta && rx.broadcast && !StillRecoverable(rx)
    then rx.(outcome := Unrecoverable) else rx
  }
}
