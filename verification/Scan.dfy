/**
  The entropy-coded scan: blocks chained by DC prediction, cut into restart intervals by markers, and read
  back by a decoder that can start at any of them.
*/
module Scan {
  import opened Wrappers
  import opened Bytes
  import opened BlockCoder
  import opened Segments
  import H = Huffman

  // ----- what the encoder means to put out

  /** The bits of a run of blocks, the first predicted from "pred". */
  function ChainBits(dc: Coder, ac: Coder, blocks: seq<Block>, pred: int): seq<bool> {
    if |blocks| == 0 then []
    else BlockBits(dc, ac, blocks[0], pred) + ChainBits(dc, ac, blocks[1..], blocks[0][0])
  }

  /** The prediction after a run of blocks. */
  function PredAfter(blocks: seq<Block>, pred: int): int {
    if |blocks| == 0 then pred else blocks[|blocks| - 1][0]
  }

  lemma {:induction false} ChainNext(dc: Coder, ac: Coder, blocks: seq<Block>, q: Block, pred: int)
    ensures ChainBits(dc, ac, blocks + [q], pred)
            == ChainBits(dc, ac, blocks, pred) + BlockBits(dc, ac, q, PredAfter(blocks, pred))
  {
    hide BlockBits;
    var all := blocks + [q];
    if |blocks| == 0 {
      assert all[1..] == [];
      assert ChainBits(dc, ac, all, pred) == BlockBits(dc, ac, q, pred) + [];
    } else {
      ChainNext(dc, ac, blocks[1..], q, blocks[0][0]);
      assert all[1..] == blocks[1..] + [q];
    }
  }

  const RST0: byte := 0xD0
  const EOI: byte := 0xD9

  function Rst(n: nat): byte {
    RST0 + n % 8
  }

  /** Blocks in the first restart interval; an interval of zero means no markers. */
  function InFirst(n: nat, interval: nat): (k: nat)
    ensures k <= n
  {
    if interval == 0 || n <= interval then n else interval
  }

  /** The scan's bytes: a segment per restart interval, RST markers between them. */
  function ScanBytes(dc: Coder, ac: Coder, blocks: seq<Block>, interval: nat, rst: nat): seq<byte>
    decreases |blocks|
  {
    var k := InFirst(|blocks|, interval);
    if k == |blocks| then Segment(ChainBits(dc, ac, blocks, 0))
    else
      Segment(ChainBits(dc, ac, blocks[..k], 0)) + [0xFF, Rst(rst)] + ScanBytes(dc, ac, blocks[k..], interval, rst + 1)
  }

  // ----- the decoder

  /** n blocks off a bit string. */
  function ReadBlocks(dc: H.Table, ac: H.Table, n: nat, s: seq<bool>, pred: int): H.Read<seq<Block>>
    requires |dc.bits| == |ac.bits| == 17
  {
    if n == 0 then H.Got([], s)
    else
      match ReadBlock(dc, ac, s, pred)
      case Failed => H.Failed
      case Got(q, rest) =>
        match ReadBlocks(dc, ac, n - 1, rest, q[0])
        case Failed => H.Failed
        case Got(more, end) => H.Got([q] + more, end)
  }

  /** A segment on its own: its bytes, and how many blocks are in it. */
  function ReadSegment(dc: H.Table, ac: H.Table, n: nat, data: seq<byte>): Option<seq<Block>>
    requires |dc.bits| == |ac.bits| == 17
  {
    match ReadBlocks(dc, ac, n, Unpack(Unstuff(data)), 0)
    case Failed => None
    case Got(blocks, _) => Some(blocks)
  }

  /** n blocks from a scan whose next marker is RST number rst, or EOI, as table B.1 of T.81 numbers them. */
  function ReadScan(dc: H.Table, ac: H.Table, s: seq<byte>, n: nat, interval: nat, rst: nat): Option<seq<Block>>
    requires |dc.bits| == |ac.bits| == 17
    decreases n
  {
    match NextMarker(s)
    case NoMarkerLeft => None
    case Piece(data, marker, rest) =>
      var k := if interval == 0 || n <= interval then n else interval;
      match ReadSegment(dc, ac, k, data)
      case None => None
      case Some(blocks) =>
        if k == n then if marker == 0xD9 then Some(blocks) else None
        else if marker as int != 0xD0 + rst % 8 then None
        else
          match ReadScan(dc, ac, rest, n - k, interval, rst + 1)
          case None => None
          case Some(more) => Some(blocks + more)
  }

  // ----- round trips

  ghost predicate AllBaseline(blocks: seq<Block>) {
    forall i :: 0 <= i < |blocks| ==> Baseline(blocks[i])
  }

  lemma TablesShape(dc: Coder, ac: Coder)
    requires CoversDc(dc) && CoversAc(ac)
    ensures |dc.table.bits| == |ac.table.bits| == 17
  {
  }

  lemma {:induction false} ChainBack(dc: Coder, ac: Coder, blocks: seq<Block>, pred: int, rest: seq<bool>)
    requires CoversDc(dc) && CoversAc(ac) && AllBaseline(blocks) && -1024 <= pred <= 1023
    requires |dc.table.bits| == |ac.table.bits| == 17
    ensures ReadBlocks(dc.table, ac.table, |blocks|, ChainBits(dc, ac, blocks, pred) + rest, pred) == H.Got(blocks, rest)
  {
    hide CoversDc, CoversAc, BlockBits, ReadBlock, SmallAc;
    if |blocks| == 0 {
      assert [] + rest == rest;
    } else {
      assert Baseline(blocks[0]);
      var more := ChainBits(dc, ac, blocks[1..], blocks[0][0]);
      assert ChainBits(dc, ac, blocks, pred) + rest == BlockBits(dc, ac, blocks[0], pred) + (more + rest);
      BlockBack(dc, ac, blocks[0], pred, more + rest);
      ChainBack(dc, ac, blocks[1..], blocks[0][0], rest);
      assert [blocks[0]] + blocks[1..] == blocks;
    }
  }

  /** Every restart interval decodes on its own, from its bytes alone. */
  lemma IntervalBack(dc: Coder, ac: Coder, blocks: seq<Block>)
    requires CoversDc(dc) && CoversAc(ac) && AllBaseline(blocks)
    ensures |dc.table.bits| == |ac.table.bits| == 17
    ensures ReadSegment(dc.table, ac.table, |blocks|, Segment(ChainBits(dc, ac, blocks, 0))) == Some(blocks)
    ensures NoMarker(Segment(ChainBits(dc, ac, blocks, 0)))
  {
    hide CoversDc, CoversAc, AllBaseline, Segment, Unpack, Unstuff, Ones, Short, ReadBlocks, ChainBits;
    TablesShape(dc, ac);
    var bits := ChainBits(dc, ac, blocks, 0);
    SegmentBits(bits);
    ChainBack(dc, ac, blocks, 0, Ones(Short(|bits|)));
  }

  /**
    The scan decodes to exactly the blocks encoded, for any restart interval, and so does the rest of a scan
    from any of its markers on: a decoder that lost everything before can resume there.
  */
  lemma {:induction false} ScanBack(dc: Coder, ac: Coder, blocks: seq<Block>, interval: nat, rst: nat, after: seq<byte>)
    requires CoversDc(dc) && CoversAc(ac) && AllBaseline(blocks)
    ensures |dc.table.bits| == |ac.table.bits| == 17
    ensures ReadScan(dc.table, ac.table, ScanBytes(dc, ac, blocks, interval, rst) + [0xFF, EOI] + after,
                     |blocks|, interval, rst) == Some(blocks)
    decreases |blocks|
  {
    hide CoversDc, CoversAc, Segment, ReadSegment, NextMarker, ChainBits;
    TablesShape(dc, ac);
    var k := InFirst(|blocks|, interval);
    assert AllBaseline(blocks[..k]) && AllBaseline(blocks[k..]);
    IntervalBack(dc, ac, blocks[..k]);
    if k == |blocks| {
      assert blocks[..k] == blocks;
      SegmentEnds(ChainBits(dc, ac, blocks, 0), EOI, after);
    } else {
      var more := ScanBytes(dc, ac, blocks[k..], interval, rst + 1);
      Behind(Segment(ChainBits(dc, ac, blocks[..k], 0)), Rst(rst), more, after);
      SegmentEnds(ChainBits(dc, ac, blocks[..k], 0), Rst(rst), more + [0xFF, EOI] + after);
      ScanBack(dc, ac, blocks[k..], interval, rst + 1, after);
      assert blocks[..k] + blocks[k..] == blocks;
    }
  }

  lemma SegmentEnds(bits: seq<bool>, marker: byte, rest: seq<byte>)
    requires marker != 0
    ensures NextMarker(Segment(bits) + [0xFF, marker] + rest) == Piece(Segment(bits), marker, rest)
  {
    hide Stuff, NextMarker, Pack, Padded;
    MarkerFound(Pack(Padded(bits)), marker, rest);
  }

  lemma Behind(data: seq<byte>, marker: byte, more: seq<byte>, after: seq<byte>)
    ensures data + [0xFF, marker] + more + [0xFF, EOI] + after == data + [0xFF, marker] + (more + [0xFF, EOI] + after)
  {
  }
}
