/** The encoder's loops over coefficients and blocks, proved to put out what the scan is meant to be. */
module ScanEncoder {
  import opened Wrappers
  import opened Arithmetic
  import opened Bytes
  import opened BitStrings
  import opened Magnitude
  import opened BlockCoder
  import opened Segments
  import opened Scan
  import H = Huffman
  import W = BitWriter

  // ----- symbols and extra bits

  /** One symbol through put_bits. */
  method PutSymbol(w: W.Writer, c: Coder, sym: nat)
    requires w.Valid() && Sound(c) && sym in c.table.vals
    modifies w, w.buf
    ensures w.Valid() && w.done == old(w.done) && w.bits == old(w.bits) + Code(c, sym)
  {
    hide Sound, Word, W.Writer.Valid;
    SymbolBack(c, sym, []);
    SymbolFits(c, sym);
    w.PutBits(c.codes[sym], c.sizes[sym]);
  }

  lemma SymbolFits(c: Coder, sym: nat)
    requires Sound(c) && sym in c.table.vals && sym < |c.codes| && sym < |c.sizes| && c.sizes[sym] <= 16
    ensures c.codes[sym] < 0x1_0000 && c.codes[sym] % Pow2(c.sizes[sym]) == c.codes[sym]
  {
    hide H.Proper, H.Built, H.ReadSymbol, Word, Pow2;
    H.BuiltReadsBack(c.table, c.codes, c.sizes, sym, []);
    H.Pow2Bound(c.sizes[sym]);
    SmallRemainder(c.codes[sym], Pow2(c.sizes[sym]));
  }

  lemma SmallRemainder(a: nat, p: nat)
    requires a < p
    ensures a % p == a
  {
  }

  method PutExtra(w: W.Writer, v: int, n: nat, bits: nat)
    requires w.Valid() && n == Size(v) <= 11 && bits == Extra(v)
    modifies w, w.buf
    ensures w.Valid() && w.done == old(w.done) && w.bits == old(w.bits) + ExtraBits(v)
  {
    hide Size, Extra, Extend, Word, Pow2, W.Writer.Valid;
    ExtendInverts(v);
    H.Pow2Bound(n);
    w.PutBits(bits, n);
  }

  // ----- one block

  /** The integer half of encode_block. */
  method EncodeBlock(w: W.Writer, dc: Coder, ac: Coder, q: Block, pred: int) returns (next: int)
    requires w.Valid() && CoversDc(dc) && CoversAc(ac) && Baseline(q) && -1024 <= pred <= 1023
    modifies w, w.buf
    ensures w.Valid() && w.done == old(w.done) && w.bits == old(w.bits) + BlockBits(dc, ac, q, pred)
    ensures next == q[0]
  {
    hide W.Writer.Valid, Size, Extra, Code, ExtraBits, AcBits, Zigzagged, Sound, CoversAc, Last, SmallAc;
    var diff := q[0] - pred;
    next := q[0];
    SmallSize(diff);
    var n, bits := CountMagnitude(diff);
    PutSymbol(w, dc, n);
    PutExtra(w, diff, n, bits);
    ZigzagSmall(q);
    EncodeAc(w, ac, Zigzagged(q));
  }

  /** The AC coefficients, run-length coded. */
  method EncodeAc(w: W.Writer, ac: Coder, zz: Block)
    requires w.Valid() && CoversAc(ac) && forall j :: 1 <= j < 64 ==> SmallAc(zz[j])
    modifies w, w.buf
    ensures w.Valid() && w.done == old(w.done) && w.bits == old(w.bits) + AcBits(ac, zz, 1, 0, Last(zz, 64))
  {
    hide W.Writer.Valid, Size, Extra, Code, CoversAc, SmallAc, AcBits, CoefBits, Zrls;
    var last := 0;
    for i := 1 to 64
      invariant last == Last(zz, i)
    {
      if zz[i] != 0 {
        last := i;
      }
    }
    ghost var all := w.bits + AcBits(ac, zz, 1, 0, last);
    var run := 0;
    for i := 1 to last + 1
      invariant w.Valid() && w.done == old(w.done) && run < i
      invariant w.bits + AcBits(ac, zz, i, run, last) == all
    {
      AcStep(ac, zz, i, run, last);
      if zz[i] == 0 {
        run := run + 1;
      } else {
        RegroupHere(w.bits, Zrls(ac, run / 16), CoefBits(ac, run % 16, zz[i]), AcBits(ac, zz, i + 1, 0, last));
        run := PutRun(w, ac, run);
        PutCoefficient(w, ac, run, zz[i]);
        run := 0;
      }
    }
    AcEnd(ac, zz, run, last);
    if last < 63 {
      CoversSymbols(ac);
      PutSymbol(w, ac, EOB);
    } else {
      assert w.bits + [] == w.bits;
    }
  }

  lemma AcStep(ac: Coder, zz: Block, i: nat, run: nat, last: nat)
    requires 1 <= i <= last < 64
    ensures AcBits(ac, zz, i, run, last)
            == if zz[i] == 0 then AcBits(ac, zz, i + 1, run + 1, last)
               else Zrls(ac, run / 16) + (CoefBits(ac, run % 16, zz[i]) + AcBits(ac, zz, i + 1, 0, last))
  {
    hide Zrls, CoefBits, Code;
  }

  lemma AcEnd(ac: Coder, zz: Block, run: nat, last: nat)
    requires last < 64
    ensures AcBits(ac, zz, last + 1, run, last) == if last < 63 then Code(ac, EOB) else []
  {
    hide Code;
  }

  lemma RegroupHere(a: seq<bool>, b: seq<bool>, c: seq<bool>, d: seq<bool>)
    ensures a + (b + (c + d)) == a + b + c + d
  {
  }

  lemma CoversSymbols(ac: Coder)
    requires CoversAc(ac)
    ensures Sound(ac) && EOB in ac.table.vals && ZRL in ac.table.vals
  {
    hide Sound;
  }

  /** A ZRL for every sixteen zeroes; what is left of the run. */
  method PutRun(w: W.Writer, ac: Coder, run: nat) returns (left: nat)
    requires w.Valid() && CoversAc(ac)
    modifies w, w.buf
    ensures w.Valid() && w.done == old(w.done) && w.bits == old(w.bits) + Zrls(ac, run / 16) && left == run % 16
  {
    hide W.Writer.Valid, Code, CoversAc;
    CoversSymbols(ac);
    left := run;
    while left > 15
      invariant w.Valid() && w.done == old(w.done) && left % 16 == run % 16 && left <= run
      invariant w.bits + Zrls(ac, left / 16) == old(w.bits) + Zrls(ac, run / 16)
      decreases left
    {
      assert left / 16 == 1 + (left - 16) / 16;
      assert w.bits + (Code(ac, ZRL) + Zrls(ac, (left - 16) / 16)) == w.bits + Code(ac, ZRL) + Zrls(ac, (left - 16) / 16);
      PutSymbol(w, ac, ZRL);
      left := left - 16;
    }
    assert w.bits + [] == w.bits;
  }

  method PutCoefficient(w: W.Writer, ac: Coder, run: nat, v: int)
    requires w.Valid() && CoversAc(ac) && run <= 15 && v != 0 && SmallAc(v)
    modifies w, w.buf
    ensures w.Valid() && w.done == old(w.done) && w.bits == old(w.bits) + CoefBits(ac, run, v)
  {
    hide W.Writer.Valid, Code, Size, Extra, ExtraBits, Sound;
    SmallSize(v);
    var n, bits := CountMagnitude(v);
    assert HasRunSize(ac, run, n);
    PutSymbol(w, ac, 16 * run + n);
    PutExtra(w, v, n, bits);
  }

  // ----- the scan

  /** The blocks of the interval under way, and those before it. */
  ghost predicate Underway(w: W.Writer, dc: Coder, ac: Coder, blocks: seq<Block>, interval: nat, all: seq<byte>,
                           start: nat, n: nat, rst: nat, pred: int)
    reads w
  {
    && start <= n <= |blocks| && (start < n || n == 0) && (interval > 0 ==> n <= start + interval && start % interval == 0)
    && (interval == 0 ==> start == 0)
    && w.bits == ChainBits(dc, ac, blocks[start..n], 0) && pred == PredAfter(blocks[start..n], 0)
    && w.done + ScanBytes(dc, ac, blocks[start..], interval, rst) == all
  }

  /** The loop of loraitp_jpeg_encode over the blocks in raster order, from the scan's first byte to EOI. */
  method EncodeScan(w: W.Writer, dc: Coder, ac: Coder, blocks: seq<Block>, interval: nat)
    requires w.Valid() && w.bits == [] && CoversDc(dc) && CoversAc(ac) && AllBaseline(blocks)
    modifies w, w.buf
    ensures w.Valid() && w.bits == []
    ensures w.out == old(w.done) + ScanBytes(dc, ac, blocks, interval, 0) + [0xFF, EOI]
  {
    hide W.Writer.Valid, ChainBits, ScanBytes, CoversDc, CoversAc, Baseline, BlockBits, Segment;
    ghost var all := w.done + ScanBytes(dc, ac, blocks, interval, 0);
    var pred, rst := 0, 0;
    ghost var start := 0;
    assert blocks[0..] == blocks && blocks[0..0] == [];
    NoChain(dc, ac);
    for n := 0 to |blocks|
      invariant w.Valid() && -1024 <= pred <= 1023
      invariant Underway(w, dc, ac, blocks, interval, all, start, n, rst, pred)
    {
      if interval > 0 && n > 0 && n % interval == 0 {
        IntervalFull(start, n, interval);
        ghost var bits := w.bits;
        Restart(w, rst);
        Cut(dc, ac, blocks, interval, start, n, rst);
        rst := rst + 1;
        pred := 0;
        start := n;
        assert blocks[n..n] == [];
      } else {
        Room(start, n, interval);
      }
      ChainNext(dc, ac, blocks[start..n], blocks[n], 0);
      assert blocks[start..n] + [blocks[n]] == blocks[start..n + 1];
      BaselineDc(blocks[n]);
      pred := EncodeBlock(w, dc, ac, blocks[n], pred);
    }
    LastInterval(dc, ac, blocks, interval, start, rst);
    w.FlushBits();
    w.PutRaw(0xFF);
    w.PutRaw(EOI);
  }

  lemma BaselineDc(q: Block)
    requires Baseline(q)
    ensures -1024 <= q[0] <= 1023
  {
  }

  lemma NoChain(dc: Coder, ac: Coder)
    ensures ChainBits(dc, ac, [], 0) == []
  {
  }

  /** Flush to a byte boundary and emit RSTn. */
  method Restart(w: W.Writer, rst: nat)
    requires w.Valid()
    modifies w, w.buf
    ensures w.Valid() && w.bits == [] && w.done == old(w.done) + Segment(old(w.bits)) + [0xFF, Rst(rst)]
  {
    hide W.Writer.Valid, Segment;
    w.FlushBits();
    w.PutRaw(0xFF);
    w.PutRaw(RST0 + rst % 8);
  }

  lemma IntervalFull(start: nat, n: nat, interval: nat)
    requires interval > 0 && start < n <= start + interval && start % interval == 0 && n % interval == 0
    ensures n == start + interval
  {
    hide Quot, Rem;
    Split(start, interval);
    Split(n, interval);
    SplitNames(start, interval);
    SplitNames(n, interval);
    assert (Quot(n, interval) - Quot(start, interval)) * interval == n - start;
    TimesAtLeast(Quot(n, interval) - Quot(start, interval) - 1, interval);
    assert (Quot(n, interval) - Quot(start, interval) - 1) * interval
           == (Quot(n, interval) - Quot(start, interval)) * interval - interval;
    TimesAtLeast(Quot(n, interval) - Quot(start, interval), interval);
    TimesZero(Quot(n, interval) - Quot(start, interval), interval);
  }

  lemma SplitNames(a: nat, w: nat)
    requires w > 0
    ensures Rem(a, w) == a % w
  {
  }

  /** Short of the next marker the interval has room for a block. */
  lemma Room(start: nat, n: nat, interval: nat)
    requires interval > 0 ==> n <= start + interval && start % interval == 0
    requires start < n || n == 0
    requires !(interval > 0 && n > 0 && n % interval == 0) && start <= n
    ensures interval > 0 ==> n + 1 <= start + interval
  {
    if interval > 0 && n == start + interval {
      NextMultiple(start, interval);
    }
  }

  lemma NextMultiple(start: nat, interval: nat)
    requires interval > 0 && start % interval == 0
    ensures (start + interval) % interval == 0
  {
    hide Quot, Rem;
    Split(start, interval);
    SplitNames(start, interval);
    assert (Quot(start, interval) + 1) * interval == Quot(start, interval) * interval + interval;
    SplitUnique(start + interval, interval, Quot(start, interval) + 1, 0);
    SplitNames(start + interval, interval);
  }

  /** A full interval with more to come. */
  lemma Cut(dc: Coder, ac: Coder, blocks: seq<Block>, interval: nat, start: nat, n: nat, rst: nat)
    requires 0 < interval && n == start + interval < |blocks|
    ensures ScanBytes(dc, ac, blocks[start..], interval, rst)
            == Segment(ChainBits(dc, ac, blocks[start..n], 0)) + [0xFF, Rst(rst)]
               + ScanBytes(dc, ac, blocks[n..], interval, rst + 1)
  {
    hide ChainBits, Segment;
    var rest := blocks[start..];
    assert rest[..interval] == blocks[start..n] && rest[interval..] == blocks[n..];
  }

  /** The last interval, full or not. */
  lemma LastInterval(dc: Coder, ac: Coder, blocks: seq<Block>, interval: nat, start: nat, rst: nat)
    requires start <= |blocks| && (interval > 0 ==> |blocks| <= start + interval)
    ensures ScanBytes(dc, ac, blocks[start..], interval, rst) == Segment(ChainBits(dc, ac, blocks[start..|blocks|], 0))
  {
    hide ChainBits, Segment;
    assert blocks[start..] == blocks[start..|blocks|];
  }

  /**
    The encoder from tables to EOI: a decoder given the same tables reads the blocks back from what follows
    "header", and the buffer holds it all unless it reports that it was too small.
  */
  method EncodeImage(dcTable: H.Table, acTable: H.Table, header: seq<byte>, blocks: seq<Block>, interval: nat, cap: nat)
    returns (w: W.Writer)
    requires H.Proper(dcTable) && (forall n :: 0 <= n <= 11 ==> n in dcTable.vals)
    requires H.Proper(acTable) && EOB in acTable.vals && ZRL in acTable.vals
    requires forall run, n :: 0 <= run <= 15 && 1 <= n <= 10 ==> HasRunSize(Coder(acTable, [], []), run, n)
    requires AllBaseline(blocks)
    ensures fresh(w) && w.Valid() && |dcTable.bits| == |acTable.bits| == 17
    ensures |header| <= |w.out| && w.out[..|header|] == header
    ensures ReadScan(dcTable, acTable, w.out[|header|..], |blocks|, interval, 0) == Some(blocks)
    ensures if w.overflow then |w.out| > cap else w.buf[..w.len] == w.out
  {
    hide AllBaseline, W.Writer.Valid, ScanBytes, ReadScan, H.Proper;
    var dc := BuildCoder(dcTable);
    var ac := BuildCoder(acTable);
    RunSizesKept(ac);
    w := new W.Writer(cap);
    for i := 0 to |header|
      invariant w.Valid() && w.bits == [] && w.done == header[..i] && fresh(w) && fresh(w.buf) && w.buf.Length == cap
    {
      w.PutRaw(header[i]);
    }
    EncodeScan(w, dc, ac, blocks, interval);
    ScanBack(dc, ac, blocks, interval, 0, []);
    ghost var scan := ScanBytes(dc, ac, blocks, interval, 0) + [0xFF, EOI];
    assert header[..|header|] == header && w.out == header + scan;
    assert w.out[|header|..] == scan == scan + [];
    AllOut(w);
  }

  lemma AllOut(w: W.Writer)
    requires w.Valid()
    ensures if w.overflow then |w.out| > w.buf.Length else w.buf[..w.len] == w.out
  {
    hide Holds, Stuff, Pack;
    assert w.out[..|w.out|] == w.out;
  }

  method BuildCoder(t: H.Table) returns (c: Coder)
    requires H.Proper(t)
    ensures Sound(c) && c.table == t
  {
    hide H.Proper, H.Built;
    var codes, sizes := new nat[256](_ => 0), new nat[256](_ => 0);
    H.BuildHuff(t, codes, sizes);
    c := Coder(t, codes[..], sizes[..]);
  }

  lemma RunSizesKept(ac: Coder)
    requires forall run, n :: 0 <= run <= 15 && 1 <= n <= 10 ==> HasRunSize(Coder(ac.table, [], []), run, n)
    ensures forall run, n :: 0 <= run <= 15 && 1 <= n <= 10 ==> HasRunSize(ac, run, n)
  {
    forall run, n | 0 <= run <= 15 && 1 <= n <= 10 ensures HasRunSize(ac, run, n) {
      assert HasRunSize(Coder(ac.table, [], []), run, n);
    }
  }
}
