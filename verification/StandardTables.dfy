/** The standard luminance tables (ITU-T T.81 Annex K), which the encoder announces and uses. */
module StandardTables {
  import opened Wrappers
  import opened BitStrings
  import opened BlockCoder
  import opened Bytes
  import opened Scan
  import H = Huffman
  import E = ScanEncoder
  import W = BitWriter

  /** DC codes of each length. */
  function DcCount(i: nat): nat {
    match i
    case 2 => 1 case 3 => 5 case 4 => 1 case 5 => 1 case 6 => 1 case 7 => 1
    case 8 => 1 case 9 => 1
    case _ => 0
  }

  /** AC codes of each length. */
  function AcCount(i: nat): nat {
    match i
    case 2 => 2 case 3 => 1 case 4 => 3 case 5 => 3 case 6 => 2 case 7 => 4
    case 8 => 3 case 9 => 5 case 10 => 5 case 11 => 4 case 12 => 4 case 15 => 1
    case 16 => 125
    case _ => 0
  }

  /** The AC symbols with codes shorter than 16 bits, shortest first. */
  function ShortCoded(k: nat): nat {
    match k
    case 0 => 0x01 case 1 => 0x02 case 2 => 0x03 case 3 => 0x00 case 4 => 0x04 case 5 => 0x11
    case 6 => 0x05 case 7 => 0x12 case 8 => 0x21 case 9 => 0x31 case 10 => 0x41 case 11 => 0x06
    case 12 => 0x13 case 13 => 0x51 case 14 => 0x61 case 15 => 0x07 case 16 => 0x22 case 17 => 0x71
    case 18 => 0x14 case 19 => 0x32 case 20 => 0x81 case 21 => 0x91 case 22 => 0xa1 case 23 => 0x08
    case 24 => 0x23 case 25 => 0x42 case 26 => 0xb1 case 27 => 0xc1 case 28 => 0x15 case 29 => 0x52
    case 30 => 0xd1 case 31 => 0xf0 case 32 => 0x24 case 33 => 0x33 case 34 => 0x62 case 35 => 0x72
    case 36 => 0x82
    case _ => 0
  }

  /** Where in that list a symbol is. */
  function ShortPlace(sym: nat): nat {
    match sym
    case 0x00 => 3 case 0x01 => 0 case 0x02 => 1 case 0x03 => 2 case 0x04 => 4 case 0x05 => 6
    case 0x06 => 11 case 0x07 => 15 case 0x08 => 23 case 0x11 => 5 case 0x12 => 7 case 0x13 => 12
    case 0x14 => 18 case 0x15 => 28 case 0x21 => 8 case 0x22 => 16 case 0x23 => 24 case 0x24 => 32
    case 0x31 => 9 case 0x32 => 19 case 0x33 => 33 case 0x41 => 10 case 0x42 => 25 case 0x51 => 13
    case 0x52 => 29 case 0x61 => 14 case 0x62 => 34 case 0x71 => 17 case 0x72 => 35 case 0x81 => 20
    case 0x82 => 36 case 0x91 => 21 case 0xa1 => 22 case 0xb1 => 26 case 0xc1 => 27 case 0xd1 => 30
    case 0xf0 => 31
    case _ => 162
  }

  /** The smallest size that has a 16-bit code after this run of zeroes. */
  function FirstLong(run: nat): nat {
    match run
    case 0 => 9 case 1 => 6 case 2 => 5 case 3 => 4 case 4 => 3 case 5 => 3 case 6 => 3 case 7 => 3
    case 8 => 3 case 9 => 2 case 10 => 2 case 11 => 2 case 12 => 2 case 13 => 2 case 14 => 1
    case _ => 1
  }

  /** Where the 16-bit codes after this run begin: a run's sizes follow one another up to 10. */
  function LongPlace(run: nat): nat {
    match run
    case 0 => 37 case 1 => 39 case 2 => 44 case 3 => 50 case 4 => 57 case 5 => 65 case 6 => 73 case 7 => 81
    case 8 => 89 case 9 => 97 case 10 => 106 case 11 => 115 case 12 => 124 case 13 => 133 case 14 => 142
    case _ => 152
  }

  /** The run whose 16-bit codes place k is among. */
  function RunAt(k: nat): nat {
    if k < LongPlace(8) then
      if k < LongPlace(4) then
        if k < LongPlace(2) then if k < LongPlace(1) then 0 else 1 else if k < LongPlace(3) then 2 else 3
      else
        if k < LongPlace(6) then if k < LongPlace(5) then 4 else 5 else if k < LongPlace(7) then 6 else 7
    else
      if k < LongPlace(12) then
        if k < LongPlace(10) then if k < LongPlace(9) then 8 else 9 else if k < LongPlace(11) then 10 else 11
      else
        if k < LongPlace(14) then if k < LongPlace(13) then 12 else 13 else if k < LongPlace(15) then 14 else 15
  }

  /** AC symbols, shortest codes first: the list of Annex K, whose 16-bit part is in order of run and size. */
  function AcSymbol(k: nat): nat {
    if k < 37 then ShortCoded(k)
    else
      var run := RunAt(k);
      16 * run + FirstLong(run) + if k < LongPlace(run) then 0 else k - LongPlace(run)
  }

  /** Where in that list a run and size are. */
  function AcPlace(sym: nat): nat {
    var run, size := sym / 16, sym % 16;
    if run < 16 && FirstLong(run) <= size <= 10 then LongPlace(run) + (size - FirstLong(run)) else ShortPlace(sym)
  }

  const DC: H.Table := H.Table(seq(17, l requires 0 <= l < 17 => DcCount(l)), seq(12, k requires 0 <= k < 12 => k))

  const AC: H.Table := H.Table(seq(17, l requires 0 <= l < 17 => AcCount(l)), seq(162, k requires 0 <= k < 162 => AcSymbol(k)))

  lemma Powers()
    ensures Pow2(0) == 1 && Pow2(1) == 2 && Pow2(2) == 4 && Pow2(3) == 8 && Pow2(4) == 16 && Pow2(5) == 32
    ensures Pow2(6) == 64 && Pow2(7) == 128 && Pow2(8) == 256 && Pow2(9) == 512 && Pow2(10) == 1024
    ensures Pow2(11) == 2048 && Pow2(12) == 4096 && Pow2(13) == 8192 && Pow2(14) == 16384 && Pow2(15) == 32768
    ensures Pow2(16) == 65536
  {
    assert Pow2(2) == 4;
    assert Pow2(4) == 16;
    assert Pow2(6) == 64;
    assert Pow2(8) == 256;
    assert Pow2(10) == 1024;
    assert Pow2(12) == 4096;
    assert Pow2(14) == 16384;
  }

  lemma DcFirst()
    ensures H.First(DC, 17) == 12
  {
    assert H.First(DC, 1) == 0;
    assert H.First(DC, 2) == 0;
    assert H.First(DC, 3) == 1;
    assert H.First(DC, 4) == 6;
    assert H.First(DC, 5) == 7;
    assert H.First(DC, 6) == 8;
    assert H.First(DC, 7) == 9;
    assert H.First(DC, 8) == 10;
    assert H.First(DC, 9) == 11;
    assert H.First(DC, 10) == 12;
    assert H.First(DC, 11) == 12;
    assert H.First(DC, 12) == 12;
    assert H.First(DC, 13) == 12;
    assert H.First(DC, 14) == 12;
    assert H.First(DC, 15) == 12;
    assert H.First(DC, 16) == 12;
    assert H.First(DC, 17) == 12;
  }

  lemma DcKraft()
    ensures H.KraftSum(DC, 16) == 65408
  {
    Powers();
    hide Pow2;
    assert H.KraftSum(DC, 0) == 0;
    assert H.KraftSum(DC, 1) == 0;
    assert H.KraftSum(DC, 2) == 16384;
    assert H.KraftSum(DC, 3) == 57344;
    assert H.KraftSum(DC, 4) == 61440;
    assert H.KraftSum(DC, 5) == 63488;
    assert H.KraftSum(DC, 6) == 64512;
    assert H.KraftSum(DC, 7) == 65024;
    assert H.KraftSum(DC, 8) == 65280;
    assert H.KraftSum(DC, 9) == 65408;
    assert H.KraftSum(DC, 10) == 65408;
    assert H.KraftSum(DC, 11) == 65408;
    assert H.KraftSum(DC, 12) == 65408;
    assert H.KraftSum(DC, 13) == 65408;
    assert H.KraftSum(DC, 14) == 65408;
    assert H.KraftSum(DC, 15) == 65408;
    assert H.KraftSum(DC, 16) == 65408;
  }

  lemma AcFirst()
    ensures H.First(AC, 17) == 162
  {
    hide AcSymbol;
    assert H.First(AC, 1) == 0;
    assert H.First(AC, 2) == 0;
    assert H.First(AC, 3) == 2;
    assert H.First(AC, 4) == 3;
    assert H.First(AC, 5) == 6;
    assert H.First(AC, 6) == 9;
    assert H.First(AC, 7) == 11;
    assert H.First(AC, 8) == 15;
    assert H.First(AC, 9) == 18;
    assert H.First(AC, 10) == 23;
    assert H.First(AC, 11) == 28;
    assert H.First(AC, 12) == 32;
    assert H.First(AC, 13) == 36;
    assert H.First(AC, 14) == 36;
    assert H.First(AC, 15) == 36;
    assert H.First(AC, 16) == 37;
    assert H.First(AC, 17) == 162;
  }

  lemma AcKraft()
    ensures H.KraftSum(AC, 16) == 65535
  {
    Powers();
    hide Pow2, AcSymbol;
    assert H.KraftSum(AC, 0) == 0;
    assert H.KraftSum(AC, 1) == 0;
    assert H.KraftSum(AC, 2) == 32768;
    assert H.KraftSum(AC, 3) == 40960;
    assert H.KraftSum(AC, 4) == 53248;
    assert H.KraftSum(AC, 5) == 59392;
    assert H.KraftSum(AC, 6) == 61440;
    assert H.KraftSum(AC, 7) == 63488;
    assert H.KraftSum(AC, 8) == 64256;
    assert H.KraftSum(AC, 9) == 64896;
    assert H.KraftSum(AC, 10) == 65216;
    assert H.KraftSum(AC, 11) == 65344;
    assert H.KraftSum(AC, 12) == 65408;
    assert H.KraftSum(AC, 13) == 65408;
    assert H.KraftSum(AC, 14) == 65408;
    assert H.KraftSum(AC, 15) == 65410;
    assert H.KraftSum(AC, 16) == 65535;
  }

  lemma ShortPlaced(k: nat)
    requires k < 37
    ensures var sym := ShortCoded(k); sym < 256 && ShortPlace(sym) == k && sym % 16 < FirstLong(sym / 16)
  {
  }

  lemma LongPlaced(k: nat)
    requires 37 <= k < 162
    ensures RunAt(k) < 16 && LongPlace(RunAt(k)) <= k <= LongPlace(RunAt(k)) + 10 - FirstLong(RunAt(k))
  {
  }

  lemma AcPlaced(k: nat)
    requires k < 162
    ensures AcSymbol(k) < 256 && AcPlace(AcSymbol(k)) == k
  {
    hide ShortCoded, ShortPlace, LongPlace, FirstLong, RunAt;
    if k < 37 {
      ShortPlaced(k);
    } else {
      LongPlaced(k);
      var run := RunAt(k);
      FirstLongSmall(run);
      assert AcSymbol(k) / 16 == run && AcSymbol(k) % 16 == FirstLong(run) + (k - LongPlace(run));
    }
  }

  lemma FirstLongSmall(run: nat)
    ensures 1 <= FirstLong(run) <= 9
  {
  }

  predicate ListedAt(run: nat, n: nat) {
    AcPlace(16 * run + n) < 162 && AcSymbol(AcPlace(16 * run + n)) == 16 * run + n
  }

  lemma LongListed(run: nat, n: nat)
    requires run <= 15 && FirstLong(run) <= n <= 10
    ensures var k := LongPlace(run) + (n - FirstLong(run)); 37 <= k < 162 && RunAt(k) == run
  {
  }

  lemma ShortListed(run: nat, n: nat)
    requires run <= 15 && 1 <= n < FirstLong(run)
    ensures var k := ShortPlace(16 * run + n); k < 37 && ShortCoded(k) == 16 * run + n
  {
  }

  lemma AcListed(run: nat, n: nat)
    requires run <= 15 && 1 <= n <= 10
    ensures ListedAt(run, n)
  {
    hide ShortCoded, ShortPlace, LongPlace, FirstLong, RunAt;
    assert (16 * run + n) / 16 == run && (16 * run + n) % 16 == n;
    if n < FirstLong(run) {
      ShortListed(run, n);
    } else {
      LongListed(run, n);
    }
  }

  lemma DcTableWorks()
    ensures H.Proper(DC) && forall n :: 0 <= n <= 11 ==> n in DC.vals
  {
    DcFirst();
    DcKraft();
    Powers();
    hide Pow2, H.First, H.KraftSum;
    forall n | 0 <= n <= 11 ensures n in DC.vals {
      assert DC.vals[n] == n;
    }
  }

  /** The standard AC table defines a code with a symbol for every run and size, ZRL and EOB. */
  lemma AcTableWorks()
    ensures H.Proper(AC) && EOB in AC.vals && ZRL in AC.vals
    ensures forall run, n :: 0 <= run <= 15 && 1 <= n <= 10 ==> HasRunSize(Coder(AC, [], []), run, n)
  {
    AcFirst();
    AcKraft();
    Powers();
    AcDistinct();
    AcEnds();
    hide Pow2, H.First, H.KraftSum, AcSymbol, AcPlace;
    forall run, n | 0 <= run <= 15 && 1 <= n <= 10 ensures HasRunSize(Coder(AC, [], []), run, n) {
      AcListed(run, n);
      assert AC.vals[AcPlace(16 * run + n)] == 16 * run + n;
    }
  }

  lemma AcEnds()
    ensures EOB in AC.vals && ZRL in AC.vals
  {
    assert AC.vals[AcPlace(EOB)] == EOB && AC.vals[AcPlace(ZRL)] == ZRL;
  }

  lemma AcDistinct()
    ensures forall k :: 0 <= k < |AC.vals| ==> AC.vals[k] < 256
    ensures forall j, k :: 0 <= j < k < |AC.vals| ==> AC.vals[j] != AC.vals[k]
  {
    hide AcSymbol, AcPlace;
    forall k | 0 <= k < |AC.vals| ensures AC.vals[k] < 256 {
      AcPlaced(k);
    }
    forall j, k | 0 <= j < k < |AC.vals| ensures AC.vals[j] != AC.vals[k] {
      AcPlaced(j);
      AcPlaced(k);
    }
  }

  // ----- the codes as tables K.3 and K.5 print them

  predicate Codes(codes: seq<nat>, sizes: seq<nat>, sym: nat, len: nat, code: nat) {
    sym < |codes| == |sizes| && sizes[sym] == len && codes[sym] == code
  }

  /** A line of table K.5: run and size, code length and code word. */
  datatype Line = Line(sym: nat, len: nat, code: nat)

  /** The lines with codes of fewer than sixteen bits. */
  function K5(k: nat): Line
    requires k < 37
  {
    match k
    case 0 => Line(0x01, 2, 0x0) case 1 => Line(0x02, 2, 0x1) case 2 => Line(0x03, 3, 0x4)
    case 3 => Line(0x00, 4, 0xA) case 4 => Line(0x04, 4, 0xB) case 5 => Line(0x11, 4, 0xC)
    case 6 => Line(0x05, 5, 0x1A) case 7 => Line(0x12, 5, 0x1B) case 8 => Line(0x21, 5, 0x1C)
    case 9 => Line(0x31, 6, 0x3A) case 10 => Line(0x41, 6, 0x3B) case 11 => Line(0x06, 7, 0x78)
    case 12 => Line(0x13, 7, 0x79) case 13 => Line(0x51, 7, 0x7A) case 14 => Line(0x61, 7, 0x7B)
    case 15 => Line(0x07, 8, 0xF8) case 16 => Line(0x22, 8, 0xF9) case 17 => Line(0x71, 8, 0xFA)
    case 18 => Line(0x14, 9, 0x1F6) case 19 => Line(0x32, 9, 0x1F7) case 20 => Line(0x81, 9, 0x1F8)
    case 21 => Line(0x91, 9, 0x1F9) case 22 => Line(0xA1, 9, 0x1FA) case 23 => Line(0x08, 10, 0x3F6)
    case 24 => Line(0x23, 10, 0x3F7) case 25 => Line(0x42, 10, 0x3F8) case 26 => Line(0xB1, 10, 0x3F9)
    case 27 => Line(0xC1, 10, 0x3FA) case 28 => Line(0x15, 11, 0x7F6) case 29 => Line(0x52, 11, 0x7F7)
    case 30 => Line(0xD1, 11, 0x7F8) case 31 => Line(0xF0, 11, 0x7F9) case 32 => Line(0x24, 12, 0xFF4)
    case 33 => Line(0x33, 12, 0xFF5) case 34 => Line(0x62, 12, 0xFF6) case 35 => Line(0x72, 12, 0xFF7)
    case _ => Line(0x82, 15, 0x7FC0)
  }

  /** Place of the first symbol with a code of l bits ... */
  function AcFirstAt(l: nat): nat {
    match l
    case 3 => 2 case 4 => 3 case 5 => 6 case 6 => 9 case 7 => 11 case 8 => 15 case 9 => 18 case 10 => 23
    case 11 => 28 case 12 => 32 case 13 => 36 case 14 => 36 case 15 => 36 case 16 => 37
    case _ => 0
  }

  /** ... and that code. */
  function AcMinAt(l: nat): nat {
    match l
    case 3 => 4 case 4 => 10 case 5 => 26 case 6 => 58 case 7 => 120 case 8 => 248 case 9 => 502 case 10 => 1014
    case 11 => 2038 case 12 => 4084 case 13 => 8176 case 14 => 16352 case 15 => 32704 case 16 => 65410
    case _ => 0
  }

  lemma {:induction false} AcStarts(l: nat)
    requires 1 <= l <= 16
    ensures H.First(AC, l) == AcFirstAt(l) && H.MinCode(AC, l) == AcMinAt(l)
  {
    hide AcSymbol;
    if l > 1 {
      AcStarts(l - 1);
    }
  }

  lemma LinePlace(k: nat)
    requires k < 37
    ensures var r := K5(k); var i := r.code - AcMinAt(r.len);
      r.sym == ShortCoded(k) && 1 <= r.len <= 15 && 0 <= i < AcCount(r.len) && AcFirstAt(r.len) + i == k
  {
  }

  lemma CodesAt(codes: seq<nat>, sizes: seq<nat>, l: nat, i: nat)
    requires H.Built(AC, codes, sizes) && H.HasCode(AC, l, i)
    ensures AcFirstAt(l) + i < 162
    ensures Codes(codes, sizes, AcSymbol(AcFirstAt(l) + i), l, AcMinAt(l) + i)
  {
    hide AcSymbol, H.First, H.MinCode;
    AcStarts(l);
    assert H.CodedAs(AC, codes, sizes, l, i);
  }

  /** Every code shorter than sixteen bits is the one table K.5 gives. */
  lemma ShortCodes(codes: seq<nat>, sizes: seq<nat>, k: nat)
    requires H.Built(AC, codes, sizes) && k < 37
    ensures Codes(codes, sizes, K5(k).sym, K5(k).len, K5(k).code)
  {
    hide H.Built, ShortCoded, AcFirstAt, AcMinAt, AcCount, K5;
    LinePlace(k);
    CodesAt(codes, sizes, K5(k).len, K5(k).code - AcMinAt(K5(k).len));
  }

  /** Runs and sizes before this run that have codes of sixteen bits. */
  function LongsBefore(run: nat): nat
    requires run <= 15
  {
    if run == 0 then 0 else LongsBefore(run - 1) + 11 - FirstLong(run - 1)
  }

  lemma {:induction false} PlaceIsCount(run: nat)
    requires run <= 15
    ensures LongPlace(run) == 37 + LongsBefore(run)
  {
    if run > 0 {
      PlaceIsCount(run - 1);
    }
  }

  /** The codes of sixteen bits are the numbers from 0xFF82 on, in order of run and size. */
  lemma LongCodes(codes: seq<nat>, sizes: seq<nat>, run: nat, size: nat)
    requires H.Built(AC, codes, sizes) && run <= 15 && FirstLong(run) <= size <= 10
    ensures Codes(codes, sizes, 16 * run + size, 16, 0xFF82 + LongsBefore(run) + (size - FirstLong(run)))
  {
    hide H.Built, Codes, ShortCoded, RunAt, LongPlace, FirstLong;
    LongListed(run, size);
    PlaceIsCount(run);
    FirstLongSmall(run);
    var k := LongPlace(run) + (size - FirstLong(run));
    assert AcSymbol(k) == 16 * run + size;
    CodesAt(codes, sizes, 16, k - 37);
  }

  /** The twelve categories of table K.3. */
  lemma DcCodes(codes: seq<nat>, sizes: seq<nat>)
    requires H.Built(DC, codes, sizes)
    ensures Codes(codes, sizes, 0, 2, 0x0) && Codes(codes, sizes, 1, 3, 0x2) && Codes(codes, sizes, 2, 3, 0x3)
    ensures Codes(codes, sizes, 3, 3, 0x4) && Codes(codes, sizes, 4, 3, 0x5) && Codes(codes, sizes, 5, 3, 0x6)
    ensures Codes(codes, sizes, 6, 4, 0xE) && Codes(codes, sizes, 7, 5, 0x1E) && Codes(codes, sizes, 8, 6, 0x3E)
    ensures Codes(codes, sizes, 9, 7, 0x7E) && Codes(codes, sizes, 10, 8, 0xFE) && Codes(codes, sizes, 11, 9, 0x1FE)
  {
    hide H.Built;
    assert H.First(DC, 1) == 0 && H.MinCode(DC, 1) == 0;
    assert H.First(DC, 2) == 0 && H.MinCode(DC, 2) == 0;
    assert H.First(DC, 3) == 1 && H.MinCode(DC, 3) == 2;
    assert H.First(DC, 4) == 6 && H.MinCode(DC, 4) == 14;
    assert H.First(DC, 5) == 7 && H.MinCode(DC, 5) == 30;
    assert H.First(DC, 6) == 8 && H.MinCode(DC, 6) == 62;
    assert H.First(DC, 7) == 9 && H.MinCode(DC, 7) == 126;
    assert H.First(DC, 8) == 10 && H.MinCode(DC, 8) == 254;
    assert H.First(DC, 9) == 11 && H.MinCode(DC, 9) == 510;
    hide H.First, H.MinCode, Codes;
    DcCodesAt(codes, sizes, 2, 0);
    DcCodesAt(codes, sizes, 3, 0);
    DcCodesAt(codes, sizes, 3, 1);
    DcCodesAt(codes, sizes, 3, 2);
    DcCodesAt(codes, sizes, 3, 3);
    DcCodesAt(codes, sizes, 3, 4);
    DcCodesAt(codes, sizes, 4, 0);
    DcCodesAt(codes, sizes, 5, 0);
    DcCodesAt(codes, sizes, 6, 0);
    DcCodesAt(codes, sizes, 7, 0);
    DcCodesAt(codes, sizes, 8, 0);
    DcCodesAt(codes, sizes, 9, 0);
  }

  lemma DcCodesAt(codes: seq<nat>, sizes: seq<nat>, l: nat, i: nat)
    requires H.Built(DC, codes, sizes) && H.HasCode(DC, l, i)
    ensures H.First(DC, l) + i < 12
    ensures Codes(codes, sizes, H.First(DC, l) + i, l, H.MinCode(DC, l) + i)
  {
    hide H.First, H.MinCode;
    assert H.CodedAs(DC, codes, sizes, l, i);
  }

  /** loraitp_jpeg_encode behind the header: with the standard tables every image is read back exactly. */
  method EncodeGray(header: seq<byte>, blocks: seq<Block>, interval: nat, cap: nat) returns (w: W.Writer)
    requires AllBaseline(blocks)
    ensures fresh(w) && w.Valid() && |DC.bits| == |AC.bits| == 17
    ensures |header| <= |w.out| && w.out[..|header|] == header
    ensures ReadScan(DC, AC, w.out[|header|..], |blocks|, interval, 0) == Some(blocks)
    ensures if w.overflow then |w.out| > cap else w.buf[..w.len] == w.out
  {
    hide *;
    DcTableWorks();
    AcTableWorks();
    w := E.EncodeImage(DC, AC, header, blocks, interval, cap);
  }
}
