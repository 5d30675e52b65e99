/**
  Entropy coding of one 8x8 block of quantised coefficients: the DC difference and the zigzag run lengths of
  the AC coefficients, and the decoder of ITU-T T.81 section F.2.2 that takes them apart again.
*/
module BlockCoder {
  import opened BitStrings
  import opened Magnitude
  import H = Huffman

  type Block = q: seq<int> | |q| == 64 witness seq(64, _ => 0)

  // ----- symbols

  /** A Huffman table and the code table built from it. */
  datatype Coder = Coder(table: H.Table, codes: seq<nat>, sizes: seq<nat>)

  /** The code of a symbol. */
  function Code(c: Coder, sym: nat): seq<bool> {
    if sym < |c.codes| && sym < |c.sizes| then Word(c.codes[sym], c.sizes[sym]) else []
  }

  ghost predicate Sound(c: Coder) {
    H.Proper(c.table) && H.Built(c.table, c.codes, c.sizes)
  }

  const EOB: nat := 0x00
  const ZRL: nat := 0xF0

  /** Every DC category of a baseline image has a code. */
  ghost predicate CoversDc(c: Coder) {
    Sound(c) && forall n :: 0 <= n <= 11 ==> n in c.table.vals
  }

  /** Every run and size of a baseline image has a code. */
  ghost predicate CoversAc(c: Coder) {
    && Sound(c) && EOB in c.table.vals && ZRL in c.table.vals
    && forall run, n :: 0 <= run <= 15 && 1 <= n <= 10 ==> HasRunSize(c, run, n)
  }

  ghost predicate HasRunSize(c: Coder, run: nat, n: nat) {
    16 * run + n in c.table.vals
  }

  lemma SymbolBack(c: Coder, sym: nat, rest: seq<bool>)
    requires Sound(c) && sym in c.table.vals
    ensures H.ReadSymbol(c.table, Code(c, sym) + rest, 0, 0) == H.Got(sym, rest)
    ensures sym < |c.codes| && sym < |c.sizes| && 1 <= c.sizes[sym] <= 16
  {
    hide H.Proper, H.ReadSymbol, Word;
    H.BuiltReadsBack(c.table, c.codes, c.sizes, sym, rest);
  }

  // ----- encoding

  /** A coefficient's category and extra bits after a symbol. */
  function ExtraBits(v: int): seq<bool> {
    ExtendInverts(v);
    Word(Extra(v), Size(v))
  }

  function DcBits(dc: Coder, diff: int): seq<bool> {
    Code(dc, Size(diff)) + ExtraBits(diff)
  }

  function Zrls(ac: Coder, n: nat): seq<bool> {
    if n == 0 then [] else Code(ac, ZRL) + Zrls(ac, n - 1)
  }

  function CoefBits(ac: Coder, run: nat, v: int): seq<bool> {
    Code(ac, 16 * run + Size(v)) + ExtraBits(v)
  }

  /** The last nonzero coefficient among places 1 .. n - 1, or 0. */
  function Last(zz: Block, n: nat): (i: nat)
    requires n <= 64
    ensures i < 64
  {
    if n <= 1 then 0 else if zz[n - 1] != 0 then n - 1 else Last(zz, n - 1)
  }

  /** AC coefficients from place i on, after "run" zeroes, to the end of the block. */
  function AcBits(ac: Coder, zz: Block, i: nat, run: nat, last: nat): seq<bool>
    requires last < 64
    decreases 64 - i
  {
    if i > last then if last < 63 then Code(ac, EOB) else []
    else if zz[i] == 0 then AcBits(ac, zz, i + 1, run + 1, last)
    else Zrls(ac, run / 16) + (CoefBits(ac, run % 16, zz[i]) + AcBits(ac, zz, i + 1, 0, last))
  }

  function BlockBits(dc: Coder, ac: Coder, q: Block, pred: int): seq<bool> {
    DcBits(dc, q[0] - pred) + AcBits(ac, Zigzagged(q), 1, 0, Last(Zigzagged(q), 64))
  }

  // ----- the zigzag

  /** The place in the block of each zigzag position. */
  function Zigzag(i: nat): nat {
    match i
    case 0 => 0 case 1 => 1 case 2 => 8 case 3 => 16
    case 4 => 9 case 5 => 2 case 6 => 3 case 7 => 10
    case 8 => 17 case 9 => 24 case 10 => 32 case 11 => 25
    case 12 => 18 case 13 => 11 case 14 => 4 case 15 => 5
    case 16 => 12 case 17 => 19 case 18 => 26 case 19 => 33
    case 20 => 40 case 21 => 48 case 22 => 41 case 23 => 34
    case 24 => 27 case 25 => 20 case 26 => 13 case 27 => 6
    case 28 => 7 case 29 => 14 case 30 => 21 case 31 => 28
    case 32 => 35 case 33 => 42 case 34 => 49 case 35 => 56
    case 36 => 57 case 37 => 50 case 38 => 43 case 39 => 36
    case 40 => 29 case 41 => 22 case 42 => 15 case 43 => 23
    case 44 => 30 case 45 => 37 case 46 => 44 case 47 => 51
    case 48 => 58 case 49 => 59 case 50 => 52 case 51 => 45
    case 52 => 38 case 53 => 31 case 54 => 39 case 55 => 46
    case 56 => 53 case 57 => 60 case 58 => 61 case 59 => 54
    case 60 => 47 case 61 => 55 case 62 => 62 case 63 => 63
    case _ => i
  }

  /** The zigzag position of each place in the block. */
  function Unzigzag(i: nat): nat {
    match i
    case 0 => 0 case 1 => 1 case 2 => 5 case 3 => 6
    case 4 => 14 case 5 => 15 case 6 => 27 case 7 => 28
    case 8 => 2 case 9 => 4 case 10 => 7 case 11 => 13
    case 12 => 16 case 13 => 26 case 14 => 29 case 15 => 42
    case 16 => 3 case 17 => 8 case 18 => 12 case 19 => 17
    case 20 => 25 case 21 => 30 case 22 => 41 case 23 => 43
    case 24 => 9 case 25 => 11 case 26 => 18 case 27 => 24
    case 28 => 31 case 29 => 40 case 30 => 44 case 31 => 53
    case 32 => 10 case 33 => 19 case 34 => 23 case 35 => 32
    case 36 => 39 case 37 => 45 case 38 => 52 case 39 => 54
    case 40 => 20 case 41 => 22 case 42 => 33 case 43 => 38
    case 44 => 46 case 45 => 51 case 46 => 55 case 47 => 60
    case 48 => 21 case 49 => 34 case 50 => 37 case 51 => 47
    case 52 => 50 case 53 => 56 case 54 => 59 case 55 => 61
    case 56 => 35 case 57 => 36 case 58 => 48 case 59 => 49
    case 60 => 57 case 61 => 58 case 62 => 62 case 63 => 63
    case _ => i
  }

  lemma ZigzagInside(i: nat)
    requires i < 64
    ensures Zigzag(i) < 64
  {
  }

  lemma ZigzagUndone(i: nat)
    requires i < 64
    ensures Zigzag(Unzigzag(i)) == i
  {
    if i < 32 {
      UndoneLow(i);
    } else {
      UndoneHigh(i);
    }
  }

  lemma UndoneLow(i: nat)
    requires i < 32
    ensures Zigzag(Unzigzag(i)) == i
  {
  }

  lemma UndoneHigh(i: nat)
    requires 32 <= i < 64
    ensures Zigzag(Unzigzag(i)) == i
  {
  }

  /** A block in zigzag order. */
  // ----- the order of T.81 figure A.6, without the table

  /** Diagonal, and the way along it: down an odd one, up an even one. */
  function DiagonalRank(place: nat): int {
    var row, col := place / 8, place % 8;
    16 * (row + col) + if (row + col) % 2 == 1 then row else 7 - row
  }

  lemma DiagonalStep(i: nat)
    requires i < 63
    ensures DiagonalRank(Zigzag(i)) < DiagonalRank(Zigzag(i + 1))
  {
    hide *;
    if i < 11 {
      DiagonalSteps0(i);
    } else if i < 22 {
      DiagonalSteps1(i);
    } else if i < 33 {
      DiagonalSteps2(i);
    } else if i < 43 {
      DiagonalSteps3(i);
    } else if i < 53 {
      DiagonalSteps4(i);
    } else {
      DiagonalSteps5(i);
    }
  }

  lemma DiagonalSteps0(i: nat)
    requires i < 11
    ensures DiagonalRank(Zigzag(i)) < DiagonalRank(Zigzag(i + 1))
  {
  }

  lemma DiagonalSteps1(i: nat)
    requires 11 <= i < 22
    ensures DiagonalRank(Zigzag(i)) < DiagonalRank(Zigzag(i + 1))
  {
  }

  lemma DiagonalSteps2(i: nat)
    requires 22 <= i < 33
    ensures DiagonalRank(Zigzag(i)) < DiagonalRank(Zigzag(i + 1))
  {
  }

  lemma DiagonalSteps3(i: nat)
    requires 33 <= i < 43
    ensures DiagonalRank(Zigzag(i)) < DiagonalRank(Zigzag(i + 1))
  {
  }

  lemma DiagonalSteps4(i: nat)
    requires 43 <= i < 53
    ensures DiagonalRank(Zigzag(i)) < DiagonalRank(Zigzag(i + 1))
  {
  }

  lemma DiagonalSteps5(i: nat)
    requires 53 <= i < 63
    ensures DiagonalRank(Zigzag(i)) < DiagonalRank(Zigzag(i + 1))
  {
  }

  lemma {:induction false} DiagonalOrder(i: nat, j: nat)
    requires i < j < 64
    ensures DiagonalRank(Zigzag(i)) < DiagonalRank(Zigzag(j))
    decreases j
  {
    hide Zigzag, DiagonalRank;
    if i + 1 < j {
      DiagonalOrder(i, j - 1);
    }
    DiagonalStep(j - 1);
  }

  /**
    The zigzag goes diagonal by diagonal; along an odd diagonal the row grows, along an even one it falls.
  */
  lemma ZigzagFollowsDiagonals(i: nat, j: nat)
    requires i < j < 64
    ensures var r, c, r', c' := Zigzag(i) / 8, Zigzag(i) % 8, Zigzag(j) / 8, Zigzag(j) % 8;
      && r < 8 && r' < 8 && r + c <= r' + c'
      && (r + c == r' + c' ==> if (r + c) % 2 == 1 then r < r' else r > r')
  {
    hide Zigzag;
    DiagonalOrder(i, j);
    ZigzagInside(i);
    ZigzagInside(j);
  }

  /** And it is the only order of the 64 places that does. */
  lemma OnlyZigzagFollowsDiagonals(order: seq<nat>)
    requires |order| == 64 && forall i :: 0 <= i < 64 ==> order[i] < 64
    requires forall i, j :: 0 <= i < j < 64 ==> DiagonalRank(order[i]) < DiagonalRank(order[j])
    ensures forall i :: 0 <= i < 64 ==> order[i] == Zigzag(i)
  {
    hide Zigzag, Unzigzag, DiagonalRank;
    forall i | 0 <= i < 64 ensures order[i] == Zigzag(i) {
      NotBefore(order, i);
      NotBehind(order, i);
      ZigzagUndone(order[i]);
    }
  }

  /** Positions grow along any such order. */
  lemma PositionsGrow(order: seq<nat>, i: nat)
    requires |order| == 64 && forall x :: 0 <= x < 64 ==> order[x] < 64
    requires forall x, y :: 0 <= x < y < 64 ==> DiagonalRank(order[x]) < DiagonalRank(order[y])
    requires i < 63
    ensures Unzigzag(order[i]) < Unzigzag(order[i + 1]) < 64
  {
    hide Zigzag, Unzigzag, DiagonalRank;
    var a, b := order[i], order[i + 1];
    ZigzagUndone(a);
    ZigzagUndone(b);
    UnzigzagInside(a);
    UnzigzagInside(b);
    assert DiagonalRank(a) < DiagonalRank(b);
    if Unzigzag(b) < Unzigzag(a) {
      DiagonalOrder(Unzigzag(b), Unzigzag(a));
    }
  }

  lemma UnzigzagInside(i: nat)
    requires i < 64
    ensures Unzigzag(i) < 64
  {
  }

  lemma {:induction false} NotBefore(order: seq<nat>, i: nat)
    requires |order| == 64 && forall x :: 0 <= x < 64 ==> order[x] < 64
    requires forall x, y :: 0 <= x < y < 64 ==> DiagonalRank(order[x]) < DiagonalRank(order[y])
    requires i < 64
    ensures Unzigzag(order[i]) >= i
  {
    hide Unzigzag, DiagonalRank;
    if i > 0 {
      NotBefore(order, i - 1);
      PositionsGrow(order, i - 1);
    }
  }

  lemma {:induction false} NotBehind(order: seq<nat>, i: nat)
    requires |order| == 64 && forall x :: 0 <= x < 64 ==> order[x] < 64
    requires forall x, y :: 0 <= x < y < 64 ==> DiagonalRank(order[x]) < DiagonalRank(order[y])
    requires i < 64
    ensures Unzigzag(order[i]) <= i
    decreases 64 - i
  {
    hide Unzigzag, DiagonalRank;
    UnzigzagInside(order[i]);
    if i < 63 {
      NotBehind(order, i + 1);
      PositionsGrow(order, i);
    }
  }

  function Zigzagged(q: Block): (zz: Block)
    ensures zz[0] == q[0]
  {
    seq(64, i requires 0 <= i < 64 => (ZigzagInside(i); q[Zigzag(i)]))
  }

  function Unzigzagged(zz: Block): Block {
    seq(64, i requires 0 <= i < 64 => (UnzigzagInside(i); zz[Unzigzag(i)]))
  }

  lemma ZigzagBack(q: Block)
    ensures Unzigzagged(Zigzagged(q)) == q
  {
    hide Zigzag, Unzigzag;
    forall i | 0 <= i < 64 ensures Unzigzagged(Zigzagged(q))[i] == q[i] {
      UnzigzagInside(i);
      ZigzagUndone(i);
    }
  }

  // ----- decoding

  /** RECEIVE and EXTEND: the coefficient whose extra bits come next. */
  function ReadExtra(s: seq<bool>, size: nat): H.Read<int> {
    if |s| < size then H.Failed else H.Got(Extend(Value(s[..size]), size), s[size..])
  }

  /** The AC coefficients from place k on: Decode_AC_coefficients. */
  function ReadAc(t: H.Table, s: seq<bool>, k: nat, zz: Block): H.Read<Block>
    requires |t.bits| == 17
    decreases 64 - k
  {
    if k > 63 then H.Got(zz, s)
    else
      match H.ReadSymbol(t, s, 0, 0)
      case Failed => H.Failed
      case Got(rs, s1) =>
        var run, size := rs / 16, rs % 16;
        if size == 0 then if run == 15 then ReadAc(t, s1, k + 16, zz) else H.Got(zz, s1)
        else if k + run > 63 then H.Failed
        else
          match ReadExtra(s1, size)
          case Failed => H.Failed
          case Got(v, s2) => ReadAc(t, s2, k + run + 1, zz[k + run := v])
  }

  function Blank(): Block {
    seq(64, _ => 0)
  }

  /** A whole block, given the DC coefficient of the one before. */
  function ReadBlock(dc: H.Table, ac: H.Table, s: seq<bool>, pred: int): H.Read<Block>
    requires |dc.bits| == |ac.bits| == 17
  {
    match H.ReadSymbol(dc, s, 0, 0)
    case Failed => H.Failed
    case Got(size, s1) =>
      match ReadExtra(s1, size)
      case Failed => H.Failed
      case Got(diff, s2) =>
        match ReadAc(ac, s2, 1, Blank()[0 := pred + diff])
        case Failed => H.Failed
        case Got(zz, rest) => H.Got(Unzigzagged(zz), rest)
  }

  // ----- the decoder undoes the encoder

  lemma ExtraBack(v: int, rest: seq<bool>)
    ensures ReadExtra(ExtraBits(v) + rest, Size(v)) == H.Got(v, rest)
  {
    hide Extend, Size, Extra, Word, Value;
    ExtendInverts(v);
    ValueOfWord(Extra(v), Size(v));
    var s := ExtraBits(v) + rest;
    assert s[..Size(v)] == ExtraBits(v) && s[Size(v)..] == rest;
  }

  lemma {:induction false} ZrlsBack(ac: Coder, n: nat, k: nat, zz: Block, rest: seq<bool>)
    requires CoversAc(ac) && k + 16 * n <= 63
    ensures ReadAc(ac.table, Zrls(ac, n) + rest, k, zz) == ReadAc(ac.table, rest, k + 16 * n, zz)
  {
    hide Sound, H.ReadSymbol, Code;
    SoundTable(ac);
    if n == 0 {
      assert Zrls(ac, n) + rest == rest;
    } else {
      assert Zrls(ac, n) + rest == Code(ac, ZRL) + (Zrls(ac, n - 1) + rest);
      SymbolBack(ac, ZRL, Zrls(ac, n - 1) + rest);
      ZrlsBack(ac, n - 1, k + 16, zz, rest);
    }
  }

  lemma SoundTable(c: Coder)
    requires Sound(c)
    ensures |c.table.bits| == 17
  {
  }

  /** AC coefficients of a baseline image. */
  predicate SmallAc(v: int) {
    -1023 <= v <= 1023
  }

  lemma SmallSize(v: int)
    ensures SmallAc(v) ==> Size(v) <= 10
    ensures v != 0 ==> Size(v) >= 1
    ensures -2047 <= v <= 2047 ==> Size(v) <= 11
  {
    Powers();
    if SmallAc(v) {
      DigitsAtMost(Abs(v), 10);
    }
    if -2047 <= v <= 2047 {
      DigitsAtMost(Abs(v), 11);
    }
  }

  lemma Powers()
    ensures Pow2(10) == 1024 && Pow2(11) == 2048
  {
    assert Pow2(4) == 16;
    assert Pow2(6) == 64;
    Pow2Add(4, 6);
  }

  lemma CoefBack(ac: Coder, run: nat, v: int, k: nat, zz: Block, rest: seq<bool>)
    requires CoversAc(ac) && run <= 15 && v != 0 && SmallAc(v) && k + run <= 63
    ensures ReadAc(ac.table, CoefBits(ac, run, v) + rest, k, zz) == ReadAc(ac.table, rest, k + run + 1, zz[k + run := v])
  {
    hide Sound, H.ReadSymbol, Code, ExtraBits, ReadExtra, Size;
    SoundTable(ac);
    SmallSize(v);
    assert HasRunSize(ac, run, Size(v));
    assert CoefBits(ac, run, v) + rest == Code(ac, 16 * run + Size(v)) + (ExtraBits(v) + rest);
    SymbolBack(ac, 16 * run + Size(v), ExtraBits(v) + rest);
    ExtraBack(v, rest);
  }

  /** What the decoder has of zz when its next place is k. */
  ghost predicate Decoded(zz: Block, d: Block, k: nat) {
    forall j :: 0 <= j < 64 ==> d[j] == if j < k then zz[j] else 0
  }

  ghost predicate ZeroFrom(zz: Block, a: nat, z: nat) {
    forall j :: a <= j < z && j < 64 ==> zz[j] == 0
  }

  lemma {:induction false} LastIsLast(zz: Block, n: nat)
    requires n <= 64
    ensures Last(zz, n) > 0 ==> Last(zz, n) < n && zz[Last(zz, n)] != 0
    ensures forall j :: Last(zz, n) < j < n ==> zz[j] == 0
  {
    if n > 1 {
      LastIsLast(zz, n - 1);
    }
  }

  lemma {:induction false} AcBack(ac: Coder, zz: Block, i: nat, run: nat, last: nat, d: Block, rest: seq<bool>)
    requires CoversAc(ac) && (forall j :: 1 <= j < 64 ==> SmallAc(zz[j]))
    requires last < 64 && ZeroFrom(zz, last + 1, 64) && (last > 0 ==> zz[last] != 0)
    requires run < i <= last + 1 && (i == last + 1 ==> run == 0)
    requires ZeroFrom(zz, i - run, i) && Decoded(zz, d, i - run)
    ensures ReadAc(ac.table, AcBits(ac, zz, i, run, last) + rest, i - run, d) == H.Got(zz, rest)
    decreases 64 - i
  {
    hide Sound, H.ReadSymbol, Code, Zrls, CoefBits, ReadAc, CoversAc, SmallAc;
    if i > last {
      EobBack(ac, zz, last, d, rest);
    } else if zz[i] == 0 {
      AcBack(ac, zz, i + 1, run + 1, last, d, rest);
    } else {
      var tail := AcBits(ac, zz, i + 1, 0, last);
      Regroup(Zrls(ac, run / 16), CoefBits(ac, run % 16, zz[i]), tail, rest);
      ZrlsBack(ac, run / 16, i - run, d, CoefBits(ac, run % 16, zz[i]) + (tail + rest));
      CoefBack(ac, run % 16, zz[i], i - run % 16, d, tail + rest);
      AcBack(ac, zz, i + 1, 0, last, d[i := zz[i]], rest);
    }
  }

  lemma Regroup(a: seq<bool>, b: seq<bool>, c: seq<bool>, d: seq<bool>)
    ensures a + (b + c) + d == a + (b + (c + d))
  {
  }

  lemma EobBack(ac: Coder, zz: Block, last: nat, d: Block, rest: seq<bool>)
    requires CoversAc(ac) && last < 64 && ZeroFrom(zz, last + 1, 64) && Decoded(zz, d, last + 1)
    ensures ReadAc(ac.table, (if last < 63 then Code(ac, EOB) else []) + rest, last + 1, d) == H.Got(zz, rest)
  {
    hide Sound, H.ReadSymbol, Code;
    SoundTable(ac);
    assert d == zz;
    if last < 63 {
      SymbolBack(ac, EOB, rest);
    } else {
      assert [] + rest == rest;
    }
  }

  /** Quantised coefficients of a baseline image: eleven-bit DC, ten-bit AC. */
  ghost predicate Baseline(q: Block) {
    -1024 <= q[0] <= 1023 && forall j :: 1 <= j < 64 ==> SmallAc(q[j])
  }

  /** A block is read back exactly, whatever bits follow it. */
  lemma BlockBack(dc: Coder, ac: Coder, q: Block, pred: int, rest: seq<bool>)
    requires CoversDc(dc) && CoversAc(ac) && Baseline(q) && -1024 <= pred <= 1023
    ensures |dc.table.bits| == |ac.table.bits| == 17
    ensures ReadBlock(dc.table, ac.table, BlockBits(dc, ac, q, pred) + rest, pred) == H.Got(q, rest)
  {
    hide Sound, H.ReadSymbol, Code, ExtraBits, ReadExtra, Size, AcBits, ReadAc, Last, Zigzag, Unzigzag;
    SoundTable(dc);
    SoundTable(ac);
    var zz, diff := Zigzagged(q), q[0] - pred;
    var last := Last(zz, 64);
    var acBits := AcBits(ac, zz, 1, 0, last);
    SmallSize(diff);
    SymbolBack(dc, Size(diff), ExtraBits(diff) + (acBits + rest));
    ExtraBack(diff, acBits + rest);
    ThreeParts(Code(dc, Size(diff)), ExtraBits(diff), acBits, rest);
    LastIsLast(zz, 64);
    ZigzagSmall(q);
    AcBack(ac, zz, 1, 0, last, Blank()[0 := q[0]], rest);
    ZigzagBack(q);
  }

  lemma ThreeParts(a: seq<bool>, b: seq<bool>, c: seq<bool>, d: seq<bool>)
    ensures (a + b) + c + d == a + (b + (c + d))
  {
  }

  lemma ZigzagSmall(q: Block)
    requires Baseline(q)
    ensures forall j :: 1 <= j < 64 ==> SmallAc(Zigzagged(q)[j])
  {
    hide Unzigzag, SmallAc;
    forall j | 1 <= j < 64 ensures SmallAc(Zigzagged(q)[j]) {
      ZigzagInside(j);
      ZigzagNotFirst(j);
    }
  }

  lemma ZigzagNotFirst(i: nat)
    requires 1 <= i < 64
    ensures Zigzag(i) != 0
  {
  }
}
