/**
  Canonical Huffman codes as JPEG's tables give them (ITU-T T.81 section C.2): how the encoder numbers the
  symbols, and that the bit-by-bit decoder of section F.2.2.3 reads every code back.
*/
module Huffman {
  import opened Arithmetic
  import opened BitStrings

  /** bits[l] symbols have codes of l bits; vals lists the symbols, shortest codes first. */
  datatype Table = Table(bits: seq<nat>, vals: seq<nat>)

  /** Place in vals of the first symbol with an l-bit code. */
  function First(t: Table, l: nat): nat
    requires |t.bits| == 17 && l <= 17
  {
    if l <= 1 then 0 else First(t, l - 1) + t.bits[l - 1]
  }

  /** The first l-bit code. */
  function MinCode(t: Table, l: nat): nat
    requires |t.bits| == 17 && l <= 17
  {
    if l <= 1 then 0 else 2 * (MinCode(t, l - 1) + t.bits[l - 1])
  }

  /** Code space used by codes of at most l bits, in units of the longest code. */
  function KraftSum(t: Table, l: nat): nat
    requires |t.bits| == 17 && l <= 16
  {
    if l == 0 then 0 else KraftSum(t, l - 1) + t.bits[l] * Pow2(16 - l)
  }

  /** A table that defines a code: the counts meet the Kraft condition and cover vals, symbols are distinct bytes. */
  ghost predicate Proper(t: Table) {
    && |t.bits| == 17 && |t.vals| == First(t, 17) && KraftSum(t, 16) <= Pow2(16)
    && (forall k :: 0 <= k < |t.vals| ==> t.vals[k] < 256)
    && (forall j, k :: 0 <= j < k < |t.vals| ==> t.vals[j] != t.vals[k])
  }

  /** Symbol i of those with l-bit codes. */
  ghost predicate HasCode(t: Table, l: nat, i: nat) {
    |t.bits| == 17 && 1 <= l <= 16 && i < t.bits[l]
  }

  lemma {:induction false} FirstGrows(t: Table, l: nat, h: nat)
    requires |t.bits| == 17 && 1 <= l <= h <= 17
    ensures First(t, l) <= First(t, h)
    ensures l < h ==> First(t, l) + t.bits[l] <= First(t, h)
  {
    if l < h {
      FirstGrows(t, l, h - 1);
    }
  }

  /** Distinct codes belong to distinct places. */
  lemma PlaceInVals(t: Table, l: nat, i: nat)
    requires |t.bits| == 17 && |t.vals| == First(t, 17) && HasCode(t, l, i)
    ensures First(t, l) + i < |t.vals|
  {
    hide First;
    FirstGrows(t, l, 17);
  }

  // ----- the code words fit their lengths

  lemma {:induction false} MinCodeIsSum(t: Table, l: nat)
    requires |t.bits| == 17 && 1 <= l <= 16
    ensures MinCode(t, l) * Pow2(16 - l) == KraftSum(t, l - 1)
  {
    hide Pow2;
    if l > 1 {
      MinCodeIsSum(t, l - 1);
      PowNext(16 - l);
      Regroup(MinCode(t, l - 1), t.bits[l - 1], Pow2(16 - l));
    }
  }

  lemma Regroup(c: nat, b: nat, p: nat)
    ensures 2 * (c + b) * p == c * (2 * p) + b * (2 * p)
  {
  }

  lemma {:induction false} KraftGrows(t: Table, l: nat, h: nat)
    requires |t.bits| == 17 && l <= h <= 16
    ensures KraftSum(t, l) <= KraftSum(t, h)
  {
    hide Pow2;
    if l < h {
      KraftGrows(t, l, h - 1);
      assert t.bits[h] * Pow2(16 - h) >= 0;
    }
  }

  /** Every code is a number of its length. */
  lemma CodeFits(t: Table, l: nat, i: nat)
    requires HasCode(t, l, i) && KraftSum(t, 16) <= Pow2(16)
    ensures MinCode(t, l) + i < Pow2(l)
  {
    hide Pow2, MinCode;
    var p := Pow2(16 - l);
    MinCodeIsSum(t, l);
    KraftGrows(t, l, 16);
    SumStep(t, l);
    Pow2Add(l, 16 - l);
    CancelRight(MinCode(t, l), t.bits[l], Pow2(l), p);
  }

  lemma SumStep(t: Table, l: nat)
    requires |t.bits| == 17 && 1 <= l <= 16
    ensures KraftSum(t, l) == KraftSum(t, l - 1) + t.bits[l] * Pow2(16 - l)
  {
    hide Pow2;
  }

  lemma CancelRight(c: nat, b: nat, q: nat, p: nat)
    requires c * p + b * p <= q * p && p >= 1
    ensures c + b <= q
  {
    assert (c + b) * p == c * p + b * p && (q + 1) * p == q * p + p;
    if c + b > q {
      TimesMonotone(q + 1, c + b, p);
    }
  }

  // ----- the encoder's tables

  /** The code of symbol i of length l. */
  function CodeWord(t: Table, l: nat, i: nat): (w: seq<bool>)
    requires |t.bits| == 17 && l <= 17
    ensures |w| == l
  {
    Word(MinCode(t, l) + i, l)
  }

  /** The first n symbols of length l, and all shorter ones, have their codes; no other symbol has one yet. */
  ghost predicate BuiltTo(t: Table, codes: seq<nat>, sizes: seq<nat>, l: nat, n: nat) {
    && |codes| == |sizes| == 256 && |t.bits| == 17 && 1 <= l <= 17 && |t.vals| == First(t, 17)
    && (forall k :: 0 <= k < |t.vals| ==> t.vals[k] < 256)
    && (forall h: nat, i: nat :: HasCode(t, h, i) && (h < l || (h == l && i < n)) ==> CodedAs(t, codes, sizes, h, i))
  }

  ghost predicate CodedAs(t: Table, codes: seq<nat>, sizes: seq<nat>, l: nat, i: nat) {
    && HasCode(t, l, i) && |codes| == |sizes| == 256 && First(t, l) + i < |t.vals| && t.vals[First(t, l) + i] < 256
    && codes[t.vals[First(t, l) + i]] == MinCode(t, l) + i && sizes[t.vals[First(t, l) + i]] == l
  }

  /** build_huff has done its work. */
  ghost predicate Built(t: Table, codes: seq<nat>, sizes: seq<nat>) {
    BuiltTo(t, codes, sizes, 17, 0)
  }

  const CODES: nat := 0x1_0000

  /** build_huff: the code counter is a 16-bit number. */
  method BuildHuff(t: Table, codes: array<nat>, sizes: array<nat>)
    requires Proper(t) && codes.Length == sizes.Length == 256 && codes != sizes
    modifies codes, sizes
    ensures Built(t, codes[..], sizes[..])
  {
    hide First, MinCode, KraftSum;
    for v := 0 to 256
      invariant forall u :: 0 <= u < v ==> sizes[u] == 0 && codes[u] == 0
    {
      codes[v], sizes[v] := 0, 0;
    }
    FirstOne(t);
    NoneYet(t, codes[..], sizes[..]);
    var code, k := 0, 0;
    for l := 1 to 17
      invariant BuiltTo(t, codes[..], sizes[..], l, 0)
      invariant k == First(t, l) && code == MinCode(t, l) % CODES
    {
      code, k := AssignLength(t, codes, sizes, l, code, k);
    }
  }

  lemma FirstOne(t: Table)
    requires |t.bits| == 17
    ensures First(t, 1) == 0 && MinCode(t, 1) == 0
  {
  }

  lemma NoneYet(t: Table, codes: seq<nat>, sizes: seq<nat>)
    requires Proper(t) && |codes| == |sizes| == 256
    ensures BuiltTo(t, codes, sizes, 1, 0)
  {
    hide First, KraftSum;
  }

  lemma NextLength(t: Table, l: nat)
    requires |t.bits| == 17 && 1 <= l <= 16
    ensures First(t, l + 1) == First(t, l) + t.bits[l] && MinCode(t, l + 1) == 2 * (MinCode(t, l) + t.bits[l])
  {
  }

  /** The codes of one length. */
  method AssignLength(t: Table, codes: array<nat>, sizes: array<nat>, l: nat, code0: nat, k0: nat)
    returns (code: nat, k: nat)
    requires Proper(t) && codes.Length == sizes.Length == 256 && codes != sizes && 1 <= l <= 16
    requires BuiltTo(t, codes[..], sizes[..], l, 0) && k0 == First(t, l) && code0 == MinCode(t, l) % CODES
    modifies codes, sizes
    ensures BuiltTo(t, codes[..], sizes[..], l + 1, 0)
    ensures k == First(t, l + 1) && code == MinCode(t, l + 1) % CODES
  {
    hide First, MinCode, KraftSum, BuiltTo, Proper;
    code, k := code0, k0;
    CountsThere(t);
    for i := 0 to t.bits[l]
      invariant BuiltTo(t, codes[..], sizes[..], l, i)
      invariant k == First(t, l) + i && code == (MinCode(t, l) + i) % CODES
    {
      SmallCode(t, l, i);
      SymbolThere(t, l, i);
      ghost var c0, s0 := codes[..], sizes[..];
      codes[t.vals[k]] := code;
      sizes[t.vals[k]] := l;
      BuiltOneMore(t, c0, s0, codes[..], sizes[..], l, i);
      code := (code + 1) % CODES;
      k := k + 1;
    }
    NextLength(t, l);
    LengthDone(t, codes[..], sizes[..], l);
    code := 2 * code % CODES;
  }

  lemma CountsThere(t: Table)
    requires Proper(t)
    ensures |t.bits| == 17
  {
  }

  lemma SymbolThere(t: Table, l: nat, i: nat)
    requires Proper(t) && HasCode(t, l, i)
    ensures First(t, l) + i < |t.vals| && t.vals[First(t, l) + i] < 256
  {
    hide First, KraftSum;
    PlaceInVals(t, l, i);
  }

  /** The counter has not wrapped where it is used. */
  lemma SmallCode(t: Table, l: nat, i: nat)
    requires Proper(t) && HasCode(t, l, i)
    ensures MinCode(t, l) + i < CODES
  {
    hide MinCode, First, KraftSum;
    CodeFits(t, l, i);
    Pow2Bound(l);
  }

  lemma Pow2Bound(l: nat)
    requires l <= 16
    ensures Pow2(l) <= CODES
    decreases 16 - l
  {
    if l == 16 {
      Sixteen();
    } else {
      Pow2Bound(l + 1);
    }
  }

  lemma Sixteen()
    ensures Pow2(16) == CODES
  {
    assert Pow2(4) == 16;
    Pow2Add(4, 4);
    Pow2Add(8, 8);
  }

  lemma BuiltOneMore(t: Table, c0: seq<nat>, s0: seq<nat>, c: seq<nat>, s: seq<nat>, l: nat, i: nat)
    requires Proper(t) && BuiltTo(t, c0, s0, l, i) && HasCode(t, l, i)
    requires First(t, l) + i < |t.vals| && t.vals[First(t, l) + i] < 256
    requires c == c0[t.vals[First(t, l) + i] := MinCode(t, l) + i] && s == s0[t.vals[First(t, l) + i] := l]
    ensures BuiltTo(t, c, s, l, i + 1)
  {
    hide First, MinCode, KraftSum, CodedAs, Proper;
    forall h: nat, j: nat | HasCode(t, h, j) && (h < l || (h == l && j < i + 1)) ensures CodedAs(t, c, s, h, j) {
      if h == l && j == i {
        CodedNow(t, c, s, l, i);
      } else {
        CodedStill(t, c0, s0, c, s, l, i, h, j);
      }
    }
  }

  lemma CodedNow(t: Table, c: seq<nat>, s: seq<nat>, l: nat, i: nat)
    requires HasCode(t, l, i) && |c| == |s| == 256 && First(t, l) + i < |t.vals| && t.vals[First(t, l) + i] < 256
    requires c[t.vals[First(t, l) + i]] == MinCode(t, l) + i && s[t.vals[First(t, l) + i]] == l
    ensures CodedAs(t, c, s, l, i)
  {
    hide First, MinCode;
  }

  lemma CodedStill(t: Table, c0: seq<nat>, s0: seq<nat>, c: seq<nat>, s: seq<nat>, l: nat, i: nat, h: nat, j: nat)
    requires Proper(t) && CodedAs(t, c0, s0, h, j) && HasCode(t, l, i) && First(t, l) + i < |t.vals|
    requires h < l || (h == l && j < i)
    requires c == c0[t.vals[First(t, l) + i] := MinCode(t, l) + i] && s == s0[t.vals[First(t, l) + i] := l]
    ensures CodedAs(t, c, s, h, j)
  {
    hide First, MinCode, KraftSum;
    if h < l {
      FirstGrows(t, h, l);
    }
    assert t.vals[First(t, h) + j] != t.vals[First(t, l) + i];
  }

  lemma LengthDone(t: Table, c: seq<nat>, s: seq<nat>, l: nat)
    requires 1 <= l <= 16 && BuiltTo(t, c, s, l, if |t.bits| == 17 then t.bits[l] else 0)
    ensures BuiltTo(t, c, s, l + 1, 0)
  {
    hide First, MinCode;
    forall h: nat, j: nat | HasCode(t, h, j) && h < l + 1 ensures CodedAs(t, c, s, h, j) {
    }
  }

  // ----- the decoder

  datatype Read<T> = Failed | Got(value: T, rest: seq<bool>)

  /** MAXCODE: the largest l-bit code, or -1 when there is none. */
  function MaxCode(t: Table, l: nat): int
    requires |t.bits| == 17 && 1 <= l <= 16
  {
    if t.bits[l] == 0 then -1 else MinCode(t, l) + t.bits[l] - 1
  }

  /** DECODE of section F.2.2.3, after l bits that spell "code". */
  function ReadSymbol(t: Table, s: seq<bool>, l: nat, code: nat): Read<nat>
    requires |t.bits| == 17 && l <= 16
    decreases 16 - l
  {
    if l >= 1 && code <= MaxCode(t, l) then
      if MinCode(t, l) <= code && First(t, l) + (code - MinCode(t, l)) < |t.vals|
      then Got(t.vals[First(t, l) + (code - MinCode(t, l))], s) else Failed
    else if l == 16 || |s| == 0 then Failed
    else ReadSymbol(t, s[1..], l + 1, 2 * code + if s[0] then 1 else 0)
  }

  /** Where codes grow by h - l bits, they grow at least as fast as shifting makes them. */
  lemma {:induction false} MinCodeGrows(t: Table, l: nat, h: nat)
    requires |t.bits| == 17 && 1 <= l < h <= 16
    ensures (MinCode(t, l) + t.bits[l]) * Pow2(h - l) <= MinCode(t, h)
  {
    hide Pow2;
    if h == l + 1 {
      assert Pow2(1) == 2 by {
        PowNext(0);
        PowZero();
      }
    } else {
      MinCodeGrows(t, l, h - 1);
      PowNext(h - l - 1);
      Double(MinCode(t, l) + t.bits[l], Pow2(h - l - 1));
    }
  }

  lemma Double(a: nat, p: nat)
    ensures a * (2 * p) == 2 * (a * p)
  {
  }

  /** The first j bits of a code are beyond every j-bit code. */
  lemma ShortPrefix(t: Table, l: nat, i: nat, j: nat)
    requires HasCode(t, l, i) && 1 <= j < l && MinCode(t, l) + i < Pow2(l)
    ensures Value(CodeWord(t, l, i)[..j]) > MaxCode(t, j)
  {
    hide Pow2, MinCode, Value, Word;
    ValueOfWord(MinCode(t, l) + i, l);
    MinCodeGrows(t, j, l);
    FrontAtLeast(CodeWord(t, l, i), j, MinCode(t, j) + t.bits[j]);
  }

  lemma {:induction false} ReadsFrom(t: Table, l: nat, i: nat, j: nat, rest: seq<bool>)
    requires HasCode(t, l, i) && j <= l && First(t, l) + i < |t.vals| && MinCode(t, l) + i < Pow2(l)
    ensures var w := CodeWord(t, l, i);
      ReadSymbol(t, w[j..] + rest, j, Value(w[..j])) == Got(t.vals[First(t, l) + i], rest)
    decreases l - j
  {
    hide MinCode, First, Pow2, Value, Word, CodeWord, MaxCode, ReadSymbol;
    var w := CodeWord(t, l, i);
    if j == l {
      ReadsHere(t, l, i, rest);
      assert w[..j] == w && w[j..] + rest == rest;
    } else {
      if j >= 1 {
        ShortPrefix(t, l, i, j);
      }
      ReadsOn(t, w[j..] + rest, j, Value(w[..j]));
      ValueSnoc(w, j);
      assert (w[j..] + rest)[0] == w[j] && (w[j..] + rest)[1..] == w[j + 1..] + rest;
      ReadsFrom(t, l, i, j + 1, rest);
    }
  }

  /** A whole code read. */
  lemma ReadsHere(t: Table, l: nat, i: nat, rest: seq<bool>)
    requires HasCode(t, l, i) && First(t, l) + i < |t.vals| && MinCode(t, l) + i < Pow2(l)
    ensures ReadSymbol(t, rest, l, Value(CodeWord(t, l, i))) == Got(t.vals[First(t, l) + i], rest)
  {
    hide MinCode, First, Pow2, Value, Word, CodeWord;
    CodeValue(t, l, i);
  }

  /** One more bit. */
  lemma ReadsOn(t: Table, s: seq<bool>, j: nat, code: nat)
    requires |t.bits| == 17 && j < 16 && |s| > 0 && (j >= 1 ==> code > MaxCode(t, j))
    ensures ReadSymbol(t, s, j, code) == ReadSymbol(t, s[1..], j + 1, 2 * code + if s[0] then 1 else 0)
  {
    hide MaxCode, MinCode, First;
  }

  lemma CodeValue(t: Table, l: nat, i: nat)
    requires HasCode(t, l, i) && MinCode(t, l) + i < Pow2(l)
    ensures Value(CodeWord(t, l, i)) == MinCode(t, l) + i
  {
    hide MinCode, Pow2, Value, Word;
    ValueOfWord(MinCode(t, l) + i, l);
  }

  /** Every symbol's code is read back, whatever follows it. */
  lemma ReadsBack(t: Table, l: nat, i: nat, rest: seq<bool>)
    requires Proper(t) && HasCode(t, l, i)
    ensures First(t, l) + i < |t.vals|
    ensures ReadSymbol(t, CodeWord(t, l, i) + rest, 0, 0) == Got(t.vals[First(t, l) + i], rest)
  {
    hide MinCode, First, KraftSum, ReadSymbol, CodeWord, Pow2;
    PlaceInVals(t, l, i);
    CodeFits(t, l, i);
    ReadsFrom(t, l, i, 0, rest);
    var w := CodeWord(t, l, i);
    assert w[0..] == w && w[..0] == [];
  }

  /** No code is a prefix of another. */
  lemma PrefixFree(t: Table, l: nat, i: nat, h: nat, j: nat)
    requires Proper(t) && HasCode(t, l, i) && HasCode(t, h, j)
    requires CodeWord(t, l, i) <= CodeWord(t, h, j)
    ensures l == h && i == j
  {
    hide MinCode, First, KraftSum, ReadSymbol, CodeWord;
    var rest := CodeWord(t, h, j)[l..];
    assert CodeWord(t, l, i) + rest == CodeWord(t, h, j) + [];
    ReadsBack(t, l, i, rest);
    ReadsBack(t, h, j, []);
  }

  /** What build_huff leaves encodes every symbol so that the decoder reads it back. */
  lemma BuiltReadsBack(t: Table, codes: seq<nat>, sizes: seq<nat>, sym: nat, rest: seq<bool>)
    requires Proper(t) && Built(t, codes, sizes) && sym in t.vals
    ensures sym < 256 && 1 <= sizes[sym] <= 16 && codes[sym] < Pow2(sizes[sym])
    ensures ReadSymbol(t, Word(codes[sym], sizes[sym]) + rest, 0, 0) == Got(sym, rest)
  {
    hide MinCode, First, KraftSum, ReadSymbol, Pow2, Word;
    var k :| 0 <= k < |t.vals| && t.vals[k] == sym;
    var l, i := LengthOf(t, k, 17);
    assert CodedAs(t, codes, sizes, l, i);
    ReadsBack(t, l, i, rest);
    CodeFits(t, l, i);
  }

  /** Every place in vals is that of a code. */
  lemma {:induction false} LengthOf(t: Table, k: nat, h: nat) returns (l: nat, i: nat)
    requires |t.bits| == 17 && 1 <= h <= 17 && k < First(t, h)
    ensures HasCode(t, l, i) && k == First(t, l) + i
  {
    if k >= First(t, h - 1) && h > 1 {
      l, i := h - 1, k - First(t, h - 1);
    } else {
      l, i := LengthOf(t, k, h - 1);
    }
  }
}
