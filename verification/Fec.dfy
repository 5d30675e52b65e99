/** The erasure coder on flat buffers: encoding, and decoding in place. */
module Fec {
  import opened Bytes
  import opened Linear
  import opened Layout
  import opened Tables
  import opened Erasure
  import F = Gf256
  import C = Cauchy
  import GJ = GaussJordan

  datatype Status = Ok | ArgError | TooFewFrames

  /** dst += coeff * src over len bytes: mac_row. */
  method MacRow(g: GfTables, dst: array<byte>, dstAt: nat, src: array<byte>, srcAt: nat, coeff: byte, len: nat)
    requires g.Valid() && g.ready && dst != g.exp && dst != g.log && dst != src
    requires dstAt + len <= dst.Length && srcAt + len <= src.Length
    modifies dst
    ensures forall x :: dstAt <= x < dstAt + len ==>
              dst[x] == Xor(old(dst[x]), F.Mul(coeff, src[x - dstAt + srcAt]))
    ensures forall x :: 0 <= x < dst.Length && !(dstAt <= x < dstAt + len) ==> dst[x] == old(dst[x])
  {
    hide Xor, F.Exp;
    if coeff == 0 {
      forall x | dstAt <= x < dstAt + len
        ensures dst[x] == Xor(dst[x], F.Mul(coeff, src[x - dstAt + srcAt]))
      {
        F.MulZero(src[x - dstAt + srcAt]);
        XorZero(dst[x]);
      }
      return;
    }
    var lg: int := g.log[coeff];
    for i := 0 to len
      invariant forall x :: dstAt <= x < dstAt + i ==>
                  dst[x] == Xor(old(dst[x]), F.Mul(coeff, src[x - dstAt + srcAt]))
      invariant forall x :: 0 <= x < dst.Length && !(dstAt <= x < dstAt + i) ==> dst[x] == old(dst[x])
    {
      var v := src[srcAt + i];
      if v != 0 {
        dst[dstAt + i] := Xor(dst[dstAt + i], g.exp[lg + (g.log[v] as int)]);
      } else {
        XorZero(dst[dstAt + i]);
      }
    }
  }

  // ----- encoding

  /** Parity row i accumulated over the first n columns. */
  ghost function PartialParity(data: Matrix, k: nat, r: nat, len: nat, i: nat, n: nat, t: nat): byte
    requires k + r <= 255 && i < r && n <= k <= |data| && t < len && Shape(data, |data|, len)
  {
    Dot(C.GeneratorRow(k, r, k + i), 0, Column(data, k, len, t), n)
  }

  /** One parity chunk: loop j of loraitp_fec_encode, into a span that starts out zero. */
  method EncodeRow(g: GfTables, data: array<byte>, k: nat, len: nat, parity: array<byte>, r: nat, i: nat)
    requires g.Valid() && g.ready && parity != g.exp && parity != g.log && parity != data
    requires k + r <= 255 && i < r && k * len <= data.Length && i * len + len <= parity.Length
    requires forall x :: i * len <= x < i * len + len ==> parity[x] == 0
    modifies parity
    ensures parity[i * len..i * len + len] == CodeFrame(Rows(data[..], len, k), k, r, len, k + i)
    ensures forall x :: 0 <= x < parity.Length && !(i * len <= x < i * len + len) ==> parity[x] == old(parity[x])
  {
    hide Dot, Xor, F.Mul, Rows, Column, C.GeneratorRow;
    var at := i * len;
    ghost var rows := Rows(data[..], len, k);
    PartialZero(rows, k, r, len, i);
    for j := 0 to k
      invariant forall x :: 0 <= x < parity.Length && !(at <= x < at + len) ==> parity[x] == old(parity[x])
      invariant forall x :: at <= x < at + len ==> parity[x] == PartialParity(rows, k, r, len, i, j, x - at)
    {
      RowOf(data[..], len, k, j);
      var c := g.Cauchy(i, j, r);
      MacRow(g, parity, at, data, j * len, c, len);
      forall x | at <= x < at + len ensures parity[x] == PartialParity(rows, k, r, len, i, j + 1, x - at) {
        PartialStep(rows, k, r, len, i, j, x - at);
        assert rows[j][x - at] == data[x - at + j * len];
      }
    }
  }

  lemma PartialZero(rows: Matrix, k: nat, r: nat, len: nat, i: nat)
    requires k + r <= 255 && i < r && k <= |rows| && Shape(rows, |rows|, len)
    ensures forall t :: 0 <= t < len ==> PartialParity(rows, k, r, len, i, 0, t) == 0
  {
  }

  lemma PartialStep(rows: Matrix, k: nat, r: nat, len: nat, i: nat, j: nat, t: nat)
    requires k + r <= 255 && i < r && j < k <= |rows| && t < len && Shape(rows, |rows|, len)
    ensures PartialParity(rows, k, r, len, i, j + 1, t)
            == Xor(PartialParity(rows, k, r, len, i, j, t), F.Mul(C.Entry(i, j, r), rows[j][t]))
  {
    hide Xor, F.Mul, C.Entry;
    DotLast(C.GeneratorRow(k, r, k + i), Column(rows, k, len, t), j);
  }

  /** memset: the first n bytes cleared. */
  method Clear(a: array<byte>, n: nat)
    requires n <= a.Length
    modifies a
    ensures forall y :: 0 <= y < n ==> a[y] == 0
    ensures a[n..] == old(a[n..])
  {
    for x := 0 to n
      invariant forall y :: 0 <= y < x ==> a[y] == 0
      invariant forall y :: n <= y < a.Length ==> a[y] == old(a[y])
    {
      a[x] := 0;
    }
  }

  method EncodeRows(g: GfTables, data: array<byte>, k: nat, len: nat, parity: array<byte>, r: nat)
    requires g.Valid() && g.ready && parity != g.exp && parity != g.log && parity != data
    requires k + r <= 255 && k * len <= data.Length && r * len <= parity.Length
    requires forall x :: 0 <= x < r * len ==> parity[x] == 0
    modifies parity
    ensures forall i :: 0 <= i < r ==>
              Rows(parity[..], len, r)[i] == CodeFrame(Rows(data[..], len, k), k, r, len, k + i)
    ensures parity[r * len..] == old(parity[r * len..])
  {
    hide Dot, Xor, Rows, Column, C.GeneratorRow, CodeFrame;
    ghost var rows := Rows(data[..], len, k);
    assert 0 * len == 0;
    for i := 0 to r
      invariant i * len <= r * len
      invariant forall y :: i * len <= y < r * len ==> parity[y] == 0
      invariant forall y :: r * len <= y < parity.Length ==> parity[y] == old(parity[y])
      invariant forall p :: 0 <= p < i ==>
                  Rows(parity[..], len, r)[p] == CodeFrame(rows, k, r, len, k + p)
    {
      RowBounds(i, r, len);
      ghost var before := parity[..];
      EncodeRow(g, data, k, len, parity, r, i);
      RowsUpdate(before, parity[..], len, r, i);
      RowOf(parity[..], len, r, i);
      assert (i + 1) * len == i * len + len;
    }
  }

  /**
    loraitp_fec_encode: parity chunk i becomes frame k + i of the codeword of the data, and the
    buffer is left alone when the arguments are refused.
  */
  method Encode(g: GfTables, data: array<byte>, k: nat, len: nat, parity: array<byte>, r: nat) returns (rc: Status)
    requires g.Valid() && parity != g.exp && parity != g.log && parity != data
    requires data != g.exp && data != g.log
    requires k * len <= data.Length && r * len <= parity.Length
    modifies g, g.exp, g.log, parity
    ensures g.Valid()
    ensures rc == if k == 0 || r == 0 || k + r > 255 then ArgError else Ok
    ensures rc == Ok ==> forall i :: 0 <= i < r ==>
              Rows(parity[..], len, r)[i] == CodeFrame(Rows(data[..], len, k), k, r, len, k + i)
    ensures parity[r * len..] == old(parity[r * len..])
    ensures rc != Ok ==> parity[..] == old(parity[..])
  {
    hide Rows, CodeFrame;
    if k == 0 || r == 0 {
      return ArgError;
    }
    if k + r > 255 {
      return ArgError;
    }
    g.Init();
    Clear(parity, r * len);
    EncodeRows(g, data, k, len, parity, r);
    return Ok;
  }

  // ----- decoding

  /** The first k frames that are present: the picking loop of loraitp_fec_decode. */
  method Pick(present: seq<bool>, k: nat, n: nat) returns (idx: seq<nat>)
    requires n <= |present|
    ensures idx == Picked(present, n, k)
  {
    idx := [];
    var i := 0;
    while i < n && |idx| < k
      invariant i <= n && idx == Picked(present, i, k)
    {
      if present[i] {
        idx := idx + [i];
      }
      i := i + 1;
    }
    PickedFull(present, i, n, k);
  }

  lemma {:induction false} PickedFull(present: seq<bool>, i: nat, n: nat, k: nat)
    requires i <= n <= |present|
    requires i < n ==> |Picked(present, i, k)| == k
    ensures Picked(present, n, k) == Picked(present, i, k)
  {
    if i < n {
      PickedFull(present, i, n - 1, k);
    }
  }

  /** The left half of a tableau row: the generator's row for frame src. */
  method FillLeft(g: GfTables, scratch: array<byte>, at: nat, k: nat, r: nat, src: nat)
    requires g.Valid() && g.ready && scratch != g.exp && scratch != g.log
    requires k + r <= 255 && src < k + r && at + k <= scratch.Length
    requires forall x :: at <= x < at + k ==> scratch[x] == 0
    modifies scratch
    ensures scratch[at..at + k] == C.GeneratorRow(k, r, src)
    ensures forall x :: 0 <= x < scratch.Length && !(at <= x < at + k) ==> scratch[x] == old(scratch[x])
  {
    hide C.Entry, Xor;
    if src < k {
      scratch[at + src] := 1;
    } else {
      for j := 0 to k
        invariant forall x :: at <= x < at + j ==> scratch[x] == C.Entry(src - k, x - at, r)
        invariant forall x :: 0 <= x < scratch.Length && !(at <= x < at + j) ==> scratch[x] == old(scratch[x])
      {
        scratch[at + j] := g.Cauchy(src - k, j, r);
      }
    }
  }

  /** Row "row" of the decoding tableau: a row of the generator beside a row of the identity. */
  method FillRow(g: GfTables, scratch: array<byte>, at: nat, k: nat, r: nat, row: nat, src: nat)
    requires g.Valid() && g.ready && scratch != g.exp && scratch != g.log
    requires k + r <= 255 && src < k + r && row < k && at + 2 * k <= scratch.Length
    requires forall x :: at <= x < at + 2 * k ==> scratch[x] == 0
    modifies scratch
    ensures TableauRow(scratch[at..at + 2 * k], k, r, src, row)
    ensures forall x :: 0 <= x < scratch.Length && !(at <= x < at + 2 * k) ==> scratch[x] == old(scratch[x])
  {
    hide C.GeneratorRow, TableauRow;
    FillLeft(g, scratch, at, k, r, src);
    ghost var left := scratch[at..at + k];
    scratch[at + k + row] := 1;
    ghost var u := scratch[at..at + 2 * k];
    assert u[..k] == left;
    assert UnitRow(u, k, k, row);
    IsTableauRow(u, k, r, src, row);
  }

  lemma IsTableauRow(u: Vector, k: nat, r: nat, src: nat, row: nat)
    requires |u| == 2 * k && k + r <= 255 && src < k + r && row < k
    requires u[..k] == C.GeneratorRow(k, r, src) && UnitRow(u, k, k, row)
    ensures TableauRow(u, k, r, src, row)
  {
    hide C.GeneratorRow;
  }

  /** The tableau for the frames in idx, in a cleared buffer. */
  method FillTableau(g: GfTables, scratch: array<byte>, k: nat, r: nat, idx: seq<nat>)
    requires g.Valid() && g.ready && scratch != g.exp && scratch != g.log
    requires k + r <= 255 && C.Selection(k, r, idx) && k * (2 * k) <= scratch.Length
    requires forall y :: 0 <= y < k * (2 * k) ==> scratch[y] == 0
    modifies scratch
    ensures forall p :: 0 <= p < k ==> TableauRow(Rows(scratch[..], 2 * k, k)[p], k, r, idx[p], p)
    ensures scratch[k * (2 * k)..] == old(scratch[k * (2 * k)..])
  {
    hide Rows, C.GeneratorRow, TableauRow;
    assert 0 * (2 * k) == 0;
    for row := 0 to k
      invariant ClearFrom(scratch[..], row * (2 * k), k * (2 * k))
      invariant forall y :: k * (2 * k) <= y < scratch.Length ==> scratch[y] == old(scratch[y])
      invariant forall p :: 0 <= p < row ==> TableauRow(Rows(scratch[..], 2 * k, k)[p], k, r, idx[p], p)
    {
      NextTableauRow(g, scratch, k, r, row, idx[row]);
    }
  }

  predicate ClearFrom(s: seq<byte>, a: nat, z: nat) {
    a <= z <= |s| && forall y :: a <= y < z ==> s[y] == 0
  }

  /** One row of the tableau, in its place. */
  method NextTableauRow(g: GfTables, scratch: array<byte>, k: nat, r: nat, row: nat, src: nat)
    requires g.Valid() && g.ready && scratch != g.exp && scratch != g.log
    requires k + r <= 255 && src < k + r && row < k && k * (2 * k) <= scratch.Length
    requires ClearFrom(scratch[..], row * (2 * k), k * (2 * k))
    modifies scratch
    ensures ClearFrom(scratch[..], (row + 1) * (2 * k), k * (2 * k))
    ensures forall y :: k * (2 * k) <= y < scratch.Length ==> scratch[y] == old(scratch[y])
    ensures TableauRow(Rows(scratch[..], 2 * k, k)[row], k, r, src, row)
    ensures forall p :: 0 <= p < row ==> Rows(scratch[..], 2 * k, k)[p] == old(Rows(scratch[..], 2 * k, k))[p]
  {
    hide Rows, C.GeneratorRow, TableauRow;
    var w := 2 * k;
    RowBounds(row, k, w);
    ghost var before := scratch[..];
    assert forall x :: row * w <= x < row * w + w ==> scratch[..][x] == 0;
    FillRow(g, scratch, row * w, k, r, row, src);
    RowsUpdate(before, scratch[..], w, k, row);
    RowOf(scratch[..], w, k, row);
    assert (row + 1) * w == row * w + w;
  }

  method BuildTableau(g: GfTables, scratch: array<byte>, k: nat, r: nat, idx: seq<nat>)
    requires g.Valid() && g.ready && scratch != g.exp && scratch != g.log
    requires k + r <= 255 && C.Selection(k, r, idx) && k * (2 * k) <= scratch.Length
    modifies scratch
    ensures Augmented(Rows(scratch[..], 2 * k, k), C.Selected(k, r, idx), k)
    ensures scratch[k * (2 * k)..] == old(scratch[k * (2 * k)..])
  {
    hide Rows;
    Clear(scratch, k * (2 * k));
    FillTableau(g, scratch, k, r, idx);
    TableauAugmented(Rows(scratch[..], 2 * k, k), k, r, idx);
  }

  lemma TableauAugmented(a: Matrix, k: nat, r: nat, idx: seq<nat>)
    requires k + r <= 255 && C.Selection(k, r, idx) && Shape(a, k, 2 * k)
    requires forall p :: 0 <= p < k ==> TableauRow(a[p], k, r, idx[p], p)
    ensures Augmented(a, C.Selected(k, r, idx), k)
  {
    hide C.GeneratorRow, C.Selected;
    var m := C.Selected(k, r, idx);
    forall p, c | 0 <= p < k && 0 <= c < k ensures a[p][c] == m[p][c] {
      assert TableauRow(a[p], k, r, idx[p], p);
      assert a[p][..k][c] == m[p][c];
    }
    forall p | 0 <= p < k ensures UnitRow(a[p], k, k, p) {
      assert TableauRow(a[p], k, r, idx[p], p);
    }
  }

  ghost predicate TableauRow(u: Vector, k: nat, r: nat, src: nat, row: nat)
    requires |u| == 2 * k && k + r <= 255 && src < k + r && row < k
  {
    u[..k] == C.GeneratorRow(k, r, src) && UnitRow(u, k, k, row)
  }

  /** One missing chunk, computed into the workspace. */
  method RecoverChunk(g: GfTables, chunks: array<byte>, scratch: array<byte>, workspace: array<byte>,
                      idx: seq<nat>, k: nat, n: nat, len: nat, out: nat)
    requires g.Valid() && g.ready && workspace != g.exp && workspace != g.log
    requires workspace != chunks && workspace != scratch && len <= workspace.Length
    requires n * len <= chunks.Length && k * (2 * k) <= scratch.Length && out < k
    requires |idx| == k && forall p :: 0 <= p < k ==> idx[p] < n
    modifies workspace
    ensures workspace[..len] == Recovered(Rows(scratch[..], 2 * k, k), Rows(chunks[..], len, n), idx, k, len)[out]
  {
    hide Rows, Dot, Xor, F.Mul, Heard, Recovered;
    ghost var a, frames := Rows(scratch[..], 2 * k, k), Rows(chunks[..], len, n);
    Clear(workspace, len);
    RowOf(scratch[..], 2 * k, k, out);
    SumZero(a, frames, idx, k, len, out);
    for pos := 0 to k
      invariant forall t :: 0 <= t < len ==> workspace[t] == PartialSum(a, frames, idx, k, len, out, pos, t)
    {
      RowOf(chunks[..], len, n, idx[pos]);
      var coeff := scratch[out * (2 * k) + k + pos];
      assert coeff == a[out][k + pos];
      MacRow(g, workspace, 0, chunks, idx[pos] * len, coeff, len);
      forall t | 0 <= t < len ensures workspace[t] == PartialSum(a, frames, idx, k, len, out, pos + 1, t) {
        SumStep(a, frames, idx, k, len, out, pos, t);
        assert frames[idx[pos]][t] == chunks[t + idx[pos] * len];
      }
    }
    forall t | 0 <= t < len ensures workspace[t] == RecoveredByte(a, frames, idx, k, len, out, t) {
    }
  }

  /** The sum behind RecoveredByte over the first n frames heard. */
  ghost function PartialSum(a: Matrix, frames: Matrix, idx: seq<nat>, k: nat, len: nat, o: nat, n: nat, t: nat): byte
    requires Shape(a, k, 2 * k) && o < k && n <= k && t < len && Shape(frames, |frames|, len)
    requires |idx| == k && forall p :: 0 <= p < k ==> idx[p] < |frames|
  {
    Dot(a[o], k, Heard(frames, idx, k, len, t), n)
  }

  lemma SumZero(a: Matrix, frames: Matrix, idx: seq<nat>, k: nat, len: nat, o: nat)
    requires Shape(a, k, 2 * k) && o < k && Shape(frames, |frames|, len)
    requires |idx| == k && forall p :: 0 <= p < k ==> idx[p] < |frames|
    ensures forall t :: 0 <= t < len ==> PartialSum(a, frames, idx, k, len, o, 0, t) == 0
  {
  }

  lemma SumStep(a: Matrix, frames: Matrix, idx: seq<nat>, k: nat, len: nat, o: nat, p: nat, t: nat)
    requires Shape(a, k, 2 * k) && o < k && p < k && t < len && Shape(frames, |frames|, len)
    requires |idx| == k && forall p :: 0 <= p < k ==> idx[p] < |frames|
    ensures PartialSum(a, frames, idx, k, len, o, p + 1, t)
            == Xor(PartialSum(a, frames, idx, k, len, o, p, t), F.Mul(a[o][k + p], frames[idx[p]][t]))
  {
    hide Xor, F.Mul;
  }

  /** What the decoder promises about the frames after against the frames before. */
  ghost predicate Rebuilt(before: Matrix, after: Matrix, present: seq<bool>, k: nat, r: nat, len: nat)
    requires k + r <= 255 && |present| == k + r
    requires Shape(before, k + r, len) && Shape(after, k + r, len)
  {
    // only missing source chunks are written,
    && (forall i :: 0 <= i < k + r && (present[i] || i >= k) ==> after[i] == before[i])
    // the block left in place explains the k frames it was computed from,
    && (forall i :: i in Picked(present, k + r, k) && i < k + r ==> CodeFrame(after[..k], k, r, len, i) == before[i])
    // and if the frames heard belong to a codeword, that block is the original data.
    && (forall data: Matrix :: Shape(data, k, len) && Consistent(before, present, data, k, r, len) ==> after[..k] == data)
  }

  /** Missing chunks are filled in and present ones were right already. */
  lemma RecoveredPrefix(a: Matrix, before: Matrix, after: Matrix, present: seq<bool>, k: nat, r: nat, len: nat)
    requires k + r <= 255 && |present| == k + r
    requires Shape(before, k + r, len) && Shape(after, k + r, len)
    requires C.Selection(k, r, Picked(present, k + r, k))
    requires Shape(a, k, 2 * k) && Inverse(a, C.Selected(k, r, Picked(present, k + r, k)), k)
    requires forall i :: 0 <= i < k + r && (present[i] || i >= k) ==> after[i] == before[i]
    requires forall i :: 0 <= i < k && !present[i] ==>
               after[i] == Recovered(a, before, Picked(present, k + r, k), k, len)[i]
    ensures after[..k] == Recovered(a, before, Picked(present, k + r, k), k, len)
  {
    hide Recovered, C.Selected, C.GeneratorRow, Inverse, Picked, CodeFrame;
    var idx := Picked(present, k + r, k);
    var d := Recovered(a, before, idx, k, len);
    forall i | 0 <= i < k ensures after[i] == d[i] {
      if present[i] {
        PickedSources(present, k + r, k, i);
        var p :| 0 <= p < |idx| && idx[p] == i;
        RecoveredAgrees(a, before, idx, k, r, len, p);
        Systematic(d, k, r, len, i);
      }
    }
  }

  /** The recovered block explains every frame picked. */
  lemma RecoveredExplains(a: Matrix, before: Matrix, idx: seq<nat>, k: nat, r: nat, len: nat)
    requires k + r <= 255 && C.Selection(k, r, idx) && Shape(before, k + r, len)
    requires Shape(a, k, 2 * k) && Inverse(a, C.Selected(k, r, idx), k)
    ensures forall i :: i in idx && i < k + r ==> CodeFrame(Recovered(a, before, idx, k, len), k, r, len, i) == before[i]
  {
    hide Recovered, C.Selected, C.GeneratorRow, Inverse, CodeFrame;
    forall i | i in idx && i < k + r ensures CodeFrame(Recovered(a, before, idx, k, len), k, r, len, i) == before[i] {
      var p :| 0 <= p < |idx| && idx[p] == i;
      RecoveredAgrees(a, before, idx, k, r, len, p);
    }
  }

  /** If the frames heard belong to a codeword, its data is what was recovered. */
  lemma RecoveredFaithful(a: Matrix, before: Matrix, present: seq<bool>, k: nat, r: nat, len: nat)
    requires k + r <= 255 && |present| == k + r && Shape(before, k + r, len)
    requires C.Selection(k, r, Picked(present, k + r, k))
    requires Shape(a, k, 2 * k) && Inverse(a, C.Selected(k, r, Picked(present, k + r, k)), k)
    ensures forall data: Matrix :: Shape(data, k, len) && Consistent(before, present, data, k, r, len) ==>
              Recovered(a, before, Picked(present, k + r, k), k, len) == data
  {
    hide Recovered, C.Selected, C.GeneratorRow, Inverse, Picked, CodeFrame, Consistent;
    PickedFrames(present, k + r, k);
    var idx := Picked(present, k + r, k);
    forall data: Matrix | Shape(data, k, len) && Consistent(before, present, data, k, r, len)
      ensures Recovered(a, before, idx, k, len) == data
    {
      RecoveredIsData(a, before, idx, present, data, k, r, len);
    }
  }

  lemma RecoveredRebuilt(a: Matrix, before: Matrix, after: Matrix, present: seq<bool>, k: nat, r: nat, len: nat)
    requires k + r <= 255 && |present| == k + r
    requires Shape(before, k + r, len) && Shape(after, k + r, len)
    requires C.Selection(k, r, Picked(present, k + r, k))
    requires Shape(a, k, 2 * k) && Inverse(a, C.Selected(k, r, Picked(present, k + r, k)), k)
    requires forall i :: 0 <= i < k + r && (present[i] || i >= k) ==> after[i] == before[i]
    requires forall i :: 0 <= i < k && !present[i] ==>
               after[i] == Recovered(a, before, Picked(present, k + r, k), k, len)[i]
    ensures Rebuilt(before, after, present, k, r, len)
  {
    hide Recovered, C.Selected, C.GeneratorRow, Inverse, Picked, CodeFrame, Consistent;
    RecoveredPrefix(a, before, after, present, k, r, len);
    RecoveredExplains(a, before, Picked(present, k + r, k), k, r, len);
    RecoveredFaithful(a, before, present, k, r, len);
  }

  /**
    loraitp_fec_decode.  With at least k frames present it always succeeds and rebuilds the missing
    source chunks in place; otherwise it reports which way it failed and changes no chunk.
  */
  method Decode(g: GfTables, chunks: array<byte>, present: seq<bool>, k: nat, r: nat, len: nat,
                scratch: array<byte>, workspace: array<byte>) returns (rc: Status)
    requires g.Valid() && k + r <= 255 && |present| == k + r
    requires (k + r) * len <= chunks.Length && len <= workspace.Length
    requires chunks != scratch && chunks != workspace && scratch != workspace
    requires {chunks, scratch, workspace} !! {g.exp, g.log}
    modifies g, g.exp, g.log, chunks, scratch, workspace
    ensures g.Valid()
    ensures rc == if scratch.Length < k * (2 * k) then ArgError
                  else if CountPresent(present, k + r) < k then TooFewFrames else Ok
    ensures rc != Ok ==> chunks[..] == old(chunks[..])
    ensures rc == Ok ==>
              Rebuilt(old(Rows(chunks[..], len, k + r)), Rows(chunks[..], len, k + r), present, k, r, len)
    ensures chunks[(k + r) * len..] == old(chunks[(k + r) * len..])
  {
    hide Rows, Dot, Picked, CountPresent, C.Selected, C.GeneratorRow, Recovered, Regular, Inverse, Reduced;
    if scratch.Length < k * (2 * k) {
      return ArgError;
    }
    g.Init();
    var idx := Pick(present, k, k + r);
    PickedCount(present, k + r, k);
    if |idx| < k {
      return TooFewFrames;
    }
    PickedSelection(present, k, r);
    PickedFrames(present, k + r, k);
    C.AnySelectionRegular(k, r, idx);
    BuildTableau(g, scratch, k, r, idx);
    var ok := GJ.Invert(g, scratch, k, C.Selected(k, r, idx));
    ghost var a, before := Rows(scratch[..], 2 * k, k), Rows(chunks[..], len, k + r);
    FillMissing(g, chunks, present, k, r, len, scratch, workspace, idx);
    RecoveredRebuilt(a, before, Rows(chunks[..], len, k + r), present, k, r, len);
    return Ok;
  }

  /** The output loop of loraitp_fec_decode: it writes missing source chunks and reads present frames. */
  method FillMissing(g: GfTables, chunks: array<byte>, present: seq<bool>, k: nat, r: nat, len: nat,
                     scratch: array<byte>, workspace: array<byte>, idx: seq<nat>)
    requires g.Valid() && g.ready && k + r <= 255 && |present| == k + r
    requires (k + r) * len <= chunks.Length && len <= workspace.Length && k * (2 * k) <= scratch.Length
    requires chunks != scratch && chunks != workspace && scratch != workspace
    requires {chunks, scratch, workspace} !! {g.exp, g.log}
    requires |idx| == k && forall p :: 0 <= p < k ==> idx[p] < k + r && present[idx[p]]
    modifies chunks, workspace
    ensures var n := k + r;
            var before, after := old(Rows(chunks[..], len, n)), Rows(chunks[..], len, n);
            && (forall i :: 0 <= i < n && (present[i] || i >= k) ==> after[i] == before[i])
            && (forall i :: 0 <= i < k && !present[i] ==>
                  after[i] == Recovered(Rows(scratch[..], 2 * k, k), before, idx, k, len)[i])
    ensures chunks[(k + r) * len..] == old(chunks[(k + r) * len..])
  {
    hide Rows, Recovered;
    ghost var n := k + r;
    ghost var a, before := Rows(scratch[..], 2 * k, k), Rows(chunks[..], len, n);
    for out := 0 to k
      invariant Rows(scratch[..], 2 * k, k) == a
      invariant chunks[n * len..] == old(chunks[n * len..])
      invariant forall i :: 0 <= i < n && (present[i] || i >= out) ==> Rows(chunks[..], len, n)[i] == before[i]
      invariant forall i :: 0 <= i < out && !present[i] ==>
                  Rows(chunks[..], len, n)[i] == Recovered(a, before, idx, k, len)[i]
    {
      if !present[out] {
        ghost var flat := chunks[..];
        RecoverChunk(g, chunks, scratch, workspace, idx, k, k + r, len, out);
        SameHeard(a, before, Rows(flat, len, n), idx, k, len);
        RowBounds(out, n, len);
        CopyChunk(workspace, chunks, out * len, len);
        RowsUpdate(flat, chunks[..], len, n, out);
        RowOf(chunks[..], len, n, out);
      }
    }
  }

  method CopyChunk(src: array<byte>, dst: array<byte>, at: nat, len: nat)
    requires src != dst && len <= src.Length && at + len <= dst.Length
    modifies dst
    ensures dst[at..at + len] == src[..len]
    ensures forall x :: 0 <= x < dst.Length && !(at <= x < at + len) ==> dst[x] == old(dst[x])
  {
    for i := 0 to len
      invariant dst[at..at + i] == src[..i]
      invariant forall x :: 0 <= x < dst.Length && !(at <= x < at + i) ==> dst[x] == old(dst[x])
    {
      dst[at + i] := src[i];
    }
  }

  /** Chunks already rebuilt are not among those read. */
  lemma SameHeard(a: Matrix, x: Matrix, y: Matrix, idx: seq<nat>, k: nat, len: nat)
    requires Shape(a, k, 2 * k) && |x| == |y| && Shape(x, |x|, len) && Shape(y, |y|, len)
    requires |idx| == k && forall p :: 0 <= p < k ==> idx[p] < |x| && x[idx[p]] == y[idx[p]]
    ensures Recovered(a, x, idx, k, len) == Recovered(a, y, idx, k, len)
  {
    hide Dot;
    forall t | 0 <= t < len ensures Heard(x, idx, k, len, t) == Heard(y, idx, k, len, t) {
    }
    forall o | 0 <= o < k ensures Recovered(a, x, idx, k, len)[o] == Recovered(a, y, idx, k, len)[o] {
    }
  }
}
