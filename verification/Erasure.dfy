/**
  What the erasure code means, independent of how it is computed: a block of k equal chunks, the
  codeword of k + r frames it stands for, and why any k of those frames determine the block.
*/
module Erasure {
  import opened Bytes
  import opened Linear
  import opened Cauchy

  /** Byte t of each of the first n chunks. */
  ghost function Column(chunks: Matrix, n: nat, len: nat, t: nat): (v: Vector)
    requires n <= |chunks| && t < len && Shape(chunks, |chunks|, len)
    ensures |v| == n
    ensures forall j :: 0 <= j < n ==> v[j] == chunks[j][t]
  {
    seq(n, j requires 0 <= j < n => chunks[j][t])
  }

  /** Byte t of frame i of the codeword for data: source chunks first, then parity. */
  ghost function CodeByte(data: Matrix, k: nat, r: nat, len: nat, i: nat, t: nat): byte
    requires k + r <= 255 && i < k + r && t < len && k <= |data| && Shape(data, |data|, len)
  {
    Dot(GeneratorRow(k, r, i), 0, Column(data, k, len, t), k)
  }

  /** Frame i of the codeword for data. */
  ghost function CodeFrame(data: Matrix, k: nat, r: nat, len: nat, i: nat): (f: seq<byte>)
    requires k + r <= 255 && i < k + r && k <= |data| && Shape(data, |data|, len)
    ensures |f| == len
    ensures forall t :: 0 <= t < len ==> f[t] == CodeByte(data, k, r, len, i, t)
  {
    seq(len, t requires 0 <= t < len => CodeByte(data, k, r, len, i, t))
  }

  /** The code is systematic: the first k frames are the chunks themselves. */
  lemma Systematic(data: Matrix, k: nat, r: nat, len: nat, i: nat)
    requires k + r <= 255 && i < k <= |data| && Shape(data, |data|, len)
    ensures CodeFrame(data, k, r, len, i) == data[i]
  {
    hide Dot, Column, GeneratorRow;
    forall t | 0 <= t < len ensures CodeByte(data, k, r, len, i, t) == data[i][t] {
      SourceEntry(k, r, i, Column(data, k, len, t));
    }
  }

  // ----- which frames a decoder uses

  /** The first k frames present among the first n. */
  ghost function Picked(present: seq<bool>, n: nat, k: nat): (idx: seq<nat>)
    requires n <= |present|
    ensures |idx| <= k && |idx| <= n
  {
    if n == 0 then []
    else
      var p := Picked(present, n - 1, k);
      if |p| < k && present[n - 1] then p + [n - 1] else p
  }

  ghost function CountPresent(present: seq<bool>, n: nat): (c: nat)
    requires n <= |present|
    ensures c <= n
  {
    if n == 0 then 0 else CountPresent(present, n - 1) + if present[n - 1] then 1 else 0
  }

  lemma {:induction false} PickedCount(present: seq<bool>, n: nat, k: nat)
    requires n <= |present|
    ensures |Picked(present, n, k)| == if CountPresent(present, n) < k then CountPresent(present, n) else k
  {
    if n > 0 {
      PickedCount(present, n - 1, k);
    }
  }

  /** Present frames below n, in order. */
  ghost predicate InOrder(present: seq<bool>, n: nat, idx: seq<nat>) {
    && (forall i :: 0 <= i < |idx| ==> idx[i] < n && idx[i] < |present| && present[idx[i]])
    && (forall i, j :: 0 <= i < j < |idx| ==> idx[i] < idx[j])
  }

  lemma {:induction false} PickedFrames(present: seq<bool>, n: nat, k: nat)
    requires n <= |present|
    ensures InOrder(present, n, Picked(present, n, k))
  {
    if n > 0 {
      PickedFrames(present, n - 1, k);
    }
  }

  lemma {:induction false} PickedSources(present: seq<bool>, n: nat, k: nat, i: nat)
    requires i < n <= |present| && i < k && present[i]
    ensures i in Picked(present, n, k)
  {
    if i < n - 1 {
      PickedSources(present, n - 1, k, i);
    }
  }

  lemma PickedSelection(present: seq<bool>, k: nat, r: nat)
    requires |present| == k + r && CountPresent(present, k + r) >= k
    ensures Selection(k, r, Picked(present, k + r, k))
  {
    PickedCount(present, k + r, k);
    PickedFrames(present, k + r, k);
  }

  // ----- recovering a block

  /** Byte t of the frames the decoder picked. */
  ghost function Heard(frames: Matrix, idx: seq<nat>, k: nat, len: nat, t: nat): (y: Vector)
    requires t < len && Shape(frames, |frames|, len)
    requires |idx| == k && forall p :: 0 <= p < k ==> idx[p] < |frames|
    ensures |y| == k
    ensures forall p :: 0 <= p < k ==> y[p] == frames[idx[p]][t]
  {
    seq(k, p requires 0 <= p < k => frames[idx[p]][t])
  }

  /** Byte t of chunk o as the inverse in the right half of a gives it. */
  ghost function RecoveredByte(a: Matrix, frames: Matrix, idx: seq<nat>, k: nat, len: nat, o: nat, t: nat): byte
    requires Shape(a, k, 2 * k) && o < k && t < len && Shape(frames, |frames|, len)
    requires |idx| == k && forall p :: 0 <= p < k ==> idx[p] < |frames|
  {
    Dot(a[o], k, Heard(frames, idx, k, len, t), k)
  }

  ghost function Recovered(a: Matrix, frames: Matrix, idx: seq<nat>, k: nat, len: nat): (d: Matrix)
    requires Shape(a, k, 2 * k) && Shape(frames, |frames|, len)
    requires |idx| == k && forall p :: 0 <= p < k ==> idx[p] < |frames|
    ensures Shape(d, k, len)
    ensures forall o, t :: 0 <= o < k && 0 <= t < len ==> d[o][t] == RecoveredByte(a, frames, idx, k, len, o, t)
  {
    seq(k, o requires 0 <= o < k =>
      seq(len, t requires 0 <= t < len => RecoveredByte(a, frames, idx, k, len, o, t)))
  }

  /** frames agrees with the codeword of data on every frame that is present. */
  ghost predicate Consistent(frames: Matrix, present: seq<bool>, data: Matrix, k: nat, r: nat, len: nat)
    requires k + r <= 255 && |present| == k + r
    requires Shape(frames, k + r, len) && Shape(data, k, len)
  {
    forall i :: 0 <= i < k + r && present[i] ==> frames[i] == CodeFrame(data, k, r, len, i)
  }

  lemma RecoveredColumn(a: Matrix, frames: Matrix, idx: seq<nat>, k: nat, len: nat, t: nat)
    requires Shape(a, k, 2 * k) && Shape(frames, |frames|, len) && t < len
    requires |idx| == k && forall p :: 0 <= p < k ==> idx[p] < |frames|
    ensures Column(Recovered(a, frames, idx, k, len), k, len, t)
            == Apply(a, 2 * k, k, Heard(frames, idx, k, len, t))
  {
    hide Dot;
  }

  /** The recovered block explains every frame it was computed from. */
  lemma RecoveredAgrees(a: Matrix, frames: Matrix, idx: seq<nat>, k: nat, r: nat, len: nat, p: nat)
    requires k + r <= 255 && Selection(k, r, idx) && Shape(frames, k + r, len) && p < k
    requires Shape(a, k, 2 * k) && Inverse(a, Selected(k, r, idx), k)
    ensures CodeFrame(Recovered(a, frames, idx, k, len), k, r, len, idx[p]) == frames[idx[p]]
  {
    hide Dot, Recovered, GeneratorRow, Column, Heard;
    var d := Recovered(a, frames, idx, k, len);
    var m := Selected(k, r, idx);
    forall t | 0 <= t < len ensures CodeByte(d, k, r, len, idx[p], t) == frames[idx[p]][t] {
      var y := Heard(frames, idx, k, len, t);
      RecoveredColumn(a, frames, idx, k, len, t);
      assert InverseAt(a, m, k, y);
      assert Apply(m, k, 0, Column(d, k, len, t))[p] == y[p];
    }
  }

  /** If the frames heard come from a codeword, the recovered block is its data. */
  lemma RecoveredIsData(a: Matrix, frames: Matrix, idx: seq<nat>, present: seq<bool>, data: Matrix,
                        k: nat, r: nat, len: nat)
    requires k + r <= 255 && Selection(k, r, idx) && Shape(frames, k + r, len) && Shape(data, k, len)
    requires Shape(a, k, 2 * k) && Inverse(a, Selected(k, r, idx), k)
    requires |present| == k + r && forall p :: 0 <= p < k ==> present[idx[p]]
    requires Consistent(frames, present, data, k, r, len)
    ensures Recovered(a, frames, idx, k, len) == data
  {
    hide Dot, Recovered, GeneratorRow, Column, Heard;
    var d := Recovered(a, frames, idx, k, len);
    var m := Selected(k, r, idx);
    forall o, t | 0 <= o < k && 0 <= t < len ensures d[o][t] == data[o][t] {
      var c := Column(data, k, len, t);
      var y := Heard(frames, idx, k, len, t);
      forall p | 0 <= p < k ensures Apply(m, k, 0, c)[p] == y[p] {
        assert present[idx[p]];
        assert frames[idx[p]] == CodeFrame(data, k, r, len, idx[p]);
        assert frames[idx[p]][t] == CodeByte(data, k, r, len, idx[p], t);
      }
      assert Apply(m, k, 0, c) == y;
      assert InverseAt(a, m, k, c);
      RecoveredColumn(a, frames, idx, k, len, t);
      assert Column(d, k, len, t)[o] == c[o];
    }
    forall o | 0 <= o < k ensures d[o] == data[o] {
    }
  }

  /** Two blocks whose codewords agree on k frames are the same block. */
  lemma AnyKFramesDetermineTheBlock(x: Matrix, y: Matrix, k: nat, r: nat, len: nat, idx: seq<nat>)
    requires k + r <= 255 && Selection(k, r, idx) && Shape(x, k, len) && Shape(y, k, len)
    requires forall p :: 0 <= p < k ==> CodeFrame(x, k, r, len, idx[p]) == CodeFrame(y, k, r, len, idx[p])
    ensures x == y
  {
    hide Dot, GeneratorRow, Column, Xor, Add;
    var m := Selected(k, r, idx);
    AnySelectionRegular(k, r, idx);
    forall o, t | 0 <= o < k && 0 <= t < len ensures x[o][t] == y[o][t] {
      var cx, cy := Column(x, k, len, t), Column(y, k, len, t);
      var s := Add(cx, cy);
      forall p | 0 <= p < k ensures Dot(m[p], 0, s, k) == 0 {
        DotAdd(m[p], 0, cx, cy, k);
        assert CodeFrame(x, k, r, len, idx[p])[t] == CodeFrame(y, k, r, len, idx[p])[t];
        XorSelf(Dot(m[p], 0, cx, k));
      }
      assert InjectiveAt(m, k, 0, s);
      assert s[o] == 0;
      XorIsZero(cx[o], cy[o]);
    }
    forall o | 0 <= o < k ensures x[o] == y[o] {
    }
  }
}
