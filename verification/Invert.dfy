/** Gauss-Jordan inversion in place, on k augmented rows of width 2k in a flat buffer. */
module GaussJordan {
  import opened Bytes
  import opened Linear
  import opened Layout
  import opened Tables
  import F = Gf256

  lemma RowsSwapped(s: seq<byte>, s': seq<byte>, w: nat, n: nat, p: nat, q: nat, pb: nat, qb: nat)
    requires n * w <= |s| == |s'| && p < n && q < n && p != q
    requires pb == p * w && qb == q * w && pb + w <= |s| && qb + w <= |s|
    requires forall x :: 0 <= x < |s| && !(pb <= x < pb + w) && !(qb <= x < qb + w) ==> s'[x] == s[x]
    requires s'[pb..pb + w] == s[qb..qb + w] && s'[qb..qb + w] == s[pb..pb + w]
    ensures Rows(s', w, n) == SwapRows(Rows(s, w, n), p, q)
  {
    hide Rows;
    RowOf(s, w, n, p);
    RowOf(s, w, n, q);
    RowOf(s', w, n, p);
    RowOf(s', w, n, q);
    RowsApart(p, q, w);
    forall r | 0 <= r < n && r != p && r != q ensures Rows(s', w, n)[r] == Rows(s, w, n)[r] {
      RowOf(s, w, n, r);
      RowOf(s', w, n, r);
      RowsApart(p, r, w);
      RowsApart(q, r, w);
      var rb := r * w;
      assert s'[rb..rb + w] == s[rb..rb + w];
    }
  }

  method SwapSpans(a: array<byte>, pb: nat, qb: nat, w: nat)
    requires pb + w <= a.Length && qb + w <= a.Length
    requires pb + w <= qb || qb + w <= pb
    modifies a
    ensures a[pb..pb + w] == old(a[qb..qb + w]) && a[qb..qb + w] == old(a[pb..pb + w])
    ensures forall x :: 0 <= x < a.Length && !(pb <= x < pb + w) && !(qb <= x < qb + w) ==> a[x] == old(a[x])
  {
    for c := 0 to w
      invariant forall x :: 0 <= x < a.Length && !(pb <= x < pb + c) && !(qb <= x < qb + c) ==> a[x] == old(a[x])
      invariant forall x :: pb <= x < pb + c ==> a[x] == old(a[x - pb + qb])
      invariant forall x :: qb <= x < qb + c ==> a[x] == old(a[x - qb + pb])
    {
      a[pb + c], a[qb + c] := a[qb + c], a[pb + c];
    }
  }

  /** Rows p and q exchanged. */
  method SwapRowsInPlace(a: array<byte>, w: nat, n: nat, p: nat, q: nat)
    requires n * w <= a.Length && p < n && q < n && p != q
    modifies a
    ensures Rows(a[..], w, n) == SwapRows(old(Rows(a[..], w, n)), p, q)
    ensures a[n * w..] == old(a[n * w..])
  {
    hide Rows, SwapRows;
    ghost var before := a[..];
    RowBounds(p, n, w);
    RowBounds(q, n, w);
    RowsApart(p, q, w);
    SwapSpans(a, p * w, q * w, w);
    RowsSwapped(before, a[..], w, n, p, q, p * w, q * w);
  }

  method ScaleSpan(g: GfTables, a: array<byte>, base: nat, w: nat, f: byte)
    requires g.Valid() && g.ready && a != g.exp && a != g.log
    requires base + w <= a.Length
    modifies a
    ensures a[base..base + w] == Scale(old(a[base..base + w]), f)
    ensures forall x :: 0 <= x < a.Length && !(base <= x < base + w) ==> a[x] == old(a[x])
  {
    hide F.Mul;
    for j := 0 to w
      invariant forall x :: 0 <= x < a.Length && !(base <= x < base + j) ==> a[x] == old(a[x])
      invariant forall x :: base <= x < base + j ==> a[x] == F.Mul(old(a[x]), f)
    {
      a[base + j] := g.Mul(a[base + j], f);
    }
  }

  /** Row c multiplied by f. */
  method ScaleRowInPlace(g: GfTables, a: array<byte>, w: nat, n: nat, c: nat, f: byte)
    requires g.Valid() && g.ready && a != g.exp && a != g.log
    requires n * w <= a.Length && c < n
    modifies a
    ensures Rows(a[..], w, n) == ScaleRow(old(Rows(a[..], w, n)), c, f)
    ensures a[n * w..] == old(a[n * w..])
  {
    hide Rows, Scale;
    ghost var before := a[..];
    RowOf(before, w, n, c);
    ScaleSpan(g, a, c * w, w, f);
    RowsUpdate(before, a[..], w, n, c);
    RowOf(a[..], w, n, c);
  }

  method AddSpan(g: GfTables, a: array<byte>, rb: nat, cb: nat, w: nat, f: byte)
    requires g.Valid() && g.ready && a != g.exp && a != g.log
    requires rb + w <= a.Length && cb + w <= a.Length
    requires rb + w <= cb || cb + w <= rb
    modifies a
    ensures a[rb..rb + w] == AddScaled(old(a[rb..rb + w]), f, old(a[cb..cb + w]))
    ensures forall x :: 0 <= x < a.Length && !(rb <= x < rb + w) ==> a[x] == old(a[x])
  {
    hide Xor, F.Mul;
    for j := 0 to w
      invariant forall x :: 0 <= x < a.Length && !(rb <= x < rb + j) ==> a[x] == old(a[x])
      invariant forall x :: rb <= x < rb + j ==> a[x] == Xor(old(a[x]), F.Mul(f, old(a[x - rb + cb])))
    {
      a[rb + j] := Xor(a[rb + j], g.Mul(f, a[cb + j]));
    }
  }

  /** f times row c added to row r. */
  method AddRowInPlace(g: GfTables, a: array<byte>, w: nat, n: nat, r: nat, f: byte, c: nat)
    requires g.Valid() && g.ready && a != g.exp && a != g.log
    requires n * w <= a.Length && r < n && c < n && r != c
    modifies a
    ensures Rows(a[..], w, n) == AddRow(old(Rows(a[..], w, n)), r, f, c)
    ensures a[n * w..] == old(a[n * w..])
  {
    hide Rows, AddScaled;
    ghost var before := a[..];
    RowOf(before, w, n, r);
    RowOf(before, w, n, c);
    RowsApart(r, c, w);
    AddSpan(g, a, r * w, c * w, w, f);
    RowsUpdate(before, a[..], w, n, r);
    RowOf(a[..], w, n, r);
  }

  // ----- what one column of the elimination does to the tableau

  /** Rows before t (other than the pivot row col) have a zero in column col. */
  ghost predicate Cleared(a: Matrix, k: nat, col: nat, t: nat)
    requires Shape(a, k, 2 * k) && col < k
  {
    forall r :: 0 <= r < k && r < t && r != col ==> a[r][col] == 0
  }

  lemma SwapKeepsReduced(a: Matrix, k: nat, col: nat, piv: nat)
    requires Shape(a, k, 2 * k) && col < piv < k && Reduced(a, k, col)
    ensures Reduced(SwapRows(a, col, piv), k, col)
  {
    assert ReducedRow(a[col], col, col) && ReducedRow(a[piv], col, piv);
    forall r | 0 <= r < k ensures ReducedRow(SwapRows(a, col, piv)[r], col, r) {
      assert ReducedRow(a[r], col, r);
    }
  }

  lemma ScaleKeepsReduced(a: Matrix, k: nat, col: nat, f: byte)
    requires Shape(a, k, 2 * k) && col < k && Reduced(a, k, col)
    ensures Reduced(ScaleRow(a, col, f), k, col)
  {
    hide F.Mul;
    F.MulZero(f);
    forall r | 0 <= r < k ensures ReducedRow(ScaleRow(a, col, f)[r], col, r) {
      assert ReducedRow(a[r], col, r);
    }
  }

  lemma AddKeepsReduced(a: Matrix, k: nat, col: nat, r: nat, f: byte)
    requires Shape(a, k, 2 * k) && col < k && r < k && r != col && Reduced(a, k, col)
    ensures Reduced(AddRow(a, r, f, col), k, col)
  {
    hide F.Mul, Xor;
    F.MulZero(f);
    assert ReducedRow(a[col], col, col);
    forall i | 0 <= i < k ensures ReducedRow(AddRow(a, r, f, col)[i], col, i) {
      assert ReducedRow(a[i], col, i);
      forall c | 0 <= c < col ensures Xor(a[i][c], 0) == a[i][c] {
        XorZero(a[i][c]);
      }
    }
  }

  lemma AddClears(a: Matrix, k: nat, col: nat, r: nat)
    requires Shape(a, k, 2 * k) && col < k && r < k && r != col
    requires a[col][col] == 1
    ensures AddRow(a, r, a[r][col], col)[r][col] == 0
  {
    hide F.Mul, Xor;
    F.MulOne(a[r][col]);
    XorSelf(a[r][col]);
  }

  lemma ClearedIsReduced(a: Matrix, k: nat, col: nat)
    requires Shape(a, k, 2 * k) && col < k && Reduced(a, k, col)
    requires a[col][col] == 1 && Cleared(a, k, col, k)
    ensures Reduced(a, k, col + 1)
  {
    forall r | 0 <= r < k ensures ReducedRow(a[r], col + 1, r) {
      assert ReducedRow(a[r], col, r);
    }
  }

  /** The first row from col on with a non-zero entry in column col; k if there is none. */
  method FindPivot(a: array<byte>, k: nat, col: nat) returns (piv: nat)
    requires k * (2 * k) <= a.Length && col < k
    ensures col <= piv <= k
    ensures forall r :: col <= r < piv ==> Rows(a[..], 2 * k, k)[r][col] == 0
    ensures piv < k ==> Rows(a[..], 2 * k, k)[piv][col] != 0
  {
    hide Rows;
    piv := col;
    while piv < k
      invariant col <= piv <= k
      invariant forall r :: col <= r < piv ==> Rows(a[..], 2 * k, k)[r][col] == 0
    {
      RowOf(a[..], 2 * k, k, piv);
      if a[piv * (2 * k) + col] != 0 {
        return;
      }
      piv := piv + 1;
    }
  }

  /** The pivot row of column col moved into place and divided by its pivot. */
  method Normalise(g: GfTables, a: array<byte>, k: nat, col: nat, piv: nat, ghost m: Matrix)
    requires g.Valid() && g.ready && a != g.exp && a != g.log
    requires k * (2 * k) <= a.Length && col <= piv < k && Shape(m, k, k)
    requires Rows(a[..], 2 * k, k)[piv][col] != 0
    requires Sound(Rows(a[..], 2 * k, k), m, k) && Reduced(Rows(a[..], 2 * k, k), k, col)
    modifies a
    ensures Sound(Rows(a[..], 2 * k, k), m, k) && Reduced(Rows(a[..], 2 * k, k), k, col)
    ensures Rows(a[..], 2 * k, k)[col][col] == 1
    ensures a[k * (2 * k)..] == old(a[k * (2 * k)..])
  {
    hide Rows, Sound, Scale, Reduced, F.Mul, F.Inv;
    var w := 2 * k;
    ghost var rows := Rows(a[..], w, k);
    if piv != col {
      SwapRowsInPlace(a, w, k, col, piv);
      PerformSound(Swap(col, piv), rows, m, k);
      SwapKeepsReduced(rows, k, col, piv);
      rows := Rows(a[..], w, k);
    }
    RowOf(a[..], w, k, col);
    var pivot := a[col * w + col];
    assert pivot == rows[col][col];
    var p := g.Inv(pivot);
    F.MulInv(pivot);
    ScaleRowInPlace(g, a, w, k, col, p);
    PerformSound(Multiply(col, p), rows, m, k);
    ScaleKeepsReduced(rows, k, col, p);
  }

  /** Every other row cleared in column col. */
  method Eliminate(g: GfTables, a: array<byte>, k: nat, col: nat, ghost m: Matrix)
    requires g.Valid() && g.ready && a != g.exp && a != g.log
    requires k * (2 * k) <= a.Length && col < k && Shape(m, k, k)
    requires Rows(a[..], 2 * k, k)[col][col] == 1
    requires Sound(Rows(a[..], 2 * k, k), m, k) && Reduced(Rows(a[..], 2 * k, k), k, col)
    modifies a
    ensures Sound(Rows(a[..], 2 * k, k), m, k) && Reduced(Rows(a[..], 2 * k, k), k, col + 1)
    ensures a[k * (2 * k)..] == old(a[k * (2 * k)..])
  {
    hide Rows, Sound, Reduced, AddScaled, F.Mul, Xor;
    var w := 2 * k;
    for r := 0 to k
      invariant Rows(a[..], w, k)[col][col] == 1
      invariant Sound(Rows(a[..], w, k), m, k) && Reduced(Rows(a[..], w, k), k, col)
      invariant Cleared(Rows(a[..], w, k), k, col, r)
      invariant a[k * w..] == old(a[k * w..])
    {
      if r != col {
        ghost var rows := Rows(a[..], w, k);
        RowOf(a[..], w, k, r);
        var f := a[r * w + col];
        assert f == rows[r][col];
        if f != 0 {
          AddRowInPlace(g, a, w, k, r, f, col);
          PerformSound(AddMultiple(r, f, col), rows, m, k);
          AddKeepsReduced(rows, k, col, r, f);
          AddClears(rows, k, col, r);
        }
      }
    }
    ClearedIsReduced(Rows(a[..], w, k), k, col);
  }

  /**
    invert: given m beside the identity, succeeds exactly when m is non-singular and then leaves
    the identity beside the two-sided inverse of m.  Bytes beyond the k rows are not touched.
  */
  method Invert(g: GfTables, a: array<byte>, k: nat, ghost m: Matrix) returns (ok: bool)
    requires g.Valid() && g.ready && a != g.exp && a != g.log
    requires k * (2 * k) <= a.Length && Shape(m, k, k)
    requires Augmented(Rows(a[..], 2 * k, k), m, k)
    modifies a
    ensures ok <==> Regular(m, k)
    ensures ok ==> Reduced(Rows(a[..], 2 * k, k), k, k)
    ensures ok ==> Inverse(Rows(a[..], 2 * k, k), m, k)
    ensures a[k * (2 * k)..] == old(a[k * (2 * k)..])
  {
    hide Rows, Sound, Regular, Inverse;
    var w := 2 * k;
    AugmentedSound(Rows(a[..], w, k), m, k);
    for col := 0 to k
      invariant Sound(Rows(a[..], w, k), m, k) && Reduced(Rows(a[..], w, k), k, col)
      invariant a[k * w..] == old(a[k * w..])
    {
      var piv := FindPivot(a, k, col);
      if piv == k {
        NoPivotSingular(Rows(a[..], w, k), m, k, col);
        return false;
      }
      Normalise(g, a, k, col, piv, m);
      Eliminate(g, a, k, col, m);
    }
    ReducedIsInverse(Rows(a[..], w, k), m, k);
    InverseRegular(Rows(a[..], w, k), m, k);
    return true;
  }
}
