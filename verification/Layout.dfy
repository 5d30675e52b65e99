/** Rows of equal width laid end to end in a flat buffer. */
module Layout {
  import opened Bytes

  lemma RowBounds(r: nat, n: nat, w: nat)
    requires r < n
    ensures 0 <= r * w <= r * w + w <= n * w
  {
    assert n * w == r * w + w + (n - r - 1) * w;
    assert (n - r - 1) * w >= 0;
  }

  /** Distinct rows do not overlap. */
  lemma RowsApart(p: nat, r: nat, w: nat)
    requires p != r
    ensures r * w + w <= p * w || p * w + w <= r * w
  {
    if r < p {
      RowBounds(r, p, w);
    } else {
      RowBounds(p, r, w);
    }
  }

  function Row(s: seq<byte>, w: nat, r: nat): (row: seq<byte>)
    requires r * w + w <= |s|
    ensures |row| == w
  {
    s[r * w..r * w + w]
  }

  function Rows(s: seq<byte>, w: nat, n: nat): (m: seq<seq<byte>>)
    requires n * w <= |s|
    ensures |m| == n
    ensures forall r :: 0 <= r < n ==> |m[r]| == w
  {
    seq(n, r requires 0 <= r < n => (RowBounds(r, n, w); Row(s, w, r)))
  }

  lemma RowOf(s: seq<byte>, w: nat, n: nat, r: nat)
    requires n * w <= |s| && r < n
    ensures 0 <= r * w <= r * w + w <= n * w
    ensures Rows(s, w, n)[r] == s[r * w..r * w + w]
  {
    RowBounds(r, n, w);
  }

  /** Writing inside row p changes row p alone. */
  lemma RowsUpdate(s: seq<byte>, s': seq<byte>, w: nat, n: nat, p: nat)
    requires n * w <= |s| == |s'| && p < n
    requires forall x :: 0 <= x < |s| && !(p * w <= x < p * w + w) ==> s'[x] == s[x]
    ensures Rows(s', w, n) == Rows(s, w, n)[p := Rows(s', w, n)[p]]
  {
    forall r | 0 <= r < n && r != p ensures Rows(s', w, n)[r] == Rows(s, w, n)[r] {
      RowOf(s, w, n, r);
      RowOf(s', w, n, r);
      RowsApart(p, r, w);
    }
  }
}
