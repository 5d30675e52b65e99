/**
  The systematic Cauchy generator [I ; C]: any k of its k + r rows form a non-singular matrix.
*/
module Cauchy {
  import opened Bytes
  import opened Gf256
  import opened Linear

  /** C[i][j], for parity row i < r and column j. */
  ghost function Entry(i: nat, j: nat, r: nat): byte
    requires i < r && r + j < 256
  {
    Inv(Difference(i, r + j))
  }

  ghost function Difference(x: byte, y: byte): (d: byte)
    requires x != y
    ensures d == Xor(x, y) != 0
  {
    XorIsZero(x, y);
    Xor(x, y)
  }

  /** Row i of [I ; C]. */
  ghost function GeneratorRow(k: nat, r: nat, i: nat): (row: Vector)
    requires k + r <= 255 && i < k + r
    ensures |row| == k
    ensures forall j :: 0 <= j < k ==> row[j] == if i < k then if j == i then 1 else 0 else Entry(i - k, j, r)
  {
    seq(k, j requires 0 <= j < k => if i < k then if j == i then 1 else 0 else Entry(i - k, j, r))
  }

  /** Parity row x applied to v. */
  ghost function RowSum(k: nat, r: nat, x: nat, v: Vector): byte
    requires k + r <= 255 && x < r && |v| == k
  {
    Dot(GeneratorRow(k, r, k + x), 0, v, k)
  }

  // ----- eliminating one row and one column of a Cauchy system

  /** What v becomes when row x and column y are eliminated; entry y becomes zero. */
  ghost function Eliminate(k: nat, r: nat, x: nat, y: nat, v: Vector): (w: Vector)
    requires k + r <= 255 && x < r && y < k && |v| == k
    ensures |w| == k
    ensures forall j :: 0 <= j < k ==> w[j] == Mul(v[j], Mul(Xor(r + y, r + j), Entry(x, j, r)))
  {
    seq(k, j requires 0 <= j < k => Mul(v[j], Mul(Xor(r + y, r + j), Entry(x, j, r))))
  }

  /** (a + b)(c + d) = (a + d)(b + c) + (b + d)(a + c), with + for exclusive or. */
  lemma CrossProduct(a: byte, b: byte, c: byte, d: byte)
    ensures Mul(Xor(a, b), Xor(c, d)) == Xor(Mul(Xor(a, d), Xor(b, c)), Mul(Xor(b, d), Xor(a, c)))
  {
    hide *;
    var ac, ad, bc, bd := Mul(a, c), Mul(a, d), Mul(b, c), Mul(b, d);
    var ab, cd := Mul(a, b), Mul(c, d);
    MulDistributes(a, b, Xor(c, d));
    MulDistributes(c, d, a);
    MulDistributes(c, d, b);
    assert Mul(Xor(a, b), Xor(c, d)) == Xor(Xor(ac, ad), Xor(bc, bd));
    MulDistributes(a, d, Xor(b, c));
    MulDistributes(b, c, a);
    MulDistributes(b, c, d);
    MulCommutes(d, b);
    MulCommutes(d, c);
    assert Mul(Xor(a, d), Xor(b, c)) == Xor(Xor(ab, ac), Xor(bd, cd));
    MulDistributes(b, d, Xor(a, c));
    MulDistributes(a, c, b);
    MulDistributes(a, c, d);
    MulCommutes(b, a);
    MulCommutes(d, a);
    assert Mul(Xor(b, d), Xor(a, c)) == Xor(Xor(ab, bc), Xor(ad, cd));
    Rearrange(ab, ac, bd, cd, bc, ad);
  }

  lemma Rearrange(ab: byte, ac: byte, bd: byte, cd: byte, bc: byte, ad: byte)
    ensures Xor(Xor(Xor(ab, ac), Xor(bd, cd)), Xor(Xor(ab, bc), Xor(ad, cd))) == Xor(Xor(ac, ad), Xor(bc, bd))
  {
    hide *;
    XorSwap(Xor(ab, ac), Xor(bd, cd), Xor(ab, bc), Xor(ad, cd));
    XorSwap(ab, ac, ab, bc);
    XorSelf(ab);
    XorZero(Xor(ac, bc));
    XorSwap(bd, cd, ad, cd);
    XorSelf(cd);
    XorZero(Xor(bd, ad));
    XorSwap(ac, bc, bd, ad);
    XorCommutes(bd, ad);
    XorSwap(ac, bc, ad, bd);
  }

  lemma MulLeftCommutes(a: byte, b: byte, c: byte)
    ensures Mul(a, Mul(b, c)) == Mul(b, Mul(a, c))
  {
    hide *;
    MulAssociates(a, b, c);
    MulAssociates(b, a, c);
    MulCommutes(a, b);
  }

  /** One column of the elimination: with p and q the denominators of two rows, s, t, a, b sums. */
  lemma EliminateTerm(s: byte, t: byte, a: byte, b: byte, p: byte, q: byte, v: byte)
    requires p != 0 && q != 0
    requires Mul(s, t) == Xor(Mul(a, q), Mul(b, p))
    ensures Mul(s, Mul(Mul(v, Mul(t, Inv(q))), Inv(p))) == Xor(Mul(a, Mul(v, Inv(p))), Mul(b, Mul(v, Inv(q))))
  {
    hide *;
    var ip, iq := Inv(p), Inv(q);
    var k := Mul(ip, Mul(v, iq));
    assert Mul(s, Mul(Mul(v, Mul(t, iq)), ip)) == Mul(Mul(s, t), k) by {
      MulLeftCommutes(v, t, iq);
      MulCommutes(Mul(t, Mul(v, iq)), ip);
      MulLeftCommutes(ip, t, Mul(v, iq));
      MulAssociates(s, t, k);
    }
    assert Mul(Mul(a, q), k) == Mul(a, Mul(v, ip)) by {
      MulAssociates(a, q, k);
      MulLeftCommutes(q, ip, Mul(v, iq));
      MulLeftCommutes(q, v, iq);
      MulInv(q);
      MulOne(v);
      MulCommutes(ip, v);
    }
    assert Mul(Mul(b, p), k) == Mul(b, Mul(v, iq)) by {
      MulAssociates(b, p, k);
      MulAssociates(p, ip, Mul(v, iq));
      MulInv(p);
      MulOne(Mul(v, iq));
    }
    MulDistributes(Mul(a, q), Mul(b, p), k);
  }

  /** The same, summed over the first n columns. */
  lemma {:induction false} EliminateSum(k: nat, r: nat, i: nat, x: nat, y: nat, v: Vector, n: nat)
    requires k + r <= 255 && i < r && x < r && y < k && |v| == k && n <= k
    ensures Mul(Xor(i, x), Dot(GeneratorRow(k, r, k + i), 0, Eliminate(k, r, x, y, v), n))
            == Xor(Mul(Xor(i, r + y), Dot(GeneratorRow(k, r, k + i), 0, v, n)),
                   Mul(Xor(x, r + y), Dot(GeneratorRow(k, r, k + x), 0, v, n)))
  {
    hide Xor, Mul, Inv, Exp, Shift, GeneratorRow, Eliminate, Difference;
    var s, a, b := Xor(i, x), Xor(i, r + y), Xor(x, r + y);
    var w := Eliminate(k, r, x, y, v);
    if n == 0 {
      MulZero(s);
      MulZero(a);
      MulZero(b);
      XorZero(0);
    } else {
      var j := n - 1;
      EliminateSum(k, r, i, x, y, v, j);
      var p, q, t := Difference(i, r + j), Difference(x, r + j), Xor(r + y, r + j);
      var gi, gx := Entry(i, j, r), Entry(x, j, r);
      CrossProduct(i, x, r + j, r + y);
      XorCommutes(r + j, r + y);
      EliminateTerm(s, t, a, b, p, q, v[j]);
      MulCommutes(gi, w[j]);
      MulCommutes(gi, v[j]);
      MulCommutes(gx, v[j]);
      var di, da, db := Dot(GeneratorRow(k, r, k + i), 0, w, j), Dot(GeneratorRow(k, r, k + i), 0, v, j),
                        Dot(GeneratorRow(k, r, k + x), 0, v, j);
      MulDistributes(di, Mul(gi, w[j]), s);
      MulDistributes(da, Mul(gi, v[j]), a);
      MulDistributes(db, Mul(gx, v[j]), b);
      XorSwap(Mul(a, da), Mul(b, db), Mul(a, Mul(gi, v[j])), Mul(b, Mul(gx, v[j])));
    }
  }

  /**
    A Cauchy system has no kernel: if v is supported on the columns in support, and as many
    distinct parity rows send it to zero, then v is zero.
  */
  lemma {:induction false} CauchyRegular(k: nat, r: nat, rows: seq<nat>, support: set<nat>, v: Vector)
    requires k + r <= 255 && |v| == k
    requires forall i :: 0 <= i < |rows| ==> rows[i] < r
    requires forall i, j :: 0 <= i < j < |rows| ==> rows[i] != rows[j]
    requires |support| == |rows|
    requires forall j :: 0 <= j < k && v[j] != 0 ==> j in support
    requires forall i :: 0 <= i < |rows| ==> RowSum(k, r, rows[i], v) == 0
    ensures IsZero(v)
    decreases |rows|
  {
    hide Xor, Mul, Dot, GeneratorRow, Eliminate;
    if |rows| > 0 {
      var y :| y in support;
      var rest := support - {y};
      assert |rest| == |rows| - 1;
      if y < k {
        var m := |rows| - 1;
        var x := rows[m];
        var w := Eliminate(k, r, x, y, v);
        EliminateSupport(k, r, x, y, v);
        forall i | 0 <= i < m ensures RowSum(k, r, rows[..m][i], w) == 0 {
          EliminateRow(k, r, rows[i], x, y, v);
        }
        CauchyRegular(k, r, rows[..m], rest, w);
        // So v is zero away from y, and row x forces the entry at y to zero as well.
        LastEntry(k, r, x, y, v);
      } else {
        CauchyRegular(k, r, rows[..|rows| - 1], rest, v);
      }
    }
  }

  lemma EliminateSupport(k: nat, r: nat, x: nat, y: nat, v: Vector)
    requires k + r <= 255 && x < r && y < k && |v| == k
    ensures var w := Eliminate(k, r, x, y, v);
            w[y] == 0 && forall j :: 0 <= j < k && j != y ==> (w[j] == 0 <==> v[j] == 0)
  {
    hide Xor, Mul, Inv, Eliminate;
    var w := Eliminate(k, r, x, y, v);
    XorSelf(r + y);
    MulZero(Entry(x, y, r));
    MulZero(v[y]);
    forall j | 0 <= j < k && j != y ensures w[j] == 0 <==> v[j] == 0 {
      XorIsZero(r + y, r + j);
      MulInv(Difference(x, r + j));
      MulNonZero(Xor(r + y, r + j), Entry(x, j, r));
      MulNonZero(v[j], Mul(Xor(r + y, r + j), Entry(x, j, r)));
    }
  }

  lemma EliminateRow(k: nat, r: nat, i: nat, x: nat, y: nat, v: Vector)
    requires k + r <= 255 && i < r && x < r && i != x && y < k && |v| == k
    requires RowSum(k, r, i, v) == 0 && RowSum(k, r, x, v) == 0
    ensures RowSum(k, r, i, Eliminate(k, r, x, y, v)) == 0
  {
    hide Xor, Mul, Dot, GeneratorRow, Eliminate;
    var s := Xor(i, x);
    EliminateSum(k, r, i, x, y, v, k);
    MulZero(Xor(i, r + y));
    MulZero(Xor(x, r + y));
    XorZero(0);
    XorIsZero(i, x);
    MulNonZero(s, RowSum(k, r, i, Eliminate(k, r, x, y, v)));
  }

  lemma LastEntry(k: nat, r: nat, x: nat, y: nat, v: Vector)
    requires k + r <= 255 && x < r && y < k && |v| == k
    requires RowSum(k, r, x, v) == 0
    requires IsZero(Eliminate(k, r, x, y, v))
    ensures IsZero(v)
  {
    hide Xor, Mul, Inv, Dot, GeneratorRow, Eliminate;
    var w := Eliminate(k, r, x, y, v);
    EliminateSupport(k, r, x, y, v);
    forall j | 0 <= j < k && j != y ensures v[j] == 0 {
      assert w[j] == 0;
    }
    DotSingle(GeneratorRow(k, r, k + x), 0, v, k, y);
    MulInv(Difference(x, r + y));
    MulNonZero(Entry(x, y, r), v[y]);
  }

  // ----- any k frames determine the block

  /** idx lists k frames of the k + r, in order. */
  ghost predicate Selection(k: nat, r: nat, idx: seq<nat>) {
    && |idx| == k
    && (forall i :: 0 <= i < k ==> idx[i] < k + r)
    && (forall i, j :: 0 <= i < j < k ==> idx[i] < idx[j])
  }

  /** The rows of [I ; C] that idx selects. */
  ghost function Selected(k: nat, r: nat, idx: seq<nat>): (m: Matrix)
    requires k + r <= 255 && Selection(k, r, idx)
    ensures Shape(m, k, k)
    ensures forall i :: 0 <= i < k ==> m[i] == GeneratorRow(k, r, idx[i])
  {
    seq(k, i requires 0 <= i < k => GeneratorRow(k, r, idx[i]))
  }

  /** The selected frames are source chunks up to here and parity chunks from here on. */
  ghost function FirstParity(k: nat, idx: seq<nat>, n: nat): (s: nat)
    requires n <= |idx|
    ensures s <= n
  {
    if n == 0 || idx[n - 1] < k then n else FirstParity(k, idx, n - 1)
  }

  lemma {:induction false} FirstParitySplits(k: nat, r: nat, idx: seq<nat>, n: nat)
    requires Selection(k, r, idx) && n <= k
    ensures forall i :: 0 <= i < n ==> (idx[i] < k <==> i < FirstParity(k, idx, n))
  {
    if n > 0 && idx[n - 1] >= k {
      FirstParitySplits(k, r, idx, n - 1);
    }
  }

  ghost function Columns(k: nat): set<nat> {
    if k == 0 then {} else Columns(k - 1) + {k - 1}
  }

  lemma {:induction false} ColumnsSize(k: nat)
    ensures |Columns(k)| == k
    ensures forall j: nat :: j in Columns(k) <==> j < k
  {
    if k > 0 {
      ColumnsSize(k - 1);
    }
  }

  /** The first n selected frames, as a set. */
  ghost function Prefix(idx: seq<nat>, n: nat): set<nat>
    requires n <= |idx|
  {
    if n == 0 then {} else Prefix(idx, n - 1) + {idx[n - 1]}
  }

  lemma {:induction false} PrefixIndex(idx: seq<nat>, n: nat, j: nat) returns (i: nat)
    requires n <= |idx| && j in Prefix(idx, n)
    ensures i < n && idx[i] == j
  {
    if idx[n - 1] == j {
      i := n - 1;
    } else {
      i := PrefixIndex(idx, n - 1, j);
    }
  }

  lemma {:induction false} PrefixSize(k: nat, r: nat, idx: seq<nat>, n: nat)
    requires Selection(k, r, idx) && n <= k
    ensures |Prefix(idx, n)| == n
  {
    if n > 0 {
      PrefixSize(k, r, idx, n - 1);
      if idx[n - 1] in Prefix(idx, n - 1) {
        var i := PrefixIndex(idx, n - 1, idx[n - 1]);
      }
    }
  }

  /** Every selection of k rows of [I ; C] is non-singular. */
  lemma AnySelectionRegular(k: nat, r: nat, idx: seq<nat>)
    requires k + r <= 255 && Selection(k, r, idx)
    ensures Regular(Selected(k, r, idx), k)
  {
    hide Xor, Mul, Dot, GeneratorRow, Prefix, FirstParity;
    var m := Selected(k, r, idx);
    forall v: Vector | |v| == k ensures InjectiveAt(m, k, 0, v) {
      if IsZero(Apply(m, k, 0, v)) {
        SelectionKernel(k, r, idx, v);
      }
    }
  }

  lemma SelectionKernel(k: nat, r: nat, idx: seq<nat>, v: Vector)
    requires k + r <= 255 && Selection(k, r, idx) && |v| == k
    requires IsZero(Apply(Selected(k, r, idx), k, 0, v))
    ensures IsZero(v)
  {
    hide Xor, Mul, Dot, GeneratorRow, Prefix, FirstParity;
    var s := FirstParity(k, idx, k);
    FirstParitySplits(k, r, idx, k);
    forall i | 0 <= i < k ensures Dot(GeneratorRow(k, r, idx[i]), 0, v, k) == 0 {
      assert Apply(Selected(k, r, idx), k, 0, v)[i] == 0;
    }
    var support := Missing(k, r, idx, s);
    forall j | 0 <= j < k && v[j] != 0 ensures j in support {
      if j in Prefix(idx, s) {
        var i := PrefixIndex(idx, s, j);
        SourceEntry(k, r, j, v);
      }
    }
    var rows := seq(k - s, i requires 0 <= i < k - s => (idx[s + i] - k) as nat);
    CauchyRegular(k, r, rows, support, v);
  }

  /** The columns whose source chunks are not selected: as many as there are parity rows. */
  lemma Missing(k: nat, r: nat, idx: seq<nat>, s: nat) returns (support: set<nat>)
    requires Selection(k, r, idx) && s <= k
    requires forall i :: 0 <= i < s ==> idx[i] < k
    ensures |support| == k - s
    ensures forall j: nat :: j in support <==> j < k && j !in Prefix(idx, s)
  {
    ColumnsSize(k);
    PrefixSize(k, r, idx, s);
    forall j | j in Prefix(idx, s) ensures j in Columns(k) {
      var i := PrefixIndex(idx, s, j);
    }
    support := Columns(k) - Prefix(idx, s);
    assert Columns(k) == support + Prefix(idx, s);
  }

  lemma SourceEntry(k: nat, r: nat, j: nat, v: Vector)
    requires k + r <= 255 && j < k && |v| == k
    ensures Dot(GeneratorRow(k, r, j), 0, v, k) == v[j]
  {
    hide Mul, Xor, GeneratorRow, Dot;
    DotSingle(GeneratorRow(k, r, j), 0, v, k, j);
    MulOne(v[j]);
  }
}
