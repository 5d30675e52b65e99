/**
  Vectors and matrices over GF(256), and what row operations keep.

  A matrix is a sequence of rows.  Gauss-Jordan works on augmented rows: columns 0..k-1 hold the
  matrix being reduced, columns k..2k-1 the inverse being built.  "off" selects a half.
*/
module Linear {
  import opened Bytes
  import opened Gf256

  type Vector = seq<byte>
  type Matrix = seq<seq<byte>>

  /** Sum over j < n of u[off + j] * v[j]. */
  ghost function Dot(u: Vector, off: nat, v: Vector, n: nat): byte
    requires off + n <= |u| && n <= |v|
  {
    if n == 0 then 0 else Xor(Dot(u, off, v, n - 1), Mul(u[off + n - 1], v[n - 1]))
  }

  /** Every row of m is w wide and there are n of them. */
  ghost predicate Shape(m: Matrix, n: nat, w: nat) {
    |m| == n && forall r :: 0 <= r < |m| ==> |m[r]| == w
  }

  /** The product of a half of m with a vector. */
  ghost function Apply(m: Matrix, w: nat, off: nat, v: Vector): (y: Vector)
    requires Shape(m, |m|, w) && off + |v| <= w
    ensures |y| == |m|
  {
    seq(|m|, r requires 0 <= r < |m| => Dot(m[r], off, v, |v|))
  }

  ghost predicate IsZero(v: Vector) {
    forall j :: 0 <= j < |v| ==> v[j] == 0
  }

  /** m does not send a non-zero vector to zero. */
  ghost predicate InjectiveAt(m: Matrix, w: nat, off: nat, v: Vector)
    requires Shape(m, |m|, w) && off + |v| <= w
  {
    IsZero(Apply(m, w, off, v)) ==> IsZero(v)
  }

  /** The square matrix m is non-singular. */
  ghost predicate Regular(m: Matrix, k: nat)
    requires Shape(m, k, k)
  {
    forall v: Vector {:trigger InjectiveAt(m, k, 0, v)} :: |v| == k ==> InjectiveAt(m, k, 0, v)
  }

  // ----- Dot is linear in both arguments

  ghost function Scale(u: Vector, p: byte): (s: Vector)
    ensures |s| == |u|
    ensures forall c :: 0 <= c < |u| ==> s[c] == Mul(u[c], p)
  {
    seq(|u|, c requires 0 <= c < |u| => Mul(u[c], p))
  }

  ghost function AddScaled(u: Vector, f: byte, x: Vector): (s: Vector)
    requires |u| == |x|
    ensures |s| == |u|
    ensures forall c :: 0 <= c < |u| ==> s[c] == Xor(u[c], Mul(f, x[c]))
  {
    seq(|u|, c requires 0 <= c < |u| => Xor(u[c], Mul(f, x[c])))
  }

  lemma {:induction false} DotScale(u: Vector, p: byte, off: nat, v: Vector, n: nat)
    requires off + n <= |u| && n <= |v|
    ensures Dot(Scale(u, p), off, v, n) == Mul(p, Dot(u, off, v, n))
  {
    hide Xor, Mul, Scale;
    if n == 0 {
      MulZero(p);
    } else {
      DotScale(u, p, off, v, n - 1);
      var a, b := u[off + n - 1], v[n - 1];
      MulCommutes(a, p);
      MulAssociates(p, a, b);
      MulDistributes(Dot(u, off, v, n - 1), Mul(a, b), p);
    }
  }

  lemma {:induction false} DotAddScaled(u: Vector, f: byte, x: Vector, off: nat, v: Vector, n: nat)
    requires |u| == |x| && off + n <= |u| && n <= |v|
    ensures Dot(AddScaled(u, f, x), off, v, n) == Xor(Dot(u, off, v, n), Mul(f, Dot(x, off, v, n)))
  {
    hide Xor, Mul, AddScaled;
    if n == 0 {
      MulZero(f);
      XorZero(0);
    } else {
      DotAddScaled(u, f, x, off, v, n - 1);
      var a, b, c := u[off + n - 1], x[off + n - 1], v[n - 1];
      MulDistributes(a, Mul(f, b), c);
      MulAssociates(f, b, c);
      MulDistributes(Dot(x, off, v, n - 1), Mul(b, c), f);
      XorSwap(Dot(u, off, v, n - 1), Mul(f, Dot(x, off, v, n - 1)), Mul(a, c), Mul(f, Mul(b, c)));
    }
  }

  ghost function Add(v: Vector, x: Vector): (s: Vector)
    requires |v| == |x|
    ensures |s| == |v|
    ensures forall c :: 0 <= c < |v| ==> s[c] == Xor(v[c], x[c])
  {
    seq(|v|, c requires 0 <= c < |v| => Xor(v[c], x[c]))
  }

  lemma {:induction false} DotAdd(u: Vector, off: nat, v: Vector, x: Vector, n: nat)
    requires |v| == |x| && off + n <= |u| && n <= |v|
    ensures Dot(u, off, Add(v, x), n) == Xor(Dot(u, off, v, n), Dot(u, off, x, n))
  {
    hide Xor, Mul, Add;
    if n == 0 {
      XorZero(0);
    } else {
      DotAdd(u, off, v, x, n - 1);
      var a := u[off + n - 1];
      MulDistributes(v[n - 1], x[n - 1], a);
      XorSwap(Dot(u, off, v, n - 1), Dot(u, off, x, n - 1), Mul(a, v[n - 1]), Mul(a, x[n - 1]));
    }
  }

  /** Dot sees only the entries it multiplies. */
  lemma {:induction false} DotSame(u: Vector, u': Vector, v: Vector, n: nat)
    requires n <= |u| && n <= |u'| && n <= |v|
    requires forall j :: 0 <= j < n ==> u[j] == u'[j]
    ensures Dot(u, 0, v, n) == Dot(u', 0, v, n)
  {
    hide Xor, Mul;
    if n > 0 {
      DotSame(u, u', v, n - 1);
    }
  }

  /** If every product but the one at i vanishes, the sum is that product. */
  lemma {:induction false} DotSingle(u: Vector, off: nat, v: Vector, n: nat, i: nat)
    requires off + n <= |u| && n <= |v|
    requires forall j :: 0 <= j < n && j != i ==> u[off + j] == 0 || v[j] == 0
    ensures Dot(u, off, v, n) == if i < n then Mul(u[off + i], v[i]) else 0
  {
    hide Xor, Mul;
    if n > 0 {
      DotSingle(u, off, v, n - 1, i);
      var a, b := u[off + (n - 1)], v[n - 1];
      if i != n - 1 {
        assert a == 0 || b == 0;
        MulZero(a);
        MulZero(b);
        XorZero(if i < n - 1 then Mul(u[off + i], v[i]) else 0);
      } else {
        XorZero(Mul(a, b));
      }
    }
  }

  // ----- row operations

  ghost function SwapRows(m: Matrix, p: nat, q: nat): Matrix
    requires p < |m| && q < |m|
  {
    m[p := m[q]][q := m[p]]
  }

  ghost function ScaleRow(m: Matrix, c: nat, p: byte): Matrix
    requires c < |m|
  {
    m[c := Scale(m[c], p)]
  }

  ghost function AddRow(m: Matrix, r: nat, f: byte, c: nat): Matrix
    requires r < |m| && c < |m| && |m[r]| == |m[c]|
  {
    m[r := AddScaled(m[r], f, m[c])]
  }

  /**
    A step of Gauss-Jordan: two rows swapped, one multiplied by a non-zero byte, or a multiple of
    one added to another.
  */
  datatype RowOp =
    | Swap(p: nat, q: nat)
    | Multiply(c: nat, f: byte)
    | AddMultiple(r: nat, f: byte, c: nat)

  ghost predicate OpFits(op: RowOp, n: nat) {
    match op
    case Swap(p, q) => p < n && q < n
    case Multiply(c, f) => c < n && f != 0
    case AddMultiple(r, f, c) => r < n && c < n && r != c
  }

  ghost function Perform(op: RowOp, m: Matrix, w: nat): (m': Matrix)
    requires Shape(m, |m|, w) && OpFits(op, |m|)
    ensures Shape(m', |m|, w)
  {
    match op
    case Swap(p, q) => SwapRows(m, p, q)
    case Multiply(c, f) => ScaleRow(m, c, f)
    case AddMultiple(r, f, c) => AddRow(m, r, f, c)
  }

  /** The same operation on a column of values, one per row. */
  ghost function PerformOn(op: RowOp, y: Vector): (y': Vector)
    requires OpFits(op, |y|)
    ensures |y'| == |y|
  {
    match op
    case Swap(p, q) => y[p := y[q]][q := y[p]]
    case Multiply(c, f) => y[c := Mul(f, y[c])]
    case AddMultiple(r, f, c) => y[r := Xor(y[r], Mul(f, y[c]))]
  }

  /** Row operations commute with multiplying by a vector, on either half. */
  lemma PerformApply(op: RowOp, m: Matrix, w: nat, off: nat, v: Vector)
    requires Shape(m, |m|, w) && OpFits(op, |m|) && off + |v| <= w
    ensures Apply(Perform(op, m, w), w, off, v) == PerformOn(op, Apply(m, w, off, v))
  {
    hide Xor, Mul, Scale, AddScaled, Dot;
    match op
    case Swap(p, q) =>
    case Multiply(c, f) =>
      DotScale(m[c], f, off, v, |v|);
    case AddMultiple(r, f, c) =>
      DotAddScaled(m[r], f, m[c], off, v, |v|);
  }

  /** Row operations map the zero column to itself and nothing else to it. */
  lemma PerformOnZero(op: RowOp, y: Vector)
    requires OpFits(op, |y|)
    ensures IsZero(PerformOn(op, y)) <==> IsZero(y)
  {
    hide Xor, Mul;
    match op
    case Swap(p, q) =>
      var y' := PerformOn(op, y);
      assert y'[p] == y[q] && y'[q] == y[p];
      if IsZero(y') {
        forall j | 0 <= j < |y| ensures y[j] == 0 {
          assert y'[if j == p then q else if j == q then p else j] == 0;
        }
      }
    case Multiply(c, f) =>
      MulNonZero(f, y[c]);
      var y' := PerformOn(op, y);
      if IsZero(y') {
        forall j | 0 <= j < |y| ensures y[j] == 0 {
          assert y'[j] == 0;
        }
      }
    case AddMultiple(r, f, c) =>
      MulZero(f);
      XorZero(y[r]);
      var y' := PerformOn(op, y);
      if IsZero(y') {
        assert y'[c] == 0 && y'[r] == 0;
        forall j | 0 <= j < |y| ensures y[j] == 0 {
          assert y'[j] == 0;
        }
      }
  }

  /**
    What Gauss-Jordan keeps, at one vector: the left half on d is the right half on m d, and the
    right half is injective.
  */
  ghost predicate SoundAt(a: Matrix, m: Matrix, k: nat, d: Vector)
    requires Shape(a, k, 2 * k) && Shape(m, k, k) && |d| == k
  {
    && Apply(a, 2 * k, 0, d) == Apply(a, 2 * k, k, Apply(m, k, 0, d))
    && InjectiveAt(a, 2 * k, k, d)
  }

  ghost predicate Sound(a: Matrix, m: Matrix, k: nat)
    requires Shape(a, k, 2 * k) && Shape(m, k, k)
  {
    forall d: Vector {:trigger SoundAt(a, m, k, d)} :: |d| == k ==> SoundAt(a, m, k, d)
  }

  lemma PerformSound(op: RowOp, a: Matrix, m: Matrix, k: nat)
    requires Shape(a, k, 2 * k) && Shape(m, k, k) && OpFits(op, k)
    requires Sound(a, m, k)
    ensures Sound(Perform(op, a, 2 * k), m, k)
  {
    hide Apply, Perform, PerformOn, IsZero;
    var a' := Perform(op, a, 2 * k);
    forall d: Vector | |d| == k ensures SoundAt(a', m, k, d) {
      assert SoundAt(a, m, k, d);
      PerformApply(op, a, 2 * k, 0, d);
      PerformApply(op, a, 2 * k, k, d);
      PerformApply(op, a, 2 * k, k, Apply(m, k, 0, d));
      PerformOnZero(op, Apply(a, 2 * k, k, d));
    }
  }

  /** Row r of the identity, from column off on. */
  ghost predicate UnitRow(u: Vector, off: nat, k: nat, r: nat)
    requires off + k <= |u|
  {
    forall c :: off <= c < off + k ==> u[c] == if c == off + r then 1 else 0
  }

  lemma IdentityApply(a: Matrix, w: nat, off: nat, k: nat, v: Vector)
    requires Shape(a, k, w) && off + k <= w && |v| == k
    requires forall r :: 0 <= r < k ==> UnitRow(a[r], off, k, r)
    ensures Apply(a, w, off, v) == v
  {
    hide Dot, Mul;
    forall r | 0 <= r < k ensures Dot(a[r], off, v, k) == v[r] {
      assert UnitRow(a[r], off, k, r);
      DotSingle(a[r], off, v, k, r);
      MulOne(v[r]);
    }
  }

  /** m beside the identity: where Gauss-Jordan starts. */
  ghost predicate Augmented(a: Matrix, m: Matrix, k: nat)
    requires Shape(a, k, 2 * k) && Shape(m, k, k)
  {
    && (forall r, c :: 0 <= r < k && 0 <= c < k ==> a[r][c] == m[r][c])
    && (forall r :: 0 <= r < k ==> UnitRow(a[r], k, k, r))
  }

  lemma AugmentedSound(a: Matrix, m: Matrix, k: nat)
    requires Shape(a, k, 2 * k) && Shape(m, k, k)
    requires Augmented(a, m, k)
    ensures Sound(a, m, k)
  {
    hide Dot;
    forall d: Vector | |d| == k ensures SoundAt(a, m, k, d) {
      forall r | 0 <= r < k ensures Dot(a[r], 0, d, k) == Dot(m[r], 0, d, k) {
        DotSame(a[r], m[r], d, k);
      }
      assert Apply(a, 2 * k, 0, d) == Apply(m, k, 0, d);
      IdentityApply(a, 2 * k, k, k, Apply(m, k, 0, d));
      IdentityApply(a, 2 * k, k, k, d);
    }
  }

  /** Columns before col have been turned into those of the identity. */
  ghost predicate Reduced(a: Matrix, k: nat, col: nat)
    requires Shape(a, k, 2 * k) && col <= k
  {
    forall r :: 0 <= r < k ==> ReducedRow(a[r], col, r)
  }

  ghost predicate ReducedRow(u: Vector, col: nat, r: nat)
    requires col <= |u|
  {
    forall c :: 0 <= c < col ==> u[c] == if c == r then 1 else 0
  }

  /** The kernel vector that a column without a pivot gives. */
  ghost function Witness(a: Matrix, k: nat, col: nat): (v: Vector)
    requires Shape(a, k, 2 * k) && col < k
    ensures |v| == k
    ensures forall j :: 0 <= j < k ==> v[j] == if j < col then a[j][col] else if j == col then 1 else 0
  {
    seq(k, j requires 0 <= j < k => if j < col then a[j][col] else if j == col then 1 else 0)
  }

  lemma WitnessRow(a: Matrix, k: nat, col: nat, r: nat)
    requires Shape(a, k, 2 * k) && r < k && col < k && ReducedRow(a[r], col, r)
    requires r >= col ==> a[r][col] == 0
    ensures Dot(a[r], 0, Witness(a, k, col), k) == 0
  {
    hide Dot, Mul, Xor, Witness;
    var v := Witness(a, k, col);
    DotTail(a[r], v, col + 1, k);
    DotLast(a[r], v, col);
    DotSingle(a[r], 0, v, col, r);
    MulOne(a[r][col]);
    XorSelf(a[r][col]);
  }

  /** Without a pivot the matrix is singular. */
  lemma NoPivotSingular(a: Matrix, m: Matrix, k: nat, col: nat)
    requires Shape(a, k, 2 * k) && Shape(m, k, k) && col < k
    requires Sound(a, m, k) && Reduced(a, k, col)
    requires forall r :: col <= r < k ==> a[r][col] == 0
    ensures !Regular(m, k)
  {
    hide Dot, Witness;
    var v := Witness(a, k, col);
    forall r | 0 <= r < k ensures Dot(a[r], 0, v, k) == 0 {
      assert ReducedRow(a[r], col, r);
      WitnessRow(a, k, col, r);
    }
    assert SoundAt(a, m, k, v);
    assert SoundAt(a, m, k, Apply(m, k, 0, v));
    assert v[col] == 1;
    assert !InjectiveAt(m, k, 0, v);
  }

  lemma DotLast(u: Vector, v: Vector, n: nat)
    requires n < |u| && n < |v|
    ensures Dot(u, 0, v, n + 1) == Xor(Dot(u, 0, v, n), Mul(u[n], v[n]))
  {
    hide Xor, Mul;
  }

  lemma {:induction false} DotTail(u: Vector, v: Vector, i: nat, n: nat)
    requires i <= n <= |u| && n <= |v|
    requires forall j :: i <= j < n ==> v[j] == 0
    ensures Dot(u, 0, v, n) == Dot(u, 0, v, i)
  {
    hide Xor, Mul;
    if i < n {
      DotTail(u, v, i, n - 1);
      MulZero(u[n - 1]);
      XorZero(Dot(u, 0, v, n - 1));
    }
  }

  /** The right half of a finished tableau inverts m, on d and on either side. */
  ghost predicate InverseAt(a: Matrix, m: Matrix, k: nat, d: Vector)
    requires Shape(a, k, 2 * k) && Shape(m, k, k) && |d| == k
  {
    && Apply(a, 2 * k, k, Apply(m, k, 0, d)) == d
    && Apply(m, k, 0, Apply(a, 2 * k, k, d)) == d
  }

  ghost predicate Inverse(a: Matrix, m: Matrix, k: nat)
    requires Shape(a, k, 2 * k) && Shape(m, k, k)
  {
    forall d: Vector {:trigger InverseAt(a, m, k, d)} :: |d| == k ==> InverseAt(a, m, k, d)
  }

  lemma ReducedIsInverse(a: Matrix, m: Matrix, k: nat)
    requires Shape(a, k, 2 * k) && Shape(m, k, k)
    requires Sound(a, m, k) && Reduced(a, k, k)
    ensures Inverse(a, m, k)
  {
    hide Apply, Dot;
    forall r | 0 <= r < k ensures UnitRow(a[r], 0, k, r) {
      assert ReducedRow(a[r], k, r);
    }
    forall d: Vector | |d| == k ensures InverseAt(a, m, k, d) {
      assert SoundAt(a, m, k, d);
      IdentityApply(a, 2 * k, 0, k, d);
      // With e = R d: R d = e = R (m e), and R is injective, so d = m e.
      var e := Apply(a, 2 * k, k, d);
      assert SoundAt(a, m, k, e);
      IdentityApply(a, 2 * k, 0, k, e);
      ApplyInjective(a, m, k, d, Apply(m, k, 0, e));
    }
  }

  lemma ApplyInjective(a: Matrix, m: Matrix, k: nat, x: Vector, y: Vector)
    requires Shape(a, k, 2 * k) && Shape(m, k, k) && |x| == k && |y| == k
    requires Sound(a, m, k)
    requires Apply(a, 2 * k, k, x) == Apply(a, 2 * k, k, y)
    ensures x == y
  {
    hide Dot, Xor, Add;
    var s := Add(x, y);
    forall r | 0 <= r < k ensures Dot(a[r], k, s, k) == 0 {
      DotAdd(a[r], k, x, y, k);
      assert Apply(a, 2 * k, k, x)[r] == Apply(a, 2 * k, k, y)[r];
      XorSelf(Dot(a[r], k, x, k));
    }
    assert SoundAt(a, m, k, s);
    forall j | 0 <= j < k ensures x[j] == y[j] {
      assert s[j] == 0;
      XorIsZero(x[j], y[j]);
    }
  }

  lemma InverseRegular(a: Matrix, m: Matrix, k: nat)
    requires Shape(a, k, 2 * k) && Shape(m, k, k)
    requires Inverse(a, m, k)
    ensures Regular(m, k)
  {
    hide Dot;
    forall v: Vector | |v| == k ensures InjectiveAt(m, k, 0, v) {
      if IsZero(Apply(m, k, 0, v)) {
        assert InverseAt(a, m, k, v);
        forall r | 0 <= r < k ensures v[r] == 0 {
          DotZero(a[r], k, Apply(m, k, 0, v), k);
        }
      }
    }
  }

  lemma DotZero(u: Vector, off: nat, v: Vector, n: nat)
    requires off + n <= |u| && n <= |v| && IsZero(v)
    ensures Dot(u, off, v, n) == 0
  {
    DotSingle(u, off, v, n, n);
  }
}
