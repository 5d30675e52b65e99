/** Products, quotients and remainders of natural numbers, stated so that proofs need not unfold them. */
module Arithmetic {

  /** Unsigned division and remainder, under names that proofs can hide. */
  function Quot(a: nat, w: nat): nat
    requires w > 0
  {
    a / w
  }

  function Rem(a: nat, w: nat): (s: nat)
    requires w > 0
    ensures s < w
  {
    a % w
  }

  lemma TimesAtLeast(x: int, w: nat)
    ensures x >= 1 ==> x * w >= w
    ensures x <= -1 ==> x * w <= -1 * w
  {
    if x >= 1 {
      assert x * w == w + (x - 1) * w;
    } else if x <= -1 {
      assert x * w == -1 * w + (x + 1) * w;
    }
  }

  lemma TimesZero(x: int, w: int)
    ensures x == 0 ==> x * w == 0
  {
  }

  lemma TimesMonotone(x: nat, y: nat, w: nat)
    requires x <= y
    ensures x * w <= y * w
    ensures x < y ==> x * w + w <= y * w
  {
    assert y * w == x * w + (y - x) * w;
    TimesAtLeast(y - x, w);
  }

  lemma Split(a: nat, w: nat)
    requires w > 0
    ensures a == Quot(a, w) * w + Rem(a, w)
  {
  }

  /** Quotient and remainder are the only such pair. */
  lemma SplitUnique(a: nat, w: nat, q: nat, s: nat)
    requires s < w && a == q * w + s
    ensures Quot(a, w) == q && Rem(a, w) == s
  {
    hide Quot, Rem;
    Split(a, w);
    var d := Quot(a, w) - q;
    assert d * w == Quot(a, w) * w - q * w;
    TimesAtLeast(d, w);
  }

  lemma QuotBelow(a: nat, w: nat, q: nat)
    requires w > 0 && a < q * w
    ensures Quot(a, w) < q
  {
    hide Quot, Rem;
    Split(a, w);
    if q <= Quot(a, w) {
      TimesMonotone(q, Quot(a, w), w);
    }
  }

  /** Rounding up: the number of pieces of size w covering n, and where the last one starts. */
  lemma CeilDiv(n: nat, w: nat)
    requires 0 < n && 0 < w
    ensures var q := Quot(n + w - 1, w); 0 < q <= n && (q - 1) * w < n <= q * w
  {
    hide Quot, Rem;
    var q := Quot(n + w - 1, w);
    Split(n + w - 1, w);
    assert (q - 1) * w == q * w - w;
    TimesZero(q, w);
    TimesAtLeast(w, q - 1);
    assert (q - 1) * w == w * (q - 1);
  }
}
