/** Signed coefficients as a size and that many extra bits (ITU-T T.81 sections F.1.2.1 and F.2.2.1). */
module Magnitude {
  import opened BitStrings

  function Abs(v: int): nat {
    if v < 0 then -v else v
  }

  /** Binary digits of a. */
  function Digits(a: nat): nat {
    if a == 0 then 0 else 1 + Digits(a / 2)
  }

  /** The category of a coefficient. */
  function Size(v: int): nat {
    Digits(Abs(v))
  }

  /** The extra bits, as a number; negative values in one's-complement form. */
  function Extra(v: int): int {
    if v < 0 then v + (Pow2(Size(v)) - 1) else v
  }

  /** EXTEND */
  function Extend(extra: nat, size: nat): int {
    if size > 0 && extra < Pow2(size - 1) then extra - Pow2(size) + 1 else extra
  }

  /** magnitude */
  method CountMagnitude(v: int) returns (n: nat, bits: nat)
    ensures n == Size(v) && bits == Extra(v)
  {
    var a := Abs(v);
    n := 0;
    while a > 0
      invariant n + Digits(a) == Size(v)
      decreases a
    {
      a := a / 2;
      n := n + 1;
    }
    DigitsTight(Abs(v));
    bits := if v < 0 then v + (Pow2(n) - 1) else v;
  }

  lemma {:induction false} DigitsTight(a: nat)
    ensures a < Pow2(Digits(a))
    ensures a > 0 ==> Digits(a) > 0 && Pow2(Digits(a) - 1) <= a
  {
    if a > 1 {
      DigitsTight(a / 2);
      PowNext(Digits(a / 2) - 1);
    }
  }

  /** The extra bits fit the size, and size and extra bits give the coefficient back. */
  lemma ExtendInverts(v: int)
    ensures 0 <= Extra(v) < Pow2(Size(v)) && Extend(Extra(v), Size(v)) == v
  {
    hide Pow2;
    DigitsTight(Abs(v));
    if v != 0 {
      PowNext(Size(v) - 1);
    }
  }

  /** Values of at most "size" digits. */
  lemma {:induction false} DigitsAtMost(a: nat, size: nat)
    requires a < Pow2(size)
    ensures Digits(a) <= size
  {
    if a > 0 {
      DigitsAtMost(a / 2, size - 1);
    }
  }
}
