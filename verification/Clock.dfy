/** Thirty-two-bit counters: a millisecond clock that wraps at 2^32, and differences across the wrap. */
module Clock {

  const MODULUS: int := 0x1_0000_0000
  const HALF: int := 0x8000_0000

  type u32 = x: int | 0 <= x < 0x1_0000_0000

  function Wrap(x: int): u32 {
    x % MODULUS
  }

  /** The signed difference of two clock readings. */
  function Delta(a: u32, b: u32): (d: int)
    ensures -HALF <= d < HALF
  {
    var d := Wrap(a - b);
    if d >= HALF then d - MODULUS else d
  }

  lemma WrapSmall(x: int)
    requires 0 <= x < MODULUS
    ensures Wrap(x) == x
  {
  }

  lemma WrapShift(x: int, n: int)
    ensures Wrap(x + n * MODULUS) == Wrap(x)
  {
  }

  lemma WrapWrap(x: int, y: int)
    ensures Wrap(Wrap(x) + y) == Wrap(x + y)
    ensures Wrap(x + Wrap(y)) == Wrap(x + y)
    ensures Wrap(x - Wrap(y)) == Wrap(x - y)
  {
    WrapShift(Wrap(x) + y, x / MODULUS);
    WrapShift(x + Wrap(y), y / MODULUS);
    WrapShift(x - Wrap(y), -(y / MODULUS));
  }

  /** Readings of the wrapping clock give true differences while these stay within half its range. */
  lemma DeltaIsReal(a: int, b: int)
    requires -HALF <= a - b < HALF
    ensures Delta(Wrap(a), Wrap(b)) == a - b
  {
    hide Wrap;
    var wb: int := Wrap(b);
    WrapWrap(a, -wb);
    WrapWrap(a, b);
    if a - b >= 0 {
      WrapSmall(a - b);
    } else {
      WrapShift(a - b, 1);
      WrapSmall(a - b + MODULUS);
    }
  }
}
