/** The log/antilog tables, built once, and the table arithmetic that reads them. */
module Tables {
  import opened Bytes
  import F = Gf256
  import G = Generator
  import C = Cauchy

  /** One step of the table-building loop, on the sixteen-bit variable it uses. */
  function NextPower(x: bv16): bv16 {
    var y := x << 1;
    if y & 0x100 != 0 then y ^ 0x11D else y
  }

  lemma NextPowerDoubles(x: bv16)
    requires x < 0x100
    ensures NextPower(x) < 0x100
    ensures NextPower(x) as bv8 == G.Double(x as bv8)
  {
  }

  class GfTables {
    const exp: array<byte>
    const log: array<byte>
    var ready: bool

    ghost predicate Valid()
      reads this, exp, log
    {
      && exp.Length == 512 && log.Length == 256 && exp != log
      && (ready ==> Built())
    }

    ghost predicate Built()
      requires exp.Length == 512 && log.Length == 256
      reads exp, log
    {
      && (forall i :: 0 <= i < 512 ==> exp[i] == F.Exp(i))
      && (forall a: byte :: a != 0 ==> log[a] == F.Log(a))
    }

    constructor ()
      ensures Valid() && !ready && fresh(exp) && fresh(log)
    {
      exp := new byte[512](_ => 0);
      log := new byte[256](_ => 0);
      ready := false;
    }

    method Init()
      requires Valid()
      modifies this, exp, log
      ensures Valid() && ready
    {
      hide F.Exp, F.Shift, F.Log, G.Double, G.Shift, G.Exp, NextPower;
      if ready {
        return;
      }
      var x: bv16 := 1;
      FirstPower();
      for i := 0 to 255
        invariant x < 0x100 && x as bv8 == G.Exp(i)
        invariant forall j :: 0 <= j < i ==> exp[j] == F.Exp(j)
        invariant forall j :: 0 <= j < i ==> log[F.Exp(j)] == j
      {
        F.ExpOfBits(i);
        exp[i] := (x as bv8) as int;
        forall j | 0 <= j < i ensures F.Exp(j) != F.Exp(i) {
          if F.Exp(j) == F.Exp(i) {
            F.ExpInjective(j, i);
          }
        }
        log[(x as bv8) as int] := i;
        NextPowerDoubles(x);
        PowerStep(i);
        x := NextPower(x);
      }
      for i := 255 to 512
        invariant forall j :: 0 <= j < i ==> exp[j] == F.Exp(j)
        invariant forall j :: 0 <= j < 255 ==> log[F.Exp(j)] == j
      {
        exp[i] := exp[i - 255];
        F.ExpPeriod(i - 255);
      }
      forall a: byte | a != 0 ensures log[a] == F.Log(a) {
        assert F.Exp(F.Log(a)) == a;
      }
      ready := true;
    }

    /** gf_mul */
    function Mul(a: byte, b: byte): (c: byte)
      requires Valid() && ready
      reads this, exp, log
      ensures c == F.Mul(a, b)
    {
      if a == 0 || b == 0 then 0 else exp[(log[a] as int) + (log[b] as int)]
    }

    /** gf_inv */
    function Inv(a: byte): (c: byte)
      requires Valid() && ready
      requires a != 0
      reads this, exp, log
      ensures c == F.Inv(a)
    {
      exp[255 - log[a]]
    }

    /** cauchy: the entry of parity row i and column j. */
    function Cauchy(i: nat, j: nat, rows: nat): (c: byte)
      requires Valid() && ready
      requires i < rows && rows + j < 256
      reads this, exp, log
      ensures c == C.Entry(i, j, rows)
    {
      XorIsZero(i, rows + j);
      Inv(Xor(i, rows + j))
    }
  }

  lemma FirstPower()
    ensures (1 as bv16) as bv8 == G.Exp(0)
  {
  }

  lemma PowerStep(i: nat)
    ensures G.Double(G.Exp(i)) == G.Exp(i + 1)
  {
    hide G.Double;
  }
}
