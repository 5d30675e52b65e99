/** Bit strings, the numbers they spell, and bytes cut from them. */
module BitStrings {
  import opened Arithmetic

  function Pow2(n: nat): (p: nat)
    ensures p >= 1
  {
    if n == 0 then 1 else 2 * Pow2(n - 1)
  }

  lemma {:induction false} Pow2Add(a: nat, b: nat)
    ensures Pow2(a + b) == Pow2(a) * Pow2(b)
  {
    if b > 0 {
      Pow2Add(a, b - 1);
      assert Pow2(a + b) == 2 * Pow2(a + (b - 1));
    }
  }

  /** The last n binary digits of c, highest first. */
  function Word(c: nat, n: nat): (s: seq<bool>)
    ensures |s| == n
  {
    if n == 0 then [] else Word(c / 2, n - 1) + [c % 2 == 1]
  }

  /** The number a bit string spells. */
  function Value(s: seq<bool>): nat {
    if |s| == 0 then 0 else 2 * Value(s[..|s| - 1]) + if s[|s| - 1] then 1 else 0
  }

  lemma {:induction false} ValueBelow(s: seq<bool>)
    ensures Value(s) < Pow2(|s|)
  {
    if |s| > 0 {
      ValueBelow(s[..|s| - 1]);
    }
  }

  lemma {:induction false} ValueOfWord(c: nat, n: nat)
    ensures c < Pow2(n) ==> Value(Word(c, n)) == c
  {
    if n > 0 {
      ValueOfWord(c / 2, n - 1);
      assert Word(c, n)[..n - 1] == Word(c / 2, n - 1);
    }
  }

  lemma {:induction false} WordOfValue(s: seq<bool>)
    ensures Word(Value(s), |s|) == s
  {
    if |s| > 0 {
      WordOfValue(s[..|s| - 1]);
      assert s == s[..|s| - 1] + [s[|s| - 1]];
    }
  }

  lemma {:induction false} ValueConcat(a: seq<bool>, b: seq<bool>)
    ensures Value(a + b) == Value(a) * Pow2(|b|) + Value(b)
  {
    hide Pow2;
    if |b| == 0 {
      assert a + b == a;
      PowZero();
    } else {
      ValueConcat(a, b[..|b| - 1]);
      assert (a + b)[..|a + b| - 1] == a + b[..|b| - 1];
      PowNext(|b| - 1);
      TwiceSum(Value(a), Pow2(|b| - 1));
    }
  }

  lemma PowZero()
    ensures Pow2(0) == 1
  {
  }

  lemma PowNext(n: nat)
    ensures Pow2(n + 1) == 2 * Pow2(n)
  {
  }

  lemma TwiceSum(v: nat, p: nat)
    ensures 2 * (v * p) == v * (2 * p)
  {
  }

  /** Adding one bit at the end. */
  lemma ValueSnoc(s: seq<bool>, j: nat)
    requires j < |s|
    ensures Value(s[..j + 1]) == 2 * Value(s[..j]) + if s[j] then 1 else 0
  {
    assert s[..j + 1][..j] == s[..j];
  }

  /** A front part, against a bound on the whole. */
  lemma FrontAtLeast(s: seq<bool>, j: nat, a: nat)
    requires j <= |s| && a * Pow2(|s| - j) <= Value(s)
    ensures a <= Value(s[..j])
  {
    hide Pow2, Value;
    var x, p := Value(s[..j]), Pow2(|s| - j);
    assert s == s[..j] + s[j..];
    ValueConcat(s[..j], s[j..]);
    ValueBelow(s[j..]);
    assert (x + 1) * p == x * p + p;
    if a > x {
      TimesMonotone(x + 1, a, p);
    }
  }
}
