/** LoRa time on air in integer arithmetic, against the exact formula (SX1261/2 datasheet section 6.1.4). */
module Airtime {
  import opened Arithmetic

  /** Chips in a symbol. */
  function Chips(sf: nat): (c: nat)
    ensures c >= 64
  {
    match sf
    case 7 => 128 case 8 => 256 case 9 => 512 case 10 => 1024 case 11 => 2048 case 12 => 4096
    case _ => 64
  }

  const GIGA: nat := 1_000_000_000

  /** Symbol time in whole nanoseconds. */
  function SymbolNs(sf: nat, bw: nat): nat
    requires bw > 0
  {
    Quot(Chips(sf) * GIGA, bw)
  }

  /** Low data rate optimisation, by the integer test. */
  predicate Ldro(sf: nat, bw: nat)
    requires bw > 0
  {
    SymbolNs(sf, bw) > 16_380_000
  }

  function TwoTo(n: nat): nat {
    if n == 0 then 1 else 2 * TwoTo(n - 1)
  }

  /** ... and by the formula: a symbol of 2^sf chips longer than 16.38 ms. */
  predicate ExactLdro(sf: nat, bw: nat)
    requires bw > 0
  {
    TwoTo(sf) * 1_000_000_000 > 16_380_000 * bw
  }

  lemma ChipsAre(sf: nat)
    requires 7 <= sf <= 12
    ensures Chips(sf) == TwoTo(sf)
  {
    assert TwoTo(6) == 64 && TwoTo(10) == 1024;
    assert TwoTo(12) == 4 * TwoTo(10);
  }

  function Den(sf: nat, de: bool): (d: nat)
    requires sf >= 6
    ensures d >= 16
  {
    4 * (sf - 2 * if de then 1 else 0)
  }

  function Num(pl: nat, sf: nat): int {
    8 * pl - 4 * sf + 28 + 16
  }

  /** A C division, rounding toward zero. */
  function CDiv(a: int, b: nat): int
    requires b > 0
  {
    var q: int := Quot(if a >= 0 then a else -a, b);
    if a >= 0 then q else -q
  }

  /** Payload symbols as the integer code counts them. */
  function PayloadSymbols(pl: nat, sf: nat, cr: nat, de: bool): nat
    requires sf >= 6
  {
    var blocks := CDiv(Num(pl, sf) + Den(sf, de) - 1, Den(sf, de));
    8 + (if blocks < 0 then 0 else blocks) * (cr + 4)
  }

  const WORD32: nat := 0x1_0000_0000

  /** Nanoseconds of a frame with these symbols. */
  function TotalNs(t: nat, preamble: nat, n: nat): nat {
    Quot(t * (4 * preamble + 17), 4) + t * n
  }

  /** loraitp_time_on_air_us */
  function TimeOnAir(pl: nat, sf: nat, bw: nat, cr: nat, preamble: nat): nat {
    if sf < 6 || sf > 12 || bw == 0 || cr < 1 || cr > 4 then 0
    else Rem(Micros(pl, sf, bw, cr, preamble), WORD32)
  }

  /** Before the cast to 32 bits. */
  function Micros(pl: nat, sf: nat, bw: nat, cr: nat, preamble: nat): nat
    requires sf >= 6 && bw > 0
  {
    Quot(TotalNs(SymbolNs(sf, bw), preamble, PayloadSymbols(pl, sf, cr, Ldro(sf, bw))), 1000)
  }

  // ----- the exact formula

  /** The smallest integer not below num / den. */
  ghost predicate IsCeiling(c: int, num: int, den: nat) {
    (c - 1) * den < num <= c * den
  }

  /** The formula's ceil((8 pl - 4 sf + 28 + 16) / (4 (sf - 2 de))), with the CRC on and an explicit header. */
  ghost predicate IsBlocks(c: int, pl: nat, sf: nat, de: bool)
    requires sf >= 6
  {
    IsCeiling(c, 8 * pl - 4 * sf + 44, if de then 4 * (sf - 2) else 4 * sf)
  }

  /** n is the formula's number of payload symbols: 8 + max(c (cr + 4), 0). */
  ghost predicate ExactSymbols(n: nat, pl: nat, sf: nat, cr: nat, de: bool)
    requires sf >= 6
  {
    exists c: int :: IsBlocks(c, pl, sf, de) && n == 8 + if c > 0 then c * (cr + 4) else 0
  }

  /** Microseconds times 4 * bw: a preamble of preamble + 4.25 symbols and n payload symbols. */
  function ExactScaled(sf: nat, preamble: nat, n: nat): nat {
    TwoTo(sf) * 1_000_000 * (4 * n + 4 * preamble + 17)
  }

  // ----- agreement

  lemma QuotAbove(x: nat, w: nat, n: nat)
    requires w > 0
    ensures Quot(x, w) > n <==> x >= (n + 1) * w
  {
    hide Quot, Rem;
    Split(x, w);
    if x >= (n + 1) * w {
      if Quot(x, w) <= n {
        TimesMonotone(Quot(x, w) + 1, n + 1, w);
      }
    } else if Quot(x, w) > n {
      TimesMonotone(n + 1, Quot(x, w), w);
    }
  }

  /** Both tests for low data rate optimisation agree, for every bandwidth in whole hertz. */
  lemma LdroAgrees(sf: nat, bw: nat)
    requires 7 <= sf <= 12 && bw > 0
    ensures Ldro(sf, bw) <==> ExactLdro(sf, bw)
  {
    hide Quot;
    QuotAbove(Chips(sf) * GIGA, bw, 16_380_000);
    ChipsAre(sf);
    NoneBetween(sf, bw);
  }

  lemma NoneBetween(sf: nat, bw: nat)
    requires 7 <= sf <= 12
    ensures Chips(sf) * GIGA > 16_380_000 * bw <==> Chips(sf) * GIGA >= 16_380_001 * bw || bw == 0
  {
  }

  lemma SymbolsExact(pl: nat, sf: nat, cr: nat, de: bool)
    requires 7 <= sf <= 12
    ensures ExactSymbols(PayloadSymbols(pl, sf, cr, de), pl, sf, cr, de)
  {
    hide Quot, Rem;
    var num, den := Num(pl, sf), Den(sf, de);
    var c := Quot(num + den - 1, den);
    Split(num + den - 1, den);
    assert (c - 1) * den == c * den - den;
    assert IsBlocks(c, pl, sf, de);
    assert c * (cr + 4) >= 0;
    if c == 0 {
      assert c * (cr + 4) == 0;
    }
  }

  /** The ceiling is unique, so the formula names one number of symbols. */
  lemma CeilingUnique(a: int, b: int, num: int, den: nat)
    requires IsCeiling(a, num, den) && IsCeiling(b, num, den)
    ensures a == b
  {
    assert (a - 1) * den < b * den && (b - 1) * den < a * den;
    assert (b - a) * den == b * den - a * den;
    assert (a - 1) * den == a * den - den && (b - 1) * den == b * den - den;
    TimesAtLeast(b - a, den);
  }

  /** At most 888 symbols in a frame of at most 255 bytes. */
  lemma FewSymbols(pl: nat, sf: nat, cr: nat, de: bool)
    requires 7 <= sf <= 12 && pl <= 255 && 1 <= cr <= 4
    ensures PayloadSymbols(pl, sf, cr, de) <= 888
  {
    hide Quot, Rem;
    var num, den := Num(pl, sf), Den(sf, de);
    var c := Quot(num + den - 1, den);
    Split(num + den - 1, den);
    if c > 110 {
      TimesMonotone(111, c, den);
    }
    if c >= 0 {
      TimesMonotone(c, 110, cr + 4);
    }
  }

  lemma QuotBounds(x: nat, w: nat)
    requires w > 0
    ensures Quot(x, w) * w <= x < Quot(x, w) * w + w
  {
    hide Quot, Rem;
    Split(x, w);
  }

  /** The nanoseconds, four times over. */
  lemma TotalBounds(t: nat, n: nat)
    ensures 4 * TotalNs(t, 8, n) <= t * (4 * n + 49) < 4 * TotalNs(t, 8, n) + 4
  {
    hide Quot;
    QuotBounds(t * 49, 4);
    assert t * (4 * n + 49) == 4 * (t * n) + t * 49;
  }

  /** Rounding down never overshoots ... */
  lemma NotAbove(x: nat, bw: nat, t: nat, s: nat, total: nat, us: nat)
    requires t * bw <= x && 4 * total <= t * s && 1000 * us <= total
    ensures 1000 * (us * (4 * bw)) <= x * s
  {
    TimesMonotone(1000 * us, total, 4 * bw);
    TimesMonotone(4 * total, t * s, bw);
    TimesMonotone(t * bw, x, s);
    SameProduct(us, total, t, bw, s);
  }

  lemma SameProduct(us: nat, total: nat, t: nat, bw: nat, s: nat)
    ensures (1000 * us) * (4 * bw) == 1000 * (us * (4 * bw))
    ensures total * (4 * bw) == (4 * total) * bw
    ensures (t * s) * bw == (t * bw) * s
  {
  }

  /** ... and stays within what the three roundings can lose. */
  lemma NotFarBelow(x: nat, bw: nat, t: nat, s: nat, total: nat, us: nat)
    requires bw > 0 && x < t * bw + bw && t * s < 4 * total + 4 && total < 1000 * us + 1000 && s <= 3601
    ensures x * s < 1000 * ((us + 2) * (4 * bw))
  {
    TimesMonotone(x + 1, t * bw + bw, s);
    assert (x + 1) * s == x * s + s && (t * bw + bw) * s == (t * s + s) * bw;
    TimesMonotone(t * s + s + 1, 4000 * us + 8000, bw);
    assert (4000 * us + 8000) * bw == 1000 * ((us + 2) * (4 * bw));
    assert (t * s + s + 1) * bw == (t * s + s) * bw + bw;
  }

  /**
    For every spreading factor, bandwidth and frame the result is never above the exact time on air, and
    less than two microseconds below it.
  */
  lemma WithinTwoMicroseconds(pl: nat, sf: nat, bw: nat, cr: nat)
    requires 7 <= sf <= 12 && bw > 0 && 1 <= cr <= 4 && pl <= 255 && Micros(pl, sf, bw, cr, 8) < WORD32
    ensures var us, n := TimeOnAir(pl, sf, bw, cr, 8), PayloadSymbols(pl, sf, cr, ExactLdro(sf, bw));
      && ExactSymbols(n, pl, sf, cr, ExactLdro(sf, bw))
      && us * (4 * bw) <= ExactScaled(sf, 8, n) < (us + 2) * (4 * bw)
  {
    hide Quot, Rem, PayloadSymbols, ExactSymbols, Chips, TwoTo, TotalNs, Ldro, ExactLdro;
    ChipsAre(sf);
    LdroAgrees(sf, bw);
    SymbolsExact(pl, sf, cr, ExactLdro(sf, bw));
    FewSymbols(pl, sf, cr, ExactLdro(sf, bw));
    var n, x := PayloadSymbols(pl, sf, cr, ExactLdro(sf, bw)), Chips(sf) * GIGA;
    var t := SymbolNs(sf, bw);
    var total := TotalNs(t, 8, n);
    QuotBounds(x, bw);
    TotalBounds(t, n);
    QuotBounds(total, 1000);
    RemSmall(Micros(pl, sf, bw, cr, 8));
    var us := TimeOnAir(pl, sf, bw, cr, 8);
    NotAbove(x, bw, t, 4 * n + 49, total, us);
    NotFarBelow(x, bw, t, 4 * n + 49, total, us);
    Scaled(Chips(sf), 4 * n + 49);
  }

  lemma RemSmall(x: nat)
    requires x < WORD32
    ensures Rem(x, WORD32) == x
  {
  }

  lemma Scaled(chips: nat, s: nat)
    ensures (chips * GIGA) * s == 1000 * (chips * 1_000_000 * s)
  {
    assert chips * GIGA == 1000 * (chips * 1_000_000);
    var y := chips * 1_000_000;
    assert (1000 * y) * s == 1000 * (y * s);
  }

  // ----- monotonicity and the largest payload

  lemma QuotMonotone(a: nat, b: nat, w: nat)
    requires w > 0 && a <= b
    ensures Quot(a, w) <= Quot(b, w)
  {
    hide Quot, Rem;
    Split(a, w);
    Split(b, w);
    if Quot(b, w) < Quot(a, w) {
      TimesMonotone(Quot(b, w) + 1, Quot(a, w), w);
    }
  }

  lemma MoreSymbols(pl: nat, more: nat, sf: nat, cr: nat, de: bool)
    requires 7 <= sf <= 12 && pl <= more
    ensures PayloadSymbols(pl, sf, cr, de) <= PayloadSymbols(more, sf, cr, de)
  {
    hide Quot, Rem;
    var den := Den(sf, de);
    QuotMonotone(Num(pl, sf) + den - 1, Num(more, sf) + den - 1, den);
    TimesMonotone(Quot(Num(pl, sf) + den - 1, den), Quot(Num(more, sf) + den - 1, den), cr + 4);
  }

  lemma MoreNanoseconds(t: nat, n: nat, more: nat)
    requires n <= more
    ensures TotalNs(t, 8, n) <= TotalNs(t, 8, more)
  {
    hide Quot;
    TimesMonotone(n, more, t);
    assert t * n == n * t && t * more == more * t;
  }

  /** A longer payload never takes less time. */
  lemma LongerTakesLonger(pl: nat, more: nat, sf: nat, bw: nat, cr: nat)
    requires 7 <= sf <= 12 && bw > 0 && 1 <= cr <= 4 && pl <= more && Micros(more, sf, bw, cr, 8) < WORD32
    ensures TimeOnAir(pl, sf, bw, cr, 8) <= TimeOnAir(more, sf, bw, cr, 8)
    ensures Micros(pl, sf, bw, cr, 8) < WORD32
  {
    hide Quot, Rem, Ldro, PayloadSymbols, TotalNs, Chips;
    var de, t := Ldro(sf, bw), SymbolNs(sf, bw);
    MoreSymbols(pl, more, sf, cr, de);
    var n, n' := PayloadSymbols(pl, sf, cr, de), PayloadSymbols(more, sf, cr, de);
    MoreNanoseconds(t, n, n');
    QuotMonotone(TotalNs(t, 8, n), TotalNs(t, 8, n'), 1000);
    RemSmall(Micros(pl, sf, bw, cr, 8));
    RemSmall(Micros(more, sf, bw, cr, 8));
  }

  const MAX_FRAME: nat := 255

  /** loraitp_max_payload_for_toa: the scan stops at the first payload that is too long, and misses none. */
  method MaxPayload(sf: nat, bw: nat, cr: nat, toa: nat) returns (best: nat)
    requires 7 <= sf <= 12 && bw > 0 && 1 <= cr <= 4 && Micros(MAX_FRAME, sf, bw, cr, 8) < WORD32
    ensures 1 <= best <= MAX_FRAME
    ensures TimeOnAir(1, sf, bw, cr, 8) <= toa ==>
              forall pl :: 1 <= pl <= MAX_FRAME ==> (TimeOnAir(pl, sf, bw, cr, 8) <= toa <==> pl <= best)
    ensures TimeOnAir(1, sf, bw, cr, 8) > toa ==> best == 1
  {
    hide TimeOnAir, Micros;
    best := 1;
    var pl := 1;
    while pl <= MAX_FRAME
      invariant 1 <= pl <= MAX_FRAME + 1 && best == (if pl == 1 then 1 else pl - 1)
      invariant forall p :: 1 <= p < pl ==> TimeOnAir(p, sf, bw, cr, 8) <= toa
    {
      if TimeOnAir(pl, sf, bw, cr, 8) <= toa {
        best := pl;
      } else {
        break;
      }
      pl := pl + 1;
    }
    forall p | pl <= p <= MAX_FRAME ensures TimeOnAir(p, sf, bw, cr, 8) > toa {
      LongerTakesLonger(p, MAX_FRAME, sf, bw, cr);
      LongerTakesLonger(pl, p, sf, bw, cr);
    }
  }
}
