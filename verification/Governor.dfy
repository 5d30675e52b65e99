/**
  The duty-cycle governor: the accounting it does, as functions of the list of slots it holds, and
  the 256-entry ring that does it in place.
*/
module Governor {
  import opened Clock

  const WINDOW: int := 3_600_000
  const SLOTS: nat := 256

  /** One accounted transmission: when it counts as ended, and its time on air, in milliseconds. */
  datatype Slot = Slot(end: u32, toa: u32)

  /** What the governor remembers.  The slots run from oldest to newest; ppm 0 means no limit. */
  datatype State = State(ppm: nat, slots: seq<Slot>, blocked: u32, total: u32)

  function Budget(ppm: nat): u32 {
    Wrap(WINDOW * ppm / 1_000_000)
  }

  function Prune(slots: seq<Slot>, now: u32): (kept: seq<Slot>)
    ensures |kept| <= |slots|
  {
    if |slots| > 0 && Delta(now, slots[0].end) >= WINDOW then Prune(slots[1..], now) else slots
  }

  /** Airtime of the first n slots, without wrapping. */
  function Sum(slots: seq<Slot>, n: nat): (t: nat)
    requires n <= |slots|
  {
    if n == 0 then 0 else Sum(slots, n - 1) + slots[n - 1].toa
  }

  function WindowAirtime(g: State, now: u32): u32 {
    var kept := Prune(g.slots, now);
    Wrap(Sum(kept, |kept|))
  }

  /** The first slot, from i on, whose expiry frees enough airtime; |slots| if none does. */
  function Freeing(slots: seq<Slot>, need: u32, i: nat): (s: nat)
    requires i <= |slots|
    ensures i <= s <= |slots|
    decreases |slots| - i
  {
    if i == |slots| then i
    else if Wrap(Sum(slots, i + 1)) >= need then i
    else Freeing(slots, need, i + 1)
  }

  function OffTimeWait(g: State, now: u32): (w: nat)
    ensures w < HALF
  {
    if Delta(g.blocked, now) > 0 then Delta(g.blocked, now) else 0
  }

  /** How long to wait before a frame of toa_ms may start. */
  function Delay(g: State, now: u32, toa: u32): (w: nat) {
    if g.ppm == 0 then 0
    else
      var wait := OffTimeWait(g, now);
      var kept := Prune(g.slots, now);
      var used := WindowAirtime(g, now);
      if Wrap(used + toa) > Budget(g.ppm) then
        var s := Freeing(kept, Wrap(Wrap(used + toa) - Budget(g.ppm)), 0);
        if s < |kept| then
          var d := Delta(Wrap(kept[s].end + WINDOW), now);
          if d > wait then d else wait
        else wait
      else wait
  }

  /** A full ring gives up its oldest slot: its airtime moves onto the next one. */
  function Fold(slots: seq<Slot>): (f: seq<Slot>)
    requires |slots| >= 2
    ensures |f| == |slots| - 1
  {
    [Slot(slots[1].end, Wrap(slots[1].toa + slots[0].toa))] + slots[2..]
  }

  function OffTime(ppm: nat, toa: u32): nat
    requires ppm > 0
  {
    toa * 1_000_000 / ppm
  }

  /** Of the off-time, counted from the record of the frame, the frame is the duty share, to the millisecond. */
  lemma OffTimeShare(ppm: nat, toa: u32)
    requires ppm > 0
    ensures ppm * OffTime(ppm, toa) <= toa * 1_000_000 < ppm * (OffTime(ppm, toa) + 1)
  {
    var a := toa * 1_000_000;
    assert a == ppm * (a / ppm) + a % ppm;
  }

  /** The budget is the duty share of an hour, rounded down to the millisecond. */
  lemma BudgetShare(ppm: nat)
    requires ppm <= 1_000_000
    ensures 1_000_000 * Budget(ppm) <= 3_600_000 * ppm < 1_000_000 * (Budget(ppm) + 1)
  {
    WrapSmall(WINDOW * ppm / 1_000_000);
  }

  function Record(g: State, now: u32, toa: u32): State {
    var room := if |g.slots| == SLOTS then Fold(g.slots) else g.slots;
    State(g.ppm,
          room + [Slot(Wrap(now + toa), toa)],
          if g.ppm == 0 then g.blocked else Wrap(now + toa + Wrap(OffTime(g.ppm, toa) - toa)),
          Wrap(g.total + toa))
  }

  // ----- the ring

  class Ring {
    const slotEnd: array<u32>
    const slotToa: array<u32>
    var head: nat
    var n: nat
    var ppm: nat
    var blocked: u32
    var total: u32

    ghost predicate Valid()
      reads this
    {
      && slotEnd.Length == SLOTS && slotToa.Length == SLOTS && slotEnd != slotToa
      && head < SLOTS && n <= SLOTS
    }

    /** Index of the i-th oldest slot. */
    function At(i: nat): (s: nat)
      reads this
      ensures s < SLOTS
      ensures head < SLOTS && i <= SLOTS ==> s == if head + i < SLOTS then head + i else head + i - SLOTS
    {
      (head + i) % SLOTS
    }

    ghost function Slots(): (s: seq<Slot>)
      requires Valid()
      reads this, slotEnd, slotToa
      ensures |s| == n
      ensures forall i :: 0 <= i < n ==> s[i] == Slot(slotEnd[At(i)], slotToa[At(i)])
    {
      seq(n, i requires 0 <= i < n reads this, slotEnd, slotToa => Slot(slotEnd[At(i)], slotToa[At(i)]))
    }

    ghost function View(): State
      requires Valid()
      reads this, slotEnd, slotToa
    {
      State(ppm, Slots(), blocked, total)
    }

    constructor (ppm: nat)
      ensures Valid() && fresh(slotEnd) && fresh(slotToa)
      ensures View() == State(ppm, [], 0, 0)
    {
      slotEnd := new u32[SLOTS](_ => 0);
      slotToa := new u32[SLOTS](_ => 0);
      head, n, blocked, total := 0, 0, 0, 0;
      this.ppm := ppm;
    }

    method DropOldest()
      requires Valid() && n > 0
      modifies this`head, this`n
      ensures Valid()
      ensures View() == old(View()).(slots := old(Slots())[1..])
    {
      hide At;
      ghost var before := Slots();
      head := (head + 1) % SLOTS;
      n := n - 1;
      assert Slots() == before[1..];
    }

    method PruneRing(now: u32)
      requires Valid()
      modifies this`head, this`n
      ensures Valid()
      ensures View() == old(View()).(slots := Prune(old(Slots()), now))
    {
      hide Delta, Wrap, At;
      while n > 0
        invariant Valid()
        invariant Prune(Slots(), now) == Prune(old(Slots()), now)
        invariant View() == old(View()).(slots := Slots())
        decreases n
      {
        var end := slotEnd[head];
        assert Slots()[0].end == end;
        if Delta(now, end) < WINDOW {
          return;
        }
        DropOldest();
      }
    }

    method AirtimeInWindow(now: u32) returns (sum: u32)
      requires Valid()
      modifies this`head, this`n
      ensures Valid()
      ensures View() == old(View()).(slots := Prune(old(Slots()), now))
      ensures sum == WindowAirtime(old(View()), now)
    {
      hide Prune;
      PruneRing(now);
      sum := SumRing();
    }

    method SumRing() returns (sum: u32)
      requires Valid()
      ensures sum == Wrap(Sum(Slots(), n))
    {
      hide Wrap, At;
      WrapSmall(0);
      sum := 0;
      for i := 0 to n
        invariant sum == Wrap(Sum(Slots(), i))
      {
        WrapWrap(Sum(Slots(), i), slotToa[At(i)]);
        sum := Wrap(sum + slotToa[At(i)]);
      }
    }

    /** The scan for the slot whose expiry frees enough. */
    method FindFreeing(need: u32) returns (i: nat)
      requires Valid()
      ensures i == Freeing(Slots(), need, 0)
    {
      hide Delta, Wrap, At;
      ghost var kept := Slots();
      var freed: u32 := 0;
      i := 0;
      WrapSmall(0);
      while i < n
        invariant i <= n
        invariant freed == Wrap(Sum(kept, i))
        invariant Freeing(kept, need, 0) == Freeing(kept, need, i)
      {
        var toa := slotToa[At(i)];
        assert kept[i].toa == toa;
        WrapWrap(Sum(kept, i), toa);
        freed := Wrap(freed + toa);
        if freed >= need {
          return;
        }
        i := i + 1;
      }
    }

    method DelayMs(now: u32, toa: u32) returns (wait: nat)
      requires Valid()
      modifies this`head, this`n
      ensures Valid()
      ensures wait == Delay(old(View()), now, toa)
      ensures ppm == 0 ==> wait == 0
      ensures View() == old(View()).(slots := if ppm == 0 then old(Slots()) else Prune(old(Slots()), now))
    {
      hide Delta, Wrap, Prune, At, Freeing, Sum, Budget;
      if ppm == 0 {
        return 0;
      }
      wait := if Delta(blocked, now) > 0 then Delta(blocked, now) else 0;
      var budget := Budget(ppm);
      var used := AirtimeInWindow(now);
      if Wrap(used + toa) > budget {
        var i := FindFreeing(Wrap(Wrap(used + toa) - budget));
        if i < n {
          assert Slots()[i].end == slotEnd[At(i)];
          var until := Wrap(slotEnd[At(i)] + WINDOW);
          if Delta(until, now) > 0 && Delta(until, now) > wait {
            wait := Delta(until, now);
          }
        }
      }
    }

    method Append(end: u32, toa: u32)
      requires Valid() && n < SLOTS
      modifies this`n, slotEnd, slotToa
      ensures Valid() && Slots() == old(Slots()) + [Slot(end, toa)]
    {
      hide At;
      ghost var before := Slots();
      var tail := At(n);
      slotEnd[tail] := end;
      slotToa[tail] := toa;
      n := n + 1;
      assert Slots() == before + [Slot(end, toa)];
    }

    method RecordTx(now: u32, toa: u32)
      requires Valid()
      modifies this, slotEnd, slotToa
      ensures Valid()
      ensures View() == Record(old(View()), now, toa)
      ensures ppm != 0 ==>
                exists off: nat :: blocked == Wrap(now + off) && ppm * off <= toa * 1_000_000 < ppm * (off + 1)
      ensures ppm == 0 ==> blocked == old(blocked)
    {
      hide Wrap, Delta, At, Fold, OffTime;
      if n == SLOTS {
        FoldRing();
      }
      Append(Wrap(now + toa), toa);
      if ppm != 0 {
        blocked := Wrap(now + toa + Wrap(OffTime(ppm, toa) - toa));
        OffTimeShare(ppm, toa);
        WrapWrap(now + toa, OffTime(ppm, toa) - toa);
      }
      total := Wrap(total + toa);
    }

    method FoldRing()
      requires Valid() && n == SLOTS
      modifies this`head, this`n, slotToa
      ensures Valid() && n == SLOTS - 1
      ensures Slots() == Fold(old(Slots()))
    {
      hide Wrap, At;
      ghost var before := Slots();
      var a := head;
      var b := (head + 1) % SLOTS;
      assert At(0) == a && At(1) == b;
      slotToa[b] := Wrap((slotToa[b] as int) + slotToa[a]);
      head := b;
      n := n - 1;
      assert Slots() == Fold(before);
    }
  }
}
