/**
  Why the governor keeps the law: over every run through transmit(), the airtime inside any hour,
  wherever it starts, stays within the region's budget.

  Time here is real and unbounded.  A ghost copy of the ring holds the true time each slot's clock
  reading stands for, and a ghost log holds every frame sent.  The governor's own state sees only
  the wrapping clock, which started at "boot".
*/
module DutyCycle {
  import opened Clock
  import opened Governor

  /** A frame sent: on the air from start to end, accounted as ending at counted; est is what was asked for. */
  datatype Frame = Frame(start: int, end: int, counted: int, est: nat)

  function Airtime(f: Frame): int {
    f.end - f.start
  }

  /** How far a frame ran beyond its estimate. */
  function Overshoot(f: Frame): nat {
    if Airtime(f) > f.est then Airtime(f) - f.est else 0
  }

  /** A slot of the ring with the true time it stands for. */
  datatype Mark = Mark(end: int, toa: u32)

  /** What the governor would hold for these marks. */
  function Read(ring: seq<Mark>, boot: int): (s: seq<Slot>)
    ensures |s| == |ring|
    ensures forall i :: 0 <= i < |ring| ==> s[i] == Slot(Wrap(ring[i].end - boot), ring[i].toa)
  {
    seq(|ring|, i requires 0 <= i < |ring| => Slot(Wrap(ring[i].end - boot), ring[i].toa))
  }

  // ----- airtime

  /** Airtime of f between a and b. */
  function Overlap(f: Frame, a: int, b: int): nat {
    var from := if f.start > a then f.start else a;
    var to := if f.end < b then f.end else b;
    if to > from then to - from else 0
  }

  function AirtimeBetween(log: seq<Frame>, a: int, b: int): nat {
    if |log| == 0 then 0
    else AirtimeBetween(log[..|log| - 1], a, b) + Overlap(log[|log| - 1], a, b)
  }

  /** Airtime of the logged frames accounted as ending after x. */
  function Load(log: seq<Frame>, x: int): int {
    if |log| == 0 then 0
    else Load(log[..|log| - 1], x) + if log[|log| - 1].counted > x then Airtime(log[|log| - 1]) else 0
  }

  /** Airtime the ring holds for times after x. */
  function RingLoad(ring: seq<Mark>, x: int): nat {
    if |ring| == 0 then 0
    else RingLoad(ring[..|ring| - 1], x) + if ring[|ring| - 1].end > x then ring[|ring| - 1].toa else 0
  }

  ghost predicate WellTimed(log: seq<Frame>) {
    forall i :: 0 <= i < |log| ==> log[i].start <= log[i].end <= log[i].counted
  }

  /** Frames follow one another, and all are off the air by now. */
  ghost predicate Sequential(log: seq<Frame>, now: int) {
    && (forall i :: 0 <= i < |log| ==> log[i].end <= now)
    && (forall i, j :: 0 <= i < j < |log| ==> log[i].end <= log[j].start)
  }

  /** Each frame, as estimated when it started, still fitted the hour before it with everything logged earlier. */
  ghost predicate Admitted(log: seq<Frame>, budget: int) {
    |log| > 0 ==>
      && Admitted(log[..|log| - 1], budget)
      && Load(log[..|log| - 1], log[|log| - 1].start - WINDOW) + log[|log| - 1].est <= budget
  }

  /** What the newest frame started before t ran beyond its estimate. */
  function LastOvershoot(log: seq<Frame>, t: int): nat {
    if |log| == 0 then 0
    else if log[|log| - 1].start < t then Overshoot(log[|log| - 1])
    else LastOvershoot(log[..|log| - 1], t)
  }

  /** In the hour from "from" on: the budget, and at most what the newest frame ran over. */
  predicate LawfulHour(log: seq<Frame>, budget: int, from: int) {
    AirtimeBetween(log, from, from + WINDOW) <= budget + LastOvershoot(log, from + WINDOW)
  }

  /** The law: every hour, wherever it starts. */
  ghost predicate Lawful(log: seq<Frame>, budget: int) {
    forall from: int :: LawfulHour(log, budget, from)
  }

  /** Frames on the air after a that started before b, at their full length. */
  lemma {:induction false} OverlapBelowLoad(log: seq<Frame>, a: int, b: int, x: int)
    requires WellTimed(log) && x <= a
    ensures AirtimeBetween(log, a, b) <= Load(log, x)
  {
    if |log| > 0 {
      OverlapBelowLoad(log[..|log| - 1], a, b, x);
    }
  }

  /** The rolling-window law for a log of admitted frames, in one window. */
  lemma {:induction false} AdmittedObeysTheHour(log: seq<Frame>, budget: nat, from: int)
    requires WellTimed(log) && Admitted(log, budget)
    ensures LawfulHour(log, budget, from)
  {
    if |log| > 0 {
      var before, last := log[..|log| - 1], log[|log| - 1];
      if last.start >= from + WINDOW {
        AdmittedObeysTheHour(before, budget, from);
      } else {
        OverlapBelowLoad(before, from, from + WINDOW, last.start - WINDOW);
      }
    }
  }

  /** And so in every window. */
  lemma AdmittedObeysEveryHour(log: seq<Frame>, budget: nat)
    requires WellTimed(log) && Admitted(log, budget)
    ensures Lawful(log, budget)
  {
    forall from: int ensures LawfulHour(log, budget, from) {
      AdmittedObeysTheHour(log, budget, from);
    }
  }

  // ----- the ring against the log

  /** For times after x the ring accounts for all the log does, and for no more until it folds. */
  ghost predicate Covers(ring: seq<Mark>, log: seq<Frame>, x: int, folded: bool) {
    && Load(log, x) <= RingLoad(ring, x)
    && (!folded ==> Load(log, x) == RingLoad(ring, x))
  }

  ghost predicate Ordered(ring: seq<Mark>) {
    forall i, j :: 0 <= i <= j < |ring| ==> ring[i].end <= ring[j].end
  }

  function Trim(ring: seq<Mark>, x: int): (kept: seq<Mark>)
    ensures |kept| <= |ring|
    ensures |kept| > 0 ==> kept[0].end > x
  {
    if |ring| > 0 && ring[0].end <= x then Trim(ring[1..], x) else ring
  }

  function MarkSum(ring: seq<Mark>): nat {
    if |ring| == 0 then 0 else MarkSum(ring[..|ring| - 1]) + ring[|ring| - 1].toa
  }

  lemma {:induction false} RingLoadFront(ring: seq<Mark>, x: int)
    requires |ring| > 0
    ensures RingLoad(ring, x) == (if ring[0].end > x then ring[0].toa else 0) + RingLoad(ring[1..], x)
  {
    if |ring| > 1 {
      RingLoadFront(ring[..|ring| - 1], x);
      assert ring[..|ring| - 1][1..] == ring[1..][..|ring| - 2];
    } else {
      assert ring[..0] == [];
    }
  }

  lemma {:induction false} RingLoadMonotone(ring: seq<Mark>, x: int, y: int)
    requires x <= y
    ensures RingLoad(ring, y) <= RingLoad(ring, x) <= MarkSum(ring)
  {
    if |ring| > 0 {
      RingLoadMonotone(ring[..|ring| - 1], x, y);
    }
  }

  lemma {:induction false} RingLoadAll(ring: seq<Mark>, x: int)
    requires forall i :: 0 <= i < |ring| ==> ring[i].end > x
    ensures RingLoad(ring, x) == MarkSum(ring)
  {
    if |ring| > 0 {
      RingLoadAll(ring[..|ring| - 1], x);
    }
  }

  /** Trimming at x changes nothing for times after x, and leaves only ends after x. */
  lemma {:induction false} TrimLoad(ring: seq<Mark>, x: int, y: int)
    requires Ordered(ring) && x <= y
    ensures Ordered(Trim(ring, x))
    ensures forall i :: 0 <= i < |Trim(ring, x)| ==> Trim(ring, x)[i].end > x && Trim(ring, x)[i] in ring
    ensures RingLoad(Trim(ring, x), y) == RingLoad(ring, y)
  {
    if |ring| > 0 && ring[0].end <= x {
      TrimLoad(ring[1..], x, y);
      RingLoadFront(ring, y);
    }
  }

  /** On a clock within half its range of every slot, pruning from the head is exact. */
  lemma {:induction false} PruneIsTrim(ring: seq<Mark>, boot: int, now: int)
    requires forall i :: 0 <= i < |ring| ==> -HALF <= now - ring[i].end < HALF
    ensures Prune(Read(ring, boot), Wrap(now - boot)) == Read(Trim(ring, now - WINDOW), boot)
  {
    hide Wrap, Delta;
    if |ring| > 0 {
      DeltaIsReal(now - boot, ring[0].end - boot);
      if now - ring[0].end >= WINDOW {
        PruneIsTrim(ring[1..], boot, now);
        assert Read(ring, boot)[1..] == Read(ring[1..], boot);
      }
    }
  }

  lemma {:induction false} SumIsMarkSum(ring: seq<Mark>, boot: int, n: nat)
    requires n <= |ring|
    ensures Sum(Read(ring, boot), n) == MarkSum(ring[..n])
  {
    if n > 0 {
      SumIsMarkSum(ring, boot, n - 1);
      assert ring[..n][..n - 1] == ring[..n - 1];
    }
  }

  /** Once the first n marks have ended by x, what is left is at most the rest. */
  lemma {:induction false} LoadAfterPrefix(ring: seq<Mark>, n: nat, x: int)
    requires n <= |ring| && forall i :: 0 <= i < n ==> ring[i].end <= x
    ensures RingLoad(ring, x) <= MarkSum(ring) - MarkSum(ring[..n])
    decreases |ring|
  {
    if |ring| == n {
      assert ring[..n] == ring;
      NothingLeft(ring, x);
    } else {
      var m := |ring| - 1;
      assert ring[..m][..n] == ring[..n];
      LoadAfterPrefix(ring[..m], n, x);
    }
  }

  lemma {:induction false} NothingLeft(ring: seq<Mark>, x: int)
    requires forall i :: 0 <= i < |ring| ==> ring[i].end <= x
    ensures RingLoad(ring, x) == 0
  {
    if |ring| > 0 {
      NothingLeft(ring[..|ring| - 1], x);
    }
  }

  // ----- one step of the station

  /** The station: the governor's state, and the truth behind it. */
  datatype Station = Station(
    gov: State,          // what the governor holds
    boot: int,           // true time at which its clock read zero
    ring: seq<Mark>,     // the true ends behind its slots
    free: int,           // the true time behind blocked_until
    asked: int,          // when it last pruned
    now: int,            // the latest time anything happened
    log: seq<Frame>,     // every frame sent
    folded: bool,        // whether any airtime has been re-dated
    full: bool)          // whether the ring has ever been full

  /** ppm is a real duty limit. */
  ghost predicate Sane(ppm: nat) {
    0 < ppm <= 1_000_000
  }

  /** Off-times shorter than this are told from times past. */
  const REACH: int := HALF - WINDOW

  /** Below this much airtime, with a frame of at most an hour added, 32-bit sums are exact. */
  const SUMS: int := MODULUS - WINDOW

  /** What every step keeps. */
  ghost predicate Safe(s: Station) {
    && Sane(s.gov.ppm)
    && s.gov.slots == Read(s.ring, s.boot) && s.gov.blocked == Wrap(s.free - s.boot)
    && |s.ring| <= SLOTS && Ordered(s.ring)
    && (forall i :: 0 <= i < |s.ring| ==> s.asked - WINDOW < s.ring[i].end <= s.free)
    && (forall i :: 0 <= i < |s.ring| ==> s.ring[i].end < s.now + REACH)
    && s.asked <= s.now && s.free < s.now + HALF
    && (forall x :: s.asked - WINDOW <= x ==> Covers(s.ring, s.log, x, s.folded))
    && MarkSum(s.ring) < SUMS && (!s.full ==> HourBounded(s))
    && WellTimed(s.log) && Sequential(s.log, s.now) && Brief(s.gov.ppm, s.log)
    && Admitted(s.log, Budget(s.gov.ppm))
  }

  /** What the ring holds of the last hour is within the budget, but for what the newest frame ran over. */
  ghost predicate HourBounded(s: Station) {
    RingLoad(s.ring, s.now - WINDOW) <= Budget(s.gov.ppm) + LastOvershoot(s.log, s.now + 1)
  }

  /** After each frame the off-time fits half the clock's range with an hour to spare. */
  ghost predicate Brief(ppm: nat, log: seq<Frame>)
    requires ppm > 0
  {
    forall i :: 0 <= i < |log| ==> 0 <= Airtime(log[i]) < REACH && OffTime(ppm, Airtime(log[i])) < REACH
  }

  lemma BudgetBound(ppm: nat)
    requires ppm <= 1_000_000
    ensures Budget(ppm) == WINDOW * ppm / 1_000_000 <= WINDOW
  {
    WrapSmall(WINDOW * ppm / 1_000_000);
  }

  lemma OffTimeBound(ppm: nat, toa: u32, most: u32)
    requires 0 < ppm <= 1_000_000 && toa <= most
    ensures toa <= OffTime(ppm, toa) <= OffTime(ppm, most)
  {
    DivAtLeast(toa * 1_000_000, ppm, toa);
    DivMonotone(toa * 1_000_000, most * 1_000_000, ppm);
  }

  lemma TimesMonotone(x: int, y: int, b: nat)
    ensures x <= y ==> x * b <= y * b
  {
    if x <= y {
      assert y * b == x * b + (y - x) * b;
    }
  }

  lemma DivAtLeast(a: nat, b: nat, q: nat)
    requires 0 < b && q * b <= a
    ensures q <= a / b
  {
    assert a < (a / b) * b + b;
    TimesMonotone(a / b + 1, q, b);
  }

  lemma DivMonotone(a: nat, c: nat, b: nat)
    requires 0 < b && a <= c
    ensures a / b <= c / b
  {
    assert (a / b) * b <= a;
    DivAtLeast(c, b, a / b);
  }

  // ----- asking

  /** What any question to the governor does first: forget slots that have left the hour. */
  function Ask(s: Station, at: int): Station {
    s.(gov := s.gov.(slots := Prune(s.gov.slots, Wrap(at - s.boot))),
       ring := Trim(s.ring, at - WINDOW),
       asked := at,
       now := at)
  }

  /** Questions come in order and often enough for the clock to tell before from after. */
  predicate Timely(s: Station, at: int) {
    s.now <= at && at - s.asked < HALF - WINDOW
  }

  /** After all frames of a log, the newest is the last of it. */
  lemma NewestOvershoot(log: seq<Frame>, now: int, t: int)
    requires WellTimed(log) && Sequential(log, now) && now < t
    ensures LastOvershoot(log, t) == if |log| == 0 then 0 else Overshoot(log[|log| - 1])
  {
    if |log| > 0 {
      assert log[|log| - 1].start <= log[|log| - 1].end <= now;
    }
  }

  lemma AskKeepsBound(s: Station, at: int)
    requires HourBounded(s) || s.full
    requires Ordered(s.ring) && Sequential(s.log, s.now) && WellTimed(s.log) && s.now <= at
    ensures !s.full ==> HourBounded(Ask(s, at))
  {
    hide Prune, Trim, Read, RingLoad, Budget, Wrap;
    TrimLoad(s.ring, at - WINDOW, at - WINDOW);
    RingLoadMonotone(s.ring, s.now - WINDOW, at - WINDOW);
    NewestOvershoot(s.log, s.now, s.now + 1);
    NewestOvershoot(s.log, s.now, at + 1);
  }

  lemma AskKeepsSafe(s: Station, at: int)
    requires Safe(s) && Timely(s, at)
    ensures Safe(Ask(s, at))
  {
    hide Prune, Trim, Read, Load, RingLoad, MarkSum, Budget, OffTime, Wrap, Admitted, LastOvershoot;
    PruneIsTrim(s.ring, s.boot, at);
    AskKeepsBound(s, at);
    var ring := Trim(s.ring, at - WINDOW);
    TrimLoad(s.ring, at - WINDOW, at - WINDOW);
    RingLoadAll(ring, at - WINDOW);
    RingLoadMonotone(s.ring, at - WINDOW, at - WINDOW);
    forall x | at - WINDOW <= x ensures Covers(ring, s.log, x, s.folded) {
      assert Covers(s.ring, s.log, x, s.folded);
      TrimLoad(s.ring, at - WINDOW, x);
    }
  }

  lemma {:induction false} FreeingFinds(ring: seq<Mark>, boot: int, need: u32, i: nat)
    requires i <= |ring| && MarkSum(ring) < MODULUS
    requires i == 0 || MarkSum(ring[..i]) < need
    ensures var q := Freeing(Read(ring, boot), need, i);
      && (q < |ring| ==> MarkSum(ring[..q + 1]) >= need)
      && (q > i ==> MarkSum(ring[..q]) < need)
      && (q == |ring| ==> |ring| == 0 || MarkSum(ring) < need)
    decreases |ring| - i
  {
    hide MarkSum, Sum, Read;
    if i < |ring| {
      SumIsMarkSum(ring, boot, i + 1);
      PrefixSum(ring, i + 1);
      WrapSmall(MarkSum(ring[..i + 1]));
      if MarkSum(ring[..i + 1]) < need {
        FreeingFinds(ring, boot, need, i + 1);
      }
    } else {
      assert ring[..i] == ring;
    }
  }

  lemma {:induction false} PrefixSum(ring: seq<Mark>, n: nat)
    requires n <= |ring|
    ensures MarkSum(ring[..n]) <= MarkSum(ring)
  {
    if n < |ring| {
      PrefixSum(ring[..|ring| - 1], n);
      assert ring[..|ring| - 1][..n] == ring[..n];
    } else {
      assert ring[..n] == ring;
    }
  }

  /**
    The promise behind every grant: once the governor's delay has passed, the off-time is over and
    what the hour still holds leaves room for the frame asked about.
  */
  lemma DelaySuffices(s: Station, at: int, est: u32, start: int)
    requires Safe(s) && Timely(s, at) && est <= Budget(s.gov.ppm)
    requires start >= at + Delay(s.gov, Wrap(at - s.boot), est)
    ensures start >= s.free || at >= s.free
    ensures RingLoad(Ask(s, at).ring, start - WINDOW) <= Budget(s.gov.ppm) - est
  {
    hide Trim, Read, Load, RingLoad, MarkSum, Budget, OffTime, Wrap, Admitted, Freeing, Prune, Sum, Delta;
    var now := Wrap(at - s.boot);
    var ring := Ask(s, at).ring;
    var kept := Prune(s.gov.slots, now);
    PruneIsTrim(s.ring, s.boot, at);
    AskKeepsSafe(s, at);
    BudgetBound(s.gov.ppm);
    if s.free > at {
      DeltaIsReal(s.free - s.boot, at - s.boot);
    }
    SumIsMarkSum(ring, s.boot, |ring|);
    assert ring[..|ring|] == ring;
    var used := MarkSum(ring);
    WrapSmall(used);
    WrapSmall(used + est);
    RingLoadMonotone(ring, start - WINDOW, start - WINDOW);
    if used + est > Budget(s.gov.ppm) {
      var need := used + est - Budget(s.gov.ppm);
      WrapSmall(need);
      FreeingFinds(ring, s.boot, need, 0);
      var q := Freeing(kept, need, 0);
      EmptySum();
      assert q < |ring|;
      WrapWrap(ring[q].end - s.boot, WINDOW);
      DeltaIsReal(ring[q].end - s.boot + WINDOW, at - s.boot);
      LoadAfterPrefix(ring, q + 1, start - WINDOW);
    }
  }

  lemma EmptySum()
    ensures MarkSum([]) == 0
  {
  }

  // ----- sending

  function FoldMarks(ring: seq<Mark>): (r: seq<Mark>)
    requires |ring| >= 2 && ring[0].toa + ring[1].toa < MODULUS
    ensures |r| == |ring| - 1 && forall i :: 0 <= i < |r| ==> r[i].end == ring[i + 1].end
  {
    [Mark(ring[1].end, ring[1].toa + ring[0].toa)] + ring[2..]
  }

  lemma {:induction false} FoldLoad(ring: seq<Mark>, x: int)
    requires |ring| >= 2 && ring[0].toa + ring[1].toa < MODULUS && Ordered(ring)
    ensures RingLoad(ring, x) <= RingLoad(FoldMarks(ring), x)
    ensures MarkSum(FoldMarks(ring)) == MarkSum(ring)
  {
    var f := FoldMarks(ring);
    RingLoadFront(ring, x);
    RingLoadFront(ring[1..], x);
    RingLoadFront(f, x);
    assert ring[1..][1..] == ring[2..] == f[1..];
    MarkSumFront(ring);
    MarkSumFront(ring[1..]);
    MarkSumFront(f);
  }

  lemma {:induction false} MarkSumFront(ring: seq<Mark>)
    requires |ring| > 0
    ensures MarkSum(ring) == ring[0].toa + MarkSum(ring[1..])
  {
    if |ring| > 1 {
      MarkSumFront(ring[..|ring| - 1]);
      assert ring[..|ring| - 1][1..] == ring[1..][..|ring| - 2];
    } else {
      assert ring[..0] == [];
    }
  }

  function FoldedRing(ring: seq<Mark>): seq<Mark>
    requires |ring| == SLOTS ==> ring[0].toa + ring[1].toa < MODULUS
  {
    if |ring| == SLOTS then FoldMarks(ring) else ring
  }

  /** A frame asked about at "at", on the air from start to end, recorded at done. */
  datatype Sending = Sending(at: int, est: u32, start: int, end: int, done: int)

  /** The ring's own sum has room for the frame. */
  ghost predicate Room(s: Station, f: Sending) {
    MarkSum(Ask(s, f.at).ring) + (f.end - f.start) < SUMS
  }

  /** transmit(): the wait was slept out, and the off-time after the frame fits the clock. */
  ghost predicate Waited(s: Station, f: Sending)
    requires Sane(s.gov.ppm)
  {
    && Timely(s, f.at)
    && f.est <= Budget(s.gov.ppm)
    && f.start >= f.at + Delay(s.gov, Wrap(f.at - s.boot), f.est)
    && f.start <= f.end <= f.done
    && f.end - f.start < REACH && OffTime(s.gov.ppm, f.end - f.start) < REACH
  }

  /**
    What a run supposes of a transmission.  Once a full ring has folded, its sum must also have room for
    it; before that RoomUntilFull proves it.
  */
  ghost predicate Obeyed(s: Station, f: Sending)
    requires Sane(s.gov.ppm)
  {
    Waited(s, f) && (s.full ==> Room(s, f))
  }

  /** While the ring has never been full the budget bounds its sum. */
  lemma RoomUntilFull(s: Station, f: Sending)
    requires Safe(s) && !s.full && Waited(s, f)
    ensures MarkSum(Ask(s, f.at).ring) <= Budget(s.gov.ppm) + LastOvershoot(s.log, f.at + 1)
    ensures Room(s, f) && Obeyed(s, f)
  {
    hide Prune, Trim, Read, Load, RingLoad, MarkSum, Budget, OffTime, Wrap, Admitted, Delay, LastOvershoot;
    AskKeepsSafe(s, f.at);
    RingLoadAll(Ask(s, f.at).ring, f.at - WINDOW);
    BudgetBound(s.gov.ppm);
    OvershootBound(s.gov.ppm, s.log, f.at + 1);
  }

  lemma {:induction false} OvershootBound(ppm: nat, log: seq<Frame>, t: int)
    requires ppm > 0 && Brief(ppm, log)
    ensures LastOvershoot(log, t) < REACH
  {
    hide OffTime;
    if |log| > 0 {
      OvershootBound(ppm, log[..|log| - 1], t);
    }
  }

  /** A frame that keeps to its estimate meets the condition on off-times by itself. */
  lemma WithinEstimateIsBrief(ppm: nat, est: u32, toa: u32)
    requires Sane(ppm) && toa <= est <= Budget(ppm)
    ensures toa < REACH && OffTime(ppm, toa) < REACH
  {
    hide OffTime;
    BudgetBound(ppm);
    OffTimeBound(ppm, toa, Budget(ppm));
    OffTimeOfBudget(ppm);
  }

  lemma OffTimeOfBudget(ppm: nat)
    requires Sane(ppm)
    ensures OffTime(ppm, Budget(ppm)) <= WINDOW
  {
    hide Budget;
    BudgetBound(ppm);
    DivAtMost(Budget(ppm) * 1_000_000, ppm, WINDOW);
  }

  lemma DivAtMost(a: nat, b: nat, q: nat)
    requires 0 < b && a <= q * b
    ensures a / b <= q
  {
    assert (a / b) * b <= a;
    if a / b > q {
      TimesMonotone(q + 1, a / b, b);
    }
  }

  lemma HasRoom(s: Station, f: Sending)
    requires Safe(s) && Obeyed(s, f)
    ensures Room(s, f)
  {
    hide Safe, Room, Budget, OffTime, Delay, Wrap;
    if !s.full {
      RoomUntilFull(s, f);
    }
  }

  lemma FoldFits(s: Station)
    requires Safe(s)
    ensures |s.ring| == SLOTS ==> s.ring[0].toa + s.ring[1].toa < MODULUS
  {
    if |s.ring| == SLOTS {
      MarkSumFront(s.ring);
      MarkSumFront(s.ring[1..]);
    }
  }

  ghost function Send(s: Station, f: Sending): Station
    requires Safe(s) && Obeyed(s, f)
  {
    AskKeepsSafe(s, f.at);
    FoldFits(Ask(s, f.at));
    var a := Ask(s, f.at);
    var toa: u32 := f.end - f.start;
    Station(Record(a.gov, Wrap(f.done - s.boot), toa), s.boot,
            FoldedRing(a.ring) + [Mark(f.done + toa, toa)],
            f.done + OffTime(s.gov.ppm, toa),
            f.at, f.done,
            s.log + [Frame(f.start, f.end, f.done + toa, f.est)],
            s.folded || |a.ring| == SLOTS,
            s.full || |a.ring| == SLOTS)
  }

  lemma FoldRead(ring: seq<Mark>, boot: int)
    requires |ring| >= 2 && ring[0].toa + ring[1].toa < MODULUS
    ensures Fold(Read(ring, boot)) == Read(FoldMarks(ring), boot)
  {
    hide Wrap;
    WrapSmall(ring[1].toa + ring[0].toa);
  }

  /** Recording on a ring that reads as the governor's leaves a ring that does. */
  lemma RecordReads(g: State, ring: seq<Mark>, boot: int, done: int, toa: u32)
    requires g.slots == Read(ring, boot) && |ring| <= SLOTS
    requires |ring| == SLOTS ==> ring[0].toa + ring[1].toa < MODULUS
    ensures Record(g, Wrap(done - boot), toa).slots == Read(FoldedRing(ring) + [Mark(done + toa, toa)], boot)
  {
    hide Wrap, OffTime, FoldMarks, Fold;
    if |ring| == SLOTS {
      FoldRead(ring, boot);
    }
    WrapWrap(done - boot, toa);
  }

  lemma RecordBlocks(g: State, boot: int, done: int, toa: u32)
    requires Sane(g.ppm) && OffTime(g.ppm, toa) < REACH
    ensures Record(g, Wrap(done - boot), toa).blocked == Wrap(done + OffTime(g.ppm, toa) - boot)
  {
    hide Wrap, OffTime;
    OffTimeBound(g.ppm, toa, toa);
    var off := OffTime(g.ppm, toa);
    WrapSmall(off - toa);
    WrapWrap(done - boot, off);
  }

  /** The ring after a recording, with or without a fold, reads as the governor's. */
  lemma SendReads(s: Station, f: Sending)
    requires Safe(s) && Obeyed(s, f)
    ensures Send(s, f).gov.slots == Read(Send(s, f).ring, s.boot)
    ensures Send(s, f).gov.blocked == Wrap(Send(s, f).free - s.boot)
  {
    hide Wrap, Prune, Trim, MarkSum, RingLoad, Load, Budget, OffTime, Admitted, Delay, Delta, Read, Covers, Record, FoldedRing;
    AskKeepsSafe(s, f.at);
    var a := Ask(s, f.at);
    FoldFits(a);
    RecordReads(a.gov, a.ring, s.boot, f.done, f.end - f.start);
    RecordBlocks(a.gov, s.boot, f.done, f.end - f.start);
  }

  /** Adding a frame to the log and its mark to a ring that covers it. */
  lemma CoversAppend(ring: seq<Mark>, log: seq<Frame>, f: Frame, m: Mark, x: int, folded: bool)
    requires |ring| == SLOTS ==> ring[0].toa + ring[1].toa < MODULUS
    requires Ordered(ring) && Covers(ring, log, x, folded)
    requires m.end == f.counted && m.toa == Airtime(f)
    ensures Covers(FoldedRing(ring) + [m], log + [f], x, folded || |ring| == SLOTS)
  {
    hide FoldedRing;
    FoldedLoad(ring, x);
    assert (FoldedRing(ring) + [m])[..|FoldedRing(ring) + [m]| - 1] == FoldedRing(ring);
    assert (log + [f])[..|log + [f]| - 1] == log;
  }

  lemma SumsAppend(ring: seq<Mark>, m: Mark)
    requires |ring| == SLOTS ==> ring[0].toa + ring[1].toa < MODULUS
    requires Ordered(ring)
    ensures MarkSum(FoldedRing(ring) + [m]) == MarkSum(ring) + m.toa
  {
    hide FoldedRing;
    FoldedLoad(ring, 0);
    assert (FoldedRing(ring) + [m])[..|FoldedRing(ring) + [m]| - 1] == FoldedRing(ring);
  }

  lemma AdmittedAppend(log: seq<Frame>, f: Frame, budget: int)
    requires Admitted(log, budget) && Load(log, f.start - WINDOW) + f.est <= budget
    ensures Admitted(log + [f], budget)
  {
    assert (log + [f])[..|log + [f]| - 1] == log;
  }

  /** The accounting of a recording: the ring still covers the log, and is bounded. */
  lemma SendCovers(s: Station, f: Sending)
    requires Safe(s) && Obeyed(s, f)
    ensures var t := Send(s, f);
      && (forall x :: t.asked - WINDOW <= x ==> Covers(t.ring, t.log, x, t.folded))
      && MarkSum(t.ring) < SUMS
      && Admitted(t.log, Budget(s.gov.ppm))
  {
    hide Wrap, Prune, Trim, Budget, OffTime, Delay, Delta, Read, Record, Load, RingLoad, MarkSum, Admitted, FoldedRing,
         Covers;
    AskKeepsSafe(s, f.at);
    DelaySuffices(s, f.at, f.est, f.start);
    var a, t := Ask(s, f.at), Send(s, f);
    FoldFits(a);
    HasRoom(s, f);
    var toa: u32 := f.end - f.start;
    var frame, mark := Frame(f.start, f.end, f.done + toa, f.est), Mark(f.done + toa, toa);
    forall x | f.at - WINDOW <= x ensures Covers(t.ring, t.log, x, t.folded) {
      assert Covers(a.ring, s.log, x, s.folded);
      CoversAppend(a.ring, s.log, frame, mark, x, s.folded);
    }
    SumsAppend(a.ring, mark);
    assert Covers(a.ring, s.log, f.start - WINDOW, s.folded);
    CoverBounds(a.ring, s.log, f.start - WINDOW, s.folded);
    AdmittedAppend(s.log, frame, Budget(s.gov.ppm));
  }

  lemma CoverBounds(ring: seq<Mark>, log: seq<Frame>, x: int, folded: bool)
    requires Covers(ring, log, x, folded)
    ensures Load(log, x) <= RingLoad(ring, x)
  {
  }

  lemma FoldedLoad(ring: seq<Mark>, x: int)
    requires Ordered(ring) && (|ring| == SLOTS ==> ring[0].toa + ring[1].toa < MODULUS)
    ensures RingLoad(ring, x) <= RingLoad(FoldedRing(ring), x)
    ensures |ring| != SLOTS ==> FoldedRing(ring) == ring
    ensures MarkSum(FoldedRing(ring)) == MarkSum(ring)
  {
    if |ring| == SLOTS {
      FoldLoad(ring, x);
    }
  }

  /** Folding keeps the order, and the ends that are left. */
  lemma FoldedEnds(ring: seq<Mark>)
    requires |ring| == SLOTS ==> ring[0].toa + ring[1].toa < MODULUS
    requires Ordered(ring) && |ring| <= SLOTS
    ensures var r := FoldedRing(ring);
      && |r| < SLOTS && |r| <= |ring| && Ordered(r)
      && forall i :: 0 <= i < |r| ==> r[i].end == ring[i + (|ring| - |r|)].end
  {
    hide FoldMarks;
    if |ring| == SLOTS {
      ShiftedOrdered(ring, FoldMarks(ring));
    }
  }

  lemma ShiftedOrdered(ring: seq<Mark>, r: seq<Mark>)
    requires Ordered(ring) && |r| + 1 == |ring| && forall i :: 0 <= i < |r| ==> r[i].end == ring[i + 1].end
    ensures Ordered(r)
  {
  }

  lemma SendOrdered(s: Station, f: Sending)
    requires Safe(s) && Obeyed(s, f)
    ensures var t := Send(s, f);
      && |t.ring| <= SLOTS && Ordered(t.ring)
      && (forall i :: 0 <= i < |t.ring| ==> t.asked - WINDOW < t.ring[i].end <= t.free)
      && (forall i :: 0 <= i < |t.ring| ==> t.ring[i].end < t.now + REACH)
      && t.free < t.now + HALF
  {
    hide Wrap, Prune, Trim, Budget, OffTime, Delay, Delta, Read, Record, Load, RingLoad, MarkSum, Admitted, Covers, FoldedRing;
    AskKeepsSafe(s, f.at);
    DelaySuffices(s, f.at, f.est, f.start);
    var a := Ask(s, f.at);
    FoldFits(a);
    FoldedEnds(a.ring);
    OffTimeBound(s.gov.ppm, f.end - f.start, f.end - f.start);
    // The off-time has passed, so no slot is later than the start of this frame.
    assert forall i :: 0 <= i < |a.ring| ==> a.ring[i].end <= f.done;
  }

  lemma SendBasics(s: Station, f: Sending)
    requires Safe(s) && Obeyed(s, f)
    ensures var t := Send(s, f);
      && t.gov.ppm == s.gov.ppm && t.boot == s.boot && t.asked <= t.now == f.done && WellTimed(t.log)
      && Sequential(t.log, t.now) && Brief(t.gov.ppm, t.log)
      && t.log == s.log + [t.log[|s.log|]] && t.log[|s.log|].start >= s.now
  {
    hide Wrap, Prune, Trim, Budget, OffTime, Delay, Delta, Read, Load, RingLoad, MarkSum, Admitted, Covers, FoldedRing;
  }

  /** While the ring has room for every frame, what it holds of the hour stays bounded. */
  lemma SendBounded(s: Station, f: Sending)
    requires Safe(s) && Obeyed(s, f)
    ensures var t := Send(s, f); t.full || HourBounded(t)
  {
    hide Wrap, Prune, Trim, Budget, OffTime, Delay, Delta, Read, Record, Load, MarkSum, Admitted, Covers, RingLoad, FoldMarks;
    AskKeepsSafe(s, f.at);
    DelaySuffices(s, f.at, f.est, f.start);
    var a, t := Ask(s, f.at), Send(s, f);
    if !t.full {
      var toa: u32 := f.end - f.start;
      assert t.ring == a.ring + [Mark(f.done + toa, toa)];
      SendBasics(s, f);
      NewestOvershoot(t.log, t.now, t.now + 1);
      assert t.log[|t.log| - 1] == Frame(f.start, f.end, f.done + toa, f.est);
      RingLoadMonotone(a.ring, f.start - WINDOW, f.done - WINDOW);
      RingLoadAppend(a.ring, Mark(f.done + toa, toa), f.done - WINDOW);
    }
  }

  lemma RingLoadAppend(ring: seq<Mark>, m: Mark, x: int)
    ensures RingLoad(ring + [m], x) <= RingLoad(ring, x) + m.toa
  {
    assert (ring + [m])[..|ring|] == ring;
  }

  lemma SendKeepsSafe(s: Station, f: Sending)
    requires Safe(s) && Obeyed(s, f)
    ensures Safe(Send(s, f))
  {
    hide Send, Wrap, Budget, OffTime, Read, MarkSum, Admitted, Covers, Ordered, WellTimed, HourBounded;
    SendBounded(s, f);
    SendReads(s, f);
    SendCovers(s, f);
    SendOrdered(s, f);
    SendBasics(s, f);
  }

  // ----- whole runs

  datatype Event = Question(at: int) | Transmission(f: Sending)

  function Fresh(ppm: nat, boot: int): Station {
    Station(State(ppm, [], 0, 0), boot, [], boot, boot, boot, [], false, false)
  }

  lemma FreshSafe(ppm: nat, boot: int)
    requires Sane(ppm)
    ensures Safe(Fresh(ppm, boot))
  {
    hide Budget, OffTime;
    WrapSmall(0);
  }

  ghost predicate Allowed(s: Station, e: Event)
    requires Safe(s)
  {
    match e
    case Question(at) => Timely(s, at)
    case Transmission(f) => Obeyed(s, f)
  }

  ghost function Step(s: Station, e: Event): (t: Station)
    requires Safe(s) && Allowed(s, e)
    ensures Safe(t) && t.gov.ppm == s.gov.ppm
  {
    match e
    case Question(at) => AskKeepsSafe(s, at); Ask(s, at)
    case Transmission(f) => SendKeepsSafe(s, f); SendBasics(s, f); Send(s, f)
  }

  /**
    t is where a run of events from s leads, each event allowed where it happens.  Nothing is supposed of
    the stations in between: Step keeps them safe.
  */
  ghost predicate Runs(s: Station, events: seq<Event>, t: Station)
    requires Safe(s)
    decreases |events|
  {
    if |events| == 0 then t == s
    else Allowed(s, events[0]) && Runs(Step(s, events[0]), events[1..], t)
  }

  /** A run that begins with a fresh governor. */
  ghost predicate RunsFrom(ppm: nat, boot: int, events: seq<Event>, t: Station)
    requires Sane(ppm)
  {
    FreshSafe(ppm, boot);
    Runs(Fresh(ppm, boot), events, t)
  }

  lemma {:induction false} RunsSafe(s: Station, events: seq<Event>, t: Station)
    requires Safe(s) && Runs(s, events, t)
    ensures Safe(t) && t.gov.ppm == s.gov.ppm
    decreases |events|
  {
    hide Safe, Step, Allowed;
    if |events| > 0 {
      RunsSafe(Step(s, events[0]), events[1..], t);
    }
  }

  /**
    The law.  Over every run of questions and transmissions, in every hour wherever it starts, the
    airtime is at most the budget plus what the newest frame started by then ran beyond its estimate.
  */
  lemma EveryHourWithinBudget(ppm: nat, boot: int, events: seq<Event>, t: Station)
    requires Sane(ppm) && RunsFrom(ppm, boot, events, t)
    ensures Lawful(t.log, Budget(ppm))
  {
    hide Runs, Budget, OffTime, Lawful, Read, RingLoad, Load, Wrap;
    FreshSafe(ppm, boot);
    RunsSafe(Fresh(ppm, boot), events, t);
    AdmittedObeysEveryHour(t.log, Budget(ppm));
  }

  /** The law in numbers: of 3,600,000 ms from anywhere, the station's share in millionths, and the newest frame's excess. */
  lemma NoHourOverItsShare(ppm: nat, boot: int, events: seq<Event>, t: Station, from: int)
    requires Sane(ppm) && RunsFrom(ppm, boot, events, t)
    ensures AirtimeBetween(t.log, from, from + 3_600_000)
            <= 3_600_000 * ppm / 1_000_000 + LastOvershoot(t.log, from + 3_600_000)
  {
    hide RunsFrom, AirtimeBetween, LastOvershoot, Budget;
    EveryHourWithinBudget(ppm, boot, events, t);
    BudgetBound(ppm);
    assert LawfulHour(t.log, Budget(ppm), from);
  }

  /** What transmit() does, with nothing supposed of the ring's sum. */
  ghost predicate Plain(s: Station, e: Event)
    requires Sane(s.gov.ppm)
  {
    match e
    case Question(at) => Timely(s, at)
    case Transmission(f) => Waited(s, f)
  }

  lemma PlainIsAllowed(s: Station, e: Event)
    requires Safe(s) && !s.full && Plain(s, e)
    ensures Allowed(s, e)
  {
    hide Safe, Waited, Room;
    match e
    case Question(_) =>
    case Transmission(f) => RoomUntilFull(s, f);
  }

  /** A run whose every event finds a ring that has never been full. */
  ghost predicate UnfilledRuns(s: Station, events: seq<Event>, t: Station)
    requires Safe(s)
    decreases |events|
  {
    if |events| == 0 then t == s
    else
      && !s.full && Plain(s, events[0])
      && (PlainIsAllowed(s, events[0]); UnfilledRuns(Step(s, events[0]), events[1..], t))
  }

  lemma {:induction false} UnfilledIsRun(s: Station, events: seq<Event>, t: Station)
    requires Safe(s) && UnfilledRuns(s, events, t)
    ensures Runs(s, events, t)
    decreases |events|
  {
    hide Safe, Step, Allowed, Plain;
    if |events| > 0 {
      UnfilledPlain(s, events, t);
      PlainIsAllowed(s, events[0]);
      UnfilledIsRun(Step(s, events[0]), events[1..], t);
    }
  }

  lemma UnfilledPlain(s: Station, events: seq<Event>, t: Station)
    requires Safe(s) && UnfilledRuns(s, events, t) && |events| > 0
    ensures Sane(s.gov.ppm) && !s.full && Plain(s, events[0])
  {
  }

  /** The law with no condition on sums at all, for runs that never fill the ring. */
  lemma EveryHourUntilFull(ppm: nat, boot: int, events: seq<Event>, t: Station)
    requires Sane(ppm)
    requires Safe(Fresh(ppm, boot)) && UnfilledRuns(Fresh(ppm, boot), events, t)
    ensures Lawful(t.log, Budget(ppm))
  {
    hide Safe, Lawful, Runs, UnfilledRuns;
    UnfilledIsRun(Fresh(ppm, boot), events, t);
    EveryHourWithinBudget(ppm, boot, events, t);
  }

  /** What a query reports: at least the true airtime of the hour, and exactly it until a fold. */
  lemma ReportedAirtime(s: Station, at: int)
    requires Safe(s) && Timely(s, at)
    ensures WindowAirtime(s.gov, Wrap(at - s.boot)) >= Load(s.log, at - WINDOW)
    ensures !s.folded ==> WindowAirtime(s.gov, Wrap(at - s.boot)) == Load(s.log, at - WINDOW)
  {
    hide Trim, Read, Load, RingLoad, MarkSum, Budget, OffTime, Wrap, Admitted, Prune, Sum, Delta;
    AskKeepsSafe(s, at);
    var ring := Ask(s, at).ring;
    PruneIsTrim(s.ring, s.boot, at);
    SumIsMarkSum(ring, s.boot, |ring|);
    assert ring[..|ring|] == ring;
    WrapSmall(MarkSum(ring));
    RingLoadAll(ring, at - WINDOW);
    assert Covers(ring, s.log, at - WINDOW, s.folded);
  }

  // ----- the limit of the promise

  /** A fresh governor grants any frame within the budget at once. */
  lemma FreshGrants(ppm: nat, boot: int, est: u32)
    requires Sane(ppm) && est <= Budget(ppm)
    ensures Delay(Fresh(ppm, boot).gov, Wrap(boot - boot), est) == 0
  {
    WrapSmall(0);
    WrapSmall(est);
  }

  /** A frame longer than the whole budget is not held back by the window rule at all. */
  lemma OversizeFrameNotHeld(s: Station, at: int, est: u32)
    requires Safe(s) && Timely(s, at) && Budget(s.gov.ppm) < est
    requires MarkSum(Ask(s, at).ring) + est < MODULUS
    ensures Delay(s.gov, Wrap(at - s.boot), est) == OffTimeWait(s.gov, Wrap(at - s.boot))
  {
    hide Trim, Read, Load, RingLoad, MarkSum, Budget, OffTime, Wrap, Admitted, Freeing, Prune, Sum, Delta;
    AskKeepsSafe(s, at);
    var ring := Ask(s, at).ring;
    PruneIsTrim(s.ring, s.boot, at);
    BudgetBound(s.gov.ppm);
    SumIsMarkSum(ring, s.boot, |ring|);
    assert ring[..|ring|] == ring;
    var used := MarkSum(ring);
    WrapSmall(used);
    WrapSmall(used + est);
    var need := used + est - Budget(s.gov.ppm);
    WrapSmall(need);
    FreeingFinds(ring, s.boot, need, 0);
    var q := Freeing(Read(ring, s.boot), need, 0);
    if q < |ring| {
      PrefixSum(ring, q + 1);
    }
  }

  /**
    So the bound on estimates in Obeyed is needed: any longer frame is granted at once by a fresh
    governor, and its hour is over budget.
  */
  lemma OversizeFrameBreaksTheHour(ppm: nat, boot: int, est: u32)
    requires Sane(ppm) && Budget(ppm) < est <= WINDOW
    ensures Delay(Fresh(ppm, boot).gov, Wrap(boot - boot), est) == 0
    ensures AirtimeBetween([Frame(boot, boot + est, boot + 2 * est, est)], boot, boot + WINDOW) > Budget(ppm)
  {
    hide Budget, OffTime, Delay, Safe;
    FreshSafe(ppm, boot);
    WrapSmall(0);
    OversizeFrameNotHeld(Fresh(ppm, boot), boot, est);
    assert [Frame(boot, boot + est, boot + 2 * est, est)][..0] == [];
  }

  /**
    blocked_until is never refreshed, so its reading is only good for half the clock's range: up to
    there the off-time wait is what is left of the off-time, and from there until the clock comes
    round again an idle station is held back for an off-time that ended long ago.
  */
  lemma OffTimeWaitExact(s: Station, at: int)
    requires Safe(s) && s.now <= at && at - s.free < MODULUS
    ensures OffTimeWait(s.gov, Wrap(at - s.boot)) == (if s.free > at then s.free - at else 0)
            <==> at - s.free <= HALF
  {
    hide Trim, Read, Load, RingLoad, MarkSum, Budget, OffTime, Wrap, Admitted, Delta, Sane;
    if at - s.free <= HALF {
      DeltaIsReal(s.free - s.boot, at - s.boot);
    } else {
      WrapShift(s.free - s.boot, 1);
      DeltaIsReal(s.free - s.boot + MODULUS, at - s.boot);
    }
  }
}
