/**
  What the governor's waits are, to the millisecond.  A frame is followed by an off-time of which, counted
  from the frame's record, the frame is the duty share; and no question is answered with a longer wait than
  the two rules ask for.
*/
module OffTimes {
  import opened Clock
  import opened Governor
  import opened DutyCycle
  import opened Reboot
  import opened Crashes

  // ----- the shortest wait

  lemma {:induction false} LoadOfSuffix(ring: seq<Mark>, n: nat, x: int)
    requires n <= |ring| && forall i :: n <= i < |ring| ==> ring[i].end > x
    ensures RingLoad(ring, x) >= MarkSum(ring) - MarkSum(ring[..n])
    decreases |ring|
  {
    if |ring| == n {
      assert ring[..n] == ring;
    } else {
      var m := |ring| - 1;
      assert ring[..m][..n] == ring[..n];
      LoadOfSuffix(ring[..m], n, x);
    }
  }

  /** The window rule's wait, as a time: the expiry of the first slot by which enough is freed. */
  lemma FreedNoSooner(ring: seq<Mark>, boot: int, est: u32, budget: u32, start: int)
    requires Ordered(ring) && est <= budget < MarkSum(ring) + est < MODULUS
    ensures var need := MarkSum(ring) + est - budget; var q := Freeing(Read(ring, boot), need, 0);
      && q < |ring| && (start < ring[q].end + WINDOW ==> RingLoad(ring, start - WINDOW) + est > budget)
  {
    hide Read, Freeing, RingLoad, MarkSum, Wrap;
    var need: u32 := MarkSum(ring) + est - budget;
    FreeingFinds(ring, boot, need, 0);
    EmptySum();
    var q := Freeing(Read(ring, boot), need, 0);
    assert q < |ring|;
    if start < ring[q].end + WINDOW {
      assert ring[..0] == [];
      LoadOfSuffix(ring, q, start - WINDOW);
    }
  }

  /** What the window rule adds to the wait. */
  lemma DelayIs(s: Station, at: int, est: u32)
    requires Safe(s) && Timely(s, at) && est <= Budget(s.gov.ppm)
    ensures var now := Wrap(at - s.boot); var ring := Ask(s, at).ring; var budget := Budget(s.gov.ppm);
      && MarkSum(ring) + est < MODULUS
      && if MarkSum(ring) + est <= budget then Delay(s.gov, now, est) == OffTimeWait(s.gov, now)
         else var q := Freeing(Read(ring, s.boot), MarkSum(ring) + est - budget, 0);
              && q < |ring|
              && (Delay(s.gov, now, est) == OffTimeWait(s.gov, now)
                  || Delay(s.gov, now, est) == ring[q].end + WINDOW - at)
  {
    hide Trim, Read, Load, RingLoad, MarkSum, Budget, OffTime, Wrap, Admitted, Freeing, Prune, Sum, Delta, OffTimeWait;
    var now := Wrap(at - s.boot);
    var ring := Ask(s, at).ring;
    PruneIsTrim(s.ring, s.boot, at);
    AskKeepsSafe(s, at);
    BudgetBound(s.gov.ppm);
    SumIsMarkSum(ring, s.boot, |ring|);
    assert ring[..|ring|] == ring;
    WrapSmall(MarkSum(ring));
    WrapSmall(MarkSum(ring) + est);
    if MarkSum(ring) + est > Budget(s.gov.ppm) {
      var need := MarkSum(ring) + est - Budget(s.gov.ppm);
      WrapSmall(need);
      FreedNoSooner(ring, s.boot, est, Budget(s.gov.ppm), at);
      var q := Freeing(Read(ring, s.boot), need, 0);
      WrapWrap(ring[q].end - s.boot, WINDOW);
      DeltaIsReal(ring[q].end - s.boot + WINDOW, at - s.boot);
    }
  }

  /**
    No wait is longer than it must be: before it is over either the off-time is not, or the hour has no room
    for the frame.  With DelaySuffices the wait is exact, as long as the off-time's end can be told from times to come.
  */
  lemma WaitIsLeast(s: Station, at: int, est: u32, start: int)
    requires Safe(s) && Timely(s, at) && est <= Budget(s.gov.ppm) && at - s.free <= HALF
    requires at <= start < at + Delay(s.gov, Wrap(at - s.boot), est)
    ensures start < s.free || RingLoad(Ask(s, at).ring, start - WINDOW) + est > Budget(s.gov.ppm)
  {
    hide Trim, Read, Load, RingLoad, MarkSum, Budget, OffTime, Wrap, Admitted, Freeing, Prune, Sum, Delta, Delay, OffTimeWait,
         LastOvershoot;
    DelayIs(s, at, est);
    OffTimeWaitExact(s, at);
    var ring := Ask(s, at).ring;
    AskKeepsSafe(s, at);
    BudgetBound(s.gov.ppm);
    if MarkSum(ring) + est > Budget(s.gov.ppm) {
      FreedNoSooner(ring, s.boot, est, Budget(s.gov.ppm), start);
    }
  }

  /** The wait as one condition on the start, for every start from the question on. */
  lemma WaitIsExact(s: Station, at: int, est: u32, start: int)
    requires Safe(s) && Timely(s, at) && est <= Budget(s.gov.ppm) && at - s.free <= HALF && at <= start
    ensures start >= at + Delay(s.gov, Wrap(at - s.boot), est)
            <==> start >= s.free && RingLoad(Ask(s, at).ring, start - WINDOW) + est <= Budget(s.gov.ppm)
  {
    hide Safe, RingLoad, Budget, Wrap, Delay, Ask;
    if start >= at + Delay(s.gov, Wrap(at - s.boot), est) {
      DelaySuffices(s, at, est, start);
    } else {
      WaitIsLeast(s, at, est, start);
    }
  }

  // ----- the off-time

  /** When a frame was recorded. */
  function Done(f: Frame): int {
    f.counted - Airtime(f)
  }

  /** By "at" the off-time after f is over: up to the millisecond f is the duty share of the time since its record. */
  predicate Rested(ppm: nat, f: Frame, at: int) {
    f.end <= Done(f) <= at && Airtime(f) * 1_000_000 < ppm * (at - Done(f) + 1)
  }

  /** Each frame waited for the off-time of the one before. */
  ghost predicate Spaced(ppm: nat, log: seq<Frame>) {
    forall i :: 0 <= i < |log| - 1 ==> Rested(ppm, log[i], log[i + 1].start)
  }

  ghost predicate Resting(s: Station) {
    Spaced(s.gov.ppm, s.log) && (|s.log| > 0 ==> Rested(s.gov.ppm, s.log[|s.log| - 1], s.free))
  }

  /** Sending a frame of toa sets the off-time, and the clock reading of its end. */
  lemma SendSetsOffTime(s: Station, f: Sending)
    requires Safe(s) && Obeyed(s, f)
    ensures var t := Send(s, f); var toa, off := f.end - f.start, t.free - f.done;
      && 0 <= off && s.gov.ppm * off <= toa * 1_000_000 < s.gov.ppm * (off + 1)
      && t.gov.blocked == Wrap(t.free - s.boot)
      && t.log == s.log + [t.log[|s.log|]] && Airtime(t.log[|s.log|]) == toa && Done(t.log[|s.log|]) == f.done
      && t.log[|s.log|].start == f.start && t.log[|s.log|].end == f.end
  {
    hide Wrap, Prune, Trim, Budget, OffTime, Delay, Delta, Read, Load, RingLoad, MarkSum, Admitted, Covers, FoldedRing, Record,
         LastOvershoot, Room;
    SendReads(s, f);
    OffTimeShare(s.gov.ppm, f.end - f.start);
  }

  lemma RestedLater(ppm: nat, f: Frame, at: int, later: int)
    requires Rested(ppm, f, at) && at <= later
    ensures Rested(ppm, f, later)
  {
    TimesMonotone(at - Done(f) + 1, later - Done(f) + 1, ppm);
  }

  lemma SpacedAppend(ppm: nat, log: seq<Frame>, f: Frame)
    requires Spaced(ppm, log) && (|log| > 0 ==> Rested(ppm, log[|log| - 1], f.start))
    ensures Spaced(ppm, log + [f])
  {
    hide Rested;
  }

  lemma SendRests(s: Station, f: Sending)
    requires Safe(s) && Obeyed(s, f) && Resting(s)
    ensures Resting(Send(s, f))
  {
    hide Safe, Budget, OffTime, Delay, Wrap, RingLoad, Send, Room, Rested;
    SendSetsOffTime(s, f);
    SendBasics(s, f);
    DelaySuffices(s, f.at, f.est, f.start);
    var t := Send(s, f);
    var frame := t.log[|s.log|];
    if |s.log| > 0 {
      RestedLater(s.gov.ppm, s.log[|s.log| - 1], s.free, f.start);
    }
    SpacedAppend(s.gov.ppm, s.log, frame);
    RestedAfter(s.gov.ppm, frame, t.free);
  }

  lemma RestedAfter(ppm: nat, f: Frame, free: int)
    requires f.end <= Done(f) <= free && Airtime(f) * 1_000_000 < ppm * (free - Done(f) + 1)
    ensures Rested(ppm, f, free)
  {
  }

  lemma StepRests(s: Station, e: Event)
    requires Safe(s) && Allowed(s, e) && Resting(s)
    ensures Resting(Step(s, e))
  {
    hide Safe, Send, Prune, Trim, Obeyed, Rested, Spaced;
    match e
    case Question(at) =>
    case Transmission(f) => SendRests(s, f);
  }

  lemma {:induction false} RunsRest(s: Station, events: seq<Event>, t: Station)
    requires Safe(s) && Resting(s) && DutyCycle.Runs(s, events, t)
    ensures Resting(t) && t.gov.ppm == s.gov.ppm
    decreases |events|
  {
    hide Safe, Step, Allowed, Resting;
    if |events| > 0 {
      StepRests(s, events[0]);
      RunsRest(Step(s, events[0]), events[1..], t);
    }
  }

  /** Over every run, each frame is followed by its off-time before the next one starts. */
  lemma EveryFrameRests(ppm: nat, boot: int, events: seq<Event>, t: Station)
    requires Sane(ppm) && DutyCycle.RunsFrom(ppm, boot, events, t)
    ensures Spaced(ppm, t.log)
  {
    hide Safe, DutyCycle.Runs;
    FreshSafe(ppm, boot);
    RunsRest(Fresh(ppm, boot), events, t);
  }

  function SpanAirtime(log: seq<Frame>, i: nat, j: nat): int
    requires i <= j <= |log|
  {
    if i == j then 0 else SpanAirtime(log, i, j - 1) + Airtime(log[j - 1])
  }

  /**
    So from the start of any frame to the start of any later one the airtime is at most the duty share of the
    time, give or take a millisecond to a frame.
  */
  lemma {:induction false} DutyShare(ppm: nat, log: seq<Frame>, i: nat, j: nat)
    requires WellTimed(log) && Spaced(ppm, log) && i <= j < |log|
    ensures SpanAirtime(log, i, j) * 1_000_000 <= ppm * (log[j].start - log[i].start + (j - i))
    decreases j
  {
    hide Rested;
    if i < j {
      DutyShare(ppm, log, i, j - 1);
      var f, next := log[j - 1], log[j - 1 + 1];
      assert Rested(ppm, f, next.start);
      RestedShare(ppm, f, next.start);
      SharesAdd(ppm, f.start - log[i].start + (j - 1 - i), next.start - f.start + 1);
    }
  }

  lemma RestedShare(ppm: nat, f: Frame, next: int)
    requires Rested(ppm, f, next) && f.start <= f.end
    ensures Airtime(f) * 1_000_000 <= ppm * (next - f.start + 1)
  {
    TimesMonotone(next - Done(f) + 1, next - f.start + 1, ppm);
  }

  lemma SharesAdd(ppm: nat, x: int, y: int)
    ensures ppm * x + ppm * y == ppm * (x + y)
  {
  }

  // ----- the total

  /** The total is the airtime of everything sent, modulo 2^32. */
  ghost predicate Totals(s: Station) {
    exists turns :: SpanAirtime(s.log, 0, |s.log|) == s.gov.total + turns * 0x1_0000_0000
  }

  lemma {:induction false} SpanAppend(log: seq<Frame>, f: Frame, j: nat)
    requires j <= |log|
    ensures SpanAirtime(log + [f], 0, j) == SpanAirtime(log, 0, j)
  {
    if j > 0 {
      SpanAppend(log, f, j - 1);
    }
  }

  lemma SendTotals(s: Station, f: Sending)
    requires Safe(s) && Obeyed(s, f) && Totals(s)
    ensures Totals(Send(s, f))
  {
    hide Safe, Budget, OffTime, Delay, RingLoad, Room, Prune, Trim, FoldedRing, Read, Obeyed;
    SendSetsOffTime(s, f);
    var t, toa := Send(s, f), f.end - f.start;
    SpanAppend(s.log, t.log[|s.log|], |s.log|);
    var turns :| SpanAirtime(s.log, 0, |s.log|) == s.gov.total + turns * 0x1_0000_0000;
    var more := (s.gov.total + toa) / 0x1_0000_0000;
    assert s.gov.total + toa == t.gov.total + more * 0x1_0000_0000;
    assert SpanAirtime(t.log, 0, |t.log|) == t.gov.total + (turns + more) * 0x1_0000_0000;
  }

  lemma {:induction false} RunsTotal(s: Station, events: seq<Event>, t: Station)
    requires Safe(s) && Totals(s) && DutyCycle.Runs(s, events, t)
    ensures Totals(t)
    decreases |events|
  {
    hide Safe, Step, Allowed, Totals;
    if |events| > 0 {
      StepTotals(s, events[0]);
      RunsTotal(Step(s, events[0]), events[1..], t);
    }
  }

  lemma StepTotals(s: Station, e: Event)
    requires Safe(s) && Allowed(s, e) && Totals(s)
    ensures Totals(Step(s, e))
  {
    hide Safe, Send, Prune, Trim, Obeyed, SpanAirtime;
    match e
    case Question(at) =>
    case Transmission(f) => SendTotals(s, f);
  }

  /** What the governor reports as its total is, over every run, all the airtime there was. */
  lemma TotalIsEverySent(ppm: nat, boot: int, events: seq<Event>, t: Station)
    requires Sane(ppm) && DutyCycle.RunsFrom(ppm, boot, events, t)
    ensures Totals(t)
  {
    hide Safe, DutyCycle.Runs;
    FreshSafe(ppm, boot);
    assert SpanAirtime([], 0, 0) == 0 + 0 * 0x1_0000_0000;
    RunsTotal(Fresh(ppm, boot), events, t);
  }

  // ----- across reboots

  ghost predicate WorldRests(w: World) {
    Resting(w.station) && (w.saved.Whole? ==> Resting(w.saved.of))
  }

  /** A restored station rests at least as long. */
  lemma BackRests(t: Station, away: u32, back: int, boot: int)
    requires JustAsked(t) && back >= t.now + away && Resting(t)
    ensures Resting(Back(t, away, back, boot))
  {
    hide Safe, Rested, OffTimeWait, BackRing, Spaced;
    SafeOf(t);
    BlockIsReal(t);
    BackReads(t, away, back, boot);
    var b := Back(t, away, back, boot);
    if |t.log| > 0 {
      RestedLater(t.gov.ppm, t.log[|t.log| - 1], t.free, b.free);
    }
  }

  lemma SafeOf(t: Station)
    requires JustAsked(t)
    ensures Safe(t)
  {
    hide Safe;
  }

  lemma HappenRests(w: World, h: Happening)
    requires Sound(w) && Safe(w.station) && Possible(w, h) && WorldRests(w)
    ensures WorldRests(Happen(w, h))
  {
    hide Safe, Refused, Mirrored, Sequential, WellTimed, Recent, Step, Back, TornMemory, Allowed, JustAsked, Wrap, Rested,
         Spaced, Prune, Trim;
    PossibleMeans(w, h);
    match h
    case Ordinary(e) => StepRests(w.station, e);
    case Mirror(_, _) =>
    case TornMirror(_, _, _, back) => FreshRests(w.station.gov.ppm, back);
    case Restart(at, boot) =>
      FreshRests(w.station.gov.ppm, at);
      if w.saved.Whole? {
        SavedAsked(w);
        BackRests(w.saved.of, w.rtc.away, at, boot);
      }
  }

  lemma FreshRests(ppm: nat, boot: int)
    ensures Resting(Fresh(ppm, boot))
  {
  }

  lemma SavedAsked(w: World)
    requires Sound(w) && w.saved.Whole?
    ensures JustAsked(w.saved.of)
  {
    hide Safe, Refused, Mirrored, JustAsked, Recent, Sequential;
  }

  lemma {:induction false} RunsRestAcrossReboots(w: World, hs: seq<Happening>, v: World)
    requires Sound(w) && WorldRests(w) && Crashes.Runs(w, hs, v)
    ensures WorldRests(v) && v.station.gov.ppm == w.station.gov.ppm
    decreases |hs|
  {
    hide Sound, Possible, Happen, WorldRests;
    SoundIsSafe(w);
    if |hs| > 0 {
      HappenRests(w, hs[0]);
      RunsRestAcrossReboots(Happen(w, hs[0]), hs[1..], v);
    }
  }

  /** Over every run with crashes anywhere, the frames since the last forgetting keep their off-times. */
  lemma EveryFrameRestsAcrossReboots(ppm: nat, boot: int, rtc: Rtc, hs: seq<Happening>, v: World)
    requires Sane(ppm) && Refused(rtc)
    requires Sound(New(ppm, boot, rtc)) && Crashes.Runs(New(ppm, boot, rtc), hs, v)
    ensures Spaced(ppm, v.station.log)
  {
    hide Sound, Crashes.Runs, Refused;
    RunsRestAcrossReboots(New(ppm, boot, rtc), hs, v);
  }

  /** A board back exactly when its mirror said owes no more and no less off-time than before. */
  lemma PunctualReturnOwesTheSame(t: Station, away: u32, back: int, boot: int)
    requires JustAsked(t) && back == t.now + away && t.now - t.free <= HALF
    ensures var b := Back(t, away, back, boot);
      if t.free > back then b.free == t.free else b.free == back
  {
    hide Safe, OffTimeWait, BackRing;
    SafeOf(t);
    OffTimeWaitExact(t, t.now);
  }
}
