/**
  The duty cycle across reboots.  The board mirrors the governor into memory that survives a reset,
  with how long it is about to be away; at start-up it restores whatever the mirror holds.  A crash
  loses everything else.  Frames recorded since the last whole mirror are forgotten by both sides; for
  all others the rolling hour still holds, unless a crash tears the mirror itself.  Then the hour is
  forgotten, and the law holds from there on if and only if the station had been silent long enough.
*/
module Reboot {
  import opened Clock
  import opened Bytes
  import opened Governor
  import opened DutyCycle
  import S = Snapshot

  const BUDGET_MAGIC: u32 := 0x4C495442

  type Buffer = p: seq<byte> | |p| == S.STATE_MAX witness seq(S.STATE_MAX, _ => 0)

  /** The structure in reset-proof memory. */
  datatype Rtc = Rtc(magic: u32, crc: u32, away: u32, len: u32, blob: Buffer)

  function Checked(away: u32, len: u32, blob: seq<byte>): u32 {
    S.CrcWord(S.Put32(away) + S.Put32(len) + blob)
  }

  /** budget_mirror, over whatever the memory held. */
  function Mirrored(m: Rtc, g: State, now: u32, away: u32): (r: Rtc)
    ensures r.away == away
  {
    var p := S.Export(g, now);
    Rtc(BUDGET_MAGIC, Checked(away, |p|, p), away, |p|, p + m.blob[|p|..])
  }

  /** budget_restore, into a governor just initialised. */
  function RestoredState(m: Rtc, g: State, now: u32): State {
    if m.magic != BUDGET_MAGIC then g
    else if m.len == 0 || m.len > S.STATE_MAX then g
    else if m.crc != Checked(m.away, m.len, m.blob[..m.len]) then g
    else S.Import(g, now, m.blob[..m.len], m.away)
  }

  /** Memory that budget_restore turns away: no magic, no length, no checksum, or no snapshot. */
  predicate Refused(m: Rtc) {
    || m.magic != BUDGET_MAGIC
    || m.len == 0 || m.len > S.STATE_MAX
    || m.crc != Checked(m.away, m.len, m.blob[..m.len])
    || !S.Readable(m.blob[..m.len])
  }

  /** Memory is believed only with the magic number, a length the blob can have and the right checksum. */
  lemma BelievedOnlyWhole(m: Rtc, g: State, now: u32)
    ensures m.magic != 0x4C495442 || m.len == 0 || m.len > 1040
            || m.crc != S.CrcWord(S.Put32(m.away) + S.Put32(m.len) + m.blob[..m.len])
            ==> RestoredState(m, g, now) == g
    ensures Refused(m) ==> RestoredState(m, g, now) == g
  {
    hide S.CrcWord, S.Put32, S.Readable;
  }

  // ----- what a restored ring stands for

  function Shifted(ring: seq<Mark>, later: int): (r: seq<Mark>)
    ensures |r| == |ring|
    ensures forall i :: 0 <= i < |ring| ==> r[i] == Mark(ring[i].end + later, ring[i].toa)
  {
    seq(|ring|, i requires 0 <= i < |ring| => Mark(ring[i].end + later, ring[i].toa))
  }

  /** The marks behind an exported snapshot: those skipped are folded onto the first one kept. */
  function FoldedMarks(ring: seq<Mark>): (r: seq<Mark>)
    requires MarkSum(ring) < MODULUS
  {
    var skip := S.Skipped(|ring|);
    if skip == 0 then ring
    else
      KeptFits(ring, skip);
      [Mark(ring[skip].end, ring[skip].toa + MarkSum(ring[..skip]))] + ring[skip + 1..]
  }

  lemma KeptFits(ring: seq<Mark>, skip: nat)
    requires skip < |ring| && MarkSum(ring) < MODULUS
    ensures ring[skip].toa + MarkSum(ring[..skip]) < MODULUS
  {
    PrefixSum(ring, skip + 1);
    assert ring[..skip + 1][..skip] == ring[..skip];
  }

  lemma {:induction false} SplitLoad(a: seq<Mark>, b: seq<Mark>, x: int)
    ensures RingLoad(a + b, x) == RingLoad(a, x) + RingLoad(b, x)
    ensures MarkSum(a + b) == MarkSum(a) + MarkSum(b)
  {
    if |b| == 0 {
      assert a + b == a;
    } else {
      assert (a + b)[..|a + b| - 1] == a + b[..|b| - 1];
      SplitLoad(a, b[..|b| - 1], x);
    }
  }

  lemma FoldedMarksLoad(ring: seq<Mark>, x: int)
    requires MarkSum(ring) < MODULUS && Ordered(ring)
    ensures RingLoad(ring, x) <= RingLoad(FoldedMarks(ring), x)
    ensures MarkSum(FoldedMarks(ring)) == MarkSum(ring)
    ensures Ordered(FoldedMarks(ring))
    ensures forall i :: 0 <= i < |FoldedMarks(ring)| ==>
              FoldedMarks(ring)[i].end == ring[S.Skipped(|ring|) + i].end
  {
    hide RingLoad, MarkSum;
    var skip := S.Skipped(|ring|);
    if skip > 0 {
      KeptFits(ring, skip);
      var first, rest := ring[..skip], ring[skip + 1..];
      var kept, merged := [ring[skip]], [Mark(ring[skip].end, ring[skip].toa + MarkSum(first))];
      assert ring == first + kept + rest;
      SplitLoad(first + kept, rest, x);
      SplitLoad(first, kept, x);
      SplitLoad(merged, rest, x);
      SingleLoad(ring[skip], x);
      SingleLoad(merged[0], x);
      RingLoadMonotone(first, x, x);
      if ring[skip].end <= x {
        NothingLeft(first, x);
      }
    }
  }

  lemma SingleLoad(m: Mark, x: int)
    ensures RingLoad([m], x) == if m.end > x then m.toa else 0
    ensures MarkSum([m]) == m.toa
  {
    assert [m][..0] == [];
  }

  /** Moving every end later by a non-negative time keeps everything accounted for. */
  lemma {:induction false} ShiftedLoad(ring: seq<Mark>, later: int, x: int)
    requires later >= 0
    ensures RingLoad(ring, x) <= RingLoad(Shifted(ring, later), x)
    ensures later == 0 ==> Shifted(ring, later) == ring
    ensures MarkSum(Shifted(ring, later)) == MarkSum(ring)
  {
    if |ring| > 0 {
      var m := |ring| - 1;
      ShiftedLoad(ring[..m], later, x);
      assert Shifted(ring, later)[..m] == Shifted(ring[..m], later);
    }
  }

  lemma {:induction false} TrimSum(ring: seq<Mark>, x: int)
    ensures MarkSum(Trim(ring, x)) <= MarkSum(ring)
  {
    if |ring| > 0 && ring[0].end <= x {
      TrimSum(ring[1..], x);
      MarkSumFront(ring);
    }
  }

  /** What a snapshot of this station, taken at "at", stands for when read back at a later time. */
  function BackRing(ring: seq<Mark>, at: int, away: u32, back: int): seq<Mark>
    requires MarkSum(ring) < MODULUS
  {
    Trim(Shifted(FoldedMarks(ring), back - at - away), back - WINDOW)
  }

  // ----- reading a snapshot back

  lemma SignedWrap(d: int)
    requires -HALF <= d < HALF
    ensures S.Signed(Wrap(d)) == d
  {
    hide Wrap;
    if d >= 0 {
      WrapSmall(d);
    } else {
      WrapShift(d, 1);
      WrapSmall(d + MODULUS);
    }
  }

  /** Entry i of an exported snapshot is the age and airtime of mark i of the folded ring. */
  lemma EntryIsMark(ring: seq<Mark>, boot: int, at: int, i: nat)
    requires MarkSum(ring) < MODULUS && i < |ring| - S.Skipped(|ring|)
    requires forall j :: 0 <= j < |ring| ==> -HALF <= at - ring[j].end < HALF
    ensures S.EntryAt(Read(ring, boot), Wrap(at - boot), S.Skipped(|ring|) + i)
            == S.Entry(Wrap(at - FoldedMarks(ring)[i].end), FoldedMarks(ring)[i].toa)
  {
    hide Wrap, Delta, Read, MarkSum, Sum, FoldedMarks;
    var skip := S.Skipped(|ring|);
    var j := skip + i;
    DeltaIsReal(at - boot, ring[j].end - boot);
    FoldedMarkAt(ring, i);
    WrapSmall(ring[j].toa);
    KeptFits(ring, skip);
    SumIsMarkSum(ring, boot, skip);
    WrapSmall(MarkSum(ring[..skip]));
    WrapSmall(ring[skip].toa + MarkSum(ring[..skip]));
  }

  lemma FoldedMarkAt(ring: seq<Mark>, i: nat)
    requires MarkSum(ring) < MODULUS && i < |ring| - S.Skipped(|ring|)
    ensures |FoldedMarks(ring)| == |ring| - S.Skipped(|ring|)
    ensures var skip := S.Skipped(|ring|);
      && FoldedMarks(ring)[i].end == ring[skip + i].end
      && FoldedMarks(ring)[i].toa == ring[skip + i].toa + if i == 0 then MarkSum(ring[..skip]) else 0
  {
    if S.Skipped(|ring|) == 0 {
      assert ring[..0] == [];
    }
  }

  lemma ReadAppend(ring: seq<Mark>, m: Mark, boot: int)
    ensures Read(ring + [m], boot) == Read(ring, boot) + [Slot(Wrap(m.end - boot), m.toa)]
  {
    hide Wrap;
  }

  lemma {:induction false} TrimAppend(ring: seq<Mark>, m: Mark, x: int)
    requires Ordered(ring + [m])
    ensures Trim(ring + [m], x) == if m.end > x then Trim(ring, x) + [m] else Trim(ring, x)
  {
    if |ring| == 0 {
      assert ring + [m] == [m];
      assert [m][1..] == [];
    } else {
      assert (ring + [m])[0] == ring[0] && (ring + [m])[|ring|] == m;
      if ring[0].end <= x {
        assert (ring + [m])[1..] == ring[1..] + [m];
        TrimAppend(ring[1..], m, x);
      }
    }
  }

  /** Reading entries that stand for these marks gives the marks, moved by the extra time away and trimmed. */
  lemma {:induction false} RestoredIsTrim(p: seq<byte>, marks: seq<Mark>, at: int, away: u32, back: int, boot: int, n: nat)
    requires n <= |marks| && S.HDR + S.ENTRY * |marks| <= |p| && Ordered(marks)
    requires forall i :: 0 <= i < |marks| ==> -HALF <= at - marks[i].end < HALF
    requires forall i :: 0 <= i < |marks| ==>
               S.Get32(p, S.HDR + S.ENTRY * i) == Wrap(at - marks[i].end)
               && S.Get32(p, S.HDR + S.ENTRY * i + 4) == marks[i].toa
    ensures S.Restored(p, Wrap(back - boot), away, n)
            == Read(Trim(Shifted(marks, back - at - away)[..n], back - WINDOW), boot)
  {
    hide Wrap, S.Get32, S.Signed, S.Restored, Trim, Read;
    var moved := Shifted(marks, back - at - away);
    if n == 0 {
      assert moved[..0] == [];
      TrimNothing(back - WINDOW, boot);
      RestoredNothing(p, Wrap(back - boot), away);
    } else {
      RestoredIsTrim(p, marks, at, away, back, boot, n - 1);
      var last := moved[n - 1];
      RestoredStep(p, marks[n - 1], at, away, back, boot, n);
      assert moved[..n] == moved[..n - 1] + [last];
      OrderedFront(moved, n);
      TrimAppend(moved[..n - 1], last, back - WINDOW);
      ReadAppend(Trim(moved[..n - 1], back - WINDOW), last, boot);
    }
  }

  lemma RestoredNothing(p: seq<byte>, now: u32, away: u32)
    requires S.HDR <= |p|
    ensures S.Restored(p, now, away, 0) == []
  {
  }

  lemma OrderedFront(ring: seq<Mark>, n: nat)
    requires Ordered(ring) && n <= |ring|
    ensures Ordered(ring[..n])
  {
  }

  /** One entry read: the mark it stands for, moved by the extra time away, unless that has left the hour. */
  lemma RestoredStep(p: seq<byte>, mark: Mark, at: int, away: u32, back: int, boot: int, n: nat)
    requires n > 0 && S.HDR + S.ENTRY * n <= |p| && -HALF <= at - mark.end < HALF
    requires S.Get32(p, S.HDR + S.ENTRY * (n - 1)) == Wrap(at - mark.end)
    requires S.Get32(p, S.HDR + S.ENTRY * (n - 1) + 4) == mark.toa
    ensures var before, moved := S.Restored(p, Wrap(back - boot), away, n - 1), mark.end + (back - at - away);
      S.Restored(p, Wrap(back - boot), away, n)
      == if moved > back - WINDOW then before + [Slot(Wrap(moved - boot), mark.toa)] else before
  {
    hide Wrap, S.Get32, S.Signed;
    SignedWrap(at - mark.end);
    var aged := at - mark.end + away;
    WrapWrap(back - boot, -aged);
  }

  lemma TrimNothing(x: int, boot: int)
    ensures Read(Trim([], x), boot) == []
  {
  }

  lemma TrimAll(ring: seq<Mark>, x: int)
    requires forall i :: 0 <= i < |ring| ==> ring[i].end > x
    ensures Trim(ring, x) == ring
  {
  }

  /** A mirror is accepted by the restore, and what it holds is the exported blob. */
  lemma MirrorAccepted(m: Rtc, g: State, now: u32, away: u32, empty: State, later: u32)
    ensures !Refused(Mirrored(m, g, now, away))
    ensures RestoredState(Mirrored(m, g, now, away), empty, later) == S.Import(empty, later, S.Export(g, now), away)
  {
    hide S.Export, S.Import, S.Readable, S.CrcWord, S.Put32;
    var p := S.Export(g, now);
    assert Mirrored(m, g, now, away).blob[..|p|] == p;
    S.ExportReadable(g, now);
  }

  /** Refused memory leaves a governor just initialised as it is. */
  lemma RefusedForgets(m: Rtc, g: State, now: u32)
    ensures Refused(m) ==> RestoredState(m, g, now) == g
  {
    hide Checked, S.Readable;
  }

  /** The governor just mirrored: what it pruned is gone, and the clock is good for every slot. */
  ghost predicate JustAsked(t: Station) {
    Safe(t) && t.asked == t.now
  }

  function BlockLeft(t: Station): nat {
    OffTimeWait(t.gov, Wrap(t.now - t.boot))
  }

  /** The station as it comes up again at "back" from the mirror taken of t. */
  ghost function Back(t: Station, away: u32, back: int, boot: int): Station
    requires JustAsked(t)
  {
    Station(S.Import(State(t.gov.ppm, [], 0, 0), Wrap(back - boot), S.Export(t.gov, Wrap(t.now - t.boot)), away),
            boot,
            BackRing(t.ring, t.now, away, back),
            if BlockLeft(t) > away then back + BlockLeft(t) - away else back,
            back, back, t.log,
            t.folded || |t.ring| > S.MAX_ENTRIES || back - t.now > away,
            t.full)
  }

  /** The exported blob lists the folded marks. */
  lemma BlobHoldsMarks(t: Station)
    requires JustAsked(t)
    ensures var p, marks := S.Export(t.gov, Wrap(t.now - t.boot)), FoldedMarks(t.ring);
      && S.Readable(p) && S.Get32(p, 8) == |marks| && |p| >= S.HDR + S.ENTRY * |marks|
      && S.Get32(p, 12) == t.gov.total && S.Get32(p, 16) == BlockLeft(t)
      && forall i :: 0 <= i < |marks| ==>
           S.Get32(p, S.HDR + S.ENTRY * i) == Wrap(t.now - marks[i].end)
           && S.Get32(p, S.HDR + S.ENTRY * i + 4) == marks[i].toa
  {
    hide Wrap, Delta, Read, MarkSum, RingLoad, Load, Trim, Prune, FoldedMarks, OffTimeWait, Sane, Admitted, Covers,
         S.Export, S.Readable, S.Entries, S.EntryAt, S.Get32;
    var now := Wrap(t.now - t.boot);
    S.ExportReadable(t.gov, now);
    PruneIsTrim(t.ring, t.boot, t.now);
    TrimAll(t.ring, t.now - WINDOW);
    FoldedSize(t.ring);
    var p, marks := S.Export(t.gov, now), FoldedMarks(t.ring);
    var e := S.Entries(Read(t.ring, t.boot), now);
    forall i | 0 <= i < |marks| ensures e[i] == S.Entry(Wrap(t.now - marks[i].end), marks[i].toa) {
      EntryIsMark(t.ring, t.boot, t.now, i);
    }
  }

  /** Export, then import: what the governor holds again is exactly the folded, moved, trimmed ring. */
  lemma BackReads(t: Station, away: u32, back: int, boot: int)
    requires JustAsked(t)
    ensures var b := Back(t, away, back, boot);
      && b.gov.ppm == t.gov.ppm && b.gov.total == t.gov.total
      && b.gov.slots == Read(b.ring, boot) && b.gov.blocked == Wrap(b.free - boot)
  {
    hide Wrap, Delta, Read, MarkSum, RingLoad, Load, Trim, Prune, FoldedMarks, OffTimeWait, Sane, Admitted, Covers,
         S.Export, S.Readable, S.Restored, S.Entries, S.Get32;
    var now := Wrap(t.now - t.boot);
    var marks := FoldedMarks(t.ring);
    BlobHoldsMarks(t);
    FoldedMarksLoad(t.ring, 0);
    FoldedSize(t.ring);
    RestoredIsTrim(S.Export(t.gov, now), marks, t.now, away, back, boot, |marks|);
    var moved := Shifted(marks, back - t.now - away);
    assert moved[..|marks|] == moved;
    if BlockLeft(t) > away {
      WrapWrap(back - boot, BlockLeft(t) - away);
    }
  }

  lemma FoldedSize(ring: seq<Mark>)
    requires MarkSum(ring) < MODULUS
    ensures |FoldedMarks(ring)| == |ring| - S.Skipped(|ring|) <= S.MAX_ENTRIES
  {
    hide MarkSum;
  }

  /** Nothing still in the window is dropped, and nothing changes when nothing was folded or late. */
  lemma BackCovers(t: Station, away: u32, back: int, boot: int)
    requires JustAsked(t) && back >= t.now + away
    ensures var b := Back(t, away, back, boot);
      && (forall x :: b.asked - WINDOW <= x ==> Covers(b.ring, b.log, x, b.folded))
      && Ordered(b.ring) && MarkSum(b.ring) <= MarkSum(t.ring)
      && (forall i :: 0 <= i < |b.ring| ==> b.asked - WINDOW < b.ring[i].end <= b.free)
      && (forall i :: 0 <= i < |b.ring| ==> b.ring[i].end < b.now + REACH)
      && b.free < b.now + HALF
  {
    hide Wrap, Delta, Read, MarkSum, RingLoad, Load, Trim, Prune, FoldedMarks, OffTimeWait, Sane, Admitted, S.Import, S.Export;
    var late := back - t.now - away;
    var marks := FoldedMarks(t.ring);
    var moved := Shifted(marks, late);
    var b := Back(t, away, back, boot);
    FoldedMarksLoad(t.ring, 0);
    FoldedSize(t.ring);
    ShiftedLoad(marks, late, 0);
    TrimLoad(moved, back - WINDOW, back - WINDOW);
    TrimSum(moved, back - WINDOW);
    forall x | back - WINDOW <= x ensures Covers(b.ring, b.log, x, b.folded) {
      assert Covers(t.ring, t.log, x, t.folded);
      FoldedMarksLoad(t.ring, x);
      ShiftedLoad(marks, late, x);
      TrimLoad(moved, back - WINDOW, x);
      if !b.folded {
        NothingFolded(t.ring);
      }
    }
    BlockIsReal(t);
  }

  lemma NothingFolded(ring: seq<Mark>)
    requires MarkSum(ring) < MODULUS && |ring| <= S.MAX_ENTRIES
    ensures FoldedMarks(ring) == ring
  {
  }

  lemma BlockIsReal(t: Station)
    requires Safe(t)
    ensures t.free > t.now ==> BlockLeft(t) == t.free - t.now
  {
    hide Wrap, Delta;
    if t.free > t.now {
      DeltaIsReal(t.free - t.boot, t.now - t.boot);
    }
  }

  lemma BackBounded(t: Station, away: u32, back: int, boot: int)
    requires JustAsked(t) && back >= t.now + away && !t.full
    ensures HourBounded(Back(t, away, back, boot))
  {
    hide Wrap, Delta, Read, MarkSum, RingLoad, Load, Trim, Prune, FoldedMarks, OffTimeWait, Sane, Admitted, Covers, S.Import,
         S.Export, Budget;
    var b := Back(t, away, back, boot);
    BackReads(t, away, back, boot);
    BackCovers(t, away, back, boot);
    RingLoadAll(t.ring, t.now - WINDOW);
    RingLoadMonotone(b.ring, back - WINDOW, back - WINDOW);
    NewestOvershoot(t.log, t.now, t.now + 1);
    NewestOvershoot(t.log, t.now, back + 1);
  }

  lemma BackSafe(t: Station, away: u32, back: int, boot: int)
    requires JustAsked(t) && back >= t.now + away
    ensures Safe(Back(t, away, back, boot))
  {
    hide Wrap, Read, Budget, OffTime, MarkSum, Admitted, Covers, Ordered, WellTimed, S.Import, S.Export,
         FoldedMarks, Trim;
    hide HourBounded;
    BackReads(t, away, back, boot);
    BackCovers(t, away, back, boot);
    FoldedSize(t.ring);
    if !t.full {
      BackBounded(t, away, back, boot);
    }
  }

}
