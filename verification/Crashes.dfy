/**
  Whole runs of a board that mirrors its duty cycle, crashes at any point, the middle of a mirror
  included, and sleeps.

  A crash in a mirror leaves memory half old, half new.  Its restore refuses it, the hour already
  mirrored is forgotten, and a governor that believes in an empty hour carries on.  The law then holds
  if and only if the station had been silent in the last hour less one budget before it came back.
*/
module Crashes {
  import opened Clock
  import opened Bytes
  import opened Governor
  import opened DutyCycle
  import opened Reboot
  import S = Snapshot
  import Crc

  // ----- the mirror, one write at a time

  datatype Write =
    | Blob(at: nat, v: byte)
    | Len(len: u32)
    | Away(away: u32)
    | Checksum(crc: u32)
    | Magic(magic: u32)

  function Written(m: Rtc, w: Write): Rtc {
    match w
    case Blob(at, v) => if at < S.STATE_MAX then m.(blob := m.blob[at := v]) else m
    case Len(v) => m.(len := v)
    case Away(v) => m.(away := v)
    case Checksum(v) => m.(crc := v)
    case Magic(v) => m.(magic := v)
  }

  function AfterWrites(m: Rtc, ws: seq<Write>): Rtc {
    if |ws| == 0 then m else Written(AfterWrites(m, ws[..|ws| - 1]), ws[|ws| - 1])
  }

  function BlobWrites(p: seq<byte>, lo: nat, hi: nat): (ws: seq<Write>)
    requires lo <= hi <= |p|
    ensures |ws| == hi - lo
  {
    seq(hi - lo, i requires 0 <= i < hi - lo => Blob(lo + i, p[lo + i]))
  }

  /** The order of loraitp_gov_export, entries, header, checksum, and then of budget_mirror. */
  function MirrorWrites(g: State, now: u32, away: u32): seq<Write> {
    var p := S.Export(g, now);
    var body := |p| - S.TAIL;
    BlobWrites(p, S.HDR, body) + BlobWrites(p, 0, S.HDR) + BlobWrites(p, body, |p|)
    + [Len(|p|), Away(away), Checksum(Checked(away, |p|, p)), Magic(BUDGET_MAGIC)]
  }

  lemma {:induction false} AfterBoth(m: Rtc, a: seq<Write>, b: seq<Write>)
    ensures AfterWrites(m, a + b) == AfterWrites(AfterWrites(m, a), b)
  {
    hide Written;
    if |b| == 0 {
      assert a + b == a;
    } else {
      AfterBoth(m, a, b[..|b| - 1]);
      assert (a + b)[..|a + b| - 1] == a + b[..|b| - 1];
    }
  }

  lemma {:induction false} BlobIsWritten(m: Rtc, p: seq<byte>, lo: nat, hi: nat)
    requires lo <= hi <= |p| <= S.STATE_MAX
    ensures AfterWrites(m, BlobWrites(p, lo, hi)) == m.(blob := m.blob[..lo] + p[lo..hi] + m.blob[hi..])
    decreases hi
  {
    if lo == hi {
      assert m.blob == m.blob[..lo] + p[lo..hi] + m.blob[hi..];
    } else {
      var ws := BlobWrites(p, lo, hi);
      assert ws[..|ws| - 1] == BlobWrites(p, lo, hi - 1);
      BlobIsWritten(m, p, lo, hi - 1);
      var b := m.blob[..lo] + p[lo..hi - 1] + m.blob[hi - 1..];
      assert b[hi - 1 := p[hi - 1]] == m.blob[..lo] + p[lo..hi] + m.blob[hi..];
    }
  }

  /** All the writes together are the mirror. */
  lemma WritesAreMirror(m: Rtc, g: State, now: u32, away: u32)
    ensures AfterWrites(m, MirrorWrites(g, now, away)) == Mirrored(m, g, now, away)
  {
    hide AfterWrites, S.Export, Checked, BlobWrites;
    var p := S.Export(g, now);
    var body := |p| - S.TAIL;
    var w1, w2, w3 := BlobWrites(p, S.HDR, body), BlobWrites(p, 0, S.HDR), BlobWrites(p, body, |p|);
    var w4 := [Len(|p|), Away(away), Checksum(Checked(away, |p|, p)), Magic(BUDGET_MAGIC)];
    AfterBoth(m, w1 + w2 + w3, w4);
    AfterBoth(m, w1 + w2, w3);
    AfterBoth(m, w1, w2);
    BlobIsWritten(m, p, S.HDR, body);
    var m1 := AfterWrites(m, w1);
    BlobIsWritten(m1, p, 0, S.HDR);
    var m2 := AfterWrites(m1, w2);
    BlobIsWritten(m2, p, body, |p|);
    var m3 := AfterWrites(m2, w3);
    assert m3.blob == p + m.blob[|p|..];
    LastWrites(m3, |p|, away, Checked(away, |p|, p));
  }

  lemma LastWrites(m: Rtc, len: u32, away: u32, crc: u32)
    ensures AfterWrites(m, [Len(len), Away(away), Checksum(crc), Magic(BUDGET_MAGIC)])
            == Rtc(BUDGET_MAGIC, crc, away, len, m.blob)
  {
    var ws := [Len(len), Away(away), Checksum(crc), Magic(BUDGET_MAGIC)];
    assert ws[..3][..2] == ws[..2] && ws[..2][..1] == ws[..1];
    assert AfterWrites(m, ws[..1]) == m.(len := len);
    assert AfterWrites(m, ws[..2]) == m.(len := len, away := away);
    assert AfterWrites(m, ws[..3]) == m.(len := len, away := away, crc := crc);
  }

  /** Where memory held a mirror before, the last write, of the magic, changes nothing: the mirror was whole already. */
  lemma WholeBeforeMagic(m: Rtc, g: State, now: u32, away: u32)
    requires m.magic == BUDGET_MAGIC
    ensures var ws := MirrorWrites(g, now, away);
      |ws| > 0 && AfterWrites(m, ws[..|ws| - 1]) == Mirrored(m, g, now, away)
  {
    hide S.Export, Checked, Written;
    var ws := MirrorWrites(g, now, away);
    WritesAreMirror(m, g, now, away);
    SameMagic(m, ws[..|ws| - 1]);
    SameMagicAgain(AfterWrites(m, ws[..|ws| - 1]));
  }

  lemma SameMagicAgain(m: Rtc)
    requires m.magic == BUDGET_MAGIC
    ensures Written(m, Magic(BUDGET_MAGIC)) == m
  {
  }

  lemma {:induction false} SameMagic(m: Rtc, ws: seq<Write>)
    requires forall i :: 0 <= i < |ws| ==> !ws[i].Magic?
    ensures AfterWrites(m, ws).magic == m.magic
  {
    if |ws| > 0 {
      SameMagic(m, ws[..|ws| - 1]);
    }
  }

  // ----- damage the checksum is sure to notice

  lemma {:induction false} BitsSplit(a: seq<byte>, b: seq<byte>)
    ensures Crc.Bits(a + b) == Crc.Bits(a) + Crc.Bits(b)
  {
    hide Crc.ByteBits;
    if |b| == 0 {
      assert a + b == a;
    } else {
      BitsSplit(a, b[..|b| - 1]);
      assert (a + b)[..|a + b| - 1] == a + b[..|b| - 1];
    }
  }

  /** A blob that differs from the one mirrored, but within 32 consecutive bits, is always refused. */
  lemma BurstIsRefused(m: Rtc, torn: Buffer, at: nat)
    requires !Refused(m) && torn[..m.len] != m.blob[..m.len]
    requires Crc.BurstAt(Crc.Bits(torn[..m.len]), Crc.Bits(m.blob[..m.len]), at)
    ensures Refused(m.(blob := torn))
  {
    hide S.Readable, S.Put32, Crc.Bits, Crc.Crc32;
    var head := S.Put32(m.away) + S.Put32(m.len);
    var t, b := torn[..m.len], m.blob[..m.len];
    BitsSplit(head, t);
    BitsSplit(head, b);
    assert (head + t)[|head|..] == t && (head + b)[|head|..] == b;
    assert Crc.BurstAt(Crc.Bits(head + t), Crc.Bits(head + b), |Crc.Bits(head)| + at);
    Crc.BurstDetected(head + t, head + b, |Crc.Bits(head)| + at);
    DifferentWords(Crc.Crc32(head + t), Crc.Crc32(head + b));
  }

  lemma DifferentWords(v: bv32, w: bv32)
    ensures v != w ==> v as int != w as int
  {
    if v as int == w as int {
      assert (v as int) as bv32 == (w as int) as bv32;
      SameWord(v);
      SameWord(w);
    }
  }

  lemma SameWord(v: bv32)
    ensures (v as int) as bv32 == v
  {
  }

  /** In particular one byte. */
  lemma ByteIsRefused(m: Rtc, at: nat, v: byte)
    requires !Refused(m) && at < m.len && v != m.blob[at]
    ensures Refused(m.(blob := m.blob[at := v]))
  {
    hide Refused, Crc.Bits, Crc.ByteBits;
    assert m.len <= S.STATE_MAX by { LenFits(m); }
    var b := m.blob[..m.len];
    assert m.blob[at := v][..m.len] == b[at := v];
    assert b == b[..at] + [b[at]] + b[at + 1..];
    assert b[at := v] == b[..at] + [v] + b[at + 1..];
    BitsSplit(b[..at] + [b[at]], b[at + 1..]);
    BitsSplit(b[..at], [b[at]]);
    BitsSplit(b[..at] + [v], b[at + 1..]);
    BitsSplit(b[..at], [v]);
    assert b[at := v][at] != b[at];
    BurstIsRefused(m, m.blob[at := v], 8 * at);
  }

  lemma LenFits(m: Rtc)
    requires !Refused(m)
    ensures 0 < m.len <= S.STATE_MAX
  {
  }

  // ----- runs

  /** What reset-proof memory is good for: the station it would bring back, or nothing. */
  datatype Saved = Nothing | Whole(of: Station)

  /**
    The board: its station, the frames of the hours it has forgotten, when it last came up without a
    memory of them, and reset-proof memory.
  */
  datatype World = World(station: Station, past: seq<Frame>, since: int, rtc: Rtc, saved: Saved)

  /** Every frame that was sent and not lost to a crash before its mirror. */
  function Log(w: World): seq<Frame> {
    w.past + w.station.log
  }

  /** The frames known to a whole mirror, or to one that was forgotten. */
  function MirroredLog(w: World): seq<Frame> {
    match w.saved
    case Whole(t) => w.past + t.log
    case Nothing => w.past
  }

  /** The latest time those frames are about. */
  function KnownUntil(w: World): int {
    match w.saved
    case Whole(t) => t.now
    case Nothing => w.since
  }

  /**
    Mirror covers trace_cb (away 0) and maybe_deep_sleep.  Restart is any loss of power or reset between
    mirrors.  TornMirror is one in a mirror begun at "at", after its first cut writes; the board is back later.
  */
  datatype Happening =
    | Ordinary(e: Event)
    | Mirror(at: int, away: u32)
    | TornMirror(at: int, away: u32, cut: nat, back: int)
    | Restart(at: int, boot: int)

  function TornMemory(w: World, at: int, away: u32, cut: nat): Rtc {
    var ws := MirrorWrites(w.station.gov, Wrap(at - w.station.boot), away);
    AfterWrites(w.rtc, if cut <= |ws| then ws[..cut] else ws)
  }

  /** Frames of this time, one after another, and none before since. */
  ghost predicate Recent(log: seq<Frame>, since: int, now: int) {
    && since <= now && WellTimed(log) && Sequential(log, now)
    && forall i :: 0 <= i < |log| ==> since <= log[i].start
  }

  ghost predicate Sound(w: World) {
    && Safe(w.station)
    && WellTimed(w.past) && Sequential(w.past, w.since)
    && Recent(w.station.log, w.since, w.station.now)
    && match w.saved
       case Nothing => Refused(w.rtc)
       case Whole(t) =>
         && JustAsked(t) && t.gov.ppm == w.station.gov.ppm && t.now <= w.station.now
         && Recent(t.log, w.since, t.now)
         && w.rtc == Mirrored(w.rtc, t.gov, Wrap(t.now - t.boot), w.rtc.away)
  }

  /**
    Real time away is at least the recorded away_ms; everything else as in DutyCycle.  Torn memory passes
    no checksum by accident.
  */
  ghost predicate Possible(w: World, h: Happening)
    requires Safe(w.station)
  {
    match h
    case Ordinary(e) => Allowed(w.station, e)
    case Mirror(at, away) => Timely(w.station, at)
    case TornMirror(at, away, cut, back) =>
      Timely(w.station, at) && at <= back && Refused(TornMemory(w, at, away, cut))
    case Restart(at, boot) =>
      if w.saved.Whole? then at >= w.saved.of.now + w.rtc.away else at >= w.since
  }

  lemma {:induction false} PruneTwice(slots: seq<Slot>, now: u32)
    ensures Prune(Prune(slots, now), now) == Prune(slots, now)
  {
    if |slots| > 0 && Delta(now, slots[0].end) >= WINDOW {
      PruneTwice(slots[1..], now);
    }
  }

  /** Mirroring prunes; what it writes is the mirror of the pruned governor, and mirroring again changes nothing. */
  lemma MirrorAgain(m: Rtc, s: Station, at: int, away: u32)
    ensures var r := Mirrored(m, s.gov, Wrap(at - s.boot), away);
      r == Mirrored(r, Ask(s, at).gov, Wrap(at - s.boot), away)
  {
    hide Wrap, S.Entries, S.Body, Checked;
    PruneTwice(s.gov.slots, Wrap(at - s.boot));
    var p := S.Export(s.gov, Wrap(at - s.boot));
    assert (p + m.blob[|p|..])[|p|..] == m.blob[|p|..];
  }

  lemma AskJustAsked(s: Station, at: int)
    requires Safe(s) && Timely(s, at)
    ensures JustAsked(Ask(s, at))
    ensures var t := Ask(s, at);
      t.now == at && t.boot == s.boot && t.gov.ppm == s.gov.ppm && t.log == s.log
  {
    hide Safe;
    AskKeepsSafe(s, at);
  }

  lemma SafeIsSane(s: Station)
    requires Safe(s)
    ensures Sane(s.gov.ppm)
  {
  }

  /** What a step of the station adds to its log comes after everything before. */
  lemma StepIsRecent(s: Station, e: Event, since: int)
    requires Safe(s) && Allowed(s, e) && Recent(s.log, since, s.now)
    ensures var t := Step(s, e); Recent(t.log, since, t.now) && s.now <= t.now
  {
    hide Ask, Send, Prune, Trim, Delay, Budget, OffTime, Covers, Admitted, Brief, MarkSum;
    match e
    case Question(at) => AskJustAsked(s, at);
    case Transmission(f) => SendKeepsSafe(s, f); SendBasics(s, f);
  }

  /** Frames of two times, one after the other. */
  lemma JoinSequential(past: seq<Frame>, log: seq<Frame>, since: int, now: int)
    requires WellTimed(past) && Sequential(past, since) && Recent(log, since, now)
    ensures WellTimed(past + log) && Sequential(past + log, now)
  {
  }

  ghost function Stepped(w: World, e: Event): (v: World)
    requires Sound(w) && Safe(w.station) && Allowed(w.station, e)
    ensures Sound(v) && v.station.gov.ppm == w.station.gov.ppm
  {
    hide *;
    StepSound(w, e);
    w.(station := Step(w.station, e))
  }

  lemma SoundIsSafe(w: World)
    requires Sound(w)
    ensures Safe(w.station)
  {
    hide Safe, Refused, Mirrored, JustAsked, Recent, Sequential;
  }

  lemma StepSound(w: World, e: Event)
    requires Sound(w) && Safe(w.station) && Allowed(w.station, e)
    ensures var v := w.(station := Step(w.station, e));
      Sound(v) && v.station.gov.ppm == w.station.gov.ppm
  {
    hide Safe, Allowed, Refused, Step, Recent, Sequential, WellTimed, Mirrored, JustAsked, Wrap;
    assert Recent(w.station.log, w.since, w.station.now);
    StepIsRecent(w.station, e, w.since);
  }

  ghost function MirrorTaken(w: World, at: int, away: u32): (v: World)
    requires Sound(w) && Safe(w.station) && Timely(w.station, at)
    ensures Sound(v) && v.station.gov.ppm == w.station.gov.ppm
  {
    hide Safe, Mirrored, Refused, Ask;
    var s := Ask(w.station, at);
    AskJustAsked(w.station, at);
    MirrorAgain(w.rtc, w.station, at, away);
    World(s, w.past, w.since, Mirrored(w.rtc, w.station.gov, Wrap(at - s.boot), away), Whole(s))
  }

  /** The board comes up at "back" with memory it refuses. */
  ghost function Forgotten(w: World, rtc: Rtc, back: int): (v: World)
    requires Sound(w) && Refused(rtc)
    requires back >= KnownUntil(w)
    ensures Sound(v) && v.station.gov.ppm == w.station.gov.ppm
  {
    hide Safe, Refused, Mirrored, JustAsked;
    SafeIsSane(w.station);
    FreshSafe(w.station.gov.ppm, back);
    MirroredInOrder(w);
    World(Fresh(w.station.gov.ppm, back), MirroredLog(w), back, rtc, Nothing)
  }

  lemma MirroredInOrder(w: World)
    requires Sound(w)
    ensures WellTimed(MirroredLog(w))
    ensures Sequential(MirroredLog(w), KnownUntil(w))
  {
    hide Safe, Refused, Mirrored, JustAsked, Sequential, Recent;
    if w.saved.Whole? {
      JoinSequential(w.past, w.saved.of.log, w.since, w.saved.of.now);
    }
  }

  ghost function Restored(w: World, t: Station, at: int, boot: int): (v: World)
    requires Sound(w) && w.saved == Whole(t) && at >= t.now + w.rtc.away
    ensures Sound(v) && v.station.gov.ppm == w.station.gov.ppm
  {
    hide Safe, Mirrored, Refused, S.Export, S.Import, JustAsked;
    BackSafe(t, w.rtc.away, at, boot);
    BackReads(t, w.rtc.away, at, boot);
    w.(station := Back(t, w.rtc.away, at, boot))
  }

  /** When the memory the board comes back with is refused, it comes back after all that memory was about. */
  lemma PossibleMeans(w: World, h: Happening)
    requires Sound(w) && Safe(w.station) && Possible(w, h)
    ensures match h
            case Ordinary(e) => Allowed(w.station, e)
            case Mirror(at, away) => Timely(w.station, at)
            case TornMirror(at, away, cut, back) =>
              && Refused(TornMemory(w, at, away, cut))
              && back >= KnownUntil(w)
            case Restart(at, boot) =>
              if w.saved.Whole? then at >= w.saved.of.now + w.rtc.away else Refused(w.rtc) && at >= KnownUntil(w)
  {
    hide Safe, Refused, Mirrored, JustAsked, Allowed, TornMemory, Sequential, WellTimed;
  }

  ghost function Happen(w: World, h: Happening): (v: World)
    requires Sound(w) && Safe(w.station) && Possible(w, h)
    ensures Sound(v) && v.station.gov.ppm == w.station.gov.ppm
  {
    hide *;
    PossibleMeans(w, h);
    match h
    case Ordinary(e) => Stepped(w, e)
    case Mirror(at, away) => MirrorTaken(w, at, away)
    case TornMirror(at, away, cut, back) => Forgotten(w, TornMemory(w, at, away, cut), back)
    case Restart(at, boot) =>
      if w.saved.Whole? then Restored(w, w.saved.of, at, boot) else Forgotten(w, w.rtc, at)
  }

  /** v is where a run from w leads.  Happen keeps every world in between sound. */
  ghost predicate Runs(w: World, hs: seq<Happening>, v: World)
    requires Sound(w)
    decreases |hs|
  {
    if |hs| == 0 then v == w
    else SoundIsSafe(w); Possible(w, hs[0]) && Runs(Happen(w, hs[0]), hs[1..], v)
  }

  /** Nothing was on the air in the last hour, less one budget, before the board came up without a memory. */
  predicate Silent(w: World) {
    AirtimeBetween(w.past, w.since + Budget(w.station.gov.ppm) - WINDOW, w.since) == 0
  }

  /** Every torn mirror of the run is followed by a return after such a silence. */
  ghost predicate Quiet(w: World, hs: seq<Happening>)
    requires Sound(w)
    decreases |hs|
  {
    SoundIsSafe(w);
    |hs| > 0 && Possible(w, hs[0]) ==>
      && (hs[0].TornMirror? ==> Silent(Happen(w, hs[0])))
      && Quiet(Happen(w, hs[0]), hs[1..])
  }

  /** The board fresh from its maker, with whatever reset-proof memory holds as long as it is refused. */
  function New(ppm: nat, boot: int, rtc: Rtc): World {
    World(Fresh(ppm, boot), [], boot, rtc, Nothing)
  }

  lemma NewSound(ppm: nat, boot: int, rtc: Rtc)
    requires Sane(ppm) && Refused(rtc)
    ensures Sound(New(ppm, boot, rtc)) && Silent(New(ppm, boot, rtc))
  {
    hide Refused, Safe;
    FreshSafe(ppm, boot);
  }

  /** A quiet run that begins with a board fresh from its maker. */
  ghost predicate RunsFrom(ppm: nat, boot: int, rtc: Rtc, hs: seq<Happening>, v: World)
    requires Sane(ppm) && Refused(rtc)
  {
    NewSound(ppm, boot, rtc);
    Runs(New(ppm, boot, rtc), hs, v) && Quiet(New(ppm, boot, rtc), hs)
  }

  // ----- the law across what was forgotten

  lemma {:induction false} AirtimeAppend(p: seq<Frame>, q: seq<Frame>, a: int, b: int)
    ensures AirtimeBetween(p + q, a, b) == AirtimeBetween(p, a, b) + AirtimeBetween(q, a, b)
  {
    if |q| == 0 {
      assert p + q == p;
    } else {
      AirtimeAppend(p, q[..|q| - 1], a, b);
      assert (p + q)[..|p + q| - 1] == p + q[..|q| - 1];
    }
  }

  lemma {:induction false} OvershootAppend(p: seq<Frame>, q: seq<Frame>, t: int)
    ensures LastOvershoot(q, t) <= LastOvershoot(p + q, t)
    ensures (forall i :: 0 <= i < |q| ==> q[i].start >= t) ==> LastOvershoot(p + q, t) == LastOvershoot(p, t)
  {
    if |q| == 0 {
      assert p + q == p;
    } else {
      OvershootAppend(p, q[..|q| - 1], t);
      assert (p + q)[..|p + q| - 1] == p + q[..|q| - 1];
    }
  }

  lemma {:induction false} AirtimeSplit(log: seq<Frame>, a: int, b: int, c: int)
    requires a <= b <= c
    ensures AirtimeBetween(log, a, c) == AirtimeBetween(log, a, b) + AirtimeBetween(log, b, c)
  {
    if |log| > 0 {
      AirtimeSplit(log[..|log| - 1], a, b, c);
    }
  }

  /** One radio: frames that follow one another fill no more than the time there is. */
  lemma {:induction false} AirtimeAtMostTime(log: seq<Frame>, now: int, a: int, b: int)
    requires WellTimed(log) && Sequential(log, now)
    ensures AirtimeBetween(log, a, b) <= (var until := if b < now then b else now; if until > a then until - a else 0)
  {
    if |log| > 0 {
      AirtimeAtMostTime(log[..|log| - 1], log[|log| - 1].start, a, b);
    }
  }

  lemma {:induction false} NoneBefore(log: seq<Frame>, since: int, a: int, b: int)
    requires forall i :: 0 <= i < |log| ==> since <= log[i].start
    ensures b <= since ==> AirtimeBetween(log, a, b) == 0
    ensures a <= since <= b ==> AirtimeBetween(log, a, b) == AirtimeBetween(log, since, b)
  {
    if |log| > 0 {
      NoneBefore(log[..|log| - 1], since, a, b);
    }
  }

  /** Silence before since stays silence for every later since. */
  lemma {:induction false} NoneAfter(log: seq<Frame>, since: int, a: int, b: int)
    requires Sequential(log, since)
    ensures a >= since ==> AirtimeBetween(log, a, b) == 0
    ensures b >= since ==> AirtimeBetween(log, a, b) == AirtimeBetween(log, a, since)
  {
    if |log| > 0 {
      NoneAfter(log[..|log| - 1], since, a, b);
    }
  }

  /**
    Two lawful times with a silence between them are lawful together.  An hour that reaches back beyond the
    silence has less than one budget of the later time in it, and the earlier time can fill no more than the rest.
  */
  lemma JoinedHour(past: seq<Frame>, log: seq<Frame>, since: int, now: int, budget: nat, from: int)
    requires WellTimed(past) && Sequential(past, since) && Recent(log, since, now) && budget <= WINDOW
    requires LawfulHour(past, budget, from) && LawfulHour(log, budget, from)
    requires AirtimeBetween(past, since + budget - WINDOW, since) == 0
    ensures LawfulHour(past + log, budget, from)
  {
    hide AirtimeBetween, LastOvershoot;
    var end, quiet := from + WINDOW, since + budget - WINDOW;
    AirtimeAppend(past, log, from, end);
    OvershootAppend(past, log, end);
    NoneBefore(log, since, from, end);
    NoneAfter(past, since, from, end);
    NoneAfter(past, since, quiet, end);
    if from >= quiet {
      NoneAfter(past, since, from, end);
      if from <= since {
        AirtimeSplit(past, quiet, from, since);
      }
    } else if end > since {
      AirtimeSplit(past, from, quiet, since);
      AirtimeAtMostTime(past, since, from, quiet);
      AirtimeAtMostTime(log, now, since, end);
    }
  }

  lemma JoinedLawful(past: seq<Frame>, log: seq<Frame>, since: int, now: int, budget: nat)
    requires WellTimed(past) && Sequential(past, since) && Recent(log, since, now) && budget <= WINDOW
    requires Lawful(past, budget) && Lawful(log, budget)
    requires AirtimeBetween(past, since + budget - WINDOW, since) == 0
    ensures Lawful(past + log, budget)
  {
    hide LawfulHour, Recent, Sequential, WellTimed, AirtimeBetween;
    forall from: int ensures LawfulHour(past + log, budget, from) {
      JoinedHour(past, log, since, now, budget, from);
    }
  }

  lemma SafeIsLawful(s: Station)
    requires Safe(s)
    ensures Lawful(s.log, Budget(s.gov.ppm)) && Budget(s.gov.ppm) <= WINDOW
  {
    hide Lawful, Read, RingLoad, Load, Wrap;
    BudgetBound(s.gov.ppm);
    AdmittedObeysEveryHour(s.log, Budget(s.gov.ppm));
  }

  /** Where the forgotten hours were lawful and a silence followed, everything is lawful. */
  lemma LogIsLawful(w: World)
    requires Sound(w) && Silent(w) && Lawful(w.past, Budget(w.station.gov.ppm))
    ensures Lawful(Log(w), Budget(w.station.gov.ppm))
  {
    hide Safe, Lawful, Refused, Mirrored, JustAsked, Sequential, WellTimed, Recent, Budget, AirtimeBetween;
    SafeIsLawful(w.station);
    JoinedLawful(w.past, w.station.log, w.since, w.station.now, Budget(w.station.gov.ppm));
  }

  lemma MirroredLogIsLawful(w: World)
    requires Sound(w) && Silent(w) && Lawful(w.past, Budget(w.station.gov.ppm))
    ensures Lawful(MirroredLog(w), Budget(w.station.gov.ppm))
  {
    hide Safe, Lawful, Refused, Mirrored, Sequential, WellTimed, Recent, Budget, AirtimeBetween;
    if w.saved.Whole? {
      var t := w.saved.of;
      SafeIsLawful(t);
      JoinedLawful(w.past, t.log, w.since, t.now, Budget(t.gov.ppm));
    }
  }

  /** A silence before the board came up only grows while it stays without a memory. */
  lemma SilenceGrows(past: seq<Frame>, since: int, later: int, budget: nat)
    requires Sequential(past, since) && since <= later && budget <= WINDOW
    requires AirtimeBetween(past, since + budget - WINDOW, since) == 0
    ensures AirtimeBetween(past, later + budget - WINDOW, later) == 0
  {
    hide AirtimeBetween;
    var quiet := later + budget - WINDOW;
    NoneAfter(past, since, quiet, later);
    if quiet < since {
      AirtimeSplit(past, since + budget - WINDOW, quiet, since);
    }
  }

  lemma HappenKeepsLaw(w: World, h: Happening)
    requires Sound(w) && Safe(w.station) && Possible(w, h)
    requires Silent(w) && Lawful(w.past, Budget(w.station.gov.ppm))
    requires h.TornMirror? ==> Silent(Happen(w, h))
    ensures var v := Happen(w, h); Silent(v) && Lawful(v.past, Budget(v.station.gov.ppm))
  {
    hide Safe, Lawful, Refused, Mirrored, Sequential, WellTimed, Recent, Budget, AirtimeBetween, Step, Ask, Back,
         TornMemory, Allowed, JustAsked, Wrap;
    PossibleMeans(w, h);
    match h
    case TornMirror(_, _, _, _) => MirroredLogIsLawful(w);
    case Restart(at, boot) =>
      if w.saved.Nothing? {
        SafeIsLawful(w.station);
        SilenceGrows(w.past, w.since, at, Budget(w.station.gov.ppm));
      }
    case _ =>
  }

  lemma {:induction false} QuietRunsKeepLaw(w: World, hs: seq<Happening>, v: World)
    requires Sound(w) && Runs(w, hs, v) && Quiet(w, hs)
    requires Silent(w) && Lawful(w.past, Budget(w.station.gov.ppm))
    ensures Sound(v) && v.station.gov.ppm == w.station.gov.ppm
    ensures Lawful(Log(v), Budget(w.station.gov.ppm))
    decreases |hs|
  {
    hide Sound, Possible, Happen, Silent, Lawful, Log;
    SoundIsSafe(w);
    if |hs| > 0 {
      HappenKeepsLaw(w, hs[0]);
      QuietRunsKeepLaw(Happen(w, hs[0]), hs[1..], v);
    } else {
      LogIsLawful(w);
    }
  }

  lemma NothingIsLawful(budget: nat)
    ensures Lawful([], budget)
  {
  }

  /**
    Over every run that interleaves transmissions, mirrors, crashes at any point and deep sleeps, the
    airtime of all frames but those lost to a crash before their mirror obeys the rolling hour, as long
    as the board comes back from a torn mirror after a silence.
  */
  lemma EveryHourWithinBudgetAcrossReboots(ppm: nat, boot: int, rtc: Rtc, hs: seq<Happening>, v: World)
    requires Sane(ppm) && Refused(rtc)
    requires RunsFrom(ppm, boot, rtc, hs, v)
    ensures Lawful(Log(v), Budget(ppm))
  {
    hide Sound, Runs, Quiet, Silent, Lawful, Log, Refused;
    NewSound(ppm, boot, rtc);
    NothingIsLawful(Budget(ppm));
    QuietRunsKeepLaw(New(ppm, boot, rtc), hs, v);
  }

  /** A run without torn mirrors needs no silence. */
  lemma {:induction false} WithoutTearsQuiet(w: World, hs: seq<Happening>)
    requires Sound(w) && forall i :: 0 <= i < |hs| ==> !hs[i].TornMirror?
    ensures Quiet(w, hs)
    decreases |hs|
  {
    hide Sound, Possible, Happen, Silent;
    SoundIsSafe(w);
    if |hs| > 0 && Possible(w, hs[0]) {
      WithoutTearsQuiet(Happen(w, hs[0]), hs[1..]);
    }
  }

  // ----- the silence is exactly what it takes

  /** The board has just come up with memory it refused. */
  predicate JustForgotten(w: World) {
    w.station == Fresh(w.station.gov.ppm, w.since) && w.saved.Nothing?
  }

  /** A whole budget, asked for and granted at once, by a board that has just come up. */
  function WholeBudgetAt(ppm: nat, at: int): Happening {
    var b := Budget(ppm);
    Ordinary(Transmission(Sending(at, b, at, at + b, at + b)))
  }

  lemma WholeBudgetGranted(w: World)
    requires Sound(w) && Safe(w.station) && JustForgotten(w)
    ensures Possible(w, WholeBudgetAt(w.station.gov.ppm, w.since))
    ensures var ppm, at := w.station.gov.ppm, w.since;
      Happen(w, WholeBudgetAt(ppm, at)).past == w.past
      && Happen(w, WholeBudgetAt(ppm, at)).station.log == [Frame(at, at + Budget(ppm), at + 2 * Budget(ppm), Budget(ppm))]
  {
    hide Sound, Refused, Budget, OffTime, Delay, Read, Mirrored;
    var ppm, at := w.station.gov.ppm, w.since;
    FreshGrants(ppm, at, Budget(ppm));
    WithinEstimateIsBrief(ppm, Budget(ppm), Budget(ppm));
  }

  /** Sending it breaks the law if anything was on the air in the hour it ends. */
  lemma SecondBudgetBreaksTheHour(past: seq<Frame>, f: Frame, budget: nat)
    requires 0 < budget <= WINDOW && f.end == f.start + budget && f.est == budget
    requires AirtimeBetween(past, f.end - WINDOW, f.start) > 0 && Sequential(past, f.start)
    ensures !LawfulHour(past + [f], budget, f.end - WINDOW)
  {
    NoneAfter(past, f.start, f.end - WINDOW, f.end);
    assert (past + [f])[..|past|] == past;
  }

  lemma BudgetPositive(ppm: nat)
    requires Sane(ppm)
    ensures 0 < Budget(ppm) <= WINDOW
  {
    BudgetBound(ppm);
    DivAtLeast(WINDOW * ppm, 1_000_000, 1);
  }

  /** Without the silence, the continuation that sends a whole budget at once breaks the law. */
  lemma NoiseBreaksTheLaw(w: World) returns (hs: seq<Happening>, v: World)
    requires Sound(w) && Safe(w.station) && JustForgotten(w) && !Silent(w)
    ensures Runs(w, hs, v) && Quiet(w, hs) && !Lawful(Log(v), Budget(w.station.gov.ppm))
  {
    hide Sound, Possible, Happen, Lawful, AirtimeBetween, Budget;
    var ppm, at := w.station.gov.ppm, w.since;
    var b := Budget(ppm);
    SafeIsSane(w.station);
    BudgetPositive(ppm);
    WholeBudgetGranted(w);
    hs := [WholeBudgetAt(ppm, at)];
    v := Happen(w, hs[0]);
    assert hs[1..] == [];
    PastBefore(w);
    var f := Frame(at, at + b, at + 2 * b, b);
    assert Log(v) == w.past + [f];
    SecondBudgetBreaksTheHour(w.past, f, b);
    LawfulAt(Log(v), b, f.end - WINDOW);
  }

  /**
    After memory has been refused, every continuation keeps every hour if and only if nothing was on the
    air from an hour less one budget before the return up to it.
  */
  lemma SilenceIsExact(w: World)
    requires Sound(w) && JustForgotten(w) && Lawful(w.past, Budget(w.station.gov.ppm))
    ensures (forall hs, v :: Runs(w, hs, v) && Quiet(w, hs) ==> Lawful(Log(v), Budget(w.station.gov.ppm)))
            <==> AirtimeBetween(w.past, w.since + Budget(w.station.gov.ppm) - WINDOW, w.since) == 0
  {
    hide Sound, Lawful, AirtimeBetween, Budget, Runs, Quiet, Log;
    SoundIsSafe(w);
    if Silent(w) {
      forall hs, v | Runs(w, hs, v) && Quiet(w, hs) ensures Lawful(Log(v), Budget(w.station.gov.ppm)) {
        QuietRunsKeepLaw(w, hs, v);
      }
    } else {
      var hs, v := NoiseBreaksTheLaw(w);
    }
  }

  lemma PastBefore(w: World)
    requires Sound(w)
    ensures Sequential(w.past, w.since)
  {
    hide Safe, Refused, Mirrored, JustAsked, Recent, Sequential;
  }

  lemma LawfulAt(log: seq<Frame>, budget: int, from: int)
    ensures Lawful(log, budget) ==> LawfulHour(log, budget, from)
  {
  }

  // ----- a run that breaks the law

  /** A crash after the first byte of a mirror, where that byte changes. */
  lemma FirstByteTears(w: World, at: int, away: u32)
    requires Sound(w) && w.saved.Whole?
    requires var p := S.Export(w.station.gov, Wrap(at - w.station.boot));
      |p| > S.HDR + S.TAIL && w.rtc.len > S.HDR && p[S.HDR] != w.rtc.blob[S.HDR]
    ensures Refused(TornMemory(w, at, away, 1))
  {
    hide Sound, S.Export, Wrap, Refused, MirrorWrites;
    WholeIsAccepted(w);
    var now := Wrap(at - w.station.boot);
    var p := S.Export(w.station.gov, now);
    FirstWrite(w.station.gov, now, away);
    var ws := MirrorWrites(w.station.gov, now, away);
    assert AfterWrites(w.rtc, ws[..1]) == Written(w.rtc, ws[0]);
    ByteIsRefused(w.rtc, S.HDR, p[S.HDR]);
  }

  lemma HoldsMirror(w: World)
    requires Sound(w) && w.saved.Whole?
    ensures w.rtc == Mirrored(w.rtc, w.saved.of.gov, Wrap(w.saved.of.now - w.saved.of.boot), w.rtc.away)
  {
    hide Safe, Refused, JustAsked, Sequential, WellTimed, Recent, Mirrored, Wrap;
  }

  lemma WholeIsAccepted(w: World)
    requires Sound(w) && w.saved.Whole?
    ensures !Refused(w.rtc)
  {
    hide Sound, Refused, Mirrored, Wrap, S.Export, S.Import, RestoredState;
    HoldsMirror(w);
    var t := w.saved.of;
    MirrorAccepted(w.rtc, t.gov, Wrap(t.now - t.boot), w.rtc.away, t.gov, 0);
  }

  lemma FirstWrite(g: State, now: u32, away: u32)
    requires |S.Export(g, now)| > S.HDR + S.TAIL
    ensures |MirrorWrites(g, now, away)| > 0 && MirrorWrites(g, now, away)[0] == Blob(S.HDR, S.Export(g, now)[S.HDR])
  {
    hide S.Export, Checked;
  }

  lemma LowByte(p: seq<byte>, at: nat)
    requires at + 4 <= |p|
    ensures p[at] as int == S.Get32(p, at) % 256
  {
    var rest := (p[at + 1] as int) + 0x100 * (p[at + 2] as int) + 0x1_0000 * (p[at + 3] as int);
    assert S.Get32(p, at) == (p[at] as int) + 256 * rest;
  }

  lemma LowByteWrapped(x: int)
    ensures Wrap(x) % 256 == x % 256
  {
    var q, a, r := x / MODULUS, x / 256, x % 256;
    RemainderOf(Wrap(x), a - q * 0x100_0000, r);
  }

  lemma RemainderOf(y: int, k: int, r: int)
    requires y == 256 * k + r && 0 <= r < 256
    ensures y % 256 == r
  {
  }

  /** The first byte of the only entry of a snapshot is the age of its slot, modulo 256. */
  lemma FirstAge(g: State, now: int, end: int, toa: u32)
    requires g.slots == [Slot(Wrap(end), toa)] && -HALF <= now - end < WINDOW
    ensures var p := S.Export(g, Wrap(now));
      |p| == S.HDR + S.ENTRY + S.TAIL && p[S.HDR] as int == (now - end) % 256
  {
    hide Wrap, Delta, S.Export, S.Get32, S.Readable, OffTimeWait;
    DeltaIsReal(now, end);
    assert Prune(g.slots, Wrap(now)) == g.slots;
    S.ExportReadable(g, Wrap(now));
    var p := S.Export(g, Wrap(now));
    var e := S.Entries(g.slots, Wrap(now));
    assert e[0].age == Wrap(now - end);
    assert S.Get32(p, S.HDR + S.ENTRY * 0) == e[0].age;
    LowByte(p, S.HDR);
    LowByteWrapped(now - end);
  }

  /** A whole budget is sent and mirrored; the next mirror is torn at its first byte; a whole budget is sent again. */
  function TornRun(ppm: nat, boot: int): seq<Happening> {
    var b := Budget(ppm);
    [WholeBudgetAt(ppm, boot), Mirror(boot + b, 0), TornMirror(boot + b + 1, 0, 1, boot + b + 1),
     WholeBudgetAt(ppm, boot + b + 1)]
  }

  /** The station after a whole budget sent at once. */
  lemma BudgetSpent(ppm: nat, boot: int)
    requires Sane(ppm) && Safe(Fresh(ppm, boot))
    ensures Obeyed(Fresh(ppm, boot), WholeBudgetAt(ppm, boot).e.f)
    ensures var s := Send(Fresh(ppm, boot), WholeBudgetAt(ppm, boot).e.f);
      && s.gov.slots == [Slot(Wrap(2 * Budget(ppm)), Budget(ppm))] && s.boot == boot
      && s.asked == boot && s.now == boot + Budget(ppm)
      && s.log == [Frame(boot, boot + Budget(ppm), boot + 2 * Budget(ppm), Budget(ppm))]
  {
    hide Safe, Budget, OffTime, Delay, Wrap, Read;
    FreshGrants(ppm, boot, Budget(ppm));
    WithinEstimateIsBrief(ppm, Budget(ppm), Budget(ppm));
    WrapWrap(Budget(ppm), Budget(ppm));
  }

  /** Asked within the hour, it still holds the one slot. */
  lemma SpentStays(s: Station, end: int, toa: u32, at: int)
    requires s.gov.slots == [Slot(Wrap(end), toa)] && -HALF <= at - s.boot - end < WINDOW
    ensures Ask(s, at).gov.slots == s.gov.slots
  {
    hide Wrap, Delta;
    DeltaIsReal(at - s.boot, end);
  }

  lemma RunStep(w: World, hs: seq<Happening>, v: World)
    requires Sound(w) && Safe(w.station) && |hs| > 0 && Possible(w, hs[0])
    requires Runs(Happen(w, hs[0]), hs[1..], v)
    ensures Runs(w, hs, v)
  {
    hide Sound, Possible, Happen;
  }

  /** The board with a budget spent, mirrored, and the next mirror torn at its first byte. */
  lemma TornState(w: World, ppm: nat, boot: int)
    requires Sound(w) && Safe(w.station) && w.station.gov.ppm == ppm && w.station.boot == boot
    requires w.saved == Whole(w.station) && w.past == [] && w.station.now == boot + Budget(ppm) == w.station.asked
    requires w.station.gov.slots == [Slot(Wrap(2 * Budget(ppm)), Budget(ppm))] && Budget(ppm) + 1 < WINDOW
    ensures Possible(w, TornRun(ppm, boot)[2])
    ensures var v := Happen(w, TornRun(ppm, boot)[2]);
      v.past == w.station.log && v.since == boot + Budget(ppm) + 1 && JustForgotten(v) && v.station.gov.ppm == ppm
  {
    hide Safe, Budget, Wrap, Mirrored, Refused, JustAsked, Sequential, WellTimed, Recent, S.Export, TornMemory;
    var b, s := Budget(ppm), w.station;
    FirstAge(s.gov, b, 2 * b, b);
    FirstAge(s.gov, b + 1, 2 * b, b);
    MirrorAccepted(w.rtc, s.gov, Wrap(b), w.rtc.away, s.gov, 0);
    MirrorHolds(w.rtc, s.gov, Wrap(b), w.rtc.away);
    FirstByteTears(w, boot + b + 1, 0);
    assert w.past + s.log == s.log;
  }

  lemma MirrorHolds(m: Rtc, g: State, now: u32, away: u32)
    ensures var r, p := Mirrored(m, g, now, away), S.Export(g, now);
      r.len == |p| && forall i :: 0 <= i < |p| ==> r.blob[i] == p[i]
  {
    hide S.Export, Checked;
  }

  /**
    Without the silence the law fails, for every duty limit that leaves two milliseconds of the hour
    unused: a budget sent and mirrored, a crash one byte into the next mirror, and the same budget is
    granted again within the hour.
  */
  lemma TornMirrorBreaksTheHour(ppm: nat, boot: int, rtc: Rtc) returns (v: World)
    requires Sane(ppm) && Refused(rtc) && Budget(ppm) + 1 < WINDOW
    ensures Sound(New(ppm, boot, rtc)) && Runs(New(ppm, boot, rtc), TornRun(ppm, boot), v)
    ensures LastOvershoot(Log(v), boot + WINDOW) == 0
    ensures AirtimeBetween(Log(v), boot, boot + WINDOW) > Budget(ppm)
  {
    hide Sound, Safe, Refused, Mirrored, Budget, Possible, Happen, Wrap;
    var b, hs := Budget(ppm), TornRun(ppm, boot);
    NewSound(ppm, boot, rtc);
    BudgetPositive(ppm);
    var w0 := New(ppm, boot, rtc);
    FreshSafe(ppm, boot);
    var w1 := Spend(w0, ppm, boot);
    var w2 := MirrorSpent(w1, ppm, boot);
    SoundIsSafe(w2);
    TornState(w2, ppm, boot);
    var w3 := Happen(w2, hs[2]);
    SoundIsSafe(w3);
    WholeBudgetGranted(w3);
    v := Happen(w3, hs[3]);
    RunStep(w3, hs[3..], v);
    RunStep(w2, hs[2..], v);
    RunStep(w1, hs[1..], v);
    RunStep(w0, hs, v);
    TwoBudgets(boot, b);
    assert Log(v) == [Frame(boot, boot + b, boot + 2 * b, b), Frame(boot + b + 1, boot + 2 * b + 1, boot + 3 * b + 1, b)];
  }

  lemma TwoBudgets(boot: int, b: nat)
    requires 0 < b && b + 1 < WINDOW
    ensures var log := [Frame(boot, boot + b, boot + 2 * b, b), Frame(boot + b + 1, boot + 2 * b + 1, boot + 3 * b + 1, b)];
      LastOvershoot(log, boot + WINDOW) == 0 && AirtimeBetween(log, boot, boot + WINDOW) > b
  {
    var f, g := Frame(boot, boot + b, boot + 2 * b, b), Frame(boot + b + 1, boot + 2 * b + 1, boot + 3 * b + 1, b);
    assert [f, g][..1] == [f] && [f][..0] == [];
  }

  lemma Spend(w0: World, ppm: nat, boot: int) returns (w1: World)
    requires Sound(w0) && Safe(w0.station) && w0.station == Fresh(ppm, boot) && w0.past == [] && Sane(ppm)
    ensures Possible(w0, TornRun(ppm, boot)[0]) && w1 == Happen(w0, TornRun(ppm, boot)[0])
    ensures Sound(w1) && Safe(w1.station) && w1.past == [] && w1.station.boot == boot && w1.station.gov.ppm == ppm
    ensures w1.station.gov.slots == [Slot(Wrap(2 * Budget(ppm)), Budget(ppm))]
    ensures w1.station.asked == boot && w1.station.now == boot + Budget(ppm)
    ensures w1.station.log == [Frame(boot, boot + Budget(ppm), boot + 2 * Budget(ppm), Budget(ppm))]
  {
    hide Sound, Safe, Refused, Mirrored, Budget, Wrap, Send, Obeyed;
    BudgetSpent(ppm, boot);
    w1 := Happen(w0, TornRun(ppm, boot)[0]);
    SoundIsSafe(w1);
  }

  lemma MirrorSpent(w1: World, ppm: nat, boot: int) returns (w2: World)
    requires Sound(w1) && Safe(w1.station) && w1.past == [] && w1.station.boot == boot && w1.station.gov.ppm == ppm
    requires w1.station.gov.slots == [Slot(Wrap(2 * Budget(ppm)), Budget(ppm))]
    requires w1.station.asked == boot && w1.station.now == boot + Budget(ppm) <= boot + WINDOW
    ensures Possible(w1, TornRun(ppm, boot)[1]) && w2 == Happen(w1, TornRun(ppm, boot)[1])
    ensures Sound(w2) && w2.past == [] && w2.saved == Whole(w2.station)
    ensures w2.station.log == w1.station.log && w2.station.gov.slots == w1.station.gov.slots
    ensures w2.station.now == boot + Budget(ppm) == w2.station.asked
    ensures w2.station.boot == boot && w2.station.gov.ppm == ppm
  {
    hide Sound, Safe, Refused, Mirrored, Budget, Wrap, Prune;
    SpentStays(w1.station, 2 * Budget(ppm), Budget(ppm), boot + Budget(ppm));
    w2 := Happen(w1, TornRun(ppm, boot)[1]);
  }
}
