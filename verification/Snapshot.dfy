/** The duty-cycle window in a form that survives a reboot: the byte layout, written and read. */
module Snapshot {
  import opened Clock
  import opened Bytes
  import opened Governor
  import Crc

  const MAGIC: u32 := 0x5744434C
  const VERSION: u32 := 1
  const HDR: nat := 20
  const ENTRY: nat := 8
  const TAIL: nat := 4
  const STATE_MAX: nat := 1040
  const MAX_ENTRIES: nat := 127

  // ----- little-endian words

  function Put32(v: u32): (p: seq<byte>)
    ensures |p| == 4
  {
    [v % 256, v / 256 % 256, v / 256 / 256 % 256, v / 256 / 256 / 256]
  }

  function Get32(p: seq<byte>, at: nat): u32
    requires at + 4 <= |p|
  {
    (p[at] as int) + 0x100 * (p[at + 1] as int) + 0x1_0000 * (p[at + 2] as int) + 0x100_0000 * (p[at + 3] as int)
  }

  lemma GetPut(p: seq<byte>, at: nat, v: u32)
    requires at + 4 <= |p| && p[at..at + 4] == Put32(v)
    ensures Get32(p, at) == v
  {
    var w := p[at..at + 4];
    assert p[at] == w[0] && p[at + 1] == w[1] && p[at + 2] == w[2] && p[at + 3] == w[3];
    var a: nat := v / 256;
    var b: nat := a / 256;
    var c: nat := b / 256;
    assert w[0] == v % 256 && w[1] == a % 256 && w[2] == b % 256 && w[3] == c;
    assert v == 256 * a + w[0] && a == 256 * b + w[1] && b == 256 * c + w[2];
  }

  function CrcWord(p: seq<byte>): u32 {
    Crc.Crc32(p) as int
  }

  // ----- what is written

  /** An exported entry: how long ago the frame ended, as a two's-complement word, and its airtime. */
  datatype Entry = Entry(age: u32, toa: u32)

  function Skipped(n: nat): nat {
    if n > MAX_ENTRIES then n - MAX_ENTRIES else 0
  }

  /** Slot i of those exported; the first one kept carries the airtime of all those skipped. */
  function EntryAt(slots: seq<Slot>, now: u32, i: nat): Entry
    requires Skipped(|slots|) <= i < |slots|
  {
    var skip := Skipped(|slots|);
    Entry(Wrap(Delta(now, slots[i].end)), Wrap(slots[i].toa + if i == skip then Wrap(Sum(slots, skip)) else 0))
  }

  function Entries(slots: seq<Slot>, now: u32): (e: seq<Entry>)
    ensures |e| == |slots| - Skipped(|slots|) <= MAX_ENTRIES
    ensures forall i :: 0 <= i < |e| ==> e[i] == EntryAt(slots, now, Skipped(|slots|) + i)
  {
    var skip := Skipped(|slots|);
    seq(|slots| - skip, i requires 0 <= i < |slots| - skip => EntryAt(slots, now, skip + i))
  }

  function EntryBytes(e: seq<Entry>): (p: seq<byte>)
    ensures |p| == ENTRY * |e|
  {
    if |e| == 0 then []
    else EntryBytes(e[..|e| - 1]) + Put32(e[|e| - 1].age) + Put32(e[|e| - 1].toa)
  }

  function Header(n: u32, total: u32, blocked: u32): (p: seq<byte>)
    ensures |p| == HDR
  {
    Put32(MAGIC) + Put32(VERSION) + Put32(n) + Put32(total) + Put32(blocked)
  }

  function Body(e: seq<Entry>, total: u32, blocked: u32): (p: seq<byte>)
    requires |e| <= MAX_ENTRIES
    ensures |p| == HDR + ENTRY * |e|
  {
    Header(|e|, total, blocked) + EntryBytes(e)
  }

  /** loraitp_gov_export, for a buffer that is large enough. */
  function Export(g: State, now: u32): (p: seq<byte>)
    ensures HDR + TAIL <= |p| <= STATE_MAX
  {
    var e := Entries(Prune(g.slots, now), now);
    var body := Body(e, g.total, OffTimeWait(g, now));
    body + Put32(CrcWord(body))
  }

  // ----- what is read

  function Signed(v: u32): int {
    if v >= HALF then v - MODULUS else v
  }

  /** The first n entries, aged by the time away; those that left the hour meanwhile are dropped. */
  function Restored(p: seq<byte>, now: u32, away: u32, n: nat): (slots: seq<Slot>)
    requires HDR + ENTRY * n <= |p|
    ensures |slots| <= n
  {
    if n == 0 then []
    else
      var at := HDR + ENTRY * (n - 1);
      var aged := Signed(Get32(p, at)) + away;
      var earlier := Restored(p, now, away, n - 1);
      if aged >= WINDOW then earlier
      else earlier + [Slot(Wrap(now - aged), Get32(p, at + 4))]
  }

  /** A blob this build can read: magic, version, size and checksum. */
  predicate Readable(p: seq<byte>) {
    && |p| >= HDR + TAIL
    && Get32(p, 0) == MAGIC && Get32(p, 4) == VERSION
    && Get32(p, 8) <= MAX_ENTRIES
    && var body := HDR + ENTRY * Get32(p, 8);
      && |p| >= body + TAIL
      && Get32(p, body) == CrcWord(p[..body])
  }

  /** loraitp_gov_import; a blob that is refused leaves the state as it was. */
  function Import(g: State, now: u32, p: seq<byte>, away: u32): State {
    if !Readable(p) then g
    else
      var blocked := Get32(p, 16);
      State(g.ppm, Restored(p, now, away, Get32(p, 8)),
            if blocked > away then Wrap(now + (blocked - away)) else now,
            Get32(p, 12))
  }

  // ----- reading back what was written

  lemma {:induction false} EntryBytesAt(e: seq<Entry>, i: nat)
    requires i < |e|
    ensures EntryBytes(e)[ENTRY * i..ENTRY * i + 4] == Put32(e[i].age)
    ensures EntryBytes(e)[ENTRY * i + 4..ENTRY * i + 8] == Put32(e[i].toa)
  {
    hide Put32;
    var m := |e| - 1;
    var rest := EntryBytes(e[..m]);
    assert EntryBytes(e) == rest + Put32(e[m].age) + Put32(e[m].toa);
    if i < m {
      EntryBytesAt(e[..m], i);
      assert EntryBytes(e)[ENTRY * i..ENTRY * i + 4] == rest[ENTRY * i..ENTRY * i + 4];
      assert EntryBytes(e)[ENTRY * i + 4..ENTRY * i + 8] == rest[ENTRY * i + 4..ENTRY * i + 8];
    }
  }

  /** An exported blob is readable and carries the entries, the total and the block. */
  lemma ExportReadable(g: State, now: u32)
    ensures var e, p := Entries(Prune(g.slots, now), now), Export(g, now);
      && Readable(p) && Get32(p, 8) == |e| && Get32(p, 12) == g.total && Get32(p, 16) == OffTimeWait(g, now)
      && |p| == HDR + ENTRY * |e| + TAIL
      && (forall i :: 0 <= i < |e| ==>
            Get32(p, HDR + ENTRY * i) == e[i].age && Get32(p, HDR + ENTRY * i + 4) == e[i].toa)
  {
    hide Put32, Get32, Entries, Prune, OffTimeWait, CrcWord, EntryBytes;
    var e, p := Entries(Prune(g.slots, now), now), Export(g, now);
    var body := Body(e, g.total, OffTimeWait(g, now));
    var b := HDR + ENTRY * |e|;
    HeaderWords(|e|, g.total, OffTimeWait(g, now), EntryBytes(e) + Put32(CrcWord(body)));
    assert p == Header(|e|, g.total, OffTimeWait(g, now)) + (EntryBytes(e) + Put32(CrcWord(body)));
    assert p[b..b + 4] == Put32(CrcWord(body));
    GetPut(p, b, CrcWord(body));
    assert p[..b] == body;
    forall i | 0 <= i < |e|
      ensures Get32(p, HDR + ENTRY * i) == e[i].age && Get32(p, HDR + ENTRY * i + 4) == e[i].toa
    {
      EntryBytesAt(e, i);
      var at := HDR + ENTRY * i;
      assert p[at..at + 4] == EntryBytes(e)[ENTRY * i..ENTRY * i + 4];
      assert p[at + 4..at + 8] == EntryBytes(e)[ENTRY * i + 4..ENTRY * i + 8];
      GetPut(p, at, e[i].age);
      GetPut(p, at + 4, e[i].toa);
    }
  }

  /** Where everything in a snapshot stands: five words, two words an entry, and the checksum of all before it. */
  lemma SnapshotLayout(g: State, now: u32)
    ensures var kept, p := Prune(g.slots, now), Export(g, now);
      var n := if |kept| <= 127 then |kept| else 127;
      && |p| == 24 + 8 * n <= 1040
      && Get32(p, 0) == 0x5744434C && Get32(p, 4) == 1 && Get32(p, 8) == n && Get32(p, 12) == g.total
      && Get32(p, 16) == OffTimeWait(g, now) && Get32(p, 20 + 8 * n) == CrcWord(p[..20 + 8 * n])
      && forall i :: 1 <= i < n ==>
           && Get32(p, 20 + 8 * i) == Wrap(Delta(now, kept[|kept| - n + i].end))
           && Get32(p, 24 + 8 * i) == kept[|kept| - n + i].toa
  {
    hide Get32, Prune, OffTimeWait, CrcWord, Delta, Export, Sum;
    ExportReadable(g, now);
    var kept, p := Prune(g.slots, now), Export(g, now);
    var e := Entries(kept, now);
    forall i | 1 <= i < |e|
      ensures Get32(p, 20 + 8 * i) == Wrap(Delta(now, kept[|kept| - |e| + i].end))
      ensures Get32(p, 24 + 8 * i) == kept[|kept| - |e| + i].toa
    {
      assert e[i] == EntryAt(kept, now, Skipped(|kept|) + i);
      WrapSmall(kept[Skipped(|kept|) + i].toa);
    }
  }

  lemma HeaderWords(n: u32, total: u32, blocked: u32, rest: seq<byte>)
    ensures var p := Header(n, total, blocked) + rest;
      && Get32(p, 0) == MAGIC && Get32(p, 4) == VERSION && Get32(p, 8) == n
      && Get32(p, 12) == total && Get32(p, 16) == blocked
  {
    hide Put32, Get32;
    var p := Header(n, total, blocked) + rest;
    assert p[0..4] == Put32(MAGIC);
    assert p[4..8] == Put32(VERSION);
    assert p[8..12] == Put32(n);
    assert p[12..16] == Put32(total);
    assert p[16..20] == Put32(blocked);
    GetPut(p, 0, MAGIC);
    GetPut(p, 4, VERSION);
    GetPut(p, 8, n);
    GetPut(p, 12, total);
    GetPut(p, 16, blocked);
  }

  // ----- in place

  method Put32At(buf: array<byte>, at: nat, v: u32)
    requires at + 4 <= buf.Length
    modifies buf
    ensures buf[at..at + 4] == Put32(v)
    ensures forall x :: 0 <= x < buf.Length && !(at <= x < at + 4) ==> buf[x] == old(buf[x])
  {
    buf[at] := v % 256;
    buf[at + 1] := v / 256 % 256;
    buf[at + 2] := v / 256 / 256 % 256;
    buf[at + 3] := v / 256 / 256 / 256;
  }

  method WriteEntry(buf: array<byte>, ghost e: seq<Entry>, n: nat, age: u32, toa: u32)
    requires n < |e| <= MAX_ENTRIES && buf.Length >= STATE_MAX
    requires e[n] == Entry(age, toa)
    requires buf[HDR..HDR + ENTRY * n] == EntryBytes(e[..n])
    modifies buf
    ensures buf[HDR..HDR + ENTRY * (n + 1)] == EntryBytes(e[..n + 1])
  {
    hide Put32;
    var at := HDR + ENTRY * n;
    ghost var written := buf[HDR..at];
    Put32At(buf, at, age);
    assert buf[HDR..at] == written;
    Put32At(buf, at + 4, toa);
    assert buf[HDR..at] == written && buf[at..at + 4] == Put32(age);
    assert e[..n + 1][..n] == e[..n];
    assert buf[HDR..at + 8] == buf[HDR..at] + buf[at..at + 4] + buf[at + 4..at + 8];
  }

  /** The airtime carried from skipped slots when slot i is reached. */
  ghost function Carried(slots: seq<Slot>, i: nat): u32
    requires i <= |slots|
  {
    if i <= Skipped(|slots|) then Wrap(Sum(slots, i)) else 0
  }

  lemma CarriedStep(slots: seq<Slot>, now: u32, i: nat)
    requires i < |slots|
    ensures Carried(slots, 0) == 0
    ensures i < Skipped(|slots|) ==> Carried(slots, i + 1) == Wrap(Carried(slots, i) + slots[i].toa)
    ensures i >= Skipped(|slots|) ==> Carried(slots, i + 1) == 0
    ensures i >= Skipped(|slots|) ==>
              EntryAt(slots, now, i) == Entry(Wrap(Delta(now, slots[i].end)), Wrap(slots[i].toa + Carried(slots, i)))
  {
    hide Wrap, Delta;
    WrapSmall(0);
    if i < Skipped(|slots|) {
      WrapWrap(Sum(slots, i), slots[i].toa);
    }
  }

  /** The loop that folds and writes the entries. */
  method WriteEntries(r: Ring, now: u32, buf: array<byte>) returns (n: nat)
    requires r.Valid() && buf.Length >= STATE_MAX
    modifies buf
    ensures n == |Entries(r.Slots(), now)|
    ensures buf[HDR..HDR + ENTRY * n] == EntryBytes(Entries(r.Slots(), now))
  {
    hide Wrap, Delta, Put32, Carried, EntryAt, EntryBytes, r.At;
    ghost var slots := r.Slots();
    ghost var e := Entries(slots, now);
    var skip := if r.n > MAX_ENTRIES then r.n - MAX_ENTRIES else 0;
    var folded: u32 := 0;
    n := 0;
    NothingWritten(buf, e);
    for i := 0 to r.n
      invariant r.Slots() == slots
      invariant n == if i < skip then 0 else i - skip
      invariant i > 0 ==> folded == Carried(slots, i)
      invariant i == 0 ==> folded == 0
      invariant buf[HDR..HDR + ENTRY * n] == EntryBytes(e[..n])
    {
      CarriedStep(slots, now, i);
      var s := r.At(i);
      assert slots[i] == Slot(r.slotEnd[s], r.slotToa[s]);
      if i < skip {
        folded := Wrap(folded + r.slotToa[s]);
      } else {
        var toa := Wrap(r.slotToa[s] + folded);
        folded := 0;
        WriteEntry(buf, e, n, Wrap(Delta(now, r.slotEnd[s])), toa);
        n := n + 1;
      }
    }
    assert e[..n] == e;
  }

  lemma NothingWritten(buf: array<byte>, e: seq<Entry>)
    requires buf.Length >= STATE_MAX
    ensures buf[HDR..HDR + ENTRY * 0] == EntryBytes(e[..0])
  {
  }

  method WriteHeader(buf: array<byte>, n: u32, total: u32, blocked: u32)
    requires buf.Length >= STATE_MAX
    modifies buf
    ensures buf[..HDR] == Header(n, total, blocked)
    ensures forall x :: HDR <= x < buf.Length ==> buf[x] == old(buf[x])
  {
    hide Put32;
    Put32At(buf, 0, MAGIC);
    Put32At(buf, 4, VERSION);
    Put32At(buf, 8, n);
    Put32At(buf, 12, total);
    Put32At(buf, 16, blocked);
    assert buf[0..4] == Put32(MAGIC) && buf[4..8] == Put32(VERSION) && buf[8..12] == Put32(n);
    assert buf[12..16] == Put32(total);
    assert buf[..HDR] == buf[0..4] + buf[4..8] + buf[8..12] + buf[12..16] + buf[16..20];
  }

  /** loraitp_gov_export: bytes written, or none when the buffer is too small. */
  method ExportState(r: Ring, now: u32, buf: array<byte>) returns (len: nat)
    requires r.Valid()
    modifies r`head, r`n, buf
    ensures r.Valid()
    ensures buf.Length < STATE_MAX ==> len == 0 && r.View() == old(r.View()) && buf[..] == old(buf[..])
    ensures buf.Length >= STATE_MAX ==>
              && r.View() == old(r.View()).(slots := Prune(old(r.Slots()), now))
              && 0 < len <= STATE_MAX && buf[..len] == Export(old(r.View()), now)
  {
    hide Put32, Delta, Prune, EntryBytes, Entries, Header, r.At;
    if buf.Length < STATE_MAX {
      return 0;
    }
    r.PruneRing(now);
    var n := WriteEntries(r, now, buf);
    ghost var e := Entries(r.Slots(), now);
    var blocked: u32 := if Delta(r.blocked, now) > 0 then Delta(r.blocked, now) else 0;
    len := Finish(buf, e, n, r.total, blocked);
  }

  /** Header and checksum around the entries. */
  method Finish(buf: array<byte>, ghost e: seq<Entry>, n: nat, total: u32, blocked: u32) returns (len: nat)
    requires buf.Length >= STATE_MAX && n == |e| <= MAX_ENTRIES
    requires buf[HDR..HDR + ENTRY * n] == EntryBytes(e)
    modifies buf
    ensures 0 < len <= STATE_MAX
    ensures buf[..len] == Body(e, total, blocked) + Put32(CrcWord(Body(e, total, blocked)))
  {
    hide Put32, EntryBytes, Header, Crc.Update;
    var body := HDR + ENTRY * n;
    ghost var entries := buf[HDR..body];
    WriteHeader(buf, n, total, blocked);
    assert buf[HDR..body] == entries;
    ghost var b := buf[..body];
    assert b == buf[..HDR] + buf[HDR..body];
    var crc := Crc.UpdateCrc(0, buf, body);
    Put32At(buf, body, crc as int);
    assert buf[..body] == b;
    len := body + TAIL;
    assert buf[..len] == buf[..body] + buf[body..body + 4];
  }

  /** The loop that reads the entries back. */
  method ReadEntries(r: Ring, now: u32, buf: seq<byte>, away: u32, n: nat)
    requires r.Valid() && r.head == 0 && r.n == 0 && n <= MAX_ENTRIES && HDR + ENTRY * n <= |buf|
    modifies r`n, r.slotEnd, r.slotToa
    ensures r.Valid() && r.Slots() == Restored(buf, now, away, n)
  {
    hide Wrap, Get32, Signed, r.At;
    for i := 0 to n
      invariant r.Valid() && r.head == 0 && r.n <= i
      invariant r.Slots() == Restored(buf, now, away, i)
    {
      var at := HDR + ENTRY * i;
      var aged := Signed(Get32(buf, at)) + away;
      if aged < WINDOW {
        ghost var before := r.Slots();
        r.slotEnd[r.n] := Wrap(now - aged);
        r.slotToa[r.n] := Get32(buf, at + 4);
        r.n := r.n + 1;
        assert r.Slots() == before + [Slot(Wrap(now - aged), Get32(buf, at + 4))];
      }
    }
  }

  /** loraitp_gov_import: whether the blob was accepted. */
  method ImportState(r: Ring, now: u32, buf: seq<byte>, away: u32) returns (ok: bool)
    requires r.Valid()
    modifies r, r.slotEnd, r.slotToa
    ensures r.Valid()
    ensures ok == Readable(buf)
    ensures r.View() == Import(old(r.View()), now, buf, away)
  {
    hide Wrap, Get32, Restored, CrcWord, r.At;
    if |buf| < HDR + TAIL {
      return false;
    }
    if Get32(buf, 0) != MAGIC || Get32(buf, 4) != VERSION {
      return false;
    }
    var n := Get32(buf, 8);
    if n > MAX_ENTRIES {
      return false;
    }
    var body := HDR + ENTRY * n;
    if |buf| < body + TAIL {
      return false;
    }
    if Get32(buf, body) != CrcWord(buf[..body]) {
      return false;
    }
    r.head := 0;
    r.n := 0;
    r.total := Get32(buf, 12);
    ReadEntries(r, now, buf, away, n);
    var blocked := Get32(buf, 16);
    r.blocked := if blocked > away then Wrap(now + (blocked - away)) else now;
    return true;
  }

  /** A word goes out low byte first. */
  lemma WordBytes(v: u32)
    ensures (Put32(v)[0] as int) + 0x100 * (Put32(v)[1] as int) + 0x1_0000 * (Put32(v)[2] as int)
            + 0x100_0000 * (Put32(v)[3] as int) == v
  {
    assert Put32(v)[0..4] == Put32(v);
    GetPut(Put32(v), 0, v);
  }
}
