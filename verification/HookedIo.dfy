/**
 * The writing side of change files. resize2fs works on an image it must not
 * change: what it writes goes into a change file, its reads see what it has
 * written, and replaying the change file on a device that holds the image
 * makes the device what resize2fs saw.
 */
module HookedIo {
  import opened Words
  import opened ChangeFile

  const SECTOR: nat := 512

  // ----- log entries as bytes -----

  /** One entry of the write log: 64 bits of offset, 62 of size and two flags. */
  datatype LogEntry = LogEntry(offset: nat, size: nat, zero: bool, small: bool)

  /** The lowest `n` bytes of a number, low byte first. */
  function Bytes(x: nat, n: nat): (s: seq<Byte>)
    ensures |s| == n
    decreases n
  {
    if n == 0 then [] else [x % 256] + Bytes(x / 256, n - 1)
  }

  predicate Narrow(x: nat, n: nat)
    decreases n
  {
    if n == 0 then x == 0 else Narrow(x / 256, n - 1)
  }

  lemma {:induction false} BytesBack(x: nat, n: nat)
    requires Narrow(x, n)
    ensures Little(Bytes(x, n)) == x
    decreases n
  {
    if n > 0 { BytesBack(x / 256, n - 1); }
  }

  lemma NarrowWord(x: nat)
    ensures x < U64 ==> Narrow(x, 8)
    ensures x < U32 ==> Narrow(x, 4)
  {
    var y := x / 256 / 256 / 256 / 256;
    assert Narrow(y, 4) ==> Narrow(x, 8);
    assert x < U64 ==> y < U32;
    NarrowFour(x);
    NarrowFour(y);
  }

  lemma NarrowFour(x: nat)
    ensures x < U32 ==> Narrow(x, 4)
  {
    if x < U32 { assert Narrow(x / 256 / 256 / 256 / 256, 0); }
  }

  function Record(e: LogEntry): (s: seq<Byte>)
    ensures |s| == 16
  {
    Bytes(e.offset, 8) + Bytes(Flagged(e), 8)
  }

  function Flagged(e: LogEntry): nat {
    e.size + (if e.zero then 0x4000_0000_0000_0000 else 0) + if e.small then 0x8000_0000_0000_0000 else 0
  }

  function Records(log: seq<LogEntry>): (s: seq<Byte>)
    ensures |s| == 16 * |log|
  {
    if log == [] then [] else Record(log[0]) + Records(log[1..])
  }

  /** What a reader makes of an entry. */
  function Meant(e: LogEntry): Entry { Entry(e.offset, Flagged(e)) }

  function MeantAll(log: seq<LogEntry>): (es: seq<Entry>)
    ensures |es| == |log| && forall i | 0 <= i < |log| :: es[i] == Meant(log[i])
  {
    seq(|log|, i requires 0 <= i < |log| => Meant(log[i]))
  }

  predicate Encodable(e: LogEntry) { e.offset < U64 && e.size < 0x4000_0000_0000_0000 }

  /** The flags and the size come back. */
  lemma MeantParts(e: LogEntry)
    requires Encodable(e)
    ensures Meant(e).Small() == e.small && Meant(e).Zero() == (e.zero && !e.small)
    ensures Meant(e).Size() == e.size && Meant(e).offset == e.offset
  {
  }

  lemma RecordBack(e: LogEntry, rest: seq<Byte>)
    requires Encodable(e)
    ensures var s := Record(e) + rest; Word(s, 0, 8) == e.offset && Word(s, 8, 8) == Flagged(e)
  {
    hide Bytes, Little, Narrow;
    var s := Record(e) + rest;
    assert s[0..8] == Bytes(e.offset, 8) && s[8..16] == Bytes(Flagged(e), 8);
    NarrowWord(e.offset);
    NarrowWord(Flagged(e));
    BytesBack(e.offset, 8);
    BytesBack(Flagged(e), 8);
  }

  /** The reader finds exactly the entries that were logged, each in its own area. */
  lemma {:induction false} EntriesBack(log: seq<LogEntry>)
    requires forall i | 0 <= i < |log| :: Encodable(log[i])
    ensures |Entries(Records(log))| == |log|
    ensures forall i | 0 <= i < |log| ::
      var e := Entries(Records(log))[i];
      && e == Meant(log[i]) && e.offset == log[i].offset && e.Size() == log[i].size
      && e.Small() == log[i].small && e.Zero() == (log[i].zero && !log[i].small)
  {
    hide Record, Word, Flagged, Entry.Small, Entry.Zero, Entry.Size;
    forall i | 0 <= i < |log|
      ensures Meant(log[i]).Small() == log[i].small && Meant(log[i]).Zero() == (log[i].zero && !log[i].small)
      ensures Meant(log[i]).Size() == log[i].size && Meant(log[i]).offset == log[i].offset
    {
      MeantParts(log[i]);
    }
    if log != [] {
      var s := Records(log);
      RecordBack(log[0], Records(log[1..]));
      assert s[16..] == Records(log[1..]);
      EntriesBack(log[1..]);
    }
  }

  // ----- the file -----

  function Trailer(logOffset: nat, logSize: nat, smallSize: nat): (s: seq<Byte>)
    ensures |s| == FOOTER_SIZE
  {
    SIGNATURE + Bytes(logOffset, 8) + Bytes(logSize % U32, 4) + Bytes(smallSize % U32, 4)
  }

  /** The payloads, the log, no small writes, and the footer. */
  function FileOf(changes: seq<Byte>, log: seq<LogEntry>): seq<Byte> {
    changes + Records(log) + Trailer(|changes|, 16 * |log|, 0)
  }

  lemma TrailerBack(file: seq<Byte>, front: seq<Byte>, logOffset: nat, logSize: nat, smallSize: nat)
    requires file == front + Trailer(logOffset, logSize, smallSize) && logOffset < U64
    ensures ReadFooter(file) == Footer(SIGNATURE, Signed64(logOffset), Signed32(logSize % U32), Signed32(smallSize % U32))
  {
    hide Bytes, Little, Narrow, SIGNATURE, Signed32, Signed64;
    var f := file[|file| - FOOTER_SIZE..];
    assert f == Trailer(logOffset, logSize, smallSize);
    assert f[..16] == SIGNATURE && f[16..24] == Bytes(logOffset, 8);
    assert f[24..28] == Bytes(logSize % U32, 4);
    assert f[28..] == Bytes(smallSize % U32, 4) && f[28..32] == f[28..];
    NarrowWord(logOffset);
    NarrowWord(logSize % U32);
    NarrowWord(smallSize % U32);
    BytesBack(logOffset, 8);
    BytesBack(logSize % U32, 4);
    BytesBack(smallSize % U32, 4);
  }

  /** The reader takes the file exactly when the log and the footer together have at most 2^31 bytes. */
  lemma FooterExactly(changes: seq<Byte>, log: seq<LogEntry>)
    requires |FileOf(changes, log)| < U64 / 2
    ensures var file := FileOf(changes, log);
      && (GoodFooter(file) <==> 16 * |log| + 32 <= U32 / 2)
      && (GoodFooter(file) ==> LogOf(file) == Records(log))
  {
    hide Trailer, Records, SIGNATURE, ReadFooter;
    var file, l := FileOf(changes, log), 16 * |log|;
    TrailerBack(file, changes + Records(log), |changes|, l, 0);
    FooterNumbers(|changes|, l, |file|);
    assert file[|changes|..|changes| + l] == Records(log);
  }

  lemma FooterNumbers(at: nat, l: nat, n: nat)
    requires n == at + l + 32 < U64 / 2
    ensures Signed64(at) == at && Signed32(0 % U32) == 0
    ensures var k := Signed32(l % U32); k >= 0 && n + Signed32(0 - 32 - k - 0) == at ==> l + 32 <= U32 / 2
    ensures l + 32 <= U32 / 2 ==> Signed32(l % U32) == l && n + Signed32(0 - 32 - l - 0) == at
  {
  }

  // ----- what the log says about a byte -----

  /** Entries that a run makes: no small writes, sizes that an int holds. */
  predicate Plain(es: seq<Entry>) { forall i | 0 <= i < |es| :: !es[i].Small() && es[i].Size() < U32 / 2 }

  /** The byte that the last entry covering it gives it, out of the payloads. */
  ghost function Shown(es: seq<Entry>, changes: seq<Byte>, b: nat): Option<Byte> {
    if es == [] then None
    else
      var front, e := es[..|es| - 1], es[|es| - 1];
      if !EntryCovers(e, 0, b) then Shown(front, changes, b)
      else if e.Zero() then Some(0)
      else
        var at := Taken(front, false) + (b - e.offset);
        Some(if at < |changes| then changes[at] else 0)
  }

  lemma TakenNext(es: seq<Entry>, e: Entry)
    requires !e.Small() && e.Size() < U32 / 2
    ensures Taken(es + [e], false) == Taken(es, false) + if e.Zero() then 0 else e.Size()
  {
    hide Taken;
    TakenAdd(es, e, false);
    SizeKept(e);
  }

  lemma TakenLast(es: seq<Entry>)
    requires es != [] && Plain(es)
    ensures var front, e := es[..|es| - 1], es[|es| - 1];
      Plain(front) && Taken(es, false) == Taken(front, false) + if e.Zero() then 0 else e.Size()
  {
    hide Taken, Entry.Small, Entry.Zero, Entry.Size;
    var front, e := es[..|es| - 1], es[|es| - 1];
    assert es == front + [e];
    TakenNext(front, e);
  }

  /** Payloads written later change nothing for the entries before them. */
  lemma {:induction false} ShownKept(es: seq<Entry>, changes: seq<Byte>, more: seq<Byte>, b: nat)
    requires Plain(es) && Taken(es, false) <= |changes|
    ensures Shown(es, changes + more, b) == Shown(es, changes, b)
  {
    hide Taken, Entry.Small, Entry.Zero, Entry.Size;
    if es != [] {
      TakenLast(es);
      ShownKept(es[..|es| - 1], changes, more, b);
    }
  }

  /** One more entry, with its payload behind the others. */
  lemma ShownGrows(es: seq<Entry>, changes: seq<Byte>, e: Entry, payload: seq<Byte>, b: nat)
    requires Plain(es) && Taken(es, false) == |changes| && |payload| == if e.Zero() then 0 else e.Size()
    ensures Shown(es + [e], changes + payload, b) ==
      if !EntryCovers(e, 0, b) then Shown(es, changes, b)
      else if e.Zero() then Some(0) else Some(payload[b - e.offset])
  {
    hide Taken, Entry.Small, Entry.Zero, Entry.Size;
    assert (es + [e])[..|es|] == es;
    ShownKept(es, changes, payload, b);
  }

  /** Either no entry covers the byte, or it is given by one that no later one covers. */
  lemma {:induction false} ShownLast(es: seq<Entry>, changes: seq<Byte>, b: nat) returns (k: int)
    requires Plain(es) && Taken(es, false) <= |changes|
    ensures -1 <= k < |es| && (k == -1 <==> Shown(es, changes, b).None?)
    ensures forall j | k < j < |es| :: !EntryCovers(es[j], 0, b)
    ensures k >= 0 ==> EntryCovers(es[k], 0, b)
    ensures k >= 0 && es[k].Zero() ==> Shown(es, changes, b) == Some(0)
    ensures k >= 0 && !es[k].Zero() ==>
      var at := Taken(es[..k], false) + (b - es[k].offset); at < |changes| && Shown(es, changes, b) == Some(changes[at])
  {
    hide Taken, Entry.Small, Entry.Zero, Entry.Size, EntryCovers;
    k := -1;
    if es != [] {
      var n := |es| - 1;
      TakenLast(es);
      if EntryCovers(es[n], 0, b) {
        k := n;
        CoveredSize(es[n], b);
      } else {
        k := ShownLast(es[..n], changes, b);
        assert k >= 0 ==> es[..n][..k] == es[..k];
      }
    }
  }

  lemma CoveredSize(e: Entry, b: nat)
    requires EntryCovers(e, 0, b)
    ensures e.offset <= b < e.offset + e.Size()
  {
  }

  /** What a replay leaves on the device is what the log says, and what was there where it says nothing. */
  lemma ReplayShows(was: seq<Byte>, file: seq<Byte>, changes: seq<Byte>, es: seq<Entry>, base: nat, partition: nat, d: nat, v: Byte)
    requires Plain(es) && Taken(es, false) <= |changes| && changes <= file && d < |was|
    requires Replayed(was, file, es, base, partition, d, v)
    ensures d < partition ==> v == was[d]
    ensures d >= partition ==>
      var s := Shown(es, changes, d - partition); v == if s.Some? then s.value else was[d]
  {
    hide Taken, Entry.Small, Entry.Zero, Entry.Size, EntryCovers, Shown, Payload;
    if d < partition {
      forall k | 0 <= k < |es|
        ensures !EntryCovers(es[k], partition, d)
      {
        NotBelow(es[k], partition, d);
      }
    } else {
      var b := d - partition;
      var k := ShownLast(es, changes, b);
      forall j | 0 <= j < |es|
        ensures EntryCovers(es[j], partition, d) <==> EntryCovers(es[j], 0, b)
      {
        Shifted(es[j], partition, d);
      }
      if k >= 0 {
        PayloadIs(file, changes, es, k, base, partition, d);
        assert v == Payload(file, es, k, base, partition, d);
      }
    }
  }

  lemma PayloadIs(file: seq<Byte>, changes: seq<Byte>, es: seq<Entry>, k: nat, base: nat, partition: nat, d: nat)
    requires k < |es| && !es[k].Small() && EntryCovers(es[k], partition, d) && changes <= file
    ensures es[k].Zero() ==> Payload(file, es, k, base, partition, d) == 0
    ensures var at := Taken(es[..k], false) + (d - partition - es[k].offset);
      !es[k].Zero() && at < |changes| ==> at >= 0 && Payload(file, es, k, base, partition, d) == changes[at]
  {
    hide Taken, Entry.Small, Entry.Zero, Entry.Size;
  }

  lemma NotBelow(e: Entry, partition: nat, d: nat)
    requires d < partition
    ensures !EntryCovers(e, partition, d)
  {
  }

  lemma Shifted(e: Entry, partition: nat, d: nat)
    requires d >= partition
    ensures EntryCovers(e, partition, d) <==> EntryCovers(e, 0, d - partition)
  {
  }

  // ----- the sector map -----

  /** The byte that the change file holds, by way of the sector map; -1 stands for a sector of zeros. */
  ghost function Held(sectors: map<nat, int>, changes: seq<Byte>, b: nat): Option<Byte> {
    var n := b / SECTOR;
    if n !in sectors then None
    else if sectors[n] == -1 then Some(0)
    else
      var at := sectors[n] * SECTOR + b % SECTOR;
      Some(if 0 <= at < |changes| then changes[at] else 0)
  }

  ghost predicate MapsInto(sectors: map<nat, int>, k: nat) {
    forall n | n in sectors :: -1 <= sectors[n] < k
  }

  lemma HeldPut(sectors: map<nat, int>, changes: seq<Byte>, k: nat, n: nat, content: seq<Byte>)
    requires MapsInto(sectors, k) && |changes| == SECTOR * k && |content| == SECTOR
    ensures MapsInto(sectors[n := k], k + 1)
    ensures forall b: nat ::
      Held(sectors[n := k], changes + content, b) ==
      if b / SECTOR == n then Some(content[b % SECTOR]) else Held(sectors, changes, b)
  {
  }

  lemma HeldZero(sectors: map<nat, int>, changes: seq<Byte>, k: nat, n: nat, content: seq<Byte>)
    requires MapsInto(sectors, k) && |content| == SECTOR && forall i | 0 <= i < SECTOR :: content[i] == 0
    ensures MapsInto(sectors[n := -1], k)
    ensures forall b: nat ::
      Held(sectors[n := -1], changes, b) == if b / SECTOR == n then Some(content[b % SECTOR]) else Held(sectors, changes, b)
  {
    var sectors' := sectors[n := -1];
    forall b: nat
      ensures Held(sectors', changes, b) == if b / SECTOR == n then Some(content[b % SECTOR]) else Held(sectors, changes, b)
    {
      assert b / SECTOR != n ==> (b / SECTOR in sectors' <==> b / SECTOR in sectors);
    }
  }

  /** The first map with these bytes over it gives the second. */
  ghost predicate Over(sectors: map<nat, int>, changes: seq<Byte>, sectors': map<nat, int>, changes': seq<Byte>, at: nat, part: seq<Byte>) {
    forall b: nat :: Held(sectors', changes', b) == if at <= b < at + |part| then Some(part[b - at]) else Held(sectors, changes, b)
  }

  lemma OverNothing(sectors: map<nat, int>, changes: seq<Byte>, at: nat)
    ensures Over(sectors, changes, sectors, changes, at, [])
  {
  }

  lemma OverMeans(s0: map<nat, int>, c0: seq<Byte>, s1: map<nat, int>, c1: seq<Byte>, at: nat, part: seq<Byte>)
    requires Over(s0, c0, s1, c1, at, part)
    ensures forall b: nat :: Held(s1, c1, b) == if at <= b < at + |part| then Some(part[b - at]) else Held(s0, c0, b)
  {
  }

  lemma OverKeys(s0: map<nat, int>, c0: seq<Byte>, s1: map<nat, int>, c1: seq<Byte>, at: nat, part: seq<Byte>)
    requires Over(s0, c0, s1, c1, at, part)
    ensures forall k: nat :: k in s1 <==> k in s0 || at <= k * SECTOR < at + |part|
  {
    forall k: nat
      ensures k in s1 <==> k in s0 || at <= k * SECTOR < at + |part|
    {
      assert k * SECTOR / SECTOR == k;
      assert Held(s1, c1, k * SECTOR).Some? <==> k in s1;
      assert Held(s0, c0, k * SECTOR).Some? <==> k in s0;
    }
  }

  lemma OverNext(s0: map<nat, int>, c0: seq<Byte>, s1: map<nat, int>, c1: seq<Byte>, s2: map<nat, int>, c2: seq<Byte>,
                 at: nat, part: seq<Byte>, content: seq<Byte>)
    requires Over(s0, c0, s1, c1, at, part) && at % SECTOR == 0 && |part| % SECTOR == 0 && |content| == SECTOR
    requires forall b: nat ::
      Held(s2, c2, b) == if b / SECTOR == (at + |part|) / SECTOR then Some(content[b % SECTOR]) else Held(s1, c1, b)
    ensures Over(s0, c0, s2, c2, at, part + content)
  {
    hide Held;
    var cur := at + |part|;
    forall b: nat
      ensures Held(s2, c2, b) == if at <= b < at + |part + content| then Some((part + content)[b - at]) else Held(s0, c0, b)
    {
      SectorOf(cur, b);
    }
  }

  lemma SectorOf(at: nat, b: nat)
    requires at % SECTOR == 0
    ensures b / SECTOR == at / SECTOR <==> at <= b < at + SECTOR
    ensures at <= b < at + SECTOR ==> b % SECTOR == b - at
  {
  }

  lemma NextSector(at: nat)
    requires at % SECTOR == 0
    ensures at / SECTOR * SECTOR == at && (at + SECTOR) / SECTOR == at / SECTOR + 1 && (at + SECTOR) % SECTOR == 0
  {
  }

  // ----- the map and the log agree -----

  predicate Fine(e: LogEntry) { e.offset + e.size < U64 / 2 && e.size < U32 / 2 && !e.small }

  ghost predicate Agree(log: seq<LogEntry>, sectors: map<nat, int>, changes: seq<Byte>) {
    && (forall i | 0 <= i < |log| :: Fine(log[i]))
    && Taken(MeantAll(log), false) == |changes|
    && (forall b: nat :: Shown(MeantAll(log), changes, b) == Held(sectors, changes, b))
  }

  lemma FinePlain(log: seq<LogEntry>)
    requires forall i | 0 <= i < |log| :: Fine(log[i])
    ensures Plain(MeantAll(log)) && forall i | 0 <= i < |log| :: Encodable(log[i])
    ensures forall i | 0 <= i < |log| :: Meant(log[i]).Size() == log[i].size && Meant(log[i]).Zero() == log[i].zero
    ensures forall i | 0 <= i < |log| :: !Meant(log[i]).Small() && Meant(log[i]).offset == log[i].offset
  {
    hide Entry.Small, Entry.Zero, Entry.Size, Flagged;
    forall i | 0 <= i < |log|
      ensures Encodable(log[i]) && Meant(log[i]).Size() == log[i].size && Meant(log[i]).Zero() == log[i].zero
      ensures !Meant(log[i]).Small() && Meant(log[i]).offset == log[i].offset
    {
      MeantParts(log[i]);
    }
  }

  /** Logging what has been written keeps them in agreement. */
  lemma AgreeGrows(log: seq<LogEntry>, s0: map<nat, int>, c0: seq<Byte>, s1: map<nat, int>, e: LogEntry, payload: seq<Byte>, buf: seq<Byte>)
    requires Agree(log, s0, c0) && Fine(e) && e.size == |buf|
    requires if e.zero then payload == [] && forall i | 0 <= i < |buf| :: buf[i] == 0 else payload == buf
    requires Over(s0, c0, s1, c0 + payload, e.offset, buf)
    ensures Agree(log + [e], s1, c0 + payload)
  {
    hide Taken, Shown, Held, Entry.Small, Entry.Zero, Entry.Size, Flagged, EntryCovers;
    var es, x := MeantAll(log), Meant(e);
    FinePlain(log);
    FinePlain([e]);
    assert [e][0] == e;
    assert MeantAll(log + [e]) == es + [x];
    TakenNext(es, x);
    forall b: nat
      ensures Shown(es + [x], c0 + payload, b) == Held(s1, c0 + payload, b)
    {
      ShownGrows(es, c0, x, payload, b);
      CoversMeans(x, b);
      assert Shown(es, c0, b) == Held(s0, c0, b);
    }
  }

  lemma CoversMeans(e: Entry, b: nat)
    ensures EntryCovers(e, 0, b) <==> e.offset <= b < e.offset + e.Size()
  {
  }

  // ----- the hooked file -----

  /** The first sector of the buffer is the one at this place of the image. */
  ghost predicate Starts(buf: seq<Byte>, image: seq<Byte>, at: nat) {
    |buf| >= SECTOR && at + SECTOR <= |image| && buf[..SECTOR] == image[at..at + SECTOR]
  }

  lemma StartsOn(buf: seq<Byte>, next: seq<Byte>, image: seq<Byte>, at: nat)
    ensures Starts(buf, image, at) ==> Starts(buf + next, image, at)
    ensures buf == [] && |next| == SECTOR && at + SECTOR <= |image| && next == image[at..at + SECTOR] ==> Starts(buf + next, image, at)
  {
    if |buf| >= SECTOR { assert (buf + next)[..SECTOR] == buf[..SECTOR]; }
    if buf == [] && |next| == SECTOR { assert (buf + next)[..SECTOR] == next; }
  }

  class HookedFile {
    /** The image, which is only read, and where in it the partition starts. */
    const image: seq<Byte>
    const base: nat
    const sizeOnDisk: nat
    /** The image's file pointer, and the offset in the partition that it should stand for. */
    var position: nat
    var cur: nat
    /** The change file, its file pointer, and the number of sectors in it. */
    var changes: seq<Byte>
    var changeAt: nat
    var sector: nat
    var sectors: map<nat, int>
    var log: seq<LogEntry>

    ghost predicate Valid()
      reads `changes, `changeAt, `sector, `sectors, `log
    {
      && |changes| == SECTOR * sector == changeAt && MapsInto(sectors, sector)
      && Agree(log, sectors, changes)
    }

    /** The partition before any write: beyond the image there are zeros. */
    ghost function Original(b: nat): Byte {
      if b / SECTOR * SECTOR >= sizeOnDisk || base + b >= |image| then 0 else image[base + b]
    }

    /** The partition as resize2fs sees it. */
    ghost function View(b: nat): Byte
      reads `sectors, `changes
    {
      var h := Held(sectors, changes, b);
      if h.Some? then h.value else Original(b)
    }

    /** A whole sector of it can be had. */
    ghost predicate Readable(n: nat)
      reads `sectors
    {
      n in sectors || n * SECTOR >= sizeOnDisk || base + n * SECTOR + SECTOR <= |image|
    }

    constructor (image: seq<Byte>, base: nat)
      ensures Valid() && this.image == image && this.base == base && sectors == map[] && changes == [] && log == []
      ensures sizeOnDisk == (|image| - base) % U64 && position == base && cur == 0
    {
      this.image, this.base, sizeOnDisk := image, base, (|image| - base) % U64;
      position, cur := base, 0;
      changes, changeAt, sector, sectors, log := [], 0, 0, map[], [];
    }

    /** hooked_seek from the start. */
    method Seek(offset: nat)
      modifies `position, `cur
      ensures position == base + offset && cur == offset
    {
      position := offset + base;
      cur := position - base;
    }

    /**
     * The next sector: out of the change file, zeros, or whatever is at the
     * image's file pointer. The pointer is right afterwards.
     */
    method ReadNextSector() returns (ok: bool, buf: seq<Byte>)
      requires Valid() && cur % SECTOR == 0
      modifies `position, `cur, `changeAt
      ensures Valid()
      ensures ok <==> old(cur) / SECTOR in sectors || old(cur) >= sizeOnDisk || old(position) + SECTOR <= |image|
      ensures old(position) == base + old(cur) ==> (ok <==> Readable(old(cur) / SECTOR))
      ensures ok ==> |buf| == SECTOR && cur == old(cur) + SECTOR && position == base + cur
      ensures ok && (old(cur) / SECTOR in sectors || old(cur) >= sizeOnDisk || old(position) == base + old(cur)) ==>
        forall i | 0 <= i < SECTOR :: buf[i] == View(old(cur) + i)
      ensures ok && old(cur) / SECTOR !in sectors && old(cur) < sizeOnDisk ==>
        buf == image[old(position)..old(position) + SECTOR]
      ensures !ok ==> cur == old(cur)
    {
      hide Agree;
      var n := cur / SECTOR;
      ghost var start := cur;
      if n in sectors {
        if sectors[n] == -1 {
          buf := seq(SECTOR, _ => 0);
        } else {
          changeAt := sectors[n] * SECTOR;
          buf := changes[changeAt..changeAt + SECTOR];
          changeAt := sector * SECTOR;
        }
      } else if cur >= sizeOnDisk {
        buf := seq(SECTOR, _ => 0);
      } else {
        if position + SECTOR > |image| {
          if position < |image| { position := |image|; }
          return false, [];
        }
        buf := image[position..position + SECTOR];
      }
      ghost var right := n in sectors || start >= sizeOnDisk || position == base + start;
      forall i | 0 <= i < SECTOR
        ensures right ==> buf[i] == View(start + i)
      {
        SectorOf(start, start + i);
      }
      cur := cur + SECTOR;
      position := cur + base;
      ok := true;
    }

    /**
     * hooked_read: what resize2fs sees, if the image's file pointer is where
     * it should be or the first sector does not come from the image.
     */
    method Read(size: nat) returns (done: nat, buf: seq<Byte>)
      requires Valid()
      modifies `position, `cur, `changeAt
      ensures Valid() && (done == 0 || done == size) && |buf| == done
      ensures old(cur) % SECTOR != 0 || size % SECTOR != 0 ==> done == 0 && cur == old(cur) && position == old(position)
      ensures done == size > 0 ==> cur == old(cur) + size && position == base + cur
      ensures done == size > 0 && (old(position) == base + old(cur) || old(cur) / SECTOR in sectors || old(cur) >= sizeOnDisk) ==>
        forall i | 0 <= i < size :: buf[i] == View(old(cur) + i)
      ensures done == size > 0 ==> forall i | SECTOR <= i < size :: buf[i] == View(old(cur) + i)
      ensures done == size > 0 && old(cur) / SECTOR !in sectors && old(cur) < sizeOnDisk ==>
        Starts(buf, image, old(position))
      ensures old(cur) % SECTOR == 0 && size % SECTOR == 0 && size > 0 ==>
        (done == size <==>
          && (old(cur) / SECTOR in sectors || old(cur) >= sizeOnDisk || old(position) + SECTOR <= |image|)
          && forall n | old(cur) / SECTOR < n < (old(cur) + size) / SECTOR :: Readable(n))
    {
      hide Valid, View, Readable, Starts;
      done, buf := 0, [];
      if cur % SECTOR != 0 { return; }
      if size % SECTOR != 0 { return; }
      ghost var start := cur;
      ghost var lo := if position == base + cur || cur / SECTOR in sectors || cur >= sizeOnDisk then 0 else SECTOR;
      ghost var first := cur / SECTOR in sectors || cur >= sizeOnDisk || position + SECTOR <= |image|;
      var i := 0;
      while i < size
        invariant 0 <= i <= size && i % SECTOR == 0 && done == i == |buf| && cur == start + i && Valid()
        invariant i == 0 ==> position == old(position)
        invariant i > 0 ==> position == base + cur
        invariant forall j | lo <= j < i :: buf[j] == View(start + j)
        invariant i > 0 && start / SECTOR !in sectors && start < sizeOnDisk ==>
          Starts(buf, image, old(position))
        invariant i > 0 ==> first
        invariant forall n | start / SECTOR < n < (start + i) / SECTOR :: Readable(n)
      {
        NextSector(start + i);
        var ok, next := ReadNextSector();
        if !ok {
          assert i > 0 ==> !Readable((start + i) / SECTOR);
          return 0, [];
        }
        StartsOn(buf, next, image, old(position));
        buf := buf + next;
        done := done + SECTOR;
        i := i + SECTOR;
      }
    }

    /** WriteFile on the change file. */
    method Append(buf: seq<Byte>)
      requires changeAt == |changes|
      modifies `changes, `changeAt
      ensures changes == old(changes) + buf && changeAt == |changes|
    {
      changes := changes[..changeAt] + buf;
      changeAt := changeAt + |buf|;
    }

    /** One sector of a write: into the change file, or only noted as zeros. */
    method PutSector(content: seq<Byte>, zero: bool, ghost s0: map<nat, int>, ghost c0: seq<Byte>, ghost at: nat, ghost part: seq<Byte>)
      requires |changes| == SECTOR * sector == changeAt && MapsInto(sectors, sector) && |content| == SECTOR
      requires zero ==> forall i | 0 <= i < SECTOR :: content[i] == 0
      requires at % SECTOR == 0 && |part| % SECTOR == 0 && cur == at + |part| && Over(s0, c0, sectors, changes, at, part)
      modifies `changes, `changeAt, `sector, `sectors, `cur
      ensures |changes| == SECTOR * sector == changeAt && MapsInto(sectors, sector)
      ensures changes == (if zero then old(changes) else old(changes) + content) && cur == old(cur) + SECTOR
      ensures Over(s0, c0, sectors, changes, at, part + content)
    {
      hide Held, MapsInto, Over;
      ghost var s1, c1 := sectors, changes;
      var n := cur / SECTOR;
      if zero {
        HeldZero(sectors, changes, sector, n, content);
        sectors := sectors[n := -1];
      } else {
        HeldPut(sectors, changes, sector, n, content);
        Append(content);
        sectors := sectors[n := sector];
        sector := sector + 1;
      }
      OverNext(s0, c0, s1, c1, sectors, changes, at, part, content);
      cur := cur + SECTOR;
    }

    /**
     * hooked_write: of whole sectors, all of it is written, and nothing else
     * changes. The image's file pointer stays behind.
     */
    method Write(buf: seq<Byte>) returns (n: nat)
      requires Valid() && |buf| < U32 / 2 && cur + |buf| < U64 / 2
      modifies `changes, `changeAt, `sector, `sectors, `cur, `log
      ensures Valid()
      ensures |buf| % SECTOR != 0 || old(cur) % SECTOR != 0 ==>
        n == 0 && cur == old(cur) && changes == old(changes) && sectors == old(sectors) && log == old(log)
      ensures |buf| % SECTOR == 0 && old(cur) % SECTOR == 0 ==>
        && n == |buf| && cur == old(cur) + n && |changes| <= old(|changes|) + n
        && Over(old(sectors), old(changes), sectors, changes, old(cur), buf)
        && (forall k: nat :: k in sectors <==> k in old(sectors) || old(cur) <= k * SECTOR < old(cur) + n)
        && log == old(log) + [LogEntry(old(cur), |buf|, forall i | 0 <= i < |buf| :: buf[i] == 0, false)]
        && forall b: nat :: View(b) == if old(cur) <= b < old(cur) + |buf| then buf[b - old(cur)] else old(View(b))
    {
      hide Agree, Held, MapsInto, Over;
      if |buf| % SECTOR != 0 { return 0; }
      if cur % SECTOR != 0 { return 0; }
      var allZero := AllZero(buf);
      var entry := LogEntry(cur, |buf|, allZero, false);
      ghost var s0, c0 := sectors, changes;
      PutSectors(buf, allZero);
      AgreeGrows(log, s0, c0, sectors, entry, if allZero then [] else buf, buf);
      OverMeans(s0, c0, sectors, changes, entry.offset, buf);
      OverKeys(s0, c0, sectors, changes, entry.offset, buf);
      log := log + [entry];
      n := |buf|;
    }

    method PutSectors(buf: seq<Byte>, allZero: bool)
      requires |changes| == SECTOR * sector == changeAt && MapsInto(sectors, sector)
      requires |buf| % SECTOR == 0 && cur % SECTOR == 0 && (allZero ==> forall i | 0 <= i < |buf| :: buf[i] == 0)
      modifies `changes, `changeAt, `sector, `sectors, `cur
      ensures |changes| == SECTOR * sector == changeAt && MapsInto(sectors, sector) && cur == old(cur) + |buf|
      ensures changes == old(changes) + (if allZero then [] else buf)
      ensures Over(old(sectors), old(changes), sectors, changes, old(cur), buf)
    {
      hide Held, MapsInto, Over;
      ghost var s0, c0, start := sectors, changes, cur;
      OverNothing(s0, c0, start);
      var i := 0;
      while i < |buf|
        invariant 0 <= i <= |buf| && i % SECTOR == 0 && cur == start + i
        invariant |changes| == SECTOR * sector == changeAt && MapsInto(sectors, sector)
        invariant changes == c0 + (if allZero then [] else buf[..i])
        invariant Over(s0, c0, sectors, changes, start, buf[..i])
      {
        assert buf[..i + SECTOR] == buf[..i] + buf[i..i + SECTOR];
        assert c0 + buf[..i] + buf[i..i + SECTOR] == c0 + buf[..i + SECTOR];
        PutSector(buf[i..i + SECTOR], allZero, s0, c0, start, buf[..i]);
        i := i + SECTOR;
      }
      assert buf[..i] == buf;
    }

    /** A sector rewritten as a whole, with a log entry of its own. */
    method LogSector(entry: LogEntry, tmp: seq<Byte>, n: nat)
      requires Valid() && entry == LogEntry(n * SECTOR, SECTOR, false, false) && |tmp| == SECTOR && Fine(entry)
      modifies `changes, `changeAt, `sector, `sectors, `log
      ensures Valid() && sectors.Keys == old(sectors).Keys + {n}
      ensures |changes| == old(|changes|) + SECTOR && |log| == old(|log|) + 1
      ensures forall b: nat :: View(b) == if entry.offset <= b < entry.offset + SECTOR then tmp[b - entry.offset] else old(View(b))
    {
      hide Agree, Held, MapsInto, Over;
      ghost var s0, c0 := sectors, changes;
      OverNothing(s0, c0, entry.offset);
      HeldPut(sectors, changes, sector, n, tmp);
      Append(tmp);
      sectors := sectors[n := sector];
      sector := sector + 1;
      OverNext(s0, c0, s0, c0, sectors, changes, entry.offset, [], tmp);
      assert [] + tmp == tmp;
      AgreeGrows(log, s0, c0, sectors, entry, tmp, tmp);
      OverMeans(s0, c0, sectors, changes, entry.offset, tmp);
      log := log + [entry];
    }

    /** The sector to be rewritten: read, with the part of the buffer that falls into it copied over. */
    method Prepare(offset: nat, buf: seq<Byte>, offsetInBuffer: nat, ghost at: nat) returns (ok: bool, todo: nat, tmp: seq<Byte>)
      requires Valid() && cur == at && at % SECTOR == 0 && position == base + at && offsetInBuffer < |buf|
      requires if offsetInBuffer == 0 then at == offset / SECTOR * SECTOR else at == offset + offsetInBuffer
      modifies `position, `cur, `changeAt
      ensures Valid() && (ok <==> Readable(at / SECTOR))
      ensures ok ==> |tmp| == SECTOR && 0 < todo <= |buf| - offsetInBuffer && cur == at + SECTOR && position == base + cur
      ensures ok ==> at < offset + offsetInBuffer + todo <= cur
      ensures ok && offsetInBuffer + todo < |buf| ==> offset + offsetInBuffer + todo == cur
      ensures ok ==> forall i | 0 <= i < SECTOR ::
        tmp[i] == if offset + offsetInBuffer <= at + i < offset + offsetInBuffer + todo then buf[at + i - offset] else View(at + i)
    {
      hide View, Patch, Valid, Readable;
      todo := 0;
      ok, tmp := ReadNextSector();
      if !ok { return; }
      var offsetInSector := if offsetInBuffer != 0 then 0 else offset % SECTOR;
      todo := if |buf| - offsetInBuffer < SECTOR - offsetInSector then |buf| - offsetInBuffer else SECTOR - offsetInSector;
      Patched(tmp, offsetInSector, buf, offsetInBuffer, todo);
      tmp := Patch(tmp, offsetInSector, buf[offsetInBuffer..offsetInBuffer + todo]);
    }

    /** One turn of the loop of hooked_write_byte. */
    method PatchSector(offset: nat, buf: seq<Byte>, offsetInBuffer: nat, sectorNumber: nat) returns (ok: bool, todo: nat)
      requires Valid() && cur == sectorNumber * SECTOR && position == base + cur && offsetInBuffer < |buf|
      requires if offsetInBuffer == 0 then sectorNumber == offset / SECTOR else cur == offset + offsetInBuffer
      requires offset + |buf| + SECTOR < U64 / 2
      modifies this
      ensures Valid() && (ok <==> old(Readable(sectorNumber)))
      ensures !ok ==> sectors == old(sectors) && forall b: nat :: View(b) == old(View(b))
      ensures ok ==> 0 < todo <= |buf| - offsetInBuffer && cur == old(cur) + SECTOR && position == base + cur
      ensures ok ==> old(cur) < offset + offsetInBuffer + todo <= cur && sectors.Keys == old(sectors).Keys + {sectorNumber}
      ensures ok && offsetInBuffer + todo < |buf| ==> offset + offsetInBuffer + todo == cur
      ensures ok ==> |changes| == old(|changes|) + SECTOR && |log| == old(|log|) + 1
      ensures ok ==>
        forall b: nat ::
          View(b) == if offset + offsetInBuffer <= b < offset + offsetInBuffer + todo then buf[b - offset] else old(View(b))
    {
      hide View, Valid, Readable;
      var entry := LogEntry(cur, SECTOR, false, false);
      var tmp;
      ok, todo, tmp := Prepare(offset, buf, offsetInBuffer, entry.offset);
      if ok { LogSector(entry, tmp, sectorNumber); }
    }

    /**
     * hooked_write_byte: any bytes anywhere, by rewriting the sectors they lie
     * in. It stops at a sector that cannot be read whole.
     */
    method WriteByte(offset: nat, buf: seq<Byte>) returns (n: nat, ghost done: nat)
      requires Valid() && |buf| < U32 / 2 && offset + |buf| + SECTOR < U64 / 2
      modifies this
      ensures Valid() && done <= |buf| && n == if done == |buf| then |buf| else 0
      ensures |buf| > 0 ==>
        (done == |buf| <==> forall k: nat | offset / SECTOR <= k && k * SECTOR < offset + |buf| :: old(Readable(k)))
      ensures forall b: nat :: View(b) == if offset <= b < offset + done then buf[b - offset] else old(View(b))
      ensures done == |buf| ==> cur == old(cur) && position == base + cur
      ensures done == |buf| ==> |changes| <= old(|changes|) + SECTOR * |buf| && |log| <= old(|log|) + |buf|
      ensures done == |buf| ==> forall k: nat ::
        k in sectors <==> k in old(sectors) || (|buf| > 0 && offset / SECTOR <= k && k * SECTOR < offset + |buf|)
    {
      hide Agree, Held, MapsInto, View, Valid;
      var off := cur;
      var sectorNumber := offset / SECTOR;
      Seek(sectorNumber * SECTOR);
      var offsetInBuffer := 0;
      done := 0;
      ghost var keys := sectors.Keys;
      while offsetInBuffer < |buf|
        invariant 0 <= offsetInBuffer == done <= |buf| && Valid()
        invariant cur == sectorNumber * SECTOR && position == base + cur && sectorNumber >= offset / SECTOR
        invariant done == 0 ==> sectorNumber == offset / SECTOR
        invariant 0 < done < |buf| ==> cur == offset + done
        invariant done > 0 ==> cur < offset + done + SECTOR && offset + done <= cur
        invariant |changes| <= old(|changes|) + SECTOR * done && |log| <= old(|log|) + done
        invariant forall k: nat :: k in sectors <==> k in keys || offset / SECTOR <= k < sectorNumber
        invariant forall k: nat | offset / SECTOR <= k < sectorNumber :: old(Readable(k))
        invariant forall b: nat :: View(b) == if offset <= b < offset + done then buf[b - offset] else old(View(b))
      {
        var ok, todo := PatchSector(offset, buf, offsetInBuffer, sectorNumber);
        if !ok {
          assert !old(Readable(sectorNumber));
          return 0, done;
        }
        offsetInBuffer := offsetInBuffer + todo;
        sectorNumber := sectorNumber + 1;
        done := offsetInBuffer;
      }
      Seek(off);
      n := |buf|;
    }

    /** hooked_close: the change file with its log and footer. */
    method Close() returns (file: seq<Byte>)
      requires Valid()
      modifies `changes, `changeAt
      ensures file == changes == FileOf(old(changes), log)
    {
      hide Agree, MapsInto, Trailer, Records;
      var trailer := Trailer(changeAt, 16 * |log|, 0);
      Append(Records(log));
      Append([]);
      Append(trailer);
      file := changes;
      assert file == old(changes) + Records(log) + [] + trailer;
      assert old(changes) + Records(log) + [] == old(changes) + Records(log);
    }
  }

  /** The memcpy into a sector. */
  function Patch(tmp: seq<Byte>, at: nat, part: seq<Byte>): (r: seq<Byte>)
    requires at + |part| <= |tmp|
    ensures |r| == |tmp|
  {
    tmp[..at] + part + tmp[at + |part|..]
  }

  lemma Patched(tmp: seq<Byte>, at: nat, buf: seq<Byte>, from: nat, todo: nat)
    requires at + todo <= |tmp| && from + todo <= |buf|
    ensures var r := Patch(tmp, at, buf[from..from + todo]);
      forall i | 0 <= i < |tmp| :: r[i] == if at <= i < at + todo then buf[from + (i - at)] else tmp[i]
  {
  }

  method AllZero(buf: seq<Byte>) returns (zero: bool)
    ensures zero <==> forall i | 0 <= i < |buf| :: buf[i] == 0
  {
    for i := 0 to |buf|
      invariant forall j | 0 <= j < i :: buf[j] == 0
    {
      if buf[i] != 0 { return false; }
    }
    zero := true;
  }

  // ----- replaying what was written -----

  lemma {:induction false} TakenWithin(es: seq<Entry>, k: nat)
    requires Plain(es) && k < |es|
    ensures Taken(es[..k], false) + (if es[k].Zero() then 0 else es[k].Size()) <= Taken(es, false)
    decreases |es|
  {
    hide Taken, Entry.Small, Entry.Zero, Entry.Size;
    TakenLast(es);
    var n := |es| - 1;
    if k < n {
      TakenWithin(es[..n], k);
      assert es[..n][..k] == es[..k];
    }
  }

  /** An operation is within bounds exactly when it is within the device. */
  lemma BoundedExactly(es: seq<Entry>, k: nat, base: nat, partition: nat, deviceSize: nat, fileSize: nat)
    requires Plain(es) && k < |es| && es[k].offset < U64 / 2 && partition < U64 / 2
    requires Taken(es, false) <= fileSize < U64 / 2 && deviceSize < U64 / 2
    ensures Bounded(OpOf(es, k, base, partition), deviceSize, fileSize) <==> partition + es[k].offset + es[k].Size() <= deviceSize
  {
    hide Taken, Entry.Small, Entry.Zero, Entry.Size;
    TakenWithin(es, k);
    SizeKept(es[k]);
    Unwrapped(es[k].offset + partition);
    Unwrapped(Taken(es[..k], false));
  }

  lemma FileParts(log: seq<LogEntry>, sectors: map<nat, int>, changes: seq<Byte>)
    requires Agree(log, sectors, changes) && |FileOf(changes, log)| < U64 / 2
    ensures var file := FileOf(changes, log);
      && changes <= file && (GoodFooter(file) <==> 16 * |log| + 32 <= U32 / 2)
      && (GoodFooter(file) ==> Entries(LogOf(file)) == MeantAll(log))
  {
    hide Entries, GoodFooter, Trailer, Records, Taken, Shown, Held, Meant;
    FinePlain(log);
    FooterExactly(changes, log);
    EntriesBack(log);
    assert Entries(Records(log)) == MeantAll(log);
  }

  lemma AllBounded(log: seq<LogEntry>, sectors: map<nat, int>, changes: seq<Byte>, base: nat, partition: nat, deviceSize: nat, fileSize: nat)
    requires Agree(log, sectors, changes) && |changes| <= fileSize < U64 / 2 && deviceSize < U64 / 2 && partition < U64 / 2
    ensures Uncut(MeantAll(log), partition)
    ensures (forall k | 0 <= k < |log| :: Bounded(OpOf(MeantAll(log), k, base, partition), deviceSize, fileSize)) <==>
            (forall k | 0 <= k < |log| :: partition + log[k].offset + log[k].size <= deviceSize)
  {
    hide Taken, Shown, Held, Meant, Bounded, OpOf, Entry.Small, Entry.Zero, Entry.Size;
    var es := MeantAll(log);
    FinePlain(log);
    forall k | 0 <= k < |log|
      ensures Bounded(OpOf(es, k, base, partition), deviceSize, fileSize) <==>
              partition + log[k].offset + log[k].size <= deviceSize
    {
      BoundedExactly(es, k, base, partition, deviceSize, fileSize);
    }
  }

  /**
   * Closing the change file and replaying it on a device: it is refused
   * exactly when the log is too long or reaches beyond the device; otherwise
   * the device holds what resize2fs saw wherever it has written a sector.
   */
  method CloseAndReplay(h: HookedFile, partition: nat, dev: array<Byte>) returns (accepted: bool, outcome: Outcome)
    requires h.Valid() && |h.changes| + 16 * |h.log| + 32 < U64 / 2 && dev.Length < U64 / 2 && partition < U64 / 2
    modifies h`changes, h`changeAt, dev
    ensures accepted <==>
      16 * |h.log| + 32 <= 0x8000_0000 && forall k | 0 <= k < |h.log| :: partition + h.log[k].offset + h.log[k].size <= dev.Length
    ensures !accepted ==> dev[..] == old(dev[..])
    ensures accepted ==> outcome == Done
    ensures accepted ==> forall d | 0 <= d < dev.Length ::
      dev[d] == if d >= partition && (d - partition) / SECTOR in h.sectors then old(h.View(d - partition)) else old(dev[d])
  {
    hide Agree, Held, Shown, MapsInto, FileOf, GoodFooter, Entries, OpOf, Bounded, Replayed, Uncut, MeantAll, Taken;
    ghost var log, sectors, changes := h.log, h.sectors, h.changes;
    ghost var es := MeantAll(log);
    ghost var was := dev[..];
    var file := h.Close();
    FileSize(changes, log);
    FileParts(log, sectors, changes);
    accepted, outcome := Replay(file, partition, dev);
    AgreePlain(log, sectors, changes);
    ghost var base := if GoodFooter(file) then SmallBase(file) else 0;
    AllBounded(log, sectors, changes, base, partition, dev.Length, |file|);
    if accepted {
      forall d | 0 <= d < dev.Length
        ensures dev[d] == if d >= partition && (d - partition) / SECTOR in sectors then old(h.View(d - partition)) else was[d]
      {
        ReplayShows(was, file, changes, es, base, partition, d, dev[d]);
        if d >= partition {
          HeldShown(log, sectors, changes, d - partition);
        }
      }
    }
  }

  lemma FileSize(changes: seq<Byte>, log: seq<LogEntry>)
    ensures |FileOf(changes, log)| == |changes| + 16 * |log| + 32
  {
  }

  lemma AgreePlain(log: seq<LogEntry>, sectors: map<nat, int>, changes: seq<Byte>)
    requires Agree(log, sectors, changes)
    ensures Plain(MeantAll(log)) && Taken(MeantAll(log), false) == |changes| && |MeantAll(log)| == |log|
  {
    hide Taken, Shown, Held, Meant;
    FinePlain(log);
  }

  lemma HeldShown(log: seq<LogEntry>, sectors: map<nat, int>, changes: seq<Byte>, b: nat)
    requires Agree(log, sectors, changes)
    ensures Shown(MeantAll(log), changes, b) == Held(sectors, changes, b)
    ensures Held(sectors, changes, b).Some? <==> b / SECTOR in sectors
  {
    hide Taken, Shown, Meant;
  }

  // ----- whole runs -----

  /** What unix_io does: it seeks and then reads or writes blocks, or writes single bytes. */
  datatype Io = WriteAt(offset: nat, buf: seq<Byte>) | BytesAt(offset: nat, buf: seq<Byte>) | ReadAt(offset: nat, size: nat)

  /** The operation writes this byte; blocks that are not whole sectors are refused. */
  ghost predicate Writes(op: Io, b: nat) {
    match op
    case WriteAt(offset, buf) => offset % 512 == 0 && |buf| % 512 == 0 && offset <= b < offset + |buf|
    case BytesAt(offset, buf) => offset <= b < offset + |buf|
    case ReadAt(_, _) => false
  }

  /** The operation rewrites this sector: bytes are written with the sectors they lie in. */
  ghost predicate Touches(op: Io, n: nat) {
    match op
    case WriteAt(offset, buf) => offset % 512 == 0 && |buf| % 512 == 0 && offset <= n * 512 < offset + |buf|
    case BytesAt(offset, buf) => |buf| > 0 && offset / 512 <= n && n * 512 < offset + |buf|
    case ReadAt(_, _) => false
  }

  /** What the last operation that writes the byte makes it, and otherwise what it was. */
  ghost function Latest(ops: seq<Io>, b: nat, was: Byte): Byte {
    if ops == [] then was
    else
      var op := ops[|ops| - 1];
      if Writes(op, b) then op.buf[b - op.offset] else Latest(ops[..|ops| - 1], b, was)
  }

  /** Offsets and sizes within the signed types they are passed in. */
  ghost predicate InTypes(op: Io) {
    match op
    case WriteAt(offset, buf) => |buf| < U32 / 2 && offset + |buf| + SECTOR < U64 / 2
    case BytesAt(offset, buf) => |buf| < U32 / 2 && offset + |buf| + SECTOR < U64 / 2
    case ReadAt(offset, size) => size < U32 / 2 && offset + size < U64 / 2
  }

  /** How many bytes are written in all, and one for each operation. */
  ghost function Weight(ops: seq<Io>): nat {
    if ops == [] then 0
    else Weight(ops[..|ops| - 1]) + 1 + if ops[|ops| - 1].ReadAt? then 0 else |ops[|ops| - 1].buf|
  }

  /** The image ends with a whole sector. */
  ghost predicate Whole(image: seq<Byte>, base: nat) {
    base <= |image| < U64 && (|image| - base) % SECTOR == 0
  }

  lemma AllReadable(h: HookedFile)
    requires Whole(h.image, h.base) && h.sizeOnDisk == (|h.image| - h.base) % U64
    ensures h.sizeOnDisk == |h.image| - h.base && forall n: nat :: h.Readable(n)
  {
    forall n: nat
      ensures h.Readable(n)
    {
      if n * SECTOR < h.sizeOnDisk { assert n * SECTOR + SECTOR <= h.sizeOnDisk; }
    }
  }

  /** One operation: what was read, if it was a read. */
  method Perform(h: HookedFile, op: Io) returns (got: seq<Byte>)
    requires h.Valid() && InTypes(op) && Whole(h.image, h.base) && h.sizeOnDisk == (|h.image| - h.base) % U64
    modifies h
    ensures h.Valid()
    ensures forall b: nat :: h.View(b) == if Writes(op, b) then op.buf[b - op.offset] else old(h.View(b))
    ensures op.ReadAt? && op.offset % 512 == 0 && op.size % 512 == 0 ==>
      |got| == op.size && forall i | 0 <= i < op.size :: got[i] == old(h.View(op.offset + i))
    ensures forall n: nat :: n in h.sectors <==> n in old(h.sectors) || Touches(op, n)
    ensures |h.log| <= old(|h.log|) + 1 + (if op.ReadAt? then 0 else |op.buf|)
    ensures |h.changes| <= old(|h.changes|) + SECTOR * (1 + if op.ReadAt? then 0 else |op.buf|)
  {
    hide HookedFile.Valid, HookedFile.View, Over;
    AllReadable(h);
    got := [];
    match op
    case WriteAt(offset, buf) =>
      h.Seek(offset);
      var _ := h.Write(buf);
    case BytesAt(offset, buf) =>
      var _, _ := h.WriteByte(offset, buf);
    case ReadAt(offset, size) =>
      if offset % SECTOR == 0 {
        NextSector(offset);
        assert h.Readable(offset / SECTOR);
      }
      h.Seek(offset);
      var done;
      done, got := h.Read(size);
  }

  /** Any run of operations: every read returns what was last written, and in the end the view holds all of it. */
  method Run(h: HookedFile, ops: seq<Io>) returns (got: seq<seq<Byte>>)
    requires h.Valid() && Whole(h.image, h.base) && h.sizeOnDisk == (|h.image| - h.base) % U64
    requires forall k | 0 <= k < |ops| :: InTypes(ops[k])
    modifies h
    ensures h.Valid() && |got| == |ops|
    ensures forall b: nat :: h.View(b) == Latest(ops, b, old(h.View(b)))
    ensures forall k | 0 <= k < |ops| && ops[k].ReadAt? && ops[k].offset % 512 == 0 && ops[k].size % 512 == 0 ::
      |got[k]| == ops[k].size &&
      forall i | 0 <= i < ops[k].size :: got[k][i] == Latest(ops[..k], ops[k].offset + i, old(h.View(ops[k].offset + i)))
    ensures forall n: nat :: n in h.sectors <==> n in old(h.sectors) || exists k :: 0 <= k < |ops| && Touches(ops[k], n)
    ensures |h.log| <= old(|h.log|) + Weight(ops) && |h.changes| <= old(|h.changes|) + SECTOR * Weight(ops)
  {
    hide HookedFile.Valid, HookedFile.View, Whole, InTypes, Writes, Touches;
    got := [];
    for k := 0 to |ops|
      invariant h.Valid() && |got| == k
      invariant forall b: nat :: h.View(b) == Latest(ops[..k], b, old(h.View(b)))
      invariant forall j | 0 <= j < k && ops[j].ReadAt? && ops[j].offset % 512 == 0 && ops[j].size % 512 == 0 ::
        |got[j]| == ops[j].size &&
        forall i | 0 <= i < ops[j].size :: got[j][i] == Latest(ops[..j], ops[j].offset + i, old(h.View(ops[j].offset + i)))
      invariant forall n: nat :: n in h.sectors <==> n in old(h.sectors) || exists j :: 0 <= j < k && Touches(ops[j], n)
      invariant |h.log| <= old(|h.log|) + Weight(ops[..k]) && |h.changes| <= old(|h.changes|) + SECTOR * Weight(ops[..k])
    {
      assert ops[..k + 1][..k] == ops[..k];
      var g := Perform(h, ops[k]);
      got := got + [g];
    }
    assert ops[..|ops|] == ops;
  }

  /** A byte of the partition in the image, and zero beyond its end. */
  ghost function InImage(image: seq<Byte>, base: nat, b: nat): Byte {
    if base + b < |image| then image[base + b] else 0
  }

  lemma OriginalIs(h: HookedFile, b: nat)
    requires Whole(h.image, h.base) && h.sizeOnDisk == (|h.image| - h.base) % U64
    ensures h.Original(b) == InImage(h.image, h.base, b)
  {
  }

  lemma FirstView(h: HookedFile, b: nat)
    requires h.sectors == map[]
    ensures h.View(b) == h.Original(b)
  {
  }

  /**
   * resize2fs on an image, and its change file replayed on a device. Sectors
   * that were written become what the operations, in their order, make of the
   * image; the others stay. So a device that held the image holds the image
   * with all the writes in it.
   */
  method ResizeAndFlash(image: seq<Byte>, base: nat, ops: seq<Io>, partition: nat, dev: array<Byte>)
    returns (h: HookedFile, accepted: bool)
    requires Whole(image, base) && forall k | 0 <= k < |ops| :: InTypes(ops[k])
    requires 528 * Weight(ops) + 32 < U64 / 2 && dev.Length < U64 / 2 && partition < U64 / 2
    modifies dev
    ensures accepted <==>
      16 * |h.log| + 32 <= 0x8000_0000 && forall k | 0 <= k < |h.log| :: partition + h.log[k].offset + h.log[k].size <= dev.Length
    ensures !accepted ==> dev[..] == old(dev[..])
    ensures accepted ==> forall d | 0 <= d < partition && d < dev.Length :: dev[d] == old(dev[d])
    ensures accepted ==> forall b: nat | partition + b < dev.Length ::
      dev[partition + b] ==
      if exists k :: 0 <= k < |ops| && Touches(ops[k], b / 512) then Latest(ops, b, InImage(image, base, b)) else old(dev[partition + b])
    ensures accepted && (forall b: nat | partition + b < dev.Length :: old(dev[partition + b]) == InImage(image, base, b)) ==>
      forall b: nat | partition + b < dev.Length :: dev[partition + b] == Latest(ops, b, InImage(image, base, b))
  {
    hide HookedFile.Valid, HookedFile.View, HookedFile.Original, Touches, Writes, InTypes, Whole, InImage, Latest;
    h := new HookedFile(image, base);
    forall b: nat
      ensures h.View(b) == InImage(image, base, b)
    {
      FirstView(h, b);
      OriginalIs(h, b);
    }
    var _ := Run(h, ops);
    assert forall b: nat :: h.View(b) == Latest(ops, b, InImage(image, base, b));
    var outcome;
    accepted, outcome := CloseAndReplay(h, partition, dev);
    if accepted {
      forall b: nat | partition + b < dev.Length
        ensures dev[partition + b] ==
          if exists k :: 0 <= k < |ops| && Touches(ops[k], b / 512) then Latest(ops, b, InImage(image, base, b)) else old(dev[partition + b])
        ensures old(dev[partition + b]) == InImage(image, base, b) ==> dev[partition + b] == Latest(ops, b, InImage(image, base, b))
      {
        var d := partition + b;
        assert d - partition == b;
        if !exists k :: 0 <= k < |ops| && Touches(ops[k], b / 512) { NotWritten(ops, b, InImage(image, base, b)); }
      }
    }
  }

  lemma TouchedByWriting(op: Io, b: nat)
    requires Writes(op, b)
    ensures Touches(op, b / 512)
  {
  }

  /** A byte in a sector that no operation touches is not written. */
  lemma {:induction false} NotWritten(ops: seq<Io>, b: nat, was: Byte)
    requires forall k | 0 <= k < |ops| :: !Touches(ops[k], b / 512)
    ensures Latest(ops, b, was) == was
  {
    hide Writes, Touches;
    if ops != [] {
      var n := |ops| - 1;
      assert !Touches(ops[n], b / 512);
      if Writes(ops[n], b) { TouchedByWriting(ops[n], b); }
      NotWritten(ops[..n], b, was);
    }
  }

  /** These bytes are the ones seen from an offset on. */
  ghost predicate Seen(h: HookedFile, at: nat, s: seq<Byte>)
    reads h
  {
    forall i | 0 <= i < |s| :: s[i] == h.View(at + i)
  }

  /** What is read is what is seen, if and only if the first sector is not the image's or the pointer is at the same bytes. */
  method ReadExactly(h: HookedFile, size: nat) returns (done: nat, buf: seq<Byte>)
    requires h.Valid()
    modifies h
    ensures done == size > 0 ==> |buf| == size
    ensures done == size > 0 ==>
      (Seen(h, old(h.cur), buf) <==>
        || old(h.cur) / 512 in h.sectors || old(h.cur) >= h.sizeOnDisk
        || (old(h.position) + 512 <= |h.image| && Seen(h, old(h.cur), h.image[old(h.position)..old(h.position) + 512])))
  {
    hide HookedFile.Valid, HookedFile.View;
    ghost var at := h.position;
    done, buf := h.Read(size);
    if done == size > 0 {
      assert size >= SECTOR;
      if old(h.cur) / SECTOR !in h.sectors && old(h.cur) < h.sizeOnDisk {
        ghost var first := h.image[at..at + SECTOR];
        assert forall i | 0 <= i < SECTOR :: buf[..SECTOR][i] == buf[i];
        assert forall i | 0 <= i < SECTOR :: first[i] == buf[i];
      }
    }
  }

  /**
   * A write leaves the image's file pointer behind. Reading on without a
   * seek then gives the sector before: here its ones, where the view has twos.
   */
  method StaleRead() returns (h: HookedFile, done: nat, buf: seq<Byte>)
    ensures done == 512 == |buf| && buf[0] == 1 && h.View(512) == 2
  {
    var image := seq(1024, i => if i < 512 then 1 else 2);
    h := new HookedFile(image, 0);
    FirstView(h, 512);
    h.Seek(0);
    var _ := h.Write(seq(512, _ => 9));
    done, buf := h.Read(512);
    assert buf[..SECTOR][0] == image[0..SECTOR][0];
  }
}
