/**
 * The blocks of a journal as the debugfs writer lays them out, and the two
 * independent loops that read a descriptor block back.
 *
 * Block sizes are in bytes; checksums, UUID bytes and byte order are left
 * aside, so a block is its header fields plus the records at byte offsets.
 */
module JournalLayout {

  const MAGIC: nat := 0xC03B_3998
  const DESCRIPTOR: nat := 1
  const COMMIT: nat := 2
  const REVOKE: nat := 5
  const HEADER_SIZE: nat := 12
  const REVOKE_HEADER_SIZE: nat := 16
  const UUID_SIZE: nat := 16

  /** A tag: the low and, with 64-bit block numbers, the high word of the block number, and the flags. */
  datatype Tag = Tag(blocknr: nat, high: nat, same: bool, last: bool, escape: bool)

  /** One journal block: first three words, the tags and revoke entries at their offsets, the entry count. */
  datatype JBlock = JBlock(magic: nat, blocktype: nat, sequence: nat,
                           tags: map<nat, Tag>, rcount: nat, entries: map<nat, nat>)

  /** Sizes that depend on the journal's features, and the ring of log blocks. */
  datatype Geometry = Geometry(blocksize: nat, tail: nat, tagBytes: nat, entryBytes: nat, first: nat, last: nat) {
    predicate Ok() {
      && tagBytes > 0 && entryBytes > 0 && 0 < first < last
      && HEADER_SIZE + UUID_SIZE + tagBytes + tail <= blocksize
      && REVOKE_HEADER_SIZE + entryBytes + tail <= blocksize
    }

    /** Bytes before the checksum tail. */
    function Room(): int { blocksize - tail }

    /** The ring: log block numbers wrap from `last` to `first`. */
    function Wrap(b: nat): int { if b >= last then b - (last - first) else b }
  }

  // ----- tags -----

  function TagAt(tags: map<nat, Tag>, off: nat): Tag {
    if off in tags then tags[off] else Tag(0, 0, false, false, false)
  }

  /** Where the next tag starts; a tag without the same-UUID flag is followed by a UUID. */
  function After(g: Geometry, t: Tag, off: nat): nat {
    off + g.tagBytes + if t.same then 0 else UUID_SIZE
  }

  /** The tags of a descriptor block from an offset on: up to the last-tag flag or the end of the block. */
  function ReadTags(g: Geometry, tags: map<nat, Tag>, off: nat): seq<Tag>
    requires g.Ok()
    decreases g.Room() - off
  {
    if off + g.tagBytes > g.Room() then []
    else
      var t := TagAt(tags, off);
      [t] + if t.last then [] else ReadTags(g, tags, After(g, t, off))
  }

  /** count_tags. */
  method CountTags(g: Geometry, tags: map<nat, Tag>) returns (nr: nat)
    requires g.Ok()
    ensures nr == |ReadTags(g, tags, HEADER_SIZE)|
  {
    nr := 0;
    var tagp := HEADER_SIZE;
    while tagp + g.tagBytes <= g.Room()
      invariant nr + |ReadTags(g, tags, tagp)| == |ReadTags(g, tags, HEADER_SIZE)|
      decreases g.Room() - tagp
    {
      var t := TagAt(tags, tagp);
      nr := nr + 1;
      tagp := tagp + g.tagBytes;
      if !t.same { tagp := tagp + UUID_SIZE; }
      if t.last { break; }
    }
  }

  /** Stepping `n` blocks along the ring, wrapping after each step. */
  function Steps(g: Geometry, b: nat, n: nat): int
    requires g.Ok() && g.first <= b < g.last
    ensures g.first <= Steps(g, b, n) < g.last
    decreases n
  {
    if n == 0 then b else Steps(g, g.Wrap(b + 1), n - 1)
  }

  /** Adding a count and wrapping once agrees with wrapping after each step, up to one turn of the ring. */
  lemma {:induction false} WrapOnce(g: Geometry, b: nat, n: nat)
    requires g.Ok() && g.first <= b < g.last && n <= g.last - g.first
    ensures Steps(g, b, n) == g.Wrap(b + n)
    decreases n
  {
    if n > 0 {
      if b + 1 < g.last {
        WrapOnce(g, b + 1, n - 1);
      } else {
        WrapOnce(g, g.first, n - 1);
      }
    }
  }

  /** dump_descriptor_block: the tags it reports, with the log block of each, and the block it goes on from. */
  method DumpDescriptor(g: Geometry, tags: map<nat, Tag>, block: nat) returns (seen: seq<Tag>, at: seq<nat>, next: nat)
    requires g.Ok() && g.first <= block < g.last
    ensures seen == ReadTags(g, tags, HEADER_SIZE) && |at| == |seen|
    ensures next == Steps(g, block, 1 + |seen|)
    ensures forall i | 0 <= i < |at| :: at[i] == Steps(g, block, 1 + i)
  {
    hide ReadTags, Steps;
    var offset := HEADER_SIZE;
    seen, at, next := [], [], block + 1;
    if next >= g.last { next := next - (g.last - g.first); }
    StepsZero(g, block);
    StepsAdd(g, block, 0);
    while true
      invariant seen + ReadTags(g, tags, offset) == ReadTags(g, tags, HEADER_SIZE)
      invariant |at| == |seen| && next == Steps(g, block, 1 + |seen|)
      invariant forall i | 0 <= i < |at| :: at[i] == Steps(g, block, 1 + i)
      decreases g.Room() - offset
    {
      var t := TagAt(tags, offset);
      ReadTagsStep(g, tags, offset, seen);
      offset := offset + g.tagBytes;
      if offset > g.blocksize - g.tail {
        break;
      }
      if !t.same { offset := offset + UUID_SIZE; }
      seen, at := seen + [t], at + [next];
      StepsAdd(g, block, |seen|);
      next := next + 1;
      if next >= g.last { next := next - (g.last - g.first); }
      if t.last {
        break;
      }
    }
  }

  lemma ReadTagsStep(g: Geometry, tags: map<nat, Tag>, off: nat, seen: seq<Tag>)
    requires g.Ok()
    ensures var t, all := TagAt(tags, off), seen + ReadTags(g, tags, off);
      if off + g.tagBytes > g.Room() then all == seen
      else if t.last then all == seen + [t]
      else all == seen + [t] + ReadTags(g, tags, After(g, t, off))
  {
  }

  lemma StepsZero(g: Geometry, b: nat)
    requires g.Ok() && g.first <= b < g.last
    ensures Steps(g, b, 0) == b
  {
  }

  lemma {:induction false} StepsAdd(g: Geometry, b: nat, n: nat)
    requires g.Ok() && g.first <= b < g.last
    ensures Steps(g, b, n + 1) == g.Wrap(Steps(g, b, n) + 1)
    decreases n
  {
    if n > 0 { StepsAdd(g, g.Wrap(b + 1), n - 1); }
  }

  // ----- tags as the writer lays them out -----

  /** Offset of the k-th tag of a descriptor block. */
  function TagOff(g: Geometry, k: nat): nat {
    if k == 0 then HEADER_SIZE else HEADER_SIZE + UUID_SIZE + g.tagBytes * k
  }

  /** The block holds exactly these tags, and a reader stops behind them. */
  ghost predicate Tagged(g: Geometry, tags: map<nat, Tag>, ts: seq<Tag>) {
    && (forall k | 0 <= k < |ts| :: TagAt(tags, TagOff(g, k)) == ts[k])
    && (forall k | 0 <= k < |ts| :: ts[k].same == (k > 0))
    && (forall k | 0 <= k < |ts| :: TagOff(g, k) + g.tagBytes <= g.Room())
    && (forall k | 0 <= k < |ts| - 1 :: !ts[k].last)
  }

  lemma TagOffNext(g: Geometry, k: nat, t: Tag)
    requires t.same == (k > 0)
    ensures After(g, t, TagOff(g, k)) == TagOff(g, k + 1)
  {
    assert g.tagBytes * (k + 1) == g.tagBytes * k + g.tagBytes;
  }

  /** Either the last tag is marked or the block is full: then both readers find exactly the tags written. */
  lemma {:induction false} ReadBack(g: Geometry, tags: map<nat, Tag>, ts: seq<Tag>, k: nat)
    requires g.Ok() && Tagged(g, tags, ts) && k <= |ts|
    requires |ts| > 0 && (ts[|ts| - 1].last || TagOff(g, |ts|) + g.tagBytes > g.Room())
    requires k == |ts| ==> !ts[|ts| - 1].last
    ensures ReadTags(g, tags, TagOff(g, k)) == ts[k..]
    decreases |ts| - k
  {
    if k < |ts| {
      TagOffNext(g, k, ts[k]);
      assert TagAt(tags, TagOff(g, k)) == ts[k] && TagOff(g, k) + g.tagBytes <= g.Room();
      if ts[k].last {
        assert k == |ts| - 1 && ts[k..] == [ts[k]];
      } else {
        ReadBack(g, tags, ts, k + 1);
        assert ts[k..] == [ts[k]] + ts[k + 1..];
      }
    }
  }

  // ----- revoke entries -----

  function EntryAt(entries: map<nat, nat>, off: nat): nat { if off in entries then entries[off] else 0 }

  function ReadRevokes(g: Geometry, entries: map<nat, nat>, off: nat, max: nat): seq<nat>
    requires g.Ok()
    decreases max - off
  {
    if off >= max then [] else [EntryAt(entries, off)] + ReadRevokes(g, entries, off + g.entryBytes, max)
  }

  /** dump_revoke_block. */
  method DumpRevoke(g: Geometry, b: JBlock) returns (seen: seq<nat>)
    requires g.Ok()
    ensures seen == ReadRevokes(g, b.entries, REVOKE_HEADER_SIZE, b.rcount)
  {
    seen := [];
    var offset, max := REVOKE_HEADER_SIZE, b.rcount;
    while offset < max
      invariant seen + ReadRevokes(g, b.entries, offset, max) == ReadRevokes(g, b.entries, REVOKE_HEADER_SIZE, max)
    {
      var e := EntryAt(b.entries, offset);
      ghost var rest := ReadRevokes(g, b.entries, offset + g.entryBytes, max);
      assert seen + ([e] + rest) == seen + [e] + rest;
      seen := seen + [e];
      offset := offset + g.entryBytes;
    }
  }

  function EntryOff(g: Geometry, k: nat): nat { REVOKE_HEADER_SIZE + g.entryBytes * k }

  lemma {:induction false} RevokesBack(g: Geometry, entries: map<nat, nat>, list: seq<nat>, k: nat)
    requires g.Ok() && k <= |list|
    requires forall j | 0 <= j < |list| :: EntryAt(entries, EntryOff(g, j)) == list[j]
    ensures ReadRevokes(g, entries, EntryOff(g, k), EntryOff(g, |list|)) == list[k..]
    decreases |list| - k
  {
    EntryOffOrder(g, k, |list|);
    if k < |list| {
      RevokesBack(g, entries, list, k + 1);
      assert EntryOff(g, k) + g.entryBytes == EntryOff(g, k + 1);
      assert list[k..] == [list[k]] + list[k + 1..];
    }
  }

  lemma EntryOffOrder(g: Geometry, j: nat, k: nat)
    requires g.Ok() && j <= k
    ensures EntryOff(g, j) <= EntryOff(g, k) && (j < k ==> EntryOff(g, j) < EntryOff(g, k))
  {
    if j < k { Spaced(g.entryBytes, j, k); }
  }

  lemma TagOffOrder(g: Geometry, j: nat, k: nat)
    requires g.Ok() && j < k
    ensures TagOff(g, j) + g.tagBytes <= TagOff(g, k)
  {
    Spaced(g.tagBytes, j, k);
  }

  lemma {:induction false} Spaced(a: nat, j: nat, k: nat)
    requires j < k
    ensures a * j + a <= a * k
    decreases k
  {
    assert a * k == a * (k - 1) + a;
    if j < k - 1 { Spaced(a, j, k - 1); }
  }

  // ----- how much goes into a block -----

  function Quotient(a: nat, b: nat): nat
    requires b > 0
  {
    a / b
  }

  /** Tags in a full descriptor block, and entries in a full revoke block. */
  function TagsPerBlock(g: Geometry): nat
    requires g.Ok()
  {
    Quotient(g.Room() - HEADER_SIZE - UUID_SIZE, g.tagBytes)
  }

  function EntriesPerBlock(g: Geometry): nat
    requires g.Ok()
  {
    Quotient(g.Room() - REVOKE_HEADER_SIZE, g.entryBytes)
  }

  /** The number of blocks for `n` records, `c` to a block. */
  function Ceiling(n: nat, c: nat): nat
    requires c > 0
  {
    Quotient(n + c - 1, c)
  }

  lemma QuotientMore(a: nat, b: nat, k: nat)
    requires b > 0
    ensures k < Quotient(a, b) <==> b * k + b <= a
  {
    var q := a / b;
    if k < q {
      Spaced(b, k, q);
    } else if k > q {
      Spaced(b, q, k);
    }
  }

  lemma TagRoom(g: Geometry, k: nat)
    requires g.Ok()
    ensures TagsPerBlock(g) > 0 && (TagOff(g, k) + g.tagBytes <= g.Room() <==> k < TagsPerBlock(g))
  {
    QuotientMore(g.Room() - HEADER_SIZE - UUID_SIZE, g.tagBytes, k);
    QuotientMore(g.Room() - HEADER_SIZE - UUID_SIZE, g.tagBytes, 0);
  }

  lemma EntryRoom(g: Geometry, k: nat)
    requires g.Ok()
    ensures EntriesPerBlock(g) > 0 && (EntryOff(g, k) + g.entryBytes <= g.Room() <==> k < EntriesPerBlock(g))
  {
    QuotientMore(g.Room() - REVOKE_HEADER_SIZE, g.entryBytes, k);
    QuotientMore(g.Room() - REVOKE_HEADER_SIZE, g.entryBytes, 0);
  }

  /** `i` records fill `q` blocks and `r` places of the next. */
  ghost predicate Packed(c: nat, i: nat, q: nat, r: nat) { i == c * q + r && r <= c }

  lemma PackedStep(c: nat, i: nat, q: nat, r: nat)
    requires Packed(c, i, q, r)
    ensures r < c ==> Packed(c, i + 1, q, r + 1)
    ensures r >= c ==> Packed(c, i, q + 1, 0)
  {
    assert c * (q + 1) == c * q + c;
  }

  /** The blocks begun never exceed those of the whole list, and are exactly those once all of it is in. */
  lemma PackedBlocks(c: nat, i: nat, q: nat, r: nat, n: nat)
    requires c > 0 && Packed(c, i, q, r) && i <= n
    ensures i < n || r > 0 ==> q + 1 <= Ceiling(n, c)
    ensures i == n && r > 0 ==> q + 1 == Ceiling(n, c)
  {
    QuotientMore(n + c - 1, c, q);
    QuotientMore(n + c - 1, c, q + 1);
    assert c * (q + 1) == c * q + c;
  }
}
