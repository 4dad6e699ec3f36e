/**
 * Writing transactions into the journal and finding them again: the debugfs
 * journal writer against the head scan of the same program and the separate
 * log dumper.
 */
module Journal {
  import opened Words
  import opened JournalLayout
  import opened JournalLog

  datatype Error = Ok | BadBlockNum | NoSpace | InvalidArgument | ReadFailed(errno: nat) | BadType

  /** The low word of a block number, which both readers look at, and the high word where there is one. */
  predicate NamesBlock(g: Geometry, t: Tag, b: nat) {
    t.blocknr == b % U32 && (g.entryBytes == 8 ==> t.high == b / U32 % U32)
  }

  ghost predicate Names(g: Geometry, tags: seq<Tag>, list: seq<nat>) {
    |tags| == |list| && forall i | 0 <= i < |tags| :: NamesBlock(g, tags[i], list[i])
  }

  /** Blocks for `n` data blocks with their descriptors, for `m` revoke entries, and for a whole transaction. */
  function DataSize(g: Geometry, n: nat): nat
    requires g.Ok()
  {
    TagRoom(g, 0);
    n + Ceiling(n, TagsPerBlock(g))
  }

  function RevokeSize(g: Geometry, m: nat): nat
    requires g.Ok()
  {
    EntryRoom(g, 0);
    Ceiling(m, EntriesPerBlock(g))
  }

  function Needed(g: Geometry, n: nat, m: nat, commit: bool): nat
    requires g.Ok()
  {
    DataSize(g, n) + RevokeSize(g, m) + if commit then 1 else 0
  }

  /** journal_guess_blocks. */
  function GuessBlocks(g: Geometry, n: nat, m: nat): nat
    requires g.Ok()
  {
    1 + Quotient(m * g.entryBytes, g.blocksize - g.tail) + Quotient(n * g.tagBytes, g.blocksize - 16 - g.tail) + n
  }

  /** Only blocks that the bare records would fill to the last byte are counted, and the commit block is not. */
  lemma GuessCounts(g: Geometry, n: nat, m: nat, revokeBlocks: nat, tagBlocks: nat)
    requires g.Ok()
    requires (g.blocksize - g.tail) * revokeBlocks <= m * g.entryBytes < (g.blocksize - g.tail) * revokeBlocks + (g.blocksize - g.tail)
    requires (g.blocksize - g.tail - 16) * tagBlocks <= n * g.tagBytes < (g.blocksize - g.tail - 16) * tagBlocks + (g.blocksize - g.tail - 16)
    ensures GuessBlocks(g, n, m) == 1 + revokeBlocks + tagBlocks + n
  {
    hide Quotient;
    QuotientIs(m * g.entryBytes, g.blocksize - g.tail, revokeBlocks);
    QuotientIs(n * g.tagBytes, g.blocksize - g.tail - 16, tagBlocks);
  }

  lemma QuotientIs(a: nat, b: nat, q: nat)
    requires b > 0 && b * q <= a < b * q + b
    ensures Quotient(a, b) == q
  {
    QuotientMore(a, b, q);
    if q > 0 {
      QuotientMore(a, b, q - 1);
      assert b * (q - 1) + b == b * q;
    }
  }

  /** The estimate never covers a transaction that holds anything: it is short by one block for each kind of record. */
  lemma GuessAlwaysShort(g: Geometry, n: nat, m: nat)
    requires g.Ok()
    ensures GuessBlocks(g, n, m) + (if n > 0 then 1 else 0) + (if m > 0 then 1 else 0) <= Needed(g, n, m, true)
  {
    hide TagsPerBlock, EntriesPerBlock, Ceiling, Quotient;
    TagRoom(g, 0);
    EntryRoom(g, 0);
    var c, e := TagsPerBlock(g), EntriesPerBlock(g);
    FullBlock(g);
    if n > 0 { Sparse(n, g.tagBytes, c, g.blocksize - 16 - g.tail); } else { SmallQuotient(0, g.blocksize - 16 - g.tail); }
    if m > 0 { Sparse(m, g.entryBytes, e, g.blocksize - g.tail); } else { SmallQuotient(0, g.blocksize - g.tail); }
  }

  lemma FullBlock(g: Geometry)
    requires g.Ok()
    ensures g.tagBytes * TagsPerBlock(g) < g.blocksize - 16 - g.tail && g.entryBytes * EntriesPerBlock(g) < g.blocksize - g.tail
  {
  }

  /** Records of `a` bytes, `c` to a block of more than that, take more blocks than their bytes alone. */
  lemma Sparse(n: nat, a: nat, c: nat, size: nat)
    requires n > 0 && c > 0 && a * c < size
    ensures Quotient(n * a, size) < Ceiling(n, c)
  {
    hide Quotient;
    var q := Ceiling(n, c);
    QuotientMore(n + c - 1, c, q);
    QuotientMore(n + c - 1, c, 0);
    assert n <= c * q;
    Scaled(a, n, c * q);
    assert a * (c * q) == (a * c) * q;
    Scaled(q, a * c + 1, size);
    assert q * (a * c + 1) == (a * c) * q + q;
    assert size * (q - 1) + size == size * q == q * size && n * a == a * n;
    QuotientMore(n * a, size, q - 1);
  }

  lemma Scaled(a: nat, x: nat, y: nat)
    requires x <= y
    ensures a * x <= a * y
  {
    assert a * y == a * x + a * (y - x);
  }

  /** Data blocks that fit one descriptor block, and no revokes: the estimate leaves out the commit block alone. */
  lemma GuessRight(g: Geometry, n: nat)
    requires g.Ok() && 0 < n <= TagsPerBlock(g)
    ensures GuessBlocks(g, n, 0) + 1 == Needed(g, n, 0, true)
  {
    hide TagsPerBlock, Ceiling, Quotient;
    TagRoom(g, n - 1);
    EntryRoom(g, 0);
    NothingPacked(EntriesPerBlock(g));
    NothingPacked(TagsPerBlock(g));
    PackedUpTo(TagsPerBlock(g), n);
    PackedBlocks(TagsPerBlock(g), n, 0, n, n);
    SmallQuotient(0, g.blocksize - g.tail);
    assert g.tagBytes * n == g.tagBytes * (n - 1) + g.tagBytes == n * g.tagBytes;
    SmallQuotient(n * g.tagBytes, g.blocksize - 16 - g.tail);
  }

  lemma PackedUpTo(c: nat, n: nat)
    requires n <= c
    ensures Packed(c, n, 0, n)
  {
  }

  lemma SmallQuotient(a: nat, b: nat)
    requires a < b
    ensures Quotient(a, b) == 0
  {
  }

  /** One data block and one revoke: the estimate is one block short. */
  lemma GuessShort()
    ensures var g := Geometry(1024, 0, 8, 4, 1, 100); GuessBlocks(g, 1, 1) + 2 == Needed(g, 1, 1, true)
  {
    var g := Geometry(1024, 0, 8, 4, 1, 100);
    assert TagsPerBlock(g) == 124 && EntriesPerBlock(g) == 252;
  }

  lemma NothingPacked(c: nat)
    ensures Packed(c, 0, 0, 0) && (c > 0 ==> Ceiling(0, c) == 0)
  {
  }

  /** What an entry of 4 or 8 bytes keeps of a block number. */
  function Entry(g: Geometry, b: nat): nat { if g.entryBytes == 8 then b % U64 else b % U32 }

  function Stored(g: Geometry, list: seq<nat>): (r: seq<nat>)
    ensures |r| == |list|
    ensures r == list <==> forall i | 0 <= i < |list| :: list[i] < if g.entryBytes == 8 then U64 else U32
  {
    seq(|list|, i requires 0 <= i < |list| => Entry(g, list[i]))
  }

  lemma StoredAll(g: Geometry, fsBlocks: nat, list: seq<nat>)
    requires forall i | 0 <= i < |list| :: list[i] < fsBlocks
    ensures fsBlocks <= (if g.entryBytes == 8 then U64 else U32) ==> Stored(g, list) == list
  {
  }

  lemma StoredNone(g: Geometry)
    ensures Stored(g, []) == []
  {
  }

  /** Every block that was changed carries this transaction's id, or no magic number at all. */
  ghost predicate Inked(was: Disk, d: Disk, tid: nat) {
    forall b: nat :: Read(d, b) == Read(was, b) || Read(d, b).magic != MAGIC || Read(d, b).sequence == tid
  }

  /** No block of the log carries an id beyond this one. */
  ghost predicate Past(d: Disk, g: Geometry, tid: nat) {
    forall b: nat | b >= g.first :: Read(d, b).magic == MAGIC ==> Read(d, b).sequence <= tid
  }

  /** Whole items, and behind them the place of a descriptor block that was never written. */
  ghost predicate Broken(was: Disk, d: Disk, g: Geometry, tid: nat, from: nat, items: seq<Item>, hi: nat)
    requires g.Ok()
  {
    && Laid(d, g, tid, from, items) && Plain(items) && from + Total(items) < hi
    && Read(d, from + Total(items)) == Read(was, from + Total(items))
  }

  ghost predicate Plain(items: seq<Item>) { forall i | 0 <= i < |items| :: !items[i].Commit? }

  lemma {:induction false} PlainSeq(items: seq<Item>, tid: nat)
    requires Plain(items)
    ensures Seq(tid, items) == tid && Committed(items) == 0
  {
    if items != [] { PlainSeq(items[..|items| - 1], tid); }
  }

  class Log {
    const g: Geometry
    const fsBlocks: nat
    var disk: Disk

    // The journal: where the log starts (0 when it is empty) and where it goes on.
    var tail: nat
    var tailSequence: nat
    var head: nat
    var sequence: nat
    // Its superblock.
    var sbStart: nat
    var sbSequence: nat

    // The transaction being written.
    var tid: nat
    var start: nat
    var block: nat
    var end: nat
    var open: bool
    var committed: bool

    /** Opening a journal that holds no transactions. */
    constructor (g: Geometry, fsBlocks: nat, disk: Disk, nextId: nat)
      requires g.Ok() && nextId < U32
      ensures this.g == g && this.fsBlocks == fsBlocks && this.disk == disk && tail == 0 && tailSequence == nextId
      ensures InStep([]) && (Past(disk, g, nextId) ==> Synced([]))
    {
      this.g, this.fsBlocks, this.disk := g, fsBlocks, disk;
      tail, tailSequence, head, sequence := 0, nextId, 0, nextId;
      sbStart, sbSequence := 0, nextId;
    }

    ghost predicate Valid()
      reads this
    {
      && g.Ok() && tailSequence < U32 && sequence < U32
      && sbStart == tail && sbSequence == tailSequence
      && (tail == 0 || g.first <= tail < g.last)
    }

    /** What has been written of the transaction since block `from`. */
    ghost predicate Holds(from: nat, items: seq<Item>, was: Disk)
      requires g.Ok()
      reads this
    {
      && Laid(disk, g, tid, from, items) && block == from + Total(items) && Plain(items)
      && Untouched(was, disk, from, block)
    }

    // ----- journal_add_blocks_to_trans -----

    /** Writes out the descriptor block and makes its tags and data blocks an item of the log. */
    method Flush(jdb: nat, tags: map<nat, Tag>, ghost from: nat, ghost curr: nat,
                 ghost was: Disk, ghost items: seq<Item>, ghost ts: seq<Tag>, ghost ds: seq<JBlock>)
      returns (ghost items': seq<Item>)
      requires g.Ok() && Laid(disk, g, tid, from, items) && Plain(items) && jdb == from + Total(items)
      requires Draft(disk, g, jdb, tags, ts, ds) && curr == jdb + 1 + |ds| && Untouched(was, disk, from, curr)
      requires Inked(was, disk, tid)
      requires ts != [] && (ts[|ts| - 1].last || TagOff(g, |ts|) + g.tagBytes > g.Room())
      modifies `disk
      ensures items' == items + [Group(ts, ds)] && Plain(items') && curr == from + Total(items')
      ensures Laid(disk, g, tid, from, items') && Untouched(was, disk, from, curr) && Inked(was, disk, tid)
    {
      hide Laid, Draft, ItemOn, Total, Seq, TagsOf, DataOf;
      ghost var d := disk;
      var junk: JBlock := *;
      var b := junk.(magic := MAGIC, blocktype := DESCRIPTOR, sequence := tid, tags := tags);
      disk := disk[jdb := b];
      DraftDone(d, g, tid, jdb, b, ts, ds);
      PlainSeq(items, tid);
      LaidExtend(d, disk, g, tid, from, items, Group(ts, ds), jdb + 1);
      OneMore(items, Group(ts, ds));
      items' := items + [Group(ts, ds)];
    }

    /** Fills the tag at `off` and writes its data block. */
    method PutTag(tags: map<nat, Tag>, off: nat, jdb: nat, curr: nat, blocknr: nat, last: bool, data: JBlock,
                  ghost ts: seq<Tag>, ghost ds: seq<JBlock>)
      returns (tags': map<nat, Tag>, off': nat, ghost t: Tag)
      requires g.Ok() && Draft(disk, g, jdb, tags, ts, ds) && curr == jdb + 1 + |ds|
      requires off == TagOff(g, |ts|) && off + g.tagBytes <= g.Room()
      requires ts != [] ==> !ts[|ts| - 1].last
      modifies `disk
      ensures disk == old(disk)[curr := if data.magic == MAGIC then data.(magic := 0) else data]
      ensures Draft(disk, g, jdb, tags', ts + [t], ds + [data]) && off' == TagOff(g, |ts| + 1)
      ensures NamesBlock(g, t, blocknr) && t.last == last
    {
      hide Draft, Tagged;
      FirstOff(g, |ts|);
      DraftTagged(disk, g, jdb, tags, ts, ds);
      var tagBytes := g.tagBytes;
      var same := off != HEADER_SIZE;
      var escape := data.magic == MAGIC;
      tags' := tags;
      if !same {
        // The UUID is copied to some later place of the block, over whatever is there.
        tags' := *;
        tagBytes := tagBytes + UUID_SIZE;
      }
      ghost var before := tags';
      // The high word is only set with 64-bit block numbers; otherwise it is what the buffer held.
      var high: nat := *;
      if g.entryBytes == 8 { high := blocknr / U32 % U32; }
      t := Tag(blocknr % U32, high, same, last, escape);
      tags' := tags'[off := Tag(blocknr % U32, high, same, last, escape)];
      SlotKept(g, before, |ts|, t);
      assert Kept(g, tags, tags', |ts|) by { if !same { assert |ts| == 0; } }
      TaggedGrows(g, tags, ts, tags', t);
      var stored := if escape then data.(magic := 0) else data;
      DraftGrows(disk, g, jdb, tags, ts, ds, tags', t, data, stored);
      disk := disk[curr := stored];
      TagOffNext(g, |ts|, t);
      off' := off + tagBytes;
    }

    /** Where the writer stands: `i` blocks of the list are in `items` and in the descriptor in preparation. */
    ghost predicate Filling(was: Disk, from: nat, items: seq<Item>, ts: seq<Tag>, ds: seq<JBlock>,
                            list: seq<nat>, data: seq<JBlock>, i: nat, jdb: nat, tags: map<nat, Tag>, off: nat, curr: nat)
      requires g.Ok() && i <= |list| && i <= |data|
      reads this
    {
      && Laid(disk, g, tid, from, items) && Plain(items) && jdb == from + Total(items)
      && Draft(disk, g, jdb, tags, ts, ds) && |ts| == |ds| && off == TagOff(g, |ts|) && curr == jdb + 1 + |ds|
      && Untouched(was, disk, from, curr) && Inked(was, disk, tid) && Read(disk, jdb) == Read(was, jdb)
      && Carries(g, items, ts, ds, list, data, i)
      && Packed(TagsPerBlock(g), i, |items|, |ts|) && curr == from + i + |items| + 1
    }

    /** The descriptor block is full: it is written, and the next one begun behind the data blocks. */
    method FlushFull(jdb: nat, tags: map<nat, Tag>, off: nat, curr: nat, ghost was: Disk, ghost from: nat, ghost items: seq<Item>,
                     ghost ts: seq<Tag>, ghost ds: seq<JBlock>, ghost list: seq<nat>, ghost data: seq<JBlock>, ghost i: nat)
      returns (ghost items': seq<Item>)
      requires g.Ok() && i <= |list| && i <= |data| && ts != [] && off + g.tagBytes > g.Room()
      requires Filling(was, from, items, ts, ds, list, data, i, jdb, tags, off, curr)
      modifies `disk
      ensures Filling(was, from, items', [], [], list, data, i, curr, tags, HEADER_SIZE, curr + 1)
    {
      hide Laid, Draft, Total, Untouched, Carries, Inked, Packed, TagsPerBlock, Plain;
      TagRoom(g, |ts|);
      PackedStep(TagsPerBlock(g), i, |items|, |ts|);
      CarriesGroup(g, items, ts, ds, list, data, i);
      items' := Flush(jdb, tags, from, curr, was, items, ts, ds);
      NewDraft(disk, g, curr, tags);
      UntouchedAt(was, disk, from, curr, curr);
      UntouchedGrows(was, disk, from, curr, curr + 1);
    }

    /** One more tag with its data block. */
    method AddTag(jdb: nat, tags: map<nat, Tag>, off: nat, curr: nat, blocknr: nat, last: bool, b: JBlock,
                  ghost was: Disk, ghost from: nat, ghost items: seq<Item>,
                  ghost ts: seq<Tag>, ghost ds: seq<JBlock>, ghost list: seq<nat>, ghost data: seq<JBlock>, ghost i: nat)
      returns (tags': map<nat, Tag>, off': nat, ghost t: Tag)
      requires g.Ok() && i < |list| && i < |data| && blocknr == list[i] && b == data[i]
      requires off + g.tagBytes <= g.Room() && (ts != [] ==> !ts[|ts| - 1].last)
      requires Filling(was, from, items, ts, ds, list, data, i, jdb, tags, off, curr)
      modifies `disk
      ensures t.last == last
      ensures Filling(was, from, items, ts + [t], ds + [b], list, data, i + 1, jdb, tags', off', curr + 1)
    {
      hide Laid, Draft, Total, Untouched, Carries, Inked, Packed, TagsPerBlock, Plain;
      TagRoom(g, |ts|);
      PackedStep(TagsPerBlock(g), i, |items|, |ts|);
      ghost var d := disk;
      tags', off', t := PutTag(tags, off, jdb, curr, blocknr, last, b, ts, ds);
      ghost var stored := if b.magic == MAGIC then b.(magic := 0) else b;
      UntouchedWrite(was, d, from, curr, stored);
      InkedWrite(was, d, tid, curr, stored);
      LaidWrite(d, g, tid, from, items, curr, stored);
      CarriesTag(g, items, ts, ds, list, data, i, t);
    }

    /**
     * Puts the blocks of the list into the transaction. A block beyond the
     * file system is refused; a data file that ends early gives the error
     * number left over by the read.
     */
    method AddBlocks(list: seq<nat>, data: seq<JBlock>, errno: nat)
      returns (err: Error, ghost items: seq<Item>)
      requires g.Ok()
      modifies `disk, `block
      ensures (committed || !open) ==> err == InvalidArgument && disk == old(disk) && block == old(block)
      ensures open && !committed ==>
        (err == BadBlockNum <==> exists i :: 0 <= i < |list| && i < |data| && list[i] >= fsBlocks)
      ensures open && !committed && err != BadBlockNum && |data| < |list| ==>
        && err == (if errno == 0 then Ok else ReadFailed(errno))
        && Broken(old(disk), disk, g, tid, old(block), items, block)
      ensures open && !committed && err != BadBlockNum && |data| >= |list| ==>
        && err == Ok && Holds(old(block), items, old(disk))
        && Names(g, TagsOf(items), list) && DataOf(items) == data[..|list|] && RevokesOf(items) == []
      ensures open && !committed && err != BadBlockNum && |data| >= |list| ==>
        var at, tags := DataAt(old(block), items), TagsOf(items);
        && |at| == |tags| == |list| && Rising(at, old(block), block)
        && (forall i | 0 <= i < |list| :: Read(disk, at[i]).magic != MAGIC)
        && (forall i | 0 <= i < |list| ::
              data[i] == if tags[i].escape then Read(disk, at[i]).(magic := MAGIC) else Read(disk, at[i]))
      ensures block >= old(block) && Untouched(old(disk), disk, old(block), block) && Inked(old(disk), disk, tid)
      ensures block <= old(block) + DataSize(g, |list|)
      ensures err == Ok && |data| >= |list| ==> block == old(block) + DataSize(g, |list|)
    {
      hide Laid, Draft, Total, TagsOf, DataOf, RevokesOf, Names, Untouched, Carries, Inked, Packed, TagsPerBlock, Ceiling, Plain, Rising, DataAt, Read;
      err, items := Ok, [];
      ghost var c := TagsPerBlock(g);
      SameDisk(disk, block);
      NothingLaid(disk, g, tid, block);
      if |list| == 0 { SealedData(disk, g, tid, block, [], false, list, data); }
      TagRoom(g, 0);
      NothingPacked(c);
      if committed || !open { return InvalidArgument, []; }
      if |list| == 0 { return; }
      ghost var was, from := disk, block;
      var curr: nat, jdb: nat, off: nat := block + 1, block, HEADER_SIZE;
      var tags: map<nat, Tag> := *;
      ghost var ts: seq<Tag>, ds: seq<JBlock> := [], [];
      NewDraft(disk, g, jdb, tags);
      CarriesNothing(g, list, data);
      UntouchedGrows(was, disk, from, block, curr);
      var i := 0;
      while i < |list|
        invariant 0 <= i <= |list| && i <= |data| && committed == old(committed) && open == old(open)
        invariant Filling(was, from, items, ts, ds, list, data, i, jdb, tags, off, curr)
        invariant i > 0 ==> ts != []
        invariant ts != [] ==> ts[|ts| - 1].last == (i == |list|)
        invariant forall k | 0 <= k < i :: list[k] < fsBlocks
      {
        PackedBlocks(c, i, |items|, |ts|, |list|);
        if i >= |data| {
          block := curr;
          return if errno == 0 then Ok else ReadFailed(errno), items;
        }
        if off + g.tagBytes > g.Room() {
          items := FlushFull(jdb, tags, off, curr, was, from, items, ts, ds, list, data, i);
          ts, ds, off, jdb, curr := [], [], HEADER_SIZE, curr, curr + 1;
          PackedBlocks(c, i, |items|, |ts|, |list|);
        }
        if list[i] >= fsBlocks {
          block := curr;
          return BadBlockNum, items;
        }
        TagRoom(g, 0);
        ghost var t: Tag;
        tags, off, t := AddTag(jdb, tags, off, curr, list[i], i == |list| - 1, data[i], was, from, items, ts, ds, list, data, i);
        ts, ds, curr, i := ts + [t], ds + [data[i]], curr + 1, i + 1;
      }
      PackedBlocks(c, i, |items|, |ts|, |list|);
      CarriesGroup(g, items, ts, ds, list, data, i);
      items := Flush(jdb, tags, from, curr, was, items, ts, ds);
      CarriesAll(g, items, list, data);
      SealedData(disk, g, tid, from, items, false, list, data);
      block := curr;
    }

    // ----- journal_add_revoke_to_trans -----

    method FlushRevokes(curr: nat, entries: map<nat, nat>, offset: nat,
                        ghost from: nat, ghost was: Disk, ghost items: seq<Item>, ghost rs: seq<nat>)
      returns (ghost items': seq<Item>)
      requires g.Ok() && Laid(disk, g, tid, from, items) && Plain(items) && curr == from + Total(items)
      requires Filled(g, entries, rs) && offset == EntryOff(g, |rs|)
      requires Untouched(was, disk, from, curr) && Inked(was, disk, tid)
      modifies `disk
      ensures items' == items + [Revoked(rs)] && Plain(items') && curr + 1 == from + Total(items')
      ensures Laid(disk, g, tid, from, items') && Untouched(was, disk, from, curr + 1) && Inked(was, disk, tid)
    {
      hide Laid, Filled, ItemOn, Total, Seq, TagsOf, DataOf, EntryOff;
      ghost var d := disk;
      var junk: JBlock := *;
      var b := junk.(magic := MAGIC, blocktype := REVOKE, sequence := tid, rcount := offset, entries := entries);
      disk := disk[curr := b];
      FilledDone(d, g, tid, curr, b, rs);
      PlainSeq(items, tid);
      LaidExtend(d, disk, g, tid, from, items, Revoked(rs), curr + 1);
      OneMore(items, Revoked(rs));
      items' := items + [Revoked(rs)];
    }

    /** Where the writer stands: `i` entries of the list are in `items` and in the revoke block in preparation. */
    ghost predicate Revoking(was: Disk, from: nat, items: seq<Item>, rs: seq<nat>, list: seq<nat>, i: nat,
                             entries: map<nat, nat>, offset: nat, curr: nat)
      requires g.Ok() && i <= |list|
      reads this
    {
      && Laid(disk, g, tid, from, items) && Plain(items) && curr == from + Total(items)
      && Filled(g, entries, rs) && offset == EntryOff(g, |rs|)
      && Untouched(was, disk, from, curr) && Inked(was, disk, tid) && Revokes(g, items, rs, list, i)
      && Packed(EntriesPerBlock(g), i, |items|, |rs|) && curr == from + |items|
    }

    /** The revoke block is full: it is written, and the next one begun. */
    method FlushFullRevokes(curr: nat, entries: map<nat, nat>, offset: nat, ghost was: Disk, ghost from: nat,
                            ghost items: seq<Item>, ghost rs: seq<nat>, ghost list: seq<nat>, ghost i: nat)
      returns (ghost items': seq<Item>)
      requires g.Ok() && i <= |list| && offset + g.entryBytes > g.Room()
      requires Revoking(was, from, items, rs, list, i, entries, offset, curr)
      modifies `disk
      ensures Revoking(was, from, items', [], list, i, entries, REVOKE_HEADER_SIZE, curr + 1)
    {
      hide Laid, Filled, Total, Untouched, Revokes, Inked, EntryOff, Packed, EntriesPerBlock, Plain;
      EntryRoom(g, |rs|);
      PackedStep(EntriesPerBlock(g), i, |items|, |rs|);
      RevokesBlock(g, items, rs, list, i);
      items' := FlushRevokes(curr, entries, offset, from, was, items, rs);
      NothingFilled(g, entries, list);
    }

    /** One more entry. */
    lemma EntryStep(was: Disk, from: nat, items: seq<Item>, rs: seq<nat>, list: seq<nat>, i: nat,
                    entries: map<nat, nat>, offset: nat, curr: nat)
      requires g.Ok() && i < |list| && offset + g.entryBytes <= g.Room()
      requires Revoking(was, from, items, rs, list, i, entries, offset, curr)
      ensures var e := Entry(g, list[i]);
        Revoking(was, from, items, rs + [e], list, i + 1, entries[offset := e], offset + g.entryBytes, curr)
    {
      hide Laid, Filled, Total, Untouched, Revokes, Inked, EntryOff, Packed, EntriesPerBlock, Plain, Entry;
      EntryRoom(g, |rs|);
      PackedStep(EntriesPerBlock(g), i, |items|, |rs|);
      RevokesEntry(g, items, rs, list, i);
      FilledGrows(g, entries, rs, Entry(g, list[i]));
      NextEntry(g, |rs|);
    }

    /** Puts the revoke list into the transaction. */
    method AddRevokes(list: seq<nat>)
      returns (err: Error, ghost items: seq<Item>)
      requires g.Ok()
      modifies `disk, `block
      ensures (committed || !open) ==> err == InvalidArgument && disk == old(disk) && block == old(block)
      ensures open && !committed ==>
        err == if exists i :: 0 <= i < |list| && list[i] >= fsBlocks then BadBlockNum else Ok
      ensures err == Ok ==>
        && Holds(old(block), items, old(disk))
        && RevokesOf(items) == Stored(g, list) && TagsOf(items) == [] && DataOf(items) == []
      ensures err == Ok && fsBlocks <= (if g.entryBytes == 8 then U64 else U32) ==> RevokesOf(items) == list
      ensures block >= old(block) && Untouched(old(disk), disk, old(block), block) && Inked(old(disk), disk, tid)
      ensures block <= old(block) + RevokeSize(g, |list|)
      ensures err == Ok ==> block == old(block) + RevokeSize(g, |list|)
    {
      hide Laid, Filled, Total, TagsOf, DataOf, RevokesOf, Untouched, Revokes, Inked, EntryOff, Packed, EntriesPerBlock, Ceiling, Plain, Entry, Stored;
      err, items := Ok, [];
      ghost var c := EntriesPerBlock(g);
      EntryRoom(g, 0);
      NothingPacked(c);
      SameDisk(disk, block);
      NothingLaid(disk, g, tid, block);
      if committed || !open { return InvalidArgument, []; }
      StoredNone(g);
      if |list| == 0 { return; }
      ghost var was, from := disk, block;
      var curr: nat, offset: nat := block, REVOKE_HEADER_SIZE;
      var entries: map<nat, nat> := *;
      ghost var rs: seq<nat> := [];
      NothingFilled(g, entries, list);
      var i := 0;
      while i < |list|
        invariant 0 <= i <= |list| && committed == old(committed) && open == old(open)
        invariant Revoking(was, from, items, rs, list, i, entries, offset, curr)
        invariant forall k | 0 <= k < i :: list[k] < fsBlocks
        invariant i > 0 ==> rs != []
      {
        if offset + g.entryBytes > g.Room() {
          items := FlushFullRevokes(curr, entries, offset, was, from, items, rs, list, i);
          rs, offset, curr := [], REVOKE_HEADER_SIZE, curr + 1;
        }
        PackedBlocks(c, i, |items|, |rs|, |list|);
        if list[i] >= fsBlocks {
          block := curr;
          return BadBlockNum, items;
        }
        EntryRoom(g, 0);
        EntryStep(was, from, items, rs, list, i, entries, offset, curr);
        entries := entries[offset := Entry(g, list[i])];
        rs, offset, i := rs + [Entry(g, list[i])], offset + g.entryBytes, i + 1;
      }
      PackedBlocks(c, i, |items|, |rs|, |list|);
      RevokesBlock(g, items, rs, list, i);
      items := FlushRevokes(curr, entries, offset, from, was, items, rs);
      RevokesAll(g, items, list);
      StoredAll(g, fsBlocks, list);
      block := curr + 1;
    }

    // ----- journal_commit_trans, journal_open_trans, journal_close_trans -----

    method CommitTrans() returns (err: Error)
      requires g.Ok()
      modifies `disk, `block, `open, `committed
      ensures err == if old(committed) || !old(open) then InvalidArgument else Ok
      ensures err != Ok ==> disk == old(disk) && block == old(block) && open == old(open) && committed == old(committed)
      ensures err == Ok ==> committed && !open && block == old(block) + 1
      ensures err == Ok ==> ItemOn(disk, g, tid, old(block), Commit)
      ensures Untouched(old(disk), disk, old(block), block) && Inked(old(disk), disk, tid)
    {
      if committed || !open { return InvalidArgument; }
      var junk: JBlock := *;
      disk := disk[block := junk.(magic := MAGIC, blocktype := COMMIT, sequence := tid)];
      committed, open := true, false;
      block := block + 1;
      err := Ok;
    }

    /** Where the next transaction starts and the id it gets. */
    function NextStart(): nat reads this { if tail == 0 then g.first else head }
    function NextTid(): nat reads this { if tail == 0 then tailSequence else sequence }

    method OpenTrans(blocks: nat) returns (err: Error)
      modifies `tid, `start, `block, `end, `open, `committed
      ensures tid == NextTid() && start == block == NextStart() && open && !committed
      ensures err == if start + blocks > g.last then NoSpace else Ok
      ensures err == Ok ==> end == start + blocks
    {
      open, committed := true, false;
      if tail == 0 {
        tid, start := tailSequence, g.first;
      } else {
        tid, start := sequence, head;
      }
      block := start;
      if start + blocks > g.last { return NoSpace; }
      end := block + blocks;
      err := Ok;
    }

    method CloseTrans()
      modifies `tail, `tailSequence, `sbStart, `head, `sequence
      ensures !committed ==> tail == old(tail) && tailSequence == old(tailSequence) && sbStart == old(sbStart)
                             && head == old(head) && sequence == old(sequence)
      ensures committed ==> head == end + 1 && sequence == (tid + 1) % U32
      ensures committed ==> tail == if old(tail) == 0 then start else old(tail)
      ensures committed ==> tailSequence == if old(tail) == 0 then tid else old(tailSequence)
      ensures committed ==> sbStart == if old(tail) == 0 then start else old(sbStart)
    {
      if !committed { return; }
      if tail == 0 {
        tailSequence, tail, sbStart := tid, start, start;
      }
      head, sequence := end + 1, (tid + 1) % U32;
    }

    // ----- journal_write -----

    /**
     * No block is refused, neither of the list as far as there is data nor of
     * the revokes, and the data does not run out, or runs out unnoticed.
     */
    ghost predicate Accepts(list: seq<nat>, data: seq<JBlock>, errno: nat, revokes: seq<nat>) {
      && (forall i | 0 <= i < |list| && i < |data| :: list[i] < fsBlocks)
      && (|data| >= |list| || errno == 0)
      && (forall i | 0 <= i < |revokes| :: revokes[i] < fsBlocks)
    }

    /** The blocks and the revokes together. */
    method AddAll(list: seq<nat>, data: seq<JBlock>, errno: nat, revokes: seq<nat>)
      returns (err: Error, ghost body: seq<Item>)
      requires g.Ok() && open && !committed
      modifies `disk, `block
      ensures err != NoSpace && (err == Ok <==> Accepts(list, data, errno, revokes))
      ensures block <= old(block) + Needed(g, |list|, |revokes|, false)
      ensures err == Ok && |data| >= |list| ==> block == old(block) + Needed(g, |list|, |revokes|, false)
      ensures block >= old(block) && Untouched(old(disk), disk, old(block), block) && Inked(old(disk), disk, tid)
      ensures err == Ok && |data| >= |list| ==>
        && Plain(body) && Names(g, TagsOf(body), list) && DataOf(body) == data[..|list|]
        && RevokesOf(body) == Stored(g, revokes)
        && (fsBlocks <= (if g.entryBytes == 8 then U64 else U32) ==> RevokesOf(body) == revokes)
        && Laid(disk, g, tid, old(block), body) && block == old(block) + Total(body)
      ensures err == Ok && |data| < |list| ==> Broken(old(disk), disk, g, tid, old(block), body, block)
    {
      hide Laid, ItemOn, Total, Broken, Names, TagsOf, DataOf, RevokesOf, Stored, Seq, Inked, Untouched, Plain, DataSize, RevokeSize;
      body := [];
      ghost var was, from := disk, block;
      ghost var groups, blocks;
      err, groups := AddBlocks(list, data, errno);
      if err != Ok { return; }
      ghost var mid, d := block, disk;
      err, blocks := AddRevokes(revokes);
      UntouchedJoin(was, d, disk, from, mid, block);
      InkedJoin(was, d, disk, tid);
      if err != Ok { return; }
      if |data| >= |list| {
        body := groups + blocks;
        BodyJoin(d, disk, g, tid, from, groups, blocks, block);
      } else {
        body := groups;
        BrokenKept(was, d, disk, g, tid, from, groups, mid, block);
      }
    }

    /**
     * Writes one transaction. The log proper is only touched in the blocks of
     * the transaction, and the journal's own fields only by a commit.
     */
    method Write(list: seq<nat>, data: seq<JBlock>, errno: nat, revokes: seq<nat>, commit: bool)
      returns (err: Error, ghost body: seq<Item>)
      requires Valid()
      modifies this
      ensures Valid() && tid == old(NextTid()) && start == old(NextStart()) && sbSequence == old(sbSequence)
      ensures err == NoSpace <==> start + GuessBlocks(g, |list|, |revokes|) > g.last
      ensures err == Ok <==> start + GuessBlocks(g, |list|, |revokes|) <= g.last && Accepts(list, data, errno, revokes)
      ensures block <= start + Needed(g, |list|, |revokes|, commit)
      ensures err == Ok && |data| >= |list| ==> block == start + Needed(g, |list|, |revokes|, commit)
      ensures committed ==> head == start + GuessBlocks(g, |list|, |revokes|) + 1
      ensures committed && |data| >= |list| ==>
        (NextStart() == block <==> GuessBlocks(g, |list|, |revokes|) + 1 == Needed(g, |list|, |revokes|, true))
      ensures block >= start && Untouched(old(disk), disk, start, block) && Inked(old(disk), disk, tid)
      ensures committed == (err == Ok && commit)
      ensures !committed ==> tail == old(tail) && tailSequence == old(tailSequence)
                             && head == old(head) && sequence == old(sequence)
      ensures committed ==> sequence == (tid + 1) % U32
                            && tail == (if old(tail) == 0 then start else old(tail))
                            && tailSequence == old(tailSequence)
      ensures err == Ok && |data| >= |list| ==>
        && Plain(body) && Names(g, TagsOf(body), list) && DataOf(body) == data[..|list|]
        && RevokesOf(body) == Stored(g, revokes)
        && (fsBlocks <= (if g.entryBytes == 8 then U64 else U32) ==> RevokesOf(body) == revokes)
        && Laid(disk, g, tid, start, Sealed(body, commit)) && block == start + Total(Sealed(body, commit))
      ensures err == Ok && |data| >= |list| ==>
        var at, tags := DataAt(start, Sealed(body, commit)), TagsOf(body);
        && |at| == |tags| == |list| && Rising(at, start, block)
        && (forall i | 0 <= i < |list| :: Read(disk, at[i]).magic != MAGIC)
        && (forall i | 0 <= i < |list| ::
              data[i] == if tags[i].escape then Read(disk, at[i]).(magic := MAGIC) else Read(disk, at[i]))
      ensures err == Ok && |data| < |list| ==> Broken(old(disk), disk, g, tid, start, body, block)
    {
      hide Laid, ItemOn, Total, Broken, Names, TagsOf, DataOf, RevokesOf, Stored, Seq, Inked, Untouched, Plain, DataSize, RevokeSize, Read, Rising, DataAt, GuessBlocks, Accepts;
      body := [];
      err := OpenTrans(GuessBlocks(g, |list|, |revokes|));
      SameDisk(disk, block);
      if err != Ok { return; }
      ghost var was := disk;
      err, body := AddAll(list, data, errno, revokes);
      if err != Ok { return; }
      if commit {
        if |data| >= |list| { PlainSeq(body, tid); }
        ghost var d', end' := disk, block;
        err := CommitTrans();
        UntouchedJoin(was, d', disk, start, end', block);
        InkedJoin(was, d', disk, tid);
        if |data| >= |list| {
          LaidExtend(d', disk, g, tid, start, body, Commit, block);
          OneMore(body, Commit);
          SealedData(disk, g, tid, start, body, commit, list, data);
        } else {
          BrokenKept(was, d', disk, g, tid, start, body, end', block);
        }
      } else if |data| >= |list| {
        SealedData(disk, g, tid, start, body, commit, list, data);
      }
      CloseTrans();
    }

    // ----- journal_find_head -----

    /**
     * Walks the log from the superblock's start: it ends with the id that
     * comes after the last commit block and the block behind that one, and
     * takes nothing for a header that is not one.
     */
    method FindHead(ghost items: seq<Item>) returns (err: Error)
      requires Valid()
      requires sbStart != 0 ==> Logged(disk, g, sbStart, sbSequence, items)
      requires sbStart != 0 ==> Ends(disk, g.Wrap(sbStart + Total(items)), Seq(sbSequence, items))
      modifies `head, `sequence
      ensures err == Ok
      ensures sbStart == 0 ==> head == old(head) && sequence == old(sequence)
      ensures sbStart != 0 ==>
        sequence == Seq(sbSequence, items) && head == g.Wrap(sbStart + Committed(items))
    {
      hide Logged, Total, Seq, Committed, ReadTags;
      err := Ok;
      var id, next, headBlock := sbSequence, sbStart, sbStart;
      if next == 0 { return; }
      ghost var j := 0;
      LogBegins(g, sbStart, sbSequence, items);
      while true
        invariant 0 <= j <= |items| && next == g.Wrap(sbStart + Total(items[..j]))
        invariant id == Seq(sbSequence, items[..j]) && headBlock == g.Wrap(sbStart + Committed(items[..j]))
        decreases |items| - j
      {
        LogStep(disk, g, sbStart, sbSequence, items, j);
        var b := Read(disk, next);
        next := next + 1;
        if next >= g.last { next := next - (g.last - g.first); }
        if b.magic != MAGIC { break; }
        if b.sequence != id { break; }
        if b.blocktype == DESCRIPTOR {
          var n := CountTags(g, b.tags);
          next := next + n;
          if next >= g.last { next := next - (g.last - g.first); }
        } else if b.blocktype == COMMIT {
          headBlock, id := next, (id + 1) % U32;
        } else if b.blocktype != REVOKE {
          err := BadType;
          break;
        }
        j := j + 1;
      }
      if err == Ok { sequence, head := id, headBlock; }
    }

    // ----- whole runs: transactions, failed attempts and reopening -----

    /** The journal's fields agree with a log of whole transactions. */
    ghost predicate InStep(log: seq<Item>)
      reads this
    {
      && Valid() && (tail == 0 ==> log == [])
      && (tail != 0 ==> OnDisk(log) && head == g.Wrap(tail + Total(log)) && sequence == Seq(tailSequence, log))
    }

    /** The disk holds a log of whole transactions; the head may be anywhere, as it is after a commit. */
    ghost predicate OnDisk(log: seq<Item>)
      reads this
    {
      Valid() && tail != 0 && Logged(disk, g, tail, tailSequence, log) && Committed(log) == Total(log)
    }

    /** And no block on disk carries a later id. */
    ghost predicate Synced(log: seq<Item>)
      reads this
    {
      InStep(log) && Past(disk, g, NextTid())
    }

    /** The blocks it will need stay below the end of the ring and do not reach the log's own start. */
    ghost predicate HasRoom(log: seq<Item>, n: nat, m: nat, commit: bool)
      requires g.Ok()
      reads this
    {
      var needed := Needed(g, n, m, commit);
      NextStart() + needed <= g.last && Total(log) + needed <= g.last - g.first
    }

    /**
     * The commit block lies beyond a gap: if what was in the gap before ended
     * a scan, a scan still ends there and the head stays where it was.
     */
    ghost predicate Lost(was: Disk, log: seq<Item>, body: seq<Item>)
      reads this
    {
      && Valid() && tail != 0 && Logged(disk, g, tail, tailSequence, log + body)
      && Committed(log + body) == Committed(log) && Seq(tailSequence, log + body) == tid
      && (Ends(was, g.Wrap(tail + Total(log + body)), tid) ==> Ends(disk, g.Wrap(tail + Total(log + body)), tid))
    }

    /**
     * Every way a write can end leaves the log of earlier transactions as it
     * was, or longer by this one; which way it ends is decided by the input.
     */
    method Transact(list: seq<nat>, data: seq<JBlock>, errno: nat, revokes: seq<nat>, commit: bool, ghost log: seq<Item>)
      returns (err: Error, ghost body: seq<Item>)
      requires InStep(log) && HasRoom(log, |list|, |revokes|, commit)
      modifies this
      ensures tid == old(NextTid()) && start == old(NextStart()) && committed == (err == Ok && commit)
      ensures err == Ok <==> start + GuessBlocks(g, |list|, |revokes|) <= g.last && Accepts(list, data, errno, revokes)
      ensures !committed ==> InStep(log) && NextTid() == tid
      ensures committed && |data| >= |list| ==>
        && Plain(body) && Names(g, TagsOf(body), list) && DataOf(body) == data[..|list|]
        && RevokesOf(body) == Stored(g, revokes)
        && (fsBlocks <= (if g.entryBytes == 8 then U64 else U32) ==> RevokesOf(body) == revokes)
        && OnDisk(log + (body + [Commit])) && Seq(tailSequence, log + (body + [Commit])) == (tid + 1) % U32
        && block == start + Needed(g, |list|, |revokes|, true)
        && g.Wrap(tail + Total(log + (body + [Commit]))) == g.Wrap(block)
      ensures committed && |data| < |list| ==> Lost(old(disk), log, body)
      ensures Inked(old(disk), disk, tid)
    {
      hide Laid, Logged, Broken, Total, Committed, Names, TagsOf, DataOf, RevokesOf, Stored, Seq, Inked, Untouched, Plain,
        Needed, Accepts, GuessBlocks;
      ghost var was, empty := disk, tail == 0;
      err, body := Write(list, data, errno, revokes, commit);
      if committed {
        if empty { NothingLogged(was, g, tail, tailSequence); }
        if |data| >= |list| {
          CommitLogged(was, disk, g, tail, tailSequence, start, log, body, block);
          LoggedTotal(disk, g, tail, tailSequence, log + (body + [Commit]));
          Joined(log, body + [Commit], tailSequence);
        } else {
          BrokenLogged(was, disk, g, tail, tailSequence, start, log, body, block);
        }
      } else if !empty {
        LoggedKept(was, disk, g, tail, tailSequence, start, log, block);
      }
    }

    /** Opening the journal again finds the head behind the last commit, if the block there does not continue the log. */
    method Reopen(ghost log: seq<Item>) returns (err: Error)
      requires OnDisk(log) && Ends(disk, g.Wrap(tail + Total(log)), Seq(tailSequence, log))
      modifies `head, `sequence
      ensures err == Ok && InStep(log)
    {
      hide Laid, Logged, Total, Committed, Seq;
      LoggedTotal(disk, g, tail, tailSequence, log);
      SeqBound(log, tailSequence);
      err := FindHead(log);
    }

    /**
     * A scan after a reported success. If the block behind the transaction's
     * place does not carry the next id, and (should the data file be too
     * short) no block carries this one, then the scan finds the commit exactly
     * when the data file was long enough.
     */
    method WriteThenScan(list: seq<nat>, data: seq<JBlock>, errno: nat, revokes: seq<nat>, ghost log: seq<Item>)
      returns (err: Error)
      requires InStep(log) && HasRoom(log, |list|, |revokes|, true)
      requires Ends(disk, g.Wrap(NextStart() + Needed(g, |list|, |revokes|, true)), (NextTid() + 1) % U32)
      requires |data| < |list| ==> NoneOf(disk, g, NextTid())
      modifies this
      ensures tid == old(NextTid()) && start == old(NextStart())
      ensures err == Ok <==> start + GuessBlocks(g, |list|, |revokes|) <= g.last && Accepts(list, data, errno, revokes)
      ensures err == Ok ==> committed && (sequence == (tid + 1) % U32 <==> |data| >= |list|)
      ensures err == Ok && |data| >= |list| ==> head == g.Wrap(block) && block == start + Needed(g, |list|, |revokes|, true)
      ensures err == Ok && |data| < |list| ==> sequence == tid && head == g.Wrap(tail + Committed(log))
    {
      hide Laid, Logged, Total, Committed, Names, TagsOf, DataOf, RevokesOf, Stored, Seq, Plain, Needed, Accepts, Inked, GuessBlocks;
      ghost var was := disk;
      ghost var body;
      err, body := Transact(list, data, errno, revokes, true, log);
      if err != Ok { return; }
      ghost var items := if |data| >= |list| then log + (body + [Commit]) else log + body;
      LoggedTotal(disk, g, tail, tailSequence, items);
      if |data| >= |list| {
        InkedEnds(was, disk, g.Wrap(block), tid);
      } else {
        NoneEnds(was, g, g.Wrap(tail + Total(items)), tid);
      }
      err := FindHead(items);
    }

    /**
     * What the log dumper reports after a transaction has been written behind
     * a log: the earlier tags and revokes, then the block numbers of this
     * list, log blocks from which its data is got back, and its revokes.
     */
    method WriteThenDump(list: seq<nat>, data: seq<JBlock>, errno: nat, revokes: seq<nat>, ghost log: seq<Item>)
      returns (err: Error, tags: seq<Tag>, at: seq<nat>, seen: seq<nat>)
      requires InStep(log) && HasRoom(log, |list|, |revokes|, true) && |data| >= |list|
      requires Ends(disk, g.Wrap(NextStart() + Needed(g, |list|, |revokes|, true)), (NextTid() + 1) % U32)
      modifies this
      ensures err == Ok <==> start + GuessBlocks(g, |list|, |revokes|) <= g.last && Accepts(list, data, errno, revokes)
      ensures err == Ok ==>
        |tags| == |at| == |TagsOf(log)| + |list| && TagsOf(log) <= tags
      ensures err == Ok ==> forall i | 0 <= i < |list| ::
        var t, b := tags[|TagsOf(log)| + i], Read(disk, at[|TagsOf(log)| + i]);
        && t.blocknr == list[i] % U32 && (g.entryBytes == 8 ==> t.high == list[i] / U32 % U32)
        && b.magic != MAGIC && data[i] == if t.escape then b.(magic := MAGIC) else b
      ensures err == Ok ==> |seen| == |RevokesOf(log)| + |revokes| && RevokesOf(log) <= seen
      ensures err == Ok ==> forall i | 0 <= i < |revokes| ::
        seen[|RevokesOf(log)| + i] == revokes[i] % if g.entryBytes == 8 then U64 else U32
      ensures err == Ok && fsBlocks <= (if g.entryBytes == 8 then U64 else U32) ==> seen == RevokesOf(log) + revokes
    {
      hide Laid, Logged, Total, Committed, Names, TagsOf, DataOf, RevokesOf, Stored, Seq, Plain, Needed, Accepts, Inked, GuessBlocks, Read, Restorable;
      tags, at, seen := [], [], [];
      ghost var was := disk;
      ghost var body;
      err, body := Transact(list, data, errno, revokes, true, log);
      if err != Ok { return; }
      ghost var sealed := body + [Commit];
      ghost var items := log + sealed;
      LoggedTotal(disk, g, tail, tailSequence, items);
      InkedEnds(was, disk, g.Wrap(block), tid);
      tags, at, seen := DumpJournal(disk, g, sbStart, sbSequence, items);
      Behind(log, body);
      DumpedParts(disk, g, TagsOf(log), TagsOf(body), DataOf(log), list, data, at);
      StoredAt(g, revokes);
    }

    /** One step of a run in which no block on disk carries a later id: write, and open again after a commit. */
    method Session(list: seq<nat>, data: seq<JBlock>, errno: nat, revokes: seq<nat>, commit: bool, ghost log: seq<Item>)
      returns (err: Error, ghost body: seq<Item>)
      requires Synced(log) && NextTid() + 1 < U32 && HasRoom(log, |list|, |revokes|, commit) && |data| >= |list|
      modifies this
      ensures err == Ok <==> start + GuessBlocks(g, |list|, |revokes|) <= g.last && Accepts(list, data, errno, revokes)
      ensures Synced(if err == Ok && commit then log + (body + [Commit]) else log)
      ensures err == Ok && commit ==>
        && Plain(body) && Names(g, TagsOf(body), list) && DataOf(body) == data[..|list|] && RevokesOf(body) == Stored(g, revokes)
        && (fsBlocks <= (if g.entryBytes == 8 then U64 else U32) ==> RevokesOf(body) == revokes)
    {
      hide Laid, Logged, Total, Committed, Names, TagsOf, DataOf, RevokesOf, Stored, Seq, Plain, Needed, Accepts, Inked, Past, GuessBlocks;
      ghost var was := disk;
      err, body := Transact(list, data, errno, revokes, commit, log);
      InkedPast(was, disk, g, tid);
      if committed {
        ghost var all := log + (body + [Commit]);
        LoggedTotal(disk, g, tail, tailSequence, all);
        PastEnds(disk, g, g.Wrap(tail + Total(all)), tid + 1);
        err := Reopen(all);
      }
    }
  }

  /** No block of the log carries this id. */
  ghost predicate NoneOf(d: Disk, g: Geometry, tid: nat) {
    forall b: nat | b >= g.first :: Read(d, b).magic == MAGIC ==> Read(d, b).sequence != tid
  }

  lemma NoneEnds(d: Disk, g: Geometry, b: nat, tid: nat)
    requires NoneOf(d, g, tid) && b >= g.first
    ensures Ends(d, b, tid)
  {
    hide Read;
  }

  /** What this transaction has written does not continue the log after it. */
  lemma InkedEnds(was: Disk, d: Disk, b: nat, tid: nat)
    requires Inked(was, d, tid) && Ends(was, b, (tid + 1) % U32) && tid < U32
    ensures Ends(d, b, (tid + 1) % U32)
  {
    hide Read;
  }

  lemma InkedPast(was: Disk, d: Disk, g: Geometry, tid: nat)
    requires Inked(was, d, tid) && Past(was, g, tid)
    ensures Past(d, g, tid)
  {
    hide Read;
  }

  lemma PastEnds(d: Disk, g: Geometry, b: nat, tid: nat)
    requires tid > 0 && Past(d, g, tid - 1) && b >= g.first
    ensures Ends(d, b, tid) && Past(d, g, tid)
  {
    hide Read;
  }

  lemma {:induction false} SeqBound(items: seq<Item>, tid: nat)
    requires tid < U32
    ensures Seq(tid, items) < U32
  {
    if items != [] { SeqBound(items[..|items| - 1], tid); }
  }

  lemma LoggedTotal(d: Disk, g: Geometry, start: nat, tid: nat, log: seq<Item>)
    requires g.Ok() && g.first <= start < g.last && Logged(d, g, start, tid, log)
    ensures Total(log) <= g.last - g.first
  {
  }

  lemma NothingLogged(d: Disk, g: Geometry, start: nat, tid: nat)
    requires g.Ok() && g.first <= start < g.last
    ensures Logged(d, g, start, tid, []) && Total([]) == 0 && Seq(tid, []) == tid && g.Wrap(start + Total([])) == start
  {
  }

  lemma CommitEnds(log: seq<Item>, body: seq<Item>, tid0: nat, tid: nat)
    requires Plain(body) && Seq(tid0, log) == tid
    ensures var all := log + (body + [Commit]);
      Committed(all) == Total(all) && Seq(tid0, all) == (tid + 1) % U32
  {
    hide Total, Committed, Seq;
    PlainSeq(body, tid);
    Joined(log, body, tid0);
    assert log + (body + [Commit]) == (log + body) + [Commit];
    OneMore(log + body, Commit);
  }

  lemma CommitLogged(was: Disk, d: Disk, g: Geometry, start: nat, tid: nat, pos: nat, log: seq<Item>, body: seq<Item>, hi: nat)
    requires g.Ok() && g.first <= start < g.last && Logged(was, g, start, tid, log)
    requires pos == g.Wrap(start + Total(log)) && hi == pos + Total(body + [Commit]) <= g.last
    requires Total(log) + (hi - pos) <= g.last - g.first && Plain(body)
    requires Untouched(was, d, pos, hi) && Laid(d, g, Seq(tid, log), pos, body + [Commit])
    ensures var all := log + (body + [Commit]);
      Logged(d, g, start, tid, all) && Committed(all) == Total(all) && Seq(tid, all) == (Seq(tid, log) + 1) % U32
  {
    hide Laid, Logged, Total, Committed, Seq, Untouched, Plain;
    LoggedGrows(was, d, g, start, tid, pos, log, body + [Commit], hi);
    CommitEnds(log, body, tid, Seq(tid, log));
  }

  lemma {:induction false} CommittedJoin(a: seq<Item>, b: seq<Item>)
    requires Plain(b)
    ensures Committed(a + b) == Committed(a)
    decreases |b|
  {
    if b == [] {
      assert a + b == a;
    } else {
      assert a + b == a + b[..|b| - 1] + [b[|b| - 1]];
      OneMore(a + b[..|b| - 1], b[|b| - 1]);
      CommittedJoin(a, b[..|b| - 1]);
    }
  }

  lemma BrokenLogged(was: Disk, d: Disk, g: Geometry, start: nat, tid: nat, pos: nat, log: seq<Item>, body: seq<Item>, hi: nat)
    requires g.Ok() && g.first <= start < g.last && Logged(was, g, start, tid, log)
    requires pos == g.Wrap(start + Total(log)) && pos <= hi <= g.last && Total(log) + (hi - pos) <= g.last - g.first
    requires Broken(was, d, g, Seq(tid, log), pos, body, hi) && Untouched(was, d, pos, hi)
    ensures Logged(d, g, start, tid, log + body)
    ensures Committed(log + body) == Committed(log) && Seq(tid, log + body) == Seq(tid, log)
    ensures var b := g.Wrap(start + Total(log + body)); b >= 0 && Read(d, b) == Read(was, b)
  {
    hide Laid, Logged, Total, Seq, Read, Committed;
    Joined(log, body, tid);
    CommittedJoin(log, body);
    PlainSeq(body, Seq(tid, log));
    LoggedGrows(was, d, g, start, tid, pos, log, body, hi);
  }

  /** Blocks written behind the log's end, up to the end of the ring, leave the log alone. */
  lemma LoggedKept(was: Disk, d: Disk, g: Geometry, start: nat, tid: nat, pos: nat, log: seq<Item>, hi: nat)
    requires g.Ok() && g.first <= start < g.last && Logged(was, g, start, tid, log)
    requires pos == g.Wrap(start + Total(log)) && pos <= hi <= g.last && Total(log) + (hi - pos) <= g.last - g.first
    requires Untouched(was, d, pos, hi)
    ensures Logged(d, g, start, tid, log)
  {
    hide Laid, Total, Read;
    var v, v' := Unrolled(was, g, start), Unrolled(d, g, start);
    forall k | 0 <= k < Total(log) ensures At(v', 0, k) == At(v, 0, k) {
      UnrolledAt(was, g, start, k);
      UnrolledAt(d, g, start, k);
    }
    LaidShift(v, v', g, tid, 0, 0, log);
  }

  // ----- the log dumper -----

  /**
   * dump_journal with its two block readers: every tag with the log block of
   * its data, and every revoke entry, in the order they were written.
   */
  method DumpJournal(d: Disk, g: Geometry, sbStart: nat, sbSequence: nat, ghost items: seq<Item>)
    returns (tags: seq<Tag>, at: seq<nat>, revokes: seq<nat>)
    requires g.Ok() && (sbStart == 0 || g.first <= sbStart < g.last)
    requires sbStart == 0 ==> items == []
    requires sbStart != 0 ==> Logged(d, g, sbStart, sbSequence, items)
    requires sbStart != 0 ==> Ends(d, g.Wrap(sbStart + Total(items)), Seq(sbSequence, items))
    ensures tags == TagsOf(items) && revokes == RevokesOf(items)
    ensures |at| == |tags| == |DataOf(items)| && Restorable(d, at, tags, DataOf(items))
    ensures forall i | 0 <= i < |at| :: Read(d, at[i]).magic != MAGIC
    ensures forall i | 0 <= i < |at| ::
      DataOf(items)[i] == if tags[i].escape then Read(d, at[i]).(magic := MAGIC) else Read(d, at[i])
  {
    hide Logged, Total, Seq, Committed, ReadTags, ReadRevokes, TagsOf, DataOf, RevokesOf, Restorable, Steps, Read;
    tags, at, revokes := [], [], [];
    NothingLaid(d, g, sbSequence, sbStart);
    NoData(d, 0, 0);
    RestoredData(d, [], [], []);
    var block, transaction := sbStart, sbSequence;
    if block == 0 { return; }
    ghost var j := 0;
    LogBegins(g, sbStart, sbSequence, items);
    while true
      invariant 0 <= j <= |items| && block == g.Wrap(sbStart + Total(items[..j]))
      invariant transaction == Seq(sbSequence, items[..j])
      invariant tags == TagsOf(items[..j]) && revokes == RevokesOf(items[..j])
      invariant Restorable(d, at, tags, DataOf(items[..j]))
      decreases |items| - j
    {
      LogStep(d, g, sbStart, sbSequence, items, j);
      var b := Read(d, block);
      if b.magic != MAGIC { break; }
      if b.sequence != transaction { break; }
      PrefixStep(items, j);
      OneMore(items[..j], items[j]);
      assert !items[j].Group? ==> DataOf(items[..j + 1]) == DataOf(items[..j]);
      if b.blocktype == DESCRIPTOR {
        var seen, where, next := DumpDescriptor(g, b.tags, block);
        DumpedGroup(d, g, sbStart, sbSequence, items, j, block, where);
        RestorableMore(d, at, tags, DataOf(items[..j]), where, seen, items[j].data);
        tags, at, block := tags + seen, at + where, next;
      } else if b.blocktype == COMMIT {
        transaction := (transaction + 1) % U32;
        block := block + 1;
        if block >= g.last { block := block - (g.last - g.first); }
      } else if b.blocktype == REVOKE {
        var list := DumpRevoke(g, b);
        revokes := revokes + list;
        block := block + 1;
        if block >= g.last { block := block - (g.last - g.first); }
      } else {
        break;
      }
      j := j + 1;
    }
    RestoredData(d, at, tags, DataOf(items));
  }

  /** What a replay makes of the log blocks and their tags. */
  lemma RestoredData(d: Disk, at: seq<nat>, tags: seq<Tag>, data: seq<JBlock>)
    requires Restorable(d, at, tags, data)
    ensures |at| == |tags| == |data|
    ensures forall i | 0 <= i < |at| :: Read(d, at[i]).magic != MAGIC
    ensures forall i | 0 <= i < |at| :: data[i] == if tags[i].escape then Read(d, at[i]).(magic := MAGIC) else Read(d, at[i])
  {
    hide Read;
    assert forall i | 0 <= i < |at| :: Stores(Read(d, at[i]), tags[i], data[i]);
  }

  /** The tag names the block, and its data is got back from what the log holds. */
  ghost predicate GivesBack(g: Geometry, t: Tag, stored: JBlock, blocknr: nat, b: JBlock) {
    && t.blocknr == blocknr % U32 && (g.entryBytes == 8 ==> t.high == blocknr / U32 % U32)
    && stored.magic != MAGIC && b == if t.escape then stored.(magic := MAGIC) else stored
  }

  /** Of what was reported, the part that comes from the last transaction. */
  lemma DumpedParts(d: Disk, g: Geometry, tags0: seq<Tag>, tags1: seq<Tag>, data0: seq<JBlock>, list: seq<nat>, data: seq<JBlock>, at: seq<nat>)
    requires Names(g, tags1, list) && |list| <= |data| && Restorable(d, at, tags0 + tags1, data0 + data[..|list|])
    ensures |tags1| == |list| && |at| == |tags0| + |list|
    ensures forall i | 0 <= i < |list| :: GivesBack(g, (tags0 + tags1)[|tags0| + i], Read(d, at[|tags0| + i]), list[i], data[i])
  {
    hide Read, Restorable, Names, GivesBack;
    RestorableCounts(d, at, tags0 + tags1, data0 + data[..|list|]);
    NamesCount(g, tags1, list);
    forall i | 0 <= i < |list|
      ensures GivesBack(g, (tags0 + tags1)[|tags0| + i], Read(d, at[|tags0| + i]), list[i], data[i])
    {
      DumpedPart(d, g, tags0, tags1, data0, list, data, at, i);
    }
  }

  lemma DumpedPart(d: Disk, g: Geometry, tags0: seq<Tag>, tags1: seq<Tag>, data0: seq<JBlock>, list: seq<nat>, data: seq<JBlock>, at: seq<nat>, i: nat)
    requires i < |list| == |tags1| && Names(g, tags1, list) && |list| <= |data| && |at| == |tags0| + |list|
    requires Restorable(d, at, tags0 + tags1, data0 + data[..|list|])
    ensures GivesBack(g, (tags0 + tags1)[|tags0| + i], Read(d, at[|tags0| + i]), list[i], data[i])
  {
    hide Read;
    var n := |tags0|;
    assert NamesBlock(g, tags1[i], list[i]) && (tags0 + tags1)[n + i] == tags1[i];
    assert Stores(Read(d, at[n + i]), (tags0 + tags1)[n + i], (data0 + data[..|list|])[n + i]);
  }

  lemma RestorableCounts(d: Disk, at: seq<nat>, tags: seq<Tag>, data: seq<JBlock>)
    requires Restorable(d, at, tags, data)
    ensures |at| == |tags| == |data|
  {
  }

  lemma NamesCount(g: Geometry, tags: seq<Tag>, list: seq<nat>)
    requires Names(g, tags, list)
    ensures |tags| == |list|
  {
  }

  lemma Behind(log: seq<Item>, body: seq<Item>)
    ensures var items := log + (body + [Commit]);
      && TagsOf(items) == TagsOf(log) + TagsOf(body)
      && DataOf(items) == DataOf(log) + DataOf(body)
      && RevokesOf(items) == RevokesOf(log) + RevokesOf(body)
  {
    hide TagsOf, DataOf, RevokesOf, Total, Seq, Committed;
    OneMore(body, Commit);
    Joined(log, body + [Commit], 0);
    assert TagsOf(body) + [] == TagsOf(body) && DataOf(body) + [] == DataOf(body) && RevokesOf(body) + [] == RevokesOf(body);
  }

  lemma StoredAt(g: Geometry, list: seq<nat>)
    ensures forall i | 0 <= i < |list| :: Stored(g, list)[i] == list[i] % if g.entryBytes == 8 then U64 else U32
  {
  }

  lemma SealedData(d: Disk, g: Geometry, tid: nat, start: nat, body: seq<Item>, commit: bool, list: seq<nat>, data: seq<JBlock>)
    requires g.Ok() && Laid(d, g, tid, start, Sealed(body, commit)) && |list| <= |data| && DataOf(body) == data[..|list|]
    ensures var at, tags := DataAt(start, Sealed(body, commit)), TagsOf(body);
      && |at| == |tags| == |list| && Rising(at, start, start + Total(Sealed(body, commit)))
      && (forall i | 0 <= i < |list| :: Read(d, at[i]).magic != MAGIC)
      && (forall i | 0 <= i < |list| :: data[i] == if tags[i].escape then Read(d, at[i]).(magic := MAGIC) else Read(d, at[i]))
  {
    hide Laid, Restorable, Rising, Read, Total, TagsOf, DataOf, DataAt;
    var items := Sealed(body, commit);
    LaidData(d, g, tid, start, items);
    OneMore(body, Commit);
    assert TagsOf(body) + [] == TagsOf(body) && DataOf(body) + [] == DataOf(body);
    RestoredData(d, DataAt(start, items), TagsOf(body), data[..|list|]);
  }

  lemma DumpedGroup(d: Disk, g: Geometry, start: nat, tid: nat, items: seq<Item>, j: nat, block: nat, where: seq<nat>)
    requires g.Ok() && g.first <= start < g.last && Logged(d, g, start, tid, items)
    requires j < |items| && items[j].Group? && block == g.Wrap(start + Total(items[..j])) && g.first <= block < g.last
    requires |where| == |items[j].data| && forall i | 0 <= i < |where| :: where[i] == Steps(g, block, 1 + i)
    ensures Restorable(d, where, items[j].tags, items[j].data)
    ensures Steps(g, block, 1 + |where|) == g.Wrap(start + Total(items[..j + 1]))
  {
    hide Total, Seq, ReadTags, Read, Steps, Unrolled, Stores;
    var o, v, data := Total(items[..j]), Unrolled(d, g, start), items[j].data;
    TotalMono(items, j);
    assert LaidAt(v, g, tid, 0, items, j);
    forall i | 0 <= i < |where| ensures Stores(Read(d, where[i]), items[j].tags[i], data[i]) {
      WrapOnce(g, block, 1 + i);
      UnrolledAt(d, g, start, o + 1 + i);
      assert Stores(At(v, o, 1 + i), items[j].tags[i], data[i]);
    }
    WrapOnce(g, block, 1 + |where|);
  }

  /** A transaction's items with its commit block, if it has one. */
  function Sealed(body: seq<Item>, commit: bool): seq<Item> { if commit then body + [Commit] else body }

  lemma BrokenKept(was: Disk, d: Disk, d': Disk, g: Geometry, tid: nat, from: nat, items: seq<Item>, mid: nat, hi: nat)
    requires g.Ok() && Broken(was, d, g, tid, from, items, mid) && Untouched(d, d', mid, hi) && mid <= hi
    ensures Broken(was, d', g, tid, from, items, hi)
  {
    hide Laid, Total;
    LaidShift(d, d', g, tid, from, from, items);
  }

  lemma UntouchedJoin(was: Disk, d: Disk, d': Disk, lo: nat, mid: nat, hi: nat)
    requires Untouched(was, d, lo, mid) && Untouched(d, d', mid, hi) && lo <= mid <= hi
    ensures Untouched(was, d', lo, hi)
  {
    hide Read;
  }

  lemma InkedJoin(was: Disk, d: Disk, d': Disk, tid: nat)
    requires Inked(was, d, tid) && Inked(d, d', tid)
    ensures Inked(was, d', tid)
  {
    hide Read;
  }

  lemma BodyJoin(d: Disk, d': Disk, g: Geometry, tid: nat, from: nat, a: seq<Item>, b: seq<Item>, hi: nat)
    requires g.Ok() && Laid(d, g, tid, from, a) && Plain(a) && Plain(b)
    requires Laid(d', g, tid, from + Total(a), b) && Untouched(d, d', from + Total(a), hi)
    ensures Laid(d', g, tid, from, a + b) && Plain(a + b) && Total(a + b) == Total(a) + Total(b)
    ensures TagsOf(b) == [] && DataOf(b) == [] && RevokesOf(a) == [] ==>
      TagsOf(a + b) == TagsOf(a) && DataOf(a + b) == DataOf(a) && RevokesOf(a + b) == RevokesOf(b)
  {
    hide Laid, Total, Seq, TagsOf, DataOf, RevokesOf;
    PlainSeq(a, tid);
    Joined(a, b, tid);
    LaidShift(d, d', g, tid, from, from, a);
    LaidJoin(d', g, tid, from, a, b);
  }

  lemma LogBegins(g: Geometry, start: nat, tid: nat, items: seq<Item>)
    requires g.Ok() && g.first <= start < g.last
    ensures items[..0] == [] && Total([]) == 0 && Committed([]) == 0 && Seq(tid, []) == tid && g.Wrap(start) == start
  {
  }

  /** What a reader finds at the place of the j-th item, and how the log goes on from there. */
  lemma LogStep(d: Disk, g: Geometry, start: nat, tid: nat, items: seq<Item>, j: nat)
    requires g.Ok() && g.first <= start < g.last && Logged(d, g, start, tid, items) && j <= |items|
    ensures j == |items| ==> items[..j] == items
    ensures j < |items| ==>
      var i, o := items[j], Total(items[..j]);
      var b := Read(d, g.Wrap(start + o));
      && o + Len(i) <= g.last - g.first
      && b.magic == MAGIC && b.sequence == Seq(tid, items[..j])
      && b.blocktype == (match i case Group(_, _) => DESCRIPTOR case Revoked(_) => REVOKE case Commit => COMMIT)
      && (i.Group? ==> ReadTags(g, b.tags, HEADER_SIZE) == i.tags && |i.tags| == |i.data|)
      && (i.Revoked? ==> ReadRevokes(g, b.entries, REVOKE_HEADER_SIZE, b.rcount) == i.list)
      && Total(items[..j + 1]) == o + Len(i)
      && Seq(tid, items[..j + 1]) == (if i.Commit? then (Seq(tid, items[..j]) + 1) % U32 else Seq(tid, items[..j]))
      && Committed(items[..j + 1]) == (if i.Commit? then o + 1 else Committed(items[..j]))
  {
    hide Total, Seq, Committed, ReadTags, ReadRevokes, Unrolled, Read;
    if j < |items| {
      var o := Total(items[..j]);
      var v := Unrolled(d, g, start);
      TotalMono(items, j);
      PrefixStep(items, j);
      OneMore(items[..j], items[j]);
      UnrolledAt(d, g, start, o);
      assert LaidAt(v, g, tid, 0, items, j);
      assert At(v, o, 0) == Read(d, g.Wrap(start + o));
    }
  }

  /** The first `i` blocks of the list are in the revoke blocks written and the one in preparation. */
  ghost predicate Revokes(g: Geometry, items: seq<Item>, rs: seq<nat>, list: seq<nat>, i: nat)
    requires i <= |list|
  {
    RevokesOf(items) + rs == Stored(g, list[..i]) && TagsOf(items) == [] && DataOf(items) == []
  }

  lemma NothingFilled(g: Geometry, entries: map<nat, nat>, list: seq<nat>)
    ensures Filled(g, entries, []) && EntryOff(g, 0) == REVOKE_HEADER_SIZE && Revokes(g, [], [], list, 0)
  {
  }

  lemma NextEntry(g: Geometry, n: nat)
    ensures EntryOff(g, n) + g.entryBytes == EntryOff(g, n + 1)
  {
  }

  lemma RevokesEntry(g: Geometry, items: seq<Item>, rs: seq<nat>, list: seq<nat>, i: nat)
    requires i < |list| && Revokes(g, items, rs, list, i)
    ensures Revokes(g, items, rs + [Entry(g, list[i])], list, i + 1)
  {
    hide TagsOf, DataOf, RevokesOf, Entry;
    assert RevokesOf(items) + (rs + [Entry(g, list[i])]) == RevokesOf(items) + rs + [Entry(g, list[i])];
    assert Stored(g, list[..i + 1]) == Stored(g, list[..i]) + [Entry(g, list[i])];
  }

  lemma RevokesBlock(g: Geometry, items: seq<Item>, rs: seq<nat>, list: seq<nat>, i: nat)
    requires i <= |list| && Revokes(g, items, rs, list, i)
    ensures Revokes(g, items + [Revoked(rs)], [], list, i)
  {
    hide TagsOf, DataOf, RevokesOf, Stored;
    OneMore(items, Revoked(rs));
    assert RevokesOf(items) + rs + [] == RevokesOf(items) + rs;
  }

  lemma RevokesAll(g: Geometry, items: seq<Item>, list: seq<nat>)
    requires Revokes(g, items, [], list, |list|)
    ensures RevokesOf(items) == Stored(g, list) && TagsOf(items) == [] && DataOf(items) == []
  {
    hide Stored;
    assert RevokesOf(items) + [] == RevokesOf(items) && list[..|list|] == list;
  }

  // ----- facts the writer needs one at a time -----

  lemma FirstOff(g: Geometry, n: nat)
    ensures (TagOff(g, n) == HEADER_SIZE) == (n == 0)
  {
  }

  lemma DraftTagged(d: Disk, g: Geometry, jdb: nat, tags: map<nat, Tag>, ts: seq<Tag>, ds: seq<JBlock>)
    requires Draft(d, g, jdb, tags, ts, ds)
    ensures Tagged(g, tags, ts) && |ts| == |ds|
  {
  }

  lemma NewDraft(d: Disk, g: Geometry, jdb: nat, tags: map<nat, Tag>)
    ensures Draft(d, g, jdb, tags, [], []) && TagOff(g, 0) == HEADER_SIZE
  {
  }

  lemma NothingLaid(d: Disk, g: Geometry, tid: nat, pos: nat)
    requires g.Ok()
    ensures Laid(d, g, tid, pos, []) && Total([]) == 0 && TagsOf([]) == [] && DataOf([]) == [] && RevokesOf([]) == []
    ensures Names(g, [], []) && Plain([])
  {
  }

  /** The first `i` blocks of the list are in the groups written and the descriptor in preparation. */
  ghost predicate Carries(g: Geometry, items: seq<Item>, ts: seq<Tag>, ds: seq<JBlock>, list: seq<nat>, data: seq<JBlock>, i: nat)
    requires i <= |list| && i <= |data|
  {
    Names(g, TagsOf(items) + ts, list[..i]) && DataOf(items) + ds == data[..i] && RevokesOf(items) == []
  }

  lemma CarriesNothing(g: Geometry, list: seq<nat>, data: seq<JBlock>)
    ensures Carries(g, [], [], [], list, data, 0)
  {
  }

  lemma CarriesTag(g: Geometry, items: seq<Item>, ts: seq<Tag>, ds: seq<JBlock>, list: seq<nat>, data: seq<JBlock>, i: nat, t: Tag)
    requires i < |list| && i < |data| && Carries(g, items, ts, ds, list, data, i) && NamesBlock(g, t, list[i])
    ensures Carries(g, items, ts + [t], ds + [data[i]], list, data, i + 1)
  {
    hide TagsOf, DataOf, RevokesOf;
    assert TagsOf(items) + (ts + [t]) == TagsOf(items) + ts + [t];
    assert DataOf(items) + (ds + [data[i]]) == DataOf(items) + ds + [data[i]];
    assert list[..i + 1] == list[..i] + [list[i]] && data[..i + 1] == data[..i] + [data[i]];
  }

  lemma CarriesGroup(g: Geometry, items: seq<Item>, ts: seq<Tag>, ds: seq<JBlock>, list: seq<nat>, data: seq<JBlock>, i: nat)
    requires i <= |list| && i <= |data| && Carries(g, items, ts, ds, list, data, i)
    ensures Carries(g, items + [Group(ts, ds)], [], [], list, data, i)
  {
    hide TagsOf, DataOf, RevokesOf, Names;
    OneMore(items, Group(ts, ds));
    assert TagsOf(items) + ts + [] == TagsOf(items) + ts && DataOf(items) + ds + [] == DataOf(items) + ds;
  }

  lemma CarriesAll(g: Geometry, items: seq<Item>, list: seq<nat>, data: seq<JBlock>)
    requires |list| <= |data| && Carries(g, items, [], [], list, data, |list|)
    ensures Names(g, TagsOf(items), list) && DataOf(items) == data[..|list|] && RevokesOf(items) == []
  {
    assert TagsOf(items) + [] == TagsOf(items) && DataOf(items) + [] == DataOf(items) && list[..|list|] == list;
  }

  lemma LaidWrite(d: Disk, g: Geometry, tid: nat, pos: nat, items: seq<Item>, at: nat, b: JBlock)
    requires g.Ok() && Laid(d, g, tid, pos, items) && at >= pos + Total(items)
    ensures Laid(d[at := b], g, tid, pos, items)
  {
    hide Laid;
    LaidShift(d, d[at := b], g, tid, pos, pos, items);
  }

  lemma SameDisk(d: Disk, from: nat)
    ensures Untouched(d, d, from, from) && forall tid :: Inked(d, d, tid)
  {
  }

  lemma InkedWrite(was: Disk, d: Disk, tid: nat, at: nat, b: JBlock)
    requires Inked(was, d, tid) && (b.magic == MAGIC ==> b.sequence == tid)
    ensures Inked(was, d[at := b], tid)
  {
  }

  lemma UntouchedAt(was: Disk, d: Disk, lo: nat, hi: nat, b: nat)
    requires Untouched(was, d, lo, hi) && b >= hi
    ensures Read(d, b) == Read(was, b)
  {
  }

  lemma UntouchedGrows(was: Disk, d: Disk, lo: nat, hi: nat, hi': nat)
    requires Untouched(was, d, lo, hi) && hi <= hi'
    ensures Untouched(was, d, lo, hi')
  {
  }

  lemma UntouchedWrite(was: Disk, d: Disk, lo: nat, hi: nat, b: JBlock)
    requires Untouched(was, d, lo, hi) && lo <= hi
    ensures Untouched(was, d[hi := b], lo, hi + 1)
  {
  }

  /** One block to write, no data and no error number: success is reported, and the scan finds nothing. */
  method ShortFileLost() returns (err: Error, log: Log)
    ensures err == Ok && log.committed && log.sequence == log.tid == 1
  {
    hide Past, Committed, Total;
    var g := Geometry(1024, 0, 8, 4, 1, 100);
    log := new Log(g, 10, map[], 1);
    assert TagsPerBlock(g) == 124 && EntriesPerBlock(g) == 252;
    assert Needed(g, 1, 0, true) == 3;
    NothingLaid(map[], g, 1, 1);
    err := log.WriteThenScan([3], [], 0, [], []);
  }
}
