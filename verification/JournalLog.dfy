/**
 * What the log holds: transactions as sequences of descriptor groups, revoke
 * blocks and commit blocks, laid out one after another.
 */
module JournalLog {
  import opened Words
  import opened JournalLayout

  // ----- items -----

  /** A descriptor block with its data blocks, a revoke block, or a commit block. */
  datatype Item = Group(tags: seq<Tag>, data: seq<JBlock>) | Revoked(list: seq<nat>) | Commit

  function Len(i: Item): nat { if i.Group? then 1 + |i.data| else 1 }

  function Total(items: seq<Item>): nat {
    if items == [] then 0 else Total(items[..|items| - 1]) + Len(items[|items| - 1])
  }

  /** The id of the transaction that follows these items, in 32 bits. */
  function Seq(tid: nat, items: seq<Item>): nat {
    if items == [] then tid
    else
      var s := Seq(tid, items[..|items| - 1]);
      if items[|items| - 1].Commit? then (s + 1) % U32 else s
  }

  /** Length of the log up to and including its last commit block. */
  function Committed(items: seq<Item>): nat
    ensures Committed(items) <= Total(items)
  {
    if items == [] then 0
    else if items[|items| - 1].Commit? then Total(items)
    else Committed(items[..|items| - 1])
  }

  function TagsOf(items: seq<Item>): seq<Tag> {
    if items == [] then []
    else TagsOf(items[..|items| - 1]) + if items[|items| - 1].Group? then items[|items| - 1].tags else []
  }

  function DataOf(items: seq<Item>): seq<JBlock> {
    if items == [] then []
    else DataOf(items[..|items| - 1]) + if items[|items| - 1].Group? then items[|items| - 1].data else []
  }

  function RevokesOf(items: seq<Item>): seq<nat> {
    if items == [] then []
    else RevokesOf(items[..|items| - 1]) + if items[|items| - 1].Revoked? then items[|items| - 1].list else []
  }

  lemma OneMore(items: seq<Item>, i: Item)
    ensures Total(items + [i]) == Total(items) + Len(i)
    ensures forall tid: nat :: Seq(tid, items + [i]) == if i.Commit? then (Seq(tid, items) + 1) % U32 else Seq(tid, items)
    ensures Committed(items + [i]) == if i.Commit? then Total(items) + 1 else Committed(items)
    ensures TagsOf(items + [i]) == TagsOf(items) + if i.Group? then i.tags else []
    ensures DataOf(items + [i]) == DataOf(items) + if i.Group? then i.data else []
    ensures RevokesOf(items + [i]) == RevokesOf(items) + if i.Revoked? then i.list else []
  {
    assert (items + [i])[..|items|] == items;
  }

  /** The prefix of length `j + 1` is the prefix of length `j` and one more item. */
  lemma PrefixStep(items: seq<Item>, j: nat)
    requires j < |items|
    ensures items[..j + 1] == items[..j] + [items[j]]
  {
  }

  lemma {:induction false} Joined(a: seq<Item>, b: seq<Item>, tid: nat)
    ensures Total(a + b) == Total(a) + Total(b)
    ensures Seq(tid, a + b) == Seq(Seq(tid, a), b)
    ensures TagsOf(a + b) == TagsOf(a) + TagsOf(b)
    ensures DataOf(a + b) == DataOf(a) + DataOf(b)
    ensures RevokesOf(a + b) == RevokesOf(a) + RevokesOf(b)
    decreases |b|
  {
    if b == [] {
      assert a + b == a;
    } else {
      var b', i := b[..|b| - 1], b[|b| - 1];
      assert b == b' + [i] && a + b == (a + b') + [i];
      Joined(a, b', tid);
      OneMore(a + b', i);
      OneMore(b', i);
    }
  }

  lemma {:induction false} TotalMono(items: seq<Item>, j: nat)
    requires j < |items|
    ensures Total(items[..j]) + Len(items[j]) <= Total(items)
    ensures Total(items[..j + 1]) == Total(items[..j]) + Len(items[j])
  {
    var init := items[..|items| - 1];
    assert items[..j + 1][..j] == items[..j];
    if j < |items| - 1 {
      TotalMono(init, j);
      assert init[..j] == items[..j];
    }
  }

  // ----- items on disk -----

  type Disk = map<nat, JBlock>

  function Read(d: Disk, b: nat): JBlock { if b in d then d[b] else JBlock(0, 0, 0, map[], 0, map[]) }

  /** The k-th block from `p` on. */
  function At(d: Disk, p: nat, k: nat): JBlock { Read(d, p + k) }

  /**
   * The log holds `b` under tag `t`: as it is, or with its first word cleared
   * and the escape flag set. A stored block never starts with the magic number.
   */
  predicate Stores(stored: JBlock, t: Tag, b: JBlock) {
    && stored.magic != MAGIC && (t.escape ==> stored.magic == 0)
    && b == if t.escape then stored.(magic := MAGIC) else stored
  }

  predicate Stamped(b: JBlock, blocktype: nat, tid: nat) {
    b.magic == MAGIC && b.blocktype == blocktype && b.sequence == tid
  }

  /** The blocks from `pos` on are those of the item, and read back as such. */
  ghost predicate ItemOn(d: Disk, g: Geometry, tid: nat, pos: nat, i: Item)
    requires g.Ok()
  {
    match i
    case Group(tags, data) =>
      && Stamped(At(d, pos, 0), DESCRIPTOR, tid) && ReadTags(g, At(d, pos, 0).tags, HEADER_SIZE) == tags
      && |tags| == |data|
      && (forall j | 0 <= j < |data| :: Stores(At(d, pos, 1 + j), tags[j], data[j]))
    case Revoked(list) =>
      && Stamped(At(d, pos, 0), REVOKE, tid)
      && ReadRevokes(g, At(d, pos, 0).entries, REVOKE_HEADER_SIZE, At(d, pos, 0).rcount) == list
    case Commit => Stamped(At(d, pos, 0), COMMIT, tid)
  }

  ghost predicate Laid(d: Disk, g: Geometry, tid: nat, pos: nat, items: seq<Item>)
    requires g.Ok()
  {
    forall j | 0 <= j < |items| :: LaidAt(d, g, tid, pos, items, j)
  }

  ghost predicate LaidAt(d: Disk, g: Geometry, tid: nat, pos: nat, items: seq<Item>, j: nat)
    requires g.Ok() && j < |items|
  {
    ItemOn(d, g, Seq(tid, items[..j]), pos + Total(items[..j]), items[j])
  }

  /** `n` blocks from `p` on are the same as those from `p'` on elsewhere. */
  ghost predicate Same(d: Disk, p: nat, d': Disk, p': nat, n: nat) {
    forall k | 0 <= k < n :: At(d', p', k) == At(d, p, k)
  }

  lemma ItemShift(d: Disk, d': Disk, g: Geometry, tid: nat, pos: nat, pos': nat, i: Item)
    requires g.Ok() && ItemOn(d, g, tid, pos, i) && Same(d, pos, d', pos', Len(i))
    ensures ItemOn(d', g, tid, pos', i)
  {
    hide ReadTags, ReadRevokes, At, Stores;
    assert At(d', pos', 0) == At(d, pos, 0);
    if i.Group? {
      forall j | 0 <= j < |i.data| ensures Stores(At(d', pos', 1 + j), i.tags[j], i.data[j]) {
        assert At(d', pos', 1 + j) == At(d, pos, 1 + j);
      }
    }
  }

  lemma SamePart(d: Disk, p: nat, d': Disk, p': nat, n: nat, o: nat, m: nat)
    requires Same(d, p, d', p', n) && o + m <= n
    ensures Same(d, p + o, d', p' + o, m)
  {
    var q, q' := p + o, p' + o;
    forall k | 0 <= k < m ensures At(d', q', k) == At(d, q, k) {
      assert At(d', p', o + k) == At(d, p, o + k);
      assert p + (o + k) == q + k && p' + (o + k) == q' + k;
    }
  }

  lemma LaidAtShift(d: Disk, d': Disk, g: Geometry, tid: nat, pos: nat, pos': nat, items: seq<Item>, j: nat)
    requires g.Ok() && j < |items| && LaidAt(d, g, tid, pos, items, j) && Same(d, pos, d', pos', Total(items))
    ensures LaidAt(d', g, tid, pos', items, j)
  {
    hide ItemOn, Same, Seq;
    TotalMono(items, j);
    var o := Total(items[..j]);
    SamePart(d, pos, d', pos', Total(items), o, Len(items[j]));
    ItemShift(d, d', g, Seq(tid, items[..j]), pos + o, pos' + o, items[j]);
  }

  /** The same log where the same blocks are. */
  lemma LaidShift(d: Disk, d': Disk, g: Geometry, tid: nat, pos: nat, pos': nat, items: seq<Item>)
    requires g.Ok() && Laid(d, g, tid, pos, items) && Same(d, pos, d', pos', Total(items))
    ensures Laid(d', g, tid, pos', items)
  {
    hide LaidAt, Same, Total;
    forall j | 0 <= j < |items| ensures LaidAt(d', g, tid, pos', items, j) {
      LaidAtShift(d, d', g, tid, pos, pos', items, j);
    }
  }

  lemma LaidAtJoin(d: Disk, g: Geometry, tid: nat, pos: nat, a: seq<Item>, b: seq<Item>, j: nat)
    requires g.Ok() && j < |a + b|
    requires if j < |a| then LaidAt(d, g, tid, pos, a, j)
             else LaidAt(d, g, Seq(tid, a), pos + Total(a), b, j - |a|)
    ensures LaidAt(d, g, tid, pos, a + b, j)
  {
    hide ItemOn, Seq, Total;
    if j < |a| {
      assert (a + b)[..j] == a[..j] && (a + b)[j] == a[j];
    } else {
      var k := j - |a|;
      assert (a + b)[..j] == a + b[..k] && (a + b)[j] == b[k];
      Joined(a, b[..k], tid);
    }
  }

  /** Two pieces of log that follow each other are one. */
  lemma LaidJoin(d: Disk, g: Geometry, tid: nat, pos: nat, a: seq<Item>, b: seq<Item>)
    requires g.Ok() && Laid(d, g, tid, pos, a) && Laid(d, g, Seq(tid, a), pos + Total(a), b)
    ensures Laid(d, g, tid, pos, a + b)
  {
    hide LaidAt, Seq, Total;
    forall j | 0 <= j < |a + b| ensures LaidAt(d, g, tid, pos, a + b, j) {
      LaidAtJoin(d, g, tid, pos, a, b, j);
    }
  }

  lemma LaidOne(d: Disk, g: Geometry, tid: nat, pos: nat, i: Item)
    requires g.Ok() && ItemOn(d, g, tid, pos, i)
    ensures Laid(d, g, tid, pos, [i])
  {
    hide ItemOn;
    forall j | 0 <= j < |[i]| ensures LaidAt(d, g, tid, pos, [i], j) {
      assert [i][..j] == [];
    }
  }

  /** Everything but the blocks of one range is as it was. */
  ghost predicate Untouched(was: Disk, d: Disk, lo: nat, hi: nat) {
    forall b: nat | !(lo <= b < hi) :: Read(d, b) == Read(was, b)
  }

  /** The log grows by an item behind its end. */
  lemma LaidExtend(d: Disk, d': Disk, g: Geometry, tid: nat, pos: nat, items: seq<Item>, i: Item, end: nat)
    requires g.Ok() && Laid(d, g, tid, pos, items) && Untouched(d, d', pos + Total(items), end)
    requires ItemOn(d', g, Seq(tid, items), pos + Total(items), i)
    ensures Laid(d', g, tid, pos, items + [i])
  {
    hide ItemOn, Laid, Seq, Total;
    LaidShift(d, d', g, tid, pos, pos, items);
    LaidOne(d', g, Seq(tid, items), pos + Total(items), i);
    LaidJoin(d', g, tid, pos, items, [i]);
  }

  // ----- the data blocks -----

  /** The log blocks listed hold these data blocks under these tags. */
  ghost predicate Restorable(d: Disk, at: seq<nat>, tags: seq<Tag>, data: seq<JBlock>) {
    |at| == |tags| == |data| && forall i | 0 <= i < |at| :: Stores(Read(d, at[i]), tags[i], data[i])
  }

  /** A number of blocks from `p` on. */
  ghost function Following(p: nat, n: nat): (r: seq<nat>)
    ensures |r| == n && forall i | 0 <= i < n :: r[i] == p + i
  {
    seq(n, i => p + i)
  }

  /** Where the data blocks of these items lie. */
  ghost function DataAt(pos: nat, items: seq<Item>): seq<nat> {
    if items == [] then []
    else
      var front, i := items[..|items| - 1], items[|items| - 1];
      DataAt(pos, front) + if i.Group? then Following(pos + Total(front) + 1, |i.data|) else []
  }

  /** They lie one behind the other between `lo` and `hi`. */
  ghost predicate Rising(at: seq<nat>, lo: nat, hi: nat) {
    && (forall i | 0 <= i < |at| :: lo <= at[i] < hi)
    && (forall i, j | 0 <= i < j < |at| :: at[i] < at[j])
  }

  lemma RestorableMore(d: Disk, at: seq<nat>, tags: seq<Tag>, data: seq<JBlock>, at': seq<nat>, tags': seq<Tag>, data': seq<JBlock>)
    requires Restorable(d, at, tags, data) && Restorable(d, at', tags', data')
    ensures Restorable(d, at + at', tags + tags', data + data')
  {
    hide Stores, Read;
  }

  lemma RisingMore(at: seq<nat>, at': seq<nat>, lo: nat, mid: nat, hi: nat)
    requires Rising(at, lo, mid) && Rising(at', mid, hi) && lo <= mid <= hi
    ensures Rising(at + at', lo, hi)
  {
  }

  lemma LaidFront(d: Disk, g: Geometry, tid: nat, pos: nat, items: seq<Item>)
    requires g.Ok() && items != [] && Laid(d, g, tid, pos, items)
    ensures var front := items[..|items| - 1];
      Laid(d, g, tid, pos, front) && ItemOn(d, g, Seq(tid, front), pos + Total(front), items[|items| - 1])
  {
    hide ItemOn, Seq, Total;
    var front := items[..|items| - 1];
    forall j | 0 <= j < |front| ensures LaidAt(d, g, tid, pos, front, j) {
      assert LaidAt(d, g, tid, pos, items, j) && front[..j] == items[..j];
    }
    assert LaidAt(d, g, tid, pos, items, |items| - 1);
  }

  lemma GroupData(d: Disk, g: Geometry, tid: nat, pos: nat, i: Item)
    requires g.Ok() && i.Group? && ItemOn(d, g, tid, pos, i)
    ensures Restorable(d, Following(pos + 1, |i.data|), i.tags, i.data)
    ensures Rising(Following(pos + 1, |i.data|), pos, pos + Len(i))
  {
    hide Stores, ReadTags;
    forall j | 0 <= j < |i.data| ensures Stores(Read(d, pos + 1 + j), i.tags[j], i.data[j]) {
      assert Stores(At(d, pos, 1 + j), i.tags[j], i.data[j]);
    }
  }

  /** Every data block of a log can be got back from the block that holds it and its tag. */
  lemma {:induction false} LaidData(d: Disk, g: Geometry, tid: nat, pos: nat, items: seq<Item>)
    requires g.Ok() && Laid(d, g, tid, pos, items)
    ensures Restorable(d, DataAt(pos, items), TagsOf(items), DataOf(items))
    ensures Rising(DataAt(pos, items), pos, pos + Total(items))
  {
    hide Laid, ItemOn, Stores, Restorable, Rising, Read, Seq;
    if items != [] {
      var front, i := items[..|items| - 1], items[|items| - 1];
      var o := pos + Total(front);
      LaidFront(d, g, tid, pos, items);
      LaidData(d, g, tid, pos, front);
      if i.Group? {
        GroupData(d, g, Seq(tid, front), o, i);
        RestorableMore(d, DataAt(pos, front), TagsOf(front), DataOf(front), Following(o + 1, |i.data|), i.tags, i.data);
        RisingMore(DataAt(pos, front), Following(o + 1, |i.data|), pos, o, o + Len(i));
      } else {
        NoData(d, o, o + 1);
        RestorableMore(d, DataAt(pos, front), TagsOf(front), DataOf(front), [], [], []);
        RisingMore(DataAt(pos, front), [], pos, o, o + 1);
      }
    } else {
      NoData(d, pos, pos);
    }
  }

  lemma NoData(d: Disk, lo: nat, hi: nat)
    ensures Restorable(d, [], [], []) && Rising([], lo, hi)
  {
  }

  // ----- the ring -----

  function OnRing(d: Disk, g: Geometry, start: nat, n: nat): JBlock
    requires g.Ok() && g.first <= start < g.last
  {
    Read(d, g.Wrap(start + n))
  }

  /** The log blocks in ring order from `start` on. */
  ghost function Unrolled(d: Disk, g: Geometry, start: nat): Disk
    requires g.Ok() && g.first <= start < g.last
  {
    map n: nat | n < g.last - g.first :: OnRing(d, g, start, n)
  }

  /** The ring holds these items from `start` on, and then nothing that continues them. */
  ghost predicate Logged(d: Disk, g: Geometry, start: nat, tid: nat, items: seq<Item>)
    requires g.Ok() && g.first <= start < g.last
  {
    Total(items) <= g.last - g.first && Laid(Unrolled(d, g, start), g, tid, 0, items)
  }

  /** Neither reader goes past a block without the magic number or with another sequence number. */
  predicate Ends(d: Disk, b: nat, tid: nat) {
    Read(d, b).magic != MAGIC || Read(d, b).sequence != tid
  }

  /**
   * A transaction written in one stretch where the log ends continues the log,
   * whether or not the log has wrapped around before.
   */
  lemma LoggedGrows(was: Disk, d: Disk, g: Geometry, start: nat, tid: nat, pos: nat, logged: seq<Item>, more: seq<Item>, hi: nat)
    requires g.Ok() && g.first <= start < g.last && Logged(was, g, start, tid, logged)
    requires pos == g.Wrap(start + Total(logged)) && pos + Total(more) <= hi <= g.last
    requires Total(logged) + (hi - pos) <= g.last - g.first
    requires Untouched(was, d, pos, hi) && Laid(d, g, Seq(tid, logged), pos, more)
    ensures Logged(d, g, start, tid, logged + more)
  {
    hide Laid, Seq, Total, Read;
    var v, v' := Unrolled(was, g, start), Unrolled(d, g, start);
    var n := Total(logged);
    forall k | 0 <= k < n ensures At(v', 0, k) == At(v, 0, k) {
      UnrolledAt(was, g, start, k);
      UnrolledAt(d, g, start, k);
    }
    forall k | 0 <= k < Total(more) ensures At(v', n, k) == At(d, pos, k) {
      UnrolledAt(d, g, start, n + k);
      assert g.Wrap(start + (n + k)) == pos + k;
    }
    LaidShift(v, v', g, tid, 0, 0, logged);
    LaidShift(d, v', g, Seq(tid, logged), pos, n, more);
    LaidJoin(v', g, tid, 0, logged, more);
    Joined(logged, more, tid);
  }

  lemma UnrolledAt(d: Disk, g: Geometry, start: nat, n: nat)
    requires g.Ok() && g.first <= start < g.last && n < g.last - g.first
    ensures Read(Unrolled(d, g, start), n) == Read(d, g.Wrap(start + n))
  {
  }

  // ----- a descriptor block in preparation -----

  /** The tags set up so far belong to the data blocks already written behind the descriptor's place. */
  ghost predicate Draft(d: Disk, g: Geometry, jdb: nat, tags: map<nat, Tag>, ts: seq<Tag>, ds: seq<JBlock>) {
    && Tagged(g, tags, ts) && |ts| == |ds|
    && (forall j | 0 <= j < |ds| :: Stores(At(d, jdb, 1 + j), ts[j], ds[j]))
  }

  /** Tag slots keep what they hold while a later one is filled. */
  ghost predicate Kept(g: Geometry, tags: map<nat, Tag>, tags': map<nat, Tag>, n: nat) {
    forall k | 0 <= k < n :: TagAt(tags', TagOff(g, k)) == TagAt(tags, TagOff(g, k))
  }

  lemma SlotKept(g: Geometry, tags: map<nat, Tag>, n: nat, t: Tag)
    requires g.Ok()
    ensures Kept(g, tags, tags[TagOff(g, n) := t], n)
  {
    hide TagOff;
    forall k | 0 <= k < n
      ensures TagAt(tags[TagOff(g, n) := t], TagOff(g, k)) == TagAt(tags, TagOff(g, k))
    {
      TagOffOrder(g, k, n);
    }
  }

  lemma TaggedGrows(g: Geometry, tags: map<nat, Tag>, ts: seq<Tag>, tags': map<nat, Tag>, t: Tag)
    requires Tagged(g, tags, ts) && Kept(g, tags, tags', |ts|) && TagAt(tags', TagOff(g, |ts|)) == t
    requires TagOff(g, |ts|) + g.tagBytes <= g.Room() && t.same == (|ts| > 0)
    requires ts != [] ==> !ts[|ts| - 1].last
    ensures Tagged(g, tags', ts + [t])
  {
    hide TagAt, TagOff;
  }

  lemma DraftGrows(d: Disk, g: Geometry, jdb: nat, tags: map<nat, Tag>, ts: seq<Tag>, ds: seq<JBlock>,
                   tags': map<nat, Tag>, t: Tag, b: JBlock, stored: JBlock)
    requires Draft(d, g, jdb, tags, ts, ds) && Tagged(g, tags', ts + [t]) && Stores(stored, t, b)
    ensures Draft(d[jdb + 1 + |ds| := stored], g, jdb, tags', ts + [t], ds + [b])
  {
    hide Tagged, Stores;
    var d' := d[jdb + 1 + |ds| := stored];
    forall j | 0 <= j < |ds + [b]| ensures Stores(At(d', jdb, 1 + j), (ts + [t])[j], (ds + [b])[j]) {
      if j < |ds| { assert At(d', jdb, 1 + j) == At(d, jdb, 1 + j); }
    }
  }

  /** Written out full or with its last tag marked, the draft is a group. */
  lemma DraftDone(d: Disk, g: Geometry, tid: nat, jdb: nat, b: JBlock, ts: seq<Tag>, ds: seq<JBlock>)
    requires g.Ok() && Draft(d, g, jdb, b.tags, ts, ds) && Stamped(b, DESCRIPTOR, tid)
    requires ts != [] && (ts[|ts| - 1].last || TagOff(g, |ts|) + g.tagBytes > g.Room())
    ensures ItemOn(d[jdb := b], g, tid, jdb, Group(ts, ds))
  {
    hide Tagged, Stores, ReadTags;
    var d' := d[jdb := b];
    ReadBack(g, b.tags, ts, 0);
    assert At(d', jdb, 0) == b && ts[0..] == ts;
    forall j | 0 <= j < |ds| ensures Stores(At(d', jdb, 1 + j), ts[j], ds[j]) {
      assert At(d', jdb, 1 + j) == At(d, jdb, 1 + j);
    }
  }

  // ----- a revoke block in preparation -----

  ghost predicate Filled(g: Geometry, entries: map<nat, nat>, rs: seq<nat>) {
    forall j | 0 <= j < |rs| :: EntryAt(entries, EntryOff(g, j)) == rs[j]
  }

  lemma FilledGrows(g: Geometry, entries: map<nat, nat>, rs: seq<nat>, r: nat)
    requires g.Ok() && Filled(g, entries, rs)
    ensures Filled(g, entries[EntryOff(g, |rs|) := r], rs + [r])
  {
    hide EntryOff;
    var entries' := entries[EntryOff(g, |rs|) := r];
    forall j | 0 <= j < |rs + [r]| ensures EntryAt(entries', EntryOff(g, j)) == (rs + [r])[j] {
      if j < |rs| { EntryOffOrder(g, j, |rs|); }
    }
  }

  lemma FilledDone(d: Disk, g: Geometry, tid: nat, pos: nat, b: JBlock, rs: seq<nat>)
    requires g.Ok() && Filled(g, b.entries, rs) && Stamped(b, REVOKE, tid) && b.rcount == EntryOff(g, |rs|)
    ensures ItemOn(d[pos := b], g, tid, pos, Revoked(rs))
  {
    hide ReadRevokes;
    RevokesBack(g, b.entries, rs, 0);
    assert EntryOff(g, 0) == REVOKE_HEADER_SIZE && rs[0..] == rs;
    assert At(d[pos := b], pos, 0) == b;
  }
}
