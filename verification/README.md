# Verified core of the e2fsprogs tools and the change-file flasher

This project is a Dafny model of the self-contained algorithms of the
repository, with proofs about whole runs of them:

* **The red-black dictionary of e2fsck** (`RedBlackTree`, `NodeStore`,
  `NodeSurgery`, `Rebalance`, `DictWalk`, `DictRepair`, `DictShape`, `DictCut`, `Dict`,
  `DictVerify`, and for bulk loading and merging `BulkLoad`, `LoadStore`,
  `DictLoad`, `DictMerge`). Nodes are cells of one store with left, right,
  parent, colour and key fields, including the nil sentinel whose parent field
  is borrowed during deletion. A ghost tree with a one-hole context says what
  the cells mean at every step. The comparison is any total preorder.
  Insertion, deletion and merging are also shown to leave every other cell of
  the store alone, and what insertion and search do is also stated for a
  comparison that is no order.
* **The EA refcount store and the pass 1 accounting over it** (`EaRefcount`,
  `Pass1`), with the found/duplicate block maps.
* **Rebuilding extent trees** (`Extents`): coalescing, the block iterator's
  variant, and the write-out loop that steps its own index back.
* **The journal writer of debugfs and its two readers** (`JournalLayout`,
  `JournalLog`, `Journal`): transactions in a ring of blocks, the head scan and
  the log dumper.
* **The file lists of fsstress** (`FsStress`) over a file system that behaves as
  POSIX says and may refuse any call.
* **The two-way index of multiply-claimed clusters** (`IntKeys`, `KeyTable`,
  `DupIndex`, `MissedKey`): two of the dictionaries above under dict_int_cmp, whose result is
  a difference cut to 32 bits.
* **The argument splitter** (`ArgvParse`).
* **Change files** (`HookedIo`, `ChangeFile`): the file layer under which
  resize2fs works on an image without changing it, logging what it writes, and
  the replay of that log on a device.

What the source does by updating fields and arrays is modelled by classes and
methods that do the same; each method is proved against a function of the
abstract contents, and the properties are proved of those functions.

`dafny verify dfyconfig.toml` checks everything.

## Where the code falls short of what it is meant to do

The model follows the code. In these places the intended property fails; the
named members give an input, and the exact condition under which it holds:

* The guard in load_extents against over-long extents compares a 32-bit sum with
  2^32 and never fails. Input: `Extents.WholeRangeIsLost`. Condition:
  `Extents.LostExactly`, and of one merge `Extents.MergeExact`.
* find_blocks tests physical adjacency only, so a hole between physically
  consecutive blocks disappears. Input: `Extents.HiddenHoleExample`. Condition:
  `Extents.FoundExact`, and of the whole rebuild `Extents.RebuildFromBlocks`.
* A data file that ends early can leave errno at zero; the journal writer then
  reports success and commits behind a descriptor block it never wrote, and the
  head scan does not find that commit. Input: `Journal.ShortFileLost`. Condition:
  `Journal.Log.WriteThenScan`.
* dict_int_cmp is an order only on keys that fit into half of the circle of
  32-bit words, and takes keys 2^32 apart for equal. Inputs:
  `DupIndex.FarClusters`, a run that reports two inodes as sharing which share
  nothing, and `MissedKey.MissedRun`, a run of nine claims after which one
  cluster has two records, as a lookup has missed the first. Conditions:
  `IntKeys.ComparesExactly` of two keys, `IntKeys.OrdersExactly` of a set of
  keys, `DupIndex.RecordsExactly` of the index.
* The journal's head is set from the estimate, not from the blocks written.
  Input: `Journal.GuessShort`, a transaction whose commit block the next one in
  the same session overwrites. Condition: `Journal.Log.Write`, met by
  `Journal.GuessRight`. The estimate never covers a whole transaction:
  `Journal.GuessAlwaysShort`.
* pass1d never takes its metadata flag back, so later reports carry it for files
  that share nothing with the file system. Input: `DupIndex.StickyFlag`.
  Condition: `DupIndex.FlagExactly`.
* Change-file entries of 2^31 bytes and more are cut to 32 bits. Input:
  `ChangeFile.SizeLost`. Condition: `ChangeFile.SizeKept`.
* hooked_write moves the offset but not the image's file pointer, so reading on
  without a seek returns the sector before. Input: `HookedIo.StaleRead`.
  Condition: `HookedIo.ReadExactly`; unix_io always seeks, and
  `HookedIo.Run` shows that its reads are right.

The UUID copy behind the first tag of a descriptor block is misplaced by pointer
arithmetic; the model lets it overwrite anything later in the block, and the
readers still find exactly the tags written (`Journal.Log.PutTag`).

## Model

| member | source | states |
|---|---|---|
| `NodeSurgery.RotLGood` | e2fsprogs/e2fsck/dict.c:89-111 | a left rotation anywhere in the tree leaves all links right, for exactly the turned subtree |
| `NodeSurgery.RotRGood` | e2fsprogs/e2fsck/dict.c:118-137 | the same for a right rotation |
| `Rebalance.RotLContents` | e2fsprogs/e2fsck/dict.c:83-111 | the turned tree has the same in-order sequence |
| `Rebalance.RotRContents` | e2fsprogs/e2fsck/dict.c:113-137 | likewise on the right |
| `Dict.Heap.RotateLeft` | e2fsprogs/e2fsck/dict.c:89-111 | the field updates are exactly the rotation that RotLGood is about |
| `Dict.Heap.RotateRight` | e2fsprogs/e2fsck/dict.c:118-137 | likewise on the right |
| `Dict.Dict.constructor` | e2fsprogs/e2fsck/dict.c:341-355 | a new dictionary is valid and empty |
| `Dict.Dict.FindHole` | e2fsprogs/e2fsck/dict.c:581-598 | for any comparison, the hole the search for a place ends in |
| `Dict.HoleOrder` | e2fsprogs/e2fsck/dict.c:581-598 | if the comparison is an order, everything not greater lies before that hole and everything greater behind it |
| `Dict.Dict.Raise` | e2fsprogs/e2fsck/dict.c:609-651 | the recolour/rotate climb ends with exactly the tree Climbed, settles every red-black rule but the root's colour, and leaves the in-order sequence alone |
| `Dict.Dict.File` | e2fsprogs/e2fsck/dict.c:567-656 | dict_insert for any comparison: red-black, linked, counted, exactly the tree Inserted; cells outside the tree hold what they held |
| `DictShape.ClimbedContents` | e2fsprogs/e2fsck/dict.c:609-653 | the climb moves no entry |
| `DictShape.InsertedEntries` | e2fsprogs/e2fsck/dict.c:567-656 | for any comparison, one entry more and none lost |
| `Dict.Dict.Insert` | e2fsprogs/e2fsck/dict.c:567-656 | keeps the dictionary valid (linked, red-black, sorted, counted) and files the key behind all equal keys; cells outside the tree hold what they held |
| `Dict.FiledSorted` | e2fsprogs/e2fsck/dict.c:581-598 | filing behind the equal keys keeps the sequence sorted |
| `Dict.FiledStrict` | e2fsprogs/e2fsck/dict.c:581-590 | no two keys are equal afterwards if and only if none were and the new key equals none |
| `RedBlackTree.HeightBound` | e2fsprogs/e2fsck/dict.c:184-220 | a red-black tree of n nodes has height at most 2 log2(n+1), stated as 2^height <= (n+1)^2 |
| `Dict.Dict.TakeOut` | e2fsprogs/e2fsck/dict.c:686-748 | unlinking the node, with its successor put in its place when it has two children, removes exactly that entry and leaves at most one subtree one black short |
| `Dict.Dict.Mend` | e2fsprogs/e2fsck/dict.c:759-825 | the deletion loop, under a root painted red and with the sentinel's borrowed parent, ends with all rules restored and the same in-order sequence |
| `Dict.Dict.Delete` | e2fsprogs/e2fsck/dict.c:665-832 | removes exactly the given node: every other node and key stays in place, the count drops by one, all rules and the black sentinel are restored; cells outside the tree hold what they held |
| `Rebalance.DeletedContents` | e2fsprogs/e2fsck/dict.c:686-748 | joining the two child sequences of a node is removing that node from the whole sequence |
| `Dict.Dict.Seek` | e2fsprogs/e2fsck/dict.c:469-476 | for any comparison, the first match on the way down, or null |
| `Dict.PathOrder` | e2fsprogs/e2fsck/dict.c:469-476 | if the comparison is an order, everything before the way down is less and everything behind it greater |
| `Dict.Dict.Lookup` | e2fsprogs/e2fsck/dict.c:460-491 | null if and only if no key is equal; otherwise an equal entry, and the leftmost one with duplicates allowed; without duplicates it is the plain search of the tree |
| `Dict.Dict.LeftmostEqual` | e2fsprogs/e2fsck/dict.c:479-485 | from any equal node the inner search reaches the first equal entry |
| `Dict.Dict.LowerBound` | e2fsprogs/e2fsck/dict.c:499-524 | the first entry not below the key, or null when all are below |
| `Dict.Dict.UpperBound` | e2fsprogs/e2fsck/dict.c:531-556 | the last entry not above the key, or null when all are above |
| `Dict.Dict.First` | e2fsprogs/e2fsck/dict.c:865-874 | the head of the in-order sequence, or null |
| `Dict.Heap.Next` | e2fsprogs/e2fsck/dict.c:899-918 | the next entry of the in-order sequence, using nothing but what lies ahead of the current node |
| `Dict.Dict.Process` | e2fsprogs/e2fsck/dict.c:1040-1052 | stepping from first to last visits every entry exactly once, in order |
| `DictVerify.VerifyRedBlack` | e2fsprogs/e2fsck/dict.c:200-220 | the black height plus one of a red-black subtree and 0 of any other |
| `DictVerify.VerifyNodeCount` | e2fsprogs/e2fsck/dict.c:228-235 | the number of nodes |
| `DictVerify.VerifyBintree` | e2fsprogs/e2fsck/dict.c:163-182 | true if and only if neighbours are in order, strictly so without duplicates |
| `DictVerify.ChainedSorted` | e2fsprogs/e2fsck/dict.c:163-182 | neighbours in order is the same as all pairs in order |
| `DictVerify.Verify` | e2fsprogs/e2fsck/dict.c:401-424 | of linked trees, accepts exactly those that satisfy the invariant the operations keep |
| `BulkLoad.LayeredRedBlack` | e2fsprogs/e2fsck/dict.c:1129-1149 | subtrees coloured by level as the load does are red-black once the root is black |
| `BulkLoad.CarryBound` | e2fsprogs/e2fsck/dict.c:1091-1170 | with fewer than 2^63 nodes the level counter stays below DICT_DEPTH_MAX |
| `DictLoad.Climb` | e2fsprogs/e2fsck/dict.c:1136-1141 | closing full levels keeps the pending trees, in order, and their cells |
| `DictLoad.LoadRows` | e2fsprogs/e2fsck/dict.c:1108-1150 | the loop places the whole list in order, touching its nodes and the sentinel alone |
| `DictLoad.LoadEnd` | e2fsprogs/e2fsck/dict.c:1091-1170 | every sorted list of fewer than 2^63 nodes becomes a valid dictionary whose in-order sequence is the list; no other cell is touched |
| `DictMerge.LoadBegin` | e2fsprogs/e2fsck/dict.c:1054-1059 | the load starts with an empty list |
| `DictMerge.LoadNext` | e2fsprogs/e2fsck/dict.c:1067-1089 | appends the node to the list threaded through the left fields |
| `DictMerge.MergedContents` | e2fsprogs/e2fsck/dict.c:1185-1221 | merging keeps every entry of both sequences exactly as often |
| `DictMerge.MergedSorted` | e2fsprogs/e2fsck/dict.c:1185-1221 | the merge of sorted sequences is sorted |
| `DictMerge.MergedStrict` | e2fsprogs/e2fsck/dict.c:1185-1221 | the merge is free of equal keys if and only if both sides are and no key is on both |
| `DictMerge.WalkSurvives` | e2fsprogs/e2fsck/dict.c:1185-1221 | a walk by dict_next survives the reuse of left fields behind it |
| `DictMerge.Merge` | e2fsprogs/e2fsck/dict.c:1172-1225 | the destination is valid and holds the merge, the source is valid and empty, counts add up, the duplicates flags and all other cells stay; merging with itself does nothing |
| `EaRefcount.Refcount.constructor` | e2fsprogs/e2fsck/ea_refcount.c:49-82 | an empty store of the size asked for, or 500 |
| `EaRefcount.Refcount.Collapse` | e2fsprogs/e2fsck/ea_refcount.c:88-106 | keeps exactly the elements whose count is not zero, in order |
| `EaRefcount.LiveAt` | e2fsprogs/e2fsck/ea_refcount.c:88-106 | dropping zero elements changes no block's value |
| `EaRefcount.Refcount.InsertEl` | e2fsprogs/e2fsck/ea_refcount.c:113-147 | makes room at the position, growing by 100 when full |
| `EaRefcount.Refcount.Search` | e2fsprogs/e2fsck/ea_refcount.c:176-197 | finds the block's element, or the one place where it belongs |
| `EaRefcount.Refcount.GetEl` | e2fsprogs/e2fsck/ea_refcount.c:155-207 | finds or creates the element; no block's value changes, the array stays strictly sorted, and the retry happens at most once |
| `EaRefcount.Refcount.Fetch` | e2fsprogs/e2fsck/ea_refcount.c:209-221 | the value of the block, 0 when absent |
| `EaRefcount.Refcount.Increment` | e2fsprogs/e2fsck/ea_refcount.c:223-235 | adds one to that block only |
| `EaRefcount.Refcount.Decrement` | e2fsprogs/e2fsck/ea_refcount.c:237-250 | fails exactly when the value is 0; otherwise takes one from that block only |
| `EaRefcount.Refcount.Store` | e2fsprogs/e2fsck/ea_refcount.c:252-264 | sets that block only |
| `EaRefcount.Refcount.IntrBegin` | e2fsprogs/e2fsck/ea_refcount.c:274-277 | the iteration starts over |
| `EaRefcount.Refcount.IntrNext` | e2fsprogs/e2fsck/ea_refcount.c:280-296 | the next element whose count is not zero, skipping zeros only |
| `EaRefcount.Run` | e2fsprogs/e2fsck/ea_refcount.c:88-264 | every run of store, increment, decrement and fetch answers as a plain map with default 0 does |
| `Pass1.BlockMaps.MarkBlockUsed` | e2fsprogs/e2fsck/pass1.c:2046-2071 | a block found before becomes a duplicate |
| `Pass1.BlockMaps.MarkBlocksUsed` | e2fsprogs/e2fsck/pass1.c:2073-2081 | the all-clear fast path and the loop have the same effect |
| `Pass1.ClaimAll` | e2fsprogs/e2fsck/pass1.c:2046-2081 | after any claims the found map is what was claimed at least once, the duplicate map what was claimed at least twice |
| `Pass1.ExtAttr.CheckExtAttr` | e2fsprogs/e2fsck/pass1.c:2134-2330 | keeps the account of both stores against the references accepted so far; says which references are accepted; a block is marked used when it is first accepted, and becomes a duplicate exactly when it was found before |
| `Pass1.AcceptedFrom` | e2fsprogs/e2fsck/pass1.c:2197-2330 | from the first reference that passes validation on, every reference to an allowed block counts |
| `Pass1.NoneAccepted` | e2fsprogs/e2fsck/pass1.c:2197-2330 | without one that passes, or outside the blocks allowed, none does |
| `Pass1.ExtAttr.Adjust` | e2fsprogs/e2fsck/pass1.c:2090-2129 | every header changes by its store's value, with the given sign |
| `Pass1.SettlesTrue` | e2fsprogs/e2fsck/pass1.c:2197-2213 | taking the leftover claims away and adding the extra ones turns any stated count into the true one |
| `Pass1.ExtAttr.SettleAll` | e2fsprogs/e2fsck/pass1.c:1780-1790 | after both adjustments each header holds the number of accepted references, or its old value if there were none |
| `Pass1.CountReferences` | e2fsprogs/e2fsck/pass1.c:2197-2330 | for every order of references and every initial count, too low, too high or zero, the counts end up true; the blocks found are exactly those with an accepted reference, and sharing one makes no duplicate |
| `Extents.MergeExact` | e2fsprogs/e2fsck/extents.c:103-121 | merging keeps the blocks if and only if the lengths add up below 2^32 |
| `Extents.CoalescedBlocks` | e2fsprogs/e2fsck/extents.c:87-142 | coalescing keeps every logical block, physical block and flag, in order |
| `Extents.LostExactly` | e2fsprogs/e2fsck/extents.c:103-121 | over the full 32-bit range it loses blocks if and only if all 2^32 are mapped in one run; otherwise the result is ordered |
| `Extents.WholeRangeIsLost` | e2fsprogs/e2fsck/extents.c:103-121 | 131072 leaves of the largest size, one behind the other, lose their blocks |
| `Extents.CoalescedMaximal` | e2fsprogs/e2fsck/extents.c:103-139 | no two neighbours of the result could still be merged |
| `Extents.CoalescedOrdered` | e2fsprogs/e2fsck/extents.c:87-142 | the result is ordered and disjoint when the leaves are |
| `Extents.SplitAllBlocks` | e2fsprogs/e2fsck/extents.c:262-297 | splitting keeps every block |
| `Extents.SplitAllPieces` | e2fsprogs/e2fsck/extents.c:262-297 | the pieces are ordered, disjoint and at most 32768 blocks long, 32767 without data |
| `Extents.RebuildIdempotent` | e2fsprogs/e2fsck/extents.c:87-297 | coalescing the pieces gives the coalesced list back, for leaves in any order over the whole range |
| `Extents.FoundExact` | e2fsprogs/e2fsck/extents.c:152-207 | find_blocks keeps the block map if and only if physically adjacent consecutive blocks are logically adjacent |
| `Extents.HiddenHoleExample` | e2fsprogs/e2fsck/extents.c:169-185 | two blocks with a hole between them become one extent without it |
| `Extents.PackExact` | e2fsprogs/lib/ext2fs/extent.c:843-859 | a leaf record is made exactly of lengths up to 32768, 32767 without data; extent_get reads the same extent back if and only if the numbers fit and an extent without data is not empty |
| `Extents.PiecesSurvive` | e2fsprogs/lib/ext2fs/extent.c:535-546 | pieces within the limits, of block numbers that fit, come back as they were |
| `Extents.LeavesMean` | e2fsprogs/e2fsck/extents.c:87-101 | the extents loaded are those of leaves on their first visit |
| `Extents.VisitsCount` | e2fsprogs/e2fsck/extents.c:87-101 | every first visit is either loaded or counted as freed |
| `Extents.MappedMean` | e2fsprogs/e2fsck/extents.c:152-167 | the blocks mapped are those of callbacks with a logical number |
| `Extents.ExtentList.LoadExtents` | e2fsprogs/e2fsck/extents.c:72-150 | the array holds the coalesced leaves; interior nodes are counted as freed |
| `Extents.ExtentList.FindBlocks` | e2fsprogs/e2fsck/extents.c:152-207 | one callback has the effect FoundExact is about; indirect blocks are counted as freed |
| `Extents.ExtentList.WriteOut` | e2fsprogs/e2fsck/extents.c:262-297 | the loop that steps its index back ends and writes exactly the split list, in pieces of at most 32768 blocks, 32767 without data |
| `Extents.Rebuild` | e2fsprogs/e2fsck/extents.c:72-309 | loading and writing out preserves the block map if and only if not all 2^32 blocks are one run, and then in ordered pieces; all pieces are within the limits, and with physical blocks below 2^48 each comes back from its leaf record as it was |
| `Extents.RebuildFromBlocks` | e2fsprogs/e2fsck/extents.c:152-297 | for every sequence of callbacks, find_blocks and the write-out preserve the block map if and only if no hole is hidden; then, for callbacks in ascending order, the pieces are ordered and disjoint; all are within the limits, and come back from their leaf records if the block numbers fit |
| `JournalLayout.CountTags` | e2fsprogs/debugfs/do_journal.c:635-660 | the number of tags up to the last-tag flag or the end of the block |
| `JournalLayout.WrapOnce` | e2fsprogs/debugfs/do_journal.c:625-629 | adding a count and wrapping once is wrapping after each step, up to one turn of the ring |
| `JournalLayout.DumpDescriptor` | e2fsprogs/debugfs/logdump.c:472-528 | reports the same tags, each with its log block, and goes on behind them |
| `JournalLayout.ReadBack` | e2fsprogs/debugfs/do_journal.c:323-413 | from a full block, or one with its last tag marked, exactly the tags written are read |
| `JournalLayout.DumpRevoke` | e2fsprogs/debugfs/logdump.c:532-572 | reports the entries up to the stored count |
| `JournalLayout.RevokesBack` | e2fsprogs/debugfs/do_journal.c:213-266 | exactly the entries written are read, in order |
| `JournalLayout.TagRoom` | e2fsprogs/debugfs/do_journal.c:332-335 | a tag fits exactly up to the number of tags per block |
| `JournalLayout.PackedBlocks` | e2fsprogs/debugfs/do_journal.c:323-413 | the blocks begun never exceed those of the whole list, and are exactly those at its end |
| `JournalLog.LoggedGrows` | e2fsprogs/debugfs/do_journal.c:449-475 | a transaction written where the log ends continues the log, wrapped or not |
| `JournalLog.LaidData` | e2fsprogs/debugfs/do_journal.c:380-393 | every data block of a log is restored from the block that holds it and its tag; these blocks lie one behind the other |
| `Journal.Log.PutTag` | e2fsprogs/debugfs/do_journal.c:353-400 | adds one tag and its data block to the descriptor in preparation; the block is stored as it is, or with its first word cleared when that is the magic number |
| `Journal.Log.AddBlocks` | e2fsprogs/debugfs/do_journal.c:274-421 | groups that read back as exactly the list, high words included, and log blocks from which, by their tags, exactly its data is restored; no stored block starts with the magic number; an exact number of blocks; refuses exactly when a listed block with data is beyond the file system; a short data file leaves a gap |
| `Journal.Log.AddRevokes` | e2fsprogs/debugfs/do_journal.c:170-272 | revoke blocks that read back as the list, which is exact if the file system has at most 2^32 blocks, or 2^64 with entries of 8 bytes; an exact number of blocks; refuses exactly when a block is beyond the file system |
| `Journal.Log.CommitTrans` | e2fsprogs/debugfs/do_journal.c:76-168 | one commit block, only for an open transaction |
| `Journal.Log.OpenTrans` | e2fsprogs/debugfs/do_journal.c:449-475 | where the transaction starts, its id, and when there is no space |
| `Journal.Log.CloseTrans` | e2fsprogs/debugfs/do_journal.c:477-508 | the journal's fields change only after a commit |
| `Journal.Log.Write` | e2fsprogs/debugfs/do_journal.c:511-558 | succeeds exactly when the estimate fits and every block is accepted; then one stretch of an exact number of blocks holds the list, the data to be restored, the revokes and the commit; nothing else on disk changes; every changed block carries this id or no magic number; the head is set from the estimate, and lies behind the commit if and only if the estimate is one short of the blocks needed |
| `Journal.GuessRight` | e2fsprogs/debugfs/do_journal.c:423-447 | data blocks that fit one descriptor block, without revokes: the estimate is one short of the blocks needed |
| `Journal.GuessShort` | e2fsprogs/debugfs/do_journal.c:423-447 | one data block and one revoke: it is two short |
| `Journal.GuessCounts` | e2fsprogs/debugfs/do_journal.c:423-447 | the estimate counts the data blocks, one block, and the blocks that the bare records would fill to the last byte |
| `Journal.GuessAlwaysShort` | e2fsprogs/debugfs/do_journal.c:423-447 | for every transaction it is short by at least one block for each kind of record |
| `Journal.Log.FindHead` | e2fsprogs/debugfs/do_journal.c:662-776 | on any log, wrapped or not, with any committed and uncommitted transactions: ends with the id after the last commit and the block behind it |
| `Journal.Log.Transact` | e2fsprogs/debugfs/do_journal.c:511-558 | with room known beforehand, for every id and whatever stale blocks there are: which way a write ends is decided by the input, the earlier log stays, a commit adds exactly this transaction, a short data file loses it |
| `Journal.Log.WriteThenScan` | e2fsprogs/debugfs/do_journal.c:511-776 | after a reported success, if the block behind does not carry the next id: the scan ends at the next id, with the head right behind the commit, if and only if the data file was long enough; otherwise the head stays where it was |
| `Journal.Log.WriteThenDump` | e2fsprogs/debugfs/logdump.c:390-572 | behind any log, the dumper reports the earlier tags and revokes and then exactly the block numbers written, log blocks from which the data given is restored, and the revokes given |
| `Journal.ShortFileLost` | e2fsprogs/debugfs/do_journal.c:323-328 | one block to write, no data, errno 0: success and commit are reported, and the scan finds nothing |
| `Journal.Log.constructor` | e2fsprogs/debugfs/do_journal.c:449-461 | an empty journal is in step with the empty log |
| `Journal.Log.Reopen` | e2fsprogs/debugfs/do_journal.c:662-776 | if the block behind the log does not continue it, the scan puts the journal's fields in step with the log again |
| `Journal.Log.Session` | e2fsprogs/debugfs/do_journal.c:511-776 | over a run in which no block carries a later id, every write and reopening keeps the fields in step and no block with a later id |
| `Journal.DumpJournal` | e2fsprogs/debugfs/logdump.c:390-469 | reports every tag with the log block from which, by that tag, its data is restored, and every revoke, in the order written |
| `FsStress.Stress.AddToFlist` | e2fsprogs/contrib/fsstress.c:584-597 | appends the entry, growing by 16 slots when full |
| `FsStress.Stress.DcachePurge` | e2fsprogs/contrib/fsstress.c:735-742 | empties the slot if it names this id |
| `FsStress.PurgedDel` | e2fsprogs/contrib/fsstress.c:744-757 | after both purges no cache slot names the freed index or the moved entry |
| `FsStress.Stress.DelFromFlist` | e2fsprogs/contrib/fsstress.c:744-757 | swap-with-last deletion keeps every cache slot empty or right |
| `FsStress.Stress.DiridToFent` | e2fsprogs/contrib/fsstress.c:759-775 | the answer of a scan of the whole list |
| `FsStress.Stress.FentToName` | e2fsprogs/contrib/fsstress.c:818-834 | terminates with the path of the entry |
| `FsStress.Stress.FixParent` | e2fsprogs/contrib/fsstress.c:836-849 | every entry below the old id is below the new one, in all lists |
| `FsStress.Stress.GetFname` | e2fsprogs/contrib/fsstress.c:887-945 | the entry numbered r modulo their number among the lists asked for |
| `FsStress.RootedRename` | e2fsprogs/contrib/fsstress.c:2367-2376 | a rename the kernel accepts keeps the forest, and moves paths as the kernel does |
| `FsStress.EmptyDir` | e2fsprogs/contrib/fsstress.c:2452-2455 | a directory is empty on disk if and only if no entry names it as parent |
| `FsStress.Stress.Create` | e2fsprogs/contrib/fsstress.c:2178-2211 | in the directory numbered r, the new entry is on disk unless the kernel refuses; its number is used up either way; same for creat_f, mknod_f and symlink_f |
| `FsStress.Stress.LinkF` | e2fsprogs/contrib/fsstress.c:2130-2176 | of the file numbered r, a second name of the same type in the directory numbered by the second draw, unless refused; nothing exactly when there is no file |
| `FsStress.Stress.RenameF` | e2fsprogs/contrib/fsstress.c:2328-2382 | of the entry numbered r and the directory numbered by the second draw: fails exactly when the kernel refuses or the target lies inside what is moved; otherwise children follow |
| `FsStress.Stress.RmdirF` | e2fsprogs/contrib/fsstress.c:2438-2459 | picks the directory numbered r if there is any, and succeeds exactly if it has no entries, unless refused |
| `FsStress.Stress.UnlinkF` | e2fsprogs/contrib/fsstress.c:2572-2594 | picks the file numbered r if there is any, and removes exactly that one, unless refused |
| `FsStress.Stress.Doproc` | e2fsprogs/contrib/fsstress.c:777-816 | every run does to lists, paths and numbers what its operations do one after another, and keeps the lists an exact picture of the files: parents are live directories and form a forest |
| `IntKeys.ComparesExactly` | e2fsprogs/e2fsck/pass1b.c:107-115 | two keys compare right both ways if and only if they are equal or their distance is a positive number below 2^31 modulo 2^32 |
| `IntKeys.OrdersExactly` | e2fsprogs/e2fsck/pass1b.c:107-115 | on a set of keys the comparison is a total preorder if and only if the keys fit into a half circle of 32-bit words that starts at one of them |
| `IntKeys.NearCmp` | e2fsprogs/e2fsck/pass1b.c:107-115 | within a half circle the comparison is the difference of the places on it |
| `KeyTable.SearchRank` | e2fsprogs/e2fsck/pass1b.c:129-131 | in a half circle the search with dict_int_cmp finds the entry whose key differs by a multiple of 2^32, if there is one |
| `KeyTable.HoleRank` | e2fsprogs/e2fsck/pass1b.c:132-138 | there an insertion goes between the smaller and the greater places on the circle |
| `KeyTable.Table.Find` | e2fsprogs/e2fsck/pass1b.c:129-131 | for any keys, what the search with dict_int_cmp reaches; in a half circle, the record filed under a key that differs by a multiple of 2^32, and no other |
| `KeyTable.Table.AllocInsert` | e2fsprogs/e2fsck/pass1b.c:132-138 | for any keys, a new node and record where the search for a place ends; in a half circle, one record for each place on it |
| `KeyTable.Table.Walk` | e2fsprogs/e2fsck/pass1b.c:500-506 | the records in dictionary order, as many as dict_count says |
| `DupIndex.Index.FileCluster` | e2fsprogs/e2fsck/pass1b.c:129-144 | for any claim, the inode goes to the head of the list of the record that dict_lookup finds, or of a new one; nothing else changes |
| `DupIndex.Index.FileInode` | e2fsprogs/e2fsck/pass1b.c:146-168 | for any claim, the cluster goes to the head of the inode's list; the root directory counts as found when its record is made |
| `DupIndex.Index.AddDupe` | e2fsprogs/e2fsck/pass1b.c:120-169 | for any claim, what the two lookups reach decides; for keys in half circles, both dictionaries gain exactly this claim, with right counters |
| `DupIndex.Index.AddAll` | e2fsprogs/e2fsck/pass1b.c:120-169 | after any claims the dictionaries are linked; for keys in half circles, each inode's record is exactly its claims and each cluster's record exactly the claims on clusters that differ by a multiple of 2^32 |
| `DupIndex.RecordsExactly` | e2fsprogs/e2fsck/pass1b.c:120-169 | every cluster's record holds the claims on that cluster alone if and only if no two claimed clusters differ by a multiple of 2^32 |
| `DupIndex.CloseClaims` | e2fsprogs/e2fsck/pass1b.c:120-169 | clusters and inodes less than 2^31 apart: every record is that of its own key, and what pass 1d reports is exactly sharing |
| `DupIndex.Index.AddShared` | e2fsprogs/e2fsck/pass1b.c:536-545 | one inode is added once, and there is room for it |
| `DupIndex.Index.Shared` | e2fsprogs/e2fsck/pass1b.c:500-546 | exactly the other inodes that claim a cluster the dictionary takes for one of this inode's, each once, fewer than were allocated |
| `DupIndex.MeetingIsSharing` | e2fsprogs/e2fsck/pass1b.c:500-546 | without collisions that is exactly sharing a cluster |
| `DupIndex.Index.ReportAll` | e2fsprogs/e2fsck/pass1b.c:500-556 | in dictionary order, a report for exactly the inodes with claims other than 1 and 7, with the right list; a file is in order if and only if all its claims are on clusters outside the file system that no other claim is taken for; the metadata flag is that of all files so far |
| `DupIndex.FarClusters` | e2fsprogs/e2fsck/pass1b.c:120-546 | clusters 1 and 2^32 + 1: two inodes that share nothing are reported as sharing |
| `MissedKey.Missed` | e2fsprogs/e2fsck/pass1b.c:120-138 | after eight claims the dictionary holds cluster 0 and the search does not find it |
| `MissedKey.Unsuspicious` | e2fsprogs/e2fsck/pass1b.c:120-138 | neighbours in that dictionary are in order, so dict_verify has no objection |
| `MissedKey.MissedRun` | e2fsprogs/e2fsck/pass1b.c:120-169 | the eight claims and a ninth on cluster 0: it gets a second record, beside the first |
| `DupIndex.FlagExactly` | e2fsprogs/e2fsck/pass1b.c:483-556 | the flag is the file's own if and only if it holds of the file or of none before |
| `DupIndex.StickyFlag` | e2fsprogs/e2fsck/pass1b.c:483-556 | a report that carries the flag of an earlier file |
| `ArgvParse.Parse` | e2fsprogs/e2fsck/argv_parse.c:46-126 | the pointers stand for exactly the words of the recursive reading; the buffer of strlen+1 bytes and the vector are never overrun |
| `ArgvParse.LineBack` | e2fsprogs/e2fsck/argv_parse.c:46-126 | every argument list printed with quotes is read back |
| `ArgvParse.BareLineBack` | e2fsprogs/e2fsck/argv_parse.c:59-113 | every list of words that are not empty is read back from a line without quotes, with any white space between them, newline, tab and backspace as letters behind a backslash, and any other character behind one or plain |
| `ArgvParse.LastBackslash` | e2fsprogs/e2fsck/argv_parse.c:99-103 | a backslash at the end stands for itself |
| `ChangeFile.ParseLog` | WinFlashTool/ParsedChangeFile.cs:69-101 | accepts exactly the logs whose operations are in bounds, and yields the operation of each entry |
| `ChangeFile.SizeKept` | WinFlashTool/ParsedChangeFile.cs:77-91 | a size is kept if and only if it is below 2^31 |
| `ChangeFile.SizeLost` | WinFlashTool/ParsedChangeFile.cs:77-91 | an entry of 2^32 + 1 bytes becomes one byte |
| `ChangeFile.AreasConsecutive` | WinFlashTool/ParsedChangeFile.cs:77-101 | of an accepted log no area offset wraps: payloads follow each other inside the file |
| `ChangeFile.AcceptedFits` | WinFlashTool/ParsedChangeFile.cs:93-99 | an accepted operation of a size that is not negative lies inside device and file |
| `ChangeFile.Open` | WinFlashTool/ParsedChangeFile.cs:41-103 | accepts exactly the files with a good footer and a good log |
| `ChangeFile.Apply` | WinFlashTool/ParsedChangeFile.cs:163-195 | every device byte is that of the last operation covering it, all others are untouched, and no stale byte of the reused buffer is written; an operation of negative size ends the replay |
| `ChangeFile.Replay` | WinFlashTool/ParsedChangeFile.cs:41-195 | of an accepted file whose sizes and offsets are not cut, every device byte is the payload byte of the last log entry covering it, and all others are untouched |
| `HookedIo.EntriesBack` | e2fsprogs/resize/hooked_io.cpp:18-24 | the reader finds exactly the entries logged: offset and size low byte first, with the zero flag in bit 62 and the small flag in bit 63 |
| `HookedIo.FooterExactly` | e2fsprogs/resize/hooked_io.cpp:146-167 | the reader takes the footer, and finds the log, if and only if log and footer have at most 2^31 bytes |
| `HookedIo.HookedFile.constructor` | e2fsprogs/resize/hooked_io.cpp:82-134 | an image without changes |
| `HookedIo.HookedFile.Seek` | e2fsprogs/resize/hooked_io.cpp:169-180 | puts offset and file pointer in step |
| `HookedIo.HookedFile.ReadNextSector` | e2fsprogs/resize/hooked_io.cpp:39-79 | when a sector can be had, and that it is the one seen, unless the file pointer is elsewhere and the sector comes from the image |
| `HookedIo.HookedFile.Read` | e2fsprogs/resize/hooked_io.cpp:182-205 | refuses parts of sectors; succeeds exactly when all sectors can be had; returns what was last written or the image, except that a first sector from the image is the one at the file pointer |
| `HookedIo.HookedFile.Write` | e2fsprogs/resize/hooked_io.cpp:250-294 | refuses parts of sectors; otherwise the bytes seen are those written and all others stay; one log entry, with the zero flag if and only if all bytes are zero; the log still describes exactly the bytes in the change file |
| `HookedIo.HookedFile.WriteByte` | e2fsprogs/resize/hooked_io.cpp:207-248 | any bytes anywhere: exactly they change, sectors that cannot be read stop it, and the log describes the sectors rewritten |
| `HookedIo.HookedFile.Close` | e2fsprogs/resize/hooked_io.cpp:146-167 | payloads, log and footer |
| `HookedIo.ShownGrows` | e2fsprogs/resize/hooked_io.cpp:250-294 | one more entry with its payload behind the others gives its bytes and leaves the rest |
| `HookedIo.ReplayShows` | WinFlashTool/ParsedChangeFile.cs:163-195 | what a replay leaves on the device is, byte by byte, what the log says, and what was there where it says nothing |
| `HookedIo.CloseAndReplay` | WinFlashTool/ParsedChangeFile.cs:41-195 | the change file of any run is refused exactly when its log is too long or leaves the device; otherwise the device holds what resize2fs saw in every sector written, and what it held elsewhere |
| `HookedIo.Perform` | e2fsprogs/lib/ext2fs/unix_io.c:167-183 | seeking first, a read returns what is seen and a write changes exactly its bytes |
| `HookedIo.Run` | e2fsprogs/lib/ext2fs/unix_io.c:131-310 | in any run every read returns what was last written, and the end shows all writes in order |
| `HookedIo.ResizeAndFlash` | WinFlashTool/ParsedChangeFile.cs:41-195 | a device that held the image holds, after the replay, the image with all writes of the run in their order |
| `HookedIo.ReadExactly` | e2fsprogs/resize/hooked_io.cpp:182-205 | a read returns what is seen if and only if its first sector is not the image's, or the image holds the same bytes at the file pointer |
| `HookedIo.StaleRead` | e2fsprogs/resize/hooked_io.cpp:250-294 | a write, then a read without a seek, returns the sector before |

## Left out

- dict.c: node allocation and freeing, the data field, maxcount, dict_prev, dict_last, dict_contains, and dict_free_nodes, after which the sentinel's fields are stale.
- dict.c: the comment on dict_prev promises the sentinel where the code returns a null pointer; it is not modelled.
- Dict.Dict.Lookup: with duplicates allowed, a comparison that is no total preorder; without them Seek covers every comparison.
- EaRefcount.Refcount.constructor: allocation succeeds; ea_refcount_validate and the get_size call are left out.
- EaRefcount.Refcount.Store: counts are unbounded integers; the source's int overflow is not modelled.
- Pass1.ExtAttr.CheckExtAttr: both stores and the EA map exist from the start instead of being created when first needed; the inspection of the block's contents is one boolean, and prompts are answered yes.
- Pass1.BlockMaps.MarkBlockUsed: bitmaps are sets, and the creation of the duplicate map succeeds.
- Extents.CoalescedBlocks: leaves in any order end below 2^32; for leaves in order LostExactly covers the whole range.
- Extents.Rebuild: the extent count is below 2^32, the width of its field; the calls into the extent library, the free-block accounting of the inode and its quota are not part of this model.
- Journal.Log.AddBlocks: UUID bytes, checksums, byte order and timestamps are left aside; tag, entry and tail sizes are parameters.
- Journal.GuessRight: when the estimate is one short of the blocks needed is shown for data-only transactions in one descriptor block.
- Journal.Log.Session: a transaction id does not wrap from 2^32 - 1 to 0 within the run; Transact, WriteThenScan and FindHead cover that case.
- Journal.Log.FindHead: on images that are not a log followed by a block that ends it nothing is claimed, including termination.
- Journal.DumpJournal: the options that select blocks or dump old transactions, and all printing.
- FsStress.Stress.Create: names are a tag and a number; padding, long-path splitting and the extended attributes that also draw numbers are left out, and so are the operations that change no list.
- DupIndex.Index.AddDupe: for keys that do not fit into a half circle of 32-bit words the index is described by what each lookup reaches, not by the claims; the stored inode copy is left out.
- DupIndex.Index.Shared: keys in half circles; outside them a lookup can miss a record.
- DupIndex.Index.ReportAll: cloning and deleting files between reports, which change the bad counts, are left out.
- ArgvParse.Parse: allocation succeeds.
- HookedIo.HookedFile.constructor: the parsing of the path into image, offset and size, the size limit, and the name of the change file.
- HookedIo.HookedFile.Seek: seeking from elsewhere than the start, and offsets that do not fit a signed 64-bit number.
- HookedIo.HookedFile.Write: writes to the change file succeed.
- HookedIo.Run: the image ends with a whole sector; of others Read and WriteByte say when they stop, and CloseAndReplay holds of them too. The block cache of unix_io is left out.
- ChangeFile.Apply: sector alignment, partial reads and writes by the device, and what a device does with a count beyond the buffer it is given.
- WinFlashTool forms and device access, libext2fs, the block iterator, tdb, blkid, uuid, message expansion and progress output.
- dirinfo.c and dx_dirinfo.c: the same sorted array as ea_refcount.c in a simpler form.
