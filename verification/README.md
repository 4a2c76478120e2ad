# A verified model of the hard core of the Zarafa collaboration platform

Dafny models of the parts of the repository whose behaviour is hardest to see from reading one
function, with proofs of what they promise:

* **The key table** (`common/ECKeyTable.cpp`): rows in sort order in a parent-linked AVL tree below
  a sentinel, with counts of visible rows, a cursor, bookmarks and an index by id. `Row` and
  `KeyTable` are classes that the methods change in place, as the source does. The reasoning is on
  values: `Memory.Snap` is what the rows hold, `RowTree.Tree` is the shape, `RowTree.Ctx` is the way
  from a node up to the sentinel, and `Memory.Sound` says that the links, heights and counts of all
  rows are those of the shape. To callers the table is a list of entries, `KeyTable.View`;
  `EntryLists` states what each change does to such a list. `RowOrder` holds the comparison of sort
  keys, `Counting`, `Avl`, `Rotations` and `Rebalancing` the repair of the tree, `Navigation`,
  `Search`, `RankSelect` and `BackwardReads` the ways through it, `Editing`, `Removal` and `Hiding`
  the changes.
* **Three protocols** (`common/ECFifoBuffer.cpp`, `common/ECThreadPool.cpp`): the buffer, the pool of
  workers and the task that others wait for (`WaitableTasks`). Each critical section is a method,
  specified by a function on the shared state; `FifoRuns`, `PoolRuns` and `TaskRuns` are the step
  systems of all interleavings. `Serializer` sits on the buffer, and `SerializerRuns` is the step
  system of two serializers at its ends.
* **Object lifetimes** (`common/ECUnknown.cpp`): `ObjectGraph`, reference counts and the cascade of
  destructions in a forest of parents and children, and the runs of calls that make, hold, hang and
  release objects.
* **Cache and memory block** (`common/ECCache.h`, `common/ECMemStream.cpp`): `Caches` against a map,
  `MemBlocks` against a byte sequence.
* **Transformations**: the XML writer for multi-status documents (`DavItems`, `DavWriter`,
  `DavPrinter`, `DavTexts`, `DavLists`), publishing a calendar as a merge of two ordered maps (`CalendarMerge`,
  `SortedMaps`, `Hex`), configuration loading and reloading (`ConfigText`, `Configs`, `ConfigFiles`,
  `ConfigStores`, `ConfigParams`), base64 and the password mask (`Base64`, `Crypt`, `Bits`), and the
  byte search (`MemSearch`).

Where the code does less than it seems to, the exact condition is proved, with an input at which it
fails:

* `FifoRuns.StuckOnlyWithoutRoom`: both ends of a buffer can wait for each other just when its
  capacity is zero (`FifoRuns.NoRoomSticks`).
* `PoolRuns.BoundBreaksOnlyAtWrap`: the number of exits asked for can exceed the number of workers
  in one call only, `setThreadCount(0xFFFFFFFF)` with no worker to stay; the unsigned comparison at
  `common/ECThreadPool.cpp:122` takes it for "one less" (`PoolRuns.WrapBreaksBound`). The step system
  leaves that call aside.
* `PoolRuns.StrandsOnlyWithMore`: a caller that waits in `setThreadCount` can be left asleep for good
  just when two or more may wait at a time, since a worker that leaves wakes only one of them
  (`PoolRuns.TwoCallersStrand`).
* `PoolRuns.ReturnsWithOwn`: `ASSERT(threadCount() == ulThreadCount)` (`common/ECThreadPool.cpp:158`)
  holds for a waiting call just when the last resize asked for its number
  (`PoolRuns.OtherResizeBreaks`).
* `SerializerRuns.ArraysArrive`: a thread that writes arrays and one that reads them both finish just
  when the buffer has any room or there is no byte to send.
* `BackwardReads.BackwardExact`: a backward read gives the ids in front of the cursor just when the
  rows from the cursor to the top row of the tree are enough, or nothing is listed in front of the
  top row; and, with the top row behind the cursor, just when no more is asked for than there is,
  since the id of the sentinel is listed next (`BackwardReads.TopStopsRead`).
* `Caches.ReplacementExact`: replacing a value is accounted exactly just when the difference of the
  sizes fits an `int` (`Caches.ReplacementDrifts`); the invariant `Accounted` is exact for smaller
  sizes and holds modulo 2^32 otherwise.
* `DavWriter.FinishedAsMeant`: a document is written as its item lists mean just when no list has an
  item named "ace" directly behind an element of its own depth, or behind a text one level deeper
  (`DavItems.IsBad`, `caldav/WebDav.cpp:1214`); otherwise that item is written inside the element
  still open at its depth (`DavItems.AceMisnests`). The text nests to zero in any case
  (`DavWriter.FinishedBalanced`), as the end of the document closes what is still open. No caller in
  the repository puts an "ace" into a list.
* `Hex.TextRoundTrip`: a text comes back from `hex2bin` just when it is an even number of upper case
  digits (`Hex.LowerCaseLost`).
* `MemSearch.ShortHaystack`: the early return of `memsubstr` says "found" just when the sizes differ
  by a multiple of 2^32 (`MemSearch.ShortHaystackLies`).

Other places where the code differs from what one would expect, kept as they are: modifying a row
whose sort key is unchanged does not touch its hidden flag (`EntryLists.Rewritten`); the entries a
cache drops for their age stay counted in its size (`Caches.Cache.Accounted`); a configuration file
that cannot be opened fails once and succeeds when it is named again (`ConfigFiles.ReadFile`); a
reload whose file has become a directory resets the settings to their defaults and then fails
(`ConfigStores.ConfigStore.ReloadSettings`); a
setting taken from the environment is not converted to a number of bytes (`Configs.Stored`); an
unknown option counts as accepted (`Configs.Judge`); arguments that are no long options end up in
reverse order (`ConfigParams.Moved`); the serializer advances its counter when a write fails.

Assumptions taken from outside: text collation is a total preorder and doubles are ordered
(`RowOrder.Lawful`); all sort keys of a table use the same flags at the same position
(`RowOrder.Conforms`); the value of a size, the environment, the completion of a path and the
conversion from windows-1252 are parameters.

`dafny verify dfyconfig.toml` checks the whole project.

## Model

| member | source | states |
|---|---|---|
| RowOrder.RowCompare | common/ECKeyTable.cpp:204-271 | the first column that differs decides: the smaller data first, or the larger in a descending column unless the order is ignored; if no common column differs, fewer columns first. Raw data go by bytes, floats by value, texts by collation, and a tie by length |
| RowOrder.LessMeans | common/ECKeyTable.cpp:204-271 | the recursive order that all other statements use is that order |
| RowOrder.EqualMeans | common/ECKeyTable.cpp:204-271 | neither of two keys is before the other just when they have as many columns and none differs |
| RowOrder.SharesMeans | common/ECKeyTable.cpp:1345-1351 | sharing a prefix means to have all its columns, none of them different |
| RowOrder.LessAsymmetric | common/ECKeyTable.cpp:204-271 | of two keys with the same flags at most one is before the other |
| RowOrder.NotLessTransitive | common/ECKeyTable.cpp:204-271 | "not before" is transitive, so the comparison is a strict weak order |
| RowOrder.ColumnChain | common/ECKeyTable.cpp:215-239 | column comparisons compose, also through equal columns |
| RowOrder.RowComparePrefix | common/ECKeyTable.cpp:274-282 | the comparison on the first columns is the comparison of the cut keys |
| RowOrder.PrefixBefore | common/ECKeyTable.cpp:274-282 | a row is before a header just when its prefix is |
| RowOrder.PrefixMonotone | common/ECKeyTable.cpp:274-282 | prefixes of ordered keys are ordered |
| Counting.UpdateCounts | common/ECKeyTable.cpp:337-374 | from any place whose counts are stale, also a detached one, the walk makes heights and visible-row counts of the whole way up exact and touches nothing else |
| Counting.CountStep | common/ECKeyTable.cpp:339-371 | one recounted row settles its subtree and leaves only its parent stale |
| Avl.RestructuredInOrder | common/ECKeyTable.cpp:1233-1260 | restructuring keeps the order of all rows |
| Avl.Mended | common/ECKeyTable.cpp:1233-1260 | a subtree whose children are balanced and differ by two becomes balanced, one lower or as high as before |
| Avl.MendedAbove | common/ECKeyTable.cpp:1262-1268 | a mended subtree leaves at most the parent to be mended |
| Avl.BalancedIsShallow | common/ECKeyTable.cpp:1233-1268 | a balanced tree has at least 2^(h/2) - 1 rows for its height h |
| Avl.HeightAbove | common/ECKeyTable.cpp:339-371 | no way from the top to a free place is longer than the height |
| Avl.HeightReached | common/ECKeyTable.cpp:339-371 | one is as long |
| Rotations.RotateL | common/ECKeyTable.cpp:1130-1161 | links, sides, heights and counts of all rows are those of the rotated tree; no hidden flag changes |
| Rotations.RotateR | common/ECKeyTable.cpp:1164-1195 | the same, mirrored |
| Rebalancing.RotateLR | common/ECKeyTable.cpp:1197-1203 | the double rotation gives the tree rotated twice |
| Rebalancing.RotateRL | common/ECKeyTable.cpp:1205-1211 | the same, mirrored |
| Rebalancing.GetBalance | common/ECKeyTable.cpp:1219-1231 | the difference of the real heights of the subtrees |
| Rebalancing.Restructure | common/ECKeyTable.cpp:1233-1260 | one of four rotations, or none, as the balances say |
| Rebalancing.RepairStep | common/ECKeyTable.cpp:1262-1268 | one round of the repair walk keeps what the walk knows and moves one step up |
| Rebalancing.RestructureRecursive | common/ECKeyTable.cpp:1262-1268 | the walk up to the sentinel keeps the order of rows and leaves the whole tree balanced, if the start was balanced inside |
| Navigation.Successor | common/ECKeyTable.cpp:1054-1073 | the next row in order, null behind the last one |
| Navigation.CountIsShown | common/ECKeyTable.cpp:343-358 | the count of a subtree is the number of its visible rows |
| Navigation.RankAt | common/ECKeyTable.cpp:972-1001 | the number of a row is the visible rows before its subtree and in its left subtree |
| Search.LowerBound | common/ECKeyTable.cpp:1436-1460 | the first row not before a key, as a linear scan finds it |
| Search.FindSlot | common/ECKeyTable.cpp:574-593 | the free child place behind all rows that are not greater |
| RankSelect.CurrentRow | common/ECKeyTable.cpp:972-1001 | the number of a row is the number of visible rows before it; the sentinel has 0, the end the number of all |
| RankSelect.Select | common/ECKeyTable.cpp:915-944 | the descent ends on a row with the number it was asked for, or at the end |
| RankSelect.ClampNearest | common/ECKeyTable.cpp:873-878 | a row number is cut to the nearest one in the table |
| RankSelect.Collect | common/ECKeyTable.cpp:1026-1043 | the reading loop lists the visible rows, or all, from a position on, as many as asked for or to the end, and stops right behind the last one |
| RankSelect.ReadsFromNumber | common/ECKeyTable.cpp:1010-1052 | a read from the row with number k lists the visible rows with numbers from k on |
| RankSelect.CollectReads | common/ECKeyTable.cpp:1024 | cutting the number of rows to the number of visible ones loses nothing |
| BackwardReads.Prior | common/ECKeyTable.cpp:1075-1096 | the row in front, the sentinel in front of the first row, null in front of the sentinel |
| BackwardReads.CollectBack | common/ECKeyTable.cpp:1026-1043 | the backward loop lists the ids towards the front until there are enough or the top row was read, or behind the sentinel; where the cursor is left |
| BackwardReads.BackIsReversed | common/ECKeyTable.cpp:1026-1043 | rows are listed backwards in the reverse of the order of a forward read |
| BackwardReads.BackwardExact | common/ECKeyTable.cpp:1036-1040 | exactly when a backward read gives the ids in front of the cursor |
| BackwardReads.BackContinues | common/ECKeyTable.cpp:1026-1043 | a read that stopped because there was enough leaves the cursor so that the next one goes on from there |
| BackwardReads.TopStopsRead | common/ECKeyTable.cpp:1036-1040 | two rows: from the second, on top, a read misses the first; from the first it finds the sentinel |
| Editing.Insert | common/ECKeyTable.cpp:574-629 | the new row goes behind all that are not greater, the tree stays sound and balanced, and the id reported is that of the row in front, although it is found before rebalancing |
| Editing.ClimbLeft | common/ECKeyTable.cpp:597-609 | climbing from a left side ends at the row in front |
| Removal.RemoveShallow | common/ECKeyTable.cpp:398-439 | taking out a row with at most one child keeps the tree sound and balanced |
| Removal.FindPredecessor | common/ECKeyTable.cpp:443-447 | the last row of the left subtree |
| Removal.DeepInOrder | common/ECKeyTable.cpp:440-479 | putting the predecessor in the place of a row takes just that row out of the order |
| Removal.FirstWalk | common/ECKeyTable.cpp:481-487 | what the first repair walk, from the predecessor, finds |
| Removal.SecondWalk | common/ECKeyTable.cpp:481-487 | what the second repair walk, from the old parent of the predecessor, finds |
| Removal.RepairDeep | common/ECKeyTable.cpp:481-487 | the two walks together leave the tree balanced |
| Removal.RemoveDeep | common/ECKeyTable.cpp:440-487 | taking out a row with two children keeps the tree sound and balanced |
| Removal.Remove | common/ECKeyTable.cpp:397-488 | in all three cases the tree stays sound and balanced and loses just that row; the row itself still points to rows of the tree |
| Hiding.MarkHidden | common/ECKeyTable.cpp:1353-1356 | a changed hidden flag is counted again everywhere, other flags stay |
| Hiding.PrefixBlock | common/ECKeyTable.cpp:1345-1351 | the rows before the first one beyond the prefix are just those that share it |
| Hiding.HideBlock | common/ECKeyTable.cpp:1340-1362 | every row behind the header that shares its prefix becomes hidden and is listed, no other; tells whether the cursor was among them |
| Hiding.SkipHidden | common/ECKeyTable.cpp:1364-1368 | the first visible row from a position on |
| Hiding.UnhideBlock | common/ECKeyTable.cpp:1402-1419 | of the rows that share the prefix those with as many columns as the first one become visible |
| Hiding.ReadBlock | common/ECKeyTable.cpp:1299-1308 | the header and the rows behind it that share its prefix |
| Hiding.FreeAll | common/ECKeyTable.cpp:671-700 | the depth-first loop ends with nothing below the sentinel |
| EntryLists.PutDetermined | common/ECKeyTable.cpp:504-638 | what an add or modify leaves and reports is determined by the list before it |
| EntryLists.PreviousIsInFront | common/ECKeyTable.cpp:529-556 | the id reported is that of the entry in front of the updated one, or (0,0) |
| EntryLists.ShownAreVisible | common/ECKeyTable.cpp:343-358 | the rows shown are those of the entries that are not hidden, in order |
| EntryLists.VisibleMembers | common/ECKeyTable.cpp:1031-1034 | the visible ids are just those of entries that are not hidden |
| EntryLists.AddThenDelete | common/ECKeyTable.cpp:391-638 | deleting an id that was just added gives the list back |
| EntryLists.OneSlot | common/ECKeyTable.cpp:574-593 | a sort key has one place in a list |
| EntryLists.Predecessor | common/ECKeyTable.cpp:529-549 | the id in front of a row that stays where it is |
| KeyTables.KeyTable.constructor | common/ECKeyTable.cpp:310-322 | an empty table with the cursor before the first row |
| KeyTables.KeyTable.ViewIsSorted | common/ECKeyTable.cpp:377-660 | the list is in sort order and every id occurs once, in every state a method leaves |
| KeyTables.KeyTable.VisibleKeysAre | common/ECKeyTable.cpp:1026-1043 | reads without hidden rows list the ids of the entries that are not hidden |
| KeyTables.KeyTable.SeekId | common/ECKeyTable.cpp:716-736 | found just when the list has the id; then the cursor is on its row |
| KeyTables.KeyTable.GetRowCount | common/ECKeyTable.cpp:953-969 | the number of visible rows and the number of the cursor |
| KeyTables.KeyTable.GetBookmark | common/ECKeyTable.cpp:738-765 | the present number of a bookmarked row, and whether it has moved |
| KeyTables.KeyTable.SeekRow | common/ECKeyTable.cpp:845-950 | from start, cursor, end or bookmark, in 32-bit arithmetic: the cursor is on a row with the aimed number, cut to the table, and on the sentinel just if no row is visible; a moved bookmark is reported |
| KeyTables.KeyTable.AimsMean | common/ECKeyTable.cpp:860-878 | without an overflow, a seek aims at the start, cursor, end or bookmark plus the offset |
| KeyTables.KeyTable.OneNumber | common/ECKeyTable.cpp:972-1001 | a live position has one number, at most the number of visible rows |
| KeyTables.KeyTable.QueryRows | common/ECKeyTable.cpp:1010-1052 | a forward read lists the ids from the cursor on, as many as asked for and visible rows allow, or to the end, and leaves the cursor right behind them or where it was |
| KeyTables.KeyTable.QueryRowsBack | common/ECKeyTable.cpp:1010-1052 | a backward read starts at the cursor, or seeks from an end of the table, and lists and stops as its loop does; the cursor is left there or where it was |
| KeyTables.KeyTable.ReadAfterSeek | common/ECKeyTable.cpp:845-1052 | rank and select are inverse: a read after a seek to k gives the visible ids k to min(k+n, count) |
| KeyTables.KeyTable.DeleteRow | common/ECKeyTable.cpp:391-498 | removes just that row; bookmarks on it go, others stay; the cursor stays, or is live if it was on the row |
| KeyTables.KeyTable.DeleteId | common/ECKeyTable.cpp:391-506 | deletes the entry with an id, or reports that there is none; bookmarks on it go, the cursor stays if it was elsewhere |
| KeyTables.KeyTable.PutKnown | common/ECKeyTable.cpp:514-572 | an entry with an equal sort key stays as it is, any other is deleted and inserted anew; the cursor follows it, bookmarks on the old row go |
| KeyTables.KeyTable.Put | common/ECKeyTable.cpp:507-638 | add or modify, with action, reported id, a cursor that follows its row, and bookmarks that go with a replaced row only |
| KeyTables.KeyTable.UpdateRow | common/ECKeyTable.cpp:377-660 | every change refines the change of the plain sorted list, keeps the whole table invariant, and says what becomes of cursor and bookmarks |
| KeyTables.KeyTable.MarksKept | common/ECKeyTable.cpp:493-495 | bookmarks on other rows stay as they are; those on the row go, if it goes or is replaced |
| KeyTables.KeyTable.CursorKept | common/ECKeyTable.cpp:644-646 | only a cursor on a replaced row moves, to the new one |
| KeyTables.KeyTable.HideRows | common/ECKeyTable.cpp:1316-1370 | hides and lists the entries behind the header that share its prefix; a hidden cursor goes to the next visible row behind them |
| KeyTables.KeyTable.UnhideRows | common/ECKeyTable.cpp:1373-1427 | opens the first layer behind a visible header; the cursor ends behind the block, or on the header if that is hidden |
| KeyTables.KeyTable.GetRowsBySortPrefix | common/ECKeyTable.cpp:1276-1314 | lists the header and the entries that share its prefix; the cursor stays |
| KeyTables.KeyTable.LowerBound | common/ECKeyTable.cpp:1430-1465 | the cursor is on the first entry not before the key |
| KeyTables.KeyTable.FindKey | common/ECKeyTable.cpp:1468-1502 | the first entry with an equal key if there is one; the cursor stays |
| KeyTables.KeyTable.CreateBookmark | common/ECKeyTable.cpp:767-800 | a new mark on the cursor with its number, unless there are 100 already |
| KeyTables.KeyTable.FreeBookmark | common/ECKeyTable.cpp:802-821 | forgets one mark, or reports that it is unknown |
| KeyTables.KeyTable.Clear | common/ECKeyTable.cpp:666-714 | an empty, valid table |
| Fifo.FifoBuffer.WriteSection | common/ECFifoBuffer.cpp:82-109 | one critical section of a write inserts what fits, wakes the reader, and returns or sleeps |
| Fifo.FifoBuffer.ReadSection | common/ECFifoBuffer.cpp:155-181 | one critical section of a read takes what is there, wakes the writer, and returns or sleeps |
| Fifo.FifoBuffer.Close | common/ECFifoBuffer.cpp:199-216 | closes an end and wakes who may wait for it |
| FifoRuns.StepKeeps | common/ECFifoBuffer.cpp:60-216 | every action keeps the invariant: bounded storage, bytes put in equal bytes handed out and storage, a sleeping reader means empty and open, a sleeping writer full and open, and reports are true |
| FifoRuns.Run | common/ECFifoBuffer.cpp:60-216 | every run keeps the invariant |
| FifoRuns.StuckOnlyWithoutRoom | common/ECFifoBuffer.cpp:82-93 | both threads can sleep at once just when the capacity is zero |
| FifoRuns.ShortReadIsEnd | common/ECFifoBuffer.cpp:156-190 | a successful short read means the write end is closed and all bytes were delivered, for good once no write is in progress |
| FifoRuns.ClosedForGood | common/ECFifoBuffer.cpp:69-70 | nothing is put in after the write end was closed and the last write has ended |
| FifoRuns.SectionsEnd | common/ECFifoBuffer.cpp:82-181 | every section brings the calls closer to their end or to sleep |
| FifoRuns.MatchedCallsEnd | common/ECFifoBuffer.cpp:60-190 | with any room, in any order, a write and a read of matching sizes both end successfully, the read with the bytes of the write |
| FifoRuns.EndsClosed | common/ECFifoBuffer.cpp:199-216 | an end is closed just when some call closed it |
| FifoRuns.ClosedEndRefuses | common/ECFifoBuffer.cpp:63-70 | with its end closed, or a null pointer, a call is refused at once and nothing moves |
| FifoRuns.OpenReadServed | common/ECFifoBuffer.cpp:137-190 | a read call made while the read end is open is never refused, whatever happens to the write end: it is successful or, if it may, times out |
| FifoRuns.OpenWriteServed | common/ECFifoBuffer.cpp:60-128 | a write call made while the write end is open is refused only once the read end is closed |
| FifoRuns.ReadStored | common/ECFifoBuffer.cpp:155-190 | a read that finds enough, or the write end closed, gets the first bytes of the storage at once |
| FifoRuns.ReadsDrain | common/ECFifoBuffer.cpp:155-190 | after the write end was closed, reads of any sizes deliver the storage, in order |
| FifoRuns.AllDelivered | common/ECFifoBuffer.cpp:155-190 | and if they ask for enough, all that was ever put in |
| Serializer.FifoSerializer.Write | common/ECSerializer.cpp:197-243 | which calls of the buffer an array becomes, in network byte order, up to the first that fails, and the counter |
| Serializer.FifoSerializer.Read | common/ECSerializer.cpp:245-284 | what becomes of the bytes read, in network byte order, of short reads and of wrong sizes, and the counter |
| Serializer.SwapIsBigEndian | common/ECSerializer.cpp:217-232 | the conversion puts the most significant byte first, on hosts of either order |
| Serializer.NetworkOrder | common/ECSerializer.cpp:217-235 | every call has one number of the array, in network byte order |
| Serializer.ReadsNetworkOrder | common/ECSerializer.cpp:262-277 | the reader sees the big-endian numbers of the wire |
| Serializer.NumbersAt | common/ECSerializer.cpp:217-235 | the numbers of an array are those of its elements, one behind the other |
| Serializer.ShortOnTheWire | common/ECSerializer.cpp:218-221 | 258 travels as 1 and 2 |
| Serializer.ElementTravels | common/ECSerializer.cpp:217-228 | an element written by one host and read by another is the same number, whatever their byte orders |
| Serializer.ArrayTravels | common/ECSerializer.cpp:217-281 | so is every element of an array |
| Serializer.ItemTravels | common/ECSerializer.cpp:213-281 | so is an array of any of the four sizes |
| Serializer.StreamOfItems | common/ECSerializer.cpp:197-284 | on any run of the buffer, successful full reads get the numbers written at the same place, and the bytes received are the size of those items |
| Serializer.CountersAgree | common/ECSerializer.cpp:240-257 | after as many reads as writes the counters of both serializers are equal, and at any time the reader's is the size of the items read |
| SerializerRuns.CallsAsPromised | common/ECSerializer.cpp:197-243 | whatever happens to the buffer, the calls in its log are those that `Write` makes with these answers |
| SerializerRuns.MovesEnd | common/ECSerializer.cpp:197-284 | the moves of a thread that writes arrays and one that reads them come to an end |
| SerializerRuns.ArraysArrive | common/ECSerializer.cpp:197-284 | undisturbed, in any order of sections, both finish just when the buffer has any room or there is nothing to send; then every call was successful and every array arrived |
| ThreadPools.ThreadPool.Dispatch | common/ECThreadPool.cpp:94-109 | queues a task at the end, wakes a sleeping worker, joins those that left |
| ThreadPools.ThreadPool.Resize | common/ECThreadPool.cpp:118-150 | the three branches of a resize, in unsigned arithmetic |
| ThreadPools.ThreadPool.GetNextTask | common/ECThreadPool.cpp:227-252 | a worker leaves, sleeps or gets the first task |
| ThreadPools.ThreadPool.JoinTerminated | common/ECThreadPool.cpp:257-267 | joins and forgets the threads that left |
| PoolRuns.StepKeeps | common/ECThreadPool.cpp:94-309 | every action of workers, dispatchers and any number of waiting callers keeps the invariant: if a worker sleeps, the others are enough for all tasks and exits; tasks are handed out in order of dispatch, each once; exits never exceed workers; threads are joined once; a single waiting caller sleeps only for a reason |
| PoolRuns.RunKeeps | common/ECThreadPool.cpp:94-309 | so does every run |
| PoolRuns.WorkersTurn | common/ECThreadPool.cpp:227-252 | a worker leaves if an exit is asked for, even with tasks waiting; else it takes the oldest task, or sleeps |
| PoolRuns.ResizeKeeps | common/ECThreadPool.cpp:118-150 | after a resize exactly the asked number of workers is to stay |
| PoolRuns.BoundBreaksOnlyAtWrap | common/ECThreadPool.cpp:122-124 | the bound on exits holds just outside one call |
| PoolRuns.WrapBreaksBound | common/ECThreadPool.cpp:122-124 | that call, on an empty pool: one exit asked of no worker |
| PoolRuns.OwnStepsEnd | common/ECThreadPool.cpp:227-252 | runs of workers and waiting callers by themselves are finite |
| PoolRuns.RestMeans | common/ECThreadPool.cpp:227-252 | a pool is at rest just when no worker and no waiting caller can go on |
| PoolRuns.ResizeHeads | common/ECThreadPool.cpp:118-150 | a waiting resize sets out for its number, if no other call waits |
| PoolRuns.ResizeSettles | common/ECThreadPool.cpp:152-161 | undisturbed, it ends with exactly that number of live workers, in any order of steps, with all tasks handed out if any worker is left, and the call returned if it was the only one |
| PoolRuns.ReturnsWithOwn | common/ECThreadPool.cpp:152-158 | the assertion at the end of a waiting call holds just when the last resize asked for the number of that call, so whenever no other one came in between |
| PoolRuns.OtherResizeBreaks | common/ECThreadPool.cpp:152-158 | a run in which it does not hold: a call waits for one worker, another asks for none |
| PoolRuns.TwoCallersStrand | common/ECThreadPool.cpp:152-161 | with two callers, a run after which one sleeps for good although its number is reached |
| PoolRuns.StrandsOnlyWithMore | common/ECThreadPool.cpp:152-161 | a caller can be left behind just when two or more may wait at a time |
| WaitableTasks.WaitableTask.Wait | common/ECThreadPool.cpp:380-414 | true just when the state is one waited for; sleeps only if it is not |
| TaskRuns.StateChanges | common/ECThreadPool.cpp:357-370 | the task runs from each beginning to the end that follows, and both wake everybody |
| TaskRuns.SectionAnswers | common/ECThreadPool.cpp:380-414 | a call returns whether the state is one waited for; it sleeps only if it is not |
| TaskRuns.RunKeeps | common/ECThreadPool.cpp:357-414 | in every interleaving a sleeper is in a call that waits for other states than the present one |
| TaskRuns.DoneReleases | common/ECThreadPool.cpp:357-414 | once the task is done, and until it is begun again, a waiter for that is awake and its next section returns true, a late one too |
| TaskRuns.NobodyStranded | common/ECThreadPool.cpp:357-414 | when nobody can go on and the task is done, no call that waits for that is left |
| ObjectGraph.Unknown.AddRef | common/ECUnknown.cpp:50-58 | one more reference, nothing else |
| ObjectGraph.Unknown.Release | common/ECUnknown.cpp:60-82 | one reference less; an object without references and children goes, with exactly the parents that nothing holds any more |
| ObjectGraph.Unknown.Suicide | common/ECUnknown.cpp:182-199 | only an object without references and children is destroyed; the cascade is that of the specification |
| ObjectGraph.Unknown.RemoveChild | common/ECUnknown.cpp:105-132 | a child that was destroyed leaves the list, and the object follows if nothing holds it |
| ObjectGraph.Unknown.AddChild | common/ECUnknown.cpp:91-103 | a child is hung below an object; the graph stays a forest |
| ObjectGraph.Unknown.IsParentOf | common/ECUnknown.cpp:150-157 | walking up finds just the ancestors |
| ObjectGraph.Unknown.IsChildOf | common/ECUnknown.cpp:166-177 | searching down finds just the same, so the two agree |
| ObjectGraph.DestroyWorks | common/ECUnknown.cpp:105-199 | the cascade takes exactly the parents without references whose only child went, and ends at one that is still held; the rest stays a forest |
| ObjectGraph.AboveSomeChild | common/ECUnknown.cpp:166-177 | what is below an object is at or below one of its children |
| ObjectGraph.World.Create | common/ECUnknown.cpp:32-39 | a new object, held by nobody, in no family |
| ObjectGraph.StepMeans | common/ECUnknown.cpp:32-199 | what each call changes of holders, children and parents, and that it changes nothing else |
| ObjectGraph.RunKeeps | common/ECUnknown.cpp:32-199 | every run of calls from nothing keeps the live objects a forest |
| ObjectGraph.RunLeavesNone | common/ECUnknown.cpp:50-199 | no run leaves an object that was held once and that nothing holds any more |
| Caches.Cache.RemoveCacheItem | common/ECCache.h:129-141 | removes one entry with its sizes, or reports that there is none |
| Caches.Cache.ClearCache | common/ECCache.h:110-116 | nothing is left, and nothing is counted |
| Caches.Cache.GetCacheItem | common/ECCache.h:143-188 | a hit just when the key is there and younger than the maximum age, with the value added last; a miss by age drops just the entries that are too old |
| Caches.Cache.AddCacheItem | common/ECCache.h:202-230 | the value is there afterwards, unless the cache was too large and a purge took it; a purge takes every twentieth entry, just when the size of the table and the additional sizes is beyond the limit |
| Caches.Cache.Overwrite | common/ECCache.h:213-218 | replacing a value keeps the accounting |
| Caches.Cache.PurgeCache | common/ECCache.h:240-270 | removes exactly the given part of the entries, none accessed later than any that stays |
| Caches.Twentieth | common/ECCache.h:224-259 | five percent are the number of entries divided by 20 |
| Caches.Cache.Expire | common/ECCache.h:152-167 | drops exactly the entries that are too old |
| Caches.TotalWithout | common/ECCache.h:137-139 | the sum of sizes does not depend on the order of counting |
| Caches.ReplacementExact | common/ECCache.h:215 | the cast to `int` is harmless just when the difference fits |
| Caches.ReplacementDrifts | common/ECCache.h:215 | a value larger by 2^31 leaves the total wrong |
| MemBlocks.MemBlock.ReadAt | common/ECMemStream.cpp:90-103 | the bytes from a position on, as many as asked for or to the end |
| MemBlocks.MemBlock.WriteAt | common/ECMemStream.cpp:105-128 | the written bytes over the old ones, with a gap of zeros if needed; what was committed stays |
| MemBlocks.MemBlock.SetSize | common/ECMemStream.cpp:164-180 | cut off, or filled up with zeros |
| MemBlocks.MemBlock.GetSize | common/ECMemStream.cpp:182-187 | the length of the content |
| MemBlocks.MemBlock.Commit | common/ECMemStream.cpp:130-145 | remembers the content of a transacted block; without memory it has nothing committed any more |
| MemBlocks.MemBlock.Revert | common/ECMemStream.cpp:147-162 | goes back to exactly what was committed or created; without memory the content is gone |
| MemBlocks.Overwritten | common/ECMemStream.cpp:105-128 | every byte after a write: the new one, the old one or zero |
| MemBlocks.ReadsBack | common/ECMemStream.cpp:90-128 | a write reads back, what is in front stays, a gap reads as zeros |
| DavItems.ForestWritten | caldav/WebDav.cpp:1199-1262 | the preorder list of a forest means the forest, and is written as it just when it has no "ace" directly behind an element of its own depth, or behind a text one level deeper |
| DavItems.ListNests | caldav/WebDav.cpp:1208-1258 | a list leaves open exactly one element for each "ace" directly behind an element of its own depth, or behind a text one level deeper |
| DavItems.MeantStands | caldav/WebDav.cpp:1199-1262 | as meant, every item of a level list stands at its own depth |
| DavItems.WrittenStands | caldav/WebDav.cpp:1208-1258 | as written, just when there is no such "ace" |
| DavItems.AceMisnests | caldav/WebDav.cpp:1214 | two "ace" side by side: the second stands inside the first |
| DavItems.PlainForest | caldav/WebDav.cpp:1199-1262 | a forest without "ace" and without text at the top is written balanced, as itself |
| DavWriter.ResponseLeaves | caldav/WebDav.cpp:968-1022 | a response is balanced but for its item lists |
| DavWriter.PropStatLeaves | caldav/WebDav.cpp:1096-1188 | so is a property status |
| DavWriter.FinishedBalanced | caldav/WebDav.cpp:185-298 | a finished document closes every element, whatever its lists are |
| DavWriter.FinishedAsMeant | caldav/WebDav.cpp:185-298 | it is the document that was meant, and its root is closed by its own end tag, just when no list has such an "ace" |
| DavPrinter.Printer.WriteItems | caldav/WebDav.cpp:1199-1262 | the loops of the writer emit the specified tokens; no end tag is missing its element |
| DavPrinter.Printer.WriteProperty | caldav/WebDav.cpp:1122-1173 | one property with its items and values |
| DavPrinter.Printer.WriteProperties | caldav/WebDav.cpp:1032-1087 | the list of properties of a response |
| DavPrinter.Printer.WritePropStat | caldav/WebDav.cpp:1096-1188 | one property status |
| DavPrinter.Printer.WriteResponse | caldav/WebDav.cpp:968-1022 | one response |
| DavPrinter.Printer.WriteDocument | caldav/WebDav.cpp:185-298 | the whole document with its end, for level lists |
| DavPrinter.Printer.EndDocument | caldav/WebDav.cpp:275-277 | closes what is still open |
| DavTexts.FinishedTexts | caldav/WebDav.cpp:185-298 | a document has just the texts there are to write, under their names and in order: link and status where they are named, those of properties, items and values that are not empty, and property statuses |
| DavTexts.OnePrinted | caldav/WebDav.cpp:185-298 | one document in full |
| DavTexts.SomePrinted | caldav/WebDav.cpp:1122-1173 | its properties, with an item, an empty value and a text |
| DavLists.BuildReportSet | caldav/CalDavUtil.cpp:284-342 | the list is the preorder of four supported reports |
| DavLists.BuildACL | caldav/CalDavUtil.cpp:352-439 | the list is the preorder of ten privileges |
| DavLists.ListNames | caldav/CalDavUtil.cpp:284-439 | the names of the reports and privileges |
| DavLists.ReportsAt | caldav/CalDavUtil.cpp:284-342 | three items for every report, at depths 0, 1 and 2 |
| DavLists.PrivilegesAt | caldav/CalDavUtil.cpp:352-439 | two items for every privilege, at depths 0 and 1 |
| DavLists.BothListsNest | caldav/CalDavUtil.cpp:284-439 | both lists are written balanced, as their forests |
| CalendarMerge.PlanSettles | caldav/iCal.cpp:257-320 | the calls of the walk leave every id as the merge promises |
| CalendarMerge.PlanCalls | caldav/iCal.cpp:257-320 | exactly the missing ids are added, the surplus deleted, and those with other times modified |
| CalendarMerge.PlanOnce | caldav/iCal.cpp:257-320 | at most one call is about any id |
| CalendarMerge.BuildUpload | caldav/iCal.cpp:204-213 | the map of the upload has the last event of every id |
| CalendarMerge.BuildServer | caldav/iCal.cpp:226-255 | the map of the folder has exactly its ids |
| CalendarMerge.Folder.ModifyMessage | caldav/iCal.cpp:390-421 | one modification; private entries of others are refused |
| CalendarMerge.Folder.DelMessage | caldav/iCal.cpp:465-520 | one deletion; private entries of others are skipped |
| CalendarMerge.Folder.HandlePost | caldav/iCal.cpp:157-325 | a run without errors leaves the merged folder; after an error just the calls so far were done; the loop ends |
| CalendarMerge.MergedIds | caldav/iCal.cpp:257-320 | the ids afterwards are those of some event of the upload, and private entries of others |
| CalendarMerge.UploadMeans | caldav/iCal.cpp:204-213 | the upload's word on an id is its last event with that id; entries that are no events have no say |
| CalendarMerge.MergedEntries | caldav/iCal.cpp:257-320 | an uploaded id has the content of its last event, unless the folder had an entry of the same time; other entries stay as they were or go |
| CalendarMerge.PlanMeans | caldav/iCal.cpp:257-320 | the calls on the entries themselves: delete what no event has, modify what has another time, add what is missing |
| CalendarMerge.RepeatedUpload | caldav/iCal.cpp:257-320 | the same upload again adds nothing and deletes only what is skipped |
| SortedMaps.PutSorted | caldav/iCal.cpp:212 | an ordered list of pairs behaves as a map |
| SortedMaps.BeforeMeans | caldav/iCal.cpp:212 | the order of keys: at the first difference the smaller character, or the shorter key |
| Hex.ToHex | common/stringutil.cpp:441-456 | the loop gives the digits of every byte |
| Hex.HexAt | common/stringutil.cpp:441-456 | two digits for every byte, the upper half first |
| Hex.FromHex | common/stringutil.cpp:405-421 | the loop gives the bytes of every pair, nothing for an odd length |
| Hex.HexValue | common/stringutil.cpp:395-403 | the value of a digit, in either case |
| Hex.BytesAt | common/stringutil.cpp:405-421 | a byte for every two digits, the first one for its upper half |
| Hex.OddNothing | common/stringutil.cpp:405-421 | an odd number of digits gives nothing |
| Hex.RoundTrip | common/stringutil.cpp:405-456 | every byte string comes back from its digits |
| Hex.Injective | common/stringutil.cpp:441-456 | different ids have different keys |
| Hex.TextRoundTrip | common/stringutil.cpp:395-456 | a text comes back just when it is an even number of upper case digits |
| Hex.LowerCaseLost | common/stringutil.cpp:395-456 | lower case digits come back as upper case |
| MemSearch.MemSubstr | common/stringutil.cpp:180-211 | zero just when the needle occurs, going back after partial matches; the difference of sizes if the haystack is too short |
| MemSearch.ShortHaystack | common/stringutil.cpp:187-188 | the difference of sizes is zero as an `int` just for multiples of 2^32 |
| MemSearch.ShortHaystackLies | common/stringutil.cpp:187-188 | 2^32 bytes are found in nothing |
| ConfigText.AssignmentReads | common/ECConfigImpl.cpp:456-481 | a written assignment is read back |
| ConfigText.TrimMeans | common/ECConfigImpl.cpp:456-481 | trimming cuts blanks off both ends, and nothing else, and leaves none there |
| ConfigText.DirectiveReads | common/ECConfigImpl.cpp:500-502 | a written directive is read back with the rest of its line |
| ConfigText.LinesSkipped | common/ECConfigImpl.cpp:440-460 | comments, empty lines and lines without "=" ask for nothing |
| ConfigText.NamelessSkipped | common/ECConfigImpl.cpp:456-470 | nor does a line without a name |
| ConfigText.Find | common/ECConfigImpl.cpp:457 | the first place of a character, if there is one |
| Configs.ReloadPreserves | common/ECConfigImpl.cpp:573-667 | no request of a reload makes, removes or unmarks a setting or changes one that is not reloadable |
| Configs.LastWins | common/ECConfigImpl.cpp:573-667 | a reloadable setting ends at the last request that was accepted |
| Configs.WhoMaySet | common/ECConfigImpl.cpp:595-650 | which requests are accepted at the start, from a file, from a parameter, on a reload and from a property map |
| Configs.WhyRefused | common/ECConfigImpl.cpp:595-650 | what is complained of, and answered, when a request is refused |
| Configs.FlagsKept | common/ECConfigImpl.cpp:617-624 | a setting keeps its flags; a parameter takes it out of reloads |
| Configs.MeantText | common/ECConfigImpl.cpp:628-633 | a value behind a dollar sign is taken from the environment, if it is there |
| Configs.StoredText | common/ECConfigImpl.cpp:628-661 | what is stored: the first 1023 characters, or the number of bytes of a size |
| Configs.TargetText | common/ECConfigImpl.cpp:582-589 | the key of a setting: the first 255 characters of its name, or of what it is an alias of |
| Configs.AppliedOnly | common/ECConfigImpl.cpp:573-667 | an accepted request sets its target and nothing else; a refused one only complains |
| ConfigFiles.FileOpensOnce | common/ECConfigImpl.cpp:400-534 | whatever files include each other, cycles too, reading ends and opens each file at most once |
| ConfigFiles.FileKeepsMode | common/ECConfigImpl.cpp:521-534 | without property maps all requests of all files have the mode of the load |
| ConfigFiles.PlainFile | common/ECConfigImpl.cpp:436-490 | a file without directives asks for the names and values of its assignments, in order |
| ConfigFiles.FileSourced | common/ECConfigImpl.cpp:400-534 | with any includes, every request is an assignment of a file that was opened |
| ConfigFiles.FileReadOut | common/ECConfigImpl.cpp:400-534 | and every assignment of the files that were read to their end is asked for |
| ConfigFiles.UnreadableFile | common/ECConfigImpl.cpp:404-434 | a file that is missing, a directory, read before or not to be opened asks for nothing, and what is said then |
| ConfigFiles.DirectiveFollowed | common/ECConfigImpl.cpp:509-534 | an include reads the completed path in the mode of the load, a property map its own path in its own mode and group |
| ConfigStores.ConfigStore.AddSetting | common/ECConfigImpl.cpp:573-667 | one request is done or refused as judged, with the complaint and the answer |
| ConfigStores.ConfigStore.InitDefaults | common/ECConfigImpl.cpp:363-382 | the defaults make their requests in order, at the start and on a reload |
| ConfigStores.ConfigStore.constructor | common/ECConfigImpl.cpp:63-75 | a new store has its defaults and their aliases |
| ConfigStores.DefaultsSet | common/ECConfigImpl.cpp:363-382 | a default that is no alias and no bad size is set by its turn |
| ConfigStores.DefaultsAgain | common/ECConfigImpl.cpp:363-382 | on a reload the defaults make requests and no aliases |
| ConfigStores.DefaultsAsked | common/ECConfigImpl.cpp:363-382 | a reload asks for all defaults but the aliases, and for nothing else |
| ConfigStores.DefaultsInOrder | common/ECConfigImpl.cpp:363-382 | in order |
| ConfigStores.DefaultHolds | common/ECConfigImpl.cpp:363-382 | a setting that one default makes has its value, flags and group |
| ConfigStores.AliasLeads | common/ECConfigImpl.cpp:371-374 | an alias leads from its name to the name it stands for, from the start on |
| ConfigStores.OneLineSets | common/ECConfigImpl.cpp:456-490 | a file of one line `name=value` leaves a known setting at the trimmed value, on a load and on a reload |
| ConfigStores.ConfigStore.ReadConfigFile | common/ECConfigImpl.cpp:400-496 | the requests of a file and those it includes, in order; the current file is restored |
| ConfigStores.ConfigStore.LoadSettings | common/ECConfigImpl.cpp:77-81 | a first load of the file, with its requests and its answer |
| ConfigStores.ConfigStore.ReloadSettings | common/ECConfigImpl.cpp:154-172 | refused without change if the file cannot be opened; otherwise what is not reloadable stays, the rest has its last accepted value, default or line, and the answer is that of the file |
| ConfigParams.ParseParams | common/ECConfigImpl.cpp:110-147 | long options make their requests in order; all other arguments end up behind them |
| ConfigParams.OptionReads | common/ECConfigImpl.cpp:116-129 | `--some-name=value` asks for the trimmed value under the name with underscores, as a parameter |
| ConfigParams.OptionEmpty | common/ECConfigImpl.cpp:130-132 | an option without a value is complained of |
| ConfigParams.OneArg | common/ECConfigImpl.cpp:112-139 | which arguments stay, which move, and which ask for something |
| ConfigParams.ArgsTogether | common/ECConfigImpl.cpp:110-147 | options and their requests keep their order; the other arguments are turned round |
| ConfigParams.MoveToEnd | common/ECConfigImpl.cpp:134-138 | one argument moves behind the others in place |
| ConfigParams.SameArgs | common/ECConfigImpl.cpp:110-147 | no argument is lost or doubled |
| ConfigParams.ParameterSticks | common/ECConfigImpl.cpp:618-622 | an accepted parameter survives any number of reloads |
| Base64.EncodeBytes | common/base64.cpp:34-72 | the loops give the encoding by groups of three |
| Base64.DecodeText | common/base64.cpp:74-111 | the loops give the decoding by groups of four, up to the first character that is no digit |
| Base64.JoinSplit | common/base64.cpp:43-98 | the bits of three bytes come back |
| Base64.DigitIs | common/base64.cpp:28-32 | the alphabet of RFC 4648 |
| Base64.SplitBits | common/base64.cpp:43-48 | four sextets have the bits of three bytes, in order |
| Base64.Padded | common/base64.cpp:55-69 | one or two bytes at the end are filled up with zeros and padded |
| Base64.Vectors | common/base64.cpp:34-72 | test vectors of section 10 of RFC 4648 |
| Base64.DecodeStops | common/base64.cpp:80-82 | decoding stops at the first character that is no digit |
| Base64.DecodedLength | common/base64.cpp:74-111 | three bytes for every four digits, and one less than there are for those left over |
| Base64.RoundTrip | common/base64.cpp:34-111 | decoding undoes encoding for every byte string, although missing sextets are junk |
| Base64.EncodedLength | common/base64.cpp:34-72 | four characters for every three bytes or part of them |
| Crypt.Encrypt | common/SymmetricCrypt.cpp:80-89 | the masked bytes in base64 behind the prefix, and the length |
| Crypt.Decrypt | common/SymmetricCrypt.cpp:144-151 | the unmasked bytes, converted for the first scheme; nothing for other strings |
| Crypt.HiddenBits | common/SymmetricCrypt.cpp:85-86 | every byte is masked with 165, bit by bit |
| Crypt.StoredLetter | common/SymmetricCrypt.cpp:80-89 | what is stored for the letter a |
| Crypt.DecryptsEncrypted | common/SymmetricCrypt.cpp:80-151 | decryption undoes encryption on every text |
| Crypt.DecryptsOldScheme | common/SymmetricCrypt.cpp:116-151 | the same for the first scheme, if the conversions undo each other |
| Bits.XorTwice | common/SymmetricCrypt.cpp:85-86 | a mask put on twice is gone |
| Bits.BitsOf | common/SymmetricCrypt.cpp:85-86 | the operations work on the bits |

## Left out

- KeyTables.KeyTable.DeleteRow: where exactly the cursor ends when its own row is deleted; the two seeks start from a row that is no longer linked, and only that the cursor is live afterwards is stated.
- KeyTables.KeyTable.SeekRow: row counts are unbounded numbers; the sums with the offset are cut to 32 bits.
- KeyTables.KeyTable.UpdateRow: row data without a sort key (`Other` changes do nothing), object sizes, and the mutex, which is held for the whole call.
- KeyTables.KeyTable.Clear: the height of the sentinel, which the source leaves stale and nothing reads.
- RowOrder.RowCompare: doubles that are no numbers; the value of a double is a real number.
- Freed memory: a deleted row or object leaves the set of live ones and is not read again, except by the two seeks named above.
- `GetPreviousRow`, `UpdatePartialSortKey`, `GetRow` and `operator<` of the key table: easy members beside the ones modelled.
- Fifo.FifoBuffer.ReadSection: the signal for `Flush`, and `Flush` itself, whose condition is never true.
- FifoRuns.StepKeeps: more than one reader or one writer at a time; real time (a deadline may pass whenever a thread waits).
- PoolRuns.StepKeeps: `waitForAllTasks`, the age of the queue and who deletes a task; the call named in `BoundBreaksOnlyAtWrap`.
- Serializer.FifoSerializer.Read: `Skip` and `Flush`, which read and forget.
- SerializerRuns.ArraysArrive: a writing thread that goes on with the next array after one that failed; here it stops.
- ObjectGraph.Unknown.AddChild: the caller keeps the graph a forest, as the class assumes; `QueryInterface` and the mutex are left out.
- Caches.Cache.AddCacheItem: the part purged is computed on real numbers, not as a `float`; `GetCacheRange` and `AddToSize` are left out.
- Caches.Cache.PurgeCache: the rounding of the number removed, which is computed on reals; which of several entries of the same access time go; any choice is allowed.
- MemBlocks.MemBlock.ReadAt: positions beyond the size, where the unsigned difference wraps and memory behind the block is copied.
- MemBlocks.MemBlock.WriteAt: sums of position and length beyond 32 bits. Seeking in the stream is left out.
- MemBlocks.MemBlock.Revert: after a `Commit` without memory there is nothing to go back to, and the source copies from nowhere.
- MemSearch.MemSubstr: an empty needle, whose first byte the source reads.
- DavPrinter.Printer.WriteDocument: namespaces, prefixes, attributes and the text of the document; only elements and their nesting.
- DavPrinter.Printer.WriteItems: what is written for lists that are not level (an item more than one level below the one before, or text at the top).
- CalendarMerge.Folder.HandlePost: the entry ids, which are taken to be the unique ids; entries without a unique id, which the merge never touches; the free/busy publication and the HTTP answer.
- ConfigStores.ConfigStore.ReadConfigFile: warnings, and the splitting of lines longer than the buffer.
- ConfigStores.ConfigStore.ReloadSettings: what property maps may change; with them allowed only the requests are stated.
- Crypt.Encrypt: the conversion of wide strings to UTF-8; Crypt works on the UTF-8 bytes.
- `ECACL`, `TimeUtil`, `Http`, MAPI, libxml, MySQL, sockets, logging and the CalDAV requests: foreign calls, plumbing, or code whose claims do not hold.
