# Storage engine, tables, log, cache, timers, worker pool and Punycode: a verified model

This project models the intricate parts of the C and C++ libraries that ship with the app and proves what they are
for. The modules fall into six groups.

**The store of LevelDB** (`Keys`, `Reads`, `Tables`, `Overlap`, `Inputs`, `Compaction`, `Builder`, `Store`,
`LevelInvariant`, `StoreInvariant`, `StoreReads`, `Resurrection`, `Get`). Entries live in a memtable, an immutable
memtable and seven levels of sorted files. Input selection, the merge loop and the version builder are methods that
follow the source; the store as a whole is a state machine whose steps are the changes made under the mutex, with a
flush possible in the middle of a compaction. Over all runs the levels keep their invariant, and every live reader
sees the latest write at or below its sequence number.

There is one exception, and the model keeps it because the code has it. `SetupOtherInputs` adds boundary files at the
compacted level only (`version_set.cc:1407-1411`), although its own comments at lines 1369-1373 explain why a user key
must not be split between the inputs and the files left behind. When the inputs of the next level end inside a user
key, dropping the deletion at their end uncovers an older value in the file left behind. `StoreReads.CompactionInvisible`
gives the exact condition, both ways, in terms of the inputs picked, and `Resurrection` is a run from the empty store in
which a deleted value can be read again.

**Iterators** (`LiveEntries`, `Cursors`, `Merger`, `DBIter`, `StoreIterator`, `Scans`). The merging iterator is a cursor
over the sorted union of its children, and the database iterator, on top of it, one over the map of live values, for
every interleaving of seeks, `Next` and `Prev` with their changes of direction. The lists merged for a database iterator
hold exactly the content of the store, so that a scan, forward or backward, gives what lookups find.

**The log and group commit** (`Coding`, `LogFormat`, `LogReader`, `Batches`, `Recovery`, `GroupCommit`, `Commit`,
`CrashSafety`, `WritePath`). Records are cut into fragments, read back, and read back from a file cut off at any byte.
Writers queue up, their leader logs a group, inserts it and publishes its last sequence number; a crash is a cut of the
file anywhere behind what has been synced. What the replay rebuilds is always the work of the first writers to arrive,
in whole groups, with every writer that was promised a sync among them.

**Tables** (`Blocks`, `BlockIter`; `Separators`, `Filters`, `TableLookup`). A block holds entries with their keys cut to
what differs from the key before; iterating, seeking and going backwards give its pairs back. The index of a table
holds shortened keys between blocks, and bloom filters say what a block cannot hold. A lookup reads one block, and that
is always the right one: the reason is that keys are shortened only between different user keys.

**In-memory structures** (`SkipList`; `HandleTables`, `Rings`, `LruCache`). The skip list is built from linked nodes,
and its insertion from single stores that readers may run between. The cache joins a chained hash table that is resized
in place and two circular lists through the same handles, with reference counts.

**libuv** (`Heap`, `Timers`; `ThreadPool`, `ThreadPoolInv`; `PunycodeDecoder`, `Punycode`). The timer heap is a tree of
linked nodes addressed by bit paths, and running the timers is proved over it. The worker pool is a state machine over
its critical sections, with signals that may find nobody asleep and workers that may wake up for no reason. The
Punycode encoder is proved the inverse of the decoder of RFC 3492, section 6.2, which is written down on its own.

## How to read it

User keys are represented by their rank, a real number: the engine only compares them, and every countable total order
embeds in the rationals. The memtable of `Batches` keeps byte strings, since there the bytes are the point. Checksums
are any function from byte strings to 32-bit words. Sizes that depend on encodings (file sizes, when a table is full,
when the memtable is full) are parameters or oracles, so that the theorems hold whatever they are. Sequence numbers
never reach their maximum of 2^56 - 1, which the steps that assign them require.

## Model

| member | source | states |
|---|---|---|
| Reads.Newest | ios/Pods/leveldb-library/db/memtable.cc:100-134 | for any finite set of entries, the entry of a user key with the greatest sequence number not above the snapshot: the naive search that lookups, iterators and compactions are measured by |
| Reads.ReadIs | ios/Pods/leveldb-library/db/memtable.cc:100-134 | with distinct sequence numbers an entry that is newest and visible decides what a reader gets: its value, or not found for a deletion |
| Overlap.FindFile | ios/Pods/leveldb-library/db/version_set.cc:88-106 | binary search returns the first file of a sorted disjoint level whose largest key is at or after the key |
| Overlap.SomeFileOverlapsRange | ios/Pods/leveldb-library/db/version_set.cc:122-158 | true exactly when some file meets the range, both by the scan of level 0 and by one binary search on disjoint files, with absent bounds on either side |
| Overlap.GetOverlappingInputs | ios/Pods/leveldb-library/db/version_set.cc:519-559 | above level 0 exactly the files that meet the range; in level 0 the restarting scan ends, with the least range around the given one that no file sticks out of, and every key of that range lies in the given one or in a file taken |
| Overlap.Grow | ios/Pods/leveldb-library/db/version_set.cc:539-556 | one growth of the range in level 0 stays inside every closed range around the start, and leaves no gap |
| Overlap.PickLevelForMemTableOutput | ios/Pods/leveldb-library/db/version_set.cc:491-516 | the loop returns how far a flushed table sinks by the rules: nowhere if it meets a file of level 0, else past levels with nothing in its range while the files it would later be merged with stay small, to level 2 at most |
| Overlap.PickLevelClear | ios/Pods/leveldb-library/db/version_set.cc:491-516 | a table that sinks below level 0 meets no file at its level or at any level above it |
| Inputs.GetRange | ios/Pods/leveldb-library/db/version_set.cc:1205-1223 | the least smallest and the greatest largest internal key of the files |
| Inputs.FindSmallestBoundaryFile | ios/Pods/leveldb-library/db/version_set.cc:1344-1365 | the least file that starts behind the key with the same user key, or none if there is none |
| Inputs.AddBoundaryInputs | ios/Pods/leveldb-library/db/version_set.cc:1378-1401 | the loop ends, and adds the whole chain of boundary files reachable from the largest key, each the least one behind the last |
| Inputs.ChainOfRun | ios/Pods/leveldb-library/db/version_set.cc:1378-1401 | on a contiguous run of sorted disjoint files the chain is exactly the files that follow up to the first place where no user key is split, and each shares its first user key with the file before |
| Inputs.BoundaryCloses | ios/Pods/leveldb-library/db/version_set.cc:1378-1401 | adding the chain closes the inputs: no file left at the level holds an older entry of a user key included |
| Inputs.BoundaryConnected | ios/Pods/leveldb-library/db/version_set.cc:1378-1401 | adding the chain leaves no gap in the key range of the inputs |
| Inputs.SelectRun | ios/Pods/leveldb-library/db/version_set.cc:519-559 | files of a sorted level that meet a range are contiguous |
| Inputs.SelectMonotone | ios/Pods/leveldb-library/db/version_set.cc:1420-1440 | a wider range selects at least the same files, and equally many only if it selects the same |
| Inputs.SelectConnected | ios/Pods/leveldb-library/db/version_set.cc:1403-1420 | taking every file of the next level that meets the range of connected inputs keeps them connected |
| Inputs.GrowthChosen | ios/Pods/leveldb-library/db/version_set.cc:1417-1445 | inputs grown at the compacted level still follow the plan and keep every file chosen before |
| Inputs.SetupOtherInputs | ios/Pods/leveldb-library/db/version_set.cc:1403-1462 | the inputs chosen keep the files started from, are closed at the compacted level, hold every file of the next level that meets their range, stay gapless, and the compact pointer is their largest key |
| Inputs.PickCompaction | ios/Pods/leveldb-library/db/version_set.cc:1270-1322 | the inputs of an automatic compaction contain the file picked, follow the plan and leave no gap, in level 0 as well |
| Inputs.PickFile | ios/Pods/leveldb-library/db/version_set.cc:1281-1300 | the first file behind the compact pointer, or the first file of the level when the pointer has passed them all |
| Compaction.CompactionJob.IsBaseLevelForKey | ios/Pods/leveldb-library/db/version_set.cc:1533-1552 | the level cursors only move forward, yet for keys in increasing order the answer is exact: no file two or more levels down spans the user key |
| Compaction.HiddenByLast | ios/Pods/leveldb-library/db/db_impl.cc:944-947 | in sorted input the sequence number of the entry before decides whether an older entry of the key is already visible to every snapshot |
| Compaction.CompactionJob.ShouldDrop | ios/Pods/leveldb-library/db/db_impl.cc:944-963 | the two drop rules, decided from the last sequence number of the key, drop exactly the entries hidden at the oldest snapshot and the deletions with nothing below |
| Compaction.CompactionJob.DoCompactionWork | ios/Pods/leveldb-library/db/db_impl.cc:901-995 | the merge loop with its running key and cursors writes, table by table and whatever the size limits answer, exactly the entries kept by the declarative rules, in order, and no empty table |
| Compaction.KeptMember | ios/Pods/leveldb-library/db/db_impl.cc:931-980 | an entry is kept exactly if it is in the input and neither rule drops it |
| Compaction.KeptSorted | ios/Pods/leveldb-library/db/db_impl.cc:931-980 | what is kept is sorted and part of the input |
| Compaction.FlattenPieces | ios/Pods/leveldb-library/db/db_impl.cc:985-995 | tables cut from one sorted output hold parts of it in ascending, disjoint key ranges |
| Builder.SaveTo | ios/Pods/leveldb-library/db/version_set.cc:695-754 | merging the base files with the added ones yields exactly the surviving files, ordered by smallest key and number |
| Builder.SavedUnique | ios/Pods/leveldb-library/db/version_set.cc:695-735 | an edit has one outcome |
| Builder.DisjointSorted | ios/Pods/leveldb-library/db/version_set.cc:723-737 | pairwise disjoint files form a sorted level once ordered by smallest key |
| LevelInvariant.PlanSeparated | ios/Pods/leveldb-library/db/version_set.cc:1403-1462 | inputs picked by the plan leave the files that stay at both levels newer than, or apart from, what is rewritten |
| LevelInvariant.ReplacedInv | ios/Pods/leveldb-library/db/version_set.cc:695-754 | replacing separated inputs by disjoint outputs one level down keeps levels sorted and disjoint, newer entries above older ones, and level 0 ordered by file number |
| LevelInvariant.LeftoverNewer | ios/Pods/leveldb-library/db/version_set.cc:1344-1401 | what is left at the compacted level is newer than what is taken from it wherever they share a user key |
| StoreInvariant.CompactionFits | ios/Pods/leveldb-library/db/db_impl.cc:860-876 | the tables a compaction writes fit between the files that stay |
| StoreInvariant.FlushLevels | ios/Pods/leveldb-library/db/version_set.cc:491-516 | adding a table of newer entries at the level picked for it keeps the level invariant |
| StoreInvariant.FlushJob | ios/Pods/leveldb-library/db/db_impl.cc:907-918 | a flush in the middle of an automatically picked compaction does not disturb it: the inputs stay closed and the levels below still hold nothing older |
| StoreInvariant.StepInv | ios/Pods/leveldb-library/db/db_impl.cc:688-767 | every step (write, memtable switch, flush, file number, trivial move, start, end or abandonment of a compaction, manual compaction, taking and releasing a snapshot) keeps the invariant of the store |
| StoreInvariant.PlanReady | ios/Pods/leveldb-library/db/db_impl.cc:688-740 | a compaction that has been picked is ready to be installed |
| StoreReads.MoveContent | ios/Pods/leveldb-library/db/db_impl.cc:718-733 | a trivial move changes where entries are, not which there are |
| StoreReads.KeptStays | ios/Pods/leveldb-library/db/db_impl.cc:931-980 | an input entry that the rules keep is in the store after the compaction |
| StoreReads.NewestDropped | ios/Pods/leveldb-library/db/db_impl.cc:944-963 | the newest entry visible at a live snapshot is dropped only as a deletion with nothing below |
| StoreReads.RemainsBelow | ios/Pods/leveldb-library/db/version_set.cc:1403-1411 | after such a deletion an older entry of its key can survive only in a file left behind just below, at the level where no boundary files are added |
| StoreReads.NextBelow | ios/Pods/leveldb-library/db/version_set.cc:1403-1411 | the first entry of the least boundary file left behind is the newest entry uncovered |
| StoreReads.ReadsPreserved | ios/Pods/leveldb-library/db/db_impl.cc:890-963 | unless it uncovers a deleted value, a compaction changes no read of any user key at any sequence number at or above its oldest snapshot |
| StoreReads.ResurrectionSeen | ios/Pods/leveldb-library/db/version_set.cc:1407-1411 | if it uncovers one, a reader at the oldest snapshot finds a value that was deleted |
| StoreReads.CompactionInvisible | ios/Pods/leveldb-library/db/version_set.cc:1403-1411 | a compaction is invisible to every reader if and only if it does not uncover a deleted value, where uncovering is a condition on the inputs picked: the inputs of the next level end inside a user key whose newest entry at the snapshot is a deletion among them that is to be dropped, and the least file left behind starts with a value of it |
| StoreReads.StepReads | ios/Pods/leveldb-library/db/db_impl.cc:688-767 | every step that uncovers nothing keeps every live read equal to the latest write at or below its sequence number, out of all writes ever made |
| StoreReads.RunInv | ios/Pods/leveldb-library/db/db_impl.cc:688-767 | the invariant holds in every state of every run |
| StoreReads.RunReads | ios/Pods/leveldb-library/db/db_impl.cc:1100-1145 | in every run whose compactions uncover nothing, every live read sees the latest write |
| StoreReads.SnapshotIsolation | ios/Pods/leveldb-library/db/db_impl.cc:1166-1175 | a live snapshot reads, after any later writes, flushes and compactions, exactly what had been written when it was taken |
| Resurrection.DeletedValueReturns | ios/Pods/leveldb-library/db/version_set.cc:1407-1411 | a run of eighteen steps from the empty store ends with a deleted value readable again |
| Resurrection.RunIsValid | ios/Pods/leveldb-library/db/version_set.cc:1403-1411 | every step of that run is one the store can take |
| Get.Lookup | ios/Pods/leveldb-library/db/memtable.cc:100-134 | one seek in a sorted list to the lookup key finds the newest visible entry of the user key, or shows there is none |
| Get.SearchLevelZero | ios/Pods/leveldb-library/db/version_set.cc:349-364 | searching the files of level 0 that span the key, newest number first, returns the newest visible entry |
| Get.SearchSortedLevel | ios/Pods/leveldb-library/db/version_set.cc:365-383 | above level 0 the one file found by binary search decides, even when a user key spans two files |
| Get.TopLevelDecides | ios/Pods/leveldb-library/db/version_set.cc:326-421 | the first level that holds a visible entry holds the newest one of all levels |
| Get.VersionGet | ios/Pods/leveldb-library/db/version_set.cc:326-421 | searching level by level refines the naive search over all table entries |
| Get.GetValue | ios/Pods/leveldb-library/db/db_impl.cc:1124-1134 | memtable, then immutable memtable, then the version answer as the naive search over the whole store does |
| Get.GetInRun | ios/Pods/leveldb-library/db/db_impl.cc:1100-1145 | in every run without the exception a lookup at a live sequence number returns the latest write up to it |
| LiveEntries.LiveIsRead | ios/Pods/leveldb-library/db/db_iter.cc:168-198 | an entry the iterator shows is what a lookup at its sequence number finds |
| LiveEntries.ReadIsLive | ios/Pods/leveldb-library/db/db_iter.cc:168-198 | every value a lookup finds is shown by the iterator |
| LiveEntries.NextIsSuccessor | ios/Pods/leveldb-library/db/db_iter.cc:141-166 | the next live entry carries the least live user key above the current one |
| LiveEntries.PrevIsPredecessor | ios/Pods/leveldb-library/db/db_iter.cc:200-225 | the previous live entry carries the greatest live user key below the current one |
| LiveEntries.ThereAndBack | ios/Pods/leveldb-library/db/db_iter.cc:141-225 | forward then back, or back then forward, returns to the same entry across a change of direction |
| DBIter.Iter.FindNextUserEntry | ios/Pods/leveldb-library/db/db_iter.cc:168-198 | the forward scan stops at the first live entry past the key to skip |
| DBIter.Iter.FindPrevUserEntry | ios/Pods/leveldb-library/db/db_iter.cc:227-267 | the backward scan ends with the last live entry at or before where it started, its key and value saved |
| DBIter.Iter.Next | ios/Pods/leveldb-library/db/db_iter.cc:141-166 | moves to the next live entry, whichever direction the iterator was going |
| DBIter.Iter.Prev | ios/Pods/leveldb-library/db/db_iter.cc:200-225 | moves to the previous live entry, whichever direction the iterator was going |
| DBIter.Iter.Seek | ios/Pods/leveldb-library/db/db_iter.cc:269-281 | moves to the first live key at or after the target |
| DBIter.Iter.SeekToFirst | ios/Pods/leveldb-library/db/db_iter.cc:283-292 | moves to the first live key |
| DBIter.Iter.SeekToLast | ios/Pods/leveldb-library/db/db_iter.cc:294-299 | moves to the last live key |
| Merger.MergingIterator.FindSmallest | ios/Pods/leveldb-library/table/merger.cc:148-161 | the child with the smallest key holds the next entry of the union |
| Merger.MergingIterator.FindLargest | ios/Pods/leveldb-library/table/merger.cc:163-176 | the child with the largest key holds the entry before in the union |
| Merger.MergingIterator.SeekToFirst | ios/Pods/leveldb-library/table/merger.cc:31-37 | a cursor over the sorted union at its first entry |
| Merger.MergingIterator.SeekToLast | ios/Pods/leveldb-library/table/merger.cc:39-45 | a cursor over the sorted union at its last entry |
| Merger.MergingIterator.Seek | ios/Pods/leveldb-library/table/merger.cc:47-53 | the first entry of the union at or after the target |
| Merger.MergingIterator.Next | ios/Pods/leveldb-library/table/merger.cc:55-79 | the next entry of the union; a change of direction puts every other child behind the current key |
| Merger.MergingIterator.Prev | ios/Pods/leveldb-library/table/merger.cc:81-108 | the entry before in the union; a change of direction puts every other child before the current key |
| StoreIterator.StoreLists | ios/Pods/leveldb-library/db/db_impl.cc:1062-1085 | the memtables, the tables of level 0 and the concatenated levels are sorted lists that share no key and together hold exactly the content of the store |
| StoreIterator.LevelList | ios/Pods/leveldb-library/db/version_set.cc:223-246 | the files of a sorted disjoint level one after another form one sorted list of their entries |
| StoreIterator.MergedStore | ios/Pods/leveldb-library/db/db_impl.cc:1062-1085 | in every state that satisfies the invariant these lists have a sorted union, as the merging iterator needs, equal to the content of the store |
| StoreIterator.IterationReads | ios/Pods/leveldb-library/db/db_impl.cc:1147-1157 | iterating over the store shows a user key with a value exactly if a lookup finds that value |
| Scans.NewInternalIterator | ios/Pods/leveldb-library/db/db_impl.cc:1062-1085 | the merging iterator built from one cursor for each memtable, table of level 0 and level below goes through exactly the content of the store, in order |
| Scans.RowsAre | ios/Pods/leveldb-library/db/db_iter.cc:141-198 | the rows up to an index are exactly its live entries, with keys going up |
| Scans.Scan | ios/Pods/leveldb-library/db/db_impl.cc:1147-1157 | from SeekToFirst on, with Next until it is no longer valid, the iterator of the store gives each user key at most once, in order, and with the value that a lookup at the same snapshot finds; a key it does not give is not found |
| Scans.ScanBack | ios/Pods/leveldb-library/db/db_impl.cc:1147-1157 | from SeekToLast on, with Prev, it gives the same rows, the last one first |
| Scans.ScanInRun | ios/Pods/leveldb-library/db/db_impl.cc:1147-1157 | in every run whose compactions uncover nothing, a scan at a live snapshot gives the latest writes at or below it, out of all writes ever made |
| SkipList.RankSplits | ios/Pods/leveldb-library/db/skiplist.h:255-258 | in a sorted list the nodes before a key are the first ones, as many as its rank |
| SkipList.RankOfNode | ios/Pods/leveldb-library/db/skiplist.h:213-221 | stepping back by searching for the last smaller key goes back by one position |
| SkipList.List.FindGreaterOrEqual | ios/Pods/leveldb-library/db/skiplist.h:262-281 | the search down the levels returns the first node not before the key and, on every level in use, the node it would be linked behind |
| SkipList.List.FindLessThan | ios/Pods/leveldb-library/db/skiplist.h:284-302 | the last node before the key, or the head |
| SkipList.List.FindLast | ios/Pods/leveldb-library/db/skiplist.h:305-322 | the last node of the list, or the head |
| SkipList.List.Contains | ios/Pods/leveldb-library/db/skiplist.h:371-378 | true exactly if a node with the key is in the list |
| SkipList.List.SetOwn | ios/Pods/leveldb-library/db/skiplist.h:365 | setting the new node's own pointer leaves every level sorted and linked as it was |
| SkipList.List.Publish | ios/Pods/leveldb-library/db/skiplist.h:366 | the store that publishes the node on a level leaves every level sorted, every level a part of the one below, and changes that level by exactly the new node at its place |
| SkipList.List.Insert | ios/Pods/leveldb-library/db/skiplist.h:337-368 | all levels up to the node's height gain the node at its place, no other level changes |
| SkipList.Reader.Step | ios/Pods/leveldb-library/db/skiplist.h:262-281 | a search that takes one step at a time beside the writer ends with the first node not before the key of the list as it stands at its last load, and makes progress with every step |
| SkipList.InsertAmongReaders | ios/Pods/leveldb-library/db/skiplist.h:337-368 | under any interleaving of the writer's single stores, that of the height included, with the loads of any number of readers, which may begin their searches at any point, a reader that ends before the store on level 0 answers from the old list, and from the new list afterwards; the list stays valid throughout |
| HandleTables.HandleTable.FindPointer | ios/Pods/leveldb-library/util/cache.cc:111-120 | the slot that points to the handle with the key, or the empty slot at the end of its chain when no handle has it |
| HandleTables.HandleTable.Lookup | ios/Pods/leveldb-library/util/cache.cc:74-76 | the handle with the key, or nothing exactly if no member has it |
| HandleTables.HandleTable.Insert | ios/Pods/leveldb-library/util/cache.cc:78-92 | the members change by the new handle and the one with the same key, which is returned; the table grows with its contents |
| HandleTables.HandleTable.Remove | ios/Pods/leveldb-library/util/cache.cc:94-102 | takes out the handle with the key, and nothing else |
| HandleTables.HandleTable.Resize | ios/Pods/leveldb-library/util/cache.cc:122-146 | relinking every chain into the new array loses no handle and puts each in its bucket |
| HandleTables.BucketsReplace | ios/Pods/leveldb-library/util/cache.cc:78-92 | exchanging one handle of a chain keeps every member in the bucket of its hash, once |
| HandleTables.MovedBuckets | ios/Pods/leveldb-library/util/cache.cc:132-140 | a handle moved to the front of its new bucket keeps the buckets exact |
| Rings.Remove | ios/Pods/leveldb-library/util/cache.cc:239-242 | unlinking a handle leaves a circular list of the others in the same order |
| Rings.Append | ios/Pods/leveldb-library/util/cache.cc:244-250 | linking a handle before the dummy makes it the newest |
| LruCache.Cache.Ref | ios/Pods/leveldb-library/util/cache.cc:217-223 | a handle nobody used moves from the LRU list to the list in use, and only the reference count changes otherwise |
| LruCache.Cache.Unref | ios/Pods/leveldb-library/util/cache.cc:225-237 | the last reference deletes a handle once; the last client's reference makes a cached handle the newest to be evicted |
| LruCache.Cache.Lookup | ios/Pods/leveldb-library/util/cache.cc:252-259 | finds the handle with the key exactly if the cache holds one, with a reference for the client |
| LruCache.Cache.Release | ios/Pods/leveldb-library/util/cache.cc:261-264 | gives one reference back; the deleter runs exactly if it was the last and the cache has let go |
| LruCache.Cache.FinishErase | ios/Pods/leveldb-library/util/cache.cc:307-316 | takes a handle off its list and out of the usage; the deleter runs exactly if no client has it |
| LruCache.Cache.Insert | ios/Pods/leveldb-library/util/cache.cc:266-303 | one with the same key goes out; the oldest idle handles are evicted, no more than needed, until the usage is within capacity or nothing can be evicted; the table loses exactly these and gains the new handle if there is a capacity; the deleter runs exactly for those that no client has |
| LruCache.Cache.Erase | ios/Pods/leveldb-library/util/cache.cc:318-321 | takes out the key and nothing else |
| LruCache.Cache.Prune | ios/Pods/leveldb-library/util/cache.cc:323-333 | deletes exactly the handles no client has, oldest first |
| LruCache.Cache.InUse | ios/Pods/leveldb-library/util/cache.cc:266-303 | in every valid state a handle that a client has is in the cache exactly if it is on the list in use, so it cannot be evicted |
| LruCache.MinusIs | ios/Pods/leveldb-library/util/cache.cc:239-242 | taking a handle out of a list without repetitions leaves the others in order |
| Coding.FixedRoundTrip | ios/Pods/leveldb-library/util/coding.cc:9-45 | decoding a fixed-width integer gives the integer back |
| Coding.FixedOfDecoded | ios/Pods/leveldb-library/util/coding.cc:9-45 | encoding a decoded fixed-width integer gives the bytes back |
| Coding.UnmaskMask | ios/Pods/leveldb-library/util/crc32c.h:29-38 | unmasking a masked checksum gives it back |
| Coding.MaskUnmask | ios/Pods/leveldb-library/util/crc32c.h:29-38 | masking an unmasked checksum gives it back |
| Coding.VarintRoundTrip | ios/Pods/leveldb-library/util/coding.cc:47-90 | a varint followed by anything is read back within its byte limit |
| Coding.LengthPrefixedRoundTrip | ios/Pods/leveldb-library/util/coding.cc:98-101 | a length-prefixed string shorter than 2^32 followed by anything is read back |
| LogFormat.Writer.EmitPhysicalRecord | ios/Pods/leveldb-library/db/log_writer.cc:79-106 | appends one physical record: masked checksum, length, type and payload |
| LogFormat.Writer.AddRecord | ios/Pods/leveldb-library/db/log_writer.cc:34-77 | appends exactly the fragments of the record, cut at block boundaries, with filler where no header fits and at least one fragment for an empty record |
| LogReader.Reader.SkipTrailer | ios/Pods/leveldb-library/db/log_reader.cc:190-214 | skips exactly the filler before the next header, or ends at the end of the file |
| LogReader.Reader.CheckHeader | ios/Pods/leveldb-library/db/log_reader.cc:216-257 | accepts a record that is whole and has the stored checksum; a record of the writer's is refused only if it is cut off, and without a report |
| LogReader.Reader.ReadPhysicalRecord | ios/Pods/leveldb-library/db/log_reader.cc:189-271 | whatever the file holds, a fragment returned is a part of it with its own checksum; at a fragment of the writer's it is that fragment if complete and end of file if cut off |
| LogReader.ReadingStep | ios/Pods/leveldb-library/db/log_reader.cc:82-171 | each fragment read takes the reader one fragment further in the record it is reading, by type |
| LogReader.Reader.ReadRecord | ios/Pods/leveldb-library/db/log_reader.cc:56-174 | in a file of the writer's, cut off at any byte, the next record and its offset exactly if all of it is there, otherwise nothing, and no corruption is reported |
| Recovery.LogFileSnoc | ios/Pods/leveldb-library/db/log_writer.cc:34-77 | adding a record to a log file appends that record's fragments |
| Recovery.CompleteIs | ios/Pods/leveldb-library/db/log_reader.cc:56-174 | the records that can be read from a cut file are exactly those that end before the cut |
| Batches.OpRoundTrip | ios/Pods/leveldb-library/db/write_batch.cc:42-74 | an update is read back from its encoding |
| Batches.BodyRoundTrip | ios/Pods/leveldb-library/db/write_batch.cc:42-80 | iterating over a batch yields the updates put into it, in order |
| Batches.RepRoundTrip | ios/Pods/leveldb-library/db/write_batch.cc:82-96 | sequence number, count and updates of a batch are read back |
| Batches.WriteBatch.Put | ios/Pods/leveldb-library/db/write_batch.cc:98-103 | the batch holds one update more, and its count says so |
| Batches.WriteBatch.Delete | ios/Pods/leveldb-library/db/write_batch.cc:105-109 | the batch holds one deletion more, and its count says so |
| Batches.WriteBatch.Append | ios/Pods/leveldb-library/db/write_batch.cc:144-148 | the batch holds the updates of both, in order |
| Batches.WriteBatch.SetSequence | ios/Pods/leveldb-library/db/write_batch.cc:94-96 | only the sequence number changes |
| Batches.WriteBatch.Clear | ios/Pods/leveldb-library/db/write_batch.cc:35-38 | the batch is empty |
| Batches.InsertInto | ios/Pods/leveldb-library/db/write_batch.cc:132-137 | the memtable gains the updates of the batch with consecutive sequence numbers, those before a malformed one if there is one; the status is good exactly if all are well-formed and as many as the count |
| GroupCommit.BuildBatchGroup | ios/Pods/leveldb-library/db/db_impl.cc:1260-1306 | the batch for the leader holds the updates of the longest group at the head of the queue that the rules on sync and size allow, and no caller's batch is disturbed |
| GroupCommit.GroupSync | ios/Pods/leveldb-library/db/db_impl.cc:1281-1285 | no writer that asks for sync rides behind a leader that does not |
| GroupCommit.GroupUnique | ios/Pods/leveldb-library/db/db_impl.cc:1279-1304 | the rules determine the group |
| GroupCommit.GroupSize | ios/Pods/leveldb-library/db/db_impl.cc:1267-1292 | a group beyond its leader's batch stays below one megabyte |
| WritePath.CommitGroup | ios/Pods/leveldb-library/db/db_impl.cc:1204-1234 | the leader's group, appended to the log and inserted into the memtable from the last sequence number on, is what the protocol's steps say |
| WritePath.OneRecordMore | ios/Pods/leveldb-library/db/db_impl.cc:1215 | logging a group extends the file by its record |
| Commit.StepInv | ios/Pods/leveldb-library/db/db_impl.cc:1191-1255 | every step of any interleaving of writers keeps the invariant: contiguous numbers in order of arrival, memtable and log in step, sync kept |
| Commit.PublishInv | ios/Pods/leveldb-library/db/db_impl.cc:1236-1253 | publishing the last sequence number and releasing the group keeps it |
| CrashSafety.RunInv | ios/Pods/leveldb-library/db/db_impl.cc:1191-1255 | the invariant holds in every state of every run of the writers |
| CrashSafety.ReadsSeeFinished | ios/Pods/leveldb-library/db/db_impl.cc:1236 | a read at the last sequence number sees exactly the updates of the writers that have returned, in order of arrival, and nothing of a group in progress |
| CrashSafety.WriterNumbers | ios/Pods/leveldb-library/db/db_impl.cc:1202-1207 | each update of each writer has the number that its place in the order of arrival gives it |
| CrashSafety.CrashKeepsPrefix | ios/Pods/leveldb-library/db/db_impl.cc:418-439 | from a log cut at any byte behind what is synced, even within the record being written, the replay rebuilds exactly the updates of the first writers to arrive, whole groups only, and every sync writer that has returned is among them |
| CrashSafety.EntriesAre | ios/Pods/leveldb-library/db/db_impl.cc:430-434 | contiguous groups replayed one after another number their updates as one list |
| Recovery.ReplayRecord | ios/Pods/leveldb-library/db/db_impl.cc:418-443 | one record of the log replayed, with the largest sequence number seen, or the error a malformed one gives |
| Recovery.RecoverLogFile | ios/Pods/leveldb-library/db/db_impl.cc:371-459 | replaying a cut log ends without error or report, with exactly the entries of the whole records and the number of the last of them |
| Blocks.HeaderRoundTrip | ios/Pods/leveldb-library/table/block.cc:54-74 | the three lengths at the head of an entry are read back, on the one-byte path and on the varint path alike |
| Blocks.EntryRoundTrip | ios/Pods/leveldb-library/table/block.cc:54-74 | an entry followed by anything is read back |
| Blocks.BlockBuilder.Common | ios/Pods/leveldb-library/table/block_builder.cc:78-84 | the longest common prefix with the key before |
| Blocks.BlockBuilder.Add | ios/Pods/leveldb-library/table/block_builder.cc:72-106 | the entries hold one pair more: each leaves out only what is there in the key before, and restart points stand at entries that leave out nothing |
| Blocks.BlockBuilder.Finish | ios/Pods/leveldb-library/table/block_builder.cc:62-70 | the entries, the restart points as words, and their number |
| Blocks.LayoutAppend | ios/Pods/leveldb-library/table/block_builder.cc:94-105 | an entry appended keeps every entry where it is |
| BlockIter.OpenFinished | ios/Pods/leveldb-library/table/block.cc:24-41 | a finished block opens at its restart array, and every restart point is read back |
| BlockIter.EntryInPlace | ios/Pods/leveldb-library/table/block.cc:224-245 | the entry at an offset of the block yields lengths, key delta and value of its pair, and ends where the next one starts |
| BlockIter.Iter.ParseNextKey | ios/Pods/leveldb-library/table/block.cc:224-251 | the next pair, or the end of the block; a malformed entry invalidates the iterator |
| BlockIter.Iter.Next | ios/Pods/leveldb-library/table/block.cc:137-140 | the next pair, across restart points |
| BlockIter.Iter.Prev | ios/Pods/leveldb-library/table/block.cc:142-161 | the pair before, found by going back to a restart point and forward again; not valid before the first |
| BlockIter.Iter.Seek | ios/Pods/leveldb-library/table/block.cc:163-201 | the first pair not before the target, by binary search over restart points and a scan |
| BlockIter.Iter.SeekToFirst | ios/Pods/leveldb-library/table/block.cc:203-206 | the first pair |
| BlockIter.Iter.SeekToLast | ios/Pods/leveldb-library/table/block.cc:208-213 | the last pair |
| BlockIter.Iter.Shows | ios/Pods/leveldb-library/table/block.cc:126-135 | in every state the iterator is valid exactly if it stands on a pair, which key and value then are |
| BlockIter.BuildAndScan | ios/Pods/leveldb-library/table/block.cc:137-140 | for any pairs and restart interval, a block built and read from its start yields the pairs |
| Separators.LessTransitive | ios/Pods/leveldb-library/util/comparator.cc:25-27 | the byte-wise order is transitive |
| Separators.LessAsymmetric | ios/Pods/leveldb-library/util/comparator.cc:25-27 | the byte-wise order is total and asymmetric |
| Separators.FindShortestSeparator | ios/Pods/leveldb-library/util/comparator.cc:29-50 | the key itself, or a key strictly between it and the limit that is no longer |
| Separators.FindShortSuccessor | ios/Pods/leveldb-library/util/comparator.cc:52-64 | the key itself, or a key behind it that is no longer |
| Separators.FindInternalSeparator | ios/Pods/leveldb-library/db/dbformat.cc:69-86 | the internal key itself, or a user key strictly between the two user keys: never between two entries of one user key |
| Separators.FindInternalSuccessor | ios/Pods/leveldb-library/db/dbformat.cc:88-101 | the internal key itself, or a user key behind its own |
| Filters.SetBitIs | ios/Pods/leveldb-library/util/bloom.cc:50 | setting a bit sets that bit and no other |
| Filters.MarkedIs | ios/Pods/leveldb-library/util/bloom.cc:48-51 | one probe sets its own bit and clears none |
| Filters.CreateFilter | ios/Pods/leveldb-library/util/bloom.cc:28-54 | a filter appended behind what is there that denies none of its keys |
| Filters.FilterBlockBuilder.StartBlock | ios/Pods/leveldb-library/table/filter_block.cc:21-27 | filters are made up to the range of the block, and keys added from now on belong to that range |
| Filters.FilterBlockBuilder.GenerateFilter | ios/Pods/leveldb-library/table/filter_block.cc:51-75 | one filter more, for the keys that waited, or an empty one |
| Filters.FilterBlockBuilder.Finish | ios/Pods/leveldb-library/table/filter_block.cc:35-49 | filters, their offsets, the offset of that array and the size of a range; every key added is in the filter of its block |
| Filters.WordAt | ios/Pods/leveldb-library/table/filter_block.cc:77-88 | each offset of the array, and the offset of the array behind the last, is read back |
| Filters.NoFalseNegative | ios/Pods/leveldb-library/table/filter_block.cc:90-104 | a key added while a block was being written is never denied for that block |
| TableLookup.TableBuilder.Add | ios/Pods/leveldb-library/table/table_builder.cc:94-123 | entries and blocks stay in order; the index key of a finished block is put in when the next entry is known, and separates the two |
| TableLookup.TableBuilder.Flush | ios/Pods/leveldb-library/table/table_builder.cc:125-139 | the block is written and waits for its index key; the filter starts the next block |
| TableLookup.TableBuilder.Finish | ios/Pods/leveldb-library/table/table_builder.cc:198-243 | every entry added is in a block, every block has its index key, and the filters know every key by the place of its block |
| TableLookup.VisibleHere | ios/Pods/leveldb-library/table/table.cc:216-244 | if the index leads to a block before the one with a visible entry, its last entry is visible too: a separator never cuts a user key in two |
| TableLookup.RightBlock | ios/Pods/leveldb-library/table/table.cc:216-226 | the index seek leads to a block that holds a visible entry whenever the table does, and its filter does not deny it |
| TableLookup.InternalGet | ios/Pods/leveldb-library/table/table.cc:216-244 | the entry handed over is the newest one visible whenever the table holds a visible one; otherwise there is none, or it has another user key |
| Heap.RootLeast | ios/Pods/Libuv-gRPC/src/heap-inl.h:67-69 | in an ordered heap the root is least |
| Heap.PathTo | ios/Pods/Libuv-gRPC/src/heap-inl.h:119-124 | the bits gathered from a node's number lead to that node from the root |
| Heap.RenamedShape | ios/Pods/Libuv-gRPC/src/heap-inl.h:72-102 | exchanging two nodes in every link of a complete tree leaves a complete tree |
| Heap.TimerHeap.Min | ios/Pods/Libuv-gRPC/src/heap-inl.h:67-69 | the root, no greater than any node; nothing exactly for the empty heap |
| Heap.TimerHeap.NodeSwap | ios/Pods/Libuv-gRPC/src/heap-inl.h:72-102 | parent and child trade places in the linked tree, all other nodes keep theirs |
| Heap.TimerHeap.FindSlot | ios/Pods/Libuv-gRPC/src/heap-inl.h:126-136 | the walk along the path ends at the pointer that names the wanted node |
| Heap.TimerHeap.Insert | ios/Pods/Libuv-gRPC/src/heap-inl.h:106-148 | the linked tree stays complete and ordered, and gains exactly the node |
| Heap.TimerHeap.Remove | ios/Pods/Libuv-gRPC/src/heap-inl.h:150-237 | the linked tree stays complete and ordered, and loses exactly the node, wherever it was |
| Heap.TimerHeap.SiftUp | ios/Pods/Libuv-gRPC/src/heap-inl.h:143-147 | moving a node up restores the order |
| Heap.TimerHeap.SiftDown | ios/Pods/Libuv-gRPC/src/heap-inl.h:216-229 | moving a node down restores the order |
| Timers.Loop.Start | ios/Pods/Libuv-gRPC/src/timer.c:66-95 | sets the timer going at the sum of now and the timeout, or at the end of time when that overflows; a timer without a callback or closing is refused |
| Timers.Loop.Stop | ios/Pods/Libuv-gRPC/src/timer.c:97-108 | the timer is not active, no other timer changes |
| Timers.Loop.Again | ios/Pods/Libuv-gRPC/src/timer.c:110-121 | restarts a repeating timer one period from now, and is an error without a callback |
| Timers.Loop.NextTimeout | ios/Pods/Libuv-gRPC/src/timer.c:133-151 | -1 exactly without timers, 0 exactly when one is due, else no later than the first deadline |
| Timers.Loop.RunOne | ios/Pods/Libuv-gRPC/src/timer.c:154-171 | fires the least timer if it is due, which then is due no more, unless it repeats and loop time is at its maximum: then every due timer stays due |
| Timers.Loop.NeverDone | ios/Pods/Libuv-gRPC/src/timer.c:154-171 | at the maximal loop time, with a repeating timer in the heap, some timer is due; since RunOne fires one and leaves that situation as it was, the loop would never end, so the condition of RunTimers is exact |
| Timers.Loop.RunTimers | ios/Pods/Libuv-gRPC/src/timer.c:154-171 | below the maximal loop time, or with no repeating timer, it ends with no timer due, having fired every due timer exactly once in order of deadline and start; repeating ones are set again, all others are untouched |
| ThreadPoolInv.StepOnce | ios/Pods/Libuv-gRPC/src/threadpool.c:57-139 | every step keeps each request submitted in exactly one place: a queue, a worker, a cancellation, the loop's queues or delivered |
| ThreadPoolInv.StepFields | ios/Pods/Libuv-gRPC/src/threadpool.c:57-139 | every step keeps the work field and the history of each request in line with where it is |
| ThreadPoolInv.SubmitRest | ios/Pods/Libuv-gRPC/src/threadpool.c:142-160 | submitting keeps the message of slow requests in the queue once while any waits, and leaves someone awake |
| ThreadPoolInv.TakeRest | ios/Pods/Libuv-gRPC/src/threadpool.c:66-117 | a worker that takes a request, defers the message or goes to sleep keeps the number of slow workers within the threshold and leaves someone awake while there is work |
| ThreadPoolInv.SignalWakes | ios/Pods/Libuv-gRPC/src/threadpool.c:156-158 | a signal sent whenever a worker is counted idle leaves a worker awake |
| ThreadPoolInv.StepInv | ios/Pods/Libuv-gRPC/src/threadpool.c:57-160 | every step of every interleaving of workers, loop and submitters keeps the invariant |
| ThreadPoolInv.RunInv | ios/Pods/Libuv-gRPC/src/threadpool.c:57-160 | the invariant holds in every state of every run |
| ThreadPoolInv.DeliveredOnce | ios/Pods/Libuv-gRPC/src/threadpool.c:295-315 | a request is delivered at most once, and as cancelled exactly if its work never ran |
| ThreadPoolInv.AllAsleep | ios/Pods/Libuv-gRPC/src/threadpool.c:69-78 | when all workers sleep, no request waits in the queues: no wake-up is lost |
| ThreadPoolInv.OnlyBusy | ios/Pods/Libuv-gRPC/src/threadpool.c:269-291 | a request that a worker has cannot be cancelled: it is in no queue |
| Punycode.EncodeNumber | ios/Pods/Libuv-gRPC/src/idna.c:192-218 | the digits written are read back as the number, wherever the reader starts and whatever follows, and contain no delimiter |
| Punycode.AdaptBias | ios/Pods/Libuv-gRPC/src/idna.c:220-236 | the bias computed is that of RFC 3492, section 6.1 |
| Punycode.Least | ios/Pods/Libuv-gRPC/src/idna.c:167-172 | the least code point not below the bound |
| Punycode.PartialStep | ios/Pods/Libuv-gRPC/src/idna.c:184-190 | going one position on inserts into what the decoder has exactly the code point there, if it is the one at the bound |
| Punycode.StepHit | ios/Pods/Libuv-gRPC/src/idna.c:189-239 | the decoder's insertion computed from delta is the code point and position at which the encoder stands |
| Punycode.EncodeNumbers | ios/Pods/Libuv-gRPC/src/idna.c:161-245 | the digits take the decoder from the basic code points to the whole label; too big only for labels of more than 3800 code points |
| Punycode.DecodeParts | ios/Pods/Libuv-gRPC/src/idna.c:133-158 | the last delimiter separates the basic code points from the digits |
| Punycode.ToAsciiLabel | ios/Pods/Libuv-gRPC/src/idna.c:102-246 | a label is copied if it is ASCII; otherwise, given room, the text behind the prefix decodes to the label by the decoder of RFC 3492, section 6.2; errors exactly for undecodable input and only for oversized labels |
| Punycode.CountPoints | ios/Pods/Libuv-gRPC/src/idna.c:120-131 | counts basic and other code points, and refuses exactly undecodable input |
| Punycode.CopyBasic | ios/Pods/Libuv-gRPC/src/idna.c:139-152 | copies the basic code points in order, also when it stops early |

## Left out

Subsystems of the same libraries that are not modelled:

- nanopb: the descriptor-driven encoder and decoder.
- The other code of the app: Swift and Flutter glue, generated tables, TLS and networking libraries.

What the models above leave out:

- The store's own tables are sorted lists of entries; the bytes of a table file (block handles, trailers, compression, footer) are not put together into one file.
- Unparsable internal keys: all keys of an input are taken to parse, so the reset of the merge loop at `db_impl.cc:931-935` never happens.
- Files, Env, fsync and error statuses: every foreign call succeeds; a crash is a truncation of the log, and lost memtables are rebuilt from it.
- Which level is compacted when: compaction scores, seek sampling and statistics; any level with files may be picked at any time.
- Manual compaction is one step of the store, from picking inputs to installing outputs; the automatic one is several, with flushes between.
- The MANIFEST and the switch to a new log with a new memtable: group commit is modelled for the life of one log, and recovery for one log whose memtable does not fill up.
- StoreReads.ReadsPreserved: needs that the compaction uncovers no deleted value; without that it is false, as ResurrectionSeen shows.
- Recovery.RecoverLogFile: says nothing about logs that are corrupted rather than cut; what is promised there is stated for single fragments by ReadPhysicalRecord.
- LogReader.Reader.ReadPhysicalRecord: fragments before an initial offset are not skipped, since reading starts at the beginning of a file.
- LogReader.Reader.ReadRecord: reads from the start of a file only; initial offsets and the resynchronisation they need are not modelled.
- Commit.StepInv: writers that meet an error are not modelled; the rate limits and waits of MakeRoomForWrite are only delays of a step.
- A writer without a batch that joins another's group returns without its own call to MakeRoomForWrite, as in the source; nothing is promised about the memtable switch it asked for.
- SkipList.Reader.Step: each step is one load of a pointer, and loads and stores of pointers are atomic and take effect in order, as acquire and release make them appear; the relaxed load of the height may return any height.
- Scans.NewInternalIterator: a merge of a single list is a merging iterator here, where the source takes the list's own iterator; the other iterators behind a scan (two-level, over blocks) are cursors over sorted lists.
- Heap.TimerHeap.Insert: node counts and paths are unbounded, not 32-bit.
- Timers.Loop.RunTimers: callbacks touch no timer, and either loop time is below its maximum or no timer repeats; otherwise the loop of the source never ends, as NeverDone and RunOne say. The counter that numbers starts does not wrap.
- Timers.Loop.RunOne: callbacks touch no timer.
- Timers.Loop.Start: the active flag is set together with the insertion into the heap, a line earlier than in the source.
- ThreadPoolInv.StepInv: shutting down the pool, forking, and cancelling a request already delivered are not modelled; a request number is used once.
- LruCache.Cache.Insert: one shard; the sixteen shards, the hash function and destruction of the cache are left out, and counts are not 32-bit.
- HandleTables.HandleTable.FindPointer: the bucket is the hash modulo the number of buckets, which is what masking the low bits gives for a power of two.
- BlockIter.Iter.ParseNextKey: an entry whose lengths do not fit into the block is malformed here even where their 32-bit sum would wrap around.
- Filters.CreateFilter: the number of probes is given; its computation from the bits per key in floating point is left out, and hashing is any function.
- TableLookup.TableBuilder.Finish: gives the blocks, the keys of the index and the finished filter block; the metaindex block, the bytes of the index block and the footer are not modelled.
- TableLookup.InternalGet: blocks and index are searched as lists; that block iterators do so is what BlockIter.Iter.Seek says.
- Punycode.ToAsciiLabel: works on decoded code points; the decoding of UTF-8 and the splitting of host names at dots are left out.
- Batches.InsertInto: sequence numbers and counts found in a record are not checked against 56 and 32 bits beyond what the source does.
