# Verified model of the LevelDB cores

This project models the parts of the repository that hold its hard guarantees and proves those guarantees in
Dafny 4.11. `dafny verify dfyconfig.toml` checks everything; no member is assumed.

The files, by component:

- **Skip list** (`db/skiplist.h`). `LevelLists.dfy` describes the levels abstractly: each element has a rank, and
  level i is the subsequence of the elements whose rank exceeds i. `SkipList.dfy` is the heap structure, a class
  whose nodes hold their next pointers. `SkipListSteps.dfy` is the same list under concurrency: one writer whose
  insertions are broken into single loads and stores, and readers interleaved with it at every load, as
  sequentially consistent steps. `SkipListProgress.dfy` shows that insertions finish.
- **LRU cache** (`util/cache.cc`). `HandleTable.dfy` is the chained hash table with its resizing,
  `LruLists.dfy` the two circular doubly linked lists through the same nodes, `LruCache.dfy` the cache with
  reference counts, charges and eviction. Its methods are proved against functions on a value, `View`;
  `CacheRuns.dfy` proves what every sequence of calls keeps about those functions, and `CacheClient.dfy` drives the
  class through any list of requests and shows that it ends where the run of the calls does.
- **Write-ahead log** (`db/log_writer.cc`, `db/log_reader.cc`). `LogFormat.dfy` has the physical format and the
  bytes a list of records becomes, `LogWriter.dfy` the writer, on a file that may fill up at any byte.
  `LogParse.dfy` says, by position in an arbitrary file, what the next physical and logical record is;
  `LogReader.dfy` proves the buffered reader against it; `LogReaderProperties.dfy` proves what it means for
  arbitrary files and for logs cut off anywhere. `LogRecovery.dfy` says without the reader's state which records of
  an arbitrary file come back and what is reported, and what damage costs; `LogSkipping.dfy` what is reported when
  reading starts in the middle of a log; `LogEndToEnd.dfy` puts writer and reader together.
- **Memtable and internal keys** (`db/memtable.cc`, `db/dbformat.*`, `util/comparator.cc`). `Comparator.dfy`,
  `DbFormat.dfy` and `MemTable.dfy`. The memtable is built on the skip-list class; the user comparator is any
  function that is a total order up to the keys it calls equal.
- **Coding** (`util/coding.*`), **CRC32C** (`util/crc32c.*`): `Coding.dfy`, `CrcRegister.dfy`, `Crc32c.dfy`. The
  reference is the byte-at-a-time CRC of section 12.1 of RFC 3720; `CrcVectors.dfy` has its known values.
- **Arena**, **background work queue**, **random generator**: `Arena.dfy`, `BackgroundWork.dfy`, `Random.dfy`.

Where the code differs from what is written about it, the model follows the code:

- `include/slice.h:75-78` returns +1 for equal slices, against the contract at `include/comparator.h:16-20`. With
  it no comparison of keys in `MemTable::Get` succeeds. `Comparators.SliceCompareMeetsContract` states exactly when the
  two agree; everything above the comparator takes any one that meets the contract; the bytewise one is taken to be
  lexicographic order, with 0 on equality.
- `util/cache.cc:206` says that the usage must be less than the capacity. It can exceed it:
  `CacheRuns.ReleasedEntryExceedsCapacity` is a run of two calls. `CacheRuns.InsertFitsIff` states exactly when an
  insertion ends within the capacity, and `CacheRuns.OnlyInsertBreaksBound` that nothing else can leave it.
- The first call of `Extend` initialises a static from `CanAccelerateCRC32C` (`util/crc32c.cc:258-268`), which calls
  `AcceleratedCRC32C`, which calls `Extend` (`util/crc32c.h:36-38`): the initialisation re-enters itself before it
  has found anything out. The portable path is modelled, which the comment at `util/crc32c.cc:259` intends.
- On-disk type bytes 5 and 6 coincide with the reader's own codes for end of file and for a bad record
  (`db/log_reader.h:49-57`). An accepted record of type 5 makes a call return false before the end of the file;
  `LogReaderProperties.StopsAtEndIff` says that nothing else stops the calls up to the first that returns false. An accepted record of type 6 disappears
  without the report that other unknown types cause (`LogReaderProperties.TypeSixIsSilent`).
- The test at `examples/opLogTest/oplog_test.cc:474-488` says that incomplete fragments at the place where reading
  starts are not reported. They are when the initial offset lies inside a block: its first physical record is
  rejected, which ends the resynchronising (`db/log_reader.cc:90-92`). `LogSkipping.CleanLogSilentIff` states exactly
  when nothing is reported, and `LogSkipping.SkipIntoRecordIsReported` gives a log and an offset.
- A reader that has returned no record yet skips to its initial block again on every call
  (`db/log_reader.cc:54-58`), relative to where the file stands and without emptying its buffer.
  `LogReader.Reader.ReadRecord` says what every such call does, `LogReader.SkipAgainIsHarmless` when it does no
  harm, and `LogEndToEnd.SecondCallMisplaces` shows the harm. It takes a record of type 5: after the end of the
  file every further call returns false.
- `db/dbformat.cc:72` asserts that a shortened key is before the limit. The contract at `include/comparator.h:27-33`
  does not give that for two entries of one user key (`DbFormat.ContractIsNotEnough`); the bytewise comparator does.

Bytes are 8-bit vectors, the CRC register is a 32-bit vector, and sizes, offsets, tags and addresses are natural
numbers with the source's limits written out where they matter.

## Model

| member | source | states |
|---|---|---|
| `LevelLists.Succ` | db/skiplist.h:94-103 | the successor of an element in a level is the first later element that is linked that high; nothing between the two is |
| `LevelLists.Pred` | db/skiplist.h:257-282 | the predecessor of a position in a level is the last earlier element that is linked that high |
| `LevelLists.RaiseRank` | db/skiplist.h:357-358 | raising a node by one level changes exactly one link besides its own: that of its predecessor in that level |
| `LevelLists.SuccOfPred` | db/skiplist.h:357 | the link copied from the predecessor is the one the new node needs |
| `LevelLists.InsertUnlinked` | db/skiplist.h:352 | a node that is linked nowhere yet changes no level |
| `LevelLists.LowerBoundSplits` | db/skiplist.h:222-225 | in a sorted sequence the keys below a target are exactly the leading ones, so one comparison tells which side of the answer a node is on |
| `LevelLists.SearchStep` | db/skiplist.h:233-253 | one comparison in a search either moves on before the answer or shows that the search stands at the answer's predecessor in that level |
| `LevelLists.InsertSorted` | db/skiplist.h:326-360 | putting an absent key at its lower bound keeps strict order |
| `SkipListHeap.SkipList.constructor` | db/skiplist.h:312-323 | an empty list whose head has twelve null links |
| `SkipListHeap.SkipList.FindGreaterOrEqual` | db/skiplist.h:228-254 | returns the node at the lower bound of the key, or null, and fills prev with the predecessor in every level in use |
| `SkipListHeap.SkipList.FindLessThan` | db/skiplist.h:257-282 | returns the last node below the key, or the head |
| `SkipListHeap.SkipList.FindLast` | db/skiplist.h:285-309 | returns the last node, or the head |
| `SkipListHeap.SkipList.Contains` | db/skiplist.h:363-374 | true if and only if some key compares equal |
| `SkipListHeap.SkipList.RandomHeight` | db/skiplist.h:202-219 | a height between 1 and 12, and nothing else is assumed about it |
| `SkipListHeap.SkipList.FindPredecessors` | db/skiplist.h:330-349 | after the search and the growth of max_height_ every level up to the new height has the right predecessor, the head in levels that were not in use |
| `SkipListHeap.Splice` | db/skiplist.h:357-358 | the two stores in one level leave every other level as it was and link the node into this one |
| `SkipListHeap.SkipList.LinkLevels` | db/skiplist.h:352-359 | after the loop the node is linked into exactly its levels |
| `SkipListHeap.SkipList.Insert` | db/skiplist.h:326-360 | for any height, the keys are the old keys with the new one at its lower bound, and the whole invariant (sorted, linked in every level, heights at most max_height_) is kept |
| `SkipListHeap.SkipList.Levels` | db/skiplist.h:125-128 | following the pointers of any level visits a strictly sorted, null-terminated list; each level is a subsequence of the one below; level 0 holds every node; levels from max_height_ on are empty |
| `SkipListHeap.Iterator.Next` | db/skiplist.h:162-166 | moves to the next key in order, or past the last |
| `SkipListHeap.Iterator.Prev` | db/skiplist.h:169-177 | moves to the previous key in order, or nowhere before the first |
| `SkipListHeap.Iterator.Seek` | db/skiplist.h:180-183 | stands at the first key not below the target |
| `SkipListHeap.Iterator.SeekToFirst` | db/skiplist.h:186-189 | stands at the first key |
| `SkipListHeap.Iterator.SeekToLast` | db/skiplist.h:192-199 | stands at the last key, if there is one |
| `SkipListSteps.RunOk` | db/skiplist.h:228-309 | in every run of one inserter, broken into its single loads and stores, and any number of readers, interleaved in any way, the invariant holds and no reader ever loads an uninitialised link |
| `SkipListSteps.ReaderAnswers` | db/skiplist.h:228-309 | the result of every FindGreaterOrEqual, FindLessThan, FindLast, SeekToFirst and Next is correct for the level-0 list as memory has it at the last load |
| `SkipListSteps.ReaderStepOk` | db/skiplist.h:235-250 | a reader on a linked node loads an initialised link and stays on linked nodes, before the answer |
| `SkipListSteps.WriterLoadOk` | db/skiplist.h:331 | each load of the writer's own search keeps what its prev array must satisfy |
| `SkipListSteps.StoreHeightOk` | db/skiplist.h:337-349 | storing a larger max_height_ before the node is linked harms nobody |
| `SkipListSteps.AllocateOk` | db/skiplist.h:352 | a new node with uninitialised links is not reachable by anybody |
| `SkipListSteps.StoreOwnOk` | db/skiplist.h:357 | the store of the node's own link, made first |
| `SkipListSteps.StorePrevOk` | db/skiplist.h:358 | the store into the predecessor, made second, links the node into exactly one more level |
| `SkipListSteps.WriterStepOk` | db/skiplist.h:326-360 | every step of the writer keeps the invariant and what readers rely on |
| `SkipListSteps.OnlyStorePrevPublishes` | db/skiplist.h:355-358 | the level-0 list changes by exactly one node, and only at the store into its level-0 predecessor |
| `SkipListSteps.PublishedStays` | db/skiplist.h:355-358 | once in the level-0 list a node stays in it in every continuation of the run |
| `SkipListSteps.Level0Holds` | db/skiplist.h:94-103 | the level-0 list in memory holds exactly the nodes whose publishing store has been made |
| `SkipListSteps.ChainUnique` | db/skiplist.h:94-103 | memory determines the level-0 list, so that the answers above are about one list |
| `SkipListProgress.InsertionFinishes` | db/skiplist.h:326-360 | in every reachable state without an insertion in progress, one of an absent key can be started and, with any height, run to its end by the writer's steps alone; the new node then has that key and height and is in the level-0 list |
| `SkipListProgress.Finish` | db/skiplist.h:326-360 | so can any insertion that is in progress, from wherever it stands |
| `SkipListProgress.NextStepLess` | db/skiplist.h:326-360 | each of these steps is taken, and what is left to do gets smaller |
| `SkipListProgress.StepCarries` | db/skiplist.h:352-359 | the key and the height stay those of the insertion until its node stands in level 0 |
| `HandleTables.BucketIsRemainder` | util/cache.cc:108 | masking with length - 1 is the remainder modulo a power of two, so every hash has a bucket |
| `HandleTables.HandleTable.FindPointer` | util/cache.cc:100-114 | finds the link that points to the entry with this key and hash, or the last link of the bucket if no entry in the whole table has them |
| `HandleTables.HandleTable.Lookup` | util/cache.cc:61-64 | returns the entry with this key and hash, and null exactly if there is none |
| `HandleTables.HandleTable.Rewire` | util/cache.cc:70-71 | the two stores put the new entry in the place of the one found, or at the end of the chain |
| `HandleTables.HandleTable.Link` | util/cache.cc:68-74 | the contents become the old ones without the replaced entry and with the new one, each in its own bucket; the count stays exact |
| `HandleTables.HandleTable.Insert` | util/cache.cc:66-81 | as a map by key and hash: the new entry replaces and returns the one with the same key; there are never more entries than buckets afterwards |
| `HandleTables.HandleTable.Remove` | util/cache.cc:83-93 | removes and returns exactly the entry with this key, if there is one |
| `HandleTables.HandleTable.NewLength` | util/cache.cc:119-125 | the smallest power of two from 4 on that is at least the number of entries |
| `HandleTables.HandleTable.MoveChain` | util/cache.cc:134-145 | moving a chain moves each of its entries to the bucket its hash has in the new list, and counts them |
| `HandleTables.HandleTable.Resize` | util/cache.cc:116-151 | the contents stay, in a new list with at least as many buckets as entries, each entry in its own bucket |
| `HandleTables.HandleTable.constructor` | util/cache.cc:58 | an empty table with buckets |
| `LruLists.Append` | util/cache.cc:284-291 | the circle gets one more entry, at its newest end |
| `LruLists.Remove` | util/cache.cc:278-282 | the circle loses exactly this entry |
| `LruLists.EvictCount` | util/cache.cc:348-358 | the eviction loop takes at most all of the list; how many exactly is the next row |
| `LruLists.EvictCountFewest` | util/cache.cc:348-358 | that many are enough or are all there are, and no shorter oldest-first prefix is enough |
| `LruCaches.LRUCache.constructor` | util/cache.cc:223-231 | an empty cache with two empty circles |
| `LruCaches.LRUCache.Ref` | util/cache.cc:249-257 | one more hold; an idle entry moves from the LRU list to the newest end of the in-use list |
| `LruCaches.LRUCache.Unref` | util/cache.cc:259-276 | the last reference deletes the entry; the last but the cache's own makes it the newest idle entry; nothing else changes |
| `LruCaches.LRUCache.FinishErase` | util/cache.cc:363-375 | the entry leaves its list, the cache and the usage, and is deleted unless a client holds it |
| `LruCaches.LRUCache.Lookup` | util/cache.cc:293-303 | returns the cached entry under the key, with one more hold, or null exactly if there is none |
| `LruCaches.LRUCache.Release` | util/cache.cc:305-310 | gives back one hold, whether or not the entry is still cached |
| `LruCaches.LRUCache.Erase` | util/cache.cc:377-381 | takes exactly the entry under the key out of the cache; if it is held it lives on until released |
| `LruCaches.LRUCache.Prune` | util/cache.cc:383-396 | deletes exactly the entries nobody holds, oldest first |
| `LruCaches.LRUCache.EvictOldest` | util/cache.cc:350-353 | the oldest entry of the LRU list is found again in the hash table, and is the one deleted |
| `LruCaches.LRUCache.EvictOver` | util/cache.cc:347-358 | evicts the shortest sufficient oldest-first prefix of the LRU list; afterwards usage fits or nothing idle is left |
| `LruCaches.LRUCache.EnterCache` | util/cache.cc:332-336 | a new entry becomes cached, in use and charged |
| `LruCaches.LRUCache.Insert` | util/cache.cc:312-361 | the full effect: replaced entry, eviction, the returned entry held once; usage ends within the capacity if and only if what was in use and stays, and the new entry, fit; with capacity 0 the entry is not cached |
| `LruCaches.FitsAfterEvict` | util/cache.cc:347-358 | evicting makes things fit exactly if what is not idle fits |
| `LruCaches.LRUCache.TotalCharge` | util/cache.cc:182-186 | usage is the sum of the charges of the cached entries |
| `LruCaches.LRUCache.EntryState` | util/cache.cc:201-215 | in every reachable state refs is the number of outstanding handles plus one if cached; an entry is on the LRU list iff it is cached with refs 1 and on the in-use list iff cached with refs at least 2; it has been deleted iff no reference is left |
| `LruCaches.LRUCache.HeldStays` | util/cache.cc:208-215 | what a client holds is not on the list that entries are evicted from |
| `LruCaches.LRUCache.Destroy` | util/cache.cc:233-247 | frees exactly the cached entries, oldest first; afterwards only entries that clients still hold are live |
| `LruCaches.EvictOne` | util/cache.cc:350-353 | erasing the oldest idle entry is evicting it |
| `LruCaches.EvictMore` | util/cache.cc:348-358 | evictions compose: j entries and then one more are j + 1 |
| `LruCaches.EraseKeeps` | util/cache.cc:363-375 | erasing one entry leaves every other entry's holds and cached state alone |
| `LruCaches.EvictKeeps` | util/cache.cc:348-358 | evicting leaves every entry off the LRU list alone |
| `CacheRuns.ValidIsSound` | util/cache.cc:197-220 | every state of the class satisfies the invariant that the run theorems are about |
| `CacheRuns.ApplySound` | util/cache.cc:249-396 | every call a well-behaved client may make keeps that invariant and only appends to the deletions |
| `CacheRuns.RunSound` | util/cache.cc:249-396 | so does every sequence of calls |
| `CacheRuns.DeletedWhenUnreferenced` | util/cache.cc:259-276 | after any sequence of calls to a new cache an entry has been deleted iff nobody holds it and it is not cached, never twice, and usage is the total charge of the two lists |
| `CacheRuns.InsertFitsIff` | util/cache.cc:205-207 | usage is within the capacity after an insertion if and only if what cannot be evicted fits, stated of the state before the call, capacity 0 included |
| `CacheRuns.OthersDoNotGrow` | util/cache.cc:293-310 | Lookup, Release, Erase and Prune never raise usage |
| `CacheRuns.OnlyInsertBreaksBound` | util/cache.cc:205-207 | a run of one capacity that starts within it and ends outside has made an insertion without room |
| `CacheRuns.ReleasedEntryExceedsCapacity` | util/cache.cc:205-207 | the bound of the comment fails: capacity 1, an entry of charge 2 inserted and released, usage 2 with the entry idle |
| `CacheRuns.HoldsAreCounted` | util/cache.cc:259-276 | after any sequence of calls to a new cache, clients hold an entry exactly as often as insertions and lookups have given it out and it has not been released; it has been deleted iff that is never and it is not cached |
| `CacheRuns.HeldStaysCached` | util/cache.cc:249-258 | an entry that a client holds stays cached through every call but an erasure or an insertion of its key |
| `CacheRuns.InsertThenLookup` | util/cache.cc:320-361 | a lookup right after an insertion finds the new entry, and the one it replaces is no longer cached |
| `CacheRuns.EraseThenLookup` | util/cache.cc:379-382 | a lookup right after an erasure finds nothing |
| `CacheRuns.PruneKeepsHeld` | util/cache.cc:384-395 | pruning keeps exactly the cached entries that are held |
| `CacheRuns.IdleInReleaseOrder` | util/cache.cc:182-195 | after any sequence of calls to a new cache the idle entries stand in the order of their last releases, each of them having been released |
| `CacheRuns.LeastRecentlyUsedFirst` | util/cache.cc:348-358 | every entry that an insertion evicts was released for the last time before every entry that stays idle |
| `CacheRuns.ApplyKeepsOrder` | util/cache.cc:259-291 | every call keeps the idle entries in the order of their last releases |
| `CacheClient.Serve` | util/cache.cc:293-396 | each request of a client to the class has the effect of the call in the runs, and the handles the client has are exactly the holds |
| `CacheClient.Drive` | util/cache.cc:223-396 | any list of requests to a new cache of the class ends in the state to which the run of the corresponding calls leads |
| `LogFormat.PhysicalParses` | db/log_writer.cc:92-124 | a physical record parses back to its own type, length, checksum and data |
| `LogFormat.DamageDetected` | db/log_reader.cc:243-253 | a change to the type or data of a record that stays within four consecutive bytes always fails the checksum |
| `LogFormat.HeaderPos` | db/log_writer.cc:40-51 | a header never starts where it would not fit in its block |
| `LogFormat.Fragments` | db/log_writer.cc:38-88 | at least one fragment for every payload, the empty one included; the recursion ends by a lexicographic measure because an empty FIRST makes no progress in the payload |
| `LogFormat.FragmentsForm` | db/log_writer.cc:57-81 | the fragments are one FULL, or a FIRST, any number of MIDDLEs and a LAST, and their data concatenated is the payload |
| `LogFormat.InsideBlocks` | db/log_writer.cc:40-55 | no header or fragment straddles a block |
| `LogFormat.FragmentsPlaced` | db/log_writer.cc:38-88 | each fragment starts where the writer puts the next header |
| `LogFormat.LogConcat` | db/log_writer.cc:24-27 | writing some records and then more gives the same bytes as writing them together, wherever in a block the first part ends |
| `LogFormat.HeaderGoes` | db/log_writer.cc:40-51 | a header follows at once if seven bytes of the block are left, and starts the next block if not |
| `LogFormat.FragmentsFill` | db/log_writer.cc:53-81 | every fragment of a record but the last ends at the end of a block |
| `LogFormat.HeaderBytes` | db/log_writer.cc:92-109 | bytes 0 to 3 of a record are the masked CRC of type and data, bytes 4 and 5 the length, low byte first, byte 6 the type, and the data follows |
| `LogFormat.FragmentIsThere` | db/log_writer.cc:105-121 | each fragment is in the log at its place as one physical record |
| `LogFormat.OutsideIsZero` | db/log_writer.cc:42-48 | what lies between fragments is zero |
| `LogFormat.LogTrailersAreZero` | db/log_writer.cc:42-48 | every byte of a log that belongs to no fragment of a record is zero |
| `LogFormat.FooRecord` | db/log_writer.cc:24-125 | the ten bytes that a new log gets for one short record, checksum included |
| `LogWriter.Writer.constructor` | db/log_writer.cc:20-22 | a writer on an empty file |
| `LogWriter.Writer.Reopen` | db/log_writer.cc:24-27 | a writer on a file of known length is in step with its last block |
| `LogWriter.Writer.EmitPhysicalRecord` | db/log_writer.cc:92-124 | appends exactly the physical record, or the prefix the device takes |
| `LogWriter.Writer.EmitFragment` | db/log_writer.cc:40-87 | one pass of the loop: trailer if needed, type by position, as much data as fits in the block |
| `LogWriter.Writer.AddRecord` | db/log_writer.cc:31-90 | terminates, and appends exactly the record's bytes for the current place in the block, or the prefix the device takes; succeeds iff all of it fits |
| `LogWriter.WriteAll` | db/log_writer.cc:31-90 | any number of calls append the log of the records, or the prefix the device took, even if the caller goes on after a failure |
| `LogWriter.WriteSessions` | db/log_writer.cc:20-27 | any chain of writers, each opened at a record boundary, writes the bytes that one writer would |
| `LogParse.ReadAt` | db/log_reader.cc:192-268 | one physical record of an arbitrary file: whatever it yields except end of file is past its start and inside the file |
| `LogParse.FoundAdvances` | db/log_reader.cc:52-177 | every record found ends past the place where the search for it began |
| `LogReader.Reader.ReportDrop` | db/log_reader.cc:185-190 | reports bytes unless the unsigned offset of the first of them is below the initial offset |
| `LogReader.Reader.ParsePhysicalRecord` | db/log_reader.cc:218-266 | the part behind the refill agrees with the record at the current position, for arbitrary file bytes and whatever the reader takes its own offset to be; the test against the initial offset is unsigned |
| `LogReader.Reader.ReadPhysicalRecord` | db/log_reader.cc:192-268 | terminates for arbitrary bytes and yields the type, the data, the new position and the reports of the physical record at the current position |
| `LogReader.Reader.SkipToInitialBlock` | db/log_reader.cc:29-50 | from wherever the reader stands: the first time it moves to the first block that can hold a header at or after the initial offset, every further time it misses that many bytes and restarts its offsets; or it fails and reports |
| `LogReader.Reader.AddFragment` | db/log_reader.cc:81-173 | resynchronising and the switch treat a physical record as one step of the assembly, with unsigned offsets |
| `LogReader.Reader.TakeRecord` | db/log_reader.cc:68-174 | one pass of the loop is one physical record and one step of the assembly |
| `LogReader.Reader.AssembleRecord` | db/log_reader.cc:60-175 | terminates for arbitrary bytes; result, offset, resynchronising flag, position and reports are those of the assembly |
| `LogReader.Reader.ReadRecord` | db/log_reader.cc:52-177 | every call in every state a reader can be in: what it returns, the offset, the reports and where it then stands, a repeated skip included; a call that returns false leaves nothing to read or stands behind an accepted record of type 5; once nothing is left every later call returns false, for every initial offset |
| `LogReader.SkipAgainIsHarmless` | db/log_reader.cc:54-58 | a repeated skip changes neither what the reader sees nor its offsets if and only if its buffer ends at the first block by its own count and nothing can be missed |
| `LogReader.SkipAgainShowsFile` | db/log_reader.cc:41-47 | after a repeated skip the reader sees the file without the bytes missed |
| `LogReader.SkipAgainOffset` | db/log_reader.cc:81-82 | after a repeated skip the offset of whatever a reader that has been at its first block returns is wrong |
| `LogReaderProperties.ReturnedIsWhole` | db/log_reader.cc:95-143 | in an arbitrary file every record returned is one accepted FULL, or consecutive accepted FIRST, MIDDLEs and LAST with no rejected or unknown record between them, and its data is theirs |
| `LogReaderProperties.CallStops` | db/log_reader.cc:145-153 | where a call stops that returns false does not depend on what it has assembled |
| `LogReaderProperties.ReadingStops` | db/log_reader.cc:52-177 | the calls up to the first that returns false end behind the first physical record that is, or looks like, the end of the file |
| `LogReaderProperties.StopsAtEndIff` | db/log_reader.cc:145-153 | they end at the end of the file if and only if no accepted record of on-disk type 5 lies on the chain of physical records |
| `LogReaderProperties.StopsShortIff` | db/log_reader.cc:145-153 | they end short of the last record if and only if such a record on the chain has records behind it |
| `LogReaderProperties.WhyFalse` | db/log_reader.cc:145-153 | a call returns false at the end of the file, where reading on finds nothing more, or at the first accepted record on the chain whose type byte on disk is 5 |
| `LogReaderProperties.NeverBack` | db/log_reader.cc:192-268 | no call leaves the reader further back than it was |
| `LogReaderProperties.TypeSixIsRejected` | db/log_reader.h:49-57 | an accepted record of on-disk type 6 has the effect of a rejected one that nobody reports; one of any other unknown type is reported |
| `LogReaderProperties.TypeSixIsSilent` | db/log_reader.h:49-57 | a file of one record of type 6 is read without a report, one of type 7 is not |
| `LogReaderProperties.EofIsFinal` | db/log_reader.cc:145-153 | at the end of the file every later call returns false, with no report |
| `LogReaderProperties.TypeFiveStopsEarly` | db/log_reader.h:49-57 | the second case occurs: a record of on-disk type 5 ends one call, and the next call returns the record behind it |
| `LogReaderProperties.BlockStartSkips` | db/log_reader.cc:29-38 | reading starts at the block boundary B with B - 5 <= offset < B + 32763, which is unique; no header that is skipped starts at or after the offset |
| `LogReaderProperties.ReadRecords` | db/log_reader.cc:52-177 | from the start of a record on, exactly the records wholly inside what is left are found |
| `LogReaderProperties.ReadFromBlock` | db/log_reader.cc:84-93 | from a block boundary on, wherever it falls among the records, resynchronising finds exactly the records that start from there on |
| `LogReaderProperties.CleanLog` | db/log_reader.cc:52-177 | for any records, any truncation and any initial offset, the records returned up to the first false are exactly those wholly inside that start at or after the offset, in order, with the offsets of their first headers |
| `LogReaderProperties.CleanLogSilent` | db/log_reader.cc:145-153 | from offset 0 there is moreover no report, and every later call returns false |
| `LogRecovery.ReadAllReturns` | db/log_reader.cc:82-176 | for an arbitrary file, the records returned up to the first false, everything reported, and the place reached are those given by the list of its physical records alone: a FULL one comes back, a LAST one with what stands since the FIRST one that only MIDDLEs separate from it, and nothing else |
| `LogRecovery.ResyncSkips` | db/log_reader.cc:84-93 | resynchronising is passing over MIDDLEs and one LAST, without a report |
| `LogRecovery.OpenAt` | db/log_reader.cc:111-137 | the FIRST record that only MIDDLEs separate from a place, if there is one |
| `LogRecovery.IntactIsReturned` | db/log_reader.cc:95-143 | in an arbitrary file every whole record whose fragments are accepted one after the other is returned, whatever stands before it, and a reader that starts behind it gets exactly what comes after it |
| `LogRecovery.FoundIsIntact` | db/log_reader.cc:95-143 | every record returned is one of those |
| `LogRecovery.ReturnedIffIntact` | db/log_reader.cc:95-143 | what comes back is exactly what is intact, resynchronising or not |
| `LogRecovery.StreamIsChain` | db/log_reader.cc:192-268 | the list of physical records is the chain of them in the file, up to the one that stops the reader |
| `LogRecovery.BytesConserved` | db/log_reader.cc:98-173 | with a reporter and from offset 0 every payload byte of an accepted physical record is in a returned record or counted in one report, but for records of on-disk type 6, what is still open at the end, and the record that stops the reader |
| `LogRecovery.StepConserves` | db/log_reader.cc:98-173 | the same for each physical record |
| `LogRecovery.DamageCostsBlock` | db/log_reader.cc:239-253 | damage within four bytes of the type or data of an accepted record makes it rejected, costs the rest of its block, is reported unless the damage has turned it into an empty record of type 0, and changes nothing of what is read from the next block on |
| `LogRecovery.LengthTooLong` | db/log_reader.cc:223-237 | a length that runs past the block costs the rest of the block and is reported; one that runs past the end of the file is a record cut off, without a report |
| `LogRecovery.MissingEnd` | db/log_reader.cc:98-109 | a FULL record behind an unfinished one is returned, and the bytes of the unfinished one are reported |
| `LogRecovery.MissingEndTwice` | db/log_reader.cc:112-121 | a FIRST record behind an unfinished one gets the latter reported, and is not reported itself at the end of the file |
| `LogRecovery.MissingBeginning` | db/log_reader.cc:124-143 | MIDDLE and LAST records without a start are reported one by one, unless the reader is resynchronising |
| `LogRecovery.UnknownBreaksOff` | db/log_reader.cc:163-173 | a record of unknown type is reported together with the unfinished one before it |
| `LogRecovery.RejectionBreaksOff` | db/log_reader.cc:155-161 | a rejected record gets the unfinished one before it reported |
| `LogSkipping.CleanLogReports` | db/log_reader.cc:84-93 | for any records, any truncation and any initial offset, exactly what is reported about a log that is in order: nothing if reading starts at or after the offset, and otherwise each fragment at or after the offset of the record that starts before it |
| `LogSkipping.CleanLogSilentIff` | db/log_reader.cc:84-93 | so nothing is reported if and only if reading starts at or after the offset or no record extends past it from before |
| `LogSkipping.SkipIntoRecordIsReported` | examples/opLogTest/oplog_test.cc:474-488 | the promise that incomplete fragments are not reported then fails: one record longer than a block, read from offset 1 |
| `LogSkipping.RestReported` | db/log_reader.cc:124-143 | the rest of a record whose first fragment was rejected is reported fragment by fragment |
| `LogSkipping.RestSkipped` | db/log_reader.cc:84-93 | the rest of a record that the reader resynchronises over is not reported |
| `LogEndToEnd.FoundPastInitial` | db/log_reader.cc:54-58 | a record returned starts, by the reader's own count, at or after the initial offset, so the leading blocks are not skipped again |
| `LogEndToEnd.ReadNext` | db/log_reader.cc:52-177 | a reader that has skipped at most once reads by position |
| `LogEndToEnd.SecondCallMisplaces` | db/log_reader.cc:54-58 | initial offset 8, an empty record of type 5 behind it, then a FULL one: the first call returns false, the second skips again and returns the record with an offset just below 2^64 |
| `LogEndToEnd.ReadUntilFalse` | db/log_reader.cc:52-177 | a client that calls the reader until it returns false gets the records of the whole reading |
| `LogEndToEnd.WriteThenRead` | db/log_writer.cc:31-90 | records written by the writer until the device is full and read by the reader from any offset: exactly those that went out whole and start at or after it |
| `Coding.EncodeVarint32` | util/coding.cc:20-47 | writes exactly the base-128 form, in each of its five sizes |
| `Coding.EncodeVarint64` | util/coding.cc:56-66 | writes exactly the base-128 form |
| `Coding.VarintLength` | util/coding.cc:81-89 | the number of bytes that encoding takes |
| `Coding.VarintFits` | util/coding.cc:52-70 | a value takes at most n bytes iff it is below 128 to the n |
| `Coding.VarintValue` | util/coding.cc:56-66 | the encoding denotes the value |
| `Coding.PrefixRejected` | util/coding.cc:91-139 | every strict prefix of one encoding is rejected |
| `Coding.GetVarintPtr` | util/coding.cc:91-139 | the decoding loop of either width, for arbitrary input, including what it drops from overlong encodings |
| `Coding.GetVarint32Ptr` | util/coding.h:40-53 | the one-byte fast path and the fallback agree |
| `Coding.DecodeVarint` | util/coding.cc:91-139 | an encoding followed by anything decodes to its value and consumes exactly its bytes |
| `Coding.GetPut` | util/coding.cc:75-164 | the same for varint32, varint64 and length-prefixed slices |
| `Coding.GetAllPutAll` | util/coding.cc:75-164 | any sequence of such items written back to back is read back, with exactly the written bytes consumed |
| `Coding.PutPrefixRejected` | util/coding.cc:91-164 | an item of any kind that is cut off anywhere is rejected |
| `Coding.PutAllPrefixRejected` | util/coding.cc:91-164 | so is a list of items that is cut off anywhere |
| `Coding.VarintDigits` | util/coding.cc:56-66 | byte i of an encoding holds base-128 digit i, and exactly the bytes before the last are marked |
| `Coding.Fixed32RoundTrip` | util/coding.h:57-86 | decoding undoes encoding |
| `Coding.EncodeFixed64` | util/coding.h:66-77 | writes the eight low bytes, lowest first |
| `Coding.FixedRoundTrip` | util/coding.h:66-99 | the n low bytes denote the value modulo 256 to the n |
| `Coding.FixedDigits` | util/coding.h:66-77 | byte i holds base-256 digit i |
| `Coding.Fixed64RoundTrip` | util/coding.h:66-99 | decoding undoes encoding |
| `Coding.Fixed64OfDecoded` | util/coding.h:88-99 | every eight bytes are the encoding of what they decode to |
| `CrcRegister.ZeroByteByTable` | util/crc32c.cc:278-282 | the register after a byte of zeros is one table lookup on its low byte and a shift; the vectors below fix the polynomial |
| `CrcRegister.ZeroStrideLinear` | util/crc32c.cc:323-349 | sixteen zero bytes act linearly on the register, which lets the streams be advanced apart |
| `CrcRegister.ZeroByteInjective` | util/crc32c.cc:278-282 | a zero byte can be undone: no two registers are merged |
| `Crc32c.FeedWord` | util/crc32c.cc:303-311 | four bytes at a time are the same as their little-endian word |
| `Crc32c.StrideByTables` | util/crc32c.cc:284-291 | the four stride table lookups together apply sixteen zero bytes |
| `Crc32c.RotateStreams` | util/crc32c.cc:340-349 | absorbing a word into the oldest stream and making it the newest absorbs it into the combined state |
| `Crc32c.StrideStep` | util/crc32c.cc:284-291 | one stream advances by one stride |
| `Crc32c.WordStep` | util/crc32c.cc:303-311 | one already loaded word is absorbed |
| `Crc32c.ByteStep` | util/crc32c.cc:278-282 | one byte is absorbed |
| `Crc32c.SwathStep` | util/crc32c.cc:293-301 | the four streams advance by sixteen bytes and still combine to the serial state |
| `Crc32c.Extend` | util/crc32c.cc:267-368 | for every starting value, every buffer and every address the four-stream computation is the byte-at-a-time CRC |
| `Crc32c.ExtendComposes` | util/crc32c.h:10-13 | extending by a and then by b is extending by a followed by b |
| `Crc32c.FeedInjective` | util/crc32c.cc:278-282 | equal checksums after the same bytes mean equal checksums before |
| `Crc32c.BurstDetected` | util/crc32c.cc:267-368 | a change confined to four consecutive bytes always changes the CRC |
| `Crc32c.MaskRoundTrip` | util/crc32c.h:25-34 | masking and unmasking are inverse to each other |
| `CrcVectors.ZeroBytes` | examples/crc32cTest/crc32c_test.cc:11-13 | the CRC of 32 bytes of zero, the first vector of section B.4 of RFC 3720 |
| `CrcVectors.OneBytes` | examples/crc32cTest/crc32c_test.cc:15-16 | of 32 bytes of ones |
| `CrcVectors.CountingUp` | examples/crc32cTest/crc32c_test.cc:18-21 | of 32 bytes counting up |
| `CrcVectors.CountingDown` | examples/crc32cTest/crc32c_test.cc:23-26 | of 32 bytes counting down |
| `CrcVectors.ReadCommand` | examples/crc32cTest/crc32c_test.cc:28-34 | of an iSCSI read command |
| `CrcVectors.StrideTable0Value` | util/crc32c.cc:56-57 | the entry for one bit of the first stride table |
| `CrcVectors.StrideTable1Value` | util/crc32c.cc:101-102 | the entry for one bit of the second stride table |
| `CrcVectors.StrideTable2Value` | util/crc32c.cc:146-147 | the entry for one bit of the third stride table |
| `CrcVectors.StrideTable3Value` | util/crc32c.cc:191-192 | the entry for one bit of the fourth stride table |
| `CrcVectors.ByteTableValues` | util/crc32c.cc:11-54 | the eight entries of the byte table for single bits, of which all others are exclusive ors |
| `CrcVectors.MaskValues` | util/crc32c.h:17-34 | masked values that fix the rotation and the constant |
| `Comparators.LexIsOrder` | include/comparator.h:16-20 | lexicographic order meets the comparator contract |
| `Comparators.SliceCompareMeetsContract` | include/slice.h:71-80 | the comparison as written agrees with lexicographic order if and only if the strings differ |
| `Comparators.SliceCompareIsNoOrder` | include/slice.h:75-78 | so it is not an order, and no string compares equal to any |
| `Comparators.FindShortestSeparator` | util/comparator.cc:27-48 | the loop finds the first difference, and with it the separator of the next row |
| `Comparators.SeparatorBetween` | util/comparator.cc:27-48 | for all inputs: start, or a string strictly between start and limit that is no longer; changed exactly if the first difference leaves room |
| `Comparators.FindShortSuccessor` | util/comparator.cc:50-61 | the loop finds the first byte that can be incremented, and with it the successor of the next row |
| `Comparators.SuccessorLarger` | util/comparator.cc:50-61 | a larger string that is no longer, or the key itself exactly if all its bytes are 0xff |
| `Comparators.SuccessorShortest` | util/comparator.cc:52-65 | unless the successor is the key itself, no larger string is shorter, and none of the same length is smaller |
| `Comparators.BytewiseMeetsContract` | include/comparator.h:16-33 | the bytewise comparator, with 0 on equality, keeps the contract of a user comparator |
| `Comparators.BumpedIsLarger` | util/comparator.cc:40-46 | cutting after a byte and incrementing it goes up, but not past a string that is larger there by more than one |
| `DbFormat.PackParts` | db/dbformat.cc:10-14 | a tag and its pair of sequence number and type determine each other |
| `DbFormat.PackOrder` | db/dbformat.cc:10-14 | tags are ordered by sequence number, then type; a tag is not above a seek tag iff its number is not above the sought one |
| `DbFormat.ParseAppend` | db/dbformat.h:150-160 | a string parses to a key iff it is what appending that key gives |
| `DbFormat.InternalIsOrder` | db/dbformat.cc:42-56 | internal keys are totally ordered if and only if user keys are |
| `DbFormat.CompareParsed` | db/dbformat.cc:42-56 | user keys ascending, then sequence numbers and types descending |
| `DbFormat.FindShortestSeparator` | db/dbformat.cc:58-75 | for any user comparator the method computes the separator of the next rows |
| `DbFormat.InternalSeparatorBetween` | db/dbformat.cc:58-75 | for any user comparator: start, or larger and shorter; before limit if the comparator keeps its contract and the user keys are in order |
| `DbFormat.SeparatorBeforeLimitIff` | db/dbformat.cc:71-72 | a changed key is before limit if and only if the user separator is, or is equal to its user key and the tag of limit is not the highest |
| `DbFormat.ContractIsNotEnough` | db/dbformat.cc:72 | a comparator that keeps its contract and two entries of one user key, in order, for which the result is behind the second |
| `DbFormat.BytewiseSeparatorBetween` | db/dbformat.cc:58-75 | with the bytewise comparator, for all inputs: start, or a shorter internal key strictly between, and exactly when it is changed |
| `DbFormat.ShortKeysComeFirst` | db/dbformat.cc:55-90 | a key that is shortened, by either method, gets the user comparator's user key and stands before every entry of it |
| `DbFormat.FindShortSuccessor` | db/dbformat.cc:77-90 | for any user comparator the method computes the successor of the next row |
| `DbFormat.InternalSuccessorLarger` | db/dbformat.cc:77-90 | for any user comparator: the key, or a shorter internal key that is strictly larger; and exactly when it is changed with the bytewise one |
| `DbFormat.EncodeKey` | db/memtable.cc:88-92 | the length, the user key and the tag, as entries and lookup keys begin |
| `DbFormat.LookupKey.constructor` | db/dbformat.cc:110-128 | builds the length-prefixed internal key that a lookup seeks |
| `DbFormat.LookupKey.Views` | db/dbformat.h:175-183 | the three views are the prefixed key, the internal key and the user key |
| `MemTables.EncodedIsOrder` | db/memtable.cc:22-28 | encoded entries are ordered by the internal keys they begin with |
| `MemTables.EntryParts` | db/memtable.cc:55-59 | an entry gives back exactly its internal key and its value |
| `MemTables.EncodeEntry` | db/memtable.cc:79-95 | the buffer holds exactly the encoded entry |
| `MemTables.VisibleByNumber` | db/memtable.cc:112-114 | an entry is visible to a lookup iff its user key is equal and its sequence number is not larger |
| `MemTables.VisibleAfterSeek` | db/memtable.cc:104 | no visible entry stands before the place the seek ends |
| `MemTables.FoundBySeek` | db/memtable.cc:105-123 | what stands there is the newest visible entry if it has the user key; otherwise nothing is visible |
| `MemTables.ReadKey` | db/memtable.cc:115-126 | reading an entry in place gives its user key, its tag and the place of its value |
| `MemTables.MemTable.Add` | db/memtable.cc:70-97 | adds exactly this entry to the history, for every user comparator that is an order |
| `MemTables.MemTable.Get` | db/memtable.cc:99-138 | absent if and only if no entry among all ever added is visible; otherwise the value of the newest visible one if its type byte is 1, and deleted if it is 0 |
| `MemTables.AddThenGet` | db/memtable.cc:70-138 | a lookup at any sequence number from that of an addition on, the addition being the newest visible one for its key, finds the value that was put or the deletion |
| `MemTables.MemTableIterator.Seek` | db/memtable.cc:50 | stands at the first entry whose internal key is not below the target |
| `MemTables.MemTableIterator.Next` | db/memtable.cc:53 | moves to the next entry |
| `MemTables.MemTableIterator.Prev` | db/memtable.cc:54 | moves to the previous entry |
| `MemTables.MemTableIterator.SeekToFirst` | db/memtable.cc:51 | stands at the first entry |
| `MemTables.MemTableIterator.SeekToLast` | db/memtable.cc:52 | stands at the last entry, if there is one |
| `MemTables.MemTableIterator.InOrder` | db/memtable.cc:40-66 | the internal keys come in strictly ascending order |
| `MemTables.MemTableIterator.Current` | db/memtable.cc:55-59 | key and value are those of an entry that was added |
| `Arenas.Arena.constructor` | util/arena.cc:8-10 | an arena without blocks |
| `Arenas.Arena.AllocateNewBlock` | util/arena.cc:78-84 | the block is owned, and the memory usage is the sum of the block sizes and one pointer each |
| `Arenas.Arena.AllocateFallback` | util/arena.cc:20-38 | a large request gets a block of its own and leaves the tail alone; a small one starts a new block of 4096 bytes |
| `Arenas.Arena.Allocate` | util/arena.h:52-65 | hands out a region and keeps all regions apart: of the tail if that is large enough, which it shortens by just as much, and of a new block otherwise; the memory usage grows by the block and eight bytes, a block being 4096 bytes for requests up to 1024 |
| `Arenas.Arena.AllocateAligned` | util/arena.cc:40-76 | the same after the least slop that aligns the address, so that the region is aligned if all blocks are; the result is null exactly for a request of no bytes before there is a block to cut from; the memory usage grows as above |
| `Arenas.Arena.Slop` | util/arena.cc:52-57 | less than eight bytes, after which the address is aligned |
| `Arenas.Arena.RegionsSeparate` | util/arena.cc:20-84 | any two regions handed out share no address, lie in one owned block each, and are apart from the unused tail |
| `BackgroundWork.ReachableOk` | util/env_posix.cc:774-812 | in every interleaving the executed items, the one in hand and the queue make up the scheduled items in order, and no worker waits unsignalled with work in the queue |
| `BackgroundWork.RunOk` | util/env_posix.cc:774-812 | mutual exclusion, order, no lost signal and a single start of the thread hold in every reachable state |
| `BackgroundWork.RunsEnd` | util/env_posix.cc:795-812 | without new calls the threads come to rest within a bound, whatever the interleaving, for any number of spurious wake-ups |
| `BackgroundWork.RestMeansDone` | util/env_posix.cc:774-812 | where they come to rest every scheduled item has been executed: no deadlock and no item left behind |
| `BackgroundWork.EveryCallIsExecuted` | util/env_posix.cc:774-812 | where they come to rest every item has been executed exactly as often as Schedule was called with it |
| `LehmerRandom.Random.constructor` | util/random.h:20-25 | the seed is brought into range |
| `LehmerRandom.Random.Next` | util/random.h:28-49 | the next seed is the old one times 16807 modulo 2^31 - 1 |
| `LehmerRandom.FoldKeepsResidue` | util/random.h:38-47 | the product fits 64 bits, one fold keeps the residue, and a fold equal to the modulus does not occur |
| `LehmerRandom.SuccessorValid` | util/random.h:35-37 | seeds stay between 1 and 2^31 - 2 |
| `LehmerRandom.PredecessorOfSuccessor` | util/random.h:35-37 | no two seeds have the same successor: the multiplier has an inverse |
| `LehmerRandom.SeedsPermuted` | util/random.h:35-37 | the recurrence permutes the valid seeds: each is the successor of exactly one |

## Left out

- SkipListHeap.SkipList.RandomHeight: any height from 1 to 12, instead of the generator's distribution; nothing about expected cost is claimed.
- LogReader.Reader.ReadRecord: the reader's unsigned offsets wrap below zero, as in the source, but not above 2^64, which no file reaches.
- LogReader.SequentialFile.Read: returns fewer bytes than asked only at the end of the file, which the reader relies on; a failing Read (`db/log_reader.cc:201-205`) is not modelled.
- LogWriter.WritableFile.Append: fails only when the device is full, leaving the prefix that fits; Flush does nothing and does not fail.
- LogWriter.Writer.AddRecord: sizes and offsets do not wrap around at 64 bits.
- Arenas.Arena.AllocateAligned: the sum of a size and a slop does not wrap around; where operator new puts a block is a parameter that must be apart from the blocks already owned.
- LruCaches.LRUCache.Insert: the sum of the charges and the 32-bit reference counts do not wrap around; the deleter and free are modelled as one event, the entry's place in the sequence `deleted`.
- LruCaches.LRUCache.EntryState: the mutex makes the methods atomic, so interleavings inside one are not modelled.
- HandleTables.HandleTable.Resize: the doubling of the length does not wrap around at 32 bits.
- MemTables.MemTable.Add: the buffer is allocated by Dafny and not from the arena; entries are values once they are in the list, which the code never changes.
- MemTables.MemTable.Get: the comparator of slices as written is not covered, see above.
- Coding.EncodeVarint64: accepts values of any size, of which the 64-bit ones take at most ten bytes (`Coding.VarintSizes`).
- Crc32c.Extend: the byte and stride tables are represented by the property that defines them and by the entries in `CrcVectors`, not by their 1280 literals.
- BackgroundWork.RunsEnd: says that the threads come to rest however they are scheduled, not how often a scheduler lets each of them run; the condition variable has one waiter.
- SkipListSteps.RunOk: atomics are sequentially consistent steps; weaker memory orderings are not modelled.
- Sharding by the high hash bits, NewId and the sharded cache's totals (`util/cache.cc:402-475`): each call goes to one cache, and the hash function itself is opaque.
- The CPU check and the accelerated CRC: see above.
- Reference counting of the memtable, the iterator cleanup lists and the setters of InternalKey: one-branch facts.
- Bloom filters, filter policies, logging, number formatting and parsing, status texts.
- POSIX files, mmap, file locks, directories, limiters, and the rest of the environment.
