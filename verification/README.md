# PairDB in Dafny

PairDB is a replicated key-value store in the style of Dynamo and Cassandra. Coordinators route each
key over a consistent-hash ring to a set of storage nodes, stamp writes with vector clocks and decide
by quorum; a storage node keeps its data in a commit log, a skip-list memtable, SSTables and a cache.
This project models the parts of it that carry its guarantees and proves them.

`dafny verify dfyconfig.toml` checks everything.

## The main results

**A storage node is one map** (`StorageEngine`, `SplitOperations`, `StorageService`). The engine is a
state machine over log, memtable, immutable memtable, SSTables and cache. `EngineIsOneMap`: after every
run of operations, reads, flush steps, evictions and crashes (also between logging and applying
operations), every read returns what one map keyed by (tenant, key) returns, and every cached entry is
current. The class `StorageService.Service` is built from the commit log, the memtable service on the
pointer-based skip list, the SSTable service down to file bytes and the cache with its evictions; each
of its methods is proved to be one step of that machine followed by some evictions, and carries the one
map along, so that `Read` is proved to return the map's answer. The theorem has three hypotheses:

- Tenants contain no ':' (`KeysCollideIff` says what happens otherwise).
- The clock ticks between flushing a key and writing it again, because SSTables are searched with a
  strict comparison of whole-second timestamps (`FlushedOverwriteIsReadIff`, `SameSecondOverwriteIsLost`).
- Operations and reads are atomic. The program does not make them so: log, memtable and cache are locked
  one after the other. `SplitOperations` drops this: operations go in three parts and reads in up to
  three, down to the cache fill, interleaved with one another, flush steps, evictions and crashes. As
  long as none overtakes another on the same key, a key with no operation in flight still reads as the
  map says (`SplitEngineIsOneMap`) and reads are never stale (`ReadIsNotStale`, `PartedReadIsNotStale`).
  For every run in any order, `AnyOrderIff` says exactly when a key reads as the map says;
  `OvertakenWriteWins` is a run of two writers where it does not.

Two more conditions make the service's methods steps of this machine: a restart replays the whole log
only if no line of it is too long (`KeyRestoredIff` says what comes back otherwise), and a flush keeps
every entry only if its records have checksums other than 0 (`FlushChangesNoReadIff`).

**Reads may be split** (`InterleavedReads`). A read looks at the memtables and at the SSTables under
different locks. Whatever writes and flush steps come in between, it returns a version that was
current at some moment in between (`SplitReadIsAtomic`), so a key that stays present is never missed.
Filling the cache late is not always right; `LateCacheFillIff` says exactly when.

**The log survives restarts** (`CommitLog`). Over every run of appends, rotations and restarts the log
holds the appended operations in order. A value of up to 10 MiB is admitted
(storage-node/internal/validation/validator.go:15) and its line can exceed the recovery scanner's
buffer, which loses it and the rest of its segment; a line damaged on disk is refused by its checksum
and loses itself. `LogSurvivesRestarts` says which operations a recovery replays, when that is all of
them, and when sequence numbers stay consecutive; `KeyRestoredIff` says exactly which keys come back
from a log with long and damaged lines, `CounterResumesIff` when the numbering resumes.

**Membership changes are minimal** (`RingMembership`, `KeyRanges`). Removing a node deletes it from
every preference list and changes nothing else; adding a fresh one is the inverse. The key-range
calculation lists a hash that is no ring point exactly if its owner changes, under the right node; at
ring points it is right exactly when `AtRingPoint` says so, and on a ring with a node added twice a
join misses just the hashes of `JoinWithCopiesListsIff`. Merging ranges keeps exactly those that are
not swallowed (`RangeMerging.MergeCoversExactly`), so a ring's arcs lose hashes exactly if both arcs at
the last point are among them.

**Clocks and quorums** (`VectorClocks`, `Conflicts`, `Coordinator`, `Restarts`, `Quorums`, `StaleReads`).
In every run of coordinators that keep their counters, each issued clock is new; with restarts exactly
under the condition of `IssuedClockIsNewIff`. `DetectConflicts` chooses a causally
maximal answer from any list in any order. A read at overlapping levels never returns something older
than a write that succeeded before it, and what it returns is the value written with that clock
(`ReadReturnsAWrittenValue`): right after the write always, with one coordinator after any
later partial failures too, with several whenever the read reports no conflict. `CanReturnIff` says
exactly which versions a read can return, and so when later writes can hide an earlier one.

**Compaction keeps best versions** (`Compaction`). The k-way merge emits every entry once; for non-empty
keys and non-negative clocks the scan keeps one version per key, never one that another input version is
causally after, exactly if equal keys come to it together (`ScanPicksBestIff`). From sorted inputs they
come in key order; the program does not sort its key lists (`MergeIsSortedIff`), and sorting them by
composite key would not always be enough (`SortedListIsEnoughIff`). Reading the compacted table gives
value, clock and timestamp of those versions (`CompactionReadsBack`).

## How the code is modelled

Go strings and byte slices are sequences of bytes with the bytewise order. `int64` counters, sizes and
timestamps are unbounded integers except where the code depends on the width: the 32- and 64-bit
fields of the file formats, the 64-bit arithmetic of the bloom positions and the wrap-around of the
log's sequence number are written out. SHA-256, FNV, CRC-32 and JSON are function parameters; where a
proof needs something of them (parsing undoes printing, no hash collision among the ring's virtual
nodes) it is a named hypothesis (`Sound`, `SoundLog`, `NoCollision`, `Consistent`). Time, random
levels, cache scores, map iteration order, the heap's choice among equal keys, disk failures and
which replicas answer are parameters or free choices. A mutex-protected region is one atomic step. A loop
that never ends is a result: `ends` of `Cache.CacheService.Put` is false where eviction cannot make room.

Where the code and its comments or documentation differ, the code is followed:

- The required number of acknowledgements that counts only authoritative replicas is computed and
  logged, but the decision uses the size of the whole write set
  (coordinator/internal/service/coordinator_service_v2.go:198 and 266).
- The comments call a virtual node's range [prev, v); the lookup gives it (prev, v]
  (coordinator/internal/algorithm/consistent_hash.go:200).
- A read response never carries a timestamp, so all timestamps compared by `DetectConflicts` are 0;
  the theorem covers that case and any other that does not contradict causality.
- SSTables are not reopened after a restart; recovery rebuilds everything from the log, which is never
  truncated.

## Model

| member | source | states |
|---|---|---|
| `StorageEngine.EngineIsOneMap` | storage-node/internal/service/storage_service.go:66-359 | after every run of atomic operations, reads, flush steps, evictions and crashes, a read through all layers, and every cached entry, equals the read of one map keyed by tenant and key |
| `SplitOperations.SplitEngineIsOneMap` | storage-node/internal/service/storage_service.go:106-247 | without atomic operations and reads: if log, memtable and cache parts of operations on one key do not overtake one another, and no read fills in an answer older than a completed operation, then after every run a key with nothing in flight reads as one map that changes when an operation is logged |
| `SplitOperations.ReadIsNotStale` | storage-node/internal/service/storage_service.go:168-247 | with operations in flight, every read answers as some logged operation that is not before any completed one on the key |
| `SplitOperations.PartedReadIsNotStale` | storage-node/internal/service/storage_service.go:191-224 | a read that looks at memtables and SSTables apart, among operations in parts, finds the version of an operation at or after all that were put when it started |
| `SplitOperations.LateFillIsInOrder` | storage-node/internal/service/storage_service.go:202-232 | filling the cache later still is in the order `SplitEngineIsOneMap` asks for if no operation on the key was completed in between |
| `SplitOperations.MoveKeepsInv` | storage-node/internal/service/storage_service.go:106-132 | every part of an operation, read, flush step, eviction and crash keeps: the newest version of a key is that of the last operation put, and a cached answer is that of one at or after all completed |
| `SplitOperations.PartsMakeTheWhole` | storage-node/internal/service/storage_service.go:106-132 | the three parts in a row are the atomic operation |
| `SplitOperations.AnyOrderIff` | storage-node/internal/service/storage_service.go:106-247 | for every run of operation parts, reads, late fills, flush steps, evictions and crashes in any order: a key reads as the map says exactly if what is cached for it is that answer, or nothing is and the version put last is; it also does once evicted exactly if both are; after a restart it always does |
| `SplitOperations.OvertakenWriteWins` | storage-node/internal/service/storage_service.go:106-132 | a concrete run of two writers after which log and memtable disagree and a restart changes the answer |
| `StorageEngine.StepKeepsGood` | storage-node/internal/service/storage_service.go:66-359 | every step keeps: versions rise in timestamp from layer to layer, the newest version of each key is what the log says, cached answers are current, a published immutable memtable is the last table |
| `StorageEngine.RunKeepsGood` | storage-node/internal/service/storage_service.go:66-359 | the invariant holds in every state of every run |
| `StorageEngine.OperateKeepsInv` | storage-node/internal/service/storage_service.go:96-132 | logging, memtable put and cache update together keep the invariant, for writes, repairs and tombstones |
| `StorageEngine.FlushKeepsInv` | storage-node/internal/service/memtable_service.go:141-174 | swap, publish and clear keep the invariant and change no key's newest version |
| `StorageEngine.CrashKeepsInv` | storage-node/internal/service/commitlog_service.go:172-211 | losing all memory and replaying the log, with operations logged but not applied, re-establishes the invariant |
| `StorageEngine.ReadIsNewest` | storage-node/internal/service/storage_service.go:168-247 | cache, memtable, immutable memtable, then SSTables by largest timestamp finds the newest version |
| `StorageEngine.ReplayIsLastOperation` | storage-node/internal/service/commitlog_service.go:282-299 | a replayed log binds exactly the keys operated on, each to its last operation |
| `StorageEngine.LogMatchesSpec` | storage-node/internal/service/storage_service.go:96-112 | in every run the replayed log and the one map agree for all ':'-free tenants |
| `StorageEngine.LatestBounds` | storage-node/internal/service/sstable_service.go:129-174 | the entry Get settles on has the largest timestamp of all tables, above 0, and comes from one of them |
| `StorageEngine.GetReturnsNewestIff` | storage-node/internal/service/sstable_service.go:167-170 | whichever table holds the newest version, Get returns it exactly if its timestamp is positive and above every older version's |
| `StorageEngine.LatestIsNewest` | storage-node/internal/service/sstable_service.go:124-175 | with timestamps rising from table to table, Get returns the newest version |
| `InterleavedReads.SplitReadIsAtomic` | storage-node/internal/service/storage_service.go:191-224 | a read whose memtable and SSTable lookups are separated by any steps but a crash returns a version current at some moment in between |
| `InterleavedReads.LiveKeyIsNeverMissed` | storage-node/internal/service/storage_service.go:191-224 | such a read never reports missing a key that was present and undeleted throughout |
| `InterleavedReads.TablesWereCurrent` | storage-node/internal/service/memtable_service.go:141-174 | every version that reaches the tables during a run was current when it left the memtable |
| `InterleavedReads.CurrentAfter` | storage-node/internal/service/storage_service.go:96-132 | after steps without a crash the current version of a key is that of the last operation on it, or unchanged |
| `InterleavedReads.LateCacheFillIff` | storage-node/internal/service/storage_service.go:202 | caching after other steps an answer read before them leaves a right cache exactly if the last operation on the key in between wrote that answer or there was none |
| `InterleavedReads.SwapAfterFailedFlushReadsIff` | storage-node/internal/service/memtable_service.go:152-165 | swapping while a failed flush's memtable is still in the immutable slot changes no read exactly if each of its keys that is neither in the memtable nor cached reads the same from the SSTables |
| `InterleavedReads.SwapAfterFailedFlushIff` | storage-node/internal/service/memtable_service.go:152-165 | such a swap loses no key's newest version exactly if all keys of that memtable were written again |
| `InterleavedReads.RestartRestores` | storage-node/internal/service/commitlog_service.go:172-211 | a restart brings back what such a swap lost |
| `InterleavedReads.FlushedOverwriteIsReadIff` | storage-node/internal/service/sstable_service.go:167-170 | after any steps, an operation that is then flushed reads as the one map says exactly if its timestamp is positive and above every flushed version's, or the answers agree |
| `InterleavedReads.SameSecondOverwriteIsLost` | storage-node/internal/service/storage_service.go:101 | a concrete run: overwriting within one second, flushed twice, reads as the old value |
| `StorageService.Service.Write` | storage-node/internal/service/storage_service.go:66-165 | a refused write changes nothing; an admitted one is the engine's operation step followed by evictions and keeps agreement with the one map; it caches the value if there can be room, evicts no more than needed and returns exactly then |
| `StorageService.Service.Repair` | storage-node/internal/service/storage_service.go:315-359 | is the engine's operation step followed by evictions no more than needed, without validation, and keeps agreement with the one map |
| `StorageService.Service.Delete` | storage-node/internal/service/storage_service.go:250-312 | a refused delete changes nothing; an admitted one is the engine's operation step with a tombstone and keeps agreement with the one map |
| `StorageService.Service.Perform` | storage-node/internal/service/storage_service.go:333-352 | log, memtable and cache end in the state of the operation step, less evicted cache entries |
| `StorageService.Service.Record` | storage-node/internal/service/storage_service.go:106-129 | appends the entry to the log and puts its memtable entry, leaving cache and tables alone |
| `StorageService.Service.Read` | storage-node/internal/service/storage_service.go:168-247 | returns the engine's answer, which is the one map's while the two agree, and caches it if there can be room, evicting no more than needed; a tombstone or absence is not cached |
| `StorageService.StepTracks` | storage-node/internal/service/storage_service.go:66-359 | every enabled step followed by evictions keeps the service's state in agreement with the one map |
| `StorageService.TrackedRead` | storage-node/internal/service/storage_service.go:168-247 | a state in agreement with the map answers every read as the map does |
| `StorageService.Service.Fetch` | storage-node/internal/service/storage_service.go:191-224 | memtables first, then the SSTables |
| `StorageService.Service.BeginFlush` | storage-node/internal/service/memtable_service.go:146-155 | is the swap step, or nothing on an empty memtable |
| `StorageService.Service.Publish` | storage-node/internal/service/memtable_service.go:162-165 | adds what the written table holds; for entries that fit the format these are the legible ones, and if those are all, it is the publish step |
| `StorageService.Service.EndFlush` | storage-node/internal/service/memtable_service.go:168-170 | is the clear step |
| `StorageService.Service.Flush` | storage-node/internal/service/memtable_service.go:141-174 | nothing, swap, publishing of the written table and clear, or, when writing the SSTable fails, the swap alone; keeps agreement with the one map if the table holds all entries |
| `StorageService.FlushChangesNoReadIff` | storage-node/internal/service/memtable_service.go:141-174 | a flush whose table holds a part of the memtable changes no read exactly if each other key that is not cached shows in the older tables what it showed before |
| `StorageService.Service.Recover` | storage-node/internal/service/commitlog_service.go:172-211 | in a new process over segments some of whose lines may be damaged, recovery gives every key the version of its last operation whose line is neither damaged nor lost; without such lines it is the crash step and agrees with the one map |
| `StorageService.PutAnswers` | storage-node/internal/service/cache_service.go:60-96 | after a put the cache answers as before with the new answer, less what was evicted |
| `SkipLists.SkipList.constructor` | storage-node/internal/storage/memtable/skiplist.go:27-35 | an empty list is well formed and holds the empty map |
| `SkipLists.SkipList.Insert` | storage-node/internal/storage/memtable/skiplist.go:47-87 | for every level choice, keeps the list well formed and binds the key to the value, all other keys as before |
| `SkipLists.SkipList.Search` | storage-node/internal/storage/memtable/skiplist.go:90-105 | finds the key's value exactly if the map has it |
| `SkipLists.SkipList.Delete` | storage-node/internal/storage/memtable/skiplist.go:108-140 | keeps the list well formed, removes the key and no other, and says whether it was there |
| `SkipLists.SkipList.RandomLevel` | storage-node/internal/storage/memtable/skiplist.go:38-44 | the coin tosses end at a level from 0 to the maximum, exclusive |
| `SkipLists.SkipList.FindUpdate` | storage-node/internal/storage/memtable/skiplist.go:48-57 | the update path holds, for every level, the last node of that level below the key |
| `SkipLists.SkipList.Splice` | storage-node/internal/storage/memtable/skiplist.go:81-84 | linking a tower after the update path leaves every pointer at the next tower of its level |
| `SkipLists.SkipList.Unlink` | storage-node/internal/storage/memtable/skiplist.go:125-131 | unlinking stops at the first level that does not reach the node and has then skipped it on all its levels |
| `SkipLists.SkipList.LowerLevel` | storage-node/internal/storage/memtable/skiplist.go:133-136 | the level drops until the head points somewhere on it |
| `SkipLists.SkipList.SortedKeys` | storage-node/internal/storage/memtable/skiplist.go:10-24 | the keys along level 0 are the map's keys, strictly sorted, as many as the recorded size |
| `SkipLists.LevelIsOrderedSubsequence` | storage-node/internal/storage/memtable/skiplist.go:10-24 | each level is an ordered subsequence of the one below |
| `SkipLists.LevelMembers` | storage-node/internal/storage/memtable/skiplist.go:10-24 | following a level from the head meets exactly the towers that reach it |
| `SkipLists.SkipListIterator.Next` | storage-node/internal/storage/memtable/skiplist.go:160-166 | steps to the next key until every key has been passed once |
| `SkipLists.SkipListIterator.Key` | storage-node/internal/storage/memtable/skiplist.go:169-174 | yields the keys in increasing order |
| `SkipLists.SkipListIterator.Value` | storage-node/internal/storage/memtable/skiplist.go:177-182 | yields the value bound to the current key |
| `MemTables.MemTable.Put` | storage-node/internal/service/memtable_service.go:193-204 | files the entry under its own key and grows the size by key, value and 64; the size stays 0 exactly while the table is empty |
| `MemTables.MemTable.Get` | storage-node/internal/service/memtable_service.go:207-217 | looks the key up in the table's contents |
| `MemTables.MemTable.Entries` | storage-node/internal/service/memtable_service.go:234-261 | walking the iterator yields every entry once, in key order |
| `MemTables.MemTableService.Put` | storage-node/internal/service/memtable_service.go:39-44 | changes the current memtable only |
| `MemTables.MemTableService.Get` | storage-node/internal/service/memtable_service.go:47-64 | the current memtable hides the immutable one |
| `MemTables.MemTableService.BeginFlush` | storage-node/internal/service/memtable_service.go:146-155 | an empty memtable is left alone; otherwise it becomes the immutable one, contents unchanged, and an empty one takes its place |
| `MemTables.MemTableService.EndFlush` | storage-node/internal/service/memtable_service.go:168-170 | drops the immutable memtable and nothing else |
| `SSTables.SSTableService.WriteFromMemTable` | storage-node/internal/service/sstable_service.go:53-121 | adds at the end of level 0 a table that holds what range, filter, index and records of its files give; for entries that fit the format these are exactly the memtable's entries with nonzero checksum |
| `SSTables.SSTableService.Get` | storage-node/internal/service/sstable_service.go:124-175 | returns the first version with the largest positive timestamp over all levels and tables |
| `SSTables.SearchTable` | storage-node/internal/service/sstable_service.go:136-165 | whatever is in the files, range test, bloom filter, index and record together give exactly what the table holds |
| `SSTables.WriteTable` | storage-node/internal/service/sstable_service.go:76-97 | writes the data, index and bloom files of the entries and records first and last key as the range |
| `SSTables.SortedWalkBounds` | storage-node/internal/service/sstable_service.go:80-92 | because the walk is sorted, first and last key bound every key: the range test hides none |
| `SSTables.WrittenTable` | storage-node/internal/service/sstable_service.go:137-151 | the files written from entries that fit the format hold exactly the legible ones: neither the range nor the bloom filter hides a key |
| `SSTables.WrittenIsStored` | storage-node/internal/service/sstable_service.go:153-165 | the written files read back as the legible entries, and as absent for every other key |
| `SSTableFormat.SSTableWriter.Write` | storage-node/internal/storage/sstable/writer.go:70-112 | the data file is the records of the entries written so far and the index lists their offsets, sizes and checksums |
| `SSTableFormat.SSTableWriter.Finalize` | storage-node/internal/storage/sstable/writer.go:115-171 | the index file is the index in order |
| `SSTableFormat.LoadIndex` | storage-node/internal/storage/sstable/reader.go:50-99 | parses any index file, reporting truncated ones, a missing last checksum reading as 0 |
| `SSTableFormat.LoadOneRecord` | storage-node/internal/storage/sstable/reader.go:50-99 | parsing undoes writing of one index record with whatever follows |
| `SSTableFormat.LoadUndoesFinalize` | storage-node/internal/storage/sstable/reader.go:50-99 | reloading a written index file gives the recorded entries, a later one of a key replacing an earlier |
| `SSTableFormat.RecordsTile` | storage-node/internal/storage/sstable/writer.go:80-109 | records tile the data file without gaps and the index holds their exact offsets, sizes and checksums |
| `SSTableFormat.ReloadedIndex` | storage-node/internal/storage/sstable/reader.go:50-99 | for distinct keys that fit the fields the reloaded index has exactly the written keys |
| `SSTableFormat.ReadReturnsWrittenIff` | storage-node/internal/storage/sstable/reader.go:102-160 | Get returns the written entry exactly if its checksum is not 0, fails otherwise, and finds no other key |
| `SSTableFormat.DamagedRecordIsRefused` | storage-node/internal/storage/sstable/reader.go:128-141 | in a data file some of whose records have changed so that their checksums differ, those records are refused and every other one reads as before |
| `SSTableFormat.TornIndexLoads` | storage-node/internal/storage/sstable/reader.go:45-93 | an index file that ends within a record loads with checksum 0 for it if just the checksum is missing, and otherwise not at all |
| `SSTableFormat.OldRecordReads` | storage-node/internal/storage/sstable/reader.go:115-124 | a record without checksum, as older files have, reads back |
| `Encoding.RoundTrip32` | storage-node/internal/storage/sstable/writer.go:143-171 | 32-bit little-endian fields read back as written, signed and unsigned |
| `Encoding.RoundTrip64` | storage-node/internal/storage/sstable/writer.go:143-171 | 64-bit little-endian fields read back as written |
| `Encoding.LittleEndianBytes` | storage-node/internal/storage/sstable/writer.go:82-87 | byte i of a field holds its bits from 8i on |
| `Bloom.BloomFilter.Add` | storage-node/internal/storage/sstable/bloom_filter.go:39-44 | sets the key's bits and no others |
| `Bloom.BloomFilter.MayContain` | storage-node/internal/storage/sstable/bloom_filter.go:47-55 | holds exactly if all of the key's bits are set |
| `Bloom.NoFalseNegatives` | storage-node/internal/storage/sstable/bloom_filter.go:39-75 | after any sequence of additions every added key is reported |
| `Bloom.AddAllExact` | storage-node/internal/storage/sstable/bloom_filter.go:37-43 | after any additions a bit is set exactly if it was before or is a position of an added key |
| `Bloom.PositionIsStepped` | storage-node/internal/storage/sstable/bloom_filter.go:35-73 | positions start at the key's hash and advance by the hash of the key with "salt" appended, wrapping at 64 bits, modulo the size |
| `Bloom.BloomFilter.WriteTo` | storage-node/internal/storage/sstable/bloom_filter.go:78-103 | the file encodes size, hash count and every bit |
| `Bloom.Pack` | storage-node/internal/storage/sstable/bloom_filter.go:89-99 | bit i of the filter is bit i mod 8 of byte i div 8, for every size |
| `Bloom.Load` | storage-node/internal/storage/sstable/bloom_filter.go:106-142 | loads exactly if the file has a header with a positive size and as many bytes as that takes, and then size, hash count and bits are those of the file |
| `Cache.CacheService.Get` | storage-node/internal/service/cache_service.go:42-57 | changes an entry's statistics, not its value, clock or size |
| `Cache.CacheService.Put` | storage-node/internal/service/cache_service.go:60-96 | for any key: ends exactly if the key is present or the pinned entries leave room for its key, value and 64 bytes; then key and value are cached, a new key with all cached keys, values and 64 bytes per entry within the size limit; evictions take the lowest scores and no more than needed |
| `Cache.TotalIsBytes` | storage-node/internal/service/cache_service.go:64 | the recorded size is the lengths of all cached keys and values plus 64 bytes per entry |
| `Cache.CacheService.Remove` | storage-node/internal/service/cache_service.go:99-108 | removes the key and its size |
| `Cache.CacheService.EvictLowestScore` | storage-node/internal/service/cache_service.go:125-147 | removes one entry of lowest score, or nothing if every entry is pinned |
| `Cache.LowestKey` | storage-node/internal/service/cache_service.go:126-134 | finds a key of lowest score that is not pinned, or the empty key if all are |
| `Cache.RoomCanBeMadeIff` | storage-node/internal/service/cache_service.go:80-82 | some evictions fit a new entry in exactly if the pinned entries leave room for it, those with scores at the limit or, with an empty key present, it and those above it; otherwise the loop never ends |
| `CommitLog.CommitLogService.Append` | storage-node/internal/service/commitlog_service.go:66-105 | numbers the entry one above the counter, modulo 2^64, seals it with its checksum and adds its line to the last segment |
| `CommitLog.CommitLogService.OpenNewSegment` | storage-node/internal/service/commitlog_service.go:108-127 | a rotation adds an empty segment, or reopens the last one under an unchanged name, and keeps log and counter |
| `CommitLog.CommitLogService.Recover` | storage-node/internal/service/commitlog_service.go:172-211 | replays all segments in order into the memtable; the counter becomes the largest number of the segments read to their end |
| `CommitLog.RecoverFromFile` | storage-node/internal/service/commitlog_service.go:215-314 | replays what the genuine lines print up to the first line that is too long, counts them and the refused ones, and reports the largest number and whether the scan failed |
| `CommitLog.ParseLine` | storage-node/internal/service/commitlog_service.go:240-275 | a line is refused exactly if it prints nothing or an entry that does not match the nonzero checksum it carries; otherwise it is taken for what it prints |
| `CommitLog.ParseUndoesSeal` | storage-node/internal/service/commitlog_service.go:73-90 | a line written by Append is read back as the entry it seals, whatever its checksum |
| `CommitLog.SegmentReadsBackIff` | storage-node/internal/service/commitlog_service.go:226-234 | a segment reads back just up to its first line that is too long, hence in full exactly if there is none |
| `CommitLog.LostIff` | storage-node/internal/service/commitlog_service.go:226-234 | a line is lost exactly if it or an earlier one of its segment has 10 MiB or more |
| `CommitLog.RecoveredIsSurvivors` | storage-node/internal/service/commitlog_service.go:172-211 | of a log some of whose lines were damaged on disk, recovery replays just the entries whose lines are neither damaged nor lost, in order |
| `CommitLog.RecoveredIsAllIff` | storage-node/internal/service/commitlog_service.go:172-211 | recovery replays the whole log exactly if no line is too long or damaged |
| `CommitLog.KeyRestoredIff` | storage-node/internal/service/commitlog_service.go:282-299 | a key gets the version of its last operation whose line is neither damaged nor lost, so it is restored exactly if that is its last operation or one that left the same entry |
| `CommitLog.DamagedLineIsSkipped` | storage-node/internal/service/commitlog_service.go:241-271 | a line that does not parse, or whose checksum is neither 0 nor right, loses its own entry only |
| `CommitLog.ReplayedIsGenuine` | storage-node/internal/service/commitlog_service.go:240-275 | an entry is replayed exactly if a line before the first long one prints it with checksum 0 or the right one |
| `CommitLog.SealGivesAwayChange` | storage-node/internal/service/commitlog_service.go:73-90 | a line that carries the nonzero checksum of an appended entry but prints one with another checksum is refused |
| `CommitLog.RecoveryResumes` | storage-node/internal/service/commitlog_service.go:172-211 | a log none of whose lines is too long or damaged is replayed in full and the counter resumes where it stood |
| `CommitLog.CounterResumesIff` | storage-node/internal/service/commitlog_service.go:189-204 | the counter resumes exactly if the last non-empty segment has no line that is too long and its last line is not damaged; otherwise it falls back and the next number given out is one already in the log |
| `CommitLog.CounterBelow` | storage-node/internal/service/commitlog_service.go:189-204 | a damaged line never moves the counter above the log's largest number |
| `CommitLog.NumbersRiseIff` | storage-node/internal/service/commitlog_service.go:66-211 | in every run numbers are consecutive in each state exactly if each restart finds the last segment in use readable |
| `CommitLog.LogSurvivesRestarts` | storage-node/internal/service/commitlog_service.go:66-211 | over every run of appends, rotations and restarts, whatever the lengths of the lines: the log holds the appended operations in order, recovery replays those not lost in that order, all of them exactly if no line is too long, and numbers stay consecutive exactly if no restart finds such a line in the last segment in use |
| `CommitLog.ShortEntriesSurvive` | storage-node/internal/service/commitlog_service.go:66-211 | if every line fits the scanner, recovery replays the whole log and resumes the counter |
| `Compaction.KWayMerger.constructor` | storage-node/internal/service/compaction_service.go:459-479 | the heap starts with the first entry of every reader |
| `Compaction.KWayMerger.Advance` | storage-node/internal/service/compaction_service.go:503-522 | pushes the reader's next entry; after a failing read the reader is spent |
| `Compaction.KWayMerger.Next` | storage-node/internal/service/compaction_service.go:487-500 | takes an entry with a least key among all readers' heads and advances only its reader |
| `Compaction.StreamIsCompleteIff` | storage-node/internal/service/compaction_service.go:511-515 | a reader contributes all its entries exactly if no read fails |
| `Compaction.NothingLostOrRepeated` | storage-node/internal/service/compaction_service.go:443-522 | what was emitted and what is pending together are the inputs, as multisets, at every point of the merge |
| `Compaction.MergeIsSorted` | storage-node/internal/service/compaction_service.go:443-500 | sorted inputs give a sorted output |
| `Compaction.MergeIsSortedIff` | storage-node/internal/storage/sstable/reader.go:169-175 | the merge's output is sorted exactly if the entries of every reader come in the order of their keys without tenants |
| `Compaction.SortedListIsEnoughIff` | storage-node/internal/service/compaction_service.go:443 | a key list sorted by composite key gives entries in that order exactly if the key does not fall where the tenant changes |
| `Compaction.OneTenantSortedIff` | storage-node/internal/service/compaction_service.go:443 | for readable entries of one tenant the entries are in order exactly if the key list is sorted |
| `Compaction.SortedListIsNotEnough` | storage-node/internal/service/compaction_service.go:443 | a concrete sorted list of two tenants' keys whose entries are out of order |
| `Compaction.UnsortedTableBringsBackOldVersion` | storage-node/internal/storage/sstable/reader.go:169-175 | with an unsorted key list a newer version is written before an older one of the same key |
| `Compaction.CompareVectorClocks` | storage-node/internal/service/compaction_service.go:379-423 | computes the sign from "ahead in a component of the first" and "not at or before" |
| `Compaction.CompareAgreesIff` | storage-node/internal/service/compaction_service.go:379-423 | the comparator is the causal order exactly if the first clock is seen ahead or no component of the second alone is negative; on all non-negative clocks it is |
| `Compaction.MergeTables` | storage-node/internal/service/compaction_service.go:255-292 | drains the merger and writes, in order, for each chosen version that is no tombstone an entry with its composite key, value, clock and timestamp |
| `Compaction.WriteEntryIfNotTombstone` | storage-node/internal/service/compaction_service.go:345-375 | writes nothing for a tombstone, otherwise one entry with the composite key, value, clock and timestamp of the version |
| `Compaction.ScanPicksBestIff` | storage-node/internal/service/compaction_service.go:259-292 | for any run without empty keys and negative clock components, the scan chooses one best version of each key exactly if equal keys stand together |
| `Compaction.DistinctIffGrouped` | storage-node/internal/service/compaction_service.go:259-292 | whatever the clocks, a run without empty keys gives a version of just its keys, each once exactly if equal keys stand together |
| `Compaction.ScanPicksBest` | storage-node/internal/service/compaction_service.go:259-292 | on a sorted run without empty keys the scan chooses one version per key, in key order, none of them causally before another version |
| `Compaction.CompactionKeepsBestVersions` | storage-node/internal/service/compaction_service.go:255-292 | for sorted inputs: every entry emitted once in order, every key keeps exactly one version, a best one |
| `Compaction.CompactionReadsBack` | storage-node/internal/service/compaction_service.go:255-300 | the compacted table, written, finalized and loaded again: reading a key gives value, clock and timestamp of the version that survives under it, one no input version is causally after; it fails exactly if that record has checksum 0 and finds nothing exactly if none survives |
| `Compaction.CompactTables` | storage-node/internal/service/compaction_service.go:218-300 | the files made from any readers hold, if equal keys come together and the entries fit the format, what `CompactionReadsBack` says of the inputs, of which none is lost or repeated |
| `Compaction.OutputMembers` | storage-node/internal/service/compaction_service.go:345-375 | an entry is written exactly if it has composite key, value, clock and timestamp of a chosen version that is no tombstone, and is none itself |
| `Compaction.EveryTenantKeepsItsKeysIff` | storage-node/internal/service/compaction_service.go:256-285 | every tenant keeps a version of each of its keys exactly if no key is empty and no two tenants share one |
| `Compaction.SharedKeyIsLost` | storage-node/internal/service/compaction_service.go:266-273 | two tenants with the same key: the second one's entry is dropped |
| `GoStrings.BuildKeyInjective` | storage-node/internal/service/storage_service.go:397-399 | composite keys of ':'-free tenants determine tenant and key |
| `GoStrings.LessIff` | storage-node/internal/storage/memtable/skiplist.go:53 | the key order: the first differing byte decides, and a proper prefix comes first |
| `GoStrings.KeysCollideIff` | storage-node/internal/service/storage_service.go:397-399 | a composite key can be read as another tenant's exactly if the tenant contains ':' |
| `GoStrings.SplitCompositeKey` | storage-node/internal/storage/sstable/reader.go:190-197 | splits at the first ':', an empty tenant without one |
| `GoStrings.ParseCompositeKey` | storage-node/internal/service/streaming_service.go:488-496 | splits at the first ':', an error without one |
| `GoStrings.SplitUndoesBuild` | storage-node/internal/storage/sstable/reader.go:190-197 | splitting a composite key gives tenant and key back exactly if the tenant has no ':' |
| `HashRing.ExtractNodeID` | coordinator/internal/algorithm/consistent_hash.go:147-161 | the backward scan cuts at the last "-vnode-" |
| `HashRing.NodeOfVNodeId` | coordinator/internal/algorithm/consistent_hash.go:147-161 | any node ID is recovered from its virtual node's name, even one that contains "-vnode-" |
| `HashRing.NodeOfIsBeforeLast` | coordinator/internal/algorithm/consistent_hash.go:147-161 | what is taken is the text before the last "-vnode-", or all of it if there is none |
| `HashRing.DecimalReadsBack` | coordinator/internal/algorithm/consistent_hash.go:38 | the decimal rendering, read digit by digit, gives the number, with no leading 0 but for 0 itself |
| `HashRing.VNodeIdReads` | coordinator/internal/algorithm/consistent_hash.go:38 | a virtual node's name is the node ID, "-vnode-" and digits that read as the index |
| `HashRing.VNodeIdInjective` | coordinator/internal/algorithm/consistent_hash.go:38 | different virtual nodes have different names |
| `HashRing.SearchFirst` | coordinator/internal/algorithm/consistent_hash.go:87-90 | finds the first point at or above the hash |
| `HashRing.ClockwiseIsRotation` | coordinator/internal/algorithm/consistent_hash.go:98-117 | the clockwise walk is the rotation that starts at that point |
| `HashRing.ClockwiseWithout` | coordinator/internal/algorithm/consistent_hash.go:51-76 | removing points and walking commute |
| `RingMembership.ConsistentHasher.AddNode` | coordinator/internal/algorithm/consistent_hash.go:31-48 | adds the hashes of the node's virtual-node names, "-vnode-" and the index in decimal after the node ID, keeps the ring sorted and records names and hashes |
| `RingMembership.ConsistentHasher.RemoveNode` | coordinator/internal/algorithm/consistent_hash.go:51-76 | removes the node's points from all three; an unknown node changes nothing |
| `RingMembership.ConsistentHasher.GetNodes` | coordinator/internal/algorithm/consistent_hash.go:79-120 | returns the first `count` distinct physical nodes of the clockwise walk |
| `RingMembership.ConsistentHasher.GetNodeForHash` | coordinator/internal/algorithm/consistent_hash.go:191-212 | returns the node of the first point at or above the hash, wrapping around |
| `RingMembership.ConsistentHasher.GetPreviousHash` | coordinator/internal/algorithm/consistent_hash.go:215-244 | returns the point before the first copy of the given one, wrapping around, and 0 for no point |
| `RingMembership.ConsistentHasher.GetAllVirtualNodes` | coordinator/internal/algorithm/consistent_hash.go:171-188 | lists the virtual nodes in ring order |
| `RingMembership.AddKeepsConsistent` | coordinator/internal/algorithm/consistent_hash.go:31-48 | adding a fresh, collision-free node keeps ring, names and node lists consistent |
| `RingMembership.NoCollisionIff` | coordinator/internal/algorithm/consistent_hash.go:37-44 | for a fresh node and any count, virtual nodes are free of collisions exactly if the hash tells their names and those on the ring apart |
| `RingMembership.RemoveKeepsConsistent` | coordinator/internal/algorithm/consistent_hash.go:51-76 | so does removing any node |
| `RingMembership.RemoveUndoesAdd` | coordinator/internal/algorithm/consistent_hash.go:31-76 | RemoveNode after AddNode of a fresh node restores every field |
| `RingMembership.PreferenceAfterRemove` | coordinator/internal/algorithm/consistent_hash.go:51-120 | after a removal every preference list is the old one with that node deleted |
| `RingMembership.PreferenceAfterAdd` | coordinator/internal/algorithm/consistent_hash.go:31-120 | after adding a fresh node every preference list is the old one with that node inserted |
| `RingMembership.PreferenceNamesEveryNodeOnce` | coordinator/internal/algorithm/consistent_hash.go:79-120 | every preference list names every physical node exactly once |
| `RingMembership.ReplicaListSize` | coordinator/internal/algorithm/consistent_hash.go:79-120 | GetNodes returns pairwise distinct nodes, as many as asked for or as there are |
| `RingMembership.MembershipChangeIsMinimal` | coordinator/internal/algorithm/consistent_hash.go:51-120 | with and without a node, each replica set differs by that node and at most one other in its place |
| `RingMembership.AddAgainChangesNoAnswer` | coordinator/internal/algorithm/consistent_hash.go:31-76 | re-adding a present node with its count duplicates points but changes no answer, and one removal clears all copies |
| `RingMembership.ReAddIsClearedIff` | coordinator/internal/algorithm/consistent_hash.go:31-76 | after re-adding with another count a removal clears all of the node's points exactly if the count is not smaller than before |
| `RingMembership.OwnerIsFirst` | coordinator/internal/algorithm/consistent_hash.go:191-212 | the owner of a hash heads its preference list |
| `KeyRanges.KeyInRanges` | storage-node/internal/service/streaming_service.go:385-400 | holds exactly if some range, read with wrap-around, contains the hash |
| `KeyRanges.TestsAgreeIff` | storage-node/internal/service/memtable_service.go:93-101 | the streaming test and the memtable scan's test agree on a range exactly if its ends differ |
| `KeyRanges.CloneHashRing` | coordinator/internal/service/keyrange_service.go:158-177 | for any ring, the clone is the ring made by adding each node, in some order, with the number of ring entries that carry its name |
| `KeyRanges.CloneIsExact` | coordinator/internal/service/keyrange_service.go:158-177 | for a consistent ring without repeated points, any order of adding rebuilds its points and names |
| `KeyRanges.CloneIsExactIff` | coordinator/internal/service/keyrange_service.go:158-177 | without collisions the clone has the original's points exactly if the original has none twice |
| `KeyRanges.NoClashIff` | coordinator/internal/service/keyrange_service.go:158-177 | the virtual nodes a clone makes do not collide exactly if the hash tells their names apart |
| `KeyRanges.ReAddedRingIsNotCloned` | coordinator/internal/service/keyrange_service.go:158-177 | the clone of a ring to which a node was added twice differs from it |
| `KeyRanges.CountVirtualNodes` | coordinator/internal/service/keyrange_service.go:165-169 | counts each node's virtual nodes |
| `KeyRanges.CountRecovered` | coordinator/internal/service/keyrange_service.go:162-169 | on a consistent ring that count is the number the node was added with |
| `KeyRanges.AssignRanges` | coordinator/internal/service/keyrange_service.go:54-87 | for any rings, the loop files the arc before the first copy of each of the node's points under the owner in the other ring |
| `KeyRanges.CalculateKeyRangesForNewNode` | coordinator/internal/service/keyrange_service.go:38-95 | for any ring, files the arcs of the node's points in the clone with the node added under their current owners; on a consistent ring without repeated points and for a fresh node it lists, between ring points, just the hashes whose owner changes, each under its old owner, in ranges with distinct ends |
| `KeyRanges.CalculateKeyRangesForRemovedNode` | coordinator/internal/service/keyrange_service.go:99-155 | for any ring, files the leaving node's arcs under their owners in the clone without it; on a consistent ring without repeated points it lists, between ring points, just the hashes whose owner changes, each under its new owner, in ranges with distinct ends; for an unknown node, nothing |
| `KeyRanges.ListedIffMoved` | coordinator/internal/service/keyrange_service.go:38-155 | for join and leave, a hash that is no ring point is listed exactly if its owner changes, and then under its old (join) or new (leave) owner |
| `KeyRanges.ListedAt` | coordinator/internal/service/keyrange_service.go:54-87 | for any sorted ring, copies included, any ring of owners and every hash: it is listed under the owner of the first point above it, if that point is the node's and the owner another node; a ring of one point lists nothing |
| `KeyRanges.JoinWithCopiesListsIff` | coordinator/internal/service/keyrange_service.go:38-95 | a join on a ring with copies lists a hash between points exactly if it moves and no further virtual node of the clone comes before the ring's next point, and then under its old owner |
| `KeyRanges.LeaveWithCopiesListsIff` | coordinator/internal/service/keyrange_service.go:99-155 | a leave from a ring with copies lists a hash between points exactly if it is the node's, under the owner of the ring's next point on the clone without the node |
| `KeyRanges.JoinMissesHash` | coordinator/internal/service/keyrange_service.go:38-95 | a concrete ring with a node added twice, on which a hash moves to a joining node without being listed |
| `KeyRanges.ListedExactly` | coordinator/internal/service/keyrange_service.go:54-87 | with the node's own ring and the ring without it, a hash is listed under the latter's owner of the first point above it, if that point is the node's |
| `KeyRanges.OwnersCompared` | coordinator/internal/algorithm/consistent_hash.go:191-212 | ownership changes only for hashes whose owning point is the node's |
| `KeyRanges.AtRingPoint` | coordinator/internal/service/keyrange_service.go:54-87 | a ring point is listed under its other owner if it moves and nowhere else, exactly if the point and its successor both belong to the node or neither does |
| `KeyRanges.RingPointCanBeMissed` | coordinator/internal/service/keyrange_service.go:99-155 | a concrete ring whose leaving node's own point moves without being listed |
| `KeyRanges.NoRangeStartsAtItsEnd` | coordinator/internal/service/keyrange_service.go:66-87 | no emitted range has equal ends, so both tests read all of them alike |
| `RangeMerging.ExchangeSort` | coordinator/internal/service/keyrange_service.go:190-197 | sorts the ranges by start in place, a permutation |
| `RangeMerging.MergeRanges` | coordinator/internal/service/keyrange_service.go:181-223 | the result covers exactly the input ranges that are not swallowed, and keeps the union exactly under the condition of UnionKeptIff; on non-wrapping ranges it is sorted, strictly separated and has exactly the union of the input |
| `RangeMerging.MergeCoversExactly` | coordinator/internal/service/keyrange_service.go:199-216 | for every sorted list, wrapping ranges included, the merge covers exactly the ranges other than wrapping ones that start within an earlier non-wrapping one's reach |
| `RangeMerging.UnionKeptIff` | coordinator/internal/service/keyrange_service.go:199-216 | with any number of wrapping ranges the union is kept exactly if each swallowed range starts in a kept one and every kept range that ends inside it ends in a kept one |
| `RangeMerging.OneWrappingRangeIff` | coordinator/internal/service/keyrange_service.go:199-216 | with one wrapping range the union is kept exactly if no earlier range reaches its start |
| `RangeMerging.RingArcsIff` | coordinator/internal/service/keyrange_service.go:199-216 | for arcs of one ring with the wrapping one among them, exactly if the arc ending at the last point is not |
| `RangeMerging.MergeIsRight` | coordinator/internal/service/keyrange_service.go:199-222 | merging ranges in start order keeps the union and separates the parts |
| `RangeMerging.WrappingRangeCanBeLost` | coordinator/internal/service/keyrange_service.go:202-216 | two neighbouring arcs of a concrete ring whose merge loses a hash |
| `VectorClocks.Compare` | coordinator/internal/algorithm/vectorclock_ops.go:16-56 | decides the pointwise order with missing components as 0 |
| `VectorClocks.LastEntryWins` | coordinator/internal/algorithm/vectorclock_ops.go:109-115 | where a coordinator is listed twice its last entry counts |
| `VectorClocks.OrderLaws` | coordinator/internal/algorithm/vectorclock_ops.go:16-56 | the order is reflexive, transitive and dual under swapped arguments |
| `VectorClocks.Merge` | coordinator/internal/algorithm/vectorclock_ops.go:59-79 | holds each coordinator that any clock names once, with its largest component in any of them |
| `VectorClocks.MergeIsLeastUpperBound` | coordinator/internal/algorithm/vectorclock_ops.go:59-79 | for non-negative clocks the merge is the least upper bound |
| `VectorClocks.StorageCompare` | storage-node/internal/service/vectorclock_service.go:18-48 | computes the sign the storage node's two loops give |
| `VectorClocks.StorageCompareAgreesIff` | storage-node/internal/service/vectorclock_service.go:18-48 | on non-negative clocks it is the causal order exactly unless the first clock is at or before the second and has a zero the second lacks |
| `VectorClocks.StorageCompareCanBeWrong` | storage-node/internal/service/vectorclock_service.go:18-48 | a concrete pair it misjudges |
| `Conflicts.DetectConflicts` | coordinator/internal/service/conflict_service.go:64-111 | computes the order-dependent fold over all responses |
| `Conflicts.ChoosesAUsableResponse` | coordinator/internal/service/conflict_service.go:64-111 | a response is chosen exactly if one is successful and found, and it is one of those |
| `Conflicts.ConflictFlagIsRight` | coordinator/internal/service/conflict_service.go:64-111 | without a conflict the choice is at or after every usable response; with one two usable responses are concurrent |
| `Conflicts.ChoiceIsMaximal` | coordinator/internal/service/conflict_service.go:64-111 | for every list and order, if timestamps do not contradict causality no usable response is causally after the choice |
| `Conflicts.ChoiceCanBeStale` | coordinator/internal/service/conflict_service.go:93-99 | a concrete list, which no read produces because responses carry no timestamps, where contradicting timestamps make the choice stale |
| `Coordinator.Required` | coordinator/internal/algorithm/quorum.go:12-36 | one replica at ONE, all at ALL, and at QUORUM the least number that is more than half |
| `Coordinator.OverlappingLevels` | coordinator/internal/algorithm/quorum.go:12-36 | two quorums, or ALL with anything, overlap; ONE with ONE does not |
| `Coordinator.VectorClockService.Increment` | coordinator/internal/service/vectorclock_service.go:28-41 | issues a one-entry clock at the next counter |
| `Coordinator.VectorClockService.IncrementFrom` | coordinator/internal/service/vectorclock_service.go:45-76 | issues the existing clock with its own component moved past both the counter and the old component |
| `Coordinator.StepKeepsCountersLead` | coordinator/internal/service/coordinator_service_v2.go:116-131 | no clock's component for a coordinator exceeds that coordinator's counter, whatever steps interleave |
| `Coordinator.EveryIssuedClockIsNew` | coordinator/internal/service/coordinator_service_v2.go:116-131 | in every run a new clock is after the one it was derived from and after or concurrent with every clock in the system |
| `Restarts.IssuedClockIsNewIff` | coordinator/internal/service/vectorclock_service.go:28-76 | in every history with restarts an issued clock is after its base, and new exactly if against each clock in the system its own number or a component of its base is ahead |
| `Restarts.RestartRepeatsAClock` | coordinator/internal/service/vectorclock_service.go:19-76 | a concrete history where a restarted coordinator, building on a stale read, issues a clock again that is before another |
| `Quorums.WriteOutcome` | coordinator/internal/service/coordinator_service_v2.go:250-282 | counts the acknowledging responses and succeeds exactly if there is one (ONE), they are more than half (QUORUM) or as many as replicas (ALL) |
| `Quorums.ReadOutcome` | coordinator/internal/service/coordinator_service_v2.go:341-383 | returns a response exactly if some found a version and these are enough for the level, and then one of them, the choice of `DetectConflicts` |
| `Quorums.CountIsCardinality` | coordinator/internal/service/coordinator_service_v2.go:250-256 | the count is the number of distinct replicas |
| `Quorums.CountIsExact` | coordinator/internal/service/coordinator_service_v2.go:250-282 | the counts are the numbers of responses with success, and with success and a version |
| `Quorums.WriteEffect` | coordinator/internal/service/coordinator_service_v2.go:67-153 | a write, failed or not, is a run of the system that changes the key at the replicas it reached and nothing else |
| `Quorums.ReadAfterWrite` | coordinator/internal/service/coordinator_service_v2.go:186-384 | at overlapping levels a read right after a successful write never returns a clock before it |
| `Quorums.ReadReturnsAWrittenValue` | coordinator/internal/service/coordinator_service_v2.go:186-384 | after any writes of any coordinators, a read returns a value some write put on that replica under that key and clock, and every write with an identical clock wrote that value |
| `Quorums.ReadReturnsTheWrite` | coordinator/internal/service/coordinator_service_v2.go:186-384 | with one coordinator, an overlapping read right after a successful write returns just its clock and value |
| `Quorums.WriteStaysVisible` | coordinator/internal/service/coordinator_service_v2.go:186-384 | with one coordinator writing in sequence, every later overlapping read returns a clock at or after the write's, whatever later writes fail partially |
| `Quorums.ConflictFreeReadIsFresh` | coordinator/internal/service/coordinator_service_v2.go:287-384 | with any number of coordinators, an overlapping read that reports no conflict is not before an earlier successful write |
| `Quorums.DisjointLevelsCanMissAWrite` | coordinator/internal/algorithm/quorum.go:12-36 | for levels that do not overlap, on every replica set some run reads the version before a successful write |
| `Quorums.SecondCoordinatorCanHideAWrite` | coordinator/internal/service/coordinator_service_v2.go:116-131 | with two coordinators a conflicting read can return a version before an earlier successful write |
| `StaleReads.CanReturnIff` | coordinator/internal/service/coordinator_service_v2.go:287-384 | in any state a read may return a version, clock and value, exactly if some replica stores it and as many replicas as the level asks for hold versions not causally after it |
| `StaleReads.ReadsAreFreshIff` | coordinator/internal/service/coordinator_service_v2.go:287-384 | reads never return something before a given clock exactly if, for every replica that holds such a version, too few replicas hold versions not after it |
| `StaleReads.LaterWritesHideAWriteIff` | coordinator/internal/service/coordinator_service_v2.go:67-384 | after a write and any later writes of any coordinators, some read returns an older version exactly under that condition, and every replica that acknowledged the write and does not displace that version holds one concurrent with it |

## Left out

- Compaction's publication of its output: the new table has no key range and tombstones are dropped at
  every level, so nothing is claimed about reads after a compaction; the service model has tables on
  level 0 only, and adding and removing tables by ID is not modelled.
- Hint replay, read repair and conflict repair as protocol steps: they overwrite replicas without
  comparing clocks.
- Streaming, gossip, topology handlers and the ring refresh: their bodies are placeholders or foreign calls.
- The API gateway, gRPC and HTTP handlers, metadata stores, tenant and idempotency caches, rate limiting,
  metrics, health checks, configuration and the worker pool: plumbing.
- Scanning memtables and SSTables for streaming beyond the range test itself.
- Validation and the disk check of a write: one yes-or-no parameter.
- Go's memory model and interleavings inside a locked region: locked regions are atomic.
- Torn log lines: a segment is a list of whole lines, so damage stays within lines; a damaged line is any
  that does not parse or validate, not one changed into another entry with a matching checksum.
- Segment names: the model lists segments in the order they were opened, which is the order of their
  names while clocks do not go backwards; only the last one can be opened again.
- Bloom sizing, cache score weights and the key-count estimate: any positive size, any real score.
- Compaction.KWayMerger.Next: which of several equal keys the heap yields first is left open, because
  it depends on the heap's layout.
- Cache.LowestKey: a pass in which the empty key wins a tie of lowest scores is left out, because it
  changes nothing and is repeated.
- Bloom.Load: a stored size of 0 counts as unreadable, because the code would divide by it later.
