# ScoriaDB: a verified model

ScoriaDB is a log-structured key-value engine with multi-version concurrency control. This
project models its components in Dafny and proves what they promise.

The model has seven parts.

- **The memtable.** `SkipList` is the arena-indexed skip list, with one writer; `Versions` says
  what its operations mean as changes to a sorted sequence of versions, `Links` how single link
  stores change the levels, `Readers` interleaves lock-free readers with every store of the
  writer, and `Overtaking` says which reads take effect at one moment. `Arena` is the block
  allocator below it. Versions of a key run from oldest to newest, as the code orders them;
  comments in the code that say newest first are wrong.
- **Durability.** `Wal` is the record codec and the recovery loop, `GroupCommit` the buffer in
  front of the file, `Recovery` the replay into a memtable, `Batch` the two batch decoders,
  `Shard` the write path and the end-to-end crash theorem, `Restart` what is read afterwards.
- **Tables.** `Format`, `Table`, `Writer`, `Lookup` and `TableIter` are the file format, the
  writer, the lookup and the iterator; `Straddling` a table whose lookup goes wrong; `Bits` and
  `Bloom` the filter; `Flush` writes a memtable to a table; `Refcount` is the lifetime of the
  mapped file under concurrent release and close.
- **The value log.** `VLog` appends, grows its mapping, reads and collects garbage.
- **Transactions.** `Txn` is the state machine of transactions over one memtable and its cache of
  last commits, `Engine` the objects that implement its steps, `Snapshots` the registry, `Cache`
  the bounded cache, `Conflict` the check against it. `Isolation` is what runs guarantee,
  `Outcomes` what a caller observes, and `Overlap` a run that breaks isolation.
- **Merging.** `Merge` is the merge of sorted sources, `MvccIter` the filter that keeps the last
  version of a key, `Compaction` the retention rule.
- **Shared.** `Base`, `Keys`, `Mvcc`, `Values`, `Endian` and `Sorting`.

Checksums are an arbitrary function of the bytes. Files and mapped regions are byte sequences
or arrays. Map iteration, random heights and the library sort are free to choose any order.

Where the code does less than its comments promise, the model follows the code: a lemma with a
concrete input shows the failure, and another says exactly when the promise holds. The main
cases: a grouped record above 256 KB is acknowledged and cut (`AppendKeepsFaithful`), a torn log
tail hides what is appended behind it (`TornTailHidesIff`, `CrashReopenCrash`), a 12-byte value
is replayed as a pointer (`ReplayOfWrite`), the latest-version lookup overlooks a delete
(`LatestIsLastCommit`) and with it a commit whose key was evicted from the cache overlooks a
conflict (`CheckIsWrongIff`, `StaleCheckAdmitsOverlap`), a committed 12-byte value is read as a
pointer (`CommittedPutReads`), a plain write that drew its timestamp before a transaction began
changes its reads (`StableIffSettled`), a delete in place overtakes a read (`GetLinearizesIff`),
a flush and a compaction drop tombstones over older values (`FlushDropsTombstones`,
`ReadSurvives`), compaction loses empty values (`EmptyValueIsLost`) and turns pointers into
inline values (`CompactionRetags`), a key in two blocks is read from the wrong one
(`LookupIsReadIff`, `StraddlingHidesNewer`), the max key on disk is wrong (`ReopenedLookup`),
and two goroutines inside the close of a mapping both call munmap (`UnmappedOnceIff`).

`dafny verify dfyconfig.toml` checks the whole project.

## Model

| member | source | states |
|---|---|---|
| Keys.CompareKeys | internal/keys/keys.go:21-41 | the loop returns -1 exactly when the first key comes before the second: a proper prefix, or the smaller byte where they first differ; 0 exactly for equal keys, 1 the other way round |
| Keys.CompareIsLexicographic | internal/keys/keys.go:21-41 | the comparison that every order in the project uses is that one, sign by sign |
| Keys.CompareIsTotalOrder | internal/keys/keys.go:21-41 | the comparison is antisymmetric, transitive, and zero on equal keys only |
| Mvcc.MVCCKey.CommitTS | internal/mvcc/mvcc.go:82-98 | inverting a timestamp twice gives it back: the key is the one made from its commit timestamp |
| Mvcc.NodeKeyLessIsStrictTotalOrder | internal/engine/memtable/skiplist.go:66-75 | node order is a strict total order, and within one user key it is commit order, oldest first |
| Versions.LowerBoundSplits | internal/engine/memtable/skiplist.go:81-97 | the linear scan that the search is compared with: everything before the bound is below the key, the bound is not |
| Versions.LastVisibleIsNewest | internal/engine/memtable/skiplist.go:124-165 | the last visible version in order is the newest one: no visible version has a later commit |
| Versions.ReadAfterPut | internal/engine/memtable/skiplist.go:124-222 | a put is read by exactly the snapshots it takes over, every other read stays |
| Versions.ReadAfterDelete | internal/engine/memtable/skiplist.go:124-306 | a delete hides its key from exactly the snapshots it takes over, every other read stays |
| Versions.AtAfterPut | internal/engine/memtable/skiplist.go:168-222 | as a map: a put adds a new (key, timestamp) and never overwrites one |
| Versions.AtAfterDelete | internal/engine/memtable/skiplist.go:253-306 | as a map: a delete leaves a tombstone under its key and touches no other key |
| Versions.OperationsKeepSorted | internal/engine/memtable/skiplist.go:168-306 | put, delete and tombstone insertion keep the versions sorted |
| Versions.DeleteKeepsKeysUnique | internal/engine/memtable/skiplist.go:253-306 | keys stay unique exactly when a delete does not meet its own key as the empty user key, which the exact search never finds |
| Versions.LiveMembers | internal/engine/memtable/skiplist.go:422-437 | what an iterator yields are exactly the versions that are not tombstones |
| Versions.LatestIsLastCommit | internal/engine/memtable/memtable.go:119-167 | the latest-version lookup reports the last commit exactly when no version is live or the newest one is |
| Versions.LatestMissesDelete | internal/engine/memtable/memtable.go:119-167 | a concrete run: after a put at 1 and a delete at 2 the lookup still answers 1 |
| Links.LinkStep | internal/engine/memtable/skiplist.go:204-217 | storing one link of a new node keeps every level sorted and nested and never links to the head |
| Links.LinkStepView | internal/engine/memtable/skiplist.go:204-217 | only the lowest link store changes the contents, and it inserts at the lower bound |
| SkipList.RandomHeight | internal/engine/memtable/arena.go:44-50 | a height between 1 and the maximum |
| SkipList.SkipList.constructor | internal/engine/memtable/skiplist.go:41-52 | an empty list: only the head, every level empty |
| SkipList.SkipList.FindGreaterOrEqual | internal/engine/memtable/skiplist.go:81-97 | the level-by-level search finds the node at the lower bound that a linear scan of level 0 finds |
| SkipList.SkipList.FindPrevs | internal/engine/memtable/skiplist.go:168-195 | the search finds the right predecessor on every level, and an existing node exactly when the key is stored |
| SkipList.SkipList.LinkLevels | internal/engine/memtable/skiplist.go:204-217 | linking bottom-up inserts the version in order and keeps the links of all levels |
| SkipList.SkipList.Put | internal/engine/memtable/skiplist.go:168-222 | sorted insertion; refused exactly when (key, timestamp) is stored; all levels stay valid and length counts the live nodes |
| SkipList.SkipList.FindExact | internal/engine/memtable/skiplist.go:107-118 | finds the node with exactly this key, except for the empty user key |
| SkipList.SkipList.Delete | internal/engine/memtable/skiplist.go:226-247 | an existing live version becomes a tombstone, otherwise nothing changes |
| SkipList.SkipList.DeleteWithTS | internal/engine/memtable/skiplist.go:253-306 | the version becomes a tombstone or a tombstone is inserted; reports no change exactly when it already was one |
| SkipList.SkipList.Len | internal/engine/memtable/skiplist.go:309-311 | length is the number of live versions, which is how many the iterator yields |
| SkipList.SkipList.Get | internal/engine/memtable/skiplist.go:124-165 | the newest version at or before the snapshot when it is live; absent for a tombstone and for the empty key |
| Versions.LatestIsNewestLive | internal/engine/memtable/memtable.go:119-167 | a key is found exactly when some version of it is live, with the value and timestamp of a live one that no other live one is newer than; else no value and the last commit |
| SkipList.SkipList.GetLatest | internal/engine/memtable/memtable.go:119-167 | walks the versions of a key and answers with its newest live version, else its newest tombstone |
| SkipList.SkipListIterator.constructor | internal/engine/memtable/skiplist.go:414-419 | a new iterator has all live versions before it |
| SkipList.SkipListIterator.Next | internal/engine/memtable/skiplist.go:422-437 | each call yields the next live version, and reports the end exactly when none is left |
| SkipList.UpperLevelIsSubsequence | internal/engine/memtable/skiplist.go:168-217 | in every valid list each level is a subsequence of the level below |
| Readers.WriterStepIsSafe | internal/engine/memtable/skiplist.go:168-306 | every single store of the writer keeps all levels sorted and nested and only adds to them |
| Readers.ReaderStepIsSafe | internal/engine/memtable/skiplist.go:81-165 | every single load of a reader keeps what is known about its search |
| Readers.RunKeepsInv | internal/engine/memtable/skiplist.go:81-306 | in every state of every interleaving the memory is a valid list |
| Readers.SearchLinearizes | internal/engine/memtable/skiplist.go:81-97 | a search ends with the first node not below its target in the list as it stood at its last level-0 load, the one after which it went on comparing |
| Overtaking.GetLinearizes | internal/engine/memtable/skiplist.go:124-165 | every read of every interleaving equals the snapshot read of the list at one moment while it ran, unless a delete step raised the flag of its version between its two loads of it |
| Overtaking.GetLinearizesIff | internal/engine/memtable/skiplist.go:124-165 | the exact condition, when no nil value was ever put: a read takes effect at one moment while it runs exactly when no delete of its version falls between its two loads |
| Overtaking.DeleteOvertakesRead | internal/engine/memtable/skiplist.go:124-165 | a complete run from the empty list in which that happens: the reader reports found with a nil value |
| Arena.Arena.constructor | internal/engine/memtable/arena.go:88-93 | a new arena has one zeroed block and no regions |
| Arena.Arena.Alloc | internal/engine/memtable/arena.go:100-134 | hands out an aligned region apart from all earlier ones; nil exactly for a negative size, a panic exactly for one beyond a block |
| Arena.Arena.Grow | internal/engine/memtable/arena.go:137-173 | a new block is appended, old blocks stay where they are, and the region starts the new block |
| Arena.Arena.NewNode | internal/engine/memtable/arena.go:176-222 | the new node reads back its key and value, and the bytes of every earlier node are unchanged |
| Arena.Arena.Index | internal/engine/memtable/arena.go:227-253 | the index leads back to its node exactly when the block is among the first 1024 |
| Arena.IndexRoundTrip | internal/engine/memtable/arena.go:227-253 | 32-bit index arithmetic recovers offset and block, the block modulo 1024 |
| Arena.ImageReads | internal/engine/memtable/arena.go:176-222 | a node image gives back key and value, nil and empty values told apart |
| Endian.FromLEOfLE | internal/engine/sstable/encoding.go:28-52 | little-endian fields round-trip |
| Endian.ByteOrder | internal/engine/sstable/encoding.go:28-52 | which byte stands where: the lowest first in little-endian, last in big-endian |
| Endian.BETruncates | internal/engine/wal.go:223-263 | a big-endian field keeps only the low bytes of a length |
| Wal.EncodeWalEntryTo | internal/engine/wal.go:223-263 | encodes a record into the buffer, or refuses exactly when it is too long |
| Wal.Recover | internal/engine/wal.go:163-186 | the read loop delivers what the record-by-record decoding of the file delivers |
| Wal.DecodeOfEncode | internal/engine/wal.go:223-316 | decoding an encoded record gives it back exactly when its key is shorter than 65536 bytes |
| Wal.DecodeOnlyEncoded | internal/engine/wal.go:268-316 | nothing else decodes: what is read as a record is its encoding with the right checksum, up to unused flag bits |
| Wal.DecodeOfTorn | internal/engine/wal.go:268-316 | a record cut anywhere does not decode |
| Wal.RecoverCut | internal/engine/wal.go:163-186 | any prefix of a concatenation of records recovers exactly the records wholly before the cut |
| Wal.WholeRecordsIsMaximal | internal/engine/wal.go:163-186 | the recovered records are all that lie before the cut: the next one does not fit |
| GroupCommit.GroupCommitWriter.Write | internal/engine/wal_group.go:97-115 | buffers the record, flushing first when it does not fit; fails exactly when closed |
| GroupCommit.GroupCommitWriter.FlushLocked | internal/engine/wal_group.go:128-148 | the buffer goes to the file in order and is empty afterwards |
| GroupCommit.GroupCommitWriter.Close | internal/engine/wal_group.go:207-227 | the first close flushes, later ones change nothing |
| GroupCommit.WriteAheadLog.Write | internal/engine/wal.go:125-152 | appends the encoding through the group or straight to the file, and says when it could not |
| GroupCommit.AppendKeepsFaithful | internal/engine/wal_group.go:97-115 | file and buffer stay the concatenation of the accepted records exactly when a grouped record is at most 256 KB |
| GroupCommit.RunIsFaithful | internal/engine/wal_group.go:97-148 | in every run of writes, flushes, ticks and closes nothing accepted is lost, reordered or doubled |
| GroupCommit.CrashLeavesPrefix | internal/engine/wal.go:163-186 | after any run and any cut of the file, recovery delivers exactly the accepted records wholly before the cut |
| GroupCommit.FlushedRunRecoversAll | internal/engine/wal_group.go:118-148 | once the buffer is empty every accepted record is recovered |
| GroupCommit.TornTailHidesIff | internal/engine/wal.go:97-121 | for every checksum, records, tail and later records: recovery stops before the tail exactly when tail and later records do not decode as a record by accident |
| GroupCommit.CrashReopenCrash | internal/engine/wal.go:97-186 | a run, a crash, a run over the reopened log and another crash: everything whole comes back after a cut between records; behind a torn tail that is no accidental record nothing new does, so the promise holds exactly when no new record is whole |
| GroupCommit.TornByteHidesRecord | internal/engine/wal.go:97-121 | one torn byte hides a whole record, exactly for the checksums that do not match on the shifted header |
| Recovery.RecoverFromWAL | internal/engine/recovery.go:28-107 | the memtable becomes the one on which every replayed operation was applied, and the highest timestamp is returned |
| Recovery.MaxTimestampIsMaximum | internal/engine/recovery.go:28-107 | that timestamp bounds every entry and is the timestamp of one |
| Recovery.BoundsCheckIff | internal/engine/recovery.go:43-52 | the bounds check of replay is right about every pointer except one whose record would end beyond the int64 range, which it lets through |
| Recovery.ReplayBatchOps | internal/engine/recovery.go:60-107 | of a batch only the operations routed to the shard are applied, in order |
| Recovery.ReplayTwice | internal/engine/recovery.go:28-107 | replaying a log again changes nothing exactly when it holds no delete of the empty key |
| Shard.Shard.PutWithTS | internal/engine/lsm.go:382-482 | a small value goes to the log and then, tagged, to the memtable; neither changes when the log refuses |
| Shard.Shard.DeleteWithTS | internal/engine/lsm.go:712-742 | a delete goes to the log and then to the memtable as a tombstone |
| Shard.ReplayOfWrite | internal/engine/recovery.go:28-154 | replaying a logged write does what the write did exactly when its value is not 12 bytes long |
| Shard.ReplayRebuilds | internal/engine/recovery.go:28-107 | replaying the log of any run of small writes performs the operations of the run |
| Shard.CrashRecoversPrefixOfMemtable | internal/engine/shard.go:88-157 | end to end, over a log that holds any records already: after a crash at any byte, replay rebuilds what exactly the records wholly before the cut give, and without 12-byte values that is the memtable of the old records and of a prefix of the accepted writes |
| Shard.SecondCrash | internal/engine/shard.go:88-157 | and after a restart and a second crash, likewise over any records: all whole writes of both lives after a clean cut, only those of the first behind a torn tail |
| Restart.OpIsRead | internal/engine/recovery.go:28-107 | in whatever order a log brings operations, a snapshot reads for a key the newest one that it sees |
| Restart.ReplayOfCommit | internal/engine/recovery.go:59-98 | replay of the record of a commit does to a shard what the commit did to its keys, exactly unless a value of 12 bytes is, as a pointer, outside the value log |
| Restart.CommitSurvivesRestart | internal/engine/recovery.go:28-107 | after a restart a committed delete reads as absent, and a committed put reads back exactly when it is not 12 bytes long or is a pointer in bounds that leads to itself; one out of bounds is absent |
| Restart.WriteSurvivesRestart | internal/engine/recovery.go:28-58 | the same for the record of a plain write that replay does not leave out |
| Restart.CommitSurvivesCrash | internal/engine/wal.go:163-186 | end to end: after any run of the log and any cut behind its record, an acknowledged commit reads back so |
| Restart.LiveWriteReads | internal/engine/shard.go:88-157 | before a restart a write reads back from its memtable as it is |
| Shard.SecondReplayChangesIff | internal/engine/lsm.go:208-217 | the second replay at startup changes nothing exactly when it deletes no empty key and puts nothing that the first left out as a pointer beyond the first value log |
| Batch.EncodeBatch | internal/txn/batch.go:115-152 | the bytes of a batch: count and operations with their lengths |
| Batch.DecodeBatch | internal/txn/batch.go:155-210 | decodes into operations or fails, as the layout says |
| Batch.DecodeBatchLocal | internal/engine/recovery.go:157-212 | the engine's own decoder |
| Batch.BatchRoundTrip | internal/txn/batch.go:115-210 | decoding an encoded batch gives it back exactly when the count, keys and values fit their fields |
| Batch.DecodesOnlyEncoded | internal/txn/batch.go:155-210 | what decodes is the count and the bytes of the operations it decodes to, one after another |
| Batch.LocalAcceptsWhatBatchDoes | internal/engine/recovery.go:157-231 | the engine's own reader, with its own integer helpers, accepts what the batch decoder does, with the same keys, kinds and put values; the converse exactly when every tag is known |
| Values.PointerRoundTrip | internal/engine/value_pointer.go:101-115 | a value pointer survives its 12-byte encoding |
| VLog.AlignTo | internal/engine/vlog.go:802-807 | the least multiple that is not smaller |
| VLog.VLog.constructor | internal/engine/vlog.go:189-227 | opening maps a zero-padded multiple of the extension, with the contents as data |
| VLog.VLog.ExtendMmap | internal/engine/vlog.go:324-367 | the new region starts with the old one and is aligned |
| VLog.VLog.Write | internal/engine/vlog.go:246-309 | appends one record and returns its pointer; inline values and a closed log leave it as it is |
| VLog.VLog.Read | internal/engine/vlog.go:370-405 | a checked read, which fails on a closed log |
| VLog.ReadIff | internal/engine/vlog.go:370-405 | a read answers exactly with a value whose record stands there, length and checksum included |
| VLog.OpenContentsIff | internal/engine/vlog.go:134-187 | opening fails exactly on a file too short for a header, and keeps the contents exactly when they begin with one |
| VLog.RecordReads | internal/engine/vlog.go:246-405 | a written record reads back exactly when its length is between 1 and 2^31 - 1 |
| VLog.RunKeepsValues | internal/engine/vlog.go:246-405 | across all later writes and extensions every pointer reads exactly its value, exactly when the length fits 31 bits |
| VLog.ReopenKeepsReads | internal/engine/vlog.go:134-227 | reopening the padded file keeps every read |
| VLog.VLog.GC | internal/engine/vlog.go:568-696 | every live pointer reads the same through its translation, which is injective and complete; the new size is 8 plus the records; it fails, changing nothing, exactly when closed or some live value is unreadable |
| VLog.MoveOne | internal/engine/vlog.go:611-632 | one moved value reads back at its new place and the earlier ones still do |
| Bits.SetBit | internal/engine/sstable/bloom.go:149-187 | setting a bit sets that bit and no other |
| Bits.PopcountCounts | internal/engine/sstable/bloom.go:405-414 | the bit-trick population count is the number of set bits, for every word |
| Bloom.BloomFilter.Add | internal/engine/sstable/bloom.go:149-161 | sets the k positions of the key and counts it |
| Bloom.BloomFilter.MayContain | internal/engine/sstable/bloom.go:173-187 | true exactly when all k positions of the key are set |
| Bloom.BloomFilter.Encode | internal/engine/sstable/bloom.go:227-253 | header and words in little-endian order |
| Bloom.AddedContains | internal/engine/sstable/bloom.go:149-187 | an added key is contained and no other key is lost |
| Bloom.NoFalseNegatives | internal/engine/sstable/bloom.go:149-187 | after any sequence of adds every added key is reported |
| Bloom.ReportsIff | internal/engine/sstable/bloom.go:149-187 | exactly which keys a filter reports after any adds to an empty one: those of which every position is a position of an added key |
| Bloom.DecodedOfEncoded | internal/engine/sstable/bloom.go:227-332 | a filter survives encoding and decoding |
| Bloom.BloomFilter.BitCount | internal/engine/sstable/bloom.go:396-402 | counts all set bits |
| Bloom.BitCountBound | internal/engine/sstable/bloom.go:396-402 | set bits never exceed k times the number of adds |
| Bloom.FreshBitCount | internal/engine/sstable/bloom.go:396-402 | and so for every filter that starts out empty |
| Format.KeyRoundTrip | internal/engine/sstable/encoding.go:28-52 | an encoded versioned key decodes to itself |
| Format.ParseEncoded | internal/engine/sstable/writer.go:366-412 | an encoded entry parses back wherever it stands in a block |
| Format.ValueSurvives | internal/engine/sstable/writer.go:366-412 | nil is read as a tombstone; untagged and inline-tagged values are read as themselves |
| Format.PointerSurvives | internal/engine/sstable/reader.go:659-690 | a stored value pointer reads back as its bytes alone |
| Format.UntaggedSurvivesIff | internal/engine/sstable/encoding.go:57-71 | stored bytes of the untagged format read back unchanged exactly when the first byte is none of the three tags |
| Format.ScanIsRead | internal/engine/sstable/reader.go:633-696 | the block scan answers what a linear search over its entries answers |
| Writer.SortEntries | internal/engine/sstable/writer.go:143-150 | a permutation of the entries in node order |
| Writer.FormBlocks | internal/engine/sstable/writer.go:153-217 | the blocks partition the sorted entries, each within the block size or a single entry, indexed by its first entry, and each ends only where the next entry would not fit |
| Writer.TableWriter.constructor | internal/engine/sstable/writer.go:67-86 | an empty writer with an empty filter |
| Writer.TableWriter.AppendInternal | internal/engine/sstable/writer.go:104-119 | buffers the entry; the key bounds stay exact and the filter knows every key |
| Writer.TableWriter.Finish | internal/engine/sstable/writer.go:131-255 | sorts, partitions and writes: the file is the image of the blocks, filter and bounds |
| Writer.TableWriter.WriteFooter | internal/engine/sstable/writer.go:258-358 | index, filter, bounds and footer follow the blocks, the max key with the offset of the min key |
| Table.ParseIndex | internal/engine/sstable/reader.go:288-322 | the parsing loop |
| Table.OpenOfFile | internal/engine/sstable/reader.go:106-179 | opening a finished file recovers index, filter, count and min key; the max key only when it is as long as the min key, and then wrongly |
| Table.ServedIff | internal/engine/sstable/reader.go:425-453 | a block is served exactly when it stands in the file with its length in front and its checksum behind |
| Table.OpensOnlyTables | internal/engine/sstable/reader.go:106-140 | only a file with the magic number in its footer opens |
| Table.BlockReads | internal/engine/sstable/reader.go:425-453 | every block is read back from its index entry, checksum included |
| Lookup.SearchIsLowerBound | internal/engine/sstable/reader.go:588-590 | on a sorted index the binary search finds the first key not below the target |
| Lookup.Reader.Lookup | internal/engine/sstable/reader.go:564-697 | range filter, Bloom filter, block choice and scan; nothing on a closed reader |
| Lookup.ScanBlock | internal/engine/sstable/reader.go:633-688 | the scan loop keeps the last qualifying entry |
| Lookup.ChosenHolds | internal/engine/sstable/reader.go:588-604 | the chosen block holds every version of a key that straddles no block boundary |
| Lookup.LookupReadsOneBlock | internal/engine/sstable/reader.go:588-696 | straddling or not, a lookup answers the linear search of one block |
| Lookup.LookupIsRead | internal/engine/sstable/reader.go:564-697 | with true bounds a lookup equals the linear search over all entries, for every key that straddles no boundary |
| Lookup.FindsNewestInBlock | internal/engine/sstable/reader.go:588-696 | the newest visible version is found exactly when it, or a copy of it, lies in the block that is searched |
| Lookup.LookupIsReadIff | internal/engine/sstable/reader.go:564-697 | straddling or not, a lookup in a written table equals the search over all entries exactly when the key has no entry, or its last visible version lies in the chosen block or is answered alike; a key and timestamp may be in the table more than once |
| Straddling.StraddlingHidesNewer | internal/engine/sstable/reader.go:588-604 | a complete table image for every checksum: two versions in two blocks, and the lookup answers the older one |
| Lookup.ReopenedLookup | internal/engine/sstable/writer.go:296-337 | after reopening, a lookup differs from the right one exactly for a live key above the min key when both bounds have one length |
| TableIter.SSTableIterator.constructor | internal/engine/sstable/iterator.go:46-61 | a new iterator has the whole table before it |
| TableIter.SSTableIterator.Next | internal/engine/sstable/iterator.go:65-123 | yields the next entry, or the end, or the error, on any file contents |
| TableIter.SSTableIterator.NextBlock | internal/engine/sstable/iterator.go:126-148 | moving to the next block changes nothing of what remains |
| TableIter.FailsIff | internal/engine/sstable/iterator.go:65-148 | on any file, an iteration ends without an error exactly when every block it meets has its checksum right and is entries to its end |
| TableIter.IteratorYieldsEntries | internal/engine/sstable/iterator.go:65-148 | draining yields exactly the entries in sorted order with tags off |
| TableIter.ReadIsNewest | internal/engine/sstable/writer.go:143-150 | the search over the sorted entries answers the newest of the appended ones, in whatever order they came, copies included |
| TableIter.WrittenTableReads | internal/engine/sstable/reader.go:564-697 | the whole chain: a lookup in a written table gives the newest visible payload among the appended entries for a key that straddles no boundary, and for any key exactly when the chosen block has it |
| Flush.AppendLive | internal/engine/flush.go:190-228 | the loop appends exactly the live versions and tracks exact bounds |
| Flush.FlushMemTable | internal/engine/flush.go:181-240 | the flushed table is the image of the live versions, with a filter that knows every key |
| Flush.FlushKeepsReads | internal/engine/flush.go:190-228 | without tombstones every read of a non-empty key survives the flush |
| Flush.FlushDropsTombstones | internal/engine/memtable/skiplist.go:422-437 | with tombstones a read survives exactly unless a tombstone hid an older live value, which then comes back |
| Flush.FlushedTableReads | internal/engine/sstable/reader.go:564-697 | a lookup in the flushed table equals the memtable read |
| Flush.FlushedValueReads | internal/engine/sstable/reader.go:564-697 | the answer itself: a lookup in the flushed table gives the bytes behind the tag, of an inline value and of a pointer alike |
| Compaction.CompactLevel0 | internal/engine/compaction.go:104-216 | the output is what the retention rule keeps of the sorted input, with exact bounds and count |
| Compaction.RetainVersions | internal/engine/compaction.go:170-215 | the rule applied to the versions of one user key |
| Compaction.KeptIsFromInput | internal/engine/compaction.go:144-216 | nothing is invented and nothing written twice |
| Compaction.SeenIsNewest | internal/engine/compaction.go:104-119 | in the sort order the first version a snapshot sees is its newest |
| Compaction.ReadSurvives | internal/engine/compaction.go:170-190 | on the stored entries before and after, tags and replayed copies included, exactly which reads survive: nothing found, a kept entry, a tombstone with nothing kept below it, or a value with the same payload kept below it |
| Compaction.EmptyValueIsLost | internal/engine/compaction.go:173-190 | a read that finds the empty value never finds it after a compaction, which takes it for a tombstone |
| Compaction.EmptyPutDisappears | internal/engine/compaction.go:173-190 | a concrete put of the empty value, found before and gone afterwards |
| Compaction.LiveKeySurvives | internal/engine/compaction.go:170-190 | a snapshot goes on seeing the same version of a key without empty versions exactly when that is the newest or not above the watermark at which the loop met it |
| Compaction.LiveKeyReads | internal/engine/compaction.go:170-190 | such a key reads the same at every snapshot up to the watermarks and from its newest commit on |
| Compaction.CopyIsKeptTwice | internal/engine/compaction.go:150-213 | the newest version of a key and its copy are both written exactly when they are not above the watermark, so the output may hold copies too |
| Compaction.TombstoneResurrects | internal/engine/compaction.go:173-190 | a concrete key whose dropped tombstone brings an older value back |
| Compaction.CompactionRetags | internal/engine/compaction.go:88-213 | the stored value of a kept entry comes through as it was exactly when it was inline; a pointer loses its tag |
| Merge.MergeIterator.constructor | internal/engine/iterator.go:184-201 | the heap holds the sources that have an entry; a failing empty source is an error |
| Merge.MergeIterator.Next | internal/engine/iterator.go:203-250 | takes an entry of least key; what remains and it are the pairs there were; the next head differs from it |
| Merge.Drain | internal/engine/iterator.go:184-250 | draining ends; keys never decrease, no pair comes twice in a row, and without an error the pairs are the union of the sources |
| MvccIter.MVCCIterator.ScanGroup | internal/engine/mvcc_iterator.go:78-115 | one pass over the versions of a key: the last one decides |
| MvccIter.MVCCIterator.Next | internal/engine/mvcc_iterator.go:53-125 | yields the next live key, on any stream |
| MvccIter.YieldsLiveKeys | internal/engine/mvcc_iterator.go:53-125 | on a grouped stream exactly the keys whose last version is live are yielded, with its value |
| MvccIter.YieldsEachKeyOnce | internal/engine/mvcc_iterator.go:53-125 | and each of them once |
| Refcount.StepKeepsInv | internal/engine/sstable/reader.go:709-750 | every atomic step keeps the count, the flag and who has yet to unmap consistent |
| Refcount.NeverUnmappedWhileHeld | internal/engine/sstable/reader.go:709-750 | in every interleaving the file is mapped while any reader holds its reference |
| Refcount.UnmappedAtTheEnd | internal/engine/sstable/reader.go:709-750 | once close and all releases finished without a panic the file has been unmapped |
| Refcount.UnmappedOnceIff | internal/engine/sstable/reader.go:715-750 | when all have finished, the region was unmapped exactly once if and only if no two goroutines were ever between loading and clearing it together |
| Refcount.NeverUnmappedTwice | internal/engine/sstable/reader.go:715-750 | without such an overlap, as with an atomic close of the mapping, at no moment more than once |
| Refcount.UnmappedTwice | internal/engine/sstable/mmap_linux.go:129-148 | a run with that overlap: the last release and the close both pass the nil check before either clears the region, and both call munmap on it |
| Snapshots.SnapshotRegistry.RegisterSnapshot | internal/engine/snapshot.go:51-58 | one more holder of the timestamp, and the minimum lowered |
| Snapshots.SnapshotRegistry.UnregisterSnapshot | internal/engine/snapshot.go:68-84 | one holder less and an exact minimum; unknown timestamps are ignored |
| Snapshots.SnapshotRegistry.RecomputeMin | internal/engine/snapshot.go:95-109 | the minimum over the open timestamps, 0 when there are none |
| Snapshots.RegisterKeepsExact | internal/engine/snapshot.go:51-58 | registering keeps the minimum exact unless a snapshot at 0 is open beside it |
| Snapshots.UnregisterCounts | internal/engine/snapshot.go:68-84 | closing a snapshot lowers its own count only |
| Cache.LastCommitCache.Update | internal/engine/cache.go:56-84 | the key is cached with its commit; at most the coldest key leaves, and only over the limit |
| Cache.LastCommitCache.Get | internal/engine/cache.go:91-109 | a hit returns the entry and moves it to the front |
| Cache.LastCommitCache.Evict | internal/engine/cache.go:75-83 | removes from the back until the limit holds, in list and map alike |
| Cache.LastCommitCache.CheckConflict | internal/engine/lsm.go:690-709 | compares the cached timestamp, or on a miss the latest one, with the start |
| Cache.TouchKeepsFirst | internal/engine/cache.go:56-84 | the inclusion property: the bounded list is always the most recently touched keys of the unbounded one |
| Engine.Engine.constructor | internal/engine/lsm.go:81-226 | an opened engine: the recovered versions, the last timestamp at least 1 and at least what is on file and in the logs, no snapshots, nothing cached |
| Engine.Engine.NextTimestamp | internal/engine/lsm.go:365-367 | timestamps grow by one |
| Engine.Engine.GetWithTS | internal/engine/lsm.go:544-566 | a snapshot read of the memtable, decoded |
| Engine.Engine.CheckConflict | internal/engine/lsm.go:690-709 | one check of the cache with the latest-version lookup of the memtable as fallback, and what it leaves in the cache |
| Engine.Engine.PutWithTS | internal/engine/lsm.go:382-482 | a plain put of a small value changes memtable and cache as one step of the state machine |
| Engine.Engine.DeleteWithTS | internal/engine/lsm.go:712-742 | a plain delete likewise |
| Txn.RecoveredIsResumable | internal/engine/lsm.go:144-220 | whatever is in a log, timestamps resume above every version replayed from it |
| Txn.LastCommitAfterOne | internal/engine/lsm.go:712-742 | a write newer than the store moves the last commit of its key and of no other |
| Engine.Engine.WriteAtomicBatch | internal/engine/lsm.go:485-541 | applies the whole batch at one timestamp and caches it key by key |
| Engine.Transaction.constructor | internal/txn/transaction.go:53-62 | the snapshot is registered and the buffer empty |
| Engine.Transaction.Get | internal/txn/transaction.go:73-87 | own writes first, then the snapshot; an error once closed |
| Engine.Transaction.Put | internal/txn/transaction.go:91-101 | buffers a put unless closed |
| Engine.Transaction.Delete | internal/txn/transaction.go:104-114 | buffers a delete unless closed |
| Engine.Transaction.FindConflict | internal/txn/transaction.go:133-142 | checks the buffered keys in some map order up to the first conflict, evictions on the way included |
| Engine.Transaction.Commit | internal/txn/transaction.go:121-168 | does what the commit step of the state machine does, for the two map orders in which it checks and writes |
| Engine.Transaction.Rollback | internal/txn/transaction.go:171-179 | closes, drops the buffer and unregisters, or reports it was closed |
| Txn.StepKeepsInv | internal/txn/transaction.go:53-179 | every step keeps the store, the commits, the registry, the timestamps on their way and the cache consistent, which is never ahead of the store |
| Conflict.CheckedReports | internal/engine/lsm.go:690-709 | a check answers by the cached or else the reported timestamp, and leaves what it reported in the cache, in front |
| Conflict.CheckAllReports | internal/txn/transaction.go:133-142 | the loop over the buffer finds a conflict exactly when one of the keys is reported above the start |
| Conflict.CheckIsWrongIff | internal/engine/lsm.go:690-709 | one check raises no false alarm, and misses a commit exactly when what is reported is at or below the start and the last commit is not; with a right cache that takes an uncached key with a tombstone over a live version |
| Conflict.CheckAllIff | internal/txn/transaction.go:133-142 | the same for the loop over the buffer, with what its checks do to the cache |
| Isolation.CommitChecksIff | internal/txn/transaction.go:121-142 | a commit is refused only over a real conflict, and admitted over one exactly when a key was stale at its check |
| Isolation.FirstCommitterWinsIff | internal/txn/transaction.go:121-142 | first committer wins in exactly the runs in which no check is stale |
| Isolation.CommittedNeverOverlap | internal/txn/transaction.go:121-168 | from any restart on, in every run without a stale check no two committed transactions with overlapping lifetimes wrote the same key |
| Isolation.ChecksNeverStale | internal/engine/cache.go:56-84 | no check is stale while plain writes to a key land in order and nothing was or is deleted, or the engine is new and the cache has room for every key |
| Overlap.StaleCheckAdmitsOverlap | internal/engine/lsm.go:690-709 | for every capacity of the cache a complete run in which two overlapping transactions both commit a write to one key |
| Isolation.ReadsNeverChange | internal/txn/transaction.go:71-87 | whatever runs after a settled snapshot was taken, it reads the same |
| Isolation.StableIffSettled | internal/txn/transaction.go:71-87 | a snapshot reads the same in every run exactly when no plain write is on its way that drew its timestamp before and finds nothing newer |
| Isolation.BeginBetween | internal/txn/transaction.go:66-69 | a concrete run: begin falls between the two halves of a plain put, and the read of the transaction changes |
| Isolation.TransactionReadsAreStable | internal/txn/transaction.go:71-87 | between any two moments a transaction reads the same for every key it has not written, if its snapshot was settled |
| Isolation.FutureSnapshotMoves | internal/txn/transaction.go:53-62 | a snapshot beyond the last timestamp is changed by the next put |
| Outcomes.CommitOutcome | internal/txn/transaction.go:121-168 | what the caller is told: closed exactly for a closed transaction, a conflict exactly when a key was reported above the start, and then it is real and nothing is written; success exactly when the buffer is empty or the transaction has a new commit timestamp at which all its writes read back and every other key as before |
| Outcomes.ReadsOwnWrite | internal/txn/transaction.go:71-114 | in every run an open transaction reads what it last put under a key, and a key that it deleted as absent, whatever others do in between |
| Outcomes.ReadsEarlierCommit | internal/txn/transaction.go:66-87 | a transaction that begins after a commit reads what it wrote |
| Outcomes.PlainWriteReads | internal/engine/lsm.go:382-482 | a plain write reads back for every snapshot that it takes over, whatever its length |
| Outcomes.StoreIsExplained | internal/txn/transaction.go:121-179 | in every run no stored version is changed or dropped, every new one is from a plain write or from the buffer of a committed transaction, and all writes of all committed ones are there |
| Txn.StoredForms | internal/engine/lsm.go:933-990 | what each stored form stands for, tag by tag and untagged |
| Txn.CommitIsVisible | internal/txn/transaction.go:144-168 | a commit is visible as a whole: later snapshots read all its writes and every other key as before |
| Txn.CommittedPutReads | internal/engine/lsm.go:524-566 | after a commit the engine returns a value that it put exactly when the value is not 12 bytes long, is no pointer when read as one, or is what the value logs hold there |
| Txn.CommittedDeleteReads | internal/engine/lsm.go:518-566 | after a commit a key that it deleted reads as absent |
| Txn.LastCommitAfter | internal/engine/lsm.go:524-536 | after a batch the last commit of its keys is its timestamp, of others unchanged |
| Txn.MinimumIsSmallestOpen | internal/engine/snapshot.go:51-109 | from any restart on, in every run the registry minimum is 0 exactly when no transaction is open, else the smallest open start |

## Left out

- Engine.Engine.GetWithTS: does not model the lookup order over the memtables of all shards and the tables; `Engine` and `Txn` hold all versions in one memtable, and `Lookup` reads one table.
- Engine.Engine.CheckConflict: its fallback asks one memtable; the one of the engine goes on to the other memtables and the tables.
- Engine.Transaction.Commit: is one step, so another thread between the check and the write is not modelled, and the batch is passed on without being encoded and decoded (`Batch.BatchRoundTrip` says when that changes nothing).
- Engine.Engine.PutWithTS: writes no log and takes no large values; `Shard.Shard.PutWithTS` is the path through the log.
- Txn.StepKeepsInv: a plain write puts its version into the memtable and its timestamp into the cache in one step.
- Isolation.CommittedNeverOverlap: is about runs without a stale check; `Isolation.FirstCommitterWinsIff` and `Overlap.StaleCheckAdmitsOverlap` are about the others.
- Isolation.TransactionReadsAreStable: needs a settled snapshot; `Isolation.StableIffSettled` says that this is exact.
- Recovery.ReplayBatchOps: takes the routing of keys as a parameter; the constant routing that startup passes first ignores it.
- GroupCommit.CrashLeavesPrefix: starts from a log of whole records; reopening a log with a torn tail is `GroupCommit.CrashReopenCrash`.
- Shard.CrashRecoversPrefixOfMemtable: is about writes whose record fits the buffer; `GroupCommit.AppendKeepsFaithful` says that this is needed.
- Shard.Shard.PutWithTS: models values up to the inline limit; the unified ring buffer and the value log behind larger ones are left out.
- Lookup.LookupIsRead: takes the true key bounds; `Lookup.ReopenedLookup` says what the wrong max key on disk changes.
- Lookup.Reader.Lookup: reads a mapped file; the fallback through pooled buffers is left out.
- Table.OpenOfFile: lengths near 2^32 in a corrupt file, on which sums wrap and slicing panics, are failed reads in the model; a legacy filter is not opened.
- VLog.RecordReads: a negative offset or size, or an end beyond the 63-bit range, on which slicing panics, is a failed read in the model.
- Restart.CommitSurvivesRestart: is about one shard's log and memtable; a batch over several shards is logged and replayed in each of them on its own.
- VLog.VLog.GC: needs a new file within the range of 63-bit offsets; views and shutdown are left out.
- Compaction.ReadSurvives: copies of one version must have one payload, as replay gives them; between copies that differ the unstable sort decides.
- Merge.MergeIterator.Next: takes the pairs of its sources as given, while the memtable source reports the timestamp of the entry after the one it yields; the heap is any arrangement with a least key first.
- Refcount.UnmappedOnceIff: counts the calls of munmap; what a second call on the region does is left to the system, and its errors are left out.
- Arena.Arena.Alloc: is sequential; the compare-and-swap on the head is left out.
- Bloom.BloomFilter.Add: sizes and seed of a filter are parameters, because they come from floating-point formulas and a random source; the legacy filter format is left out.
- The last-active cache of the skip list, the epoch gate, resets, and sync and file errors.
- Overflow of 64-bit timestamps and file offsets in `Txn`, `Engine` and `GroupCommit`.
- Authentication, servers, the command line, column families, the manifest and generated code.
