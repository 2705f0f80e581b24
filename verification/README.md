# LevelDB and nanopb, verified

A Dafny model of the two libraries this application vendors and that hold its logic: the LevelDB key-value store
(`ios/Pods/leveldb-library`) and the nanopb Protocol Buffers codec (`ios/Pods/nanopb`).

LevelDB keeps versioned entries `(user key, sequence, type) -> value` in a memtable, an immutable memtable and seven
levels of sorted files. Its meaning is one line: a read of key `k` at snapshot `s` returns the newest entry of `k` with
sequence at most `s`, a deletion meaning absent (`InternalKeys.Read`). Everything else is a fast form of that line, and
the project proves that the fast forms agree with it:

- **Whole runs** (`History`, `Steps`, `Versions`, `CompactionWork`, `CompactionMeaning`, `Picking`, `VersionBuilder`,
  `Files`): over any run of writes, snapshots, memtable rotations, flushes, moves and compactions, with flushes and
  writes going on inside a running compaction, `Get` at the latest state or at a held snapshot returns the newest write,
  as long as every install passes two guards. A step keeps the invariant if and only if it passes them, and `Limits`
  has one state for each guard in which the code does not check it and a read goes wrong.
- **Iterators** (`DbIter`, `Merger`, `TwoLevel`, `BlockIters`): each is a cursor in a sorted list under every
  interleaving of seeks, `Next` and `Prev`.
- **Tables** (`Blocks`, `Separators`, `Bloom`, `FilterBlocks`, `TableFormat`, `TableLayout`, `TableBuilders`, `Tables`):
  building a file byte by byte and looking a key up in those bytes gives the answer of the flat list.
- **Durability** (`Coding`, `Checksums`, `Log`, `WriteBatches`, `Replay`, `GroupCommit`, `Durability`, `VersionEdits`,
  `Manifest`, `ManifestRecovery`): the log round trip also from truncated files and what a reader makes of damaged ones,
  the fast checksum against its definition as a polynomial remainder, group commit over all interleavings, what of it
  survives a crash, and the version set rebuilt from the bytes of a manifest.
- **Structures** (`SkipLists`, `HandleTables`, `LruCaches`, `Snapshots`).
- **nanopb** (`PbMessage`, `PbEncode`, `PbStream`, `PbDecode`, `PbReader`, `PbRoundTrip`, `PbWire`, `PbLaws`,
  `PbBounds`): the whole-message round trip for recursive schemas, the sizing pass against the writing pass, what a
  reader makes of fields in any order and of fields it does not know, and that every decoded struct fits its storage.

Conventions. User keys of the store-level modules are reals: every total order on byte strings embeds in the
rationals, so a statement for all real keys covers every comparator. The table modules work on bytes;
`Separators.RankOrder` gives the embedding for the bytewise comparator. Machine words are naturals below their width and
wrap-around is written out where the code relies on it. A file is a byte sequence whose reads are short only at its end.
Random heights, table sizes, hash functions, memtable limits and scheduling are parameters or free choices.

Code and documentation. `VersionEdit::Clear` is named as a reset but keeps the compaction pointers
(`ios/Pods/leveldb-library/db/version_edit.cc:26-39`); the model follows the code, and `VersionEdits.RoundTrip` says
exactly when this matters. The comment on boundary files speaks of one level only, and the code indeed closes only the
inputs of `level` (`ios/Pods/leveldb-library/db/version_set.cc:1384-1388`); see `Limits`.

## Model

| member | source | states |
|---|---|---|
| History.RunsReadNewestWrite | ios/Pods/leveldb-library/db/db_impl.cc:697-753 | in every state of every run of safe steps the levels are well formed and each read at the latest sequence number or at a held snapshot equals the read of the set of all writes |
| History.GetAfterRun | ios/Pods/leveldb-library/db/db_impl.cc:1110-1155 | the layered Get on any state of a safe run, at the latest sequence number or at a held snapshot, returns the newest write at or below it |
| History.NextKeepsInvIff | ios/Pods/leveldb-library/db/db_impl.cc:869-1046 | every write, rotation, flush, snapshot, move, pick and install, in any interleaving, keeps the invariant (layers newest first, reads equal those of the log of writes, no compaction ahead of a held snapshot), an install if and only if it is safe |
| History.RunsKeepInvIff | ios/Pods/leveldb-library/db/db_impl.cc:697-753 | over a whole run the invariant holds throughout if and only if every step is safe |
| History.InstallKeepsInvIff | ios/Pods/leveldb-library/db/db_impl.cc:869-885 | an install after any writes and flushes since the pick keeps the invariant if and only if no output reaches over a file flushed to the output level since, and the picked inputs do not uncover a value |
| History.FlushKeepsPending | ios/Pods/leveldb-library/db/db_impl.cc:918-927 | a memtable flush inside a running compaction, to any level, leaves its inputs in place and everything beside and outside them as the install needs it |
| History.FlushElsewhereIsClear | ios/Pods/leveldb-library/db/db_impl.cc:918-927 | a flush to level 0, or to any level but the output level, never makes an install unsafe |
| History.SmallestSnapshot | ios/Pods/leveldb-library/db/db_impl.cc:899-903 | smallest_snapshot is the first sequence number in the snapshot list, or the last sequence number when the list is empty |
| CompactionMeaning.CompactionPreservesReadsIff | ios/Pods/leveldb-library/db/db_impl.cc:940-973 | replacing the inputs by what the drop rule keeps preserves all reads at live snapshots if and only if no dropped deletion was hiding a value outside the inputs |
| CompactionWork.DroppedIffDrops | ios/Pods/leveldb-library/db/db_impl.cc:940-973 | looking only at the previous entry, the loop drops exactly the entries hidden from the oldest snapshot or obsolete deletions |
| CompactionWork.KeptIsCompacted | ios/Pods/leveldb-library/db/db_impl.cc:929-1009 | the entries the loop writes are exactly the set the drop rule keeps |
| CompactionWork.CutsAreDisjoint | ios/Pods/leveldb-library/db/db_impl.cc:986-1009 | cutting a sorted output anywhere gives well-formed, ascending, disjoint files |
| CompactionWork.CompactionState.IsBaseLevelForKey | ios/Pods/leveldb-library/db/version_set.cc:1510-1529 | for nondecreasing keys the moving level pointers answer as a scan of all deeper levels does |
| CompactionWork.CompactionState.ShouldStopBefore | ios/Pods/leveldb-library/db/version_set.cc:1531-1553 | for nondecreasing keys the answer is yes exactly when the grandparents passed since the last yes hold more bytes than the limit |
| CompactionWork.CompactionState.AddToOutput | ios/Pods/leveldb-library/db/db_impl.cc:986-1009 | the entry is written, and the output is finished exactly when it has reached the maximum file size |
| CompactionWork.CompactionState.DoCompactionWork | ios/Pods/leveldb-library/db/db_impl.cc:887-1018 | the output files hold, in order, exactly what the drop rule keeps, with their own key ranges and fresh ascending numbers, none reaches over more bytes of grandparents than the limit, and none had reached the size limit before its last entry; a shutdown at any entry stops it |
| Steps.PickLevelForMemTableOutput | ios/Pods/leveldb-library/db/version_set.cc:470-495 | the deepest level down to 2 that can be reached without meeting a file on the way or reaching over more than ten files' worth of the level below it, and no file at it or above it meets the key range |
| Steps.CompactMemTable | ios/Pods/leveldb-library/db/db_impl.cc:500-575 | the table lands on exactly that level; the flush keeps the database well formed and its entries the same, and empties the immutable memtable |
| Steps.InstallSoundIff | ios/Pods/leveldb-library/db/db_impl.cc:869-885 | installing outputs on any version that still holds the inputs keeps levels 1 and deeper sorted and disjoint and newer entries above older ones if and only if no output straddles a file left on the output level |
| Steps.PickedNoneStraddles | ios/Pods/leveldb-library/db/version_set.cc:1380-1424 | on the version the inputs were picked from no output straddles a file |
| Steps.ResurrectsIffUncovers | ios/Pods/leveldb-library/db/version_set.cc:1384-1388 | a dropped deletion hides a value outside the inputs if and only if the first boundary file after the output-level inputs starts with a value of a key that no deeper level covers and whose newest entry for the oldest snapshot is a deletion among the inputs |
| Steps.InstallCorrectIff | ios/Pods/leveldb-library/db/db_impl.cc:869-1009 | a compaction picked from one state and installed on a later one keeps the database well formed exactly when no output straddles a file, and every read at a live snapshot exactly when the boundary guard does not hold |
| Steps.TestUncovers | ios/Pods/leveldb-library/db/version_set.cc:1321-1339 | the boundary guard is decided before the compaction by one boundary search, one lookup and one scan of the deeper levels |
| Steps.InstallResults | ios/Pods/leveldb-library/db/db_impl.cc:869-885 | the edit removes exactly the inputs and adds exactly the outputs one level deeper |
| Steps.Compact | ios/Pods/leveldb-library/db/db_impl.cc:869-1058 | compaction work followed by its install keeps the database well formed, and every read at a live snapshot unchanged if and only if the boundary guard does not hold; a shutdown leaves everything as it was |
| Steps.TrivialMove | ios/Pods/leveldb-library/db/db_impl.cc:727-734 | moving one file a level deeper keeps the database well formed and its entries the same |
| Steps.TrivialMoveIsCheap | ios/Pods/leveldb-library/db/version_set.cc:1492-1500 | an input is moved instead of compacted exactly when no file of the next level is in its range and it reaches over at most ten files' worth of the level after that |
| Limits.DeletedKeyReturns | ios/Pods/leveldb-library/db/version_set.cc:1384-1388 | a concrete state and compaction, chosen as the code chooses it, whose installed database reads a deleted key again |
| Limits.ClosedNextLevelSuffices | ios/Pods/leveldb-library/db/version_set.cc:1384-1388 | closing the output-level inputs under boundary files rules that out for every database |
| Limits.InstallDisjointIff | ios/Pods/leveldb-library/db/db_impl.cc:869-885 | on any version, also a changed one, the output level stays disjoint if and only if no file now on it reaches into an output's range |
| Limits.MidCompactionFlushLosesRead | ios/Pods/leveldb-library/db/db_impl.cc:918-927 | a concrete flush in the middle of a compaction, to a level the code may pick, after whose install the level search misses the flushed value at every snapshot that should see it |
| Files.FindFile | ios/Pods/leveldb-library/db/version_set.cc:87-105 | where the binary search ends on any list, and on disjoint files the least index whose largest key is at or after the key |
| Files.SomeFileOverlapsRange | ios/Pods/leveldb-library/db/version_set.cc:121-156 | true if and only if some file meets the range, for both the scan and the binary search |
| Picking.GetOverlappingInputs | ios/Pods/leveldb-library/db/version_set.cc:498-538 | exactly the files meeting the final range; on level 0 that range is the least one around the request that no file straddles, and the restarting loop ends |
| Picking.GetRange | ios/Pods/leveldb-library/db/version_set.cc:1182-1204 | the least smallest key and the greatest largest key of the files |
| Picking.FindSmallestBoundaryFile | ios/Pods/leveldb-library/db/version_set.cc:1321-1339 | the first file that starts after the key within the same user key, or none exists |
| Picking.AddBoundaryInputs | ios/Pods/leveldb-library/db/version_set.cc:1355-1378 | the files followed by the chain of boundary files, each the first that starts after the largest chosen key in its user key, until there is none; nothing is added when already closed, and consecutive files stay consecutive |
| Picking.SetupOtherInputs | ios/Pods/leveldb-library/db/version_set.cc:1380-1439 | the inputs are the picked files with their boundary files and the next level's files in their range, grown exactly when growing takes in more files, stays under the limit and draws in no further file of the next level; no file left on the level is older for a shared user key, and every file left on the next level lies on one side of all inputs |
| Picking.CompactRange | ios/Pods/leveldb-library/db/version_set.cc:1441-1471 | no compaction exactly when no file meets the range; otherwise on level 0 every file meeting the request is an input, and on deeper levels the shortest prefix of the meeting files that reaches the size limit, or all of them, before boundary files and growth |
| Picking.LimitInputs | ios/Pods/leveldb-library/db/version_set.cc:1454-1463 | the shortest nonempty prefix that reaches the size limit, or all files |
| Picking.PickCompaction | ios/Pods/leveldb-library/db/version_set.cc:1247-1300 | starts from the file that used up its seeks when there is one, else from the first file that ends after the compaction pointer, or the first of all; on level 0 with everything it overlaps; then the same inputs and guarantees |
| Picking.PointerGoesRound | ios/Pods/leveldb-library/db/version_set.cc:1261-1274 | with the pointer at the end of one file the next file is picked, and after the last one the first, so compactions go round a level's keys |
| VersionBuilder.SaveLevel | ios/Pods/leveldb-library/db/version_set.cc:672-715 | the merge holds exactly the base and added files whose numbers are not deleted, in ascending order |
| VersionBuilder.Builder.Apply | ios/Pods/leveldb-library/db/version_set.cc:629-669 | the builder's sets after an edit, deletions before additions and an addition unmarking its number, and the compaction pointers |
| VersionBuilder.Builder.SaveTo | ios/Pods/leveldb-library/db/version_set.cc:672-731 | every level holds exactly the surviving base and added files, ascending when no two clash |
| VersionBuilder.LogAndApply | ios/Pods/leveldb-library/db/version_set.cc:777-798 | the new version for any edit; when added numbers are new on their level it holds the old files not deleted and the added ones, ascending on every level |
| VersionBuilder.AscendingUnique | ios/Pods/leveldb-library/db/version_set.cc:572-583 | the set order determines a level: two ascending lists with the same files are the same list |
| Versions.LookupRunIsNewest | ios/Pods/leveldb-library/db/memtable.cc:101-135 | seeking (key, snapshot) in a sorted run lands on the newest visible entry of the key, or shows there is none |
| Versions.SearchLevel0 | ios/Pods/leveldb-library/db/version_set.cc:281-300 | searching covering files newest first finds the newest visible entry of level 0 or shows there is none |
| Versions.SearchLevel | ios/Pods/leveldb-library/db/version_set.cc:302-321 | the single file the binary search picks decides for the whole level, also when a user key is split over adjacent files |
| Versions.VersionGet | ios/Pods/leveldb-library/db/version_set.cc:281-400 | the newest visible entry among all entries of the version, or there is none |
| Versions.Get | ios/Pods/leveldb-library/db/db_impl.cc:1110-1155 | the layered lookup returns the read of the set of all entries of the database |
| DbIter.ViewIsSortedMap | ios/Pods/leveldb-library/db/db_iter.cc:27-140 | the rows an iterator moves in ascend strictly in user key and are exactly the pairs Read returns at its sequence number |
| DbIter.DBIter.Next | ios/Pods/leveldb-library/db/db_iter.cc:141-175 | moves to the next visible row, from either direction |
| DbIter.DBIter.FindNextUserEntry | ios/Pods/leveldb-library/db/db_iter.cc:177-207 | stops at the first entry that is its key's newest visible value above the skipped key, or shows there is none |
| DbIter.DBIter.Prev | ios/Pods/leveldb-library/db/db_iter.cc:209-234 | moves to the previous visible row, from either direction, or off the front |
| DbIter.DBIter.FindPrevUserEntry | ios/Pods/leveldb-library/db/db_iter.cc:236-276 | scanning down, stops at the last visible row at or below the position |
| DbIter.DBIter.Seek | ios/Pods/leveldb-library/db/db_iter.cc:278-290 | the first row whose key is at or after the target |
| DbIter.DBIter.SeekToFirst | ios/Pods/leveldb-library/db/db_iter.cc:292-301 | the first row |
| DbIter.DBIter.SeekToLast | ios/Pods/leveldb-library/db/db_iter.cc:303-308 | the last row |
| DbIter.Drive | ios/Pods/leveldb-library/db/db_iter.cc:141-308 | for every sequence of calls, direction switches included, the iterator is at the row a cursor in the sorted map would be at |
| Merger.SmallestChild | ios/Pods/leveldb-library/table/merger.cc:148-161 | a valid child whose entry no other valid child precedes, or all children are invalid |
| Merger.LargestChild | ios/Pods/leveldb-library/table/merger.cc:163-176 | a valid child whose entry precedes no other valid child's, or all children are invalid |
| Merger.MergingIterator.Seek | ios/Pods/leveldb-library/table/merger.cc:47-53 | the first row of the sorted union at or after the target |
| Merger.UnionIsMerge | ios/Pods/leveldb-library/table/merger.cc:16-25 | any children with sorted, pairwise distinct keys have the sorted union the iterator moves in |
| Merger.MergingIterator.Next | ios/Pods/leveldb-library/table/merger.cc:55-79 | the next row of the union, repositioning the other children after a reverse move |
| Merger.MergingIterator.Prev | ios/Pods/leveldb-library/table/merger.cc:81-108 | the previous row of the union, repositioning the other children after a forward move |
| Merger.Drive | ios/Pods/leveldb-library/table/merger.cc:31-176 | for every sequence of calls the iterator is a cursor in the sorted union of its children |
| TwoLevel.SeekSplits | ios/Pods/leveldb-library/table/two_level_iterator.cc:82-87 | seeking the index and then its block finds the position that seeking the concatenation finds |
| TwoLevel.TwoLevelIterator.SkipEmptyDataBlocksForward | ios/Pods/leveldb-library/table/two_level_iterator.cc:115-126 | empty blocks are skipped without changing the position in the concatenation |
| TwoLevel.TwoLevelIterator.SkipEmptyDataBlocksBackward | ios/Pods/leveldb-library/table/two_level_iterator.cc:128-139 | the last entry at or before the position, over any number of empty blocks, or off the front |
| TwoLevel.Drive | ios/Pods/leveldb-library/table/two_level_iterator.cc:82-161 | for every sequence of calls the iterator is a cursor in the concatenation of the blocks |
| Blocks.BlockBuilder.Add | ios/Pods/leveldb-library/table/block_builder.cc:71-105 | the buffer and restart points stay the prefix-compressed form of the pairs added |
| Blocks.BlockBuilder.Finish | ios/Pods/leveldb-library/table/block_builder.cc:61-69 | the block is the compressed entries, the restart offsets and their count |
| Blocks.DecodeEntry | ios/Pods/leveldb-library/table/block.cc:55-75 | the fast path for three one-byte lengths and the varint path read the same header |
| Blocks.HeaderReadsBack | ios/Pods/leveldb-library/table/block.cc:55-75 | the header of an encoded entry parses to its three lengths whatever follows |
| Blocks.SharesAll | ios/Pods/leveldb-library/table/block_builder.cc:76-88 | between restart points a key leaves out all it shares with the key before it |
| BlockIters.Iter.Next | ios/Pods/leveldb-library/table/block.cc:138-141 | the next pair of the list that was added |
| BlockIters.Iter.Prev | ios/Pods/leveldb-library/table/block.cc:143-162 | the previous pair, so the inverse of Next at every position, or off the front |
| BlockIters.Iter.Seek | ios/Pods/leveldb-library/table/block.cc:164-202 | the first pair whose key is at or after the target |
| BlockIters.Iter.SeekToFirst | ios/Pods/leveldb-library/table/block.cc:204-207 | the first pair |
| BlockIters.Iter.SeekToLast | ios/Pods/leveldb-library/table/block.cc:209-214 | the last pair |
| BlockIters.Iter.ParseNextKey | ios/Pods/leveldb-library/table/block.cc:225-252 | restores the whole key and value of the next pair from its compressed form |
| Separators.LexTotal | ios/Pods/leveldb-library/util/comparator.cc:27-29 | bytewise comparison is a total strict order |
| Separators.FindShortestSeparator | ios/Pods/leveldb-library/util/comparator.cc:31-52 | a string at or after start, no longer than it, and before limit when start is; no shorter string separates the two when the byte where they differ can be raised |
| Separators.FindShortSuccessor | ios/Pods/leveldb-library/util/comparator.cc:54-66 | a shortest string at or after the key |
| Separators.RankOrder | ios/Pods/leveldb-library/db/dbformat.cc:47-63 | internal keys are ordered by user key ascending and tag descending exactly as their real ranks are |
| Separators.Separator | ios/Pods/leveldb-library/db/dbformat.cc:65-82 | a key at or after start and before limit that is start itself or has a user key strictly before that of limit |
| Separators.Successor | ios/Pods/leveldb-library/db/dbformat.cc:84-97 | an internal key at or after the given one |
| Bloom.FilterAnswersIff | ios/Pods/leveldb-library/util/bloom.cc:28-80 | a key matches a created filter if and only if the keys in it probe all of its bits |
| Bloom.HashAtIs | ios/Pods/leveldb-library/util/bloom.cc:43-51 | the j-th probe is at the hash plus j times its rotation by 17 bits, modulo 32 bits |
| Bloom.CreateFilter | ios/Pods/leveldb-library/util/bloom.cc:28-54 | the filter has the size of the configured bits per key, and a bit is set if and only if one of the keys probes it, so every key may match it, for any hash function, bits per key and number of probes |
| Bloom.KeyMayMatch | ios/Pods/leveldb-library/util/bloom.cc:56-80 | true if and only if the probe count is reserved or every probed bit is set |
| FilterBlocks.FilterBlockBuilder.StartBlock | ios/Pods/leveldb-library/table/filter_block.cc:21-27 | filters are generated up to the one of the block's offset, and pending keys stay in the filter of theirs |
| FilterBlocks.FilterBlockBuilder.GenerateFilter | ios/Pods/leveldb-library/table/filter_block.cc:51-75 | one filter more, which every pending key may match |
| FilterBlocks.FilterBlockBuilder.Finish | ios/Pods/leveldb-library/table/filter_block.cc:35-49 | the block holds a matching filter for every group of keys, then their offsets |
| FilterBlocks.FilterBlockReader.KeyMayMatch | ios/Pods/leveldb-library/table/filter_block.cc:90-104 | never rejects a key that hashes like one added for a block at this offset, and answers exactly as the filter of the offset's own keys does, false when there were none |
| TableFormat.HandleRoundTrip | ios/Pods/leveldb-library/table/format.cc:15-29 | decoding an encoded handle gives it back and the rest of the input |
| TableFormat.FooterRoundTrip | ios/Pods/leveldb-library/table/format.cc:31-62 | decoding an encoded footer gives both handles back |
| TableFormat.ReadBlock | ios/Pods/leveldb-library/table/format.cc:64-139 | reading the handle of a stored block returns its contents; with verification, whatever it returns is stored there under a matching checksum |
| TableFormat.DamagedBlock | ios/Pods/leveldb-library/table/format.cc:88-99 | a block damaged within four neighbouring bytes of its contents or type fails the checksum |
| TableLayout.LookupSplits | ios/Pods/leveldb-library/table/table.cc:214-242 | seeking the separator index and then one block finds an entry of the sought user key exactly when the flat list's first entry at or after the target has it, and it is that entry |
| TableLayout.IndexSorted | ios/Pods/leveldb-library/table/table_builder.cc:102-109 | shortened index keys stay strictly ascending |
| TableBuilders.TableBuilder.Add | ios/Pods/leveldb-library/table/table_builder.cc:94-123 | keeps the builder's invariant: blocks stored and separated by the index keys written, every key in the filter of its block; the entry joins the open block, which is cut exactly when it has reached the block size |
| TableBuilders.TableBuilder.Flush | ios/Pods/leveldb-library/table/table_builder.cc:125-139 | the open block is stored at its handle, its index entry becomes pending, and the filter moves on |
| TableBuilders.TableBuilder.Finish | ios/Pods/leveldb-library/table/table_builder.cc:198-253 | the file holds the data, filter, metaindex and index blocks of the added pairs and a footer that leads to them |
| Tables.Table.Open | ios/Pods/leveldb-library/table/table.cc:38-132 | opening a finished file finds the index block and the filter of its keys |
| Tables.Table.InternalGet | ios/Pods/leveldb-library/table/table.cc:214-242 | returns an entry with the sought user key if and only if the flat list's first entry at or after the target has it, and then that entry; a block is read only if the filter lets the key through |
| Tables.BuildAndGet | ios/Pods/leveldb-library/table/table_builder.cc:94-253 | for every strictly increasing list, block size, restart interval and filter: the file has the layout of the list, its blocks cut exactly where they reach the block size, and a lookup in a file of less than 4 GB answers as the list does |
| Coding.FixedRoundTrip | ios/Pods/leveldb-library/util/coding.h:54-103 | decoding a little-endian integer of any width gives it back |
| Coding.LittleEndian | ios/Pods/leveldb-library/util/coding.h:53-61 | the least significant byte of a 32-bit integer comes first |
| Coding.PutVarint64 | ios/Pods/leveldb-library/util/coding.cc:55-70 | the loop appends the base-128 form of the value |
| Coding.ReadVarint | ios/Pods/leveldb-library/util/coding.cc:79-131 | the shifting loop reads what the recursive definition of a varint of limited length reads, failures included |
| Coding.VarintRoundTrip | ios/Pods/leveldb-library/util/coding.cc:55-131 | a varint that fits the limit reads back, and the rest of the input is untouched |
| Coding.LengthPrefixedRoundTrip | ios/Pods/leveldb-library/util/coding.cc:72-164 | a length-prefixed slice reads back |
| Coding.ExtendAppend | ios/Pods/leveldb-library/util/crc32c.h:14-20 | extending the checksum of a prefix gives the checksum of the whole |
| Coding.MaskRoundTrip | ios/Pods/leveldb-library/util/crc32c.h:22-38 | unmasking a masked checksum gives it back |
| Checksums.ExtendByStrides | ios/Pods/leveldb-library/util/crc32c.cc:276-377 | the fast form, with four interleaved registers and the stride tables, gives the checksum of the byte-at-a-time form for every input and alignment |
| Checksums.IsRemainder | ios/Pods/leveldb-library/util/crc32c.cc:274-292 | the register after a string is the remainder of the whole string, read as one little-endian number, in bitwise division by the polynomial |
| Checksums.BurstIsDetected | ios/Pods/leveldb-library/util/crc32c.h:14-20 | damage within four neighbouring bytes anywhere in a string changes its checksum |
| Log.Writer.AddRecord | ios/Pods/leveldb-library/db/log_writer.cc:34-80 | the file grows by the record's fragments, none crossing a block boundary, with short block tails zeroed |
| Log.Writer.EmitPhysicalRecord | ios/Pods/leveldb-library/db/log_writer.cc:82-108 | appends a header with masked checksum, length and type, and the payload |
| Log.Reader.ReadPhysicalRecord | ios/Pods/leveldb-library/db/log_reader.cc:189-271 | the buffered reader returns the fragment at its file position, or end of file, or a bad record with its report |
| Log.Reader.ReadRecord | ios/Pods/leveldb-library/db/log_reader.cc:56-174 | assembles the next logical record with the reports the fragments cause |
| Log.RoundTrip | ios/Pods/leveldb-library/db/log_reader.cc:56-271 | for every list of records, reading what was written returns the list with no corruption reported |
| Log.TruncatedRoundTrip | ios/Pods/leveldb-library/db/log_reader.cc:56-271 | reading any byte-truncated prefix returns exactly the records that end before the cut, with no corruption reported |
| Log.ReadsOnlyFragments | ios/Pods/leveldb-library/db/log_reader.cc:189-271 | at any position of any file, damaged or not, what is taken for a fragment is byte for byte one a writer would write there, checksum included, inside one block |
| Log.BurstIsDropped | ios/Pods/leveldb-library/db/log_reader.cc:239-257 | a fragment damaged within four neighbouring bytes of its type and payload is dropped with a report, except that an empty one whose type became zero passes for unused space |
| Log.ReturnsWhole | ios/Pods/leveldb-library/db/log_reader.cc:56-174 | whatever a file holds, a returned record consists of a full fragment or of a first, middle and last ones that follow each other without a gap |
| Log.NothingDroppedSilently | ios/Pods/leveldb-library/db/log_reader.cc:99-174 | without a corruption report the returned records hold every byte of every fragment up to the end of the last record |
| Log.ReadLog | ios/Pods/leveldb-library/db/db_impl.cc:427-429 | the reading loop collects every record and report of the file |
| WriteBatches.WriteBatch.Put | ios/Pods/leveldb-library/db/write_batch.cc:98-103 | the batch bytes become those of one operation more |
| WriteBatches.WriteBatch.Delete | ios/Pods/leveldb-library/db/write_batch.cc:105-109 | the batch bytes become those of one operation more |
| WriteBatches.WriteBatch.Append | ios/Pods/leveldb-library/db/write_batch.cc:111-148 | the batch bytes become those of both operation lists, also when a batch is appended to itself, the count wrapping at 32 bits |
| WriteBatches.WriteBatch.SetSequence | ios/Pods/leveldb-library/db/write_batch.cc:94-96 | only the sequence number of the batch bytes changes |
| WriteBatches.WriteBatch.Iterate | ios/Pods/leveldb-library/db/write_batch.cc:42-80 | hands over the operations up to the first malformed one and says whether all is well formed |
| WriteBatches.IterateInverts | ios/Pods/leveldb-library/db/write_batch.cc:42-148 | iterating the bytes of any operation list gives that list back |
| WriteBatches.CutBatchIsMalformed | ios/Pods/leveldb-library/db/write_batch.cc:42-80 | a batch cut anywhere hands over its whole operations and is never taken for well formed |
| WriteBatches.UnknownOpFails | ios/Pods/leveldb-library/db/write_batch.cc:71-73 | a record that is neither a put nor a deletion ends the batch as malformed |
| Replay.RecoverLogFile | ios/Pods/leveldb-library/db/db_impl.cc:380-462 | however memtables are cut, the inserted rows are those of the log's batches in order, and the returned number is the maximum of the start value and each record's last sequence number in 64-bit arithmetic |
| Replay.RecoveryReproduces | ios/Pods/leveldb-library/db/db_impl.cc:427-462 | replaying any truncated log reproduces exactly the live rows of the batches that are whole on disk |
| Replay.RecoverBatches | ios/Pods/leveldb-library/db/db_impl.cc:427-462 | from a log of any batches, cut anywhere: the tables hold the rows of the whole batches, and the returned number is the maximum of the start value and the sequence numbers of those rows |
| Replay.RowsReadAs | ios/Pods/leveldb-library/db/write_batch.cc:118-133 | reading the newest row of every key of a batch gives what its operations, carried out in order on an empty map, give |
| GroupCommit.BuildBatchGroup | ios/Pods/leveldb-library/db/db_impl.cc:1270-1316 | the group is the longest queue prefix that no writer stops; the shared batch is used exactly when a second batch joins, and then holds what it held before followed by the group's operations |
| GroupCommit.GroupBounds | ios/Pods/leveldb-library/db/db_impl.cc:1277-1304 | a joined group is at most 128 KB larger than its leader's batch when that is small and at most 1 MB otherwise, a non-sync leader carries no sync writer, and a group ends early only for one of these reasons |
| GroupCommit.PopGroup | ios/Pods/leveldb-library/db/db_impl.cc:1249-1258 | completes exactly the queue prefix that ends with the last writer of the group |
| GroupCommit.StepKeepsInv | ios/Pods/leveldb-library/db/db_impl.cc:1195-1268 | every arrival, log switch, background error and stretch between two mutex releases keeps the protocol's invariant, with the shared batch appended to and cleared only where the code does |
| GroupCommit.CommitSafety | ios/Pods/leveldb-library/db/db_impl.cc:1195-1316 | in every reachable state writers complete in order of arrival, a batch told OK is in exactly one logged group whose record joins its writers' batches, a sync writer told OK is in a synced group, the shared batch is empty outside logging, and after a failed sync no later group is logged and nobody is told OK |
| GroupCommit.SequencesDisjoint | ios/Pods/leveldb-library/db/db_impl.cc:1215-1247 | batches logged earlier have smaller, disjoint, contiguous sequence ranges |
| Durability.RecoversRun | ios/Pods/leveldb-library/db/db_impl.cc:1195-1247 | after any run whose appends succeeded, replaying its log files, however many, gives the rows of every group in order, which without a failed sync are exactly the rows inserted |
| Durability.RecoversLastSequence | ios/Pods/leveldb-library/db/db_impl.cc:347-372 | after a run that is whole on disk recovery goes on from exactly the run's last sequence number |
| Durability.RecoveredReads | ios/Pods/leveldb-library/db/db_impl.cc:347-372 | reading the newest recovered row of every key gives what carrying out all logged operations in order gives |
| Durability.SyncedWritesSurvive | ios/Pods/leveldb-library/db/db_impl.cc:1212-1247 | if each log file still holds what its last successful sync wrote, every row of every sync writer told OK is recovered, wherever the crash cut the files |
| Durability.LogReplays | ios/Pods/leveldb-library/db/db_impl.cc:347-372 | a log with k whole records on disk replays to the rows of its first k groups |
| Durability.RecordOf | ios/Pods/leveldb-library/db/db_impl.cc:1216-1224 | the record logged is the group's batch under the next sequence number |
| VersionEdits.EncodeTo | ios/Pods/leveldb-library/db/version_edit.cc:41-84 | the record is the tagged items of the edit in the code's order |
| VersionEdits.DecodeFrom | ios/Pods/leveldb-library/db/version_edit.cc:105-203 | the tag loop adds the parsed items to the cleared edit, and fails on the first unreadable one |
| VersionEdits.RoundTrip | ios/Pods/leveldb-library/db/version_edit.cc:26-203 | decoding an encoded edit gives it back if and only if the edit decoded into held no compaction pointers |
| VersionEdits.CutEdit | ios/Pods/leveldb-library/db/version_edit.cc:105-203 | an encoded edit cut between two items decodes to the items before the cut, and cut anywhere else not at all |
| VersionEdits.UnknownTagFails | ios/Pods/leveldb-library/db/version_edit.cc:188-191 | a tag the format does not have makes the record unreadable |
| VersionEdits.BadLevelFails | ios/Pods/leveldb-library/db/version_edit.cc:95-103 | so does a level the store does not have |
| VersionEdits.ManifestRoundTrip | ios/Pods/leveldb-library/db/version_set.cc:909-940 | reading a manifest, also a truncated one, and decoding each record into a fresh edit gives back exactly the edits that are whole |
| ManifestRecovery.WriteSnapshot | ios/Pods/leveldb-library/db/version_set.cc:1064-1092 | the snapshot record names the comparator, every compaction pointer and exactly the files of the version, each on its level |
| ManifestRecovery.Recover | ios/Pods/leveldb-library/db/version_set.cc:909-976 | fails exactly on a corrupt log, an unreadable record, another comparator or a missing counter; otherwise one builder over all decoded edits gives the files, pointers and counters |
| ManifestRecovery.RecoverLive | ios/Pods/leveldb-library/db/version_set.cc:862-976 | from any truncated manifest: recovery gives the live file lists after the whole edits if and only if no file is left behind, and always the compaction pointers and counters |
| ManifestRecovery.RecoverAfterSnapshot | ios/Pods/leveldb-library/db/version_set.cc:777-860 | from a manifest of a snapshot and later edits, cut anywhere: with the snapshot and at least one edit whole, recovery gives the live version set after the whole edits, its files if and only if none is left behind; with less it fails |
| Manifest.NamingSuffices | ios/Pods/leveldb-library/db/version_set.cc:629-730 | when a number never names two files on a level, in particular when none is added again after its deletion, no file is left behind |
| Manifest.ReplayIsLiveIff | ios/Pods/leveldb-library/db/version_set.cc:629-730 | replay through one builder gives the live file lists if and only if no file is left behind under a number that was deleted and then given to another file |
| Manifest.ReAddedNumberReturns | ios/Pods/leveldb-library/db/version_set.cc:629-669 | a concrete family in which a deleted file comes back on replay |
| SkipLists.SkipList.FindGreaterOrEqual | ios/Pods/leveldb-library/db/skiplist.h:260-281 | the first node at or after the key, and on every level the node the key belongs right after |
| SkipLists.SkipList.FindLessThan | ios/Pods/leveldb-library/db/skiplist.h:283-302 | the last node before the key, or the head |
| SkipLists.SkipList.FindLast | ios/Pods/leveldb-library/db/skiplist.h:304-322 | the last node of the list, or the head |
| SkipLists.SkipList.StoreOwnLink | ios/Pods/leveldb-library/db/skiplist.h:362-365 | the store into the new node's own link keeps every level an ascending linked sublist of the one below |
| SkipLists.SkipList.StoreLink | ios/Pods/leveldb-library/db/skiplist.h:366-366 | the publishing store adds the node to its level at its place and keeps the same invariant |
| SkipLists.Inserter.Step | ios/Pods/leveldb-library/db/skiplist.h:336-368 | after every single store of an insertion the list is valid, no node has left any level, and the key is there exactly from the store on the bottom level on |
| SkipLists.Insert | ios/Pods/leveldb-library/db/skiplist.h:336-368 | the keys become the old keys and the new one |
| SkipLists.Reader.Step | ios/Pods/leveldb-library/db/skiplist.h:260-281 | every load ends the search, goes down a level or moves on to a larger key, always before the sought one; the last load answers exactly for the list at that moment |
| SkipLists.Interleave | ios/Pods/leveldb-library/db/skiplist.h:260-368 | under every interleaving of insertions and a search the answer is exact for a list that held every key present at the start; the search moves with each of its turns, and with enough turns the writer has inserted exactly the wanted keys |
| SkipLists.Iterator.Seek | ios/Pods/leveldb-library/db/skiplist.h:223-226 | the first key at or after the target |
| SkipLists.Iterator.Prev | ios/Pods/leveldb-library/db/skiplist.h:212-221 | the previous node, or off the front |
| HandleTables.HandleTable.Insert | ios/Pods/leveldb-library/util/cache.cc:79-93 | the table maps the handle's name to it and returns the handle it replaced |
| HandleTables.HandleTable.Remove | ios/Pods/leveldb-library/util/cache.cc:95-103 | the table forgets the name and returns the handle that had it |
| HandleTables.HandleTable.Resize | ios/Pods/leveldb-library/util/cache.cc:123-147 | rehashing loses and duplicates nothing, moves as many handles as the table counts, and leaves no more handles than buckets |
| LruCaches.LRUCache.Ref | ios/Pods/leveldb-library/util/cache.cc:218-224 | a handle gaining its first client moves to the in-use list |
| LruCaches.LRUCache.Unref | ios/Pods/leveldb-library/util/cache.cc:226-238 | the last reference runs the deleter; a cached handle losing its last client becomes the newest of the LRU list |
| LruCaches.LRUCache.Lookup | ios/Pods/leveldb-library/util/cache.cc:253-260 | returns what the abstract map holds, held once more by the client and no longer on the LRU list |
| LruCaches.LRUCache.Release | ios/Pods/leveldb-library/util/cache.cc:262-265 | one client reference fewer; a cached handle without clients becomes the newest of the LRU list, which else stays as it is |
| LruCaches.LRUCache.Insert | ios/Pods/leveldb-library/util/cache.cc:267-304 | the map gains the new handle and loses the replaced one and the oldest unused ones, as few as needed for usage to fit the capacity or the LRU list to be empty |
| LruCaches.LRUCache.Erase | ios/Pods/leveldb-library/util/cache.cc:319-322 | the map loses exactly the name, and the LRU list at most its handle |
| LruCaches.LRUCache.Prune | ios/Pods/leveldb-library/util/cache.cc:324-334 | exactly the handles not in use leave the cache |
| LruCaches.ClientRun | ios/Pods/leveldb-library/util/cache.cc:198-334 | over every client run the LRU list holds exactly the cached handles nobody holds, in the order of their last release, usage is the sum of the cached charges, and each handle's deleter has run exactly once if it is neither held nor cached and never otherwise |
| LruCaches.DeletedOnce | ios/Pods/leveldb-library/util/cache.cc:22-39 | the invariant determines how often a handle's deleter has run |
| Snapshots.SnapshotList.New | ios/Pods/leveldb-library/db/snapshot.h:57-70 | the ring gains the snapshot at its end and stays ordered |
| Snapshots.SnapshotList.Delete | ios/Pods/leveldb-library/db/snapshot.h:79-86 | the ring loses exactly the snapshot |
| Snapshots.SnapshotList.Oldest | ios/Pods/leveldb-library/db/snapshot.h:47-50 | a live snapshot with the least sequence number |
| PbStream.OStream.Write | ios/Pods/nanopb/pb_encode.c:103-124 | succeeds exactly when sizing or when there is room, and counts or writes exactly the bytes |
| PbStream.OStream.WriteVarint | ios/Pods/nanopb/pb_encode.c:608-628 | writes the base-128 form of the value |
| PbStream.OStream.WriteArray | ios/Pods/nanopb/pb_encode.c:147-236 | writes what the array encodes to, packed or not, and reports too many items |
| PbStream.OStream.WriteSubmessage | ios/Pods/nanopb/pb_encode.c:717-765 | writes the length-prefixed message in exactly the measured room; a size change is never reported |
| PbStream.OStream.WriteField | ios/Pods/nanopb/pb_encode.c:341-426 | writes what the field encodes to under its rule |
| PbStream.OStream.WriteMessage | ios/Pods/nanopb/pb_encode.c:528-550 | writes what the message encodes to; fails exactly when that has an error or there is no room |
| PbStream.EncodeMeasured | ios/Pods/nanopb/pb_encode.c:567-576 | if the sizing pass returns n, encoding into n or more bytes succeeds and writes exactly n |
| PbReader.FieldIter.Find | ios/Pods/nanopb/pb_common.c:87-104 | the wrap-around search from the current field finds the tag or shows that no field has it |
| PbReader.FieldIter.Next | ios/Pods/nanopb/pb_common.c:29-85 | advances or wraps, keeping the rank among required fields |
| PbReader.IStream.ReadVarint32 | ios/Pods/nanopb/pb_decode.c:187-253 | reads 32-bit varints, accepting only zero groups or a sign extension beyond 32 bits |
| PbReader.IStream.ReadField | ios/Pods/nanopb/pb_decode.c:406-483 | stores one wire value in its field under its rule, packed arrays included, as the decoding function does |
| PbReader.IStream.DecodeNoInit | ios/Pods/nanopb/pb_decode.c:934-1082 | the field loop with its iterator and bitmap computes the struct the decoding function gives |
| PbWire.FieldsRead | ios/Pods/nanopb/pb_decode.c:934-1082 | reading the wire form of any well-formed fields, known and unknown, from any state stores the known ones in order and leaves exactly the rest of the input |
| PbWire.UnknownIsSkipped | ios/Pods/nanopb/pb_decode.c:321-331 | a field the schema does not have, of any wire type, is skipped whole, whatever the state and whatever follows |
| PbWire.Varint32Reads | ios/Pods/nanopb/pb_decode.c:187-253 | a 32-bit varint reader takes exactly the numbers below 32 bits and those that extend a 32-bit sign, truncated |
| PbMessage.Ranges | ios/Pods/nanopb/pb_decode.c:1345-1430 | the range test of decoded integers is exactly the two's complement or unsigned range of their size |
| PbLaws.DecodeReads | ios/Pods/nanopb/pb_decode.c:1084-1096 | a message of fields that suit the schema decodes exactly when the first 64 required fields occur and every value can be stored, to the defaults with the fields stored one after the other |
| PbLaws.UnknownFieldsAreIgnored | ios/Pods/nanopb/pb_decode.c:991-994 | removing every field the schema does not have, at every depth, does not change what a message decodes to |
| PbLaws.LastOneWins | ios/Pods/nanopb/pb_decode.c:406-440 | of two values of a field that keeps one, the last is what a reader sees |
| PbLaws.PartsAreMerged | ios/Pods/nanopb/pb_decode.c:1525-1568 | a submessage sent in two parts decodes as the submessage of both parts' fields in order |
| PbLaws.ZeroEnds | ios/Pods/nanopb/pb_decode.c:957-973 | a zero byte in the place of a tag ends the message, whatever follows |
| PbBounds.DecodedFits | ios/Pods/nanopb/pb_decode.c:442-483 | whatever the input, a decoded struct fits its static storage at every depth: array counts, byte array sizes, terminated strings, exact fixed lengths, integer ranges, at most one member of a oneof set |
| PbBounds.DecodedSendsOn | ios/Pods/nanopb/pb_decode.c:1084-1096 | any accepted input, encoded again, decodes to what a reader saw in it |
| PbReader.RanksComplete | ios/Pods/nanopb/pb_decode.c:1040-1080 | all bits of the bitmap are set exactly when the first 64 required fields were all seen |
| PbRoundTrip.MessageRoundTrip | ios/Pods/nanopb/pb_decode.c:1084-1096 | for every recursive schema with distinct nonzero tags and every encodable message whose strings are terminated, decoding the encoding gives the message back, unset optionals reading as defaults |
| PbRoundTrip.RoundTripIff | ios/Pods/nanopb/pb_decode.c:1487-1523 | the round trip holds if and only if every present string leaves room for its terminator |
| PbRoundTrip.SubmessageOmittedIff | ios/Pods/nanopb/pb_encode.c:238-325 | a proto3 submessage field writes nothing exactly when the message in it would write nothing |

## Left out

- Flutter, Win32, GTK, Swift and Kotlin runners, plugin registrants, BoringSSL and Firebase headers: glue without logic of their own.
- Files, environments, loggers, the table cache and repair: input and output, thin wrappers, best-effort recovery.
- Compressed blocks, unparsable internal keys and failing file appends while a table is built; a damaged block is one that `TableFormat.ReadBlock` rejects.
- Log reading from an initial offset and reopening a truncated log for appending.
- Memtable entry bytes (`ios/Pods/leveldb-library/db/memtable.cc:76-99`) and the lookup key buffer: a memtable is a sorted run of entries; its list is `SkipLists`.
- Compaction scores, seek statistics, read sampling and the choice of level by `PickCompaction`: the level and the seek file are parameters.
- Weak memory order: loads and stores of the skip list are sequentially consistent; concurrent readers are shown one at a time, since readers do not write.
- CompactionWork.CompactionState.DoCompactionWork: reads all merged inputs in one call; the memtable flush inside the loop touches the version set only and is a step of `History` between Pick and Install.
- History.RunsReadNewestWrite: holds for runs of safe steps, since the code checks neither guard; `History.RunsKeepInvIff` says the guards are exact and `Limits` has the failing states.
- Blocks.BlockBuilder.Finish: returns the finished bytes instead of appending to the builder's own buffer, which the code discards with Reset.
- LruCaches.LRUCache.Ref: the two circular lists are sequences, so their pointer stores are not modelled there; `Snapshots` has the same stores on a real ring.
- HandleTables.HandleTable.Insert: buckets are sequences, not chains through next_hash; lengths are powers of two, so masking is a remainder.
- Tables.Table.Open: opens finished files of at most 64-bit size with 32-bit blocks; the failures of Open on other files and the block cache are not modelled.
- Sharding of the cache by hash bits, cache identifiers and the destructor of a shard.
- nanopb pointer fields, callbacks, extensions, custom streams, fixed-count arrays, delimited and null-terminated wrappers, wrap-around of size_t, and the 36-byte limit after which the shift counter of a 32-bit varint wraps.
- TableFormat.ReadBlock: rejects compressed blocks, as the builder writes none.
- PbReader.FieldIter.Next: data and size pointers are positions in a list of slots, so their byte offsets are not modelled.
- PbReader.IStream.DecodeNoInit: extensions and fixed-count arrays are left out.
- PbReader.RanksComplete: the bitmap is a set of ranks, not 32-bit words compared under a mask.
- Durability.RecoversRun: a failed append leaves the log file and its writer out of step, so runs with one are not covered; deleting logs after their memtable is flushed is not modelled.
- PbBounds.DecodedFits: assumes that the initial values in the descriptors are values their C types can hold.
- Checksums.ExtendByStrides: the tables are represented by the remainders their entries are, and the start address by the number of bytes before the first aligned one; a processor's own checksum instruction is not modelled.
- PbRoundTrip.MessageRoundTrip: messages encode to less than 4 GB, the width of a length on the wire.
- Lookup of a field number 0 in a message type without fields, where the code reads a sentinel descriptor.
