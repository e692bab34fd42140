# A model of LevelDB and nanopb

The application is a small Flutter shell around two vendored C and C++
libraries: LevelDB, a key-value store built as a log-structured merge tree, and
nanopb, a small Protocol Buffers implementation. This project models both in
Dafny and proves what they are for.

`dafny verify dfyconfig.toml` checks everything.

## What is modelled

**The tree.** A state is a memtable, an immutable memtable, seven levels of
files, snapshots and counters. The specification is a flat set of entries (user
key, sequence number, type, value) with one rule, `DbFormat.ReadAt`: the newest
entry of the key at or below the snapshot wins, and a deletion reads as absent.
`version` has the search of one version, `picking` the choice of compaction
inputs, `builder` the application of edits, `compaction` the merge loop with its
two drop rules, `lsm` the invariant over levels, `steps` flush, move and
compaction as whole steps, `database` the running object with `Get` at every
live snapshot and the runs of its steps, and `snapshots` the list of live
snapshots. The main results: `VersionGet` equals a read of the flat set; every
step keeps the level invariant; in every run the live snapshots read as the
whole write history (`Database.RunReadsHistory`), which is what a map of puts
and deletions had at that moment (`Database.RunIsMap`); a compaction keeps every read at or above the smallest snapshot *if
and only if* its inputs are closed to tombstones (`LsmSteps.CompactFiles`).

**A property that does not hold of the code.** `SetupOtherInputs` adds boundary
files to the inputs of the compacted level but not to those of the next level,
so a user key can be split there between a file that is taken and one that is
not. `Tombstones.SplitTombstoneComesBack` gives such a state: a well-formed
version, the inputs that are chosen in it, and a deleted key that reads as its
old value afterwards; `splitrun` reaches it from an empty database.
`CompactionWork.ReadsKeptExactlyWithoutResurrection` is
the exact condition on entries, and `Tombstones.ClosedUnlessSplitAtEnd` the
exact condition that a caller could check before the merge: the last user key of
the next-level inputs, its newest entry there and in the boundary files left
behind. `Tombstones.ClosedNextLevelIsSafe` is the cheap half of it.

**Writers.** `writers` models group commit as steps of any number of threads
over the queue, the log, the memtable and `LastSequence`, with the mutex dropped
by the leader; a group is the longest run of writers that may be one.

**Durability.** `durability` is a state machine of a process and its disk: log
records, memtable switch, flush, compaction, manifest records, deletion of
obsolete files, a crash at any moment, recovery and the writes after it. The
invariant over every run says that what is on disk recovers to a database that
reads as everything logged. `durabletree` connects it to the compactions of the
tree and `recovery` to the replay of the logs: `Recovery.Reopen` reads cut-off
logs back through memtables into tables and a version, and shows that a `Get`
there returns what was logged.

**Formats.** `coding` (integers, varints, slices), `comparator` (the bytewise
and internal orders and the shortened keys between blocks), `crc32c` (the
four-stride loop against the byte-at-a-time CRC), `crcburst` (what the CRC is
for: damage within 32 consecutive bits is detected), `logformat`, `logwriter`,
`logreader` (the write-ahead log with truncation, and what is reported of a file
that is damaged anywhere), `versionedit`, `manifest` (edits and recovery of the
version set, with what they refuse), `writebatch`, `memtable` (batches and entries
as bytes). A few small lemmas fix the bytes of each format, so that writer and
reader cannot be wrong together.

**Tables.** `blockformat`, `blockbuilder`, `block` (prefix-compressed blocks),
`bloom`, `filterblock` (filters), `tableformat`, `tablebuilder`, `table`
(tables and the lookup in them; `TableBuilders.BuildAndGet` builds one and looks a
key up).

**Iterators.** `iterators` (what a cursor on a sorted run is), `dbiter`,
`merger`, `twolevel`.

**Pointer structures.** `handletable`, `cache` (hash chains and the two
intrusive lists, on the heap), `skiplist` (one writer and lock-free readers, one
pointer load or store at a time).

**nanopb.** `pbfield` (descriptors, values, the wrapping field iterator),
`pbencode` (the sizing and writing passes), `pbwire` (input streams, substreams
and the two varint decoders), `pbrequired` (the bit set of required fields),
`pbdecode` and `pbdecoder` (what the decoder stores and the methods that store
it), `pbview` and `pbroundtrip` (what a message says, and that decoding an
encoding says the same), `pbforward` (what a decoder makes of a message from
another version of its descriptor), `pbdefaults` (an optional field that is absent
has its default, on any input) and `pbvarint` (which varints the 32-bit decoder
accepts). It follows the Protocol Buffers Encoding specification,
sections "Base 128 Varints", "Signed Integers" and "Packed Repeated Fields".
Two properties do not hold as its documentation and comments have them. The
32-bit varint decoder does not refuse every number that is too large:
`PbVarint.OverflowSlips` has one that it takes, `PbVarint.Varint32Exactly` says
which it takes, and `PbVarint.ReadsTrueExactly` has the exact condition on the
bytes under which it reads the number that is there. And a string that fills its
buffer without a NUL is accepted by the encoder and refused by the decoder
(`PbRoundTrip.UnterminatedIsRefused`). `PbRoundTrip.RoundTrip` states the exact
condition: decoding the encoding succeeds if and only if every string present is
terminated.

Code that changes things step by step is a class or a method with loops here,
proved against a specification function; the theorems are about those functions
and about the state machines.

## Model

| member | source | states |
|---|---|---|
| Versions.FindFile | flutter_blog_app/ios/Pods/leveldb-library/db/version_set.cc:88-106 | binary search for the first file whose largest key is at or after the key; everything before it is below, everything from it on is not |
| Versions.TableGetCorrect | flutter_blog_app/ios/Pods/leveldb-library/table/table.cc:216-244 | one table, as Version::Get uses it: a hit is the newest entry of the key at or below the snapshot, a miss means it holds none |
| Versions.LevelLookup | flutter_blog_app/ios/Pods/leveldb-library/db/version_set.cc:365-382 | in a sorted, disjoint level the one file FindFile names decides for the whole level, even when a user key is split over two files |
| Versions.SearchLevelZero | flutter_blog_app/ios/Pods/leveldb-library/db/version_set.cc:349-364 | level 0: among all files whose range holds the key, the first hit by descending file number is the newest visible entry of the level |
| Versions.SearchSortedLevel | flutter_blog_app/ios/Pods/leveldb-library/db/version_set.cc:365-418 | a level above 0: the answer of at most one file is the answer of the level |
| Versions.VersionGet | flutter_blog_app/ios/Pods/leveldb-library/db/version_set.cc:326-421 | the early-exit search returns the newest visible entry of the flat set of all entries of the version, and what reading that set at the snapshot gives |
| DbFormat.ReadThrough | flutter_blog_app/ios/Pods/leveldb-library/db/db_impl.cc:1125-1134 | searching a newer part first and an older part only on a miss reads their union |
| Picking.GetOverlappingInputs | flutter_blog_app/ios/Pods/leveldb-library/db/version_set.cc:519-559 | above level 0 exactly the overlapping files; at level 0 the restarting scan stops with the least set that is closed under overlap of user ranges |
| Picking.FindLargestKey | flutter_blog_app/ios/Pods/leveldb-library/db/version_set.cc:1326-1340 | the largest key of the files is at or above all of them and belongs to one |
| Picking.AddBoundaryInputs | flutter_blog_app/ios/Pods/leveldb-library/db/version_set.cc:1378-1401 | terminates, and appends the chain of boundary files: each begins later than the largest key so far with the same user key, and is the least that does |
| Picking.ChainIsChained | flutter_blog_app/ios/Pods/leveldb-library/db/version_set.cc:1378-1401 | each boundary file is the least of the files that begin later than the key before it with the same user key, and the chain ends where there is none |
| Picking.BoundaryCloses | flutter_blog_app/ios/Pods/leveldb-library/db/version_set.cc:1378-1401 | for a contiguous run of a sorted level, no file left out begins with the user key that the chosen ones end with; at level 0 nothing is added |
| Picking.OverlapIsConsecutive | flutter_blog_app/ios/Pods/leveldb-library/db/version_set.cc:519-559 | in a sorted level the files that overlap a user range are consecutive |
| Picking.WideningGains | flutter_blog_app/ios/Pods/leveldb-library/db/version_set.cc:1429-1445 | a wider range overlaps no fewer next-level files, and when it gains none they are the same files |
| Picking.Expand | flutter_blog_app/ios/Pods/leveldb-library/db/version_set.cc:1419-1428 | the larger set of level inputs holds the smaller one and is again a closed run |
| Picking.SetupOtherInputs | flutter_blog_app/ios/Pods/leveldb-library/db/version_set.cc:1403-1462 | exactly the picked files with their boundary files, or all of the level in the range of both inputs where that is more files, stays below the size limit and meets as many files of the next level; the next-level inputs are the files met before growing |
| Picking.PickCompaction | flutter_blog_app/ios/Pods/leveldb-library/db/version_set.cc:1270-1324 | the inputs are what the picked file leads to: the file alone, at level 0 with the least closed set around it; they hold it and are good inputs of their level |
| Picking.CompactRange | flutter_blog_app/ios/Pods/leveldb-library/db/version_set.cc:1464-1496 | found exactly if some file of the level meets the range; at level 0 all that meet it and what overlaps them, above it the first files meeting it up to where their size reaches the limit, then what they lead to |
| Picking.SizesAdd | flutter_blog_app/ios/Pods/leveldb-library/db/version_set.cc:60-66 | the total size of files is the sum over the parts they are cut into, and of one file its size |
| Picking.SomeFileOverlapsRange | flutter_blog_app/ios/Pods/leveldb-library/db/version_set.cc:122-157 | true exactly if some file meets the user range, by scan at level 0 and by binary search above it |
| Picking.OverlapInLevel | flutter_blog_app/ios/Pods/leveldb-library/db/version_set.cc:485-489 | true exactly if some file of the level meets the user range |
| Picking.TooManyGrandparentBytes | flutter_blog_app/ios/Pods/leveldb-library/db/version_set.cc:500-511 | whether the next but one level has more bytes under the new file than allowed |
| Picking.PickLevelForMemTableOutput | flutter_blog_app/ios/Pods/leveldb-library/db/version_set.cc:491-516 | the deepest level reached step by step while the range of the table stays free of files down to it and light two levels further |
| VersionBuilder.Builder.Apply | flutter_blog_app/ios/Pods/leveldb-library/db/version_set.cc:650-692 | records the deletions, then the additions; an addition takes a deletion of the same number back |
| VersionBuilder.Builder.SaveLevelTo | flutter_blog_app/ios/Pods/leveldb-library/db/version_set.cc:695-754 | the merge of base and added files drops exactly the deleted ones and keeps the order |
| VersionBuilder.ApplyEditLevel | flutter_blog_app/ios/Pods/leveldb-library/db/version_set.cc:695-754 | after one edit a level holds the added files and the base files that were not deleted, in order |
| VersionBuilder.LogAndApply | flutter_blog_app/ios/Pods/leveldb-library/db/version_set.cc:816-821 | the builder part: the new version is, level by level, what one edit applied to the current one saves |
| VersionBuilder.ReplayEqualsLiveRun | flutter_blog_app/ios/Pods/leveldb-library/db/version_set.cc:933-992 | one builder fed all edits and saved once gives the file list of a run that saved after every edit, as long as no file is added twice |
| CompactionWork.Compaction.IsBaseLevelForKey | flutter_blog_app/ios/Pods/leveldb-library/db/version_set.cc:1533-1552 | for keys that do not go down, the moving cursors answer as a scan of all deeper levels would |
| CompactionWork.DecideDrop | flutter_blog_app/ios/Pods/leveldb-library/db/db_impl.cc:930-963 | an entry is dropped exactly by one of the two rules |
| CompactionWork.HiddenIsCovered | flutter_blog_app/ios/Pods/leveldb-library/db/db_impl.cc:937-948 | looking only at the previous entry finds exactly the entries that a newer one at or below the smallest snapshot covers |
| CompactionWork.NothingNeedlessStays | flutter_blog_app/ios/Pods/leveldb-library/db/db_impl.cc:930-963 | of each user key at most one input entry at or below the smallest snapshot stays, and a deletion there only above a deeper file whose range has the key |
| CompactionWork.DoCompactionWork | flutter_blog_app/ios/Pods/leveldb-library/db/db_impl.cc:878-999 | wherever output files are cut, they hold exactly the entries that are kept, in order and with fresh numbers |
| CompactionWork.NewestDropped | flutter_blog_app/ios/Pods/leveldb-library/db/db_impl.cc:949-960 | when the newest visible entry of a key is dropped it was a tombstone and what remains still reads as absent |
| CompactionWork.ReadsKeptExactlyWithoutResurrection | flutter_blog_app/ios/Pods/leveldb-library/db/db_impl.cc:878-1036 | every read at or above the smallest snapshot is kept if and only if no dropped tombstone has an older value outside the inputs |
| LsmTree.OutsideClosedRun | flutter_blog_app/ios/Pods/leveldb-library/db/version_set.cc:1362-1401 | next to a closed run, earlier files hold only newer entries of a shared user key and later files share none |
| LsmTree.OtherAtLevelIsNewer | flutter_blog_app/ios/Pods/leveldb-library/db/version_set.cc:1403-1422 | no unchosen file of the input level holds an older entry of a user key that a chosen file holds |
| LsmTree.OtherAtNextIsAside | flutter_blog_app/ios/Pods/leveldb-library/db/version_set.cc:1403-1422 | an unchosen file of the next level lies wholly beside the inputs |
| LsmTree.OtherAboveOutput | flutter_blog_app/ios/Pods/leveldb-library/db/version_set.cc:1403-1462 | what stays in the input level or above is newer, per user key, than what a compaction writes below it |
| LsmTree.ReplacedIsWellFormed | flutter_blog_app/ios/Pods/leveldb-library/db/version_set.cc:695-754 | replacing good inputs by sorted outputs keeps every level above 0 sorted and disjoint and every shallower level newer, so the debug check never fires |
| LsmTree.DeletesInputs | flutter_blog_app/ios/Pods/leveldb-library/db/version_set.cc:1525-1531 | deleting by level and number removes exactly the inputs |
| LsmSteps.Flush | flutter_blog_app/ios/Pods/leveldb-library/db/db_impl.cc:491-566 | a memtable becomes one file at a picked level; the level invariant is kept and every read is that of memtable and version together |
| LsmSteps.FlushIsWellFormed | flutter_blog_app/ios/Pods/leveldb-library/db/db_impl.cc:515-554 | whatever level the rule picks, the version with the new file keeps the level invariant and holds memtable and version together |
| LsmSteps.TrivialMove | flutter_blog_app/ios/Pods/leveldb-library/db/db_impl.cc:718-733 | moving a lone input file one level down keeps the invariant and the entries |
| LsmSteps.PiecesInOrder | flutter_blog_app/ios/Pods/leveldb-library/db/db_impl.cc:974-996 | a sorted sequence cut anywhere gives valid files in order |
| LsmSteps.CompactFiles | flutter_blog_app/ios/Pods/leveldb-library/db/db_impl.cc:860-1036 | a whole compaction keeps the level invariant, keeps all reads at or above the smallest snapshot exactly when the inputs are closed to tombstones, and leaves at most one entry of a key at or below that snapshot in its outputs |
| Tombstones.OutsiderIsNewer | flutter_blog_app/ios/Pods/leveldb-library/db/version_set.cc:1403-1462 | with the next level closed under shared user keys, what is left out is newer than any tombstone that is dropped |
| Tombstones.ClosedNextLevelIsSafe | flutter_blog_app/ios/Pods/leveldb-library/db/version_set.cc:1422 | a check before the merge that makes it safe: no boundary file is left in the next level |
| Tombstones.OlderIsBoundary | flutter_blog_app/ios/Pods/leveldb-library/db/version_set.cc:1403-1462 | an entry left out that is older than a tombstone that may be dropped can only be in a boundary file after the next-level inputs |
| Tombstones.ClosedUnlessSplitAtEnd | flutter_blog_app/ios/Pods/leveldb-library/db/version_set.cc:1407-1462 | the exact condition on file bounds and one user key: reads are lost if and only if the last user key of the next-level inputs is deleted there and in no deeper level, nothing above shows it, and a boundary file left behind has its value |
| Tombstones.SplitTombstoneComesBack | flutter_blog_app/ios/Pods/leveldb-library/db/version_set.cc:1407-1422 | boundary files are only added for the input level: a well-formed state and the inputs chosen for it, after which a deleted key reads as its old value |
| SplitRun.SplitStateIsReached | flutter_blog_app/ios/Pods/leveldb-library/db/db_impl.cc:491-1036 | that state is reached from an empty database by writes, a snapshot, flushes and one compaction cut between a deletion and the older value |
| SplitRun.DeletedComesBack | flutter_blog_app/ios/Pods/leveldb-library/db/db_impl.cc:878-1036 | and there the compaction of the chosen inputs, however its output is cut, turns the deleted key back into its old value |
| Database.DB.Get | flutter_blog_app/ios/Pods/leveldb-library/db/db_impl.cc:1100-1145 | at any live snapshot or the current sequence number, memtable, immutable memtable and version together return what the whole write history says: what the map of all puts and deletions had for the key then |
| Database.DB.Write | flutter_blog_app/ios/Pods/leveldb-library/db/db_impl.cc:1202-1237 | a batch gets the next sequence numbers; the map that reads show is afterwards the one before with every put stored and every deleted key removed, in order; the invariant of the whole database is kept |
| Database.DB.SwitchMemTable | flutter_blog_app/ios/Pods/leveldb-library/db/db_impl.cc:1345-1366 | the memtable becomes the immutable one and a new one begins, with no read changed |
| Database.DB.GetSnapshot | flutter_blog_app/ios/Pods/leveldb-library/db/db_impl.cc:1166-1169 | pins the current sequence number at the end of the list, with the map that reads show then |
| Database.DB.ReleaseSnapshot | flutter_blog_app/ios/Pods/leveldb-library/db/db_impl.cc:1171-1175 | unlinks any snapshot; the smallest one stays a lower bound |
| Database.DB.CompactMemTable | flutter_blog_app/ios/Pods/leveldb-library/db/db_impl.cc:535-566 | the immutable memtable becomes a table file without changing what is stored |
| Database.DB.BackgroundCompaction | flutter_blog_app/ios/Pods/leveldb-library/db/db_impl.cc:688-767 | the levels stay well formed, and every read that a live snapshot can make is kept if and only if a file was only moved or the inputs are closed to tombstones |
| Database.DB.OldestSnapshot | flutter_blog_app/ios/Pods/leveldb-library/db/db_impl.cc:890-894 | exactly the number the oldest live snapshot has, or the current one if there is none; at or below all of them |
| Database.SnapshotFloor | flutter_blog_app/ios/Pods/leveldb-library/db/db_impl.cc:890-894 | because the list is sorted, its first element is at or below every live snapshot and the current sequence number |
| Database.LayeredRead | flutter_blog_app/ios/Pods/leveldb-library/db/db_impl.cc:1125-1134 | the first layer with a hit says what the union of the layers says |
| Database.InstallKeepsFaith | flutter_blog_app/ios/Pods/leveldb-library/db/db_impl.cc:860-876 | installing a version that reads alike from the smallest snapshot on changes no read of the whole database from there on |
| Database.StepKeeps | flutter_blog_app/ios/Pods/leveldb-library/db/db_impl.cc:535-767 | each kind of step, with the compaction of inputs closed to tombstones, keeps the invariant of the whole database against its write history |
| Database.RunReadsHistory | flutter_blog_app/ios/Pods/leveldb-library/db/db_impl.cc:1100-1256 | in every run from an empty database whose compactions take such inputs, every live snapshot and the current sequence number read as everything written so far |
| Database.RunIsMap | flutter_blog_app/ios/Pods/leveldb-library/db/db_impl.cc:1100-1256 | in every such run a key reads, at the current sequence number and at every live snapshot, as a map that each put stores into and each deletion removes from had it at that moment |
| Database.BatchShows | flutter_blog_app/ios/Pods/leveldb-library/db/write_batch.cc:115-136 | if reads at the last number say what a map says, after a batch they say what the map says with its puts stored and its deleted keys removed |
| Snapshots.SnapshotList.constructor | flutter_blog_app/ios/Pods/leveldb-library/db/snapshot.h:41-44 | an empty ring |
| Snapshots.SnapshotList.Empty | flutter_blog_app/ios/Pods/leveldb-library/db/snapshot.h:46 | true exactly if there is no live snapshot |
| Snapshots.SnapshotList.Oldest | flutter_blog_app/ios/Pods/leveldb-library/db/snapshot.h:47-50 | the node after the head; no live snapshot has a smaller sequence number |
| Snapshots.SnapshotList.Newest | flutter_blog_app/ios/Pods/leveldb-library/db/snapshot.h:51-54 | the node before the head; no live snapshot has a larger sequence number |
| Snapshots.SnapshotList.New | flutter_blog_app/ios/Pods/leveldb-library/db/snapshot.h:57-72 | the four pointer stores put the new node at the end of the ring, which stays doubly linked and ordered |
| Snapshots.SnapshotList.Delete | flutter_blog_app/ios/Pods/leveldb-library/db/snapshot.h:79-86 | two pointer stores take any node out; the others keep their order |
| WriterQueue.BuildBatchGroup | flutter_blog_app/ios/Pods/leveldb-library/db/db_impl.cc:1260-1306 | the group is the front and the longest run of followers with no sync write behind a non-sync front and a total of at most 128 KiB above a front of up to 128 KiB, 1 MiB otherwise; it stops only at such a writer or the end; the result is their operations in order |
| WriterQueue.GroupIsLongest | flutter_blog_app/ios/Pods/leveldb-library/db/db_impl.cc:1260-1306 | the group may be one, what stops it is the end, a sync writer or a batch over the cap, and no longer run may be one |
| WriterQueue.RunKeeps | flutter_blog_app/ios/Pods/leveldb-library/db/db_impl.cc:1185-1256 | in every interleaving of arrivals, leaders and wake-ups the queue, log, memtable and sequence numbers fit together |
| WriterQueue.OneCommitterAtTheFront | flutter_blog_app/ios/Pods/leveldb-library/db/db_impl.cc:1209-1233 | at most one thread is in the unlocked log-and-insert phase, and it is the front of the queue |
| WriterQueue.FinishedIsLogged | flutter_blog_app/ios/Pods/leveldb-library/db/db_impl.cc:1204-1256 | a finished write stands in the log once, at its place in arrival order, with contiguous sequence numbers; a finished sync write is on disk |
| WriterQueue.SyncRidesWithSync | flutter_blog_app/ios/Pods/leveldb-library/db/db_impl.cc:1277-1283 | no sync write is committed by a leader that does not sync |
| WriterQueue.SnapshotsSeeWholeBatches | flutter_blog_app/ios/Pods/leveldb-library/db/db_impl.cc:1236 | a reader at LastSequence sees all entries of a batch or none |
| WriterQueue.QueueIsNeverStuck | flutter_blog_app/ios/Pods/leveldb-library/db/db_impl.cc:1191-1256 | while anyone is queued the front can take a step |
| Durability.StepKeeps | flutter_blog_app/ios/Pods/leveldb-library/db/db_impl.cc:223-566 | every single step of write, switch, flush, compaction, manifest append, deletion, crash and recovery leaves a disk that recovers to all that was logged |
| Durability.RunIsDurable | flutter_blog_app/ios/Pods/leveldb-library/db/db_impl.cc:280-369 | the same at every moment of every run, crashes and reopenings included |
| Durability.AcknowledgedSurvives | flutter_blog_app/ios/Pods/leveldb-library/db/db_impl.cc:280-369 | recovery holds nothing that was never logged, reads as everything logged, returns each acknowledged newest write, and its last sequence is at or above every recovered one |
| Durability.CrashLosesNothing | flutter_blog_app/ios/Pods/leveldb-library/db/db_impl.cc:280-369 | in any run a crash at any moment loses no acknowledged write |
| Durability.NeverNeeded | flutter_blog_app/ios/Pods/leveldb-library/db/db_impl.cc:223-278 | DeleteObsoleteFiles removes no log, table or manifest that recovery needs |
| Durability.OnlyNeededStays | flutter_blog_app/ios/Pods/leveldb-library/db/db_impl.cc:223-278 | what DeleteObsoleteFiles leaves is needed by recovery, a table still being written, or a manifest newer than the current one |
| Durability.DeleteKeeps | flutter_blog_app/ios/Pods/leveldb-library/db/db_impl.cc:223-278 | after a deletion the disk still recovers to the same reads |
| Durability.NewDbIsDurable | flutter_blog_app/ios/Pods/leveldb-library/db/db_impl.cc:182-212 | a new database recovers |
| DurableTree.CompactionIsDurable | flutter_blog_app/ios/Pods/leveldb-library/db/db_impl.cc:860-1036 | the outputs of a whole compaction on inputs closed to tombstones are what the durable system asks of a compaction, and the live tables are then the files of the new version |
| Recovery.WriteLevel0Table | flutter_blog_app/ios/Pods/leveldb-library/db/db_impl.cc:491-533 | a memtable becomes a table with exactly its entries, in order; an empty one becomes none |
| Recovery.RecoverLogFile | flutter_blog_app/ios/Pods/leveldb-library/db/db_impl.cc:371-489 | for a log cut off anywhere, the batches complete in it are in the recovered tables, newer tables with higher numbers, wherever the memtable was flushed; the highest sequence number is the running maximum |
| Recovery.RecoverLogs | flutter_blog_app/ios/Pods/leveldb-library/db/db_impl.cc:329-362 | the same for all logs in order of their numbers, which are then marked as used |
| Recovery.HighestIsLast | flutter_blog_app/ios/Pods/leveldb-library/db/db_impl.cc:424-428 | the maximum is at or above every recovered entry and is one of them, or known to the manifest |
| Recovery.LogsHoldSurvivors | flutter_blog_app/ios/Pods/leveldb-library/db/db_impl.cc:308-327 | the entries the durable system sees in the needed logs are those of the surviving batches |
| Recovery.RecoveredVersion | flutter_blog_app/ios/Pods/leveldb-library/db/version_set.cc:816-821 | applying the edit of recovery keeps the level invariant, with the recovered tables in level 0 and nothing else changed |
| Recovery.Reopen | flutter_blog_app/ios/Pods/leveldb-library/db/db_impl.cc:281-369 | from any disk the durable system can leave, the reopened version is well formed, holds what the disk held and at the recovered last sequence number reads as everything logged |
| Recovery.GetAfterReopen | flutter_blog_app/ios/Pods/leveldb-library/db/db_impl.cc:281-369 | a Get on the reopened version returns the newest write that was logged, acknowledged ones included |
| Recovery.RecoveryOpens | flutter_blog_app/ios/Pods/leveldb-library/db/db_impl.cc:281-369 | what recovery computes satisfies the guard of the opening step, so the invariant holds again |
| LogFormat.PlacedReads | flutter_blog_app/ios/Pods/leveldb-library/db/log_reader.cc:189-271 | a physical record that lies whole in the file reads back from its block |
| LogFormat.PlacedCut | flutter_blog_app/ios/Pods/leveldb-library/db/log_reader.cc:200-234 | a physical record cut by the end of the file reads as the end, with no report |
| LogFormat.PhysicalIsIntact | flutter_blog_app/ios/Pods/leveldb-library/db/log_reader.cc:189-271 | on any file, a fragment is returned only from a record that stands whole in a block with a matching checksum; what is passed over is blank, cut off by the end of the file, or reported with all the rest of its block |
| LogFormat.DamageIsSeen | flutter_blog_app/ios/Pods/leveldb-library/util/crc32c.h:17-38 | contents damaged within 32 consecutive bits do not match the stored checksum |
| LogFormat.DamageIsReported | flutter_blog_app/ios/Pods/leveldb-library/db/log_reader.cc:243-257 | a record whose type or payload was damaged so is dropped with the rest of its block, and reported |
| LogWriter.Writer.constructor | flutter_blog_app/ios/Pods/leveldb-library/db/log_writer.cc:27-30 | a writer for a file that already has contents starts at the right block offset |
| LogWriter.Writer.EmitPhysicalRecord | flutter_blog_app/ios/Pods/leveldb-library/db/log_writer.cc:82-108 | appends checksum, length, type and payload |
| LogWriter.Writer.AddRecord | flutter_blog_app/ios/Pods/leveldb-library/db/log_writer.cc:34-80 | appends exactly the fragments of the record for the offset it starts at, and the file stays the log of the records added |
| LogWriter.LogGrows | flutter_blog_app/ios/Pods/leveldb-library/db/log_writer.cc:34-80 | appending one more record extends the log by it |
| LogWriter.EmptyFragment | flutter_blog_app/ios/Pods/leveldb-library/db/log_writer.cc:43-78 | an empty fragment of a record that is not empty ends its block, so the loop ends |
| LogWriter.NoWaste | flutter_blog_app/ios/Pods/leveldb-library/db/log_writer.cc:34-80 | at most six bytes are skipped before a header, a record does not cross a block, and a fragment that is not the last one ends its block |
| LogWriter.RecordBytes | flutter_blog_app/ios/Pods/leveldb-library/db/log_writer.cc:82-108 | a record of one byte as bytes, and the type of each kind of fragment |
| LogReader.Reader.FillBuffer | flutter_blog_app/ios/Pods/leveldb-library/db/log_reader.cc:191-216 | reads blocks until a header is buffered, or reaches the end of the file |
| LogReader.Reader.ReadPhysicalRecord | flutter_blog_app/ios/Pods/leveldb-library/db/log_reader.cc:189-271 | returns the next physical record, or the code and report that the bytes call for |
| LogReader.Reader.ReadRecord | flutter_blog_app/ios/Pods/leveldb-library/db/log_reader.cc:56-171 | the reassembly loop returns the next logical record, its position and its reports, in every state and on every input |
| LogReader.RecordReads | flutter_blog_app/ios/Pods/leveldb-library/db/log_reader.cc:56-171 | a record whose fragments are all there is put together, however many blocks it spans |
| LogReader.RecordCut | flutter_blog_app/ios/Pods/leveldb-library/db/log_reader.cc:56-171 | a record whose last fragment is not all there reads as the end, with no report |
| LogReader.ReturnedIsAssembled | flutter_blog_app/ios/Pods/leveldb-library/db/log_reader.cc:56-171 | on any file, a record that is returned was put together from one full fragment, or a first, middle and last ones that follow one another |
| LogReader.NothingIsLostSilently | flutter_blog_app/ios/Pods/leveldb-library/db/log_reader.cc:56-187 | on any file, every refused block is reported, and every byte of an intact fragment is in the record returned or reported as dropped, save those of a record the file ends in |
| LogReader.CompleteCounts | flutter_blog_app/ios/Pods/leveldb-library/db/log_writer.cc:34-80 | how many records of a log end within a prefix of it |
| LogReader.TruncatedLogReads | flutter_blog_app/ios/Pods/leveldb-library/db/log_reader.cc:56-271 | for every list of records, every starting position and every truncation, exactly the records that are complete are returned, in order, with no report |
| LogReader.LogReads | flutter_blog_app/ios/Pods/leveldb-library/db/log_reader.cc:56-271 | a whole log reads back as the records written |
| Iterators.StepsOnSortedRun | flutter_blog_app/ios/Pods/leveldb-library/db/db_iter.cc:141-225 | on a sorted run the next and previous entries of the set are the neighbours |
| Iterators.ExtremesAreUnique | flutter_blog_app/ios/Pods/leveldb-library/table/merger.cc:148-175 | the least and greatest entries of a set with distinct keys are unique, so the move contracts fix the cursor |
| DBIterator.DBIter.KeyAndValueAreRead | flutter_blog_app/ios/Pods/leveldb-library/db/db_iter.cc:64-71 | key and value are a read of all entries at the iterator's sequence number, in either direction |
| DBIterator.LiveIsRead | flutter_blog_app/ios/Pods/leveldb-library/db/db_iter.cc:168-198 | a live entry is what a read of its user key returns |
| DBIterator.ReadIsLive | flutter_blog_app/ios/Pods/leveldb-library/db/db_iter.cc:168-198 | every read that finds a value has its live entry, so no key is skipped |
| DBIterator.DBIter.FindNextUserEntry | flutter_blog_app/ios/Pods/leveldb-library/db/db_iter.cc:168-198 | goes on to the next live entry past deleted, overwritten and too new ones |
| DBIterator.DBIter.FindPrevUserEntry | flutter_blog_app/ios/Pods/leveldb-library/db/db_iter.cc:227-267 | goes back to the last live entry at or before the position |
| DBIterator.DBIter.Next | flutter_blog_app/ios/Pods/leveldb-library/db/db_iter.cc:141-166 | moves to the least live user key above the current one, also right after a move backwards |
| DBIterator.DBIter.Prev | flutter_blog_app/ios/Pods/leveldb-library/db/db_iter.cc:200-225 | moves to the greatest live user key below the current one, also right after a move forwards |
| DBIterator.DBIter.Seek | flutter_blog_app/ios/Pods/leveldb-library/db/db_iter.cc:269-281 | moves to the least live user key at or above the target |
| DBIterator.DBIter.SeekToFirst | flutter_blog_app/ios/Pods/leveldb-library/db/db_iter.cc:283-292 | moves to the first live user key |
| DBIterator.DBIter.SeekToLast | flutter_blog_app/ios/Pods/leveldb-library/db/db_iter.cc:294-299 | moves to the last live user key |
| Merger.MergingIterator.FindSmallest | flutter_blog_app/ios/Pods/leveldb-library/table/merger.cc:148-161 | the child with the smallest current key, or none when no child is valid |
| Merger.MergingIterator.FindLargest | flutter_blog_app/ios/Pods/leveldb-library/table/merger.cc:163-175 | the child with the largest current key, or none when no child is valid |
| Merger.MergingIterator.SeekToFirst | flutter_blog_app/ios/Pods/leveldb-library/table/merger.cc:31-37 | the least entry of the union of the children |
| Merger.MergingIterator.SeekToLast | flutter_blog_app/ios/Pods/leveldb-library/table/merger.cc:39-45 | the greatest entry of the union |
| Merger.MergingIterator.Seek | flutter_blog_app/ios/Pods/leveldb-library/table/merger.cc:47-53 | the least entry of the union at or after the target |
| Merger.MergingIterator.PositionAfter | flutter_blog_app/ios/Pods/leveldb-library/table/merger.cc:63-75 | the direction switch puts every other child just after the current key |
| Merger.MergingIterator.Next | flutter_blog_app/ios/Pods/leveldb-library/table/merger.cc:55-79 | the least entry of the union after the current one, in either direction |
| Merger.MergingIterator.PositionBefore | flutter_blog_app/ios/Pods/leveldb-library/table/merger.cc:89-104 | the direction switch puts every other child just before the current key |
| Merger.MergingIterator.Prev | flutter_blog_app/ios/Pods/leveldb-library/table/merger.cc:81-108 | the greatest entry of the union before the current one, in either direction |
| TwoLevel.FlatAt | flutter_blog_app/ios/Pods/leveldb-library/table/two_level_iterator.cc:146-161 | entry p of block i is entry offset(i) + p of the concatenation |
| TwoLevel.SeekLands | flutter_blog_app/ios/Pods/leveldb-library/table/two_level_iterator.cc:82-87 | seeking in the index and then in its block finds the first entry of the whole run at or after the target, in that block or a later one |
| TwoLevel.FlatIsSorted | flutter_blog_app/ios/Pods/leveldb-library/table/table.cc:210-214 | the concatenated blocks of a table are a sorted run, as the merging iterator needs of a child |
| TwoLevel.TwoLevelIterator.EntryIsCurrent | flutter_blog_app/ios/Pods/leveldb-library/table/two_level_iterator.cc:32-39 | key and value are those of the current entry of the whole run |
| TwoLevel.TwoLevelIterator.InitDataBlock | flutter_blog_app/ios/Pods/leveldb-library/table/two_level_iterator.cc:146-161 | the data iterator is one of the indexed block, kept when the handle is the same |
| TwoLevel.TwoLevelIterator.SkipEmptyDataBlocksForward | flutter_blog_app/ios/Pods/leveldb-library/table/two_level_iterator.cc:115-126 | terminates on the next entry, over any number of empty blocks |
| TwoLevel.TwoLevelIterator.SkipEmptyDataBlocksBackward | flutter_blog_app/ios/Pods/leveldb-library/table/two_level_iterator.cc:128-139 | terminates on the previous entry, over any number of empty blocks |
| TwoLevel.TwoLevelIterator.SeekToFirst | flutter_blog_app/ios/Pods/leveldb-library/table/two_level_iterator.cc:89-94 | the first entry of the concatenation |
| TwoLevel.TwoLevelIterator.SeekToLast | flutter_blog_app/ios/Pods/leveldb-library/table/two_level_iterator.cc:96-101 | the last entry of the concatenation |
| TwoLevel.TwoLevelIterator.Next | flutter_blog_app/ios/Pods/leveldb-library/table/two_level_iterator.cc:103-107 | one position further in the concatenation |
| TwoLevel.TwoLevelIterator.Prev | flutter_blog_app/ios/Pods/leveldb-library/table/two_level_iterator.cc:109-113 | one position back, or past the end from the first |
| TwoLevel.TwoLevelIterator.Seek | flutter_blog_app/ios/Pods/leveldb-library/table/two_level_iterator.cc:82-87 | the first entry of the concatenation at or after the target |
| HandleTables.HandleTable.FindPointer | flutter_blog_app/ios/Pods/leveldb-library/util/cache.cc:114-120 | the slot of the handle that matches, or the end of its chain when none does |
| HandleTables.HandleTable.Lookup | flutter_blog_app/ios/Pods/leveldb-library/util/cache.cc:74-76 | the handle that matches, or null exactly when none in the table does |
| HandleTables.HandleTable.Insert | flutter_blog_app/ios/Pods/leveldb-library/util/cache.cc:78-92 | the set of handles gains the new one and loses the one it replaces, through the resize |
| HandleTables.HandleTable.Remove | flutter_blog_app/ios/Pods/leveldb-library/util/cache.cc:94-102 | the set of handles loses the one that matches |
| HandleTables.HandleTable.Resize | flutter_blog_app/ios/Pods/leveldb-library/util/cache.cc:122-146 | moves the same handles into at least as many buckets as there are handles |
| HandleTables.HandleTable.MoveChain | flutter_blog_app/ios/Pods/leveldb-library/util/cache.cc:130-141 | relinks one old chain handle by handle, each into its new bucket |
| Cache.Unlink | flutter_blog_app/ios/Pods/leveldb-library/util/cache.cc:239-242 | takes one entry out of a ring and leaves the others in order |
| Cache.LinkLast | flutter_blog_app/ios/Pods/leveldb-library/util/cache.cc:244-250 | makes an entry the newest of a ring |
| Cache.LRUCache.NewIsValid | flutter_blog_app/ios/Pods/leveldb-library/util/cache.cc:197-203 | what the constructor leaves satisfies the invariant: each cached handle on exactly one list, on lru exactly at one reference, usage the sum of charges, table equal to the lists, deleters run once and only at zero references |
| Cache.LRUCache.Ref | flutter_blog_app/ios/Pods/leveldb-library/util/cache.cc:217-223 | one more reference; from lru the handle moves to in-use |
| Cache.LRUCache.Unref | flutter_blog_app/ios/Pods/leveldb-library/util/cache.cc:225-237 | one reference less; the deleter runs at zero, at one the handle goes to the end of lru |
| Cache.LRUCache.Lookup | flutter_blog_app/ios/Pods/leveldb-library/util/cache.cc:252-259 | the cached handle for the key, now held by the caller too, or null exactly when there is none |
| Cache.LRUCache.Release | flutter_blog_app/ios/Pods/leveldb-library/util/cache.cc:261-264 | gives a held handle back; its deleter runs exactly when it was the last reference |
| Cache.LRUCache.FinishErase | flutter_blog_app/ios/Pods/leveldb-library/util/cache.cc:307-316 | takes a handle already out of the table off its list and charge, and runs its deleter exactly if nobody holds it |
| Cache.LRUCache.Erase | flutter_blog_app/ios/Pods/leveldb-library/util/cache.cc:318-321 | uncaches the handle for the key |
| Cache.LRUCache.OldestIsFirst | flutter_blog_app/ios/Pods/leveldb-library/util/cache.cc:293-295 | the entry after the lru head is the oldest, cached, and held by nobody |
| Cache.LRUCache.EvictOldest | flutter_blog_app/ios/Pods/leveldb-library/util/cache.cc:294-300 | the body of the eviction loop: the oldest goes, and its deleter runs |
| Cache.LRUCache.EvictOverCapacity | flutter_blog_app/ios/Pods/leveldb-library/util/cache.cc:293-300 | evicts from the oldest on, no more than needed, until usage fits or lru is empty |
| Cache.LRUCache.Insert | flutter_blog_app/ios/Pods/leveldb-library/util/cache.cc:266-303 | caches the value under the invariant, replaces the handle of the same key, then usage is within capacity or lru is empty; with capacity 0 nothing is cached |
| Cache.LRUCache.Prune | flutter_blog_app/ios/Pods/leveldb-library/util/cache.cc:323-333 | drops exactly the cached handles that nobody holds |
| SkipList.RunKeeps | flutter_blog_app/ios/Pods/leveldb-library/db/skiplist.h:260-368 | in every interleaving of single pointer stores and loads, every level is a sorted sublist of the one below and each reader is on a valid path |
| SkipList.PublishKeeps | flutter_blog_app/ios/Pods/leveldb-library/db/skiplist.h:362-367 | the store that links the new node into one level adds its key there and nowhere else |
| SkipList.UnseenStore | flutter_blog_app/ios/Pods/leveldb-library/db/skiplist.h:346-365 | stores into the new node's own links, or of the height, change no level |
| SkipList.ReaderUndisturbed | flutter_blog_app/ios/Pods/leveldb-library/db/skiplist.h:260-281 | what the writer stores never hurts a search in progress |
| SkipList.FinishedSearch | flutter_blog_app/ios/Pods/leveldb-library/db/skiplist.h:260-281 | a finished search skipped no key that was there when it started |
| SkipList.WalkIsLevel | flutter_blog_app/ios/Pods/leveldb-library/db/skiplist.h:153-164 | following the links of a level meets exactly its keys, in order |
| SkipList.InsertInsertsInOrder | flutter_blog_app/ios/Pods/leveldb-library/db/skiplist.h:336-368 | the bottom list after Insert is the one before with the key put in order |
| Coding.Fixed32RoundTrip | flutter_blog_app/ios/Pods/leveldb-library/util/coding.cc:9-18 | four little-endian bytes give the number back |
| Coding.Fixed64RoundTrip | flutter_blog_app/ios/Pods/leveldb-library/util/coding.cc:20-33 | eight little-endian bytes give the number back |
| Coding.EncodeVarint32 | flutter_blog_app/ios/Pods/leveldb-library/util/coding.cc:47-73 | the case analysis by length writes the varint of the number |
| Coding.EncodeVarint64 | flutter_blog_app/ios/Pods/leveldb-library/util/coding.cc:81-90 | the loop writes the varint of the number |
| Coding.VarintRoundTrip | flutter_blog_app/ios/Pods/leveldb-library/util/coding.cc:112-157 | a varint reads back and leaves what follows it |
| Coding.GetVarintPtr | flutter_blog_app/ios/Pods/leveldb-library/util/coding.cc:112-157 | the decoding loops return what the bytes say, cut to the width of the result, and fail after five or ten bytes |
| Coding.LengthPrefixedRoundTrip | flutter_blog_app/ios/Pods/leveldb-library/util/coding.cc:98-101 | a length-prefixed slice reads back |
| Comparator.EmbedInOrder | flutter_blog_app/ios/Pods/leveldb-library/util/comparator.cc:25-27 | bytewise order is the order of real numbers, which is what user keys are in the tree modules |
| Comparator.BytewiseOrder | flutter_blog_app/ios/Pods/leveldb-library/util/comparator.cc:25-27 | the bytewise order is a strict total order |
| Comparator.FindShortestSeparator | flutter_blog_app/ios/Pods/leveldb-library/util/comparator.cc:29-50 | the start itself, or a string strictly between start and limit that no string from start on below limit is shorter than; it changes exactly where the first byte in which they differ leaves room |
| Comparator.FindShortSuccessor | flutter_blog_app/ios/Pods/leveldb-library/util/comparator.cc:52-63 | the key itself exactly if it is all 0xff bytes, otherwise a string above it that no string at or above the key is shorter than |
| Comparator.InternalBeforeIsLess | flutter_blog_app/ios/Pods/leveldb-library/db/dbformat.cc:51-67 | comparing encoded internal keys is comparing user key ascending, then sequence and type descending |
| Comparator.InternalOrder | flutter_blog_app/ios/Pods/leveldb-library/db/dbformat.cc:51-67 | the order of encoded internal keys is strict and weak |
| Comparator.FindShortestInternalSeparator | flutter_blog_app/ios/Pods/leveldb-library/db/dbformat.cc:69-86 | at or above the start, below the limit, and no longer than the start |
| Comparator.FindShortInternalSuccessor | flutter_blog_app/ios/Pods/leveldb-library/db/dbformat.cc:88-101 | at or above the key and no longer |
| Crc32c.Extend | flutter_blog_app/ios/Pods/leveldb-library/util/crc32c.cc:276-377 | for every initial value, length and alignment the strided loop gives the byte-at-a-time CRC |
| Crc32c.SwathStep | flutter_blog_app/ios/Pods/leveldb-library/util/crc32c.cc:302-347 | pushing a word into each of the four strides is pushing the four words in order |
| Crc32c.RotateStep | flutter_blog_app/ios/Pods/leveldb-library/util/crc32c.cc:349-358 | pushing one word into the first stride and rotating is pushing that word |
| Crc32c.CombinedPeel | flutter_blog_app/ios/Pods/leveldb-library/util/crc32c.cc:360-365 | folding the strides at the end puts them together in order |
| Crc32c.WordStep | flutter_blog_app/ios/Pods/leveldb-library/util/crc32c.cc:286-291 | four byte steps push a whole word |
| Crc32c.ExtendTwice | flutter_blog_app/ios/Pods/leveldb-library/util/crc32c.h:17-23 | extending by a concatenation is extending twice |
| Crc32c.UnmaskMask | flutter_blog_app/ios/Pods/leveldb-library/util/crc32c.h:29-38 | Unmask undoes Mask |
| Crc32c.MaskUnmask | flutter_blog_app/ios/Pods/leveldb-library/util/crc32c.h:29-38 | Mask undoes Unmask, so distinct CRCs stay distinct |
| Crc32c.MaskValues | flutter_blog_app/ios/Pods/leveldb-library/util/crc32c.h:22-32 | three masked values, which fix the rotation and the constant |
| CrcBurst.BurstIsDetected | flutter_blog_app/ios/Pods/leveldb-library/util/crc32c.h:17-23 | two strings that differ only within 32 consecutive bits have different CRCs, for every initial value |
| CrcBurst.BytesAreBits | flutter_blog_app/ios/Pods/leveldb-library/util/crc32c.cc:20-63 | byte by byte through the table is bit by bit through the shift register of the polynomial |
| CrcBurst.TableEntries | flutter_blog_app/ios/Pods/leveldb-library/util/crc32c.cc:20-63 | entries 1 and 128 of the byte table |
| BlockFormat.EntryDecodes | flutter_blog_app/ios/Pods/leveldb-library/table/block.cc:54-74 | an encoded entry gives back its three lengths, with the fast path for small ones |
| BlockBuilders.BlockBuilder.Add | flutter_blog_app/ios/Pods/leveldb-library/table/block_builder.cc:72-106 | the block gains exactly the pair; it shares with the last key the longest prefix they have, except where the last restart point is an interval back: there a new one begins, and it is whole |
| BlockBuilders.BlockBuilder.Finish | flutter_blog_app/ios/Pods/leveldb-library/table/block_builder.cc:62-70 | the buffer followed by the restart array and its length |
| BlockBuilders.BlockBuilder.Reset | flutter_blog_app/ios/Pods/leveldb-library/table/block_builder.cc:47-54 | an empty block |
| BlockBuilders.EntryOfBytes | flutter_blog_app/ios/Pods/leveldb-library/table/block_builder.cc:62-106 | two entries of a block, and the end of a block, as bytes |
| Block.OpenFinished | flutter_blog_app/ios/Pods/leveldb-library/table/block.cc:24-39 | opening a finished block finds the entries and the restart points the builder wrote |
| Block.Iter.ParseNextKey | flutter_blog_app/ios/Pods/leveldb-library/table/block.cc:224-251 | the next entry, its key rebuilt from the shared prefix, or invalid at the end |
| Block.Iter.SeekToFirst | flutter_blog_app/ios/Pods/leveldb-library/table/block.cc:203-206 | entry 0 |
| Block.Iter.SeekToLast | flutter_blog_app/ios/Pods/leveldb-library/table/block.cc:208-213 | the last entry |
| Block.Iter.Next | flutter_blog_app/ios/Pods/leveldb-library/table/block.cc:137-140 | from entry i to entry i + 1 or past the end |
| Block.Iter.Prev | flutter_blog_app/ios/Pods/leveldb-library/table/block.cc:142-161 | from entry i to entry i - 1, invalid at i = 0 |
| Block.Iter.Seek | flutter_blog_app/ios/Pods/leveldb-library/table/block.cc:163-201 | the first entry at or above the target, or invalid when there is none |
| Block.ReadForward | flutter_blog_app/ios/Pods/leveldb-library/table/block.cc:137-206 | a forward scan yields exactly the entries |
| Block.ReadBackward | flutter_blog_app/ios/Pods/leveldb-library/table/block.cc:142-213 | a backward scan yields exactly the entries, last first |
| Block.BuildAndRead | flutter_blog_app/ios/Pods/leveldb-library/table/block_builder.cc:62-106 | for every list of pairs and every restart interval a scan of the finished block yields exactly the pairs added |
| Bloom.AddKey | flutter_blog_app/ios/Pods/leveldb-library/util/bloom.cc:41-51 | sets exactly the bits that one key probes |
| Bloom.CreateFilter | flutter_blog_app/ios/Pods/leveldb-library/util/bloom.cc:28-54 | a bit is set exactly if some key probes it; the number of probes is the last byte |
| Bloom.KeyMayMatch | flutter_blog_app/ios/Pods/leveldb-library/util/bloom.cc:56-80 | the probing loop says yes exactly if all probed bits are set, or the filter is of a kind it does not know |
| Bloom.NoFalseNegatives | flutter_blog_app/ios/Pods/leveldb-library/util/bloom.cc:56-80 | a filter matches every key it was made from |
| Bloom.FilterSize | flutter_blog_app/ios/Pods/leveldb-library/util/bloom.cc:28-40 | a filter has the bits asked for and at least 64, rounded up to whole bytes |
| Bloom.ProbesAreSpaced | flutter_blog_app/ios/Pods/leveldb-library/util/bloom.cc:42-51 | the probes of a key are its hash and equal steps from it, modulo 2^32 |
| Bloom.BitPlaces | flutter_blog_app/ios/Pods/leveldb-library/util/bloom.cc:42-51 | the step is the hash rotated right by 17 bits; bits of a byte count from the lowest |
| FilterBlock.FilterBlockBuilder.AddKey | flutter_blog_app/ios/Pods/leveldb-library/table/filter_block.cc:29-33 | the key joins those of the current data block |
| FilterBlock.FilterBlockBuilder.StartBlock | flutter_blog_app/ios/Pods/leveldb-library/table/filter_block.cc:21-27 | generates filters up to the one for the offset |
| FilterBlock.FilterBlockBuilder.GenerateFilter | flutter_blog_app/ios/Pods/leveldb-library/table/filter_block.cc:51-75 | one more filter, for the keys since the last |
| FilterBlock.FilterBlockBuilder.Finish | flutter_blog_app/ios/Pods/leveldb-library/table/filter_block.cc:35-49 | no key that was added can fail to match at the offset of its block |
| FilterBlock.FinishedLookup | flutter_blog_app/ios/Pods/leveldb-library/table/filter_block.cc:77-104 | looking up a block offset consults the filter made for it |
| FilterBlock.EmptyFilterBytes | flutter_blog_app/ios/Pods/leveldb-library/table/filter_block.cc:35-49 | a finished block with no filter and one with one, as bytes |
| TableFormat.HandleRoundTrip | flutter_blog_app/ios/Pods/leveldb-library/table/format.cc:15-29 | a block handle reads back |
| TableFormat.BlockReads | flutter_blog_app/ios/Pods/leveldb-library/table/format.cc:64-110 | a block that was written reads back, with or without checking its checksum, whatever is appended later |
| TableFormat.DamagedBlockIsRefused | flutter_blog_app/ios/Pods/leveldb-library/table/format.cc:83-95 | with verification a block whose contents or type were damaged within 32 consecutive bits does not read |
| TableFormat.HandleOfBytes | flutter_blog_app/ios/Pods/leveldb-library/table/format.cc:15-20 | a block handle as bytes |
| TableBuilders.TableBuilder.Append | flutter_blog_app/ios/Pods/leveldb-library/table/table_builder.cc:94-117 | the entry joins the open block, after the index entry of the block before it |
| TableBuilders.TableBuilder.Add | flutter_blog_app/ios/Pods/leveldb-library/table/table_builder.cc:94-123 | the table gains exactly the entry, and the open block is flushed exactly when its estimated size reaches the block size |
| TableBuilders.TableBuilder.Flush | flutter_blog_app/ios/Pods/leveldb-library/table/table_builder.cc:125-139 | the open block becomes the next block of the file; no entry changes |
| TableBuilders.TableBuilder.WriteRaw | flutter_blog_app/ios/Pods/leveldb-library/table/table_builder.cc:177-194 | contents, type and checksum are appended; what is stored stays |
| TableBuilders.NewSeparator | flutter_blog_app/ios/Pods/leveldb-library/table/table_builder.cc:102-109 | the index entry of a block lies at or above its last key and below the first of the next, and never shares a user key with a later block unless it is that last key |
| TableBuilders.SeparatorsAfter | flutter_blog_app/ios/Pods/leveldb-library/table/table_builder.cc:102-117 | the index entries keep separating the blocks as keys are added |
| TableBuilders.TableBuilder.Finish | flutter_blog_app/ios/Pods/leveldb-library/table/table_builder.cc:198-253 | the table is well formed and holds exactly the entries added, and the filter misses none of them |
| TableBuilders.BuildAndGet | flutter_blog_app/ios/Pods/leveldb-library/table/table.cc:216-244 | build a table from any ascending entries, with or without filter, and look any key up: the answer is the first entry at or after it, always given when it has the key's user key |
| Tables.FoundIsFirst | flutter_blog_app/ios/Pods/leveldb-library/table/table.cc:216-244 | the entry found through index and block is the first of the table at or after the key |
| Tables.NothingLater | flutter_blog_app/ios/Pods/leveldb-library/table/table.cc:216-244 | with nothing at or after the key in its block, no later block has its user key |
| Tables.NothingAnswers | flutter_blog_app/ios/Pods/leveldb-library/table/table.cc:216-244 | reporting nothing is right when the index, the filter or the block says so |
| Tables.InternalGet | flutter_blog_app/ios/Pods/leveldb-library/table/table.cc:216-244 | reports the first entry at or after the key whenever that entry has the key's user key, filter or not |
| VersionEdits.EncodeTo | flutter_blog_app/ios/Pods/leveldb-library/db/version_edit.cc:41-85 | writes the fields of an edit |
| VersionEdits.DecodeFrom | flutter_blog_app/ios/Pods/leveldb-library/db/version_edit.cc:107-205 | reads the fields of any input, or refuses it |
| VersionEdits.FieldBack | flutter_blog_app/ios/Pods/leveldb-library/db/version_edit.cc:107-205 | a field reads back and leaves what follows it |
| VersionEdits.EditRoundTrip | flutter_blog_app/ios/Pods/leveldb-library/db/version_edit.cc:41-205 | decoding an encoded edit gives it back |
| VersionEdits.CutEditIsRefused | flutter_blog_app/ios/Pods/leveldb-library/db/version_edit.cc:107-205 | whole fields followed by a part of one, cut off anywhere, do not decode |
| VersionEdits.UnknownFieldIsRefused | flutter_blog_app/ios/Pods/leveldb-library/db/version_edit.cc:107-205 | nor does an edit with a tag that is not known or a level there is not |
| VersionEdits.FieldBytes | flutter_blog_app/ios/Pods/leveldb-library/db/version_edit.cc:41-85 | fields of seven kinds as bytes |
| VersionEdits.NewFileBytes | flutter_blog_app/ios/Pods/leveldb-library/db/version_edit.cc:76-84 | a new-file field as bytes |
| Manifest.ApplyRecords | flutter_blog_app/ios/Pods/leveldb-library/db/version_set.cc:926-969 | the loop applies every decoded record of the manifest to one builder and keeps the last counters |
| Manifest.Recover | flutter_blog_app/ios/Pods/leveldb-library/db/version_set.cc:886-1011 | recovers exactly the version and counters that the records say, or fails |
| Manifest.RefusesExactly | flutter_blog_app/ios/Pods/leveldb-library/db/version_set.cc:926-982 | recovery fails exactly if the log reported something, a record is no edit or names another comparator, or the next file number, the log number or the last sequence is in no record |
| Manifest.CountersAreLatest | flutter_blog_app/ios/Pods/leveldb-library/db/version_set.cc:948-967 | each counter is the one in the last record that has it |
| Manifest.SavedIsLive | flutter_blog_app/ios/Pods/leveldb-library/db/version_set.cc:990-995 | saving once at the end is the version of the live run |
| Manifest.RecoverRebuilds | flutter_blog_app/ios/Pods/leveldb-library/db/version_set.cc:886-1011 | wherever the manifest was cut off, recovery finds the version after the edits that were completely written, with each counter as the last of them that has it says, and fails exactly if one is in none |
| MemTables.RecordReads | flutter_blog_app/ios/Pods/leveldb-library/db/memtable.cc:77-100 | an encoded entry gives back its internal key and its value |
| MemTables.EntryBytes | flutter_blog_app/ios/Pods/leveldb-library/db/memtable.cc:77-100 | a value and a deletion as encoded entries |
| MemTables.RecordOrder | flutter_blog_app/ios/Pods/leveldb-library/db/memtable.cc:28-34 | comparing encoded entries is comparing the internal keys they stand for |
| MemTables.MemTable.Add | flutter_blog_app/ios/Pods/leveldb-library/db/memtable.cc:77-100 | the table gains exactly the entry, in order |
| MemTables.MemTable.Get | flutter_blog_app/ios/Pods/leveldb-library/db/memtable.cc:102-136 | the newest entry of the user key at or below the sequence number decides: its value, a deletion, or nothing if there is none |
| MemTables.FirstKey | flutter_blog_app/ios/Pods/leveldb-library/db/dbformat.cc:121-138 | the first key at or after a lookup key is the newest that the lookup may see |
| WriteBatches.WriteBatch.constructor | flutter_blog_app/ios/Pods/leveldb-library/db/write_batch.cc:35-38 | an empty batch |
| WriteBatches.WriteBatch.HeaderReads | flutter_blog_app/ios/Pods/leveldb-library/db/write_batch.cc:81-95 | the header holds the number of operations and the sequence number |
| WriteBatches.WriteBatch.SetSequence | flutter_blog_app/ios/Pods/leveldb-library/db/write_batch.cc:93-95 | changes the sequence number and nothing else |
| WriteBatches.WriteBatch.SetContents | flutter_blog_app/ios/Pods/leveldb-library/db/write_batch.cc:139-142 | the bytes of a batch make the batch again |
| WriteBatches.WriteBatch.Add | flutter_blog_app/ios/Pods/leveldb-library/db/write_batch.cc:97-108 | Put and Delete append one operation |
| WriteBatches.WriteBatch.Append | flutter_blog_app/ios/Pods/leveldb-library/db/write_batch.cc:143-147 | the operations of the other batch follow, and the count is their sum |
| WriteBatches.ParseRoundTrip | flutter_blog_app/ios/Pods/leveldb-library/db/write_batch.cc:42-79 | the records of a batch parse to its operations |
| WriteBatches.RecordsCut | flutter_blog_app/ios/Pods/leveldb-library/db/write_batch.cc:42-79 | records cut off anywhere: the whole ones are handed over, and the rest of one is refused as a bad put or deletion |
| WriteBatches.OtherTagStops | flutter_blog_app/ios/Pods/leveldb-library/db/write_batch.cc:71-72 | whole records before one of an unknown kind are handed over, and the kind is refused |
| WriteBatches.BatchBytes | flutter_blog_app/ios/Pods/leveldb-library/db/write_batch.cc:81-108 | a batch of a put and a deletion as bytes |
| WriteBatches.WriteBatch.Iterate | flutter_blog_app/ios/Pods/leveldb-library/db/write_batch.cc:42-79 | on any contents, the handler gets the operations before the first bad record, and the status names what is wrong; a well-formed batch is handed over whole |
| WriteBatches.InsertInto | flutter_blog_app/ios/Pods/leveldb-library/db/write_batch.cc:115-136 | every operation enters the memtable once, in order, with consecutive sequence numbers; where all that is there is older, a read at or above the last of them sees the last operation on its key, or what it saw before |
| WriteBatches.BatchSeen | flutter_blog_app/ios/Pods/leveldb-library/db/write_batch.cc:115-136 | a read at or above the last number of a batch sees the last operation on its key, or what it saw before; a read below the first one sees no change |
| WriteBatches.InsertAndGet | flutter_blog_app/ios/Pods/leveldb-library/db/memtable.cc:102-136 | inserting a batch and looking a key up afterwards gives the last operation on it in the batch, or what a lookup before gave |
| PbFields.FieldIter.constructor | flutter_blog_app/ios/Pods/nanopb/pb_common.c:8-18 | starts at the first field |
| PbFields.FieldIter.Next | flutter_blog_app/ios/Pods/nanopb/pb_common.c:20-76 | keeps the slot and the required-field index those of its position, wraps around at the end, and stays inside a union |
| PbFields.FieldIter.Find | flutter_blog_app/ios/Pods/nanopb/pb_common.c:78-95 | finds a field with the tag if there is one, going round at most once, and otherwise comes back to where it was |
| PbFields.SharedSlot | flutter_blog_app/ios/Pods/nanopb/pb_common.c:44-51 | two fields share storage only inside one oneof |
| PbFields.StoreFits | flutter_blog_app/ios/Pods/nanopb/pb_decode.c:401-470 | storing one field leaves the storage of the others valid |
| PbEncode.ZigZag | flutter_blog_app/ios/Pods/nanopb/pb_encode.c:596-605 | the shift and complement give 2n or -2n - 1 |
| PbEncode.OStream.Write | flutter_blog_app/ios/Pods/nanopb/pb_encode.c:101-121 | a sizing stream only counts; a writing stream writes all or, when there is no room, nothing |
| PbEncode.OStream.EncodeVarint | flutter_blog_app/ios/Pods/nanopb/pb_encode.c:574-594 | the groups with their marks are the varint of the number |
| PbEncode.OStream.EncodeSVarint | flutter_blog_app/ios/Pods/nanopb/pb_encode.c:596-605 | the varint of the zig-zag form |
| PbEncode.OStream.EncodeTag | flutter_blog_app/ios/Pods/nanopb/pb_encode.c:635-639 | the varint of eight times the field number plus the code of the wire type |
| PbEncode.OStream.EncodeString | flutter_blog_app/ios/Pods/nanopb/pb_encode.c:674-680 | the length and the bytes |
| PbEncode.OStream.StringLength | flutter_blog_app/ios/Pods/nanopb/pb_encode.c:831-855 | the bytes before the first NUL, or the whole buffer |
| PbEncode.OStream.EncodeDatum | flutter_blog_app/ios/Pods/nanopb/pb_encode.c:734-869 | one item of any kind: succeeds exactly if it can be encoded and fits, and then wrote or counted exactly its bytes |
| PbEncode.OStream.EncodeSubmessage | flutter_blog_app/ios/Pods/nanopb/pb_encode.c:682-730 | the writing pass needs exactly the bytes the sizing pass counted, so "submsg size changed" cannot happen |
| PbEncode.OStream.PackedSize | flutter_blog_app/ios/Pods/nanopb/pb_encode.c:145-165 | the length written before a packed array is the number of bytes its items take |
| PbEncode.OStream.EncodePackedArray | flutter_blog_app/ios/Pods/nanopb/pb_encode.c:139-181 | sizing and writing a packed array produce the same bytes |
| PbEncode.OStream.EncodeTaggedItems | flutter_blog_app/ios/Pods/nanopb/pb_encode.c:182-208 | items each with their tag |
| PbEncode.OStream.EncodeArrayField | flutter_blog_app/ios/Pods/nanopb/pb_encode.c:126-211 | an array of any kind, or an error for a count beyond the array |
| PbEncode.OStream.EncodeBasicField | flutter_blog_app/ios/Pods/nanopb/pb_encode.c:307-391 | a required, optional, singular, repeated or oneof field: written exactly if present |
| PbEncode.OStream.Encode | flutter_blog_app/ios/Pods/nanopb/pb_encode.c:494-516 | the fields in order; success, bytes written and bytes counted are the same for a sizing and a writing stream with room |
| PbEncode.GetEncodedSize | flutter_blog_app/ios/Pods/nanopb/pb_encode.c:533-543 | the number of bytes pb_encode writes |
| PbEncode.EncodeToBuffer | flutter_blog_app/ios/Pods/nanopb/pb_encode.c:84-121 | succeeds exactly when the computed size fits, and never writes beyond the buffer |
| PbWire.IStream.DecodeVarint32Eof | flutter_blog_app/ios/Pods/nanopb/pb_decode.c:182-242 | returns what the bytes say under the overflow and sign-extension rules, for varints of any length |
| PbWire.Varint32RoundTrip | flutter_blog_app/ios/Pods/nanopb/pb_decode.c:182-242 | every number below 2^32 that the encoder writes reads back |
| PbVarint.Varint32Exactly | flutter_blog_app/ios/Pods/nanopb/pb_decode.c:182-242 | of varints of at most ten bytes, accepted are exactly those of up to four bytes, those of five that fit, and longer ones whose groups past the fifth are padding or a sign extension; the result is the low 32 bits of the number |
| PbVarint.SignExtends | flutter_blog_app/ios/Pods/nanopb/pb_decode.c:218-225 | a negative number, extended to 64 bits by the encoder, reads as its 32 bits |
| PbVarint.OverflowSlips | flutter_blog_app/ios/Pods/nanopb/pb_decode.c:218-240 | the number 2^32 with padding after it is not refused: it reads as 0 |
| PbVarint.ReadsTrueExactly | flutter_blog_app/ios/Pods/nanopb/pb_decode.c:182-242 | where a varint of at most ten bytes is accepted, the result is the number that is there, or the negative number it extends, exactly if nothing but padding or a sign extension follows bit 31 |
| PbWire.IStream.DecodeVarint | flutter_blog_app/ios/Pods/nanopb/pb_decode.c:250-270 | at most ten bytes, cut to 64 bits |
| PbWire.Varint64RoundTrip | flutter_blog_app/ios/Pods/nanopb/pb_decode.c:250-270 | every 64-bit number reads back |
| PbWire.IStream.Read | flutter_blog_app/ios/Pods/nanopb/pb_decode.c:100-131 | the next bytes, or failure with nothing consumed |
| PbWire.IStream.SkipField | flutter_blog_app/ios/Pods/nanopb/pb_decode.c:316-326 | skips exactly one value of the wire type, or fails |
| PbWire.IStream.MakeStringSubstream | flutter_blog_app/ios/Pods/nanopb/pb_decode.c:367-380 | the substream has exactly the delimited bytes; the parent gives them up at once |
| PbWire.IStream.CloseStringSubstream | flutter_blog_app/ios/Pods/nanopb/pb_decode.c:382-395 | puts the parent after the substream, whatever was left of it |
| PbWire.DelimitedRoundTrip | flutter_blog_app/ios/Pods/nanopb/pb_decode.c:367-395 | a length-prefixed string of less than 2^32 bytes is delimited as it was |
| PbRequired.SetsBit | flutter_blog_app/ios/Pods/nanopb/pb_decode.c:988-993 | or-ing one bit into a word adds that element |
| PbRequired.LowBits | flutter_blog_app/ios/Pods/nanopb/pb_decode.c:1029-1044 | the word equals the low mask exactly when all those elements are in it |
| PbRequired.See | flutter_blog_app/ios/Pods/nanopb/pb_decode.c:988-993 | marks one required field in the two words |
| PbRequired.AllSeen | flutter_blog_app/ios/Pods/nanopb/pb_decode.c:1024-1045 | passes exactly when every required field up to the count was marked |
| PbDecode.StoreSigned | flutter_blog_app/ios/Pods/nanopb/pb_decode.c:1289-1324 | stores the number, or refuses exactly those that do not fit the field |
| PbDecode.StoreVarint | flutter_blog_app/ios/Pods/nanopb/pb_decode.c:1289-1372 | what a varint stores in a field of each integer kind fits the field |
| PbDecoder.SetFieldToDefault | flutter_blog_app/ios/Pods/nanopb/pb_decode.c:812-882 | the default of a field, recursively |
| PbDecoder.SetMessageToDefaults | flutter_blog_app/ios/Pods/nanopb/pb_decode.c:884-895 | the defaults of a message |
| PbView.MessageDefaultsAreFresh | flutter_blog_app/ios/Pods/nanopb/pb_decode.c:884-895 | after it every required, optional and singular field has its default value or zero, no optional field is present, arrays and unions are empty, nested messages likewise |
| PbDecoder.DecodeDatum | flutter_blog_app/ios/Pods/nanopb/pb_decode.c:1289-1508 | one item of any kind |
| PbDecoder.DecodeSubmessage | flutter_blog_app/ios/Pods/nanopb/pb_decode.c:1463-1485 | a nested message from its substream; array entries start from defaults |
| PbDecoder.DecodePackedArray | flutter_blog_app/ios/Pods/nanopb/pb_decode.c:419-448 | the items of a packed array, or "array overflow" |
| PbDecoder.DecodeStaticField | flutter_blog_app/ios/Pods/nanopb/pb_decode.c:401-470 | a field of each rule |
| PbDecoder.ReleaseUnionField | flutter_blog_app/ios/Pods/nanopb/pb_decode.c:1104-1128 | refuses a union whose old tag no field has, and leaves the iterator where it was |
| PbDecoder.DecodeTag | flutter_blog_app/ios/Pods/nanopb/pb_decode.c:293-314 | field number and wire type; a zero ends the message |
| PbDecoder.CountRequired | flutter_blog_app/ios/Pods/nanopb/pb_decode.c:1012-1022 | the number of required fields, from wherever the iterator stands |
| PbDecoder.DecodeNoInit | flutter_blog_app/ios/Pods/nanopb/pb_decode.c:901-1049 | the loop over the fields with the required-field check computes what the fields of the input say |
| PbDecoder.Decode | flutter_blog_app/ios/Pods/nanopb/pb_decode.c:1051-1063 | the same from defaults |
| PbRoundTrip.ItemReads | flutter_blog_app/ios/Pods/nanopb/pb_decode.c:1289-1508 | an encoded item of any kind decodes to one that says the same; it fails exactly for an unterminated string |
| PbRoundTrip.RoundTrip | flutter_blog_app/ios/Pods/nanopb/pb_decode.c:901-1063 | for every well-formed descriptor tree and valid message, decoding the encoding over any structure succeeds exactly when the strings present are terminated, and then says the same in every field |
| PbRoundTrip.UnterminatedIsRefused | flutter_blog_app/ios/Pods/nanopb/pb_decode.c:1428-1461 | a string that fills its buffer is accepted by the encoder and refused by the decoder |
| PbRoundTrip.UnpackedLikePacked | flutter_blog_app/ios/Pods/nanopb/pb_decode.c:419-459 | the decoder makes the same of an array whether it is packed or not |
| PbForward.ItemSkips | flutter_blog_app/ios/Pods/nanopb/pb_decode.c:316-326 | the wire type that goes with a field skips exactly the bytes of its encoding, for every kind and value |
| PbForward.OtherWireTypes | flutter_blog_app/ios/Pods/nanopb/pb_decode.c:316-326 | a field of any other wire type is refused |
| PbForward.LackingFieldIsSkipped | flutter_blog_app/ios/Pods/nanopb/pb_decode.c:901-1063 | a decoder whose descriptor lacks a field reads a message that has it: it succeeds exactly when the strings of the other fields are terminated, and says the same in all of them |
| PbForward.LengthDecides | flutter_blog_app/ios/Pods/nanopb/pb_decode.c:1391-1508 | bytes and strings of any length, from another version of the message: which of them a field takes |
| PbForward.OverfullIsRefused | flutter_blog_app/ios/Pods/nanopb/pb_decode.c:419-447 | a packed array with more items than there is room for is refused |
| PbForward.FieldBytes | flutter_blog_app/ios/Pods/nanopb/pb_encode.c:635-672 | one field of each wire type as bytes: field 1 with 150 is 08 96 01 |
| PbForward.MoreFieldBytes | flutter_blog_app/ios/Pods/nanopb/pb_encode.c:549-605 | a negative int32, a sint32 and bytes as bytes |
| PbForward.ArrayBytes | flutter_blog_app/ios/Pods/nanopb/pb_encode.c:126-208 | the items of an array as bytes, packed and one by one |
| PbForward.DefaultsAreAbsent | flutter_blog_app/ios/Pods/nanopb/pb_encode.c:215-303 | a proto3 number 0 and an empty string are not written |
| PbDefaults.AbsentIsDefault | flutter_blog_app/ios/Pods/nanopb/pb_decode.c:812-1063 | on any input that is accepted, an optional field that has_ says is absent holds its default value, in the message and in every message inside it |
| PbRoundTrip.TaggedReads | flutter_blog_app/ios/Pods/nanopb/pb_decode.c:449-459 | items with a tag each are appended one by one |
| PbRoundTrip.RequiredWereMet | flutter_blog_app/ios/Pods/nanopb/pb_decode.c:1006-1046 | on any input, a decode that succeeds has met every required field among the first 64 |
| PbView.DefaultByView | flutter_blog_app/ios/Pods/nanopb/pb_encode.c:215-303 | items that say the same are zero together, so the proto3 presence test depends on what is said |

## Left out

LevelDB:

- I/O errors: writes, syncs and reads succeed until a crash; background errors, `paranoid_checks` and best-effort repair are not modelled.
- A memtable flush inside a running compaction: flush and compaction are separate atomic steps.
- Compaction scores, seek sampling, write slowdown, statistics and the points where output files are cut: left open, so the results hold for every choice.
- User keys are real numbers in the tree, queue, iterator and durability modules: any comparator order on countably many keys embeds there, and `Comparator.EmbedInOrder` proves it for the bytewise order.
- Database.RunReadsHistory: for runs whose compactions take inputs closed to tombstones: the code does not guarantee it, see `Tombstones.SplitTombstoneComesBack`.
- Durability.StepKeeps: a compaction is asked to keep reads from its snapshot on, which by `DurableTree.CompactionIsDurable` holds of inputs closed to tombstones; files appear and are renamed atomically; opening takes recovery by its effect, which is what `Recovery.RecoveryOpens` shows of the replay.
- Durability.RunIsDurable: the same; a torn log or manifest record is simply not there, and that recovery sees it so is `LogReader.TruncatedLogReads` and `Manifest.RecoverRebuilds`.
- Durability.AcknowledgedSurvives: reads of a set of entries; `Recovery.GetAfterReopen` is the same promise for a lookup in the reopened version.
- Durability.CrashLosesNothing: the same as for the run; a crash that loses the middle of an unsynced log but not its end is not modelled.
- Recovery.RecoverLogFile: for logs that are a prefix of what was written, so the branch for records shorter than a batch header is shown not to be taken; `reuse_logs` and `prev_log_number` are left out.
- Recovery.RecoveryOpens: batches are numbered one after the other across the logs that are read, as the writer queue numbers them.
- VersionBuilder.LogAndApply: the manifest write, the file and sequence counters and the compaction scores of the function around it.
- Manifest.Recover: the CURRENT file and `MarkFileNumberUsed`; `WriteSnapshot`, which begins a new manifest, and reuse of manifests.
- LogReader.Reader.ReadRecord: a non-zero initial offset and the resynchronisation after it.
- LogReader.Reader.ReadPhysicalRecord: the branch for a non-zero initial offset; a type byte of 128 or more, which only a corrupt file has, is read without sign.
- Corrupt blocks and corrupt internal keys: iterators over them stop with an error that is not modelled; the branches for them are shown not to be taken on what the builders write.
- BlockBuilders.BlockBuilder.Add: a block whose size would reach 4 GiB, the limit of its 32-bit offsets, which the code does not check.
- Block.BuildAndRead: the same limit, as a bound on the pairs.
- TableBuilders.TableBuilder.Append: the same limit, for data and index blocks.
- TableBuilders.TableBuilder.Add: the same.
- TableBuilders.TableBuilder.Flush: the same, and files from 4 EiB on.
- TableBuilders.BuildAndGet: the same limits, as a bound on the weight of the entries.
- FilterBlock.FilterBlockBuilder.StartBlock: filters whose size would reach 4 GiB.
- FilterBlock.FilterBlockBuilder.GenerateFilter: the same.
- FilterBlock.FilterBlockBuilder.Finish: the same.
- TableBuilders.TableBuilder.Finish: the metaindex block and the footer, which only locate filter and index.
- Snappy compression, the block cache of `Table::BlockReader`, and mmap.
- Bloom: the hash function and the number of probes (which the code computes in floating point) are parameters.
- CRC tables are their generating rule instead of 1,280 literals; hardware CRC is not modelled.
- Cache.LRUCache: the destructor and the sharded front; a handle's key and value are plain data and its deleter is an event.
- HandleTables.HandleTable.constructor: the table starts as its first resize leaves it.
- SkipList: nodes are named by their keys, atomic loads and stores are sequentially consistent, heights are arbitrary.
- Versions.VersionGet: the table cache is a lookup in the file's entries; seek statistics are left out.
- WriteBatches.InsertInto: the handler's calls are collected before they are made; a count is below 2^31, as the `int` it is; that no key of the batch is in the memtable yet is what `MemTable::Add` asks.
- Write options other than `sync`, iterator read sampling, `GetApproximateSizes` and properties.
- C binding, `env_posix.cc`, loggers, file names and locks, dump and repair tools: no algorithm of interest, or outside the process.

nanopb:

- Pointer fields, callbacks, extensions and fixed-count arrays, and the byte layout of structures: fields are addressed by their place in the descriptor, a structure is a value that is passed in and handed back.
- PbEncode.OStream.Encode: sizes are unbounded integers; the code computes them in `size_t`.
- PbRoundTrip.RoundTrip: asks for an encoding below 4 GiB, because the decoder reads lengths as 32-bit numbers, and for valid structures (unions that are empty or hold one of their fields, counts within their arrays).
- PbDecode.UnionBefore: what another field of a oneof left in the bytes behind a decoded string is taken to be zeros.
- PbWire.IStream: streams over a buffer only; a callback stream would add I/O errors.
- PbWire.IStream.DecodeVarint32Eof: `uint_fast8_t` has eight bits, as on the platforms this application is built for.

The Flutter, Firebase and Swift code has no algorithm and is not modelled.
