# LadyBook: a verified model of its vendored storage and codec code

This project models the hard parts of the libraries in `LadyBook/Pods` and proves what they are for. It is
written for Dafny 4.11; `dafny verify dfyconfig.toml` checks the whole of it. The original code is read, not
run.

## What is modelled

**LevelDB.** A database is a set of versions, each a user key, a sequence number, a kind and a value
(`Entries`). What a reader at sequence number s should find is the newest version of the key at or below
s. All theorems about the engine come back to this one definition, over an arbitrary user comparator
that is a total order.

- `Compaction` is the loop that throws entries away, as a method over merged input and as a drop rule;
  the rule is proved to be invisible to every read it must preserve, with the exact condition under
  which it is not.
- `Versions` is the layered search (memtables, level 0, deeper levels) and the order that makes it right;
  `LevelSearch` is `Version::Get` over files, with one binary search a level, proved to find the same.
- `LevelRuns` follows the files of each level through flushes, compactions and moves: when a level stays one
  sorted run, as that binary search needs, and when it does not.
- `Store` is the engine in memory as a transition system. A step is one section under the mutex or one
  unlocked section of a write, a read, a memtable switch, a flush or a compaction; any number of
  readers, snapshots and background steps interleave.
- `Engine` adds logs, table files, the manifest, deletion of obsolete files, and crashes at any point,
  in the middle of every one of these. `Picking` is how compactions choose their files.
- `DbIter` is the bidirectional iterator, refined to a cursor over a plain sorted list.
- `DbFormat`, `Coding`, `MemTable`, `SnapshotList`, `WriteBatch` are the encodings and containers below;
  `LogFormat`, `LogWriter`, `LogReader`, `LogRoundTrip` and `Recovery` take the write-ahead log from
  bytes to recovered entries; `LogReuse` is about a cut-off log that is continued; `WriteQueue` is group commit
  over all interleavings of writers, and `Background` the scheduling of background work.

**nanopb.** `PbMessage` says what encoding and decoding a message under a descriptor mean, `PbRoundTrip`
proves that they are inverse, `PbVarint` has the byte loops, and `PbStreams` and `PbDecoder` the
in-place encoder and decoder, each method tied to the specification.

**Nuke and XLPagerTabStrip.** `DataCache` (staged disk cache), `LinkedList` and `LruCache`,
`RateLimiter`, `Resumable` (interrupted downloads), and `CellWidths` (stretching tab widths).

Classes follow the source's objects and their fields; ghost fields only record history. `lt` is the user
comparator, `crc` an arbitrary function from bytes to 32-bit words, time a non-decreasing real. File
operations, size rules and clock readings are parameters, so the theorems hold for all of their outcomes.

## What was found

Properties that the code does not have everywhere. Each comes with the exact condition under which it does
have it, and, where the condition alone does not show it, with an input on which it fails.

- **Manual compactions and flushes** (version_set.cc:1464-1497, db_impl.cc:907-917). Files that overlap a range
  asked for may leave gaps between them. A memtable flushed into such a gap while they are being compacted can
  go straight to the output level, where an output then spans it: the level is no sorted run any more, the
  builder's assertion fails, and without assertions `Version::Get` misses the key (`GapIsRun`,
  `GapLosesKey`). Exactly flushes into a gap are dangerous (`FlushSafeIff`); inputs that `PickCompaction`
  chooses leave no gap, so without manual compactions every level stays sorted in every run
  (`AutomaticRunKeeps`).
- **Lower-level boundary files** (version_set.cc:1403-1462). `SetupOtherInputs` chases files that
  continue the last user key on the upper level only. A deletion marker among the lower-level inputs can then
  be compacted away while the value it hides stays behind on the lower level, and a deleted value can be read
  again. Over everything the picker can choose, no read changes if and only if no droppable marker is the newest
  input version of a key that has an older value left behind and nothing above (`ChoiceReadsIff`); when files
  end between user keys this never happens (`BoundaryFreeIsSafe`). `SnapshotKeepsBoth`, `PickerSplitsKey` and
  `BoundaryResurrects` walk through a run in which it does. `Store` and `Engine` start compactions only on
  inputs whose markers hide nothing of the other tables; memtables do not count there, because a crash may
  lose what they hold.
- **Corrupt keys in a compaction** (db_impl.cc:931-935). A key that does not parse resets the loop's
  memory of the current user key; a deletion marker before it can be dropped while an older value after
  it survives (`CompactionPreservesReadsIff`, `ResurrectionVisible`). At a snapshot equal to
  kMaxSequenceNumber everything would be dropped (`MaximalSnapshotKeepsNothing`).
- **Reused logs** (db_impl.cc:457-480). With `reuse_logs` the writer continues a log after a cut-off
  record, whose header then swallows what follows; a later recovery loses it
  (`ReusedCutLogLosesRecords`). Reading gives the whole records and then everything appended, with nothing
  reported, if and only if the cut is at the end of a record or inside the filling of a block
  (`ReusedLogReadsIff`, for every log, every cut and everything appended, provided that the checksum tells the
  bytes that now follow the torn header from those it was made for). `Engine` has the option off, as it is
  by default.
- **Reverse iteration** (db_iter.cc:44). The comment says that `iter_` stands just before all entries of
  the current key. In fact entries of other keys may lie in between, all newer than the iterator's
  sequence number (`RestsEarlier`); it stands just before them if and only if the entry before them is not
  newer (`JustBeforeIff`). The iterator works all the same, and the model follows the code.
- **`flush(for:)`** (DataCache.swift:247-253). Flushing one added key while a `removeAll` is staged drops the key
  from the staging area: readers no longer see it. Before the call that can be told exactly (`FlushFor`); after
  it, the next flush deletes the file (`FlushForDeletes`), and `RemoveAllThenStore` is such a run.
- **32-bit varints** (pb_decode.c:187-247). In a varint of more than five bytes the fifth byte's high
  value bits are ignored (`OversizeAccepted`). What both decoders accept stands for the 64-bit value, zero- or
  sign-extended, if and only if the bits beyond the thirty-second are all padding or all sign
  (`NothingLostIff`). The 32-bit decoder also takes varints of more than ten bytes, and just these are refused by
  the 64-bit one (`DecodersAgree`); up to 37 bytes its result is the one expected (`Decode32Is`), after that its
  8-bit position wraps round and padding is followed by value bits again (`PositionWraps`).
- **Slices of 4 GiB** (write_batch.cc:98-109). Lengths are truncated to 32 bits, so a batch parses back to what
  was put into it if and only if all its keys and values are shorter (`ParseOpsRoundTripIff`).

## Model

| member | source | states |
|---|---|---|
| `Compaction.CompactionPreservesReadsIff` | LadyBook/Pods/leveldb-library/db/db_impl.cc:929-963 | For every input, snapshot below the maximum and base-level oracle: every read at or above the snapshot, over all upper and deeper data, is the same before and after the drop rules exactly when no corrupt key separates a droppable deletion marker from an older value of its key |
| `Compaction.CompactionPreservesReads` | LadyBook/Pods/leveldb-library/db/db_impl.cc:890-999 | With only well-formed keys, every read at or above smallest_snapshot is preserved, whatever lies above and below |
| `Compaction.NewestSurvives` | LadyBook/Pods/leveldb-library/db/db_impl.cc:946-960 | The newest version at the snapshot is dropped if and only if it is a deletion marker at its base level |
| `Compaction.RecentSurvives` | LadyBook/Pods/leveldb-library/db/db_impl.cc:946-960 | No version above the snapshot is ever dropped |
| `Compaction.ResurrectionVisible` | LadyBook/Pods/leveldb-library/db/db_impl.cc:931-935 | The failing family: a corrupt key between marker and value turns a read of "absent" into a read of a value |
| `Compaction.MergedReadsIff` | LadyBook/Pods/leveldb-library/db/db_impl.cc:929-963 | With well-formed keys and any base-level oracle, reads beside given other data are the same before and after exactly when no droppable marker of the input hides an older value of the other data |
| `Compaction.MaximalSnapshotKeepsNothing` | LadyBook/Pods/leveldb-library/db/db_impl.cc:903-948 | At a snapshot of kMaxSequenceNumber the initial last_sequence_for_key already counts as hidden and nothing survives |
| `Compaction.Compaction.IsBaseLevelForKey` | LadyBook/Pods/leveldb-library/db/version_set.cc:1533-1552 | For keys asked in ascending order the pointer walk answers whether any file two or more levels down can hold the key, although it never moves back |
| `Compaction.Compaction.JudgeEntry` | LadyBook/Pods/leveldb-library/db/db_impl.cc:931-963 | One turn of the loop decides exactly the drop rule over the whole input, and carries the state the next turn needs |
| `Compaction.Compaction.DoCompactionWork` | LadyBook/Pods/leveldb-library/db/db_impl.cc:899-1013 | If it succeeds, the outputs together hold exactly the surviving entries in order, none of them empty, whatever the size rules; it succeeds when no file operation, no iterator and no shutdown comes in between, and fails on a shutdown or on an iterator that ended with an error |
| `Compaction.Compaction.FinishCompactionOutputFile` | LadyBook/Pods/leveldb-library/db/db_impl.cc:811-858 | A finished output moves the builder whole to the outputs; the call succeeds exactly when the input iterator is fine and finishing, syncing, closing and reopening the file all succeed |
| `Versions.ReadLayered` | LadyBook/Pods/leveldb-library/db/version_set.cc:326-421 | Asking newer data first and older data only when nothing visible was found is reading the union |
| `Versions.GetIsVisible` | LadyBook/Pods/leveldb-library/db/version_set.cc:282-421 | Level 0 newest file first, then level by level, finds exactly what the union of all tables holds |
| `Versions.FlushKeepsOrder` | LadyBook/Pods/leveldb-library/db/db_impl.cc:491-533 | Adding the table of a memtable newer than everything flushed, at a level where it fits, keeps the search order sound |
| `Versions.MergeKeepsOrder` | LadyBook/Pods/leveldb-library/db/db_impl.cc:860-876 | Replacing closed inputs by outputs one level down keeps the search order sound and changes no other data |
| `Store.StepKeeps` | LadyBook/Pods/leveldb-library/db/db_impl.cc:1100-1370 | Every enabled step of the in-memory machine (write, insert, switch, flush, compact, move, snapshot, read) keeps the invariant |
| `Store.RunInv` | LadyBook/Pods/leveldb-library/db/db_impl.cc:1100-1370 | The invariant holds in every state of every run |
| `Store.MergeReads` | LadyBook/Pods/leveldb-library/db/db_impl.cc:929-999 | A finished compaction of closed inputs whose markers hide nothing of the other tables changes no read at or above its smallest snapshot over the whole version |
| `Store.ReaderFinds` | LadyBook/Pods/leveldb-library/db/db_impl.cc:1100-1145 | memtable, then immutable memtable, then version: the answer is the newest version at or below the captured sequence number in everything ever written |
| `Store.VisiblePrefix` | LadyBook/Pods/leveldb-library/db/db_impl.cc:1206-1243 | At a published sequence number exactly a prefix of the write groups is visible, whole |
| `Store.StableAtomicReads` | LadyBook/Pods/leveldb-library/db/db_impl.cc:1100-1145 | In every run a Get that released the mutex earlier answers from one prefix of the completed groups, never from part of a group |
| `Store.ReadsNeverChange` | LadyBook/Pods/leveldb-library/db/db_impl.cc:1100-1145 | No step of any other thread changes what a running Get returns |
| `Store.CompactionsForgetNothingVisible` | LadyBook/Pods/leveldb-library/db/db_impl.cc:890-894 | In every run the data still held reads like everything ever written, at LastSequence and at every live snapshot; no live or later snapshot is below what compactions may have forgotten |
| `Engine.EventKeeps` | LadyBook/Pods/leveldb-library/db/db_impl.cc:497-563 | Every event on files (log append, log switch, table write, manifest write, install, deletion, failure, crash) keeps the invariant |
| `Engine.RunKeeps` | LadyBook/Pods/leveldb-library/db/db_impl.cc:314-366 | The invariant holds in every state of every run, crashes included |
| `Engine.RecoveryIsPrefix` | LadyBook/Pods/leveldb-library/db/db_impl.cc:314-366 | At any point of any run, with the newest log cut after any of its records, the database reopens to exactly the groups of a prefix of the log, all completed groups included when nothing was cut; every key reads as in that prefix and LastSequence covers every recovered sequence number |
| `Engine.RecoveryPossible` | LadyBook/Pods/leveldb-library/db/db_impl.cc:1474-1515 | Recovery is never stuck: for every cut there are tables and a LastSequence with which it goes through |
| `Engine.CrashKeeps` | LadyBook/Pods/leveldb-library/db/db_impl.cc:314-366 | A crash at any point reopens to a state that satisfies the whole invariant again |
| `Engine.RecoveredBatches` | LadyBook/Pods/leveldb-library/db/db_impl.cc:340-363 | Replaying every log at or above the installed log number yields exactly the batches logged since the manifest, less what was cut |
| `Engine.ReplayIsLogged` | LadyBook/Pods/leveldb-library/db/db_impl.cc:340-363 | Replaying consecutive logs gives back their batches in order |
| `Engine.MemtablesAreLogged` | LadyBook/Pods/leveldb-library/db/db_impl.cc:541-563 | In every run every entry that is only in memory lies in a log still on disk, numbered at or above the installed log number |
| `Engine.NeededTablesExist` | LadyBook/Pods/leveldb-library/db/db_impl.cc:223-278 | In every run every table of the current version, of a version some reader holds, of the manifest, and every input and finished output of the running compaction is on disk with its contents |
| `Engine.NeverBlocked` | LadyBook/Pods/leveldb-library/db/version_set.cc:801-884 | Installing an edit after the manifest write, and committing a finished flush or compaction, is always possible: imm_ and its log number cannot have changed meanwhile |
| `Picking.FindFile` | LadyBook/Pods/leveldb-library/db/version_set.cc:88-106 | Binary search: everything before the result is before the target, the result itself is not |
| `Picking.OneFileDecides` | LadyBook/Pods/leveldb-library/db/version_set.cc:304-322 | Below level 0 the one file the search ends on decides what the whole level holds for a key |
| `Picking.PickLevelForMemTableOutput` | LadyBook/Pods/leveldb-library/db/version_set.cc:491-517 | The level chosen is overlapped by no file at or above it, and it is the deepest unless a size rule or an overlap stops it |
| `Picking.PickedLevelFits` | LadyBook/Pods/leveldb-library/db/version_set.cc:491-517 | So flushing to that level is sound: no key of the memtable is found at or above it |
| `Picking.GetOverlappingInputs` | LadyBook/Pods/leveldb-library/db/version_set.cc:519-559 | Exactly the files overlapping the final range; on level 0 the range is widened until every one of them lies within it, without ever passing a gap between files, and the restarts terminate |
| `Picking.FindLargestKey` | LadyBook/Pods/leveldb-library/db/version_set.cc:1326-1341 | The largest internal key of some files, or nothing for no files |
| `Picking.FindSmallestBoundaryFile` | LadyBook/Pods/leveldb-library/db/version_set.cc:1345-1363 | The first file that continues the last user key, if there is one |
| `Picking.AddBoundaryInputs` | LadyBook/Pods/leveldb-library/db/version_set.cc:1378-1401 | Afterwards no file of the level continues the last user key of the inputs, which stay one stretch of the level and get no gap; terminates |
| `Picking.GetRange` | LadyBook/Pods/leveldb-library/db/version_set.cc:1205-1227 | The exact key range the files span |
| `Picking.SetupOtherInputs` | LadyBook/Pods/leveldb-library/db/version_set.cc:1403-1462 | With or without growing: the upper inputs leave no boundary file, the lower inputs are one stretch and exactly the files that meet the range of the upper ones, nothing left out below shares a key with the upper inputs, and if what was picked has no gap, all inputs together have none |
| `Picking.PickCompaction` | LadyBook/Pods/leveldb-library/db/version_set.cc:1270-1322 | The same for the whole choice, which holds the start file and never has a gap |
| `Picking.PickStart` | LadyBook/Pods/leveldb-library/db/version_set.cc:1281-1294 | The first file that ends after the compaction pointer, wrapping around to the first of all |
| `Picking.CompactRange` | LadyBook/Pods/leveldb-library/db/version_set.cc:1464-1497 | A manual compaction: the overlapping files, all of them on level 0 and otherwise up to a size limit, set up as above; nothing is said about gaps |
| `Picking.UpperLevelSafe` | LadyBook/Pods/leveldb-library/db/version_set.cc:1366-1377 | On the upper level the choice always leaves out only newer versions, as the comment there demands |
| `Picking.LeavesNewerIff` | LadyBook/Pods/leveldb-library/db/version_set.cc:1366-1377 | A stretch of a sorted level leaves out only newer versions exactly when no file continues its last user key |
| `Picking.ChoiceReadsIff` | LadyBook/Pods/leveldb-library/db/version_set.cc:1403-1462 | Over everything the picker can choose, whatever the memtables hold: all reads at or above the snapshot are the same after the compaction exactly when no droppable marker among the inputs, newest of its key there and with nothing above, has an older value left on the lower level |
| `Picking.ChoiceClosed` | LadyBook/Pods/leveldb-library/db/version_set.cc:1403-1462 | At and above its upper level the choice leaves out only newer versions, always |
| `Picking.BoundaryFreeIsSafe` | LadyBook/Pods/leveldb-library/db/version_set.cc:1403-1462 | No read changes when no lower-level file continues the last user key of the lower-level inputs |
| `Picking.BoundaryResurrects` | LadyBook/Pods/leveldb-library/db/version_set.cc:1416-1417 | A concrete family where one does: after the compaction a deleted value can be read again |
| `Picking.PickerSplitsKey` | LadyBook/Pods/leveldb-library/db/version_set.cc:1403-1462 | The picker does make that choice |
| `Picking.SnapshotKeepsBoth` | LadyBook/Pods/leveldb-library/db/db_impl.cc:946-960 | An earlier compaction under a held snapshot does leave such a level behind |
| `Picking.BaseKeysAreBased` | LadyBook/Pods/leveldb-library/db/version_set.cc:1533-1552 | Keys the range test calls base have no version in any deeper table |
| `LevelSearch.Get` | LadyBook/Pods/leveldb-library/db/version_set.cc:326-421 | Level 0 newest file first and then one file a level, by binary search: finds exactly what all tables of the version together hold |
| `LevelSearch.GetLevel0` | LadyBook/Pods/leveldb-library/db/version_set.cc:348-361 | The files whose range holds the key, newest first, decide what level 0 holds |
| `LevelSearch.GetLevel` | LadyBook/Pods/leveldb-library/db/version_set.cc:362-379 | One binary search and at most one table decide what a deeper level holds |
| `LevelSearch.RunWellFormed` | LadyBook/Pods/leveldb-library/db/version_set.cc:695-756 | In every run of flushes, moves and picked compactions the levels are fit for that search |
| `LevelRuns.SaveTo` | LadyBook/Pods/leveldb-library/db/version_set.cc:695-755 | The builder merges added files into the base files in order and drops the deleted ones, no others |
| `LevelRuns.SortedIffApart` | LadyBook/Pods/leveldb-library/db/version_set.cc:724-750 | What it saves is one sorted run exactly when the files lie apart |
| `LevelRuns.SetUpOk` | LadyBook/Pods/leveldb-library/db/version_set.cc:1403-1462 | When a compaction starts, every other file of its output level lies on one side of all its inputs, gaps or not |
| `LevelRuns.FinishSortedIff` | LadyBook/Pods/leveldb-library/db/db_impl.cc:860-876 | Its outputs keep the level one sorted run exactly when no file has come to lie inside one of them |
| `LevelRuns.FlushSafeIff` | LadyBook/Pods/leveldb-library/db/db_impl.cc:907-917 | A flush to the output level of a running compaction is safe, whatever the outputs, exactly when it does not fall between the inputs |
| `LevelRuns.ConnectedNotStraddled` | LadyBook/Pods/leveldb-library/db/version_set.cc:491-517 | Between inputs without a gap there is no room for a memtable that overlaps no file |
| `LevelRuns.StepKeeps` | LadyBook/Pods/leveldb-library/db/version_set.cc:801-884 | Every flush, start, finish, abandonment and move keeps the levels below level 0 sorted runs, unless it flushes between the inputs |
| `LevelRuns.RunKeeps` | LadyBook/Pods/leveldb-library/db/version_set.cc:801-884 | So does every run without such a flush |
| `LevelRuns.AutomaticRunKeeps` | LadyBook/Pods/leveldb-library/db/version_set.cc:1270-1322 | In every run whose compactions leave no gap, as picked ones do, every level below level 0 is one sorted run in every state, whatever is flushed meanwhile |
| `LevelRuns.GapIsRun` | LadyBook/Pods/leveldb-library/db/version_set.cc:1464-1497 | A run with a manual compaction of two files and a flush between them |
| `LevelRuns.GapLosesKey` | LadyBook/Pods/leveldb-library/db/version_set.cc:304-322 | At its end the search for a key ends on a file that does not hold it, although the level does |
| `LevelRuns.StartCompaction` | LadyBook/Pods/leveldb-library/db/db_impl.cc:713-716 | A compaction as picked is such a start, and without a gap |
| `LevelRuns.StartManual` | LadyBook/Pods/leveldb-library/db/version_set.cc:1464-1497 | A manual one is such a start too, but may have gaps |
| `LevelRuns.InstallFlush` | LadyBook/Pods/leveldb-library/db/db_impl.cc:519-531 | Picking a level and saving the version is such a flush |
| `LevelRuns.InstallOutputs` | LadyBook/Pods/leveldb-library/db/db_impl.cc:860-876 | Installing the outputs is such a finish |
| `LevelRuns.FlushStep` | LadyBook/Pods/leveldb-library/db/db_impl.cc:519-531 | A flush adds one table to the version, at a level where it fits |
| `LevelRuns.FinishStep` | LadyBook/Pods/leveldb-library/db/db_impl.cc:860-876 | A finish replaces exactly the inputs by the outputs |
| `DbIter.ViewIsReads` | LadyBook/Pods/leveldb-library/db/db_iter.cc:22-60 | The plain list an iterator is compared with holds exactly what reads at its sequence number find, in strictly ascending key order |
| `DbIter.Replay` | LadyBook/Pods/leveldb-library/db/db_iter.cc:141-299 | For every sequence of Seek, SeekToFirst, SeekToLast, Next and Prev calls, in both directions, while writers go on adding newer entries, what is shown after each call is what a cursor over the plain list shows |
| `DbIter.Apply` | LadyBook/Pods/leveldb-library/db/db_iter.cc:141-299 | One call moves the iterator as it moves the cursor |
| `DbIter.DBIter.Next` | LadyBook/Pods/leveldb-library/db/db_iter.cc:141-166 | From either direction: the next key of the list, or the end |
| `DbIter.DBIter.Prev` | LadyBook/Pods/leveldb-library/db/db_iter.cc:200-225 | From either direction: the previous key of the list, or the end |
| `DbIter.DBIter.FindNextUserEntry` | LadyBook/Pods/leveldb-library/db/db_iter.cc:168-198 | Skips hidden versions, deleted keys and versions too new, and misses no visible key |
| `DbIter.DBIter.FindPrevUserEntry` | LadyBook/Pods/leveldb-library/db/db_iter.cc:227-267 | Backwards likewise, with the value of the newest visible version saved |
| `DbIter.DBIter.Seek` | LadyBook/Pods/leveldb-library/db/db_iter.cc:269-281 | Lands on the first key of the list not below the target |
| `DbIter.DBIter.SeekToFirst` | LadyBook/Pods/leveldb-library/db/db_iter.cc:283-292 | Lands on the first key of the list |
| `DbIter.DBIter.SeekToLast` | LadyBook/Pods/leveldb-library/db/db_iter.cc:294-299 | Lands on the last key of the list |
| `DbIter.Arrive` | LadyBook/Pods/leveldb-library/db/db_iter.cc:31-40 | An entry a writer adds in between, newer than the sequence number, changes nothing that is shown |
| `DbIter.JustBeforeIff` | LadyBook/Pods/leveldb-library/db/db_iter.cc:40-45 | Moving in reverse, iter_ is just before all entries of key() exactly when the entry before those is visible at the sequence number |
| `DbIter.RestsEarlier` | LadyBook/Pods/leveldb-library/db/db_iter.cc:40-45 | A concrete list on which it stands further back |
| `DbFormat.ParseRoundTrip` | LadyBook/Pods/leveldb-library/db/dbformat.h:165-175 | Parsing an internal key gives back user key, sequence number and type |
| `DbFormat.CompareIsBefore` | LadyBook/Pods/leveldb-library/db/dbformat.cc:51-67 | Comparing the encoded bytes orders entries by user key up, sequence number down, type down |
| `DbFormat.BytewiseIsTotalOrder` | LadyBook/Pods/leveldb-library/util/comparator.cc:19-27 | The default comparator meets what every theorem here assumes of a comparator |
| `Coding.VarintRoundTrip` | LadyBook/Pods/leveldb-library/util/coding.cc:81-90 | Every varint decodes to its value, whatever follows it |
| `Coding.EncodeVarint32` | LadyBook/Pods/leveldb-library/util/coding.cc:47-73 | The unrolled 32-bit encoder writes the general encoding, in at most five bytes |
| `Coding.GetVarint32Ptr` | LadyBook/Pods/leveldb-library/util/coding.cc:112-128 | Succeeds exactly when a varint ends within five bytes, with the value modulo 2^32 |
| `Coding.FixedRoundTrip` | LadyBook/Pods/leveldb-library/util/coding.cc:9-33 | Little-endian words decode to their value |
| `MemTable.MemTable.Add` | LadyBook/Pods/leveldb-library/db/memtable.cc:75-98 | The entry is encoded and placed so that the table stays sorted and holds exactly one more entry |
| `MemTable.MemTable.Get` | LadyBook/Pods/leveldb-library/db/memtable.cc:100-134 | Found, deleted or missing: exactly the read at the sequence number, decoded from the encoded entry |
| `MemTable.MemTable.SeekFindsNewest` | LadyBook/Pods/leveldb-library/db/memtable.cc:100-134 | The first entry at or after the lookup key is the newest visible version of the key, or there is none |
| `SnapshotList.SnapshotList.New` | LadyBook/Pods/leveldb-library/db/snapshot.h:57-71 | Appends to the ring and keeps it linked both ways and ordered |
| `SnapshotList.SnapshotList.Delete` | LadyBook/Pods/leveldb-library/db/snapshot.h:79-86 | Unlinks exactly the one node, touching only its two neighbours |
| `SnapshotList.SnapshotList.Oldest` | LadyBook/Pods/leveldb-library/db/snapshot.h:47-50 | No live snapshot is older |
| `LogFormat.UnmaskInvertsMask` | LadyBook/Pods/leveldb-library/util/crc32c.h:29-39 | Unmask inverts Mask on every 32-bit word |
| `LogFormat.FragmentStaysInBlock` | LadyBook/Pods/leveldb-library/db/log_writer.cc:47-71 | No fragment crosses a block boundary, from any file length |
| `LogFormat.EncodeEndsAt` | LadyBook/Pods/leveldb-library/db/log_writer.cc:34-80 | The bytes a record takes are congruent to the offset its last fragment ends at |
| `LogFormat.SessionsConcatenate` | LadyBook/Pods/leveldb-library/db/log_writer.cc:23-30 | Closing and reopening with dest_length writes the bytes one session would have written |
| `LogWriter.Writer.AddRecord` | LadyBook/Pods/leveldb-library/db/log_writer.cc:34-80 | Appends the framing of the record and nothing else, keeps block_offset_ congruent to the file length, and terminates although a turn may write no payload; when the device fails, what is left is a cut-off record |
| `LogWriter.Writer.AddFragment` | LadyBook/Pods/leveldb-library/db/log_writer.cc:43-77 | One turn of the loop: filler if no header fits, then one physical record |
| `LogWriter.Writer.EmitPhysicalRecord` | LadyBook/Pods/leveldb-library/db/log_writer.cc:82-108 | Header, payload, and the offset moved past both |
| `LogWriter.AddRecords` | LadyBook/Pods/leveldb-library/db/log_writer.cc:34-80 | A list of records appended one by one is its encoding, or a prefix when the device fails |
| `LogReader.Reader.ReadRecord` | LadyBook/Pods/leveldb-library/db/log_reader.cc:56-174 | The buffered reader returns exactly what assembling fragments from its file position gives, and reports the same drops |
| `LogReader.Reader.ReadPhysicalRecord` | LadyBook/Pods/leveldb-library/db/log_reader.cc:189-271 | The buffered reader returns the physical record at its position in the file, with every error branch |
| `LogReader.Reader.AcceptFragment` | LadyBook/Pods/leveldb-library/db/log_reader.cc:86-168 | Every case of the switch on the record type, with the drops it reports |
| `LogReader.ReadRecords` | LadyBook/Pods/leveldb-library/db/log_reader.cc:56-174 | Reading until the end gives all records and all drops of the file |
| `LogRoundTrip.FragmentReads` | LadyBook/Pods/leveldb-library/db/log_reader.cc:189-271 | A whole fragment reads back; a cut-off one reads as the end of the file |
| `LogRoundTrip.RecordReads` | LadyBook/Pods/leveldb-library/db/log_reader.cc:56-174 | A whole record reads back; a cut-off one reads as the end of the file with nothing reported |
| `LogRoundTrip.TruncatedLogReadsBack` | LadyBook/Pods/leveldb-library/db/log_reader.cc:56-174 | For any records and any byte prefix of the file: exactly the whole records, in order, and no corruption |
| `LogRoundTrip.UncutLogIsWhole` | LadyBook/Pods/leveldb-library/db/log_reader.cc:56-174 | Uncut, that is every record |
| `LogReuse.ReusedLogReadsIff` | LadyBook/Pods/leveldb-library/db/db_impl.cc:457-480 | Any log, cut at any byte and continued with any records, reads back as its whole records and those, with no drops, exactly when the cut is at a record end or in block filling, unless the overwritten fragment passes its checksum all the same |
| `LogReuse.ReusedCutLogLosesRecords` | LadyBook/Pods/leveldb-library/db/db_impl.cc:457-480 | A concrete family that loses the later record |
| `LogRoundTrip.WriteSessions` | LadyBook/Pods/leveldb-library/db/log_writer.cc:23-80 | Any number of writers, one after another on one file, write what one writer given all the records would |
| `LogRoundTrip.WriteCutRead` | LadyBook/Pods/leveldb-library/db/log_reader.cc:56-174 | Written by such writers, cut at any byte and read by a reader: exactly the whole records, and no drops |
| `WriteBatch.ParseOpsRoundTrip` | LadyBook/Pods/leveldb-library/db/write_batch.cc:42-80 | Parsing the operations of a batch gives them back |
| `WriteBatch.ParseOpsRoundTripIff` | LadyBook/Pods/leveldb-library/db/write_batch.cc:98-109 | It gives them back exactly when every key and value is shorter than 4 GiB |
| `WriteBatch.HeaderRoundTrip` | LadyBook/Pods/leveldb-library/db/write_batch.cc:82-96 | Sequence number and count read back from the header |
| `WriteBatch.ApplyContents` | LadyBook/Pods/leveldb-library/db/write_batch.cc:132-137 | Applying the bytes of a batch adds exactly its operations with consecutive sequence numbers |
| `WriteBatch.WriteBatch.Put` | LadyBook/Pods/leveldb-library/db/write_batch.cc:98-103 | One more operation, the header kept right |
| `WriteBatch.WriteBatch.Delete` | LadyBook/Pods/leveldb-library/db/write_batch.cc:105-109 | One more operation, the header kept right |
| `WriteBatch.WriteBatch.Append` | LadyBook/Pods/leveldb-library/db/write_batch.cc:144-148 | The other batch's operations follow, its own header ignored |
| `WriteBatch.WriteBatch.SetSequence` | LadyBook/Pods/leveldb-library/db/write_batch.cc:94-96 | Only the sequence number changes |
| `WriteBatch.Iterate` | LadyBook/Pods/leveldb-library/db/write_batch.cc:42-80 | On any bytes, well formed or not: the entries up to the first malformed operation, and whether there was one |
| `WriteBatch.InsertInto` | LadyBook/Pods/leveldb-library/db/write_batch.cc:132-137 | On any bytes: what is added, and the status |
| `Recovery.RecoverLogFile` | LadyBook/Pods/leveldb-library/db/db_impl.cc:392-489 | The loop with its level-0 tables recovers exactly what replaying the records in order gives, paranoid or not |
| `Recovery.CutLogReplays` | LadyBook/Pods/leveldb-library/db/db_impl.cc:371-489 | From bytes to entries: a log cut at any byte recovers without fault exactly the groups whose records are whole |
| `WriteQueue.BuildBatchGroup` | LadyBook/Pods/leveldb-library/db/db_impl.cc:1260-1306 | The group is a prefix of the queue under the sync and size rules, and the combined batch its operations in order; tmp_batch_ is used only for more than one |
| `WriteQueue.GroupSyncsTogether` | LadyBook/Pods/leveldb-library/db/db_impl.cc:1281-1284 | A group led by a writer that does not sync holds nobody who asked for it |
| `WriteQueue.GroupSizeBounded` | LadyBook/Pods/leveldb-library/db/db_impl.cc:1270-1278 | A group stays within its size limit unless its first batch alone exceeds it |
| `WriteQueue.EventKeeps` | LadyBook/Pods/leveldb-library/db/db_impl.cc:1185-1256 | Every step of every thread keeps the queue invariant |
| `WriteQueue.EachBatchOnce` | LadyBook/Pods/leveldb-library/db/db_impl.cc:1185-1256 | Over all interleavings: one leader, every batch in exactly one group in queue order, consecutive disjoint sequence ranges even when a group fails |
| `WriteQueue.TmpEmptyWhenBuilding` | LadyBook/Pods/leveldb-library/db/db_impl.cc:1228-1229 | tmp_batch_ is empty whenever a group is built |
| `WriteQueue.StatusIsTheGroups` | LadyBook/Pods/leveldb-library/db/db_impl.cc:1238-1255 | Every writer returns its group's status, and a sync writer that brought a batch hears of success only from a synced group |
| `Background.Scheduler.MaybeScheduleCompaction` | LadyBook/Pods/leveldb-library/db/db_impl.cc:648-663 | Restores: pending work is scheduled unless an error or a shutdown intervened; at most one job |
| `Background.Scheduler.MakeRoom` | LadyBook/Pods/leveldb-library/db/db_impl.cc:1310-1370 | One turn: which branch, who waits, and that nobody blocks without a job to wake them |
| `Background.Scheduler.BeginJob` | LadyBook/Pods/leveldb-library/db/db_impl.cc:669-678 | Work is done only without shutdown and error |
| `Background.Scheduler.EndJob` | LadyBook/Pods/leveldb-library/db/db_impl.cc:680-686 | Reschedules exactly when work is pending, and wakes every waiter |
| `Background.Scheduler.InstallFlush` | LadyBook/Pods/leveldb-library/db/db_impl.cc:541-563 | imm_ is gone; inside a compaction the waiters are woken at once |
| `Background.Scheduler.RecordBackgroundError` | LadyBook/Pods/leveldb-library/db/db_impl.cc:640-646 | The first error wakes everyone |
| `Background.Scheduler.ShutDown` | LadyBook/Pods/leveldb-library/db/db_impl.cc:153-160 | Finished exactly when nothing is scheduled |
| `PbVarint.EncodeVarint` | LadyBook/Pods/nanopb/pb_encode.c:608-628 | The loop writes the varint of every 64-bit value in at most ten bytes |
| `PbVarint.DecodeVarint` | LadyBook/Pods/nanopb/pb_decode.c:255-275 | The loop computes the 64-bit decoding on any bytes, failures included |
| `PbVarint.DecodeVarint32` | LadyBook/Pods/nanopb/pb_decode.c:187-247 | The loop computes the 32-bit decoding on any bytes, with its tests of the bits beyond the thirty-second and its 8-bit position |
| `PbVarint.Decode32Is` | LadyBook/Pods/nanopb/pb_decode.c:187-247 | In closed form, for every varint of at most 37 bytes: accepted exactly when what lies beyond the thirty-second bit is padding or sign, except for the fifth byte of a longer varint, with the value modulo 2^32 |
| `PbVarint.PositionWraps` | LadyBook/Pods/nanopb/pb_decode.c:205-237 | A longer one for which that fails, because the position has wrapped |
| `PbVarint.Varint64RoundTrip` | LadyBook/Pods/nanopb/pb_decode.c:255-275 | Every 64-bit value decodes back, whatever follows |
| `PbVarint.Varint32RoundTrip` | LadyBook/Pods/nanopb/pb_decode.c:187-247 | Every 32-bit value decodes back, whatever follows |
| `PbVarint.SignExtendedRoundTrip` | LadyBook/Pods/nanopb/pb_decode.c:212-229 | Every negative 32-bit value encoded as 64 bits is accepted by the 32-bit decoder |
| `PbVarint.DecodersAgree` | LadyBook/Pods/nanopb/pb_decode.c:187-275 | What the 32-bit decoder accepts the 64-bit one accepts exactly when it has at most ten bytes, and then with the same length and the same value modulo 2^32 |
| `PbVarint.NothingLostIff` | LadyBook/Pods/nanopb/pb_decode.c:187-247 | For everything both accept: the value is the 64-bit one, or its sign extension, exactly when the bits beyond the thirty-second are all padding, or all sign bits |
| `PbVarint.OversizeAccepted` | LadyBook/Pods/nanopb/pb_decode.c:208-244 | The 32-bit decoder drops value bits of the fifth byte of a longer varint without complaint: a concrete input |
| `PbVarint.ZigZagRoundTrip` | LadyBook/Pods/nanopb/pb_encode.c:630-639 | Zig-zag gives back every signed 64-bit value |
| `PbVarint.ZagZigRoundTrip` | LadyBook/Pods/nanopb/pb_decode.c:1269-1281 | And every 64-bit pattern is the zig-zag of what it decodes to |
| `PbRoundTrip.MessageRoundTrip` | LadyBook/Pods/nanopb/pb_decode.c:925-1087 | For every well-formed descriptor and every valid message, nested to any depth: decoding what was encoded succeeds and gives the message back, and the decoder meets whatever follows exactly after its last byte |
| `PbRoundTrip.TerminatedRoundTrip` | LadyBook/Pods/nanopb/pb_encode.c:557-565 | A message written with a terminating zero byte is read back, whatever follows it |
| `PbRoundTrip.FieldsRoundTrip` | LadyBook/Pods/nanopb/pb_decode.c:925-1073 | The decoder, having the first i fields, gets the rest from what the encoder wrote for them |
| `PbRoundTrip.SlotRoundTrip` | LadyBook/Pods/nanopb/pb_encode.c:341-426 | Each rule (required, optional, proto3 singular, repeated, packed, oneof) takes the decoder one field further |
| `PbRoundTrip.PackedRoundTrip` | LadyBook/Pods/nanopb/pb_decode.c:420-445 | A packed array comes back item by item |
| `PbRoundTrip.ValueRoundTrip` | LadyBook/Pods/nanopb/pb_decode.c:1318-1545 | A value of every type, submessages included, comes back and leaves what follows it unread |
| `PbRoundTrip.ZeroIsDefault` | LadyBook/Pods/nanopb/pb_encode.c:240-338 | Left out is exactly what holds its default and is of a type that can be left out: not fixed-length bytes of positive length, nor messages with such a field |
| `PbStreams.OStream.Write` | LadyBook/Pods/nanopb/pb_encode.c:103-124 | Counts, or writes within max_size, or fails and changes neither the buffer nor the count |
| `PbStreams.EncodeMessage` | LadyBook/Pods/nanopb/pb_encode.c:528-550 | A message within its limits: into a buffer it succeeds exactly when the encoded size fits in what is left and writes exactly the encoding, never past max_size; into a counting stream it counts the same size. One that claims more bytes or items than its storage holds, at any depth, is refused, with what was in the buffer before left as it was |
| `PbStreams.GetEncodedSize` | LadyBook/Pods/nanopb/pb_encode.c:567-576 | The sizing pass returns the length of what the writing pass writes, or fails exactly for messages beyond their limits |
| `PbStreams.EncodeSubmessage` | LadyBook/Pods/nanopb/pb_encode.c:717-765 | Sizing then writing at every depth gives length and body, or is refused; "submsg size changed" is unreachable |
| `PbStreams.EncodeArray` | LadyBook/Pods/nanopb/pb_encode.c:147-236 | Packed arrays by size and then data, others tag by tag; a count beyond array_size is refused |
| `PbStreams.EncodeBasicField` | LadyBook/Pods/nanopb/pb_encode.c:341-426 | Every rule writes exactly its part of the encoding, or refuses it |
| `PbStreams.WriteValue` | LadyBook/Pods/nanopb/pb_encode.c:767-900 | A value of any type writes exactly its encoding; bytes beyond their storage are refused |
| `PbDecoder.FieldIter.Next` | LadyBook/Pods/nanopb/pb_common.c:20-76 | Steps cyclically and says when it wrapped |
| `PbDecoder.FieldIter.Find` | LadyBook/Pods/nanopb/pb_common.c:78-95 | Finds the field with a tag if and only if there is one, wherever the search starts, and otherwise returns where it was |
| `PbDecoder.IStream.MakeSubstream` | LadyBook/Pods/nanopb/pb_decode.c:372-404 | The substream covers the next length-prefixed bytes and the parent goes on after them |
| `PbDecoder.DecodeStaticField` | LadyBook/Pods/nanopb/pb_decode.c:406-480 | Each rule's branch, on any bytes, moves the stream and the message as the specification does |
| `PbDecoder.DecodePackedArray` | LadyBook/Pods/nanopb/pb_decode.c:420-445 | The packed loop on any bytes, with its limit on items |
| `PbDecoder.SkipUnknown` | LadyBook/Pods/nanopb/pb_decode.c:321-334 | Skips exactly the field's bytes, or fails |
| `PbDecoder.DecodeNoInit` | LadyBook/Pods/nanopb/pb_decode.c:925-1073 | The main loop on any bytes: the specification's message or its failure, required fields checked |
| `PbDecoder.EncodeThenDecode` | LadyBook/Pods/nanopb/pb_decode.c:1076-1087 | Encoding into a buffer of any size and decoding what it holds: the message comes back exactly when it is within its limits and fits, and otherwise the encoder has failed |
| `DataCache.DataCache.CachedData` | LadyBook/Pods/Nuke/Sources/DataCache.swift:143-157 | In every state, between any two file operations of a flush: the last value staged |
| `DataCache.DataCache.BeginRead` | LadyBook/Pods/Nuke/Sources/DataCache.swift:143-150 | The locked half of a read: the staged value if there is one |
| `DataCache.DataCache.EndRead` | LadyBook/Pods/Nuke/Sources/DataCache.swift:150-157 | The unlocked half: what the disk gives, whatever happened in between, is a value the key had at some moment of the read |
| `DataCache.DataCache.StoreData` | LadyBook/Pods/Nuke/Sources/DataCache.swift:164-185 | The dictionary gains the value; the disk is not touched |
| `DataCache.DataCache.RemoveData` | LadyBook/Pods/Nuke/Sources/DataCache.swift:170-185 | The dictionary loses the key; the disk is not touched |
| `DataCache.DataCache.RemoveAll` | LadyBook/Pods/Nuke/Sources/DataCache.swift:176-185 | The dictionary is empty; the disk is not touched |
| `DataCache.DataCache.BeginFlush` | LadyBook/Pods/Nuke/Sources/DataCache.swift:267-275 | Takes the snapshot, if anything is pending; readers notice nothing |
| `DataCache.DataCache.PerformRemoveAll` | LadyBook/Pods/Nuke/Sources/DataCache.swift:304-308 | The disk is emptied; readers notice nothing |
| `DataCache.DataCache.PerformChange` | LadyBook/Pods/Nuke/Sources/DataCache.swift:310-326 | One file changes, in any order of the snapshot's keys; readers notice nothing |
| `DataCache.DataCache.EndFlush` | LadyBook/Pods/Nuke/Sources/DataCache.swift:280-288 | Forgets exactly what the snapshot held and keeps what was staged since; a pending change still has a flush scheduled |
| `DataCache.DataCache.EndFlushFor` | LadyBook/Pods/Nuke/Sources/DataCache.swift:247-253 | The last step of flush(for:): the cache equals the dictionary exactly when no staged removeAll hides what was just written |
| `DataCache.DataCache.FlushFor` | LadyBook/Pods/Nuke/Sources/DataCache.swift:247-253 | The whole call: afterwards the cache equals the dictionary exactly when it was not called for an added key while a removeAll was staged; else the key looks absent |
| `DataCache.DataCache.Flush` | LadyBook/Pods/Nuke/Sources/DataCache.swift:243-288 | The whole call: the disk comes to hold what readers saw |
| `DataCache.DataCache.FlushForDeletes` | LadyBook/Pods/Nuke/Sources/DataCache.swift:243-288 | From any such state flush(for:) and the next flush delete the file of a key the dictionary holds |
| `DataCache.RemoveAllThenStore` | LadyBook/Pods/Nuke/Sources/DataCache.swift:164-253 | removeAll and storeData lead to such a state, on any cache |
| `DataCache.Flushed` | LadyBook/Pods/Nuke/Sources/DataCache.swift:486-506 | The loop over the snapshot, in any order, removes exactly the changes not restaged since |
| `DataCache.StagingAgrees` | LadyBook/Pods/Nuke/Sources/DataCache.swift:456-484 | Staging a change does to what readers see what it does to the dictionary |
| `DataCache.DiskHidden` | LadyBook/Pods/Nuke/Sources/DataCache.swift:143-157 | While a flush runs, no reader depends on what it has yet to do |
| `DataCache.FlushedAgrees` | LadyBook/Pods/Nuke/Sources/DataCache.swift:486-506 | Once all is on disk, forgetting the snapshot shows the disk instead, and the same values |
| `LinkedList.LinkedList.AppendNode` | LadyBook/Pods/Nuke/Sources/Internal.swift:204-213 | Links a node at the end, and the list stays doubly linked |
| `LinkedList.LinkedList.Remove` | LadyBook/Pods/Nuke/Sources/Internal.swift:215-226 | Unlinks exactly one node from any place |
| `LinkedList.LinkedList.RemoveAll` | LadyBook/Pods/Nuke/Sources/Internal.swift:228-238 | Takes every link apart |
| `LruCache.Cache.Value` | LadyBook/Pods/Nuke/Sources/ImageCache.swift:180-197 | Finds a live entry and makes it the most recent; removes an expired one |
| `LruCache.Cache.Set` | LadyBook/Pods/Nuke/Sources/ImageCache.swift:199-207 | The entry becomes the most recent, then both trims |
| `LruCache.Cache.AddEntry` | LadyBook/Pods/Nuke/Sources/ImageCache.swift:220-226 | Replaces an entry of the same key; dictionary, list and totalCost agree |
| `LruCache.Cache.RemoveValue` | LadyBook/Pods/Nuke/Sources/ImageCache.swift:210-218 | Removes and returns exactly the key's entry |
| `LruCache.Cache.TrimCost` | LadyBook/Pods/Nuke/Sources/ImageCache.swift:264-280 | The while loop removes exactly the specified prefix |
| `LruCache.Cache.TrimCount` | LadyBook/Pods/Nuke/Sources/ImageCache.swift:272-280 | The while loop removes exactly the specified prefix |
| `LruCache.Cache.Trim` | LadyBook/Pods/Nuke/Sources/ImageCache.swift:264-280 | Both limits, the cost limit first |
| `LruCache.TrimIsShortest` | LadyBook/Pods/Nuke/Sources/ImageCache.swift:264-280 | That prefix is the shortest least-recent one that is enough |
| `LruCache.CountTrimIs` | LadyBook/Pods/Nuke/Sources/ImageCache.swift:272-280 | For the count limit it leaves the last limit entries |
| `LruCache.SetStaysWithinLimits` | LadyBook/Pods/Nuke/Sources/ImageCache.swift:199-207 | Every set ends within both limits, if they and the costs are not negative |
| `RateLimiter.TokenBucket.Execute` | LadyBook/Pods/Nuke/Sources/Internal.swift:97-106 | Calls the work exactly when a token is there, and pays only for work that was not cancelled |
| `RateLimiter.TokenBucket.RunsInWindow` | LadyBook/Pods/Nuke/Sources/Internal.swift:81-115 | In any window [a, b] of a monotone clock at most burst + rate * (b - a) works run |
| `RateLimiter.WindowBound` | LadyBook/Pods/Nuke/Sources/Internal.swift:81-115 | A paced list of times keeps that bound in every window |
| `RateLimiter.RateLimiter.Execute` | LadyBook/Pods/Nuke/Sources/Internal.swift:49-54 | Runs at once exactly when nothing waits and a token is there; otherwise the work queues, with a closure scheduled to come back for it |
| `RateLimiter.RateLimiter.ExecutePendingTasks` | LadyBook/Pods/Nuke/Sources/Internal.swift:70-78 | Calls works strictly in order of submission until none is left or no token is, losing none |
| `Resumable.Loader.Start` | LadyBook/Pods/Nuke/Sources/ImagePipeline.swift:742-763 | Stored data leaves the cache and becomes a conditional range request |
| `Resumable.Loader.DidReceiveData` | LadyBook/Pods/Nuke/Sources/ImagePipeline.swift:791-816 | The first piece settles whether the download resumes; what is held stays the beginning of one version |
| `Resumable.Loader.DidFail` | LadyBook/Pods/Nuke/Sources/ImagePipeline.swift:840-848 | What arrived is stored exactly when it can be resumed, as the beginning of a version its validator names |
| `Resumable.Loader.DidFinish` | LadyBook/Pods/Nuke/Sources/ImagePipeline.swift:818-838 | What is delivered is one whole version, never a mixture, over any number of interruptions |
| `Resumable.Loader.Resumes` | LadyBook/Pods/Nuke/Sources/Internal.swift:295-301 | Resuming a version the validator names completes that version |
| `Resumable.Loader.KeptIsGood` | LadyBook/Pods/Nuke/Sources/Internal.swift:259-277 | What the initializer keeps of an interrupted answer is the non-empty beginning of a version that its validator names |
| `CellWidths.CalculateWidths` | LadyBook/Pods/XLPagerTabStrip/Sources/ButtonBarPagerTabStripViewController.swift:359-402 | When stretching applies, every cell gets at least its minimum and widths plus spacing fill the available width exactly; otherwise the minimum widths |
| `CellWidths.CalculateStretchedCellWidths` | LadyBook/Pods/XLPagerTabStrip/Sources/ButtonBarPagerTabStripViewController.swift:202-222 | The recursion ends, never divides by zero, and returns a width that shares out exactly what there is |
| `CellWidths.NextSuggestion` | LadyBook/Pods/XLPagerTabStrip/Sources/ButtonBarPagerTabStripViewController.swift:213-220 | Suggestions strictly decrease while large cells are added |
| `CellWidths.SomeCellIsSmall` | LadyBook/Pods/XLPagerTabStrip/Sources/ButtonBarPagerTabStripViewController.swift:213-220 | While the minimum widths fit, some cell is small, so the divisor is positive |
| `CellWidths.Narrower` | LadyBook/Pods/XLPagerTabStrip/Sources/ButtonBarPagerTabStripViewController.swift:206-211 | Lowering the suggestion only adds large cells, each wider than the new suggestion |
| `CellWidths.StretchedTotal` | LadyBook/Pods/XLPagerTabStrip/Sources/ButtonBarPagerTabStripViewController.swift:390-398 | The width of a stretched bar, from its large and small cells |

## Left out

LevelDB:

- Merging iterator, skip list, table files and table cache: taken by contract (sorted iteration over entries, search for the first entry not before a key).
- Store.StepKeeps: compactions start only on inputs whose droppable markers hide nothing of the other tables, and keys are well formed, because the source fails otherwise (see above). A reader looks a level up as one set of entries; that one file of it is enough is `LevelSearch.Get`, for levels that are sorted runs, which `LevelRuns.AutomaticRunKeeps` shows for every run without manual compactions.
- Store.StepKeeps: sequence numbers stay below 2^56; the source does not check this either.
- Engine.RecoveryIsPrefix: assumes that no earlier log append failed (the source goes on writing after a torn record), that only the newest log is cut, and that reuse_logs is off.
- Engine.RecoveryIsPrefix: cuts at record boundaries; that a cut at any byte comes to this is `Recovery.CutLogReplays`.
- Engine.CrashKeeps: recovery is one step, ending with its new manifest; a crash inside it leaves only table files nobody refers to, which the step allows for.
- Engine.EventKeeps: after a failed manifest write no further edit is made; the source lets a compaction that is already running try one more. Reuse of file numbers (`ReuseFileNumber`) is not modelled, and the manifest's own encoding is replaced by its contents.
- Engine.EventKeeps: a write whose memtable insert fails half-way is not modelled (its batch is well formed); `WriteBatch.InsertInto` says what such an insert adds.
- Engine.RecoveredBatches: the last sequence number after recovery is only bounded from below, since the record of an empty batch may raise it.
- Compaction.Compaction.DoCompactionWork: says nothing about the outputs of a failed run, which are discarded; statistics are left out, and the pause for an immutable memtable is in `Store`, `LevelRuns` and `Background`.
- Picking.PickCompaction: which level to compact, why, and all size rules are inputs; scores and seek counts are not modelled, nor how the compaction pointer is stored.
- Picking.CompactRange: a range with an open end, and the loop of `TEST_CompactRange` that waits for one piece after another.
- LevelRuns.StepKeeps: what a compaction drops and where it cuts its outputs is left open, so the theorems hold for all of it. Old versions that readers hold do not change and are not listed.
- LogReader.Reader.ReadRecord: initial_offset > 0, resyncing, LastRecordOffset and switching checksums off.
- MemTable.MemTable.Add: lengths that do not fit in 32 bits are excluded: the source computes the buffer's size from the full lengths, writes truncated ones, and asserts that the two agree. Arena and reference counting are not modelled.
- Recovery.RecoverLogFile: the file is read without I/O errors; the memtable is a list of entries, and its size rule is an input. Wrap-around of max_sequence and the signed count are modelled.
- WriteQueue.EventKeeps: threads are a transition system on values, one step per section under the mutex; condition variables may wake a thread at any time. `WriteQueue.BuildBatchGroup` itself is modelled in place.
- Background.Scheduler.MakeRoom: the delay of one millisecond, and the counters behind `NeedsCompaction`, which become inputs.
- DbIter.Replay: entries may arrive between calls, not during one; read sampling is not modelled. Corrupt keys are skipped by the source and assumed absent here.
- Block and filter formats, `DB::Open` options, locks, repair, statistics, `GetProperty`, `GetApproximateSizes`.

nanopb:

- PbRoundTrip.MessageRoundTrip: callbacks, extensions, pointer fields and fixed-count arrays are not modelled; encodings stay below 2^32 bytes.
- PbStreams.EncodeMessage: a string's bytes are those before its terminator, which is within its storage; array items past a count that is refused are not looked at. Lengths are unbounded numbers where the source has size_t.
- PbDecoder.DecodeNoInit: for a message type without fields, an unknown field numbered 0 is skipped, where the source would take it for the end marker of its field table.
- Contents of absent optional and oneof fields: the model has no storage for them. Floating-point fields are their bit patterns.

Nuke and XLPagerTabStrip:

- DataCache.DataCache.EndRead: one reader at a time is followed through its two halves; failing file operations, two keys with one filename, and the sweep are not modelled.
- LruCache.Cache.Set: the clock that turns a time to live into an expiration date is a parameter; memory warnings and entering the background are plain trims. The lock makes each method one step.
- RateLimiter.RateLimiter.ExecutePendingTasks: the delay before the closure runs is left to the queue; the clock does not go back.
- Resumable.Loader.DidFinish: the server follows sections 3.1, 3.2 and 4.1 of RFC 7233 with strong validators; requests that bring their own Range header, and answers other than 200 and 206, promise nothing. The shared cache may drop any entry at any time.
- CellWidths.CalculateWidths: widths are real numbers, without rounding; the division by zero cells whose result the source never uses is not performed.
- Image decoding, processing and views; scrolling, layout and animation of the tab bar.
- The app's own controllers and models, and the other vendored libraries.
