# Verified model of the Nitro Amplitude storage, worker and fetch protocols

A Dafny 4.11 model of the stateful parts of this repository, with proofs of what they promise.
`dafny verify dfyconfig.toml` checks the whole project.

## What is modelled

**The segment store** (`SegmentNames`, `SegmentCodec`, `Replay`, `SegmentIndex`, `SegmentCompaction`,
`SegmentBytes`, `SegmentInvariant`, `SegmentRecovery`, `SegmentScan`, `SegmentLoad`, `SegmentLimits`, `SegmentMoves`,
`SegmentGuard`, `FileAdapter`, `JsonlSegmentStore`, `StoreRuns`). The class `JsonlSegmentStore` has the fields and the methods of the
C++ class and runs over a `FileAdapter` in which every call may fail; a failed append may leave any
strict prefix. The reference is the one the repository's differential test uses: replay every record
of every segment in id order into a map. The contracts speak of the replay of all files (`FullMap`)
and of the files that could be read when the directory was loaded (`VisibleMap`). The adapter keeps
every content the disk has had in the ghost history `instants`, so that crash atomicity is a statement
about each of them: it can be opened again, and it holds the map before or the map after.
`SegmentMoves` and `SegmentGuard` say what a session leaves for later ones with a higher record limit.

**The HTTP worker** (`WorkerProtocol`, `WorkerHistory`, `HybridAmplitudeWorker`). A transition system over callers and
two threads, with the condition variable and its pending and spurious wake-ups; the class has the
tables and counters of the original, each method one critical section, and proves that they always
equal what the protocol derives from the queue, the threads and the history.

**Fetch ordering** (`FetchOrdering`, `FetchLifecycle`, `FetchFreshness`, `ExperimentClient`). Responses for all flags and
for some flags in any order, sequence numbers, invalidation, retries, freshness, and the chained
writes of `LoadStoreCache`. The load of the persisted variants settles at any time, also after fetches
and clears, because nothing waits for it.

**Overlay stores.** `BrowserStorage` and `BrowserStringStorage`: module-level maps over a localStorage
that may be missing or throw at any call. `WriteBehind`: the queue of pending disk writes.
`LegacyMigration`, `LegacyRuns`, `LegacyImports`: draining an older storage into the segment store, on
top of the store's contracts.

**Package documents** (`PackageDocs`): the manifest-driven save and restore of prepare and cleanup.

## Where the code does not do what one would expect

Each of these is proved about the code as it is.

- A per-key fetch response that removed a flag can be undone by an older full response that arrives
  later (`DroppedFlagComesBack`); `NewestWinsIffSettled` gives the exact condition.
- The load of the persisted variants replaces the whole cache when it settles. Variants of a newer
  response are lost from the cache (`LoadReplacesNewerResponse`) and a `clear` is undone
  (`LoadUndoesClear`), unless the load settles before anything is stored or cleared
  (`LoadKeepsNewestIff`, `ClearedStaysEmptyIff`). Only `cacheReady` waits for the load.
- `enqueue` of the worker does not look at the running flag. A stopped worker that still has a thread
  serves what it accepts, for instance from a listener; without one it accepts the request and never
  reports it (`AcceptedWhenStoppedIsReportedIff`, `RequestAfterLastExit`). The worker is stopped only
  by its destructor or by a failed constructor, so this takes a caller that uses the object during its
  destruction.
- A write-behind `remove` or `reset` whose storage call throws has already dropped the waiting writes,
  so an older value can become visible (`FailedRemoveChangesNothingIff`, `FailedResetChangesNothingIff`,
  `OlderValueIsBack`).
- A session with a lower record limit that compacts a segment drops the records it is too short to
  read. Later sessions with a higher limit miss longer values (`CompactionLosesLongerValues`) and find
  stale values and deleted keys again (`OlderValueComesBack`, `DeletedKeyComesBack`);
  `CompactionChangesKeyIff` and `CompactionKeepsMapIff` say exactly when for an install in place, and
  `MoveChangesKeyIff` and `MoveKeepsMapIff` for deletions that move up. Values above the segment are
  safe because the store does not move deletions past a segment it has read only in part
  (`UnguardedMoveLosesValue`, `OpenAndReadLater`).
- A legacy import asks only for visible keys. It overwrites a newer value that lies in a segment this
  session could not read (`NewerValueIsOverwritten`) and drops an entry whose older value hides a
  deletion (`EntryIsPassedOver`); `ImportOverwritesHiddenValueIff` and
  `ImportAgreesWithFullSessionIff` say exactly when.
- A deleted legacy value comes back with a later migration when the deletion did not reach the source
  (`DeletedKeyIsImportedAgain`); `DeletionComesBackIff` says exactly when.

## How failures are modelled

Every call into a file system, a browser storage, a legacy source or the network picks its outcome
freely. A ghost counter `failures` counts the calls that failed, so that a contract can say both what
holds whatever fails and what must have been achieved when nothing did.

## Assumptions

- Only the store changes its files. Each public call of the store is one step, as its mutex makes it.
- The deletions on a disk look as the store writes them (`DeletionsAsWritten`) and segment ids fit 32
  bits (`IdsFit`). Both hold for the empty directory, are kept by every operation at every instant,
  and `ForeignDeletionIsLost` shows that the first is needed.
- What the load of the variants reads may be any variants, or nothing.
- `localStorage`, the legacy source and the disk behind the write-behind queue have no other writer.
- Counters of the worker and byte counts do not overflow 64 bits.

## Model

| member | source | states |
|---|---|---|
| `SegmentNames.ParseInvertsName` | packages/react-native-nitro-amplitude/cpp/core/JsonlSegmentStore.cpp:72-90 | parsing the file name of any 32-bit segment id gives that id back |
| `SegmentNames.NamesAreDistinct` | packages/react-native-nitro-amplitude/cpp/core/JsonlSegmentStore.cpp:268-272 | two segments never share a file name |
| `SegmentNames.NameInText` | packages/react-native-nitro-amplitude/cpp/core/JsonlSegmentStore.cpp:268-272 | the file name of segment 42 is segment-00000042.jsonl |
| `SegmentNames.LongNameInText` | packages/react-native-nitro-amplitude/cpp/core/JsonlSegmentStore.cpp:268-272 | an id with more than eight digits is written with all of them |
| `SegmentNames.StaleTemporaryIff` | packages/react-native-nitro-amplitude/cpp/core/JsonlSegmentStore.cpp:92-100 | a segment's name with the marker behind it is a stale temporary name exactly if something follows the marker, and is never taken for a segment |
| `SegmentNames.StaleTemporaryForm` | packages/react-native-nitro-amplitude/cpp/core/JsonlSegmentStore.cpp:92-100 | every stale temporary name has that form: loading removes nothing else |
| `SegmentNames.TemporaryIsNoSegment` | packages/react-native-nitro-amplitude/cpp/core/JsonlSegmentStore.cpp:72-90 | no name with the marker of a temporary file anywhere in it is taken for a segment |
| `SegmentCodec.UnescapeInvertsEscape` | packages/react-native-nitro-amplitude/cpp/core/JsonlSegmentStore.cpp:17-70 | unescaping inverts escaping on every byte string |
| `SegmentCodec.EscapeHidesSeparators` | packages/react-native-nitro-amplitude/cpp/core/JsonlSegmentStore.cpp:17-37 | an escaped string holds no tab, newline or carriage return |
| `SegmentBytes.EscapesInBytes` | packages/react-native-nitro-amplitude/cpp/core/JsonlSegmentStore.cpp:17-37 | the four escapes byte by byte, every other byte for itself, and bytes escaped one by one |
| `SegmentBytes.UnescapesInBytes` | packages/react-native-nitro-amplitude/cpp/core/JsonlSegmentStore.cpp:39-70 | what a backslash and each letter stand for, and that anything else after a backslash is malformed |
| `SegmentBytes.TombstoneInBytes` | packages/react-native-nitro-amplitude/cpp/core/JsonlSegmentStore.cpp:15 | the reserved key of deletions is the bytes 127, 68, 69, 76, written as they are |
| `SegmentBytes.PutInBytes` | packages/react-native-nitro-amplitude/cpp/core/JsonlSegmentStore.cpp:283-287 | a line written for a set, as bytes, and what it is read as |
| `SegmentBytes.DeletionInBytes` | packages/react-native-nitro-amplitude/cpp/core/JsonlSegmentStore.cpp:420-424 | a line written for a deletion, as bytes, and what it is read as |
| `SegmentBytes.FileInBytes` | packages/react-native-nitro-amplitude/cpp/core/JsonlSegmentStore.cpp:190-210 | a file of literal bytes replays to the value after its first line, and to nothing after its second |
| `SegmentCodec.EscapeInto` | packages/react-native-nitro-amplitude/cpp/core/JsonlSegmentStore.cpp:17-37 | the escaping loop appends exactly the escaped form to its output |
| `SegmentCodec.UnescapeInto` | packages/react-native-nitro-amplitude/cpp/core/JsonlSegmentStore.cpp:39-70 | the unescaping loop returns the decoded bytes, and fails exactly on a malformed escape |
| `SegmentCodec.EncodedLineShape` | packages/react-native-nitro-amplitude/cpp/core/JsonlSegmentStore.cpp:283-287 | an encoded line has one tab, at the separator, and one newline, at its end |
| `SegmentCodec.DecodeInvertsEncode` | packages/react-native-nitro-amplitude/cpp/core/JsonlSegmentStore.cpp:198-205 | decoding an encoded set or deletion gives that operation back |
| `SegmentCodec.RecordsCoverCompletePrefix` | packages/react-native-nitro-amplitude/cpp/core/JsonlSegmentStore.cpp:102-108 | the records of a file lie end to end from its start and cover exactly its complete lines |
| `SegmentCodec.RecordsConcat` | packages/react-native-nitro-amplitude/cpp/core/JsonlSegmentStore.cpp:190-210 | the records of a complete file followed by more bytes are its own and, shifted, those of the rest |
| `SegmentCodec.RecordsIgnoreTail` | packages/react-native-nitro-amplitude/cpp/core/JsonlSegmentStore.cpp:102-108 | cutting a file to its complete prefix changes none of its records |
| `SegmentCodec.RecordsTornLine` | packages/react-native-nitro-amplitude/cpp/core/JsonlSegmentStore.cpp:190-210 | any strict prefix of a line at the end of a complete file adds no record and no complete byte |
| `SegmentCodec.ParseInvertsEncodeWithTornTail` | packages/react-native-nitro-amplitude/cpp/core/JsonlSegmentStore.cpp:190-210 | any written records followed by any strict prefix of one more read back as exactly those records |
| `Replay.ReplayedAt` | packages/react-native-nitro-amplitude/cpp/bindings/HybridAmplitudeStorageTest.cpp:3372-3404 | the reference replay, a fold over all segments in id order, gives each key what the highest segment that mentions it says |
| `Replay.SameReplay` | packages/react-native-nitro-amplitude/cpp/bindings/HybridAmplitudeStorageTest.cpp:3372-3404 | disks that give every key the same value replay to the same map |
| `Replay.ReplayUpdate` | packages/react-native-nitro-amplitude/cpp/bindings/HybridAmplitudeStorageTest.cpp:3372-3404 | a change of one key's value is that one update of the replayed map |
| `SegmentIndex.ScanExtendsIndex` | packages/react-native-nitro-amplitude/cpp/core/JsonlSegmentStore.cpp:192-210 | scanning the next higher segment turns the index of the lower ones into the index of all of them |
| `SegmentIndex.IndexKeysAreReplayed` | packages/react-native-nitro-amplitude/cpp/core/JsonlSegmentStore.cpp:192-210 | the index holds exactly the keys of the replayed map |
| `SegmentIndex.EntryWitness` | packages/react-native-nitro-amplitude/cpp/core/JsonlSegmentStore.cpp:204 | an index entry points at the record that gives its key its replayed value |
| `SegmentIndex.LiveWithinSegment` | packages/react-native-nitro-amplitude/cpp/core/JsonlSegmentStore.cpp:254-263 | live records of a segment never overlap, so they never exceed its bytes and the clamp never takes effect |
| `SegmentScan.ScanSegment` | packages/react-native-nitro-amplitude/cpp/core/JsonlSegmentStore.cpp:190-210 | the loading loop computes the reference index of the segment and notices every unusable line |
| `SegmentScan.RebuildSegment` | packages/react-native-nitro-amplitude/cpp/core/JsonlSegmentStore.cpp:455-490 | the compaction loop keeps exactly the live records and the deletions it must keep, in order |
| `SegmentCompaction.CompactionIsRight` | packages/react-native-nitro-amplitude/cpp/core/JsonlSegmentStore.cpp:462-490 | what the rebuilt segment says about every key: the live value, an erasure that is still needed, or nothing |
| `SegmentCompaction.CompactionKeepsValue` | packages/react-native-nitro-amplitude/cpp/core/JsonlSegmentStore.cpp:434-510 | replacing the segment leaves every key's value, among all files and among the readable ones |
| `SegmentCompaction.MergeKeepsValue` | packages/react-native-nitro-amplitude/cpp/core/JsonlSegmentStore.cpp:512-541 | copying deletions up, and then removing their segment, both leave every key's value and index entry |
| `SegmentCompaction.MovedKeyStaysErased` | packages/react-native-nitro-amplitude/cpp/core/JsonlSegmentStore.cpp:515-518 | a key whose deletion moves is erased before, between and after, in both views of this session; this needs no unreadable segment above (what a partially read one means is in SegmentMoves) |
| `SegmentCompaction.IndexLiveAgree` | packages/react-native-nitro-amplitude/cpp/core/JsonlSegmentStore.cpp:478-486 | the live records of a segment are those the index points at, and each is its segment's last word |
| `SegmentInvariant.AppendStep` | packages/react-native-nitro-amplitude/cpp/core/JsonlSegmentStore.cpp:300-313 | appending one record to the highest segment is that one map update or removal in both views, and keeps the whole invariant |
| `SegmentInvariant.AppendAccounted` | packages/react-native-nitro-amplitude/cpp/core/JsonlSegmentStore.cpp:300-313 | after a set or delete, dead bytes still equal total bytes minus the bytes of live records, in every segment |
| `SegmentInvariant.CompactionStep` | packages/react-native-nitro-amplitude/cpp/core/JsonlSegmentStore.cpp:497-509 | an installed compaction keeps the whole invariant and both views of the contents |
| `SegmentInvariant.CompactionAccounted` | packages/react-native-nitro-amplitude/cpp/core/JsonlSegmentStore.cpp:504-508 | an installed compaction keeps the byte accounting of every segment exact |
| `SegmentInvariant.MoveStep` | packages/react-native-nitro-amplitude/cpp/core/JsonlSegmentStore.cpp:519-540 | the copy of the deletions and the removal of their segment each keep the invariant and both views |
| `SegmentInvariant.MergeAccounted` | packages/react-native-nitro-amplitude/cpp/core/JsonlSegmentStore.cpp:533-539 | moving deletions keeps the byte accounting exact, between its two file calls and after them |
| `SegmentInvariant.TearIsSilent` | packages/react-native-nitro-amplitude/cpp/core/JsonlSegmentStore.cpp:330-340 | a torn append changes no complete line of any file |
| `SegmentInvariant.SilentStep` | packages/react-native-nitro-amplitude/cpp/core/JsonlSegmentStore.cpp:190-229 | changes outside complete lines keep the invariant and both views |
| `SegmentInvariant.CompactsAfterMerge` | packages/react-native-nitro-amplitude/cpp/core/JsonlSegmentStore.cpp:494-501 | when the copy worked but the removal failed, the same rebuilt content is still right to install |
| `SegmentInvariant.CompactionLeavesNoGarbage` | packages/react-native-nitro-amplitude/cpp/core/JsonlSegmentStore.cpp:446-509 | after an installed compaction the segment's file holds live records and, only if an unreadable segment or complete lines lie below it, one deletion each for keys without a value; a file with nothing to keep is gone |
| `SegmentInvariant.LeftForAReason` | packages/react-native-nitro-amplitude/cpp/core/JsonlSegmentStore.cpp:446-453 | a file left without garbage holds a live record, or something lies below it that its deletions may hide; otherwise it is gone |
| `SegmentRecovery.AppendInstants` | packages/react-native-nitro-amplitude/cpp/core/PosixFileAdapter.hpp:131-139 | at every instant of an append the disk can be opened and holds the old map or the new one |
| `SegmentRecovery.TornInstants` | packages/react-native-nitro-amplitude/cpp/core/PosixFileAdapter.hpp:200-216 | at every instant of a failed append the disk can be opened and holds the old map |
| `SegmentRecovery.FailedAppend` | packages/react-native-nitro-amplitude/cpp/core/JsonlSegmentStore.cpp:330-355 | a failed append leaves the contents as they were and the file recoverable |
| `SegmentRecovery.TruncateRestores` | packages/react-native-nitro-amplitude/cpp/core/JsonlSegmentStore.cpp:361-363 | truncating to the recorded length makes the segment appendable again |
| `SegmentRecovery.RemoveRestores` | packages/react-native-nitro-amplitude/cpp/core/JsonlSegmentStore.cpp:364-366 | removing the file of an empty active segment makes it appendable again |
| `SegmentRecovery.AbandonStep` | packages/react-native-nitro-amplitude/cpp/core/JsonlSegmentStore.cpp:375-384 | a segment that is given up is never appended to again: the next id is fresh and appendable |
| `SegmentRecovery.RotateStep` | packages/react-native-nitro-amplitude/cpp/core/JsonlSegmentStore.cpp:397-403 | rotation opens a segment above every file, with no file of its own |
| `SegmentRecovery.CountsTellWhatIsBelow` | packages/react-native-nitro-amplitude/cpp/core/JsonlSegmentStore.cpp:446-453 | the recorded counts and the unreadable segments show lower data exactly when an unreadable segment or a complete line lies below |
| `SegmentRecovery.OnlyTombstones` | packages/react-native-nitro-amplitude/cpp/core/JsonlSegmentStore.cpp:494-496 | a compaction without live records is made of deletions only, and then lower data exists |
| `SegmentRecovery.CompactionFindsAll` | packages/react-native-nitro-amplitude/cpp/core/JsonlSegmentStore.cpp:440-445 | the rebuilt segment has all live records of the segment, so the count check always passes |
| `SegmentLoad.LoadedSegment` | packages/react-native-nitro-amplitude/cpp/core/JsonlSegmentStore.cpp:182-229 | reading, indexing and trimming one segment keeps what loading has established and the replay of the disk |
| `SegmentLoad.LoadEnds` | packages/react-native-nitro-amplitude/cpp/core/JsonlSegmentStore.cpp:182-229 | after the last segment the index equals the replay of the readable files, and no content has changed |
| `SegmentLoad.LiveWithinCount` | packages/react-native-nitro-amplitude/cpp/core/JsonlSegmentStore.cpp:254-263 | live bytes never exceed the recorded bytes of a segment |
| `SegmentLoad.ActiveIsHighest` | packages/react-native-nitro-amplitude/cpp/core/JsonlSegmentStore.cpp:225-253 | a clean load may append to the highest readable segment when it lies above the unreadable ones |
| `SegmentLoad.FreshIsAppendable` | packages/react-native-nitro-amplitude/cpp/core/JsonlSegmentStore.cpp:235-252 | otherwise the segment chosen lies above every file and every unreadable segment |
| `SegmentLoad.SumLiveBytes` | packages/react-native-nitro-amplitude/cpp/core/JsonlSegmentStore.cpp:254-257 | the loop over the index sums, per segment, the lengths of its live records |
| `SegmentLimits.HigherLimitSeesTheSame` | packages/react-native-nitro-amplitude/cpp/core/JsonlSegmentStore.cpp:119-122 | when every record fits a limit, a session with any higher limit replays the same map |
| `SegmentLimits.ValueAfterCompaction` | packages/react-native-nitro-amplitude/cpp/core/JsonlSegmentStore.cpp:462-490 | what any key has after a compaction, to a reader with any limit at least as high: the live value, nothing if a deletion is kept, else what lies below |
| `SegmentLimits.CompactionChangesKeyIff` | packages/react-native-nitro-amplitude/cpp/core/JsonlSegmentStore.cpp:497-509 | an install in place changes what a later session with a higher limit finds under a key if and only if the segment has the last word on it, that record is too long for the compacting session, and what is left of the key differs |
| `SegmentLimits.CompactionKeepsMapIff` | packages/react-native-nitro-amplitude/cpp/core/JsonlSegmentStore.cpp:497-509 | after an install in place the whole map of such a session stays if and only if no key's last word is overlooked |
| `SegmentLimits.CompactionKeepsAllThatFits` | packages/react-native-nitro-amplitude/cpp/core/JsonlSegmentStore.cpp:497-509 | when every record of the segment fits this session's limit, rewriting it changes nothing for sessions with a higher one |
| `SegmentLimits.OlderValueComesBack` | packages/react-native-nitro-amplitude/cpp/core/JsonlSegmentStore.cpp:466-487 | a concrete segment: a fitting value followed by any last word, newer value or deletion, that is too long; compaction keeps the value and drops the last word |
| `SegmentLimits.DeletedKeyComesBack` | packages/react-native-nitro-amplitude/cpp/core/JsonlSegmentStore.cpp:466-474 | with limits 5 and 6 a deleted key is found again after a compaction |
| `SegmentLimits.CompactionLosesLongerValues` | packages/react-native-nitro-amplitude/cpp/core/JsonlSegmentStore.cpp:478-486 | a value longer than this session's limit is dropped by compaction, so a later session that could read it does not |
| `SegmentLimits.ForeignDeletionIsLost` | packages/react-native-nitro-amplitude/cpp/core/JsonlSegmentStore.cpp:470-477 | why the disk's deletions must look as the store writes them: a concrete file, not written by the store, that compaction changes |
| `SegmentLimits.ForeignCompactionChangesKeyIff` | packages/react-native-nitro-amplitude/cpp/core/JsonlSegmentStore.cpp:466-474 | with deletions spelt in any way, compaction changes a key for the same reader if and only if the segment erases it last, its first deletion is too long to be read, and a value lies below |
| `SegmentMoves.ErasedFromAbove` | packages/react-native-nitro-amplitude/cpp/core/JsonlSegmentStore.cpp:515-518 | what the guard on partially read segments gives: a key whose deletion moves has no value for a reader with a higher limit either, if a segment above has a word on it |
| `SegmentMoves.MoveEndsLikeInstall` | packages/react-native-nitro-amplitude/cpp/core/JsonlSegmentStore.cpp:494-501 | for such a reader a move, and a copy whose source is then rewritten, end exactly as an install in place would |
| `SegmentMoves.MoveChangesKeyIff` | packages/react-native-nitro-amplitude/cpp/core/JsonlSegmentStore.cpp:512-541 | a move changes a key for such a reader if and only if the segment's last word on it is overlooked; so does a copy followed by a rewrite; the copy alone changes it if and only if its deletion is among those copied as well |
| `SegmentMoves.MoveKeepsMapIff` | packages/react-native-nitro-amplitude/cpp/core/JsonlSegmentStore.cpp:512-541 | the whole map stays after a move if and only if no key's last word is overlooked |
| `SegmentMoves.MoveOutcomes` | packages/react-native-nitro-amplitude/cpp/core/JsonlSegmentStore.cpp:494-541 | after the copy, after the move, and after the rewrite that follows a failed removal, at most overlooked last words are lost |
| `SegmentMoves.CompactionOutcomes` | packages/react-native-nitro-amplitude/cpp/core/JsonlSegmentStore.cpp:497-509 | the same for an install in place, for every key and every higher limit at once |
| `SegmentMoves.UnguardedMoveDiffersIff` | packages/react-native-nitro-amplitude/cpp/core/JsonlSegmentStore.cpp:515-518 | without the guard a move differs from an install in place exactly on keys whose deletion moves past a value this session could not read |
| `SegmentMoves.OpeningSpares` | packages/react-native-nitro-amplitude/cpp/core/JsonlSegmentStore.cpp:182-266 | opening a directory keeps, for any higher limit, every key whose last word is in the active segment, an unreadable one, or one that shows something |
| `SegmentGuard.OpenAndReadLater` | packages/react-native-nitro-amplitude/cpp/bindings/HybridAmplitudeStorageTest.cpp:3333-3350 | the repository's test for any file failures: after a session with a lower limit has opened the four segments, a later one reads the long value, unless a call failed |
| `SegmentGuard.UnguardedMoveLosesValue` | packages/react-native-nitro-amplitude/cpp/core/JsonlSegmentStore.cpp:515-518 | on those four segments the guard alone forbids the move, and the move would lose the long value |
| `SegmentGuard.LoadedStateExists` | packages/react-native-nitro-amplitude/cpp/core/JsonlSegmentStore.cpp:154-266 | for any disk there is a consistent state in which every segment has been read, and exactly the segments with a set that is too long are marked |
| `FileAdapters.FileAdapter.AppendFile` | packages/react-native-nitro-amplitude/cpp/core/PosixFileAdapter.hpp:131-139 | appends everything, or fails leaving any strict prefix |
| `FileAdapters.FileAdapter.WriteFile` | packages/react-native-nitro-amplitude/cpp/core/PosixFileAdapter.hpp:141-161 | replaces a file as a whole, or fails and leaves it |
| `FileAdapters.FileAdapter.TruncateFile` | packages/react-native-nitro-amplitude/cpp/core/PosixFileAdapter.hpp:163-178 | shortens a file and never extends it |
| `FileAdapters.FileAdapter.RemoveFile` | packages/react-native-nitro-amplitude/cpp/core/PosixFileAdapter.hpp:180-185 | removes a file; a missing one counts as removed |
| `FileAdapters.FileAdapter.ReadRange` | packages/react-native-nitro-amplitude/cpp/core/PosixFileAdapter.hpp:93-128 | returns the whole range, or a shorter piece of it, or nothing |
| `JsonlSegmentStores.JsonlSegmentStore.constructor` | packages/react-native-nitro-amplitude/cpp/core/JsonlSegmentStore.cpp:112-124 | opening leaves the replayed map as it was, at every instant; when no call fails, every segment is readable, none but the active one is left with garbage only, and only segments with an unusable line are marked as partially read; the limits are the arguments, with 1 MiB and 0xFFFFFFFF for missing ones and 0xFFFFFFFF as the highest record limit; for sessions with a higher limit it keeps every key whose last word no compaction at opening can reach |
| `JsonlSegmentStores.JsonlSegmentStore.Load` | packages/react-native-nitro-amplitude/cpp/core/JsonlSegmentStore.cpp:154-266 | a load that succeeds establishes the invariant on any disk and keeps the same for higher limits; one that fails, after two listings of the directory have failed, changes nothing |
| `JsonlSegmentStores.JsonlSegmentStore.LoadSegment` | packages/react-native-nitro-amplitude/cpp/core/JsonlSegmentStore.cpp:182-229 | one segment: the disk holds the same map at every instant of reading and trimming it |
| `JsonlSegmentStores.JsonlSegmentStore.ReadSegment` | packages/react-native-nitro-amplitude/cpp/core/JsonlSegmentStore.cpp:188-228 | the index, the trimmed file, the counts, and the mark of a partially read segment, which it gets exactly for an unusable line or a failed trim |
| `JsonlSegmentStores.JsonlSegmentStore.ChooseActiveSegment` | packages/react-native-nitro-amplitude/cpp/core/JsonlSegmentStore.cpp:230-253 | appends go to a segment above every file and every unreadable id, or are disabled at the maximum id |
| `JsonlSegmentStores.JsonlSegmentStore.CountDeadBytes` | packages/react-native-nitro-amplitude/cpp/core/JsonlSegmentStore.cpp:254-263 | the dead bytes computed at load make the accounting exact |
| `JsonlSegmentStores.JsonlSegmentStore.ReclaimSegmentsWithoutLiveRecords` | packages/react-native-nitro-amplitude/cpp/core/JsonlSegmentStore.cpp:543-555 | reclaiming changes neither view, whatever calls fail, and spares for higher limits every key whose last word is in no reclaimed segment; unless a call failed, no other readable segment without live records holds garbage |
| `JsonlSegmentStores.JsonlSegmentStore.CompactSegment` | packages/react-native-nitro-amplitude/cpp/core/JsonlSegmentStore.cpp:434-510 | compaction changes neither view and no file but its own and, if that lies above, the active one, whichever of its reads, writes and removals fail; when it succeeds the file keeps a deletion only over unreadable segments or complete lines below it, and is gone if neither those nor live records are left, or if its deletions could move up; it fails only after a failed call; for sessions with a higher limit at most overlooked last words are lost, at every instant, and exactly those when it succeeds |
| `JsonlSegmentStores.JsonlSegmentStore.MoveTombstonesToActiveSegment` | packages/react-native-nitro-amplitude/cpp/core/JsonlSegmentStore.cpp:512-541 | moving deletions changes neither view, at every instant; what it leaves is the whole move, the copy alone, or nothing, and it moves only when no segment above is marked as partially read |
| `JsonlSegmentStores.JsonlSegmentStore.MaybeCompact` | packages/react-native-nitro-amplitude/cpp/core/JsonlSegmentStore.cpp:406-413 | leaves a segment that is less than half dead alone; otherwise no garbage is left in it, no deletion over nothing included, or a call failed; neither view changes, and for higher limits at most overlooked last words are lost |
| `JsonlSegmentStores.JsonlSegmentStore.RotateIfNeeded` | packages/react-native-nitro-amplitude/cpp/core/JsonlSegmentStore.cpp:386-404 | a line that fits leaves the store as it was; the next segment is opened, or appends are disabled, only if the line does not fit once the garbage is compacted away or a call failed; afterwards the line fits the active segment or that segment is empty; neither view changes |
| `JsonlSegmentStores.JsonlSegmentStore.RestoreActiveSegment` | packages/react-native-nitro-amplitude/cpp/core/JsonlSegmentStore.cpp:358-373 | a rollback that succeeds leaves the store ready, back at the segment it came from; one that fails changes nothing |
| `JsonlSegmentStores.JsonlSegmentStore.AbandonActiveSegmentAfterAppendFailure` | packages/react-native-nitro-amplitude/cpp/core/JsonlSegmentStore.cpp:375-384 | giving the segment up leaves the store ready and both views unchanged |
| `JsonlSegmentStores.JsonlSegmentStore.AppendOnce` | packages/react-native-nitro-amplitude/cpp/core/JsonlSegmentStore.cpp:321-353 | one attempt appends the line to the state before it, or leaves a ready store with unchanged contents |
| `JsonlSegmentStores.JsonlSegmentStore.RecoverFromFailedAppend` | packages/react-native-nitro-amplitude/cpp/core/JsonlSegmentStore.cpp:334-353 | after any failed append, with any outcome of probe, truncate and remove, the store is ready and both views are unchanged; if none of these calls fails it is back at the segment it was at |
| `JsonlSegmentStores.JsonlSegmentStore.AppendLineLocked` | packages/react-native-nitro-amplitude/cpp/core/JsonlSegmentStore.cpp:316-356 | the line is appended once, or nothing has changed and a file call has failed or appends are disabled |
| `JsonlSegmentStores.JsonlSegmentStore.AnySegmentMissing` | packages/react-native-nitro-amplitude/cpp/core/JsonlSegmentStore.cpp:145-152 | no recorded segment is ever missing while only the store changes its files |
| `JsonlSegmentStores.JsonlSegmentStore.SetLocked` | packages/react-native-nitro-amplitude/cpp/core/JsonlSegmentStore.cpp:274-314 | a set that succeeds is one update of both maps; one that throws changes neither; the reason for each refusal; unless a call failed, the segment of the replaced record, if it is not the active one, is left without garbage or less than half dead |
| `JsonlSegmentStores.JsonlSegmentStore.SetDisk` | packages/react-native-nitro-amplitude/cpp/core/JsonlSegmentStore.cpp:557-560 | update on success, no change otherwise; at every instant the disk holds the map before or the map after; unless a call failed, the next segment is opened only if the active one has no room for the line |
| `JsonlSegmentStores.JsonlSegmentStore.DeleteDisk` | packages/react-native-nitro-amplitude/cpp/core/JsonlSegmentStore.cpp:592-611 | a visible key is removed from both maps, an invisible one is left alone; at every instant before or after, never a third map; unless a call failed, the segment of the deleted record is left without garbage or less than half dead, and the next segment is opened only if the active one has no room |
| `JsonlSegmentStores.DeleteLastKey` | packages/react-native-nitro-amplitude/cpp/core/JsonlSegmentStore.cpp:592-611 | deleting the last live key of a segment with nothing below it leaves nothing of that segment, not even a deletion, unless a call failed |
| `JsonlSegmentStores.JsonlSegmentStore.GetDisk` | packages/react-native-nitro-amplitude/cpp/core/JsonlSegmentStore.cpp:562-590 | a value that is returned is the replayed one; none is returned only if there is none or a file call failed |
| `JsonlSegmentStores.JsonlSegmentStore.HasDisk` | packages/react-native-nitro-amplitude/cpp/core/JsonlSegmentStore.cpp:613-616 | answers whether the visible map has the key; a load on the way keeps the map at every instant |
| `JsonlSegmentStores.JsonlSegmentStore.GetAllDiskKeys` | packages/react-native-nitro-amplitude/cpp/core/JsonlSegmentStore.cpp:618-629 | lists the keys of the visible map, or throws after a failed call; a load on the way keeps the map at every instant |
| `JsonlSegmentStores.JsonlSegmentStore.MigrateLegacyEntries` | packages/react-native-nitro-amplitude/cpp/core/JsonlSegmentStore.cpp:631-646 | takes exactly the entries whose key has no visible value, up to the first that fails; returns how many keys became visible; at every instant the disk holds what some number of them leave |
| `StoreRuns.Step` | packages/react-native-nitro-amplitude/cpp/bindings/HybridAmplitudeStorageTest.cpp:3416-3469 | any command with any failures does to both maps what the reference does, or is refused; refused only after a failed call, for an unwritable record, or with appends disabled; reads are exact when no call fails |
| `StoreRuns.RunSession` | packages/react-native-nitro-amplitude/cpp/bindings/HybridAmplitudeStorageTest.cpp:3416-3469 | any session on any disk: truthful reads, the disk replays to the reference map, and every disk while command i runs holds what the first i or the first i + 1 commands leave; when no file call fails, every segment is readable and every reply is the one the reference gives |
| `StoreRuns.Run` | packages/react-native-nitro-amplitude/cpp/bindings/HybridAmplitudeStorageTest.cpp:3416-3469 | any number of sessions, each with its own limits and unreadable segments, one after the other on the same directory; when no file call fails, every session reads everything and answers exactly |
| `StoreRuns.FaultlessRunIsPlainMap` | packages/react-native-nitro-amplitude/cpp/bindings/HybridAmplitudeStorageTest.cpp:3416-3469 | when no file call fails, the commands of all sessions alone decide every reply and the final map: one plain map answers the same |
| `StoreRuns.ReopeningIsInvisible` | packages/react-native-nitro-amplitude/cpp/bindings/HybridAmplitudeStorageTest.cpp:3416-3469 | when every segment is readable, any run of sessions leaves what its commands leave in one plain map |
| `StoreRuns.AcknowledgedIsDurable` | packages/react-native-nitro-amplitude/cpp/core/JsonlSegmentStore.cpp:557-611 | wherever the process stops, no command that was answered is missing on the disk and none that was not asked for is there |
| `StoreRuns.StepwiseSnoc` | packages/react-native-nitro-amplitude/cpp/core/JsonlSegmentStore.cpp:557-611 | one more command, which passes only through disks of before and after, keeps that history |
| `WorkerProtocol.InvariantAlways` | packages/react-native-nitro-amplitude/cpp/bindings/HybridAmplitudeWorker.cpp:96-294 | the invariant holds in every state of every interleaving of callers and the two threads |
| `WorkerProtocol.TakeKeeps` | packages/react-native-nitro-amplitude/cpp/bindings/HybridAmplitudeWorker.cpp:221-239 | popping under the lock keeps first-in first-out order, single ownership and the byte and count bounds |
| `WorkerProtocol.ReportedExactlyOnce` | packages/react-native-nitro-amplitude/cpp/bindings/HybridAmplitudeWorker.cpp:229-293 | an accepted request is queued, held by a worker, or reported exactly once, and nothing else is reported |
| `WorkerProtocol.NothingLeftBehind` | packages/react-native-nitro-amplitude/cpp/bindings/HybridAmplitudeWorker.cpp:96-107 | once both threads have left, every accepted request has been reported once and both tables are empty |
| `WorkerProtocol.IdleTablesEmpty` | packages/react-native-nitro-amplitude/cpp/bindings/HybridAmplitudeWorker.cpp:201-214 | whenever nothing is queued or held, no cancel mark and no active generation is left |
| `WorkerProtocol.ShutdownDrains` | packages/react-native-nitro-amplitude/cpp/bindings/HybridAmplitudeWorker.cpp:96-107 | after a stop every run of the threads is finite, and ends with all requests reported once |
| `WorkerProtocol.DrainReportsAll` | packages/react-native-nitro-amplitude/cpp/bindings/HybridAmplitudeWorker.cpp:216-294 | the same from any stopped state in which a thread is left or the queue is empty |
| `WorkerProtocol.DrainDecreases` | packages/react-native-nitro-amplitude/cpp/bindings/HybridAmplitudeWorker.cpp:216-294 | every step of a stopped worker lowers a measure |
| `WorkerProtocol.StopNeverHangs` | packages/react-native-nitro-amplitude/cpp/bindings/HybridAmplitudeWorker.cpp:96-101 | until both threads have left, some step other than a spurious wake-up can happen: the stop signal is never lost |
| `WorkerProtocol.QueueNeverHangs` | packages/react-native-nitro-amplitude/cpp/bindings/HybridAmplitudeWorker.cpp:148-222 | while requests wait, some step other than a spurious wake-up can happen: no notification is lost |
| `WorkerProtocol.AcceptedAfterExitNeverReported` | packages/react-native-nitro-amplitude/cpp/bindings/HybridAmplitudeWorker.cpp:109-149 | enqueue does not look at the running flag: a request accepted after the last thread has left is never reported, whatever happens next |
| `WorkerProtocol.AcceptedWhenStoppedIsReportedIff` | packages/react-native-nitro-amplitude/cpp/bindings/HybridAmplitudeWorker.cpp:109-149 | a request accepted by a stopped worker is reported, once the threads have done all they can, if and only if a thread was left when it was accepted |
| `WorkerProtocol.RequestAfterLastExit` | packages/react-native-nitro-amplitude/cpp/bindings/HybridAmplitudeWorker.cpp:96-149 | the run from the start in which it is not: stop, both threads leave, enqueue |
| `WorkerProtocol.CancelPicksNewest` | packages/react-native-nitro-amplitude/cpp/bindings/HybridAmplitudeWorker.cpp:151-158 | a cancel marks the newest active request of its id, and nothing when there is none |
| `WorkerProtocol.CancelledWhileQueuedIsNeverSent` | packages/react-native-nitro-amplitude/cpp/bindings/HybridAmplitudeWorker.cpp:229-248 | a request cancelled while it waits never reaches the adapter, in any continuation, and is reported as cancelled if at all |
| `WorkerProtocol.ActiveIncreases` | packages/react-native-nitro-amplitude/cpp/bindings/HybridAmplitudeWorker.cpp:142-143 | the active generations of an id are in increasing order |
| `WorkerProtocol.ActiveRetired` | packages/react-native-nitro-amplitude/cpp/bindings/HybridAmplitudeWorker.cpp:207-213 | retiring takes a generation out and leaves the order of the others |
| `WorkerProtocol.StoppedSendsNothing` | packages/react-native-nitro-amplitude/cpp/bindings/HybridAmplitudeWorker.cpp:231-236 | after a stop nothing more is handed to the adapter, in any continuation |
| `WorkerHistory.EnqueuedOnce` | packages/react-native-nitro-amplitude/cpp/bindings/HybridAmplitudeWorker.cpp:142 | a request enqueued later gets the higher generation, over any run, so no two share one |
| `WorkerHistory.ReportsComeFromTheRun` | packages/react-native-nitro-amplitude/cpp/bindings/HybridAmplitudeWorker.cpp:241-293 | in every run from the start each report goes back to the one call that enqueued its request; a completion carries a result the adapter gave while a worker was sending that very request, and for a cancelled one the adapter gave none |
| `HybridAmplitudeWorkers.HybridAmplitudeWorker.Enqueue` | packages/react-native-nitro-amplitude/cpp/bindings/HybridAmplitudeWorker.cpp:109-149 | accepts exactly the requests that are well formed and find fewer than 100 queued and room within 64 MiB, counted with all header names and values; adds them to queue, table and counters |
| `HybridAmplitudeWorkers.HybridAmplitudeWorker.CancelRequest` | packages/react-native-nitro-amplitude/cpp/bindings/HybridAmplitudeWorker.cpp:151-158 | the mark goes to the newest active generation of the id |
| `HybridAmplitudeWorkers.HybridAmplitudeWorker.TakeRequest` | packages/react-native-nitro-amplitude/cpp/bindings/HybridAmplitudeWorker.cpp:221-239 | pops the oldest request and sends or drops it; the byte counter stays exact, so its clamp never takes effect |
| `HybridAmplitudeWorkers.HybridAmplitudeWorker.RetireGeneration` | packages/react-native-nitro-amplitude/cpp/bindings/HybridAmplitudeWorker.cpp:201-214 | the table keeps listing exactly the generations queued or held and not retired; the request becomes the report of how it ended |
| `HybridAmplitudeWorkers.HybridAmplitudeWorker.FinishRequest` | packages/react-native-nitro-amplitude/cpp/bindings/HybridAmplitudeWorker.cpp:283 | an answered request leaves the in-flight count, and nothing else changes but its worker |
| `HybridAmplitudeWorkers.HybridAmplitudeWorker.StopWorkers` | packages/react-native-nitro-amplitude/cpp/bindings/HybridAmplitudeWorker.cpp:96-101 | clears the running flag under the lock; queue, tables and counters stay |
| `HybridAmplitudeWorkers.HybridAmplitudeWorker.NotifyComplete` | packages/react-native-nitro-amplitude/cpp/bindings/HybridAmplitudeWorker.cpp:241-312 | listeners are told the id of the accepted request of that generation, with the result's status, body and error, or with status 0 and the error cancelled |
| `HybridAmplitudeWorkers.HybridAmplitudeWorker.Counters` | packages/react-native-nitro-amplitude/cpp/bindings/HybridAmplitudeWorker.cpp:185-199 | at most 100 requests queued and 2 in flight; at most one queued or at most 64 MiB pending |
| `FetchOrdering.StoreKnows` | packages/react-native-nitro-amplitude/src/experiment/experimentClient.ts:889-955 | after any responses in any order, what cache and sequence numbers hold about every flag |
| `FetchOrdering.NewestWinsIffSettled` | packages/react-native-nitro-amplitude/src/experiment/experimentClient.ts:889-955 | each flag ends with what the newest response covering it says, in every order of arrival, if and only if no per-key response lacks a flag that some full response supplies |
| `FetchOrdering.OrderDoesNotMatter` | packages/react-native-nitro-amplitude/src/experiment/experimentClient.ts:889-955 | under that condition the cache depends on the set of responses only |
| `FetchOrdering.CompleteResponsesSettle` | packages/react-native-nitro-amplitude/src/experiment/experimentClient.ts:922-951 | per-key responses that supply every requested key meet the condition |
| `FetchOrdering.UnsettledEndsWrong` | packages/react-native-nitro-amplitude/src/experiment/experimentClient.ts:902-911 | otherwise some order of arrival ends with a value the newest response does not have |
| `FetchOrdering.DroppedFlagComesBack` | packages/react-native-nitro-amplitude/src/experiment/experimentClient.ts:902-911 | a concrete run: an older full response brings back a flag a newer per-key response removed |
| `FetchOrdering.StaleIsIgnored` | packages/react-native-nitro-amplitude/src/experiment/experimentClient.ts:896-902 | a response from before the last full one or the last invalidation changes nothing |
| `FetchLifecycle.NewestWinsAlways` | packages/react-native-nitro-amplitude/src/experiment/experimentClient.ts:750-815 | in every run of fetches, failures, invalidations and the load, a flag that is settled shows what the newest response since the last invalidation says, unless the load changed it after something had been written and no response has decided it since |
| `FetchLifecycle.LoadKeepsNewestIff` | packages/react-native-nitro-amplitude/src/experiment/storage/cache.ts:181-219 | when the load settles, a settled flag goes on showing the newest response if and only if nothing had been stored or cleared before, or what was persisted for it is what was cached anyway |
| `FetchLifecycle.ResponseHeals` | packages/react-native-nitro-amplitude/src/experiment/experimentClient.ts:889-955 | a flag the load has changed is right again once a newer response decides it |
| `FetchLifecycle.ClearedStaysEmptyIff` | packages/react-native-nitro-amplitude/src/experiment/storage/cache.ts:181-219 | over any run without responses a cleared cache is still empty if and only if no load has settled that found something |
| `FetchLifecycle.LoadReplacesNewerResponse` | packages/react-native-nitro-amplitude/src/experiment/experimentClient.ts:152-156 | a run in which a full response is stored and the load then brings the older persisted variants back |
| `FetchLifecycle.LoadUndoesClear` | packages/react-native-nitro-amplitude/src/experiment/experimentClient.ts:152-156 | a run in which the load undoes a clear |
| `FetchLifecycle.InvalidationFences` | packages/react-native-nitro-amplitude/src/experiment/experimentClient.ts:750-757 | after an invalidation or a clear no fetch begun earlier ever changes a variant, a freshness field or the retries |
| `FetchLifecycle.StaleFetchChangesNothing` | packages/react-native-nitro-amplitude/src/experiment/experimentClient.ts:785-814 | however a stale fetch ends, callers see no change |
| `FetchLifecycle.MetadataNeverDecreases` | packages/react-native-nitro-amplitude/src/experiment/experimentClient.ts:788-805 | the metadata sequence number never decreases over any run |
| `FetchFreshness.LastFetchTimeIs` | packages/react-native-nitro-amplitude/src/experiment/experimentClient.ts:783-795 | in every run the time of the last fetch is that of the last success that came from the newest fetch there was news of when it came, its own response stored; it is missing exactly if there was none |
| `FetchFreshness.LastFetchFailureIs` | packages/react-native-nitro-amplitude/src/experiment/experimentClient.ts:783-804 | in every run the last failure is missing exactly if the newest fetch there was news of succeeded or none has ended; otherwise it is that fetch's error |
| `FetchFreshness.NotedIffNewest` | packages/react-native-nitro-amplitude/src/experiment/experimentClient.ts:788-804 | the comparison of sequence numbers picks exactly the ends of the newest fetch, over every history of responses, failures and invalidations |
| `FetchFreshness.RetryingIff` | packages/react-native-nitro-amplitude/src/experiment/experimentClient.ts:770-812 | in every run retries are under way exactly if a fetch that may retry failed in a way worth it, in the current generation, and since then no such fetch has begun, nobody stopped retries and nothing was invalidated |
| `FetchFreshness.LaterFetchesAreHigher` | packages/react-native-nitro-amplitude/src/experiment/experimentClient.ts:777-779 | a fetch that begins later has the higher number, over any run |
| `ExperimentClients.FetchAlone` | packages/react-native-nitro-amplitude/src/experiment/experimentClient.ts:758-795 | a fetch whose response comes in and is written before anything else happens, on any client: it is stored, decides what it is about, is fresh as of now and leaves no failure |
| `ExperimentClients.FailAlone` | packages/react-native-nitro-amplitude/src/experiment/experimentClient.ts:796-815 | a fetch that fails before anything else happens: its error is the last failure, the last time stays, and retries run exactly if it may retry and that is worth it |
| `ExperimentClients.ExperimentClient.RetainNewerKeys` | packages/react-native-nitro-amplitude/src/experiment/experimentClient.ts:903-911 | the loop retains exactly the cached variants of newer per-key responses and forgets the older sequence numbers |
| `ExperimentClients.ExperimentClient.StoreFullResponse` | packages/react-native-nitro-amplitude/src/experiment/experimentClient.ts:895-921 | a full response replaces the cache but for what newer per-key responses own |
| `ExperimentClients.ExperimentClient.StoreKeyResponse` | packages/react-native-nitro-amplitude/src/experiment/experimentClient.ts:922-951 | a per-key response decides exactly the flags nothing newer has decided |
| `ExperimentClients.ExperimentClient.StoreVariants` | packages/react-native-nitro-amplitude/src/experiment/experimentClient.ts:889-958 | tells whether anything changed, and queues one snapshot exactly then |
| `ExperimentClients.ExperimentClient.InvalidateFetches` | packages/react-native-nitro-amplitude/src/experiment/experimentClient.ts:750-757 | every number a fetch in flight could hold now lies below the fence |
| `ExperimentClients.ExperimentClient.SetUser` | packages/react-native-nitro-amplitude/src/experiment/experimentClient.ts:494-505 | another user invalidates, the same user does not |
| `ExperimentClients.ExperimentClient.BeginFetch` | packages/react-native-nitro-amplitude/src/experiment/experimentClient.ts:770-779 | a fetch takes the next sequence number and the current generation; one that may retry ends the retries |
| `ExperimentClients.ExperimentClient.FinishFetch` | packages/react-native-nitro-amplitude/src/experiment/experimentClient.ts:785-795 | records the time and clears the failure exactly when the fetch's response is the newest stored one and nothing newer has been noted |
| `ExperimentClients.ExperimentClient.SettleLoad` | packages/react-native-nitro-amplitude/src/experiment/storage/cache.ts:181-219 | whatever the cache holds is replaced by what was read; sequence numbers and queued snapshots stay |
| `ExperimentClients.ExperimentClient.Start` | packages/react-native-nitro-amplitude/src/experiment/experimentClient.ts:187-198 | a client that is not running starts to run and takes the user; one that is running ignores the call |
| `ExperimentClients.ExperimentClient.Stop` | packages/react-native-nitro-amplitude/src/experiment/experimentClient.ts:222-240 | a running client invalidates; one that is not running only ends its retries |
| `ExperimentClients.ExperimentClient.Clear` | packages/react-native-nitro-amplitude/src/experiment/experimentClient.ts:454-458 | empties the cache, fences what is in flight and queues the empty snapshot |
| `ExperimentClients.ExperimentClient.FailFetch` | packages/react-native-nitro-amplitude/src/experiment/experimentClient.ts:796-812 | a failure is recorded only if it is newer than what is stored, and restarts retries only in its own generation |
| `ExperimentClients.LoadStoreCache.Store` | packages/react-native-nitro-amplitude/src/experiment/storage/cache.ts:221-226 | a snapshot is queued behind the earlier ones |
| `ExperimentClients.LoadStoreCache.Settle` | packages/react-native-nitro-amplitude/src/experiment/storage/cache.ts:221-226 | writes land or fail one by one in the order they were asked for |
| `ExperimentClients.LastSuccessCounts` | packages/react-native-nitro-amplitude/src/experiment/storage/cache.ts:221-226 | storage holds the last snapshot whose write succeeded; none asked for earlier overtakes it |
| `BrowserStringStorages.RunCalls` | packages/react-native-nitro-amplitude/src/native/browser-string-storage.ts:35-170 | any calls through any number of storages over a localStorage that may fail at any time: every get is answered with what the last call that reaches its namespaced key left, or else the durable item at namespace::key; only an untouched key can be missed |
| `BrowserStringStorages.SetResetGet` | packages/react-native-nitro-amplitude/src/native/browser-string-storage.ts:38-160 | after a set and a reset of its namespace every key of it is answered with nothing |
| `BrowserStringStorages.SetTwo` | packages/react-native-nitro-amplitude/src/native/browser-string-storage.ts:38-78 | distinct keys of one storage never answer for each other |
| `BrowserStringStorages.ReadDurable` | packages/react-native-nitro-amplitude/src/native/browser-string-storage.ts:38-61 | a storage over untouched maps reads the durable item at namespace::key |
| `BrowserStringStorages.BrowserStringStorage.Get` | packages/react-native-nitro-amplitude/src/native/browser-string-storage.ts:38-61 | the effect of the latest set, removal or reset that concerns namespace::key; else the durable item there, or nothing when localStorage cannot be reached |
| `BrowserStringStorages.BrowserStringStorage.Set` | packages/react-native-nitro-amplitude/src/native/browser-string-storage.ts:63-78 | this key shows the value and every other key of the storage what it showed, also over a missing or throwing localStorage; the item at namespace::key is durable unless a call failed |
| `BrowserStringStorages.BrowserStringStorage.Remove` | packages/react-native-nitro-amplitude/src/native/browser-string-storage.ts:80-95 | this key shows nothing and every other key of the storage what it showed; the durable item is gone unless a call failed |
| `BrowserStringStorages.BrowserStringStorage.Reset` | packages/react-native-nitro-amplitude/src/native/browser-string-storage.ts:97-156 | every key of the storage shows nothing, whatever is enumerated or removed before a call throws, with nested prefixes; when nothing throws, exactly the durable items of the namespace are gone and no reset needs to be remembered |
| `BrowserStringStorages.ModuleState.ResetRevisionForKey` | packages/react-native-nitro-amplitude/src/native/browser-string-storage.ts:18-26 | finds the newest reset that covers a key |
| `BrowserStringStorages.ModuleState.RemoveKeys` | packages/react-native-nitro-amplitude/src/native/browser-string-storage.ts:136-147 | removes durable items one by one and overrides those it could not remove |
| `BrowserStorage.SetKeepsRight` | packages/react-native-nitro-amplitude/src/native/browser-string-storage.ts:63-78 | after a set, landed or not, every key still shows its latest operation |
| `BrowserStorage.MarkedKeepsRight` | packages/react-native-nitro-amplitude/src/native/browser-string-storage.ts:97-118 | marking a reset hides all it covers and nothing else |
| `BrowserStorage.ForgottenKeepsRight` | packages/react-native-nitro-amplitude/src/native/browser-string-storage.ts:149-155 | a reset and the narrower ones may be forgotten once nothing of theirs is left |
| `BrowserStorage.ResetKeyStaysGone` | packages/react-native-nitro-amplitude/src/native/browser-string-storage.ts:28-42 | a reset key does not come back until it is set again |
| `WriteBehind.DiskWriteQueue.ScheduleDiskWrite` | packages/react-native-nitro-amplitude/src/native/storage.ts:75-81 | a set changes what callers see at once, and arms the timer with 200 milliseconds unless it is armed |
| `WriteBehind.DiskWriteQueue.FlushPendingDiskWritesInternal` | packages/react-native-nitro-amplitude/src/native/storage.ts:83-117 | a flush changes nothing callers see but its re-entrant sets; it empties the queue onto the disk and starts counting retries anew, or a storage call failed, one more retry is counted and a timer is armed with its delay or a set's |
| `WriteBehind.DiskWriteQueue.WriteRound` | packages/react-native-nitro-amplitude/src/native/storage.ts:95-109 | a batch that fails after any prefix, with re-entrant sets in between, keeps what callers see |
| `WriteBehind.DiskWriteQueue.DropWritten` | packages/react-native-nitro-amplitude/src/native/storage.ts:103-108 | drops exactly the entries the batch wrote that have not been replaced meanwhile |
| `WriteBehind.DiskWriteQueue.TimerFires` | packages/react-native-nitro-amplitude/src/native/storage.ts:56-63 | a timer flush keeps what callers see; no waiting write is stranded |
| `WriteBehind.DiskWriteQueue.GetRaw` | packages/react-native-nitro-amplitude/src/native/storage.ts:195-203 | a read that does not fail returns the disk overlaid with the waiting writes |
| `WriteBehind.DiskWriteQueue.Remove` | packages/react-native-nitro-amplitude/src/native/storage.ts:209-214 | the exact outcome, also when the storage throws after the waiting write was discarded |
| `WriteBehind.DiskWriteQueue.Reset` | packages/react-native-nitro-amplitude/src/native/storage.ts:216-224 | the exact outcome, also when listing or removing throws part-way |
| `WriteBehind.FailedRemoveChangesNothingIff` | packages/react-native-nitro-amplitude/src/native/storage.ts:209-214 | a removal that throws leaves what callers see if and only if no different value was waiting |
| `WriteBehind.FailedResetChangesNothingIff` | packages/react-native-nitro-amplitude/src/native/storage.ts:216-224 | a reset that throws leaves what callers see if and only if it removed nothing and no different value was waiting under the prefix |
| `WriteBehind.OlderValueIsBack` | packages/react-native-nitro-amplitude/src/native/storage.ts:209-224 | concrete inputs for both: an older value on disk, a newer one waiting, and the storage throws |
| `WriteBehind.WrittenCanBeDropped` | packages/react-native-nitro-amplitude/src/native/storage.ts:95-109 | dropping written entries is invisible to callers |
| `WriteBehind.RetryDelayBacksOff` | packages/react-native-nitro-amplitude/src/native/storage.ts:66-73 | retry delays grow and never exceed five seconds |
| `WriteBehind.RetryDelaysAre` | packages/react-native-nitro-amplitude/src/native/storage.ts:66-73 | the delays are 200, 400, 800, 1600, 3200 and from then on 5000 milliseconds |
| `LegacyMigration.MigrateLegacyDiskEntries` | packages/react-native-nitro-amplitude/cpp/core/LegacyDiskMigration.hpp:23-39 | every handled entry is in the store or is a record it will never take; values already visible stay; the replay of all files gains exactly what has become visible; at every instant nothing of it is missing, and the source is whole |
| `LegacyMigration.LegacyDiskMigrator.EnsureMigrated` | packages/react-native-nitro-amplitude/cpp/core/LegacyDiskMigration.hpp:51-72 | whatever throws, every entry is still in source or store but for unstorable records, only storable ones become visible, and no visible value changes; what was imported has left the source, unless the source threw; an armed migration finishes unless a call failed or appends are disabled; wherever it stops while importing, the disk has lost nothing |
| `LegacyMigration.LegacyDiskMigrator.Forget` | packages/react-native-nitro-amplitude/cpp/core/LegacyDiskMigration.hpp:79-88 | a deleted key leaves the source too, unless the source throws |
| `LegacyMigration.MigratingStorage.SetDisk` | packages/react-native-nitro-amplitude/cpp/core/LegacyDiskMigration.hpp:104-111 | a migration that is due is made unless a call fails, and conserves; then the set is one update of both maps; a success, and nothing else, arms the next migration |
| `LegacyMigration.MigratingStorage.DeleteDisk` | packages/react-native-nitro-amplitude/cpp/core/LegacyDiskMigration.hpp:118-124 | a migration that is due is made unless a call fails, and conserves; then the key leaves the store, and the source if that does not throw |
| `LegacyMigration.MigratingStorage.GetDisk` | packages/react-native-nitro-amplitude/cpp/core/LegacyDiskMigration.hpp:113-116 | a migration that is due is made unless a call fails, and conserves; a returned value is the visible one, and none is returned only without a store, without a visible value, or after a failed call |
| `LegacyRuns.FirstRead` | packages/react-native-nitro-amplitude/cpp/core/LegacyDiskMigration.hpp:62-83 | the first read after an update, when nothing fails: the source is empty and the answer is the store's own value, or else the legacy value if the store takes it |
| `LegacyRuns.RunsConserve` | packages/react-native-nitro-amplitude/cpp/core/LegacyDiskMigration.hpp:51-124 | over any run of partial migrations, retries, sets and deletions a key the app does not touch keeps its value, unless it is a legacy record the store never takes; no key appears from nowhere, and only storable entries of the source become visible |
| `LegacyRuns.RunApp` | packages/react-native-nitro-amplitude/cpp/core/LegacyDiskMigration.hpp:91-124 | the classes do so: any calls over any number of restarts are such a run, as long as every session reads every segment, which is certain when no file call fails |
| `LegacyRuns.RunAppSession` | packages/react-native-nitro-amplitude/cpp/core/LegacyDiskMigration.hpp:91-124 | the same for one session, whatever segments it cannot read |
| `LegacyRuns.UntouchedIsConserved` | packages/react-native-nitro-amplitude/cpp/core/LegacyDiskMigration.hpp:51-124 | over all restarts a key that no call sets or deletes is conserved |
| `LegacyRuns.HeldOverRestarts` | packages/react-native-nitro-amplitude/cpp/core/LegacyDiskMigration.hpp:91-124 | over any restarts, whatever segments each session cannot read: an untouched key stays in the source or on the disk, with one of their values, unless the store never takes it or a deletion out of sight made a session pass over it |
| `LegacyRuns.DeletedStaysDeleted` | packages/react-native-nitro-amplitude/cpp/core/LegacyDiskMigration.hpp:79-88 | a key deleted from store and source stays away, whatever is migrated, until it is set again |
| `LegacyRuns.SetStaysSet` | packages/react-native-nitro-amplitude/cpp/core/LegacyDiskMigration.hpp:104-111 | no migration overwrites a value the app has set |
| `LegacyRuns.ConservedTwice` | packages/react-native-nitro-amplitude/cpp/core/LegacyDiskMigration.hpp:51-72 | two migrations in a row conserve as one does |
| `LegacyRuns.FinishedMigration` | packages/react-native-nitro-amplitude/cpp/core/LegacyDiskMigration.hpp:51-72 | a migration that empties the source leaves exactly the storable entries laid under what was visible |
| `LegacyRuns.DeletionComesBackIff` | packages/react-native-nitro-amplitude/cpp/core/LegacyDiskMigration.hpp:79-88 | when a deletion did not reach the source and the source has let go of the key since, the key is visible again, with its legacy value, if and only if the source held it in a record the store takes |
| `LegacyRuns.DeleteSetAndRead` | packages/react-native-nitro-amplitude/cpp/core/LegacyDiskMigration.hpp:104-124 | the same over the classes: delete, set another key, read |
| `LegacyRuns.DeletedKeyIsImportedAgain` | packages/react-native-nitro-amplitude/cpp/core/LegacyDiskMigration.hpp:51-88 | a run the contracts allow in which it does: the source can neither be cleared nor let go of the key, and the next migration imports it again |
| `LegacyImports.ImportOverwritesHiddenValueIff` | packages/react-native-nitro-amplitude/cpp/core/JsonlSegmentStore.cpp:638-644 | an import changes what the disk says about a key if and only if the key is not visible and the entries say something else; a value it overwrites lies in a segment this session could not read |
| `LegacyImports.ImportAgreesWithFullSessionIff` | packages/react-native-nitro-amplitude/cpp/core/JsonlSegmentStore.cpp:638-644 | exactly when such an import leaves a key as a session would that reads every segment |
| `LegacyImports.NewerValueIsOverwritten` | packages/react-native-nitro-amplitude/cpp/core/JsonlSegmentStore.cpp:638-644 | a two-segment disk on which the legacy value replaces a newer one |
| `LegacyImports.EntryIsPassedOver` | packages/react-native-nitro-amplitude/cpp/core/JsonlSegmentStore.cpp:638-644 | a two-segment disk on which a deletion out of sight makes the import drop an entry |
| `LegacyImports.DeletionDoesNotStopAnImport` | packages/react-native-nitro-amplitude/cpp/core/JsonlSegmentStore.cpp:638-644 | a two-segment disk on which a deleted key is imported again, as every session would |
| `PackageDocs.DocLifecycle.Prepare` | scripts/package-doc-lifecycle.js:1251-1293 | in every state it passes through, and wherever it stops, cleanup would give back the original files; it refuses exactly if a source is missing or an earlier manifest cannot be restored; when done, every target holds its source; with sources and targets apart it stops only after a failed operation |
| `PackageDocs.DocLifecycle.Cleanup` | scripts/package-doc-lifecycle.js:1295-1317 | from any such state the result is the original files; refused exactly if some target may not be replaced, and then files and manifest are as they were |
| `PackageDocs.DocLifecycle.RestoreOriginal` | scripts/package-doc-lifecycle.js:1206-1249 | refuses exactly when some target is in none of the allowed states, and then changes nothing (what those states are after prepare: AllowedAfterEdits) |
| `PackageDocs.DocLifecycle.CopyCanonical` | scripts/package-doc-lifecycle.js:1182-1204 | replaces a target only when source and target are as remembered |
| `PackageDocs.AllowedAfterEdits` | scripts/package-doc-lifecycle.js:1206-1237 | wherever prepare stopped and whatever is edited after it: cleanup accepts exactly if every recorded target holds what prepare left there, and every other one what it held at first or its canonical document, unchanged since prepare began |
| `PackageDocs.PrepareEditCleanup` | scripts/package-doc-lifecycle.js:1251-1317 | prepare, any edits, cleanup: refused exactly if a recorded target was edited or an unrecorded one is in none of its states, with files and manifest unchanged; otherwise every target is back and all other edits stay, unless a call fails |
| `PackageDocs.PreparedIsRestorable` | scripts/package-doc-lifecycle.js:1210-1237 | a prepare stopped after any number of replacements, recorded or not, is accepted by cleanup and restored in full |
| `PackageDocs.NothingInTheWay` | scripts/package-doc-lifecycle.js:1182-1197 | when no source is also a target, prepare finds every remaining source and target as remembered |
| `PackageDocs.RestoreGivesBack` | scripts/package-doc-lifecycle.js:1239-1247 | restoring from a manifest that remembers the files gives them back, path by path |

## Left out

- JsonlSegmentStores.JsonlSegmentStore.AnySegmentMissing: the reload after a directory was deleted by another process (`JsonlSegmentStore.cpp:341-348` and `573-577`) is not modelled further, because while only the store changes its files it never happens.
- JsonlSegmentStores.JsonlSegmentStore.constructor: asks for deletions that look as the store writes them, because on other disks compaction can change the map (`ForeignDeletionIsLost`); `ForeignCompactionChangesKeyIff` says exactly when, for deletions that look any way.
- JsonlSegmentStores.JsonlSegmentStore.Load: asks for the same, for the same reason.
- FileAdapters.FileAdapter.ReadRange: POSIX calls, fsync, permissions and interrupted reads are not modelled; the adapter's contract is what its callers may rely on.
- Stale temporary files: which names count as stale is modelled, their removal at load (`JsonlSegmentStore.cpp:176-178`) and `ensureDirectory` are not, because they do not touch segment files.
- File names that parse to the id of another name (`segment-1.jsonl` beside `segment-00000001.jsonl`) are not modelled; the store never writes them.
- StoreRuns.Run: exact replies are promised for runs whose segment ids cannot run out; a store that has used the last id refuses writes, as the original does.
- HybridAmplitudeWorkers.HybridAmplitudeWorker.NotifyComplete: the registry of listeners and exceptions thrown by them are not modelled; the returned notice is what every listener is told.
- HybridAmplitudeWorkers.HybridAmplitudeWorker.Enqueue: the timeout of a request is not modelled, because it is only passed on to the adapter.
- The HTTP call itself, gzip and the checks on method names: the adapter's answer is any result.
- Failure to start a worker thread, and the joining of the threads and freeing of memory in the destructor.
- ExperimentClients.ExperimentClient.BeginFetch: joining an identical fetch in flight (`inFlightFetches`) and the waiting of the retry backoff are not modelled; a retry that runs is one more fetch.
- ExperimentClients.ExperimentClient.Start: the fetching of flag configurations, the fetch and the polling that follow are not part of the call; a fetch is a step of its own.
- ExperimentClients.ExperimentClient.SettleLoad: legacy namespaces and the transformation of stored variants are not modelled; what the load yields is any variants.
- Flag evaluation, the variant fallback chain, exposure tracking and polling.
- Timers: a timer is armed with a delay or not, and goes off at any time.
- WriteBehind.DiskWriteQueue.FlushPendingDiskWritesInternal: what the storage may call back into during a batch is a finite list of sets and flushes, so that the loop ends; re-entrant removals are not modelled.
- JSON encoding of analytics values, and the in-memory stores of the native binding.
- LegacyRuns.RunApp: the two mutexes of the migrator are not modelled; each call is one step. A stop of the process inside a call is covered call by call (`instants`), not as a step of a run. For sessions that cannot read a segment, what holds across the restart is `HeldOverRestarts`.
- PackageDocs.DocLifecycle.Prepare: lock files, process liveness, symbolic and hard links, directories as targets, temporary files and crashes during a restore are not modelled; a half-restored set of targets may be refused and is left for review.
- PackageDocs.DocLifecycle.RestoreOriginal: validation of a manifest's shape is not modelled; a manifest that belongs to other documents is taken to be refused before.
