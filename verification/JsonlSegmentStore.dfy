/**
  The log-structured segment store (cpp/core/JsonlSegmentStore.cpp): a durable key-value map kept
  as append-only segment files, over a file system in which every call may fail.

  The contracts speak of two maps. The full map is the replay of every segment file; the visible
  map leaves out the segments that could not be read when the directory was loaded.
 */
module JsonlSegmentStores {
  import opened Wrappers
  import opened SegmentCodec
  import opened Replay
  import opened SegmentIndex
  import opened SegmentCompaction
  import opened SegmentInvariant
  import opened SegmentRecovery
  import opened SegmentLoad
  import opened SegmentMoves
  import opened SegmentScan
  import opened FileAdapters

  const DEFAULT_MAX_SEGMENT_BYTES: nat := 1024 * 1024
  const DEFAULT_MAX_RECORD_BYTES: nat := 0xFFFF_FFFF

  datatype AppendResult = Appended | Unavailable | Failed

  /** How a set ends. Everything but Stored is an exception in the original. */
  datatype SetResult = Stored | AppendsUnavailable | AppendFailed | Rejected

  function EffectiveRecordLimit(maxRecordBytes: nat): (limit: nat)
    ensures 0 < limit <= DEFAULT_MAX_RECORD_BYTES
  {
    if maxRecordBytes == 0 || maxRecordBytes > DEFAULT_MAX_RECORD_BYTES then DEFAULT_MAX_RECORD_BYTES
    else maxRecordBytes
  }

  /** The same keys are live, each in the same segment as before. */
  predicate SameSegments(before: Index, after: Index) {
    && before.Keys == after.Keys
    && forall k :: k in before ==> before[k].segment == after[k].segment
  }

  /** A segment that needs no compaction: less than half dead, or without garbage. */
  ghost predicate Tidy(s: Snapshot, seg: nat) {
    Count(s.dead, seg) * 2 < Count(s.bytes, seg) || NoGarbage(s, seg)
  }

  lemma AppendableContent(s: Snapshot, a: nat)
    requires Consistent(s) && Appendable(s, a)
    ensures |Content(s.disk, a)| == Count(s.bytes, a)
    ensures Count(s.bytes, a) == 0 ==> Content(s.disk, a) == []
    ensures Count(s.bytes, a) > 0 ==> a in s.disk
  {
  }

  /** At most this segment's file has changed, and the active one's if it lies above. */
  predicate OnlyTouches(before: Disk, after: Disk, seg: nat, active: nat) {
    forall j :: j in before.Keys + after.Keys && j != seg && !(j == active && active > seg) ==>
      j in before && j in after && before[j] == after[j]
  }

  lemma TouchesInTurn(first: Disk, second: Disk, third: Disk, seg: nat, active: nat)
    requires OnlyTouches(first, second, seg, active) && OnlyTouches(second, third, seg, active)
    ensures OnlyTouches(first, third, seg, active)
  {
    forall j | j in first.Keys + third.Keys && j != seg && !(j == active && active > seg)
      ensures j in first && j in third && first[j] == third[j]
    {
      assert j in first.Keys + second.Keys && j in second.Keys + third.Keys;
    }
  }

  lemma ReplaceTouches(s: Snapshot, seg: nat, comp: Compaction, active: nat)
    ensures OnlyTouches(s.disk, AfterCompaction(s, seg, comp).disk, seg, active) && OnlyTouches(s.disk, s.disk, seg, active)
  {
  }

  lemma NothingTouched(disk: Disk, seg: nat, active: nat)
    ensures OnlyTouches(disk, disk, seg, active)
  {
  }

  lemma MoveTouches(s: Snapshot, seg: nat, a: nat, tombstones: Bytes)
    requires seg < a
    ensures OnlyTouches(s.disk, AfterMerge(s, a, tombstones).disk, seg, a)
    ensures OnlyTouches(s.disk, AfterMerge(s, a, tombstones).disk - {seg}, seg, a)
  {
  }

  predicate NoEntryIn(index: Index, seg: nat) {
    forall k :: k in index ==> index[k].segment != seg
  }

  /** A readable segment other than the active one that holds lines but no live record is free of garbage. */
  ghost predicate NothingDead(s: Snapshot, active: nat) {
    forall id :: id in s.disk && id != active ==> CleanIfDead(s, id)
  }

  ghost predicate CleanIfDead(s: Snapshot, id: nat) {
    id !in s.hidden && CompleteLength(s.disk, id) > 0 && NoEntryIn(s.index, id) ==> NoGarbage(s, id)
  }

  /** What has been reclaimed so far, and what has not been touched. */
  ghost predicate ReclaimedUpTo(before: Snapshot, now: Snapshot, ids: seq<nat>, n: nat, active: nat) {
    && SameSegments(before.index, now.index) && now.hidden == before.hidden
    && (forall j :: 0 <= j < n && j < |ids| ==> NoGarbage(now, ids[j]))
    && (forall id :: id in before.disk.Keys + now.disk.Keys && id !in ids && id != active ==>
          id in before.disk && id in now.disk && before.disk[id] == now.disk[id])
  }

  lemma NothingReclaimed(s: Snapshot, ids: seq<nat>, active: nat)
    ensures ReclaimedUpTo(s, s, ids, 0, active)
  {
    hide NoGarbage;
  }

  /** Compacting a higher segment adds no garbage to one without live records. */
  lemma CompactionStaysAbove(s: Snapshot, t: Snapshot, id: nat, seg: nat, active: nat)
    requires NoGarbage(s, id) && NoEntryIn(s.index, id) && id < seg
    requires OnlyTouches(s.disk, t.disk, seg, active) && SameSegments(s.index, t.index) && t.hidden == s.hidden
    ensures NoGarbage(t, id)
  {
    hide Records, Complete, CompletePrefixLength, DeletesOnce;
    assert Content(t.disk, id) == Content(s.disk, id);
    forall j: nat | j < id
      ensures CompleteLength(t.disk, j) == CompleteLength(s.disk, j)
    {
      assert Content(t.disk, j) == Content(s.disk, j);
    }
    assert NothingBelow(s, id) <==> NothingBelow(t, id);
    var rs := Records(Content(s.disk, id));
    forall i | 0 <= i < |rs|
      ensures Needed(rs[i], t.index, id)
    {
      assert Needed(rs[i], s.index, id);
    }
  }

  lemma ReclaimedOneMore(before: Snapshot, s: Snapshot, t: Snapshot, ids: seq<nat>, n: nat, active: nat)
    requires ReclaimedUpTo(before, s, ids, n, active) && n < |ids| && Ascending(ids)
    requires forall id :: id in ids ==> NoEntryIn(before.index, id)
    requires OnlyTouches(s.disk, t.disk, ids[n], active) && SameSegments(s.index, t.index) && t.hidden == s.hidden
    requires NoGarbage(t, ids[n])
    ensures ReclaimedUpTo(before, t, ids, n + 1, active)
  {
    hide NoGarbage;
    forall j | 0 <= j < n
      ensures NoGarbage(t, ids[j])
    {
      assert ids[j] < ids[n] && ids[j] in ids;
      CompactionStaysAbove(s, t, ids[j], ids[n], active);
    }
    forall id | id in before.disk.Keys + t.disk.Keys && id !in ids && id != active
      ensures id in before.disk && id in t.disk && before.disk[id] == t.disk[id]
    {
      assert id != ids[n];
      assert id in s.disk.Keys + t.disk.Keys;
      assert id in before.disk.Keys + s.disk.Keys;
    }
  }

  /** Once every candidate is reclaimed, no segment is left that holds only garbage. */
  lemma AllReclaimed(before: Snapshot, now: Snapshot, ids: seq<nat>, active: nat)
    requires Consistent(before) && ReclaimedUpTo(before, now, ids, |ids|, active)
    requires forall id :: id in before.bytes && id != active && before.bytes[id] > 0 && Count(before.dead, id) >= before.bytes[id] ==> id in ids
    ensures NothingDead(now, active)
  {
    forall id | id in now.disk && id != active && id !in now.hidden && CompleteLength(now.disk, id) > 0 && NoEntryIn(now.index, id)
      ensures NoGarbage(now, id)
    {
      if id !in ids {
        assert id in before.disk.Keys + now.disk.Keys;
        DeadIsCandidate(before, id);
        assert false;
      }
      var j :| 0 <= j < |ids| && ids[j] == id;
    }
    hide NoGarbage, Consistent, CompletePrefixLength;
  }

  lemma DeadIsCandidate(s: Snapshot, id: nat)
    requires Consistent(s) && id !in s.hidden && CompleteLength(s.disk, id) > 0 && NoEntryIn(s.index, id)
    ensures id in s.bytes && s.bytes[id] > 0 && Count(s.dead, id) >= s.bytes[id]
  {
    LiveNone(s.index, id);
    assert Count(s.dead, id) + LiveBytes(s.index, id) == Count(s.bytes, id);
    hide LiveBytes, CompletePrefixLength, IndexMatches;
  }

  lemma NothingMoves(index: Index, seg: nat, moved: Index)
    requires moved.Keys == set k | k in index && index[k].segment == seg
    ensures NoEntryIn(index, seg) ==> |moved| == 0
  {
    if NoEntryIn(index, seg) {
      assert moved.Keys == {};
      assert moved == map[];
    }
  }

  /** Only segments with a line this session cannot use are marked as partially read. */
  ghost predicate MarkedForCause(marked: set<nat>, first: Disk, limit: nat) {
    forall id :: id in marked ==> id in first && HasUnusable(Records(first[id]), limit)
  }

  lemma LoadingReadsFirst(s: Snapshot, first: Disk, todo: set<nat>, id: nat)
    requires Loading(s, first, todo) && id in s.disk
    ensures id in first && Records(s.disk[id]) == Records(first[id])
  {
    hide IndexMatches, Tracked, MarkedUpTo, Records, CompletePrefixLength;
    assert Records(Content(s.disk, id)) == Records(Content(first, id));
  }

  lemma GoneIfNothingToKeep(s: Snapshot, seg: nat)
    ensures NoGarbage(s, seg) && NothingBelow(s, seg) && (forall k :: k in s.index ==> s.index[k].segment != seg) ==> seg !in s.disk
  {
    if NoGarbage(s, seg) && seg in s.disk {
      LeftForAReason(s, seg);
    }
  }

  /** A segment that a compaction has left tidy has no file when nothing in it is live and nothing is below it. */
  lemma TidyAndDead(s: Snapshot, seg: nat)
    requires Consistent(s) && Tidy(s, seg) && NothingBelow(s, seg)
    requires forall k :: k in s.index ==> s.index[k].segment != seg
    ensures seg !in s.disk
  {
    LiveNone(s.index, seg);
    assert Count(s.dead, seg) + LiveBytes(s.index, seg) == Count(s.bytes, seg);
    GoneIfNothingToKeep(s, seg);
    hide Consistent, NoGarbage, NothingBelow, LiveBytes;
  }

  /** Garbage is a matter of the files, the index and what could not be read. */
  lemma GarbageIsOnDisk(s: Snapshot, t: Snapshot, seg: nat)
    requires s.disk == t.disk && s.index == t.index && s.hidden == t.hidden
    ensures NoGarbage(s, seg) <==> NoGarbage(t, seg)
  {
    hide Records, Complete;
    assert NothingBelow(s, seg) <==> NothingBelow(t, seg);
  }

  lemma SameTwice(s: Snapshot, t: Snapshot, u: Snapshot)
    requires SameContents(s, t) && SameContents(t, u)
    ensures SameContents(s, u)
  {
  }

  lemma SameSelf(s: Snapshot)
    ensures SameContents(s, s)
  {
  }

  lemma SameFull(s: Snapshot, t: Snapshot)
    requires SameContents(s, t)
    ensures Replayed(s.disk, s.limit) == Replayed(t.disk, t.limit)
    ensures Replayed(s.disk - s.hidden, s.limit) == Replayed(t.disk - t.hidden, t.limit)
    ensures Consistent(t) ==> Holds(t.disk, t.limit, Full(s))
  {
    hide Replayed, Consistent;
    if Consistent(t) {
      ConsistentHolds(t);
    }
  }

  class JsonlSegmentStore {
    const fileAdapter: FileAdapter
    const maxSegmentBytes: nat
    const maxRecordBytes: nat

    var index: Index
    var segmentBytes: map<nat, nat>
    var segmentDeadBytes: map<nat, nat>
    var unreadableSegments: set<nat>
    var partiallyReadSegments: set<nat>
    var activeSegment: nat
    var appendsDisabled: bool
    var loaded: bool

    ghost function State(): Snapshot
      reads this, fileAdapter
    {
      Snapshot(fileAdapter.files, unreadableSegments, partiallyReadSegments, index, segmentBytes, segmentDeadBytes, maxRecordBytes)
    }

    /** The store may work: what it knows matches the disk, and the active segment is appendable. */
    ghost predicate Ready()
      reads this, fileAdapter
    {
      && loaded
      && Consistent(State())
      && (!appendsDisabled ==> Appendable(State(), activeSegment))
    }

    ghost predicate Valid()
      reads this, fileAdapter
    {
      && 0 < maxRecordBytes <= DEFAULT_MAX_RECORD_BYTES
      && (loaded ==> Ready())
      && (!loaded ==>
            && index == map[] && !appendsDisabled && unreadableSegments == {}
            && Openable(fileAdapter.files))
    }

    /** The replay of every segment file. */
    ghost function FullMap(): Contents
      reads this, fileAdapter
    {
      Replayed(fileAdapter.files, maxRecordBytes)
    }

    /** The replay of the files that could be read when the directory was loaded. */
    ghost function VisibleMap(): Contents
      reads this, fileAdapter
    {
      Replayed(fileAdapter.files - unreadableSegments, maxRecordBytes)
    }

    /** Opens the store on whatever the disk holds. A directory that cannot be listed is tried again later. */
    constructor (fileAdapter: FileAdapter, maxSegmentBytes: nat, maxRecordBytes: nat)
      requires Openable(fileAdapter.files)
      modifies fileAdapter
      ensures Valid() && this.fileAdapter == fileAdapter
      ensures !loaded ==> fileAdapter.files == old(fileAdapter.files)
      ensures this.maxRecordBytes == EffectiveRecordLimit(maxRecordBytes)
      ensures this.maxRecordBytes == if 0 < maxRecordBytes <= 0xFFFF_FFFF then maxRecordBytes else 0xFFFF_FFFF
      ensures this.maxSegmentBytes == if maxSegmentBytes == 0 then 1024 * 1024 else maxSegmentBytes
      ensures FullMap() == Replayed(old(fileAdapter.files), this.maxRecordBytes)
      ensures VisibleSame(old(fileAdapter.files))
      ensures Steady(fileAdapter.instants, old(fileAdapter.instants), this.maxRecordBytes, FullMap())
      ensures fileAdapter.failures >= old(fileAdapter.failures)
      ensures !loaded || unreadableSegments != {} ==> fileAdapter.failures > old(fileAdapter.failures)
      ensures fileAdapter.failures == old(fileAdapter.failures) ==>
                !appendsDisabled && (activeSegment == 0 || activeSegment in old(fileAdapter.files))
      ensures loaded ==> KeepsOutOfReach(old(fileAdapter.files), fileAdapter.files, unreadableSegments, this.maxRecordBytes, activeSegment)
      ensures fileAdapter.failures == old(fileAdapter.failures) ==> NothingDead(State(), activeSegment)
      ensures fileAdapter.failures == old(fileAdapter.failures) ==>
                MarkedForCause(partiallyReadSegments, old(fileAdapter.files), this.maxRecordBytes)
    {
      this.fileAdapter := fileAdapter;
      this.maxSegmentBytes := if maxSegmentBytes == 0 then DEFAULT_MAX_SEGMENT_BYTES else maxSegmentBytes;
      this.maxRecordBytes := EffectiveRecordLimit(maxRecordBytes);
      index, segmentBytes, segmentDeadBytes := map[], map[], map[];
      unreadableSegments, partiallyReadSegments := {}, {};
      activeSegment, appendsDisabled, loaded := 0, false, false;
      new;
      hide Consistent, Appendable, Replayed, Holds, Openable, NothingDead, MarkedForCause;
      var ready := Load();
    }

    // ------------------------------------------------------------ compaction

    /** Appends the deletions to the active segment's file in one atomic write. */
    method MergeIntoActiveSegment(tombstones: Bytes) returns (ok: bool)
      requires Ready() && !appendsDisabled
      modifies this`segmentBytes, this`segmentDeadBytes, fileAdapter
      ensures State() == if ok then AfterMerge(old(State()), activeSegment, tombstones) else old(State())
      ensures fileAdapter.instants == old(fileAdapter.instants)
              || fileAdapter.instants == old(fileAdapter.instants) + [fileAdapter.files]
      ensures fileAdapter.failures >= old(fileAdapter.failures) && (!ok ==> fileAdapter.failures > old(fileAdapter.failures))
    {
      hide Consistent, Appendable;
      AppendableContent(State(), activeSegment);
      var activeBytes := Count(segmentBytes, activeSegment);
      var merged: Bytes := [];
      if activeBytes > 0 {
        var activeContent := fileAdapter.ReadFile(activeSegment);
        if activeContent.None? || |activeContent.value| != activeBytes {
          return false;
        }
        merged := activeContent.value;
      }
      merged := merged + tombstones;
      var written := fileAdapter.WriteFile(activeSegment, merged);
      if !written {
        return false;
      }
      segmentBytes := segmentBytes[activeSegment := |merged|];
      segmentDeadBytes := AddTo(segmentDeadBytes, activeSegment, |tombstones|);
      return true;
    }

    /** Nothing keeps the deletions of this segment from moving to the active one. */
    ghost predicate CanMoveFrom(segment: nat)
      reads this
    {
      !appendsDisabled && segment < activeSegment && forall p :: p in partiallyReadSegments ==> p <= segment
    }

    /** Copies a segment's deletions to the active segment and removes the segment. */
    method MoveTombstonesToActiveSegment(segment: nat, tombstones: Bytes, ghost comp: Compaction) returns (ok: bool)
      requires Ready()
      requires Compacts(State(), segment, comp, true) && comp.rebuilt == tombstones
      requires forall k :: k in index ==> index[k].segment != segment
      modifies this`segmentBytes, this`segmentDeadBytes, fileAdapter
      ensures Ready() && SameContents(old(State()), State())
      ensures Steady(fileAdapter.instants, old(fileAdapter.instants), maxRecordBytes, old(FullMap()))
      ensures !ok ==> Compacts(State(), segment, comp, true)
      ensures ok ==> segment !in fileAdapter.files
      ensures OnlyTouches(old(fileAdapter.files), fileAdapter.files, segment, activeSegment)
      ensures MovedBy(old(State()), segment, activeSegment, comp, ok, State())
      ensures MovedThrough(old(State()), segment, activeSegment, comp, old(fileAdapter.instants), fileAdapter.instants, fileAdapter.files)
      ensures fileAdapter.failures >= old(fileAdapter.failures)
      ensures !ok ==> || appendsDisabled || segment >= activeSegment || (exists p :: p in partiallyReadSegments && p > segment)
                      || fileAdapter.failures > old(fileAdapter.failures)
    {
      hide Consistent, Appendable, SameContents, Compacts, Replayed, Holds, Content, AfterMerge, AfterMove, Moves;
      ghost var before := State();
      SameSelf(before);
      SameFull(before, before);
      if appendsDisabled || segment >= activeSegment || exists p :: p in partiallyReadSegments && p > segment {
        return false;
      }
      MoveAllowed(before, segment, activeSegment, comp);
      MoveStep(before, segment, activeSegment, comp);
      MoveTouches(before, segment, activeSegment, tombstones);
      CompactsAfterMerge(before, segment, activeSegment, comp);
      SameFull(before, AfterMerge(before, activeSegment, tombstones));
      SameFull(before, AfterMove(before, segment, activeSegment, tombstones));
      var merged := MergeIntoActiveSegment(tombstones);
      if !merged {
        return false;
      }
      var removed := fileAdapter.RemoveFile(segment);
      AfterMoveIs(before, segment, activeSegment, tombstones);
      if !removed {
        return false;
      }
      segmentBytes := segmentBytes[segment := 0];
      segmentDeadBytes := segmentDeadBytes[segment := 0];
      return true;
    }

    /** Rewrites a segment's file, or removes it when nothing is left. */
    method InstallFile(segment: nat, rebuilt: Bytes) returns (ok: bool)
      modifies fileAdapter
      ensures fileAdapter.files ==
              if !ok then old(fileAdapter.files)
              else if rebuilt == [] then old(fileAdapter.files) - {segment}
              else old(fileAdapter.files)[segment := rebuilt]
      ensures fileAdapter.instants == old(fileAdapter.instants) + [fileAdapter.files]
      ensures fileAdapter.failures >= old(fileAdapter.failures) && (!ok ==> fileAdapter.failures > old(fileAdapter.failures))
    {
      if rebuilt == [] {
        ok := fileAdapter.RemoveFile(segment);
      } else {
        ok := fileAdapter.WriteFile(segment, rebuilt);
      }
    }

    /** Installs a compaction: the file first, then the index and the counts. */
    method ReplaceSegment(segment: nat, comp: Compaction, ghost lower: bool) returns (ok: bool)
      requires Ready() && Compacts(State(), segment, comp, lower)
      modifies this`index, this`segmentBytes, this`segmentDeadBytes, fileAdapter
      ensures Ready() && SameContents(old(State()), State())
      ensures Steady(fileAdapter.instants, old(fileAdapter.instants), maxRecordBytes, old(FullMap()))
      ensures SameSegments(old(index), index)
      ensures fileAdapter.failures >= old(fileAdapter.failures) && (!ok ==> fileAdapter.failures > old(fileAdapter.failures))
      ensures ok ==> NoGarbage(State(), segment)
      ensures ok && comp.rebuilt == [] ==> segment !in fileAdapter.files
      ensures OnlyTouches(old(fileAdapter.files), fileAdapter.files, segment, activeSegment)
      ensures fileAdapter.files == if ok then AfterCompaction(old(State()), segment, comp).disk else old(fileAdapter.files)
      ensures fileAdapter.instants == old(fileAdapter.instants) + [fileAdapter.files]
    {
      hide Consistent, Appendable, SameContents, Replayed, Holds, AfterCompaction, Compacts, NoGarbage;
      ghost var before := State();
      ghost var after := AfterCompaction(before, segment, comp);
      ReplaceOutcome(before, segment, comp, lower);
      ReplaceTouches(before, segment, comp, activeSegment);
      var installed := InstallFile(segment, comp.rebuilt);
      if installed {
        index := index + comp.moved;
        segmentBytes := segmentBytes[segment := |comp.rebuilt|];
        segmentDeadBytes := segmentDeadBytes[segment := comp.tombstoneBytes];
        AfterCompactionIs(before, segment, comp);
        assert State() == after;
        CompactionLeavesNoGarbage(before, segment, comp, lower);
      }
      return installed;
    }

    method LowerSegmentHasData(segment: nat) returns (lower: bool)
      requires loaded && Consistent(State())
      ensures lower <==> !NothingBelow(State(), segment)
    {
      hide Consistent, NothingBelow;
      lower := (exists u :: u in unreadableSegments && u < segment)
            || (exists j :: j in segmentBytes && j < segment && segmentBytes[j] > 0);
      CountsTellWhatIsBelow(State(), segment);
    }

    /** Reads a segment and works out what to keep of it; gives up if live records are missing. */
    method PlanCompaction(segment: nat) returns (plan: Option<Compaction>, lower: bool)
      requires loaded && Consistent(State()) && segment !in unreadableSegments
      modifies fileAdapter`failures
      ensures plan.Some? ==> Compacts(State(), segment, plan.value, lower)
      ensures plan.Some? ==> plan.value.moved.Keys == set k | k in index && index[k].segment == segment
      ensures fileAdapter.failures >= old(fileAdapter.failures)
      ensures plan.None? ==> fileAdapter.failures > old(fileAdapter.failures)
    {
      hide Consistent, NothingBelow, SomeLive, AllLocated, CompactRecs, Records;
      lower := LowerSegmentHasData(segment);
      var content := fileAdapter.ReadFile(segment);
      if content.None? {
        return None, lower;
      }
      LiveRecordsInSegment(State(), segment);
      var comp := RebuildSegment(content.value, index, segment, lower);
      assert Compacts(State(), segment, comp, lower);
      CompactionFindsAll(State(), segment, comp, lower);
      var liveCount := |set k | k in index && index[k].segment == segment|;
      if |comp.moved.Keys| != liveCount {
        assert false;
      }
      return Some(comp), lower;
    }

    /** Moves what is left of a segment if that is nothing but deletions. */
    method MoveIfOnlyTombstones(segment: nat, comp: Compaction, ghost lower: bool) returns (ok: bool)
      requires Ready() && Compacts(State(), segment, comp, lower) && segment in fileAdapter.files
      modifies this`segmentBytes, this`segmentDeadBytes, fileAdapter
      ensures Ready() && SameContents(old(State()), State())
      ensures Steady(fileAdapter.instants, old(fileAdapter.instants), maxRecordBytes, old(FullMap()))
      ensures fileAdapter.failures >= old(fileAdapter.failures)
      ensures OnlyTouches(old(fileAdapter.files), fileAdapter.files, segment, activeSegment)
      ensures ok ==> segment !in fileAdapter.files && Overlooks(old(State()), segment, fileAdapter.files)
      ensures !ok ==> Compacts(State(), segment, comp, lower)
      ensures !ok ==> State() == old(State()) || Copied(old(State()), segment, activeSegment, comp, State())
      ensures !ok && |comp.moved| == 0 && comp.rebuilt != [] && CanMoveFrom(segment) ==> fileAdapter.failures > old(fileAdapter.failures)
      ensures && OverlooksAtMost(old(State()), segment, activeSegment, fileAdapter.files)
              && OverlooksThroughout(fileAdapter.instants, old(fileAdapter.instants), old(State()), segment, activeSegment)
    {
      hide Consistent, Appendable, SameContents, Replayed, Holds, Compacts, NoGarbage, OverlooksAtMost, Overlooks, OverlooksThroughout,
           AfterMerge, AfterCompaction, MovedBy, MovedThrough, Copied, OnlyTouches, NothingBelow, Movable;
      ghost var before, instants := State(), fileAdapter.instants;
      SameSelf(before);
      SameFull(before, before);
      SteadySelf(instants, maxRecordBytes, Full(before));
      NothingTouched(before.disk, segment, activeSegment);
      NothingOutcomes(before, segment, activeSegment, instants);
      if |comp.moved| > 0 || comp.rebuilt == [] {
        return false;
      }
      assert comp.moved == map[];
      OnlyTombstones(before, segment, comp, lower);
      ok := MoveTombstonesToActiveSegment(segment, comp.rebuilt, comp);
      MovedOutcome(before, segment, activeSegment, comp, ok, State(), instants, fileAdapter.instants);
    }

    /** Rewrites a segment to what is worth keeping, or removes it. */
    method CompactSegment(segment: nat) returns (ok: bool)
      requires Ready() && segment !in unreadableSegments
      modifies this`index, this`segmentBytes, this`segmentDeadBytes, fileAdapter
      ensures Ready() && SameContents(old(State()), State())
      ensures Steady(fileAdapter.instants, old(fileAdapter.instants), maxRecordBytes, old(FullMap()))
      ensures SameSegments(old(index), index)
      ensures fileAdapter.failures >= old(fileAdapter.failures) && (!ok ==> fileAdapter.failures > old(fileAdapter.failures))
      ensures ok ==> NoGarbage(State(), segment)
      ensures ok && old(NoEntryIn(index, segment)) && old(CanMoveFrom(segment)) ==>
                segment !in fileAdapter.files || fileAdapter.failures > old(fileAdapter.failures)
      ensures OnlyTouches(old(fileAdapter.files), fileAdapter.files, segment, activeSegment)
      ensures ok && NothingBelow(State(), segment) && (forall k :: k in index ==> index[k].segment != segment) ==>
                segment !in fileAdapter.files
      ensures ok ==> segment in old(fileAdapter.files) && Overlooks(old(State()), segment, fileAdapter.files)
      ensures segment !in old(fileAdapter.files) ==>
                fileAdapter.files == old(fileAdapter.files) && fileAdapter.instants == old(fileAdapter.instants)
      ensures segment in old(fileAdapter.files) ==>
                && OverlooksAtMost(old(State()), segment, activeSegment, fileAdapter.files)
                && OverlooksThroughout(fileAdapter.instants, old(fileAdapter.instants), old(State()), segment, activeSegment)
    {
      hide Consistent, Appendable, SameContents, Replayed, Holds, Compacts, NoGarbage, OverlooksAtMost, Overlooks, OverlooksThroughout,
           AfterMerge, AfterCompaction, MovedBy, MovedThrough, Copied, OnlyTouches, NothingBelow, Movable;
      ghost var before, instants := State(), fileAdapter.instants;
      SameSelf(before);
      NothingOutcomes(before, segment, activeSegment, instants);
      NothingTouched(before.disk, segment, activeSegment);
      var plan, lower := PlanCompaction(segment);
      if plan.None? {
        return false;
      }
      CompactedFile(before, segment, plan.value, lower);
      CompactionOutcomes(before, segment, plan.value, lower, activeSegment);
      var comp := plan.value;
      NothingMoves(index, segment, comp.moved);
      ok := MoveIfOnlyTombstones(segment, comp, lower);
      if ok {
        MissingHasNoGarbage(State(), segment);
        return;
      }
      ghost var middle, instants1 := State(), fileAdapter.instants;
      ok := ReplaceSegment(segment, comp, lower);
      ReplacedOutcome(before, segment, activeSegment, comp, middle, ok, fileAdapter.files);
      ThroughoutOne(instants1, instants, before, segment, activeSegment, fileAdapter.files);
      SameTwice(before, middle, State());
      SameFull(before, middle);
      SteadyTwice(instants, instants1, fileAdapter.instants, maxRecordBytes, Full(before));
      GoneIfNothingToKeep(State(), segment);
      TouchesInTurn(before.disk, middle.disk, fileAdapter.files, segment, activeSegment);
    }

    /** Compacts a segment that is at least half dead. */
    method MaybeCompact(segment: nat)
      requires Ready() && segment !in unreadableSegments
      modifies this`index, this`segmentBytes, this`segmentDeadBytes, fileAdapter
      ensures Ready() && SameContents(old(State()), State())
      ensures Steady(fileAdapter.instants, old(fileAdapter.instants), maxRecordBytes, old(FullMap()))
      ensures SameSegments(old(index), index)
      ensures fileAdapter.failures >= old(fileAdapter.failures)
      ensures var bytes, dead := old(Count(segmentBytes, segment)), old(Count(segmentDeadBytes, segment));
              if bytes == 0 || dead * 2 < bytes then State() == old(State())
              else NoGarbage(State(), segment) || fileAdapter.failures > old(fileAdapter.failures)
      ensures old(Count(segmentBytes, segment)) > 0 ==> Tidy(State(), segment) || fileAdapter.failures > old(fileAdapter.failures)
      ensures segment in old(fileAdapter.files) ==>
                && OverlooksAtMost(old(State()), segment, activeSegment, fileAdapter.files)
                && OverlooksThroughout(fileAdapter.instants, old(fileAdapter.instants), old(State()), segment, activeSegment)
    {
      hide Consistent, Appendable, SameContents, Replayed, Holds, NoGarbage, OverlooksAtMost, OverlooksThroughout, Overlooks;
      SameSelf(State());
      NothingOutcomes(State(), segment, activeSegment, fileAdapter.instants);
      var bytes := Count(segmentBytes, segment);
      var dead := Count(segmentDeadBytes, segment);
      if bytes == 0 || dead * 2 < bytes {
        return;
      }
      var compacted := CompactSegment(segment);
    }

    // ---------------------------------------------------- rotation and recovery

    /** Opens the next segment, which no file has yet. */
    method OpenNextSegment()
      requires Ready() && !appendsDisabled && activeSegment < MAX_SEGMENT_ID
      modifies this`segmentBytes, this`segmentDeadBytes, this`activeSegment
      ensures Ready() && SameContents(old(State()), State())
      ensures activeSegment == old(activeSegment) + 1 && activeSegment !in fileAdapter.files
      ensures segmentBytes == old(segmentBytes)[activeSegment := 0]
      ensures fileAdapter.files == old(fileAdapter.files) && index == old(index) && unreadableSegments == old(unreadableSegments)
      ensures RotatedFrom(State(), activeSegment, old(activeSegment)) && Count(segmentBytes, activeSegment) == 0
    {
      hide Consistent, Appendable, SameContents, RotatedFrom;
      ghost var before := State();
      activeSegment := activeSegment + 1;
      segmentBytes := segmentBytes[activeSegment := 0];
      segmentDeadBytes := segmentDeadBytes[activeSegment := 0];
      RotateStep(before, activeSegment - 1, State());
    }

    /** The next segment is opened only when this one, not empty, has no room for the line. */
    ghost predicate StaysUnlessFull(before: nat, bytes: nat, lineLength: nat)
      reads this`activeSegment
    {
      || activeSegment == before
      || (activeSegment == before + 1 && bytes > 0 && bytes + lineLength > maxSegmentBytes)
    }

    /** Makes room for a line: compacts the active segment or moves on to the next. */
    method RotateIfNeeded(lineLength: nat)
      requires Ready() && !appendsDisabled
      modifies this`index, this`segmentBytes, this`segmentDeadBytes, this`activeSegment, this`appendsDisabled, fileAdapter
      ensures Ready() && SameContents(old(State()), State())
      ensures Steady(fileAdapter.instants, old(fileAdapter.instants), maxRecordBytes, old(FullMap()))
      ensures SameSegments(old(index), index)
      ensures appendsDisabled ==> activeSegment == MAX_SEGMENT_ID
      ensures !appendsDisabled ==> RotatedFrom(State(), activeSegment, old(activeSegment))
      ensures !appendsDisabled ==>
                var bytes := Count(segmentBytes, activeSegment); bytes == 0 || bytes + lineLength <= maxSegmentBytes
      ensures fileAdapter.failures >= old(fileAdapter.failures)
      ensures var bytes := old(Count(segmentBytes, activeSegment));
              bytes == 0 || bytes + lineLength <= maxSegmentBytes ==>
                State() == old(State()) && activeSegment == old(activeSegment) && !appendsDisabled
      ensures StaysUnlessFull(old(activeSegment), old(Count(segmentBytes, activeSegment)), lineLength)
      ensures activeSegment != old(activeSegment) || appendsDisabled ==>
                && Count(segmentBytes, old(activeSegment)) + lineLength > maxSegmentBytes
                && (|| old(Count(segmentDeadBytes, activeSegment)) == 0
                    || NoGarbage(State(), old(activeSegment))
                    || fileAdapter.failures > old(fileAdapter.failures))
    {
      hide Consistent, SameContents, Replayed, Holds, NoGarbage;
      ghost var before := State();
      SameSelf(before);
      var bytes := Count(segmentBytes, activeSegment);
      if bytes == 0 || bytes + lineLength <= maxSegmentBytes {
        return;
      }
      if Count(segmentDeadBytes, activeSegment) > 0 {
        var compacted := CompactSegment(activeSegment);
        if Count(segmentBytes, activeSegment) + lineLength <= maxSegmentBytes {
          return;
        }
      }
      if activeSegment == MAX_SEGMENT_ID {
        appendsDisabled := true;
        return;
      }
      ghost var middle := State();
      OpenNextSegment();
      SameTwice(before, middle, State());
      GarbageIsOnDisk(middle, State(), activeSegment - 1);
    }

    /** Rolls the active segment back to its recorded length after a failed append. */
    method RestoreActiveSegment(segmentBeforeRotation: nat) returns (ok: bool)
      requires loaded && Consistent(State()) && Torn(State(), activeSegment) && !appendsDisabled
      requires RotatedFrom(State(), activeSegment, segmentBeforeRotation)
      modifies this`segmentBytes, this`segmentDeadBytes, this`activeSegment, fileAdapter
      ensures ok ==> Ready() && activeSegment == segmentBeforeRotation
      ensures !ok ==> State() == old(State()) && activeSegment == old(activeSegment)
      ensures SameContents(old(State()), State())
      ensures Steady(fileAdapter.instants, old(fileAdapter.instants), maxRecordBytes, old(FullMap()))
      ensures fileAdapter.failures >= old(fileAdapter.failures) && (!ok ==> fileAdapter.failures > old(fileAdapter.failures))
    {
      hide Consistent, SameContents, Replayed, Holds, Appendable;
      ghost var before := State();
      SameSelf(before);
      SameFull(before, before);
      var committed := Count(segmentBytes, activeSegment);
      if committed > 0 {
        assert activeSegment == segmentBeforeRotation;
        ok := fileAdapter.TruncateFile(activeSegment, committed);
        if ok {
          TruncateRestores(before, activeSegment);
          SameFull(before, State());
        }
        return;
      }
      ok := fileAdapter.RemoveFile(activeSegment);
      if !ok {
        return;
      }
      RemoveRestores(before, activeSegment);
      SameFull(before, State());
      if activeSegment != segmentBeforeRotation {
        ghost var removed := State();
        ForgetSegment(removed, activeSegment);
        ForgetKeepsAppendable(removed, activeSegment, segmentBeforeRotation);
        segmentBytes := segmentBytes - {activeSegment};
        segmentDeadBytes := segmentDeadBytes - {activeSegment};
        activeSegment := segmentBeforeRotation;
        SameTwice(before, removed, State());
      }
    }

    /** Gives the active segment up: its tail may be torn, so nothing is appended to it again. */
    method AbandonActiveSegmentAfterAppendFailure()
      requires loaded && Consistent(State()) && Torn(State(), activeSegment) && !appendsDisabled
      modifies this`partiallyReadSegments, this`segmentBytes, this`segmentDeadBytes, this`activeSegment, this`appendsDisabled
      ensures Ready() && SameContents(old(State()), State())
      ensures if old(activeSegment) == MAX_SEGMENT_ID then appendsDisabled else !appendsDisabled && activeSegment == old(activeSegment) + 1
    {
      hide Consistent, SameContents, Appendable, Replayed, Holds;
      ghost var before := State();
      partiallyReadSegments := partiallyReadSegments + {activeSegment};
      if activeSegment == MAX_SEGMENT_ID {
        MorePartial(before, activeSegment);
        appendsDisabled := true;
        return;
      }
      assert activeSegment < MAX_SEGMENT_ID;
      activeSegment := activeSegment + 1;
      segmentBytes := segmentBytes[activeSegment := 0];
      segmentDeadBytes := segmentDeadBytes[activeSegment := 0];
      AbandonStep(before, activeSegment - 1, State());
    }

    // -------------------------------------------------------------------- load

    /** Cuts a torn tail off, or removes a file without a complete line. */
    method TrimSegment(id: nat, content: Bytes, completeBytes: nat) returns (kept: bool, clean: bool)
      requires id in fileAdapter.files && fileAdapter.files[id] == content && completeBytes == CompletePrefixLength(content)
      modifies fileAdapter
      ensures Trimmed(old(fileAdapter.files), fileAdapter.files, id, kept, clean)
      ensures fileAdapter.instants == old(fileAdapter.instants)
              || fileAdapter.instants == old(fileAdapter.instants) + [fileAdapter.files]
      ensures fileAdapter.failures >= old(fileAdapter.failures)
      ensures !clean || (kept && completeBytes == 0) ==> fileAdapter.failures > old(fileAdapter.failures)
    {
      kept, clean := true, true;
      ghost var disk := fileAdapter.files;
      assert completeBytes == |content| ==> content[..completeBytes] == content && disk[id := content] == disk;
      if completeBytes == 0 {
        var removed := fileAdapter.RemoveFile(id);
        kept := !removed;
        clean := removed || content == [];
      } else if completeBytes < |content| {
        clean := fileAdapter.WriteFile(id, content[..completeBytes]);
      }
    }

    /** Reads, indexes and trims one listed segment. Reports whether its file ends cleanly. */
    method LoadSegment(id: nat, ghost first: Disk, ghost todo: set<nat>, ghost trimmed: bool) returns (clean: bool)
      requires Loading(State(), first, todo) && LoadedUpTo(State(), todo, activeSegment, trimmed)
      requires id in todo && id <= MAX_SEGMENT_ID && id in first && id in fileAdapter.files && id !in unreadableSegments
      requires forall j :: j in fileAdapter.files && j !in todo ==> j < id
      requires Openable(first)
      modifies this`index, this`segmentBytes, this`unreadableSegments, this`partiallyReadSegments, this`activeSegment, fileAdapter
      ensures Loading(State(), first, todo - {id})
      ensures LoadedUpTo(State(), todo - {id}, activeSegment, trimmed && clean)
      ensures old(unreadableSegments) <= unreadableSegments <= old(unreadableSegments) + {id}
      ensures forall j :: j != id ==> (j in fileAdapter.files <==> j in old(fileAdapter.files))
      ensures activeSegment == old(activeSegment) || activeSegment == id
      ensures !clean || unreadableSegments != old(unreadableSegments) ==> fileAdapter.failures > old(fileAdapter.failures)
      ensures Steady(fileAdapter.instants, old(fileAdapter.instants), maxRecordBytes, Replayed(first, maxRecordBytes))
      ensures fileAdapter.failures >= old(fileAdapter.failures)
      ensures fileAdapter.failures == old(fileAdapter.failures) ==>
                partiallyReadSegments ==
                old(partiallyReadSegments) + if HasUnusable(Records(old(fileAdapter.files)[id]), maxRecordBytes) then {id} else {}
    {
      hide Loading, Replayed, Holds, CompletePrefixLength, IndexRecs, Records, Silent, LoadedUpTo, Steady, SetsFit, ReadInto, Openable,
           HasUnusable;
      ghost var before, instants := State(), fileAdapter.instants;
      SteadySelf(instants, maxRecordBytes, Replayed(first, maxRecordBytes));
      var content := fileAdapter.ReadFile(id);
      if content.None? {
        unreadableSegments := unreadableSegments + {id};
        partiallyReadSegments := partiallyReadSegments + {id};
        LoadUnreadable(before, first, todo, id, State());
        LoadedHidden(before, todo, activeSegment, trimmed, id, State());
        return true;
      }
      var kept;
      kept, clean := ReadSegment(id, content.value);
      LoadedSegment(before, first, todo, old(activeSegment), trimmed, id, kept, clean, State());
      LoadingHolds(State(), first, todo - {id});
      SteadyOne(instants, fileAdapter.instants, maxRecordBytes, Replayed(first, maxRecordBytes), fileAdapter.files);
    }

    /** Reads a segment's lines into the index, trims its file, and counts it. */
    method ReadSegment(id: nat, content: Bytes) returns (kept: bool, clean: bool)
      requires id in fileAdapter.files && content == fileAdapter.files[id]
      modifies this`index, this`segmentBytes, this`partiallyReadSegments, this`activeSegment, fileAdapter
      ensures ReadInto(old(State()), State(), id, kept, clean)
      ensures partiallyReadSegments ==
              old(partiallyReadSegments) + if HasUnusable(Records(content), maxRecordBytes) || !clean then {id} else {}
      ensures activeSegment == if kept && id > old(activeSegment) then id else old(activeSegment)
      ensures fileAdapter.instants == old(fileAdapter.instants)
              || fileAdapter.instants == old(fileAdapter.instants) + [fileAdapter.files]
      ensures fileAdapter.failures >= old(fileAdapter.failures) && (!clean ==> fileAdapter.failures > old(fileAdapter.failures))
    {
      hide CompletePrefixLength, IndexRecs, Records, SetsFit, HasUnusable, Trimmed;
      var completeBytes := CompletePrefixLength(content);
      var partial;
      index, partial := ScanSegment(content, id, maxRecordBytes, index);
      UsableSetsFit(Records(content), maxRecordBytes);
      kept, clean := TrimSegment(id, content, completeBytes);
      if partial || !clean {
        partiallyReadSegments := partiallyReadSegments + {id};
      }
      if kept {
        segmentBytes := segmentBytes[id := completeBytes];
        activeSegment := if id > activeSegment then id else activeSegment;
      }
    }

    /** Reads every listed segment in id order. */
    method LoadSegments(ids: seq<nat>, ghost first: Disk) returns (clean: bool)
      requires first == fileAdapter.files && Openable(first)
      requires Ascending(ids) && (set id | id in ids) == first.Keys
      requires Loading(State(), first, first.Keys) && unreadableSegments == {}
      requires LoadedUpTo(State(), first.Keys, activeSegment, true)
      requires partiallyReadSegments == {}
      modifies this`index, this`segmentBytes, this`unreadableSegments, this`partiallyReadSegments, this`activeSegment, fileAdapter
      ensures Loading(State(), first, {}) && LoadedUpTo(State(), {}, activeSegment, clean)
      ensures Steady(fileAdapter.instants, old(fileAdapter.instants), maxRecordBytes, Replayed(first, maxRecordBytes))
      ensures fileAdapter.failures >= old(fileAdapter.failures)
      ensures fileAdapter.failures == old(fileAdapter.failures) ==> MarkedForCause(partiallyReadSegments, first, maxRecordBytes)
      ensures !clean ==> ids != []
      ensures !clean || unreadableSegments != {} ==> fileAdapter.failures > old(fileAdapter.failures)
      ensures activeSegment == old(activeSegment) || activeSegment in first
    {
      hide Loading, LoadedUpTo, Replayed, Holds, Remaining, Ascending, HasUnusable, Records;
      clean := true;
      RemainingAll(ids);
      ghost var instants := fileAdapter.instants;
      for i := 0 to |ids|
        invariant Loading(State(), first, Remaining(ids, i))
        invariant LoadedUpTo(State(), Remaining(ids, i), activeSegment, clean)
        invariant fileAdapter.files.Keys <= first.Keys
        invariant Remaining(ids, i) <= fileAdapter.files.Keys && Remaining(ids, i) !! unreadableSegments
        invariant Steady(fileAdapter.instants, instants, maxRecordBytes, Replayed(first, maxRecordBytes))
        invariant fileAdapter.failures >= old(fileAdapter.failures)
        invariant !clean ==> i > 0
        invariant activeSegment == old(activeSegment) || activeSegment in first
        invariant fileAdapter.failures == old(fileAdapter.failures) ==> MarkedForCause(partiallyReadSegments, first, maxRecordBytes)
        invariant !clean || unreadableSegments != {} ==> fileAdapter.failures > old(fileAdapter.failures)
      {
        RemainingStep(ids, i);
        assert ids[i] in first;
        ghost var before := fileAdapter.instants;
        LoadingReadsFirst(State(), first, Remaining(ids, i), ids[i]);
        var segmentClean := LoadSegment(ids[i], first, Remaining(ids, i), clean);
        clean := clean && segmentClean;
        SteadyTwice(instants, before, fileAdapter.instants, maxRecordBytes, Replayed(first, maxRecordBytes));
      }
    }

    /** Chooses where to append: never at or below a segment that could not be read or trimmed. */
    method ChooseActiveSegment(ids: seq<nat>, clean: bool)
      requires Indexed(State()) && LoadedUpTo(State(), {}, activeSegment, clean) && !appendsDisabled
      requires Ascending(ids) && forall id :: id in fileAdapter.files || id in unreadableSegments ==> id in ids
      requires forall id :: id in ids ==> id <= MAX_SEGMENT_ID
      requires !clean ==> ids != []
      modifies this`segmentBytes, this`segmentDeadBytes, this`activeSegment, this`appendsDisabled
      ensures Indexed(State()) && (!appendsDisabled ==> Appendable(State(), activeSegment))
      ensures appendsDisabled ==> MAX_SEGMENT_ID in ids
      ensures clean && unreadableSegments == {} ==> activeSegment == old(activeSegment) && !appendsDisabled
    {
      hide Indexed, LoadedUpTo, Appendable, Ascending;
      ghost var before := State();
      if clean {
        if unreadableSegments == {} {
          ActiveIsHighest(before, activeSegment);
          return;
        }
        var highestUnreadable := HighestId(unreadableSegments);
        assert highestUnreadable in ids;
        if highestUnreadable < activeSegment {
          ActiveIsHighest(before, activeSegment);
          return;
        }
        if highestUnreadable == MAX_SEGMENT_ID {
          appendsDisabled := true;
          return;
        }
        AboveUnreadable(before, activeSegment, highestUnreadable, clean);
        activeSegment := highestUnreadable + 1;
      } else {
        var highestListed := ids[|ids| - 1];
        assert highestListed in ids;
        if highestListed == MAX_SEGMENT_ID {
          activeSegment := highestListed;
          appendsDisabled := true;
          return;
        }
        AboveListed(before, ids);
        activeSegment := highestListed + 1;
      }
      segmentBytes := segmentBytes[activeSegment := 0];
      segmentDeadBytes := segmentDeadBytes[activeSegment := 0];
      FreshIsAppendable(before, activeSegment, State());
    }

    /** Counts the bytes of each segment that hold no live record. */
    method CountDeadBytes()
      requires Indexed(State())
      modifies this`segmentDeadBytes
      ensures Consistent(State())
      ensures old(Appendable(State(), activeSegment)) ==> Appendable(State(), activeSegment)
    {
      hide Indexed, Consistent;
      ghost var before := State();
      var live := SumLiveBytes(index);
      segmentDeadBytes := map id | id in segmentBytes ::
        if segmentBytes[id] >= Count(live, id) then segmentBytes[id] - Count(live, id) else 0;
      DeadIsRest(before, segmentDeadBytes, live);
    }

    /** The segments other than the active one whose bytes are all dead. */
    function Reclaimable(): (ids: set<nat>)
      reads this
    {
      set id | id in segmentBytes && id != activeSegment && segmentBytes[id] > 0 && Count(segmentDeadBytes, id) >= segmentBytes[id]
    }

    /** Compacts every other segment that holds no live record. */
    method ReclaimSegmentsWithoutLiveRecords()
      requires Ready()
      modifies this`index, this`segmentBytes, this`segmentDeadBytes, fileAdapter
      ensures Ready() && SameContents(old(State()), State())
      ensures Steady(fileAdapter.instants, old(fileAdapter.instants), maxRecordBytes, old(FullMap()))
      ensures fileAdapter.failures >= old(fileAdapter.failures)
      ensures AllSpared(old(fileAdapter.files), fileAdapter.files, old(Reclaimable()), maxRecordBytes)
      ensures NothingDead(State(), activeSegment) || fileAdapter.failures > old(fileAdapter.failures)
    {
      hide Consistent, Appendable, SameContents, Replayed, Holds, AllSpared, OverlooksAtMost, OverlooksThroughout, Overlooks, NoGarbage,
           ReclaimedUpTo, OnlyTouches, NothingDead;
      ghost var before, instants := State(), fileAdapter.instants;
      SameSelf(before);
      var candidates := Reclaimable();
      AllSparedSelf(fileAdapter.files, candidates, maxRecordBytes);
      TrackedIsReadable(before);
      var sorted := SortedIds(candidates);
      assert forall id :: id in sorted ==> id in candidates by {
        assert forall id :: id in sorted ==> id in (set x | x in sorted);
      }
      ReclaimableIsUnused(before, activeSegment, candidates);
      NothingReclaimed(before, sorted, activeSegment);
      for i := 0 to |sorted|
        invariant Ready() && SameContents(before, State())
        invariant fileAdapter.failures > old(fileAdapter.failures) || ReclaimedUpTo(before, State(), sorted, i, activeSegment)
        invariant AllSpared(before.disk, fileAdapter.files, candidates, maxRecordBytes)
        invariant Steady(fileAdapter.instants, instants, maxRecordBytes, Full(before))
        invariant fileAdapter.failures >= old(fileAdapter.failures)
      {
        ghost var middle, instants1 := State(), fileAdapter.instants;
        assert sorted[i] in candidates;
        var compacted := CompactSegment(sorted[i]);
        if fileAdapter.failures == old(fileAdapter.failures) {
          ReclaimedOneMore(before, middle, State(), sorted, i, activeSegment);
        }
        CompactionSpares(before.disk, middle, sorted[i], activeSegment, fileAdapter.files, candidates);
        SameTwice(before, middle, State());
        SameFull(before, middle);
        SteadyTwice(instants, instants1, fileAdapter.instants, maxRecordBytes, Full(before));
      }
      if fileAdapter.failures == old(fileAdapter.failures) {
        assert forall id :: id in candidates ==> id in sorted by {
          assert forall id :: id in candidates ==> id in (set x | x in sorted);
        }
        AllReclaimed(before, State(), sorted, activeSegment);
      }
    }

    /** Builds the store from the directory, or fails and leaves it as it was. */
    method Load() returns (ok: bool)
      requires 0 < maxRecordBytes <= DEFAULT_MAX_RECORD_BYTES
      requires Openable(fileAdapter.files)
      modifies this, fileAdapter
      ensures ok ==> Ready() && VisibleMap() == Replayed(old(fileAdapter.files) - unreadableSegments, maxRecordBytes)
      ensures ok && unreadableSegments != {} ==> fileAdapter.failures > old(fileAdapter.failures)
      ensures !ok ==> State() == old(State()) && loaded == old(loaded) && appendsDisabled == old(appendsDisabled)
      ensures !ok ==> fileAdapter.failures >= old(fileAdapter.failures) + 2
      ensures FullMap() == old(FullMap())
      ensures Steady(fileAdapter.instants, old(fileAdapter.instants), maxRecordBytes, old(FullMap()))
      ensures fileAdapter.failures >= old(fileAdapter.failures)
      ensures ok && fileAdapter.failures == old(fileAdapter.failures) ==>
                !appendsDisabled && (activeSegment == 0 || activeSegment in old(fileAdapter.files))
      ensures ok ==> KeepsOutOfReach(old(fileAdapter.files), fileAdapter.files, unreadableSegments, maxRecordBytes, activeSegment)
      ensures ok ==> NothingDead(State(), activeSegment) || fileAdapter.failures > old(fileAdapter.failures)
      ensures ok && fileAdapter.failures == old(fileAdapter.failures) ==>
                MarkedForCause(partiallyReadSegments, old(fileAdapter.files), maxRecordBytes)
    {
      hide Consistent, Appendable, SameContents, Replayed, Holds, Loading, LoadedUpTo, Indexed, Openable, Ascending,
           AllSpared, KeepsOutOfReach, NothingDead, MarkedForCause;
      ghost var first, instants, m := fileAdapter.files, fileAdapter.instants, FullMap();
      SteadySelf(instants, maxRecordBytes, m);
      var names := fileAdapter.ReadDirectory();
      if names.None? {
        names := fileAdapter.ReadDirectory();
      }
      if names.None? {
        return false;
      }
      index, segmentBytes, segmentDeadBytes := map[], map[], map[];
      unreadableSegments, partiallyReadSegments := {}, {};
      activeSegment, appendsDisabled, loaded := 0, false, true;
      LoadStarts(first, maxRecordBytes);
      var ids := SortedIds(names.value);
      var clean := LoadSegments(ids, first);
      LoadEnds(State(), first);
      LoadedSilently(State(), first);
      LoadedIds(State(), first, ids);
      ChooseActiveSegment(ids, clean);
      CountDeadBytes();
      ghost var built, instants1 := State(), fileAdapter.instants;
      ghost var unused := Reclaimable();
      ReclaimSegmentsWithoutLiveRecords();
      ReclaimableIsUnused(built, activeSegment, unused);
      OpenedSpares(first, built, activeSegment, unused, fileAdapter.files);
      SameFull(built, State());
      SteadyTwice(instants, instants1, fileAdapter.instants, maxRecordBytes, m);
      return true;
    }

    /** Loads the directory unless that has already worked. */
    method EnsureReadyLocked() returns (ready: bool)
      requires Valid()
      modifies this, fileAdapter
      ensures Valid() && (ready <==> loaded)
      ensures !loaded ==> fileAdapter.files == old(fileAdapter.files)
      ensures old(loaded) ==> ready && State() == old(State()) && appendsDisabled == old(appendsDisabled)
                              && fileAdapter.instants == old(fileAdapter.instants)
      ensures VisibleSame(old(fileAdapter.files)) && FullMap() == old(FullMap())
      ensures Steady(fileAdapter.instants, old(fileAdapter.instants), maxRecordBytes, old(FullMap()))
      ensures fileAdapter.failures >= old(fileAdapter.failures)
      ensures !ready ==> fileAdapter.failures > old(fileAdapter.failures) && index == map[] && !appendsDisabled
      ensures !old(loaded) && unreadableSegments != {} ==> fileAdapter.failures > old(fileAdapter.failures)
      ensures old(loaded) ==> activeSegment == old(activeSegment)
    {
      hide Consistent, Appendable, Replayed, Holds, Openable;
      if loaded {
        return true;
      }
      ready := Load();
    }

    /** The visible map is what the disk `before` shows without this session's unreadable segments. */
    ghost predicate VisibleSame(before: Disk)
      reads this, fileAdapter
    {
      VisibleMap() == Replayed(before - unreadableSegments, maxRecordBytes)
    }

    // ------------------------------------------------------------------ append

    /** One append to the active file; if it fails, no complete line has changed. */
    method WriteLine(line: Bytes, ghost before: nat) returns (ok: bool)
      requires Ready() && !appendsDisabled && WrittenLine(line) && RotatedFrom(State(), activeSegment, before)
      modifies fileAdapter
      ensures ok ==> State() == old(State()).(disk := old(fileAdapter.files)[activeSegment := Content(old(fileAdapter.files), activeSegment) + line])
      ensures ok ==> SteadyOr(fileAdapter.instants, old(fileAdapter.instants), maxRecordBytes, old(FullMap()), FullMap())
      ensures !ok ==> Consistent(State()) && Torn(State(), activeSegment) && RotatedFrom(State(), activeSegment, before)
      ensures !ok ==> SameContents(old(State()), State())
      ensures !ok ==> Steady(fileAdapter.instants, old(fileAdapter.instants), maxRecordBytes, old(FullMap()))
      ensures !ok ==> fileAdapter.failures > old(fileAdapter.failures)
      ensures fileAdapter.failures >= old(fileAdapter.failures)
    {
      hide Consistent, Appendable, SameContents, Replayed, Holds, RotatedFrom, Torn, IsLine, Content, WrittenLine;
      WrittenIsLine(line);
      ghost var start, disk, instants := State(), fileAdapter.files, fileAdapter.instants;
      ok := fileAdapter.AppendFile(activeSegment, line);
      if ok {
        AppendInstants(start, activeSegment, line, instants, maxRecordBytes);
      } else if fileAdapter.files == disk && fileAdapter.instants == instants {
        SameSelf(start);
        AppendableIsTorn(start, activeSegment);
      } else {
        ghost var k :| 0 <= k < |line| && fileAdapter.files == disk[activeSegment := Content(disk, activeSegment) + line[..k]]
                       && fileAdapter.instants == instants + AppendStates(disk, activeSegment, line, k);
        FailedAppend(start, activeSegment, line, k);
        TornInstants(start, activeSegment, line, k, instants, maxRecordBytes);
        TearKeepsRotation(start, activeSegment, before, Content(disk, activeSegment) + line[..k]);
      }
    }

    /** Asks whether the active file can be opened, by appending nothing. */
    method ProbeActiveSegment(ghost before: nat) returns (ok: bool)
      requires loaded && Consistent(State()) && Torn(State(), activeSegment) && RotatedFrom(State(), activeSegment, before)
      modifies fileAdapter
      ensures Consistent(State()) && Torn(State(), activeSegment) && RotatedFrom(State(), activeSegment, before)
      ensures SameContents(old(State()), State())
      ensures Steady(fileAdapter.instants, old(fileAdapter.instants), maxRecordBytes, old(FullMap()))
      ensures fileAdapter.failures >= old(fileAdapter.failures) && (!ok ==> fileAdapter.failures > old(fileAdapter.failures))
    {
      hide Consistent, SameContents, Replayed, Holds, RotatedFrom, Content;
      ghost var start, disk, instants := State(), fileAdapter.files, fileAdapter.instants;
      SameSelf(start);
      ok := fileAdapter.AppendFile(activeSegment, []);
      if ok {
        assert Content(disk, activeSegment) + [] == Content(disk, activeSegment);
        TouchIsSilent(start, activeSegment);
        TearKeepsRotation(start, activeSegment, before, Content(disk, activeSegment));
        NothingAppended(disk, activeSegment, instants, maxRecordBytes);
        SameFull(start, State());
      }
    }

    /** Lists the segments again, to see whether the directory has lost any. */
    method AnySegmentMissing() returns (missing: bool)
      requires loaded && Consistent(State())
      modifies fileAdapter`failures
      ensures !missing
      ensures fileAdapter.failures >= old(fileAdapter.failures)
    {
      hide Consistent;
      var listed := fileAdapter.ReadDirectory();
      missing := listed.Some? && exists id :: id in segmentBytes && segmentBytes[id] > 0 && id !in listed.value;
      RecordedSegmentsExist(State());
    }

    /**
      One attempt to append a line. None means the empty active segment was cleared away and the
      append may be tried once more.
     */
    method AppendOnce(line: Bytes) returns (result: Option<AppendResult>, ghost base: Snapshot)
      requires Ready() && WrittenLine(line)
      modifies this`index, this`segmentBytes, this`segmentDeadBytes, this`partiallyReadSegments, this`activeSegment, this`appendsDisabled, fileAdapter
      ensures SameContents(old(State()), base)
      ensures SameSegments(old(index), index)
      ensures result == Some(Appended) ==> AppendedTo(base, line)
      ensures result == Some(Appended) ==>
                SteadyOr(fileAdapter.instants, old(fileAdapter.instants), maxRecordBytes, old(FullMap()), FullMap())
      ensures result != Some(Appended) ==> Ready() && base == State()
      ensures result != Some(Appended) ==> Steady(fileAdapter.instants, old(fileAdapter.instants), maxRecordBytes, old(FullMap()))
      ensures result == Some(Unavailable) ==> appendsDisabled
      ensures result == Some(Failed) || result == None ==> fileAdapter.failures > old(fileAdapter.failures)
      ensures fileAdapter.failures >= old(fileAdapter.failures)
      ensures fileAdapter.failures == old(fileAdapter.failures) ==>
                && StaysUnlessFull(old(activeSegment), old(Count(segmentBytes, activeSegment)), |line|)
                && (appendsDisabled ==> old(appendsDisabled) || activeSegment == MAX_SEGMENT_ID)
      ensures result == Some(Appended) ==> !old(appendsDisabled)
    {
      hide Consistent, Appendable, SameContents, Replayed, Holds, RotatedFrom, Torn, WrittenLine, Content;
      ghost var start, instants := State(), fileAdapter.instants;
      SameSelf(start);
      if appendsDisabled {
        return Some(Unavailable), State();
      }
      var segmentBeforeRotation := activeSegment;
      RotateIfNeeded(|line|);
      if appendsDisabled {
        return Some(Unavailable), State();
      }
      base := State();
      ghost var instants1 := fileAdapter.instants;
      SameFull(start, base);
      var written := WriteLine(line, segmentBeforeRotation);
      if written {
        SteadyThenOr(instants, instants1, fileAdapter.instants, maxRecordBytes, Full(start), FullMap());
        return Some(Appended), base;
      }
      SteadyTwice(instants, instants1, fileAdapter.instants, maxRecordBytes, Full(start));
      SameTwice(start, base, State());
      ghost var torn, instants2 := State(), fileAdapter.instants;
      SameFull(start, torn);
      result := RecoverFromFailedAppend(segmentBeforeRotation);
      SameTwice(start, torn, State());
      SteadyTwice(instants, instants2, fileAdapter.instants, maxRecordBytes, Full(start));
      base := State();
    }

    /** The store's state is `base` with the line appended to the active file. */
    ghost predicate AppendedTo(base: Snapshot, line: Bytes)
      reads this, fileAdapter
    {
      && loaded && !appendsDisabled
      && Consistent(base) && Appendable(base, activeSegment)
      && State() == base.(disk := base.disk[activeSegment := Content(base.disk, activeSegment) + line])
    }

    /** Rolls the failed append back, or gives the segment up. None means: try once more. */
    method RecoverFromFailedAppend(segmentBeforeRotation: nat) returns (result: Option<AppendResult>)
      requires loaded && Consistent(State()) && Torn(State(), activeSegment) && !appendsDisabled
      requires RotatedFrom(State(), activeSegment, segmentBeforeRotation)
      modifies this`segmentBytes, this`segmentDeadBytes, this`partiallyReadSegments, this`activeSegment, this`appendsDisabled, fileAdapter
      ensures Ready() && SameContents(old(State()), State())
      ensures Steady(fileAdapter.instants, old(fileAdapter.instants), maxRecordBytes, old(FullMap()))
      ensures result == Some(Failed) || result == None
      ensures fileAdapter.failures >= old(fileAdapter.failures)
      ensures fileAdapter.failures == old(fileAdapter.failures) ==>
                activeSegment == segmentBeforeRotation && !appendsDisabled && partiallyReadSegments == old(partiallyReadSegments)
    {
      hide Consistent, Appendable, SameContents, Replayed, Holds, RotatedFrom, Torn;
      ghost var start, instants := State(), fileAdapter.instants;
      result := Some(Failed);
      var writable := ProbeActiveSegment(segmentBeforeRotation);
      ghost var probed, instants1 := State(), fileAdapter.instants;
      SameFull(start, probed);
      var restored := false;
      if !writable {
        var missing := AnySegmentMissing();
        if missing {
          assert false;
        }
      }
      if writable || Count(segmentBytes, activeSegment) == 0 {
        restored := RestoreActiveSegment(segmentBeforeRotation);
        if restored && !writable {
          result := None;
        }
      }
      SteadyTwice(instants, instants1, fileAdapter.instants, maxRecordBytes, Full(start));
      ghost var middle := State();
      if !restored {
        AbandonActiveSegmentAfterAppendFailure();
      }
      SameTwice(probed, middle, State());
      SameTwice(start, probed, State());
    }

    /** Appends a line, trying a second time if the first try could be cleared away completely. */
    method AppendLineLocked(line: Bytes) returns (result: AppendResult, ghost base: Snapshot)
      requires Valid() && WrittenLine(line)
      modifies this, fileAdapter
      ensures result.Appended? ==> AppendedTo(base, line)
      ensures result.Appended? ==> Full(base) == old(FullMap()) && Visible(base) == Replayed(old(fileAdapter.files) - unreadableSegments, maxRecordBytes)
      ensures result.Appended? ==>
                SteadyOr(fileAdapter.instants, old(fileAdapter.instants), maxRecordBytes, old(FullMap()), FullMap())
      ensures !result.Appended? ==> Valid() && FullMap() == old(FullMap()) && VisibleSame(old(fileAdapter.files))
      ensures !result.Appended? ==> Steady(fileAdapter.instants, old(fileAdapter.instants), maxRecordBytes, old(FullMap()))
      ensures old(loaded) ==> SameSegments(old(index), index) && unreadableSegments == old(unreadableSegments) && loaded
      ensures !loaded ==> fileAdapter.files == old(fileAdapter.files)
      ensures result.Unavailable? ==> appendsDisabled
      ensures result.Failed? ==> fileAdapter.failures > old(fileAdapter.failures)
      ensures fileAdapter.failures >= old(fileAdapter.failures)
      ensures old(loaded) && fileAdapter.failures == old(fileAdapter.failures) ==>
                && StaysUnlessFull(old(activeSegment), old(Count(segmentBytes, activeSegment)), |line|)
                && (appendsDisabled ==> old(appendsDisabled) || activeSegment == MAX_SEGMENT_ID)
    {
      hide Consistent, Appendable, SameContents, Replayed, Holds, WrittenLine, Content, Openable;
      ghost var instants := fileAdapter.instants;
      var ready := EnsureReadyLocked();
      base := State();
      if !ready {
        return Failed, base;
      }
      ghost var start := State();
      SameSelf(start);
      for attempt := 0 to 2
        invariant Ready() && SameContents(start, State()) && base == State()
        invariant Steady(fileAdapter.instants, instants, maxRecordBytes, Full(start))
        invariant SameSegments(start.index, index) && unreadableSegments == start.hidden
        invariant fileAdapter.failures >= old(fileAdapter.failures)
        invariant attempt > 0 ==> fileAdapter.failures > old(fileAdapter.failures)
        invariant attempt == 0 && old(loaded) ==> activeSegment == old(activeSegment) && appendsDisabled == old(appendsDisabled)
        invariant attempt == 0 && old(loaded) ==> State() == old(State())
      {
        ghost var middle, instants1 := State(), fileAdapter.instants;
        SameFull(start, middle);
        var outcome;
        outcome, base := AppendOnce(line);
        SameTwice(start, middle, base);
        SameFull(start, base);
        if outcome == Some(Appended) {
          SteadyThenOr(instants, instants1, fileAdapter.instants, maxRecordBytes, Full(start), FullMap());
          return Appended, base;
        }
        SteadyTwice(instants, instants1, fileAdapter.instants, maxRecordBytes, Full(start));
        if outcome.Some? {
          return outcome.value, base;
        }
      }
      SameFull(start, State());
      result := Failed;
    }

    // ---------------------------------------------------------- set and delete

    /** Points the index at the record just appended. */
    method RecordPut(key: Bytes, value: Bytes, length: nat, ghost base: Snapshot) returns (previous: Option<Entry>)
      requires Writable(Put(key, value)) && length == |EncodeLine(key, value)| <= maxRecordBytes
      requires AppendedTo(base, EncodeLine(key, value)) && base.limit == maxRecordBytes
      modifies this`index, this`segmentBytes, this`segmentDeadBytes
      ensures Ready() && State() == AfterAppend(base, activeSegment, Put(key, value))
      ensures previous == Lookup(base.index, key)
      ensures previous.Some? ==> previous.value.segment !in unreadableSegments && Count(segmentBytes, previous.value.segment) > 0
    {
      hide Consistent, Appendable, EncodeLine, Content, AfterAppend, AddTo, Count;
      PutOutcome(base, activeSegment, key, value);
      SupersededIsCounted(base, activeSegment, Put(key, value));
      var offset := Count(segmentBytes, activeSegment);
      previous := if key in index then Some(index[key]) else None;
      index := index[key := Entry(activeSegment, offset, length)];
      segmentBytes := segmentBytes[activeSegment := offset + length];
      segmentDeadBytes :=
        if previous.Some? then AddTo(segmentDeadBytes, previous.value.segment, previous.value.length)
        else segmentDeadBytes;
    }

    method SetLocked(key: Bytes, value: Bytes) returns (result: SetResult)
      requires Valid()
      modifies this, fileAdapter
      ensures Valid()
      ensures result.Stored? ==> loaded
      ensures !loaded ==> fileAdapter.files == old(fileAdapter.files)
      ensures result.Stored? ==> FullMap() == old(FullMap())[key := value]
      ensures result.Stored? ==> VisibleMap() == Replayed(old(fileAdapter.files) - unreadableSegments, maxRecordBytes)[key := value]
      ensures result.Stored? ==>
                SteadyOr(fileAdapter.instants, old(fileAdapter.instants), maxRecordBytes, old(FullMap()), FullMap())
      ensures !result.Stored? ==> FullMap() == old(FullMap()) && VisibleSame(old(fileAdapter.files))
      ensures !result.Stored? ==> Steady(fileAdapter.instants, old(fileAdapter.instants), maxRecordBytes, old(FullMap()))
      ensures old(loaded) ==> unreadableSegments == old(unreadableSegments) && loaded
      ensures result.Rejected? <==> !old(appendsDisabled) && (key == TOMBSTONE_KEY || |EncodeLine(key, value)| > maxRecordBytes)
      ensures result.AppendsUnavailable? ==> appendsDisabled
      ensures result.AppendFailed? ==> fileAdapter.failures > old(fileAdapter.failures)
      ensures fileAdapter.failures >= old(fileAdapter.failures)
      ensures old(appendsDisabled) ==> appendsDisabled
      ensures old(loaded) && fileAdapter.failures == old(fileAdapter.failures) ==>
                && StaysUnlessFull(old(activeSegment), old(Count(segmentBytes, activeSegment)), |EncodeLine(key, value)|)
                && (appendsDisabled ==> old(appendsDisabled) || activeSegment == MAX_SEGMENT_ID)
      ensures result.Stored? ==> key != TOMBSTONE_KEY && |EncodeLine(key, value)| <= maxRecordBytes
      ensures old(loaded) && result.Stored? && key in old(index) && old(index[key].segment) != activeSegment && fileAdapter.failures == old(fileAdapter.failures) ==>
                Tidy(State(), old(index[key].segment))
    {
      hide Consistent, Appendable, SameContents, Replayed, Holds, Openable, EncodeLine, WrittenLine, Content;
      if appendsDisabled {
        return AppendsUnavailable;
      }
      if key == TOMBSTONE_KEY {
        return Rejected;
      }
      var line := EscapeInto(key, []);
      line := line + [TAB];
      line := EscapeInto(value, line);
      line := line + [NEWLINE];
      LineIsEncoded(key, value, line);
      if |line| > maxRecordBytes {
        return Rejected;
      }
      PutIsWritten(key, value);
      var appended, base := AppendLineLocked(line);
      if appended.Unavailable? {
        return AppendsUnavailable;
      }
      if appended.Failed? {
        return AppendFailed;
      }
      ghost var disk := fileAdapter.files;
      var previous := RecordPut(key, value, |line|, base);
      AppendStep(base, activeSegment, Put(key, value));
      if previous.Some? && previous.value.segment != activeSegment {
        ghost var stored, instants := State(), fileAdapter.instants;
        MaybeCompact(previous.value.segment);
        SameFull(stored, State());
        OrThenSteady(old(fileAdapter.instants), instants, fileAdapter.instants, maxRecordBytes, old(FullMap()), FullMap());
      }
      return Stored;
    }

    /** Appends a deletion. Its bytes are dead from the start; the index still holds the key. */
    method AppendTombstoneLocked(key: Bytes) returns (ok: bool, ghost base: Snapshot)
      requires Ready() && 0 < maxRecordBytes <= DEFAULT_MAX_RECORD_BYTES
      modifies this, fileAdapter
      ensures ok ==> AppendedDeletion(base, key)
      ensures ok ==> Full(base) == old(FullMap()) && Visible(base) == old(VisibleMap())
      ensures ok ==> SteadyOr(fileAdapter.instants, old(fileAdapter.instants), maxRecordBytes, old(FullMap()), FullMap())
      ensures !ok ==> Ready() && FullMap() == old(FullMap()) && VisibleMap() == old(VisibleMap())
      ensures !ok ==> Steady(fileAdapter.instants, old(fileAdapter.instants), maxRecordBytes, old(FullMap()))
      ensures !ok ==> appendsDisabled || |EncodeLine(TOMBSTONE_KEY, key)| > maxRecordBytes || fileAdapter.failures > old(fileAdapter.failures)
      ensures unreadableSegments == old(unreadableSegments) && SameSegments(old(index), index)
      ensures fileAdapter.failures >= old(fileAdapter.failures)
      ensures old(appendsDisabled) ==> !ok && appendsDisabled
      ensures fileAdapter.failures == old(fileAdapter.failures) ==>
                && StaysUnlessFull(old(activeSegment), old(Count(segmentBytes, activeSegment)), |EncodeLine(TOMBSTONE_KEY, key)|)
                && (appendsDisabled ==> old(appendsDisabled) || activeSegment == MAX_SEGMENT_ID)
      ensures ok ==> |EncodeLine(TOMBSTONE_KEY, key)| <= maxRecordBytes
    {
      hide Consistent, Appendable, SameContents, Replayed, Holds, Openable, EncodeLine, WrittenLine, Content;
      base := State();
      if appendsDisabled {
        return false, base;
      }
      var line := EscapeInto(TOMBSTONE_KEY, []);
      line := line + [TAB];
      line := EscapeInto(key, line);
      line := line + [NEWLINE];
      LineIsEncoded(TOMBSTONE_KEY, key, line);
      DeletionIsWritten(key);
      if |line| > maxRecordBytes {
        return false, base;
      }
      var appended;
      appended, base := AppendLineLocked(line);
      if !appended.Appended? {
        return false, base;
      }
      segmentBytes := AddTo(segmentBytes, activeSegment, |line|);
      segmentDeadBytes := AddTo(segmentDeadBytes, activeSegment, |line|);
      return true, base;
    }

    /** The deletion is on disk and counted, but the key is still in the index. */
    ghost predicate AppendedDeletion(base: Snapshot, key: Bytes)
      reads this, fileAdapter
    {
      var line := EncodeLine(TOMBSTONE_KEY, key);
      && loaded && !appendsDisabled && |line| <= maxRecordBytes == base.limit
      && Consistent(base) && Appendable(base, activeSegment)
      && State() == base.(disk := base.disk[activeSegment := Content(base.disk, activeSegment) + line],
                          bytes := AddTo(base.bytes, activeSegment, |line|),
                          dead := AddTo(base.dead, activeSegment, |line|))
    }

    /** Takes the deleted key out of the index. */
    method RecordDeletion(key: Bytes, ghost base: Snapshot) returns (deleted: Entry)
      requires AppendedDeletion(base, key) && key in index
      modifies this`index, this`segmentDeadBytes
      ensures Ready() && State() == AfterAppend(base, activeSegment, Del(key))
      ensures FullMap() == Full(base) - {key} && VisibleMap() == Visible(base) - {key}
      ensures deleted.segment !in unreadableSegments && Count(segmentBytes, deleted.segment) > 0
      ensures deleted == old(index[key]) && index == old(index) - {key}
    {
      hide Consistent, Appendable, EncodeLine, Content, AfterAppend, AddTo, Count, Replayed, Holds;
      AppendableContent(base, activeSegment);
      AppendStep(base, activeSegment, Del(key));
      DeletionOutcome(base, activeSegment, key);
      EntryIsReadable(base, key);
      SupersededIsCounted(base, activeSegment, Del(key));
      AfterAppendDel(base, activeSegment, key);
      deleted := index[key];
      index := index - {key};
      segmentDeadBytes := AddTo(segmentDeadBytes, deleted.segment, deleted.length);
    }

    // ------------------------------------------------------- public operations

    /** Sets a key. Everything but Stored is an exception in the original. */
    method SetDisk(key: Bytes, value: Bytes) returns (result: SetResult)
      requires Valid()
      modifies this, fileAdapter
      ensures Valid()
      ensures result.Stored? ==> loaded
      ensures !loaded ==> fileAdapter.files == old(fileAdapter.files)
      ensures FullMap() == if result.Stored? then old(FullMap())[key := value] else old(FullMap())
      ensures var seen := Replayed(old(fileAdapter.files) - unreadableSegments, maxRecordBytes);
              VisibleMap() == if result.Stored? then seen[key := value] else seen
      ensures SteadyOr(fileAdapter.instants, old(fileAdapter.instants), maxRecordBytes, old(FullMap()), FullMap())
      ensures old(loaded) ==> unreadableSegments == old(unreadableSegments) && loaded
      ensures result.Rejected? <==> !old(appendsDisabled) && (key == TOMBSTONE_KEY || |EncodeLine(key, value)| > maxRecordBytes)
      ensures result.AppendsUnavailable? ==> appendsDisabled
      ensures result.AppendFailed? ==> fileAdapter.failures > old(fileAdapter.failures)
      ensures old(loaded) && fileAdapter.failures == old(fileAdapter.failures) ==>
                && StaysUnlessFull(old(activeSegment), old(Count(segmentBytes, activeSegment)), |EncodeLine(key, value)|)
                && (appendsDisabled ==> old(appendsDisabled) || activeSegment == MAX_SEGMENT_ID)
      ensures result.Stored? ==> key != TOMBSTONE_KEY && |EncodeLine(key, value)| <= maxRecordBytes
      ensures fileAdapter.failures >= old(fileAdapter.failures)
      ensures old(appendsDisabled) ==> appendsDisabled
      ensures old(loaded) && result.Stored? && key in old(index) && old(index[key].segment) != activeSegment && fileAdapter.failures == old(fileAdapter.failures) ==>
                Tidy(State(), old(index[key].segment))
    {
      hide Consistent, Appendable, Replayed, Holds, Openable, EncodeLine;
      result := SetLocked(key, value);
    }

    /** Deletes a key; an invisible key is left alone. False is an exception in the original. */
    method DeleteDisk(key: Bytes) returns (ok: bool)
      requires Valid()
      modifies this, fileAdapter
      ensures Valid()
      ensures ok ==> loaded
      ensures !loaded ==> fileAdapter.files == old(fileAdapter.files)
      ensures var seen := Replayed(old(fileAdapter.files) - unreadableSegments, maxRecordBytes);
              && VisibleMap() == (if ok then seen - {key} else seen)
              && FullMap() == if ok && key in seen then old(FullMap()) - {key} else old(FullMap())
      ensures SteadyOr(fileAdapter.instants, old(fileAdapter.instants), maxRecordBytes, old(FullMap()), FullMap())
      ensures old(loaded) ==> unreadableSegments == old(unreadableSegments) && loaded
      ensures !ok ==> || fileAdapter.failures > old(fileAdapter.failures)
                      || (key in Replayed(old(fileAdapter.files) - unreadableSegments, maxRecordBytes)
                          && (appendsDisabled || |EncodeLine(TOMBSTONE_KEY, key)| > maxRecordBytes))
      ensures old(loaded) && fileAdapter.failures == old(fileAdapter.failures) ==>
                && StaysUnlessFull(old(activeSegment), old(Count(segmentBytes, activeSegment)), |EncodeLine(TOMBSTONE_KEY, key)|)
                && (appendsDisabled ==> old(appendsDisabled) || activeSegment == MAX_SEGMENT_ID)
      ensures ok && key in Replayed(old(fileAdapter.files) - unreadableSegments, maxRecordBytes) ==>
                |EncodeLine(TOMBSTONE_KEY, key)| <= maxRecordBytes
      ensures fileAdapter.failures >= old(fileAdapter.failures)
      ensures old(appendsDisabled) ==> appendsDisabled
      ensures old(loaded) && ok ==> SameSegments(old(index) - {key}, index)
      ensures old(loaded) && ok && key in old(index) && fileAdapter.failures == old(fileAdapter.failures) ==>
                Tidy(State(), old(index[key].segment))
    {
      hide Consistent, Appendable, SameContents, Replayed, Holds, Openable, EncodeLine, Content, AppendedDeletion;
      ghost var instants, m := fileAdapter.instants, FullMap();
      var ready := EnsureReadyLocked();
      if !ready {
        return false;
      }
      VisibleKeys(State());
      if key !in index {
        return true;
      }
      ghost var start, instants1 := State(), fileAdapter.instants;
      var tombstoned, base := AppendTombstoneLocked(key);
      if !tombstoned {
        SteadyTwice(instants, instants1, fileAdapter.instants, maxRecordBytes, m);
        return false;
      }
      SteadyThenOr(instants, instants1, fileAdapter.instants, maxRecordBytes, m, FullMap());
      var deleted := RecordDeletion(key, base);
      ghost var stored, instants2 := State(), fileAdapter.instants;
      MaybeCompact(deleted.segment);
      SameFull(stored, State());
      OrThenSteady(instants, instants2, fileAdapter.instants, maxRecordBytes, m, FullMap());
      return true;
    }

    /**
      Reads a key. None means the key has no visible value, or a file call failed: a short or
      failed read never yields a wrong value.
     */
    method GetDisk(key: Bytes) returns (value: Option<Bytes>)
      requires Valid()
      modifies this, fileAdapter
      ensures Valid() && FullMap() == old(FullMap()) && VisibleSame(old(fileAdapter.files))
      ensures !loaded ==> fileAdapter.files == old(fileAdapter.files)
      ensures !loaded ==> value.None?
      ensures value.Some? ==> key in VisibleMap() && VisibleMap()[key] == value.value
      ensures value.None? ==> key !in VisibleMap() || fileAdapter.failures > old(fileAdapter.failures)
      ensures Steady(fileAdapter.instants, old(fileAdapter.instants), maxRecordBytes, old(FullMap()))
      ensures old(loaded) ==> State() == old(State()) && loaded && appendsDisabled == old(appendsDisabled)
      ensures old(loaded) ==> activeSegment == old(activeSegment)
      ensures fileAdapter.failures >= old(fileAdapter.failures)
    {
      hide Consistent, Appendable, Replayed, Holds, Openable, IsLine, Decode;
      var ready := EnsureReadyLocked();
      if !ready {
        return None;
      }
      VisibleKeys(State());
      if key !in index {
        return None;
      }
      var entry := index[key];
      ghost var stored := LiveLine(State(), key);
      var line := fileAdapter.ReadRange(entry.segment, entry.offset, entry.length);
      if line.None? {
        var missing := AnySegmentMissing();
        if missing {
          assert false;
        }
        return None;
      }
      PieceOfLine(fileAdapter.files, entry, stored, |line.value|);
      value := ParseValue(line.value, stored);
    }

    method HasDisk(key: Bytes) returns (has: bool)
      requires Valid()
      modifies this, fileAdapter
      ensures Valid() && FullMap() == old(FullMap()) && VisibleSame(old(fileAdapter.files))
      ensures loaded ==> (has <==> key in VisibleMap())
      ensures !loaded ==> !has && fileAdapter.failures > old(fileAdapter.failures)
      ensures old(loaded) ==> State() == old(State()) && loaded
      ensures Steady(fileAdapter.instants, old(fileAdapter.instants), maxRecordBytes, old(FullMap()))
    {
      hide Consistent, Appendable, Replayed, Holds, Openable;
      var ready := EnsureReadyLocked();
      if ready {
        VisibleKeys(State());
      }
      return ready && key in index;
    }

    /** Lists the visible keys; None is an exception in the original. */
    method GetAllDiskKeys() returns (keys: Option<set<Bytes>>)
      requires Valid()
      modifies this, fileAdapter
      ensures Valid() && FullMap() == old(FullMap()) && VisibleSame(old(fileAdapter.files))
      ensures keys.Some? ==> keys.value == VisibleMap().Keys
      ensures keys.None? ==> fileAdapter.failures > old(fileAdapter.failures)
      ensures old(loaded) ==> State() == old(State()) && loaded && keys.Some?
      ensures Steady(fileAdapter.instants, old(fileAdapter.instants), maxRecordBytes, old(FullMap()))
    {
      hide Consistent, Appendable, Replayed, Holds, Openable;
      var ready := EnsureReadyLocked();
      if !ready {
        return None;
      }
      VisibleKeys(State());
      assert index.Keys == VisibleMap().Keys;
      return Some(index.Keys);
    }

    /**
      Imports entries of an older storage, skipping keys that already have a visible value. Stops at
      the first failure; `done` entries were handled before it.
     */
    method MigrateLegacyEntries(entries: seq<(Bytes, Bytes)>) returns (result: SetResult, imported: nat, done: nat)
      requires Valid()
      modifies this, fileAdapter
      ensures Valid() && done <= |entries|
      ensures if result.Stored? then loaded && done == |entries| else loaded ==> done < |entries|
      ensures var seen := Replayed(old(fileAdapter.files) - unreadableSegments, maxRecordBytes);
              && VisibleMap() == Imported(seen, seen, entries[..done])
              && FullMap() == Imported(seen, old(FullMap()), entries[..done])
              && |VisibleMap()| == |seen| + imported
      ensures old(loaded) ==> unreadableSegments == old(unreadableSegments) && loaded
      ensures result.Rejected? ==> done < |entries| && loaded
      ensures !loaded ==> fileAdapter.files == old(fileAdapter.files) && done == 0
      ensures result.AppendsUnavailable? ==> appendsDisabled
      ensures result.AppendFailed? ==> fileAdapter.failures > old(fileAdapter.failures)
      ensures fileAdapter.failures >= old(fileAdapter.failures)
      ensures result.Rejected? ==>
                entries[done].0 == TOMBSTONE_KEY || |EncodeLine(entries[done].0, entries[done].1)| > maxRecordBytes
      ensures ImportsFit(Replayed(old(fileAdapter.files) - unreadableSegments, maxRecordBytes), entries[..done], maxRecordBytes)
      ensures ImportsSteadily(fileAdapter.instants, old(fileAdapter.instants), maxRecordBytes,
                              Replayed(old(fileAdapter.files) - unreadableSegments, maxRecordBytes), old(FullMap()), entries, done)
    {
      hide Consistent, Appendable, Replayed, Holds, Openable, EncodeLine, ImportsFit, Imported, ImportsSteadily, Steady, SteadyOr;
      ghost var instants := fileAdapter.instants;
      imported, done := 0, 0;
      var ready := EnsureReadyLocked();
      if !ready {
        NothingImported(VisibleMap(), FullMap(), maxRecordBytes);
        assert entries[..0] == [];
        ImportsNothing(fileAdapter.instants, instants, maxRecordBytes, VisibleMap(), FullMap(), entries);
        return AppendFailed, 0, 0;
      }
      ghost var seen, full := VisibleMap(), FullMap();
      NothingImported(seen, full, maxRecordBytes);
      ImportsNothing(fileAdapter.instants, instants, maxRecordBytes, seen, full, entries);
      assert entries[..0] == [] && entries[..|entries|] == entries;
      ghost var hidden := unreadableSegments;
      while done < |entries|
        invariant done <= |entries| && Ready() && Valid() && unreadableSegments == hidden
        invariant fileAdapter.failures >= old(fileAdapter.failures)
        invariant VisibleMap() == Imported(seen, seen, entries[..done])
        invariant FullMap() == Imported(seen, full, entries[..done])
        invariant |VisibleMap()| == |seen| + imported
        invariant ImportsFit(seen, entries[..done], maxRecordBytes)
        invariant ImportsSteadily(fileAdapter.instants, instants, maxRecordBytes, seen, full, entries, done)
      {
        var entry := entries[done];
        VisibleKeys(State());
        ImportedSnoc(seen, seen, entries[..done], entry);
        ImportedSnoc(seen, full, entries[..done], entry);
        assert entries[..done + 1] == entries[..done] + [entry];
        ImportsFitSnoc(seen, entries[..done], entry, maxRecordBytes);
        ghost var instants1 := fileAdapter.instants;
        if entry.0 !in index {
          OneKeyMore(VisibleMap(), entry.0, entry.1);
          result := SetLocked(entry.0, entry.1);
          if !result.Stored? {
            ImportRefused(fileAdapter.instants, instants1, instants, maxRecordBytes, seen, full, entries, done);
            return;
          }
          imported := imported + 1;
          ImportsOneMore(fileAdapter.instants, instants1, instants, maxRecordBytes, seen, full, entries, done);
        } else {
          ImportSkipped(instants1, instants, maxRecordBytes, seen, full, entries, done);
        }
        done := done + 1;
      }
      result := Stored;
    }
  }

  /** A map after importing entries, where only keys without a visible value are taken. */
  function Imported(visible: Contents, m: Contents, entries: seq<(Bytes, Bytes)>): Contents
    decreases |entries|
  {
    if entries == [] then m
    else
      var (k, v) := entries[|entries| - 1];
      var init := entries[..|entries| - 1];
      if k in Imported(visible, visible, init) then Imported(visible, m, init)
      else Imported(visible, m, init)[k := v]
  }

  lemma OneKeyMore(m: Contents, k: Bytes, v: Bytes)
    requires k !in m
    ensures |m[k := v]| == |m| + 1
  {
    assert m[k := v].Keys == m.Keys + {k};
  }

  lemma ImportedSnoc(visible: Contents, m: Contents, entries: seq<(Bytes, Bytes)>, entry: (Bytes, Bytes))
    ensures Imported(visible, m, entries + [entry]) ==
            if entry.0 in Imported(visible, visible, entries) then Imported(visible, m, entries)
            else Imported(visible, m, entries)[entry.0 := entry.1]
  {
    assert (entries + [entry])[..|entries|] == entries;
  }

  /** Every entry that was imported, and not skipped, is one the store may write. */
  ghost predicate ImportsFit(visible: Contents, entries: seq<(Bytes, Bytes)>, limit: nat) {
    forall i :: 0 <= i < |entries| && entries[i].0 !in Imported(visible, visible, entries[..i]) ==>
      entries[i].0 != TOMBSTONE_KEY && |EncodeLine(entries[i].0, entries[i].1)| <= limit
  }

  /** Wherever the process stops during an import, the disk holds what some number of the entries leave. */
  ghost predicate ImportsSteadily(instants: seq<Disk>, before: seq<Disk>, limit: nat, visible: Contents, full: Contents,
                                  entries: seq<(Bytes, Bytes)>, done: nat)
    requires done <= |entries|
  {
    && before <= instants
    && forall t :: |before| <= t < |instants| ==> HoldsImported(instants[t], limit, visible, full, entries, done)
  }

  ghost predicate HoldsImported(disk: Disk, limit: nat, visible: Contents, full: Contents, entries: seq<(Bytes, Bytes)>, done: nat)
    requires done <= |entries|
  {
    exists n: nat :: n <= done && Holds(disk, limit, Imported(visible, full, entries[..n]))
  }

  lemma ImportsNothing(instants: seq<Disk>, before: seq<Disk>, limit: nat, visible: Contents, full: Contents, entries: seq<(Bytes, Bytes)>)
    requires Steady(instants, before, limit, full)
    ensures ImportsSteadily(instants, before, limit, visible, full, entries, 0)
  {
    hide Holds;
    assert entries[..0] == [] && Imported(visible, full, []) == full;
    forall t | |before| <= t < |instants|
      ensures HoldsImported(instants[t], limit, visible, full, entries, 0)
    {
      assert Holds(instants[t], limit, Imported(visible, full, entries[..0]));
    }
  }

  lemma ImportSkipped(instants: seq<Disk>, before: seq<Disk>, limit: nat, visible: Contents, full: Contents,
                      entries: seq<(Bytes, Bytes)>, done: nat)
    requires done < |entries| && ImportsSteadily(instants, before, limit, visible, full, entries, done)
    ensures ImportsSteadily(instants, before, limit, visible, full, entries, done + 1)
  {
    hide Holds, Imported;
    forall t | |before| <= t < |instants|
      ensures HoldsImported(instants[t], limit, visible, full, entries, done + 1)
    {
      assert HoldsImported(instants[t], limit, visible, full, entries, done);
    }
  }

  lemma ImportRefused(instants: seq<Disk>, middle: seq<Disk>, before: seq<Disk>, limit: nat, visible: Contents, full: Contents,
                      entries: seq<(Bytes, Bytes)>, done: nat)
    requires done <= |entries| && ImportsSteadily(middle, before, limit, visible, full, entries, done)
    requires Steady(instants, middle, limit, Imported(visible, full, entries[..done]))
    ensures ImportsSteadily(instants, before, limit, visible, full, entries, done)
  {
    hide Holds, Imported;
    forall t | |before| <= t < |instants|
      ensures HoldsImported(instants[t], limit, visible, full, entries, done)
    {
      if t < |middle| {
        assert HoldsImported(middle[t], limit, visible, full, entries, done);
      } else {
        assert Holds(instants[t], limit, Imported(visible, full, entries[..done]));
      }
    }
  }

  lemma ImportsOneMore(instants: seq<Disk>, middle: seq<Disk>, before: seq<Disk>, limit: nat, visible: Contents, full: Contents,
                       entries: seq<(Bytes, Bytes)>, done: nat)
    requires done < |entries| && ImportsSteadily(middle, before, limit, visible, full, entries, done)
    requires SteadyOr(instants, middle, limit, Imported(visible, full, entries[..done]), Imported(visible, full, entries[..done + 1]))
    ensures ImportsSteadily(instants, before, limit, visible, full, entries, done + 1)
  {
    hide Holds, Imported;
    forall t | |before| <= t < |instants|
      ensures HoldsImported(instants[t], limit, visible, full, entries, done + 1)
    {
      if t < |middle| {
        assert HoldsImported(middle[t], limit, visible, full, entries, done);
      } else if Holds(instants[t], limit, Imported(visible, full, entries[..done])) {
        assert done <= done + 1;
      } else {
        assert Holds(instants[t], limit, Imported(visible, full, entries[..done + 1]));
      }
    }
  }

  lemma NothingImported(visible: Contents, full: Contents, limit: nat)
    ensures Imported(visible, visible, []) == visible && Imported(visible, full, []) == full
    ensures ImportsFit(visible, [], limit)
  {
  }

  lemma ImportsFitSnoc(visible: Contents, entries: seq<(Bytes, Bytes)>, entry: (Bytes, Bytes), limit: nat)
    requires ImportsFit(visible, entries, limit)
    ensures entry.0 in Imported(visible, visible, entries) || (entry.0 != TOMBSTONE_KEY && |EncodeLine(entry.0, entry.1)| <= limit) ==>
              ImportsFit(visible, entries + [entry], limit)
  {
    hide Imported, EncodeLine;
    var all := entries + [entry];
    assert forall i :: 0 <= i < |entries| ==> all[..i] == entries[..i] && all[i] == entries[i];
    assert all[..|entries|] == entries;
  }

  /** The value of a line read from a file, if all of it was read. */
  method ParseValue(piece: Bytes, ghost line: Bytes) returns (value: Option<Bytes>)
    requires IsLine(line) && Decode(line).Put? && |piece| <= |line| && piece == line[..|piece|]
    ensures |piece| == |line| ==> value == Some(Decode(line).value)
    ensures |piece| < |line| ==> value == None
  {
    var newline := Find(piece, NEWLINE, 0);
    var tab := Find(piece, TAB, 0);
    if |piece| == |line| {
      assert piece == line;
      FindIs(piece, NEWLINE, 0, |line| - 1);
      hide Unescape;
    }
    if newline == |piece| || tab == |piece| || tab > newline {
      return None;
    }
    value := UnescapeInto(piece[tab + 1..newline]);
  }

  predicate LineAt(disk: Disk, e: Entry, line: Bytes) {
    e.segment in disk && e.offset + e.length <= |disk[e.segment]| && line == disk[e.segment][e.offset..e.offset + e.length]
  }

  lemma PieceOfLine(disk: Disk, e: Entry, line: Bytes, n: nat)
    requires LineAt(disk, e, line) && n <= e.length
    ensures |line| == e.length && disk[e.segment][e.offset..e.offset + n] == line[..n]
  {
    PieceOf(disk[e.segment], e.offset, e.length, n);
  }

  lemma PieceOf(c: Bytes, offset: nat, length: nat, n: nat)
    requires offset + length <= |c| && n <= length
    ensures c[offset..offset + length][..n] == c[offset..offset + n]
  {
  }

  predicate Carries(line: Bytes, value: Bytes) {
    IsLine(line) && Decode(line).Put? && Decode(line).value == value
  }

  /** Where the index points lies the line that gives the key its visible value. */
  lemma LiveLine(s: Snapshot, k: Bytes) returns (line: Bytes)
    requires Consistent(s) && k in s.index
    ensures LineAt(s.disk, s.index[k], line)
    ensures k in Visible(s) && Carries(line, Visible(s)[k])
  {
    var visible := s.disk - s.hidden;
    hide Tracked, Accounted, DeletionsAsWritten, Replayed, Records, Decode, IsLine;
    var i := EntryWitness(s.index, visible, s.limit, k);
    ReplayedAt(visible, s.limit, k);
    RecordsCoverCompletePrefix(s.disk[s.index[k].segment]);
    line := s.disk[s.index[k].segment][s.index[k].offset..s.index[k].offset + s.index[k].length];
  }

  lemma AfterAppendDel(s: Snapshot, a: nat, key: Bytes)
    requires key in s.index && |Content(s.disk, a)| == Count(s.bytes, a)
    ensures var line := EncodeLine(TOMBSTONE_KEY, key);
            AfterAppend(s, a, Del(key)) ==
            s.(disk := s.disk[a := Content(s.disk, a) + line],
               index := s.index - {key},
               bytes := AddTo(s.bytes, a, |line|),
               dead := AddTo(AddTo(s.dead, a, |line|), s.index[key].segment, s.index[key].length))
  {
    hide EncodeLine, Content;
  }

  lemma DeletionOutcome(s: Snapshot, a: nat, key: Bytes)
    requires Consistent(s) && Appendable(s, a) && |EncodeLine(TOMBSTONE_KEY, key)| <= s.limit
    ensures var t := AfterAppend(s, a, Del(key));
            Full(t) == Full(s) - {key} && Visible(t) == Visible(s) - {key}
  {
    AppendStep(s, a, Del(key));
  }

  /** The index and the visible map have the same keys. */
  lemma VisibleKeys(s: Snapshot)
    requires Consistent(s)
    ensures forall k :: k in s.index <==> k in Visible(s)
  {
    hide Tracked, Accounted, DeletionsAsWritten, Replayed;
    forall k
      ensures k in s.index <==> k in Visible(s)
    {
      IndexKeysAreReplayed(s.index, s.disk - s.hidden, s.limit, k);
    }
  }

  lemma PutIsWritten(key: Bytes, value: Bytes)
    requires key != TOMBSTONE_KEY
    ensures WrittenLine(EncodeLine(key, value))
  {
    assert Writable(Put(key, value)) && EncodeLine(key, value) == EncodeOp(Put(key, value));
  }

  lemma DeletionIsWritten(key: Bytes)
    ensures WrittenLine(EncodeLine(TOMBSTONE_KEY, key))
  {
    assert Writable(Del(key)) && EncodeLine(TOMBSTONE_KEY, key) == EncodeOp(Del(key));
  }

  lemma LineIsEncoded(key: Bytes, value: Bytes, line: Bytes)
    requires line == ([] + Escape(key) + [TAB]) + Escape(value) + [NEWLINE]
    ensures line == EncodeLine(key, value)
  {
    hide Escape;
  }

  lemma AfterAppendPut(s: Snapshot, a: nat, key: Bytes, value: Bytes)
    ensures AfterAppend(s, a, Put(key, value)) ==
            s.(disk := s.disk[a := Content(s.disk, a) + EncodeLine(key, value)],
               index := s.index[key := Entry(a, |Content(s.disk, a)|, |EncodeLine(key, value)|)],
               bytes := s.bytes[a := |Content(s.disk, a)| + |EncodeLine(key, value)|],
               dead := if key in s.index then AddTo(s.dead, s.index[key].segment, s.index[key].length) else s.dead)
  {
    hide EncodeLine, Content;
  }

  /** Everything needed to record a value that has been appended. */
  lemma PutOutcome(s: Snapshot, a: nat, key: Bytes, value: Bytes)
    requires Consistent(s) && Appendable(s, a) && Writable(Put(key, value)) && |EncodeLine(key, value)| <= s.limit
    ensures var t := AfterAppend(s, a, Put(key, value));
            var n := Count(s.bytes, a);
            && Consistent(t) && Appendable(t, a)
            && t == s.(disk := s.disk[a := Content(s.disk, a) + EncodeLine(key, value)],
                       index := s.index[key := Entry(a, n, |EncodeLine(key, value)|)],
                       bytes := s.bytes[a := n + |EncodeLine(key, value)|],
                       dead := if key in s.index then AddTo(s.dead, s.index[key].segment, s.index[key].length) else s.dead)
    ensures key in s.index ==> s.index[key].segment !in s.hidden
  {
    hide Consistent, Appendable, EncodeLine, Content, AfterAppend, AddTo, Count;
    AppendableContent(s, a);
    AppendStep(s, a, Put(key, value));
    EntryIsReadable(s, key);
    AfterAppendPut(s, a, key, value);
  }

  lemma EntryIsReadable(s: Snapshot, k: Bytes)
    requires Consistent(s)
    ensures k in s.index ==> s.index[k].segment !in s.hidden
  {
    if k in s.index {
      var i := EntryWitness(s.index, s.disk - s.hidden, s.limit, k);
    }
  }

  /** Creating an empty file, or appending nothing to one, changes nothing. */
  lemma TouchIsSilent(s: Snapshot, a: nat)
    requires Consistent(s) && Torn(s, a)
    ensures var t := s.(disk := s.disk[a := Content(s.disk, a)]);
            Consistent(t) && SameContents(s, t) && Torn(t, a)
  {
    var next := s.disk[a := Content(s.disk, a)];
    assert Silent(s.disk, next) by {
      hide Records, CompletePrefixLength;
      assert forall id: nat :: Content(next, id) == Content(s.disk, id);
    }
    SilentStep(s, next);
  }

  lemma NothingAppended(disk: Disk, a: nat, before: seq<Disk>, limit: nat)
    ensures AppendStates(disk, a, [], 0) == [disk[a := Content(disk, a)]]
  {
    var c := Content(disk, a);
    var none: Bytes := [];
    assert c + none[..0] == c;
  }

  /** While only the store changes the directory, no segment with bytes on record is missing. */
  lemma RecordedSegmentsExist(s: Snapshot)
    requires Consistent(s)
    ensures forall id :: id in s.bytes && s.bytes[id] > 0 ==> id in s.disk
  {
    NothingIsComplete();
    hide IndexMatches, DeletionsAsWritten, Accounted, CompletePrefixLength;
    forall id | id in s.bytes && s.bytes[id] > 0
      ensures id in s.disk
    {
      assert Count(s.bytes, id) == if id in s.hidden then 0 else CompleteLength(s.disk, id);
    }
  }

  lemma ForgetKeepsAppendable(s: Snapshot, a: nat, before: nat)
    requires Appendable(s, before) && before != a
    ensures Appendable(s.(bytes := s.bytes - {a}, dead := s.dead - {a}), before)
  {
  }

  lemma AfterCompactionIs(s: Snapshot, seg: nat, comp: Compaction)
    ensures AfterCompaction(s, seg, comp) ==
            s.(disk := if comp.rebuilt == [] then s.disk - {seg} else s.disk[seg := comp.rebuilt],
               index := s.index + comp.moved,
               bytes := s.bytes[seg := |comp.rebuilt|],
               dead := s.dead[seg := comp.tombstoneBytes])
  {
  }

  lemma CompactionKeepsSegments(s: Snapshot, seg: nat, comp: Compaction, lower: bool)
    requires Consistent(s) && Compacts(s, seg, comp, lower)
    ensures SameSegments(s.index, s.index + comp.moved)
  {
    forall k
      ensures k in comp.moved ==> k in s.index && s.index[k].segment == seg && comp.moved[k].segment == seg
    {
      CompactionSays(s, seg, comp, lower, k);
    }
    hide Consistent, Compacts;
  }

  lemma LoadedSilently(s: Snapshot, first: Disk)
    requires Loading(s, first, {})
    ensures Silent(first, s.disk)
  {
  }

  /** Segments whose bytes are all dead are readable and hold no live record. */
  lemma ReclaimableIsUnused(s: Snapshot, a: nat, unused: set<nat>)
    requires Consistent(s)
    requires unused == set id | id in s.bytes && id != a && s.bytes[id] > 0 && Count(s.dead, id) >= s.bytes[id]
    ensures a !in unused && unused !! s.hidden && forall k :: k in s.index ==> s.index[k].segment !in unused
  {
    TrackedIsReadable(s);
    forall k | k in s.index
      ensures s.index[k].segment !in unused
    {
      var id := s.index[k].segment;
      assert Count(s.dead, id) + LiveBytes(s.index, id) == Count(s.bytes, id);
      LiveIsCounted(s, k);
    }
  }

  lemma LiveIsCounted(s: Snapshot, k: Bytes)
    requires Consistent(s) && k in s.index
    ensures LiveBytes(s.index, s.index[k].segment) > 0
  {
    var visible := s.disk - s.hidden;
    var i := EntryWitness(s.index, visible, s.limit, k);
    RecordsCoverCompletePrefix(visible[s.index[k].segment]);
    LiveRemove(s.index, s.index[k].segment, k);
    hide Tracked, Accounted, Marked, DeletionsAsWritten, IndexMatches, LiveBytes;
  }

  /** The segment of a superseded record still counts its bytes. */
  lemma SupersededIsCounted(s: Snapshot, a: nat, op: Op)
    requires Consistent(s) && !op.Skip?
    ensures op.key in s.index ==> Count(AfterAppend(s, a, op).bytes, s.index[op.key].segment) > 0
  {
    if op.key in s.index {
      var id := s.index[op.key].segment;
      LiveIsCounted(s, op.key);
      assert Count(s.dead, id) + LiveBytes(s.index, id) == Count(s.bytes, id);
      hide Consistent, LiveBytes, Content, Escape;
    }
  }

  lemma OpenedSpares(first: Disk, s: Snapshot, a: nat, unused: set<nat>, now: Disk)
    requires Consistent(s) && Silent(first, s.disk)
    requires a !in unused && unused !! s.hidden && forall k :: k in s.index ==> s.index[k].segment !in unused
    requires AllSpared(s.disk, now, unused, s.limit)
    ensures KeepsOutOfReach(first, now, s.hidden, s.limit, a)
  {
    hide IndexMatches, Tracked, Accounted, Marked, DeletionsAsWritten, AllSpared, KeepsOutOfReach, Silent;
    OpeningSpares(first, s, a, unused, now);
  }

  /** Everything a caller needs to know about an installed compaction. */
  lemma ReplaceOutcome(s: Snapshot, seg: nat, comp: Compaction, lower: bool)
    requires Consistent(s) && Compacts(s, seg, comp, lower)
    ensures var t := AfterCompaction(s, seg, comp);
            && Consistent(t) && SameContents(s, t) && SameContents(s, s)
            && (forall a :: Appendable(s, a) ==> Appendable(t, a))
            && SameSegments(s.index, s.index + comp.moved)
            && Replayed(t.disk, t.limit) == Replayed(s.disk, s.limit)
            && Holds(t.disk, t.limit, Full(s)) && Holds(s.disk, s.limit, Full(s))
  {
    var t := AfterCompaction(s, seg, comp);
    CompactionStep(s, seg, comp, lower);
    CompactionFindsAll(s, seg, comp, lower);
    CompactionKeepsSegments(s, seg, comp, lower);
    assert seg in s.disk;
    hide Consistent, Compacts, Replayed, AfterCompaction, Holds, SameSegments;
    ConsistentHolds(s);
    ConsistentHolds(t);
    forall a | Appendable(s, a)
      ensures Appendable(t, a)
    {
      CompactionAppendable(s, seg, comp, a);
    }
  }

  /** Index entries of a readable segment are live records of its file. */
  lemma LiveRecordsInSegment(s: Snapshot, seg: nat)
    requires Consistent(s) && seg in s.disk && seg !in s.hidden
    ensures forall k :: k in s.index && s.index[k].segment == seg ==> SomeLive(Records(s.disk[seg]), k, s.index, seg)
  {
    hide SomeLive, Records, IndexMatches, Tracked, Accounted, DeletionsAsWritten;
    assert (s.disk - s.hidden)[seg] == s.disk[seg];
    IndexLiveAgree(s.index, s.disk - s.hidden, s.limit, seg);
  }

  /** The guard on partially read segments is what allows the move. */
  lemma MoveAllowed(s: Snapshot, seg: nat, a: nat, comp: Compaction)
    requires Compacts(s, seg, comp, true) && Appendable(s, a) && seg < a
    requires forall k :: k in s.index ==> s.index[k].segment != seg
    requires forall p :: p in s.partial ==> p <= seg
    ensures Moves(s, seg, a, comp)
  {
  }

  lemma AfterMoveIs(s: Snapshot, seg: nat, a: nat, tombstones: Bytes)
    ensures AfterMove(s, seg, a, tombstones) ==
            var t := AfterMerge(s, a, tombstones);
            t.(disk := t.disk - {seg}, bytes := t.bytes[seg := 0], dead := t.dead[seg := 0])
  {
  }

  /** While a directory is being loaded, a store could still be opened on it. */
  lemma LoadingHolds(s: Snapshot, first: Disk, todo: set<nat>)
    requires Loading(s, first, todo) && Openable(first)
    ensures Holds(s.disk, s.limit, Replayed(first, s.limit))
  {
    SilentKeepsDeletions(first, s.disk);
    hide DeletionsAsWritten, Silent, Replayed, IndexMatches;
    WithoutNothing(first);
    WithoutNothing(s.disk);
    SilentKeepsReplay(first, s.disk, {}, s.limit);
  }

  /**
    Deletes the last live key of a segment. If no segment below holds data, and no call fails, nothing
    of that segment stays behind, not even a deletion.
   */
  method DeleteLastKey(store: JsonlSegmentStore, key: Bytes) returns (ok: bool, segment: nat)
    requires store.Valid() && store.loaded && key in store.index
    requires forall k :: k in store.index && k != key ==> store.index[k].segment != store.index[key].segment
    modifies store, store.fileAdapter
    ensures store.Valid() && segment == old(store.index[key].segment)
    ensures ok && store.fileAdapter.failures == old(store.fileAdapter.failures) && NothingBelow(store.State(), segment) ==>
              segment !in store.fileAdapter.files
  {
    hide Consistent, Appendable, Replayed, NothingBelow, NoGarbage, Tidy;
    segment := store.index[key].segment;
    ghost var failures := store.fileAdapter.failures;
    ok := store.DeleteDisk(key);
    if ok && store.fileAdapter.failures == failures && NothingBelow(store.State(), segment) {
      TidyAndDead(store.State(), segment);
    }
  }
}
