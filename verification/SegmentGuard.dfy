/**
  The disk on which the guard on partially read segments matters (the repository tests it in
  cpp/bindings/HybridAmplitudeStorageTest.cpp:3333-3350): a key is set, deleted one segment above, and
  set again two segments above to a value too long for this session.
 */
module SegmentGuard {
  import opened Wrappers
  import opened SegmentCodec
  import opened Replay
  import opened SegmentIndex
  import opened SegmentCompaction
  import opened SegmentInvariant
  import opened SegmentLimits
  import opened SegmentLoad
  import opened SegmentMoves
  import opened FileAdapters
  import opened JsonlSegmentStores

  /** The key with its two values, and three other keys that keep their segments in use. */
  datatype Example = Example(key: Bytes, older: Bytes, newer: Bytes, low: Bytes, middle: Bytes, high: Bytes)

  /** Everything fits `limit` but the newer value, and that fits `more`. */
  predicate Fits(e: Example, limit: nat, more: nat) {
    && TOMBSTONE_KEY !in [e.key, e.low, e.middle, e.high]
    && e.key !in [e.low, e.middle, e.high] && e.middle != e.high
    && |EncodeLine(e.key, e.older)| <= limit && |EncodeLine(TOMBSTONE_KEY, e.key)| <= limit
    && |EncodeLine(e.low, [])| <= limit && |EncodeLine(e.middle, [])| <= limit && |EncodeLine(e.high, [])| <= limit
    && limit < |EncodeLine(e.key, e.newer)| <= more
  }

  function FourSegments(e: Example): Disk {
    map[0 := EncodeLine(e.key, e.older) + EncodeLine(e.low, []),
        1 := EncodeLine(TOMBSTONE_KEY, e.key),
        2 := EncodeLine(e.key, e.newer) + EncodeLine(e.middle, []),
        3 := EncodeLine(e.high, [])]
  }

  function PutEffect(key: Bytes, value: Bytes, offset: nat, k: Bytes, limit: nat): Effect {
    if key == k && |EncodeLine(key, value)| <= limit then Sets(value, offset, |EncodeLine(key, value)|) else Untouched
  }

  lemma TwoSets(key: Bytes, value: Bytes, other: Bytes, k: Bytes, limit: nat)
    requires key != TOMBSTONE_KEY && other != TOMBSTONE_KEY
    ensures var c, n, m := EncodeLine(key, value) + EncodeLine(other, []), |EncodeLine(key, value)|, |EncodeLine(other, [])|;
            && Records(c) == [Rec(0, n, Put(key, value)), Rec(n, m, Put(other, []))]
            && CompletePrefixLength(c) == |c|
            && EffectIn(c, k, limit) == Over(PutEffect(other, [], n, k, limit), PutEffect(key, value, 0, k, limit))
  {
    EncodedLineShape(key, value);
    EncodedLineShape(other, []);
    DecodeInvertsEncodeLine(key, value);
    DecodeInvertsEncodeLine(other, []);
    hide EncodeLine, Decode, Records, IsLine, CompletePrefixLength;
    var first, second := EncodeLine(key, value), EncodeLine(other, []);
    LinesTogether(first, second);
    var r1, r2 := Rec(0, |first|, Put(key, value)), Rec(|first|, |second|, Put(other, []));
    assert [r1, r2] == ([] + [r1]) + [r2];
    EffectSnoc([], r1, k, limit);
    EffectSnoc([] + [r1], r2, k, limit);
  }

  lemma OneSet(key: Bytes, value: Bytes, k: Bytes, limit: nat)
    ensures var c := EncodeLine(key, value);
            && Records(c) == [Rec(0, |c|, if key == TOMBSTONE_KEY then Del(value) else Put(key, value))]
            && CompletePrefixLength(c) == |c|
            && EffectIn(c, k, limit) ==
               if key != TOMBSTONE_KEY then PutEffect(key, value, 0, k, limit)
               else if k == value && |c| <= limit then Erases
               else Untouched
  {
    EncodedLineShape(key, value);
    DecodeInvertsEncodeLine(key, value);
    hide EncodeLine, Decode, Records, IsLine;
    var c := EncodeLine(key, value);
    RecordsOfLine(c);
    var r := Rec(0, |c|, if key == TOMBSTONE_KEY then Del(value) else Put(key, value));
    assert [r] == [] + [r];
    EffectSnoc([], r, k, limit);
    LineIsComplete(c);
  }

  lemma LineIsComplete(c: Bytes)
    requires IsLine(c)
    ensures CompletePrefixLength(c) == |c|
  {
  }

  /** What each segment says about the key and about the one in use beside its newer value. */
  lemma Says(e: Example, limit: nat, more: nat, at: nat)
    requires Fits(e, limit, more) && limit <= at <= more && (at == limit || at == more)
    ensures var d := FourSegments(e);
            && EffectAt(d, 1, e.key, at).Erases?
            && EffectAt(d, 2, e.key, at) == (if at == more then Sets(e.newer, 0, |EncodeLine(e.key, e.newer)|) else Untouched)
            && EffectAt(d, 2, e.middle, at).Sets? && EffectAt(d, 3, e.key, at).Untouched?
  {
    OneSet(TOMBSTONE_KEY, e.key, e.key, at);
    TwoSets(e.key, e.newer, e.middle, e.key, at);
    TwoSets(e.key, e.newer, e.middle, e.middle, at);
    OneSet(e.high, [], e.key, at);
    hide EncodeLine, EffectIn, Records;
  }

  /** Read with the higher limit, the key has the newer value, and its segment is in use at the lower limit. */
  lemma NewerValueIsOutOfReach(e: Example, limit: nat, more: nat, a: nat)
    requires Fits(e, limit, more)
    ensures ValueIn(FourSegments(e), e.key, more) == Some(e.newer) && Decider(FourSegments(e), e.key, more) == Some(2)
    ensures OutOfReach(FourSegments(e), {}, limit, a, e.key, more)
  {
    var d := FourSegments(e);
    Says(e, limit, more, more);
    Says(e, limit, more, limit);
    HighestSays(e, e.key, more, 2);
    MiddleIsUseful(e, limit, more);
    hide EncodeLine, EffectIn, EntryIn, ValueIn;
    assert d - {} == d;
    assert Useful(d, limit, 2);
  }

  /** The last segment but one decides what the last one does not speak of. */
  lemma HighestSays(e: Example, k: Bytes, at: nat, id: nat)
    requires !EffectAt(FourSegments(e), id, k, at).Untouched? && id <= 3
    requires forall j: nat :: id < j <= 3 ==> EffectAt(FourSegments(e), j, k, at).Untouched?
    ensures DecidedBy(FourSegments(e), k, at, id) && Decider(FourSegments(e), k, at) == Some(id)
    ensures ValueIn(FourSegments(e), k, at) == ValueOf(EffectAt(FourSegments(e), id, k, at))
    ensures EntryIn(FourSegments(e), k, at) == EntryOf(id, EffectAt(FourSegments(e), id, k, at))
  {
    hide EncodeLine, EffectIn;
    var d := FourSegments(e);
    forall j: nat | j > id
      ensures EffectAt(d, j, k, at).Untouched?
    {
      assert j > 3 ==> j !in d;
    }
    hide EffectAt, FourSegments;
    DeciderIs(d, k, at, id);
    ValueDecided(d, k, at, id);
    EntryDecided(d, k, at, id);
  }

  lemma MiddleIsUseful(e: Example, limit: nat, more: nat)
    requires Fits(e, limit, more)
    ensures Useful(FourSegments(e), limit, 2)
  {
    var d := FourSegments(e);
    Says(e, limit, more, limit);
    OneSet(e.high, [], e.middle, limit);
    hide EncodeLine, EffectIn;
    var k := e.middle;
    HighestSays(e, k, limit, 2);
    assert EntryIn(d, k, limit).Some? && EntryIn(d, k, limit).value.segment == 2;
  }

  // ----------------------------------------------------------- with the guard

  /** A session with the lower limit opens the directory: the newer value stays what a higher limit reads. */
  method OpenLimited(fileAdapter: FileAdapter, ghost e: Example, maxSegmentBytes: nat, limit: nat, ghost more: nat)
    requires Fits(e, limit, more) && 0 < limit && more <= DEFAULT_MAX_RECORD_BYTES
    requires fileAdapter.files == FourSegments(e)
    modifies fileAdapter
    ensures Openable(fileAdapter.files) && fileAdapter.failures >= old(fileAdapter.failures)
    ensures fileAdapter.failures > old(fileAdapter.failures) || ValueIn(fileAdapter.files, e.key, more) == Some(e.newer)
  {
    ghost var first := fileAdapter.files;
    ExampleIsOpenable(e);
    hide Replayed, Consistent, Appendable, Openable, EncodeLine, FourSegments, KeepsOutOfReach, Fits, ValueIn, NothingDead, MarkedForCause;
    var limited := new JsonlSegmentStore(fileAdapter, maxSegmentBytes, limit);
    NewerValueIsOutOfReach(e, limit, more, limited.activeSegment) by {
      assert Fits(e, limit, more);
    }
    FitsBounds(e, limit, more);
    StoreIsOpenable(limited);
    if limited.loaded && limited.unreadableSegments == {} {
      KeptValue(first, fileAdapter.files, limit, limited.activeSegment, e.key, more);
    }
  }

  /**
    The repository's test for any file failures: a session with the lower limit opens the directory,
    a later one with the higher limit reads the key. Unless a call failed it finds the newer value.
   */
  method OpenAndReadLater(fileAdapter: FileAdapter, ghost e: Example, key: Bytes, maxSegmentBytes: nat, limit: nat, more: nat)
    returns (value: Option<Bytes>)
    requires key == e.key && Fits(e, limit, more) && 0 < limit && more <= DEFAULT_MAX_RECORD_BYTES
    requires fileAdapter.files == FourSegments(e)
    modifies fileAdapter
    ensures fileAdapter.failures > old(fileAdapter.failures) || value == Some(e.newer)
  {
    OpenLimited(fileAdapter, e, maxSegmentBytes, limit, more);
    FitsBounds(e, limit, more);
    hide Replayed, Consistent, Appendable, Openable, EncodeLine, FourSegments, KeepsOutOfReach, Fits, ValueIn, NothingDead, MarkedForCause;
    ReplayedAt(fileAdapter.files, more, key);
    var unlimited := new JsonlSegmentStore(fileAdapter, maxSegmentBytes, more);
    value := unlimited.GetDisk(key);
    if fileAdapter.failures == old(fileAdapter.failures) {
      WithoutNothing(fileAdapter.files);
    }
  }

  lemma FitsBounds(e: Example, limit: nat, more: nat)
    requires Fits(e, limit, more)
    ensures limit < more
  {
  }

  lemma KeptValue(first: Disk, now: Disk, limit: nat, a: nat, k: Bytes, more: nat)
    requires KeepsOutOfReach(first, now, {}, limit, a) && limit <= more && OutOfReach(first, {}, limit, a, k, more)
    ensures ValueIn(now, k, more) == ValueIn(first, k, more)
  {
    hide OutOfReach, ValueIn;
  }

  lemma StoreIsOpenable(store: JsonlSegmentStore)
    requires store.Valid()
    ensures Openable(store.fileAdapter.files)
  {
    hide Appendable, DeletionsAsWritten, IdsFit, Tracked, Accounted, Marked, IndexMatches;
  }

  lemma SetsAreAsWritten(key: Bytes, value: Bytes, other: Bytes)
    requires key != TOMBSTONE_KEY && other != TOMBSTONE_KEY
    ensures AsWrittenIn(Records(EncodeLine(key, value) + EncodeLine(other, [])))
  {
    TwoSets(key, value, other, key, 0);
    hide EncodeLine, Records, EffectIn, CompletePrefixLength;
  }

  lemma LineIsAsWritten(key: Bytes, value: Bytes)
    ensures AsWrittenIn(Records(EncodeLine(key, value)))
  {
    OneSet(key, value, key, 0);
    hide EncodeLine, Records, EffectIn, CompletePrefixLength;
  }

  lemma ExampleIsOpenable(e: Example)
    requires TOMBSTONE_KEY !in [e.key, e.low, e.middle, e.high]
    ensures Openable(FourSegments(e))
  {
    hide EncodeLine, Records, AsWrittenIn;
    assert e.key != TOMBSTONE_KEY && e.low != TOMBSTONE_KEY && e.middle != TOMBSTONE_KEY;
    SetsAreAsWritten(e.key, e.older, e.low);
    LineIsAsWritten(TOMBSTONE_KEY, e.key);
    SetsAreAsWritten(e.key, e.newer, e.middle);
    LineIsAsWritten(e.high, []);
  }

  // -------------------------------------------------------- without the guard

  /**
    Without it, a store that has loaded this directory would move the deletion above the newer value,
    and a later session could no longer find it. With it the segment in between is marked.
   */
  lemma UnguardedMoveLosesValue(e: Example, s: Snapshot, limit: nat, more: nat) returns (comp: Compaction)
    requires Fits(e, limit, more)
    requires Consistent(s) && s.disk == FourSegments(e) && s.hidden == {} && s.limit == limit
    ensures Movable(s, 1, 3, comp) && 2 in s.partial && !Moves(s, 1, 3, comp)
    ensures ValueIn(s.disk, e.key, more) == Some(e.newer)
    ensures ValueIn(AfterMove(s, 1, 3, comp.rebuilt).disk, e.key, more) == None
  {
    comp := DeletionCanMove(e, s, limit, more);
    NewerIsMarked(e, s, limit, more);
    NewerValueIsOutOfReach(e, limit, more, 3);
    DeletionIsKept(e, s, limit, more);
    FitsBounds(e, limit, more);
    MovedEffects(s, 1, 3, comp, e.key, more);
    ErasedByHighest(AfterMove(s, 1, 3, comp.rebuilt).disk, 3, e.key, more);
  }

  lemma NewerIsMarked(e: Example, s: Snapshot, limit: nat, more: nat)
    requires Fits(e, limit, more) && Marked(s) && s.disk == FourSegments(e) && s.limit == limit
    ensures 2 in s.partial
  {
    TwoSets(e.key, e.newer, e.middle, e.key, limit);
    hide EncodeLine, Records, EffectIn;
    assert Records(s.disk[2])[0].op.Put?;
  }

  lemma DeletionIsKept(e: Example, s: Snapshot, limit: nat, more: nat)
    requires Fits(e, limit, more) && s.disk == FourSegments(e) && s.hidden == {} && s.limit == limit
    requires IndexMatches(s.index, s.disk - s.hidden, limit)
    ensures KeepsDeletion(Records(s.disk[1]), s.index, true, e.key, more)
  {
    Says(e, limit, more, limit);
    DeletionFirst(e.key);
    FitsBounds(e, limit, more);
    assert |EncodeLine(TOMBSTONE_KEY, e.key)| <= more && s.disk[1] == EncodeLine(TOMBSTONE_KEY, e.key);
    hide EncodeLine, Records, EffectIn, EntryIn, Fits, FirstDeletion, FourSegments, EffectAt;
    HighestSays(e, e.key, limit, 1);
    assert s.disk - s.hidden == s.disk;
    assert Lookup(s.index, e.key) == EntryIn(s.disk, e.key, limit) == None;
  }

  lemma DeletionFirst(key: Bytes)
    ensures FirstDeletion(Records(EncodeLine(TOMBSTONE_KEY, key)), key) == Some(|EncodeLine(TOMBSTONE_KEY, key)|)
  {
    OneSet(TOMBSTONE_KEY, key, key, 0);
    hide EncodeLine, Records, EffectIn, CompletePrefixLength;
    var rs := Records(EncodeLine(TOMBSTONE_KEY, key));
    assert rs[..0] == [];
  }

  lemma DeletionCanMove(e: Example, s: Snapshot, limit: nat, more: nat) returns (comp: Compaction)
    requires Fits(e, limit, more)
    requires Consistent(s) && s.disk == FourSegments(e) && s.hidden == {} && s.limit == limit
    ensures Movable(s, 1, 3, comp)
  {
    hide EncodeLine, Records, EffectIn, IndexMatches, Accounted, DeletionsAsWritten, Marked, Tracked, CompactRecs, LocatedIn,
         CompletePrefixLength, Fits;
    RecordsCoverCompletePrefix(s.disk[1]);
    comp := CompactRecs(s.disk[1], Records(s.disk[1]), s.index, 1, true);
    LastIsAppendable(e, s);
    FirstHoldsData(e, s);
    forall k | k in s.index
      ensures s.index[k].segment != 1
    {
      DeletionIsNoEntry(e, s, k);
    }
    hide Appendable, FourSegments, NothingBelow;
  }

  lemma FirstHoldsData(e: Example, s: Snapshot)
    requires s.disk == FourSegments(e)
    ensures !NothingBelow(s, 1)
  {
    var c := s.disk[0];
    hide Escape;
    assert c[|c| - 1] == NEWLINE;
    assert CompleteLength(s.disk, 0) == |c| > 0;
  }

  lemma LastIsAppendable(e: Example, s: Snapshot)
    requires Tracked(s) && s.disk == FourSegments(e) && s.hidden == {}
    ensures Appendable(s, 3)
  {
    OneSet(e.high, [], e.high, 0);
    hide EncodeLine, Records, EffectIn, CompletePrefixLength;
    assert Count(s.bytes, 3) == CompleteLength(s.disk, 3);
  }

  lemma DeletionIsNoEntry(e: Example, s: Snapshot, k: Bytes)
    requires IndexMatches(s.index, s.disk - s.hidden, s.limit) && s.disk == FourSegments(e) && k in s.index
    ensures s.index[k].segment != 1
  {
    OneSet(TOMBSTONE_KEY, e.key, k, s.limit);
    hide EncodeLine, Records, EffectIn, IndexMatches;
    if s.index[k].segment == 1 {
      LiveEffect(s, 1, k);
      assert false;
    }
  }

  // ------------------------------------------------------- a store that has loaded it

  /** What a store knows once it has read every segment of a disk. */
  ghost function LoadedIndex(disk: Disk, limit: nat): Index {
    map k | k in Replayed(disk, limit) :: if EntryIn(disk, k, limit).Some? then EntryIn(disk, k, limit).value else Entry(0, 0, 0)
  }

  lemma LoadedIndexMatches(disk: Disk, limit: nat)
    ensures IndexMatches(LoadedIndex(disk, limit), disk, limit)
  {
    hide Replayed, EntryIn, ValueIn;
    forall k
      ensures Lookup(LoadedIndex(disk, limit), k) == EntryIn(disk, k, limit)
    {
      ReplayedAt(disk, limit, k);
      EntryAndValue(disk, k, limit);
    }
  }

  /** Everything but the dead bytes, which are counted last. */
  ghost function LoadedSnapshot(disk: Disk, limit: nat): Snapshot {
    Snapshot(disk, {}, (set id | id in disk && !SetsFit(Records(disk[id]), limit)), LoadedIndex(disk, limit),
             (map id | id in disk :: CompleteLength(disk, id)), map[], limit)
  }

  lemma LoadedIsIndexed(disk: Disk, limit: nat)
    requires Openable(disk)
    ensures Indexed(LoadedSnapshot(disk, limit))
  {
    LoadedIndexMatches(disk, limit);
    assert disk - {} == disk;
    NothingIsComplete();
    hide IndexMatches, LoadedIndex, DeletionsAsWritten, CompletePrefixLength, SetsFit;
  }

  /** Counting the dead bytes completes the invariant. */
  lemma CountedIsConsistent(s: Snapshot) returns (t: Snapshot)
    requires Indexed(s)
    ensures Consistent(t) && t == s.(dead := t.dead)
  {
    hide LiveBytes;
    var dead := map id | id in s.bytes :: if s.bytes[id] >= LiveBytes(s.index, id) then s.bytes[id] - LiveBytes(s.index, id) else 0;
    t := s.(dead := dead);
    assert Accounted(t) by {
      hide Indexed;
      forall id: nat
        ensures Count(dead, id) + LiveBytes(s.index, id) == Count(s.bytes, id)
      {
        LiveWithinCount(s, id);
      }
    }
    hide Accounted;
    IndexedIgnoresDead(s, t);
  }

  /** Such a state exists for every disk a store can be opened on, so the lemma above is about something. */
  lemma LoadedStateExists(disk: Disk, limit: nat) returns (s: Snapshot)
    requires Openable(disk)
    ensures Consistent(s) && s.disk == disk && s.hidden == {} && s.limit == limit
    ensures s.partial == set id | id in disk && !SetsFit(Records(disk[id]), limit)
  {
    LoadedIsIndexed(disk, limit);
    hide Indexed, LoadedIndex, SetsFit, CompleteLength, Openable, Consistent;
    s := CountedIsConsistent(LoadedSnapshot(disk, limit));
  }
}
