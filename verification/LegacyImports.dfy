/**
  What an import of legacy entries does to the disk when this session could not read all of it. The
  store skips a key that has a visible value (cpp/core/JsonlSegmentStore.cpp:638-644); the segments it
  could not read are not consulted.
 */
module LegacyImports {
  import opened Wrappers
  import opened SegmentCodec
  import opened Replay
  import opened SegmentInvariant
  import opened JsonlSegmentStores

  /** The first value that the entries give for a key. */
  function FirstOf(entries: seq<(Bytes, Bytes)>, k: Bytes): Option<Bytes> {
    if entries == [] then None
    else
      var earlier := FirstOf(entries[..|entries| - 1], k);
      var (key, value) := entries[|entries| - 1];
      if earlier.None? && key == k then Some(value) else earlier
  }

  /** What an import does to one key. */
  lemma {:induction false} ImportedAt(visible: Contents, m: Contents, entries: seq<(Bytes, Bytes)>, k: Bytes)
    ensures k in Imported(visible, visible, entries) <==> k in visible || FirstOf(entries, k).Some?
    ensures Lookup(Imported(visible, m, entries), k) ==
            if k in visible || FirstOf(entries, k).None? then Lookup(m, k) else FirstOf(entries, k)
    decreases |entries|
  {
    if entries != [] {
      var init, key := entries[..|entries| - 1], entries[|entries| - 1].0;
      ImportedAt(visible, m, init, k);
      if key != k {
        ImportedAt(visible, m, init, key);
      }
    }
  }

  lemma NothingSaid(files: Disk, hidden: set<nat>, limit: nat, k: Bytes)
    requires Decider(files, k, limit).None?
    ensures ValueIn(files, k, limit) == ValueIn(files - hidden, k, limit)
  {
    hide EffectIn;
    assert forall j: nat :: EffectAt(files, j, k, limit) == EffectAt(files - hidden, j, k, limit);
    DeciderSame(files, files - hidden, k, limit);
  }

  /** A key that the whole disk and the readable part of it value differently is decided by a segment out of sight. */
  lemma HiddenDecides(files: Disk, hidden: set<nat>, limit: nat, k: Bytes)
    requires ValueIn(files, k, limit) != ValueIn(files - hidden, k, limit)
    ensures var d := Decider(files, k, limit); d.Some? && d.value in hidden && d.value in files
  {
    hide EffectIn;
    var d := Decider(files, k, limit);
    if d.None? {
      NothingSaid(files, hidden, limit, k);
    } else if d.value !in hidden {
      forall j | j > d.value
        ensures EffectAt(files - hidden, j, k, limit).Untouched?
      {
        assert EffectAt(files, j, k, limit).Untouched?;
      }
      assert DecidedBy(files - hidden, k, limit, d.value);
      ValueDecided(files - hidden, k, limit, d.value);
    }
  }

  /**
    An import changes the value of a key on the disk exactly when the key is out of sight, the
    entries name it, and they say something else. If the disk had a value, that value lay in a
    segment this session could not read, and it is overwritten by the legacy one.
   */
  lemma ImportOverwritesHiddenValueIff(files: Disk, hidden: set<nat>, limit: nat, entries: seq<(Bytes, Bytes)>, k: Bytes)
    ensures var full, visible := Replayed(files, limit), Replayed(files - hidden, limit);
            var after := Imported(visible, full, entries);
            && (Lookup(after, k) != Lookup(full, k) <==>
                  k !in visible && FirstOf(entries, k).Some? && FirstOf(entries, k) != Lookup(full, k))
            && (Lookup(after, k) != Lookup(full, k) && k in full ==>
                  Decider(files, k, limit).Some? && Decider(files, k, limit).value in hidden)
  {
    hide Replayed, Imported, FirstOf, ValueIn;
    var full, visible := Replayed(files, limit), Replayed(files - hidden, limit);
    ImportedAt(visible, full, entries, k);
    ReplayedAt(files, limit, k);
    ReplayedAt(files - hidden, limit, k);
    if k in full && k !in visible {
      HiddenDecides(files, hidden, limit, k);
    }
  }

  /**
    When such an import leaves a key as a session would that reads every segment: unless the entries
    name the key and either a newer value is out of sight, or what is out of sight is a deletion and
    an older value is in sight. In the last case the legacy entry is taken for present and dropped.
   */
  lemma ImportAgreesWithFullSessionIff(files: Disk, hidden: set<nat>, limit: nat, entries: seq<(Bytes, Bytes)>, k: Bytes)
    ensures var full, visible, first := Replayed(files, limit), Replayed(files - hidden, limit), FirstOf(entries, k);
            && (Lookup(Imported(visible, full, entries), k) == Lookup(Imported(full, full, entries), k) <==>
                  !(first.Some? && (if k in full then k !in visible && full[k] != first.value else k in visible)))
            && (Lookup(Imported(visible, full, entries), k) != Lookup(Imported(full, full, entries), k) ==>
                  Decider(files, k, limit).Some? && Decider(files, k, limit).value in hidden)
  {
    hide Replayed, Imported, FirstOf, ValueIn;
    var full, visible := Replayed(files, limit), Replayed(files - hidden, limit);
    ImportedAt(visible, full, entries, k);
    ImportedAt(full, full, entries, k);
    ReplayedAt(files, limit, k);
    ReplayedAt(files - hidden, limit, k);
    if (k in full) != (k in visible) {
      HiddenDecides(files, hidden, limit, k);
    }
  }

  // ------------------------------------------------------------------- such disks

  /** A directory with one record in each of two segments. */
  function TwoSegments(lower: Op, upper: Op): Disk
    requires !lower.Skip? && !upper.Skip?
  {
    map[0 := EncodeOp(lower), 1 := EncodeOp(upper)]
  }

  lemma SaysOneThing(op: Op, k: Bytes, limit: nat)
    requires Writable(op) && |EncodeOp(op)| <= limit
    ensures var e := EffectIn(EncodeOp(op), k, limit);
            if op.key == k then !e.Untouched? && ValueOf(e) == WrittenValue(op) else e.Untouched?
  {
    DecodeInvertsEncode(op);
    hide EncodeOp, Decode;
    var c := EncodeOp(op);
    RecordsOfLine(c);
    var r := Rec(0, |c|, op);
    assert [r] == [] + [r];
    EffectSnoc([], r, k, limit);
  }

  /** The upper segment decides a key it names, and the lower one does when the upper cannot be read. */
  lemma UpperDecides(lower: Op, upper: Op, limit: nat, k: Bytes)
    requires Writable(lower) && Writable(upper) && upper.key == k
    requires |EncodeOp(lower)| <= limit && |EncodeOp(upper)| <= limit
    ensures Lookup(Replayed(TwoSegments(lower, upper), limit), k) == WrittenValue(upper)
    ensures Lookup(Replayed(TwoSegments(lower, upper) - {1}, limit), k) == if lower.key == k then WrittenValue(lower) else None
  {
    SaysOneThing(upper, k, limit);
    hide EncodeOp, EffectIn, Replayed;
    var disk := TwoSegments(lower, upper);
    ReplayedAt(disk, limit, k);
    ReplayedAt(disk - {1}, limit, k);
    assert DecidedBy(disk, k, limit, 1);
    ValueDecided(disk, k, limit, 1);
    LowerAlone(lower, upper, limit, k);
  }

  lemma OnlyOneSegment(c: Bytes, limit: nat, k: Bytes)
    ensures ValueIn(map[0 := c], k, limit) == ValueOf(EffectIn(c, k, limit))
  {
    hide EffectIn;
    var disk: Disk := map[0 := c];
    if EffectIn(c, k, limit).Untouched? {
      NobodyDecides(disk, limit, k);
    } else {
      assert DecidedBy(disk, k, limit, 0);
      ValueDecided(disk, k, limit, 0);
    }
  }

  lemma NobodyDecides(disk: Disk, limit: nat, k: Bytes)
    requires forall j: nat :: EffectAt(disk, j, k, limit).Untouched?
    ensures ValueIn(disk, k, limit) == None
  {
    hide EffectAt;
  }

  lemma LowerAlone(lower: Op, upper: Op, limit: nat, k: Bytes)
    requires Writable(lower) && Writable(upper) && |EncodeOp(lower)| <= limit
    ensures ValueIn(TwoSegments(lower, upper) - {1}, k, limit) == if lower.key == k then WrittenValue(lower) else None
  {
    SaysOneThing(lower, k, limit);
    hide EncodeOp, EffectIn, Decider;
    var disk := TwoSegments(lower, upper) - {1};
    assert disk == map[0 := EncodeOp(lower)];
    OnlyOneSegment(EncodeOp(lower), limit, k);
  }

  /** A newer value in the segment that could not be read is overwritten by the legacy one. */
  lemma NewerValueIsOverwritten(k: Bytes, newer: Bytes, legacy: Bytes, other: Bytes, w: Bytes, limit: nat)
    requires k != TOMBSTONE_KEY && other != TOMBSTONE_KEY && other != k && newer != legacy
    requires |EncodeLine(k, newer)| <= limit && |EncodeLine(other, w)| <= limit
    ensures var files := TwoSegments(Put(other, w), Put(k, newer));
            var full, visible := Replayed(files, limit), Replayed(files - {1}, limit);
            && Lookup(full, k) == Some(newer)
            && Lookup(Imported(visible, full, [(k, legacy)]), k) == Some(legacy)
            && Lookup(Imported(full, full, [(k, legacy)]), k) == Some(newer)
  {
    hide EncodeLine, Replayed;
    UpperDecides(Put(other, w), Put(k, newer), limit, k);
    OneEntry(k, legacy);
    var files := TwoSegments(Put(other, w), Put(k, newer));
    ImportedAt(Replayed(files - {1}, limit), Replayed(files, limit), [(k, legacy)], k);
    ImportedAt(Replayed(files, limit), Replayed(files, limit), [(k, legacy)], k);
  }

  /**
    An older value in sight of a deletion that could not be read makes the import pass over the
    legacy entry, which a session that reads everything would have imported.
   */
  lemma EntryIsPassedOver(k: Bytes, older: Bytes, legacy: Bytes, limit: nat)
    requires k != TOMBSTONE_KEY && |EncodeLine(k, older)| <= limit && |EncodeLine(TOMBSTONE_KEY, k)| <= limit
    ensures var files := TwoSegments(Put(k, older), Del(k));
            var full, visible := Replayed(files, limit), Replayed(files - {1}, limit);
            && k !in full && k !in Imported(visible, full, [(k, legacy)])
            && Lookup(Imported(full, full, [(k, legacy)]), k) == Some(legacy)
  {
    hide EncodeLine, Replayed;
    UpperDecides(Put(k, older), Del(k), limit, k);
    OneEntry(k, legacy);
    var files := TwoSegments(Put(k, older), Del(k));
    ImportedAt(Replayed(files - {1}, limit), Replayed(files, limit), [(k, legacy)], k);
    ImportedAt(Replayed(files, limit), Replayed(files, limit), [(k, legacy)], k);
  }

  /**
    A deleted key is imported again whether or not the segment with the deletion could be read: the
    import asks for a value, and a deletion leaves none.
   */
  lemma DeletionDoesNotStopAnImport(k: Bytes, legacy: Bytes, other: Bytes, w: Bytes, limit: nat)
    requires k != TOMBSTONE_KEY && other != TOMBSTONE_KEY && other != k
    requires |EncodeLine(other, w)| <= limit && |EncodeLine(TOMBSTONE_KEY, k)| <= limit
    ensures var files := TwoSegments(Put(other, w), Del(k));
            var full, visible := Replayed(files, limit), Replayed(files - {1}, limit);
            && Lookup(full, k) == None
            && Lookup(Imported(visible, full, [(k, legacy)]), k) == Some(legacy)
            && Lookup(Imported(full, full, [(k, legacy)]), k) == Some(legacy)
  {
    hide EncodeLine, Replayed;
    UpperDecides(Put(other, w), Del(k), limit, k);
    OneEntry(k, legacy);
    var files := TwoSegments(Put(other, w), Del(k));
    ImportedAt(Replayed(files - {1}, limit), Replayed(files, limit), [(k, legacy)], k);
    ImportedAt(Replayed(files, limit), Replayed(files, limit), [(k, legacy)], k);
  }

  lemma OneEntry(k: Bytes, v: Bytes)
    ensures FirstOf([(k, v)], k) == Some(v)
  {
    assert [(k, v)][..0] == [];
  }
}
