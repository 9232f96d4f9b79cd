/**
  Moving the entries of an older storage into the segment store (cpp/core/LegacyDiskMigration.hpp).
  What matters to the app is the store laid over the legacy source: an entry counts as present while
  either has it, and the store has the last word.
 */
module LegacyMigration {
  import opened Wrappers
  import opened SegmentCodec
  import opened Replay
  import opened SegmentInvariant
  import opened SegmentRecovery
  import opened FileAdapters
  import opened JsonlSegmentStores

  type Entries = map<Bytes, Bytes>

  /** The store laid over the source. */
  function Overlaid(source: Entries, visible: Contents): Contents {
    source + visible
  }

  /** A record the store will never take. */
  predicate Unstorable(k: Bytes, v: Bytes, limit: nat) {
    k == TOMBSTONE_KEY || |EncodeLine(k, v)| > limit
  }

  /** The foreign storage. Any call may throw; a removal that throws may have removed any of the keys. */
  class LegacyDiskSource {
    var stored: Entries

    /** How many calls have thrown. */
    ghost var failures: nat

    constructor (stored: Entries)
      ensures this.stored == stored
    {
      this.stored := stored;
      failures := 0;
    }

    method Entries() returns (entries: Option<seq<(Bytes, Bytes)>>)
      modifies this`failures
      ensures entries.Some? ==> Lists(entries.value, stored)
      ensures failures == if entries.Some? then old(failures) else old(failures) + 1
    {
      var ok: bool := *;
      if !ok {
        failures := failures + 1;
        return None;
      }
      var list: seq<(Bytes, Bytes)> := [];
      var keys := stored.Keys;
      while keys != {}
        invariant keys <= stored.Keys
        invariant forall i :: 0 <= i < |list| ==> list[i].0 in stored && stored[list[i].0] == list[i].1
        invariant forall k :: k in stored && k !in keys ==> (k, stored[k]) in list
        decreases |keys|
      {
        var key :| key in keys;
        list := list + [(key, stored[key])];
        keys := keys - {key};
      }
      return Some(list);
    }

    method Remove(keys: set<Bytes>) returns (ok: bool)
      modifies this
      ensures stored == old(stored) - if ok then keys else GoneFrom(old(stored), stored)
      ensures !ok ==> GoneFrom(old(stored), stored) <= keys
      ensures failures == if ok then old(failures) else old(failures) + 1
    {
      ok := *;
      if ok {
        stored := stored - keys;
      } else {
        failures := failures + 1;
        var some: set<Bytes> :| some <= keys;
        ghost var before := stored;
        stored := stored - some;
        assert stored == before - GoneFrom(before, stored);
      }
    }

    method Clear() returns (ok: bool)
      modifies this
      ensures ok ==> stored == map[]
      ensures stored == old(stored) - GoneFrom(old(stored), stored)
      ensures failures == if ok then old(failures) else old(failures) + 1
    {
      var keys := stored.Keys;
      ok := Remove(keys);
      assert old(stored) - keys == map[];
    }
  }

  function GoneFrom(before: Entries, after: Entries): set<Bytes> {
    set k | k in before && k !in after
  }

  /** The list holds every entry and nothing else. */
  predicate Lists(list: seq<(Bytes, Bytes)>, stored: Entries) {
    && (forall i :: 0 <= i < |list| ==> list[i].0 in stored && stored[list[i].0] == list[i].1)
    && (forall k :: k in stored ==> (k, stored[k]) in list)
  }

  /** What has become visible are source entries that the store takes. */
  ghost predicate OnlyStorable(source: Entries, seen: Contents, visible: Contents, limit: nat) {
    forall k :: k in visible && k !in seen ==> k in source && visible[k] == source[k] && !Unstorable(k, source[k], limit)
  }

  /** What the replay of all files becomes when the visible keys grow from `seen` to `visible`. */
  function Taken(full: Contents, seen: Contents, visible: Contents): Contents {
    full + map k | k in visible && k !in seen :: visible[k]
  }

  /** A map on the way of a migration: nothing of `full` is missing, and every value is its own or the source's. */
  predicate Between(full: Contents, m: Contents, source: Entries) {
    && (forall k :: k in full ==> k in m)
    && (forall k :: k in m ==> (k in full && m[k] == full[k]) || (k in source && m[k] == source[k]))
  }

  ghost predicate HoldsBetween(disk: Disk, limit: nat, full: Contents, source: Entries) {
    exists m :: Holds(disk, limit, m) && Between(full, m, source)
  }

  /** Wherever the process stops while entries are imported, the disk holds such a map; the source is still whole. */
  ghost predicate MigratesSteadily(instants: seq<Disk>, before: seq<Disk>, limit: nat, full: Contents, source: Entries) {
    && before <= instants
    && forall t :: |before| <= t < |instants| ==> HoldsBetween(instants[t], limit, full, source)
  }

  lemma MigratesNothing(instants: seq<Disk>, limit: nat, full: Contents, source: Entries)
    ensures MigratesSteadily(instants, instants, limit, full, source)
  {
  }

  lemma MigratesOneMore(instants: seq<Disk>, middle: seq<Disk>, before: seq<Disk>, limit: nat, visible: Contents, now: Contents,
                        entry: (Bytes, Bytes), done: nat, full: Contents, source: Entries)
    requires MigratesSteadily(middle, before, limit, full, source) && Between(full, now, source)
    requires entry.0 in source && source[entry.0] == entry.1 && done <= 1
    requires ImportsSteadily(instants, middle, limit, visible, now, [entry], done)
    ensures MigratesSteadily(instants, before, limit, full, source)
  {
    hide Holds;
    forall t | |before| <= t < |instants|
      ensures HoldsBetween(instants[t], limit, full, source)
    {
      if t < |middle| {
        assert HoldsBetween(middle[t], limit, full, source);
      } else {
        assert HoldsImported(instants[t], limit, visible, now, [entry], done);
        var n: nat :| n <= done && Holds(instants[t], limit, Imported(visible, now, [entry][..n]));
        OneEntryBetween(visible, now, entry, n, full, source);
      }
    }
  }

  lemma OneEntryBetween(visible: Contents, now: Contents, entry: (Bytes, Bytes), n: nat, full: Contents, source: Entries)
    requires n <= 1 && Between(full, now, source) && entry.0 in source && source[entry.0] == entry.1
    ensures Between(full, Imported(visible, now, [entry][..n]), source)
  {
    assert [entry][..0] == [] && [entry][..1] == [entry];
  }

  lemma TakenIsBetween(source: Entries, seen: Contents, visible: Contents, limit: nat, full: Contents)
    requires OnlyStorable(source, seen, visible, limit)
    ensures Between(full, Taken(full, seen, visible), source)
  {
    hide Unstorable;
  }

  /** The first entries have been handled: each is in the store, or is one the store will never take. */
  ghost predicate Handled(source: Entries, seen: Contents, visible: Contents, done: seq<(Bytes, Bytes)>, lost: set<Bytes>, limit: nat) {
    && (forall k :: k in seen ==> k in visible && visible[k] == seen[k])
    && OnlyStorable(source, seen, visible, limit)
    && (forall i :: 0 <= i < |done| ==> done[i].0 in visible || done[i].0 in lost)
    && (forall k :: k in visible && k !in seen ==> k in KeysOf(done))
    && (forall k :: k in lost ==> k in source && k !in visible && Unstorable(k, source[k], limit))
  }

  lemma HandledNothing(source: Entries, seen: Contents, limit: nat)
    ensures Handled(source, seen, seen, [], {}, limit)
  {
  }

  lemma HandledImported(source: Entries, seen: Contents, visible: Contents, done: seq<(Bytes, Bytes)>, lost: set<Bytes>, limit: nat,
                        entry: (Bytes, Bytes))
    requires Handled(source, seen, visible, done, lost, limit) && entry.0 in source && source[entry.0] == entry.1
    requires entry.0 in visible || !Unstorable(entry.0, entry.1, limit)
    ensures var next := if entry.0 in visible then visible else visible[entry.0 := entry.1];
            Handled(source, seen, next, done + [entry], lost - {entry.0}, limit)
  {
    KeysSnoc(done, entry);
    hide Unstorable, KeysOf;
  }

  lemma HandledRejected(source: Entries, seen: Contents, visible: Contents, done: seq<(Bytes, Bytes)>, lost: set<Bytes>, limit: nat,
                        entry: (Bytes, Bytes))
    requires Handled(source, seen, visible, done, lost, limit) && entry.0 in source && source[entry.0] == entry.1
    requires Unstorable(entry.0, entry.1, limit)
    ensures Handled(source, seen, visible, done + [entry], if entry.0 in visible then lost else lost + {entry.0}, limit)
  {
    KeysSnoc(done, entry);
    hide Unstorable, KeysOf;
  }

  function KeysOf(entries: seq<(Bytes, Bytes)>): set<Bytes> {
    set i | 0 <= i < |entries| :: entries[i].0
  }

  /** Dropping handled entries from the source loses only what the store will never take. */
  lemma HandledConserves(source: Entries, seen: Contents, visible: Contents, done: seq<(Bytes, Bytes)>, lost: set<Bytes>, limit: nat,
                         after: Entries)
    requires Handled(source, seen, visible, done, lost, limit)
    requires after == source - GoneFrom(source, after) && GoneFrom(source, after) <= KeysOf(done)
    ensures Overlaid(after, visible) == Overlaid(source, seen) - (lost * GoneFrom(source, after))
  {
    hide Unstorable;
  }

  lemma ImportedOne(seen: Contents, full: Contents, entry: (Bytes, Bytes), limit: nat)
    ensures Imported(seen, full, [entry]) == if entry.0 in seen then full else full[entry.0 := entry.1]
    ensures Imported(seen, seen, [entry]) == if entry.0 in seen then seen else seen[entry.0 := entry.1]
    ensures Imported(seen, seen, []) == seen && Imported(seen, full, []) == full
    ensures ImportsFit(seen, [entry], limit) ==> entry.0 in seen || !Unstorable(entry.0, entry.1, limit)
  {
    hide EncodeLine;
    assert [entry][..0] == [];
  }

  lemma TakenNothing(full: Contents, seen: Contents)
    ensures Taken(full, seen, seen) == full
  {
  }

  lemma TakenOne(full: Contents, seen: Contents, visible: Contents, entry: (Bytes, Bytes))
    requires KeepsValues(seen, visible) && entry.0 !in visible
    ensures Taken(full, seen, visible)[entry.0 := entry.1] == Taken(full, seen, visible[entry.0 := entry.1])
  {
  }

  lemma KeysOfNothing()
    ensures KeysOf([]) == {}
  {
  }

  lemma KeysSnoc(entries: seq<(Bytes, Bytes)>, entry: (Bytes, Bytes))
    ensures KeysOf(entries + [entry]) == KeysOf(entries) + {entry.0}
  {
    var all := entries + [entry];
    forall k
      ensures k in KeysOf(all) <==> k in KeysOf(entries) || k == entry.0
    {
      if i :| 0 <= i < |entries| && entries[i].0 == k {
        assert all[i].0 == k;
      }
      assert all[|entries|].0 == entry.0;
    }
  }

  /**
    Hands the entries to the store one by one. A record the store rejects counts as handled; any
    other exception ends the migration for now.
   */
  method MigrateLegacyDiskEntries(store: JsonlSegmentStore, entries: seq<(Bytes, Bytes)>, ghost source: Entries)
    returns (handledKeys: set<Bytes>, complete: bool, ghost done: nat, ghost lost: set<Bytes>)
    requires store.Valid()
    requires forall i :: 0 <= i < |entries| ==> entries[i].0 in source && source[entries[i].0] == entries[i].1
    modifies store, store.fileAdapter
    ensures store.Valid() && (old(store.loaded) ==> store.loaded && store.unreadableSegments == old(store.unreadableSegments))
    ensures done <= |entries| && (complete <==> done == |entries|) && handledKeys == KeysOf(entries[..done])
    ensures !store.loaded ==> store.fileAdapter.files == old(store.fileAdapter.files) && done == 0
    ensures !complete ==> store.appendsDisabled || store.fileAdapter.failures > old(store.fileAdapter.failures)
    ensures store.fileAdapter.failures >= old(store.fileAdapter.failures)
    ensures var seen := Replayed(old(store.fileAdapter.files) - store.unreadableSegments, store.maxRecordBytes);
            && Handled(source, seen, store.VisibleMap(), entries[..done], lost, store.maxRecordBytes)
            && store.FullMap() == Taken(old(store.FullMap()), seen, store.VisibleMap())
    ensures MigratesSteadily(store.fileAdapter.instants, old(store.fileAdapter.instants), store.maxRecordBytes, old(store.FullMap()), source)
  {
    hide MigratesSteadily, ImportsSteadily, Between, Consistent, Appendable, Replayed, Openable, EncodeLine, Imported, ImportsFit, Handled, Taken, Unstorable, OnlyStorable;
    ghost var first, limit := store.fileAdapter.files, store.maxRecordBytes;
    handledKeys, complete, done, lost := {}, true, 0, {};
    ghost var full := store.FullMap();
    HandledNothing(source, store.VisibleMap(), limit);
    TakenNothing(full, store.VisibleMap());
    ghost var instants := store.fileAdapter.instants;
    MigratesNothing(instants, limit, full, source);
    var i := 0;
    assert entries[..0] == [];
    while i < |entries| && complete
      invariant i <= |entries| && done == (if complete then i else i - 1) && 0 <= done
      invariant store.Valid() && (i > 0 && complete ==> store.loaded)
      invariant old(store.loaded) ==> store.loaded && store.unreadableSegments == old(store.unreadableSegments)
      invariant i == 0 ==> store.fileAdapter.files == first && lost == {}
      invariant !store.loaded ==> store.fileAdapter.files == first && done == 0
      invariant store.fileAdapter.failures >= old(store.fileAdapter.failures)
      invariant !complete ==> store.appendsDisabled || store.fileAdapter.failures > old(store.fileAdapter.failures)
      invariant handledKeys == KeysOf(entries[..done])
      invariant Handled(source, Replayed(first - store.unreadableSegments, limit), store.VisibleMap(), entries[..done], lost, limit)
      invariant store.FullMap() == Taken(full, Replayed(first - store.unreadableSegments, limit), store.VisibleMap())
      invariant MigratesSteadily(store.fileAdapter.instants, instants, limit, full, source)
      decreases |entries| - i
    {
      var entry := entries[i];
      if i == 0 {
        HandledNothingForAll(source, first, full, limit);
      }
      ghost var before, instants1, now := store.fileAdapter.files, store.fileAdapter.instants, store.FullMap();
      var result, imported, taken := store.MigrateLegacyEntries([entry]);
      assert Between(full, now, source) by {
        HandledIsBetween(source, Replayed(first - store.unreadableSegments, limit), Replayed(before - store.unreadableSegments, limit),
                         entries[..i], lost, limit, full);
      }
      MigratesOneMore(store.fileAdapter.instants, instants1, instants, limit, Replayed(before - store.unreadableSegments, limit), now,
                      entry, taken, full, source);
      ghost var visible := Replayed(before - store.unreadableSegments, limit);
      ghost var seen := Replayed(first - store.unreadableSegments, limit);
      assert entries[..0] == [];
      assert Handled(source, seen, visible, entries[..i], lost, limit);
      ImportedOne(visible, Taken(full, seen, visible), entry, limit);
      assert [entry][..0] == [] && [entry][..1] == [entry];
      i := i + 1;
      if result.Stored? {
        if entry.0 !in visible {
          HandledKeeps(source, seen, visible, entries[..i - 1], lost, limit);
          TakenOne(full, seen, visible, entry);
        }
        HandledImported(source, seen, visible, entries[..i - 1], lost, limit, entry);
        lost := lost - {entry.0};
      } else if result.Rejected? {
        RejectedIsUnstorable(entry.0, entry.1, limit);
        HandledRejected(source, seen, visible, entries[..i - 1], lost, limit, entry);
        lost := if entry.0 in visible then lost else lost + {entry.0};
      } else {
        complete := false;
      }
      if complete {
        KeysSnoc(entries[..done], entry);
        assert entries[..done + 1] == entries[..done] + [entry];
        handledKeys := handledKeys + {entry.0};
        done := done + 1;
      }
    }
  }

  lemma HandledIsBetween(source: Entries, seen: Contents, visible: Contents, done: seq<(Bytes, Bytes)>, lost: set<Bytes>, limit: nat,
                         full: Contents)
    requires Handled(source, seen, visible, done, lost, limit)
    ensures Between(full, Taken(full, seen, visible), source)
  {
    TakenIsBetween(source, seen, visible, limit, full);
  }

  lemma RejectedIsUnstorable(k: Bytes, v: Bytes, limit: nat)
    requires k == TOMBSTONE_KEY || |EncodeLine(k, v)| > limit
    ensures Unstorable(k, v, limit)
  {
  }

  lemma HandledKeeps(source: Entries, seen: Contents, visible: Contents, done: seq<(Bytes, Bytes)>, lost: set<Bytes>, limit: nat)
    requires Handled(source, seen, visible, done, lost, limit)
    ensures KeepsValues(seen, visible)
  {
    hide Unstorable, OnlyStorable;
  }

  lemma HandledNothingForAll(source: Entries, first: Disk, full: Contents, limit: nat)
    ensures forall hidden :: var seen := Replayed(first - hidden, limit);
                             Handled(source, seen, seen, [], {}, limit) && Taken(full, seen, seen) == full
  {
    hide Replayed, Handled, Taken;
    forall hidden
      ensures var seen := Replayed(first - hidden, limit);
              Handled(source, seen, seen, [], {}, limit) && Taken(full, seen, seen) == full
    {
      HandledNothing(source, Replayed(first - hidden, limit), limit);
      TakenNothing(full, Replayed(first - hidden, limit));
    }
  }

  lemma ListedKeys(list: seq<(Bytes, Bytes)>, stored: Entries)
    requires Lists(list, stored)
    ensures KeysOf(list) == stored.Keys && (list == [] ==> stored == map[])
  {
    forall k
      ensures k in KeysOf(list) <==> k in stored
    {
      if k in stored {
        assert (k, stored[k]) in list;
        var i :| 0 <= i < |list| && list[i] == (k, stored[k]);
      }
    }
    assert list == [] ==> stored.Keys == {};
  }

  /** What of an overlay is lost for good: records the store will never take. */
  ghost predicate OnlyUnstorable(lost: set<Bytes>, source: Entries, seen: Contents, limit: nat) {
    forall k :: k in lost ==> k in source && k !in seen && Unstorable(k, source[k], limit)
  }

  ghost predicate KeepsValues(seen: Contents, visible: Contents) {
    forall k :: k in seen ==> k in visible && visible[k] == seen[k]
  }

  /** Nothing was lost on the way from one overlay to the next but what the store will never take. */
  ghost predicate Conserved(source: Entries, seen: Contents, after: Entries, visible: Contents, limit: nat) {
    && KeepsValues(seen, visible)
    && KeepsValues(after, source)
    && OnlyStorable(source, seen, visible, limit)
    && exists lost :: OnlyUnstorable(lost, source, seen, limit)
                      && Overlaid(after, visible) == Overlaid(source, seen) - lost
  }

  lemma UnchangedIsConserved(source: Entries, seen: Contents, limit: nat)
    ensures Conserved(source, seen, source, seen, limit)
  {
    assert OnlyUnstorable({}, source, seen, limit);
    assert Overlaid(source, seen) - {} == Overlaid(source, seen);
  }

  lemma HandledIsConserved(source: Entries, seen: Contents, visible: Contents, done: seq<(Bytes, Bytes)>, lost: set<Bytes>, limit: nat,
                           after: Entries)
    requires Handled(source, seen, visible, done, lost, limit)
    requires after == source - GoneFrom(source, after) && GoneFrom(source, after) <= KeysOf(done)
    ensures Conserved(source, seen, after, visible, limit)
  {
    HandledConserves(source, seen, visible, done, lost, limit, after);
    hide Unstorable;
    assert OnlyUnstorable(lost * GoneFrom(source, after), source, seen, limit);
  }

  lemma NothingGone(stored: Entries)
    ensures GoneFrom(stored, stored) == {} && stored - {} == stored
  {
  }

  lemma GoneIs(stored: Entries, keys: set<Bytes>)
    ensures GoneFrom(stored, stored - keys) <= keys && stored - keys == stored - GoneFrom(stored, stored - keys)
  {
  }

  /** What has been imported has left the source. */
  ghost predicate LeftOver(source: Entries, seen: Contents, visible: Contents) {
    forall k :: k in visible && k !in seen ==> k !in source
  }

  lemma ImportedHasLeft(source: Entries, seen: Contents, visible: Contents, done: seq<(Bytes, Bytes)>, lost: set<Bytes>, limit: nat,
                        after: Entries)
    requires Handled(source, seen, visible, done, lost, limit) && after.Keys !! KeysOf(done)
    ensures LeftOver(after, seen, visible)
  {
    hide Unstorable, OnlyStorable, KeysOf;
  }

  class LegacyDiskMigrator {
    const source: LegacyDiskSource
    var migrated: bool
    var armed: bool

    ghost predicate Valid()
      reads this, source
    {
      migrated ==> source.stored == map[]
    }

    constructor (source: LegacyDiskSource)
      ensures Valid() && this.source == source && !migrated && armed
    {
      this.source := source;
      migrated, armed := false, true;
    }

    /**
      Moves what is left in the source, once per arming. Whatever throws, every entry is still in
      the source or in the store, or is a record the store will never take, and no visible value of
      the store has changed.
     */
    method EnsureMigrated(store: JsonlSegmentStore)
      requires Valid() && store.Valid()
      modifies this, source, store, store.fileAdapter
      ensures Valid() && store.Valid()
      ensures old(store.loaded) ==> store.loaded && store.unreadableSegments == old(store.unreadableSegments)
      ensures var seen := Replayed(old(store.fileAdapter.files) - store.unreadableSegments, store.maxRecordBytes);
              && Conserved(old(source.stored), seen, source.stored, store.VisibleMap(), store.maxRecordBytes)
              && store.FullMap() == Taken(old(store.FullMap()), seen, store.VisibleMap())
      ensures old(migrated) || !old(armed) ==> store.VisibleMap() == old(store.VisibleMap()) && source.stored == old(source.stored)
      ensures !store.loaded ==> store.fileAdapter.files == old(store.fileAdapter.files) && source.stored == old(source.stored)
      ensures source.failures == old(source.failures) ==>
                LeftOver(source.stored, Replayed(old(store.fileAdapter.files) - store.unreadableSegments, store.maxRecordBytes), store.VisibleMap())
      ensures armed ==> old(armed) && migrated
      ensures !old(migrated) && migrated ==> old(armed)
      ensures source.failures >= old(source.failures) && store.fileAdapter.failures >= old(store.fileAdapter.failures)
      ensures MigratesSteadily(store.fileAdapter.instants, old(store.fileAdapter.instants), store.maxRecordBytes, old(store.FullMap()),
                               old(source.stored))
      ensures old(armed) ==> || migrated || source.failures > old(source.failures)
                             || store.appendsDisabled || store.fileAdapter.failures > old(store.fileAdapter.failures)
    {
      hide Consistent, Appendable, Replayed, Openable, Handled, Conserved, GoneFrom, Lists, KeysOf, Taken, MigratesSteadily;
      ghost var stored, limit := source.stored, store.maxRecordBytes;
      UnchangedIsConserved(stored, store.VisibleMap(), limit);
      TakenNothing(store.FullMap(), store.VisibleMap());
      MigratesNothing(store.fileAdapter.instants, limit, store.FullMap(), stored);
      if migrated || !armed {
        return;
      }
      armed := false;
      var entries := source.Entries();
      if entries.None? {
        return;
      }
      ListedKeys(entries.value, stored);
      if entries.value == [] {
        migrated := true;
        return;
      }
      ListedEntries(entries.value, stored);
      ghost var done, lost;
      var handledKeys, complete;
      handledKeys, complete, done, lost := MigrateLegacyDiskEntries(store, entries.value, stored);
      NothingGone(stored);
      GoneIs(stored, handledKeys);
      assert entries.value[..|entries.value|] == entries.value && entries.value[..0] == [];
      KeysOfNothing();
      if !complete {
        if handledKeys != {} {
          var removed := source.Remove(handledKeys);
        }
      } else {
        var cleared := source.Clear();
        AtMostAll(stored, source.stored);
        migrated := cleared;
      }
      ghost var seen := Replayed(old(store.fileAdapter.files) - store.unreadableSegments, limit);
      HandledIsConserved(stored, seen, store.VisibleMap(), entries.value[..done], lost, limit, source.stored);
      if source.failures == old(source.failures) {
        ImportedHasLeft(stored, seen, store.VisibleMap(), entries.value[..done], lost, limit, source.stored);
      }
    }

    method RearmAfterWrite()
      modifies this`armed
      ensures armed
    {
      armed := true;
    }

    /** Takes a deleted key out of the source too; a failure is ignored. */
    method Forget(key: Bytes) returns (ghost forgotten: bool)
      requires Valid()
      modifies source
      ensures Valid() && source.stored == if forgotten then old(source.stored) - {key} else old(source.stored)
      ensures source.failures >= old(source.failures) && (!forgotten ==> source.failures > old(source.failures))
    {
      hide GoneFrom;
      if migrated {
        assert source.stored - {key} == source.stored;
        return true;
      }
      ghost var before := source.stored;
      forgotten := source.Remove({key});
      if !forgotten {
        AtMostOne(before, source.stored, key);
        forgotten := key in GoneFrom(before, source.stored);
      }
    }
  }

  lemma AtMostAll(before: Entries, after: Entries)
    ensures GoneFrom(before, after) <= before.Keys
  {
  }

  lemma AtMostOne(before: Entries, after: Entries, key: Bytes)
    requires after == before - GoneFrom(before, after) && GoneFrom(before, after) <= {key}
    ensures after == if key in GoneFrom(before, after) then before - {key} else before
  {
    if key in GoneFrom(before, after) {
      assert GoneFrom(before, after) == {key};
    } else {
      assert GoneFrom(before, after) == {};
      assert before - {} == before;
    }
  }

  lemma ListedEntries(list: seq<(Bytes, Bytes)>, stored: Entries)
    requires Lists(list, stored)
    ensures forall i :: 0 <= i < |list| ==> list[i].0 in stored && stored[list[i].0] == list[i].1
  {
  }

  /** The segment store with the legacy source under it. The store can be missing at any call. */
  class MigratingStorage {
    const store: JsonlSegmentStore
    const migrator: LegacyDiskMigrator

    constructor (store: JsonlSegmentStore, migrator: LegacyDiskMigrator)
      ensures this.store == store && this.migrator == migrator
    {
      this.store := store;
      this.migrator := migrator;
    }

    ghost predicate Valid()
      reads store, store.fileAdapter, migrator, migrator.source
    {
      store.Valid() && migrator.Valid()
    }

    /** What the store shows of the disk `first` in this session. */
    ghost function Seen(first: Disk): Contents
      reads store
    {
      Replayed(first - store.unreadableSegments, store.maxRecordBytes)
    }

    /** The replay of all files once the store shows `visible`; it was `full` on the disk `first`. */
    ghost function Grown(first: Disk, full: Contents, visible: Contents): Contents
      reads store
    {
      Taken(full, Seen(first), visible)
    }

    /** What every call keeps: the session, and everything while the directory cannot be listed. */
    twostate predicate SameSession()
      reads store, store.fileAdapter, migrator, migrator.source
    {
      && (old(store.loaded) ==> store.loaded && store.unreadableSegments == old(store.unreadableSegments))
      && (!store.loaded ==> store.fileAdapter.files == old(store.fileAdapter.files) && migrator.source.stored == old(migrator.source.stored))
      && store.fileAdapter.failures >= old(store.fileAdapter.failures)
    }

    /** A migration that was due has been made, unless a call failed or the store takes no appends. */
    twostate predicate MigratedIfDue()
      reads store, store.fileAdapter, migrator, migrator.source
    {
      old(migrator.armed) ==>
        || migrator.migrated || store.appendsDisabled
        || migrator.source.failures > old(migrator.source.failures)
        || store.fileAdapter.failures > old(store.fileAdapter.failures)
    }

    /** The store, with the source migrated as far as it goes; None when there is no store. */
    method MigratedStore() returns (found: bool)
      requires Valid()
      modifies store, store.fileAdapter, migrator, migrator.source
      ensures Valid() && SameSession()
      ensures !found ==> store.State() == old(store.State()) && store.loaded == old(store.loaded)
                         && migrator.source.stored == old(migrator.source.stored)
      ensures (found ==> MigratedIfDue()) && (migrator.armed ==> old(migrator.armed))
      ensures migrator.source.failures >= old(migrator.source.failures)
      ensures Conserved(old(migrator.source.stored), Seen(old(store.fileAdapter.files)), migrator.source.stored, store.VisibleMap(),
                        store.maxRecordBytes)
      ensures store.FullMap() == Grown(old(store.fileAdapter.files), old(store.FullMap()), store.VisibleMap())
    {
      hide Conserved, Replayed, Consistent, Appendable, Openable, Taken;
      UnchangedIsConserved(migrator.source.stored, store.VisibleMap(), store.maxRecordBytes);
      TakenNothing(store.FullMap(), store.VisibleMap());
      found := *;
      if found {
        migrator.EnsureMigrated(store);
      }
    }

    /** Sets a key. NoStore and everything but Stored is an exception in the original. */
    method SetDisk(key: Bytes, value: Bytes) returns (found: bool, result: SetResult, ghost middle: Contents)
      requires Valid()
      modifies store, store.fileAdapter, migrator, migrator.source
      ensures Valid() && SameSession()
      ensures Conserved(old(migrator.source.stored), Seen(old(store.fileAdapter.files)), migrator.source.stored, middle,
                        store.maxRecordBytes)
      ensures store.VisibleMap() == if found && result.Stored? then middle[key := value] else middle
      ensures var full := Grown(old(store.fileAdapter.files), old(store.FullMap()), middle);
              store.FullMap() == if found && result.Stored? then full[key := value] else full
      ensures found && result.Stored? ==> migrator.armed && store.loaded
      ensures found ==> MigratedIfDue()
      ensures !(found && result.Stored?) ==> (migrator.armed ==> old(migrator.armed))
    {
      hide Conserved, Replayed, Consistent, Appendable, Openable, EncodeLine, Taken;
      ghost var first, source, full := store.fileAdapter.files, migrator.source.stored, store.FullMap();
      found := MigratedStore();
      ConservedForAll(source, first, full, store.maxRecordBytes);
      middle := store.VisibleMap();
      result := AppendFailed;
      if !found {
        return;
      }
      ghost var here := store.fileAdapter.files;
      result := store.SetDisk(key, value);
      middle := Seen(here);
      if result.Stored? {
        migrator.RearmAfterWrite();
      }
    }

    /**
      Reads a key after the migration. Nothing is read only if there is no store, a file call failed,
      or the store shows no value.
     */
    method GetDisk(key: Bytes) returns (value: Option<Bytes>, ghost found: bool)
      requires Valid()
      modifies store, store.fileAdapter, migrator, migrator.source
      ensures Valid() && SameSession()
      ensures Conserved(old(migrator.source.stored), Seen(old(store.fileAdapter.files)), migrator.source.stored, store.VisibleMap(),
                        store.maxRecordBytes)
      ensures store.FullMap() == Grown(old(store.fileAdapter.files), old(store.FullMap()), store.VisibleMap())
      ensures (found ==> MigratedIfDue()) && (migrator.armed ==> old(migrator.armed))
      ensures value.Some? ==> Lookup(store.VisibleMap(), key) == value
      ensures value.None? ==> !found || key !in store.VisibleMap() || store.fileAdapter.failures > old(store.fileAdapter.failures)
      ensures !found ==> value.None? && store.State() == old(store.State()) && migrator.source.stored == old(migrator.source.stored)
    {
      hide Conserved, Replayed, Consistent, Appendable, Openable, Taken;
      ghost var first, source, full := store.fileAdapter.files, migrator.source.stored, store.FullMap();
      var present := MigratedStore();
      found := present;
      ConservedForAll(source, first, full, store.maxRecordBytes);
      if !present {
        return None, found;
      }
      value := store.GetDisk(key);
    }

    /**
      Deletes a key from the store and then from the source. When the source keeps it, the legacy
      value is there again for the next migration.
     */
    method DeleteDisk(key: Bytes) returns (ok: bool, ghost middle: Contents, ghost after: Entries, ghost forgotten: bool)
      requires Valid()
      modifies store, store.fileAdapter, migrator, migrator.source
      ensures Valid() && SameSession()
      ensures Conserved(old(migrator.source.stored), Seen(old(store.fileAdapter.files)), after, middle, store.maxRecordBytes)
      ensures migrator.source.stored == if forgotten then after - {key} else after
      ensures store.VisibleMap() == if ok then middle - {key} else middle
      ensures var full := Grown(old(store.fileAdapter.files), old(store.FullMap()), middle);
              store.FullMap() == if ok && key in middle then full - {key} else full
      ensures ok ==> store.loaded && MigratedIfDue()
      ensures migrator.armed ==> old(migrator.armed)
      ensures forgotten ==> ok
      ensures ok && !forgotten ==> migrator.source.failures > old(migrator.source.failures)
    {
      hide Conserved, Replayed, Consistent, Appendable, Openable, EncodeLine, Taken;
      ghost var first, source, full := store.fileAdapter.files, migrator.source.stored, store.FullMap();
      var found := MigratedStore();
      ConservedForAll(source, first, full, store.maxRecordBytes);
      middle := store.VisibleMap();
      after := migrator.source.stored;
      ok, forgotten := false, false;
      if !found {
        return;
      }
      ghost var here := store.fileAdapter.files;
      ok := store.DeleteDisk(key);
      middle := Seen(here);
      if ok {
        forgotten := migrator.Forget(key);
      }
    }
  }

  lemma ConservedForAll(source: Entries, first: Disk, full: Contents, limit: nat)
    ensures forall hidden :: var seen := Replayed(first - hidden, limit);
                             Conserved(source, seen, source, seen, limit) && Taken(full, seen, seen) == full
  {
    hide Replayed, Conserved, Taken;
    forall hidden
      ensures var seen := Replayed(first - hidden, limit);
              Conserved(source, seen, source, seen, limit) && Taken(full, seen, seen) == full
    {
      UnchangedIsConserved(source, Replayed(first - hidden, limit), limit);
      TakenNothing(full, Replayed(first - hidden, limit));
    }
  }
}
