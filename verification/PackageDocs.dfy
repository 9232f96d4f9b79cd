/**
  The prepare and cleanup of package documents (scripts/package-doc-lifecycle.js): prepare saves what
  the targets are in a manifest and replaces them by canonical documents; cleanup puts them back.
  Hashes are taken to be equal exactly when the snapshots are.
 */
module PackageDocs {
  import opened Wrappers

  datatype Content = Content(bytes: string, mode: nat)

  type Files = map<string, Content>

  /** None when the file is missing. */
  type Snapshot = Option<Content>

  function SnapshotOf(files: Files, path: string): Snapshot {
    if path in files then Some(files[path]) else None
  }

  function Put(files: Files, path: string, state: Snapshot): Files {
    if state.Some? then files[path := state.value] else files - {path}
  }

  lemma PutSnapshot(files: Files, path: string, state: Snapshot, other: string)
    ensures SnapshotOf(Put(files, path, state), other) == if other == path then state else SnapshotOf(files, other)
  {
  }

  /** One document. `prepared` is None until its target has been replaced and the manifest says so. */
  datatype Entry = Entry(
    source: string,
    target: string,
    original: Snapshot,
    sourceState: Option<Snapshot>,  // missing in manifests of older versions
    prepared: Option<Snapshot>)

  datatype Phase = Preparing | Prepared

  datatype Manifest = Manifest(phase: Phase, entries: seq<Entry>)

  datatype Pair = Pair(source: string, target: string)

  predicate DistinctTargets(entries: seq<Entry>) {
    forall i, j :: 0 <= i < j < |entries| ==> entries[i].target != entries[j].target
  }

  /** The target is in a state that cleanup may replace. */
  predicate Allowed(files: Files, e: Entry) {
    var current := SnapshotOf(files, e.target);
    if e.prepared.Some? then current == e.prepared.value
    else
      || current == e.original
      || (var source := SnapshotOf(files, e.source);
          current == source && (e.sourceState.Some? ==> source == e.sourceState.value))
  }

  predicate AllAllowed(files: Files, entries: seq<Entry>) {
    forall i :: 0 <= i < |entries| ==> Allowed(files, entries[i])
  }

  /** Every target put back, one after the other. */
  function RestoreAll(files: Files, entries: seq<Entry>): Files {
    if entries == [] then files
    else
      var last := entries[|entries| - 1];
      Put(RestoreAll(files, entries[..|entries| - 1]), last.target, last.original)
  }

  /** Where a path ends after restoring: at its original state if it is a target, untouched otherwise. */
  lemma {:induction false} RestoredSnapshot(files: Files, entries: seq<Entry>, path: string)
    requires DistinctTargets(entries)
    ensures forall i :: 0 <= i < |entries| && entries[i].target == path ==> SnapshotOf(RestoreAll(files, entries), path) == entries[i].original
    ensures (forall i :: 0 <= i < |entries| ==> entries[i].target != path) ==>
              SnapshotOf(RestoreAll(files, entries), path) == SnapshotOf(files, path)
    decreases |entries|
  {
    if entries != [] {
      var n := |entries| - 1;
      RestoredSnapshot(files, entries[..n], path);
      PutSnapshot(RestoreAll(files, entries[..n]), entries[n].target, entries[n].original, path);
      hide Put, SnapshotOf;
      forall i | 0 <= i < |entries| && entries[i].target == path
        ensures SnapshotOf(RestoreAll(files, entries), path) == entries[i].original
      {
        if i < n {
          assert entries[..n][i] == entries[i];
        }
      }
    }
  }

  lemma SameSnapshots(a: Files, b: Files)
    requires forall path :: SnapshotOf(a, path) == SnapshotOf(b, path)
    ensures a == b
  {
    forall path
      ensures path in a <==> path in b
      ensures path in a ==> a[path] == b[path]
    {
      assert SnapshotOf(a, path) == SnapshotOf(b, path);
    }
  }

  /** The manifest remembers what the targets were in `base`. */
  predicate Remembers(entries: seq<Entry>, base: Files) {
    DistinctTargets(entries) && forall i :: 0 <= i < |entries| ==> entries[i].original == SnapshotOf(base, entries[i].target)
  }

  function Targets(entries: seq<Entry>): set<string> {
    set i | 0 <= i < |entries| :: entries[i].target
  }

  /** Restoring from a manifest that remembers `base` gives back `base`, file by file. */
  lemma RestoreGivesBack(files: Files, entries: seq<Entry>, base: Files)
    requires Remembers(entries, base)
    requires forall path :: path !in Targets(entries) ==> SnapshotOf(files, path) == SnapshotOf(base, path)
    ensures RestoreAll(files, entries) == base
  {
    hide SnapshotOf, RestoreAll;
    forall path
      ensures SnapshotOf(RestoreAll(files, entries), path) == SnapshotOf(base, path)
    {
      RestoredSnapshot(files, entries, path);
      if path in Targets(entries) {
        var i :| 0 <= i < |entries| && entries[i].target == path;
      }
    }
    SameSnapshots(RestoreAll(files, entries), base);
  }

  /** Cleanup would accept this state and give back `base`. */
  ghost predicate Restorable(files: Files, manifest: Manifest, base: Files) {
    AllAllowed(files, manifest.entries) && RestoreAll(files, manifest.entries) == base
  }

  /** How far prepare has come: the first `n` entries are recorded, and the next may be replaced already. */
  ghost predicate PreparedUpTo(files: Files, entries: seq<Entry>, base: Files, n: nat, replaced: bool) {
    && n <= |entries| && (replaced ==> n < |entries|)
    && Remembers(entries, base)
    && (forall path :: path !in Targets(entries) ==> SnapshotOf(files, path) == SnapshotOf(base, path))
    && (forall i :: 0 <= i < n ==> entries[i].prepared == Some(SnapshotOf(files, entries[i].target)))
    && (forall i :: n <= i < |entries| ==> entries[i].prepared == None)
    && (forall i :: n <= i < |entries| && !(i == n && replaced) ==> SnapshotOf(files, entries[i].target) == entries[i].original)
    && (replaced ==> entries[n].sourceState == Some(SnapshotOf(files, entries[n].source))
                     && SnapshotOf(files, entries[n].target) == SnapshotOf(files, entries[n].source))
  }

  /** Wherever prepare stops, cleanup puts everything back. */
  lemma PreparedIsRestorable(files: Files, manifest: Manifest, base: Files, n: nat, replaced: bool)
    requires PreparedUpTo(files, manifest.entries, base, n, replaced)
    ensures Restorable(files, manifest, base)
  {
    RestoreGivesBack(files, manifest.entries, base);
    hide SnapshotOf, RestoreAll, Remembers;
  }

  /** Replacing the next target by its source. */
  lemma ReplaceStep(files: Files, entries: seq<Entry>, base: Files, n: nat)
    requires PreparedUpTo(files, entries, base, n, false) && n < |entries|
    requires entries[n].sourceState == Some(SnapshotOf(files, entries[n].source))
    ensures var next := Put(files, entries[n].target, SnapshotOf(files, entries[n].source));
            PreparedUpTo(next, entries, base, n, true)
  {
    var e := entries[n];
    var next := Put(files, e.target, SnapshotOf(files, e.source));
    forall path
      ensures SnapshotOf(next, path) == if path == e.target then SnapshotOf(files, e.source) else SnapshotOf(files, path)
    {
      PutSnapshot(files, e.target, SnapshotOf(files, e.source), path);
    }
    assert e.target in Targets(entries);
    hide SnapshotOf, Put;
  }

  /** Recording it in the manifest. */
  lemma RecordStep(files: Files, entries: seq<Entry>, base: Files, n: nat)
    requires PreparedUpTo(files, entries, base, n, true)
    ensures var next := entries[n := entries[n].(prepared := Some(SnapshotOf(files, entries[n].target)))];
            PreparedUpTo(files, next, base, n + 1, false) && Targets(next) == Targets(entries)
  {
    var next := entries[n := entries[n].(prepared := Some(SnapshotOf(files, entries[n].target)))];
    SameTargets(entries, next);
    hide SnapshotOf, Targets;
  }

  lemma SameTargets(entries: seq<Entry>, next: seq<Entry>)
    requires |next| == |entries| && forall i :: 0 <= i < |entries| ==> next[i].target == entries[i].target
    ensures Targets(next) == Targets(entries)
  {
    forall t
      ensures t in Targets(next) <==> t in Targets(entries)
    {
      if i :| 0 <= i < |entries| && entries[i].target == t {
        assert next[i].target == t;
      }
      if i :| 0 <= i < |next| && next[i].target == t {
        assert entries[i].target == t;
      }
    }
  }

  // --------------------------------------------------------- the lifecycle

  datatype RestoreResult = Restored | Refused | Interrupted

  /** Done, or why not: the manifest of an earlier run could not be restored, or a step failed. */
  datatype PrepareResult = Done | SourceMissing | StaleRefused | StaleInterrupted | Stopped

  datatype Instant = Instant(files: Files, manifest: Option<Manifest>)

  /** The manifest is about exactly these documents. */
  predicate BelongsTo(manifest: Manifest, pairs: seq<Pair>) {
    && DistinctTargets(manifest.entries)
    && |manifest.entries| == |pairs|
    && forall i :: 0 <= i < |manifest.entries| ==> Pair(manifest.entries[i].source, manifest.entries[i].target) in pairs
  }

  /** The manifest lists the documents in their order. */
  predicate Lists(entries: seq<Entry>, pairs: seq<Pair>) {
    && |entries| == |pairs|
    && forall i :: 0 <= i < |pairs| ==> entries[i].source == pairs[i].source && entries[i].target == pairs[i].target
  }

  predicate DistinctPairs(pairs: seq<Pair>) {
    forall i, j :: 0 <= i < j < |pairs| ==> pairs[i].target != pairs[j].target
  }

  /** Every state prepare passed through is `base` without a manifest, or can be restored to it. */
  ghost predicate AlwaysRestorable(instants: seq<Instant>, before: seq<Instant>, base: Files) {
    && before <= instants
    && forall i :: |before| <= i < |instants| ==>
         var s := instants[i]; if s.manifest.Some? then Restorable(s.files, s.manifest.value, base) else s.files == base
  }

  lemma AlwaysRestorableAdd(instants: seq<Instant>, before: seq<Instant>, base: Files, files: Files, manifest: Option<Manifest>)
    requires AlwaysRestorable(instants, before, base)
    requires if manifest.Some? then Restorable(files, manifest.value, base) else files == base
    ensures AlwaysRestorable(instants + [Instant(files, manifest)], before, base)
  {
  }

  class DocLifecycle {
    const pairs: seq<Pair>
    var files: Files
    var manifest: Option<Manifest>
    ghost var instants: seq<Instant>

    /** How many file operations have failed. */
    ghost var failures: nat

    constructor (pairs: seq<Pair>, files: Files)
      requires DistinctPairs(pairs)
      ensures this.pairs == pairs && this.files == files && manifest == None
    {
      this.pairs := pairs;
      this.files := files;
      manifest, instants, failures := None, [], 0;
    }

    /** Renames a finished copy over the target, or fails and leaves it. */
    method ReplaceTarget(target: string, state: Snapshot) returns (ok: bool)
      modifies this`files, this`failures
      ensures files == if ok then Put(old(files), target, state) else old(files)
      ensures failures == if ok then old(failures) else old(failures) + 1
    {
      ok := *;
      if ok {
        files := Put(files, target, state);
      } else {
        failures := failures + 1;
      }
    }

    /** Writes the manifest atomically, or fails and leaves it. */
    method WriteManifest(next: Manifest) returns (ok: bool)
      modifies this`manifest, this`failures
      ensures manifest == if ok then Some(next) else old(manifest)
      ensures failures == if ok then old(failures) else old(failures) + 1
    {
      ok := *;
      if ok {
        manifest := Some(next);
      } else {
        failures := failures + 1;
      }
    }

    method RemoveManifest() returns (ok: bool)
      modifies this`manifest, this`failures
      ensures manifest == if ok then None else old(manifest)
      ensures failures == if ok then old(failures) else old(failures) + 1
    {
      ok := *;
      if ok {
        manifest := None;
      } else {
        failures := failures + 1;
      }
    }

    /**
      Puts every target back, if each is in a state that may be replaced; otherwise changes nothing.
     */
    method RestoreOriginal(saved: Manifest) returns (result: RestoreResult)
      requires manifest == Some(saved) && DistinctTargets(saved.entries)
      modifies this`files, this`manifest, this`failures
      ensures failures >= old(failures)
      ensures result.Refused? <==> !AllAllowed(old(files), saved.entries)
      ensures result.Refused? ==> files == old(files) && manifest == old(manifest)
      ensures result.Restored? ==> files == RestoreAll(old(files), saved.entries) && manifest == None
      ensures result.Interrupted? ==> manifest == old(manifest) && failures > old(failures)
    {
      hide Allowed;
      for i := 0 to |saved.entries|
        invariant forall j :: 0 <= j < i ==> Allowed(files, saved.entries[j])
        invariant files == old(files) && manifest == old(manifest) && failures == old(failures)
      {
        if !Allowed(files, saved.entries[i]) {
          return Refused;
        }
      }
      hide AllAllowed;
      assert AllAllowed(files, saved.entries);
      for i := 0 to |saved.entries|
        invariant files == RestoreAll(old(files), saved.entries[..i]) && manifest == old(manifest) && failures == old(failures)
      {
        var entry := saved.entries[i];
        assert saved.entries[..i + 1][..i] == saved.entries[..i];
        var removed := ReplaceTarget(entry.target, None);
        if !removed {
          return Interrupted;
        }
        var written := ReplaceTarget(entry.target, entry.original);
        if !written {
          return Interrupted;
        }
      }
      assert saved.entries[..|saved.entries|] == saved.entries;
      var removed := RemoveManifest();
      return if removed then Restored else Interrupted;
    }

    /** Reads the state of every target and source into a new manifest. */
    method Remember() returns (saved: Manifest)
      requires DistinctPairs(pairs)
      ensures saved.phase == Preparing && BelongsTo(saved, pairs)
      ensures PreparedUpTo(files, saved.entries, files, 0, false)
      ensures Lists(saved.entries, pairs)
      ensures forall i :: 0 <= i < |saved.entries| ==> saved.entries[i].sourceState == Some(SnapshotOf(files, saved.entries[i].source))
    {
      var entries: seq<Entry> := [];
      for i := 0 to |pairs|
        invariant |entries| == i
        invariant forall j :: 0 <= j < i ==>
                    entries[j] == Entry(pairs[j].source, pairs[j].target, SnapshotOf(files, pairs[j].target),
                                        Some(SnapshotOf(files, pairs[j].source)), None)
      {
        entries := entries + [Entry(pairs[i].source, pairs[i].target, SnapshotOf(files, pairs[i].target),
                                    Some(SnapshotOf(files, pairs[i].source)), None)];
      }
      saved := Manifest(Preparing, entries);
    }

    /** Replaces one target by its canonical document, unless either has changed meanwhile. */
    method CopyCanonical(entry: Entry) returns (preparedState: Option<Snapshot>)
      modifies this`files, this`failures
      ensures failures >= old(failures) && (preparedState.Some? ==> failures == old(failures))
      ensures preparedState.None? ==> files == old(files)
      ensures preparedState.None? ==>
                || failures > old(failures)
                || (entry.sourceState.Some? && SnapshotOf(files, entry.source) != entry.sourceState.value)
                || SnapshotOf(files, entry.target) != entry.original
      ensures preparedState.Some? ==>
                && (entry.sourceState.Some? ==> entry.sourceState.value == SnapshotOf(old(files), entry.source))
                && SnapshotOf(old(files), entry.target) == entry.original
                && files == Put(old(files), entry.target, SnapshotOf(old(files), entry.source))
                && preparedState.value == SnapshotOf(files, entry.target)
    {
      var source := SnapshotOf(files, entry.source);
      if entry.sourceState.Some? && source != entry.sourceState.value {
        return None;
      }
      if SnapshotOf(files, entry.target) != entry.original {
        return None;
      }
      var replaced := ReplaceTarget(entry.target, source);
      if !replaced {
        return None;
      }
      return Some(SnapshotOf(files, entry.target));
    }

    /** The manifest of an earlier run, if there is one, is restored first. */
    method RestoreStale() returns (result: RestoreResult)
      requires manifest.Some? ==> BelongsTo(manifest.value, pairs)
      modifies this`files, this`manifest, this`failures
      ensures failures >= old(failures)
      ensures result.Refused? ==> files == old(files) && manifest == old(manifest)
      ensures result.Restored? ==> manifest == None
      ensures result.Restored? ==> files == if old(manifest).Some? then RestoreAll(old(files), old(manifest).value.entries) else old(files)
      ensures old(manifest).None? ==> result.Restored?
      ensures result.Refused? <==> old(manifest).Some? && !AllAllowed(old(files), old(manifest).value.entries)
      ensures result.Interrupted? ==> manifest == old(manifest) && failures > old(failures)
    {
      if manifest.None? {
        return Restored;
      }
      result := RestoreOriginal(manifest.value);
    }

    method ValidateSources() returns (ok: bool)
      ensures ok <==> forall i :: 0 <= i < |pairs| ==> SnapshotOf(files, pairs[i].source).Some?
    {
      for i := 0 to |pairs|
        invariant forall j :: 0 <= j < i ==> SnapshotOf(files, pairs[j].source).Some?
      {
        if SnapshotOf(files, pairs[i].source).None? {
          return false;
        }
      }
      return true;
    }

    /** Replaces the targets one after the other, recording each in the manifest. Tells how far it has come. */
    method CopyAll(ghost base: Files, ghost before: seq<Instant>) returns (ok: bool, ghost n: nat, ghost replaced: bool)
      requires manifest.Some? && BelongsTo(manifest.value, pairs)
      requires PreparedUpTo(files, manifest.value.entries, base, 0, false) && AlwaysRestorable(instants, before, base)
      requires SourcesAsIn(manifest.value.entries, base) && Lists(manifest.value.entries, pairs)
      modifies this
      ensures failures >= old(failures)
      ensures !ok && Apart(pairs) ==> failures > old(failures)
      ensures manifest.Some? && BelongsTo(manifest.value, pairs) && Restorable(files, manifest.value, base)
      ensures AlwaysRestorable(instants, before, base)
      ensures PreparedUpTo(files, manifest.value.entries, base, n, replaced)
      ensures SourcesAsIn(manifest.value.entries, base) && Lists(manifest.value.entries, pairs)
      ensures ok ==> n == |manifest.value.entries| && !replaced
      ensures ok ==> AllCanonical(manifest.value.entries, |manifest.value.entries|)
    {
      hide SnapshotOf, RestoreAll, Remembers, Restorable, AllAllowed, Put, AlwaysRestorable, PreparedUpTo, BelongsTo, AllCanonical;
      var current := manifest.value;
      var count := |current.entries|;
      PreparedIsRestorable(files, current, base, 0, false);
      NothingCanonical(current.entries);
      for i := 0 to count
        invariant manifest == Some(current) && BelongsTo(current, pairs) && |current.entries| == count
        invariant SourcesAsIn(current.entries, base) && Lists(current.entries, pairs)
        invariant failures == old(failures)
        invariant PreparedUpTo(files, current.entries, base, i, false) && Restorable(files, current, base)
        invariant AlwaysRestorable(instants, before, base) && AllCanonical(current.entries, i)
      {
        var entry := current.entries[i];
        UnpreparedEntry(files, current.entries, base, i);
        if Apart(pairs) {
          NothingInTheWay(files, current, base, pairs, i);
        }
        ghost var earlier := files;
        var preparedState := CopyCanonical(entry);
        if preparedState.None? {
          return false, i, false;
        }
        CanonicalIsSource(earlier, entry);
        ReplaceStep(earlier, current.entries, base, i);
        PreparedIsRestorable(files, current, base, i, true);
        AlwaysRestorableAdd(instants, before, base, files, manifest);
        instants := instants + [Instant(files, manifest)];
        RecordStep(files, current.entries, base, i);
        RecordBelongs(current, pairs, i, preparedState.value);
        CanonicalSnoc(current.entries, i, preparedState.value);
        current := Manifest(current.phase, current.entries[i := entry.(prepared := preparedState)]);
        PreparedIsRestorable(files, current, base, i + 1, false);
        var written := WriteManifest(current);
        if !written {
          return false, i, true;
        }
        AlwaysRestorableAdd(instants, before, base, files, manifest);
        instants := instants + [Instant(files, manifest)];
      }
      return true, count, false;
    }

    /**
      Saves the targets and replaces them by the canonical documents. `base` is what the files were,
      after an earlier run has been restored: in every state this passes through, and wherever it
      stops, cleanup would give back `base`. The first `n` documents are recorded by then, and the
      next may be replaced.
     */
    method Prepare() returns (result: PrepareResult, ghost base: Files, ghost n: nat, ghost replaced: bool)
      requires DistinctPairs(pairs)
      requires manifest.Some? ==> BelongsTo(manifest.value, pairs)
      modifies this
      ensures manifest.Some? ==> BelongsTo(manifest.value, pairs)
      ensures old(manifest).None? ==> base == old(files)
      ensures result.Stopped? || result.Done? ==>
                base == if old(manifest).Some? then RestoreAll(old(files), old(manifest).value.entries) else old(files)
      ensures result.SourceMissing? <==> exists i :: 0 <= i < |pairs| && SnapshotOf(old(files), pairs[i].source) == None
      ensures result.StaleRefused? <==>
                !result.SourceMissing? && old(manifest).Some? && !AllAllowed(old(files), old(manifest).value.entries)
      ensures result.SourceMissing? || result.StaleRefused? ==> files == old(files) && manifest == old(manifest)
      ensures !result.Stopped? && !result.Done? ==> instants == old(instants) && manifest == old(manifest)
      ensures AlwaysRestorable(instants, old(instants), base)
      ensures result.Stopped? ==> if manifest.Some? then Restorable(files, manifest.value, base) else files == base
      ensures result.Done? ==> manifest.Some? && manifest.value.phase == Prepared && Restorable(files, manifest.value, base)
      ensures (result.Stopped? && Apart(pairs)) || result.StaleInterrupted? ==> failures > old(failures)
      ensures result.Done? ==> AllCanonical(manifest.value.entries, |manifest.value.entries|)
      ensures (result.Stopped? || result.Done?) && manifest.Some? ==>
                && PreparedUpTo(files, manifest.value.entries, base, n, replaced)
                && SourcesAsIn(manifest.value.entries, base) && Lists(manifest.value.entries, pairs)
      ensures result.Done? ==> n == |manifest.value.entries| && !replaced
    {
      hide SnapshotOf, RestoreAll, Remembers, Restorable, AllAllowed, Put, AlwaysRestorable, PreparedUpTo, BelongsTo, AllCanonical;
      ghost var before := instants;
      base, n, replaced := files, 0, false;
      NoNewInstants(before, base);
      var sourcesExist := ValidateSources();
      if !sourcesExist {
        return SourceMissing, base, n, replaced;
      }
      var stale := RestoreStale();
      base := files;
      NoNewInstants(before, base);
      if stale.Refused? {
        return StaleRefused, base, n, replaced;
      }
      if stale.Interrupted? {
        return StaleInterrupted, base, n, replaced;
      }
      AlwaysRestorableAdd(instants, before, base, files, manifest);
      instants := instants + [Instant(files, manifest)];
      var current := Remember();
      PreparedIsRestorable(files, current, base, 0, false);
      var written := WriteManifest(current);
      if !written {
        return Stopped, base, n, replaced;
      }
      AlwaysRestorableAdd(instants, before, base, files, manifest);
      instants := instants + [Instant(files, manifest)];
      var copied;
      copied, n, replaced := CopyAll(base, before);
      if !copied {
        return Stopped, base, n, replaced;
      }
      var finished := Manifest(Prepared, manifest.value.entries);
      PhaseDoesNotMatter(files, manifest.value, finished, base, pairs);
      written := WriteManifest(finished);
      if !written {
        return Stopped, base, n, replaced;
      }
      AlwaysRestorableAdd(instants, before, base, files, manifest);
      instants := instants + [Instant(files, manifest)];
      return Done, base, n, replaced;
    }

    /** Puts everything back after a prepare, whole or not. Does nothing without a manifest. */
    method Cleanup(ghost base: Files) returns (result: RestoreResult)
      requires manifest.Some? ==> BelongsTo(manifest.value, pairs)
      modifies this`files, this`manifest, this`failures
      ensures result.Interrupted? ==> failures > old(failures)
      ensures old(manifest).None? ==> result.Restored? && files == old(files)
      ensures old(manifest).Some? ==> (result.Refused? <==> !AllAllowed(old(files), old(manifest).value.entries))
      ensures result.Refused? ==> files == old(files) && manifest == old(manifest)
      ensures result.Restored? ==> manifest == None
      ensures old(manifest).Some? && result.Restored? ==> files == RestoreAll(old(files), old(manifest).value.entries)
      ensures old(manifest).Some? && Restorable(old(files), old(manifest).value, base) ==>
                !result.Refused? && (result.Restored? ==> files == base)
    {
      if manifest.None? {
        return Restored;
      }
      result := RestoreOriginal(manifest.value);
    }
  }

  predicate SourcesAsIn(entries: seq<Entry>, base: Files) {
    forall i :: 0 <= i < |entries| ==> entries[i].sourceState == Some(SnapshotOf(base, entries[i].source))
  }

  /** No document is copied from a place that another one is copied to. */
  predicate Apart(pairs: seq<Pair>) {
    forall p, q :: p in pairs && q in pairs ==> p.source != q.target
  }

  /** Then prepare finds source and target as it remembers them. */
  lemma NothingInTheWay(files: Files, manifest: Manifest, base: Files, pairs: seq<Pair>, i: nat)
    requires BelongsTo(manifest, pairs) && Apart(pairs) && SourcesAsIn(manifest.entries, base)
    requires PreparedUpTo(files, manifest.entries, base, i, false) && i < |manifest.entries|
    ensures var e := manifest.entries[i];
            e.sourceState == Some(SnapshotOf(files, e.source)) && SnapshotOf(files, e.target) == e.original
  {
    var entries := manifest.entries;
    forall j | 0 <= j < |entries|
      ensures entries[j].target != entries[i].source
    {
      assert Pair(entries[i].source, entries[i].target) in pairs && Pair(entries[j].source, entries[j].target) in pairs;
    }
    assert entries[i].source !in Targets(entries);
    hide SnapshotOf;
  }

  lemma NoNewInstants(instants: seq<Instant>, base: Files)
    ensures AlwaysRestorable(instants, instants, base)
  {
  }

  /** The first targets hold their canonical documents. */
  predicate AllCanonical(entries: seq<Entry>, n: nat)
    requires n <= |entries|
  {
    forall i :: 0 <= i < n ==> entries[i].prepared.Some? && entries[i].prepared == entries[i].sourceState
  }

  lemma NothingCanonical(entries: seq<Entry>)
    ensures AllCanonical(entries, 0)
  {
  }

  lemma CanonicalSnoc(entries: seq<Entry>, i: nat, state: Snapshot)
    requires i < |entries| && AllCanonical(entries, i) && entries[i].sourceState == Some(state)
    ensures AllCanonical(entries[i := entries[i].(prepared := Some(state))], i + 1)
  {
  }

  lemma UnpreparedEntry(files: Files, entries: seq<Entry>, base: Files, i: nat)
    requires PreparedUpTo(files, entries, base, i, false) && i < |entries|
    ensures entries[i].prepared == None
  {
  }

  lemma CanonicalIsSource(files: Files, e: Entry)
    ensures SnapshotOf(Put(files, e.target, SnapshotOf(files, e.source)), e.target) == SnapshotOf(files, e.source)
  {
    PutSnapshot(files, e.target, SnapshotOf(files, e.source), e.target);
  }

  lemma RecordBelongs(manifest: Manifest, pairs: seq<Pair>, i: nat, state: Snapshot)
    requires BelongsTo(manifest, pairs) && i < |manifest.entries|
    ensures BelongsTo(Manifest(manifest.phase, manifest.entries[i := manifest.entries[i].(prepared := Some(state))]), pairs)
  {
  }

  lemma PhaseDoesNotMatter(files: Files, manifest: Manifest, other: Manifest, base: Files, pairs: seq<Pair>)
    requires other.entries == manifest.entries
    ensures Restorable(files, other, base) == Restorable(files, manifest, base)
    ensures BelongsTo(other, pairs) == BelongsTo(manifest, pairs)
  {
  }

  // ---------------------------------------------------------- edited files

  /** After any edits, which of the targets prepare has left are still in a state that cleanup may replace. */
  lemma AllowedAfterEdits(files: Files, entries: seq<Entry>, base: Files, n: nat, replaced: bool, edited: Files)
    requires PreparedUpTo(files, entries, base, n, replaced) && SourcesAsIn(entries, base)
    ensures AllAllowed(edited, entries) <==>
            && (forall i :: 0 <= i < n ==> SnapshotOf(edited, entries[i].target) == SnapshotOf(files, entries[i].target))
            && (forall i :: n <= i < |entries| ==>
                  || SnapshotOf(edited, entries[i].target) == SnapshotOf(base, entries[i].target)
                  || SnapshotOf(edited, entries[i].target) == SnapshotOf(edited, entries[i].source) == SnapshotOf(base, entries[i].source))
  {
    hide SnapshotOf;
    forall i | 0 <= i < |entries|
      ensures Allowed(edited, entries[i]) <==>
              if i < n then SnapshotOf(edited, entries[i].target) == SnapshotOf(files, entries[i].target)
              else
                || SnapshotOf(edited, entries[i].target) == SnapshotOf(base, entries[i].target)
                || SnapshotOf(edited, entries[i].target) == SnapshotOf(edited, entries[i].source) == SnapshotOf(base, entries[i].source)
    {
    }
    hide Allowed, PreparedUpTo;
  }

  /** A recorded target no longer holds what prepare left there. */
  predicate RecordedChanged(left: Files, edited: Files, pairs: seq<Pair>, n: nat) {
    exists i :: 0 <= i < n && i < |pairs| && SnapshotOf(edited, pairs[i].target) != SnapshotOf(left, pairs[i].target)
  }

  /**
    A target that is not recorded yet holds neither what it held at first nor its canonical document,
    or holds the document, but that one has changed since prepare began.
   */
  predicate UnrecordedChanged(base: Files, edited: Files, pairs: seq<Pair>, n: nat) {
    exists i :: n <= i < |pairs|
      && SnapshotOf(edited, pairs[i].target) != SnapshotOf(base, pairs[i].target)
      && !(SnapshotOf(edited, pairs[i].target) == SnapshotOf(edited, pairs[i].source) == SnapshotOf(base, pairs[i].source))
  }

  lemma RefusedIffEdited(files: Files, entries: seq<Entry>, base: Files, n: nat, replaced: bool, pairs: seq<Pair>, edited: Files)
    requires PreparedUpTo(files, entries, base, n, replaced) && SourcesAsIn(entries, base) && Lists(entries, pairs)
    ensures !AllAllowed(edited, entries) <==> RecordedChanged(files, edited, pairs, n) || UnrecordedChanged(base, edited, pairs, n)
  {
    AllowedAfterEdits(files, entries, base, n, replaced, edited);
    hide SnapshotOf, AllAllowed;
  }

  /** Cleanup puts back the targets and leaves every other path as the edits made it. */
  lemma RestoredAfterEdits(entries: seq<Entry>, base: Files, pairs: seq<Pair>, edited: Files)
    requires Remembers(entries, base) && Lists(entries, pairs)
    ensures forall i :: 0 <= i < |pairs| ==>
              SnapshotOf(RestoreAll(edited, entries), pairs[i].target) == SnapshotOf(base, pairs[i].target)
    ensures forall path :: (forall i :: 0 <= i < |pairs| ==> pairs[i].target != path) ==>
              SnapshotOf(RestoreAll(edited, entries), path) == SnapshotOf(edited, path)
  {
    hide SnapshotOf, RestoreAll;
    forall i | 0 <= i < |pairs|
      ensures SnapshotOf(RestoreAll(edited, entries), pairs[i].target) == SnapshotOf(base, pairs[i].target)
    {
      RestoredSnapshot(edited, entries, pairs[i].target);
      assert entries[i].target == pairs[i].target;
    }
    forall path | forall i :: 0 <= i < |pairs| ==> pairs[i].target != path
      ensures SnapshotOf(RestoreAll(edited, entries), path) == SnapshotOf(edited, path)
    {
      RestoredSnapshot(edited, entries, path);
    }
  }

  /** What prepare has put into the targets are the canonical documents. */
  lemma DoneIsCanonical(files: Files, entries: seq<Entry>, base: Files, pairs: seq<Pair>)
    requires PreparedUpTo(files, entries, base, |entries|, false) && SourcesAsIn(entries, base) && Lists(entries, pairs)
    requires AllCanonical(entries, |entries|)
    ensures forall i :: 0 <= i < |pairs| ==> SnapshotOf(files, pairs[i].target) == SnapshotOf(base, pairs[i].source)
  {
    hide SnapshotOf;
  }

  /**
    Prepare, then any edits to any files, then cleanup. Cleanup refuses exactly if a target prepare has
    recorded no longer holds what prepare left there, or one it has not is in none of the states it
    may be in; then it changes nothing. Otherwise it puts back every target and leaves all other
    edits, unless a file operation fails.
   */
  method PrepareEditCleanup(lifecycle: DocLifecycle, edited: Files)
    returns (prepared: PrepareResult, cleaned: RestoreResult, ghost base: Files, ghost left: Files, ghost n: nat,
             ghost kept: Option<Manifest>)
    requires DistinctPairs(lifecycle.pairs) && lifecycle.manifest == None
    modifies lifecycle
    ensures base == old(lifecycle.files) && (prepared.Done? ==> kept.Some? && n == |lifecycle.pairs|)
    ensures prepared.Done? ==>
              forall i :: 0 <= i < |lifecycle.pairs| ==>
                SnapshotOf(left, lifecycle.pairs[i].target) == SnapshotOf(base, lifecycle.pairs[i].source)
    ensures kept.Some? ==>
              (cleaned.Refused? <==>
               RecordedChanged(left, edited, lifecycle.pairs, n) || UnrecordedChanged(base, edited, lifecycle.pairs, n))
    ensures cleaned.Refused? ==> lifecycle.files == edited && lifecycle.manifest == kept
    ensures kept.Some? && cleaned.Restored? ==>
              && lifecycle.manifest == None
              && (forall i :: 0 <= i < |lifecycle.pairs| ==>
                    SnapshotOf(lifecycle.files, lifecycle.pairs[i].target) == SnapshotOf(base, lifecycle.pairs[i].target))
              && forall path :: (forall i :: 0 <= i < |lifecycle.pairs| ==> lifecycle.pairs[i].target != path) ==>
                   SnapshotOf(lifecycle.files, path) == SnapshotOf(edited, path)
    ensures kept.None? ==> cleaned.Restored? && lifecycle.files == edited && lifecycle.manifest == None
  {
    hide SnapshotOf, AllAllowed, Restorable, AlwaysRestorable, RestoreAll, AllCanonical;
    ghost var replaced;
    prepared, base, n, replaced := lifecycle.Prepare();
    left, kept := lifecycle.files, lifecycle.manifest;
    lifecycle.files := edited;
    ghost var pairs := lifecycle.pairs;
    if kept.Some? {
      RefusedIffEdited(left, kept.value.entries, base, n, replaced, pairs, edited);
      RestoredAfterEdits(kept.value.entries, base, pairs, edited);
      if prepared.Done? {
        DoneIsCanonical(left, kept.value.entries, base, pairs);
      }
    }
    cleaned := lifecycle.Cleanup(base);
  }
}
