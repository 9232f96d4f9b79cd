/**
  Runs of an app over the segment store with a legacy source under it: any calls, any failures on
  either side, migrations that stop half-way, and restarts of the process. A run is a relation between
  places, that is, what the source holds and what the store shows; RunApp ties it to the classes.
 */
module LegacyRuns {
  import opened Wrappers
  import opened SegmentCodec
  import opened Replay
  import opened SegmentInvariant
  import opened SegmentRecovery
  import opened FileAdapters
  import opened JsonlSegmentStores
  import opened LegacyMigration

  /** The source, what the store shows, and what the whole disk holds. */
  datatype Place = Place(source: Entries, visible: Contents, full: Contents)

  /** A disk with a source beside it, for a session that cannot read the segments in `hidden`. */
  ghost function Here(source: Entries, disk: Disk, hidden: set<nat>, limit: nat): Place {
    Place(source, Replayed(disk - hidden, limit), Replayed(disk, limit))
  }

  datatype AppStep = Migrating | Setting(key: Bytes, value: Bytes) | Deleting(key: Bytes, forgotten: bool)

  ghost predicate Follows(before: Place, step: AppStep, after: Place, limit: nat) {
    match step
    case Migrating =>
      && Conserved(before.source, before.visible, after.source, after.visible, limit)
      && after.full == Taken(before.full, before.visible, after.visible)
    case Setting(k, v) => after == Place(before.source, before.visible[k := v], before.full[k := v])
    case Deleting(k, forgotten) =>
      after == Place(if forgotten then before.source - {k} else before.source, before.visible - {k},
                     if k in before.visible then before.full - {k} else before.full)
  }

  ghost predicate AppRun(places: seq<Place>, steps: seq<AppStep>, limit: nat) {
    && |places| == |steps| + 1
    && forall i :: 0 <= i < |steps| ==> Follows(places[i], steps[i], places[i + 1], limit)
  }

  function Shown(p: Place): Entries {
    Overlaid(p.source, p.visible)
  }

  predicate Touches(step: AppStep, k: Bytes) {
    (step.Setting? || step.Deleting?) && step.key == k
  }

  /** The app touches the key in none of the steps. */
  predicate LeftAlone(steps: seq<AppStep>, k: Bytes) {
    forall i :: 0 <= i < |steps| ==> !Touches(steps[i], k)
  }

  // ------------------------------------------------------- what a run conserves

  /** What may have happened to one key on the way from one place to a later one, if nobody touched it. */
  predicate KeyConserved(first: Place, last: Place, limit: nat, k: Bytes) {
    && (k in Shown(last) ==> k in Shown(first) && Shown(last)[k] == Shown(first)[k])
    && (k in Shown(first) && k !in Shown(last) ==> k in first.source && Unstorable(k, first.source[k], limit))
    && (k in last.source ==> k in first.source && first.source[k] == last.source[k])
    && (k in first.visible ==> k in last.visible)
    && (k in last.visible && k !in first.visible ==> k in first.source && !Unstorable(k, first.source[k], limit))
  }

  /** And on the whole disk: only a value out of sight can be overwritten, and only by the source's. */
  predicate KeyKept(first: Place, last: Place, k: Bytes) {
    && (k in first.full ==> k in last.full && (last.full[k] == first.full[k] || FromSource(first, last, k)))
    && (k in last.full && k !in first.full ==> FromSource(first, last, k))
    && (k in last.visible && k !in last.full ==> k in first.visible && k !in first.full)
  }

  predicate FromSource(first: Place, last: Place, k: Bytes)
    requires k in last.full
  {
    k !in first.visible && k in first.source && last.full[k] == first.source[k]
  }

  lemma StepConserves(before: Place, step: AppStep, after: Place, limit: nat, k: Bytes)
    requires Follows(before, step, after, limit) && !Touches(step, k)
    ensures KeyConserved(before, after, limit, k) && KeyKept(before, after, k)
  {
    StepKeepsKey(before, step, after, limit, k);
    hide Unstorable, KeyKept, Taken;
    if step.Migrating? {
      var lost :| OnlyUnstorable(lost, before.source, before.visible, limit)
                  && Overlaid(after.source, after.visible) == Overlaid(before.source, before.visible) - lost;
    }
  }

  lemma StepKeepsKey(before: Place, step: AppStep, after: Place, limit: nat, k: Bytes)
    requires Follows(before, step, after, limit) && !Touches(step, k)
    ensures KeyKept(before, after, k)
  {
    hide Unstorable, OnlyUnstorable, Overlaid;
  }

  lemma KeyKeptTwice(first: Place, middle: Place, last: Place, limit: nat, k: Bytes)
    requires KeyConserved(first, middle, limit, k) && KeyKept(first, middle, k) && KeyKept(middle, last, k)
    ensures KeyKept(first, last, k)
  {
    hide Unstorable;
  }

  lemma KeyConservedTwice(first: Place, middle: Place, last: Place, limit: nat, k: Bytes)
    requires KeyConserved(first, middle, limit, k) && KeyConserved(middle, last, limit, k)
    ensures KeyConserved(first, last, limit, k)
  {
    hide Unstorable;
  }

  lemma ShorterRun(places: seq<Place>, steps: seq<AppStep>, limit: nat, k: Bytes)
    requires AppRun(places, steps, limit) && LeftAlone(steps, k) && steps != []
    ensures var n := |steps| - 1;
            && AppRun(places[..n + 1], steps[..n], limit) && LeftAlone(steps[..n], k)
            && !Touches(steps[n], k) && Follows(places[n], steps[n], places[n + 1], limit)
  {
    hide Follows, Touches;
  }

  /**
    Over any run of migrations, partial failures, sets and deletions: a key the app does not touch
    keeps its value, unless it is a legacy record the store will never take; no key appears from
    nowhere; and what becomes visible is what the source held, if the store takes it.
   */
  lemma {:induction false} RunsConserve(places: seq<Place>, steps: seq<AppStep>, limit: nat, k: Bytes)
    requires AppRun(places, steps, limit) && LeftAlone(steps, k)
    ensures KeyConserved(places[0], places[|steps|], limit, k) && KeyKept(places[0], places[|steps|], k)
    decreases |steps|
  {
    if steps != [] {
      var n := |steps| - 1;
      ShorterRun(places, steps, limit, k);
      hide Follows, AppRun, KeyConserved, KeyKept, LeftAlone, Touches;
      RunShape(places, steps, limit);
      RunsConserve(places[..n + 1], steps[..n], limit, k);
      StepConserves(places[n], steps[n], places[n + 1], limit, k);
      KeyConservedTwice(places[0], places[n], places[n + 1], limit, k);
      KeyKeptTwice(places[0], places[n], places[n + 1], limit, k);
    }
  }

  lemma RunShape(places: seq<Place>, steps: seq<AppStep>, limit: nat)
    requires AppRun(places, steps, limit)
    ensures |places| == |steps| + 1
  {
  }

  /** A key deleted from store and source stays away until the app sets it again. */
  lemma DeletedStaysDeleted(before: Place, k: Bytes, places: seq<Place>, steps: seq<AppStep>, limit: nat)
    requires AppRun(places, steps, limit) && LeftAlone(steps, k)
    requires Follows(before, Deleting(k, true), places[0], limit)
    ensures k !in Shown(places[|steps|])
  {
    hide Unstorable;
    RunsConserve(places, steps, limit, k);
  }

  /** A key that the app has set keeps that value until it is touched again, whatever the source holds. */
  lemma SetStaysSet(before: Place, k: Bytes, v: Bytes, places: seq<Place>, steps: seq<AppStep>, limit: nat)
    requires AppRun(places, steps, limit) && LeftAlone(steps, k)
    requires Follows(before, Setting(k, v), places[0], limit)
    ensures k in places[|steps|].visible && places[|steps|].visible[k] == v
  {
    hide Unstorable, AppRun;
    RunShape(places, steps, limit);
    RunsConserve(places, steps, limit, k);
  }

  // ---------------------------------------------------- a deletion that comes back

  /**
    A deletion that did not reach the source is undone by later migrations: once the source has let
    go of the key, the store shows it again exactly when the source held it at the deletion and the
    record is one the store takes. Once a migration has ended, the source holds nothing.
   */
  lemma DeletionComesBackIff(before: Place, k: Bytes, places: seq<Place>, steps: seq<AppStep>, limit: nat)
    requires AppRun(places, steps, limit) && LeftAlone(steps, k)
    requires Follows(before, Deleting(k, false), places[0], limit)
    requires k !in places[|steps|].source
    ensures var last := places[|steps|].visible;
            && (k in last <==> k in before.source && !Unstorable(k, before.source[k], limit))
            && (k in last ==> last[k] == before.source[k])
  {
    hide Unstorable, AppRun;
    RunShape(places, steps, limit);
    RunsConserve(places, steps, limit, k);
  }

  /**
    Such a run: the first migration imports the entry but the source cannot be cleared, the deletion
    cannot take the key out of the source either, another key is set, which arms the migration
    again, and the next migration brings the deleted key back.
   */
  lemma DeletedKeyIsImportedAgain(k: Bytes, v: Bytes, other: Bytes, w: Bytes, limit: nat) returns (places: seq<Place>, steps: seq<AppStep>)
    requires !Unstorable(k, v, limit) && k != other
    ensures steps == [Migrating, Deleting(k, false), Setting(other, w), Migrating] && AppRun(places, steps, limit)
    ensures places[0] == Place(map[k := v], map[], map[]) && places[2] == Place(map[k := v], map[], map[])
    ensures places[4] == Place(map[], map[other := w, k := v], map[other := w, k := v])
  {
    hide Unstorable;
    var held: Entries := map[k := v];
    var none: Contents := map[];
    steps := [Migrating, Deleting(k, false), Setting(other, w), Migrating];
    var both: Contents := map[other := w, k := v];
    places := [Place(held, none, none), Place(held, held, held), Place(held, none, none),
               Place(held, map[other := w], map[other := w]), Place(map[], both, both)];
    assert held - {k} == none && none[other := w] == map[other := w];
    assert Taken(none, none, held) == held && Taken(map[other := w], map[other := w], both) == both;
    assert OnlyUnstorable({}, held, none, limit) && OnlyUnstorable({}, held, map[other := w], limit);
    assert Overlaid(held, held) == Overlaid(held, none) - {};
    assert Overlaid(map[], map[other := w, k := v]) == Overlaid(held, map[other := w]) - {};
    assert Follows(places[0], steps[0], places[1], limit);
    assert Follows(places[1], steps[1], places[2], limit);
    assert Follows(places[2], steps[2], places[3], limit);
    assert Follows(places[3], steps[3], places[4], limit);
  }

  /** What a migration that has emptied the source leaves: the storable entries under what was visible. */
  lemma FinishedMigration(source: Entries, seen: Contents, visible: Contents, limit: nat)
    requires Conserved(source, seen, map[], visible, limit)
    ensures visible == (map k | k in source && !Unstorable(k, source[k], limit) :: source[k]) + seen
  {
    hide Unstorable;
    var lost :| OnlyUnstorable(lost, source, seen, limit) && Overlaid(map[], visible) == Overlaid(source, seen) - lost;
    assert Overlaid(map[], visible) == visible;
  }

  /** Two migrations in a row lose no more than one. */
  lemma ConservedTwice(source: Entries, seen: Contents, middle: Entries, visible: Contents, after: Entries, last: Contents, limit: nat)
    requires Conserved(source, seen, middle, visible, limit) && Conserved(middle, visible, after, last, limit)
    ensures Conserved(source, seen, after, last, limit)
  {
    hide Unstorable;
    StorableTwice(source, seen, middle, visible, last, limit);
    var lost1 :| OnlyUnstorable(lost1, source, seen, limit) && Overlaid(middle, visible) == Overlaid(source, seen) - lost1;
    var lost2 :| OnlyUnstorable(lost2, middle, visible, limit) && Overlaid(after, last) == Overlaid(middle, visible) - lost2;
    hide OnlyStorable;
    UnstorableTwice(lost1, lost2, source, seen, middle, visible, limit);
    assert Overlaid(after, last) == Overlaid(source, seen) - (lost1 + lost2) by {
      hide OnlyUnstorable, KeepsValues, Overlaid;
    }
  }

  lemma StorableTwice(source: Entries, seen: Contents, middle: Entries, visible: Contents, last: Contents, limit: nat)
    requires OnlyStorable(source, seen, visible, limit) && OnlyStorable(middle, visible, last, limit)
    requires KeepsValues(middle, source) && KeepsValues(visible, last)
    ensures OnlyStorable(source, seen, last, limit)
  {
    hide Unstorable;
  }

  lemma UnstorableTwice(lost1: set<Bytes>, lost2: set<Bytes>, source: Entries, seen: Contents, middle: Entries, visible: Contents, limit: nat)
    requires OnlyUnstorable(lost1, source, seen, limit) && OnlyUnstorable(lost2, middle, visible, limit)
    requires KeepsValues(seen, visible) && KeepsValues(middle, source)
    ensures OnlyUnstorable(lost1 + lost2, source, seen, limit)
  {
    hide Unstorable;
  }

  // ------------------------------------------------------------ the classes run

  datatype Call = SetCall(key: Bytes, value: Bytes) | DeleteCall(key: Bytes) | GetCall(key: Bytes)

  /** The steps are those of the calls: no step touches a key that no call sets or deletes. */
  ghost predicate StepsOf(steps: seq<AppStep>, calls: seq<Call>) {
    forall i :: 0 <= i < |steps| && !steps[i].Migrating? ==> exists j :: 0 <= j < |calls| && Asks(calls[j], steps[i].key)
  }

  predicate Asks(call: Call, k: Bytes) {
    !call.GetCall? && call.key == k
  }

  /** A run of the app between two places. */
  ghost predicate Leads(first: Place, places: seq<Place>, steps: seq<AppStep>, calls: seq<Call>, last: Place, limit: nat) {
    AppRun(places, steps, limit) && StepsOf(steps, calls) && places[0] == first && places[|steps|] == last
  }

  lemma NoSteps(first: Place, limit: nat)
    ensures Leads(first, [first], [], [], first, limit)
  {
  }

  lemma OneMoreStep(first: Place, places: seq<Place>, steps: seq<AppStep>, calls: seq<Call>, middle: Place, step: AppStep, last: Place, limit: nat)
    requires Leads(first, places, steps, calls, middle, limit) && Follows(middle, step, last, limit)
    requires step.Migrating? || exists j :: 0 <= j < |calls| && Asks(calls[j], step.key)
    ensures Leads(first, places + [last], steps + [step], calls, last, limit)
  {
    hide Follows, Asks;
  }

  lemma OneMoreCall(first: Place, places: seq<Place>, steps: seq<AppStep>, calls: seq<Call>, call: Call, last: Place, limit: nat)
    requires Leads(first, places, steps, calls, last, limit)
    ensures Leads(first, places, steps, calls + [call], last, limit)
    ensures !call.GetCall? ==> exists j :: 0 <= j < |calls + [call]| && Asks((calls + [call])[j], call.key)
  {
    hide AppRun;
    var all := calls + [call];
    assert !call.GetCall? ==> Asks(all[|calls|], call.key);
    forall i | 0 <= i < |steps| && !steps[i].Migrating?
      ensures exists j :: 0 <= j < |all| && Asks(all[j], steps[i].key)
    {
      var j :| 0 <= j < |calls| && Asks(calls[j], steps[i].key);
      assert Asks(all[j], steps[i].key);
    }
  }

  /** A migration, and then nothing or one step of the call itself. */
  lemma CallRuns(first: Place, places: seq<Place>, steps: seq<AppStep>, calls: seq<Call>, call: Call,
                 here: Place, middle: Place, step: Option<AppStep>, last: Place, limit: nat) returns (places1: seq<Place>, steps1: seq<AppStep>)
    requires Leads(first, places, steps, calls, here, limit)
    requires Follows(here, Migrating, middle, limit)
    requires if step.Some? then Follows(middle, step.value, last, limit) else last == middle
    requires step.Some? ==> !call.GetCall? && !step.value.Migrating? && step.value.key == call.key
    ensures Leads(first, places1, steps1, calls + [call], last, limit)
  {
    hide Follows, Leads;
    OneMoreCall(first, places, steps, calls, call, here, limit);
    OneMoreStep(first, places, steps, calls + [call], here, Migrating, middle, limit);
    places1, steps1 := places + [middle], steps + [Migrating];
    if step.Some? {
      OneMoreStep(first, places1, steps1, calls + [call], middle, step.value, last, limit);
      places1, steps1 := places1 + [last], steps1 + [step.value];
    }
  }

  /** Carries out one call. The ghost results are the place after the migration and what the call did then. */
  method Perform(storage: MigratingStorage, call: Call) returns (ghost middle: Place, ghost step: Option<AppStep>)
    requires storage.Valid()
    modifies storage.store, storage.store.fileAdapter, storage.migrator, storage.migrator.source
    ensures storage.Valid() && storage.SameSession()
    ensures Follows(Here(old(storage.migrator.source.stored), old(storage.store.fileAdapter.files), storage.store.unreadableSegments,
                         storage.store.maxRecordBytes), Migrating, middle, storage.store.maxRecordBytes)
    ensures var last := Place(storage.migrator.source.stored, storage.store.VisibleMap(), storage.store.FullMap());
            if step.Some? then Follows(middle, step.value, last, storage.store.maxRecordBytes) else last == middle
    ensures step.Some? ==> !call.GetCall? && !step.value.Migrating? && step.value.key == call.key
  {
    hide Conserved, Replayed, Consistent, Appendable, Openable, EncodeLine, Taken;
    ghost var here, full := storage.store.fileAdapter.files, storage.store.FullMap();
    step := None;
    match call {
      case SetCall(key, value) =>
        var found, result;
        ghost var visible;
        found, result, visible := storage.SetDisk(key, value);
        middle := Place(storage.migrator.source.stored, visible, storage.Grown(here, full, visible));
        if found && result.Stored? {
          step := Some(Setting(key, value));
        }
      case DeleteCall(key) =>
        var ok;
        ghost var visible, source, forgotten;
        ok, visible, source, forgotten := storage.DeleteDisk(key);
        middle := Place(source, visible, storage.Grown(here, full, visible));
        if ok {
          step := Some(Deleting(key, forgotten));
        }
      case GetCall(key) =>
        ghost var found;
        var value;
        value, found := storage.GetDisk(key);
        middle := Place(storage.migrator.source.stored, storage.store.VisibleMap(), storage.store.FullMap());
    }
  }

  /** One session of the app: a store and a migrator of its own, any calls. `hidden` are the segments it could not read. */
  method RunAppSession(fileAdapter: FileAdapter, source: LegacyDiskSource, maxSegmentBytes: nat, maxRecordBytes: nat, calls: seq<Call>)
    returns (ghost hidden: set<nat>, ghost places: seq<Place>, ghost steps: seq<AppStep>)
    requires Openable(fileAdapter.files)
    modifies fileAdapter, source
    ensures Openable(fileAdapter.files)
    ensures var limit := EffectiveRecordLimit(maxRecordBytes);
            Leads(Here(old(source.stored), old(fileAdapter.files), hidden, limit), places, steps, calls,
                  Here(source.stored, fileAdapter.files, hidden, limit), limit)
    ensures fileAdapter.failures >= old(fileAdapter.failures)
    ensures hidden != {} ==> fileAdapter.failures > old(fileAdapter.failures)
  {
    hide Replayed, Appendable, DeletionsAsWritten, Consistent, Openable, Leads, Follows;
    ghost var first, stored, limit := fileAdapter.files, source.stored, EffectiveRecordLimit(maxRecordBytes);
    var store := new JsonlSegmentStore(fileAdapter, maxSegmentBytes, maxRecordBytes);
    var migrator := new LegacyDiskMigrator(source);
    var storage := new MigratingStorage(store, migrator);
    ghost var start := Here(stored, first, store.unreadableSegments, limit);
    places, steps := [start], [];
    NoSteps(start, limit);
    for i := 0 to |calls|
      invariant storage.Valid() && storage.store == store && storage.migrator == migrator && migrator.source == source
      invariant store.fileAdapter == fileAdapter && store.maxRecordBytes == limit && fresh(store) && fresh(migrator)
      invariant fileAdapter.failures >= old(fileAdapter.failures)
      invariant !store.loaded || store.unreadableSegments != {} ==> fileAdapter.failures > old(fileAdapter.failures)
      invariant !store.loaded ==> fileAdapter.files == first && source.stored == stored
      invariant store.loaded ==>
                  Leads(Here(stored, first, store.unreadableSegments, limit), places, steps, calls[..i],
                        Here(source.stored, fileAdapter.files, store.unreadableSegments, limit), limit)
    {
      ghost var wasLoaded, here, held := store.loaded, fileAdapter.files, source.stored;
      ghost var middle, step;
      middle, step := Perform(storage, calls[i]);
      assert calls[..i + 1] == calls[..i] + [calls[i]];
      if store.loaded {
        start := Here(stored, first, store.unreadableSegments, limit);
        if !wasLoaded {
          places, steps := IdleCalls(start, calls[..i], limit);
        }
        ghost var last := Here(source.stored, fileAdapter.files, store.unreadableSegments, limit);
        places, steps := CallRuns(start, places, steps, calls[..i], calls[i],
                                  Here(held, here, store.unreadableSegments, limit), middle, step, last, limit);
      }
    }
    assert calls[..|calls|] == calls;
    ValidIsOpenable(store);
    hidden := store.unreadableSegments;
    if !store.loaded {
      places, steps := IdleCalls(Here(stored, first, hidden, limit), calls, limit);
    }
  }

  lemma ValidIsOpenable(store: JsonlSegmentStore)
    requires store.Valid()
    ensures Openable(store.fileAdapter.files)
  {
    hide Appendable, DeletionsAsWritten, IdsFit, Tracked, Accounted, Replayed;
  }

  /** Calls that never got to a store do nothing. */
  lemma IdleCalls(first: Place, calls: seq<Call>, limit: nat) returns (places: seq<Place>, steps: seq<AppStep>)
    ensures Leads(first, places, steps, calls, first, limit)
  {
    places, steps := [first], [];
  }

  datatype AppSession = AppSession(maxSegmentBytes: nat, calls: seq<Call>)

  function AllCalls(sessions: seq<AppSession>): seq<Call> {
    if sessions == [] then [] else AllCalls(sessions[..|sessions| - 1]) + sessions[|sessions| - 1].calls
  }

  lemma JoinRuns(first: Place, places: seq<Place>, steps: seq<AppStep>, calls: seq<Call>, middle: Place,
                 places1: seq<Place>, steps1: seq<AppStep>, calls1: seq<Call>, last: Place, limit: nat)
    requires Leads(first, places, steps, calls, middle, limit) && Leads(middle, places1, steps1, calls1, last, limit)
    ensures |places1| > 0 && Leads(first, places + places1[1..], steps + steps1, calls + calls1, last, limit)
  {
    JoinSteps(steps, calls, steps1, calls1);
    hide Follows, StepsOf;
    var all, done := places + places1[1..], steps + steps1;
    forall i | 0 <= i < |done|
      ensures Follows(all[i], done[i], all[i + 1], limit)
    {
      if i < |steps| {
        assert all[i] == places[i] && all[i + 1] == places[i + 1] && done[i] == steps[i];
      } else {
        var j := i - |steps|;
        assert all[i] == places1[j] && all[i + 1] == places1[j + 1] && done[i] == steps1[j];
      }
    }
  }

  lemma JoinSteps(steps: seq<AppStep>, calls: seq<Call>, steps1: seq<AppStep>, calls1: seq<Call>)
    requires StepsOf(steps, calls) && StepsOf(steps1, calls1)
    ensures StepsOf(steps + steps1, calls + calls1)
  {
    hide Asks;
    var done, all := steps + steps1, calls + calls1;
    forall i | 0 <= i < |done| && !done[i].Migrating?
      ensures exists j :: 0 <= j < |all| && Asks(all[j], done[i].key)
    {
      if i < |steps| {
        assert done[i] == steps[i];
        var j :| 0 <= j < |calls| && Asks(calls[j], steps[i].key);
        assert Asks(all[j], done[i].key);
      } else {
        assert done[i] == steps1[i - |steps|];
        var j :| 0 <= j < |calls1| && Asks(calls1[j], done[i].key);
        assert Asks(all[|calls| + j], done[i].key);
      }
    }
  }

  /** Every session could read every segment. */
  predicate ReadsEverything(hidden: seq<set<nat>>) {
    forall i :: 0 <= i < |hidden| ==> hidden[i] == {}
  }

  /** Source and disk between two sessions. */
  datatype AppCut = AppCut(source: Entries, disk: Disk)

  /** The session led from one cut to the next, whatever segments it could not read. */
  ghost predicate SessionLeads(before: AppCut, after: AppCut, hidden: set<nat>, calls: seq<Call>, limit: nat) {
    exists places, steps ::
      Leads(Here(before.source, before.disk, hidden, limit), places, steps, calls, Here(after.source, after.disk, hidden, limit), limit)
  }

  ghost predicate SessionsLead(cuts: seq<AppCut>, hidden: seq<set<nat>>, sessions: seq<AppSession>, limit: nat) {
    && |cuts| == |sessions| + 1 && |hidden| == |sessions|
    && forall i :: 0 <= i < |sessions| ==> SessionLeads(cuts[i], cuts[i + 1], hidden[i], sessions[i].calls, limit)
  }

  lemma SessionsLeadSnoc(cuts: seq<AppCut>, hidden: seq<set<nat>>, sessions: seq<AppSession>, limit: nat,
                         cut: AppCut, h: set<nat>, session: AppSession)
    requires SessionsLead(cuts, hidden, sessions, limit) && SessionLeads(cuts[|sessions|], cut, h, session.calls, limit)
    ensures SessionsLead(cuts + [cut], hidden + [h], sessions + [session], limit)
  {
    hide SessionLeads;
  }

  /**
    The app is restarted any number of times: each session has its own store and migrator. As long
    as every session can read every segment, which is certain when no file call fails, all of it is
    one run from what disk and source held at first to what they hold now.
   */
  method RunApp(fileAdapter: FileAdapter, source: LegacyDiskSource, maxRecordBytes: nat, sessions: seq<AppSession>)
    returns (ghost hidden: seq<set<nat>>, ghost places: seq<Place>, ghost steps: seq<AppStep>, ghost cuts: seq<AppCut>)
    requires Openable(fileAdapter.files)
    modifies fileAdapter, source
    ensures Openable(fileAdapter.files) && |hidden| == |sessions|
    ensures SessionsLead(cuts, hidden, sessions, EffectiveRecordLimit(maxRecordBytes))
    ensures cuts[0] == AppCut(old(source.stored), old(fileAdapter.files))
    ensures cuts[|sessions|] == AppCut(source.stored, fileAdapter.files)
    ensures !ReadsEverything(hidden) ==> fileAdapter.failures > old(fileAdapter.failures)
    ensures var limit := EffectiveRecordLimit(maxRecordBytes);
            ReadsEverything(hidden) ==>
              Leads(Here(old(source.stored), old(fileAdapter.files), {}, limit), places, steps, AllCalls(sessions),
                    Here(source.stored, fileAdapter.files, {}, limit), limit)
  {
    hide Replayed, Openable, Leads, AllCalls, SessionLeads, SessionsLead;
    ghost var limit := EffectiveRecordLimit(maxRecordBytes);
    ghost var first := Here(source.stored, fileAdapter.files, {}, limit);
    hidden, places, steps := [], [first], [];
    cuts := [AppCut(source.stored, fileAdapter.files)];
    NoSteps(first, limit);
    assert sessions[..0] == [];
    NoSessionsLead(cuts, limit);
    NoCalls(sessions[..0]);
    for i := 0 to |sessions|
      invariant Openable(fileAdapter.files) && |hidden| == i
      invariant fileAdapter.failures >= old(fileAdapter.failures)
      invariant !ReadsEverything(hidden) ==> fileAdapter.failures > old(fileAdapter.failures)
      invariant SessionsLead(cuts, hidden, sessions[..i], limit)
      invariant |cuts| == i + 1 && cuts[0] == AppCut(old(source.stored), old(fileAdapter.files))
      invariant cuts[i] == AppCut(source.stored, fileAdapter.files)
      invariant ReadsEverything(hidden) ==>
                  Leads(first, places, steps, AllCalls(sessions[..i]), Here(source.stored, fileAdapter.files, {}, limit), limit)
    {
      ghost var here := Here(source.stored, fileAdapter.files, {}, limit);
      ghost var disk := fileAdapter.files;
      ghost var h, places1, steps1;
      h, places1, steps1 := RunAppSession(fileAdapter, source, sessions[i].maxSegmentBytes, maxRecordBytes, sessions[i].calls);
      assert disk - {} == disk && fileAdapter.files - {} == fileAdapter.files;
      ghost var now := Here(source.stored, fileAdapter.files, {}, limit);
      MoreCalls(sessions, i);
      ghost var cut := AppCut(source.stored, fileAdapter.files);
      OneSessionLeads(cuts[i], cut, h, sessions[i].calls, limit, places1, steps1);
      SessionsLeadSnoc(cuts, hidden, sessions[..i], limit, cut, h, sessions[i]);
      assert sessions[..i + 1] == sessions[..i] + [sessions[i]];
      cuts := cuts + [cut];
      assert ReadsEverything(hidden + [h]) <==> ReadsEverything(hidden) && h == {} by {
        AlsoReads(hidden, h);
      }
      if ReadsEverything(hidden + [h]) {
        JoinRuns(first, places, steps, AllCalls(sessions[..i]), here, places1, steps1, sessions[i].calls, now, limit);
        places, steps := places + places1[1..], steps + steps1;
      }
      hidden := hidden + [h];
    }
    assert sessions[..|sessions|] == sessions;
  }

  lemma NoSessionsLead(cuts: seq<AppCut>, limit: nat)
    requires |cuts| == 1
    ensures SessionsLead(cuts, [], [], limit)
  {
  }

  lemma OneSessionLeads(before: AppCut, after: AppCut, hidden: set<nat>, calls: seq<Call>, limit: nat, places: seq<Place>, steps: seq<AppStep>)
    requires Leads(Here(before.source, before.disk, hidden, limit), places, steps, calls, Here(after.source, after.disk, hidden, limit), limit)
    ensures SessionLeads(before, after, hidden, calls, limit)
  {
    hide Leads, Here;
  }

  /**
    What is certain of a key over restarts in which some sessions could not read everything: it is
    still in the source or on the disk, or was a record the store never takes, or was passed over.
   */
  predicate HeldAcross(s0: Entries, f0: Contents, s1: Entries, f1: Contents, limit: nat, k: Bytes, passed: bool) {
    && (k in s1 ==> k in s0 && s1[k] == s0[k])
    && (k in f0 ==> k in f1)
    && (k in f1 ==> (k in f0 && f1[k] == f0[k]) || (k in s0 && f1[k] == s0[k]))
    && (k in s0 ==> k in s1 || k in f1 || Unstorable(k, s0[k], limit) || passed)
  }

  /** In some session the key had a value in sight although the whole disk had none: a deletion was out of sight. */
  ghost predicate PassedOver(cuts: seq<AppCut>, hidden: seq<set<nat>>, limit: nat, k: Bytes) {
    exists i :: 0 <= i < |hidden| && i < |cuts| && SeenThoughDeleted(cuts[i].disk, hidden[i], limit, k)
  }

  ghost predicate SeenThoughDeleted(disk: Disk, hidden: set<nat>, limit: nat, k: Bytes) {
    k in Replayed(disk - hidden, limit) && k !in Replayed(disk, limit)
  }

  lemma SessionHolds(before: AppCut, after: AppCut, hidden: set<nat>, calls: seq<Call>, limit: nat, k: Bytes)
    requires SessionLeads(before, after, hidden, calls, limit)
    requires forall j :: 0 <= j < |calls| ==> !Asks(calls[j], k)
    ensures HeldAcross(before.source, Replayed(before.disk, limit), after.source, Replayed(after.disk, limit), limit, k,
                       SeenThoughDeleted(before.disk, hidden, limit, k))
  {
    hide Leads, Replayed, Unstorable, Asks;
    var places, steps :| Leads(Here(before.source, before.disk, hidden, limit), places, steps, calls,
                               Here(after.source, after.disk, hidden, limit), limit);
    UntouchedIsConserved(Here(before.source, before.disk, hidden, limit), places, steps, calls,
                         Here(after.source, after.disk, hidden, limit), limit, k);
  }

  lemma HeldTwice(s0: Entries, f0: Contents, s1: Entries, f1: Contents, s2: Entries, f2: Contents, limit: nat, k: Bytes, p: bool, q: bool)
    requires HeldAcross(s0, f0, s1, f1, limit, k, p) && HeldAcross(s1, f1, s2, f2, limit, k, q)
    ensures HeldAcross(s0, f0, s2, f2, limit, k, p || q)
  {
    hide Unstorable;
  }

  /**
    Over any number of restarts, whatever segments each session could not read: a key that no call
    sets or deletes is never lost from source and disk together, unless the store never takes it or
    a deletion out of sight made a session pass over it.
   */
  lemma {:induction false} HeldOverRestarts(cuts: seq<AppCut>, hidden: seq<set<nat>>, sessions: seq<AppSession>, limit: nat, k: Bytes)
    requires SessionsLead(cuts, hidden, sessions, limit)
    requires forall i, j :: 0 <= i < |sessions| && 0 <= j < |sessions[i].calls| ==> !Asks(sessions[i].calls[j], k)
    ensures var first, last := cuts[0], cuts[|sessions|];
            HeldAcross(first.source, Replayed(first.disk, limit), last.source, Replayed(last.disk, limit), limit, k,
                       PassedOver(cuts, hidden, limit, k))
    decreases |sessions|
  {
    hide Replayed, Unstorable, SessionLeads, SeenThoughDeleted, Asks;
    if sessions == [] {
    } else {
      var n := |sessions| - 1;
      assert SessionsLead(cuts[..n + 1], hidden[..n], sessions[..n], limit);
      HeldOverRestarts(cuts[..n + 1], hidden[..n], sessions[..n], limit, k);
      SessionHolds(cuts[n], cuts[n + 1], hidden[n], sessions[n].calls, limit, k);
      PassedOverLast(cuts, hidden, limit, k, n);
      hide HeldAcross, PassedOver;
      HeldTwice(cuts[0].source, Replayed(cuts[0].disk, limit), cuts[n].source, Replayed(cuts[n].disk, limit),
                cuts[n + 1].source, Replayed(cuts[n + 1].disk, limit), limit, k,
                PassedOver(cuts[..n + 1], hidden[..n], limit, k), SeenThoughDeleted(cuts[n].disk, hidden[n], limit, k));
    }
  }

  lemma PassedOverLast(cuts: seq<AppCut>, hidden: seq<set<nat>>, limit: nat, k: Bytes, n: nat)
    requires |hidden| == n + 1 && |cuts| == n + 2
    ensures PassedOver(cuts, hidden, limit, k) <==>
            PassedOver(cuts[..n + 1], hidden[..n], limit, k) || SeenThoughDeleted(cuts[n].disk, hidden[n], limit, k)
  {
    hide SeenThoughDeleted;
    if i :| 0 <= i < n && SeenThoughDeleted(cuts[..n + 1][i].disk, hidden[..n][i], limit, k) {
      assert SeenThoughDeleted(cuts[i].disk, hidden[i], limit, k);
    }
    if i :| 0 <= i < n && SeenThoughDeleted(cuts[i].disk, hidden[i], limit, k) {
      assert SeenThoughDeleted(cuts[..n + 1][i].disk, hidden[..n][i], limit, k);
    }
  }

  lemma AlsoReads(hidden: seq<set<nat>>, h: set<nat>)
    ensures ReadsEverything(hidden + [h]) <==> ReadsEverything(hidden) && h == {}
  {
    var all := hidden + [h];
    assert all[|hidden|] == h;
    assert forall i :: 0 <= i < |hidden| ==> all[i] == hidden[i];
  }

  lemma NoCalls(sessions: seq<AppSession>)
    ensures sessions == [] ==> AllCalls(sessions) == []
  {
  }

  lemma MoreCalls(sessions: seq<AppSession>, n: nat)
    requires n < |sessions|
    ensures AllCalls(sessions[..n + 1]) == AllCalls(sessions[..n]) + sessions[n].calls
  {
    assert sessions[..n + 1][..n] == sessions[..n];
  }

  /** Over any number of restarts, a key that no call sets or deletes is conserved. */
  lemma UntouchedIsConserved(first: Place, places: seq<Place>, steps: seq<AppStep>, calls: seq<Call>, last: Place, limit: nat, k: Bytes)
    requires Leads(first, places, steps, calls, last, limit)
    requires forall j :: 0 <= j < |calls| ==> !Asks(calls[j], k)
    ensures KeyConserved(first, last, limit, k) && KeyKept(first, last, k)
  {
    hide Follows, KeyConserved, KeyKept;
    assert LeftAlone(steps, k) by {
      forall i | 0 <= i < |steps|
        ensures !Touches(steps[i], k)
      {
        if !steps[i].Migrating? {
          var j :| 0 <= j < |calls| && Asks(calls[j], steps[i].key);
        }
      }
    }
    RunsConserve(places, steps, limit, k);
  }

  /**
    The first read of an app that has been updated. When nothing fails it empties the source and
    answers with the store's own value, or else with the legacy value if the store takes it.
   */
  method FirstRead(storage: MigratingStorage, key: Bytes) returns (value: Option<Bytes>, ghost found: bool)
    requires storage.Valid() && storage.migrator.armed
    modifies storage.store, storage.store.fileAdapter, storage.migrator, storage.migrator.source
    ensures storage.Valid()
    ensures && found && !storage.store.appendsDisabled
            && storage.migrator.source.failures == old(storage.migrator.source.failures)
            && storage.store.fileAdapter.failures == old(storage.store.fileAdapter.failures) ==>
              var source, seen := old(storage.migrator.source.stored), storage.Seen(old(storage.store.fileAdapter.files));
              && storage.migrator.source.stored == map[]
              && value ==
                 if key in seen then Some(seen[key])
                 else if key in source && !Unstorable(key, source[key], storage.store.maxRecordBytes) then Some(source[key])
                 else None
  {
    hide Conserved, Replayed, Consistent, Appendable, Openable, Taken, Unstorable;
    ghost var source, first := storage.migrator.source.stored, storage.store.fileAdapter.files;
    value, found := storage.GetDisk(key);
    if storage.migrator.migrated {
      FinishedMigration(source, storage.Seen(first), storage.store.VisibleMap(), storage.store.maxRecordBytes);
    }
  }

  /**
    Deletes a key, sets another, which arms the migration again, and reads the first one. When the
    deletion did not reach the source and the migration then ended, the key is back exactly when the
    source held it at the deletion in a record the store takes.
   */
  method DeleteSetAndRead(storage: MigratingStorage, key: Bytes, other: Bytes, value: Bytes)
    returns (ok: bool, read: Option<Bytes>, ghost held: Entries, ghost forgotten: bool)
    requires storage.Valid() && key != other
    modifies storage.store, storage.store.fileAdapter, storage.migrator, storage.migrator.source
    ensures storage.Valid()
    ensures var shown, limit := storage.store.VisibleMap(), storage.store.maxRecordBytes;
            && (ok && forgotten ==> key !in shown && read.None?)
            && (ok && !forgotten && storage.migrator.migrated ==>
                  && (key in shown <==> key in held && !Unstorable(key, held[key], limit))
                  && (key in shown ==> shown[key] == held[key])
                  && (read.Some? ==> key in shown && read.value == held[key]))
  {
    hide Conserved, Replayed, Consistent, Appendable, Openable, EncodeLine, Taken, Unstorable;
    ghost var visible, limit := map[], storage.store.maxRecordBytes;
    ghost var d0, f0 := storage.store.fileAdapter.files, storage.store.FullMap();
    ok, visible, held, forgotten := storage.DeleteDisk(key);
    ghost var before := Place(held, visible, storage.Grown(d0, f0, visible));
    ghost var p0 := Place(storage.migrator.source.stored, storage.store.VisibleMap(), storage.store.FullMap());
    ghost var d1, f1 := storage.store.fileAdapter.files, storage.store.FullMap();
    var found, result;
    ghost var middle;
    found, result, middle := storage.SetDisk(other, value);
    ghost var p1 := Place(storage.migrator.source.stored, middle, storage.Grown(d1, f1, middle));
    ghost var p2 := Place(storage.migrator.source.stored, storage.store.VisibleMap(), storage.store.FullMap());
    ghost var present;
    read, present := storage.GetDisk(key);
    ghost var p3 := Place(storage.migrator.source.stored, storage.store.VisibleMap(), storage.store.FullMap());
    if ok {
      ThreeSteps(before, forgotten, key, p0, p1, p2, p3, other, value, found && result.Stored?, limit);
    }
  }

  lemma ThreeSteps(before: Place, forgotten: bool, key: Bytes, p0: Place, p1: Place, p2: Place, p3: Place, other: Bytes, value: Bytes,
                   stored: bool, limit: nat)
    requires Follows(before, Deleting(key, forgotten), p0, limit) && Follows(p0, Migrating, p1, limit) && key != other
    requires if stored then Follows(p1, Setting(other, value), p2, limit) else p2 == p1
    requires Follows(p2, Migrating, p3, limit)
    ensures forgotten ==> key !in p3.visible
    ensures !forgotten && key !in p3.source ==>
              && (key in p3.visible <==> key in before.source && !Unstorable(key, before.source[key], limit))
              && (key in p3.visible ==> p3.visible[key] == before.source[key])
  {
    hide Unstorable, Conserved;
    var places := if stored then [p0, p1, p2, p3] else [p0, p1, p3];
    var steps := if stored then [Migrating, Setting(other, value), Migrating] else [Migrating, Migrating];
    assert AppRun(places, steps, limit) && LeftAlone(steps, key);
    if forgotten {
      DeletedStaysDeleted(before, key, places, steps, limit);
    } else if key !in p3.source {
      DeletionComesBackIff(before, key, places, steps, limit);
    }
  }
}
