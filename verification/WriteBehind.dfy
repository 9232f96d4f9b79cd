/**
  The write-behind queue of the analytics storage (src/native/storage.ts): writes wait in memory and
  are flushed to disk in batches, by a timer or on request. Callers always see the disk overlaid
  with what waits.
 */
module WriteBehind {
  import opened Wrappers

  const PERSIST_FLUSH_DEBOUNCE_MILLIS: nat := 200
  const PERSIST_FLUSH_RETRY_BASE_MILLIS: nat := 200
  const PERSIST_FLUSH_RETRY_MAX_MILLIS: nat := 5000

  datatype PendingDiskWrite = PendingDiskWrite(value: string, generation: nat)

  /** What the storage may call back into while a batch is being written. */
  datatype Reentrant = Sets(key: string, value: string) | Flushes

  function Item(items: map<string, string>, k: string): Option<string> {
    if k in items then Some(items[k]) else None
  }

  /** The disk overlaid with the waiting writes. */
  function Overlay(disk: map<string, string>, pending: map<string, PendingDiskWrite>): map<string, string> {
    disk + (map k | k in pending :: pending[k].value)
  }

  lemma OverlayNothing(disk: map<string, string>, pending: map<string, PendingDiskWrite>)
    requires pending == map[]
    ensures Overlay(disk, pending) == disk
  {
  }

  function PowerOfTwo(n: nat): (p: nat)
    ensures p >= 1
  {
    if n == 0 then 1 else 2 * PowerOfTwo(n - 1)
  }

  function RetryDelay(attempt: nat): nat {
    var delay := PERSIST_FLUSH_RETRY_BASE_MILLIS * PowerOfTwo(attempt);
    if delay < PERSIST_FLUSH_RETRY_MAX_MILLIS then delay else PERSIST_FLUSH_RETRY_MAX_MILLIS
  }

  /** Retries back off, but never beyond five seconds. */
  lemma RetryDelayBacksOff(attempt: nat)
    ensures PERSIST_FLUSH_RETRY_BASE_MILLIS <= RetryDelay(attempt) <= RetryDelay(attempt + 1) <= PERSIST_FLUSH_RETRY_MAX_MILLIS
    ensures RetryDelay(attempt) < PERSIST_FLUSH_RETRY_MAX_MILLIS ==> RetryDelay(attempt) < RetryDelay(attempt + 1)
  {
    assert PowerOfTwo(attempt + 1) == 2 * PowerOfTwo(attempt);
  }

  /** The delays in milliseconds. */
  lemma RetryDelaysAre(attempt: nat)
    ensures RetryDelay(0) == 200 && RetryDelay(1) == 400 && RetryDelay(2) == 800 && RetryDelay(3) == 1600 && RetryDelay(4) == 3200
    ensures attempt >= 5 ==> RetryDelay(attempt) == 5000
  {
    assert PowerOfTwo(1) == 2 && PowerOfTwo(2) == 4 && PowerOfTwo(3) == 8 && PowerOfTwo(4) == 16 && PowerOfTwo(5) == 32;
    if attempt >= 5 {
      PowersGrow(5, attempt);
    }
  }

  lemma {:induction false} PowersGrow(m: nat, n: nat)
    requires m <= n
    ensures PowerOfTwo(m) <= PowerOfTwo(n)
    decreases n - m
  {
    if m < n {
      PowersGrow(m + 1, n);
    }
  }

  type Write = (string, PendingDiskWrite)

  function WrittenValues(writes: seq<Write>): map<string, string> {
    if writes == [] then map[] else WrittenValues(writes[..|writes| - 1])[writes[|writes| - 1].0 := writes[|writes| - 1].1.value]
  }

  /** Every write is the entry of its key. */
  predicate EntriesOf(writes: seq<Write>, pending: map<string, PendingDiskWrite>) {
    forall i :: 0 <= i < |writes| ==> writes[i].0 in pending && pending[writes[i].0] == writes[i].1
  }

  lemma {:induction false} WrittenFrom(writes: seq<Write>, pending: map<string, PendingDiskWrite>)
    requires EntriesOf(writes, pending)
    ensures forall k :: k in WrittenValues(writes) ==> k in pending && pending[k].value == WrittenValues(writes)[k]
    ensures forall i :: 0 <= i < |writes| ==> writes[i].0 in WrittenValues(writes)
    decreases |writes|
  {
    if writes != [] {
      WrittenFrom(writes[..|writes| - 1], pending);
    }
  }

  /** Writing any of the waiting values to disk changes nothing for callers. */
  lemma WritingIsInvisible(disk: map<string, string>, pending: map<string, PendingDiskWrite>, writes: seq<Write>)
    requires EntriesOf(writes, pending)
    ensures Overlay(disk + WrittenValues(writes), pending) == Overlay(disk, pending)
  {
    WrittenFrom(writes, pending);
    hide WrittenValues;
  }

  /** What the re-entrant sets do to what callers see. */
  function Applied(view: map<string, string>, ops: seq<Reentrant>): map<string, string> {
    if ops == [] then view
    else
      var earlier := Applied(view, ops[..|ops| - 1]);
      match ops[|ops| - 1]
      case Sets(k, v) => earlier[k := v]
      case Flushes => earlier
  }

  lemma AppliedSnoc(view: map<string, string>, ops: seq<Reentrant>, op: Reentrant)
    ensures Applied(view, ops + [op]) ==
            match op
            case Sets(k, v) => Applied(view, ops)[k := v]
            case Flushes => Applied(view, ops)
  {
    assert (ops + [op])[..|ops|] == ops;
  }

  lemma {:induction false} AppliedConcat(view: map<string, string>, ops: seq<Reentrant>, more: seq<Reentrant>)
    ensures Applied(view, ops + more) == Applied(Applied(view, ops), more)
    decreases |more|
  {
    if more == [] {
      assert ops + more == ops;
    } else {
      var n := |more| - 1;
      AppliedConcat(view, ops, more[..n]);
      assert (ops + more)[..|ops + more| - 1] == ops + more[..n];
    }
  }

  /** The disk behind the queue; a batch that throws may have written any prefix. */
  class AmplitudeStorage {
    var disk: map<string, string>

    /** How many calls have thrown, or found no storage to call. */
    ghost var failures: nat

    constructor (disk: map<string, string>)
      ensures this.disk == disk
    {
      this.disk := disk;
      failures := 0;
    }

    /** The native storage may be missing. */
    method Available() returns (ok: bool)
      modifies this`failures
      ensures failures == if ok then old(failures) else old(failures) + 1
    {
      ok := *;
      if !ok {
        failures := failures + 1;
      }
    }

    method SetBatch(writes: seq<Write>) returns (ok: bool, ghost written: nat)
      modifies this
      ensures written <= |writes| && (ok ==> written == |writes|)
      ensures disk == old(disk) + WrittenValues(writes[..written])
      ensures failures == if ok then old(failures) else old(failures) + 1
    {
      written := 0;
      ok := *;
      assert disk + WrittenValues(writes[..0]) == disk;
      for i := 0 to |writes|
        invariant written == i && disk == old(disk) + WrittenValues(writes[..i]) && failures == old(failures)
      {
        var fails: bool := *;
        if fails {
          failures := failures + 1;
          return false, written;
        }
        assert writes[..i + 1][..i] == writes[..i];
        disk := disk[writes[i].0 := writes[i].1.value];
        written := i + 1;
      }
      return true, written;
    }

    method Remove(key: string) returns (ok: bool)
      modifies this
      ensures disk == if ok then old(disk) - {key} else old(disk)
      ensures failures == if ok then old(failures) else old(failures) + 1
    {
      ok := *;
      if !ok {
        failures := failures + 1;
      } else {
        disk := disk - {key};
      }
    }

    method GetKeysByPrefix(prefix: string) returns (keys: Option<set<string>>)
      modifies this`failures
      ensures keys.Some? ==> keys.value == set k | k in disk && prefix <= k
      ensures failures == if keys.Some? then old(failures) else old(failures) + 1
    {
      var ok := Available();
      return if ok then Some(set k | k in disk && prefix <= k) else None;
    }

    /** A batch of removals that throws may have removed any of the keys. */
    method RemoveBatch(keys: set<string>) returns (ok: bool, ghost removed: set<string>)
      modifies this
      ensures removed <= keys && (ok ==> removed == keys) && disk == old(disk) - removed
      ensures failures == if ok then old(failures) else old(failures) + 1
    {
      var todo := keys;
      removed := {};
      while todo != {}
        invariant todo <= keys && removed == keys - todo && disk == old(disk) - removed && failures == old(failures)
        decreases |todo|
      {
        var key :| key in todo;
        ok := Remove(key);
        if !ok {
          return;
        }
        todo := todo - {key};
        removed := removed + {key};
      }
      ok := true;
    }
  }

  class DiskWriteQueue {
    const storage: AmplitudeStorage
    var pendingDiskWrites: map<string, PendingDiskWrite>
    var nextDiskWriteGeneration: nat
    var flushTimer: Option<nat>  // the delay it was armed with
    var flushRetryAttempt: nat
    var flushInProgress: bool

    /** What callers see. */
    ghost function Seen(): map<string, string>
      reads this, storage
    {
      Overlay(storage.disk, pendingDiskWrites)
    }

    ghost predicate GenerationsCounted()
      reads this
    {
      forall k :: k in pendingDiskWrites ==> pendingDiskWrites[k].generation <= nextDiskWriteGeneration
    }

    /** No write is stranded: while one waits, a flush is running or a timer is armed. */
    ghost predicate Valid()
      reads this
    {
      && GenerationsCounted()
      && (pendingDiskWrites != map[] && !flushInProgress ==> flushTimer.Some?)
    }

    constructor (storage: AmplitudeStorage)
      ensures Valid() && !flushInProgress && this.storage == storage && Seen() == storage.disk
    {
      this.storage := storage;
      pendingDiskWrites, nextDiskWriteGeneration := map[], 0;
      flushTimer, flushRetryAttempt, flushInProgress := None, 0, false;
      new;
      assert pendingDiskWrites == map[];
      OverlayNothing(storage.disk, pendingDiskWrites);
      assert Seen() == storage.disk;
    }

    method ScheduleFlushTimer(delayMillis: nat)
      modifies this`flushTimer
      ensures flushTimer == if old(flushTimer).Some? then old(flushTimer) else Some(delayMillis)
    {
      if flushTimer.None? {
        flushTimer := Some(delayMillis);
      }
    }

    method ScheduleDiskWriteRetry()
      modifies this`flushTimer, this`flushRetryAttempt
      ensures flushTimer == if old(flushTimer).Some? then old(flushTimer) else Some(RetryDelay(old(flushRetryAttempt)))
      ensures flushRetryAttempt == old(flushRetryAttempt) + 1
    {
      var delayMillis := RetryDelay(flushRetryAttempt);
      flushRetryAttempt := flushRetryAttempt + 1;
      ScheduleFlushTimer(delayMillis);
    }

    /** A set only changes memory, and at once what callers see. */
    method ScheduleDiskWrite(fullKey: string, value: string)
      requires Valid()
      modifies this`pendingDiskWrites, this`nextDiskWriteGeneration, this`flushTimer
      ensures Valid() && flushTimer.Some? && Seen() == old(Seen())[fullKey := value]
      ensures pendingDiskWrites == old(pendingDiskWrites)[fullKey := PendingDiskWrite(value, nextDiskWriteGeneration)]
      ensures nextDiskWriteGeneration == old(nextDiskWriteGeneration) + 1
      ensures flushTimer == if old(flushTimer).Some? then old(flushTimer) else Some(200)
    {
      hide Overlay;
      nextDiskWriteGeneration := nextDiskWriteGeneration + 1;
      pendingDiskWrites := pendingDiskWrites[fullKey := PendingDiskWrite(value, nextDiskWriteGeneration)];
      ScheduleFlushTimer(PERSIST_FLUSH_DEBOUNCE_MILLIS);
      OverlaySet(storage.disk, old(pendingDiskWrites), fullKey, PendingDiskWrite(value, nextDiskWriteGeneration));
    }

    /** The waiting writes as a list, in some order. */
    method Entries() returns (writes: seq<Write>)
      ensures EntriesOf(writes, pendingDiskWrites)
      ensures forall k :: k in pendingDiskWrites ==> exists i :: 0 <= i < |writes| && writes[i].0 == k
    {
      writes := [];
      var keys := pendingDiskWrites.Keys;
      while keys != {}
        invariant keys <= pendingDiskWrites.Keys && EntriesOf(writes, pendingDiskWrites)
        invariant forall k :: k in pendingDiskWrites && k !in keys ==> exists i :: 0 <= i < |writes| && writes[i].0 == k
        decreases |keys|
      {
        var key :| key in keys;
        ghost var before := writes;
        writes := writes + [(key, pendingDiskWrites[key])];
        keys := keys - {key};
        forall k | k in pendingDiskWrites && k !in keys
          ensures exists i :: 0 <= i < |writes| && writes[i].0 == k
        {
          if k != key {
            var i :| 0 <= i < |before| && before[i].0 == k;
            assert writes[i].0 == k;
          } else {
            assert writes[|before|].0 == k;
          }
        }
      }
    }

    /** What the storage calls back into while it writes a batch. */
    method RunReentrant(ops: seq<Reentrant>)
      requires Valid() && flushInProgress && pendingDiskWrites != map[]
      modifies this`pendingDiskWrites, this`nextDiskWriteGeneration, this`flushTimer
      ensures Valid() && Seen() == Applied(old(Seen()), ops)
      ensures OnlyNewer(old(pendingDiskWrites), pendingDiskWrites, old(nextDiskWriteGeneration))
      ensures nextDiskWriteGeneration >= old(nextDiskWriteGeneration)
      ensures (forall i :: 0 <= i < |ops| ==> ops[i].Flushes?) ==> pendingDiskWrites == old(pendingDiskWrites)
      ensures flushTimer == old(flushTimer) || flushTimer == None || flushTimer == Some(200)
    {
      hide Overlay, Applied, OnlyNewer;
      ghost var before, generation, seen := pendingDiskWrites, nextDiskWriteGeneration, Seen();
      AppliedNothing(seen);
      OnlyNewerSelf(before, generation);
      for i := 0 to |ops|
        invariant Valid() && flushInProgress && pendingDiskWrites != map[]
        invariant Seen() == Applied(seen, ops[..i])
        invariant OnlyNewer(before, pendingDiskWrites, generation) && nextDiskWriteGeneration >= generation
        invariant (forall j :: 0 <= j < i ==> ops[j].Flushes?) ==> pendingDiskWrites == before
        invariant flushTimer == old(flushTimer) || flushTimer == None || flushTimer == Some(200)
      {
        AppliedSnoc(seen, ops[..i], ops[i]);
        assert ops[..i + 1] == ops[..i] + [ops[i]];
        match ops[i] {
          case Sets(key, value) =>
            OnlyNewerSet(before, pendingDiskWrites, generation, key, PendingDiskWrite(value, nextDiskWriteGeneration + 1));
            ScheduleDiskWrite(key, value);
          case Flushes => flushTimer := None;  // the inner flush sees the one in progress and leaves
        }
      }
      assert ops[..|ops|] == ops;
    }

    /** After a batch, drops the entries it wrote, unless they have been replaced meanwhile. */
    method DropWritten(writes: seq<Write>)
      requires GenerationsCounted()
      modifies this`pendingDiskWrites
      ensures GenerationsCounted()
      ensures forall k :: k in pendingDiskWrites ==> k in old(pendingDiskWrites) && pendingDiskWrites[k] == old(pendingDiskWrites)[k]
      ensures forall k :: k in old(pendingDiskWrites) ==> (k in pendingDiskWrites <==> !Wrote(writes, k, old(pendingDiskWrites)[k].generation))
    {
      ghost var before := pendingDiskWrites;
      for i := 0 to |writes|
        invariant GenerationsCounted()
        invariant forall k :: k in pendingDiskWrites ==> k in before && pendingDiskWrites[k] == before[k]
        invariant forall k :: k in before ==> (k in pendingDiskWrites <==> !Wrote(writes[..i], k, before[k].generation))
      {
        var (key, written) := writes[i];
        WroteSnoc(writes[..i], writes[i]);
        assert writes[..i + 1] == writes[..i] + [writes[i]];
        if key in pendingDiskWrites && pendingDiskWrites[key].generation == written.generation {
          pendingDiskWrites := pendingDiskWrites - {key};
        }
      }
      assert writes[..|writes|] == writes;
    }

    /** One batch of everything that waits. Fails when the storage is missing or the batch throws. */
    method WriteRound(round: seq<Reentrant>) returns (ok: bool, ghost applied: seq<Reentrant>)
      requires Valid() && flushInProgress && pendingDiskWrites != map[]
      modifies this`pendingDiskWrites, this`nextDiskWriteGeneration, this`flushTimer, storage
      ensures Valid() && Seen() == Applied(old(Seen()), applied)
      ensures ok && (forall i :: 0 <= i < |round| ==> round[i].Flushes?) ==> pendingDiskWrites == map[]
      ensures if ok then storage.failures == old(storage.failures) else storage.failures == old(storage.failures) + 1
      ensures !ok ==> pendingDiskWrites != map[]
      ensures flushTimer == old(flushTimer) || flushTimer == None || flushTimer == Some(200)
    {
      hide Overlay, Applied, WrittenValues, Wrote;
      applied := [];
      AppliedNothing(Seen());
      var writes := Entries();
      var reached := storage.Available();
      if !reached {
        return false, applied;
      }
      ghost var disk, waiting, generation := storage.disk, pendingDiskWrites, nextDiskWriteGeneration;
      ghost var written;
      ok, written := storage.SetBatch(writes);
      WritingIsInvisible(disk, waiting, writes[..written]);
      applied := round;
      RunReentrant(round);
      if ok {
        assert writes[..written] == writes;
        ghost var replaced := pendingDiskWrites;
        DropWritten(writes);
        WrittenCanBeDropped(disk, waiting, replaced, pendingDiskWrites, writes, generation);
      }
    }

    /** Flushes until nothing waits, or until a batch fails; then a retry is scheduled. */
    method FlushPendingDiskWritesInternal(script: seq<seq<Reentrant>>) returns (ok: bool, ghost applied: seq<Reentrant>)
      requires GenerationsCounted()
      modifies this, storage
      ensures Valid() && flushInProgress == old(flushInProgress) && Seen() == Applied(old(Seen()), applied)
      ensures ok && !flushInProgress ==> pendingDiskWrites == map[] && storage.disk == Seen() && flushRetryAttempt == 0
      ensures !ok ==> !flushInProgress && pendingDiskWrites != map[]
      ensures !ok ==> flushRetryAttempt == old(flushRetryAttempt) + 1
                      && (flushTimer == Some(200) || flushTimer == Some(RetryDelay(old(flushRetryAttempt))))
      ensures storage.failures == if ok then old(storage.failures) else old(storage.failures) + 1
      ensures old(flushInProgress) ==> pendingDiskWrites == old(pendingDiskWrites) && storage.disk == old(storage.disk)
    {
      hide Overlay, Applied;
      applied := [];
      AppliedNothing(Seen());
      ok := true;
      flushTimer := None;
      if pendingDiskWrites == map[] {
        flushRetryAttempt := 0;
        OverlayNothing(storage.disk, pendingDiskWrites);
        return;
      }
      if flushInProgress {
        return;
      }
      ghost var seen := Seen();
      flushInProgress := true;
      var i := 0;
      while ok && pendingDiskWrites != map[]
        invariant Valid() && flushInProgress && Seen() == Applied(seen, applied)
        invariant i <= |script| + 1 && (i == |script| + 1 && ok ==> pendingDiskWrites == map[])
        invariant !ok ==> pendingDiskWrites != map[]
        invariant flushRetryAttempt == old(flushRetryAttempt) && (flushTimer == None || flushTimer == Some(200))
        invariant storage.failures == if ok then old(storage.failures) else old(storage.failures) + 1
        decreases ok, |script| + 1 - i
      {
        var round := if i < |script| then script[i] else [];
        ghost var more;
        ok, more := WriteRound(round);
        AppliedConcat(seen, applied, more);
        applied := applied + more;
        i := i + 1;
      }
      if ok {
        flushRetryAttempt := 0;
        OverlayNothing(storage.disk, pendingDiskWrites);
      } else {
        ScheduleDiskWriteRetry();
      }
      flushInProgress := false;
    }

    /** The timer goes off; a failure is reported and otherwise ignored. */
    method TimerFires(script: seq<seq<Reentrant>>) returns (ghost applied: seq<Reentrant>)
      requires Valid() && flushTimer.Some?
      modifies this, storage
      ensures Valid() && flushInProgress == old(flushInProgress) && Seen() == Applied(old(Seen()), applied)
      ensures flushInProgress || pendingDiskWrites == map[] || storage.failures > old(storage.failures)
    {
      flushTimer := None;
      var ok;
      ok, applied := FlushPendingDiskWritesInternal(script);
    }

    // -------------------------------------------------------- the public calls

    /** The waiting value, or else what is on disk. */
    method GetRaw(fullKey: string) returns (value: Option<string>)
      modifies storage`failures
      ensures value == Item(Seen(), fullKey)
              || (fullKey !in pendingDiskWrites && value == None && storage.failures > old(storage.failures))
    {
      if fullKey in pendingDiskWrites {
        return Some(pendingDiskWrites[fullKey].value);
      }
      var reached := storage.Available();
      return if reached then Item(storage.disk, fullKey) else None;
    }

    /** Stops waiting for a key. */
    method DiscardPendingDiskWrite(fullKey: string)
      requires Valid()
      modifies this`pendingDiskWrites, this`flushTimer, this`flushRetryAttempt
      ensures Valid() && pendingDiskWrites == old(pendingDiskWrites) - {fullKey}
      ensures pendingDiskWrites == map[] ==> flushTimer == None && flushRetryAttempt == 0
    {
      pendingDiskWrites := pendingDiskWrites - {fullKey};
      if pendingDiskWrites == map[] {
        flushTimer := None;
        flushRetryAttempt := 0;
      }
    }

    method DropByPrefix(prefix: string)
      modifies this`pendingDiskWrites
      ensures pendingDiskWrites == old(pendingDiskWrites) - WithPrefix(old(pendingDiskWrites).Keys, prefix)
    {
      ghost var start := pendingDiskWrites;
      ghost var gone: set<string> := {};
      var keys := pendingDiskWrites.Keys;
      while keys != {}
        invariant keys <= start.Keys && gone == WithPrefix(start.Keys, prefix) - keys
        invariant pendingDiskWrites == start - gone
        decreases |keys|
      {
        var key :| key in keys;
        if prefix <= key {
          pendingDiskWrites := pendingDiskWrites - {key};
          gone := gone + {key};
        }
        keys := keys - {key};
      }
    }

    method DiscardPendingDiskWritesByPrefix(prefix: string)
      requires Valid()
      modifies this`pendingDiskWrites, this`flushTimer, this`flushRetryAttempt
      ensures Valid() && pendingDiskWrites == old(pendingDiskWrites) - WithPrefix(old(pendingDiskWrites).Keys, prefix)
      ensures pendingDiskWrites == map[] ==> flushTimer == None && flushRetryAttempt == 0
    {
      DropByPrefix(prefix);
      assert old(pendingDiskWrites) == map[] ==> pendingDiskWrites == map[];
      if pendingDiskWrites == map[] {
        flushTimer := None;
        flushRetryAttempt := 0;
      }
    }

    /**
      Removes a key. When the storage fails, the waiting write is gone all the same and callers see
      what the disk still has.
     */
    method Remove(fullKey: string) returns (ok: bool)
      requires Valid()
      modifies this, storage
      ensures Valid() && flushInProgress == old(flushInProgress)
      ensures Seen() == if ok then old(Seen()) - {fullKey} else AfterFailedRemove(old(storage.disk), old(Seen()), fullKey)
      ensures ok ==> fullKey !in storage.disk && fullKey !in pendingDiskWrites
      ensures !ok ==> storage.failures > old(storage.failures)
    {
      ghost var disk, waiting := storage.disk, pendingDiskWrites;
      DiscardPendingDiskWrite(fullKey);
      ok := storage.Available();
      if ok {
        ok := storage.Remove(fullKey);
      }
      RemoveSeen(disk, waiting, fullKey, ok);
    }

    /** Removes every key of a namespace; the durable keys that are left when a call fails stay visible. */
    method Reset(prefix: string) returns (ok: bool, ghost removed: set<string>)
      requires Valid()
      modifies this, storage
      ensures Valid() && flushInProgress == old(flushInProgress)
      ensures ok ==> Seen() == old(Seen()) - WithPrefix(old(Seen()).Keys, prefix)
      ensures !ok ==> Seen() == AfterFailedReset(old(storage.disk), old(Seen()), prefix) - removed
      ensures !ok ==> removed <= WithPrefix(old(storage.disk).Keys, prefix) && storage.disk == old(storage.disk) - removed
      ensures !ok ==> storage.failures > old(storage.failures)
    {
      ghost var disk, waiting := storage.disk, pendingDiskWrites;
      removed := {};
      DiscardPendingDiskWritesByPrefix(prefix);
      ok := storage.Available();
      if ok {
        var keys := storage.GetKeysByPrefix(prefix);
        ok := keys.Some?;
        if keys.Some? && keys.value != {} {
          ok, removed := storage.RemoveBatch(keys.value);
        }
      }
      if ok {
        ResetSeen(disk, waiting, prefix, storage.disk);
      } else {
        FailedResetSeen(disk, waiting, prefix, removed, storage.disk);
      }
    }
  }

  function WithPrefix(keys: set<string>, prefix: string): set<string> {
    set k | k in keys && prefix <= k
  }

  /** A failed removal shows what the disk has under the key. */
  function AfterFailedRemove(disk: map<string, string>, seen: map<string, string>, k: string): map<string, string> {
    if k in disk then seen[k := disk[k]] else seen - {k}
  }

  function AfterFailedReset(disk: map<string, string>, seen: map<string, string>, prefix: string): map<string, string> {
    map k | k in seen && (prefix <= k ==> k in disk) :: if prefix <= k then disk[k] else seen[k]
  }

  lemma RemoveSeen(disk: map<string, string>, pending: map<string, PendingDiskWrite>, k: string, ok: bool)
    ensures ok ==> Overlay(disk - {k}, pending - {k}) == Overlay(disk, pending) - {k}
    ensures !ok ==> Overlay(disk, pending - {k}) == AfterFailedRemove(disk, Overlay(disk, pending), k)
  {
  }

  lemma ResetSeen(disk: map<string, string>, pending: map<string, PendingDiskWrite>, prefix: string, after: map<string, string>)
    requires after == disk - WithPrefix(disk.Keys, prefix)
    ensures var seen := Overlay(disk, pending);
            Overlay(after, pending - WithPrefix(pending.Keys, prefix)) == seen - WithPrefix(seen.Keys, prefix)
  {
  }

  lemma FailedResetSeen(disk: map<string, string>, pending: map<string, PendingDiskWrite>, prefix: string, removed: set<string>, after: map<string, string>)
    requires after == disk - removed && forall k :: k in removed ==> prefix <= k
    ensures Overlay(after, pending - WithPrefix(pending.Keys, prefix)) ==
            AfterFailedReset(disk, Overlay(disk, pending), prefix) - removed
  {
    var left := Overlay(after, pending - WithPrefix(pending.Keys, prefix));
    var right := AfterFailedReset(disk, Overlay(disk, pending), prefix) - removed;
    forall k
      ensures Item(left, k) == Item(right, k)
    {
      OverlaidItem(after, pending - WithPrefix(pending.Keys, prefix), k);
      OverlaidItem(disk, pending, k);
      hide Overlay;
    }
    hide Overlay, AfterFailedReset, WithPrefix;
    SameItems(left, right);
  }

  lemma OverlaySet(disk: map<string, string>, pending: map<string, PendingDiskWrite>, k: string, write: PendingDiskWrite)
    ensures Overlay(disk, pending[k := write]) == Overlay(disk, pending)[k := write.value]
  {
  }

  lemma OverlaidItem(disk: map<string, string>, pending: map<string, PendingDiskWrite>, k: string)
    ensures Item(Overlay(disk, pending), k) == if k in pending then Some(pending[k].value) else Item(disk, k)
  {
  }

  lemma SameItems(a: map<string, string>, b: map<string, string>)
    requires forall k :: Item(a, k) == Item(b, k)
    ensures a == b
  {
    forall k
      ensures k in a <==> k in b
      ensures k in a ==> a[k] == b[k]
    {
      assert Item(a, k) == Item(b, k);
    }
  }

  /**
    A failed removal leaves what callers see exactly when no write of the key was waiting, or the one
    that was waiting is on disk already. Otherwise an older value comes back, or none.
   */
  lemma FailedRemoveChangesNothingIff(disk: map<string, string>, pending: map<string, PendingDiskWrite>, k: string)
    ensures var seen := Overlay(disk, pending);
            AfterFailedRemove(disk, seen, k) == seen <==> k !in pending || Item(disk, k) == Some(pending[k].value)
  {
    var seen := Overlay(disk, pending);
    if k in pending {
      assert k in seen && seen[k] == pending[k].value;
    }
  }

  /**
    A failed reset leaves what callers see exactly when it removed nothing and every write that was
    waiting under the prefix is on disk already.
   */
  lemma FailedResetChangesNothingIff(disk: map<string, string>, pending: map<string, PendingDiskWrite>, prefix: string, removed: set<string>)
    requires removed <= WithPrefix(disk.Keys, prefix)
    ensures var seen := Overlay(disk, pending);
            AfterFailedReset(disk, seen, prefix) - removed == seen <==>
              removed == {} && forall k :: k in pending && prefix <= k ==> Item(disk, k) == Some(pending[k].value)
  {
    var seen := Overlay(disk, pending);
    var after := AfterFailedReset(disk, seen, prefix) - removed;
    if removed != {} {
      var k :| k in removed;
      assert k in seen && k !in after;
    } else if k :| k in pending && prefix <= k && Item(disk, k) != Some(pending[k].value) {
      assert k in seen && seen[k] == pending[k].value;
      assert Item(after, k) != Item(seen, k);
    } else {
      forall k
        ensures Item(after, k) == Item(seen, k)
      {
        OverlaidItem(disk, pending, k);
      }
      SameItems(after, seen);
    }
  }

  /** Inputs on which the calls fail their callers: the older value is back, although nothing was removed. */
  lemma OlderValueIsBack(k: string, older: string, newer: string, generation: nat)
    requires older != newer
    ensures var disk, pending := map[k := older], map[k := PendingDiskWrite(newer, generation)];
            var seen := Overlay(disk, pending);
            && seen == map[k := newer]
            && AfterFailedRemove(disk, seen, k) == map[k := older]
            && AfterFailedReset(disk, seen, k) - {} == map[k := older]
  {
    var disk, pending := map[k := older], map[k := PendingDiskWrite(newer, generation)];
    assert Overlay(disk, pending) == map[k := newer];
    assert AfterFailedReset(disk, map[k := newer], k) == map[k := older];
    assert map[k := older] - {} == map[k := older];
  }

  lemma AppliedNothing(seen: map<string, string>)
    ensures Applied(seen, []) == seen
  {
  }

  /** Dropping entries whose value is on disk changes nothing for callers. */
  lemma DroppedAreOnDisk(waiting: map<string, PendingDiskWrite>, replaced: map<string, PendingDiskWrite>,
                         writes: seq<Write>, generation: nat, k: string)
    requires EntriesOf(writes, waiting) && OnlyNewer(waiting, replaced, generation)
    requires forall j :: j in waiting ==> waiting[j].generation <= generation
    requires k in replaced && Wrote(writes, k, replaced[k].generation)
    ensures k in WrittenValues(writes) && WrittenValues(writes)[k] == replaced[k].value
  {
    WrittenFrom(writes, waiting);
    hide WrittenValues;
    var i :| 0 <= i < |writes| && writes[i].0 == k && writes[i].1.generation == replaced[k].generation;
    assert k in waiting && waiting[k] == writes[i].1;
  }

  lemma OverlayDropped(disk: map<string, string>, replaced: map<string, PendingDiskWrite>, left: map<string, PendingDiskWrite>)
    requires forall k :: k in left ==> k in replaced && left[k] == replaced[k]
    requires forall k :: k in replaced && k !in left ==> k in disk && disk[k] == replaced[k].value
    ensures Overlay(disk, left) == Overlay(disk, replaced)
  {
  }

  lemma WrittenCanBeDropped(disk: map<string, string>, waiting: map<string, PendingDiskWrite>, replaced: map<string, PendingDiskWrite>,
                            left: map<string, PendingDiskWrite>, writes: seq<Write>, generation: nat)
    requires EntriesOf(writes, waiting) && OnlyNewer(waiting, replaced, generation)
    requires forall k :: k in waiting ==> waiting[k].generation <= generation
    requires forall k :: k in waiting ==> exists i :: 0 <= i < |writes| && writes[i].0 == k
    requires forall k :: k in left ==> k in replaced && left[k] == replaced[k]
    requires forall k :: k in replaced ==> (k in left <==> !Wrote(writes, k, replaced[k].generation))
    ensures Overlay(disk + WrittenValues(writes), left) == Overlay(disk + WrittenValues(writes), replaced)
    ensures replaced == waiting ==> left == map[]
  {
    hide WrittenValues, Wrote, OnlyNewer, Overlay;
    forall k | k in replaced && k !in left
      ensures k in WrittenValues(writes) && WrittenValues(writes)[k] == replaced[k].value
    {
      DroppedAreOnDisk(waiting, replaced, writes, generation, k);
    }
    OverlayDropped(disk + WrittenValues(writes), replaced, left);
    if replaced == waiting {
      EverythingWritten(waiting, left, writes);
    }
  }

  lemma EverythingWritten(waiting: map<string, PendingDiskWrite>, left: map<string, PendingDiskWrite>, writes: seq<Write>)
    requires EntriesOf(writes, waiting)
    requires forall k :: k in waiting ==> exists i :: 0 <= i < |writes| && writes[i].0 == k
    requires forall k :: k in left ==> k in waiting
    requires forall k :: k in waiting ==> (k in left <==> !Wrote(writes, k, waiting[k].generation))
    ensures left == map[]
  {
    forall k | k in waiting
      ensures Wrote(writes, k, waiting[k].generation)
    {
      var i :| 0 <= i < |writes| && writes[i].0 == k;
      assert writes[i].1 == waiting[k];
    }
  }

  /** The batch wrote this generation of the key. */
  predicate Wrote(writes: seq<Write>, k: string, generation: nat) {
    exists i :: 0 <= i < |writes| && writes[i].0 == k && writes[i].1.generation == generation
  }

  lemma WroteSnoc(writes: seq<Write>, w: Write)
    ensures forall k, g :: Wrote(writes + [w], k, g) <==> Wrote(writes, k, g) || (w.0 == k && w.1.generation == g)
  {
    forall k, g
      ensures Wrote(writes + [w], k, g) <==> Wrote(writes, k, g) || (w.0 == k && w.1.generation == g)
    {
      var all := writes + [w];
      if i :| 0 <= i < |writes| && writes[i].0 == k && writes[i].1.generation == g {
        assert all[i] == writes[i];
      }
      assert all[|writes|] == w;
    }
  }

  /** Entries stay or are replaced by entries of a later generation. */
  predicate OnlyNewer(before: map<string, PendingDiskWrite>, after: map<string, PendingDiskWrite>, generation: nat) {
    && (forall k :: k in before ==> k in after)
    && (forall k :: k in after ==> (k in before && after[k] == before[k]) || after[k].generation > generation)
  }

  lemma OnlyNewerSelf(before: map<string, PendingDiskWrite>, generation: nat)
    ensures OnlyNewer(before, before, generation)
  {
  }

  lemma OnlyNewerSet(before: map<string, PendingDiskWrite>, after: map<string, PendingDiskWrite>, generation: nat, k: string, write: PendingDiskWrite)
    requires OnlyNewer(before, after, generation) && write.generation > generation
    ensures OnlyNewer(before, after[k := write], generation)
  {
  }
}
