/**
  The methods of BrowserStringStorage (src/native/browser-string-storage.ts), proved against the
  reference in BrowserStorage: whatever localStorage does, the latest operation on a key decides.
 */
module BrowserStringStorages {
  import opened Wrappers
  import opened BrowserStorage

  /** The module-level maps, shared by every namespace. */
  class ModuleState {
    const localStorage: LocalStorage
    var overrides: map<string, Override>
    var lastKnownValues: map<string, string>
    var keyRevisions: map<string, nat>
    var resetRevisions: map<string, nat>
    var revision: nat
    ghost const initial: map<string, string>
    ghost var log: seq<Op>

    ghost function Current(): View
      reads this, localStorage
    {
      View(overrides, lastKnownValues, keyRevisions, resetRevisions, revision, localStorage.items)
    }

    ghost predicate Valid()
      reads this, localStorage
    {
      localStorage.Valid() && AllRight(Current(), initial, log)
    }

    constructor (localStorage: LocalStorage)
      requires localStorage.Valid()
      ensures Valid() && this.localStorage == localStorage && log == [] && initial == localStorage.items
    {
      this.localStorage := localStorage;
      overrides, lastKnownValues, keyRevisions, resetRevisions, revision := map[], map[], map[], map[], 0;
      initial, log := localStorage.items, [];
    }

    /** The newest reset that covers a key. */
    method ResetRevisionForKey(key: string) returns (latest: Option<nat>)
      ensures latest.None? <==> !Covered(Current(), key)
      ensures latest.Some? ==> exists p :: p in resetRevisions && p <= key && resetRevisions[p] == latest.value
      ensures latest.Some? ==> forall p :: p in resetRevisions && p <= key ==> resetRevisions[p] <= latest.value
    {
      latest := None;
      var prefixes := resetRevisions.Keys;
      while prefixes != {}
        invariant prefixes <= resetRevisions.Keys
        invariant latest.None? ==> forall p :: p in resetRevisions && p !in prefixes ==> !(p <= key)
        invariant latest.Some? ==> exists p :: p in resetRevisions && p <= key && resetRevisions[p] == latest.value
        invariant latest.Some? ==>
                    forall p :: p in resetRevisions && p !in prefixes && p <= key ==> resetRevisions[p] <= latest.value
        decreases |prefixes|
      {
        var prefix :| prefix in prefixes;
        var value := resetRevisions[prefix];
        if prefix <= key && (latest.None? || value > latest.value) {
          latest := Some(value);
        }
        prefixes := prefixes - {prefix};
      }
    }

    method IsHiddenByReset(key: string) returns (hidden: bool)
      ensures hidden <==> Hidden(Current(), key)
    {
      var resetRevision := ResetRevisionForKey(key);
      var own := if key in keyRevisions then keyRevisions[key] else 0;
      hidden := resetRevision.Some? && own <= resetRevision.value;
    }

    method RecordKeyRevision(key: string)
      modifies this`keyRevisions, this`revision
      ensures Current() == Recorded(old(Current()), key)
    {
      var resetRevision := ResetRevisionForKey(key);
      if resetRevision.None? {
        keyRevisions := keyRevisions - {key};
        return;
      }
      revision := revision + 1;
      keyRevisions := keyRevisions[key := revision];
    }

    // ------------------------------------------------------------ the reset

    /** Marks the reset and collects the keys the maps know under the prefix. */
    method MarkReset(prefix: string) returns (keys: set<string>)
      modifies this`revision, this`resetRevisions, this`lastKnownValues, this`overrides
      ensures Current() == ResetMarked(old(Current()), prefix)
      ensures forall k :: k in keys ==> prefix <= k
      ensures forall k :: prefix <= k && (k in overrides || k in keyRevisions) ==> k in keys
    {
      revision := revision + 1;
      resetRevisions := resetRevisions[prefix := revision];
      keys := ForgetKnownValues(prefix);
      keys := keys + WithPrefix(keyRevisions, prefix);
      var overridden := OverrideWithDeletions(prefix);
      keys := keys + overridden;
    }

    method ForgetKnownValues(prefix: string) returns (keys: set<string>)
      modifies this`lastKnownValues
      ensures lastKnownValues == old(lastKnownValues) - WithPrefix(old(lastKnownValues), prefix)
      ensures keys == WithPrefix(old(lastKnownValues), prefix)
    {
      ghost var start := lastKnownValues;
      var todo := lastKnownValues.Keys;
      keys := {};
      assert WithPrefix(start, prefix) - todo == {};
      hide WithPrefix;
      while todo != {}
        invariant todo <= start.Keys && keys == WithPrefix(start, prefix) - todo
        invariant lastKnownValues == start - keys
        decreases |todo|
      {
        var key :| key in todo;
        OneFewerToDo(start, prefix, todo, key);
        if prefix <= key {
          keys := keys + {key};
          lastKnownValues := lastKnownValues - {key};
        }
        todo := todo - {key};
      }
    }

    method OverrideWithDeletions(prefix: string) returns (keys: set<string>)
      modifies this`overrides
      ensures overrides == map k | k in old(overrides) :: if prefix <= k then Deleted else old(overrides)[k]
      ensures keys == WithPrefix(old(overrides), prefix)
    {
      ghost var start := overrides;
      var todo := overrides.Keys;
      keys := {};
      assert WithPrefix(start, prefix) - todo == {};
      DeletedAtNone(start);
      DeletedAtAll(start, prefix);
      hide WithPrefix, DeletedAt;
      while todo != {}
        invariant todo <= start.Keys && keys == WithPrefix(start, prefix) - todo
        invariant overrides == DeletedAt(start, keys)
        decreases |todo|
      {
        var key :| key in todo;
        OneFewerToDo(start, prefix, todo, key);
        if prefix <= key {
          DeletedAtOneMore(start, keys, key);
          keys := keys + {key};
          overrides := overrides[key := Deleted];
        }
        todo := todo - {key};
      }
    }

    /** Lists the durable keys under the prefix; None when a call throws. */
    method ListDurableKeys(prefix: string) returns (keys: Option<set<string>>)
      requires localStorage.Valid()
      modifies localStorage`failures
      ensures keys.Some? ==> keys.value == WithPrefix(localStorage.items, prefix)
      ensures localStorage.failures == if keys.Some? then old(localStorage.failures) else old(localStorage.failures) + 1
    {
      var length := localStorage.Length();
      if length.None? {
        return None;
      }
      var found: set<string> := {};
      var index: nat := length.value;
      while index > 0
        invariant index <= |localStorage.order| && localStorage.failures == old(localStorage.failures)
        invariant found == set j | index <= j < |localStorage.order| && prefix <= localStorage.order[j] :: localStorage.order[j]
      {
        index := index - 1;
        var threw, key := localStorage.Key(index);
        if threw {
          return None;
        }
        if key.Some? && prefix <= key.value {
          found := found + {key.value};
        }
      }
      assert found == WithPrefix(localStorage.items, prefix) by {
        forall k
          ensures k in found <==> k in localStorage.items && prefix <= k
        {
          assert k in localStorage.items <==> k in localStorage.order;
        }
      }
      return Some(found);
    }

    /** Removes durable items one by one; the items that could not be removed stay overridden. */
    method RemoveKeys(keys: set<string>) returns (ghost failed: set<string>, removedAllKeys: bool)
      requires localStorage.Valid()
      modifies this`overrides, this`lastKnownValues, this`keyRevisions, localStorage
      ensures localStorage.Valid() && failed <= keys && (removedAllKeys <==> failed == {})
      ensures localStorage.failures >= old(localStorage.failures)
      ensures removedAllKeys || localStorage.failures > old(localStorage.failures)
      ensures Current() == ResetRemoved(old(Current()), keys, failed)
    {
      hide ResetRemoved;
      ghost var start := Current();
      var todo := keys;
      failed := {};
      RemoveNone(start);
      assert keys - todo == {};
      removedAllKeys := true;
      while todo != {}
        invariant todo <= keys && failed <= keys - todo && localStorage.Valid()
        invariant localStorage.failures >= old(localStorage.failures)
        invariant removedAllKeys || localStorage.failures > old(localStorage.failures)
        invariant removedAllKeys <==> failed == {}
        invariant Current() == ResetRemoved(start, keys - todo, failed)
        decreases |todo|
      {
        var key :| key in todo;
        ghost var before, done := failed, keys - todo;
        todo := todo - {key};
        assert keys - todo == done + {key};
        var removed := localStorage.RemoveItem(key);
        if removed {
          RemoveOne(start, done, before, key);
          overrides := overrides - {key};
          lastKnownValues := lastKnownValues - {key};
          keyRevisions := keyRevisions - {key};
        } else {
          failed := failed + {key};
          FailOne(start, done, before, key);
          overrides := overrides[key := Deleted];
          removedAllKeys := false;
        }
      }
      assert keys - todo == keys;
    }

    /** Forgets the reset and the narrower ones. */
    method ForgetResets(prefix: string)
      modifies this`resetRevisions
      ensures Current() == ResetForgotten(old(Current()), prefix)
    {
      ghost var start := resetRevisions;
      var todo := resetRevisions.Keys;
      while todo != {}
        invariant todo <= start.Keys
        invariant resetRevisions == start - (WithPrefix(start, prefix) - todo)
        decreases |todo|
      {
        var resetPrefix :| resetPrefix in todo;
        if prefix <= resetPrefix {
          resetRevisions := resetRevisions - {resetPrefix};
        }
        todo := todo - {resetPrefix};
      }
      assert WithPrefix(start, prefix) - todo == WithPrefix(start, prefix);
    }
  }

  lemma RemoveNone(v: View)
    ensures ResetRemoved(v, {}, {}) == v
  {
  }

  lemma RemoveOne(v: View, done: set<string>, failed: set<string>, key: string)
    requires key !in done && failed <= done
    ensures var t := ResetRemoved(v, done, failed);
            ResetRemoved(v, done + {key}, failed) ==
            t.(items := t.items - {key}, overrides := t.overrides - {key}, lastKnown := t.lastKnown - {key},
               keyRevisions := t.keyRevisions - {key})
  {
    assert (done + {key}) - failed == (done - failed) + {key};
  }

  lemma FailOne(v: View, done: set<string>, failed: set<string>, key: string)
    requires key !in done && failed <= done
    ensures var t := ResetRemoved(v, done, failed);
            ResetRemoved(v, done + {key}, failed + {key}) == t.(overrides := t.overrides[key := Deleted])
  {
    assert (done + {key}) - (failed + {key}) == done - failed;
  }

  class BrowserStringStorage {
    const namespace: string
    const state: ModuleState

    constructor (namespace: string, state: ModuleState)
      ensures this.namespace == namespace && this.state == state
    {
      this.namespace := namespace;
      this.state := state;
    }

    function StorageKey(key: string): string {
      namespace + "::" + key
    }

    /** What the latest operation of any storage left for a key of this one; None if nobody has touched it. */
    ghost function Left(key: string): Option<Effect>
      reads state
    {
      Latest(state.log, namespace + "::" + key)
    }

    /** What a reader is told while localStorage can be reached. */
    ghost function Answer(key: string): Option<string>
      reads state
    {
      match Left(key)
      case Some(Value(x)) => Some(x)
      case Some(Gone) => None
      case None => Item(state.initial, namespace + "::" + key)
    }

    /**
      The value of a key: what the latest operation on it left, or, if there was none, the durable
      item, which is not seen while localStorage is out of reach.
     */
    method Get(key: string) returns (value: Option<string>)
      requires state.Valid()
      modifies state.localStorage`failures
      ensures state.Valid()
      ensures state.localStorage.failures >= old(state.localStorage.failures)
      ensures || value == Answer(key)
              || (Left(key) == None && value == None && state.localStorage.failures > old(state.localStorage.failures))
    {
      var storageKey := StorageKey(key);
      ghost var v := state.Current();
      assert KeyRight(v, state.initial, state.log, storageKey);
      hide Latest, Hidden, Covered, AllRight;
      var hidden := state.IsHiddenByReset(storageKey);
      HiddenIsCovered(v, storageKey);
      if hidden {
        return None;
      }
      if storageKey in state.overrides {
        var override := state.overrides[storageKey];
        return if override.SetTo? then Some(override.value) else None;
      }
      var lastKnown := if storageKey in state.lastKnownValues then Some(state.lastKnownValues[storageKey]) else None;
      var available := state.localStorage.Available();
      if !available {
        return lastKnown;
      }
      var threw, item := state.localStorage.GetItem(storageKey);
      return if threw then lastKnown else item;
    }

    method Set(key: string, value: string)
      requires state.Valid()
      modifies state, state.localStorage
      ensures state.Valid() && state.log == old(state.log) + [BrowserStorage.Set(namespace + "::" + key, value)]
      ensures state.localStorage.failures >= old(state.localStorage.failures)
      ensures Left(key) == Some(Value(value))
      ensures forall k :: k != key ==> Left(k) == old(Left(k))
      ensures var storage := state.localStorage;
              || storage.items == old(storage.items)[namespace + "::" + key := value]
              || (storage.items == old(storage.items) && storage.failures > old(storage.failures))
    {
      hide AllRight, Covered;
      var storageKey := StorageKey(key);
      ghost var before := state.Current();
      SetKeepsRight(before, state.initial, state.log, storageKey, value, true);
      SetKeepsRight(before, state.initial, state.log, storageKey, value, false);
      state.RecordKeyRevision(storageKey);
      state.lastKnownValues := state.lastKnownValues[storageKey := value];
      SetLeaves(namespace, state.log, key, value);
      state.log := state.log + [BrowserStorage.Set(storageKey, value)];
      var landed := state.localStorage.Available();
      if landed {
        landed := state.localStorage.SetItem(storageKey, value);
      }
      state.overrides := if landed then state.overrides - {storageKey} else state.overrides[storageKey := SetTo(value)];
      assert state.Current() == AfterSet(before, storageKey, value, landed);
    }

    method Remove(key: string)
      requires state.Valid()
      modifies state, state.localStorage
      ensures state.Valid() && state.log == old(state.log) + [BrowserStorage.Remove(namespace + "::" + key)]
      ensures state.localStorage.failures >= old(state.localStorage.failures)
      ensures Left(key) == Some(Gone)
      ensures forall k :: k != key ==> Left(k) == old(Left(k))
      ensures var storage := state.localStorage;
              || storage.items == old(storage.items) - {namespace + "::" + key}
              || (storage.items == old(storage.items) && storage.failures > old(storage.failures))
    {
      hide AllRight, Covered;
      var storageKey := StorageKey(key);
      ghost var before := state.Current();
      RemoveKeepsRight(before, state.initial, state.log, storageKey, true);
      RemoveKeepsRight(before, state.initial, state.log, storageKey, false);
      state.RecordKeyRevision(storageKey);
      state.lastKnownValues := state.lastKnownValues - {storageKey};
      RemoveLeaves(namespace, state.log, key);
      state.log := state.log + [BrowserStorage.Remove(storageKey)];
      var landed := state.localStorage.Available();
      if landed {
        landed := state.localStorage.RemoveItem(storageKey);
      }
      state.overrides := if landed then state.overrides - {storageKey} else state.overrides[storageKey := Deleted];
      assert state.Current() == AfterRemove(before, storageKey, landed);
    }

    /** Removes every key of the namespace, at least from view. */
    method Reset()
      requires state.Valid()
      modifies state, state.localStorage
      ensures state.Valid() && state.log == old(state.log) + [BrowserStorage.Reset(namespace + "::")]
      ensures state.localStorage.failures >= old(state.localStorage.failures)
      ensures forall k :: Left(k) == Some(Gone)
      ensures var prefix := namespace + "::";
              || (state.localStorage.items == old(state.localStorage.items) - WithPrefix(old(state.localStorage.items), prefix)
                  && WithPrefix(state.resetRevisions, prefix) == {})
              || state.localStorage.failures > old(state.localStorage.failures)
    {
      hide AllRight, ResetMarked, ResetRemoved, ResetForgotten, Latest;
      var prefix := namespace + "::";
      ghost var before, log := state.Current(), state.log;
      MarkedKeepsRight(before, state.initial, log, prefix);
      var keys := state.MarkReset(prefix);
      state.log := log + [BrowserStorage.Reset(prefix)];
      ResetLeaves(namespace, log);
      var available := state.localStorage.Available();
      if !available {
        return;
      }
      var durable := state.ListDurableKeys(prefix);
      if durable.None? {
        return;
      }
      keys := keys + durable.value;
      ghost var marked := state.Current();
      ResetCovers(log, prefix);
      var failed, removedAllKeys := state.RemoveKeys(keys);
      RemovedKeepsRight(marked, state.initial, state.log, keys, failed);
      if removedAllKeys {
        NothingLeft(before, marked, prefix, keys);
        ForgottenKeepsRight(state.Current(), state.initial, state.log, prefix);
        ResetOutcome(before, prefix, keys);
        state.ForgetResets(prefix);
      }
    }
  }

  /** Distinct keys of one storage have distinct names. */
  lemma NamesAreDistinct(namespace: string, j: string, k: string)
    ensures namespace + "::" + j == namespace + "::" + k ==> j == k
  {
    var prefix := namespace + "::";
    assert (prefix + j)[|prefix|..] == j && (prefix + k)[|prefix|..] == k;
  }

  lemma SetLeaves(namespace: string, log: seq<Op>, key: string, value: string)
    ensures Latest(log + [BrowserStorage.Set(namespace + "::" + key, value)], namespace + "::" + key) == Some(Value(value))
    ensures forall k :: k != key ==>
              Latest(log + [BrowserStorage.Set(namespace + "::" + key, value)], namespace + "::" + k) == Latest(log, namespace + "::" + k)
  {
    hide Latest;
    forall k
      ensures Latest(log + [BrowserStorage.Set(namespace + "::" + key, value)], namespace + "::" + k) ==
              if k == key then Some(Value(value)) else Latest(log, namespace + "::" + k)
    {
      NamesAreDistinct(namespace, key, k);
      LatestSnoc(log, BrowserStorage.Set(namespace + "::" + key, value), namespace + "::" + k);
    }
  }

  lemma RemoveLeaves(namespace: string, log: seq<Op>, key: string)
    ensures Latest(log + [BrowserStorage.Remove(namespace + "::" + key)], namespace + "::" + key) == Some(Gone)
    ensures forall k :: k != key ==>
              Latest(log + [BrowserStorage.Remove(namespace + "::" + key)], namespace + "::" + k) == Latest(log, namespace + "::" + k)
  {
    hide Latest;
    forall k
      ensures Latest(log + [BrowserStorage.Remove(namespace + "::" + key)], namespace + "::" + k) ==
              if k == key then Some(Gone) else Latest(log, namespace + "::" + k)
    {
      NamesAreDistinct(namespace, key, k);
      LatestSnoc(log, BrowserStorage.Remove(namespace + "::" + key), namespace + "::" + k);
    }
  }

  lemma ResetLeaves(namespace: string, log: seq<Op>)
    ensures forall k :: Latest(log + [BrowserStorage.Reset(namespace + "::")], namespace + "::" + k) == Some(Gone)
  {
    forall k
      ensures namespace + "::" <= namespace + "::" + k
    {
    }
    ResetCovers(log, namespace + "::");
  }

  lemma HiddenIsCovered(v: View, k: string)
    ensures Hidden(v, k) ==> Covered(v, k)
  {
  }

  lemma ResetCovers(log: seq<Op>, prefix: string)
    ensures forall k :: prefix <= k ==> Latest(log + [BrowserStorage.Reset(prefix)], k) == Some(Gone)
  {
    forall k | prefix <= k
      ensures Latest(log + [BrowserStorage.Reset(prefix)], k) == Some(Gone)
    {
      LatestSnoc(log, BrowserStorage.Reset(prefix), k);
    }
  }

  /** A reset that nothing interrupts removes every durable item of the namespace, and only those. */
  lemma ResetOutcome(v: View, prefix: string, keys: set<string>)
    requires forall k :: k in keys ==> prefix <= k
    requires WithPrefix(v.items, prefix) <= keys
    ensures var t := ResetForgotten(ResetRemoved(ResetMarked(v, prefix), keys, {}), prefix);
            t.items == v.items - WithPrefix(v.items, prefix) && WithPrefix(t.resetRevisions, prefix) == {}
  {
    assert keys - {} == keys;
    assert v.items - keys == v.items - WithPrefix(v.items, prefix) by {
      assert forall k :: k in v.items && k in keys ==> k in WithPrefix(v.items, prefix);
    }
  }

  /** After all keys under the prefix have been removed, none of the maps holds one. */
  lemma NothingLeft(v: View, marked: View, prefix: string, keys: set<string>)
    requires marked == ResetMarked(v, prefix)
    requires forall k :: prefix <= k && k in marked.overrides ==> k in keys
    requires WithPrefix(marked.items, prefix) <= keys
    ensures var t := ResetRemoved(marked, keys, {});
            forall k :: prefix <= k ==> k !in t.overrides && k !in t.items && k !in t.lastKnown
  {
    forall k | prefix <= k
      ensures var t := ResetRemoved(marked, keys, {}); k !in t.overrides && k !in t.items && k !in t.lastKnown
    {
      assert k in marked.items ==> k in WithPrefix(marked.items, prefix);
      assert k in v.lastKnown ==> k in WithPrefix(v.lastKnown, prefix);
    }
  }

  /** Some keys overridden with a deletion. */
  function DeletedAt(m: map<string, Override>, keys: set<string>): map<string, Override> {
    map k | k in m :: if k in keys then Deleted else m[k]
  }

  lemma DeletedAtNone(m: map<string, Override>)
    ensures DeletedAt(m, {}) == m
  {
  }

  lemma DeletedAtOneMore(m: map<string, Override>, keys: set<string>, key: string)
    requires key in m
    ensures DeletedAt(m, keys + {key}) == DeletedAt(m, keys)[key := Deleted]
  {
  }

  lemma DeletedAtAll(m: map<string, Override>, prefix: string)
    ensures DeletedAt(m, WithPrefix(m, prefix)) == map k | k in m :: if prefix <= k then Deleted else m[k]
  {
  }

  lemma OneFewerToDo<V>(m: map<string, V>, prefix: string, todo: set<string>, key: string)
    requires key in todo && key in m
    ensures WithPrefix(m, prefix) - (todo - {key}) ==
            if prefix <= key then WithPrefix(m, prefix) - todo + {key} else WithPrefix(m, prefix) - todo
  {
  }

  // -------------------------------------------------------- what callers see

  /** A value that is set, and a reset of the same namespace: the key is gone, whatever localStorage does. */
  method SetResetGet(storage: BrowserStringStorage, key: string, value: string, other: string)
    returns (found: Option<string>, unset: Option<string>)
    requires storage.state.Valid()
    modifies storage.state, storage.state.localStorage
    ensures found == None && unset == None
  {
    storage.Set(key, value);
    storage.Reset();
    found := storage.Get(key);
    unset := storage.Get(other);
  }

  /** Two keys of one storage: each is answered with what was set for it. */
  method SetTwo(storage: BrowserStringStorage, key: string, value: string, other: string, otherValue: string)
    returns (found: Option<string>, otherFound: Option<string>)
    requires storage.state.Valid() && key != other
    modifies storage.state, storage.state.localStorage
    ensures found == Some(value) && otherFound == Some(otherValue)
  {
    storage.Set(key, value);
    storage.Set(other, otherValue);
    found := storage.Get(key);
    otherFound := storage.Get(other);
  }

  /** A storage over untouched maps reads what an earlier session has left in localStorage. */
  method ReadDurable(localStorage: LocalStorage, namespace: string, key: string) returns (found: Option<string>)
    requires localStorage.Valid()
    modifies localStorage`failures
    ensures found == Item(localStorage.items, namespace + "::" + key)
         || (found == None && localStorage.failures > old(localStorage.failures))
  {
    var state := new ModuleState(localStorage);
    var storage := new BrowserStringStorage(namespace, state);
    assert storage.Left(key) == None;
    found := storage.Get(key);
  }

  datatype Call =
    | GetCall(namespace: string, key: string)
    | SetCall(namespace: string, key: string, value: string)
    | RemoveCall(namespace: string, key: string)
    | ResetCall(namespace: string)

  /** Does the call reach this key of this namespace? A namespace may lie within another. */
  predicate Reaches(call: Call, namespace: string, key: string) {
    match call
    case GetCall(_, _) => false
    case SetCall(n, k, _) => n + "::" + k == namespace + "::" + key
    case RemoveCall(n, k) => n + "::" + k == namespace + "::" + key
    case ResetCall(n) => n + "::" <= namespace + "::" + key
  }

  /** What a key holds after some calls: what the last one that reaches it left, or what was durable before them. */
  function Expected(initial: map<string, string>, calls: seq<Call>, namespace: string, key: string): Option<string> {
    if calls == [] then Item(initial, namespace + "::" + key)
    else
      var last := calls[|calls| - 1];
      if !Reaches(last, namespace, key) then Expected(initial, calls[..|calls| - 1], namespace, key)
      else if last.SetCall? then Some(last.value)
      else None
  }

  predicate Untouched(calls: seq<Call>, namespace: string, key: string) {
    forall i :: 0 <= i < |calls| ==> !Reaches(calls[i], namespace, key)
  }

  /** The log says about every key what the calls do. */
  ghost predicate LogMatches(initial: map<string, string>, calls: seq<Call>, log: seq<Op>) {
    forall n, k :: AnswerMatches(initial, calls, log, n, k)
  }

  ghost predicate AnswerMatches(initial: map<string, string>, calls: seq<Call>, log: seq<Op>, n: string, k: string) {
    && Expected(initial, calls, n, k) ==
       (match Latest(log, n + "::" + k)
        case Some(Value(x)) => Some(x)
        case Some(Gone) => None
        case None => Item(initial, n + "::" + k))
    && (Latest(log, n + "::" + k) == None <==> Untouched(calls, n, k))
  }

  function OpOf(call: Call): seq<Op> {
    match call
    case GetCall(_, _) => []
    case SetCall(n, k, x) => [BrowserStorage.Set(n + "::" + k, x)]
    case RemoveCall(n, k) => [BrowserStorage.Remove(n + "::" + k)]
    case ResetCall(n) => [BrowserStorage.Reset(n + "::")]
  }

  lemma UntouchedSnoc(calls: seq<Call>, call: Call, n: string, k: string)
    ensures Untouched(calls + [call], n, k) <==> Untouched(calls, n, k) && !Reaches(call, n, k)
  {
    hide Reaches;
    if Untouched(calls + [call], n, k) {
      assert !Reaches((calls + [call])[|calls|], n, k);
      forall i | 0 <= i < |calls|
        ensures !Reaches(calls[i], n, k)
      {
        assert (calls + [call])[i] == calls[i];
      }
    }
  }

  lemma LogMatchesOneMore(initial: map<string, string>, calls: seq<Call>, log: seq<Op>, call: Call)
    requires LogMatches(initial, calls, log)
    ensures LogMatches(initial, calls + [call], log + OpOf(call))
  {
    hide Latest, Untouched;
    forall n, k
      ensures AnswerMatches(initial, calls + [call], log + OpOf(call), n, k)
    {
      assert AnswerMatches(initial, calls, log, n, k);
      assert (calls + [call])[..|calls|] == calls;
      UntouchedSnoc(calls, call, n, k);
      if call.GetCall? {
        assert log + [] == log;
      } else {
        LatestSnoc(log, OpOf(call)[0], n + "::" + k);
      }
    }
  }

  /**
    Any calls through any number of storages, over a localStorage that may fail at any time: every
    get is answered with what the last call that reaches its key left. Only a key that no call has
    reached can be missed, when localStorage is out of reach.
   */
  method RunCalls(localStorage: LocalStorage, calls: seq<Call>) returns (answers: seq<Option<string>>)
    requires localStorage.Valid()
    modifies localStorage
    ensures |answers| == |calls|
    ensures forall i :: 0 <= i < |calls| && calls[i].GetCall? ==>
              var n, k := calls[i].namespace, calls[i].key;
              || answers[i] == Expected(old(localStorage.items), calls[..i], n, k)
              || (answers[i] == None && Untouched(calls[..i], n, k) && localStorage.failures > old(localStorage.failures))
  {
    hide Latest, AllRight, Expected, Untouched, AnswerMatches;
    var state := new ModuleState(localStorage);
    ghost var initial := localStorage.items;
    answers := [];
    NothingCalled(initial);
    for i := 0 to |calls|
      invariant state.Valid() && state.localStorage == localStorage && fresh(state) && state.initial == initial
      invariant LogMatches(initial, calls[..i], state.log)
      invariant localStorage.failures >= old(localStorage.failures)
      invariant |answers| == i
      invariant forall j :: 0 <= j < i && calls[j].GetCall? ==>
                  var n, k := calls[j].namespace, calls[j].key;
                  || answers[j] == Expected(initial, calls[..j], n, k)
                  || (answers[j] == None && Untouched(calls[..j], n, k) && localStorage.failures > old(localStorage.failures))
    {
      var call := calls[i];
      assert calls[..i + 1] == calls[..i] + [call];
      LogMatchesOneMore(initial, calls[..i], state.log, call);
      var storage := new BrowserStringStorage(call.namespace, state);
      var answer := None;
      match call {
        case GetCall(n, k) =>
          AnswerIs(initial, calls[..i], state.log, n, k);
          answer := storage.Get(k);
          assert state.log + [] == state.log;
        case SetCall(_, k, x) => storage.Set(k, x);
        case RemoveCall(_, k) => storage.Remove(k);
        case ResetCall(_) => storage.Reset();
      }
      answers := answers + [answer];
    }
  }

  lemma AnswerIs(initial: map<string, string>, calls: seq<Call>, log: seq<Op>, n: string, k: string)
    requires LogMatches(initial, calls, log)
    ensures Expected(initial, calls, n, k) ==
            (match Latest(log, n + "::" + k)
             case Some(Value(x)) => Some(x)
             case Some(Gone) => None
             case None => Item(initial, n + "::" + k))
    ensures Latest(log, n + "::" + k) == None <==> Untouched(calls, n, k)
  {
    assert AnswerMatches(initial, calls, log, n, k);
  }

  lemma NothingCalled(initial: map<string, string>)
    ensures LogMatches(initial, [], [])
  {
  }
}
