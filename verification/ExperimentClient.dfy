/**
  The variant cache and the fetch bookkeeping of the experiment client
  (src/experiment/experimentClient.ts, src/experiment/storage/cache.ts).
 */
module ExperimentClients {
  import opened Wrappers
  import opened FetchOrdering
  import opened FetchLifecycle

  /** What the storage holds after the first writes have landed or failed, in the order they were asked for. */
  function Landed(initial: Option<Variants>, calls: seq<Variants>, outcomes: seq<bool>): Option<Variants>
    requires |outcomes| <= |calls|
  {
    if outcomes == [] then initial
    else
      var n := |outcomes| - 1;
      if outcomes[n] then Some(calls[n]) else Landed(initial, calls, outcomes[..n])
  }

  /** The last write that succeeded is the one that counts, and none asked for later has overtaken it. */
  lemma {:induction false} LastSuccessCounts(initial: Option<Variants>, calls: seq<Variants>, outcomes: seq<bool>, i: nat)
    requires |outcomes| <= |calls| && i < |outcomes| && outcomes[i]
    requires forall j :: i < j < |outcomes| ==> !outcomes[j]
    ensures Landed(initial, calls, outcomes) == Some(calls[i])
    decreases |outcomes|
  {
    var n := |outcomes| - 1;
    if i < n {
      LastSuccessCounts(initial, calls, outcomes[..n], i);
    }
  }

  lemma LandedSnoc(initial: Option<Variants>, calls: seq<Variants>, outcomes: seq<bool>, ok: bool)
    requires |outcomes| < |calls|
    ensures Landed(initial, calls, outcomes + [ok]) == if ok then Some(calls[|outcomes|]) else Landed(initial, calls, outcomes)
  {
    assert (outcomes + [ok])[..|outcomes|] == outcomes;
  }

  lemma {:induction false} LandedMoreCalls(initial: Option<Variants>, calls: seq<Variants>, outcomes: seq<bool>, call: Variants)
    requires |outcomes| <= |calls|
    ensures Landed(initial, calls + [call], outcomes) == Landed(initial, calls, outcomes)
    decreases |outcomes|
  {
    if outcomes != [] {
      LandedMoreCalls(initial, calls, outcomes[..|outcomes| - 1], call);
    }
  }

  /** A cache whose snapshots are written to storage one after the other. */
  class LoadStoreCache {
    var cache: Variants
    var pendingStore: seq<Variants>  // snapshots whose write has not settled
    var storage: Option<Variants>
    ghost const initial: Option<Variants>
    ghost var calls: seq<Variants>
    ghost var outcomes: seq<bool>

    ghost predicate Valid()
      reads this
    {
      && |outcomes| <= |calls|
      && pendingStore == calls[|outcomes|..]
      && storage == Landed(initial, calls, outcomes)
    }

    constructor (stored: Option<Variants>)
      ensures Valid() && calls == [] && cache == map[]
    {
      cache := map[];
      pendingStore, storage, initial := [], stored, stored;
      calls, outcomes := [], [];
    }

    method Put(key: string, value: Variant)
      requires Valid()
      modifies this`cache
      ensures Valid() && cache == old(cache)[key := value]
    {
      cache := cache[key := value];
    }

    method Remove(key: string)
      requires Valid()
      modifies this`cache
      ensures Valid() && cache == old(cache) - {key}
    {
      cache := cache - {key};
    }

    method Clear()
      requires Valid()
      modifies this`cache
      ensures Valid() && cache == map[]
    {
      cache := map[];
    }

    /** The load has read this: whatever the cache holds by now is replaced, by nothing if nothing was found. */
    method Load(read: Option<Variants>)
      requires Valid()
      modifies this`cache
      ensures Valid() && cache == if read.Some? then read.value else map[]
    {
      Clear();
      if read.Some? {
        cache := read.value;
      }
    }

    /** Queues a snapshot of the cache as it is now. */
    method Store()
      requires Valid()
      modifies this`pendingStore, this`calls
      ensures Valid() && calls == old(calls) + [cache]
    {
      LandedMoreCalls(initial, calls, outcomes, cache);
      pendingStore := pendingStore + [cache];
      calls := calls + [cache];
    }

    /** The oldest pending write lands or fails; either way the next may go. */
    method Settle(ok: bool)
      requires Valid() && pendingStore != []
      modifies this`pendingStore, this`storage, this`outcomes
      ensures Valid() && outcomes == old(outcomes) + [ok] && calls == old(calls)
    {
      LandedSnoc(initial, calls, outcomes, ok);
      if ok {
        storage := Some(pendingStore[0]);
      }
      pendingStore := pendingStore[1..];
      outcomes := outcomes + [ok];
    }
  }

  class ExperimentClient {
    const variants: LoadStoreCache
    var storedKeySequenceNumbers: map<string, nat>
    var fetchSequenceNumber: nat
    var storedFetchSequenceNumber: nat
    var storedFullFetchSequenceNumber: nat
    var fetchGeneration: nat
    var lastFetchMetadataSequenceNumber: nat
    var lastFetchTime: Option<nat>
    var lastFetchFailure: Option<string>
    var retrying: bool
    var isRunning: bool
    var user: string  // as serialized
    ghost var client: Client

    ghost function CurrentStore(): Store
      reads this, variants
    {
      FetchOrdering.Store(variants.cache, storedKeySequenceNumbers, storedFullFetchSequenceNumber)
    }

    ghost predicate Valid()
      reads this, variants
    {
      && variants.Valid()
      && Invariant(client)
      && client.store == CurrentStore()
      && client.fetchSequence == fetchSequenceNumber
      && client.storedFetchSequence == storedFetchSequenceNumber
      && client.generation == fetchGeneration
      && client.metadataSequence == lastFetchMetadataSequenceNumber
      && client.lastFetchTime == lastFetchTime
      && client.lastFetchFailure == lastFetchFailure
      && client.retrying == retrying
    }

    constructor (variants: LoadStoreCache, user: string)
      requires variants.Valid() && variants.cache == map[]
      ensures Valid() && this.variants == variants && client == FetchLifecycle.Start() && !isRunning
    {
      this.variants := variants;
      this.user := user;
      storedKeySequenceNumbers := map[];
      fetchSequenceNumber, storedFetchSequenceNumber, storedFullFetchSequenceNumber := 0, 0, 0;
      fetchGeneration, lastFetchMetadataSequenceNumber := 0, 0;
      lastFetchTime, lastFetchFailure, retrying, isRunning := None, None, false, false;
      client := FetchLifecycle.Start();
      new;
      StartInvariant();
    }

    // ------------------------------------------------------------- responses

    /** Collects the variants that newer per-key responses own, and forgets the older ones. */
    method RetainNewerKeys(sequenceNumber: nat) returns (retained: Variants)
      modifies this`storedKeySequenceNumbers
      ensures retained == Retained(old(CurrentStore()), sequenceNumber)
      ensures storedKeySequenceNumbers == NewerKeys(old(CurrentStore()), sequenceNumber)
    {
      ghost var start := CurrentStore();
      retained := map[];
      var keys := storedKeySequenceNumbers.Keys;
      while keys != {}
        invariant keys <= start.keySequences.Keys
        invariant retained == map k | k in Retained(start, sequenceNumber) && k !in keys :: start.cache[k]
        invariant storedKeySequenceNumbers ==
                  map k | k in start.keySequences && (k in keys || start.keySequences[k] > sequenceNumber) :: start.keySequences[k]
        decreases |keys|
      {
        var key :| key in keys;
        var storedSequence := storedKeySequenceNumbers[key];
        if storedSequence > sequenceNumber && key in variants.cache {
          retained := retained[key := variants.cache[key]];
        } else if storedSequence <= sequenceNumber {
          storedKeySequenceNumbers := storedKeySequenceNumbers - {key};
        }
        keys := keys - {key};
      }
    }

    /** Puts every entry into the cache. */
    method PutAll(values: Variants)
      requires variants.Valid()
      modifies variants`cache
      ensures variants.Valid() && variants.cache == old(variants.cache) + values
    {
      ghost var start := variants.cache;
      var keys := values.Keys;
      while keys != {}
        invariant keys <= values.Keys && variants.Valid()
        invariant variants.cache == start + (map k | k in values && k !in keys :: values[k])
        decreases |keys|
      {
        var key :| key in keys;
        variants.Put(key, values[key]);
        keys := keys - {key};
      }
      assert (map k | k in values && k !in keys :: values[k]) == values;
    }

    method StoreFullResponse(response: Variants, sequenceNumber: nat) returns (stored: bool)
      requires variants.Valid()
      modifies this`storedKeySequenceNumbers, this`storedFullFetchSequenceNumber, variants`cache
      ensures variants.Valid()
      ensures CurrentStore() == ReceiveFull(old(CurrentStore()), Response(sequenceNumber, {}, response))
      ensures stored <==> sequenceNumber > old(storedFullFetchSequenceNumber)
    {
      if sequenceNumber <= storedFullFetchSequenceNumber {
        return false;
      }
      var retained := RetainNewerKeys(sequenceNumber);
      variants.Clear();
      PutAll(response);
      PutAll(retained);
      storedFullFetchSequenceNumber := sequenceNumber;
      return true;
    }

    method StoreKeyResponse(response: Variants, sequenceNumber: nat, requested: set<string>) returns (storedAny: bool)
      requires variants.Valid() && requested != {}
      modifies this`storedKeySequenceNumbers, variants`cache
      ensures variants.Valid()
      ensures CurrentStore() == ReceiveKeys(old(CurrentStore()), Response(sequenceNumber, requested, response))
      ensures storedAny <==> Taken(old(CurrentStore()), Response(sequenceNumber, requested, response)) != {}
    {
      ghost var start, r := CurrentStore(), Response(sequenceNumber, requested, response);
      hide Taken, Receive, ReceiveKeys, CoveredBy, Decided, Candidates;
      storedAny := false;
      var candidateKeys := requested + response.Keys;
      CandidatesAre(r);
      ghost var done: set<string> := {};
      DecidedNone(start, r);
      while candidateKeys != {}
        invariant candidateKeys == Candidates(r) - done
        invariant variants.Valid() && Decided(start, r, done, CurrentStore(), storedAny)
        decreases |candidateKeys|
      {
        var key :| key in candidateKeys;
        candidateKeys := candidateKeys - {key};
        ghost var before := CurrentStore();
        var storedHere := StoreKey(response, sequenceNumber, key);
        DecidedOneMore(start, r, done, key, before, CurrentStore(), storedAny, storedHere);
        done := done + {key};
        storedAny := storedAny || storedHere;
      }
      DecidedAll(start, r, done, CurrentStore(), storedAny);
    }

    /** Lets a per-key response decide one flag, unless something newer has. */
    method StoreKey(response: Variants, sequenceNumber: nat, key: string) returns (stored: bool)
      requires variants.Valid()
      modifies this`storedKeySequenceNumbers, variants`cache
      ensures variants.Valid()
      ensures stored <==> sequenceNumber > CoveredBy(old(CurrentStore()), key)
      ensures !stored ==> CurrentStore() == old(CurrentStore())
      ensures stored ==>
                variants.cache == if key in response then old(variants.cache)[key := response[key]] else old(variants.cache) - {key}
      ensures stored ==> storedKeySequenceNumbers == old(storedKeySequenceNumbers)[key := sequenceNumber]
    {
      var own := if key in storedKeySequenceNumbers then storedKeySequenceNumbers[key] else 0;
      var coveredBy := if own > storedFullFetchSequenceNumber then own else storedFullFetchSequenceNumber;
      if sequenceNumber <= coveredBy {
        return false;
      }
      if key in response {
        variants.Put(key, response[key]);
      } else {
        variants.Remove(key);
      }
      storedKeySequenceNumbers := storedKeySequenceNumbers[key := sequenceNumber];
      return true;
    }

    /** Applies a response and queues a snapshot, unless the response comes too late. */
    method StoreVariants(response: Variants, fetch: Fetch) returns (stored: bool)
      requires Valid() && Enabled(client, Arrives(fetch, response))
      modifies this, variants
      ensures Valid() && client == Arrive(old(client), fetch, response)
      ensures stored <==> Stores(old(client).store, ResponseOf(fetch, response))
      ensures variants.calls == if stored then old(variants.calls) + [variants.cache] else old(variants.calls)
      ensures fetch.sequence < old(storedFullFetchSequenceNumber) ==> !stored && variants.cache == old(variants.cache)
    {
      hide Invariant, Receive, ReceiveFull, ReceiveKeys;
      ArriveKeeps(client, fetch, response);
      ghost var before := client;
      if fetch.sequence <= storedFullFetchSequenceNumber {
        StaleIsIgnored(before.store, ResponseOf(fetch, response));
        StaleStoresNothing(before.store, ResponseOf(fetch, response));
      }
      if fetch.requested == {} {
        stored := StoreFullResponse(response, fetch.sequence);
      } else {
        stored := StoreKeyResponse(response, fetch.sequence, fetch.requested);
      }
      ReceiveIs(before.store, ResponseOf(fetch, response));
      client := Arrive(before, fetch, response);
      if !stored {
        UnstoredChangesNothing(before.store, ResponseOf(fetch, response));
        return;
      }
      storedFetchSequenceNumber :=
        if fetch.sequence > storedFetchSequenceNumber then fetch.sequence else storedFetchSequenceNumber;
      variants.Store();
    }

    // ---------------------------------------------------------- the lifecycle

    method InvalidateFetches()
      requires Valid()
      modifies this
      ensures Valid() && client == Invalidate(old(client))
      ensures isRunning == old(isRunning) && user == old(user)
    {
      hide Invariant;
      StepKeeps(client, Invalidates);
      client := Invalidate(client);
      fetchGeneration := fetchGeneration + 1;
      fetchSequenceNumber := fetchSequenceNumber + 1;
      storedFetchSequenceNumber := fetchSequenceNumber;
      storedFullFetchSequenceNumber := storedFetchSequenceNumber;
      storedKeySequenceNumbers := map[];
      retrying := false;
    }

    /** Starts a fetch; one that may retry ends the retries under way. */
    method BeginFetch(retry: bool, requested: set<string>) returns (fetch: Fetch)
      requires Valid()
      modifies this
      ensures Valid() && client == Begin(old(client), retry, requested)
      ensures fetch == NextFetch(old(client), retry, requested) && fetch in client.begun
    {
      hide Invariant;
      StepKeeps(client, Begins(retry, requested));
      client := Begin(client, retry, requested);
      if retry {
        retrying := false;
      }
      fetchSequenceNumber := fetchSequenceNumber + 1;
      fetch := Fetch(fetchSequenceNumber, fetchGeneration, retry, requested);
    }

    /** The snapshot of a stored response has been written. */
    method FinishFetch(fetch: Fetch, now: nat)
      requires Valid() && Enabled(client, Succeeds(fetch, now))
      modifies this
      ensures Valid() && client == Succeed(old(client), fetch, now)
    {
      hide Invariant;
      StepKeeps(client, Succeeds(fetch, now));
      client := Succeed(client, fetch, now);
      if storedFetchSequenceNumber == fetch.sequence && fetch.sequence >= lastFetchMetadataSequenceNumber {
        lastFetchMetadataSequenceNumber := fetch.sequence;
        lastFetchTime := Some(now);
        lastFetchFailure := None;
      }
    }

    /** The request or the write of its snapshot has failed. */
    method FailFetch(fetch: Fetch, error: string, worthRetrying: bool)
      requires Valid() && Enabled(client, Fails(fetch, error, worthRetrying))
      modifies this
      ensures Valid() && client == Fail(old(client), fetch, error, worthRetrying)
    {
      hide Invariant;
      StepKeeps(client, Fails(fetch, error, worthRetrying));
      client := Fail(client, fetch, error, worthRetrying);
      if fetch.sequence >= storedFetchSequenceNumber && fetch.sequence >= lastFetchMetadataSequenceNumber {
        lastFetchMetadataSequenceNumber := fetch.sequence;
        lastFetchFailure := Some(error);
      }
      if fetch.retry && fetch.generation == fetchGeneration && worthRetrying {
        retrying := true;
      }
    }

    /** Another user invalidates what is in flight; the same user does not. */
    method SetUser(nextUser: string)
      requires Valid()
      modifies this
      ensures Valid() && user == nextUser && isRunning == old(isRunning)
      ensures client == if nextUser != old(user) then Invalidate(old(client)) else old(client)
    {
      if user != nextUser {
        InvalidateFetches();
      }
      user := nextUser;
    }

    /** Empties the cache and the storage. */
    method Clear()
      requires Valid()
      modifies this, variants
      ensures Valid() && client == FetchLifecycle.Clear(old(client))
      ensures variants.cache == map[] && variants.calls == old(variants.calls) + [map[]]
    {
      hide Invariant;
      StepKeeps(client, Clears);
      ghost var cleared := FetchLifecycle.Clear(client);
      InvalidateFetches();
      variants.Clear();
      client := cleared;
      variants.Store();
    }

    /** The load of the persisted variants settles; nothing has waited for it. */
    method SettleLoad(read: Option<Variants>)
      requires Valid() && client.loading
      modifies this`client, variants`cache
      ensures Valid() && client == FetchLifecycle.Load(old(client), if read.Some? then read.value else map[])
      ensures variants.cache == (if read.Some? then read.value else map[]) && variants.calls == old(variants.calls)
    {
      hide Invariant;
      ghost var stored := if read.Some? then read.value else map[];
      StepKeeps(client, Loads(stored));
      variants.Load(read);
      client := FetchLifecycle.Load(client, stored);
    }

    /** Starts a client that is not running; only then does the user count. */
    method Start(nextUser: Option<string>)
      requires Valid()
      modifies this
      ensures Valid() && isRunning
      ensures var changes := !old(isRunning) && nextUser.Some? && nextUser.value != old(user);
              && client == (if changes then Invalidate(old(client)) else old(client))
              && user == if changes then nextUser.value else old(user)
    {
      if isRunning {
        return;
      }
      isRunning := true;
      if nextUser.Some? {
        SetUser(nextUser.value);
      }
    }

    /** A running client that stops invalidates what is in flight; retries stop in any case. */
    method Stop()
      requires Valid()
      modifies this
      ensures Valid() && !isRunning && !retrying
      ensures client == if old(isRunning) then Invalidate(old(client)) else old(client).(retrying := false)
    {
      hide Invariant;
      StepKeeps(client, StopsRetrying);
      ghost var before := client;
      retrying := false;
      client := client.(retrying := false);
      if !isRunning {
        return;
      }
      InvalidateFetches();
      isRunning := false;
      assert client == Invalidate(before);
    }
  }

  /**
    A fetch whose response comes in and is written before anything else happens: whatever the client
    looked like before, the response is stored, the fetch is fresh as of now and no failure is left.
   */
  method FetchAlone(client: ExperimentClient, retry: bool, requested: set<string>, response: Variants, now: nat)
    requires client.Valid()
    modifies client, client.variants
    ensures client.Valid()
    ensures client.lastFetchTime == Some(now) && client.lastFetchFailure == None
    ensures requested == {} ==> client.variants.cache == response
    ensures requested != {} ==> forall k ::
              FetchOrdering.Lookup(client.variants.cache, k) ==
              FetchOrdering.Lookup(if k in requested || k in response then response else old(client.variants.cache), k)
    ensures client.variants.calls == old(client.variants.calls) + [client.variants.cache]
  {
    hide Invariant, Stores, Receive;
    NewFetchDecides(client.client, retry, requested, response);
    var fetch := client.BeginFetch(retry, requested);
    var stored := client.StoreVariants(response, fetch);
    client.FinishFetch(fetch, now);
  }

  lemma NumbersAreBelowNext(c: Client)
    requires Invariant(c)
    ensures c.storedFetchSequence <= c.fetchSequence && c.metadataSequence <= c.fetchSequence
  {
  }

  /** A fetch that fails before anything else happens is the failure that is reported, and the time of the last success stays. */
  method FailAlone(client: ExperimentClient, retry: bool, requested: set<string>, error: string, worthRetrying: bool)
    requires client.Valid()
    modifies client
    ensures client.Valid()
    ensures client.lastFetchFailure == Some(error) && client.lastFetchTime == old(client.lastFetchTime)
    ensures client.retrying <==> if retry then worthRetrying else old(client.retrying)
  {
    hide Invariant;
    NumbersAreBelowNext(client.client);
    var fetch := client.BeginFetch(retry, requested);
    client.FailFetch(fetch, error, worthRetrying);
  }

  ghost function CacheSome(cache: Variants, r: Response, taken: set<string>): Variants {
    (cache - taken) + (map k | k in taken && k in r.variants :: r.variants[k])
  }

  ghost function KeysSome(keys: map<string, nat>, r: Response, taken: set<string>): map<string, nat> {
    keys + (map k | k in taken :: r.sequence)
  }

  /** The store after only the flags in `taken` have been decided by the response. */
  ghost function ReceiveSome(s: Store, r: Response, taken: set<string>): Store {
    FetchOrdering.Store(CacheSome(s.cache, r, taken), KeysSome(s.keySequences, r, taken), s.fullSequence)
  }

  lemma CacheOneMore(cache: Variants, r: Response, taken: set<string>, key: string)
    ensures CacheSome(cache, r, taken + {key}) ==
            if key in r.variants then CacheSome(cache, r, taken)[key := r.variants[key]]
            else CacheSome(cache, r, taken) - {key}
  {
    var next, earlier := CacheSome(cache, r, taken + {key}), CacheSome(cache, r, taken);
    var want := if key in r.variants then earlier[key := r.variants[key]] else earlier - {key};
    assert next.Keys == want.Keys;
  }

  lemma KeysOneMore(keys: map<string, nat>, r: Response, taken: set<string>, key: string)
    ensures KeysSome(keys, r, taken + {key}) == KeysSome(keys, r, taken)[key := r.sequence]
  {
    assert KeysSome(keys, r, taken + {key}).Keys == KeysSome(keys, r, taken)[key := r.sequence].Keys;
  }

  lemma ReceiveOneMore(s: Store, r: Response, taken: set<string>, key: string)
    ensures var t := ReceiveSome(s, r, taken);
            ReceiveSome(s, r, taken + {key}) ==
            FetchOrdering.Store(if key in r.variants then t.cache[key := r.variants[key]] else t.cache - {key},
                                t.keySequences[key := r.sequence], t.fullSequence)
  {
    CacheOneMore(s.cache, r, taken, key);
    KeysOneMore(s.keySequences, r, taken, key);
    hide CacheSome, KeysSome;
  }

  lemma ReceiveNone(s: Store, r: Response)
    ensures ReceiveSome(s, r, {}) == s
  {
  }

  lemma ReceiveTaken(s: Store, r: Response)
    ensures ReceiveSome(s, r, Taken(s, r)) == ReceiveKeys(s, r)
  {
  }

  lemma TakenOneMore(s: Store, r: Response, done: set<string>, key: string)
    requires key in Candidates(r) && key !in done
    ensures Taken(s, r) * (done + {key}) ==
            if r.sequence > CoveredBy(s, key) then Taken(s, r) * done + {key} else Taken(s, r) * done
    ensures key !in Taken(s, r) * done
  {
  }

  lemma UntouchedKey(s: Store, r: Response, taken: set<string>, key: string)
    requires key !in taken
    ensures var t := ReceiveSome(s, r, taken);
            CoveredBy(t, key) == CoveredBy(s, key)
  {
  }

  lemma CandidatesAre(r: Response)
    ensures Candidates(r) == r.requested + r.variants.Keys
  {
  }

  /** The store after the response has decided the flags in `done`. */
  ghost predicate Decided(s: Store, r: Response, done: set<string>, t: Store, any: bool) {
    && t == ReceiveSome(s, r, Taken(s, r) * done)
    && (any <==> Taken(s, r) * done != {})
  }

  lemma DecidedNone(s: Store, r: Response)
    ensures Decided(s, r, {}, s, false)
  {
    assert Taken(s, r) * {} == {};
    ReceiveNone(s, r);
  }

  lemma DecidedAll(s: Store, r: Response, done: set<string>, t: Store, any: bool)
    requires Decided(s, r, done, t, any) && Candidates(r) - done == {}
    ensures t == ReceiveKeys(s, r) && (any <==> Taken(s, r) != {})
  {
    forall k | k in Candidates(r)
      ensures k in done
    {
      assert k !in Candidates(r) - done;
    }
    assert Taken(s, r) * done == Taken(s, r);
    ReceiveTaken(s, r);
  }

  lemma DecidedOneMore(s: Store, r: Response, done: set<string>, key: string, t: Store, u: Store, any: bool, stored: bool)
    requires Decided(s, r, done, t, any) && key in Candidates(r) && key !in done
    requires stored <==> r.sequence > CoveredBy(t, key)
    requires !stored ==> u == t
    requires stored ==> u == FetchOrdering.Store(if key in r.variants then t.cache[key := r.variants[key]] else t.cache - {key},
                                                 t.keySequences[key := r.sequence], t.fullSequence)
    ensures Decided(s, r, done + {key}, u, any || stored)
  {
    var before := Taken(s, r) * done;
    TakenOneMore(s, r, done, key);
    UntouchedKey(s, r, before, key);
    ReceiveOneMore(s, r, before, key);
    hide Taken, ReceiveSome, CoveredBy, Candidates;
  }

  lemma ReceiveIs(s: Store, r: Response)
    ensures Receive(s, r) == if IsFull(r) then ReceiveFull(s, r) else ReceiveKeys(s, r)
  {
  }
}
