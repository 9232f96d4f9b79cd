/**
  The life of fetches (src/experiment/experimentClient.ts): they begin, complete or fail in any
  order, and a user change, a clear or a stop invalidates everything in flight. The variants that were
  persisted earlier are loaded meanwhile: nothing waits for the load, and when it settles it replaces
  the whole cache.
 */
module FetchLifecycle {
  import opened Wrappers
  import opened FetchOrdering

  /** A fetch in flight, with what it remembers from its start. */
  datatype Fetch = Fetch(sequence: nat, generation: nat, retry: bool, requested: set<string>)

  datatype Client = Client(
    store: Store,
    fetchSequence: nat,
    storedFetchSequence: nat,
    generation: nat,
    retrying: bool,
    metadataSequence: nat,
    lastFetchTime: Option<nat>,
    lastFetchFailure: Option<string>,
    loading: bool,             // the load has not settled
    // history
    begun: set<Fetch>,
    arrived: set<nat>,         // fetches whose response has come in
    base: Store,               // the store at the last invalidation, with what was loaded before anything was written
    received: seq<Response>,   // responses of later fetches, in order of arrival
    written: bool,             // a response has been stored or the cache has been cleared
    spoiled: set<string>)      // flags the load has changed, and nothing received since has decided

  const EMPTY_CACHE: Store := Store(map[], map[], 0)

  /** A new client. The cache is empty and the load under way. */
  function Start(): Client {
    Client(EMPTY_CACHE, 0, 0, 0, false, 0, None, None, true, {}, {}, EMPTY_CACHE, [], false, {})
  }

  // --------------------------------------------------------------- the steps

  function NextFetch(c: Client, retry: bool, requested: set<string>): Fetch {
    Fetch(c.fetchSequence + 1, c.generation, retry, requested)
  }

  function Begin(c: Client, retry: bool, requested: set<string>): Client {
    c.(fetchSequence := c.fetchSequence + 1,
       retrying := c.retrying && !retry,
       begun := c.begun + {NextFetch(c, retry, requested)})
  }

  function ResponseOf(f: Fetch, variants: Variants): Response {
    Response(f.sequence, f.requested, variants)
  }

  /** Did the response change anything? */
  predicate Stores(s: Store, r: Response) {
    if IsFull(r) then r.sequence > s.fullSequence else Taken(s, r) != {}
  }

  /** The flags that stay spoiled: those the response does not decide. */
  function StillSpoiled(s: Store, r: Response, spoiled: set<string>): set<string> {
    if !Stores(s, r) then spoiled
    else if IsFull(r) then set k | k in spoiled && k in s.keySequences && s.keySequences[k] > r.sequence
    else spoiled - Taken(s, r)
  }

  function Arrive(c: Client, f: Fetch, variants: Variants): Client {
    var r := ResponseOf(f, variants);
    var next := c.(arrived := c.arrived + {f.sequence},
                   received := if f.generation == c.generation then c.received + [r] else c.received);
    if !Stores(c.store, r) then next
    else
      next.(store := Receive(c.store, r), written := true, spoiled := StillSpoiled(c.store, r, c.spoiled),
            storedFetchSequence := if f.sequence > c.storedFetchSequence then f.sequence else c.storedFetchSequence)
  }

  /** After a stored response has been persisted. */
  function Succeed(c: Client, f: Fetch, now: nat): Client {
    if c.storedFetchSequence == f.sequence && f.sequence >= c.metadataSequence then
      c.(metadataSequence := f.sequence, lastFetchTime := Some(now), lastFetchFailure := None)
    else c
  }

  function Fail(c: Client, f: Fetch, error: string, worthRetrying: bool): Client {
    var next :=
      if f.sequence >= c.storedFetchSequence && f.sequence >= c.metadataSequence then
        c.(metadataSequence := f.sequence, lastFetchFailure := Some(error))
      else c;
    if f.retry && f.generation == c.generation && worthRetrying then next.(retrying := true) else next
  }

  function Invalidate(c: Client): Client {
    var n := c.fetchSequence + 1;
    var store := Store(c.store.cache, map[], n);
    c.(generation := c.generation + 1, fetchSequence := n, storedFetchSequence := n, store := store,
       retrying := false, base := store, received := [], spoiled := {})
  }

  function Clear(c: Client): Client {
    var next := Invalidate(c);
    var store := next.store.(cache := map[]);
    next.(store := store, base := store, written := true)
  }

  function Differing(a: Variants, b: Variants): set<string> {
    set k | k in a.Keys + b.Keys && FetchOrdering.Lookup(a, k) != FetchOrdering.Lookup(b, k)
  }

  /** The load settles: whatever the cache holds gives way to what was persisted. */
  function Load(c: Client, stored: Variants): Client {
    var next := c.(loading := false, store := c.store.(cache := stored));
    if !c.written then next.(base := c.base.(cache := stored))
    else next.(spoiled := c.spoiled + Differing(stored, c.store.cache))
  }

  datatype Event =
    | Begins(retry: bool, requested: set<string>)
    | Arrives(fetch: Fetch, variants: Variants)
    | Succeeds(fetch: Fetch, now: nat)
    | Fails(fetch: Fetch, error: string, worthRetrying: bool)
    | StopsRetrying
    | Invalidates
    | Clears
    | Loads(stored: Variants)
    | LoadFails

  /** A response comes in once, and only for a fetch that was begun; the load settles once, at any time. */
  predicate Enabled(c: Client, e: Event) {
    match e
    case Arrives(f, _) => f in c.begun && f.sequence !in c.arrived
    case Succeeds(f, _) => f in c.begun
    case Fails(f, _, _) => f in c.begun
    case Loads(_) => c.loading
    case LoadFails => c.loading
    case _ => true
  }

  function Next(c: Client, e: Event): Client {
    match e
    case Begins(retry, requested) => Begin(c, retry, requested)
    case Arrives(f, variants) => Arrive(c, f, variants)
    case Succeeds(f, now) => Succeed(c, f, now)
    case Fails(f, error, worthRetrying) => Fail(c, f, error, worthRetrying)
    case StopsRetrying => c.(retrying := false)
    case Invalidates => Invalidate(c)
    case Clears => Clear(c)
    case Loads(stored) => Load(c, stored)
    case LoadFails => c.(loading := false)
  }

  // ------------------------------------------------------------- the invariant

  /** Fetches begun before the last invalidation lie below it, later ones above. */
  ghost predicate Numbered(c: Client) {
    && (forall f :: f in c.begun ==> 1 <= f.sequence <= c.fetchSequence && f.generation <= c.generation)
    && (forall f :: f in c.begun ==> (f.generation == c.generation <==> f.sequence > c.base.fullSequence))
    && (forall f :: f in c.begun ==> f.sequence != c.base.fullSequence)
    && (forall f, g :: f in c.begun && g in c.begun && f.sequence == g.sequence ==> f == g)
    && c.base.fullSequence <= c.fetchSequence
    && forall n :: n in c.arrived ==> n <= c.fetchSequence
  }

  /** The sequence numbers are the same, and so are all flags but the spoiled ones. */
  ghost predicate Agrees(s: Store, t: Store, spoiled: set<string>) {
    && s.keySequences == t.keySequences && s.fullSequence == t.fullSequence
    && forall k :: k !in spoiled ==> FetchOrdering.Lookup(s.cache, k) == FetchOrdering.Lookup(t.cache, k)
  }

  /** But for what the load has spoiled, the store is what the responses since the last invalidation make of it. */
  ghost predicate Ordered(c: Client) {
    && Agrees(c.store, ReceiveAll(c.base, c.received), c.spoiled)
    && Fresh(c.base, c.received)
    && (forall i :: 0 <= i < |c.received| ==> c.received[i].sequence in c.arrived)
    && c.base.fullSequence <= c.store.fullSequence
  }

  ghost predicate Sequenced(c: Client) {
    && c.base.fullSequence <= c.storedFetchSequence <= c.fetchSequence
    && c.store.fullSequence <= c.storedFetchSequence
    && c.metadataSequence <= c.fetchSequence
    && forall k :: k in c.store.keySequences ==> c.store.keySequences[k] <= c.storedFetchSequence
  }

  /** Until something is written the cache is what it was at the start, or what was loaded. */
  ghost predicate Unwritten(c: Client) {
    && (!c.written ==> c.received == [] && c.store == c.base && c.spoiled == {})
    && (!c.written && c.loading ==> c.store.cache == map[])
    && (c.spoiled != {} ==> !c.loading)
  }

  ghost predicate Invariant(c: Client) {
    Numbered(c) && Ordered(c) && Sequenced(c) && Unwritten(c)
  }

  lemma StartInvariant()
    ensures Invariant(Start())
  {
  }

  /** A response that stores nothing changes nothing. */
  lemma UnstoredChangesNothing(s: Store, r: Response)
    requires !Stores(s, r)
    ensures Receive(s, r) == s
  {
  }

  /** The first response after an invalidation always stores something. */
  lemma FirstResponseStores(s: Store, r: Response)
    requires s.keySequences == map[] && r.sequence > s.fullSequence
    ensures Stores(s, r)
  {
    if !IsFull(r) {
      var k :| k in r.requested;
      assert k in Taken(s, r);
    }
  }

  lemma StaleStoresNothing(s: Store, r: Response)
    requires r.sequence <= s.fullSequence
    ensures !Stores(s, r)
  {
    if !IsFull(r) {
      assert Taken(s, r) == {};
    }
  }

  /** A response does the same to both stores, and what it decides agrees from then on. */
  lemma ReceiveAgrees(s: Store, t: Store, r: Response, spoiled: set<string>)
    requires Agrees(s, t, spoiled)
    ensures Agrees(Receive(s, r), Receive(t, r), StillSpoiled(s, r, spoiled))
  {
    if IsFull(r) {
      FullAgrees(s, t, r, spoiled);
    } else {
      KeysAgree(s, t, r, spoiled);
    }
  }

  lemma FullAgrees(s: Store, t: Store, r: Response, spoiled: set<string>)
    requires IsFull(r) && Agrees(s, t, spoiled)
    ensures Agrees(ReceiveFull(s, r), ReceiveFull(t, r), StillSpoiled(s, r, spoiled))
  {
    forall k | k !in StillSpoiled(s, r, spoiled)
      ensures FetchOrdering.Lookup(ReceiveFull(s, r).cache, k) == FetchOrdering.Lookup(ReceiveFull(t, r).cache, k)
    {
      assert k !in spoiled ==> FetchOrdering.Lookup(s.cache, k) == FetchOrdering.Lookup(t.cache, k);
    }
  }

  lemma KeysAgree(s: Store, t: Store, r: Response, spoiled: set<string>)
    requires !IsFull(r) && Agrees(s, t, spoiled)
    ensures Agrees(ReceiveKeys(s, r), ReceiveKeys(t, r), StillSpoiled(s, r, spoiled))
  {
    assert Taken(s, r) == Taken(t, r) by {
      assert forall k :: CoveredBy(s, k) == CoveredBy(t, k);
    }
    hide Taken, CoveredBy;
    forall k | k !in StillSpoiled(s, r, spoiled)
      ensures FetchOrdering.Lookup(ReceiveKeys(s, r).cache, k) == FetchOrdering.Lookup(ReceiveKeys(t, r).cache, k)
    {
      assert k !in spoiled ==> FetchOrdering.Lookup(s.cache, k) == FetchOrdering.Lookup(t.cache, k);
    }
  }

  /** A response of the current generation joins those received. */
  lemma ReceivedOneMore(base: Store, received: seq<Response>, s: Store, r: Response, spoiled: set<string>)
    requires Fresh(base, received) && r.sequence > base.fullSequence
    requires forall q :: q in received ==> q.sequence != r.sequence
    requires Agrees(s, ReceiveAll(base, received), spoiled)
    ensures Fresh(base, received + [r])
    ensures Agrees(Receive(s, r), ReceiveAll(base, received + [r]), StillSpoiled(s, r, spoiled))
    ensures s.fullSequence <= Receive(s, r).fullSequence
  {
    assert (received + [r])[..|received|] == received;
    ReceiveAgrees(s, ReceiveAll(base, received), r, spoiled);
    hide ReceiveKeys, Taken, Agrees, StillSpoiled;
    ReceiveKeysKeepsFull(s, r);
  }

  lemma ReceiveKeysKeepsFull(s: Store, r: Response)
    ensures ReceiveKeys(s, r).fullSequence == s.fullSequence
  {
  }

  /** What a response does to the store, whether or not it stores anything. */
  lemma ArriveReceives(c: Client, f: Fetch, variants: Variants)
    ensures Arrive(c, f, variants).store == Receive(c.store, ResponseOf(f, variants))
    ensures Arrive(c, f, variants).spoiled == StillSpoiled(c.store, ResponseOf(f, variants), c.spoiled)
  {
    var r := ResponseOf(f, variants);
    if !Stores(c.store, r) {
      UnstoredChangesNothing(c.store, r);
    }
  }

  lemma ArriveStaysOrdered(c: Client, f: Fetch, variants: Variants)
    requires Invariant(c) && Enabled(c, Arrives(f, variants))
    ensures Ordered(Arrive(c, f, variants))
  {
    var r := ResponseOf(f, variants);
    ArriveReceives(c, f, variants);
    hide Receive, ReceiveAll, Stores, Fresh, Agrees, StillSpoiled;
    if f.generation == c.generation {
      assert forall q :: q in c.received ==> q.sequence != r.sequence;
      ReceivedOneMore(c.base, c.received, c.store, r, c.spoiled);
    } else {
      StaleStoresNothing(c.store, r);
    }
  }

  lemma ArriveStaysUnwritten(c: Client, f: Fetch, variants: Variants)
    requires Invariant(c) && Enabled(c, Arrives(f, variants))
    ensures Unwritten(Arrive(c, f, variants))
  {
    var r := ResponseOf(f, variants);
    if !c.written && f.generation == c.generation {
      FirstResponseStores(c.store, r);
    }
    hide Receive, Stores, ReceiveAll;
  }

  lemma ArriveStaysSequenced(c: Client, f: Fetch, variants: Variants)
    requires Invariant(c) && Enabled(c, Arrives(f, variants))
    ensures Sequenced(Arrive(c, f, variants)) && Numbered(Arrive(c, f, variants))
  {
    hide Ordered, Unwritten, Stores, ReceiveKeys, ReceiveAll, Taken;
    ReceiveKeysKeepsFull(c.store, ResponseOf(f, variants));
    KeysStayBelow(c.store, ResponseOf(f, variants), Arrive(c, f, variants).storedFetchSequence);
  }

  lemma KeysStayBelow(s: Store, r: Response, bound: nat)
    requires forall k :: k in s.keySequences ==> s.keySequences[k] <= bound
    ensures r.sequence <= bound ==>
              forall k :: k in Receive(s, r).keySequences ==> Receive(s, r).keySequences[k] <= bound
  {
  }

  /** The response of a fetch that is only now begun decides what it is about, if it comes in before anything else happens. */
  lemma NewFetchDecides(c: Client, retry: bool, requested: set<string>, variants: Variants)
    requires Invariant(c)
    ensures var begun := Begin(c, retry, requested);
            var f := NextFetch(c, retry, requested);
            var stored := Arrive(begun, f, variants);
            && f in begun.begun && Enabled(begun, Arrives(f, variants))
            && Stores(begun.store, ResponseOf(f, variants))
            && stored.storedFetchSequence == f.sequence >= stored.metadataSequence
            && (requested == {} ==> stored.store.cache == variants)
            && (requested != {} ==> forall k ::
                  FetchOrdering.Lookup(stored.store.cache, k) ==
                  FetchOrdering.Lookup(if k in requested || k in variants then variants else c.store.cache, k))
  {
    hide Ordered, Unwritten;
    var r := ResponseOf(NextFetch(c, retry, requested), variants);
    if requested != {} {
      assert Taken(c.store, r) == requested + variants.Keys;
      var k :| k in requested;
    } else {
      assert Retained(c.store, r.sequence) == map[];
    }
  }

  lemma ArriveKeeps(c: Client, f: Fetch, variants: Variants)
    requires Invariant(c) && Enabled(c, Arrives(f, variants))
    ensures Invariant(Arrive(c, f, variants))
  {
    ArriveStaysOrdered(c, f, variants);
    ArriveStaysUnwritten(c, f, variants);
    ArriveStaysSequenced(c, f, variants);
    hide Ordered, Unwritten, Sequenced, Numbered, Arrive;
  }

  lemma BeginKeeps(c: Client, retry: bool, requested: set<string>)
    requires Invariant(c)
    ensures Invariant(Begin(c, retry, requested))
  {
    hide Fresh, ReceiveAll;
  }

  lemma InvalidateKeeps(c: Client)
    requires Invariant(c)
    ensures Invariant(Invalidate(c)) && Invariant(Clear(c))
  {
    hide Receive;
  }

  lemma LoadKeepsNumbers(c: Client, stored: Variants)
    requires Numbered(c) && Sequenced(c)
    ensures Numbered(Load(c, stored)) && Sequenced(Load(c, stored))
    ensures Numbered(c.(loading := false)) && Sequenced(c.(loading := false))
  {
    hide Differing;
  }

  lemma LoadKeepsOrder(c: Client, stored: Variants)
    requires Ordered(c) && Unwritten(c) && c.loading
    ensures Ordered(Load(c, stored)) && Unwritten(Load(c, stored))
    ensures Ordered(c.(loading := false)) && Unwritten(c.(loading := false))
  {
    hide Receive;
  }

  lemma LoadKeeps(c: Client, stored: Variants)
    requires Invariant(c) && c.loading
    ensures Invariant(Load(c, stored)) && Invariant(c.(loading := false))
  {
    LoadKeepsNumbers(c, stored);
    LoadKeepsOrder(c, stored);
    hide Numbered, Sequenced, Ordered, Unwritten, Load;
  }

  /** Whether it succeeds or fails, the end of a fetch only touches freshness and retries. */
  lemma EndKeeps(c: Client, next: Client)
    requires Invariant(c) && next.metadataSequence <= c.fetchSequence
    requires next == c.(metadataSequence := next.metadataSequence, lastFetchTime := next.lastFetchTime,
                        lastFetchFailure := next.lastFetchFailure, retrying := next.retrying)
    ensures Invariant(next)
  {
    hide Fresh, ReceiveAll;
  }

  lemma StepKeeps(c: Client, e: Event)
    requires Invariant(c) && Enabled(c, e)
    ensures Invariant(Next(c, e))
  {
    hide Ordered;
    match e
    case Begins(retry, requested) => BeginKeeps(c, retry, requested);
    case Arrives(f, variants) => ArriveKeeps(c, f, variants);
    case Succeeds(f, now) => EndKeeps(c, Succeed(c, f, now));
    case Fails(f, error, worthRetrying) => EndKeeps(c, Fail(c, f, error, worthRetrying));
    case StopsRetrying => EndKeeps(c, c.(retrying := false));
    case Invalidates => InvalidateKeeps(c);
    case Clears => InvalidateKeeps(c);
    case Loads(stored) => LoadKeeps(c, stored);
    case LoadFails => LoadKeeps(c, map[]);
  }

  ghost predicate Runnable(c: Client, trace: seq<Event>)
    decreases |trace|
  {
    trace == [] || (Enabled(c, trace[0]) && Runnable(Next(c, trace[0]), trace[1..]))
  }

  ghost function After(c: Client, trace: seq<Event>): Client
    requires Runnable(c, trace)
    decreases |trace|
  {
    if trace == [] then c else After(Next(c, trace[0]), trace[1..])
  }

  lemma {:induction false} InvariantAlways(c: Client, trace: seq<Event>)
    requires Invariant(c) && Runnable(c, trace)
    ensures Invariant(After(c, trace))
    decreases |trace|
  {
    hide Invariant, Enabled, Next;
    if trace != [] {
      StepKeeps(c, trace[0]);
      InvariantAlways(Next(c, trace[0]), trace[1..]);
    }
  }

  /** The flag shows what the newest response about it since the last invalidation says. */
  ghost predicate ShowsNewestOf(c: Client, k: string) {
    FetchOrdering.Lookup(c.store.cache, k) == Expected(c.base, c.received, k)
  }

  lemma AgreeingFlagShowsNewest(c: Client, k: string)
    requires Invariant(c) && !Unsettled(c.received, k)
    ensures FetchOrdering.Lookup(ReceiveAll(c.base, c.received).cache, k) == Expected(c.base, c.received, k)
    ensures k !in c.spoiled ==> ShowsNewestOf(c, k)
  {
    StoreKnows(c.base, c.received);
    var s := ReceiveAll(c.base, c.received);
    assert k !in c.spoiled ==> FetchOrdering.Lookup(c.store.cache, k) == FetchOrdering.Lookup(s.cache, k);
    hide ReceiveAll, Newest, Supplied, Fresh, Ordered, Numbered, Sequenced, Unwritten;
    assert Knows(c.base, c.received, s, k);
  }

  /**
    In every run: a flag that is settled, and that the load has not changed after something had been
    written, shows what the newest response about it since the last invalidation says.
   */
  lemma NewestWinsAlways(trace: seq<Event>, k: string)
    requires Runnable(Start(), trace)
    ensures var c := After(Start(), trace);
            k !in c.spoiled && !Unsettled(c.received, k) ==> ShowsNewestOf(c, k)
  {
    StartInvariant();
    InvariantAlways(Start(), trace);
    var c := After(Start(), trace);
    hide After, Runnable, Unsettled, ShowsNewestOf, Invariant;
    if k !in c.spoiled && !Unsettled(c.received, k) {
      AgreeingFlagShowsNewest(c, k);
    }
  }

  // ------------------------------------------------------------------ the load

  /**
    When the load settles, a settled flag goes on showing the newest response exactly if nothing had
    been written before, neither by a response nor by a clear, or if what was persisted for it is
    what was cached anyway.
   */
  lemma LoadKeepsNewestIff(c: Client, stored: Variants, k: string)
    requires Invariant(c) && c.loading && !Unsettled(c.received, k)
    ensures ShowsNewestOf(Load(c, stored), k) <==>
            !c.written || FetchOrdering.Lookup(stored, k) == FetchOrdering.Lookup(c.store.cache, k)
    ensures k !in Load(c, stored).spoiled <==>
            !c.written || FetchOrdering.Lookup(stored, k) == FetchOrdering.Lookup(c.store.cache, k)
  {
    AgreeingFlagShowsNewest(c, k);
    LoadKeeps(c, stored);
    SpoiledIs(c, stored, k);
    var d := Load(c, stored);
    hide Unsettled, Invariant, Differing;
    assert d.received == c.received;
    AgreeingFlagShowsNewest(d, k);
  }

  lemma SpoiledIs(c: Client, stored: Variants, k: string)
    requires Invariant(c) && c.loading
    ensures k in Load(c, stored).spoiled <==>
            c.written && FetchOrdering.Lookup(stored, k) != FetchOrdering.Lookup(c.store.cache, k)
    ensures c.spoiled == {} && (c.written ==> Load(c, stored).base == c.base)
  {
  }

  /** A flag that the load has changed is right again once a response decides it. */
  lemma ResponseHeals(c: Client, f: Fetch, variants: Variants, k: string)
    requires Invariant(c) && Enabled(c, Arrives(f, variants)) && f.generation == c.generation
    requires f.sequence > CoveredBy(c.store, k) && Covers(ResponseOf(f, variants), k)
    requires !Unsettled(Arrive(c, f, variants).received, k)
    ensures ShowsNewestOf(Arrive(c, f, variants), k) && k !in Arrive(c, f, variants).spoiled
  {
    var r := ResponseOf(f, variants);
    ArriveKeeps(c, f, variants);
    ArriveReceives(c, f, variants);
    assert k !in StillSpoiled(c.store, r, c.spoiled) by {
      if !IsFull(r) {
        assert k in Taken(c.store, r);
      }
    }
    hide Invariant, Unsettled, Arrive, StillSpoiled, Enabled;
    AgreeingFlagShowsNewest(Arrive(c, f, variants), k);
  }

  /** No response comes in, and nobody clears the cache. */
  predicate Quiet(trace: seq<Event>) {
    forall i :: 0 <= i < |trace| ==> !trace[i].Arrives? && !trace[i].Clears?
  }

  /** If the load settles in the trace, nothing had been persisted. */
  predicate LoadsNothing(trace: seq<Event>) {
    forall i :: 0 <= i < |trace| && trace[i].Loads? ==> trace[i].stored == map[]
  }

  lemma {:induction false} OneLoadOnly(c: Client, trace: seq<Event>)
    requires Runnable(c, trace) && !c.loading && Quiet(trace)
    ensures After(c, trace).store.cache == c.store.cache && LoadsNothing(trace)
    decreases |trace|
  {
    if trace != [] {
      var next := Next(c, trace[0]);
      assert Quiet(trace[1..]) && !trace[0].Arrives? && !trace[0].Clears? && !trace[0].Loads?;
      assert next.store.cache == c.store.cache && !next.loading;
      hide Next, Enabled, Quiet;
      OneLoadOnly(next, trace[1..]);
      LoadsNothingFrom(trace);
    }
  }

  lemma LoadsNothingFrom(trace: seq<Event>)
    requires trace != []
    ensures LoadsNothing(trace) <==> LoadsNothing(trace[1..]) && (trace[0].Loads? ==> trace[0].stored == map[])
  {
    if LoadsNothing(trace[1..]) && (trace[0].Loads? ==> trace[0].stored == map[]) {
      forall i | 0 <= i < |trace| && trace[i].Loads?
        ensures trace[i].stored == map[]
      {
        if i > 0 {
          assert trace[1..][i - 1] == trace[i];
        }
      }
    }
  }

  lemma {:induction false} EmptyStaysEmptyIff(c: Client, trace: seq<Event>)
    requires Runnable(c, trace) && Quiet(trace) && c.store.cache == map[]
    ensures After(c, trace).store.cache == map[] <==> LoadsNothing(trace)
    decreases |trace|
  {
    if trace != [] {
      var next := Next(c, trace[0]);
      assert Quiet(trace[1..]) && !trace[0].Arrives? && !trace[0].Clears?;
      LoadsNothingFrom(trace);
      if trace[0].Loads? {
        OneLoadOnly(next, trace[1..]);
      } else {
        assert next.store.cache == map[];
        hide Next, Enabled, Quiet, LoadsNothing;
        EmptyStaysEmptyIff(next, trace[1..]);
      }
    }
  }

  /**
    A cleared cache that no response fills stays empty exactly if nothing was persisted, or the load
    had settled before, or does not settle: otherwise the load undoes the clear.
   */
  lemma ClearedStaysEmptyIff(c: Client, trace: seq<Event>)
    requires Runnable(Clear(c), trace) && Quiet(trace)
    ensures After(Clear(c), trace).store.cache == map[] <==> LoadsNothing(trace)
  {
    hide Quiet, LoadsNothing;
    EmptyStaysEmptyIff(Clear(c), trace);
  }

  const FLAG: string := "flag"
  const OLD_VARIANT: Variants := map[FLAG := Variant("off", "off")]
  const NEW_VARIANT: Variants := map[FLAG := Variant("on", "on")]

  lemma OneEvent(c: Client, e: Event)
    requires Enabled(c, e)
    ensures Runnable(c, [e]) && After(c, [e]) == Next(c, e)
  {
    assert [e][1..] == [];
    assert After(Next(c, e), []) == Next(c, e);
  }

  lemma OneEventFirst(c: Client, e: Event, rest: seq<Event>)
    requires Enabled(c, e) && Runnable(Next(c, e), rest)
    ensures Runnable(c, [e] + rest) && After(c, [e] + rest) == After(Next(c, e), rest)
  {
    assert ([e] + rest)[1..] == rest;
  }

  /** A response for all flags is stored, and then the load brings back what was persisted before it. */
  lemma LoadReplacesNewerResponse() returns (trace: seq<Event>)
    ensures Runnable(Start(), trace) && trace == [Begins(false, {}), Arrives(Fetch(1, 0, false, {}), NEW_VARIANT), Loads(OLD_VARIANT)]
    ensures var c := After(Start(), trace);
            && c.received == [Response(1, {}, NEW_VARIANT)] && Settled(c.received)
            && Expected(c.base, c.received, FLAG) == Some(NEW_VARIANT[FLAG])
            && FetchOrdering.Lookup(c.store.cache, FLAG) == Some(OLD_VARIANT[FLAG])
  {
    var f, r := Fetch(1, 0, false, {}), Response(1, {}, NEW_VARIANT);
    var c0 := Start();
    var c1 := Begin(c0, false, {});
    var c2 := Arrive(c1, f, NEW_VARIANT);
    var c3 := Load(c2, OLD_VARIANT);
    trace := [Begins(false, {}), Arrives(f, NEW_VARIANT), Loads(OLD_VARIANT)];
    assert c1.begun == {f} && c2.received == [r] && c2.loading;
    OneEvent(c2, Loads(OLD_VARIANT));
    OneEventFirst(c1, Arrives(f, NEW_VARIANT), [Loads(OLD_VARIANT)]);
    OneEventFirst(c0, Begins(false, {}), [Arrives(f, NEW_VARIANT), Loads(OLD_VARIANT)]);
    assert trace == [Begins(false, {})] + [Arrives(f, NEW_VARIANT), Loads(OLD_VARIANT)];
    assert [Arrives(f, NEW_VARIANT), Loads(OLD_VARIANT)] == [Arrives(f, NEW_VARIANT)] + [Loads(OLD_VARIANT)];
    assert [r][..0] == [];
    forall k
      ensures !Unsettled([r], k) && Newest([r], k) == Some(r)
    {
      assert Newest([], k) == None;
    }
  }

  /** A cache that is cleared right after the start is full again once the load settles. */
  lemma LoadUndoesClear() returns (trace: seq<Event>)
    ensures Runnable(Start(), trace) && trace == [Clears, Loads(OLD_VARIANT)]
    ensures After(Start(), trace).store.cache == OLD_VARIANT && After(Start(), trace[..1]).store.cache == map[]
  {
    trace := [Clears, Loads(OLD_VARIANT)];
    var c1 := Clear(Start());
    var c2 := Load(c1, OLD_VARIANT);
    OneEvent(Start(), Clears);
    OneEvent(c1, Loads(OLD_VARIANT));
    OneEventFirst(Start(), Clears, [Loads(OLD_VARIANT)]);
    assert trace == [Clears] + [Loads(OLD_VARIANT)] && trace[..1] == [Clears];
  }

  // ----------------------------------------------------------------- the fence

  /** The fetch was begun before the last invalidation. */
  predicate Stale(c: Client, f: Fetch) {
    f in c.begun && f.generation < c.generation
  }

  /** Nothing that callers or storage can see changes. */
  predicate SameToCallers(c: Client, d: Client) {
    && c.store == d.store && c.storedFetchSequence == d.storedFetchSequence
    && c.metadataSequence == d.metadataSequence && c.lastFetchTime == d.lastFetchTime
    && c.lastFetchFailure == d.lastFetchFailure && c.retrying == d.retrying
  }

  predicate EndOf(e: Event, f: Fetch) {
    (e.Arrives? || e.Succeeds? || e.Fails?) && e.fetch == f
  }

  /** However a stale fetch ends, it changes nothing: no variant, no freshness, no retry. */
  lemma StaleFetchChangesNothing(c: Client, f: Fetch, e: Event)
    requires Invariant(c) && Enabled(c, e) && EndOf(e, f) && Stale(c, f)
    ensures SameToCallers(c, Next(c, e))
    ensures e.Arrives? ==> !Stores(c.store, ResponseOf(f, e.variants))
  {
    if e.Arrives? {
      StaleIsIgnored(c.store, ResponseOf(f, e.variants));
      StaleStoresNothing(c.store, ResponseOf(f, e.variants));
    }
  }

  lemma GenerationsGrow(c: Client, e: Event)
    requires Enabled(c, e)
    ensures c.begun <= Next(c, e).begun && c.generation <= Next(c, e).generation
  {
  }

  lemma {:induction false} StaleStaysStale(c: Client, trace: seq<Event>, f: Fetch)
    requires Runnable(c, trace) && Stale(c, f)
    ensures Stale(After(c, trace), f)
    decreases |trace|
  {
    hide Next, Enabled;
    if trace != [] {
      GenerationsGrow(c, trace[0]);
      StaleStaysStale(Next(c, trace[0]), trace[1..], f);
    }
  }

  /** The fence: after an invalidation or a clear, no fetch begun earlier ever changes anything again. */
  lemma InvalidationFences(c: Client, fence: Event, trace: seq<Event>, f: Fetch, e: Event)
    requires Invariant(c) && f in c.begun && (fence.Invalidates? || fence.Clears?) && Runnable(Next(c, fence), trace)
    requires Enabled(After(Next(c, fence), trace), e) && EndOf(e, f)
    ensures SameToCallers(After(Next(c, fence), trace), Next(After(Next(c, fence), trace), e))
  {
    StepKeeps(c, fence);
    var fenced := Next(c, fence);
    assert Stale(fenced, f);
    InvariantAlways(fenced, trace);
    StaleStaysStale(fenced, trace, f);
    hide Invariant, After, Runnable, Next, SameToCallers, Enabled;
    StaleFetchChangesNothing(After(fenced, trace), f, e);
  }

  /** Freshness only ever moves forward. */
  lemma {:induction false} MetadataNeverDecreases(c: Client, trace: seq<Event>)
    requires Runnable(c, trace)
    ensures c.metadataSequence <= After(c, trace).metadataSequence
    decreases |trace|
  {
    if trace != [] {
      assert c.metadataSequence <= Next(c, trace[0]).metadataSequence;
      hide Next, Enabled;
      MetadataNeverDecreases(Next(c, trace[0]), trace[1..]);
    }
  }
}
