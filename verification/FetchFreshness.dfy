/**
  What the experiment client reports about its fetches (src/experiment/experimentClient.ts): when it
  last had a fresh response, how its newest fetch failed, and whether retries are under way. Each is
  read off the whole run, without the sequence numbers the client compares.
 */
module FetchFreshness {
  import opened Wrappers
  import opened FetchOrdering
  import opened FetchLifecycle

  // ------------------------------------------------- runs grow at their end

  lemma {:induction false} OneMore(c: Client, trace: seq<Event>, e: Event)
    requires Runnable(c, trace + [e])
    ensures Runnable(c, trace) && Enabled(After(c, trace), e)
    ensures After(c, trace + [e]) == Next(After(c, trace), e)
    decreases |trace|
  {
    hide Enabled, Next;
    if trace == [] {
      assert trace + [e] == [e] && [e][1..] == [];
      assert After(Next(c, e), []) == Next(c, e);
    } else {
      assert (trace + [e])[1..] == trace[1..] + [e];
      OneMore(Next(c, trace[0]), trace[1..], e);
    }
  }

  lemma {:induction false} PrefixRunnable(c: Client, trace: seq<Event>, n: nat)
    requires Runnable(c, trace) && n <= |trace|
    ensures Runnable(c, trace[..n])
    decreases |trace| - n
  {
    hide Runnable, After, Enabled, Next;
    if n < |trace| {
      PrefixRunnable(c, trace, n + 1);
      assert trace[..n + 1] == trace[..n] + [trace[n]];
      OneMore(c, trace[..n], trace[n]);
    } else {
      assert trace[..n] == trace;
    }
  }

  /** The client when the n-th event comes. */
  ghost function Before(trace: seq<Event>, n: nat): Client
    requires Runnable(Start(), trace) && n < |trace|
  {
    PrefixRunnable(Start(), trace, n);
    After(Start(), trace[..n])
  }

  lemma BeforeOneMore(trace: seq<Event>, e: Event, n: nat)
    requires Runnable(Start(), trace + [e]) && Runnable(Start(), trace) && n <= |trace|
    ensures Before(trace + [e], n) == if n < |trace| then Before(trace, n) else After(Start(), trace)
  {
    hide Runnable, After;
    assert (trace + [e])[..n] == trace[..n];
    assert n == |trace| ==> trace[..n] == trace;
  }

  // ------------------------------------------------------------- freshness

  /** The n-th event is a response that is stored. */
  ghost predicate StoredAt(trace: seq<Event>, n: nat)
    requires Runnable(Start(), trace)
    ensures StoredAt(trace, n) ==> n < |trace| && trace[n].Arrives?
  {
    n < |trace| && trace[n].Arrives? && Stores(Before(trace, n).store, ResponseOf(trace[n].fetch, trace[n].variants))
  }

  predicate Ends(e: Event) {
    e.Succeeds? || e.Fails?
  }

  /**
    The n-th event ends the newest fetch there is news of: nothing has invalidated it, no response of
    a fetch begun later has been stored, no fetch begun later has failed; and if it succeeds, its
    own response was stored.
   */
  ghost predicate NewestEnd(trace: seq<Event>, n: nat)
    requires Runnable(Start(), trace)
  {
    && n < |trace| && Ends(trace[n])
    && var f := trace[n].fetch;
       && f.generation == Before(trace, n).generation
       && (forall j: nat :: j < n && (StoredAt(trace, j) || trace[j].Fails?) ==> trace[j].fetch.sequence <= f.sequence)
       && (trace[n].Succeeds? ==> exists j: nat :: j < n && StoredAt(trace, j) && trace[j].fetch == f)
  }

  /** The client takes note of the end of this fetch. */
  predicate TakesNote(c: Client, e: Event) {
    && Ends(e)
    && e.fetch.sequence >= c.metadataSequence
    && if e.Succeeds? then c.storedFetchSequence == e.fetch.sequence else c.storedFetchSequence <= e.fetch.sequence
  }

  // ------------------------------- what the sequence numbers say about the run

  ghost predicate StoredMaximum(trace: seq<Event>, c: Client)
    requires Runnable(Start(), trace)
  {
    && (forall j: nat :: StoredAt(trace, j) ==> trace[j].fetch in c.begun && trace[j].fetch.sequence <= c.storedFetchSequence)
    && (c.storedFetchSequence == c.base.fullSequence
        || exists j: nat :: StoredAt(trace, j) && trace[j].fetch.sequence == c.storedFetchSequence)
  }

  ghost predicate NotedMaximum(trace: seq<Event>, c: Client)
    requires Runnable(Start(), trace)
  {
    && (forall j: nat :: j < |trace| && trace[j].Fails? ==>
          trace[j].fetch.sequence <= c.metadataSequence || trace[j].fetch.sequence < c.storedFetchSequence)
    && (c.metadataSequence == 0
        || exists j: nat :: j < |trace| && (StoredAt(trace, j) || trace[j].Fails?) && trace[j].fetch.sequence == c.metadataSequence)
  }

  lemma StoredOneMore(trace: seq<Event>, e: Event, n: nat)
    requires Runnable(Start(), trace + [e]) && Runnable(Start(), trace)
    ensures StoredAt(trace + [e], n) <==>
            StoredAt(trace, n)
            || (n == |trace| && StoresNow(After(Start(), trace), e))
  {
    hide Runnable, After, Stores, ResponseOf;
    if n <= |trace| {
      BeforeOneMore(trace, e, n);
    }
  }

  /** The response changes the store. */
  predicate StoresNow(c: Client, e: Event) {
    e.Arrives? && Stores(c.store, ResponseOf(e.fetch, e.variants))
  }

  /** What one event does to the numbers that are compared. */
  lemma NumbersOneMore(c: Client, e: Event)
    requires Numbered(c) && Sequenced(c) && Enabled(c, e)
    ensures c.begun <= Next(c, e).begun && c.storedFetchSequence <= Next(c, e).storedFetchSequence
    ensures Next(c, e).metadataSequence == if TakesNote(c, e) then e.fetch.sequence else c.metadataSequence
  {
    hide Stores, Receive, StillSpoiled, Differing, NextFetch, Numbered;
  }

  lemma StoredOnlyByArrivals(c: Client, e: Event)
    requires Enabled(c, e)
    ensures var next := Next(c, e);
            && (StoresNow(c, e) ==> e.fetch in c.begun && next.base == c.base)
            && next.storedFetchSequence == (
                 if e.Invalidates? || e.Clears? then next.base.fullSequence
                 else if StoresNow(c, e) && e.fetch.sequence > c.storedFetchSequence then e.fetch.sequence
                 else c.storedFetchSequence)
            && (!(e.Invalidates? || e.Clears?) ==> next.base.fullSequence == c.base.fullSequence)
  {
    hide Stores, Receive;
  }

  lemma StoredStaysMaximum(trace: seq<Event>, e: Event)
    requires Runnable(Start(), trace + [e]) && Runnable(Start(), trace)
    requires var c := After(Start(), trace);
             Enabled(c, e) && Invariant(c) && After(Start(), trace + [e]) == Next(c, e) && StoredMaximum(trace, c)
    ensures StoredMaximum(trace + [e], After(Start(), trace + [e]))
  {
    hide Runnable, After, Stores, StoredAt, Ordered, Unwritten, Numbered, Sequenced, Enabled, Next;
    var c := After(Start(), trace);
    var longer, next := trace + [e], Next(c, e);
    NumbersOneMore(c, e);
    StoredOnlyByArrivals(c, e);
    forall j: nat
      ensures StoredAt(longer, j) <==>
              StoredAt(trace, j) || (j == |trace| && StoresNow(c, e))
    {
      StoredOneMore(trace, e, j);
    }
    if next.storedFetchSequence != next.base.fullSequence {
      if StoresNow(c, e) && e.fetch.sequence > c.storedFetchSequence {
        assert StoredAt(longer, |trace|) && longer[|trace|].fetch.sequence == next.storedFetchSequence;
      } else {
        var j: nat :| StoredAt(trace, j) && trace[j].fetch.sequence == c.storedFetchSequence;
        assert StoredAt(longer, j) && longer[j].fetch.sequence == next.storedFetchSequence;
      }
    }
  }

  lemma NotedStaysMaximum(trace: seq<Event>, e: Event)
    requires Runnable(Start(), trace + [e]) && Runnable(Start(), trace)
    requires var c := After(Start(), trace);
             && Enabled(c, e) && Invariant(c) && After(Start(), trace + [e]) == Next(c, e)
             && StoredMaximum(trace, c) && NotedMaximum(trace, c)
    ensures NotedMaximum(trace + [e], After(Start(), trace + [e]))
  {
    hide Runnable, After, Stores, StoredAt, Ordered, Unwritten, Numbered, Sequenced, Enabled, Next;
    var c := After(Start(), trace);
    var longer, next := trace + [e], Next(c, e);
    NumbersOneMore(c, e);
    StoredOnlyByArrivals(c, e);
    forall j: nat
      ensures StoredAt(trace, j) ==> StoredAt(longer, j)
    {
      StoredOneMore(trace, e, j);
    }
    if next.metadataSequence != 0 {
      if e.Fails? && TakesNote(c, e) {
        assert longer[|trace|].Fails? && longer[|trace|].fetch.sequence == next.metadataSequence;
      } else if e.Succeeds? && TakesNote(c, e) {
        NotedSuccessWasStored(trace, c, e);
        var j: nat :| StoredAt(trace, j) && trace[j].fetch.sequence == c.storedFetchSequence;
        assert StoredAt(longer, j) && longer[j].fetch.sequence == next.metadataSequence;
      } else {
        var j: nat :| j < |trace| && (StoredAt(trace, j) || trace[j].Fails?) && trace[j].fetch.sequence == c.metadataSequence;
        assert (StoredAt(longer, j) || longer[j].Fails?) && longer[j].fetch.sequence == next.metadataSequence;
      }
    }
  }

  lemma NotedSuccessWasStored(trace: seq<Event>, c: Client, e: Event)
    requires Runnable(Start(), trace) && StoredMaximum(trace, c)
    requires Invariant(c) && Enabled(c, e) && e.Succeeds? && TakesNote(c, e)
    ensures exists j: nat :: StoredAt(trace, j) && trace[j].fetch == e.fetch
    ensures c.storedFetchSequence != c.base.fullSequence
  {
    hide Runnable, StoredAt, Ordered, Unwritten;
  }

  ghost predicate Maxima(trace: seq<Event>, c: Client)
    requires Runnable(Start(), trace)
  {
    StoredMaximum(trace, c) && NotedMaximum(trace, c)
  }

  lemma {:induction false} MaximaAlways(trace: seq<Event>)
    requires Runnable(Start(), trace)
    ensures Invariant(After(Start(), trace)) && Maxima(trace, After(Start(), trace))
    decreases |trace|
  {
    hide Runnable, After, Invariant, Enabled, Next, StoredMaximum, NotedMaximum;
    StartInvariant();
    InvariantAlways(Start(), trace);
    if trace == [] {
      MaximaAtStart(trace);
    } else {
      var n := |trace| - 1;
      var init, e := trace[..n], trace[n];
      assert trace == init + [e];
      OneMore(Start(), init, e);
      MaximaAlways(init);
      StoredStaysMaximum(init, e);
      NotedStaysMaximum(init, e);
    }
  }

  lemma MaximaAtStart(trace: seq<Event>)
    requires trace == []
    ensures Runnable(Start(), trace) && After(Start(), trace) == Start() && Maxima(trace, Start())
  {
  }

  /** NewestEnd, for an event that is about to follow the run. */
  ghost predicate NewestNext(trace: seq<Event>, c: Client, e: Event)
    requires Runnable(Start(), trace) && Ends(e)
  {
    var f := e.fetch;
    && f.generation == c.generation
    && (forall j: nat :: j < |trace| && (StoredAt(trace, j) || trace[j].Fails?) ==> trace[j].fetch.sequence <= f.sequence)
    && (e.Succeeds? ==> exists j: nat :: StoredAt(trace, j) && trace[j].fetch == f)
  }

  /** A fetch of this generation lies above the last invalidation; numbers are not shared. */
  lemma FetchAboveFence(c: Client, f: Fetch)
    requires Invariant(c) && f in c.begun
    ensures f.generation == c.generation <==> f.sequence > c.base.fullSequence
    ensures c.base.fullSequence <= c.storedFetchSequence && f.sequence != c.base.fullSequence
    ensures forall g :: g in c.begun && g.sequence == f.sequence ==> f == g
  {
    hide Ordered, Unwritten;
  }

  lemma NotedIsNewest(trace: seq<Event>, c: Client, e: Event)
    requires Runnable(Start(), trace) && Maxima(trace, c) && Invariant(c) && Ends(e) && e.fetch in c.begun && TakesNote(c, e)
    ensures NewestNext(trace, c, e)
  {
    hide Runnable, StoredAt, Invariant;
    FetchAboveFence(c, e.fetch);
  }

  lemma NewestIsNoted(trace: seq<Event>, c: Client, e: Event)
    requires Runnable(Start(), trace) && Maxima(trace, c) && Invariant(c) && Ends(e) && e.fetch in c.begun && NewestNext(trace, c, e)
    ensures TakesNote(c, e)
  {
    hide Runnable, StoredAt, Invariant;
    FetchAboveFence(c, e.fetch);
  }

  /** What an event is about to find is what it finds. */
  lemma NextIsAt(trace: seq<Event>, n: nat)
    requires Runnable(Start(), trace) && n < |trace| && Ends(trace[n])
    requires Runnable(Start(), trace[..n])
    ensures NewestNext(trace[..n], Before(trace, n), trace[n]) <==> NewestEnd(trace, n)
  {
    var init, e := trace[..n], trace[n];
    hide Runnable, After, Stores;
    forall j: nat | j < n
      ensures StoredAt(trace, j) <==> StoredAt(init, j)
    {
      assert init[..j] == trace[..j];
    }
    hide StoredAt, Before;
  }

  lemma NotedIffNewestNext(trace: seq<Event>, c: Client, e: Event)
    requires Runnable(Start(), trace) && Maxima(trace, c) && Invariant(c) && Ends(e) && e.fetch in c.begun
    ensures TakesNote(c, e) <==> NewestNext(trace, c, e)
  {
    hide Runnable, Maxima, Invariant, TakesNote, NewestNext;
    if TakesNote(c, e) {
      NotedIsNewest(trace, c, e);
    }
    if NewestNext(trace, c, e) {
      NewestIsNoted(trace, c, e);
    }
  }

  /** The comparison of sequence numbers picks exactly the ends of the newest fetch. */
  lemma NotedIffNewest(trace: seq<Event>, n: nat)
    requires Runnable(Start(), trace) && n < |trace|
    ensures TakesNote(Before(trace, n), trace[n]) <==> NewestEnd(trace, n)
  {
    var init, e := trace[..n], trace[n];
    PrefixRunnable(Start(), trace, n);
    PrefixRunnable(Start(), trace, n + 1);
    assert trace[..n + 1] == init + [e];
    OneMore(Start(), init, e);
    MaximaAlways(init);
    hide Runnable, After, Invariant, Maxima, NewestNext;
    if Ends(e) {
      hide NewestEnd, TakesNote;
      EndedWasBegun(After(Start(), init), e);
      NextIsAt(trace, n);
      NotedIffNewestNext(init, After(Start(), init), e);
    }
  }

  lemma EndedWasBegun(c: Client, e: Event)
    requires Ends(e) && Enabled(c, e)
    ensures e.fetch in c.begun
  {
  }

  /** Freshness only changes when the client takes note. */
  lemma FreshnessOneMore(c: Client, e: Event)
    ensures var next := Next(c, e);
            if TakesNote(c, e) then
              && next.lastFetchTime == (if e.Succeeds? then Some(e.now) else c.lastFetchTime)
              && next.lastFetchFailure == (if e.Succeeds? then None else Some(e.error))
            else next.lastFetchTime == c.lastFetchTime && next.lastFetchFailure == c.lastFetchFailure
  {
  }

  /** The n-th event is the last of its kind in the run. */
  ghost predicate LastNewestSuccess(trace: seq<Event>, n: nat)
    requires Runnable(Start(), trace)
  {
    && n < |trace| && NewestEnd(trace, n) && trace[n].Succeeds?
    && forall j: nat :: n < j < |trace| && NewestEnd(trace, j) ==> !trace[j].Succeeds?
  }

  ghost predicate LastNewestEnd(trace: seq<Event>, n: nat)
    requires Runnable(Start(), trace)
  {
    && n < |trace| && NewestEnd(trace, n)
    && forall j: nat :: n < j < |trace| ==> !NewestEnd(trace, j)
  }

  lemma NewestBefore(trace: seq<Event>, e: Event, n: nat)
    requires Runnable(Start(), trace + [e]) && Runnable(Start(), trace) && n < |trace|
    ensures NewestEnd(trace + [e], n) <==> NewestEnd(trace, n)
  {
    BeforeOneMore(trace, e, n);
    NotedIffNewest(trace, n);
    NotedIffNewest(trace + [e], n);
    hide Runnable, NewestEnd;
  }

  /**
    In every run: the time of the last fetch is that of the last success which came from the newest
    fetch there was news of when it came, and it is missing if there was none. Older fetches that
    succeed late, and failures, never touch it.
   */
  lemma {:induction false} LastFetchTimeIs(trace: seq<Event>)
    requires Runnable(Start(), trace)
    ensures var c := After(Start(), trace);
            && (c.lastFetchTime.Some? <==> exists n: nat :: LastNewestSuccess(trace, n))
            && forall n: nat :: LastNewestSuccess(trace, n) ==> c.lastFetchTime == Some(trace[n].now)
    decreases |trace|
  {
    hide Runnable, After, NewestEnd, Next, Enabled, TakesNote;
    if trace == [] {
      MaximaAtStart(trace);
    } else {
      var m := |trace| - 1;
      var init, e := trace[..m], trace[m];
      assert trace == init + [e];
      OneMore(Start(), init, e);
      LastFetchTimeIs(init);
      NotedIffNewest(trace, m);
      BeforeOneMore(init, e, m);
      FreshnessOneMore(After(Start(), init), e);
      forall n: nat | n < m
        ensures NewestEnd(trace, n) <==> NewestEnd(init, n)
      {
        NewestBefore(init, e, n);
      }
      if NewestEnd(trace, m) && e.Succeeds? {
        assert LastNewestSuccess(trace, m);
      } else {
        forall n: nat
          ensures LastNewestSuccess(trace, n) <==> LastNewestSuccess(init, n)
        {
        }
      }
    }
  }

  /**
    In every run: the last failure is missing exactly if the newest fetch there was news of succeeded,
    or none has ended; otherwise it is that fetch's error.
   */
  lemma {:induction false} LastFetchFailureIs(trace: seq<Event>)
    requires Runnable(Start(), trace)
    ensures var c := After(Start(), trace);
            && (c.lastFetchFailure.Some? <==> exists n: nat :: LastNewestEnd(trace, n) && trace[n].Fails?)
            && forall n: nat :: LastNewestEnd(trace, n) ==>
                 c.lastFetchFailure == if trace[n].Fails? then Some(trace[n].error) else None
    decreases |trace|
  {
    hide Runnable, After, NewestEnd, Next, Enabled, TakesNote;
    if trace == [] {
      MaximaAtStart(trace);
    } else {
      var m := |trace| - 1;
      var init, e := trace[..m], trace[m];
      assert trace == init + [e];
      OneMore(Start(), init, e);
      LastFetchFailureIs(init);
      NotedIffNewest(trace, m);
      BeforeOneMore(init, e, m);
      FreshnessOneMore(After(Start(), init), e);
      forall n: nat | n < m
        ensures NewestEnd(trace, n) <==> NewestEnd(init, n)
      {
        NewestBefore(init, e, n);
      }
      if NewestEnd(trace, m) {
        NewestEnds(trace, m);
        assert LastNewestEnd(trace, m);
      } else {
        forall n: nat
          ensures LastNewestEnd(trace, n) <==> LastNewestEnd(init, n)
        {
        }
      }
    }
  }

  lemma NewestEnds(trace: seq<Event>, n: nat)
    requires Runnable(Start(), trace) && NewestEnd(trace, n)
    ensures Ends(trace[n])
  {
  }

  // --------------------------------------------------------------- retries

  /** The n-th event starts retries: a fetch of the current generation that may retry has failed, and it is worth it. */
  ghost predicate StartsRetries(trace: seq<Event>, n: nat)
    requires Runnable(Start(), trace)
  {
    && n < |trace| && trace[n].Fails? && trace[n].worthRetrying && trace[n].fetch.retry
    && trace[n].fetch.generation == Before(trace, n).generation
  }

  predicate EndsRetries(e: Event) {
    (e.Begins? && e.retry) || e.StopsRetrying? || e.Invalidates? || e.Clears?
  }

  /**
    In every run: retries are under way exactly if a fetch that may retry has failed in a way worth
    retrying, not invalidated by then, and since then no such fetch has begun, nobody has stopped
    retries and nothing has been invalidated.
   */
  lemma {:induction false} RetryingIff(trace: seq<Event>)
    requires Runnable(Start(), trace)
    ensures After(Start(), trace).retrying <==>
            exists n: nat :: StartsRetries(trace, n) && forall j: nat :: n < j < |trace| ==> !EndsRetries(trace[j])
    decreases |trace|
  {
    hide Runnable, After, Next, Enabled, EndsRetries;
    if trace == [] {
      MaximaAtStart(trace);
    } else {
      var m := |trace| - 1;
      var init, e := trace[..m], trace[m];
      assert trace == init + [e];
      OneMore(Start(), init, e);
      RetryingIff(init);
      RetryingOneMore(After(Start(), init), e);
      forall n: nat | n <= m
        ensures Before(trace, n) == if n < m then Before(init, n) else After(Start(), init)
      {
        BeforeOneMore(init, e, n);
      }
      if StartsRetries(trace, m) {
        assert After(Start(), trace).retrying;
      } else if After(Start(), trace).retrying {
        var n: nat :| StartsRetries(init, n) && forall j: nat :: n < j < |init| ==> !EndsRetries(init[j]);
        assert StartsRetries(trace, n);
      } else {
        forall n: nat | StartsRetries(trace, n)
          ensures exists j: nat :: n < j < |trace| && EndsRetries(trace[j])
        {
          assert StartsRetries(init, n);
          if j: nat :| n < j < |init| && EndsRetries(init[j]) {
            assert EndsRetries(trace[j]);
          } else {
            assert EndsRetries(trace[m]);
          }
        }
      }
    }
  }

  lemma RetryingOneMore(c: Client, e: Event)
    ensures Next(c, e).retrying <==>
            || (e.Fails? && e.worthRetrying && e.fetch.retry && e.fetch.generation == c.generation)
            || (c.retrying && !EndsRetries(e))
  {
  }

  // ------------------------------------------------------- order of fetches

  /** The n-th event begins this fetch. */
  ghost predicate BegunAt(trace: seq<Event>, n: nat, f: Fetch)
    requires Runnable(Start(), trace)
  {
    n < |trace| && trace[n].Begins? && f == NextFetch(Before(trace, n), trace[n].retry, trace[n].requested)
  }

  lemma {:induction false} BegunIsCounted(trace: seq<Event>, n: nat, f: Fetch)
    requires Runnable(Start(), trace) && BegunAt(trace, n, f)
    ensures f.sequence <= After(Start(), trace).fetchSequence
    decreases |trace|
  {
    hide Runnable, After, Next, Enabled;
    var m := |trace| - 1;
    var init, e := trace[..m], trace[m];
    assert trace == init + [e];
    OneMore(Start(), init, e);
    BeforeOneMore(init, e, n);
    SequenceGrows(After(Start(), init), e);
    if n < m {
      BegunIsCounted(init, n, f);
    }
  }

  lemma SequenceGrows(c: Client, e: Event)
    ensures c.fetchSequence <= Next(c, e).fetchSequence
    ensures e.Begins? ==> Next(c, e).fetchSequence == c.fetchSequence + 1
  {
  }

  /** A fetch that begins later has the higher number. */
  lemma LaterFetchesAreHigher(trace: seq<Event>, i: nat, j: nat, f: Fetch, g: Fetch)
    requires Runnable(Start(), trace) && i < j && BegunAt(trace, i, f) && BegunAt(trace, j, g)
    ensures f.sequence < g.sequence
  {
    PrefixRunnable(Start(), trace, i);
    PrefixRunnable(Start(), trace, j);
    assert trace[..j][..i] == trace[..i];
    hide Runnable, After;
    BegunIsCounted(trace[..j], i, f);
  }
}
