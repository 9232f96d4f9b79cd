/**
  What listeners of the HTTP worker are told, traced back through a whole run from the start: to the
  call that enqueued the request, and to the answer the adapter gave for it.
 */
module WorkerHistory {
  import opened WorkerProtocol

  /** The m-th event enqueued this request, which got the next generation. */
  ghost predicate EnqueuedAt(trace: seq<Event>, m: nat, r: WorkerRequest)
    requires Runnable(START, trace)
  {
    && m < |trace| && trace[m].Enqueue? && Runnable(START, trace[..m])
    && Accepts(After(START, trace[..m]), trace[m].request)
    && r == trace[m].request.(generation := |After(START, trace[..m]).accepted| + 1)
  }

  /** The n-th event was the adapter's answer to this request, while a worker was sending it. */
  ghost predicate AnsweredAt(trace: seq<Event>, n: nat, r: WorkerRequest, result: HttpResult)
    requires Runnable(START, trace)
  {
    && n < |trace| && trace[n].Answer? && trace[n].result == result && Runnable(START, trace[..n])
    && var workers := After(START, trace[..n]).workers;
       trace[n].worker < |workers| && workers[trace[n].worker] == Sending(r)
  }

  ghost predicate WasEnqueued(trace: seq<Event>, r: WorkerRequest)
    requires Runnable(START, trace)
  {
    exists m: nat :: EnqueuedAt(trace, m, r)
  }

  ghost predicate WasAnswered(trace: seq<Event>, r: WorkerRequest, result: HttpResult)
    requires Runnable(START, trace)
  {
    exists n: nat :: AnsweredAt(trace, n, r, result)
  }

  // ------------------------------------------------- runs grow at their end

  lemma {:induction false} OneMore(w: World, trace: seq<Event>, e: Event)
    requires Runnable(w, trace + [e])
    ensures Runnable(w, trace) && Enabled(After(w, trace), e)
    ensures After(w, trace + [e]) == Next(After(w, trace), e)
    decreases |trace|
  {
    hide Enabled, Next;
    if trace == [] {
      assert trace + [e] == [e] && [e][1..] == [];
      assert After(Next(w, e), []) == Next(w, e);
    } else {
      assert (trace + [e])[1..] == trace[1..] + [e];
      OneMore(Next(w, trace[0]), trace[1..], e);
    }
  }

  lemma {:induction false} PrefixRunnable(w: World, trace: seq<Event>, n: nat)
    requires Runnable(w, trace) && n <= |trace|
    ensures Runnable(w, trace[..n])
    decreases |trace| - n
  {
    hide Runnable, After, Enabled, Next;
    if n < |trace| {
      PrefixRunnable(w, trace, n + 1);
      assert trace[..n + 1] == trace[..n] + [trace[n]];
      OneMore(w, trace[..n], trace[n]);
    } else {
      assert trace[..n] == trace;
    }
  }

  lemma EnqueuedBefore(trace: seq<Event>, e: Event, r: WorkerRequest)
    requires Runnable(START, trace + [e]) && Runnable(START, trace)
    ensures WasEnqueued(trace, r) ==> WasEnqueued(trace + [e], r)
  {
    hide Runnable, After, Accepts;
    if m: nat :| EnqueuedAt(trace, m, r) {
      assert (trace + [e])[..m] == trace[..m];
      assert EnqueuedAt(trace + [e], m, r);
    }
  }

  lemma AnsweredBefore(trace: seq<Event>, e: Event, r: WorkerRequest, result: HttpResult)
    requires Runnable(START, trace + [e]) && Runnable(START, trace)
    ensures WasAnswered(trace, r, result) ==> WasAnswered(trace + [e], r, result)
  {
    hide Runnable, After;
    if n: nat :| AnsweredAt(trace, n, r, result) {
      assert (trace + [e])[..n] == trace[..n];
      assert AnsweredAt(trace + [e], n, r, result);
    }
  }

  // ------------------------------------------------------- what is enqueued

  lemma NothingYet(trace: seq<Event>)
    requires trace == []
    ensures Runnable(START, trace) && After(START, trace) == START
  {
  }

  /** Accepted requests stay where they are, and an enqueue adds at most one. */
  lemma AcceptedGrows(w: World, e: Event)
    requires Enabled(w, e)
    ensures var next := Next(w, e).accepted;
            || next == w.accepted
            || (e.Enqueue? && Accepts(w, e.request) && next == w.accepted + [e.request.(generation := |w.accepted| + 1)])
  {
    hide Accepts, ActiveOf;
  }

  /** Every accepted request is one that some event of the run enqueued, under the generation it got. */
  lemma {:induction false} AcceptedWereEnqueued(trace: seq<Event>, g: nat)
    requires Runnable(START, trace) && 1 <= g <= |After(START, trace).accepted|
    ensures WasEnqueued(trace, After(START, trace).accepted[g - 1])
    decreases |trace|
  {
    hide Runnable, After, Accepts, WasEnqueued, Enabled, Next;
    if trace == [] {
      NothingYet(trace);
      assert false;
    } else {
      var n := |trace| - 1;
      var init, e := trace[..n], trace[n];
      assert trace == init + [e];
      OneMore(START, init, e);
      var w := After(START, init);
      AcceptedGrows(w, e);
      var r := After(START, trace).accepted[g - 1];
      if g <= |w.accepted| {
        AcceptedWereEnqueued(init, g);
        EnqueuedBefore(init, e, r);
      } else {
        EnqueuedNow(trace, r);
      }
    }
  }

  lemma EnqueuedNow(trace: seq<Event>, r: WorkerRequest)
    requires Runnable(START, trace) && trace != []
    requires var n := |trace| - 1; EnqueuedAt(trace, n, r)
    ensures WasEnqueued(trace, r)
  {
  }

  // ------------------------------------------------------ what is answered

  /** What a worker owes to the adapter, or nothing. */
  ghost predicate Earned(trace: seq<Event>, p: Phase)
    requires Runnable(START, trace)
  {
    && (p.Answered? ==> WasAnswered(trace, p.request, p.result))
    && (p.Reporting? && p.completion.Completed? ==> WasAnswered(trace, p.request, p.completion.result))
  }

  /** A phase is as it was, or comes from an answer, or from retiring what was answered. */
  lemma PhaseComesFrom(w: World, e: Event, i: nat)
    requires Invariant(w) && Enabled(w, e) && i < |w.workers|
    ensures |Next(w, e).workers| == |w.workers|
    ensures var p, q := w.workers[i], Next(w, e).workers[i];
            || p == q
            || (!q.Answered? && !q.Reporting?)
            || (e.Answer? && e.worker == i && p == Sending(q.request) && q == Answered(q.request, e.result))
            || (p.Answered? && q == Reporting(p.request, Completed(p.request.generation, p.result)))
            || (p.Dropping? && q == Reporting(p.request, Cancelled(p.request.generation)))
  {
    hide Invariant, Accepts, ActiveOf;
  }

  lemma AnsweredNow(trace: seq<Event>, r: WorkerRequest, result: HttpResult)
    requires Runnable(START, trace) && trace != []
    requires var n := |trace| - 1; AnsweredAt(trace, n, r, result)
    ensures WasAnswered(trace, r, result)
  {
  }

  lemma {:induction false} WorkersEarned(trace: seq<Event>, i: nat)
    requires Runnable(START, trace) && i < |After(START, trace).workers|
    ensures Earned(trace, After(START, trace).workers[i])
    decreases |trace|
  {
    hide Runnable, After, WasAnswered, Enabled, Next, Invariant;
    if trace == [] {
      NothingYet(trace);
    } else {
      var n := |trace| - 1;
      var init, e := trace[..n], trace[n];
      assert trace == init + [e];
      OneMore(START, init, e);
      StartInvariant();
      InvariantAlways(START, init);
      var w := After(START, init);
      WorkersAreTwo(w, e);
      PhaseComesFrom(w, e, i);
      WorkersEarned(init, i);
      var p, q := w.workers[i], After(START, trace).workers[i];
      if p.Answered? {
        AnsweredBefore(init, e, p.request, p.result);
      } else if p.Reporting? && p.completion.Completed? {
        AnsweredBefore(init, e, p.request, p.completion.result);
      } else if q.Answered? {
        AnsweredNow(trace, q.request, q.result);
      }
    }
  }

  lemma WorkersAreTwo(w: World, e: Event)
    requires Invariant(w) && Enabled(w, e)
    ensures |w.workers| == |Next(w, e).workers| == WORKER_THREAD_COUNT
  {
    StepKeeps(w, e);
  }

  // -------------------------------------------------------- what is reported

  /** A step reports nothing, or what the reporting worker holds. */
  lemma CompletedGrows(w: World, e: Event)
    requires Invariant(w) && Enabled(w, e)
    ensures var next := Next(w, e).completed;
            || next == w.completed
            || (e.Report? && e.worker < |w.workers| && w.workers[e.worker].Reporting? && next == w.completed + [w.workers[e.worker].completion])
    ensures w.accepted <= Next(w, e).accepted
  {
    hide Invariant, Accepts, ActiveOf;
  }

  /** The request a reported generation belongs to. */
  lemma ReportedIsAccepted(w: World, k: nat)
    requires Invariant(w) && k < |w.completed|
    ensures 1 <= w.completed[k].generation <= |w.accepted|
  {
  }

  lemma HolderIsAccepted(w: World, i: nat)
    requires Invariant(w) && i < |w.workers| && w.workers[i].Reporting?
    ensures var p := w.workers[i];
            && 1 <= p.completion.generation == p.request.generation <= |w.accepted|
            && w.accepted[p.completion.generation - 1] == p.request
  {
    assert HeldRightly(w, w.workers[i]);
  }

  ghost predicate ReportsAnswer(trace: seq<Event>, w: World, k: nat)
    requires Runnable(START, trace) && k < |w.completed|
  {
    var c := w.completed[k];
    && 1 <= c.generation <= |w.accepted|
    && (c.Completed? ==> WasAnswered(trace, w.accepted[c.generation - 1], c.result))
  }

  lemma {:induction false} CompletedWereAnswered(trace: seq<Event>, k: nat)
    requires Runnable(START, trace) && k < |After(START, trace).completed|
    ensures ReportsAnswer(trace, After(START, trace), k)
    decreases |trace|
  {
    hide Runnable, After, WasAnswered, Enabled, Next, Invariant;
    if trace == [] {
      NothingYet(trace);
      assert false;
    } else {
      var n := |trace| - 1;
      var init, e := trace[..n], trace[n];
      assert trace == init + [e];
      OneMore(START, init, e);
      StartInvariant();
      InvariantAlways(START, init);
      InvariantAlways(START, trace);
      var w, next := After(START, init), After(START, trace);
      CompletedGrows(w, e);
      ReportedIsAccepted(next, k);
      var c := next.completed[k];
      if k < |w.completed| {
        CompletedWereAnswered(init, k);
        if c.Completed? {
          AnsweredBefore(init, e, next.accepted[c.generation - 1], c.result);
        }
      } else {
        WorkersAreTwo(w, e);
        HolderIsAccepted(w, e.worker);
        WorkersEarned(init, e.worker);
        if c.Completed? {
          AnsweredBefore(init, e, next.accepted[c.generation - 1], c.result);
        }
      }
    }
  }

  // ------------------------------------------------------ what is not sent

  /** A worker that drops a request has not sent it. */
  predicate DropsUnsent(w: World, p: Phase) {
    && (p.Dropping? ==> p.request.generation !in w.sent)
    && (p.Reporting? && p.completion.Cancelled? ==> p.completion.generation !in w.sent)
  }

  predicate CancelledUnsent(w: World) {
    && (forall i :: 0 <= i < |w.workers| ==> DropsUnsent(w, w.workers[i]))
    && (forall k :: 0 <= k < |w.completed| && w.completed[k].Cancelled? ==> w.completed[k].generation !in w.sent)
  }

  /** Only the request that is popped can be sent, and it is popped for the first time. */
  lemma SentGrows(w: World, e: Event)
    requires Invariant(w) && Enabled(w, e)
    ensures Next(w, e).sent == w.sent
         || (e.Take? && Next(w, e).sent == w.sent + {w.popped + 1} && Next(w, e).workers[e.worker].Sending?
             && Next(w, e).workers == w.workers[e.worker := Next(w, e).workers[e.worker]])
    ensures w.popped + 1 !in w.sent
  {
    hide ActiveOf, Accepts, HeldOnce, CompletedOnce, RetiredExactly, MarksActive, Bounded, NoLostWakeup;
  }

  /** A phase that drops is as it was, or has just popped an unsent request, or retires what it dropped. */
  lemma DropComesFrom(w: World, e: Event, i: nat)
    requires Invariant(w) && Enabled(w, e) && i < |w.workers|
    ensures i < |Next(w, e).workers|
    ensures var p, q := w.workers[i], Next(w, e).workers[i];
            || p == q
            || (!q.Dropping? && !q.Reporting?)
            || (q.Dropping? && q.request.generation == w.popped + 1 && Next(w, e).sent == w.sent)
            || (p.Answered? && q == Reporting(p.request, Completed(p.request.generation, p.result)))
            || (p.Dropping? && q == Reporting(p.request, Cancelled(p.request.generation)) && Next(w, e).sent == w.sent)
    ensures w.workers[i].Dropping? ==> w.workers[i].request.generation <= w.popped
    ensures w.workers[i].Reporting? ==> w.workers[i].completion.generation <= w.popped
  {
    assert HeldRightly(w, w.workers[i]);
    hide ActiveOf, Accepts, CompletedOnce, RetiredExactly, MarksActive, Bounded, NoLostWakeup, CancelsHonoured, HeldOnce;
  }

  lemma PhasesUnsent(w: World, e: Event, i: nat)
    requires Invariant(w) && Enabled(w, e) && CancelledUnsent(w) && i < |w.workers|
    ensures i < |Next(w, e).workers| && DropsUnsent(Next(w, e), Next(w, e).workers[i])
  {
    assert DropsUnsent(w, w.workers[i]);
    SentGrows(w, e);
    DropComesFrom(w, e, i);
    hide Next, Enabled, Invariant, CancelledUnsent;
  }

  lemma StepUnsent(w: World, e: Event)
    requires Invariant(w) && Enabled(w, e) && CancelledUnsent(w)
    ensures CancelledUnsent(Next(w, e))
  {
    WorkersAreTwo(w, e);
    CompletedGrows(w, e);
    SentGrows(w, e);
    forall i | 0 <= i < |w.workers|
      ensures DropsUnsent(Next(w, e), Next(w, e).workers[i])
    {
      PhasesUnsent(w, e, i);
      assert DropsUnsent(w, w.workers[i]);
    }
    forall k | 0 <= k < |w.completed|
      ensures 1 <= w.completed[k].generation <= w.popped
    {
      PoppedAre(w, k);
    }
    if e.Report? {
      assert DropsUnsent(w, w.workers[e.worker]);
    }
    hide Next, Invariant, Enabled;
  }

  lemma PoppedAre(w: World, k: nat)
    requires Invariant(w) && k < |w.completed|
    ensures 1 <= w.completed[k].generation <= w.popped
  {
  }

  lemma {:induction false} AlwaysUnsent(w: World, trace: seq<Event>)
    requires Invariant(w) && CancelledUnsent(w) && Runnable(w, trace)
    ensures CancelledUnsent(After(w, trace))
    decreases |trace|
  {
    hide Invariant, CancelledUnsent, Enabled, Next;
    if trace != [] {
      StepUnsent(w, trace[0]);
      StepKeeps(w, trace[0]);
      AlwaysUnsent(Next(w, trace[0]), trace[1..]);
    }
  }

  lemma SendingIsSent(w: World, i: nat)
    requires Invariant(w) && i < |w.workers| && w.workers[i].Sending?
    ensures w.workers[i].request.generation in w.sent
  {
    assert EndsRightly(w, w.workers[i]);
  }

  lemma {:induction false} AnsweredWasSent(trace: seq<Event>, n: nat, r: WorkerRequest, result: HttpResult)
    requires Runnable(START, trace) && AnsweredAt(trace, n, r, result)
    ensures r.generation in After(START, trace).sent
    decreases |trace|
  {
    hide Runnable, After, Enabled, Next, Invariant;
    var last := |trace| - 1;
    var init, e := trace[..last], trace[last];
    assert trace == init + [e];
    OneMore(START, init, e);
    StartInvariant();
    InvariantAlways(START, init);
    SentGrows(After(START, init), e);
    if n < last {
      assert init[..n] == trace[..n];
      AnsweredWasSent(init, n, r, result);
    } else {
      SendingIsSent(After(START, init), e.worker);
    }
  }

  /**
    In every run from the start, what is reported for a generation goes back to the one call that
    enqueued it and carries that call's request id. If it is reported as completed, then with a
    result that the adapter gave while a worker was sending this very request; if as cancelled, then
    the adapter gave none for it.
   */
  lemma ReportsComeFromTheRun(trace: seq<Event>, k: nat)
    requires Runnable(START, trace) && k < |After(START, trace).completed|
    ensures var w := After(START, trace);
            var c := w.completed[k];
            && 1 <= c.generation <= |w.accepted|
            && var r := w.accepted[c.generation - 1];
               && r.generation == c.generation
               && WasEnqueued(trace, r)
               && (c.Completed? ==> WasAnswered(trace, r, c.result))
               && (c.Cancelled? ==> forall result :: !WasAnswered(trace, r, result))
  {
    hide Runnable, After, WasEnqueued, Invariant;
    StartInvariant();
    InvariantAlways(START, trace);
    CompletedWereAnswered(trace, k);
    var w := After(START, trace);
    var c := w.completed[k];
    AcceptedWereEnqueued(trace, c.generation);
    var r := w.accepted[c.generation - 1];
    AcceptedAreNumbered(w, c.generation);
    if c.Cancelled? {
      AlwaysUnsent(START, trace);
      forall result
        ensures !WasAnswered(trace, r, result)
      {
        if n: nat :| AnsweredAt(trace, n, r, result) {
          AnsweredWasSent(trace, n, r, result);
          assert false;
        }
      }
    }
  }

  lemma AcceptedAreNumbered(w: World, g: nat)
    requires Invariant(w) && 1 <= g <= |w.accepted|
    ensures w.accepted[g - 1].generation == g
  {
  }

  lemma {:induction false} EnqueuedIsCounted(trace: seq<Event>, m: nat, r: WorkerRequest)
    requires Runnable(START, trace) && EnqueuedAt(trace, m, r)
    ensures r.generation <= |After(START, trace).accepted|
    decreases |trace|
  {
    hide Runnable, After, Accepts, Enabled, Next;
    var n := |trace| - 1;
    var init, e := trace[..n], trace[n];
    assert trace == init + [e];
    OneMore(START, init, e);
    AcceptedGrows(After(START, init), e);
    if m < n {
      assert init[..m] == trace[..m];
      EnqueuedIsCounted(init, m, r);
    } else {
      AcceptedNow(After(START, init), e);
    }
  }

  lemma AcceptedNow(w: World, e: Event)
    requires e.Enqueue? && Accepts(w, e.request)
    ensures |Next(w, e).accepted| == |w.accepted| + 1
  {
    hide Accepts;
  }

  /** No two calls get the same generation, so the call a report goes back to is the only one. */
  lemma EnqueuedOnce(trace: seq<Event>, i: nat, j: nat, q: WorkerRequest, r: WorkerRequest)
    requires Runnable(START, trace) && EnqueuedAt(trace, i, q) && EnqueuedAt(trace, j, r) && i < j
    ensures q.generation < r.generation
  {
    hide After, Accepts, Runnable;
    assert trace[..j][..i] == trace[..i];
    EnqueuedIsCounted(trace[..j], i, q);
  }
}
