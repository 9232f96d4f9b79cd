/**
  The tables and counters of the HTTP worker (cpp/bindings/HybridAmplitudeWorker.cpp), each method
  one critical section of it. Every method does to them what WorkerProtocol says happens, so the
  tables always show exactly the active generations and the counters never go wrong.
 */
module HybridAmplitudeWorkers {
  import opened WorkerProtocol
  import WorkerHistory

  /** How an enqueue ends; everything but Accepted is an exception in the original. */
  datatype EnqueueResult = Accepted | InvalidRequest | QueueIsFull

  /** What a listener is called with. */
  datatype Notice = Notice(requestId: string, statusCode: int, body: string, error: string)

  /** The table lists, per request id, the generations queued or held and not yet retired, oldest first. */
  ghost predicate TableMatches(table: map<string, seq<nat>>, accepted: seq<WorkerRequest>, retired: set<nat>) {
    forall id :: var active := ActiveOf(accepted, retired, id);
      && (id in table <==> active != [])
      && (id in table ==> table[id] == active)
  }

  class HybridAmplitudeWorker {
    var queue: seq<WorkerRequest>
    var activeGenerations: map<string, seq<nat>>
    var cancelledGenerations: set<nat>
    var nextGeneration: nat
    var running: bool
    var queueSize: nat
    var inFlightCount: nat
    var pendingBodyBytes: nat
    var workers: seq<Phase>  // the program counter and local request of each thread
    ghost var world: World

    ghost predicate CountersAreRight()
      reads this
    {
      && queueSize == |queue|
      && inFlightCount == InFlight(workers)
      && pendingBodyBytes == SumBytes(queue)
    }

    ghost predicate Valid()
      reads this
    {
      && Invariant(world)
      && queue == world.queue && workers == world.workers && running == world.running
      && cancelledGenerations == world.marks && nextGeneration == |world.accepted|
      && TableMatches(activeGenerations, world.accepted, world.retired)
      && CountersAreRight()
    }

    constructor ()
      ensures Valid() && world == START
    {
      queue, activeGenerations, cancelledGenerations, nextGeneration := [], map[], {}, 0;
      running, queueSize, inFlightCount, pendingBodyBytes := true, 0, 0, 0;
      workers, world := START.workers, START;
      new;
      StartInvariant();
    }

    /** Takes a request, or refuses it and changes nothing. */
    method Enqueue(requestId: string, url: string, httpMethod: string, headers: seq<(string, string)>, body: string)
      returns (result: EnqueueResult)
      requires Valid()
      modifies this
      ensures Valid()
      ensures var request := WorkerRequest(requestId, url, httpMethod, headers, body, 0);
              && world == EnqueueStep(old(world), request)
              && (result.Accepted? <==> Accepts(old(world), request))
              && (result.InvalidRequest? <==> !WellFormed(request))
      ensures result.InvalidRequest? <==> requestId == "" || url == ""
      ensures result.QueueIsFull? <==>
                && requestId != "" && url != ""
                && (|| old(queueSize) >= 100
                    || (old(queueSize) > 0 && old(pendingBodyBytes) + |body + HeaderText(headers)| > 64 * 1024 * 1024))
    {
      hide Invariant, SumBytes, TableMatches;
      HeaderBytesAre(headers);
      if requestId == "" || url == "" {
        return InvalidRequest;
      }
      var request := WorkerRequest(requestId, url, httpMethod, headers, body, 0);
      var bodyBytes := RequestBodyBytes(request);
      var queuedBytes := pendingBodyBytes;
      if |queue| >= MAX_QUEUED_REQUESTS
         || (queue != [] && (bodyBytes > MAX_QUEUED_BYTES || queuedBytes > MAX_QUEUED_BYTES - bodyBytes)) {
        return QueueIsFull;
      }
      ghost var before := world;
      EnqueueKeeps(before, request);
      nextGeneration := nextGeneration + 1;
      request := request.(generation := nextGeneration);
      TableAccepts(activeGenerations, before, request);
      SumAppend(queue, request);
      var earlier := if requestId in activeGenerations then activeGenerations[requestId] else [];
      activeGenerations := activeGenerations[requestId := earlier + [nextGeneration]];
      queue := queue + [request];
      queueSize := |queue|;
      pendingBodyBytes := pendingBodyBytes + bodyBytes;
      world := EnqueueStep(before, request.(generation := 0));
      return Accepted;
    }

    /** Marks the newest active request of that id. */
    method CancelRequest(requestId: string)
      requires Valid()
      modifies this`cancelledGenerations, this`world
      ensures Valid() && world == CancelStep(old(world), requestId)
    {
      hide Invariant;
      CancelKeeps(world, requestId);
      ghost var before := world;
      world := CancelStep(world, requestId);
      if requestId !in activeGenerations || activeGenerations[requestId] == [] {
        return;
      }
      var active := activeGenerations[requestId];
      cancelledGenerations := cancelledGenerations + {active[|active| - 1]};
    }

    /** A worker takes the lock: it leaves, falls asleep, or pops the oldest request and decides whether to send it. */
    method TakeRequest(worker: nat)
      requires Valid() && Enabled(world, Take(worker))
      modifies this
      ensures Valid() && world == TakeStep(old(world), worker)
    {
      hide Invariant, TableMatches;
      TakeKeeps(world, worker);
      ghost var before := world;
      world := TakeStep(world, worker);
      InFlightReplaced(workers, worker, world.workers[worker]);
      if queue == [] {
        workers := workers[worker := if running then Asleep else Exited];
        return;
      }
      var request := queue[0];
      queue := queue[1..];
      queueSize := |queue|;
      var bodyBytes := RequestBodyBytes(request);
      pendingBodyBytes := pendingBodyBytes - if pendingBodyBytes < bodyBytes then pendingBodyBytes else bodyBytes;
      var drop := !running;
      if !drop {
        drop := request.generation in cancelledGenerations;
        cancelledGenerations := cancelledGenerations - {request.generation};
      }
      if drop {
        workers := workers[worker := Dropping(request)];
      } else {
        inFlightCount := inFlightCount + 1;
        workers := workers[worker := Sending(request)];
      }
    }

    /** The adapter has answered; the request is no longer in flight. */
    method FinishRequest(worker: nat, result: HttpResult)
      requires Valid() && Enabled(world, Answer(worker, result))
      modifies this`inFlightCount, this`workers, this`world
      ensures Valid() && world == AnswerStep(old(world), worker, result)
    {
      hide Invariant, TableMatches;
      AnswerKeeps(world, worker, result);
      ghost var before := world;
      world := AnswerStep(world, worker, result);
      InFlightReplaced(workers, worker, world.workers[worker]);
      inFlightCount := inFlightCount - 1;
      workers := workers[worker := Answered(workers[worker].request, result)];
    }

    /** Takes the generation of the worker's request out of both tables. */
    method RetireGeneration(worker: nat)
      requires Valid() && Enabled(world, Retire(worker))
      modifies this`activeGenerations, this`cancelledGenerations, this`workers, this`world
      ensures Valid() && world == RetireStep(old(world), worker)
    {
      hide Invariant, TableMatches;
      RetireKeeps(world, worker);
      ghost var before := world;
      world := RetireStep(world, worker);
      InFlightReplaced(workers, worker, world.workers[worker]);
      var held := workers[worker];
      var request := held.request;
      HeldIsAccepted(before, worker);
      TableRetires(activeGenerations, before, request);
      cancelledGenerations := cancelledGenerations - {request.generation};
      workers := workers[worker :=
        Reporting(request, if held.Dropping? then Cancelled(request.generation) else Completed(request.generation, held.result))];
      if request.requestId !in activeGenerations {
        return;
      }
      var generations := Without(activeGenerations[request.requestId], request.generation);
      activeGenerations :=
        if generations == [] then activeGenerations - {request.requestId}
        else activeGenerations[request.requestId := generations];
    }

    /** Calls the listeners. Returns what they are told: about the accepted request of that generation, and how it ended. */
    method NotifyComplete(worker: nat) returns (notice: Notice)
      requires Valid() && Enabled(world, Report(worker))
      modifies this`workers, this`world
      ensures Valid() && world == ReportStep(old(world), worker)
      ensures |world.completed| == |old(world).completed| + 1 && old(world).completed <= world.completed
      ensures var c := world.completed[|old(world).completed|];
              && 1 <= c.generation <= |world.accepted|
              && notice.requestId == world.accepted[c.generation - 1].requestId
              && (c.Completed? ==>
                    notice.statusCode == c.result.statusCode && notice.body == c.result.body && notice.error == c.result.error)
              && (c.Cancelled? ==> notice.statusCode == 0 && notice.body == "" && notice.error == "cancelled")
    {
      hide Invariant, TableMatches;
      ReportKeeps(world, worker);
      WorkerHistory.HolderIsAccepted(world, worker);
      ghost var before := world;
      world := ReportStep(world, worker);
      InFlightReplaced(workers, worker, Awake);
      var request, completion := workers[worker].request, workers[worker].completion;
      if completion.Cancelled? {
        notice := Notice(request.requestId, 0, "", "cancelled");
      } else {
        var result := completion.result;
        notice := Notice(request.requestId, result.statusCode, result.body, result.error);
      }
      workers := workers[worker := Awake];
    }

    /** The first half of a stop; the threads drain the queue before they leave. */
    method StopWorkers()
      requires Valid()
      modifies this`running, this`world
      ensures Valid() && world == StopStep(old(world))
    {
      hide Invariant, TableMatches;
      StopKeeps(world);
      ghost var before := world;
      running := false;
      world := StopStep(world);
    }

    /** What callers see through the counters. */
    method Counters() returns (queued: nat, inFlight: nat, bytes: nat)
      requires Valid()
      ensures queued == |world.queue| <= MAX_QUEUED_REQUESTS
      ensures inFlight == InFlight(world.workers) <= WORKER_THREAD_COUNT
      ensures bytes == SumBytes(world.queue) && (queued <= 1 || bytes <= MAX_QUEUED_BYTES)
    {
      hide TableMatches;
      return queueSize, inFlightCount, pendingBodyBytes;
    }

  }

  lemma TableAccepts(table: map<string, seq<nat>>, w: World, r: WorkerRequest)
    requires Invariant(w) && r.generation == |w.accepted| + 1 && TableMatches(table, w.accepted, w.retired)
    ensures var earlier := if r.requestId in table then table[r.requestId] else [];
            TableMatches(table[r.requestId := earlier + [r.generation]], w.accepted + [r], w.retired)
  {
    NextIsUnretired(w);
    hide Invariant, ActiveOf;
    var earlier := if r.requestId in table then table[r.requestId] else [];
    var next := table[r.requestId := earlier + [r.generation]];
    forall id
      ensures var active := ActiveOf(w.accepted + [r], w.retired, id);
              (id in next <==> active != []) && (id in next ==> next[id] == active)
    {
      ActiveAccepted(w.accepted, w.retired, id, r);
      assert id in table <==> ActiveOf(w.accepted, w.retired, id) != [];
    }
  }

  lemma RetiredIsPopped(w: World, g: nat)
    requires Invariant(w) && g in w.retired
    ensures g <= w.popped <= |w.accepted|
  {
    if !IsCompleted(w.completed, g) {
      var i :| 0 <= i < |w.workers| && Reports(w.workers[i], g);
      assert HeldRightly(w, w.workers[i]);
    }
  }

  lemma NextIsUnretired(w: World)
    requires Invariant(w)
    ensures |w.accepted| + 1 !in w.retired
  {
    hide Invariant;
    if |w.accepted| + 1 in w.retired {
      RetiredIsPopped(w, |w.accepted| + 1);
    }
  }

  lemma HeldIsAccepted(w: World, i: nat)
    requires Invariant(w) && Enabled(w, Retire(i))
    ensures var r := w.workers[i].request; 1 <= r.generation <= |w.accepted| && w.accepted[r.generation - 1] == r
    ensures Numbered(w.accepted)
  {
    assert HeldRightly(w, w.workers[i]);
  }

  /** Retiring a request shortens the list of its own id and no other. */
  lemma ActiveWithout(w: World, r: WorkerRequest, id: string)
    requires 1 <= r.generation <= |w.accepted| && w.accepted[r.generation - 1] == r && Numbered(w.accepted)
    ensures ActiveOf(w.accepted, w.retired + {r.generation}, id) ==
            if id == r.requestId then Without(ActiveOf(w.accepted, w.retired, id), r.generation)
            else ActiveOf(w.accepted, w.retired, id)
  {
    ActiveRetired(w.accepted, w.retired, id, r.generation);
    if id != r.requestId {
      var active := ActiveOf(w.accepted, w.retired, id);
      if j :| 0 <= j < |active| && active[j] == r.generation {
        ActiveMember(w.accepted, w.retired, id, j);
        assert false;
      }
      WithoutAbsent(active, r.generation);
    }
  }

  lemma TableRetires(table: map<string, seq<nat>>, w: World, r: WorkerRequest)
    requires 1 <= r.generation <= |w.accepted| && w.accepted[r.generation - 1] == r && Numbered(w.accepted)
    requires TableMatches(table, w.accepted, w.retired)
    ensures r.requestId !in table ==> TableMatches(table, w.accepted, w.retired + {r.generation})
    ensures r.requestId in table ==>
              var generations := Without(table[r.requestId], r.generation);
              TableMatches(if generations == [] then table - {r.requestId} else table[r.requestId := generations],
                           w.accepted, w.retired + {r.generation})
  {
    forall id
      ensures ActiveOf(w.accepted, w.retired + {r.generation}, id) ==
              if id == r.requestId then Without(ActiveOf(w.accepted, w.retired, id), r.generation)
              else ActiveOf(w.accepted, w.retired, id)
      ensures id in table <==> ActiveOf(w.accepted, w.retired, id) != []
    {
      ActiveWithout(w, r, id);
    }
  }

  lemma {:induction false} WithoutAbsent(generations: seq<nat>, g: nat)
    requires g !in generations
    ensures Without(generations, g) == generations
    decreases |generations|
  {
    if generations != [] {
      var n := |generations| - 1;
      WithoutAbsent(generations[..n], g);
      assert generations[..n] + [generations[n]] == generations;
    }
  }
}
