/**
  The bounded HTTP worker (cpp/bindings/HybridAmplitudeWorker.cpp) as a protocol: callers that
  enqueue, cancel and stop, and two worker threads, interleaved in any order. One event is what a
  thread does between two points where another thread may come in.

  The world keeps what callers may rely on: the queue, what each worker holds, and the history. The
  tables and counters of the original are derived from it by the class HybridAmplitudeWorker.
 */
module WorkerProtocol {
  const MAX_QUEUED_REQUESTS: nat := 100
  const MAX_QUEUED_BYTES: nat := 64 * 1024 * 1024
  const WORKER_THREAD_COUNT: nat := 2

  datatype WorkerRequest = WorkerRequest(
    requestId: string,
    url: string,
    httpMethod: string,
    headers: seq<(string, string)>,
    body: string,
    generation: nat)

  datatype HttpResult = HttpResult(statusCode: int, body: string, error: string)

  /** Where a worker thread stands, with the request it holds. */
  datatype Phase =
    | Awake                                                  // about to take the lock
    | Asleep                                                 // waits on the condition variable
    | Dropping(request: WorkerRequest)                       // popped as cancelled, not yet retired
    | Sending(request: WorkerRequest)                        // handed to the adapter, in flight
    | Answered(request: WorkerRequest, result: HttpResult)   // no longer in flight, not yet retired
    | Reporting(request: WorkerRequest, completion: Completion) // retired, listeners not yet called
    | Exited

  datatype Completion = Cancelled(generation: nat) | Completed(generation: nat, result: HttpResult)

  datatype World = World(
    queue: seq<WorkerRequest>,
    workers: seq<Phase>,
    marks: set<nat>,               // generations marked as cancelled
    running: bool,
    notifies: nat,                 // enqueues that have yet to notify one worker
    stopSignal: bool,              // a stop that has yet to notify all workers
    accepted: seq<WorkerRequest>,  // history, in the order of acceptance
    popped: nat,                   // how many of them have left the queue
    sent: set<nat>,                // generations handed to the adapter
    retired: set<nat>,
    completed: seq<Completion>,
    cancelledWhileQueued: set<nat>,
    everCancelled: set<nat>)

  const START: World := World([], [Awake, Awake], {}, true, 0, false, [], 0, {}, {}, [], {}, {})

  function HeaderBytes(headers: seq<(string, string)>): nat {
    if headers == [] then 0 else |headers[0].0| + |headers[0].1| + HeaderBytes(headers[1..])
  }

  /** All names and values of the headers, one after the other. */
  function HeaderText(headers: seq<(string, string)>): string {
    if headers == [] then "" else headers[0].0 + headers[0].1 + HeaderText(headers[1..])
  }

  lemma {:induction false} HeaderBytesAre(headers: seq<(string, string)>)
    ensures HeaderBytes(headers) == |HeaderText(headers)|
  {
    if headers != [] {
      HeaderBytesAre(headers[1..]);
    }
  }

  function RequestBodyBytes(r: WorkerRequest): nat {
    |r.body| + HeaderBytes(r.headers)
  }

  function SumBytes(queue: seq<WorkerRequest>): nat {
    if queue == [] then 0 else RequestBodyBytes(queue[0]) + SumBytes(queue[1..])
  }

  datatype Event =
    | Enqueue(request: WorkerRequest)  // its generation is not yet assigned
    | Cancel(requestId: string)
    | Stop
    | NotifyOne(worker: nat)
    | NotifyAll
    | Wake(worker: nat)                // a spurious wake-up
    | Take(worker: nat)
    | Answer(worker: nat, result: HttpResult)
    | Retire(worker: nat)
    | Report(worker: nat)

  predicate AnyAsleep(w: World) {
    exists i :: 0 <= i < |w.workers| && w.workers[i].Asleep?
  }

  predicate Enabled(w: World, e: Event) {
    match e
    case NotifyOne(i) => i < |w.workers| && w.notifies > 0 && (AnyAsleep(w) ==> w.workers[i].Asleep?)
    case NotifyAll => w.stopSignal
    case Wake(i) => i < |w.workers| && w.workers[i].Asleep?
    case Take(i) => i < |w.workers| && w.workers[i].Awake?
    case Answer(i, _) => i < |w.workers| && w.workers[i].Sending?
    case Retire(i) => i < |w.workers| && (w.workers[i].Dropping? || w.workers[i].Answered?)
    case Report(i) => i < |w.workers| && w.workers[i].Reporting?
    case _ => true
  }

  // --------------------------------------------------------------- the steps

  predicate WellFormed(r: WorkerRequest) {
    r.requestId != "" && r.url != ""
  }

  predicate QueueFull(w: World, bodyBytes: nat) {
    || |w.queue| >= MAX_QUEUED_REQUESTS
    || (w.queue != [] && SumBytes(w.queue) + bodyBytes > MAX_QUEUED_BYTES)
  }

  /** A malformed request, or one that does not fit, is refused with an exception. */
  predicate Accepts(w: World, r: WorkerRequest) {
    WellFormed(r) && !QueueFull(w, RequestBodyBytes(r))
  }

  function EnqueueStep(w: World, r: WorkerRequest): World {
    if !Accepts(w, r) then w
    else
      var request := r.(generation := |w.accepted| + 1);
      w.(queue := w.queue + [request], accepted := w.accepted + [request], notifies := w.notifies + 1)
  }

  /** Generations of a request id that are queued or held, oldest first. */
  function ActiveOf(accepted: seq<WorkerRequest>, retired: set<nat>, requestId: string): seq<nat> {
    if accepted == [] then []
    else
      var last := accepted[|accepted| - 1];
      var earlier := ActiveOf(accepted[..|accepted| - 1], retired, requestId);
      if last.requestId == requestId && last.generation !in retired then earlier + [last.generation] else earlier
  }

  function CancelStep(w: World, requestId: string): World {
    var active := ActiveOf(w.accepted, w.retired, requestId);
    if active == [] then w
    else
      var newest := active[|active| - 1];
      w.(marks := w.marks + {newest},
         everCancelled := w.everCancelled + {newest},
         cancelledWhileQueued := if newest > w.popped then w.cancelledWhileQueued + {newest} else w.cancelledWhileQueued)
  }

  function StopStep(w: World): World {
    w.(running := false, stopSignal := true)
  }

  function Wakened(p: Phase): Phase {
    if p.Asleep? then Awake else p
  }

  function AllWakened(workers: seq<Phase>): (wakened: seq<Phase>)
    ensures |wakened| == |workers|
    ensures forall i :: 0 <= i < |workers| ==> wakened[i] == Wakened(workers[i])
  {
    if workers == [] then [] else [Wakened(workers[0])] + AllWakened(workers[1..])
  }

  function NotifyOneStep(w: World, i: nat): World
    requires Enabled(w, NotifyOne(i))
  {
    w.(notifies := w.notifies - 1, workers := w.workers[i := Wakened(w.workers[i])])
  }

  function NotifyAllStep(w: World): World {
    w.(stopSignal := false, workers := AllWakened(w.workers))
  }

  /** Under the lock: leave, fall asleep, or pop the oldest request. */
  function TakeStep(w: World, i: nat): World
    requires Enabled(w, Take(i))
  {
    if w.queue == [] then w.(workers := w.workers[i := if w.running then Asleep else Exited])
    else
      var r := w.queue[0];
      var next := w.(queue := w.queue[1..], popped := w.popped + 1);
      if !w.running then next.(workers := w.workers[i := Dropping(r)])
      else if r.generation in w.marks then
        next.(workers := w.workers[i := Dropping(r)], marks := w.marks - {r.generation})
      else next.(workers := w.workers[i := Sending(r)], sent := w.sent + {r.generation})
  }

  function AnswerStep(w: World, i: nat, result: HttpResult): World
    requires Enabled(w, Answer(i, result))
  {
    w.(workers := w.workers[i := Answered(w.workers[i].request, result)])
  }

  function RetireStep(w: World, i: nat): World
    requires Enabled(w, Retire(i))
  {
    var p := w.workers[i];
    var g := p.request.generation;
    w.(retired := w.retired + {g},
       marks := w.marks - {g},
       workers := w.workers[i := Reporting(p.request, if p.Dropping? then Cancelled(g) else Completed(g, p.result))])
  }

  function ReportStep(w: World, i: nat): World
    requires Enabled(w, Report(i))
  {
    w.(completed := w.completed + [w.workers[i].completion], workers := w.workers[i := Awake])
  }

  function Next(w: World, e: Event): World
    requires Enabled(w, e)
  {
    match e
    case Enqueue(r) => EnqueueStep(w, r)
    case Cancel(id) => CancelStep(w, id)
    case Stop => StopStep(w)
    case NotifyOne(i) => NotifyOneStep(w, i)
    case NotifyAll => NotifyAllStep(w)
    case Wake(i) => w.(workers := w.workers[i := Awake])
    case Take(i) => TakeStep(w, i)
    case Answer(i, result) => AnswerStep(w, i, result)
    case Retire(i) => RetireStep(w, i)
    case Report(i) => ReportStep(w, i)
  }

  // ------------------------------------------------------------- the invariant

  predicate Holds(p: Phase) {
    p.Dropping? || p.Sending? || p.Answered? || p.Reporting?
  }

  predicate HoldsGeneration(p: Phase, g: nat) {
    Holds(p) && p.request.generation == g
  }

  predicate Reports(p: Phase, g: nat) {
    p.Reporting? && p.request.generation == g
  }

  predicate IsHeld(workers: seq<Phase>, g: nat) {
    exists i :: 0 <= i < |workers| && HoldsGeneration(workers[i], g)
  }

  predicate IsReporting(workers: seq<Phase>, g: nat) {
    exists i :: 0 <= i < |workers| && Reports(workers[i], g)
  }

  predicate IsCompleted(completed: seq<Completion>, g: nat) {
    exists k :: 0 <= k < |completed| && completed[k].generation == g
  }

  /** The queue is what has not been popped of the accepted requests: first in, first out. */
  predicate Fifo(w: World) {
    && w.popped <= |w.accepted|
    && w.queue == w.accepted[w.popped..]
    && forall i :: 0 <= i < |w.accepted| ==> w.accepted[i].generation == i + 1
  }

  /** A held request has been popped and is not completed. */
  predicate HeldRightly(w: World, p: Phase) {
    Holds(p) ==>
      && 1 <= p.request.generation <= w.popped <= |w.accepted|
      && w.accepted[p.request.generation - 1] == p.request
      && !IsCompleted(w.completed, p.request.generation)
      && (p.Reporting? ==> p.completion.generation == p.request.generation)
  }

  predicate HeldOnce(w: World) {
    && |w.workers| == WORKER_THREAD_COUNT
    && (forall i :: 0 <= i < |w.workers| ==> HeldRightly(w, w.workers[i]))
    && (forall i, j :: 0 <= i < j < |w.workers| && Holds(w.workers[i]) && Holds(w.workers[j]) ==>
          w.workers[i].request.generation != w.workers[j].request.generation)
  }

  /** Every popped request is held or completed, and no request is completed twice. */
  predicate CompletedOnce(w: World) {
    && (forall g :: 1 <= g <= w.popped ==> IsHeld(w.workers, g) || IsCompleted(w.completed, g))
    && (forall k :: 0 <= k < |w.completed| ==> 1 <= w.completed[k].generation <= w.popped)
    && (forall a, b :: 0 <= a < b < |w.completed| ==> w.completed[a].generation != w.completed[b].generation)
  }

  ghost predicate RetiredExactly(w: World) {
    forall g: nat :: g in w.retired <==> IsCompleted(w.completed, g) || IsReporting(w.workers, g)
  }

  /** Marks are on active generations only. */
  predicate MarksActive(w: World) {
    forall g :: g in w.marks ==> 1 <= g <= |w.accepted| && g !in w.retired && g in w.everCancelled
  }

  /** Only a sent request gets an answer; a request that is dropped was cancelled, or the worker had been stopped. */
  predicate OutcomeRight(w: World, c: Completion) {
    && (c.Completed? ==> c.generation in w.sent)
    && (c.Cancelled? ==> c.generation in w.everCancelled || !w.running)
  }

  predicate EndsRightly(w: World, p: Phase) {
    && (p.Sending? || p.Answered? ==> p.request.generation in w.sent)
    && (p.Dropping? ==> p.request.generation in w.everCancelled || !w.running)
    && (p.Reporting? ==> OutcomeRight(w, p.completion))
  }

  /** What was cancelled while it waited is never sent. */
  predicate CancelsHonoured(w: World) {
    && (forall g :: g in w.cancelledWhileQueued ==> g !in w.sent && 1 <= g <= |w.accepted|)
    && (forall g :: g in w.cancelledWhileQueued && g > w.popped ==> g in w.marks)
    && (forall g :: g in w.sent ==> 1 <= g <= w.popped)
    && (forall i :: 0 <= i < |w.workers| ==> EndsRightly(w, w.workers[i]))
    && (forall k :: 0 <= k < |w.completed| ==> OutcomeRight(w, w.completed[k]))
  }

  predicate Bounded(w: World) {
    && |w.queue| <= MAX_QUEUED_REQUESTS
    && (|w.queue| <= 1 || SumBytes(w.queue) <= MAX_QUEUED_BYTES)
  }

  predicate AllAsleep(w: World) {
    forall i :: 0 <= i < |w.workers| ==> w.workers[i].Asleep?
  }

  predicate AnyExited(w: World) {
    exists i :: 0 <= i < |w.workers| && w.workers[i].Exited?
  }

  /** Nobody sleeps through work or through a stop, and nobody leaves before it. */
  predicate NoLostWakeup(w: World) {
    && (AllAsleep(w) && w.queue != [] ==> w.notifies > 0)
    && (AnyAsleep(w) && !w.running ==> w.stopSignal)
    && (w.running ==> !AnyExited(w))
  }

  ghost predicate Invariant(w: World) {
    && Fifo(w)
    && HeldOnce(w)
    && CompletedOnce(w)
    && RetiredExactly(w)
    && MarksActive(w)
    && CancelsHonoured(w)
    && Bounded(w)
    && NoLostWakeup(w)
  }

  lemma StartInvariant()
    ensures Invariant(START)
  {
  }

  // ------------------------------------------ steps that move no request

  /** The phase changes, but what the worker holds and owes does not. */
  predicate Alike(p: Phase, q: Phase) {
    || p == q
    || (!Holds(p) && !Holds(q))
    || (p.Sending? && q.Answered? && p.request == q.request)
  }

  predicate SameButPhases(w: World, next: World) {
    && next == w.(workers := next.workers, notifies := next.notifies, stopSignal := next.stopSignal)
    && |next.workers| == |w.workers|
    && forall i :: 0 <= i < |w.workers| ==> Alike(w.workers[i], next.workers[i])
  }

  lemma AlikeHolds(w: World, next: World, g: nat)
    requires SameButPhases(w, next)
    ensures IsHeld(next.workers, g) <==> IsHeld(w.workers, g)
    ensures IsReporting(next.workers, g) <==> IsReporting(w.workers, g)
  {
    if i :| 0 <= i < |w.workers| && HoldsGeneration(w.workers[i], g) {
      assert HoldsGeneration(next.workers[i], g);
    }
    if i :| 0 <= i < |w.workers| && HoldsGeneration(next.workers[i], g) {
      assert HoldsGeneration(w.workers[i], g);
    }
    if i :| 0 <= i < |w.workers| && Reports(w.workers[i], g) {
      assert Reports(next.workers[i], g);
    }
    if i :| 0 <= i < |w.workers| && Reports(next.workers[i], g) {
      assert Reports(w.workers[i], g);
    }
  }

  lemma PhasesKeepHeldOnce(w: World, next: World)
    requires HeldOnce(w) && SameButPhases(w, next)
    ensures HeldOnce(next)
  {
    hide IsCompleted;
    forall i | 0 <= i < |w.workers|
      ensures HeldRightly(next, next.workers[i])
    {
      assert HeldRightly(w, w.workers[i]);
    }
  }

  lemma PhasesKeepCancels(w: World, next: World)
    requires CancelsHonoured(w) && SameButPhases(w, next)
    ensures CancelsHonoured(next)
  {
    forall i | 0 <= i < |w.workers|
      ensures EndsRightly(next, next.workers[i])
    {
      assert EndsRightly(w, w.workers[i]);
    }
    forall k | 0 <= k < |w.completed|
      ensures OutcomeRight(next, next.completed[k])
    {
      assert OutcomeRight(w, w.completed[k]);
    }
    hide EndsRightly, OutcomeRight, Alike;
  }

  lemma PhasesKeepCompleted(w: World, next: World)
    requires CompletedOnce(w) && RetiredExactly(w) && SameButPhases(w, next)
    ensures CompletedOnce(next) && RetiredExactly(next)
  {
    forall g: nat
      ensures IsHeld(next.workers, g) <==> IsHeld(w.workers, g)
      ensures IsReporting(next.workers, g) <==> IsReporting(w.workers, g)
    {
      AlikeHolds(w, next, g);
    }
    hide IsHeld, IsReporting, IsCompleted, Alike;
  }

  lemma PhasesKeep(w: World, next: World)
    requires Invariant(w) && SameButPhases(w, next) && NoLostWakeup(next)
    ensures Invariant(next)
  {
    hide Alike, HeldOnce, CompletedOnce, RetiredExactly, CancelsHonoured, NoLostWakeup, SumBytes;
    PhasesKeepHeldOnce(w, next);
    PhasesKeepCancels(w, next);
    PhasesKeepCompleted(w, next);
  }

  lemma NotifyOneKeeps(w: World, i: nat)
    requires Invariant(w) && Enabled(w, NotifyOne(i))
    ensures Invariant(NotifyOneStep(w, i))
  {
    PhasesKeep(w, NotifyOneStep(w, i));
  }

  lemma NotifyAllKeeps(w: World)
    requires Invariant(w) && Enabled(w, NotifyAll)
    ensures Invariant(NotifyAllStep(w))
  {
    PhasesKeep(w, NotifyAllStep(w));
  }

  lemma WakeKeeps(w: World, i: nat)
    requires Invariant(w) && Enabled(w, Wake(i))
    ensures Invariant(Next(w, Wake(i)))
  {
    PhasesKeep(w, Next(w, Wake(i)));
  }

  lemma AnswerKeeps(w: World, i: nat, result: HttpResult)
    requires Invariant(w) && Enabled(w, Answer(i, result))
    ensures Invariant(AnswerStep(w, i, result))
  {
    PhasesKeep(w, AnswerStep(w, i, result));
  }

  lemma RestKeeps(w: World, i: nat)
    requires Invariant(w) && Enabled(w, Take(i)) && w.queue == []
    ensures Invariant(TakeStep(w, i))
  {
    PhasesKeep(w, TakeStep(w, i));
  }

  // --------------------------------------------------- steps of the callers

  lemma {:induction false} SumAppend(queue: seq<WorkerRequest>, r: WorkerRequest)
    ensures SumBytes(queue + [r]) == SumBytes(queue) + RequestBodyBytes(r)
  {
    if queue == [] {
      assert (queue + [r])[1..] == [];
    } else {
      assert (queue + [r])[1..] == queue[1..] + [r];
      SumAppend(queue[1..], r);
    }
  }

  lemma EnqueueKeepsHeld(w: World, r: WorkerRequest)
    requires Fifo(w) && HeldOnce(w) && CancelsHonoured(w) && Accepts(w, r)
    ensures HeldOnce(EnqueueStep(w, r)) && CancelsHonoured(EnqueueStep(w, r))
  {
    hide SumBytes, RequestBodyBytes, WellFormed, IsCompleted;
    var next := EnqueueStep(w, r);
    forall i | 0 <= i < |w.workers|
      ensures HeldRightly(next, next.workers[i]) && EndsRightly(next, next.workers[i])
    {
      assert HeldRightly(w, w.workers[i]) && EndsRightly(w, w.workers[i]);
    }
  }

  lemma EnqueueKeeps(w: World, r: WorkerRequest)
    requires Invariant(w)
    ensures Invariant(EnqueueStep(w, r))
  {
    if Accepts(w, r) {
      EnqueueKeepsHeld(w, r);
      var request := r.(generation := |w.accepted| + 1);
      SumAppend(w.queue, request);
      hide SumBytes, RequestBodyBytes, WellFormed, IsCompleted, HeldOnce, IsHeld, IsReporting, CancelsHonoured;
    }
  }

  /** More marks and more history change nothing about the workers. */
  lemma MarkKeepsWorkers(w: World, next: World, g: nat)
    requires HeldOnce(w) && CancelsHonoured(w) && 1 <= g <= |w.accepted|
    requires next == w.(marks := w.marks + {g}, everCancelled := w.everCancelled + {g},
                        cancelledWhileQueued := if g > w.popped then w.cancelledWhileQueued + {g} else w.cancelledWhileQueued)
    ensures HeldOnce(next) && CancelsHonoured(next)
  {
    hide IsCompleted;
    forall i | 0 <= i < |w.workers|
      ensures HeldRightly(next, next.workers[i]) && EndsRightly(next, next.workers[i])
    {
      assert HeldRightly(w, w.workers[i]) && EndsRightly(w, w.workers[i]);
    }
    forall k | 0 <= k < |w.completed|
      ensures OutcomeRight(next, next.completed[k])
    {
      assert OutcomeRight(w, w.completed[k]);
    }
    hide HeldRightly, EndsRightly, OutcomeRight;
  }

  lemma CancelKeeps(w: World, id: string)
    requires Invariant(w)
    ensures Invariant(CancelStep(w, id))
  {
    hide ActiveOf, SumBytes, HeldOnce, CompletedOnce, RetiredExactly, CancelsHonoured, NoLostWakeup;
    var active := ActiveOf(w.accepted, w.retired, id);
    if active != [] {
      ActiveMember(w.accepted, w.retired, id, |active| - 1);
      MarkKeepsWorkers(w, CancelStep(w, id), active[|active| - 1]);
      CancelKeepsRest(w, CancelStep(w, id));
    }
  }

  lemma CancelKeepsRest(w: World, next: World)
    requires next == w.(marks := next.marks, everCancelled := next.everCancelled, cancelledWhileQueued := next.cancelledWhileQueued)
    requires CompletedOnce(w) && RetiredExactly(w) && NoLostWakeup(w)
    ensures CompletedOnce(next) && RetiredExactly(next) && NoLostWakeup(next)
  {
    hide IsHeld, IsReporting, IsCompleted;
  }

  lemma StopKeeps(w: World)
    requires Invariant(w)
    ensures Invariant(StopStep(w))
  {
    var next := StopStep(w);
    hide SumBytes, IsCompleted, IsHeld, IsReporting;
    forall i | 0 <= i < |w.workers|
      ensures HeldRightly(next, next.workers[i]) && EndsRightly(next, next.workers[i])
    {
      assert HeldRightly(w, w.workers[i]) && EndsRightly(w, w.workers[i]);
    }
  }

  // ------------------------------------------------------- the active table

  predicate IsActive(accepted: seq<WorkerRequest>, retired: set<nat>, id: string, g: nat) {
    exists k :: 0 <= k < |accepted| && accepted[k].requestId == id && accepted[k].generation == g && g !in retired
  }

  /** A member of the active list is the generation of an unretired request with that id. */
  lemma {:induction false} ActiveMember(accepted: seq<WorkerRequest>, retired: set<nat>, id: string, j: nat)
    requires j < |ActiveOf(accepted, retired, id)|
    ensures IsActive(accepted, retired, id, ActiveOf(accepted, retired, id)[j])
    decreases |accepted|
  {
    var n := |accepted| - 1;
    var earlier := ActiveOf(accepted[..n], retired, id);
    if j < |earlier| {
      ActiveMember(accepted[..n], retired, id, j);
      var k :| 0 <= k < n && accepted[..n][k].requestId == id && accepted[..n][k].generation == earlier[j] && earlier[j] !in retired;
      assert accepted[k] == accepted[..n][k];
    } else {
      assert accepted[n].requestId == id;
    }
  }

  /** And every such generation is a member. */
  lemma {:induction false} ActiveListed(accepted: seq<WorkerRequest>, retired: set<nat>, id: string, g: nat)
    requires IsActive(accepted, retired, id, g)
    ensures g in ActiveOf(accepted, retired, id)
    decreases |accepted|
  {
    var n := |accepted| - 1;
    var k :| 0 <= k < |accepted| && accepted[k].requestId == id && accepted[k].generation == g && g !in retired;
    if k < n {
      assert accepted[..n][k] == accepted[k];
      ActiveListed(accepted[..n], retired, id, g);
    }
  }

  predicate Numbered(accepted: seq<WorkerRequest>) {
    forall i :: 0 <= i < |accepted| ==> accepted[i].generation == i + 1
  }

  predicate Increasing(generations: seq<nat>) {
    forall i, j :: 0 <= i < j < |generations| ==> generations[i] < generations[j]
  }

  /** The active list is in increasing order, so its last member is the newest. */
  lemma {:induction false} ActiveIncreases(accepted: seq<WorkerRequest>, retired: set<nat>, id: string)
    requires Numbered(accepted)
    ensures Increasing(ActiveOf(accepted, retired, id))
    ensures forall g :: g in ActiveOf(accepted, retired, id) ==> 1 <= g <= |accepted|
    decreases |accepted|
  {
    if accepted != [] {
      var n := |accepted| - 1;
      ActiveIncreases(accepted[..n], retired, id);
      var earlier := ActiveOf(accepted[..n], retired, id);
      assert |accepted[..n]| == n;
      OneMoreIncreases(earlier, n);
    }
  }

  lemma OneMoreIncreases(earlier: seq<nat>, n: nat)
    requires Increasing(earlier)
    requires forall g :: g in earlier ==> 1 <= g <= n
    ensures Increasing(earlier + [n + 1])
  {
    var all := earlier + [n + 1];
    forall i, j | 0 <= i < j < |all|
      ensures all[i] < all[j]
    {
      assert earlier[i] in earlier;
    }
  }

  function Without(generations: seq<nat>, g: nat): seq<nat> {
    if generations == [] then []
    else if generations[|generations| - 1] == g then Without(generations[..|generations| - 1], g)
    else Without(generations[..|generations| - 1], g) + [generations[|generations| - 1]]
  }

  /** Retiring a generation takes it out of the active list and leaves the order of the others. */
  lemma {:induction false} ActiveRetired(accepted: seq<WorkerRequest>, retired: set<nat>, id: string, g: nat)
    ensures ActiveOf(accepted, retired + {g}, id) == Without(ActiveOf(accepted, retired, id), g)
    decreases |accepted|
  {
    if accepted != [] {
      var n := |accepted| - 1;
      var earlier := ActiveOf(accepted[..n], retired, id);
      ActiveRetired(accepted[..n], retired, id, g);
      var last := accepted[n].generation;
      if accepted[n].requestId == id && last !in retired {
        assert (earlier + [last])[..|earlier|] == earlier;
      }
    }
  }

  lemma ActiveAccepted(accepted: seq<WorkerRequest>, retired: set<nat>, id: string, r: WorkerRequest)
    requires r.generation !in retired
    ensures ActiveOf(accepted + [r], retired, id) ==
            if r.requestId == id then ActiveOf(accepted, retired, id) + [r.generation] else ActiveOf(accepted, retired, id)
  {
    assert (accepted + [r])[..|accepted|] == accepted;
  }

  // ------------------------------------------------- steps of the workers

  predicate HeldElsewhere(workers: seq<Phase>, i: nat, g: nat) {
    exists j :: 0 <= j < |workers| && j != i && HoldsGeneration(workers[j], g)
  }

  predicate ReportedElsewhere(workers: seq<Phase>, i: nat, g: nat) {
    exists j :: 0 <= j < |workers| && j != i && Reports(workers[j], g)
  }

  lemma Replaced(workers: seq<Phase>, i: nat, p: Phase, g: nat)
    requires i < |workers|
    ensures IsHeld(workers, g) <==> HoldsGeneration(workers[i], g) || HeldElsewhere(workers, i, g)
    ensures IsHeld(workers[i := p], g) <==> HoldsGeneration(p, g) || HeldElsewhere(workers, i, g)
    ensures IsReporting(workers, g) <==> Reports(workers[i], g) || ReportedElsewhere(workers, i, g)
    ensures IsReporting(workers[i := p], g) <==> Reports(p, g) || ReportedElsewhere(workers, i, g)
  {
    var next := workers[i := p];
    assert next[i] == p;
    if j :| 0 <= j < |workers| && j != i && HoldsGeneration(workers[j], g) {
      assert HoldsGeneration(next[j], g);
    }
    if j :| 0 <= j < |workers| && j != i && Reports(workers[j], g) {
      assert Reports(next[j], g);
    }
  }

  /** What popping the oldest request changes. */
  lemma PopFacts(w: World, i: nat)
    requires Invariant(w) && Enabled(w, Take(i)) && w.queue != []
    ensures var next, r := TakeStep(w, i), w.queue[0];
            && r == w.accepted[w.popped] && r.generation == w.popped + 1 == next.popped <= |w.accepted|
            && !IsCompleted(w.completed, r.generation)
            && Holds(next.workers[i]) && next.workers[i].request == r && !next.workers[i].Reporting?
            && next.completed == w.completed && next.accepted == w.accepted && next.retired == w.retired
            && next.workers == w.workers[i := next.workers[i]]
            && !Holds(w.workers[i])
  {
    hide RetiredExactly, MarksActive, CancelsHonoured, Bounded, NoLostWakeup, HeldOnce, IsHeld;
  }

  lemma TakeHeldOnce(w: World, i: nat)
    requires Invariant(w) && Enabled(w, Take(i)) && w.queue != []
    ensures HeldOnce(TakeStep(w, i)) && Fifo(TakeStep(w, i))
  {
    PopFacts(w, i);
    var next := TakeStep(w, i);
    hide CompletedOnce, RetiredExactly, MarksActive, CancelsHonoured, Bounded, NoLostWakeup, IsHeld, IsCompleted;
    assert Fifo(next);
    hide TakeStep, Fifo;
    forall j | 0 <= j < |w.workers|
      ensures HeldRightly(next, next.workers[j])
      ensures j != i ==> next.workers[j] == w.workers[j] && (Holds(w.workers[j]) ==> w.workers[j].request.generation <= w.popped)
    {
      assert HeldRightly(w, w.workers[j]);
    }
  }

  lemma TakeCompletedOnce(w: World, i: nat)
    requires Invariant(w) && Enabled(w, Take(i)) && w.queue != []
    ensures CompletedOnce(TakeStep(w, i)) && RetiredExactly(TakeStep(w, i))
  {
    PopFacts(w, i);
    var next := TakeStep(w, i);
    forall g: nat
      ensures IsHeld(next.workers, g) <==> IsHeld(w.workers, g) || g == w.popped + 1
      ensures IsReporting(next.workers, g) <==> IsReporting(w.workers, g)
    {
      Replaced(w.workers, i, next.workers[i], g);
    }
    hide TakeStep, Fifo, HeldOnce, MarksActive, CancelsHonoured, Bounded, NoLostWakeup, IsHeld, IsCompleted, IsReporting;
  }

  lemma TakeCancelsHonoured(w: World, i: nat)
    requires Invariant(w) && Enabled(w, Take(i)) && w.queue != []
    ensures CancelsHonoured(TakeStep(w, i)) && MarksActive(TakeStep(w, i))
  {
    PopFacts(w, i);
    var next := TakeStep(w, i);
    hide Fifo, HeldOnce, CompletedOnce, RetiredExactly, Bounded, NoLostWakeup, IsHeld, IsCompleted, IsReporting;
    forall j | 0 <= j < |w.workers|
      ensures EndsRightly(next, next.workers[j])
    {
      assert EndsRightly(w, w.workers[j]);
    }
  }

  lemma TakeKeeps(w: World, i: nat)
    requires Invariant(w) && Enabled(w, Take(i))
    ensures Invariant(TakeStep(w, i))
  {
    if w.queue == [] {
      RestKeeps(w, i);
    } else {
      PopFacts(w, i);
      TakeHeldOnce(w, i);
      TakeCompletedOnce(w, i);
      TakeCancelsHonoured(w, i);
      hide Fifo, HeldOnce, CompletedOnce, RetiredExactly, MarksActive, CancelsHonoured;
      assert !TakeStep(w, i).workers[i].Asleep?;
    }
  }

  lemma RetireFacts(w: World, i: nat, g: nat)
    requires Enabled(w, Retire(i))
    ensures var next := RetireStep(w, i);
            && (IsHeld(next.workers, g) <==> IsHeld(w.workers, g))
            && (IsReporting(next.workers, g) <==> IsReporting(w.workers, g) || g == w.workers[i].request.generation)
  {
    Replaced(w.workers, i, RetireStep(w, i).workers[i], g);
  }

  lemma RetireKeepsWorkers(w: World, i: nat)
    requires HeldOnce(w) && CancelsHonoured(w) && Enabled(w, Retire(i))
    ensures HeldOnce(RetireStep(w, i)) && CancelsHonoured(RetireStep(w, i))
  {
    hide IsHeld, IsReporting, IsCompleted;
    var next := RetireStep(w, i);
    assert HeldRightly(w, w.workers[i]) && EndsRightly(w, w.workers[i]);
    forall j | 0 <= j < |w.workers|
      ensures HeldRightly(next, next.workers[j]) && EndsRightly(next, next.workers[j])
    {
      assert HeldRightly(w, w.workers[j]) && EndsRightly(w, w.workers[j]);
    }
    forall k | 0 <= k < |w.completed|
      ensures OutcomeRight(next, next.completed[k])
    {
      assert OutcomeRight(w, w.completed[k]);
    }
    hide HeldRightly, EndsRightly, OutcomeRight;
  }

  lemma RetireKeeps(w: World, i: nat)
    requires Invariant(w) && Enabled(w, Retire(i))
    ensures Invariant(RetireStep(w, i))
  {
    var next := RetireStep(w, i);
    forall g: nat
      ensures IsHeld(next.workers, g) <==> IsHeld(w.workers, g)
      ensures IsReporting(next.workers, g) <==> IsReporting(w.workers, g) || g == w.workers[i].request.generation
    {
      RetireFacts(w, i, g);
    }
    RetireKeepsWorkers(w, i);
    assert NoLostWakeup(next) by {
      assert forall j :: 0 <= j < |w.workers| ==> next.workers[j] == if j == i then next.workers[i] else w.workers[j];
    }
    hide IsHeld, IsReporting, IsCompleted, SumBytes, HeldOnce, CancelsHonoured, NoLostWakeup;
  }

  lemma ReportFacts(w: World, i: nat, g: nat)
    requires Invariant(w) && Enabled(w, Report(i))
    ensures var next, c := ReportStep(w, i), w.workers[i].completion;
            && (IsHeld(w.workers, g) <==> IsHeld(next.workers, g) || g == c.generation)
            && (IsReporting(w.workers, g) <==> IsReporting(next.workers, g) || g == c.generation)
            && (IsCompleted(next.completed, g) <==> IsCompleted(w.completed, g) || g == c.generation)
  {
    assert HeldRightly(w, w.workers[i]);
    Replaced(w.workers, i, Awake, g);
    CompletedMore(w.completed, w.workers[i].completion, g);
    hide IsCompleted, SumBytes, CancelsHonoured, CompletedOnce;
  }

  lemma ReportKeepsCompleted(w: World, i: nat)
    requires Invariant(w) && Enabled(w, Report(i))
    ensures CompletedOnce(ReportStep(w, i)) && RetiredExactly(ReportStep(w, i))
  {
    var next, c := ReportStep(w, i), w.workers[i].completion;
    assert HeldRightly(w, w.workers[i]);
    forall g: nat
      ensures IsHeld(w.workers, g) <==> IsHeld(next.workers, g) || g == c.generation
      ensures IsReporting(w.workers, g) <==> IsReporting(next.workers, g) || g == c.generation
      ensures IsCompleted(next.completed, g) <==> IsCompleted(w.completed, g) || g == c.generation
    {
      ReportFacts(w, i, g);
    }
    assert forall k :: 0 <= k < |w.completed| ==> w.completed[k].generation != c.generation;
    hide IsHeld, IsReporting, IsCompleted, SumBytes, CancelsHonoured, HeldOnce, NoLostWakeup;
  }

  lemma ReportKeepsWorkers(w: World, i: nat)
    requires HeldOnce(w) && CancelsHonoured(w) && Enabled(w, Report(i))
    ensures HeldOnce(ReportStep(w, i)) && CancelsHonoured(ReportStep(w, i))
  {
    var next, c := ReportStep(w, i), w.workers[i].completion;
    assert HeldRightly(w, w.workers[i]) && EndsRightly(w, w.workers[i]);
    forall g: nat
      ensures IsCompleted(next.completed, g) <==> IsCompleted(w.completed, g) || g == c.generation
    {
      CompletedMore(w.completed, c, g);
    }
    hide IsCompleted;
    forall j | 0 <= j < |w.workers|
      ensures HeldRightly(next, next.workers[j]) && EndsRightly(next, next.workers[j])
    {
      assert HeldRightly(w, w.workers[j]) && EndsRightly(w, w.workers[j]);
    }
    forall k | 0 <= k < |next.completed|
      ensures OutcomeRight(next, next.completed[k])
    {
      assert k < |w.completed| ==> OutcomeRight(w, w.completed[k]);
    }
    hide HeldRightly, EndsRightly, OutcomeRight;
  }

  lemma ReportKeeps(w: World, i: nat)
    requires Invariant(w) && Enabled(w, Report(i))
    ensures Invariant(ReportStep(w, i))
  {
    ReportKeepsCompleted(w, i);
    ReportKeepsWorkers(w, i);
    assert NoLostWakeup(ReportStep(w, i)) by {
      var next := ReportStep(w, i);
      hide HeldOnce, CompletedOnce, RetiredExactly, CancelsHonoured, SumBytes;
      assert next.workers[i] == Awake;
      assert forall j :: 0 <= j < |w.workers| ==> next.workers[j] == if j == i then Awake else w.workers[j];
    }
    hide HeldOnce, CompletedOnce, RetiredExactly, CancelsHonoured, NoLostWakeup, SumBytes;
  }

  lemma CompletedMore(completed: seq<Completion>, c: Completion, g: nat)
    ensures IsCompleted(completed + [c], g) <==> IsCompleted(completed, g) || c.generation == g
  {
    var more := completed + [c];
    if k :| 0 <= k < |completed| && completed[k].generation == g {
      assert more[k] == completed[k];
    }
    assert more[|completed|] == c;
  }

  lemma StepKeeps(w: World, e: Event)
    requires Invariant(w) && Enabled(w, e)
    ensures Invariant(Next(w, e))
  {
    hide Invariant, Enabled;
    match e
    case Enqueue(r) => EnqueueKeeps(w, r);
    case Cancel(id) => CancelKeeps(w, id);
    case Stop => StopKeeps(w);
    case NotifyOne(i) => NotifyOneKeeps(w, i);
    case NotifyAll => NotifyAllKeeps(w);
    case Wake(i) => WakeKeeps(w, i);
    case Take(i) => TakeKeeps(w, i);
    case Answer(i, result) => AnswerKeeps(w, i, result);
    case Retire(i) => RetireKeeps(w, i);
    case Report(i) => ReportKeeps(w, i);
  }

  // ------------------------------------------------------------- whole runs

  ghost predicate Runnable(w: World, trace: seq<Event>)
    decreases |trace|
  {
    trace == [] || (Enabled(w, trace[0]) && Runnable(Next(w, trace[0]), trace[1..]))
  }

  ghost function After(w: World, trace: seq<Event>): World
    requires Runnable(w, trace)
    decreases |trace|
  {
    if trace == [] then w else After(Next(w, trace[0]), trace[1..])
  }

  /** The invariant holds in every state of every interleaving. */
  lemma {:induction false} InvariantAlways(w: World, trace: seq<Event>)
    requires Invariant(w) && Runnable(w, trace)
    ensures Invariant(After(w, trace))
    decreases |trace|
  {
    hide Invariant, Next, Enabled;
    if trace != [] {
      StepKeeps(w, trace[0]);
      InvariantAlways(Next(w, trace[0]), trace[1..]);
    }
  }

  /** How often a generation has been reported to the listeners. */
  function Times(completed: seq<Completion>, g: nat): nat {
    if completed == [] then 0
    else Times(completed[..|completed| - 1], g) + if completed[|completed| - 1].generation == g then 1 else 0
  }

  lemma {:induction false} TimesOnce(completed: seq<Completion>, g: nat)
    requires forall a, b :: 0 <= a < b < |completed| ==> completed[a].generation != completed[b].generation
    ensures Times(completed, g) == if IsCompleted(completed, g) then 1 else 0
    decreases |completed|
  {
    if completed != [] {
      var n := |completed| - 1;
      TimesOnce(completed[..n], g);
      CompletedMore(completed[..n], completed[n], g);
      assert completed[..n] + [completed[n]] == completed;
      if IsCompleted(completed[..n], g) {
        var k :| 0 <= k < n && completed[..n][k].generation == g;
        assert completed[k].generation == g;
      }
    }
  }

  /**
    Exactly once: at any moment an accepted request is in the queue, or in the hands of a worker, or
    has been reported exactly once; and nothing else is ever reported.
   */
  lemma ReportedExactlyOnce(w: World, g: nat)
    requires Invariant(w)
    ensures 1 <= g <= |w.accepted| ==>
              if g > w.popped then Times(w.completed, g) == 0 && w.accepted[g - 1] in w.queue
              else if IsHeld(w.workers, g) then Times(w.completed, g) == 0
              else Times(w.completed, g) == 1
    ensures !(1 <= g <= |w.accepted|) ==> Times(w.completed, g) == 0
  {
    TimesOnce(w.completed, g);
    if g > w.popped && g <= |w.accepted| {
      assert w.queue[g - 1 - w.popped] == w.accepted[g - 1];
    }
    if IsHeld(w.workers, g) {
      var i :| 0 <= i < |w.workers| && HoldsGeneration(w.workers[i], g);
      assert HeldRightly(w, w.workers[i]);
    }
  }

  /** Both workers are gone and nothing waits. */
  ghost predicate Drained(w: World) {
    AllExited(w) && w.queue == []
  }

  predicate AllExited(w: World) {
    forall i :: 0 <= i < |w.workers| ==> w.workers[i].Exited?
  }

  /** A worker leaves only when nothing waits, so after the last one every accepted request has been reported once. */
  lemma NothingLeftBehind(w: World)
    requires Invariant(w) && Drained(w)
    ensures forall g :: 1 <= g <= |w.accepted| ==> Times(w.completed, g) == 1
    ensures |w.completed| == |w.accepted|
    ensures w.marks == {} && forall id :: ActiveOf(w.accepted, w.retired, id) == []
  {
    NobodyHolds(w);
    IdleTablesEmpty(w);
    forall g | 1 <= g <= |w.accepted|
      ensures Times(w.completed, g) == 1
    {
      ReportedExactlyOnce(w, g);
    }
    hide Invariant;
    assert |w.completed| == |w.accepted| by {
      CompletedCount(w);
    }
  }

  lemma NobodyHolds(w: World)
    requires AllExited(w)
    ensures forall g: nat :: !IsHeld(w.workers, g)
  {
  }

  /** Distinct numbers out of 1..n that cover all of them are n many. */
  lemma CompletedCount(w: World)
    requires Invariant(w) && w.queue == [] && forall g: nat :: !IsHeld(w.workers, g)
    ensures |w.completed| == |w.accepted|
  {
    var c, n := w.completed, |w.accepted|;
    DistinctCount(c);
    NumbersCount(n);
    forall g
      ensures g in GenerationsOf(c) <==> g in Numbers(n)
    {
      if g in Numbers(n) {
        assert IsHeld(w.workers, g) || IsCompleted(c, g);
      }
    }
    assert GenerationsOf(c) == Numbers(n);
  }

  function GenerationsOf(c: seq<Completion>): (generations: set<nat>)
    ensures forall g :: g in generations <==> IsCompleted(c, g)
  {
    if c == [] then {}
    else
      var n := |c| - 1;
      CompletedLast(c);
      GenerationsOf(c[..n]) + {c[n].generation}
  }

  lemma CompletedLast(c: seq<Completion>)
    requires c != []
    ensures forall g: nat :: IsCompleted(c, g) <==> IsCompleted(c[..|c| - 1], g) || g == c[|c| - 1].generation
  {
    var n := |c| - 1;
    assert c == c[..n] + [c[n]];
    forall g: nat
      ensures IsCompleted(c, g) <==> IsCompleted(c[..n], g) || g == c[n].generation
    {
      CompletedMore(c[..n], c[n], g);
    }
  }

  function Numbers(n: nat): (numbers: set<nat>)
    ensures forall g :: g in numbers <==> 1 <= g <= n
  {
    if n == 0 then {} else Numbers(n - 1) + {n}
  }

  lemma {:induction false} DistinctCount(c: seq<Completion>)
    requires forall a, b :: 0 <= a < b < |c| ==> c[a].generation != c[b].generation
    ensures |GenerationsOf(c)| == |c|
    decreases |c|
  {
    if c != [] {
      var n := |c| - 1;
      DistinctCount(c[..n]);
      assert c[n].generation !in GenerationsOf(c[..n]);
    }
  }

  lemma {:induction false} NumbersCount(n: nat)
    ensures |Numbers(n)| == n
  {
    if n > 0 {
      NumbersCount(n - 1);
    }
  }

  /** Whenever nothing is queued or held, no mark and no active generation is left over. */
  lemma IdleTablesEmpty(w: World)
    requires Invariant(w) && w.queue == [] && forall g: nat :: !IsHeld(w.workers, g)
    ensures w.marks == {} && forall id :: ActiveOf(w.accepted, w.retired, id) == []
  {
    forall g | 1 <= g <= |w.accepted|
      ensures g in w.retired
    {
      assert IsHeld(w.workers, g) || IsCompleted(w.completed, g);
    }
    forall id
      ensures ActiveOf(w.accepted, w.retired, id) == []
    {
      var active := ActiveOf(w.accepted, w.retired, id);
      if active != [] {
        ActiveMember(w.accepted, w.retired, id, 0);
        assert false;
      }
    }
  }

  // ------------------------------------------------------------------ draining

  predicate Internal(e: Event) {
    e.NotifyOne? || e.NotifyAll? || e.Wake? || e.Take? || e.Answer? || e.Retire? || e.Report?
  }

  function Weight(p: Phase): nat {
    match p
    case Exited => 0
    case Awake => 1
    case Asleep => 2
    case Reporting(_, _) => 3
    case Dropping(_) => 4
    case Answered(_, _) => 4
    case Sending(_) => 5
  }

  function Weights(workers: seq<Phase>): nat {
    if workers == [] then 0 else Weight(workers[0]) + Weights(workers[1..])
  }

  /** What is left to do once the worker has been stopped. */
  function Work(w: World): nat {
    5 * |w.queue| + Weights(w.workers) + w.notifies + if w.stopSignal then 1 else 0
  }

  lemma {:induction false} WeightsReplaced(workers: seq<Phase>, i: nat, p: Phase)
    requires i < |workers|
    ensures Weights(workers[i := p]) == Weights(workers) - Weight(workers[i]) + Weight(p)
  {
    var next := workers[i := p];
    if i == 0 {
      assert next[1..] == workers[1..];
    } else {
      assert next[1..] == workers[1..][i - 1 := p];
      WeightsReplaced(workers[1..], i - 1, p);
    }
  }

  lemma {:induction false} WeightsWakened(workers: seq<Phase>)
    ensures Weights(AllWakened(workers)) <= Weights(workers)
  {
    if workers != [] {
      WeightsWakened(workers[1..]);
    }
  }

  /** After a stop every internal step leaves less work. */
  lemma DrainDecreases(w: World, e: Event)
    requires !w.running && Internal(e) && Enabled(w, e)
    ensures Work(Next(w, e)) < Work(w) && !Next(w, e).running
  {
    hide Weights;
    match e
    case NotifyOne(i) => WeightsReplaced(w.workers, i, Wakened(w.workers[i]));
    case NotifyAll => WeightsWakened(w.workers);
    case Wake(i) => WeightsReplaced(w.workers, i, Awake);
    case Take(i) => WeightsReplaced(w.workers, i, Next(w, e).workers[i]);
    case Answer(i, result) => WeightsReplaced(w.workers, i, Next(w, e).workers[i]);
    case Retire(i) => WeightsReplaced(w.workers, i, Next(w, e).workers[i]);
    case Report(i) => WeightsReplaced(w.workers, i, Awake);
  }

  /** A stopped worker is never stuck: until both threads have left, some step other than a spurious wake-up can happen. */
  lemma StopNeverHangs(w: World) returns (e: Event)
    requires Invariant(w) && !w.running && !AllExited(w)
    ensures Internal(e) && !e.Wake? && Enabled(w, e)
  {
    var i :| 0 <= i < |w.workers| && !w.workers[i].Exited?;
    match w.workers[i]
    case Awake => e := Take(i);
    case Asleep => e := NotifyAll;
    case Dropping(_) => e := Retire(i);
    case Answered(_, _) => e := Retire(i);
    case Sending(_) => e := Answer(i, HttpResult(0, "", ""));
    case Reporting(_, _) => e := Report(i);
  }

  /** Neither is a running one: while requests wait, some step other than a spurious wake-up can happen. */
  lemma QueueNeverHangs(w: World) returns (e: Event)
    requires Invariant(w) && w.running && w.queue != []
    ensures Internal(e) && !e.Wake? && Enabled(w, e)
  {
    if AllAsleep(w) {
      e := NotifyOne(0);
    } else {
      var i :| 0 <= i < |w.workers| && !w.workers[i].Asleep?;
      assert !w.workers[i].Exited?;
      match w.workers[i]
      case Awake => e := Take(i);
      case Dropping(_) => e := Retire(i);
      case Answered(_, _) => e := Retire(i);
      case Sending(_) => e := Answer(i, HttpResult(0, "", ""));
      case Reporting(_, _) => e := Report(i);
    }
  }

  /** No drain is longer than the work that was left. */
  lemma {:induction false} DrainEnds(w: World, trace: seq<Event>)
    requires !w.running && Runnable(w, trace) && forall k :: 0 <= k < |trace| ==> Internal(trace[k])
    ensures |trace| <= Work(w) && !After(w, trace).running
    decreases |trace|
  {
    hide Enabled, Next, Work, Internal;
    if trace != [] {
      DrainDecreases(w, trace[0]);
      DrainEnds(Next(w, trace[0]), trace[1..]);
    }
  }

  /** A worker that leaves, leaves nothing waiting. */
  ghost predicate LeavesNothing(w: World) {
    AllExited(w) ==> w.queue == []
  }

  lemma InternalLeavesNothing(w: World, e: Event)
    requires Invariant(w) && LeavesNothing(w) && Internal(e) && Enabled(w, e)
    ensures LeavesNothing(Next(w, e)) && Next(w, e).accepted == w.accepted
  {
    var next := Next(w, e);
    hide Invariant;
    if AllExited(next) {
      if e.Take? && w.queue == [] {
      } else {
        forall i | 0 <= i < |w.workers|
          ensures w.workers[i].Exited?
        {
          assert next.workers[i].Exited?;
        }
      }
    }
  }

  lemma {:induction false} DrainLeavesNothing(w: World, trace: seq<Event>)
    requires Invariant(w) && LeavesNothing(w) && Runnable(w, trace)
    requires forall k :: 0 <= k < |trace| ==> Internal(trace[k])
    ensures LeavesNothing(After(w, trace)) && After(w, trace).accepted == w.accepted
    decreases |trace|
  {
    hide Enabled, Invariant, LeavesNothing, Internal;
    if trace != [] {
      InternalLeavesNothing(w, trace[0]);
      StepKeeps(w, trace[0]);
      DrainLeavesNothing(Next(w, trace[0]), trace[1..]);
    }
  }

  /**
    Draining: once stopped, every run of the two threads is finite, and when it can go no further
    both have left and every request accepted before has been reported exactly once.
   */
  lemma DrainReportsAll(w: World, trace: seq<Event>)
    requires Invariant(w) && !w.running && LeavesNothing(w) && Runnable(w, trace)
    requires forall k :: 0 <= k < |trace| ==> Internal(trace[k])
    ensures |trace| <= Work(w)
    ensures var end := After(w, trace);
            (forall e :: Internal(e) ==> !Enabled(end, e)) ==>
              && Drained(end)
              && forall g :: 1 <= g <= |w.accepted| ==> Times(end.completed, g) == 1
  {
    DrainEnds(w, trace);
    DrainLeavesNothing(w, trace);
    InvariantAlways(w, trace);
    var end := After(w, trace);
    hide Invariant, Enabled, Work, After, Runnable, Internal;
    if forall e :: Internal(e) ==> !Enabled(end, e) {
      if !AllExited(end) {
        var e := StopNeverHangs(end);
        assert false;
      }
      NothingLeftBehind(end);
    }
  }

  /** Shutdown drains whatever state a stop finds the running worker in. */
  lemma ShutdownDrains(w: World, trace: seq<Event>)
    requires Invariant(w) && w.running && Runnable(StopStep(w), trace)
    requires forall k :: 0 <= k < |trace| ==> Internal(trace[k])
    ensures |trace| <= Work(StopStep(w))
    ensures var end := After(StopStep(w), trace);
            (forall e :: Internal(e) ==> !Enabled(end, e)) ==>
              && Drained(end)
              && forall g :: 1 <= g <= |w.accepted| ==> Times(end.completed, g) == 1
  {
    StopKeeps(w);
    assert LeavesNothing(StopStep(w)) by {
      assert !AnyExited(w) && !w.workers[0].Exited?;
      assert StopStep(w).workers == w.workers;
    }
    hide Invariant, Enabled, Work, After, Runnable, Internal, LeavesNothing;
    DrainReportsAll(StopStep(w), trace);
  }

  // ------------------------------------------------------------ the counters

  function InFlight(workers: seq<Phase>): (n: nat)
    ensures n <= |workers|
  {
    if workers == [] then 0 else (if workers[0].Sending? then 1 else 0) + InFlight(workers[1..])
  }

  lemma {:induction false} InFlightReplaced(workers: seq<Phase>, i: nat, p: Phase)
    requires i < |workers|
    ensures InFlight(workers[i := p]) ==
            InFlight(workers) - (if workers[i].Sending? then 1 else 0) + if p.Sending? then 1 else 0
  {
    var next := workers[i := p];
    if i == 0 {
      assert next[1..] == workers[1..];
    } else {
      assert next[1..] == workers[1..][i - 1 := p];
      InFlightReplaced(workers[1..], i - 1, p);
    }
  }

  lemma {:induction false} InFlightWakened(workers: seq<Phase>)
    ensures InFlight(AllWakened(workers)) == InFlight(workers)
  {
    if workers != [] {
      InFlightWakened(workers[1..]);
    }
  }

  // --------------------------------------------------- after the last exit

  lemma ExitedStays(w: World, e: Event)
    requires AllExited(w) && Enabled(w, e)
    ensures var next := Next(w, e);
            AllExited(next) && next.completed == w.completed && next.popped == w.popped && |next.queue| >= |w.queue|
  {
  }

  /** Nothing in the original stops a caller from enqueueing after the threads have left. */
  lemma {:induction false} AcceptedAfterExitNeverReported(w: World, trace: seq<Event>)
    requires Invariant(w) && AllExited(w) && Runnable(w, trace)
    ensures AllExited(After(w, trace)) && After(w, trace).completed == w.completed && After(w, trace).popped == w.popped
    ensures w.queue != [] ==> After(w, trace).queue != []
    decreases |trace|
  {
    hide Invariant, Enabled, Next, AllExited;
    if trace != [] {
      StepKeeps(w, trace[0]);
      ExitedStays(w, trace[0]);
      AcceptedAfterExitNeverReported(Next(w, trace[0]), trace[1..]);
    }
  }

  /** Such a run from the start: the worker is stopped, both threads find nothing to do and leave, and then a request comes in. */
  lemma RequestAfterLastExit(r: WorkerRequest) returns (trace: seq<Event>)
    requires WellFormed(r)
    ensures trace == [Stop, Take(0), Take(1), Enqueue(r)] && Runnable(START, trace) && Runnable(START, trace[..3])
    ensures var w := After(START, trace[..3]); !w.running && AllExited(w) && w.accepted == [] && Accepts(w, r)
    ensures After(START, trace).accepted == [r.(generation := 1)]
    ensures forall more :: Runnable(After(START, trace), more) ==> After(After(START, trace), more).completed == []
  {
    trace := [Stop, Take(0), Take(1), Enqueue(r)];
    var w1 := StopStep(START);
    var w2 := TakeStep(w1, 0);
    var w3 := TakeStep(w2, 1);
    var w4 := EnqueueStep(w3, r);
    assert w3.workers == [Exited, Exited];
    assert trace == [Stop] + ([Take(0)] + ([Take(1)] + [Enqueue(r)]));
    assert trace[..3] == [Stop] + ([Take(0)] + [Take(1)]);
    StartInvariant();
    hide TakeStep, StopStep, EnqueueStep, Invariant, Accepts, WellFormed;
    OneEvent(w3, Enqueue(r));
    OneEvent(w2, Take(1));
    OneEventFirst(w2, Take(1), [Enqueue(r)]);
    OneEventFirst(w1, Take(0), [Take(1)] + [Enqueue(r)]);
    OneEventFirst(w1, Take(0), [Take(1)]);
    OneEventFirst(START, Stop, [Take(0)] + ([Take(1)] + [Enqueue(r)]));
    OneEventFirst(START, Stop, [Take(0)] + [Take(1)]);
    InvariantAlways(START, trace);
    forall more | Runnable(w4, more)
      ensures After(w4, more).completed == []
    {
      AcceptedAfterExitNeverReported(w4, more);
    }
  }

  lemma OneEvent(w: World, e: Event)
    requires Enabled(w, e)
    ensures Runnable(w, [e]) && After(w, [e]) == Next(w, e)
  {
    hide Enabled, Next;
    assert [e][1..] == [];
    assert Runnable(Next(w, e), []) && After(Next(w, e), []) == Next(w, e);
  }

  lemma OneEventFirst(w: World, e: Event, rest: seq<Event>)
    requires Enabled(w, e) && Runnable(Next(w, e), rest)
    ensures Runnable(w, [e] + rest) && After(w, [e] + rest) == After(Next(w, e), rest)
  {
    hide Enabled, Next;
    assert ([e] + rest)[1..] == rest;
  }

  /** The threads have done all they can. */
  ghost predicate Finished(w: World) {
    forall e :: Internal(e) ==> !Enabled(w, e)
  }

  /**
    A request that a stopped worker accepts is reported, once the threads have done all they can, if
    and only if one of them was still there: a listener that enqueues during the shutdown is
    served, and a caller who comes after the last thread has left is not.
   */
  lemma AcceptedWhenStoppedIsReportedIff(w: World, r: WorkerRequest, trace: seq<Event>)
    requires Invariant(w) && !w.running && Accepts(w, r)
    requires Runnable(EnqueueStep(w, r), trace) && forall k :: 0 <= k < |trace| ==> Internal(trace[k])
    requires Finished(After(EnqueueStep(w, r), trace))
    ensures Times(After(EnqueueStep(w, r), trace).completed, |w.accepted| + 1) == if AllExited(w) then 0 else 1
  {
    var next, g := EnqueueStep(w, r), |w.accepted| + 1;
    StepKeeps(w, Enqueue(r));
    assert next.workers == w.workers && next.running == w.running && |next.accepted| == g && next.completed == w.completed;
    hide EnqueueStep, Runnable, After, Internal, Times, Accepts, Work, Enabled;
    if AllExited(w) {
      AcceptedAfterExitNeverReported(next, trace);
      ReportedExactlyOnce(w, g);
    } else {
      assert LeavesNothing(next);
      DrainReportsAll(next, trace);
    }
  }

  // ------------------------------------------------------------------ cancels

  /** A cancel picks the newest active request of that id, and a cancel without one changes nothing. */
  lemma CancelPicksNewest(w: World, id: string)
    requires Invariant(w)
    ensures var next := CancelStep(w, id);
            if exists g :: IsActive(w.accepted, w.retired, id, g) then
              exists g :: && IsActive(w.accepted, w.retired, id, g)
                          && (forall h :: IsActive(w.accepted, w.retired, id, h) ==> h <= g)
                          && next.everCancelled == w.everCancelled + {g} && next.marks == w.marks + {g}
            else next == w
  {
    var active := ActiveOf(w.accepted, w.retired, id);
    if active != [] {
      var newest := active[|active| - 1];
      ActiveMember(w.accepted, w.retired, id, |active| - 1);
      ActiveIncreases(w.accepted, w.retired, id);
      hide ActiveOf, Invariant;
      forall h | IsActive(w.accepted, w.retired, id, h)
        ensures h <= newest
      {
        ActiveListed(w.accepted, w.retired, id, h);
      }
      assert IsActive(w.accepted, w.retired, id, newest);
    } else if g :| IsActive(w.accepted, w.retired, id, g) {
      ActiveListed(w.accepted, w.retired, id, g);
      assert false;
    }
  }

  lemma StoppedStaysStopped(w: World, e: Event)
    requires Enabled(w, e) && !w.running
    ensures !Next(w, e).running && Next(w, e).sent == w.sent
  {
  }

  /** Once the worker is stopped, nothing more is handed to the adapter. */
  lemma {:induction false} StoppedSendsNothing(w: World, trace: seq<Event>)
    requires Runnable(StopStep(w), trace)
    ensures After(StopStep(w), trace).sent == w.sent
  {
    StoppedSendsNothingMore(StopStep(w), trace);
  }

  lemma {:induction false} StoppedSendsNothingMore(w: World, trace: seq<Event>)
    requires !w.running && Runnable(w, trace)
    ensures After(w, trace).sent == w.sent
    decreases |trace|
  {
    hide Enabled, Next;
    if trace != [] {
      StoppedStaysStopped(w, trace[0]);
      StoppedSendsNothingMore(Next(w, trace[0]), trace[1..]);
    }
  }

  lemma HistoryGrows(w: World, e: Event)
    requires Enabled(w, e)
    ensures w.cancelledWhileQueued <= Next(w, e).cancelledWhileQueued
  {
  }

  lemma {:induction false} HistoryKept(w: World, trace: seq<Event>)
    requires Runnable(w, trace)
    ensures w.cancelledWhileQueued <= After(w, trace).cancelledWhileQueued
    decreases |trace|
  {
    if trace != [] {
      HistoryGrows(w, trace[0]);
      HistoryKept(Next(w, trace[0]), trace[1..]);
    }
  }

  /**
    A request cancelled while it waits never reaches the adapter, whatever happens afterwards; if it
    is reported at all, then as cancelled.
   */
  lemma CancelledWhileQueuedIsNeverSent(w: World, id: string, trace: seq<Event>)
    requires Invariant(w) && Runnable(CancelStep(w, id), trace)
    requires var active := ActiveOf(w.accepted, w.retired, id); active != [] && active[|active| - 1] > w.popped
    ensures var active := ActiveOf(w.accepted, w.retired, id);
            var g := active[|active| - 1];
            var end := After(CancelStep(w, id), trace);
            && g !in end.sent
            && forall k :: 0 <= k < |end.completed| && end.completed[k].generation == g ==> end.completed[k].Cancelled?
  {
    CancelKeeps(w, id);
    InvariantAlways(CancelStep(w, id), trace);
    HistoryKept(CancelStep(w, id), trace);
    hide Runnable, After, ActiveOf;
  }
}
