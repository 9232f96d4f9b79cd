/**
  Whole runs of the segment store: any number of sessions, any commands, any file failures, any
  segments unreadable in any session. This is the repository's differential test
  (cpp/bindings/HybridAmplitudeStorageTest.cpp:3372-3469) for every run instead of 24 seeds.
 */
module StoreRuns {
  import opened Wrappers
  import opened SegmentCodec
  import opened Replay
  import opened SegmentInvariant
  import opened SegmentRecovery
  import opened FileAdapters
  import opened JsonlSegmentStores

  datatype Command = Set(key: Bytes, value: Bytes) | Delete(key: Bytes) | Get(key: Bytes)

  /** What the caller is told. */
  datatype Reply = Done | Thrown | Found(value: Option<Bytes>)

  /** The reference: a plain map of everything stored, and one of what this session can see. */
  datatype Maps = Maps(visible: Contents, full: Contents)

  function After(m: Maps, command: Command, reply: Reply): Maps {
    if !reply.Done? then m
    else
      match command
      case Set(k, v) => Maps(m.visible[k := v], m.full[k := v])
      case Delete(k) => if k in m.visible then Maps(m.visible - {k}, m.full - {k}) else m
      case Get(_) => m
  }

  function AfterAll(m: Maps, commands: seq<Command>, replies: seq<Reply>): Maps
    requires |commands| == |replies|
  {
    if commands == [] then m
    else
      var n := |commands| - 1;
      After(AfterAll(m, commands[..n], replies[..n]), commands[n], replies[n])
  }

  /** A read answers with the visible value; with nothing only if a read failed or there is none. */
  predicate Truthful(m: Maps, command: Command, reply: Reply) {
    match command
    case Get(k) => reply.Found? && (reply.value.Some? ==> k in m.visible && m.visible[k] == reply.value.value)
    case _ => reply.Done? || reply.Thrown?
  }

  ghost predicate AllTruthful(m: Maps, commands: seq<Command>, replies: seq<Reply>)
    requires |commands| == |replies|
  {
    forall i :: 0 <= i < |commands| ==> Truthful(AfterAll(m, commands[..i], replies[..i]), commands[i], replies[i])
  }

  /**
    The history of a session: `marks[i]` is the history when command i starts, `marks[0]` after the
    opening. While the store is opened every disk holds what was there before, and while command i
    runs every disk holds what the first i or the first i + 1 commands leave.
   */
  ghost predicate Stepwise(marks: seq<seq<Disk>>, earlier: seq<Disk>, limit: nat, m: Maps, commands: seq<Command>, replies: seq<Reply>)
    requires |commands| == |replies|
  {
    && |marks| == |commands| + 1
    && Steady(marks[0], earlier, limit, m.full)
    && forall i :: 0 <= i < |commands| ==>
         SteadyOr(marks[i + 1], marks[i], limit, AfterAll(m, commands[..i], replies[..i]).full,
                  AfterAll(m, commands[..i + 1], replies[..i + 1]).full)
  }

  lemma AfterAllSnoc(m: Maps, commands: seq<Command>, replies: seq<Reply>, command: Command, reply: Reply)
    requires |commands| == |replies|
    ensures AfterAll(m, commands + [command], replies + [reply]) == After(AfterAll(m, commands, replies), command, reply)
  {
    assert (commands + [command])[..|commands|] == commands;
    assert (replies + [reply])[..|replies|] == replies;
  }

  lemma TruthfulSnoc(m: Maps, commands: seq<Command>, replies: seq<Reply>, command: Command, reply: Reply)
    requires |commands| == |replies| && AllTruthful(m, commands, replies)
    requires Truthful(AfterAll(m, commands, replies), command, reply)
    ensures AllTruthful(m, commands + [command], replies + [reply])
  {
    hide AfterAll, Truthful;
    var cs, rs := commands + [command], replies + [reply];
    forall i | 0 <= i < |cs|
      ensures Truthful(AfterAll(m, cs[..i], rs[..i]), cs[i], rs[i])
    {
      if i < |commands| {
        assert cs[..i] == commands[..i] && rs[..i] == replies[..i];
      } else {
        assert cs[..i] == commands && rs[..i] == replies;
      }
    }
  }

  /** One more command, which passed only through disks of before and disks of after. */
  lemma StepwiseSnoc(marks: seq<seq<Disk>>, earlier: seq<Disk>, next: seq<Disk>, limit: nat,
                     m: Maps, commands: seq<Command>, replies: seq<Reply>, command: Command, reply: Reply)
    requires |commands| == |replies| && Stepwise(marks, earlier, limit, m, commands, replies)
    requires SteadyOr(next, marks[|commands|], limit, AfterAll(m, commands, replies).full,
                      AfterAll(m, commands + [command], replies + [reply]).full)
    ensures Stepwise(marks + [next], earlier, limit, m, commands + [command], replies + [reply])
  {
    hide AfterAll, SteadyOr, Steady;
    var cs, rs, all := commands + [command], replies + [reply], marks + [next];
    forall i | 0 <= i < |cs|
      ensures SteadyOr(all[i + 1], all[i], limit, AfterAll(m, cs[..i], rs[..i]).full, AfterAll(m, cs[..i + 1], rs[..i + 1]).full)
    {
      if i < |commands| {
        assert cs[..i] == commands[..i] && rs[..i] == replies[..i];
        assert cs[..i + 1] == commands[..i + 1] && rs[..i + 1] == replies[..i + 1];
        assert all[i] == marks[i] && all[i + 1] == marks[i + 1];
      } else {
        assert cs[..i] == commands && rs[..i] == replies && cs[..i + 1] == cs && rs[..i + 1] == rs;
      }
    }
  }

  /**
    Wherever the process stops, no command that has been answered is lost, and none that has not been
    asked for is there: a disk between the start of command i and the start of command n holds what
    some number of commands from i to n leave.
   */
  lemma {:induction false} AcknowledgedIsDurable(marks: seq<seq<Disk>>, earlier: seq<Disk>, limit: nat, m: Maps,
                                                 commands: seq<Command>, replies: seq<Reply>, i: nat, n: nat, t: nat)
    requires |commands| == |replies| && Stepwise(marks, earlier, limit, m, commands, replies)
    requires i <= n <= |commands| && |marks[i]| <= t < |marks[n]|
    ensures exists c: nat :: i <= c <= n && Holds(marks[n][t], limit, AfterAll(m, commands[..c], replies[..c]).full)
    decreases n
  {
    hide AfterAll, Holds;
    if n > i {
      assert SteadyOr(marks[n], marks[n - 1], limit, AfterAll(m, commands[..n - 1], replies[..n - 1]).full,
                      AfterAll(m, commands[..n], replies[..n]).full);
      if t < |marks[n - 1]| {
        AcknowledgedIsDurable(marks, earlier, limit, m, commands, replies, i, n - 1, t);
        assert marks[n][t] == marks[n - 1][t];
      }
    }
  }

  /** Where a session starts that cannot read the segments in `hidden`. */
  ghost function Opened(first: Disk, hidden: set<nat>, limit: nat): Maps {
    Maps(Replayed(first - hidden, limit), Replayed(first, limit))
  }

  /** While the directory cannot be listed, writes are refused and reads find nothing. */
  predicate Idle(commands: seq<Command>, replies: seq<Reply>)
    requires |commands| == |replies|
  {
    forall i :: 0 <= i < |commands| ==> replies[i] == if commands[i].Get? then Found(None) else Thrown
  }

  lemma {:induction false} IdleChangesNothing(m: Maps, commands: seq<Command>, replies: seq<Reply>)
    requires |commands| == |replies| && Idle(commands, replies)
    ensures AfterAll(m, commands, replies) == m
  {
    if commands != [] {
      var n := |commands| - 1;
      IdleChangesNothing(m, commands[..n], replies[..n]);
    }
  }

  lemma IdleIsTruthful(m: Maps, commands: seq<Command>, replies: seq<Reply>)
    requires |commands| == |replies| && Idle(commands, replies)
    ensures AllTruthful(m, commands, replies)
  {
    hide AfterAll;
  }

  /** Refused commands leave the disk as it was. */
  lemma IdleStepwise(marks: seq<seq<Disk>>, earlier: seq<Disk>, limit: nat, m: Maps, commands: seq<Command>, replies: seq<Reply>)
    requires |commands| == |replies| && Idle(commands, replies) && SteadyMarks(marks, earlier, limit, m.full)
    requires |marks| == |commands| + 1
    ensures Stepwise(marks, earlier, limit, m, commands, replies)
  {
    hide AfterAll, Steady, SteadyOr;
    forall i | 0 <= i < |commands|
      ensures SteadyOr(marks[i + 1], marks[i], limit, AfterAll(m, commands[..i], replies[..i]).full,
                       AfterAll(m, commands[..i + 1], replies[..i + 1]).full)
    {
      IdleChangesNothing(m, commands[..i], replies[..i]);
      IdleChangesNothing(m, commands[..i + 1], replies[..i + 1]);
      SteadyEither(marks[i], marks[i + 1], limit, m.full);
    }
  }

  lemma SteadyEither(before: seq<Disk>, instants: seq<Disk>, limit: nat, m: Contents)
    requires Steady(instants, before, limit, m)
    ensures SteadyOr(instants, before, limit, m, m)
  {
  }

  /** The history so far, mark by mark, when nothing has changed. */
  ghost predicate SteadyMarks(marks: seq<seq<Disk>>, earlier: seq<Disk>, limit: nat, m: Contents) {
    && marks != []
    && Steady(marks[0], earlier, limit, m)
    && forall i :: 0 <= i < |marks| - 1 ==> Steady(marks[i + 1], marks[i], limit, m)
  }

  /** No store with this limit ever writes the command: its key is reserved or its record too long. */
  predicate Unwritable(command: Command, limit: nat) {
    match command
    case Set(k, v) => k == TOMBSTONE_KEY || |EncodeLine(k, v)| > limit
    case Delete(k) => |EncodeLine(TOMBSTONE_KEY, k)| > limit
    case Get(_) => false
  }

  /** What a store answers in which no file call fails: the command and the reference decide it. */
  function Answer(m: Maps, command: Command, limit: nat): Reply {
    match command
    case Set(_, _) => if Unwritable(command, limit) then Thrown else Done
    case Delete(k) => if k in m.visible && Unwritable(command, limit) then Thrown else Done
    case Get(k) => Found(Lookup(m.visible, k))
  }

  /** The replies of the reference to a whole list of commands. */
  function Answers(m: Maps, commands: seq<Command>, limit: nat): (replies: seq<Reply>)
    ensures |replies| == |commands|
  {
    if commands == [] then []
    else
      var n := |commands| - 1;
      var init := Answers(m, commands[..n], limit);
      init + [Answer(AfterAll(m, commands[..n], init), commands[n], limit)]
  }

  lemma AnswersSnoc(m: Maps, commands: seq<Command>, command: Command, limit: nat)
    ensures var replies := Answers(m, commands, limit);
            Answers(m, commands + [command], limit) == replies + [Answer(AfterAll(m, commands, replies), command, limit)]
  {
    hide AfterAll, Answer;
    assert (commands + [command])[..|commands|] == commands;
  }

  /** All segment ids lie below `top`, and so do the next `count` ids below the last one. */
  ghost predicate Roomy(disk: Disk, top: nat, count: nat) {
    0 < top && top + count <= MAX_SEGMENT_ID && forall id :: id in disk ==> id < top
  }

  lemma StillRoomy(s: Snapshot, a: nat, top: nat)
    requires Appendable(s, a) && a < top <= MAX_SEGMENT_ID
    ensures Roomy(s.disk, top, 0)
  {
  }

  /** Carries out one command. When no file call fails, it is carried out in full and reads are exact. */
  method Step(store: JsonlSegmentStore, command: Command) returns (reply: Reply)
    requires store.Valid()
    modifies store, store.fileAdapter
    ensures store.Valid()
    ensures old(store.loaded) ==> store.loaded && store.unreadableSegments == old(store.unreadableSegments)
    ensures !store.loaded ==> store.fileAdapter.files == old(store.fileAdapter.files)
    ensures !store.loaded ==> reply == if command.Get? then Found(None) else Thrown
    ensures store.loaded ==>
              var m := Maps(Replayed(old(store.fileAdapter.files) - store.unreadableSegments, store.maxRecordBytes), old(store.FullMap()));
              Truthful(m, command, reply) && Maps(store.VisibleMap(), store.FullMap()) == After(m, command, reply)
    ensures SteadyOr(store.fileAdapter.instants, old(store.fileAdapter.instants), store.maxRecordBytes,
                     old(store.FullMap()), store.FullMap())
    ensures reply.Thrown? ==> || store.fileAdapter.failures > old(store.fileAdapter.failures)
                              || store.appendsDisabled || Unwritable(command, store.maxRecordBytes)
    ensures command.Get? ==> || store.fileAdapter.failures > old(store.fileAdapter.failures)
                             || reply == Found(Lookup(store.VisibleMap(), command.key))
    ensures store.fileAdapter.failures >= old(store.fileAdapter.failures)
    ensures old(store.loaded) && !old(store.appendsDisabled) && store.fileAdapter.failures == old(store.fileAdapter.failures) ==>
              && store.activeSegment <= old(store.activeSegment) + 1
              && (store.appendsDisabled ==> store.activeSegment == MAX_SEGMENT_ID)
              && (!store.appendsDisabled ==> reply == Answer(old(Maps(store.VisibleMap(), store.FullMap())), command, store.maxRecordBytes))
  {
    hide Consistent, Replayed, Appendable, DeletionsAsWritten, EncodeLine;
    ghost var before := store.fileAdapter.files;
    match command {
      case Set(key, value) =>
        var result := store.SetDisk(key, value);
        reply := if result.Stored? then Done else Thrown;
      case Delete(key) =>
        var ok := store.DeleteDisk(key);
        ghost var seen := Replayed(before - store.unreadableSegments, store.maxRecordBytes);
        assert key !in seen ==> seen - {key} == seen;
        assert old(store.loaded) ==> seen == old(store.VisibleMap());
        reply := if ok then Done else Thrown;
      case Get(key) =>
        var value := store.GetDisk(key);
        reply := Found(value);
    }
  }

  /**
    What a session on the disk `before` guarantees: the disk replays to what the reference holds,
    every reply was truthful, and the disk held a prefix of the session at every instant.
   */
  ghost predicate Faithful(before: Disk, after: Disk, limit: nat, hidden: set<nat>, commands: seq<Command>, replies: seq<Reply>,
                           marks: seq<seq<Disk>>, earlier: seq<Disk>) {
    && |replies| == |commands|
    && Replayed(after, limit) == AfterAll(Opened(before, hidden, limit), commands, replies).full
    && AllTruthful(Opened(before, hidden, limit), commands, replies)
    && Stepwise(marks, earlier, limit, Opened(before, hidden, limit), commands, replies)
  }

  /** The same while the session is running: the store also sees what the reference sees. */
  ghost predicate Running(before: Disk, now: Disk, limit: nat, hidden: set<nat>, commands: seq<Command>, replies: seq<Reply>,
                          marks: seq<seq<Disk>>, earlier: seq<Disk>) {
    && Faithful(before, now, limit, hidden, commands, replies, marks, earlier)
    && Replayed(now - hidden, limit) == AfterAll(Opened(before, hidden, limit), commands, replies).visible
  }

  lemma SessionStarts(before: Disk, now: Disk, limit: nat, hidden: set<nat>, commands: seq<Command>, replies: seq<Reply>,
                      marks: seq<seq<Disk>>, earlier: seq<Disk>)
    requires |commands| == |replies| && Idle(commands, replies)
    requires Replayed(now, limit) == Replayed(before, limit) && Replayed(now - hidden, limit) == Replayed(before - hidden, limit)
    requires SteadyMarks(marks, earlier, limit, Replayed(before, limit)) && |marks| == |commands| + 1
    ensures Running(before, now, limit, hidden, commands, replies, marks, earlier)
  {
    hide AfterAll, AllTruthful, Replayed, Idle, Stepwise, SteadyMarks;
    var m := Opened(before, hidden, limit);
    IdleChangesNothing(m, commands, replies);
    IdleIsTruthful(m, commands, replies);
    IdleStepwise(marks, earlier, limit, m, commands, replies);
  }

  lemma ReferenceStep(m: Maps, here: Maps, next: Maps, commands: seq<Command>, replies: seq<Reply>, command: Command, reply: Reply)
    requires |commands| == |replies| && AllTruthful(m, commands, replies)
    requires AfterAll(m, commands, replies) == here && Truthful(here, command, reply) && next == After(here, command, reply)
    ensures AfterAll(m, commands + [command], replies + [reply]) == next
    ensures AllTruthful(m, commands + [command], replies + [reply])
  {
    hide AfterAll, After, Truthful, AllTruthful;
    AfterAllSnoc(m, commands, replies, command, reply);
    TruthfulSnoc(m, commands, replies, command, reply);
  }

  lemma RunningIs(before: Disk, now: Disk, limit: nat, hidden: set<nat>, commands: seq<Command>, replies: seq<Reply>,
                  marks: seq<seq<Disk>>, earlier: seq<Disk>)
    requires |commands| == |replies|
    ensures Running(before, now, limit, hidden, commands, replies, marks, earlier) <==>
            var m := Opened(before, hidden, limit);
            && AfterAll(m, commands, replies) == Opened(now, hidden, limit)
            && AllTruthful(m, commands, replies)
            && Stepwise(marks, earlier, limit, m, commands, replies)
  {
    hide AfterAll, AllTruthful, Replayed, Stepwise;
  }

  lemma SessionStep(before: Disk, middle: Disk, after: Disk, limit: nat, hidden: set<nat>, commands: seq<Command>, replies: seq<Reply>,
                    marks: seq<seq<Disk>>, next: seq<Disk>, earlier: seq<Disk>, command: Command, reply: Reply)
    requires |commands| == |replies| && Running(before, middle, limit, hidden, commands, replies, marks, earlier)
    requires var m := Opened(middle, hidden, limit);
             Truthful(m, command, reply) && Opened(after, hidden, limit) == After(m, command, reply)
    requires |marks| == |commands| + 1 && SteadyOr(next, marks[|commands|], limit, Replayed(middle, limit), Replayed(after, limit))
    ensures Running(before, after, limit, hidden, commands + [command], replies + [reply], marks + [next], earlier)
  {
    hide AfterAll, After, Truthful, AllTruthful, Replayed, Stepwise, SteadyOr, Running, Opened;
    var m, here, there := Opened(before, hidden, limit), Opened(middle, hidden, limit), Opened(after, hidden, limit);
    RunningIs(before, middle, limit, hidden, commands, replies, marks, earlier);
    RunningIs(before, after, limit, hidden, commands + [command], replies + [reply], marks + [next], earlier);
    ReferenceStep(m, here, there, commands, replies, command, reply);
    OpenedFull(middle, hidden, limit);
    OpenedFull(after, hidden, limit);
    StepwiseSnoc(marks, earlier, next, limit, m, commands, replies, command, reply);
  }

  lemma OpenedFull(disk: Disk, hidden: set<nat>, limit: nat)
    ensures Opened(disk, hidden, limit).full == Replayed(disk, limit)
  {
    hide Replayed;
  }

  lemma IdleSnoc(commands: seq<Command>, replies: seq<Reply>, command: Command, reply: Reply)
    requires |commands| == |replies| && Idle(commands, replies)
    requires reply == if command.Get? then Found(None) else Thrown
    ensures Idle(commands + [command], replies + [reply])
  {
  }

  lemma SteadyMarksSnoc(marks: seq<seq<Disk>>, earlier: seq<Disk>, next: seq<Disk>, limit: nat, m: Contents)
    requires SteadyMarks(marks, earlier, limit, m) && SteadyOr(next, marks[|marks| - 1], limit, m, m)
    ensures SteadyMarks(marks + [next], earlier, limit, m)
  {
    hide Holds;
  }

  lemma FirstMark(instants: seq<Disk>, earlier: seq<Disk>, limit: nat, m: Contents)
    requires Steady(instants, earlier, limit, m)
    ensures SteadyMarks([instants], earlier, limit, m)
  {
    hide Steady;
  }

  /** A session in which nothing failed: it saw everything, and every reply was the reference's. */
  ghost predicate Faultless(before: Disk, limit: nat, hidden: set<nat>, commands: seq<Command>, replies: seq<Reply>) {
    hidden == {} && replies == Answers(Opened(before, {}, limit), commands, limit)
  }

  /** The store is where no failure has led it, and has room for the commands left. */
  ghost predicate AllWell(store: JsonlSegmentStore, first: Disk, commands: seq<Command>, replies: seq<Reply>, top: nat)
    reads store, store.fileAdapter
  {
    && store.loaded && !store.appendsDisabled && store.unreadableSegments == {}
    && store.activeSegment < top + |commands|
    && replies == Answers(Opened(first, {}, store.maxRecordBytes), commands, store.maxRecordBytes)
  }

  /**
    One session on any disk, with any file failures. `hidden` are the segments it could not read.
    When no call fails and the ids do not run out below `top`, every command is carried out as the
    reference does and every segment could be read.
   */
  method RunSession(fileAdapter: FileAdapter, maxSegmentBytes: nat, maxRecordBytes: nat, commands: seq<Command>, ghost top: nat)
    returns (replies: seq<Reply>, ghost hidden: set<nat>, ghost marks: seq<seq<Disk>>)
    requires Openable(fileAdapter.files)
    modifies fileAdapter
    ensures Openable(fileAdapter.files)
    ensures Faithful(old(fileAdapter.files), fileAdapter.files, EffectiveRecordLimit(maxRecordBytes), hidden, commands, replies,
                     marks, old(fileAdapter.instants))
    ensures |marks| == |commands| + 1 && marks[|commands|] == fileAdapter.instants
    ensures fileAdapter.failures >= old(fileAdapter.failures)
    ensures fileAdapter.failures == old(fileAdapter.failures) && Roomy(old(fileAdapter.files), top, |commands|) ==>
              && Faultless(old(fileAdapter.files), EffectiveRecordLimit(maxRecordBytes), hidden, commands, replies)
              && Roomy(fileAdapter.files, top + |commands|, 0)
  {
    hide Answers, Answer, Roomy, Faultless, Replayed, Appendable, DeletionsAsWritten, AfterAll, AllTruthful,
         Stepwise, After, IdsFit, Holds, Faithful, Running, Idle, Steady, SteadyOr, SteadyMarks, Truthful, Tracked,
         Accounted;
    ghost var first, instants, limit := fileAdapter.files, fileAdapter.instants, EffectiveRecordLimit(maxRecordBytes);
    var store := new JsonlSegmentStore(fileAdapter, maxSegmentBytes, maxRecordBytes);
    replies := [];
    NothingIsIdle();
    marks := [fileAdapter.instants];
    FirstMark(fileAdapter.instants, instants, limit, Replayed(first, limit));
    if store.loaded {
      SessionStarts(first, fileAdapter.files, limit, store.unreadableSegments, [], [], marks, instants);
    }
    if Roomy(first, top, |commands|) {
      RoomBelow(first, top, |commands|);
    }
    assert Answers(Opened(first, {}, limit), commands[..0], limit) == [];
    for i := 0 to |commands|
      invariant store.Valid() && store.fileAdapter == fileAdapter && store.maxRecordBytes == limit && fresh(store)
      invariant |replies| == i
      invariant !store.loaded ==> fileAdapter.files == first && Idle(commands[..i], replies)
      invariant |marks| == i + 1 && marks[i] == fileAdapter.instants
      invariant !store.loaded ==> SteadyMarks(marks, instants, limit, Replayed(first, limit))
      invariant store.loaded ==>
                  Running(first, fileAdapter.files, limit, store.unreadableSegments, commands[..i], replies, marks, instants)
      invariant fileAdapter.failures >= old(fileAdapter.failures)
      invariant fileAdapter.failures == old(fileAdapter.failures) && Roomy(first, top, |commands|) ==>
                  AllWell(store, first, commands[..i], replies, top)
    {
      ghost var wasLoaded, middle := store.loaded, fileAdapter.files;
      ghost var here := Maps(store.VisibleMap(), store.FullMap());
      if store.loaded {
        RunningIs(first, middle, limit, store.unreadableSegments, commands[..i], replies, marks, instants);
      }
      var reply := Step(store, commands[i]);
      assert commands[..i + 1] == commands[..i] + [commands[i]];
      if fileAdapter.failures == old(fileAdapter.failures) && Roomy(first, top, |commands|) {
        RoomLeft(first, top, |commands|);
        AnswersSnoc(Opened(first, {}, limit), commands[..i], commands[i], limit);
      }
      if store.loaded {
        if !wasLoaded {
          SessionStarts(first, first, limit, store.unreadableSegments, commands[..i], replies, marks, instants);
        }
        SessionStep(first, middle, fileAdapter.files, limit, store.unreadableSegments, commands[..i], replies,
                    marks, fileAdapter.instants, instants, commands[i], reply);
      } else {
        IdleSnoc(commands[..i], replies, commands[i], reply);
        SteadyMarksSnoc(marks, instants, fileAdapter.instants, limit, Replayed(first, limit));
      }
      replies, marks := replies + [reply], marks + [fileAdapter.instants];
    }
    assert commands[..|commands|] == commands;
    hidden := store.unreadableSegments;
    if fileAdapter.failures == old(fileAdapter.failures) && Roomy(first, top, |commands|) {
      RoomLeft(first, top, |commands|);
      AllWellIsFaultless(store, first, commands, replies, top);
    }
    if !store.loaded {
      SessionStarts(first, first, limit, hidden, commands, replies, marks, instants);
    }
    assert Faithful(first, fileAdapter.files, limit, hidden, commands, replies, marks, instants) by {
      RunningIsFaithful(first, fileAdapter.files, limit, hidden, commands, replies, marks, instants);
    }
  }

  lemma NothingIsIdle()
    ensures Idle([], [])
  {
  }

  lemma AllWellIsFaultless(store: JsonlSegmentStore, first: Disk, commands: seq<Command>, replies: seq<Reply>, top: nat)
    requires store.Valid() && AllWell(store, first, commands, replies, top) && top + |commands| <= MAX_SEGMENT_ID
    ensures Faultless(first, store.maxRecordBytes, store.unreadableSegments, commands, replies)
    ensures Roomy(store.fileAdapter.files, top + |commands|, 0)
  {
    hide Answers, Consistent, Appendable, Roomy, Opened;
    StillRoomy(store.State(), store.activeSegment, top + |commands|);
  }

  lemma RoomLeft(disk: Disk, top: nat, count: nat)
    requires Roomy(disk, top, count)
    ensures top + count <= MAX_SEGMENT_ID
  {
  }

  lemma RoomBelow(disk: Disk, top: nat, count: nat)
    requires Roomy(disk, top, count)
    ensures 0 < top && forall id :: id in disk ==> id < top
  {
  }

  lemma RunningIsFaithful(before: Disk, now: Disk, limit: nat, hidden: set<nat>, commands: seq<Command>, replies: seq<Reply>,
                          marks: seq<seq<Disk>>, earlier: seq<Disk>)
    requires Running(before, now, limit, hidden, commands, replies, marks, earlier)
    ensures Faithful(before, now, limit, hidden, commands, replies, marks, earlier)
  {
  }

  // ------------------------------------------------------------ many sessions

  datatype Session = Session(maxSegmentBytes: nat, maxRecordBytes: nat, commands: seq<Command>)

  /** The disk and its history between two sessions. */
  datatype Cut = Cut(disk: Disk, instants: seq<Disk>)

  ghost predicate FaithfulSession(before: Cut, after: Cut, hidden: set<nat>, session: Session, replies: seq<Reply>, marks: seq<seq<Disk>>) {
    && Faithful(before.disk, after.disk, EffectiveRecordLimit(session.maxRecordBytes), hidden, session.commands, replies,
                marks, before.instants)
    && |marks| == |session.commands| + 1 && marks[|session.commands|] == after.instants
  }

  /** What a run of sessions did: one cut before each session and one at the end. */
  ghost predicate FaithfulRun(cuts: seq<Cut>, hidden: seq<set<nat>>, sessions: seq<Session>, replies: seq<seq<Reply>>,
                              marks: seq<seq<seq<Disk>>>) {
    && |cuts| == |sessions| + 1 && |hidden| == |sessions| == |replies| == |marks|
    && forall i :: 0 <= i < |sessions| ==> FaithfulSession(cuts[i], cuts[i + 1], hidden[i], sessions[i], replies[i], marks[i])
  }

  ghost predicate FaultlessSession(before: Cut, hidden: set<nat>, session: Session, replies: seq<Reply>) {
    Faultless(before.disk, EffectiveRecordLimit(session.maxRecordBytes), hidden, session.commands, replies)
  }

  /** No session of the run met a failure. */
  ghost predicate FaultlessRun(cuts: seq<Cut>, hidden: seq<set<nat>>, sessions: seq<Session>, replies: seq<seq<Reply>>) {
    && |cuts| == |sessions| + 1 && |hidden| == |sessions| == |replies|
    && forall i :: 0 <= i < |sessions| ==> FaultlessSession(cuts[i], hidden[i], sessions[i], replies[i])
  }

  lemma FaultlessRunSnoc(cuts: seq<Cut>, hidden: seq<set<nat>>, sessions: seq<Session>, replies: seq<seq<Reply>>,
                         cut: Cut, h: set<nat>, session: Session, reply: seq<Reply>)
    requires FaultlessRun(cuts, hidden, sessions, replies)
    requires FaultlessSession(cuts[|sessions|], h, session, reply)
    ensures FaultlessRun(cuts + [cut], hidden + [h], sessions + [session], replies + [reply])
  {
    hide FaultlessSession;
  }

  lemma FaithfulRunSnoc(cuts: seq<Cut>, hidden: seq<set<nat>>, sessions: seq<Session>, replies: seq<seq<Reply>>,
                        marks: seq<seq<seq<Disk>>>, cut: Cut, h: set<nat>, session: Session, reply: seq<Reply>, mark: seq<seq<Disk>>)
    requires FaithfulRun(cuts, hidden, sessions, replies, marks)
    requires FaithfulSession(cuts[|sessions|], cut, h, session, reply, mark)
    ensures FaithfulRun(cuts + [cut], hidden + [h], sessions + [session], replies + [reply], marks + [mark])
  {
    hide FaithfulSession;
  }

  lemma NoSessions(cut: Cut)
    ensures FaithfulRun([cut], [], [], [], []) && FaultlessRun([cut], [], [], [])
  {
  }

  /** How many commands the sessions have together. */
  function CommandCount(sessions: seq<Session>): nat {
    if sessions == [] then 0 else CommandCount(sessions[..|sessions| - 1]) + |sessions[|sessions| - 1].commands|
  }

  lemma {:induction false} CommandCountGrows(sessions: seq<Session>, n: nat)
    requires n < |sessions|
    ensures CommandCount(sessions[..n + 1]) == CommandCount(sessions[..n]) + |sessions[n].commands|
    ensures CommandCount(sessions[..n + 1]) <= CommandCount(sessions)
    decreases |sessions|
  {
    assert sessions[..n + 1][..n] == sessions[..n];
    if n + 1 < |sessions| {
      var rest := sessions[..|sessions| - 1];
      CommandCountGrows(rest, n);
      assert rest[..n + 1] == sessions[..n + 1];
    } else {
      assert sessions[..n + 1] == sessions;
    }
  }

  lemma RoomForNext(disk: Disk, top: nat, count: nat)
    requires Roomy(disk, top, 0) && top + count <= MAX_SEGMENT_ID
    ensures Roomy(disk, top, count)
  {
  }

  lemma RoomForFirst(disk: Disk, top: nat, count: nat)
    requires Roomy(disk, top, count)
    ensures Roomy(disk, top, 0) && top + count <= MAX_SEGMENT_ID
  {
  }

  /**
    Sessions one after the other on the same directory, each with its own limits. When no file call
    fails and the ids cannot run out, every session reads everything and every reply is exact.
   */
  method Run(fileAdapter: FileAdapter, sessions: seq<Session>, ghost top: nat)
    returns (replies: seq<seq<Reply>>, ghost cuts: seq<Cut>, ghost hidden: seq<set<nat>>, ghost marks: seq<seq<seq<Disk>>>)
    requires Openable(fileAdapter.files)
    modifies fileAdapter
    ensures FaithfulRun(cuts, hidden, sessions, replies, marks)
    ensures cuts[0] == Cut(old(fileAdapter.files), old(fileAdapter.instants))
    ensures cuts[|sessions|] == Cut(fileAdapter.files, fileAdapter.instants)
    ensures fileAdapter.failures == old(fileAdapter.failures) && Roomy(old(fileAdapter.files), top, CommandCount(sessions)) ==>
              FaultlessRun(cuts, hidden, sessions, replies)
  {
    hide Faithful, FaithfulRun, Faultless, FaultlessRun, Openable, Roomy, CommandCount;
    replies, cuts, hidden, marks := [], [Cut(fileAdapter.files, fileAdapter.instants)], [], [];
    NoSessions(cuts[0]);
    ghost var first, total := fileAdapter.files, CommandCount(sessions);
    ghost var reached: nat := top;
    if Roomy(first, top, total) {
      RoomForFirst(first, top, total);
    }
    assert CommandCount(sessions[..0]) == 0 by {
      NoCommands(sessions[..0]);
    }
    for i := 0 to |sessions|
      invariant Openable(fileAdapter.files)
      invariant FaithfulRun(cuts, hidden, sessions[..i], replies, marks)
      invariant |cuts| == i + 1 && cuts[0] == Cut(old(fileAdapter.files), old(fileAdapter.instants))
      invariant cuts[i] == Cut(fileAdapter.files, fileAdapter.instants)
      invariant fileAdapter.failures >= old(fileAdapter.failures)
      invariant reached == top + CommandCount(sessions[..i])
      invariant fileAdapter.failures == old(fileAdapter.failures) && Roomy(first, top, total) ==>
                  FaultlessRun(cuts, hidden, sessions[..i], replies) && Roomy(fileAdapter.files, reached, 0)
    {
      var session := sessions[i];
      CommandCountGrows(sessions, i);
      ghost var disk := fileAdapter.files;
      if fileAdapter.failures == old(fileAdapter.failures) && Roomy(first, top, total) {
        RoomForFirst(first, top, total);
        RoomForNext(disk, reached, |session.commands|);
      }
      var reply;
      ghost var h, mark;
      reply, h, mark := RunSession(fileAdapter, session.maxSegmentBytes, session.maxRecordBytes, session.commands, reached);
      ghost var cut := Cut(fileAdapter.files, fileAdapter.instants);
      FaithfulRunSnoc(cuts, hidden, sessions[..i], replies, marks, cut, h, session, reply, mark);
      if fileAdapter.failures == old(fileAdapter.failures) && Roomy(first, top, total) {
        FaultlessRunSnoc(cuts, hidden, sessions[..i], replies, cut, h, session, reply);
      }
      assert sessions[..i + 1] == sessions[..i] + [session];
      replies, cuts, hidden, marks := replies + [reply], cuts + [cut], hidden + [h], marks + [mark];
      reached := reached + |session.commands|;
    }
    assert sessions[..|sessions|] == sessions;
  }

  lemma NoCommands(sessions: seq<Session>)
    requires sessions == []
    ensures CommandCount(sessions) == 0
  {
  }

  /** The commands of all sessions as one list. */
  function AllCommands(sessions: seq<Session>): seq<Command> {
    if sessions == [] then [] else AllCommands(sessions[..|sessions| - 1]) + sessions[|sessions| - 1].commands
  }

  function AllReplies(replies: seq<seq<Reply>>): seq<Reply> {
    if replies == [] then [] else AllReplies(replies[..|replies| - 1]) + replies[|replies| - 1]
  }

  lemma {:induction false} AfterAllJoin(m: Maps, commands: seq<Command>, replies: seq<Reply>, more: seq<Command>, answers: seq<Reply>)
    requires |commands| == |replies| && |more| == |answers|
    ensures AfterAll(m, commands + more, replies + answers) == AfterAll(AfterAll(m, commands, replies), more, answers)
    decreases |more|
  {
    if more == [] {
      assert commands + more == commands && replies + answers == replies;
    } else {
      var n := |more| - 1;
      assert commands + more == (commands + more[..n]) + [more[n]];
      assert replies + answers == (replies + answers[..n]) + [answers[n]];
      AfterAllSnoc(m, commands + more[..n], replies + answers[..n], more[n], answers[n]);
      AfterAllJoin(m, commands, replies, more[..n], answers[..n]);
    }
  }

  /** A session that sees everything has one map, not two. */
  lemma {:induction false} OneMap(m: Contents, commands: seq<Command>, replies: seq<Reply>)
    requires |commands| == |replies|
    ensures var r := AfterAll(Maps(m, m), commands, replies); r.visible == r.full
  {
    if commands != [] {
      var n := |commands| - 1;
      OneMap(m, commands[..n], replies[..n]);
    }
  }

  ghost predicate SeesEverything(hidden: seq<set<nat>>, sessions: seq<Session>, limit: nat) {
    forall i :: 0 <= i < |sessions| && i < |hidden| ==>
      hidden[i] == {} && EffectiveRecordLimit(sessions[i].maxRecordBytes) == limit
  }

  /** Any run whose commands are done one after the other on a plain map. */
  ghost predicate EndsAsPlainMap(first: Disk, last: Disk, limit: nat, sessions: seq<Session>, replies: seq<seq<Reply>>) {
    && |AllCommands(sessions)| == |AllReplies(replies)|
    && var m := Replayed(first, limit);
       AfterAll(Maps(m, m), AllCommands(sessions), AllReplies(replies)).full == Replayed(last, limit)
  }

  /**
    Closing and reopening is invisible: when every segment could be read, any run of sessions leaves
    the map that all its commands, one after the other, leave in a plain map.
   */
  lemma {:induction false} ReopeningIsInvisible(cuts: seq<Cut>, hidden: seq<set<nat>>, limit: nat, sessions: seq<Session>, replies: seq<seq<Reply>>, marks: seq<seq<seq<Disk>>>)
    requires FaithfulRun(cuts, hidden, sessions, replies, marks) && SeesEverything(hidden, sessions, limit)
    ensures EndsAsPlainMap(cuts[0].disk, cuts[|sessions|].disk, limit, sessions, replies)
    decreases |sessions|
  {
    if sessions != [] {
      var n := |sessions| - 1;
      FaithfulRunPrefix(cuts, hidden, limit, sessions, replies, marks, n);
      ReopeningIsInvisible(cuts[..n + 1], hidden[..n], limit, sessions[..n], replies[..n], marks[..n]);
      hide EndsAsPlainMap;
      LastSession(cuts[0].disk, cuts[n], cuts[n + 1], hidden[n], limit, sessions, replies, marks[n], n);
    }
  }

  lemma FaithfulRunPrefix(cuts: seq<Cut>, hidden: seq<set<nat>>, limit: nat, sessions: seq<Session>, replies: seq<seq<Reply>>, marks: seq<seq<seq<Disk>>>, n: nat)
    requires FaithfulRun(cuts, hidden, sessions, replies, marks) && SeesEverything(hidden, sessions, limit) && |sessions| == n + 1
    ensures FaithfulRun(cuts[..n + 1], hidden[..n], sessions[..n], replies[..n], marks[..n])
    ensures SeesEverything(hidden[..n], sessions[..n], limit)
    ensures FaithfulSession(cuts[n], cuts[n + 1], hidden[n], sessions[n], replies[n], marks[n])
  {
    hide FaithfulSession;
  }

  lemma LastSession(first: Disk, before: Cut, after: Cut, hidden: set<nat>, limit: nat, sessions: seq<Session>, replies: seq<seq<Reply>>,
                    marks: seq<seq<Disk>>, n: nat)
    requires |sessions| == |replies| == n + 1 && hidden == {} && EffectiveRecordLimit(sessions[n].maxRecordBytes) == limit
    requires FaithfulSession(before, after, hidden, sessions[n], replies[n], marks)
    requires EndsAsPlainMap(first, before.disk, limit, sessions[..n], replies[..n])
    ensures EndsAsPlainMap(first, after.disk, limit, sessions, replies)
  {
    var m := Replayed(first, limit);
    assert before.disk - {} == before.disk;
    hide Replayed, AfterAll, AllTruthful, Stepwise;
    OneMap(m, AllCommands(sessions[..n]), AllReplies(replies[..n]));
    AfterAllJoin(Maps(m, m), AllCommands(sessions[..n]), AllReplies(replies[..n]), sessions[n].commands, replies[n]);
  }

  lemma {:induction false} AnswersJoin(m: Maps, commands: seq<Command>, more: seq<Command>, limit: nat)
    ensures var replies := Answers(m, commands, limit);
            Answers(m, commands + more, limit) == replies + Answers(AfterAll(m, commands, replies), more, limit)
    decreases |more|
  {
    hide AfterAll, Answer;
    var replies := Answers(m, commands, limit);
    var middle := AfterAll(m, commands, replies);
    if more == [] {
      assert commands + more == commands;
    } else {
      var n := |more| - 1;
      var answers := Answers(middle, more[..n], limit);
      AnswersJoin(m, commands, more[..n], limit);
      assert commands + more == (commands + more[..n]) + [more[n]];
      AnswersSnoc(m, commands + more[..n], more[n], limit);
      AfterAllJoin(m, commands, replies, more[..n], answers);
    }
  }

  /** The run as one long session of the plain map: the same replies and the same end. */
  ghost predicate RunsAsPlainMap(first: Disk, last: Disk, limit: nat, sessions: seq<Session>, replies: seq<seq<Reply>>) {
    && EndsAsPlainMap(first, last, limit, sessions, replies)
    && var m := Replayed(first, limit);
       AllReplies(replies) == Answers(Maps(m, m), AllCommands(sessions), limit)
  }

  /**
    When no file call fails, a run of sessions is a run of the plain map that the first disk holds:
    its commands alone decide every reply and the map on the last disk.
   */
  lemma {:induction false} FaultlessRunIsPlainMap(cuts: seq<Cut>, hidden: seq<set<nat>>, limit: nat, sessions: seq<Session>, replies: seq<seq<Reply>>, marks: seq<seq<seq<Disk>>>)
    requires FaithfulRun(cuts, hidden, sessions, replies, marks) && FaultlessRun(cuts, hidden, sessions, replies)
    requires forall i :: 0 <= i < |sessions| ==> EffectiveRecordLimit(sessions[i].maxRecordBytes) == limit
    ensures RunsAsPlainMap(cuts[0].disk, cuts[|sessions|].disk, limit, sessions, replies)
    decreases |sessions|
  {
    assert SeesEverything(hidden, sessions, limit) by {
      FaultlessSeesEverything(cuts, hidden, limit, sessions, replies);
    }
    ReopeningIsInvisible(cuts, hidden, limit, sessions, replies, marks);
    if sessions != [] {
      var n := |sessions| - 1;
      FaithfulRunPrefix(cuts, hidden, limit, sessions, replies, marks, n);
      FaultlessRunPrefix(cuts, hidden, sessions, replies, n);
      FaultlessRunIsPlainMap(cuts[..n + 1], hidden[..n], limit, sessions[..n], replies[..n], marks[..n]);
      hide EndsAsPlainMap, FaithfulRun, FaultlessRun, SeesEverything;
      LastAnswers(cuts[0].disk, cuts[n], hidden[n], limit, sessions, replies, n);
    }
  }

  lemma FaultlessSeesEverything(cuts: seq<Cut>, hidden: seq<set<nat>>, limit: nat, sessions: seq<Session>, replies: seq<seq<Reply>>)
    requires FaultlessRun(cuts, hidden, sessions, replies)
    requires forall i :: 0 <= i < |sessions| ==> EffectiveRecordLimit(sessions[i].maxRecordBytes) == limit
    ensures SeesEverything(hidden, sessions, limit)
  {
    hide Answers, Opened;
    forall i | 0 <= i < |sessions|
      ensures hidden[i] == {}
    {
      assert FaultlessSession(cuts[i], hidden[i], sessions[i], replies[i]);
    }
  }

  lemma FaultlessRunPrefix(cuts: seq<Cut>, hidden: seq<set<nat>>, sessions: seq<Session>, replies: seq<seq<Reply>>, n: nat)
    requires FaultlessRun(cuts, hidden, sessions, replies) && |sessions| == n + 1
    ensures FaultlessRun(cuts[..n + 1], hidden[..n], sessions[..n], replies[..n])
    ensures FaultlessSession(cuts[n], hidden[n], sessions[n], replies[n])
  {
    hide FaultlessSession;
  }

  lemma LastAnswers(first: Disk, before: Cut, hidden: set<nat>, limit: nat, sessions: seq<Session>, replies: seq<seq<Reply>>, n: nat)
    requires |sessions| == |replies| == n + 1 && EffectiveRecordLimit(sessions[n].maxRecordBytes) == limit
    requires FaultlessSession(before, hidden, sessions[n], replies[n])
    requires RunsAsPlainMap(first, before.disk, limit, sessions[..n], replies[..n])
    ensures var m := Replayed(first, limit); AllReplies(replies) == Answers(Maps(m, m), AllCommands(sessions), limit)
  {
    var m := Replayed(first, limit);
    assert before.disk - {} == before.disk;
    hide Replayed, AfterAll, Answers;
    OneMap(m, AllCommands(sessions[..n]), AllReplies(replies[..n]));
    AnswersJoin(Maps(m, m), AllCommands(sessions[..n]), sessions[n].commands, limit);
  }
}
