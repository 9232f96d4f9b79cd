/**
  How the store gets out of trouble: a torn file at the end of the active segment, rolling it back
  or giving the segment up, and rotating to the next one.
 */
module SegmentRecovery {
  import opened Wrappers
  import opened SegmentCodec
  import opened Replay
  import opened SegmentIndex
  import opened SegmentCompaction
  import opened SegmentInvariant

  /** The disks an append passes through, up to `n` bytes of `data`. */
  ghost function AppendStates(disk: Disk, id: nat, data: Bytes, n: nat): (states: seq<Disk>)
    requires n <= |data|
    ensures |states| == n + 1
    ensures forall k :: 0 <= k <= n ==> states[k] == disk[id := Content(disk, id) + data[..k]]
  {
    seq(n + 1, k requires 0 <= k <= n => disk[id := Content(disk, id) + data[..k]])
  }

  /** A store can be opened on the disk, and will find `m` there. */
  ghost predicate Holds(disk: Disk, limit: nat, m: Contents) {
    Openable(disk) && Replayed(disk, limit) == m
  }

  lemma ConsistentHolds(s: Snapshot)
    requires Consistent(s)
    ensures Openable(s.disk) && Holds(s.disk, s.limit, Full(s))
  {
    hide Replayed, Tracked, Accounted;
  }

  /** The history has gone on from `before`, and every disk since holds `m`: the process may stop at any of them. */
  ghost predicate Steady(instants: seq<Disk>, before: seq<Disk>, limit: nat, m: Contents) {
    && before <= instants
    && forall i :: |before| <= i < |instants| ==> Holds(instants[i], limit, m)
  }

  /** The same, but the process may also have stopped at a disk that holds `next`. */
  ghost predicate SteadyOr(instants: seq<Disk>, before: seq<Disk>, limit: nat, m: Contents, next: Contents) {
    && before <= instants
    && forall i :: |before| <= i < |instants| ==> Holds(instants[i], limit, m) || Holds(instants[i], limit, next)
  }

  lemma SteadyThenOr(first: seq<Disk>, second: seq<Disk>, third: seq<Disk>, limit: nat, m: Contents, next: Contents)
    requires Steady(second, first, limit, m) && SteadyOr(third, second, limit, m, next)
    ensures SteadyOr(third, first, limit, m, next)
  {
  }

  lemma OrThenSteady(first: seq<Disk>, second: seq<Disk>, third: seq<Disk>, limit: nat, m: Contents, next: Contents)
    requires SteadyOr(second, first, limit, m, next) && Steady(third, second, limit, next)
    ensures SteadyOr(third, first, limit, m, next)
  {
  }

  lemma SteadySelf(instants: seq<Disk>, limit: nat, m: Contents)
    ensures Steady(instants, instants, limit, m)
  {
  }

  lemma SteadyOne(instants: seq<Disk>, next: seq<Disk>, limit: nat, m: Contents, d: Disk)
    requires Holds(d, limit, m) && (next == instants || next == instants + [d])
    ensures Steady(next, instants, limit, m)
  {
  }

  lemma SteadyTwice(first: seq<Disk>, second: seq<Disk>, third: seq<Disk>, limit: nat, m: Contents)
    requires Steady(second, first, limit, m) && Steady(third, second, limit, m)
    ensures Steady(third, first, limit, m)
  {
  }

  /**
    The active segment after a failed append: everything is as before, except that bytes without a
    newline may lie past the recorded length of its file.
   */
  ghost predicate Torn(s: Snapshot, a: nat) {
    && a <= MAX_SEGMENT_ID
    && (forall u :: u in s.hidden ==> u < a)
    && (forall id :: id in s.disk ==> id <= a)
  }

  /** The segment that was active before rotating to the still empty segment `a`. */
  ghost predicate RotatedFrom(s: Snapshot, a: nat, before: nat) {
    a == before || (before < a && Count(s.bytes, a) == 0 && Appendable(s.(disk := s.disk - {a}), before))
  }

  /** A failed append changes no complete line, at no instant. */
  lemma FailedAppend(s: Snapshot, a: nat, line: Bytes, k: nat)
    requires Consistent(s) && Appendable(s, a) && IsLine(line) && k < |line|
    ensures var t := s.(disk := s.disk[a := Content(s.disk, a) + line[..k]]);
            Consistent(t) && SameContents(s, t) && Torn(t, a)
  {
    AppendableIsComplete(s, a);
    TearIsSilent(s.disk, a, line, k);
    SilentStep(s, s.disk[a := Content(s.disk, a) + line[..k]]);
  }

  /** Neither does it change where the store would fall back to. */
  lemma TearKeepsRotation(s: Snapshot, a: nat, before: nat, data: Bytes)
    requires RotatedFrom(s, a, before)
    ensures RotatedFrom(s.(disk := s.disk[a := data]), a, before)
  {
    assert s.disk[a := data] - {a} == s.disk - {a};
  }

  lemma AppendableIsTorn(s: Snapshot, a: nat)
    requires Appendable(s, a)
    ensures Torn(s, a)
  {
  }

  /** The disks a failed append passes through. */
  lemma TornInstants(s: Snapshot, a: nat, line: Bytes, n: nat, before: seq<Disk>, limit: nat)
    requires Consistent(s) && Appendable(s, a) && IsLine(line) && n < |line| && limit == s.limit
    ensures Steady(before + AppendStates(s.disk, a, line, n), before, limit, Full(s))
  {
    hide Consistent, Appendable, IsLine, Content;
    forall k | 0 <= k <= n
      ensures Holds(s.disk[a := Content(s.disk, a) + line[..k]], limit, Full(s))
    {
      FailedAppend(s, a, line, k);
      ConsistentHolds(s.(disk := s.disk[a := Content(s.disk, a) + line[..k]]));
    }
  }

  /** A line the store writes. */
  ghost predicate WrittenLine(line: Bytes) {
    exists op :: Writable(op) && line == EncodeOp(op)
  }

  lemma WrittenIsLine(line: Bytes)
    requires WrittenLine(line)
    ensures IsLine(line)
  {
    hide EncodeOp, Decode;
    var op :| Writable(op) && line == EncodeOp(op);
    DecodeInvertsEncode(op);
  }

  lemma AppendedOpens(s: Snapshot, a: nat, line: Bytes)
    requires Consistent(s) && Appendable(s, a) && WrittenLine(line)
    ensures Openable(s.disk[a := Content(s.disk, a) + line])
  {
    AppendableIsComplete(s, a);
    hide EncodeOp, Tracked, Accounted, IndexMatches, DeletionsAsWritten, Complete, Content;
    var op :| Writable(op) && line == EncodeOp(op);
    AppendKeepsDeletions(s.disk, a, op);
  }

  /** The disks a successful append passes through: torn ones, and the finished one. */
  lemma AppendInstants(s: Snapshot, a: nat, line: Bytes, before: seq<Disk>, limit: nat)
    requires Consistent(s) && Appendable(s, a) && WrittenLine(line) && limit == s.limit
    ensures SteadyOr(before + AppendStates(s.disk, a, line, |line|), before, limit, Full(s),
                     Replayed(s.disk[a := Content(s.disk, a) + line], limit))
  {
    hide Consistent, Appendable, IsLine, Content, Openable, WrittenLine;
    WrittenIsLine(line);
    AppendedOpens(s, a, line);
    assert line[..|line|] == line;
    forall k | 0 <= k < |line|
      ensures Holds(s.disk[a := Content(s.disk, a) + line[..k]], limit, Full(s))
    {
      FailedAppend(s, a, line, k);
      ConsistentHolds(s.(disk := s.disk[a := Content(s.disk, a) + line[..k]]));
    }
  }

  /** Cutting the active file back to its recorded length makes it appendable again. */
  lemma TruncateRestores(s: Snapshot, a: nat)
    requires Consistent(s) && Torn(s, a) && a in s.disk
    ensures var n := Count(s.bytes, a);
            n <= |s.disk[a]| &&
            var t := s.(disk := s.disk[a := s.disk[a][..n]]);
            Consistent(t) && SameContents(s, t) && Appendable(t, a)
  {
    assert Count(s.bytes, a) == CompleteLength(s.disk, a);
    TrimIsSilent(s.disk, a);
    SilentStep(s, s.disk[a := s.disk[a][..CompleteLength(s.disk, a)]]);
  }

  /** Removing the file of an empty active segment makes it appendable again. */
  lemma RemoveRestores(s: Snapshot, a: nat)
    requires Consistent(s) && Torn(s, a) && Count(s.bytes, a) == 0
    ensures var t := s.(disk := s.disk - {a});
            Consistent(t) && SameContents(s, t) && Appendable(t, a)
  {
    assert Count(s.bytes, a) == CompleteLength(s.disk, a);
    RemoveIsSilent(s.disk, a);
    SilentStep(s, s.disk - {a});
  }

  /** Forgetting an untouched segment changes nothing. */
  lemma ForgetSegment(s: Snapshot, a: nat)
    requires Consistent(s) && Count(s.bytes, a) == 0
    ensures Consistent(s.(bytes := s.bytes - {a}, dead := s.dead - {a}))
    ensures SameContents(s, s.(bytes := s.bytes - {a}, dead := s.dead - {a}))
  {
    var t := s.(bytes := s.bytes - {a}, dead := s.dead - {a});
    assert Count(s.dead, a) + LiveBytes(s.index, a) == Count(s.bytes, a);
    hide LiveBytes, CompletePrefixLength, IndexMatches, DeletionsAsWritten, Content;
    forall id: nat
      ensures Count(t.bytes, id) == Count(s.bytes, id)
      ensures Count(t.dead, id) == Count(s.dead, id)
    {
    }
    assert Tracked(t) by {
      hide Accounted;
      assert forall id: nat :: Count(t.bytes, id) == if id in t.hidden then 0 else CompleteLength(t.disk, id);
    }
    assert Accounted(t) by {
      hide Tracked;
      assert forall id: nat :: Count(t.dead, id) + LiveBytes(t.index, id) == Count(t.bytes, id);
    }
  }

  /** Recording an empty segment above all others. */
  lemma NewSegment(s: Snapshot, a: nat)
    requires Consistent(s) && Count(s.bytes, a) == 0
    ensures Consistent(s.(bytes := s.bytes[a := 0], dead := s.dead[a := 0]))
    ensures SameContents(s, s.(bytes := s.bytes[a := 0], dead := s.dead[a := 0]))
  {
    var t := s.(bytes := s.bytes[a := 0], dead := s.dead[a := 0]);
    assert Count(s.dead, a) + LiveBytes(s.index, a) == Count(s.bytes, a);
    hide LiveBytes, CompletePrefixLength, IndexMatches, DeletionsAsWritten, Content;
    forall id: nat
      ensures Count(t.bytes, id) == Count(s.bytes, id)
      ensures Count(t.dead, id) == Count(s.dead, id)
    {
    }
    assert Tracked(t) by {
      hide Accounted;
      assert forall id: nat :: Count(t.bytes, id) == if id in t.hidden then 0 else CompleteLength(t.disk, id);
    }
    assert Accounted(t) by {
      hide Tracked;
      assert forall id: nat :: Count(t.dead, id) + LiveBytes(t.index, id) == Count(t.bytes, id);
    }
  }

  /** A segment above all files is empty, whatever lies below. */
  lemma NextSegmentIsEmpty(s: Snapshot, a: nat)
    requires Consistent(s) && (forall id :: id in s.disk ==> id <= a)
    ensures Content(s.disk, a + 1) == [] && Count(s.bytes, a + 1) == 0
  {
    assert a + 1 !in s.disk;
    assert Count(s.bytes, a + 1) == if a + 1 in s.hidden then 0 else CompleteLength(s.disk, a + 1);
  }

  /** Giving the active segment up for the next one. */
  lemma AbandonStep(s: Snapshot, a: nat, next: Snapshot)
    requires Consistent(s) && Torn(s, a) && a < MAX_SEGMENT_ID
    requires next == s.(partial := s.partial + {a}, bytes := s.bytes[a + 1 := 0], dead := s.dead[a + 1 := 0])
    ensures Consistent(next) && SameContents(s, next) && Appendable(next, a + 1)
  {
    NextSegmentIsEmpty(s, a);
    NewSegment(s, a + 1);
    var t := s.(bytes := s.bytes[a + 1 := 0], dead := s.dead[a + 1 := 0]);
    MorePartial(t, a);
    hide Consistent;
  }

  lemma MorePartial(s: Snapshot, a: nat)
    requires Consistent(s)
    ensures Consistent(s.(partial := s.partial + {a}))
    ensures SameContents(s, s.(partial := s.partial + {a}))
  {
    var t := s.(partial := s.partial + {a});
    assert Tracked(t) && Accounted(t);
  }

  /** Rotating from a full segment to the next one. */
  lemma RotateStep(s: Snapshot, a: nat, next: Snapshot)
    requires Consistent(s) && Appendable(s, a) && a < MAX_SEGMENT_ID
    requires next == s.(bytes := s.bytes[a + 1 := 0], dead := s.dead[a + 1 := 0])
    ensures Consistent(next) && SameContents(s, next) && Appendable(next, a + 1)
    ensures RotatedFrom(next, a + 1, a) && a + 1 !in next.disk
  {
    NextSegmentIsEmpty(s, a);
    NewSegment(s, a + 1);
    hide Consistent;
    assert next.disk - {a + 1} == next.disk;
  }

  /** The recorded counts tell whether any lower segment holds data. */
  lemma CountsTellWhatIsBelow(s: Snapshot, seg: nat)
    requires Consistent(s)
    ensures NothingBelow(s, seg) <==>
            && (forall u :: u in s.hidden ==> u >= seg)
            && (forall j :: j in s.bytes && j < seg ==> s.bytes[j] == 0)
  {
    hide IndexMatches, Accounted, DeletionsAsWritten, CompletePrefixLength;
    forall j: nat
      ensures Count(s.bytes, j) == if j in s.hidden then 0 else CompleteLength(s.disk, j)
    {
    }
    if NothingBelow(s, seg) {
      forall j | j in s.bytes && j < seg
        ensures s.bytes[j] == 0
      {
        assert j !in s.hidden && CompleteLength(s.disk, j) == 0;
      }
    }
  }

  /** Without lower data no deletion is kept. */
  lemma {:induction false} NoLowerNoTombstones(c: Bytes, rs: seq<Rec>, index: Index, segment: nat)
    requires AllLocated(c, rs)
    ensures CompactRecs(c, rs, index, segment, false).tombstoneBytes == 0
  {
    if rs != [] {
      NoLowerNoTombstones(c, rs[..|rs| - 1], index, segment);
    }
  }

  /** A compaction without live records is made of deletions, so lower data exists. */
  lemma OnlyTombstones(s: Snapshot, seg: nat, comp: Compaction, lower: bool)
    requires Consistent(s) && Compacts(s, seg, comp, lower)
    requires comp.moved == map[] && comp.rebuilt != []
    ensures lower && Compacts(s, seg, comp, true)
    ensures forall k :: k in s.index ==> s.index[k].segment != seg
  {
    CompactionShape(s, seg, comp, lower);
    LiveNone(comp.moved, seg);
    if !lower {
      NoLowerNoTombstones(s.disk[seg], Records(s.disk[seg]), s.index, seg);
    }
    forall k | k in s.index
      ensures s.index[k].segment != seg
    {
      CompactionSays(s, seg, comp, lower, k);
    }
  }

  /** Compacting any segment leaves the active one appendable. */
  lemma CompactionAppendable(s: Snapshot, seg: nat, comp: Compaction, a: nat)
    requires Appendable(s, a) && seg in s.disk
    ensures Appendable(AfterCompaction(s, seg, comp), a)
  {
  }

  /** All live records of the segment are found by the scan. */
  lemma CompactionFindsAll(s: Snapshot, seg: nat, comp: Compaction, lower: bool)
    requires Consistent(s) && Compacts(s, seg, comp, lower)
    ensures comp.moved.Keys == set k | k in s.index && s.index[k].segment == seg
  {
    forall k
      ensures k in comp.moved <==> k in s.index && s.index[k].segment == seg
    {
      CompactionSays(s, seg, comp, lower, k);
    }
  }
}
