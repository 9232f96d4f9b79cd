/**
  What the segment store keeps true between any two file calls, and how each step of the store
  keeps it. Every lemma here is about values; the class JsonlSegmentStore applies them.
 */
module SegmentInvariant {
  import opened Wrappers
  import opened SegmentCodec
  import opened Replay
  import opened SegmentIndex
  import opened SegmentCompaction

  const MAX_SEGMENT_ID: nat := 0xFFFF_FFFF

  /** The disk and everything the store remembers about it. */
  datatype Snapshot = Snapshot(
    disk: Disk,
    hidden: set<nat>,       // segments that could not be read when the directory was loaded
    partial: set<nat>,      // segments not read completely
    index: Index,
    bytes: map<nat, nat>,   // complete bytes per segment
    dead: map<nat, nat>,    // bytes per segment that hold no live record
    limit: nat)             // longest record this store reads or writes

  /** The map a reader of every segment sees. */
  ghost function Full(s: Snapshot): Contents {
    Replayed(s.disk, s.limit)
  }

  /** The map seen without the hidden segments. */
  ghost function Visible(s: Snapshot): Contents {
    Replayed(s.disk - s.hidden, s.limit)
  }

  function Content(disk: Disk, id: nat): Bytes {
    if id in disk then disk[id] else []
  }

  function CompleteLength(disk: Disk, id: nat): nat {
    CompletePrefixLength(Content(disk, id))
  }

  ghost predicate Tracked(s: Snapshot) {
    forall id: nat :: Count(s.bytes, id) == if id in s.hidden then 0 else CompleteLength(s.disk, id)
  }

  /** Byte accounting: what is not dead is live. */
  ghost predicate Accounted(s: Snapshot) {
    forall id: nat :: Count(s.dead, id) + LiveBytes(s.index, id) == Count(s.bytes, id)
  }

  ghost predicate DeletionsAsWritten(disk: Disk) {
    forall id :: id in disk ==> AsWrittenIn(Records(disk[id]))
  }

  predicate IdsFit(disk: Disk) {
    forall id :: id in disk ==> id < 0x1_0000_0000
  }

  /** No set among the records is too long for the limit. Deletions may be: moving one up does not ask for its length. */
  predicate SetsFit(rs: seq<Rec>, limit: nat) {
    forall i :: 0 <= i < |rs| && rs[i].op.Put? ==> rs[i].length <= limit
  }

  /** A segment that is not marked as partially read holds nothing this store could not read as a value. */
  ghost predicate Marked(s: Snapshot) {
    forall id :: id in s.disk && id !in s.partial ==> SetsFit(Records(s.disk[id]), s.limit)
  }

  /** A disk a store can be opened on. */
  ghost predicate Openable(disk: Disk) {
    DeletionsAsWritten(disk) && IdsFit(disk)
  }

  ghost predicate Consistent(s: Snapshot) {
    && IndexMatches(s.index, s.disk - s.hidden, s.limit)
    && Tracked(s)
    && Accounted(s)
    && DeletionsAsWritten(s.disk)
    && IdsFit(s.disk)
    && s.hidden <= s.partial
    && Marked(s)
  }

  /**
    Segment `a` may take the next record: no segment lies above it, every hidden one lies below it,
    and its file is exactly as long as the store believes, so nothing torn lies at its end.
   */
  ghost predicate Appendable(s: Snapshot, a: nat) {
    && a <= MAX_SEGMENT_ID
    && (forall u :: u in s.hidden ==> u < a)
    && (forall id :: id in s.disk ==> id <= a)
    && |Content(s.disk, a)| == Count(s.bytes, a)
  }

  /** Neither view of the contents changes. */
  ghost predicate SameContents(s: Snapshot, t: Snapshot) {
    Full(s) == Full(t) && Visible(s) == Visible(t)
  }

  // ------------------------------------------------------------------ general

  lemma WithoutNothing(disk: Disk)
    ensures disk - {} == disk
  {
  }

  /** A file without a complete line says nothing. */
  lemma NoCompleteLine(disk: Disk, id: nat, k: Bytes, limit: nat)
    requires CompleteLength(disk, id) == 0
    ensures EffectAt(disk, id, k, limit).Untouched?
  {
    RecordsIgnoreTail(Content(disk, id));
  }

  lemma SameValuesSameContents(s: Snapshot, t: Snapshot)
    requires s.hidden == t.hidden && s.limit == t.limit
    requires forall k :: ValueIn(s.disk - {}, k, s.limit) == ValueIn(t.disk - {}, k, s.limit)
    requires forall k :: ValueIn(s.disk - s.hidden, k, s.limit) == ValueIn(t.disk - s.hidden, k, s.limit)
    ensures SameContents(s, t)
  {
    hide ValueIn, Replayed;
    WithoutNothing(s.disk);
    WithoutNothing(t.disk);
    SameReplay(s.disk, t.disk, s.limit);
    SameReplay(s.disk - s.hidden, t.disk - s.hidden, s.limit);
  }

  /** The disk changes, but not in any complete line. */
  ghost predicate Silent(disk: Disk, next: Disk) {
    forall id: nat ::
      Records(Content(next, id)) == Records(Content(disk, id)) && CompleteLength(next, id) == CompleteLength(disk, id)
  }

  lemma SilentEffect(disk: Disk, next: Disk, id: nat, k: Bytes, limit: nat)
    requires Silent(disk, next)
    ensures EffectAt(next, id, k, limit) == EffectAt(disk, id, k, limit)
  {
    RecordsOfTail([]);
    assert Records(Content(next, id)) == Records(Content(disk, id));
  }

  lemma SilentKeepsReplay(disk: Disk, next: Disk, h: set<nat>, limit: nat)
    requires Silent(disk, next)
    ensures Replayed(next - h, limit) == Replayed(disk - h, limit)
    ensures forall k :: EntryIn(next - h, k, limit) == EntryIn(disk - h, k, limit)
  {
    hide Silent, EffectAt, Replayed;
    forall k
      ensures ValueIn(next - h, k, limit) == ValueIn(disk - h, k, limit)
      ensures EntryIn(next - h, k, limit) == EntryIn(disk - h, k, limit)
    {
      forall j: nat
        ensures EffectAt(next - h, j, k, limit) == EffectAt(disk - h, j, k, limit)
      {
        EffectWithout(disk, h, j, k, limit);
        EffectWithout(next, h, j, k, limit);
        SilentEffect(disk, next, j, k, limit);
      }
      EntrySame(next - h, disk - h, k, limit);
    }
    hide ValueIn, EntryIn;
    SameReplay(next - h, disk - h, limit);
  }

  lemma SilentKeepsDeletions(disk: Disk, next: Disk)
    requires Silent(disk, next) && DeletionsAsWritten(disk)
    ensures DeletionsAsWritten(next)
  {
    RecordsOfTail([]);
    forall id | id in next
      ensures AsWrittenIn(Records(next[id]))
    {
      assert Records(Content(next, id)) == Records(Content(disk, id));
      if id in disk {
        assert AsWrittenIn(Records(disk[id]));
      }
    }
  }

  lemma SilentKeepsMarks(s: Snapshot, next: Disk)
    requires Marked(s) && Silent(s.disk, next)
    ensures Marked(s.(disk := next))
  {
    hide SetsFit, CompletePrefixLength;
    NothingTooLong(s.limit);
    forall id | id in next && id !in s.partial
      ensures SetsFit(Records(next[id]), s.limit)
    {
      assert Records(Content(next, id)) == Records(Content(s.disk, id));
    }
  }

  lemma NothingTooLong(limit: nat)
    ensures SetsFit(Records([]), limit)
  {
    RecordsOfTail([]);
  }

  lemma SilentStep(s: Snapshot, next: Disk)
    requires Consistent(s) && Silent(s.disk, next) && IdsFit(next)
    ensures Consistent(s.(disk := next)) && SameContents(s, s.(disk := next))
  {
    var t := s.(disk := next);
    WithoutNothing(s.disk);
    WithoutNothing(next);
    SilentKeepsReplay(s.disk, next, {}, s.limit);
    SilentKeepsReplay(s.disk, next, s.hidden, s.limit);
    SilentKeepsDeletions(s.disk, next);
    SilentKeepsMarks(s, next);
    hide Marked;
    assert Tracked(t) by {
      hide DeletionsAsWritten, IndexMatches, Accounted, Replayed;
      forall id: nat
        ensures Count(t.bytes, id) == if id in t.hidden then 0 else CompleteLength(t.disk, id)
      {
        assert CompleteLength(next, id) == CompleteLength(s.disk, id);
      }
    }
  }

  // -------------------------------------------------- appends that go wrong

  lemma AppendableIsComplete(s: Snapshot, a: nat)
    requires Consistent(s) && Appendable(s, a)
    ensures Complete(Content(s.disk, a))
    ensures CompleteLength(s.disk, a) == |Content(s.disk, a)| == Count(s.bytes, a)
  {
  }

  /** What a failed append may leave behind: a strict prefix of the line, no newline in it. */
  lemma TearIsSilent(disk: Disk, a: nat, line: Bytes, k: nat)
    requires Complete(Content(disk, a)) && IsLine(line) && k < |line|
    requires CompleteLength(disk, a) == |Content(disk, a)|
    ensures Silent(disk, disk[a := Content(disk, a) + line[..k]])
  {
    RecordsTornLine(Content(disk, a), line, k);
  }

  /** Cutting a file to its complete prefix. */
  lemma TrimIsSilent(disk: Disk, a: nat)
    requires a in disk
    ensures Silent(disk, disk[a := disk[a][..CompleteLength(disk, a)]])
    ensures CompletePrefixLength(disk[a][..CompleteLength(disk, a)]) == CompleteLength(disk, a)
  {
    var c := disk[a];
    RecordsIgnoreTail(c);
    var n := CompletePrefixLength(c);
    assert CompletePrefixLength(c[..n]) == n;
  }

  /** Removing a file that holds no complete line. */
  lemma RemoveIsSilent(disk: Disk, a: nat)
    requires CompleteLength(disk, a) == 0
    ensures Silent(disk, disk - {a})
  {
    RecordsIgnoreTail(Content(disk, a));
    RecordsOfTail([]);
  }

  // ------------------------------------------------------------------- append

  /** The line at the end of the highest segment has the last word on its key. */
  lemma AppendedEffect(disk: Disk, a: nat, op: Op, j: nat, k: Bytes, limit: nat)
    requires Writable(op) && Complete(Content(disk, a)) && |EncodeOp(op)| <= limit
    ensures EffectAt(disk[a := Content(disk, a) + EncodeOp(op)], j, k, limit) ==
            if j == a && k == op.key then
              (if op.Put? then Sets(op.value, |Content(disk, a)|, |EncodeOp(op)|) else Erases)
            else EffectAt(disk, j, k, limit)
  {
    hide Decode, EncodeOp, Records, EffectOf;
    DecodeInvertsEncode(op);
    EffectAppendLine(Content(disk, a), EncodeOp(op), k, limit);
    RecordsOfTail([]);
    NothingSays(k, limit);
  }

  lemma NothingSays(k: Bytes, limit: nat)
    ensures EffectIn([], k, limit).Untouched?
  {
    RecordsOfTail([]);
  }

  function WrittenValue(op: Op): Option<Bytes> {
    if op.Put? then Some(op.value) else None
  }

  lemma AppendedValue(disk: Disk, a: nat, op: Op, h: set<nat>, k: Bytes, limit: nat)
    requires Writable(op) && Complete(Content(disk, a)) && |EncodeOp(op)| <= limit
    requires a !in h && forall id :: id in disk ==> id <= a
    ensures var next := disk[a := Content(disk, a) + EncodeOp(op)];
            && ValueIn(next - h, k, limit) == (if k == op.key then WrittenValue(op) else ValueIn(disk - h, k, limit))
            && EntryIn(next - h, k, limit) ==
               if k == op.key then
                 (if op.Put? then Some(Entry(a, |Content(disk, a)|, |EncodeOp(op)|)) else None)
               else EntryIn(disk - h, k, limit)
  {
    hide EncodeOp;
    var next := disk[a := Content(disk, a) + EncodeOp(op)];
    forall j: nat
      ensures EffectAt(next - h, j, k, limit) ==
              if j == a && k == op.key then
                (if op.Put? then Sets(op.value, |Content(disk, a)|, |EncodeOp(op)|) else Erases)
              else EffectAt(disk - h, j, k, limit)
    {
      EffectWithout(disk, h, j, k, limit);
      EffectWithout(next, h, j, k, limit);
      AppendedEffect(disk, a, op, j, k, limit);
    }
    forall j: nat | j > a
      ensures EffectAt(disk - h, j, k, limit).Untouched?
    {
    }
    hide EffectAt;
    if k == op.key {
      assert DecidedBy(next - h, k, limit, a);
      ValueDecided(next - h, k, limit, a);
      EntryDecided(next - h, k, limit, a);
    } else {
      EntrySame(next - h, disk - h, k, limit);
    }
  }

  lemma AppendedReplay(disk: Disk, a: nat, op: Op, h: set<nat>, limit: nat)
    requires Writable(op) && Complete(Content(disk, a)) && |EncodeOp(op)| <= limit
    requires a !in h && forall id :: id in disk ==> id <= a
    ensures var next := disk[a := Content(disk, a) + EncodeOp(op)];
            Replayed(next - h, limit) ==
            if op.Put? then Replayed(disk - h, limit)[op.key := op.value] else Replayed(disk - h, limit) - {op.key}
  {
    hide EncodeOp, Replayed, ValueIn, EntryIn;
    var next := disk[a := Content(disk, a) + EncodeOp(op)];
    forall k
      ensures ValueIn(next - h, k, limit) == if k == op.key then WrittenValue(op) else ValueIn(disk - h, k, limit)
    {
      AppendedValue(disk, a, op, h, k, limit);
    }
    ReplayUpdate(disk - h, next - h, limit, op.key, WrittenValue(op));
  }

  function AddTo(m: map<nat, nat>, id: nat, n: nat): map<nat, nat> {
    m[id := Count(m, id) + n]
  }

  lemma CountAdded(m: map<nat, nat>, id: nat, n: nat, j: nat)
    ensures Count(AddTo(m, id, n), j) == Count(m, j) + if j == id then n else 0
  {
  }

  lemma CountSet(m: map<nat, nat>, id: nat, n: nat, j: nat)
    ensures Count(m[id := n], j) == if j == id then n else Count(m, j)
  {
  }

  /** The bookkeeping after the record of `op` has been appended to segment `a`. */
  function AfterAppend(s: Snapshot, a: nat, op: Op): Snapshot
    requires !op.Skip?
  {
    var line := EncodeOp(op);
    var c := Content(s.disk, a);
    var own := if op.Put? then s.dead else AddTo(s.dead, a, |line|);
    var k := op.key;
    s.(disk := s.disk[a := c + line],
       index := if op.Put? then s.index[k := Entry(a, |c|, |line|)] else s.index - {k},
       bytes := s.bytes[a := |c| + |line|],
       dead := if k in s.index then AddTo(own, s.index[k].segment, s.index[k].length) else own)
  }

  /** The new record is live, a superseded one is not. */
  lemma LiveAfterAppend(s: Snapshot, a: nat, op: Op, id: nat)
    requires Writable(op)
    ensures var t := AfterAppend(s, a, op);
            LiveBytes(t.index, id) + (if op.key in s.index then Share(s.index[op.key], id) else 0) ==
            LiveBytes(s.index, id) + (if op.Put? then Share(t.index[op.key], id) else 0)
  {
    hide EncodeOp, LiveBytes, Content;
    var t := AfterAppend(s, a, op);
    var k := op.key;
    if op.Put? {
      LivePut(s.index, id, k, t.index[k]);
    }
    if k in s.index {
      LiveRemove(s.index, id, k);
    } else {
      LiveAbsent(s.index, id, k);
    }
  }

  lemma AppendAccounted(s: Snapshot, a: nat, op: Op)
    requires Accounted(s) && Writable(op) && |Content(s.disk, a)| == Count(s.bytes, a)
    ensures Accounted(AfterAppend(s, a, op))
  {
    var t := AfterAppend(s, a, op);
    forall id: nat
      ensures Count(t.dead, id) + LiveBytes(t.index, id) == Count(t.bytes, id)
    {
      AppendAccountedAt(s, a, op, id);
    }
  }

  lemma AppendAccountedAt(s: Snapshot, a: nat, op: Op, id: nat)
    requires Accounted(s) && Writable(op) && |Content(s.disk, a)| == Count(s.bytes, a)
    ensures var t := AfterAppend(s, a, op); Count(t.dead, id) + LiveBytes(t.index, id) == Count(t.bytes, id)
  {
    assert Count(s.dead, id) + LiveBytes(s.index, id) == Count(s.bytes, id);
    LiveAfterAppend(s, a, op, id);
    hide EncodeOp, LiveBytes, Content, Accounted, Count, AddTo;
    var n := |EncodeOp(op)|;
    var own := if op.Put? then s.dead else AddTo(s.dead, a, n);
    CountAdded(s.dead, a, n, id);
    CountSet(s.bytes, a, |Content(s.disk, a)| + n, id);
    if op.key in s.index {
      CountAdded(own, s.index[op.key].segment, s.index[op.key].length, id);
    }
  }

  /** One segment changes and its byte count follows. */
  lemma TrackedAfter(s: Snapshot, t: Snapshot, a: nat, n: nat)
    requires Tracked(s) && t.hidden == s.hidden && a !in s.hidden && t.bytes == s.bytes[a := n]
    requires forall id: nat :: id != a ==> Content(t.disk, id) == Content(s.disk, id)
    requires CompleteLength(t.disk, a) == n
    ensures Tracked(t)
  {
    hide CompletePrefixLength, Content;
    forall id: nat
      ensures Count(t.bytes, id) == if id in t.hidden then 0 else CompleteLength(t.disk, id)
    {
      assert Count(s.bytes, id) == if id in s.hidden then 0 else CompleteLength(s.disk, id);
    }
  }

  lemma AppendedLength(disk: Disk, a: nat, op: Op)
    requires Writable(op)
    ensures CompletePrefixLength(Content(disk, a) + EncodeOp(op)) == |Content(disk, a)| + |EncodeOp(op)|
  {
    DecodeInvertsEncode(op);
    hide EncodeOp, Decode, IsLine;
    CompleteAppend(Content(disk, a), EncodeOp(op));
  }

  lemma AppendChangesOne(s: Snapshot, a: nat, op: Op)
    requires !op.Skip?
    ensures var t := AfterAppend(s, a, op);
            && (forall id: nat :: id != a ==> Content(t.disk, id) == Content(s.disk, id))
            && Content(t.disk, a) == Content(s.disk, a) + EncodeOp(op)
            && t.bytes == s.bytes[a := |Content(s.disk, a)| + |EncodeOp(op)|]
            && t.hidden == s.hidden
  {
    hide EncodeOp;
  }

  lemma AppendTracked(s: Snapshot, a: nat, op: Op)
    requires Tracked(s) && Writable(op) && a !in s.hidden
    ensures Tracked(AfterAppend(s, a, op))
  {
    hide EncodeOp, Tracked, CompletePrefixLength, AfterAppend, Content;
    AppendedLength(s.disk, a, op);
    AppendChangesOne(s, a, op);
    TrackedAfter(s, AfterAppend(s, a, op), a, |Content(s.disk, a)| + |EncodeOp(op)|);
  }

  lemma AppendKeepsDeletions(disk: Disk, a: nat, op: Op)
    requires DeletionsAsWritten(disk) && Writable(op) && Complete(Content(disk, a))
    ensures DeletionsAsWritten(disk[a := Content(disk, a) + EncodeOp(op)])
  {
    hide EncodeLine, Records, Decode;
    var c := Content(disk, a);
    DecodeInvertsEncode(op);
    RecordsAppendLine(c, EncodeOp(op));
    RecordsOfTail([]);
    AsWrittenSnoc(Records(c), Rec(|c|, |EncodeOp(op)|, op));
  }

  lemma AppendedContents(s: Snapshot, a: nat, op: Op)
    requires Consistent(s) && Appendable(s, a) && Writable(op) && |EncodeOp(op)| <= s.limit
    ensures op.Put? ==> Full(AfterAppend(s, a, op)) == Full(s)[op.key := op.value]
    ensures op.Put? ==> Visible(AfterAppend(s, a, op)) == Visible(s)[op.key := op.value]
    ensures op.Del? ==> Full(AfterAppend(s, a, op)) == Full(s) - {op.key}
    ensures op.Del? ==> Visible(AfterAppend(s, a, op)) == Visible(s) - {op.key}
  {
    var t := AfterAppend(s, a, op);
    AppendableIsComplete(s, a);
    hide EncodeOp, Consistent, Replayed, Complete;
    WithoutNothing(s.disk);
    WithoutNothing(t.disk);
    AppendedReplay(s.disk, a, op, {}, s.limit);
    AppendedReplay(s.disk, a, op, s.hidden, s.limit);
  }

  lemma AppendKeepsAppendable(s: Snapshot, a: nat, op: Op)
    requires Appendable(s, a) && !op.Skip?
    ensures Appendable(AfterAppend(s, a, op), a)
  {
    hide EncodeOp;
  }

  lemma AppendKeepsMarks(s: Snapshot, a: nat, op: Op)
    requires Marked(s) && Writable(op) && Complete(Content(s.disk, a)) && |EncodeOp(op)| <= s.limit
    ensures Marked(AfterAppend(s, a, op))
  {
    hide EncodeOp, Records, Decode, Complete;
    var c := Content(s.disk, a);
    DecodeInvertsEncode(op);
    RecordsAppendLine(c, EncodeOp(op));
    NothingTooLong(s.limit);
  }

  lemma AppendKeepsConsistent(s: Snapshot, a: nat, op: Op)
    requires Consistent(s) && Appendable(s, a) && Writable(op) && |EncodeOp(op)| <= s.limit
    ensures Consistent(AfterAppend(s, a, op))
  {
    hide EncodeOp, Complete, IndexMatches, Tracked, Accounted, DeletionsAsWritten, Content, Marked;
    AppendableIsComplete(s, a);
    AppendKeepsMarks(s, a, op);
    AppendAccounted(s, a, op);
    AppendTracked(s, a, op);
    AppendKeepsDeletions(s.disk, a, op);
    AppendIndexMatches(s, a, op);
  }

  /** A successful append is the map update or removal it was asked for, in both views. */
  lemma AppendStep(s: Snapshot, a: nat, op: Op)
    requires Consistent(s) && Appendable(s, a) && Writable(op) && |EncodeOp(op)| <= s.limit
    ensures Consistent(AfterAppend(s, a, op)) && Appendable(AfterAppend(s, a, op), a)
    ensures op.Put? ==> Full(AfterAppend(s, a, op)) == Full(s)[op.key := op.value]
    ensures op.Put? ==> Visible(AfterAppend(s, a, op)) == Visible(s)[op.key := op.value]
    ensures op.Del? ==> Full(AfterAppend(s, a, op)) == Full(s) - {op.key}
    ensures op.Del? ==> Visible(AfterAppend(s, a, op)) == Visible(s) - {op.key}
  {
    hide Consistent, Appendable, EncodeOp, AfterAppend, Full, Visible;
    AppendKeepsConsistent(s, a, op);
    AppendKeepsAppendable(s, a, op);
    AppendedContents(s, a, op);
  }

  lemma AppendIndexMatches(s: Snapshot, a: nat, op: Op)
    requires Consistent(s) && Appendable(s, a) && Writable(op) && |EncodeOp(op)| <= s.limit
    ensures var t := AfterAppend(s, a, op); IndexMatches(t.index, t.disk - t.hidden, t.limit)
  {
    hide EncodeOp, EntryIn, ValueIn;
    var t := AfterAppend(s, a, op);
    AppendableIsComplete(s, a);
    forall k
      ensures Lookup(t.index, k) == EntryIn(t.disk - t.hidden, k, t.limit)
    {
      AppendedValue(s.disk, a, op, s.hidden, k, s.limit);
      assert Lookup(s.index, k) == EntryIn(s.disk - s.hidden, k, s.limit);
    }
  }

  // --------------------------------------------------------------- compaction

  /** No segment below `seg` holds a complete line, hidden ones included. */
  ghost predicate NothingBelow(s: Snapshot, seg: nat) {
    forall j: nat :: j < seg ==> j !in s.hidden && CompleteLength(s.disk, j) == 0
  }

  ghost predicate Compacts(s: Snapshot, seg: nat, comp: Compaction, lower: bool) {
    && seg in s.disk && seg !in s.hidden
    && (lower <==> !NothingBelow(s, seg))
    && AllLocated(s.disk[seg], Records(s.disk[seg]))
    && comp == CompactRecs(s.disk[seg], Records(s.disk[seg]), s.index, seg, lower)
  }

  /** The state after segment `seg` has been replaced by its compaction. */
  function AfterCompaction(s: Snapshot, seg: nat, comp: Compaction): Snapshot {
    s.(disk := if comp.rebuilt == [] then s.disk - {seg} else s.disk[seg := comp.rebuilt],
       index := s.index + comp.moved,
       bytes := s.bytes[seg := |comp.rebuilt|],
       dead := s.dead[seg := comp.tombstoneBytes])
  }

  lemma CompactsRight(s: Snapshot, seg: nat, comp: Compaction, lower: bool)
    requires Consistent(s) && Compacts(s, seg, comp, lower)
    ensures var rs := Records(s.disk[seg]); KeptRight(comp, rs, rs, s.index, seg, lower, s.limit)
    ensures var rs := Records(s.disk[seg]);
            forall k :: SomeLive(rs, k, s.index, seg) <==> k in s.index && s.index[k].segment == seg
  {
    hide Records, IndexMatches, KeptRight, CompactRecs, Tracked, Accounted;
    var c := s.disk[seg];
    var rs := Records(c);
    assert (s.disk - s.hidden)[seg] == c;
    IndexLiveAgree(s.index, s.disk - s.hidden, s.limit, seg);
    RecordsCoverCompletePrefix(c);
    CompactionIsRight(c, rs, |rs|, s.index, seg, lower, s.limit);
    assert rs[..|rs|] == rs;
  }

  /** What the compaction says about one key. */
  lemma CompactionSays(s: Snapshot, seg: nat, comp: Compaction, lower: bool, k: Bytes)
    requires Consistent(s) && Compacts(s, seg, comp, lower)
    ensures EffectIn(comp.rebuilt, k, s.limit) == KeptEffect(comp, Records(s.disk[seg]), k, s.limit)
    ensures k in comp.moved <==> k in s.index && s.index[k].segment == seg
    ensures k in comp.moved ==> comp.moved[k].segment == seg && comp.moved[k].length == s.index[k].length
    ensures k in comp.tombstoneKeys <==> lower && k !in s.index && SomeTombstone(Records(s.disk[seg]), k)
  {
    CompactsRight(s, seg, comp, lower);
    hide Consistent, Compacts, Records, SomeLive, SomeTombstone, LiveBytes, AsWrittenIn, Complete, CompletePrefixLength;
  }

  /** The size and shape of the compaction. */
  lemma CompactionShape(s: Snapshot, seg: nat, comp: Compaction, lower: bool)
    requires Consistent(s) && Compacts(s, seg, comp, lower)
    ensures Complete(comp.rebuilt) && CompletePrefixLength(comp.rebuilt) == |comp.rebuilt|
    ensures AsWrittenIn(Records(comp.rebuilt))
    ensures |comp.rebuilt| == comp.tombstoneBytes + LiveBytes(comp.moved, seg)
  {
    CompactsRight(s, seg, comp, lower);
    hide Consistent, Compacts, Records, SomeLive, SomeTombstone, LiveBytes, AsWrittenIn, Complete, CompletePrefixLength;
  }

  // ------------------------------------------------------- nothing left over

  /** A record worth keeping: live, or the deletion of a key without a value. */
  predicate Needed(r: Rec, index: Index, segment: nat) {
    IsLive(r, index, segment) || (r.op.Del? && r.op.key !in index)
  }

  predicate SameDeletion(p: Rec, q: Rec) {
    p.op.Del? && q.op.Del? && p.op.key == q.op.key
  }

  predicate DeletesOnce(rs: seq<Rec>) {
    forall i, j :: 0 <= i < j < |rs| ==> !SameDeletion(rs[i], rs[j])
  }

  /**
    The segment's file holds only records that are still needed: live ones, and for some keys without
    a value one deletion each, if there is anything below that it may hide. A file that would be
    empty is not there.
   */
  ghost predicate NoGarbage(s: Snapshot, seg: nat) {
    var rs := Records(Content(s.disk, seg));
    && (forall i :: 0 <= i < |rs| ==> Needed(rs[i], s.index, seg))
    && (forall i :: 0 <= i < |rs| && rs[i].op.Del? ==> !NothingBelow(s, seg))
    && DeletesOnce(rs)
    && Complete(Content(s.disk, seg))
    && (seg in s.disk ==> rs != [])
  }

  lemma MissingHasNoGarbage(s: Snapshot, seg: nat)
    requires seg !in s.disk
    ensures NoGarbage(s, seg)
  {
    RecordsOfTail([]);
  }

  /** A file without garbage is there for a reason: a live record, or data below it that its deletions may hide. */
  lemma LeftForAReason(s: Snapshot, seg: nat)
    requires NoGarbage(s, seg) && seg in s.disk
    ensures !NothingBelow(s, seg) || exists k :: k in s.index && s.index[k].segment == seg
  {
    hide Records, Complete, NothingBelow;
    var r := Records(s.disk[seg])[0];
    assert Needed(r, s.index, seg);
    if !r.op.Del? {
      assert r.op.key in s.index;
    }
  }

  /** Every record of the rebuilt content is a live one in its new place, or a deletion that is kept. */
  ghost predicate RebuiltNeeded(st: Compaction, index: Index, segment: nat, lower: bool) {
    && Complete(st.rebuilt)
    && DeletesOnce(Records(st.rebuilt))
    && forall i :: 0 <= i < |Records(st.rebuilt)| ==>
         var r := Records(st.rebuilt)[i];
         if r.op.Put? then Lookup(st.moved, r.op.key) == Some(Entry(segment, r.offset, r.length))
         else r.op.Del? && r.op.key !in index && r.op.key in st.tombstoneKeys && lower
  }

  lemma RebuiltStep(c: Bytes, r: Rec, st: Compaction, index: Index, segment: nat, lower: bool)
    requires LocatedIn(c, r) && RebuiltNeeded(st, index, segment, lower)
    requires IsLive(r, index, segment) ==> r.op.key !in st.moved
    ensures RebuiltNeeded(CompactRec(c, r, st, index, segment, lower), index, segment, lower)
  {
    hide Records, Decode, IsLine, Complete;
    var line := c[r.offset..r.offset + r.length];
    if KeepsTombstone(r, index, lower, st.tombstoneKeys) || IsLive(r, index, segment) {
      RecordsAppendLine(st.rebuilt, line);
    }
  }

  /** Only live records move. */
  lemma MovedIsLive(c: Bytes, full: seq<Rec>, n: nat, index: Index, segment: nat, lower: bool, limit: nat)
    requires n < |full| && Chained(c, 0, full) && AsWrittenIn(full) && LiveAgree(full, full, index, segment, limit)
    requires AllLocated(c, full[..n]) && IsLive(full[n], index, segment)
    ensures full[n].op.key !in CompactRecs(c, full[..n], index, segment, lower).moved
  {
    CompactionIsRight(c, full, n, index, segment, lower, limit);
    LiveOnce(c, full, n, index, segment);
    hide CompactRecs, SomeLive, Records, Chained, SomeTombstone;
  }

  lemma {:induction false} RebuiltIsNeeded(c: Bytes, full: seq<Rec>, n: nat, index: Index, segment: nat, lower: bool, limit: nat)
    requires n <= |full| && Chained(c, 0, full) && AsWrittenIn(full) && LiveAgree(full, full, index, segment, limit)
    requires AllLocated(c, full[..n])
    ensures RebuiltNeeded(CompactRecs(c, full[..n], index, segment, lower), index, segment, lower)
    decreases n
  {
    if n == 0 {
      RecordsOfTail([]);
    } else {
      assert full[..n][..n - 1] == full[..n - 1];
      hide RebuiltNeeded, Chained, LiveAgree, LocatedIn, CompactRec;
      RebuiltIsNeeded(c, full, n - 1, index, segment, lower, limit);
      if IsLive(full[n - 1], index, segment) {
        MovedIsLive(c, full, n - 1, index, segment, lower, limit);
      }
      RebuiltStep(c, full[n - 1], CompactRecs(c, full[..n - 1], index, segment, lower), index, segment, lower);
    }
  }

  /** What lies below a segment does not depend on what is in it. */
  lemma CompactionIsAbove(s: Snapshot, seg: nat, comp: Compaction)
    ensures NothingBelow(AfterCompaction(s, seg, comp), seg) <==> NothingBelow(s, seg)
  {
    hide CompletePrefixLength;
    forall j: nat | j < seg
      ensures CompleteLength(AfterCompaction(s, seg, comp).disk, j) == CompleteLength(s.disk, j)
    {
    }
  }

  /** A content that is not empty and ends with a newline holds a record. */
  lemma CompleteHoldsRecord(c: Bytes)
    requires Complete(c) && c != []
    ensures Records(c) != []
  {
    RecordsCoverCompletePrefix(c);
    hide Records;
  }

  /** A compaction that has been installed leaves nothing in the segment that is not needed. */
  lemma CompactionLeavesNoGarbage(s: Snapshot, seg: nat, comp: Compaction, lower: bool)
    requires Consistent(s) && Compacts(s, seg, comp, lower)
    ensures NoGarbage(AfterCompaction(s, seg, comp), seg)
  {
    var rs := Records(s.disk[seg]);
    assert rs[..|rs|] == rs;
    CompactionInputs(s, seg, comp, lower);
    RebuiltIsNeeded(s.disk[seg], rs, |rs|, s.index, seg, lower, s.limit);
    MovedAreIndexed(s, seg, comp, lower);
    CompactionIsAbove(s, seg, comp);
    RecordsOfTail([]);
    if comp.rebuilt != [] {
      CompleteHoldsRecord(comp.rebuilt);
    }
    hide Records, CompactRecs, Consistent, NothingBelow, Complete, DeletesOnce;
  }

  lemma MovedAreIndexed(s: Snapshot, seg: nat, comp: Compaction, lower: bool)
    requires Consistent(s) && Compacts(s, seg, comp, lower)
    ensures forall k :: k in comp.moved ==> k in s.index
  {
    forall k | k in comp.moved
      ensures k in s.index
    {
      CompactionSays(s, seg, comp, lower, k);
    }
  }

  lemma CompactionInputs(s: Snapshot, seg: nat, comp: Compaction, lower: bool)
    requires Consistent(s) && Compacts(s, seg, comp, lower)
    ensures var rs := Records(s.disk[seg]);
            Chained(s.disk[seg], 0, rs) && AsWrittenIn(rs) && LiveAgree(rs, rs, s.index, seg, s.limit)
  {
    RecordsCoverCompletePrefix(s.disk[seg]);
    hide Records, CompactRecs, IndexMatches, Tracked, Accounted, Chained;
    assert (s.disk - s.hidden)[seg] == s.disk[seg];
    IndexLiveAgree(s.index, s.disk - s.hidden, s.limit, seg);
  }

  lemma AfterCompactionEffect(s: Snapshot, seg: nat, comp: Compaction, j: nat, k: Bytes)
    ensures EffectAt(AfterCompaction(s, seg, comp).disk, j, k, s.limit) ==
            if j == seg then EffectIn(comp.rebuilt, k, s.limit) else EffectAt(s.disk, j, k, s.limit)
  {
    NothingSays(k, s.limit);
  }

  lemma CompactedKeys(s: Snapshot, seg: nat, comp: Compaction, lower: bool, k: Bytes)
    requires Consistent(s) && Compacts(s, seg, comp, lower)
    ensures CompactedKey(s.disk, AfterCompaction(s, seg, comp).disk, s.index, seg, k, s.limit)
  {
    var next := AfterCompaction(s, seg, comp).disk;
    forall j: nat
      ensures EffectAt(next, j, k, s.limit) == if j == seg then EffectIn(comp.rebuilt, k, s.limit) else EffectAt(s.disk, j, k, s.limit)
    {
      AfterCompactionEffect(s, seg, comp, j, k);
    }
    var before, after := EffectAt(s.disk, seg, k, s.limit), EffectAt(next, seg, k, s.limit);
    CompactionSays(s, seg, comp, lower, k);
    hide Records, AfterCompaction, CompactRecs, IndexMatches, Tracked, Accounted, NothingBelow, DeletionsAsWritten;
    EffectInIs(s.disk[seg], k, s.limit);
    if k in comp.moved {
      LiveEffect(s, seg, k);
    } else if k !in s.index && after.Erases? {
      DeletionSeen(s, seg, k);
    } else if k !in s.index && before.Erases? && k in comp.tombstoneKeys {
      ErasedByTombstone(s, seg, k);
    } else if k !in s.index && before.Erases? {
      DeletionWithoutLower(s, seg, comp, lower, k);
    }
  }

  /** A live record is its segment's last word on its key. */
  lemma LiveEffect(s: Snapshot, seg: nat, k: Bytes)
    requires IndexMatches(s.index, s.disk - s.hidden, s.limit)
    requires k in s.index && s.index[k].segment == seg
    ensures EffectAt(s.disk, seg, k, s.limit).Sets?
    ensures DecidedBy(s.disk - s.hidden, k, s.limit, seg)
  {
    assert Lookup(s.index, k) == EntryIn(s.disk - s.hidden, k, s.limit);
  }

  lemma DeletionSeen(s: Snapshot, seg: nat, k: Bytes)
    requires DeletionsAsWritten(s.disk) && seg in s.disk
    requires SomeTombstone(Records(s.disk[seg]), k) && DeletionFits(k, s.limit)
    ensures !EffectAt(s.disk, seg, k, s.limit).Untouched?
  {
    var rs := Records(s.disk[seg]);
    hide Records;
    assert AsWrittenIn(rs);
    var i :| 0 <= i < |rs| && rs[i].op == Del(k);
    EffectSeen(rs, k, s.limit, i);
  }

  /** A segment that erases a key holds a deletion of it. */
  lemma ErasedByTombstone(s: Snapshot, seg: nat, k: Bytes)
    requires seg in s.disk && EffectAt(s.disk, seg, k, s.limit).Erases? && DeletionsAsWritten(s.disk)
    ensures SomeTombstone(Records(s.disk[seg]), k) && DeletionFits(k, s.limit)
  {
    var rs := Records(s.disk[seg]);
    hide Records;
    assert AsWrittenIn(rs);
    EffectInIs(s.disk[seg], k, s.limit);
    var i := EffectWitness(rs, k, s.limit);
    assert rs[i].op == Del(k);
  }

  /** A deletion is dropped only when nothing below can hold its key. */
  lemma DeletionWithoutLower(s: Snapshot, seg: nat, comp: Compaction, lower: bool, k: Bytes)
    requires Consistent(s) && Compacts(s, seg, comp, lower)
    requires k !in s.index && k !in comp.tombstoneKeys && EffectAt(s.disk, seg, k, s.limit).Erases?
    ensures forall j: nat :: j < seg ==> EffectAt(s.disk, j, k, s.limit).Untouched?
  {
    CompactionSays(s, seg, comp, lower, k);
    ErasedByTombstone(s, seg, k);
    hide Records, CompactRecs, SomeTombstone, EffectAt, IndexMatches, Tracked, Accounted, DeletionsAsWritten;
    forall j: nat | j < seg
      ensures EffectAt(s.disk, j, k, s.limit).Untouched?
    {
      NoCompleteLine(s.disk, j, k, s.limit);
    }
  }

  lemma CompactionIndexMatches(s: Snapshot, seg: nat, comp: Compaction, lower: bool)
    requires Consistent(s) && Compacts(s, seg, comp, lower)
    ensures var t := AfterCompaction(s, seg, comp); IndexMatches(t.index, t.disk - t.hidden, t.limit)
  {
    hide Compacts, Consistent, AfterCompaction;
    var t := AfterCompaction(s, seg, comp);
    assert t.index == s.index + comp.moved && t.hidden == s.hidden && t.limit == s.limit by {
      AfterCompactionFields(s, seg, comp);
    }
    forall k
      ensures Lookup(t.index, k) == EntryIn(t.disk - t.hidden, k, t.limit)
    {
      CompactionEntry(s, seg, comp, lower, k);
    }
  }

  lemma AfterCompactionFields(s: Snapshot, seg: nat, comp: Compaction)
    ensures var t := AfterCompaction(s, seg, comp);
            t.index == s.index + comp.moved && t.hidden == s.hidden && t.limit == s.limit && t.partial == s.partial
  {
  }

  lemma EntryAndValue(disk: Disk, k: Bytes, limit: nat)
    ensures EntryIn(disk, k, limit).None? <==> ValueIn(disk, k, limit).None?
  {
  }

  lemma CompactionEntry(s: Snapshot, seg: nat, comp: Compaction, lower: bool, k: Bytes)
    requires Consistent(s) && Compacts(s, seg, comp, lower)
    ensures EntryIn(AfterCompaction(s, seg, comp).disk - s.hidden, k, s.limit) == Lookup(s.index + comp.moved, k)
  {
    var next := AfterCompaction(s, seg, comp).disk;
    if k in s.index {
      CompactedLiveKey(s, seg, comp, lower, k);
    } else {
      CompactionSays(s, seg, comp, lower, k);
      CompactedKeys(s, seg, comp, lower, k);
      hide Tracked, Accounted, CompactRecs, NothingBelow, DeletionsAsWritten, CompactedKey, EntryIn, ValueIn, EffectAt, EffectIn;
      assert Lookup(s.index, k) == EntryIn(s.disk - s.hidden, k, s.limit);
      CompactionKeepsValue(s.disk, next, s.hidden, s.hidden, s.index, seg, k, s.limit);
      EntryAndValue(s.disk - s.hidden, k, s.limit);
      EntryAndValue(next - s.hidden, k, s.limit);
    }
  }

  lemma CompactedVisibleEffect(s: Snapshot, seg: nat, comp: Compaction, j: nat, k: Bytes)
    ensures EffectAt(AfterCompaction(s, seg, comp).disk - s.hidden, j, k, s.limit) ==
            if j in s.hidden then Untouched
            else if j == seg then EffectIn(comp.rebuilt, k, s.limit)
            else EffectAt(s.disk - s.hidden, j, k, s.limit)
  {
    EffectWithout(AfterCompaction(s, seg, comp).disk, s.hidden, j, k, s.limit);
    EffectWithout(s.disk, s.hidden, j, k, s.limit);
    AfterCompactionEffect(s, seg, comp, j, k);
  }

  lemma LiveStaysDecided(s: Snapshot, seg: nat, comp: Compaction, k: Bytes, d: nat)
    requires DecidedBy(s.disk - s.hidden, k, s.limit, d)
    requires EffectIn(comp.rebuilt, k, s.limit).Untouched? <==> d != seg
    requires seg !in s.hidden
    ensures DecidedBy(AfterCompaction(s, seg, comp).disk - s.hidden, k, s.limit, d)
    ensures EffectAt(AfterCompaction(s, seg, comp).disk - s.hidden, d, k, s.limit) ==
            if d == seg then EffectIn(comp.rebuilt, k, s.limit) else EffectAt(s.disk - s.hidden, d, k, s.limit)
  {
    var disk', disk := AfterCompaction(s, seg, comp).disk - s.hidden, s.disk - s.hidden;
    forall j: nat
      ensures EffectAt(disk', j, k, s.limit) ==
              if j in s.hidden then Untouched
              else if j == seg then EffectIn(comp.rebuilt, k, s.limit)
              else EffectAt(disk, j, k, s.limit)
    {
      CompactedVisibleEffect(s, seg, comp, j, k);
    }
    assert d !in s.hidden by {
      EffectWithout(s.disk, s.hidden, d, k, s.limit);
    }
    hide EffectAt, EffectIn, AfterCompaction;
  }

  lemma CompactedLiveKey(s: Snapshot, seg: nat, comp: Compaction, lower: bool, k: Bytes)
    requires Consistent(s) && Compacts(s, seg, comp, lower) && k in s.index
    ensures EntryIn(AfterCompaction(s, seg, comp).disk - s.hidden, k, s.limit) == Lookup(s.index + comp.moved, k)
  {
    var d := s.index[k].segment;
    var disk', disk := AfterCompaction(s, seg, comp).disk - s.hidden, s.disk - s.hidden;
    assert DecidedBy(disk, k, s.limit, d) && EntryOf(d, EffectAt(disk, d, k, s.limit)) == Some(s.index[k]) by {
      assert Lookup(s.index, k) == EntryIn(disk, k, s.limit);
    }
    CompactionSays(s, seg, comp, lower, k);
    assert seg !in s.hidden;
    hide Consistent, Compacts, EffectIn, EffectAt, SomeTombstone, Records, AfterCompaction, DecidedBy, EntryIn, EffectOf;
    LiveStaysDecided(s, seg, comp, k, d);
    EntryDecided(disk', k, s.limit, d);
  }

  lemma CompactionLive(s: Snapshot, seg: nat, comp: Compaction, lower: bool, id: nat)
    requires Consistent(s) && Compacts(s, seg, comp, lower)
    ensures LiveBytes(s.index + comp.moved, id) == if id == seg then LiveBytes(comp.moved, seg) else LiveBytes(s.index, id)
  {
    var next := s.index + comp.moved;
    forall k
      ensures k in comp.moved <==> k in s.index && s.index[k].segment == seg
      ensures k in comp.moved ==> comp.moved[k].segment == seg && comp.moved[k].length == s.index[k].length
    {
      CompactionSays(s, seg, comp, lower, k);
    }
    hide Consistent, Compacts, LiveBytes;
    if id == seg {
      LiveRestrict(next, comp.moved, seg);
    } else {
      LiveSame(s.index, next, id);
    }
  }

  lemma CompactionAccounted(s: Snapshot, seg: nat, comp: Compaction, lower: bool)
    requires Consistent(s) && Compacts(s, seg, comp, lower)
    ensures Accounted(AfterCompaction(s, seg, comp))
  {
    CompactionShape(s, seg, comp, lower);
    hide Compacts, Tracked, DeletionsAsWritten, IndexMatches, LiveBytes;
    var t := AfterCompaction(s, seg, comp);
    forall id: nat
      ensures Count(t.dead, id) + LiveBytes(t.index, id) == Count(t.bytes, id)
    {
      assert Count(s.dead, id) + LiveBytes(s.index, id) == Count(s.bytes, id);
      CompactionLive(s, seg, comp, lower, id);
    }
  }

  lemma NothingIsComplete()
    ensures CompletePrefixLength([]) == 0
  {
  }

  lemma CompactionTracked(s: Snapshot, seg: nat, comp: Compaction, lower: bool)
    requires Consistent(s) && Compacts(s, seg, comp, lower)
    ensures Tracked(AfterCompaction(s, seg, comp))
    ensures DeletionsAsWritten(AfterCompaction(s, seg, comp).disk)
  {
    CompactionShape(s, seg, comp, lower);
    hide Records, CompactRecs, NothingBelow, IndexMatches, LiveBytes, Accounted, CompletePrefixLength;
    var t := AfterCompaction(s, seg, comp);
    RecordsOfTail([]);
    NothingIsComplete();
    TrackedAfter(s, t, seg, |comp.rebuilt|);
  }

  /** A compaction writes live records, which this store could read, and deletions. */
  lemma RebuiltFits(s: Snapshot, seg: nat, comp: Compaction, lower: bool)
    requires Consistent(s) && Compacts(s, seg, comp, lower)
    ensures SetsFit(Records(comp.rebuilt), s.limit)
    ensures (forall k :: k in s.index ==> s.index[k].segment != seg) ==> SetsFit(Records(comp.rebuilt), 0)
  {
    var rs := Records(s.disk[seg]);
    assert rs[..|rs|] == rs;
    CompactionInputs(s, seg, comp, lower);
    RebuiltIsNeeded(s.disk[seg], rs, |rs|, s.index, seg, lower, s.limit);
    hide Records, CompactRecs, Tracked, Accounted, DeletionsAsWritten, Marked, Complete, IndexMatches;
    forall i | 0 <= i < |Records(comp.rebuilt)| && Records(comp.rebuilt)[i].op.Put?
      ensures Records(comp.rebuilt)[i].length <= s.limit
      ensures exists k :: k in s.index && s.index[k].segment == seg
    {
      var r := Records(comp.rebuilt)[i];
      assert Lookup(comp.moved, r.op.key) == Some(Entry(seg, r.offset, r.length));
      CompactionSays(s, seg, comp, lower, r.op.key);
      var w := EntryWitness(s.index, s.disk - s.hidden, s.limit, r.op.key);
    }
  }

  lemma CompactionKeepsMarks(s: Snapshot, seg: nat, comp: Compaction, lower: bool)
    requires Consistent(s) && Compacts(s, seg, comp, lower)
    ensures Marked(AfterCompaction(s, seg, comp))
  {
    RebuiltFits(s, seg, comp, lower);
    hide Records, SetsFit, Compacts, Tracked, Accounted, DeletionsAsWritten, IndexMatches;
  }

  /** Compacting a segment keeps the invariant and both views of the contents. */
  lemma CompactionStep(s: Snapshot, seg: nat, comp: Compaction, lower: bool)
    requires Consistent(s) && Compacts(s, seg, comp, lower)
    ensures Consistent(AfterCompaction(s, seg, comp))
    ensures SameContents(s, AfterCompaction(s, seg, comp))
  {
    var t := AfterCompaction(s, seg, comp);
    CompactionIndexMatches(s, seg, comp, lower);
    CompactionAccounted(s, seg, comp, lower);
    CompactionTracked(s, seg, comp, lower);
    CompactionKeepsMarks(s, seg, comp, lower);
    hide Marked, IndexMatches, Accounted, Tracked, DeletionsAsWritten, ValueIn, CompactedKey, EffectAt;
    forall k
      ensures ValueIn(s.disk - {}, k, s.limit) == ValueIn(t.disk - {}, k, s.limit)
      ensures ValueIn(s.disk - s.hidden, k, s.limit) == ValueIn(t.disk - s.hidden, k, s.limit)
    {
      CompactedKeys(s, seg, comp, lower, k);
      CompactionKeepsValue(s.disk, t.disk, s.hidden, {}, s.index, seg, k, s.limit);
      CompactionKeepsValue(s.disk, t.disk, s.hidden, s.hidden, s.index, seg, k, s.limit);
    }
    SameValuesSameContents(s, t);
  }

  // ---------------------------------------------- moving deletions upwards

  /** The state after the deletions in `tombstones` have been copied to segment `a`. */
  function AfterMerge(s: Snapshot, a: nat, tombstones: Bytes): Snapshot {
    s.(disk := s.disk[a := Content(s.disk, a) + tombstones],
       bytes := s.bytes[a := |Content(s.disk, a)| + |tombstones|],
       dead := AddTo(s.dead, a, |tombstones|))
  }

  /** And after the segment they came from has been removed. */
  function AfterMove(s: Snapshot, seg: nat, a: nat, tombstones: Bytes): Snapshot {
    var t := AfterMerge(s, a, tombstones);
    t.(disk := t.disk - {seg}, bytes := t.bytes[seg := 0], dead := t.dead[seg := 0])
  }

  /** Segment `seg` holds no live record, and `a` can take its deletions. */
  ghost predicate Movable(s: Snapshot, seg: nat, a: nat, comp: Compaction) {
    && Compacts(s, seg, comp, true)
    && Appendable(s, a)
    && seg < a
    && (forall k :: k in s.index ==> s.index[k].segment != seg)
  }

  /** And no segment above it has been read only in part, so its deletions may move up to `a`. */
  ghost predicate Moves(s: Snapshot, seg: nat, a: nat, comp: Compaction) {
    Movable(s, seg, a, comp) && forall j :: j in s.partial ==> j <= seg
  }

  /** The keys whose copied deletions are short enough to be read back. */
  function Moved(comp: Compaction, limit: nat): set<Bytes> {
    set k | k in comp.tombstoneKeys && DeletionFits(k, limit)
  }

  lemma MergedEffect(s: Snapshot, seg: nat, a: nat, comp: Compaction, j: nat, k: Bytes)
    requires Consistent(s) && Moves(s, seg, a, comp)
    ensures EffectAt(AfterMerge(s, a, comp.rebuilt).disk, j, k, s.limit) ==
            if j == a && k in Moved(comp, s.limit) then Erases else EffectAt(s.disk, j, k, s.limit)
  {
    if j == a {
      CompactionSays(s, seg, comp, true, k);
      AppendableIsComplete(s, a);
      hide Records, CompactRecs, IndexMatches, SomeTombstone, Tracked, Accounted;
      var c := Content(s.disk, a);
      RecordsConcat(c, comp.rebuilt);
      EffectConcat(Records(c), Shift(Records(comp.rebuilt), |c|), k, s.limit);
      EffectShift(Records(comp.rebuilt), |c|, k, s.limit);
      EffectInIs(comp.rebuilt, k, s.limit);
      EffectInIs(c, k, s.limit);
      EffectInIs(c + comp.rebuilt, k, s.limit);
      NothingSays(k, s.limit);
    }
  }

  lemma MergedKeys(s: Snapshot, seg: nat, a: nat, comp: Compaction, k: Bytes)
    requires Consistent(s) && Moves(s, seg, a, comp)
    ensures MergedKey(s.disk, AfterMerge(s, a, comp.rebuilt).disk, s.index, seg, a, Moved(comp, s.limit), k, s.limit)
    ensures forall j: nat :: j > a ==> EffectAt(s.disk, j, k, s.limit).Untouched?
    ensures forall j: nat :: j > seg ==> j !in s.hidden
  {
    hide Records, AfterMerge, CompactRecs, IndexMatches, Tracked, Accounted, DeletionsAsWritten, SomeTombstone, EffectIn, DeletionFits;
    forall j: nat
      ensures EffectAt(AfterMerge(s, a, comp.rebuilt).disk, j, k, s.limit) ==
              if j == a && k in Moved(comp, s.limit) then Erases else EffectAt(s.disk, j, k, s.limit)
    {
      MergedEffect(s, seg, a, comp, j, k);
    }
    CompactionSays(s, seg, comp, true, k);
    if k in Moved(comp, s.limit) {
      DeletionSeen(s, seg, k);
    } else if EffectAt(s.disk, seg, k, s.limit).Erases? {
      ErasedByTombstone(s, seg, k);
    }
  }

  lemma MergeContents(s: Snapshot, seg: nat, a: nat, comp: Compaction)
    requires Consistent(s) && Moves(s, seg, a, comp)
    ensures SameContents(s, AfterMerge(s, a, comp.rebuilt))
    ensures SameContents(s, AfterMove(s, seg, a, comp.rebuilt))
    ensures var t := AfterMerge(s, a, comp.rebuilt); IndexMatches(t.index, t.disk - t.hidden, t.limit)
    ensures var t := AfterMove(s, seg, a, comp.rebuilt); IndexMatches(t.index, t.disk - t.hidden, t.limit)
  {
    var t, u := AfterMerge(s, a, comp.rebuilt), AfterMove(s, seg, a, comp.rebuilt);
    assert u.disk == t.disk - {seg};
    forall k
      ensures ValueIn(s.disk - {}, k, s.limit) == ValueIn(t.disk - {}, k, s.limit)
      ensures ValueIn(s.disk - s.hidden, k, s.limit) == ValueIn(t.disk - s.hidden, k, s.limit)
      ensures ValueIn(s.disk - {}, k, s.limit) == ValueIn(u.disk - {}, k, s.limit)
      ensures ValueIn(s.disk - s.hidden, k, s.limit) == ValueIn(u.disk - s.hidden, k, s.limit)
      ensures EntryIn(t.disk - s.hidden, k, s.limit) == Lookup(s.index, k)
      ensures EntryIn(u.disk - s.hidden, k, s.limit) == Lookup(s.index, k)
    {
      MergedKeys(s, seg, a, comp, k);
      assert Lookup(s.index, k) == EntryIn(s.disk - s.hidden, k, s.limit);
      hide MergedKey, ValueIn, EntryIn, EffectAt, Tracked, Accounted, DeletionsAsWritten, IndexMatches, AfterMerge, AfterMove;
      MergeKeepsValue(s.disk, t.disk, s.hidden, {}, s.index, seg, a, Moved(comp, s.limit), k, s.limit);
      MergeKeepsValue(s.disk, t.disk, s.hidden, s.hidden, s.index, seg, a, Moved(comp, s.limit), k, s.limit);
    }
    hide ValueIn, EntryIn, Tracked, Accounted, DeletionsAsWritten, Moves;
    SameValuesSameContents(s, t);
    SameValuesSameContents(s, u);
  }

  lemma MergedLength(s: Snapshot, seg: nat, a: nat, comp: Compaction)
    requires Consistent(s) && Moves(s, seg, a, comp)
    ensures CompletePrefixLength(Content(s.disk, a) + comp.rebuilt) == |Content(s.disk, a)| + |comp.rebuilt|
  {
    CompactionShape(s, seg, comp, true);
    AppendableIsComplete(s, a);
    hide CompletePrefixLength, Consistent, Compacts, Appendable, Content, LiveBytes;
    CompleteConcat(Content(s.disk, a), comp.rebuilt);
  }

  lemma MergeLengths(s: Snapshot, seg: nat, a: nat, comp: Compaction)
    requires Consistent(s) && Moves(s, seg, a, comp)
    ensures CompleteLength(AfterMerge(s, a, comp.rebuilt).disk, a) == |Content(s.disk, a)| + |comp.rebuilt|
    ensures CompleteLength(AfterMove(s, seg, a, comp.rebuilt).disk, seg) == 0
    ensures Tracked(s) && a !in s.hidden && seg !in s.hidden && seg != a
  {
    MergedLength(s, seg, a, comp);
    NothingIsComplete();
    hide CompletePrefixLength, IndexMatches, Accounted, DeletionsAsWritten, Tracked;
  }

  lemma MergeTracked(s: Snapshot, seg: nat, a: nat, comp: Compaction)
    requires Consistent(s) && Moves(s, seg, a, comp)
    ensures Tracked(AfterMerge(s, a, comp.rebuilt))
    ensures Tracked(AfterMove(s, seg, a, comp.rebuilt))
  {
    var t, u := AfterMerge(s, a, comp.rebuilt), AfterMove(s, seg, a, comp.rebuilt);
    MergeLengths(s, seg, a, comp);
    MergeChangesOne(s, seg, a, comp.rebuilt);
    hide Consistent, Moves, Tracked, AfterMerge, AfterMove, Content, CompleteLength, CompletePrefixLength;
    TrackedAfter(s, t, a, |Content(s.disk, a)| + |comp.rebuilt|);
    TrackedAfter(t, u, seg, 0);
  }

  lemma MergeChangesOne(s: Snapshot, seg: nat, a: nat, tombstones: Bytes)
    requires seg != a
    ensures var t, u := AfterMerge(s, a, tombstones), AfterMove(s, seg, a, tombstones);
            && (forall id: nat :: id != a ==> Content(t.disk, id) == Content(s.disk, id))
            && (forall id: nat :: id != seg ==> Content(u.disk, id) == Content(t.disk, id))
            && Content(u.disk, seg) == []
            && t.bytes == s.bytes[a := |Content(s.disk, a)| + |tombstones|]
            && u.bytes == t.bytes[seg := 0] && t.hidden == u.hidden == s.hidden
  {
  }

  lemma CompleteConcat(a: Bytes, b: Bytes)
    requires CompletePrefixLength(a) == |a| && CompletePrefixLength(b) == |b|
    ensures CompletePrefixLength(a + b) == |a| + |b|
  {
    if b != [] {
      assert (a + b)[|a + b| - 1] == b[|b| - 1];
    } else {
      assert a + b == a;
    }
  }

  lemma MergeAccounted(s: Snapshot, seg: nat, a: nat, comp: Compaction)
    requires Consistent(s) && Moves(s, seg, a, comp)
    ensures Accounted(AfterMerge(s, a, comp.rebuilt))
    ensures Accounted(AfterMove(s, seg, a, comp.rebuilt))
  {
    LiveNone(s.index, seg);
    MergeKeepsAccounts(s, a, comp.rebuilt);
    RemovalKeepsAccounts(AfterMerge(s, a, comp.rebuilt), seg, AfterMove(s, seg, a, comp.rebuilt));
  }

  lemma MergeKeepsAccounts(s: Snapshot, a: nat, tombstones: Bytes)
    requires Accounted(s) && |Content(s.disk, a)| == Count(s.bytes, a)
    ensures Accounted(AfterMerge(s, a, tombstones))
  {
    hide LiveBytes, Content;
    var t := AfterMerge(s, a, tombstones);
    forall id: nat
      ensures Count(t.dead, id) + LiveBytes(t.index, id) == Count(t.bytes, id)
    {
      assert Count(s.dead, id) + LiveBytes(s.index, id) == Count(s.bytes, id);
    }
  }

  lemma RemovalKeepsAccounts(t: Snapshot, seg: nat, u: Snapshot)
    requires Accounted(t) && LiveBytes(t.index, seg) == 0
    requires u.index == t.index && u.bytes == t.bytes[seg := 0] && u.dead == t.dead[seg := 0]
    ensures Accounted(u)
  {
    hide LiveBytes;
    forall id: nat
      ensures Count(u.dead, id) + LiveBytes(u.index, id) == Count(u.bytes, id)
    {
      assert Count(t.dead, id) + LiveBytes(t.index, id) == Count(t.bytes, id);
    }
  }

  lemma ConcatAsWritten(a: Bytes, b: Bytes)
    requires Complete(a) && AsWrittenIn(Records(a)) && AsWrittenIn(Records(b))
    ensures AsWrittenIn(Records(a + b))
  {
    hide Records, Complete;
    RecordsConcat(a, b);
    AsWrittenTogether(Records(a), Records(b), |a|);
  }

  lemma MergeKeepsDeletions(s: Snapshot, seg: nat, a: nat, comp: Compaction)
    requires Consistent(s) && Moves(s, seg, a, comp)
    ensures DeletionsAsWritten(AfterMerge(s, a, comp.rebuilt).disk)
  {
    CompactionShape(s, seg, comp, true);
    AppendableIsComplete(s, a);
    RecordsOfTail([]);
    hide Records, Compacts, IndexMatches, Accounted, Tracked, LiveBytes, Complete, CompletePrefixLength, AsWrittenIn;
    assert AsWrittenIn(Records(Content(s.disk, a))) by {
      NoTombstones();
    }
    ConcatAsWritten(Content(s.disk, a), comp.rebuilt);
  }

  lemma MergeKeepsMarks(s: Snapshot, seg: nat, a: nat, comp: Compaction)
    requires Consistent(s) && Moves(s, seg, a, comp)
    ensures Marked(AfterMerge(s, a, comp.rebuilt)) && Marked(AfterMove(s, seg, a, comp.rebuilt))
  {
    RebuiltFits(s, seg, comp, true);
    AppendableIsComplete(s, a);
    NothingTooLong(s.limit);
    hide Records, Compacts, IndexMatches, Accounted, Tracked, Complete, DeletionsAsWritten;
    var c := Content(s.disk, a);
    RecordsConcat(c, comp.rebuilt);
    FitTogether(Records(c), Records(comp.rebuilt), |c|, s.limit);
  }

  lemma FitTogether(xs: seq<Rec>, ys: seq<Rec>, base: nat, limit: nat)
    requires SetsFit(ys, limit)
    ensures SetsFit(xs, limit) ==> SetsFit(xs + Shift(ys, base), limit)
  {
  }

  lemma NoTombstones()
    ensures AsWrittenIn([])
  {
  }

  lemma AsWrittenTogether(xs: seq<Rec>, ys: seq<Rec>, base: nat)
    requires AsWrittenIn(xs) && AsWrittenIn(ys)
    ensures AsWrittenIn(xs + Shift(ys, base))
  {
  }

  /**
    Copying a segment's deletions to the end of the active segment, and then removing the segment,
    each keep the invariant and both views of the contents.
   */
  lemma MoveStep(s: Snapshot, seg: nat, a: nat, comp: Compaction)
    requires Consistent(s) && Moves(s, seg, a, comp)
    ensures Consistent(AfterMerge(s, a, comp.rebuilt)) && Appendable(AfterMerge(s, a, comp.rebuilt), a)
    ensures SameContents(s, AfterMerge(s, a, comp.rebuilt))
    ensures Consistent(AfterMove(s, seg, a, comp.rebuilt)) && Appendable(AfterMove(s, seg, a, comp.rebuilt), a)
    ensures SameContents(s, AfterMove(s, seg, a, comp.rebuilt))
  {
    MergeContents(s, seg, a, comp);
    MergeTracked(s, seg, a, comp);
    MergeAccounted(s, seg, a, comp);
    MergeKeepsDeletions(s, seg, a, comp);
    MoveAppendable(s, seg, a, comp);
    RemovalKeepsDeletions(AfterMerge(s, a, comp.rebuilt).disk, seg);
    MergeKeepsMarks(s, seg, a, comp);
    hide Marked, IndexMatches, Tracked, Accounted, Moves, Full, Visible, DeletionsAsWritten, Appendable, Content;
  }

  lemma RemovalKeepsDeletions(disk: Disk, seg: nat)
    requires DeletionsAsWritten(disk)
    ensures DeletionsAsWritten(disk - {seg})
  {
  }

  lemma MoveAppendable(s: Snapshot, seg: nat, a: nat, comp: Compaction)
    requires Appendable(s, a) && seg < a
    ensures Appendable(AfterMerge(s, a, comp.rebuilt), a)
    ensures Appendable(AfterMove(s, seg, a, comp.rebuilt), a)
  {
  }

  /** What lies below a segment does not depend on what is written above it. */
  lemma MergeIsAbove(s: Snapshot, seg: nat, a: nat, tombstones: Bytes)
    requires seg <= a
    ensures NothingBelow(AfterMerge(s, a, tombstones), seg) <==> NothingBelow(s, seg)
  {
    hide CompletePrefixLength;
    forall j: nat | j < seg
      ensures CompleteLength(AfterMerge(s, a, tombstones).disk, j) == CompleteLength(s.disk, j)
    {
    }
  }

  /** After a copy whose source could not be removed, the source can still be rewritten. */
  lemma CompactsAfterMerge(s: Snapshot, seg: nat, a: nat, comp: Compaction)
    requires Consistent(s) && Moves(s, seg, a, comp)
    ensures Compacts(AfterMerge(s, a, comp.rebuilt), seg, comp, true)
  {
    MergeIsAbove(s, seg, a, comp.rebuilt);
    hide CompactRecs, Records, Tracked, Accounted, IndexMatches, DeletionsAsWritten;
  }
}
