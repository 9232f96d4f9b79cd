/**
  What compaction keeps of a segment, and why that never changes the replay.

  Compaction keeps the live records. It keeps a deletion of a key only when the key has no value,
  a lower segment may still hold data, and it is the first deletion of that key in the segment.
 */
module SegmentCompaction {
  import opened Wrappers
  import opened SegmentCodec
  import opened Replay
  import opened SegmentIndex

  /** The rebuilt content, the deletions it keeps, and the new places of the live records. */
  datatype Compaction = Compaction(
    rebuilt: Bytes,
    tombstoneBytes: nat,
    tombstoneKeys: set<Bytes>,
    moved: Index)

  const NOTHING_KEPT := Compaction([], 0, {}, map[])

  /** The record is the live record of its key. */
  predicate IsLive(r: Rec, index: Index, segment: nat) {
    r.op.Put? && r.op.key in index && index[r.op.key] == Entry(segment, r.offset, r.length)
  }

  predicate KeepsTombstone(r: Rec, index: Index, lowerSegmentHasData: bool, kept: set<Bytes>) {
    r.op.Del? && lowerSegmentHasData && r.op.key !in index && r.op.key !in kept
  }

  function CompactRec(c: Bytes, r: Rec, st: Compaction, index: Index, segment: nat, lower: bool): Compaction
    requires LocatedIn(c, r)
  {
    var line := c[r.offset..r.offset + r.length];
    if KeepsTombstone(r, index, lower, st.tombstoneKeys) then
      Compaction(st.rebuilt + line, st.tombstoneBytes + r.length, st.tombstoneKeys + {r.op.key}, st.moved)
    else if IsLive(r, index, segment) then
      st.(rebuilt := st.rebuilt + line,
          moved := st.moved[r.op.key := Entry(segment, |st.rebuilt|, r.length)])
    else st
  }

  predicate AllLocated(c: Bytes, rs: seq<Rec>) {
    forall i :: 0 <= i < |rs| ==> LocatedIn(c, rs[i])
  }

  function CompactRecs(c: Bytes, rs: seq<Rec>, index: Index, segment: nat, lower: bool): Compaction
    requires AllLocated(c, rs)
  {
    if rs == [] then NOTHING_KEPT
    else
      var last := rs[|rs| - 1];
      CompactRec(c, last, CompactRecs(c, rs[..|rs| - 1], index, segment, lower), index, segment, lower)
  }

  /** The live records of the segment are its last word on their keys. */
  ghost predicate LiveAgree(rs: seq<Rec>, full: seq<Rec>, index: Index, segment: nat, limit: nat) {
    forall i :: 0 <= i < |rs| && IsLive(rs[i], index, segment) ==>
      rs[i].length <= limit
      && EffectOf(full, rs[i].op.key, limit) == Sets(rs[i].op.value, rs[i].offset, rs[i].length)
  }

  /** Deletions look as the store writes them, however long they may be. */
  predicate AsWrittenIn(rs: seq<Rec>) {
    forall i :: 0 <= i < |rs| && rs[i].op.Del? ==> rs[i].length == |EncodeLine(TOMBSTONE_KEY, rs[i].op.key)|
  }

  predicate DeletionFits(k: Bytes, limit: nat) {
    |EncodeLine(TOMBSTONE_KEY, k)| <= limit
  }

  /** What the rebuilt segment says about key `k`. */
  function KeptEffect(st: Compaction, full: seq<Rec>, k: Bytes, limit: nat): Effect {
    if k in st.moved then
      Sets(if EffectOf(full, k, limit).Sets? then EffectOf(full, k, limit).value else [],
           st.moved[k].offset, st.moved[k].length)
    else if k in st.tombstoneKeys && DeletionFits(k, limit) then Erases
    else Untouched
  }

  ghost predicate SomeLive(rs: seq<Rec>, k: Bytes, index: Index, segment: nat) {
    exists i :: 0 <= i < |rs| && rs[i].op.Put? && rs[i].op.key == k && IsLive(rs[i], index, segment)
  }

  ghost predicate SomeTombstone(rs: seq<Rec>, k: Bytes) {
    exists i :: 0 <= i < |rs| && rs[i].op == Del(k)
  }

  /** Everything the rebuilt segment must satisfy after the records `rs`. */
  ghost predicate KeptRight(st: Compaction, rs: seq<Rec>, full: seq<Rec>, index: Index, segment: nat, lower: bool, limit: nat) {
    && Complete(st.rebuilt)
    && CompletePrefixLength(st.rebuilt) == |st.rebuilt|
    && AsWrittenIn(Records(st.rebuilt))
    && (forall k :: EffectIn(st.rebuilt, k, limit) == KeptEffect(st, full, k, limit))
    && (forall k :: k in st.moved <==> SomeLive(rs, k, index, segment))
    && (forall k :: k in st.moved ==>
          k in index && st.moved[k].segment == segment == index[k].segment && st.moved[k].length == index[k].length)
    && (forall k :: k in st.tombstoneKeys <==> lower && k !in index && SomeTombstone(rs, k))
    && |st.rebuilt| == st.tombstoneBytes + LiveBytes(st.moved, segment)
  }

  lemma SomeLiveSnoc(rs: seq<Rec>, r: Rec, k: Bytes, index: Index, segment: nat)
    ensures SomeLive(rs + [r], k, index, segment) <==>
            SomeLive(rs, k, index, segment) || (IsLive(r, index, segment) && r.op.key == k)
  {
    var all := rs + [r];
    if SomeLive(rs, k, index, segment) {
      var i :| 0 <= i < |rs| && rs[i].op.Put? && rs[i].op.key == k && IsLive(rs[i], index, segment);
      assert all[i] == rs[i];
    }
    if IsLive(r, index, segment) && r.op.key == k {
      assert all[|rs|] == r;
    }
  }

  lemma SomeTombstoneSnoc(rs: seq<Rec>, r: Rec, k: Bytes)
    ensures SomeTombstone(rs + [r], k) <==> SomeTombstone(rs, k) || r.op == Del(k)
  {
    var all := rs + [r];
    if SomeTombstone(rs, k) {
      var i :| 0 <= i < |rs| && rs[i].op == Del(k);
      assert all[i] == rs[i];
    }
    if r.op == Del(k) {
      assert all[|rs|] == r;
    }
  }

  /** Appending one line to a complete file puts its record on top. */
  lemma EffectAppendLine(c: Bytes, line: Bytes, k: Bytes, limit: nat)
    requires Complete(c) && IsLine(line)
    ensures EffectIn(c + line, k, limit) ==
            Over(Effect1(Rec(|c|, |line|, Decode(line)), k, limit), EffectIn(c, k, limit))
  {
    hide Decode, Records, Effect1, EffectOf;
    RecordsAppendLine(c, line);
    EffectSnoc(Records(c), Rec(|c|, |line|, Decode(line)), k, limit);
  }

  lemma AsWrittenSnoc(rs: seq<Rec>, r: Rec)
    requires AsWrittenIn(rs) && (r.op.Del? ==> r.length == |EncodeLine(TOMBSTONE_KEY, r.op.key)|)
    ensures AsWrittenIn(rs + [r])
  {
  }

  /** Keeping a deletion. */
  lemma KeepTombstone(c: Bytes, r: Rec, st: Compaction, rs: seq<Rec>, full: seq<Rec>, index: Index, segment: nat, lower: bool, limit: nat)
    requires LocatedIn(c, r) && r.op.Del? && r.length == |EncodeLine(TOMBSTONE_KEY, r.op.key)|
    requires KeptRight(st, rs, full, index, segment, lower, limit)
    requires KeepsTombstone(r, index, lower, st.tombstoneKeys)
    ensures KeptRight(CompactRec(c, r, st, index, segment, lower), rs + [r], full, index, segment, lower, limit)
  {
    hide Decode, Records, IsLine, EffectOf, CompletePrefixLength, SomeLive, SomeTombstone, EffectIn, Complete, LiveBytes, AsWrittenIn, EncodeLine;
    var line := c[r.offset..r.offset + r.length];
    var next := CompactRec(c, r, st, index, segment, lower);
    RecordsAppendLine(st.rebuilt, line);
    AsWrittenSnoc(Records(st.rebuilt), Rec(|st.rebuilt|, |line|, r.op));
    forall k
      ensures EffectIn(next.rebuilt, k, limit) == KeptEffect(next, full, k, limit)
    {
      EffectAppendLine(st.rebuilt, line, k, limit);
    }
    forall k
      ensures SomeLive(rs + [r], k, index, segment) <==> SomeLive(rs, k, index, segment)
      ensures SomeTombstone(rs + [r], k) <==> SomeTombstone(rs, k) || r.op == Del(k)
    {
      SomeLiveSnoc(rs, r, k, index, segment);
      SomeTombstoneSnoc(rs, r, k);
    }
  }

  /** Keeping a live record. */
  lemma KeepLive(c: Bytes, r: Rec, st: Compaction, rs: seq<Rec>, full: seq<Rec>, index: Index, segment: nat, lower: bool, limit: nat)
    requires LocatedIn(c, r) && r.length <= limit
    requires KeptRight(st, rs, full, index, segment, lower, limit)
    requires IsLive(r, index, segment) && !SomeLive(rs, r.op.key, index, segment)
    requires EffectOf(full, r.op.key, limit) == Sets(r.op.value, r.offset, r.length)
    ensures KeptRight(CompactRec(c, r, st, index, segment, lower), rs + [r], full, index, segment, lower, limit)
  {
    hide Decode, Records, IsLine, EffectOf, CompletePrefixLength, SomeLive, SomeTombstone, EffectIn, Complete, LiveBytes, AsWrittenIn, EncodeLine;
    var line := c[r.offset..r.offset + r.length];
    var next := CompactRec(c, r, st, index, segment, lower);
    RecordsAppendLine(st.rebuilt, line);
    AsWrittenSnoc(Records(st.rebuilt), Rec(|st.rebuilt|, |line|, r.op));
    forall k
      ensures EffectIn(next.rebuilt, k, limit) == KeptEffect(next, full, k, limit)
    {
      EffectAppendLine(st.rebuilt, line, k, limit);
    }
    forall k
      ensures SomeLive(rs + [r], k, index, segment) <==> SomeLive(rs, k, index, segment) || k == r.op.key
      ensures SomeTombstone(rs + [r], k) <==> SomeTombstone(rs, k)
    {
      SomeLiveSnoc(rs, r, k, index, segment);
      SomeTombstoneSnoc(rs, r, k);
    }
    LivePut(st.moved, segment, r.op.key, next.moved[r.op.key]);
    LiveAbsent(st.moved, segment, r.op.key);
  }

  /** Dropping a record that is neither. */
  lemma DropRecord(c: Bytes, r: Rec, st: Compaction, rs: seq<Rec>, full: seq<Rec>, index: Index, segment: nat, lower: bool, limit: nat)
    requires LocatedIn(c, r)
    requires KeptRight(st, rs, full, index, segment, lower, limit)
    requires !KeepsTombstone(r, index, lower, st.tombstoneKeys) && !IsLive(r, index, segment)
    ensures KeptRight(CompactRec(c, r, st, index, segment, lower), rs + [r], full, index, segment, lower, limit)
  {
    hide Decode, Records, IsLine, EffectOf, CompletePrefixLength, SomeLive, SomeTombstone, EffectIn, Complete, LocatedIn;
    forall k
      ensures SomeLive(rs + [r], k, index, segment) <==> SomeLive(rs, k, index, segment)
      ensures SomeTombstone(rs + [r], k) <==> SomeTombstone(rs, k) || r.op == Del(k)
    {
      SomeLiveSnoc(rs, r, k, index, segment);
      SomeTombstoneSnoc(rs, r, k);
    }
  }

  lemma NothingKeptRight(full: seq<Rec>, index: Index, segment: nat, lower: bool, limit: nat)
    ensures KeptRight(NOTHING_KEPT, [], full, index, segment, lower, limit)
  {
    RecordsOfTail([]);
  }

  /** The compaction of the first `n` records of a segment is right. */
  lemma {:induction false} CompactionIsRight(c: Bytes, full: seq<Rec>, n: nat, index: Index, segment: nat, lower: bool, limit: nat)
    requires n <= |full| && Chained(c, 0, full)
    requires AsWrittenIn(full) && LiveAgree(full, full, index, segment, limit)
    ensures AllLocated(c, full[..n])
    ensures KeptRight(CompactRecs(c, full[..n], index, segment, lower), full[..n], full, index, segment, lower, limit)
  {
    if n == 0 {
      NothingKeptRight(full, index, segment, lower, limit);
    } else {
      CompactionIsRight(c, full, n - 1, index, segment, lower, limit);
      var rs, r := full[..n - 1], full[n - 1];
      var st := CompactRecs(c, rs, index, segment, lower);
      assert full[..n] == rs + [r] && full[..n][..n - 1] == rs;
      assert LocatedIn(c, r);
      hide KeptRight, LocatedIn, EffectOf;
      if KeepsTombstone(r, index, lower, st.tombstoneKeys) {
        KeepTombstone(c, r, st, rs, full, index, segment, lower, limit);
      } else if IsLive(r, index, segment) {
        LiveOnce(c, full, n - 1, index, segment);
        KeepLive(c, r, st, rs, full, index, segment, lower, limit);
      } else {
        DropRecord(c, r, st, rs, full, index, segment, lower, limit);
      }
    }
  }

  /** A key has one live record, since records start at different offsets. */
  lemma LiveOnce(c: Bytes, full: seq<Rec>, n: nat, index: Index, segment: nat)
    requires n < |full| && Chained(c, 0, full) && IsLive(full[n], index, segment)
    ensures !SomeLive(full[..n], full[n].op.key, index, segment)
  {
    hide Chained;
    var k := full[n].op.key;
    if SomeLive(full[..n], k, index, segment) {
      var i :| 0 <= i < n && full[..n][i].op.Put? && full[..n][i].op.key == k && IsLive(full[..n][i], index, segment);
      OffsetsIncrease(c, 0, full, i, n);
      assert false;
    }
  }

  /** For the index of the readable disk, live records agree with the segment. */
  lemma IndexLiveAgree(index: Index, disk: Disk, limit: nat, segment: nat)
    requires IndexMatches(index, disk, limit) && segment in disk
    ensures var rs := Records(disk[segment]); LiveAgree(rs, rs, index, segment, limit)
    ensures var rs := Records(disk[segment]);
            forall k :: SomeLive(rs, k, index, segment) <==> k in index && index[k].segment == segment
  {
    var c := disk[segment];
    var rs := Records(c);
    hide Records, IndexMatches, EffectOf;
    RecordsCoverCompletePrefix(c);
    forall i | 0 <= i < |rs| && IsLive(rs[i], index, segment)
      ensures rs[i].length <= limit
      ensures EffectOf(rs, rs[i].op.key, limit) == Sets(rs[i].op.value, rs[i].offset, rs[i].length)
    {
      var k := rs[i].op.key;
      var j := EntryWitness(index, disk, limit, k);
      SameOffset(c, rs, i, j);
      EffectInIs(c, k, limit);
    }
    forall k
      ensures SomeLive(rs, k, index, segment) <==> k in index && index[k].segment == segment
    {
      if k in index && index[k].segment == segment {
        var j := EntryWitness(index, disk, limit, k);
        assert IsLive(rs[j], index, segment);
      }
    }
  }

  lemma SameOffset(c: Bytes, rs: seq<Rec>, i: nat, j: nat)
    requires Chained(c, 0, rs) && i < |rs| && j < |rs| && rs[i].offset == rs[j].offset
    ensures i == j
  {
    hide Chained;
    if i < j {
      OffsetsIncrease(c, 0, rs, i, j);
    } else if j < i {
      OffsetsIncrease(c, 0, rs, j, i);
    }
  }

  // ------------------------------------------- why the replay does not change

  /**
    What replacing segment `s` may do to key `k`. `index` is the index of the readable segments,
    `disk` every segment, `next` the disk afterwards.
   */
  ghost predicate CompactedKey(disk: Disk, next: Disk, index: Index, s: nat, k: Bytes, limit: nat) {
    var before, after := EffectAt(disk, s, k, limit), EffectAt(next, s, k, limit);
    && (forall j: nat :: j != s ==> EffectAt(next, j, k, limit) == EffectAt(disk, j, k, limit))
    && (k in index && index[k].segment == s ==> after.Sets? && before.Sets? && after.value == before.value)
    && (k in index && index[k].segment != s ==> after.Untouched?)
    && (k !in index ==> !after.Sets?)
    && (k !in index && after.Erases? ==> !before.Untouched?)
    && (k !in index && after.Untouched? && before.Erases? ==>
          forall j: nat :: j < s ==> EffectAt(disk, j, k, limit).Untouched?)
  }

  lemma EffectWithout(disk: Disk, ids: set<nat>, j: nat, k: Bytes, limit: nat)
    ensures EffectAt(disk - ids, j, k, limit) == if j in ids then Untouched else EffectAt(disk, j, k, limit)
  {
  }

  /**
    Compaction gives every key the value it had, both among the readable segments and among all of
    them: take `h` as the hidden segments or as none.
   */
  lemma CompactionKeepsValue(disk: Disk, next: Disk, hidden: set<nat>, h: set<nat>, index: Index, s: nat, k: Bytes, limit: nat)
    requires h <= hidden && s !in hidden
    requires IndexMatches(index, disk - hidden, limit)
    requires CompactedKey(disk, next, index, s, k, limit)
    ensures ValueIn(next - h, k, limit) == ValueIn(disk - h, k, limit)
  {
    hide EffectAt;
    forall j: nat
      ensures EffectAt(disk - h, j, k, limit) == if j in h then Untouched else EffectAt(disk, j, k, limit)
      ensures EffectAt(next - h, j, k, limit) == if j in h then Untouched else EffectAt(next, j, k, limit)
      ensures EffectAt(disk - hidden, j, k, limit) == if j in hidden then Untouched else EffectAt(disk, j, k, limit)
    {
      EffectWithout(disk, h, j, k, limit);
      EffectWithout(next, h, j, k, limit);
      EffectWithout(disk, hidden, j, k, limit);
    }
    assert Lookup(index, k) == EntryIn(disk - hidden, k, limit);
    var d := Decider(disk - h, k, limit);
    if d.Some? && d.value > s {
      assert DecidedBy(next - h, k, limit, d.value);
      ValueDecided(next - h, k, limit, d.value);
    } else if d.Some? && d.value == s {
      assert DecidedBy(disk - hidden, k, limit, s);
      DeciderIs(disk - hidden, k, limit, s);
      if EffectAt(next, s, k, limit).Untouched? {
        assert forall j: nat :: EffectAt(next - h, j, k, limit).Untouched?;
      } else {
        assert DecidedBy(next - h, k, limit, s);
        ValueDecided(next - h, k, limit, s);
      }
    } else {
      assert EffectAt(next, s, k, limit).Untouched? by {
        if k in index && index[k].segment == s {
          assert false;
        }
      }
      assert forall j: nat :: EffectAt(next - h, j, k, limit) == EffectAt(disk - h, j, k, limit);
      DeciderSame(next - h, disk - h, k, limit);
    }
  }

  /**
    What copying the deletions of segment `s` to the end of the highest segment `a` does to key
    `k`; `moves` are the keys whose deletions are copied.
   */
  ghost predicate MergedKey(disk: Disk, next: Disk, index: Index, s: nat, a: nat, moves: set<Bytes>, k: Bytes, limit: nat) {
    && (forall j: nat :: j != a ==> EffectAt(next, j, k, limit) == EffectAt(disk, j, k, limit))
    && (k in moves ==> k !in index && EffectAt(next, a, k, limit).Erases? && !EffectAt(disk, s, k, limit).Untouched?)
    && (k !in moves ==> EffectAt(next, a, k, limit) == EffectAt(disk, a, k, limit))
    && (k !in moves && k !in index ==> !EffectAt(disk, s, k, limit).Erases?)
    && (k in index ==> index[k].segment != s)
  }

  /**
    Copying the deletions up, and then removing the segment they came from, both keep every value,
    provided no segment above `s` is hidden and `a` is the highest.
   */
  lemma MergeKeepsValue(disk: Disk, next: Disk, hidden: set<nat>, h: set<nat>, index: Index, s: nat, a: nat, moves: set<Bytes>, k: Bytes, limit: nat)
    requires h <= hidden && s !in hidden && s < a
    requires forall j: nat :: j > s ==> j !in hidden
    requires forall j: nat :: j > a ==> EffectAt(disk, j, k, limit).Untouched?
    requires IndexMatches(index, disk - hidden, limit)
    requires MergedKey(disk, next, index, s, a, moves, k, limit)
    ensures ValueIn(next - h, k, limit) == ValueIn(disk - h, k, limit)
    ensures ValueIn(next - {s} - h, k, limit) == ValueIn(disk - h, k, limit)
    ensures EntryIn(next - hidden, k, limit) == EntryIn(disk - hidden, k, limit)
    ensures EntryIn(next - {s} - hidden, k, limit) == EntryIn(disk - hidden, k, limit)
  {
    if k in moves {
      MovedKeyStaysErased(disk, next, hidden, h, index, s, a, moves, k, limit);
      MovedKeyStaysErased(disk, next, hidden, hidden, index, s, a, moves, k, limit);
    } else {
      UnmovedKeyMerged(disk, next, h, index, s, a, moves, k, limit);
      UnmovedKeyMerged(disk, next, hidden, index, s, a, moves, k, limit);
      UnmovedKeyWithout(disk, next, hidden, h, index, s, a, moves, k, limit);
      UnmovedKeyWithout(disk, next, hidden, hidden, index, s, a, moves, k, limit);
    }
  }

  lemma UnmovedKeyMerged(disk: Disk, next: Disk, h: set<nat>, index: Index, s: nat, a: nat, moves: set<Bytes>, k: Bytes, limit: nat)
    requires MergedKey(disk, next, index, s, a, moves, k, limit) && k !in moves
    ensures ValueIn(next - h, k, limit) == ValueIn(disk - h, k, limit)
    ensures EntryIn(next - h, k, limit) == EntryIn(disk - h, k, limit)
  {
    forall j: nat
      ensures EffectAt(next - h, j, k, limit) == EffectAt(disk - h, j, k, limit)
    {
      EffectWithout(disk, h, j, k, limit);
      EffectWithout(next, h, j, k, limit);
    }
    DeciderSame(next - h, disk - h, k, limit);
  }

  lemma MovedKeyStaysErased(disk: Disk, next: Disk, hidden: set<nat>, h: set<nat>, index: Index, s: nat, a: nat, moves: set<Bytes>, k: Bytes, limit: nat)
    requires h <= hidden && s !in hidden && s < a
    requires forall j: nat :: j > s ==> j !in hidden
    requires forall j: nat :: j > a ==> EffectAt(disk, j, k, limit).Untouched?
    requires IndexMatches(index, disk - hidden, limit)
    requires MergedKey(disk, next, index, s, a, moves, k, limit) && k in moves
    ensures ValueIn(disk - h, k, limit) == ValueIn(next - h, k, limit) == ValueIn(next - {s} - h, k, limit) == None
    ensures EntryIn(next - h, k, limit) == EntryIn(next - {s} - h, k, limit) == None
    ensures EntryIn(disk - h, k, limit) == None
  {
    hide EffectAt;
    forall j: nat
      ensures EffectAt(disk - h, j, k, limit) == if j in h then Untouched else EffectAt(disk, j, k, limit)
      ensures EffectAt(disk - hidden, j, k, limit) == if j in hidden then Untouched else EffectAt(disk, j, k, limit)
      ensures EffectAt(next - h, j, k, limit) == if j in h then Untouched else EffectAt(next, j, k, limit)
      ensures EffectAt(next - {s} - h, j, k, limit) == if j in h || j == s then Untouched else EffectAt(next, j, k, limit)
    {
      EffectWithout(disk, h, j, k, limit);
      EffectWithout(disk, hidden, j, k, limit);
      EffectWithout(next, h, j, k, limit);
      EffectWithout(next, {s}, j, k, limit);
      EffectWithout(next - {s}, h, j, k, limit);
    }
    assert DecidedBy(next - h, k, limit, a);
    ValueDecided(next - h, k, limit, a);
    EntryDecided(next - h, k, limit, a);
    assert DecidedBy(next - {s} - h, k, limit, a);
    ValueDecided(next - {s} - h, k, limit, a);
    EntryDecided(next - {s} - h, k, limit, a);
    assert Lookup(index, k) == EntryIn(disk - hidden, k, limit);
    var d := Decider(disk - h, k, limit);
    assert d.Some? by {
      assert !EffectAt(disk - h, s, k, limit).Untouched?;
    }
    assert d.value >= s;
    assert DecidedBy(disk - hidden, k, limit, d.value);
    DeciderIs(disk - hidden, k, limit, d.value);
  }

  lemma UnmovedKeyWithout(disk: Disk, next: Disk, hidden: set<nat>, h: set<nat>, index: Index, s: nat, a: nat, moves: set<Bytes>, k: Bytes, limit: nat)
    requires h <= hidden && s !in hidden && s < a
    requires forall j: nat :: j > s ==> j !in hidden
    requires IndexMatches(index, disk - hidden, limit)
    requires MergedKey(disk, next, index, s, a, moves, k, limit) && k !in moves
    ensures ValueIn(next - {s} - h, k, limit) == ValueIn(disk - h, k, limit)
    ensures EntryIn(next - {s} - h, k, limit) == EntryIn(disk - h, k, limit)
  {
    hide EffectAt;
    forall j: nat
      ensures EffectAt(disk - h, j, k, limit) == if j in h then Untouched else EffectAt(disk, j, k, limit)
      ensures EffectAt(disk - hidden, j, k, limit) == if j in hidden then Untouched else EffectAt(disk, j, k, limit)
      ensures EffectAt(next - {s} - h, j, k, limit) == if j in h || j == s then Untouched else EffectAt(disk, j, k, limit)
    {
      EffectWithout(disk, h, j, k, limit);
      EffectWithout(disk, hidden, j, k, limit);
      EffectWithout(next, {s}, j, k, limit);
      EffectWithout(next - {s}, h, j, k, limit);
    }
    DecidedHere(disk, hidden, h, index, s, k, limit);
    var d := Decider(disk - h, k, limit);
    if d.None? {
      assert forall j: nat :: EffectAt(next - {s} - h, j, k, limit).Untouched?;
    } else {
      assert d.value != s;
      assert DecidedBy(next - {s} - h, k, limit, d.value);
      ValueDecided(next - {s} - h, k, limit, d.value);
      EntryDecided(next - {s} - h, k, limit, d.value);
    }
  }

  /** A readable segment that decides a key either holds its live record or erases it. */
  lemma DecidedHere(disk: Disk, hidden: set<nat>, h: set<nat>, index: Index, s: nat, k: Bytes, limit: nat)
    requires h <= hidden && s !in hidden
    requires IndexMatches(index, disk - hidden, limit)
    ensures DecidedBy(disk - h, k, limit, s) ==>
              if k in index then index[k].segment == s else EffectAt(disk, s, k, limit).Erases?
  {
    if DecidedBy(disk - h, k, limit, s) {
      hide EffectAt;
      forall j: nat
        ensures EffectAt(disk - h, j, k, limit) == if j in h then Untouched else EffectAt(disk, j, k, limit)
        ensures EffectAt(disk - hidden, j, k, limit) == if j in hidden then Untouched else EffectAt(disk, j, k, limit)
      {
        EffectWithout(disk, h, j, k, limit);
        EffectWithout(disk, hidden, j, k, limit);
      }
      assert DecidedBy(disk - hidden, k, limit, s);
      DeciderIs(disk - hidden, k, limit, s);
      assert Lookup(index, k) == EntryIn(disk - hidden, k, limit);
    }
  }
}
