/**
  The longest record a store reads and writes can differ from session to session. What that changes,
  and what it does not.
 */
module SegmentLimits {
  import opened Wrappers
  import opened SegmentCodec
  import opened Replay
  import opened SegmentIndex
  import opened SegmentCompaction
  import opened SegmentInvariant

  ghost predicate AllWithin(rs: seq<Rec>, limit: nat) {
    forall i :: 0 <= i < |rs| ==> rs[i].length <= limit
  }

  lemma {:induction false} SameEffectWithin(rs: seq<Rec>, k: Bytes, limit: nat, more: nat)
    requires AllWithin(rs, limit) && limit <= more
    ensures EffectOf(rs, k, limit) == EffectOf(rs, k, more)
    decreases |rs|
  {
    if rs != [] {
      SameEffectWithin(rs[..|rs| - 1], k, limit, more);
    }
  }

  /** A disk whose records all fit reads the same for every session that allows at least as much. */
  lemma HigherLimitSeesTheSame(disk: Disk, limit: nat, more: nat)
    requires limit <= more && forall id :: id in disk ==> AllWithin(Records(disk[id]), limit)
    ensures Replayed(disk, limit) == Replayed(disk, more)
  {
    var m1, m2 := Replayed(disk, limit), Replayed(disk, more);
    forall k
      ensures Lookup(m1, k) == Lookup(m2, k)
    {
      hide Replayed, EffectAt;
      forall id: nat
        ensures EffectAt(disk, id, k, limit) == EffectAt(disk, id, k, more)
      {
        WithinAt(disk, id, k, limit, more);
      }
      SameDecision(disk, k, limit, more);
      ReplayedAt(disk, limit, k);
      ReplayedAt(disk, more, k);
    }
    hide Replayed;
    SameLookups(m1, m2);
  }

  lemma WithinAt(disk: Disk, id: nat, k: Bytes, limit: nat, more: nat)
    requires limit <= more && forall j :: j in disk ==> AllWithin(Records(disk[j]), limit)
    ensures EffectAt(disk, id, k, limit) == EffectAt(disk, id, k, more)
  {
    if id in disk {
      SameEffectWithin(Records(disk[id]), k, limit, more);
    }
  }

  lemma SameDecision(disk: Disk, k: Bytes, limit: nat, more: nat)
    requires forall id: nat :: EffectAt(disk, id, k, limit) == EffectAt(disk, id, k, more)
    ensures ValueIn(disk, k, limit) == ValueIn(disk, k, more)
  {
    hide EffectAt;
    var d := Decider(disk, k, limit);
    if d.Some? {
      assert DecidedBy(disk, k, more, d.value);
      DeciderIs(disk, k, more, d.value);
    }
  }

  // --------------------------- what a compaction does for a reader with another limit

  /** The length of the first deletion of a key, the one compaction keeps if it keeps any. */
  function FirstDeletion(rs: seq<Rec>, k: Bytes): Option<nat> {
    if rs == [] then None
    else
      var last := rs[|rs| - 1];
      var earlier := FirstDeletion(rs[..|rs| - 1], k);
      if earlier.Some? then earlier else if last.op == Del(k) then Some(last.length) else None
  }

  predicate FirstDeletionFits(rs: seq<Rec>, k: Bytes, more: nat) {
    FirstDeletion(rs, k).Some? && FirstDeletion(rs, k).value <= more
  }

  lemma FirstDeletionSnoc(rs: seq<Rec>, r: Rec, k: Bytes)
    ensures FirstDeletion(rs + [r], k) ==
            if FirstDeletion(rs, k).Some? then FirstDeletion(rs, k) else if r.op == Del(k) then Some(r.length) else None
  {
    assert (rs + [r])[..|rs|] == rs;
  }

  /** A reader with the limit `more` finds a deletion of the key in the rebuilt segment. */
  predicate KeepsDeletion(rs: seq<Rec>, index: Index, lower: bool, k: Bytes, more: nat) {
    lower && k !in index && FirstDeletionFits(rs, k, more)
  }

  /** What the rebuilt content says about a key to a reader with the limit `more`. */
  ghost predicate RebuiltSays(st: Compaction, rs: seq<Rec>, full: seq<Rec>, index: Index, segment: nat, lower: bool,
                              limit: nat, more: nat, k: Bytes) {
    && Complete(st.rebuilt)
    && (k in st.tombstoneKeys <==> lower && k !in index && FirstDeletion(rs, k).Some?)
    && var e := EffectIn(st.rebuilt, k, more);
       if SomeLive(rs, k, index, segment) then e.Sets? && ValueOf(e) == ValueOf(EffectOf(full, k, limit))
       else if KeepsDeletion(rs, index, lower, k, more) then e.Erases?
       else e.Untouched?
  }

  lemma RebuiltSaysStep(c: Bytes, r: Rec, st: Compaction, rs: seq<Rec>, full: seq<Rec>, index: Index, segment: nat, lower: bool,
                        limit: nat, more: nat, k: Bytes)
    requires LocatedIn(c, r) && limit <= more
    requires RebuiltSays(st, rs, full, index, segment, lower, limit, more, k)
    requires IsLive(r, index, segment) ==>
               r.length <= limit && EffectOf(full, r.op.key, limit) == Sets(r.op.value, r.offset, r.length)
    ensures RebuiltSays(CompactRec(c, r, st, index, segment, lower), rs + [r], full, index, segment, lower, limit, more, k)
  {
    var line := c[r.offset..r.offset + r.length];
    SomeLiveSnoc(rs, r, k, index, segment);
    LiveIsIndexed(rs, k, index, segment);
    FirstDeletionSnoc(rs, r, k);
    EffectAppendLine(st.rebuilt, line, k, more);
    AppendedIsComplete(st.rebuilt, line);
    hide Decode, Records, IsLine, EffectOf, EffectIn, SomeLive, FirstDeletion, Complete;
  }

  lemma LiveIsIndexed(rs: seq<Rec>, k: Bytes, index: Index, segment: nat)
    ensures SomeLive(rs, k, index, segment) ==> k in index
  {
  }

  lemma AppendedIsComplete(c: Bytes, line: Bytes)
    requires Complete(c) && IsLine(line)
    ensures Complete(c + line)
  {
    RecordsAppendLine(c, line);
  }

  /** Whatever the deletions look like, this is what the rebuilt content says. */
  lemma {:induction false} RebuiltIsRight(c: Bytes, full: seq<Rec>, n: nat, index: Index, segment: nat, lower: bool,
                                          limit: nat, more: nat, k: Bytes)
    requires n <= |full| && AllLocated(c, full[..n]) && limit <= more && LiveAgree(full, full, index, segment, limit)
    ensures RebuiltSays(CompactRecs(c, full[..n], index, segment, lower), full[..n], full, index, segment, lower, limit, more, k)
    decreases n
  {
    if n == 0 {
      RecordsOfTail([]);
    } else {
      var rs, r := full[..n - 1], full[n - 1];
      assert full[..n] == rs + [r] && full[..n][..n - 1] == rs;
      assert LocatedIn(c, r) by { assert full[..n][n - 1] == r; }
      assert AllLocated(c, rs);
      RebuiltIsRight(c, full, n - 1, index, segment, lower, limit, more, k);
      hide RebuiltSays, LocatedIn, EffectOf, CompactRec;
      RebuiltSaysStep(c, r, CompactRecs(c, rs, index, segment, lower), rs, full, index, segment, lower, limit, more, k);
    }
  }

  /** Some segment above has a word on the key. */
  ghost predicate MentionedAbove(disk: Disk, seg: nat, k: Bytes, more: nat) {
    exists j: nat :: j > seg && !EffectAt(disk, j, k, more).Untouched?
  }

  function Below(disk: Disk, seg: nat): Disk {
    map id | id in disk && id < seg :: disk[id]
  }

  /** Without a word from above the segment decides, and if it says nothing, those below it. */
  lemma ValueSplit(disk: Disk, seg: nat, k: Bytes, more: nat)
    requires !MentionedAbove(disk, seg, k, more)
    ensures ValueIn(disk, k, more) ==
            var e := EffectAt(disk, seg, k, more);
            if e.Untouched? then ValueIn(Below(disk, seg), k, more) else ValueOf(e)
  {
    hide EffectIn;
    if EffectAt(disk, seg, k, more).Untouched? {
      assert forall j: nat :: EffectAt(disk, j, k, more) == EffectAt(Below(disk, seg), j, k, more);
      DeciderSame(disk, Below(disk, seg), k, more);
    } else {
      assert DecidedBy(disk, k, more, seg);
      ValueDecided(disk, k, more, seg);
    }
  }

  lemma ValueFromAbove(disk: Disk, next: Disk, seg: nat, k: Bytes, more: nat)
    requires MentionedAbove(disk, seg, k, more)
    requires forall j: nat :: j != seg ==> EffectAt(next, j, k, more) == EffectAt(disk, j, k, more)
    ensures ValueIn(next, k, more) == ValueIn(disk, k, more)
  {
    hide EffectAt;
    var d := Decider(disk, k, more).value;
    assert d > seg;
    assert DecidedBy(next, k, more, d);
    ValueDecided(next, k, more, d);
  }

  /**
    What a key is left with when nothing above mentions it: the live value of the segment, nothing
    when a deletion is kept, and otherwise what lies below.
   */
  ghost function Leftover(s: Snapshot, seg: nat, lower: bool, k: Bytes, more: nat): Option<Bytes>
    requires seg in s.disk
  {
    if k in s.index && s.index[k].segment == seg then ValueOf(EffectIn(s.disk[seg], k, s.limit))
    else if KeepsDeletion(Records(s.disk[seg]), s.index, lower, k, more) then None
    else ValueIn(Below(s.disk, seg), k, more)
  }

  /** All a compaction needs to know: the index is right. Nothing is said about how deletions look. */
  ghost predicate Rebuilds(s: Snapshot, seg: nat, comp: Compaction, lower: bool, more: nat) {
    && IndexMatches(s.index, s.disk - s.hidden, s.limit)
    && Compacts(s, seg, comp, lower)
    && s.limit <= more
  }

  lemma RebuiltEffect(s: Snapshot, seg: nat, comp: Compaction, lower: bool, k: Bytes, more: nat)
    requires Rebuilds(s, seg, comp, lower, more)
    ensures var e := EffectIn(comp.rebuilt, k, more);
            if k in s.index && s.index[k].segment == seg then
              e.Sets? && ValueOf(e) == ValueOf(EffectIn(s.disk[seg], k, s.limit))
            else if KeepsDeletion(Records(s.disk[seg]), s.index, lower, k, more) then e.Erases?
            else e.Untouched?
  {
    var c, rs := s.disk[seg], Records(s.disk[seg]);
    assert (s.disk - s.hidden)[seg] == c;
    hide Records, IndexMatches, CompactRecs;
    IndexLiveAgree(s.index, s.disk - s.hidden, s.limit, seg);
    assert rs[..|rs|] == rs;
    RebuiltIsRight(c, rs, |rs|, s.index, seg, lower, s.limit, more, k);
    EffectInIs(c, k, s.limit);
    hide SomeLive, EffectOf, EffectIn, KeepsDeletion;
  }

  lemma OnlySegmentChanges(s: Snapshot, seg: nat, comp: Compaction, k: Bytes, more: nat)
    ensures var next := AfterCompaction(s, seg, comp).disk;
            && (forall j: nat :: j != seg ==> EffectAt(next, j, k, more) == EffectAt(s.disk, j, k, more))
            && EffectAt(next, seg, k, more) == EffectIn(comp.rebuilt, k, more)
            && Below(next, seg) == Below(s.disk, seg)
  {
    NothingSays(k, more);
    hide EffectIn;
  }

  /** The value of every key after a compaction, for a reader with any limit at least as high. */
  lemma ValueAfterCompaction(s: Snapshot, seg: nat, comp: Compaction, lower: bool, k: Bytes, more: nat)
    requires Rebuilds(s, seg, comp, lower, more)
    ensures ValueIn(AfterCompaction(s, seg, comp).disk, k, more) ==
            if MentionedAbove(s.disk, seg, k, more) then ValueIn(s.disk, k, more) else Leftover(s, seg, lower, k, more)
  {
    var next := AfterCompaction(s, seg, comp).disk;
    RebuiltEffect(s, seg, comp, lower, k, more);
    OnlySegmentChanges(s, seg, comp, k, more);
    hide AfterCompaction, EffectIn, EffectAt, KeepsDeletion, Below, IndexMatches, Compacts;
    if MentionedAbove(s.disk, seg, k, more) {
      ValueFromAbove(s.disk, next, seg, k, more);
    } else {
      assert !MentionedAbove(next, seg, k, more);
      ValueSplit(next, seg, k, more);
    }
  }

  /** The record that has the segment's last word, as far as this reader sees, fits the compacting session. */
  ghost predicate LastWordFits(s: Snapshot, seg: nat, k: Bytes, more: nat) {
    match EffectAt(s.disk, seg, k, more)
    case Untouched => true
    case Sets(_, _, length) => length <= s.limit
    case Erases => DeletionFits(k, s.limit)
  }

  /**
    When a compaction changes what a reader with a higher limit sees of a key: the segment has the
    last word on it, the record of that word is too long for the compacting session, and what the
    key is left with is something else.
   */
  ghost predicate OverlooksLastWord(s: Snapshot, seg: nat, lower: bool, k: Bytes, more: nat)
    requires seg in s.disk
  {
    && !MentionedAbove(s.disk, seg, k, more)
    && !LastWordFits(s, seg, k, more)
    && ValueOf(EffectAt(s.disk, seg, k, more)) != Leftover(s, seg, lower, k, more)
  }

  // ------------------------------------------------ the exact condition

  lemma {:induction false} TouchedAtMore(rs: seq<Rec>, k: Bytes, limit: nat, more: nat)
    requires limit <= more
    ensures EffectOf(rs, k, more).Untouched? ==> EffectOf(rs, k, limit).Untouched?
    decreases |rs|
  {
    if rs != [] {
      TouchedAtMore(rs[..|rs| - 1], k, limit, more);
    }
  }

  /** A last word that fits is the last word for the lower limit too. */
  lemma {:induction false} SameWord(rs: seq<Rec>, k: Bytes, limit: nat, more: nat)
    requires limit <= more && AsWrittenIn(rs)
    requires match EffectOf(rs, k, more)
             case Untouched => true
             case Sets(_, _, length) => length <= limit
             case Erases => DeletionFits(k, limit)
    ensures EffectOf(rs, k, limit) == EffectOf(rs, k, more)
    decreases |rs|
  {
    if rs != [] {
      hide EncodeLine;
      var init, last := rs[..|rs| - 1], rs[|rs| - 1];
      if Effect1(last, k, more).Untouched? {
        SameWord(init, k, limit, more);
      }
    }
  }

  lemma {:induction false} FirstDeletionIs(rs: seq<Rec>, k: Bytes, more: nat)
    ensures FirstDeletion(rs, k).Some? && FirstDeletion(rs, k).value <= more ==> !EffectOf(rs, k, more).Untouched?
    ensures FirstDeletion(rs, k).Some? <==> SomeTombstone(rs, k)
    ensures FirstDeletion(rs, k).Some? && AsWrittenIn(rs) ==> FirstDeletion(rs, k).value == |EncodeLine(TOMBSTONE_KEY, k)|
    ensures EffectOf(rs, k, more).Erases? ==> FirstDeletion(rs, k).Some?
    decreases |rs|
  {
    if rs != [] {
      var init, last := rs[..|rs| - 1], rs[|rs| - 1];
      FirstDeletionIs(init, k, more);
      assert rs == init + [last];
      SomeTombstoneSnoc(init, last, k);
      hide EncodeLine, SomeTombstone;
    }
  }

  lemma AboveAtMore(disk: Disk, seg: nat, k: Bytes, limit: nat, more: nat)
    requires limit <= more && !MentionedAbove(disk, seg, k, more)
    ensures !MentionedAbove(disk, seg, k, limit)
  {
    forall j: nat | j > seg
      ensures EffectAt(disk, j, k, limit).Untouched?
    {
      assert EffectAt(disk, j, k, more).Untouched?;
      if j in disk {
        TouchedAtMore(Records(disk[j]), k, limit, more);
      }
    }
  }

  /** The segment decides the key for this session, so the index says what the segment says. */
  lemma SegmentDecides(s: Snapshot, seg: nat, k: Bytes)
    requires IndexMatches(s.index, s.disk - s.hidden, s.limit) && seg in s.disk && seg !in s.hidden
    requires !MentionedAbove(s.disk, seg, k, s.limit)
    ensures EffectAt(s.disk, seg, k, s.limit).Sets? ==> k in s.index && s.index[k].segment == seg
    ensures EffectAt(s.disk, seg, k, s.limit).Erases? ==> k !in s.index
  {
    hide EffectAt;
    forall j: nat
      ensures EffectAt(s.disk - s.hidden, j, k, s.limit) == if j in s.hidden then Untouched else EffectAt(s.disk, j, k, s.limit)
    {
      EffectWithout(s.disk, s.hidden, j, k, s.limit);
    }
    assert Lookup(s.index, k) == EntryIn(s.disk - s.hidden, k, s.limit);
    if !EffectAt(s.disk, seg, k, s.limit).Untouched? {
      assert DecidedBy(s.disk - s.hidden, k, s.limit, seg);
      EntryDecided(s.disk - s.hidden, k, s.limit, seg);
    }
  }

  /** An entry of the segment is a set of the segment. */
  lemma LiveIsSet(s: Snapshot, seg: nat, k: Bytes)
    requires IndexMatches(s.index, s.disk - s.hidden, s.limit) && k in s.index && s.index[k].segment == seg
    ensures EffectAt(s.disk, seg, k, s.limit).Sets?
  {
    LiveEffect(s, seg, k);
  }

  lemma NothingBelowValue(s: Snapshot, seg: nat, k: Bytes, more: nat)
    requires NothingBelow(s, seg)
    ensures ValueIn(Below(s.disk, seg), k, more) == None
  {
    hide EffectIn, CompleteLength;
    forall j: nat
      ensures EffectAt(Below(s.disk, seg), j, k, more).Untouched?
    {
      if j < seg {
        NoCompleteLine(s.disk, j, k, more);
      }
    }
  }

  /** A last word that fits survives. */
  lemma FittingWordStays(s: Snapshot, seg: nat, comp: Compaction, lower: bool, k: Bytes, more: nat)
    requires Consistent(s) && Compacts(s, seg, comp, lower) && s.limit <= more
    requires !MentionedAbove(s.disk, seg, k, more) && LastWordFits(s, seg, k, more)
    ensures ValueIn(s.disk, k, more) == Leftover(s, seg, lower, k, more)
  {
    var rs := Records(s.disk[seg]);
    assert AsWrittenIn(rs);
    hide Records, CompactRecs, IndexMatches, Tracked, Accounted, DeletionsAsWritten, AsWrittenIn, NothingBelow, MentionedAbove, EncodeLine, EffectOf;
    SameWord(rs, k, s.limit, more);
    FirstDeletionIs(rs, k, more);
    AboveAtMore(s.disk, seg, k, s.limit, more);
    ValueSplit(s.disk, seg, k, more);
    SegmentDecides(s, seg, k);
    if k in s.index && s.index[k].segment == seg {
      LiveIsSet(s, seg, k);
    }
    if !lower {
      NothingBelowValue(s, seg, k, more);
    }
    hide FirstDeletion, ValueIn;
  }

  /**
    A compaction changes what a later session with a higher limit finds under a key if and only if
    the segment has the last word on the key, that record was too long for the compacting session,
    and what is left of the key is something else.
   */
  lemma CompactionChangesKeyIff(s: Snapshot, seg: nat, comp: Compaction, lower: bool, k: Bytes, more: nat)
    requires Consistent(s) && Compacts(s, seg, comp, lower) && s.limit <= more
    ensures ValueIn(AfterCompaction(s, seg, comp).disk, k, more) != ValueIn(s.disk, k, more)
            <==> OverlooksLastWord(s, seg, lower, k, more)
  {
    ValueAfterCompaction(s, seg, comp, lower, k, more);
    if !MentionedAbove(s.disk, seg, k, more) {
      if LastWordFits(s, seg, k, more) {
        FittingWordStays(s, seg, comp, lower, k, more);
      } else {
        hide Consistent, Compacts, AfterCompaction, Leftover, ValueIn, MentionedAbove, EffectAt;
        ValueSplit(s.disk, seg, k, more);
      }
    }
  }

  /** The whole map stays if and only if no key's last word is overlooked. */
  lemma CompactionKeepsMapIff(s: Snapshot, seg: nat, comp: Compaction, lower: bool, more: nat)
    requires Consistent(s) && Compacts(s, seg, comp, lower) && s.limit <= more
    ensures Replayed(AfterCompaction(s, seg, comp).disk, more) == Replayed(s.disk, more)
            <==> forall k :: !OverlooksLastWord(s, seg, lower, k, more)
  {
    var next := AfterCompaction(s, seg, comp).disk;
    assert seg in s.disk;
    hide Consistent, Compacts, AfterCompaction, OverlooksLastWord, Replayed, ValueIn;
    forall k
      ensures ValueIn(next, k, more) != ValueIn(s.disk, k, more) <==> OverlooksLastWord(s, seg, lower, k, more)
      ensures Lookup(Replayed(next, more), k) == ValueIn(next, k, more)
      ensures Lookup(Replayed(s.disk, more), k) == ValueIn(s.disk, k, more)
    {
      CompactionChangesKeyIff(s, seg, comp, lower, k, more);
      ReplayedAt(next, more, k);
      ReplayedAt(s.disk, more, k);
    }
    if forall k :: !OverlooksLastWord(s, seg, lower, k, more) {
      SameReplay(next, s.disk, more);
    }
  }

  /** So a session whose limit every record of the segment fits loses nothing for any other. */
  lemma CompactionKeepsAllThatFits(s: Snapshot, seg: nat, comp: Compaction, lower: bool, more: nat)
    requires Consistent(s) && Compacts(s, seg, comp, lower) && s.limit <= more
    requires AllWithin(Records(s.disk[seg]), s.limit)
    ensures Replayed(AfterCompaction(s, seg, comp).disk, more) == Replayed(s.disk, more)
  {
    CompactionKeepsMapIff(s, seg, comp, lower, more);
    forall k
      ensures !OverlooksLastWord(s, seg, lower, k, more)
    {
      AllFit(s, seg, k, more);
    }
  }

  lemma AllFit(s: Snapshot, seg: nat, k: Bytes, more: nat)
    requires seg in s.disk && DeletionsAsWritten(s.disk) && AllWithin(Records(s.disk[seg]), s.limit)
    ensures LastWordFits(s, seg, k, more)
  {
    var rs := Records(s.disk[seg]);
    assert AsWrittenIn(rs);
    hide Records;
    if !EffectOf(rs, k, more).Untouched? {
      var i := EffectWitness(rs, k, more);
    }
  }

  /**
    The same reader, and deletions that may look any way: compaction then changes a key if and only if
    the segment's last word erases it, its first deletion is too long to be read, and a lower segment
    has a value for it.
   */
  lemma ForeignCompactionChangesKeyIff(s: Snapshot, seg: nat, comp: Compaction, lower: bool, k: Bytes)
    requires IndexMatches(s.index, s.disk - s.hidden, s.limit) && Compacts(s, seg, comp, lower)
    ensures ValueIn(AfterCompaction(s, seg, comp).disk, k, s.limit) != ValueIn(s.disk, k, s.limit)
            <==> && !MentionedAbove(s.disk, seg, k, s.limit)
                 && EffectAt(s.disk, seg, k, s.limit).Erases?
                 && !FirstDeletionFits(Records(s.disk[seg]), k, s.limit)
                 && ValueIn(Below(s.disk, seg), k, s.limit).Some?
  {
    var rs := Records(s.disk[seg]);
    ValueAfterCompaction(s, seg, comp, lower, k, s.limit);
    hide Records, CompactRecs, IndexMatches, NothingBelow, EncodeLine, EffectOf, AfterCompaction;
    FirstDeletionIs(rs, k, s.limit);
    if !MentionedAbove(s.disk, seg, k, s.limit) {
      hide MentionedAbove, SomeTombstone;
      ValueSplit(s.disk, seg, k, s.limit);
      SegmentDecides(s, seg, k);
      if k in s.index && s.index[k].segment == seg {
        LiveIsSet(s, seg, k);
      }
      if !lower {
        NothingBelowValue(s, seg, k, s.limit);
      }
      hide FirstDeletion, ValueIn, Below;
    }
  }

  // ----------------------------------------------------- concrete losses

  /** A store that has loaded a directory with one segment. */
  ghost function OneSegment(c: Bytes, limit: nat): Snapshot {
    var index := IndexRecs(map[], Records(c), 0, limit);
    var live := LiveBytes(index, 0);
    Snapshot(map[0 := c], {}, {0}, index, map[0 := |c|], map[0 := if live <= |c| then |c| - live else 0], limit)
  }

  lemma OneSegmentIndex(c: Bytes, limit: nat)
    ensures var s := OneSegment(c, limit); IndexMatches(s.index, s.disk - s.hidden, limit)
    ensures forall k :: k in OneSegment(c, limit).index ==> OneSegment(c, limit).index[k].segment == 0
  {
    var none: Disk := map[];
    var nothing: Index := map[];
    assert IndexMatches(nothing, none, limit);
    ScanExtendsIndex(nothing, none, 0, c, limit);
    assert none[0 := c] == map[0 := c] && map[0 := c] - {} == map[0 := c];
    var s := OneSegment(c, limit);
    hide IndexRecs, Records, IndexMatches;
    forall k | k in s.index
      ensures s.index[k].segment == 0
    {
      var i := EntryWitness(s.index, s.disk, limit, k);
    }
  }

  lemma OneSegmentIsTracked(c: Bytes, limit: nat)
    requires CompletePrefixLength(c) == |c|
    ensures Tracked(OneSegment(c, limit))
  {
    hide IndexRecs, Records, LiveBytes;
    NothingIsComplete();
  }

  lemma OneSegmentIsAccounted(c: Bytes, limit: nat)
    requires CompletePrefixLength(c) == |c|
    ensures Accounted(OneSegment(c, limit))
  {
    var s := OneSegment(c, limit);
    OneSegmentIndex(c, limit);
    hide IndexRecs, Records, IndexMatches, CompletePrefixLength;
    LiveWithinSegment(s.index, s.disk - s.hidden, limit, 0);
    forall id: nat
      ensures Count(s.dead, id) + LiveBytes(s.index, id) == Count(s.bytes, id)
    {
      if id != 0 {
        LiveNone(s.index, id);
      }
    }
  }

  lemma OneSegmentIsOpenable(c: Bytes, limit: nat)
    requires AsWrittenIn(Records(c))
    ensures var s := OneSegment(c, limit); DeletionsAsWritten(s.disk) && IdsFit(s.disk) && s.hidden <= s.partial
  {
    hide IndexRecs, Records, LiveBytes, AsWrittenIn;
  }

  lemma OneSegmentIsConsistent(c: Bytes, limit: nat)
    requires Complete(c) && CompletePrefixLength(c) == |c| && AsWrittenIn(Records(c))
    ensures Consistent(OneSegment(c, limit))
  {
    OneSegmentIndex(c, limit);
    OneSegmentIsTracked(c, limit);
    OneSegmentIsAccounted(c, limit);
    OneSegmentIsOpenable(c, limit);
    hide OneSegment, IndexMatches, Tracked, Accounted, DeletionsAsWritten, IdsFit, AsWrittenIn, Records, CompletePrefixLength, Complete;
    assert OneSegment(c, limit).limit == limit by {
      OneSegmentLimit(c, limit);
    }
  }

  lemma OneSegmentLimit(c: Bytes, limit: nat)
    ensures OneSegment(c, limit).limit == limit
  {
    hide IndexRecs, LiveBytes;
  }

  /** A segment with a value that fits, and then a longer word on the same key. */
  function ValueThenLonger(k: Bytes, v: Bytes, longer: Op): Bytes
    requires !longer.Skip?
  {
    EncodeLine(k, v) + EncodeOp(longer)
  }

  lemma TwoLines(k: Bytes, v: Bytes, longer: Op)
    requires k != TOMBSTONE_KEY && Writable(longer)
    ensures var c, n, m := ValueThenLonger(k, v, longer), |EncodeLine(k, v)|, |EncodeOp(longer)|;
            && Complete(c) && CompletePrefixLength(c) == |c| && AsWrittenIn(Records(c))
            && Records(c) == [Rec(0, n, Put(k, v)), Rec(n, m, longer)]
  {
    var first, second := EncodeLine(k, v), EncodeOp(longer);
    DecodeInvertsEncode(Put(k, v));
    DecodeInvertsEncode(longer);
    assert longer.Del? ==> second == EncodeLine(TOMBSTONE_KEY, longer.key);
    hide Decode, Records, IsLine, EncodeLine, EncodeOp;
    LinesTogether(first, second);
  }

  lemma LinesTogether(first: Bytes, second: Bytes)
    requires IsLine(first) && IsLine(second)
    ensures var c := first + second;
            && Complete(c) && CompletePrefixLength(c) == |c|
            && Records(c) == [Rec(0, |first|, Decode(first)), Rec(|first|, |second|, Decode(second))]
  {
    hide Decode, Records;
    RecordsOfLine(first);
    CompleteLine(first);
    RecordsAppendLine(first, second);
  }

  /** What the session does with the segment: it loads it, and its compaction can go ahead. */
  lemma OlderValueIsCompacted(k: Bytes, v: Bytes, longer: Op, limit: nat)
    requires k != TOMBSTONE_KEY && Writable(longer)
    ensures var s := OneSegment(ValueThenLonger(k, v, longer), limit);
            && Consistent(s) && s.limit == limit && s.hidden == {} && s.disk.Keys == {0} && s.disk[0] == ValueThenLonger(k, v, longer)
            && AllLocated(s.disk[0], Records(s.disk[0]))
            && Compacts(s, 0, CompactRecs(s.disk[0], Records(s.disk[0]), s.index, 0, false), false)
  {
    var c := ValueThenLonger(k, v, longer);
    var s := OneSegment(c, limit);
    TwoLines(k, v, longer);
    OneSegmentIsConsistent(c, limit);
    RecordsCoverCompletePrefix(c);
    assert NothingBelow(s, 0);
    hide Records, CompactRecs, Consistent, Complete, CompletePrefixLength, AsWrittenIn, IndexRecs, LiveBytes, ValueThenLonger;
  }

  /**
    A session that cannot read a key's last word, be it a deletion or a newer value, keeps the older
    value and drops the last word: a later session finds a deleted key again, or a stale value.
   */
  lemma OlderValueComesBack(k: Bytes, v: Bytes, longer: Op, limit: nat, more: nat)
    requires k != TOMBSTONE_KEY && Writable(longer) && longer.key == k
    requires |EncodeLine(k, v)| <= limit < |EncodeOp(longer)| <= more
    ensures var s := OneSegment(ValueThenLonger(k, v, longer), limit);
            && Consistent(s) && AllLocated(s.disk[0], Records(s.disk[0]))
            && var comp := CompactRecs(s.disk[0], Records(s.disk[0]), s.index, 0, false);
               && Compacts(s, 0, comp, false)
               && Lookup(Replayed(s.disk, more), k) == WrittenValue(longer)
               && Lookup(Replayed(AfterCompaction(s, 0, comp).disk, more), k) == Some(v)
  {
    var c := ValueThenLonger(k, v, longer);
    var s := OneSegment(c, limit);
    TwoLines(k, v, longer);
    OlderValueIsCompacted(k, v, longer, limit);
    TwoWords(c, k, v, longer, limit, more);
    var comp := CompactRecs(c, Records(c), s.index, 0, false);
    hide OneSegment, Consistent, Compacts, Records, CompactRecs, ValueThenLonger, AfterCompaction, Replayed, EncodeLine, EncodeOp, Chained,
         EffectIn, Complete, CompletePrefixLength, AllLocated, AsWrittenIn;
    ConsistentIndex(s);
    OlderValueIsLeft(s, comp, k, v, more);
    OnlySegmentDecides(s.disk, k, more);
    ReplayedAt(s.disk, more, k);
    ReplayedAt(AfterCompaction(s, 0, comp).disk, more, k);
  }

  lemma OlderValueIsLeft(s: Snapshot, comp: Compaction, k: Bytes, v: Bytes, more: nat)
    requires IndexMatches(s.index, s.disk - s.hidden, s.limit) && Compacts(s, 0, comp, false) && s.limit <= more
    requires s.disk.Keys == {0} && s.hidden == {} && ValueOf(EffectAt(s.disk, 0, k, s.limit)) == Some(v) && !EffectAt(s.disk, 0, k, more).Untouched?
    ensures ValueIn(AfterCompaction(s, 0, comp).disk, k, more) == Some(v)
  {
    hide IndexMatches, Compacts, AfterCompaction, Records, EffectIn;
    assert Rebuilds(s, 0, comp, false, more);
    ValueAfterCompaction(s, 0, comp, false, k, more);
    OnlySegmentDecides(s.disk, k, more);
    AboveAtMore(s.disk, 0, k, s.limit, more);
    SegmentDecides(s, 0, k);
  }

  lemma ConsistentIndex(s: Snapshot)
    requires Consistent(s)
    ensures IndexMatches(s.index, s.disk - s.hidden, s.limit)
  {
  }

  /** With one segment there is nothing above and nothing below it. */
  lemma OnlySegmentDecides(disk: Disk, k: Bytes, more: nat)
    requires disk.Keys == {0} && !EffectAt(disk, 0, k, more).Untouched?
    ensures !MentionedAbove(disk, 0, k, more) && ValueIn(disk, k, more) == ValueOf(EffectAt(disk, 0, k, more))
  {
    hide EffectIn;
    assert !MentionedAbove(disk, 0, k, more);
    ValueSplit(disk, 0, k, more);
  }

  lemma TwoWords(c: Bytes, k: Bytes, v: Bytes, longer: Op, limit: nat, more: nat)
    requires Writable(longer) && longer.key == k && |EncodeLine(k, v)| <= limit < |EncodeOp(longer)| <= more
    requires Records(c) == [Rec(0, |EncodeLine(k, v)|, Put(k, v)), Rec(|EncodeLine(k, v)|, |EncodeOp(longer)|, longer)]
    ensures EffectIn(c, k, limit) == Sets(v, 0, |EncodeLine(k, v)|)
    ensures !EffectIn(c, k, more).Untouched? && ValueOf(EffectIn(c, k, more)) == WrittenValue(longer)
  {
    hide EncodeLine, EncodeOp, Records;
    var r1, r2 := Rec(0, |EncodeLine(k, v)|, Put(k, v)), Rec(|EncodeLine(k, v)|, |EncodeOp(longer)|, longer);
    assert [r1, r2] == [r1] + [r2] && [r1] == [] + [r1];
    EffectSnoc([], r1, k, limit);
    EffectSnoc([r1], r2, k, limit);
    EffectSnoc([r1], r2, k, more);
  }

  /** In particular a deleted key: the empty key with the empty value, and a limit its deletion exceeds. */
  lemma DeletedKeyComesBack()
    ensures |EncodeLine([], [])| == 2 && |EncodeLine(TOMBSTONE_KEY, [])| == 6
    ensures var s := OneSegment(ValueThenLonger([], [], Del([])), 5);
            && Consistent(s) && AllLocated(s.disk[0], Records(s.disk[0]))
            && var comp := CompactRecs(s.disk[0], Records(s.disk[0]), s.index, 0, false);
               && Compacts(s, 0, comp, false)
               && [] !in Replayed(s.disk, 6) && [] in Replayed(AfterCompaction(s, 0, comp).disk, 6)
  {
    TombstoneKeyEscapes();
    assert |EncodeLine([], [])| == 2 && |EncodeLine(TOMBSTONE_KEY, [])| == 6;
    hide OneSegment, ValueThenLonger, Consistent, Compacts, Replayed, AfterCompaction, CompactRecs, EncodeLine, Escape;
    OlderValueComesBack([], [], Del([]), 5, 6);
  }

  lemma TombstoneKeyEscapes()
    ensures Escape(TOMBSTONE_KEY) == TOMBSTONE_KEY
  {
    assert TOMBSTONE_KEY[1..] == [68, 69, 76];
    assert TOMBSTONE_KEY[1..][1..] == [69, 76];
    assert TOMBSTONE_KEY[1..][1..][1..] == [76];
    assert TOMBSTONE_KEY[1..][1..][1..][1..] == [];
  }

  /**
    A session with a lower limit cannot see a longer value, and compacting the segment drops it: a
    later session with a higher limit, which could read it before, finds nothing.
   */
  lemma CompactionLosesLongerValues(key: Bytes, value: Bytes, index: Index, segment: nat, lower: bool, limit: nat, more: nat)
    requires key != TOMBSTONE_KEY
    requires limit < |EncodeLine(key, value)| <= more
    requires forall k :: k in index ==> index[k].length <= limit
    ensures var c := EncodeLine(key, value);
            && EffectIn(c, key, more) == Sets(value, 0, |c|)
            && AllLocated(c, Records(c))
            && CompactRecs(c, Records(c), index, segment, lower).rebuilt == []
            && EffectIn([], key, more) == Untouched
  {
    hide EncodeLine;
    var c := EncodeLine(key, value);
    EncodedLineShape(key, value);
    DecodeInvertsEncodeLine(key, value);
    RecordsOfLine(c);
    RecordsOfTail([]);
    var r := Rec(0, |c|, Put(key, value));
    assert Records(c)[..0] == [];
    assert c[0..|c|] == c;
  }

  /** A key that its deletion can spell in two ways: escaped, as the store writes it, or not. */
  const LOOSE_KEY: Bytes := [RETURN]
  const ESCAPED_DELETION: Bytes := TOMBSTONE_KEY + [TAB, BACKSLASH, LETTER_R, NEWLINE]
  const RAW_DELETION: Bytes := TOMBSTONE_KEY + [TAB, RETURN, NEWLINE]

  lemma BothAreDeletions()
    ensures IsLine(ESCAPED_DELETION) && Decode(ESCAPED_DELETION) == Del(LOOSE_KEY)
    ensures IsLine(RAW_DELETION) && Decode(RAW_DELETION) == Del(LOOSE_KEY)
  {
    EscapedIsDeletion();
    RawIsDeletion();
  }

  lemma TombstoneKeyIsPlain()
    ensures Unescape(TOMBSTONE_KEY) == Some(TOMBSTONE_KEY)
  {
    UnescapeInvertsEscape(TOMBSTONE_KEY);
    TombstoneKeyEscapes();
  }

  lemma EscapedIsDeletion()
    ensures IsLine(ESCAPED_DELETION) && Decode(ESCAPED_DELETION) == Del(LOOSE_KEY)
  {
    var line := ESCAPED_DELETION;
    FindIs(line, TAB, 0, 4);
    FindIs(line, NEWLINE, 0, 7);
    TombstoneKeyIsPlain();
    assert line[..4] == TOMBSTONE_KEY;
    assert line[5..7] == [BACKSLASH, LETTER_R];
    UnescapeInvertsEscape(LOOSE_KEY);
    assert LOOSE_KEY[1..] == [];
    assert Escape(LOOSE_KEY) == [BACKSLASH, LETTER_R];
  }

  lemma RawIsDeletion()
    ensures IsLine(RAW_DELETION) && Decode(RAW_DELETION) == Del(LOOSE_KEY)
  {
    var line := RAW_DELETION;
    FindIs(line, TAB, 0, 4);
    FindIs(line, NEWLINE, 0, 6);
    TombstoneKeyIsPlain();
    assert line[..4] == TOMBSTONE_KEY;
    assert line[5..6] == [RETURN];
    var rest: Bytes := [];
    assert [RETURN] == [RETURN] + rest;
    assert LOOSE_KEY[1..] == rest && Unescape(rest) == Some(rest);
    assert Unescape(LOOSE_KEY) == Some([RETURN] + rest);
  }

  /**
    Why deletions must look as the store writes them. A segment that holds a deletion longer than
    the limit and then, spelt differently, a short one of the same key erases the key. Compaction
    keeps the first deletion only, and the rewritten segment no longer erases it.
   */
  lemma ForeignDeletionIsLost(segment: nat)
    ensures var c := ESCAPED_DELETION + RAW_DELETION;
            var limit := |RAW_DELETION|;
            && EffectIn(c, LOOSE_KEY, limit) == Erases
            && AllLocated(c, Records(c)) && !AsWrittenIn(Records(c))
            && EffectIn(CompactRecs(c, Records(c), map[], segment, true).rebuilt, LOOSE_KEY, limit) == Untouched
  {
    var first, second := ESCAPED_DELETION, RAW_DELETION;
    var n, m := |first|, |second|;
    assert n == 8 && m == 7;
    BothAreDeletions();
    CompactTwoDeletions(first, second, LOOSE_KEY, segment);
  }

  lemma CompactTwoDeletions(first: Bytes, second: Bytes, k: Bytes, segment: nat)
    requires IsLine(first) && Decode(first) == Del(k) && IsLine(second) && Decode(second) == Del(k)
    requires |first| > |second|
    ensures var c := first + second;
            && EffectIn(c, k, |second|) == Erases
            && AllLocated(c, Records(c)) && !AsWrittenIn(Records(c))
            && EffectIn(CompactRecs(c, Records(c), map[], segment, true).rebuilt, k, |second|) == Untouched
  {
    hide Decode, Records, IsLine, EncodeLine;
    var c, n, m := first + second, |first|, |second|;
    var r1, r2 := Rec(0, n, Del(k)), Rec(n, m, Del(k));
    RecordsOfLine(first);
    CompleteLine(first);
    RecordsAppendLine(first, second);
    RecordsCoverCompletePrefix(c);
    assert Records(c) == [r1] + [r2];
    FirstLocated(c, r1, r2);
    assert c[0..n] == first && c[n..n + m] == second;
    EffectSnoc([r1], r2, k, m);
    EffectSnoc([], r1, k, m);
    assert !AsWrittenIn(Records(c)) by {
      assert Records(c)[0] == r1 && Records(c)[1] == r2;
    }
    var rs := Records(c);
    assert rs[..1] == [r1] && [r1][..0] == [];
    assert CompactRecs(c, [r1], map[], segment, true).rebuilt == first;
    assert CompactRecs(c, rs, map[], segment, true).rebuilt == first;
  }

  lemma FirstLocated(c: Bytes, r1: Rec, r2: Rec)
    requires AllLocated(c, [r1] + [r2])
    ensures AllLocated(c, [r1])
  {
    assert ([r1] + [r2])[0] == r1;
  }

  lemma CompleteLine(line: Bytes)
    requires IsLine(line)
    ensures Complete(line)
  {
  }
}
