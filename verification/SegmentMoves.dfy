/**
  What a compaction does for a later session with a higher record limit, however it ends: installed in
  place, moved up into the active segment, or stopped in between. Deletions move only when no segment
  above has been read partially (cpp/core/JsonlSegmentStore.cpp:515-518); this is where that counts.
 */
module SegmentMoves {
  import opened Wrappers
  import opened SegmentCodec
  import opened Replay
  import opened SegmentIndex
  import opened SegmentCompaction
  import opened SegmentInvariant
  import opened SegmentLimits

  /** The copy of the deletions has the last word on their keys, and changes nothing else. */
  lemma MergedAtMore(s: Snapshot, seg: nat, a: nat, comp: Compaction, j: nat, k: Bytes, more: nat)
    requires Consistent(s) && Movable(s, seg, a, comp) && s.limit <= more
    ensures EffectAt(AfterMerge(s, a, comp.rebuilt).disk, j, k, more) ==
            if j == a && KeepsDeletion(Records(s.disk[seg]), s.index, true, k, more) then Erases else EffectAt(s.disk, j, k, more)
  {
    if j == a {
      AppendableIsComplete(s, a);
      assert Rebuilds(s, seg, comp, true, more);
      RebuiltEffect(s, seg, comp, true, k, more);
      hide Records, CompactRecs, IndexMatches, Tracked, Accounted, Marked, Rebuilds, Compacts, KeepsDeletion, DeletionsAsWritten;
      AppendedSays(Content(s.disk, a), comp.rebuilt, k, more);
      NothingSays(k, more);
    }
  }

  lemma AppendedSays(c: Bytes, rest: Bytes, k: Bytes, more: nat)
    requires Complete(c)
    ensures EffectIn(c + rest, k, more) == Over(MoveEffect(EffectIn(rest, k, more), |c|), EffectIn(c, k, more))
  {
    hide Records, Complete;
    RecordsConcat(c, rest);
    EffectConcat(Records(c), Shift(Records(rest), |c|), k, more);
    EffectShift(Records(rest), |c|, k, more);
    EffectInIs(rest, k, more);
    EffectInIs(c, k, more);
    EffectInIs(c + rest, k, more);
  }

  /** A set that this session could read, with the last word at the higher limit, has it at the lower one. */
  lemma FittingSetDecides(s: Snapshot, d: nat, k: Bytes, more: nat)
    requires Consistent(s) && s.limit <= more && DecidedBy(s.disk, k, more, d) && EffectAt(s.disk, d, k, more).Sets?
    requires d !in s.partial
    ensures k in s.index
  {
    var rs := Records(s.disk[d]);
    assert AsWrittenIn(rs) && SetsFit(rs, s.limit);
    hide Records, Tracked, Accounted, DeletionsAsWritten, Marked, IndexMatches, AsWrittenIn;
    var i := EffectWitness(rs, k, more);
    SameWord(rs, k, s.limit, more);
    forall j: nat
      ensures j > d ==> EffectAt(s.disk - s.hidden, j, k, s.limit).Untouched?
      ensures EffectAt(s.disk - s.hidden, d, k, s.limit) == EffectAt(s.disk, d, k, s.limit)
    {
      EffectWithout(s.disk, s.hidden, j, k, s.limit);
      EffectWithout(s.disk, s.hidden, d, k, s.limit);
      if j > d && j in s.disk {
        assert EffectAt(s.disk, j, k, more).Untouched?;
        TouchedAtMore(Records(s.disk[j]), k, s.limit, more);
      }
    }
    SetIsIndexed(s, d, k);
  }

  lemma SetIsIndexed(s: Snapshot, d: nat, k: Bytes)
    requires IndexMatches(s.index, s.disk - s.hidden, s.limit)
    requires EffectAt(s.disk - s.hidden, d, k, s.limit).Sets?
    requires forall j: nat :: j > d ==> EffectAt(s.disk - s.hidden, j, k, s.limit).Untouched?
    ensures k in s.index
  {
    hide EffectAt;
    assert DecidedBy(s.disk - s.hidden, k, s.limit, d);
    EntryDecided(s.disk - s.hidden, k, s.limit, d);
    assert Lookup(s.index, k) == EntryIn(s.disk - s.hidden, k, s.limit);
  }

  /**
    What the guard on partially read segments is for: a key whose deletion moves has no value for this
    reader either, if a segment above has a word on it.
   */
  lemma ErasedFromAbove(s: Snapshot, seg: nat, a: nat, comp: Compaction, k: Bytes, more: nat)
    requires Consistent(s) && Moves(s, seg, a, comp) && s.limit <= more
    requires KeepsDeletion(Records(s.disk[seg]), s.index, true, k, more) && MentionedAbove(s.disk, seg, k, more)
    ensures ValueIn(s.disk, k, more) == None
  {
    hide EffectIn, Records;
    var d := Decider(s.disk, k, more).value;
    assert d > seg && DecidedBy(s.disk, k, more, d);
    if EffectAt(s.disk, d, k, more).Sets? {
      hide Consistent, EffectAt, Compacts;
      FittingSetDecides(s, d, k, more);
      assert false;
    }
  }

  lemma ErasedByHighest(disk: Disk, a: nat, k: Bytes, more: nat)
    requires EffectAt(disk, a, k, more).Erases? && forall id :: id in disk ==> id <= a
    ensures ValueIn(disk, k, more) == None && Decider(disk, k, more) == Some(a)
  {
    hide EffectIn;
    assert DecidedBy(disk, k, more, a);
    ValueDecided(disk, k, more, a);
    DeciderIs(disk, k, more, a);
  }

  /** The deletion that is kept is a word of the segment on its key. */
  lemma KeptDeletionSpeaks(s: Snapshot, seg: nat, lower: bool, k: Bytes, more: nat)
    requires seg in s.disk && KeepsDeletion(Records(s.disk[seg]), s.index, lower, k, more)
    ensures !EffectAt(s.disk, seg, k, more).Untouched?
  {
    hide Records;
    FirstDeletionIs(Records(s.disk[seg]), k, more);
  }

  /** A segment that says nothing about a key says nothing when it has been rebuilt. */
  lemma RebuiltStaysSilent(s: Snapshot, seg: nat, comp: Compaction, lower: bool, k: Bytes, more: nat)
    requires Rebuilds(s, seg, comp, lower, more) && EffectAt(s.disk, seg, k, more).Untouched?
    ensures EffectIn(comp.rebuilt, k, more).Untouched?
  {
    RebuiltEffect(s, seg, comp, lower, k, more);
    if k in s.index && s.index[k].segment == seg {
      LiveIsSet(s, seg, k);
      TouchedAtMore(Records(s.disk[seg]), k, s.limit, more);
    } else if KeepsDeletion(Records(s.disk[seg]), s.index, lower, k, more) {
      KeptDeletionSpeaks(s, seg, lower, k, more);
    }
  }

  /** What a compaction can have done to one key, for a reader with the limit `more`. */
  ghost predicate KeyOutcome(s: Snapshot, seg: nat, a: nat, after: Disk, k: Bytes, more: nat)
    requires seg in s.disk
  {
    && (ValueIn(after, k, more) == ValueIn(s.disk, k, more)
        || (OverlooksLastWord(s, seg, true, k, more) && ValueIn(after, k, more) == Leftover(s, seg, true, k, more)))
    && DeciderStays(s.disk, seg, a, after, k, more)
  }

  /** The segment with the last word stays the same, unless it is the compacted one, or a deletion moves to `a`. */
  ghost predicate DeciderStays(disk: Disk, seg: nat, a: nat, after: Disk, k: Bytes, more: nat) {
    var d := Decider(disk, k, more);
    d == Some(seg) || Decider(after, k, more) == d || (d.Some? && seg != a && Decider(after, k, more) == Some(a))
  }

  /** At most what this session could not read of the segment's last words is lost to later sessions. */
  ghost predicate OverlooksAtMost(s: Snapshot, seg: nat, a: nat, after: Disk)
    requires seg in s.disk
  {
    forall k, more: nat :: s.limit <= more ==> KeyOutcome(s, seg, a, after, k, more)
  }

  /** And exactly that. */
  ghost predicate Overlooks(s: Snapshot, seg: nat, after: Disk)
    requires seg in s.disk
  {
    forall k, more: nat :: s.limit <= more ==>
      ValueIn(after, k, more) ==
      if OverlooksLastWord(s, seg, true, k, more) then Leftover(s, seg, true, k, more) else ValueIn(s.disk, k, more)
  }

  /** Without anything below, keeping deletions or not makes no difference. */
  lemma LowerDoesNotMatter(s: Snapshot, seg: nat, comp: Compaction, lower: bool, k: Bytes, more: nat)
    requires Compacts(s, seg, comp, lower)
    ensures Leftover(s, seg, lower, k, more) == Leftover(s, seg, true, k, more)
    ensures OverlooksLastWord(s, seg, lower, k, more) <==> OverlooksLastWord(s, seg, true, k, more)
  {
    hide ValueIn, EffectIn, Records, CompactRecs;
    if !lower {
      NothingBelowValue(s, seg, k, more);
    }
  }

  /** The install in place. */
  lemma InstallOutcome(s: Snapshot, seg: nat, comp: Compaction, lower: bool, a: nat, k: Bytes, more: nat)
    requires Consistent(s) && Compacts(s, seg, comp, lower) && s.limit <= more
    ensures var after := AfterCompaction(s, seg, comp).disk;
            && KeyOutcome(s, seg, a, after, k, more)
            && ValueIn(after, k, more) ==
               if OverlooksLastWord(s, seg, true, k, more) then Leftover(s, seg, true, k, more) else ValueIn(s.disk, k, more)
  {
    CompactionChangesKeyIff(s, seg, comp, lower, k, more);
    assert Rebuilds(s, seg, comp, lower, more);
    ValueAfterCompaction(s, seg, comp, lower, k, more);
    LowerDoesNotMatter(s, seg, comp, lower, k, more);
    InstallKeepsDecider(s, seg, comp, lower, k, more);
    hide Consistent, Compacts, AfterCompaction, Leftover, ValueIn, Rebuilds;
  }

  lemma InstallKeepsDecider(s: Snapshot, seg: nat, comp: Compaction, lower: bool, k: Bytes, more: nat)
    requires Rebuilds(s, seg, comp, lower, more)
    ensures Decider(s.disk, k, more) != Some(seg) ==> Decider(AfterCompaction(s, seg, comp).disk, k, more) == Decider(s.disk, k, more)
  {
    var next := AfterCompaction(s, seg, comp).disk;
    OnlySegmentChanges(s, seg, comp, k, more);
    if EffectAt(s.disk, seg, k, more).Untouched? {
      RebuiltStaysSilent(s, seg, comp, lower, k, more);
    }
    hide Rebuilds, EffectAt, EffectIn, AfterCompaction;
    var d := Decider(s.disk, k, more);
    if d.Some? && d.value != seg {
      SameDecider(s.disk, next, seg, k, more, d.value);
    } else if d.None? {
      assert EffectAt(s.disk, seg, k, more).Untouched?;
      assert forall j: nat :: EffectAt(next, j, k, more).Untouched?;
    }
  }

  lemma SameDecider(disk: Disk, next: Disk, seg: nat, k: Bytes, more: nat, d: nat)
    requires DecidedBy(disk, k, more, d) && d != seg
    requires forall j: nat :: j != seg ==> EffectAt(next, j, k, more) == EffectAt(disk, j, k, more)
    requires EffectAt(disk, seg, k, more).Untouched? ==> EffectAt(next, seg, k, more).Untouched?
    ensures Decider(next, k, more) == Some(d)
  {
    hide EffectAt;
    assert DecidedBy(next, k, more, d);
    DeciderIs(next, k, more, d);
  }

  /** The copy alone: a key whose deletion moves is erased, and no other key changes. */
  lemma CopyOutcome(s: Snapshot, seg: nat, a: nat, comp: Compaction, k: Bytes, more: nat)
    requires Consistent(s) && Moves(s, seg, a, comp) && s.limit <= more
    ensures var after := AfterMerge(s, a, comp.rebuilt).disk;
            && KeyOutcome(s, seg, a, after, k, more)
            && (ValueIn(after, k, more) != ValueIn(s.disk, k, more) <==>
                  KeepsDeletion(Records(s.disk[seg]), s.index, true, k, more) && OverlooksLastWord(s, seg, true, k, more))
  {
    var after := AfterMerge(s, a, comp.rebuilt).disk;
    var kept := KeepsDeletion(Records(s.disk[seg]), s.index, true, k, more);
    assert forall id :: id in after ==> id <= a;
    forall j: nat
      ensures EffectAt(after, j, k, more) == if j == a && kept then Erases else EffectAt(s.disk, j, k, more)
    {
      MergedAtMore(s, seg, a, comp, j, k, more);
    }
    if kept {
      ErasedByHighest(after, a, k, more);
      KeptKeyOutcome(s, seg, a, comp, k, more);
    } else {
      hide EffectAt, Consistent, Moves, AfterMerge, Leftover, OverlooksLastWord, KeepsDeletion;
      DeciderSame(after, s.disk, k, more);
    }
  }

  /** What a key loses whose deletion moves: nothing, or an overlooked last word of the segment. */
  lemma KeptKeyOutcome(s: Snapshot, seg: nat, a: nat, comp: Compaction, k: Bytes, more: nat)
    requires Consistent(s) && Moves(s, seg, a, comp) && s.limit <= more
    requires KeepsDeletion(Records(s.disk[seg]), s.index, true, k, more)
    ensures ValueIn(s.disk, k, more).Some? <==> OverlooksLastWord(s, seg, true, k, more)
    ensures Leftover(s, seg, true, k, more) == None
    ensures Decider(s.disk, k, more).Some?
    ensures ValueIn(AfterCompaction(s, seg, comp).disk, k, more) == None
  {
    KeptDeletionSpeaks(s, seg, true, k, more);
    assert Rebuilds(s, seg, comp, true, more);
    ValueAfterCompaction(s, seg, comp, true, k, more);
    hide Records, AfterCompaction, EffectIn, Rebuilds;
    if MentionedAbove(s.disk, seg, k, more) {
      ErasedFromAbove(s, seg, a, comp, k, more);
    } else {
      ValueSplit(s.disk, seg, k, more);
      if LastWordFits(s, seg, k, more) {
        FittingWordStays(s, seg, comp, true, k, more);
      }
    }
  }

  /**
    Without the guard: a move differs from an install in place, for this reader, exactly on the keys
    whose deletion moves past a value that this session could not read.
   */
  lemma UnguardedMoveDiffersIff(s: Snapshot, seg: nat, a: nat, comp: Compaction, k: Bytes, more: nat)
    requires Consistent(s) && Movable(s, seg, a, comp) && s.limit <= more
    ensures ValueIn(AfterMove(s, seg, a, comp.rebuilt).disk, k, more) != ValueIn(AfterCompaction(s, seg, comp).disk, k, more)
            <==> && KeepsDeletion(Records(s.disk[seg]), s.index, true, k, more)
                 && MentionedAbove(s.disk, seg, k, more) && ValueIn(s.disk, k, more).Some?
  {
    var moved, installed := AfterMove(s, seg, a, comp.rebuilt).disk, AfterCompaction(s, seg, comp).disk;
    MovedEffects(s, seg, a, comp, k, more);
    assert Rebuilds(s, seg, comp, true, more);
    if KeepsDeletion(Records(s.disk[seg]), s.index, true, k, more) {
      ErasedByHighest(moved, a, k, more);
      ValueAfterCompaction(s, seg, comp, true, k, more);
    } else {
      hide EffectAt, EffectIn, Consistent, Movable, AfterMove, AfterCompaction, Rebuilds, KeepsDeletion;
      DeciderSame(moved, installed, k, more);
    }
  }

  /** The whole move, and a copy whose source is rewritten instead of removed, end as the install in place does. */
  lemma MoveEndsLikeInstall(s: Snapshot, seg: nat, a: nat, comp: Compaction, k: Bytes, more: nat)
    requires Consistent(s) && Moves(s, seg, a, comp) && s.limit <= more
    ensures var installed := AfterCompaction(s, seg, comp).disk;
            var merged := AfterMerge(s, a, comp.rebuilt);
            && ValueIn(AfterMove(s, seg, a, comp.rebuilt).disk, k, more) == ValueIn(installed, k, more)
            && ValueIn(AfterCompaction(merged, seg, comp).disk, k, more) == ValueIn(installed, k, more)
            && DeciderStays(s.disk, seg, a, AfterMove(s, seg, a, comp.rebuilt).disk, k, more)
            && DeciderStays(s.disk, seg, a, AfterCompaction(merged, seg, comp).disk, k, more)
  {
    var merged := AfterMerge(s, a, comp.rebuilt);
    var moved, rewritten := AfterMove(s, seg, a, comp.rebuilt).disk, AfterCompaction(merged, seg, comp).disk;
    var kept := KeepsDeletion(Records(s.disk[seg]), s.index, true, k, more);
    MovedEffects(s, seg, a, comp, k, more);
    if kept {
      KeptKeyOutcome(s, seg, a, comp, k, more);
      ErasedByHighest(moved, a, k, more);
      ErasedByHighest(rewritten, a, k, more);
    } else {
      assert Rebuilds(s, seg, comp, true, more);
      InstallKeepsDecider(s, seg, comp, true, k, more);
      var installed := AfterCompaction(s, seg, comp).disk;
      hide EffectAt, EffectIn, Consistent, Moves, AfterMerge, AfterMove, AfterCompaction, Rebuilds, KeepsDeletion;
      DeciderSame(moved, installed, k, more);
      DeciderSame(rewritten, installed, k, more);
    }
  }

  lemma MovedEffects(s: Snapshot, seg: nat, a: nat, comp: Compaction, k: Bytes, more: nat)
    requires Consistent(s) && Movable(s, seg, a, comp) && s.limit <= more
    ensures var kept := KeepsDeletion(Records(s.disk[seg]), s.index, true, k, more);
            var installed := AfterCompaction(s, seg, comp).disk;
            var moved := AfterMove(s, seg, a, comp.rebuilt).disk;
            var rewritten := AfterCompaction(AfterMerge(s, a, comp.rebuilt), seg, comp).disk;
            && (forall id :: id in moved || id in rewritten ==> id <= a)
            && (kept ==> EffectAt(moved, a, k, more).Erases? && EffectAt(rewritten, a, k, more).Erases?)
            && (!kept ==> forall j: nat :: EffectAt(moved, j, k, more) == EffectAt(installed, j, k, more)
                                           && EffectAt(rewritten, j, k, more) == EffectAt(installed, j, k, more))
  {
    var kept := KeepsDeletion(Records(s.disk[seg]), s.index, true, k, more);
    var merged := AfterMerge(s, a, comp.rebuilt);
    var moved := AfterMove(s, seg, a, comp.rebuilt).disk;
    assert Rebuilds(s, seg, comp, true, more);
    RebuiltEffect(s, seg, comp, true, k, more);
    OnlySegmentChanges(s, seg, comp, k, more);
    OnlySegmentChanges(merged, seg, comp, k, more);
    forall j: nat
      ensures EffectAt(merged.disk, j, k, more) == if j == a && kept then Erases else EffectAt(s.disk, j, k, more)
      ensures EffectAt(moved, j, k, more) == if j == seg then Untouched else EffectAt(merged.disk, j, k, more)
    {
      MergedAtMore(s, seg, a, comp, j, k, more);
      EffectWithout(merged.disk, {seg}, j, k, more);
    }
    MoveStaysBelow(s, seg, a, comp);
    hide EffectAt, EffectIn, Consistent, Compacts, AfterMerge, AfterMove, AfterCompaction, Rebuilds, KeepsDeletion, Appendable;
  }

  lemma MoveStaysBelow(s: Snapshot, seg: nat, a: nat, comp: Compaction)
    requires Movable(s, seg, a, comp)
    ensures forall id :: id in AfterMove(s, seg, a, comp.rebuilt).disk ==> id <= a
    ensures forall id :: id in AfterCompaction(AfterMerge(s, a, comp.rebuilt), seg, comp).disk ==> id <= a
  {
    hide Compacts;
  }

  /** Moving a segment's deletions changes what a later session finds under a key exactly when an install in place would. */
  lemma MoveChangesKeyIff(s: Snapshot, seg: nat, a: nat, comp: Compaction, k: Bytes, more: nat)
    requires Consistent(s) && Moves(s, seg, a, comp) && s.limit <= more
    ensures ValueIn(AfterMove(s, seg, a, comp.rebuilt).disk, k, more) != ValueIn(s.disk, k, more)
            <==> OverlooksLastWord(s, seg, true, k, more)
    ensures ValueIn(AfterCompaction(AfterMerge(s, a, comp.rebuilt), seg, comp).disk, k, more) != ValueIn(s.disk, k, more)
            <==> OverlooksLastWord(s, seg, true, k, more)
    ensures ValueIn(AfterMerge(s, a, comp.rebuilt).disk, k, more) != ValueIn(s.disk, k, more)
            <==> KeepsDeletion(Records(s.disk[seg]), s.index, true, k, more) && OverlooksLastWord(s, seg, true, k, more)
  {
    MoveEndsLikeInstall(s, seg, a, comp, k, more);
    CopyOutcome(s, seg, a, comp, k, more);
    CompactionChangesKeyIff(s, seg, comp, true, k, more);
  }

  /** The whole map stays if and only if no key's last word is overlooked. */
  lemma MoveKeepsMapIff(s: Snapshot, seg: nat, a: nat, comp: Compaction, more: nat)
    requires Consistent(s) && Moves(s, seg, a, comp) && s.limit <= more
    ensures Replayed(AfterMove(s, seg, a, comp.rebuilt).disk, more) == Replayed(s.disk, more)
            <==> forall k :: !OverlooksLastWord(s, seg, true, k, more)
  {
    var moved, installed := AfterMove(s, seg, a, comp.rebuilt).disk, AfterCompaction(s, seg, comp).disk;
    CompactionKeepsMapIff(s, seg, comp, true, more);
    hide Replayed, ValueIn, OverlooksLastWord;
    forall k
      ensures ValueIn(moved, k, more) == ValueIn(installed, k, more)
    {
      MoveEndsLikeInstall(s, seg, a, comp, k, more);
    }
    SameReplay(moved, installed, more);
  }

  /** However a compaction ends, and wherever it stops, at most overlooked last words are lost. */
  lemma CompactionOutcomes(s: Snapshot, seg: nat, comp: Compaction, lower: bool, a: nat)
    requires Consistent(s) && Compacts(s, seg, comp, lower)
    ensures OverlooksAtMost(s, seg, a, s.disk)
    ensures OverlooksAtMost(s, seg, a, AfterCompaction(s, seg, comp).disk) && Overlooks(s, seg, AfterCompaction(s, seg, comp).disk)
  {
    assert seg in s.disk;
    hide Consistent, Compacts, KeyOutcome, AfterCompaction, OverlooksLastWord, Leftover, ValueIn;
    forall k, more: nat | s.limit <= more
      ensures KeyOutcome(s, seg, a, s.disk, k, more)
      ensures KeyOutcome(s, seg, a, AfterCompaction(s, seg, comp).disk, k, more)
      ensures ValueIn(AfterCompaction(s, seg, comp).disk, k, more) ==
              if OverlooksLastWord(s, seg, true, k, more) then Leftover(s, seg, true, k, more) else ValueIn(s.disk, k, more)
    {
      NothingHappened(s, seg, a, k, more);
      InstallOutcome(s, seg, comp, lower, a, k, more);
    }
  }

  lemma NothingHappened(s: Snapshot, seg: nat, a: nat, k: Bytes, more: nat)
    requires seg in s.disk
    ensures KeyOutcome(s, seg, a, s.disk, k, more)
  {
  }

  lemma MoveOutcomes(s: Snapshot, seg: nat, a: nat, comp: Compaction)
    requires Consistent(s) && Moves(s, seg, a, comp)
    ensures OverlooksAtMost(s, seg, a, AfterMerge(s, a, comp.rebuilt).disk)
    ensures var moved := AfterMove(s, seg, a, comp.rebuilt).disk; OverlooksAtMost(s, seg, a, moved) && Overlooks(s, seg, moved)
    ensures var rewritten := AfterCompaction(AfterMerge(s, a, comp.rebuilt), seg, comp).disk;
            OverlooksAtMost(s, seg, a, rewritten) && Overlooks(s, seg, rewritten)
  {
    assert Compacts(s, seg, comp, true) && seg in s.disk;
    var moved := AfterMove(s, seg, a, comp.rebuilt).disk;
    var rewritten := AfterCompaction(AfterMerge(s, a, comp.rebuilt), seg, comp).disk;
    hide Consistent, Compacts, Moves, AfterMerge, AfterMove, AfterCompaction, OverlooksLastWord, Leftover, ValueIn, DeciderStays;
    forall k, more: nat | s.limit <= more
      ensures KeyOutcome(s, seg, a, AfterMerge(s, a, comp.rebuilt).disk, k, more)
      ensures KeyOutcome(s, seg, a, moved, k, more) && KeyOutcome(s, seg, a, rewritten, k, more)
      ensures ValueIn(moved, k, more) == ValueIn(rewritten, k, more) ==
              if OverlooksLastWord(s, seg, true, k, more) then Leftover(s, seg, true, k, more) else ValueIn(s.disk, k, more)
    {
      CopyOutcome(s, seg, a, comp, k, more);
      MoveEndsLikeInstall(s, seg, a, comp, k, more);
      InstallOutcome(s, seg, comp, true, a, k, more);
    }
    hide KeyOutcome;
  }

  /** The deletions have been copied to `a`, and the segment they came from is still there. */
  ghost predicate Copied(s: Snapshot, seg: nat, a: nat, comp: Compaction, t: Snapshot) {
    Moves(s, seg, a, comp) && t == AfterMerge(s, a, comp.rebuilt)
  }

  /** What a move leaves when it succeeds, and when it fails: nothing has happened, or the copy has. */
  ghost predicate MovedBy(s: Snapshot, seg: nat, a: nat, comp: Compaction, ok: bool, t: Snapshot) {
    if ok then Moves(s, seg, a, comp) && t == AfterMove(s, seg, a, comp.rebuilt) else t == s || Copied(s, seg, a, comp, t)
  }

  /** The disks a move passes through. */
  ghost predicate MovedThrough(s: Snapshot, seg: nat, a: nat, comp: Compaction, earlier: seq<Disk>, instants: seq<Disk>, now: Disk) {
    || instants == earlier
    || instants == earlier + [now]
    || (Moves(s, seg, a, comp) && instants == earlier + [AfterMerge(s, a, comp.rebuilt).disk] + [now])
  }

  lemma MovedOutcome(s: Snapshot, seg: nat, a: nat, comp: Compaction, ok: bool, t: Snapshot, earlier: seq<Disk>, instants: seq<Disk>)
    requires Consistent(s) && seg in s.disk && MovedBy(s, seg, a, comp, ok, t) && MovedThrough(s, seg, a, comp, earlier, instants, t.disk)
    ensures OverlooksAtMost(s, seg, a, t.disk) && OverlooksThroughout(instants, earlier, s, seg, a)
    ensures ok ==> Overlooks(s, seg, t.disk)
    ensures !ok ==> t == s || Copied(s, seg, a, comp, t)
  {
    hide Consistent, Moves, OverlooksAtMost, Overlooks, AfterMerge, AfterMove;
    NothingOutcomes(s, seg, a, earlier);
    if Moves(s, seg, a, comp) {
      MoveOutcomes(s, seg, a, comp);
    }
  }

  lemma NothingOutcomes(s: Snapshot, seg: nat, a: nat, instants: seq<Disk>)
    ensures seg in s.disk ==> OverlooksAtMost(s, seg, a, s.disk) && OverlooksThroughout(instants, instants, s, seg, a)
  {
    if seg in s.disk {
      hide KeyOutcome;
      forall k, more: nat | s.limit <= more
        ensures KeyOutcome(s, seg, a, s.disk, k, more)
      {
        NothingHappened(s, seg, a, k, more);
      }
    }
  }

  lemma CompactedFile(s: Snapshot, seg: nat, comp: Compaction, lower: bool)
    requires Compacts(s, seg, comp, lower)
    ensures seg in s.disk
  {
  }

  /** Rewriting the segment, at once or after its deletions have been copied. */
  lemma ReplacedOutcome(s: Snapshot, seg: nat, a: nat, comp: Compaction, middle: Snapshot, ok: bool, after: Disk)
    requires Consistent(s) && seg in s.disk
    requires (exists lower :: Compacts(s, seg, comp, lower)) && (middle == s || Copied(s, seg, a, comp, middle))
    requires after == if ok then AfterCompaction(middle, seg, comp).disk else middle.disk
    ensures OverlooksAtMost(s, seg, a, after) && (ok ==> Overlooks(s, seg, after))
  {
    hide Consistent, Compacts, OverlooksAtMost, Overlooks, AfterCompaction, AfterMerge;
    var lower :| Compacts(s, seg, comp, lower);
    CompactionOutcomes(s, seg, comp, lower, a);
    if middle != s {
      MoveOutcomes(s, seg, a, comp);
    }
  }

  /** At every disk the process may have stopped at since `earlier`, at most overlooked last words are lost. */
  ghost predicate OverlooksThroughout(instants: seq<Disk>, earlier: seq<Disk>, s: Snapshot, seg: nat, a: nat)
    requires seg in s.disk
  {
    && earlier <= instants
    && forall i :: |earlier| <= i < |instants| ==> OverlooksAtMost(s, seg, a, instants[i])
  }

  lemma ThroughoutOne(instants: seq<Disk>, earlier: seq<Disk>, s: Snapshot, seg: nat, a: nat, disk: Disk)
    requires seg in s.disk && OverlooksThroughout(instants, earlier, s, seg, a) && OverlooksAtMost(s, seg, a, disk)
    ensures OverlooksThroughout(instants + [disk], earlier, s, seg, a)
  {
    hide OverlooksAtMost;
  }

  // ---------------------------------------------------------- opening a directory

  /** Some key shows what the segment says. */
  ghost predicate Useful(disk: Disk, limit: nat, id: nat) {
    exists k :: EntryIn(disk, k, limit).Some? && EntryIn(disk, k, limit).value.segment == id
  }

  /** The last word on the key, for this reader, is in none of these segments. */
  ghost predicate Spared(disk: Disk, unused: set<nat>, k: Bytes, more: nat) {
    var d := Decider(disk, k, more); d.None? || d.value !in unused
  }

  /** The keys that have their last word elsewhere keep their value, and have their last word elsewhere. */
  ghost predicate AllSpared(first: Disk, now: Disk, unused: set<nat>, limit: nat) {
    forall k, more: nat :: limit <= more && Spared(first, unused, k, more) ==>
      ValueIn(now, k, more) == ValueIn(first, k, more) && Spared(now, unused, k, more)
  }

  lemma AllSparedSelf(disk: Disk, unused: set<nat>, limit: nat)
    ensures AllSpared(disk, disk, unused, limit)
  {
  }

  lemma OverlookedIsDecider(s: Snapshot, seg: nat, k: Bytes, more: nat)
    requires seg in s.disk && OverlooksLastWord(s, seg, true, k, more)
    ensures Decider(s.disk, k, more) == Some(seg)
  {
    hide EffectIn, Leftover;
    assert DecidedBy(s.disk, k, more, seg);
    DeciderIs(s.disk, k, more, seg);
  }

  /** Compacting an unused segment spares all other keys. */
  lemma CompactionSpares(first: Disk, s: Snapshot, seg: nat, a: nat, after: Disk, unused: set<nat>)
    requires AllSpared(first, s.disk, unused, s.limit) && seg in unused && a !in unused
    requires if seg in s.disk then OverlooksAtMost(s, seg, a, after) else after == s.disk
    ensures AllSpared(first, after, unused, s.limit)
  {
    if seg in s.disk {
      hide ValueIn, OverlooksLastWord, Leftover;
      forall k, more: nat | s.limit <= more && Spared(first, unused, k, more)
        ensures ValueIn(after, k, more) == ValueIn(first, k, more) && Spared(after, unused, k, more)
      {
        assert KeyOutcome(s, seg, a, after, k, more);
        assert Spared(s.disk, unused, k, more);
        if OverlooksLastWord(s, seg, true, k, more) {
          OverlookedIsDecider(s, seg, k, more);
        }
      }
    }
  }

  /** No compaction at opening can touch the key: its last word is active, hidden, or in a segment that shows something. */
  ghost predicate OutOfReach(disk: Disk, hidden: set<nat>, limit: nat, a: nat, k: Bytes, more: nat) {
    var d := Decider(disk, k, more);
    d.None? || d.value == a || d.value in hidden || Useful(disk - hidden, limit, d.value)
  }

  /** What opening a directory leaves for later sessions with higher limits. */
  ghost predicate KeepsOutOfReach(first: Disk, now: Disk, hidden: set<nat>, limit: nat, a: nat) {
    forall k, more: nat :: limit <= more && OutOfReach(first, hidden, limit, a, k, more) ==>
      ValueIn(now, k, more) == ValueIn(first, k, more)
  }

  lemma SilentKeepsDecider(first: Disk, now: Disk, k: Bytes, more: nat)
    requires Silent(first, now)
    ensures Decider(now, k, more) == Decider(first, k, more) && ValueIn(now, k, more) == ValueIn(first, k, more)
  {
    hide EffectAt, Silent;
    forall j: nat
      ensures EffectAt(first, j, k, more) == EffectAt(now, j, k, more)
    {
      SilentEffect(first, now, j, k, more);
    }
    DeciderSame(first, now, k, more);
    DeciderSame(now, first, k, more);
  }

  /** Reading and trimming is silent, and what is compacted afterwards shows nothing. */
  lemma OpeningSpares(first: Disk, s: Snapshot, a: nat, unused: set<nat>, now: Disk)
    requires Silent(first, s.disk) && IndexMatches(s.index, s.disk - s.hidden, s.limit)
    requires a !in unused && unused !! s.hidden && forall k :: k in s.index ==> s.index[k].segment !in unused
    requires AllSpared(s.disk, now, unused, s.limit)
    ensures KeepsOutOfReach(first, now, s.hidden, s.limit, a)
  {
    SilentKeepsReplay(first, s.disk, s.hidden, s.limit);
    hide Silent, ValueIn, EntryIn, Decider, Replayed;
    forall k, more: nat | s.limit <= more && OutOfReach(first, s.hidden, s.limit, a, k, more)
      ensures ValueIn(now, k, more) == ValueIn(first, k, more)
    {
      SilentKeepsDecider(first, s.disk, k, more);
      assert Spared(s.disk, unused, k, more) by {
        var d := Decider(first, k, more);
        if d.Some? && Useful(first - s.hidden, s.limit, d.value) {
          var shown :| EntryIn(first - s.hidden, shown, s.limit).Some? && EntryIn(first - s.hidden, shown, s.limit).value.segment == d.value;
          assert Lookup(s.index, shown) == EntryIn(s.disk - s.hidden, shown, s.limit);
        }
      }
    }
  }
}
