/**
  How loading a directory builds a consistent store out of whatever lies on the disk.
 */
module SegmentLoad {
  import opened Wrappers
  import opened SegmentCodec
  import opened Replay
  import opened SegmentIndex
  import opened SegmentCompaction
  import opened SegmentInvariant

  predicate Ascending(ids: seq<nat>) {
    forall i, j :: 0 <= i < j < |ids| ==> ids[i] < ids[j]
  }

  function Remaining(ids: seq<nat>, i: nat): set<nat>
    requires i <= |ids|
  {
    set j | i <= j < |ids| :: ids[j]
  }

  method MinId(ids: set<nat>) returns (least: nat)
    requires ids != {}
    ensures least in ids && forall j :: j in ids ==> least <= j
  {
    least :| least in ids;
    var rest := ids - {least};
    while rest != {}
      invariant rest <= ids && least in ids
      invariant forall j :: j in ids ==> j in rest || least <= j
      decreases rest
    {
      var x :| x in rest;
      rest := rest - {x};
      if x < least {
        least := x;
      }
    }
  }

  lemma AscendingSnoc(ids: seq<nat>, id: nat)
    requires Ascending(ids) && forall i :: 0 <= i < |ids| ==> ids[i] < id
    ensures Ascending(ids + [id])
  {
  }

  /** The ids in ascending order. */
  method SortedIds(ids: set<nat>) returns (sorted: seq<nat>)
    ensures Ascending(sorted)
    ensures (set id | id in sorted) == ids
  {
    sorted := [];
    var rest := ids;
    while rest != {}
      invariant rest <= ids && Ascending(sorted)
      invariant (set id | id in sorted) == ids - rest
      invariant forall i, j :: 0 <= i < |sorted| && j in rest ==> sorted[i] < j
      decreases rest
    {
      var least := MinId(rest);
      AscendingSnoc(sorted, least);
      assert (set id | id in sorted + [least]) == (set id | id in sorted) + {least};
      assert ids - (rest - {least}) == (ids - rest) + {least};
      sorted := sorted + [least];
      rest := rest - {least};
    }
  }

  lemma RemainingStep(ids: seq<nat>, i: nat)
    requires Ascending(ids) && i < |ids|
    ensures ids[i] in Remaining(ids, i)
    ensures Remaining(ids, i + 1) == Remaining(ids, i) - {ids[i]}
    ensures forall j :: j in ids && j !in Remaining(ids, i) ==> j < ids[i]
  {
  }

  lemma RemainingAll(ids: seq<nat>)
    ensures Remaining(ids, 0) == set id | id in ids
    ensures Remaining(ids, |ids|) == {}
  {
  }

  /**
    Half way through a load: the segments in `todo` are still to be read and count as hidden, every
    other one is done. `first` is the disk the load found.
   */
  ghost predicate Loading(s: Snapshot, first: Disk, todo: set<nat>) {
    && Silent(first, s.disk)
    && s.disk.Keys <= first.Keys
    && IndexMatches(s.index, s.disk - (s.hidden + todo), s.limit)
    && Tracked(s.(hidden := s.hidden + todo))
    && s.hidden <= s.partial
    && s.hidden <= first.Keys
    && MarkedUpTo(s, todo)
  }

  /** The segments done so far are marked as partially read, or hold no set that is too long. */
  ghost predicate MarkedUpTo(s: Snapshot, todo: set<nat>) {
    forall id :: id in s.disk && id !in s.partial && id !in todo ==> SetsFit(Records(s.disk[id]), s.limit)
  }

  /** The highest readable segment, and whether every readable file ends at a complete line. */
  ghost predicate LoadedUpTo(s: Snapshot, todo: set<nat>, active: nat, trimmed: bool) {
    && active <= MAX_SEGMENT_ID
    && forall id :: id in s.disk && id !in s.hidden && id !in todo ==>
         id <= active && (trimmed ==> |s.disk[id]| == CompleteLength(s.disk, id))
  }

  lemma LoadedHidden(s: Snapshot, todo: set<nat>, active: nat, trimmed: bool, id: nat, t: Snapshot)
    requires LoadedUpTo(s, todo, active, trimmed) && id in todo
    requires t.disk == s.disk && t.hidden == s.hidden + {id}
    ensures LoadedUpTo(t, todo - {id}, active, trimmed)
  {
  }

  /** Counting the segment just read. */
  lemma LoadedReadable(s: Snapshot, todo: set<nat>, active: nat, trimmed: bool, id: nat, kept: bool, clean: bool, t: Snapshot)
    requires LoadedUpTo(s, todo, active, trimmed) && id in todo && id in s.disk && id <= MAX_SEGMENT_ID
    requires t.hidden == s.hidden
    requires !kept ==> t.disk == s.disk - {id}
    requires kept && clean ==> t.disk == s.disk[id := s.disk[id][..CompleteLength(s.disk, id)]]
    requires kept && !clean ==> t.disk == s.disk
    ensures LoadedUpTo(t, todo - {id}, if kept && id > active then id else active, trimmed && clean)
  {
    TrimIsSilent(s.disk, id);
    hide Silent, CompletePrefixLength;
    forall j | j in t.disk && j !in t.hidden && j !in todo - {id}
      ensures j <= if kept && id > active then id else active
      ensures trimmed && clean ==> |t.disk[j]| == CompleteLength(t.disk, j)
    {
      if j != id {
        assert j in s.disk && j !in todo;
        assert Content(t.disk, j) == Content(s.disk, j);
      }
    }
  }

  lemma SilentIndexMatches(index: Index, d1: Disk, d2: Disk, h: set<nat>, limit: nat)
    requires Silent(d1, d2) && IndexMatches(index, d1 - h, limit)
    ensures IndexMatches(index, d2 - h, limit)
  {
    hide Silent, EntryIn;
    SilentKeepsReplay(d1, d2, h, limit);
  }

  lemma SilentTwice(d1: Disk, d2: Disk, d3: Disk)
    requires Silent(d1, d2) && Silent(d2, d3)
    ensures Silent(d1, d3)
  {
    hide Records, CompletePrefixLength;
  }

  lemma SilentSelf(disk: Disk)
    ensures Silent(disk, disk)
  {
  }

  lemma LoadStarts(disk: Disk, limit: nat)
    ensures Loading(Snapshot(disk, {}, {}, map[], map[], map[], limit), disk, disk.Keys)
    ensures LoadedUpTo(Snapshot(disk, {}, {}, map[], map[], map[], limit), disk.Keys, 0, true)
  {
    var s := Snapshot(disk, {}, {}, map[], map[], map[], limit);
    assert disk - ({} + disk.Keys) == map[];
    NothingMatches(limit);
    NothingIsComplete();
    hide IndexMatches, CompletePrefixLength;
    assert Tracked(s.(hidden := {} + disk.Keys));
  }

  lemma NothingMatches(limit: nat)
    ensures IndexMatches(map[], map[], limit)
  {
  }

  /** A segment that cannot be read joins the hidden ones. */
  lemma LoadUnreadable(s: Snapshot, first: Disk, todo: set<nat>, id: nat, t: Snapshot)
    requires Loading(s, first, todo) && id in todo && id in first
    requires t == s.(hidden := s.hidden + {id}, partial := s.partial + {id})
    ensures Loading(t, first, todo - {id})
  {
    assert t.hidden + (todo - {id}) == s.hidden + todo;
    hide Silent, IndexMatches, CompletePrefixLength;
    assert t.(hidden := t.hidden + (todo - {id})).disk == s.disk;
    forall j: nat
      ensures Count(t.bytes, j) == if j in t.hidden + (todo - {id}) then 0 else CompleteLength(t.disk, j)
    {
      assert Count(s.(hidden := s.hidden + todo).bytes, j) ==
             if j in s.hidden + todo then 0 else CompleteLength(s.disk, j);
    }
  }

  /** A readable segment above all done ones extends the index. */
  lemma LoadIndex(s: Snapshot, first: Disk, todo: set<nat>, id: nat)
    requires Loading(s, first, todo) && id in todo && id in s.disk && id !in s.hidden
    requires forall j :: j in s.disk && j !in todo ==> j < id
    ensures IndexMatches(IndexRecs(s.index, Records(s.disk[id]), id, s.limit), s.disk - (s.hidden + (todo - {id})), s.limit)
  {
    var done := s.disk - (s.hidden + todo);
    assert s.disk - (s.hidden + (todo - {id})) == done[id := s.disk[id]];
    hide IndexMatches, Records;
    ScanExtendsIndex(s.index, done, id, s.disk[id], s.limit);
  }

  /** Reading a segment, and trimming or removing its file or leaving it alone. */
  lemma LoadReadable(s: Snapshot, first: Disk, todo: set<nat>, id: nat, next: Disk, t: Snapshot)
    requires Loading(s, first, todo) && id in todo && id in s.disk && id !in s.hidden
    requires forall j :: j in s.disk && j !in todo ==> j < id
    requires Silent(s.disk, next) && next.Keys <= s.disk.Keys
    requires forall j: nat :: j != id ==> Content(next, j) == Content(s.disk, j)
    requires t.disk == next && t.hidden == s.hidden && s.partial <= t.partial && t.limit == s.limit
    requires t.index == IndexRecs(s.index, Records(s.disk[id]), id, s.limit)
    requires t.bytes == s.bytes[id := CompleteLength(s.disk, id)] || (t.bytes == s.bytes && CompleteLength(s.disk, id) == 0)
    requires id in t.partial || SetsFit(Records(s.disk[id]), s.limit)
    ensures Loading(t, first, todo - {id})
  {
    LoadMarks(s, todo, id, next, t);
    LoadIndex(s, first, todo, id);
    SilentIndexMatches(t.index, s.disk, next, s.hidden + (todo - {id}), s.limit);
    SilentTwice(first, s.disk, next);
    LoadTracked(s, first, todo, id, next, t);
    hide IndexMatches, Silent, Tracked, MarkedUpTo;
  }

  lemma LoadMarks(s: Snapshot, todo: set<nat>, id: nat, next: Disk, t: Snapshot)
    requires MarkedUpTo(s, todo) && id in s.disk
    requires Silent(s.disk, next) && next.Keys <= s.disk.Keys
    requires t.disk == next && s.partial <= t.partial && t.limit == s.limit
    requires id in t.partial || SetsFit(Records(s.disk[id]), s.limit)
    ensures MarkedUpTo(t, todo - {id})
  {
    hide SetsFit, Records, CompletePrefixLength;
    forall j | j in next && j !in t.partial && j !in todo - {id}
      ensures SetsFit(Records(next[j]), t.limit)
    {
      assert Records(Content(next, j)) == Records(Content(s.disk, j));
    }
  }

  /** What may become of the file of a segment that has been read: nothing that changes the replay. */
  lemma LoadSilent(s: Snapshot, first: Disk, todo: set<nat>, id: nat)
    requires Loading(s, first, todo) && id in s.disk
    ensures var n := CompletePrefixLength(s.disk[id]);
            && n == CompleteLength(s.disk, id)
            && Silent(s.disk, s.disk)
            && Replayed(s.disk, s.limit) == Replayed(first, s.limit)
            && (n == 0 ==> Silent(s.disk, s.disk - {id}) && Replayed(s.disk - {id}, s.limit) == Replayed(first, s.limit))
            && var cut := s.disk[id := s.disk[id][..n]];
               Silent(s.disk, cut) && Replayed(cut, s.limit) == Replayed(first, s.limit)
               && CompletePrefixLength(s.disk[id][..n]) == n
  {
    var n := CompletePrefixLength(s.disk[id]);
    SilentSelf(s.disk);
    TrimIsSilent(s.disk, id);
    SilentSameFull(first, s.disk, s.limit);
    SilentSameFull(s.disk, s.disk[id := s.disk[id][..n]], s.limit);
    if n == 0 {
      RemoveIsSilent(s.disk, id);
      SilentSameFull(s.disk, s.disk - {id}, s.limit);
    }
  }

  lemma SilentSameFull(d1: Disk, d2: Disk, limit: nat)
    requires Silent(d1, d2)
    ensures Replayed(d2, limit) == Replayed(d1, limit)
  {
    hide Silent, Replayed;
    WithoutNothing(d1);
    WithoutNothing(d2);
    SilentKeepsReplay(d1, d2, {}, limit);
  }

  lemma LoadTracked(s: Snapshot, first: Disk, todo: set<nat>, id: nat, next: Disk, t: Snapshot)
    requires Loading(s, first, todo) && id in todo && id in s.disk && id !in s.hidden
    requires Silent(s.disk, next)
    requires t.disk == next && t.hidden == s.hidden
    requires t.bytes == s.bytes[id := CompleteLength(s.disk, id)] || (t.bytes == s.bytes && CompleteLength(s.disk, id) == 0)
    ensures Tracked(t.(hidden := t.hidden + (todo - {id})))
  {
    hide IndexMatches, CompletePrefixLength, Records, Content;
    forall j: nat
      ensures Count(t.bytes, j) == if j in t.hidden + (todo - {id}) then 0 else CompleteLength(t.disk, j)
    {
      assert CompleteLength(next, j) == CompleteLength(s.disk, j);
      assert Count(s.(hidden := s.hidden + todo).bytes, j) == if j in s.hidden + todo then 0 else CompleteLength(s.disk, j);
    }
  }

  /** What trimming does: a file without a complete line goes, a torn tail is cut off, or nothing could be done. */
  predicate Trimmed(disk: Disk, next: Disk, id: nat, kept: bool, clean: bool)
    requires id in disk
  {
    var n := CompletePrefixLength(disk[id]);
    && (!kept ==> clean && n == 0 && next == disk - {id})
    && (kept && clean ==> next == disk[id := disk[id][..n]])
    && (kept && !clean ==> next == disk)
  }

  /** What the store knows, and has on disk, after reading a segment. */
  ghost predicate ReadInto(s: Snapshot, t: Snapshot, id: nat, kept: bool, clean: bool)
    requires id in s.disk
  {
    && Trimmed(s.disk, t.disk, id, kept, clean)
    && t.bytes == (if kept then s.bytes[id := CompletePrefixLength(s.disk[id])] else s.bytes)
    && t.hidden == s.hidden && s.partial <= t.partial && t.limit == s.limit
    && t.index == IndexRecs(s.index, Records(s.disk[id]), id, s.limit)
    && (id in t.partial || SetsFit(Records(s.disk[id]), s.limit))
  }

  /** One segment has been read, indexed, and trimmed, removed or left alone. */
  lemma LoadedSegment(s: Snapshot, first: Disk, todo: set<nat>, active: nat, trimmed: bool, id: nat, kept: bool, clean: bool, t: Snapshot)
    requires Loading(s, first, todo) && LoadedUpTo(s, todo, active, trimmed)
    requires id in todo && id in s.disk && id !in s.hidden && id <= MAX_SEGMENT_ID
    requires forall j :: j in s.disk && j !in todo ==> j < id
    requires ReadInto(s, t, id, kept, clean)
    ensures Loading(t, first, todo - {id})
    ensures LoadedUpTo(t, todo - {id}, if kept && id > active then id else active, trimmed && clean)
    ensures Replayed(t.disk, t.limit) == Replayed(first, t.limit)
    ensures forall j :: j != id ==> (j in t.disk <==> j in s.disk)
  {
    LoadSilent(s, first, todo, id);
    hide Loading, LoadedUpTo, Replayed, CompletePrefixLength, IndexRecs, Records, Silent, SetsFit;
    assert CompleteLength(s.disk, id) == CompletePrefixLength(s.disk[id]);
    LoadReadable(s, first, todo, id, t.disk, t);
    LoadedReadable(s, todo, active, trimmed, id, kept, clean, t);
  }

  /** All of Consistent but the dead bytes, which are computed last. */
  ghost predicate Indexed(s: Snapshot) {
    && IndexMatches(s.index, s.disk - s.hidden, s.limit)
    && Tracked(s)
    && DeletionsAsWritten(s.disk)
    && IdsFit(s.disk)
    && s.hidden <= s.partial
    && Marked(s)
  }

  lemma LoadEnds(s: Snapshot, first: Disk)
    requires Loading(s, first, {}) && Openable(first)
    ensures Indexed(s)
    ensures Replayed(s.disk, s.limit) == Replayed(first, s.limit)
    ensures Replayed(s.disk - s.hidden, s.limit) == Replayed(first - s.hidden, s.limit)
  {
    assert s.hidden + {} == s.hidden;
    assert s.(hidden := s.hidden + {}) == s;
    SilentKeepsDeletions(first, s.disk);
    hide IndexMatches, Silent, DeletionsAsWritten, Replayed, Tracked;
    WithoutNothing(first);
    WithoutNothing(s.disk);
    SilentKeepsReplay(first, s.disk, {}, s.limit);
    SilentKeepsReplay(first, s.disk, s.hidden, s.limit);
  }

  /** Starting a new segment above everything. */
  lemma IndexedNewSegment(s: Snapshot, a: nat)
    requires Indexed(s) && a !in s.disk
    ensures Indexed(s.(bytes := s.bytes[a := 0]))
  {
    NothingIsComplete();
    hide CompletePrefixLength, IndexMatches, DeletionsAsWritten;
    var t := s.(bytes := s.bytes[a := 0]);
    forall id: nat
      ensures Count(t.bytes, id) == if id in t.hidden then 0 else CompleteLength(t.disk, id)
    {
      assert Count(s.bytes, id) == if id in s.hidden then 0 else CompleteLength(s.disk, id);
    }
  }

  /** The live bytes of any segment are within its recorded bytes, so dead bytes are exact. */
  lemma LiveWithinCount(s: Snapshot, id: nat)
    requires Indexed(s)
    ensures LiveBytes(s.index, id) <= Count(s.bytes, id)
  {
    var visible := s.disk - s.hidden;
    if id in visible {
      LiveWithinSegment(s.index, visible, s.limit, id);
      assert Count(s.bytes, id) == CompleteLength(s.disk, id);
    } else {
      forall k | k in s.index
        ensures s.index[k].segment != id
      {
        var i := EntryWitness(s.index, visible, s.limit, k);
      }
      LiveNone(s.index, id);
    }
  }

  /** Sums the live bytes of every segment in one pass over the index. */
  method SumLiveBytes(index: Index) returns (live: map<nat, nat>)
    ensures forall id: nat :: Count(live, id) == LiveBytes(index, id)
  {
    live := map[];
    var rest := index;
    while rest != map[]
      invariant forall id: nat :: Count(live, id) + LiveBytes(rest, id) == LiveBytes(index, id)
      decreases rest.Keys
    {
      var k :| k in rest;
      var e := rest[k];
      forall id: nat
        ensures LiveBytes(rest, id) == Share(e, id) + LiveBytes(rest - {k}, id)
      {
        LiveRemove(rest, id, k);
      }
      hide LiveBytes;
      live := AddTo(live, e.segment, e.length);
      assert (rest - {k}).Keys == rest.Keys - {k};
      rest := rest - {k};
    }
  }

  lemma DeadIsRest(s: Snapshot, dead: map<nat, nat>, live: map<nat, nat>)
    requires Indexed(s)
    requires forall id: nat :: Count(live, id) == LiveBytes(s.index, id)
    requires dead == map id | id in s.bytes :: if s.bytes[id] >= Count(live, id) then s.bytes[id] - Count(live, id) else 0
    ensures Consistent(s.(dead := dead))
    ensures forall id :: id in s.bytes ==> s.bytes[id] >= Count(live, id)
  {
    var t := s.(dead := dead);
    forall id: nat
      ensures Count(dead, id) + LiveBytes(s.index, id) == Count(s.bytes, id)
      ensures id in s.bytes ==> s.bytes[id] >= Count(live, id)
    {
      LiveWithinCount(s, id);
    }
    assert Tracked(t);
  }

  // ------------------------------------------------------- where to append

  method HighestId(ids: set<nat>) returns (highest: nat)
    requires ids != {}
    ensures highest in ids && forall j :: j in ids ==> j <= highest
  {
    highest :| highest in ids;
    var rest := ids - {highest};
    while rest != {}
      invariant rest <= ids && highest in ids
      invariant forall j :: j in ids ==> j in rest || j <= highest
      decreases rest
    {
      var x :| x in rest;
      rest := rest - {x};
      if x > highest {
        highest := x;
      }
    }
  }

  /** The highest readable segment lies above all unreadable ones and ends cleanly. */
  lemma ActiveIsHighest(s: Snapshot, active: nat)
    requires Indexed(s) && LoadedUpTo(s, {}, active, true)
    requires forall u :: u in s.hidden ==> u < active
    ensures Appendable(s, active)
  {
    hide IndexMatches, DeletionsAsWritten;
    assert Count(s.bytes, active) == if active in s.hidden then 0 else CompleteLength(s.disk, active);
    NothingIsComplete();
  }

  lemma AboveUnreadable(s: Snapshot, active: nat, highest: nat, trimmed: bool)
    requires LoadedUpTo(s, {}, active, trimmed) && active <= highest
    requires forall u :: u in s.hidden ==> u <= highest
    ensures forall id :: id in s.disk || id in s.hidden ==> id <= highest
  {
  }

  lemma AboveListed(s: Snapshot, ids: seq<nat>)
    requires Ascending(ids) && ids != []
    requires forall id :: id in s.disk || id in s.hidden ==> id in ids
    ensures forall id :: id in s.disk || id in s.hidden ==> id <= ids[|ids| - 1]
  {
  }

  /** A new segment above every listed one is appendable. */
  lemma FreshIsAppendable(s: Snapshot, a: nat, t: Snapshot)
    requires Indexed(s) && 0 < a <= MAX_SEGMENT_ID
    requires forall id :: id in s.disk || id in s.hidden ==> id < a
    requires t == s.(bytes := s.bytes[a := 0], dead := s.dead[a := 0])
    ensures Indexed(t) && Appendable(t, a)
  {
    IndexedNewSegment(s, a);
    IndexedIgnoresDead(s.(bytes := s.bytes[a := 0]), t);
    hide Indexed;
    assert a !in s.disk;
  }

  lemma IndexedIgnoresDead(s: Snapshot, t: Snapshot)
    requires Indexed(s) && t == s.(dead := t.dead)
    ensures Indexed(t)
  {
    hide IndexMatches, DeletionsAsWritten, CompleteLength;
  }

  /** Only readable segments have bytes on record. */
  lemma TrackedIsReadable(s: Snapshot)
    requires Consistent(s)
    ensures forall id :: id in s.bytes && s.bytes[id] > 0 ==> id !in s.hidden
  {
    hide IndexMatches, DeletionsAsWritten, CompleteLength, Accounted;
    forall id | id in s.bytes && s.bytes[id] > 0
      ensures id !in s.hidden
    {
      assert Count(s.bytes, id) == if id in s.hidden then 0 else CompleteLength(s.disk, id);
    }
  }

  lemma LoadedIds(s: Snapshot, first: Disk, ids: seq<nat>)
    requires Loading(s, first, {}) && Openable(first) && (set id | id in ids) == first.Keys
    ensures forall id :: id in s.disk || id in s.hidden ==> id in ids
    ensures forall id :: id in ids ==> id <= MAX_SEGMENT_ID
  {
    hide IndexMatches, Silent, Tracked, DeletionsAsWritten;
    forall id
      ensures id in ids <==> id in first
    {
      assert id in ids <==> id in (set x | x in ids);
    }
  }
}
