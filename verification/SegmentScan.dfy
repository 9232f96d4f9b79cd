/**
  The two scanning loops of the segment store: reading a segment into the index, and rebuilding a
  segment from its live records (cpp/core/JsonlSegmentStore.cpp:190-212 and 455-490).
 */
module SegmentScan {
  import opened Wrappers
  import opened SegmentCodec
  import opened Replay
  import opened SegmentIndex
  import opened SegmentCompaction
  import opened SegmentInvariant

  lemma FindInSlice(c: Bytes, from: nat, newline: nat)
    requires from <= newline < |c|
    ensures var tab := Find(c, TAB, from);
            var line := c[from..newline + 1];
            if tab < newline then Find(line, TAB, 0) == tab - from else Find(line, TAB, 0) >= |line| - 1
  {
    var tab := Find(c, TAB, from);
    var line := c[from..newline + 1];
    assert forall i :: 0 <= i < |line| ==> line[i] == c[from + i];
    if tab < newline {
      FindIs(line, TAB, 0, tab - from);
    }
  }

  /** Decoding a line where it lies, as both loops do. */
  function DecodeParts(key: Option<Bytes>, value: Option<Bytes>): Op {
    if key.None? || value.None? then Skip
    else if key.value == TOMBSTONE_KEY then Del(value.value)
    else Put(key.value, value.value)
  }

  lemma DecodeSplit(line: Bytes, tab: nat)
    requires line != [] && tab == Find(line, TAB, 0) < |line| - 1
    ensures Decode(line) == DecodeParts(Unescape(line[..tab]), Unescape(line[tab + 1..|line| - 1]))
  {
    hide Unescape, Find;
  }

  lemma SlicesOfLine(c: Bytes, from: nat, newline: nat, tab: nat)
    requires from <= tab < newline < |c|
    ensures var line := c[from..newline + 1];
            line[..tab - from] == c[from..tab] && line[tab - from + 1..|line| - 1] == c[tab + 1..newline]
  {
    var line := c[from..newline + 1];
    assert line[..tab - from] == c[from..tab];
    var value := line[tab - from + 1..|line| - 1];
    assert |value| == newline - tab - 1;
    assert forall i :: 0 <= i < |value| ==> value[i] == line[tab - from + 1 + i] == c[tab + 1 + i];
  }

  lemma DecodeInPlace(c: Bytes, from: nat, newline: nat)
    requires from <= newline < |c| && newline == Find(c, NEWLINE, from)
    ensures var tab := Find(c, TAB, from);
            RecordAt(c, from, newline).op ==
            if tab >= newline then Skip else DecodeParts(Unescape(c[from..tab]), Unescape(c[tab + 1..newline]))
  {
    FindInSlice(c, from, newline);
    var tab := Find(c, TAB, from);
    var line := c[from..newline + 1];
    if tab < newline {
      DecodeSplit(line, tab - from) by { assert Find(line, TAB, 0) == tab - from; }
      hide Find, Unescape, Decode, DecodeParts;
      SlicesOfLine(c, from, newline, tab);
    } else {
      hide Find, Unescape;
    }
  }

  /** Where a scan stands: `done` are the records before `offset`. */
  ghost predicate Scanning(c: Bytes, done: seq<Rec>, offset: nat) {
    offset <= CompletePrefixLength(c) && Records(c) == done + RecordsFrom(c, offset)
  }

  lemma ScanStarts(c: Bytes)
    ensures Scanning(c, [], 0)
  {
  }

  lemma NewlineAhead(c: Bytes, offset: nat)
    requires offset < CompletePrefixLength(c)
    ensures offset <= Find(c, NEWLINE, offset) < CompletePrefixLength(c)
  {
    hide Find;
    assert c[CompletePrefixLength(c) - 1] == NEWLINE;
  }

  lemma LineAhead(c: Bytes, offset: nat, newline: nat)
    requires offset <= newline < |c| && newline == Find(c, NEWLINE, offset)
    ensures LocatedIn(c, RecordAt(c, offset, newline))
    ensures newline + 1 - offset == RecordAt(c, offset, newline).length
  {
    hide Find, Decode;
  }

  lemma ScanSteps(c: Bytes, done: seq<Rec>, offset: nat)
    requires Scanning(c, done, offset) && offset < CompletePrefixLength(c)
    ensures var newline := Find(c, NEWLINE, offset);
            && newline < CompletePrefixLength(c)
            && Scanning(c, done + [RecordAt(c, offset, newline)], newline + 1)
            && LocatedIn(c, RecordAt(c, offset, newline))
            && newline + 1 - offset == RecordAt(c, offset, newline).length
  {
    NewlineAhead(c, offset);
    hide Find, Decode, LocatedIn, CompletePrefixLength, Records, RecordsFrom, RecordAt;
    var newline := Find(c, NEWLINE, offset);
    LineAhead(c, offset, newline);
    assert Records(c) == (done + [RecordAt(c, offset, newline)]) + RecordsFrom(c, newline + 1) by {
      RecordsUnfold(c, offset, newline);
      Associate(done, [RecordAt(c, offset, newline)], RecordsFrom(c, newline + 1));
    }
  }

  lemma ScanEnds(c: Bytes, done: seq<Rec>, offset: nat)
    requires Scanning(c, done, offset) && offset >= CompletePrefixLength(c)
    ensures done == Records(c)
  {
    assert Find(c, NEWLINE, offset) == |c|;
    RecordsOfRest(c, offset);
  }

  lemma IndexSnoc(index: Index, done: seq<Rec>, r: Rec, id: nat, limit: nat)
    ensures IndexRecs(index, done + [r], id, limit) == IndexRec(IndexRecs(index, done, id, limit), r, id, limit)
  {
    assert (done + [r])[..|done|] == done;
  }

  /** The segment holds a line this store cannot use. */
  ghost predicate HasUnusable(rs: seq<Rec>, limit: nat) {
    exists i :: 0 <= i < |rs| && (rs[i].op.Skip? || rs[i].length > limit)
  }

  lemma UsableSetsFit(rs: seq<Rec>, limit: nat)
    ensures HasUnusable(rs, limit) || SetsFit(rs, limit)
  {
  }

  lemma UnusableSnoc(done: seq<Rec>, r: Rec, limit: nat)
    ensures HasUnusable(done + [r], limit) <==> HasUnusable(done, limit) || r.op.Skip? || r.length > limit
  {
    var all := done + [r];
    if HasUnusable(done, limit) {
      var i :| 0 <= i < |done| && (done[i].op.Skip? || done[i].length > limit);
      assert all[i] == done[i];
    }
    assert all[|done|] == r;
  }

  /** Reads the complete lines of a segment into the index. */
  method ScanSegment(content: Bytes, id: nat, limit: nat, before: Index) returns (index: Index, partial: bool)
    ensures index == IndexRecs(before, Records(content), id, limit)
    ensures partial <==> HasUnusable(Records(content), limit)
  {
    hide Unescape, Records, RecordsFrom, RecordAt, LocatedIn, Scanning, Find, HasUnusable, CompletePrefixLength;
    index := before;
    partial := false;
    ghost var done: seq<Rec> := [];
    var completeBytes := CompletePrefixLength(content);
    var offset := 0;
    ScanStarts(content);
    assert !HasUnusable([], limit) by {
      NothingUnusable(limit);
    }
    while offset < completeBytes
      invariant Scanning(content, done, offset)
      invariant index == IndexRecs(before, done, id, limit)
      invariant partial <==> HasUnusable(done, limit)
    {
      var newline := Find(content, NEWLINE, offset);
      ScanSteps(content, done, offset);
      DecodeInPlace(content, offset, newline);
      ghost var r := RecordAt(content, offset, newline);
      IndexSnoc(before, done, r, id, limit);
      UnusableSnoc(done, r, limit);
      var length := newline - offset + 1;
      var tab := Find(content, TAB, offset);
      var key: Option<Bytes> := None;
      var value: Option<Bytes> := None;
      if length <= limit && tab < newline {
        key := UnescapeInto(content[offset..tab]);
        value := UnescapeInto(content[tab + 1..newline]);
      }
      if key.Some? && value.Some? {
        if key.value == TOMBSTONE_KEY {
          index := index - {value.value};
        } else {
          index := index[key.value := Entry(id, offset, length)];
        }
      } else {
        partial := true;
      }
      done := done + [r];
      offset := newline + 1;
    }
    ScanEnds(content, done, offset);
  }

  lemma NothingUnusable(limit: nat)
    ensures !HasUnusable([], limit)
  {
  }

  lemma CompactSnoc(c: Bytes, done: seq<Rec>, r: Rec, index: Index, segment: nat, lower: bool)
    requires AllLocated(c, done) && LocatedIn(c, r)
    ensures AllLocated(c, done + [r])
    ensures CompactRecs(c, done + [r], index, segment, lower) ==
            CompactRec(c, r, CompactRecs(c, done, index, segment, lower), index, segment, lower)
  {
    hide LocatedIn;
    assert (done + [r])[..|done|] == done;
  }

  /** Rebuilds a segment from its live records and the deletions it must keep. */
  method RebuildSegment(content: Bytes, index: Index, segment: nat, lowerSegmentHasData: bool) returns (comp: Compaction)
    requires forall k :: k in index && index[k].segment == segment ==> SomeLive(Records(content), k, index, segment)
    ensures AllLocated(content, Records(content))
    ensures comp == CompactRecs(content, Records(content), index, segment, lowerSegmentHasData)
  {
    hide Unescape, Records, RecordsFrom, RecordAt, LocatedIn, Scanning, Find, CompletePrefixLength, AllLocated, SomeLive, CompactRecs, Decode;
    var rebuilt: Bytes := [];
    var keptTombstoneBytes: nat := 0;
    var keptTombstoneKeys: set<Bytes> := {};
    var compacted: Index := map[];
    ghost var done: seq<Rec> := [];
    var completeBytes := CompletePrefixLength(content);
    var offset := 0;
    ScanStarts(content);
    NothingCompacted(content, index, segment, lowerSegmentHasData);
    while offset < completeBytes
      invariant Scanning(content, done, offset)
      invariant AllLocated(content, done)
      invariant CompactRecs(content, done, index, segment, lowerSegmentHasData) ==
                Compaction(rebuilt, keptTombstoneBytes, keptTombstoneKeys, compacted)
    {
      var newline := Find(content, NEWLINE, offset);
      ScanSteps(content, done, offset);
      ghost var r := RecordAt(content, offset, newline);
      CompactSnoc(content, done, r, index, segment, lowerSegmentHasData);
      DecodeInPlace(content, offset, newline);
      LiveLineDecodes(content, done, offset, newline, index, segment);
      var length := newline - offset + 1;
      var tab := Find(content, TAB, offset);
      if tab < newline {
        var key := UnescapeInto(content[offset..tab]);
        if key.Some? {
          if key.value == TOMBSTONE_KEY {
            if lowerSegmentHasData {
              var value := UnescapeInto(content[tab + 1..newline]);
              if value.Some? && value.value !in index && value.value !in keptTombstoneKeys {
                keptTombstoneKeys := keptTombstoneKeys + {value.value};
                rebuilt := rebuilt + content[offset..offset + length];
                keptTombstoneBytes := keptTombstoneBytes + length;
              }
            }
          } else if key.value in index && index[key.value] == Entry(segment, offset, length) {
            compacted := compacted[key.value := Entry(segment, |rebuilt|, length)];
            rebuilt := rebuilt + content[offset..offset + length];
          }
        }
      }
      done := done + [r];
      offset := newline + 1;
    }
    ScanEnds(content, done, offset);
    comp := Compaction(rebuilt, keptTombstoneBytes, keptTombstoneKeys, compacted);
  }

  lemma NothingCompacted(c: Bytes, index: Index, segment: nat, lower: bool)
    ensures AllLocated(c, [])
    ensures CompactRecs(c, [], index, segment, lower) == NOTHING_KEPT
  {
  }

  /** The record at hand is the next record of the file. */
  lemma ScanPlace(c: Bytes, done: seq<Rec>, r: Rec, next: nat)
    requires Scanning(c, done + [r], next)
    ensures |done| < |Records(c)| && Records(c)[|done|] == r
  {
    hide RecordsFrom;
    assert (done + [r])[|done|] == r;
  }

  /** A line at the place of a live record decodes to a set of that key. */
  lemma LiveLineDecodes(c: Bytes, done: seq<Rec>, offset: nat, newline: nat, index: Index, segment: nat)
    requires Scanning(c, done, offset) && offset < CompletePrefixLength(c) && newline == Find(c, NEWLINE, offset)
    requires newline < |c|
    requires forall k :: k in index && index[k].segment == segment ==> SomeLive(Records(c), k, index, segment)
    ensures forall k :: k in index && index[k] == Entry(segment, offset, newline + 1 - offset) ==>
              RecordAt(c, offset, newline).op.Put? && RecordAt(c, offset, newline).op.key == k
  {
    hide Records, RecordsFrom, Chained, Scanning, CompletePrefixLength, LocatedIn, Find, Decode;
    ScanSteps(c, done, offset);
    var r := RecordAt(c, offset, newline);
    var rs := Records(c);
    ScanPlace(c, done, r, newline + 1);
    RecordsCoverCompletePrefix(c);
    forall k | k in index && index[k] == Entry(segment, offset, newline + 1 - offset)
      ensures r.op.Put? && r.op.key == k
    {
      assert SomeLive(rs, k, index, segment);
      var i :| 0 <= i < |rs| && rs[i].op.Put? && rs[i].op.key == k && IsLive(rs[i], index, segment);
      SameOffset(c, rs, i, |done|);
    }
  }
}
