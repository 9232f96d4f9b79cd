/**
  The in-memory index of the segment store and its bookkeeping, as properties of values: what the
  index must hold for a given disk, how a scan builds it, and how many bytes of a segment are live.
 */
module SegmentIndex {
  import opened Wrappers
  import opened SegmentCodec
  import opened Replay

  /** Where the live record of a key lies. */
  datatype Entry = Entry(segment: nat, offset: nat, length: nat)

  type Index = map<Bytes, Entry>

  // -------------------------------------------------------------------- index

  function EntryOf(id: nat, e: Effect): Option<Entry> {
    if e.Sets? then Some(Entry(id, e.offset, e.length)) else None
  }

  /** The record that decides a key's value, if it is a set. */
  ghost function EntryIn(disk: Disk, k: Bytes, limit: nat): Option<Entry> {
    var d := Decider(disk, k, limit);
    if d.None? then None else EntryOf(d.value, EffectAt(disk, d.value, k, limit))
  }

  /** The index holds exactly the deciding record of every key that has a value. */
  ghost predicate IndexMatches(index: Index, disk: Disk, limit: nat) {
    forall k :: Lookup(index, k) == EntryIn(disk, k, limit)
  }

  lemma EntryDecided(disk: Disk, k: Bytes, limit: nat, id: nat)
    requires DecidedBy(disk, k, limit, id)
    ensures EntryIn(disk, k, limit) == EntryOf(id, EffectAt(disk, id, k, limit))
  {
    DeciderIs(disk, k, limit, id);
  }

  lemma EntrySame(d1: Disk, d2: Disk, k: Bytes, limit: nat)
    requires forall j: nat :: EffectAt(d1, j, k, limit) == EffectAt(d2, j, k, limit)
    ensures EntryIn(d1, k, limit) == EntryIn(d2, k, limit)
    ensures ValueIn(d1, k, limit) == ValueIn(d2, k, limit)
  {
    DeciderSame(d1, d2, k, limit);
  }

  /** The keys of the index are the keys of the replay. */
  lemma IndexKeysAreReplayed(index: Index, disk: Disk, limit: nat, k: Bytes)
    requires IndexMatches(index, disk, limit)
    ensures k in index <==> k in Replayed(disk, limit)
  {
    ReplayedAt(disk, limit, k);
    assert Lookup(index, k) == EntryIn(disk, k, limit);
  }

  /** An index entry points at a record of its segment, within the reader's limit. */
  lemma EntryWitness(index: Index, disk: Disk, limit: nat, k: Bytes) returns (i: nat)
    requires IndexMatches(index, disk, limit) && k in index
    ensures index[k].segment in disk
    ensures i < |Records(disk[index[k].segment])|
    ensures var r := Records(disk[index[k].segment])[i];
            && r.offset == index[k].offset && r.length == index[k].length <= limit
            && r.op.Put? && r.op.key == k
            && ValueIn(disk, k, limit) == Some(r.op.value)
            && EffectIn(disk[index[k].segment], k, limit) == Sets(r.op.value, r.offset, r.length)
  {
    assert Lookup(index, k) == EntryIn(disk, k, limit);
    i := EffectWitness(Records(disk[index[k].segment]), k, limit);
  }

  // --------------------------------------------------------------------- scan

  function IndexRec(index: Index, r: Rec, id: nat, limit: nat): Index {
    if r.length > limit then index
    else
      match r.op
      case Put(k, _) => index[k := Entry(id, r.offset, r.length)]
      case Del(k) => index - {k}
      case Skip => index
  }

  /** The index after scanning records `rs` of segment `id`. */
  function IndexRecs(index: Index, rs: seq<Rec>, id: nat, limit: nat): Index {
    if rs == [] then index
    else IndexRec(IndexRecs(index, rs[..|rs| - 1], id, limit), rs[|rs| - 1], id, limit)
  }

  lemma {:induction false} IndexRecsAt(index: Index, rs: seq<Rec>, id: nat, limit: nat, k: Bytes)
    ensures Lookup(IndexRecs(index, rs, id, limit), k) ==
            if EffectOf(rs, k, limit).Untouched? then Lookup(index, k) else EntryOf(id, EffectOf(rs, k, limit))
  {
    if rs != [] {
      IndexRecsAt(index, rs[..|rs| - 1], id, limit, k);
    }
  }

  /** Scanning a segment above all others extends the index to it. */
  lemma ScanExtendsIndex(index: Index, disk: Disk, id: nat, c: Bytes, limit: nat)
    requires IndexMatches(index, disk, limit)
    requires forall j :: j in disk ==> j < id
    ensures IndexMatches(IndexRecs(index, Records(c), id, limit), disk[id := c], limit)
  {
    var next := IndexRecs(index, Records(c), id, limit);
    var disk' := disk[id := c];
    forall k
      ensures Lookup(next, k) == EntryIn(disk', k, limit)
    {
      hide IndexRecs, EffectIn;
      EffectInIs(c, k, limit);
      IndexRecsAt(index, Records(c), id, limit, k);
      assert Lookup(index, k) == EntryIn(disk, k, limit);
      if EffectAt(disk', id, k, limit).Untouched? {
        assert forall j: nat :: EffectAt(disk', j, k, limit) == EffectAt(disk, j, k, limit);
        EntrySame(disk', disk, k, limit);
      } else {
        assert DecidedBy(disk', k, limit, id);
        EntryDecided(disk', k, limit, id);
      }
    }
  }

  // --------------------------------------------------------------- accounting

  function Count(m: map<nat, nat>, id: nat): nat {
    if id in m then m[id] else 0
  }

  function Share(e: Entry, segment: nat): nat {
    if e.segment == segment then e.length else 0
  }

  /** Summed lengths of the index entries that lie in `segment`. */
  ghost function LiveBytes(index: Index, segment: nat): nat
    decreases index.Keys
  {
    if index == map[] then 0
    else
      var k :| k in index;
      assert (index - {k}).Keys == index.Keys - {k};
      Share(index[k], segment) + LiveBytes(index - {k}, segment)
  }

  lemma {:induction false} LiveRemove(index: Index, segment: nat, k: Bytes)
    requires k in index
    ensures LiveBytes(index, segment) == Share(index[k], segment) + LiveBytes(index - {k}, segment)
    decreases index.Keys
  {
    var x :| x in index && LiveBytes(index, segment) == Share(index[x], segment) + LiveBytes(index - {x}, segment);
    if x != k {
      var smaller := index - {x};
      assert smaller.Keys == index.Keys - {x};
      LiveRemove(smaller, segment, k);
      LiveRemove(index - {k}, segment, x) by { assert (index - {k}).Keys == index.Keys - {k}; }
      assert smaller - {k} == (index - {k}) - {x};
    }
  }

  lemma LivePut(index: Index, segment: nat, k: Bytes, e: Entry)
    ensures LiveBytes(index[k := e], segment) == Share(e, segment) + LiveBytes(index - {k}, segment)
  {
    LiveRemove(index[k := e], segment, k);
    assert index[k := e] - {k} == index - {k};
  }

  lemma LiveAbsent(index: Index, segment: nat, k: Bytes)
    requires k !in index
    ensures LiveBytes(index - {k}, segment) == LiveBytes(index, segment)
  {
    assert index - {k} == index;
  }

  /** Moving records inside their segments leaves the live bytes alone. */
  lemma {:induction false} LiveSame(i1: Index, i2: Index, segment: nat)
    requires i1.Keys == i2.Keys
    requires forall k :: k in i1 ==> Share(i1[k], segment) == Share(i2[k], segment)
    ensures LiveBytes(i1, segment) == LiveBytes(i2, segment)
    decreases i1.Keys
  {
    if i1 != map[] {
      var k :| k in i1;
      LiveRemove(i1, segment, k);
      LiveRemove(i2, segment, k);
      assert (i1 - {k}).Keys == i1.Keys - {k} == (i2 - {k}).Keys;
      LiveSame(i1 - {k}, i2 - {k}, segment);
    } else {
      assert i2 == map[];
    }
  }

  /** Entries outside the segment do not count. */
  lemma {:induction false} LiveRestrict(index: Index, sub: Index, segment: nat)
    requires forall k :: k in sub ==> k in index && index[k] == sub[k]
    requires forall k :: k in index && index[k].segment == segment ==> k in sub
    ensures LiveBytes(index, segment) == LiveBytes(sub, segment)
    decreases index.Keys
  {
    if index != map[] {
      var k :| k in index;
      LiveRemove(index, segment, k);
      if k in sub {
        LiveRemove(sub, segment, k);
      } else {
        LiveAbsent(sub, segment, k);
      }
      assert (index - {k}).Keys == index.Keys - {k};
      LiveRestrict(index - {k}, sub - {k}, segment);
    } else {
      assert sub == map[];
    }
  }

  lemma LiveNone(index: Index, segment: nat)
    requires forall k :: k in index ==> index[k].segment != segment
    ensures LiveBytes(index, segment) == 0
  {
    LiveRestrict(index, map[], segment);
  }

  lemma {:induction false} OffsetsIncrease(c: Bytes, from: nat, rs: seq<Rec>, i: nat, j: nat)
    requires Chained(c, from, rs) && i < j < |rs|
    ensures rs[i].offset + rs[i].length <= rs[j].offset
    ensures rs[i].length > 0
  {
    assert LocatedIn(c, rs[i]) && LocatedIn(c, rs[j - 1]);
    if i < j - 1 {
      OffsetsIncrease(c, from, rs, i, j - 1);
    }
  }

  /** Every entry is the `at`-placed record about its key in the first `n` records. */
  ghost predicate EntriesAmong(index: Index, segment: nat, rs: seq<Rec>, n: nat)
    requires n <= |rs|
  {
    forall k :: k in index && index[k].segment == segment ==>
      exists i :: 0 <= i < n && PutsAt(rs[i], k, index[k])
  }

  predicate PutsAt(r: Rec, k: Bytes, e: Entry) {
    r.op.Put? && r.op.key == k && r.offset == e.offset && r.length == e.length
  }

  lemma EndGrows(c: Bytes, rs: seq<Rec>, n: nat)
    requires Chained(c, 0, rs) && 0 < n <= |rs|
    ensures EndOf(0, rs[..n]) == EndOf(0, rs[..n - 1]) + rs[n - 1].length
  {
  }

  /** Live records of a segment are distinct lines of it, so they fit into its complete prefix. */
  lemma {:induction false} LiveFits(index: Index, segment: nat, c: Bytes, rs: seq<Rec>, n: nat)
    requires Chained(c, 0, rs) && n <= |rs|
    requires EntriesAmong(index, segment, rs, n)
    ensures LiveBytes(index, segment) <= EndOf(0, rs[..n])
    decreases n
  {
    if n == 0 {
      LiveNone(index, segment);
    } else {
      var r := rs[n - 1];
      EndGrows(c, rs, n);
      hide Chained, EndOf, LiveBytes;
      if k :| k in index && index[k].segment == segment && PutsAt(r, k, index[k]) {
        LiveRemove(index, segment, k);
        EntriesBefore(index - {k}, index, segment, rs, n);
        LiveFits(index - {k}, segment, c, rs, n - 1);
      } else {
        EntriesBefore(index, index, segment, rs, n);
        LiveFits(index, segment, c, rs, n - 1);
      }
    }
  }

  /** Without an entry at the last record, every entry is at an earlier one. */
  lemma EntriesBefore(rest: Index, index: Index, segment: nat, rs: seq<Rec>, n: nat)
    requires 0 < n <= |rs| && EntriesAmong(index, segment, rs, n)
    requires forall k :: k in rest ==> k in index && rest[k] == index[k]
    requires forall k :: k in rest && rest[k].segment == segment ==> !PutsAt(rs[n - 1], k, rest[k])
    ensures EntriesAmong(rest, segment, rs, n - 1)
  {
    forall x | x in rest && rest[x].segment == segment
      ensures exists i :: 0 <= i < n - 1 && PutsAt(rs[i], x, rest[x])
    {
      var i :| 0 <= i < n && PutsAt(rs[i], x, index[x]);
      assert i != n - 1;
    }
  }

  lemma EntriesAreAmong(index: Index, disk: Disk, limit: nat, segment: nat)
    requires IndexMatches(index, disk, limit) && segment in disk
    ensures EntriesAmong(index, segment, Records(disk[segment]), |Records(disk[segment])|)
  {
    forall k | k in index && index[k].segment == segment
      ensures exists i :: 0 <= i < |Records(disk[segment])| && PutsAt(Records(disk[segment])[i], k, index[k])
    {
      var i := EntryWitness(index, disk, limit, k);
    }
  }

  /** The live bytes of a segment never exceed its complete prefix. */
  lemma LiveWithinSegment(index: Index, disk: Disk, limit: nat, segment: nat)
    requires IndexMatches(index, disk, limit) && segment in disk
    ensures LiveBytes(index, segment) <= CompletePrefixLength(disk[segment])
  {
    var c := disk[segment];
    var rs := Records(c);
    hide Records, CompletePrefixLength;
    EntriesAreAmong(index, disk, limit, segment);
    RecordsCoverCompletePrefix(c);
    LiveFits(index, segment, c, rs, |rs|);
    assert rs[..|rs|] == rs;
  }
}
