/**
  What a directory of segment files means: replay every record of every segment, in id order,
  into a map. A reader ignores records longer than its record limit.

  Proofs about the replay go key by key: the value of a key is decided by the highest segment
  that mentions it, and inside that segment by the last record about it.
 */
module Replay {
  import opened Wrappers
  import opened SegmentCodec

  /** Physical content of the segment files, by segment id. */
  type Disk = map<nat, Bytes>

  type Contents = map<Bytes, Bytes>

  function Lookup<V>(m: map<Bytes, V>, k: Bytes): Option<V> {
    if k in m then Some(m[k]) else None
  }

  // --------------------------------------------------------- reference replay

  function ApplyRec(m: Contents, r: Rec, limit: nat): Contents {
    if r.length > limit then m
    else
      match r.op
      case Put(k, v) => m[k := v]
      case Del(k) => m - {k}
      case Skip => m
  }

  function ApplyRecs(m: Contents, rs: seq<Rec>, limit: nat): Contents {
    if rs == [] then m
    else ApplyRec(ApplyRecs(m, rs[..|rs| - 1], limit), rs[|rs| - 1], limit)
  }

  lemma {:induction false} MaxExists(ids: set<nat>)
    requires ids != {}
    ensures exists m :: m in ids && forall j :: j in ids ==> j <= m
    decreases |ids|
  {
    var x :| x in ids;
    if ids - {x} == {} {
      assert ids == {x};
    } else {
      var rest := ids - {x};
      MaxExists(rest);
      var m :| m in rest && forall j :: j in rest ==> j <= m;
      var top := if x < m then m else x;
      forall j | j in ids
        ensures j <= top
      {
        assert j == x || j in rest;
      }
      assert top in ids;
    }
  }

  ghost function MaxId(ids: set<nat>): (m: nat)
    requires ids != {}
    ensures m in ids
    ensures forall j :: j in ids ==> j <= m
  {
    MaxExists(ids);
    var m :| m in ids && forall j :: j in ids ==> j <= m;
    m
  }

  ghost function Replayed(disk: Disk, limit: nat): Contents
    decreases disk.Keys
  {
    if disk == map[] then map[]
    else
      var top := MaxId(disk.Keys);
      assert (disk - {top}).Keys == disk.Keys - {top};
      ApplyRecs(Replayed(disk - {top}, limit), Records(disk[top]), limit)
  }

  // ------------------------------------------------------------------ effects

  /** The last thing a run of records says about one key. */
  datatype Effect = Untouched | Sets(value: Bytes, offset: nat, length: nat) | Erases

  function Effect1(r: Rec, k: Bytes, limit: nat): Effect {
    if r.length > limit then Untouched
    else
      match r.op
      case Put(key, v) => if key == k then Sets(v, r.offset, r.length) else Untouched
      case Del(key) => if key == k then Erases else Untouched
      case Skip => Untouched
  }

  function Over(later: Effect, earlier: Effect): Effect {
    if later.Untouched? then earlier else later
  }

  function EffectOf(rs: seq<Rec>, k: Bytes, limit: nat): Effect {
    if rs == [] then Untouched
    else Over(Effect1(rs[|rs| - 1], k, limit), EffectOf(rs[..|rs| - 1], k, limit))
  }

  function MoveEffect(e: Effect, base: nat): Effect {
    if e.Sets? then e.(offset := e.offset + base) else e
  }

  lemma EffectSnoc(rs: seq<Rec>, r: Rec, k: Bytes, limit: nat)
    ensures EffectOf(rs + [r], k, limit) == Over(Effect1(r, k, limit), EffectOf(rs, k, limit))
  {
    assert (rs + [r])[..|rs|] == rs;
  }

  lemma {:induction false} EffectConcat(a: seq<Rec>, b: seq<Rec>, k: Bytes, limit: nat)
    ensures EffectOf(a + b, k, limit) == Over(EffectOf(b, k, limit), EffectOf(a, k, limit))
  {
    if b == [] {
      assert a + b == a;
    } else {
      var init, last := b[..|b| - 1], b[|b| - 1];
      EffectConcat(a, init, k, limit);
      assert a + b == (a + init) + [last];
      EffectSnoc(a + init, last, k, limit);
    }
  }

  lemma {:induction false} EffectShift(rs: seq<Rec>, base: nat, k: Bytes, limit: nat)
    ensures EffectOf(Shift(rs, base), k, limit) == MoveEffect(EffectOf(rs, k, limit), base)
  {
    if rs != [] {
      var init := rs[..|rs| - 1];
      EffectShift(init, base, k, limit);
      assert Shift(rs, base)[..|rs| - 1] == Shift(init, base);
    }
  }

  /** Where an effect comes from: one record about the key, with only silent records after it. */
  lemma {:induction false} EffectWitness(rs: seq<Rec>, k: Bytes, limit: nat) returns (i: nat)
    requires !EffectOf(rs, k, limit).Untouched?
    ensures i < |rs| && Effect1(rs[i], k, limit) == EffectOf(rs, k, limit)
  {
    var last := |rs| - 1;
    if Effect1(rs[last], k, limit).Untouched? {
      i := EffectWitness(rs[..last], k, limit);
    } else {
      i := last;
    }
  }

  lemma {:induction false} EffectSeen(rs: seq<Rec>, k: Bytes, limit: nat, i: nat)
    requires i < |rs| && !Effect1(rs[i], k, limit).Untouched?
    ensures !EffectOf(rs, k, limit).Untouched?
  {
    if i < |rs| - 1 {
      EffectSeen(rs[..|rs| - 1], k, limit, i);
    }
  }

  lemma {:induction false} ApplyRecsAt(m: Contents, rs: seq<Rec>, limit: nat, k: Bytes)
    ensures Lookup(ApplyRecs(m, rs, limit), k) ==
            match EffectOf(rs, k, limit)
            case Untouched => Lookup(m, k)
            case Sets(v, _, _) => Some(v)
            case Erases => None
  {
    if rs != [] {
      ApplyRecsAt(m, rs[..|rs| - 1], limit, k);
    }
  }

  // ------------------------------------------------------------------ deciders

  function EffectIn(c: Bytes, k: Bytes, limit: nat): Effect {
    EffectOf(Records(c), k, limit)
  }

  /** What segment `id` says about key `k`; a missing segment says nothing. */
  function EffectAt(disk: Disk, id: nat, k: Bytes, limit: nat): Effect {
    if id in disk then EffectIn(disk[id], k, limit) else Untouched
  }

  /** Segment `id` mentions `k` and no higher segment does. */
  ghost predicate DecidedBy(disk: Disk, k: Bytes, limit: nat, id: nat) {
    && !EffectAt(disk, id, k, limit).Untouched?
    && forall j :: j > id ==> EffectAt(disk, j, k, limit).Untouched?
  }

  ghost function Mentioning(disk: Disk, k: Bytes, limit: nat): (ids: set<nat>)
    ensures forall id :: id in ids <==> !EffectAt(disk, id, k, limit).Untouched?
  {
    set id | id in disk && !EffectAt(disk, id, k, limit).Untouched?
  }

  ghost function Decider(disk: Disk, k: Bytes, limit: nat): (id: Option<nat>)
    ensures id.None? ==> forall j: nat :: EffectAt(disk, j, k, limit).Untouched?
    ensures id.Some? ==> DecidedBy(disk, k, limit, id.value)
  {
    var ids := Mentioning(disk, k, limit);
    if ids == {} then None else Some(MaxId(ids))
  }

  lemma DeciderIs(disk: Disk, k: Bytes, limit: nat, id: nat)
    requires DecidedBy(disk, k, limit, id)
    ensures Decider(disk, k, limit) == Some(id)
  {
    var d := Decider(disk, k, limit);
    assert d.Some?;
    assert d.value <= id;
    assert id <= d.value;
  }

  lemma DeciderSame(d1: Disk, d2: Disk, k: Bytes, limit: nat)
    requires forall j: nat :: EffectAt(d1, j, k, limit) == EffectAt(d2, j, k, limit)
    ensures Decider(d1, k, limit) == Decider(d2, k, limit)
  {
    var d := Decider(d1, k, limit);
    if d.Some? {
      assert DecidedBy(d2, k, limit, d.value);
      DeciderIs(d2, k, limit, d.value);
    }
  }

  function ValueOf(e: Effect): Option<Bytes> {
    if e.Sets? then Some(e.value) else None
  }

  /** The value a disk gives a key: what the deciding segment says. */
  ghost function ValueIn(disk: Disk, k: Bytes, limit: nat): Option<Bytes> {
    var d := Decider(disk, k, limit);
    if d.None? then None else ValueOf(EffectAt(disk, d.value, k, limit))
  }

  lemma ValueDecided(disk: Disk, k: Bytes, limit: nat, id: nat)
    requires DecidedBy(disk, k, limit, id)
    ensures ValueIn(disk, k, limit) == ValueOf(EffectAt(disk, id, k, limit))
  {
    DeciderIs(disk, k, limit, id);
  }

  /** The key-wise reading is the reference replay. */
  lemma {:induction false} ReplayedAt(disk: Disk, limit: nat, k: Bytes)
    ensures Lookup(Replayed(disk, limit), k) == ValueIn(disk, k, limit)
    decreases disk.Keys
  {
    if disk != map[] {
      hide EffectIn, ApplyRecs;
      var top := MaxId(disk.Keys);
      var rest := disk - {top};
      assert rest.Keys == disk.Keys - {top};
      ReplayedAt(rest, limit, k);
      ApplyRecsAt(Replayed(rest, limit), Records(disk[top]), limit, k);
      EffectInIs(disk[top], k, limit);
      if EffectAt(disk, top, k, limit).Untouched? {
        assert forall j: nat :: EffectAt(disk, j, k, limit) == EffectAt(rest, j, k, limit);
        DeciderSame(disk, rest, k, limit);
      } else {
        assert DecidedBy(disk, k, limit, top);
        ValueDecided(disk, k, limit, top);
      }
    }
  }

  lemma EffectInIs(c: Bytes, k: Bytes, limit: nat)
    ensures EffectIn(c, k, limit) == EffectOf(Records(c), k, limit)
  {
  }

  /** Two disks that give every key the same value replay to the same map. */
  lemma SameReplay(d1: Disk, d2: Disk, limit: nat)
    requires forall k :: ValueIn(d1, k, limit) == ValueIn(d2, k, limit)
    ensures Replayed(d1, limit) == Replayed(d2, limit)
  {
    hide Replayed, ValueIn;
    var m1, m2 := Replayed(d1, limit), Replayed(d2, limit);
    forall k
      ensures Lookup(m1, k) == Lookup(m2, k)
    {
      ReplayedAt(d1, limit, k);
      ReplayedAt(d2, limit, k);
    }
    SameLookups(m1, m2);
  }

  lemma SameLookups<V>(m1: map<Bytes, V>, m2: map<Bytes, V>)
    requires forall k :: Lookup(m1, k) == Lookup(m2, k)
    ensures m1 == m2
  {
    forall k
      ensures k in m1 <==> k in m2
      ensures k in m1 ==> k in m2 && m1[k] == m2[k]
    {
      assert Lookup(m1, k) == Lookup(m2, k);
    }
  }

  /** What changes when one key changes. */
  lemma ReplayUpdate(d1: Disk, d2: Disk, limit: nat, key: Bytes, value: Option<Bytes>)
    requires forall k :: ValueIn(d2, k, limit) == if k == key then value else ValueIn(d1, k, limit)
    ensures value.Some? ==> Replayed(d2, limit) == Replayed(d1, limit)[key := value.value]
    ensures value.None? ==> Replayed(d2, limit) == Replayed(d1, limit) - {key}
  {
    hide Replayed, ValueIn;
    var m1, m2 := Replayed(d1, limit), Replayed(d2, limit);
    var m := if value.Some? then m1[key := value.value] else m1 - {key};
    forall k
      ensures Lookup(m2, k) == Lookup(m, k)
    {
      ReplayedAt(d1, limit, k);
      ReplayedAt(d2, limit, k);
    }
    SameLookups(m2, m);
  }
}
