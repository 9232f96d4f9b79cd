/**
  The browser string storage (src/native/browser-string-storage.ts): namespaced keys over a
  localStorage that may be missing or throw at any call. Several namespaces, possibly nested, share
  one set of module-level maps.
 */
module BrowserStorage {
  import opened Wrappers

  datatype Override = SetTo(value: string) | Deleted

  /** What callers have done, oldest first. A reset covers every key with its prefix. */
  datatype Op = Set(key: string, value: string) | Remove(key: string) | Reset(prefix: string)

  datatype Effect = Value(value: string) | Gone

  /** The reference: the latest operation on a key decides. */
  function Latest(log: seq<Op>, k: string): Option<Effect> {
    if log == [] then None
    else
      match log[|log| - 1]
      case Set(key, value) => if key == k then Some(Value(value)) else Latest(log[..|log| - 1], k)
      case Remove(key) => if key == k then Some(Gone) else Latest(log[..|log| - 1], k)
      case Reset(prefix) => if prefix <= k then Some(Gone) else Latest(log[..|log| - 1], k)
  }

  lemma LatestSnoc(log: seq<Op>, op: Op, k: string)
    ensures Latest(log + [op], k) ==
            match op
            case Set(key, value) => (if key == k then Some(Value(value)) else Latest(log, k))
            case Remove(key) => (if key == k then Some(Gone) else Latest(log, k))
            case Reset(prefix) => (if prefix <= k then Some(Gone) else Latest(log, k))
  {
    assert (log + [op])[..|log|] == log;
  }

  predicate Sets(op: Op, k: string) {
    op.Set? && op.key == k
  }

  /** A key that a reset covers does not come back until it is set again. */
  lemma {:induction false} ResetKeyStaysGone(log: seq<Op>, prefix: string, more: seq<Op>, k: string)
    requires prefix <= k && forall i :: 0 <= i < |more| ==> !Sets(more[i], k)
    ensures Latest(log + [Reset(prefix)] + more, k) == Some(Gone)
    decreases |more|
  {
    if more == [] {
      LatestSnoc(log, Reset(prefix), k);
      assert log + [Reset(prefix)] + more == log + [Reset(prefix)];
    } else {
      var n := |more| - 1;
      ResetKeyStaysGone(log, prefix, more[..n], k);
      assert log + [Reset(prefix)] + more == (log + [Reset(prefix)] + more[..n]) + [more[n]];
      assert !Sets(more[n], k);
      LatestSnoc(log + [Reset(prefix)] + more[..n], more[n], k);
    }
  }

  function Item(items: map<string, string>, k: string): Option<string> {
    if k in items then Some(items[k]) else None
  }

  /** The module-level maps and the durable items. */
  datatype View = View(
    overrides: map<string, Override>,
    lastKnown: map<string, string>,
    keyRevisions: map<string, nat>,
    resetRevisions: map<string, nat>,
    revision: nat,
    items: map<string, string>)

  function KeyRevision(v: View, k: string): nat {
    if k in v.keyRevisions then v.keyRevisions[k] else 0
  }

  predicate Covered(v: View, k: string) {
    exists p :: p in v.resetRevisions && p <= k
  }

  /** Some reset is newer than the last write of the key. */
  predicate Hidden(v: View, k: string) {
    exists p :: p in v.resetRevisions && p <= k && KeyRevision(v, k) <= v.resetRevisions[p]
  }

  /** The maps and the items say about a key what its latest operation was. */
  predicate KeyRight(v: View, initial: map<string, string>, log: seq<Op>, k: string) {
    match Latest(log, k)
    case None =>
      k !in v.overrides && k !in v.lastKnown && !Covered(v, k) && Item(v.items, k) == Item(initial, k)
    case Some(Value(x)) =>
      && !Hidden(v, k)
      && Item(v.lastKnown, k) == Some(x)
      && (if k in v.overrides then v.overrides[k] == SetTo(x) else Item(v.items, k) == Some(x))
    case Some(Gone) =>
      || Hidden(v, k)
      || (k in v.overrides && v.overrides[k] == Deleted)
      || (k !in v.overrides && k !in v.items && k !in v.lastKnown)
  }

  /** No revision is newer than the counter. */
  predicate RevisionsCounted(v: View) {
    && (forall p :: p in v.resetRevisions ==> v.resetRevisions[p] <= v.revision)
    && (forall k :: k in v.keyRevisions ==> v.keyRevisions[k] <= v.revision)
  }

  ghost predicate AllRight(v: View, initial: map<string, string>, log: seq<Op>) {
    RevisionsCounted(v) && forall k :: KeyRight(v, initial, log, k)
  }

  /** Whether a key is hidden depends on the resets and on its own revision. */
  lemma HiddenSame(v: View, next: View, k: string)
    requires next.resetRevisions == v.resetRevisions
    ensures Covered(next, k) == Covered(v, k)
    ensures KeyRevision(next, k) == KeyRevision(v, k) ==> Hidden(next, k) == Hidden(v, k)
  {
  }

  // ------------------------------------------------------------- one key

  /** A write to a key makes it newer than every reset. */
  function Recorded(v: View, k: string): View {
    if !Covered(v, k) then v.(keyRevisions := v.keyRevisions - {k})
    else v.(revision := v.revision + 1, keyRevisions := v.keyRevisions[k := v.revision + 1])
  }

  lemma WrittenIsVisible(v: View, next: View, k: string)
    requires RevisionsCounted(v) && next.resetRevisions == v.resetRevisions
    requires if Covered(v, k) then KeyRevision(next, k) == v.revision + 1 else true
    ensures !Hidden(next, k)
  {
  }

  /** After the write of a value, durable or not. */
  function AfterSet(v: View, k: string, x: string, landed: bool): View {
    var r := Recorded(v, k).(lastKnown := v.lastKnown[k := x]);
    if landed then r.(items := v.items[k := x], overrides := v.overrides - {k})
    else r.(overrides := v.overrides[k := SetTo(x)])
  }

  function AfterRemove(v: View, k: string, landed: bool): View {
    var r := Recorded(v, k).(lastKnown := v.lastKnown - {k});
    if landed then r.(items := v.items - {k}, overrides := v.overrides - {k})
    else r.(overrides := v.overrides[k := Deleted])
  }

  /** A write leaves what other keys look like. */
  lemma OtherKeyRight(v: View, next: View, initial: map<string, string>, log: seq<Op>, op: Op, k: string)
    requires KeyRight(v, initial, log, k) && Latest(log + [op], k) == Latest(log, k)
    requires next.resetRevisions == v.resetRevisions && KeyRevision(next, k) == KeyRevision(v, k)
    requires k in next.overrides <==> k in v.overrides
    requires k in v.overrides ==> next.overrides[k] == v.overrides[k]
    requires Item(next.lastKnown, k) == Item(v.lastKnown, k) && Item(next.items, k) == Item(v.items, k)
    ensures KeyRight(next, initial, log + [op], k)
  {
    HiddenSame(v, next, k);
    hide Latest, Hidden, Covered;
  }

  lemma RecordedRevisions(v: View, k: string)
    ensures RevisionsCounted(v) ==> RevisionsCounted(Recorded(v, k))
    ensures Recorded(v, k).resetRevisions == v.resetRevisions
    ensures Covered(v, k) ==> KeyRevision(Recorded(v, k), k) == v.revision + 1
    ensures forall j :: j != k ==> KeyRevision(Recorded(v, k), j) == KeyRevision(v, j)
  {
    hide Covered;
  }

  /** Revisions are not touched by what else a write does. */
  lemma SameRevisions(v: View, next: View)
    requires next.resetRevisions == v.resetRevisions && next.keyRevisions == v.keyRevisions && next.revision == v.revision
    ensures RevisionsCounted(v) ==> RevisionsCounted(next)
    ensures forall j :: KeyRevision(next, j) == KeyRevision(v, j)
  {
  }

  lemma AfterSetFields(v: View, k: string, x: string, landed: bool)
    ensures var next := AfterSet(v, k, x, landed);
            && next.resetRevisions == v.resetRevisions
            && (Covered(v, k) ==> KeyRevision(next, k) == v.revision + 1)
            && Item(next.lastKnown, k) == Some(x)
            && (if k in next.overrides then next.overrides[k] == SetTo(x) else Item(next.items, k) == Some(x))
    ensures RevisionsCounted(v) ==> RevisionsCounted(AfterSet(v, k, x, landed))
  {
    hide Covered, Recorded, RevisionsCounted, KeyRevision;
    RecordedRevisions(v, k);
    SameRevisions(Recorded(v, k), AfterSet(v, k, x, landed));
  }

  lemma AfterSetElsewhere(v: View, k: string, x: string, landed: bool, j: string)
    requires j != k
    ensures var next := AfterSet(v, k, x, landed);
            && KeyRevision(next, j) == KeyRevision(v, j)
            && (j in next.overrides <==> j in v.overrides)
            && (j in v.overrides ==> next.overrides[j] == v.overrides[j])
            && Item(next.lastKnown, j) == Item(v.lastKnown, j) && Item(next.items, j) == Item(v.items, j)
  {
    hide Covered;
  }

  lemma SetKeepsRight(v: View, initial: map<string, string>, log: seq<Op>, k: string, x: string, landed: bool)
    requires AllRight(v, initial, log)
    ensures AllRight(AfterSet(v, k, x, landed), initial, log + [Set(k, x)])
  {
    var next := AfterSet(v, k, x, landed);
    hide KeyRight, Covered, Hidden, AfterSet, KeyRevision, Item, Latest, RevisionsCounted;
    AfterSetFields(v, k, x, landed);
    WrittenIsVisible(v, next, k);
    forall j
      ensures KeyRight(next, initial, log + [Set(k, x)], j)
    {
      LatestSnoc(log, Set(k, x), j);
      if j != k {
        AfterSetElsewhere(v, k, x, landed, j);
        OtherKeyRight(v, next, initial, log, Set(k, x), j);
      } else {
        SetKeyRight(next, initial, log + [Set(k, x)], k, x);
      }
    }
  }

  lemma SetKeyRight(next: View, initial: map<string, string>, log: seq<Op>, k: string, x: string)
    requires Latest(log, k) == Some(Value(x)) && !Hidden(next, k) && Item(next.lastKnown, k) == Some(x)
    requires if k in next.overrides then next.overrides[k] == SetTo(x) else Item(next.items, k) == Some(x)
    ensures KeyRight(next, initial, log, k)
  {
  }

  lemma GoneKeyRight(next: View, initial: map<string, string>, log: seq<Op>, k: string)
    requires Latest(log, k) == Some(Gone)
    requires || Hidden(next, k) || (k in next.overrides && next.overrides[k] == Deleted)
             || (k !in next.overrides && k !in next.items && k !in next.lastKnown)
    ensures KeyRight(next, initial, log, k)
  {
  }

  lemma AfterRemoveFields(v: View, k: string, landed: bool)
    ensures var next := AfterRemove(v, k, landed);
            && next.resetRevisions == v.resetRevisions
            && ((k in next.overrides && next.overrides[k] == Deleted)
                || (k !in next.overrides && k !in next.items && k !in next.lastKnown))
    ensures RevisionsCounted(v) ==> RevisionsCounted(AfterRemove(v, k, landed))
  {
    hide Covered, Recorded, RevisionsCounted, KeyRevision;
    RecordedRevisions(v, k);
    SameRevisions(Recorded(v, k), AfterRemove(v, k, landed));
  }

  lemma AfterRemoveElsewhere(v: View, k: string, landed: bool, j: string)
    requires j != k
    ensures var next := AfterRemove(v, k, landed);
            && KeyRevision(next, j) == KeyRevision(v, j)
            && (j in next.overrides <==> j in v.overrides)
            && (j in v.overrides ==> next.overrides[j] == v.overrides[j])
            && Item(next.lastKnown, j) == Item(v.lastKnown, j) && Item(next.items, j) == Item(v.items, j)
  {
    hide Covered;
  }

  lemma RemoveKeepsRight(v: View, initial: map<string, string>, log: seq<Op>, k: string, landed: bool)
    requires AllRight(v, initial, log)
    ensures AllRight(AfterRemove(v, k, landed), initial, log + [Remove(k)])
  {
    var next := AfterRemove(v, k, landed);
    hide KeyRight, Covered, Hidden, AfterRemove, KeyRevision, Item, Latest, RevisionsCounted;
    AfterRemoveFields(v, k, landed);
    forall j
      ensures KeyRight(next, initial, log + [Remove(k)], j)
    {
      LatestSnoc(log, Remove(k), j);
      if j != k {
        AfterRemoveElsewhere(v, k, landed, j);
        OtherKeyRight(v, next, initial, log, Remove(k), j);
      } else {
        GoneKeyRight(next, initial, log + [Remove(k)], k);
      }
    }
  }

  // --------------------------------------------------------------- a reset

  function WithPrefix<T>(m: map<string, T>, prefix: string): set<string> {
    set k | k in m && prefix <= k
  }

  /** First the reset is recorded, and everything it covers is forgotten or overridden. */
  function ResetMarked(v: View, prefix: string): View {
    v.(revision := v.revision + 1,
       resetRevisions := v.resetRevisions[prefix := v.revision + 1],
       lastKnown := v.lastKnown - WithPrefix(v.lastKnown, prefix),
       overrides := map k | k in v.overrides :: if prefix <= k then Deleted else v.overrides[k])
  }

  /** Then the durable items are removed one by one; those in `failed` could not be. */
  function ResetRemoved(v: View, keys: set<string>, failed: set<string>): View {
    var gone := keys - failed;
    v.(items := v.items - gone,
       overrides := (v.overrides - gone) + (map k | k in failed :: Deleted),
       lastKnown := v.lastKnown - gone,
       keyRevisions := v.keyRevisions - gone)
  }

  /** When all of them are gone, the reset and the narrower ones need not be remembered. */
  function ResetForgotten(v: View, prefix: string): View {
    v.(resetRevisions := v.resetRevisions - WithPrefix(v.resetRevisions, prefix))
  }

  lemma MarkedHides(v: View, prefix: string, k: string)
    requires RevisionsCounted(v)
    ensures prefix <= k ==> Hidden(ResetMarked(v, prefix), k)
    ensures !(prefix <= k) ==> Hidden(ResetMarked(v, prefix), k) == Hidden(v, k)
    ensures !(prefix <= k) ==> Covered(ResetMarked(v, prefix), k) == Covered(v, k)
  {
    var next := ResetMarked(v, prefix);
    if prefix <= k {
      assert prefix in next.resetRevisions && KeyRevision(next, k) <= next.resetRevisions[prefix];
    } else {
      if p :| p in v.resetRevisions && p <= k {
        assert p in next.resetRevisions && next.resetRevisions[p] == v.resetRevisions[p];
      }
      if Hidden(v, k) {
        var p :| p in v.resetRevisions && p <= k && KeyRevision(v, k) <= v.resetRevisions[p];
        assert p in next.resetRevisions && next.resetRevisions[p] == v.resetRevisions[p];
      }
    }
  }

  /** A reset that has only been marked: everything it covers is hidden, and nothing else changes. */
  lemma MarkedKeepsRight(v: View, initial: map<string, string>, log: seq<Op>, prefix: string)
    requires AllRight(v, initial, log)
    ensures AllRight(ResetMarked(v, prefix), initial, log + [Reset(prefix)])
    ensures forall k :: k in ResetMarked(v, prefix).lastKnown ==> !(prefix <= k)
  {
    var next := ResetMarked(v, prefix);
    hide KeyRight, Covered, Hidden;
    forall k
      ensures KeyRight(next, initial, log + [Reset(prefix)], k)
    {
      LatestSnoc(log, Reset(prefix), k);
      MarkedHides(v, prefix, k);
      if prefix <= k {
        GoneKeyRight(next, initial, log + [Reset(prefix)], k);
      } else {
        UncoveredKeyRight(v, next, initial, log, log + [Reset(prefix)], k);
      }
    }
  }

  lemma UncoveredKeyRight(v: View, next: View, initial: map<string, string>, log: seq<Op>, more: seq<Op>, k: string)
    requires KeyRight(v, initial, log, k) && Latest(more, k) == Latest(log, k)
    requires Hidden(next, k) == Hidden(v, k) && (Covered(next, k) ==> Covered(v, k))
    requires k in next.overrides <==> k in v.overrides
    requires k in v.overrides ==> next.overrides[k] == v.overrides[k]
    requires Item(next.lastKnown, k) == Item(v.lastKnown, k) && Item(next.items, k) == Item(v.items, k)
    ensures KeyRight(next, initial, more, k)
  {
    hide Latest, Hidden, Covered;
  }

  /** Removing durable items of keys that are gone keeps them gone. */
  lemma RemovedKeepsRight(v: View, initial: map<string, string>, log: seq<Op>, keys: set<string>, failed: set<string>)
    requires AllRight(v, initial, log) && failed <= keys
    requires forall k :: k in keys ==> Latest(log, k) == Some(Gone)
    ensures AllRight(ResetRemoved(v, keys, failed), initial, log)
  {
    var next := ResetRemoved(v, keys, failed);
    hide KeyRight, Covered, Hidden;
    forall k
      ensures KeyRight(next, initial, log, k)
    {
      HiddenSame(v, next, k);
      if k in keys {
        GoneKeyRight(next, initial, log, k);
      } else {
        UncoveredKeyRight(v, next, initial, log, log, k);
      }
    }
  }

  /** Once nothing of what a reset covers is left, the reset may be forgotten, and the narrower ones with it. */
  lemma ForgottenKeepsRight(v: View, initial: map<string, string>, log: seq<Op>, prefix: string)
    requires AllRight(v, initial, log)
    requires forall k :: prefix <= k ==>
               Latest(log, k) == Some(Gone) && k !in v.overrides && k !in v.items && k !in v.lastKnown
    ensures AllRight(ResetForgotten(v, prefix), initial, log)
  {
    var next := ResetForgotten(v, prefix);
    hide KeyRight;
    forall k
      ensures KeyRight(next, initial, log, k)
    {
      if prefix <= k {
        GoneKeyRight(next, initial, log, k);
      } else {
        ForgottenElsewhere(v, prefix, k);
        UncoveredKeyRight(v, next, initial, log, log, k);
      }
    }
  }

  /** A forgotten prefix starts with `prefix`, so it covers no other key. */
  lemma ForgottenElsewhere(v: View, prefix: string, k: string)
    requires !(prefix <= k)
    ensures Hidden(ResetForgotten(v, prefix), k) == Hidden(v, k)
    ensures Covered(ResetForgotten(v, prefix), k) == Covered(v, k)
  {
    var next := ResetForgotten(v, prefix);
    if p :| p in v.resetRevisions && p <= k {
      PrefixOfPrefix(prefix, p, k);
      assert p in next.resetRevisions;
    }
    if Hidden(v, k) {
      var p :| p in v.resetRevisions && p <= k && KeyRevision(v, k) <= v.resetRevisions[p];
      PrefixOfPrefix(prefix, p, k);
      assert p in next.resetRevisions && next.resetRevisions[p] == v.resetRevisions[p];
    }
  }

  lemma PrefixOfPrefix(a: string, b: string, c: string)
    requires b <= c && !(a <= c)
    ensures !(a <= b)
  {
  }

  // ------------------------------------------------------------- local storage

  /** The browser's localStorage; any call may throw, and then nothing has changed. */
  class LocalStorage {
    var items: map<string, string>
    var order: seq<string>

    /** How many calls have thrown or found no storage. */
    ghost var failures: nat

    ghost predicate Valid()
      reads this
    {
      && (forall k :: k in items <==> k in order)
      && Distinct(order)
    }

    constructor ()
      ensures Valid() && items == map[]
    {
      items, order, failures := map[], [], 0;
    }

    /** Is there a storage at all? */
    method Available() returns (ok: bool)
      modifies this`failures
      ensures failures == if ok then old(failures) else old(failures) + 1
    {
      ok := *;
      if !ok {
        failures := failures + 1;
      }
    }

    method GetItem(key: string) returns (threw: bool, value: Option<string>)
      modifies this`failures
      ensures !threw ==> value == Item(items, key)
      ensures failures == if threw then old(failures) + 1 else old(failures)
    {
      threw := *;
      if threw {
        failures := failures + 1;
      }
      value := Item(items, key);
    }

    method SetItem(key: string, value: string) returns (ok: bool)
      requires Valid()
      modifies this
      ensures Valid() && items == if ok then old(items)[key := value] else old(items)
      ensures failures == if ok then old(failures) else old(failures) + 1
    {
      ok := *;
      if !ok {
        failures := failures + 1;
      } else {
        if key !in items {
          order := order + [key];
        }
        items := items[key := value];
      }
    }

    method RemoveItem(key: string) returns (ok: bool)
      requires Valid()
      modifies this
      ensures Valid() && items == if ok then old(items) - {key} else old(items)
      ensures failures == if ok then old(failures) else old(failures) + 1
    {
      ok := *;
      if !ok {
        failures := failures + 1;
      } else {
        OmitRight(order, key);
        items := items - {key};
        order := Omit(order, key);
      }
    }

    method Length() returns (length: Option<nat>)
      modifies this`failures
      ensures length.Some? ==> length.value == |order|
      ensures failures == if length.Some? then old(failures) else old(failures) + 1
    {
      var ok: bool := *;
      if !ok {
        failures := failures + 1;
      }
      length := if ok then Some(|order|) else None;
    }

    method Key(index: nat) returns (threw: bool, key: Option<string>)
      modifies this`failures
      ensures !threw ==> key == if index < |order| then Some(order[index]) else None
      ensures failures == if threw then old(failures) + 1 else old(failures)
    {
      threw := *;
      if threw {
        failures := failures + 1;
      }
      key := if index < |order| then Some(order[index]) else None;
    }
  }

  predicate Distinct(order: seq<string>) {
    forall i, j :: 0 <= i < j < |order| ==> order[i] != order[j]
  }

  function Omit(order: seq<string>, k: string): seq<string> {
    if order == [] then []
    else if order[0] == k then Omit(order[1..], k)
    else [order[0]] + Omit(order[1..], k)
  }

  lemma {:induction false} OmitRight(order: seq<string>, k: string)
    requires Distinct(order)
    ensures forall j :: j in Omit(order, k) <==> j in order && j != k
    ensures Distinct(Omit(order, k))
  {
    if order != [] {
      OmitRight(order[1..], k);
      assert order == [order[0]] + order[1..];
      assert order[0] !in order[1..];
    }
  }
}
