/**
  Which fetch response wins (src/experiment/experimentClient.ts, storeVariants): responses for all
  flags and responses for some flags arrive in any order, and sequence numbers decide which of them
  may change the cached variants.
 */
module FetchOrdering {
  import opened Wrappers

  datatype Variant = Variant(key: string, value: string)
  type Variants = map<string, Variant>

  /** `requested` empty means that all flags were asked for. */
  datatype Response = Response(sequence: nat, requested: set<string>, variants: Variants)

  /** What the responses change: the cache, and which response each part of it came from. */
  datatype Store = Store(cache: Variants, keySequences: map<string, nat>, fullSequence: nat)

  predicate IsFull(r: Response) {
    r.requested == {}
  }

  /** The flags a response speaks about. */
  predicate Covers(r: Response, k: string) {
    IsFull(r) || k in r.requested || k in r.variants
  }

  function Lookup(m: Variants, k: string): Option<Variant> {
    if k in m then Some(m[k]) else None
  }

  // ------------------------------------------------------------ the original

  /** Variants of newer per-key responses survive an older full response. */
  function Retained(s: Store, sequence: nat): Variants {
    map k | k in s.keySequences && s.keySequences[k] > sequence && k in s.cache :: s.cache[k]
  }

  function NewerKeys(s: Store, sequence: nat): map<string, nat> {
    map k | k in s.keySequences && s.keySequences[k] > sequence :: s.keySequences[k]
  }

  function ReceiveFull(s: Store, r: Response): Store {
    if r.sequence <= s.fullSequence then s
    else Store(r.variants + Retained(s, r.sequence), NewerKeys(s, r.sequence), r.sequence)
  }

  /** The newest response that has decided about `k` so far. */
  function CoveredBy(s: Store, k: string): nat {
    var own := if k in s.keySequences then s.keySequences[k] else 0;
    if own > s.fullSequence then own else s.fullSequence
  }

  function Candidates(r: Response): set<string> {
    r.requested + r.variants.Keys
  }

  /** The flags a per-key response may still decide. */
  function Taken(s: Store, r: Response): set<string> {
    set k | k in Candidates(r) && r.sequence > CoveredBy(s, k)
  }

  function ReceiveKeys(s: Store, r: Response): Store {
    var taken := Taken(s, r);
    Store((s.cache - taken) + (map k | k in taken && k in r.variants :: r.variants[k]),
          s.keySequences + (map k | k in taken :: r.sequence),
          s.fullSequence)
  }

  function Receive(s: Store, r: Response): Store {
    if IsFull(r) then ReceiveFull(s, r) else ReceiveKeys(s, r)
  }

  function ReceiveAll(s: Store, rs: seq<Response>): Store {
    if rs == [] then s else Receive(ReceiveAll(s, rs[..|rs| - 1]), rs[|rs| - 1])
  }

  // ----------------------------------------------------------- the reference

  /** Of the responses that cover `k`, the one with the highest sequence number. */
  function Newest(rs: seq<Response>, k: string): Option<Response> {
    if rs == [] then None
    else
      var last := rs[|rs| - 1];
      var earlier := Newest(rs[..|rs| - 1], k);
      if Covers(last, k) && (earlier.None? || last.sequence > earlier.value.sequence) then Some(last) else earlier
  }

  /** What the newest response covering `k` says, or what was cached before any did. */
  function Expected(base: Store, rs: seq<Response>, k: string): Option<Variant> {
    var newest := Newest(rs, k);
    if newest.None? then Lookup(base.cache, k) else Lookup(newest.value.variants, k)
  }

  ghost predicate NewestWins(base: Store, rs: seq<Response>) {
    forall k :: Lookup(ReceiveAll(base, rs).cache, k) == Expected(base, rs, k)
  }

  /** Just invalidated: no per-key response counts, and every later response has a higher number. */
  predicate Fresh(base: Store, rs: seq<Response>) {
    && base.keySequences == map[]
    && (forall i :: 0 <= i < |rs| ==> rs[i].sequence > base.fullSequence)
    && (forall i, j :: 0 <= i < j < |rs| ==> rs[i].sequence != rs[j].sequence)
  }

  predicate Supplied(rs: seq<Response>, k: string) {
    exists i :: 0 <= i < |rs| && IsFull(rs[i]) && k in rs[i].variants
  }

  /**
    A flag is unsettled when the newest response about it is a per-key response that does not have
    it while some full response does: the full one, arriving late, brings the flag back.
   */
  predicate Unsettled(rs: seq<Response>, k: string) {
    var newest := Newest(rs, k);
    newest.Some? && !IsFull(newest.value) && k !in newest.value.variants && Supplied(rs, k)
  }

  ghost predicate Settled(rs: seq<Response>) {
    forall k :: !Unsettled(rs, k)
  }

  // ----------------------------------------------------- what the store knows

  /** Everything the store knows about one flag after the responses `rs`. */
  ghost predicate Knows(base: Store, rs: seq<Response>, s: Store, k: string) {
    var newest := Newest(rs, k);
    match newest
    case None => k !in s.keySequences && Lookup(s.cache, k) == Lookup(base.cache, k)
    case Some(r) =>
      if IsFull(r) then
        k !in s.keySequences && s.fullSequence == r.sequence && Lookup(s.cache, k) == Lookup(r.variants, k)
      else
        && k in s.keySequences && s.keySequences[k] == r.sequence > s.fullSequence
        && (k in r.variants ==> Lookup(s.cache, k) == Some(r.variants[k]))
        && (k !in r.variants && k in s.cache ==> Supplied(rs, k))
  }

  lemma {:induction false} NewestIs(rs: seq<Response>, k: string)
    ensures var newest := Newest(rs, k);
            && (newest.None? ==> forall r :: r in rs ==> !Covers(r, k))
            && (newest.Some? ==> newest.value in rs && Covers(newest.value, k)
                                 && forall r :: r in rs && Covers(r, k) ==> r.sequence <= newest.value.sequence)
    decreases |rs|
  {
    if rs != [] {
      var n := |rs| - 1;
      NewestIs(rs[..n], k);
      assert rs == rs[..n] + [rs[n]];
    }
  }

  lemma SuppliedSnoc(rs: seq<Response>, r: Response, k: string)
    ensures Supplied(rs + [r], k) <==> Supplied(rs, k) || (IsFull(r) && k in r.variants)
  {
    var all := rs + [r];
    if i :| 0 <= i < |rs| && IsFull(rs[i]) && k in rs[i].variants {
      assert all[i] == rs[i];
    }
    assert all[|rs|] == r;
  }

  lemma NewestSnoc(rs: seq<Response>, r: Response, k: string)
    ensures var earlier := Newest(rs, k);
            Newest(rs + [r], k) ==
            if Covers(r, k) && (earlier.None? || r.sequence > earlier.value.sequence) then Some(r) else earlier
  {
    assert (rs + [r])[..|rs|] == rs;
  }

  /** One more full response. */
  lemma KnowsFull(base: Store, rs: seq<Response>, s: Store, r: Response, k: string)
    requires IsFull(r) && r.sequence > base.fullSequence && s.fullSequence >= base.fullSequence
    requires Knows(base, rs, s, k)
    requires forall q :: q in rs ==> q.sequence != r.sequence
    requires r.sequence <= s.fullSequence ==> exists q :: q in rs && IsFull(q) && q.sequence == s.fullSequence
    ensures Knows(base, rs + [r], ReceiveFull(s, r), k)
  {
    NewestSnoc(rs, r, k);
    NewestIs(rs, k);
    SuppliedSnoc(rs, r, k);
    hide Newest, Supplied;
  }

  /** One more per-key response. */
  lemma KnowsKeys(base: Store, rs: seq<Response>, s: Store, r: Response, k: string)
    requires !IsFull(r) && r.sequence > base.fullSequence
    requires Knows(base, rs, s, k)
    requires forall q :: q in rs ==> q.sequence != r.sequence
    requires s.fullSequence > base.fullSequence ==> exists q :: q in rs && IsFull(q) && q.sequence == s.fullSequence
    ensures Knows(base, rs + [r], ReceiveKeys(s, r), k)
  {
    NewestSnoc(rs, r, k);
    NewestIs(rs, k);
    SuppliedSnoc(rs, r, k);
    hide Newest, Supplied;
  }

  /** The highest full response that has been received, or the last invalidation. */
  ghost predicate FullIsHighest(base: Store, rs: seq<Response>, s: Store) {
    && s.fullSequence >= base.fullSequence
    && (s.fullSequence > base.fullSequence ==> exists q :: q in rs && IsFull(q) && q.sequence == s.fullSequence)
    && (forall q :: q in rs && IsFull(q) ==> q.sequence <= s.fullSequence)
  }

  lemma FullSnoc(base: Store, rs: seq<Response>, s: Store, r: Response)
    requires FullIsHighest(base, rs, s) && r.sequence > base.fullSequence
    ensures FullIsHighest(base, rs + [r], Receive(s, r))
  {
    assert r in rs + [r];
    assert forall q :: q in rs ==> q in rs + [r];
  }

  lemma FreshPrefix(base: Store, rs: seq<Response>)
    requires Fresh(base, rs) && rs != []
    ensures Fresh(base, rs[..|rs| - 1]) && rs[|rs| - 1].sequence > base.fullSequence
    ensures forall q :: q in rs[..|rs| - 1] ==> q.sequence != rs[|rs| - 1].sequence
  {
  }

  /** After any responses in any order, the store knows what Knows says, about every flag. */
  lemma {:induction false} StoreKnows(base: Store, rs: seq<Response>)
    requires Fresh(base, rs)
    ensures FullIsHighest(base, rs, ReceiveAll(base, rs))
    ensures forall k :: Knows(base, rs, ReceiveAll(base, rs), k)
    decreases |rs|
  {
    if rs != [] {
      var init, r := rs[..|rs| - 1], rs[|rs| - 1];
      var s := ReceiveAll(base, init);
      FreshPrefix(base, rs);
      StoreKnows(base, init);
      assert rs == init + [r];
      FullSnoc(base, init, s, r);
      hide Knows, Fresh, ReceiveFull, ReceiveKeys;
      forall k
        ensures Knows(base, rs, ReceiveAll(base, rs), k)
      {
        if IsFull(r) {
          KnowsFull(base, init, s, r, k);
        } else {
          KnowsKeys(base, init, s, r, k);
        }
      }
    }
  }

  /** When every flag is settled, every flag ends with what the newest response about it says. */
  lemma SettledMeansNewestWins(base: Store, rs: seq<Response>)
    requires Fresh(base, rs) && Settled(rs)
    ensures NewestWins(base, rs)
  {
    StoreKnows(base, rs);
    var s := ReceiveAll(base, rs);
    hide ReceiveAll, Newest, Supplied, Fresh;
    forall k
      ensures Lookup(s.cache, k) == Expected(base, rs, k)
    {
      assert Knows(base, rs, s, k);
      assert !Unsettled(rs, k);
    }
  }

  // ------------------------------------------------------------ permutations

  ghost predicate Permutation(rs: seq<Response>, other: seq<Response>) {
    multiset(rs) == multiset(other)
  }

  lemma PermutationMembers(rs: seq<Response>, other: seq<Response>)
    requires Permutation(rs, other)
    ensures forall r :: r in rs <==> r in other
    ensures |rs| == |other|
  {
    forall r
      ensures r in rs <==> r in other
    {
      assert r in rs <==> r in multiset(rs);
      assert r in other <==> r in multiset(other);
    }
    assert |multiset(rs)| == |rs| && |multiset(other)| == |other|;
  }

  /** Distinct numbers stay distinct in any order. */
  lemma FreshPermutation(base: Store, rs: seq<Response>, other: seq<Response>)
    requires Fresh(base, rs) && Permutation(rs, other)
    ensures Fresh(base, other)
  {
    PermutationMembers(rs, other);
    forall i | 0 <= i < |other|
      ensures other[i].sequence > base.fullSequence
    {
      assert other[i] in rs;
    }
    forall i, j | 0 <= i < j < |other|
      ensures other[i].sequence != other[j].sequence
    {
      assert other[i] in rs && other[j] in rs;
      if other[i].sequence == other[j].sequence {
        OnceEach(base, rs, other[i], other[j]);
        TwiceInOther(other, i, j);
        AtMostOnce(base, rs, other[i]);
      }
    }
  }

  lemma OnceEach(base: Store, rs: seq<Response>, q: Response, r: Response)
    requires Fresh(base, rs) && q in rs && r in rs && q.sequence == r.sequence
    ensures q == r
  {
  }

  lemma TwiceInOther(other: seq<Response>, i: nat, j: nat)
    requires i < j < |other| && other[i] == other[j]
    ensures multiset(other)[other[i]] >= 2
  {
    assert other == other[..j] + [other[j]] + other[j + 1..];
    assert other[..j][i] == other[i];
    assert other[i] in multiset(other[..j]);
    assert multiset(other) == multiset(other[..j]) + multiset{other[j]} + multiset(other[j + 1..]);
  }

  lemma {:induction false} AtMostOnce(base: Store, rs: seq<Response>, r: Response)
    requires Fresh(base, rs)
    ensures multiset(rs)[r] <= 1
    decreases |rs|
  {
    if rs != [] {
      var init, last := rs[..|rs| - 1], rs[|rs| - 1];
      FreshPrefix(base, rs);
      AtMostOnce(base, init, r);
      assert rs == init + [last];
      if last == r {
        assert r !in init;
        assert multiset(init)[r] == 0;
      }
    }
  }

  /** The newest response about a flag does not depend on the order. */
  lemma NewestPermutation(base: Store, rs: seq<Response>, other: seq<Response>, k: string)
    requires Fresh(base, rs) && Permutation(rs, other)
    ensures Newest(rs, k) == Newest(other, k)
  {
    PermutationMembers(rs, other);
    NewestIs(rs, k);
    NewestIs(other, k);
    hide Newest;
    if Newest(rs, k).Some? && Newest(other, k).Some? {
      OnceEach(base, rs, Newest(rs, k).value, Newest(other, k).value);
    }
  }

  lemma SuppliedMember(rs: seq<Response>, k: string)
    ensures Supplied(rs, k) <==> exists r :: r in rs && IsFull(r) && k in r.variants
  {
    if r :| r in rs && IsFull(r) && k in r.variants {
      var i :| 0 <= i < |rs| && rs[i] == r;
    }
  }

  lemma SettledPermutation(base: Store, rs: seq<Response>, other: seq<Response>)
    requires Fresh(base, rs) && Permutation(rs, other) && Settled(rs)
    ensures Settled(other)
  {
    PermutationMembers(rs, other);
    forall k
      ensures !Unsettled(other, k)
    {
      NewestPermutation(base, rs, other, k);
      SuppliedMember(rs, k);
      SuppliedMember(other, k);
      hide Newest, Supplied;
      assert !Unsettled(rs, k);
    }
  }

  // ----------------------------------------------- when the newest does not win

  /** Flag `k` was dropped by `p` and brought back by the older full response `f`. */
  ghost predicate BroughtBack(s: Store, k: string, p: Response, v: Variant) {
    && k in s.keySequences && s.keySequences[k] == p.sequence > s.fullSequence
    && Lookup(s.cache, k) == Some(v)
  }

  lemma StaysBroughtBack(s: Store, k: string, p: Response, v: Variant, r: Response)
    requires BroughtBack(s, k, p, v) && (Covers(r, k) ==> r.sequence < p.sequence)
    ensures BroughtBack(Receive(s, r), k, p, v)
  {
  }

  lemma {:induction false} StaysBroughtBackAll(s: Store, k: string, p: Response, v: Variant, rs: seq<Response>)
    requires BroughtBack(s, k, p, v) && forall r :: r in rs && Covers(r, k) ==> r.sequence < p.sequence
    ensures BroughtBack(ReceiveAll(s, rs), k, p, v)
    decreases |rs|
  {
    if rs != [] {
      StaysBroughtBackAll(s, k, p, v, rs[..|rs| - 1]);
      hide BroughtBack, Receive;
      StaysBroughtBack(ReceiveAll(s, rs[..|rs| - 1]), k, p, v, rs[|rs| - 1]);
    }
  }

  lemma {:induction false} ReceiveAllConcat(s: Store, rs: seq<Response>, more: seq<Response>)
    ensures ReceiveAll(s, rs + more) == ReceiveAll(ReceiveAll(s, rs), more)
    decreases |more|
  {
    if more == [] {
      assert rs + more == rs;
    } else {
      var n := |more| - 1;
      ReceiveAllConcat(s, rs, more[..n]);
      assert (rs + more)[..|rs + more| - 1] == rs + more[..n];
    }
  }

  /** The flag dropped first, brought back next. */
  lemma BringBack(base: Store, k: string, p: Response, f: Response)
    requires base.keySequences == map[] && !IsFull(p) && Covers(p, k) && k !in p.variants
    requires IsFull(f) && k in f.variants && base.fullSequence < f.sequence < p.sequence
    ensures BroughtBack(ReceiveAll(base, [p, f]), k, p, f.variants[k])
  {
    assert [p, f][..1] == [p] && [p][..0] == [];
    assert ReceiveAll(base, [p]) == Receive(base, p);
  }

  function RemoveOne(rs: seq<Response>, r: Response): (rest: seq<Response>)
    requires r in rs
    ensures multiset(rest) == multiset(rs) - multiset{r}
  {
    if rs[0] == r then
      assert rs == [rs[0]] + rs[1..];
      rs[1..]
    else
      assert rs == [rs[0]] + rs[1..];
      [rs[0]] + RemoveOne(rs[1..], r)
  }

  /** An unsettled flag: in some order of arrival it ends wrong. */
  lemma UnsettledEndsWrong(base: Store, rs: seq<Response>, k: string) returns (order: seq<Response>)
    requires Fresh(base, rs) && Unsettled(rs, k)
    ensures Permutation(rs, order) && !NewestWins(base, order)
  {
    var p := Newest(rs, k).value;
    NewestIs(rs, k);
    SuppliedMember(rs, k);
    var f :| f in rs && IsFull(f) && k in f.variants;
    FullIsOlder(base, rs, k, p, f);
    hide Newest, Supplied, NewestWins, Fresh, Permutation;
    var rest := PutFirst(rs, p, f);
    order := [p, f] + rest;
    OrderEndsWrong(base, rs, k, p, f, rest, order);
  }

  lemma PutFirst(rs: seq<Response>, p: Response, f: Response) returns (rest: seq<Response>)
    requires p in rs && f in rs && p != f
    ensures Permutation(rs, [p, f] + rest)
  {
    var withoutP := RemoveOne(rs, p);
    assert f in multiset(withoutP);
    rest := RemoveOne(withoutP, f);
    assert multiset([p, f] + rest) == multiset{p, f} + multiset(rest);
  }

  lemma FullIsOlder(base: Store, rs: seq<Response>, k: string, p: Response, f: Response)
    requires Fresh(base, rs) && p in rs && f in rs && !IsFull(p) && IsFull(f)
    requires forall r :: r in rs && Covers(r, k) ==> r.sequence <= p.sequence
    ensures base.fullSequence < f.sequence < p.sequence
  {
    if f.sequence == p.sequence {
      OnceEach(base, rs, f, p);
    }
  }

  lemma OrderEndsWrong(base: Store, rs: seq<Response>, k: string, p: Response, f: Response, rest: seq<Response>, order: seq<Response>)
    requires Fresh(base, rs) && Permutation(rs, order) && order == [p, f] + rest
    requires Newest(rs, k) == Some(p) && !IsFull(p) && Covers(p, k) && k !in p.variants
    requires IsFull(f) && k in f.variants && base.fullSequence < f.sequence < p.sequence
    ensures !NewestWins(base, order)
  {
    FreshPermutation(base, rs, order);
    NewestPermutation(base, rs, order, k);
    NewestIs(order, k);
    BringBack(base, k, p, f);
    forall r | r in rest && Covers(r, k)
      ensures r.sequence < p.sequence
    {
      assert r in order;
      var i :| 0 <= i < |rest| && rest[i] == r;
      assert order[i + 2] == r && order[0] == p;
    }
    hide Newest, Receive;
    StaysBroughtBackAll(ReceiveAll(base, [p, f]), k, p, f.variants[k], rest);
    ReceiveAllConcat(base, [p, f], rest);
    assert Lookup(ReceiveAll(base, order).cache, k) == Some(f.variants[k]);
    assert Expected(base, order, k) == None;
  }

  /**
    Newest wins in every order of arrival exactly when no flag is unsettled. In particular it does
    whenever every per-key response has all the flags that were asked for.
   */
  lemma NewestWinsIffSettled(base: Store, rs: seq<Response>)
    requires Fresh(base, rs)
    ensures Settled(rs) <==> forall other :: Permutation(rs, other) ==> NewestWins(base, other)
  {
    if Settled(rs) {
      forall other | Permutation(rs, other)
        ensures NewestWins(base, other)
      {
        FreshPermutation(base, rs, other);
        SettledPermutation(base, rs, other);
        SettledMeansNewestWins(base, other);
      }
    } else {
      hide Fresh, NewestWins;
      var k :| Unsettled(rs, k);
      var order := UnsettledEndsWrong(base, rs, k);
    }
  }

  /** So the cache depends on the set of responses and not on their order. */
  lemma OrderDoesNotMatter(base: Store, rs: seq<Response>, other: seq<Response>)
    requires Fresh(base, rs) && Settled(rs) && Permutation(rs, other)
    ensures ReceiveAll(base, rs).cache == ReceiveAll(base, other).cache
  {
    FreshPermutation(base, rs, other);
    SettledPermutation(base, rs, other);
    SettledMeansNewestWins(base, rs);
    SettledMeansNewestWins(base, other);
    var m1, m2 := ReceiveAll(base, rs).cache, ReceiveAll(base, other).cache;
    forall k
      ensures Lookup(m1, k) == Lookup(m2, k)
    {
      NewestPermutation(base, rs, other, k);
      hide Newest, ReceiveAll, Fresh;
    }
    hide ReceiveAll, Fresh, Settled, NewestWins;
    SameLookups(m1, m2);
  }

  lemma SameLookups(m1: Variants, m2: Variants)
    requires forall k :: Lookup(m1, k) == Lookup(m2, k)
    ensures m1 == m2
  {
    forall k
      ensures k in m1 <==> k in m2
      ensures k in m1 ==> m1[k] == m2[k]
    {
      assert Lookup(m1, k) == Lookup(m2, k);
    }
  }

  /** Responses that have every flag they were asked for leave no flag unsettled. */
  lemma CompleteResponsesSettle(rs: seq<Response>)
    requires forall r :: r in rs ==> r.requested <= r.variants.Keys
    ensures Settled(rs)
  {
    forall k
      ensures !Unsettled(rs, k)
    {
      NewestIs(rs, k);
      hide Newest, Supplied;
    }
  }

  const EMPTY_STORE: Store := Store(map[], map[], 0)
  const ALL_FLAGS: Response := Response(1, {}, map["f" := Variant("on", "on")])
  const ONE_FLAG: Response := Response(2, {"f"}, map[])

  /** A concrete run in which it does not: flag "f" is gone in the newest answer and yet comes back. */
  lemma DroppedFlagComesBack()
    ensures Fresh(EMPTY_STORE, [ONE_FLAG, ALL_FLAGS])
    ensures "f" in ReceiveAll(EMPTY_STORE, [ONE_FLAG, ALL_FLAGS]).cache
    ensures "f" !in ReceiveAll(EMPTY_STORE, [ALL_FLAGS, ONE_FLAG]).cache
  {
    assert !IsFull(ONE_FLAG) && Covers(ONE_FLAG, "f") by {
      assert "f" in ONE_FLAG.requested;
    }
    BringBack(EMPTY_STORE, "f", ONE_FLAG, ALL_FLAGS);
    hide ReceiveAll;
    ReceiveTwo(EMPTY_STORE, ALL_FLAGS, ONE_FLAG);
    var s := Receive(EMPTY_STORE, ALL_FLAGS);
    assert s.fullSequence == 1 && s.keySequences == map[];
    assert "f" in Taken(s, ONE_FLAG);
  }

  lemma ReceiveTwo(s: Store, q: Response, r: Response)
    ensures ReceiveAll(s, [q, r]) == Receive(Receive(s, q), r)
  {
    assert [q, r][..1] == [q] && [q][..0] == [];
    assert ReceiveAll(s, [q]) == Receive(s, q);
  }

  /** A response from before the last full response, or the last invalidation, is ignored. */
  lemma StaleIsIgnored(s: Store, r: Response)
    requires r.sequence <= s.fullSequence
    ensures Receive(s, r) == s
  {
    if !IsFull(r) {
      assert Taken(s, r) == {};
    }
  }
}
