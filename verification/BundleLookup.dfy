/**
  Looking up bundles by address (accelerator/core/core.c): ta_find_transaction_objects, which
  splits a request between the cache and the node, and ta_get_bundles_by_addr on top of it.
 */
module BundleLookup {
  import opened Common
  import opened Pow
  import opened Bundle

  // ----- the node -----

  function ByAddress(ledger: seq<Txn>, addr: Hash): (r: seq<Txn>)
    ensures forall t :: t in r <==> t in ledger && t.essence.address == addr
  {
    if ledger == [] then []
    else (if ledger[0].essence.address == addr then [ledger[0]] else []) + ByAddress(ledger[1..], addr)
  }

  function ByBundle(ledger: seq<Txn>, bundle: Hash): (r: seq<Txn>)
    ensures forall t :: t in r <==> t in ledger && t.essence.bundle == bundle
  {
    if ledger == [] then []
    else (if ledger[0].essence.bundle == bundle then [ledger[0]] else []) + ByBundle(ledger[1..], bundle)
  }

  function ByHash(ledger: seq<Txn>, digest: Txn -> Hash, h: Hash): (r: Option<Txn>)
    ensures r.Some? ==> r.value in ledger && digest(r.value) == h
    ensures r.None? ==> forall t :: t in ledger ==> digest(t) != h
  {
    if ledger == [] then None
    else if digest(ledger[0]) == h then Some(ledger[0])
    else ByHash(ledger[1..], digest, h)
  }

  // ----- distinct values in order of first occurrence -----

  function Distinct(s: seq<Hash>): seq<Hash> {
    if s == [] then []
    else
      var d := Distinct(s[..|s| - 1]);
      if s[|s| - 1] in d then d else d + [s[|s| - 1]]
  }

  lemma DistinctSnoc(s: seq<Hash>, x: Hash)
    ensures Distinct(s + [x]) == (if x in Distinct(s) then Distinct(s) else Distinct(s) + [x])
  {
    assert (s + [x])[..|s|] == s;
  }

  lemma DistinctNext(s: seq<Hash>, i: nat)
    requires i < |s|
    ensures Distinct(s[..i + 1]) == (if s[i] in Distinct(s[..i]) then Distinct(s[..i]) else Distinct(s[..i]) + [s[i]])
  {
    assert s[..i + 1] == s[..i] + [s[i]];
    DistinctSnoc(s[..i], s[i]);
  }

  lemma {:induction false} DistinctElements(s: seq<Hash>)
    ensures NoDup(Distinct(s))
    ensures forall x :: x in Distinct(s) <==> x in s
  {
    if s != [] {
      var p := s[..|s| - 1];
      DistinctElements(p);
      assert s == p + [s[|s| - 1]];
    }
  }

  /** Values seen earlier come earlier: the distinct values of a prefix are a prefix. */
  lemma {:induction false} DistinctPrefix(s: seq<Hash>, k: nat)
    requires k <= |s|
    ensures Distinct(s[..k]) <= Distinct(s)
  {
    if k == |s| {
      assert s[..k] == s;
    } else {
      assert s[..|s| - 1][..k] == s[..k];
      DistinctPrefix(s[..|s| - 1], k);
    }
  }

  // ----- ta_find_transaction_objects -----

  function BundlesOf(txns: seq<Txn>): (r: seq<Hash>)
    ensures |r| == |txns|
  {
    seq(|txns|, i requires 0 <= i < |txns| => txns[i].essence.bundle)
  }

  function CachedOnes(hashes: seq<Hash>, cache: map<Hash, Txn>): seq<Txn> {
    if hashes == [] then []
    else
      var h := hashes[|hashes| - 1];
      CachedOnes(hashes[..|hashes| - 1], cache) + (if h in cache then [cache[h]] else [])
  }

  function UncachedHashes(hashes: seq<Hash>, cache: map<Hash, Txn>): seq<Hash> {
    if hashes == [] then []
    else
      var h := hashes[|hashes| - 1];
      UncachedHashes(hashes[..|hashes| - 1], cache) + (if h in cache then [] else [h])
  }

  /** The loop appends the first fetched element again after every one it fetches. */
  function WithRepeats<T>(s: seq<T>): seq<T> {
    if s == [] then [] else WithRepeats(s[..|s| - 1]) + [s[|s| - 1], s[0]]
  }

  /** Each element is followed by the first one. */
  lemma {:induction false} RepeatsAt<T>(s: seq<T>, i: nat)
    requires i < |s|
    ensures |WithRepeats(s)| == 2 * |s| && WithRepeats(s)[2 * i] == s[i] && WithRepeats(s)[2 * i + 1] == s[0]
  {
    var p := s[..|s| - 1];
    if p != [] {
      RepeatsAt(p, if i < |p| then i else 0);
    }
  }

  function Fetch(hashes: seq<Hash>, ledger: seq<Txn>, digest: Txn -> Hash): (r: seq<Option<Txn>>)
    ensures |r| == |hashes|
    ensures forall i :: 0 <= i < |hashes| ==> r[i] == ByHash(ledger, digest, hashes[i])
  {
    seq(|hashes|, i requires 0 <= i < |hashes| => ByHash(ledger, digest, hashes[i]))
  }

  ghost predicate AllFound(s: seq<Option<Txn>>) {
    forall i :: 0 <= i < |s| ==> s[i].Some?
  }

  ghost function Values(s: seq<Option<Txn>>): (r: seq<Txn>)
    requires AllFound(s)
    ensures |r| == |s|
  {
    seq(|s|, i requires 0 <= i < |s| => s[i].value)
  }

  lemma {:induction false} RepeatsFound(s: seq<Option<Txn>>)
    ensures AllFound(WithRepeats(s)) <==> AllFound(s)
    ensures AllFound(s) ==> Values(WithRepeats(s)) == WithRepeats(Values(s))
  {
    if s != [] {
      var p := s[..|s| - 1];
      RepeatsFound(p);
      var w := WithRepeats(p);
      assert WithRepeats(s) == w + [s[|s| - 1], s[0]];
      if AllFound(WithRepeats(s)) {
        assert forall i :: 0 <= i < |w| ==> w[i] == WithRepeats(s)[i];
        assert WithRepeats(s)[|w|] == s[|s| - 1];
        assert forall i :: 0 <= i < |p| ==> p[i] == s[i];
      }
      if AllFound(s) {
        assert forall i :: 0 <= i < |p| ==> p[i] == s[i];
        assert Values(s)[..|s| - 1] == Values(p);
        assert Values(WithRepeats(s)) == Values(w) + [s[|s| - 1].value, s[0].value];
      }
    }
  }

  method SplitByCache(hashes: seq<Hash>, cache: map<Hash, Txn>) returns (res: seq<Txn>, pending: seq<Hash>)
    ensures res == CachedOnes(hashes, cache)
    ensures pending == UncachedHashes(hashes, cache)
  {
    res, pending := [], [];
    for i := 0 to |hashes|
      invariant res == CachedOnes(hashes[..i], cache)
      invariant pending == UncachedHashes(hashes[..i], cache)
    {
      assert hashes[..i + 1][..i] == hashes[..i];
      if hashes[i] in cache {
        res := res + [cache[hashes[i]]];
      } else {
        pending := pending + [hashes[i]];
      }
    }
    assert hashes[..|hashes|] == hashes;
  }

  method FetchPending(pending: seq<Hash>, ledger: seq<Txn>, digest: Txn -> Hash) returns (fetched: seq<Option<Txn>>)
    ensures fetched == WithRepeats(Fetch(pending, ledger, digest))
  {
    ghost var want := Fetch(pending, ledger, digest);
    fetched := [];
    for i := 0 to |pending|
      invariant fetched == WithRepeats(want[..i])
      invariant i > 0 ==> fetched != [] && fetched[0] == want[0]
    {
      assert want[..i + 1][..i] == want[..i];
      fetched := fetched + [ByHash(ledger, digest, pending[i])];
      fetched := fetched + [fetched[0]];
    }
    assert want[..|pending|] == want;
  }

  method FindTransactionObjects(hashes: seq<Hash>, cache: map<Hash, Txn>, ledger: seq<Txn>, digest: Txn -> Hash)
      returns (status: Status, res: seq<Txn>)
    ensures var fetched := Fetch(UncachedHashes(hashes, cache), ledger, digest);
            if AllFound(fetched)
            then status == Ok && res == CachedOnes(hashes, cache) + WithRepeats(Values(fetched))
            else status == NotFound
  {
    var pending;
    res, pending := SplitByCache(hashes, cache);
    var fetched := FetchPending(pending, ledger, digest);
    RepeatsFound(Fetch(pending, ledger, digest));
    ghost var cached := res;
    for i := 0 to |fetched|
      invariant AllFound(fetched[..i])
      invariant res == cached + Values(fetched[..i])
    {
      if fetched[i].None? {
        return NotFound, res;
      }
      assert Values(fetched[..i + 1]) == Values(fetched[..i]) + [fetched[i].value];
      res := res + [fetched[i].value];
    }
    assert fetched[..|fetched|] == fetched;
    status := Ok;
  }

  /** A value seen before adds nothing. */
  lemma DistinctRepeat(s: seq<Hash>, x: Hash)
    requires x in s
    ensures Distinct(s + [x]) == Distinct(s)
  {
    DistinctSnoc(s, x);
    DistinctElements(s);
  }

  lemma DistinctOneMore(u: seq<Hash>, v: seq<Hash>, x: Hash, again: Hash)
    requires Distinct(u) == Distinct(v) && again in u + [x]
    ensures Distinct((u + [x]) + [again]) == Distinct(v + [x])
  {
    DistinctSnoc(u, x);
    DistinctSnoc(v, x);
    DistinctRepeat(u + [x], again);
  }

  /** The value that is repeated has been seen by then. */
  lemma RepeatSeen(a: seq<Hash>, b: seq<Hash>)
    requires b != []
    ensures b[0] in (a + WithRepeats(b[..|b| - 1])) + [b[|b| - 1]]
  {
    var p := b[..|b| - 1];
    if p != [] {
      assert p[0] == b[0] && p[0] in WithRepeats(p);
    }
  }

  lemma RepeatConcat(a: seq<Hash>, b: seq<Hash>)
    requires b != []
    ensures var p, x := b[..|b| - 1], b[|b| - 1];
            a + WithRepeats(b) == ((a + WithRepeats(p)) + [x]) + [b[0]] && a + b == (a + p) + [x]
  {
  }

  /** The last fetched value and the repeat that comes with it. */
  lemma RepeatStep(a: seq<Hash>, b: seq<Hash>)
    requires b != [] && Distinct(a + WithRepeats(b[..|b| - 1])) == Distinct(a + b[..|b| - 1])
    ensures Distinct(a + WithRepeats(b)) == Distinct(a + b)
  {
    var p, x := b[..|b| - 1], b[|b| - 1];
    RepeatSeen(a, b);
    DistinctOneMore(a + WithRepeats(p), a + p, x, b[0]);
    RepeatConcat(a, b);
  }

  /** Repeating the first fetched value adds no distinct value and moves none. */
  lemma {:induction false} RepeatsAreInvisible(a: seq<Hash>, b: seq<Hash>)
    ensures Distinct(a + WithRepeats(b)) == Distinct(a + b)
    decreases |b|
  {
    if b == [] {
      assert a + WithRepeats(b) == a + b;
    } else {
      RepeatsAreInvisible(a, b[..|b| - 1]);
      RepeatStep(a, b);
    }
  }

  lemma BundlesOfConcat(a: seq<Txn>, b: seq<Txn>)
    ensures BundlesOf(a + b) == BundlesOf(a) + BundlesOf(b)
  {
  }

  lemma {:induction false} BundlesOfRepeats(s: seq<Txn>)
    ensures BundlesOf(WithRepeats(s)) == WithRepeats(BundlesOf(s))
  {
    if s != [] {
      var p := s[..|s| - 1];
      BundlesOfRepeats(p);
      assert BundlesOf(s)[..|s| - 1] == BundlesOf(p);
      BundlesOfConcat(WithRepeats(p), [s[|s| - 1], s[0]]);
      assert BundlesOf([s[|s| - 1], s[0]]) == [BundlesOf(s)[|s| - 1], BundlesOf(s)[0]];
    }
  }

  // ----- ta_get_bundles_by_addr -----

  /** Every transaction the node and the cache both hold is the same in both. */
  ghost predicate Coherent(cache: map<Hash, Txn>, ledger: seq<Txn>, digest: Txn -> Hash) {
    forall t :: t in ledger && digest(t) in cache ==> cache[digest(t)] == t
  }

  function HashesOf(txns: seq<Txn>, digest: Txn -> Hash): (r: seq<Hash>)
    ensures |r| == |txns|
  {
    seq(|txns|, i requires 0 <= i < |txns| => digest(txns[i]))
  }

  /** The transactions whose hash is, or is not, a key of the cache. */
  function Part(txns: seq<Txn>, cache: map<Hash, Txn>, digest: Txn -> Hash, cached: bool): (r: seq<Txn>)
    ensures forall t :: t in r <==> t in txns && (digest(t) in cache <==> cached)
  {
    if txns == [] then []
    else
      var t := txns[|txns| - 1];
      Part(txns[..|txns| - 1], cache, digest, cached) + (if digest(t) in cache <==> cached then [t] else [])
  }

  function Found(txns: seq<Txn>): (r: seq<Option<Txn>>)
    ensures |r| == |txns| && forall i :: 0 <= i < |r| ==> r[i] == Some(txns[i])
  {
    seq(|txns|, i requires 0 <= i < |txns| => Some(txns[i]))
  }

  lemma FetchSnoc(hs: seq<Hash>, h: Hash, ledger: seq<Txn>, digest: Txn -> Hash)
    ensures Fetch(hs + [h], ledger, digest) == Fetch(hs, ledger, digest) + [ByHash(ledger, digest, h)]
  {
  }

  lemma FoundSnoc(txns: seq<Txn>, t: Txn)
    ensures Found(txns + [t]) == Found(txns) + [Some(t)]
  {
  }

  lemma HashesSnoc(txns: seq<Txn>, digest: Txn -> Hash)
    requires txns != []
    ensures HashesOf(txns, digest)[|txns| - 1] == digest(txns[|txns| - 1])
    ensures HashesOf(txns, digest)[..|txns| - 1] == HashesOf(txns[..|txns| - 1], digest)
  {
  }

  /** A hash of the ledger is answered with its own transaction. */
  lemma ByOwnHash(ledger: seq<Txn>, cache: map<Hash, Txn>, digest: Txn -> Hash, t: Txn)
    requires t in ledger && Coherent(cache, ledger, digest) && InjectiveOn(digest, ledger)
    ensures ByHash(ledger, digest, digest(t)) == Some(t)
    ensures digest(t) in cache ==> cache[digest(t)] == t
  {
    assert Separates(digest, t, ByHash(ledger, digest, digest(t)).value);
  }

  /** Asking for the hashes of transactions the node holds answers with those transactions. */
  lemma {:induction false} LookupReturnsRequested(
      txns: seq<Txn>, cache: map<Hash, Txn>, ledger: seq<Txn>, digest: Txn -> Hash)
    requires forall t :: t in txns ==> t in ledger
    requires Coherent(cache, ledger, digest) && InjectiveOn(digest, ledger)
    ensures CachedOnes(HashesOf(txns, digest), cache) == Part(txns, cache, digest, true)
    ensures Fetch(UncachedHashes(HashesOf(txns, digest), cache), ledger, digest) ==
            Found(Part(txns, cache, digest, false))
  {
    if txns != [] {
      var p, t := txns[..|txns| - 1], txns[|txns| - 1];
      assert t in txns;
      LookupReturnsRequested(p, cache, ledger, digest);
      HashesSnoc(txns, digest);
      ByOwnHash(ledger, cache, digest, t);
      FetchSnoc(UncachedHashes(HashesOf(p, digest), cache), digest(t), ledger, digest);
      FoundSnoc(Part(p, cache, digest, false), t);
      var q := UncachedHashes(HashesOf(p, digest), cache);
      assert q + [] == q;
    }
  }

  /** The objects behind an address: the cached ones first, each group in the node's order. */
  ghost function ObjectsAt(ledger: seq<Txn>, cache: map<Hash, Txn>, digest: Txn -> Hash, addr: Hash): seq<Txn> {
    var hits := ByAddress(ledger, addr);
    Part(hits, cache, digest, true) + Part(hits, cache, digest, false)
  }

  ghost predicate BundleList(bundles: seq<seq<Txn>>, order: seq<Hash>, ledger: seq<Txn>, digest: Txn -> Hash) {
    |bundles| == |order| && forall i :: 0 <= i < |order| ==> ReadAs(bundles[i], order[i], ledger, digest)
  }

  /** The bundle is what get_first_bundle_from_transactions makes of the node's answer for h. */
  ghost predicate ReadAs(bundle: seq<Txn>, h: Hash, ledger: seq<Txn>, digest: Txn -> Hash) {
    SortTxns(ByBundle(ledger, h)) != [] && bundle == FirstBundle(SortTxns(ByBundle(ledger, h)), digest)
  }

  method ReadBundle(t: Txn, ledger: seq<Txn>, digest: Txn -> Hash) returns (bundle: seq<Txn>)
    requires t in ledger
    ensures ReadAs(bundle, t.essence.bundle, ledger, digest)
  {
    var h := t.essence.bundle;
    assert t in ByBundle(ledger, h);
    var first := GetFirstBundle(ByBundle(ledger, h), digest);
    bundle := first.value;
  }

  lemma BundleListSnoc(
      bundles: seq<seq<Txn>>, order: seq<Hash>, bundle: seq<Txn>, h: Hash, ledger: seq<Txn>, digest: Txn -> Hash)
    requires BundleList(bundles, order, ledger, digest) && ReadAs(bundle, h, ledger, digest)
    ensures BundleList(bundles + [bundle], order + [h], ledger, digest)
  {
  }

  /** The loop over the found objects, with its set of bundle hashes already read. */
  method ReadDistinctBundles(objects: seq<Txn>, ledger: seq<Txn>, digest: Txn -> Hash) returns (bundles: seq<seq<Txn>>)
    requires forall i :: 0 <= i < |objects| ==> objects[i] in ledger
    ensures BundleList(bundles, Distinct(BundlesOf(objects)), ledger, digest)
  {
    bundles := [];
    var seen := {};
    ghost var all := BundlesOf(objects);
    ghost var order: seq<Hash> := [];
    for i := 0 to |objects|
      invariant order == Distinct(all[..i]) && BundleList(bundles, order, ledger, digest)
      invariant forall h :: h in seen <==> h in order
    {
      var h := objects[i].essence.bundle;
      DistinctNext(all, i);
      if h !in seen {
        var bundle := ReadBundle(objects[i], ledger, digest);
        BundleListSnoc(bundles, order, bundle, h, ledger, digest);
        bundles := bundles + [bundle];
        seen := seen + {h};
        order := order + [h];
      }
    }
    assert all[..|objects|] == all;
  }

  method GetBundlesByAddr(ledger: seq<Txn>, cache: map<Hash, Txn>, digest: Txn -> Hash, addr: Hash)
      returns (status: Status, bundles: seq<seq<Txn>>)
    requires Coherent(cache, ledger, digest) && InjectiveOn(digest, ledger)
    ensures status == if exists t :: t in ledger && t.essence.address == addr then Ok else NotFound
    ensures status == Ok ==>
              BundleList(bundles, Distinct(BundlesOf(ObjectsAt(ledger, cache, digest, addr))), ledger, digest)
  {
    var hits := ByAddress(ledger, addr);
    if hits == [] {
      return NotFound, [];
    }
    assert hits[0] in hits;
    ghost var c, u := Part(hits, cache, digest, true), Part(hits, cache, digest, false);
    var objects := ObjectsOf(hits, cache, ledger, digest);
    status := Ok;
    bundles := ReadDistinctBundles(objects, ledger, digest);
    SameDistinctBundles(c, u);
  }

  /** The lookup of hashes the node has just answered with always succeeds. */
  method ObjectsOf(hits: seq<Txn>, cache: map<Hash, Txn>, ledger: seq<Txn>, digest: Txn -> Hash)
      returns (objects: seq<Txn>)
    requires forall t :: t in hits ==> t in ledger
    requires Coherent(cache, ledger, digest) && InjectiveOn(digest, ledger)
    ensures objects == Part(hits, cache, digest, true) + WithRepeats(Part(hits, cache, digest, false))
    ensures forall t :: t in objects <==> t in hits
  {
    var status;
    status, objects := FindTransactionObjects(HashesOf(hits, digest), cache, ledger, digest);
    LookupReturnsRequested(hits, cache, ledger, digest);
    ghost var u := Part(hits, cache, digest, false);
    assert Values(Found(u)) == u;
    RepeatsWithin(u);
  }

  lemma SameDistinctBundles(c: seq<Txn>, u: seq<Txn>)
    ensures Distinct(BundlesOf(c + WithRepeats(u))) == Distinct(BundlesOf(c + u))
  {
    BundlesOfConcat(c, WithRepeats(u));
    BundlesOfRepeats(u);
    RepeatsAreInvisible(BundlesOf(c), BundlesOf(u));
    BundlesOfConcat(c, u);
  }

  lemma {:induction false} RepeatsWithin(s: seq<Txn>)
    ensures forall t :: t in WithRepeats(s) <==> t in s
  {
    if s != [] {
      RepeatsWithin(s[..|s| - 1]);
      assert s == s[..|s| - 1] + [s[|s| - 1]];
    }
  }

  /** The bundle hashes answered for are those of the transactions at the address, once each. */
  lemma OrderCoversAddress(ledger: seq<Txn>, cache: map<Hash, Txn>, digest: Txn -> Hash, addr: Hash)
    ensures var order := Distinct(BundlesOf(ObjectsAt(ledger, cache, digest, addr)));
            NoDup(order) && forall h :: h in order <==> h in BundlesOf(ByAddress(ledger, addr))
  {
    var objects, hits := ObjectsAt(ledger, cache, digest, addr), ByAddress(ledger, addr);
    DistinctElements(BundlesOf(objects));
    SameBundles(objects, hits);
  }

  lemma SameBundles(a: seq<Txn>, b: seq<Txn>)
    requires forall t :: t in a <==> t in b
    ensures forall h :: h in BundlesOf(a) <==> h in BundlesOf(b)
  {
    forall h
      ensures h in BundlesOf(a) <==> h in BundlesOf(b)
    {
      BundlesOfMember(a, h);
      BundlesOfMember(b, h);
    }
  }

  lemma BundlesOfMember(a: seq<Txn>, h: Hash)
    ensures h in BundlesOf(a) <==> exists t :: t in a && t.essence.bundle == h
  {
    if h in BundlesOf(a) {
      var i :| 0 <= i < |a| && BundlesOf(a)[i] == h;
      assert a[i] in a;
    }
    if t :| t in a && t.essence.bundle == h {
      var i :| 0 <= i < |a| && a[i] == t;
      assert BundlesOf(a)[i] == h;
    }
  }

  /** If the transactions of a bundle hash on the node are complete reattachments, the bundle
      answered for it is one of them, whole. */
  lemma EachBundleIsWhole(
      ledger: seq<Txn>, digest: Txn -> Hash, bundles: seq<seq<Txn>>, order: seq<Hash>, i: nat,
      atts: seq<seq<Txn>>, n: nat)
    requires InjectiveOn(digest, ledger) && BundleList(bundles, order, ledger, digest) && i < |order|
    requires UnionOf(ByBundle(ledger, order[i]), atts) && Reattachments(atts, n, digest)
    ensures bundles[i] in atts
  {
    var bag := ByBundle(ledger, order[i]);
    SortTxnsSorts(bag);
    SortKeepsElements(SortTxns(bag), bag);
    RecoversOneAttachment(bag, SortTxns(bag), atts, n, digest);
  }
}
