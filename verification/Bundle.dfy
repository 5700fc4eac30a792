/**
  Reading bundles back (accelerator/core/core.c): a node answers with every transaction of a
  bundle hash, reattachments included and in no particular order; the reader sorts them by
  index and walks the trunk chain from the first.
 */
module Bundle {
  import opened Common
  import opened Pow

  // ----- sorting by index -----

  /** The comparator idx_sort orders by current index only, so ties may come out in any order. */
  ghost predicate SortedByIndex(s: seq<Txn>) {
    forall i, j :: 0 <= i < j < |s| ==> s[i].essence.currentIndex <= s[j].essence.currentIndex
  }

  ghost predicate IsSortOf(s: seq<Txn>, txns: seq<Txn>) {
    SortedByIndex(s) && multiset(s) == multiset(txns)
  }

  function Insert(t: Txn, s: seq<Txn>): seq<Txn> {
    if s == [] || t.essence.currentIndex <= s[0].essence.currentIndex then [t] + s
    else [s[0]] + Insert(t, s[1..])
  }

  function SortTxns(s: seq<Txn>): seq<Txn> {
    if s == [] then [] else Insert(s[0], SortTxns(s[1..]))
  }

  lemma {:induction false} InsertMultiset(t: Txn, s: seq<Txn>)
    ensures multiset(Insert(t, s)) == multiset{t} + multiset(s)
  {
    if s == [] || t.essence.currentIndex <= s[0].essence.currentIndex {
    } else {
      InsertMultiset(t, s[1..]);
      assert s == [s[0]] + s[1..];
    }
  }

  /** No transaction has an index below m. */
  ghost predicate AtLeast(s: seq<Txn>, m: nat) {
    forall i :: 0 <= i < |s| ==> m <= s[i].essence.currentIndex
  }

  lemma {:induction false} InsertAtLeast(t: Txn, s: seq<Txn>, m: nat)
    requires AtLeast(s, m) && m <= t.essence.currentIndex
    ensures AtLeast(Insert(t, s), m)
  {
    if s == [] || t.essence.currentIndex <= s[0].essence.currentIndex {
    } else {
      InsertAtLeast(t, s[1..], m);
    }
  }

  lemma SortedCons(t: Txn, s: seq<Txn>)
    requires SortedByIndex(s) && AtLeast(s, t.essence.currentIndex)
    ensures SortedByIndex([t] + s)
  {
  }

  lemma {:induction false} InsertSorted(t: Txn, s: seq<Txn>)
    requires SortedByIndex(s)
    ensures SortedByIndex(Insert(t, s))
  {
    if s == [] || t.essence.currentIndex <= s[0].essence.currentIndex {
      SortedCons(t, s);
    } else {
      InsertSorted(t, s[1..]);
      InsertAtLeast(t, s[1..], s[0].essence.currentIndex);
      SortedCons(s[0], Insert(t, s[1..]));
    }
  }

  lemma {:induction false} SortTxnsSorts(s: seq<Txn>)
    ensures IsSortOf(SortTxns(s), s)
  {
    if s != [] {
      SortTxnsSorts(s[1..]);
      InsertSorted(s[0], SortTxns(s[1..]));
      InsertMultiset(s[0], SortTxns(s[1..]));
      assert [s[0]] + s[1..] == s;
    }
  }

  lemma SortKeepsElements(s: seq<Txn>, txns: seq<Txn>)
    requires IsSortOf(s, txns)
    ensures forall t :: t in s <==> t in txns
    ensures |s| == |txns|
  {
    forall t
      ensures t in s <==> t in txns
    {
      assert t in s <==> t in multiset(s);
      assert t in txns <==> t in multiset(txns);
    }
    assert |multiset(s)| == |s| && |multiset(txns)| == |txns|;
  }

  // ----- the walk -----

  predicate Follows(prev: Txn, t: Txn, digest: Txn -> Hash) {
    t.essence.currentIndex == prev.essence.currentIndex + 1 && digest(t) == prev.trunk
  }

  function Walk(s: seq<Txn>, prev: Txn, digest: Txn -> Hash): seq<Txn> {
    if s == [] then []
    else if Follows(prev, s[0], digest) then [s[0]] + Walk(s[1..], s[0], digest)
    else Walk(s[1..], prev, digest)
  }

  function FirstBundle(sorted: seq<Txn>, digest: Txn -> Hash): seq<Txn>
    requires sorted != []
  {
    [sorted[0]] + Walk(sorted, sorted[0], digest)
  }

  method WalkSorted(sorted: seq<Txn>, digest: Txn -> Hash) returns (bundle: seq<Txn>)
    requires sorted != []
    ensures bundle == FirstBundle(sorted, digest)
  {
    var prev := sorted[0];
    bundle := [prev];
    for i := 0 to |sorted|
      invariant bundle + Walk(sorted[i..], prev, digest) == FirstBundle(sorted, digest)
    {
      var curr := sorted[i];
      ghost var rest := sorted[i + 1..];
      assert sorted[i..] == [curr] + rest;
      if curr.essence.currentIndex == prev.essence.currentIndex + 1 && digest(curr) == prev.trunk {
        assert bundle + ([curr] + Walk(rest, curr, digest)) == (bundle + [curr]) + Walk(rest, curr, digest);
        bundle := bundle + [curr];
        prev := curr;
      }
    }
    assert sorted[|sorted|..] == [];
  }

  /** get_first_bundle_from_transactions; with no transactions there is no first one to read. */
  method GetFirstBundle(txns: seq<Txn>, digest: Txn -> Hash) returns (bundle: Option<seq<Txn>>)
    ensures bundle.None? <==> txns == []
    ensures txns != [] ==> SortTxns(txns) != [] && bundle == Some(FirstBundle(SortTxns(txns), digest))
  {
    if txns == [] {
      return None;
    }
    SortTxnsSorts(txns);
    SortKeepsElements(SortTxns(txns), txns);
    var first := WalkSorted(SortTxns(txns), digest);
    return Some(first);
  }

  ghost predicate Separates(digest: Txn -> Hash, t: Txn, u: Txn) {
    digest(t) == digest(u) ==> t == u
  }

  ghost predicate InjectiveOn(digest: Txn -> Hash, txns: seq<Txn>) {
    forall t, u {:trigger Separates(digest, t, u)} :: t in txns && u in txns ==> Separates(digest, t, u)
  }

  /** Every transaction of the bag belongs to one of the attachments, and the other way round. */
  ghost predicate UnionOf(bag: seq<Txn>, atts: seq<seq<Txn>>) {
    && (forall t :: t in bag ==> exists j :: 0 <= j < |atts| && t in atts[j])
    && (forall j, t :: 0 <= j < |atts| && t in atts[j] ==> t in bag)
  }

  /** Reattachments of one bundle: complete chains of one length. */
  ghost predicate Reattachments(atts: seq<seq<Txn>>, n: nat, digest: Txn -> Hash) {
    forall j :: 0 <= j < |atts| ==> |atts[j]| == n && IsAttachment(atts[j], digest)
  }

  lemma MatchIsNext(att: seq<Txn>, p: nat, t: Txn, bag: seq<Txn>, digest: Txn -> Hash)
    requires IsAttachment(att, digest) && InjectiveOn(digest, bag) && p < |att|
    requires Follows(att[p], t, digest) && t in bag && t.essence.currentIndex < |att|
    requires p + 1 < |att| ==> att[p + 1] in bag
    ensures p + 1 < |att| && t == att[p + 1]
  {
    assert t.essence.currentIndex == p + 1;
    assert Separates(digest, t, att[p + 1]);
  }

  /** Dropping the head of a sorted remainder keeps every later member of the chain, except the
      next one if it was the head. */
  lemma TailKeepsChain(s: seq<Txn>, att: seq<Txn>, digest: Txn -> Hash, p: nat, q: nat)
    requires SortedByIndex(s) && IsAttachment(att, digest) && p + 1 <= q < |att|
    requires att[p + 1] in s && att[q] in s && (q == p + 1 ==> s[0] != att[q])
    ensures att[q] in s[1..]
  {
    var z :| 0 <= z < |s| && s[z] == att[p + 1];
    assert s[0].essence.currentIndex <= p + 1;
    var y :| 0 <= y < |s| && s[y] == att[q];
    assert y != 0;
    assert s[1..][y - 1] == att[q];
  }

  /** Everything in s is in the bag and has an index below n. */
  ghost predicate Within(s: seq<Txn>, bag: seq<Txn>, n: nat) {
    forall i :: 0 <= i < |s| ==> s[i] in bag && s[i].essence.currentIndex < n
  }

  /** Everything of att after p is in s. */
  ghost predicate HoldsRest(s: seq<Txn>, att: seq<Txn>, p: nat) {
    forall q :: p < q < |att| ==> att[q] in s
  }

  lemma RestInTail(s: seq<Txn>, att: seq<Txn>, p: nat, p': nat, digest: Txn -> Hash)
    requires SortedByIndex(s) && IsAttachment(att, digest) && p + 1 < |att| && HoldsRest(s, att, p)
    requires s != [] && p' == if s[0] == att[p + 1] then p + 1 else p
    ensures HoldsRest(s[1..], att, p')
  {
    forall q | p' < q < |att|
      ensures att[q] in s[1..]
    {
      TailKeepsChain(s, att, digest, p, q);
    }
  }

  lemma TailSorted(s: seq<Txn>, bag: seq<Txn>, n: nat)
    requires s != [] && SortedByIndex(s) && Within(s, bag, n)
    ensures SortedByIndex(s[1..]) && Within(s[1..], bag, n)
  {
  }

  lemma {:induction false} WalkEnds(s: seq<Txn>, last: Txn, bag: seq<Txn>, n: nat, digest: Txn -> Hash)
    requires Within(s, bag, n) && last.essence.currentIndex + 1 == n
    ensures Walk(s, last, digest) == []
  {
    if s != [] {
      WalkEnds(s[1..], last, bag, n, digest);
    }
  }

  /** What the walk needs of the sorted remainder s while it stands at att[p]. */
  ghost predicate OnChain(s: seq<Txn>, att: seq<Txn>, p: nat, bag: seq<Txn>, digest: Txn -> Hash) {
    && SortedByIndex(s) && IsAttachment(att, digest) && p < |att|
    && InjectiveOn(digest, bag) && Within(s, bag, |att|) && HoldsRest(s, att, p)
    && forall q :: 0 <= q < |att| ==> att[q] in bag
  }

  lemma ChainStep(s: seq<Txn>, att: seq<Txn>, p: nat, bag: seq<Txn>, digest: Txn -> Hash)
    requires OnChain(s, att, p, bag, digest) && p + 1 < |att|
    ensures s != []
    ensures if Follows(att[p], s[0], digest) then s[0] == att[p + 1] && OnChain(s[1..], att, p + 1, bag, digest)
            else OnChain(s[1..], att, p, bag, digest)
  {
    assert att[p + 1] in s;
    TailSorted(s, bag, |att|);
    assert Follows(att[p], att[p + 1], digest);
    if Follows(att[p], s[0], digest) {
      MatchIsNext(att, p, s[0], bag, digest);
      RestInTail(s, att, p, p + 1, digest);
    } else {
      RestInTail(s, att, p, p, digest);
    }
  }

  /** From att[p], a sorted remainder that still holds the rest of att, and whose other
      members have indices below |att|, yields exactly the rest of att. */
  lemma {:induction false} WalkFollowsChain(s: seq<Txn>, att: seq<Txn>, p: nat, bag: seq<Txn>, digest: Txn -> Hash)
    requires OnChain(s, att, p, bag, digest)
    ensures Walk(s, att[p], digest) == att[p + 1..]
    decreases |s|
  {
    if p + 1 == |att| {
      WalkEnds(s, att[p], bag, |att|, digest);
    } else {
      ChainStep(s, att, p, bag, digest);
      if Follows(att[p], s[0], digest) {
        WalkFollowsChain(s[1..], att, p + 1, bag, digest);
        assert att[p + 1..] == [att[p + 1]] + att[p + 2..];
      } else {
        WalkFollowsChain(s[1..], att, p, bag, digest);
      }
    }
  }

  /** If the first of the sorted transactions belongs to a complete attachment, that attachment
      comes back, whatever else of the same length is mixed in. */
  lemma ForwardFirst(bag: seq<Txn>, sorted: seq<Txn>, att: seq<Txn>, digest: Txn -> Hash)
    requires IsSortOf(sorted, bag) && IsAttachment(att, digest) && InjectiveOn(digest, bag)
    requires Within(bag, bag, |att|) && forall q :: 0 <= q < |att| ==> att[q] in bag
    requires sorted != [] && sorted[0] in att
    ensures FirstBundle(sorted, digest) == att
  {
    SortKeepsElements(sorted, bag);
    var p :| 0 <= p < |att| && att[p] == sorted[0];
    assert att[0] in sorted;
    var z :| 0 <= z < |sorted| && sorted[z] == att[0];
    assert p == 0;
    WithinSorted(bag, sorted, |att|);
    WalkFollowsChain(sorted, att, 0, bag, digest);
  }

  lemma WithinSorted(bag: seq<Txn>, sorted: seq<Txn>, n: nat)
    requires (forall t :: t in sorted <==> t in bag) && Within(bag, bag, n)
    ensures Within(sorted, bag, n)
  {
    forall i | 0 <= i < |sorted|
      ensures sorted[i] in bag && sorted[i].essence.currentIndex < n
    {
      assert sorted[i] in sorted;
      var k :| 0 <= k < |bag| && bag[k] == sorted[i];
    }
  }

  lemma ReattachmentsWithin(bag: seq<Txn>, atts: seq<seq<Txn>>, n: nat, digest: Txn -> Hash)
    requires Reattachments(atts, n, digest) && UnionOf(bag, atts)
    ensures Within(bag, bag, n)
  {
    forall i | 0 <= i < |bag|
      ensures bag[i] in bag && bag[i].essence.currentIndex < n
    {
      assert bag[i] in bag;
      var j :| 0 <= j < |atts| && bag[i] in atts[j];
      var q :| 0 <= q < n && atts[j][q] == bag[i];
    }
  }

  /** Recovery inverts attachment: from any sorted arrangement of any bag, repeats allowed,
      that is the union of complete reattachments, exactly one of them comes back whole. */
  lemma RecoversOneAttachment(bag: seq<Txn>, sorted: seq<Txn>, atts: seq<seq<Txn>>, n: nat, digest: Txn -> Hash)
    requires bag != [] && IsSortOf(sorted, bag)
    requires Reattachments(atts, n, digest) && UnionOf(bag, atts) && InjectiveOn(digest, bag)
    ensures sorted != [] && FirstBundle(sorted, digest) in atts
  {
    SortKeepsElements(sorted, bag);
    assert sorted[0] in sorted;
    var j :| 0 <= j < |atts| && sorted[0] in atts[j];
    ReattachmentsWithin(bag, atts, n, digest);
    ForwardFirst(bag, sorted, atts[j], digest);
  }

  /** The j-th attachment of bundle b, under its own tips, clock and proof of work. */
  ghost predicate AttachedAs(b: seq<Txn>, att: seq<Txn>, tips: Tips, env: Env, digest: Txn -> Hash) {
    env.digest == digest && Chained(b, att, |b| - Reach(b), tips, env)
  }

  /** End to end: attach an index-ordered bundle any number of times, mix all the transactions in
      any order and with repeats, and the reader gets back one of the attachments, with the
      bundle's own transactions in the bundle's own order. */
  lemma RecoveredIsTheBundle(
      b: seq<Txn>, atts: seq<seq<Txn>>, tips: seq<Tips>, envs: seq<Env>,
      bag: seq<Txn>, sorted: seq<Txn>, digest: Txn -> Hash)
    requires b != [] && IndexOrdered(b) && |atts| == |tips| == |envs|
    requires forall j :: 0 <= j < |atts| ==> AttachedAs(b, atts[j], tips[j], envs[j], digest)
    requires bag != [] && IsSortOf(sorted, bag) && UnionOf(bag, atts) && InjectiveOn(digest, bag)
    ensures sorted != [] && FirstBundle(sorted, digest) in atts
    ensures var r := FirstBundle(sorted, digest);
            |r| == |b| && forall i :: 0 <= i < |b| ==> r[i].essence == b[i].essence
  {
    forall j | 0 <= j < |atts|
      ensures |atts[j]| == |b| && IsAttachment(atts[j], digest)
      ensures forall i :: 0 <= i < |b| ==> atts[j][i].essence == b[i].essence
    {
      assert AttachedAs(b, atts[j], tips[j], envs[j], digest);
      AttachmentOfOrderedBundle(b, atts[j], tips[j], envs[j]);
    }
    RecoversOneAttachment(bag, sorted, atts, |b|, digest);
    var k :| 0 <= k < |atts| && atts[k] == FirstBundle(sorted, digest);
  }

  /** The walk collects nothing exactly when nothing follows. */
  lemma {:induction false} WalkStuckExactly(s: seq<Txn>, prev: Txn, digest: Txn -> Hash)
    ensures Walk(s, prev, digest) == [] <==> forall t :: t in s ==> !Follows(prev, t, digest)
  {
    if s != [] {
      assert s[0] in s;
      WalkStuckExactly(s[1..], prev, digest);
      assert forall t :: t in s <==> t == s[0] || t in s[1..];
    }
  }

  /** Each transaction follows the one before it. */
  ghost predicate Linked(a: seq<Txn>, digest: Txn -> Hash) {
    forall i {:trigger LinkedAt(a, i, digest)} :: 0 <= i < |a| - 1 ==> LinkedAt(a, i, digest)
  }

  ghost predicate LinkedAt(a: seq<Txn>, i: int, digest: Txn -> Hash)
    requires 0 <= i < |a| - 1
  {
    Follows(a[i], a[i + 1], digest)
  }

  lemma LinkedCons(prev: Txn, t: Txn, rest: seq<Txn>, digest: Txn -> Hash)
    requires Follows(prev, t, digest) && Linked([t] + rest, digest)
    ensures Linked([prev] + ([t] + rest), digest)
  {
    var a, c := [t] + rest, [prev] + ([t] + rest);
    forall i | 0 <= i < |c| - 1
      ensures LinkedAt(c, i, digest)
    {
      if i > 0 {
        assert LinkedAt(a, i - 1, digest);
        assert c[i] == a[i - 1] && c[i + 1] == a[i];
      }
    }
  }

  /** Whatever it walks over, it collects members of it, each following the one before. */
  lemma {:induction false} WalkLinked(s: seq<Txn>, prev: Txn, digest: Txn -> Hash)
    ensures Linked([prev] + Walk(s, prev, digest), digest)
    ensures forall t :: t in Walk(s, prev, digest) ==> t in s
  {
    if s != [] {
      if Follows(prev, s[0], digest) {
        WalkLinked(s[1..], s[0], digest);
        LinkedCons(prev, s[0], Walk(s[1..], s[0], digest), digest);
      } else {
        WalkLinked(s[1..], prev, digest);
      }
    }
  }

  lemma {:induction false} LinkedIndices(a: seq<Txn>, digest: Txn -> Hash, i: nat)
    requires Linked(a, digest) && i < |a| && a[0].essence.currentIndex == 0
    ensures a[i].essence.currentIndex == i
  {
    if i > 0 {
      LinkedIndices(a, digest, i - 1);
      assert LinkedAt(a, i - 1, digest);
    }
  }

  // ----- bundles attached in reversed array order -----

  /** What attaching the reversed array leaves: the indices run down, and the tail, index 0,
      carries the requested trunk instead of a link into the bundle. */
  ghost predicate Backward(a: seq<Txn>, n: nat, trunk: Hash) {
    && |a| == n >= 1 && a[n - 1].trunk == trunk
    && forall i :: 0 <= i < n ==> a[i].essence.currentIndex == n - 1 - i
  }

  ghost predicate AllBackward(atts: seq<seq<Txn>>, n: nat, trunks: seq<Hash>) {
    |atts| == |trunks| && forall j :: 0 <= j < |atts| ==> Backward(atts[j], n, trunks[j])
  }

  /** Attaching the reversed array of an index-ordered bundle. */
  lemma BackwardOfReversed(b: seq<Txn>, b': seq<Txn>, tips: Tips, env: Env, digest: Txn -> Hash)
    requires b != [] && IndexOrdered(b) && AttachedAs(Reverse(b), b', tips, env, digest)
    ensures Backward(b', |b|, tips.trunk)
    ensures forall i :: 0 <= i < |b| ==> b'[i].essence == b[|b| - 1 - i].essence
  {
    var r := Reverse(b);
    ReverseAt(b);
    assert Reach(r) == |b|;
    forall i | 0 <= i < |b|
      ensures b'[i].essence == b[|b| - 1 - i].essence
    {
      SealedKeeps(r, b', 0, i, tips, env);
    }
    SealedKeeps(r, b', 0, |b| - 1, tips, env);
  }

  /** Everything of either kind, and so everything in their union, has an index below n. */
  lemma MixedWithin(
      bag: seq<Txn>, fwd: seq<seq<Txn>>, rev: seq<seq<Txn>>, trunks: seq<Hash>, n: nat, digest: Txn -> Hash)
    requires Reattachments(fwd, n, digest) && AllBackward(rev, n, trunks) && UnionOf(bag, fwd + rev)
    ensures Within(bag, bag, n)
  {
    forall i | 0 <= i < |bag|
      ensures bag[i] in bag && bag[i].essence.currentIndex < n
    {
      assert bag[i] in bag;
      var j :| 0 <= j < |fwd + rev| && bag[i] in (fwd + rev)[j];
      var q :| 0 <= q < |(fwd + rev)[j]| && (fwd + rev)[j][q] == bag[i];
      assert j >= |fwd| ==> Backward(rev[j - |fwd|], n, trunks[j - |fwd|]);
    }
  }

  /** The transaction that sorts first has index 0. */
  lemma FirstIsTail(bag: seq<Txn>, sorted: seq<Txn>, t: Txn)
    requires IsSortOf(sorted, bag) && t in bag && t.essence.currentIndex == 0
    ensures sorted != [] && sorted[0].essence.currentIndex == 0
  {
    SortKeepsElements(sorted, bag);
    var z :| 0 <= z < |sorted| && sorted[z] == t;
  }

  lemma AloneExactly(bag: seq<Txn>, sorted: seq<Txn>, digest: Txn -> Hash)
    requires IsSortOf(sorted, bag) && sorted != []
    ensures FirstBundle(sorted, digest) == [sorted[0]] <==> forall t :: t in bag ==> !Follows(sorted[0], t, digest)
  {
    SortKeepsElements(sorted, bag);
    WalkStuckExactly(sorted, sorted[0], digest);
    assert FirstBundle(sorted, digest)[1..] == Walk(sorted, sorted[0], digest);
  }

  /** If it belongs to a reversed attachment it is the tail, and only a transaction that the
      attachment was given as its trunk can follow it. */
  lemma BackwardFirst(bag: seq<Txn>, sorted: seq<Txn>, att: seq<Txn>, n: nat, trunk: Hash, digest: Txn -> Hash)
    requires IsSortOf(sorted, bag) && Backward(att, n, trunk) && (forall q :: 0 <= q < n ==> att[q] in bag)
    requires sorted != [] && sorted[0] in att
    ensures sorted[0] == att[n - 1] && sorted[0].trunk == trunk
    ensures (forall t :: t in bag ==> digest(t) != trunk) ==> FirstBundle(sorted, digest) == [sorted[0]]
  {
    FirstIsTail(bag, sorted, att[n - 1]);
    var p :| 0 <= p < n && att[p] == sorted[0];
    assert p == n - 1;
    AloneExactly(bag, sorted, digest);
  }

  /** Some of the attachments holds t. */
  ghost predicate HeldBy(t: Txn, atts: seq<seq<Txn>>) {
    exists j :: 0 <= j < |atts| && t in atts[j]
  }

  lemma HeldByOne(t: Txn, fwd: seq<seq<Txn>>, rev: seq<seq<Txn>>)
    ensures HeldBy(t, fwd + rev) <==> HeldBy(t, fwd) || HeldBy(t, rev)
    ensures forall a :: a in fwd + rev <==> a in fwd || a in rev
  {
    if HeldBy(t, fwd) {
      var j :| 0 <= j < |fwd| && t in fwd[j];
      assert (fwd + rev)[j] == fwd[j];
    }
    if HeldBy(t, rev) {
      var j :| 0 <= j < |rev| && t in rev[j];
      assert (fwd + rev)[|fwd| + j] == rev[j];
    }
  }

  /** No transaction of the bag was given as trunk to a reversed attachment. */
  ghost predicate TrunksOutside(bag: seq<Txn>, trunks: seq<Hash>, digest: Txn -> Hash) {
    forall j, t :: 0 <= j < |trunks| && t in bag ==> digest(t) != trunks[j]
  }

  /** The bag of any number of forward and of reversed attachments, repeats allowed and in any
      order: a forward attachment comes back whole if and only if the transaction that happens to
      sort first belongs to one, and that transaction comes back alone if and only if nothing
      follows it; of a reversed attachment that is so unless its trunk is in the bag itself. */
  lemma MixedReadBack(
      bag: seq<Txn>, sorted: seq<Txn>, fwd: seq<seq<Txn>>, rev: seq<seq<Txn>>, trunks: seq<Hash>,
      n: nat, digest: Txn -> Hash)
    requires bag != [] && IsSortOf(sorted, bag) && UnionOf(bag, fwd + rev) && InjectiveOn(digest, bag)
    requires Reattachments(fwd, n, digest) && AllBackward(rev, n, trunks)
    ensures sorted != [] && (FirstBundle(sorted, digest) in fwd <==> HeldBy(sorted[0], fwd))
    ensures FirstBundle(sorted, digest) == [sorted[0]] <==> forall t :: t in bag ==> !Follows(sorted[0], t, digest)
    ensures !HeldBy(sorted[0], fwd) && TrunksOutside(bag, trunks, digest) ==>
              HeldBy(sorted[0], rev) && FirstBundle(sorted, digest) == [sorted[0]]
    ensures n == 1 ==> FirstBundle(sorted, digest) in fwd + rev
  {
    SortKeepsElements(sorted, bag);
    var first := sorted[0];
    assert first in sorted && FirstBundle(sorted, digest)[0] == first;
    HeldByOne(first, fwd, rev);
    AloneExactly(bag, sorted, digest);
    MixedWithin(bag, fwd, rev, trunks, n, digest);
    if HeldBy(first, fwd) {
      var j :| 0 <= j < |fwd| && first in fwd[j];
      assert (fwd + rev)[j] == fwd[j];
      ForwardFirst(bag, sorted, fwd[j], digest);
    } else {
      var k :| 0 <= k < |rev| && first in rev[k];
      assert (fwd + rev)[|fwd| + k] == rev[k];
      BackwardFirst(bag, sorted, rev[k], n, trunks[k], digest);
      if n == 1 {
        assert rev[k] == [first];
        NothingFollowsAlone(bag, first, digest);
      }
    }
  }

  lemma NothingFollowsAlone(bag: seq<Txn>, t: Txn, digest: Txn -> Hash)
    requires Within(bag, bag, 1)
    ensures forall u :: u in bag ==> !Follows(t, u, digest)
  {
    forall u | u in bag
      ensures !Follows(t, u, digest)
    {
      var i :| 0 <= i < |bag| && bag[i] == u;
    }
  }

  /** The index of a transaction tells which transaction of b it is an attachment of. */
  ghost predicate Of(b: seq<Txn>, t: Txn) {
    t.essence.currentIndex < |b| && t.essence == b[t.essence.currentIndex].essence
  }

  /** Whatever comes back from a bag of one bundle's transactions is linked by trunks and is the
      bundle's own beginning. */
  lemma ReadBackIsPrefix(b: seq<Txn>, bag: seq<Txn>, sorted: seq<Txn>, tail: Txn, digest: Txn -> Hash)
    requires IndexOrdered(b) && IsSortOf(sorted, bag) && (forall t :: t in bag ==> Of(b, t))
    requires tail in bag && tail.essence.currentIndex == 0
    ensures sorted != []
    ensures var r := FirstBundle(sorted, digest);
            Linked(r, digest) && |r| <= |b| && forall i :: 0 <= i < |r| ==> r[i].essence == b[i].essence
  {
    FirstIsTail(bag, sorted, tail);
    SortKeepsElements(sorted, bag);
    WalkLinked(sorted, sorted[0], digest);
    var r := FirstBundle(sorted, digest);
    forall i | 0 <= i < |r|
      ensures i < |b| && r[i].essence == b[i].essence
    {
      LinkedIndices(r, digest, i);
      assert r[i] in bag by {
        assert i > 0 ==> r[i] == Walk(sorted, sorted[0], digest)[i - 1];
      }
      assert Of(b, r[i]);
    }
    assert r[|r| - 1].essence == b[|r| - 1].essence;
  }

  /** Both kinds of attachment of one bundle, each under its own tips, clock and proof of work. */
  ghost predicate AttachedBothWays(
      b: seq<Txn>, fwd: seq<seq<Txn>>, ftips: seq<Tips>, fenvs: seq<Env>,
      rev: seq<seq<Txn>>, rtips: seq<Tips>, renvs: seq<Env>, digest: Txn -> Hash) {
    && |fwd| == |ftips| == |fenvs| && |rev| == |rtips| == |renvs|
    && (forall j :: 0 <= j < |fwd| ==> AttachedAs(b, fwd[j], ftips[j], fenvs[j], digest))
    && (forall j :: 0 <= j < |rev| ==> AttachedAs(Reverse(b), rev[j], rtips[j], renvs[j], digest))
  }

  function TrunksOf(tips: seq<Tips>): (r: seq<Hash>)
    ensures |r| == |tips| && forall j :: 0 <= j < |r| ==> r[j] == tips[j].trunk
  {
    seq(|tips|, j requires 0 <= j < |tips| => tips[j].trunk)
  }

  lemma BothWaysShapes(
      b: seq<Txn>, fwd: seq<seq<Txn>>, ftips: seq<Tips>, fenvs: seq<Env>,
      rev: seq<seq<Txn>>, rtips: seq<Tips>, renvs: seq<Env>, digest: Txn -> Hash)
    requires b != [] && IndexOrdered(b) && AttachedBothWays(b, fwd, ftips, fenvs, rev, rtips, renvs, digest)
    ensures Reattachments(fwd, |b|, digest) && AllBackward(rev, |b|, TrunksOf(rtips))
    ensures forall t :: HeldBy(t, fwd + rev) ==> Of(b, t)
  {
    forall j | 0 <= j < |fwd|
      ensures |fwd[j]| == |b| && IsAttachment(fwd[j], digest)
      ensures forall i :: 0 <= i < |b| ==> fwd[j][i].essence == b[i].essence
    {
      assert AttachedAs(b, fwd[j], ftips[j], fenvs[j], digest);
      AttachmentOfOrderedBundle(b, fwd[j], ftips[j], fenvs[j]);
    }
    forall j | 0 <= j < |rev|
      ensures Backward(rev[j], |b|, rtips[j].trunk)
      ensures forall i :: 0 <= i < |b| ==> rev[j][i].essence == b[|b| - 1 - i].essence
    {
      BackwardOfReversed(b, rev[j], rtips[j], renvs[j], digest);
    }
    forall t | HeldBy(t, fwd + rev)
      ensures Of(b, t)
    {
      HeldByOne(t, fwd, rev);
      if HeldBy(t, fwd) {
        var j :| 0 <= j < |fwd| && t in fwd[j];
        var q :| 0 <= q < |fwd[j]| && fwd[j][q] == t;
      } else {
        var j :| 0 <= j < |rev| && t in rev[j];
        var q :| 0 <= q < |rev[j]| && rev[j][q] == t;
        assert t.essence == b[|b| - 1 - q].essence;
      }
    }
  }

  /** Some attachment in the bag has a tail. */
  lemma SomeTail(bag: seq<Txn>, fwd: seq<seq<Txn>>, rev: seq<seq<Txn>>, trunks: seq<Hash>, n: nat, digest: Txn -> Hash)
      returns (tail: Txn)
    requires bag != [] && UnionOf(bag, fwd + rev) && Reattachments(fwd, n, digest) && AllBackward(rev, n, trunks)
    ensures tail in bag && tail.essence.currentIndex == 0
  {
    assert bag[0] in bag;
    var j :| 0 <= j < |fwd + rev| && bag[0] in (fwd + rev)[j];
    if j < |fwd| {
      tail := fwd[j][0];
      assert tail in (fwd + rev)[j];
    } else {
      assert Backward(rev[j - |fwd|], n, trunks[j - |fwd|]);
      tail := rev[j - |fwd|][n - 1];
      assert tail in (fwd + rev)[j];
    }
  }

  /** The request buffer sends a bundle reversed, and forward again after a lock failure, so both
      kinds of attachment of one bundle can lie on the Tangle.  What the reader gets is always the
      bundle's beginning, linked by trunks.  It is a whole forward attachment exactly when the tail
      that sorts first is a forward one; otherwise, unless an attachment was given another one of
      the same bundle as its trunk, it is that tail alone, which is a whole attachment only if the
      bundle has one transaction. */
  lemma BufferedBundleReadBackExactly(
      b: seq<Txn>, fwd: seq<seq<Txn>>, ftips: seq<Tips>, fenvs: seq<Env>,
      rev: seq<seq<Txn>>, rtips: seq<Tips>, renvs: seq<Env>,
      bag: seq<Txn>, sorted: seq<Txn>, digest: Txn -> Hash)
    requires b != [] && IndexOrdered(b) && AttachedBothWays(b, fwd, ftips, fenvs, rev, rtips, renvs, digest)
    requires bag != [] && IsSortOf(sorted, bag) && UnionOf(bag, fwd + rev) && InjectiveOn(digest, bag)
    ensures sorted != [] && (FirstBundle(sorted, digest) in fwd <==> HeldBy(sorted[0], fwd))
    ensures FirstBundle(sorted, digest) == [sorted[0]] <==> forall t :: t in bag ==> !Follows(sorted[0], t, digest)
    ensures !HeldBy(sorted[0], fwd) && TrunksOutside(bag, TrunksOf(rtips), digest) ==>
              HeldBy(sorted[0], rev) && FirstBundle(sorted, digest) == [sorted[0]]
    ensures |b| == 1 ==> FirstBundle(sorted, digest) in fwd + rev
    ensures var r := FirstBundle(sorted, digest);
            Linked(r, digest) && |r| <= |b| && forall i :: 0 <= i < |r| ==> r[i].essence == b[i].essence
  {
    BothWaysShapes(b, fwd, ftips, fenvs, rev, rtips, renvs, digest);
    MixedReadBack(bag, sorted, fwd, rev, TrunksOf(rtips), |b|, digest);
    var tail := SomeTail(bag, fwd, rev, TrunksOf(rtips), |b|, digest);
    forall t | t in bag
      ensures Of(b, t)
    {
      assert HeldBy(t, fwd + rev);
    }
    ReadBackIsPrefix(b, bag, sorted, tail, digest);
  }

  lemma SecondIs(bag: seq<Txn>, sorted: seq<Txn>, next: Txn, digest: Txn -> Hash)
    requires IsSortOf(sorted, bag) && sorted != [] && InjectiveOn(digest, bag)
    requires next in bag && Follows(sorted[0], next, digest)
    ensures |FirstBundle(sorted, digest)| >= 2 && FirstBundle(sorted, digest)[1] == next
  {
    var r := FirstBundle(sorted, digest);
    AloneExactly(bag, sorted, digest);
    SortKeepsElements(sorted, bag);
    WalkLinked(sorted, sorted[0], digest);
    assert LinkedAt(r, 0, digest);
    assert r[1] == Walk(sorted, sorted[0], digest)[0];
    assert Separates(digest, r[1], next);
  }

  /** When an attachment does take another one as its trunk: a reversed bundle of two leaves its
      second transaction as a tip, and a later reversed attachment of the bundle may be given that
      tip.  If its tail sorts first, the reader gets that tail and the other attachment's second
      transaction: the bundle's two transactions in order, but neither attachment. */
  lemma ReversedAttachmentsMix(
      b: seq<Txn>, a: seq<Txn>, c: seq<Txn>, atips: Tips, ctips: Tips, aenv: Env, cenv: Env,
      sorted: seq<Txn>, digest: Txn -> Hash)
    requires |b| == |a| == |c| == 2 && IndexOrdered(b)
    requires AttachedAs(Reverse(b), a, atips, aenv, digest) && AttachedAs(Reverse(b), c, ctips, cenv, digest)
    requires ctips.trunk == digest(a[0]) && InjectiveOn(digest, a + c)
    requires IsSortOf(sorted, a + c) && sorted != [] && sorted[0] == c[1]
    ensures FirstBundle(sorted, digest) == [c[1], a[0]]
    ensures c[1].essence == b[0].essence && a[0].essence == b[1].essence
    ensures FirstBundle(sorted, digest) != a && FirstBundle(sorted, digest) != c
  {
    BackwardOfReversed(b, a, atips, aenv, digest);
    BackwardOfReversed(b, c, ctips, cenv, digest);
    var bag, r := a + c, FirstBundle(sorted, digest);
    assert a[0] in bag && c[1] in bag && Follows(c[1], a[0], digest);
    SecondIs(bag, sorted, a[0], digest);
    ReadBackIsPrefix(b, bag, sorted, c[1], digest);
    assert r[0] == c[1];
  }
}
