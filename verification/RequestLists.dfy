/**
  What the transaction buffer and the MAM buffer have in common: a list of unsent requests, a list
  of completed ones, both Redis lists used as stacks, and a value stored under each uuid.  A fetch
  (ta_fetch_txn_with_uuid, ta_fetch_mam_with_uuid of accelerator/core/core.c) looks a request up by
  its uuid but pops the head of the complete list.
 */
module RequestLists {
  import opened Common

  type Uuid = string

  datatype Lists<V> = Lists(unsent: seq<Uuid>, complete: seq<Uuid>, store: map<Uuid, V>)

  datatype Stage = NotExist | Unsent | Sent

  datatype Reply<V> = Reply(status: Status, stage: Stage, value: Option<V>)

  /** A completed request is answered with its own value, but the uuid taken off the complete list
      is whichever is at its head. */
  function Fetch<V>(s: Lists<V>, uuid: Uuid, lock: bool): (Lists<V>, Reply<V>) {
    if !lock then (s, Reply(CacheLockFailure, NotExist, None))
    else if uuid in s.unsent then (s, Reply(Ok, Unsent, None))
    else if uuid !in s.complete then (s, Reply(Ok, NotExist, None))
    else if uuid !in s.store then (s, Reply(CacheFailedResponse, Sent, None))
    else (s.(complete := s.complete[1..], store := s.store - {uuid}), Reply(Ok, Sent, Some(s.store[uuid])))
  }

  // ----- submissions -----

  datatype Submission<Q> = Submission(uuid: Uuid, request: Q)

  function Uuids<Q>(subs: seq<Submission<Q>>): (r: seq<Uuid>)
    ensures |r| == |subs| && forall i :: 0 <= i < |r| ==> r[i] == subs[i].uuid
  {
    seq(|subs|, i requires 0 <= i < |subs| => subs[i].uuid)
  }

  /** How a submission changes the stored values. */
  type Putter<!V, !Q> = (map<Uuid, V>, Submission<Q>) -> map<Uuid, V>

  function PushOne<V, Q>(s: Lists<V>, sub: Submission<Q>, put: Putter<V, Q>): Lists<V> {
    s.(unsent := [sub.uuid] + s.unsent, store := put(s.store, sub))
  }

  function PushEach<V, Q>(s: Lists<V>, subs: seq<Submission<Q>>, put: Putter<V, Q>): Lists<V> {
    if subs == [] then s else PushOne(PushEach(s, subs[..|subs| - 1], put), subs[|subs| - 1], put)
  }

  lemma {:induction false} PushEachLists<V, Q>(s: Lists<V>, subs: seq<Submission<Q>>, put: Putter<V, Q>)
    ensures PushEach(s, subs, put).unsent == Reverse(Uuids(subs)) + s.unsent
    ensures PushEach(s, subs, put).complete == s.complete
  {
    if subs != [] {
      var n := |subs| - 1;
      PushEachLists(s, subs[..n], put);
      assert Uuids(subs) == Uuids(subs[..n]) + [subs[n].uuid];
      ReverseConcat(Uuids(subs[..n]), [subs[n].uuid]);
      assert Reverse([subs[n].uuid]) == [subs[n].uuid];
    }
  }

  /** The value under u is the same in both, or missing in both. */
  ghost predicate SameAt<V>(m: map<Uuid, V>, m': map<Uuid, V>, u: Uuid) {
    (u in m <==> u in m') && (u in m ==> m[u] == m'[u])
  }

  /** A submission changes no value but its own. */
  ghost predicate PutsOwn<V(!new), Q(!new)>(put: Putter<V, Q>) {
    forall m: map<Uuid, V>, sub: Submission<Q>, u: Uuid ::
      u != sub.uuid ==> SameAt(m, put(m, sub), u)
  }

  lemma {:induction false} PushEachSpares<V(!new), Q(!new)>(
      s: Lists<V>, subs: seq<Submission<Q>>, put: Putter<V, Q>, u: Uuid)
    requires PutsOwn(put) && u !in Uuids(subs)
    ensures SameAt(s.store, PushEach(s, subs, put).store, u)
  {
    if subs != [] {
      var n := |subs| - 1;
      assert Uuids(subs)[n] == subs[n].uuid;
      assert forall i :: 0 <= i < n ==> Uuids(subs[..n])[i] == Uuids(subs)[i];
      PushEachSpares(s, subs[..n], put, u);
      assert SameAt(PushEach(s, subs[..n], put).store, PushEach(s, subs, put).store, u);
    }
  }

  /** Under a new uuid the submission stores v. */
  ghost predicate PutsNew<V(!new), Q>(put: Putter<V, Q>, sub: Submission<Q>, v: V) {
    forall m: map<Uuid, V> :: sub.uuid !in m ==> sub.uuid in put(m, sub) && put(m, sub)[sub.uuid] == v
  }

  lemma {:induction false} PushEachStores<V(!new), Q(!new)>(
      s: Lists<V>, subs: seq<Submission<Q>>, put: Putter<V, Q>, i: nat, v: V)
    requires PutsOwn(put) && i < |subs| && PutsNew(put, subs[i], v)
    requires NoDup(Uuids(subs)) && subs[i].uuid !in s.store
    ensures subs[i].uuid in PushEach(s, subs, put).store
    ensures PushEach(s, subs, put).store[subs[i].uuid] == v
  {
    var n := |subs| - 1;
    var p := subs[..n];
    assert forall k :: 0 <= k < n ==> Uuids(p)[k] == Uuids(subs)[k];
    assert Uuids(subs)[n] == subs[n].uuid && Uuids(subs)[i] == subs[i].uuid;
    if i == n {
      PushEachSpares(s, p, put, subs[i].uuid);
      assert subs[i].uuid !in PushEach(s, p, put).store;
    } else {
      PushEachStores(s, p, put, i, v);
      assert SameAt(PushEach(s, p, put).store, PushEach(s, subs, put).store, subs[i].uuid);
    }
  }

  // ----- fetching in turn -----

  function FetchAll<V>(s: Lists<V>, uuids: seq<Uuid>): (Lists<V>, seq<Reply<V>>)
    decreases |uuids|
  {
    if uuids == [] then (s, [])
    else
      var (s', reply) := Fetch(s, uuids[0], true);
      var (s'', rest) := FetchAll(s', uuids[1..]);
      (s'', [reply] + rest)
  }

  ghost predicate RepliesAre<V>(replies: seq<Reply<V>>, uuids: seq<Uuid>, store: map<Uuid, V>) {
    && |replies| == |uuids|
    && forall i :: 0 <= i < |uuids| ==> uuids[i] in store && replies[i] == Reply(Ok, Sent, Some(store[uuids[i]]))
  }

  /** Fetched from the head on, each of the first requests on the complete list is answered with
      its own value, and afterwards none of them is known. */
  lemma {:induction false} FetchInTurn<V>(s: Lists<V>, uuids: seq<Uuid>, rest: seq<Uuid>)
    requires s.unsent == [] && s.complete == uuids + rest && NoDup(uuids + rest)
    requires forall i :: 0 <= i < |uuids| ==> uuids[i] in s.store
    ensures var (s', replies) := FetchAll(s, uuids);
            RepliesAre(replies, uuids, s.store) && s'.unsent == [] && s'.complete == rest
    decreases |uuids|
  {
    if uuids != [] {
      var u, tail := uuids[0], uuids[1..];
      var all := uuids + rest;
      assert all[0] == u && all[1..] == tail + rest;
      var t := Fetch(s, u, true).0;
      assert u in s.complete;
      assert t.complete == tail + rest;
      forall i | 0 <= i < |tail|
        ensures tail[i] in t.store && t.store[tail[i]] == s.store[tail[i]]
      {
        assert all[i + 1] == tail[i] == uuids[i + 1];
      }
      FetchInTurn(t, tail, rest);
      assert FetchAll(s, uuids).1 == [Fetch(s, u, true).1] + FetchAll(t, tail).1;
    }
  }

  lemma SecondFetchUnknown<V>(s: Lists<V>, uuid: Uuid)
    requires uuid !in s.unsent && uuid !in s.complete
    ensures Fetch(s, uuid, true) == (s, Reply(Ok, NotExist, None))
  {
  }

  /** Moving one request and then k - 1 more is moving k. */
  lemma UnstackOne(unsent: seq<Uuid>, complete: seq<Uuid>, k: nat)
    requires 1 <= k <= |unsent|
    ensures Reverse(unsent[1..][..k - 1]) + ([unsent[0]] + complete) == Reverse(unsent[..k]) + complete
    ensures unsent[1..][k - 1..] == unsent[k..]
  {
    assert unsent[..k][1..] == unsent[1..][..k - 1];
  }

  // ----- conservation of requests -----

  /** Every uuid ever accepted, and every uuid taken off the complete list. */
  datatype History = History(accepted: set<Uuid>, removed: set<Uuid>)

  /** Each accepted uuid is in exactly one place, and once. */
  ghost predicate Conserved<V>(s: Lists<V>, h: History) {
    && NoDup(s.unsent) && NoDup(s.complete)
    && Elems(s.unsent) !! Elems(s.complete) !! h.removed
    && h.accepted == Elems(s.unsent) + Elems(s.complete) + h.removed
  }

  /** How far a request has come: unknown, unsent, complete, removed. */
  ghost function Rank<V>(s: Lists<V>, h: History, u: Uuid): nat {
    if u in h.removed then 3 else if u in s.complete then 2 else if u in s.unsent then 1 else 0
  }

  /** The ways a step can change the two lists: not at all, by a submission, by moving the head
      of one to the other, or by popping the complete list. */
  ghost predicate ListStep<V>(s: Lists<V>, s': Lists<V>, submitted: Option<Uuid>) {
    || (submitted.None? && s'.unsent == s.unsent && s'.complete == s.complete)
    || (submitted.Some? && s'.unsent == [submitted.value] + s.unsent && s'.complete == s.complete)
    || (submitted.None? && s.unsent != [] && s'.unsent == s.unsent[1..] && s'.complete == [s.unsent[0]] + s.complete)
    || (submitted.None? && s.complete != [] && s'.unsent == s.unsent && s'.complete == s.complete[1..])
  }

  function Popped<V>(s: Lists<V>, s': Lists<V>): set<Uuid> {
    if |s'.complete| < |s.complete| then {s.complete[0]} else {}
  }

  function Advance<V>(h: History, s: Lists<V>, s': Lists<V>, submitted: Option<Uuid>): History {
    History(if submitted.Some? then h.accepted + {submitted.value} else h.accepted, h.removed + Popped(s, s'))
  }

  lemma ElemsCons(x: Uuid, s: seq<Uuid>)
    ensures Elems([x] + s) == {x} + Elems(s)
    ensures NoDup(s) && x !in s ==> NoDup([x] + s)
  {
  }

  lemma ElemsUncons(s: seq<Uuid>)
    requires s != [] && NoDup(s)
    ensures Elems(s) == {s[0]} + Elems(s[1..]) && s[0] !in Elems(s[1..]) && NoDup(s[1..])
  {
  }

  lemma MembersOfElems<V>(s: Lists<V>)
    ensures forall u :: u in Elems(s.unsent) <==> u in s.unsent
    ensures forall u :: u in Elems(s.complete) <==> u in s.complete
  {
  }

  /** Every such step conserves requests and moves each only forward. */
  lemma ListStepConserves<V>(s: Lists<V>, s': Lists<V>, submitted: Option<Uuid>, h: History)
    requires Conserved(s, h) && ListStep(s, s', submitted)
    requires submitted.Some? ==> submitted.value !in h.accepted
    ensures Conserved(s', Advance(h, s, s', submitted))
    ensures forall u :: Rank(s, h, u) <= Rank(s', Advance(h, s, s', submitted), u)
  {
    if submitted.Some? {
      ElemsCons(submitted.value, s.unsent);
    } else if s'.complete == s.complete && s'.unsent == s.unsent {
    } else if s.unsent != [] && s'.unsent == s.unsent[1..] {
      ElemsUncons(s.unsent);
      ElemsCons(s.unsent[0], s.complete);
    } else {
      ElemsUncons(s.complete);
    }
    MembersOfElems(s);
    MembersOfElems(s');
  }

  // ----- the stored values -----

  /** Exactly the unsent and the completed requests have a value stored. */
  ghost predicate Stocked<V>(s: Lists<V>) {
    s.store.Keys == Elems(s.unsent) + Elems(s.complete)
  }

  /** Taking the head off the complete list together with its value. */
  lemma RemoveHeadStocks<V>(s: Lists<V>, h: History)
    requires Conserved(s, h) && Stocked(s) && s.complete != []
    ensures Stocked(s.(complete := s.complete[1..], store := s.store - {s.complete[0]}))
  {
    ElemsUncons(s.complete);
    assert (s.store - {s.complete[0]}).Keys == s.store.Keys - {s.complete[0]};
  }

  /** The turn matters: fetching a completed request keeps storage and lists in step if and only
      if it is at the head of the complete list.  Otherwise the request stays listed without its
      value, and the one at the head is forgotten with its value still stored. */
  lemma FetchKeepsStockExactlyInTurn<V>(s: Lists<V>, h: History, uuid: Uuid)
    requires Conserved(s, h) && Stocked(s) && uuid in s.complete
    ensures Stocked(Fetch(s, uuid, true).0) <==> uuid == s.complete[0]
    ensures uuid != s.complete[0] ==>
              var s', head := Fetch(s, uuid, true).0, s.complete[0];
              && uuid in s'.complete && Fetch(s', uuid, true).1 == Reply(CacheFailedResponse, Sent, None)
              && head in s'.store && s'.store[head] == s.store[head]
              && Fetch(s', head, true).1 == Reply(Ok, NotExist, None)
  {
    var s', head := Fetch(s, uuid, true).0, s.complete[0];
    MembersOfElems(s);
    MembersOfElems(s');
    ElemsUncons(s.complete);
    assert uuid in Elems(s.complete) && head in Elems(s.complete);
    assert s' == s.(complete := s.complete[1..], store := s.store - {uuid});
    if uuid == head {
      RemoveHeadStocks(s, h);
    } else {
      assert head in s'.store.Keys && head !in s'.unsent && head !in s'.complete;
      assert uuid in Elems(s'.complete) && uuid !in s'.unsent;
    }
  }

  /** A value stored under a uuid that has left both lists. */
  ghost predicate Leaked<V>(s: Lists<V>, h: History, u: Uuid, v: V) {
    u in h.removed && u in s.store && s.store[u] == v
  }

  /** A step that touches only values of listed or new requests keeps it. */
  lemma StepKeepsLeaked<V>(
      s: Lists<V>, s': Lists<V>, submitted: Option<Uuid>, h: History, u: Uuid, v: V)
    requires Conserved(s, h) && Leaked(s, h, u, v)
    requires submitted.Some? ==> submitted.value !in h.accepted
    requires u !in s.unsent && u !in s.complete && Some(u) != submitted ==> SameAt(s.store, s'.store, u)
    ensures Leaked(s', Advance(h, s, s', submitted), u, v)
  {
    MembersOfElems(s);
    assert u in h.accepted && u !in s.unsent && u !in s.complete;
  }

  /** One fetch out of turn leaks the value of the request at the head. */
  lemma OutOfTurnFetchLeaksHead<V>(s: Lists<V>, h: History, uuid: Uuid)
    requires Conserved(s, h) && Stocked(s) && uuid in s.complete && uuid != s.complete[0]
    ensures var s' := Fetch(s, uuid, true).0;
            s.complete[0] in s.store && Leaked(s', Advance(h, s, s', None), s.complete[0], s.store[s.complete[0]])
  {
    MembersOfElems(s);
    assert s.complete[0] in Elems(s.complete);
    FetchKeepsStockExactlyInTurn(s, h, uuid);
  }

  // ----- what a caller is told -----

  /** A fetch tells exactly how far the request has come, and hands out a value exactly for a
      completed request that has one; it changes something exactly then. */
  lemma FetchTellsRank<V>(s: Lists<V>, h: History, u: Uuid)
    requires Conserved(s, h)
    ensures var (s', reply) := Fetch(s, u, true);
            && (reply.stage == Unsent <==> Rank(s, h, u) == 1)
            && (reply.stage == Sent <==> Rank(s, h, u) == 2)
            && (reply.stage == NotExist <==> u !in h.accepted || u in h.removed)
            && reply.status == (if Rank(s, h, u) == 2 && u !in s.store then CacheFailedResponse else Ok)
            && (reply.value.Some? <==> Rank(s, h, u) == 2 && u in s.store)
            && (reply.value.Some? ==> reply.value.value == s.store[u])
            && (s' == s <==> reply.value.None?)
  {
    MembersOfElems(s);
    var (s', reply) := Fetch(s, u, true);
    if reply.value.Some? {
      assert |s'.complete| < |s.complete|;
    }
  }

  lemma FetchLockedOut<V>(s: Lists<V>, u: Uuid)
    ensures Fetch(s, u, false) == (s, Reply(CacheLockFailure, NotExist, None))
  {
  }

  // ----- each answer is handed out once -----

  /** Accepted, sent, and without a value. */
  ghost predicate Gone<V>(s: Lists<V>, h: History, u: Uuid) {
    u in h.accepted && u !in s.unsent && u !in s.store
  }

  lemma FetchMakesGone<V>(s: Lists<V>, h: History, uuid: Uuid, lock: bool)
    requires Conserved(s, h) && Fetch(s, uuid, lock).1.value.Some?
    ensures var s' := Fetch(s, uuid, lock).0;
            Gone(s', Advance(h, s, s', None), uuid)
  {
    MembersOfElems(s);
    assert uuid in Elems(s.complete);
  }

  lemma StepKeepsGone<V>(s: Lists<V>, s': Lists<V>, submitted: Option<Uuid>, h: History, u: Uuid)
    requires ListStep(s, s', submitted) && Gone(s, h, u)
    requires submitted.Some? ==> submitted.value !in h.accepted
    requires u !in s'.store
    ensures Gone(s', Advance(h, s, s', submitted), u)
  {
  }

  lemma GoneIsSilent<V>(s: Lists<V>, h: History, u: Uuid, lock: bool)
    requires Gone(s, h, u)
    ensures Fetch(s, u, lock).1.value.None?
  {
  }

  /** One more at the front of a sequence lies deepest on the stack it is pushed on. */
  lemma StackUnder(first: seq<Uuid>, later: seq<Uuid>, rest: seq<Uuid>)
    requires |first| <= 1
    ensures Reverse(later) + (first + rest) == Reverse(first + later) + rest
  {
    ReverseConcat(first, later);
    ReverseAt(first);
    assert Reverse(first) == first;
  }
}
