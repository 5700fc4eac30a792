/**
  Requests buffered one value at a time: api_send_mam_message (accelerator/core/apis.c) stores a
  request under a uuid, broadcast_buffered_send_mam_request (accelerator/core/periodical_task.c)
  sends the request at the head of the list and replaces it by its result, and
  ta_fetch_mam_with_uuid (accelerator/core/core.c) hands the result out.

  The protocol is stated over any sender; W is the world a send changes.
 */
module RequestBuffer {
  import opened Common
  import opened RequestLists

  type Failure = s: Status | s != Ok witness Null

  datatype Outcome<W, R> = Failed(status: Failure) | Sent(result: R, world: W)

  type Sender<!W, !Q, R> = (W, Q) -> Outcome<W, R>

  /** What the key of a uuid holds: first the request, then the result of sending it. */
  datatype Value<Q, R> = Asked(request: Q) | Answered(result: R)

  datatype State<W, Q, R> = State(lists: Lists<Value<Q, R>>, world: W)

  /** SET with NX leaves an existing value alone. */
  function Put<Q, R>(store: map<Uuid, Value<Q, R>>, sub: Submission<Q>): map<Uuid, Value<Q, R>> {
    if sub.uuid in store then store else store[sub.uuid := Asked(sub.request)]
  }

  function Push<W, Q, R>(s: State<W, Q, R>, uuid: Uuid, q: Q): State<W, Q, R> {
    s.(lists := PushOne(s.lists, Submission(uuid, q), Put<Q, R>))
  }

  /** One iteration: the request is sent before the lock is tried. */
  function Iterate<W, Q, R>(s: State<W, Q, R>, send: Sender<W, Q, R>, lock: bool): (State<W, Q, R>, Status)
    requires s.lists.unsent != []
  {
    var l, u := s.lists, s.lists.unsent[0];
    if u !in l.store then (s, CacheFailedResponse)
    else if l.store[u].Answered? then (s, Null)
    else
      match send(s.world, l.store[u].request)
      case Failed(e) => (s, e)
      case Sent(r, w) =>
        if !lock then (s.(world := w), CacheLockFailure)
        else (State(Lists(l.unsent[1..], [u] + l.complete, l.store[u := Answered(r)]), w), Ok)
  }

  /** The whole loop, its iterations numbered from i; locks says whether each finds the lock free. */
  function Drain<W, Q, R>(
      s: State<W, Q, R>, send: Sender<W, Q, R>, locks: nat -> bool, i: nat): (State<W, Q, R>, Status)
    decreases |s.lists.unsent|
  {
    if s.lists.unsent == [] then (s, Ok)
    else
      var (s', status) := Iterate(s, send, locks(i));
      if status != Ok then (s', status) else Drain(s', send, locks, i + 1)
  }

  // ----- sending a sequence of requests -----

  ghost function NextWorld<W, Q, R>(send: Sender<W, Q, R>, w: W, q: Q): W {
    if send(w, q).Sent? then send(w, q).world else w
  }

  /** The world after a sequence of requests has been sent in order. */
  ghost function After<W, Q, R>(send: Sender<W, Q, R>, w: W, qs: seq<Q>): W
    decreases |qs|
  {
    if qs == [] then w else After(send, NextWorld(send, w, qs[0]), qs[1..])
  }

  /** What request j of the sequence meets when its turn comes. */
  ghost function OutcomeAt<W, Q, R>(send: Sender<W, Q, R>, w: W, qs: seq<Q>, j: nat): Outcome<W, R>
    requires j < |qs|
    decreases j
  {
    if j == 0 then send(w, qs[0]) else OutcomeAt(send, NextWorld(send, w, qs[0]), qs[1..], j - 1)
  }

  ghost predicate Succeeds<W, Q, R>(send: Sender<W, Q, R>, w: W, qs: seq<Q>)
    decreases |qs|
  {
    qs != [] ==> send(w, qs[0]).Sent? && Succeeds(send, NextWorld(send, w, qs[0]), qs[1..])
  }

  /** The lock is free in the k iterations from i on. */
  ghost predicate Free(locks: nat -> bool, i: nat, k: nat) {
    forall j: nat :: i <= j < i + k ==> locks(j)
  }

  // ----- how far a drain gets, and the order in which it sends -----

  ghost predicate AskedAt<W, Q, R>(s: State<W, Q, R>, qs: seq<Q>, j: nat)
    requires j < |qs|
  {
    j < |s.lists.unsent| && s.lists.unsent[j] in s.lists.store && s.lists.store[s.lists.unsent[j]] == Asked(qs[j])
  }

  /** The requests on the unsent list, from the top. */
  ghost predicate Pending<W, Q, R>(s: State<W, Q, R>, qs: seq<Q>) {
    |qs| == |s.lists.unsent| && NoDup(s.lists.unsent) && forall j :: 0 <= j < |qs| ==> AskedAt(s, qs, j)
  }

  lemma PendingNext<W, Q, R>(s: State<W, Q, R>, t: State<W, Q, R>, qs: seq<Q>, v: Value<Q, R>)
    requires qs != [] && Pending(s, qs)
    requires t.lists.unsent == s.lists.unsent[1..] && t.lists.store == s.lists.store[s.lists.unsent[0] := v]
    ensures Pending(t, qs[1..])
  {
    forall j | 0 <= j < |qs[1..]|
      ensures AskedAt(t, qs[1..], j)
    {
      assert AskedAt(s, qs, j + 1);
      assert t.lists.unsent[j] == s.lists.unsent[j + 1] && qs[1..][j] == qs[j + 1];
    }
  }

  lemma HeadAsked<W, Q, R>(s: State<W, Q, R>, qs: seq<Q>)
    requires qs != [] && Pending(s, qs)
    ensures s.lists.unsent != [] && s.lists.unsent[0] in s.lists.store
    ensures s.lists.store[s.lists.unsent[0]] == Asked(qs[0])
  {
    assert AskedAt(s, qs, 0);
  }

  /** An iteration takes its request if and only if it is sent and the lock is free. */
  lemma IterateExactly<W, Q, R>(s: State<W, Q, R>, send: Sender<W, Q, R>, q: Q, lock: bool)
    requires s.lists.unsent != [] && s.lists.unsent[0] in s.lists.store && s.lists.store[s.lists.unsent[0]] == Asked(q)
    ensures Iterate(s, send, lock).1 == Ok <==> send(s.world, q).Sent? && lock
    ensures Iterate(s, send, lock).1 == Ok ==>
              Iterate(s, send, lock).0 ==
              State(Lists(s.lists.unsent[1..], [s.lists.unsent[0]] + s.lists.complete,
                          s.lists.store[s.lists.unsent[0] := Answered(send(s.world, q).result)]),
                    NextWorld(send, s.world, q))
  {
  }

  lemma FreeNext(locks: nat -> bool, i: nat, k: nat)
    requires 1 <= k
    ensures Free(locks, i, k) <==> locks(i) && Free(locks, i + 1, k - 1)
  {
    if locks(i) && Free(locks, i + 1, k - 1) {
      forall j: nat | i <= j < i + k
        ensures locks(j)
      {
        assert j == i || i + 1 <= j;
      }
    }
  }

  /** A drain of pending requests gets through if and only if each of them, sent in its turn from
      the top, succeeds and the lock is free each time. */
  lemma {:induction false} DrainGetsThroughExactly<W, Q, R>(
      s: State<W, Q, R>, send: Sender<W, Q, R>, qs: seq<Q>, locks: nat -> bool, i: nat)
    requires Pending(s, qs)
    ensures Drain(s, send, locks, i).1 == Ok <==> Succeeds(send, s.world, qs) && Free(locks, i, |qs|)
    decreases |qs|
  {
    if qs != [] {
      HeadAsked(s, qs);
      IterateExactly(s, send, qs[0], locks(i));
      FreeNext(locks, i, |qs|);
      var (t, status) := Iterate(s, send, locks(i));
      if status == Ok {
        PendingNext(s, t, qs, t.lists.store[s.lists.unsent[0]]);
        DrainGetsThroughExactly(t, send, qs[1..], locks, i + 1);
      }
    }
  }

  lemma DrainStep<W, Q, R>(
      s: State<W, Q, R>, send: Sender<W, Q, R>, qs: seq<Q>, locks: nat -> bool, i: nat) returns (t: State<W, Q, R>)
    requires qs != [] && Pending(s, qs) && Succeeds(send, s.world, qs) && Free(locks, i, |qs|)
    ensures t.lists.unsent == s.lists.unsent[1..] && t.lists.complete == [s.lists.unsent[0]] + s.lists.complete
    ensures t.lists.store == s.lists.store[s.lists.unsent[0] := Answered(send(s.world, qs[0]).result)]
    ensures t.world == NextWorld(send, s.world, qs[0])
    ensures Pending(t, qs[1..]) && Succeeds(send, t.world, qs[1..]) && Free(locks, i + 1, |qs| - 1)
    ensures Drain(s, send, locks, i) == Drain(t, send, locks, i + 1)
  {
    HeadAsked(s, qs);
    IterateExactly(s, send, qs[0], locks(i));
    FreeNext(locks, i, |qs|);
    t := Iterate(s, send, locks(i)).0;
    PendingNext(s, t, qs, t.lists.store[s.lists.unsent[0]]);
  }

  /** The unsent list is emptied onto the complete list in reverse, and the world is that after
      sending the requests from the top down. */
  lemma {:induction false} DrainSendsFromTheTop<W, Q, R>(
      s: State<W, Q, R>, send: Sender<W, Q, R>, qs: seq<Q>, locks: nat -> bool, i: nat)
    requires Pending(s, qs) && Succeeds(send, s.world, qs) && Free(locks, i, |qs|)
    ensures Drain(s, send, locks, i).0.lists.unsent == []
    ensures Drain(s, send, locks, i).0.lists.complete == Reverse(s.lists.unsent) + s.lists.complete
    ensures Drain(s, send, locks, i).0.world == After(send, s.world, qs)
    decreases |qs|
  {
    if qs != [] {
      var t := DrainStep(s, send, qs, locks, i);
      DrainSendsFromTheTop(t, send, qs[1..], locks, i + 1);
      var sent, head := Reverse(t.lists.unsent), [s.lists.unsent[0]];
      assert sent + (head + s.lists.complete) == (sent + head) + s.lists.complete;
    }
  }

  lemma {:induction false} DrainSpares<W, Q, R>(
      s: State<W, Q, R>, send: Sender<W, Q, R>, qs: seq<Q>, locks: nat -> bool, i: nat, u: Uuid)
    requires Pending(s, qs) && Succeeds(send, s.world, qs) && Free(locks, i, |qs|)
    requires u in s.lists.store && u !in s.lists.unsent
    ensures u in Drain(s, send, locks, i).0.lists.store && Drain(s, send, locks, i).0.lists.store[u] == s.lists.store[u]
    decreases |qs|
  {
    if qs != [] {
      var t := DrainStep(s, send, qs, locks, i);
      DrainSpares(t, send, qs[1..], locks, i + 1, u);
    }
  }

  /** Request j from the top is the j-th to be sent, and is answered with what that send gave. */
  lemma {:induction false} DrainAnswersInTurn<W, Q, R>(
      s: State<W, Q, R>, send: Sender<W, Q, R>, qs: seq<Q>, locks: nat -> bool, i: nat, j: nat)
    requires Pending(s, qs) && Succeeds(send, s.world, qs) && Free(locks, i, |qs|) && j < |qs|
    ensures OutcomeAt(send, s.world, qs, j).Sent?
    ensures s.lists.unsent[j] in Drain(s, send, locks, i).0.lists.store
    ensures Drain(s, send, locks, i).0.lists.store[s.lists.unsent[j]] ==
            Answered(OutcomeAt(send, s.world, qs, j).result)
    decreases j
  {
    var u := s.lists.unsent[j];
    var t := DrainStep(s, send, qs, locks, i);
    if j == 0 {
      DrainSpares(t, send, qs[1..], locks, i + 1, u);
    } else {
      assert t.lists.unsent[j - 1] == u;
      DrainAnswersInTurn(t, send, qs[1..], locks, i + 1, j - 1);
    }
  }

  /** Why an iteration does not take its request: the send fails, or the lock is taken after it. */
  ghost function RefusalOf<W, R>(outcome: Outcome<W, R>, lock: bool): Status {
    match outcome
    case Failed(e) => e
    case Sent(_, _) => if lock then Ok else CacheLockFailure
  }

  /** An iteration on a head without a value, or with a result for one, fails and changes nothing;
      on a request it fails with the reason, and the world then is that after the send. */
  lemma IterateStatus<W, Q, R>(s: State<W, Q, R>, send: Sender<W, Q, R>, lock: bool)
    requires s.lists.unsent != []
    ensures var (t, status) := Iterate(s, send, lock);
            var l, u := s.lists, s.lists.unsent[0];
            if u !in l.store then t == s && status == CacheFailedResponse
            else if l.store[u].Answered? then t == s && status == Null
            else && status == RefusalOf(send(s.world, l.store[u].request), lock)
                 && t.world == NextWorld(send, s.world, l.store[u].request)
                 && (status != Ok ==> t.lists == l)
  {
  }

  /** The first k of the requests from the top are taken, and the next is not. */
  ghost predicate RefusedAt<W, Q, R>(
      send: Sender<W, Q, R>, w: W, qs: seq<Q>, locks: nat -> bool, i: nat, k: nat)
    decreases k
  {
    && qs != []
    && if k == 0 then RefusalOf(send(w, qs[0]), locks(i)) != Ok
       else send(w, qs[0]).Sent? && locks(i) && RefusedAt(send, NextWorld(send, w, qs[0]), qs[1..], locks, i + 1, k - 1)
  }

  lemma {:induction false} RefusedWithin<W, Q, R>(
      send: Sender<W, Q, R>, w: W, qs: seq<Q>, locks: nat -> bool, i: nat, k: nat)
    requires RefusedAt(send, w, qs, locks, i, k)
    ensures k < |qs| && RefusalOf(OutcomeAt(send, w, qs, k), locks(i + k)) != Ok
    decreases k
  {
    if k > 0 {
      RefusedWithin(send, NextWorld(send, w, qs[0]), qs[1..], locks, i + 1, k - 1);
    }
  }

  lemma IterateTakes<W, Q, R>(s: State<W, Q, R>, send: Sender<W, Q, R>, qs: seq<Q>, locks: nat -> bool, i: nat)
      returns (t: State<W, Q, R>)
    requires qs != [] && Pending(s, qs) && send(s.world, qs[0]).Sent? && locks(i)
    ensures t.lists.unsent == s.lists.unsent[1..] && t.lists.complete == [s.lists.unsent[0]] + s.lists.complete
    ensures t.world == NextWorld(send, s.world, qs[0]) && Pending(t, qs[1..])
    ensures Drain(s, send, locks, i) == Drain(t, send, locks, i + 1)
  {
    HeadAsked(s, qs);
    IterateExactly(s, send, qs[0], locks(i));
    t := Iterate(s, send, locks(i)).0;
    PendingNext(s, t, qs, t.lists.store[s.lists.unsent[0]]);
  }

  /** Where a drain stops: at the first request not taken, with the reason, everything above it
      moved to the complete list in reverse, everything from it downwards still to be sent, and the
      world as the sends made so far, a locked-out one included, have left it. */
  lemma {:induction false} DrainStopsAtFirstRefusal<W, Q, R>(
      s: State<W, Q, R>, send: Sender<W, Q, R>, qs: seq<Q>, locks: nat -> bool, i: nat, k: nat)
    requires Pending(s, qs) && RefusedAt(send, s.world, qs, locks, i, k)
    ensures k < |qs| == |s.lists.unsent|
    ensures var (t, status) := Drain(s, send, locks, i);
            && status == RefusalOf(OutcomeAt(send, s.world, qs, k), locks(i + k)) != Ok
            && t.lists.unsent == s.lists.unsent[k..]
            && t.lists.complete == Reverse(s.lists.unsent[..k]) + s.lists.complete
            && t.world == After(send, s.world, qs[..k + 1])
    decreases k
  {
    RefusedWithin(send, s.world, qs, locks, i, k);
    assert qs[..k + 1][0] == qs[0] && qs[..k + 1][1..] == qs[1..][..k];
    if k == 0 {
      HeadAsked(s, qs);
      IterateStatus(s, send, locks(i));
      assert s.lists.unsent[..0] == [] && s.lists.unsent[0..] == s.lists.unsent;
      assert [] + s.lists.complete == s.lists.complete;
    } else {
      var t := IterateTakes(s, send, qs, locks, i);
      DrainStopsAtFirstRefusal(t, send, qs[1..], locks, i + 1, k - 1);
      UnstackOne(s.lists.unsent, s.lists.complete, k);
    }
  }

  // ----- submissions -----

  function Requests<Q>(subs: seq<Submission<Q>>): (r: seq<Q>)
    ensures |r| == |subs| && forall i :: 0 <= i < |r| ==> r[i] == subs[i].request
  {
    seq(|subs|, i requires 0 <= i < |subs| => subs[i].request)
  }

  function SubmitAll<W, Q, R>(s: State<W, Q, R>, subs: seq<Submission<Q>>): State<W, Q, R> {
    s.(lists := PushEach(s.lists, subs, Put<Q, R>))
  }

  lemma PutIsOwn<Q(!new), R(!new)>()
    ensures PutsOwn(Put<Q, R>)
  {
  }

  /** A second submission under a uuid does not replace the first one's request. */
  lemma FirstRequestStays<W, Q, R>(s: State<W, Q, R>, uuid: Uuid, q: Q, q': Q)
    requires uuid !in s.lists.store
    ensures var t := Push(Push(s, uuid, q), uuid, q');
            t.lists.store == s.lists.store[uuid := Asked(q)] && t.lists.unsent == [uuid, uuid] + s.lists.unsent
  {
  }

  lemma PutIsNew<Q(!new), R(!new)>(sub: Submission<Q>)
    ensures PutsNew(Put<Q, R>, sub, Asked(sub.request))
  {
  }

  /** New submissions with distinct uuids. */
  ghost predicate New<W, Q, R>(s: State<W, Q, R>, subs: seq<Submission<Q>>) {
    NoDup(Uuids(subs) + s.lists.complete) && forall i :: 0 <= i < |subs| ==> subs[i].uuid !in s.lists.store
  }

  /** Submitted requests are pending newest first. */
  lemma SubmissionsPending<W, Q(!new), R(!new)>(s: State<W, Q, R>, subs: seq<Submission<Q>>)
    requires s.lists.unsent == [] && New(s, subs)
    ensures SubmitAll(s, subs).lists.unsent == Reverse(Uuids(subs))
    ensures SubmitAll(s, subs).lists.complete == s.lists.complete && SubmitAll(s, subs).world == s.world
    ensures Pending(SubmitAll(s, subs), Reverse(Requests(subs)))
  {
    var p, qs := SubmitAll(s, subs), Reverse(Requests(subs));
    PushEachLists(s.lists, subs, Put<Q, R>);
    assert p.lists.unsent == Reverse(Uuids(subs));
    NoDupParts(Uuids(subs), s.lists.complete);
    ReverseAt(Uuids(subs));
    ReverseAt(Requests(subs));
    forall j | 0 <= j < |qs|
      ensures AskedAt(p, qs, j)
    {
      var k := |subs| - 1 - j;
      PutIsOwn<Q, R>();
      PutIsNew<Q, R>(subs[k]);
      PushEachStores(s.lists, subs, Put<Q, R>, k, Asked(subs[k].request));
    }
  }

  /** What submission i is owed: the outcome of its own request, sent after all later ones. */
  ghost function Owed<W, Q, R>(send: Sender<W, Q, R>, w: W, subs: seq<Submission<Q>>, i: nat): Outcome<W, R>
    requires i < |subs|
  {
    ReverseAt(Requests(subs));
    OutcomeAt(send, w, Reverse(Requests(subs)), |subs| - 1 - i)
  }

  /** All the submissions are sent in one drain. */
  ghost predicate GoesThrough<W, Q, R>(
      s: State<W, Q, R>, send: Sender<W, Q, R>, subs: seq<Submission<Q>>, locks: nat -> bool) {
    s.lists.unsent == [] && New(s, subs) && Succeeds(send, s.world, Reverse(Requests(subs))) && Free(locks, 0, |subs|)
  }

  /** Buffered requests are sent newest first: of any requests submitted to an empty buffer before
      one drain, each is sent after all that were submitted later, and is answered so. */
  lemma NewestRequestSentFirst<W, Q(!new), R(!new)>(
      s: State<W, Q, R>, send: Sender<W, Q, R>, subs: seq<Submission<Q>>, locks: nat -> bool)
    requires GoesThrough(s, send, subs, locks)
    ensures var (t, status) := Drain(SubmitAll(s, subs), send, locks, 0);
            && status == Ok && t.lists.unsent == [] && t.lists.complete == Uuids(subs) + s.lists.complete
            && t.world == After(send, s.world, Reverse(Requests(subs)))
  {
    var p, qs := SubmitAll(s, subs), Reverse(Requests(subs));
    SubmissionsPending(s, subs);
    ReverseAt(Requests(subs));
    DrainGetsThroughExactly(p, send, qs, locks, 0);
    DrainSendsFromTheTop(p, send, qs, locks, 0);
    ReverseInvolution(Uuids(subs));
  }

  lemma AnsweredFrom<W, Q, R>(
      p: State<W, Q, R>, send: Sender<W, Q, R>, subs: seq<Submission<Q>>, locks: nat -> bool, i: nat)
    requires i < |subs| && p.lists.unsent == Reverse(Uuids(subs)) && Pending(p, Reverse(Requests(subs)))
    requires Succeeds(send, p.world, Reverse(Requests(subs))) && Free(locks, 0, |subs|)
    ensures Owed(send, p.world, subs, i).Sent?
    ensures var t := Drain(p, send, locks, 0).0;
            && subs[i].uuid in t.lists.store
            && t.lists.store[subs[i].uuid] == Answered(Owed(send, p.world, subs, i).result)
  {
    var qs, j := Reverse(Requests(subs)), |subs| - 1 - i;
    assert |qs| == |subs| by {
      ReverseAt(Requests(subs));
    }
    assert p.lists.unsent[j] == subs[i].uuid by {
      ReverseAt(Uuids(subs));
    }
    DrainAnswersInTurn(p, send, qs, locks, 0, j);
  }

  lemma SubmissionAnswered<W, Q(!new), R(!new)>(
      s: State<W, Q, R>, send: Sender<W, Q, R>, subs: seq<Submission<Q>>, locks: nat -> bool, i: nat)
    requires GoesThrough(s, send, subs, locks) && i < |subs|
    ensures Owed(send, s.world, subs, i).Sent?
    ensures var t := Drain(SubmitAll(s, subs), send, locks, 0).0;
            && subs[i].uuid in t.lists.store
            && t.lists.store[subs[i].uuid] == Answered(Owed(send, s.world, subs, i).result)
  {
    SubmissionsPending(s, subs);
    AnsweredFrom(SubmitAll(s, subs), send, subs, locks, i);
  }

  /** The reply that submission i gets when all are drained and then fetched in order. */
  ghost predicate FetchedAs<W, Q, R>(
      s: State<W, Q, R>, send: Sender<W, Q, R>, subs: seq<Submission<Q>>, locks: nat -> bool, i: nat, r: R) {
    var replies := FetchAll(Drain(SubmitAll(s, subs), send, locks, 0).0.lists, Uuids(subs)).1;
    i < |replies| == |subs| && replies[i] == Reply(Ok, Stage.Sent, Some(Answered(r)))
  }

  // ----- fetching in turn -----

  /** The queue theorem: fetching in submission order answers every submitter with the result of
      its own request, and a second fetch finds nothing. */
  lemma FirstSubmittedFirstFetched<W, Q(!new), R(!new)>(
      s: State<W, Q, R>, send: Sender<W, Q, R>, subs: seq<Submission<Q>>, locks: nat -> bool, i: nat)
    requires GoesThrough(s, send, subs, locks) && i < |subs|
    ensures Owed(send, s.world, subs, i).Sent?
    ensures FetchedAs(s, send, subs, locks, i, Owed(send, s.world, subs, i).result)
    ensures var t := FetchAll(Drain(SubmitAll(s, subs), send, locks, 0).0.lists, Uuids(subs)).0;
            Fetch(t, subs[i].uuid, true) == (t, Reply(Ok, NotExist, None))
  {
    var uuids := Uuids(subs);
    var t := Drain(SubmitAll(s, subs), send, locks, 0).0;
    NewestRequestSentFirst(s, send, subs, locks);
    forall k | 0 <= k < |uuids|
      ensures uuids[k] in t.lists.store
    {
      SubmissionAnswered(s, send, subs, locks, k);
    }
    FetchInTurn(t.lists, uuids, s.lists.complete);
    SubmissionAnswered(s, send, subs, locks, i);
    assert uuids[i] == subs[i].uuid;
    NoDupParts(uuids, s.lists.complete);
  }

  // ----- iterations that are locked out -----

  function LockedOut<W, Q, R>(s: State<W, Q, R>, send: Sender<W, Q, R>, k: nat): State<W, Q, R>
    requires s.lists.unsent != []
    decreases k
  {
    if k == 0 then s
    else
      var t := Iterate(s, send, false).0;
      assert t.lists.unsent == s.lists.unsent;
      LockedOut(t, send, k - 1)
  }

  /** A request is sent once more for every iteration that fails to take the lock afterwards;
      only the last of these sends is reported. */
  lemma {:induction false} SentOnceMorePerLockout<W, Q, R>(s: State<W, Q, R>, send: Sender<W, Q, R>, q: Q, k: nat)
    requires s.lists.unsent != [] && s.lists.unsent[0] in s.lists.store && s.lists.store[s.lists.unsent[0]] == Asked(q)
    requires Succeeds(send, s.world, Repeat(q, k + 1))
    ensures LockedOut(s, send, k) == s.(world := After(send, s.world, Repeat(q, k)))
    ensures var (t, status) := Iterate(LockedOut(s, send, k), send, true);
            var last := OutcomeAt(send, s.world, Repeat(q, k + 1), k);
            && status == Ok && last.Sent? && t.world == last.world
            && t.lists.store == s.lists.store[s.lists.unsent[0] := Answered(last.result)]
    decreases k
  {
    assert Repeat(q, k + 1)[1..] == Repeat(q, k);
    if k > 0 {
      assert Repeat(q, k)[1..] == Repeat(q, k - 1);
      SentOnceMorePerLockout(Iterate(s, send, false).0, send, q, k - 1);
    }
  }

  // ----- senders that count -----

  /** A sender whose n-th send of q is known in advance. */
  ghost predicate Counts<W(!new), Q, R>(send: Sender<W, Q, R>, q: Q, at: (W, nat) -> bool, want: nat -> R) {
    forall w: W, n: nat :: CountsAt(send, q, at, want, w, n)
  }

  ghost predicate CountsAt<W, Q, R>(send: Sender<W, Q, R>, q: Q, at: (W, nat) -> bool, want: nat -> R, w: W, n: nat) {
    at(w, n) ==> send(w, q).Sent? && send(w, q).result == want(n) && at(send(w, q).world, n + 1)
  }

  /** Sending q does not disturb the count. */
  ghost predicate Keeps<W(!new), Q, R>(send: Sender<W, Q, R>, q: Q, at: (W, nat) -> bool) {
    forall w: W, n: nat :: KeepsAt(send, q, at, w, n)
  }

  ghost predicate KeepsAt<W, Q, R>(send: Sender<W, Q, R>, q: Q, at: (W, nat) -> bool, w: W, n: nat) {
    at(w, n) ==> at(NextWorld(send, w, q), n)
  }

  ghost predicate CountsOrKeeps<W(!new), Q, R>(send: Sender<W, Q, R>, qs: seq<Q>, q: Q, at: (W, nat) -> bool) {
    forall j :: 0 <= j < |qs| ==> qs[j] == q || Keeps(send, qs[j], at)
  }

  /** Among requests that do not disturb it, a request is send number n plus the number of equal
      requests before it. */
  lemma {:induction false} CountedOutcome<W(!new), Q, R>(
      send: Sender<W, Q, R>, w: W, qs: seq<Q>, q: Q, at: (W, nat) -> bool, want: nat -> R, n: nat, j: nat)
    requires Counts(send, q, at, want) && CountsOrKeeps(send, qs, q, at) && at(w, n)
    requires j < |qs| && qs[j] == q
    ensures OutcomeAt(send, w, qs, j).Sent?
    ensures OutcomeAt(send, w, qs, j).result == want(n + multiset(qs[..j])[q])
    decreases j
  {
    assert CountsAt(send, q, at, want, w, n);
    if j == 0 {
      assert qs[..0] == [];
    } else {
      var w', tail := NextWorld(send, w, qs[0]), qs[1..];
      var n' := if qs[0] == q then n + 1 else n;
      assert qs[0] == q || KeepsAt(send, qs[0], at, w, n);
      assert forall k :: 0 <= k < |tail| ==> tail[k] == qs[k + 1];
      CountedOutcome(send, w', tail, q, at, want, n', j - 1);
      assert qs[..j] == [qs[0]] + tail[..j - 1];
      assert multiset(qs[..j]) == multiset{qs[0]} + multiset(tail[..j - 1]);
    }
  }

  lemma {:induction false} ReverseMultiset<Q>(s: seq<Q>)
    ensures multiset(Reverse(s)) == multiset(s)
  {
    if s != [] {
      ReverseMultiset(s[1..]);
      assert s == [s[0]] + s[1..];
    }
  }

  /** The requests sent before submission i are those submitted after it. */
  lemma SentBefore<Q>(qs: seq<Q>, i: nat)
    requires i < |qs|
    ensures |Reverse(qs)| == |qs| && Reverse(qs)[|qs| - 1 - i] == qs[i]
    ensures multiset(Reverse(qs)[..|qs| - 1 - i]) == multiset(qs[i + 1..])
  {
    ReverseAt(qs);
    var a, b := qs[..i + 1], qs[i + 1..];
    assert qs == a + b;
    ReverseConcat(a, b);
    ReverseAt(a);
    ReverseAt(b);
    assert Reverse(qs)[..|b|] == Reverse(b);
    ReverseMultiset(b);
  }

  lemma ReversedCountsOrKeeps<W(!new), Q, R>(send: Sender<W, Q, R>, qs: seq<Q>, q: Q, at: (W, nat) -> bool)
    requires CountsOrKeeps(send, qs, q, at)
    ensures CountsOrKeeps(send, Reverse(qs), q, at)
  {
    ReverseAt(qs);
  }

  /** Submission i is owed send number n plus the number of equal requests submitted after it. */
  lemma CountedBackwards<W(!new), Q, R>(
      send: Sender<W, Q, R>, w: W, subs: seq<Submission<Q>>, i: nat,
      q: Q, at: (W, nat) -> bool, want: nat -> R, n: nat)
    requires i < |subs| && subs[i].request == q && Counts(send, q, at, want) && at(w, n)
    requires CountsOrKeeps(send, Requests(subs), q, at)
    ensures Owed(send, w, subs, i).Sent?
    ensures Owed(send, w, subs, i).result == want(n + multiset(Requests(subs)[i + 1..])[q])
  {
    var qs, j := Reverse(Requests(subs)), |subs| - 1 - i;
    SentBefore(Requests(subs), i);
    ReversedCountsOrKeeps(send, Requests(subs), q, at);
    CountedOutcome(send, w, qs, q, at, want, n, j);
  }

  /** In terms of what is fetched. */
  lemma CountedFetch<W(!new), Q(!new), R(!new)>(
      s: State<W, Q, R>, send: Sender<W, Q, R>, subs: seq<Submission<Q>>, locks: nat -> bool, i: nat,
      q: Q, at: (W, nat) -> bool, want: nat -> R, n: nat)
    requires GoesThrough(s, send, subs, locks) && i < |subs| && subs[i].request == q && at(s.world, n)
    requires Counts(send, q, at, want) && CountsOrKeeps(send, Requests(subs), q, at)
    ensures FetchedAs(s, send, subs, locks, i, want(n + multiset(Requests(subs)[i + 1..])[q]))
  {
    FirstSubmittedFirstFetched(s, send, subs, locks, i);
    CountedBackwards(send, s.world, subs, i, q, at, want, n);
  }

  lemma {:induction false} AllEqualCount<Q>(qs: seq<Q>, q: Q)
    requires forall k :: 0 <= k < |qs| ==> qs[k] == q
    ensures multiset(qs)[q] == |qs|
  {
    if qs != [] {
      AllEqualCount(qs[1..], q);
      assert qs == [qs[0]] + qs[1..];
    }
  }

  /** With equal requests only. */
  lemma OneKindFetch<W(!new), Q(!new), R(!new)>(
      s: State<W, Q, R>, send: Sender<W, Q, R>, subs: seq<Submission<Q>>, locks: nat -> bool, i: nat,
      q: Q, at: (W, nat) -> bool, want: nat -> R, n: nat)
    requires GoesThrough(s, send, subs, locks) && i < |subs| && at(s.world, n) && Counts(send, q, at, want)
    requires forall k :: 0 <= k < |subs| ==> subs[k].request == q
    ensures FetchedAs(s, send, subs, locks, i, want(n + |subs| - 1 - i))
  {
    AllEqualCount(Requests(subs)[i + 1..], q);
    CountedFetch(s, send, subs, locks, i, q, at, want, n);
  }
}

/** The protocol with the MAM sender: the world is the Tangle. */
module MamBuffer {
  import opened Common
  import opened MamLedger
  import opened MamRuns
  import opened RequestLists
  import opened RequestBuffer

  ghost function SendOutcome(l: Ledger, q: Request): Outcome<Ledger, SendResult> {
    match ResultOf(l, q)
    case SendFailed(e) => Outcome.Failed(e)
    case Sent(_, _) => Outcome.Sent(ResultOf(l, q), LedgerAfter(l, q))
  }

  class Service {
    var unsent: seq<Uuid>
    var complete: seq<Uuid>
    var values: map<Uuid, Value<Request, SendResult>>
    var ledger: Ledger

    ghost function View(): State<Ledger, Request, SendResult>
      reads this
    {
      State(Lists(unsent, complete, values), ledger)
    }

    constructor (ledger: Ledger)
      ensures View() == State(Lists([], [], map[]), ledger)
    {
      unsent, complete, values := [], [], map[];
      this.ledger := ledger;
    }

    /** api_send_mam_message; the caller supplies the random uuid. */
    method SendMam(uuid: Uuid, q: Request)
      modifies this
      ensures View() == Push(old(View()), uuid, q)
    {
      if uuid !in values {
        values := values[uuid := Asked(q)];
      }
      unsent := [uuid] + unsent;
    }

    method BroadcastOne(lock: bool) returns (status: Status)
      requires unsent != []
      modifies this
      ensures (View(), status) == Iterate(old(View()), SendOutcome, lock)
    {
      var uuid := unsent[0];
      if uuid !in values {
        return CacheFailedResponse;
      }
      if values[uuid].Answered? {
        return Null;
      }
      var r, l' := SendMamMessage(ledger, values[uuid].request);
      if r.SendFailed? {
        return r.status;
      }
      ledger := l';
      if !lock {
        return CacheLockFailure;
      }
      values := values[uuid := Answered(r)];
      unsent, complete := unsent[1..], [uuid] + complete;
      status := Ok;
    }

    /** broadcast_buffered_send_mam_request. */
    method BroadcastBuffered(locks: nat -> bool) returns (status: Status)
      modifies this
      ensures (View(), status) == Drain(old(View()), SendOutcome, locks, 0)
    {
      status := Ok;
      var i := 0;
      while |unsent| != 0
        invariant Drain(View(), SendOutcome, locks, i) == Drain(old(View()), SendOutcome, locks, 0) && status == Ok
        decreases |unsent|
      {
        status := BroadcastOne(locks(i));
        if status != Ok {
          return;
        }
        i := i + 1;
      }
    }

    /** ta_fetch_mam_with_uuid. */
    method FetchMam(uuid: Uuid, lock: bool) returns (reply: Reply<Value<Request, SendResult>>)
      modifies this
      ensures (View().lists, reply) == Fetch(old(View().lists), uuid, lock) && ledger == old(ledger)
    {
      if !lock {
        return Reply(CacheLockFailure, NotExist, None);
      }
      if uuid in unsent {
        return Reply(Ok, Unsent, None);
      }
      if uuid !in complete {
        return Reply(Ok, NotExist, None);
      }
      if uuid !in values {
        return Reply(CacheFailedResponse, Stage.Sent, None);
      }
      reply := Reply(Ok, Stage.Sent, Some(values[uuid]));
      values, complete := values - {uuid}, complete[1..];
    }
  }

  /** Being at send number n of a seed and depth, and what that send reports. */
  ghost predicate AtSend(seed: string, depth: nat, l: Ledger, n: nat) {
    1 <= depth && Progress(l, seed, depth, n)
  }

  function Reported(seed: string, depth: nat, n: nat): SendResult {
    if 1 <= depth then Expected(seed, depth, n) else SendFailed(Null)
  }

  ghost function AtSends(seed: string, depth: nat): (Ledger, nat) -> bool {
    (l: Ledger, n: nat) => AtSend(seed, depth, l, n)
  }

  /** Send number n of a seed and depth reports what the closed form says. */
  ghost function Reports(seed: string, depth: nat): nat -> SendResult {
    (n: nat) => Reported(seed, depth, n)
  }

  type MamSender = Sender<Ledger, Request, SendResult>

  /** The MAM sender as a value. */
  ghost predicate IsMamSender(send: MamSender) {
    forall l: Ledger, q: Request {:trigger SendsAs(send, l, q)} :: SendsAs(send, l, q)
  }

  ghost predicate SendsAs(send: MamSender, l: Ledger, q: Request) {
    send(l, q) == SendOutcome(l, q)
  }

  lemma SendOutcomeIsMamSender()
    ensures IsMamSender(SendOutcome)
  {
    forall l: Ledger, q: Request
      ensures SendsAs(SendOutcome, l, q)
    {
    }
  }

  lemma MamSendsCount(send: MamSender, seed: string, depth: nat)
    requires IsMamSender(send)
    ensures Counts(send, Landing(seed, depth), AtSends(seed, depth), Reports(seed, depth))
  {
    forall l: Ledger, n: nat
      ensures CountsAt(send, Landing(seed, depth), AtSends(seed, depth), Reports(seed, depth), l, n)
    {
      assert SendsAs(send, l, Landing(seed, depth));
      if AtSend(seed, depth, l, n) {
        SendAdvances(l, seed, depth, n);
      }
    }
  }

  /** Sends of another seed or depth, whatever their start and losses, leave the count alone. */
  lemma OtherSendsKeep(send: MamSender, q: Request, seed: string, depth: nat)
    requires IsMamSender(send) && (q.seed != seed || q.depth != depth)
    ensures Keeps(send, q, AtSends(seed, depth))
  {
    forall l: Ledger, n: nat
      ensures KeepsAt(send, q, AtSends(seed, depth), l, n)
    {
      assert SendsAs(send, l, q);
      if AtSend(seed, depth, l, n) {
        OtherSendKeepsProgress(l, q, seed, depth, n);
      }
    }
  }

  /** The requests of this seed and depth are plain and all they broadcast lands. */
  ghost predicate PlainOrOther(subs: seq<Submission<Request>>, seed: string, depth: nat) {
    forall k :: 0 <= k < |subs| ==>
      subs[k].request == Landing(seed, depth) || subs[k].request.seed != seed || subs[k].request.depth != depth
  }

  lemma SameOrOther(send: MamSender, subs: seq<Submission<Request>>, seed: string, depth: nat)
    requires IsMamSender(send) && PlainOrOther(subs, seed, depth)
    ensures CountsOrKeeps(send, Requests(subs), Landing(seed, depth), AtSends(seed, depth))
  {
    forall k | 0 <= k < |Requests(subs)|
      ensures Requests(subs)[k] == Landing(seed, depth) || Keeps(send, Requests(subs)[k], AtSends(seed, depth))
    {
      if subs[k].request != Landing(seed, depth) {
        OtherSendsKeep(send, subs[k].request, seed, depth);
      }
    }
  }

  /** What the counting argument needs to know of the sender and the submissions. */
  lemma MamCounting(send: MamSender, subs: seq<Submission<Request>>, l: Ledger, seed: string, depth: nat, n: nat)
    requires IsMamSender(send) && AtSend(seed, depth, l, n) && PlainOrOther(subs, seed, depth)
    ensures AtSends(seed, depth)(l, n)
    ensures Counts(send, Landing(seed, depth), AtSends(seed, depth), Reports(seed, depth))
    ensures CountsOrKeeps(send, Requests(subs), Landing(seed, depth), AtSends(seed, depth))
  {
    MamSendsCount(send, seed, depth);
    SameOrOther(send, subs, seed, depth);
  }

  lemma FetchedReport(
      s: State<Ledger, Request, SendResult>, send: MamSender, subs: seq<Submission<Request>>, locks: nat -> bool,
      i: nat, m: nat, seed: string, depth: nat)
    requires FetchedAs(s, send, subs, locks, i, Reports(seed, depth)(m)) && 1 <= depth
    ensures FetchedAs(s, send, subs, locks, i, Expected(seed, depth, m))
  {
  }

  /** How many requests of this seed and depth were submitted after submission i. */
  ghost function Later(subs: seq<Submission<Request>>, i: nat, seed: string, depth: nat): nat
    requires i < |subs|
  {
    multiset(Requests(subs)[i + 1..])[Landing(seed, depth)]
  }

  /** Buffered messages take their keys backwards.  Any requests are submitted before one drain
      that gets through; those of this seed and depth are plain and all they broadcast lands.
      Then a submission of this seed and depth, fetched in turn, reports the key of send number n
      plus the number of such requests submitted after it. */
  lemma BufferedKeysRunBackwards(
      s: State<Ledger, Request, SendResult>, send: MamSender, subs: seq<Submission<Request>>, locks: nat -> bool,
      seed: string, depth: nat, n: nat, i: nat)
    requires IsMamSender(send) && GoesThrough(s, send, subs, locks) && AtSend(seed, depth, s.world, n)
    requires i < |subs| && subs[i].request == Landing(seed, depth) && PlainOrOther(subs, seed, depth)
    ensures FetchedAs(s, send, subs, locks, i, Expected(seed, depth, n + Later(subs, i, seed, depth)))
  {
    MamCounting(send, subs, s.world, seed, depth, n);
    CountedFetch(s, send, subs, locks, i, Landing(seed, depth), AtSends(seed, depth), Reports(seed, depth), n);
    FetchedReport(s, send, subs, locks, i, n + Later(subs, i, seed, depth), seed, depth);
  }

  /** Plain requests always go through while the lock is free. */
  lemma {:induction false} PlainRequestsSucceed(send: MamSender, l: Ledger, qs: seq<Request>)
    requires IsMamSender(send) && forall k :: 0 <= k < |qs| ==> qs[k].start == None && 1 <= qs[k].depth
    ensures Succeeds(send, l, qs)
    decreases |qs|
  {
    if qs != [] {
      assert SendsAs(send, l, qs[0]);
      PlainRequestsSucceed(send, NextWorld(send, l, qs[0]), qs[1..]);
    }
  }

  lemma OneSenderGoesThrough(
      s: State<Ledger, Request, SendResult>, send: MamSender, subs: seq<Submission<Request>>, locks: nat -> bool,
      seed: string, depth: nat)
    requires IsMamSender(send) && s.lists.unsent == [] && New(s, subs) && 1 <= depth && Free(locks, 0, |subs|)
    requires forall k :: 0 <= k < |subs| ==> subs[k].request == Landing(seed, depth)
    ensures GoesThrough(s, send, subs, locks)
  {
    ReverseAt(Requests(subs));
    PlainRequestsSucceed(send, s.world, Reverse(Requests(subs)));
  }

  /** One sender: of m messages buffered before one drain, message i reports the key of send number
      n + m - 1 - i. */
  lemma OneSenderRunsBackwards(
      s: State<Ledger, Request, SendResult>, send: MamSender, subs: seq<Submission<Request>>, locks: nat -> bool,
      seed: string, depth: nat, n: nat, i: nat)
    requires IsMamSender(send) && s.lists.unsent == [] && New(s, subs) && Free(locks, 0, |subs|)
    requires AtSend(seed, depth, s.world, n) && i < |subs|
    requires forall k :: 0 <= k < |subs| ==> subs[k].request == Landing(seed, depth)
    ensures FetchedAs(s, send, subs, locks, i, Expected(seed, depth, n + |subs| - 1 - i))
  {
    OneSenderGoesThrough(s, send, subs, locks, seed, depth);
    assert AtSends(seed, depth)(s.world, n);
    MamSendsCount(send, seed, depth);
    OneKindFetch(s, send, subs, locks, i, Landing(seed, depth), AtSends(seed, depth), Reports(seed, depth), n);
  }
}
