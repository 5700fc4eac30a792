/** Two stacks make a queue: what submitters get back, and in which order. */
module BufferQueue {
  import opened Common
  import opened Redis
  import opened RequestLists
  import opened BufferSpec
  import opened BufferRuns

  // ----- how far a drain gets -----

  /** The request is stored, and the attempt sends it, reads it back and gets the lock. */
  ghost predicate Takes(s: State, u: Uuid, attempt: Attempt) {
    u in s.store && attempt.net(s.store[u]).Attached? && attempt.lock
  }

  /** Iteration i + j takes the request at depth j. */
  ghost predicate TakesAt(s: State, world: nat -> Attempt, i: nat, j: nat) {
    j < |s.unsent| && Takes(s, s.unsent[j], world(i + j))
  }

  ghost predicate TakesFirst(s: State, world: nat -> Attempt, i: nat, k: nat) {
    forall j :: 0 <= j < k ==> TakesAt(s, world, i, j)
  }

  ghost predicate Sendable(s: State, world: nat -> Attempt, i: nat) {
    TakesFirst(s, world, i, |s.unsent|)
  }

  /** The transactions stored for a request once an attempt has taken it. */
  function AnswerTo(s: State, u: Uuid, attempt: Attempt): seq<Trytes>
    requires Takes(s, u, attempt)
  {
    Reverse(attempt.net(s.store[u]).trytes)
  }

  lemma BroadcastExactly(s: State, attempt: Attempt)
    requires s.unsent != []
    ensures Broadcast(s, attempt.net, attempt.lock).1 == Ok <==> Takes(s, s.unsent[0], attempt)
    ensures Takes(s, s.unsent[0], attempt) ==>
              Broadcast(s, attempt.net, attempt.lock).0 ==
              Lists(s.unsent[1..], [s.unsent[0]] + s.complete,
                    SetList(s.store, s.unsent[0], AnswerTo(s, s.unsent[0], attempt)))
  {
  }

  /** Rewriting one request leaves the others as they were. */
  lemma TakesAfterOther(s: State, t: State, v: Uuid, txns: seq<Trytes>, u: Uuid, attempt: Attempt)
    requires u != v && t.store == SetList(s.store, v, txns)
    ensures Takes(t, u, attempt) <==> Takes(s, u, attempt)
    ensures Takes(s, u, attempt) ==> AnswerTo(t, u, attempt) == AnswerTo(s, u, attempt)
    ensures (u in t.store <==> u in s.store) && ListOf(t.store, u) == ListOf(s.store, u)
  {
  }

  lemma TakesFirstStep(s: State, t: State, txns: seq<Trytes>, world: nat -> Attempt, i: nat, k: nat)
    requires 0 < k <= |s.unsent| && NoDup(s.unsent) && t.unsent == s.unsent[1..]
    requires t.store == SetList(s.store, s.unsent[0], txns)
    ensures NoDup(t.unsent)
    ensures TakesFirst(s, world, i, k) <==> Takes(s, s.unsent[0], world(i)) && TakesFirst(t, world, i + 1, k - 1)
  {
    var i' := i + 1;
    forall j | 0 < j < k
      ensures TakesAt(t, world, i', j - 1) <==> TakesAt(s, world, i, j)
    {
      assert t.unsent[j - 1] == s.unsent[j] && i + 1 + (j - 1) == i + j;
      TakesAfterOther(s, t, s.unsent[0], txns, s.unsent[j], world(i + j));
    }
    assert TakesAt(s, world, i, 0) <==> Takes(s, s.unsent[0], world(i));
    if TakesFirst(s, world, i, k) {
      forall j | 0 <= j < k - 1
        ensures TakesAt(t, world, i', j)
      {
        assert TakesAt(s, world, i, j + 1);
      }
    }
  }

  lemma HeadFirst(s: State, world: nat -> Attempt, i: nat, k: nat)
    requires 1 <= k <= |s.unsent|
    ensures TakesFirst(s, world, i, k) ==> Takes(s, s.unsent[0], world(i))
  {
    assert TakesAt(s, world, i, 0) <==> Takes(s, s.unsent[0], world(i));
  }

  /** One iteration that takes its request. */
  lemma DrainStep(s: State, world: nat -> Attempt, i: nat, k: nat) returns (t: State)
    requires 1 <= k <= |s.unsent| && NoDup(s.unsent) && TakesFirst(s, world, i, k)
    ensures Takes(s, s.unsent[0], world(i))
    ensures t == Lists(s.unsent[1..], [s.unsent[0]] + s.complete,
                       SetList(s.store, s.unsent[0], AnswerTo(s, s.unsent[0], world(i))))
    ensures NoDup(t.unsent) && TakesFirst(t, world, i + 1, k - 1)
    ensures Drain(s, world, i) == Drain(t, world, i + 1)
  {
    t := Broadcast(s, world(i).net, world(i).lock).0;
    HeadFirst(s, world, i, k);
    BroadcastExactly(s, world(i));
    TakesFirstStep(s, t, AnswerTo(s, s.unsent[0], world(i)), world, i, k);
  }

  /** A drain gets through if and only if every request is stored and each iteration, with the
      network and the lock it meets, takes the request whose turn it is. */
  lemma {:induction false} DrainGetsThroughExactly(s: State, world: nat -> Attempt, i: nat)
    requires NoDup(s.unsent)
    ensures Drain(s, world, i).1 == Ok <==> Sendable(s, world, i)
    decreases |s.unsent|
  {
    if s.unsent != [] {
      HeadFirst(s, world, i, |s.unsent|);
      BroadcastExactly(s, world(i));
      if Takes(s, s.unsent[0], world(i)) {
        var t := Broadcast(s, world(i).net, world(i).lock).0;
        TakesFirstStep(s, t, AnswerTo(s, s.unsent[0], world(i)), world, i, |s.unsent|);
        DrainGetsThroughExactly(t, world, i + 1);
      }
    }
  }

  /** Where it stops: at the first request not taken, if any, with everything above it moved to
      the complete list in reverse and everything from it downwards still to be sent. */
  lemma {:induction false} DrainStopsAtFirstRefusal(s: State, world: nat -> Attempt, i: nat, k: nat)
    requires NoDup(s.unsent) && k <= |s.unsent| && TakesFirst(s, world, i, k)
    requires k == |s.unsent| || !TakesFirst(s, world, i, k + 1)
    ensures Drain(s, world, i).0.unsent == s.unsent[k..]
    ensures Drain(s, world, i).0.complete == Reverse(s.unsent[..k]) + s.complete
    decreases k
  {
    if k == 0 {
      DrainRefused(s, world, i);
    } else {
      var t := DrainStep(s, world, i, k);
      if k < |s.unsent| {
        TakesFirstStep(s, t, AnswerTo(s, s.unsent[0], world(i)), world, i, k + 1);
      }
      DrainStopsAtFirstRefusal(t, world, i + 1, k - 1);
      UnstackOne(s.unsent, s.complete, k);
    }
  }

  lemma DrainRefused(s: State, world: nat -> Attempt, i: nat)
    requires s.unsent == [] || !TakesFirst(s, world, i, 1)
    ensures Drain(s, world, i).0.unsent == s.unsent[0..]
    ensures Drain(s, world, i).0.complete == Reverse(s.unsent[..0]) + s.complete
  {
    assert s.unsent[..0] == [] && s.unsent[0..] == s.unsent && [] + s.complete == s.complete;
    if s.unsent != [] {
      assert TakesAt(s, world, i, 0) <==> Takes(s, s.unsent[0], world(i));
      BroadcastExactly(s, world(i));
    }
  }

  // ----- with which status it stops, and what it leaves -----

  /** Why an attempt does not take a request: the node fails it, nothing is stored for it, or the
      lock is taken. */
  ghost function RefusalOf(s: State, u: Uuid, attempt: Attempt): Status {
    if !attempt.net(ListOf(s.store, u)).Attached? then ClientFailedResponse
    else if u !in s.store then CacheFailedResponse
    else if !attempt.lock then CacheLockFailure
    else Ok
  }

  /** The status of an iteration is the reason, and what it changes is the stored transactions of
      the head, if the lock was the reason, and otherwise nothing. */
  lemma BroadcastRefusal(s: State, attempt: Attempt)
    requires s.unsent != [] && !Takes(s, s.unsent[0], attempt)
    ensures var (t, status) := Broadcast(s, attempt.net, attempt.lock);
            && status == RefusalOf(s, s.unsent[0], attempt)
            && t.unsent == s.unsent && t.complete == s.complete
            && (status != CacheLockFailure ==> t == s)
            && (status == CacheLockFailure ==>
                  t.store == SetList(s.store, s.unsent[0], Reverse(attempt.net(s.store[s.unsent[0]]).trytes)))
  {
  }

  lemma RefusalAfterOther(s: State, t: State, v: Uuid, txns: seq<Trytes>, u: Uuid, attempt: Attempt)
    requires u != v && t.store == SetList(s.store, v, txns)
    ensures RefusalOf(t, u, attempt) == RefusalOf(s, u, attempt)
  {
  }

  lemma RefusalShift(s: State, t: State, world: nat -> Attempt, i: nat, k: nat)
    requires 0 < k < |s.unsent| && NoDup(s.unsent) && Takes(s, s.unsent[0], world(i)) && t.unsent == s.unsent[1..]
    requires t.store == SetList(s.store, s.unsent[0], AnswerTo(s, s.unsent[0], world(i)))
    ensures RefusalOf(t, t.unsent[k - 1], world(i + 1 + (k - 1))) == RefusalOf(s, s.unsent[k], world(i + k))
    ensures TakesFirst(t, world, i + 1, k) ==> TakesFirst(s, world, i, k + 1)
    ensures ListOf(t.store, t.unsent[k - 1]) == ListOf(s.store, s.unsent[k])
  {
    var answer := AnswerTo(s, s.unsent[0], world(i));
    assert t.unsent[k - 1] == s.unsent[k] && i + 1 + (k - 1) == i + k;
    RefusalAfterOther(s, t, s.unsent[0], answer, s.unsent[k], world(i + k));
    TakesAfterOther(s, t, s.unsent[0], answer, s.unsent[k], world(i + k));
    TakesFirstStep(s, t, answer, world, i, k + 1);
  }

  /** The status of a drain is that of the first request not taken. */
  lemma {:induction false} DrainStatusExactly(s: State, world: nat -> Attempt, i: nat, k: nat)
    requires NoDup(s.unsent) && k < |s.unsent| && TakesFirst(s, world, i, k) && !TakesFirst(s, world, i, k + 1)
    ensures Drain(s, world, i).1 == RefusalOf(s, s.unsent[k], world(i + k)) != Ok
    decreases k
  {
    if k == 0 {
      assert TakesAt(s, world, i, 0) <==> Takes(s, s.unsent[0], world(i));
      BroadcastRefusal(s, world(i));
    } else {
      var t := DrainStep(s, world, i, k);
      RefusalShift(s, t, world, i, k);
      DrainStatusExactly(t, world, i + 1, k - 1);
    }
  }

  lemma RefusalSpares(s: State, world: nat -> Attempt, i: nat, u: Uuid)
    requires s.unsent != [] && !TakesFirst(s, world, i, 1) && u != s.unsent[0]
    ensures ListOf(Drain(s, world, i).0.store, u) == ListOf(s.store, u)
  {
    assert TakesAt(s, world, i, 0) <==> Takes(s, s.unsent[0], world(i));
    BroadcastExactly(s, world(i));
    BroadcastRefusal(s, world(i));
  }

  lemma RestShift(s: State, t: State, txns: seq<Trytes>, j: nat)
    requires 0 < j < |s.unsent| && NoDup(s.unsent) && t.unsent == s.unsent[1..]
    requires t.store == SetList(s.store, s.unsent[0], txns)
    ensures t.unsent[j - 1] == s.unsent[j] && ListOf(t.store, s.unsent[j]) == ListOf(s.store, s.unsent[j])
  {
  }

  /** One iteration of a drain that stops further down. */
  lemma StopStep(s: State, world: nat -> Attempt, i: nat, k: nat, j: nat) returns (t: State)
    requires NoDup(s.unsent) && 0 < k < j < |s.unsent|
    requires TakesFirst(s, world, i, k) && !TakesFirst(s, world, i, k + 1)
    ensures NoDup(t.unsent) && |t.unsent| == |s.unsent| - 1 && t.unsent[j - 1] == s.unsent[j]
    ensures TakesFirst(t, world, i + 1, k - 1) && !TakesFirst(t, world, i + 1, k)
    ensures Drain(s, world, i) == Drain(t, world, i + 1)
    ensures ListOf(t.store, s.unsent[j]) == ListOf(s.store, s.unsent[j])
  {
    t := DrainStep(s, world, i, k);
    RefusalShift(s, t, world, i, k);
    RestShift(s, t, AnswerTo(s, s.unsent[0], world(i)), j);
  }

  /** Nothing stored below the first request not taken changes. */
  lemma {:induction false} DrainLeavesTheRest(s: State, world: nat -> Attempt, i: nat, k: nat, j: nat)
    requires NoDup(s.unsent) && k < j < |s.unsent| && TakesFirst(s, world, i, k) && !TakesFirst(s, world, i, k + 1)
    ensures ListOf(Drain(s, world, i).0.store, s.unsent[j]) == ListOf(s.store, s.unsent[j])
    decreases k
  {
    if k == 0 {
      RefusalSpares(s, world, i, s.unsent[j]);
    } else {
      var u, left := s.unsent[j], Drain(s, world, i).0.store;
      var t := StopStep(s, world, i, k, j);
      assert Drain(t, world, i + 1).0.store == left;
      DrainLeavesTheRest(t, world, i + 1, k - 1, j - 1);
      assert ListOf(left, u) == ListOf(t.store, u) == ListOf(s.store, u);
    }
  }

  /** Nothing changes for a request that is not among those sent. */
  lemma {:induction false} DrainSpares(s: State, world: nat -> Attempt, i: nat, u: Uuid)
    requires NoDup(s.unsent) && Sendable(s, world, i) && u !in s.unsent
    ensures ListOf(Drain(s, world, i).0.store, u) == ListOf(s.store, u)
    decreases |s.unsent|
  {
    if s.unsent != [] {
      var t := DrainStep(s, world, i, |s.unsent|);
      DrainSpares(t, world, i + 1, u);
      TakesAfterOther(s, t, s.unsent[0], AnswerTo(s, s.unsent[0], world(i)), u, world(i));
    }
  }

  lemma DrainStoresFirst(s: State, world: nat -> Attempt, i: nat)
    requires NoDup(s.unsent) && Sendable(s, world, i) && s.unsent != []
    ensures Takes(s, s.unsent[0], world(i))
    ensures ListOf(Drain(s, world, i).0.store, s.unsent[0]) == AnswerTo(s, s.unsent[0], world(i))
  {
    var t := DrainStep(s, world, i, |s.unsent|);
    DrainSpares(t, world, i + 1, s.unsent[0]);
  }

  /** One iteration later everything stands one place higher. */
  lemma AnswersShift(s: State, t: State, final: Space, world: nat -> Attempt, i: nat, j: nat)
    requires 0 < j < |s.unsent| && NoDup(s.unsent) && Takes(s, s.unsent[0], world(i))
    requires t.unsent == s.unsent[1..]
    requires t.store == SetList(s.store, s.unsent[0], AnswerTo(s, s.unsent[0], world(i)))
    requires Takes(t, t.unsent[j - 1], world(i + 1 + (j - 1)))
    requires ListOf(final, t.unsent[j - 1]) == AnswerTo(t, t.unsent[j - 1], world(i + 1 + (j - 1)))
    ensures Takes(s, s.unsent[j], world(i + j))
    ensures ListOf(final, s.unsent[j]) == AnswerTo(s, s.unsent[j], world(i + j))
  {
    assert t.unsent[j - 1] == s.unsent[j] && i + 1 + (j - 1) == i + j;
    TakesAfterOther(s, t, s.unsent[0], AnswerTo(s, s.unsent[0], world(i)), s.unsent[j], world(i + j));
  }

  /** The transactions stored for the request at depth j become the answer that iteration j got,
      in reverse. */
  lemma {:induction false} DrainStoresAnswers(s: State, world: nat -> Attempt, i: nat, j: nat)
    requires NoDup(s.unsent) && Sendable(s, world, i) && j < |s.unsent|
    ensures Takes(s, s.unsent[j], world(i + j))
    ensures ListOf(Drain(s, world, i).0.store, s.unsent[j]) == AnswerTo(s, s.unsent[j], world(i + j))
    decreases j
  {
    if j == 0 {
      DrainStoresFirst(s, world, i);
    } else {
      var t := DrainStep(s, world, i, |s.unsent|);
      DrainStoresAnswers(t, world, i + 1, j - 1);
      AnswersShift(s, t, Drain(t, world, i + 1).0.store, world, i, j);
    }
  }

  // ----- the queue -----

  /** What a submitter is owed: the node's answer to the buffered order, reversed once more. */
  function Owed(net: Network, txns: seq<Trytes>): seq<Trytes>
    requires net(Reverse(txns)).Attached?
  {
    Reverse(net(Reverse(txns)).trytes)
  }

  /** The iteration that sends the i-th of n submissions: the newest goes first. */
  function Turn(n: nat, i: nat): nat
    requires i < n
  {
    n - 1 - i
  }

  /** A new, non-empty submission that its iteration sends. */
  ghost predicate Accepted(s: State, sub: Submission<seq<Trytes>>, attempt: Attempt) {
    && sub.request != [] && sub.uuid !in s.store
    && attempt.lock && attempt.net(Reverse(sub.request)).Attached? && attempt.net(Reverse(sub.request)).trytes != []
  }

  ghost predicate Acceptable(s: State, subs: seq<Submission<seq<Trytes>>>, world: nat -> Attempt) {
    && NoDup(Uuids(subs) + s.complete)
    && forall i :: 0 <= i < |subs| ==> Accepted(s, subs[i], world(Turn(|subs|, i)))
  }

  lemma SubmissionsPushed(s: State, subs: seq<Submission<seq<Trytes>>>, world: nat -> Attempt)
    requires s.unsent == [] && Acceptable(s, subs, world)
    ensures var p := SubmitAll(s, subs);
            p.unsent == Reverse(Uuids(subs)) && p.complete == s.complete && NoDup(p.unsent)
  {
    PushEachLists(s, subs, Put);
    NoDupParts(Uuids(subs), s.complete);
    ReverseNoDup(Uuids(subs));
  }

  lemma SubmissionSendable(s: State, subs: seq<Submission<seq<Trytes>>>, world: nat -> Attempt, i: nat)
    requires s.unsent == [] && Acceptable(s, subs, world) && i < |subs|
    ensures var p, j := SubmitAll(s, subs), Turn(|subs|, i);
            && Accepted(s, subs[i], world(j))
            && Takes(p, subs[i].uuid, world(j))
            && AnswerTo(p, subs[i].uuid, world(j)) == Owed(world(j).net, subs[i].request) != []
  {
    NoDupParts(Uuids(subs), s.complete);
    assert Accepted(s, subs[i], world(Turn(|subs|, i)));
    PutIsOwn();
    PutIsNew(subs[i]);
    PushEachStores(s, subs, Put, i, Reverse(subs[i].request));
    ReverseNonEmpty(world(Turn(|subs|, i)).net(Reverse(subs[i].request)).trytes);
  }

  lemma ReverseNonEmpty(txns: seq<Trytes>)
    requires txns != []
    ensures Reverse(txns) != []
  {
  }

  lemma SubmissionTurn(s: State, subs: seq<Submission<seq<Trytes>>>, world: nat -> Attempt, i: nat)
    requires s.unsent == [] && Acceptable(s, subs, world) && i < |subs|
    ensures |SubmitAll(s, subs).unsent| == |subs|
    ensures SubmitAll(s, subs).unsent[Turn(|subs|, i)] == subs[i].uuid
  {
    SubmissionsPushed(s, subs, world);
    ReverseAt(Uuids(subs));
  }

  lemma SubmissionsSendable(s: State, subs: seq<Submission<seq<Trytes>>>, world: nat -> Attempt)
    requires s.unsent == [] && Acceptable(s, subs, world)
    ensures Sendable(SubmitAll(s, subs), world, 0)
  {
    var p := SubmitAll(s, subs);
    assert |p.unsent| == |subs| by {
      SubmissionsPushed(s, subs, world);
      ReverseAt(Uuids(subs));
    }
    forall j | 0 <= j < |p.unsent|
      ensures TakesAt(p, world, 0, j)
    {
      SubmissionTurn(s, subs, world, |subs| - 1 - j);
      SubmissionSendable(s, subs, world, |subs| - 1 - j);
    }
  }

  lemma DrainedFrom(p: State, world: nat -> Attempt, j: nat, want: seq<Trytes>)
    requires NoDup(p.unsent) && Sendable(p, world, 0) && j < |p.unsent|
    requires Takes(p, p.unsent[j], world(j)) && AnswerTo(p, p.unsent[j], world(j)) == want != []
    ensures var t := Drain(p, world, 0).0;
            p.unsent[j] in t.store && t.store[p.unsent[j]] == want
  {
    DrainStoresAnswers(p, world, 0, j);
  }

  /** What is stored for the i-th submission once all have been sent. */
  lemma DrainedAnswer(s: State, subs: seq<Submission<seq<Trytes>>>, world: nat -> Attempt, i: nat)
    requires s.unsent == [] && Acceptable(s, subs, world) && i < |subs|
    ensures Accepted(s, subs[i], world(Turn(|subs|, i)))
    ensures var t := Drain(SubmitAll(s, subs), world, 0).0;
            && subs[i].uuid in t.store
            && t.store[subs[i].uuid] == Owed(world(Turn(|subs|, i)).net, subs[i].request)
  {
    SubmissionsPushed(s, subs, world);
    SubmissionsSendable(s, subs, world);
    SubmissionTurn(s, subs, world, i);
    SubmissionSendable(s, subs, world, i);
    var j := Turn(|subs|, i);
    DrainedFrom(SubmitAll(s, subs), world, j, Owed(world(j).net, subs[i].request));
  }

  lemma SubmissionsDrain(s: State, subs: seq<Submission<seq<Trytes>>>, world: nat -> Attempt)
    requires s.unsent == [] && Acceptable(s, subs, world)
    ensures var (t, status) := Drain(SubmitAll(s, subs), world, 0);
            status == Ok && t.unsent == [] && t.complete == Uuids(subs) + s.complete
  {
    var p := SubmitAll(s, subs);
    SubmissionsPushed(s, subs, world);
    SubmissionsSendable(s, subs, world);
    DrainGetsThroughExactly(p, world, 0);
    DrainStopsAtFirstRefusal(p, world, 0, |p.unsent|);
    assert p.unsent[..|p.unsent|] == p.unsent;
    ReverseInvolution(Uuids(subs));
  }

  /** The queue theorem: after any number of submissions and one drain, in which the network may
      answer each iteration differently, fetching in submission order answers every submitter
      with its own result, and every uuid is then unknown. */
  lemma FirstSubmittedFirstFetched(s: State, subs: seq<Submission<seq<Trytes>>>, world: nat -> Attempt)
    requires s.unsent == [] && Acceptable(s, subs, world)
    ensures var t := Drain(SubmitAll(s, subs), world, 0).0;
            var (t', replies) := FetchAll(t, Uuids(subs));
            && |replies| == |subs|
            && forall i :: 0 <= i < |subs| ==>
                 && Accepted(s, subs[i], world(Turn(|subs|, i)))
                 && replies[i] == Reply(Ok, Sent, Some(Owed(world(Turn(|subs|, i)).net, subs[i].request)))
                 && Fetch(t', subs[i].uuid, true).1 == Reply(Ok, NotExist, None)
  {
    SubmissionsDrain(s, subs, world);
    var uuids := Uuids(subs);
    var t := Drain(SubmitAll(s, subs), world, 0).0;
    forall i | 0 <= i < |uuids|
      ensures uuids[i] in t.store
    {
      DrainedAnswer(s, subs, world, i);
    }
    FetchInTurn(t, uuids, s.complete);
    var (t', replies) := FetchAll(t, uuids);
    forall i | 0 <= i < |subs|
      ensures Accepted(s, subs[i], world(Turn(|subs|, i)))
      ensures replies[i] == Reply(Ok, Sent, Some(Owed(world(Turn(|subs|, i)).net, subs[i].request)))
      ensures Fetch(t', subs[i].uuid, true).1 == Reply(Ok, NotExist, None)
    {
      assert uuids[i] == subs[i].uuid;
      DrainedAnswer(s, subs, world, i);
      NoDupParts(uuids, s.complete);
      SecondFetchUnknown(t', subs[i].uuid);
    }
  }

  // ----- the order of a request's own transactions -----

  /** The fields of each transaction that attaching leaves alone. */
  function Essences<E>(essence: Trytes -> E, txns: seq<Trytes>): (r: seq<E>)
    ensures |r| == |txns| && forall i :: 0 <= i < |r| ==> r[i] == essence(txns[i])
  {
    seq(|txns|, i requires 0 <= i < |txns| => essence(txns[i]))
  }

  /** Whenever a send succeeds, what was sent is attached one for one and in the order sent. */
  ghost predicate Positional<E>(net: Network, essence: Trytes -> E) {
    forall txns: seq<Trytes> ::
      net(txns).Attached? ==> Essences(essence, net(txns).trytes) == Essences(essence, txns)
  }

  lemma EssencesReverse<E>(essence: Trytes -> E, txns: seq<Trytes>)
    ensures Essences(essence, Reverse(txns)) == Reverse(Essences(essence, txns))
  {
    ReverseAt(txns);
    ReverseAt(Essences(essence, txns));
  }

  /** Iterations, numbered from i, that do not get as far as the lock: the send fails, or it
      succeeds and rewrites the stored transactions but the lock is taken. */
  function Held(s: State, nets: nat -> Network, i: nat, k: nat): (t: State)
    requires s.unsent != []
    ensures t.unsent == s.unsent
    decreases k
  {
    if k == 0 then s
    else
      var t := Broadcast(s, nets(i), false).0;
      assert t.unsent == s.unsent;
      Held(t, nets, i + 1, k - 1)
  }

  /** 1 if the iteration rewrites the stored transactions of the head. */
  function Rewrote(s: State, net: Network): nat
    requires s.unsent != []
  {
    if Prepare(s, net).1 == Ok then 1 else 0
  }

  /** How many of them rewrote the stored transactions. */
  function Rewrites(s: State, nets: nat -> Network, i: nat, k: nat): nat
    requires s.unsent != []
    decreases k
  {
    if k == 0 then 0
    else
      var t := Broadcast(s, nets(i), false).0;
      assert t.unsent == s.unsent;
      Rewrote(s, nets(i)) + Rewrites(t, nets, i + 1, k - 1)
  }

  /** The iteration after k of these sends and reads back the request. */
  ghost predicate HeldSends(s: State, nets: nat -> Network, k: nat)
    requires s.unsent != []
  {
    Prepare(Held(s, nets, 0, k), nets(k)).1 == Ok
  }

  function Flip<E>(s: seq<E>, k: nat): seq<E> {
    if k % 2 == 0 then s else Reverse(s)
  }

  ghost predicate HeadStored(s: State) {
    s.unsent != [] && s.unsent[0] in s.store && s.store[s.unsent[0]] != []
  }

  lemma RewriteFlips<E>(s: State, net: Network, essence: Trytes -> E)
    requires HeadStored(s) && Positional(net, essence) && Prepare(s, net).1 == Ok
    ensures var t, u := Prepare(s, net).0, s.unsent[0];
            && t.unsent == s.unsent && t.complete == s.complete && HeadStored(t)
            && Essences(essence, t.store[u]) == Reverse(Essences(essence, s.store[u]))
  {
    var u := s.unsent[0];
    var answer := net(s.store[u]).trytes;
    assert Essences(essence, answer) == Essences(essence, s.store[u]);
    ReverseAt(answer);
    EssencesReverse(essence, answer);
  }

  lemma FlipTwice<E>(x: seq<E>, k: nat, m: nat)
    ensures Flip(Flip(x, k), m) == Flip(x, k + m)
  {
    ReverseInvolution(x);
  }

  /** An iteration that does not get the lock. */
  lemma HeldFlips<E>(s: State, net: Network, essence: Trytes -> E)
    requires HeadStored(s) && Positional(net, essence)
    ensures var t, u := Broadcast(s, net, false).0, s.unsent[0];
            && t.unsent == s.unsent && t.complete == s.complete && HeadStored(t)
            && Essences(essence, t.store[u]) == Flip(Essences(essence, s.store[u]), Rewrote(s, net))
  {
    if Prepare(s, net).1 == Ok {
      RewriteFlips(s, net, essence);
    }
  }

  lemma {:induction false} EachRewriteFlips<E>(
      s: State, nets: nat -> Network, essence: Trytes -> E, i: nat, k: nat)
    requires HeadStored(s) && forall j: nat :: Positional(nets(j), essence)
    ensures var t, u := Held(s, nets, i, k), s.unsent[0];
            && t.unsent == s.unsent && t.complete == s.complete && HeadStored(t)
            && Essences(essence, t.store[u]) == Flip(Essences(essence, s.store[u]), Rewrites(s, nets, i, k))
    decreases k
  {
    if k > 0 {
      var t := Broadcast(s, nets(i), false).0;
      HeldFlips(s, nets(i), essence);
      EachRewriteFlips(t, nets, essence, i + 1, k - 1);
      FlipTwice(Essences(essence, s.store[s.unsent[0]]), Rewrote(s, nets(i)), Rewrites(t, nets, i + 1, k - 1));
    }
  }

  /** A buffered bundle of any length, broadcast after k iterations that failed to send it or to
      take the lock, is fetched in the order it was submitted if and only if an even number of
      them rewrote it (or the order is its own reverse): the submission and each rewrite reverse
      it once. */
  lemma OrderRestoredExactlyAfterEvenRewrites<E>(
      s: State, uuid: Uuid, txns: seq<Trytes>, nets: nat -> Network, essence: Trytes -> E, k: nat)
    requires txns != [] && uuid !in s.store && uuid !in s.unsent && uuid !in s.complete
    requires forall j: nat :: Positional(nets(j), essence)
    requires HeldSends(Push(s, uuid, txns), nets, k)
    ensures var p := Push(s, uuid, txns);
            var reply := Fetch(Broadcast(Held(p, nets, 0, k), nets(k), true).0, uuid, true).1;
            var want := Essences(essence, txns);
            && reply.status == Ok && reply.stage == Sent && reply.value.Some?
            && Essences(essence, reply.value.value) == Flip(want, Rewrites(p, nets, 0, k))
            && (Essences(essence, reply.value.value) == want <==>
                Rewrites(p, nets, 0, k) % 2 == 0 || want == Reverse(want))
  {
    var p := Push(s, uuid, txns);
    ReverseAt(txns);
    assert Reverse(txns) + [] == Reverse(txns);
    EachRewriteFlips(p, nets, essence, 0, k);
    var t := Held(p, nets, 0, k);
    RewriteFlips(t, nets(k), essence);
    EssencesReverse(essence, txns);
    var want := Essences(essence, txns);
    ReverseInvolution(want);
    var t' := Broadcast(t, nets(k), true).0;
    assert t'.unsent == s.unsent && uuid in t'.complete;
  }
}
