/** What every run of the buffered-request protocol keeps. */
module BufferRuns {
  import opened Common
  import opened Redis
  import opened RequestLists
  import opened BufferSpec

  datatype Step =
    | Submit(uuid: Uuid, txns: seq<Trytes>)
    | Iterate(net: Network, lock: bool)
    | Ask(uuid: Uuid, lock: bool)
    | EvictRound(lock: bool)

  /** The cache with its history, and the eviction loop's uuid buffer. */
  datatype System = System(state: State, history: History, last: Uuid)

  function StateAfter(y: System, step: Step): State {
    match step
    case Submit(uuid, txns) => Push(y.state, uuid, txns)
    case Iterate(net, lock) => if y.state.unsent == [] then y.state else Broadcast(y.state, net, lock).0
    case Ask(uuid, lock) => Fetch(y.state, uuid, lock).0
    case EvictRound(lock) => Evict(y.state, y.last, lock).0
  }

  function Submitted(step: Step): Option<Uuid> {
    if step.Submit? then Some(step.uuid) else None
  }

  function Next(y: System, step: Step): System {
    var s' := StateAfter(y, step);
    System(s', Advance(y.history, y.state, s', Submitted(step)),
           if step.EvictRound? then Evict(y.state, y.last, step.lock).1 else y.last)
  }

  /** Random uuids are new, and never the empty string. */
  ghost predicate Legal(y: System, step: Step) {
    step.Submit? ==> step.uuid !in y.history.accepted && step.uuid != ""
  }

  ghost predicate LegalRun(y: System, steps: seq<Step>)
    decreases |steps|
  {
    steps != [] ==> Legal(y, steps[0]) && LegalRun(Next(y, steps[0]), steps[1..])
  }

  function Run(y: System, steps: seq<Step>): System
    decreases |steps|
  {
    if steps == [] then y else Run(Next(y, steps[0]), steps[1..])
  }

  // ----- conservation of requests -----

  /** Each accepted uuid is in exactly one place, and the last evicted one is not on a list. */
  ghost predicate Sound(y: System) {
    && Conserved(y.state, y.history)
    && (y.last == "" || y.last in y.history.removed) && "" !in y.history.accepted
  }

  lemma StartIsSound()
    ensures Sound(System(Lists([], [], map[]), History({}, {}), "")) && Stocked<seq<Trytes>>(Lists([], [], map[]))
  {
  }

  lemma StepIsListStep(y: System, step: Step)
    ensures ListStep(y.state, StateAfter(y, step), Submitted(step))
  {
  }

  /** Every step, an out-of-turn fetch included, conserves requests and moves each only forward. */
  lemma StepConserves(y: System, step: Step)
    requires Sound(y) && Legal(y, step)
    ensures Sound(Next(y, step))
    ensures forall u :: Rank(y.state, y.history, u) <= Rank(Next(y, step).state, Next(y, step).history, u)
  {
    StepIsListStep(y, step);
    ListStepConserves(y.state, StateAfter(y, step), Submitted(step), y.history);
  }

  /** Conservation over every legal run, and no request ever moves backwards in it. */
  lemma {:induction false} RunConserves(y: System, steps: seq<Step>)
    requires Sound(y) && LegalRun(y, steps)
    ensures Sound(Run(y, steps))
    ensures forall u :: Rank(y.state, y.history, u) <= Rank(Run(y, steps).state, Run(y, steps).history, u)
    decreases |steps|
  {
    if steps != [] {
      StepConserves(y, steps[0]);
      RunConserves(Next(y, steps[0]), steps[1..]);
    }
  }

  /** Eviction never removes an unsent request or its stored transactions, even when the complete
      list is empty and the last evicted uuid is deleted again. */
  lemma EvictionSparesUnsent(y: System, lock: bool)
    requires Sound(y)
    ensures var s' := StateAfter(y, EvictRound(lock));
            s'.unsent == y.state.unsent &&
            forall u :: u in y.state.unsent ==> ListOf(s'.store, u) == ListOf(y.state.store, u)
  {
    forall u | u in y.state.unsent
      ensures u != y.last && u !in y.state.complete
    {
      assert u in Elems(y.state.unsent);
      assert u in y.state.complete ==> u in Elems(y.state.complete);
    }
  }

  // ----- the stored transactions -----

  /** The node answers one transaction for each it was sent. */
  ghost predicate Answering(net: Network) {
    forall txns: seq<Trytes> :: net(txns).Attached? ==> |net(txns).trytes| == |txns|
  }

  /** A step that respects the buffer: requests are not empty, the node answers in full, and a
      completed request is fetched in its turn. */
  ghost predicate InTurn(y: System, step: Step) {
    match step
    case Submit(_, txns) => txns != []
    case Iterate(net, _) => Answering(net)
    case Ask(uuid, lock) => lock && uuid in y.state.complete ==> uuid == y.state.complete[0]
    case EvictRound(_) => true
  }

  lemma IterateStocks(s: State, net: Network, lock: bool)
    requires s.unsent != [] && NoDup(s.unsent) && Answering(net)
    requires Stocked(s) && NoEmptyLists(s.store)
    ensures Stocked(Broadcast(s, net, lock).0) && NoEmptyLists(Broadcast(s, net, lock).0.store)
  {
    var u := s.unsent[0];
    assert u in Elems(s.unsent);
    var a := net(s.store[u]);
    if a.Attached? {
      ReverseAt(a.trytes);
      var p := Prepare(s, net).0;
      assert p.store.Keys == s.store.Keys;
      ElemsUncons(s.unsent);
      ElemsCons(u, s.complete);
    }
  }

  lemma StepStocks(y: System, step: Step)
    requires Sound(y) && Legal(y, step) && InTurn(y, step)
    requires Stocked(y.state) && NoEmptyLists(y.state.store)
    ensures Stocked(StateAfter(y, step)) && NoEmptyLists(StateAfter(y, step).store)
  {
    var s := y.state;
    match step {
      case Submit(uuid, txns) =>
        ElemsCons(uuid, s.unsent);
        ReverseAt(txns);
      case Iterate(net, lock) =>
        if s.unsent != [] {
          IterateStocks(s, net, lock);
        }
      case Ask(uuid, lock) =>
        if s.complete != [] {
          RemoveHeadStocks(s, y.history);
        }
      case EvictRound(lock) =>
        if s.complete != [] {
          RemoveHeadStocks(s, y.history);
        } else {
          assert y.last !in s.store.Keys;
          assert s.store - {y.last} == s.store;
        }
    }
  }

  function Evictions(s: State, last: Uuid, rounds: nat): (State, Uuid)
    decreases rounds
  {
    if rounds == 0 then (s, last)
    else
      var (s', last') := Evict(s, last, true);
      Evictions(s', last', rounds - 1)
  }

  /** Rounds evict from the head of the complete list on, each request with its transactions, and
      the buffer holds the last one evicted. */
  lemma {:induction false} EvictionsInOrder(s: State, last: Uuid, rounds: nat)
    requires rounds <= |s.complete|
    ensures var (t, last') := Evictions(s, last, rounds);
            && t.unsent == s.unsent && t.complete == s.complete[rounds..]
            && t.store == s.store - Elems(s.complete[..rounds])
            && last' == if rounds == 0 then last else s.complete[rounds - 1]
    decreases rounds
  {
    if rounds == 0 {
      assert s.complete[..0] == [] && s.store - Elems(s.complete[..0]) == s.store;
    } else {
      var (s', last') := Evict(s, last, true);
      EvictionsInOrder(s', last', rounds - 1);
      assert s.complete[..rounds] == [s.complete[0]] + s'.complete[..rounds - 1];
      assert Elems(s.complete[..rounds]) == {s.complete[0]} + Elems(s'.complete[..rounds - 1]);
      assert s'.store - Elems(s'.complete[..rounds - 1]) == s.store - Elems(s.complete[..rounds]);
    }
  }

  /** A run of such rounds is those evictions, the uuid buffer carried from round to round. */
  lemma {:induction false} RunOfEvictions(y: System, steps: seq<Step>)
    requires forall i :: 0 <= i < |steps| ==> steps[i] == EvictRound(true)
    ensures (Run(y, steps).state, Run(y, steps).last) == Evictions(y.state, y.last, |steps|)
    decreases |steps|
  {
    if steps != [] {
      RunOfEvictions(Next(y, steps[0]), steps[1..]);
    }
  }

  /** No round adds to the complete list or to the store. */
  lemma {:induction false} EvictionsShrink(s: State, last: Uuid, rounds: nat)
    ensures var t := Evictions(s, last, rounds).0;
            |t.complete| <= |s.complete| && t.store.Keys <= s.store.Keys
    decreases rounds
  {
    if rounds > 0 {
      var (s', last') := Evict(s, last, true);
      EvictionsShrink(s', last', rounds - 1);
    }
  }

  /** Any number of rounds free nothing if and only if no request is complete and the uuid left
      over in the loop's buffer has nothing stored. */
  lemma {:induction false} EvictionFreesNothingExactly(s: State, last: Uuid, rounds: nat)
    requires rounds > 0
    ensures Evictions(s, last, rounds).0 == s <==> s.complete == [] && last !in s.store
    decreases rounds
  {
    var (s', last') := Evict(s, last, true);
    EvictionsShrink(s', last', rounds - 1);
    if s.complete == [] && last !in s.store {
      assert s.store - {last} == s.store;
      if rounds > 1 {
        EvictionFreesNothingExactly(s, last, rounds - 1);
      }
    } else if s.complete == [] {
      assert last !in s'.store.Keys && last in s.store.Keys;
    }
  }

  /** While storage follows the lists, eviction frees nothing exactly when nothing is complete,
      whatever is waiting to be sent. */
  lemma EvictionStallsExactlyWithoutCompleted(y: System, rounds: nat)
    requires Sound(y) && Stocked(y.state) && rounds > 0
    ensures Evictions(y.state, y.last, rounds).0 == y.state <==> y.state.complete == []
  {
    MembersOfElems(y.state);
    assert y.state.complete == [] ==> y.last !in y.state.store.Keys;
    EvictionFreesNothingExactly(y.state, y.last, rounds);
  }

  ghost predicate InTurnRun(y: System, steps: seq<Step>)
    decreases |steps|
  {
    steps != [] ==> InTurn(y, steps[0]) && InTurnRun(Next(y, steps[0]), steps[1..])
  }

  /** Over every run in which fetches come in turn, storage follows the lists exactly: nothing
      leaks and no listed request is without its transactions. */
  lemma {:induction false} RunStocks(y: System, steps: seq<Step>)
    requires Sound(y) && LegalRun(y, steps) && InTurnRun(y, steps)
    requires Stocked(y.state) && NoEmptyLists(y.state.store)
    ensures Stocked(Run(y, steps).state)
    decreases |steps|
  {
    if steps != [] {
      StepConserves(y, steps[0]);
      StepStocks(y, steps[0]);
      RunStocks(Next(y, steps[0]), steps[1..]);
    }
  }

  /** Transactions stored under a uuid that has left both lists are never freed, except for the
      uuid in the eviction loop's buffer: they survive every legal run. */
  lemma {:induction false} LeakedForGood(y: System, u: Uuid, txns: seq<Trytes>, steps: seq<Step>)
    requires Sound(y) && LegalRun(y, steps)
    requires Leaked(y.state, y.history, u, txns) && u != y.last
    ensures Leaked(Run(y, steps).state, Run(y, steps).history, u, txns) && u != Run(y, steps).last
    decreases |steps|
  {
    if steps != [] {
      StepConserves(y, steps[0]);
      NextKeepsLeaked(y, u, txns, steps[0]);
      LeakedForGood(Next(y, steps[0]), u, txns, steps[1..]);
    }
  }

  lemma NextKeepsLeaked(y: System, u: Uuid, txns: seq<Trytes>, step: Step)
    requires Sound(y) && Legal(y, step) && Leaked(y.state, y.history, u, txns) && u != y.last
    ensures Leaked(Next(y, step).state, Next(y, step).history, u, txns) && u != Next(y, step).last
  {
    MembersOfElems(y.state);
    assert u !in y.state.unsent && u !in y.state.complete;
    StepKeepsLeaked(y.state, StateAfter(y, step), Submitted(step), y.history, u, txns);
  }

  /** So one fetch out of turn leaks for good the transactions of the request that was at the head. */
  lemma OutOfTurnFetchLeaks(y: System, uuid: Uuid, steps: seq<Step>)
    requires Sound(y) && Stocked(y.state)
    requires uuid in y.state.complete && uuid != y.state.complete[0]
    requires LegalRun(Next(y, Ask(uuid, true)), steps)
    ensures var head, z := y.state.complete[0], Run(Next(y, Ask(uuid, true)), steps);
            head in y.state.store && Leaked(z.state, z.history, head, y.state.store[head]) &&
            head !in z.state.unsent && head !in z.state.complete
  {
    var head, y' := y.state.complete[0], Next(y, Ask(uuid, true));
    StepConserves(y, Ask(uuid, true));
    OutOfTurnFetchLeaksHead(y.state, y.history, uuid);
    assert head in Elems(y.state.complete);
    LeakedForGood(y', head, y.state.store[head], steps);
    RunConserves(y', steps);
    MembersOfElems(Run(y', steps).state);
  }

  /** At every point of every run a query tells exactly how far the request has come. */
  lemma RunTellsRank(y: System, steps: seq<Step>, u: Uuid)
    requires Sound(y) && LegalRun(y, steps)
    ensures var z := Run(y, steps);
            var reply := Fetch(z.state, u, true).1;
            && (reply.stage == Unsent <==> Rank(z.state, z.history, u) == 1)
            && (reply.stage == Sent <==> Rank(z.state, z.history, u) == 2)
            && (reply.stage == NotExist <==> u !in z.history.accepted || u in z.history.removed)
  {
    RunConserves(y, steps);
    FetchTellsRank(Run(y, steps).state, Run(y, steps).history, u);
  }

  /** A step that wants the lock and does not get it. */
  predicate WithoutLock(step: Step) {
    match step
    case Submit(_, _) => true
    case Iterate(_, lock) => !lock
    case Ask(_, lock) => !lock
    case EvictRound(lock) => !lock
  }

  function SubmittedIn(steps: seq<Step>): seq<Uuid> {
    if steps == [] then []
    else (if steps[0].Submit? then [steps[0].uuid] else []) + SubmittedIn(steps[1..])
  }

  lemma StepWithoutLock(y: System, step: Step)
    requires WithoutLock(step)
    ensures Next(y, step).state.unsent == SubmittedIn([step]) + y.state.unsent
    ensures Next(y, step).state.complete == y.state.complete
    ensures Next(y, step).history.removed == y.history.removed && Next(y, step).last == y.last
  {
    assert [step][1..] == [];
    assert SubmittedIn([step]) == if step.Submit? then [step.uuid] else [];
  }

  lemma SubmittedFirst(steps: seq<Step>, unsent: seq<Uuid>)
    requires steps != []
    ensures Reverse(SubmittedIn(steps[1..])) + (SubmittedIn([steps[0]]) + unsent) ==
            Reverse(SubmittedIn(steps)) + unsent
  {
    var first, later := SubmittedIn([steps[0]]), SubmittedIn(steps[1..]);
    assert [steps[0]][1..] == [];
    assert SubmittedIn(steps) == first + later;
    StackUnder(first, later, unsent);
  }

  /** Over every run in which nobody gets the lock, submissions pile up and nothing else moves. */
  lemma {:induction false} RunWithoutLock(y: System, steps: seq<Step>)
    requires forall i :: 0 <= i < |steps| ==> WithoutLock(steps[i])
    ensures Run(y, steps).state.unsent == Reverse(SubmittedIn(steps)) + y.state.unsent
    ensures Run(y, steps).state.complete == y.state.complete
    ensures Run(y, steps).history.removed == y.history.removed && Run(y, steps).last == y.last
    decreases |steps|
  {
    if steps != [] {
      StepWithoutLock(y, steps[0]);
      RunWithoutLock(Next(y, steps[0]), steps[1..]);
      SubmittedFirst(steps, y.state.unsent);
    }
  }

  /** A drain that gets through is a run of as many iterations as there are requests. */
  lemma {:induction false} RunOfDrain(y: System, world: nat -> Attempt, i: nat, steps: seq<Step>)
    requires |steps| == |y.state.unsent| && Drain(y.state, world, i).1 == Ok
    requires forall j :: 0 <= j < |steps| ==> steps[j] == Iterate(world(i + j).net, world(i + j).lock)
    ensures Run(y, steps).state == Drain(y.state, world, i).0
    decreases |steps|
  {
    if steps != [] {
      forall j | 0 <= j < |steps| - 1
        ensures steps[1..][j] == Iterate(world(i + 1 + j).net, world(i + 1 + j).lock)
      {
        assert steps[1..][j] == steps[j + 1] && i + 1 + j == i + (j + 1);
      }
      assert steps[0] == Iterate(world(i + 0).net, world(i + 0).lock);
      RunOfDrain(Next(y, steps[0]), world, i + 1, steps[1..]);
    }
  }

  lemma NextKeepsGone(y: System, u: Uuid, step: Step)
    requires Sound(y) && Legal(y, step) && Gone(y.state, y.history, u)
    ensures Gone(Next(y, step).state, Next(y, step).history, u)
  {
    StepIsListStep(y, step);
    StepKeepsGone(y.state, StateAfter(y, step), Submitted(step), y.history, u);
  }

  lemma {:induction false} GoneForGood(y: System, u: Uuid, steps: seq<Step>)
    requires Sound(y) && LegalRun(y, steps) && Gone(y.state, y.history, u)
    ensures Gone(Run(y, steps).state, Run(y, steps).history, u)
    decreases |steps|
  {
    if steps != [] {
      StepConserves(y, steps[0]);
      NextKeepsGone(y, u, steps[0]);
      GoneForGood(Next(y, steps[0]), u, steps[1..]);
    }
  }

  /** Each result is handed out at most once: after a fetch that returned it, in or out of turn, no
      fetch in any legal run returns anything for that uuid. */
  lemma HandedOutOnce(y: System, uuid: Uuid, steps: seq<Step>, lock: bool)
    requires Sound(y) && Fetch(y.state, uuid, true).1.value.Some?
    requires LegalRun(Next(y, Ask(uuid, true)), steps)
    ensures Fetch(Run(Next(y, Ask(uuid, true)), steps).state, uuid, lock).1.value.None?
  {
    var y' := Next(y, Ask(uuid, true));
    StepConserves(y, Ask(uuid, true));
    FetchMakesGone(y.state, y.history, uuid, true);
    GoneForGood(y', uuid, steps);
    GoneIsSilent(Run(y', steps).state, Run(y', steps).history, uuid, lock);
  }

  /** The bottom of the unsent list, from a request that has nothing stored downwards. */
  ghost predicate Buried(s: State, below: seq<Uuid>) {
    && below != [] && below[0] !in s.store
    && |below| <= |s.unsent| && s.unsent[|s.unsent| - |below|..] == below
  }

  lemma IterateKeepsBuried(s: State, below: seq<Uuid>, net: Network, lock: bool)
    requires Buried(s, below)
    ensures Buried(Broadcast(s, net, lock).0, below)
  {
    var s', d := Broadcast(s, net, lock).0, |s.unsent| - |below|;
    assert s.unsent[d..][0] == s.unsent[d] == below[0];
    if s'.unsent != s.unsent {
      assert d > 0 && s'.unsent == s.unsent[1..];
      assert s'.unsent[d - 1..] == s.unsent[d..];
    }
  }

  lemma PushKeepsBuried(s: State, below: seq<Uuid>, uuid: Uuid, txns: seq<Trytes>)
    requires Buried(s, below) && uuid != below[0]
    ensures Buried(Push(s, uuid, txns), below)
  {
    var s', d := Push(s, uuid, txns), |s.unsent| - |below|;
    assert s'.unsent[d + 1..] == s.unsent[d..];
  }

  lemma StepKeepsBuried(y: System, below: seq<Uuid>, step: Step)
    requires Sound(y) && Legal(y, step) && Buried(y.state, below)
    ensures Buried(StateAfter(y, step), below)
  {
    match step {
      case Submit(uuid, txns) =>
        assert y.state.unsent[|y.state.unsent| - |below|] == below[0];
        assert below[0] in Elems(y.state.unsent);
        PushKeepsBuried(y.state, below, uuid, txns);
      case Iterate(net, lock) =>
        IterateKeepsBuried(y.state, below, net, lock);
      case Ask(_, _) =>
      case EvictRound(_) =>
    }
  }

  /** A request with nothing stored is never sent and blocks every request below it, in every
      legal run: no network answer, lock outcome, fetch or eviction moves any of them. */
  lemma {:induction false} BuriedForGood(y: System, below: seq<Uuid>, steps: seq<Step>)
    requires Sound(y) && LegalRun(y, steps) && Buried(y.state, below)
    ensures Buried(Run(y, steps).state, below)
    decreases |steps|
  {
    if steps != [] {
      StepConserves(y, steps[0]);
      StepKeepsBuried(y, below, steps[0]);
      BuriedForGood(Next(y, steps[0]), below, steps[1..]);
    }
  }

  /** How that comes about with requests that are never empty: the node answers with no
      transactions and the lock is taken.  The whole unsent list is then stuck for good. */
  lemma EmptyAnswerThenLockoutBlocks(y: System, net: Network, steps: seq<Step>)
    requires Sound(y) && y.state.unsent != [] && y.state.unsent[0] in y.state.store
    requires net(y.state.store[y.state.unsent[0]]) == Attached([])
    requires LegalRun(Next(y, Iterate(net, false)), steps)
    ensures Buried(Run(Next(y, Iterate(net, false)), steps).state, y.state.unsent)
  {
    var y' := Next(y, Iterate(net, false));
    StepConserves(y, Iterate(net, false));
    assert y'.state.unsent[0..] == y.state.unsent;
    BuriedForGood(y', y.state.unsent, steps);
  }

  /** Another way is a submission without transactions, which stores nothing. */
  lemma EmptySubmissionBlocks(y: System, uuid: Uuid, steps: seq<Step>)
    requires Sound(y) && Legal(y, Submit(uuid, [])) && uuid !in y.state.store
    requires LegalRun(Next(y, Submit(uuid, [])), steps)
    ensures Buried(Run(Next(y, Submit(uuid, [])), steps).state, [uuid] + y.state.unsent)
  {
    var y' := Next(y, Submit(uuid, []));
    StepConserves(y, Submit(uuid, []));
    assert y'.state.unsent[0..] == [uuid] + y.state.unsent;
    BuriedForGood(y', [uuid] + y.state.unsent, steps);
  }

  // ----- what the lock does not cover -----

  function SubmitAll(s: State, subs: seq<Submission<seq<Trytes>>>): State {
    PushEach(s, subs, Put)
  }

  /** Submissions do not take the lock.  The request declared complete is the one that was sent
      if and only if none of them lands between the peek and the pop; otherwise the newest
      submission is declared complete and the one that was sent stays to be sent again. */
  lemma SubmissionBetweenPeekAndPop(s: State, net: Network, subs: seq<Submission<seq<Trytes>>>)
    requires s.unsent != [] && Prepare(s, net).1 == Ok
    requires forall i :: 0 <= i < |subs| ==> subs[i].uuid !in s.unsent
    ensures var t := SubmitAll(Prepare(s, net).0, subs);
            && t.unsent != []
            && (Move(t).complete[0] == s.unsent[0] <==> subs == [])
            && (subs != [] ==> Move(t).complete[0] == subs[|subs| - 1].uuid && s.unsent[0] in Move(t).unsent)
  {
    var p := Prepare(s, net).0;
    assert p.unsent == s.unsent;
    PushEachLists(p, subs, Put);
    ReverseAt(Uuids(subs));
    if subs != [] {
      var t := SubmitAll(p, subs);
      assert Move(t).unsent[|subs| - 1] == t.unsent[|subs|] == s.unsent[0];
    }
  }

  lemma PutIsOwn()
    ensures PutsOwn(Put)
  {
  }

  lemma PutIsNew(sub: Submission<seq<Trytes>>)
    requires sub.request != []
    ensures PutsNew(Put, sub, Reverse(sub.request))
  {
    assert Reverse(sub.request) + [] == Reverse(sub.request);
  }

  /** That newest submission was never sent: its stored transactions are those submitted. */
  lemma NewestSubmissionUnsent(s: State, net: Network, subs: seq<Submission<seq<Trytes>>>)
    requires s.unsent != [] && Prepare(s, net).1 == Ok && subs != []
    requires var newest := subs[|subs| - 1];
             newest.request != [] && newest.uuid !in s.store && newest.uuid !in Uuids(subs[..|subs| - 1])
    ensures var newest := subs[|subs| - 1];
            ListOf(SubmitAll(Prepare(s, net).0, subs).store, newest.uuid) == Reverse(newest.request)
  {
    var newest, p := subs[|subs| - 1], Prepare(s, net).0;
    PutIsOwn();
    PutIsNew(newest);
    PushEachSpares(p, subs[..|subs| - 1], Put, newest.uuid);
    assert newest.uuid !in p.store;
  }
}
