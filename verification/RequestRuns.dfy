/**
  What every run of the value-per-request buffer keeps: submissions, iterations with any sender and
  lock outcome, and fetches in or out of turn, in any order.
 */
module RequestRuns {
  import opened Common
  import opened RequestLists
  import opened RequestBuffer

  datatype Step<!W, !Q, R> =
    | Submit(uuid: Uuid, request: Q)
    | Broadcast(send: Sender<W, Q, R>, lock: bool)
    | Ask(uuid: Uuid, lock: bool)

  /** The buffer with its history, and the request of every uuid ever accepted. */
  datatype System<W, Q, R> = System(state: State<W, Q, R>, history: History, asked: map<Uuid, Q>)

  function StateAfter<W, Q, R>(s: State<W, Q, R>, step: Step<W, Q, R>): State<W, Q, R> {
    match step
    case Submit(uuid, request) => Push(s, uuid, request)
    case Broadcast(send, lock) => if s.lists.unsent == [] then s else Iterate(s, send, lock).0
    case Ask(uuid, lock) => s.(lists := Fetch(s.lists, uuid, lock).0)
  }

  function Submitted<W, Q, R>(step: Step<W, Q, R>): Option<Uuid> {
    if step.Submit? then Some(step.uuid) else None
  }

  function Next<W, Q, R>(y: System<W, Q, R>, step: Step<W, Q, R>): System<W, Q, R> {
    var s' := StateAfter(y.state, step);
    System(s', Advance(y.history, y.state.lists, s'.lists, Submitted(step)),
           if step.Submit? then y.asked[step.uuid := step.request] else y.asked)
  }

  /** Random uuids are new. */
  ghost predicate Legal<W, Q, R>(y: System<W, Q, R>, step: Step<W, Q, R>) {
    step.Submit? ==> step.uuid !in y.history.accepted
  }

  ghost predicate LegalRun<W, Q, R>(y: System<W, Q, R>, steps: seq<Step<W, Q, R>>)
    decreases |steps|
  {
    steps != [] ==> Legal(y, steps[0]) && LegalRun(Next(y, steps[0]), steps[1..])
  }

  function Run<W, Q, R>(y: System<W, Q, R>, steps: seq<Step<W, Q, R>>): System<W, Q, R>
    decreases |steps|
  {
    if steps == [] then y else Run(Next(y, steps[0]), steps[1..])
  }

  // ----- conservation -----

  /** An unsent request is stored as it was submitted. */
  ghost predicate Waiting<W, Q, R>(y: System<W, Q, R>, u: Uuid) {
    u in y.asked && u in y.state.lists.store && y.state.lists.store[u] == Asked(y.asked[u])
  }

  /** Each accepted uuid is in exactly one place, nothing is stored under any other, every unsent
      one is stored as submitted, and no other value is still a request. */
  ghost predicate Sound<W, Q, R>(y: System<W, Q, R>) {
    var l := y.state.lists;
    && Conserved(l, y.history) && y.asked.Keys == y.history.accepted && l.store.Keys <= y.history.accepted
    && (forall u :: u in l.unsent ==> Waiting(y, u))
    && (forall u :: u in l.store && u !in l.unsent ==> l.store[u].Answered?)
  }

  /** An empty buffer, whatever the world. */
  lemma StartIsSound<W, Q, R>(w: W)
    ensures var y: System<W, Q, R> := System(State(Lists([], [], map[]), w), History({}, {}), map[]);
            Sound(y) && Stocked(y.state.lists)
  {
  }

  lemma StepIsListStep<W, Q, R>(s: State<W, Q, R>, step: Step<W, Q, R>)
    ensures ListStep(s.lists, StateAfter(s, step).lists, Submitted(step))
  {
  }

  /** What a step does to the value under a uuid that it neither submits, sends nor fetches. */
  lemma StepSpares<W, Q, R>(s: State<W, Q, R>, step: Step<W, Q, R>, u: Uuid)
    requires step.Submit? ==> u != step.uuid
    requires step.Broadcast? && s.lists.unsent != [] ==> u != s.lists.unsent[0]
    requires step.Ask? ==> u != step.uuid || u !in s.lists.complete
    ensures SameAt(s.lists.store, StateAfter(s, step).lists.store, u)
  {
  }

  lemma SubmitIsSound<W, Q, R>(y: System<W, Q, R>, step: Step<W, Q, R>)
    requires Sound(y) && Legal(y, step) && step.Submit?
    requires Conserved(Next(y, step).state.lists, Next(y, step).history)
    ensures Sound(Next(y, step))
  {
    var z := Next(y, step);
    forall u | u in z.state.lists.store
      ensures u in z.state.lists.unsent ==> Waiting(z, u)
      ensures u !in z.state.lists.unsent ==> z.state.lists.store[u].Answered?
    {
      if u != step.uuid {
        StepSpares(y.state, step, u);
        assert u in y.state.lists.unsent ==> Waiting(y, u);
      }
    }
    forall u | u in z.state.lists.unsent
      ensures Waiting(z, u)
    {
      assert u != step.uuid ==> u in y.state.lists.unsent && Waiting(y, u);
    }
  }

  lemma AskIsSound<W, Q, R>(y: System<W, Q, R>, step: Step<W, Q, R>)
    requires Sound(y) && step.Ask?
    requires Conserved(Next(y, step).state.lists, Next(y, step).history)
    ensures Sound(Next(y, step))
  {
    var z := Next(y, step);
    MembersOfElems(y.state.lists);
    forall u | u in z.state.lists.unsent
      ensures Waiting(z, u)
    {
      assert Waiting(y, u) && u in Elems(y.state.lists.unsent);
    }
  }

  lemma BroadcastIsSound<W, Q, R>(y: System<W, Q, R>, step: Step<W, Q, R>)
    requires Sound(y) && step.Broadcast?
    requires Conserved(Next(y, step).state.lists, Next(y, step).history)
    ensures Sound(Next(y, step))
  {
    var l, z := y.state.lists, Next(y, step);
    if z.state.lists != l {
      ElemsUncons(l.unsent);
      MembersOfElems(l);
      forall u | u in z.state.lists.unsent
        ensures Waiting(z, u)
      {
        assert u in l.unsent && u != l.unsent[0] && Waiting(y, u);
      }
      forall u | u in z.state.lists.store && u !in z.state.lists.unsent
        ensures z.state.lists.store[u].Answered?
      {
        assert u != l.unsent[0] ==> u !in l.unsent;
      }
    } else {
      forall u | u in l.unsent
        ensures Waiting(z, u)
      {
        assert Waiting(y, u);
      }
    }
  }

  /** Every step, an out-of-turn fetch included, conserves requests and moves each only forward. */
  lemma StepConserves<W, Q, R>(y: System<W, Q, R>, step: Step<W, Q, R>)
    requires Sound(y) && Legal(y, step)
    ensures Sound(Next(y, step))
    ensures forall u ::
              Rank(y.state.lists, y.history, u) <= Rank(Next(y, step).state.lists, Next(y, step).history, u)
  {
    StepIsListStep(y.state, step);
    ListStepConserves(y.state.lists, StateAfter(y.state, step).lists, Submitted(step), y.history);
    match step {
      case Submit(_, _) => SubmitIsSound(y, step);
      case Broadcast(_, _) => BroadcastIsSound(y, step);
      case Ask(_, _) => AskIsSound(y, step);
    }
  }

  /** Over every legal run requests are conserved and never move backwards, and a request that is
      still unsent is stored exactly as it was submitted. */
  lemma {:induction false} RunConserves<W, Q, R>(y: System<W, Q, R>, steps: seq<Step<W, Q, R>>)
    requires Sound(y) && LegalRun(y, steps)
    ensures Sound(Run(y, steps))
    ensures forall u ::
              Rank(y.state.lists, y.history, u) <= Rank(Run(y, steps).state.lists, Run(y, steps).history, u)
    decreases |steps|
  {
    if steps != [] {
      StepConserves(y, steps[0]);
      RunConserves(Next(y, steps[0]), steps[1..]);
    }
  }

  /** What a fetch returns at any point of any run is a result, never a request. */
  lemma RunHandsOutResults<W, Q, R>(y: System<W, Q, R>, steps: seq<Step<W, Q, R>>, uuid: Uuid, lock: bool)
    requires Sound(y) && LegalRun(y, steps)
    ensures var reply := Fetch(Run(y, steps).state.lists, uuid, lock).1;
            reply.value.Some? ==> reply.value.value.Answered?
  {
    RunConserves(y, steps);
  }

  // ----- the stored values -----

  /** A completed request is fetched in its turn. */
  ghost predicate InTurn<W, Q, R>(s: State<W, Q, R>, step: Step<W, Q, R>) {
    step.Ask? && step.lock && step.uuid in s.lists.complete ==> step.uuid == s.lists.complete[0]
  }

  ghost predicate InTurnRun<W, Q, R>(y: System<W, Q, R>, steps: seq<Step<W, Q, R>>)
    decreases |steps|
  {
    steps != [] ==> InTurn(y.state, steps[0]) && InTurnRun(Next(y, steps[0]), steps[1..])
  }

  lemma StepStocks<W, Q, R>(y: System<W, Q, R>, step: Step<W, Q, R>)
    requires Sound(y) && Legal(y, step) && InTurn(y.state, step) && Stocked(y.state.lists)
    ensures Stocked(StateAfter(y.state, step).lists)
  {
    var l, l' := y.state.lists, StateAfter(y.state, step).lists;
    match step {
      case Submit(uuid, _) =>
        ElemsCons(uuid, l.unsent);
        assert l'.store.Keys == l.store.Keys + {uuid};
      case Broadcast(_, _) =>
        if l' != l {
          ElemsUncons(l.unsent);
          ElemsCons(l.unsent[0], l.complete);
          assert l.unsent[0] in l.store.Keys;
          assert l'.store.Keys == l.store.Keys;
        }
      case Ask(_, _) =>
        if l' != l {
          RemoveHeadStocks(l, y.history);
        }
    }
  }

  /** Over every run in which fetches come in turn exactly the listed requests have a value. */
  lemma {:induction false} RunStocks<W, Q, R>(y: System<W, Q, R>, steps: seq<Step<W, Q, R>>)
    requires Sound(y) && LegalRun(y, steps) && InTurnRun(y, steps) && Stocked(y.state.lists)
    ensures Stocked(Run(y, steps).state.lists)
    decreases |steps|
  {
    if steps != [] {
      StepConserves(y, steps[0]);
      StepStocks(y, steps[0]);
      RunStocks(Next(y, steps[0]), steps[1..]);
    }
  }

  lemma NextKeepsLeaked<W, Q, R>(y: System<W, Q, R>, u: Uuid, v: Value<Q, R>, step: Step<W, Q, R>)
    requires Sound(y) && Legal(y, step) && Leaked(y.state.lists, y.history, u, v)
    ensures Leaked(Next(y, step).state.lists, Next(y, step).history, u, v)
  {
    MembersOfElems(y.state.lists);
    assert u in y.history.accepted && u !in y.state.lists.unsent && u !in y.state.lists.complete;
    StepSpares(y.state, step, u);
    StepKeepsLeaked(y.state.lists, StateAfter(y.state, step).lists, Submitted(step), y.history, u, v);
  }

  /** A value stored under a uuid that has left both lists survives every legal run: no eviction
      ever looks at these lists. */
  lemma {:induction false} LeakedForGood<W, Q, R>(
      y: System<W, Q, R>, u: Uuid, v: Value<Q, R>, steps: seq<Step<W, Q, R>>)
    requires Sound(y) && LegalRun(y, steps) && Leaked(y.state.lists, y.history, u, v)
    ensures Leaked(Run(y, steps).state.lists, Run(y, steps).history, u, v)
    decreases |steps|
  {
    if steps != [] {
      StepConserves(y, steps[0]);
      NextKeepsLeaked(y, u, v, steps[0]);
      LeakedForGood(Next(y, steps[0]), u, v, steps[1..]);
    }
  }

  /** So one fetch out of turn leaks the result of the request at the head for good: it stays stored
      and no fetch in any run returns it. */
  lemma OutOfTurnFetchLeaks<W, Q, R>(y: System<W, Q, R>, uuid: Uuid, steps: seq<Step<W, Q, R>>, lock: bool)
    requires Sound(y) && Stocked(y.state.lists)
    requires uuid in y.state.lists.complete && uuid != y.state.lists.complete[0]
    requires LegalRun(Next(y, Ask(uuid, true)), steps)
    ensures var l, z := y.state.lists, Run(Next(y, Ask(uuid, true)), steps);
            var head := l.complete[0];
            && head in l.store && Leaked(z.state.lists, z.history, head, l.store[head])
            && Fetch(z.state.lists, head, lock).1.value.None?
  {
    var l, y' := y.state.lists, Next(y, Ask(uuid, true));
    var head := l.complete[0];
    StepConserves(y, Ask(uuid, true));
    OutOfTurnFetchLeaksHead(l, y.history, uuid);
    LeakedForGood(y', head, l.store[head], steps);
    RunConserves(y', steps);
    MembersOfElems(Run(y', steps).state.lists);
  }

  // ----- what a caller is told -----

  /** At every point of every run a query tells exactly how far the request has come. */
  lemma RunTellsRank<W, Q, R>(y: System<W, Q, R>, steps: seq<Step<W, Q, R>>, u: Uuid)
    requires Sound(y) && LegalRun(y, steps)
    ensures var z := Run(y, steps);
            var reply := Fetch(z.state.lists, u, true).1;
            && (reply.stage == Stage.Unsent <==> Rank(z.state.lists, z.history, u) == 1)
            && (reply.stage == Stage.Sent <==> Rank(z.state.lists, z.history, u) == 2)
            && (reply.stage == NotExist <==> u !in z.history.accepted || u in z.history.removed)
  {
    RunConserves(y, steps);
    FetchTellsRank(Run(y, steps).state.lists, Run(y, steps).history, u);
  }

  /** A step that wants the lock and does not get it. */
  predicate WithoutLock<W, Q, R>(step: Step<W, Q, R>) {
    match step
    case Submit(_, _) => true
    case Broadcast(_, lock) => !lock
    case Ask(_, lock) => !lock
  }

  function SubmittedBy<W, Q, R>(step: Step<W, Q, R>): seq<Uuid> {
    if step.Submit? then [step.uuid] else []
  }

  function SubmittedIn<W, Q, R>(steps: seq<Step<W, Q, R>>): seq<Uuid> {
    if steps == [] then []
    else SubmittedBy(steps[0]) + SubmittedIn(steps[1..])
  }

  lemma StepWithoutLock<W, Q, R>(y: System<W, Q, R>, step: Step<W, Q, R>, u: Uuid)
    requires WithoutLock(step)
    ensures Next(y, step).state.lists.unsent == SubmittedBy(step) + y.state.lists.unsent
    ensures Next(y, step).state.lists.complete == y.state.lists.complete
    ensures Next(y, step).history.removed == y.history.removed
    ensures u in y.state.lists.store ==> SameAt(y.state.lists.store, Next(y, step).state.lists.store, u)
  {
  }

  /** Over every run in which nobody gets the lock submissions pile up, nothing is completed, nothing
      is handed out, and no value that was stored changes. */
  lemma {:induction false} RunWithoutLock<W, Q, R>(y: System<W, Q, R>, steps: seq<Step<W, Q, R>>, u: Uuid)
    requires forall i :: 0 <= i < |steps| ==> WithoutLock(steps[i])
    ensures Run(y, steps).state.lists.unsent == Reverse(SubmittedIn(steps)) + y.state.lists.unsent
    ensures Run(y, steps).state.lists.complete == y.state.lists.complete
    ensures Run(y, steps).history.removed == y.history.removed
    ensures u in y.state.lists.store ==> SameAt(y.state.lists.store, Run(y, steps).state.lists.store, u)
    decreases |steps|
  {
    if steps != [] {
      StepWithoutLock(y, steps[0], u);
      RunWithoutLock(Next(y, steps[0]), steps[1..], u);
      StackUnder(SubmittedBy(steps[0]), SubmittedIn(steps[1..]), y.state.lists.unsent);
    }
  }

  /** A drain that gets through is a run of as many iterations as there are requests. */
  lemma {:induction false} RunOfDrain<W, Q, R>(
      y: System<W, Q, R>, send: Sender<W, Q, R>, locks: nat -> bool, i: nat, steps: seq<Step<W, Q, R>>)
    requires |steps| == |y.state.lists.unsent| && Drain(y.state, send, locks, i).1 == Ok
    requires forall j :: 0 <= j < |steps| ==> steps[j] == Broadcast(send, locks(i + j))
    ensures Run(y, steps).state == Drain(y.state, send, locks, i).0
    decreases |steps|
  {
    if steps != [] {
      forall j | 0 <= j < |steps| - 1
        ensures steps[1..][j] == Broadcast(send, locks(i + 1 + j))
      {
        assert steps[1..][j] == steps[j + 1] && i + 1 + j == i + (j + 1);
      }
      assert steps[0] == Broadcast(send, locks(i + 0));
      RunOfDrain(Next(y, steps[0]), send, locks, i + 1, steps[1..]);
    }
  }

  // ----- each result is handed out once -----

  lemma NextKeepsGone<W, Q, R>(y: System<W, Q, R>, u: Uuid, step: Step<W, Q, R>)
    requires Sound(y) && Legal(y, step) && Gone(y.state.lists, y.history, u)
    ensures Gone(Next(y, step).state.lists, Next(y, step).history, u)
  {
    StepIsListStep(y.state, step);
    StepKeepsGone(y.state.lists, StateAfter(y.state, step).lists, Submitted(step), y.history, u);
  }

  lemma {:induction false} GoneForGood<W, Q, R>(y: System<W, Q, R>, u: Uuid, steps: seq<Step<W, Q, R>>)
    requires Sound(y) && LegalRun(y, steps) && Gone(y.state.lists, y.history, u)
    ensures Gone(Run(y, steps).state.lists, Run(y, steps).history, u)
    decreases |steps|
  {
    if steps != [] {
      StepConserves(y, steps[0]);
      NextKeepsGone(y, u, steps[0]);
      GoneForGood(Next(y, steps[0]), u, steps[1..]);
    }
  }

  /** After a fetch that returned a result, in or out of turn, no fetch in any legal run returns
      anything for that uuid. */
  lemma HandedOutOnce<W, Q, R>(y: System<W, Q, R>, uuid: Uuid, steps: seq<Step<W, Q, R>>, lock: bool)
    requires Sound(y) && Fetch(y.state.lists, uuid, true).1.value.Some?
    requires LegalRun(Next(y, Ask(uuid, true)), steps)
    ensures Fetch(Run(Next(y, Ask(uuid, true)), steps).state.lists, uuid, lock).1.value.None?
  {
    var y' := Next(y, Ask(uuid, true));
    StepConserves(y, Ask(uuid, true));
    FetchMakesGone(y.state.lists, y.history, uuid, true);
    GoneForGood(y', uuid, steps);
    GoneIsSilent(Run(y', steps).state.lists, Run(y', steps).history, uuid, lock);
  }
}
