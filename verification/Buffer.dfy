/**
  The buffered-request protocol: push_txn_to_buffer and ta_fetch_txn_with_uuid of
  accelerator/core/core.c, broadcast_buffered_txn and the eviction loop of health_track of
  accelerator/core/periodical_task.c.

  A request's uuid is on the unsent list, then on the complete list; its transactions are a
  list under the uuid itself.  All three are Redis lists used as stacks.
 */
module BufferSpec {
  import opened Common
  import opened Redis
  import opened RequestLists

  type Trytes = string

  /** The value stored under a uuid is the list of its transactions. */
  type State = Lists<seq<Trytes>>

  /** What the network makes of an array of transactions: the send fails, the read-back fails,
      or the node answers with the attached transactions. */
  datatype Answer = SendFails | ReadFails | Attached(trytes: seq<Trytes>)

  type Network = seq<Trytes> -> Answer

  /** Transactions are pushed one by one; without any the key is not created. */
  function Put(store: Space, sub: Submission<seq<Trytes>>): Space {
    if sub.request == [] then store
    else store[sub.uuid := Reverse(sub.request) + ListOf(store, sub.uuid)]
  }

  function Push(s: State, uuid: Uuid, txns: seq<Trytes>): State {
    PushOne(s, Submission(uuid, txns), Put)
  }

  /** The half of a broadcast iteration up to the lock: peek, send, read back, and replace the
      stored transactions by the attached ones.  Deleting a missing list is an error. */
  function Prepare(s: State, net: Network): (State, Status)
    requires s.unsent != []
  {
    var u := s.unsent[0];
    match net(ListOf(s.store, u))
    case SendFails => (s, ClientFailedResponse)
    case ReadFails => (s, ClientFailedResponse)
    case Attached(trytes) =>
      if u !in s.store then (s, CacheFailedResponse)
      else (s.(store := SetList(s.store, u, Reverse(trytes))), Ok)
  }

  /** The half under the lock: pop the unsent list, push what was popped. */
  function Move(s: State): State
    requires s.unsent != []
  {
    Lists(s.unsent[1..], [s.unsent[0]] + s.complete, s.store)
  }

  function Broadcast(s: State, net: Network, lock: bool): (State, Status)
    requires s.unsent != []
  {
    var (p, status) := Prepare(s, net);
    if status != Ok then (s, status)
    else if !lock then (p, CacheLockFailure)
    else (Move(p), Ok)
  }

  /** What one iteration of the loop meets: the network as it is then, and whether the lock is
      free. */
  datatype Attempt = Attempt(net: Network, lock: bool)

  /** The whole loop, its iterations numbered from i: it runs until the list is empty or an
      iteration fails. */
  function Drain(s: State, world: nat -> Attempt, i: nat): (State, Status)
    decreases |s.unsent|
  {
    if s.unsent == [] then (s, Ok)
    else
      var (s', status) := Broadcast(s, world(i).net, world(i).lock);
      if status != Ok then (s', status)
      else
        assert |s'.unsent| < |s.unsent|;
        Drain(s', world, i + 1)
  }

  /** One round of the eviction loop; the uuid buffer keeps its last value when the complete
      list is empty, and is deleted again. */
  function Evict(s: State, last: Uuid, lock: bool): (State, Uuid) {
    if !lock then (s, last)
    else if s.complete == [] then (s.(store := s.store - {last}), last)
    else (s.(complete := s.complete[1..], store := s.store - {s.complete[0]}), s.complete[0])
  }
}

module BufferService {
  import opened Common
  import opened Redis
  import opened RequestLists
  import opened BufferSpec

  /** Changing a list other than the two named ones. */
  lemma SetOther(m: Space, a: string, b: string, key: string, values: seq<string>)
    requires key != a && key != b
    ensures SetList(m, key, values) - {a, b} == SetList(m - {a, b}, key, values)
    ensures (m - {key}) - {a, b} == (m - {a, b}) - {key}
    ensures ListOf(m - {a, b}, key) == ListOf(m, key) && (key in m - {a, b} <==> key in m)
    ensures forall k :: k == a || k == b ==> ListOf(SetList(m, key, values), k) == ListOf(m, k) == ListOf(m - {key}, k)
  {
  }

  /** Changing one of the two named lists. */
  lemma SetNamed(m: Space, a: string, b: string, values: seq<string>)
    requires a != b
    ensures SetList(m, a, values) - {a, b} == m - {a, b} == SetList(m, a, values) - {b, a}
    ensures ListOf(SetList(m, a, values), a) == values && ListOf(SetList(m, a, values), b) == ListOf(m, b)
  {
  }

  class Service {
    const redis: Store
    const bufferName: string
    const completeName: string
    var evicted: Uuid

    ghost predicate Name(k: string) {
      k == bufferName || k == completeName
    }

    /** No list is empty, and no uuid is the name of one of the two lists. */
    ghost predicate Valid()
      reads this, redis
    {
      && bufferName != completeName
      && NoEmptyLists(redis.lists)
      && (forall u :: u in View().unsent || u in View().complete || u == evicted ==> !Name(u))
    }

    ghost function View(): State
      reads this, redis
    {
      Lists(ListOf(redis.lists, bufferName), ListOf(redis.lists, completeName),
            redis.lists - {bufferName, completeName})
    }

    constructor (redis: Store, bufferName: string, completeName: string)
      requires redis.lists == map[] && bufferName != completeName && bufferName != "" && completeName != ""
      ensures this.redis == redis && Valid()
      ensures View() == Lists([], [], map[]) && evicted == ""
    {
      this.redis, this.bufferName, this.completeName := redis, bufferName, completeName;
      evicted := "";
    }

    /** push_txn_to_buffer; the caller supplies the random uuid. */
    method PushTxn(uuid: Uuid, txns: seq<Trytes>)
      requires Valid() && !Name(uuid)
      modifies redis
      ensures Valid()
      ensures View() == Push(old(View()), uuid, txns)
    {
      ghost var m := redis.lists;
      SetOther(m, bufferName, completeName, uuid, Reverse(txns) + ListOf(m, uuid));
      redis.PushAll(uuid, txns);
      SetNamed(redis.lists, bufferName, completeName, [uuid] + ListOf(redis.lists, bufferName));
      redis.ListPush(bufferName, uuid);
    }

    /** An iteration of broadcast_buffered_txn up to taking the lock. */
    method PrepareHead(net: Network) returns (status: Status)
      requires Valid() && View().unsent != []
      modifies redis
      ensures Valid()
      ensures (View(), status) == Prepare(old(View()), net)
    {
      ghost var m := redis.lists;
      var peeked, uuid := redis.ListPeek(bufferName);
      assert uuid in View().unsent;
      var txns := redis.ReadAll(uuid);
      SetOther(m, bufferName, completeName, uuid, []);
      var answer := net(txns);
      if !answer.Attached? {
        return ClientFailedResponse;
      }
      status := redis.Del(uuid);
      if status != Ok {
        assert m - {uuid} == m;
        return;
      }
      redis.PushAll(uuid, answer.trytes);
      assert Reverse(answer.trytes) + [] == Reverse(answer.trytes);
      assert redis.lists == SetList(m, uuid, Reverse(answer.trytes));
      SetOther(m, bufferName, completeName, uuid, Reverse(answer.trytes));
    }

    /** The part of the iteration under the lock: whatever is at the head now is moved. */
    method MoveHead()
      requires Valid() && View().unsent != []
      modifies redis
      ensures Valid()
      ensures View() == Move(old(View()))
    {
      ghost var s := View();
      var status, uuid := redis.ListPop(bufferName, "");
      redis.ListPush(completeName, uuid);
      assert View().store == s.store;
    }

    /** One iteration of broadcast_buffered_txn on a non-empty unsent list. */
    method BroadcastOne(net: Network, lock: bool) returns (status: Status)
      requires Valid() && View().unsent != []
      modifies redis
      ensures Valid()
      ensures (View(), status) == Broadcast(old(View()), net, lock)
    {
      status := PrepareHead(net);
      if status != Ok {
        return;
      }
      if !lock {
        return CacheLockFailure;
      }
      MoveHead();
    }

    method BroadcastBuffered(world: nat -> Attempt) returns (status: Status)
      requires Valid()
      modifies redis
      ensures Valid()
      ensures (View(), status) == Drain(old(View()), world, 0)
    {
      var i := 0;
      var len := redis.ListSize(bufferName);
      while len != 0
        invariant Valid() && len == |View().unsent|
        invariant Drain(View(), world, i) == Drain(old(View()), world, 0)
        decreases len
      {
        var attempt := world(i);
        status := BroadcastOne(attempt.net, attempt.lock);
        if status != Ok {
          return;
        }
        i := i + 1;
        len := redis.ListSize(bufferName);
      }
      status := Ok;
    }

    /** ta_fetch_txn_with_uuid. */
    method FetchTxn(uuid: Uuid, lock: bool) returns (reply: Reply<seq<Trytes>>)
      requires Valid()
      modifies redis
      ensures Valid()
      ensures (View(), reply) == Fetch(old(View()), uuid, lock)
    {
      if !lock {
        return Reply(CacheLockFailure, NotExist, None);
      }
      var exist := redis.ListExist(bufferName, uuid);
      if exist {
        return Reply(Ok, Unsent, None);
      }
      exist := redis.ListExist(completeName, uuid);
      if !exist {
        return Reply(Ok, NotExist, None);
      }
      reply := TakeSent(uuid);
    }

    /** The branch of ta_fetch_txn_with_uuid for a uuid found on the complete list. */
    method TakeSent(uuid: Uuid) returns (reply: Reply<seq<Trytes>>)
      requires Valid() && uuid !in View().unsent && uuid in View().complete
      modifies redis
      ensures Valid()
      ensures (View(), reply) == Fetch(old(View()), uuid, true)
    {
      ghost var s := View();
      var bundle := redis.ReadAll(uuid);
      var status := redis.Del(uuid);
      if status != Ok {
        assert View().store == s.store;
        return Reply(status, Sent, None);
      }
      var popUuid;
      status, popUuid := redis.ListPop(completeName, "");
      assert View().store == s.store - {uuid};
      reply := Reply(Ok, Sent, Some(bundle));
    }

    /** One round of the eviction loop. */
    method EvictOne(lock: bool)
      requires Valid()
      modifies redis, this`evicted
      ensures Valid()
      ensures (View(), evicted) == Evict(old(View()), old(evicted), lock)
    {
      if !lock {
        return;
      }
      ghost var m := redis.lists;
      var status;
      status, evicted := redis.ListPop(completeName, evicted);
      if completeName in m {
        assert evicted in old(View()).complete;
        SetNamed(m, completeName, bufferName, m[completeName][1..]);
      }
      assert !Name(evicted);
      SetOther(redis.lists, bufferName, completeName, evicted, []);
      status := redis.Del(evicted);
      assert View().store == old(View()).store - {evicted};
    }
  }
}
