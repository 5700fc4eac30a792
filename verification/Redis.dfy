/**
  The part of Redis behind utils/cache/backend_redis.c: one keyspace of lists that are pushed
  and popped at the same end, where an emptied list is no key at all.
 */
module Redis {
  import opened Common

  type Space = map<string, seq<string>>

  predicate NoEmptyLists(m: Space) {
    forall k :: k in m ==> m[k] != []
  }

  function ListOf(m: Space, key: string): seq<string> {
    if key in m then m[key] else []
  }

  function SetList(m: Space, key: string, s: seq<string>): Space {
    if s == [] then m - {key} else m[key := s]
  }

  class Store {
    var lists: Space

    constructor ()
      ensures lists == map[]
    {
      lists := map[];
    }

    /** LPUSH: the value becomes the head. */
    method ListPush(key: string, value: string)
      modifies this
      ensures lists == SetList(old(lists), key, [value] + ListOf(old(lists), key))
    {
      lists := lists[key := [value] + ListOf(lists, key)];
    }

    /** LINDEX; an index outside the list is an error. */
    method ListAt(key: string, index: nat) returns (status: Status, value: string)
      ensures if index < |ListOf(lists, key)| then status == Ok && value == ListOf(lists, key)[index]
              else status == CacheFailedResponse
    {
      if key in lists && index < |lists[key]| {
        return Ok, lists[key][index];
      }
      return CacheFailedResponse, "";
    }

    method ListPeek(key: string) returns (status: Status, value: string)
      ensures if ListOf(lists, key) != [] then status == Ok && value == ListOf(lists, key)[0]
              else status == CacheFailedResponse
    {
      status, value := ListAt(key, 0);
    }

    method ListSize(key: string) returns (len: nat)
      ensures len == |ListOf(lists, key)|
    {
      len := if key in lists then |lists[key]| else 0;
    }

    /** The loop visits every index and never leaves early. */
    method ListExist(key: string, value: string) returns (exist: bool)
      ensures exist <==> value in ListOf(lists, key)
    {
      exist := false;
      var len := ListSize(key);
      for i := 0 to len
        invariant exist <==> value in ListOf(lists, key)[..i]
      {
        var status, v := ListAt(key, i);
        if v == value {
          exist := true;
        }
      }
    }

    /** LPOP; a missing list is an error and leaves the caller's buffer alone. */
    method ListPop(key: string, buffer: string) returns (status: Status, value: string)
      requires NoEmptyLists(lists)
      modifies this
      ensures if key in old(lists)
              then && status == Ok && value == old(lists)[key][0]
                   && lists == SetList(old(lists), key, old(lists)[key][1..])
              else status == CacheFailedResponse && value == buffer && lists == old(lists)
      ensures NoEmptyLists(lists)
    {
      if key !in lists {
        return CacheFailedResponse, buffer;
      }
      status, value := Ok, lists[key][0];
      lists := if |lists[key]| == 1 then lists - {key} else lists[key := lists[key][1..]];
    }

    /** DEL; deleting nothing is an error. */
    method Del(key: string) returns (status: Status)
      modifies this
      ensures lists == old(lists) - {key}
      ensures status == if key in old(lists) then Ok else CacheFailedResponse
    {
      status := if key in lists then Ok else CacheFailedResponse;
      lists := lists - {key};
    }

    /** The loop by which callers push an array one element at a time; it reverses the array. */
    method PushAll(key: string, values: seq<string>)
      modifies this
      ensures lists == if values == [] then old(lists)
                       else old(lists)[key := Reverse(values) + ListOf(old(lists), key)]
    {
      for i := 0 to |values|
        invariant i == 0 ==> lists == old(lists)
        invariant i > 0 ==> lists == old(lists)[key := Reverse(values[..i]) + ListOf(old(lists), key)]
      {
        ReverseConcat(values[..i], [values[i]]);
        assert values[..i + 1] == values[..i] + [values[i]];
        assert Reverse(values[..i + 1]) == [values[i]] + Reverse(values[..i]);
        assert [values[i]] + (Reverse(values[..i]) + ListOf(old(lists), key))
            == Reverse(values[..i + 1]) + ListOf(old(lists), key);
        ListPush(key, values[i]);
      }
      assert values[..|values|] == values;
    }

    /** The loop by which callers read a list index by index. */
    method ReadAll(key: string) returns (values: seq<string>)
      ensures values == ListOf(lists, key)
    {
      values := [];
      var len := ListSize(key);
      for i := 0 to len
        invariant values == ListOf(lists, key)[..i]
      {
        var status, v := ListAt(key, i);
        values := values + [v];
      }
    }
  }
}
