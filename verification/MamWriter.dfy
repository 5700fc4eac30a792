/**
  Writing and sending MAM messages: ta_mam_written_msg_to_bundle and ta_send_mam_message of
  accelerator/core/mam_core.c, as loops over a MAM API object whose channel and key
  counters they advance.
 */
module MamWriter {
  import opened Common
  import opened MamLedger

  /** The part of the MAM library's state the allocator drives. */
  class MamApi {
    const seed: string
    var nextChannel: nat
    var keys: map<Channel, nat>

    constructor (seed: string)
      ensures this.seed == seed && nextChannel == 0 && keys == map[]
    {
      this.seed, nextChannel, keys := seed, 0, map[];
    }

    method ChannelCreate(depth: nat) returns (ch: Channel)
      modifies this
      ensures ch == Channel(seed, depth, old(nextChannel))
      ensures nextChannel == old(nextChannel) + 1
      ensures keys == old(keys)[ch := 0]
    {
      ch := Channel(seed, depth, nextChannel);
      nextChannel, keys := nextChannel + 1, keys[ch := 0];
    }

    method WriteHeader(ch: Channel) returns (tag: Tag)
      requires ch in keys
      ensures tag == Key(keys[ch])
    {
      tag := Key(keys[ch]);
    }

    method NextKey(ch: Channel)
      requires ch in keys
      modifies this`keys
      ensures keys == old(keys)[ch := old(keys)[ch] + 1]
    {
      keys := keys[ch := keys[ch] + 1];
    }
  }

  method MsgIdExist(tags: seq<Tag>, tag: Tag) returns (existed: bool)
    ensures existed <==> tag in tags
  {
    existed := false;
    for i := 0 to |tags|
      invariant !existed
      invariant tag !in tags[..i]
    {
      if tags[i] == tag {
        existed := true;
        return;
      }
    }
  }

  /** The tags of the transactions a node finds at an address, repeats included. */
  method FindByAddress(l: Ledger, ch: Channel) returns (txns: seq<Tag>)
    ensures Elems(txns) == TagsAt(l, ch)
  {
    txns := [];
    for i := 0 to |l|
      invariant Elems(txns) == TagsAt(l[..i], ch)
    {
      assert l[..i + 1] == l[..i] + [l[i]];
      if l[i].address == ch {
        assert Elems(txns + [l[i].tag]) == Elems(txns) + {l[i].tag};
        txns := txns + [l[i].tag];
      }
    }
    assert l[..|l|] == l;
  }

  /** The deduplicating loop: the array ends with each message id exactly once. */
  method CollectTags(txns: seq<Tag>) returns (tags: seq<Tag>)
    ensures NoDup(tags)
    ensures Elems(tags) == Elems(txns)
  {
    tags := [];
    for i := 0 to |txns|
      invariant NoDup(tags)
      invariant Elems(tags) == Elems(txns[..i])
    {
      assert txns[..i + 1] == txns[..i] + [txns[i]];
      var existed := MsgIdExist(tags, txns[i]);
      assert txns[i] in tags <==> txns[i] in Elems(tags);
      assert Elems(txns[..i + 1]) == Elems(txns[..i]) + {txns[i]};
      if !existed {
        assert Elems(tags + [txns[i]]) == Elems(tags) + {txns[i]};
        tags := tags + [txns[i]];
      }
    }
    assert txns[..|txns|] == txns;
  }

  /** The do-while loop over a channel's keys, with its two decreasing counters. */
  method TryKeys(api: MamApi, ch: Channel, tags: seq<Tag>, leaves: nat)
      returns (remaining: int, used: int, tag: Tag)
    requires 2 <= leaves
    requires ch in api.keys && api.keys[ch] == 0
    modifies api`keys
    ensures ch in api.keys
    ensures var k := FirstUnused(Elems(tags), 0, leaves);
            var last := if k < leaves then k else leaves - 1;
            remaining == leaves - 1 - last && used == |tags| - 1 - last &&
            tag == Key(last) && api.keys[ch] == k
  {
    remaining, used := leaves, |tags|;
    tag := Key(0);
    ghost var k := FirstUnused(Elems(tags), 0, leaves);
    ghost var i := 0;
    while remaining > 0
      invariant 0 <= i <= k
      invariant remaining == leaves - i && used == |tags| - i
      invariant ch in api.keys && api.keys[ch] == i
      invariant i > 0 ==> tag == Key(i - 1)
      decreases remaining
    {
      used := used - 1;
      remaining := remaining - 1;
      tag := api.WriteHeader(ch);
      assert tag in tags <==> tag in Elems(tags);
      var existed := MsgIdExist(tags, tag);
      if !existed {
        break;
      }
      api.NextKey(ch);
      i := i + 1;
    }
  }

  // ----- the channel search -----

  /** Ordinals from o on, of channels of this seed and depth, that carry any traffic. */
  ghost function Ahead(l: Ledger, seed: string, depth: nat, o: nat): set<nat> {
    set e | e in l && e.address.seed == seed && e.address.depth == depth && o <= e.address.ordinal
      :: e.address.ordinal
  }

  ghost function VerdictAt(l: Ledger, ch: Channel): Verdict
    requires 1 <= ch.depth
  {
    Inspect(TagsAt(l, ch), Leaves(ch.depth))
  }

  /** Every channel passed over has traffic, so a finite Tangle leaves fewer to pass over. */
  lemma SkipShrinks(l: Ledger, ch: Channel)
    requires 1 <= ch.depth && VerdictAt(l, ch).Skip?
    ensures |Ahead(l, ch.seed, ch.depth, ch.ordinal + 1)| < |Ahead(l, ch.seed, ch.depth, ch.ordinal)|
  {
    var tags := TagsAt(l, ch);
    assert tags != {};
    var t :| t in tags;
    var e :| e in l && e.address == ch && e.tag == t;
    var here := Ahead(l, ch.seed, ch.depth, ch.ordinal);
    assert ch.ordinal in here;
    assert Ahead(l, ch.seed, ch.depth, ch.ordinal + 1) == here - {ch.ordinal};
  }

  /** The first ordinal from o on that the loop does not pass over. */
  ghost function Search(l: Ledger, seed: string, depth: nat, o: nat): (r: nat)
    requires 1 <= depth
    ensures o <= r && !VerdictAt(l, Channel(seed, depth, r)).Skip?
    decreases |Ahead(l, seed, depth, o)|
  {
    var ch := Channel(seed, depth, o);
    if VerdictAt(l, ch).Skip? then
      SkipShrinks(l, ch);
      Search(l, seed, depth, o + 1)
    else o
  }

  lemma {:induction false} SearchPassesOverSkipped(l: Ledger, seed: string, depth: nat, o: nat, j: nat)
    requires 1 <= depth && o <= j < Search(l, seed, depth, o)
    ensures VerdictAt(l, Channel(seed, depth, j)).Skip?
    decreases j - o
  {
    if o < j {
      SearchPassesOverSkipped(l, seed, depth, o + 1, j);
    }
  }

  /** How far beyond the first channel a requested starting channel is looked for. */
  const CHID_ITER_LIMIT: nat := 101

  /** The ordinal the search starts from, or None when the requested channel is not reached.
      A request is ignored while the first channel has no traffic. */
  ghost function StartOrdinal(l: Ledger, seed: string, depth: nat, base: nat, start: Option<Channel>): Option<nat> {
    if start.None? || TagsAt(l, Channel(seed, depth, base)) == {} then Some(base)
    else if start.value.seed == seed && start.value.depth == depth &&
            base <= start.value.ordinal <= base + CHID_ITER_LIMIT
    then Some(start.value.ordinal)
    else None
  }

  datatype WriteResult = WriteFailed(status: Status) | Written(channel: Channel, key: nat, announce: bool)

  ghost function WriteSpec(l: Ledger, seed: string, base: nat, depth: nat, start: Option<Channel>): WriteResult {
    if depth == 0 then WriteFailed(Null)
    else
      match StartOrdinal(l, seed, depth, base, start)
      case None => WriteFailed(ExceededChidIter)
      case Some(o) =>
        var ch := Channel(seed, depth, Search(l, seed, depth, o));
        var v := VerdictAt(l, ch);
        Written(ch, v.key, v.Announce?)
  }

  /** Creates channels until the requested one is reached. */
  method FindStart(l: Ledger, api: MamApi, depth: nat, start: Channel) returns (found: bool, chid: Channel)
    modifies api
    ensures var s := StartOrdinal(l, api.seed, depth, old(api.nextChannel), Some(start));
            found == s.Some? &&
            (found ==> chid == Channel(api.seed, depth, s.value) && api.nextChannel == s.value + 1 &&
                       chid in api.keys && api.keys[chid] == 0)
  {
    ghost var base := api.nextChannel;
    chid := api.ChannelCreate(depth);
    var txns := FindByAddress(l, chid);
    if txns == [] {
      return true, chid;
    }
    assert txns[0] in Elems(txns);
    var cnt := 0;
    while start != chid
      invariant 0 <= cnt <= CHID_ITER_LIMIT
      invariant chid == Channel(api.seed, depth, base + cnt) && api.nextChannel == base + cnt + 1
      invariant chid in api.keys && api.keys[chid] == 0
      invariant start.seed == api.seed && start.depth == depth && base <= start.ordinal ==> base + cnt <= start.ordinal
      decreases CHID_ITER_LIMIT + 1 - cnt
    {
      chid := api.ChannelCreate(depth);
      if cnt > 100 {
        return false, chid;
      }
      cnt := cnt + 1;
    }
    found := true;
  }

  /** Where the search leaves the channel when it settles on the id of key k: at that key, or, if
      the id was published already, one past it. */
  ghost function KeyStand(l: Ledger, ch: Channel, k: nat): nat {
    if Key(k) in TagsAt(l, ch) then k + 1 else k
  }

  /** One round of the outer loop on a fresh channel: fetch, deduplicate, try the keys,
      and read the verdict off the counters. */
  method InspectChannel(l: Ledger, api: MamApi, chid: Channel) returns (v: Verdict)
    requires 1 <= chid.depth
    requires chid in api.keys && api.keys[chid] == 0
    modifies api`keys
    ensures v == VerdictAt(l, chid)
    ensures chid in api.keys
    ensures !v.Skip? ==> api.keys[chid] == KeyStand(l, chid, v.key)
  {
    var leaves := Leaves(chid.depth);
    var txns := FindByAddress(l, chid);
    var tags := CollectTags(txns);
    NoDupCardinality(tags);
    var remaining, used, tag := TryKeys(api, chid, tags, leaves);
    if remaining == 1 {
      v := Announce(tag.ord);
    } else if remaining == 0 && used == 0 {
      v := Skip;
    } else {
      v := Send(tag.ord);
    }
  }

  /** The unbounded loop over channels. */
  method FindChannel(l: Ledger, api: MamApi, depth: nat, given: Option<Channel>) returns (chid: Channel, v: Verdict)
    requires 1 <= depth
    requires given.Some? ==>
               given.value.seed == api.seed && given.value.depth == depth &&
               given.value.ordinal + 1 == api.nextChannel &&
               given.value in api.keys && api.keys[given.value] == 0
    modifies api
    ensures var o := if given.Some? then given.value.ordinal else old(api.nextChannel);
            chid == Channel(api.seed, depth, Search(l, api.seed, depth, o)) && v == VerdictAt(l, chid)
    ensures api.nextChannel == chid.ordinal + 1 && chid in api.keys
    ensures api.keys[chid] == KeyStand(l, chid, v.key)
  {
    var first := given.Some?;
    ghost var o: nat := if first then given.value.ordinal else api.nextChannel;
    ghost var goal := Search(l, api.seed, depth, o);
    chid := if first then given.value else Channel(api.seed, depth, api.nextChannel);
    while true
      invariant first ==> chid == Channel(api.seed, depth, o) && api.nextChannel == o + 1 &&
                          chid in api.keys && api.keys[chid] == 0
      invariant !first ==> api.nextChannel == o
      invariant Search(l, api.seed, depth, o) == goal
      decreases |Ahead(l, api.seed, depth, o)|
    {
      if !first {
        chid := api.ChannelCreate(depth);
      }
      first := false;
      v := InspectChannel(l, api, chid);
      if !v.Skip? {
        return;
      }
      SkipShrinks(l, chid);
      o := o + 1;
    }
  }

  method WriteMessage(l: Ledger, api: MamApi, depth: nat, start: Option<Channel>) returns (r: WriteResult)
    modifies api
    ensures r == WriteSpec(l, api.seed, old(api.nextChannel), depth, start)
    ensures r.Written? ==>
              && api.nextChannel == r.channel.ordinal + 1 && r.channel in api.keys
              && api.keys[r.channel] == KeyStand(l, r.channel, r.key) + 1
    ensures r.Written? && r.announce ==> api.keys[r.channel] == r.key + 1
  {
    if depth < 1 {
      return WriteFailed(Null);
    }
    var given := None;
    if start.Some? {
      var found, chid := FindStart(l, api, depth, start.value);
      if !found {
        return WriteFailed(ExceededChidIter);
      }
      given := Some(chid);
    }
    var chid, v := FindChannel(l, api, depth, given);
    api.NextKey(chid);
    r := Written(chid, v.key, v.Announce?);
  }

  // ----- where a write starts -----

  /** Some bundle lies at the first channel of this seed and depth. */
  ghost predicate InUse(l: Ledger, seed: string, depth: nat) {
    exists e :: e in l && e.address == Channel(seed, depth, 0)
  }

  lemma InUseExactly(l: Ledger, seed: string, depth: nat)
    ensures InUse(l, seed, depth) <==> TagsAt(l, Channel(seed, depth, 0)) != {}
  {
    var ch := Channel(seed, depth, 0);
    if e :| e in l && e.address == ch {
      assert e.tag in TagsAt(l, ch);
    }
    if TagsAt(l, ch) != {} {
      var t :| t in TagsAt(l, ch);
      var e :| e in l && e.address == ch && e.tag == t;
    }
  }

  /** A write fails exactly for depth 0, or when the first channel is in use and the requested one
      is not among the first 102. */
  lemma WriteFailsExactly(l: Ledger, seed: string, depth: nat, start: Option<Channel>)
    ensures WriteSpec(l, seed, 0, depth, start) == WriteFailed(Null) <==> depth == 0
    ensures WriteSpec(l, seed, 0, depth, start) == WriteFailed(ExceededChidIter) <==>
            depth > 0 && start.Some? && InUse(l, seed, depth) &&
            forall i: nat :: i <= 101 ==> start.value != Channel(seed, depth, i)
    ensures WriteSpec(l, seed, 0, depth, start).WriteFailed? ==>
              WriteSpec(l, seed, 0, depth, start).status in {Null, ExceededChidIter}
  {
    InUseExactly(l, seed, depth);
    if start.Some? && start.value.seed == seed && start.value.depth == depth {
      assert start.value == Channel(seed, depth, start.value.ordinal);
    }
  }

  /** Until the first channel is in use, a requested starting channel is ignored. */
  lemma StartIgnoredUntilInUse(l: Ledger, seed: string, depth: nat, start: Option<Channel>)
    requires !InUse(l, seed, depth)
    ensures WriteSpec(l, seed, 0, depth, start) == WriteSpec(l, seed, 0, depth, None)
  {
    InUseExactly(l, seed, depth);
  }

  /** After that the write starts there: it uses the requested channel unless the search passes it
      over, and no channel before it. */
  lemma StartHonouredOnceInUse(l: Ledger, seed: string, depth: nat, i: nat)
    requires depth > 0 && i <= 101 && InUse(l, seed, depth)
    ensures var w := WriteSpec(l, seed, 0, depth, Some(Channel(seed, depth, i)));
            && w.Written? && w.channel.seed == seed && w.channel.depth == depth && i <= w.channel.ordinal
            && (!VerdictAt(l, Channel(seed, depth, i)).Skip? ==> w.channel.ordinal == i)
            && forall o: nat :: i <= o < w.channel.ordinal ==> VerdictAt(l, Channel(seed, depth, o)).Skip?
  {
    InUseExactly(l, seed, depth);
    var w := WriteSpec(l, seed, 0, depth, Some(Channel(seed, depth, i)));
    forall o: nat | i <= o < w.channel.ordinal
      ensures VerdictAt(l, Channel(seed, depth, o)).Skip?
    {
      SearchPassesOverSkipped(l, seed, depth, i, o);
    }
  }

  lemma TagsAtExactly(l: Ledger, ch: Channel, tag: Tag)
    ensures tag in TagsAt(l, ch) <==> Entry(ch, tag) in l
  {
    if Entry(ch, tag) in l {
      assert Entry(ch, tag).tag in TagsAt(l, ch);
    }
  }

  /** The packet is signed with the key of its id or, exactly if that id is on the Tangle already, with
      the one past the channel's last. */
  lemma SignedPastTheLastExactly(l: Ledger, seed: string, base: nat, depth: nat, start: Option<Channel>)
    requires WriteSpec(l, seed, base, depth, start).Written?
    ensures var w := WriteSpec(l, seed, base, depth, start);
            KeyStand(l, w.channel, w.key) ==
              if Entry(w.channel, Key(w.key)) in l then Leaves(depth) else w.key
  {
    var w := WriteSpec(l, seed, base, depth, start);
    ReuseExactlyWhenFull(TagsAt(l, w.channel), Leaves(depth));
    TagsAtExactly(l, w.channel, Key(w.key));
  }
}
