/**
  The one-time-key allocator behind MAM messages (accelerator/core/mam_core.c).

  A channel is a Merkle tree of 2^depth one-time signing keys.  Nothing about it is
  stored locally: every send rebuilds the channels of a seed in order, reads from the
  Tangle which message ids already exist at each channel's address, and signs with the
  first key that is missing there.

  What the MAM library contributes is kept as three explicit assumptions: the channels
  of a seed and depth are determined by their ordinal, the header written while the
  channel stands at key k carries the message id of key k, and signing a packet moves
  the channel to the next key.
 */
module MamLedger {
  import opened Common

  datatype Channel = Channel(seed: string, depth: nat, ordinal: nat)

  /** The tag of a transaction seen at a channel address: the message id of one of the
      channel's keys, or text that no key of the channel yields. */
  datatype Tag = Key(ord: nat) | Foreign(text: string)

  datatype Entry = Entry(address: Channel, tag: Tag)

  /** The bundles on the Tangle, by the address and tag of their first transaction. */
  type Ledger = seq<Entry>

  ghost function TagsAt(l: Ledger, ch: Channel): set<Tag> {
    set e | e in l && e.address == ch :: e.tag
  }

  /** The number of keys of a channel, 1 << depth. */
  function Leaves(depth: nat): (n: nat)
    ensures 1 <= n
    ensures 1 <= depth ==> 2 <= n
  {
    if depth == 0 then 1 else 2 * Leaves(depth - 1)
  }

  lemma DoubleFactor(x: nat, y: nat, z: nat)
    requires z == x * y
    ensures 2 * z == (2 * x) * y
  {
  }

  /** It is a power of two: one for depth 0, two for depth 1, and a factor for each level. */
  lemma {:induction false} LeavesArePowers(a: nat, b: nat)
    ensures Leaves(0) == 1 && Leaves(1) == 2 && Leaves(a + b) == Leaves(a) * Leaves(b)
  {
    if a > 0 {
      LeavesArePowers(a - 1, b);
      assert a - 1 + b == a + b - 1;
      DoubleFactor(Leaves(a - 1), Leaves(b), Leaves(a + b - 1));
    }
  }

  ghost function KeySet(n: nat): set<Tag> {
    set k | 0 <= k < n :: Key(k)
  }

  lemma {:induction false} KeySetSize(n: nat)
    ensures |KeySet(n)| == n
  {
    if n > 0 {
      KeySetSize(n - 1);
      assert KeySet(n) == KeySet(n - 1) + {Key(n - 1)};
    }
  }

  lemma KeySetWithin(tags: set<Tag>, n: nat)
    ensures KeySet(n) <= tags <==> forall j :: 0 <= j < n ==> Key(j) in tags
  {
    if KeySet(n) <= tags {
      forall j | 0 <= j < n
        ensures Key(j) in tags
      {
        assert Key(j) in KeySet(n);
      }
    }
  }

  /** No tag at this address is foreign to the channel. */
  ghost predicate OwnTags(tags: set<Tag>, leaves: nat) {
    tags <= KeySet(leaves)
  }

  ghost function FirstUnused(tags: set<Tag>, from: nat, leaves: nat): (k: nat)
    requires from <= leaves
    ensures from <= k <= leaves
    ensures forall j :: from <= j < k ==> Key(j) in tags
    ensures k < leaves ==> Key(k) !in tags
    decreases leaves - from
  {
    if from == leaves || Key(from) !in tags then from else FirstUnused(tags, from + 1, leaves)
  }

  /** What the key search concludes about one channel. */
  datatype Verdict = Announce(key: nat) | Skip | Send(key: nat)

  /** The meaning of the two counters: a channel is left alone exactly when every key but
      possibly the last is used and the address shows as many tags as there are keys. */
  ghost function Inspect(tags: set<Tag>, leaves: nat): Verdict
    requires 2 <= leaves
  {
    var k := FirstUnused(tags, 0, leaves);
    if k == leaves - 2 then Announce(k)
    else if k >= leaves - 1 && |tags| == leaves then Skip
    else Send(if k < leaves then k else leaves - 1)
  }

  /** The pigeonhole argument: if the address carries only the channel's own ids, the
      channel is passed over exactly when it is full, and otherwise the key taken is
      unpublished and is the least such key. */
  lemma InspectOwnTags(tags: set<Tag>, leaves: nat)
    requires 2 <= leaves && OwnTags(tags, leaves)
    ensures Inspect(tags, leaves).Skip? <==> tags == KeySet(leaves)
    ensures !Inspect(tags, leaves).Skip? ==>
              var k := Inspect(tags, leaves).key;
              k < leaves && Key(k) !in tags && KeySet(k) <= tags
  {
    KeySetSize(leaves);
    var k := FirstUnused(tags, 0, leaves);
    assert KeySet(k) <= tags;
    if k == leaves {
      assert tags == KeySet(leaves);
    } else {
      assert Key(k) in KeySet(leaves);
      assert tags <= KeySet(leaves) - {Key(k)};
      SubsetCardinality(tags, KeySet(leaves) - {Key(k)});
    }
  }

  /** With foreign tags the conclusion can be wrong, and exactly then: a published id is
      published again if and only if all keys are published and the tags at the address
      outnumber the keys, and then it is the last one; otherwise it is the least unpublished one. */
  lemma ReuseExactlyWhenFull(tags: set<Tag>, leaves: nat)
    requires 2 <= leaves
    ensures (Inspect(tags, leaves).Send? && Key(Inspect(tags, leaves).key) in tags)
       <==> (KeySet(leaves) <= tags && !OwnTags(tags, leaves))
    ensures Inspect(tags, leaves).Announce? ==> Key(Inspect(tags, leaves).key) !in tags
    ensures !Inspect(tags, leaves).Skip? ==>
              var k := Inspect(tags, leaves).key;
              if Key(k) in tags then k == leaves - 1 else k < leaves && KeySet(k) <= tags
  {
    KeySetSize(leaves);
    var k := FirstUnused(tags, 0, leaves);
    KeySetWithin(tags, leaves);
    if KeySet(leaves) <= tags {
      if !OwnTags(tags, leaves) {
        var x :| x in tags && x !in KeySet(leaves);
        SubsetCardinality(KeySet(leaves) + {x}, tags);
      } else {
        assert tags == KeySet(leaves);
      }
    }
  }

  /** If only the last key is unused, whatever else is at the address is foreign. */
  lemma TagCount(tags: set<Tag>, leaves: nat)
    requires 1 <= leaves && Key(leaves - 1) !in tags && KeySet(leaves - 1) <= tags
    ensures |tags| == leaves - 1 + |tags - KeySet(leaves)|
  {
    KeySetSize(leaves - 1);
    assert KeySet(leaves) == KeySet(leaves - 1) + {Key(leaves - 1)};
    assert tags == KeySet(leaves - 1) + (tags - KeySet(leaves));
  }

  /** A channel with an unused key is passed over exactly when that key is the last one
      and one foreign tag stands in for it in the count. */
  lemma WrongSkipExactly(tags: set<Tag>, leaves: nat)
    requires 2 <= leaves
    ensures (Inspect(tags, leaves).Skip? && !(KeySet(leaves) <= tags))
       <==> (Key(leaves - 1) !in tags && KeySet(leaves - 1) <= tags && |tags - KeySet(leaves)| == 1)
  {
    var k := FirstUnused(tags, 0, leaves);
    KeySetWithin(tags, leaves);
    KeySetWithin(tags, leaves - 1);
    if Key(leaves - 1) !in tags && KeySet(leaves - 1) <= tags {
      TagCount(tags, leaves);
      assert k == leaves - 1;
    }
  }
}
