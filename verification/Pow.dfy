/**
  Attaching a bundle: the proof-of-work loop of accelerator/core/pow.c and its caller
  ta_attach_to_tangle of accelerator/core/core.c.

  The digest, the proof of work and the clock are parameters: they are foreign calls whose
  results the loop only threads through.
 */
module Pow {
  import opened Common

  type Hash = string

  /** The fields that a bundle hash and its signatures cover. */
  datatype Essence = Essence(
    message: string, address: Hash, value: int, tag: string,
    currentIndex: nat, lastIndex: nat, bundle: Hash)

  datatype Txn = Txn(
    essence: Essence, trunk: Hash, branch: Hash,
    attached: int, attachedUpper: int, attachedLower: int, nonce: string)

  /** The foreign functions an attachment calls. */
  datatype Env = Env(
    digest: Txn -> Hash,
    work: (Txn, nat) -> Option<string>,
    clock: nat -> int)

  const ATTACHMENT_UPPER := 3812798742493

  function Stamp(t: Txn, trunk: Hash, branch: Hash, now: int): Txn {
    t.(trunk := trunk, branch := branch, attached := now, attachedUpper := ATTACHMENT_UPPER, attachedLower := 0)
  }

  /** What a request fixes for a whole attachment. */
  datatype Tips = Tips(trunk: Hash, branch: Hash, mwm: nat)

  /** The trunk that transaction i must carry in b: the digest of its successor as it stands
      in b, or the requested trunk at the end of the bundle. */
  function LinkOf(b: seq<Txn>, i: nat, tips: Tips, env: Env): Hash
    requires i < |b|
  {
    if i + 1 == |b| then tips.trunk else env.digest(b[i + 1])
  }

  /** One round of the loop: stamp, work, set the nonce. */
  function Seal(t: Txn, link: Hash, now: int, tips: Tips, env: Env): Option<Txn> {
    var s := Stamp(t, link, tips.branch, now);
    match env.work(s, tips.mwm)
    case None => None
    case Some(nonce) => Some(s.(nonce := nonce))
  }

  ghost predicate SealedAt(b: seq<Txn>, b': seq<Txn>, i: int, tips: Tips, env: Env)
    requires |b| == |b'| && 0 <= i < |b|
  {
    Seal(b[i], LinkOf(b', i, tips, env), env.clock(|b| - 1 - i), tips, env) == Some(b'[i])
  }

  /** b' is b with the transactions from index `from` on chained and worked, the others untouched. */
  ghost predicate Chained(b: seq<Txn>, b': seq<Txn>, from: nat, tips: Tips, env: Env) {
    && from <= |b| == |b'|
    && b'[..from] == b[..from]
    && (forall i {:trigger SealedAt(b, b', i, tips, env)} :: from <= i < |b| ==> SealedAt(b, b', i, tips, env))
  }

  /** Where the loop stopped for want of a nonce: transaction i is stamped, all after it are
      chained, all before it untouched. */
  ghost predicate StoppedAt(b: seq<Txn>, b': seq<Txn>, i: nat, tips: Tips, env: Env) {
    && i < |b| == |b'|
    && var s := Stamp(b[i], LinkOf(b', i, tips, env), tips.branch, env.clock(|b| - 1 - i));
    && b'[i] == s && env.work(s, tips.mwm).None?
    && Chained(b[..i] + [s] + b[i + 1..], b', i + 1, tips, env)
  }

  /** How many transactions, counted from the back, the loop reaches. */
  function Reach(b: seq<Txn>): nat {
    if b == [] then 0
    else if b[|b| - 1].essence.lastIndex < |b| then b[|b| - 1].essence.lastIndex + 1 else |b|
  }

  method TaPow(bundle: array<Txn>, tips: Tips, env: Env) returns (status: Status)
    modifies bundle
    ensures status == Null <==> bundle.Length == 0
    ensures status == Ok ==>
              Chained(old(bundle[..]), bundle[..], bundle.Length - Reach(old(bundle[..])), tips, env)
    ensures status == Ok || status == Null ||
            (status == OutOfMemory && exists i :: StoppedAt(old(bundle[..]), bundle[..], i, tips, env))
  {
    if bundle.Length == 0 {
      return Null;
    }
    ghost var before := bundle[..];
    var n := bundle.Length;
    var tx := n - 1;
    var curIdx := bundle[tx].essence.lastIndex + 1;
    var ctrunk := tips.trunk;
    while true
      invariant 0 <= tx < n && 1 <= curIdx
      invariant before == old(bundle[..])
      invariant curIdx + (n - 1 - tx) == before[n - 1].essence.lastIndex + 1
      invariant bundle[tx] == before[tx]
      invariant Chained(before, bundle[..], tx + 1, tips, env)
      invariant ctrunk == LinkOf(bundle[..], tx, tips, env)
      decreases tx
    {
      curIdx := curIdx - 1;
      ghost var earlier := bundle[..];
      bundle[tx] := Stamp(bundle[tx], ctrunk, tips.branch, env.clock(n - 1 - tx));
      assert bundle[..] == earlier[tx := bundle[tx]];
      var nonce := env.work(bundle[tx], tips.mwm);
      if nonce.None? {
        StoppedHere(before, earlier, bundle[..], tx, tips, env);
        return OutOfMemory;
      }
      bundle[tx] := bundle[tx].(nonce := nonce.value);
      ctrunk := env.digest(bundle[tx]);
      assert bundle[..] == earlier[tx := bundle[tx]];
      ChainGrows(before, earlier, bundle[tx], tx, tips, env);
      if curIdx == 0 || tx == 0 {
        return Ok;
      }
      tx := tx - 1;
    }
  }

  lemma SealedFrame(b: seq<Txn>, c: seq<Txn>, b1: seq<Txn>, b2: seq<Txn>, from: nat, tips: Tips, env: Env)
    requires |b| == |c| == |b1| == |b2| && from <= |b|
    requires forall i :: from <= i < |b| ==> SealedAt(b, b1, i, tips, env)
    requires b[from..] == c[from..] && b1[from..] == b2[from..]
    ensures forall i :: from <= i < |b| ==> SealedAt(c, b2, i, tips, env)
  {
    forall i | from <= i < |b|
      ensures SealedAt(c, b2, i, tips, env)
    {
      assert SealedAt(b, b1, i, tips, env);
      assert b[i] == b[from..][i - from] && c[i] == c[from..][i - from];
      assert b1[i] == b1[from..][i - from] && b2[i] == b2[from..][i - from];
      if i + 1 < |b| {
        assert b1[i + 1] == b1[from..][i + 1 - from] && b2[i + 1] == b2[from..][i + 1 - from];
      }
    }
  }

  lemma ChainGrows(b: seq<Txn>, b': seq<Txn>, t: Txn, i: nat, tips: Tips, env: Env)
    requires i < |b| && Chained(b, b', i + 1, tips, env)
    requires Seal(b[i], LinkOf(b', i, tips, env), env.clock(|b| - 1 - i), tips, env) == Some(t)
    ensures Chained(b, b'[i := t], i, tips, env)
  {
    SealedFrame(b, b, b', b'[i := t], i + 1, tips, env);
    assert b[..i] == b[..i + 1][..i];
    assert b'[i := t][..i] == b'[..i + 1][..i];
    assert SealedAt(b, b'[i := t], i, tips, env);
  }

  lemma StoppedHere(b: seq<Txn>, b1: seq<Txn>, b2: seq<Txn>, i: nat, tips: Tips, env: Env)
    requires i < |b| && Chained(b, b1, i + 1, tips, env)
    requires |b2| == |b| && b2 == b1[i := b2[i]]
    requires var s := Stamp(b[i], LinkOf(b1, i, tips, env), tips.branch, env.clock(|b| - 1 - i));
             b2[i] == s && env.work(s, tips.mwm).None?
    ensures StoppedAt(b, b2, i, tips, env)
  {
    var c := b[..i] + [b2[i]] + b[i + 1..];
    assert b1[..i] == b1[..i + 1][..i] && b[..i] == b[..i + 1][..i];
    assert c[..i + 1] == b2[..i + 1];
    SealedFrame(b, c, b1, b2, i + 1, tips, env);
  }

  /** ta_attach_to_tangle: a fresh copy of the request's transactions is chained. */
  method AttachToTangle(txns: seq<Txn>, tips: Tips, env: Env) returns (status: Status, res: seq<Txn>)
    ensures status == Null <==> txns == []
    ensures status != Ok ==> res == []
    ensures status == Ok ==> Chained(txns, res, |txns| - Reach(txns), tips, env)
  {
    res := [];
    var bundle := new Txn[|txns|](i requires 0 <= i < |txns| => txns[i]);
    assert bundle[..] == txns;
    status := TaPow(bundle, tips, env);
    if status == Ok {
      res := bundle[..];
    }
  }

  lemma SealedKeeps(b: seq<Txn>, b': seq<Txn>, from: nat, i: nat, tips: Tips, env: Env)
    requires from <= i < |b| && Chained(b, b', from, tips, env)
    ensures b'[i].essence == b[i].essence && b'[i].trunk == LinkOf(b', i, tips, env)
  {
    assert SealedAt(b, b', i, tips, env);
  }

  /** What the loop leaves of a transaction it reaches: the requested branch, the clock of its round,
      the attachment bounds, and the nonce that the proof of work found for it as it stands. */
  lemma WorkedTransaction(b: seq<Txn>, b': seq<Txn>, from: nat, i: nat, tips: Tips, env: Env)
    requires from <= i < |b| && Chained(b, b', from, tips, env)
    ensures env.work(b'[i].(nonce := b[i].nonce), tips.mwm) == Some(b'[i].nonce)
    ensures b'[i].branch == tips.branch && b'[i].attached == env.clock(|b| - 1 - i)
    ensures b'[i].attachedUpper == 3812798742493 && b'[i].attachedLower == 0
    ensures b'[i].trunk == if i + 1 < |b| then env.digest(b'[i + 1]) else tips.trunk
  {
    assert SealedAt(b, b', i, tips, env);
  }

  /** It reaches the last lastIndex + 1 transactions of the array, as far as there are so many, and
      leaves the others as they were. */
  lemma ReachedExactly(b: seq<Txn>, b': seq<Txn>, i: nat, tips: Tips, env: Env)
    requires i < |b| && Chained(b, b', |b| - Reach(b), tips, env)
    ensures if i + b[|b| - 1].essence.lastIndex + 1 < |b| then b'[i] == b[i]
            else env.work(b'[i].(nonce := b[i].nonce), tips.mwm) == Some(b'[i].nonce)
  {
    var from := |b| - Reach(b);
    if i < from {
      assert b'[..from][i] == b[..from][i];
    } else {
      WorkedTransaction(b, b', from, i, tips, env);
    }
  }

  /** Where it stops without a nonce: nothing before is touched, everything after is worked, and
      the transaction itself is stamped but keeps its nonce. */
  lemma StoppedState(b: seq<Txn>, b': seq<Txn>, i: nat, j: nat, tips: Tips, env: Env)
    requires StoppedAt(b, b', i, tips, env) && j < |b|
    ensures j < i ==> b'[j] == b[j]
    ensures j == i ==> b'[j].nonce == b[j].nonce && b'[j].essence == b[j].essence && env.work(b'[j], tips.mwm) == None
    ensures j > i ==> env.work(b'[j].(nonce := b[j].nonce), tips.mwm) == Some(b'[j].nonce)
    ensures j >= i ==> b'[j].trunk == if j + 1 < |b| then env.digest(b'[j + 1]) else tips.trunk
  {
    var s := Stamp(b[i], LinkOf(b', i, tips, env), tips.branch, env.clock(|b| - 1 - i));
    var c := b[..i] + [s] + b[i + 1..];
    assert c[j] == if j == i then s else b[j];
    if j > i {
      WorkedTransaction(c, b', i + 1, j, tips, env);
    } else {
      assert b'[..i + 1][j] == c[..i + 1][j];
    }
  }

  /** Attaching changes no essence, of the transactions it reaches or of the others. */
  lemma ChainedKeepsEssences(b: seq<Txn>, b': seq<Txn>, from: nat, tips: Tips, env: Env)
    requires Chained(b, b', from, tips, env)
    ensures |b'| == |b| && forall i :: 0 <= i < |b| ==> b'[i].essence == b[i].essence
  {
    forall i | 0 <= i < |b|
      ensures b'[i].essence == b[i].essence
    {
      if i < from {
        assert b'[..from][i] == b[..from][i];
      } else {
        SealedKeeps(b, b', from, i, tips, env);
      }
    }
  }

  /** Transactions numbered 0..n-1 in array order, as a prepared bundle has them. */
  ghost predicate IndexOrdered(b: seq<Txn>) {
    forall i :: 0 <= i < |b| ==> b[i].essence.currentIndex == i && b[i].essence.lastIndex == |b| - 1
  }

  /** A complete attachment: consecutive indices from 0, each trunk the digest of the next. */
  ghost predicate IsAttachment(a: seq<Txn>, digest: Txn -> Hash) {
    && a != []
    && (forall i :: 0 <= i < |a| ==> a[i].essence.currentIndex == i)
    && (forall i :: 0 <= i < |a| - 1 ==> a[i].trunk == digest(a[i + 1]))
  }

  /** Chaining an index-ordered bundle makes a complete attachment that ends at the requested
      trunk, branches only at the requested branch, and leaves every essence alone. */
  lemma AttachmentOfOrderedBundle(b: seq<Txn>, b': seq<Txn>, tips: Tips, env: Env)
    requires b != [] && IndexOrdered(b) && Chained(b, b', |b| - Reach(b), tips, env)
    ensures IsAttachment(b', env.digest)
    ensures b'[|b| - 1].trunk == tips.trunk
    ensures forall i :: 0 <= i < |b| ==> b'[i].branch == tips.branch && b'[i].essence == b[i].essence
  {
    assert Reach(b) == |b|;
    forall i | 0 <= i < |b|
      ensures b'[i].branch == tips.branch && b'[i].essence == b[i].essence
      ensures b'[i].trunk == LinkOf(b', i, tips, env)
    {
      assert SealedAt(b, b', i, tips, env);
    }
  }
}
