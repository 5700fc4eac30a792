/**
  The network the buffer sends to, as ta_send_trytes of accelerator/core/core.c makes it: the
  transactions are parsed, attached, broadcast and read back.  The result is the law on which the
  order of a buffered bundle rests, with every failure allowed.
 */
module BufferSend {
  import opened Common
  import opened RequestLists
  import opened BufferSpec
  import opened BufferQueue
  import Pow

  /** How transactions are written as trytes. */
  datatype Format = Format(parse: Trytes -> Pow.Txn, render: Pow.Txn -> Trytes)

  ghost predicate Faithful(f: Format) {
    forall t: Pow.Txn :: f.parse(f.render(t)) == t
  }

  function Parsed(f: Format, txns: seq<Trytes>): (r: seq<Pow.Txn>)
    ensures |r| == |txns| && forall i :: 0 <= i < |r| ==> r[i] == f.parse(txns[i])
  {
    seq(|txns|, i requires 0 <= i < |txns| => f.parse(txns[i]))
  }

  function Rendered(f: Format, txns: seq<Pow.Txn>): (r: seq<Trytes>)
    ensures |r| == |txns| && forall i :: 0 <= i < |r| ==> r[i] == f.render(txns[i])
  {
    seq(|txns|, i requires 0 <= i < |txns| => f.render(txns[i]))
  }

  /** The answer is an attachment of what was sent, under whatever tips, clock and proof of work. */
  ghost predicate AnswersWith(f: Format, txns: seq<Trytes>, answer: seq<Trytes>) {
    exists b': seq<Pow.Txn>, tips: Pow.Tips, env: Pow.Env ::
      AnswersAs(f, txns, answer, b', tips, env)
  }

  ghost predicate AnswersAs(
      f: Format, txns: seq<Trytes>, answer: seq<Trytes>, b': seq<Pow.Txn>, tips: Pow.Tips, env: Pow.Env) {
    var b := Parsed(f, txns);
    answer == Rendered(f, b') && Pow.Chained(b, b', |b| - Pow.Reach(b), tips, env)
  }

  /** A network that attaches what it takes and takes no empty array; it may refuse anything else. */
  ghost predicate Attaches(net: Network, f: Format) {
    net([]).SendFails? &&
    forall txns: seq<Trytes> :: net(txns).Attached? ==> AnswersWith(f, txns, net(txns).trytes)
  }

  function EssenceOf(f: Format): Trytes -> Pow.Essence {
    (t: Trytes) => f.parse(t).essence
  }

  /** Attaching answers in the order sent. */
  lemma AttachesIsPositional(net: Network, f: Format)
    requires Faithful(f) && Attaches(net, f)
    ensures Positional(net, EssenceOf(f))
  {
    forall txns: seq<Trytes> | net(txns).Attached?
      ensures Essences(EssenceOf(f), net(txns).trytes) == Essences(EssenceOf(f), txns)
    {
      var b', tips, env :| AnswersAs(f, txns, net(txns).trytes, b', tips, env);
      var b := Parsed(f, txns);
      Pow.ChainedKeepsEssences(b, b', |b| - Pow.Reach(b), tips, env);
    }
  }

  /** The order of two or more numbered transactions is not its own reverse. */
  lemma OrderedIsNoPalindrome(f: Format, txns: seq<Trytes>)
    requires Pow.IndexOrdered(Parsed(f, txns)) && txns != []
    ensures var want := Essences(EssenceOf(f), txns);
            want == Reverse(want) <==> |txns| == 1
  {
    var want, b := Essences(EssenceOf(f), txns), Parsed(f, txns);
    ReverseAt(want);
    assert want[0] == b[0].essence && Reverse(want)[0] == b[|txns| - 1].essence;
    assert |txns| == 1 ==> want == Reverse(want);
  }

  /** A prepared bundle of two or more transactions that is buffered and sent after k iterations
      that failed to send or to take the lock is fetched in its own order if and only if an even
      number of them rewrote it. */
  lemma BundleOrderRestoredExactly(
      s: State, uuid: Uuid, txns: seq<Trytes>, nets: nat -> Network, f: Format, k: nat)
    requires txns != [] && uuid !in s.store && uuid !in s.unsent && uuid !in s.complete
    requires Faithful(f) && (forall j: nat :: Attaches(nets(j), f)) && Pow.IndexOrdered(Parsed(f, txns))
    requires HeldSends(Push(s, uuid, txns), nets, k)
    ensures var p := Push(s, uuid, txns);
            var reply := Fetch(Broadcast(Held(p, nets, 0, k), nets(k), true).0, uuid, true).1;
            && reply.status == Ok && reply.stage == Sent && reply.value.Some?
            && (Essences(EssenceOf(f), reply.value.value) == Essences(EssenceOf(f), txns) <==>
                Rewrites(p, nets, 0, k) % 2 == 0 || |txns| == 1)
  {
    forall j: nat
      ensures Positional(nets(j), EssenceOf(f))
    {
      AttachesIsPositional(nets(j), f);
    }
    OrderedIsNoPalindrome(f, txns);
    OrderRestoredExactlyAfterEvenRewrites(s, uuid, txns, nets, EssenceOf(f), k);
  }
}
