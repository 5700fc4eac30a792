/**
  Sending over whole runs: which keys are consumed, in what order, and when a one-time key
  is never used twice (ta_send_mam_message, accelerator/core/mam_core.c).
 */
module MamRuns {
  import opened Common
  import opened MamLedger
  import opened MamWriter

  /** Whether the two bundles of a send reach the Tangle.  ta_send_bundle reports success
      either way (accelerator/core/core.c), so the sender cannot tell. */
  datatype Delivery = Delivery(message: bool, announcement: bool)

  datatype Note = Note(entry: Entry, next: Channel)

  datatype SendResult = SendFailed(status: Status) | Sent(message: Entry, note: Option<Note>)

  datatype Request = Request(seed: string, depth: nat, start: Option<Channel>, delivery: Delivery)

  function Land(l: Ledger, e: Entry, landed: bool): Ledger {
    if landed then l + [e] else l
  }

  ghost function ResultOf(l: Ledger, q: Request): SendResult {
    match WriteSpec(l, q.seed, 0, q.depth, q.start)
    case WriteFailed(s) => SendFailed(s)
    case Written(ch, k, announce) =>
      Sent(Entry(ch, Key(k)),
           if announce then Some(Note(Entry(ch, Key(k + 1)), Channel(q.seed, q.depth, ch.ordinal + 1))) else None)
  }

  ghost function LedgerAfter(l: Ledger, q: Request): Ledger {
    match ResultOf(l, q)
    case SendFailed(_) => l
    case Sent(msg, note) =>
      var l1 := Land(l, msg, q.delivery.message);
      if note.Some? then Land(l1, note.value.entry, q.delivery.announcement) else l1
  }

  method SendMamMessage(l: Ledger, q: Request) returns (r: SendResult, l': Ledger)
    ensures r == ResultOf(l, q)
    ensures l' == LedgerAfter(l, q)
  {
    var api := new MamApi(q.seed);
    var w := WriteMessage(l, api, q.depth, q.start);
    if w.WriteFailed? {
      return SendFailed(w.status), l;
    }
    var msg := Entry(w.channel, Key(w.key));
    l' := Land(l, msg, q.delivery.message);
    if !w.announce {
      return Sent(msg, None), l';
    }
    var chid1 := api.ChannelCreate(q.depth);
    var header := api.WriteHeader(w.channel);
    var note := Entry(w.channel, header);
    l' := Land(l', note, q.delivery.announcement);
    r := Sent(msg, Some(Note(note, chid1)));
  }

  /** The ledger after a run of sends, each of which reads the ledger that the others left. */
  ghost function Run(l: Ledger, qs: seq<Request>): Ledger
    decreases |qs|
  {
    if qs == [] then l else LedgerAfter(Run(l, qs[..|qs| - 1]), qs[|qs| - 1])
  }

  // ----- one-time-key safety -----

  /** Every channel address carries only that channel's own message ids. */
  ghost predicate Clean(l: Ledger) {
    forall e :: e in l ==> e.tag.Key? && e.tag.ord < Leaves(e.address.depth)
  }

  /** The last key of a channel is on the Tangle only if the key before it is. */
  ghost predicate LastInOrder(l: Ledger, ch: Channel)
    requires 1 <= ch.depth
  {
    Entry(ch, Key(Leaves(ch.depth) - 1)) in l ==> Entry(ch, Key(Leaves(ch.depth) - 2)) in l
  }

  ghost predicate AllInOrder(l: Ledger) {
    forall ch: Channel :: 1 <= ch.depth ==> LastInOrder(l, ch)
  }

  /** An announcement does not land unless its message did. */
  predicate Causal(d: Delivery) {
    d.announcement ==> d.message
  }

  lemma TagsAtMember(l: Ledger, ch: Channel, t: Tag)
    ensures t in TagsAt(l, ch) <==> Entry(ch, t) in l
  {
    if t in TagsAt(l, ch) {
      var e :| e in l && e.address == ch && e.tag == t;
      assert e == Entry(ch, t);
    }
  }

  lemma CleanTags(l: Ledger, ch: Channel)
    requires Clean(l)
    ensures OwnTags(TagsAt(l, ch), Leaves(ch.depth))
  {
  }

  /** On a clean ledger, with any gaps and losses: a successful write takes an unpublished
      id, the least unused key of its channel, and every channel between the start of the
      search and that channel is completely full. */
  lemma WriteTakesLeastUnusedKey(l: Ledger, seed: string, base: nat, depth: nat, start: Option<Channel>)
    requires Clean(l)
    ensures var w := WriteSpec(l, seed, base, depth, start);
            w.Written? ==>
              && w.key < Leaves(depth)
              && Entry(w.channel, Key(w.key)) !in l
              && (forall k: nat :: k < w.key ==> Entry(w.channel, Key(k)) in l)
              && (forall o: nat, k: nat ::
                    StartOrdinal(l, seed, depth, base, start).value <= o < w.channel.ordinal && k < Leaves(depth) ==>
                    Entry(Channel(seed, depth, o), Key(k)) in l)
  {
    var w := WriteSpec(l, seed, base, depth, start);
    if w.Written? {
      CleanTags(l, w.channel);
      InspectOwnTags(TagsAt(l, w.channel), Leaves(depth));
      forall k: nat | k <= w.key
        ensures k < w.key ==> Entry(w.channel, Key(k)) in l
        ensures k == w.key ==> Entry(w.channel, Key(k)) !in l
      {
        assert k < w.key ==> Key(k) in KeySet(w.key);
        TagsAtMember(l, w.channel, Key(k));
      }
      var from := StartOrdinal(l, seed, depth, base, start).value;
      forall o: nat, k: nat | from <= o < w.channel.ordinal && k < Leaves(depth)
        ensures Entry(Channel(seed, depth, o), Key(k)) in l
      {
        var ch := Channel(seed, depth, o);
        SearchPassesOverSkipped(l, seed, depth, from, o);
        CleanTags(l, ch);
        InspectOwnTags(TagsAt(l, ch), Leaves(depth));
        assert Key(k) in KeySet(Leaves(depth));
        TagsAtMember(l, ch, Key(k));
      }
    }
  }

  /** So on a clean ledger in use, a message asked to start at one of the first 102 channels is
      written there or, if every channel from there up to some other is full, to that other. */
  lemma RequestedStartTaken(l: Ledger, seed: string, depth: nat, i: nat)
    requires Clean(l) && depth > 0 && i <= 101 && InUse(l, seed, depth)
    ensures var w := WriteSpec(l, seed, 0, depth, Some(Channel(seed, depth, i)));
            && w.Written? && i <= w.channel.ordinal && w.channel == Channel(seed, depth, w.channel.ordinal)
            && Entry(w.channel, Key(w.key)) !in l
            && forall o: nat, k: nat :: i <= o < w.channel.ordinal && k < Leaves(depth) ==>
                 Entry(Channel(seed, depth, o), Key(k)) in l
  {
    StartHonouredOnceInUse(l, seed, depth, i);
    WriteTakesLeastUnusedKey(l, seed, 0, depth, Some(Channel(seed, depth, i)));
    var w := WriteSpec(l, seed, 0, depth, Some(Channel(seed, depth, i)));
    forall o: nat, k: nat | i <= o < w.channel.ordinal && k < Leaves(depth)
      ensures Entry(Channel(seed, depth, o), Key(k)) in l
    {
      var ch := Channel(seed, depth, o);
      CleanTags(l, ch);
      InspectOwnTags(TagsAt(l, ch), Leaves(depth));
      assert Key(k) in KeySet(Leaves(depth));
      TagsAtMember(l, ch, Key(k));
    }
  }

  /** A send fails exactly when its write does, with the same status, and then changes nothing. */
  lemma SendFailsExactly(l: Ledger, q: Request)
    ensures ResultOf(l, q).SendFailed? <==>
            q.depth == 0 || (q.start.Some? && InUse(l, q.seed, q.depth) &&
                             forall i: nat :: i <= 101 ==> q.start.value != Channel(q.seed, q.depth, i))
    ensures ResultOf(l, q).SendFailed? ==>
              ResultOf(l, q).status == (if q.depth == 0 then Null else ExceededChidIter) && LedgerAfter(l, q) == l
  {
    WriteFailsExactly(l, q.seed, q.depth, q.start);
  }

  /** The id of a channel's last key, the one its announcement is published under. */
  function LastEntry(ch: Channel): Entry {
    Entry(ch, Key(Leaves(ch.depth) - 1))
  }

  /** What one send on a clean ledger publishes: a new message id and, after the last key but
      one, the last id of the same channel. */
  lemma SendPublishes(l: Ledger, q: Request)
    requires Clean(l) && ResultOf(l, q).Sent?
    ensures var r := ResultOf(l, q);
            && r.message !in l && r.message.tag.Key? && r.message.address.depth >= 1
            && r.message.tag.ord < Leaves(r.message.address.depth)
            && (forall k: nat :: k < r.message.tag.ord ==> Entry(r.message.address, Key(k)) in l)
            && (r.note.Some? ==>
                  && r.note.value.entry == LastEntry(r.message.address)
                  && r.message.tag == Key(Leaves(r.message.address.depth) - 2))
  {
    WriteTakesLeastUnusedKey(l, q.seed, 0, q.depth, q.start);
  }

  lemma SendStaysClean(l: Ledger, q: Request)
    requires Clean(l)
    ensures Clean(LedgerAfter(l, q)) && l <= LedgerAfter(l, q)
  {
    if ResultOf(l, q).Sent? {
      SendPublishes(l, q);
    }
  }

  lemma {:induction false} RunStaysClean(l: Ledger, qs: seq<Request>)
    requires Clean(l)
    ensures Clean(Run(l, qs))
    decreases |qs|
  {
    if qs != [] {
      RunStaysClean(l, qs[..|qs| - 1]);
      SendStaysClean(Run(l, qs[..|qs| - 1]), qs[|qs| - 1]);
    }
  }

  lemma RunNext(l: Ledger, qs: seq<Request>, k: nat)
    requires k < |qs|
    ensures Run(l, qs[..k + 1]) == LedgerAfter(Run(l, qs[..k]), qs[k])
  {
    assert qs[..k + 1][..k] == qs[..k];
  }

  lemma SendKeeps(l: Ledger, q: Request, e: Entry)
    requires e in l
    ensures e in LedgerAfter(l, q)
  {
  }

  /** What is on the Tangle stays there. */
  lemma {:induction false} RunKeeps(l: Ledger, qs: seq<Request>, i: nat, j: nat, e: Entry)
    requires i <= j <= |qs| && e in Run(l, qs[..i])
    ensures e in Run(l, qs[..j])
    decreases j
  {
    if i < j {
      RunKeeps(l, qs, i, j - 1, e);
      SendKeeps(Run(l, qs[..j - 1]), qs[j - 1], e);
      RunNext(l, qs, j - 1);
    }
  }

  /** Over every run from a clean ledger, whatever is lost: the id of a message is not on the
      Tangle when the message is sent. */
  lemma MessagesNeverReuseAKey(l: Ledger, qs: seq<Request>, k: nat)
    requires Clean(l) && k < |qs|
    ensures var m := Run(l, qs[..k]);
            ResultOf(m, qs[k]).Sent? ==> ResultOf(m, qs[k]).message !in m
  {
    RunStaysClean(l, qs[..k]);
    if ResultOf(Run(l, qs[..k]), qs[k]).Sent? {
      SendPublishes(Run(l, qs[..k]), qs[k]);
    }
  }

  /** No id occurs twice, except the last id of a channel. */
  ghost predicate OnlyLastRepeats(l: Ledger) {
    forall i, j :: 0 <= i < j < |l| && l[i] == l[j] ==> l[i] == LastEntry(l[i].address)
  }

  lemma LandRepeatsOnlyLast(l: Ledger, e: Entry, landed: bool)
    requires OnlyLastRepeats(l) && (e !in l || e == LastEntry(e.address))
    ensures OnlyLastRepeats(Land(l, e, landed))
  {
  }

  /** Over every run from a clean ledger, whatever is lost: the only ids ever published twice are
      the last ids of channels, those of announcements. */
  lemma {:induction false} RunRepeatsOnlyLastKeys(l: Ledger, qs: seq<Request>)
    requires Clean(l) && OnlyLastRepeats(l)
    ensures OnlyLastRepeats(Run(l, qs))
    decreases |qs|
  {
    if qs != [] {
      var p := qs[..|qs| - 1];
      RunRepeatsOnlyLastKeys(l, p);
      RunStaysClean(l, p);
      SendRepeatsOnlyLast(Run(l, p), qs[|qs| - 1]);
    }
  }

  lemma SendRepeatsOnlyLast(l: Ledger, q: Request)
    requires Clean(l) && OnlyLastRepeats(l)
    ensures OnlyLastRepeats(LedgerAfter(l, q))
  {
    var r := ResultOf(l, q);
    if r.Sent? {
      SendPublishes(l, q);
      LandRepeatsOnlyLast(l, r.message, q.delivery.message);
      if r.note.Some? {
        LandRepeatsOnlyLast(Land(l, r.message, q.delivery.message), r.note.value.entry, q.delivery.announcement);
      }
    }
  }

  // ----- exactly when a run publishes an id twice -----

  /** This send publishes the announcement of channel ch. */
  ghost predicate Announces(l: Ledger, q: Request, ch: Channel) {
    && ResultOf(l, q).Sent? && ResultOf(l, q).note.Some?
    && ResultOf(l, q).message.address == ch && q.delivery.announcement
  }

  /** This send publishes the announcement of channel ch without its message. */
  ghost predicate Orphans(l: Ledger, q: Request, ch: Channel) {
    Announces(l, q, ch) && !q.delivery.message
  }

  ghost predicate Overtaken(l: Ledger, ch: Channel) {
    1 <= ch.depth && !LastInOrder(l, ch)
  }

  ghost predicate OrphanBefore(l: Ledger, qs: seq<Request>, k: nat, ch: Channel)
    requires k <= |qs|
  {
    exists i :: 0 <= i < k && OrphanAt(l, qs, i, ch)
  }

  ghost predicate OrphanAt(l: Ledger, qs: seq<Request>, i: nat, ch: Channel)
    requires i < |qs|
  {
    Orphans(Run(l, qs[..i]), qs[i], ch)
  }

  /** A send makes a channel's last key overtake the one before it only by orphaning it. */
  lemma OvertakenBySend(l: Ledger, q: Request, ch: Channel)
    requires Clean(l) && Overtaken(LedgerAfter(l, q), ch)
    ensures Overtaken(l, ch) || Orphans(l, q, ch)
  {
    SendStaysClean(l, q);
    if !Overtaken(l, ch) {
      var r := ResultOf(l, q);
      assert LastEntry(ch) !in l && LastEntry(ch) in LedgerAfter(l, q);
      SendPublishes(l, q);
    }
  }

  lemma {:induction false} OvertakenByOrphan(l: Ledger, qs: seq<Request>, k: nat, ch: Channel)
    requires Clean(l) && AllInOrder(l) && k <= |qs|
    ensures Overtaken(Run(l, qs[..k]), ch) ==> OrphanBefore(l, qs, k, ch)
    decreases k
  {
    if k == 0 {
      assert qs[..0] == [];
    } else {
      var m := Run(l, qs[..k - 1]);
      RunNext(l, qs, k - 1);
      RunStaysClean(l, qs[..k - 1]);
      OvertakenByOrphan(l, qs, k - 1, ch);
      if Overtaken(Run(l, qs[..k]), ch) {
        OvertakenBySend(m, qs[k - 1], ch);
        assert Orphans(m, qs[k - 1], ch) ==> OrphanAt(l, qs, k - 1, ch);
      }
    }
  }

  /** An earlier send orphans the announcement that send j publishes again. */
  ghost predicate RepeatAt(l: Ledger, qs: seq<Request>, j: nat, ch: Channel)
    requires j < |qs|
  {
    OrphanBefore(l, qs, j, ch) && Announces(Run(l, qs[..j]), qs[j], ch)
  }

  ghost predicate RepeatsAt(l: Ledger, qs: seq<Request>, j: nat)
    requires j < |qs|
  {
    exists ch :: RepeatAt(l, qs, j, ch)
  }

  /** One send repeats an id exactly if it announces a channel whose last key has overtaken. */
  lemma SendRepeats(l: Ledger, q: Request)
    requires Clean(l) && NoDup(l)
    ensures NoDup(LedgerAfter(l, q)) <==> !exists ch :: Announces(l, q, ch) && Overtaken(l, ch)
  {
    var r := ResultOf(l, q);
    if r.Sent? {
      SendPublishes(l, q);
      var l1 := Land(l, r.message, q.delivery.message);
      NoDupAppend(l, r.message);
      if r.note.Some? {
        var ch := r.message.address;
        NoDupAppend(l1, r.note.value.entry);
        assert r.note.value.entry in l1 <==> r.note.value.entry in l;
        assert r.note.value.entry in l <==> Overtaken(l, ch);
        assert q.delivery.announcement ==> Announces(l, q, ch);
      }
    }
  }

  lemma NoDupAppend(l: Ledger, e: Entry)
    requires NoDup(l)
    ensures NoDup(l + [e]) <==> e !in l
  {
    if e in l {
      var i :| 0 <= i < |l| && l[i] == e;
      assert (l + [e])[i] == (l + [e])[|l|];
    }
  }

  lemma OrphanStaysPublished(l: Ledger, qs: seq<Request>, i: nat, j: nat, ch: Channel)
    requires Clean(l) && i < j <= |qs| && OrphanAt(l, qs, i, ch)
    ensures LastEntry(ch) in Run(l, qs[..j])
  {
    RunStaysClean(l, qs[..i]);
    SendPublishes(Run(l, qs[..i]), qs[i]);
    RunNext(l, qs, i);
    RunKeeps(l, qs, i + 1, j, LastEntry(ch));
  }

  lemma AnnouncingOvertaken(l: Ledger, q: Request, ch: Channel)
    requires Clean(l) && Announces(l, q, ch)
    ensures Overtaken(l, ch) <==> LastEntry(ch) in l
  {
    SendPublishes(l, q);
  }

  /** Send j repeats an id exactly if an earlier send orphaned the announcement it publishes. */
  lemma RepeatsExactlyAt(l: Ledger, qs: seq<Request>, j: nat)
    requires Fresh(l) && j < |qs| && NoDup(Run(l, qs[..j]))
    ensures NoDup(Run(l, qs[..j + 1])) <==> !RepeatsAt(l, qs, j)
  {
    var m := Run(l, qs[..j]);
    RunNext(l, qs, j);
    RunStaysClean(l, qs[..j]);
    SendRepeats(m, qs[j]);
    forall ch | Announces(m, qs[j], ch)
      ensures Overtaken(m, ch) <==> RepeatAt(l, qs, j, ch)
    {
      OvertakenByOrphan(l, qs, j, ch);
      AnnouncingOvertaken(m, qs[j], ch);
      if OrphanBefore(l, qs, j, ch) {
        var i :| 0 <= i < j && OrphanAt(l, qs, i, ch);
        OrphanStaysPublished(l, qs, i, j, ch);
      }
    }
  }

  ghost predicate RepeatBefore(l: Ledger, qs: seq<Request>, k: nat)
    requires k <= |qs|
  {
    exists j :: 0 <= j < k && RepeatsAt(l, qs, j)
  }

  lemma RepeatNeedsOrphan(l: Ledger, qs: seq<Request>, k: nat)
    requires k <= |qs|
    ensures RepeatBefore(l, qs, k) ==> exists ch :: OrphanBefore(l, qs, k, ch)
  {
    if RepeatBefore(l, qs, k) {
      var j :| 0 <= j < k && RepeatsAt(l, qs, j);
      var ch :| RepeatAt(l, qs, j, ch);
      var i :| 0 <= i < j && OrphanAt(l, qs, i, ch);
      assert OrphanBefore(l, qs, k, ch);
    }
  }

  /** One more send keeps what was repeated, and repeats something itself or not. */
  lemma NoDupNext(l: Ledger, qs: seq<Request>, k: nat)
    requires Fresh(l) && k < |qs|
    ensures NoDup(Run(l, qs[..k + 1])) <==> NoDup(Run(l, qs[..k])) && !RepeatsAt(l, qs, k)
  {
    var m := Run(l, qs[..k]);
    RunNext(l, qs, k);
    RunStaysClean(l, qs[..k]);
    SendStaysClean(m, qs[k]);
    if NoDup(m) {
      RepeatsExactlyAt(l, qs, k);
    } else if NoDup(LedgerAfter(m, qs[k])) {
      PrefixNoDup(m, LedgerAfter(m, qs[k]));
    }
  }

  lemma PrefixNoDup(a: Ledger, b: Ledger)
    requires a <= b && NoDup(b)
    ensures NoDup(a)
  {
    assert forall i :: 0 <= i < |a| ==> a[i] == b[i];
  }

  lemma {:induction false} GoodUntilBad(good: nat -> bool, bad: nat -> bool, k: nat)
    requires good(0) && forall j: nat :: j < k ==> (good(j + 1) <==> good(j) && !bad(j))
    ensures good(k) <==> !exists j: nat :: j < k && bad(j)
  {
    if k > 0 {
      GoodUntilBad(good, bad, k - 1);
      assert good(k - 1 + 1) <==> good(k - 1) && !bad(k - 1);
    }
  }

  /** Over every run, by any seeds and depths, from any starting channels and with any losses: an
      id is published twice if and only if some send publishes the announcement of a channel whose
      announcement an earlier send published without its message. */
  lemma RunRepeatsExactly(l: Ledger, qs: seq<Request>, k: nat)
    requires Fresh(l) && k <= |qs|
    ensures NoDup(Run(l, qs[..k])) <==> !RepeatBefore(l, qs, k)
  {
    var good := (j: nat) => j <= |qs| && NoDup(Run(l, qs[..j]));
    var bad := (j: nat) => j < |qs| && RepeatsAt(l, qs, j);
    assert good(0) by {
      assert qs[..0] == [];
    }
    forall j: nat | j < k
      ensures good(j + 1) <==> good(j) && !bad(j)
    {
      NoDupNext(l, qs, j);
    }
    GoodUntilBad(good, bad, k);
    RepeatBeforeIs(l, qs, k, bad);
  }

  lemma RepeatBeforeIs(l: Ledger, qs: seq<Request>, k: nat, bad: nat -> bool)
    requires k <= |qs| && forall j: nat :: bad(j) <==> j < |qs| && RepeatsAt(l, qs, j)
    ensures RepeatBefore(l, qs, k) <==> exists j: nat :: j < k && bad(j)
  {
    if RepeatBefore(l, qs, k) {
      var j :| 0 <= j < k && RepeatsAt(l, qs, j);
      assert bad(j);
    }
  }

  /** The ledger at the start of a run: own ids only, each once, none overtaken. */
  ghost predicate Fresh(l: Ledger) {
    Clean(l) && AllInOrder(l) && NoDup(l)
  }

  lemma CausalNeverOrphans(l: Ledger, qs: seq<Request>, k: nat)
    requires k <= |qs| && forall i :: 0 <= i < |qs| ==> Causal(qs[i].delivery)
    ensures forall ch :: !OrphanBefore(l, qs, k, ch)
  {
    forall ch
      ensures !OrphanBefore(l, qs, k, ch)
    {
      forall i | 0 <= i < k
        ensures !OrphanAt(l, qs, i, ch)
      {
        assert Causal(qs[i].delivery);
      }
    }
  }

  /** So no id is ever published twice if no announcement outlives its message. */
  lemma RunNeverReusesAKey(l: Ledger, qs: seq<Request>)
    requires Fresh(l)
    requires forall i :: 0 <= i < |qs| ==> Causal(qs[i].delivery)
    ensures Fresh(Run(l, qs))
  {
    assert qs[..|qs|] == qs;
    CausalNeverOrphans(l, qs, |qs|);
    RepeatNeedsOrphan(l, qs, |qs|);
    RunRepeatsExactly(l, qs, |qs|);
    RunStaysClean(l, qs);
    forall ch: Channel | 1 <= ch.depth
      ensures LastInOrder(Run(l, qs), ch)
    {
      OvertakenByOrphan(l, qs, |qs|, ch);
    }
  }

  /** The hypothesis is needed: a lost message whose announcement lands makes the next send
      sign a second announcement with the same key. */
  lemma LostMessageReusesAKey(seed: string)
    ensures var lost := Request(seed, 1, None, Delivery(false, true));
            var sent := Request(seed, 1, None, Delivery(true, true));
            var e := Entry(Channel(seed, 1, 0), Key(1));
            Run([], [lost, sent]) == [e, Entry(Channel(seed, 1, 0), Key(0)), e]
  {
    var ch := Channel(seed, 1, 0);
    var e := Entry(ch, Key(1));
    var lost := Request(seed, 1, None, Delivery(false, true));
    var sent := Request(seed, 1, None, Delivery(true, true));
    assert Leaves(1) == 2;
    assert TagsAt([], ch) == {};
    assert FirstUnused({}, 0, 2) == 0;
    assert Search([], seed, 1, 0) == 0;
    assert LedgerAfter([], lost) == [e];
    assert TagsAt([e], ch) == {Key(1)};
    assert FirstUnused({Key(1)}, 0, 2) == 0;
    assert Search([e], seed, 1, 0) == 0;
    assert LedgerAfter([e], sent) == [e, Entry(ch, Key(0)), e];
    calc {
      Run([], [lost, sent]);
      { assert [lost, sent][..1] == [lost]; }
      LedgerAfter(Run([], [lost]), sent);
      { assert [lost][..0] == []; }
      LedgerAfter(LedgerAfter([], lost), sent);
    }
  }

  // ----- the closed form of a run in which every broadcast lands -----

  /** The ids at channel o once n messages were sent: whole channels, then a partial one. */
  ghost function ExpectedTags(leaves: nat, n: nat, o: nat): set<Tag>
    requires 2 <= leaves
  {
    if o < n / (leaves - 1) then KeySet(leaves)
    else if o == n / (leaves - 1) then KeySet(n % (leaves - 1))
    else {}
  }

  ghost predicate Progress(l: Ledger, seed: string, depth: nat, n: nat)
    requires 1 <= depth
  {
    forall o: nat :: TagsAt(l, Channel(seed, depth, o)) == ExpectedTags(Leaves(depth), n, o)
  }

  /** Send number n of a seed and depth: each channel carries 2^depth - 1 messages, and its
      last key announces the channel of the next send. */
  function Expected(seed: string, depth: nat, n: nat): SendResult
    requires 1 <= depth
  {
    var m: nat := Leaves(depth) - 1;
    var q: nat, r: nat := n / m, n % m;
    var ch := Channel(seed, depth, q);
    Sent(Entry(ch, Key(r)), if r == m - 1 then Some(Note(Entry(ch, Key(m)), Channel(seed, depth, q + 1))) else None)
  }

  lemma NextQuotient(n: nat, m: nat)
    requires 1 <= m
    ensures n % m < m - 1 ==> (n + 1) / m == n / m && (n + 1) % m == n % m + 1
    ensures n % m == m - 1 ==> (n + 1) / m == n / m + 1 && (n + 1) % m == 0
  {
    var q, r := n / m, n % m;
    assert n == q * m + r;
    if r < m - 1 {
      QuotientOf(q, r + 1, m);
    } else {
      assert n + 1 == (q + 1) * m + 0;
      QuotientOf(q + 1, 0, m);
    }
  }

  lemma QuotientOf(q: nat, r: nat, m: nat)
    requires r < m
    ensures (q * m + r) / m == q && (q * m + r) % m == r
  {
    var n := q * m + r;
    var d := n / m - q;
    assert n == (n / m) * m + n % m;
    assert (n / m) * m == q * m + d * m;
    assert d * m == r - n % m;
    MultipleMagnitude(d, m);
  }

  lemma MultipleMagnitude(d: int, m: nat)
    ensures d >= 1 ==> d * m >= m
    ensures d <= -1 ==> d * m + m <= 0
  {
  }

  /** The verdict on the expected tags, channel by channel. */
  lemma ExpectedVerdict(leaves: nat, n: nat, o: nat)
    requires 2 <= leaves && o <= n / (leaves - 1)
    ensures var m, v := leaves - 1, Inspect(ExpectedTags(leaves, n, o), leaves);
            if o < n / m then v.Skip?
            else v == (if n % m == m - 1 then Announce(n % m) else Send(n % m))
  {
    var tags, r := ExpectedTags(leaves, n, o), n % (leaves - 1);
    if o < n / (leaves - 1) {
      InspectOwnTags(tags, leaves);
    } else {
      assert KeySet(r) <= KeySet(leaves);
      KeySetWithin(tags, leaves);
      assert Key(r) !in tags;
      InspectOwnTags(tags, leaves);
      KeySetWithin(tags, FirstUnused(tags, 0, leaves));
    }
  }

  lemma SearchIs(l: Ledger, seed: string, depth: nat, q: nat)
    requires 1 <= depth && !VerdictAt(l, Channel(seed, depth, q)).Skip?
    requires forall o: nat :: o < q ==> VerdictAt(l, Channel(seed, depth, o)).Skip?
    ensures Search(l, seed, depth, 0) == q
  {
    if q < Search(l, seed, depth, 0) {
      SearchPassesOverSkipped(l, seed, depth, 0, q);
    }
  }

  lemma SearchFinds(l: Ledger, seed: string, depth: nat, n: nat)
    requires 1 <= depth && Progress(l, seed, depth, n)
    ensures Search(l, seed, depth, 0) == n / (Leaves(depth) - 1)
  {
    var q := n / (Leaves(depth) - 1);
    ExpectedVerdict(Leaves(depth), n, q);
    forall o: nat | o < q
      ensures VerdictAt(l, Channel(seed, depth, o)).Skip?
    {
      ExpectedVerdict(Leaves(depth), n, o);
    }
    SearchIs(l, seed, depth, q);
  }

  lemma TagsAfterLanding(l: Ledger, e: Entry, ch: Channel)
    ensures TagsAt(l + [e], ch) == TagsAt(l, ch) + (if e.address == ch then {e.tag} else {})
  {
  }

  /** A plain request whose bundles all land. */
  function Landing(seed: string, depth: nat): Request {
    Request(seed, depth, None, Delivery(true, true))
  }

  lemma ExpectedResult(l: Ledger, seed: string, depth: nat, n: nat)
    requires 1 <= depth && Progress(l, seed, depth, n)
    ensures ResultOf(l, Landing(seed, depth)) == Expected(seed, depth, n)
  {
    var m := Leaves(depth) - 1;
    SearchFinds(l, seed, depth, n);
    ExpectedVerdict(m + 1, n, n / m);
  }

  /** The ids a send adds to channel o. */
  ghost function Added(leaves: nat, n: nat, o: nat): set<Tag>
    requires 2 <= leaves
  {
    var m := leaves - 1;
    if o != n / m then {}
    else if n % m == m - 1 then {Key(m - 1), Key(m)}
    else {Key(n % m)}
  }

  lemma ExpectedTagsStep(leaves: nat, n: nat, o: nat)
    requires 2 <= leaves
    ensures ExpectedTags(leaves, n + 1, o) == ExpectedTags(leaves, n, o) + Added(leaves, n, o)
  {
    var m := leaves - 1;
    var r := n % m;
    NextQuotient(n, m);
    assert KeySet(0) == {};
    if r == m - 1 {
      assert KeySet(leaves) == KeySet(m - 1) + {Key(m - 1), Key(m)};
    } else {
      assert KeySet(r + 1) == KeySet(r) + {Key(r)};
    }
  }

  /** A send at position n gives the expected result and moves the ledger to n + 1. */
  lemma SendAdvances(l: Ledger, seed: string, depth: nat, n: nat)
    requires 1 <= depth && Progress(l, seed, depth, n)
    ensures ResultOf(l, Landing(seed, depth)) == Expected(seed, depth, n)
    ensures Progress(LedgerAfter(l, Landing(seed, depth)), seed, depth, n + 1)
  {
    ExpectedResult(l, seed, depth, n);
    var r, leaves := Expected(seed, depth, n), Leaves(depth);
    var l' := LedgerAfter(l, Landing(seed, depth));
    forall o: nat
      ensures TagsAt(l', Channel(seed, depth, o)) == ExpectedTags(leaves, n + 1, o)
    {
      var ch := Channel(seed, depth, o);
      TagsAfterLanding(l, r.message, ch);
      if r.note.Some? {
        TagsAfterLanding(l + [r.message], r.note.value.entry, ch);
      }
      ExpectedTagsStep(leaves, n, o);
      assert TagsAt(l, ch) == ExpectedTags(leaves, n, o);
    }
  }

  lemma ElsewhereKeepsProgress(l: Ledger, e: Entry, seed: string, depth: nat, n: nat)
    requires 1 <= depth && Progress(l, seed, depth, n)
    requires e.address.seed != seed || e.address.depth != depth
    ensures Progress(l + [e], seed, depth, n)
  {
  }

  /** A send of another seed or depth, whatever its start and its losses, is elsewhere. */
  lemma OtherSendKeepsProgress(l: Ledger, q: Request, seed: string, depth: nat, n: nat)
    requires 1 <= depth && Progress(l, seed, depth, n)
    requires q.seed != seed || q.depth != depth
    ensures Progress(LedgerAfter(l, q), seed, depth, n)
  {
    var r := ResultOf(l, q);
    if r.Sent? {
      ElsewhereKeepsProgress(l, r.message, seed, depth, n);
      var l1 := Land(l, r.message, q.delivery.message);
      if r.note.Some? {
        ElsewhereKeepsProgress(l1, r.note.value.entry, seed, depth, n);
      }
    }
  }

  /** What happens on the Tangle: this sender sends, or something lands at another address. */
  datatype Event = OwnSend | Elsewhere(entry: Entry)

  ghost function Results(l: Ledger, seed: string, depth: nat, events: seq<Event>): seq<SendResult>
    decreases |events|
  {
    if events == [] then []
    else
      match events[0]
      case Elsewhere(e) => Results(l + [e], seed, depth, events[1..])
      case OwnSend =>
        [ResultOf(l, Landing(seed, depth))] +
        Results(LedgerAfter(l, Landing(seed, depth)), seed, depth, events[1..])
  }

  ghost predicate Matches(rs: seq<SendResult>, seed: string, depth: nat, n: nat)
    requires 1 <= depth
  {
    forall i :: 0 <= i < |rs| ==> rs[i] == Expected(seed, depth, n + i)
  }

  lemma MatchesPrepend(rs: seq<SendResult>, seed: string, depth: nat, n: nat)
    requires 1 <= depth && Matches(rs, seed, depth, n + 1)
    ensures Matches([Expected(seed, depth, n)] + rs, seed, depth, n)
  {
  }

  lemma {:induction false} ResultPerSend(l: Ledger, seed: string, depth: nat, events: seq<Event>)
    ensures |Results(l, seed, depth, events)| == multiset(events)[OwnSend]
    decreases |events|
  {
    if events != [] {
      var tail := events[1..];
      assert events == [events[0]] + tail;
      match events[0] {
        case Elsewhere(e) =>
          ResultPerSend(l + [e], seed, depth, tail);
        case OwnSend =>
          ResultPerSend(LedgerAfter(l, Landing(seed, depth)), seed, depth, tail);
      }
    }
  }

  /** The closed form: whatever lands at other addresses in between, send number n uses key
      n mod (2^depth - 1) of channel n div (2^depth - 1), and announces exactly at the key
      2^depth - 2. */
  lemma {:induction false} RunClosedForm(l: Ledger, seed: string, depth: nat, n: nat, events: seq<Event>)
    requires 1 <= depth && Progress(l, seed, depth, n)
    requires forall e :: Elsewhere(e) in events ==> e.address.seed != seed || e.address.depth != depth
    ensures |Results(l, seed, depth, events)| == multiset(events)[OwnSend]
    ensures Matches(Results(l, seed, depth, events), seed, depth, n)
    decreases |events|
  {
    ResultPerSend(l, seed, depth, events);
    if events != [] {
      match events[0] {
        case Elsewhere(e) =>
          assert Elsewhere(e) in events;
          ElsewhereKeepsProgress(l, e, seed, depth, n);
          RunClosedForm(l + [e], seed, depth, n, events[1..]);
        case OwnSend =>
          SendAdvances(l, seed, depth, n);
          var l' := LedgerAfter(l, Landing(seed, depth));
          RunClosedForm(l', seed, depth, n + 1, events[1..]);
          MatchesPrepend(Results(l', seed, depth, events[1..]), seed, depth, n);
      }
    }
  }

  /** The announced channel is the one the next send uses, from its first key. */
  lemma AnnouncementNamesNextChannel(seed: string, depth: nat, n: nat)
    requires 1 <= depth
    ensures var r, r' := Expected(seed, depth, n), Expected(seed, depth, n + 1);
            if r.note.Some? then r'.message == Entry(r.note.value.next, Key(0))
            else r'.message.address == r.message.address
  {
    NextQuotient(n, Leaves(depth) - 1);
  }

  /** A Tangle without traffic at the channels of this seed and depth is at position 0. */
  lemma EmptyIsStart(l: Ledger, seed: string, depth: nat)
    requires 1 <= depth
    requires forall e :: e in l ==> e.address.seed != seed || e.address.depth != depth
    ensures Progress(l, seed, depth, 0)
  {
  }
}
