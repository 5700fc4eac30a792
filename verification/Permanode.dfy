/**
  The permanode's transaction table (storage/scylladb_permanode.c): one row per hash, holding the
  columns sliced out of the transaction's trytes and the set of transactions that approve it.
 */
module PermanodeTable {
  import opened Common

  type Hash = string

  const ADDRESS_OFFSET := 2187
  const VALUE_OFFSET := ADDRESS_OFFSET + 81
  const OBSOLETE_TAG_OFFSET := VALUE_OFFSET + 27
  const TIMESTAMP_OFFSET := OBSOLETE_TAG_OFFSET + 27
  const CURRENT_INDEX_OFFSET := TIMESTAMP_OFFSET + 9
  const LAST_INDEX_OFFSET := CURRENT_INDEX_OFFSET + 9
  const BUNDLE_OFFSET := LAST_INDEX_OFFSET + 9
  const TRUNK_OFFSET := BUNDLE_OFFSET + 81
  const BRANCH_OFFSET := TRUNK_OFFSET + 81
  const TRANSACTION_SIZE := 2673

  predicate WellSized(t: string) {
    |t| == TRANSACTION_SIZE
  }

  /** The serialized transactions. */
  type Trytes = t: string | WellSized(t) witness seq(TRANSACTION_SIZE, _ => '9')

  function Trunk(t: Trytes): Hash {
    t[TRUNK_OFFSET..TRUNK_OFFSET + 81]
  }

  function Branch(t: Trytes): Hash {
    t[BRANCH_OFFSET..BRANCH_OFFSET + 81]
  }

  datatype Column = Bundle | Address | Tag

  function Cell(t: Trytes, c: Column): string {
    match c
    case Bundle => t[BUNDLE_OFFSET..BUNDLE_OFFSET + 81]
    case Address => t[ADDRESS_OFFSET..ADDRESS_OFFSET + 81]
    case Tag => t[OBSOLETE_TAG_OFFSET..OBSOLETE_TAG_OFFSET + 27]
  }

  /** The fields of a transaction in the order and at the widths of its serialized form. */
  datatype Fields = Fields(
    signature: string, address: string, value: string, obsoleteTag: string, timestamp: string,
    currentIndex: string, lastIndex: string, bundle: string, trunk: string, branch: string,
    tag: string, attachment: string, lower: string, upper: string, nonce: string)

  ghost predicate AtWidths(f: Fields) {
    && |f.signature| == 2187 && |f.address| == 81 && |f.value| == 27 && |f.obsoleteTag| == 27
    && |f.timestamp| == 9 && |f.currentIndex| == 9 && |f.lastIndex| == 9
    && |f.bundle| == 81 && |f.trunk| == 81 && |f.branch| == 81
    && |f.tag| == 27 && |f.attachment| == 9 && |f.lower| == 9 && |f.upper| == 9 && |f.nonce| == 27
  }

  function Serialized(f: Fields): string {
    f.signature + f.address + f.value + f.obsoleteTag + f.timestamp + f.currentIndex + f.lastIndex +
    f.bundle + f.trunk + f.branch + f.tag + f.attachment + f.lower + f.upper + f.nonce
  }

  /** Each column and each reference is the field of its name; the tag column is the obsolete tag. */
  lemma ColumnsAreFields(f: Fields)
    requires AtWidths(f)
    ensures WellSized(Serialized(f))
    ensures var t: Trytes := Serialized(f);
            && Cell(t, Bundle) == f.bundle && Cell(t, Address) == f.address && Cell(t, Tag) == f.obsoleteTag
            && Trunk(t) == f.trunk && Branch(t) == f.branch
  {
    var a := f.signature + f.address + f.value + f.obsoleteTag;
    var b := f.timestamp + f.currentIndex + f.lastIndex;
    var c := f.bundle + f.trunk + f.branch;
    var d := f.tag + f.attachment + f.lower + f.upper + f.nonce;
    var t := Serialized(f);
    assert t == a + b + c + d;
    assert t[..2322] == a && a[2187..2268] == f.address && a[2295..2322] == f.obsoleteTag;
    assert t[2349..2592] == c && c[..81] == f.bundle && c[81..162] == f.trunk && c[162..243] == f.branch;
  }

  /** A row that was only ever referenced has no columns. */
  datatype Row = Row(trytes: Option<Trytes>, approvees: set<Hash>)

  type Table = map<Hash, Row>

  function RowOf(rows: Table, h: Hash): Row {
    if h in rows then rows[h] else Row(None, {})
  }

  function SetColumns(rows: Table, h: Hash, t: Trytes): Table {
    rows[h := RowOf(rows, h).(trytes := Some(t))]
  }

  function AddApprovee(rows: Table, h: Hash, approvee: Hash): Table {
    rows[h := RowOf(rows, h).(approvees := RowOf(rows, h).approvees + {approvee})]
  }

  function Insert(rows: Table, h: Hash, t: Trytes): Table {
    AddApprovee(AddApprovee(SetColumns(rows, h, t), Trunk(t), h), Branch(t), h)
  }

  // ----- a plain scan of what was inserted -----

  datatype Item = Item(hash: Hash, trytes: Trytes)

  function InsertAll(items: seq<Item>): Table {
    if items == [] then map[]
    else
      var x := items[|items| - 1];
      Insert(InsertAll(items[..|items| - 1]), x.hash, x.trytes)
  }

  predicate Approves(x: Item, h: Hash) {
    Trunk(x.trytes) == h || Branch(x.trytes) == h
  }

  ghost predicate Inserted(items: seq<Item>, h: Hash) {
    exists x :: x in items && x.hash == h
  }

  ghost predicate Referenced(items: seq<Item>, h: Hash) {
    exists x :: x in items && Approves(x, h)
  }

  ghost function Approvees(items: seq<Item>, h: Hash): set<Hash> {
    set x | x in items && Approves(x, h) :: x.hash
  }

  function Latest(items: seq<Item>, h: Hash): Option<Trytes> {
    if items == [] then None
    else
      var x := items[|items| - 1];
      if x.hash == h then Some(x.trytes) else Latest(items[..|items| - 1], h)
  }

  ghost predicate AgreesAt(rows: Table, items: seq<Item>, h: Hash) {
    && (h in rows <==> Inserted(items, h) || Referenced(items, h))
    && RowOf(rows, h) == Row(Latest(items, h), Approvees(items, h))
  }

  lemma ScanSnoc(items: seq<Item>, x: Item, h: Hash)
    ensures var all := items + [x];
            && (Inserted(all, h) <==> Inserted(items, h) || x.hash == h)
            && (Referenced(all, h) <==> Referenced(items, h) || Approves(x, h))
            && Approvees(all, h) == Approvees(items, h) + (if Approves(x, h) then {x.hash} else {})
            && Latest(all, h) == if x.hash == h then Some(x.trytes) else Latest(items, h)
  {
  }

  lemma InsertAt(rows: Table, x: Item, h: Hash)
    ensures var rows' := Insert(rows, x.hash, x.trytes);
            && (h in rows' <==> h in rows || h == x.hash || Approves(x, h))
            && RowOf(rows', h) == Row(if h == x.hash then Some(x.trytes) else RowOf(rows, h).trytes,
                                      RowOf(rows, h).approvees + (if Approves(x, h) then {x.hash} else {}))
  {
  }

  /** After any sequence of inserts, the row of every hash is what a scan of the sequence gives:
      a row exists exactly for inserted or referenced hashes, the approvees are exactly the
      inserted transactions whose trunk or branch it is, the columns are the latest inserted. */
  lemma {:induction false} TableAgreesWithScan(items: seq<Item>, h: Hash)
    ensures AgreesAt(InsertAll(items), items, h)
  {
    if items != [] {
      var p, x := items[..|items| - 1], items[|items| - 1];
      assert items == p + [x];
      TableAgreesWithScan(p, h);
      ScanSnoc(p, x, h);
      InsertAt(InsertAll(p), x, h);
    }
  }

  // ----- order and repetition -----

  /** One trytes value for each hash. */
  ghost predicate Functional(items: seq<Item>) {
    forall x, y :: x in items && y in items && x.hash == y.hash ==> x == y
  }

  lemma {:induction false} LatestIsTheOne(items: seq<Item>, h: Hash)
    ensures Latest(items, h).Some? <==> Inserted(items, h)
    ensures Latest(items, h).Some? ==> Item(h, Latest(items, h).value) in items
  {
    if items != [] {
      var p, x := items[..|items| - 1], items[|items| - 1];
      assert items == p + [x];
      LatestIsTheOne(p, h);
      ScanSnoc(p, x, h);
    }
  }

  /** Insert order and repetition do not matter: the same transactions give the same table. */
  lemma SameItemsSameTable(a: seq<Item>, b: seq<Item>)
    requires Functional(a) && forall x :: x in a <==> x in b
    ensures InsertAll(a) == InsertAll(b)
  {
    forall h
      ensures h in InsertAll(a) <==> h in InsertAll(b)
      ensures RowOf(InsertAll(a), h) == RowOf(InsertAll(b), h)
    {
      TableAgreesWithScan(a, h);
      TableAgreesWithScan(b, h);
      LatestIsTheOne(a, h);
      LatestIsTheOne(b, h);
      assert Approvees(a, h) == Approvees(b, h);
    }
    assert forall h :: h in InsertAll(a) ==> InsertAll(a)[h] == RowOf(InsertAll(a), h) == RowOf(InsertAll(b), h);
  }

  lemma ReinsertChangesNothing(items: seq<Item>, x: Item)
    requires Functional(items) && x in items
    ensures Insert(InsertAll(items), x.hash, x.trytes) == InsertAll(items)
  {
    var all := items + [x];
    assert all[..|items|] == items;
    SameItemsSameTable(items, all);
  }
}

module Permanode {
  import opened Common
  import opened PermanodeTable

  const SELECT_LIMIT := 100

  ghost predicate Matches(rows: Table, h: Hash, c: Column, v: string) {
    h in rows && rows[h].trytes.Some? && Cell(rows[h].trytes.value, c) == v
  }

  ghost function MatchSet(rows: Table, c: Column, v: string): set<Hash> {
    set h | h in rows && Matches(rows, h, c, v)
  }

  datatype Query = ByColumn(column: Column, value: string) | ByApprovee(hash: Hash)

  /** What a query should find: transactions with that column value, or the approvers of a hash. */
  ghost function Answers(rows: Table, q: Query): set<Hash> {
    match q
    case ByColumn(c, v) => MatchSet(rows, c, v)
    case ByApprovee(h) => RowOf(rows, h).approvees
  }

  /** Column queries are cut at 100 rows; approvees are read whole. */
  ghost predicate Within(rows: Table, q: Query) {
    q.ByApprovee? || |Answers(rows, q)| <= SELECT_LIMIT
  }

  lemma WithinHundred(rows: Table, q: Query)
    ensures Within(rows, q) <==> q.ByApprovee? || |Answers(rows, q)| <= 100
  {
  }

  /** The answer is duplicate-free, contains only true answers, and all of them unless it is a
      column query with more than 100. */
  ghost predicate GoodAnswer(rows: Table, q: Query, res: seq<Hash>) {
    && NoDup(res) && Elems(res) <= Answers(rows, q)
    && (Within(rows, q) ==> Elems(res) == Answers(rows, q))
    && (Answers(rows, q) != {} ==> res != [])
  }

  ghost predicate AllAnswered(rows: Table, queries: seq<Query>) {
    forall i :: 0 <= i < |queries| ==> Answers(rows, queries[i]) != {}
  }

  /** Every hash found answers one of the queries. */
  ghost predicate Sound(rows: Table, queries: seq<Query>, res: seq<Hash>) {
    forall h :: h in res ==> AnswersSome(rows, queries, h)
  }

  ghost predicate AnswersSome(rows: Table, queries: seq<Query>, h: Hash) {
    exists i :: 0 <= i < |queries| && h in Answers(rows, queries[i])
  }

  /** Every answer to a query that is not cut is found. */
  ghost predicate Complete(rows: Table, queries: seq<Query>, res: seq<Hash>) {
    forall i :: 0 <= i < |queries| && Within(rows, queries[i]) ==> Holds(res, Answers(rows, queries[i]))
  }

  ghost predicate Holds(res: seq<Hash>, s: set<Hash>) {
    forall h :: h in s ==> h in res
  }

  lemma SoundPrefix(rows: Table, queries: seq<Query>, i: nat, res: seq<Hash>)
    requires i <= |queries| && Sound(rows, queries[..i], res)
    ensures Sound(rows, queries, res)
  {
    forall h | h in res
      ensures AnswersSome(rows, queries, h)
    {
      assert AnswersSome(rows, queries[..i], h);
    }
  }

  lemma AnswersAppend(rows: Table, queries: seq<Query>, res: seq<Hash>, q: Query, found: seq<Hash>)
    requires Sound(rows, queries, res) && Complete(rows, queries, res) && GoodAnswer(rows, q, found)
    ensures Sound(rows, queries + [q], res + found) && Complete(rows, queries + [q], res + found)
    ensures AllAnswered(rows, queries) && Answers(rows, q) != {} ==> AllAnswered(rows, queries + [q])
  {
    var all, n := queries + [q], |queries|;
    assert all[n] == q;
    assert forall h :: h in found <==> h in Elems(found);
    forall h | h in res + found
      ensures AnswersSome(rows, all, h)
    {
      if h in res {
        assert AnswersSome(rows, queries, h);
        var i :| 0 <= i < n && h in Answers(rows, queries[i]);
        assert all[i] == queries[i];
      } else {
        assert h in Answers(rows, all[n]);
      }
    }
    forall i | 0 <= i < |all| && Within(rows, all[i])
      ensures Holds(res + found, Answers(rows, all[i]))
    {
      if i < n {
        assert all[i] == queries[i] && Holds(res, Answers(rows, queries[i]));
      }
    }
  }

  method SetToSeq(s: set<Hash>) returns (r: seq<Hash>)
    ensures NoDup(r) && Elems(r) == s
  {
    r := [];
    var left := s;
    while left != {}
      invariant left <= s && NoDup(r) && Elems(r) == s - left
      decreases left
    {
      var h :| h in left;
      assert h !in Elems(r);
      assert Elems(r + [h]) == Elems(r) + {h};
      r := r + [h];
      left := left - {h};
    }
  }

  class Store {
    var rows: Table

    constructor ()
      ensures rows == map[]
    {
      rows := map[];
    }

    method InsertTransaction(h: Hash, t: Trytes)
      modifies this
      ensures rows == SetColumns(old(rows), h, t)
    {
      rows := rows[h := RowOf(rows, h).(trytes := Some(t))];
    }

    method InsertApprovee(h: Hash, approvee: Hash)
      modifies this
      ensures rows == AddApprovee(old(rows), h, approvee)
    {
      rows := rows[h := RowOf(rows, h).(approvees := RowOf(rows, h).approvees + {approvee})];
    }

    /** db_permanode_insert_transaction. */
    method PermanodeInsert(h: Hash, t: Trytes)
      modifies this
      ensures rows == Insert(old(rows), h, t)
    {
      InsertTransaction(h, t);
      InsertApprovee(Trunk(t), h);
      InsertApprovee(Branch(t), h);
    }

    /** The rows a column query selects, in whatever order the database keeps them. */
    method SelectByColumn(c: Column, v: string) returns (status: Status, res: seq<Hash>)
      ensures GoodAnswer(rows, ByColumn(c, v), res)
      ensures |res| == if |MatchSet(rows, c, v)| <= 100 then |MatchSet(rows, c, v)| else 100
      ensures status == if res == [] then NotFound else Ok
    {
      var keys := SetToSeq(rows.Keys);
      res := [];
      var i := 0;
      while i < |keys| && |res| < SELECT_LIMIT
        invariant 0 <= i <= |keys| && |res| <= SELECT_LIMIT
        invariant NoDup(res) && Elems(res) == MatchSet(rows, c, v) * Elems(keys[..i])
      {
        var h := keys[i];
        assert h in Elems(keys);
        assert keys[..i + 1] == keys[..i] + [h];
        assert Elems(keys[..i + 1]) == Elems(keys[..i]) + {h};
        if rows[h].trytes.Some? && Cell(rows[h].trytes.value, c) == v {
          assert h !in keys[..i];
          assert h !in Elems(res);
          assert Elems(res + [h]) == Elems(res) + {h};
          res := res + [h];
        }
        i := i + 1;
      }
      status := if res == [] then NotFound else Ok;
      SelectionComplete(rows, c, v, keys, i, res);
    }

    method SelectApprovees(h: Hash) returns (status: Status, res: seq<Hash>)
      ensures GoodAnswer(rows, ByApprovee(h), res)
      ensures status == if res == [] then NotFound else Ok
    {
      res := SetToSeq(RowOf(rows, h).approvees);
      status := if res == [] then NotFound else Ok;
    }

    method Lookup(q: Query) returns (status: Status, res: seq<Hash>)
      ensures GoodAnswer(rows, q, res)
      ensures status == if Answers(rows, q) == {} then NotFound else Ok
    {
      match q {
        case ByColumn(c, v) => status, res := SelectByColumn(c, v);
        case ByApprovee(h) => status, res := SelectApprovees(h);
      }
      assert res != [] ==> res[0] in Elems(res);
    }

    /** db_client_find_transactions: the answers are appended one query after another, and the
        first query without an answer ends the search with its status. */
    method FindTransactions(queries: seq<Query>) returns (status: Status, res: seq<Hash>)
      ensures status == if AllAnswered(rows, queries) then Ok else NotFound
      ensures Sound(rows, queries, res)
      ensures status == Ok ==> Complete(rows, queries, res)
    {
      res := [];
      for i := 0 to |queries|
        invariant AllAnswered(rows, queries[..i])
        invariant Sound(rows, queries[..i], res) && Complete(rows, queries[..i], res)
      {
        var found;
        status, found := Lookup(queries[i]);
        if status != Ok {
          SoundPrefix(rows, queries, i, res);
          return;
        }
        AnswersAppend(rows, queries[..i], res, queries[i], found);
        assert queries[..i + 1] == queries[..i] + [queries[i]];
        res := res + found;
      }
      assert queries[..|queries|] == queries;
      status := Ok;
    }

    /** get_trytes_from_transaction_table; a row without columns has a null value, which is an error. */
    method GetTrytes(h: Hash) returns (status: Status, t: Option<Trytes>)
      ensures t == RowOf(rows, h).trytes
      ensures status == if t.Some? then Ok else if h in rows then QueryFail else NotFound
    {
      if h !in rows {
        return NotFound, None;
      }
      t := rows[h].trytes;
      status := if t.None? then QueryFail else Ok;
    }

    /** get_inclusion_status_from_transaction_table: whether any row has this hash. */
    method InclusionState(h: Hash) returns (included: bool)
      ensures included <==> h in rows
    {
      included := h in rows;
    }
  }

  lemma SelectionComplete(rows: Table, c: Column, v: string, keys: seq<Hash>, i: nat, res: seq<Hash>)
    requires Elems(keys) == rows.Keys && i <= |keys| && (i == |keys| || |res| == SELECT_LIMIT)
    requires NoDup(res) && Elems(res) == MatchSet(rows, c, v) * Elems(keys[..i])
    ensures GoodAnswer(rows, ByColumn(c, v), res)
    ensures |res| <= SELECT_LIMIT ==> |res| == if |MatchSet(rows, c, v)| <= 100 then |MatchSet(rows, c, v)| else 100
  {
    var m := MatchSet(rows, c, v);
    NoDupCardinality(res);
    if i == |keys| {
      assert keys[..i] == keys;
      assert Elems(res) == m;
    } else {
      SubsetCardinality(Elems(res), m);
    }
  }

  /** What lookups mean for the inserted transactions, one trytes value for each hash: the true
      answers are exactly those a scan finds. */
  lemma AnswersAreScans(items: seq<Item>, q: Query, h: Hash)
    requires Functional(items)
    ensures h in Answers(InsertAll(items), q) <==>
            match q
            case ByColumn(c, v) => exists x :: x in items && x.hash == h && Cell(x.trytes, c) == v
            case ByApprovee(a) => exists x :: x in items && x.hash == h && Approves(x, a)
  {
    match q
    case ByColumn(c, v) =>
      TableAgreesWithScan(items, h);
      LatestIsTheOne(items, h);
      if x :| x in items && x.hash == h && Cell(x.trytes, c) == v {
        assert Inserted(items, h);
        assert Item(h, Latest(items, h).value) == x;
      }
    case ByApprovee(a) =>
      TableAgreesWithScan(items, a);
  }

  /** The inclusion state is true exactly for inserted or referenced hashes, so it tells an
      inserted transaction from others exactly when no other transaction references it. */
  lemma InclusionIsInsertionExactly(items: seq<Item>, h: Hash)
    ensures (h in InsertAll(items) <==> Inserted(items, h)) <==> (Inserted(items, h) || !Referenced(items, h))
    ensures h in InsertAll(items) && !Inserted(items, h) ==> InsertAll(items)[h].trytes.None?
  {
    TableAgreesWithScan(items, h);
    LatestIsTheOne(items, h);
  }
}
