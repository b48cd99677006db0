/** Query answers: the same for every order in which the matching rows are met, so the same by index and by scan. */
module TableScan {
  import opened Common
  import opened Rows
  import opened TableSpec
  import opened SqlMeaning
  import opened Node
  import opened BTreeShape
  import opened BTree

  /** A query on one table: the columns, the filter, what to return. */
  datatype Query = Query(columns: seq<ColumnDef>, filter: Option<Expr>, cols: SelectColumns, fcmp: FloatCmp)

  /** What one row contributes. */
  ghost function Outcome(q: Query, row: Row): Result<seq<Row>> {
    var m := Matches(q.columns, q.filter, row, q.fcmp);
    if m.Err? then Err(m.error)
    else if !m.value then Ok([])
    else
      var p := Project(q.columns, row, q.cols);
      if p.Err? then Err(p.error) else Ok([p.value])
  }

  /** The rows met at `rids` in turn, stopping at the first error. */
  ghost function Collected(q: Query, rows: imap<Rid, Row>, rids: seq<Rid>): Result<seq<Row>> {
    if rids == [] then Ok([]) else Joined(Collected(q, rows, rids[..|rids| - 1]), OutcomeAt(q, rows, rids[|rids| - 1]))
  }

  ghost function OutcomeAt(q: Query, rows: imap<Rid, Row>, rid: Rid): Result<seq<Row>> {
    if rid in rows then Outcome(q, rows[rid]) else Ok([])
  }

  ghost function Joined(a: Result<seq<Row>>, b: Result<seq<Row>>): Result<seq<Row>> {
    if a.Err? then a else if b.Err? then b else Ok(a.value + b.value)
  }

  lemma {:induction false} CollectedConcat(q: Query, rows: imap<Rid, Row>, a: seq<Rid>, b: seq<Rid>)
    ensures Collected(q, rows, a + b) == Joined(Collected(q, rows, a), Collected(q, rows, b))
  {
    hide OutcomeAt;
    if b == [] {
      assert a + b == a;
      assert Collected(q, rows, a).Ok? ==> Collected(q, rows, a).value + [] == Collected(q, rows, a).value;
    } else {
      var b', x := b[..|b| - 1], b[|b| - 1];
      assert (a + b)[..|a + b| - 1] == a + b';
      CollectedConcat(q, rows, a, b');
      JoinedAssoc(Collected(q, rows, a), Collected(q, rows, b'), OutcomeAt(q, rows, x));
    }
  }

  lemma {:induction false} JoinedAssoc(a: Result<seq<Row>>, b: Result<seq<Row>>, c: Result<seq<Row>>)
    ensures Joined(Joined(a, b), c) == Joined(a, Joined(b, c))
  {
    if a.Ok? && b.Ok? && c.Ok? {
      assert a.value + b.value + c.value == a.value + (b.value + c.value);
    }
  }

  /** Both fail, or both succeed with the same rows as often. */
  ghost predicate SameAnswer(a: Result<seq<Row>>, b: Result<seq<Row>>) {
    (a.Ok? <==> b.Ok?) && (a.Ok? ==> multiset(a.value) == multiset(b.value))
  }

  lemma {:induction false} TakeOut<T>(a: seq<T>, b: seq<T>) returns (i: nat)
    requires a != [] && multiset(a) == multiset(b)
    ensures i < |b| && b[i] == a[|a| - 1] && multiset(a[..|a| - 1]) == multiset(b[..i] + b[i + 1..])
  {
    var n := |a| - 1;
    assert a[n] in multiset(b);
    i :| 0 <= i < |b| && b[i] == a[n];
    assert a[..n] + a[n + 1..] == a[..n];
    OneLess(a, n);
    OneLess(b, i);
  }

  lemma {:induction false} OneLess<T>(s: seq<T>, i: nat)
    requires i < |s|
    ensures multiset(s[..i] + s[i + 1..]) == multiset(s) - multiset{s[i]}
  {
    var l, r := s[..i], s[i + 1..];
    assert s == l + [s[i]] + r;
    assert multiset(s) == multiset(l) + multiset{s[i]} + multiset(r);
    assert multiset(l + r) == multiset(l) + multiset(r);
  }

  lemma {:induction false} JoinedAnywhere(a: Result<seq<Row>>, l: Result<seq<Row>>, r: Result<seq<Row>>,
                                          x: Result<seq<Row>>)
    requires SameAnswer(a, Joined(l, r))
    ensures SameAnswer(Joined(a, x), Joined(Joined(l, x), r))
  {
  }

  /** The order in which record ids are met does not matter. */
  lemma {:induction false} CollectedOrder(q: Query, rows: imap<Rid, Row>, a: seq<Rid>, b: seq<Rid>)
    requires multiset(a) == multiset(b)
    ensures SameAnswer(Collected(q, rows, a), Collected(q, rows, b))
    decreases |a|
  {
    hide OutcomeAt, Joined, SameAnswer;
    if a == [] {
      assert |multiset(b)| == 0;
      assert b == [];
      Reflexive(Collected(q, rows, a));
    } else {
      var a', x := a[..|a| - 1], a[|a| - 1];
      var i := TakeOut(a, b);
      var l, r := b[..i], b[i + 1..];
      assert b == l + [x] + r && (l + [x])[..|l|] == l;
      CollectedOrder(q, rows, a', l + r);
      CollectedConcat(q, rows, l, r);
      CollectedConcat(q, rows, l + [x], r);
      JoinedAnywhere(Collected(q, rows, a'), Collected(q, rows, l), Collected(q, rows, r), OutcomeAt(q, rows, x));
    }
  }

  lemma {:induction false} Reflexive(a: Result<seq<Row>>)
    ensures SameAnswer(a, a)
  {
  }

  // --- Leaving out what does not match ---

  /** The record ids whose rows contribute something. */
  ghost function Kept(q: Query, rows: imap<Rid, Row>, rids: seq<Rid>): (r: seq<Rid>)
    ensures forall x :: x in r <==> x in rids && OutcomeAt(q, rows, x) != Ok([])
  {
    if rids == [] then []
    else
      var x := rids[|rids| - 1];
      Kept(q, rows, rids[..|rids| - 1]) + if OutcomeAt(q, rows, x) != Ok([]) then [x] else []
  }

  lemma {:induction false} KeptCollected(q: Query, rows: imap<Rid, Row>, rids: seq<Rid>)
    ensures Collected(q, rows, Kept(q, rows, rids)) == Collected(q, rows, rids)
  {
    hide OutcomeAt, Joined;
    if rids != [] {
      var init, x := rids[..|rids| - 1], rids[|rids| - 1];
      KeptCollected(q, rows, init);
      var k := Kept(q, rows, init);
      if OutcomeAt(q, rows, x) == Ok([]) {
        assert Kept(q, rows, rids) == k;
        JoinedNothing(Collected(q, rows, init));
      } else {
        assert Kept(q, rows, rids) == k + [x] && (k + [x])[..|k|] == k;
      }
    }
  }

  lemma {:induction false} JoinedNothing(a: Result<seq<Row>>)
    ensures Joined(a, Ok([])) == a
  {
    assert a.Ok? ==> a.value + [] == a.value;
  }

  lemma {:induction false} KeptNoDup(q: Query, rows: imap<Rid, Row>, rids: seq<Rid>)
    requires Distinct(rids)
    ensures Distinct(Kept(q, rows, rids))
  {
    hide OutcomeAt;
    if rids != [] {
      var init, x := rids[..|rids| - 1], rids[|rids| - 1];
      KeptNoDup(q, rows, init);
      var k := Kept(q, rows, init);
      forall i | 0 <= i < |k| ensures k[i] != x {
        assert k[i] in k;
      }
      assert Kept(q, rows, rids) == k || Kept(q, rows, rids) == k + [x];
    }
  }

  lemma {:induction false} NoDupCount<T(!new)>(s: seq<T>, x: T)
    requires Distinct(s)
    ensures multiset(s)[x] == if x in s then 1 else 0
  {
    if s != [] {
      var init, y := s[..|s| - 1], s[|s| - 1];
      NoDupCount(init, x);
      assert s == init + [y];
      assert multiset(s) == multiset(init) + multiset{y};
    }
  }

  lemma {:induction false} SameElements<T(!new)>(a: seq<T>, b: seq<T>)
    requires Distinct(a) && Distinct(b) && forall x :: x in a <==> x in b
    ensures multiset(a) == multiset(b)
  {
    hide Distinct;
    forall x: T ensures multiset(a)[x] == multiset(b)[x] {
      NoDupCount(a, x);
      NoDupCount(b, x);
    }
    assert multiset(a) == multiset(b);
  }

  /** Two duplicate-free lists that hold the same contributing rows give the same answer. */
  lemma {:induction false} SameContributors(q: Query, rows: imap<Rid, Row>, a: seq<Rid>, b: seq<Rid>)
    requires Distinct(a) && Distinct(b)
    requires forall x :: OutcomeAt(q, rows, x) != Ok([]) ==> (x in a <==> x in b)
    ensures SameAnswer(Collected(q, rows, a), Collected(q, rows, b))
  {
    hide OutcomeAt, Collected, Distinct, SameAnswer;
    KeptCollected(q, rows, a);
    KeptCollected(q, rows, b);
    KeptNoDup(q, rows, a);
    KeptNoDup(q, rows, b);
    SameElements(Kept(q, rows, a), Kept(q, rows, b));
    CollectedOrder(q, rows, Kept(q, rows, a), Kept(q, rows, b));
  }

  // --- The sequential scan ---

  ghost function PageRids(p: nat, n: nat): (r: seq<Rid>)
    ensures |r| == n && forall i :: 0 <= i < n ==> r[i] == Rid(p, i)
  {
    seq(n, i requires 0 <= i < n => Rid(p, i))
  }

  /** Every slot of every page, in the order the scan meets them. */
  ghost function ScanRids(heap: Heap, ids: seq<nat>): seq<Rid> {
    if ids == [] then []
    else
      var p := ids[|ids| - 1];
      ScanRids(heap, ids[..|ids| - 1]) + PageRids(p, if p in heap then |heap[p]| else 0)
  }

  lemma {:induction false} ScanMeets(heap: Heap, ids: seq<nat>, rid: Rid)
    ensures rid in ScanRids(heap, ids) <==> rid.pageId in ids && rid.pageId in heap && rid.slotId < |heap[rid.pageId]|
  {
    if ids != [] {
      var init, p := ids[..|ids| - 1], ids[|ids| - 1];
      ScanMeets(heap, init, rid);
      var page := PageRids(p, if p in heap then |heap[p]| else 0);
      assert rid in page <==> rid.pageId == p && rid.slotId < |page| by {
        if rid.pageId == p && rid.slotId < |page| { assert page[rid.slotId] == rid; }
      }
    }
  }

  lemma {:induction false} ScanNoDup(heap: Heap, ids: seq<nat>)
    requires Distinct(ids)
    ensures Distinct(ScanRids(heap, ids))
  {
    if ids != [] {
      var init, p := ids[..|ids| - 1], ids[|ids| - 1];
      ScanNoDup(heap, init);
      var before := ScanRids(heap, init);
      forall i | 0 <= i < |before| ensures before[i].pageId != p {
        ScanMeets(heap, init, before[i]);
        assert before[i] in before;
      }
    }
  }

  /** The answer of the sequential scan, the definition a query is held to. */
  ghost function Answer(q: Query, heap: Heap, ids: seq<nat>): Result<seq<Row>> {
    Collected(q, RowsOf(q.columns, heap, ids), ScanRids(heap, ids))
  }

  // --- The index scan ---

  function Wrap(n: int): i64
    requires -0x8000_0000_0000_0001 <= n <= 0x8000_0000_0000_0000
  {
    if n > 0x7FFF_FFFF_FFFF_FFFF then n - 0x1_0000_0000_0000_0000
    else if n < -0x8000_0000_0000_0000 then n + 0x1_0000_0000_0000_0000
    else n
  }

  predicate Indexable(op: Op) {
    op.Eq? || op.Gt? || op.Ge? || op.Lt? || op.Le?
  }

  /** The first key asked of the index; `rhs + 1` wraps round at the largest integer. */
  function Low(op: Op, rhs: i64): i64
    requires Indexable(op)
  {
    if op.Eq? || op.Ge? then rhs else if op.Gt? then Wrap(rhs + 1) else -0x8000_0000_0000_0000
  }

  function High(op: Op, rhs: i64): i64
    requires Indexable(op)
  {
    if op.Eq? || op.Le? then rhs else if op.Lt? then Wrap(rhs - 1) else 0x7FFF_FFFF_FFFF_FFFF
  }

  /** The bound asked for has wrapped round. */
  predicate Wraps(op: Op, rhs: i64) {
    (op.Gt? && rhs == 0x7FFF_FFFF_FFFF_FFFF) || (op.Lt? && rhs == -0x8000_0000_0000_0000)
  }

  /** The keys in the range asked for are exactly those that satisfy the comparison, except that where the bound wraps
      the range is everything and no key satisfies it. */
  lemma {:induction false} RangeCovers(columns: seq<ColumnDef>, pk: nat, row: Row, e: Expr, fcmp: FloatCmp)
    requires Indexable(e.op) && e.right.Int? && ColIndex(columns, e.left) == Some(pk) && pk < |row| && row[pk].Int?
    ensures EvalFilter(columns, row, e, fcmp) ==
            Ok(Low(e.op, e.right.n) <= row[pk].n <= High(e.op, e.right.n) && !Wraps(e.op, e.right.n))
    ensures Wraps(e.op, e.right.n) ==> Low(e.op, e.right.n) <= row[pk].n <= High(e.op, e.right.n)
  {
  }

  /** The index maps keys one to one, so a range of keys meets each record id once. */
  lemma {:induction false} RangeNoDup(pk: nat, rows: imap<Rid, Row>, contents: map<int, Rid>, lo: int, hi: int,
                                      rids: seq<Rid>)
    requires IndexOf(pk, rows, contents)
    requires RangeOf(contents, lo, hi, rids)
    ensures Distinct(rids)
    ensures forall k :: k in contents && lo <= k <= hi ==> contents[k] in rids
  {
    var ks :| RangeKeys(contents, lo, hi, ks, rids);
    forall i, j | 0 <= i < j < |rids| ensures rids[i] != rids[j] {
      assert ks[i] in contents && ks[j] in contents;
      assert KeyIs(rows[contents[ks[i]]], pk, ks[i]) && KeyIs(rows[contents[ks[j]]], pk, ks[j]);
    }
    forall k | k in contents && lo <= k <= hi ensures contents[k] in rids {
      assert k in ks;
      var i :| 0 <= i < |ks| && ks[i] == k;
      assert rids[i] == contents[k];
    }
  }

  /** What the index scan is asked for: the query compares the key with an integer. */
  ghost predicate IndexScan(q: Query, pk: nat, rows: imap<Rid, Row>, contents: map<int, Rid>, rids: seq<Rid>) {
    && q.filter.Some? && Indexable(q.filter.value.op) && q.filter.value.right.Int?
    && ColIndex(q.columns, q.filter.value.left) == Some(pk) && Agree(q.columns, pk, rows, contents)
    && RangeOf(contents, Low(q.filter.value.op, q.filter.value.right.n),
               High(q.filter.value.op, q.filter.value.right.n), rids)
  }

  /** It meets every row that contributes. */
  lemma {:induction false} IndexMeetsAll(q: Query, pk: nat, rows: imap<Rid, Row>, contents: map<int, Rid>,
                                         rids: seq<Rid>)
    requires IndexScan(q, pk, rows, contents, rids)
    ensures Distinct(rids) && forall x :: OutcomeAt(q, rows, x) != Ok([]) ==> x in rids
  {
    hide RangeOf, Distinct, EvalFilter, Low, High, Project;
    var e := q.filter.value;
    RangeNoDup(pk, rows, contents, Low(e.op, e.right.n), High(e.op, e.right.n), rids);
    forall x | OutcomeAt(q, rows, x) != Ok([]) ensures x in rids {
      RangeCovers(q.columns, pk, rows[x], e, q.fcmp);
      assert contents[rows[x][pk].n] == x;
    }
  }

  /** For every comparison on the key, every right-hand side and every projection, the index scan gives the answer of
      the sequential scan: the same failure, or the same rows as often. */
  lemma {:induction false} IndexScanAgrees(q: Query, pk: nat, heap: Heap, ids: seq<nat>, contents: map<int, Rid>,
                                           rids: seq<Rid>)
    requires Distinct(ids) && IndexScan(q, pk, RowsOf(q.columns, heap, ids), contents, rids)
    ensures SameAnswer(Collected(q, RowsOf(q.columns, heap, ids), rids), Answer(q, heap, ids))
  {
    hide IndexScan, Collected, Distinct, SameAnswer, RowsOf, Outcome, ScanRids;
    var rows := RowsOf(q.columns, heap, ids);
    IndexMeetsAll(q, pk, rows, contents, rids);
    ScanNoDup(heap, ids);
    forall x | OutcomeAt(q, rows, x) != Ok([]) ensures x in ScanRids(heap, ids) {
      RowLives(q.columns, heap, ids, x);
      ScanMeets(heap, ids, x);
    }
    SameContributors(q, rows, rids, ScanRids(heap, ids));
  }

  /** A point lookup is the range of one key. */
  lemma {:induction false} PointRange(contents: map<int, Rid>, k: int)
    ensures RangeOf(contents, k, k, if k in contents then [contents[k]] else [])
  {
    var ks := if k in contents then [k] else [];
    assert RangeKeys(contents, k, k, ks, if k in contents then [contents[k]] else []);
  }

  lemma {:induction false} RowLives(columns: seq<ColumnDef>, heap: Heap, ids: seq<nat>, rid: Rid)
    ensures rid in RowsOf(columns, heap, ids) <==> LiveAt(heap, ids, rid)
    ensures LiveAt(heap, ids, rid) ==> rid.pageId in ids && rid.pageId in heap && rid.slotId < |heap[rid.pageId]|
  {
    hide RowOf;
  }

  // --- What an answer is ---

  /** `out` holds what is asked of every chosen row, once each: `out[i]` of the row at `from[i]`. */
  ghost predicate Lists(q: Query, rows: imap<Rid, Row>, from: seq<Rid>, out: seq<Row>) {
    && Distinct(from) && Matched(q, rows, from, out)
    && (forall rid :: rid in from <==> rid in rows && Chosen(q.columns, q.filter, rows[rid], q.fcmp))
  }

  ghost predicate Matched(q: Query, rows: imap<Rid, Row>, from: seq<Rid>, out: seq<Row>) {
    |from| == |out| && forall i :: 0 <= i < |from| ==>
      from[i] in rows && Picks(q.columns, rows[from[i]], q.cols, out[i])
  }

  /** The filter is decided on the row and, if it chooses it, the columns asked for exist. */
  ghost predicate Answers(q: Query, row: Row) {
    Decided(q.columns, q.filter, row, q.fcmp) &&
    (Chosen(q.columns, q.filter, row, q.fcmp) ==> Pickable(q.columns, q.cols))
  }

  ghost predicate Answerable(q: Query, rows: imap<Rid, Row>) {
    forall rid :: rid in rows ==> Answers(q, rows[rid])
  }

  lemma {:induction false} OutcomeMeans(q: Query, row: Row)
    requires |row| == |q.columns|
    ensures Outcome(q, row).Ok? <==> Answers(q, row)
    ensures Outcome(q, row) == Ok([]) <==> Answers(q, row) && !Chosen(q.columns, q.filter, row, q.fcmp)
    ensures Outcome(q, row).Ok? && Outcome(q, row) != Ok([]) ==>
      |Outcome(q, row).value| == 1 && Picks(q.columns, row, q.cols, Outcome(q, row).value[0])
  {
    hide Matches, Chosen, Decided, Picks, Pickable, Project;
    MatchesMeans(q.columns, q.filter, row, q.fcmp);
    ProjectMeans(q.columns, row, q.cols);
  }

  lemma {:induction false} CollectedMeans(q: Query, rows: imap<Rid, Row>, rids: seq<Rid>)
    requires Wide(q.columns, rows)
    ensures Collected(q, rows, rids).Ok? <==> forall x :: x in rids && x in rows ==> Answers(q, rows[x])
    ensures Collected(q, rows, rids).Ok? ==> Matched(q, rows, Kept(q, rows, rids), Collected(q, rows, rids).value)
  {
    hide Outcome, Picks, Answers, Matched;
    if rids == [] {
      NoneMatched(q, rows);
    } else {
      var init, x := rids[..|rids| - 1], rids[|rids| - 1];
      assert forall y :: y in rids <==> y in init || y == x;
      CollectedMeans(q, rows, init);
      if x in rows { OutcomeMeans(q, rows[x]); }
      if Collected(q, rows, rids).Ok? {
        MatchedOne(q, rows, Kept(q, rows, init), Collected(q, rows, init).value, x);
        assert Kept(q, rows, init) + [] == Kept(q, rows, init);
      }
    }
  }

  lemma {:induction false} NoneMatched(q: Query, rows: imap<Rid, Row>)
    ensures Matched(q, rows, [], [])
  {
  }

  lemma {:induction false} MatchedOne(q: Query, rows: imap<Rid, Row>, from: seq<Rid>, out: seq<Row>, x: Rid)
    requires Wide(q.columns, rows) && Matched(q, rows, from, out) && OutcomeAt(q, rows, x).Ok?
    ensures if OutcomeAt(q, rows, x) == Ok([]) then out + OutcomeAt(q, rows, x).value == out
            else Matched(q, rows, from + [x], out + OutcomeAt(q, rows, x).value)
  {
    hide Outcome, Picks, Answers;
    if x in rows { OutcomeMeans(q, rows[x]); }
  }

  /** What contributes keeps the order in which it is met. */
  lemma {:induction false} KeptInOrder(q: Query, rows: imap<Rid, Row>, rids: seq<Rid>) returns (at: seq<nat>)
    ensures |at| == |Kept(q, rows, rids)| && (forall i, j :: 0 <= i < j < |at| ==> at[i] < at[j])
    ensures forall i :: 0 <= i < |at| ==> at[i] < |rids| && Kept(q, rows, rids)[i] == rids[at[i]]
  {
    hide OutcomeAt;
    at := [];
    if rids != [] {
      var n := |rids| - 1;
      at := KeptInOrder(q, rows, rids[..n]);
      if OutcomeAt(q, rows, rids[n]) != Ok([]) { at := at + [n]; }
    }
  }

  lemma {:induction false} KeptChosen(q: Query, rows: imap<Rid, Row>, rids: seq<Rid>)
    requires Wide(q.columns, rows) && Answerable(q, rows)
    requires forall x :: OutcomeAt(q, rows, x) != Ok([]) ==> x in rids
    ensures forall x :: x in Kept(q, rows, rids) <==> x in rows && Chosen(q.columns, q.filter, rows[x], q.fcmp)
  {
    hide Outcome, Answers, Chosen, Collected;
    forall x ensures x in Kept(q, rows, rids) <==> x in rows && Chosen(q.columns, q.filter, rows[x], q.fcmp) {
      if x in rows { OutcomeMeans(q, rows[x]); }
    }
  }

  /** A scan that meets every contributing row once fails exactly where some row cannot be answered, and otherwise
      lists the chosen rows in the order in which it meets them. */
  lemma {:induction false} CollectedLists(q: Query, rows: imap<Rid, Row>, rids: seq<Rid>)
    requires Wide(q.columns, rows) && Distinct(rids)
    requires forall x :: OutcomeAt(q, rows, x) != Ok([]) ==> x in rids
    ensures Collected(q, rows, rids).Ok? <==> Answerable(q, rows)
    ensures Collected(q, rows, rids).Ok? ==>
      Lists(q, rows, Kept(q, rows, rids), Collected(q, rows, rids).value)
  {
    hide Outcome, Matched, Kept, Answers, Chosen, Distinct, Collected;
    CollectedMeans(q, rows, rids);
    KeptNoDup(q, rows, rids);
    forall x | x in rows && !Answers(q, rows[x]) ensures x in rids {
      OutcomeMeans(q, rows[x]);
    }
    if Collected(q, rows, rids).Ok? { KeptChosen(q, rows, rids); }
  }

  // --- In which order ---

  /** Page by page, slot by slot. */
  ghost predicate ScanOrder(ids: seq<nat>, from: seq<Rid>) {
    forall i, j :: 0 <= i < j < |from| ==> from[i] in Before(ids, from[j])
  }

  /** By ascending key. */
  ghost predicate KeyOrder(pk: nat, rows: imap<Rid, Row>, from: seq<Rid>) {
    forall i, j :: 0 <= i < j < |from| ==> KeyBelow(pk, rows, from[i], from[j])
  }

  ghost predicate KeyBelow(pk: nat, rows: imap<Rid, Row>, x: Rid, y: Rid) {
    && x in rows && pk < |rows[x]| && rows[x][pk].Int?
    && y in rows && pk < |rows[y]| && rows[y][pk].Int? && rows[x][pk].n < rows[y][pk].n
  }

  lemma {:induction false} ScanOrdered(heap: Heap, ids: seq<nat>)
    requires Distinct(ids)
    ensures ScanOrder(ids, ScanRids(heap, ids))
  {
    if ids != [] {
      var n := |ids| - 1;
      var init, p := ids[..n], ids[n];
      ScanOrdered(heap, init);
      var before, page := ScanRids(heap, init), PageRids(p, if p in heap then |heap[p]| else 0);
      forall i, j | 0 <= i < j < |before + page| ensures (before + page)[i] in Before(ids, (before + page)[j]) {
        if i < |before| {
          assert before[i] in before;
          ScanMeets(heap, init, before[i]);
          if j < |before| {
            BeforeLonger(ids, before[i], before[j]);
          } else {
            PageBeforeIs(ids, n, before[i].pageId);
          }
        }
      }
    }
  }

  lemma {:induction false} BeforeLonger(ids: seq<nat>, a: Rid, b: Rid)
    requires ids != [] && a in Before(ids[..|ids| - 1], b)
    ensures a in Before(ids, b)
  {
    if PageBefore(ids[..|ids| - 1], a.pageId, b.pageId) {
      var i, j :| 0 <= i < j < |ids| - 1 && ids[..|ids| - 1][i] == a.pageId && ids[..|ids| - 1][j] == b.pageId;
      assert ids[i] == a.pageId && ids[j] == b.pageId;
    }
  }

  /** The answer of the sequential scan. */
  lemma {:induction false} ScanLists(q: Query, heap: Heap, ids: seq<nat>)
    requires Distinct(ids) && Wide(q.columns, RowsOf(q.columns, heap, ids))
    ensures Answer(q, heap, ids).Ok? <==> Answerable(q, RowsOf(q.columns, heap, ids))
    ensures Answer(q, heap, ids).Ok? ==> exists from ::
      Lists(q, RowsOf(q.columns, heap, ids), from, Answer(q, heap, ids).value) && ScanOrder(ids, from)
  {
    hide RowsOf, ScanRids, Outcome, Lists, Kept, Before, Distinct, Answerable;
    var rows, rids := RowsOf(q.columns, heap, ids), ScanRids(heap, ids);
    ScanNoDup(heap, ids);
    ScanOrdered(heap, ids);
    forall x | OutcomeAt(q, rows, x) != Ok([]) ensures x in rids {
      RowLives(q.columns, heap, ids, x);
      ScanMeets(heap, ids, x);
    }
    CollectedLists(q, rows, rids);
    var at := KeptInOrder(q, rows, rids);
    assert ScanOrder(ids, Kept(q, rows, rids));
  }

  /** The answer of the index scan. */
  lemma {:induction false} IndexLists(q: Query, pk: nat, rows: imap<Rid, Row>, contents: map<int, Rid>, rids: seq<Rid>)
    requires Wide(q.columns, rows) && IndexScan(q, pk, rows, contents, rids)
    ensures Collected(q, rows, rids).Ok? <==> Answerable(q, rows)
    ensures Collected(q, rows, rids).Ok? ==> exists from ::
      Lists(q, rows, from, Collected(q, rows, rids).value) && KeyOrder(pk, rows, from)
  {
    hide Outcome, Lists, Kept, Distinct, Answerable, KeyBelow, Wide, Collected, IndexScan;
    IndexMeetsAll(q, pk, rows, contents, rids);
    CollectedLists(q, rows, rids);
    KeysAscend(q, pk, rows, contents, rids);
    var at := KeptInOrder(q, rows, rids);
    assert KeyOrder(pk, rows, Kept(q, rows, rids));
  }

  lemma {:induction false} KeysAscend(q: Query, pk: nat, rows: imap<Rid, Row>, contents: map<int, Rid>, rids: seq<Rid>)
    requires IndexScan(q, pk, rows, contents, rids)
    ensures KeyOrder(pk, rows, rids)
  {
    hide Low, High;
    var e := q.filter.value;
    var ks :| RangeKeys(contents, Low(e.op, e.right.n), High(e.op, e.right.n), ks, rids);
    forall i, j | 0 <= i < j < |rids| ensures KeyBelow(pk, rows, rids[i], rids[j]) {
      assert ks[i] in contents && ks[j] in contents;
      assert KeyIs(rows[rids[i]], pk, ks[i]) && KeyIs(rows[rids[j]], pk, ks[j]);
    }
  }
}
