/** A table as a map from record id to row, and what the primary-key index must say about it. */
module TableSpec {
  import opened Common
  import opened Bytes
  import opened Slots
  import opened Rows

  /** The page store as lists of tuples, for all tables together. */
  type Heap = Pages

  // --- Rows of a table ---

  ghost predicate LiveAt(heap: Heap, ids: seq<nat>, rid: Rid) {
    rid.pageId in ids && rid.pageId in heap && Live(heap[rid.pageId], rid.slotId)
  }

  function RowOf(columns: seq<ColumnDef>, b: seq<byte>): Row {
    var r := DecodeRow(columns, b);
    if r.Ok? then r.value else []
  }

  /** Every live row of the pages `ids`, by where it lives. */
  ghost function RowsOf(columns: seq<ColumnDef>, heap: Heap, ids: seq<nat>): imap<Rid, Row> {
    imap rid: Rid | LiveAt(heap, ids, rid) :: RowOf(columns, heap[rid.pageId][rid.slotId].bytes)
  }

  ghost predicate KeyIs(row: Row, pk: nat, k: int) {
    pk < |row| && row[pk].Int? && row[pk].n == k
  }

  ghost predicate Keyed(columns: seq<ColumnDef>, pk: nat, row: Row) {
    TypedRow(columns, row) && pk < |row| && row[pk].Int?
  }

  /** `contents` is the map from each integer key to the record id of its row. */
  ghost predicate IndexOf(pk: nat, rows: imap<Rid, Row>, contents: map<int, Rid>) {
    && (forall k :: k in contents ==> contents[k] in rows && KeyIs(rows[contents[k]], pk, k))
    && (forall rid :: rid in rows && pk < |rows[rid]| && rows[rid][pk].Int? ==>
          rows[rid][pk].n in contents && contents[rows[rid][pk].n] == rid)
  }

  /** Every row has an integer key, and the index maps exactly those keys to those rows. */
  ghost predicate Agree(columns: seq<ColumnDef>, pk: nat, rows: imap<Rid, Row>, contents: map<int, Rid>) {
    (forall rid :: rid in rows ==> Keyed(columns, pk, rows[rid])) && IndexOf(pk, rows, contents)
  }

  ghost predicate DistinctKeys(pk: nat, rows: imap<Rid, Row>) {
    forall a, b :: a in rows && b in rows && pk < |rows[a]| && rows[a][pk].Int? ==>
      KeyIs(rows[b], pk, rows[a][pk].n) ==> a == b
  }

  /** A table with an index has distinct keys ... */
  lemma {:induction false} IndexDistinct(pk: nat, rows: imap<Rid, Row>, contents: map<int, Rid>)
    requires IndexOf(pk, rows, contents)
    ensures DistinctKeys(pk, rows)
  {
  }

  /** ... and only one index. */
  lemma {:induction false} IndexUnique(pk: nat, rows: imap<Rid, Row>, c: map<int, Rid>, d: map<int, Rid>)
    requires IndexOf(pk, rows, c) && IndexOf(pk, rows, d)
    ensures c == d
  {
    forall k | k in c ensures k in d && d[k] == c[k] {
      assert KeyIs(rows[c[k]], pk, k);
    }
    forall k | k in d ensures k in c {
      assert KeyIs(rows[d[k]], pk, k);
    }
  }

  // --- How single changes move the index ---

  lemma {:induction false} IndexAdd(pk: nat, rows: imap<Rid, Row>, contents: map<int, Rid>, rid: Rid, row: Row)
    requires rid !in rows
    requires pk < |row| && row[pk].Int? ==> row[pk].n !in contents
    requires IndexOf(pk, rows, contents)
    ensures IndexOf(pk, rows[rid := row], if pk < |row| && row[pk].Int? then contents[row[pk].n := rid] else contents)
  {
  }

  lemma {:induction false} AgreeAdd(columns: seq<ColumnDef>, pk: nat, rows: imap<Rid, Row>, contents: map<int, Rid>,
                                    rid: Rid, row: Row)
    requires rid !in rows && Keyed(columns, pk, row) && row[pk].n !in contents
    requires Agree(columns, pk, rows, contents)
    ensures Agree(columns, pk, rows[rid := row], contents[row[pk].n := rid])
  {
    hide IndexOf, TypedRow;
    IndexAdd(pk, rows, contents, rid, row);
  }

  lemma {:induction false} AgreeRemove(columns: seq<ColumnDef>, pk: nat, rows: imap<Rid, Row>, contents: map<int, Rid>,
                                       rid: Rid)
    requires rid in rows
    requires Agree(columns, pk, rows, contents)
    ensures Keyed(columns, pk, rows[rid])
    ensures rows[rid][pk].n in contents && contents[rows[rid][pk].n] == rid
    ensures Agree(columns, pk, rows - {rid}, contents - {rows[rid][pk].n})
  {
    hide TypedRow;
  }

  lemma {:induction false} AgreeReplace(columns: seq<ColumnDef>, pk: nat, rows: imap<Rid, Row>, contents: map<int, Rid>,
                                        rid: Rid, row: Row)
    requires rid in rows && Keyed(columns, pk, row)
    requires Agree(columns, pk, rows, contents)
    requires row[pk] == rows[rid][pk] || row[pk].n !in contents
    ensures Keyed(columns, pk, rows[rid]) && row[pk].n !in contents - {rows[rid][pk].n}
    ensures Agree(columns, pk, rows[rid := row], (contents - {rows[rid][pk].n})[row[pk].n := rid])
  {
    hide TypedRow, IndexOf;
    AgreeRemove(columns, pk, rows, contents, rid);
    var less := rows - {rid};
    assert less[rid := row] == rows[rid := row];
    AgreeAdd(columns, pk, less, contents - {rows[rid][pk].n}, rid, row);
  }

  // --- How the heap operations move the rows ---

  lemma {:induction false} HeapInsert(columns: seq<ColumnDef>, heap: Heap, ids: seq<nat>, p: nat, t: seq<byte>)
    requires p in heap && p in ids
    ensures Rid(p, |heap[p]|) !in RowsOf(columns, heap, ids)
    ensures RowsOf(columns, heap[p := Appended(heap[p], t)], ids) ==
            RowsOf(columns, heap, ids)[Rid(p, |heap[p]|) := RowOf(columns, t)]
  {
    hide RowOf;
  }

  lemma {:induction false} HeapNewPage(columns: seq<ColumnDef>, heap: Heap, ids: seq<nat>, p: nat)
    requires p !in heap && p !in ids
    ensures RowsOf(columns, heap[p := []], ids + [p]) == RowsOf(columns, heap, ids)
  {
    hide RowOf;
  }

  lemma {:induction false} HeapDelete(columns: seq<ColumnDef>, heap: Heap, ids: seq<nat>, rid: Rid)
    requires LiveAt(heap, ids, rid)
    ensures RowsOf(columns, heap[rid.pageId := Deleted(heap[rid.pageId], rid.slotId)], ids) ==
            RowsOf(columns, heap, ids) - {rid}
  {
    hide RowOf;
  }

  /** A rewritten row reads back as written, the old tail after it notwithstanding. */
  lemma {:induction false} HeapUpdate(columns: seq<ColumnDef>, heap: Heap, ids: seq<nat>, rid: Rid, row: Row)
    requires TypedRow(columns, row) && ShortTexts(row)
    requires LiveAt(heap, ids, rid) && CanUpdate(heap[rid.pageId], rid.slotId, EncodeRow(row))
    ensures RowsOf(columns, heap[rid.pageId := Updated(heap[rid.pageId], rid.slotId, EncodeRow(row))], ids) ==
            RowsOf(columns, heap, ids)[rid := row]
  {
    hide DecodeRow, EncodeRow, TypedRow, ShortTexts;
    var t, old' := EncodeRow(row), heap[rid.pageId][rid.slotId].bytes;
    RowRoundTrip(columns, row, old'[|t|..]);
    var s := Updated(heap[rid.pageId], rid.slotId, t);
    assert s[rid.slotId] == Tuple(t + old'[|t|..], true);
    assert RowOf(columns, s[rid.slotId].bytes) == row;
    HeapReplace(columns, heap, ids, rid, t + old'[|t|..]);
  }

  lemma {:induction false} HeapReplace(columns: seq<ColumnDef>, heap: Heap, ids: seq<nat>, rid: Rid, b: seq<byte>)
    requires LiveAt(heap, ids, rid)
    ensures RowsOf(columns, heap[rid.pageId := heap[rid.pageId][rid.slotId := Tuple(b, true)]], ids) ==
            RowsOf(columns, heap, ids)[rid := RowOf(columns, b)]
  {
    hide RowOf;
  }

  /** Tuples are no larger than a page. */
  ghost predicate Bounded(heap: Heap) {
    forall p, i :: p in heap && 0 <= i < |heap[p]| ==> |heap[p][i].bytes| <= PAGE_SIZE
  }

  // --- Filters, assignments and projection ---

  datatype Ordering = Less | Equal | Greater

  datatype Op = Eq | Ne | Lt | Gt | Le | Ge | IsNull | IsNotNull

  datatype Expr = Expr(left: Str, op: Op, right: Value)

  datatype Assignment = Assignment(column: Str, value: Value)

  datatype SelectColumns = Star | Named(names: seq<Str>)

  /** How floats compare is left open, NaN included. */
  type FloatCmp = (Value, Value) -> Option<Ordering>

  function CmpInt(a: int, b: int): Ordering {
    if a < b then Less else if a == b then Equal else Greater
  }

  function CmpText(a: seq<byte>, b: seq<byte>): Ordering {
    if a == [] then if b == [] then Equal else Less
    else if b == [] then Greater
    else if a[0] == b[0] then CmpText(a[1..], b[1..]) else CmpInt(a[0], b[0])
  }

  function PartialCmp(a: Value, b: Value, fcmp: FloatCmp): Option<Ordering> {
    match (a, b)
    case (Int(x), Int(y)) => Some(CmpInt(x, y))
    case (Text(x), Text(y)) => Some(CmpText(x, y))
    case (Float(_), Float(_)) => fcmp(a, b)
    case (Int(_), Float(_)) => fcmp(a, b)
    case (Float(_), Int(_)) => fcmp(a, b)
    case (_, _) => None
  }

  /** `eval_filter`: NULL satisfies no comparison; comparing across types is an error. */
  function EvalFilter(columns: seq<ColumnDef>, row: Row, e: Expr, fcmp: FloatCmp): Result<bool> {
    var idx := ColIndex(columns, e.left);
    if idx.None? then Err("column not found")
    else if idx.value >= |row| then Err("index out of bounds")
    else
      var cell := row[idx.value];
      if e.op.IsNull? then Ok(cell.Null?)
      else if e.op.IsNotNull? then Ok(!cell.Null?)
      else if cell.Null? || e.right.Null? then Ok(false)
      else
        var cmp := PartialCmp(cell, e.right, fcmp);
        if cmp.None? then Err("type mismatch in WHERE")
        else Ok(match e.op
             case Eq => cmp.value == Equal
             case Ne => cmp.value != Equal
             case Lt => cmp.value == Less
             case Gt => cmp.value == Greater
             case Le => cmp.value != Greater
             case Ge => cmp.value != Less
             case IsNull => false
             case IsNotNull => false)
  }

  /** Without a WHERE clause every row matches. */
  function Matches(columns: seq<ColumnDef>, filter: Option<Expr>, row: Row, fcmp: FloatCmp): Result<bool> {
    if filter.None? then Ok(true) else EvalFilter(columns, row, filter.value, fcmp)
  }

  function Project(columns: seq<ColumnDef>, row: Row, cols: SelectColumns): Result<Row> {
    if cols.Star? then Ok(row) else Picked(columns, row, cols.names)
  }

  function Picked(columns: seq<ColumnDef>, row: Row, names: seq<Str>): Result<Row> {
    if names == [] then Ok([])
    else
      var idx := ColIndex(columns, names[0]);
      if idx.None? then Err("column not found")
      else if idx.value >= |row| then Err("index out of bounds")
      else
        var rest := Picked(columns, row, names[1..]);
        if rest.Err? then rest else Ok([row[idx.value]] + rest.value)
  }

  /** A named projection exists exactly when every name is a column; it lists those columns' cells in that order. */
  lemma {:induction false} ProjectPicks(columns: seq<ColumnDef>, row: Row, names: seq<Str>)
    requires |row| == |columns|
    ensures Project(columns, row, Named(names)).Ok? <==>
            forall i :: 0 <= i < |names| ==> ColIndex(columns, names[i]).Some?
    ensures Project(columns, row, Named(names)).Ok? ==>
      var r := Project(columns, row, Named(names)).value;
      |r| == |names| && forall i :: 0 <= i < |names| ==> r[i] == row[ColIndex(columns, names[i]).value]
  {
    if names != [] {
      ProjectPicks(columns, row, names[1..]);
      assert forall i :: 1 <= i < |names| ==> names[i] == names[1..][i - 1];
      assert forall i :: 0 <= i < |names[1..]| ==> names[1..][i] == names[i + 1];
    }
  }

  /** What an UPDATE may put in a column; floats are not among it. */
  predicate Assignable(v: Value, ty: DataType) {
    v.Null? || (v.Int? && ty == IntType) || (v.Text? && ty == TextType)
  }

  function Assigned(columns: seq<ColumnDef>, row: Row, asg: seq<Assignment>): (r: Result<Row>)
    requires |row| == |columns|
    ensures r.Ok? ==> |r.value| == |row|
    decreases |asg|
  {
    if asg == [] then Ok(row)
    else
      var idx := ColIndex(columns, asg[0].column);
      if idx.None? then Err("column not found")
      else if !Assignable(asg[0].value, columns[idx.value].ty) then Err("type mismatch")
      else Assigned(columns, row[idx.value := asg[0].value], asg[1..])
  }

  /** The assignments to the key: none is NULL, and each integer is the old key or a free one. */
  ghost predicate KeyFree(pkName: Str, oldKey: int, asg: seq<Assignment>, contents: map<int, Rid>) {
    forall i :: 0 <= i < |asg| && asg[i].column == pkName ==> FreeValue(asg[i].value, oldKey, contents)
  }

  ghost predicate FreeValue(v: Value, oldKey: int, contents: map<int, Rid>) {
    !v.Null? && (v.Int? ==> v.n == oldKey || v.n !in contents)
  }

  /** Assignments keep the row typed, and checked ones keep its key an integer that is old or free. */
  lemma {:induction false} AssignedKeyed(columns: seq<ColumnDef>, pk: nat, row: Row, asg: seq<Assignment>, oldKey: int,
                                         contents: map<int, Rid>)
    requires pk < |columns| && columns[pk].ty == IntType
    requires TypedRow(columns, row) && row[pk].Int? && FreeValue(row[pk], oldKey, contents)
    requires KeyFree(columns[pk].name, oldKey, asg, contents)
    requires Assigned(columns, row, asg).Ok?
    ensures var r := Assigned(columns, row, asg).value;
      Keyed(columns, pk, r) && FreeValue(r[pk], oldKey, contents)
    decreases |asg|
  {
    if asg != [] {
      var i := ColIndex(columns, asg[0].column).value;
      AssignedKeyed(columns, pk, row[i := asg[0].value], asg[1..], oldKey, contents);
    }
  }

  // --- Statements over whole tables ---

  /** What a DELETE leaves once it has visited `done`. */
  ghost function Surviving(columns: seq<ColumnDef>, rows: imap<Rid, Row>, filter: Option<Expr>, fcmp: FloatCmp,
                           done: iset<Rid>): imap<Rid, Row> {
    imap rid | rid in rows && !(rid in done && Matches(columns, filter, rows[rid], fcmp) == Ok(true)) :: rows[rid]
  }

  /** A row after an UPDATE. */
  ghost function Revised(columns: seq<ColumnDef>, row: Row, filter: Option<Expr>, asg: seq<Assignment>,
                         fcmp: FloatCmp): Row {
    if Matches(columns, filter, row, fcmp) == Ok(true) && |row| == |columns| && Assigned(columns, row, asg).Ok? then
      Assigned(columns, row, asg).value
    else row
  }

  /** No assignment makes the key NULL or gives it to a row that has it already. */
  ghost predicate KeyFreeIn(pkName: Str, pk: nat, oldKey: int, asg: seq<Assignment>, rows: imap<Rid, Row>) {
    forall i :: 0 <= i < |asg| && asg[i].column == pkName ==>
      !asg[i].value.Null? && (asg[i].value.Int? ==> asg[i].value.n == oldKey || !KeyTaken(pk, rows, asg[i].value.n))
  }

  ghost predicate KeyTaken(pk: nat, rows: imap<Rid, Row>, k: int) {
    exists rid :: rid in rows && KeyIs(rows[rid], pk, k)
  }

  /** What the index says about keys is what the rows say. */
  lemma {:induction false} KeyFreeAgrees(columns: seq<ColumnDef>, pk: nat, pkName: Str, oldKey: int,
                                         asg: seq<Assignment>,
                                         rows: imap<Rid, Row>, contents: map<int, Rid>)
    requires Agree(columns, pk, rows, contents)
    ensures KeyFree(pkName, oldKey, asg, contents) <==> KeyFreeIn(pkName, pk, oldKey, asg, rows)
  {
    hide TypedRow;
    forall k ensures k in contents <==> KeyTaken(pk, rows, k) {
      if k in contents {
        assert KeyIs(rows[contents[k]], pk, k);
      }
    }
  }

  /** The row can be visited by an UPDATE: the filter evaluates and, where it holds, the key stays free among `rows`,
      the assignments apply and the new bytes fit into `len`. */
  ghost predicate Revisable(columns: seq<ColumnDef>, pk: nat, rows: imap<Rid, Row>, row: Row, filter: Option<Expr>,
                            asg: seq<Assignment>, fcmp: FloatCmp, len: nat) {
    var m := Matches(columns, filter, row, fcmp);
    m.Ok? && (m.value ==>
      && |row| == |columns| && pk < |row| && row[pk].Int?
      && KeyFreeIn(columns[pk].name, pk, row[pk].n, asg, rows)
      && Assigned(columns, row, asg).Ok? && |EncodeRow(Assigned(columns, row, asg).value)| <= len)
  }

  /** The table after an UPDATE that has visited `done`. */
  ghost function RevisedRows(columns: seq<ColumnDef>, rows: imap<Rid, Row>, filter: Option<Expr>, asg: seq<Assignment>,
                             fcmp: FloatCmp, done: iset<Rid>): imap<Rid, Row> {
    imap rid | rid in rows :: if rid in done then Revised(columns, rows[rid], filter, asg, fcmp) else rows[rid]
  }

  ghost predicate AllEvaluate(columns: seq<ColumnDef>, rows: imap<Rid, Row>, filter: Option<Expr>, fcmp: FloatCmp,
                              done: iset<Rid>) {
    forall rid :: rid in rows && rid in done ==> Matches(columns, filter, rows[rid], fcmp).Ok?
  }

  // --- Visiting order ---

  ghost predicate PageBefore(ids: seq<nat>, p: nat, q: nat) {
    exists i, j :: 0 <= i < j < |ids| && ids[i] == p && ids[j] == q
  }

  /** The record ids a statement visits before `rid`: those on earlier pages, and earlier slots of its page. */
  ghost function Before(ids: seq<nat>, rid: Rid): iset<Rid> {
    iset a: Rid | PageBefore(ids, a.pageId, rid.pageId) || (a.pageId == rid.pageId && a.slotId < rid.slotId)
  }

  lemma {:induction false} PageBeforeIs(ids: seq<nat>, i: nat, p: nat)
    requires Distinct(ids) && i < |ids|
    ensures PageBefore(ids, p, ids[i]) <==> p in ids[..i]
  {
    if p in ids[..i] {
      var k :| 0 <= k < i && ids[..i][k] == p;
      assert ids[k] == p;
    }
    if PageBefore(ids, p, ids[i]) {
      var a, b :| 0 <= a < b < |ids| && ids[a] == p && ids[b] == ids[i];
      assert b == i && ids[..i][a] == p;
    }
  }

  lemma {:induction false} BeforeNext(ids: seq<nat>, p: nat, slot: nat)
    requires Distinct(ids)
    ensures Rid(p, slot) !in Before(ids, Rid(p, slot))
    ensures Before(ids, Rid(p, slot + 1)) == Before(ids, Rid(p, slot)) + iset{Rid(p, slot)}
  {
  }

  /** Everything on the first `i` pages. */
  ghost function OnPagesBefore(ids: seq<nat>, i: nat): iset<Rid>
    requires i <= |ids|
  {
    iset a: Rid | a.pageId in ids[..i]
  }

  lemma {:induction false} StartOfPage(ids: seq<nat>, i: nat)
    requires Distinct(ids) && i < |ids|
    ensures Before(ids, Rid(ids[i], 0)) == OnPagesBefore(ids, i)
  {
    hide PageBefore;
    forall a: Rid ensures a in Before(ids, Rid(ids[i], 0)) <==> a in OnPagesBefore(ids, i) {
      PageBeforeIs(ids, i, a.pageId);
    }
  }

  /** With no rows past slot `n`, a page's last slot ends its page. */
  lemma {:induction false} EndOfPage(columns: seq<ColumnDef>, rows: imap<Rid, Row>, filter: Option<Expr>,
                                     asg: seq<Assignment>,
                                     fcmp: FloatCmp, ids: seq<nat>, i: nat, n: nat)
    requires Distinct(ids) && i < |ids| && forall rid :: rid in rows && rid.pageId == ids[i] ==> rid.slotId < n
    ensures RevisedRows(columns, rows, filter, asg, fcmp, Before(ids, Rid(ids[i], n))) ==
            RevisedRows(columns, rows, filter, asg, fcmp, OnPagesBefore(ids, i + 1))
  {
    hide PageBefore, Revised;
    assert ids[..i + 1] == ids[..i] + [ids[i]];
    forall a: Rid | a in rows ensures a in Before(ids, Rid(ids[i], n)) <==> a in OnPagesBefore(ids, i + 1) {
      PageBeforeIs(ids, i, a.pageId);
    }
  }

  /** The row can be visited when its turn comes, all rows before it in visiting order having been revised. */
  ghost predicate RevisableAt(columns: seq<ColumnDef>, pk: nat, rows: imap<Rid, Row>, ids: seq<nat>, heap: Heap,
                              filter: Option<Expr>, asg: seq<Assignment>, fcmp: FloatCmp, rid: Rid)
    requires rid in rows
  {
    var s := SlotsOf(heap, rid.pageId);
    rid.slotId < |s| &&
    Revisable(columns, pk, RevisedRows(columns, rows, filter, asg, fcmp, Before(ids, rid)), rows[rid], filter, asg,
              fcmp,
              |s[rid.slotId].bytes|)
  }

  lemma {:induction false} SurvivingStep(columns: seq<ColumnDef>, rows: imap<Rid, Row>, filter: Option<Expr>,
                                         fcmp: FloatCmp,
                                         done: iset<Rid>, rid: Rid)
    requires rid !in done
    ensures var now := Surviving(columns, rows, filter, fcmp, done);
      && (rid in now <==> rid in rows) && (rid in rows ==> now[rid] == rows[rid])
      && Surviving(columns, rows, filter, fcmp, done + iset{rid}) ==
         if rid in rows && Matches(columns, filter, rows[rid], fcmp) == Ok(true) then now - {rid} else now
  {
    hide Matches;
  }

  lemma {:induction false} RevisedStep(columns: seq<ColumnDef>, rows: imap<Rid, Row>, filter: Option<Expr>,
                                       asg: seq<Assignment>,
                                       fcmp: FloatCmp, done: iset<Rid>, rid: Rid)
    requires rid !in done
    ensures var now := RevisedRows(columns, rows, filter, asg, fcmp, done);
      && (rid in now <==> rid in rows) && (rid in rows ==> now[rid] == rows[rid])
      && RevisedRows(columns, rows, filter, asg, fcmp, done + iset{rid}) ==
         if rid in rows then now[rid := Revised(columns, rows[rid], filter, asg, fcmp)] else now
  {
    hide Matches, Revised;
  }

  /** A live row reads back, has an integer key, and the index knows it. */
  lemma {:induction false} LiveRow(columns: seq<ColumnDef>, pk: nat, heap: Heap, ids: seq<nat>, contents: map<int, Rid>,
                                   rid: Rid)
    requires LiveAt(heap, ids, rid)
    requires Agree(columns, pk, RowsOf(columns, heap, ids), contents)
    ensures rid in RowsOf(columns, heap, ids)
    ensures var row := RowsOf(columns, heap, ids)[rid];
      DecodeRow(columns, heap[rid.pageId][rid.slotId].bytes) == Ok(row) && Keyed(columns, pk, row)
  {
    hide DecodeRow, TypedRow;
  }

  lemma {:induction false} BoundedAfter(heap: Heap, p: nat, s: Slots)
    requires forall i :: 0 <= i < |s| ==> |s[i].bytes| <= PAGE_SIZE
    requires Bounded(heap)
    ensures Bounded(heap[p := s])
  {
  }

  lemma {:induction false} FitsBound(s: Slots, len: nat)
    requires Fits(s, len)
    ensures len <= PAGE_SIZE && Fits([], len)
  {
  }
}
