/** What WHERE, SET and the select list mean, said of the cells themselves. */
module SqlMeaning {
  import opened Common
  import opened Bytes
  import opened Rows
  import opened TableSpec

  // --- Comparing ---

  /** `a` comes before `b`: a proper prefix of it, or smaller at the first byte where they differ. */
  ghost predicate TextBefore(a: seq<byte>, b: seq<byte>) {
    exists k: nat :: BeforeAt(a, b, k)
  }

  ghost predicate BeforeAt(a: seq<byte>, b: seq<byte>, k: nat) {
    k <= |a| && k < |b| && a[..k] == b[..k] && (k == |a| || a[k] < b[k])
  }

  lemma {:induction false} TextOrder(a: seq<byte>, b: seq<byte>)
    ensures CmpText(a, b) == Equal <==> a == b
    ensures CmpText(a, b) == Less <==> TextBefore(a, b)
    ensures CmpText(a, b) == Greater <==> TextBefore(b, a)
  {
    if a == [] || b == [] || a[0] != b[0] {
      assert a != [] && b != [] ==> a[..0] == b[..0];
      assert a == [] && b != [] ==> BeforeAt(a, b, 0);
      assert b == [] && a != [] ==> BeforeAt(b, a, 0);
      assert a != [] && b != [] && a[0] < b[0] ==> BeforeAt(a, b, 0);
      assert a != [] && b != [] && b[0] < a[0] ==> BeforeAt(b, a, 0);
      if TextBefore(a, b) { BeforeHead(a, b); }
      if TextBefore(b, a) { BeforeHead(b, a); }
    } else {
      TextOrder(a[1..], b[1..]);
      assert a == [a[0]] + a[1..] && b == [b[0]] + b[1..];
      BeforeShift(a, b);
      BeforeShift(b, a);
    }
  }

  lemma {:induction false} BeforeHead(a: seq<byte>, b: seq<byte>)
    requires TextBefore(a, b)
    ensures b != [] && (a != [] ==> a[0] <= b[0])
  {
    var k: nat :| BeforeAt(a, b, k);
    assert k > 0 ==> a[..k][0] == a[0] && b[..k][0] == b[0];
  }

  lemma {:induction false} BeforeShift(a: seq<byte>, b: seq<byte>)
    requires a != [] && b != [] && a[0] == b[0]
    ensures TextBefore(a, b) <==> TextBefore(a[1..], b[1..])
  {
    if k: nat :| BeforeAt(a, b, k) {
      assert k > 0;
      assert a[1..][..k - 1] == a[..k][1..] && b[1..][..k - 1] == b[..k][1..];
      assert BeforeAt(a[1..], b[1..], k - 1);
    }
    if k: nat :| BeforeAt(a[1..], b[1..], k) {
      assert a[..k + 1] == [a[0]] + a[1..][..k] && b[..k + 1] == [b[0]] + b[1..][..k];
      assert BeforeAt(a, b, k + 1);
    }
  }

  // --- WHERE ---

  /** Two values of which neither is NULL can be compared: integers, texts, or numbers one of which is a float. */
  ghost predicate Comparable(a: Value, b: Value, fcmp: FloatCmp) {
    || (a.Int? && b.Int?)
    || (a.Text? && b.Text?)
    || ((a.Int? || a.Float?) && (b.Int? || b.Float?) && fcmp(a, b).Some?)
  }

  ghost predicate IsBelow(a: Value, b: Value, fcmp: FloatCmp)
    requires Comparable(a, b, fcmp)
  {
    if a.Int? && b.Int? then a.n < b.n
    else if a.Text? && b.Text? then TextBefore(a.text, b.text)
    else fcmp(a, b) == Some(Less)
  }

  ghost predicate IsSame(a: Value, b: Value, fcmp: FloatCmp)
    requires Comparable(a, b, fcmp)
  {
    if a.Int? && b.Int? then a.n == b.n
    else if a.Text? && b.Text? then a.text == b.text
    else fcmp(a, b) == Some(Equal)
  }

  ghost predicate IsAbove(a: Value, b: Value, fcmp: FloatCmp)
    requires Comparable(a, b, fcmp)
  {
    if a.Int? && b.Int? then a.n > b.n
    else if a.Text? && b.Text? then TextBefore(b.text, a.text)
    else fcmp(a, b) == Some(Greater)
  }

  /** The cell a condition speaks of. */
  ghost predicate CellOf(columns: seq<ColumnDef>, row: Row, name: Str, cell: Value) {
    var c := ColIndex(columns, name);
    c.Some? && c.value < |row| && row[c.value] == cell
  }

  /** The condition can be decided on this cell. */
  ghost predicate Decides(cell: Value, e: Expr, fcmp: FloatCmp) {
    e.op.IsNull? || e.op.IsNotNull? || cell.Null? || e.right.Null? || Comparable(cell, e.right, fcmp)
  }

  /** The condition holds of this cell. */
  ghost predicate Holds(cell: Value, e: Expr, fcmp: FloatCmp)
    requires Decides(cell, e, fcmp)
  {
    if e.op.IsNull? then cell.Null?
    else if e.op.IsNotNull? then !cell.Null?
    else
      !cell.Null? && !e.right.Null? && Comparable(cell, e.right, fcmp) &&
      match e.op
      case Eq => IsSame(cell, e.right, fcmp)
      case Ne => !IsSame(cell, e.right, fcmp)
      case Lt => IsBelow(cell, e.right, fcmp)
      case Le => IsBelow(cell, e.right, fcmp) || IsSame(cell, e.right, fcmp)
      case Gt => IsAbove(cell, e.right, fcmp)
      case Ge => IsAbove(cell, e.right, fcmp) || IsSame(cell, e.right, fcmp)
      case _ => false
  }

  /** The WHERE clause, if there is one, can be decided on the row. */
  ghost predicate Decided(columns: seq<ColumnDef>, filter: Option<Expr>, row: Row, fcmp: FloatCmp) {
    filter.None? || exists cell :: CellOf(columns, row, filter.value.left, cell) && Decides(cell, filter.value, fcmp)
  }

  /** The statement is about this row. */
  ghost predicate Chosen(columns: seq<ColumnDef>, filter: Option<Expr>, row: Row, fcmp: FloatCmp) {
    filter.None? ||
    exists cell :: CellOf(columns, row, filter.value.left, cell) && Decides(cell, filter.value, fcmp) &&
                   Holds(cell, filter.value, fcmp)
  }

  /** Rows are chosen exactly where the evaluated filter says so, and errors are exactly the undecided rows. */
  lemma {:induction false} MatchesMeans(columns: seq<ColumnDef>, filter: Option<Expr>, row: Row, fcmp: FloatCmp)
    ensures Matches(columns, filter, row, fcmp).Ok? <==> Decided(columns, filter, row, fcmp)
    ensures Matches(columns, filter, row, fcmp) == Ok(true) <==> Chosen(columns, filter, row, fcmp)
  {
    hide CmpText, TextBefore;
    if filter.Some? {
      var c := ColIndex(columns, filter.value.left);
      if c.Some? && c.value < |row| {
        CellMeans(columns, row, filter.value, row[c.value], fcmp);
      }
    }
  }

  lemma {:induction false} CellMeans(columns: seq<ColumnDef>, row: Row, e: Expr, cell: Value, fcmp: FloatCmp)
    requires CellOf(columns, row, e.left, cell)
    ensures EvalFilter(columns, row, e, fcmp).Ok? <==> Decides(cell, e, fcmp)
    ensures EvalFilter(columns, row, e, fcmp) == Ok(true) <==> Decides(cell, e, fcmp) && Holds(cell, e, fcmp)
  {
    hide CmpText, TextBefore;
    if cell.Text? && e.right.Text? { TextOrder(cell.text, e.right.text); }
  }

  // --- The eight operators, plainly ---

  /** On an integer cell and an integer. */
  lemma {:induction false} WhereInteger(columns: seq<ColumnDef>, row: Row, name: Str, c: nat, n: i64, fcmp: FloatCmp)
    requires ColIndex(columns, name) == Some(c) && c < |row| && row[c].Int?
    ensures Chosen(columns, Some(Expr(name, Eq, Int(n))), row, fcmp) <==> row[c].n == n
    ensures Chosen(columns, Some(Expr(name, Ne, Int(n))), row, fcmp) <==> row[c].n != n
    ensures Chosen(columns, Some(Expr(name, Lt, Int(n))), row, fcmp) <==> row[c].n < n
    ensures Chosen(columns, Some(Expr(name, Gt, Int(n))), row, fcmp) <==> row[c].n > n
    ensures Chosen(columns, Some(Expr(name, Le, Int(n))), row, fcmp) <==> row[c].n <= n
    ensures Chosen(columns, Some(Expr(name, Ge, Int(n))), row, fcmp) <==> row[c].n >= n
    ensures !Chosen(columns, Some(Expr(name, IsNull, Int(n))), row, fcmp)
    ensures Chosen(columns, Some(Expr(name, IsNotNull, Int(n))), row, fcmp)
    ensures forall op :: Decided(columns, Some(Expr(name, op, Int(n))), row, fcmp)
  {
    assert CellOf(columns, row, name, row[c]);
  }

  /** On a text cell and a text. */
  lemma {:induction false} WhereText(columns: seq<ColumnDef>, row: Row, name: Str, c: nat, s: Str, fcmp: FloatCmp)
    requires ColIndex(columns, name) == Some(c) && c < |row| && row[c].Text?
    ensures Chosen(columns, Some(Expr(name, Eq, Text(s))), row, fcmp) <==> row[c].text == s
    ensures Chosen(columns, Some(Expr(name, Ne, Text(s))), row, fcmp) <==> row[c].text != s
    ensures Chosen(columns, Some(Expr(name, Lt, Text(s))), row, fcmp) <==> TextBefore(row[c].text, s)
    ensures Chosen(columns, Some(Expr(name, Gt, Text(s))), row, fcmp) <==> TextBefore(s, row[c].text)
    ensures Chosen(columns, Some(Expr(name, Le, Text(s))), row, fcmp) <==>
            TextBefore(row[c].text, s) || row[c].text == s
    ensures Chosen(columns, Some(Expr(name, Ge, Text(s))), row, fcmp) <==>
            TextBefore(s, row[c].text) || row[c].text == s
    ensures !Chosen(columns, Some(Expr(name, IsNull, Text(s))), row, fcmp)
    ensures Chosen(columns, Some(Expr(name, IsNotNull, Text(s))), row, fcmp)
    ensures forall op :: Decided(columns, Some(Expr(name, op, Text(s))), row, fcmp)
  {
    hide TextBefore, ValidUtf8;
    assert CellOf(columns, row, name, row[c]);
    assert Comparable(row[c], Text(s), fcmp);
  }

  /** NULL satisfies IS NULL and nothing else; nothing compares with NULL; neither is an error. */
  lemma {:induction false} WhereNull(columns: seq<ColumnDef>, row: Row, e: Expr, c: nat, fcmp: FloatCmp)
    requires ColIndex(columns, e.left) == Some(c) && c < |row| && (row[c].Null? || e.right.Null?)
    ensures Decided(columns, Some(e), row, fcmp)
    ensures Chosen(columns, Some(e), row, fcmp) <==> if row[c].Null? then e.op.IsNull? else e.op.IsNotNull?
  {
    assert CellOf(columns, row, e.left, row[c]);
  }

  /** Comparing a text with a number is an error. */
  lemma {:induction false} WhereMixed(columns: seq<ColumnDef>, row: Row, e: Expr, c: nat, fcmp: FloatCmp)
    requires ColIndex(columns, e.left) == Some(c) && c < |row| && !row[c].Null? && !e.right.Null?
    requires (row[c].Text? <==> !e.right.Text?) && !e.op.IsNull? && !e.op.IsNotNull?
    ensures !Decided(columns, Some(e), row, fcmp)
  {
  }

  /** A condition on a column that does not exist is an error. */
  lemma {:induction false} WhereUnknown(columns: seq<ColumnDef>, row: Row, e: Expr, fcmp: FloatCmp)
    requires forall i :: 0 <= i < |columns| ==> columns[i].name != e.left
    ensures !Decided(columns, Some(e), row, fcmp)
  {
  }

  // --- SET ---

  /** Assignment `k` is the last one to column `c`. */
  ghost predicate LastTo(columns: seq<ColumnDef>, asg: seq<Assignment>, c: nat, k: nat) {
    k < |asg| && ColIndex(columns, asg[k].column) == Some(c) &&
    forall j :: k < j < |asg| ==> ColIndex(columns, asg[j].column) != Some(c)
  }

  /** No assignment is to column `c`. */
  ghost predicate Untouched(columns: seq<ColumnDef>, asg: seq<Assignment>, c: nat) {
    forall k :: 0 <= k < |asg| ==> ColIndex(columns, asg[k].column) != Some(c)
  }

  /** Each cell is the value last assigned to its column, or the old cell where none is. */
  ghost predicate CellsSet(columns: seq<ColumnDef>, row: Row, asg: seq<Assignment>, now: Row) {
    && |now| == |row|
    && (forall c: nat, k: nat :: c < |row| && k < |asg| && LastTo(columns, asg, c, k) ==> now[c] == asg[k].value)
    && (forall c: nat :: c < |row| && Untouched(columns, asg, c) ==> now[c] == row[c])
  }

  /** Every named column exists and takes its value: NULL anywhere, integers and texts in columns of their type. */
  ghost predicate Settable(columns: seq<ColumnDef>, asg: seq<Assignment>) {
    forall k :: 0 <= k < |asg| ==> SettableAt(columns, asg[k])
  }

  ghost predicate SettableAt(columns: seq<ColumnDef>, a: Assignment) {
    var c := ColIndex(columns, a.column);
    c.Some? && (a.value.Null? || (a.value.Int? && columns[c.value].ty.IntType?) ||
                (a.value.Text? && columns[c.value].ty.TextType?))
  }

  lemma {:induction false} AssignedMeans(columns: seq<ColumnDef>, row: Row, asg: seq<Assignment>)
    requires |row| == |columns|
    ensures Assigned(columns, row, asg).Ok? <==> Settable(columns, asg)
    ensures Assigned(columns, row, asg).Ok? ==> CellsSet(columns, row, asg, Assigned(columns, row, asg).value)
    decreases |asg|
  {
    if asg != [] {
      var rest := asg[1..];
      assert forall k :: 0 <= k < |rest| ==> rest[k] == asg[k + 1];
      assert forall k :: 1 <= k < |asg| ==> asg[k] == rest[k - 1];
      var c := ColIndex(columns, asg[0].column);
      if c.Some? && Assignable(asg[0].value, columns[c.value].ty) {
        AssignedMeans(columns, row[c.value := asg[0].value], rest);
        SettableFirst(columns, asg);
        if Assigned(columns, row, asg).Ok? {
          SetFirst(columns, row, asg, c.value, Assigned(columns, row, asg).value);
        }
      } else {
        assert !SettableAt(columns, asg[0]);
      }
    }
  }

  lemma {:induction false} SettableFirst(columns: seq<ColumnDef>, asg: seq<Assignment>)
    requires asg != [] && SettableAt(columns, asg[0])
    ensures Settable(columns, asg) <==> Settable(columns, asg[1..])
  {
    assert forall k :: 1 <= k < |asg| ==> asg[k] == asg[1..][k - 1];
    assert forall k :: 0 <= k < |asg[1..]| ==> asg[1..][k] == asg[k + 1];
  }

  /** After the first assignment, the rest decide; where they do not, the first one does. */
  lemma {:induction false} SetFirst(columns: seq<ColumnDef>, row: Row, asg: seq<Assignment>, c0: nat, now: Row)
    requires asg != [] && c0 < |row| && ColIndex(columns, asg[0].column) == Some(c0)
    requires CellsSet(columns, row[c0 := asg[0].value], asg[1..], now)
    ensures CellsSet(columns, row, asg, now)
  {
    hide LastTo, Untouched, ColIndex;
    var rest := asg[1..];
    forall c: nat, k: nat | c < |row| && k < |asg| && LastTo(columns, asg, c, k) ensures now[c] == asg[k].value {
      LastFirst(columns, asg, c, k);
    }
    forall c: nat | c < |row| && Untouched(columns, asg, c) ensures now[c] == row[c] {
      UntouchedFirst(columns, asg, c);
    }
  }

  lemma {:induction false} LastFirst(columns: seq<ColumnDef>, asg: seq<Assignment>, c: nat, k: nat)
    requires asg != [] && LastTo(columns, asg, c, k)
    ensures k < |asg| && if k > 0 then LastTo(columns, asg[1..], c, k - 1) && asg[1..][k - 1] == asg[k]
                    else ColIndex(columns, asg[0].column) == Some(c) && Untouched(columns, asg[1..], c)
  {
    hide ColIndex;
    assert forall j :: 0 <= j < |asg[1..]| ==> asg[1..][j] == asg[j + 1];
  }

  lemma {:induction false} UntouchedFirst(columns: seq<ColumnDef>, asg: seq<Assignment>, c: nat)
    requires asg != [] && Untouched(columns, asg, c)
    ensures ColIndex(columns, asg[0].column) != Some(c) && Untouched(columns, asg[1..], c)
  {
    hide ColIndex;
    assert forall j :: 0 <= j < |asg[1..]| ==> asg[1..][j] == asg[j + 1];
  }

  // --- The select list ---

  /** `*` asks for the row itself, a list of names for those columns' cells, in the order asked. */
  ghost predicate Picks(columns: seq<ColumnDef>, row: Row, cols: SelectColumns, out: Row) {
    if cols.Star? then out == row
    else
      && |out| == |cols.names|
      && forall i :: 0 <= i < |out| ==> CellOf(columns, row, cols.names[i], out[i])
  }

  ghost predicate Pickable(columns: seq<ColumnDef>, cols: SelectColumns) {
    cols.Star? || forall i :: 0 <= i < |cols.names| ==> HasColumn(columns, cols.names[i])
  }

  ghost predicate HasColumn(columns: seq<ColumnDef>, name: Str) {
    exists c :: 0 <= c < |columns| && columns[c].name == name
  }

  lemma {:induction false} ProjectMeans(columns: seq<ColumnDef>, row: Row, cols: SelectColumns)
    requires |row| == |columns|
    ensures Project(columns, row, cols).Ok? <==> Pickable(columns, cols)
    ensures Project(columns, row, cols).Ok? ==> Picks(columns, row, cols, Project(columns, row, cols).value)
  {
    if cols.Named? { ProjectPicks(columns, row, cols.names); }
  }

  // --- Whole tables ---

  /** The rows of a table are as wide as it is. */
  ghost predicate Wide(columns: seq<ColumnDef>, rows: imap<Rid, Row>) {
    forall rid :: rid in rows ==> |rows[rid]| == |columns|
  }

  /** A DELETE has removed the chosen rows among `done`, and touched no other. */
  ghost predicate ChosenGone(columns: seq<ColumnDef>, filter: Option<Expr>, fcmp: FloatCmp, done: iset<Rid>,
                             before: imap<Rid, Row>, now: imap<Rid, Row>) {
    && (forall rid :: rid in now <==>
          rid in before && !(rid in done && Chosen(columns, filter, before[rid], fcmp)))
    && (forall rid :: rid in now ==> now[rid] == before[rid])
  }

  /** An UPDATE has set the cells of the chosen rows among `done`, each in its place, and touched no other. */
  ghost predicate ChosenSet(columns: seq<ColumnDef>, filter: Option<Expr>, asg: seq<Assignment>, fcmp: FloatCmp,
                            done: iset<Rid>, before: imap<Rid, Row>, now: imap<Rid, Row>) {
    && (forall rid :: rid in now <==> rid in before)
    && (forall rid :: rid in before ==>
          if rid in done && Chosen(columns, filter, before[rid], fcmp) && Settable(columns, asg)
          then CellsSet(columns, before[rid], asg, now[rid])
          else now[rid] == before[rid])
  }

  ghost predicate AllDecided(columns: seq<ColumnDef>, filter: Option<Expr>, fcmp: FloatCmp, rows: imap<Rid, Row>) {
    forall rid :: rid in rows ==> Decided(columns, filter, rows[rid], fcmp)
  }

  lemma {:induction false} SurvivingMeans(columns: seq<ColumnDef>, rows: imap<Rid, Row>, filter: Option<Expr>,
                                          fcmp: FloatCmp, done: iset<Rid>)
    ensures ChosenGone(columns, filter, fcmp, done, rows, Surviving(columns, rows, filter, fcmp, done))
    ensures AllDecided(columns, filter, fcmp, rows) <==>
            forall rid :: rid in rows ==> Matches(columns, filter, rows[rid], fcmp).Ok?
  {
    hide Matches, Chosen, Decided;
    forall rid | rid in rows
      ensures Matches(columns, filter, rows[rid], fcmp).Ok? <==> Decided(columns, filter, rows[rid], fcmp)
      ensures Matches(columns, filter, rows[rid], fcmp) == Ok(true) <==> Chosen(columns, filter, rows[rid], fcmp)
    {
      MatchesMeans(columns, filter, rows[rid], fcmp);
    }
  }

  lemma {:induction false} RevisedRowsMeans(columns: seq<ColumnDef>, rows: imap<Rid, Row>, filter: Option<Expr>,
                                            asg: seq<Assignment>, fcmp: FloatCmp, done: iset<Rid>)
    requires Wide(columns, rows)
    ensures ChosenSet(columns, filter, asg, fcmp, done, rows, RevisedRows(columns, rows, filter, asg, fcmp, done))
  {
    hide Matches, Chosen, Settable, CellsSet, Assigned;
    forall rid | rid in rows
      ensures var now := Revised(columns, rows[rid], filter, asg, fcmp);
        if Chosen(columns, filter, rows[rid], fcmp) &&
        Settable(columns, asg) then CellsSet(columns, rows[rid], asg, now)
        else now == rows[rid]
    {
      MatchesMeans(columns, filter, rows[rid], fcmp);
      AssignedMeans(columns, rows[rid], asg);
    }
  }

  /** Whether a row can be visited by an UPDATE: the filter is decided and, where it chooses the row, the assignments
      can be made, take no key in use, and leave a row that still fits. */
  lemma {:induction false} RevisableMeans(columns: seq<ColumnDef>, pk: nat, rows: imap<Rid, Row>, row: Row,
                                          filter: Option<Expr>, asg: seq<Assignment>, fcmp: FloatCmp, len: nat)
    requires |row| == |columns| && pk < |row| && row[pk].Int?
    ensures Revisable(columns, pk, rows, row, filter, asg, fcmp, len) <==>
            && Decided(columns, filter, row, fcmp)
            && (Chosen(columns, filter, row, fcmp) ==>
                  && Settable(columns, asg) && KeyFreeIn(columns[pk].name, pk, row[pk].n, asg, rows)
                  && exists now :: CellsSet(columns, row, asg, now) && |EncodeRow(now)| <= len)
  {
    hide Matches, Chosen, Decided, Settable, CellsSet, Assigned, EncodeRow, KeyFreeIn;
    MatchesMeans(columns, filter, row, fcmp);
    AssignedMeans(columns, row, asg);
    forall now | Settable(columns, asg) && CellsSet(columns, row, asg, now)
      ensures now == Assigned(columns, row, asg).value
    {
      CellsSetUnique(columns, row, asg, now, Assigned(columns, row, asg).value);
    }
  }

  /** The cells after an UPDATE are determined. */
  lemma {:induction false} CellsSetUnique(columns: seq<ColumnDef>, row: Row, asg: seq<Assignment>, a: Row, b: Row)
    requires CellsSet(columns, row, asg, a) && CellsSet(columns, row, asg, b)
    ensures a == b
  {
    hide ColIndex, LastTo, Untouched;
    forall c: nat | c < |row| ensures a[c] == b[c] {
      if !Untouched(columns, asg, c) {
        var k := LastIs(columns, asg, c);
      }
    }
  }

  lemma {:induction false} LastIs(columns: seq<ColumnDef>, asg: seq<Assignment>, c: nat) returns (k: nat)
    requires !Untouched(columns, asg, c)
    ensures k < |asg| && LastTo(columns, asg, c, k)
  {
    hide ColIndex;
    k := |asg| - 1;
    while ColIndex(columns, asg[k].column) != Some(c)
      invariant k < |asg| && forall j :: k < j < |asg| ==> ColIndex(columns, asg[j].column) != Some(c)
      decreases k
    {
      k := k - 1;
    }
  }
}
