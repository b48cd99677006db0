/** Schemas, values and the row format of src/engine/catalog.rs. */
module Rows {
  import opened Common
  import opened Bytes

  type i64 = n: int | -0x8000_0000_0000_0000 <= n < 0x8000_0000_0000_0000

  /** The eight bytes of an `f64`, never computed with. */
  type f64 = s: seq<byte> | |s| == 8 witness [0, 0, 0, 0, 0, 0, 0, 0]

  datatype Value = Null | Int(n: i64) | Float(bits: f64) | Text(text: Str)

  datatype DataType = IntType | TextType | FloatType

  datatype ColumnDef = ColumnDef(name: Str, ty: DataType, primaryKey: bool)

  type Row = seq<Value>

  const TAG_INT: byte := 0
  const TAG_TEXT: byte := 1
  const TAG_NULL: byte := 2
  const TAG_FLOAT: byte := 3

  datatype Schema = Schema(name: Str, columns: seq<ColumnDef>, primaryKey: Option<Str>)

  /** The first column with a name, if there is one. */
  function ColIndex(columns: seq<ColumnDef>, name: Str): (r: Option<nat>)
    ensures r.Some? <==> exists i :: 0 <= i < |columns| && columns[i].name == name
    ensures r.Some? ==> r.value < |columns| && columns[r.value].name == name
    ensures r.Some? ==> forall i :: 0 <= i < r.value ==> columns[i].name != name
  {
    if columns == [] then None
    else if columns[0].name == name then Some(0)
    else
      var rest := ColIndex(columns[1..], name);
      assert forall i :: 0 <= i < |columns[1..]| ==> columns[1..][i] == columns[i + 1];
      if rest.None? then None else Some(rest.value + 1)
  }

  // --- Cells ---

  function EncodeInt(n: i64): (b: seq<byte>)
    ensures |b| == 8
  {
    LE(if n < 0 then n + 0x1_0000_0000_0000_0000 else n, 8)
  }

  function DecodeInt(b: seq<byte>): i64
    requires |b| == 8
  {
    Widths();
    var u := UnLE(b);
    if u >= 0x8000_0000_0000_0000 then u - 0x1_0000_0000_0000_0000 else u
  }

  lemma {:induction false} IntRoundTrip(n: i64)
    ensures DecodeInt(EncodeInt(n)) == n
  {
    hide LE, UnLE, Pow256;
    Widths();
    LERoundTrip(if n < 0 then n + 0x1_0000_0000_0000_0000 else n, 8);
  }

  /** The value fits the column: NULL fits every column. */
  predicate Typed(ty: DataType, v: Value) {
    match v
    case Null => true
    case Int(_) => ty == IntType
    case Float(_) => ty == FloatType
    case Text(_) => ty == TextType
  }

  function EncodeCell(v: Value): (b: seq<byte>)
    ensures |b| > 0
  {
    match v
    case Null => [TAG_NULL]
    case Int(n) => [TAG_INT] + EncodeInt(n)
    case Float(bits) => [TAG_FLOAT] + bits
    case Text(t) => [TAG_TEXT] + LE(|t| % 0x1_0000_0000, 4) + t
  }

  lemma {:induction false} Length32(b: seq<byte>)
    requires |b| == 4
    ensures UnLE(b) < 0x1_0000_0000
  {
    hide UnLE, Pow256;
    Widths();
  }

  /** A text cell, past its tag. */
  function DecodeText(b: seq<byte>): (r: Result<(Value, nat)>)
    requires b != []
    ensures r.Ok? ==> r.value.1 <= |b| && r.value.0.Text? && |r.value.0.text| < 0x1_0000_0000
  {
    if |b| < 5 then Err("text len error")
    else
      Length32(b[1..5]);
      var len := UnLE(b[1..5]);
      if |b| < 5 + len then Err("text read error")
      else if !ValidUtf8(b[5..5 + len]) then Err("utf8 error")
      else Ok((Text(b[5..5 + len]), 5 + len))
  }

  /** One cell and how many bytes it took; a slice past the end, a panic in the source, is an error here. */
  function DecodeCell(ty: DataType, b: seq<byte>): (r: Result<(Value, nat)>)
    ensures r.Ok? ==> r.value.1 <= |b| && Typed(ty, r.value.0)
    ensures r.Ok? && r.value.0.Text? ==> |r.value.0.text| < 0x1_0000_0000
  {
    if b == [] then Err("unexpected end of row data")
    else if b[0] == TAG_NULL then Ok((Null, 1))
    else if b[0] == TAG_INT && ty == IntType then
      if |b| < 9 then Err("int read error") else Ok((Int(DecodeInt(b[1..9])), 9))
    else if b[0] == TAG_FLOAT && ty == FloatType then
      if |b| < 9 then Err("float read error") else Ok((Float(b[1..9]), 9))
    else if b[0] == TAG_TEXT && ty == TextType then DecodeText(b)
    else Err("type tag doesn't match")
  }

  predicate ShortText(v: Value) {
    v.Text? ==> |v.text| < 0x1_0000_0000
  }

  lemma {:induction false} CellRoundTrip(ty: DataType, v: Value, tail: seq<byte>)
    requires Typed(ty, v) && ShortText(v)
    ensures DecodeCell(ty, EncodeCell(v) + tail) == Ok((v, |EncodeCell(v)|))
  {
    hide LE, UnLE, Pow256, EncodeInt, DecodeInt;
    var b := EncodeCell(v) + tail;
    match v {
      case Null =>
      case Int(n) =>
        assert b[1..9] == EncodeInt(n);
        IntRoundTrip(n);
      case Float(bits) =>
        assert b[1..9] == bits;
      case Text(t) =>
        Widths();
        LERoundTrip(|t|, 4);
        assert b[1..5] == LE(|t|, 4);
        assert b[5..5 + |t|] == t;
    }
  }

  // --- Rows ---

  predicate TypedRow(columns: seq<ColumnDef>, row: Row) {
    |row| == |columns| && forall i :: 0 <= i < |row| ==> Typed(columns[i].ty, row[i])
  }

  predicate ShortTexts(row: Row) {
    forall i :: 0 <= i < |row| ==> ShortText(row[i])
  }

  function EncodeRow(row: Row): seq<byte> {
    if row == [] then [] else EncodeCell(row[0]) + EncodeRow(row[1..])
  }

  function DecodeRow(columns: seq<ColumnDef>, b: seq<byte>): (r: Result<Row>)
    ensures r.Ok? ==> TypedRow(columns, r.value) && ShortTexts(r.value)
  {
    if columns == [] then Ok([])
    else
      var cell := DecodeCell(columns[0].ty, b);
      if cell.Err? then Err(cell.error)
      else
        var rest := DecodeRow(columns[1..], b[cell.value.1..]);
        if rest.Err? then rest
        else
          Ok([cell.value.0] + rest.value)
  }

  /** Reading back a row, whatever follows it: exactly when every text's length fits its field. */
  lemma {:induction false} RowRoundTrip(columns: seq<ColumnDef>, row: Row, tail: seq<byte>)
    requires TypedRow(columns, row)
    ensures DecodeRow(columns, EncodeRow(row) + tail) == Ok(row) <==> ShortTexts(row)
  {
    if ShortTexts(row) {
      RowReadBack(columns, row, tail);
    }
  }

  lemma {:induction false} RowReadBack(columns: seq<ColumnDef>, row: Row, tail: seq<byte>)
    requires TypedRow(columns, row) && ShortTexts(row)
    ensures DecodeRow(columns, EncodeRow(row) + tail) == Ok(row)
  {
    hide EncodeCell, DecodeCell, Typed;
    if row != [] {
      var rest := EncodeRow(row[1..]) + tail;
      assert EncodeRow(row) + tail == EncodeCell(row[0]) + rest;
      CellRoundTrip(columns[0].ty, row[0], rest);
      RowReadBack(columns[1..], row[1..], tail);
      assert (EncodeCell(row[0]) + rest)[|EncodeCell(row[0])|..] == rest;
      assert [row[0]] + row[1..] == row;
    }
  }

  lemma {:induction false} EncodeRowSnoc(row: Row, v: Value)
    ensures EncodeRow(row + [v]) == EncodeRow(row) + EncodeCell(v)
  {
    hide EncodeCell;
    if row == [] {
      assert [v][1..] == [];
    } else {
      assert (row + [v])[1..] == row[1..] + [v];
      EncodeRowSnoc(row[1..], v);
      assert EncodeCell(row[0]) + (EncodeRow(row[1..]) + EncodeCell(v)) == EncodeRow(row) + EncodeCell(v);
    }
  }

  /** Texts are no longer than the row that holds them. */
  lemma {:induction false} TextsFit(row: Row)
    requires |EncodeRow(row)| < 0x1_0000_0000
    ensures ShortTexts(row)
  {
    if row != [] {
      TextsFit(row[1..]);
      assert forall i :: 1 <= i < |row| ==> row[i] == row[1..][i - 1];
    }
  }

  /** `serialize_row`: the row's bytes, refused exactly for a wrong count or a wrong type. */
  method SerializeRow(columns: seq<ColumnDef>, values: Row) returns (r: Result<seq<byte>>)
    ensures r.Ok? <==> TypedRow(columns, values)
    ensures r.Ok? ==> r.value == EncodeRow(values)
    ensures r.Ok? && ShortTexts(values) ==> DecodeRow(columns, r.value) == Ok(values)
  {
    hide EncodeCell, DecodeCell;
    if |values| != |columns| {
      return Err("expected another number of values");
    }
    var buf: seq<byte> := [];
    for i := 0 to |columns|
      invariant buf == EncodeRow(values[..i])
      invariant forall j :: 0 <= j < i ==> Typed(columns[j].ty, values[j])
    {
      if !Typed(columns[i].ty, values[i]) {
        return Err("type mismatch");
      }
      EncodeRowSnoc(values[..i], values[i]);
      assert values[..i] + [values[i]] == values[..i + 1];
      buf := buf + EncodeCell(values[i]);
    }
    assert values[..|columns|] == values;
    RowRoundTrip(columns, values, []);
    assert EncodeRow(values) + [] == EncodeRow(values);
    r := Ok(buf);
  }

  /** What is still to be read after `got` cells. */
  ghost function Resumed(got: Row, rest: Result<Row>): Result<Row> {
    if rest.Err? then rest else Ok(got + rest.value)
  }

  lemma {:induction false} ResumeStep(columns: seq<ColumnDef>, b: seq<byte>, got: Row)
    ensures columns == [] ==> DecodeRow(columns, b) == Ok([])
    ensures columns != [] ==>
      var cell := DecodeCell(columns[0].ty, b);
      Resumed(got, DecodeRow(columns, b)) ==
      if cell.Err? then Err(cell.error)
      else Resumed(got + [cell.value.0], DecodeRow(columns[1..], b[cell.value.1..]))
  {
    hide DecodeCell, Typed;
    if columns != [] {
      var cell := DecodeCell(columns[0].ty, b);
      if cell.Ok? {
        var rest := DecodeRow(columns[1..], b[cell.value.1..]);
        assert rest.Ok? ==> got + ([cell.value.0] + rest.value) == got + [cell.value.0] + rest.value;
      }
    }
  }

  /** `deserialize_row`, moving an offset over the buffer. */
  method DeserializeRow(columns: seq<ColumnDef>, buf: seq<byte>) returns (r: Result<Row>)
    ensures r == DecodeRow(columns, buf)
  {
    hide DecodeCell, DecodeRow, Typed, TypedRow, ShortTexts;
    var values: Row := [];
    var off: nat := 0;
    assert columns[0..] == columns && buf[0..] == buf;
    ghost var whole := DecodeRow(columns, buf);
    assert whole.Ok? ==> [] + whole.value == whole.value;
    for i := 0 to |columns|
      invariant off <= |buf|
      invariant whole == Resumed(values, DecodeRow(columns[i..], buf[off..]))
    {
      ResumeStep(columns[i..], buf[off..], values);
      var cell := DecodeCell(columns[i].ty, buf[off..]);
      if cell.Err? {
        return Err(cell.error);
      }
      assert columns[i..][1..] == columns[i + 1..];
      assert buf[off..][cell.value.1..] == buf[off + cell.value.1..];
      off := off + cell.value.1;
      values := values + [cell.value.0];
    }
    ResumeStep([], buf[off..], values);
    assert columns[|columns|..] == [] && values + [] == values;
    r := Ok(values);
  }
}
