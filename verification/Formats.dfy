/** The files byte by byte: what the encodings of the other modules put where. */
module Formats {
  import opened Bytes
  import opened Slots
  import opened Page
  import opened Rows
  import opened LogRecord
  import opened Catalog

  function Zeros(n: nat): (r: seq<byte>)
    ensures |r| == n
  {
    seq(n, _ => 0)
  }

  /** A number below 256 is its own lowest byte. */
  lemma {:induction false} OneByte(n: byte, k: nat)
    requires k > 0
    ensures LE(n, k) == [n] + Zeros(k - 1)
  {
    if k > 1 {
      OneByte(0, k - 1);
      assert [0] + Zeros(k - 2) == Zeros(k - 1);
    } else {
      assert LE(0, 0) == [];
    }
  }

  lemma {:induction false} Narrow(n: byte)
    ensures LE(n, 2) == [n, 0] && LE(n, 4) == [n, 0, 0, 0] && LE(n, 8) == [n, 0, 0, 0, 0, 0, 0, 0]
  {
    OneByte(n, 2);
    OneByte(n, 4);
    OneByte(n, 8);
  }

  // --- Pages ---

  /** Two bytes, lowest first. */
  function Two(d: seq<byte>, o: nat): (n: nat)
    requires o + 2 <= |d|
  {
    d[o] as int + 0x100 * d[o + 1] as int
  }

  lemma {:induction false} TwoBytes(d: seq<byte>, o: nat)
    requires o + 2 <= |d|
    ensures UnLE(d[o..o + 2]) == Two(d, o)
  {
    hide UnLE;
    assert d[o..o + 2] == [d[o], d[o + 1]];
    SmallEnds(d[o], d[o + 1], 0, 0);
  }

  /** A page holds the number of its slots in bytes 4 and 5, and where the tuples start in bytes 6 and 7. */
  lemma {:induction false} HeaderBytes(d: seq<byte>, s: Slots)
    requires Layout(d, s)
    ensures Two(d, 4) == |s| && Two(d, 6) == 4096 - Used(s)
  {
    hide Used, UnLE, Holds, Two;
    HeaderParts(d);
    TwoBytes(d, 4);
    TwoBytes(d, 6);
  }

  /** From byte 12 on it has five bytes a slot: where the tuple starts, how long it is, and whether it is live. */
  lemma {:induction false} SlotBytes(d: seq<byte>, s: Slots, i: nat)
    requires Layout(d, s) && i < |s|
    ensures var o := 12 + 5 * i;
      && o + 5 <= 4096 && Two(d, o) + Two(d, o + 2) <= 4096
      && d[Two(d, o)..Two(d, o) + Two(d, o + 2)] == s[i].bytes && (d[o + 4] != 0 <==> s[i].live)
  {
    hide Used, UnLE, Two;
    assert Holds(d, s, i);
    UsedPrefix(s, i);
    var o := SlotOffset(i);
    SlotFields(d, o);
  }

  lemma {:induction false} SlotFields(d: seq<byte>, o: nat)
    requires o + SLOT_SIZE <= |d|
    ensures DecodeSlot(d[o..o + SLOT_SIZE]) == Slot(Two(d, o), Two(d, o + 2), d[o + 4] != 0)
  {
    hide UnLE, Two;
    var b := d[o..o + SLOT_SIZE];
    TwoBytes(d, o);
    TwoBytes(d, o + 2);
    assert b[0..2] == d[o..o + 2];
    assert b[2..4] == [d[o + 2], d[o + 3]] == d[o + 2..o + 2 + 2];
  }

  // --- Rows ---

  /** Cells of every kind: a tag, then eight bytes of a number or a length and the text. */
  lemma {:induction false} RowBytes(n: byte, bits: f64, t: Str)
    requires |t| < 256
    ensures EncodeRow([Int(n)]) == [0, n, 0, 0, 0, 0, 0, 0, 0]
    ensures EncodeRow([Int(-1)]) == [0, 255, 255, 255, 255, 255, 255, 255, 255]
    ensures EncodeRow([Text(t)]) == [1, |t|, 0, 0, 0] + t
    ensures EncodeRow([Null]) == [2]
    ensures EncodeRow([Float(bits)]) == [3] + bits
  {
    hide EncodeRow;
    CellAlone(Int(n));
    CellAlone(Int(-1));
    CellAlone(Text(t));
    CellAlone(Null);
    CellAlone(Float(bits));
    IntBytes(n);
    TextBytes(t);
  }

  lemma {:induction false} CellAlone(v: Value)
    ensures EncodeRow([v]) == EncodeCell(v)
  {
    hide EncodeCell;
    assert [v][1..] == [];
  }

  lemma {:induction false} IntBytes(n: byte)
    ensures EncodeCell(Int(n)) == [0, n, 0, 0, 0, 0, 0, 0, 0]
    ensures EncodeCell(Int(-1)) == [0, 255, 255, 255, 255, 255, 255, 255, 255]
  {
    hide LE;
    Narrow(n);
    MinusOne();
  }

  lemma {:induction false} TextBytes(t: Str)
    requires |t| < 256
    ensures EncodeCell(Text(t)) == [1, |t|, 0, 0, 0] + t
  {
    hide LE, ValidUtf8;
    Narrow(|t|);
  }

  lemma {:induction false} MinusOne()
    ensures LE(0xFFFF_FFFF_FFFF_FFFF, 8) == [255, 255, 255, 255, 255, 255, 255, 255]
  {
    hide LE, UnLE;
    var all: seq<byte> := [255, 255, 255, 255, 255, 255, 255, 255];
    SmallEnds(255, 255, 255, 255);
    SmallEndsEight(all);
    assert all[..4] == [255, 255, 255, 255] && all[4..] == [255, 255, 255, 255];
    LEBack(all);
  }

  /** A row is its cells one after the other. */
  lemma {:induction false} RowConcat(a: Row, b: Row)
    ensures EncodeRow(a + b) == EncodeRow(a) + EncodeRow(b)
  {
    hide EncodeCell;
    if a == [] {
      assert a + b == b;
    } else {
      assert (a + b)[0] == a[0] && (a + b)[1..] == a[1..] + b;
      RowConcat(a[1..], b);
    }
  }

  // --- The log ---

  /** Where a record is about, with small numbers in its fields: number, transaction, page, slot. */
  function Stamp(lsn: byte, t: byte): seq<byte> {
    [lsn, 0, 0, 0, 0, 0, 0, 0] + [t, 0, 0, 0]
  }

  function Place(p: byte, slot: byte): seq<byte> {
    [p, 0, 0, 0] + [slot, 0]
  }

  lemma {:induction false} StampIs(lsn: byte, t: byte, p: byte, slot: byte, rest: seq<byte>)
    ensures LE(lsn, 8) + LE(t, 4) == Stamp(lsn, t)
    ensures LE(lsn, 8) + (LE(t, 4) + (LE(p, 4) + (LE(slot, 2) + rest))) == Stamp(lsn, t) + Place(p, slot) + rest
  {
    hide LE;
    Narrow(lsn);
    Narrow(t);
    Narrow(p);
    Narrow(slot);
  }

  lemma {:induction false} BlobIs(x: seq<byte>)
    requires |x| < 256
    ensures Blob(x) == [|x|, 0, 0, 0] + x
  {
    hide LE;
    Narrow(|x|);
  }

  /** A transaction's begin, end or abort, and a checkpoint. */
  lemma {:induction false} MarkBytes(lsn: byte, t: byte)
    ensures Frame(LogRecord.Begin(lsn, t)) == [13, 0, 0, 0] + ([0] + Stamp(lsn, t))
    ensures Frame(LogRecord.Commit(lsn, t)) == [13, 0, 0, 0] + ([4] + Stamp(lsn, t))
    ensures Frame(LogRecord.Abort(lsn, t)) == [13, 0, 0, 0] + ([5] + Stamp(lsn, t))
    ensures Frame(LogRecord.Checkpoint(lsn)) == [9, 0, 0, 0] + ([6] + [lsn, 0, 0, 0, 0, 0, 0, 0])
  {
    hide LE;
    StampIs(lsn, t, 0, 0, []);
    Narrow(lsn);
    Narrow(9);
    Narrow(13);
  }

  /** A tuple added: its bytes behind their length. */
  lemma {:induction false} InsertBytes(lsn: byte, t: byte, p: byte, slot: byte, x: seq<byte>)
    requires |x| < 200
    ensures Frame(LogRecord.Insert(lsn, t, p, slot, x)) ==
            [23 + |x|, 0, 0, 0] + ([1] + (Stamp(lsn, t) + Place(p, slot) + ([|x|, 0, 0, 0] + x)))
  {
    hide LE, Blob, Stamp, Place;
    BlobIs(x);
    StampIs(lsn, t, p, slot, Blob(x));
    Narrow(23 + |x|);
    assert |Stamp(lsn, t)| == 12 && |Place(p, slot)| == 6 by { Lengths(lsn, t, p, slot); }
  }

  lemma {:induction false} Lengths(lsn: byte, t: byte, p: byte, slot: byte)
    ensures |Stamp(lsn, t)| == 12 && |Place(p, slot)| == 6
  {
  }

  /** A tuple deleted: the bytes it had. */
  lemma {:induction false} DeleteBytes(lsn: byte, t: byte, p: byte, slot: byte, x: seq<byte>)
    requires |x| < 200
    ensures Frame(LogRecord.Delete(lsn, t, p, slot, x)) ==
            [23 + |x|, 0, 0, 0] + ([2] + (Stamp(lsn, t) + Place(p, slot) + ([|x|, 0, 0, 0] + x)))
  {
    hide LE, Blob, Stamp, Place;
    BlobIs(x);
    StampIs(lsn, t, p, slot, Blob(x));
    Narrow(23 + |x|);
    Lengths(lsn, t, p, slot);
  }

  /** A tuple rewritten: the old bytes, then the new ones. */
  lemma {:induction false} UpdateBytes(lsn: byte, t: byte, p: byte, slot: byte, x: seq<byte>, y: seq<byte>)
    requires |x| + |y| < 200
    ensures Frame(LogRecord.Update(lsn, t, p, slot, x, y)) ==
            [27 + |x| + |y|, 0, 0, 0] +
            ([3] + (Stamp(lsn, t) + Place(p, slot) + (([|x|, 0, 0, 0] + x) + ([|y|, 0, 0, 0] + y))))
  {
    hide LE, Blob, Stamp, Place;
    BlobIs(x);
    BlobIs(y);
    StampIs(lsn, t, p, slot, Blob(x) + Blob(y));
    Narrow(27 + |x| + |y|);
    Lengths(lsn, t, p, slot);
  }

  // --- The catalog ---

  lemma {:induction false} NameIs(s: Str)
    requires |s| < 256
    ensures EncodeName(s) == [|s|, 0, 0, 0] + s
  {
    hide LE;
    Narrow(|s|);
  }

  /** A saved catalog of one table with a column of each type, the first its key, and one index. */
  lemma {:induction false} CatalogBytes(t: Str, a: Str, b: Str, c: Str)
    requires |t| < 256 && |a| < 256 && |b| < 256 && |c| < 256
    ensures var table := NewSchema(t, [ColumnDef(a, IntType, true), ColumnDef(b, TextType, false),
                                       ColumnDef(c, FloatType, false)]);
      SavedFile([table], [(t, a)]) ==
      [255, 255, 255, 255, 2] + [1, 0, 0, 0] + ([|t|, 0, 0, 0] + t) + [3, 0, 0, 0] +
      ([|a|, 0, 0, 0] + a + [0, 1]) + ([|b|, 0, 0, 0] + b + [1, 0]) + ([|c|, 0, 0, 0] + c + [2, 0]) +
      [1, 0, 0, 0] + ([|t|, 0, 0, 0] + t) + ([|a|, 0, 0, 0] + a)
  {
    hide LE, EncodeName, FirstKey;
    NameIs(t);
    NameIs(a);
    NameIs(b);
    NameIs(c);
    Narrow(1);
    Narrow(3);
    AllOnes();
    var cs := [ColumnDef(a, IntType, true), ColumnDef(b, TextType, false), ColumnDef(c, FloatType, false)];
    ColumnsOf(a, b, c);
    var table := NewSchema(t, cs);
    OneOfEach(table, (t, a));
  }

  lemma {:induction false} AllOnes()
    ensures LE(0xFFFF_FFFF, 4) == [255, 255, 255, 255]
  {
    hide LE, UnLE;
    SmallEnds(255, 255, 255, 255);
    LEBack([255, 255, 255, 255]);
  }

  lemma {:induction false} ColumnsOf(a: Str, b: Str, c: Str)
    requires |a| < 256 && |b| < 256 && |c| < 256
    ensures EncodeColumns([ColumnDef(a, IntType, true), ColumnDef(b, TextType, false), ColumnDef(c, FloatType, false)],
                          2)
            == EncodeName(a) + [0, 1] + (EncodeName(b) + [1, 0]) + (EncodeName(c) + [2, 0])
  {
    hide EncodeName;
    var x, y, z := ColumnDef(a, IntType, true), ColumnDef(b, TextType, false), ColumnDef(c, FloatType, false);
    assert [x, y, z][1..] == [y, z] && [y, z][1..] == [z] && [z][1..] == [];
    assert EncodeColumn(x, 2) == EncodeName(a) + [0, 1];
    assert EncodeColumn(y, 2) == EncodeName(b) + [1, 0];
    assert EncodeColumn(z, 2) == EncodeName(c) + [2, 0];
    assert EncodeColumns([z], 2) == EncodeColumn(z, 2);
    assert EncodeColumns([y, z], 2) == EncodeColumn(y, 2) + EncodeColumns([z], 2);
  }

  lemma {:induction false} OneOfEach(table: Schema, d: (Str, Str))
    ensures EncodeTables([table], 2) == EncodeTable(table, 2) && EncodeDefs([d]) == EncodeName(d.0) + EncodeName(d.1)
  {
    hide EncodeTable, EncodeName;
    assert [table][1..] == [] && [d][1..] == [];
  }

  // --- Nothing else is read ---

  /** `b` starts with `s`. */
  ghost predicate StartsWith(b: seq<byte>, s: seq<byte>) {
    |s| <= |b| && b[..|s|] == s
  }

  lemma {:induction false} IntOnly(b: seq<byte>)
    requires |b| == 8
    ensures EncodeInt(DecodeInt(b)) == b
  {
    hide LE, UnLE, Pow256;
    Widths();
    LEBack(b);
  }

  /** A cell that can be read is one that was written: no other bytes are taken for one. */
  lemma {:induction false} CellOnly(ty: DataType, b: seq<byte>)
    requires DecodeCell(ty, b).Ok?
    ensures var (v, n) := DecodeCell(ty, b).value; StartsWith(b, EncodeCell(v)) && n == |EncodeCell(v)|
  {
    hide LE, UnLE, EncodeInt, DecodeInt;
    if b[0] == TAG_INT && ty == IntType {
      IntOnly(b[1..9]);
      assert b[..9] == [TAG_INT] + b[1..9];
    } else if b[0] == TAG_FLOAT && ty == FloatType {
      assert b[..9] == [TAG_FLOAT] + b[1..9];
    } else if b[0] == TAG_TEXT && ty == TextType {
      Length32(b[1..5]);
      LEBack(b[1..5]);
      var n := 5 + UnLE(b[1..5]);
      assert b[..n] == [TAG_TEXT] + b[1..5] + b[5..n];
    }
  }

  /** The same of a row. */
  lemma {:induction false} RowOnly(columns: seq<ColumnDef>, b: seq<byte>)
    requires DecodeRow(columns, b).Ok?
    ensures StartsWith(b, EncodeRow(DecodeRow(columns, b).value))
  {
    hide DecodeCell, EncodeCell;
    if columns != [] {
      var (v, n) := DecodeCell(columns[0].ty, b).value;
      CellOnly(columns[0].ty, b);
      var row := DecodeRow(columns[1..], b[n..]).value;
      RowOnly(columns[1..], b[n..]);
      assert b == EncodeCell(v) + b[n..];
      assert ([v] + row)[1..] == row;
    }
  }

  lemma {:induction false} FieldOnly(b: seq<byte>, width: nat)
    requires ReadInt(b, width).Read?
    ensures b == LE(ReadInt(b, width).value, width) + ReadInt(b, width).rest
  {
    hide LE, UnLE;
    LEBack(b[..width]);
  }

  lemma {:induction false} BlobOnly(b: seq<byte>)
    requires ReadBlob(b).Read?
    ensures b == Blob(ReadBlob(b).value) + ReadBlob(b).rest
  {
    hide LE, ReadInt;
    FieldOnly(b, 4);
  }

  lemma {:induction false} WhereOnly(b: seq<byte>)
    requires ReadWhere(b).Read?
    ensures var w := ReadWhere(b).value;
      b == LE(w.lsn, 8) + (LE(w.txn, 4) + (LE(w.pageId, 4) + (LE(w.slotId, 2) + ReadWhere(b).rest)))
  {
    hide LE, ReadInt;
    var b1 := ReadInt(b, 8).rest;
    var b2 := ReadInt(b1, 4).rest;
    var b3 := ReadInt(b2, 4).rest;
    FieldOnly(b, 8);
    FieldOnly(b1, 4);
    FieldOnly(b2, 4);
    FieldOnly(b3, 2);
  }

  lemma {:induction false} LsnTxnOnly(b: seq<byte>)
    requires ReadLsnTxn(b).Read?
    ensures b == LE(ReadLsnTxn(b).value.0, 8) + (LE(ReadLsnTxn(b).value.1, 4) + ReadLsnTxn(b).rest)
  {
    hide LE, ReadInt;
    FieldOnly(b, 8);
    FieldOnly(ReadInt(b, 8).rest, 4);
  }

  /** What parses as a record starts with that record's bytes; what is skipped is empty or of an unknown kind. */
  lemma {:induction false} ParseOnly(b: seq<byte>)
    ensures Parse(b).Record? ==> StartsWith(b, Payload(Parse(b).r))
    ensures Parse(b).Nothing? <==> b == [] || b[0] > 6
  {
    hide LE, ReadInt, ReadWhere, ReadBlob, ReadLsnTxn, Blob;
    if Parse(b).Record? {
      var rest := b[1..];
      assert b == [b[0]] + rest;
      if b[0] == 0 || b[0] == 4 || b[0] == 5 {
        LsnTxnOnly(rest);
      } else if b[0] == 6 {
        FieldOnly(rest, 8);
      } else {
        WhereOnly(rest);
        var b1 := ReadWhere(rest).rest;
        BlobOnly(b1);
        if b[0] == 3 { BlobOnly(ReadBlob(b1).rest); }
      }
    }
  }

  /** The same of a name in the catalog file ... */
  lemma {:induction false} NameOnly(b: seq<byte>)
    requires ReadName(b).Ok?
    ensures b == EncodeName(ReadName(b).value.0) + ReadName(b).value.1
  {
    hide LE, UnLE, ValidUtf8;
    Length32(b[..4]);
    LEBack(b[..4]);
  }

  /** ... and of a column; of the flag's values other than one all mean no key. */
  lemma {:induction false} ColumnOnly(b: seq<byte>) returns (flag: byte)
    requires ReadColumn(2, b).Ok?
    ensures var (c, rest) := ReadColumn(2, b).value;
      b == EncodeName(c.name) + [TypeTag(c.ty), flag] + rest && (c.primaryKey <==> flag == 1)
  {
    hide ReadName, EncodeName;
    NameOnly(b);
    flag := ReadName(b).value.1[1];
  }
}
