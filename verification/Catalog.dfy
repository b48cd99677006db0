/** The catalog file of src/storage/catalog_store.rs: version 2 written, versions 1 and 2 read. */
module Catalog {
  import opened Common
  import opened Bytes
  import opened Rows

  type Name = Str

  datatype Catalog = Catalog(tables: map<Name, Schema>, indexDefs: seq<(Name, Name)>)

  const U32: nat := 0x1_0000_0000
  const MAGIC: nat := 0xFFFF_FFFF

  /** `Schema::new`: the primary key is the first column flagged so. */
  function NewSchema(name: Name, columns: seq<ColumnDef>): Schema {
    Schema(name, columns, FirstKey(columns))
  }

  function FirstKey(columns: seq<ColumnDef>): Option<Name> {
    if columns == [] then None
    else if columns[0].primaryKey then Some(columns[0].name)
    else FirstKey(columns[1..])
  }

  /** Column `i` is flagged and none before it is. */
  ghost predicate FirstFlagged(columns: seq<ColumnDef>, i: nat) {
    i < |columns| && columns[i].primaryKey && forall j :: 0 <= j < i ==> !columns[j].primaryKey
  }

  /** The schema's key is the name of its first flagged column; it has none exactly where no column is flagged. */
  ghost predicate KeyRight(s: Schema) {
    match s.primaryKey
    case None => forall i :: 0 <= i < |s.columns| ==> !s.columns[i].primaryKey
    case Some(key) => exists i: nat :: FirstFlagged(s.columns, i) && s.columns[i].name == key
  }

  lemma {:induction false} FirstKeyAt(columns: seq<ColumnDef>, i: nat)
    requires FirstFlagged(columns, i)
    ensures FirstKey(columns) == Some(columns[i].name)
  {
    if i > 0 {
      assert forall j :: 0 <= j < |columns[1..]| ==> columns[1..][j] == columns[j + 1];
      FirstKeyAt(columns[1..], i - 1);
    }
  }

  lemma {:induction false} NoKey(columns: seq<ColumnDef>)
    requires forall i :: 0 <= i < |columns| ==> !columns[i].primaryKey
    ensures FirstKey(columns) == None
  {
    if columns != [] { NoKey(columns[1..]); }
  }

  /** Exactly the schemas with the right key are those `Schema::new` makes. */
  lemma {:induction false} NewSchemaKey(s: Schema)
    ensures KeyRight(s) <==> s == NewSchema(s.name, s.columns)
  {
    hide FirstKey, FirstFlagged;
    forall g: nat | FirstFlagged(s.columns, g)
      ensures g < |s.columns| && s.columns[g].primaryKey && FirstKey(s.columns) == Some(s.columns[g].name)
    {
      FlaggedInside(s.columns, g);
      FirstKeyAt(s.columns, g);
    }
    if i :| 0 <= i < |s.columns| && s.columns[i].primaryKey {
      var f := FlaggedOf(s.columns, i);
    } else {
      NoKey(s.columns);
    }
  }

  lemma {:induction false} FlaggedInside(columns: seq<ColumnDef>, f: nat)
    requires FirstFlagged(columns, f)
    ensures f < |columns| && columns[f].primaryKey
  {
  }

  lemma {:induction false} FlaggedOf(columns: seq<ColumnDef>, i: nat) returns (f: nat)
    requires i < |columns| && columns[i].primaryKey
    ensures FirstFlagged(columns, f)
  {
    f := i;
    if j :| 0 <= j < i && columns[j].primaryKey { f := FlaggedOf(columns, j); }
  }

  // --- Writing ---

  function EncodeU32(n: nat): (r: seq<byte>)
    ensures |r| == 4
  {
    LE(n % U32, 4)
  }

  function EncodeName(s: Name): seq<byte> {
    EncodeU32(|s|) + s
  }

  function TypeTag(ty: DataType): byte {
    match ty case IntType => 0 case TextType => 1 case FloatType => 2
  }

  /** A column; version 1 has no primary-key flag. */
  function EncodeColumn(c: ColumnDef, version: nat): seq<byte> {
    EncodeName(c.name) + [TypeTag(c.ty)] + if version >= 2 then [if c.primaryKey then 1 else 0] else []
  }

  function EncodeColumns(cs: seq<ColumnDef>, version: nat): seq<byte> {
    if cs == [] then [] else EncodeColumn(cs[0], version) + EncodeColumns(cs[1..], version)
  }

  function EncodeTable(s: Schema, version: nat): seq<byte> {
    EncodeName(s.name) + EncodeU32(|s.columns|) + EncodeColumns(s.columns, version)
  }

  function EncodeTables(ts: seq<Schema>, version: nat): seq<byte> {
    if ts == [] then [] else EncodeTable(ts[0], version) + EncodeTables(ts[1..], version)
  }

  function EncodeDefs(ds: seq<(Name, Name)>): seq<byte> {
    if ds == [] then [] else EncodeName(ds[0].0) + EncodeName(ds[0].1) + EncodeDefs(ds[1..])
  }

  /** The file `save` writes when it meets the tables in the order `ts`. */
  function SavedFile(ts: seq<Schema>, defs: seq<(Name, Name)>): seq<byte> {
    EncodeU32(MAGIC) + [2] + EncodeU32(|ts|) + EncodeTables(ts, 2) + EncodeU32(|defs|) + EncodeDefs(defs)
  }

  /** The older format: no magic number, no flags, no index definitions. */
  function OldFile(ts: seq<Schema>): seq<byte> {
    EncodeU32(|ts|) + EncodeTables(ts, 1)
  }

  lemma {:induction false} ColumnsSnoc(cs: seq<ColumnDef>, c: ColumnDef, version: nat)
    ensures EncodeColumns(cs + [c], version) == EncodeColumns(cs, version) + EncodeColumn(c, version)
  {
    hide EncodeColumn;
    if cs == [] {
      assert [c][1..] == [];
    } else {
      assert (cs + [c])[1..] == cs[1..] + [c];
      ColumnsSnoc(cs[1..], c, version);
    }
  }

  lemma {:induction false} TablesSnoc(ts: seq<Schema>, t: Schema, version: nat)
    ensures EncodeTables(ts + [t], version) == EncodeTables(ts, version) + EncodeTable(t, version)
  {
    hide EncodeTable;
    if ts == [] {
      assert [t][1..] == [];
    } else {
      assert (ts + [t])[1..] == ts[1..] + [t];
      TablesSnoc(ts[1..], t, version);
    }
  }

  lemma {:induction false} DefsSnoc(ds: seq<(Name, Name)>, d: (Name, Name))
    ensures EncodeDefs(ds + [d]) == EncodeDefs(ds) + (EncodeName(d.0) + EncodeName(d.1))
  {
    hide EncodeName;
    if ds == [] {
      assert [d][1..] == [];
    } else {
      assert (ds + [d])[1..] == ds[1..] + [d];
      DefsSnoc(ds[1..], d);
    }
  }

  // --- Reading: each reader gives a value and the bytes after it ---

  function ReadU32(b: seq<byte>): (r: Result<(nat, seq<byte>)>) {
    if |b| < 4 then Err("catalog truncated") else Ok((UnLE(b[..4]), b[4..]))
  }

  function ReadName(b: seq<byte>): (r: Result<(Name, seq<byte>)>) {
    var len := ReadU32(b);
    if len.Err? then Err(len.error)
    else if |len.value.1| < len.value.0 then Err("catalog string truncated")
    else if !ValidUtf8(len.value.1[..len.value.0]) then Err("invalid utf8 in catalog")
    else Ok((len.value.1[..len.value.0], len.value.1[len.value.0..]))
  }

  function TagType(tag: byte): Option<DataType> {
    if tag == 0 then Some(IntType) else if tag == 1 then Some(TextType) else if tag == 2 then Some(FloatType) else None
  }

  function ReadColumn(version: nat, b: seq<byte>): (r: Result<(ColumnDef, seq<byte>)>) {
    var name := ReadName(b);
    if name.Err? then Err(name.error)
    else
      var rest := name.value.1;
      if rest == [] then Err("catalog col type missing")
      else if TagType(rest[0]).None? then Err("unknown type tag in catalog")
      else if version < 2 then Ok((ColumnDef(name.value.0, TagType(rest[0]).value, false), rest[1..]))
      else if |rest| < 2 then Err("catalog pk flag missing")
      else Ok((ColumnDef(name.value.0, TagType(rest[0]).value, rest[1] == 1), rest[2..]))
  }

  function ReadColumns(n: nat, version: nat, b: seq<byte>, got: seq<ColumnDef>): Result<(seq<ColumnDef>, seq<byte>)> {
    if n == 0 then Ok((got, b))
    else
      var c := ReadColumn(version, b);
      if c.Err? then Err(c.error) else ReadColumns(n - 1, version, c.value.1, got + [c.value.0])
  }

  function ReadTable(version: nat, b: seq<byte>): Result<(Schema, seq<byte>)> {
    var name := ReadName(b);
    if name.Err? then Err(name.error)
    else
      var n := ReadU32(name.value.1);
      if n.Err? then Err(n.error)
      else
        var cs := ReadColumns(n.value.0, version, n.value.1, []);
        if cs.Err? then Err(cs.error) else Ok((NewSchema(name.value.0, cs.value.0), cs.value.1))
  }

  /** A later table of the same name replaces an earlier one. */
  function ReadTables(n: nat, version: nat, b: seq<byte>,
                      got: map<Name, Schema>): Result<(map<Name, Schema>, seq<byte>)> {
    if n == 0 then Ok((got, b))
    else
      var t := ReadTable(version, b);
      if t.Err? then Err(t.error) else ReadTables(n - 1, version, t.value.1, got[t.value.0.name := t.value.0])
  }

  function ReadDefs(n: nat, b: seq<byte>, got: seq<(Name, Name)>): Result<seq<(Name, Name)>> {
    if n == 0 then Ok(got)
    else
      var t := ReadName(b);
      if t.Err? then Err(t.error)
      else
        var c := ReadName(t.value.1);
        if c.Err? then Err(c.error) else ReadDefs(n - 1, c.value.1, got + [(t.value.0, c.value.0)])
  }

  /** The version, the number of tables, and the bytes after them. */
  function ReadHeader(b: seq<byte>): Result<(nat, nat, seq<byte>)> {
    var first := ReadU32(b);
    if first.Err? then Err(first.error)
    else if first.value.0 != MAGIC then Ok((1, first.value.0, first.value.1))
    else if first.value.1 == [] then Err("catalog version missing")
    else
      var n := ReadU32(first.value.1[1..]);
      if n.Err? then Err(n.error) else Ok((first.value.1[0], n.value.0, n.value.1))
  }

  function LoadFile(b: seq<byte>): Result<Catalog> {
    var h := ReadHeader(b);
    if h.Err? then Err(h.error)
    else
      var ts := ReadTables(h.value.1, h.value.0, h.value.2, map[]);
      if ts.Err? then Err(ts.error)
      else if h.value.0 < 2 || ts.value.1 == [] then Ok(Catalog(ts.value.0, []))
      else
        var n := ReadU32(ts.value.1);
        if n.Err? then Err(n.error)
        else
          var ds := ReadDefs(n.value.0, n.value.1, []);
          if ds.Err? then Err(ds.error) else Ok(Catalog(ts.value.0, ds.value))
  }

  // --- Reading undoes writing ---

  predicate ShortName(s: Name) {
    |s| < U32
  }

  predicate ShortColumns(cs: seq<ColumnDef>) {
    |cs| < U32 && forall i :: 0 <= i < |cs| ==> ShortName(cs[i].name)
  }

  predicate ShortTables(ts: seq<Schema>) {
    |ts| < U32 && forall i :: 0 <= i < |ts| ==> ShortName(ts[i].name) && ShortColumns(ts[i].columns)
  }

  predicate ShortDefs(ds: seq<(Name, Name)>) {
    |ds| < U32 && forall i :: 0 <= i < |ds| ==> ShortName(ds[i].0) && ShortName(ds[i].1)
  }

  lemma {:induction false} U32Back(n: nat, tail: seq<byte>)
    requires n < U32
    ensures ReadU32(EncodeU32(n) + tail) == Ok((n, tail))
  {
    hide LE, UnLE, Pow256;
    Widths();
    LERoundTrip(n, 4);
    var b := EncodeU32(n) + tail;
    assert b[..4] == EncodeU32(n) && b[4..] == tail;
  }

  lemma {:induction false} NameBack(s: Name, tail: seq<byte>)
    requires ShortName(s)
    ensures ReadName(EncodeName(s) + tail) == Ok((s, tail))
  {
    hide EncodeU32, ReadU32;
    U32Back(|s|, s + tail);
    assert EncodeName(s) + tail == EncodeU32(|s|) + (s + tail);
    assert (s + tail)[..|s|] == s && (s + tail)[|s|..] == tail;
  }

  /** The column as its version stores it. */
  function AsStored(c: ColumnDef, version: nat): ColumnDef {
    if version >= 2 then c else c.(primaryKey := false)
  }

  lemma {:induction false} ColumnBack(c: ColumnDef, version: nat, tail: seq<byte>)
    requires ShortName(c.name)
    ensures ReadColumn(version, EncodeColumn(c, version) + tail) == Ok((AsStored(c, version), tail))
  {
    hide EncodeName, ReadName;
    var rest := [TypeTag(c.ty)] + (if version >= 2 then [if c.primaryKey then 1 else 0] else []) + tail;
    assert EncodeColumn(c, version) + tail == EncodeName(c.name) + rest;
    NameBack(c.name, rest);
    if version >= 2 {
      assert rest[2..] == tail;
    } else {
      assert rest[1..] == tail;
    }
  }

  function AllStored(cs: seq<ColumnDef>, version: nat): (r: seq<ColumnDef>)
    ensures |r| == |cs| && (version >= 2 ==> r == cs)
  {
    if cs == [] then [] else [AsStored(cs[0], version)] + AllStored(cs[1..], version)
  }

  lemma {:induction false} ColumnsBack(cs: seq<ColumnDef>, version: nat, tail: seq<byte>, got: seq<ColumnDef>)
    requires forall i :: 0 <= i < |cs| ==> ShortName(cs[i].name)
    ensures ReadColumns(|cs|, version, EncodeColumns(cs, version) + tail, got) ==
            Ok((got + AllStored(cs, version), tail))
    decreases |cs|
  {
    hide EncodeColumn, ReadColumn, ShortName, AsStored;
    if cs == [] {
      assert got + [] == got && [] + tail == tail;
    } else {
      var rest := EncodeColumns(cs[1..], version) + tail;
      assert EncodeColumns(cs, version) + tail == EncodeColumn(cs[0], version) + rest;
      ColumnBack(cs[0], version, rest);
      var c := AsStored(cs[0], version);
      ColumnsBack(cs[1..], version, tail, got + [c]);
      assert got + [c] + AllStored(cs[1..], version) == got + AllStored(cs, version);
    }
  }

  /** What a table reads back as. */
  function StoredTable(s: Schema, version: nat): Schema {
    NewSchema(s.name, AllStored(s.columns, version))
  }

  function StoredAll(tables: map<Name, Schema>, version: nat): map<Name, Schema> {
    map k | k in tables :: StoredTable(tables[k], version)
  }

  lemma {:induction false} TableBack(s: Schema, version: nat, tail: seq<byte>)
    requires ShortName(s.name) && ShortColumns(s.columns)
    ensures ReadTable(version, EncodeTable(s, version) + tail) == Ok((StoredTable(s, version), tail))
  {
    hide EncodeName, ReadName, EncodeU32, ReadU32, EncodeColumns, ReadColumns, ShortName, AllStored, FirstKey;
    var cols := EncodeColumns(s.columns, version) + tail;
    var count := EncodeU32(|s.columns|) + cols;
    assert EncodeTable(s, version) + tail == EncodeName(s.name) + count;
    NameBack(s.name, count);
    U32Back(|s.columns|, cols);
    ColumnsBack(s.columns, version, tail, []);
    assert [] + AllStored(s.columns, version) == AllStored(s.columns, version);
  }

  /** The tables entered one after the other. */
  function Entered(ts: seq<Schema>, version: nat, got: map<Name, Schema>): map<Name, Schema>
    decreases |ts|
  {
    if ts == [] then got else Entered(ts[1..], version, got[ts[0].name := StoredTable(ts[0], version)])
  }

  lemma {:induction false} TablesBack(ts: seq<Schema>, version: nat, tail: seq<byte>, got: map<Name, Schema>)
    requires forall i :: 0 <= i < |ts| ==> ShortName(ts[i].name) && ShortColumns(ts[i].columns)
    ensures ReadTables(|ts|, version, EncodeTables(ts, version) + tail, got) == Ok((Entered(ts, version, got), tail))
    decreases |ts|
  {
    hide EncodeTable, ReadTable, ShortName, ShortColumns, AllStored, FirstKey;
    if ts == [] {
      assert [] + tail == tail;
    } else {
      var rest := EncodeTables(ts[1..], version) + tail;
      assert EncodeTables(ts, version) + tail == EncodeTable(ts[0], version) + rest;
      TableBack(ts[0], version, rest);
      TablesBack(ts[1..], version, tail, got[ts[0].name := StoredTable(ts[0], version)]);
    }
  }

  lemma {:induction false} DefsBack(ds: seq<(Name, Name)>, tail: seq<byte>, got: seq<(Name, Name)>)
    requires forall i :: 0 <= i < |ds| ==> ShortName(ds[i].0) && ShortName(ds[i].1)
    ensures ReadDefs(|ds|, EncodeDefs(ds) + tail, got) == Ok(got + ds)
    decreases |ds|
  {
    hide EncodeName, ReadName, ShortName;
    if ds == [] {
      assert got + ds == got;
    } else {
      var rest := EncodeDefs(ds[1..]) + tail;
      assert EncodeDefs(ds) + tail == EncodeName(ds[0].0) + (EncodeName(ds[0].1) + rest);
      NameBack(ds[0].0, EncodeName(ds[0].1) + rest);
      NameBack(ds[0].1, rest);
      DefsBack(ds[1..], tail, got + [ds[0]]);
      assert got + [ds[0]] + ds[1..] == got + ds;
    }
  }

  /** `ts` lists the tables of the catalog, each once, in any order. */
  ghost predicate Lists(ts: seq<Schema>, tables: map<Name, Schema>) {
    && (forall i, j :: 0 <= i < j < |ts| ==> ts[i].name != ts[j].name)
    && (forall i :: 0 <= i < |ts| ==> ts[i].name in tables && tables[ts[i].name] == ts[i])
    && (forall k :: k in tables ==> exists i :: 0 <= i < |ts| && ts[i].name == k)
  }

  lemma {:induction false} EnteredHas(ts: seq<Schema>, version: nat, got: map<Name, Schema>)
    requires forall i, j :: 0 <= i < j < |ts| ==> ts[i].name != ts[j].name
    ensures var r := Entered(ts, version, got);
      && (forall k :: k in r <==> k in got || exists i :: 0 <= i < |ts| && ts[i].name == k)
      && (forall i :: 0 <= i < |ts| ==> ts[i].name in r && r[ts[i].name] == StoredTable(ts[i], version))
      && (forall k :: k in got && (forall i :: 0 <= i < |ts| ==> ts[i].name != k) ==> r[k] == got[k])
    decreases |ts|
  {
    hide StoredTable;
    if ts != [] {
      var rest := ts[1..];
      assert forall i :: 0 <= i < |rest| ==> rest[i] == ts[i + 1];
      assert forall i :: 1 <= i < |ts| ==> ts[i] == rest[i - 1];
      EnteredHas(rest, version, got[ts[0].name := StoredTable(ts[0], version)]);
    }
  }

  /** The same tables, in whatever order they were written. */
  lemma {:induction false} EnteredAll(ts: seq<Schema>, version: nat, tables: map<Name, Schema>)
    requires Lists(ts, tables)
    ensures Entered(ts, version, map[]) == StoredAll(tables, version)
  {
    hide StoredTable, Entered;
    EnteredHas(ts, version, map[]);
    var r := Entered(ts, version, map[]);
    forall k | k in tables ensures k in r && r[k] == StoredTable(tables[k], version) {
      var i :| 0 <= i < |ts| && ts[i].name == k;
    }
  }

  /** Loading what was saved gives the catalog back, keys and all, whatever the table order and whatever follows the
      file's end. */
  lemma {:induction false} LoadSaved(ts: seq<Schema>, cat: Catalog, tail: seq<byte>)
    requires Lists(ts, cat.tables) && forall k :: k in cat.tables ==> KeyRight(cat.tables[k])
    requires ShortTables(ts) && ShortDefs(cat.indexDefs)
    ensures LoadFile(SavedFile(ts, cat.indexDefs) + tail) == Ok(cat)
  {
    hide EncodeU32, ReadU32, EncodeTables, ReadTables, EncodeDefs, ReadDefs, Lists, Entered, ShortName, ShortColumns,
      FirstKey, KeyRight;
    var defs := EncodeU32(|cat.indexDefs|) + (EncodeDefs(cat.indexDefs) + tail);
    var body := EncodeTables(ts, 2) + defs;
    HeaderBack(|ts|, body);
    assert SavedFile(ts, cat.indexDefs) + tail == EncodeU32(MAGIC) + ([2] + (EncodeU32(|ts|) + body));
    TablesBack(ts, 2, defs, map[]);
    EnteredAll(ts, 2, cat.tables);
    U32Back(|cat.indexDefs|, EncodeDefs(cat.indexDefs) + tail);
    DefsBack(cat.indexDefs, tail, []);
    assert [] + cat.indexDefs == cat.indexDefs;
    forall k | k in cat.tables ensures StoredTable(cat.tables[k], 2) == cat.tables[k] {
      NewSchemaKey(cat.tables[k]);
    }
    assert StoredAll(cat.tables, 2) == cat.tables;
  }

  lemma {:induction false} HeaderBack(n: nat, body: seq<byte>)
    requires n < U32
    ensures ReadHeader(EncodeU32(MAGIC) + ([2] + (EncodeU32(n) + body))) == Ok((2, n, body))
  {
    hide EncodeU32, ReadU32;
    var rest := [2] + (EncodeU32(n) + body);
    U32Back(MAGIC, rest);
    U32Back(n, body);
    assert rest[1..] == EncodeU32(n) + body;
  }

  /** A version 1 file reads as the same tables without key flags and without indexes; the one table count that would
      read as the magic number is out of its range. */
  lemma {:induction false} LoadOld(ts: seq<Schema>, tables: map<Name, Schema>, tail: seq<byte>)
    requires Lists(ts, tables) && |ts| < MAGIC && ShortTables(ts)
    ensures var r := LoadFile(OldFile(ts) + tail);
      && r.Ok? && r.value.indexDefs == [] && r.value.tables.Keys == tables.Keys
      && forall k :: k in tables ==> KeyDropped(tables[k], r.value.tables[k])
  {
    hide EncodeU32, ReadU32, EncodeTables, ReadTables, Lists, Entered, ShortName, ShortColumns, FirstKey, StoredTable,
      KeyDropped;
    var body := EncodeTables(ts, 1) + tail;
    assert OldFile(ts) + tail == EncodeU32(|ts|) + body;
    U32Back(|ts|, body);
    TablesBack(ts, 1, tail, map[]);
    EnteredAll(ts, 1, tables);
    forall k | k in tables ensures KeyDropped(tables[k], StoredTable(tables[k], 1)) {
      OldTable(tables[k]);
    }
  }

  /** The same table with no column flagged, and so without a key. */
  ghost predicate KeyDropped(s: Schema, r: Schema) {
    && r.name == s.name && r.primaryKey == None && |r.columns| == |s.columns|
    && forall i :: 0 <= i < |s.columns| ==> r.columns[i] == ColumnDef(s.columns[i].name, s.columns[i].ty, false)
  }

  lemma {:induction false} OldTable(s: Schema)
    ensures KeyDropped(s, StoredTable(s, 1))
  {
    hide FirstKey;
    OldColumns(s.columns);
    NoKey(AllStored(s.columns, 1));
  }

  lemma {:induction false} OldColumns(cs: seq<ColumnDef>)
    ensures forall i :: 0 <= i < |cs| ==> AllStored(cs, 1)[i] == ColumnDef(cs[i].name, cs[i].ty, false)
  {
    if cs != [] { OldColumns(cs[1..]); }
  }

  // --- The methods ---

  /** `save`: the file's bytes, for the order in which the table map is iterated. */
  method Save(ts: seq<Schema>, defs: seq<(Name, Name)>) returns (buf: seq<byte>)
    ensures buf == SavedFile(ts, defs)
  {
    hide EncodeName, EncodeU32, ValidUtf8, EncodeTable;
    buf := EncodeU32(MAGIC) + [2] + EncodeU32(|ts|);
    ghost var start := buf;
    for i := 0 to |ts|
      invariant buf == start + EncodeTables(ts[..i], 2)
    {
      TablesSnoc(ts[..i], ts[i], 2);
      assert ts[..i + 1] == ts[..i] + [ts[i]];
      var table := SaveTable(ts[i]);
      buf := buf + table;
    }
    assert ts[..|ts|] == ts;
    buf := buf + EncodeU32(|defs|);
    start := buf;
    for i := 0 to |defs|
      invariant buf == start + EncodeDefs(defs[..i])
    {
      DefsSnoc(defs[..i], defs[i]);
      assert defs[..i + 1] == defs[..i] + [defs[i]];
      buf := buf + EncodeName(defs[i].0) + EncodeName(defs[i].1);
    }
    assert defs[..|defs|] == defs;
  }

  method SaveTable(s: Schema) returns (buf: seq<byte>)
    ensures buf == EncodeTable(s, 2)
  {
    hide EncodeName, EncodeU32, EncodeColumn;
    buf := EncodeName(s.name) + EncodeU32(|s.columns|);
    ghost var start := buf;
    for i := 0 to |s.columns|
      invariant buf == start + EncodeColumns(s.columns[..i], 2)
    {
      ColumnsSnoc(s.columns[..i], s.columns[i], 2);
      assert s.columns[..i + 1] == s.columns[..i] + [s.columns[i]];
      buf := buf + EncodeColumn(s.columns[i], 2);
    }
    assert s.columns[..|s.columns|] == s.columns;
  }

  /** Tables are entered under their names, with the keys their columns say. */
  ghost predicate KeysRight(tables: map<Name, Schema>) {
    forall k :: k in tables ==> tables[k].name == k && KeyRight(tables[k])
  }

  lemma {:induction false} ReadTableKey(version: nat, b: seq<byte>)
    ensures ReadTable(version, b).Ok? ==> KeyRight(ReadTable(version, b).value.0)
  {
    hide ReadName, ReadU32, ReadColumns, KeyRight;
    if ReadTable(version, b).Ok? { NewSchemaKey(ReadTable(version, b).value.0); }
  }

  /** `load`: tables and index definitions off the front of what is left. Every table loaded has the right key,
      whatever the file. */
  method Load(buf: seq<byte>) returns (r: Result<Catalog>)
    ensures r == LoadFile(buf)
    ensures r.Ok? ==> KeysRight(r.value.tables)
  {
    hide ReadHeader, ReadTable, ReadName, ReadU32, KeyRight;
    var h := ReadHeader(buf);
    if h.Err? {
      return Err(h.error);
    }
    var version, n, rest := h.value.0, h.value.1, h.value.2;
    var tables: map<Name, Schema> := map[];
    for i := 0 to n
      invariant ReadTables(n, version, h.value.2, map[]) == ReadTables(n - i, version, rest, tables)
      invariant KeysRight(tables)
    {
      ReadTableKey(version, rest);
      var t := ReadTable(version, rest);
      if t.Err? {
        return Err(t.error);
      }
      tables, rest := tables[t.value.0.name := t.value.0], t.value.1;
    }
    if version < 2 || rest == [] {
      return Ok(Catalog(tables, []));
    }
    var count := ReadU32(rest);
    if count.Err? {
      return Err(count.error);
    }
    rest := count.value.1;
    var defs: seq<(Name, Name)> := [];
    for i := 0 to count.value.0
      invariant ReadDefs(count.value.0, count.value.1, []) == ReadDefs(count.value.0 - i, rest, defs)
    {
      var t := ReadName(rest);
      if t.Err? {
        return Err(t.error);
      }
      var c := ReadName(t.value.1);
      if c.Err? {
        return Err(c.error);
      }
      defs, rest := defs + [(t.value.0, c.value.0)], c.value.1;
    }
    r := Ok(Catalog(tables, defs));
  }
}
