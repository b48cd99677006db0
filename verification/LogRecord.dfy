/** Log records and their framed byte encoding (src/recovery/log_record.rs, framing in src/recovery/wal.rs). */
module LogRecord {
  import opened Bytes

  datatype LogRecord =
    | Begin(lsn: nat, txn: nat)
    | Insert(lsn: nat, txn: nat, pageId: nat, slotId: nat, data: seq<byte>)
    | Delete(lsn: nat, txn: nat, pageId: nat, slotId: nat, oldData: seq<byte>)
    | Update(lsn: nat, txn: nat, pageId: nat, slotId: nat, oldData: seq<byte>, newData: seq<byte>)
    | Commit(lsn: nat, txn: nat)
    | Abort(lsn: nat, txn: nat)
    | Checkpoint(lsn: nat)

  /** Fields fit their integer widths and the whole record fits its u32 length prefix. */
  predicate Encodable(r: LogRecord) {
    && r.lsn < 0x1_0000_0000_0000_0000
    && (!r.Checkpoint? ==> r.txn < 0x1_0000_0000)
    && (r.Insert? || r.Delete? || r.Update? ==> r.pageId < 0x1_0000_0000 && r.slotId < 0x1_0000)
    && |Payload(r)| < 0x1_0000_0000
  }

  function Blob(data: seq<byte>): seq<byte> {
    LE(|data|, 4) + data
  }

  /** Type byte, then the fields. */
  function Payload(r: LogRecord): (b: seq<byte>)
    ensures |b| > 0
  {
    match r
    case Begin(lsn, txn) => [0] + (LE(lsn, 8) + LE(txn, 4))
    case Insert(lsn, txn, page, slot, data) =>
      [1] + (LE(lsn, 8) + (LE(txn, 4) + (LE(page, 4) + (LE(slot, 2) + Blob(data)))))
    case Delete(lsn, txn, page, slot, before) =>
      [2] + (LE(lsn, 8) + (LE(txn, 4) + (LE(page, 4) + (LE(slot, 2) + Blob(before)))))
    case Update(lsn, txn, page, slot, before, after) =>
      [3] + (LE(lsn, 8) + (LE(txn, 4) + (LE(page, 4) + (LE(slot, 2) + (Blob(before) + Blob(after))))))
    case Commit(lsn, txn) => [4] + (LE(lsn, 8) + LE(txn, 4))
    case Abort(lsn, txn) => [5] + (LE(lsn, 8) + LE(txn, 4))
    case Checkpoint(lsn) => [6] + LE(lsn, 8)
  }

  /** `to_bytes`: the payload behind its length. */
  function Frame(r: LogRecord): seq<byte> {
    LE(|Payload(r)|, 4) + Payload(r)
  }

  /** Reading past the end of a record panics; an unknown type byte or an empty record gives nothing. */
  datatype Parsed = Panic | Nothing | Record(r: LogRecord)

  datatype Field<T> = Short | Read(value: T, rest: seq<byte>)

  function ReadInt(b: seq<byte>, width: nat): Field<nat> {
    if |b| < width then Short else Read(UnLE(b[..width]), b[width..])
  }

  function ReadBlob(b: seq<byte>): Field<seq<byte>> {
    match ReadInt(b, 4)
    case Short => Short
    case Read(len, rest) => if |rest| < len then Short else Read(rest[..len], rest[len..])
  }

  datatype Where = Where(lsn: nat, txn: nat, pageId: nat, slotId: nat)

  function ReadWhere(b: seq<byte>): Field<Where> {
    match ReadInt(b, 8)
    case Short => Short
    case Read(lsn, b1) =>
      match ReadInt(b1, 4)
      case Short => Short
      case Read(txn, b2) =>
        match ReadInt(b2, 4)
        case Short => Short
        case Read(page, b3) =>
          match ReadInt(b3, 2)
          case Short => Short
          case Read(slot, b4) => Read(Where(lsn, txn, page, slot), b4)
  }

  function ReadLsnTxn(b: seq<byte>): Field<(nat, nat)> {
    match ReadInt(b, 8)
    case Short => Short
    case Read(lsn, b1) =>
      match ReadInt(b1, 4)
      case Short => Short
      case Read(txn, b2) => Read((lsn, txn), b2)
  }

  /** `from_bytes`: trailing bytes of a record are ignored. */
  function Parse(b: seq<byte>): Parsed {
    if b == [] then Nothing
    else if b[0] == 0 || b[0] == 4 || b[0] == 5 then
      match ReadLsnTxn(b[1..])
      case Short => Panic
      case Read((lsn, txn), _) =>
        Record(if b[0] == 0 then Begin(lsn, txn) else if b[0] == 4 then Commit(lsn, txn) else Abort(lsn, txn))
    else if b[0] == 1 || b[0] == 2 then
      match ReadWhere(b[1..])
      case Short => Panic
      case Read(w, b1) =>
        (match ReadBlob(b1)
         case Short => Panic
         case Read(data, _) =>
           Record(if b[0] == 1 then Insert(w.lsn, w.txn, w.pageId, w.slotId, data)
                  else Delete(w.lsn, w.txn, w.pageId, w.slotId, data)))
    else if b[0] == 3 then
      match ReadWhere(b[1..])
      case Short => Panic
      case Read(w, b1) =>
        (match ReadBlob(b1)
         case Short => Panic
         case Read(before, b2) =>
           match ReadBlob(b2)
           case Short => Panic
           case Read(after, _) => Record(Update(w.lsn, w.txn, w.pageId, w.slotId, before, after)))
    else if b[0] == 6 then
      match ReadInt(b[1..], 8)
      case Short => Panic
      case Read(lsn, _) => Record(Checkpoint(lsn))
    else Nothing
  }

  lemma {:induction false} ReadIntBack(n: nat, width: nat, rest: seq<byte>)
    requires n < Pow256(width)
    ensures ReadInt(LE(n, width) + rest, width) == Read(n, rest)
  {
    LERoundTrip(n, width);
    var b := LE(n, width) + rest;
    assert b[..width] == LE(n, width) && b[width..] == rest;
  }

  lemma {:induction false} ReadBlobBack(data: seq<byte>, rest: seq<byte>)
    requires |data| < 0x1_0000_0000
    ensures ReadBlob(Blob(data) + rest) == Read(data, rest)
  {
    hide LE, UnLE, Pow256, ReadInt;
    Widths();
    ReadIntBack(|data|, 4, data + rest);
    assert Blob(data) + rest == LE(|data|, 4) + (data + rest);
  }

  lemma {:induction false} ReadWhereBack(w: Where, rest: seq<byte>)
    requires w.lsn < 0x1_0000_0000_0000_0000 && w.txn < 0x1_0000_0000 && w.pageId < 0x1_0000_0000 && w.slotId < 0x1_0000
    ensures ReadWhere(LE(w.lsn, 8) + (LE(w.txn, 4) + (LE(w.pageId, 4) + (LE(w.slotId, 2) + rest)))) == Read(w, rest)
  {
    hide LE, UnLE, Pow256, ReadInt;
    Widths();
    ReadIntBack(w.slotId, 2, rest);
    ReadIntBack(w.pageId, 4, LE(w.slotId, 2) + rest);
    ReadIntBack(w.txn, 4, LE(w.pageId, 4) + (LE(w.slotId, 2) + rest));
    ReadIntBack(w.lsn, 8, LE(w.txn, 4) + (LE(w.pageId, 4) + (LE(w.slotId, 2) + rest)));
  }

  lemma {:induction false} ReadLsnTxnBack(lsn: nat, txn: nat, tail: seq<byte>)
    requires lsn < 0x1_0000_0000_0000_0000 && txn < 0x1_0000_0000
    ensures ReadLsnTxn(LE(lsn, 8) + (LE(txn, 4) + tail)) == Read((lsn, txn), tail)
  {
    hide LE, UnLE, Pow256, ReadInt;
    Widths();
    ReadIntBack(txn, 4, tail);
    ReadIntBack(lsn, 8, LE(txn, 4) + tail);
  }

  /** `from_bytes` undoes `to_bytes`, for every kind of record and whatever follows it. */
  lemma {:induction false} ParseBack(r: LogRecord, tail: seq<byte>)
    requires Encodable(r)
    ensures Parse(Payload(r) + tail) == Record(r)
  {
    hide LE, UnLE, Pow256, ReadWhere, ReadBlob, ReadLsnTxn, Blob;
    var b := Payload(r) + tail;
    if r.Begin? || r.Commit? || r.Abort? {
      ReadLsnTxnBack(r.lsn, r.txn, tail);
      assert b[1..] == LE(r.lsn, 8) + (LE(r.txn, 4) + tail);
    } else if r.Checkpoint? {
      Widths();
      ReadIntBack(r.lsn, 8, tail);
      assert b[1..] == LE(r.lsn, 8) + tail;
    } else if r.Update? {
      ParseBackUpdate(r, tail);
    } else {
      ParseBackBlob(r, if r.Insert? then r.data else r.oldData, tail);
    }
  }

  lemma {:induction false} BlobSize(data: seq<byte>)
    ensures |Blob(data)| == 4 + |data|
  {
  }

  lemma {:induction false} Behind(a: seq<byte>, b: seq<byte>, c: seq<byte>, d: seq<byte>, e: seq<byte>, tail: seq<byte>)
    ensures a + (b + (c + (d + e))) + tail == a + (b + (c + (d + (e + tail))))
  {
    assert d + e + tail == d + (e + tail);
    assert c + (d + e) + tail == c + (d + e + tail);
    assert b + (c + (d + e)) + tail == b + (c + (d + e) + tail);
    assert a + (b + (c + (d + e))) + tail == a + (b + (c + (d + e)) + tail);
  }

  lemma {:induction false} TagFirst(tag: byte, s: seq<byte>, tail: seq<byte>)
    ensures ([tag] + s + tail)[0] == tag && ([tag] + s + tail)[1..] == s + tail
  {
  }

  lemma {:induction false} ParseBackBlob(r: LogRecord, data: seq<byte>, tail: seq<byte>)
    requires Encodable(r) && ((r.Insert? && data == r.data) || (r.Delete? && data == r.oldData))
    ensures Parse(Payload(r) + tail) == Record(r)
  {
    hide LE, UnLE, Pow256, ReadWhere, ReadBlob, ReadLsnTxn, Blob;
    var b := Payload(r) + tail;
    BlobSize(data);
    ReadWhereBack(Where(r.lsn, r.txn, r.pageId, r.slotId), Blob(data) + tail);
    ReadBlobBack(data, tail);
    Behind(LE(r.lsn, 8), LE(r.txn, 4), LE(r.pageId, 4), LE(r.slotId, 2), Blob(data), tail);
    TagFirst(b[0], LE(r.lsn, 8) + (LE(r.txn, 4) + (LE(r.pageId, 4) + (LE(r.slotId, 2) + Blob(data)))), tail);
  }

  lemma {:induction false} UpdateLayout(r: LogRecord, tail: seq<byte>)
    requires r.Update?
    ensures var b, after := Payload(r) + tail, Blob(r.newData) + tail;
      && b != [] && b[0] == 3
      && b[1..] == LE(r.lsn, 8) + (LE(r.txn, 4) + (LE(r.pageId, 4) + (LE(r.slotId, 2) + (Blob(r.oldData) + after))))
  {
    hide LE, Blob;
    var both := Blob(r.oldData) + Blob(r.newData);
    Behind(LE(r.lsn, 8), LE(r.txn, 4), LE(r.pageId, 4), LE(r.slotId, 2), both, tail);
    assert both + tail == Blob(r.oldData) + (Blob(r.newData) + tail);
    TagFirst(3, LE(r.lsn, 8) + (LE(r.txn, 4) + (LE(r.pageId, 4) + (LE(r.slotId, 2) + both))), tail);
  }

  lemma {:induction false} UpdateSizes(r: LogRecord)
    requires Encodable(r) && r.Update?
    ensures |r.oldData| < 0x1_0000_0000 && |r.newData| < 0x1_0000_0000
  {
    hide LE;
  }

  lemma {:induction false} ParseBackUpdate(r: LogRecord, tail: seq<byte>)
    requires Encodable(r) && r.Update?
    ensures Parse(Payload(r) + tail) == Record(r)
  {
    hide LE, UnLE, Pow256, ReadWhere, ReadBlob, ReadLsnTxn, Blob, Payload;
    UpdateSizes(r);
    UpdateLayout(r, tail);
    var after := Blob(r.newData) + tail;
    ReadWhereBack(Where(r.lsn, r.txn, r.pageId, r.slotId), Blob(r.oldData) + after);
    ReadBlobBack(r.oldData, after);
    ReadBlobBack(r.newData, tail);
  }

  // --- The log file ---

  datatype Log = Panicked | Records(rs: seq<LogRecord>)

  /** The byte image of a log. */
  function Encode(rs: seq<LogRecord>): seq<byte> {
    if rs == [] then [] else Frame(rs[0]) + Encode(rs[1..])
  }

  /** What reading a log file back gives: whole frames only, undecodable ones skipped. */
  function ReadLog(b: seq<byte>): Log
    decreases |b|
  {
    if |b| < 4 then Records([])
    else
      var len := UnLE(b[..4]);
      if 4 + len > |b| then Records([])
      else
        match Parse(b[4..4 + len])
        case Panic => Panicked
        case Nothing => ReadLog(b[4 + len..])
        case Record(r) =>
          match ReadLog(b[4 + len..])
          case Panicked => Panicked
          case Records(rs) => Records([r] + rs)
  }

  /** How many records of `rs` lie wholly within the first `n` bytes of its image. */
  function WholeRecords(rs: seq<LogRecord>, n: nat): (k: nat)
    ensures k <= |rs|
  {
    if rs == [] || n < |Frame(rs[0])| then 0 else 1 + WholeRecords(rs[1..], n - |Frame(rs[0])|)
  }

  /** `WholeRecords` is what its name says: the longest prefix whose image fits. */
  lemma {:induction false} WholeRecordsFit(rs: seq<LogRecord>, n: nat)
    ensures var k := WholeRecords(rs, n);
      |Encode(rs[..k])| <= n && (k < |rs| ==> n < |Encode(rs[..k + 1])|)
  {
    hide Frame;
    if rs != [] && n >= |Frame(rs[0])| {
      WholeRecordsFit(rs[1..], n - |Frame(rs[0])|);
      var k := WholeRecords(rs, n);
      assert rs[..k][1..] == rs[1..][..k - 1];
      assert k < |rs| ==> rs[..k + 1][1..] == rs[1..][..k];
    } else if rs != [] {
      assert rs[..1][1..] == [];
      assert Encode(rs[..1]) == Frame(rs[0]) + [];
    }
  }

  lemma {:induction false} ReadFrame(r: LogRecord, rest: seq<byte>)
    requires Encodable(r)
    ensures var b := Frame(r) + rest;
      && |b| >= 4 && UnLE(b[..4]) == |Payload(r)| && 4 + |Payload(r)| <= |b|
      && b[4..4 + |Payload(r)|] == Payload(r) && b[4 + |Payload(r)|..] == rest
  {
    hide LE, UnLE, Pow256, Payload;
    Widths();
    LERoundTrip(|Payload(r)|, 4);
    var b := Frame(r) + rest;
    assert b[..4] == LE(|Payload(r)|, 4);
  }

  /** A torn frame is ignored. */
  lemma {:induction false} TornFrame(r: LogRecord, b: seq<byte>)
    requires Encodable(r) && |b| < |Frame(r)| && b == Frame(r)[..|b|]
    ensures ReadLog(b) == Records([])
  {
    hide LE, UnLE, Pow256, Payload, Parse;
    Widths();
    LERoundTrip(|Payload(r)|, 4);
    if |b| >= 4 { assert b[..4] == LE(|Payload(r)|, 4); }
  }

  /** Cutting the log at any byte loses exactly the records that do not fit wholly before the cut. */
  lemma {:induction false} CrashCut(rs: seq<LogRecord>, n: nat)
    requires (forall i :: 0 <= i < |rs| ==> Encodable(rs[i])) && n <= |Encode(rs)|
    ensures ReadLog(Encode(rs)[..n]) == Records(rs[..WholeRecords(rs, n)])
  {
    hide Frame, Parse, Payload, UnLE, Encodable;
    if rs != [] {
      var f := Frame(rs[0]);
      var b := Encode(rs)[..n];
      if n < |f| {
        assert b == f[..n];
        TornFrame(rs[0], b);
      } else {
        var m := n - |f|;
        assert b == f + Encode(rs[1..])[..m];
        ReadFrame(rs[0], Encode(rs[1..])[..m]);
        ParseBack(rs[0], []);
        assert Payload(rs[0]) + [] == Payload(rs[0]);
        CrashCut(rs[1..], m);
        var k := WholeRecords(rs, n);
        assert rs[..k] == [rs[0]] + rs[1..][..k - 1];
      }
    }
  }

  /** A log of whole frames reads back completely. */
  lemma {:induction false} ReadBack(rs: seq<LogRecord>)
    requires forall i :: 0 <= i < |rs| ==> Encodable(rs[i])
    ensures ReadLog(Encode(rs)) == Records(rs)
  {
    hide Frame, ReadLog, Encodable;
    var n := |Encode(rs)|;
    CrashCut(rs, n);
    WholeRecordsFit(rs, n);
    var k := WholeRecords(rs, n);
    assert Encode(rs)[..n] == Encode(rs);
    if k < |rs| {
      EncodeGrows(rs, k + 1);
    }
    assert rs[..|rs|] == rs;
  }

  lemma {:induction false} EncodeGrows(rs: seq<LogRecord>, k: nat)
    requires k <= |rs|
    ensures |Encode(rs[..k])| <= |Encode(rs)|
  {
    hide Frame;
    if k > 0 {
      assert rs[..k][1..] == rs[1..][..k - 1];
      EncodeGrows(rs[1..], k - 1);
    }
  }

  lemma {:induction false} EncodeAppend(rs: seq<LogRecord>, r: LogRecord)
    ensures Encode(rs + [r]) == Encode(rs) + Frame(r)
  {
    hide Frame;
    if rs == [] {
      assert (rs + [r])[1..] == [];
      assert Encode([]) == [];
    } else {
      assert (rs + [r])[0] == rs[0] && (rs + [r])[1..] == rs[1..] + [r];
      EncodeAppend(rs[1..], r);
    }
  }
}
