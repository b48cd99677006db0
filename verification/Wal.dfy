/** The write-ahead log manager of src/recovery/wal.rs over pages as lists of tuples. */
module Wal {
  import opened Common
  import opened Bytes
  import opened Slots
  import opened LogRecord
  import opened UndoPass
  import opened Recovery

  /** Same number of slots with the same lengths on every page. */
  ghost predicate SameShape(a: Pages, b: Pages) {
    forall p :: SameLengths(SlotsOf(a, p), SlotsOf(b, p))
  }

  ghost predicate SameLengths(a: Slots, b: Slots) {
    |a| == |b| && forall i :: 0 <= i < |a| ==> |a[i].bytes| == |b[i].bytes|
  }

  /** No page holds more tuple bytes than a page has. */
  ghost predicate Bounded(ps: Pages) {
    forall p :: Used(SlotsOf(ps, p)) <= PAGE_SIZE
  }

  lemma {:induction false} BoundedSet(ps: Pages, p: nat, s: Slots)
    requires Bounded(ps) && Used(s) <= PAGE_SIZE
    ensures Bounded(ps[p := s])
  {
    hide Used;
    var ps' := ps[p := s];
    forall q ensures Used(SlotsOf(ps', q)) <= PAGE_SIZE {
      assert Used(SlotsOf(ps, q)) <= PAGE_SIZE;
    }
  }

  lemma {:induction false} UsedDeleted(s: Slots, i: nat)
    ensures Used(Deleted(s, i)) == Used(s)
  {
    UsedByLengths(s, Deleted(s, i));
  }

  function WithLsn(r: LogRecord, lsn: nat): (r': LogRecord)
    ensures r'.lsn == lsn
  {
    r.(lsn := lsn)
  }

  function Prepend(rs: seq<LogRecord>, l: Log): Log {
    match l
    case Panicked => Panicked
    case Records(more) => Records(rs + more)
  }

  lemma {:induction false} ShapeFits(a: Slots, b: Slots, len: nat)
    requires SameLengths(a, b)
    ensures Fits(a, len) <==> Fits(b, len)
  {
    UsedByLengths(a, b);
  }

  lemma {:induction false} ShapeInsert(a: Pages, b: Pages, p: nat, data: seq<byte>)
    requires SameShape(a, b)
    ensures SameShape(a[p := Appended(SlotsOf(a, p), data)], b[p := Appended(SlotsOf(b, p), data)])
  {
    var a', b' := a[p := Appended(SlotsOf(a, p), data)], b[p := Appended(SlotsOf(b, p), data)];
    forall q ensures SameLengths(SlotsOf(a', q), SlotsOf(b', q)) {
      assert SameLengths(SlotsOf(a, q), SlotsOf(b, q));
    }
  }

  lemma {:induction false} ShapeDelete(a: Pages, b: Pages, p: nat, slot: nat)
    requires SameShape(a, b)
    ensures SameShape(if p in a then a[p := Deleted(a[p], slot)] else a,
                      if p in b then b[p := Deleted(b[p], slot)] else b)
  {
    var a' := if p in a then a[p := Deleted(a[p], slot)] else a;
    var b' := if p in b then b[p := Deleted(b[p], slot)] else b;
    forall q ensures SameLengths(SlotsOf(a', q), SlotsOf(b', q)) {
      assert SameLengths(SlotsOf(a, q), SlotsOf(b, q));
    }
  }

  lemma {:induction false} ShapeUpdate(a: Pages, b: Pages, p: nat, slot: nat, data: seq<byte>)
    requires SameShape(a, b)
    ensures SameShape(a, b[p := Updated(SlotsOf(b, p), slot, data)])
  {
    var b' := b[p := Updated(SlotsOf(b, p), slot, data)];
    forall q ensures SameLengths(SlotsOf(a, q), SlotsOf(b', q)) {
      assert SameLengths(SlotsOf(a, q), SlotsOf(b, q));
    }
  }

  class WalManager {
    var log: seq<byte>
    var currentLsn: nat
    var nextTxnId: nat
    var activeTxns: set<Txn>
    var pages: Pages
    /** The records behind the bytes of `log`. */
    ghost var records: seq<LogRecord>

    /** The bytes are those of a log in order. */
    ghost predicate Logged()
      reads this
    {
      log == Encode(records) && WellFormed(records) && Bounded(pages)
    }

    /** The open transaction, unless an earlier session left it. */
    ghost function Running(): Option<Txn>
      reads this
    {
      var cur := StateOf(records).cur;
      if cur.Some? && cur.value in activeTxns then cur else None
    }

    /** What this manager's own pages should hold, up to bytes that updates only log. */
    ghost function Seen(): Pages
      reads this
    {
      if Running().Some? then StateOf(records).view else StateOf(records).committed
    }

    ghost predicate Valid()
      reads this
    {
      Logged() && SameShape(pages, Seen())
    }

    /** Every id in the log was handed out by this manager, once. */
    ghost predicate OwnIds()
      reads this
    {
      UniqueIds(records) && forall i :: 0 <= i < |records| && records[i].Begin? ==> records[i].txn < nextTxnId
    }

    constructor ()
      ensures Valid() && OwnIds() && log == [] && records == [] && pages == map[] && currentLsn == 0 && nextTxnId == 1
    {
      log, currentLsn, nextTxnId, activeTxns, pages := [], 0, 1, {}, map[];
      records := [];
    }

    /** Opens an existing log file: ids and lsns start over, and the pages are empty until recovery. */
    constructor Open(bytes: seq<byte>, ghost rs: seq<LogRecord>)
      ensures log == bytes && records == rs && pages == map[] && activeTxns == {} && currentLsn == 0 && nextTxnId == 1
    {
      log, currentLsn, nextTxnId, activeTxns, pages := bytes, 0, 1, {}, map[];
      records := rs;
    }

    /** Stamps the next lsn on a record and writes its frame at the end of the log. */
    method Append(r: LogRecord) returns (lsn: nat)
      requires log == Encode(records)
      modifies this`log, this`currentLsn, this`records
      ensures lsn == old(currentLsn) && currentLsn == old(currentLsn) + 1
      ensures records == old(records) + [WithLsn(r, lsn)] && log == Encode(records)
    {
      lsn := currentLsn;
      currentLsn := currentLsn + 1;
      var stamped := WithLsn(r, lsn);
      EncodeAppend(records, stamped);
      log := log + Frame(stamped);
      records := records + [stamped];
    }

    /** A new transaction under a new id. One left open before it is dropped: its slots must not differ from the
        committed ones for this manager's pages to stay in step. */
    method BeginTxn() returns (t: Txn)
      requires Logged()
      modifies this
      ensures Logged() && Running() == Some(t) && activeTxns == old(activeTxns) + {t}
      ensures t == old(nextTxnId) && nextTxnId == t + 1 && pages == old(pages)
      ensures records == old(records) + [Begin(old(currentLsn), t)]
      ensures StateOf(records) == Next(old(StateOf(records)), Begin(old(currentLsn), t))
      ensures SameShape(old(pages), old(StateOf(records)).committed) ==> Valid()
      ensures old(OwnIds()) ==> OwnIds()
    {
      hide WellFormed, StateOf, Encode, SameShape, Bounded;
      t := nextTxnId;
      nextTxnId := nextTxnId + 1;
      activeTxns := activeTxns + {t};
      ghost var r := Begin(currentLsn, t);
      AppendAllowed(records, r);
      var lsn := Append(Begin(0, t));
    }

    /** Inserts into this manager's page and logs the slot used; a full page is refused. */
    method LogInsert(t: Txn, pageId: nat, data: seq<byte>) returns (r: Result<nat>)
      requires Valid() && Running() == Some(t)
      modifies this
      ensures Valid() && Running() == Some(t) && activeTxns == old(activeTxns) && nextTxnId == old(nextTxnId)
      ensures r.Ok? <==> Fits(SlotsOf(old(StateOf(records)).view, pageId), |data|)
      ensures r.Ok? ==> r.value == |SlotsOf(old(StateOf(records)).view, pageId)|
      ensures r.Ok? ==> records == old(records) + [Insert(old(currentLsn), t, pageId, r.value, data)]
      ensures r.Ok? ==>
        StateOf(records) == Next(old(StateOf(records)), Insert(old(currentLsn), t, pageId, r.value, data))
      ensures r.Err? ==> records == old(records)
      ensures old(OwnIds()) ==> OwnIds()
    {
      hide WellFormed, StateOf, Encode, SameShape, Bounded, Used;
      ghost var view := StateOf(records).view;
      ShapeAt(pages, view, pageId);
      ShapeFits(SlotsOf(pages, pageId), SlotsOf(view, pageId), |data|);
      var page := SlotsOf(pages, pageId);
      if !Fits(page, |data|) {
        ShapeTouch(pages, view, pageId);
        BoundedTouch(pages, pageId);
        pages := pages[pageId := page];
        return Err("page full");
      }
      var slotId := |page|;
      ShapeInsert(pages, view, pageId, data);
      UsedAppended(page, data);
      BoundedSet(pages, pageId, Appended(page, data));
      ghost var rec := Insert(currentLsn, t, pageId, slotId, data);
      AppendAllowed(records, rec);
      pages := pages[pageId := Appended(page, data)];
      var lsn := Append(Insert(0, t, pageId, slotId, data));
      r := Ok(slotId);
    }

    /** Tombstones in this manager's page and logs the bytes found there. */
    method LogDelete(t: Txn, pageId: nat, slotId: nat) returns (deleted: bool)
      requires Valid() && Running() == Some(t)
      modifies this
      ensures Valid() && Running() == Some(t) && activeTxns == old(activeTxns) && nextTxnId == old(nextTxnId)
      ensures deleted == Live(SlotsOf(old(pages), pageId), slotId)
      ensures var found := Get(SlotsOf(old(pages), pageId), slotId);
        var rec := Delete(old(currentLsn), t, pageId, slotId, if found.Some? then found.value else []);
        records == old(records) + [rec] && StateOf(records) == Next(old(StateOf(records)), rec)
      ensures old(OwnIds()) ==> OwnIds()
    {
      hide WellFormed, StateOf, Encode, SameShape, Bounded, Used;
      ghost var view := StateOf(records).view;
      var found := if pageId in pages then Get(pages[pageId], slotId) else None;
      var oldData := if found.Some? then found.value else [];
      deleted := pageId in pages && Live(pages[pageId], slotId);
      ghost var rec := Delete(currentLsn, t, pageId, slotId, oldData);
      AppendAllowed(records, rec);
      ShapeDelete(pages, view, pageId, slotId);
      if pageId in pages {
        UsedDeleted(pages[pageId], slotId);
        BoundedTouch(pages, pageId);
        BoundedSet(pages, pageId, Deleted(pages[pageId], slotId));
        pages := pages[pageId := Deleted(pages[pageId], slotId)];
      }
      var lsn := Append(Delete(0, t, pageId, slotId, oldData));
    }

    /** Logs an update; this manager's page is not touched. */
    method LogUpdate(t: Txn, pageId: nat, slotId: nat, oldData: seq<byte>, newData: seq<byte>)
      requires Valid() && Running() == Some(t)
      modifies this
      ensures Valid() && Running() == Some(t) && activeTxns == old(activeTxns) && nextTxnId == old(nextTxnId)
      ensures pages == old(pages)
      ensures var rec := Update(old(currentLsn), t, pageId, slotId, oldData, newData);
        records == old(records) + [rec] && StateOf(records) == Next(old(StateOf(records)), rec)
      ensures old(OwnIds()) ==> OwnIds()
    {
      hide WellFormed, StateOf, Encode, SameShape, Bounded, Used;
      ghost var view := StateOf(records).view;
      ghost var rec := Update(currentLsn, t, pageId, slotId, oldData, newData);
      AppendAllowed(records, rec);
      ShapeUpdate(pages, view, pageId, slotId, newData);
      var lsn := Append(Update(0, t, pageId, slotId, oldData, newData));
    }

    method CommitTxn(t: Txn)
      requires Valid() && Running() == Some(t)
      modifies this
      ensures Valid() && activeTxns == old(activeTxns) - {t} && Running().None?
      ensures nextTxnId == old(nextTxnId) && pages == old(pages)
      ensures records == old(records) + [Commit(old(currentLsn), t)]
      ensures StateOf(records) == Next(old(StateOf(records)), Commit(old(currentLsn), t))
      ensures old(OwnIds()) ==> OwnIds()
    {
      hide WellFormed, StateOf, Encode, SameShape, Bounded;
      ghost var r := Commit(currentLsn, t);
      AppendAllowed(records, r);
      var lsn := Append(Commit(0, t));
      activeTxns := activeTxns - {t};
    }

    /** The committed state stays. This manager's pages are not rolled back, so they stay in step only if the
        transaction changed no slot list. */
    method AbortTxn(t: Txn)
      requires Valid() && Running() == Some(t)
      modifies this
      ensures Logged() && activeTxns == old(activeTxns) - {t} && Running().None?
      ensures nextTxnId == old(nextTxnId) && pages == old(pages)
      ensures records == old(records) + [Abort(old(currentLsn), t)]
      ensures StateOf(records) == Next(old(StateOf(records)), Abort(old(currentLsn), t))
      ensures old(SameShape(StateOf(records).committed, StateOf(records).view)) ==> Valid()
      ensures old(OwnIds()) ==> OwnIds()
    {
      hide WellFormed, StateOf, Encode, SameShape, Bounded;
      ghost var r := Abort(currentLsn, t);
      AppendAllowed(records, r);
      if SameShape(StateOf(records).committed, StateOf(records).view) {
        ShapeBack(pages, StateOf(records).view, StateOf(records).committed);
      }
      var lsn := Append(Abort(0, t));
      activeTxns := activeTxns - {t};
    }

    /** Reads the log file frame by frame. */
    method ReadAllRecords() returns (r: Log)
      ensures r == ReadLog(log)
    {
      hide Parse, UnLE;
      var rs := [];
      var off := 0;
      assert log[0..] == log;
      PrependNothing(ReadLog(log));
      while off + 4 <= |log|
        invariant off <= |log|
        invariant ReadLog(log) == Prepend(rs, ReadLog(log[off..]))
        decreases |log| - off
      {
        ReadLogFrom(log, off, rs);
        var len := UnLE(log[off..off + 4]);
        off := off + 4;
        if off + len > |log| {
          return Records(rs);
        }
        match Parse(log[off..off + len]) {
          case Panic => return Panicked;
          case Nothing =>
          case Record(rec) => rs := rs + [rec];
        }
        off := off + len;
      }
      ReadLogShort(log, off, rs);
      r := Records(rs);
    }

    /** The three passes: collect outcomes, redo the committed, undo the unfinished from the end. A log whose inner
        lengths overrun their frame stops the program. */
    method Recover() returns (ok: bool)
      modifies this`pages
      ensures ok <==> ReadLog(log).Records?
      ensures ok ==> pages == Recovered(ReadLog(log).rs, old(pages))
      ensures !ok ==> pages == old(pages)
    {
      hide ReadLog, RedoOne, UndoOne, Committed, Aborted, Started;
      var parsed := ReadAllRecords();
      if parsed.Panicked? {
        return false;
      }
      var rs := parsed.rs;
      var committed, aborted, started: set<Txn> := {}, {}, {};
      OutcomesEmpty();
      assert rs[..0] == [];
      for i := 0 to |rs|
        invariant pages == old(pages)
        invariant committed == Committed(rs[..i]) && aborted == Aborted(rs[..i]) && started == Started(rs[..i])
      {
        assert rs[..i + 1] == rs[..i] + [rs[i]];
        OutcomesAppend(rs[..i], rs[i]);
        match rs[i] {
          case Begin(_, t) => started := started + {t};
          case Commit(_, t) => committed := committed + {t};
          case Abort(_, t) => aborted := aborted + {t};
          case _ =>
        }
      }
      assert rs[..|rs|] == rs;
      var incomplete := set t | t in started && t !in committed && t !in aborted;
      IncompleteSets(rs, started, committed, aborted, incomplete);
      for i := 0 to |rs|
        invariant pages == Redo(rs[..i], committed, old(pages))
      {
        assert rs[..i + 1][..i] == rs[..i] && rs[..i + 1][i] == rs[i];
        pages := RedoOne(pages, rs[i], committed);
      }
      ghost var goal := Undo(rs, incomplete, pages);
      for i := |rs| downto 0
        invariant Undo(rs[..i], incomplete, pages) == goal
      {
        assert rs[..i + 1][..i] == rs[..i] && rs[..i + 1][i] == rs[i];
        pages := UndoOne(pages, rs[i], incomplete);
      }
      ok := true;
    }
  }

  /** The file is the log `rs` in whole frames, and recovery from it is exact. */
  ghost predicate Resumable(bytes: seq<byte>, rs: seq<LogRecord>) {
    && bytes == Encode(rs) && (forall i :: 0 <= i < |rs| ==> Encodable(rs[i])) && WellFormed(rs) && FatesAgree(rs)
    && Harmless(rs, Incomplete(rs), StateOf(rs).committed)
  }

  /** Opening a log file and recovering from it. Where the file is the log `rs` in whole frames and recovery is
      exact, the manager is in step with it and can go on. */
  method Restart(bytes: seq<byte>, ghost rs: seq<LogRecord>) returns (w: WalManager, ok: bool)
    ensures fresh(w) && w.log == bytes && w.activeTxns == {} && w.currentLsn == 0 && w.nextTxnId == 1
    ensures ok <==> ReadLog(bytes).Records?
    ensures ok ==> w.pages == Recovered(ReadLog(bytes).rs, map[])
    ensures Resumable(bytes, rs) ==> ok && w.records == rs && w.Valid()
  {
    hide ReadLog, WellFormed, StateOf, Encode, SameShape, Bounded, Recovered, FatesAgree, Harmless, Incomplete;
    w := new WalManager.Open(bytes, rs);
    ok := w.Recover();
    if Resumable(bytes, rs) {
      ReadBack(rs);
      RecoverExact(rs);
      SameSlotsShape(Recovered(rs, map[]), StateOf(rs).committed);
      CommittedBounded(rs);
      BoundedSame(StateOf(rs).committed, Recovered(rs, map[]));
    }
  }

  // --- Facts used by the methods above ---

  lemma {:induction false} ShapeAt(a: Pages, b: Pages, p: nat)
    requires SameShape(a, b)
    ensures SameLengths(SlotsOf(a, p), SlotsOf(b, p))
  {
  }

  lemma {:induction false} ShapeTrans(a: Pages, b: Pages, c: Pages)
    requires SameShape(a, b) && SameShape(b, c)
    ensures SameShape(a, c) && SameShape(b, a)
  {
    forall q ensures SameLengths(SlotsOf(a, q), SlotsOf(c, q)) && SameLengths(SlotsOf(b, q), SlotsOf(a, q)) {
      assert SameLengths(SlotsOf(a, q), SlotsOf(b, q)) && SameLengths(SlotsOf(b, q), SlotsOf(c, q));
    }
  }

  lemma {:induction false} ShapeFlip(a: Pages, b: Pages)
    requires SameShape(a, b)
    ensures SameShape(b, a)
  {
    forall q ensures SameLengths(SlotsOf(b, q), SlotsOf(a, q)) {
      assert SameLengths(SlotsOf(a, q), SlotsOf(b, q));
    }
  }

  lemma {:induction false} ShapeWithEmpty(a: Pages, b: Pages, p: nat)
    requires SameShape(a, b) && p !in b
    ensures SameShape(a, b[p := []])
  {
    var b' := b[p := []];
    forall q ensures SameLengths(SlotsOf(a, q), SlotsOf(b', q)) {
      assert SameLengths(SlotsOf(a, q), SlotsOf(b, q));
    }
  }

  lemma {:induction false} ShapeRefl(a: Pages)
    ensures SameShape(a, a)
  {
  }

  /** Tombstones and in-place updates keep the shape. */
  lemma {:induction false} ShapeOfChange(a: Pages, p: nat, slot: nat, data: seq<byte>)
    requires p in a
    ensures SameShape(a, a[p := Deleted(a[p], slot)]) && SameShape(a, a[p := Updated(a[p], slot, data)])
  {
  }

  lemma {:induction false} ShapeTouch(a: Pages, b: Pages, p: nat)
    requires SameShape(a, b)
    ensures SameShape(a[p := SlotsOf(a, p)], b)
  {
    var a' := a[p := SlotsOf(a, p)];
    forall q ensures SameLengths(SlotsOf(a', q), SlotsOf(b, q)) {
      assert SameLengths(SlotsOf(a, q), SlotsOf(b, q));
    }
  }

  lemma {:induction false} BoundedTouch(ps: Pages, p: nat)
    requires Bounded(ps)
    ensures Used(SlotsOf(ps, p)) <= PAGE_SIZE && Bounded(ps[p := SlotsOf(ps, p)])
  {
    BoundedSet(ps, p, SlotsOf(ps, p));
  }

  lemma {:induction false} ShapeBack(a: Pages, b: Pages, c: Pages)
    requires SameShape(a, b) && SameShape(c, b)
    ensures SameShape(a, c)
  {
    forall q ensures SameLengths(SlotsOf(a, q), SlotsOf(c, q)) {
      assert SameLengths(SlotsOf(a, q), SlotsOf(b, q)) && SameLengths(SlotsOf(c, q), SlotsOf(b, q));
    }
  }

  lemma {:induction false} PrependNothing(l: Log)
    ensures Prepend([], l) == l
  {
    match l
    case Panicked =>
    case Records(rs) => assert [] + rs == rs;
  }

  /** One iteration of the reading loop. */
  lemma {:induction false} ReadLogFrom(b: seq<byte>, off: nat, rs: seq<LogRecord>)
    requires off + 4 <= |b|
    ensures var len := UnLE(b[off..off + 4]);
      Prepend(rs, ReadLog(b[off..])) ==
        if off + 4 + len > |b| then Records(rs)
        else match Parse(b[off + 4..off + 4 + len])
          case Panic => Panicked
          case Nothing => Prepend(rs, ReadLog(b[off + 4 + len..]))
          case Record(r) => Prepend(rs + [r], ReadLog(b[off + 4 + len..]))
  {
    hide Parse, UnLE;
    var c := b[off..];
    var len := UnLE(b[off..off + 4]);
    assert c[..4] == b[off..off + 4];
    assert rs + [] == rs;
    if off + 4 + len <= |b| {
      assert c[4..4 + len] == b[off + 4..off + 4 + len] && c[4 + len..] == b[off + 4 + len..];
      match Parse(b[off + 4..off + 4 + len])
      case Panic =>
      case Nothing =>
      case Record(r) =>
        match ReadLog(c[4 + len..])
        case Panicked =>
        case Records(more) => assert rs + ([r] + more) == (rs + [r]) + more;
    }
  }

  lemma {:induction false} ReadLogShort(b: seq<byte>, off: nat, rs: seq<LogRecord>)
    requires off <= |b| < off + 4
    ensures Prepend(rs, ReadLog(b[off..])) == Records(rs)
  {
    assert rs + [] == rs;
  }

  lemma {:induction false} OutcomesEmpty()
    ensures Committed([]) == {} && Aborted([]) == {} && Started([]) == {}
  {
  }

  lemma {:induction false} IncompleteSets(rs: seq<LogRecord>, started: set<Txn>, committed: set<Txn>, aborted: set<Txn>,
                                          incomplete: set<Txn>)
    requires started == Started(rs) && committed == Committed(rs) && aborted == Aborted(rs)
    requires incomplete == set t | t in started && t !in committed && t !in aborted
    ensures incomplete == Incomplete(rs)
  {
  }

  lemma {:induction false} SameSlotsShape(a: Pages, b: Pages)
    requires SameSlots(a, b)
    ensures SameShape(a, b)
  {
    forall p ensures SameLengths(SlotsOf(a, p), SlotsOf(b, p)) {
      assert SlotsOf(a, p) == SlotsOf(b, p);
    }
  }

  lemma {:induction false} BoundedSame(a: Pages, b: Pages)
    requires Bounded(a) && SameSlots(b, a)
    ensures Bounded(b)
  {
    hide Used;
    forall p ensures Used(SlotsOf(b, p)) <= PAGE_SIZE {
      assert SlotsOf(b, p) == SlotsOf(a, p) && Used(SlotsOf(a, p)) <= PAGE_SIZE;
    }
  }

  /** A log in order never overfills a page. */
  lemma {:induction false} CommittedBounded(rs: seq<LogRecord>)
    requires WellFormed(rs)
    ensures Bounded(StateOf(rs).committed) && Bounded(StateOf(rs).view)
  {
    hide Bounded, Next, Allowed;
    if rs == [] {
      NothingBounded();
    } else {
      CommittedBounded(rs[..|rs| - 1]);
      NextBounded(StateOf(rs[..|rs| - 1]), rs[|rs| - 1]);
    }
  }

  lemma {:induction false} NothingBounded()
    ensures Bounded(map[])
  {
  }

  lemma {:induction false} NextBounded(ls: LogState, r: LogRecord)
    requires Allowed(ls, r) && Bounded(ls.committed) && Bounded(ls.view)
    ensures Bounded(Next(ls, r).committed) && Bounded(Next(ls, r).view)
  {
    hide Bounded, Used;
    if r.Insert? || r.Delete? || r.Update? {
      var s := SlotsOf(ls.view, r.pageId);
      BoundedTouch(ls.view, r.pageId);
      if r.Insert? {
        UsedAppended(s, r.data);
        BoundedSet(ls.view, r.pageId, Appended(s, r.data));
      } else if r.Delete? {
        UsedDeleted(s, r.slotId);
        BoundedSet(ls.view, r.pageId, Deleted(s, r.slotId));
      } else {
        UsedByLengths(s, Updated(s, r.slotId, r.newData));
        BoundedSet(ls.view, r.pageId, Updated(s, r.slotId, r.newData));
      }
    }
  }

  /** Whatever part of a manager's log survives a crash: reopening it recovers the tuples of the last wholly logged
      Commit exactly when undo is harmless to them. If the log is the manager's own from the start, with no
      transaction abandoned in the middle and updates logged truly, exactly when the transaction cut short deleted
      nothing that fits back. */
  lemma {:induction false} RestartRecovers(w: WalManager, n: nat)
    requires w.Logged() && (forall i :: 0 <= i < |w.records| ==> Encodable(w.records[i])) && n <= |w.log|
    ensures var rs := w.records[..WholeRecords(w.records, n)];
      && ReadLog(w.log[..n]) == Records(rs)
      && (FatesAgree(rs) ==>
            (SameSlots(Recovered(rs, map[]), StateOf(rs).committed) <==>
             Harmless(rs, Incomplete(rs), StateOf(rs).committed)))
      && (w.OwnIds() ==> FatesAgree(rs))
      && (w.OwnIds() && NoneAbandoned(w.records) && TrueUpdates(w.records) ==>
            (SameSlots(Recovered(rs, map[]), StateOf(rs).committed) <==>
             !DeleteFits(rs, Incomplete(rs), StateOf(rs).committed)))
  {
    hide WellFormed, StateOf, Encode, Recovered, SameSlots, ReadLog, WholeRecords, Encodable, FatesAgree, Harmless,
      DeleteFits, NoneAbandoned, TrueUpdates;
    CrashRecovery(w.records, n);
  }
}
