/** Reopening a table after a crash (src/engine/executor.rs, `recover`): the log replayed, its pages copied over those
    of
    the database file that can be read, the index rebuilt from what the buffer pool then holds. */
module TableRecovery {
  import opened Common
  import opened Bytes
  import opened Slots
  import opened LogRecord
  import opened UndoPass
  import opened Recovery
  import opened Rows
  import opened TableSpec
  import opened TableLog
  import opened Page
  import opened PoolHeap
  import BufferPool
  import Wal
  import BTree
  import Table

  // --- Rebuilding the index ---

  /** Step 6 of `recover`: fills a new index from the pages that can be fetched, row by row, skipping rows that do not
      decode or have no integer key. */
  method RebuildIndex(columns: seq<ColumnDef>, pk: nat, ids: seq<nat>, pool: BufferPool.BufferPool, ghost heap: Heap)
    returns (index: BTree.BTree)
    requires pool.Valid(None) && pool.poolSize > 0 && PoolHolds(pool.Abs(), pool.crc, heap)
    requires Distinct(ids) && DistinctKeys(pk, RowsOf(columns, heap, ids))
    modifies pool, pool.replacer
    ensures pool.Valid(None) && PoolHolds(pool.Abs(), pool.crc, heap)
    ensures fresh(index) && index.Valid() && IndexOf(pk, RowsOf(columns, heap, ids), index.contents)
  {
    hide DecodeRow, RowsOf, Distinct, DistinctKeys, IndexOf, PoolHolds, BufferPool.PoolInv, BufferPool.Store, Layout,
      HeaderOf,
      BufferPool.SameReadable;
    ghost var rows := RowsOf(columns, heap, ids);
    index := new BTree.BTree();
    ghost var done: iset<Rid> := iset{};
    NothingIndexed(pk, rows);
    for i := 0 to |ids|
      invariant pool.Valid(None) && PoolHolds(pool.Abs(), pool.crc, heap)
      invariant fresh(index) && index.Valid() && IndexOf(pk, Within(rows, done), index.contents)
      invariant forall rid :: rid in rows && rid.pageId in ids[..i] ==> rid in done
      invariant forall rid :: rid in done ==> rid.pageId in ids[..i]
    {
      var p := ids[i];
      NotBefore(ids, i);
      assert ids[..i + 1] == ids[..i] + [p];
      OnHeap(columns, heap, ids);
      done := IndexStored(columns, pk, ids, pool, heap, p, index, done);
    }
    assert ids[..|ids|] == ids;
    Table.OnPages(columns, heap, ids);
    assert Within(rows, done) == rows;
  }

  /** One listed page: fetched, read and given back, or passed over. */
  method IndexStored(columns: seq<ColumnDef>, pk: nat, ghost ids: seq<nat>, pool: BufferPool.BufferPool,
                     ghost heap: Heap,
                     p: nat, index: BTree.BTree, ghost before: iset<Rid>)
    returns (ghost done: iset<Rid>)
    requires pool.Valid(None) && pool.poolSize > 0 && PoolHolds(pool.Abs(), pool.crc, heap)
    requires p in ids && forall rid :: rid in before ==> rid.pageId != p
    requires index.Valid() && IndexOf(pk, Within(RowsOf(columns, heap, ids), before), index.contents)
    requires DistinctKeys(pk, RowsOf(columns, heap, ids))
    modifies pool, pool.replacer, index
    ensures pool.Valid(None) && PoolHolds(pool.Abs(), pool.crc, heap)
    ensures index.Valid() && IndexOf(pk, Within(RowsOf(columns, heap, ids), done), index.contents)
    ensures forall rid :: rid in before ==> rid in done
    ensures forall rid :: rid in done ==> rid in before || rid.pageId == p
    ensures forall rid :: rid in RowsOf(columns, heap, ids) && rid.pageId == p ==> rid in done
  {
    hide DecodeRow, RowsOf, DistinctKeys, IndexOf, PoolHolds, BufferPool.PoolInv, BufferPool.Store, Layout, HeaderOf,
      BufferPool.SameReadable;
    OnHeap(columns, heap, ids);
    done := before;
    var f, page := ReadPinned(p, pool, heap);
    if f.Ok? {
      done := IndexPage(columns, pk, page.value, heap, ids, p, index, before);
      ghost var was := pool.Abs();
      pool.Unpin(f.value, false, Some(f.value));
      HoldsKept(was, pool.Abs(), pool.crc, heap);
    }
  }

  method IndexPage(columns: seq<ColumnDef>, pk: nat, page: SlottedPage, ghost heap: Heap, ghost ids: seq<nat>, p: nat,
                   index: BTree.BTree, ghost before: iset<Rid>)
    returns (ghost done: iset<Rid>)
    requires p in heap && p in ids && forall rid :: rid in before ==> rid.pageId != p
    requires page.Valid() && page.slots == heap[p]
    requires index.Valid() && IndexOf(pk, Within(RowsOf(columns, heap, ids), before), index.contents)
    requires DistinctKeys(pk, RowsOf(columns, heap, ids))
    modifies index
    ensures index.Valid() && IndexOf(pk, Within(RowsOf(columns, heap, ids), done), index.contents)
    ensures forall rid :: rid in done <==> rid in before || (rid.pageId == p && rid.slotId < |heap[p]|)
    ensures forall rid :: rid in RowsOf(columns, heap, ids) && rid.pageId == p ==> rid in done
  {
    hide DecodeRow, RowsOf, IndexOf, DistinctKeys, Layout;
    ghost var rows := RowsOf(columns, heap, ids);
    done := before;
    var numSlots := page.NumSlots();
    for slot := 0 to numSlots
      invariant index.Valid() && IndexOf(pk, Within(rows, done), index.contents)
      invariant forall rid :: rid in done <==> rid in before || (rid.pageId == p && rid.slotId < slot)
    {
      ghost var rid := Rid(p, slot);
      RowRead(columns, heap, ids, rid);
      IndexMore(pk, rows, done, index.contents, rid);
      var tuple := page.GetTuple(slot);
      if tuple.Some? {
        var row := DeserializeRow(columns, tuple.value);
        if row.Ok? && pk < |row.value| && row.value[pk].Int? {
          index.Insert(row.value[pk].n, Rid(p, slot));
        }
      }
      done := done + iset{rid};
    }
    SlotsOfRows(columns, heap, ids);
  }

  /** The rows already visited. */
  ghost function Within(rows: imap<Rid, Row>, done: iset<Rid>): imap<Rid, Row> {
    imap rid | rid in rows && rid in done :: rows[rid]
  }

  lemma {:induction false} NothingIndexed(pk: nat, rows: imap<Rid, Row>)
    ensures IndexOf(pk, Within(rows, iset{}), map[])
  {
  }

  lemma {:induction false} NotBefore(ids: seq<nat>, i: nat)
    requires Distinct(ids) && i < |ids|
    ensures ids[i] !in ids[..i]
  {
  }

  lemma {:induction false} OnHeap(columns: seq<ColumnDef>, heap: Heap, ids: seq<nat>)
    ensures forall rid :: rid in RowsOf(columns, heap, ids) ==> rid.pageId in heap
  {
    hide RowOf;
  }

  lemma {:induction false} SlotsOfRows(columns: seq<ColumnDef>, heap: Heap, ids: seq<nat>)
    ensures forall rid :: rid in RowsOf(columns, heap, ids) ==> rid.pageId in heap && rid.slotId < |heap[rid.pageId]|
  {
    hide RowOf;
  }

  lemma {:induction false} RowRead(columns: seq<ColumnDef>, heap: Heap, ids: seq<nat>, rid: Rid)
    requires rid.pageId in heap && rid.pageId in ids && rid.slotId < |heap[rid.pageId]|
    ensures rid in RowsOf(columns, heap, ids) <==> Live(heap[rid.pageId], rid.slotId)
    ensures rid in RowsOf(columns, heap, ids) ==>
      var d := DecodeRow(columns, heap[rid.pageId][rid.slotId].bytes);
      RowsOf(columns, heap, ids)[rid] == if d.Ok? then d.value else []
  {
    hide DecodeRow;
  }

  /** One more row visited: its key, if it has one, is new to the index. */
  lemma {:induction false} IndexMore(pk: nat, rows: imap<Rid, Row>, done: iset<Rid>, contents: map<int, Rid>, rid: Rid)
    requires rid !in done
    requires DistinctKeys(pk, rows)
    requires IndexOf(pk, Within(rows, done), contents)
    ensures rid in rows && pk < |rows[rid]| && rows[rid][pk].Int? ==>
      rows[rid][pk].n !in contents && IndexOf(pk, Within(rows, done + iset{rid}), contents[rows[rid][pk].n := rid])
    ensures !(rid in rows && pk < |rows[rid]| && rows[rid][pk].Int?) ==>
      IndexOf(pk, Within(rows, done + iset{rid}), contents)
  {
    var now := Within(rows, done);
    if rid in rows {
      assert Within(rows, done + iset{rid}) == now[rid := rows[rid]];
      if pk < |rows[rid]| && rows[rid][pk].Int? {
        var k := rows[rid][pk].n;
        assert k !in contents;
      }
      IndexAdd(pk, now, contents, rid, rows[rid]);
    } else {
      assert Within(rows, done + iset{rid}) == now;
    }
  }

  // --- What a crash leaves ---

  /** What a crash leaves of the log when its first `n` bytes survive. */
  ghost function Left(t: Table.Table, n: nat): seq<LogRecord>
    reads t, t.wal
  {
    t.wal.records[..WholeRecords(t.wal.records, n)]
  }

  /** The table after the last statement committed in those bytes. */
  ghost function LastCommitted(t: Table.Table, n: nat): Moment
    requires t.history != []
    reads t, t.wal
  {
    t.history[LastMoment(t.history, |Left(t, n)|)]
  }

  /** Every statement before the crash succeeded, the one it cut short aside, and all ids fit their fields. */
  ghost predicate Crashed(t: Table.Table, current: Heap, n: nat)
    reads t, t.wal
  {
    && t.wal.Logged() && t.Tidy(current) && n <= |t.wal.log| && t.history != []
    && forall i :: 0 <= i < |t.wal.records| ==> Encodable(t.wal.records[i])
  }

  ghost predicate LivePage(heap: Pages, p: nat) {
    exists slot :: Live(SlotsOf(heap, p), slot)
  }

  /** No delete cut short fits back, every listed page with a committed row can be read from the file, and a readable
      listed page the log knows nothing of holds no row. */
  ghost predicate ComesBack(rs: seq<LogRecord>, committed: Heap, stored: Heap, ids: seq<nat>) {
    && !DeleteFits(rs, Incomplete(rs), committed)
    && (forall p :: p in ids && LivePage(committed, p) ==> p in stored)
    && (forall p :: p in ids && p in stored && LivePage(stored, p) ==> p in Recovered(rs, map[]))
  }

  // --- An unfinished DELETE that fits back shows ---

  lemma {:induction false} DeletesBack(rs: seq<LogRecord>, i: nat, j: nat)
    requires i <= j < |rs| && rs[j].Delete? && OneKind(rs) && NoBoundary(rs, i, j)
    ensures rs[i].Delete?
    decreases j - i
  {
    if i < j {
      assert KindOk(rs, j);
      DeletesBack(rs, i, j - 1);
    }
  }

  /** A statement cut short that deletes does not insert, and has not updated before. */
  lemma {:induction false} OnlyDeletes(rs: seq<LogRecord>, i: nat, j: nat)
    requires i < |rs| && j < |rs| && rs[i].Delete? && rs[i].txn in Incomplete(rs)
    requires rs[j].Insert? || (rs[j].Update? && j < i)
    requires WellFormed(rs) && Orderly(rs)
    ensures rs[j].txn !in Incomplete(rs)
  {
    hide WellFormed, Incomplete, NoneAbandoned, TrueUpdates, TrueDeletes, StateOf;
    if rs[j].txn in Incomplete(rs) {
      UnfinishedIsLast(rs, i);
      UnfinishedIsLast(rs, j);
      assert KindOk(rs, j);
      if j < i {
        DeletesBack(rs, j, i);
      }
    }
  }

  /** No unfinished insert, and no unfinished update before an unfinished delete. */
  ghost predicate DeletesFirst(rs: seq<LogRecord>, incomplete: set<Txn>) {
    && (forall i :: 0 <= i < |rs| && rs[i].Insert? ==> rs[i].txn !in incomplete)
    && (forall i, j :: 0 <= j < i < |rs| && rs[i].Delete? && rs[i].txn in incomplete && rs[j].Update? ==>
          rs[j].txn !in incomplete)
  }

  /** Undoing such a log: the first delete that fits its page leaves a live tuple beyond the old ones, with the bytes
      it logged. */
  lemma {:induction false} DeleteShows(rs: seq<LogRecord>, incomplete: set<Txn>, ps: Pages, p: nat)
    returns (i: nat, slot: nat)
    requires exists i :: 0 <= i < |rs| && rs[i].Delete? && rs[i].pageId == p && Disturbs(rs[i], incomplete, ps)
    requires DeletesFirst(rs, incomplete)
    ensures i < |rs| && rs[i].Delete? && rs[i].pageId == p && rs[i].txn in incomplete
    ensures slot >= |SlotsOf(ps, p)| && Get(SlotsOf(Undo(rs, incomplete, ps), p), slot) == Some(rs[i].oldData)
  {
    var n := |rs| - 1;
    var r := rs[n];
    var ps' := UndoOne(ps, r, incomplete);
    assert forall i :: 0 <= i < n ==> rs[..n][i] == rs[i];
    if r.Delete? && r.pageId == p && Disturbs(r, incomplete, ps) {
      i, slot := n, |SlotsOf(ps, p)|;
      BytesKept(rs[..n], incomplete, ps', p, slot);
    } else {
      SamePageFrame(ps, r, incomplete, p);
      var k :| 0 <= k < |rs| && rs[k].Delete? && rs[k].pageId == p && Disturbs(rs[k], incomplete, ps);
      FitsByFrame(rs[k], incomplete, ps, ps');
      i, slot := DeleteShows(rs[..n], incomplete, ps', p);
    }
  }

  /** A tuple that no unfinished insert or update names comes through undo as it is. */
  lemma {:induction false} BytesKept(rs: seq<LogRecord>, incomplete: set<Txn>, ps: Pages, p: nat, slot: nat)
    requires Live(SlotsOf(ps, p), slot)
    requires forall i :: 0 <= i < |rs| && (rs[i].Insert? || rs[i].Update?) ==> rs[i].txn !in incomplete
    ensures Get(SlotsOf(Undo(rs, incomplete, ps), p), slot) == Some(SlotsOf(ps, p)[slot].bytes)
  {
    hide Undo, FirstCover;
    var b := SlotsOf(ps, p)[slot].bytes;
    UndoLive(rs, incomplete, ps, p, slot);
    UndoLength(rs, incomplete, ps, p, slot);
    forall k | 0 <= k < |b| ensures SlotsOf(Undo(rs, incomplete, ps), p)[slot].bytes[k] == b[k] {
      UndoByte(rs, incomplete, ps, p, slot, k);
      NoCover(rs, incomplete, p, slot, |b|, k);
    }
    assert SlotsOf(Undo(rs, incomplete, ps), p)[slot].bytes == b;
    assert !Unwritten(rs, incomplete, p, slot);
  }

  lemma {:induction false} SamePageFrame(ps: Pages, r: LogRecord, incomplete: set<Txn>, p: nat)
    requires r.Insert? ==> r.txn !in incomplete
    requires !(r.Delete? && r.pageId == p && Disturbs(r, incomplete, ps))
    ensures SameFrame(SlotsOf(UndoOne(ps, r, incomplete), p), SlotsOf(ps, p))
  {
    hide Fits;
  }

  lemma {:induction false} FitsByFrame(r: LogRecord, incomplete: set<Txn>, a: Pages, b: Pages)
    requires r.Delete? && Disturbs(r, incomplete, a) && SameFrame(SlotsOf(b, r.pageId), SlotsOf(a, r.pageId))
    ensures Disturbs(r, incomplete, b)
  {
    hide Used;
    UsedByLengths(SlotsOf(a, r.pageId), SlotsOf(b, r.pageId));
  }

  // --- What comes back ---

  /** A page list stored at or after the moment, whose later pages held nothing then. */
  ghost predicate Lists(ids: seq<nat>, m: Moment) {
    && m.pageIds <= ids && (forall p :: p in ids ==> p in m.pageIds || p !in m.heap)
    && (forall p :: p in m.heap ==> p in m.pageIds)
  }

  ghost predicate RowsBack(columns: seq<ColumnDef>, rs: seq<LogRecord>, m: Moment, stored: Heap, ids: seq<nat>) {
    RowsOf(columns, Copied(stored, Recovered(rs, map[])), ids) == RowsOf(columns, m.heap, m.pageIds)
  }

  lemma {:induction false} MakesLive(heap: Heap, p: nat, slot: nat)
    ensures Live(SlotsOf(heap, p), slot) ==> LivePage(heap, p)
  {
  }

  /** The three conditions suffice. */
  lemma {:induction false} BackIf(columns: seq<ColumnDef>, rs: seq<LogRecord>, m: Moment, stored: Heap, ids: seq<nat>)
    requires Lists(ids, m) && SameSlots(Recovered(rs, map[]), m.heap)
    requires ComesBack(rs, m.heap, stored, ids)
    ensures RowsBack(columns, rs, m, stored, ids)
  {
    hide Recovered, RowOf, DeleteFits;
    var r, heap := Recovered(rs, map[]), Copied(stored, Recovered(rs, map[]));
    forall rid: Rid ensures LiveAt(heap, ids, rid) <==> LiveAt(m.heap, m.pageIds, rid) {
      var p := rid.pageId;
      assert SlotsOf(r, p) == SlotsOf(m.heap, p);
      MakesLive(stored, p, rid.slotId);
      MakesLive(m.heap, p, rid.slotId);
    }
    forall rid: Rid | LiveAt(m.heap, m.pageIds, rid)
      ensures rid.pageId in heap && heap[rid.pageId] == m.heap[rid.pageId]
    {
      assert SlotsOf(r, rid.pageId) == SlotsOf(m.heap, rid.pageId);
      assert LiveAt(heap, ids, rid);
    }
  }

  lemma {:induction false} SameRowsSameLive(columns: seq<ColumnDef>, a: Heap, as': seq<nat>, b: Heap, bs: seq<nat>,
                                            rid: Rid)
    requires RowsOf(columns, a, as') == RowsOf(columns, b, bs)
    ensures LiveAt(a, as', rid) <==> LiveAt(b, bs, rid)
  {
    hide RowOf;
    assert rid in RowsOf(columns, a, as') <==> rid in RowsOf(columns, b, bs);
  }

  /** A page with a committed row that cannot be read is missed. */
  lemma {:induction false} BackNeedsPages(columns: seq<ColumnDef>, rs: seq<LogRecord>, m: Moment, stored: Heap,
                                          ids: seq<nat>,
                                          p: nat)
    requires Lists(ids, m) && RowsBack(columns, rs, m, stored, ids) && p in ids && LivePage(m.heap, p)
    ensures p in stored
  {
    hide Recovered, RowsOf;
    var slot :| Live(SlotsOf(m.heap, p), slot);
    assert LiveAt(m.heap, m.pageIds, Rid(p, slot));
    SameRowsSameLive(columns, Copied(stored, Recovered(rs, map[])), ids, m.heap, m.pageIds, Rid(p, slot));
  }

  /** A row on a page the log knows nothing of shows. */
  lemma {:induction false} BackNeedsLogged(columns: seq<ColumnDef>, rs: seq<LogRecord>, m: Moment, stored: Heap,
                                           ids: seq<nat>, p: nat)
    requires Lists(ids, m) && RowsBack(columns, rs, m, stored, ids) && p in ids && p in stored && LivePage(stored, p)
    requires |SlotsOf(Recovered(rs, map[]), p)| >= |SlotsOf(m.heap, p)|
    ensures p in Recovered(rs, map[])
  {
    hide Recovered, RowsOf;
    if p !in Recovered(rs, map[]) {
      var slot :| Live(SlotsOf(stored, p), slot);
      assert LiveAt(Copied(stored, Recovered(rs, map[])), ids, Rid(p, slot));
      SameRowsSameLive(columns, Copied(stored, Recovered(rs, map[])), ids, m.heap, m.pageIds, Rid(p, slot));
    }
  }

  /** A deleted row that came back shows. */
  lemma {:induction false} BackNeedsNoFit(columns: seq<ColumnDef>, rs: seq<LogRecord>, m: Moment, stored: Heap,
                                          ids: seq<nat>, p: nat, slot: nat)
    requires Lists(ids, m) && RowsBack(columns, rs, m, stored, ids) && p in m.heap && p in stored
    ensures slot >= |m.heap[p]| ==> !Live(SlotsOf(Recovered(rs, map[]), p), slot)
  {
    hide Recovered, RowsOf;
    if slot >= |m.heap[p]| && Live(SlotsOf(Recovered(rs, map[]), p), slot) {
      assert p in ids;
      assert LiveAt(Copied(stored, Recovered(rs, map[])), ids, Rid(p, slot));
      SameRowsSameLive(columns, Copied(stored, Recovered(rs, map[])), ids, m.heap, m.pageIds, Rid(p, slot));
    }
  }

  /** The row an unfinished DELETE names is committed; if its bytes fit back they come back beyond the old slots: the
      new tuple holds what the record logged. */
  lemma {:induction false} FitComesBack(rs: seq<LogRecord>, m: Moment) returns (i: nat, slot: nat)
    requires DeleteFits(rs, Incomplete(rs), m.heap) && SameSlots(StateOf(rs).committed, m.heap)
    requires WellFormed(rs) && FatesAgree(rs) && Orderly(rs)
    ensures i < |rs| && rs[i].Delete? && rs[i].txn in Incomplete(rs)
    ensures LivePage(m.heap, rs[i].pageId) && rs[i].pageId in m.heap && slot >= |m.heap[rs[i].pageId]|
    ensures Get(SlotsOf(Recovered(rs, map[]), rs[i].pageId), slot) == Some(rs[i].oldData)
  {
    hide WellFormed, FatesAgree, Incomplete, Committed, StateOf, Undo, Redo, NoneAbandoned, TrueUpdates, OneKind, Fits;
    var c := StateOf(rs).committed;
    FitsThrough(rs, Incomplete(rs), c, m.heap);
    var k :| 0 <= k < |rs| && rs[k].Delete? && Disturbs(rs[k], Incomplete(rs), c);
    var p := rs[k].pageId;
    UnfinishedIsLast(rs, k);
    assert TrueDelete(StateOf(rs[..k]), rs[k]);
    assert SlotsOf(c, p) == SlotsOf(m.heap, p);
    assert Live(SlotsOf(m.heap, p), rs[k].slotId);
    forall j | 0 <= j < |rs| && rs[j].Insert? ensures rs[j].txn !in Incomplete(rs) {
      OnlyDeletes(rs, k, j);
    }
    forall i, j | 0 <= j < i < |rs| && rs[i].Delete? && rs[i].txn in Incomplete(rs) && rs[j].Update?
      ensures rs[j].txn !in Incomplete(rs)
    {
      OnlyDeletes(rs, i, j);
    }
    RedoAll(rs);
    i, slot := DeleteShows(rs, Incomplete(rs), c, p);
  }

  /** Recovery loses no slot of a committed page. */
  lemma {:induction false} RecoveredCovers(rs: seq<LogRecord>, m: Moment, p: nat)
    requires SameSlots(StateOf(rs).committed, m.heap) && WellFormed(rs) && FatesAgree(rs)
    ensures |SlotsOf(Recovered(rs, map[]), p)| >= |SlotsOf(m.heap, p)|
  {
    hide WellFormed, FatesAgree, Incomplete, Committed, StateOf, Undo, Redo;
    RedoAll(rs);
    UndoGrows(rs, Incomplete(rs), StateOf(rs).committed, p);
  }

  /** Reopening gives back exactly the rows of the last committed statement if and only if no delete cut short fits
      back, every listed page with a committed row can be read, and no other readable listed page holds a row. */
  lemma {:induction false} BackExactly(columns: seq<ColumnDef>, rs: seq<LogRecord>, m: Moment, stored: Heap,
                                       ids: seq<nat>)
    requires Lists(ids, m) && SameSlots(StateOf(rs).committed, m.heap)
    requires WellFormed(rs) && FatesAgree(rs) && Orderly(rs)
    ensures RowsBack(columns, rs, m, stored, ids) <==> ComesBack(rs, m.heap, stored, ids)
  {
    hide WellFormed, FatesAgree, Orderly, StateOf, Recovered, Incomplete, SameSlots, RowsBack, DeleteFits, LivePage,
      Lists;
    if ComesBack(rs, m.heap, stored, ids) {
      OrderlyExact(rs, m.heap);
      BackIf(columns, rs, m, stored, ids);
    }
    if RowsBack(columns, rs, m, stored, ids) {
      forall p | p in ids && LivePage(m.heap, p) ensures p in stored {
        BackNeedsPages(columns, rs, m, stored, ids, p);
      }
      forall p | p in ids && p in stored && LivePage(stored, p) ensures p in Recovered(rs, map[]) {
        RecoveredCovers(rs, m, p);
        BackNeedsLogged(columns, rs, m, stored, ids, p);
      }
      if DeleteFits(rs, Incomplete(rs), m.heap) {
        var i, slot := FitComesBack(rs, m);
        var p := rs[i].pageId;
        ListedPage(ids, m, p);
        BackNeedsPages(columns, rs, m, stored, ids, p);
        BackNeedsNoFit(columns, rs, m, stored, ids, p, slot);
      }
    }
  }

  lemma {:induction false} ListedPage(ids: seq<nat>, m: Moment, p: nat)
    requires Lists(ids, m) && p in m.heap
    ensures p in ids
  {
  }

  lemma {:induction false} OrderlyExact(rs: seq<LogRecord>, heap: Heap)
    requires SameSlots(StateOf(rs).committed, heap) && WellFormed(rs) && FatesAgree(rs) && Orderly(rs)
    ensures SameSlots(Recovered(rs, map[]), heap) <==> !DeleteFits(rs, Incomplete(rs), heap)
  {
    hide WellFormed, FatesAgree, StateOf, Recovered, Incomplete, SameSlots, DeleteFits, NoneAbandoned, TrueUpdates,
      OneKind,
      TrueDeletes;
    TailExact(rs);
    SameThrough(Recovered(rs, map[]), StateOf(rs).committed, heap);
    FitsThrough(rs, Incomplete(rs), StateOf(rs).committed, heap);
  }

  // --- Reopening ---

  lemma {:induction false} RoomyStep(ps: Pages, p: nat, s: Slots)
    requires Roomy(ps) && SlotOffset(|s|) + Used(s) <= PAGE_SIZE
    ensures Roomy(ps[p := s])
  {
    hide Used;
  }

  lemma {:induction false} RoomAt(ps: Pages, p: nat)
    requires Roomy(ps)
    ensures SlotOffset(|SlotsOf(ps, p)|) + Used(SlotsOf(ps, p)) <= PAGE_SIZE
  {
  }

  /** Appending what fits, tombstoning and updating in place keep every page within its bytes. */
  lemma {:induction false} RoomyChange(ps: Pages, p: nat, slot: nat, data: seq<byte>)
    requires Roomy(ps)
    ensures Fits(SlotsOf(ps, p), |data|) ==> Roomy(ps[p := Appended(SlotsOf(ps, p), data)])
    ensures Roomy(ps[p := SlotsOf(ps, p)]) && Roomy(ps[p := Deleted(SlotsOf(ps, p), slot)])
    ensures Roomy(ps[p := Updated(SlotsOf(ps, p), slot, data)])
  {
    hide Roomy, Used;
    var s := SlotsOf(ps, p);
    RoomAt(ps, p);
    RoomyStep(ps, p, s);
    UsedByLengths(s, Deleted(s, slot));
    RoomyStep(ps, p, Deleted(s, slot));
    UsedByLengths(s, Updated(s, slot, data));
    RoomyStep(ps, p, Updated(s, slot, data));
    UsedAppended(s, data);
    if Fits(s, |data|) { RoomyStep(ps, p, Appended(s, data)); }
  }

  lemma {:induction false} RedoRoomy(rs: seq<LogRecord>, committed: set<Txn>, ps: Pages)
    requires Roomy(ps)
    ensures Roomy(Redo(rs, committed, ps))
  {
    hide Roomy, Fits;
    if rs != [] {
      var n := |rs| - 1;
      RedoRoomy(rs[..n], committed, ps);
      var r := rs[n];
      if r.Insert? {
        RoomyChange(Redo(rs[..n], committed, ps), r.pageId, r.slotId, r.data);
      } else if r.Delete? {
        RoomyChange(Redo(rs[..n], committed, ps), r.pageId, r.slotId, r.oldData);
      } else if r.Update? {
        RoomyChange(Redo(rs[..n], committed, ps), r.pageId, r.slotId, r.newData);
      }
    }
  }

  lemma {:induction false} UndoRoomy(rs: seq<LogRecord>, incomplete: set<Txn>, ps: Pages)
    requires Roomy(ps)
    ensures Roomy(Undo(rs, incomplete, ps))
  {
    hide Roomy, Fits;
    if rs != [] {
      var n := |rs| - 1;
      var r := rs[n];
      if r.Insert? {
        RoomyChange(ps, r.pageId, r.slotId, r.data);
      } else if r.Delete? {
        RoomyChange(ps, r.pageId, r.slotId, r.oldData);
      } else if r.Update? {
        RoomyChange(ps, r.pageId, r.slotId, r.oldData);
      }
      UndoRoomy(rs[..n], incomplete, UndoOne(ps, r, incomplete));
    }
  }

  lemma {:induction false} RecoveredRoomy(rs: seq<LogRecord>)
    ensures Roomy(Recovered(rs, map[]))
  {
    hide Roomy, Redo, Undo, Committed, Incomplete;
    assert Roomy(map[]) by { NothingRoomy(); }
    RedoRoomy(rs, Committed(rs), map[]);
    UndoRoomy(rs, Incomplete(rs), Redo(rs, Committed(rs), map[]));
  }

  lemma {:induction false} NothingRoomy()
    ensures Roomy(map[])
  {
  }

  lemma {:induction false} FileIds(file: seq<seq<byte>>, crc: seq<byte> -> Crc, stored: Heap)
    requires FileHolds(file, crc, stored)
    ensures forall id :: 0 <= id < |file| ==> |file[id]| == PAGE_SIZE
    ensures forall p :: p in stored ==> p < |file|
  {
    hide PageHolds, ChecksumRight;
  }

  /** What is left of the log is in order, ends in the moment the crash leads back to, and the page list fits it. */
  lemma {:induction false} LeftFacts(t: Table.Table, current: Heap, n: nat, ids: seq<nat>)
    requires Crashed(t, current, n) && LastCommitted(t, n).pageIds <= ids <= t.pageIds
    ensures var left, m := Left(t, n), LastCommitted(t, n);
      && ReadLog(t.wal.log[..n]) == Records(left)
      && WellFormed(left) && FatesAgree(left) && Orderly(left) && SameSlots(StateOf(left).committed, m.heap)
      && Lists(ids, m) && MomentOk(t.columns, t.pk, m)
  {
    hide WellFormed, UniqueIds, FatesAgree, Orderly, StateOf, Encodable, Encode, ReadLog, WholeRecords, SameSlots,
      Agree,
      RowsOf, LastMoment;
    var rs := t.wal.records;
    var k := WholeRecords(rs, n);
    CrashCut(rs, n);
    PrefixWellFormed(rs, k);
    UniqueIdsPrefix(rs, k);
    UniqueIdsAgree(rs[..k]);
    OrderlyPrefix(rs, k);
    assert CommittedAt(rs, t.history, k);
    assert Remembered(LastCommitted(t, n), t.pageIds, t.numPages);
    assert forall p :: p in ids ==> p in t.pageIds;
  }

  /** `Executor::open` and `recover` after a crash, at whatever byte of the log, in whatever statement, and whatever had
      reached the database file by then. `stored` is what the file's readable pages hold. The table that comes back has
      the rows and the index of the last statement committed in the surviving log if and only if `ComesBack`: INSERT
      syncs its Commit record before the page is written at all, and a recovered page whose file copy is missing or torn
      is dropped. */
  method Reopen(file: seq<seq<byte>>, bytes: seq<byte>, crc: seq<byte> -> Crc, columns: seq<ColumnDef>, pk: nat,
                ids: seq<nat>, ghost stored: Heap, ghost t: Table.Table, ghost current: Heap, ghost n: nat)
    returns (w: Wal.WalManager, pool: BufferPool.BufferPool, index: BTree.BTree)
    requires Crashed(t, current, n) && bytes == t.wal.log[..n] && columns == t.columns && pk == t.pk
    requires FileHolds(file, crc, stored) && |file| <= 0x1_0000_0000
    requires Distinct(ids) && LastCommitted(t, n).pageIds <= ids <= t.pageIds
    requires DistinctKeys(pk, RowsOf(columns, Copied(stored, Recovered(Left(t, n), map[])), ids))
    ensures fresh(w) && fresh(pool) && fresh(index) && pool.Valid(None) && index.Valid()
    ensures var heap := Copied(stored, Recovered(Left(t, n), map[]));
      && PoolHolds(pool.Abs(), crc, heap)
      && IndexOf(pk, RowsOf(columns, heap, ids), index.contents)
      && (RowsOf(columns, heap, ids) == RowsOf(columns, LastCommitted(t, n).heap, LastCommitted(t, n).pageIds)
          <==> ComesBack(Left(t, n), LastCommitted(t, n).heap, stored, ids))
    ensures ComesBack(Left(t, n), LastCommitted(t, n).heap, stored, ids) ==>
      index.contents == LastCommitted(t, n).contents
  {
    hide Encodable, Encode, ReadLog, WholeRecords, Recovered, RowsOf, IndexOf, Distinct, LastMoment, Keyed, PoolHolds,
      BufferPool.PoolInv, BufferPool.Store, Roomy, FileHolds, ComesBack, DistinctKeys, Wal.SameShape;
    ghost var left, m := Left(t, n), LastCommitted(t, n);
    LeftFacts(t, current, n, ids);
    BackExactly(columns, left, m, stored, ids);
    var ok: bool;
    w, ok := Wal.Restart(bytes, []);
    RecoveredRoomy(left);
    FileIds(file, crc, stored);
    pool := new BufferPool.BufferPool(64, file, crc);
    HoldsFile(pool.Abs(), crc, file, stored);
    CopyBack(w.pages, pool, stored);
    index := RebuildIndex(columns, pk, ids, pool, Copied(stored, w.pages));
    if ComesBack(left, m.heap, stored, ids) {
      IndexUnique(pk, RowsOf(columns, m.heap, m.pageIds), index.contents, m.contents);
    }
  }

  // --- A committed row that is lost ---

  lemma {:induction false} OneInsert(bytes: seq<byte>) returns (rs: seq<LogRecord>)
    requires Fits([], |bytes|)
    ensures rs == [Begin(0, 1), Insert(1, 1, 0, 0, bytes), Commit(2, 1)]
    ensures WellFormed(rs) && StateOf(rs).committed == map[0 := [Tuple(bytes, true)]]
  {
    assert WellFormed([]) && StateOf([]) == START;
    hide WellFormed, StateOf, Fits;
    assert Appended([], bytes) == [Tuple(bytes, true)];
    rs := Follow([], Begin(0, 1));
    rs := Follow(rs, Insert(1, 1, 0, 0, bytes));
    rs := Follow(rs, Commit(2, 1));
  }

  lemma {:induction false} OneInsertOrderly(rs: seq<LogRecord>, bytes: seq<byte>)
    requires rs == [Begin(0, 1), Insert(1, 1, 0, 0, bytes), Commit(2, 1)]
    ensures UniqueIds(rs) && Orderly(rs)
  {
    assert rs[..0] == [] && StateOf([]) == START;
    hide StateOf;
    forall i | 0 <= i < |rs| ensures KindOk(rs, i) {}
  }

  /** A new database and one INSERT, crashed after its Commit record was synced and before its page was written: every
      byte of the log survives and the file is empty. Recovery cannot fetch the page, drops it, and the committed row
      is gone. */
  lemma {:induction false} UnflushedInsertLost(columns: seq<ColumnDef>, pk: nat, values: Row, crc: seq<byte> -> Crc)
    requires Keyed(columns, pk, values) && Fits([], |EncodeRow(values)|)
    ensures var bytes := EncodeRow(values);
      var rs, heap := [Begin(0, 1), Insert(1, 1, 0, 0, bytes), Commit(2, 1)], map[0 := [Tuple(bytes, true)]];
      && WellFormed(rs) && UniqueIds(rs) && Orderly(rs) && StateOf(rs).committed == heap
      && RowsOf(columns, heap, [0]) == imap[Rid(0, 0) := values]
      && Agree(columns, pk, RowsOf(columns, heap, [0]), map[values[pk].n := Rid(0, 0)])
      && FileHolds([], crc, map[]) && !ComesBack(rs, heap, map[], [0])
      && RowsOf(columns, Copied(map[], Recovered(rs, map[])), [0]) == imap[]
  {
    hide WellFormed, StateOf, UniqueIds, Orderly, Recovered, EncodeRow, DecodeRow, DeleteFits, TypedRow, Fits,
      ShortTexts;
    var bytes := EncodeRow(values);
    var heap: Heap := map[0 := [Tuple(bytes, true)]];
    var rs := OneInsert(bytes);
    OneInsertOrderly(rs, bytes);
    FitsBound([], |bytes|);
    TextsFit(values);
    RowReadBack(columns, values, []);
    assert bytes + [] == bytes;
    var rows := RowsOf(columns, heap, [0]);
    forall rid: Rid ensures LiveAt(heap, [0], rid) <==> rid == Rid(0, 0) {}
    assert rows == imap[Rid(0, 0) := values];
    assert Live(SlotsOf(heap, 0), 0);
    MakesLive(heap, 0, 0);
    assert 0 in [0];
  }
}
