/** The log a table's statements write, and what a crash at any byte of it leaves of the table. */
module TableLog {
  import opened Common
  import opened Slots
  import opened LogRecord
  import opened UndoPass
  import opened Recovery
  import opened Rows
  import opened TableSpec

  /** The table right after a commit: how many records the log had, and the heap, page list and index then. */
  datatype Moment = Moment(count: nat, heap: Heap, pageIds: seq<nat>, contents: map<int, Rid>)

  /** The last moment a log of `k` records has reached. */
  function LastMoment(history: seq<Moment>, k: nat): (i: nat)
    requires history != []
    ensures i < |history|
  {
    if |history| == 1 || history[|history| - 1].count <= k then |history| - 1
    else LastMoment(history[..|history| - 1], k)
  }

  ghost predicate MomentOk(columns: seq<ColumnDef>, pk: nat, m: Moment) {
    Agree(columns, pk, RowsOf(columns, m.heap, m.pageIds), m.contents) && forall p :: p in m.heap ==> p in m.pageIds
  }

  /** At every prefix of the log the committed pages are the heap of the last moment reached. */
  ghost predicate HistoryOk(columns: seq<ColumnDef>, pk: nat, rs: seq<LogRecord>, history: seq<Moment>) {
    && history != []
    && (forall i :: 0 <= i < |history| ==> history[i].count <= |rs| && MomentOk(columns, pk, history[i]))
    && (forall k :: 0 <= k <= |rs| ==> CommittedAt(rs, history, k))
  }

  ghost predicate CommittedAt(rs: seq<LogRecord>, history: seq<Moment>, k: nat)
    requires history != [] && k <= |rs|
  {
    SameSlots(StateOf(rs[..k]).committed, history[LastMoment(history, k)].heap)
  }

  /** An INSERT logs one insert right after its Begin; a DELETE logs nothing but deletes. */
  ghost predicate OneKind(rs: seq<LogRecord>) {
    forall i :: 0 <= i < |rs| ==> KindOk(rs, i)
  }

  predicate KindOk(rs: seq<LogRecord>, i: nat)
    requires i < |rs|
  {
    && (rs[i].Insert? ==> i > 0 && rs[i - 1].Begin?)
    && (rs[i].Delete? ==> i > 0 && (rs[i - 1].Begin? || rs[i - 1].Delete?))
  }

  /** Deletes name tuples that are live on the committed pages. */
  ghost predicate TrueDeletes(rs: seq<LogRecord>) {
    forall i :: 0 <= i < |rs| && rs[i].Delete? ==> TrueDelete(StateOf(rs[..i]), rs[i])
  }

  predicate TrueDelete(ls: LogState, r: LogRecord)
    requires r.Delete?
  {
    Live(SlotsOf(ls.committed, r.pageId), r.slotId)
  }

  /** Transactions one after the other, each of one kind, updates and deletes logged truly. */
  ghost predicate Orderly(rs: seq<LogRecord>) {
    NoneAbandoned(rs) && TrueUpdates(rs) && OneKind(rs) && TrueDeletes(rs)
  }

  /** An orderly log with its history, `current` being the heap as the log has it. */
  ghost predicate Tidy(columns: seq<ColumnDef>, pk: nat, rs: seq<LogRecord>, history: seq<Moment>, current: Pages,
                       heap: Heap) {
    Orderly(rs) && HistoryOk(columns, pk, rs, history) && SameSlots(current, heap)
  }

  lemma {:induction false} FirstMoment(columns: seq<ColumnDef>, pk: nat)
    ensures Tidy(columns, pk, [], [Moment(0, map[], [], map[])], StateOf([]).committed, map[])
    ensures StateOf([]).cur.None? && Remembers([Moment(0, map[], [], map[])], [], 0)
    ensures forall n: nat :: Remembers([Moment(0, map[], [], map[])], [], n)
  {
    hide RowOf;
    var m := Moment(0, map[], [], map[]);
    assert RowsOf(columns, m.heap, m.pageIds) == imap[];
    assert MomentOk(columns, pk, m);
    var none: seq<LogRecord> := [];
    assert none[..0] == none;
    assert CommittedAt(none, [m], 0);
    forall n: nat ensures Remembers([m], [], n) {
      assert Remembered(m, [], n);
    }
  }

  /** What an orderly log may hold next. */
  predicate OrderlyNext(rs: seq<LogRecord>, r: LogRecord) {
    && (r.Begin? ==> StateOf(rs).cur.None?)
    && (r.Update? ==> TrueUpdate(StateOf(rs), r))
    && (r.Insert? ==> rs != [] && rs[|rs| - 1].Begin?)
    && (r.Delete? ==> rs != [] && (rs[|rs| - 1].Begin? || rs[|rs| - 1].Delete?) && TrueDelete(StateOf(rs), r))
  }

  lemma {:induction false} OrderlyAppend(rs: seq<LogRecord>, r: LogRecord)
    requires Orderly(rs) && OrderlyNext(rs, r)
    ensures Orderly(rs + [r])
  {
    hide StateOf, TrueUpdate, TrueDelete;
    var rs' := rs + [r];
    assert rs'[..|rs|] == rs && forall i :: 0 <= i < |rs| ==> rs'[..i] == rs[..i] && rs'[i] == rs[i];
    forall i | 0 <= i < |rs'| ensures KindOk(rs', i) {
      if i < |rs| { assert KindOk(rs, i); }
    }
  }

  lemma {:induction false} OrderlyPrefix(rs: seq<LogRecord>, k: nat)
    requires k <= |rs| && Orderly(rs)
    ensures Orderly(rs[..k])
  {
    hide StateOf, TrueUpdate, TrueDelete;
    TailPrefix(rs, k);
    assert forall i :: 0 <= i <= k ==> rs[..k][..i] == rs[..i];
    forall i | 0 <= i < k ensures KindOk(rs[..k], i) {
      assert KindOk(rs, i);
    }
  }

  lemma {:induction false} HistoryAppend(columns: seq<ColumnDef>, pk: nat, rs: seq<LogRecord>, r: LogRecord,
                                         history: seq<Moment>)
    requires !r.Commit? && HistoryOk(columns, pk, rs, history)
    requires StateOf(rs + [r]) == Next(StateOf(rs), r)
    ensures HistoryOk(columns, pk, rs + [r], history)
  {
    hide StateOf, MomentOk, SameSlots;
    var rs' := rs + [r];
    forall k | 0 <= k <= |rs'| ensures CommittedAt(rs', history, k) {
      if k <= |rs| {
        assert rs'[..k] == rs[..k];
        assert CommittedAt(rs, history, k);
      } else {
        assert rs'[..k] == rs' && rs[..|rs|] == rs;
        assert CommittedAt(rs, history, |rs|);
        LastStays(history, |rs|, k);
      }
    }
  }

  lemma {:induction false} LastStays(history: seq<Moment>, k: nat, k': nat)
    requires history != [] && k <= k' && forall i :: 0 <= i < |history| ==> history[i].count <= k
    ensures LastMoment(history, k) == LastMoment(history, k') == |history| - 1
  {
  }

  lemma {:induction false} HistoryCommit(columns: seq<ColumnDef>, pk: nat, rs: seq<LogRecord>, r: LogRecord,
                                         history: seq<Moment>, m: Moment)
    requires r.Commit? && HistoryOk(columns, pk, rs, history)
    requires StateOf(rs + [r]) == Next(StateOf(rs), r)
    requires m.count == |rs| + 1 && MomentOk(columns, pk, m) && SameSlots(StateOf(rs).view, m.heap)
    ensures HistoryOk(columns, pk, rs + [r], history + [m])
  {
    hide StateOf, MomentOk, SameSlots;
    var rs', history' := rs + [r], history + [m];
    assert history'[..|history|] == history;
    forall k | 0 <= k <= |rs'| ensures CommittedAt(rs', history', k) {
      if k <= |rs| {
        assert rs'[..k] == rs[..k];
        assert CommittedAt(rs, history, k);
      } else {
        assert rs'[..k] == rs';
      }
    }
  }

  // --- One statement's records ---

  lemma {:induction false} TidyBegin(columns: seq<ColumnDef>, pk: nat, rs: seq<LogRecord>, r: LogRecord,
                                     history: seq<Moment>, heap: Heap)
    requires r.Begin? && StateOf(rs).cur.None? && StateOf(rs + [r]) == Next(StateOf(rs), r)
    requires Tidy(columns, pk, rs, history, StateOf(rs).committed, heap)
    ensures Tidy(columns, pk, rs + [r], history, StateOf(rs + [r]).view, heap)
  {
    hide StateOf, Orderly, HistoryOk, SameSlots;
    OrderlyAppend(rs, r);
    HistoryAppend(columns, pk, rs, r, history);
  }

  lemma {:induction false} TidyInsert(columns: seq<ColumnDef>, pk: nat, rs: seq<LogRecord>, r: LogRecord,
                                      history: seq<Moment>, heap: Heap)
    requires r.Insert? && StateOf(rs + [r]) == Next(StateOf(rs), r) && rs != [] && rs[|rs| - 1].Begin?
    requires Tidy(columns, pk, rs, history, StateOf(rs).view, heap)
    ensures Tidy(columns, pk, rs + [r], history, StateOf(rs + [r]).view,
                 heap[r.pageId := Appended(SlotsOf(heap, r.pageId), r.data)])
  {
    hide StateOf, Orderly, HistoryOk;
    OrderlyAppend(rs, r);
    HistoryAppend(columns, pk, rs, r, history);
    SameAt(StateOf(rs).view, heap, r.pageId, Appended(SlotsOf(heap, r.pageId), r.data));
  }

  lemma {:induction false} TidyDelete(columns: seq<ColumnDef>, pk: nat, rs: seq<LogRecord>, r: LogRecord,
                                      history: seq<Moment>, heap: Heap)
    requires r.Delete? && r.pageId in heap && Live(heap[r.pageId], r.slotId) &&
             StateOf(rs + [r]) == Next(StateOf(rs), r)
    requires rs != [] && (rs[|rs| - 1].Begin? || rs[|rs| - 1].Delete?)
    requires |SlotsOf(StateOf(rs).committed, r.pageId)| == |heap[r.pageId]| && WellFormed(rs)
    requires Tidy(columns, pk, rs, history, StateOf(rs).view, heap)
    ensures Tidy(columns, pk, rs + [r], history, StateOf(rs + [r]).view,
                 heap[r.pageId := Deleted(heap[r.pageId], r.slotId)])
  {
    hide StateOf, Orderly, HistoryOk, WellFormed;
    assert SlotsOf(StateOf(rs).view, r.pageId) == heap[r.pageId];
    LogInvHolds(rs);
    assert Extends(SlotsOf(StateOf(rs).committed, r.pageId), SlotsOf(StateOf(rs).view, r.pageId));
    OrderlyAppend(rs, r);
    HistoryAppend(columns, pk, rs, r, history);
    SameAt(StateOf(rs).view, heap, r.pageId, Deleted(heap[r.pageId], r.slotId));
  }

  lemma {:induction false} TidyUpdate(columns: seq<ColumnDef>, pk: nat, rs: seq<LogRecord>, r: LogRecord,
                                      history: seq<Moment>, heap: Heap)
    requires r.Update? && r.pageId in heap && Get(heap[r.pageId], r.slotId) == Some(r.oldData)
    requires StateOf(rs + [r]) == Next(StateOf(rs), r)
    requires Tidy(columns, pk, rs, history, StateOf(rs).view, heap)
    ensures Tidy(columns, pk, rs + [r], history, StateOf(rs + [r]).view,
                 heap[r.pageId := Updated(heap[r.pageId], r.slotId, r.newData)])
  {
    hide StateOf, Orderly, HistoryOk;
    assert SlotsOf(StateOf(rs).view, r.pageId) == heap[r.pageId];
    OrderlyAppend(rs, r);
    HistoryAppend(columns, pk, rs, r, history);
    SameAt(StateOf(rs).view, heap, r.pageId, Updated(heap[r.pageId], r.slotId, r.newData));
  }

  lemma {:induction false} TidyCommit(columns: seq<ColumnDef>, pk: nat, rs: seq<LogRecord>, r: LogRecord,
                                      history: seq<Moment>, m: Moment)
    requires r.Commit? && StateOf(rs + [r]) == Next(StateOf(rs), r)
    requires m.count == |rs| + 1 && MomentOk(columns, pk, m)
    requires Tidy(columns, pk, rs, history, StateOf(rs).view, m.heap)
    ensures Tidy(columns, pk, rs + [r], history + [m], StateOf(rs + [r]).committed, m.heap)
  {
    hide StateOf, Orderly, HistoryOk, SameSlots, MomentOk;
    OrderlyAppend(rs, r);
    HistoryCommit(columns, pk, rs, r, history, m);
  }

  lemma {:induction false} SameAt(a: Pages, b: Pages, p: nat, s: Slots)
    requires SameSlots(a, b)
    ensures SameSlots(a[p := s], b[p := s])
  {
    var a', b' := a[p := s], b[p := s];
    forall q ensures SlotsOf(a', q) == SlotsOf(b', q) {
      assert SlotsOf(a, q) == SlotsOf(b, q);
    }
  }

  /** A page that holds nothing yet makes no difference. */
  lemma {:induction false} SameWithEmpty(a: Pages, b: Pages, p: nat)
    requires SameSlots(a, b) && p !in b
    ensures SameSlots(a, b[p := []])
  {
    var b' := b[p := []];
    forall q ensures SlotsOf(a, q) == SlotsOf(b', q) {
      assert SlotsOf(a, q) == SlotsOf(b, q);
    }
  }

  // --- After a crash ---

  /** Pages registered since a moment held nothing then. */
  ghost predicate Remembers(history: seq<Moment>, ids: seq<nat>, numPages: nat) {
    forall i :: 0 <= i < |history| ==> Remembered(history[i], ids, numPages)
  }

  ghost predicate Remembered(m: Moment, ids: seq<nat>, numPages: nat) {
    && m.pageIds <= ids && (forall p :: p in m.heap ==> p < numPages)
    && (forall p :: p in ids ==> p in m.pageIds || p !in m.heap)
  }

  lemma {:induction false} RemembersPage(history: seq<Moment>, ids: seq<nat>, numPages: nat)
    requires Remembers(history, ids, numPages)
    ensures Remembers(history, ids, numPages + 1) && Remembers(history, ids + [numPages], numPages + 1)
  {
    forall i | 0 <= i < |history| ensures Remembered(history[i], ids + [numPages], numPages + 1) {
      assert Remembered(history[i], ids, numPages);
    }
    forall i | 0 <= i < |history| ensures Remembered(history[i], ids, numPages + 1) {
      assert Remembered(history[i], ids, numPages);
    }
  }

  /** Crash at any byte of the log of such a table: the log manager's pages hold the tuples of the last committed
      statement, exactly when the statement cut short deleted nothing that fits back. */
  lemma {:induction false} CrashedTable(columns: seq<ColumnDef>, pk: nat, rs: seq<LogRecord>, history: seq<Moment>,
                                        n: nat)
    requires WellFormed(rs) && UniqueIds(rs) && (forall i :: 0 <= i < |rs| ==> Encodable(rs[i])) && n <= |Encode(rs)|
    requires Orderly(rs) && HistoryOk(columns, pk, rs, history)
    ensures var left := rs[..WholeRecords(rs, n)];
      var m := history[LastMoment(history, |left|)];
      && ReadLog(Encode(rs)[..n]) == Records(left) && MomentOk(columns, pk, m)
      && (SameSlots(Recovered(left, map[]), m.heap) <==> !DeleteFits(left, Incomplete(left), m.heap))
  {
    hide WellFormed, UniqueIds, NoneAbandoned, TrueUpdates, StateOf, Encodable, Encode, ReadLog, WholeRecords,
      Recovered, Incomplete, SameSlots, MomentOk, FatesAgree, Harmless, DeleteFits;
    CrashRecovery(rs, n);
    var k := WholeRecords(rs, n);
    assert CommittedAt(rs, history, k);
    var left, h := rs[..k], history[LastMoment(history, k)].heap;
    SameThrough(Recovered(left, map[]), StateOf(left).committed, h);
    FitsThrough(left, Incomplete(left), StateOf(left).committed, h);
  }

  lemma {:induction false} SameThrough(a: Pages, b: Pages, c: Pages)
    requires SameSlots(b, c)
    ensures SameSlots(a, b) <==> SameSlots(a, c)
  {
    forall p ensures SlotsOf(a, p) == SlotsOf(b, p) <==> SlotsOf(a, p) == SlotsOf(c, p) {
      assert SlotsOf(b, p) == SlotsOf(c, p);
    }
  }

  lemma {:induction false} FitsThrough(rs: seq<LogRecord>, incomplete: set<Txn>, a: Pages, b: Pages)
    requires SameSlots(a, b)
    ensures DeleteFits(rs, incomplete, a) <==> DeleteFits(rs, incomplete, b)
  {
    hide Fits;
    forall i | 0 <= i < |rs| && rs[i].Delete? ensures Disturbs(rs[i], incomplete, a) <==>
    Disturbs(rs[i], incomplete, b) {
      assert SlotsOf(a, rs[i].pageId) == SlotsOf(b, rs[i].pageId);
    }
  }
}
