/** One table of src/engine/executor.rs with an INT primary key: heap pages, the B+tree on the key, the write-ahead log,
    and the statements. */
module Table {
  import opened Common
  import opened Bytes
  import opened Slots
  import opened Rows
  import opened TableSpec
  import opened SqlMeaning
  import opened TableScan
  import opened Node
  import opened BTree
  import Recovery
  import Wal
  import TableLog

  /** The key column is an integer column, and the only one of its name. */
  ghost predicate KeyColumn(columns: seq<ColumnDef>, pk: nat) {
    && pk < |columns| && columns[pk].ty == IntType
    && (forall i :: 0 <= i < |columns| && i != pk ==> columns[i].name != columns[pk].name)
  }

  /** The table's pages are distinct and allocated. */
  ghost predicate PagesOk(ids: seq<nat>, heap: Heap, numPages: nat) {
    Distinct(ids) && (forall p :: p in ids ==> p in heap) && (forall p :: p in heap ==> p < numPages) && Bounded(heap)
  }

  lemma {:induction false} PagesReplace(ids: seq<nat>, heap: Heap, numPages: nat, p: nat, s: Slots)
    requires p in heap && forall i :: 0 <= i < |s| ==> |s[i].bytes| <= PAGE_SIZE
    requires PagesOk(ids, heap, numPages)
    ensures PagesOk(ids, heap[p := s], numPages)
  {
    hide Distinct;
    BoundedAfter(heap, p, s);
  }

  lemma {:induction false} PagesExtend(ids: seq<nat>, heap: Heap, numPages: nat)
    requires PagesOk(ids, heap, numPages)
    ensures numPages !in heap && numPages !in ids && PagesOk(ids, heap, numPages + 1)
    ensures PagesOk(ids + [numPages], heap[numPages := []], numPages + 1)
  {
    BoundedAfter(heap, numPages, []);
  }

  lemma {:induction false} PageFacts(ids: seq<nat>, heap: Heap, numPages: nat, p: nat)
    requires p in ids && PagesOk(ids, heap, numPages)
    ensures p in heap && forall i :: 0 <= i < |heap[p]| ==> |heap[p][i].bytes| <= PAGE_SIZE
  {
    hide Distinct;
  }

  lemma {:induction false} PageOnce(ids: seq<nat>, heap: Heap, numPages: nat, i: nat)
    requires i < |ids| && PagesOk(ids, heap, numPages)
    ensures ids[i] in heap && ids[i] !in ids[..i]
    ensures forall p :: p in ids[..i + 1] <==> p in ids[..i] || p == ids[i]
  {
    assert ids[..i + 1] == ids[..i] + [ids[i]];
  }

  class Table {
    const columns: seq<ColumnDef>
    const pk: nat
    const floatCmp: FloatCmp
    var pageIds: seq<nat>
    /** The pages of the buffer pool. Pages of other tables may be among them, but only this one logs. */
    var heap: Heap
    var numPages: nat
    const index: BTree
    const wal: Wal.WalManager
    /** The table after each commit, since the log was empty. */
    ghost var history: seq<TableLog.Moment>

    ghost function Rows(): imap<Rid, Row>
      reads this
    {
      RowsOf(columns, heap, pageIds)
    }

    ghost predicate Wellformed()
      reads this
    {
      KeyColumn(columns, pk) && PagesOk(pageIds, heap, numPages)
    }

    /** Live rows have distinct integer keys and the index maps each key to its row. */
    ghost predicate Valid()
      reads this, index
    {
      Wellformed() && index.Valid() && Agree(columns, pk, Rows(), index.contents)
    }

    // --- The log beside the heap ---

    ghost function Logged(): Recovery.LogState
      reads wal
    {
      Recovery.StateOf(wal.records)
    }

    /** Between statements the log's slots are the heap's, also after statements that failed. */
    ghost predicate Ready()
      reads this, wal
    {
      wal.Logged() && Wal.SameShape(wal.pages, Logged().committed) && Wal.SameShape(Logged().committed, heap)
    }

    /** Transaction `t` is logging. */
    ghost predicate Logging(t: nat)
      reads this, wal
    {
      wal.Valid() && wal.Running() == Some(t) && Wal.SameShape(Logged().view, heap)
    }

    /** It has added no tuple yet, so dropping it leaves no slot behind. */
    ghost predicate Droppable()
      reads this, wal
    {
      Wal.SameShape(Logged().committed, heap)
    }

    /** Every statement so far has succeeded: the log says `current` of the heap, and of every moment before. */
    ghost predicate Tidy(current: Heap)
      reads this, wal
    {
      && wal.OwnIds() && TableLog.Tidy(columns, pk, wal.records, history, current, heap)
      && TableLog.Remembers(history, pageIds, numPages) && forall p :: p in heap ==> p in pageIds
    }

    /** The statement has logged nothing yet. */
    ghost predicate Begun()
      reads wal
    {
      wal.records != [] && wal.records[|wal.records| - 1].Begin?
    }

    /** The statement has logged nothing but deletes. */
    ghost predicate Deleting()
      reads wal
    {
      wal.records != [] && (wal.records[|wal.records| - 1].Begin? || wal.records[|wal.records| - 1].Delete?)
    }

    ghost predicate Clean()
      reads this, wal
    {
      Logged().cur.None? && Tidy(Logged().committed)
    }

    /** `CREATE TABLE` with an integer primary key, over a store that may hold pages already. */
    constructor (columns: seq<ColumnDef>, pk: nat, floatCmp: FloatCmp, heap: Heap, numPages: nat, wal: Wal.WalManager)
      requires KeyColumn(columns, pk)
      requires (forall p :: p in heap ==> p < numPages) && Bounded(heap)
      requires wal.Logged() && Wal.SameShape(wal.pages, Recovery.StateOf(wal.records).committed)
      requires Wal.SameShape(Recovery.StateOf(wal.records).committed, heap)
      ensures Valid() && Ready() && fresh(index) && Rows() == imap[] && this.heap == heap && pageIds == []
      ensures this.columns == columns && this.pk == pk && this.floatCmp == floatCmp && this.wal == wal
      ensures wal.records == [] && heap == map[] && wal.OwnIds() ==> Clean()
    {
      hide Wal.SameShape, Wal.Bounded, Recovery.StateOf, Recovery.WellFormed, TableLog.Tidy, TableLog.Remembers, RowsOf,
        Agree, KeyColumn, Bounded;
      this.columns, this.pk, this.floatCmp, this.heap, this.numPages := columns, pk, floatCmp, heap, numPages;
      this.wal := wal;
      pageIds := [];
      index := new BTree();
      history := [TableLog.Moment(0, map[], [], map[])];
      new;
      NoRows(columns, pk, heap);
      if wal.records == [] && heap == map[] {
        TableLog.FirstMoment(columns, pk);
      }
    }

    /** Starts a transaction. One that an earlier failed statement left open is dropped. */
    method Begin() returns (t: nat)
      requires Ready()
      modifies wal
      ensures Logging(t) && Droppable() && Begun() && Deleting()
      ensures old(Clean()) ==> Tidy(Logged().view)
    {
      hide Recovery.StateOf, Wal.SameShape, TableLog.Tidy, TableLog.Remembers;
      ghost var rs := wal.records;
      t := wal.BeginTxn();
      if old(Clean()) {
        TableLog.TidyBegin(columns, pk, rs, wal.records[|rs|], history, heap);
      }
    }

    /** Commits; this is a moment a crash can lead back to. */
    method Commit(t: nat)
      requires Valid() && Logging(t)
      modifies wal, this`history
      ensures Ready()
      ensures old(Tidy(Logged().view)) ==> Clean()
    {
      hide Recovery.StateOf, Wal.SameShape, TableLog.Tidy, TableLog.Remembers, Valid, Recovery.WellFormed, Wal.Bounded;
      ghost var rs := wal.records;
      ghost var m := TableLog.Moment(|rs| + 1, heap, pageIds, index.contents);
      MomentNow(m);
      wal.CommitTxn(t);
      if old(Tidy(Logged().view)) {
        TableLog.TidyCommit(columns, pk, rs, wal.records[|rs|], history, m);
      }
      history := history + [m];
    }

    lemma {:induction false} MomentNow(m: TableLog.Moment)
      requires m.heap == heap && m.pageIds == pageIds && m.contents == index.contents && Valid()
      ensures (forall p :: p in heap ==> p in pageIds) ==> TableLog.MomentOk(columns, pk, m)
      ensures TableLog.Remembers(history, pageIds, numPages) ==> TableLog.Remembers(history + [m], pageIds, numPages)
    {
      hide TableLog.Remembers, PagesOk, Agree, KeyColumn, RowsOf;
      if TableLog.Remembers(history, pageIds, numPages) {
        RemembersNow(history, pageIds, heap, numPages, m);
      }
    }

    /** A statement that stops without commit leaves its transaction open and the slots as they were. */
    lemma {:induction false} LeftOpen(t: nat)
      requires Logging(t) && Droppable()
      ensures Ready()
    {
      hide Wal.SameShape, Recovery.StateOf;
      Wal.ShapeTrans(wal.pages, Logged().view, heap);
      Wal.ShapeFlip(Logged().committed, heap);
      Wal.ShapeTrans(wal.pages, heap, Logged().committed);
    }

    // --- INSERT ---

    /** The first page of the table with room for `len` bytes and a slot entry. */
    method FindPage(len: nat) returns (r: Option<nat>)
      requires Wellformed()
      ensures r.Some? ==> r.value in pageIds && Fits(heap[r.value], len)
      ensures r.Some? ==> forall p :: PageBefore(pageIds, p, r.value) ==> !Fits(heap[p], len)
      ensures r.None? ==> forall p :: p in pageIds ==> !Fits(heap[p], len)
    {
      for i := 0 to |pageIds|
        invariant forall j :: 0 <= j < i ==> !Fits(heap[pageIds[j]], len)
      {
        if Fits(heap[pageIds[i]], len) {
          return Some(pageIds[i]);
        }
      }
      r := None;
    }

    /** Adds the row and its key; a NULL, duplicate or mistyped key or a row too large for a page changes no row. */
    method Insert(values: Row) returns (r: Result<()>, ghost at: Rid)
      requires Valid() && Ready()
      modifies this, index, wal
      ensures Valid() && Ready()
      ensures r.Ok? <==>
              Keyed(columns, pk, values) && values[pk].n !in old(index.contents) && Fits([], |EncodeRow(values)|)
      ensures r.Ok? ==> at !in old(Rows()) && Rows() == old(Rows())[at := values]
      ensures r.Err? ==> Rows() == old(Rows()) && index.contents == old(index.contents)
      ensures forall p :: p in old(heap) && p !in old(pageIds) ==> p in heap && heap[p] == old(heap)[p]
      ensures old(Clean()) && r.Ok? ==> Clean()
    {
      hide EncodeRow, DecodeRow, TypedRow, ShortTexts, RowsOf, Agree, PagesOk, Fits, Ready, Clean;
      at := Rid(0, 0);
      if |values| <= pk {
        return Err("index out of bounds"), at;
      }
      if values[pk].Null? {
        return Err("PRIMARY KEY column cannot be NULL"), at;
      }
      if values[pk].Int? {
        var found := index.Search(values[pk].n);
        if found.Some? {
          return Err("duplicate primary key"), at;
        }
      }
      var bytes := SerializeRow(columns, values);
      if bytes.Err? {
        return Err(bytes.error), at;
      }
      KeyTyped(columns, pk, values);
      r, at := InsertBytes(values, bytes.value, values[pk].n);
    }

    /** The logged part of an INSERT: the first page with room, or a new one. */
    method InsertBytes(ghost values: Row, bytes: seq<byte>, key: i64) returns (r: Result<()>, ghost at: Rid)
      requires bytes == EncodeRow(values) && Keyed(columns, pk, values) && values[pk].n == key && key !in index.contents
      requires Valid() && Ready()
      modifies this, index, wal
      ensures Valid() && Ready()
      ensures r.Ok? <==> Fits([], |bytes|)
      ensures r.Ok? ==> at !in old(Rows()) && Rows() == old(Rows())[at := values]
      ensures r.Err? ==> Rows() == old(Rows()) && index.contents == old(index.contents)
      ensures forall p :: p in old(heap) && p !in old(pageIds) ==> p in heap && heap[p] == old(heap)[p]
      ensures old(Clean()) && r.Ok? ==> Clean()
    {
      hide EncodeRow, DecodeRow, TypedRow, ShortTexts, RowsOf, Agree, PagesOk, Fits, Ready, Clean, Tidy, Logging,
        Droppable, KeyColumn;
      at := Rid(0, 0);
      var t := Begin();
      var page := FindPage(|bytes|);
      if page.Some? {
        PageFacts(pageIds, heap, numPages, page.value);
        FitsBound(heap[page.value], |bytes|);
        at := Place(t, page.value, values, bytes, key);
        Commit(t);
        return Ok(()), at;
      }
      if !Fits([], |bytes|) {
        var _ := NewPage(t, false);
        LeftOpen(t);
        return Err("page full"), at;
      }
      var p := NewPage(t, true);
      at := Place(t, p, values, bytes, key);
      Commit(t);
      r := Ok(());
    }

    /** Allocates a page and, unless the row turns out too large for it, registers it with the table. */
    method NewPage(ghost t: nat, register: bool) returns (p: nat)
      requires Valid() && Logging(t)
      modifies this`heap, this`pageIds, this`numPages
      ensures Valid() && Rows() == old(Rows()) && Logging(t) && (old(Droppable()) ==> Droppable())
      ensures p !in old(heap) && p !in old(pageIds)
      ensures register ==> p in pageIds && heap == old(heap)[p := []]
      ensures !register ==> heap == old(heap)
      ensures old(Tidy(Logged().view)) ==> Tidy(Logged().view)
    {
      hide RowsOf, Agree, PagesOk, Recovery.StateOf, Wal.SameShape, TableLog.Remembers, KeyColumn, TableLog.HistoryOk,
        Recovery.NoneAbandoned, Recovery.TrueUpdates;
      p := numPages;
      PagesExtend(pageIds, heap, numPages);
      if old(Tidy(Logged().view)) {
        TableLog.RemembersPage(history, pageIds, numPages);
        TableLog.SameWithEmpty(Logged().view, heap, p);
      }
      numPages := numPages + 1;
      if register {
        HeapNewPage(columns, heap, pageIds, p);
        Wal.ShapeWithEmpty(Logged().view, heap, p);
        if Droppable() { Wal.ShapeWithEmpty(Logged().committed, heap, p); }
        heap := heap[p := []];
        pageIds := pageIds + [p];
      }
    }

    /** Logs the insert, puts the bytes in the page and the key in the index. */
    method Place(t: nat, p: nat, ghost values: Row, bytes: seq<byte>, key: i64) returns (ghost at: Rid)
      requires p in pageIds && p in heap && Fits(heap[p], |bytes|)
      requires bytes == EncodeRow(values) && Keyed(columns, pk, values) && values[pk].n == key && key !in index.contents
      requires Valid() && Logging(t) && Begun()
      modifies this`heap, index, wal
      ensures Valid() && Logging(t)
      ensures at !in old(Rows()) && Rows() == old(Rows())[at := values]
      ensures forall q :: q in old(heap) && q != p ==> q in heap && heap[q] == old(heap)[q]
      ensures old(Tidy(Logged().view)) ==> Tidy(Logged().view)
    {
      hide EncodeRow, DecodeRow, TypedRow, RowsOf, Agree, ShortTexts, Fits, PagesOk, Tidy, Logging, KeyColumn;
      PageFacts(pageIds, heap, numPages, p);
      at := Rid(p, |heap[p]|);
      FitsBound(heap[p], |bytes|);
      TextsFit(values);
      RowRoundTrip(columns, values, []);
      assert bytes + [] == bytes;
      HeapInsert(columns, heap, pageIds, p, bytes);
      AgreeAdd(columns, pk, Rows(), index.contents, at, values);
      PagesReplace(pageIds, heap, numPages, p, Appended(heap[p], bytes));
      var slot := |heap[p]|;
      PutLogged(t, p, bytes);
      index.Insert(key, Rid(p, slot));
    }

    /** `log_insert`, then `insert_tuple`. */
    method PutLogged(t: nat, p: nat, bytes: seq<byte>)
      requires p in heap && Fits(heap[p], |bytes|)
      requires Logging(t) && Begun()
      modifies this`heap, wal
      ensures Logging(t) && heap == old(heap)[p := Appended(old(heap)[p], bytes)]
      ensures old(Tidy(Logged().view)) ==> Tidy(Logged().view)
    {
      hide Recovery.StateOf, Wal.SameShape, TableLog.Tidy, TableLog.Remembers, Fits;
      ghost var rs := wal.records;
      Wal.ShapeAt(Logged().view, heap, p);
      Wal.ShapeFits(SlotsOf(Logged().view, p), heap[p], |bytes|);
      Wal.ShapeInsert(Logged().view, heap, p, bytes);
      var slot := wal.LogInsert(t, p, bytes);
      if old(Tidy(Logged().view)) {
        TableLog.TidyInsert(columns, pk, rs, wal.records[|rs|], history, heap);
      }
      heap := heap[p := Appended(heap[p], bytes)];
    }

    // --- DELETE ---

    /** `log_delete`, then `delete_tuple`. */
    method DropLogged(t: nat, p: nat, slot: nat)
      requires p in heap && Live(heap[p], slot)
      requires Logging(t) && Droppable() && Deleting()
      modifies this`heap, wal
      ensures Logging(t) && Droppable() && Deleting() && heap == old(heap)[p := Deleted(old(heap)[p], slot)]
      ensures old(Tidy(Logged().view)) ==> Tidy(Logged().view)
    {
      hide Recovery.StateOf, Wal.SameShape, TableLog.Tidy, TableLog.Remembers;
      ghost var rs := wal.records;
      Wal.ShapeDelete(Logged().view, heap, p, slot);
      Wal.ShapeAt(Logged().committed, heap, p);
      Wal.ShapeOfChange(heap, p, slot, []);
      Wal.ShapeTrans(Logged().committed, heap, heap[p := Deleted(heap[p], slot)]);
      var _ := wal.LogDelete(t, p, slot);
      if old(Tidy(Logged().view)) {
        TableLog.TidyDelete(columns, pk, rs, wal.records[|rs|], history, heap);
      }
      heap := heap[p := Deleted(heap[p], slot)];
    }

    /** Tombstones one live row and drops its key. */
    method DeleteRow(t: nat, p: nat, slot: nat, key: i64)
      requires LiveAt(heap, pageIds, Rid(p, slot))
      requires Valid() && Logging(t) && Droppable() && Deleting()
      requires KeyIs(Rows()[Rid(p, slot)], pk, key)
      modifies this`heap, index, wal
      ensures Valid() && Rows() == old(Rows()) - {Rid(p, slot)}
      ensures p in heap && heap == old(heap)[p := heap[p]] && |heap[p]| == |old(heap)[p]|
      ensures Logging(t) && Droppable() && Deleting() && (old(Tidy(Logged().view)) ==> Tidy(Logged().view))
    {
      hide DecodeRow, TypedRow, RowsOf, Agree, ShortTexts, PagesOk, Tidy, Logging, Droppable, KeyColumn;
      PageFacts(pageIds, heap, numPages, p);
      LiveRow(columns, pk, heap, pageIds, index.contents, Rid(p, slot));
      HeapDelete(columns, heap, pageIds, Rid(p, slot));
      AgreeRemove(columns, pk, Rows(), index.contents, Rid(p, slot));
      PagesReplace(pageIds, heap, numPages, p, Deleted(heap[p], slot));
      DropLogged(t, p, slot);
      var _ := index.Delete(key);
    }

    /** Exactly the matching rows go, and their keys with them. A failing filter stops the statement where it is, with
        table and index still in agreement. */
    method Delete(filter: Option<Expr>) returns (r: Result<()>, ghost done: iset<Rid>)
      requires Valid() && Ready()
      modifies this`heap, this`history, index, wal
      ensures Valid() && Ready()
      ensures ChosenGone(columns, filter, floatCmp, done, old(Rows()), Rows())
      ensures r.Ok? ==> forall rid :: rid in old(Rows()) ==> rid in done
      ensures r.Ok? <==> AllDecided(columns, filter, floatCmp, old(Rows()))
      ensures forall p :: p in old(heap) && p !in pageIds ==> p in heap && heap[p] == old(heap)[p]
      ensures old(Clean()) && r.Ok? ==> Clean()
    {
      hide DecodeRow, RowsOf, Agree, Matches, PagesOk, KeyColumn, Surviving, AllEvaluate, Ready, Clean, Tidy, Logging,
        Droppable, ChosenGone, AllDecided;
      ghost var rows := Rows();
      var t := Begin();
      done := iset{};
      NoneVisited(columns, rows, filter, [], floatCmp);
      for i := 0 to |pageIds|
        invariant Valid() && Rows() == Surviving(columns, rows, filter, floatCmp, done)
        invariant forall rid :: rid in done ==> rid.pageId in pageIds[..i]
        invariant forall rid :: rid in rows && rid.pageId in pageIds[..i] ==> rid in done
        invariant AllEvaluate(columns, rows, filter, floatCmp, done)
        invariant forall p :: p in old(heap) && p !in pageIds ==> p in heap && heap[p] == old(heap)[p]
        invariant Logging(t) && Droppable() && Deleting() && (old(Clean()) ==> Tidy(Logged().view))
      {
        PageOnce(pageIds, heap, numPages, i);
        r, done := DeletePage(t, pageIds[i], filter, rows, done);
        if r.Err? {
          LeftOpen(t);
          SurvivingMeans(columns, rows, filter, floatCmp, done);
          return;
        }
      }
      OnPages(columns, old(heap), pageIds);
      assert pageIds[..|pageIds|] == pageIds;
      AllVisited(columns, rows, filter, floatCmp, done);
      SurvivingMeans(columns, rows, filter, floatCmp, done);
      Commit(t);
      r := Ok(());
    }

    lemma {:induction false} PageKnown(p: nat)
      requires p in pageIds && Valid()
      ensures p in heap
    {
      hide Agree, RowsOf, KeyColumn;
      PageFacts(pageIds, heap, numPages, p);
    }

    /** One slot of the statement: a tombstone or a row that does not match stays as it is. */
    method DeleteSlot(t: nat, p: nat, slot: nat, filter: Option<Expr>) returns (r: Result<()>)
      requires p in pageIds && p in heap && slot < |heap[p]|
      requires Valid() && Logging(t) && Droppable() && Deleting()
      modifies this`heap, index, wal
      ensures Valid()
      ensures var rid, rows := Rid(p, slot), old(Rows());
        && (r.Err? <==> rid in rows && Matches(columns, filter, rows[rid], floatCmp).Err?)
        && Rows() ==
           if rid in rows && Matches(columns, filter, rows[rid], floatCmp) == Ok(true) then rows - {rid} else rows
      ensures p in heap && heap == old(heap)[p := heap[p]] && |heap[p]| == |old(heap)[p]|
      ensures Logging(t) && Droppable() && Deleting() && (old(Tidy(Logged().view)) ==> Tidy(Logged().view))
    {
      hide DecodeRow, RowsOf, Agree, Matches, TypedRow, PagesOk, KeyColumn, Tidy, Logging, Droppable, Deleting;
      ghost var rid := Rid(p, slot);
      RowLives(columns, heap, pageIds, rid);
      if !Live(heap[p], slot) {
        return Ok(());
      }
      LiveRow(columns, pk, heap, pageIds, index.contents, rid);
      var row := DeserializeRow(columns, heap[p][slot].bytes);
      if row.Err? {
        return Err("unreadable row");
      }
      var matches := Matches(columns, filter, row.value, floatCmp);
      if matches.Err? {
        return Err(matches.error);
      }
      if matches.value {
        DeleteRow(t, p, slot, row.value[pk].n);
      }
      r := Ok(());
    }

    method DeletePage(t: nat, p: nat, filter: Option<Expr>, ghost rows: imap<Rid, Row>, ghost before: iset<Rid>)
      returns (r: Result<()>, ghost done: iset<Rid>)
      requires p in pageIds && forall rid :: rid in before ==> rid.pageId != p
      requires Valid() && Logging(t) && Droppable() && Deleting()
      requires Rows() == Surviving(columns, rows, filter, floatCmp, before) &&
               AllEvaluate(columns, rows, filter, floatCmp, before)
      modifies this`heap, index, wal
      ensures Valid() && Rows() == Surviving(columns, rows, filter, floatCmp, done)
      ensures forall rid :: rid in done ==> rid in before || rid.pageId == p
      ensures forall rid :: rid in before ==> rid in done
      ensures r.Ok? ==> AllEvaluate(columns, rows, filter, floatCmp, done)
      ensures r.Ok? ==> forall rid :: rid in rows && rid.pageId == p ==> rid in done
      ensures r.Err? ==> exists rid :: rid in rows && Matches(columns, filter, rows[rid], floatCmp).Err?
      ensures p in heap && heap == old(heap)[p := heap[p]]
      ensures Logging(t) && Droppable() && Deleting() && (old(Tidy(Logged().view)) ==> Tidy(Logged().view))
    {
      hide RowsOf, Valid, Matches, Surviving, Tidy, Logging, Droppable, Deleting;
      PageKnown(p);
      done := before;
      for slot := 0 to |heap[p]|
        invariant Valid() && Rows() == Surviving(columns, rows, filter, floatCmp, done)
        invariant forall rid :: rid in done <==> rid in before || (rid.pageId == p && rid.slotId < slot)
        invariant AllEvaluate(columns, rows, filter, floatCmp, done)
        invariant p in heap && heap == old(heap)[p := heap[p]] && |heap[p]| == |old(heap)[p]|
        invariant Logging(t) && Droppable() && Deleting() && (old(Tidy(Logged().view)) ==> Tidy(Logged().view))
      {
        ghost var rid := Rid(p, slot);
        SurvivingStep(columns, rows, filter, floatCmp, done, rid);
        r := DeleteSlot(t, p, slot, filter);
        if r.Err? {
          return;
        }
        done := done + iset{rid};
      }
      forall rid | rid in rows && rid.pageId == p ensures rid in done {
        if rid !in done {
          SurvivingStep(columns, rows, filter, floatCmp, done, rid);
          RowLives(columns, heap, pageIds, rid);
        }
      }
      r := Ok(());
    }

    // --- UPDATE ---

    /** No assignment makes the key NULL or takes a key in use. */
    method CheckKey(oldKey: i64, asg: seq<Assignment>) returns (r: Result<()>)
      requires Valid()
      ensures r.Ok? <==> KeyFree(columns[pk].name, oldKey, asg, index.contents)
    {
      hide Agree, RowsOf, PagesOk;
      for i := 0 to |asg|
        invariant forall j :: 0 <= j < i && asg[j].column == columns[pk].name ==>
          FreeValue(asg[j].value, oldKey, index.contents)
      {
        var v := asg[i].value;
        if asg[i].column == columns[pk].name {
          if v.Null? {
            return Err("PRIMARY KEY column cannot be NULL");
          }
          if v.Int? && v.n != oldKey {
            var found := index.Search(v.n);
            if found.Some? {
              return Err("duplicate primary key");
            }
          }
        }
      }
      r := Ok(());
    }

    /** The row after all assignments, in order. */
    method Assign(oldRow: Row, asg: seq<Assignment>) returns (r: Result<Row>)
      requires |oldRow| == |columns|
      ensures r == Assigned(columns, oldRow, asg)
    {
      var row := oldRow;
      assert asg[0..] == asg;
      for i := 0 to |asg|
        invariant |row| == |columns| && Assigned(columns, oldRow, asg) == Assigned(columns, row, asg[i..])
      {
        var idx := ColIndex(columns, asg[i].column);
        if idx.None? {
          return Err("column not found");
        }
        if !Assignable(asg[i].value, columns[idx.value].ty) {
          return Err("type mismatch");
        }
        assert asg[i..][1..] == asg[i + 1..];
        row := row[idx.value := asg[i].value];
      }
      r := Ok(row);
    }

    /** `log_update`, then `update_tuple`, which refuses to let the tuple grow. */
    method ReplaceLogged(t: nat, p: nat, slot: nat, oldBytes: seq<byte>, bytes: seq<byte>)
      requires p in heap && Get(heap[p], slot) == Some(oldBytes)
      requires Logging(t) && Droppable()
      modifies this`heap, wal
      ensures Logging(t) && Droppable() && heap == old(heap)[p := Updated(old(heap)[p], slot, bytes)]
      ensures Wal.SameShape(old(heap), heap)
      ensures old(Tidy(Logged().view)) ==> Tidy(Logged().view)
    {
      hide Recovery.StateOf, Wal.SameShape, TableLog.Tidy, TableLog.Remembers;
      ghost var rs := wal.records;
      ghost var heap' := heap[p := Updated(heap[p], slot, bytes)];
      Wal.ShapeOfChange(heap, p, slot, bytes);
      Wal.ShapeTrans(Logged().committed, heap, heap');
      Wal.ShapeTrans(Logged().view, heap, heap');
      Wal.ShapeFlip(Logged().view, heap');
      Wal.ShapeUpdate(heap', Logged().view, p, slot, bytes);
      wal.LogUpdate(t, p, slot, oldBytes, bytes);
      Wal.ShapeFlip(heap', Logged().view);
      if old(Tidy(Logged().view)) {
        TableLog.TidyUpdate(columns, pk, rs, wal.records[|rs|], history, heap);
      }
      heap := heap[p := Updated(heap[p], slot, bytes)];
    }

    /** Writes the new bytes over the old row and moves its key. */
    method Rewrite(t: nat, p: nat, slot: nat, oldKey: i64, row: Row, bytes: seq<byte>)
      requires LiveAt(heap, pageIds, Rid(p, slot)) && CanUpdate(heap[p], slot, bytes) && bytes == EncodeRow(row)
      requires Keyed(columns, pk, row) && FreeValue(row[pk], oldKey, index.contents)
      requires Valid() && Logging(t) && Droppable()
      requires Rid(p, slot) in Rows() && KeyIs(Rows()[Rid(p, slot)], pk, oldKey)
      modifies this`heap, index, wal
      ensures Valid() && Rows() == old(Rows())[Rid(p, slot) := row]
      ensures p in heap && heap == old(heap)[p := heap[p]] && Wal.SameShape(old(heap), heap)
      ensures Logging(t) && Droppable() && (old(Tidy(Logged().view)) ==> Tidy(Logged().view))
    {
      hide DecodeRow, EncodeRow, RowsOf, Agree, ShortTexts, TypedRow, PagesOk, KeyColumn, Tidy, Logging, Droppable,
        Wal.SameShape;
      PageFacts(pageIds, heap, numPages, p);
      TextsFit(row);
      HeapUpdate(columns, heap, pageIds, Rid(p, slot), row);
      AgreeReplace(columns, pk, Rows(), index.contents, Rid(p, slot), row);
      PagesReplace(pageIds, heap, numPages, p, Updated(heap[p], slot, bytes));
      ReplaceLogged(t, p, slot, heap[p][slot].bytes, bytes);
      var _ := index.Delete(oldKey);
      index.Insert(row[pk].n, Rid(p, slot));
    }

    /** The growing row is logged all the same, and the transaction aborted. */
    method Refuse(t: nat, p: nat, slot: nat, bytes: seq<byte>)
      requires p in heap && Live(heap[p], slot) && !CanUpdate(heap[p], slot, bytes)
      requires Logging(t) && Droppable()
      modifies this`heap, wal
      ensures Ready() && heap == old(heap)
    {
      hide Recovery.StateOf, Wal.SameShape;
      ReplaceLogged(t, p, slot, heap[p][slot].bytes, bytes);
      assert heap == old(heap);
      Wal.ShapeBack(Logged().committed, heap, Logged().view);
      wal.AbortTxn(t);
    }

    /** Rewrites one live row in place and moves its key; on any error no row has changed. */
    method UpdateRow(t: nat, p: nat, slot: nat, oldRow: Row, asg: seq<Assignment>) returns (r: Result<()>)
      requires LiveAt(heap, pageIds, Rid(p, slot))
      requires Valid() && Logging(t) && Droppable()
      requires Rid(p, slot) in Rows() && Rows()[Rid(p, slot)] == oldRow && Keyed(columns, pk, oldRow)
      modifies this`heap, index, wal
      ensures Valid()
      ensures r.Ok? <==>
        && KeyFree(columns[pk].name, oldRow[pk].n, asg, old(index.contents)) && Assigned(columns, oldRow, asg).Ok?
        && |EncodeRow(Assigned(columns, oldRow, asg).value)| <= |old(heap)[p][slot].bytes|
      ensures r.Ok? ==> Rows() == old(Rows())[Rid(p, slot) := Assigned(columns, oldRow, asg).value]
      ensures r.Err? ==> Rows() == old(Rows()) && Ready()
      ensures p in heap && heap == old(heap)[p := heap[p]] && Wal.SameShape(old(heap), heap)
      ensures r.Ok? ==> Logging(t) && Droppable() && (old(Tidy(Logged().view)) ==> Tidy(Logged().view))
    {
      hide DecodeRow, EncodeRow, RowsOf, Agree, ShortTexts, Assigned, TypedRow, PagesOk, KeyFree, Tidy, Logging,
        Droppable, Ready, Wal.SameShape;
      PageFacts(pageIds, heap, numPages, p);
      Wal.ShapeRefl(heap);
      var free := CheckKey(oldRow[pk].n, asg);
      if free.Err? {
        LeftOpen(t);
        return free;
      }
      Sizes(columns, oldRow);
      var row := Assign(oldRow, asg);
      if row.Err? {
        LeftOpen(t);
        return Err(row.error);
      }
      AssignedKeyed(columns, pk, oldRow, asg, oldRow[pk].n, index.contents);
      var bytes := SerializeRow(columns, row.value);
      if bytes.Err? {
        LeftOpen(t);
        return Err("type mismatch");
      }
      if !CanUpdate(heap[p], slot, bytes.value) {
        Refuse(t, p, slot, bytes.value);
        return Err("UPDATE failed: new value for row is larger than original");
      }
      Rewrite(t, p, slot, oldRow[pk].n, row.value, bytes.value);
      r := Ok(());
    }

    /** An UPDATE succeeds if and only if every row, when its turn comes, can be visited: then exactly the matching rows
        are revised, each in its place. One that fails has revised the rows in `done` and no others. Table and index
        agree either way. */
    method Update(asg: seq<Assignment>, filter: Option<Expr>) returns (r: Result<()>, ghost done: iset<Rid>)
      requires Valid() && Ready()
      modifies this`heap, this`history, index, wal
      ensures Valid() && Ready()
      ensures ChosenSet(columns, filter, asg, floatCmp, done, old(Rows()), Rows())
      ensures r.Ok? ==> forall rid :: rid in old(Rows()) ==> rid in done
      ensures r.Ok? ==> forall rid :: rid in old(Rows()) && Chosen(columns, filter, old(Rows())[rid], floatCmp) ==>
        Settable(columns, asg)
      ensures r.Ok? <==> forall rid :: rid in old(Rows()) ==>
        RevisableAt(columns, pk, old(Rows()), pageIds, old(heap), filter, asg, floatCmp, rid)
      ensures forall p :: p in old(heap) && p !in pageIds ==> p in heap && heap[p] == old(heap)[p]
      ensures old(Clean()) && r.Ok? ==> Clean()
    {
      hide DecodeRow, RowsOf, Agree, Matches, PagesOk, KeyColumn, RevisableAt, RevisedRows, Ready, Clean, Tidy,
        Logging, Droppable, Wal.SameShape, Before, Chosen, Settable, ChosenSet, Wide;
      ghost var rows := Rows();
      RowsWide(columns, pk, rows, index.contents);
      var t := Begin();
      done := iset{};
      NoneVisited(columns, rows, filter, asg, floatCmp);
      Wal.ShapeRefl(heap);
      for i := 0 to |pageIds|
        invariant Valid() && Rows() == RevisedRows(columns, rows, filter, asg, floatCmp, done)
        invariant done == OnPagesBefore(pageIds, i)
        invariant forall rid :: rid in rows && rid.pageId in pageIds[..i] ==>
          RevisableAt(columns, pk, rows, pageIds, old(heap), filter, asg, floatCmp, rid)
        invariant forall p :: p in old(heap) && p !in pageIds ==> p in heap && heap[p] == old(heap)[p]
        invariant Wal.SameShape(old(heap), heap)
        invariant Logging(t) && Droppable() && (old(Clean()) ==> Tidy(Logged().view))
      {
        PageOnce(pageIds, heap, numPages, i);
        PagesDistinct(pageIds, heap, numPages);
        r, done := UpdatePage(t, i, asg, filter, rows, old(heap));
        if r.Err? {
          RevisedRowsMeans(columns, rows, filter, asg, floatCmp, done);
          return;
        }
      }
      OnPages(columns, old(heap), pageIds);
      assert pageIds[..|pageIds|] == pageIds;
      RevisedRowsMeans(columns, rows, filter, asg, floatCmp, done);
      ChosenSettable(columns, pk, rows, pageIds, old(heap), filter, asg, floatCmp);
      Commit(t);
      r := Ok(());
    }

    /** One slot of the statement: a tombstone or a row that does not match stays as it is. */
    method UpdateSlot(t: nat, p: nat, slot: nat, asg: seq<Assignment>, filter: Option<Expr>) returns (r: Result<()>)
      requires p in pageIds && p in heap && slot < |heap[p]|
      requires Valid() && Logging(t) && Droppable()
      modifies this`heap, index, wal
      ensures Valid()
      ensures var rid, rows := Rid(p, slot), old(Rows());
        && (r.Ok? <==> rid !in rows || Revisable(columns, pk, rows, rows[rid], filter, asg, floatCmp,
                                                 |old(heap)[p][slot].bytes|))
        && Rows() ==
           if r.Ok? && rid in rows then rows[rid := Revised(columns, rows[rid], filter, asg, floatCmp)] else rows
      ensures p in heap && heap == old(heap)[p := heap[p]] && Wal.SameShape(old(heap), heap)
      ensures r.Ok? ==> Logging(t) && Droppable() && (old(Tidy(Logged().view)) ==> Tidy(Logged().view))
      ensures r.Err? ==> Ready()
    {
      hide DecodeRow, RowsOf, Agree, Matches, TypedRow, KeyFree, KeyFreeIn, Assigned, PagesOk, KeyColumn, EncodeRow,
        Tidy, Logging, Droppable, Ready, Wal.SameShape;
      ghost var rid := Rid(p, slot);
      RowLives(columns, heap, pageIds, rid);
      Wal.ShapeRefl(heap);
      if !Live(heap[p], slot) {
        return Ok(());
      }
      LiveRow(columns, pk, heap, pageIds, index.contents, rid);
      var row := DeserializeRow(columns, heap[p][slot].bytes);
      if row.Err? {
        return Err("unreadable row");
      }
      Sizes(columns, row.value);
      KeyFreeAgrees(columns, pk, columns[pk].name, row.value[pk].n, asg, Rows(), index.contents);
      var matches := Matches(columns, filter, row.value, floatCmp);
      if matches.Err? {
        LeftOpen(t);
        return Err(matches.error);
      }
      if matches.value {
        r := UpdateRow(t, p, slot, row.value, asg);
      } else {
        assert Rows()[rid := row.value] == Rows();
        r := Ok(());
      }
    }

    method UpdatePage(t: nat, i: nat, asg: seq<Assignment>, filter: Option<Expr>, ghost rows: imap<Rid, Row>,
                      ghost heap0: Heap)
      returns (r: Result<()>, ghost done: iset<Rid>)
      requires i < |pageIds| && Distinct(pageIds)
      requires Valid() && Logging(t) && Droppable() && Wal.SameShape(heap0, heap)
      requires Rows() == RevisedRows(columns, rows, filter, asg, floatCmp, OnPagesBefore(pageIds, i))
      modifies this`heap, index, wal
      ensures Valid() && Rows() == RevisedRows(columns, rows, filter, asg, floatCmp, done)
      ensures r.Ok? ==> done == OnPagesBefore(pageIds, i + 1)
      ensures r.Ok? ==> forall rid :: rid in rows && rid.pageId == pageIds[i] ==>
        RevisableAt(columns, pk, rows, pageIds, heap0, filter, asg, floatCmp, rid)
      ensures r.Err? ==>
        exists rid :: rid in rows && !RevisableAt(columns, pk, rows, pageIds, heap0, filter, asg, floatCmp, rid)
      ensures pageIds[i] in heap && heap == old(heap)[pageIds[i] := heap[pageIds[i]]] && Wal.SameShape(heap0, heap)
      ensures r.Ok? ==> Logging(t) && Droppable() && (old(Tidy(Logged().view)) ==> Tidy(Logged().view))
      ensures r.Err? ==> Ready()
    {
      hide RowsOf, Valid, RevisedRows, Revised, Tidy, Logging, Droppable, Ready, Wal.SameShape,
        Revisable, Before, OnPagesBefore, Distinct;
      var p := pageIds[i];
      PageKnown(p);
      StartOfPage(pageIds, i);
      done := Before(pageIds, Rid(p, 0));
      for slot := 0 to |heap[p]|
        invariant Valid() && Rows() == RevisedRows(columns, rows, filter, asg, floatCmp, done)
        invariant done == Before(pageIds, Rid(p, slot))
        invariant forall rid :: rid in rows && rid.pageId == p && rid.slotId < slot ==>
          RevisableAt(columns, pk, rows, pageIds, heap0, filter, asg, floatCmp, rid)
        invariant p in heap && heap == old(heap)[p := heap[p]] && Wal.SameShape(heap0, heap) &&
                  |heap[p]| == |old(heap)[p]|
        invariant Logging(t) && Droppable() && (old(Tidy(Logged().view)) ==> Tidy(Logged().view))
      {
        ghost var rid := Rid(p, slot);
        BeforeNext(pageIds, p, slot);
        RevisedStep(columns, rows, filter, asg, floatCmp, done, rid);
        Wal.ShapeAt(heap0, heap, p);
        ghost var was := heap;
        r := UpdateSlot(t, p, slot, asg, filter);
        Wal.ShapeTrans(heap0, was, heap);
        Wal.ShapeAt(was, heap, p);
        if r.Err? {
          assert !RevisableAt(columns, pk, rows, pageIds, heap0, filter, asg, floatCmp, rid);
          return;
        }
        done := done + iset{rid};
      }
      VisitedAll(columns, rows, filter, asg, floatCmp, heap, pageIds, done, p);
      EndOfPage(columns, rows, filter, asg, floatCmp, pageIds, i, |heap[p]|);
      done := OnPagesBefore(pageIds, i + 1);
      r := Ok(());
    }

    // --- SELECT ---

    /** What the row at `rid` contributes to a query. */
    method Visit(q: Query, rid: Rid) returns (r: Result<seq<Row>>)
      requires q.columns == columns
      requires Valid()
      ensures r == OutcomeAt(q, Rows(), rid)
    {
      hide DecodeRow, Agree, Matches, PagesOk, TypedRow, Project, RowsOf;
      RowLives(columns, heap, pageIds, rid);
      if rid.pageId !in pageIds {
        return Ok([]);
      }
      PageFacts(pageIds, heap, numPages, rid.pageId);
      if !Live(heap[rid.pageId], rid.slotId) {
        return Ok([]);
      }
      LiveRow(columns, pk, heap, pageIds, index.contents, rid);
      var row := DeserializeRow(columns, heap[rid.pageId][rid.slotId].bytes);
      if row.Err? {
        return Err("unreadable row");
      }
      var matches := Matches(columns, q.filter, row.value, q.fcmp);
      if matches.Err? {
        return Err(matches.error);
      }
      if !matches.value {
        return Ok([]);
      }
      var projected := Project(columns, row.value, q.cols);
      if projected.Err? {
        return Err(projected.error);
      }
      r := Ok([projected.value]);
    }

    /** One page of the scan: the answer so far, or the error that is the whole scan's answer. */
    method ScanPage(q: Query, i: nat, found: seq<Row>) returns (r: Result<seq<Row>>)
      requires q.columns == columns && i < |pageIds|
      requires Collected(q, Rows(), ScanRids(heap, pageIds[..i])) == Ok(found)
      requires Valid()
      ensures r.Ok? ==> r == Collected(q, Rows(), ScanRids(heap, pageIds[..i + 1]))
      ensures r.Err? ==> r == Answer(q, heap, pageIds)
    {
      hide Agree, OutcomeAt, RowsOf, PagesOk, KeyColumn, ScanRids;
      var p, results := pageIds[i], found;
      PageOnce(pageIds, heap, numPages, i);
      ghost var before := ScanRids(heap, pageIds[..i]);
      assert before + PageRids(p, 0) == before;
      for slot := 0 to |heap[p]|
        invariant Collected(q, Rows(), before + PageRids(p, slot)) == Ok(results)
      {
        var one := Visit(q, Rid(p, slot));
        ghost var seen := before + PageRids(p, slot);
        assert before + PageRids(p, slot + 1) == seen + [Rid(p, slot)];
        assert (seen + [Rid(p, slot)])[..|seen|] == seen;
        if one.Err? {
          ghost var rest := ScanTail(heap, pageIds, i, slot);
          CollectedConcat(q, Rows(), before + PageRids(p, slot + 1), rest);
          return Err(one.error);
        }
        results := results + one.value;
      }
      ScanPageNext(heap, pageIds, i);
      r := Ok(results);
    }

    /** Page by page, slot by slot. */
    method SeqScan(q: Query) returns (r: Result<seq<Row>>)
      requires q.columns == columns
      requires Valid()
      ensures r == Answer(q, heap, pageIds)
    {
      hide Agree, OutcomeAt, RowsOf, PagesOk, KeyColumn;
      var results: seq<Row> := [];
      for i := 0 to |pageIds|
        invariant Collected(q, Rows(), ScanRids(heap, pageIds[..i])) == Ok(results)
      {
        r := ScanPage(q, i, results);
        if r.Err? {
          return;
        }
        results := r.value;
      }
      assert pageIds[..|pageIds|] == pageIds;
      r := Ok(results);
    }

    /** The record ids the index gives for a comparison of the key. */
    method IndexRids(op: Op, rhs: i64) returns (rids: seq<Rid>)
      requires Indexable(op)
      requires Valid()
      ensures RangeOf(index.contents, Low(op, rhs), High(op, rhs), rids)
    {
      hide Agree, RowsOf, PagesOk, KeyColumn, RangeOf;
      if op.Eq? {
        var found := index.Search(rhs);
        rids := if found.Some? then [found.value] else [];
        PointRange(index.contents, rhs);
        PointBounds(rhs);
      } else {
        rids := index.RangeScan(Low(op, rhs), High(op, rhs));
      }
    }

    /** Rows fetched by record id, in turn. */
    method FetchRows(q: Query, rids: seq<Rid>) returns (r: Result<seq<Row>>)
      requires q.columns == columns
      requires Valid()
      ensures r == Collected(q, Rows(), rids)
    {
      hide Agree, OutcomeAt, RowsOf, PagesOk, KeyColumn;
      var results: seq<Row> := [];
      for i := 0 to |rids|
        invariant Collected(q, Rows(), rids[..i]) == Ok(results)
      {
        var one := Visit(q, rids[i]);
        assert rids[..i + 1][..i] == rids[..i];
        if one.Err? {
          CollectedConcat(q, Rows(), rids[..i + 1], rids[i + 1..]);
          assert rids == rids[..i + 1] + rids[i + 1..];
          return Err(one.error);
        }
        results := results + one.value;
      }
      assert rids[..|rids|] == rids;
      r := Ok(results);
    }

    /** The filter compares the key column with an integer. */
    ghost predicate OnKey(filter: Option<Expr>)
      requires KeyColumn(columns, pk)
    {
      filter.Some? && filter.value.left == columns[pk].name && filter.value.right.Int? && Indexable(filter.value.op)
    }

    /** Through the index where it applies: comparisons of the key column with an integer. The rows come in key order;
        as often as the sequential scan finds them. */
    method TryIndexSelect(q: Query) returns (used: bool, r: Result<seq<Row>>)
      requires q.columns == columns && q.filter.Some?
      requires Valid()
      ensures used <==> OnKey(q.filter)
      ensures used ==> SameAnswer(r, Answer(q, heap, pageIds)) && (r.Ok? <==> Answerable(q, Rows()))
      ensures used && r.Ok? ==> exists from :: Lists(q, Rows(), from, r.value) && KeyOrder(pk, Rows(), from)
    {
      hide Agree, OutcomeAt, RowsOf, PagesOk, Answer, SameAnswer, RangeOf, Low, High, Collected, Lists, KeyOrder,
        Answerable, Wide;
      var e := q.filter.value;
      if e.left != columns[pk].name || !e.right.Int? || !Indexable(e.op) {
        return false, Ok([]);
      }
      var rids := IndexRids(e.op, e.right.n);
      PagesDistinct(pageIds, heap, numPages);
      RowsWide(columns, pk, Rows(), index.contents);
      assert IndexScan(q, pk, Rows(), index.contents, rids);
      IndexScanAgrees(q, pk, heap, pageIds, index.contents, rids);
      IndexLists(q, pk, Rows(), index.contents, rids);
      used := true;
      r := FetchRows(q, rids);
    }

    /** A query lists what is asked of every row its filter chooses, once each: by ascending key where the filter
        compares the key with an integer, page by page elsewhere. It fails if and only if the filter cannot be decided
        on some row, or some row is chosen and a column asked for does not exist. */
    method Select(cols: SelectColumns, filter: Option<Expr>) returns (r: Result<seq<Row>>)
      requires Valid()
      ensures r.Ok? <==> Answerable(Query(columns, filter, cols, floatCmp), Rows())
      ensures r.Ok? ==> exists from ::
        && Lists(Query(columns, filter, cols, floatCmp), Rows(), from, r.value)
        && (if OnKey(filter) then KeyOrder(pk, Rows(), from) else ScanOrder(pageIds, from))
    {
      hide Agree, RowsOf, PagesOk, KeyColumn, Answer, Answerable, Lists, Wide, SameAnswer, KeyOrder, ScanOrder;
      var q := Query(columns, filter, cols, floatCmp);
      if filter.Some? {
        var used, found := TryIndexSelect(q);
        if used {
          return found;
        }
      }
      RowsWide(columns, pk, Rows(), index.contents);
      PagesDistinct(pageIds, heap, numPages);
      ScanLists(q, heap, pageIds);
      r := SeqScan(q);
    }
  }

  /** A statement that has visited nothing has changed nothing. */
  lemma {:induction false} NoneVisited(columns: seq<ColumnDef>, rows: imap<Rid, Row>, filter: Option<Expr>,
                                       asg: seq<Assignment>, fcmp: FloatCmp)
    ensures Surviving(columns, rows, filter, fcmp, iset{}) == rows
    ensures RevisedRows(columns, rows, filter, asg, fcmp, iset{}) == rows
    ensures AllEvaluate(columns, rows, filter, fcmp, iset{})
  {
    hide Matches, Revised;
  }

  lemma {:induction false} AllVisited(columns: seq<ColumnDef>, rows: imap<Rid, Row>, filter: Option<Expr>,
                                      fcmp: FloatCmp, done: iset<Rid>)
    requires AllEvaluate(columns, rows, filter, fcmp, done) && forall rid :: rid in rows ==> rid in done
    ensures forall rid :: rid in rows ==> Matches(columns, filter, rows[rid], fcmp).Ok?
  {
    hide Matches;
  }

  /** What is left of a scan after slot `slot` of page `ids[i]`. */
  lemma {:induction false} ScanTail(heap: Heap, ids: seq<nat>, i: nat, slot: nat) returns (rest: seq<Rid>)
    requires i < |ids| && ids[i] in heap && slot < |heap[ids[i]]|
    ensures ScanRids(heap, ids) == ScanRids(heap, ids[..i]) + PageRids(ids[i], slot + 1) + rest
    decreases |ids|
  {
    var p, init := ids[|ids| - 1], ids[..|ids| - 1];
    if i == |ids| - 1 {
      rest := PageRids(p, |heap[p]|)[slot + 1..];
      assert PageRids(p, |heap[p]|) == PageRids(p, slot + 1) + rest;
    } else {
      var rest' := ScanTail(heap, init, i, slot);
      assert init[..i] == ids[..i];
      rest := rest' + PageRids(p, if p in heap then |heap[p]| else 0);
    }
  }

  lemma {:induction false} ScanPageNext(heap: Heap, ids: seq<nat>, i: nat)
    requires i < |ids| && ids[i] in heap
    ensures ScanRids(heap, ids[..i + 1]) == ScanRids(heap, ids[..i]) + PageRids(ids[i], |heap[ids[i]]|)
  {
    assert ids[..i + 1][..i] == ids[..i];
  }

  lemma {:induction false} PointBounds(n: i64)
    ensures Low(Eq, n) == n && High(Eq, n) == n
  {
  }

  lemma {:induction false} Sizes(columns: seq<ColumnDef>, row: Row)
    ensures TypedRow(columns, row) ==> |row| == |columns|
  {
  }

  lemma {:induction false} RowsWide(columns: seq<ColumnDef>, pk: nat, rows: imap<Rid, Row>, contents: map<int, Rid>)
    requires Agree(columns, pk, rows, contents)
    ensures Wide(columns, rows)
  {
  }

  /** An UPDATE that could visit every row could make its assignments. */
  lemma {:induction false} ChosenSettable(columns: seq<ColumnDef>, pk: nat, rows: imap<Rid, Row>, ids: seq<nat>,
                                          heap: Heap, filter: Option<Expr>, asg: seq<Assignment>, fcmp: FloatCmp)
    requires forall rid :: rid in rows ==> RevisableAt(columns, pk, rows, ids, heap, filter, asg, fcmp, rid)
    ensures forall rid :: rid in rows && Chosen(columns, filter, rows[rid], fcmp) ==> Settable(columns, asg)
  {
    hide Chosen, Settable, Matches, Assigned, Before, RevisedRows, EncodeRow, KeyFreeIn;
    forall rid | rid in rows && Chosen(columns, filter, rows[rid], fcmp) ensures Settable(columns, asg) {
      MatchesMeans(columns, filter, rows[rid], fcmp);
      AssignedMeans(columns, rows[rid], asg);
    }
  }

  lemma {:induction false} NoRows(columns: seq<ColumnDef>, pk: nat, heap: Heap)
    ensures RowsOf(columns, heap, []) == imap[] && Agree(columns, pk, imap[], map[])
  {
    hide RowOf;
  }

  lemma {:induction false} PagesDistinct(ids: seq<nat>, heap: Heap, numPages: nat)
    requires PagesOk(ids, heap, numPages)
    ensures Distinct(ids)
  {
  }

  /** Rows of an UPDATE live where they lived before it. */
  lemma {:induction false} VisitedAll(columns: seq<ColumnDef>, rows: imap<Rid, Row>, filter: Option<Expr>,
                                      asg: seq<Assignment>,
                                      fcmp: FloatCmp, heap: Heap, ids: seq<nat>, done: iset<Rid>, p: nat)
    requires p in heap && RowsOf(columns, heap, ids) == RevisedRows(columns, rows, filter, asg, fcmp, done)
    ensures forall rid :: rid in rows && rid.pageId == p ==> rid.slotId < |heap[p]|
  {
    hide RowOf, Revised;
    forall rid | rid in rows && rid.pageId == p ensures rid.slotId < |heap[p]| {
      assert rid in RowsOf(columns, heap, ids);
    }
  }

  lemma {:induction false} RemembersNow(history: seq<TableLog.Moment>, ids: seq<nat>, heap: Heap, numPages: nat,
                                        m: TableLog.Moment)
    requires m.heap == heap && m.pageIds == ids && PagesOk(ids, heap, numPages) &&
             TableLog.Remembers(history, ids, numPages)
    ensures TableLog.Remembers(history + [m], ids, numPages)
  {
    hide Distinct, Bounded;
    assert TableLog.Remembered(m, ids, numPages);
    forall i | 0 <= i < |history| ensures TableLog.Remembered((history + [m])[i], ids, numPages) {
      assert (history + [m])[i] == history[i];
    }
  }

  lemma {:induction false} OnPages(columns: seq<ColumnDef>, heap: Heap, ids: seq<nat>)
    ensures forall rid :: rid in RowsOf(columns, heap, ids) ==> rid.pageId in ids
  {
    hide RowOf;
  }

  lemma {:induction false} KeyTyped(columns: seq<ColumnDef>, pk: nat, row: Row)
    requires TypedRow(columns, row) && pk < |row| && columns[pk].ty == IntType && !row[pk].Null?
    ensures row[pk].Int?
  {
  }
}
