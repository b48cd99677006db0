/** Crash recovery: redo of committed transactions and reverse undo of unfinished ones
    (src/recovery/wal.rs), against the state the log says was committed. */
module Recovery {
  import opened Common
  import opened Bytes
  import opened Slots
  import opened LogRecord
  import opened UndoPass

  // --- What the log means ---

  /** After a prefix of the log: the last committed pages, the pages as the transaction begun last sees them, and
      that transaction while it is open. */
  datatype LogState = LogState(committed: Pages, view: Pages, cur: Option<Txn>)

  const START: LogState := LogState(map[], map[], None)

  /** A Begin drops whatever an unfinished transaction before it did. */
  function Next(ls: LogState, r: LogRecord): LogState {
    match r
    case Begin(_, t) => ls.(view := ls.committed, cur := Some(t))
    case Insert(_, _, p, _, data) => ls.(view := ls.view[p := Appended(SlotsOf(ls.view, p), data)])
    case Delete(_, _, p, slot, _) =>
      ls.(view := if p in ls.view then ls.view[p := Deleted(ls.view[p], slot)] else ls.view)
    case Update(_, _, p, slot, _, data) => ls.(view := ls.view[p := Updated(SlotsOf(ls.view, p), slot, data)])
    case Commit(_, t) => ls.(committed := ls.view, cur := None)
    case Abort(_, t) => ls.(view := ls.committed, cur := None)
    case Checkpoint(_) => ls
  }

  /** The records a log may hold next: those of the transaction begun last, inserts at the end of the page as it
      sees it. A Begin may come while an earlier transaction is still open: a crash or a failed statement left it. */
  predicate Allowed(ls: LogState, r: LogRecord) {
    match r
    case Begin(_, _) => true
    case Insert(_, t, p, slot, data) =>
      ls.cur == Some(t) && slot == |SlotsOf(ls.view, p)| && Fits(SlotsOf(ls.view, p), |data|)
    case Delete(_, t, _, _, _) => ls.cur == Some(t)
    case Update(_, t, _, _, _, _) => ls.cur == Some(t)
    case Commit(_, t) => ls.cur == Some(t)
    case Abort(_, t) => ls.cur == Some(t)
    case Checkpoint(_) => true
  }

  function StateOf(rs: seq<LogRecord>): LogState {
    if rs == [] then START else Next(StateOf(rs[..|rs| - 1]), rs[|rs| - 1])
  }

  predicate WellFormed(rs: seq<LogRecord>) {
    rs == [] || (WellFormed(rs[..|rs| - 1]) && Allowed(StateOf(rs[..|rs| - 1]), rs[|rs| - 1]))
  }

  lemma {:induction false} PrefixStep(rs: seq<LogRecord>, i: nat)
    requires WellFormed(rs) && i < |rs|
    ensures WellFormed(rs[..i]) && Allowed(StateOf(rs[..i]), rs[i])
    ensures StateOf(rs[..i + 1]) == Next(StateOf(rs[..i]), rs[i]) && WellFormed(rs[..i + 1])
    decreases |rs|
  {
    hide Allowed, Next;
    assert rs[..i + 1][..i] == rs[..i] && rs[..i + 1][i] == rs[i];
    if i + 1 < |rs| {
      PrefixStep(rs[..|rs| - 1], i);
      assert rs[..|rs| - 1][..i] == rs[..i] && rs[..|rs| - 1][..i + 1] == rs[..i + 1];
    } else {
      assert rs[..i + 1] == rs;
    }
  }

  lemma {:induction false} PrefixWellFormed(rs: seq<LogRecord>, k: nat)
    requires WellFormed(rs) && k <= |rs|
    ensures WellFormed(rs[..k])
  {
    if k < |rs| { PrefixStep(rs, k); } else { assert rs[..k] == rs; }
  }

  lemma {:induction false} AppendAllowed(rs: seq<LogRecord>, r: LogRecord)
    requires WellFormed(rs) && Allowed(StateOf(rs), r)
    ensures WellFormed(rs + [r]) && StateOf(rs + [r]) == Next(StateOf(rs), r)
  {
    assert (rs + [r])[..|rs|] == rs;
  }

  // --- What recovery does ---

  function RedoOne(ps: Pages, r: LogRecord, committed: set<Txn>): Pages {
    match r
    case Insert(_, t, p, _, data) =>
      if t !in committed then ps
      else ps[p := if Fits(SlotsOf(ps, p), |data|) then Appended(SlotsOf(ps, p), data) else SlotsOf(ps, p)]
    case Delete(_, t, p, slot, _) =>
      if t in committed && p in ps then ps[p := Deleted(ps[p], slot)] else ps
    case Update(_, t, p, slot, _, data) =>
      if t in committed then ps[p := Updated(SlotsOf(ps, p), slot, data)] else ps
    case _ => ps
  }

  function Redo(rs: seq<LogRecord>, committed: set<Txn>, ps: Pages): Pages {
    if rs == [] then ps else RedoOne(Redo(rs[..|rs| - 1], committed, ps), rs[|rs| - 1], committed)
  }

  function Committed(rs: seq<LogRecord>): set<Txn> { set i | 0 <= i < |rs| && rs[i].Commit? :: rs[i].txn }
  function Aborted(rs: seq<LogRecord>): set<Txn> { set i | 0 <= i < |rs| && rs[i].Abort? :: rs[i].txn }
  function Started(rs: seq<LogRecord>): set<Txn> { set i | 0 <= i < |rs| && rs[i].Begin? :: rs[i].txn }

  function Incomplete(rs: seq<LogRecord>): set<Txn> { Started(rs) - Committed(rs) - Aborted(rs) }

  function Recovered(rs: seq<LogRecord>, ps: Pages): Pages {
    Undo(rs, Incomplete(rs), Redo(rs, Committed(rs), ps))
  }

  lemma {:induction false} OutcomesAppend(rs: seq<LogRecord>, r: LogRecord)
    ensures Committed(rs + [r]) == Committed(rs) + if r.Commit? then {r.txn} else {}
    ensures Aborted(rs + [r]) == Aborted(rs) + if r.Abort? then {r.txn} else {}
    ensures Started(rs + [r]) == Started(rs) + if r.Begin? then {r.txn} else {}
  {
    var s := rs + [r];
    assert s[|rs|] == r && forall i :: 0 <= i < |rs| ==> s[i] == rs[i];
    forall t | t in Committed(rs) ensures t in Committed(s) {
      var i :| 0 <= i < |rs| && rs[i].Commit? && rs[i].txn == t;
      assert s[i].Commit?;
    }
    forall t | t in Aborted(rs) ensures t in Aborted(s) {
      var i :| 0 <= i < |rs| && rs[i].Abort? && rs[i].txn == t;
      assert s[i].Abort?;
    }
    forall t | t in Started(rs) ensures t in Started(s) {
      var i :| 0 <= i < |rs| && rs[i].Begin? && rs[i].txn == t;
      assert s[i].Begin?;
    }
  }

  // --- Transactions of a well-formed log ---

  predicate Boundary(r: LogRecord) { r.Begin? || r.Commit? || r.Abort? }

  predicate Data(r: LogRecord) { r.Insert? || r.Delete? || r.Update? }

  ghost predicate NoBoundary(rs: seq<LogRecord>, i: nat, j: nat)
    requires i <= j <= |rs|
  {
    forall k :: i <= k < j ==> !Boundary(rs[k])
  }

  /** The transaction that logged record `i` went on to commit. */
  ghost predicate Lasting(rs: seq<LogRecord>, i: nat) {
    exists j :: i < j < |rs| && rs[j].Commit? && NoBoundary(rs, i + 1, j)
  }

  /** Redo goes by transaction ids: an id that commits anywhere commits wherever it logs a change. */
  ghost predicate FatesAgree(rs: seq<LogRecord>) {
    forall i :: 0 <= i < |rs| && Data(rs[i]) && rs[i].txn in Committed(rs) ==> Lasting(rs, i)
  }

  ghost predicate UniqueIds(rs: seq<LogRecord>) {
    forall i, j :: 0 <= i < j < |rs| && rs[i].Begin? && rs[j].Begin? ==> rs[i].txn != rs[j].txn
  }

  /** Between boundaries the same transaction stays open over the same committed pages. */
  lemma {:induction false} SameTransaction(rs: seq<LogRecord>, i: nat, j: nat)
    requires i <= j <= |rs| && NoBoundary(rs, i, j) && WellFormed(rs)
    ensures StateOf(rs[..j]).cur == StateOf(rs[..i]).cur && StateOf(rs[..j]).committed == StateOf(rs[..i]).committed
    decreases j - i
  {
    hide StateOf, WellFormed, Allowed;
    if i < j {
      SameTransaction(rs, i, j - 1);
      PrefixStep(rs, j - 1);
    }
  }

  /** An open transaction began, and no boundary came since. */
  lemma {:induction false} OpenSince(rs: seq<LogRecord>, i: nat) returns (b: nat)
    requires i <= |rs| && WellFormed(rs) && StateOf(rs[..i]).cur.Some?
    ensures b < i && rs[b].Begin? && Some(rs[b].txn) == StateOf(rs[..i]).cur && NoBoundary(rs, b + 1, i)
    decreases i
  {
    hide WellFormed, Allowed;
    assert rs[..0] == [];
    PrefixStep(rs, i - 1);
    if rs[i - 1].Begin? {
      b := i - 1;
    } else {
      b := OpenSince(rs, i - 1);
    }
  }

  /** With ids used once, fates agree. */
  lemma {:induction false} UniqueIdsAgree(rs: seq<LogRecord>)
    requires WellFormed(rs) && UniqueIds(rs)
    ensures FatesAgree(rs)
  {
    hide WellFormed, StateOf, Next;
    forall i | 0 <= i < |rs| && Data(rs[i]) && rs[i].txn in Committed(rs) ensures Lasting(rs, i) {
      var c :| 0 <= c < |rs| && rs[c].Commit? && rs[c].txn == rs[i].txn;
      PrefixStep(rs, i);
      PrefixStep(rs, c);
      var b := OpenSince(rs, i);
      var b' := OpenSince(rs, c);
      assert b == b';
      assert i < c && NoBoundary(rs, i + 1, c);
    }
  }

  lemma {:induction false} UniqueIdsPrefix(rs: seq<LogRecord>, k: nat)
    requires UniqueIds(rs) && k <= |rs|
    ensures UniqueIds(rs[..k])
  {
  }

  /** `v` has every slot of `c`, with the same lengths, and revives nothing. */
  ghost predicate Extends(c: Slots, v: Slots) {
    && |c| <= |v|
    && (forall i :: 0 <= i < |c| ==> |v[i].bytes| == |c[i].bytes| && (v[i].live ==> c[i].live))
  }

  ghost predicate LogInv(ls: LogState) {
    (forall p :: Extends(SlotsOf(ls.committed, p), SlotsOf(ls.view, p))) && (ls.cur.None? ==> ls.view == ls.committed)
  }

  lemma {:induction false} NextInv(ls: LogState, r: LogRecord)
    requires LogInv(ls) && Allowed(ls, r)
    ensures LogInv(Next(ls, r))
  {
    hide Fits;
    var ls' := Next(ls, r);
    forall p ensures Extends(SlotsOf(ls'.committed, p), SlotsOf(ls'.view, p)) {
      assert Extends(SlotsOf(ls.committed, p), SlotsOf(ls.view, p));
    }
  }

  lemma {:induction false} LogInvHolds(rs: seq<LogRecord>)
    requires WellFormed(rs)
    ensures LogInv(StateOf(rs))
  {
    hide LogInv, Next, Allowed;
    if rs == [] {
      StartInv();
    } else {
      LogInvHolds(rs[..|rs| - 1]);
      NextInv(StateOf(rs[..|rs| - 1]), rs[|rs| - 1]);
    }
  }

  lemma {:induction false} StartInv()
    ensures LogInv(START)
  {
  }

  // --- Redo ---

  /** What redo has rebuilt after a prefix of the log. */
  ghost function RedoGoal(ls: LogState, committed: set<Txn>): Pages {
    if ls.cur.Some? && ls.cur.value in committed then ls.view else ls.committed
  }

  /** One record: redo follows the open transaction if it will commit, and waits otherwise. */
  lemma {:induction false} RedoStep(ls: LogState, r: LogRecord, committed: set<Txn>)
    requires Allowed(ls, r) && (ls.cur.None? ==> ls.view == ls.committed)
    requires r.Commit? ==> r.txn in committed
    requires r.Begin? || r.Abort? ==> ls.cur.None? || ls.cur.value !in committed || ls.view == ls.committed
    ensures RedoOne(RedoGoal(ls, committed), r, committed) == RedoGoal(Next(ls, r), committed)
  {
    hide Used;
  }

  /** A transaction that sees more than the committed pages has logged a change since its Begin. */
  lemma {:induction false} ChangedSince(rs: seq<LogRecord>, i: nat) returns (k: nat)
    requires i <= |rs| && WellFormed(rs) && StateOf(rs[..i]).view != StateOf(rs[..i]).committed
    ensures k < i && Data(rs[k]) && Some(rs[k].txn) == StateOf(rs[..i]).cur && NoBoundary(rs, k + 1, i)
    decreases i
  {
    hide WellFormed;
    assert rs[..0] == [];
    PrefixStep(rs, i - 1);
    if Data(rs[i - 1]) {
      k := i - 1;
    } else {
      k := ChangedSince(rs, i - 1);
    }
  }

  /** Where a transaction is dropped or aborted, redo has nothing of it. */
  lemma {:induction false} NothingDropped(rs: seq<LogRecord>, i: nat)
    requires i < |rs| && (rs[i].Begin? || rs[i].Abort?) && WellFormed(rs) && FatesAgree(rs)
    ensures var ls := StateOf(rs[..i]);
      ls.cur.None? || ls.cur.value !in Committed(rs) || ls.view == ls.committed
  {
    hide WellFormed, StateOf, Committed;
    var ls := StateOf(rs[..i]);
    if ls.view != ls.committed && ls.cur.Some? && ls.cur.value in Committed(rs) {
      var k := ChangedSince(rs, i);
      assert Lasting(rs, k);
      var j :| k < j < |rs| && rs[j].Commit? && NoBoundary(rs, k + 1, j);
      assert false;
    }
  }

  lemma {:induction false} RedoTracks(rs: seq<LogRecord>, i: nat)
    requires i <= |rs| && WellFormed(rs) && FatesAgree(rs)
    ensures Redo(rs[..i], Committed(rs), map[]) == RedoGoal(StateOf(rs[..i]), Committed(rs))
    decreases i
  {
    hide StateOf, WellFormed, FatesAgree, RedoOne, RedoGoal, Next, Extends, Allowed;
    if i == 0 {
      RedoStart(rs, Committed(rs));
    } else {
      RedoTracks(rs, i - 1);
      PrefixStep(rs, i - 1);
      LogInvHolds(rs[..i - 1]);
      if rs[i - 1].Begin? || rs[i - 1].Abort? {
        NothingDropped(rs, i - 1);
      }
      RedoStep(StateOf(rs[..i - 1]), rs[i - 1], Committed(rs));
      assert rs[..i][..i - 1] == rs[..i - 1] && rs[..i][i - 1] == rs[i - 1];
    }
  }

  lemma {:induction false} RedoStart(rs: seq<LogRecord>, committed: set<Txn>)
    ensures Redo(rs[..0], committed, map[]) == RedoGoal(StateOf(rs[..0]), committed)
  {
  }

  /** Redo ignores the logged slot id, yet every redone insert lands in exactly that slot. */
  lemma {:induction false} RedoLandsInLoggedSlot(rs: seq<LogRecord>, i: nat)
    requires i < |rs| && rs[i].Insert? && rs[i].txn in Committed(rs) && WellFormed(rs) && FatesAgree(rs)
    ensures var ps := Redo(rs[..i], Committed(rs), map[]);
      |SlotsOf(ps, rs[i].pageId)| == rs[i].slotId && Fits(SlotsOf(ps, rs[i].pageId), |rs[i].data|)
  {
    hide StateOf, WellFormed, FatesAgree, Redo, Committed, Fits;
    RedoTracks(rs, i);
    PrefixStep(rs, i);
  }

  /** Over the whole log redo rebuilds the committed pages. */
  lemma {:induction false} RedoAll(rs: seq<LogRecord>)
    requires WellFormed(rs) && FatesAgree(rs)
    ensures Redo(rs, Committed(rs), map[]) == StateOf(rs).committed
  {
    hide StateOf, WellFormed, Redo, Committed;
    assert rs[..|rs|] == rs;
    RedoTracks(rs, |rs|);
    var ls := StateOf(rs);
    if ls.cur.Some? && ls.cur.value in Committed(rs) && ls.view != ls.committed {
      var k := ChangedSince(rs, |rs|);
      assert false;
    }
  }

  // --- The theorems ---

  /** Recovery gives back exactly the committed tuples if and only if undoing the unfinished transactions, wherever in
      the log they stand, is harmless to them: no unfinished insert names a slot that is live, no unfinished delete
      fits back, and every byte the earliest unfinished update puts back is already there. */
  lemma {:induction false} RecoverExact(rs: seq<LogRecord>)
    requires WellFormed(rs) && FatesAgree(rs)
    ensures SameSlots(Recovered(rs, map[]), StateOf(rs).committed) <==>
            Harmless(rs, Incomplete(rs), StateOf(rs).committed)
  {
    hide WellFormed, FatesAgree, StateOf, Undo, Redo, SameSlots, Harmless, Incomplete, Committed;
    RedoAll(rs);
    UndoExact(rs, Incomplete(rs), StateOf(rs).committed);
  }

  /** Which committed rows recovery keeps: all those whose slot no unfinished insert names. */
  lemma {:induction false} RowsKept(rs: seq<LogRecord>, p: nat, slot: nat)
    requires WellFormed(rs) && FatesAgree(rs) && slot < |SlotsOf(StateOf(rs).committed, p)|
    ensures Live(SlotsOf(Recovered(rs, map[]), p), slot) <==>
            Live(SlotsOf(StateOf(rs).committed, p), slot) && !Unwritten(rs, Incomplete(rs), p, slot)
  {
    hide WellFormed, FatesAgree, StateOf, Undo, Redo, Incomplete, Committed;
    RedoAll(rs);
    UndoLive(rs, Incomplete(rs), StateOf(rs).committed, p, slot);
  }

  // --- Logs whose only unfinished transaction is the last ---

  /** Transactions begin only after the one before has ended. */
  ghost predicate NoneAbandoned(rs: seq<LogRecord>) {
    forall i :: 0 <= i < |rs| && rs[i].Begin? ==> StateOf(rs[..i]).cur.None?
  }

  /** Updates are logged with the bytes their transaction saw. */
  ghost predicate TrueUpdates(rs: seq<LogRecord>) {
    forall i :: 0 <= i < |rs| && rs[i].Update? ==> TrueUpdate(StateOf(rs[..i]), rs[i])
  }

  predicate TrueUpdate(ls: LogState, r: LogRecord)
    requires r.Update?
  {
    Get(SlotsOf(ls.view, r.pageId), r.slotId) == Some(r.oldData)
  }

  /** An unfinished delete has bytes that would fit back onto the page. */
  ghost predicate DeleteFits(rs: seq<LogRecord>, incomplete: set<Txn>, ps: Pages) {
    exists i :: 0 <= i < |rs| && rs[i].Delete? && Disturbs(rs[i], incomplete, ps)
  }

  lemma {:induction false} FirstBoundary(rs: seq<LogRecord>, i: nat, j: nat) returns (k: nat)
    requires i <= j < |rs| && Boundary(rs[j])
    ensures i <= k <= j && Boundary(rs[k]) && NoBoundary(rs, i, k)
    decreases j - i
  {
    if Boundary(rs[i]) { k := i; } else { k := FirstBoundary(rs, i + 1, j); }
  }

  /** Then whatever an unfinished transaction logged stands at the end, over the last committed pages. */
  lemma {:induction false} UnfinishedIsLast(rs: seq<LogRecord>, i: nat)
    requires i < |rs| && Data(rs[i]) && rs[i].txn in Incomplete(rs) && WellFormed(rs) && NoneAbandoned(rs)
    ensures NoBoundary(rs, i, |rs|) && StateOf(rs[..i]).committed == StateOf(rs).committed
  {
    hide WellFormed, StateOf, Next;
    PrefixStep(rs, i);
    if j :| i <= j < |rs| && Boundary(rs[j]) {
      var k := FirstBoundary(rs, i, j);
      SameTransaction(rs, i, k);
      PrefixStep(rs, k);
      assert false;
    }
    SameTransaction(rs, i, |rs|);
    assert rs[..|rs|] == rs;
  }

  /** No unfinished insert of such a log names a committed slot. */
  lemma {:induction false} UnfinishedInsertsBeyond(rs: seq<LogRecord>, i: nat)
    requires i < |rs| && rs[i].Insert? && rs[i].txn in Incomplete(rs) && WellFormed(rs) && NoneAbandoned(rs)
    ensures !Disturbs(rs[i], Incomplete(rs), StateOf(rs).committed)
  {
    hide WellFormed, StateOf, Incomplete, NoneAbandoned;
    UnfinishedIsLast(rs, i);
    PrefixStep(rs, i);
    LogInvHolds(rs[..i]);
    assert Extends(SlotsOf(StateOf(rs[..i]).committed, rs[i].pageId), SlotsOf(StateOf(rs[..i]).view, rs[i].pageId));
  }

  /** The slot still holds its committed byte `k`. */
  ghost predicate HoldsByte(v: Slots, c: Slots, slot: nat, k: nat) {
    slot < |v| && slot < |c| && |v[slot].bytes| == |c[slot].bytes| && k < |c[slot].bytes| &&
    v[slot].bytes[k] == c[slot].bytes[k]
  }

  /** The open transaction is unfinished and will stay the last. */
  ghost predicate InTail(rs: seq<LogRecord>, i: nat)
    requires i <= |rs|
  {
    NoBoundary(rs, i, |rs|) && StateOf(rs[..i]).cur.Some? && StateOf(rs[..i]).cur.value in Incomplete(rs)
  }

  /** Up to record `i`: the earliest covering undo puts back the committed byte, and until there is one the
      unfinished transaction still sees that byte. */
  ghost predicate CoverOk(rs: seq<LogRecord>, i: nat, p: nat, slot: nat, k: nat)
    requires i <= |rs| && Live(SlotsOf(StateOf(rs).committed, p), slot)
    requires k < |SlotsOf(StateOf(rs).committed, p)[slot].bytes|
  {
    var c := SlotsOf(StateOf(rs).committed, p);
    var f := FirstCover(rs[..i], Incomplete(rs), p, slot, |c[slot].bytes|, k);
    f in {None, Some(c[slot].bytes[k])} &&
    (f.None? && InTail(rs, i) ==> HoldsByte(SlotsOf(StateOf(rs[..i]).view, p), c, slot, k))
  }

  lemma {:induction false} CoverStep(rs: seq<LogRecord>, i: nat, p: nat, slot: nat, k: nat)
    requires i < |rs| && Live(SlotsOf(StateOf(rs).committed, p), slot)
    requires k < |SlotsOf(StateOf(rs).committed, p)[slot].bytes|
    requires WellFormed(rs) && NoneAbandoned(rs) && TrueUpdates(rs) && CoverOk(rs, i, p, slot, k)
    ensures CoverOk(rs, i + 1, p, slot, k)
  {
    hide WellFormed, StateOf, NoneAbandoned, Incomplete, Fits;
    var r, c := rs[i], SlotsOf(StateOf(rs).committed, p);
    assert rs[..i + 1][..i] == rs[..i] && rs[..i + 1][i] == r;
    PrefixStep(rs, i);
    if Covers(r, Incomplete(rs), p, slot, |c[slot].bytes|, k) {
      UnfinishedIsLast(rs, i);
      assert TrueUpdate(StateOf(rs[..i]), r);
    } else if InTail(rs, i + 1) {
      if Boundary(r) {
        SameTransaction(rs, i + 1, |rs|);
        assert rs[..|rs|] == rs;
      } else {
        assert InTail(rs, i);
        assert r.Update? ==> TrueUpdate(StateOf(rs[..i]), r);
      }
    }
  }

  lemma {:induction false} CoverHolds(rs: seq<LogRecord>, i: nat, p: nat, slot: nat, k: nat)
    requires i <= |rs| && Live(SlotsOf(StateOf(rs).committed, p), slot)
    requires k < |SlotsOf(StateOf(rs).committed, p)[slot].bytes|
    requires WellFormed(rs) && NoneAbandoned(rs) && TrueUpdates(rs)
    ensures CoverOk(rs, i, p, slot, k)
    decreases i
  {
    hide WellFormed, NoneAbandoned, TrueUpdates, Incomplete, CoverOk;
    if i == 0 {
      CoverStart(rs, p, slot, k);
    } else {
      CoverHolds(rs, i - 1, p, slot, k);
      CoverStep(rs, i - 1, p, slot, k);
    }
  }

  lemma {:induction false} CoverStart(rs: seq<LogRecord>, p: nat, slot: nat, k: nat)
    requires Live(SlotsOf(StateOf(rs).committed, p), slot)
    requires k < |SlotsOf(StateOf(rs).committed, p)[slot].bytes|
    ensures CoverOk(rs, 0, p, slot, k)
  {
    assert rs[..0] == [];
    assert StateOf([]).cur.None?;
    hide StateOf;
  }

  /** Without transactions abandoned in the middle, recovery is exact if and only if no delete of the transaction cut
      short fits back onto its committed page. */
  lemma {:induction false} TailExact(rs: seq<LogRecord>)
    requires WellFormed(rs) && FatesAgree(rs) && NoneAbandoned(rs) && TrueUpdates(rs)
    ensures SameSlots(Recovered(rs, map[]), StateOf(rs).committed) <==>
            !DeleteFits(rs, Incomplete(rs), StateOf(rs).committed)
  {
    hide WellFormed, FatesAgree, NoneAbandoned, TrueUpdates, StateOf, Recovered, SameSlots, Incomplete, Disturbs;
    RecoverExact(rs);
    var c, inc := StateOf(rs).committed, Incomplete(rs);
    forall i | 0 <= i < |rs| && Disturbs(rs[i], inc, c) ensures rs[i].Delete? {
      DisturbsKinds(rs[i], inc, c);
      if rs[i].Insert? { UnfinishedInsertsBeyond(rs, i); }
    }
    forall p, slot: nat, k: nat ensures ByteAgrees(rs, inc, c, p, slot, k) {
      if Live(SlotsOf(c, p), slot) && k < |SlotsOf(c, p)[slot].bytes| {
        CoverHolds(rs, |rs|, p, slot, k);
        assert rs[..|rs|] == rs;
      }
    }
  }

  lemma {:induction false} DisturbsKinds(r: LogRecord, incomplete: set<Txn>, ps: Pages)
    requires Disturbs(r, incomplete, ps)
    ensures r.Delete? || (r.Insert? && r.txn in incomplete)
  {
  }

  // --- Crashes ---

  /** Crash at any byte. What is left parses to the whole records before the cut, and recovery from them gives the
      tuples of the last wholly logged Commit exactly when undo is harmless; for a log of transactions one after the
      other under ids used once, exactly when the one cut short deleted nothing that fits back. */
  lemma {:induction false} CrashRecovery(rs: seq<LogRecord>, n: nat)
    requires WellFormed(rs) && (forall i :: 0 <= i < |rs| ==> Encodable(rs[i])) && n <= |Encode(rs)|
    ensures var survived := rs[..WholeRecords(rs, n)];
      && ReadLog(Encode(rs)[..n]) == Records(survived)
      && (FatesAgree(survived) ==>
            (SameSlots(Recovered(survived, map[]), StateOf(survived).committed) <==>
             Harmless(survived, Incomplete(survived), StateOf(survived).committed)))
      && (UniqueIds(rs) ==> FatesAgree(survived))
      && (UniqueIds(rs) && NoneAbandoned(rs) && TrueUpdates(rs) ==>
            (SameSlots(Recovered(survived, map[]), StateOf(survived).committed) <==>
             !DeleteFits(survived, Incomplete(survived), StateOf(survived).committed)))
  {
    hide WellFormed, FatesAgree, StateOf, Recovered, SameSlots, Encodable, Encode, ReadLog, WholeRecords, Harmless,
      DeleteFits, UniqueIds, NoneAbandoned, TrueUpdates;
    CrashCut(rs, n);
    var k := WholeRecords(rs, n);
    PrefixWellFormed(rs, k);
    if FatesAgree(rs[..k]) { RecoverExact(rs[..k]); }
    if UniqueIds(rs) {
      UniqueIdsPrefix(rs, k);
      UniqueIdsAgree(rs[..k]);
      if NoneAbandoned(rs) && TrueUpdates(rs) {
        TailPrefix(rs, k);
        TailExact(rs[..k]);
      }
    }
  }

  lemma {:induction false} TailPrefix(rs: seq<LogRecord>, k: nat)
    requires k <= |rs| && NoneAbandoned(rs) && TrueUpdates(rs)
    ensures NoneAbandoned(rs[..k]) && TrueUpdates(rs[..k])
  {
    hide StateOf, TrueUpdate;
    assert forall i :: 0 <= i <= k ==> rs[..k][..i] == rs[..i];
  }

  // --- Each way of failing, on logs the code writes ---

  /** One record more, with the state it leads to. */
  lemma {:induction false} Follow(rs: seq<LogRecord>, r: LogRecord) returns (rs': seq<LogRecord>)
    requires WellFormed(rs) && Allowed(StateOf(rs), r)
    ensures rs' == rs + [r] && WellFormed(rs') && StateOf(rs') == Next(StateOf(rs), r)
  {
    rs' := rs + [r];
    AppendAllowed(rs, r);
  }

  /** A row inserted and committed on a fresh page. */
  lemma {:induction false} OneRow(x: byte) returns (rs: seq<LogRecord>)
    ensures rs == [Begin(0, 1), Insert(1, 1, 7, 0, [x]), Commit(2, 1)] && WellFormed(rs)
    ensures StateOf(rs) == LogState(map[7 := [Tuple([x], true)]], map[7 := [Tuple([x], true)]], None)
  {
    assert WellFormed([]) && StateOf([]) == START && Used([]) == 0;
    hide WellFormed, StateOf;
    assert Appended([], [x]) == [Tuple([x], true)];
    rs := Follow([], Begin(0, 1));
    rs := Follow(rs, Insert(1, 1, 7, 0, [x]));
    rs := Follow(rs, Commit(2, 1));
  }

  lemma {:induction false} RoomForAnother(s: Slots)
    requires |s| == 1 && |s[0].bytes| == 1
    ensures Used(s) == 1 && Fits(s, 1)
  {
    assert s[..0] == [] && Used(s) == Used(s[..0]) + 1;
  }

  /** Two sessions, each with its own ids from 1 and lsns from 0: the first commits row `x` and crashes while inserting
      `y`, the second commits row `z`, which takes the slot `y` was logged for. */
  lemma {:induction false} TwoSessions(x: byte, y: byte, z: byte) returns (rs: seq<LogRecord>)
    ensures rs == [Begin(0, 1), Insert(1, 1, 7, 0, [x]), Commit(2, 1), Begin(3, 2), Insert(4, 2, 7, 1, [y]),
                   Begin(0, 1), Insert(1, 1, 7, 1, [z]), Commit(2, 1)]
    ensures WellFormed(rs) && SlotsOf(StateOf(rs).committed, 7) == [Tuple([x], true), Tuple([z], true)]
  {
    hide WellFormed, StateOf, Fits;
    rs := OneRow(x);
    RoomForAnother([Tuple([x], true)]);
    rs := Follow(rs, Begin(3, 2));
    rs := Follow(rs, Insert(4, 2, 7, 1, [y]));
    rs := Follow(rs, Begin(0, 1));
    rs := Follow(rs, Insert(1, 1, 7, 1, [z]));
    rs := Follow(rs, Commit(2, 1));
  }

  /** On that log the next recovery undoes the insert of `y` and so deletes `z`. */
  lemma {:induction false} RestartedLogLosesRow(x: byte, y: byte, z: byte)
    ensures var rs := [Begin(0, 1), Insert(1, 1, 7, 0, [x]), Commit(2, 1), Begin(3, 2), Insert(4, 2, 7, 1, [y]),
                       Begin(0, 1), Insert(1, 1, 7, 1, [z]), Commit(2, 1)];
      && WellFormed(rs) && FatesAgree(rs)
      && SlotsOf(StateOf(rs).committed, 7) == [Tuple([x], true), Tuple([z], true)]
      && !Live(SlotsOf(Recovered(rs, map[]), 7), 1) && !Harmless(rs, Incomplete(rs), StateOf(rs).committed)
  {
    hide WellFormed, StateOf, Recovered, Incomplete, Committed, BytesAgree;
    var rs := TwoSessions(x, y, z);
    OnlySecondUnfinished(rs);
    assert Lasting(rs, 1) && Lasting(rs, 6) by {
      assert rs[2].Commit? && NoBoundary(rs, 2, 2) && rs[7].Commit? && NoBoundary(rs, 7, 7);
    }
    assert Unwrites(rs[4], Incomplete(rs), 7, 1) && Disturbs(rs[4], Incomplete(rs), StateOf(rs).committed);
    RowsKept(rs, 7, 1);
  }

  /** Redo goes by id alone. The first session crashes while inserting `a` under id 1; the second commits `b` under its
      own id 1. Nothing is left to undo, but redo replays both inserts: the row that was never committed is back, and
      the committed one has left the slot it was logged for. */
  lemma {:induction false} ReusedIdRevivesRow(a: byte, b: byte)
    ensures var rs := [Begin(0, 1), Insert(1, 1, 7, 0, [a]), Begin(0, 1), Insert(1, 1, 7, 0, [b]), Commit(2, 1)];
      && WellFormed(rs) && !FatesAgree(rs) && Incomplete(rs) == {}
      && Harmless(rs, Incomplete(rs), StateOf(rs).committed)
      && SlotsOf(StateOf(rs).committed, 7) == [Tuple([b], true)]
      && SlotsOf(Recovered(rs, map[]), 7) == [Tuple([a], true), Tuple([b], true)]
  {
    var rs := [Begin(0, 1), Insert(1, 1, 7, 0, [a]), Begin(0, 1), Insert(1, 1, 7, 0, [b]), Commit(2, 1)];
    BothSessions(a, b, rs);
    hide WellFormed, StateOf, Undo, Redo;
    assert rs[4].Commit? && rs[0].Begin?;
    assert Committed(rs) == {1} && Started(rs) == {1} && Incomplete(rs) == {};
    assert !Lasting(rs, 1) by {
      assert Boundary(rs[2]);
    }
    assert Data(rs[1]) && rs[1].txn in Committed(rs);
    UndoNothing(rs, {}, StateOf(rs).committed);
    UndoNothing(rs, {}, Redo(rs, {1}, map[]));
    UndoExact(rs, {}, StateOf(rs).committed);
    RedoesBoth(a, b, rs);
  }

  lemma {:induction false} BothSessions(a: byte, b: byte, rs: seq<LogRecord>)
    requires rs == [Begin(0, 1), Insert(1, 1, 7, 0, [a]), Begin(0, 1), Insert(1, 1, 7, 0, [b]), Commit(2, 1)]
    ensures WellFormed(rs) && SlotsOf(StateOf(rs).committed, 7) == [Tuple([b], true)]
  {
    assert WellFormed([]) && StateOf([]) == START && Used([]) == 0;
    hide WellFormed, StateOf;
    var log := Follow([], Begin(0, 1));
    log := Follow(log, Insert(1, 1, 7, 0, [a]));
    log := Follow(log, Begin(0, 1));
    log := Follow(log, Insert(1, 1, 7, 0, [b]));
    log := Follow(log, Commit(2, 1));
    assert log == rs;
  }

  lemma {:induction false} RedoesBoth(a: byte, b: byte, rs: seq<LogRecord>)
    requires rs == [Begin(0, 1), Insert(1, 1, 7, 0, [a]), Begin(0, 1), Insert(1, 1, 7, 0, [b]), Commit(2, 1)]
    ensures SlotsOf(Redo(rs, {1}, map[]), 7) == [Tuple([a], true), Tuple([b], true)]
  {
    hide Redo;
    RoomForAnother([Tuple([a], true)]);
    assert Fits([], 1) by { assert Used([]) == 0; }
    RedoSnoc([], rs[0], {1});
    RedoSnoc([rs[0]], rs[1], {1});
    RedoSnoc([rs[0], rs[1]], rs[2], {1});
    RedoSnoc([rs[0], rs[1], rs[2]], rs[3], {1});
    RedoSnoc([rs[0], rs[1], rs[2], rs[3]], rs[4], {1});
    assert rs == [rs[0], rs[1], rs[2], rs[3]] + [rs[4]];
    assert [rs[0]] == [] + [rs[0]] && [rs[0], rs[1]] == [rs[0]] + [rs[1]];
    assert [rs[0], rs[1], rs[2]] == [rs[0], rs[1]] + [rs[2]];
    assert [rs[0], rs[1], rs[2], rs[3]] == [rs[0], rs[1], rs[2]] + [rs[3]];
    RedoOfNothing({1});
  }

  lemma {:induction false} RedoSnoc(rs: seq<LogRecord>, r: LogRecord, committed: set<Txn>)
    ensures Redo(rs + [r], committed, map[]) == RedoOne(Redo(rs, committed, map[]), r, committed)
  {
    assert (rs + [r])[..|rs|] == rs;
  }

  lemma {:induction false} RedoOfNothing(committed: set<Txn>)
    ensures Redo([], committed, map[]) == map[]
  {
  }

  lemma {:induction false} UndoNothing(rs: seq<LogRecord>, incomplete: set<Txn>, ps: Pages)
    requires forall i :: 0 <= i < |rs| && (rs[i].Insert? || rs[i].Delete? || rs[i].Update?) ==>
      rs[i].txn !in incomplete
    ensures Undo(rs, incomplete, ps) == ps
  {
    if rs != [] { UndoNothing(rs[..|rs| - 1], incomplete, ps); }
  }

  /** The same row, and a transaction cut short after it deleted the row: recovery adds the row a second time. */
  lemma {:induction false} UnfinishedDeleteDoubles(x: byte)
    ensures var rs := [Begin(0, 1), Insert(1, 1, 7, 0, [x]), Commit(2, 1), Begin(3, 2), Delete(4, 2, 7, 0, [x])];
      && WellFormed(rs) && UniqueIds(rs) && NoneAbandoned(rs) && TrueUpdates(rs)
      && DeleteFits(rs, Incomplete(rs), StateOf(rs).committed)
      && SlotsOf(StateOf(rs).committed, 7) == [Tuple([x], true)]
      && SlotsOf(Recovered(rs, map[]), 7) == [Tuple([x], true), Tuple([x], true)]
  {
    hide WellFormed, StateOf, Redo, Undo, SameSlots, Incomplete, Committed, FirstCover;
    var log := OneRow(x);
    var one := [Tuple([x], true)];
    assert Used(one) == Used(one[..0]) + 1 && one[..0] == [];
    var three := log;
    log := Follow(log, Begin(3, 2));
    log := Follow(log, Delete(4, 2, 7, 0, [x]));
    var rs := [Begin(0, 1), Insert(1, 1, 7, 0, [x]), Commit(2, 1), Begin(3, 2), Delete(4, 2, 7, 0, [x])];
    assert log == rs;
    OnlySecondUnfinished(rs);
    assert Disturbs(rs[4], Incomplete(rs), StateOf(rs).committed);
    assert rs[..0] == [] && rs[..3] == three;
    EmptyState();
    UniqueIdsAgree(rs);
    RedoAll(rs);
    UndoConcat(rs[..4], [rs[4]], Incomplete(rs), StateOf(rs).committed);
    assert rs == rs[..4] + [rs[4]];
    UndoSingle(rs[4], Incomplete(rs), StateOf(rs).committed);
    UndoNothing(rs[..4], Incomplete(rs), UndoOne(StateOf(rs).committed, rs[4], Incomplete(rs)));
    assert one + one == [Tuple([x], true), Tuple([x], true)];
  }

  /** Rows `x` and `w`; an UPDATE that makes `x` into `y` and then fails at `w`, whose new key is now taken, leaves its
      transaction open; a later one commits `z` over `y`. */
  lemma {:induction false} FailedThenCommitted(x: byte, w: byte, y: byte, z: byte) returns (rs: seq<LogRecord>)
    ensures rs == [Begin(0, 1), Insert(1, 1, 7, 0, [x]), Commit(2, 1), Begin(3, 2), Insert(4, 2, 7, 1, [w]),
                   Commit(5, 2), Begin(6, 3), Update(7, 3, 7, 0, [x], [y]),
                   Begin(8, 4), Update(9, 4, 7, 0, [y], [z]), Commit(10, 4)]
    ensures WellFormed(rs) && SlotsOf(StateOf(rs).committed, 7) == [Tuple([z], true), Tuple([w], true)]
  {
    hide WellFormed, StateOf, Fits;
    rs := OneRow(x);
    RoomForAnother([Tuple([x], true)]);
    assert [z] + [x][1..] == [z];
    rs := Follow(rs, Begin(3, 2));
    rs := Follow(rs, Insert(4, 2, 7, 1, [w]));
    rs := Follow(rs, Commit(5, 2));
    rs := Follow(rs, Begin(6, 3));
    rs := Follow(rs, Update(7, 3, 7, 0, [x], [y]));
    rs := Follow(rs, Begin(8, 4));
    rs := Follow(rs, Update(9, 4, 7, 0, [y], [z]));
    rs := Follow(rs, Commit(10, 4));
  }

  /** On that log recovery puts `x` back over the committed `z`. */
  lemma {:induction false} FailedUpdateReverts(x: byte, w: byte, y: byte, z: byte)
    requires x != z
    ensures var rs := [Begin(0, 1), Insert(1, 1, 7, 0, [x]), Commit(2, 1), Begin(3, 2), Insert(4, 2, 7, 1, [w]),
                       Commit(5, 2), Begin(6, 3), Update(7, 3, 7, 0, [x], [y]),
                       Begin(8, 4), Update(9, 4, 7, 0, [y], [z]), Commit(10, 4)];
      && WellFormed(rs) && UniqueIds(rs)
      && SlotsOf(StateOf(rs).committed, 7) == [Tuple([z], true), Tuple([w], true)]
      && !Harmless(rs, Incomplete(rs), StateOf(rs).committed)
      && !SameSlots(Recovered(rs, map[]), StateOf(rs).committed)
  {
    hide WellFormed, StateOf, Recovered, SameSlots, Incomplete, Committed, FirstCover;
    var rs := FailedThenCommitted(x, w, y, z);
    OnlyThirdUnfinished(rs);
    OnlyCover(rs, Incomplete(rs), 7, 7, 0, 1, 0);
    assert !ByteAgrees(rs, Incomplete(rs), StateOf(rs).committed, 7, 0, 0);
    UniqueIdsAgree(rs);
    RecoverExact(rs);
  }

  lemma {:induction false} OnlyThirdUnfinished(rs: seq<LogRecord>)
    requires |rs| > 10 && rs[6].Begin? && rs[6].txn == 3 && rs[10].Commit? && rs[10].txn == 4
    requires forall i :: 0 <= i < |rs| && (rs[i].Commit? || rs[i].Abort?) ==> rs[i].txn != 3
    ensures 3 in Incomplete(rs) && 4 !in Incomplete(rs)
  {
  }

  /** The first covering record decides. */
  lemma {:induction false} OnlyCover(rs: seq<LogRecord>, incomplete: set<Txn>, i: nat, p: nat, slot: nat, len: nat,
                                     k: nat)
    requires i < |rs| && Covers(rs[i], incomplete, p, slot, len, k)
    requires forall j :: 0 <= j < i ==> !Covers(rs[j], incomplete, p, slot, len, k)
    ensures FirstCover(rs, incomplete, p, slot, len, k) == Some(rs[i].oldData[k])
  {
    hide Covers;
    var init := rs[..|rs| - 1];
    if i < |init| {
      OnlyCover(init, incomplete, i, p, slot, len, k);
    } else {
      NoCover(init, incomplete, p, slot, len, k);
    }
  }

  lemma {:induction false} NoCover(rs: seq<LogRecord>, incomplete: set<Txn>, p: nat, slot: nat, len: nat, k: nat)
    requires forall j :: 0 <= j < |rs| ==> !Covers(rs[j], incomplete, p, slot, len, k)
    ensures FirstCover(rs, incomplete, p, slot, len, k) == None
  {
    hide Covers;
    if rs != [] { NoCover(rs[..|rs| - 1], incomplete, p, slot, len, k); }
  }

  lemma {:induction false} EmptyState()
    ensures StateOf([]) == START
  {
  }

  lemma {:induction false} OnlySecondUnfinished(rs: seq<LogRecord>)
    requires |rs| > 3 && rs[2].Commit? && rs[2].txn == 1 && rs[3].Begin? && rs[3].txn == 2
    requires forall i :: 0 <= i < |rs| && (rs[i].Commit? || rs[i].Abort?) ==> rs[i].txn != 2
    ensures 2 in Incomplete(rs) && 1 in Committed(rs) && 2 !in Committed(rs) && 1 !in Incomplete(rs)
    ensures forall t :: t in Committed(rs) ==> t !in Incomplete(rs)
    ensures forall i :: 0 <= i < |rs| && rs[i].Commit? ==> rs[i].txn in Committed(rs)
  {
  }
}
