/** Strict two-phase locking: a history that reads and writes only under held locks has the
    same effect as running the transactions one after another in the order of their releases. */
module Serializability {
  import opened Common
  import opened LockSpec
  import opened LockSteps
  import opened LockManager

  datatype Event =
    | Lock(txn: Txn, rid: Rid, mode: Mode)
    | Unlock(txn: Txn)
    | Read(txn: Txn, rid: Rid)
    | Write(txn: Txn, rid: Rid, value: int)

  // --- Runs of the lock manager ---

  ghost function Step(s: State, e: Event): State {
    match e
    case Lock(t, rid, mode) => Acquire(s, t, rid, mode).0
    case Unlock(t) => Release(s, t)
    case _ => s
  }

  ghost function Run(h: seq<Event>): State {
    if h == [] then EMPTY else Step(Run(h[..|h| - 1]), h[|h| - 1])
  }

  /** Every access is made while the matching lock is held, and nobody locks after unlocking. */
  ghost predicate Legal(h: seq<Event>) {
    && (forall i :: 0 <= i < |h| ==> AccessLegal(Run(h[..i]), h[i]))
    && (forall i, j :: 0 <= i < j < |h| && h[i].Unlock? && h[j].Lock? ==> h[i].txn != h[j].txn)
  }

  ghost predicate AccessLegal(s: State, e: Event) {
    && (e.Read? ==> HoldsLock(s, e.txn, e.rid, Shared))
    && (e.Write? ==> HoldsLock(s, e.txn, e.rid, Exclusive))
  }

  predicate Conflict(a: Event, b: Event) {
    && (a.Read? || a.Write?) && (b.Read? || b.Write?)
    && a.rid == b.rid && (a.Write? || b.Write?)
  }

  lemma {:induction false} StepInv(s: State, e: Event)
    requires LockInv(s)
    ensures LockInv(Step(s, e))
  {
    match e
    case Lock(t, rid, mode) => AcquireInv(s, t, rid, mode);
    case Unlock(t) => ReleaseInv(s, t);
    case _ =>
  }

  /** The invariant holds in every reachable state. */
  lemma {:induction false} RunInv(h: seq<Event>)
    ensures LockInv(Run(h))
  {
    hide LockInv;
    if h == [] {
      EmptyInv();
    } else {
      RunInv(h[..|h| - 1]);
      StepInv(Run(h[..|h| - 1]), h[|h| - 1]);
    }
  }

  lemma {:induction false} RunStep(h: seq<Event>, i: nat)
    requires i < |h|
    ensures Run(h[..i + 1]) == Step(Run(h[..i]), h[i])
  {
    assert h[..i + 1][..i] == h[..i] && h[..i + 1][i] == h[i];
  }

  lemma {:induction false} StepKeepsHold(s: State, e: Event, t: Txn, rid: Rid, mode: Mode)
    requires QueuesOk(s.table) && HoldsLock(s, t, rid, mode) && e != Unlock(t)
    ensures HoldsLock(Step(s, e), t, rid, mode)
  {
    hide QueuesOk, HoldsLock, Acquire, Release;
    match e
    case Lock(u, r, m) => AcquireKeepsHold(s, u, r, m, t, rid, mode);
    case Unlock(u) => ReleaseKeepsHold(s, u, t, rid, mode);
    case _ =>
  }

  /** A lock held at `i` is still held at `j` unless its holder released in between. */
  lemma {:induction false} HeldUntilRelease(h: seq<Event>, i: nat, j: nat, t: Txn, rid: Rid, mode: Mode)
    requires i <= j <= |h| && HoldsLock(Run(h[..i]), t, rid, mode)
    requires forall k :: i <= k < j ==> h[k] != Unlock(t)
    ensures HoldsLock(Run(h[..j]), t, rid, mode)
    decreases j - i
  {
    hide Run, HoldsLock, Step;
    if i < j {
      HeldUntilRelease(h, i, j - 1, t, rid, mode);
      RunInv(h[..j - 1]);
      RunStep(h, j - 1);
      StepKeepsHold(Run(h[..j - 1]), h[j - 1], t, rid, mode);
    }
  }

  lemma {:induction false} StepKeepsAbsent(s: State, e: Event, t: Txn)
    requires QueuesOk(s.table) && Absent(s, t) && !(e.Lock? && e.txn == t)
    ensures Absent(Step(s, e), t)
  {
    hide QueuesOk, Absent, Acquire, Release;
    match e
    case Lock(u, r, m) => AbsentAfterAcquire(s, u, r, m, t);
    case Unlock(u) => AbsentAfterRelease(s, u, t);
    case _ =>
  }

  /** After its release a transaction holds nothing, since it locks nothing again. */
  lemma {:induction false} GoneAfterRelease(h: seq<Event>, k: nat, j: nat, t: Txn)
    requires k < j <= |h| && h[k] == Unlock(t)
    requires forall x :: k < x < j ==> !(h[x].Lock? && h[x].txn == t)
    ensures Absent(Run(h[..j]), t)
    decreases j - k
  {
    hide Run, Absent, Release, Acquire;
    RunInv(h[..j - 1]);
    RunStep(h, j - 1);
    if k == j - 1 {
      ReleaseLeavesNothing(Run(h[..k]), t);
    } else {
      GoneAfterRelease(h, k, j - 1, t);
      StepKeepsAbsent(Run(h[..j - 1]), h[j - 1], t);
    }
  }

  lemma {:induction false} AbsentHoldsNothing(s: State, t: Txn, rid: Rid, mode: Mode)
    requires Absent(s, t)
    ensures !HoldsLock(s, t, rid, mode)
  {
    var q := QueueOf(s.table, rid);
    assert forall i :: 0 <= i < |q| ==> q[i] in q;
  }

  /** The position of the first release, or the length of the history. */
  ghost function FirstRelease(h: seq<Event>, t: Txn): (k: nat)
    ensures k <= |h| && (k < |h| ==> h[k] == Unlock(t))
    ensures forall x :: 0 <= x < k ==> h[x] != Unlock(t)
  {
    if h == [] then 0
    else if h[0] == Unlock(t) then 0
    else
      var r := FirstRelease(h[1..], t);
      assert forall x :: 0 < x < |h| ==> h[x] == h[1..][x - 1];
      r + 1
  }

  /** An access comes before its transaction's first release. */
  lemma {:induction false} AccessBeforeRelease(h: seq<Event>, j: nat)
    requires Legal(h) && j < |h| && (h[j].Read? || h[j].Write?)
    ensures j < FirstRelease(h, h[j].txn)
  {
    hide Run, HoldsLock, Absent, FirstRelease;
    var t := h[j].txn;
    var k := FirstRelease(h, t);
    assert AccessLegal(Run(h[..j]), h[j]);
    if k <= j {
      assert k < j;
      GoneAfterRelease(h, k, j, t);
      AbsentHoldsNothing(Run(h[..j]), t, h[j].rid, Shared);
      AbsentHoldsNothing(Run(h[..j]), t, h[j].rid, Exclusive);
      assert false;
    }
  }

  /** Conflicting accesses of two transactions happen in the order of their releases. */
  lemma {:induction false} ConflictOrder(h: seq<Event>, i: nat, j: nat)
    requires Legal(h) && i < j < |h| && Conflict(h[i], h[j]) && h[i].txn != h[j].txn
    ensures FirstRelease(h, h[i].txn) < j < FirstRelease(h, h[j].txn)
  {
    hide Run, HoldsLock, FirstRelease;
    AccessBeforeRelease(h, j);
    var t, u, rid := h[i].txn, h[j].txn, h[i].rid;
    var k := FirstRelease(h, t);
    if k >= j {
      assert AccessLegal(Run(h[..i]), h[i]) && AccessLegal(Run(h[..j]), h[j]);
      var mt := if h[i].Write? then Exclusive else Shared;
      var mu := if h[j].Write? then Exclusive else Shared;
      HeldUntilRelease(h, i, j, t, rid, mt);
      RunInv(h[..j]);
      if mt == Exclusive {
        HoldersCompatible(Run(h[..j]), t, u, rid, mu);
      } else {
        HoldersCompatible(Run(h[..j]), u, t, rid, mt);
      }
      assert false;
    }
  }

  // --- Executing a history on a store ---

  type Store = map<Rid, int>

  function Effect(db: Store, e: Event): Store {
    if e.Write? then db[e.rid := e.value] else db
  }

  function Value(db: Store, rid: Rid): int {
    if rid in db then db[rid] else 0
  }

  function Exec(h: seq<Event>, db: Store): Store {
    if h == [] then db else Exec(h[1..], Effect(db, h[0]))
  }

  /** The values transaction `t` reads, in order. */
  function Reads(h: seq<Event>, db: Store, t: Txn): seq<int> {
    if h == [] then []
    else (if h[0].Read? && h[0].txn == t then [Value(db, h[0].rid)] else []) + Reads(h[1..], Effect(db, h[0]), t)
  }

  /** Same final store and, for every transaction, the same values read: no observer can tell them apart. */
  ghost predicate Equivalent(a: seq<Event>, b: seq<Event>) {
    forall db: Store :: EquivalentOn(a, b, db)
  }

  ghost predicate EquivalentOn(a: seq<Event>, b: seq<Event>, db: Store) {
    Exec(a, db) == Exec(b, db) && forall t :: Reads(a, db, t) == Reads(b, db, t)
  }

  /** All events of `t`, or all others, in order. */
  function Only(h: seq<Event>, t: Txn): seq<Event> {
    if h == [] then []
    else Only(h[..|h| - 1], t) + if h[|h| - 1].txn == t then [h[|h| - 1]] else []
  }

  function Others(h: seq<Event>, t: Txn): (r: seq<Event>)
    ensures |r| <= |h|
  {
    if h == [] then []
    else Others(h[..|h| - 1], t) + if h[|h| - 1].txn != t then [h[|h| - 1]] else []
  }

  /** The serial history: each transaction's events in one block, in the given order. */
  function Serial(h: seq<Event>, order: seq<Txn>): seq<Event>
    decreases |order|
  {
    if order == [] then [] else Only(h, order[0]) + Serial(Others(h, order[0]), order[1..])
  }

  lemma {:induction false} ExecConcat(a: seq<Event>, b: seq<Event>, db: Store, t: Txn)
    ensures Exec(a + b, db) == Exec(b, Exec(a, db))
    ensures Reads(a + b, db, t) == Reads(a, db, t) + Reads(b, Exec(a, db), t)
  {
    if a == [] {
      assert a + b == b;
    } else {
      assert (a + b)[0] == a[0] && (a + b)[1..] == a[1..] + b;
      ExecConcat(a[1..], b, Effect(db, a[0]), t);
      hide Effect;
    }
  }

  lemma {:induction false} EquivalentConcat(a: seq<Event>, a': seq<Event>, b: seq<Event>, b': seq<Event>)
    requires Equivalent(a, a') && Equivalent(b, b')
    ensures Equivalent(a + b, a' + b')
  {
    hide Exec, Reads;
    forall db: Store ensures EquivalentOn(a + b, a' + b', db) {
      assert EquivalentOn(a, a', db) && EquivalentOn(b, b', Exec(a, db));
      ExecConcat(a, b, db, 0);
      ExecConcat(a', b', db, 0);
      forall t ensures Reads(a + b, db, t) == Reads(a' + b', db, t) {
        ExecConcat(a, b, db, t);
        ExecConcat(a', b', db, t);
      }
    }
  }

  lemma {:induction false} EquivalentTrans(a: seq<Event>, b: seq<Event>, c: seq<Event>)
    requires Equivalent(a, b) && Equivalent(b, c)
    ensures Equivalent(a, c)
  {
    hide Exec, Reads;
    forall db: Store ensures EquivalentOn(a, c, db) {
      assert EquivalentOn(a, b, db) && EquivalentOn(b, c, db);
    }
  }

  /** Two neighbouring events of different transactions that do not conflict may change places. */
  lemma {:induction false} Swap(x: Event, y: Event)
    requires !Conflict(x, y) && x.txn != y.txn
    ensures Equivalent([x, y], [y, x])
  {
    forall db: Store ensures EquivalentOn([x, y], [y, x], db) {
      assert [x, y][1..] == [y] && [y, x][1..] == [x];
      assert Exec([y], Effect(db, x)) == Effect(Effect(db, x), y) by { assert [y][1..] == []; }
      assert Exec([x], Effect(db, y)) == Effect(Effect(db, y), x) by { assert [x][1..] == []; }
      assert Effect(Effect(db, x), y) == Effect(Effect(db, y), x);
      forall t ensures Reads([x, y], db, t) == Reads([y, x], db, t) {
        ReadsOne(y, Effect(db, x), t);
        ReadsOne(x, Effect(db, y), t);
      }
    }
  }

  lemma {:induction false} ReadsOne(e: Event, db: Store, t: Txn)
    ensures Reads([e], db, t) == if e.Read? && e.txn == t then [Value(db, e.rid)] else []
  {
    assert [e][1..] == [];
  }

  /** `x` may move in front of a block it does not conflict with. */
  lemma {:induction false} MoveLeft(w: seq<Event>, x: Event)
    requires forall i :: 0 <= i < |w| ==> !Conflict(w[i], x) && w[i].txn != x.txn
    ensures Equivalent(w + [x], [x] + w)
  {
    hide Equivalent;
    if w == [] {
      Reflexive(w + [x]);
      assert w + [x] == [x] + w;
    } else {
      var init, last := w[..|w| - 1], w[|w| - 1];
      MoveLeft(init, x);
      Swap(last, x);
      Reflexive(init);
      Reflexive([last]);
      EquivalentConcat(init, init, [last, x], [x, last]);
      EquivalentConcat(init + [x], [x] + init, [last], [last]);
      assert w + [x] == init + [last, x] && init + [x, last] == (init + [x]) + [last] &&
             [x] + w == ([x] + init) + [last];
      EquivalentTrans(w + [x], init + [x, last], [x] + w);
    }
  }

  lemma {:induction false} Reflexive(a: seq<Event>)
    ensures Equivalent(a, a)
  {
  }

  lemma {:induction false} FilterStep(h: seq<Event>, t: Txn)
    ensures h == [] ==> Only(h, t) + Others(h, t) == []
    ensures h != [] ==> var init, last := h[..|h| - 1], h[|h| - 1];
      && Only(h, t) == (if last.txn == t then Only(init, t) + [last] else Only(init, t))
      && Others(h, t) == (if last.txn == t then Others(init, t) else Others(init, t) + [last])
  {
  }

  /** One more event of a transaction joins its block at the front. */
  lemma {:induction false} PullFront(init: seq<Event>, o: seq<Event>, w: seq<Event>, x: Event)
    requires forall i :: 0 <= i < |w| ==> !Conflict(w[i], x) && w[i].txn != x.txn
    requires Equivalent(init, o + w)
    ensures Equivalent(init + [x], o + [x] + w)
  {
    hide Equivalent, Conflict;
    Reflexive([x]);
    EquivalentConcat(init, o + w, [x], [x]);
    MoveLeft(w, x);
    Reflexive(o);
    EquivalentConcat(o, o, w + [x], [x] + w);
    assert (o + w) + [x] == o + (w + [x]) && o + ([x] + w) == o + [x] + w;
    EquivalentTrans(init + [x], o + (w + [x]), o + [x] + w);
  }

  /** The events of `t` may all move to the front when no earlier foreign event conflicts with them. */
  lemma {:induction false} FrontLoad(h: seq<Event>, t: Txn)
    requires forall i, j :: 0 <= i < j < |h| && h[i].txn != t && h[j].txn == t ==> !Conflict(h[i], h[j])
    ensures Equivalent(h, Only(h, t) + Others(h, t))
  {
    hide Equivalent, Only, Others, Conflict;
    FilterStep(h, t);
    if h == [] {
      Reflexive(h);
    } else {
      var init, last := h[..|h| - 1], h[|h| - 1];
      var o, w := Only(init, t), Others(init, t);
      FrontLoad(init, t);
      assert h == init + [last];
      if last.txn != t {
        Reflexive([last]);
        EquivalentConcat(init, o + w, [last], [last]);
        assert Only(h, t) + Others(h, t) == (o + w) + [last];
      } else {
        OthersFrom(init, t);
        forall i | 0 <= i < |w| ensures !Conflict(w[i], last) && w[i].txn != last.txn {
          assert w[i] in w;
          var k :| 0 <= k < |init| && init[k] == w[i];
          assert h[k] == w[i];
        }
        PullFront(init, o, w, last);
      }
    }
  }

  lemma {:induction false} OthersFrom(h: seq<Event>, t: Txn)
    ensures forall x :: x in Others(h, t) <==> x in h && x.txn != t
  {
    if h != [] {
      OthersFrom(h[..|h| - 1], t);
      assert h == h[..|h| - 1] + [h[|h| - 1]];
    }
  }

  // --- The theorem ---

  ghost predicate Before(order: seq<Txn>, a: Txn, b: Txn) {
    exists x, y :: 0 <= x < y < |order| && order[x] == a && order[y] == b
  }

  /** Conflicting events of different transactions follow `order`. */
  ghost predicate Respects(h: seq<Event>, order: seq<Txn>) {
    forall i, j :: 0 <= i < j < |h| && Conflict(h[i], h[j]) && h[i].txn != h[j].txn ==>
      Before(order, h[i].txn, h[j].txn)
  }

  ghost predicate Covers(h: seq<Event>, order: seq<Txn>) {
    forall i :: 0 <= i < |h| ==> h[i].txn in order
  }

  /** A pair of the shorter history is a pair of the longer one, in the same order. */
  lemma {:induction false} OthersPair(h: seq<Event>, t: Txn, i: nat, j: nat) returns (a: nat, b: nat)
    requires i < j < |Others(h, t)|
    ensures a < b < |h| && h[a] == Others(h, t)[i] && h[b] == Others(h, t)[j]
  {
    var init, last := h[..|h| - 1], h[|h| - 1];
    var o := Others(init, t);
    if j < |o| {
      a, b := OthersPair(init, t, i, j);
    } else {
      OthersFrom(init, t);
      assert o[i] in o && o[i] in init;
      a :| 0 <= a < |init| && init[a] == o[i];
      b := |h| - 1;
    }
  }

  lemma {:induction false} OthersRespect(h: seq<Event>, order: seq<Txn>)
    requires order != [] && Distinct(order) && Respects(h, order) && Covers(h, order)
    ensures Respects(Others(h, order[0]), order[1..]) && Covers(Others(h, order[0]), order[1..])
  {
    var t, o := order[0], Others(h, order[0]);
    OthersFrom(h, t);
    forall i | 0 <= i < |o| ensures o[i].txn in order[1..] {
      assert o[i] in o;
      var k :| 0 <= k < |h| && h[k] == o[i];
      assert order == [t] + order[1..];
    }
    forall i, j | 0 <= i < j < |o| && Conflict(o[i], o[j]) && o[i].txn != o[j].txn
      ensures Before(order[1..], o[i].txn, o[j].txn)
    {
      var a, b := OthersPair(h, t, i, j);
      assert Before(order, h[a].txn, h[b].txn);
      var x, y :| 0 <= x < y < |order| && order[x] == o[i].txn && order[y] == o[j].txn;
      assert o[i] in o;
      assert order[1..][x - 1] == o[i].txn && order[1..][y - 1] == o[j].txn;
    }
  }

  /** A history whose conflicts follow a transaction order is equivalent to the serial one. */
  lemma {:induction false} SerialEquivalent(h: seq<Event>, order: seq<Txn>)
    requires Distinct(order) && Respects(h, order) && Covers(h, order)
    ensures Equivalent(h, Serial(h, order))
    decreases |order|
  {
    hide Equivalent, Only, Others, Respects, Covers, Conflict;
    if order == [] {
      CoversNothing(h, order);
      Reflexive(h);
    } else {
      var t, rest := order[0], order[1..];
      FirstHasNoConflict(h, order);
      FrontLoad(h, t);
      OthersRespect(h, order);
      SerialEquivalent(Others(h, t), rest);
      Reflexive(Only(h, t));
      EquivalentConcat(Only(h, t), Only(h, t), Others(h, t), Serial(Others(h, t), rest));
      EquivalentTrans(h, Only(h, t) + Others(h, t), Serial(h, order));
    }
  }

  lemma {:induction false} CoversNothing(h: seq<Event>, order: seq<Txn>)
    requires Covers(h, order) && order == []
    ensures h == []
  {
    FirstEvent(h);
  }

  lemma {:induction false} FirstEvent(h: seq<Event>)
    ensures h == [] || h[0] in h
  {
  }

  lemma {:induction false} FirstHasNoConflict(h: seq<Event>, order: seq<Txn>)
    requires order != [] && Distinct(order) && Respects(h, order)
    ensures forall i, j :: 0 <= i < j < |h| && h[i].txn != order[0] && h[j].txn == order[0] ==> !Conflict(h[i], h[j])
  {
    forall i, j | 0 <= i < j < |h| && h[i].txn != order[0] && h[j].txn == order[0] ensures !Conflict(h[i], h[j]) {
      assert !Before(order, h[i].txn, order[0]);
    }
  }

  /** Transactions listed by their first release; those that never release come last. */
  ghost predicate ByRelease(h: seq<Event>, order: seq<Txn>) {
    && Distinct(order) && Covers(h, order)
    && forall x, y :: 0 <= x < y < |order| ==> FirstRelease(h, order[x]) <= FirstRelease(h, order[y])
  }

  /** Every legal history is equivalent to the serial one in the order of the releases. */
  lemma {:induction false} StrictTwoPhaseSerializes(h: seq<Event>, order: seq<Txn>)
    requires Legal(h) && ByRelease(h, order)
    ensures Equivalent(h, Serial(h, order))
  {
    hide Legal, FirstRelease, Equivalent, Serial;
    forall i, j | 0 <= i < j < |h| && Conflict(h[i], h[j]) && h[i].txn != h[j].txn
      ensures Before(order, h[i].txn, h[j].txn)
    {
      ConflictOrder(h, i, j);
      assert h[i].txn in order && h[j].txn in order;
      var x :| 0 <= x < |order| && order[x] == h[i].txn;
      var y :| 0 <= y < |order| && order[y] == h[j].txn;
      assert x < y;
    }
    SerialEquivalent(h, order);
  }

  /** The release order itself: transactions in the order of their first release. */
  function Releases(h: seq<Event>): seq<Txn> {
    if h == [] then []
    else
      var rest := Releases(h[..|h| - 1]);
      var e := h[|h| - 1];
      if e.Unlock? && e.txn !in rest then rest + [e.txn] else rest
  }

  lemma {:induction false} ReleasesOrdered(h: seq<Event>)
    ensures forall t :: t in Releases(h) <==> FirstRelease(h, t) < |h|
    ensures Distinct(Releases(h))
    ensures forall x, y :: 0 <= x < y < |Releases(h)| ==>
      FirstRelease(h, Releases(h)[x]) < FirstRelease(h, Releases(h)[y])
  {
    hide FirstRelease;
    if h != [] {
      var init, e := h[..|h| - 1], h[|h| - 1];
      ReleasesOrdered(init);
      forall t ensures FirstRelease(h, t) == if FirstRelease(init, t) < |init| then FirstRelease(init, t)
                                           else if e == Unlock(t) then |init| else |h| {
        FirstReleaseAppend(h, t);
      }
    }
  }

  lemma {:induction false} FirstReleaseAppend(h: seq<Event>, t: Txn)
    requires h != []
    ensures var init, e := h[..|h| - 1], h[|h| - 1];
      FirstRelease(h, t) == if FirstRelease(init, t) < |init| then FirstRelease(init, t)
                            else if e == Unlock(t) then |init| else |h|
  {
    hide FirstRelease;
    var init := h[..|h| - 1];
    var a, b := FirstRelease(h, t), FirstRelease(init, t);
    assert forall x :: 0 <= x < |init| ==> init[x] == h[x];
    assert (a < |init| ==> init[a] == Unlock(t)) && (b < |init| ==> h[b] == Unlock(t));
  }

  /** For a history in which everybody released, `Releases` is that order. */
  lemma {:induction false} FinishedHistorySerializes(h: seq<Event>)
    requires Legal(h) && forall i :: 0 <= i < |h| ==> FirstRelease(h, h[i].txn) < |h|
    ensures Equivalent(h, Serial(h, Releases(h)))
  {
    hide Legal, FirstRelease, Equivalent, Serial, Releases;
    ReleasesOrdered(h);
    StrictTwoPhaseSerializes(h, Releases(h));
  }

  // --- A refusal without a deadlock ---

  lemma {:induction false} RunMore(h: seq<Event>, e: Event)
    ensures Run(h + [e]) == Step(Run(h), e)
  {
    assert (h + [e])[..|h|] == h;
  }

  /** Waiting for one transaction that waits for nobody is no deadlock, so the request is queued. */
  lemma {:induction false} OneWaitIsFine(g: Waits, t: Txn, v: Txn)
    requires t != v && t in g && g[t] == {v} && Succ(g, v) == {}
    ensures !PathsMeet(g, t)
  {
    forall p | PathTo(g, t, p) ensures p == [t] || p == [t, v] {
      if |p| > 1 { PathAt(g, p, 0); }
      if |p| > 2 {
        PathAt(g, p, 1);
        assert false;
      }
    }
  }

  lemma {:induction false} PathAt(g: Waits, p: seq<Txn>, i: nat)
    requires Path(g, p) && i + 1 < |p|
    ensures p[i + 1] in Succ(g, p[i])
  {
  }

  lemma {:induction false} GrantedAtOnce(s: State, t: Txn, rid: Rid, mode: Mode, q: Queue)
    requires QueueOf(s.table, rid) == q && (mode == Exclusive ==> q == [])
    requires forall i :: 0 <= i < |q| ==> q[i].txn != t && q[i].mode == Shared
    ensures Acquire(s, t, rid, mode).0 == s.(table := s.table[rid := q + [Request(t, mode, true)]])
  {
    hide PathsMeet;
  }

  /** Transactions 2 and 3 read row `c` and wait for 4 on row `a`. Transaction 1 then asks to write `c`: it is refused
      as a deadlock, although the waits it would add close no cycle. */
  lemma {:induction false} DiamondRefused(a: Rid, c: Rid)
    requires a != c
    ensures var h := [Lock(2, c, Shared), Lock(3, c, Shared), Lock(4, a, Exclusive), Lock(2, a, Shared),
                      Lock(3, a, Shared)];
      && Run(h).waits == map[2 := {4}, 3 := {4}]
      && Acquire(Run(h), 1, c, Exclusive).1 == Deadlock
      && (forall u :: u != 1 && HoldsLock(Run(h), u, c, Shared) <==> u in {2, 3})
      && Acyclic(Run(h).waits[1 := {2, 3}])
  {
    hide PathsMeet, Acyclic, Run, Acquire, HoldsLock;
    RunNothing();
    var h1 := [Lock(2, c, Shared)];
    var h2 := [Lock(2, c, Shared), Lock(3, c, Shared)];
    var h3 := [Lock(2, c, Shared), Lock(3, c, Shared), Lock(4, a, Exclusive)];
    var h4 := [Lock(2, c, Shared), Lock(3, c, Shared), Lock(4, a, Exclusive), Lock(2, a, Shared)];
    var h := [Lock(2, c, Shared), Lock(3, c, Shared), Lock(4, a, Exclusive), Lock(2, a, Shared), Lock(3, a, Shared)];
    RunMore([], Lock(2, c, Shared));
    assert h1 == [] + [Lock(2, c, Shared)];
    var readers := [Request(2, Shared, true), Request(3, Shared, true)];
    var writer := Request(4, Exclusive, true);
    GrantedAtOnce(EMPTY, 2, c, Shared, []);
    assert [] + [readers[0]] == [readers[0]] && Run(h1) == State(EMPTY.table[c := [readers[0]]], map[]);
    RunMore(h1, Lock(3, c, Shared));
    assert h2 == h1 + [Lock(3, c, Shared)];
    GrantedAtOnce(Run(h1), 3, c, Shared, [readers[0]]);
    assert [readers[0]] + [readers[1]] == readers && Run(h2) == State(Run(h1).table[c := readers], map[]);
    RunMore(h2, Lock(4, a, Exclusive));
    assert h3 == h2 + [Lock(4, a, Exclusive)];
    GrantedAtOnce(Run(h2), 4, a, Exclusive, []);
    assert [] + [writer] == [writer] && Run(h3) == State(Run(h2).table[a := [writer]], map[]);
    RunMore(h3, Lock(2, a, Shared));
    assert h4 == h3 + [Lock(2, a, Shared)];
    WaitsFor4(Run(h3), 2, a, [writer]);
    RunMore(h4, Lock(3, a, Shared));
    assert h == h4 + [Lock(3, a, Shared)];
    WaitsFor4(Run(h4), 3, a, [writer, Request(2, Shared, false)]);
    assert Run(h).waits == map[2 := {4}, 3 := {4}] && Run(h).table[c] == readers;
    Refused1(Run(h), c, readers);
  }

  lemma {:induction false} RunNothing()
    ensures Run([]) == EMPTY
  {
  }

  lemma {:induction false} WaitsFor4(s: State, t: Txn, a: Rid, q: Queue)
    requires t != 4 && a in s.table && s.table[a] == q && q != [] && q[0] == Request(4, Exclusive, true) &&
             4 !in s.waits
    requires forall i :: 1 <= i < |q| ==> !q[i].granted && q[i].txn != t
    ensures Acquire(s, t, a, Shared).0 == State(s.table[a := q + [Request(t, Shared, false)]], s.waits[t := {4}])
  {
    hide PathsMeet;
    var q' := q + [Request(t, Shared, false)];
    assert q[0].granted && q[0].mode == Exclusive;
    assert Blockers(q', t) == {4} by { assert q'[0].granted && q'[0].txn == 4; }
    OneWaitIsFine(s.waits[t := {4}], t, 4);
  }

  lemma {:induction false} Refused1(s: State, c: Rid, readers: Queue)
    requires s.waits == map[2 := {4}, 3 := {4}] && c in s.table && s.table[c] == readers
    requires readers == [Request(2, Shared, true), Request(3, Shared, true)]
    ensures Acquire(s, 1, c, Exclusive).1 == Deadlock && Acyclic(s.waits[1 := {2, 3}])
    ensures forall u :: u != 1 && HoldsLock(s, u, c, Shared) <==> u in {2, 3}
  {
    hide PathsMeet, Acyclic;
    DiamondIsNoCycle();
    assert s.waits[1 := {2, 3}] == map[1 := {2, 3}, 2 := {4}, 3 := {4}];
    var q' := readers + [Request(1, Exclusive, false)];
    assert readers[0].granted && readers[0].txn == 2 && readers[1].granted && readers[1].txn == 3;
    assert Blockers(q', 1) == {2, 3} by {
      assert q'[0].txn == 2 && q'[1].txn == 3 && q'[0].granted && q'[1].granted;
    }
    assert Acquire(s, 1, c, Exclusive).1 == Deadlock;
  }
}
