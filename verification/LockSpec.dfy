/** The lock table and waits-for graph of src/concurrency/lock_manager.rs as values,
    with one function per step, and the invariant every step keeps. */
module LockSpec {
  import opened Common

  type Txn = nat

  datatype Mode = Shared | Exclusive

  datatype Request = Request(txn: Txn, mode: Mode, granted: bool)

  type Queue = seq<Request>

  type Waits = map<Txn, set<Txn>>

  datatype State = State(table: map<Rid, Queue>, waits: Waits)

  datatype Answer = Granted | Queued | Deadlock

  const EMPTY: State := State(map[], map[])

  // --- One queue ---

  predicate Holds(q: Queue, t: Txn) {
    exists i :: 0 <= i < |q| && q[i].txn == t && q[i].granted
  }

  predicate HoldsExclusive(q: Queue, t: Txn) {
    exists i :: 0 <= i < |q| && q[i].txn == t && q[i].granted && q[i].mode == Exclusive
  }

  predicate OthersHold(q: Queue, t: Txn) {
    exists i :: 0 <= i < |q| && q[i].granted && q[i].txn != t
  }

  predicate AnyGranted(q: Queue) {
    exists i :: 0 <= i < |q| && q[i].granted
  }

  predicate AnyExclusive(q: Queue) {
    exists i :: 0 <= i < |q| && q[i].granted && q[i].mode == Exclusive
  }

  predicate CanGrant(q: Queue, t: Txn, mode: Mode) {
    HoldsExclusive(q, t) || (if mode == Shared then !AnyExclusive(q) else !OthersHold(q, t))
  }

  function Upgrade(q: Queue, t: Txn): (r: Queue)
    ensures |r| == |q|
    ensures forall i :: 0 <= i < |q| ==> r[i] == if q[i].txn == t then q[i].(mode := Exclusive) else q[i]
  {
    seq(|q|, i requires 0 <= i < |q| => if q[i].txn == t then q[i].(mode := Exclusive) else q[i])
  }

  function Blockers(q: Queue, t: Txn): set<Txn> {
    set i | 0 <= i < |q| && q[i].granted && q[i].txn != t :: q[i].txn
  }

  /** Drops every request of `t`, or only the waiting ones. */
  function Retain(q: Queue, t: Txn, keepGranted: bool): (r: Queue)
    ensures forall x :: x in r <==> x in q && (x.txn != t || (keepGranted && x.granted))
  {
    if q == [] then []
    else if q[0].txn != t || (keepGranted && q[0].granted) then [q[0]] + Retain(q[1..], t, keepGranted)
    else Retain(q[1..], t, keepGranted)
  }

  /** The grant decision of a release for the request at `i`. */
  function GrantOne(q: Queue, i: nat): (r: Queue)
    requires i < |q|
    ensures |r| == |q|
  {
    if !q[i].granted && (if q[i].mode == Shared then !AnyExclusive(q) else !AnyGranted(q))
    then q[i := q[i].(granted := true)] else q
  }

  /** Grants waiting requests from position `i` on, front to back. */
  function GrantFrom(q: Queue, i: nat): (r: Queue)
    requires i <= |q|
    ensures |r| == |q|
    decreases |q| - i
  {
    if i == |q| then q else GrantFrom(GrantOne(q, i), i + 1)
  }

  function GrantWaiting(q: Queue): (r: Queue)
    ensures |r| == |q|
  {
    GrantFrom(q, 0)
  }

  // --- What a queue must satisfy ---

  /** An exclusive holder is alone, up to its own other requests. */
  ghost predicate MutuallyExclusive(q: Queue) {
    forall i, j :: 0 <= i < |q| && 0 <= j < |q| && q[i].granted && q[i].mode == Exclusive && q[j].granted ==>
      q[i].txn == q[j].txn
  }

  /** Nobody waits without a holder, and nobody waits for a shared lock without an exclusive holder. */
  ghost predicate WaitersBlocked(q: Queue) {
    forall i :: 0 <= i < |q| && !q[i].granted ==> AnyGranted(q) && (q[i].mode == Shared ==> AnyExclusive(q))
  }

  ghost predicate QueueOk(q: Queue) {
    MutuallyExclusive(q) && WaitersBlocked(q)
  }

  /** On the queue of some row, `u` waits while `v` holds. */
  ghost predicate WaitsOn(q: Queue, u: Txn, v: Txn) {
    exists i, j :: 0 <= i < |q| && 0 <= j < |q| && q[i].txn == u && !q[i].granted && q[j].txn == v && q[j].granted
  }

  // --- Paths in the waits-for graph ---

  function Succ(g: Waits, t: Txn): set<Txn> {
    if t in g then g[t] else {}
  }

  ghost predicate Path(g: Waits, p: seq<Txn>) {
    |p| > 0 && forall i :: 0 <= i < |p| - 1 ==> p[i + 1] in Succ(g, p[i])
  }

  ghost predicate Acyclic(g: Waits) {
    forall p :: Path(g, p) && |p| > 1 ==> p[0] != p[|p| - 1]
  }

  ghost predicate PathTo(g: Waits, start: Txn, p: seq<Txn>) {
    Path(g, p) && p[0] == start
  }

  /** Two different wait paths from `start` meet. This is what the deadlock test answers. */
  ghost predicate PathsMeet(g: Waits, start: Txn) {
    exists p, q :: PathTo(g, start, p) && PathTo(g, start, q) && p != q && p[|p| - 1] == q[|q| - 1]
  }

  // --- Steps ---

  function QueueOf(table: map<Rid, Queue>, rid: Rid): Queue {
    if rid in table then table[rid] else []
  }

  ghost function Acquire(s: State, t: Txn, rid: Rid, mode: Mode): (State, Answer) {
    var q := QueueOf(s.table, rid);
    if Holds(q, t) && (mode == Shared || HoldsExclusive(q, t)) then
      (s.(table := s.table[rid := q]), Granted)
    else if Holds(q, t) && CanGrant(q, t, Exclusive) then
      (s.(table := s.table[rid := Upgrade(q, t)]), Granted)
    else
      var can := CanGrant(q, t, mode);
      var q' := q + [Request(t, mode, can)];
      if can then (s.(table := s.table[rid := q']), Granted)
      else
        var waits' := s.waits[t := Blockers(q', t)];
        if PathsMeet(waits', t) then
          (State(s.table[rid := Retain(q', t, true)], waits' - {t}), Deadlock)
        else
          (State(s.table[rid := q'], waits'), Queued)
  }

  function Release(s: State, t: Txn): State {
    State(map rid | rid in s.table :: GrantWaiting(Retain(s.table[rid], t, false)),
          map u | u in s.waits && u != t :: s.waits[u] - {t})
  }

  predicate HoldsLock(s: State, t: Txn, rid: Rid, mode: Mode) {
    rid in s.table &&
    exists i :: 0 <= i < |s.table[rid]| && s.table[rid][i].txn == t && s.table[rid][i].granted
                && (s.table[rid][i].mode == mode || s.table[rid][i].mode == Exclusive)
  }

  ghost predicate QueuesOk(table: map<Rid, Queue>) {
    forall rid :: rid in table ==> QueueOk(table[rid])
  }

  /** Every recorded wait is a real one. */
  ghost predicate EdgesReal(s: State) {
    forall u, v :: u in s.waits && v in s.waits[u] ==> u != v && RealWait(s.table, u, v)
  }

  ghost predicate RealWait(table: map<Rid, Queue>, u: Txn, v: Txn) {
    exists rid :: rid in table && WaitsOn(table[rid], u, v)
  }

  ghost predicate LockInv(s: State) {
    QueuesOk(s.table) && EdgesReal(s) && Acyclic(s.waits)
  }

  // --- Queues stay in order ---

  lemma {:induction false} GrantOneOk(q: Queue, i: nat)
    requires i < |q| && MutuallyExclusive(q)
    ensures var r := GrantOne(q, i);
      && MutuallyExclusive(r)
      && (forall k :: 0 <= k < |q| ==> r[k] == q[k] || r[k] == q[k].(granted := true))
      && (AnyGranted(q) ==> AnyGranted(r)) && (AnyExclusive(q) ==> AnyExclusive(r))
      && (!r[i].granted ==> AnyGranted(r) && (r[i].mode == Shared ==> AnyExclusive(r)))
  {
    var r := GrantOne(q, i);
    if k :| 0 <= k < |q| && q[k].granted { assert r[k].granted; }
    if k :| 0 <= k < |q| && q[k].granted && q[k].mode == Exclusive { assert r[k].granted && r[k].mode == Exclusive; }
  }

  /** A release's batch grant: only grants, keeps exclusion, and leaves nobody waiting needlessly. */
  lemma {:induction false} GrantFromOk(q: Queue, i: nat)
    requires i <= |q| && MutuallyExclusive(q)
    requires forall k :: 0 <= k < i && !q[k].granted ==> AnyGranted(q) && (q[k].mode == Shared ==> AnyExclusive(q))
    ensures var r := GrantFrom(q, i);
      && QueueOk(r)
      && (forall k :: 0 <= k < |q| ==> r[k] == q[k] || r[k] == q[k].(granted := true))
      && (AnyGranted(q) ==> forall k :: 0 <= k < |q| && q[k].mode == Exclusive ==> r[k] == q[k])
      && (AnyExclusive(q) ==> r == q)
    decreases |q| - i
  {
    if i < |q| {
      var q' := GrantOne(q, i);
      GrantOneOk(q, i);
      hide AnyGranted, AnyExclusive, MutuallyExclusive;
      GrantFromOk(q', i + 1);
    }
  }

  lemma {:induction false} RetainKeeps(q: Queue, t: Txn, keepGranted: bool)
    requires MutuallyExclusive(q)
    ensures MutuallyExclusive(Retain(q, t, keepGranted))
  {
    var r := Retain(q, t, keepGranted);
    forall i, j | 0 <= i < |r| && 0 <= j < |r| && r[i].granted && r[i].mode == Exclusive && r[j].granted
      ensures r[i].txn == r[j].txn
    {
      assert r[i] in r && r[j] in r;
      var a :| 0 <= a < |q| && q[a] == r[i];
      var b :| 0 <= b < |q| && q[b] == r[j];
    }
  }

  lemma {:induction false} ReleaseQueueOk(q: Queue, t: Txn)
    requires QueueOk(q)
    ensures QueueOk(GrantWaiting(Retain(q, t, false)))
  {
    RetainKeeps(q, t, false);
    GrantFromOk(Retain(q, t, false), 0);
  }

  lemma {:induction false} DropWaitingOk(q: Queue, t: Txn)
    requires QueueOk(q)
    ensures QueueOk(Retain(q, t, true))
  {
    var r := Retain(q, t, true);
    RetainKeeps(q, t, true);
    forall i | 0 <= i < |r| && !r[i].granted ensures AnyGranted(r) && (r[i].mode == Shared ==> AnyExclusive(r)) {
      assert r[i] in r;
      var a :| 0 <= a < |q| && q[a] == r[i];
      GrantedStays(q, r);
    }
  }

  lemma {:induction false} GrantedStays(q: Queue, r: Queue)
    requires forall x :: x in q && x.granted ==> x in r
    ensures AnyGranted(q) ==> AnyGranted(r)
    ensures AnyExclusive(q) ==> AnyExclusive(r)
  {
    if k :| 0 <= k < |q| && q[k].granted { assert q[k] in r; }
    if k :| 0 <= k < |q| && q[k].granted && q[k].mode == Exclusive { assert q[k] in r; }
  }

  lemma {:induction false} UpgradeOk(q: Queue, t: Txn)
    requires QueueOk(q) && Holds(q, t) && !OthersHold(q, t)
    ensures QueueOk(Upgrade(q, t))
  {
    var r := Upgrade(q, t);
    var h :| 0 <= h < |q| && q[h].txn == t && q[h].granted;
    assert r[h].granted && r[h].mode == Exclusive;
    assert forall i :: 0 <= i < |q| && q[i].granted ==> q[i].txn == t;
  }

  lemma {:induction false} PushOk(q: Queue, t: Txn, mode: Mode)
    requires QueueOk(q) && !HoldsExclusive(q, t)
    requires Holds(q, t) ==> OthersHold(q, t) && mode == Exclusive
    ensures QueueOk(q + [Request(t, mode, CanGrant(q, t, mode))])
  {
    var can := CanGrant(q, t, mode);
    var r := q + [Request(t, mode, can)];
    assert forall i :: 0 <= i < |q| ==> r[i] == q[i];
    if can {
      assert r[|q|].granted;
    } else {
      if mode == Shared {
        var k :| 0 <= k < |q| && q[k].granted && q[k].mode == Exclusive;
        assert r[k].granted;
      } else {
        var k :| 0 <= k < |q| && q[k].granted && q[k].txn != t;
        assert r[k].granted;
      }
    }
    PushBlocked(q, r);
    PushExclusive(q, t, mode, r);
  }

  lemma {:induction false} PushBlocked(q: Queue, r: Queue)
    requires WaitersBlocked(q) && |r| == |q| + 1 && forall i :: 0 <= i < |q| ==> r[i] == q[i]
    requires !r[|q|].granted ==> AnyGranted(r) && (r[|q|].mode == Shared ==> AnyExclusive(r))
    ensures WaitersBlocked(r)
  {
    assert forall x :: x in q ==> x in r by {
      forall x | x in q ensures x in r { var i :| 0 <= i < |q| && q[i] == x; assert r[i] == x; }
    }
    GrantedStays(q, r);
    hide AnyGranted, AnyExclusive;
  }

  lemma {:induction false} PushExclusive(q: Queue, t: Txn, mode: Mode, r: Queue)
    requires MutuallyExclusive(q) && !HoldsExclusive(q, t)
    requires r == q + [Request(t, mode, CanGrant(q, t, mode))]
    ensures MutuallyExclusive(r)
  {
    assert forall i :: 0 <= i < |q| ==> r[i] == q[i];
  }
}
