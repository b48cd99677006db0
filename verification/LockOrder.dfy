/** Queues keep their order: who stays where he stood, and whom a release's batch grants, said of the requests. */
module LockOrder {
  import opened Common
  import opened LockSpec

  // --- The batch of a release ---

  /** Request `j` stands in the way of request `i` when `q` becomes `r`: it was granted before, or stands further
      ahead and is granted now, and one of the two is exclusive. */
  ghost predicate Blocks(q: Queue, r: Queue, i: nat, j: nat)
    requires i < |q| && j < |q| && |r| == |q|
  {
    (q[j].granted || (j < i && r[j].granted)) && (q[i].mode == Exclusive || q[j].mode == Exclusive)
  }

  ghost predicate Unblocked(q: Queue, r: Queue, i: nat)
    requires i < |q| && |r| == |q|
  {
    forall j :: 0 <= j < |q| ==> !Blocks(q, r, i, j)
  }

  ghost predicate SameRequests(q: Queue, r: Queue) {
    |r| == |q| && forall i :: 0 <= i < |q| ==> r[i] == q[i].(granted := r[i].granted)
  }

  /** `r` is `q` with exactly those requests granted that were, or that nothing stands in the way of. */
  ghost predicate GrantedInTurn(q: Queue, r: Queue) {
    SameRequests(q, r) && forall i :: 0 <= i < |q| ==> (r[i].granted <==> q[i].granted || Unblocked(q, r, i))
  }

  /** This says which requests a batch grants: there is one such `r`. */
  lemma {:induction false} InTurnUnique(q: Queue, r: Queue, s: Queue)
    requires GrantedInTurn(q, r) && GrantedInTurn(q, s)
    ensures r == s
  {
    InTurnUpTo(q, r, s, |q|);
  }

  lemma {:induction false} InTurnUpTo(q: Queue, r: Queue, s: Queue, n: nat)
    requires n <= |q| && GrantedInTurn(q, r) && GrantedInTurn(q, s)
    ensures forall i :: 0 <= i < n ==> r[i] == s[i]
  {
    if n > 0 {
      InTurnUpTo(q, r, s, n - 1);
      UnblockedSame(q, r, s, n - 1);
    }
  }

  /** The queue `q` became `now` by serving its first `i` requests. */
  ghost predicate ServedUpTo(q: Queue, now: Queue, i: nat) {
    && SameRequests(q, now)
    && (forall k :: 0 <= k < |q| && k < i ==> (now[k].granted <==> q[k].granted || Unblocked(q, now, k)))
    && (forall k :: i <= k < |q| ==> now[k] == q[k])
  }

  /** What stands in the way of a request does not depend on those behind it. */
  lemma {:induction false} UnblockedSame(q: Queue, r: Queue, s: Queue, i: nat)
    requires i < |q| == |r| == |s| && forall j :: 0 <= j < i ==> r[j].granted == s[j].granted
    ensures Unblocked(q, r, i) == Unblocked(q, s, i)
  {
    assert forall j :: 0 <= j < |q| ==> Blocks(q, r, i, j) == Blocks(q, s, i, j);
  }

  lemma {:induction false} ServeOne(q: Queue, now: Queue, i: nat)
    requires i < |q| && ServedUpTo(q, now, i)
    ensures ServedUpTo(q, GrantOne(now, i), i + 1)
  {
    hide Unblocked, AnyGranted, AnyExclusive;
    var next := GrantOne(now, i);
    forall k | 0 <= k <= i ensures Unblocked(q, next, k) == Unblocked(q, now, k) {
      UnblockedSame(q, next, now, k);
    }
    TurnOf(q, now, i);
  }

  lemma {:induction false} TurnOf(q: Queue, now: Queue, i: nat)
    requires i < |q| && ServedUpTo(q, now, i)
    ensures Unblocked(q, now, i) <==> if q[i].mode == Shared then !AnyExclusive(now) else !AnyGranted(now)
  {
    forall j | 0 <= j < |q| ensures now[j].granted <==> q[j].granted || (j < i && now[j].granted) {
    }
    if j :| 0 <= j < |q| && now[j].granted && (q[i].mode == Exclusive || now[j].mode == Exclusive) {
      assert Blocks(q, now, i, j);
    }
  }

  lemma {:induction false} ServeRest(q: Queue, now: Queue, i: nat)
    requires i <= |q| && ServedUpTo(q, now, i)
    ensures GrantedInTurn(q, GrantFrom(now, i))
    decreases |q| - i
  {
    if i < |q| {
      ServeOne(q, now, i);
      ServeRest(q, GrantOne(now, i), i + 1);
    }
  }

  /** The batch serves the queue front to back. */
  lemma {:induction false} BatchInTurn(q: Queue)
    ensures GrantedInTurn(q, GrantWaiting(q))
  {
    ServeRest(q, q, 0);
  }

  // --- Leaving a queue ---

  /** `r` is what is left of `q` without the requests of `t`, or without its waiting ones, in the old order:
      `at[k]` is where `r[k]` stood. */
  ghost predicate KeptInOrder(q: Queue, t: Txn, keepGranted: bool, r: Queue, at: seq<nat>) {
    Increasing(at) && TakenAt(q, r, at) && AllTaken(q, t, keepGranted, at)
  }

  ghost predicate Increasing(at: seq<nat>) {
    forall k, l :: 0 <= k < l < |at| ==> at[k] < at[l]
  }

  ghost predicate TakenAt(q: Queue, r: Queue, at: seq<nat>) {
    |at| == |r| && forall k :: 0 <= k < |at| ==> at[k] < |q| && q[at[k]] == r[k]
  }

  ghost predicate AllTaken(q: Queue, t: Txn, keepGranted: bool, at: seq<nat>) {
    forall i :: 0 <= i < |q| ==> (i in at <==> q[i].txn != t || (keepGranted && q[i].granted))
  }

  lemma {:induction false} RetainInOrder(q: Queue, t: Txn, keepGranted: bool) returns (at: seq<nat>)
    ensures KeptInOrder(q, t, keepGranted, Retain(q, t, keepGranted), at)
  {
    hide KeptInOrder;
    if q == [] {
      at := [];
      assert KeptInOrder(q, t, keepGranted, [], []) by { NothingKept(t, keepGranted); }
    } else {
      var rest := RetainInOrder(q[1..], t, keepGranted);
      at := KeptBehind(q, t, keepGranted, Retain(q[1..], t, keepGranted), rest);
    }
  }

  lemma {:induction false} NothingKept(t: Txn, keepGranted: bool)
    ensures KeptInOrder([], t, keepGranted, [], [])
  {
  }

  lemma {:induction false} KeptBehind(q: Queue, t: Txn, keepGranted: bool, r: Queue, rest: seq<nat>)
    returns (at: seq<nat>)
    requires q != [] && KeptInOrder(q[1..], t, keepGranted, r, rest)
    ensures KeptInOrder(q, t, keepGranted, if q[0].txn != t || (keepGranted && q[0].granted) then [q[0]] + r else r, at)
  {
    hide AllTaken, TakenAt, Increasing;
    var moved := seq(|rest|, k requires 0 <= k < |rest| => rest[k] + 1);
    at := if q[0].txn != t || (keepGranted && q[0].granted) then [0] + moved else moved;
    TakenBehind(q, r, rest, moved);
    IncreasingBehind(rest, moved);
    AllTakenBehind(q, t, keepGranted, rest, moved, at);
  }

  lemma {:induction false} TakenBehind(q: Queue, r: Queue, rest: seq<nat>, moved: seq<nat>)
    requires q != [] && |moved| == |rest| && forall k :: 0 <= k < |rest| ==> moved[k] == rest[k] + 1
    requires TakenAt(q[1..], r, rest)
    ensures TakenAt(q, r, moved) && TakenAt(q, [q[0]] + r, [0] + moved)
  {
    forall k | 0 <= k < |moved| ensures moved[k] < |q| && q[moved[k]] == r[k] {
      assert q[moved[k]] == q[1..][rest[k]];
    }
  }

  lemma {:induction false} IncreasingBehind(rest: seq<nat>, moved: seq<nat>)
    requires |moved| == |rest| && forall k :: 0 <= k < |rest| ==> moved[k] == rest[k] + 1
    requires Increasing(rest)
    ensures Increasing(moved) && Increasing([0] + moved)
  {
  }

  lemma {:induction false} AllTakenBehind(q: Queue, t: Txn, keepGranted: bool, rest: seq<nat>, moved: seq<nat>,
                                          at: seq<nat>)
    requires q != [] && |moved| == |rest| && forall k :: 0 <= k < |rest| ==> moved[k] == rest[k] + 1
    requires at == if q[0].txn != t || (keepGranted && q[0].granted) then [0] + moved else moved
    requires AllTaken(q[1..], t, keepGranted, rest)
    ensures AllTaken(q, t, keepGranted, at)
  {
    assert forall j :: j in at <==> j in moved || (j == 0 && at != moved);
    forall i | 0 <= i < |q| ensures i in at <==> q[i].txn != t || (keepGranted && q[i].granted) {
      if i > 0 {
        assert q[i] == q[1..][i - 1];
        assert i in moved <==> i - 1 in rest by {
          if k :| 0 <= k < |rest| && rest[k] == i - 1 { assert moved[k] == i; }
          if k :| 0 <= k < |moved| && moved[k] == i { assert rest[k] == i - 1; }
        }
      }
    }
  }

  // --- What a step leaves alone ---

  /** An acquire touches no other queue and no other transaction's waits, and in its own queue no other
      transaction's request. */
  lemma {:induction false} AcquireLeaves(s: State, t: Txn, rid: Rid, mode: Mode)
    ensures var s' := Acquire(s, t, rid, mode).0;
      && (forall r :: r != rid ==> QueueOf(s'.table, r) == QueueOf(s.table, r))
      && (forall u :: u != t ==> Succ(s'.waits, u) == Succ(s.waits, u))
      && (forall x: Request :: x.txn != t ==> (x in QueueOf(s'.table, rid) <==> x in QueueOf(s.table, rid)))
  {
    hide PathsMeet, CanGrant;
    var q := QueueOf(s.table, rid);
    assert forall x :: x in Upgrade(q, t) && x.txn != t ==> x in q;
    forall x | x in q && x.txn != t ensures x in Upgrade(q, t) {
      var i :| 0 <= i < |q| && q[i] == x;
      assert Upgrade(q, t)[i] == x;
    }
  }

  /** A queued request stands at the end, behind everybody who was there, and its blockers are recorded: the other
      holders of the row. */
  lemma {:induction false} QueuedAtEnd(s: State, t: Txn, rid: Rid, mode: Mode)
    requires Acquire(s, t, rid, mode).1 == Queued
    ensures var s' := Acquire(s, t, rid, mode).0;
      && QueueOf(s'.table, rid) == QueueOf(s.table, rid) + [Request(t, mode, false)]
      && forall v :: v in Succ(s'.waits, t) <==>
           v != t && exists i :: 0 <= i < |QueueOf(s.table, rid)| && QueueOf(s.table, rid)[i].txn == v &&
                                 QueueOf(s.table, rid)[i].granted
  {
    hide PathsMeet, CanGrant;
    var q := QueueOf(s.table, rid);
    var q' := q + [Request(t, mode, false)];
    assert forall i :: 0 <= i < |q| ==> q'[i] == q[i];
    assert Blockers(q', t) == set i | 0 <= i < |q| && q[i].granted && q[i].txn != t :: q[i].txn;
  }

  /** A release takes the transaction out of every queue, serves what is left in turn, and keeps the waits between
      all others. */
  lemma {:induction false} ReleaseMeans(s: State, t: Txn)
    ensures Release(s, t).table.Keys == s.table.Keys
    ensures forall rid :: rid in s.table ==> exists kept, at ::
      KeptInOrder(s.table[rid], t, false, kept, at) && GrantedInTurn(kept, Release(s, t).table[rid])
    ensures forall u, v :: v in Succ(Release(s, t).waits, u) <==> v in Succ(s.waits, u) && u != t && v != t
  {
    hide GrantedInTurn, KeptInOrder, Retain, GrantWaiting;
    forall rid | rid in s.table
      ensures exists kept, at ::
        KeptInOrder(s.table[rid], t, false, kept, at) && GrantedInTurn(kept, Release(s, t).table[rid])
    {
      var at := RetainInOrder(s.table[rid], t, false);
      BatchInTurn(Retain(s.table[rid], t, false));
    }
  }

  // --- Who stands before whom ---

  ghost predicate HasRequest(q: Queue, t: Txn) {
    exists i :: 0 <= i < |q| && q[i].txn == t
  }

  /** `t` waits for exclusive access and asks for nothing less. */
  ghost predicate WaitsExclusive(q: Queue, t: Txn) {
    HasRequest(q, t) && forall i :: 0 <= i < |q| && q[i].txn == t ==> q[i].mode == Exclusive && !q[i].granted
  }

  /** Some request of `t` stands before every request of `u`. */
  ghost predicate AheadOf(q: Queue, t: Txn, u: Txn) {
    exists a: nat :: StandsBefore(q, t, u, a)
  }

  ghost predicate StandsBefore(q: Queue, t: Txn, u: Txn, a: nat) {
    a < |q| && q[a].txn == t && forall i :: 0 <= i < |q| && q[i].txn == u ==> a < i
  }

  lemma {:induction false} AheadRetained(q: Queue, t: Txn, u: Txn, gone: Txn, keepGranted: bool)
    requires AheadOf(q, t, u) && gone != t
    ensures AheadOf(Retain(q, gone, keepGranted), t, u)
  {
    hide Retain;
    var at := RetainInOrder(q, gone, keepGranted);
    var a: nat :| StandsBefore(q, t, u, a);
    var k :| 0 <= k < |at| && at[k] == a;
    assert StandsBefore(Retain(q, gone, keepGranted), t, u, k);
  }

  lemma {:induction false} AheadSame(q: Queue, r: Queue, t: Txn, u: Txn)
    requires AheadOf(q, t, u) && |r| == |q| && forall i :: 0 <= i < |q| ==> r[i].txn == q[i].txn
    ensures AheadOf(r, t, u)
  {
    var a: nat :| StandsBefore(q, t, u, a);
    assert StandsBefore(r, t, u, a);
  }

  lemma {:induction false} AheadPushed(q: Queue, t: Txn, u: Txn, x: Request)
    requires AheadOf(q, t, u)
    ensures AheadOf(q + [x], t, u)
  {
    var a: nat :| StandsBefore(q, t, u, a);
    assert StandsBefore(q + [x], t, u, a);
  }

  lemma {:induction false} AllDropped(q: Queue, t: Txn)
    requires forall i :: 0 <= i < |q| && q[i].txn == t ==> !q[i].granted
    ensures !HasRequest(Retain(q, t, true), t) && !HasRequest(Retain(q, t, false), t)
  {
    assert forall kg :: forall i :: 0 <= i < |Retain(q, t, kg)| ==> Retain(q, t, kg)[i] in Retain(q, t, kg);
  }

  /** A place in the queue is kept by every acquire, anybody's, for as long as `t` waits. */
  lemma {:induction false} AheadAfterAcquire(s: State, w: Txn, row: Rid, mode: Mode, rid: Rid, t: Txn, u: Txn)
    requires AheadOf(QueueOf(s.table, rid), t, u) && WaitsExclusive(QueueOf(s.table, rid), t) && t != u
    requires HasRequest(QueueOf(Acquire(s, w, row, mode).0.table, rid), t)
    ensures AheadOf(QueueOf(Acquire(s, w, row, mode).0.table, rid), t, u)
  {
    hide AheadOf, PathsMeet, CanGrant, Retain, HasRequest;
    var q := QueueOf(s.table, rid);
    if row == rid {
      var x := Request(w, mode, CanGrant(q, w, mode));
      AheadSame(q, Upgrade(q, w), t, u);
      AheadPushed(q, t, u, x);
      if w != t {
        AheadRetained(q + [x], t, u, w, true);
      } else if !x.granted {
        AllDropped(q + [x], t);
      }
    }
  }

  lemma {:induction false} AheadAfterRelease(s: State, w: Txn, rid: Rid, t: Txn, u: Txn)
    requires AheadOf(QueueOf(s.table, rid), t, u) && w != t
    ensures AheadOf(QueueOf(Release(s, w).table, rid), t, u)
  {
    hide AheadOf, Retain, GrantWaiting;
    var q := QueueOf(s.table, rid);
    AheadRetained(q, t, u, w, false);
    BatchInTurn(Retain(q, w, false));
    assert rid in s.table by { NotEmpty(q, t, u); }
    AheadSame(Retain(q, w, false), GrantWaiting(Retain(q, w, false)), t, u);
  }

  lemma {:induction false} NotEmpty(q: Queue, t: Txn, u: Txn)
    requires AheadOf(q, t, u)
    ensures q != []
  {
  }

  /** The batch gives exclusive access to nobody who stands behind an exclusive waiter. */
  lemma {:induction false} BehindIsBlocked(q: Queue, r: Queue, a: nat, i: nat)
    requires GrantedInTurn(q, r) && a < i < |q|
    requires q[a].mode == Exclusive && q[i].mode == Exclusive && !q[i].granted
    ensures !r[i].granted
  {
    if r[a].granted {
      assert Blocks(q, r, i, a);
    } else {
      var j :| 0 <= j < |q| && Blocks(q, r, a, j);
      assert Blocks(q, r, i, j);
    }
  }
}
