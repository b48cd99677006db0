/** Every step of the lock manager keeps its invariant: exclusion, real waits, no wait cycle. */
module LockSteps {
  import opened Common
  import opened LockSpec

  // --- The waits-for graph ---

  lemma {:induction false} PathMonotone(g: Waits, g': Waits, p: seq<Txn>)
    requires Path(g', p) && forall i :: 0 <= i < |p| - 1 ==> Succ(g', p[i]) <= Succ(g, p[i])
    ensures Path(g, p)
  {
  }

  /** Dropping edges keeps the graph acyclic. */
  lemma {:induction false} AcyclicSubgraph(g: Waits, g': Waits)
    requires Acyclic(g) && forall t :: Succ(g', t) <= Succ(g, t)
    ensures Acyclic(g')
  {
    forall p | Path(g', p) && |p| > 1 ensures p[0] != p[|p| - 1] {
      PathMonotone(g, g', p);
    }
  }

  /** A path from `t` back to `t` meets the trivial path. */
  lemma {:induction false} LoopMeets(g: Waits, t: Txn, p: seq<Txn>)
    requires PathTo(g, t, p) && |p| > 1 && p[|p| - 1] == t
    ensures PathsMeet(g, t)
  {
    assert PathTo(g, t, [t]);
  }

  /** New waits of `t` that meet no second path close no cycle. */
  lemma {:induction false} AcyclicExtend(g: Waits, t: Txn, blockers: set<Txn>)
    requires Acyclic(g) && !PathsMeet(g[t := blockers], t)
    ensures Acyclic(g[t := blockers])
  {
    var g' := g[t := blockers];
    forall p | Path(g', p) && |p| > 1 ensures p[0] != p[|p| - 1] {
      if p[0] == p[|p| - 1] {
        if k :| 0 <= k < |p| - 1 && p[k] == t {
          var loop := p[k..] + p[1..k + 1];
          Rotated(g', p, k, loop);
          LoopMeets(g', t, loop);
        } else {
          PathMonotone(g, g', p);
        }
        assert false;
      }
    }
  }

  lemma {:induction false} Rotated(g: Waits, p: seq<Txn>, k: nat, loop: seq<Txn>)
    requires Path(g, p) && |p| > 1 && p[0] == p[|p| - 1] && k < |p| - 1 && loop == p[k..] + p[1..k + 1]
    ensures PathTo(g, p[k], loop) && |loop| > 1 && loop[|loop| - 1] == p[k]
  {
    var n := |p| - k;
    assert forall i :: 0 <= i < n ==> loop[i] == p[k + i];
    assert forall i :: n <= i < |loop| ==> loop[i] == p[i - n + 1];
    forall i | 0 <= i < |loop| - 1 ensures loop[i + 1] in Succ(g, loop[i]) {
      if i < n - 1 {
        assert p[k + i + 1] in Succ(g, p[k + i]);
      } else if i == n - 1 {
        assert p[1] in Succ(g, p[0]);
      } else {
        assert p[i - n + 1 + 1] in Succ(g, p[i - n + 1]);
      }
    }
  }

  /** When no two paths from `start` meet, no cycle is reachable from `start`. */
  lemma {:induction false} NoMeetNoCycle(g: Waits, start: Txn, p: seq<Txn>, c: seq<Txn>)
    requires !PathsMeet(g, start) && PathTo(g, start, p)
    requires Path(g, c) && |c| > 1 && c[0] == p[|p| - 1]
    ensures c[0] != c[|c| - 1]
  {
    if c[0] == c[|c| - 1] {
      var q := p + c[1..];
      forall i | 0 <= i < |q| - 1 ensures q[i + 1] in Succ(g, q[i]) {
        if i < |p| - 1 {
          assert p[i + 1] in Succ(g, p[i]);
        } else {
          assert c[i - |p| + 2] in Succ(g, c[i - |p| + 1]);
        }
      }
      assert PathTo(g, start, q);
      assert false;
    }
  }

  lemma {:induction false} AscendingPath(g: Waits, p: seq<Txn>, i: nat)
    requires forall t: Txn, u :: u in Succ(g, t) ==> t < u
    requires Path(g, p) && i < |p|
    ensures p[0] <= p[i] && (i > 0 ==> p[0] < p[i])
  {
    if i > 0 {
      AscendingPath(g, p, i - 1);
      assert p[i - 1 + 1] in Succ(g, p[i - 1]);
    }
  }

  /** The deadlock test is not exact: on a diamond of waits it answers yes although nothing is deadlocked. */
  lemma {:induction false} DiamondIsNoCycle()
    ensures var g: Waits := map[1 := {2, 3}, 2 := {4}, 3 := {4}];
            PathsMeet(g, 1) && Acyclic(g)
  {
    var g: Waits := map[1 := {2, 3}, 2 := {4}, 3 := {4}];
    assert PathTo(g, 1, [1, 2, 4]) && PathTo(g, 1, [1, 3, 4]);
    assert [1, 2, 4][1] != [1, 3, 4][1];
    forall p | Path(g, p) && |p| > 1 ensures p[0] != p[|p| - 1] {
      AscendingPath(g, p, |p| - 1);
    }
  }

  // --- Real waits ---

  /** A recorded wait stays real when its requests stay, the waiting one still waiting. */
  lemma {:induction false} RealStays(table: map<Rid, Queue>, table': map<Rid, Queue>, u: Txn, v: Txn)
    requires RealWait(table, u, v)
    requires forall rid :: rid in table && WaitsOn(table[rid], u, v) ==> rid in table' && WaitsOn(table'[rid], u, v)
    ensures RealWait(table', u, v)
  {
    var rid :| rid in table && WaitsOn(table[rid], u, v);
  }

  lemma {:induction false} UpgradeKeepsWaits(q: Queue, t: Txn, u: Txn, v: Txn)
    requires WaitsOn(q, u, v)
    ensures WaitsOn(Upgrade(q, t), u, v)
  {
    var i, j :| 0 <= i < |q| && 0 <= j < |q| && q[i].txn == u && !q[i].granted && q[j].txn == v && q[j].granted;
    var r := Upgrade(q, t);
    assert r[i].txn == u && !r[i].granted && r[j].txn == v && r[j].granted;
  }

  lemma {:induction false} PushKeepsWaits(q: Queue, x: Request, u: Txn, v: Txn)
    requires WaitsOn(q, u, v)
    ensures WaitsOn(q + [x], u, v)
  {
    var i, j :| 0 <= i < |q| && 0 <= j < |q| && q[i].txn == u && !q[i].granted && q[j].txn == v && q[j].granted;
    var r := q + [x];
    assert r[i] == q[i] && r[j] == q[j];
  }

  lemma {:induction false} DropKeepsWaits(q: Queue, t: Txn, u: Txn, v: Txn)
    requires WaitsOn(q, u, v) && u != t
    ensures WaitsOn(Retain(q, t, true), u, v)
  {
    var r := Retain(q, t, true);
    var i, j :| 0 <= i < |q| && 0 <= j < |q| && q[i].txn == u && !q[i].granted && q[j].txn == v && q[j].granted;
    assert q[i] in r && q[j] in r;
    var a :| 0 <= a < |r| && r[a] == q[i];
    var b :| 0 <= b < |r| && r[b] == q[j];
  }

  /** What blocks a waiting shared request is an exclusive holder, and every other holder is the same transaction. */
  lemma {:induction false} ExclusiveStays(q: Queue, t: Txn, i: nat, j: nat, r: Queue)
    requires QueueOk(q) && i < |q| && j < |q| && !q[i].granted && q[i].mode == Shared && q[j].granted && q[j].txn != t
    requires forall x :: x in q && x.txn != t ==> x in r
    ensures AnyExclusive(r)
  {
    var x :| 0 <= x < |q| && q[x].granted && q[x].mode == Exclusive;
    assert q[x].txn == q[j].txn && q[x] in q;
    var c :| 0 <= c < |r| && r[c] == q[x];
  }

  /** A release grants nothing to a transaction whose recorded blocker still holds. */
  lemma {:induction false} ReleaseKeepsWaits(q: Queue, t: Txn, u: Txn, v: Txn)
    requires QueueOk(q) && WaitsOn(q, u, v) && u != t && v != t
    ensures WaitsOn(GrantWaiting(Retain(q, t, false)), u, v)
  {
    hide GrantFrom, Retain, MutuallyExclusive, WaitersBlocked;
    var r := Retain(q, t, false);
    var i, j :| 0 <= i < |q| && 0 <= j < |q| && q[i].txn == u && !q[i].granted && q[j].txn == v && q[j].granted;
    assert q[i] in r && q[j] in r;
    var a :| 0 <= a < |r| && r[a] == q[i];
    var b :| 0 <= b < |r| && r[b] == q[j];
    RetainKeeps(q, t, false);
    GrantFromOk(r, 0);
    assert r[a].mode == Shared ==> AnyExclusive(r) by {
      if r[a].mode == Shared { ExclusiveStays(q, t, i, j, r); }
    }
    var s := GrantWaiting(r);
    assert s[a] == r[a] && s[b].granted && s[b].txn == v;
  }

  // --- The steps ---

  lemma {:induction false} AcquireQueueOk(s: State, t: Txn, rid: Rid, mode: Mode)
    requires QueuesOk(s.table)
    ensures QueuesOk(Acquire(s, t, rid, mode).0.table)
  {
    hide PathsMeet, MutuallyExclusive, WaitersBlocked;
    var q := QueueOf(s.table, rid);
    assert QueueOk(q) by { EmptyQueueOk(); }
    if Holds(q, t) && (mode == Shared || HoldsExclusive(q, t)) {
    } else if Holds(q, t) && CanGrant(q, t, Exclusive) {
      UpgradeOk(q, t);
    } else {
      PushOk(q, t, mode);
      var q' := q + [Request(t, mode, CanGrant(q, t, mode))];
      DropWaitingOk(q', t);
    }
  }

  lemma {:induction false} EmptyQueueOk()
    ensures QueueOk([])
  {
  }

  /** Queues never lose a recorded wait of another transaction through an acquire. */
  lemma {:induction false} AcquireKeepsWaits(s: State, t: Txn, rid: Rid, mode: Mode, u: Txn, v: Txn)
    requires RealWait(s.table, u, v)
    requires u != t || Acquire(s, t, rid, mode).1 != Deadlock
    ensures RealWait(Acquire(s, t, rid, mode).0.table, u, v)
  {
    hide PathsMeet, WaitsOn;
    var s' := Acquire(s, t, rid, mode).0;
    var q := QueueOf(s.table, rid);
    forall r | r in s.table && WaitsOn(s.table[r], u, v) ensures r in s'.table && WaitsOn(s'.table[r], u, v) {
      if r == rid {
        if Holds(q, t) && (mode == Shared || HoldsExclusive(q, t)) {
        } else if Holds(q, t) && CanGrant(q, t, Exclusive) {
          UpgradeKeepsWaits(q, t, u, v);
        } else {
          PushKeepsWaits(q, Request(t, mode, CanGrant(q, t, mode)), u, v);
          if u != t { DropKeepsWaits(q + [Request(t, mode, CanGrant(q, t, mode))], t, u, v); }
        }
      }
    }
    RealStays(s.table, s'.table, u, v);
  }

  lemma {:induction false} NewWaitReal(q: Queue, t: Txn, mode: Mode, v: Txn)
    requires v in Blockers(q + [Request(t, mode, false)], t)
    ensures v != t && WaitsOn(q + [Request(t, mode, false)], t, v)
  {
    var r := q + [Request(t, mode, false)];
    var j :| 0 <= j < |r| && r[j].granted && r[j].txn == v;
    assert r[|q|].txn == t && !r[|q|].granted;
  }

  lemma {:induction false} AcquireEdgesReal(s: State, t: Txn, rid: Rid, mode: Mode)
    requires EdgesReal(s)
    ensures EdgesReal(Acquire(s, t, rid, mode).0)
  {
    hide PathsMeet, RealWait;
    var s' := Acquire(s, t, rid, mode).0;
    var q := QueueOf(s.table, rid);
    forall u, v | u in s'.waits && v in s'.waits[u] ensures u != v && RealWait(s'.table, u, v) {
      if u in s.waits && s'.waits[u] == s.waits[u] && (u != t || Acquire(s, t, rid, mode).1 != Deadlock) {
        AcquireKeepsWaits(s, t, rid, mode, u, v);
      } else {
        NewWaitReal(q, t, mode, v);
        IntroReal(s'.table, rid, u, v);
      }
    }
  }

  lemma {:induction false} IntroReal(table: map<Rid, Queue>, rid: Rid, u: Txn, v: Txn)
    requires rid in table && WaitsOn(table[rid], u, v)
    ensures RealWait(table, u, v)
  {
  }

  /** `acquire` keeps the invariant, whether it grants, queues or reports a deadlock. */
  lemma {:induction false} AcquireInv(s: State, t: Txn, rid: Rid, mode: Mode)
    requires LockInv(s)
    ensures LockInv(Acquire(s, t, rid, mode).0)
  {
    AcquireQueueOk(s, t, rid, mode);
    AcquireEdgesReal(s, t, rid, mode);
    AcquireAcyclic(s, t, rid, mode);
  }

  lemma {:induction false} AcquireAcyclic(s: State, t: Txn, rid: Rid, mode: Mode)
    requires Acyclic(s.waits)
    ensures Acyclic(Acquire(s, t, rid, mode).0.waits)
  {
    hide PathsMeet, Acyclic;
    var (s', a) := Acquire(s, t, rid, mode);
    var q := QueueOf(s.table, rid);
    if a == Queued {
      AcyclicExtend(s.waits, t, Blockers(q + [Request(t, mode, CanGrant(q, t, mode))], t));
    } else if a == Deadlock {
      AcyclicSubgraph(s.waits, s'.waits);
    }
  }

  /** `release_all` keeps the invariant. */
  lemma {:induction false} ReleaseInv(s: State, t: Txn)
    requires LockInv(s)
    ensures LockInv(Release(s, t))
  {
    var s' := Release(s, t);
    forall rid | rid in s'.table ensures QueueOk(s'.table[rid]) {
      ReleaseQueueOk(s.table[rid], t);
    }
    assert EdgesReal(s') by { ReleaseEdgesReal(s, t); }
    AcyclicSubgraph(s.waits, s'.waits);
  }

  lemma {:induction false} ReleaseEdgesReal(s: State, t: Txn)
    requires QueuesOk(s.table) && EdgesReal(s)
    ensures EdgesReal(Release(s, t))
  {
    hide WaitsOn, QueueOk, GrantWaiting, Retain;
    var s' := Release(s, t);
    forall u, v | u in s'.waits && v in s'.waits[u] ensures u != v && RealWait(s'.table, u, v) {
      var rid :| rid in s.table && WaitsOn(s.table[rid], u, v);
      ReleaseKeepsWaits(s.table[rid], t, u, v);
      IntroReal(s'.table, rid, u, v);
    }
  }

  // --- Holding a lock ---

  lemma {:induction false} IntroHold(s: State, t: Txn, rid: Rid, mode: Mode, i: nat)
    requires rid in s.table && i < |s.table[rid]| && s.table[rid][i].txn == t && s.table[rid][i].granted
    requires s.table[rid][i].mode == mode || s.table[rid][i].mode == Exclusive
    ensures HoldsLock(s, t, rid, mode)
  {
  }

  /** Nothing but the holder's own release takes a granted lock away or weakens it. */
  lemma {:induction false} AcquireKeepsHold(s: State, u: Txn, rid': Rid, mode': Mode, t: Txn, rid: Rid, mode: Mode)
    requires HoldsLock(s, t, rid, mode)
    ensures HoldsLock(Acquire(s, u, rid', mode').0, t, rid, mode)
  {
    hide PathsMeet;
    var s' := Acquire(s, u, rid', mode').0;
    var q := s.table[rid];
    var i :| 0 <= i < |q| && q[i].txn == t && q[i].granted && (q[i].mode == mode || q[i].mode == Exclusive);
    if rid != rid' {
      IntroHold(s', t, rid, mode, i);
    } else if Holds(q, u) && (mode' == Shared || HoldsExclusive(q, u)) {
      IntroHold(s', t, rid, mode, i);
    } else if Holds(q, u) && CanGrant(q, u, Exclusive) {
      IntroHold(s', t, rid, mode, i);
    } else {
      var q' := q + [Request(u, mode', CanGrant(q, u, mode'))];
      assert q'[i] == q[i] && q'[i] in q';
      var r := Retain(q', u, true);
      var k :| 0 <= k < |r| && r[k] == q'[i];
      IntroHold(s', t, rid, mode, if s'.table[rid] == q' then i else k);
    }
  }

  lemma {:induction false} ReleaseKeepsHold(s: State, u: Txn, t: Txn, rid: Rid, mode: Mode)
    requires HoldsLock(s, t, rid, mode) && u != t && QueuesOk(s.table)
    ensures HoldsLock(Release(s, u), t, rid, mode)
  {
    var q := s.table[rid];
    var i :| 0 <= i < |q| && q[i].txn == t && q[i].granted && (q[i].mode == mode || q[i].mode == Exclusive);
    var r := Retain(q, u, false);
    assert q[i] in q && q[i] in r;
    var k :| 0 <= k < |r| && r[k] == q[i];
    RetainKeeps(q, u, false);
    GrantFromOk(r, 0);
    assert GrantWaiting(r)[k] == r[k];
  }

  /** Two transactions never hold conflicting locks on one row. */
  lemma {:induction false} HoldersCompatible(s: State, t: Txn, u: Txn, rid: Rid, mode: Mode)
    requires QueuesOk(s.table) && HoldsLock(s, t, rid, Exclusive) && HoldsLock(s, u, rid, mode)
    ensures t == u
  {
    var q := s.table[rid];
    var i :| 0 <= i < |q| && q[i].txn == t && q[i].granted && q[i].mode == Exclusive;
    var j :| 0 <= j < |q| && q[j].txn == u && q[j].granted && (q[j].mode == mode || q[j].mode == Exclusive);
    assert MutuallyExclusive(q);
  }

  /** `t` has no request anywhere. */
  ghost predicate Absent(s: State, t: Txn) {
    forall rid, x :: rid in s.table && x in s.table[rid] ==> x.txn != t
  }

  lemma {:induction false} ReleaseLeavesNothing(s: State, t: Txn)
    requires QueuesOk(s.table)
    ensures Absent(Release(s, t), t)
  {
    forall rid, x | rid in Release(s, t).table && x in Release(s, t).table[rid] ensures x.txn != t {
      GrantTxns(Retain(s.table[rid], t, false), x, s.table[rid], t);
    }
  }

  lemma {:induction false} GrantTxns(r: Queue, x: Request, q: Queue, t: Txn)
    requires QueueOk(q) && r == Retain(q, t, false) && x in GrantWaiting(r)
    ensures x.txn != t && exists y :: y in q && y.txn == x.txn
  {
    RetainKeeps(q, t, false);
    GrantFromOk(r, 0);
    var i :| 0 <= i < |r| && GrantWaiting(r)[i] == x;
    assert r[i] in r && r[i] in q;
  }

  lemma {:induction false} AbsentAfterAcquire(s: State, u: Txn, rid: Rid, mode: Mode, t: Txn)
    requires Absent(s, t) && u != t
    ensures Absent(Acquire(s, u, rid, mode).0, t)
  {
    hide PathsMeet;
    var s' := Acquire(s, u, rid, mode).0;
    var q := QueueOf(s.table, rid);
    forall x | x in s'.table[rid] ensures x.txn != t {
      if Holds(q, u) && !(mode == Shared || HoldsExclusive(q, u)) && CanGrant(q, u, Exclusive) {
        var i :| 0 <= i < |q| && Upgrade(q, u)[i] == x;
        assert q[i] in q;
      }
    }
  }

  lemma {:induction false} AbsentAfterRelease(s: State, u: Txn, t: Txn)
    requires Absent(s, t) && QueuesOk(s.table)
    ensures Absent(Release(s, u), t)
  {
    forall rid, x | rid in Release(s, u).table && x in Release(s, u).table[rid] ensures x.txn != t {
      GrantTxns(Retain(s.table[rid], u, false), x, s.table[rid], u);
    }
  }

  /** A waiting upgrade is not woken by a release, because its own shared lock is still counted ... */
  lemma {:induction false} UpgradeNotWoken(q: Queue, t: Txn, i: nat, j: nat)
    requires MutuallyExclusive(q) && i < |q| && j < |q|
    requires q[i].txn == t && q[i].granted && q[j].txn == t && !q[j].granted && q[j].mode == Exclusive
    ensures GrantWaiting(q)[j] == q[j]
  {
    GrantFromOk(q, 0);
  }

  /** ... only a second `acquire` grants it, exactly when nobody else holds the row. */
  lemma {:induction false} UpgradeOnRetry(s: State, t: Txn, rid: Rid)
    requires QueuesOk(s.table) && rid in s.table && Holds(s.table[rid], t) && !HoldsExclusive(s.table[rid], t)
    ensures Acquire(s, t, rid, Exclusive).1 == Granted <==> !OthersHold(s.table[rid], t)
    ensures !OthersHold(s.table[rid], t) ==> HoldsLock(Acquire(s, t, rid, Exclusive).0, t, rid, Exclusive)
  {
    hide PathsMeet;
    var q := s.table[rid];
    var i :| 0 <= i < |q| && q[i].txn == t && q[i].granted;
    assert Upgrade(q, t)[i].granted && Upgrade(q, t)[i].mode == Exclusive;
  }

  /** Another transaction holds a lock on the row that conflicts with the wanted mode. */
  ghost predicate Contended(s: State, t: Txn, rid: Rid, mode: Mode) {
    if mode == Exclusive then exists u :: u != t && HoldsLock(s, u, rid, Shared)
    else exists u :: u != t && HoldsLock(s, u, rid, Exclusive)
  }

  /** A request is granted at once if and only if nobody else holds a conflicting lock; a granted one is held, a queued
      one waits for exactly the other holders, and a deadlock leaves no waiting request and no recorded wait behind. */
  lemma {:induction false} AcquireAnswer(s: State, t: Txn, rid: Rid, mode: Mode)
    requires QueuesOk(s.table)
    ensures var (s', answer) := Acquire(s, t, rid, mode);
      && (answer == Granted <==> !Contended(s, t, rid, mode))
      && (answer == Granted ==> HoldsLock(s', t, rid, mode) && s'.waits == s.waits)
      && (answer == Queued ==> rid in s'.table && Request(t, mode, false) in s'.table[rid] && t in s'.waits
                               && forall u :: u in s'.waits[t] <==> u != t && HoldsLock(s, u, rid, Shared))
      && (answer == Deadlock ==> t !in s'.waits && rid in s'.table && forall x :: x in s'.table[rid] ==>
          x.txn != t || x.granted)
  {
    hide PathsMeet, WaitersBlocked;
    var q := QueueOf(s.table, rid);
    var (s', answer) := Acquire(s, t, rid, mode);
    ContendedIs(s, t, rid, mode);
    if answer == Granted {
      GrantHolds(s, t, rid, mode);
    } else {
      var q' := q + [Request(t, mode, false)];
      assert q'[|q|] in q';
      HoldersAre(s, t, rid);
      assert forall i :: 0 <= i < |q| ==> q'[i] == q[i];
      assert Blockers(q', t) == Blockers(q, t);
    }
  }

  lemma {:induction false} HoldersAre(s: State, t: Txn, rid: Rid)
    ensures forall u :: u in Blockers(QueueOf(s.table, rid), t) <==> u != t && HoldsLock(s, u, rid, Shared)
  {
    var q := QueueOf(s.table, rid);
    forall u ensures u in Blockers(q, t) <==> u != t && HoldsLock(s, u, rid, Shared) {
      if u != t && HoldsLock(s, u, rid, Shared) {
        var i :| 0 <= i < |q| && q[i].txn == u && q[i].granted;
      }
    }
  }

  /** The code's tests amount to contention. */
  lemma {:induction false} ContendedIs(s: State, t: Txn, rid: Rid, mode: Mode)
    requires QueuesOk(s.table)
    ensures var q := QueueOf(s.table, rid);
      !Contended(s, t, rid, mode) <==>
        (Holds(q, t) && (mode == Shared || HoldsExclusive(q, t))) || CanGrant(q, t, mode)
  {
    hide WaitersBlocked;
    var q := QueueOf(s.table, rid);
    assert MutuallyExclusive(q);
    if mode == Exclusive {
      assert Contended(s, t, rid, mode) <==> OthersHold(q, t) by {
        if i :| 0 <= i < |q| && q[i].granted && q[i].txn != t {
          assert HoldsLock(s, q[i].txn, rid, Shared);
        }
      }
    } else {
      assert Contended(s, t, rid, mode) <==> OtherExclusive(q, t) by {
        if i :| 0 <= i < |q| && q[i].granted && q[i].txn != t && q[i].mode == Exclusive {
          assert HoldsLock(s, q[i].txn, rid, Exclusive);
        }
      }
    }
  }

  ghost predicate OtherExclusive(q: Queue, t: Txn) {
    exists i :: 0 <= i < |q| && q[i].granted && q[i].txn != t && q[i].mode == Exclusive
  }

  lemma {:induction false} GrantHolds(s: State, t: Txn, rid: Rid, mode: Mode)
    requires Acquire(s, t, rid, mode).1 == Granted
    ensures HoldsLock(Acquire(s, t, rid, mode).0, t, rid, mode)
  {
    hide PathsMeet;
    var q := QueueOf(s.table, rid);
    var s' := Acquire(s, t, rid, mode).0;
    if Holds(q, t) {
      if mode == Exclusive && HoldsExclusive(q, t) {
        var i :| 0 <= i < |q| && q[i].txn == t && q[i].granted && q[i].mode == Exclusive;
        IntroHold(s', t, rid, mode, i);
      } else {
        var i :| 0 <= i < |q| && q[i].txn == t && q[i].granted;
        IntroHold(s', t, rid, mode, i);
      }
    } else {
      IntroHold(s', t, rid, mode, |q|);
    }
  }
}
