/** First come, first served: among transactions that wait for exclusive access to a row, and where this fails. */
module FirstCome {
  import opened Common
  import opened LockSpec
  import opened LockOrder
  import opened Serializability

  /** Every request of `t` on the row after `k` events asks for exclusive access and waits, and there is one. */
  ghost predicate Waiting(h: seq<Event>, k: nat, rid: Rid, t: Txn)
    requires k <= |h|
  {
    WaitsExclusive(QueueOf(Run(h[..k]).table, rid), t)
  }

  /** `t` has been waiting for the row since after `j` events, when `u` had no request there. */
  ghost predicate AskedBefore(h: seq<Event>, j: nat, rid: Rid, t: Txn, u: Txn) {
    && j <= |h| && !HasRequest(QueueOf(Run(h[..j]).table, rid), u)
    && forall k :: j <= k <= |h| ==> Waiting(h, k, rid, t)
  }

  lemma {:induction false} StepKeepsAhead(s: State, e: Event, rid: Rid, t: Txn, u: Txn)
    requires t != u
    requires AheadOf(QueueOf(s.table, rid), t, u) && WaitsExclusive(QueueOf(s.table, rid), t)
    requires HasRequest(QueueOf(Step(s, e).table, rid), t)
    ensures AheadOf(QueueOf(Step(s, e).table, rid), t, u)
  {
    hide AheadOf, WaitsExclusive, Acquire, Release, HasRequest;
    match e
    case Lock(w, row, mode) => AheadAfterAcquire(s, w, row, mode, rid, t, u);
    case Unlock(w) =>
      if w == t {
        GoneOnRelease(s, t, rid);
      } else {
        AheadAfterRelease(s, w, rid, t, u);
      }
    case _ =>
  }

  lemma {:induction false} GoneOnRelease(s: State, t: Txn, rid: Rid)
    requires WaitsExclusive(QueueOf(s.table, rid), t)
    ensures !HasRequest(QueueOf(Release(s, t).table, rid), t)
  {
    hide Retain, GrantWaiting;
    var q := QueueOf(s.table, rid);
    AllDropped(q, t);
    BatchInTurn(Retain(q, t, false));
  }

  /** Who asked first stays in front. */
  lemma {:induction false} KeepsPlace(h: seq<Event>, j: nat, n: nat, rid: Rid, t: Txn, u: Txn)
    requires t != u && j <= n <= |h| && AskedBefore(h, j, rid, t, u)
    ensures AheadOf(QueueOf(Run(h[..n]).table, rid), t, u)
    decreases n
  {
    hide Run, Step;
    assert Waiting(h, n, rid, t);
    if j < n {
      KeepsPlace(h, j, n - 1, rid, t, u);
      assert Waiting(h, n - 1, rid, t);
      RunStep(h, n - 1);
      StepKeepsAhead(Run(h[..n - 1]), h[n - 1], rid, t, u);
    } else {
      var q := QueueOf(Run(h[..n]).table, rid);
      var a :| 0 <= a < |q| && q[a].txn == t;
      assert StandsBefore(q, t, u, a);
    }
  }

  lemma {:induction false} RunRelease(h: seq<Event>, w: Txn, rid: Rid) returns (kept: Queue)
    ensures var q, r := QueueOf(Run(h).table, rid), QueueOf(Run(h + [Unlock(w)]).table, rid);
      kept == Retain(q, w, false) && GrantedInTurn(kept, r)
  {
    hide Retain, GrantWaiting, GrantedInTurn;
    assert (h + [Unlock(w)])[..|h|] == h;
    kept := Retain(QueueOf(Run(h).table, rid), w, false);
    BatchInTurn(kept);
    if rid !in Run(h).table {
      assert kept == [] by { NothingRetained(w); }
      NothingGranted();
    }
  }

  lemma {:induction false} NothingRetained(t: Txn)
    ensures Retain([], t, false) == []
  {
  }

  lemma {:induction false} NothingGranted()
    ensures GrantedInTurn([], [])
  {
  }

  /** Of two transactions that wait for exclusive access, neither holding anything there, the one that asked later
      does not get it from a release before the other. */
  lemma {:induction false} NotOvertaken(h: seq<Event>, j: nat, rid: Rid, t: Txn, u: Txn, w: Txn)
    requires t != u && w != t && AskedBefore(h, j, rid, t, u)
    requires !Holds(QueueOf(Run(h).table, rid), u)
    ensures !HoldsLock(Run(h + [Unlock(w)]), u, rid, Exclusive)
  {
    hide Run, AheadOf, GrantedInTurn, Retain, WaitsExclusive, HasRequest;
    var q, r := QueueOf(Run(h).table, rid), QueueOf(Run(h + [Unlock(w)]).table, rid);
    assert h[..|h|] == h;
    assert Waiting(h, |h|, rid, t);
    KeepsPlace(h, j, |h|, rid, t, u);
    var p := RunRelease(h, w, rid);
    AheadRetained(q, t, u, w, false);
    WaitsRetained(q, t, w);
    HoldsRetained(q, u, w);
    Overtakes(p, r, t, u);
  }

  lemma {:induction false} WaitsRetained(q: Queue, t: Txn, w: Txn)
    requires w != t && WaitsExclusive(q, t)
    ensures WaitsExclusive(Retain(q, w, false), t)
  {
    var r := Retain(q, w, false);
    var i :| 0 <= i < |q| && q[i].txn == t;
    assert q[i] in r;
    assert forall k :: 0 <= k < |r| ==> r[k] in r && r[k] in q;
  }

  lemma {:induction false} HoldsRetained(q: Queue, u: Txn, w: Txn)
    requires !Holds(q, u)
    ensures !Holds(Retain(q, w, false), u)
  {
    var r := Retain(q, w, false);
    assert forall k :: 0 <= k < |r| ==> r[k] in r && r[k] in q;
  }

  lemma {:induction false} Overtakes(p: Queue, r: Queue, t: Txn, u: Txn)
    requires AheadOf(p, t, u) && WaitsExclusive(p, t) && !Holds(p, u) && GrantedInTurn(p, r)
    ensures forall i :: 0 <= i < |r| && r[i].txn == u && r[i].mode == Exclusive ==> !r[i].granted
  {
    hide Unblocked;
    var a: nat :| StandsBefore(p, t, u, a);
    forall i | 0 <= i < |r| && r[i].txn == u && r[i].mode == Exclusive ensures !r[i].granted {
      assert p[i].txn == u && p[i].mode == Exclusive && !p[i].granted;
      BehindIsBlocked(p, r, a, i);
    }
  }

  /** A row that only `w` holds goes, when `w` releases, to the transaction that asked before everybody else who
      waits for it. */
  lemma {:induction false} FirstServed(h: seq<Event>, rid: Rid, t: Txn, w: Txn)
    requires w != t && Waiting(h, |h|, rid, t)
    requires forall u :: Holds(QueueOf(Run(h).table, rid), u) ==> u == w
    requires forall u :: HasRequest(QueueOf(Run(h).table, rid), u) && u != t && u != w ==>
      exists j: nat :: AskedBefore(h, j, rid, t, u)
    ensures HoldsLock(Run(h + [Unlock(w)]), t, rid, Exclusive)
  {
    hide Run, AheadOf, GrantedInTurn, Retain, WaitsExclusive, HasRequest, AskedBefore, Holds, HoldsLock;
    var q, r := QueueOf(Run(h).table, rid), QueueOf(Run(h + [Unlock(w)]).table, rid);
    assert h[..|h|] == h;
    var p := RunRelease(h, w, rid);
    WaitsRetained(q, t, w);
    forall u | HasRequest(q, u) && u != t && u != w ensures AheadOf(p, t, u) {
      var j: nat :| AskedBefore(h, j, rid, t, u);
      AskedInside(h, j, rid, t, u);
      KeepsPlace(h, j, |h|, rid, t, u);
      AheadRetained(q, t, u, w, false);
    }
    NoHolderLeft(q, w);
    InFront(q, p, t, w);
    FrontServed(p, r, t);
    FrontHolds(Run(h + [Unlock(w)]), rid, t);
  }

  lemma {:induction false} AskedInside(h: seq<Event>, j: nat, rid: Rid, t: Txn, u: Txn)
    requires AskedBefore(h, j, rid, t, u)
    ensures j <= |h|
  {
    hide HasRequest, Waiting, Run;
  }

  lemma {:induction false} NoHolderLeft(q: Queue, w: Txn)
    requires forall u :: Holds(q, u) ==> u == w
    ensures forall i :: 0 <= i < |Retain(q, w, false)| ==> !Retain(q, w, false)[i].granted
  {
    var p := Retain(q, w, false);
    forall i | 0 <= i < |p| ensures !p[i].granted {
      assert p[i] in p;
      var k :| 0 <= k < |q| && q[k] == p[i];
      assert q[k].granted ==> Holds(q, q[k].txn);
    }
  }

  /** Behind nobody: the first request left is `t`'s. */
  lemma {:induction false} InFront(q: Queue, p: Queue, t: Txn, w: Txn)
    requires p == Retain(q, w, false) && HasRequest(p, t)
    requires forall u :: HasRequest(q, u) && u != t && u != w ==> AheadOf(p, t, u)
    ensures p != [] && p[0].txn == t
  {
    hide Retain;
    assert p[0] in p;
    var u := p[0].txn;
    var k :| 0 <= k < |q| && q[k] == p[0];
    assert HasRequest(q, u);
    if u != t && u != w { AheadNotFirst(p, t, u); }
  }

  lemma {:induction false} AheadNotFirst(p: Queue, t: Txn, u: Txn)
    requires AheadOf(p, t, u)
    ensures p != [] && p[0].txn != u
  {
  }

  lemma {:induction false} FrontServed(p: Queue, r: Queue, t: Txn)
    requires p != [] && p[0].txn == t && forall i :: 0 <= i < |p| ==> !p[i].granted
    requires WaitsExclusive(p, t) && GrantedInTurn(p, r)
    ensures r != [] && r[0] == Request(t, Exclusive, true)
  {
  }

  lemma {:induction false} FrontHolds(s: State, rid: Rid, t: Txn)
    requires QueueOf(s.table, rid) != [] && QueueOf(s.table, rid)[0] == Request(t, Exclusive, true)
    ensures HoldsLock(s, t, rid, Exclusive)
  {
  }

  // --- Where it fails ---

  /** A reader may be served before an exclusive waiter that asked earlier, and then upgrade past it: transaction 3
      asks for the row only after transaction 2 has been waiting for it, and gets exclusive access first. */
  lemma {:induction false} ReaderOvertakes(r: Rid)
    ensures var h := [Lock(1, r, Shared), Lock(2, r, Exclusive), Lock(3, r, Shared), Unlock(1), Lock(3, r, Exclusive)];
      && (forall k :: 2 <= k <= 5 ==> Waiting(h, k, r, 2)) && !HasRequest(QueueOf(Run(h[..2]).table, r), 3)
      && HoldsLock(Run(h), 3, r, Exclusive)
  {
    hide Run, HoldsLock, WaitsExclusive, HasRequest, Acquire, Release;
    var one, two, three := Request(1, Shared, true), Request(2, Exclusive, false), Request(3, Shared, true);
    var h1 := [Lock(1, r, Shared)];
    var h2 := h1 + [Lock(2, r, Exclusive)];
    var h3 := h2 + [Lock(3, r, Shared)];
    var h4 := h3 + [Unlock(1)];
    var h := h4 + [Lock(3, r, Exclusive)];
    RunNothing();
    RunMore([], h1[0]);
    assert [] + h1 == h1;
    RunMore(h1, Lock(2, r, Exclusive));
    RunMore(h2, Lock(3, r, Shared));
    RunMore(h3, Unlock(1));
    RunMore(h4, Lock(3, r, Exclusive));
    GrantedAtOnce(EMPTY, 1, r, Shared, []);
    assert [] + [one] == [one];
    WriterWaits(Run(h1), r);
    ReaderPasses(Run(h2), r);
    FirstReaderLeaves(Run(h3), r);
    ReaderUpgrades(Run(h4), r);
    assert h[..2] == h2 && h[..3] == h3 && h[..4] == h4 && h[..5] == h;
    TwoRequests(one, two);
    forall k | 2 <= k <= 5 ensures Waiting(h, k, r, 2) {
      WaitsAmong([one], two, []);
      WaitsAmong([one], two, [three]);
      WaitsAmong([], two, [three]);
      WaitsAmong([], two, [three.(mode := Exclusive)]);
    }
    HeldSecond(Run(h), r);
    assert h == [Lock(1, r, Shared), Lock(2, r, Exclusive), Lock(3, r, Shared), Unlock(1), Lock(3, r, Exclusive)];
  }

  lemma {:induction false} WriterWaits(s: State, r: Rid)
    requires QueueOf(s.table, r) == [Request(1, Shared, true)] && s.waits == map[]
    ensures QueueOf(Acquire(s, 2, r, Exclusive).0.table,
                    r) == [Request(1, Shared, true)] + [Request(2, Exclusive, false)] + []
  {
    hide PathsMeet;
    var q := QueueOf(s.table, r);
    assert q[0].granted;
    var q' := q + [Request(2, Exclusive, false)];
    assert Blockers(q', 2) == {1} by { assert q'[0].granted && q'[0].txn == 1; }
    OneWaitIsFine(s.waits[2 := {1}], 2, 1);
  }

  lemma {:induction false} ReaderPasses(s: State, r: Rid)
    requires QueueOf(s.table, r) == [Request(1, Shared, true)] + [Request(2, Exclusive, false)] + []
    ensures QueueOf(Acquire(s, 3, r, Shared).0.table, r) ==
            [Request(1, Shared, true)] + [Request(2, Exclusive, false)] + [Request(3, Shared, true)]
  {
    hide PathsMeet;
  }

  lemma {:induction false} FirstReaderLeaves(s: State, r: Rid)
    requires QueueOf(s.table, r) ==
             [Request(1, Shared, true)] + [Request(2, Exclusive, false)] + [Request(3, Shared, true)]
    ensures QueueOf(Release(s, 1).table, r) == [] + [Request(2, Exclusive, false)] + [Request(3, Shared, true)]
  {
    var two, three := Request(2, Exclusive, false), Request(3, Shared, true);
    var q := QueueOf(s.table, r);
    assert q[1..] == [two, three] && q[1..][1..] == [three] && q[1..][1..][1..] == [];
    assert Retain(q, 1, false) == [two, three] by {
      assert Retain([three], 1, false) == [three];
      assert Retain([two, three], 1, false) == [two, three];
    }
    assert [two, three][1].granted;
    BatchInTurn([two, three]);
    var g := GrantWaiting([two, three]);
    assert Blocks([two, three], g, 0, 1);
    assert g == [two, three];
  }

  lemma {:induction false} ReaderUpgrades(s: State, r: Rid)
    requires QueueOf(s.table, r) == [] + [Request(2, Exclusive, false)] + [Request(3, Shared, true)]
    ensures QueueOf(Acquire(s, 3, r, Exclusive).0.table, r) ==
            [] + [Request(2, Exclusive, false)] + [Request(3, Exclusive, true)]
  {
    hide PathsMeet;
    var q := QueueOf(s.table, r);
    assert q[1].granted && q[1].txn == 3;
    assert Upgrade(q, 3) == [] + [Request(2, Exclusive, false)] + [Request(3, Exclusive, true)];
  }

  lemma {:induction false} TwoRequests(a: Request, b: Request)
    requires a.txn != 3 && b.txn != 3
    ensures !HasRequest([a] + [b] + [], 3)
  {
  }

  lemma {:induction false} WaitsAmong(before: Queue, x: Request, after: Queue)
    requires x == Request(2, Exclusive, false) && forall y :: y in before + after ==> y.txn != 2
    ensures WaitsExclusive(before + [x] + after, 2)
  {
    var q := before + [x] + after;
    assert q[|before|] == x;
    assert forall i :: 0 <= i < |q| && i != |before| ==> q[i] in before || q[i] in after;
  }

  lemma {:induction false} HeldSecond(s: State, r: Rid)
    requires QueueOf(s.table, r) == [] + [Request(2, Exclusive, false)] + [Request(3, Exclusive, true)]
    ensures HoldsLock(s, 3, r, Exclusive)
  {
    assert s.table[r][1].granted;
  }
}
