/** The lock manager of src/concurrency/lock_manager.rs, updated in place and proved against `LockSpec`. */
module LockManager {
  import opened Common
  import opened LockSpec
  import opened LockOrder
  import opened LockSteps

  // --- Depth-first search bookkeeping ---

  ghost function Last(p: seq<Txn>): Txn
    requires p != []
  {
    p[|p| - 1]
  }

  /** `p` is the path over which its last node was visited. */
  ghost predicate Done(found: map<Txn, seq<Txn>>, p: seq<Txn>) {
    p != [] && Last(p) in found && found[Last(p)] == p
  }

  /** State of the search: `found` maps visited nodes to their path, `open` are the stacked paths. */
  ghost predicate Searching(g: Waits, start: Txn, found: map<Txn, seq<Txn>>, open: seq<seq<Txn>>) {
    && PathsOk(g, start, found, open)
    && OpenFresh(found, open)
    && SuccCovered(g, found, open)
    && Covered(found, open, [start])
    && PrefixDone(found, open)
  }

  ghost predicate PathsOk(g: Waits, start: Txn, found: map<Txn, seq<Txn>>, open: seq<seq<Txn>>) {
    && (forall t :: t in found ==> PathTo(g, start, found[t]) && Last(found[t]) == t)
    && (forall i :: 0 <= i < |open| ==> PathTo(g, start, open[i]))
  }

  ghost predicate OpenFresh(found: map<Txn, seq<Txn>>, open: seq<seq<Txn>>) {
    && (forall i :: 0 <= i < |open| ==> !Done(found, open[i]))
    && (forall i, j :: 0 <= i < j < |open| ==> open[i] != open[j])
  }

  ghost predicate SuccCovered(g: Waits, found: map<Txn, seq<Txn>>, open: seq<seq<Txn>>) {
    forall t, w :: t in found && w in Succ(g, t) ==> Covered(found, open, found[t] + [w])
  }

  ghost predicate PrefixDone(found: map<Txn, seq<Txn>>, open: seq<seq<Txn>>) {
    forall p :: Covered(found, open, p) ==> |p| == 1 || Done(found, p[..|p| - 1])
  }

  ghost predicate Covered(found: map<Txn, seq<Txn>>, open: seq<seq<Txn>>, p: seq<Txn>) {
    p != [] && (Done(found, p) || p in open)
  }

  ghost function Extend(p: seq<Txn>, order: seq<Txn>): seq<seq<Txn>> {
    seq(|order|, i requires 0 <= i < |order| => p + [order[i]])
  }

  lemma {:induction false} SearchStart(g: Waits, start: Txn)
    ensures Searching(g, start, map[], [[start]]) && Mirrors([[start]], [start])
  {
  }

  /** A node popped twice was reached over two different paths. */
  lemma {:induction false} PoppedTwice(g: Waits, start: Txn, found: map<Txn, seq<Txn>>, open: seq<seq<Txn>>)
    requires Searching(g, start, found, open) && open != [] && Last(open[|open| - 1]) in found
    ensures PathsMeet(g, start)
  {
    var p := open[|open| - 1];
    var q := found[Last(p)];
    assert PathTo(g, start, p) && PathTo(g, start, q) && p != q;
  }

  lemma {:induction false} PoppedPath(g: Waits, start: Txn, found: map<Txn, seq<Txn>>, open: seq<seq<Txn>>)
    requires Searching(g, start, found, open) && open != []
    ensures var p := open[|open| - 1]; p != [] && PathTo(g, start, p) && !Done(found, p)
  {
  }

  lemma {:induction false} StepPaths(g: Waits, start: Txn, found: map<Txn, seq<Txn>>, open: seq<seq<Txn>>, p: seq<Txn>,
                                     order: seq<Txn>)
    requires PathsOk(g, start, found, open) && open != [] && p == open[|open| - 1] && p != []
    requires var more := Extend(p, order); forall i :: 0 <= i < |more| ==> PathTo(g, start, more[i])
    ensures PathsOk(g, start, found[Last(p) := p], open[..|open| - 1] + Extend(p, order))
  {
    hide Path;
  }

  /** Covering only grows, apart from the popped path, which becomes visited. */
  lemma {:induction false} StepCovers(found: map<Txn, seq<Txn>>, open: seq<seq<Txn>>, p: seq<Txn>, more: seq<seq<Txn>>,
                                      x: seq<Txn>)
    requires open != [] && p == open[|open| - 1] && p != [] && Last(p) !in found
    ensures Covered(found[Last(p) := p], open[..|open| - 1] + more, x) <==>
            Covered(found, open, x) || (x != [] && x in more)
    ensures Done(found[Last(p) := p], x) <==> Done(found, x) || x == p
  {
    assert open == open[..|open| - 1] + [p];
  }

  lemma {:induction false} StepSucc(g: Waits, found: map<Txn, seq<Txn>>, open: seq<seq<Txn>>, p: seq<Txn>,
                                    order: seq<Txn>)
    requires SuccCovered(g, found, open) && open != [] && p == open[|open| - 1] && p != [] && Last(p) !in found
    requires forall w :: w in order <==> w in Succ(g, Last(p))
    ensures SuccCovered(g, found[Last(p) := p], open[..|open| - 1] + Extend(p, order))
  {
    hide Succ, Covered;
    var found' := found[Last(p) := p];
    forall t, w | t in found' && w in Succ(g, t)
      ensures Covered(found', open[..|open| - 1] + Extend(p, order), found'[t] + [w])
    {
      StepCovers(found, open, p, Extend(p, order), found'[t] + [w]);
      if t == Last(p) {
        assert w in order;
        var i :| 0 <= i < |order| && order[i] == w;
        assert Extend(p, order)[i] == p + [w];
      }
    }
  }

  lemma {:induction false} StepPrefix(found: map<Txn, seq<Txn>>, open: seq<seq<Txn>>, p: seq<Txn>, order: seq<Txn>)
    requires PrefixDone(found, open) && open != [] && p == open[|open| - 1] && p != [] && Last(p) !in found
    ensures PrefixDone(found[Last(p) := p], open[..|open| - 1] + Extend(p, order))
  {
    hide Done;
    var found', open' := found[Last(p) := p], open[..|open| - 1] + Extend(p, order);
    forall x | Covered(found', open', x) ensures |x| == 1 || Done(found', x[..|x| - 1]) {
      StepCovers(found, open, p, Extend(p, order), x);
      if |x| > 0 { StepCovers(found, open, p, Extend(p, order), x[..|x| - 1]); }
      if x in Extend(p, order) {
        var i :| 0 <= i < |order| && Extend(p, order)[i] == x;
        assert x[..|x| - 1] == p;
      }
    }
  }

  /** Visiting the popped node and stacking its successors. */
  lemma {:induction false} SearchStep(g: Waits, start: Txn, found: map<Txn, seq<Txn>>, open: seq<seq<Txn>>,
                                      order: seq<Txn>)
    requires Searching(g, start, found, open) && open != [] && Last(open[|open| - 1]) !in found
    requires (forall i, j :: 0 <= i < j < |order| ==> order[i] != order[j])
    requires forall w :: w in order <==> w in Succ(g, Last(open[|open| - 1]))
    ensures var p := open[|open| - 1];
            Searching(g, start, found[Last(p) := p], open[..|open| - 1] + Extend(p, order))
  {
    hide PathTo, Covered, Done, Extend, PathsOk, OpenFresh, SuccCovered, PrefixDone;
    var p := open[|open| - 1];
    PoppedPath(g, start, found, open);
    NewPaths(g, start, p, order);
    StepPaths(g, start, found, open, p, order);
    StepFresh(found, open, p, order);
    StepSucc(g, found, open, p, order);
    StepPrefix(found, open, p, order);
    StepCovers(found, open, p, Extend(p, order), [start]);
  }

  lemma {:induction false} NewPaths(g: Waits, start: Txn, p: seq<Txn>, order: seq<Txn>)
    requires PathTo(g, start, p) && forall w :: w in order ==> w in Succ(g, Last(p))
    ensures var more := Extend(p, order); forall i :: 0 <= i < |more| ==> PathTo(g, start, more[i])
  {
    forall i | 0 <= i < |order| ensures PathTo(g, start, Extend(p, order)[i]) {
      var q := p + [order[i]];
      assert order[i] in order;
      forall k | 0 <= k < |q| - 1 ensures q[k + 1] in Succ(g, q[k]) {
        if k < |p| - 1 { assert p[k + 1] in Succ(g, p[k]); }
      }
    }
  }

  lemma {:induction false} ExtendDistinct(p: seq<Txn>, order: seq<Txn>)
    requires forall i, j :: 0 <= i < j < |order| ==> order[i] != order[j]
    ensures forall i, j :: 0 <= i < j < |order| ==> Extend(p, order)[i] != Extend(p, order)[j]
  {
    forall i, j | 0 <= i < j < |order| ensures Extend(p, order)[i] != Extend(p, order)[j] {
      assert Extend(p, order)[i][|p|] == order[i] && Extend(p, order)[j][|p|] == order[j];
    }
  }

  /** The stacked extensions are new: their prefix was not visited before. */
  lemma {:induction false} StepFresh(found: map<Txn, seq<Txn>>, open: seq<seq<Txn>>, p: seq<Txn>, order: seq<Txn>)
    requires OpenFresh(found, open) && PrefixDone(found, open)
    requires open != [] && p == open[|open| - 1] && p != [] && Last(p) !in found
    requires (forall i, j :: 0 <= i < j < |order| ==> order[i] != order[j])
    ensures OpenFresh(found[Last(p) := p], open[..|open| - 1] + Extend(p, order))
  {
    hide Extend, PrefixDone, Covered, Done;
    var more, rest := Extend(p, order), open[..|open| - 1];
    var open', found' := rest + more, found[Last(p) := p];
    ExtendDistinct(p, order);
    ExtensionsUncovered(found, open, p, order);
    assert forall i :: 0 <= i < |rest| ==> open'[i] == open[i] && open[i] in open;
    assert forall i :: |rest| <= i < |open'| ==> open'[i] == more[i - |rest|];
    forall i | 0 <= i < |open'| ensures !Done(found', open'[i]) {
      StepCovers(found, open, p, more, open'[i]);
    }
  }

  lemma {:induction false} ExtensionsUncovered(found: map<Txn, seq<Txn>>, open: seq<seq<Txn>>, p: seq<Txn>,
                                               order: seq<Txn>)
    requires PrefixDone(found, open) && open != [] && p == open[|open| - 1] && p != [] && !Done(found, p)
    ensures |Extend(p, order)| == |order|
    ensures forall i :: 0 <= i < |order| ==>
      Extend(p, order)[i] !in open && !Done(found, Extend(p, order)[i]) && Extend(p, order)[i] != p
  {
    forall i | 0 <= i < |order|
      ensures Extend(p, order)[i] !in open && !Done(found, Extend(p, order)[i]) && Extend(p, order)[i] != p
    {
      var x := Extend(p, order)[i];
      assert x[..|x| - 1] == p;
      assert !Covered(found, open, x);
    }
  }

  /** With nothing left to visit, every path from `start` was walked, each to its own node. */
  lemma {:induction false} SearchEnds(g: Waits, start: Txn, found: map<Txn, seq<Txn>>)
    requires Searching(g, start, found, [])
    ensures !PathsMeet(g, start)
  {
    forall p | PathTo(g, start, p) ensures Done(found, p) {
      AllWalked(g, start, found, p);
    }
  }

  lemma {:induction false} AllWalked(g: Waits, start: Txn, found: map<Txn, seq<Txn>>, p: seq<Txn>)
    requires Searching(g, start, found, []) && PathTo(g, start, p)
    ensures Done(found, p)
    decreases |p|
  {
    if |p| == 1 {
      assert p == [start];
    } else {
      var q := p[..|p| - 1];
      assert PathTo(g, start, q) by {
        forall i | 0 <= i < |q| - 1 ensures q[i + 1] in Succ(g, q[i]) { assert p[i + 1] in Succ(g, p[i]); }
      }
      AllWalked(g, start, found, q);
      assert p[|p| - 2 + 1] in Succ(g, p[|p| - 2]);
      assert p == q + [Last(p)];
      assert Covered(found, [], found[Last(q)] + [Last(p)]);
    }
  }

  /** Transactions the search can ever see. */
  ghost function Universe(g: Waits, start: Txn): set<Txn> {
    {start} + (set t, w | t in g && w in g[t] :: w)
  }

  lemma {:induction false} LastKnown(g: Waits, start: Txn, p: seq<Txn>)
    requires PathTo(g, start, p)
    ensures Last(p) in Universe(g, start)
  {
    if |p| > 1 { assert p[|p| - 2 + 1] in Succ(g, p[|p| - 2]); }
  }

  // --- Counting granted locks ---

  function Count(q: Queue, mode: Mode): nat {
    if q == [] then 0
    else Count(q[..|q| - 1], mode) + if q[|q| - 1].granted && q[|q| - 1].mode == mode then 1 else 0
  }

  lemma {:induction false} CountPositive(q: Queue, mode: Mode)
    ensures Count(q, mode) > 0 <==> exists i :: 0 <= i < |q| && q[i].granted && q[i].mode == mode
  {
    if q != [] {
      var init := q[..|q| - 1];
      CountPositive(init, mode);
      assert forall i :: 0 <= i < |init| ==> init[i] == q[i];
      if i :| 0 <= i < |q| && q[i].granted && q[i].mode == mode {
        assert i == |q| - 1 || init[i] == q[i];
      }
    }
  }

  lemma {:induction false} CountsMean(q: Queue)
    ensures Count(q, Exclusive) > 0 <==> AnyExclusive(q)
    ensures Count(q, Shared) > 0 || Count(q, Exclusive) > 0 <==> AnyGranted(q)
  {
    CountPositive(q, Shared);
    CountPositive(q, Exclusive);
    if i :| 0 <= i < |q| && q[i].granted { assert q[i].mode == Shared || q[i].mode == Exclusive; }
  }

  /** Granting the request at `i` adds one to its mode's count. */
  lemma {:induction false} CountGrant(q: Queue, i: nat, mode: Mode)
    requires i < |q| && !q[i].granted
    ensures Count(q[i := q[i].(granted := true)], mode) == Count(q, mode) + if q[i].mode == mode then 1 else 0
  {
    var r := q[i := q[i].(granted := true)];
    if i == |q| - 1 {
      assert r[..|r| - 1] == q[..|q| - 1];
    } else {
      assert r[..|r| - 1] == q[..|q| - 1][i := q[i].(granted := true)];
      CountGrant(q[..|q| - 1], i, mode);
    }
  }

  /** How many granted locks of each kind a queue holds. */
  method GrantedCounts(q: Queue) returns (shared: nat, exclusive: nat)
    ensures shared == Count(q, Shared) && exclusive == Count(q, Exclusive)
  {
    shared, exclusive := 0, 0;
    for i := 0 to |q|
      invariant shared == Count(q[..i], Shared) && exclusive == Count(q[..i], Exclusive)
    {
      assert q[..i + 1][..i] == q[..i];
      if q[i].granted {
        match q[i].mode
        case Shared => shared := shared + 1;
        case Exclusive => exclusive := exclusive + 1;
      }
    }
    assert q[..|q|] == q;
  }

  class LockManager {
    var lockTable: map<Rid, Queue>
    var waitsFor: Waits

    ghost function Abs(): State
      reads this
    {
      State(lockTable, waitsFor)
    }

    ghost predicate Valid()
      reads this
    {
      LockInv(Abs())
    }

    constructor ()
      ensures Valid() && Abs() == EMPTY
    {
      lockTable, waitsFor := map[], map[];
      EmptyInv();
    }

    /** Stacks the members of a set, in any order. */
    static method PushAll(stack0: seq<Txn>, members: set<Txn>) returns (stack: seq<Txn>, ghost order: seq<Txn>)
      ensures stack == stack0 + order
      ensures forall i, j :: 0 <= i < j < |order| ==> order[i] != order[j]
      ensures forall w :: w in order <==> w in members
    {
      stack, order := stack0, [];
      var left := members;
      while left != {}
        invariant stack == stack0 + order && left <= members
        invariant forall i, j :: 0 <= i < j < |order| ==> order[i] != order[j]
        invariant forall w :: w in order <==> w in members && w !in left
        decreases |left|
      {
        var w :| w in left;
        assert w !in order;
        left := left - {w};
        stack := stack + [w];
        order := order + [w];
      }
    }

    /** Deadlock test: answers yes exactly when two different wait paths from `start` meet,
        so it never misses a cycle, whatever order successors are taken in. */
    method HasCycle(start: Txn) returns (found: bool)
      ensures found <==> PathsMeet(waitsFor, start)
    {
      hide Searching, PathsMeet, Universe, Extend, Succ, Mirrors;
      var visited: set<Txn>, stack := {}, [start];
      ghost var paths: map<Txn, seq<Txn>>, open := map[], [[start]];
      ghost var universe := Universe(waitsFor, start);
      SearchStart(waitsFor, start);
      while stack != []
        invariant Searching(waitsFor, start, paths, open) && Mirrors(open, stack)
        invariant paths.Keys == visited <= universe
        decreases |universe - visited|
      {
        MirrorsLast(open, stack);
        ghost var stack0 := stack;
        var node := stack[|stack| - 1];
        stack := stack[..|stack| - 1];
        if node in visited {
          PoppedTwice(waitsFor, start, paths, open);
          return true;
        }
        OpenKnown(waitsFor, start, paths, open);
        Shrinks(universe, visited, node);
        visited := visited + {node};
        SuccIs(waitsFor, node);
        var successors := if node in waitsFor then waitsFor[node] else {};
        ghost var order;
        stack, order := PushAll(stack, successors);
        SearchStep(waitsFor, start, paths, open, order);
        ghost var p := open[|open| - 1];
        MirrorsStep(open, stack0, p, order);
        paths, open := paths[node := p], open[..|open| - 1] + Extend(p, order);
      }
      MirrorsEmpty(open);
      SearchEnds(waitsFor, start, paths);
      found := false;
    }

    /** Grants, queues, or reports a deadlock. */
    method AcquireLock(t: Txn, rid: Rid, mode: Mode) returns (answer: Answer)
      requires Valid()
      modifies this
      ensures Valid()
      ensures (Abs(), answer) == Acquire(old(Abs()), t, rid, mode)
    {
      hide Acquire, LockInv, PathsMeet;
      ghost var s0 := Abs();
      AcquireInv(s0, t, rid, mode);
      AcquireCases(s0, t, rid, mode);
      var queue := QueueOf(lockTable, rid);
      lockTable := lockTable[rid := queue];
      if Holds(queue, t) {
        if mode == Exclusive {
          if HoldsExclusive(queue, t) {
            return Granted;
          }
          if CanGrant(queue, t, Exclusive) {
            lockTable := lockTable[rid := Upgrade(queue, t)];
            assert lockTable == s0.table[rid := Upgrade(queue, t)];
            return Granted;
          }
        } else {
          return Granted;
        }
      }
      var canGrant := CanGrant(queue, t, mode);
      queue := queue + [Request(t, mode, canGrant)];
      lockTable := lockTable[rid := queue];
      assert lockTable == s0.table[rid := queue];
      if !canGrant {
        waitsFor := waitsFor[t := Blockers(queue, t)];
        var cycle := HasCycle(t);
        if cycle {
          lockTable := lockTable[rid := Retain(lockTable[rid], t, true)];
          assert lockTable == s0.table[rid := Retain(queue, t, true)];
          waitsFor := waitsFor - {t};
          return Deadlock;
        }
        return Queued;
      }
      return Granted;
    }

    /** After a release: grants waiting requests front to back while they are compatible. */
    method TryGrantWaiting(rid: Rid)
      modifies this`lockTable
      ensures rid !in old(lockTable) ==> lockTable == old(lockTable)
      ensures rid in old(lockTable) ==> lockTable == old(lockTable)[rid := GrantWaiting(old(lockTable)[rid])]
      ensures rid in old(lockTable) ==> GrantedInTurn(old(lockTable)[rid], lockTable[rid])
    {
      hide AnyGranted, AnyExclusive, Count, GrantedInTurn;
      if rid !in lockTable {
        return;
      }
      var queue := lockTable[rid];
      ghost var goal := GrantWaiting(queue);
      var shared, exclusive := GrantedCounts(queue);
      for i := 0 to |queue|
        invariant lockTable == old(lockTable)
        invariant |queue| == |old(lockTable)[rid]| && GrantFrom(queue, i) == goal
        invariant shared == Count(queue, Shared) && exclusive == Count(queue, Exclusive)
      {
        CountsMean(queue);
        if !queue[i].granted {
          var can := match queue[i].mode
            case Shared => exclusive == 0
            case Exclusive => shared == 0 && exclusive == 0;
          if can {
            CountGrant(queue, i, Shared);
            CountGrant(queue, i, Exclusive);
            match queue[i].mode {
              case Shared => shared := shared + 1;
              case Exclusive => exclusive := exclusive + 1;
            }
            queue := queue[i := queue[i].(granted := true)];
          }
        }
      }
      assert queue == goal;
      BatchInTurn(old(lockTable)[rid]);
      lockTable := lockTable[rid := queue];
    }

    /** Drops every lock and request of `t`, then wakes waiters; rows are visited in any order. */
    method ReleaseAll(t: Txn)
      requires Valid()
      modifies this
      ensures Valid()
      ensures Abs() == Release(old(Abs()), t)
    {
      hide LockInv, GrantWaiting, Retain, Release;
      ReleaseInv(Abs(), t);
      var rids := lockTable.Keys;
      while rids != {}
        invariant rids <= lockTable.Keys == old(lockTable).Keys && waitsFor == old(waitsFor)
        invariant forall r :: r in lockTable ==>
          lockTable[r] == if r in rids then old(lockTable)[r] else GrantWaiting(Retain(old(lockTable)[r], t, false))
        decreases |rids|
      {
        var rid :| rid in rids;
        rids := rids - {rid};
        lockTable := lockTable[rid := Retain(lockTable[rid], t, false)];
        TryGrantWaiting(rid);
      }
      waitsFor := waitsFor - {t};
      waitsFor := map u | u in waitsFor :: waitsFor[u] - {t};
      ReleaseIs(old(Abs()), t, lockTable, waitsFor);
    }
  }

  // --- Facts used by the methods above ---

  lemma {:induction false} EmptyInv()
    ensures LockInv(EMPTY)
  {
    forall p ensures Path(EMPTY.waits, p) ==> |p| <= 1 {
      assert |p| > 1 ==> p[0 + 1] !in Succ(EMPTY.waits, p[0]);
    }
  }

  lemma {:induction false} SuccIs(g: Waits, t: Txn)
    ensures Succ(g, t) == if t in g then g[t] else {}
  {
  }

  lemma {:induction false} Shrinks(universe: set<Txn>, a: set<Txn>, x: Txn)
    requires x in universe && x !in a
    ensures |universe - (a + {x})| < |universe - a|
  {
    assert universe - a == (universe - (a + {x})) + {x};
  }

  lemma {:induction false} OpenKnown(g: Waits, start: Txn, found: map<Txn, seq<Txn>>, open: seq<seq<Txn>>)
    requires Searching(g, start, found, open) && open != []
    ensures open[|open| - 1] != [] && Last(open[|open| - 1]) in Universe(g, start)
  {
    LastKnown(g, start, open[|open| - 1]);
  }

  lemma {:induction false} MirrorsLast(open: seq<seq<Txn>>, stack: seq<Txn>)
    requires Mirrors(open, stack) && stack != []
    ensures open != [] && open[|open| - 1] != [] && Last(open[|open| - 1]) == stack[|stack| - 1]
  {
  }

  lemma {:induction false} MirrorsEmpty(open: seq<seq<Txn>>)
    requires Mirrors(open, [])
    ensures open == []
  {
  }

  /** The stack holds the last node of every stacked path. */
  ghost predicate Mirrors(open: seq<seq<Txn>>, stack: seq<Txn>) {
    |open| == |stack| && forall i :: 0 <= i < |stack| ==> open[i] != [] && Last(open[i]) == stack[i]
  }

  lemma {:induction false} MirrorsStep(open: seq<seq<Txn>>, stack: seq<Txn>, p: seq<Txn>, order: seq<Txn>)
    requires Mirrors(open, stack) && stack != []
    ensures Mirrors(open[..|open| - 1] + Extend(p, order), stack[..|stack| - 1] + order)
  {
  }

  lemma {:induction false} ReleaseIs(s: State, t: Txn, table: map<Rid, Queue>, waits: Waits)
    requires table.Keys == s.table.Keys
    requires forall r :: r in table ==> table[r] == GrantWaiting(Retain(s.table[r], t, false))
    requires waits == map u | u in s.waits - {t} :: (s.waits - {t})[u] - {t}
    ensures State(table, waits) == Release(s, t)
  {
    hide GrantWaiting, Retain;
    assert table == Release(s, t).table;
    assert waits == Release(s, t).waits;
  }

  /** `Acquire`, case by case. */
  lemma {:induction false} AcquireCases(s: State, t: Txn, rid: Rid, mode: Mode)
    ensures var q := QueueOf(s.table, rid);
      if Holds(q, t) && (mode == Shared || HoldsExclusive(q, t)) then
        Acquire(s, t, rid, mode) == (s.(table := s.table[rid := q]), Granted)
      else if Holds(q, t) && CanGrant(q, t, Exclusive) then
        Acquire(s, t, rid, mode) == (s.(table := s.table[rid := Upgrade(q, t)]), Granted)
      else
        var q' := q + [Request(t, mode, CanGrant(q, t, mode))];
        var waits' := s.waits[t := Blockers(q', t)];
        Acquire(s, t, rid, mode) ==
          if CanGrant(q, t, mode) then (s.(table := s.table[rid := q']), Granted)
          else if PathsMeet(waits', t) then (State(s.table[rid := Retain(q', t, true)], waits' - {t}), Deadlock)
          else (State(s.table[rid := q'], waits'), Queued)
  {
  }
}
