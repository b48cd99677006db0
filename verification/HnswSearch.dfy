/** Layered links, scored candidates and the beam search over one layer
    (src/index/hnsw/mod.rs). Distances are reals given by an arbitrary metric. */
module HnswSearch {
  import opened Common

  type Id = nat

  datatype HnswNode<V> = HnswNode(vector: V, layers: seq<seq<Id>>)

  /** The node list, by id: the code only ever looks nodes up by id. */
  type Graph<V> = map<Id, HnswNode<V>>

  datatype Scored = Scored(id: Id, dist: real)

  // --- Links ---

  ghost predicate Owns<V>(ns: Graph<V>, l: nat, u: Id) {
    u in ns && l < |ns[u].layers|
  }

  ghost predicate Edge<V>(ns: Graph<V>, l: nat, u: Id, v: Id) {
    Owns(ns, l, u) && v in ns[u].layers[l]
  }

  ghost predicate Path<V>(ns: Graph<V>, l: nat, p: seq<Id>) {
    |p| > 0 && forall i :: 0 <= i < |p| - 1 ==> Edge(ns, l, p[i], p[i + 1])
  }

  ghost predicate PathFrom<V>(ns: Graph<V>, l: nat, entries: seq<Id>, p: seq<Id>, v: Id) {
    Path(ns, l, p) && p[0] in entries && p[0] in ns && p[|p| - 1] == v
  }

  /** `v` can be reached from a stored entry point over links of layer `l`. */
  ghost predicate Reach<V>(ns: Graph<V>, l: nat, entries: seq<Id>, v: Id) {
    exists p :: PathFrom(ns, l, entries, p, v)
  }

  ghost function ReachSet<V>(ns: Graph<V>, l: nat, entries: seq<Id>): set<Id> {
    set v | v in ns && Reach(ns, l, entries, v)
  }

  lemma {:induction false} ReachEntry<V>(ns: Graph<V>, l: nat, entries: seq<Id>, e: Id)
    requires e in entries && e in ns
    ensures Reach(ns, l, entries, e)
  {
    assert PathFrom(ns, l, entries, [e], e);
  }

  lemma {:induction false} ReachStep<V>(ns: Graph<V>, l: nat, entries: seq<Id>, u: Id, v: Id)
    requires Reach(ns, l, entries, u) && Edge(ns, l, u, v)
    ensures Reach(ns, l, entries, v)
  {
    var p :| PathFrom(ns, l, entries, p, u);
    assert PathFrom(ns, l, entries, p + [v], v);
  }

  // --- Scored lists ---

  ghost predicate Sorted(s: seq<Scored>) {
    forall i, j :: 0 <= i < j < |s| ==> s[i].dist <= s[j].dist
  }

  ghost predicate DistinctIds(s: seq<Scored>) {
    forall i, j :: 0 <= i < j < |s| ==> s[i].id != s[j].id
  }

  /** Where a stable sort puts `x` in a sorted list: after everything not farther. */
  function DistPosition(s: seq<Scored>, x: Scored): (p: nat)
    ensures p <= |s| && (p > 0 ==> s[p - 1].dist <= x.dist)
    ensures forall j :: p <= j < |s| ==> x.dist < s[j].dist
  {
    if s == [] || s[|s| - 1].dist <= x.dist then |s| else DistPosition(s[..|s| - 1], x)
  }

  function InsertByDist(s: seq<Scored>, x: Scored): (r: seq<Scored>)
    ensures |r| == |s| + 1 && forall y :: y in r <==> y in s || y == x
    ensures multiset(r) == multiset(s) + multiset{x}
  {
    var p := DistPosition(s, x);
    assert s == s[..p] + s[p..];
    s[..p] + [x] + s[p..]
  }

  ghost predicate InsertedAt(s: seq<Scored>, p: nat, x: Scored, r: seq<Scored>) {
    && |r| == |s| + 1 && p <= |s| && r[p] == x
    && (forall i :: 0 <= i < p ==> r[i] == s[i])
    && (forall i :: p < i < |r| ==> r[i] == s[i - 1])
  }

  lemma {:induction false} SortedInserted(s: seq<Scored>, p: nat, x: Scored, r: seq<Scored>)
    requires InsertedAt(s, p, x, r) && Sorted(s)
    requires (p > 0 ==> s[p - 1].dist <= x.dist) && forall j :: p <= j < |s| ==> x.dist < s[j].dist
    ensures Sorted(r)
  {
  }

  lemma {:induction false} DistinctInserted(s: seq<Scored>, p: nat, x: Scored, r: seq<Scored>)
    requires InsertedAt(s, p, x, r) && DistinctIds(s) && forall y :: y in s ==> y.id != x.id
    ensures DistinctIds(r)
  {
    assert forall i :: 0 <= i < |s| ==> s[i] in s;
  }

  lemma {:induction false} InsertByDistKeeps(s: seq<Scored>, x: Scored)
    ensures Sorted(s) ==> Sorted(InsertByDist(s, x))
    ensures DistinctIds(s) && (forall y :: y in s ==> y.id != x.id) ==> DistinctIds(InsertByDist(s, x))
  {
    hide Sorted, DistinctIds, DistPosition;
    var p, r := DistPosition(s, x), InsertByDist(s, x);
    assert InsertedAt(s, p, x, r);
    if Sorted(s) { SortedInserted(s, p, x, r); }
    if DistinctIds(s) && forall y :: y in s ==> y.id != x.id { DistinctInserted(s, p, x, r); }
  }

  /** A stable sort by distance; any stable sort gives this list. */
  function SortByDist(s: seq<Scored>): (r: seq<Scored>)
    ensures |r| == |s| && Sorted(r) && forall y :: y in r <==> y in s
    ensures DistinctIds(s) ==> DistinctIds(r)
    ensures multiset(r) == multiset(s)
  {
    if s == [] then []
    else
      var init, last := s[..|s| - 1], s[|s| - 1];
      assert s == init + [last];
      assert forall y :: y in s <==> y in init || y == last;
      assert forall y :: y in init ==> exists i :: 0 <= i < |init| && s[i] == y;
      InsertByDistKeeps(SortByDist(init), last);
      InsertByDist(SortByDist(init), last)
  }

  function Truncate<T>(s: seq<T>, n: nat): seq<T> {
    if |s| > n then s[..n] else s
  }

  /** The `m` nearest candidates of a sorted list, as ids. */
  function SelectNeighbors(s: seq<Scored>, m: nat): (r: seq<Id>)
    ensures |r| == if |s| < m then |s| else m
    ensures forall i :: 0 <= i < |r| ==> r[i] == s[i].id
  {
    var t := Truncate(s, m);
    seq(|t|, i requires 0 <= i < |t| => t[i].id)
  }

  ghost function IdSet(s: seq<Scored>): set<Id> {
    set i | 0 <= i < |s| :: s[i].id
  }

  lemma {:induction false} IdSetSize(s: seq<Scored>)
    requires DistinctIds(s)
    ensures |IdSet(s)| == |s|
  {
    if s == [] {
      assert IdSet(s) == {};
    } else {
      var init, last := s[..|s| - 1], s[|s| - 1];
      IdSetSize(init);
      assert IdSet(s) == IdSet(init) + {last.id} by {
        assert forall i :: 0 <= i < |init| ==> init[i] == s[i];
        assert s[|s| - 1].id in IdSet(s);
      }
      assert last.id !in IdSet(init);
    }
  }

  // --- Beam search over one layer ---

  /** One call of `search_layer`. */
  datatype Beam<!V> = Beam(ns: Graph<V>, query: V, metric: (V, V) -> real, entries: seq<Id>, ef: nat, layer: nat) {
    function Dist(v: Id): real
      requires v in ns
    {
      metric(query, ns[v].vector)
    }

    function Score(v: Id): Scored
      requires v in ns
    {
      Scored(v, Dist(v))
    }

    function Links(v: Id): seq<Id> {
      if v in ns && layer < |ns[v].layers| then ns[v].layers[layer] else []
    }

    /** Every scored id is stored, visited, and carries its true distance. */
    ghost predicate Scores(visited: set<Id>, s: seq<Scored>) {
      forall x :: x in s ==> x.id in ns && x.id in visited && x == Score(x.id)
    }

    /** `results` are the `ef` nearest of the visited nodes. */
    ghost predicate Nearest(visited: set<Id>, results: seq<Scored>) {
      forall v :: v in visited && v in ns && Score(v) !in results ==>
        |results| == ef && forall x :: x in results ==> x.dist <= Dist(v)
    }

    ghost predicate Explored(visited: set<Id>, v: Id) {
      forall w :: w in Links(v) ==> w in visited
    }

    /** What a finished search guarantees. */
    ghost predicate Found(visited: set<Id>, results: seq<Scored>) {
      && Sorted(results) && DistinctIds(results) && |results| <= ef
      && Scores(visited, results)
      && Nearest(visited, results)
      && (forall x :: x in results ==> Explored(visited, x.id))
      && (forall e :: e in entries && e in ns ==> e in visited)
      && (forall v :: v in visited ==> Reach(ns, layer, entries, v))
    }

    /** The loop invariant; `current` is the node being expanded, if any. */
    ghost predicate Searching(visited: set<Id>, cands: seq<Scored>, results: seq<Scored>, current: Option<Id>) {
      && Sorted(results) && DistinctIds(results) && |results| <= ef
      && Sorted(cands)
      && Scores(visited, results) && Scores(visited, cands)
      && Nearest(visited, results)
      && (forall x :: x in results ==> x in cands || Explored(visited, x.id) || current == Some(x.id))
      && (forall e :: e in entries && e in ns ==> e in visited)
      && (forall v :: v in visited ==> Reach(ns, layer, entries, v))
    }
  }

  /** Everything a search could ever visit. */
  ghost function Universe<V>(ns: Graph<V>, entries: seq<Id>, layer: nat): set<Id> {
    (set e | e in entries) +
    (set u, i | u in ns && layer < |ns[u].layers| && 0 <= i < |ns[u].layers[layer]| :: ns[u].layers[layer][i])
  }

  lemma {:induction false} InUniverse<V>(ns: Graph<V>, entries: seq<Id>, layer: nat, u: Id, v: Id)
    requires Edge(ns, layer, u, v)
    ensures v in Universe(ns, entries, layer)
  {
    var i :| 0 <= i < |ns[u].layers[layer]| && ns[u].layers[layer][i] == v;
  }

  /** Best results stay best when one more node `v` is visited and offered. */
  lemma {:induction false} Offer<V>(b: Beam<V>, visited: set<Id>, results: seq<Scored>, v: Id, results': seq<Scored>)
    requires Sorted(results) && DistinctIds(results) && |results| <= b.ef
    requires v in b.ns && v !in visited
    requires b.Scores(visited, results) && b.Nearest(visited, results)
    requires |results| < b.ef || (|results| > 0 && b.Dist(v) < results[|results| - 1].dist) || results == []
    requires results' == Truncate(SortByDist(results + [b.Score(v)]), b.ef)
    ensures Sorted(results') && DistinctIds(results') && |results'| <= b.ef
    ensures b.Scores(visited + {v}, results') && b.Nearest(visited + {v}, results')
    ensures forall x :: x in results' ==> x in results || x == b.Score(v)
  {
    hide Reach, Beam.Nearest, Sorted, SortByDist;
    var pushed := results + [b.Score(v)];
    var all := SortByDist(pushed);
    assert DistinctIds(pushed) by {
      forall i | 0 <= i < |results| ensures results[i].id != v { assert results[i] in results; }
    }
    assert forall x :: x in pushed <==> x in results || x == b.Score(v);
    OfferNearest(b, visited, results, v, all, results');
  }

  lemma {:induction false} OfferNearest<V>(b: Beam<V>, visited: set<Id>, results: seq<Scored>, v: Id, all: seq<Scored>,
                                           results': seq<Scored>)
    requires Sorted(results) && |results| <= b.ef && v in b.ns && v !in visited
    requires b.Scores(visited, results) && b.Nearest(visited, results)
    requires |results| < b.ef || (|results| > 0 && b.Dist(v) < results[|results| - 1].dist) || results == []
    requires Sorted(all) && DistinctIds(all) && |all| == |results| + 1
    requires forall x :: x in all <==> x in results || x == b.Score(v)
    requires results' == Truncate(all, b.ef)
    ensures Sorted(results') && DistinctIds(results') && |results'| <= b.ef
    ensures b.Scores(visited + {v}, results') && b.Nearest(visited + {v}, results')
    ensures forall x :: x in results' ==> x in results || x == b.Score(v)
  {
    hide Reach, SortByDist;
    assert forall x :: x in results' ==> x in all;
    assert forall i :: 0 <= i < |results'| ==> results'[i] == all[i] && all[i] in results';
    forall u | u in visited + {v} && u in b.ns && b.Score(u) !in results'
      ensures |results'| == b.ef && forall x :: x in results' ==> x.dist <= b.Dist(u)
    {
      if b.Score(u) in all {
        var i :| 0 <= i < |all| && all[i] == b.Score(u);
        assert i >= |results'|;
        forall x | x in results' ensures x.dist <= b.Dist(u) {
          var j :| 0 <= j < |results'| && results'[j] == x;
          assert all[j] == x && all[j].dist <= all[i].dist;
        }
      } else {
        assert u in visited && b.Score(u) !in results;
        forall x | x in results' ensures x.dist <= b.Dist(u) {
          if x !in results && results != [] { assert results[|results| - 1] in results; }
        }
      }
    }
  }

  /** A visited node that is no better than a full result list may be dropped. */
  lemma {:induction false} Reject<V>(b: Beam<V>, visited: set<Id>, results: seq<Scored>, v: Id)
    requires Sorted(results) && |results| <= b.ef && v in b.ns
    requires b.Scores(visited, results) && b.Nearest(visited, results)
    requires |results| >= b.ef && |results| > 0 && b.Dist(v) >= results[|results| - 1].dist
    ensures b.Scores(visited + {v}, results) && b.Nearest(visited + {v}, results)
  {
    hide Reach;
    forall x | x in results ensures x.dist <= b.Dist(v) {
      var i :| 0 <= i < |results| && results[i] == x;
    }
  }

  /** When the nearest open candidate is farther than a full result list, every result was expanded. */
  lemma {:induction false} StopEarly<V>(b: Beam<V>, visited: set<Id>, cands: seq<Scored>, results: seq<Scored>)
    requires b.Searching(visited, cands, results, None)
    requires cands != [] && results != [] && cands[0].dist > results[|results| - 1].dist
    ensures b.Found(visited, results)
  {
    hide Reach;
    forall x | x in results ensures b.Explored(visited, x.id) {
      var i :| 0 <= i < |results| && results[i] == x;
      assert x.dist <= results[|results| - 1].dist;
      assert forall j :: 0 <= j < |cands| ==> cands[0].dist <= cands[j].dist;
      assert x !in cands;
    }
  }

  /** The entry points, scored: first pass of the search. */
  lemma {:induction false} StartSearch<V>(b: Beam<V>, visited: set<Id>, seen: seq<Scored>, cands: seq<Scored>,
                                          results: seq<Scored>)
    requires DistinctIds(seen) && b.Scores(visited, seen)
    requires forall v :: v in visited ==> v in b.ns && v in b.entries && b.Score(v) in seen
    requires forall e :: e in b.entries && e in b.ns ==> e in visited
    requires cands == SortByDist(seen) && results == Truncate(SortByDist(seen), b.ef)
    ensures b.Searching(visited, cands, results, None)
  {
    hide SortByDist, Reach;
    assert forall x :: x in results ==> x in cands;
    assert forall i :: 0 <= i < |results| ==> results[i] == cands[i] && cands[i] in results;
    forall v | v in visited ensures Reach(b.ns, b.layer, b.entries, v) {
      ReachEntry(b.ns, b.layer, b.entries, v);
    }
    forall v | v in visited && v in b.ns && b.Score(v) !in results
      ensures |results| == b.ef && forall x :: x in results ==> x.dist <= b.Dist(v)
    {
      var i :| 0 <= i < |cands| && cands[i] == b.Score(v);
      assert i >= |results|;
      forall x | x in results ensures x.dist <= b.Dist(v) {
        var j :| 0 <= j < |results| && results[j] == x;
        assert cands[j] == x;
      }
    }
  }

  // --- What a finished search means ---

  /** Every visited stored node is returned when `ef` covers everything reachable. */
  lemma {:induction false} AllVisitedReturned<V>(b: Beam<V>, visited: set<Id>, results: seq<Scored>, v: Id)
    requires b.Found(visited, results) && |ReachSet(b.ns, b.layer, b.entries)| <= b.ef
    requires v in visited && v in b.ns
    ensures b.Score(v) in results
  {
    hide Reach, Sorted;
    if b.Score(v) !in results {
      var ids := IdSet(results);
      var reach := ReachSet(b.ns, b.layer, b.entries);
      IdSetSize(results);
      forall u | u in ids ensures u in reach && u != v {
        var i :| 0 <= i < |results| && results[i].id == u;
        assert results[i] in results;
      }
      assert ids + {v} <= reach;
      SubsetSize(ids + {v}, reach);
    }
  }

  lemma {:induction false} SubsetSize(a: set<Id>, b: set<Id>)
    requires a <= b
    ensures |a| <= |b|
  {
    if a != {} {
      var x :| x in a;
      SubsetSize(a - {x}, b - {x});
    }
  }

  /** With `ef` at least the size of the reachable part, the search returns exactly that part. */
  lemma {:induction false} SearchComplete<V>(b: Beam<V>, visited: set<Id>, results: seq<Scored>)
    requires b.Found(visited, results) && |ReachSet(b.ns, b.layer, b.entries)| <= b.ef
    ensures forall v :: v in ReachSet(b.ns, b.layer, b.entries) <==> v in b.ns && b.Score(v) in results
    ensures |results| == |ReachSet(b.ns, b.layer, b.entries)|
  {
    var reach := ReachSet(b.ns, b.layer, b.entries);
    forall v | v in reach ensures b.Score(v) in results {
      var p :| PathFrom(b.ns, b.layer, b.entries, p, v);
      PathVisited(b, visited, results, p, |p| - 1);
      AllVisitedReturned(b, visited, results, v);
    }
    forall v | v in b.ns && b.Score(v) in results ensures v in reach {}
    IdSetSize(results);
    assert IdSet(results) == reach by {
      forall v | v in reach ensures v in IdSet(results) {
        var i :| 0 <= i < |results| && results[i] == b.Score(v);
      }
      forall v | v in IdSet(results) ensures v in reach {
        var i :| 0 <= i < |results| && results[i].id == v;
        assert results[i] in results;
      }
    }
  }

  lemma {:induction false} PathVisited<V>(b: Beam<V>, visited: set<Id>, results: seq<Scored>, p: seq<Id>, i: nat)
    requires b.Found(visited, results) && |ReachSet(b.ns, b.layer, b.entries)| <= b.ef
    requires Path(b.ns, b.layer, p) && p[0] in b.entries && p[0] in b.ns && i < |p|
    ensures p[i] in visited
  {
    hide ReachSet, Sorted, DistinctIds;
    if i > 0 {
      PathVisited(b, visited, results, p, i - 1);
      assert Edge(b.ns, b.layer, p[i - 1], p[i]);
      assert p[i] in b.Links(p[i - 1]);
      AllVisitedReturned(b, visited, results, p[i - 1]);
      assert b.Explored(visited, b.Score(p[i - 1]).id);
    }
  }

  /** A node linked to a returned one but not returned is no nearer than the worst returned, and the list is full. */
  lemma {:induction false} NoNearerNeighbor<V>(b: Beam<V>, visited: set<Id>, results: seq<Scored>, x: Scored, v: Id)
    requires b.Found(visited, results) && x in results && v in b.Links(x.id) && v in b.ns && b.Score(v) !in results
    ensures |results| == b.ef && results[|results| - 1].dist <= b.Dist(v)
  {
    hide Reach, Sorted, DistinctIds;
    assert b.Explored(visited, x.id);
    assert results[|results| - 1] in results;
  }

  /** Greedy search (ef = 1) ends in a local minimum: no linked node is nearer. */
  lemma {:induction false} LocalMinimum<V>(b: Beam<V>, visited: set<Id>, results: seq<Scored>, v: Id)
    requires b.Found(visited, results) && b.ef == 1 && results != []
    requires v in b.Links(results[0].id) && v in b.ns
    ensures results[0].dist <= b.Dist(v)
  {
    assert results[0] in results && v in visited;
    if b.Score(v) in results { assert results == [b.Score(v)]; }
  }

  /** `r` are the `k` nearest members of `c`, nearest first. */
  ghost predicate KNearest<V>(ns: Graph<V>, query: V, metric: (V, V) -> real, c: set<Id>, k: nat, r: seq<Scored>) {
    && |r| == (if |c| < k then |c| else k)
    && Sorted(r) && DistinctIds(r)
    && (forall x :: x in r ==> x.id in c && x.id in ns && x.dist == metric(query, ns[x.id].vector))
    && (forall v, x :: v in c && v in ns && v !in IdSet(r) && x in r ==> x.dist <= metric(query, ns[v].vector))
  }

  /** A complete search cut to `k` is brute-force k-nearest over the reachable part. */
  lemma {:induction false} CompleteIsKNearest<V>(b: Beam<V>, visited: set<Id>, results: seq<Scored>, k: nat)
    requires b.Found(visited, results) && |ReachSet(b.ns, b.layer, b.entries)| <= b.ef
    ensures KNearest(b.ns, b.query, b.metric, ReachSet(b.ns, b.layer, b.entries), k, Truncate(results, k))
  {
    hide Reach;
    var c, r := ReachSet(b.ns, b.layer, b.entries), Truncate(results, k);
    SearchComplete(b, visited, results);
    forall x | x in r ensures x in results {}
    assert forall i :: 0 <= i < |r| ==> r[i] == results[i] && r[i].id in IdSet(r);
    forall v, x | v in c && v in b.ns && v !in IdSet(r) && x in r ensures x.dist <= b.Dist(v) {
      var i :| 0 <= i < |results| && results[i] == b.Score(v);
      var j :| 0 <= j < |r| && r[j] == x;
      assert i >= |r|;
      assert results[j] == x;
    }
  }
}
