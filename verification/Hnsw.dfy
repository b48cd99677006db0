/** The HNSW graph of src/index/hnsw/mod.rs: insertion and search over the layered links. */
module Hnsw {
  import opened Common
  import opened HnswSearch
  import opened HnswLinks
  import opened HnswConnect

  /** `ep` is where greedy search, one layer at a time from `hi` down to `lo`, ends when started at `ep0`. */
  ghost predicate Descends<V>(ns: Graph<V>, query: V, metric: (V, V) -> real, hi: nat, lo: nat, ep0: Id, ep: Id)
    decreases hi + 1 - lo
  {
    if hi < lo then ep == ep0
    else exists mid :: Descends(ns, query, metric, hi, lo + 1, ep0, mid) && GreedyStep(ns, query, metric, lo, mid, ep)
  }

  /** Greedy search on one layer moves from `from` to the nearest node it returns. */
  ghost predicate GreedyStep<V>(ns: Graph<V>, query: V, metric: (V, V) -> real, layer: nat, from: Id, to: Id) {
    exists visited, results :: Greedy(Beam(ns, query, metric, [from], 1, layer), visited, results, to)
  }

  ghost predicate Greedy<V>(b: Beam<V>, visited: set<Id>, results: seq<Scored>, to: Id) {
    b.Found(visited, results) && results != [] && results[0].id == to
  }

  /** The descent takes one greedy step on every layer from `hi` down to `lo`, each from where the last one ended. */
  lemma {:induction false} DescentSteps<V>(ns: Graph<V>, query: V, metric: (V, V) -> real, hi: nat, lo: nat, ep0: Id,
                                           ep: Id) returns (at: seq<Id>)
    requires lo <= hi + 1 && Descends(ns, query, metric, hi, lo, ep0, ep)
    ensures |at| == hi + 2 - lo && at[0] == ep0 && at[|at| - 1] == ep
    ensures forall i :: 0 <= i <= hi - lo ==> GreedyStep(ns, query, metric, hi - i, at[i], at[i + 1])
    decreases hi + 1 - lo
  {
    hide GreedyStep;
    if hi < lo {
      at := [ep];
    } else {
      var mid :| Descends(ns, query, metric, hi, lo + 1, ep0, mid) && GreedyStep(ns, query, metric, lo, mid, ep);
      at := DescentSteps(ns, query, metric, hi, lo + 1, ep0, mid);
      at := at + [ep];
    }
  }

  /** Each step of the descent stops only where no node linked on that layer is nearer. */
  lemma {:induction false} GreedyStepIsLocalMinimum<V>(ns: Graph<V>, query: V, metric: (V, V) -> real, layer: nat,
                                                       from: Id, to: Id, v: Id)
    requires GreedyStep(ns, query, metric, layer, from, to) && Edge(ns, layer, to, v) && v in ns
    ensures to in ns && metric(query, ns[to].vector) <= metric(query, ns[v].vector)
  {
    var b := Beam(ns, query, metric, [from], 1, layer);
    var visited, results :| Greedy(b, visited, results, to);
    assert results[0] in results && results[0] == b.Score(to);
    LocalMinimum(b, visited, results, v);
  }

  function Max(a: nat, b: nat): (r: nat)
    ensures a <= r && b <= r && (r == a || r == b)
  {
    if a < b then b else a
  }

  function Min(a: nat, b: nat): (r: nat)
    ensures r <= a && r <= b && (r == a || r == b)
  {
    if a < b then a else b
  }

  function EmptyLayers(n: nat): (r: seq<seq<Id>>)
    ensures |r| == n && forall i :: 0 <= i < n ==> r[i] == []
  {
    seq(n, _ => [])
  }

  /** Every invariant of the links: symmetric, no self, dangling or duplicate link, bounded degree. */
  ghost predicate WellLinked<V>(ns: Graph<V>, m: nat, mMax: nat) {
    Symmetric(ns) && NoDuplicates(ns) && Degrees(ns, m, mMax, 0, [])
  }

  /** The entry point owns the top layer, and no node rises above it. */
  ghost predicate Topped<V>(ns: Graph<V>, entryPoint: Option<Id>, maxLayer: nat) {
    && (entryPoint.None? <==> ns == map[])
    && (entryPoint.Some? ==> entryPoint.value in ns && |ns[entryPoint.value].layers| == maxLayer + 1)
    && (forall u :: u in ns ==> 1 <= |ns[u].layers| <= maxLayer + 1)
  }

  /** What links mean to a reader of the node list. */
  lemma {:induction false} LinkFacts<V>(ns: Graph<V>, m: nat, mMax: nat, u: Id, l: nat, i: nat)
    requires WellLinked(ns, m, mMax) && u in ns && l < |ns[u].layers| && i < |ns[u].layers[l]|
    ensures var v := ns[u].layers[l][i];
            v in ns && v != u && l < |ns[v].layers| && u in ns[v].layers[l]
    ensures forall j :: 0 <= j < |ns[u].layers[l]| && j != i ==> ns[u].layers[l][j] != ns[u].layers[l][i]
    ensures |ns[u].layers[l]| <= if l == 0 then mMax else m
  {
    assert Edge(ns, l, u, ns[u].layers[l][i]);
    assert Edge(ns, l, ns[u].layers[l][i], u);
  }

  class HnswGraph<!V(!new)> {
    const m: nat
    const mMax: nat
    const efConstruction: nat
    const efSearch: nat
    var nodes: Graph<V>
    var entryPoint: Option<Id>
    var maxLayer: nat

    ghost predicate Valid()
      reads this
    {
      WellLinked(nodes, m, mMax) && Topped(nodes, entryPoint, maxLayer)
    }

    /** An empty graph under any configuration; `HnswConfig::new` sets `mMax` to twice `m`. */
    constructor (m: nat, mMax: nat, efConstruction: nat, efSearch: nat)
      ensures Valid() && nodes == map[]
      ensures this.m == m && this.mMax == mMax && this.efConstruction == efConstruction && this.efSearch == efSearch
    {
      this.m, this.mMax := m, mMax;
      this.efConstruction, this.efSearch := efConstruction, efSearch;
      nodes, entryPoint, maxLayer := map[], None, 0;
    }

    /** Scores the stored entry points, each once. */
    method ScoreEntries(ghost b: Beam<V>, query: V, entries: seq<Id>, metric: (V, V) -> real)
      returns (visited: set<Id>, seen: seq<Scored>)
      requires b.ns == nodes && b.query == query && b.metric == metric && b.entries == entries
      ensures DistinctIds(seen) && b.Scores(visited, seen)
      ensures forall v :: v in visited ==> v in nodes && v in entries && b.Score(v) in seen
      ensures forall e :: e in entries && e in nodes ==> e in visited
    {
      visited, seen := {}, [];
      for i := 0 to |entries|
        invariant DistinctIds(seen) && b.Scores(visited, seen)
        invariant forall v :: v in visited ==> v in nodes && v in entries && b.Score(v) in seen
        invariant forall e :: e in entries[..i] && e in nodes ==> e in visited
      {
        var ep := entries[i];
        assert entries[..i + 1] == entries[..i] + [ep];
        if ep !in visited && ep in nodes {
          assert forall x :: 0 <= x < |seen| ==> seen[x] in seen;
          visited := visited + {ep};
          seen := seen + [Scored(ep, metric(query, nodes[ep].vector))];
        }
      }
      assert entries[..|entries|] == entries;
    }

    /** Algorithm 2: the `ef` nearest nodes met while walking the links of one layer. */
    method SearchLayer(query: V, entries: seq<Id>, ef: nat, layer: nat, metric: (V, V) -> real)
      returns (results: seq<Scored>, ghost visited: set<Id>)
      ensures Sorted(results) && DistinctIds(results) && |results| <= ef
      ensures forall x :: x in results ==> x.id in nodes && x.dist == metric(query, nodes[x.id].vector)
      ensures Beam(nodes, query, metric, entries, ef, layer).Found(visited, results)
    {
      hide Reach, Universe, SortByDist, Beam.Searching, Beam.Found, Sorted, DistinctIds, Beam.Links;
      ghost var b := Beam(nodes, query, metric, entries, ef, layer);
      var reached, seen := ScoreEntries(b, query, entries, metric);
      var candidates := SortByDist(seen);
      results := SortByDist(seen);
      if |results| > ef {
        results := results[..ef];
      }
      StartSearch(b, reached, seen, candidates, results);
      ghost var universe := Universe(nodes, entries, layer);
      EntriesInUniverse(nodes, entries, layer, reached);
      while candidates != []
        invariant b.Searching(reached, candidates, results, None)
        invariant reached <= universe
        decreases |universe - reached|, |candidates|
      {
        var current := candidates[0];
        if results != [] && current.dist > results[|results| - 1].dist && |results| >= ef {
          StopEarly(b, reached, candidates, results);
          visited := reached;
          FoundFacts(b, visited, results);
          return;
        }
        ghost var before, popped := reached, candidates[1..];
        PopCandidate(b, reached, candidates, results);
        candidates := candidates[1..];
        LinksOf(b, current.id);
        if layer < |nodes[current.id].layers| {
          reached, candidates, results := Expand(b, query, nodes[current.id].layers[layer], ef, layer, metric,
                                                 current.id, reached, candidates, results);
        }
        FinishExpand(b, reached, candidates, results, current.id);
        if reached != before { UnseenShrinks(universe, before, reached); }
      }
      AllExpanded(b, reached, results);
      visited := reached;
      FoundFacts(b, visited, results);
    }

    /** Visits the unvisited neighbours of the node just taken from the candidate list. */
    method Expand(ghost b: Beam<V>, query: V, neighbors: seq<Id>, ef: nat, layer: nat, metric: (V, V) -> real,
                  ghost current: Id,
                  reached0: set<Id>, candidates0: seq<Scored>, results0: seq<Scored>)
      returns (reached: set<Id>, candidates: seq<Scored>, results: seq<Scored>)
      requires b.ns == nodes && b.query == query && b.metric == metric && b.ef == ef && b.layer == layer
      requires current in reached0 && neighbors == b.Links(current)
      requires b.Searching(reached0, candidates0, results0, Some(current))
      requires reached0 <= Universe(nodes, b.entries, layer)
      ensures b.Searching(reached, candidates, results, Some(current))
      ensures reached0 <= reached <= Universe(nodes, b.entries, layer)
      ensures forall w :: w in neighbors ==> w in reached
      ensures reached == reached0 ==> candidates == candidates0
    {
      hide Reach, Universe, SortByDist, Beam.Searching;
      reached, candidates, results := reached0, candidates0, results0;
      for i := 0 to |neighbors|
        invariant b.Searching(reached, candidates, results, Some(current))
        invariant reached0 <= reached <= Universe(nodes, b.entries, layer)
        invariant forall w :: w in neighbors[..i] ==> w in reached
        invariant reached == reached0 ==> candidates == candidates0
      {
        var neighbor := neighbors[i];
        assert neighbors[..i + 1] == neighbors[..i] + [neighbor];
        if neighbor !in reached {
          InUniverse(nodes, b.entries, layer, current, neighbor);
          ghost var before, cs, rs := reached, candidates, results;
          reached := reached + {neighbor};
          if neighbor in nodes {
            var dist := metric(query, nodes[neighbor].vector);
            if |results| < ef || results == [] || dist < results[|results| - 1].dist {
              results := SortByDist(results + [Scored(neighbor, dist)]);
              if |results| > ef {
                results := results[..ef];
              }
              candidates := SortByDist(candidates + [Scored(neighbor, dist)]);
              VisitAccepted(b, before, cs, rs, current, neighbor, candidates, results);
            } else {
              VisitRejected(b, before, cs, rs, current, neighbor);
            }
          } else {
            VisitMissing(b, before, cs, rs, current, neighbor);
          }
        }
      }
      assert neighbors[..|neighbors|] == neighbors;
    }

    /** Algorithm 5: greedy descent to layer 0, then a beam search there. */
    method Search(query: V, k: nat, metric: (V, V) -> real)
      returns (results: seq<Scored>, ghost ep: Id, ghost visited: set<Id>, ghost full: seq<Scored>)
      requires Valid()
      ensures nodes == map[] ==> results == []
      ensures nodes != map[] ==>
        && entryPoint.Some? && Descends(nodes, query, metric, maxLayer, 1, entryPoint.value, ep)
        && Beam(nodes, query, metric, [ep], Max(efSearch, k), 0).Found(visited, full)
        && results == Truncate(full, k)
      ensures nodes != map[] && |ReachSet(nodes, 0, [ep])| <= Max(efSearch, k) ==>
        KNearest(nodes, query, metric, ReachSet(nodes, 0, [ep]), k, results)
    {
      hide Beam.Found, Reach, KNearest, WellLinked, ReachSet, Descends, Truncate, GreedyStep;
      if nodes == map[] {
        results, full, visited, ep := [], [], {}, 0;
        return;
      }
      var epId := entryPoint.value;
      DescendStart(nodes, query, metric, maxLayer, epId);
      var layer: nat := maxLayer;
      while layer >= 1
        invariant layer <= maxLayer && epId in nodes
        invariant Descends(nodes, query, metric, maxLayer, layer + 1, entryPoint.value, epId)
      {
        var found, seen := SearchLayer(query, [epId], 1, layer, metric);
        DescendStep(nodes, query, metric, maxLayer, layer, entryPoint.value, epId, seen, found);
        if found != [] {
          epId := found[0].id;
        }
        layer := layer - 1;
      }
      results, visited := SearchLayer(query, [epId], Max(efSearch, k), 0, metric);
      full := results;
      TruncateIs(results, k);
      if |results| > k {
        results := results[..k];
      }
      ep := epId;
      ghost var b := Beam(nodes, query, metric, [ep], Max(efSearch, k), 0);
      if |ReachSet(nodes, 0, [ep])| <= Max(efSearch, k) {
        CompleteIsKNearest(b, visited, full, k);
      }
    }

    /** Links the new node to its chosen neighbours, and each of them back to it. */
    method LinkNode(id: Id, layer: nat, neighbors: seq<Id>)
      requires WellLinked(nodes, m, mMax) && Linkable(nodes, id, layer, neighbors)
      requires |neighbors| <= Limit(m, mMax, layer)
      modifies this`nodes
      ensures Symmetric(nodes) && NoDuplicates(nodes) && Degrees(nodes, m, mMax, layer, neighbors)
      ensures SameShape(old(nodes), nodes) && OtherLayersKept(old(nodes), nodes, layer)
      ensures Linking(old(nodes), nodes, id, layer, neighbors, |neighbors|)
    {
      hide Symmetric, NoDuplicates, Degrees, Linking;
      LinkStart(nodes, id, layer, neighbors);
      nodes := SetLinks(nodes, id, layer, neighbors);
      for i := 0 to |neighbors|
        invariant Linking(old(nodes), nodes, id, layer, neighbors, i)
      {
        var neighbor := neighbors[i];
        LinkBack(old(nodes), nodes, id, layer, neighbors, i);
        if neighbor in nodes && layer < |nodes[neighbor].layers| && id !in nodes[neighbor].layers[layer] {
          nodes := SetLinks(nodes, neighbor, layer, nodes[neighbor].layers[layer] + [id]);
        }
      }
      LimitDegrees(old(nodes), m, mMax, layer);
      LinkedAll(old(nodes), nodes, id, layer, neighbors, m, mMax);
      LinkingKeeps(old(nodes), nodes, id, layer, neighbors);
    }

    /** Cuts an overfull node back to its nearest neighbours; the dropped ones forget it. */
    method PruneNode(nb: Id, layer: nat, limit: nat, metric: (V, V) -> real, ghost over: seq<Id>)
      requires Symmetric(nodes) && NoDuplicates(nodes) && Degrees(nodes, m, mMax, layer, [nb] + over)
      requires Owns(nodes, layer, nb) && limit == Limit(m, mMax, layer)
      modifies this`nodes
      ensures Symmetric(nodes) && NoDuplicates(nodes) && Degrees(nodes, m, mMax, layer, over)
      ensures SameShape(old(nodes), nodes) && OtherLayersKept(old(nodes), nodes, layer)
      ensures Pruned(old(nodes), nodes, metric, nb, layer, limit)
    {
      hide Symmetric, NoDuplicates, Degrees, Pruning, KeptNearest, SortByDist, ScoreAll, Dropped;
      if |nodes[nb].layers[layer]| > limit {
        ghost var ns0 := nodes;
        var oldList := nodes[nb].layers[layer];
        var dists := SortByDist(ScoreAll(nodes, metric, nodes[nb].vector, oldList));
        var pruned := SelectNeighbors(dists, limit);
        var dropped := Dropped(oldList, pruned);
        PruneChoice(ns0, metric, nb, layer, limit, dists, pruned, dropped);
        PruneStart(ns0, nb, layer, pruned, dropped);
        nodes := SetLinks(nodes, nb, layer, pruned);
        for i := 0 to |dropped|
          invariant Pruning(ns0, nodes, nb, layer, pruned, dropped, i)
        {
          Unlink(ns0, nodes, nb, layer, pruned, dropped, i);
          var d := dropped[i];
          if d in nodes && layer < |nodes[d].layers| {
            nodes := SetLinks(nodes, d, layer, Without(nodes[d].layers[layer], nb));
          }
        }
        PrunedAll(ns0, nodes, nb, layer, pruned, dropped, m, mMax, over);
        PruningKeeps(ns0, nodes, nb, layer, pruned, dropped);
        PruneCuts(ns0, nodes, metric, nb, layer, limit, pruned, dropped);
      } else {
        DegreesDrop(nodes, m, mMax, layer, nb, over);
      }
    }

    /** Connects the new node on one layer: link, link back, prune. */
    method ConnectLayer(id: Id, layer: nat, neighbors: seq<Id>, metric: (V, V) -> real)
      requires WellLinked(nodes, m, mMax) && Linkable(nodes, id, layer, neighbors)
      requires |neighbors| <= Limit(m, mMax, layer)
      modifies this`nodes
      ensures WellLinked(nodes, m, mMax)
      ensures SameShape(old(nodes), nodes) && OtherLayersKept(old(nodes), nodes, layer)
      ensures Explained(old(nodes), nodes, metric, id, layer, Limit(m, mMax, layer), neighbors, neighbors)
    {
      hide Symmetric, NoDuplicates, Degrees, Linking, OtherLayersKept, Explained, Pruned;
      var limit := Limit(m, mMax, layer);
      LinkNode(id, layer, neighbors);
      LinkExplained(old(nodes), nodes, metric, id, layer, limit, neighbors);
      assert neighbors[0..] == neighbors && neighbors[..0] == [];
      for i := 0 to |neighbors|
        invariant Symmetric(nodes) && NoDuplicates(nodes) && Degrees(nodes, m, mMax, layer, neighbors[i..])
        invariant SameShape(old(nodes), nodes) && OtherLayersKept(old(nodes), nodes, layer)
        invariant Explained(old(nodes), nodes, metric, id, layer, limit, neighbors, neighbors[..i])
      {
        ghost var before := nodes;
        assert neighbors[i..] == [neighbors[i]] + neighbors[i + 1..];
        assert neighbors[i] in neighbors;
        PruneNode(neighbors[i], layer, limit, metric, neighbors[i + 1..]);
        KeptTrans(old(nodes), before, nodes, layer);
        ListFacts(old(nodes), before, m, mMax, layer, neighbors[i]);
        PruneExplained(old(nodes), before, nodes, metric, id, layer, limit, neighbors, i);
      }
      assert neighbors[|neighbors|..] == [] && neighbors[..|neighbors|] == neighbors;
      LimitDegrees(nodes, m, mMax, layer);
    }

    /** Greedy descent through the layers above `level`; the result owns `level` or the top layer. */
    method Descend(vector: V, level: nat, metric: (V, V) -> real) returns (ep: Id)
      requires Valid() && nodes != map[]
      ensures ep in nodes && |nodes[ep].layers| > if level < maxLayer then level else maxLayer
      ensures Descends(nodes, vector, metric, maxLayer, level + 1, entryPoint.value, ep)
    {
      hide WellLinked, Beam.Found, Reach, Descends, GreedyStep;
      ep := entryPoint.value;
      DescendStart(nodes, vector, metric, maxLayer, ep);
      DescendNone(nodes, vector, metric, maxLayer, level, ep);
      var layer: nat := maxLayer;
      while layer > level
        invariant layer <= maxLayer && ep in nodes && layer < |nodes[ep].layers|
        invariant layer < maxLayer ==> layer >= level
        invariant Descends(nodes, vector, metric, maxLayer, layer + 1, entryPoint.value, ep)
        invariant maxLayer <= level ==> layer == maxLayer && ep == entryPoint.value
      {
        var results, seen := SearchLayer(vector, [ep], 1, layer, metric);
        DescendStep(nodes, vector, metric, maxLayer, layer, entryPoint.value, ep, seen, results);
        if results != [] {
          FoundOwns(Beam(nodes, vector, metric, [ep], 1, layer), seen, results, m, mMax, ep);
          ep := results[0].id;
        }
        layer := layer - 1;
      }
    }

    /** Connects the new, still unlinked node on every layer from `topConnect` down. */
    method ConnectDown(id: Id, vector: V, topConnect: nat, ep0: Id, metric: (V, V) -> real) returns (ep: Id)
      requires WellLinked(nodes, m, mMax) && id in nodes && ep0 in nodes && ep0 != id
      requires topConnect < |nodes[id].layers| && topConnect < |nodes[ep0].layers|
      requires forall l :: 0 <= l <= topConnect ==> nodes[id].layers[l] == []
      modifies this`nodes
      ensures WellLinked(nodes, m, mMax) && SameShape(old(nodes), nodes)
      ensures Connects(old(nodes), nodes, id, vector, metric, efConstruction, m, mMax, topConnect, 0, ep0, ep)
    {
      hide WellLinked, Beam.Found, Reach, OtherLayersKept, Linkable, Connects, Explained;
      ep := ep0;
      ConnectStart(nodes, id, vector, metric, efConstruction, m, mMax, topConnect, ep);
      var layer: nat := topConnect + 1;
      while layer > 0
        invariant layer <= topConnect + 1
        invariant WellLinked(nodes, m, mMax) && SameShape(old(nodes), nodes)
        invariant forall l :: 0 <= l < layer ==> nodes[id].layers[l] == []
        invariant ep in nodes && ep != id && layer <= |nodes[ep].layers|
        invariant Connects(old(nodes), nodes, id, vector, metric, efConstruction, m, mMax, topConnect, layer, ep0, ep)
      {
        layer := layer - 1;
        var candidates, seen := SearchLayer(vector, [ep], efConstruction, layer, metric);
        ghost var b := Beam(nodes, vector, metric, [ep], efConstruction, layer);
        var neighbors := SelectNeighbors(candidates, Limit(m, mMax, layer));
        CandidatesLinkable(b, seen, candidates, m, mMax, ep, id, neighbors);
        FoundOwns(b, seen, candidates, m, mMax, ep);
        CandidateNotNew(b, seen, candidates, m, mMax, ep, id);
        ghost var linked := nodes;
        ConnectLayer(id, layer, neighbors, metric);
        LowerKept(linked, nodes, layer, id);
        ConnectMore(old(nodes), linked, nodes, id, b, m, mMax, topConnect, ep0, ep, seen, candidates);
        if candidates != [] {
          ep := candidates[0].id;
        }
      }
    }

    /** Algorithm 1: adds a node with a given top layer (the random level). Ids are fresh. */
    method Insert(id: Id, vector: V, level: nat, metric: (V, V) -> real) returns (ghost start: Id, ghost last: Id)
      requires Valid() && id !in nodes
      modifies this
      ensures Valid()
      ensures nodes.Keys == old(nodes).Keys + {id}
      ensures nodes[id].vector == vector && |nodes[id].layers| == level + 1
      ensures forall u :: u in old(nodes) ==>
        nodes[u].vector == old(nodes)[u].vector && |nodes[u].layers| == |old(nodes)[u].layers|
      ensures maxLayer == if old(nodes) == map[] || level > old(maxLayer) then level else old(maxLayer)
      ensures entryPoint == if old(nodes) == map[] || level > old(maxLayer) then Some(id) else old(entryPoint)
      ensures old(nodes) != map[] ==>
        && Descends(old(nodes), vector, metric, old(maxLayer), level + 1, old(entryPoint).value, start)
        && Connects(old(nodes)[id := HnswNode(vector, EmptyLayers(level + 1))], nodes, id, vector, metric,
                    efConstruction, m, mMax,
                    Min(level, old(maxLayer)), 0, start, last)
    {
      hide WellLinked, Connects, Descends;
      start, last := id, id;
      if nodes == map[] {
        nodes := map[id := HnswNode(vector, EmptyLayers(level + 1))];
        FirstNode(nodes, id, m, mMax);
        entryPoint, maxLayer := Some(id), level;
        return;
      }
      var ep := Descend(vector, level, metric);
      ghost var before := nodes;
      nodes := nodes[id := HnswNode(vector, EmptyLayers(level + 1))];
      AddUnlinked(before, nodes, id, m, mMax);
      var topConnect := if level < maxLayer then level else maxLayer;
      start := ep;
      ep := ConnectDown(id, vector, topConnect, ep, metric);
      last := ep;
      if level > maxLayer {
        entryPoint, maxLayer := Some(id), level;
      }
    }
  }

  // --- Facts used by the methods above ---

  lemma {:induction false} DescendStart<V>(ns: Graph<V>, query: V, metric: (V, V) -> real, top: nat, ep: Id)
    ensures Descends(ns, query, metric, top, top + 1, ep, ep)
  {
  }

  lemma {:induction false} DescendNone<V>(ns: Graph<V>, query: V, metric: (V, V) -> real, top: nat, level: nat, ep: Id)
    ensures top <= level ==> Descends(ns, query, metric, top, level + 1, ep, ep)
  {
  }

  lemma {:induction false} DescendStep<V>(ns: Graph<V>, query: V, metric: (V, V) -> real, top: nat, layer: nat, ep0: Id,
                                          ep: Id,
                                          visited: set<Id>, found: seq<Scored>)
    requires ep in ns && layer <= top && Descends(ns, query, metric, top, layer + 1, ep0, ep)
    requires Beam(ns, query, metric, [ep], 1, layer).Found(visited, found)
    ensures found != [] && found[0].id in ns && Descends(ns, query, metric, top, layer, ep0, found[0].id)
  {
    hide Reach, Beam.Found;
    var b := Beam(ns, query, metric, [ep], 1, layer);
    FoundSome(b, visited, found, ep);
    assert Greedy(b, visited, found, found[0].id);
    assert GreedyStep(ns, query, metric, layer, ep, found[0].id);
  }

  lemma {:induction false} FoundFacts<V>(b: Beam<V>, visited: set<Id>, found: seq<Scored>)
    requires b.Found(visited, found)
    ensures Sorted(found) && DistinctIds(found) && |found| <= b.ef
    ensures forall x :: x in found ==> x.id in b.ns && x.dist == b.metric(b.query, b.ns[x.id].vector)
  {
    hide Reach, Sorted, DistinctIds;
  }

  lemma {:induction false} FoundSome<V>(b: Beam<V>, visited: set<Id>, found: seq<Scored>, ep: Id)
    requires ep in b.ns && b.entries == [ep] && b.ef > 0 && b.Found(visited, found)
    ensures found != [] && found[0].id in b.ns
  {
    hide Reach, Sorted, DistinctIds;
    assert ep in visited;
    assert b.Score(ep) in found || |found| == b.ef;
    assert found[0] in found;
  }

  lemma {:induction false} TruncateIs<T>(s: seq<T>, n: nat)
    ensures Truncate(s, n) == if |s| > n then s[..n] else s
  {
  }

  lemma {:induction false} ConnectStart<V(!new)>(ns: Graph<V>, id: Id, vector: V, metric: (V, V) -> real, ef: nat,
                                                 m: nat, mMax: nat, top: nat, ep: Id)
    ensures Connects(ns, ns, id, vector, metric, ef, m, mMax, top, top + 1, ep, ep)
  {
  }

  lemma {:induction false} ConnectMore<V(!new)>(ns0: Graph<V>, ns: Graph<V>, ns': Graph<V>, id: Id, b: Beam<V>, m: nat,
                                                mMax: nat, top: nat,
                                                ep0: Id, ep: Id, visited: set<Id>, found: seq<Scored>)
    requires b.layer <= top && b.ns == ns && b.entries == [ep] && b.Found(visited, found)
    requires Connects(ns0, ns, id, b.query, b.metric, b.ef, m, mMax, top, b.layer + 1, ep0, ep)
    requires var xs := SelectNeighbors(found, Limit(m, mMax, b.layer));
      Explained(ns, ns', b.metric, id, b.layer, Limit(m, mMax, b.layer), xs, xs) && OtherLayersKept(ns, ns', b.layer)
    ensures Connects(ns0, ns', id, b.query, b.metric, b.ef, m, mMax, top, b.layer, ep0,
                     if found != [] then found[0].id else ep)
  {
    hide Beam.Found, Explained, OtherLayersKept;
    var ep' := if found != [] then found[0].id else ep;
    assert b == Beam(ns, b.query, b.metric, [ep], b.ef, b.layer);
    assert ConnectedTo(ns, ns', id, b, Limit(m, mMax, b.layer), ep, ep', visited, found);
    assert LayerStep(ns, ns', id, b, Limit(m, mMax, b.layer), ep, ep');
  }

  lemma {:induction false} KeptTrans<V>(a: Graph<V>, b: Graph<V>, c: Graph<V>, layer: nat)
    requires OtherLayersKept(a, b, layer) && OtherLayersKept(b, c, layer)
    ensures OtherLayersKept(a, c, layer)
  {
  }

  lemma {:induction false} LowerKept<V>(ns: Graph<V>, ns': Graph<V>, layer: nat, id: Id)
    requires OtherLayersKept(ns, ns', layer) && SameShape(ns, ns') && Owns(ns, layer, id)
    requires forall l :: 0 <= l < layer ==> ns[id].layers[l] == []
    ensures forall l :: 0 <= l < layer ==> ns'[id].layers[l] == []
  {
    forall l | 0 <= l < layer ensures ns'[id].layers[l] == [] {
      assert Owns(ns, l, id);
    }
  }

  lemma {:induction false} LinkStart<V>(ns: Graph<V>, id: Id, layer: nat, xs: seq<Id>)
    requires Linkable(ns, id, layer, xs)
    ensures Linking(ns, SetLinks(ns, id, layer, xs), id, layer, xs, 0)
  {
    assert xs[..0] == [];
  }

  lemma {:induction false} LinkingKeeps<V>(ns: Graph<V>, ns': Graph<V>, id: Id, layer: nat, xs: seq<Id>)
    requires Linking(ns, ns', id, layer, xs, |xs|)
    ensures SameShape(ns, ns') && OtherLayersKept(ns, ns', layer)
  {
  }

  lemma {:induction false} PruneStart<V>(ns: Graph<V>, nb: Id, layer: nat, kept: seq<Id>, dropped: seq<Id>)
    requires Owns(ns, layer, nb)
    ensures Pruning(ns, SetLinks(ns, nb, layer, kept), nb, layer, kept, dropped, 0)
  {
    assert dropped[..0] == [];
  }

  lemma {:induction false} PruningKeeps<V>(ns: Graph<V>, ns': Graph<V>, nb: Id, layer: nat, kept: seq<Id>,
                                           dropped: seq<Id>)
    requires Pruning(ns, ns', nb, layer, kept, dropped, |dropped|) && Owns(ns, layer, nb)
    ensures SameShape(ns, ns') && OtherLayersKept(ns, ns', layer) && ns'[nb].layers[layer] == kept
  {
  }

  /** The prune keeps exactly `limit` old neighbours, the nearest ones. */
  lemma {:induction false} PruneChoice<V>(ns: Graph<V>, metric: (V, V) -> real, nb: Id, layer: nat, limit: nat,
                                          dists: seq<Scored>, kept: seq<Id>, dropped: seq<Id>)
    requires Owns(ns, layer, nb) && |ns[nb].layers[layer]| > limit
    requires Symmetric(ns) && NoDuplicates(ns)
    requires dists == SortByDist(ScoreAll(ns, metric, ns[nb].vector, ns[nb].layers[layer]))
    requires kept == SelectNeighbors(dists, limit) && dropped == Dropped(ns[nb].layers[layer], kept)
    ensures |kept| == limit && Splits(ns[nb].layers[layer], kept, dropped)
    ensures KeptNearest(ns, metric, nb, ns[nb].layers[layer], kept)
  {
    hide SortByDist, SelectNeighbors, Symmetric, NoDuplicates, ScoreAll, Dropped, Distinct;
    var all, from := ns[nb].layers[layer], ns[nb].vector;
    NeighborsStored(ns, layer, nb);
    ScoreAllDistinct(ns, metric, from, all);
    ScoreAllSize(ns, metric, from, all);
    DroppedDistinct(all, kept);
    SelectedDistinct(dists, limit);
    forall y | y in kept ensures y in all {
      var i :| 0 <= i < |kept| && kept[i] == y;
      assert dists[i] in dists;
    }
    SelectedNearest(ns, metric, nb, all, limit, dists, kept);
  }

  lemma {:induction false} PruneCuts<V>(ns: Graph<V>, ns': Graph<V>, metric: (V, V) -> real, nb: Id, layer: nat,
                                        limit: nat,
                                        kept: seq<Id>, dropped: seq<Id>)
    requires Owns(ns, layer, nb) && |kept| == limit < |ns[nb].layers[layer]| &&
             Splits(ns[nb].layers[layer], kept, dropped)
    requires KeptNearest(ns, metric, nb, ns[nb].layers[layer], kept)
    requires Symmetric(ns)
    requires Pruning(ns, ns', nb, layer, kept, dropped, |dropped|)
    ensures Pruned(ns, ns', metric, nb, layer, limit)
  {
    hide KeptNearest;
    PrunedEdges(ns, ns', nb, layer, kept, dropped);
    forall u, v ensures Edge(ns', layer, u, v) <==> Edge(ns, layer, u, v) && !Cut(nb, kept, u, v) {
      assert Edge(ns, layer, u, v) ==> Edge(ns, layer, v, u);
    }
  }

  lemma {:induction false} SelectedDistinct(s: seq<Scored>, m: nat)
    requires DistinctIds(s)
    ensures Distinct(SelectNeighbors(s, m))
  {
    hide SelectNeighbors;
  }

  lemma {:induction false} SelectedNearest<V>(ns: Graph<V>, metric: (V, V) -> real, nb: Id, all: seq<Id>, limit: nat,
                                              dists: seq<Scored>, kept: seq<Id>)
    requires nb in ns && Sorted(dists) && kept == SelectNeighbors(dists, limit)
    requires forall y :: y in dists ==> y.id in all && y.id in ns && y.dist == metric(ns[nb].vector, ns[y.id].vector)
    requires forall x :: x in all && x in ns ==> Scored(x, metric(ns[nb].vector, ns[x].vector)) in dists
    ensures KeptNearest(ns, metric, nb, all, kept)
  {
    hide SelectNeighbors;
    var from := ns[nb].vector;
    assert forall i :: 0 <= i < |kept| ==> kept[i] == dists[i].id && dists[i] in dists && kept[i] in kept;
    forall x, y | x in kept && y in all && y !in kept && x in ns && y in ns
      ensures metric(from, ns[x].vector) <= metric(from, ns[y].vector)
    {
      var i :| 0 <= i < |kept| && kept[i] == x;
      var j :| 0 <= j < |dists| && dists[j] == Scored(y, metric(from, ns[y].vector));
      assert dists[i].dist <= dists[j].dist;
    }
  }

  lemma {:induction false} NeighborsStored<V>(ns: Graph<V>, layer: nat, nb: Id)
    requires Symmetric(ns) && NoDuplicates(ns) && Owns(ns, layer, nb)
    ensures Distinct(ns[nb].layers[layer])
    ensures forall x :: x in ns[nb].layers[layer] ==> x in ns
  {
    forall x | x in ns[nb].layers[layer] ensures x in ns {
      assert Edge(ns, layer, nb, x);
      assert Edge(ns, layer, x, nb);
    }
  }

  lemma {:induction false} ScoreAllSize<V>(ns: Graph<V>, metric: (V, V) -> real, from: V, xs: seq<Id>)
    requires forall x :: x in xs ==> x in ns
    ensures |ScoreAll(ns, metric, from, xs)| == |xs|
  {
    if xs != [] {
      assert xs[0] in xs;
      ScoreAllSize(ns, metric, from, xs[1..]);
    }
  }

  lemma {:induction false} LimitDegrees<V>(ns: Graph<V>, m: nat, mMax: nat, layer: nat)
    ensures Degrees(ns, m, mMax, 0, []) <==> Degrees(ns, m, mMax, layer, [])
  {
  }

  lemma {:induction false} ListFacts<V>(ns0: Graph<V>, ns: Graph<V>, m: nat, mMax: nat, layer: nat, x: Id)
    requires WellLinked(ns0, m, mMax) && NoDuplicates(ns) && Owns(ns0, layer, x) && Owns(ns, layer, x)
    ensures |ns0[x].layers[layer]| <= Limit(m, mMax, layer)
    ensures Distinct(ns0[x].layers[layer]) && Distinct(ns[x].layers[layer])
  {
    hide Symmetric, Distinct;
  }

  lemma {:induction false} DegreesDrop<V>(ns: Graph<V>, m: nat, mMax: nat, layer: nat, nb: Id, over: seq<Id>)
    requires Degrees(ns, m, mMax, layer, [nb] + over)
    requires Owns(ns, layer, nb) && |ns[nb].layers[layer]| <= Limit(m, mMax, layer)
    ensures Degrees(ns, m, mMax, layer, over)
  {
  }

  lemma {:induction false} FirstNode<V>(ns: Graph<V>, id: Id, m: nat, mMax: nat)
    requires ns.Keys == {id} && forall l :: 0 <= l < |ns[id].layers| ==> ns[id].layers[l] == []
    ensures WellLinked(ns, m, mMax)
  {
  }

  /** A node without links disturbs nothing. */
  lemma {:induction false} AddUnlinked<V>(ns: Graph<V>, ns': Graph<V>, id: Id, m: nat, mMax: nat)
    requires WellLinked(ns, m, mMax) && id !in ns && id in ns' && ns' == ns[id := ns'[id]]
    requires forall l :: 0 <= l < |ns'[id].layers| ==> ns'[id].layers[l] == []
    ensures WellLinked(ns', m, mMax)
  {
    forall l, u, v | Edge(ns', l, u, v) ensures u != v && Edge(ns', l, v, u) {
      assert Edge(ns, l, u, v);
      assert Edge(ns, l, v, u);
    }
    hide Symmetric, Edge;
    forall l: nat, u | Owns(ns', l, u)
      ensures Distinct(ns'[u].layers[l]) && |ns'[u].layers[l]| <= Limit(m, mMax, l)
    {
      if u != id { assert Owns(ns, l, u); }
    }
  }

  /** What a search from an owner of the layer returns owns the layer. */
  lemma {:induction false} FoundOwns<V>(b: Beam<V>, visited: set<Id>, results: seq<Scored>, m: nat, mMax: nat, ep: Id)
    requires WellLinked(b.ns, m, mMax) && b.entries == [ep] && Owns(b.ns, b.layer, ep)
    requires b.Found(visited, results)
    ensures forall x :: x in results ==> Owns(b.ns, b.layer, x.id)
    ensures forall i :: 0 <= i < |results| ==> Owns(b.ns, b.layer, results[i].id)
  {
    hide Reach;
    forall x | x in results ensures Owns(b.ns, b.layer, x.id) {
      ReachOwns(b.ns, b.layer, ep, x.id);
    }
    assert forall i :: 0 <= i < |results| ==> results[i] in results;
  }

  /** The node being inserted has no link on the layer yet, so no search returns it. */
  lemma {:induction false} CandidateNotNew<V>(b: Beam<V>, visited: set<Id>, results: seq<Scored>, m: nat, mMax: nat,
                                              ep: Id, id: Id)
    requires WellLinked(b.ns, m, mMax) && b.entries == [ep] && Owns(b.ns, b.layer, ep) && ep != id
    requires Owns(b.ns, b.layer, id) && b.ns[id].layers[b.layer] == []
    requires b.Found(visited, results)
    ensures forall i :: 0 <= i < |results| ==> results[i].id != id
  {
    hide Reach;
    forall i | 0 <= i < |results| ensures results[i].id != id {
      assert results[i] in results;
      ReachOwns(b.ns, b.layer, ep, results[i].id);
    }
  }

  lemma {:induction false} CandidatesLinkable<V>(b: Beam<V>, visited: set<Id>, results: seq<Scored>, m: nat, mMax: nat,
                                                 ep: Id, id: Id,
                                                 neighbors: seq<Id>)
    requires WellLinked(b.ns, m, mMax) && b.entries == [ep] && Owns(b.ns, b.layer, ep) && ep != id
    requires Owns(b.ns, b.layer, id) && b.ns[id].layers[b.layer] == []
    requires b.Found(visited, results) && neighbors == SelectNeighbors(results, Limit(m, mMax, b.layer))
    ensures Linkable(b.ns, id, b.layer, neighbors) && |neighbors| <= Limit(m, mMax, b.layer)
  {
    hide Reach, WellLinked, SelectNeighbors;
    FoundOwns(b, visited, results, m, mMax, ep);
    CandidateNotNew(b, visited, results, m, mMax, ep, id);
  }

  lemma {:induction false} UnseenShrinks(universe: set<Id>, a: set<Id>, b: set<Id>)
    requires a <= b <= universe && a != b
    ensures |universe - b| < |universe - a|
  {
    var x :| x in b && x !in a;
    SubsetSize(universe - b, universe - a - {x});
  }

  /** Taking the nearest candidate: it is the one result that may still need expanding. */
  lemma {:induction false} PopCandidate<V>(b: Beam<V>, visited: set<Id>, cands: seq<Scored>, results: seq<Scored>)
    requires b.Searching(visited, cands, results, None) && cands != []
    ensures cands[0].id in b.ns && cands[0].id in visited
    ensures b.Searching(visited, cands[1..], results, Some(cands[0].id))
  {
    hide Reach;
    assert cands == [cands[0]] + cands[1..] && cands[0] in cands;
    assert forall x :: x in cands <==> x == cands[0] || x in cands[1..];
  }

  lemma {:induction false} LinksOf<V>(b: Beam<V>, v: Id)
    requires v in b.ns
    ensures b.Links(v) == if b.layer < |b.ns[v].layers| then b.ns[v].layers[b.layer] else []
  {
  }

  lemma {:induction false} EntriesInUniverse<V>(ns: Graph<V>, entries: seq<Id>, layer: nat, s: set<Id>)
    requires forall v :: v in s ==> v in entries
    ensures s <= Universe(ns, entries, layer)
  {
  }

  lemma {:induction false} AllExpanded<V>(b: Beam<V>, visited: set<Id>, results: seq<Scored>)
    requires b.Searching(visited, [], results, None)
    ensures b.Found(visited, results)
  {
    hide Reach, Sorted, DistinctIds;
  }

  lemma {:induction false} FinishExpand<V>(b: Beam<V>, visited: set<Id>, cands: seq<Scored>, results: seq<Scored>,
                                           current: Id)
    requires b.Searching(visited, cands, results, Some(current))
    requires forall w :: w in b.Links(current) ==> w in visited
    ensures b.Searching(visited, cands, results, None)
  {
    hide Reach;
    assert b.Explored(visited, current);
  }

  lemma {:induction false} VisitAccepted<V>(b: Beam<V>, visited: set<Id>, cands: seq<Scored>, results: seq<Scored>,
                                            current: Id, v: Id,
                                            cands': seq<Scored>, results': seq<Scored>)
    requires current in visited && v in b.Links(current) && v in b.ns && v !in visited
    requires cands' == SortByDist(cands + [b.Score(v)]) &&
             results' == Truncate(SortByDist(results + [b.Score(v)]), b.ef)
    requires |results| < b.ef || results == [] || b.Dist(v) < results[|results| - 1].dist
    requires b.Searching(visited, cands, results, Some(current))
    ensures b.Searching(visited + {v}, cands', results', Some(current))
  {
    hide Reach, SortByDist, Sorted, DistinctIds;
    Offer(b, visited, results, v, results');
    ReachStep(b.ns, b.layer, b.entries, current, v);
    assert forall x :: x in cands' <==> x in cands || x == b.Score(v);
  }

  lemma {:induction false} VisitRejected<V>(b: Beam<V>, visited: set<Id>, cands: seq<Scored>, results: seq<Scored>,
                                            current: Id, v: Id)
    requires current in visited && v in b.Links(current) && v in b.ns
    requires |results| >= b.ef && results != [] && b.Dist(v) >= results[|results| - 1].dist
    requires b.Searching(visited, cands, results, Some(current))
    ensures b.Searching(visited + {v}, cands, results, Some(current))
  {
    hide Reach, DistinctIds;
    Reject(b, visited, results, v);
    ReachStep(b.ns, b.layer, b.entries, current, v);
  }

  lemma {:induction false} VisitMissing<V>(b: Beam<V>, visited: set<Id>, cands: seq<Scored>, results: seq<Scored>,
                                           current: Id, v: Id)
    requires current in visited && v in b.Links(current) && v !in b.ns
    requires b.Searching(visited, cands, results, Some(current))
    ensures b.Searching(visited + {v}, cands, results, Some(current))
  {
    hide Reach, Sorted, DistinctIds;
    ReachStep(b.ns, b.layer, b.entries, current, v);
  }
}
