/** What an insertion may do to the links of a layer, and why: every link made or lost has its reason. */
module HnswConnect {
  import opened Common
  import opened HnswSearch
  import opened HnswLinks

  /** Everything kept is at least as near to `nb` as everything dropped. */
  ghost predicate KeptNearest<V>(ns: Graph<V>, metric: (V, V) -> real, nb: Id, all: seq<Id>, kept: seq<Id>) {
    && nb in ns
    && (forall x :: x in kept ==> x in all)
    && (forall x, y :: x in kept && y in all && y !in kept && x in ns && y in ns ==>
          metric(ns[nb].vector, ns[x].vector) <= metric(ns[nb].vector, ns[y].vector))
  }

  /** One prune: an overfull node keeps its `limit` nearest links, and a dropped link goes at both ends. */
  ghost predicate Pruned<V>(ns: Graph<V>, ns': Graph<V>, metric: (V, V) -> real, nb: Id, layer: nat, limit: nat)
    requires Owns(ns, layer, nb)
  {
    && SameShape(ns, ns')
    && var all, kept := ns[nb].layers[layer], ns'[nb].layers[layer];
    if |all| <= limit then ns' == ns
    else
      && |kept| == limit && Distinct(kept) && KeptNearest(ns, metric, nb, all, kept)
      && forall u, v :: Edge(ns', layer, u, v) <==> Edge(ns, layer, u, v) && !Cut(nb, kept, u, v)
  }

  ghost predicate Cut(nb: Id, kept: seq<Id>, u: Id, v: Id) {
    (u == nb && v !in kept) || (v == nb && u !in kept)
  }

  /** `x` was full before `id` linked to it, and of its old neighbours and `id`, `y` is the farthest from it. */
  ghost predicate Farthest<V>(ns: Graph<V>, metric: (V, V) -> real, id: Id, layer: nat, limit: nat, x: Id, y: Id) {
    && Owns(ns, layer, x) && |ns[x].layers[layer]| == limit && y in ns
    && (y == id || y in ns[x].layers[layer])
    && forall z :: z in ns && (z == id || z in ns[x].layers[layer]) ==>
         metric(ns[x].vector, ns[z].vector) <= metric(ns[x].vector, ns[y].vector)
  }

  /** A link of the new node `id` to one of `xs`, or an old link. */
  ghost predicate Wanted<V>(ns: Graph<V>, id: Id, layer: nat, xs: seq<Id>, u: Id, v: Id) {
    Edge(ns, layer, u, v) || (u == id && v in xs) || (v == id && u in xs)
  }

  /** The links are the old ones and those between `id` and `xs`, except that a full node among `done` gave up its
      farthest. */
  ghost predicate Explained<V>(ns0: Graph<V>, ns: Graph<V>, metric: (V, V) -> real, id: Id, layer: nat, limit: nat,
                               xs: seq<Id>, done: seq<Id>) {
    && SameShape(ns0, ns)
    && (forall u, v :: Edge(ns, layer, u, v) ==> Wanted(ns0, id, layer, xs, u, v))
    && (forall u, v :: Wanted(ns0, id, layer, xs, u, v) && !Edge(ns, layer, u, v) ==>
          || (u in done && Farthest(ns0, metric, id, layer, limit, u, v))
          || (v in done && Farthest(ns0, metric, id, layer, limit, v, u)))
  }

  ghost function SetOf(s: seq<Id>): set<Id> { set x | x in s }

  lemma {:induction false} SetOfSize(s: seq<Id>)
    requires Distinct(s)
    ensures |SetOf(s)| == |s|
  {
    if s == [] {
      assert SetOf(s) == {};
    } else {
      var init, x := s[..|s| - 1], s[|s| - 1];
      SetOfSize(init);
      assert s == init + [x];
      assert SetOf(s) == SetOf(init) + {x};
      assert x !in init;
    }
  }

  lemma {:induction false} SameSize(a: set<Id>, b: set<Id>)
    requires a <= b && |b| <= |a|
    ensures a == b
  {
    SubsetSize(a, b);
    if a != b {
      var x :| x in b && x !in a;
      SubsetSize(a + {x}, b);
    }
  }

  /** An overfull list is the old full one with `id`; keeping `limit` of it drops exactly one. */
  lemma {:induction false} OneDropped(was: seq<Id>, all: seq<Id>, kept: seq<Id>, id: Id, limit: nat, y: Id)
    requires Distinct(was) && Distinct(all) && Distinct(kept) && |was| <= limit < |all| && |kept| == limit
    requires id !in was && (forall x :: x in all ==> x in was || x == id) && (forall x :: x in kept ==> x in all)
    requires y in all && y !in kept
    ensures |was| == limit && forall z :: z in was || z == id ==> z in all && (z == y || z in kept)
  {
    SetOfSize(was);
    SetOfSize(all);
    SetOfSize(kept);
    assert SetOf(all) <= SetOf(was) + {id};
    SubsetSize(SetOf(all), SetOf(was) + {id});
    SameSize(SetOf(all), SetOf(was) + {id});
    assert SetOf(kept) <= SetOf(all) - {y};
    SameSize(SetOf(kept), SetOf(all) - {y});
    forall z | z in was || z == id ensures z in all && (z == y || z in kept) {
      assert z in SetOf(was) + {id};
      assert z in SetOf(all);
      assert z != y ==> z in SetOf(kept);
    }
  }

  /** Linking and linking back is explained without a prune. */
  lemma {:induction false} LinkExplained<V>(ns0: Graph<V>, ns: Graph<V>, metric: (V, V) -> real, id: Id, layer: nat,
                                            limit: nat, xs: seq<Id>)
    requires Linkable(ns0, id, layer, xs) && Linking(ns0, ns, id, layer, xs, |xs|)
    ensures Explained(ns0, ns, metric, id, layer, limit, xs, [])
  {
    LinkedEdges(ns0, ns, id, layer, xs);
    hide Edge, Owns, Farthest;
  }

  lemma {:induction false} CutIsFarthest<V>(ns0: Graph<V>, ns: Graph<V>, kept: seq<Id>, metric: (V, V) -> real, id: Id,
                                            layer: nat,
                                            limit: nat, xs: seq<Id>, nb: Id, y: Id)
    requires nb in xs && Linkable(ns0, id, layer, xs) && SameShape(ns0, ns)
    requires var was, all := ns0[nb].layers[layer], ns[nb].layers[layer];
      && Distinct(was) && Distinct(all) && Distinct(kept) && |was| <= limit < |all| && |kept| == limit
      && y in all && y !in kept && y in ns && KeptNearest(ns, metric, nb, all, kept)
    requires forall v :: Edge(ns, layer, nb, v) ==> Wanted(ns0, id, layer, xs, nb, v)
    requires Symmetric(ns0)
    ensures Farthest(ns0, metric, id, layer, limit, nb, y)
  {
    var was, all := ns0[nb].layers[layer], ns[nb].layers[layer];
    UnlinkedNode(ns0, id, layer, nb);
    hide Symmetric, Distinct;
    forall x | x in all ensures x in was || x == id {
      assert Edge(ns, layer, nb, x);
    }
    OneDropped(was, all, kept, id, limit, y);
  }

  /** Each prune explains what it cuts. */
  lemma {:induction false} PruneExplained<V>(ns0: Graph<V>, ns: Graph<V>, ns': Graph<V>, metric: (V, V) -> real, id: Id,
                                             layer: nat,
                                             limit: nat, xs: seq<Id>, i: nat)
    requires i < |xs| && Linkable(ns0, id, layer, xs) && Owns(ns0, layer, xs[i]) && Owns(ns, layer, xs[i]) &&
             Symmetric(ns0)
    requires |ns0[xs[i]].layers[layer]| <= limit && Distinct(ns0[xs[i]].layers[layer]) &&
             Distinct(ns[xs[i]].layers[layer])
    requires Explained(ns0, ns, metric, id, layer, limit, xs, xs[..i])
    requires Pruned(ns, ns', metric, xs[i], layer, limit)
    requires Symmetric(ns)
    ensures Explained(ns0, ns', metric, id, layer, limit, xs, xs[..i + 1])
  {
    hide Farthest;
    var nb := xs[i];
    assert xs[..i + 1] == xs[..i] + [nb];
    assert SameShape(ns0, ns');
    if |ns[nb].layers[layer]| > limit {
      var kept := ns'[nb].layers[layer];
      forall y | Edge(ns, layer, nb, y) && y !in kept ensures Farthest(ns0, metric, id, layer, limit, nb, y) {
        assert Edge(ns, layer, y, nb);
        CutIsFarthest(ns0, ns, kept, metric, id, layer, limit, xs, nb, y);
      }
      forall u, v | Wanted(ns0, id, layer, xs, u, v) && !Edge(ns', layer, u, v)
        ensures (u in xs[..i + 1] && Farthest(ns0, metric, id, layer, limit, u, v))
             || (v in xs[..i + 1] && Farthest(ns0, metric, id, layer, limit, v, u))
      {
        if Edge(ns, layer, u, v) {
          assert Cut(nb, kept, u, v);
          assert Edge(ns, layer, v, u);
        }
      }
    }
  }

  // --- Over all layers ---

  ghost predicate OtherLayersKept<V>(ns: Graph<V>, ns': Graph<V>, layer: nat) {
    forall l: nat, u :: l != layer && Owns(ns, l, u) ==> Owns(ns', l, u) && ns'[u].layers[l] == ns[u].layers[l]
  }

  /** One layer of an insertion: search from `ep`, connect to the nearest found, go on from the nearest of all. */
  ghost predicate LayerStep<V>(ns: Graph<V>, ns': Graph<V>, id: Id, b: Beam<V>, limit: nat, ep: Id, ep': Id) {
    exists visited, found :: ConnectedTo(ns, ns', id, b, limit, ep, ep', visited, found)
  }

  ghost predicate ConnectedTo<V>(ns: Graph<V>, ns': Graph<V>, id: Id, b: Beam<V>, limit: nat, ep: Id, ep': Id,
                                 visited: set<Id>, found: seq<Scored>) {
    && b.Found(visited, found)
    && var xs := SelectNeighbors(found, limit);
    && Explained(ns, ns', b.metric, id, b.layer, limit, xs, xs)
    && OtherLayersKept(ns, ns', b.layer)
    && ep' == if found != [] then found[0].id else ep
  }

  /** The new node `id`, connected on the layers from `top` down to `lo`, turns `ns0` into `ns`. */
  ghost predicate Connects<V(!new)>(ns0: Graph<V>, ns: Graph<V>, id: Id, vector: V, metric: (V, V) -> real, ef: nat,
                                    m: nat, mMax: nat,
                                    top: nat, lo: nat, ep0: Id, ep: Id)
    decreases top + 1 - lo
  {
    if top < lo then ns == ns0 && ep == ep0
    else exists mid: Graph<V>, at: Id ::
      && Connects(ns0, mid, id, vector, metric, ef, m, mMax, top, lo + 1, ep0, at)
      && LayerStep(mid, ns, id, Beam(mid, vector, metric, [at], ef, lo), Limit(m, mMax, lo), at, ep)
  }

  ghost predicate SameLayer<V>(ns: Graph<V>, ns': Graph<V>, l: nat) {
    SameShape(ns, ns') && forall u :: Owns(ns, l, u) ==> Owns(ns', l, u) && ns'[u].layers[l] == ns[u].layers[l]
  }

  /** The links of the searched layer, explained by the `limit` nearest nodes the search found. */
  ghost predicate FoundExplains<V>(b: Beam<V>, ns: Graph<V>, id: Id, limit: nat, visited: set<Id>, found: seq<Scored>) {
    b.Found(visited, found) &&
    var xs := SelectNeighbors(found, limit);
    Explained(b.ns, ns, b.metric, id, b.layer, limit, xs, xs)
  }

  /** A search of layer `l` from some node explains what became of the layer. */
  ghost predicate LayerExplained<V>(ns0: Graph<V>, ns: Graph<V>, query: V, metric: (V, V) -> real, ef: nat, id: Id,
                                    l: nat, limit: nat) {
    exists at, visited, found :: FoundExplains(Beam(ns0, query, metric, [at], ef, l), ns, id, limit, visited, found)
  }

  lemma {:induction false} StepKeeps<V>(ns: Graph<V>, ns': Graph<V>, id: Id, b: Beam<V>, limit: nat, ep: Id, ep': Id,
                                        l: nat)
    requires LayerStep(ns, ns', id, b, limit, ep, ep') && l != b.layer
    ensures SameLayer(ns, ns', l)
  {
    hide Beam.Found, Farthest, Wanted;
    var visited, found :| ConnectedTo(ns, ns', id, b, limit, ep, ep', visited, found);
  }

  lemma {:induction false} LowerUntouched<V(!new)>(ns0: Graph<V>, ns: Graph<V>, id: Id, vector: V,
                                                   metric: (V, V) -> real, ef: nat, m: nat,
                                                   mMax: nat, top: nat, lo: nat, ep0: Id, ep: Id, l: nat)
    requires Connects(ns0, ns, id, vector, metric, ef, m, mMax, top, lo, ep0, ep) && l < lo
    ensures SameLayer(ns0, ns, l)
    decreases top + 1 - lo
  {
    hide LayerStep, Edge;
    if lo <= top {
      var mid, at :|
        && Connects(ns0, mid, id, vector, metric, ef, m, mMax, top, lo + 1, ep0, at)
        && LayerStep(mid, ns, id, Beam(mid, vector, metric, [at], ef, lo), Limit(m, mMax, lo), at, ep);
      LowerUntouched(ns0, mid, id, vector, metric, ef, m, mMax, top, lo + 1, ep0, at, l);
      StepKeeps(mid, ns, id, Beam(mid, vector, metric, [at], ef, lo), Limit(m, mMax, lo), at, ep, l);
    }
  }

  lemma {:induction false} EdgesMove<V>(a: Graph<V>, a': Graph<V>, l: nat)
    requires SameLayer(a, a', l)
    ensures forall u, v :: Edge(a, l, u, v) <==> Edge(a', l, u, v)
  {
    forall u, v ensures Edge(a, l, u, v) <==> Edge(a', l, u, v) {
      assert Owns(a, l, u) <==> Owns(a', l, u);
    }
  }

  lemma {:induction false} FarthestMoves<V>(a: Graph<V>, a': Graph<V>, metric: (V, V) -> real, id: Id, l: nat,
                                            limit: nat, x: Id, y: Id)
    requires SameLayer(a, a', l) && Farthest(a, metric, id, l, limit, x, y)
    ensures Farthest(a', metric, id, l, limit, x, y)
  {
  }

  lemma {:induction false} ReachMoves<V>(a: Graph<V>, a': Graph<V>, l: nat, entries: seq<Id>, v: Id)
    requires SameLayer(a, a', l) && Reach(a, l, entries, v)
    ensures Reach(a', l, entries, v)
  {
    EdgesMove(a, a', l);
    hide Edge;
    var p :| PathFrom(a, l, entries, p, v);
    assert PathFrom(a', l, entries, p, v);
  }

  lemma {:induction false} LinksMove<V>(b: Beam<V>, b': Beam<V>, v: Id)
    requires SameLayer(b.ns, b'.ns, b.layer) && b'.layer == b.layer
    ensures b'.Links(v) == b.Links(v)
  {
    assert Owns(b.ns, b.layer, v) <==> Owns(b'.ns, b.layer, v);
  }

  lemma {:induction false} ScoresMove<V>(b: Beam<V>, b': Beam<V>, visited: set<Id>, found: seq<Scored>)
    requires SameShape(b.ns, b'.ns) && b'.query == b.query && b'.metric == b.metric && b'.ef == b.ef
    requires b.Scores(visited, found) && b.Nearest(visited, found)
    ensures b'.Scores(visited, found) && b'.Nearest(visited, found)
  {
    assert forall v :: v in b.ns ==> b'.Score(v) == b.Score(v) && b'.Dist(v) == b.Dist(v);
  }

  /** A search sees only its own layer. */
  lemma {:induction false} FoundMoves<V>(b: Beam<V>, ns: Graph<V>, visited: set<Id>, found: seq<Scored>)
    requires SameLayer(b.ns, ns, b.layer) && b.Found(visited, found)
    ensures Beam(ns, b.query, b.metric, b.entries, b.ef, b.layer).Found(visited, found)
  {
    hide Reach, Sorted, DistinctIds, Owns, Beam.Scores, Beam.Nearest, Beam.Links;
    var b' := Beam(ns, b.query, b.metric, b.entries, b.ef, b.layer);
    ScoresMove(b, b', visited, found);
    forall v | v in visited ensures Reach(ns, b.layer, b.entries, v) {
      ReachMoves(b.ns, ns, b.layer, b.entries, v);
    }
    forall x | x in found ensures b'.Explored(visited, x.id) {
      LinksMove(b, b', x.id);
      assert b.Explored(visited, x.id);
    }
  }

  lemma {:induction false} ExplainedMoves<V>(a: Graph<V>, a': Graph<V>, b: Graph<V>, b': Graph<V>,
                                             metric: (V, V) -> real,
                                             id: Id, l: nat, limit: nat, xs: seq<Id>)
    requires SameLayer(a, a', l) && SameLayer(b, b', l) && Explained(a, b, metric, id, l, limit, xs, xs)
    ensures Explained(a', b', metric, id, l, limit, xs, xs)
  {
    EdgesMove(a, a', l);
    EdgesMove(b, b', l);
    hide Farthest, Edge, Owns;
    forall u, v | Farthest(a, metric, id, l, limit, u, v) ensures Farthest(a', metric, id, l, limit, u, v) {
      FarthestMoves(a, a', metric, id, l, limit, u, v);
    }
  }

  lemma {:induction false} LayerMoves<V>(a: Graph<V>, a': Graph<V>, b: Graph<V>, b': Graph<V>, query: V,
                                         metric: (V, V) -> real, ef: nat, id: Id, l: nat, limit: nat)
    requires SameLayer(a, a', l) && SameLayer(b, b', l) && LayerExplained(a, b, query, metric, ef, id, l, limit)
    ensures LayerExplained(a', b', query, metric, ef, id, l, limit)
  {
    hide SameLayer, Explained, Beam.Found, SelectNeighbors;
    var at, visited, found :| FoundExplains(Beam(a, query, metric, [at], ef, l), b, id, limit, visited, found);
    FoundMoves(Beam(a, query, metric, [at], ef, l), a', visited, found);
    ExplainedMoves(a, a', b, b', metric, id, l, limit, SelectNeighbors(found, limit));
    assert FoundExplains(Beam(a', query, metric, [at], ef, l), b', id, limit, visited, found);
  }

  lemma {:induction false} SameLayerFlip<V>(a: Graph<V>, b: Graph<V>, l: nat)
    requires SameLayer(a, b, l)
    ensures SameLayer(b, a, l)
  {
    assert forall u :: Owns(a, l, u) <==> Owns(b, l, u);
  }

  /** After an insertion every layer the new node was connected on is explained against the graph before it. */
  lemma {:induction false} EveryLayerExplained<V(!new)>(ns0: Graph<V>, ns: Graph<V>, id: Id, vector: V,
                                                        metric: (V, V) -> real, ef: nat, m: nat,
                                                        mMax: nat, top: nat, lo: nat, ep0: Id, ep: Id, l: nat)
    requires Connects(ns0, ns, id, vector, metric, ef, m, mMax, top, lo, ep0, ep) && lo <= l <= top
    ensures LayerExplained(ns0, ns, vector, metric, ef, id, l, if l == 0 then mMax else m)
    decreases top + 1 - lo
  {
    hide LayerStep, SameLayer, LayerExplained;
    var mid, at :|
      && Connects(ns0, mid, id, vector, metric, ef, m, mMax, top, lo + 1, ep0, at)
      && LayerStep(mid, ns, id, Beam(mid, vector, metric, [at], ef, lo), Limit(m, mMax, lo), at, ep);
    var b := Beam(mid, vector, metric, [at], ef, lo);
    if l == lo {
      StepExplained(mid, ns, id, b, at, Limit(m, mMax, lo), ep);
      LowerUntouched(ns0, mid, id, vector, metric, ef, m, mMax, top, lo + 1, ep0, at, l);
      SameLayerFlip(ns0, mid, l);
      SameRefl(ns, l);
      LayerMoves(mid, ns0, ns, ns, vector, metric, ef, id, l, Limit(m, mMax, l));
    } else {
      EveryLayerExplained(ns0, mid, id, vector, metric, ef, m, mMax, top, lo + 1, ep0, at, l);
      StepKeeps(mid, ns, id, b, Limit(m, mMax, lo), at, ep, l);
      SameRefl(ns0, l);
      LayerMoves(ns0, ns0, mid, ns, vector, metric, ef, id, l, Limit(m, mMax, l));
    }
  }

  lemma {:induction false} SameRefl<V>(a: Graph<V>, l: nat)
    ensures SameLayer(a, a, l)
  {
  }

  lemma {:induction false} StepExplained<V>(ns: Graph<V>, ns': Graph<V>, id: Id, b: Beam<V>, at: Id, limit: nat, ep: Id)
    requires b.ns == ns && b.entries == [at] && LayerStep(ns, ns', id, b, limit, at, ep)
    ensures LayerExplained(ns, ns', b.query, b.metric, b.ef, id, b.layer, limit)
  {
    hide Explained, Beam.Found;
    var visited, found :| ConnectedTo(ns, ns', id, b, limit, at, ep, visited, found);
    assert b == Beam(ns, b.query, b.metric, [at], b.ef, b.layer);
    assert FoundExplains(b, ns', id, limit, visited, found);
  }
}
