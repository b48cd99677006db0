/** How linking a new node and pruning an overfull one change the links of one layer. */
module HnswLinks {
  import opened Common
  import opened HnswSearch

  /** Links go both ways, never to oneself and never to a node without that layer. */
  ghost predicate Symmetric<V>(ns: Graph<V>) {
    forall l, u, v :: Edge(ns, l, u, v) ==> u != v && Edge(ns, l, v, u)
  }

  ghost predicate NoDuplicates<V>(ns: Graph<V>) {
    forall l: nat, u :: Owns(ns, l, u) ==> Distinct(ns[u].layers[l])
  }

  function Limit(m: nat, mMax: nat, layer: nat): nat {
    if layer == 0 then mMax else m
  }

  /** Degrees are within the limit, except that nodes in `over` may exceed it by one on `layer`. */
  ghost predicate Degrees<V>(ns: Graph<V>, m: nat, mMax: nat, layer: nat, over: seq<Id>) {
    forall l: nat, u :: Owns(ns, l, u) ==>
      |ns[u].layers[l]| <= Limit(m, mMax, l) + if l == layer && u in over then 1 else 0
  }

  ghost predicate SameShape<V>(ns: Graph<V>, ns': Graph<V>) {
    && ns'.Keys == ns.Keys
    && (forall u :: u in ns ==> ns'[u].vector == ns[u].vector && |ns'[u].layers| == |ns[u].layers|)
  }

  function SetLinks<V>(ns: Graph<V>, u: Id, l: nat, xs: seq<Id>): (r: Graph<V>)
    requires u in ns && l < |ns[u].layers|
    ensures SameShape(ns, r)
    ensures forall l': nat, a :: Owns(ns, l', a) ==>
      r[a].layers[l'] == if a == u && l' == l then xs else ns[a].layers[l']
  {
    ns[u := HnswNode(ns[u].vector, ns[u].layers[l := xs])]
  }

  /** Members of `s` not in `keep`, in order. */
  function Dropped(s: seq<Id>, keep: seq<Id>): (r: seq<Id>)
    ensures forall y :: y in r <==> y in s && y !in keep
  {
    if s == [] then [] else if s[0] in keep then Dropped(s[1..], keep) else [s[0]] + Dropped(s[1..], keep)
  }

  lemma {:induction false} DroppedDistinct(s: seq<Id>, keep: seq<Id>)
    requires Distinct(s)
    ensures Distinct(Dropped(s, keep))
  {
    if s != [] {
      DroppedDistinct(s[1..], keep);
      assert forall i :: 0 <= i < |Dropped(s[1..], keep)| ==> Dropped(s[1..], keep)[i] in s[1..];
    }
  }

  /** Stored members of `xs` with their distance from `from`. */
  function ScoreAll<V>(ns: Graph<V>, metric: (V, V) -> real, from: V, xs: seq<Id>): (r: seq<Scored>)
    ensures forall y :: y in r ==> y.id in xs && y.id in ns && y.dist == metric(from, ns[y.id].vector)
    ensures forall x :: x in xs && x in ns ==> Scored(x, metric(from, ns[x].vector)) in r
  {
    if xs == [] then []
    else
      var rest := ScoreAll(ns, metric, from, xs[1..]);
      if xs[0] in ns then [Scored(xs[0], metric(from, ns[xs[0]].vector))] + rest else rest
  }

  lemma {:induction false} ScoreAllDistinct<V>(ns: Graph<V>, metric: (V, V) -> real, from: V, xs: seq<Id>)
    requires Distinct(xs)
    ensures DistinctIds(ScoreAll(ns, metric, from, xs))
  {
    if xs != [] {
      var rest := ScoreAll(ns, metric, from, xs[1..]);
      ScoreAllDistinct(ns, metric, from, xs[1..]);
      assert forall i :: 0 <= i < |rest| ==> rest[i] in rest && rest[i].id in xs[1..];
    }
  }

  /** The new node `id` links to `xs`, and the first `n` of them have linked back. */
  ghost predicate Linking<V>(ns0: Graph<V>, ns: Graph<V>, id: Id, layer: nat, xs: seq<Id>, n: nat)
    requires n <= |xs|
  {
    && SameShape(ns0, ns)
    && forall l: nat, a :: Owns(ns0, l, a) ==>
         ns[a].layers[l] ==
           if l == layer && a == id then xs
           else if l == layer && a in xs[..n] then ns0[a].layers[l] + [id]
           else ns0[a].layers[l]
  }

  /** Neighbours that can take a link from the new node `id`. */
  ghost predicate Linkable<V>(ns: Graph<V>, id: Id, layer: nat, xs: seq<Id>) {
    && Owns(ns, layer, id) && ns[id].layers[layer] == []
    && Distinct(xs)
    && (forall x :: x in xs ==> x != id && Owns(ns, layer, x))
  }

  lemma {:induction false} UnlinkedNode<V>(ns: Graph<V>, id: Id, layer: nat, u: Id)
    requires Symmetric(ns) && Owns(ns, layer, id) && ns[id].layers[layer] == []
    ensures !Edge(ns, layer, u, id)
  {
    assert Edge(ns, layer, u, id) ==> Edge(ns, layer, id, u);
  }

  /** One more neighbour links back. */
  lemma {:induction false} LinkBack<V>(ns0: Graph<V>, ns: Graph<V>, id: Id, layer: nat, xs: seq<Id>, n: nat)
    requires Symmetric(ns0) && Linkable(ns0, id, layer, xs) && n < |xs| && Linking(ns0, ns, id, layer, xs, n)
    ensures Owns(ns, layer, xs[n]) && id !in ns[xs[n]].layers[layer]
    ensures Linking(ns0, SetLinks(ns, xs[n], layer, ns[xs[n]].layers[layer] + [id]), id, layer, xs, n + 1)
  {
    var x := xs[n];
    assert x in xs && x !in xs[..n];
    UnlinkedNode(ns0, id, layer, x);
    assert xs[..n + 1] == xs[..n] + [x];
    hide Symmetric;
  }

  /** A fully linked node: links are symmetric again and only its neighbours may be overfull. */
  lemma {:induction false} LinkedAll<V>(ns0: Graph<V>, ns: Graph<V>, id: Id, layer: nat, xs: seq<Id>, m: nat, mMax: nat)
    requires Symmetric(ns0) && NoDuplicates(ns0) && Degrees(ns0, m, mMax, layer, [])
    requires Linkable(ns0, id, layer, xs) && |xs| <= Limit(m, mMax, layer)
    requires Linking(ns0, ns, id, layer, xs, |xs|)
    ensures Symmetric(ns) && NoDuplicates(ns) && Degrees(ns, m, mMax, layer, xs)
  {
    LinkedEdges(ns0, ns, id, layer, xs);
    LinkedSymmetric(ns0, ns, id, layer, xs);
    LinkedNoDuplicates(ns0, ns, id, layer, xs);
    assert xs[..|xs|] == xs;
    hide Symmetric, NoDuplicates;
  }

  lemma {:induction false} LinkedEdges<V>(ns0: Graph<V>, ns: Graph<V>, id: Id, layer: nat, xs: seq<Id>)
    requires Linkable(ns0, id, layer, xs) && Linking(ns0, ns, id, layer, xs, |xs|)
    ensures forall l, u, v :: Edge(ns, l, u, v) <==>
      Edge(ns0, l, u, v) || (l == layer && ((u == id && v in xs) || (v == id && u in xs)))
  {
    assert xs[..|xs|] == xs;
    forall l, u, v ensures Edge(ns, l, u, v) <==>
      Edge(ns0, l, u, v) || (l == layer && ((u == id && v in xs) || (v == id && u in xs)))
    {
      assert Owns(ns, l, u) <==> Owns(ns0, l, u);
    }
  }

  lemma {:induction false} LinkedSymmetric<V>(ns0: Graph<V>, ns: Graph<V>, id: Id, layer: nat, xs: seq<Id>)
    requires Symmetric(ns0) && Linkable(ns0, id, layer, xs)
    requires forall l, u, v :: Edge(ns, l, u, v) <==>
      Edge(ns0, l, u, v) || (l == layer && ((u == id && v in xs) || (v == id && u in xs)))
    ensures Symmetric(ns)
  {
    hide Edge, Owns;
  }

  lemma {:induction false} LinkedNoDuplicates<V>(ns0: Graph<V>, ns: Graph<V>, id: Id, layer: nat, xs: seq<Id>)
    requires Symmetric(ns0) && NoDuplicates(ns0)
    requires Linkable(ns0, id, layer, xs) && Linking(ns0, ns, id, layer, xs, |xs|)
    ensures NoDuplicates(ns)
  {
    assert xs[..|xs|] == xs;
    forall l: nat, u | Owns(ns, l, u) ensures Distinct(ns[u].layers[l]) {
      assert Owns(ns0, l, u);
      if l == layer && u in xs && u != id { UnlinkedNode(ns0, id, layer, u); }
    }
  }

  /** Node `nb` kept only `kept`, and the first `n` dropped nodes have forgotten it. */
  ghost predicate Pruning<V>(ns0: Graph<V>, ns: Graph<V>, nb: Id, layer: nat, kept: seq<Id>, dropped: seq<Id>, n: nat)
    requires n <= |dropped|
  {
    && SameShape(ns0, ns)
    && forall l: nat, a :: Owns(ns0, l, a) ==>
         ns[a].layers[l] ==
           if l == layer && a == nb then kept
           else if l == layer && a in dropped[..n] then Without(ns0[a].layers[l], nb)
           else ns0[a].layers[l]
  }

  ghost predicate Splits(xs: seq<Id>, kept: seq<Id>, dropped: seq<Id>) {
    && Distinct(kept) && Distinct(dropped)
    && (forall y :: y in kept ==> y in xs)
    && (forall y :: y in dropped <==> y in xs && y !in kept)
  }

  lemma {:induction false} Unlink<V>(ns0: Graph<V>, ns: Graph<V>, nb: Id, layer: nat, kept: seq<Id>, dropped: seq<Id>,
                                     n: nat)
    requires Symmetric(ns0) && Owns(ns0, layer, nb) && Splits(ns0[nb].layers[layer], kept, dropped)
    requires n < |dropped| && Pruning(ns0, ns, nb, layer, kept, dropped, n)
    ensures Owns(ns, layer, dropped[n])
    ensures Pruning(ns0, SetLinks(ns, dropped[n], layer, Without(ns[dropped[n]].layers[layer], nb)), nb, layer, kept,
                    dropped, n + 1)
  {
    var d := dropped[n];
    assert d in dropped && d !in dropped[..n];
    assert Edge(ns0, layer, nb, d);
    assert Edge(ns0, layer, d, nb);
    assert dropped[..n + 1] == dropped[..n] + [d];
    hide Symmetric, Without;
  }

  /** After pruning, links are symmetric again and `nb` is within the limit. */
  lemma {:induction false} PrunedAll<V>(ns0: Graph<V>, ns: Graph<V>, nb: Id, layer: nat, kept: seq<Id>,
                                        dropped: seq<Id>,
                                        m: nat, mMax: nat, over: seq<Id>)
    requires Symmetric(ns0) && NoDuplicates(ns0) && Degrees(ns0, m, mMax, layer, [nb] + over)
    requires Owns(ns0, layer, nb) && Splits(ns0[nb].layers[layer], kept, dropped) && |kept| <= Limit(m, mMax, layer)
    requires Pruning(ns0, ns, nb, layer, kept, dropped, |dropped|)
    ensures Symmetric(ns) && NoDuplicates(ns) && Degrees(ns, m, mMax, layer, over)
  {
    assert dropped[..|dropped|] == dropped;
    PrunedEdges(ns0, ns, nb, layer, kept, dropped);
    PrunedSymmetric(ns0, ns, nb, layer, dropped);
    forall l: nat, u | Owns(ns, l, u) ensures Distinct(ns[u].layers[l]) {
      assert Owns(ns0, l, u);
      if l == layer && u in dropped && u != nb { WithoutDistinct(ns0[u].layers[l], nb); }
    }
    hide Symmetric;
    forall l: nat, u | Owns(ns, l, u)
      ensures |ns[u].layers[l]| <= Limit(m, mMax, l) + if l == layer && u in over then 1 else 0
    {
      assert Owns(ns0, l, u);
    }
  }

  lemma {:induction false} PrunedEdges<V>(ns0: Graph<V>, ns: Graph<V>, nb: Id, layer: nat, kept: seq<Id>,
                                          dropped: seq<Id>)
    requires Symmetric(ns0) && Owns(ns0, layer, nb) && Splits(ns0[nb].layers[layer], kept, dropped)
    requires Pruning(ns0, ns, nb, layer, kept, dropped, |dropped|)
    ensures forall l, u, v :: Edge(ns, l, u, v) <==>
      Edge(ns0, l, u, v) && !(l == layer && ((u == nb && v in dropped) || (v == nb && u in dropped)))
  {
    assert dropped[..|dropped|] == dropped;
    assert !Edge(ns0, layer, nb, nb);
    assert nb !in dropped;
    hide Symmetric;
    forall l, u, v ensures Edge(ns, l, u, v) <==>
      Edge(ns0, l, u, v) && !(l == layer && ((u == nb && v in dropped) || (v == nb && u in dropped)))
    {
      assert Owns(ns, l, u) <==> Owns(ns0, l, u);
    }
  }

  lemma {:induction false} PrunedSymmetric<V>(ns0: Graph<V>, ns: Graph<V>, nb: Id, layer: nat, dropped: seq<Id>)
    requires Symmetric(ns0)
    requires forall l, u, v :: Edge(ns, l, u, v) <==>
      Edge(ns0, l, u, v) && !(l == layer && ((u == nb && v in dropped) || (v == nb && u in dropped)))
    ensures Symmetric(ns)
  {
    hide Edge, Owns;
  }

  /** Nodes reachable from an owner of a layer own it, and a node without links there is not among them. */
  lemma {:induction false} ReachOwns<V>(ns: Graph<V>, l: nat, ep: Id, v: Id)
    requires Symmetric(ns) && Owns(ns, l, ep) && Reach(ns, l, [ep], v)
    ensures Owns(ns, l, v)
    ensures v == ep || ns[v].layers[l] != []
  {
    var p :| PathFrom(ns, l, [ep], p, v);
    if |p| > 1 {
      assert Edge(ns, l, p[|p| - 2], p[|p| - 1]);
      assert Edge(ns, l, p[|p| - 1], p[|p| - 2]);
    }
  }
}
