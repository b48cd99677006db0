/** How one insertion changes a subtree: kept in one piece, or halved around a promoted key.
    The lemmas lift what happened to a child to what happens to its parent. */
module BTreeGrowth {
  import opened Common
  import opened Node
  import opened BTreeShape

  // --- How much inserting a tree of this size took ---

  /** A non-root leaf was created by a split with ORDER keys; deletes may have emptied it since. */
  ghost function Weight(t: Tree): nat
    decreases t
  {
    match t
    case TLeaf(_, keys, _, _) => if |keys| < ORDER then ORDER else |keys|
    case TNode(_, _, kids) => WeightOf(kids)
  }

  ghost function WeightOf(kids: seq<Tree>): nat
    decreases kids
  {
    if kids == [] then 0 else Weight(kids[0]) + WeightOf(kids[1..])
  }

  lemma {:induction false} WeightOfConcat(a: seq<Tree>, b: seq<Tree>)
    ensures WeightOf(a + b) == WeightOf(a) + WeightOf(b)
  {
    if a == [] {
      assert a + b == b;
    } else {
      assert (a + b)[0] == a[0] && (a + b)[1..] == a[1..] + b;
      WeightOfConcat(a[1..], b);
    }
  }

  lemma {:induction false} WeightAround(kids: seq<Tree>, c: nat)
    requires c < |kids|
    ensures WeightOf(kids) == WeightOf(kids[..c]) + Weight(kids[c]) + WeightOf(kids[c + 1..])
  {
    assert kids == kids[..c] + kids[c..];
    WeightOfConcat(kids[..c], kids[c..]);
    assert kids[c..][1..] == kids[c + 1..];
  }

  lemma {:induction false} WeightReplace(kids: seq<Tree>, c: nat, l: Tree)
    requires c < |kids|
    ensures WeightOf(kids[c := l]) + Weight(kids[c]) == WeightOf(kids) + Weight(l)
  {
    var kids' := kids[c := l];
    WeightAround(kids, c);
    WeightAround(kids', c);
    assert kids'[..c] == kids[..c] && kids'[c + 1..] == kids[c + 1..];
  }

  lemma {:induction false} WeightInserted(kids: seq<Tree>, c: nat, r: Tree)
    requires c <= |kids|
    ensures WeightOf(Inserted(kids, c, r)) == WeightOf(kids) + Weight(r)
  {
    var kids' := Inserted(kids, c, r);
    WeightAround(kids', c);
    assert kids'[..c] == kids[..c] && kids'[c + 1..] == kids[c..];
    assert kids == kids[..c] + kids[c..];
    WeightOfConcat(kids[..c], kids[c..]);
  }

  function Pow4(n: nat): nat { if n == 0 then 1 else 4 * Pow4(n - 1) }

  /** Every leaf accounts for at least ORDER insertions. */
  lemma {:induction false} WeightCoversLeaves(t: Tree)
    ensures Weight(t) >= ORDER * |Leaves(t)|
    decreases t
  {
    if t.TNode? { WeightCoversLeavesOf(t.kids); }
  }

  lemma {:induction false} WeightCoversLeavesOf(kids: seq<Tree>)
    ensures WeightOf(kids) >= ORDER * |LeavesOf(kids)|
    decreases kids
  {
    if kids != [] {
      WeightCoversLeaves(kids[0]);
      WeightCoversLeavesOf(kids[1..]);
    }
  }

  /** Non-root nodes with ORDER children make the leaf count exponential in the height. */
  lemma {:induction false} ManyLeaves(t: Tree, ns: map<PageId, BTreeNode>, h: nat, lo: int, hi: int,
                                      end: Option<PageId>)
    requires Good(t, ns, h, lo, hi, end)
    ensures HalfFull(t) ==> |Leaves(t)| >= Pow4(h)
    ensures h > 0 ==> |Leaves(t)| >= 2 * Pow4(h - 1)
    decreases t
  {
    hide Good, GoodKids;
    if t.TNode? {
      NodeParts(t, ns, h, lo, hi, end);
      ManyLeavesOf(t.keys, t.kids, ns, h - 1, lo, hi, end, 0);
      assert t.kids[0..] == t.kids;
      TimesAtLeast(|t.kids|, Pow4(h - 1));
    } else {
      LeafParts(t, ns, h, lo, hi, end);
      assert Leaves(t) == [t];
    }
  }

  lemma {:induction false} KidHalfFull(keys: seq<int>, kids: seq<Tree>, ns: map<PageId, BTreeNode>, h: nat,
                                       lo: int, hi: int, end: Option<PageId>, i: nat)
    requires i < |kids|
    requires GoodKids(keys, kids, ns, h, lo, hi, end)
    ensures HalfFull(kids[i])
  {
    hide Good, Disjoint, First;
  }

  lemma {:induction false} LeavesFrom(kids: seq<Tree>, i: nat)
    requires i < |kids|
    ensures LeavesOf(kids[i..]) == Leaves(kids[i]) + LeavesOf(kids[i + 1..])
  {
    assert kids[i..][0] == kids[i] && kids[i..][1..] == kids[i + 1..];
  }

  ghost function Times(n: nat, x: nat): nat {
    if n == 0 then 0 else x + Times(n - 1, x)
  }

  lemma {:induction false} TimesAtLeast(n: nat, x: nat)
    ensures n >= 2 ==> Times(n, x) >= 2 * x
    ensures n >= 4 ==> Times(n, x) >= 4 * x
  {
    if n >= 2 {
      assert Times(n, x) == x + x + Times(n - 2, x);
      if n >= 4 { assert Times(n - 2, x) == x + x + Times(n - 4, x); }
    }
  }

  lemma {:induction false} TimesStep(n: nat, x: nat)
    ensures Times(n, x) == if n == 0 then 0 else x + Times(n - 1, x)
  {
  }

  lemma {:induction false} ManyLeavesOf(keys: seq<int>, kids: seq<Tree>, ns: map<PageId, BTreeNode>, h: nat,
                                        lo: int, hi: int, end: Option<PageId>, i: nat)
    requires i <= |kids|
    requires GoodKids(keys, kids, ns, h, lo, hi, end)
    ensures |LeavesOf(kids[i..])| >= Times(|kids| - i, Pow4(h))
    decreases kids, |kids| - i
  {
    hide *;
    TimesStep(|kids| - i, Pow4(h));
    if i < |kids| {
      KidGood(keys, kids, ns, h, lo, hi, end, i);
      KidHalfFull(keys, kids, ns, h, lo, hi, end, i);
      ManyLeaves(kids[i], ns, h, Lo(keys, lo, i), Hi(keys, hi, i), End(kids, end, i));
      ManyLeavesOf(keys, kids, ns, h, lo, hi, end, i + 1);
      LeavesFrom(kids, i);
    }
  }

  // --- Insertion into a subtree ---

  ghost predicate HasOneMore(t: Tree, l: Tree, key: int, rid: Rid) {
    forall k, x :: Has(l, k, x) <==> Has(t, k, x) || (k == key && x == rid)
  }

  ghost predicate BothHaveOneMore(t: Tree, l: Tree, r: Tree, key: int, rid: Rid) {
    forall k, x :: Has(l, k, x) || Has(r, k, x) <==> Has(t, k, x) || (k == key && x == rid)
  }

  ghost predicate Grown(t: Tree, l: Tree) {
    && (t.TNode? ==> l.TNode? && |l.kids| >= |t.kids|)
    && (t.TLeaf? ==> l.TLeaf? && |l.keys| == |t.keys| + 1)
  }

  /** `t` became `l` without splitting. */
  ghost predicate Kept(t: Tree, ns': map<PageId, BTreeNode>, h: nat, lo: int, hi: int, end: Option<PageId>,
                       l: Tree, key: int, rid: Rid, from: PageId, to: PageId) {
    && Good(l, ns', h, lo, hi, end)
    && SameSpot(t, l, from, to)
    && Grown(t, l)
    && HasOneMore(t, l, key, rid)
    && Weight(l) <= Weight(t) + 1
  }

  /** `t` split into `l`, on its own page, and `r`, around the promoted key `pk`. */
  ghost predicate Halved(t: Tree, ns': map<PageId, BTreeNode>, h: nat, lo: int, hi: int, end: Option<PageId>,
                         l: Tree, r: Tree, pk: int, key: int, rid: Rid, from: PageId, to: PageId) {
    && lo < pk < hi
    && Good(l, ns', h, lo, pk, Some(First(r)))
    && Good(r, ns', h, pk, hi, end)
    && SameSpot(t, l, from, to)
    && (forall id: PageId :: InTree(r, id) ==> InTree(t, id) || from <= id < to)
    && Disjoint(l, r)
    && HalfFull(l) && HalfFull(r)
    && BothHaveOneMore(t, l, r, key, rid)
    && Weight(l) + Weight(r) <= Weight(t) + 1
    && (t.TLeaf? ==> l.TLeaf? && r.TLeaf? && |t.keys| + 1 == 2 * ORDER == Weight(l) + Weight(r))
  }

  /** `GoodKids` reads only the nodes of the children. */
  lemma {:induction false} KidsFrame(keys: seq<int>, kids: seq<Tree>, ns: map<PageId, BTreeNode>,
                                     ns': map<PageId, BTreeNode>,
                                     h: nat, lo: int, hi: int, end: Option<PageId>)
    requires forall i, id :: 0 <= i < |kids| && InTree(kids[i], id) && id in ns ==> id in ns' && ns'[id] == ns[id]
    requires GoodKids(keys, kids, ns, h, lo, hi, end)
    ensures GoodKids(keys, kids, ns', h, lo, hi, end)
  {
    hide Good, InTree, Disjoint, First, HalfFull;
    forall i | 0 <= i < |kids|
      ensures Good(kids[i], ns', h, Lo(keys, lo, i), Hi(keys, hi, i), End(kids, end, i))
    {
      GoodFrame(kids[i], ns, ns', h, Lo(keys, lo, i), Hi(keys, hi, i), End(kids, end, i));
    }
  }

  /** The child kept its place: so does the parent. */
  lemma {:induction false} NodeKept(t: Tree, ns: map<PageId, BTreeNode>, ns': map<PageId, BTreeNode>, h: nat, lo: int,
                                    hi: int,
                                    end: Option<PageId>, c: nat, l: Tree, key: int, rid: Rid, from: PageId, to: PageId)
    requires Below(ns, from) && t.TNode? && h > 0
    requires |t.kids| == |t.keys| + 1 && c < |t.kids|
    requires ChangedOnly(t.kids[c], ns, ns')
    requires Good(t, ns, h, lo, hi, end)
    requires Kept(t.kids[c], ns', h - 1, Lo(t.keys, lo, c), Hi(t.keys, hi, c), End(t.kids, end, c), l, key, rid, from,
                  to)
    ensures Kept(t, ns'[t.id := Internal(t.keys, IdSeq(t.kids))], h, lo, hi, end,
                 TNode(t.id, t.keys, t.kids[c := l]), key, rid, from, to)
  {
    hide Good, GoodKids, InTree, Has, Weight, First, HalfFull;
    NodeParts(t, ns, h, lo, hi, end);
    var kids' := t.kids[c := l];
    var t' := TNode(t.id, t.keys, kids');
    var ns'' := ns'[t.id := Internal(t.keys, IdSeq(t.kids))];
    assert IdSeq(kids') == IdSeq(t.kids);
    KidsReplaceHalf(t.keys, t.kids, ns, ns', h - 1, lo, hi, end, c, l, from, to);
    assert t.id < from;
    SpotInNode(t, c, l, from, to);
    KidsFrame(t.keys, kids', ns', ns'', h - 1, lo, hi, end);
    MakeNode(t.id, t.keys, kids', ns'', h - 1, lo, hi, end);
    assert HasOneMore(t, t', key, rid) by { HasReplaced(t, c, l, key, rid); }
    assert Weight(t') <= Weight(t) + 1 by { WeightReplace(t.kids, c, l); NodeWeight(t); NodeWeight(t'); }
  }

  lemma {:induction false} NodeWeight(t: Tree)
    requires t.TNode?
    ensures Weight(t) == WeightOf(t.kids)
  {
  }

  lemma {:induction false} HasReplaced(t: Tree, c: nat, l: Tree, key: int, rid: Rid)
    requires t.TNode? && c < |t.kids| && HasOneMore(t.kids[c], l, key, rid)
    ensures HasOneMore(t, TNode(t.id, t.keys, t.kids[c := l]), key, rid)
  {
    var kids' := t.kids[c := l];
    var t' := TNode(t.id, t.keys, kids');
    forall k, x ensures Has(t', k, x) <==> Has(t, k, x) || (k == key && x == rid) {
      if Has(t, k, x) {
        var i :| 0 <= i < |t.kids| && Has(t.kids[i], k, x);
        assert Has(kids'[i], k, x);
      }
      if k == key && x == rid { assert Has(kids'[c], k, x); }
      if Has(t', k, x) {
        var i :| 0 <= i < |kids'| && Has(kids'[i], k, x);
        assert i != c ==> Has(t.kids[i], k, x);
        assert i == c ==> Has(l, k, x);
      }
    }
  }

  /** What a node holds after one child became two. */
  lemma {:induction false} HasSplit(t: Tree, c: nat, l: Tree, r: Tree, key: int, rid: Rid, t': Tree)
    requires t.TNode? && c < |t.kids| && BothHaveOneMore(t.kids[c], l, r, key, rid)
    requires t'.TNode? && |t'.kids| == |t.kids| + 1 && t'.kids[c] == l && t'.kids[c + 1] == r
    requires forall i :: 0 <= i < c ==> t'.kids[i] == t.kids[i]
    requires forall i :: c + 1 < i < |t'.kids| ==> t'.kids[i] == t.kids[i - 1]
    ensures HasOneMore(t, t', key, rid)
  {
    forall k, x ensures Has(t', k, x) <==> Has(t, k, x) || (k == key && x == rid) {
      if Has(t, k, x) {
        var i :| 0 <= i < |t.kids| && Has(t.kids[i], k, x);
        if i < c { assert Has(t'.kids[i], k, x); }
        if i == c { assert Has(t'.kids[c], k, x) || Has(t'.kids[c + 1], k, x); }
        if i > c { assert t'.kids[i + 1] == t.kids[i]; }
      }
      if k == key && x == rid { assert Has(t'.kids[c], k, x) || Has(t'.kids[c + 1], k, x); }
      if Has(t', k, x) {
        var i :| 0 <= i < |t'.kids| && Has(t'.kids[i], k, x);
        if i < c { assert Has(t.kids[i], k, x); }
        if i == c || i == c + 1 { assert Has(l, k, x) || Has(r, k, x); }
        if i > c + 1 { assert Has(t.kids[i - 1], k, x); }
      }
    }
  }

  lemma {:induction false} InsertedSplits(keys: seq<int>, kids: seq<Tree>, c: nat, pk: int, l: Tree, r: Tree,
                                          keys': seq<int>, kids': seq<Tree>)
    requires |kids| == |keys| + 1 && c < |kids|
    requires keys' == Inserted(keys, c, pk) && kids' == Inserted(kids[c := l], c + 1, r)
    ensures SplitAt(keys, kids, c, pk, l, r, keys', kids')
    ensures |keys'| == |keys| + 1 && |kids'| == |kids| + 1 && kids'[c] == l && kids'[c + 1] == r
    ensures forall i :: 0 <= i < c ==> kids'[i] == kids[i]
    ensures forall i :: c + 1 < i < |kids'| ==> kids'[i] == kids[i - 1]
  {
    hide Inserted;
  }

  lemma {:induction false} HalvedParts(t: Tree, ns': map<PageId, BTreeNode>, h: nat, lo: int, hi: int,
                                       end: Option<PageId>,
                                       l: Tree, r: Tree, pk: int, key: int, rid: Rid, from: PageId, to: PageId)
    requires Halved(t, ns', h, lo, hi, end, l, r, pk, key, rid, from, to)
    ensures lo < pk < hi && Good(l, ns', h, lo, pk, Some(First(r))) && Good(r, ns', h, pk, hi, end)
    ensures SameSpot(t, l, from, to) && Disjoint(l, r) && HalfFull(l) && HalfFull(r) &&
            BothHaveOneMore(t, l, r, key, rid)
    ensures forall id: PageId :: InTree(r, id) ==> InTree(t, id) || from <= id < to
    ensures Weight(l) + Weight(r) <= Weight(t) + 1
  {
    hide Good, Has, InTree, Weight, First, SameSpot, Disjoint, HalfFull, BothHaveOneMore;
  }

  lemma {:induction false} BelowAt(ns: map<PageId, BTreeNode>, id: PageId, bound: PageId)
    requires Below(ns, bound) && id in ns
    ensures id < bound
  {
  }

  /** The child halved: the parent's child list with one more separator is good, still in the
      heap where the parent itself has not been rewritten. */
  lemma {:induction false} NodeTakesSplit(t: Tree, ns: map<PageId, BTreeNode>, ns': map<PageId, BTreeNode>, h: nat,
                                          lo: int, hi: int,
                                          end: Option<PageId>, c: nat, l: Tree, r: Tree, pk: int, key: int, rid: Rid,
                                          from: PageId, to: PageId, keys': seq<int>, kids': seq<Tree>)
    requires Below(ns, from) && t.TNode? && h > 0
    requires |t.kids| == |t.keys| + 1 && c < |t.kids|
    requires ChangedOnly(t.kids[c], ns, ns')
    requires keys' == Inserted(t.keys, c, pk) && kids' == Inserted(t.kids[c := l], c + 1, r)
    requires Good(t, ns, h, lo, hi, end)
    requires Halved(t.kids[c], ns', h - 1, Lo(t.keys, lo, c), Hi(t.keys, hi, c), End(t.kids, end, c), l, r, pk, key,
                    rid, from, to)
    ensures GoodKids(keys', kids', ns', h - 1, lo, hi, end)
    ensures forall i :: 0 <= i < |kids'| ==> !InTree(kids'[i], t.id)
    ensures SameSpot(t, TNode(t.id, keys', kids'), from, to)
    ensures HasOneMore(t, TNode(t.id, keys', kids'), key, rid)
    ensures WeightOf(kids') <= Weight(t) + 1
  {
    hide *;
    NodeParts(t, ns, h, lo, hi, end);
    InsertedSplits(t.keys, t.kids, c, pk, l, r, keys', kids');
    HalvedParts(t.kids[c], ns', h - 1, Lo(t.keys, lo, c), Hi(t.keys, hi, c), End(t.kids, end, c), l, r, pk, key, rid,
                from, to);
    KidsSplit(t.keys, t.kids, ns, ns', h - 1, lo, hi, end, c, l, r, pk, from, to, keys', kids');
    BelowAt(ns, t.id, from);
    SplitSpot(t, c, l, r, from, to, keys', kids');
    HasSplit(t, c, l, r, key, rid, TNode(t.id, keys', kids'));
    WeightReplace(t.kids, c, l);
    WeightInserted(t.kids[c := l], c + 1, r);
    NodeWeight(t);
  }

  lemma {:induction false} SplitSpot(t: Tree, c: nat, l: Tree, r: Tree, from: PageId, to: PageId,
                                     keys': seq<int>, kids': seq<Tree>)
    requires t.TNode? && c < |t.kids| && SameSpot(t.kids[c], l, from, to)
    requires forall id: PageId :: InTree(r, id) ==> InTree(t.kids[c], id) || from <= id < to
    requires forall i :: 0 <= i < |t.kids| ==> !InTree(t.kids[i], t.id)
    requires t.id < from
    requires |kids'| == |t.kids| + 1 && kids'[c] == l && kids'[c + 1] == r
    requires forall i :: 0 <= i < c ==> kids'[i] == t.kids[i]
    requires forall i :: c + 1 < i < |kids'| ==> kids'[i] == t.kids[i - 1]
    ensures SameSpot(t, TNode(t.id, keys', kids'), from, to)
    ensures forall i :: 0 <= i < |kids'| ==> !InTree(kids'[i], t.id)
  {
    var t' := TNode(t.id, keys', kids');
    forall i, id: PageId | 0 <= i < |kids'| && InTree(kids'[i], id)
      ensures from <= id < to || exists j :: 0 <= j < |t.kids| && InTree(t.kids[j], id)
    {
      hide First;
      if i < c { assert InTree(t.kids[i], id); }
      else if i > c + 1 { assert InTree(t.kids[i - 1], id); }
    }
    forall id: PageId | InTree(t', id) ensures InTree(t, id) || from <= id < to {
      if id != t.id {
        var i :| 0 <= i < |kids'| && InTree(kids'[i], id);
      }
    }
    assert First(t') == First(t);
  }

  /** The parent has room for the new separator. */
  lemma {:induction false} NodeKeptSplit(t: Tree, ns': map<PageId, BTreeNode>, h: nat, lo: int, hi: int,
                                         end: Option<PageId>,
                                         key: int, rid: Rid, from: PageId, to: PageId, keys': seq<int>,
                                         kids': seq<Tree>)
    requires 1 <= |keys'| < 2 * ORDER
    requires t.TNode? && h > 0 && lo < hi && |kids'| >= |t.kids|
    requires forall i :: 0 <= i < |kids'| ==> !InTree(kids'[i], t.id)
    requires SameSpot(t, TNode(t.id, keys', kids'), from, to)
    requires HasOneMore(t, TNode(t.id, keys', kids'), key, rid)
    requires WeightOf(kids') <= Weight(t) + 1
    requires GoodKids(keys', kids', ns', h - 1, lo, hi, end)
    ensures Kept(t, ns'[t.id := Internal(keys', IdSeq(kids'))], h, lo, hi, end, TNode(t.id, keys', kids'), key, rid,
                 from, to)
  {
    hide Good, GoodKids, InTree, Has, Weight, WeightOf, First;
    var ns'' := ns'[t.id := Internal(keys', IdSeq(kids'))];
    KidsFrame(keys', kids', ns', ns'', h - 1, lo, hi, end);
    MakeNode(t.id, keys', kids', ns'', h - 1, lo, hi, end);
    NodeWeight(TNode(t.id, keys', kids'));
  }

  /** The parent overflowed: it halves around its own middle separator. */
  lemma {:induction false} NodeHalves(t: Tree, ns': map<PageId, BTreeNode>, ns'': map<PageId, BTreeNode>, h: nat,
                                      lo: int, hi: int,
                                      end: Option<PageId>, key: int, rid: Rid, from: PageId, to: PageId,
                                      keys': seq<int>, kids': seq<Tree>, mid: nat, l: Tree, r: Tree)
    requires |keys'| == 2 * ORDER && mid == ORDER && |kids'| == |keys'| + 1
    requires t.TNode? && h > 0 && lo < hi
    requires forall i :: 0 <= i < |kids'| ==> !InTree(kids'[i], t.id)
    requires SameSpot(t, TNode(t.id, keys', kids'), from, to) && t.id < from
    requires HasOneMore(t, TNode(t.id, keys', kids'), key, rid)
    requires WeightOf(kids') <= Weight(t) + 1
    requires Below(ns', to)
    requires l == TNode(t.id, keys'[..mid], kids'[..mid + 1]) && r == TNode(to, keys'[mid + 1..], kids'[mid + 1..])
    requires ns'' == ns'[to := Internal(r.keys, IdSeq(r.kids))][t.id := Internal(l.keys, IdSeq(l.kids))]
    requires from <= to
    requires GoodKids(keys', kids', ns', h - 1, lo, hi, end)
    ensures Halved(t, ns'', h, lo, hi, end, l, r, keys'[mid], key, rid, from, to + 1)
  {
    assert ORDER == 4;
    hide *;
    HalvesFresh(keys', kids', ns', h - 1, lo, hi, end, to);
    HalvesDisjoint(keys', kids', ns', h - 1, lo, hi, end, mid, l, r);
    SeparatorInside(keys', kids', ns', h - 1, lo, hi, end, mid);
    HalvesHas(t, keys', kids', key, rid, mid, l, r);
    HalvesSpot(t, keys', kids', mid, l, r, from, to);
    HalvesGood(keys', kids', ns', ns'', h - 1, lo, hi, end, mid, l, r);
    HalvesWeigh(kids', mid, l, r);
    MakeHalved(t, ns'', h, lo, hi, end, key, rid, from, to + 1, l, r, keys'[mid]);
  }

  /** One half, whose children are `kids` from `at` on, after both pages were written. */
  lemma {:induction false} HalfGood(l: Tree, own: seq<Tree>, kids: seq<Tree>, at: nat, ns: map<PageId, BTreeNode>,
                                    ns': map<PageId, BTreeNode>,
                                    h: nat, lo: int, hi: int, end: Option<PageId>, other: PageId)
    requires l.TNode? && l.kids == own && 1 <= |l.keys| < 2 * ORDER && lo < hi
    requires at + |own| <= |kids| && own == kids[at..at + |own|]
    requires l.id in ns' && ns'[l.id] == Internal(l.keys, IdSeq(l.kids))
    requires forall id :: id in ns && id != l.id && id != other ==> id in ns' && ns'[id] == ns[id]
    requires forall i :: 0 <= i < |kids| ==> !InTree(kids[i], l.id) && !InTree(kids[i], other)
    requires GoodKids(l.keys, l.kids, ns, h, lo, hi, end)
    ensures Good(l, ns', h + 1, lo, hi, end)
  {
    hide Good, GoodKids, InTree, IdSeq;
    assert forall i :: 0 <= i < |own| ==> own[i] == kids[at + i];
    KidsFrame(l.keys, l.kids, ns, ns', h, lo, hi, end);
    MakeNode(l.id, l.keys, l.kids, ns', h, lo, hi, end);
  }

  lemma {:induction false} HalvesGood(keys: seq<int>, kids: seq<Tree>, ns: map<PageId, BTreeNode>,
                                      ns': map<PageId, BTreeNode>,
                                      h: nat, lo: int, hi: int, end: Option<PageId>, mid: nat, l: Tree, r: Tree)
    requires 1 <= mid && mid + 1 < |keys| < 2 * mid + 2 <= 2 * ORDER + 2 && |kids| == |keys| + 1
    requires l.TNode? && r.TNode? && l.id != r.id && lo < keys[mid] < hi
    requires l.keys == keys[..mid] && l.kids == kids[..mid + 1] && r.keys == keys[mid + 1..] &&
             r.kids == kids[mid + 1..]
    requires ns' == ns[r.id := Internal(r.keys, IdSeq(r.kids))][l.id := Internal(l.keys, IdSeq(l.kids))]
    requires forall i :: 0 <= i < |kids| ==> !InTree(kids[i], l.id) && !InTree(kids[i], r.id)
    requires GoodKids(keys, kids, ns, h, lo, hi, end)
    ensures Good(l, ns', h + 1, lo, keys[mid], Some(First(kids[mid + 1])))
    ensures Good(r, ns', h + 1, keys[mid], hi, end)
  {
    assert ORDER == 4;
    hide *;
    KidsCut(keys, kids, ns, h, lo, hi, end, mid);
    HalfGood(l, kids[..mid + 1], kids, 0, ns, ns', h, lo, keys[mid], Some(First(kids[mid + 1])), r.id);
    HalfGood(r, kids[mid + 1..], kids, mid + 1, ns, ns', h, keys[mid], hi, end, l.id);
  }

  lemma {:induction false} MakeHalved(t: Tree, ns: map<PageId, BTreeNode>, h: nat, lo: int, hi: int,
                                      end: Option<PageId>,
                                      key: int, rid: Rid, from: PageId, to: PageId, l: Tree, r: Tree, pk: int)
    requires t.TNode? && l.TNode? && r.TNode? && |l.kids| >= ORDER && |r.kids| >= ORDER && lo < pk < hi
    requires SameSpot(t, l, from, to) && Disjoint(l, r) && BothHaveOneMore(t, l, r, key, rid)
    requires forall id: PageId :: InTree(r, id) ==> InTree(t, id) || from <= id < to
    requires Weight(l) + Weight(r) <= Weight(t) + 1
    requires Good(l, ns, h, lo, pk, Some(First(r))) && Good(r, ns, h, pk, hi, end)
    ensures Halved(t, ns, h, lo, hi, end, l, r, pk, key, rid, from, to)
  {
    hide Good, SameSpot, Disjoint, BothHaveOneMore, InTree, Weight;
  }

  lemma {:induction false} SeparatorInside(keys: seq<int>, kids: seq<Tree>, ns: map<PageId, BTreeNode>, h: nat, lo: int,
                                           hi: int,
                                           end: Option<PageId>, mid: nat)
    requires mid < |keys|
    requires GoodKids(keys, kids, ns, h, lo, hi, end)
    ensures lo < keys[mid] < hi
  {
    hide Good, InTree, Disjoint;
    assert keys[mid] in keys;
  }

  lemma {:induction false} HalvesWeigh(kids: seq<Tree>, mid: nat, l: Tree, r: Tree)
    requires mid + 1 <= |kids| && l.TNode? && r.TNode? && l.kids == kids[..mid + 1] && r.kids == kids[mid + 1..]
    ensures Weight(l) + Weight(r) == WeightOf(kids)
  {
    assert kids == l.kids + r.kids;
    WeightOfConcat(l.kids, r.kids);
  }

  /** Nothing stored lives on the page about to be allocated. */
  lemma {:induction false} HalvesFresh(keys: seq<int>, kids: seq<Tree>, ns: map<PageId, BTreeNode>, h: nat, lo: int,
                                       hi: int,
                                       end: Option<PageId>, to: PageId)
    requires Below(ns, to)
    requires GoodKids(keys, kids, ns, h, lo, hi, end)
    ensures forall i :: 0 <= i < |kids| ==> !InTree(kids[i], to)
  {
    hide Good, GoodKids, InTree;
    forall i | 0 <= i < |kids| ensures !InTree(kids[i], to) {
      KidGood(keys, kids, ns, h, lo, hi, end, i);
      if InTree(kids[i], to) {
        GoodStored(kids[i], ns, h, Lo(keys, lo, i), Hi(keys, hi, i), End(kids, end, i), to);
      }
    }
  }

  lemma {:induction false} KidsApart(keys: seq<int>, kids: seq<Tree>, ns: map<PageId, BTreeNode>, h: nat, lo: int,
                                     hi: int,
                                     end: Option<PageId>, i: nat, j: nat, id: PageId)
    requires i < j < |kids| && InTree(kids[i], id)
    requires GoodKids(keys, kids, ns, h, lo, hi, end)
    ensures !InTree(kids[j], id)
  {
    hide Good, InTree;
    assert Disjoint(kids[i], kids[j]);
  }

  lemma {:induction false} InNode(t: Tree, id: PageId)
    requires t.TNode?
    ensures InTree(t, id) <==> id == t.id || exists i :: 0 <= i < |t.kids| && InTree(t.kids[i], id)
  {
  }

  lemma {:induction false} HalvesDisjoint(keys: seq<int>, kids: seq<Tree>, ns: map<PageId, BTreeNode>, h: nat, lo: int,
                                          hi: int,
                                          end: Option<PageId>, mid: nat, l: Tree, r: Tree)
    requires mid + 1 < |kids|
    requires l.TNode? && r.TNode? && l.kids == kids[..mid + 1] && r.kids == kids[mid + 1..] && l.id != r.id
    requires forall i :: 0 <= i < |kids| ==> !InTree(kids[i], l.id) && !InTree(kids[i], r.id)
    requires GoodKids(keys, kids, ns, h, lo, hi, end)
    ensures Disjoint(l, r)
  {
    hide Good, GoodKids, InTree;
    forall id | InTree(l, id) ensures !InTree(r, id) {
      InNode(l, id);
      InNode(r, id);
      if id == l.id {
        assert forall j :: 0 <= j < |r.kids| ==> r.kids[j] == kids[mid + 1 + j];
      } else {
        var i :| 0 <= i < |l.kids| && InTree(l.kids[i], id);
        assert l.kids[i] == kids[i];
        forall j | 0 <= j < |r.kids| ensures !InTree(r.kids[j], id) {
          assert r.kids[j] == kids[mid + 1 + j];
          KidsApart(keys, kids, ns, h, lo, hi, end, i, mid + 1 + j, id);
        }
      }
    }
  }

  lemma {:induction false} HalvesHas(t: Tree, keys: seq<int>, kids: seq<Tree>, key: int, rid: Rid, mid: nat, l: Tree,
                                     r: Tree)
    requires t.TNode? && HasOneMore(t, TNode(t.id, keys, kids), key, rid) && mid + 1 <= |kids|
    requires l.TNode? && r.TNode? && l.kids == kids[..mid + 1] && r.kids == kids[mid + 1..]
    ensures BothHaveOneMore(t, l, r, key, rid)
  {
    var t' := TNode(t.id, keys, kids);
    forall k, x ensures Has(l, k, x) || Has(r, k, x) <==> Has(t', k, x) {
      if Has(l, k, x) {
        var i :| 0 <= i < |l.kids| && Has(l.kids[i], k, x);
        assert kids[i] == l.kids[i];
      }
      if Has(r, k, x) {
        var i :| 0 <= i < |r.kids| && Has(r.kids[i], k, x);
        assert kids[mid + 1 + i] == r.kids[i];
      }
      if Has(t', k, x) {
        var i :| 0 <= i < |kids| && Has(kids[i], k, x);
        if i <= mid { assert l.kids[i] == kids[i]; } else { assert r.kids[i - mid - 1] == kids[i]; }
      }
    }
  }

  lemma {:induction false} HalvesSpot(t: Tree, keys: seq<int>, kids: seq<Tree>, mid: nat, l: Tree, r: Tree,
                                      from: PageId, to: PageId)
    requires t.TNode? && mid + 1 < |kids|
    requires SameSpot(t, TNode(t.id, keys, kids), from, to)
    requires forall i :: 0 <= i < |kids| ==> !InTree(kids[i], t.id)
    requires l.TNode? && r.TNode? && l.kids == kids[..mid + 1] && r.kids == kids[mid + 1..] && l.id == t.id &&
             r.id == to
    requires from <= to
    ensures SameSpot(t, l, from, to + 1)
    ensures forall id: PageId :: InTree(r, id) ==> InTree(t, id) || from <= id < to + 1
    ensures First(r) == First(kids[mid + 1])
  {
    var t' := TNode(t.id, keys, kids);
    forall id: PageId | InTree(l, id) ensures InTree(t', id) {
      if id != l.id {
        var i :| 0 <= i < |l.kids| && InTree(l.kids[i], id);
        assert kids[i] == l.kids[i];
      }
    }
    forall id: PageId | InTree(r, id) ensures id == to || InTree(t', id) {
      if id != r.id {
        var i :| 0 <= i < |r.kids| && InTree(r.kids[i], id);
        assert kids[mid + 1 + i] == r.kids[i];
      }
    }
    assert First(l) == First(t') by { assert l.kids[0] == kids[0]; }
    assert r.kids[0] == kids[mid + 1];
  }

  // --- Leaves ---

  lemma {:induction false} InsertedLeafHas(keys: seq<int>, rids: seq<Rid>, p: nat, key: int, rid: Rid, keys': seq<int>,
                                           rids': seq<Rid>)
    requires |keys| == |rids| && p <= |keys|
    requires keys' == Inserted(keys, p, key) && rids' == Inserted(rids, p, rid)
    ensures forall k, x :: LeafHas(keys', rids', k, x) <==> LeafHas(keys, rids, k, x) || (k == key && x == rid)
  {
    hide Inserted;
    forall k, x ensures LeafHas(keys', rids', k, x) <==> LeafHas(keys, rids, k, x) || (k == key && x == rid) {
      if LeafHas(keys', rids', k, x) {
        var i :| 0 <= i < |keys'| && keys'[i] == k && rids'[i] == x;
        if i < p { assert keys[i] == k && rids[i] == x; } else if i > p { assert keys[i - 1] == k && rids[i - 1] == x; }
      }
      if LeafHas(keys, rids, k, x) {
        var i :| 0 <= i < |keys| && keys[i] == k && rids[i] == x;
        if i < p { assert keys'[i] == k && rids'[i] == x; } else { assert keys'[i + 1] == k && rids'[i + 1] == x; }
      }
      if k == key && x == rid { assert keys'[p] == k && rids'[p] == x; }
    }
  }

  lemma {:induction false} InsertedLeaf(keys: seq<int>, rids: seq<Rid>, lo: int, hi: int, key: int, rid: Rid,
                                        keys': seq<int>, rids': seq<Rid>)
    requires |keys| == |rids| && Ascending(keys) && (forall k :: k in keys ==> lo <= k < hi) && lo <= key < hi &&
             key !in keys
    requires keys' == Inserted(keys, InsertPosition(keys, key), key) &&
             rids' == Inserted(rids, InsertPosition(keys, key), rid)
    ensures Ascending(keys') && forall k :: k in keys' ==> lo <= k < hi
    ensures forall k, x :: LeafHas(keys', rids', k, x) <==> LeafHas(keys, rids, k, x) || (k == key && x == rid)
  {
    var p := InsertPosition(keys, key);
    hide Inserted, InsertPosition;
    forall j | p <= j < |keys| ensures key < keys[j] { assert keys[j] in keys; }
    forall k | k in keys' ensures lo <= k < hi {
      var i :| 0 <= i < |keys'| && keys'[i] == k;
      if i < p { assert keys[i] in keys; } else if i > p { assert keys[i - 1] in keys; }
    }
    InsertedLeafHas(keys, rids, p, key, rid, keys', rids');
  }

  /** A leaf with room takes the entry in place. */
  lemma {:induction false} LeafKept(t: Tree, ns: map<PageId, BTreeNode>, h: nat, lo: int, hi: int, end: Option<PageId>,
                                    key: int, rid: Rid, from: PageId, to: PageId, l: Tree)
    requires t.TLeaf? && lo <= key < hi && key !in t.keys && |t.keys| == |t.rids|
    requires var p := InsertPosition(t.keys, key);
             l == TLeaf(t.id, Inserted(t.keys, p, key), Inserted(t.rids, p, rid), t.next)
    requires !IsFull(l.keys)
    requires Good(t, ns, h, lo, hi, end)
    ensures Kept(t, ns[t.id := Leaf(l.keys, l.rids, l.next)], h, lo, hi, end, l, key, rid, from, to)
  {
    LeafParts(t, ns, h, lo, hi, end);
    InsertedLeaf(t.keys, t.rids, lo, hi, key, rid, l.keys, l.rids);
    hide Inserted, InsertPosition;
  }

  /** A full leaf splits in the middle; the right half goes to the fresh page `to`. */
  lemma {:induction false} LeafHalves(t: Tree, ns: map<PageId, BTreeNode>, h: nat, lo: int, hi: int,
                                      end: Option<PageId>,
                                      key: int, rid: Rid, from: PageId, to: PageId, keys': seq<int>, rids': seq<Rid>,
                                      l: Tree, r: Tree)
    requires t.TLeaf? && lo <= key < hi && key !in t.keys && |t.keys| == |t.rids|
    requires var p := InsertPosition(t.keys, key);
             keys' == Inserted(t.keys, p, key) && rids' == Inserted(t.rids, p, rid)
    requires IsFull(keys') && from <= to && Below(ns, to)
    requires l == TLeaf(t.id, keys'[..|keys'| / 2], rids'[..|keys'| / 2], Some(to))
    requires r == TLeaf(to, keys'[|keys'| / 2..], rids'[|keys'| / 2..], t.next)
    requires Good(t, ns, h, lo, hi, end)
    ensures |r.keys| > 0
    ensures Halved(t, ns[to := Leaf(r.keys, r.rids, r.next)][t.id := Leaf(l.keys, l.rids, l.next)], h, lo, hi, end,
                   l, r, r.keys[0], key, rid, from, to + 1)
  {
    LeafParts(t, ns, h, lo, hi, end);
    InsertedLeaf(t.keys, t.rids, lo, hi, key, rid, keys', rids');
    hide Inserted, InsertPosition, Good;
    var mid := |keys'| / 2;
    LeafCut(keys', rids', lo, hi, mid, l.keys, l.rids, r.keys, r.rids);
    assert BothHaveOneMore(t, l, r, key, rid);
    assert |l.keys| == ORDER && |r.keys| == ORDER;
    assert t.id in ns && t.id != to;
    var ns' := ns[to := Leaf(r.keys, r.rids, r.next)][t.id := Leaf(l.keys, l.rids, l.next)];
    MakeLeaf(l, ns', lo, r.keys[0]);
    MakeLeaf(r, ns', r.keys[0], hi);
    hide Has, LeafHas, Ascending;
  }

  lemma {:induction false} MakeLeaf(l: Tree, ns: map<PageId, BTreeNode>, lo: int, hi: int)
    requires l.TLeaf? && l.id in ns && ns[l.id] == Leaf(l.keys, l.rids, l.next) && |l.keys| == |l.rids| < 2 * ORDER
    requires Ascending(l.keys) && (forall k :: k in l.keys ==> lo <= k < hi) && lo < hi
    ensures Good(l, ns, 0, lo, hi, l.next)
  {
  }

  lemma {:induction false} LeafCutHas(keys: seq<int>, rids: seq<Rid>, mid: nat,
                                      lk: seq<int>, lr: seq<Rid>, rk: seq<int>, rr: seq<Rid>)
    requires |keys| == |rids| && mid <= |keys|
    requires lk == keys[..mid] && lr == rids[..mid] && rk == keys[mid..] && rr == rids[mid..]
    ensures forall k, x :: LeafHas(keys, rids, k, x) <==> LeafHas(lk, lr, k, x) || LeafHas(rk, rr, k, x)
  {
    forall k, x ensures LeafHas(keys, rids, k, x) <==> LeafHas(lk, lr, k, x) || LeafHas(rk, rr, k, x) {
      if LeafHas(keys, rids, k, x) {
        var i :| 0 <= i < |keys| && keys[i] == k && rids[i] == x;
        if i < mid { assert lk[i] == k && lr[i] == x; } else { assert rk[i - mid] == k && rr[i - mid] == x; }
      }
      if LeafHas(rk, rr, k, x) {
        var i :| 0 <= i < |rk| && rk[i] == k && rr[i] == x;
        assert keys[mid + i] == k && rids[mid + i] == x;
      }
      if LeafHas(lk, lr, k, x) {
        var i :| 0 <= i < |lk| && lk[i] == k && lr[i] == x;
        assert keys[i] == k && rids[i] == x;
      }
    }
  }

  lemma {:induction false} LeafCut(keys: seq<int>, rids: seq<Rid>, lo: int, hi: int, mid: nat,
                                   lk: seq<int>, lr: seq<Rid>, rk: seq<int>, rr: seq<Rid>)
    requires |keys| == |rids| && Ascending(keys) && (forall k :: k in keys ==> lo <= k < hi) && 0 < mid < |keys|
    requires lk == keys[..mid] && lr == rids[..mid] && rk == keys[mid..] && rr == rids[mid..]
    ensures Ascending(lk) && Ascending(rk) && lo < rk[0] < hi
    ensures forall k :: k in lk ==> lo <= k < rk[0]
    ensures forall k :: k in rk ==> rk[0] <= k < hi
    ensures forall k, x :: LeafHas(keys, rids, k, x) <==> LeafHas(lk, lr, k, x) || LeafHas(rk, rr, k, x)
  {
    assert rk[0] == keys[mid] && keys[mid] in keys && keys[0] in keys;
    forall k | k in lk ensures lo <= k < rk[0] {
      var i :| 0 <= i < |lk| && lk[i] == k;
      assert keys[i] in keys;
    }
    forall k | k in rk ensures rk[0] <= k < hi {
      var i :| 0 <= i < |rk| && rk[i] == k;
      assert keys[mid + i] in keys;
    }
    hide Ascending;
    LeafCutHas(keys, rids, mid, lk, lr, rk, rr);
  }
}
