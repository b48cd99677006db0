/** The shape of the B+tree stored in a heap of numbered nodes.
    A ghost `Tree` says which nodes belong together; `Good` is the whole
    invariant, and the lemmas say how replacing or splitting one child keeps it. */
module BTreeShape {
  import opened Common
  import opened Node

  datatype Tree =
    | TLeaf(id: PageId, keys: seq<int>, rids: seq<Rid>, next: Option<PageId>)
    | TNode(id: PageId, keys: seq<int>, kids: seq<Tree>)

  ghost predicate InTree(t: Tree, id: PageId)
  {
    t.id == id || (t.TNode? && exists i :: 0 <= i < |t.kids| && InTree(t.kids[i], id))
  }

  ghost predicate Disjoint(a: Tree, b: Tree) {
    forall id :: InTree(a, id) ==> !InTree(b, id)
  }

  /** The abstract content: the tree holds the entry `k -> r`. */
  ghost predicate Has(t: Tree, k: int, r: Rid)
  {
    match t
    case TLeaf(_, keys, rids, _) => LeafHas(keys, rids, k, r)
    case TNode(_, _, kids) => exists i :: 0 <= i < |kids| && Has(kids[i], k, r)
  }

  ghost predicate LeafHas(keys: seq<int>, rids: seq<Rid>, k: int, r: Rid) {
    exists j :: 0 <= j < |keys| && j < |rids| && keys[j] == k && rids[j] == r
  }

  /** The leftmost leaf's id. */
  ghost function First(t: Tree): PageId
  {
    if t.TLeaf? || t.kids == [] then t.id else First(t.kids[0])
  }

  ghost function IdSeq(kids: seq<Tree>): seq<PageId> {
    seq(|kids|, i requires 0 <= i < |kids| => kids[i].id)
  }

  /** Lower bound, upper bound and chain successor of child `i`. */
  ghost function Lo(keys: seq<int>, lo: int, i: nat): int
    requires i <= |keys|
  {
    if i == 0 then lo else keys[i - 1]
  }

  ghost function Hi(keys: seq<int>, hi: int, i: nat): int
    requires i <= |keys|
  {
    if i == |keys| then hi else keys[i]
  }

  ghost function End(kids: seq<Tree>, end: Option<PageId>, i: nat): Option<PageId>
    requires i < |kids|
  {
    if i + 1 < |kids| then Some(First(kids[i + 1])) else end
  }

  /** `t` is stored in `ns`, has `h` internal levels, keeps its keys in [lo, hi),
      and its leaves are chained left to right, the last one to `end`. */
  ghost predicate Good(t: Tree, ns: map<PageId, BTreeNode>, h: nat, lo: int, hi: int, end: Option<PageId>)
    decreases t
  {
    && t.id in ns && lo < hi
    && match t
       case TLeaf(id, keys, rids, next) =>
         && h == 0
         && ns[id] == Leaf(keys, rids, next)
         && next == end
         && |keys| == |rids|
         && !IsFull(keys)
         && Ascending(keys)
         && (forall k :: k in keys ==> lo <= k < hi)
       case TNode(id, keys, kids) =>
         && h > 0
         && ns[id] == Internal(keys, IdSeq(kids))
         && 1 <= |keys|
         && !IsFull(keys)
         && (forall i :: 0 <= i < |kids| ==> !InTree(kids[i], id))
         && GoodKids(keys, kids, ns, h - 1, lo, hi, end)
  }

  /** Children of one internal node: one more than keys, separated by the keys,
      sharing no node, and non-root internal children at least half full. */
  ghost predicate GoodKids(keys: seq<int>, kids: seq<Tree>, ns: map<PageId, BTreeNode>, h: nat,
                           lo: int, hi: int, end: Option<PageId>)
    decreases kids
  {
    && |kids| == |keys| + 1
    && Ascending(keys)
    && (forall k :: k in keys ==> lo < k < hi)
    && (forall i :: 0 <= i < |kids| ==>
          Good(kids[i], ns, h, Lo(keys, lo, i), Hi(keys, hi, i), End(kids, end, i)))
    && (forall i, j :: 0 <= i < j < |kids| ==> Disjoint(kids[i], kids[j]))
    && (forall i :: 0 <= i < |kids| ==> HalfFull(kids[i]))
  }

  ghost predicate HalfFull(t: Tree) {
    t.TNode? ==> |t.kids| >= ORDER
  }

  /** The parts of a good internal node. */
  lemma {:induction false} NodeParts(t: Tree, ns: map<PageId, BTreeNode>, h: nat, lo: int, hi: int,
                                     end: Option<PageId>)
    requires t.TNode?
    requires Good(t, ns, h, lo, hi, end)
    ensures h > 0 && t.id in ns && ns[t.id] == Internal(t.keys, IdSeq(t.kids)) && lo < hi
    ensures 1 <= |t.keys| < 2 * ORDER && |t.kids| == |t.keys| + 1
    ensures Ascending(t.keys) && forall k :: k in t.keys ==> lo < k < hi
    ensures forall i :: 0 <= i < |t.kids| ==> !InTree(t.kids[i], t.id) && HalfFull(t.kids[i])
    ensures GoodKids(t.keys, t.kids, ns, h - 1, lo, hi, end)
  {
    hide InTree, IdSeq, HalfFull, Disjoint, First;
  }

  /** The parts of a good leaf. */
  lemma {:induction false} LeafParts(t: Tree, ns: map<PageId, BTreeNode>, h: nat, lo: int, hi: int,
                                     end: Option<PageId>)
    requires t.TLeaf?
    requires Good(t, ns, h, lo, hi, end)
    ensures h == 0 && t.id in ns && ns[t.id] == Leaf(t.keys, t.rids, t.next) && lo < hi && t.next == end
    ensures |t.keys| == |t.rids| < 2 * ORDER && Ascending(t.keys) && forall k :: k in t.keys ==> lo <= k < hi
  {
  }

  lemma {:induction false} KidGood(keys: seq<int>, kids: seq<Tree>, ns: map<PageId, BTreeNode>, h: nat,
                                   lo: int, hi: int, end: Option<PageId>, i: nat)
    requires i < |kids|
    requires GoodKids(keys, kids, ns, h, lo, hi, end)
    ensures |kids| == |keys| + 1
    ensures Good(kids[i], ns, h, Lo(keys, lo, i), Hi(keys, hi, i), End(kids, end, i))
  {
    hide Good, Disjoint, HalfFull, First;
  }

  /** A node around good children is good. */
  lemma {:induction false} MakeNode(id: PageId, keys: seq<int>, kids: seq<Tree>, ns: map<PageId, BTreeNode>,
                                    h: nat, lo: int, hi: int, end: Option<PageId>)
    requires id in ns && ns[id] == Internal(keys, IdSeq(kids)) && 1 <= |keys| < 2 * ORDER && lo < hi
    requires forall i :: 0 <= i < |kids| ==> !InTree(kids[i], id)
    requires GoodKids(keys, kids, ns, h, lo, hi, end)
    ensures Good(TNode(id, keys, kids), ns, h + 1, lo, hi, end)
  {
    hide InTree, GoodKids, IdSeq;
  }

  /** `Good` reads only the nodes of its own tree. */
  lemma {:induction false} GoodFrame(t: Tree, ns: map<PageId, BTreeNode>, ns': map<PageId, BTreeNode>,
                                     h: nat, lo: int, hi: int, end: Option<PageId>)
    requires forall id :: InTree(t, id) && id in ns ==> id in ns' && ns'[id] == ns[id]
    requires Good(t, ns, h, lo, hi, end)
    ensures Good(t, ns', h, lo, hi, end)
    decreases t
  {
    assert InTree(t, t.id);
    if t.TNode? {
      forall i | 0 <= i < |t.kids|
        ensures Good(t.kids[i], ns', h - 1, Lo(t.keys, lo, i), Hi(t.keys, hi, i), End(t.kids, end, i))
      {
        forall id | InTree(t.kids[i], id) ensures InTree(t, id) {}
        GoodFrame(t.kids[i], ns, ns', h - 1, Lo(t.keys, lo, i), Hi(t.keys, hi, i), End(t.kids, end, i));
      }
    }
  }

  lemma {:induction false} GoodStored(t: Tree, ns: map<PageId, BTreeNode>, h: nat, lo: int, hi: int,
                                      end: Option<PageId>, id: PageId)
    requires InTree(t, id)
    requires Good(t, ns, h, lo, hi, end)
    ensures id in ns
    decreases t
  {
    if t.id != id {
      NodeParts(t, ns, h, lo, hi, end);
      var i :| 0 <= i < |t.kids| && InTree(t.kids[i], id);
      hide *;
      KidGood(t.keys, t.kids, ns, h - 1, lo, hi, end, i);
      GoodStored(t.kids[i], ns, h - 1, Lo(t.keys, lo, i), Hi(t.keys, hi, i), End(t.kids, end, i), id);
    }
  }

  lemma {:induction false} BoundsInside(keys: seq<int>, lo: int, hi: int, i: nat)
    requires Ascending(keys) && (forall k :: k in keys ==> lo < k < hi) && i <= |keys| && lo < hi
    ensures lo <= Lo(keys, lo, i) < Hi(keys, hi, i) <= hi
  {
    assert i > 0 ==> keys[i - 1] in keys;
    assert i < |keys| ==> keys[i] in keys;
  }

  lemma {:induction false} HasBounds(t: Tree, ns: map<PageId, BTreeNode>, h: nat, lo: int, hi: int,
                                     end: Option<PageId>, k: int, r: Rid)
    requires Has(t, k, r)
    requires Good(t, ns, h, lo, hi, end)
    ensures lo <= k < hi
    decreases t
  {
    if t.TLeaf? {
      var j :| 0 <= j < |t.keys| && t.keys[j] == k;
      assert t.keys[j] in t.keys;
    } else {
      NodeParts(t, ns, h, lo, hi, end);
      var i :| 0 <= i < |t.kids| && Has(t.kids[i], k, r);
      hide *;
      KidGood(t.keys, t.kids, ns, h - 1, lo, hi, end, i);
      HasBounds(t.kids[i], ns, h - 1, Lo(t.keys, lo, i), Hi(t.keys, hi, i), End(t.kids, end, i), k, r);
      BoundsInside(t.keys, lo, hi, i);
    }
  }

  /** `l` stands where `c` stood: same page, same leftmost leaf, and only fresh extra nodes. */
  ghost predicate SameSpot(c: Tree, l: Tree, from: PageId, to: PageId) {
    && l.id == c.id
    && First(l) == First(c)
    && (forall id: PageId :: InTree(l, id) ==> InTree(c, id) || from <= id < to)
  }

  /** The heap changed only inside child `c` and on fresh pages. */
  ghost predicate ChangedOnly(c: Tree, ns: map<PageId, BTreeNode>, ns': map<PageId, BTreeNode>) {
    forall id :: id in ns && !InTree(c, id) ==> id in ns' && ns'[id] == ns[id]
  }

  ghost predicate Below(ns: map<PageId, BTreeNode>, bound: PageId) {
    forall id :: id in ns ==> id < bound
  }

  /** Siblings of the changed child are still good in the new heap. */
  lemma {:induction false} SiblingGood(keys: seq<int>, kids: seq<Tree>, ns: map<PageId, BTreeNode>,
                                       ns': map<PageId, BTreeNode>,
                    h: nat, lo: int, hi: int, end: Option<PageId>, c: nat, i: nat)
    requires c < |kids| && i < |kids| && i != c
    requires ChangedOnly(kids[c], ns, ns')
    requires GoodKids(keys, kids, ns, h, lo, hi, end)
    ensures Good(kids[i], ns', h, Lo(keys, lo, i), Hi(keys, hi, i), End(kids, end, i))
  {
    assert Disjoint(kids[i], kids[c]) by {
      if i < c { assert Disjoint(kids[i], kids[c]); } else { assert Disjoint(kids[c], kids[i]); }
    }
    GoodFrame(kids[i], ns, ns', h, Lo(keys, lo, i), Hi(keys, hi, i), End(kids, end, i));
  }

  /** A tree that stands where child `c` stood shares no node with the siblings. */
  lemma {:induction false} SpotDisjoint(keys: seq<int>, kids: seq<Tree>, ns: map<PageId, BTreeNode>,
                     h: nat, lo: int, hi: int, end: Option<PageId>, c: nat, i: nat, l: Tree, from: PageId, to: PageId)
    requires c < |kids| && i < |kids| && i != c
    requires forall id: PageId :: InTree(l, id) ==> InTree(kids[c], id) || from <= id < to
    requires Below(ns, from)
    requires GoodKids(keys, kids, ns, h, lo, hi, end)
    ensures Disjoint(l, kids[i]) && Disjoint(kids[i], l)
  {
    assert Disjoint(kids[i], kids[c]) by {
      if i < c { assert Disjoint(kids[i], kids[c]); } else { assert Disjoint(kids[c], kids[i]); }
    }
    forall id | InTree(l, id) ensures !InTree(kids[i], id) {
      if InTree(kids[i], id) {
        GoodStored(kids[i], ns, h, Lo(keys, lo, i), Hi(keys, hi, i), End(kids, end, i), id);
      }
    }
  }

  lemma {:induction false} KidsReplaceGood(keys: seq<int>, kids: seq<Tree>, ns: map<PageId, BTreeNode>,
                                           ns': map<PageId, BTreeNode>,
                    h: nat, lo: int, hi: int, end: Option<PageId>, c: nat, l: Tree, from: PageId, to: PageId, i: nat)
    requires i < |kids|
    requires |kids| == |keys| + 1
    requires c < |kids| && ChangedOnly(kids[c], ns, ns') && SameSpot(kids[c], l, from, to)
    requires GoodKids(keys, kids, ns, h, lo, hi, end)
    requires Good(l, ns', h, Lo(keys, lo, c), Hi(keys, hi, c), End(kids, end, c))
    ensures Good(kids[c := l][i], ns', h, Lo(keys, lo, i), Hi(keys, hi, i), End(kids[c := l], end, i))
  {
    hide Good, GoodKids, InTree, First, ChangedOnly;
    assert End(kids[c := l], end, i) == End(kids, end, i);
    if i != c {
      SiblingGood(keys, kids, ns, ns', h, lo, hi, end, c, i);
    }
  }

  lemma {:induction false} KidsReplaceDisjoint(keys: seq<int>, kids: seq<Tree>, ns: map<PageId, BTreeNode>,
                    h: nat, lo: int, hi: int, end: Option<PageId>, c: nat, l: Tree, from: PageId, to: PageId, i: nat,
                    j: nat)
    requires c < |kids| && SameSpot(kids[c], l, from, to) && i < j < |kids|
    requires Below(ns, from)
    requires GoodKids(keys, kids, ns, h, lo, hi, end)
    ensures Disjoint(kids[c := l][i], kids[c := l][j])
  {
    hide Good, InTree, First, Disjoint;
    if i == c {
      SpotDisjoint(keys, kids, ns, h, lo, hi, end, c, j, l, from, to);
    } else if j == c {
      SpotDisjoint(keys, kids, ns, h, lo, hi, end, c, i, l, from, to);
    } else {
      assert Disjoint(kids[i], kids[j]);
    }
  }

  /** Replacing child `c` by a good tree at the same spot. */
  lemma {:induction false} KidsReplace(keys: seq<int>, kids: seq<Tree>, ns: map<PageId, BTreeNode>,
                                       ns': map<PageId, BTreeNode>,
                    h: nat, lo: int, hi: int, end: Option<PageId>, c: nat, l: Tree, from: PageId, to: PageId)
    requires c < |kids| && ChangedOnly(kids[c], ns, ns')
    requires SameSpot(kids[c], l, from, to) && HalfFull(l)
    requires Below(ns, from)
    requires GoodKids(keys, kids, ns, h, lo, hi, end)
    requires Good(l, ns', h, Lo(keys, lo, c), Hi(keys, hi, c), End(kids, end, c))
    ensures GoodKids(keys, kids[c := l], ns', h, lo, hi, end)
  {
    hide Good, InTree, First, Disjoint, Lo, Hi, End, SameSpot;
    var kids' := kids[c := l];
    forall i | 0 <= i < |kids'|
      ensures Good(kids'[i], ns', h, Lo(keys, lo, i), Hi(keys, hi, i), End(kids', end, i))
    {
      hide *;
      KidsReplaceGood(keys, kids, ns, ns', h, lo, hi, end, c, l, from, to, i);
    }
    forall i, j | 0 <= i < j < |kids'| ensures Disjoint(kids'[i], kids'[j]) {
      hide *;
      KidsReplaceDisjoint(keys, kids, ns, h, lo, hi, end, c, l, from, to, i, j);
    }
  }

  function Inserted<T>(s: seq<T>, i: nat, x: T): (r: seq<T>)
    requires i <= |s|
    ensures |r| == |s| + 1 && r[i] == x
    ensures forall j :: 0 <= j < i ==> r[j] == s[j]
    ensures forall j :: i < j < |r| ==> r[j] == s[j - 1]
  {
    s[..i] + [x] + s[i..]
  }

  /** Position by position, what a child list looks like once child `c` became `l` and `r`. */
  ghost predicate SplitAt(keys: seq<int>, kids: seq<Tree>, c: nat, pk: int, l: Tree, r: Tree,
                          keys': seq<int>, kids': seq<Tree>) {
    && |kids| == |keys| + 1 && c < |kids| && |keys'| == |keys| + 1 && |kids'| == |kids| + 1
    && keys'[c] == pk && kids'[c] == l && kids'[c + 1] == r
    && (forall i :: 0 <= i < c ==> keys'[i] == keys[i] && kids'[i] == kids[i])
    && (forall i :: c < i < |keys'| ==> keys'[i] == keys[i - 1])
    && (forall i :: c + 1 < i < |kids'| ==> kids'[i] == kids[i - 1])
  }

  /** Child `c` split into `l` and `r` around `pk`: both replace it, `pk` becomes a separator. */
  lemma {:induction false} KidsSplit(keys: seq<int>, kids: seq<Tree>, ns: map<PageId, BTreeNode>,
                                     ns': map<PageId, BTreeNode>,
                  h: nat, lo: int, hi: int, end: Option<PageId>, c: nat, l: Tree, r: Tree, pk: int,
                  from: PageId, to: PageId, keys': seq<int>, kids': seq<Tree>)
    requires SplitAt(keys, kids, c, pk, l, r, keys', kids') && ChangedOnly(kids[c], ns, ns')
    requires SameSpot(kids[c], l, from, to) && HalfFull(l) && HalfFull(r)
    requires forall id: PageId :: InTree(r, id) ==> InTree(kids[c], id) || from <= id < to
    requires Disjoint(l, r)
    requires Lo(keys, lo, c) < pk < Hi(keys, hi, c)
    requires Below(ns, from)
    requires GoodKids(keys, kids, ns, h, lo, hi, end)
    requires Good(l, ns', h, Lo(keys, lo, c), pk, Some(First(r)))
    requires Good(r, ns', h, pk, Hi(keys, hi, c), End(kids, end, c))
    ensures GoodKids(keys', kids', ns', h, lo, hi, end)
  {
    hide Good, InTree, First, Disjoint, Lo, Hi, End;
    forall i | 0 <= i < |kids'|
      ensures Good(kids'[i], ns', h, Lo(keys', lo, i), Hi(keys', hi, i), End(kids', end, i))
    {
      hide *;
      KidsSplitGood(keys, kids, ns, ns', h, lo, hi, end, c, l, r, pk, keys', kids', i);
    }
    forall i, j | 0 <= i < j < |kids'| ensures Disjoint(kids'[i], kids'[j]) {
      hide *;
      KidsSplitDisjoint(keys, kids, ns, h, lo, hi, end, c, l, r, pk, from, to, keys', kids', i, j);
    }
    SplitKeysAscend(keys, kids, c, pk, l, r, lo, hi, keys', kids');
  }

  lemma {:induction false} KidsSplitGood(keys: seq<int>, kids: seq<Tree>, ns: map<PageId, BTreeNode>,
                                         ns': map<PageId, BTreeNode>,
                  h: nat, lo: int, hi: int, end: Option<PageId>, c: nat, l: Tree, r: Tree, pk: int,
                  keys': seq<int>, kids': seq<Tree>, i: nat)
    requires SplitAt(keys, kids, c, pk, l, r, keys', kids') && ChangedOnly(kids[c], ns, ns')
    requires First(l) == First(kids[c]) && i < |kids'|
    requires GoodKids(keys, kids, ns, h, lo, hi, end)
    requires Good(l, ns', h, Lo(keys, lo, c), pk, Some(First(r)))
    requires Good(r, ns', h, pk, Hi(keys, hi, c), End(kids, end, c))
    ensures Good(kids'[i], ns', h, Lo(keys', lo, i), Hi(keys', hi, i), End(kids', end, i))
  {
    hide Good, GoodKids, First, ChangedOnly;
    if i < c {
      SiblingGood(keys, kids, ns, ns', h, lo, hi, end, c, i);
    } else if i > c + 1 {
      SiblingGood(keys, kids, ns, ns', h, lo, hi, end, c, i - 1);
    }
  }

  lemma {:induction false} SplitKeysAscend(keys: seq<int>, kids: seq<Tree>, c: nat, pk: int, l: Tree, r: Tree,
                                           lo: int, hi: int, keys': seq<int>, kids': seq<Tree>)
    requires SplitAt(keys, kids, c, pk, l, r, keys', kids')
    requires Ascending(keys) && forall k :: k in keys ==> lo < k < hi
    requires Lo(keys, lo, c) < pk < Hi(keys, hi, c)
    ensures Ascending(keys') && forall k :: k in keys' ==> lo < k < hi
  {
    assert c > 0 ==> keys[c - 1] in keys;
    assert c < |keys| ==> keys[c] in keys;
    forall k | k in keys' ensures lo < k < hi {
      var i :| 0 <= i < |keys'| && keys'[i] == k;
      if i < c { assert keys[i] in keys; } else if i > c { assert keys[i - 1] in keys; }
    }
  }

  lemma {:induction false} KidsSplitDisjoint(keys: seq<int>, kids: seq<Tree>, ns: map<PageId, BTreeNode>,
                          h: nat, lo: int, hi: int, end: Option<PageId>, c: nat, l: Tree, r: Tree, pk: int,
                          from: PageId, to: PageId, keys': seq<int>, kids': seq<Tree>, i: nat, j: nat)
    requires SplitAt(keys, kids, c, pk, l, r, keys', kids') && i < j < |kids'|
    requires SameSpot(kids[c], l, from, to)
    requires forall id: PageId :: InTree(r, id) ==> InTree(kids[c], id) || from <= id < to
    requires Disjoint(l, r)
    requires Below(ns, from)
    requires GoodKids(keys, kids, ns, h, lo, hi, end)
    ensures Disjoint(kids'[i], kids'[j])
  {
    hide Good, GoodKids, InTree, First, Disjoint;
    var i0 := if i <= c then i else i - 1;
    var j0 := if j <= c then j else j - 1;
    KidCount(keys, kids, ns, h, lo, hi, end);
    if i0 == c && j0 == c {
    } else if i0 == c {
      SpotDisjoint(keys, kids, ns, h, lo, hi, end, c, j0, kids'[i], from, to);
    } else if j0 == c {
      SpotDisjoint(keys, kids, ns, h, lo, hi, end, c, i0, kids'[j], from, to);
    } else {
      KidsPairwise(keys, kids, ns, h, lo, hi, end, i0, j0);
    }
  }

  lemma {:induction false} KidsPairwise(keys: seq<int>, kids: seq<Tree>, ns: map<PageId, BTreeNode>,
                h: nat, lo: int, hi: int, end: Option<PageId>, i: nat, j: nat)
    requires i < j < |kids|
    requires GoodKids(keys, kids, ns, h, lo, hi, end)
    ensures Disjoint(kids[i], kids[j])
  {
    hide Good, Disjoint, HalfFull;
  }

  lemma {:induction false} KidCount(keys: seq<int>, kids: seq<Tree>, ns: map<PageId, BTreeNode>,
                h: nat, lo: int, hi: int, end: Option<PageId>)
    requires GoodKids(keys, kids, ns, h, lo, hi, end)
    ensures |kids| == |keys| + 1
  {
    hide Good, Disjoint, HalfFull;
  }

  /** An overfull child list cut at separator `mid`: both halves are good child lists. */
  lemma {:induction false} KidsCut(keys: seq<int>, kids: seq<Tree>, ns: map<PageId, BTreeNode>,
                h: nat, lo: int, hi: int, end: Option<PageId>, mid: nat)
    requires mid < |keys|
    requires GoodKids(keys, kids, ns, h, lo, hi, end)
    ensures GoodKids(keys[..mid], kids[..mid + 1], ns, h, lo, keys[mid], Some(First(kids[mid + 1])))
    ensures GoodKids(keys[mid + 1..], kids[mid + 1..], ns, h, keys[mid], hi, end)
  {
    hide Good, GoodKids;
    KidCount(keys, kids, ns, h, lo, hi, end);
    KidsCutLeft(keys, kids, ns, h, lo, hi, end, mid, keys[..mid], kids[..mid + 1]);
    KidsCutRight(keys, kids, ns, h, lo, hi, end, mid, keys[mid + 1..], kids[mid + 1..]);
  }

  lemma {:induction false} CutLeftBounds(keys: seq<int>, kids: seq<Tree>, lo: int, hi: int, end: Option<PageId>,
                                         mid: nat, lk: seq<int>, lc: seq<Tree>, i: nat)
    requires mid < |keys| && |kids| == |keys| + 1
    requires |lk| == mid && |lc| == mid + 1 && i < |lc|
    requires forall i :: 0 <= i < mid ==> lk[i] == keys[i]
    requires forall i :: 0 <= i <= mid ==> lc[i] == kids[i]
    ensures lc[i] == kids[i] && Lo(lk, lo, i) == Lo(keys, lo, i) && Hi(lk, keys[mid], i) == Hi(keys, hi, i)
    ensures End(lc, Some(First(kids[mid + 1])), i) == End(kids, end, i)
  {
    hide First;
  }

  lemma {:induction false} KidsCutLeft(keys: seq<int>, kids: seq<Tree>, ns: map<PageId, BTreeNode>,
                h: nat, lo: int, hi: int, end: Option<PageId>, mid: nat, lk: seq<int>, lc: seq<Tree>)
    requires mid < |keys| && |kids| == |keys| + 1
    requires |lk| == mid && |lc| == mid + 1
    requires forall i :: 0 <= i < mid ==> lk[i] == keys[i]
    requires forall i :: 0 <= i <= mid ==> lc[i] == kids[i]
    requires GoodKids(keys, kids, ns, h, lo, hi, end)
    ensures GoodKids(lk, lc, ns, h, lo, keys[mid], Some(First(kids[mid + 1])))
  {
    hide Good, InTree, First, Disjoint, Lo, Hi, End;
    var lend := Some(First(kids[mid + 1]));
    forall i | 0 <= i < |lc|
      ensures Good(lc[i], ns, h, Lo(lk, lo, i), Hi(lk, keys[mid], i), End(lc, lend, i))
    {
      hide *;
      CutLeftBounds(keys, kids, lo, hi, end, mid, lk, lc, i);
      KidGood(keys, kids, ns, h, lo, hi, end, i);
    }
    forall k | k in lk ensures lo < k < keys[mid] {
      var i :| 0 <= i < mid && lk[i] == k;
      assert keys[i] in keys;
    }
  }

  lemma {:induction false} CutRightBounds(keys: seq<int>, kids: seq<Tree>, lo: int, hi: int, end: Option<PageId>,
                                          mid: nat, rk: seq<int>, rc: seq<Tree>, i: nat)
    requires mid < |keys| && |kids| == |keys| + 1
    requires |rk| == |keys| - mid - 1 && |rc| == |kids| - mid - 1 && i < |rc|
    requires forall i :: 0 <= i < |rk| ==> rk[i] == keys[mid + 1 + i]
    requires forall i :: 0 <= i < |rc| ==> rc[i] == kids[mid + 1 + i]
    ensures rc[i] == kids[mid + 1 + i] && Lo(rk, keys[mid], i) == Lo(keys, lo, mid + 1 + i)
    ensures Hi(rk, hi, i) == Hi(keys, hi, mid + 1 + i) && End(rc, end, i) == End(kids, end, mid + 1 + i)
  {
    hide First;
    assert i > 0 ==> rk[i - 1] == keys[mid + i];
    assert i + 1 < |rc| ==> rc[i + 1] == kids[mid + 2 + i];
  }

  lemma {:induction false} KidsCutRight(keys: seq<int>, kids: seq<Tree>, ns: map<PageId, BTreeNode>,
                h: nat, lo: int, hi: int, end: Option<PageId>, mid: nat, rk: seq<int>, rc: seq<Tree>)
    requires mid < |keys|
    requires |rk| == |keys| - mid - 1 && |rc| == |kids| - mid - 1
    requires forall i :: 0 <= i < |rk| ==> rk[i] == keys[mid + 1 + i]
    requires forall i :: 0 <= i < |rc| ==> rc[i] == kids[mid + 1 + i]
    requires GoodKids(keys, kids, ns, h, lo, hi, end)
    ensures GoodKids(rk, rc, ns, h, keys[mid], hi, end)
  {
    hide Good, InTree, First, Disjoint;
    forall i | 0 <= i < |rc|
      ensures Good(rc[i], ns, h, Lo(rk, keys[mid], i), Hi(rk, hi, i), End(rc, end, i))
    {
      hide *;
      CutRightBounds(keys, kids, lo, hi, end, mid, rk, rc, i);
      KidGood(keys, kids, ns, h, lo, hi, end, mid + 1 + i);
    }
    forall i, j | 0 <= i < j < |rc| ensures Disjoint(rc[i], rc[j]) {
      assert Disjoint(kids[mid + 1 + i], kids[mid + 1 + j]);
    }
    forall k | k in rk ensures keys[mid] < k < hi {
      var i :| 0 <= i < |rk| && rk[i] == k;
      assert keys[mid + 1 + i] in keys;
    }
  }

  // --- The leaf a key is routed to ---

  ghost function LeafFor(t: Tree, key: int): Tree
    decreases t
  {
    if t.TLeaf? then t
    else
      var i := FindChildIndex(t.keys, key);
      if i < |t.kids| then LeafFor(t.kids[i], key) else t
  }

  /** The child interval holding `key` is the one `FindChildIndex` picks. */
  lemma {:induction false} OnlyChild(keys: seq<int>, lo: int, hi: int, key: int, i: nat)
    requires Ascending(keys) && i <= |keys| && Lo(keys, lo, i) <= key < Hi(keys, hi, i)
    ensures i == FindChildIndex(keys, key)
  {
  }

  /** Routing is exact: only the leaf `key` is routed to can hold it. */
  lemma {:induction false} LeafForHas(t: Tree, ns: map<PageId, BTreeNode>, h: nat, lo: int, hi: int,
                                      end: Option<PageId>, key: int, r: Rid)
    requires Good(t, ns, h, lo, hi, end)
    ensures LeafFor(t, key).TLeaf?
    ensures Has(t, key, r) <==> Has(LeafFor(t, key), key, r)
    decreases t
  {
    hide Good, GoodKids;
    if t.TNode? {
      NodeParts(t, ns, h, lo, hi, end);
      var c := FindChildIndex(t.keys, key);
      KidGood(t.keys, t.kids, ns, h - 1, lo, hi, end, c);
      LeafForHas(t.kids[c], ns, h - 1, Lo(t.keys, lo, c), Hi(t.keys, hi, c), End(t.kids, end, c), key, r);
      if Has(t, key, r) {
        var i :| 0 <= i < |t.kids| && Has(t.kids[i], key, r);
        KidGood(t.keys, t.kids, ns, h - 1, lo, hi, end, i);
        HasBounds(t.kids[i], ns, h - 1, Lo(t.keys, lo, i), Hi(t.keys, hi, i), End(t.kids, end, i), key, r);
        OnlyChild(t.keys, lo, hi, key, i);
      }
    }
  }

  /** The tree after deleting `key`: only the routed leaf changes. */
  ghost function Removed(t: Tree, key: int): Tree
    decreases t
  {
    match t
    case TLeaf(id, keys, rids, next) =>
      (match FindKeyIndex(keys, key)
       case None => t
       case Some(i) =>
         if i < |rids| then TLeaf(id, keys[..i] + keys[i + 1..], rids[..i] + rids[i + 1..], next) else t)
    case TNode(id, keys, kids) =>
      var i := FindChildIndex(keys, key);
      if i < |kids| then TNode(id, keys, kids[i := Removed(kids[i], key)]) else t
  }

  /** The node written by `delete` on the routed leaf. */
  ghost function LeafNodeOf(t: Tree): BTreeNode {
    if t.TLeaf? then Leaf(t.keys, t.rids, t.next) else Internal(t.keys, IdSeq(t.kids))
  }

  lemma {:induction false} RemovedLeaf(t: Tree, ns: map<PageId, BTreeNode>, h: nat, lo: int, hi: int,
                                       end: Option<PageId>, key: int)
    requires t.TLeaf?
    requires Good(t, ns, h, lo, hi, end)
    ensures Good(Removed(t, key), ns[t.id := LeafNodeOf(Removed(t, key))], h, lo, hi, end)
    ensures Removed(t, key).TLeaf? && SameSpot(t, Removed(t, key), 0, 0)
    ensures forall k, r :: Has(Removed(t, key), k, r) <==> Has(t, k, r) && k != key
  {
    LeafParts(t, ns, h, lo, hi, end);
    var t' := Removed(t, key);
    forall id | InTree(t', id) ensures InTree(t, id) {}
    match FindKeyIndex(t.keys, key)
    case None =>
      forall k, r | Has(t, k, r) ensures k != key {
        var j :| 0 <= j < |t.keys| && t.keys[j] == k;
        assert t.keys[j] in t.keys;
      }
    case Some(i) =>
      WithoutEntry(t.keys, t.rids, i, t'.keys, t'.rids);
      forall k | k in t'.keys ensures lo <= k < hi {
        var j :| 0 <= j < |t'.keys| && t'.keys[j] == k;
        assert t.keys[if j < i then j else j + 1] in t.keys;
      }
  }

  lemma {:induction false} WithoutEntry(keys: seq<int>, rids: seq<Rid>, i: nat, keys': seq<int>, rids': seq<Rid>)
    requires |keys| == |rids| && i < |keys| && Ascending(keys)
    requires keys' == keys[..i] + keys[i + 1..] && rids' == rids[..i] + rids[i + 1..]
    ensures Ascending(keys')
    ensures forall j :: 0 <= j < |keys'| ==> keys'[j] == keys[if j < i then j else j + 1]
    ensures forall k, r :: LeafHas(keys', rids', k, r) <==> LeafHas(keys, rids, k, r) && k != keys[i]
  {
    forall k, r | LeafHas(keys, rids, k, r) && k != keys[i] ensures LeafHas(keys', rids', k, r) {
      var j :| 0 <= j < |keys| && keys[j] == k && rids[j] == r;
      var j' := if j < i then j else j - 1;
      assert keys'[j'] == k && rids'[j'] == r;
    }
    forall k, r | LeafHas(keys', rids', k, r) ensures LeafHas(keys, rids, k, r) && k != keys[i] {
      var j' :| 0 <= j' < |keys'| && keys'[j'] == k && rids'[j'] == r;
      var j := if j' < i then j' else j' + 1;
      assert keys[j] == k && rids[j] == r;
    }
  }

  lemma {:induction false} InKid(t: Tree, c: nat)
    requires t.TNode? && c < |t.kids|
    ensures forall id :: InTree(t.kids[c], id) ==> InTree(t, id)
    ensures InTree(t, t.id)
    ensures forall k, x :: Has(t.kids[c], k, x) ==> Has(t, k, x)
  {
  }

  lemma {:induction false} SpotInNode(t: Tree, c: nat, kid': Tree, from: PageId, to: PageId)
    requires t.TNode? && c < |t.kids| && SameSpot(t.kids[c], kid', from, to)
    requires forall i :: 0 <= i < |t.kids| ==> !InTree(t.kids[i], t.id)
    requires t.id < from
    ensures SameSpot(t, TNode(t.id, t.keys, t.kids[c := kid']), from, to)
    ensures var kids' := t.kids[c := kid']; forall i :: 0 <= i < |kids'| ==> !InTree(kids'[i], t.id)
  {
    var kids' := t.kids[c := kid'];
    var t' := TNode(t.id, t.keys, kids');
    forall id: PageId | InTree(t', id) ensures InTree(t, id) || from <= id < to {
      if id != t.id {
        var i :| 0 <= i < |kids'| && InTree(kids'[i], id);
        assert i != c ==> InTree(t.kids[i], id);
      }
    }
    assert First(t') == First(t);
  }

  /** One write inside child `c` and that child replaced at its spot: the node stays good. */
  lemma {:induction false} RemovedNode(t: Tree, ns: map<PageId, BTreeNode>, h: nat, lo: int, hi: int,
                                       end: Option<PageId>, c: nat, kid': Tree, at: PageId, node: BTreeNode,
                                       bound: PageId)
    requires Below(ns, bound) && t.TNode? && c < |t.kids| && h > 0
    requires |t.kids| == |t.keys| + 1
    requires InTree(t.kids[c], at) && SameSpot(t.kids[c], kid', bound, bound)
    requires t.kids[c].TNode? ==> kid'.TNode? && |kid'.kids| == |t.kids[c].kids|
    requires t.kids[c].TLeaf? ==> kid'.TLeaf?
    requires Good(t, ns, h, lo, hi, end)
    requires Good(kid', ns[at := node], h - 1, Lo(t.keys, lo, c), Hi(t.keys, hi, c), End(t.kids, end, c))
    ensures Good(TNode(t.id, t.keys, t.kids[c := kid']), ns[at := node], h, lo, hi, end)
    ensures SameSpot(t, TNode(t.id, t.keys, t.kids[c := kid']), bound, bound) && InTree(t, at)
  {
    hide Good, GoodKids, First, HalfFull, InTree;
    NodeParts(t, ns, h, lo, hi, end);
    var kids', ns' := t.kids[c := kid'], ns[at := node];
    InKid(t, c);
    assert ChangedOnly(t.kids[c], ns, ns') && at != t.id && t.id < bound;
    KidsReplaceHalf(t.keys, t.kids, ns, ns', h - 1, lo, hi, end, c, kid', bound, bound);
    SpotInNode(t, c, kid', bound, bound);
    assert IdSeq(kids') == IdSeq(t.kids);
    MakeNode(t.id, t.keys, kids', ns', h - 1, lo, hi, end);
  }

  lemma {:induction false} KidsReplaceHalf(keys: seq<int>, kids: seq<Tree>, ns: map<PageId, BTreeNode>,
                                           ns': map<PageId, BTreeNode>,
                    h: nat, lo: int, hi: int, end: Option<PageId>, c: nat, l: Tree, from: PageId, to: PageId)
    requires c < |kids| == |keys| + 1 && ChangedOnly(kids[c], ns, ns')
    requires SameSpot(kids[c], l, from, to)
    requires kids[c].TNode? ==> l.TNode? && |l.kids| >= |kids[c].kids|
    requires kids[c].TLeaf? ==> l.TLeaf?
    requires Below(ns, from)
    requires GoodKids(keys, kids, ns, h, lo, hi, end)
    requires Good(l, ns', h, Lo(keys, lo, c), Hi(keys, hi, c), End(kids, end, c))
    ensures GoodKids(keys, kids[c := l], ns', h, lo, hi, end)
  {
    assert HalfFull(kids[c]) by { hide Good, Disjoint; }
    assert HalfFull(l);
    hide *;
    KidsReplace(keys, kids, ns, ns', h, lo, hi, end, c, l, from, to);
  }

  lemma {:induction false} SpotWiden(c: Tree, l: Tree, bound: PageId)
    requires SameSpot(c, l, 0, 0)
    ensures SameSpot(c, l, bound, bound)
  {
    hide InTree, First;
  }

  /** Deleting keeps the whole tree good, empties leaves at most, and removes exactly `key`. */
  lemma {:induction false} RemovedGood(t: Tree, ns: map<PageId, BTreeNode>, h: nat, lo: int, hi: int,
                                       end: Option<PageId>, key: int, bound: PageId)
    requires Below(ns, bound)
    requires Good(t, ns, h, lo, hi, end)
    ensures LeafFor(t, key).TLeaf? && InTree(t, LeafFor(t, key).id)
    ensures var f := LeafFor(t, key);
            Good(Removed(t, key), ns[f.id := LeafNodeOf(Removed(f, key))], h, lo, hi, end)
    ensures SameSpot(t, Removed(t, key), bound, bound)
    ensures t.TNode? ==> Removed(t, key).TNode? && |Removed(t, key).kids| == |t.kids|
    ensures t.TLeaf? ==> Removed(t, key).TLeaf?
    ensures forall k, r :: Has(Removed(t, key), k, r) <==> Has(t, k, r) && k != key
    decreases t
  {
    hide Good, GoodKids, First, HalfFull, SameSpot;
    if t.TLeaf? {
      RemovedLeaf(t, ns, h, lo, hi, end, key);
      SpotWiden(t, Removed(t, key), bound);
    } else {
      NodeParts(t, ns, h, lo, hi, end);
      var c := FindChildIndex(t.keys, key);
      KidGood(t.keys, t.kids, ns, h - 1, lo, hi, end, c);
      var kid, kid' := t.kids[c], Removed(t.kids[c], key);
      assert Removed(t, key) == TNode(t.id, t.keys, t.kids[c := kid']);
      var f := LeafFor(kid, key);
      assert LeafFor(t, key) == f;
      hide Removed, LeafFor, InTree, Has;
      RemovedGood(kid, ns, h - 1, Lo(t.keys, lo, c), Hi(t.keys, hi, c), End(t.kids, end, c), key, bound);
      RemovedHas(t, ns, h, lo, hi, end, key, c);
      RemovedNode(t, ns, h, lo, hi, end, c, kid', f.id, LeafNodeOf(Removed(f, key)), bound);
    }
  }

  lemma {:induction false} HasNode(t: Tree, k: int, r: Rid)
    requires t.TNode?
    ensures Has(t, k, r) <==> exists i :: 0 <= i < |t.kids| && Has(t.kids[i], k, r)
  {
  }

  lemma {:induction false} RemovedIs(t: Tree, key: int)
    requires t.TNode? && FindChildIndex(t.keys, key) < |t.kids|
    ensures var c := FindChildIndex(t.keys, key);
      Removed(t, key) == TNode(t.id, t.keys, t.kids[c := Removed(t.kids[c], key)])
  {
  }

  /** Only the routed child can hold the key. */
  lemma {:induction false} OnlyInRouted(t: Tree, ns: map<PageId, BTreeNode>, h: nat, lo: int, hi: int,
                                        end: Option<PageId>, key: int, i: nat, r: Rid)
    requires t.TNode? && i < |t.kids| && Has(t.kids[i], key, r)
    requires Good(t, ns, h, lo, hi, end)
    ensures i == FindChildIndex(t.keys, key)
  {
    hide Good, GoodKids, FindChildIndex, Has, Lo, Hi, End;
    NodeParts(t, ns, h, lo, hi, end);
    KidGood(t.keys, t.kids, ns, h - 1, lo, hi, end, i);
    HasBounds(t.kids[i], ns, h - 1, Lo(t.keys, lo, i), Hi(t.keys, hi, i), End(t.kids, end, i), key, r);
    OnlyChild(t.keys, lo, hi, key, i);
  }

  lemma {:induction false} RemovedHas(t: Tree, ns: map<PageId, BTreeNode>, h: nat, lo: int, hi: int,
                   end: Option<PageId>, key: int, c: nat)
    requires t.TNode? && c == FindChildIndex(t.keys, key) && c < |t.kids|
    requires forall k, r :: Has(Removed(t.kids[c], key), k, r) <==> Has(t.kids[c], k, r) && k != key
    requires Good(t, ns, h, lo, hi, end)
    ensures forall k, r :: Has(Removed(t, key), k, r) <==> Has(t, k, r) && k != key
  {
    hide Good, GoodKids, FindChildIndex, Has, Removed;
    RemovedIs(t, key);
    var t' := Removed(t, key);
    forall k, r ensures Has(t', k, r) <==> Has(t, k, r) && k != key {
      HasNode(t, k, r);
      HasNode(t', k, r);
      if Has(t, k, r) && k != key {
        var i :| 0 <= i < |t.kids| && Has(t.kids[i], k, r);
        assert Has(t'.kids[i], k, r);
      }
      if Has(t', k, r) {
        var i :| 0 <= i < |t'.kids| && Has(t'.kids[i], k, r);
        assert Has(t.kids[i], k, r);
        if k == key { OnlyInRouted(t, ns, h, lo, hi, end, key, i, r); }
      }
    }
  }

  // --- The leaf chain ---

  ghost function Leaves(t: Tree): seq<Tree>
    decreases t
  {
    if t.TLeaf? then [t] else LeavesOf(t.kids)
  }

  ghost function LeavesOf(kids: seq<Tree>): seq<Tree>
    decreases kids
  {
    if kids == [] then [] else Leaves(kids[0]) + LeavesOf(kids[1..])
  }

  lemma {:induction false} LeavesOfConcat(a: seq<Tree>, b: seq<Tree>)
    ensures LeavesOf(a + b) == LeavesOf(a) + LeavesOf(b)
  {
    if a == [] {
      assert a + b == b;
    } else {
      assert (a + b)[0] == a[0] && (a + b)[1..] == a[1..] + b;
      LeavesOfConcat(a[1..], b);
    }
  }

  lemma {:induction false} LeavesAround(kids: seq<Tree>, i: nat)
    requires i < |kids|
    ensures LeavesOf(kids) == LeavesOf(kids[..i]) + Leaves(kids[i]) + LeavesOf(kids[i + 1..])
  {
    assert kids == kids[..i] + kids[i..];
    LeavesOfConcat(kids[..i], kids[i..]);
    assert kids[i..][1..] == kids[i + 1..];
  }

  /** `ls` are the leaves of a range [lo, hi), in key order, each chained to the next. */
  ghost predicate Chain(ls: seq<Tree>, ns: map<PageId, BTreeNode>, lo: int, hi: int, end: Option<PageId>) {
    && (forall i :: 0 <= i < |ls| ==>
          && ls[i].TLeaf? && ls[i].id in ns && ns[ls[i].id] == LeafNodeOf(ls[i])
          && |ls[i].keys| == |ls[i].rids| && Ascending(ls[i].keys))
    && (forall i, k :: 0 <= i < |ls| && k in ls[i].keys ==> lo <= k < hi)
    && (forall i, j, a, b :: 0 <= i < j < |ls| && a in ls[i].keys && b in ls[j].keys ==> a < b)
    && (forall i :: 0 <= i < |ls| ==> Follows(ls, i, end))
  }

  ghost predicate Follows(ls: seq<Tree>, i: nat, end: Option<PageId>)
    requires i < |ls| && ls[i].TLeaf?
  {
    ls[i].next == (if i + 1 < |ls| then Some(ls[i + 1].id) else end)
  }

  lemma {:induction false} ChainConcat(a: seq<Tree>, b: seq<Tree>, ns: map<PageId, BTreeNode>, lo: int, mid: int,
                                       hi: int,
                    end: Option<PageId>)
    requires a != [] && b != [] && lo <= mid <= hi
    requires Chain(a, ns, lo, mid, Some(b[0].id)) && Chain(b, ns, mid, hi, end)
    ensures Chain(a + b, ns, lo, hi, end)
  {
    var s := a + b;
    forall i, j, x, y | 0 <= i < j < |s| && x in s[i].keys && y in s[j].keys ensures x < y {
      if j < |a| {
        assert s[i] == a[i] && s[j] == a[j];
      } else if i >= |a| {
        assert s[i] == b[i - |a|] && s[j] == b[j - |a|];
      } else {
        assert s[i] == a[i] && s[j] == b[j - |a|];
      }
    }
    forall i | 0 <= i < |s| ensures Follows(s, i, end) {
      if i < |a| {
        assert Follows(a, i, Some(b[0].id));
      } else {
        assert Follows(b, i - |a|, end);
      }
    }
  }

  /** The `next` chain is the left-to-right leaf order of the tree. */
  lemma {:induction false} LeavesChained(t: Tree, ns: map<PageId, BTreeNode>, h: nat, lo: int, hi: int,
                                         end: Option<PageId>)
    requires Good(t, ns, h, lo, hi, end)
    ensures Leaves(t) != [] && Leaves(t)[0].id == First(t)
    ensures Chain(Leaves(t), ns, lo, hi, end)
    decreases t
  {
    if t.TNode? {
      KidsChained(t.keys, t.kids, ns, h - 1, lo, hi, end, 0);
      assert t.kids[0..] == t.kids;
    }
  }

  lemma {:induction false} KidsChained(keys: seq<int>, kids: seq<Tree>, ns: map<PageId, BTreeNode>, h: nat,
                                       lo: int, hi: int, end: Option<PageId>, i: nat)
    requires i < |kids|
    requires GoodKids(keys, kids, ns, h, lo, hi, end)
    ensures LeavesOf(kids[i..]) != [] && LeavesOf(kids[i..])[0].id == First(kids[i])
    ensures Chain(LeavesOf(kids[i..]), ns, Lo(keys, lo, i), hi, end)
    decreases kids, |kids| - i
  {
    var ls := Leaves(kids[i]);
    assert Lo(keys, lo, i) < Hi(keys, hi, i) by {
      assert i > 0 ==> keys[i - 1] in keys;
      assert i < |keys| ==> keys[i] in keys;
    }
    LeavesChained(kids[i], ns, h, Lo(keys, lo, i), Hi(keys, hi, i), End(kids, end, i));
    assert kids[i..][0] == kids[i] && kids[i..][1..] == kids[i + 1..];
    if i + 1 < |kids| {
      KidsChained(keys, kids, ns, h, lo, hi, end, i + 1);
      assert keys[i] in keys;
      ChainConcat(ls, LeavesOf(kids[i + 1..]), ns, Lo(keys, lo, i), keys[i], hi, end);
    } else {
      assert LeavesOf(kids[i + 1..]) == [];
      assert ls + [] == ls;
    }
  }

  /** What the tree holds is what its leaves hold. */
  lemma {:induction false} HasInLeaves(t: Tree, k: int, r: Rid)
    ensures Has(t, k, r) <==> exists i :: 0 <= i < |Leaves(t)| && Has(Leaves(t)[i], k, r)
    decreases t
  {
    if t.TLeaf? {
      assert Leaves(t)[0] == t;
    } else {
      HasInLeavesOf(t.kids, k, r);
      assert Leaves(t) == LeavesOf(t.kids);
    }
  }

  lemma {:induction false} HasInLeavesOf(kids: seq<Tree>, k: int, r: Rid)
    ensures (exists i :: 0 <= i < |kids| && Has(kids[i], k, r))
       <==> exists i :: 0 <= i < |LeavesOf(kids)| && Has(LeavesOf(kids)[i], k, r)
    decreases kids
  {
    if kids != [] {
      var a, b, ls := Leaves(kids[0]), LeavesOf(kids[1..]), LeavesOf(kids);
      assert ls == a + b;
      HasInLeaves(kids[0], k, r);
      HasInLeavesOf(kids[1..], k, r);
      assert forall i :: 0 < i < |kids| ==> kids[1..][i - 1] == kids[i];
      hide *;
      if i :| 0 <= i < |kids| && Has(kids[i], k, r) {
        if i == 0 {
          var j :| 0 <= j < |a| && Has(a[j], k, r);
          assert ls[j] == a[j];
        } else {
          assert Has(kids[1..][i - 1], k, r);
          var j :| 0 <= j < |b| && Has(b[j], k, r);
          assert ls[|a| + j] == b[j];
        }
      }
      if j :| 0 <= j < |ls| && Has(ls[j], k, r) {
        if j < |a| {
          assert Has(a[j], k, r);
        } else {
          assert Has(b[j - |a|], k, r);
          var i :| 0 <= i < |kids[1..]| && Has(kids[1..][i], k, r);
          assert Has(kids[i + 1], k, r);
        }
      }
    }
  }

  /** Leaves left of child `c` hold only keys below its separator. */
  lemma {:induction false} LeftSiblingsBelow(keys: seq<int>, kids: seq<Tree>, ns: map<PageId, BTreeNode>, h: nat,
                                             lo: int, hi: int, end: Option<PageId>, c: nat)
    requires |kids| == |keys| + 1 && c < |kids|
    requires GoodKids(keys, kids, ns, h, lo, hi, end)
    ensures forall i, k :: 0 <= i < |LeavesOf(kids[..c])| && k in LeavesOf(kids[..c])[i].keys ==>
      c > 0 && k < keys[c - 1]
  {
    if c > 0 {
      hide *;
      KidsCut(keys, kids, ns, h, lo, hi, end, c - 1);
      KidsChained(keys[..c - 1], kids[..c], ns, h, lo, keys[c - 1], Some(First(kids[c])), 0);
      assert kids[..c][0..] == kids[..c];
      assert Chain(LeavesOf(kids[..c]), ns, Lo(keys[..c - 1], lo, 0), keys[c - 1], Some(First(kids[c])));
      ChainBound(LeavesOf(kids[..c]), ns, Lo(keys[..c - 1], lo, 0), keys[c - 1], Some(First(kids[c])));
    } else {
      assert kids[..c] == [];
    }
  }

  lemma {:induction false} ChainBound(ls: seq<Tree>, ns: map<PageId, BTreeNode>, lo: int, hi: int, end: Option<PageId>)
    requires Chain(ls, ns, lo, hi, end)
    ensures forall i, k :: 0 <= i < |ls| && k in ls[i].keys ==> k < hi
  {
  }

  lemma {:induction false} LeafAlone(t: Tree, key: int)
    requires t.TLeaf?
    ensures Leaves(t) == [t] && LeafFor(t, key) == t
  {
  }

  lemma {:induction false} LeafForKid(t: Tree, key: int, c: nat)
    requires t.TNode? && c < |t.kids| && c == FindChildIndex(t.keys, key)
    ensures LeafFor(t, key) == LeafFor(t.kids[c], key)
    ensures Leaves(t) == LeavesOf(t.kids[..c]) + Leaves(t.kids[c]) + LeavesOf(t.kids[c + 1..])
  {
    LeavesAround(t.kids, c);
  }

  lemma {:induction false} InMiddle(ls: seq<Tree>, pre: seq<Tree>, own: seq<Tree>, post: seq<Tree>, q: nat, key: int,
                                    sep: int)
    requires ls == pre + own + post && q < |own| && sep <= key
    requires forall i, k :: 0 <= i < |pre| && k in pre[i].keys ==> k < sep
    requires forall i, k :: 0 <= i < q && k in own[i].keys ==> k < key
    ensures |pre| + q < |ls| && ls[|pre| + q] == own[q]
    ensures forall i, k :: 0 <= i < |pre| + q && k in ls[i].keys ==> k < key
  {
    forall i, k | 0 <= i < |pre| + q && k in ls[i].keys ensures k < key {
      assert ls[i] == if i < |pre| then pre[i] else own[i - |pre|];
    }
  }

  /** The routed leaf is a member of the chain; leaves before it hold only smaller keys. */
  lemma {:induction false} LeafForPosition(t: Tree, ns: map<PageId, BTreeNode>, h: nat, lo: int, hi: int,
                                           end: Option<PageId>, key: int) returns (p: nat)
    requires Good(t, ns, h, lo, hi, end)
    ensures p < |Leaves(t)| && Leaves(t)[p] == LeafFor(t, key)
    ensures forall i, k :: 0 <= i < p && k in Leaves(t)[i].keys ==> k < key
    decreases t
  {
    hide *;
    if t.TLeaf? {
      LeafAlone(t, key);
      p := 0;
    } else {
      NodeParts(t, ns, h, lo, hi, end);
      var c := FindChildIndex(t.keys, key);
      KidGood(t.keys, t.kids, ns, h - 1, lo, hi, end, c);
      var pre, own, post := LeavesOf(t.kids[..c]), Leaves(t.kids[c]), LeavesOf(t.kids[c + 1..]);
      LeafForKid(t, key, c);
      var q := LeafForPosition(t.kids[c], ns, h - 1, Lo(t.keys, lo, c), Hi(t.keys, hi, c), End(t.kids, end, c), key);
      p := |pre| + q;
      LeftSiblingsBelow(t.keys, t.kids, ns, h - 1, lo, hi, end, c);
      InMiddle(Leaves(t), pre, own, post, q, key, if c > 0 then t.keys[c - 1] else key);
    }
  }

  // --- How full nodes are ---

  /** Leaves and internal nodes hold at most seven keys; an internal node has a child more than keys, and below the
      root at least four children. */
  lemma {:induction false} NodeSizes(t: Tree, ns: map<PageId, BTreeNode>, h: nat, lo: int, hi: int, end: Option<PageId>,
                                     id: PageId)
    requires InTree(t, id) && Good(t, ns, h, lo, hi, end)
    ensures id in ns && |ns[id].keys| <= 7
    ensures ns[id].Leaf? ==> |ns[id].rids| == |ns[id].keys|
    ensures ns[id].Internal? ==> |ns[id].children| == |ns[id].keys| + 1
    ensures ns[id].Internal? && id != t.id ==> |ns[id].children| >= 4
    decreases t
  {
    hide Disjoint, Ascending, Lo, Hi, End;
    if t.TNode? {
      NodeParts(t, ns, h, lo, hi, end);
      if id != t.id {
        var i :| 0 <= i < |t.kids| && InTree(t.kids[i], id);
        KidGood(t.keys, t.kids, ns, h - 1, lo, hi, end, i);
        NodeSizes(t.kids[i], ns, h - 1, Lo(t.keys, lo, i), Hi(t.keys, hi, i), End(t.kids, end, i), id);
        if id == t.kids[i].id { assert HalfFull(t.kids[i]); }
      }
    }
  }
}
