/** The B+tree index of src/index/btree.rs: nodes in a map from page id to node, updated in place. */
module BTree {
  import opened Common
  import opened Node
  import opened BTreeShape
  import opened BTreeGrowth

  /** What a split hands to the parent. */
  datatype SplitResult = SplitResult(promotedKey: int, newPageId: PageId)

  /** `rids` are the record ids of the keys in [start, end], in ascending key order. */
  ghost predicate RangeOf(contents: map<int, Rid>, start: int, end: int, rids: seq<Rid>) {
    exists ks: seq<int> :: RangeKeys(contents, start, end, ks, rids)
  }

  ghost predicate RangeKeys(contents: map<int, Rid>, start: int, end: int, ks: seq<int>, rids: seq<Rid>) {
    && Ascending(ks) && |rids| == |ks|
    && (forall k :: k in ks <==> k in contents && start <= k <= end)
    && (forall i :: 0 <= i < |ks| ==> ks[i] in contents && rids[i] == contents[ks[i]])
  }

  /** `RangeOf` leaves no choice: contents and bounds determine the scan's result. */
  lemma {:induction false} RangeUnique(contents: map<int, Rid>, start: int, end: int, a: seq<Rid>, b: seq<Rid>)
    requires RangeOf(contents, start, end, a) && RangeOf(contents, start, end, b)
    ensures a == b
  {
    var ka :| RangeKeys(contents, start, end, ka, a);
    var kb :| RangeKeys(contents, start, end, kb, b);
    AscendingUnique(ka, kb);
  }

  lemma {:induction false} AscendingUnique(a: seq<int>, b: seq<int>)
    requires Ascending(a) && Ascending(b) && forall k :: k in a <==> k in b
    ensures a == b
  {
    assert |a| > 0 ==> a[0] in a;
    assert |b| > 0 ==> b[0] in b;
    if |a| > 0 && |b| > 0 {
      assert a[0] == b[0] by {
        assert a[0] in a && b[0] in b;
        var i :| 0 <= i < |b| && b[i] == a[0];
        var j :| 0 <= j < |a| && a[j] == b[0];
      }
      forall k ensures k in a[1..] <==> k in b[1..] {
        assert a == [a[0]] + a[1..] && b == [b[0]] + b[1..];
        if k in a[1..] {
          var i :| 0 <= i < |a[1..]| && a[1..][i] == k;
          assert a[i + 1] == k && a[0] < a[i + 1] && k in b;
        }
        if k in b[1..] {
          var i :| 0 <= i < |b[1..]| && b[1..][i] == k;
          assert b[i + 1] == k && b[0] < b[i + 1] && k in a;
        }
      }
      AscendingUnique(a[1..], b[1..]);
      assert a == [a[0]] + a[1..] && b == [b[0]] + b[1..];
    }
  }

  /** The whole tree is good, holds exactly `contents`, and is no bigger than `inserts` insertions explain. */
  ghost predicate Sound(tree: Tree, nodes: map<PageId, BTreeNode>, height: nat, contents: map<int, Rid>, inserts: nat) {
    && Good(tree, nodes, height, MIN_KEY, MAX_KEY + 1, None)
    && Holds(tree, contents)
    && (height == 0 ==> tree.TLeaf? && |tree.keys| <= inserts)
    && (height > 0 ==> tree.TNode? && Weight(tree) <= inserts)
  }

  ghost predicate Holds(tree: Tree, contents: map<int, Rid>) {
    forall k, r :: Has(tree, k, r) <==> k in contents && contents[k] == r
  }

  class BTree {
    var nodes: map<PageId, BTreeNode>
    var nextPageId: PageId
    var rootId: PageId

    ghost var tree: Tree
    ghost var height: nat
    /** The finite map this index stands for. */
    ghost var contents: map<int, Rid>
    /** How many insertions this tree has seen. */
    ghost var inserts: nat

    ghost predicate Valid()
      reads this
    {
      tree.id == rootId && Below(nodes, nextPageId) && Sound(tree, nodes, height, contents, inserts)
    }

    constructor ()
      ensures Valid() && contents == map[] && height == 0 && inserts == 0
    {
      nodes := map[0 := Leaf([], [], None)];
      nextPageId := 1;
      rootId := 0;
      tree := TLeaf(0, [], [], None);
      height, contents, inserts := 0, map[], 0;
    }

    /** Follows children from the root down to the leaf `key` belongs in. */
    method FindLeaf(key: int) returns (leafId: PageId)
      requires Valid()
      ensures leafId == LeafFor(tree, key).id && leafId in nodes
      ensures LeafFor(tree, key).TLeaf? && nodes[leafId] == LeafNodeOf(LeafFor(tree, key))
    {
      leafId := rootId;
      ghost var t, h, lo, hi, end := tree, height, MIN_KEY, MAX_KEY + 1, None;
      hide Good, GoodKids, First, Has, Weight;
      StoredNode(t, nodes, h, lo, hi, end);
      while nodes[leafId].Internal?
        invariant leafId == t.id && leafId in nodes
        invariant Good(t, nodes, h, lo, hi, end)
        invariant nodes[leafId] == LeafNodeOf(t)
        invariant LeafFor(t, key) == LeafFor(tree, key)
        decreases h
      {
        var node := nodes[leafId];
        NodeParts(t, nodes, h, lo, hi, end);
        var idx := FindChildIndex(node.keys, key);
        leafId := node.children[idx];
        KidGood(t.keys, t.kids, nodes, h - 1, lo, hi, end, idx);
        t, h, lo, hi, end := t.kids[idx], h - 1, Lo(t.keys, lo, idx), Hi(t.keys, hi, idx), End(t.kids, end, idx);
        StoredNode(t, nodes, h, lo, hi, end);
      }
    }

    /** The record id stored under `key`, if any. */
    method Search(key: int) returns (r: Option<Rid>)
      requires Valid()
      ensures r == if key in contents then Some(contents[key]) else None
    {
      var leafId := FindLeaf(key);
      var leaf := nodes[leafId];
      LeafForParts(key);
      KeyInLeaf(key);
      match FindKeyIndex(leaf.keys, key)
      case None =>
        r := None;
      case Some(i) =>
        r := Some(leaf.rids[i]);
        LeafForHas(tree, nodes, height, MIN_KEY, MAX_KEY + 1, None, key, leaf.rids[i]);
        assert Has(LeafFor(tree, key), key, leaf.rids[i]);
    }

    lemma {:induction false} LeafForParts(key: int)
      requires Valid()
      ensures var f := LeafFor(tree, key); f.TLeaf? && |f.keys| == |f.rids| && Ascending(f.keys)
    {
      var p := LeafForPosition(tree, nodes, height, MIN_KEY, MAX_KEY + 1, None, key);
      LeavesChained(tree, nodes, height, MIN_KEY, MAX_KEY + 1, None);
    }

    /** Stores a node on the next free page. */
    method AllocPage(node: BTreeNode) returns (id: PageId)
      modifies this`nodes, this`nextPageId
      ensures id == old(nextPageId) && nextPageId == old(nextPageId) + 1
      ensures nodes == old(nodes)[id := node]
    {
      id := nextPageId;
      nextPageId := nextPageId + 1;
      nodes := nodes[id := node];
    }

    method SplitLeaf(leftId: PageId, left: BTreeNode) returns (split: SplitResult)
      requires left.Leaf? && |left.keys| == |left.rids| && |left.keys| >= 2
      requires leftId < nextPageId
      modifies this`nodes, this`nextPageId
      ensures nextPageId == old(nextPageId) + 1 && split.newPageId == old(nextPageId)
      ensures split.promotedKey == left.keys[|left.keys| / 2]
      ensures var mid := |left.keys| / 2;
              nodes == old(nodes)
                [split.newPageId := Leaf(left.keys[mid..], left.rids[mid..], left.next)]
                [leftId := Leaf(left.keys[..mid], left.rids[..mid], Some(split.newPageId))]
    {
      var mid := |left.keys| / 2;
      var right := Leaf(left.keys[mid..], left.rids[mid..], left.next);
      var rightId := AllocPage(right);
      var promotedKey := right.keys[0];
      nodes := nodes[leftId := Leaf(left.keys[..mid], left.rids[..mid], Some(rightId))];
      split := SplitResult(promotedKey, rightId);
    }

    method SplitInternal(leftId: PageId, left: BTreeNode) returns (split: SplitResult)
      requires left.Internal? && |left.children| == |left.keys| + 1 && |left.keys| >= 1
      requires leftId < nextPageId
      modifies this`nodes, this`nextPageId
      ensures nextPageId == old(nextPageId) + 1 && split.newPageId == old(nextPageId)
      ensures split.promotedKey == left.keys[|left.keys| / 2]
      ensures var mid := |left.keys| / 2;
              nodes == old(nodes)
                [split.newPageId := Internal(left.keys[mid + 1..], left.children[mid + 1..])]
                [leftId := Internal(left.keys[..mid], left.children[..mid + 1])]
    {
      var mid := |left.keys| / 2;
      var promotedKey := left.keys[mid];
      var right := Internal(left.keys[mid + 1..], left.children[mid + 1..]);
      var leftKeys := left.keys[..mid + 1];
      leftKeys := leftKeys[..|leftKeys| - 1];
      assert leftKeys == left.keys[..mid];
      var rightId := AllocPage(right);
      nodes := nodes[leftId := Internal(leftKeys, left.children[..mid + 1])];
      split := SplitResult(promotedKey, rightId);
    }

    /** Inserts below `pageId`. A split is returned to the caller; otherwise the subtree kept its page. */
    method InsertRecursive(pageId: PageId, key: int, rid: Rid,
                           ghost t: Tree, ghost h: nat, ghost lo: int, ghost hi: int, ghost end: Option<PageId>)
      returns (split: Option<SplitResult>, ghost l: Tree, ghost r: Tree)
      requires pageId == t.id && Good(t, nodes, h, lo, hi, end) && Below(nodes, nextPageId)
      requires lo <= key < hi && forall x :: !Has(t, key, x)
      modifies this`nodes, this`nextPageId
      ensures nextPageId >= old(nextPageId) && Below(nodes, nextPageId)
      ensures ChangedOnly(t, old(nodes), nodes)
      ensures split.None? ==> Kept(t, nodes, h, lo, hi, end, l, key, rid, old(nextPageId), nextPageId)
      ensures split.Some? ==>
        && r.id == split.value.newPageId
        && Halved(t, nodes, h, lo, hi, end, l, r, split.value.promotedKey, key, rid, old(nextPageId), nextPageId)
      decreases t, 1
    {
      hide Good, GoodKids, Kept, Halved, Has, InTree, Weight, First, HalfFull;
      StoredNode(t, nodes, h, lo, hi, end);
      var node := nodes[pageId];
      match node
      case Leaf(keys, rids, next) =>
        split, l, r := InsertLeaf(pageId, keys, rids, next, key, rid, t, h, lo, hi, end);
      case Internal(keys, children) =>
        split, l, r := InsertInternal(pageId, keys, children, key, rid, t, h, lo, hi, end);
    }

    /** The leaf case of `InsertRecursive`. */
    method InsertLeaf(pageId: PageId, keys: seq<int>, rids: seq<Rid>, next: Option<PageId>, key: int, rid: Rid,
                      ghost t: Tree, ghost h: nat, ghost lo: int, ghost hi: int, ghost end: Option<PageId>)
      returns (split: Option<SplitResult>, ghost l: Tree, ghost r: Tree)
      requires Good(t, nodes, h, lo, hi, end) && Below(nodes, nextPageId)
      requires t == TLeaf(pageId, keys, rids, next)
      requires lo <= key < hi && forall x :: !Has(t, key, x)
      modifies this`nodes, this`nextPageId
      ensures nextPageId >= old(nextPageId) && Below(nodes, nextPageId)
      ensures ChangedOnly(t, old(nodes), nodes)
      ensures split.None? ==> Kept(t, nodes, h, lo, hi, end, l, key, rid, old(nextPageId), nextPageId)
      ensures split.Some? ==>
        && r.id == split.value.newPageId
        && Halved(t, nodes, h, lo, hi, end, l, r, split.value.promotedKey, key, rid, old(nextPageId), nextPageId)
      decreases t, 0
    {
      LeafParts(t, nodes, h, lo, hi, end);
      LeafLacks(t, key);
      hide Good, Kept, Halved, Has, InsertPosition, Ascending;
      var pos := InsertPosition(keys, key);
      var keys' := Inserted(keys, pos, key);
      var rids' := Inserted(rids, pos, rid);
      if IsFull(keys') {
        ghost var before, to := nodes, nextPageId;
        var sp := SplitLeaf(pageId, Leaf(keys', rids', next));
        split := Some(sp);
        ghost var mid := |keys'| / 2;
        l := TLeaf(pageId, keys'[..mid], rids'[..mid], Some(to));
        r := TLeaf(to, keys'[mid..], rids'[mid..], next);
        LeafHalves(t, before, h, lo, hi, end, key, rid, to, to, keys', rids', l, r);
      } else {
        l := TLeaf(pageId, keys', rids', next);
        r := l;
        LeafKept(t, nodes, h, lo, hi, end, key, rid, nextPageId, nextPageId, l);
        nodes := nodes[pageId := Leaf(keys', rids', next)];
        split := None;
      }
    }

    /** The internal case of `InsertRecursive`. */
    method InsertInternal(pageId: PageId, keys: seq<int>, children: seq<PageId>, key: int, rid: Rid,
                          ghost t: Tree, ghost h: nat, ghost lo: int, ghost hi: int, ghost end: Option<PageId>)
      returns (split: Option<SplitResult>, ghost l: Tree, ghost r: Tree)
      requires Good(t, nodes, h, lo, hi, end) && Below(nodes, nextPageId)
      requires t.TNode? && t.id == pageId && t.keys == keys && IdSeq(t.kids) == children
      requires lo <= key < hi && forall x :: !Has(t, key, x)
      modifies this`nodes, this`nextPageId
      ensures nextPageId >= old(nextPageId) && Below(nodes, nextPageId)
      ensures ChangedOnly(t, old(nodes), nodes)
      ensures split.None? ==> Kept(t, nodes, h, lo, hi, end, l, key, rid, old(nextPageId), nextPageId)
      ensures split.Some? ==>
        && r.id == split.value.newPageId
        && Halved(t, nodes, h, lo, hi, end, l, r, split.value.promotedKey, key, rid, old(nextPageId), nextPageId)
      decreases t, 0
    {
      hide Good, GoodKids, Kept, Halved, Has, InTree, Weight, First, HalfFull, Ascending;
      NodeParts(t, nodes, h, lo, hi, end);
      var childIdx := FindChildIndex(keys, key);
      var childId := children[childIdx];
      ghost var kid := t.kids[childIdx];
      KidGood(t.keys, t.kids, nodes, h - 1, lo, hi, end, childIdx);
      RoutedInside(t.keys, lo, hi, key);
      InKid(t, childIdx);
      ghost var before, from := nodes, nextPageId;
      var s, kl, kr := InsertRecursive(childId, key, rid, kid, h - 1,
        Lo(t.keys, lo, childIdx), Hi(t.keys, hi, childIdx), End(t.kids, end, childIdx));
      assert pageId in nodes && pageId < from && ChangedOnly(kid, before, nodes);
      match s {
        case Some(sp) =>
          split, l, r := AddChild(pageId, keys, children, childIdx, sp, key, rid, t, h, lo, hi, end, before, from, kl,
                                  kr);
        case None =>
          NodeKept(t, before, nodes, h, lo, hi, end, childIdx, kl, key, rid, from, nextPageId);
          nodes := nodes[pageId := Internal(keys, children)];
          split, l := None, TNode(t.id, t.keys, t.kids[childIdx := kl]);
          r := l;
      }
    }

    /** The internal case when the child split: one more separator, possibly a split of this node. */
    method AddChild(pageId: PageId, keys: seq<int>, children: seq<PageId>, childIdx: nat, sp: SplitResult, key: int,
                    rid: Rid,
                    ghost t: Tree, ghost h: nat, ghost lo: int, ghost hi: int, ghost end: Option<PageId>,
                    ghost before: map<PageId, BTreeNode>, ghost from: PageId, ghost kl: Tree, ghost kr: Tree)
      returns (split: Option<SplitResult>, ghost l: Tree, ghost r: Tree)
      requires ChildHalved(t, before, nodes, h, lo, hi, end, childIdx, kl, kr, sp.promotedKey, key, rid, from,
                           nextPageId)
      requires pageId == t.id && t.TNode? && keys == t.keys && children == IdSeq(t.kids) && kr.id == sp.newPageId
      modifies this`nodes, this`nextPageId
      ensures nextPageId >= old(nextPageId) && Below(nodes, nextPageId)
      ensures ChangedOnly(t, before, nodes)
      ensures split.None? ==> Kept(t, nodes, h, lo, hi, end, l, key, rid, from, nextPageId)
      ensures split.Some? ==>
        && r.id == split.value.newPageId
        && Halved(t, nodes, h, lo, hi, end, l, r, split.value.promotedKey, key, rid, from, nextPageId)
    {
      hide Good, Kept, Halved, Has, InTree, Weight, ChildHalved, ChangedOnly, Below, Inserted, IdSeq;
      ghost var after, to := nodes, nextPageId;
      ChildHalvedParts(t, before, after, h, lo, hi, end, childIdx, kl, kr, sp.promotedKey, key, rid, from, to);
      var keys' := Inserted(keys, childIdx, sp.promotedKey);
      var children' := Inserted(children, childIdx + 1, sp.newPageId);
      ghost var kids' := Inserted(t.kids[childIdx := kl], childIdx + 1, kr);
      if IsFull(keys') {
        var s := SplitInternal(pageId, Internal(keys', children'));
        split := Some(s);
        l, r := AddedFull(t, before, after, nodes, h, lo, hi, end, childIdx, kl, kr, sp.promotedKey, key, rid, from, to,
                          keys', kids');
      } else {
        AddedRoom(t, before, after, h, lo, hi, end, childIdx, kl, kr, sp.promotedKey, key, rid, from, to, keys', kids');
        nodes := nodes[pageId := Internal(keys', children')];
        split, l := None, TNode(t.id, keys', kids');
        r := l;
      }
    }

    /** Adds `key -> rid`. The executor calls this only for keys not in the index. */
    method Insert(key: int, rid: Rid)
      requires Valid()
      requires MIN_KEY <= key <= MAX_KEY && key !in contents
      modifies this
      ensures Valid()
      ensures contents == old(contents)[key := rid]
      ensures inserts == old(inserts) + 1
    {
      hide Good, Has, Weight, Kept, Halved, Sound, Below;
      ghost var t0, from, h := tree, nextPageId, height;
      SoundParts(tree, nodes, height, contents, inserts, key);
      var split, l, r := InsertRecursive(rootId, key, rid, tree, height, MIN_KEY, MAX_KEY + 1, None);
      match split {
        case None =>
          RootKept(t0, nodes, h, l, key, rid, from, nextPageId, contents, inserts);
          tree := l;
        case Some(sp) =>
          ghost var root := TNode(nextPageId, [sp.promotedKey], [l, r]);
          NewRoot(t0, nodes, h, l, r, sp.promotedKey, key, rid, from, nextPageId, root, contents, inserts);
          var newRootId := AllocPage(Internal([sp.promotedKey], [rootId, sp.newPageId]));
          rootId := newRootId;
          tree, height := root, height + 1;
      }
      contents := contents[key := rid];
      inserts := inserts + 1;
    }

    /** Removes `key` from its leaf; no node is ever merged or freed. */
    method Delete(key: int) returns (found: bool)
      requires Valid()
      modifies this
      ensures Valid()
      ensures found == (key in old(contents))
      ensures contents == old(contents) - {key}
      ensures inserts == old(inserts) && height == old(height) && nextPageId == old(nextPageId)
    {
      var leafId := FindLeaf(key);
      var leaf := nodes[leafId];
      DeleteKeeps(key);
      hide Good, Has, Weight, Removed, LeafFor, Sound;
      match FindKeyIndex(leaf.keys, key)
      case None =>
        found := false;
      case Some(idx) =>
        nodes := nodes[leafId := Leaf(leaf.keys[..idx] + leaf.keys[idx + 1..], leaf.rids[..idx] + leaf.rids[idx + 1..],
                                      leaf.next)];
        found := true;
        tree := Removed(tree, key);
        contents := contents - {key};
    }

    /** What `Delete` relies on: the tree with `key` removed is sound in the heap with one leaf rewritten. */
    lemma {:induction false} DeleteKeeps(key: int)
      requires Valid()
      ensures var f := LeafFor(tree, key);
        && f.TLeaf? && |f.keys| == |f.rids| && f.id in nodes && (key in f.keys <==> key in contents)
        && (key in contents ==>
             var idx := FindKeyIndex(f.keys, key).value;
             Sound(Removed(tree, key),
                   nodes[f.id := Leaf(f.keys[..idx] + f.keys[idx + 1..], f.rids[..idx] + f.rids[idx + 1..], f.next)],
                   height, contents - {key}, inserts))
      ensures Removed(tree, key).id == tree.id
    {
      hide Good, Has, Weight, InTree, First;
      LeafForParts(key);
      KeyInLeaf(key);
      RemovedGood(tree, nodes, height, MIN_KEY, MAX_KEY + 1, None, key, nextPageId);
      RemovedWeighsLess(tree, key);
      GoodStored(tree, nodes, height, MIN_KEY, MAX_KEY + 1, None, LeafFor(tree, key).id);
    }

    /** Every record id whose key lies in [start, end], by walking the leaf chain. */
    method RangeScan(start: int, end: int) returns (results: seq<Rid>)
      requires Valid()
      ensures RangeOf(contents, start, end, results)
    {
      hide Valid, Leaves, LeafFor, Good, Has, Scanned, HoldsAll, Ascending;
      results := [];
      var leafId := FindLeaf(start);
      ghost var ks: seq<int> := [];
      ghost var ls, j := ScanSetup(start, end);
      while true
        invariant j < |ls| && leafId == ls[j].id && leafId in nodes
        invariant Chain(ls, nodes, MIN_KEY, MAX_KEY + 1, None) && HoldsAll(ls, contents)
        invariant Scanned(ls, contents, start, end, j, 0, ks, results)
        decreases |ls| - j
      {
        var leaf := nodes[leafId];
        assert leaf == Leaf(ls[j].keys, ls[j].rids, ls[j].next);
        var i := 0;
        while i < |leaf.keys|
          invariant 0 <= i <= |leaf.keys|
          invariant i <= |ls[j].keys| && Scanned(ls, contents, start, end, j, i, ks, results)
        {
          var key := leaf.keys[i];
          if key > end {
            ScanStops(ls, nodes, contents, start, end, j, i, ks, results);
            return;
          }
          ScanStep(ls, nodes, contents, start, end, j, i, ks, results);
          if key >= start {
            results := results + [leaf.rids[i]];
            ks := ks + [key];
          }
          i := i + 1;
        }
        assert Follows(ls, j, None);
        match leaf.next
        case None =>
          ScanEnds(ls, contents, start, end, ks, results);
          break;
        case Some(nextId) =>
          leafId := nextId;
          ScanNext(ls, contents, start, end, j, ks, results);
          j := j + 1;
          assert ls[j].id in nodes;
      }
    }

    lemma {:induction false} ScanSetup(start: int, end: int) returns (ls: seq<Tree>, j: nat)
      requires Valid()
      ensures j < |ls| && ls[j] == LeafFor(tree, start)
      ensures Chain(ls, nodes, MIN_KEY, MAX_KEY + 1, None) && HoldsAll(ls, contents)
      ensures Scanned(ls, contents, start, end, j, 0, [], [])
    {
      hide Good, Has, HoldsAll, Chain, Leaves, LeafFor, Scanned, Weight;
      ls := Leaves(tree);
      LeavesChained(tree, nodes, height, MIN_KEY, MAX_KEY + 1, None);
      HoldsContents();
      j := LeafForPosition(tree, nodes, height, MIN_KEY, MAX_KEY + 1, None, start);
      ScanStart(ls, contents, start, end, j);
    }

    lemma {:induction false} HoldsContents()
      requires Valid()
      ensures HoldsAll(Leaves(tree), contents)
    {
      var ls := Leaves(tree);
      LeavesChained(tree, nodes, height, MIN_KEY, MAX_KEY + 1, None);
      forall i, x | 0 <= i < |ls| && 0 <= x < |ls[i].keys|
        ensures ls[i].keys[x] in contents && contents[ls[i].keys[x]] == ls[i].rids[x]
      {
        HasInLeaves(tree, ls[i].keys[x], ls[i].rids[x]);
        assert Has(ls[i], ls[i].keys[x], ls[i].rids[x]);
      }
      forall k | k in contents ensures exists i :: 0 <= i < |ls| && k in ls[i].keys {
        assert Has(tree, k, contents[k]);
        HasInLeaves(tree, k, contents[k]);
        var i :| 0 <= i < |ls| && Has(ls[i], k, contents[k]);
        assert k in ls[i].keys;
      }
    }

    lemma {:induction false} KeyInLeaf(key: int)
      requires Valid()
      ensures var f := LeafFor(tree, key); f.TLeaf? && (key in f.keys <==> key in contents)
    {
      LeafForParts(key);
      var f := LeafFor(tree, key);
      if key in f.keys {
        var j :| 0 <= j < |f.keys| && f.keys[j] == key;
        LeafForHas(tree, nodes, height, MIN_KEY, MAX_KEY + 1, None, key, f.rids[j]);
        assert Has(f, key, f.rids[j]);
      }
      if key in contents {
        LeafForHas(tree, nodes, height, MIN_KEY, MAX_KEY + 1, None, key, contents[key]);
        assert Has(tree, key, contents[key]);
      }
    }

    /** Depth is logarithmic in the number of insertions, whatever was deleted in between. */
    lemma {:induction false} DepthBound()
      requires Valid() && height > 0
      ensures |Leaves(tree)| >= 2 * Pow4(height - 1)
      ensures inserts >= 8 * Pow4(height - 1)
    {
      ManyLeaves(tree, nodes, height, MIN_KEY, MAX_KEY + 1, None);
      WeightCoversLeaves(tree);
    }
  }

  // --- Small facts used by the insertion methods ---

  lemma {:induction false} StoredNode(t: Tree, ns: map<PageId, BTreeNode>, h: nat, lo: int, hi: int,
                                      end: Option<PageId>)
    requires Good(t, ns, h, lo, hi, end)
    ensures t.id in ns && ns[t.id] == LeafNodeOf(t)
  {
  }

  lemma {:induction false} IdSeqInserted(kids: seq<Tree>, c: nat, l: Tree, r: Tree)
    requires c < |kids| && l.id == kids[c].id
    ensures IdSeq(Inserted(kids[c := l], c + 1, r)) == Inserted(IdSeq(kids), c + 1, r.id)
    ensures |IdSeq(kids)| == |kids|
  {
  }

  lemma {:induction false} IdSeqSlices(kids: seq<Tree>, n: nat)
    requires n <= |kids|
    ensures |IdSeq(kids)| == |kids|
    ensures IdSeq(kids[..n]) == IdSeq(kids)[..n] && IdSeq(kids[n..]) == IdSeq(kids)[n..]
  {
  }

  /** Child `c` of `t` halved while the rest of the heap `before` stayed as it was. */
  ghost predicate ChildHalved(t: Tree, before: map<PageId, BTreeNode>, after: map<PageId, BTreeNode>, h: nat, lo: int,
                              hi: int,
                              end: Option<PageId>, c: nat, kl: Tree, kr: Tree, pk: int, key: int, rid: Rid,
                              from: PageId, to: PageId) {
    && t.TNode? && h > 0 && lo < hi && t.id < from <= to
    && |t.kids| == |t.keys| + 1 && c < |t.kids| && 1 <= |t.keys| < 2 * ORDER
    && Good(t, before, h, lo, hi, end) && Below(before, from) && Below(after, to)
    && ChangedOnly(t.kids[c], before, after)
    && Halved(t.kids[c], after, h - 1, Lo(t.keys, lo, c), Hi(t.keys, hi, c), End(t.kids, end, c), kl, kr, pk, key, rid,
              from, to)
  }

  lemma {:induction false} ChildHalvedParts(t: Tree, before: map<PageId, BTreeNode>, after: map<PageId, BTreeNode>,
                                            h: nat, lo: int, hi: int,
                                            end: Option<PageId>, c: nat, kl: Tree, kr: Tree, pk: int, key: int,
                                            rid: Rid, from: PageId, to: PageId)
    requires ChildHalved(t, before, after, h, lo, hi, end, c, kl, kr, pk, key, rid, from, to)
    ensures t.TNode? && |t.kids| == |t.keys| + 1 && c < |t.kids| && 1 <= |t.keys| && t.id < to &&
            |IdSeq(t.kids)| == |t.kids|
    ensures IdSeq(Inserted(t.kids[c := kl], c + 1, kr)) == Inserted(IdSeq(t.kids), c + 1, kr.id)
  {
    hide Good, Has, InTree, Weight;
    IdSeqInserted(t.kids, c, kl, kr);
  }

  /** The child's page range is the parent's, so one more write on the parent's page stays local. */
  lemma {:induction false} LocalWrites(t: Tree, c: nat, before: map<PageId, BTreeNode>, after: map<PageId, BTreeNode>,
                                       from: PageId, to: PageId, own: BTreeNode, fresh': BTreeNode)
    requires t.TNode? && c < |t.kids| && ChangedOnly(t.kids[c], before, after) && Below(before, from) &&
             Below(after, to) && t.id < from <= to
    ensures ChangedOnly(t, before, after[t.id := own]) && Below(after[t.id := own], to)
    ensures ChangedOnly(t, before, after[to := fresh'][t.id := own]) && Below(after[to := fresh'][t.id := own], to + 1)
  {
    InKid(t, c);
    hide InTree, Has;
  }

  /** The child halved and this node still has room. */
  lemma {:induction false} AddedRoom(t: Tree, before: map<PageId, BTreeNode>, after: map<PageId, BTreeNode>, h: nat,
                                     lo: int, hi: int,
                                     end: Option<PageId>, c: nat, kl: Tree, kr: Tree, pk: int, key: int, rid: Rid,
                                     from: PageId, to: PageId, keys': seq<int>, kids': seq<Tree>)
    requires ChildHalved(t, before, after, h, lo, hi, end, c, kl, kr, pk, key, rid, from, to)
    requires keys' == Inserted(t.keys, c, pk) && kids' == Inserted(t.kids[c := kl], c + 1, kr) && !IsFull(keys')
    ensures var ns := after[t.id := Internal(keys', IdSeq(kids'))];
            Kept(t, ns, h, lo, hi, end, TNode(t.id, keys', kids'), key, rid, from, to) && ChangedOnly(t, before, ns) &&
            Below(ns, to)
  {
    hide Good, GoodKids, Kept, Halved, Has, InTree, Weight, WeightOf, Lo, Hi, End, Inserted, IdSeq, SameSpot,
      HasOneMore, HalfFull, ChangedOnly, Below;
    LocalWrites(t, c, before, after, from, to, Internal(keys', IdSeq(kids')), Internal(keys', IdSeq(kids')));
    NodeTakesSplit(t, before, after, h, lo, hi, end, c, kl, kr, pk, key, rid, from, to, keys', kids');
    NodeKeptSplit(t, after, h, lo, hi, end, key, rid, from, to, keys', kids');
  }

  /** The child halved and this node halves too. */
  lemma {:induction false} AddedFull(t: Tree, before: map<PageId, BTreeNode>, after: map<PageId, BTreeNode>,
                                     ns: map<PageId, BTreeNode>,
                                     h: nat, lo: int, hi: int, end: Option<PageId>, c: nat, kl: Tree, kr: Tree,
                                     pk: int, key: int, rid: Rid,
                                     from: PageId, to: PageId, keys': seq<int>, kids': seq<Tree>) returns (l: Tree,
                                     r: Tree)
    requires ChildHalved(t, before, after, h, lo, hi, end, c, kl, kr, pk, key, rid, from, to)
    requires keys' == Inserted(t.keys, c, pk) && kids' == Inserted(t.kids[c := kl], c + 1, kr) && IsFull(keys')
    requires |IdSeq(kids')| == |keys'| + 1
    requires var mid := |keys'| / 2;
             var left := Internal(keys'[..mid], IdSeq(kids')[..mid + 1]);
             var right := Internal(keys'[mid + 1..], IdSeq(kids')[mid + 1..]);
             ns == after[to := right][t.id := left]
    ensures r.id == to && Halved(t, ns, h, lo, hi, end, l, r, keys'[|keys'| / 2], key, rid, from, to + 1)
    ensures ChangedOnly(t, before, ns) && Below(ns, to + 1)
  {
    hide Good, GoodKids, Kept, Halved, Has, InTree, Weight, WeightOf, Lo, Hi, End, Inserted, IdSeq, SameSpot,
      HasOneMore, HalfFull, ChangedOnly, Below;
    var mid := |keys'| / 2;
    l := TNode(t.id, keys'[..mid], kids'[..mid + 1]);
    r := TNode(to, keys'[mid + 1..], kids'[mid + 1..]);
    NodeTakesSplit(t, before, after, h, lo, hi, end, c, kl, kr, pk, key, rid, from, to, keys', kids');
    IdSeqSlices(kids', mid + 1);
    LocalWrites(t, c, before, after, from, to, Internal(l.keys, IdSeq(l.kids)), Internal(r.keys, IdSeq(r.kids)));
    NodeHalves(t, after, ns, h, lo, hi, end, key, rid, from, to, keys', kids', mid, l, r);
  }

  lemma {:induction false} LeafLacks(t: Tree, key: int)
    requires t.TLeaf? && |t.keys| == |t.rids| && forall x :: !Has(t, key, x)
    ensures key !in t.keys
  {
    if key in t.keys {
      var j :| 0 <= j < |t.keys| && t.keys[j] == key;
      assert Has(t, key, t.rids[j]);
    }
  }

  lemma {:induction false} RoutedInside(keys: seq<int>, lo: int, hi: int, key: int)
    requires Ascending(keys) && lo <= key < hi
    ensures var c := FindChildIndex(keys, key); Lo(keys, lo, c) <= key < Hi(keys, hi, c)
  {
  }

  lemma {:induction false} SoundParts(tree: Tree, nodes: map<PageId, BTreeNode>, height: nat, contents: map<int, Rid>,
                                      inserts: nat, key: int)
    requires Sound(tree, nodes, height, contents, inserts)
    ensures Good(tree, nodes, height, MIN_KEY, MAX_KEY + 1, None)
    ensures Holds(tree, contents) && (key !in contents ==> forall x :: !Has(tree, key, x))
    ensures height == 0 ==> tree.TLeaf? && |tree.keys| <= inserts
    ensures height > 0 ==> tree.TNode? && Weight(tree) <= inserts
  {
    hide Good, Has, Weight;
  }

  /** The root did not split. */
  lemma {:induction false} RootKept(t: Tree, ns: map<PageId, BTreeNode>, h: nat, l: Tree, key: int, rid: Rid,
                                    from: PageId, to: PageId,
                                    contents: map<int, Rid>, inserts: nat)
    requires Kept(t, ns, h, MIN_KEY, MAX_KEY + 1, None, l, key, rid, from, to)
    requires Holds(t, contents) && key !in contents
    requires (h == 0 ==> t.TLeaf? && |t.keys| <= inserts) && (h > 0 ==> t.TNode? && Weight(t) <= inserts)
    ensures Sound(l, ns, h, contents[key := rid], inserts + 1) && l.id == t.id
  {
    hide Good, Has, InTree, Weight;
  }

  /** The root split: the new root above both halves is good. */
  lemma {:induction false} NewRoot(t: Tree, ns: map<PageId, BTreeNode>, h: nat, l: Tree, r: Tree, pk: int,
                                   key: int, rid: Rid, from: PageId, to: PageId, root: Tree, contents: map<int, Rid>,
                                   inserts: nat)
    requires Halved(t, ns, h, MIN_KEY, MAX_KEY + 1, None, l, r, pk, key, rid, from, to) && Below(ns, to)
    requires root == TNode(to, [pk], [l, r])
    requires Holds(t, contents) && key !in contents
    requires (h == 0 ==> t.TLeaf? && |t.keys| <= inserts) && (h > 0 ==> t.TNode? && Weight(t) <= inserts)
    ensures var ns' := ns[to := Internal([pk], [l.id, r.id])];
            Sound(root, ns', h + 1, contents[key := rid], inserts + 1) && Below(ns', to + 1)
    ensures l.id == t.id
  {
    var keys, kids := [pk], [l, r];
    assert IdSeq(kids) == [l.id, r.id];
    hide Good, Has, InTree, Weight, WeightOf, First, HalfFull;
    RootHas(t, l, r, key, rid, root);
    RootWeight(l, r, root);
    RootKids(ns, h, l, r, pk);
    HalvesFresh(keys, kids, ns, h, MIN_KEY, MAX_KEY + 1, None, to);
    var ns' := ns[to := Internal(keys, [l.id, r.id])];
    hide IdSeq, GoodKids;
    KidsFrame(keys, kids, ns, ns', h, MIN_KEY, MAX_KEY + 1, None);
    MakeNode(to, keys, kids, ns', h, MIN_KEY, MAX_KEY + 1, None);
  }

  lemma {:induction false} RootKids(ns: map<PageId, BTreeNode>, h: nat, l: Tree, r: Tree, pk: int)
    requires MIN_KEY < pk < MAX_KEY + 1 && Disjoint(l, r) && HalfFull(l) && HalfFull(r)
    requires Good(l, ns, h, MIN_KEY, pk, Some(First(r))) && Good(r, ns, h, pk, MAX_KEY + 1, None)
    ensures GoodKids([pk], [l, r], ns, h, MIN_KEY, MAX_KEY + 1, None)
  {
    hide Good, Disjoint, HalfFull, First;
  }

  lemma {:induction false} RootWeight(l: Tree, r: Tree, root: Tree)
    requires root.TNode? && root.kids == [l, r]
    ensures Weight(root) == Weight(l) + Weight(r)
  {
    assert root.kids[1..] == [r] && root.kids[1..][1..] == [];
    assert WeightOf([r]) == Weight(r);
  }

  lemma {:induction false} RootHas(t: Tree, l: Tree, r: Tree, key: int, rid: Rid, root: Tree)
    requires BothHaveOneMore(t, l, r, key, rid) && root.TNode? && root.kids == [l, r]
    ensures HasOneMore(t, root, key, rid)
  {
    forall k, x ensures Has(root, k, x) <==> Has(l, k, x) || Has(r, k, x) {
      if Has(l, k, x) { assert Has(root.kids[0], k, x); }
      if Has(r, k, x) { assert Has(root.kids[1], k, x); }
    }
  }

  lemma {:induction false} RemovedWeighsLess(t: Tree, key: int)
    ensures Weight(Removed(t, key)) <= Weight(t)
    ensures t.TLeaf? ==> Removed(t, key).TLeaf? && |Removed(t, key).keys| <= |t.keys|
    decreases t
  {
    if t.TNode? {
      var i := FindChildIndex(t.keys, key);
      if i < |t.kids| {
        RemovedWeighsLess(t.kids[i], key);
        WeightReplace(t.kids, i, Removed(t.kids[i], key));
      }
    }
  }

  // --- Walking the leaf chain ---

  /** The leaves hold exactly the entries of `contents`. */
  ghost predicate HoldsAll(ls: seq<Tree>, contents: map<int, Rid>) {
    && (forall i :: 0 <= i < |ls| ==> ls[i].TLeaf? && |ls[i].keys| == |ls[i].rids|)
    && (forall i, x :: 0 <= i < |ls| && 0 <= x < |ls[i].keys| ==>
          ls[i].keys[x] in contents && contents[ls[i].keys[x]] == ls[i].rids[x])
    && (forall k :: k in contents ==> exists i :: 0 <= i < |ls| && k in ls[i].keys)
  }

  /** `k` was met before position `n` of leaf `j`. */
  ghost predicate Seen(ls: seq<Tree>, j: nat, n: nat, k: int)
    requires j < |ls| && n <= |ls[j].keys|
  {
    (exists i :: 0 <= i < j && k in ls[i].keys) || k in ls[j].keys[..n]
  }

  ghost predicate Scanned(ls: seq<Tree>, contents: map<int, Rid>, start: int, end: int, j: nat, n: nat,
                          ks: seq<int>, results: seq<Rid>)
    requires j < |ls|
  {
    && n <= |ls[j].keys|
    && Ascending(ks) && |ks| == |results|
    && (forall k :: k in ks <==> start <= k && Seen(ls, j, n, k))
    && (forall k :: k in ks ==> k <= end)
    && (forall i :: 0 <= i < |ks| ==> ks[i] in contents && results[i] == contents[ks[i]])
  }

  lemma {:induction false} ScanStart(ls: seq<Tree>, contents: map<int, Rid>, start: int, end: int, j: nat)
    requires j < |ls| && forall i, k :: 0 <= i < j && k in ls[i].keys ==> k < start
    ensures Scanned(ls, contents, start, end, j, 0, [], [])
  {
    assert ls[j].keys[..0] == [];
  }

  lemma {:induction false} SeenMore(ls: seq<Tree>, j: nat, n: nat, k: int)
    requires j < |ls| && n < |ls[j].keys|
    ensures Seen(ls, j, n + 1, k) <==> Seen(ls, j, n, k) || k == ls[j].keys[n]
  {
    assert ls[j].keys[..n + 1] == ls[j].keys[..n] + [ls[j].keys[n]];
  }

  lemma {:induction false} SeenIsBelow(ls: seq<Tree>, ns: map<PageId, BTreeNode>, j: nat, n: nat, k: int)
    requires Chain(ls, ns, MIN_KEY, MAX_KEY + 1, None) && j < |ls| && n < |ls[j].keys| && Seen(ls, j, n, k)
    ensures k < ls[j].keys[n]
  {
    assert ls[j].keys[n] in ls[j].keys;
  }

  lemma {:induction false} AscendingMore(ks: seq<int>, key: int)
    requires Ascending(ks) && forall k :: k in ks ==> k < key
    ensures Ascending(ks + [key])
  {
    assert forall i :: 0 <= i < |ks| ==> ks[i] in ks;
  }

  lemma {:induction false} ScanStep(ls: seq<Tree>, ns: map<PageId, BTreeNode>, contents: map<int, Rid>, start: int,
                                    end: int,
                                    j: nat, n: nat, ks: seq<int>, results: seq<Rid>)
    requires Chain(ls, ns, MIN_KEY, MAX_KEY + 1, None) && HoldsAll(ls, contents)
    requires j < |ls| && Scanned(ls, contents, start, end, j, n, ks, results) && n < |ls[j].keys|
    requires ls[j].keys[n] <= end
    ensures var key := ls[j].keys[n];
            if key >= start then Scanned(ls, contents, start, end, j, n + 1, ks + [key], results + [ls[j].rids[n]])
            else Scanned(ls, contents, start, end, j, n + 1, ks, results)
  {
    hide Seen, Chain, Ascending;
    var key := ls[j].keys[n];
    forall k ensures Seen(ls, j, n + 1, k) <==> Seen(ls, j, n, k) || k == key {
      SeenMore(ls, j, n, k);
    }
    forall k | k in ks ensures k < key {
      SeenIsBelow(ls, ns, j, n, k);
    }
    AscendingMore(ks, key);
    var ks', rs' := ks + [key], results + [ls[j].rids[n]];
    assert forall k :: k in ks' <==> k in ks || k == key;
    forall i | 0 <= i < |ks'| ensures ks'[i] in contents && rs'[i] == contents[ks'[i]] {
      assert i < |ks| ==> ks'[i] == ks[i] && rs'[i] == results[i];
    }
  }

  lemma {:induction false} ScanNext(ls: seq<Tree>, contents: map<int, Rid>, start: int, end: int, j: nat,
                                    ks: seq<int>, results: seq<Rid>)
    requires j + 1 < |ls| && Scanned(ls, contents, start, end, j, |ls[j].keys|, ks, results)
    ensures Scanned(ls, contents, start, end, j + 1, 0, ks, results)
  {
    assert ls[j].keys[..|ls[j].keys|] == ls[j].keys && ls[j + 1].keys[..0] == [];
    forall k ensures Seen(ls, j + 1, 0, k) <==> Seen(ls, j, |ls[j].keys|, k) {
      if i :| 0 <= i < j + 1 && k in ls[i].keys { assert i == j || i < j; }
    }
  }

  lemma {:induction false} SeenIfBelow(ls: seq<Tree>, ns: map<PageId, BTreeNode>, j: nat, n: nat, i: nat, k: int)
    requires Chain(ls, ns, MIN_KEY, MAX_KEY + 1, None)
    requires j < |ls| && n < |ls[j].keys| && i < |ls| && k in ls[i].keys && k < ls[j].keys[n]
    ensures Seen(ls, j, n, k)
  {
    assert ls[j].keys[n] in ls[j].keys;
    if i == j {
      var x :| 0 <= x < |ls[j].keys| && ls[j].keys[x] == k;
      assert ls[j].keys[..n][x] == k;
    } else {
      assert i < j;
    }
  }

  /** Past the first key above `end` nothing in range is left. */
  lemma {:induction false} ScanStops(ls: seq<Tree>, ns: map<PageId, BTreeNode>, contents: map<int, Rid>, start: int,
                                     end: int,
                                     j: nat, n: nat, ks: seq<int>, results: seq<Rid>)
    requires Chain(ls, ns, MIN_KEY, MAX_KEY + 1, None) && HoldsAll(ls, contents)
    requires j < |ls| && Scanned(ls, contents, start, end, j, n, ks, results) && n < |ls[j].keys|
    requires ls[j].keys[n] > end
    ensures RangeOf(contents, start, end, results)
  {
    var key := ls[j].keys[n];
    assert key in ls[j].keys;
    forall k | k in contents && start <= k <= end ensures k in ks {
      var i :| 0 <= i < |ls| && k in ls[i].keys;
      SeenIfBelow(ls, ns, j, n, i, k);
    }
    forall k | k in ks ensures k in contents {
      var x :| 0 <= x < |ks| && ks[x] == k;
    }
    assert RangeKeys(contents, start, end, ks, results);
  }

  lemma {:induction false} ScanEnds(ls: seq<Tree>, contents: map<int, Rid>, start: int, end: int,
                                    ks: seq<int>, results: seq<Rid>)
    requires ls != [] && HoldsAll(ls, contents)
    requires Scanned(ls, contents, start, end, |ls| - 1, |ls[|ls| - 1].keys|, ks, results)
    ensures RangeOf(contents, start, end, results)
  {
    var j := |ls| - 1;
    assert ls[j].keys[..|ls[j].keys|] == ls[j].keys;
    forall k ensures k in ks <==> k in contents && start <= k <= end {
      if k in ks { var x :| 0 <= x < |ks| && ks[x] == k; }
      if k in contents && start <= k <= end {
        var i :| 0 <= i < |ls| && k in ls[i].keys;
        assert Seen(ls, j, |ls[j].keys|, k);
      }
    }
    assert RangeKeys(contents, start, end, ks, results);
  }
}
