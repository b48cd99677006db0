/** B+tree nodes and the in-node searches of src/index/node.rs. */
module Node {
  import opened Common

  /** A node splits as soon as it holds 2 * ORDER keys. */
  const ORDER: nat := 4

  const MIN_KEY: int := -0x8000_0000_0000_0000
  const MAX_KEY: int := 0x7fff_ffff_ffff_ffff

  type PageId = nat

  datatype BTreeNode =
    | Leaf(keys: seq<int>, rids: seq<Rid>, next: Option<PageId>)
    | Internal(keys: seq<int>, children: seq<PageId>)

  ghost predicate Ascending(s: seq<int>) {
    forall i, j :: 0 <= i < j < |s| ==> s[i] < s[j]
  }

  /** The slice method of that name: the length of the longest prefix satisfying `p`. */
  function PartitionPoint(s: seq<int>, p: int -> bool): (i: nat)
    ensures i <= |s|
    ensures forall j :: 0 <= j < i ==> p(s[j])
    ensures i < |s| ==> !p(s[i])
  {
    if s == [] || !p(s[0]) then 0 else 1 + PartitionPoint(s[1..], p)
  }

  /** Which child a search for `key` follows: equal separators send it right. */
  function FindChildIndex(keys: seq<int>, key: int): (i: nat)
    ensures i <= |keys|
    ensures forall j :: 0 <= j < i ==> keys[j] <= key
    ensures Ascending(keys) ==> forall j :: i <= j < |keys| ==> key < keys[j]
  {
    PartitionPoint(keys, k => k <= key)
  }

  /** Where `key` is inserted in a sorted leaf. */
  function InsertPosition(keys: seq<int>, key: int): (i: nat)
    ensures i <= |keys|
    ensures forall j :: 0 <= j < i ==> keys[j] < key
    ensures Ascending(keys) ==> forall j :: i <= j < |keys| ==> key <= keys[j]
  {
    PartitionPoint(keys, k => k < key)
  }

  /** The first position holding exactly `key`. */
  function FindKeyIndex(keys: seq<int>, key: int): (r: Option<nat>)
    ensures r.None? <==> key !in keys
    ensures r.Some? ==> r.value < |keys| && keys[r.value] == key
  {
    if keys == [] then None
    else if keys[0] == key then Some(0)
    else match FindKeyIndex(keys[1..], key)
      case None => None
      case Some(i) => Some(i + 1)
  }

  predicate IsFull(keys: seq<int>) {
    |keys| >= 2 * ORDER
  }
}
