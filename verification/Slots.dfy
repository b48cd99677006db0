/** What a slotted page holds: a list of tuples, live or tombstoned, each keeping its bytes in place. */
module Slots {
  import opened Bytes
  import opened Common

  const PAGE_SIZE: nat := 4096
  const HEADER_SIZE: nat := 12
  const SLOT_SIZE: nat := 5

  datatype Tuple = Tuple(bytes: seq<byte>, live: bool)

  type Slots = seq<Tuple>

  /** Bytes taken by tuple data; tombstones keep theirs. */
  function Used(s: Slots): nat {
    if s == [] then 0 else Used(s[..|s| - 1]) + |s[|s| - 1].bytes|
  }

  /** A tuple of `len` bytes and its slot entry still fit between the slot array and the data. */
  predicate Fits(s: Slots, len: nat) {
    HEADER_SIZE + SLOT_SIZE * (|s| + 1) + Used(s) + len <= PAGE_SIZE
  }

  predicate Live(s: Slots, i: nat) {
    i < |s| && s[i].live
  }

  function Get(s: Slots, i: nat): Option<seq<byte>> {
    if Live(s, i) then Some(s[i].bytes) else None
  }

  function Appended(s: Slots, t: seq<byte>): Slots {
    s + [Tuple(t, true)]
  }

  /** An update may not grow the tuple; a shorter one leaves the old tail in place. */
  predicate CanUpdate(s: Slots, i: nat, t: seq<byte>) {
    Live(s, i) && |t| <= |s[i].bytes|
  }

  function Updated(s: Slots, i: nat, t: seq<byte>): Slots {
    if CanUpdate(s, i, t) then s[i := Tuple(t + s[i].bytes[|t|..], true)] else s
  }

  function Deleted(s: Slots, i: nat): Slots {
    if Live(s, i) then s[i := Tuple(s[i].bytes, false)] else s
  }

  // --- Many pages ---

  type Pages = map<nat, Slots>

  function SlotsOf(ps: Pages, p: nat): Slots {
    if p in ps then ps[p] else []
  }

  /** Same tuples on every page; a page without slots is as good as none. */
  ghost predicate SameSlots(a: Pages, b: Pages) {
    forall p :: SlotsOf(a, p) == SlotsOf(b, p)
  }

  /** Lengths are all that `Used` depends on. */
  lemma {:induction false} UsedByLengths(a: Slots, b: Slots)
    requires |a| == |b| && forall i :: 0 <= i < |a| ==> |a[i].bytes| == |b[i].bytes|
    ensures Used(a) == Used(b)
  {
    if a != [] {
      UsedByLengths(a[..|a| - 1], b[..|b| - 1]);
    }
  }

  lemma {:induction false} UsedAppended(s: Slots, t: seq<byte>)
    ensures Used(Appended(s, t)) == Used(s) + |t|
  {
    assert Appended(s, t)[..|s|] == s;
  }

  lemma {:induction false} UsedPrefix(s: Slots, i: nat)
    requires i < |s|
    ensures Used(s[..i + 1]) == Used(s[..i]) + |s[i].bytes| <= Used(s)
    decreases |s|
  {
    assert s[..i + 1][..i] == s[..i];
    if i + 1 < |s| {
      UsedPrefix(s[..|s| - 1], i);
      assert s[..|s| - 1][..i + 1] == s[..i + 1] && s[..|s| - 1][..i] == s[..i];
    } else {
      assert s[..i + 1] == s;
    }
  }
}
