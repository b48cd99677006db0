/** The undo pass of recovery (src/recovery/wal.rs) over an arbitrary log: what it leaves of every slot and every
    byte, and exactly when it leaves the pages as they were. */
module UndoPass {
  import opened Common
  import opened Bytes
  import opened Slots
  import opened LogRecord

  type Txn = nat

  function UndoOne(ps: Pages, r: LogRecord, incomplete: set<Txn>): Pages {
    match r
    case Insert(_, t, p, slot, _) =>
      if t in incomplete && p in ps then ps[p := Deleted(ps[p], slot)] else ps
    case Delete(_, t, p, _, data) =>
      if t !in incomplete then ps
      else ps[p := if Fits(SlotsOf(ps, p), |data|) then Appended(SlotsOf(ps, p), data) else SlotsOf(ps, p)]
    case Update(_, t, p, slot, data, _) =>
      if t in incomplete && p in ps then ps[p := Updated(ps[p], slot, data)] else ps
    case _ => ps
  }

  /** Undo runs over the log from its end. */
  function Undo(rs: seq<LogRecord>, incomplete: set<Txn>, ps: Pages): Pages {
    if rs == [] then ps else Undo(rs[..|rs| - 1], incomplete, UndoOne(ps, rs[|rs| - 1], incomplete))
  }

  // --- Slots: how many, how long, live or not ---

  ghost predicate SameFrame(a: Slots, b: Slots) {
    |a| == |b| && forall i :: 0 <= i < |a| ==> a[i].live == b[i].live && |a[i].bytes| == |b[i].bytes|
  }

  ghost predicate SameFrames(a: Pages, b: Pages) {
    forall p :: SameFrame(SlotsOf(a, p), SlotsOf(b, p))
  }

  /** Undoing `r` tombstones a live tuple or adds one. */
  predicate Disturbs(r: LogRecord, incomplete: set<Txn>, ps: Pages) {
    || (r.Insert? && r.txn in incomplete && Live(SlotsOf(ps, r.pageId), r.slotId))
    || (r.Delete? && r.txn in incomplete && Fits(SlotsOf(ps, r.pageId), |r.oldData|))
  }

  /** No unfinished insert names a live slot, and no unfinished delete fits back. */
  ghost predicate Quiet(rs: seq<LogRecord>, incomplete: set<Txn>, ps: Pages) {
    forall i :: 0 <= i < |rs| ==> !Disturbs(rs[i], incomplete, ps)
  }

  lemma {:induction false} DisturbsByFrame(r: LogRecord, incomplete: set<Txn>, a: Pages, b: Pages)
    requires SameFrames(a, b)
    ensures Disturbs(r, incomplete, a) <==> Disturbs(r, incomplete, b)
  {
    hide Used;
    if r.Insert? || r.Delete? {
      assert SameFrame(SlotsOf(a, r.pageId), SlotsOf(b, r.pageId));
      UsedByLengths(SlotsOf(a, r.pageId), SlotsOf(b, r.pageId));
    }
  }

  lemma {:induction false} FramesTrans(a: Pages, b: Pages, c: Pages)
    requires SameFrames(b, c)
    ensures SameFrames(a, b) <==> SameFrames(a, c)
  {
    forall p ensures SameFrame(SlotsOf(a, p), SlotsOf(b, p)) <==> SameFrame(SlotsOf(a, p), SlotsOf(c, p)) {
      assert SameFrame(SlotsOf(b, p), SlotsOf(c, p));
    }
  }

  lemma {:induction false} QuietStep(ps: Pages, r: LogRecord, incomplete: set<Txn>)
    requires !Disturbs(r, incomplete, ps)
    ensures SameFrames(UndoOne(ps, r, incomplete), ps)
  {
    hide Fits;
    var ps' := UndoOne(ps, r, incomplete);
    forall p ensures SameFrame(SlotsOf(ps', p), SlotsOf(ps, p)) {}
  }

  lemma {:induction false} QuietInit(rs: seq<LogRecord>, incomplete: set<Txn>, ps: Pages)
    requires rs != [] && !Disturbs(rs[|rs| - 1], incomplete, ps)
    ensures Quiet(rs, incomplete, ps) <==>
            Quiet(rs[..|rs| - 1], incomplete, UndoOne(ps, rs[|rs| - 1], incomplete))
  {
    hide Disturbs, UndoOne;
    var init, r := rs[..|rs| - 1], rs[|rs| - 1];
    var ps' := UndoOne(ps, r, incomplete);
    QuietStep(ps, r, incomplete);
    assert forall i :: 0 <= i < |init| ==> init[i] == rs[i];
    forall i | 0 <= i < |init| ensures Disturbs(rs[i], incomplete, ps') <==> Disturbs(rs[i], incomplete, ps) {
      DisturbsByFrame(rs[i], incomplete, ps', ps);
    }
  }

  /** Undo never removes a slot. */
  lemma {:induction false} UndoGrows(rs: seq<LogRecord>, incomplete: set<Txn>, ps: Pages, p: nat)
    ensures |SlotsOf(Undo(rs, incomplete, ps), p)| >= |SlotsOf(ps, p)|
  {
    hide Fits;
    if rs != [] {
      UndoGrows(rs[..|rs| - 1], incomplete, UndoOne(ps, rs[|rs| - 1], incomplete), p);
    }
  }

  /** An unfinished insert names the slot. */
  ghost predicate Unwritten(rs: seq<LogRecord>, incomplete: set<Txn>, p: nat, slot: nat) {
    exists i :: 0 <= i < |rs| && Unwrites(rs[i], incomplete, p, slot)
  }

  predicate Unwrites(r: LogRecord, incomplete: set<Txn>, p: nat, slot: nat) {
    r.Insert? && r.txn in incomplete && r.pageId == p && r.slotId == slot
  }

  /** A live tuple stays live exactly when no unfinished insert names its slot; a dead one stays dead. */
  lemma {:induction false} UndoLive(rs: seq<LogRecord>, incomplete: set<Txn>, ps: Pages, p: nat, slot: nat)
    requires slot < |SlotsOf(ps, p)|
    ensures slot < |SlotsOf(Undo(rs, incomplete, ps), p)|
    ensures Live(SlotsOf(Undo(rs, incomplete, ps), p), slot) <==>
            Live(SlotsOf(ps, p), slot) && !Unwritten(rs, incomplete, p, slot)
  {
    hide Fits;
    if rs != [] {
      var init, r := rs[..|rs| - 1], rs[|rs| - 1];
      UndoLive(init, incomplete, UndoOne(ps, r, incomplete), p, slot);
      assert rs == init + [r];
      assert Unwritten(rs, incomplete, p, slot) <==>
             Unwritten(init, incomplete, p, slot) || Unwrites(r, incomplete, p, slot) by {
        assert rs[|init|] == r && forall i :: 0 <= i < |init| ==> init[i] == rs[i];
      }
    }
  }

  /** Slots and liveness come through unchanged exactly when no record disturbs them. */
  lemma {:induction false} UndoFrames(rs: seq<LogRecord>, incomplete: set<Txn>, ps: Pages)
    ensures SameFrames(Undo(rs, incomplete, ps), ps) <==> Quiet(rs, incomplete, ps)
  {
    hide Disturbs, UndoOne, SameFrames, Fits;
    if rs == [] {
      FramesRefl(ps);
    } else {
      var init, r := rs[..|rs| - 1], rs[|rs| - 1];
      var ps' := UndoOne(ps, r, incomplete);
      if Disturbs(r, incomplete, ps) {
        UndoDisturbed(rs, incomplete, ps);
      } else {
        QuietInit(rs, incomplete, ps);
        QuietStep(ps, r, incomplete);
        UndoFrames(init, incomplete, ps');
        FramesTrans(Undo(init, incomplete, ps'), ps', ps);
      }
    }
  }

  lemma {:induction false} FramesRefl(ps: Pages)
    ensures SameFrames(ps, ps)
  {
  }

  lemma {:induction false} UndoDisturbed(rs: seq<LogRecord>, incomplete: set<Txn>, ps: Pages)
    requires rs != [] && Disturbs(rs[|rs| - 1], incomplete, ps)
    ensures !SameFrames(Undo(rs, incomplete, ps), ps)
  {
    var r := rs[|rs| - 1];
    var end := SlotsOf(Undo(rs, incomplete, ps), r.pageId);
    if r.Insert? {
      UndoLive(rs, incomplete, ps, r.pageId, r.slotId);
      assert Unwrites(rs[|rs| - 1], incomplete, r.pageId, r.slotId);
    } else {
      UndoGrows(rs[..|rs| - 1], incomplete, UndoOne(ps, r, incomplete), r.pageId);
    }
    hide Undo, UndoOne, Fits;
    assert !SameFrame(end, SlotsOf(ps, r.pageId));
  }

  // --- Bytes ---

  /** Undoing `r` writes byte `k` of this slot, whose tuple is `len` bytes long. */
  predicate Covers(r: LogRecord, incomplete: set<Txn>, p: nat, slot: nat, len: nat, k: nat) {
    r.Update? && r.txn in incomplete && r.pageId == p && r.slotId == slot && k < |r.oldData| <= len
  }

  /** What the earliest unfinished update that covers the byte puts back there; undo writes it last. */
  function FirstCover(rs: seq<LogRecord>, incomplete: set<Txn>, p: nat, slot: nat, len: nat, k: nat): Option<byte> {
    if rs == [] then None
    else
      var earlier := FirstCover(rs[..|rs| - 1], incomplete, p, slot, len, k);
      var r := rs[|rs| - 1];
      if earlier.Some? then earlier
      else if Covers(r, incomplete, p, slot, len, k) then Some(r.oldData[k])
      else None
  }

  lemma {:induction false} StepByte(ps: Pages, r: LogRecord, incomplete: set<Txn>, p: nat, slot: nat, k: nat)
    requires Live(SlotsOf(ps, p), slot) && k < |SlotsOf(ps, p)[slot].bytes| && !Unwrites(r, incomplete, p, slot)
    ensures var s, s' := SlotsOf(ps, p), SlotsOf(UndoOne(ps, r, incomplete), p);
      && Live(s', slot) && |s'[slot].bytes| == |s[slot].bytes|
      && s'[slot].bytes[k] ==
         if Covers(r, incomplete, p, slot, |s[slot].bytes|, k) then r.oldData[k] else s[slot].bytes[k]
  {
    hide Fits;
  }

  lemma {:induction false} StepDead(ps: Pages, r: LogRecord, incomplete: set<Txn>, p: nat, slot: nat)
    requires slot < |SlotsOf(ps, p)| && !SlotsOf(ps, p)[slot].live && !Disturbs(r, incomplete, ps)
    ensures slot < |SlotsOf(UndoOne(ps, r, incomplete), p)|
    ensures SlotsOf(UndoOne(ps, r, incomplete), p)[slot] == SlotsOf(ps, p)[slot]
  {
    hide Fits;
  }

  /** Every byte of a tuple that stays live ends as the earliest covering undo left it. */
  lemma {:induction false} UndoByte(rs: seq<LogRecord>, incomplete: set<Txn>, ps: Pages, p: nat, slot: nat, k: nat)
    requires Live(SlotsOf(ps, p), slot) && k < |SlotsOf(ps, p)[slot].bytes| && !Unwritten(rs, incomplete, p, slot)
    ensures var s, s' := SlotsOf(ps, p), SlotsOf(Undo(rs, incomplete, ps), p);
      && Live(s', slot) && |s'[slot].bytes| == |s[slot].bytes|
      && var f := FirstCover(rs, incomplete, p, slot, |s[slot].bytes|, k);
         s'[slot].bytes[k] == if f.Some? then f.value else s[slot].bytes[k]
  {
    hide UndoOne, Fits, Covers, Unwrites;
    if rs != [] {
      var n := |rs| - 1;
      assert forall i :: 0 <= i < n ==> rs[..n][i] == rs[i];
      StepByte(ps, rs[n], incomplete, p, slot, k);
      UndoByte(rs[..n], incomplete, UndoOne(ps, rs[n], incomplete), p, slot, k);
    }
  }

  lemma {:induction false} UndoConcat(a: seq<LogRecord>, b: seq<LogRecord>, incomplete: set<Txn>, ps: Pages)
    ensures Undo(a + b, incomplete, ps) == Undo(a, incomplete, Undo(b, incomplete, ps))
    decreases |b|
  {
    hide UndoOne;
    if b == [] {
      assert a + b == a;
    } else {
      var n := |b| - 1;
      assert (a + b)[..|a| + n] == a + b[..n] && (a + b)[|a| + n] == b[n];
      UndoConcat(a, b[..n], incomplete, UndoOne(ps, b[n], incomplete));
    }
  }

  /** An unfinished delete that fits when its turn comes adds a tuple behind those there, holding the bytes it logged
      except where an unfinished update logged before it covers them, and live unless an unfinished insert logged
      before it names the slot. */
  lemma {:induction false} DeleteAppends(rs: seq<LogRecord>, incomplete: set<Txn>, ps: Pages, i: nat)
    requires i < |rs| && rs[i].Delete? && Disturbs(rs[i], incomplete, Undo(rs[i + 1..], incomplete, ps))
    ensures var p, data := rs[i].pageId, rs[i].oldData;
      var s := SlotsOf(Undo(rs, incomplete, ps), p);
      var slot := |SlotsOf(Undo(rs[i + 1..], incomplete, ps), p)|;
      && slot < |s| && (Live(s, slot) <==> !Unwritten(rs[..i], incomplete, p, slot))
      && (Live(s, slot) ==> Covered(s[slot].bytes, data, rs[..i], incomplete, p, slot))
  {
    hide Undo, Fits, Unwritten, FirstCover;
    var p, data := rs[i].pageId, rs[i].oldData;
    var before := Undo(rs[i + 1..], incomplete, ps);
    var slot := |SlotsOf(before, p)|;
    var after := UndoOne(before, rs[i], incomplete);
    assert SlotsOf(after, p) == Appended(SlotsOf(before, p), data);
    assert rs == rs[..i] + ([rs[i]] + rs[i + 1..]);
    UndoConcat(rs[..i], [rs[i]] + rs[i + 1..], incomplete, ps);
    UndoConcat([rs[i]], rs[i + 1..], incomplete, ps);
    UndoSingle(rs[i], incomplete, before);
    UndoLive(rs[..i], incomplete, after, p, slot);
    UndoLength(rs[..i], incomplete, after, p, slot);
    if !Unwritten(rs[..i], incomplete, p, slot) {
      forall k: nat | k < |data|
        ensures var f := FirstCover(rs[..i], incomplete, p, slot, |data|, k);
          SlotsOf(Undo(rs, incomplete, ps), p)[slot].bytes[k] == if f.Some? then f.value else data[k]
      {
        UndoByte(rs[..i], incomplete, after, p, slot, k);
      }
    }
  }

  /** `b` is `data` except where unfinished updates of the slot put something back. */
  ghost predicate Covered(b: seq<byte>, data: seq<byte>, rs: seq<LogRecord>, incomplete: set<Txn>, p: nat, slot: nat) {
    |b| == |data| && forall k: nat :: k < |data| ==>
      var f := FirstCover(rs, incomplete, p, slot, |data|, k);
      b[k] == if f.Some? then f.value else data[k]
  }

  lemma {:induction false} UndoSingle(r: LogRecord, incomplete: set<Txn>, ps: Pages)
    ensures Undo([r], incomplete, ps) == UndoOne(ps, r, incomplete)
  {
    hide UndoOne;
    assert [r][..0] == [];
    assert Undo([], incomplete, UndoOne(ps, r, incomplete)) == UndoOne(ps, r, incomplete);
  }

  /** Undo changes no tuple's length. */
  lemma {:induction false} UndoLength(rs: seq<LogRecord>, incomplete: set<Txn>, ps: Pages, p: nat, slot: nat)
    requires slot < |SlotsOf(ps, p)|
    ensures slot < |SlotsOf(Undo(rs, incomplete, ps), p)|
    ensures |SlotsOf(Undo(rs, incomplete, ps), p)[slot].bytes| == |SlotsOf(ps, p)[slot].bytes|
  {
    hide Fits;
    if rs != [] {
      UndoLength(rs[..|rs| - 1], incomplete, UndoOne(ps, rs[|rs| - 1], incomplete), p, slot);
    }
  }

  /** A quiet undo unwrites nothing live. */
  lemma {:induction false} QuietKeeps(rs: seq<LogRecord>, incomplete: set<Txn>, ps: Pages, p: nat, slot: nat)
    requires Quiet(rs, incomplete, ps) && Live(SlotsOf(ps, p), slot)
    ensures !Unwritten(rs, incomplete, p, slot)
  {
    forall i | 0 <= i < |rs| ensures !Unwrites(rs[i], incomplete, p, slot) {
      assert !Disturbs(rs[i], incomplete, ps);
    }
  }

  lemma {:induction false} UndoDead(rs: seq<LogRecord>, incomplete: set<Txn>, ps: Pages, p: nat, slot: nat)
    requires Quiet(rs, incomplete, ps) && slot < |SlotsOf(ps, p)| && !SlotsOf(ps, p)[slot].live
    ensures slot < |SlotsOf(Undo(rs, incomplete, ps), p)|
    ensures SlotsOf(Undo(rs, incomplete, ps), p)[slot] == SlotsOf(ps, p)[slot]
  {
    hide Disturbs, UndoOne, Fits;
    if rs != [] {
      var n := |rs| - 1;
      QuietInit(rs, incomplete, ps);
      StepDead(ps, rs[n], incomplete, p, slot);
      UndoDead(rs[..n], incomplete, UndoOne(ps, rs[n], incomplete), p, slot);
    }
  }

  /** Every byte an unfinished update would put back for good is the one already there. */
  ghost predicate BytesAgree(rs: seq<LogRecord>, incomplete: set<Txn>, ps: Pages) {
    forall p, slot: nat, k: nat :: ByteAgrees(rs, incomplete, ps, p, slot, k)
  }

  ghost predicate ByteAgrees(rs: seq<LogRecord>, incomplete: set<Txn>, ps: Pages, p: nat, slot: nat, k: nat) {
    var s := SlotsOf(ps, p);
    Live(s, slot) && k < |s[slot].bytes| ==>
      FirstCover(rs, incomplete, p, slot, |s[slot].bytes|, k) in {None, Some(s[slot].bytes[k])}
  }

  /** Undoing these records would leave the pages as they are. */
  ghost predicate Harmless(rs: seq<LogRecord>, incomplete: set<Txn>, ps: Pages) {
    Quiet(rs, incomplete, ps) && BytesAgree(rs, incomplete, ps)
  }

  /** For any log, any set of transactions and any pages: undo changes nothing if and only if it is harmless. */
  lemma {:induction false} UndoExact(rs: seq<LogRecord>, incomplete: set<Txn>, ps: Pages)
    ensures SameSlots(Undo(rs, incomplete, ps), ps) <==> Harmless(rs, incomplete, ps)
  {
    hide Undo, Quiet, FirstCover, SameSlots, BytesAgree;
    UndoFrames(rs, incomplete, ps);
    var end := Undo(rs, incomplete, ps);
    if SameSlots(end, ps) {
      SameIsFrames(end, ps);
      SameBytesAgree(rs, incomplete, ps);
    } else if Quiet(rs, incomplete, ps) && BytesAgree(rs, incomplete, ps) {
      AgreeingBytesSame(rs, incomplete, ps);
    }
  }

  lemma {:induction false} SameIsFrames(a: Pages, b: Pages)
    requires SameSlots(a, b)
    ensures SameFrames(a, b)
  {
  }

  lemma {:induction false} SameBytesAgree(rs: seq<LogRecord>, incomplete: set<Txn>, ps: Pages)
    requires Quiet(rs, incomplete, ps) && SameSlots(Undo(rs, incomplete, ps), ps)
    ensures BytesAgree(rs, incomplete, ps)
  {
    hide Undo, Quiet, FirstCover;
    forall p, slot: nat, k: nat ensures ByteAgrees(rs, incomplete, ps, p, slot, k) {
      var s := SlotsOf(ps, p);
      if Live(s, slot) && k < |s[slot].bytes| {
        QuietKeeps(rs, incomplete, ps, p, slot);
        UndoByte(rs, incomplete, ps, p, slot, k);
      }
    }
  }

  lemma {:induction false} AgreeingBytesSame(rs: seq<LogRecord>, incomplete: set<Txn>, ps: Pages)
    requires Quiet(rs, incomplete, ps) && BytesAgree(rs, incomplete, ps)
    requires SameFrames(Undo(rs, incomplete, ps), ps)
    ensures SameSlots(Undo(rs, incomplete, ps), ps)
  {
    hide Undo, Quiet, FirstCover, BytesAgree;
    var end := Undo(rs, incomplete, ps);
    forall p ensures SlotsOf(end, p) == SlotsOf(ps, p) {
      assert SameFrame(SlotsOf(end, p), SlotsOf(ps, p));
      forall i | 0 <= i < |SlotsOf(ps, p)| ensures SlotsOf(end, p)[i] == SlotsOf(ps, p)[i] {
        AgreeingSlotSame(rs, incomplete, ps, p, i);
      }
    }
  }

  lemma {:induction false} AgreeingSlotSame(rs: seq<LogRecord>, incomplete: set<Txn>, ps: Pages, p: nat, slot: nat)
    requires Quiet(rs, incomplete, ps) && BytesAgree(rs, incomplete, ps) && slot < |SlotsOf(ps, p)|
    requires SameFrame(SlotsOf(Undo(rs, incomplete, ps), p), SlotsOf(ps, p))
    ensures SlotsOf(Undo(rs, incomplete, ps), p)[slot] == SlotsOf(ps, p)[slot]
  {
    hide Undo, Quiet, FirstCover;
    var s, s' := SlotsOf(ps, p), SlotsOf(Undo(rs, incomplete, ps), p);
    if s[slot].live {
      QuietKeeps(rs, incomplete, ps, p, slot);
      forall k | 0 <= k < |s[slot].bytes| ensures s'[slot].bytes[k] == s[slot].bytes[k] {
        UndoByte(rs, incomplete, ps, p, slot, k);
        assert ByteAgrees(rs, incomplete, ps, p, slot, k);
      }
    } else {
      UndoDead(rs, incomplete, ps, p, slot);
    }
  }
}
