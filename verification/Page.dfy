/** The 4096-byte slotted page of src/storage/page.rs: header, slot array growing up, tuples growing down. */
module Page {
  import opened Common
  import opened Bytes
  import opened Slots

  datatype Header = Header(pageId: nat, numSlots: nat, freeOffset: nat, checksum: nat)

  datatype Slot = Slot(offset: nat, length: nat, active: bool)

  function EncodeHeader(h: Header): (r: seq<byte>)
    ensures |r| == HEADER_SIZE
  {
    LE(h.pageId, 4) + LE(h.numSlots, 2) + LE(h.freeOffset, 2) + LE(h.checksum, 4)
  }

  function DecodeHeader(b: seq<byte>): Header
    requires |b| == HEADER_SIZE
  {
    Header(UnLE(b[0..4]), UnLE(b[4..6]), UnLE(b[6..8]), UnLE(b[8..12]))
  }

  function EncodeSlot(s: Slot): (r: seq<byte>)
    ensures |r| == SLOT_SIZE
  {
    LE(s.offset, 2) + LE(s.length, 2) + [if s.active then 1 else 0]
  }

  function DecodeSlot(b: seq<byte>): Slot
    requires |b| == SLOT_SIZE
  {
    Slot(UnLE(b[0..2]), UnLE(b[2..4]), b[4] != 0)
  }

  lemma {:induction false} HeaderRoundTrip(h: Header)
    requires h.pageId < 0x1_0000_0000 && h.numSlots < 0x1_0000 && h.freeOffset < 0x1_0000 && h.checksum < 0x1_0000_0000
    ensures DecodeHeader(EncodeHeader(h)) == h
  {
    hide LE, UnLE, Pow256;
    Widths();
    LERoundTrip(h.pageId, 4);
    LERoundTrip(h.numSlots, 2);
    LERoundTrip(h.freeOffset, 2);
    LERoundTrip(h.checksum, 4);
    var b := EncodeHeader(h);
    assert b[0..4] == LE(h.pageId, 4) && b[4..6] == LE(h.numSlots, 2);
    assert b[6..8] == LE(h.freeOffset, 2) && b[8..12] == LE(h.checksum, 4);
  }

  lemma {:induction false} SlotRoundTrip(s: Slot)
    requires s.offset < 0x1_0000 && s.length < 0x1_0000
    ensures DecodeSlot(EncodeSlot(s)) == s
  {
    hide LE, UnLE, Pow256;
    Widths();
    LERoundTrip(s.offset, 2);
    LERoundTrip(s.length, 2);
    var b := EncodeSlot(s);
    assert b[0..2] == LE(s.offset, 2) && b[2..4] == LE(s.length, 2);
  }

  lemma {:induction false} DecodedHeaderRange(b: seq<byte>)
    requires |b| == HEADER_SIZE
    ensures var h := DecodeHeader(b);
      h.pageId < 0x1_0000_0000 && h.numSlots < 0x1_0000 && h.freeOffset < 0x1_0000 && h.checksum < 0x1_0000_0000
  {
    hide UnLE, Pow256;
    Widths();
    assert |b[0..4]| == 4 && |b[4..6]| == 2 && |b[6..8]| == 2 && |b[8..12]| == 4;
  }

  // --- The byte layout of a list of tuples ---

  function SlotOffset(i: nat): nat { HEADER_SIZE + i * SLOT_SIZE }

  ghost function HeaderOf(d: seq<byte>): Header
    requires |d| == PAGE_SIZE
  {
    DecodeHeader(d[0..HEADER_SIZE])
  }

  ghost function SlotOf(d: seq<byte>, i: nat): Slot
    requires |d| == PAGE_SIZE && SlotOffset(i) + SLOT_SIZE <= PAGE_SIZE
  {
    DecodeSlot(d[SlotOffset(i)..SlotOffset(i) + SLOT_SIZE])
  }

  /** Slot `i` of the page describes and holds tuple `i`; ranges are stacked down from the end. */
  ghost predicate Holds(d: seq<byte>, s: Slots, i: nat)
    requires |d| == PAGE_SIZE && i < |s| && SlotOffset(|s|) + Used(s) <= PAGE_SIZE
  {
    UsedPrefix(s, i);
    var off, len := PAGE_SIZE - Used(s[..i + 1]), |s[i].bytes|;
    && SlotOf(d, i) == Slot(off, len, s[i].live)
    && d[off..off + len] == s[i].bytes
  }

  /** The page bytes `d` lay out exactly the tuples `s`. */
  ghost predicate Layout(d: seq<byte>, s: Slots) {
    && |d| == PAGE_SIZE
    && SlotOffset(|s|) + Used(s) <= PAGE_SIZE
    && HeaderOf(d).numSlots == |s|
    && HeaderOf(d).freeOffset == PAGE_SIZE - Used(s)
    && forall i :: 0 <= i < |s| ==> Holds(d, s, i)
  }

  /** The bytes leave no choice about the tuples. */
  lemma {:induction false} LayoutUnique(d: seq<byte>, a: Slots, b: Slots)
    requires Layout(d, a) && Layout(d, b)
    ensures a == b
  {
    forall i | 0 <= i < |a| ensures a[i] == b[i] {
      assert Holds(d, a, i) && Holds(d, b, i);
    }
  }

  lemma {:induction false} LayoutInsert(d: seq<byte>, s: Slots, t: seq<byte>, d1: seq<byte>, d2: seq<byte>,
                                        d3: seq<byte>)
    requires Layout(d, s) && Fits(s, |t|)
    requires var off := PAGE_SIZE - Used(s) - |t|;
      && d1 == Splice(d, off, t)
      && d2 == Splice(d1, SlotOffset(|s|), EncodeSlot(Slot(off, |t|, true)))
      && d3 == Splice(d2, 0, EncodeHeader(HeaderOf(d).(numSlots := |s| + 1, freeOffset := off)))
    ensures Layout(d3, Appended(s, t)) && HeaderOf(d3).pageId == HeaderOf(d).pageId
  {
    hide Used, Holds, LE, UnLE, Splice, EncodeHeader, EncodeSlot, DecodeHeader, DecodeSlot;
    var s' := Appended(s, t);
    var off, so := PAGE_SIZE - Used(s) - |t|, SlotOffset(|s|);
    var slot, header := Slot(off, |t|, true), HeaderOf(d).(numSlots := |s| + 1, freeOffset := off);
    UsedAppended(s, t);
    assert forall i :: 0 <= i < |s| ==> Appended(s, t)[..i + 1] == s[..i + 1] && Appended(s, t)[i] == s[i];
    DecodedHeaderRange(d[0..HEADER_SIZE]);
    HeaderRoundTrip(header);
    SpliceSelf(d2, 0, EncodeHeader(header));
    forall i | 0 <= i < |s'| ensures Holds(d3, s', i) {
      if i < |s| {
        assert Holds(d, s, i);
        KeepOld(d, d1, d2, d3, s, t, EncodeSlot(slot), EncodeHeader(header), i);
      } else {
        NewSlot(d, d1, d2, d3, s, t, EncodeHeader(header));
      }
    }
  }

  /** The three writes of an insert touch no older tuple or slot entry. */
  lemma {:induction false} KeepOld(d: seq<byte>, d1: seq<byte>, d2: seq<byte>, d3: seq<byte>, s: Slots, t: seq<byte>,
                                   slot: seq<byte>, header: seq<byte>, i: nat)
    requires |d| == PAGE_SIZE && i < |s| && Fits(s, |t|) && |slot| == SLOT_SIZE && |header| == HEADER_SIZE
    requires d1 == Splice(d, PAGE_SIZE - Used(s) - |t|, t)
    requires d2 == Splice(d1, SlotOffset(|s|), slot) && d3 == Splice(d2, 0, header)
    requires Holds(d, s, i)
    requires Used(Appended(s, t)) == Used(s) + |t|
    requires Appended(s, t)[..i + 1] == s[..i + 1] && Appended(s, t)[i] == s[i]
    ensures Holds(d3, Appended(s, t), i)
  {
    hide Used, LE, UnLE, Splice, DecodeSlot;
    UsedPrefix(s, i);
    var off, so := PAGE_SIZE - Used(s) - |t|, SlotOffset(|s|);
    var a, b := SlotOffset(i), SlotOffset(i) + SLOT_SIZE;
    assert b <= so;
    SpliceOther(d, off, t, a, b);
    SpliceOther(d1, so, slot, a, b);
    SpliceOther(d2, 0, header, a, b);
    var x := PAGE_SIZE - Used(s[..i + 1]);
    var y := x + |s[i].bytes|;
    SpliceOther(d, off, t, x, y);
    SpliceOther(d1, so, slot, x, y);
    SpliceOther(d2, 0, header, x, y);
  }

  lemma {:induction false} NewSlot(d: seq<byte>, d1: seq<byte>, d2: seq<byte>, d3: seq<byte>, s: Slots, t: seq<byte>,
                                   header: seq<byte>)
    requires |d| == PAGE_SIZE && Fits(s, |t|) && |header| == HEADER_SIZE
    requires Used(Appended(s, t)) == Used(s) + |t|
    requires var off := PAGE_SIZE - Used(s) - |t|;
      && d1 == Splice(d, off, t)
      && d2 == Splice(d1, SlotOffset(|s|), EncodeSlot(Slot(off, |t|, true)))
      && d3 == Splice(d2, 0, header)
    ensures Holds(d3, Appended(s, t), |s|)
  {
    hide Used, LE, UnLE, Splice, EncodeSlot, DecodeSlot;
    var s' := Appended(s, t);
    var off, so := PAGE_SIZE - Used(s) - |t|, SlotOffset(|s|);
    var slot := Slot(off, |t|, true);
    assert s'[..|s| + 1] == s' && s'[|s|] == Tuple(t, true);
    SlotRoundTrip(slot);
    SpliceSelf(d1, so, EncodeSlot(slot));
    SpliceOther(d2, 0, header, so, so + SLOT_SIZE);
    SpliceSelf(d, off, t);
    SpliceOther(d1, so, EncodeSlot(slot), off, off + |t|);
    SpliceOther(d2, 0, header, off, off + |t|);
  }

  /** Writing over the head of one tuple's data changes that tuple only. */
  lemma {:induction false} LayoutUpdate(d: seq<byte>, s: Slots, k: nat, t: seq<byte>, d': seq<byte>)
    requires Layout(d, s) && CanUpdate(s, k, t)
    requires PAGE_SIZE - Used(s[..k + 1]) + |t| <= PAGE_SIZE && Used(s[..k + 1]) <= PAGE_SIZE
    requires d' == Splice(d, PAGE_SIZE - Used(s[..k + 1]), t)
    ensures Layout(d', Updated(s, k, t)) && HeaderOf(d') == HeaderOf(d)
  {
    hide Used, LE, UnLE, Splice, DecodeHeader, DecodeSlot, Holds;
    var s' := Updated(s, k, t);
    UsedPrefix(s, k);
    var off := PAGE_SIZE - Used(s[..k + 1]);
    SameLengths(s, s');
    SpliceOther(d, off, t, 0, HEADER_SIZE);
    forall i | 0 <= i < |s'| ensures Holds(d', s', i) {
      assert Holds(d, s, i);
      UpdateHolds(d, s, k, t, d', i);
    }
  }

  lemma {:induction false} SameLengths(s: Slots, s': Slots)
    requires |s| == |s'| && forall i :: 0 <= i < |s| ==> |s[i].bytes| == |s'[i].bytes|
    ensures Used(s') == Used(s)
    ensures forall i :: 0 <= i <= |s| ==> Used(s'[..i]) == Used(s[..i])
  {
    UsedByLengths(s, s');
    forall i | 0 <= i <= |s| ensures Used(s'[..i]) == Used(s[..i]) {
      UsedByLengths(s[..i], s'[..i]);
    }
  }

  lemma {:induction false} UpdateHolds(d: seq<byte>, s: Slots, k: nat, t: seq<byte>, d': seq<byte>, i: nat)
    requires |d| == PAGE_SIZE && SlotOffset(|s|) + Used(s) <= PAGE_SIZE && CanUpdate(s, k, t) && i < |s|
    requires PAGE_SIZE - Used(s[..k + 1]) + |t| <= PAGE_SIZE && Used(s[..k + 1]) <= PAGE_SIZE
    requires d' == Splice(d, PAGE_SIZE - Used(s[..k + 1]), t)
    requires forall j :: 0 <= j <= |s| ==> Used(Updated(s, k, t)[..j]) == Used(s[..j])
    requires Holds(d, s, i) && Holds(d, s, k) && Used(Updated(s, k, t)) == Used(s)
    ensures Holds(d', Updated(s, k, t), i)
  {
    hide Used, LE, UnLE, DecodeSlot, Splice;
    UsedPrefix(s, i);
    UsedPrefix(s, k);
    Stacked(s, i, k);
    var off := PAGE_SIZE - Used(s[..k + 1]);
    var x := PAGE_SIZE - Used(s[..i + 1]);
    var y := x + |s[i].bytes|;
    assert SlotOffset(i) + SLOT_SIZE <= SlotOffset(|s|);
    SpliceOther(d, off, t, SlotOffset(i), SlotOffset(i) + SLOT_SIZE);
    if i == k {
      SpliceFront(d, off, t, y);
    } else {
      SpliceOther(d, off, t, x, y);
    }
  }

  /** Tuples of different slots occupy disjoint ranges. */
  lemma {:induction false} Stacked(s: Slots, i: nat, k: nat)
    requires i < |s| && k < |s|
    ensures i < k ==> Used(s[..i + 1]) <= Used(s[..k])
    ensures k < i ==> Used(s[..k + 1]) <= Used(s[..i])
  {
    if i < k {
      UsedPrefix(s[..k], i);
      assert s[..k][..i + 1] == s[..i + 1];
    } else if k < i {
      UsedPrefix(s[..i], k);
      assert s[..i][..k + 1] == s[..k + 1];
    }
  }

  /** Clearing one slot's active byte tombstones that tuple only. */
  lemma {:induction false} LayoutDelete(d: seq<byte>, s: Slots, k: nat, d': seq<byte>)
    requires Layout(d, s) && Live(s, k)
    requires Used(s[..k + 1]) <= PAGE_SIZE && SlotOffset(k) + SLOT_SIZE <= PAGE_SIZE
    requires d' == Splice(d, SlotOffset(k), EncodeSlot(Slot(PAGE_SIZE - Used(s[..k + 1]), |s[k].bytes|, false)))
    ensures Layout(d', Deleted(s, k)) && HeaderOf(d') == HeaderOf(d)
  {
    hide Used, LE, UnLE, Splice, DecodeHeader, DecodeSlot, EncodeSlot, Holds;
    var s' := Deleted(s, k);
    UsedPrefix(s, k);
    SameLengths(s, s');
    SpliceOther(d, SlotOffset(k), EncodeSlot(Slot(PAGE_SIZE - Used(s[..k + 1]), |s[k].bytes|, false)), 0, HEADER_SIZE);
    forall i | 0 <= i < |s'| ensures Holds(d', s', i) {
      assert Holds(d, s, i);
      DeleteHolds(d, s, k, d', i);
    }
  }

  lemma {:induction false} DeleteHolds(d: seq<byte>, s: Slots, k: nat, d': seq<byte>, i: nat)
    requires |d| == PAGE_SIZE && SlotOffset(|s|) + Used(s) <= PAGE_SIZE && Live(s, k) && i < |s|
    requires Used(s[..k + 1]) <= PAGE_SIZE && SlotOffset(k) + SLOT_SIZE <= PAGE_SIZE
    requires d' == Splice(d, SlotOffset(k), EncodeSlot(Slot(PAGE_SIZE - Used(s[..k + 1]), |s[k].bytes|, false)))
    requires forall j :: 0 <= j <= |s| ==> Used(Deleted(s, k)[..j]) == Used(s[..j])
    requires Holds(d, s, i) && Used(Deleted(s, k)) == Used(s)
    ensures Holds(d', Deleted(s, k), i)
  {
    hide Used, LE, UnLE, DecodeSlot, EncodeSlot, Splice;
    UsedPrefix(s, i);
    UsedPrefix(s, k);
    var slot := Slot(PAGE_SIZE - Used(s[..k + 1]), |s[k].bytes|, false);
    var x := PAGE_SIZE - Used(s[..i + 1]);
    assert SlotOffset(i) + SLOT_SIZE <= SlotOffset(|s|) <= x;
    assert SlotOffset(k) + SLOT_SIZE <= SlotOffset(|s|);
    SpliceOther(d, SlotOffset(k), EncodeSlot(slot), x, x + |s[i].bytes|);
    if i == k {
      SlotRoundTrip(slot);
      SpliceSelf(d, SlotOffset(k), EncodeSlot(slot));
    } else {
      SpliceOther(d, SlotOffset(k), EncodeSlot(slot), SlotOffset(i), SlotOffset(i) + SLOT_SIZE);
    }
  }

  /** A fresh page lays out no tuples. */
  lemma {:induction false} LayoutEmpty(d: seq<byte>, id: nat)
    requires |d| == PAGE_SIZE && id < 0x1_0000_0000
    ensures var d' := Splice(d, 0, EncodeHeader(Header(id, 0, PAGE_SIZE, 0)));
            Layout(d', []) && HeaderOf(d').pageId == id && HeaderOf(d').checksum == 0
  {
    hide LE, UnLE, Splice, EncodeHeader, DecodeHeader;
    var h := Header(id, 0, PAGE_SIZE, 0);
    HeaderRoundTrip(h);
    SpliceSelf(d, 0, EncodeHeader(h));
  }

  // --- Checksums ---

  type Crc = n: nat | n < 0x1_0000_0000

  /** The page with its checksum field blanked: what the checksum is computed over. */
  function Blank(d: seq<byte>): (r: seq<byte>)
    requires |d| == PAGE_SIZE
    ensures |r| == PAGE_SIZE
  {
    Splice(d, 8, LE(0, 4))
  }

  /** The page as written to disk. */
  function Stamped(d: seq<byte>, crc: seq<byte> -> Crc): (r: seq<byte>)
    requires |d| == PAGE_SIZE
    ensures |r| == PAGE_SIZE
  {
    Splice(d, 8, LE(crc(Blank(d)), 4))
  }

  /** `verify_checksum` */
  predicate Verifies(d: seq<byte>, crc: seq<byte> -> Crc)
    requires |d| == PAGE_SIZE
  {
    UnLE(d[8..12]) == crc(Blank(d))
  }

  /** `z` is the page with bytes 8 to 11 zero. */
  ghost predicate FieldZeroed(d: seq<byte>, z: seq<byte>) {
    |z| == |d| && forall i :: 0 <= i < |d| ==> z[i] == if 8 <= i < 12 then 0 else d[i]
  }

  /** Bytes 8 to 11, lowest first, are the checksum of the page with these bytes zero. */
  ghost predicate ChecksumRight(d: seq<byte>, crc: seq<byte> -> Crc) {
    |d| == PAGE_SIZE &&
    forall z :: FieldZeroed(d, z) ==>
      crc(z) == d[8] as int + 0x100 * d[9] as int + 0x1_0000 * d[10] as int + 0x100_0000 * d[11] as int
  }

  lemma {:induction false} BlankIsZeroed(d: seq<byte>)
    requires |d| == PAGE_SIZE
    ensures FieldZeroed(d, Blank(d))
    ensures forall z :: FieldZeroed(d, z) ==> z == Blank(d)
  {
    var zeros: seq<byte> := [0, 0, 0, 0];
    assert LE(0, 4) == zeros by { FourZeros(); }
    var r := Splice(d, 8, zeros);
    assert forall i :: 0 <= i < |d| ==> r[i] == if 8 <= i < 12 then 0 else d[i];
  }

  lemma {:induction false} FourZeros()
    ensures LE(0, 4) == [0, 0, 0, 0]
  {
    assert LE(0, 3) == [0, 0, 0];
  }

  /** A page passes exactly when its checksum is right, and that is when stamping it changes nothing. */
  lemma {:induction false} VerifiesMeans(d: seq<byte>, crc: seq<byte> -> Crc)
    requires |d| == PAGE_SIZE
    ensures Verifies(d, crc) <==> ChecksumRight(d, crc)
    ensures Verifies(d, crc) <==> d == Stamped(d, crc)
  {
    hide LE, UnLE, Blank;
    BlankIsZeroed(d);
    var field := d[8..12];
    assert field == [d[8], d[9], d[10], d[11]];
    SmallEnds(d[8], d[9], d[10], d[11]);
    Widths();
    LERoundTrip(crc(Blank(d)), 4);
    SpliceSelf(d, 8, LE(crc(Blank(d)), 4));
    if Verifies(d, crc) {
      LEBack(field);
      assert d == d[..8] + field + d[12..];
    }
  }

  /** A stamped page has the right checksum, and differs from the original in the checksum field only. */
  lemma {:induction false} StampedRight(d: seq<byte>, crc: seq<byte> -> Crc)
    requires |d| == PAGE_SIZE
    ensures ChecksumRight(Stamped(d, crc), crc) && Blank(Stamped(d, crc)) == Blank(d)
    ensures forall i :: 0 <= i < PAGE_SIZE && !(8 <= i < 12) ==> Stamped(d, crc)[i] == d[i]
  {
    hide LE, UnLE, ChecksumRight;
    assert Blank(Stamped(d, crc)) == Blank(d);
    Widths();
    LERoundTrip(crc(Blank(d)), 4);
    SpliceSelf(d, 8, LE(crc(Blank(d)), 4));
    VerifiesMeans(Stamped(d, crc), crc);
  }

  /** The checksum field is not part of the layout. */
  lemma {:induction false} LayoutBlank(d: seq<byte>, e: seq<byte>, s: Slots)
    requires |d| == PAGE_SIZE && |e| == PAGE_SIZE && Blank(d) == Blank(e) && Layout(d, s)
    ensures Layout(e, s) && HeaderOf(e).pageId == HeaderOf(d).pageId
  {
    hide LE, UnLE, Used, DecodeSlot, Holds;
    BlankAgree(d, e, 0, 4);
    BlankAgree(d, e, 4, 6);
    BlankAgree(d, e, 6, 8);
    HeaderParts(d);
    HeaderParts(e);
    forall i | 0 <= i < |s| ensures Holds(e, s, i) {
      assert Holds(d, s, i);
      HoldsBlank(d, e, s, i);
    }
  }

  lemma {:induction false} HeaderParts(d: seq<byte>)
    requires |d| == PAGE_SIZE
    ensures HeaderOf(d).pageId == UnLE(d[0..4]) && HeaderOf(d).numSlots == UnLE(d[4..6]) &&
            HeaderOf(d).freeOffset == UnLE(d[6..8])
  {
    hide UnLE;
    var b := d[0..HEADER_SIZE];
    assert b[0..4] == d[0..4] && b[4..6] == d[4..6] && b[6..8] == d[6..8];
  }

  lemma {:induction false} BlankAgree(d: seq<byte>, e: seq<byte>, a: nat, b: nat)
    requires |d| == PAGE_SIZE && |e| == PAGE_SIZE && Blank(d) == Blank(e)
    requires a <= b <= PAGE_SIZE && (b <= 8 || 12 <= a)
    ensures d[a..b] == e[a..b]
  {
    SpliceOther(d, 8, LE(0, 4), a, b);
    SpliceOther(e, 8, LE(0, 4), a, b);
  }

  lemma {:induction false} HoldsBlank(d: seq<byte>, e: seq<byte>, s: Slots, i: nat)
    requires |d| == PAGE_SIZE && |e| == PAGE_SIZE && Blank(d) == Blank(e)
    requires i < |s| && SlotOffset(|s|) + Used(s) <= PAGE_SIZE && Holds(d, s, i)
    ensures Holds(e, s, i)
  {
    hide Used, LE, UnLE, DecodeSlot, Blank;
    UsedPrefix(s, i);
    var x := PAGE_SIZE - Used(s[..i + 1]);
    assert SlotOffset(i) + SLOT_SIZE <= SlotOffset(|s|) <= x;
    BlankAgree(d, e, SlotOffset(i), SlotOffset(i) + SLOT_SIZE);
    BlankAgree(d, e, x, x + |s[i].bytes|);
  }

  function SaturatingSub(a: nat, b: nat): nat {
    if a >= b then a - b else 0
  }

  /** The bytes of `Page::new`. */
  function NewBytes(id: nat): (d: seq<byte>)
    ensures |d| == PAGE_SIZE
  {
    Splice(seq(PAGE_SIZE, _ => 0), 0, EncodeHeader(Header(id, 0, PAGE_SIZE, 0)))
  }

  lemma {:induction false} NewBytesLayout(id: nat)
    requires id < 0x1_0000_0000
    ensures Layout(NewBytes(id), []) && HeaderOf(NewBytes(id)).pageId == id
  {
    hide Splice, EncodeHeader;
    LayoutEmpty(seq(PAGE_SIZE, _ => 0), id);
  }

  /** The bytes of a page built up to the tuples `s` by inserts and deletes, no checksum written. */
  function ImageOf(id: nat, s: Slots): (d: seq<byte>)
    requires SlotOffset(|s|) + Used(s) <= PAGE_SIZE
    ensures |d| == PAGE_SIZE
  {
    if s == [] then NewBytes(id)
    else
      var n := |s| - 1;
      var off, len := PAGE_SIZE - Used(s), |s[n].bytes|;
      var d := ImageOf(id, s[..n]);
      var d1 := Splice(d, off, s[n].bytes);
      var d2 := Splice(d1, SlotOffset(n), EncodeSlot(Slot(off, len, true)));
      var d3 := Splice(d2, 0, EncodeHeader(DecodeHeader(d[0..HEADER_SIZE]).(numSlots := n + 1, freeOffset := off)));
      if s[n].live then d3 else Splice(d3, SlotOffset(n), EncodeSlot(Slot(off, len, false)))
  }

  lemma {:induction false} ImageLayout(id: nat, s: Slots)
    requires id < 0x1_0000_0000 && SlotOffset(|s|) + Used(s) <= PAGE_SIZE
    ensures Layout(ImageOf(id, s), s) && HeaderOf(ImageOf(id, s)).pageId == id
  {
    hide Layout, Splice, EncodeSlot, EncodeHeader, DecodeHeader, NewBytes;
    if s == [] {
      NewBytesLayout(id);
    } else {
      var n := |s| - 1;
      ImageLayout(id, s[..n]);
      ImageStep(id, s, ImageOf(id, s[..n]));
    }
  }

  lemma {:induction false} ImageStep(id: nat, s: Slots, d: seq<byte>)
    requires s != [] && SlotOffset(|s|) + Used(s) <= PAGE_SIZE && id < 0x1_0000_0000
    requires Layout(d, s[..|s| - 1]) && HeaderOf(d).pageId == id && d == ImageOf(id, s[..|s| - 1])
    ensures Layout(ImageOf(id, s), s) && HeaderOf(ImageOf(id, s)).pageId == id
  {
    hide Splice, EncodeSlot, EncodeHeader, DecodeHeader, NewBytes, Holds;
    var n := |s| - 1;
    var init, t := s[..n], s[n].bytes;
    var off := PAGE_SIZE - Used(s);
    var d1 := Splice(d, off, t);
    var d2 := Splice(d1, SlotOffset(n), EncodeSlot(Slot(off, |t|, true)));
    var d3 := Splice(d2, 0, EncodeHeader(HeaderOf(d).(numSlots := n + 1, freeOffset := off)));
    LayoutInsert(d, init, t, d1, d2, d3);
    var full := Appended(init, t);
    if s[n].live {
      assert full == s;
    } else {
      UsedAppended(init, t);
      assert full[..n + 1] == full && full[n] == Tuple(t, true);
      LayoutDelete(d3, full, n, Splice(d3, SlotOffset(n), EncodeSlot(Slot(off, |t|, false))));
      assert Deleted(full, n) == s;
    }
  }

  datatype Insertion = Placed(slotId: nat) | Full | Overrun

  class SlottedPage {
    const id: nat
    const data: array<byte>
    var dirty: bool
    /** The tuples this page stands for. */
    ghost var slots: Slots

    ghost predicate Valid()
      reads this, data
    {
      data.Length == PAGE_SIZE && Layout(data[..], slots) && HeaderOf(data[..]).pageId == id
    }

    constructor (id: nat)
      requires id < 0x1_0000_0000
      ensures Valid() && fresh(data) && slots == [] && dirty && this.id == id
    {
      this.id := id;
      data := new byte[PAGE_SIZE](_ => 0);
      dirty := true;
      slots := [];
      new;
      LayoutEmpty(data[..], id);
      WriteHeader(data, Header(id, 0, PAGE_SIZE, 0));
    }

    /** A page read back from its bytes. */
    constructor FromBytes(id: nat, bytes: seq<byte>, ghost s: Slots)
      requires |bytes| == PAGE_SIZE && Layout(bytes, s) && HeaderOf(bytes).pageId == id
      ensures Valid() && fresh(data) && slots == s && !dirty && this.id == id
    {
      this.id := id;
      data := new byte[PAGE_SIZE](i requires 0 <= i < PAGE_SIZE => bytes[i]);
      dirty := false;
      slots := s;
      new;
      assert data[..] == bytes;
    }

    static method WriteHeader(buf: array<byte>, h: Header)
      requires buf.Length == PAGE_SIZE
      modifies buf
      ensures buf[..] == Splice(old(buf[..]), 0, EncodeHeader(h))
    {
      CopyInto(buf, 0, EncodeHeader(h));
    }

    method ReadHeader() returns (h: Header)
      requires Valid()
      ensures h == HeaderOf(data[..])
    {
      assert data[..][0..HEADER_SIZE] == data[..HEADER_SIZE];
      h := DecodeHeader(data[..HEADER_SIZE]);
    }

    method NumSlots() returns (n: nat)
      requires Valid()
      ensures n == |slots|
    {
      var header := ReadHeader();
      n := header.numSlots;
    }

    method ReadSlot(i: nat) returns (s: Slot)
      requires Valid() && i < |slots|
      ensures Used(slots[..i + 1]) <= PAGE_SIZE
      ensures s == Slot(PAGE_SIZE - Used(slots[..i + 1]), |slots[i].bytes|, slots[i].live)
    {
      UsedPrefix(slots, i);
      assert Holds(data[..], slots, i);
      var off := SlotOffset(i);
      assert data[..][off..off + SLOT_SIZE] == data[off..off + SLOT_SIZE];
      s := DecodeSlot(data[off..off + SLOT_SIZE]);
    }

    /** Appends a tuple; fails exactly when it and its slot entry do not fit. The check uses the length's low 16 bits:
        a longer tuple that passes it overruns the page and stops the program, the page unchanged. */
    method InsertTuple(tuple: seq<byte>) returns (r: Insertion)
      requires Valid()
      modifies this, data
      ensures Valid()
      ensures r.Placed? <==> Fits(old(slots), |tuple|)
      ensures r.Overrun? <==> |tuple| >= 0x1_0000 && Fits(old(slots), |tuple| % 0x1_0000)
      ensures r.Placed? ==> r.slotId == |old(slots)| && dirty
      ensures slots == if r.Placed? then Appended(old(slots), tuple) else old(slots)
    {
      hide Used, LE, UnLE, Holds, EncodeHeader, EncodeSlot, DecodeHeader, DecodeSlot, Splice;
      var header := ReadHeader();
      var tupleLen := |tuple| % 0x1_0000;
      if header.freeOffset < tupleLen {
        return Full;
      }
      var newFree := header.freeOffset - tupleLen;
      var slotAreaEnd := HEADER_SIZE + (header.numSlots + 1) * SLOT_SIZE;
      if slotAreaEnd > newFree {
        return Full;
      }
      if newFree + |tuple| > PAGE_SIZE {
        return Overrun;
      }
      ghost var d0 := data[..];
      CopyInto(data, newFree, tuple);
      ghost var d1 := data[..];
      var slotId := header.numSlots;
      CopyInto(data, SlotOffset(slotId), EncodeSlot(Slot(newFree, |tuple|, true)));
      ghost var d2 := data[..];
      header := header.(numSlots := header.numSlots + 1, freeOffset := newFree);
      WriteHeader(data, header);
      LayoutInsert(d0, slots, tuple, d1, d2, data[..]);
      slots := Appended(slots, tuple);
      dirty := true;
      r := Placed(slotId);
    }

    /** The bytes of a live tuple. */
    method GetTuple(i: nat) returns (r: Option<seq<byte>>)
      requires Valid()
      ensures r == Get(slots, i)
    {
      hide Used, LE, UnLE, EncodeHeader, DecodeHeader, DecodeSlot;
      var header := ReadHeader();
      if i >= header.numSlots {
        return None;
      }
      var slot := ReadSlot(i);
      if !slot.active {
        return None;
      }
      UsedPrefix(slots, i);
      assert Holds(data[..], slots, i);
      assert data[..][slot.offset..slot.offset + slot.length] == data[slot.offset..slot.offset + slot.length];
      r := Some(data[slot.offset..slot.offset + slot.length]);
    }

    /** Overwrites a live tuple in place; refused when it would grow. */
    method UpdateTuple(i: nat, tuple: seq<byte>) returns (ok: bool)
      requires Valid()
      modifies this, data
      ensures Valid()
      ensures ok == CanUpdate(old(slots), i, tuple)
      ensures slots == Updated(old(slots), i, tuple)
    {
      hide Used, LE, UnLE, Holds, EncodeHeader, DecodeHeader, DecodeSlot, Splice;
      var header := ReadHeader();
      if i >= header.numSlots {
        return false;
      }
      var slot := ReadSlot(i);
      if !slot.active {
        return false;
      }
      if |tuple| > slot.length {
        return false;
      }
      UsedPrefix(slots, i);
      ghost var d0 := data[..];
      CopyInto(data, slot.offset, tuple);
      LayoutUpdate(d0, slots, i, tuple, data[..]);
      slots := Updated(slots, i, tuple);
      dirty := true;
      ok := true;
    }

    /** Tombstones a live tuple; its bytes and its slot stay. */
    method DeleteTuple(i: nat) returns (ok: bool)
      requires Valid()
      modifies this, data
      ensures Valid()
      ensures ok == Live(old(slots), i)
      ensures slots == Deleted(old(slots), i)
    {
      hide Used, LE, UnLE, Holds, EncodeHeader, DecodeHeader, DecodeSlot, EncodeSlot, Splice;
      var header := ReadHeader();
      if i >= header.numSlots {
        return false;
      }
      var slot := ReadSlot(i);
      if !slot.active {
        return false;
      }
      UsedPrefix(slots, i);
      ghost var d0 := data[..];
      assert SlotOffset(i) + SLOT_SIZE <= SlotOffset(|slots|);
      CopyInto(data, SlotOffset(i), EncodeSlot(slot.(active := false)));
      LayoutDelete(d0, slots, i, data[..]);
      slots := Deleted(slots, i);
      dirty := true;
      ok := true;
    }

    /** Free bytes between the slot array and the tuples; `len + 5` of them are what an insert needs. */
    method FreeSpace() returns (n: nat)
      requires Valid()
      ensures n == PAGE_SIZE - Used(slots) - SlotOffset(|slots|)
      ensures forall len: nat :: n >= len + SLOT_SIZE <==> Fits(slots, len)
    {
      hide Used, Holds, DecodeHeader;
      var header := ReadHeader();
      var slotAreaEnd := HEADER_SIZE + header.numSlots * SLOT_SIZE;
      n := SaturatingSub(header.freeOffset, slotAreaEnd);
    }

    /** Writes the checksum of the page into its header; the tuples do not change. */
    method FinalizeChecksum(crc: seq<byte> -> Crc)
      requires Valid()
      modifies data
      ensures Valid() && data[..] == Stamped(old(data[..]), crc)
    {
      hide Used, Holds, LE, UnLE, DecodeHeader, DecodeSlot;
      ghost var d0 := data[..];
      CopyInto(data, 8, LE(0, 4));
      var sum := crc(data[..]);
      CopyInto(data, 8, LE(sum, 4));
      StampedRight(d0, crc);
      assert data[..] == Stamped(d0, crc);
      LayoutBlank(d0, data[..], slots);
    }
  }
}
