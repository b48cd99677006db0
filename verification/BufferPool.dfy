/** The buffer pool of src/buffer/buffer_pool.rs with its LRU replacer and the disk manager below it,
    against a plain store from page id to page. */
module BufferPool {
  import opened Common
  import opened Bytes
  import opened Slots
  import opened Page

  // --- LRU order ---

  /** Oldest use first. */
  ghost predicate ByAge(order: seq<nat>, lastUse: map<nat, nat>) {
    && (forall f :: f in order ==> f in lastUse)
    && (forall i, j :: 0 <= i < j < |order| ==> lastUse[order[i]] < lastUse[order[j]])
  }

  lemma {:induction false} ByAgeTail(s: seq<nat>, lastUse: map<nat, nat>)
    requires s != [] && ByAge(s, lastUse)
    ensures s[0] in lastUse && ByAge(s[1..], lastUse)
    ensures forall x :: x in s[1..] ==> x in lastUse && lastUse[s[0]] < lastUse[x]
  {
    var t := s[1..];
    assert forall i :: 0 <= i < |t| ==> t[i] == s[i + 1];
    assert s[0] in s;
  }

  lemma {:induction false} ByAgeCons(x: nat, s: seq<nat>, lastUse: map<nat, nat>)
    requires x in lastUse && ByAge(s, lastUse) && forall y :: y in s ==> lastUse[x] < lastUse[y]
    ensures ByAge([x] + s, lastUse)
  {
    var t := [x] + s;
    assert forall i :: 1 <= i < |t| ==> t[i] == s[i - 1] && s[i - 1] in s;
  }

  lemma {:induction false} WithoutKeeps(s: seq<nat>, x: nat, lastUse: map<nat, nat>)
    requires ByAge(s, lastUse)
    ensures ByAge(Without(s, x), lastUse)
  {
    hide ByAge;
    if s == [] {
      assert Without(s, x) == s;
    } else {
      ByAgeTail(s, lastUse);
      WithoutKeeps(s[1..], x, lastUse);
      if s[0] != x {
        ByAgeCons(s[0], Without(s[1..], x), lastUse);
      }
    }
  }

  class LruReplacer {
    var order: seq<nat>

    constructor ()
      ensures order == []
    {
      order := [];
    }

    method Unpin(frameId: nat)
      modifies this
      ensures order == if frameId in old(order) then old(order) else old(order) + [frameId]
    {
      if frameId !in order {
        order := order + [frameId];
      }
    }

    method Pin(frameId: nat)
      modifies this
      ensures order == Without(old(order), frameId)
    {
      order := Without(order, frameId);
    }

    method Evict() returns (r: Option<nat>)
      modifies this
      ensures r == if old(order) == [] then None else Some(old(order)[0])
      ensures order == if old(order) == [] then [] else old(order)[1..]
    {
      if order == [] {
        return None;
      }
      r := Some(order[0]);
      order := order[1..];
    }

    method RecordAccess(frameId: nat)
      modifies this
      ensures order == Without(old(order), frameId) + [frameId]
    {
      order := Without(order, frameId);
      order := order + [frameId];
    }
  }

  // --- Frames ---

  datatype Cached = Cached(id: nat, data: seq<byte>)

  datatype Frame = Frame(page: Option<Cached>, pinCount: nat, isDirty: bool)

  const EMPTY_FRAME: Frame := Frame(None, 0, false)

  type Disk = map<nat, seq<byte>>

  /** Everything the pool holds besides its counters. `touched` is the pinned frame written since its pin. */
  datatype Pool = Pool(frames: seq<Frame>, table: map<nat, nat>, disk: Disk, numPages: nat, order: seq<nat>,
                       touched: Option<nat>, lastUse: map<nat, nat>, clock: nat)

  /** Page table and frames are in bijection, and every allocated page is in the pool or on disk. */
  ghost predicate Mapped(p: Pool) {
    && (forall id :: id in p.table ==> p.table[id] < |p.frames| && id < p.numPages && InFrame(p, p.table[id], id))
    && (forall f :: 0 <= f < |p.frames| && p.frames[f].page.Some? ==>
          p.frames[f].page.value.id in p.table && p.table[p.frames[f].page.value.id] == f)
    && (forall id :: id in p.disk ==> id < p.numPages)
    && (forall id :: 0 <= id < p.numPages ==> id in p.table || id in p.disk)
  }

  ghost predicate InFrame(p: Pool, f: nat, id: nat)
    requires f < |p.frames|
  {
    p.frames[f].page.Some? && p.frames[f].page.value.id == id
  }

  /** Pages are whole, and what the disk holds of a resident page passes its checksum. */
  ghost predicate Whole(p: Pool, crc: seq<byte> -> Crc) {
    && (forall f :: 0 <= f < |p.frames| && p.frames[f].page.Some? ==> |p.frames[f].page.value.data| == PAGE_SIZE)
    && (forall id :: id in p.disk ==> |p.disk[id]| == PAGE_SIZE)
    && (forall id :: id in p.disk && id in p.table ==> ChecksumRight(p.disk[id], crc))
  }

  /** The page can be fetched: it is in the pool, or its copy on disk passes its checksum. */
  ghost predicate Readable(p: Pool, crc: seq<byte> -> Crc, id: nat) {
    id in p.table || (id in p.disk && |p.disk[id]| == PAGE_SIZE && ChecksumRight(p.disk[id], crc))
  }

  /** The same pages can be fetched. */
  ghost predicate SameReadable(p: Pool, q: Pool, crc: seq<byte> -> Crc) {
    forall id :: Readable(p, crc, id) <==> Readable(q, crc, id)
  }

  /** A clean frame equals the disk up to the checksum field. */
  ghost predicate Coherent(p: Pool) {
    forall f :: 0 <= f < |p.frames| && p.frames[f].page.Some? && !p.frames[f].isDirty && p.touched != Some(f) ==>
      CleanFrame(p, f)
  }

  ghost predicate CleanFrame(p: Pool, f: nat)
    requires f < |p.frames| && p.frames[f].page.Some?
  {
    var c := p.frames[f].page.value;
    c.id in p.disk && |c.data| == PAGE_SIZE && |p.disk[c.id]| == PAGE_SIZE && Blank(c.data) == Blank(p.disk[c.id])
  }

  /** At most one pin is outstanding, on frame `pinned`. */
  ghost predicate OnePin(p: Pool, pinned: Option<nat>) {
    && (forall f :: 0 <= f < |p.frames| ==> p.frames[f].pinCount == if pinned == Some(f) then 1 else 0)
    && (pinned.Some? ==> pinned.value < |p.frames| && p.frames[pinned.value].page.Some?)
    && (p.touched.Some? ==> p.touched == pinned)
  }

  /** Every resident unpinned frame can be evicted, oldest use first, each listed once. */
  ghost predicate Evictable(p: Pool, pinned: Option<nat>) {
    && (forall f :: f in p.order ==> f < |p.frames| && p.frames[f].page.Some?)
    && (forall f :: 0 <= f < |p.frames| && p.frames[f].page.Some? && pinned != Some(f) ==> f in p.order)
    && ByAge(p.order, p.lastUse)
    && (forall f :: 0 <= f < |p.frames| && p.frames[f].page.Some? ==> f in p.lastUse && p.lastUse[f] < p.clock)
    && (pinned.Some? ==> forall f :: f in p.order && pinned != Some(f) ==>
        f in p.lastUse && pinned.value in p.lastUse && p.lastUse[f] < p.lastUse[pinned.value])
  }

  ghost predicate PoolInv(p: Pool, crc: seq<byte> -> Crc, pinned: Option<nat>) {
    Mapped(p) && Whole(p, crc) && Coherent(p) && OnePin(p, pinned) && Evictable(p, pinned)
  }

  /** The plain store the pool stands for: the newest bytes of every allocated page, checksum blanked. */
  ghost function Store(p: Pool): map<nat, seq<byte>> {
    map id | 0 <= id < p.numPages :: Newest(p, id)
  }

  ghost function Newest(p: Pool, id: nat): seq<byte> {
    if id in p.table && p.table[id] < |p.frames| && p.frames[p.table[id]].page.Some? then
      BlankOf(p.frames[p.table[id]].page.value.data)
    else if id in p.disk then BlankOf(p.disk[id]) else []
  }

  ghost function BlankOf(d: seq<byte>): seq<byte> {
    if |d| == PAGE_SIZE then Blank(d) else d
  }

  /** Two pools with the same newest bytes are the same store. */
  lemma {:induction false} SameStore(p: Pool, q: Pool)
    requires p.numPages == q.numPages && forall id :: 0 <= id < p.numPages ==> Newest(p, id) == Newest(q, id)
    ensures Store(p) == Store(q)
  {
  }

  /** A change to one frame, made coherent there, leaves the others coherent. */
  lemma {:induction false} CoherentKept(p: Pool, q: Pool, f: nat)
    requires f < |p.frames| == |q.frames| && Coherent(p)
    requires forall g :: 0 <= g < |p.frames| && g != f ==>
      && q.frames[g] == p.frames[g] && (p.touched == Some(g) ==> q.touched == Some(g))
      && (p.frames[g].page.Some? && p.frames[g].page.value.id in p.disk ==>
            p.frames[g].page.value.id in q.disk &&
            q.disk[p.frames[g].page.value.id] == p.disk[p.frames[g].page.value.id])
    requires q.frames[f].page.Some? && !q.frames[f].isDirty && q.touched != Some(f) ==> CleanFrame(q, f)
    ensures Coherent(q)
  {
    hide Blank;
    forall g | 0 <= g < |q.frames| && q.frames[g].page.Some? && !q.frames[g].isDirty && q.touched != Some(g)
      ensures CleanFrame(q, g)
    {
      if g != f { assert CleanFrame(p, g); }
    }
  }

  // --- Effects on the pool ---

  /** The frame's page written to disk with its checksum; the frame holds the stamped bytes. */
  ghost function Flushed(p: Pool, f: nat, crc: seq<byte> -> Crc): Pool
    requires f < |p.frames| && p.frames[f].page.Some? && |p.frames[f].page.value.data| == PAGE_SIZE
  {
    var c := p.frames[f].page.value;
    var d := Stamped(c.data, crc);
    p.(frames := p.frames[f := p.frames[f].(page := Some(Cached(c.id, d)), isDirty := false)],
       disk := p.disk[c.id := d])
  }

  lemma {:induction false} FlushMapped(p: Pool, f: nat, crc: seq<byte> -> Crc, pinned: Option<nat>)
    requires f < |p.frames| && p.frames[f].page.Some? && |p.frames[f].page.value.data| == PAGE_SIZE
    requires Mapped(p) && Whole(p, crc)
    ensures Mapped(Flushed(p, f, crc)) && Whole(Flushed(p, f, crc), crc)
  {
    hide Blank, Stamped, ChecksumRight;
    var q := Flushed(p, f, crc);
    StampedRight(p.frames[f].page.value.data, crc);
  }

  lemma {:induction false} FlushCoherent(p: Pool, f: nat, crc: seq<byte> -> Crc, pinned: Option<nat>)
    requires f < |p.frames| && p.frames[f].page.Some? && |p.frames[f].page.value.data| == PAGE_SIZE
    requires Mapped(p) && Whole(p, crc) && Coherent(p) && OnePin(p, pinned)
    ensures Coherent(Flushed(p, f, crc))
  {
    hide Blank, Stamped, ChecksumRight;
    var q := Flushed(p, f, crc);
    StampedRight(p.frames[f].page.value.data, crc);
    CoherentKept(p, q, f);
  }

  lemma {:induction false} FlushAges(p: Pool, f: nat, crc: seq<byte> -> Crc, pinned: Option<nat>)
    requires f < |p.frames| && p.frames[f].page.Some? && |p.frames[f].page.value.data| == PAGE_SIZE
    requires Evictable(p, pinned) && OnePin(p, pinned)
    ensures Evictable(Flushed(p, f, crc), pinned) && OnePin(Flushed(p, f, crc), pinned)
  {
    hide Blank, Stamped, ByAge;
    var q := Flushed(p, f, crc);
  }

  lemma {:induction false} FlushStore(p: Pool, f: nat, crc: seq<byte> -> Crc, pinned: Option<nat>)
    requires f < |p.frames| && p.frames[f].page.Some? && |p.frames[f].page.value.data| == PAGE_SIZE
    requires Mapped(p) && Whole(p, crc)
    ensures Store(Flushed(p, f, crc)) == Store(p)
  {
    hide Blank, Stamped, ChecksumRight;
    var q := Flushed(p, f, crc);
    StampedRight(p.frames[f].page.value.data, crc);
    forall id | 0 <= id < p.numPages ensures Newest(p, id) == Newest(q, id) {}
    SameStore(p, q);
  }

  /** Writing a frame back changes no page's content and leaves the frame clean. */
  lemma {:induction false} FlushInv(p: Pool, f: nat, crc: seq<byte> -> Crc, pinned: Option<nat>)
    requires f < |p.frames| && p.frames[f].page.Some? && |p.frames[f].page.value.data| == PAGE_SIZE
    requires PoolInv(p, crc, pinned)
    ensures PoolInv(Flushed(p, f, crc), crc, pinned)
    ensures Store(Flushed(p, f, crc)) == Store(p)
  {
    hide Mapped, Whole, Coherent, OnePin, Evictable, Store, CleanFrame, Blank, Stamped;
    FlushMapped(p, f, crc, pinned);
    FlushCoherent(p, f, crc, pinned);
    FlushAges(p, f, crc, pinned);
    FlushStore(p, f, crc, pinned);
  }

  lemma {:induction false} FlushReads(p: Pool, f: nat, crc: seq<byte> -> Crc)
    requires f < |p.frames| && p.frames[f].page.Some? && |p.frames[f].page.value.data| == PAGE_SIZE
    requires Mapped(p)
    ensures SameReadable(p, Flushed(p, f, crc), crc)
  {
    hide Blank, Stamped, ChecksumRight;
    StampedRight(p.frames[f].page.value.data, crc);
  }

  /** A page given up can be fetched again. */
  lemma {:induction false} DropReads(p: Pool, f: nat, crc: seq<byte> -> Crc)
    requires f < |p.frames| && p.frames[f].page.Some? && CleanFrame(p, f)
    requires Mapped(p) && Whole(p, crc)
    ensures SameReadable(p, Dropped(p, f), crc)
  {
    hide Blank, Stamped, ChecksumRight, Without;
  }

  lemma {:induction false} FlushCleans(p: Pool, f: nat, crc: seq<byte> -> Crc)
    requires f < |p.frames| && p.frames[f].page.Some? && |p.frames[f].page.value.data| == PAGE_SIZE
    ensures CleanFrame(Flushed(p, f, crc), f)
  {
    hide Blank, Stamped;
    StampedRight(p.frames[f].page.value.data, crc);
  }

  /** A clean, unpinned frame given up. */
  ghost function Dropped(p: Pool, f: nat): Pool
    requires f < |p.frames| && p.frames[f].page.Some?
  {
    p.(frames := p.frames[f := EMPTY_FRAME], table := p.table - {p.frames[f].page.value.id},
       order := Without(p.order, f))
  }

  lemma {:induction false} DropMapped(p: Pool, f: nat, crc: seq<byte> -> Crc)
    requires f < |p.frames| && p.frames[f].page.Some? && CleanFrame(p, f)
    requires Mapped(p) && Whole(p, crc)
    ensures Mapped(Dropped(p, f)) && Whole(Dropped(p, f), crc)
  {
    hide Blank, Stamped, ChecksumRight;
    var q := Dropped(p, f);
  }

  lemma {:induction false} DropCoherent(p: Pool, f: nat, crc: seq<byte> -> Crc)
    requires f < |p.frames| && p.frames[f].page.Some? && CleanFrame(p, f)
    requires Mapped(p) && Whole(p, crc) && Coherent(p) && OnePin(p, None)
    ensures Coherent(Dropped(p, f))
  {
    hide Blank, Stamped, ChecksumRight;
    var q := Dropped(p, f);
    CoherentKept(p, q, f);
  }

  lemma {:induction false} DropAges(p: Pool, f: nat, crc: seq<byte> -> Crc)
    requires f < |p.frames| && p.frames[f].page.Some? && CleanFrame(p, f)
    requires Evictable(p, None) && OnePin(p, None)
    ensures Evictable(Dropped(p, f), None) && OnePin(Dropped(p, f), None)
  {
    hide Blank, Stamped, ByAge;
    var q := Dropped(p, f);
    WithoutKeeps(p.order, f, p.lastUse);
  }

  lemma {:induction false} DropStore(p: Pool, f: nat, crc: seq<byte> -> Crc)
    requires f < |p.frames| && p.frames[f].page.Some? && CleanFrame(p, f)
    requires Mapped(p) && Whole(p, crc)
    ensures Store(Dropped(p, f)) == Store(p)
  {
    hide Blank, Stamped, ChecksumRight;
    var q := Dropped(p, f);
    forall id | 0 <= id < p.numPages ensures Newest(p, id) == Newest(q, id) {}
    SameStore(p, q);
  }

  /** Giving up a clean frame loses nothing: its page is on disk. */
  lemma {:induction false} DropInv(p: Pool, f: nat, crc: seq<byte> -> Crc)
    requires f < |p.frames| && p.frames[f].page.Some? && CleanFrame(p, f)
    requires PoolInv(p, crc, None)
    ensures PoolInv(Dropped(p, f), crc, None)
    ensures Store(Dropped(p, f)) == Store(p)
  {
    hide Mapped, Whole, Coherent, OnePin, Evictable, Store, CleanFrame, Blank, Stamped;
    DropMapped(p, f, crc);
    DropCoherent(p, f, crc);
    DropAges(p, f, crc);
    DropStore(p, f, crc);
  }

  /** A page placed in an empty frame and pinned. */
  ghost function Loaded(p: Pool, f: nat, c: Cached, dirty: bool): Pool
    requires f < |p.frames|
  {
    p.(frames := p.frames[f := Frame(Some(c), 1, dirty)], table := p.table[c.id := f], order := Without(p.order, f),
       lastUse := p.lastUse[f := p.clock], clock := p.clock + 1)
  }

  lemma {:induction false} LoadAge(order: seq<nat>, lastUse: map<nat, nat>, f: nat, clock: nat)
    requires ByAge(order, lastUse)
    ensures ByAge(Without(order, f), lastUse[f := clock])
    ensures (forall g :: g in order ==> lastUse[g] < clock) ==> ByAge(Without(order, f) + [f], lastUse[f := clock])
  {
    WithoutKeeps(order, f, lastUse);
    var w := Without(order, f);
    assert forall i :: 0 <= i < |w| ==> w[i] in w;
  }

  lemma {:induction false} LoadMapped(p: Pool, f: nat, id: nat, crc: seq<byte> -> Crc)
    requires f < |p.frames| && p.frames[f].page.None? && id in p.disk && id !in p.table && |p.disk[id]| == PAGE_SIZE
    requires ChecksumRight(p.disk[id], crc)
    requires Mapped(p) && Whole(p, crc)
    ensures Mapped(Loaded(p, f, Cached(id, p.disk[id]), false)) &&
            Whole(Loaded(p, f, Cached(id, p.disk[id]), false), crc)
  {
    hide Blank, Stamped, ChecksumRight;
    var q := Loaded(p, f, Cached(id, p.disk[id]), false);
  }

  lemma {:induction false} LoadCoherent(p: Pool, f: nat, id: nat, crc: seq<byte> -> Crc)
    requires f < |p.frames| && p.frames[f].page.None? && id in p.disk && id !in p.table && |p.disk[id]| == PAGE_SIZE
    requires ChecksumRight(p.disk[id], crc)
    requires Mapped(p) && Whole(p, crc) && Coherent(p) && OnePin(p, None)
    ensures Coherent(Loaded(p, f, Cached(id, p.disk[id]), false))
  {
    hide Blank, Stamped, ChecksumRight;
    var q := Loaded(p, f, Cached(id, p.disk[id]), false);
    CoherentKept(p, q, f);
  }

  lemma {:induction false} LoadAges(p: Pool, f: nat, id: nat, crc: seq<byte> -> Crc)
    requires f < |p.frames| && p.frames[f].page.None? && id in p.disk && id !in p.table && |p.disk[id]| == PAGE_SIZE
    requires ChecksumRight(p.disk[id], crc)
    requires Evictable(p, None) && OnePin(p, None)
    ensures Evictable(Loaded(p, f, Cached(id, p.disk[id]), false), Some(f)) &&
            OnePin(Loaded(p, f, Cached(id, p.disk[id]), false), Some(f))
  {
    hide Blank, Stamped, ByAge;
    var q := Loaded(p, f, Cached(id, p.disk[id]), false);
    LoadAge(p.order, p.lastUse, f, p.clock);
  }

  lemma {:induction false} LoadStore(p: Pool, f: nat, id: nat, crc: seq<byte> -> Crc)
    requires f < |p.frames| && p.frames[f].page.None? && id in p.disk && id !in p.table && |p.disk[id]| == PAGE_SIZE
    requires ChecksumRight(p.disk[id], crc)
    requires Mapped(p) && Whole(p, crc)
    ensures Store(Loaded(p, f, Cached(id, p.disk[id]), false)) == Store(p)
  {
    hide Blank, Stamped, ChecksumRight;
    var q := Loaded(p, f, Cached(id, p.disk[id]), false);
    forall id | 0 <= id < p.numPages ensures Newest(p, id) == Newest(q, id) {}
    SameStore(p, q);
  }

  /** A miss brings in the disk's bytes. */
  lemma {:induction false} LoadInv(p: Pool, f: nat, id: nat, crc: seq<byte> -> Crc)
    requires f < |p.frames| && p.frames[f].page.None? && id in p.disk && id !in p.table && |p.disk[id]| == PAGE_SIZE
    requires ChecksumRight(p.disk[id], crc)
    requires PoolInv(p, crc, None)
    ensures PoolInv(Loaded(p, f, Cached(id, p.disk[id]), false), crc, Some(f))
    ensures Store(Loaded(p, f, Cached(id, p.disk[id]), false)) == Store(p)
  {
    hide Mapped, Whole, Coherent, OnePin, Evictable, Store, CleanFrame, Blank, Stamped;
    LoadMapped(p, f, id, crc);
    LoadCoherent(p, f, id, crc);
    LoadAges(p, f, id, crc);
    LoadStore(p, f, id, crc);
  }

  /** A brand-new page: allocated on disk in name only, dirty in its frame. */
  ghost function Created(p: Pool, f: nat, data: seq<byte>): Pool
    requires f < |p.frames|
  {
    Loaded(p.(numPages := p.numPages + 1), f, Cached(p.numPages, data), true)
  }

  lemma {:induction false} StoreGrows(p: Pool, q: Pool, data: seq<byte>)
    requires q.numPages == p.numPages + 1 && Newest(q, p.numPages) == data
    requires forall i :: 0 <= i < p.numPages ==> Newest(p, i) == Newest(q, i)
    ensures Store(q) == Store(p)[p.numPages := data]
  {
    hide Newest;
  }

  lemma {:induction false} CreateMapped(p: Pool, f: nat, data: seq<byte>, crc: seq<byte> -> Crc)
    requires f < |p.frames| && p.frames[f].page.None? && |data| == PAGE_SIZE
    requires Mapped(p) && Whole(p, crc)
    ensures Mapped(Created(p, f, data)) && Whole(Created(p, f, data), crc)
  {
    hide Blank, Stamped, ChecksumRight;
    var q := Created(p, f, data);
  }

  lemma {:induction false} CreateCoherent(p: Pool, f: nat, data: seq<byte>, crc: seq<byte> -> Crc)
    requires f < |p.frames| && p.frames[f].page.None? && |data| == PAGE_SIZE
    requires Mapped(p) && Whole(p, crc) && Coherent(p) && OnePin(p, None)
    ensures Coherent(Created(p, f, data))
  {
    hide Blank, Stamped, ChecksumRight;
    var q := Created(p, f, data);
    CoherentKept(p, q, f);
  }

  lemma {:induction false} CreateAges(p: Pool, f: nat, data: seq<byte>, crc: seq<byte> -> Crc)
    requires f < |p.frames| && p.frames[f].page.None? && |data| == PAGE_SIZE
    requires Evictable(p, None) && OnePin(p, None)
    ensures Evictable(Created(p, f, data), Some(f)) && OnePin(Created(p, f, data), Some(f))
  {
    hide Blank, Stamped, ByAge;
    var q := Created(p, f, data);
    LoadAge(p.order, p.lastUse, f, p.clock);
  }

  lemma {:induction false} CreateStore(p: Pool, f: nat, data: seq<byte>, crc: seq<byte> -> Crc)
    requires f < |p.frames| && p.frames[f].page.None? && |data| == PAGE_SIZE
    requires Mapped(p) && Whole(p, crc)
    ensures Store(Created(p, f, data)) == Store(p)[p.numPages := Blank(data)]
  {
    hide Blank, Stamped, ChecksumRight;
    var q := Created(p, f, data);
    forall i | 0 <= i < p.numPages ensures Newest(p, i) == Newest(q, i) {}
    assert Newest(q, p.numPages) == Blank(data);
    StoreGrows(p, q, Blank(data));
  }

  /** A new page extends the store by its initial bytes and changes nothing else. */
  lemma {:induction false} CreateInv(p: Pool, f: nat, data: seq<byte>, crc: seq<byte> -> Crc)
    requires f < |p.frames| && p.frames[f].page.None? && |data| == PAGE_SIZE
    requires PoolInv(p, crc, None)
    ensures PoolInv(Created(p, f, data), crc, Some(f))
    ensures Store(Created(p, f, data)) == Store(p)[p.numPages := Blank(data)]
  {
    hide Mapped, Whole, Coherent, OnePin, Evictable, Store, CleanFrame, Blank, Stamped;
    CreateMapped(p, f, data, crc);
    CreateCoherent(p, f, data, crc);
    CreateAges(p, f, data, crc);
    CreateStore(p, f, data, crc);
  }

  /** A hit: pinned, and moved to the recent end of the order, where it stays while pinned. */
  ghost function Hit(p: Pool, f: nat): Pool
    requires f < |p.frames|
  {
    p.(frames := p.frames[f := p.frames[f].(pinCount := p.frames[f].pinCount + 1)], order := Without(p.order, f) + [f],
       lastUse := p.lastUse[f := p.clock], clock := p.clock + 1)
  }

  lemma {:induction false} HitMapped(p: Pool, f: nat, crc: seq<byte> -> Crc)
    requires f < |p.frames| && p.frames[f].page.Some?
    requires Mapped(p) && Whole(p, crc)
    ensures Mapped(Hit(p, f)) && Whole(Hit(p, f), crc)
  {
    hide Blank, Stamped, ChecksumRight;
    var q := Hit(p, f);
  }

  lemma {:induction false} HitCoherent(p: Pool, f: nat, crc: seq<byte> -> Crc)
    requires f < |p.frames| && p.frames[f].page.Some?
    requires Mapped(p) && Whole(p, crc) && Coherent(p) && OnePin(p, None)
    ensures Coherent(Hit(p, f))
  {
    hide Blank, Stamped, ChecksumRight;
    var q := Hit(p, f);
    CoherentKept(p, q, f);
  }

  lemma {:induction false} HitAges(p: Pool, f: nat, crc: seq<byte> -> Crc)
    requires f < |p.frames| && p.frames[f].page.Some?
    requires Evictable(p, None) && OnePin(p, None)
    ensures Evictable(Hit(p, f), Some(f)) && OnePin(Hit(p, f), Some(f))
  {
    hide Blank, Stamped, ByAge;
    var q := Hit(p, f);
    LoadAge(p.order, p.lastUse, f, p.clock);
  }

  lemma {:induction false} HitStore(p: Pool, f: nat, crc: seq<byte> -> Crc)
    requires f < |p.frames| && p.frames[f].page.Some?
    requires Mapped(p) && Whole(p, crc)
    ensures Store(Hit(p, f)) == Store(p)
  {
    hide Blank, Stamped, ChecksumRight;
    var q := Hit(p, f);
    forall id | 0 <= id < p.numPages ensures Newest(p, id) == Newest(q, id) {}
    SameStore(p, q);
  }

  /** A hit changes no page. */
  lemma {:induction false} HitInv(p: Pool, f: nat, crc: seq<byte> -> Crc)
    requires f < |p.frames| && p.frames[f].page.Some?
    requires PoolInv(p, crc, None)
    ensures PoolInv(Hit(p, f), crc, Some(f))
    ensures Store(Hit(p, f)) == Store(p)
  {
    hide Mapped, Whole, Coherent, OnePin, Evictable, Store, CleanFrame, Blank, Stamped;
    HitMapped(p, f, crc);
    HitCoherent(p, f, crc);
    HitAges(p, f, crc);
    HitStore(p, f, crc);
  }

  /** The pinned page overwritten through `get_page_mut`. */
  ghost function Written(p: Pool, f: nat, data: seq<byte>): Pool
    requires f < |p.frames| && p.frames[f].page.Some?
  {
    p.(frames := p.frames[f := p.frames[f].(page := Some(Cached(p.frames[f].page.value.id, data)))], touched := Some(f))
  }

  lemma {:induction false} StoreUpdates(p: Pool, q: Pool, id: nat, data: seq<byte>)
    requires q.numPages == p.numPages && id < p.numPages && Newest(q, id) == data
    requires forall i :: 0 <= i < p.numPages && i != id ==> Newest(p, i) == Newest(q, i)
    ensures Store(q) == Store(p)[id := data]
  {
    hide Newest;
  }

  lemma {:induction false} WriteMapped(p: Pool, f: nat, data: seq<byte>, crc: seq<byte> -> Crc)
    requires f < |p.frames| && p.frames[f].page.Some? && |data| == PAGE_SIZE
    requires Mapped(p) && Whole(p, crc)
    ensures Mapped(Written(p, f, data)) && Whole(Written(p, f, data), crc)
  {
    hide Blank, Stamped, ChecksumRight;
    var q := Written(p, f, data);
  }

  lemma {:induction false} WriteCoherent(p: Pool, f: nat, data: seq<byte>, crc: seq<byte> -> Crc)
    requires f < |p.frames| && p.frames[f].page.Some? && |data| == PAGE_SIZE
    requires Mapped(p) && Whole(p, crc) && Coherent(p) && OnePin(p, Some(f))
    ensures Coherent(Written(p, f, data))
  {
    hide Blank, Stamped, ChecksumRight;
    var q := Written(p, f, data);
    CoherentKept(p, q, f);
  }

  lemma {:induction false} WriteAges(p: Pool, f: nat, data: seq<byte>, crc: seq<byte> -> Crc)
    requires f < |p.frames| && p.frames[f].page.Some? && |data| == PAGE_SIZE
    requires Evictable(p, Some(f)) && OnePin(p, Some(f))
    ensures Evictable(Written(p, f, data), Some(f)) && OnePin(Written(p, f, data), Some(f))
  {
    hide Blank, Stamped, ByAge;
    var q := Written(p, f, data);
  }

  lemma {:induction false} WriteStore(p: Pool, f: nat, data: seq<byte>, crc: seq<byte> -> Crc)
    requires f < |p.frames| && p.frames[f].page.Some? && |data| == PAGE_SIZE
    requires Mapped(p) && Whole(p, crc)
    ensures Store(Written(p, f, data)) == Store(p)[p.frames[f].page.value.id := Blank(data)]
  {
    hide Blank, Stamped, ChecksumRight;
    var q := Written(p, f, data);
    var id := p.frames[f].page.value.id;
    forall i | 0 <= i < p.numPages && i != id ensures Newest(p, i) == Newest(q, i) {}
    assert Newest(q, id) == Blank(data);
    StoreUpdates(p, q, id, Blank(data));
  }

  /** Writing the pinned page updates the store at that page only. */
  lemma {:induction false} WriteInv(p: Pool, f: nat, data: seq<byte>, crc: seq<byte> -> Crc)
    requires f < |p.frames| && p.frames[f].page.Some? && |data| == PAGE_SIZE
    requires PoolInv(p, crc, Some(f))
    ensures PoolInv(Written(p, f, data), crc, Some(f))
    ensures Store(Written(p, f, data)) == Store(p)[p.frames[f].page.value.id := Blank(data)]
  {
    hide Mapped, Whole, Coherent, OnePin, Evictable, Store, CleanFrame, Blank, Stamped;
    WriteMapped(p, f, data, crc);
    WriteCoherent(p, f, data, crc);
    WriteAges(p, f, data, crc);
    WriteStore(p, f, data, crc);
  }

  /** The pin given back. */
  ghost function Unpinned(p: Pool, f: nat, dirty: bool): Pool
    requires f < |p.frames|
  {
    p.(frames := p.frames[f := p.frames[f].(pinCount := 0, isDirty := p.frames[f].isDirty || dirty)],
       order := if f in p.order then p.order else p.order + [f], touched := None)
  }

  lemma {:induction false} AgeAppend(order: seq<nat>, lastUse: map<nat, nat>, f: nat)
    requires ByAge(order, lastUse) && f in lastUse && forall g :: g in order ==> g in lastUse && lastUse[g] < lastUse[f]
    ensures ByAge(order + [f], lastUse)
  {
    assert forall i :: 0 <= i < |order| ==> order[i] in order;
  }

  lemma {:induction false} UnpinMapped(p: Pool, f: nat, dirty: bool, crc: seq<byte> -> Crc)
    requires f < |p.frames| && (p.touched.Some? ==> dirty)
    requires Mapped(p) && Whole(p, crc)
    ensures Mapped(Unpinned(p, f, dirty)) && Whole(Unpinned(p, f, dirty), crc)
  {
    hide Blank, Stamped, ChecksumRight;
    var q := Unpinned(p, f, dirty);
  }

  lemma {:induction false} UnpinCoherent(p: Pool, f: nat, dirty: bool, crc: seq<byte> -> Crc)
    requires f < |p.frames| && (p.touched.Some? ==> dirty)
    requires Mapped(p) && Whole(p, crc) && Coherent(p) && OnePin(p, Some(f))
    ensures Coherent(Unpinned(p, f, dirty))
  {
    hide Blank, Stamped, ChecksumRight;
    var q := Unpinned(p, f, dirty);
    CoherentKept(p, q, f);
  }

  lemma {:induction false} UnpinAges(p: Pool, f: nat, dirty: bool, crc: seq<byte> -> Crc)
    requires f < |p.frames| && (p.touched.Some? ==> dirty)
    requires Evictable(p, Some(f)) && OnePin(p, Some(f))
    ensures Evictable(Unpinned(p, f, dirty), None) && OnePin(Unpinned(p, f, dirty), None)
  {
    hide Blank, Stamped, ByAge;
    var q := Unpinned(p, f, dirty);
    if f !in p.order { AgeAppend(p.order, p.lastUse, f); }
  }

  lemma {:induction false} UnpinStore(p: Pool, f: nat, dirty: bool, crc: seq<byte> -> Crc)
    requires f < |p.frames| && (p.touched.Some? ==> dirty)
    requires Mapped(p) && Whole(p, crc)
    ensures Store(Unpinned(p, f, dirty)) == Store(p)
  {
    hide Blank, Stamped, ChecksumRight;
    var q := Unpinned(p, f, dirty);
    forall id | 0 <= id < p.numPages ensures Newest(p, id) == Newest(q, id) {}
    SameStore(p, q);
  }

  /** Giving the pin back changes no page, provided a written page is reported dirty. */
  lemma {:induction false} UnpinInv(p: Pool, f: nat, dirty: bool, crc: seq<byte> -> Crc)
    requires f < |p.frames| && (p.touched.Some? ==> dirty)
    requires PoolInv(p, crc, Some(f))
    ensures PoolInv(Unpinned(p, f, dirty), crc, None)
    ensures Store(Unpinned(p, f, dirty)) == Store(p)
  {
    hide Mapped, Whole, Coherent, OnePin, Evictable, Store, CleanFrame, Blank, Stamped;
    UnpinMapped(p, f, dirty, crc);
    UnpinCoherent(p, f, dirty, crc);
    UnpinAges(p, f, dirty, crc);
    UnpinStore(p, f, dirty, crc);
  }

  // --- The pool ---

  lemma {:induction false} FrontDropped(order: seq<nat>, lastUse: map<nat, nat>)
    requires order != [] && ByAge(order, lastUse)
    ensures Without(order, order[0]) == order[1..]
  {
    WithoutAbsent(order[1..], order[0]);
  }

  lemma {:induction false} WithoutAbsent(s: seq<nat>, x: nat)
    requires x !in s
    ensures Without(s, x) == s
  {
    if s != [] { WithoutAbsent(s[1..], x); }
  }

  /** Each frame is listed once. */
  lemma {:induction false} OrderDistinct(p: Pool, pinned: Option<nat>)
    requires Evictable(p, pinned)
    ensures Distinct(p.order)
  {
    assert forall i :: 0 <= i < |p.order| ==> p.order[i] in p.lastUse;
  }

  /** The front of the order is the frame unused for longest. */
  lemma {:induction false} FrontIsOldest(p: Pool)
    requires p.order != []
    requires Evictable(p, None)
    ensures p.order[0] < |p.frames| && p.frames[p.order[0]].page.Some?
    ensures forall g :: 0 <= g < |p.frames| && p.frames[g].page.Some? ==>
      g in p.lastUse && p.order[0] in p.lastUse && p.lastUse[p.order[0]] <= p.lastUse[g]
  {
    assert p.order[0] in p.order;
    forall g | 0 <= g < |p.frames| && p.frames[g].page.Some?
      ensures g in p.lastUse && p.order[0] in p.lastUse && p.lastUse[p.order[0]] <= p.lastUse[g]
    {
      assert g in p.order;
      var k :| 0 <= k < |p.order| && p.order[k] == g;
    }
  }

  /** With nothing pinned, a pool of resident frames has a victim. */
  lemma {:induction false} SomeVictim(p: Pool)
    requires 0 < |p.frames| && p.frames[0].page.Some?
    requires Evictable(p, None)
    ensures p.order != []
  {
    assert 0 in p.order;
  }

  lemma {:induction false} FrameFacts(p: Pool, f: nat, crc: seq<byte> -> Crc, pinned: Option<nat>)
    requires f < |p.frames| && p.frames[f].page.Some?
    requires PoolInv(p, crc, pinned)
    ensures |p.frames[f].page.value.data| == PAGE_SIZE
    ensures p.frames[f].page.value.id in p.table && p.table[p.frames[f].page.value.id] == f
    ensures p.frames[f].page.value.id < p.numPages
    ensures !p.frames[f].isDirty && p.touched != Some(f) ==> CleanFrame(p, f)
    ensures p.frames[f].page.value.id in Store(p) &&
            Store(p)[p.frames[f].page.value.id] == Blank(p.frames[f].page.value.data)
  {
    hide Blank, ChecksumRight, Evictable, OnePin, CleanFrame;
    assert Newest(p, p.frames[f].page.value.id) == Blank(p.frames[f].page.value.data);
  }

  lemma {:induction false} PageFacts(p: Pool, id: nat, crc: seq<byte> -> Crc, pinned: Option<nat>)
    requires PoolInv(p, crc, pinned)
    ensures id in p.table ==> p.table[id] < |p.frames| && InFrame(p, p.table[id], id)
    ensures id in p.disk ==> |p.disk[id]| == PAGE_SIZE && id < p.numPages
    ensures id < p.numPages ==> id in p.table || id in p.disk
    ensures id in p.table ==> id < p.numPages
    ensures pinned.None? ==> p.touched.None?
  {
    hide Blank, ChecksumRight, Evictable, CleanFrame, Coherent;
  }

  /** With every frame clean, the disk alone is the store. */
  ghost predicate Durable(p: Pool) {
    forall id :: 0 <= id < p.numPages ==> OnDisk(p, id)
  }

  ghost predicate OnDisk(p: Pool, id: nat) {
    id in p.disk && id in Store(p) && BlankOf(p.disk[id]) == Store(p)[id]
  }

  lemma {:induction false} CleanIsDurable(p: Pool, crc: seq<byte> -> Crc, pinned: Option<nat>)
    requires p.touched.None? && forall id :: id in p.table && p.table[id] < |p.frames| ==>
      !p.frames[p.table[id]].isDirty
    requires PoolInv(p, crc, pinned)
    ensures Durable(p)
  {
    hide Blank, ChecksumRight, Evictable, OnePin;
    forall id | 0 <= id < p.numPages ensures OnDisk(p, id) {
      if id in p.table {
        assert CleanFrame(p, p.table[id]);
      }
    }
  }

  class BufferPool {
    var frames: seq<Frame>
    var pageTable: map<nat, nat>
    const replacer: LruReplacer
    var disk: Disk
    var numPages: nat
    var hits: nat
    var misses: nat
    const poolSize: nat
    const crc: seq<byte> -> Crc
    // The pinned frame written since its pin, and when each frame was last pinned.
    ghost var touched: Option<nat>
    ghost var lastUse: map<nat, nat>
    ghost var clock: nat

    ghost function Abs(): Pool
      reads this, replacer
    {
      Pool(frames, pageTable, disk, numPages, replacer.order, touched, lastUse, clock)
    }

    /** At most frame `pinned` is pinned. */
    ghost predicate Valid(pinned: Option<nat>)
      reads this, replacer
    {
      |frames| == poolSize && PoolInv(Abs(), crc, pinned)
    }

    /** Opens a database file; pages that fail their checksum are found out when they are fetched. */
    constructor (poolSize: nat, file: seq<seq<byte>>, crc: seq<byte> -> Crc)
      requires forall i :: 0 <= i < |file| ==> |file[i]| == PAGE_SIZE
      ensures Valid(None) && fresh(replacer) && this.poolSize == poolSize && this.crc == crc
      ensures numPages == |file| && hits == misses == 0
      ensures forall id :: 0 <= id < |file| ==> id in Store(Abs()) && Store(Abs())[id] == Blank(file[id])
      ensures forall id :: 0 <= id < |file| ==> (Readable(Abs(), crc, id) <==> ChecksumRight(file[id], crc))
      ensures forall id: nat :: Readable(Abs(), crc, id) ==> id < |file|
    {
      hide Blank, ChecksumRight;
      frames := seq(poolSize, _ => EMPTY_FRAME);
      pageTable := map[];
      replacer := new LruReplacer();
      disk := map id | 0 <= id < |file| :: file[id];
      numPages := |file|;
      hits, misses := 0, 0;
      this.poolSize := poolSize;
      this.crc := crc;
      touched, lastUse, clock := None, map[], 0;
      new;
      assert forall id :: 0 <= id < |file| ==> Newest(Abs(), id) == Blank(file[id]);
    }

    /** `DiskManager::write_page` of the page in a frame: stamps the checksum, in the frame as on disk. */
    method WriteBack(f: nat)
      requires f < |frames| && frames[f].page.Some? && |frames[f].page.value.data| == PAGE_SIZE
      modifies this`frames, this`disk
      ensures Abs() == Flushed(old(Abs()), f, crc)
    {
      hide Blank, Stamped, PoolInv, ChecksumRight;
      var c := frames[f].page.value;
      var d := Stamped(c.data, crc);
      frames := frames[f := frames[f].(page := Some(Cached(c.id, d)), isDirty := false)];
      disk := disk[c.id := d];
    }

    /** An empty frame if there is one, else the frame unused for longest, its page written out first if dirty. */
    method FindFreeFrame() returns (r: Result<nat>)
      requires Valid(None)
      modifies this`frames, this`disk, this`pageTable, replacer
      ensures Valid(None) && Store(Abs()) == old(Store(Abs()))
      ensures forall id :: id in pageTable ==> id in old(pageTable)
      ensures forall id :: id !in old(pageTable) ==>
        (id in disk <==> id in old(disk)) && (id in disk ==> disk[id] == old(disk)[id])
      ensures SameReadable(old(Abs()), Abs(), crc)
      ensures r.Err? <==> poolSize == 0
      ensures r.Ok? ==> r.value < |frames| && frames[r.value].page.None?
      ensures r.Ok? && old(frames)[r.value].page.None? ==> Abs() == old(Abs())
      ensures r.Ok? && old(frames)[r.value].page.Some? ==>
        && (forall g :: 0 <= g < |frames| ==>
            old(frames)[g].page.Some? && g in lastUse && lastUse[r.value] <= lastUse[g])
        && (forall g :: 0 <= g < |frames| && g != r.value ==> frames[g] == old(frames)[g])
      ensures r.Err? ==> Abs() == old(Abs())
    {
      hide Blank, Stamped, Mapped, Whole, Coherent, OnePin, Evictable, Store, CleanFrame, Without;
      for i := 0 to poolSize
        invariant Abs() == old(Abs()) && Valid(None)
        invariant forall g :: 0 <= g < i ==> frames[g].page.Some?
      {
        if frames[i].page.None? {
          return Ok(i);
        }
      }
      if poolSize > 0 {
        SomeVictim(Abs());
        FrontIsOldest(Abs());
        FrontAged(Abs());
      } else {
        NoFrames(Abs());
      }
      ghost var p0 := Abs();
      var victim := replacer.Evict();
      if victim.None? {
        return Err("Buffer pool full: all pages are pinned");
      }
      var v := victim.value;
      FrameFacts(p0, v, crc, None);
      PageFacts(p0, 0, crc, None);
      ghost var p1 := p0;
      if frames[v].isDirty {
        WriteBack(v);
        FlushInv(p0, v, crc, None);
        FlushCleans(p0, v, crc);
        FlushReads(p0, v, crc);
        p1 := Flushed(p0, v, crc);
      }
      DropInv(p1, v, crc);
      VictimReads(p1, v, crc);
      var c := frames[v].page.value;
      pageTable := pageTable - {c.id};
      frames := frames[v := Frame(None, 0, false)];
      assert Abs() == Dropped(p1, v);
      r := Ok(v);
    }

    /** Puts a page into a free frame with one pin. */
    method Place(f: nat, c: Cached, dirty: bool)
      requires f < |frames|
      modifies this`frames, this`pageTable, this`lastUse, this`clock, replacer
      ensures Abs() == Loaded(old(Abs()), f, c, dirty)
    {
      hide PoolInv;
      frames := frames[f := Frame(Some(c), 1, dirty)];
      pageTable := pageTable[c.id := f];
      replacer.Pin(f);
      lastUse, clock := lastUse[f := clock], clock + 1;
    }

    /** Allocates a page, pinned and dirty. */
    method NewPage() returns (r: Result<(nat, nat)>)
      requires Valid(None)
      modifies this, replacer
      ensures poolSize == 0 ==> r.Err?
      ensures r.Err? ==> poolSize == 0 && Valid(None) && Abs() == old(Abs())
      ensures r.Ok? ==>
        && r.value.0 == old(numPages) && numPages == old(numPages) + 1
        && Valid(Some(r.value.1)) && r.value.1 !in replacer.order
        && frames[r.value.1] == Frame(Some(Cached(r.value.0, NewBytes(r.value.0))), 1, true)
        && Store(Abs()) == old(Store(Abs()))[r.value.0 := Blank(NewBytes(r.value.0))]
      ensures hits == old(hits) && misses == old(misses)
      ensures r.Ok? ==> forall id :: Readable(Abs(), crc, id) <==> id == r.value.0 || old(Readable(Abs(), crc, id))
    {
      hide PoolInv, Blank, Stamped, ChecksumRight, Store, CleanFrame, NewBytes;
      var free := FindFreeFrame();
      if free.Err? {
        return Err(free.error);
      }
      var f := free.value;
      ghost var p := Abs();
      var id := numPages;
      numPages := numPages + 1;
      Place(f, Cached(id, NewBytes(id)), true);
      CreateInv(p, f, NewBytes(id), crc);
      r := Ok((id, f));
    }

    /** Frame `f` is pinned and holds the newest content of page `id`. */
    ghost predicate Fetched(id: nat, f: nat)
      reads this, replacer
    {
      && Valid(Some(f)) && f < |frames| && touched.None?
      && frames[f].page.Some? && frames[f].page.value.id == id && id < numPages
      && |frames[f].page.value.data| == PAGE_SIZE
      && id in Store(Abs()) && Blank(frames[f].page.value.data) == Store(Abs())[id]
    }

    /** Pins a page, from its frame or from disk; what it returns is the newest content of that page. */
    method FetchPage(id: nat) returns (r: Result<nat>)
      requires Valid(None)
      modifies this, replacer
      ensures Store(Abs()) == old(Store(Abs())) && numPages == old(numPages)
      ensures r.Ok? <==> id in old(pageTable) || (poolSize > 0 && old(Readable(Abs(), crc, id)))
      ensures r.Err? ==> Valid(None)
      ensures SameReadable(old(Abs()), Abs(), crc)
      ensures r.Ok? ==> Fetched(id, r.value)
      // A hit leaves the pinned frame among the eviction candidates; a miss does not.
      ensures r.Ok? ==> (r.value in replacer.order <==> id in old(pageTable))
      ensures hits == old(hits) + (if id in old(pageTable) then 1 else 0)
      ensures misses == old(misses) + (if id in old(pageTable) then 0 else 1)
    {
      hide PoolInv, Blank, ChecksumRight, Store;
      ghost var p0 := Abs();
      PageFacts(p0, id, crc, None);
      if id in pageTable {
        r := FetchHit(id);
      } else {
        r := FetchMiss(id);
      }
    }

    method FetchHit(id: nat) returns (r: Result<nat>)
      requires id in pageTable
      requires Valid(None)
      modifies this, replacer
      ensures Store(Abs()) == old(Store(Abs())) && numPages == old(numPages)
      ensures r.Ok? && Fetched(id, r.value) && r.value in replacer.order && SameReadable(old(Abs()), Abs(), crc)
      ensures hits == old(hits) + 1 && misses == old(misses)
    {
      hide PoolInv, Blank, Stamped, ChecksumRight, Store, CleanFrame, Without;
      ghost var p0 := Abs();
      PageFacts(p0, id, crc, None);
      var f := pageTable[id];
      frames := frames[f := frames[f].(pinCount := frames[f].pinCount + 1)];
      replacer.Pin(f);
      replacer.RecordAccess(f);
      hits := hits + 1;
      WithoutAbsent(Without(p0.order, f), f);
      lastUse, clock := lastUse[f := clock], clock + 1;
      assert Abs() == Hit(p0, f);
      HitInv(p0, f, crc);
      FrameFacts(Abs(), f, crc, Some(f));
      r := Ok(f);
    }

    method FetchMiss(id: nat) returns (r: Result<nat>)
      requires id !in pageTable
      requires Valid(None)
      modifies this, replacer
      ensures Store(Abs()) == old(Store(Abs())) && numPages == old(numPages)
      ensures r.Ok? <==> poolSize > 0 && old(Readable(Abs(), crc, id))
      ensures r.Err? ==> Valid(None)
      ensures SameReadable(old(Abs()), Abs(), crc)
      ensures r.Ok? ==> Fetched(id, r.value) && r.value !in replacer.order
      ensures hits == old(hits) && misses == old(misses) + 1
    {
      hide PoolInv, Blank, Stamped, ChecksumRight, Store, CleanFrame;
      ghost var p0 := Abs();
      misses := misses + 1;
      var free := FindFreeFrame();
      if free.Err? {
        return Err(free.error);
      }
      var f := free.value;
      ghost var p := Abs();
      StaysOut(p0, p, id, crc);
      PageFacts(p, id, crc, None);
      var page := ReadPage(id);
      if page.Err? {
        return Err(page.error);
      }
      Place(f, page.value, false);
      LoadInv(p, f, id, crc);
      FrameFacts(Abs(), f, crc, Some(f));
      r := Ok(f);
    }

    /** `DiskManager::read_page`: short files and bad checksums are errors. */
    method ReadPage(id: nat) returns (r: Result<Cached>)
      ensures r.Ok? <==> id in disk && |disk[id]| == PAGE_SIZE && ChecksumRight(disk[id], crc)
      ensures r.Ok? ==> r.value == Cached(id, disk[id])
    {
      hide ChecksumRight, Verifies, Stamped;
      if id !in disk || |disk[id]| != PAGE_SIZE {
        return Err("failed to fill whole buffer");
      }
      VerifiesMeans(disk[id], crc);
      if !Verifies(disk[id], crc) {
        return Err("Checksum mismatch");
      }
      r := Ok(Cached(id, disk[id]));
    }

    /** Overwriting the pinned page through `get_page_mut`. */
    method WritePage(f: nat, data: seq<byte>)
      requires |data| == PAGE_SIZE
      requires Valid(Some(f))
      modifies this`frames, this`touched
      ensures Valid(Some(f)) && touched == Some(f) && SameReadable(old(Abs()), Abs(), crc)
      ensures f < |old(frames)| && old(frames)[f].page.Some?
      ensures Store(Abs()) == old(Store(Abs()))[old(frames)[f].page.value.id := Blank(data)]
      ensures frames == old(frames)[f := old(frames)[f].(page := Some(Cached(old(frames)[f].page.value.id, data)))]
    {
      hide Blank, Stamped, Mapped, Whole, Coherent, Evictable, Store, CleanFrame;
      ghost var p := Abs();
      WriteInv(p, f, data, crc);
      frames := frames[f := frames[f].(page := Some(Cached(frames[f].page.value.id, data)))];
      touched := Some(f);
      assert Abs() == Written(p, f, data);
    }

    /** Gives the pin back; a written page must be reported dirty. A frame that is not pinned is left alone. */
    method Unpin(f: nat, isDirty: bool, ghost pinned: Option<nat>)
      requires f < |frames| && (pinned == Some(f) && touched.Some? ==> isDirty)
      requires Valid(pinned)
      modifies this`frames, this`touched, replacer
      ensures Store(Abs()) == old(Store(Abs())) && SameReadable(old(Abs()), Abs(), crc)
      ensures pinned != Some(f) ==> Valid(pinned) && Abs() == old(Abs())
      ensures pinned == Some(f) ==> Valid(None) && f in replacer.order
      ensures pinned == Some(f) ==>
        frames == old(frames)[f := old(frames)[f].(pinCount := 0, isDirty := old(frames)[f].isDirty || isDirty)]
    {
      hide Blank, Stamped, Mapped, Whole, Coherent, Evictable, Store, CleanFrame;
      ghost var p := Abs();
      if frames[f].pinCount == 0 {
        return;
      }
      UnpinInv(p, f, isDirty, crc);
      frames := frames[f := frames[f].(pinCount := frames[f].pinCount - 1)];
      if isDirty {
        frames := frames[f := frames[f].(isDirty := true)];
      }
      if frames[f].pinCount == 0 {
        replacer.Unpin(f);
      }
      touched := None;
      assert Abs() == Unpinned(p, f, isDirty);
    }

    /** A dirty page goes to disk; the store, the pins and the order do not change. */
    method FlushPage(id: nat, ghost pinned: Option<nat>)
      requires Valid(pinned)
      modifies this`frames, this`disk
      ensures Valid(pinned) && Store(Abs()) == old(Store(Abs())) && SameReadable(old(Abs()), Abs(), crc)
      ensures id in pageTable ==> pageTable[id] < |frames| && !frames[pageTable[id]].isDirty
      ensures |frames| == |old(frames)|
      ensures forall g :: 0 <= g < |frames| && !old(frames)[g].isDirty ==> frames[g] == old(frames)[g]
    {
      hide Blank, Stamped, Mapped, Whole, Coherent, OnePin, Evictable, Store, CleanFrame, ChecksumRight;
      ghost var p := Abs();
      PageFacts(p, id, crc, pinned);
      if id in pageTable && frames[pageTable[id]].isDirty {
        var f := pageTable[id];
        FrameFacts(p, f, crc, pinned);
        WriteBack(f);
        FlushInv(p, f, crc, pinned);
        FlushReads(p, f, crc);
      }
    }

    /** Afterwards the disk alone holds the store. */
    method FlushAll(ghost pinned: Option<nat>)
      requires Valid(pinned)
      modifies this`frames, this`disk
      ensures Valid(pinned) && Store(Abs()) == old(Store(Abs())) && SameReadable(old(Abs()), Abs(), crc)
      ensures touched.None? ==> Durable(Abs())
    {
      hide Blank, Stamped, Mapped, Whole, Coherent, OnePin, Evictable, Store, CleanFrame, ChecksumRight, Durable;
      var ids := pageTable.Keys;
      while ids != {}
        invariant Valid(pinned) && Store(Abs()) == old(Store(Abs())) && SameReadable(old(Abs()), Abs(), crc)
        invariant forall id :: id in pageTable && id !in ids ==>
          pageTable[id] < |frames| && !frames[pageTable[id]].isDirty
        decreases ids
      {
        var id :| id in ids;
        FlushPage(id, pinned);
        ids := ids - {id};
      }
      if touched.None? {
        CleanIsDurable(Abs(), crc, pinned);
      }
    }
  }

  lemma {:induction false} FrontAged(p: Pool)
    requires p.order != []
    requires Evictable(p, None)
    ensures Without(p.order, p.order[0]) == p.order[1..]
  {
    hide ByAge;
    FrontDropped(p.order, p.lastUse);
  }

  lemma {:induction false} VictimReads(p: Pool, f: nat, crc: seq<byte> -> Crc)
    requires f < |p.frames| && p.frames[f].page.Some? && CleanFrame(p, f)
    requires PoolInv(p, crc, None)
    ensures SameReadable(p, Dropped(p, f), crc)
  {
    hide Mapped, Whole, Coherent, OnePin, Evictable, CleanFrame, SameReadable;
    DropReads(p, f, crc);
  }

  lemma {:induction false} NoFrames(p: Pool)
    requires |p.frames| == 0
    requires Evictable(p, None)
    ensures p.order == []
  {
    Head(p.order);
  }

  lemma {:induction false} Head(s: seq<nat>)
    ensures s == [] || exists x :: x in s
  {
    assert s == [] || s[0] in s;
  }

  /** A hit leaves its frame evictable, but a second fetch takes it only when it is the one frame there is. */
  lemma {:induction false} PinnedVictim(p: Pool, f: nat)
    requires f < |p.frames| && forall g :: 0 <= g < |p.frames| ==> p.frames[g].page.Some?
    requires Evictable(p, None)
    ensures Hit(p, f).order[0] == f <==> |p.frames| == 1
  {
    hide ByAge;
    var w := Without(p.order, f);
    if |p.frames| > 1 {
      var g := if f == 0 then 1 else 0;
      assert g in p.order && g in w;
      assert w[0] in w;
    } else {
      Head(w);
    }
  }

  /** A page absent from the pool, in a pool with the same store, is on disk when allocated. */
  lemma {:induction false} StaysOut(p: Pool, q: Pool, id: nat, crc: seq<byte> -> Crc)
    requires p.numPages == q.numPages && id !in p.table && (forall i :: i in q.table ==> i in p.table)
    requires PoolInv(q, crc, None)
    ensures id !in q.table && (id < q.numPages ==> id in q.disk)
  {
    hide Blank, ChecksumRight, Evictable, CleanFrame, Coherent;
  }
}
