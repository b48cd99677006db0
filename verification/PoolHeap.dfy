/** The buffer pool as a heap of tuple lists: which pages it can give out, and what tuples they hold. */
module PoolHeap {
  import opened Common
  import opened Bytes
  import opened Slots
  import opened Page
  import opened BufferPool

  ghost predicate PageHolds(d: seq<byte>, id: nat, s: Slots) {
    |d| == PAGE_SIZE && Layout(d, s) && HeaderOf(d).pageId == id
  }

  /** The pages of `heap` are those that can be fetched, and their bytes lay out its tuples. */
  ghost predicate PoolHolds(p: Pool, crc: seq<byte> -> Crc, heap: Pages) {
    && (forall id :: id in heap <==> Readable(p, crc, id))
    && (forall id :: id in heap ==> id in Store(p) && PageHolds(Store(p)[id], id, heap[id]))
  }

  /** Every page has room for its slots and tuples. */
  ghost predicate Roomy(ps: Pages) {
    forall p :: p in ps ==> SlotOffset(|ps[p]|) + Used(ps[p]) <= PAGE_SIZE
  }

  lemma {:induction false} BlankTwice(d: seq<byte>)
    requires |d| == PAGE_SIZE
    ensures Blank(Blank(d)) == Blank(d)
  {
  }

  /** The checksum field is no part of what a page holds. */
  lemma {:induction false} HoldsBlank(d: seq<byte>, id: nat, s: Slots)
    requires |d| == PAGE_SIZE
    ensures PageHolds(Blank(d), id, s) <==> PageHolds(d, id, s)
  {
    BlankTwice(d);
    hide Layout, Blank, HeaderOf;
    if Layout(d, s) { LayoutBlank(d, Blank(d), s); }
    if Layout(Blank(d), s) { LayoutBlank(Blank(d), d, s); }
  }

  lemma {:induction false} HoldsKept(p: Pool, q: Pool, crc: seq<byte> -> Crc, heap: Pages)
    requires PoolHolds(p, crc, heap) && SameReadable(p, q, crc) && Store(q) == Store(p)
    ensures PoolHolds(q, crc, heap)
  {
    hide Readable, Store, PageHolds;
  }

  /** The pool of a freshly opened file holds what its readable pages hold. */
  lemma {:induction false} HoldsFile(p: Pool, crc: seq<byte> -> Crc, file: seq<seq<byte>>, heap: Pages)
    requires forall id :: 0 <= id < |file| ==>
      |file[id]| == PAGE_SIZE && id in Store(p) && Store(p)[id] == Blank(file[id])
    requires forall id: nat :: Readable(p, crc, id) ==> id < |file|
    requires forall id :: 0 <= id < |file| && |file[id]| == PAGE_SIZE ==>
      (Readable(p, crc, id) <==> ChecksumRight(file[id], crc))
    requires FileHolds(file, crc, heap)
    ensures PoolHolds(p, crc, heap)
  {
    hide Readable, Store, PageHolds, ChecksumRight, Blank;
    forall id | id in heap ensures id in Store(p) && PageHolds(Store(p)[id], id, heap[id]) {
      HoldsBlank(file[id], id, heap[id]);
    }
  }

  /** The pages of a file that pass their checksum, and the tuples they lay out. */
  ghost predicate FileHolds(file: seq<seq<byte>>, crc: seq<byte> -> Crc, heap: Pages) {
    && (forall id :: 0 <= id < |file| ==> |file[id]| == PAGE_SIZE)
    && (forall id: nat :: id in heap <==> id < |file| && |file[id]| == PAGE_SIZE && ChecksumRight(file[id], crc))
    && (forall id :: id in heap ==> PageHolds(file[id], id, heap[id]))
  }

  /** One page overwritten. */
  lemma {:induction false} HoldsWritten(p: Pool, q: Pool, crc: seq<byte> -> Crc, heap: Pages, id: nat, d: seq<byte>,
                                        s: Slots)
    requires PoolHolds(p, crc, heap) && SameReadable(p, q, crc) && id in heap
    requires |d| == PAGE_SIZE && PageHolds(d, id, s) && Store(q) == Store(p)[id := Blank(d)]
    ensures PoolHolds(q, crc, heap[id := s])
  {
    hide Readable, Store, PageHolds, Blank;
    HoldsBlank(d, id, s);
  }

  /** The pages of `pages` copied over those of `stored` that can be fetched; the others are dropped. */
  ghost function Copied(stored: Pages, pages: Pages): Pages {
    map p | p in stored :: if p in pages then pages[p] else stored[p]
  }

  ghost function CopiedBut(stored: Pages, pages: Pages, left: set<nat>): Pages {
    map p | p in stored :: if p in pages && p !in left then pages[p] else stored[p]
  }

  /** Step 4 of `recover`: each recovered page goes into the pool where its frame can be fetched, in whatever order. */
  method CopyPages(pages: Pages, pool: BufferPool, ghost stored: Pages)
    requires pool.Valid(None) && pool.poolSize > 0 && PoolHolds(pool.Abs(), pool.crc, stored)
    requires Roomy(pages) && forall p :: p in stored ==> p < 0x1_0000_0000
    modifies pool, pool.replacer
    ensures pool.Valid(None) && PoolHolds(pool.Abs(), pool.crc, Copied(stored, pages))
  {
    hide PoolInv, Store, Readable, Blank, PageHolds, SameReadable, PoolHolds;
    var left := pages.Keys;
    CopiedNone(stored, pages);
    while left != {}
      invariant left <= pages.Keys
      invariant pool.Valid(None) && PoolHolds(pool.Abs(), pool.crc, CopiedBut(stored, pages, left))
      decreases left
    {
      var id :| id in left;
      CopyPage(id, pages[id], pool, CopiedBut(stored, pages, left));
      CopiedOne(stored, pages, left, id);
      left := left - {id};
    }
    CopiedAll(stored, pages);
  }

  /** Steps 4 and 5: copied, then flushed, so that the file alone holds the result. */
  method CopyBack(pages: Pages, pool: BufferPool, ghost stored: Pages)
    requires pool.Valid(None) && pool.poolSize > 0 && PoolHolds(pool.Abs(), pool.crc, stored)
    requires Roomy(pages) && forall p :: p in stored ==> p < 0x1_0000_0000
    modifies pool, pool.replacer
    ensures pool.Valid(None) && PoolHolds(pool.Abs(), pool.crc, Copied(stored, pages)) && Durable(pool.Abs())
  {
    hide PoolInv, Store, Readable, Durable, PageHolds, PoolHolds, Roomy;
    CopyPages(pages, pool, stored);
    ghost var before := pool.Abs();
    PageFacts(before, 0, pool.crc, None);
    pool.FlushAll(None);
    HoldsKept(before, pool.Abs(), pool.crc, Copied(stored, pages));
  }

  lemma {:induction false} CopiedNone(stored: Pages, pages: Pages)
    ensures CopiedBut(stored, pages, pages.Keys) == stored
  {
  }

  lemma {:induction false} CopiedAll(stored: Pages, pages: Pages)
    ensures CopiedBut(stored, pages, {}) == Copied(stored, pages)
  {
  }

  lemma {:induction false} CopiedOne(stored: Pages, pages: Pages, left: set<nat>, id: nat)
    requires id in left && id in pages
    ensures CopiedBut(stored, pages, left - {id}) ==
            if id in stored then CopiedBut(stored, pages, left)[id := pages[id]] else CopiedBut(stored, pages, left)
    ensures id in CopiedBut(stored, pages, left) <==> id in stored
  {
  }

  /** One page: fetched, overwritten and given back, or dropped. */
  method CopyPage(id: nat, s: Slots, pool: BufferPool, ghost heap: Pages)
    requires pool.Valid(None) && pool.poolSize > 0 && PoolHolds(pool.Abs(), pool.crc, heap)
    requires SlotOffset(|s|) + Used(s) <= PAGE_SIZE && (id in heap ==> id < 0x1_0000_0000)
    modifies pool, pool.replacer
    ensures pool.Valid(None)
    ensures PoolHolds(pool.Abs(), pool.crc, if id in heap then heap[id := s] else heap)
  {
    hide PoolInv, Store, Blank, PageHolds;
    ghost var p0 := pool.Abs();
    var f := pool.FetchPage(id);
    ghost var p1 := pool.Abs();
    HoldsKept(p0, p1, pool.crc, heap);
    if f.Ok? {
      ImageHolds(id, s);
      pool.WritePage(f.value, ImageOf(id, s));
      HoldsWritten(p1, pool.Abs(), pool.crc, heap, id, ImageOf(id, s), s);
      ghost var p2 := pool.Abs();
      pool.Unpin(f.value, true, Some(f.value));
      HoldsKept(p2, pool.Abs(), pool.crc, heap[id := s]);
    }
  }

  lemma {:induction false} ImageHolds(id: nat, s: Slots)
    requires id < 0x1_0000_0000 && SlotOffset(|s|) + Used(s) <= PAGE_SIZE
    ensures |ImageOf(id, s)| == PAGE_SIZE && PageHolds(ImageOf(id, s), id, s)
  {
    hide Layout, ImageOf, HeaderOf;
    ImageLayout(id, s);
  }

  /** Fetches a page to read it; what comes back is the page as the pool has it. */
  method ReadPinned(id: nat, pool: BufferPool, ghost heap: Pages) returns (f: Result<nat>, page: Option<SlottedPage>)
    requires pool.Valid(None) && pool.poolSize > 0 && PoolHolds(pool.Abs(), pool.crc, heap)
    modifies pool, pool.replacer
    ensures PoolHolds(pool.Abs(), pool.crc, heap)
    ensures (f.Ok? <==> id in heap) && (page.Some? <==> id in heap)
    ensures f.Err? ==> pool.Valid(None)
    ensures f.Ok? ==> pool.Valid(Some(f.value)) && f.value < |pool.frames| && pool.touched.None?
    ensures page.Some? ==>
      fresh(page.value) && fresh(page.value.data) && page.value.Valid() && page.value.slots == heap[id]
  {
    hide PoolInv, Store, Blank, Layout, HeaderOf;
    ghost var p0 := pool.Abs();
    f := pool.FetchPage(id);
    HoldsKept(p0, pool.Abs(), pool.crc, heap);
    page := None;
    if f.Ok? {
      var bytes := pool.frames[f.value].page.value.data;
      HoldsBlank(bytes, id, heap[id]);
      var read := new SlottedPage.FromBytes(id, bytes, heap[id]);
      page := Some(read);
    }
  }
}
