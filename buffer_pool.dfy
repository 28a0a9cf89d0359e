/**
 * The buffer pool the B+ tree and the index iterator go through
 * (BufferPoolManager: FetchPage, NewPage, UnpinPage).  Its source
 * (src/buffer/buffer_pool_manager.cpp) is not part of this model; the
 * class below keeps only what the callers can observe: the content of
 * every page, the pin count of each pinned page, the pages unpinned
 * dirty, the next page id to hand out, and a fixed number of frames, so
 * that a fetch or an allocation fails once every frame holds a pinned page.
 */
module BufferPool {
  import opened Options
  import opened TreePages

  /** The pin count of `id`; pages absent from the map are unpinned. */
  function PinCount(pins: map<PageId, nat>, id: PageId): nat
  {
    if id in pins then pins[id] else 0
  }

  /** The pin counts after one more pin of `id`. */
  function Pinned(pins: map<PageId, nat>, id: PageId): (r: map<PageId, nat>)
    ensures id in r && PinCount(r, id) == PinCount(pins, id) + 1
    ensures forall q :: q != id ==> PinCount(r, q) == PinCount(pins, q)
  {
    pins[id := PinCount(pins, id) + 1]
  }

  /** The pin counts after one unpin of a pinned page: a page whose count
      drops to zero leaves the map. */
  function Unpinned(pins: map<PageId, nat>, id: PageId): (r: map<PageId, nat>)
    requires id in pins
    ensures PinCount(r, id) == PinCount(pins, id) - 1 || (PinCount(pins, id) == 0 && PinCount(r, id) == 0)
    ensures forall q :: q != id ==> PinCount(r, q) == PinCount(pins, q)
  {
    if pins[id] <= 1 then pins - {id} else pins[id := pins[id] - 1]
  }

  /** Every page in the map is pinned at least once. */
  predicate AllPositive(pins: map<PageId, nat>)
  {
    forall q :: q in pins ==> pins[q] > 0
  }

  /** An unpin undoes a pin. */
  lemma UnpinAfterPin(pins: map<PageId, nat>, id: PageId)
    requires AllPositive(pins)
    ensures Unpinned(Pinned(pins, id), id) == pins
  {
  }

  /** Pinning a child and then unpinning its parent moves the one extra pin
      from the parent to the child (the descent step of FindLeafPage). */
  lemma PinHandOver(pins: map<PageId, nat>, from: PageId, to: PageId)
    requires AllPositive(pins) && from != to
    ensures from in Pinned(Pinned(pins, from), to)
    ensures Unpinned(Pinned(Pinned(pins, from), to), from) == Pinned(pins, to)
  {
  }

  class BufferPoolManager {
    const poolSize: nat
    var pages: map<PageId, Page>
    var pins: map<PageId, nat>
    var dirty: set<PageId>
    var nextPageId: PageId

    /** Pinned pages exist, hold at least one pin and fit in the frames;
        every page id is below the next one to be allocated. */
    ghost predicate Valid()
      reads this
    {
      && pins.Keys <= pages.Keys
      && AllPositive(pins)
      && |pins| <= poolSize
      && nextPageId >= 0
      && (forall q :: q in pages ==> 0 <= q < nextPageId)
    }

    constructor (poolSize: nat, pages: map<PageId, Page>, nextPageId: PageId)
      requires nextPageId >= 0 && forall q :: q in pages ==> 0 <= q < nextPageId
      ensures Valid()
      ensures this.poolSize == poolSize && this.pages == pages && this.nextPageId == nextPageId
      ensures pins == map[] && dirty == {}
    {
      this.poolSize := poolSize;
      this.pages := pages;
      this.nextPageId := nextPageId;
      pins := map[];
      dirty := {};
    }

    /** Whether a fetch of `id` can be served: the page is already pinned,
        or it exists and a frame is free. */
    predicate CanFetch(id: PageId)
      reads this
    {
      id in pins || (id in pages && |pins| < poolSize)
    }

    /** FetchPage: pins the page and answers its content, or answers None
        (the source's nullptr) when it cannot be served. */
    method FetchPage(id: PageId) returns (r: Option<Page>)
      requires Valid()
      modifies this
      ensures Valid()
      ensures pages == old(pages) && dirty == old(dirty) && nextPageId == old(nextPageId)
      ensures old(CanFetch(id)) ==> r == Some(pages[id]) && pins == Pinned(old(pins), id)
      ensures !old(CanFetch(id)) ==> r == None && pins == old(pins)
    {
      if id in pins || (id in pages && |pins| < poolSize) {
        pins := Pinned(pins, id);
        r := Some(pages[id]);
      } else {
        r := None;
      }
    }

    /** NewPage: allocates the next page id in a free frame, pinned once and
        holding no layout yet, or answers None when every frame is pinned. */
    method NewPage() returns (r: Option<PageId>)
      requires Valid()
      modifies this
      ensures Valid() && dirty == old(dirty)
      ensures old(|pins|) < poolSize ==>
        && r == Some(old(nextPageId)) && old(nextPageId) !in old(pages)
        && pages == old(pages)[old(nextPageId) := RawPage]
        && pins == old(pins)[old(nextPageId) := 1]
        && nextPageId == old(nextPageId) + 1
      ensures old(|pins|) >= poolSize ==> r == None && pages == old(pages) && pins == old(pins) && nextPageId == old(nextPageId)
    {
      if |pins| < poolSize {
        var id := nextPageId;
        assert id !in pages && id !in pins;
        pages := pages[id := RawPage];
        pins := pins[id := 1];
        nextPageId := nextPageId + 1;
        r := Some(id);
      } else {
        r := None;
      }
    }

    /** UnpinPage: drops one pin and records the dirty flag; false for a
        page that is not pinned. */
    method UnpinPage(id: PageId, isDirty: bool) returns (ok: bool)
      requires Valid()
      modifies this
      ensures Valid()
      ensures pages == old(pages) && nextPageId == old(nextPageId)
      ensures ok == (id in old(pins))
      ensures ok ==> pins == Unpinned(old(pins), id) && dirty == (if isDirty then old(dirty) + {id} else old(dirty))
      ensures !ok ==> pins == old(pins) && dirty == old(dirty)
    {
      if id in pins {
        pins := Unpinned(pins, id);
        if isDirty {
          dirty := dirty + {id};
        }
        ok := true;
      } else {
        ok := false;
      }
    }

    /** A write through the page pointer the caller holds: the frame's bytes
        now hold `p`.  Whether the page becomes dirty is up to the caller's
        unpin, as in the source. */
    method WritePage(id: PageId, p: Page)
      requires Valid() && id in pages
      modifies this
      ensures Valid()
      ensures pages == old(pages)[id := p]
      ensures pins == old(pins) && dirty == old(dirty) && nextPageId == old(nextPageId)
    {
      pages := pages[id := p];
    }

    /** Writes made by a page class over several pages at once (the
        re-parenting of internal MoveHalfTo): the store becomes `ps`, which
        holds the same page ids. */
    method WritePages(ps: map<PageId, Page>)
      requires Valid() && ps.Keys == pages.Keys
      modifies this
      ensures Valid()
      ensures pages == ps
      ensures pins == old(pins) && dirty == old(dirty) && nextPageId == old(nextPageId)
    {
      pages := ps;
    }
  }
}
