/**
 * The range-scan iterator of the B+ tree (IndexIterator,
 * src/include/index/index_iterator.h): a position `index` in a leaf,
 * moving to the next leaf of the chain through the buffer pool once it
 * runs past the leaf's entries.
 *
 * The header does not compile as written: operator++ uses `index`,
 * `leafPage` and `bufferPoolManager` where the declared fields are
 * `index_`, `leaf_` and `buff_pool_manager_`.  The model reads those as
 * the declared fields.  `leaf_` points into a buffer-pool frame; here it
 * is the page id of the leaf, whose content is read from the pool.
 */
module IndexIterators {
  import opened Options
  import opened TreePages
  import opened BufferPool

  class IndexIterator {
    var leafId: PageId
    var index: int
    const bpm: BufferPoolManager

    /** IndexIterator(leaf, index, bpm) (index_iterator.h:18-19). */
    constructor (leafId: PageId, index: int, bpm: BufferPoolManager)
      ensures this.leafId == leafId && this.index == index && this.bpm == bpm
    {
      this.leafId := leafId;
      this.index := index;
      this.bpm := bpm;
    }

    /** The iterator sits on a well-formed leaf of the pool. */
    predicate OnLeaf()
      reads this, bpm
    {
      leafId in bpm.pages && WellFormedLeaf(bpm.pages[leafId])
    }

    /** isEnd (index_iterator.h:24): the current leaf has no successor,
        wherever the position is within it. */
    predicate IsEnd()
      requires OnLeaf()
      reads this, bpm
    {
      bpm.pages[leafId].nextPageId == INVALID_PAGE_ID
    }

    /** operator* (index_iterator.h:26-28): the entry at the current
        position.  Its key is the one found at `index` in the leaf, so
        exactly `index` keys of the leaf are below it, and its value is
        what the leaf's lookup of that key yields. */
    function Current(): (item: (Key, Rid))
      requires OnLeaf() && 0 <= index < Size(bpm.pages[leafId])
      reads this, bpm
      ensures IndexOf(bpm.pages[leafId].keys, item.0) == Some(index as nat)
      ensures forall i :: 0 <= i < |bpm.pages[leafId].keys| ==>
        (bpm.pages[leafId].keys[i] < item.0 <==> i < index)
      ensures LeafLookup(bpm.pages[leafId], item.0) == Some(item.1)
    {
      var leaf := bpm.pages[leafId];
      var k := leaf.keys[index];
      assert k in leaf.keys;
      (k, leaf.values[index])
    }

    /** operator++ (index_iterator.h:30-45).  The position advances by one.
        Past the last entry of a leaf that has a successor, the position
        goes back to 0, the page id the leaf records is unpinned (not
        dirty), and the successor is fetched and made current; when no frame
        is free for it, FetchPage answers null, the dereference ends the
        step in NullDereference and the iterator keeps its leaf.  Past the
        last entry of the last leaf, the iterator stays on that leaf, at the
        end, with the position past its size.  Page contents never change. */
    method Next() returns (r: Outcome<()>)
      requires bpm.Valid() && OnLeaf()
      modifies this, bpm
      ensures bpm.Valid() && bpm.pages == old(bpm.pages) && bpm.nextPageId == old(bpm.nextPageId)
      ensures old(index) + 1 < old(Size(bpm.pages[leafId])) || old(IsEnd()) ==>
        && r == Ok(()) && index == old(index) + 1 && leafId == old(leafId)
        && bpm.pins == old(bpm.pins) && bpm.dirty == old(bpm.dirty)
      ensures old(IsEnd()) ==> OnLeaf() && IsEnd()
      ensures old(index) + 1 >= old(Size(bpm.pages[leafId])) && !old(IsEnd()) ==>
        var next := old(bpm.pages[leafId].nextPageId);
        var self := old(bpm.pages[leafId].pageId);
        var pins1 := if self in old(bpm.pins) then Unpinned(old(bpm.pins), self) else old(bpm.pins);
        var fetchable := next in pins1 || (next in old(bpm.pages) && |pins1| < bpm.poolSize);
        && index == 0 && bpm.dirty == old(bpm.dirty)
        && (r.Ok? <==> fetchable)
        && (fetchable ==> leafId == next && bpm.pins == Pinned(pins1, next))
        && (!fetchable ==> r == NullDereference && leafId == old(leafId) && bpm.pins == pins1)
    {
      index := index + 1;
      var leaf := bpm.pages[leafId];
      if index >= Size(leaf) {
        var next := leaf.nextPageId;
        if next == INVALID_PAGE_ID {
          // "No more sibling in indexItr": the iterator stays where it is
        } else {
          index := 0;
          var _ := bpm.UnpinPage(leaf.pageId, false);
          var page := bpm.FetchPage(next);
          if page.None? {
            return NullDereference;
          }
          leafId := next;
        }
      }
      r := Ok(());
    }
  }
}
