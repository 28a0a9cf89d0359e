/**
 * The insertion path of the B+ tree index (src/index/b_plus_tree.cpp)
 * over the buffer pool.
 *
 * The source is a partly written skeleton, and the model follows it as
 * written:
 *   - IsEmpty always answers true, so Insert always takes the new-tree
 *     branch and FindLeafPage always answers null.  The descent loop of
 *     FindLeafPage and the body of InsertIntoLeaf after the leaf is found
 *     are modelled as the methods Descend and InsertIntoFoundLeaf, which
 *     start from a root page that exists and a leaf that is found.
 *   - Split returns nullptr, so every path that uses the sibling it
 *     returns dereferences null.  Such a path ends in the outcome
 *     NullDereference; the same outcome stands for the dereference of a
 *     null page that FetchPage hands back when no frame is free.  The
 *     `bad_alloc` thrown when NewPage fails is the outcome OutOfMemory.
 */
module BPlusTreeIndex {
  import opened Options
  import opened TreePages
  import opened BufferPool

  /** The header page that records every index's root page id. */
  predicate HeaderReady(pages: map<PageId, Page>)
  {
    HEADER_PAGE_ID in pages && pages[HEADER_PAGE_ID].HeaderPage?
  }

  /** A tree page stored under its own page id. */
  predicate TreePageAt(pages: map<PageId, Page>, id: PageId)
  {
    id in pages && IsTreePage(pages[id]) && pages[id].pageId == id
  }

  /** A page Split can work on: a well-formed leaf, or an internal page
      with one key per child. */
  predicate Splittable(p: Page)
  {
    WellFormedLeaf(p) || (p.InternalPage? && |p.keys| == |p.children|)
  }

  /** The parent of page `id`, if it has one, is an internal page with one
      key per child (what the cast at cpp:178-179 relies on). */
  predicate ParentReady(pages: map<PageId, Page>, id: PageId)
    requires TreePageAt(pages, id)
  {
    var parent := pages[id].parentPageId;
    parent != INVALID_PAGE_ID ==>
      TreePageAt(pages, parent) && pages[parent].InternalPage? && |pages[parent].keys| == |pages[parent].children|
  }

  /** The pages reachable through `height` form a tree: every one is a
      well-formed tree page stored under its own id, and every child of an
      internal page is ranked strictly lower than the page. */
  ghost predicate Ranked(pages: map<PageId, Page>, height: map<PageId, nat>)
  {
    forall id :: id in height ==>
      && TreePageAt(pages, id)
      && (pages[id].LeafPage? ==> WellFormedLeaf(pages[id]))
      && (pages[id].InternalPage? ==>
            && WellFormedInternal(pages[id])
            && forall c :: c in pages[id].children ==> c in height && height[c] < height[id])
  }

  /** The leaf the descent for `key` reaches from page `id`: through the
      child internal Lookup picks at every internal page. */
  ghost function LeafFor(pages: map<PageId, Page>, height: map<PageId, nat>, id: PageId, key: Key): (leaf: PageId)
    requires Ranked(pages, height) && id in height
    ensures leaf in height && pages[leaf].LeafPage?
    decreases height[id]
  {
    if pages[id].LeafPage? then id else LeafFor(pages, height, InternalLookup(pages[id], key), key)
  }

  /** The page store after Split of the leaf `nodeId` into the freshly
      allocated page `newId` (cpp:130-135): the new page is initialised as
      an empty leaf with the node's parent and receives the upper half of
      the node's entries. */
  function SplitLeafPages(pages: map<PageId, Page>, nodeId: PageId, newId: PageId, leafMaxSize: nat): map<PageId, Page>
    requires nodeId in pages && WellFormedLeaf(pages[nodeId])
  {
    var node := pages[nodeId];
    var mv := LeafMoveHalfTo(node, LeafInit(newId, node.parentPageId, leafMaxSize));
    pages[newId := mv.1][nodeId := mv.0]
  }

  /** The same for an internal node: the new page is initialised as an
      empty internal page, receives the upper half of the node's children
      with their keys, and becomes the parent of every child it received. */
  function SplitInternalPages(pages: map<PageId, Page>, nodeId: PageId, newId: PageId, internalMaxSize: nat): map<PageId, Page>
    requires nodeId in pages && pages[nodeId].InternalPage? && |pages[nodeId].keys| == |pages[nodeId].children|
  {
    var node := pages[nodeId];
    var mv := InternalMoveHalfTo(node, InternalInit(newId, node.parentPageId, internalMaxSize));
    Reparented(pages[newId := mv.1][nodeId := mv.0], mv.1.children, newId)
  }

  function SplitPages(pages: map<PageId, Page>, nodeId: PageId, newId: PageId, leafMaxSize: nat, internalMaxSize: nat): map<PageId, Page>
    requires nodeId in pages && Splittable(pages[nodeId])
  {
    if pages[nodeId].LeafPage? then SplitLeafPages(pages, nodeId, newId, leafMaxSize)
    else SplitInternalPages(pages, nodeId, newId, internalMaxSize)
  }

  /** Split overwrites whatever the new page held before. */
  lemma SplitPagesOverwrite(pages: map<PageId, Page>, nodeId: PageId, newId: PageId, p: Page, leafMaxSize: nat, internalMaxSize: nat)
    requires nodeId in pages && Splittable(pages[nodeId]) && newId != nodeId
    ensures SplitPages(pages[newId := p], nodeId, newId, leafMaxSize, internalMaxSize) == SplitPages(pages, nodeId, newId, leafMaxSize, internalMaxSize)
  {
    var node := pages[nodeId];
    if node.LeafPage? {
      var mv := LeafMoveHalfTo(node, LeafInit(newId, node.parentPageId, leafMaxSize));
      assert pages[newId := p][newId := mv.1][nodeId := mv.0] == pages[newId := mv.1][nodeId := mv.0];
    } else {
      var mv := InternalMoveHalfTo(node, InternalInit(newId, node.parentPageId, internalMaxSize));
      assert pages[newId := p][newId := mv.1][nodeId := mv.0] == pages[newId := mv.1][nodeId := mv.0];
    }
  }

  /** Splitting a leaf leaves two well-formed leaves under their own ids,
      both with the node's parent, holding between them exactly the node's
      entries in order, every key of the node's half below every key of
      the new one's; no other page changes. */
  lemma {:induction false} SplitLeafShape(pages: map<PageId, Page>, nodeId: PageId, newId: PageId, leafMaxSize: nat)
    requires TreePageAt(pages, nodeId) && WellFormedLeaf(pages[nodeId]) && newId !in pages
    ensures var ps := SplitLeafPages(pages, nodeId, newId, leafMaxSize);
      var node := pages[nodeId];
      && ps.Keys == pages.Keys + {newId}
      && TreePageAt(ps, nodeId) && TreePageAt(ps, newId)
      && WellFormedLeaf(ps[nodeId]) && WellFormedLeaf(ps[newId])
      && ps[nodeId].parentPageId == node.parentPageId && ps[newId].parentPageId == node.parentPageId
      && ps[nodeId].keys + ps[newId].keys == node.keys
      && ps[nodeId].values + ps[newId].values == node.values
      && (forall i, j :: 0 <= i < |ps[nodeId].keys| && 0 <= j < |ps[newId].keys| ==> ps[nodeId].keys[i] < ps[newId].keys[j])
      && Size(ps[nodeId]) == SplitPoint(Size(node))
      && (forall id :: id in pages && id != nodeId && id != newId ==> ps[id] == pages[id])
  {
    var node := pages[nodeId];
    var init := LeafInit(newId, node.parentPageId, leafMaxSize);
    var mv := LeafMoveHalfTo(node, init);
    LeafMoveHalfToSorted(node, init);
    assert mv.1.keys[0..] == mv.1.keys && mv.1.values[0..] == mv.1.values;
    var ps := pages[newId := mv.1][nodeId := mv.0];
    assert ps.Keys == pages.Keys + {newId};
    assert ps[nodeId] == mv.0 && ps[newId] == mv.1;
  }

  /** Splitting an internal page leaves two internal pages under their own
      ids holding between them exactly the node's children and keys in
      order, the node's half being the lower one. */
  lemma {:induction false} SplitInternalShape(pages: map<PageId, Page>, nodeId: PageId, newId: PageId, internalMaxSize: nat)
    requires TreePageAt(pages, nodeId) && pages[nodeId].InternalPage? && |pages[nodeId].keys| == |pages[nodeId].children|
    requires newId !in pages
    ensures var ps := SplitInternalPages(pages, nodeId, newId, internalMaxSize);
      var node := pages[nodeId];
      && ps.Keys == pages.Keys + {newId}
      && TreePageAt(ps, nodeId) && TreePageAt(ps, newId)
      && ps[nodeId].InternalPage? && ps[newId].InternalPage?
      && ps[nodeId].children + ps[newId].children == node.children
      && ps[nodeId].keys + ps[newId].keys == node.keys
      && Size(ps[nodeId]) == SplitPoint(Size(node))
  {
    var node := pages[nodeId];
    var mv := InternalMoveHalfTo(node, InternalInit(newId, node.parentPageId, internalMaxSize));
    var qs := pages[newId := mv.1][nodeId := mv.0];
    var ps := Reparented(qs, mv.1.children, newId);
    assert mv.1.children[0..] == mv.1.children && mv.1.keys[0..] == mv.1.keys;
    assert qs.Keys == pages.Keys + {newId};
    ReparentedEntries(qs, mv.1.children, newId, nodeId);
    ReparentedEntries(qs, mv.1.children, newId, newId);
  }

  /** After an internal split every moved child that is a tree page names
      the new page as its parent, and every page that is not a moved child
      keeps its content, the split node and the new page apart; the header
      page in particular is untouched. */
  lemma {:induction false} SplitInternalParents(pages: map<PageId, Page>, nodeId: PageId, newId: PageId, internalMaxSize: nat)
    requires TreePageAt(pages, nodeId) && pages[nodeId].InternalPage? && |pages[nodeId].keys| == |pages[nodeId].children|
    requires newId !in pages && HeaderReady(pages)
    ensures var ps := SplitInternalPages(pages, nodeId, newId, internalMaxSize);
      && HeaderReady(ps) && ps[HEADER_PAGE_ID] == pages[HEADER_PAGE_ID]
      && (forall c :: c in ps[newId].children && c in ps && IsTreePage(ps[c]) ==> ps[c].parentPageId == newId)
      && (forall id :: id in pages && id != nodeId && id !in pages[nodeId].children ==> ps[id] == pages[id])
  {
    var node := pages[nodeId];
    var mv := InternalMoveHalfTo(node, InternalInit(newId, node.parentPageId, internalMaxSize));
    var qs := pages[newId := mv.1][nodeId := mv.0];
    var ps := Reparented(qs, mv.1.children, newId);
    assert ps[newId].children == mv.1.children by {
      assert IsTreePage(qs[newId]);
    }
    forall c | c in ps[newId].children && c in ps && IsTreePage(ps[c])
      ensures ps[c].parentPageId == newId
    {
      assert IsTreePage(qs[c]);
    }
    assert mv.1.children[0..] == mv.1.children;
    assert mv.1.children == node.children[SplitPoint(|node.children|)..];
    forall id | id in pages && id != nodeId && id !in node.children
      ensures ps[id] == pages[id]
    {
      assert id !in mv.1.children;
    }
  }

  /** The page store after InsertIntoParent makes a new root `root` over
      `oldId` and `newId` (cpp:159-175): the root is an internal page
      holding the two children and the separator, the header's record for
      the index names the root, and both children name it as their parent. */
  function NewRootPages(pages: map<PageId, Page>, name: string, oldId: PageId, key: Key, newId: PageId, root: PageId, internalMaxSize: nat): map<PageId, Page>
    requires HeaderReady(pages) && oldId in pages && IsTreePage(pages[oldId]) && newId in pages && IsTreePage(pages[newId])
  {
    pages[root := PopulateNewRoot(InternalInit(root, INVALID_PAGE_ID, internalMaxSize), oldId, key, newId)]
         [HEADER_PAGE_ID := UpdateRecord(pages[HEADER_PAGE_ID], name, root)]
         [oldId := WithParent(pages[oldId], root)]
         [newId := WithParent(pages[newId], root)]
  }

  /** The new root routes every key below the separator to the old node
      and every other key to the new one, is a parentless internal page of
      two children, and is the parent of both. */
  lemma NewRootShape(pages: map<PageId, Page>, name: string, oldId: PageId, key: Key, newId: PageId, root: PageId, internalMaxSize: nat, k: Key)
    requires HeaderReady(pages) && TreePageAt(pages, oldId) && TreePageAt(pages, newId) && oldId != newId
    requires root !in pages
    ensures var ps := NewRootPages(pages, name, oldId, key, newId, root, internalMaxSize);
      && WellFormedInternal(ps[root]) && ps[root].parentPageId == INVALID_PAGE_ID && Size(ps[root]) == 2
      && InternalLookup(ps[root], k) == (if k < key then oldId else newId)
      && ps[oldId].parentPageId == root && ps[newId].parentPageId == root
      && (name in pages[HEADER_PAGE_ID].records ==> ps[HEADER_PAGE_ID].records[name] == root)
      && ps.Keys == pages.Keys + {root}
  {
    NewRootRouting(InternalInit(root, INVALID_PAGE_ID, internalMaxSize), oldId, key, newId, k);
  }

  class BPlusTree {
    const indexName: string
    var rootPageId: PageId
    const bpm: BufferPoolManager
    const leafMaxSize: nat       // what a leaf page's Init sets as its max size
    const internalMaxSize: nat   // what an internal page's Init sets as its max size

    /** BPlusTree(name, bpm, comparator, root_page_id) (cpp:16-21). */
    constructor (name: string, bpm: BufferPoolManager, rootPageId: PageId, leafMaxSize: nat, internalMaxSize: nat)
      ensures indexName == name && this.bpm == bpm && this.rootPageId == rootPageId
      ensures this.leafMaxSize == leafMaxSize && this.internalMaxSize == internalMaxSize
    {
      indexName := name;
      this.bpm := bpm;
      this.rootPageId := rootPageId;
      this.leafMaxSize := leafMaxSize;
      this.internalMaxSize := internalMaxSize;
    }

    /** IsEmpty (cpp:27): a stub that answers true whatever the tree holds. */
    function IsEmpty(): (empty: bool)
      ensures empty
    {
      true
    }

    /** Insert (cpp:54-64).  IsEmpty always holds, so the new-tree branch
        is the only one taken: StartNewTree (cpp:72) has an empty body, so
        no page is written, then the header gets a new record for the
        index, and the answer is true.  The InsertIntoLeaf branch (cpp:61)
        cannot be reached. */
    method Insert(key: Key, value: Rid) returns (r: Outcome<bool>)
      requires bpm.Valid() && HeaderReady(bpm.pages)
      modifies bpm
      ensures bpm.Valid() && rootPageId == old(rootPageId)
      ensures bpm.nextPageId == old(bpm.nextPageId)
      ensures old(bpm.CanFetch(HEADER_PAGE_ID)) ==>
        && r == Ok(true)
        && bpm.pages == old(bpm.pages)[HEADER_PAGE_ID := InsertRecord(old(bpm.pages[HEADER_PAGE_ID]), indexName, rootPageId)]
        && bpm.pins == old(bpm.pins) && bpm.dirty == old(bpm.dirty) + {HEADER_PAGE_ID}
      ensures !old(bpm.CanFetch(HEADER_PAGE_ID)) ==>
        r == NullDereference && bpm.pages == old(bpm.pages) && bpm.pins == old(bpm.pins) && bpm.dirty == old(bpm.dirty)
    {
      var u := UpdateRootPageId(true);
      if u.NullDereference? {
        return NullDereference;
      }
      r := Ok(true);
    }

    /** UpdateRootPageId (cpp:332-342): fetch the header page, insert a
        record for this index when `insertRecord` is set or update its
        record otherwise, and unpin the header dirty.  The header is
        fetched once and unpinned once, so pin counts end as they began. */
    method UpdateRootPageId(insertRecord: bool) returns (r: Outcome<()>)
      requires bpm.Valid() && HeaderReady(bpm.pages)
      modifies bpm
      ensures bpm.Valid() && HeaderReady(bpm.pages) && bpm.nextPageId == old(bpm.nextPageId)
      ensures old(bpm.CanFetch(HEADER_PAGE_ID)) ==>
        && r == Ok(())
        && bpm.pages == old(bpm.pages)[HEADER_PAGE_ID :=
             if insertRecord then InsertRecord(old(bpm.pages[HEADER_PAGE_ID]), indexName, rootPageId)
             else UpdateRecord(old(bpm.pages[HEADER_PAGE_ID]), indexName, rootPageId)]
        && bpm.pins == old(bpm.pins) && bpm.dirty == old(bpm.dirty) + {HEADER_PAGE_ID}
      ensures !old(bpm.CanFetch(HEADER_PAGE_ID)) ==>
        r == NullDereference && bpm.pages == old(bpm.pages) && bpm.pins == old(bpm.pins) && bpm.dirty == old(bpm.dirty)
    {
      var headerPage := bpm.FetchPage(HEADER_PAGE_ID);
      if headerPage.None? {
        return NullDereference;
      }
      var header := headerPage.value;
      if insertRecord {
        bpm.WritePage(HEADER_PAGE_ID, InsertRecord(header, indexName, rootPageId));
      } else {
        bpm.WritePage(HEADER_PAGE_ID, UpdateRecord(header, indexName, rootPageId));
      }
      UnpinAfterPin(old(bpm.pins), HEADER_PAGE_ID);
      var _ := bpm.UnpinPage(HEADER_PAGE_ID, true);
      r := Ok(());
    }

    /** FindLeafPage (cpp:296-321) as written: IsEmpty always holds, so it
        answers null and touches nothing. */
    method FindLeafPage(key: Key, leftMost: bool) returns (leaf: Option<PageId>)
      ensures leaf == None
    {
      leaf := None;
    }

    /** The descent loop of FindLeafPage (cpp:302-320), for a tree whose
        root page exists: from the root, follow internal Lookup down to a
        leaf, unpinning every internal page (not dirty) right after its
        child is fetched.  `leftMost` is ignored, as in the source.  When it
        succeeds the leaf reached is the one Lookup leads to and it is the
        only page left with an extra pin; with two frames to spare it
        always succeeds.  It fails only when a fetch finds no frame. */
    method Descend(key: Key, leftMost: bool, ghost height: map<PageId, nat>) returns (r: Outcome<PageId>)
      requires bpm.Valid() && Ranked(bpm.pages, height) && rootPageId in height
      modifies bpm
      ensures bpm.Valid()
      ensures bpm.pages == old(bpm.pages) && bpm.dirty == old(bpm.dirty) && bpm.nextPageId == old(bpm.nextPageId)
      ensures r.Ok? || r.NullDereference?
      ensures r.Ok? ==>
        r.value == LeafFor(old(bpm.pages), height, rootPageId, key) && bpm.pins == Pinned(old(bpm.pins), r.value)
      ensures old(|bpm.pins|) + 2 <= bpm.poolSize ==> r.Ok?
    {
      ghost var pins0 := bpm.pins;
      var rawPage := bpm.FetchPage(rootPageId);
      if rawPage.None? {
        return NullDereference;
      }
      var page := rawPage.value;
      ghost var current := rootPageId;
      while !page.LeafPage?
        invariant bpm.Valid() && bpm.pages == old(bpm.pages)
        invariant bpm.dirty == old(bpm.dirty) && bpm.nextPageId == old(bpm.nextPageId)
        invariant current in height && page == bpm.pages[current]
        invariant LeafFor(bpm.pages, height, current, key) == LeafFor(bpm.pages, height, rootPageId, key)
        invariant bpm.pins == Pinned(pins0, current)
        invariant |pins0| + 2 <= bpm.poolSize ==> |bpm.pins| <= |pins0| + 1
        decreases height[current]
      {
        var unPinPage := page.pageId;
        var nextPageId := InternalLookup(page, key);
        rawPage := bpm.FetchPage(nextPageId);
        if rawPage.None? {
          return NullDereference;
        }
        page := rawPage.value;
        PinHandOver(pins0, current, nextPageId);
        var _ := bpm.UnpinPage(unPinPage, false);
        current := nextPageId;
      }
      r := Ok(page.pageId);
    }

    /** InsertIntoLeaf (cpp:83-112) as written: FindLeafPage answers null,
        so it returns false at once (cpp:86-88) and inserts nothing. */
    method InsertIntoLeaf(key: Key, value: Rid) returns (r: Outcome<bool>)
      ensures r == Ok(false)
    {
      var leaf := FindLeafPage(key, false);
      r := Ok(false);
    }

    /** The rest of InsertIntoLeaf (cpp:89-111) for a leaf FindLeafPage
        found, pinned.  A duplicate key answers false and changes nothing,
        not even the leaf's pin, which is not released.  Otherwise the entry goes into the
        leaf; when the leaf still fits its max size, it is unpinned dirty
        and the answer is true.  When it overflows, Split runs and, as it
        returns null, the path ends in OutOfMemory or NullDereference. */
    method InsertIntoFoundLeaf(leafId: PageId, key: Key, value: Rid) returns (r: Outcome<bool>)
      requires bpm.Valid() && HeaderReady(bpm.pages)
      requires TreePageAt(bpm.pages, leafId) && WellFormedLeaf(bpm.pages[leafId]) && leafId in bpm.pins
      modifies this, bpm
      ensures bpm.Valid()
      ensures key in old(bpm.pages[leafId].keys) ==>
        && r == Ok(false) && bpm.pages == old(bpm.pages) && bpm.pins == old(bpm.pins) && bpm.dirty == old(bpm.dirty)
        && rootPageId == old(rootPageId) && bpm.nextPageId == old(bpm.nextPageId)
      ensures key !in old(bpm.pages[leafId].keys) && Size(old(bpm.pages[leafId])) < old(bpm.pages[leafId].maxSize) ==>
        && r == Ok(true)
        && bpm.pages == old(bpm.pages)[leafId := LeafInsert(old(bpm.pages[leafId]), key, value).0]
        && bpm.pins == Unpinned(old(bpm.pins), leafId) && bpm.dirty == old(bpm.dirty) + {leafId}
        && rootPageId == old(rootPageId) && bpm.nextPageId == old(bpm.nextPageId)
      ensures key !in old(bpm.pages[leafId].keys) && Size(old(bpm.pages[leafId])) >= old(bpm.pages[leafId].maxSize) ==>
        r == OutOfMemory || r == NullDereference
    {
      var leaf := bpm.pages[leafId];
      if LeafLookup(leaf, key).Some? {
        return Ok(false);  // the leaf stays pinned
      }
      var inserted := LeafInsert(leaf, key, value);
      var newSize := inserted.1;
      bpm.WritePage(leafId, inserted.0);
      if newSize > inserted.0.maxSize {
        var sibling := Split(leafId);
        if sibling.OutOfMemory? {
          return OutOfMemory;
        }
        var up := InsertIntoParent(leafId, key, sibling.value);
        // whatever InsertIntoParent does, `newSiblingLeaf->GetPageId()`
        // at cpp:102 dereferences the null sibling
        return if up.OutOfMemory? then OutOfMemory else NullDereference;
      }
      var _ := bpm.UnpinPage(leafId, true);
      r := Ok(true);
    }

    /** Split (cpp:122-138): allocate a page (bad_alloc when NewPage
        fails), initialise it as a page of the node's kind with the node's
        parent, and move the upper half of the node's entries into it.  The
        new page stays pinned, and the answer is null. */
    method Split(nodeId: PageId) returns (r: Outcome<Option<PageId>>)
      requires bpm.Valid() && TreePageAt(bpm.pages, nodeId) && Splittable(bpm.pages[nodeId]) && HeaderReady(bpm.pages)
      modifies bpm
      ensures bpm.Valid() && bpm.dirty == old(bpm.dirty)
      ensures HeaderReady(bpm.pages) && bpm.pages[HEADER_PAGE_ID] == old(bpm.pages[HEADER_PAGE_ID]) && TreePageAt(bpm.pages, nodeId)
      ensures old(|bpm.pins|) >= bpm.poolSize ==>
        r == OutOfMemory && bpm.pages == old(bpm.pages) && bpm.pins == old(bpm.pins) && bpm.nextPageId == old(bpm.nextPageId)
      ensures old(|bpm.pins|) < bpm.poolSize ==>
        && r == Ok(None)
        && old(bpm.nextPageId) !in old(bpm.pages)
        && bpm.pages == SplitPages(old(bpm.pages), nodeId, old(bpm.nextPageId), leafMaxSize, internalMaxSize)
        && bpm.pins == old(bpm.pins)[old(bpm.nextPageId) := 1]
        && bpm.nextPageId == old(bpm.nextPageId) + 1
    {
      var page := bpm.NewPage();
      if page.None? {
        return OutOfMemory;
      }
      var id := page.value;
      MoveHalfTo(nodeId, id);
      SplitPagesOverwrite(old(bpm.pages), nodeId, id, RawPage, leafMaxSize, internalMaxSize);
      if old(bpm.pages[nodeId]).LeafPage? {
        SplitLeafShape(old(bpm.pages), nodeId, id, leafMaxSize);
      } else {
        SplitInternalShape(old(bpm.pages), nodeId, id, internalMaxSize);
        SplitInternalParents(old(bpm.pages), nodeId, id, internalMaxSize);
      }
      r := Ok(None);
    }

    /** Init on the page `id` just allocated, then the node's MoveHalfTo
        into it (cpp:133-135). */
    method MoveHalfTo(nodeId: PageId, id: PageId)
      requires bpm.Valid() && TreePageAt(bpm.pages, nodeId) && Splittable(bpm.pages[nodeId])
      requires id in bpm.pages && id != nodeId
      modifies bpm
      ensures bpm.Valid() && bpm.pages == SplitPages(old(bpm.pages), nodeId, id, leafMaxSize, internalMaxSize)
      ensures bpm.pins == old(bpm.pins) && bpm.dirty == old(bpm.dirty) && bpm.nextPageId == old(bpm.nextPageId)
    {
      var node := bpm.pages[nodeId];
      if node.LeafPage? {
        var init := LeafInit(id, node.parentPageId, leafMaxSize);
        bpm.WritePage(id, init);
        var mv := LeafMoveHalfTo(node, init);
        bpm.WritePage(nodeId, mv.0);
        bpm.WritePage(id, mv.1);
        assert bpm.pages == old(bpm.pages)[id := mv.1][nodeId := mv.0];
      } else {
        var init := InternalInit(id, node.parentPageId, internalMaxSize);
        bpm.WritePage(id, init);
        var mv := InternalMoveHalfTo(node, init);
        bpm.WritePage(nodeId, mv.0);
        bpm.WritePage(id, mv.1);
        assert bpm.pages == old(bpm.pages)[id := mv.1][nodeId := mv.0];
        bpm.WritePages(Reparented(bpm.pages, mv.1.children, id));
      }
    }

    /** InsertIntoParent (cpp:150-191).  A node without a parent gets a new
        root (NewRoot); for a node with a parent the parent is updated
        (IntoParentPage).  With a null `newNode` every path ends in
        OutOfMemory or NullDereference. */
    method InsertIntoParent(oldId: PageId, key: Key, newNode: Option<PageId>) returns (r: Outcome<()>)
      requires bpm.Valid() && HeaderReady(bpm.pages) && TreePageAt(bpm.pages, oldId)
      requires newNode.Some? ==>
        && TreePageAt(bpm.pages, newNode.value) && newNode.value != oldId && ParentReady(bpm.pages, oldId)
      modifies this, bpm
      ensures bpm.Valid()
      ensures newNode.None? ==> r == OutOfMemory || r == NullDereference
      ensures newNode.Some? && old(bpm.pages[oldId].parentPageId) == INVALID_PAGE_ID ==>
        && (r.Ok? <==> old(|bpm.pins|) < bpm.poolSize && (HEADER_PAGE_ID in old(bpm.pins) || old(|bpm.pins|) + 1 < bpm.poolSize))
        && (r.Ok? ==>
              && rootPageId == old(bpm.nextPageId) && bpm.nextPageId == old(bpm.nextPageId) + 1
              && bpm.pages == NewRootPages(old(bpm.pages), indexName, oldId, key, newNode.value, old(bpm.nextPageId), internalMaxSize)
              && bpm.pins == old(bpm.pins) && bpm.dirty == old(bpm.dirty) + {HEADER_PAGE_ID, old(bpm.nextPageId)})
      ensures newNode.Some? && old(bpm.pages[oldId].parentPageId) != INVALID_PAGE_ID ==>
        var parent := old(bpm.pages[oldId].parentPageId);
        var after := InsertNodeAfter(old(bpm.pages[parent]), oldId, key, newNode.value);
        && (r.Ok? <==> old(bpm.CanFetch(parent)) && after.1 <= after.0.maxSize)
        && (r.Ok? ==>
              && bpm.pages == old(bpm.pages)[parent := after.0]
              && bpm.pins == Pinned(old(bpm.pins), parent) && bpm.dirty == old(bpm.dirty)
              && rootPageId == old(rootPageId) && bpm.nextPageId == old(bpm.nextPageId))
      decreases if newNode.Some? then 1 else 0, 1
    {
      if bpm.pages[oldId].parentPageId == INVALID_PAGE_ID {
        r := NewRoot(oldId, key, newNode);
      } else {
        r := IntoParentPage(oldId, key, newNode);
      }
    }

    /** The new-root branch of InsertIntoParent (cpp:158-175): a fresh
        internal page (bad_alloc when NewPage fails) becomes root_page_id_,
        the header's record for the index is updated (not inserted), both
        nodes name the new page as parent, it receives (old, key, new), and
        it is unpinned dirty.  The header fetch needs a second frame. */
    method NewRoot(oldId: PageId, key: Key, newNode: Option<PageId>) returns (r: Outcome<()>)
      requires bpm.Valid() && HeaderReady(bpm.pages) && TreePageAt(bpm.pages, oldId)
      requires newNode.Some? ==> TreePageAt(bpm.pages, newNode.value) && newNode.value != oldId
      modifies this, bpm
      ensures bpm.Valid()
      ensures newNode.None? ==> r == OutOfMemory || r == NullDereference
      ensures newNode.Some? ==>
        && (r.Ok? <==> old(|bpm.pins|) < bpm.poolSize && (HEADER_PAGE_ID in old(bpm.pins) || old(|bpm.pins|) + 1 < bpm.poolSize))
        && (r.Ok? ==>
              && rootPageId == old(bpm.nextPageId) && bpm.nextPageId == old(bpm.nextPageId) + 1
              && bpm.pages == NewRootPages(old(bpm.pages), indexName, oldId, key, newNode.value, old(bpm.nextPageId), internalMaxSize)
              && bpm.pins == old(bpm.pins) && bpm.dirty == old(bpm.dirty) + {HEADER_PAGE_ID, old(bpm.nextPageId)})
    {
      var alloc := AllocateRoot();
      if !alloc.Ok? {
        return if alloc.OutOfMemory? then OutOfMemory else NullDereference;
      }
      var parentPageId := alloc.value;
      if newNode.None? {
        bpm.WritePage(oldId, WithParent(bpm.pages[oldId], parentPageId));
        return NullDereference;  // new_node->SetParentPageId on the null sibling
      }
      ghost var pages3 := bpm.pages;
      assert pages3[oldId] == old(bpm.pages[oldId]) && pages3[newNode.value] == old(bpm.pages[newNode.value]);
      LinkNewRoot(oldId, key, newNode.value, parentPageId);
      assert bpm.pages == NewRootPages(old(bpm.pages), indexName, oldId, key, newNode.value, parentPageId, internalMaxSize);
      UnpinAfterPin(old(bpm.pins), parentPageId);
      var _ := bpm.UnpinPage(parentPageId, true);
      r := Ok(());
    }

    /** cpp:158-164: allocate the new root (bad_alloc when NewPage fails),
        Init it as a parentless internal page, make it root_page_id_ and
        update the header's record of the index.  Succeeds exactly when a
        frame is free for the new page and the header can then be fetched. */
    method AllocateRoot() returns (r: Outcome<PageId>)
      requires bpm.Valid() && HeaderReady(bpm.pages)
      modifies this, bpm
      ensures bpm.Valid()
      ensures r.Ok? <==> old(|bpm.pins|) < bpm.poolSize && (HEADER_PAGE_ID in old(bpm.pins) || old(|bpm.pins|) + 1 < bpm.poolSize)
      ensures r.Ok? ==>
        && r.value == old(bpm.nextPageId) && r.value !in old(bpm.pages) && rootPageId == r.value
        && bpm.nextPageId == old(bpm.nextPageId) + 1
        && bpm.pages == old(bpm.pages)[r.value := InternalInit(r.value, INVALID_PAGE_ID, internalMaxSize)]
                                      [HEADER_PAGE_ID := UpdateRecord(old(bpm.pages[HEADER_PAGE_ID]), indexName, r.value)]
        && bpm.pins == old(bpm.pins)[r.value := 1] && bpm.dirty == old(bpm.dirty) + {HEADER_PAGE_ID}
    {
      var newPage := bpm.NewPage();
      if newPage.None? {
        return OutOfMemory;
      }
      var parentPageId := newPage.value;
      assert parentPageId != HEADER_PAGE_ID;
      assert HEADER_PAGE_ID in bpm.pins <==> HEADER_PAGE_ID in old(bpm.pins);
      assert |bpm.pins| == old(|bpm.pins|) + 1;
      bpm.WritePage(parentPageId, InternalInit(parentPageId, INVALID_PAGE_ID, internalMaxSize));
      rootPageId := parentPageId;
      var u := UpdateRootPageId(false);
      if u.NullDereference? {
        return NullDereference;
      }
      r := Ok(parentPageId);
    }

    /** cpp:167-172: both nodes name `root` as their parent, and `root`
        receives (old, key, new). */
    method LinkNewRoot(oldId: PageId, key: Key, newId: PageId, root: PageId)
      requires bpm.Valid() && TreePageAt(bpm.pages, oldId) && TreePageAt(bpm.pages, newId)
      requires root in bpm.pages && bpm.pages[root].InternalPage? && newId != oldId && root != oldId && root != newId
      modifies bpm
      ensures bpm.Valid()
      ensures bpm.pages == old(bpm.pages)[oldId := WithParent(old(bpm.pages[oldId]), root)]
                                         [newId := WithParent(old(bpm.pages[newId]), root)]
                                         [root := PopulateNewRoot(old(bpm.pages[root]), oldId, key, newId)]
      ensures bpm.pins == old(bpm.pins) && bpm.dirty == old(bpm.dirty) && bpm.nextPageId == old(bpm.nextPageId)
    {
      bpm.WritePage(oldId, WithParent(bpm.pages[oldId], root));
      bpm.WritePage(newId, WithParent(bpm.pages[newId], root));
      bpm.WritePage(root, PopulateNewRoot(bpm.pages[root], oldId, key, newId));
    }

    /** The parent branch of InsertIntoParent (cpp:176-190): the parent is
        fetched and InsertNodeAfter(old, key, new) is applied to it; only
        when it then exceeds its max size is it split and InsertIntoParent
        repeated for it, with the child's `key` and the null sibling Split
        returns.  The fetched parent is never unpinned. */
    method IntoParentPage(oldId: PageId, key: Key, newNode: Option<PageId>) returns (r: Outcome<()>)
      requires bpm.Valid() && HeaderReady(bpm.pages) && TreePageAt(bpm.pages, oldId)
      requires bpm.pages[oldId].parentPageId != INVALID_PAGE_ID
      requires newNode.Some? ==> ParentReady(bpm.pages, oldId)
      modifies this, bpm
      ensures bpm.Valid()
      ensures newNode.None? ==> r == OutOfMemory || r == NullDereference
      ensures newNode.Some? ==>
        var parent := old(bpm.pages[oldId].parentPageId);
        var after := InsertNodeAfter(old(bpm.pages[parent]), oldId, key, newNode.value);
        && (r.Ok? <==> old(bpm.CanFetch(parent)) && after.1 <= after.0.maxSize)
        && (r.Ok? ==>
              && bpm.pages == old(bpm.pages)[parent := after.0]
              && bpm.pins == Pinned(old(bpm.pins), parent) && bpm.dirty == old(bpm.dirty)
              && rootPageId == old(rootPageId) && bpm.nextPageId == old(bpm.nextPageId))
      decreases if newNode.Some? then 1 else 0, 0
    {
      var parentPageId := bpm.pages[oldId].parentPageId;
      var pPage := bpm.FetchPage(parentPageId);
      if pPage.None? {
        return NullDereference;
      }
      if newNode.None? {
        return NullDereference;  // new_node->GetPageId() on the null sibling
      }
      var parentNode := pPage.value;
      var after := InsertNodeAfter(parentNode, oldId, key, newNode.value);
      var parentCurSize := after.1;
      bpm.WritePage(parentPageId, after.0);
      if parentCurSize > after.0.maxSize {
        var sibling := Split(parentPageId);
        if sibling.OutOfMemory? {
          return OutOfMemory;
        }
        r := InsertIntoParent(parentPageId, key, sibling.value);
      } else {
        r := Ok(());
      }
    }
  }
}
