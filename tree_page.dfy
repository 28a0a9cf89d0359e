/**
 * The page layouts the B+ tree reinterprets raw buffer-pool pages as.
 *
 * The tree (src/index/b_plus_tree.cpp) casts a page's bytes to a leaf page,
 * an internal page or the header page and calls their methods: Lookup,
 * Insert, MoveHalfTo, InsertNodeAfter, PopulateNewRoot, Init, GetSize,
 * GetMaxSize, Get/SetParentPageId, GetNextPageId and, on the header page,
 * InsertRecord and UpdateRecord.  The page classes themselves
 * (src/include/page/b_plus_tree_leaf_page.h,
 * src/include/page/b_plus_tree_internal_page.h,
 * src/include/page/header_page.h) are not part of this model: each method
 * the tree calls is a function here, with the contract the tree relies
 * on, and a page is a value of the datatype `Page`.
 *
 * Keys are integers ordered by `<`, standing for GenericKey under the
 * tree's KeyComparator.
 */
module TreePages {
  import opened Options

  type PageId = int

  /** INVALID_PAGE_ID and HEADER_PAGE_ID (src/include/common/config.h is
      not part of this model; these are its values). */
  const INVALID_PAGE_ID: PageId := -1
  const HEADER_PAGE_ID: PageId := 0

  type Key = int

  /** The record id a leaf entry maps its key to. */
  datatype Rid = Rid(pageId: PageId, slotNum: nat)

  /** The contents of one page as the tree interprets it.  A page fresh
      from NewPage holds no layout yet (RawPage) until Init is called on it.
      An internal page keeps one key per child; the first key is unused,
      as in the source's `array[0].first`. */
  datatype Page =
    | RawPage
    | HeaderPage(records: map<string, PageId>)
    | LeafPage(pageId: PageId, parentPageId: PageId, maxSize: nat,
               keys: seq<Key>, values: seq<Rid>, nextPageId: PageId)
    | InternalPage(pageId: PageId, parentPageId: PageId, maxSize: nat,
                   keys: seq<Key>, children: seq<PageId>)

  predicate IsTreePage(p: Page)
  {
    p.LeafPage? || p.InternalPage?
  }

  /** GetSize: the number of entries of a leaf, of children of an internal page. */
  function Size(p: Page): nat
    requires IsTreePage(p)
  {
    if p.LeafPage? then |p.keys| else |p.children|
  }

  /** SetParentPageId. */
  function WithParent(p: Page, parent: PageId): (r: Page)
    requires IsTreePage(p)
    ensures IsTreePage(r) && r.parentPageId == parent && r.pageId == p.pageId && Size(r) == Size(p)
  {
    p.(parentPageId := parent)
  }

  predicate StrictlySorted(s: seq<Key>)
  {
    forall i, j :: 0 <= i < j < |s| ==> s[i] < s[j]
  }

  /** A leaf's entries: parallel keys and values, keys strictly ascending. */
  predicate WellFormedLeaf(p: Page)
  {
    p.LeafPage? && |p.keys| == |p.values| && StrictlySorted(p.keys)
  }

  /** An internal page: at least one child, one key per child, and the
      keys after the unused first one strictly ascending. */
  predicate WellFormedInternal(p: Page)
  {
    p.InternalPage? && |p.keys| == |p.children| && |p.children| >= 1 && StrictlySorted(p.keys[1..])
  }

  // ---------------------------------------------------------------------
  // Leaf page
  // ---------------------------------------------------------------------

  /** The first position of `x` in `s`, if any: the scan of leaf Lookup
      over the keys and of InsertNodeAfter over the children. */
  function IndexOf<T(==)>(s: seq<T>, x: T): (r: Option<nat>)
    ensures r.Some? ==> r.value < |s| && s[r.value] == x && x !in s[..r.value]
    ensures r.None? <==> x !in s
  {
    if |s| == 0 then None
    else if s[0] == x then Some(0)
    else match IndexOf(s[1..], x)
      case None => None
      case Some(i) =>
        assert s[..i + 1] == [s[0]] + s[1..][..i];
        Some(i + 1)
  }

  /** Leaf Lookup: the value stored with `key`, if the leaf holds it. */
  function LeafLookup(p: Page, key: Key): (r: Option<Rid>)
    requires WellFormedLeaf(p)
    ensures r.Some? <==> key in p.keys
    ensures forall i :: 0 <= i < |p.keys| && p.keys[i] == key ==> r == Some(p.values[i])
  {
    match IndexOf(p.keys, key)
    case None => None
    case Some(i) =>
      assert forall j :: 0 <= j < |p.keys| && p.keys[j] == key ==> j == i;
      Some(p.values[i])
  }

  /** The slot a new key takes: after every key not above it. */
  function InsertPosition(keys: seq<Key>, key: Key): (i: nat)
    ensures i <= |keys|
    ensures forall j :: 0 <= j < i ==> keys[j] <= key
    ensures i < |keys| ==> keys[i] > key
  {
    if |keys| == 0 || keys[0] > key then 0 else 1 + InsertPosition(keys[1..], key)
  }

  /** Leaf Insert: stores `key -> value` at its sorted position and answers
      the new size; a key already present leaves the page as it was and
      the size unchanged (the source checks Lookup first, so this case is
      never taken by the tree). */
  function LeafInsert(p: Page, key: Key, value: Rid): (r: (Page, nat))
    requires WellFormedLeaf(p)
    ensures WellFormedLeaf(r.0) && r.1 == Size(r.0)
    ensures r.0.pageId == p.pageId && r.0.parentPageId == p.parentPageId
    ensures r.0.maxSize == p.maxSize && r.0.nextPageId == p.nextPageId
    ensures key in p.keys ==> r.0 == p
    ensures key !in p.keys ==> r.1 == Size(p) + 1
  {
    if key in p.keys then (p, |p.keys|)
    else
      var i := InsertPosition(p.keys, key);
      var ks := p.keys[..i] + [key] + p.keys[i..];
      assert StrictlySorted(ks) by {
        forall a, b | 0 <= a < b < |ks| ensures ks[a] < ks[b] {
          if b < i || a > i {
          } else if a == i {
            assert ks[b] == p.keys[b - 1];
            assert p.keys[i] > key;
          } else if b == i {
            assert p.keys[a] <= key && p.keys[a] != key;
          } else {
          }
        }
      }
      var q := p.(keys := ks, values := p.values[..i] + [value] + p.values[i..]);
      (q, |ks|)
  }

  /** Where the entries of a leaf go when an absent key is inserted at `i`. */
  lemma LeafInsertEntries(p: Page, key: Key, value: Rid, i: nat)
    requires WellFormedLeaf(p) && key !in p.keys && i == InsertPosition(p.keys, key)
    ensures var q := LeafInsert(p, key, value).0;
      && |q.keys| == |p.keys| + 1 && q.keys[i] == key && q.values[i] == value
      && (forall j :: 0 <= j < i ==> q.keys[j] == p.keys[j] && q.values[j] == p.values[j])
      && (forall j :: i < j < |q.keys| ==> q.keys[j] == p.keys[j - 1] && q.values[j] == p.values[j - 1])
  {
    var q := LeafInsert(p, key, value).0;
    assert q.keys == p.keys[..i] + [key] + p.keys[i..];
    assert q.values == p.values[..i] + [value] + p.values[i..];
  }

  /** After an insert of an absent key, Lookup finds the new value, and
      every other key's lookup is as before. */
  lemma {:induction false} LeafInsertThenLookup(p: Page, key: Key, value: Rid, other: Key)
    requires WellFormedLeaf(p) && key !in p.keys && other != key
    ensures LeafLookup(LeafInsert(p, key, value).0, key) == Some(value)
    ensures LeafLookup(LeafInsert(p, key, value).0, other) == LeafLookup(p, other)
  {
    var q := LeafInsert(p, key, value).0;
    var i := InsertPosition(p.keys, key);
    LeafInsertEntries(p, key, value, i);
    if other in p.keys {
      var j :| 0 <= j < |p.keys| && p.keys[j] == other;
      var j' := if j < i then j else j + 1;
      assert q.keys[j'] == other && q.values[j'] == p.values[j];
    } else {
      assert other !in q.keys by {
        forall j | 0 <= j < |q.keys| ensures q.keys[j] != other {
          if j < i { assert q.keys[j] == p.keys[j]; }
          else if j > i { assert q.keys[j] == p.keys[j - 1]; }
        }
      }
    }
  }


  /** Init for a leaf: empty, with the given id and parent and no successor. */
  function LeafInit(id: PageId, parent: PageId, maxSize: nat): (r: Page)
    ensures WellFormedLeaf(r) && Size(r) == 0 && r.pageId == id && r.parentPageId == parent
    ensures r.nextPageId == INVALID_PAGE_ID
  {
    LeafPage(id, parent, maxSize, [], [], INVALID_PAGE_ID)
  }

  /** Init for an internal page: no children yet. */
  function InternalInit(id: PageId, parent: PageId, maxSize: nat): (r: Page)
    ensures r.InternalPage? && Size(r) == 0 && r.pageId == id && r.parentPageId == parent
  {
    InternalPage(id, parent, maxSize, [], [])
  }

  /** Where MoveHalfTo cuts a page of `n` entries: the donor keeps the
      first half, rounded down. */
  function SplitPoint(n: nat): (s: nat)
    ensures s <= n && (n >= 2 ==> 0 < s < n)
  {
    n / 2
  }

  /** Leaf MoveHalfTo: the upper half of the donor's entries is appended to
      the recipient.  The next-leaf links are left as they are. */
  function LeafMoveHalfTo(donor: Page, recipient: Page): (r: (Page, Page))
    requires WellFormedLeaf(donor) && recipient.LeafPage? && |recipient.keys| == |recipient.values|
    ensures r.0.LeafPage? && r.1.LeafPage?
    ensures |r.0.keys| == |r.0.values| && |r.1.keys| == |r.1.values| >= |recipient.keys|
    ensures r.0.keys + r.1.keys[|recipient.keys|..] == donor.keys
    ensures r.0.values + r.1.values[|recipient.values|..] == donor.values
    ensures r.1.keys[..|recipient.keys|] == recipient.keys
    ensures Size(r.0) == SplitPoint(Size(donor)) && Size(r.1) == Size(recipient) + Size(donor) - SplitPoint(Size(donor))
    ensures r.0.pageId == donor.pageId && r.0.parentPageId == donor.parentPageId
    ensures r.1.pageId == recipient.pageId && r.1.parentPageId == recipient.parentPageId
  {
    var s := SplitPoint(|donor.keys|);
    assert donor.keys[..s] + donor.keys[s..] == donor.keys;
    assert donor.values[..s] + donor.values[s..] == donor.values;
    (donor.(keys := donor.keys[..s], values := donor.values[..s]),
     recipient.(keys := recipient.keys + donor.keys[s..], values := recipient.values + donor.values[s..]))
  }

  lemma SortedSlice(s: seq<Key>, a: nat, b: nat)
    requires StrictlySorted(s) && a <= b <= |s|
    ensures StrictlySorted(s[a..b])
  {
    forall i, j | 0 <= i < j < b - a ensures s[a..b][i] < s[a..b][j] {
      assert s[a..b][i] == s[a + i] && s[a..b][j] == s[a + j];
    }
  }

  /** Moving half of a full leaf into an empty one leaves two well-formed
      leaves, every key of the donor's lower half below every key of the
      recipient's, and splits a leaf of at least two entries into two
      non-empty ones. */
  lemma LeafMoveHalfToSorted(donor: Page, recipient: Page)
    requires WellFormedLeaf(donor) && WellFormedLeaf(recipient) && Size(recipient) == 0
    ensures var d, r := LeafMoveHalfTo(donor, recipient).0, LeafMoveHalfTo(donor, recipient).1;
      && WellFormedLeaf(d) && WellFormedLeaf(r)
      && (forall i, j :: 0 <= i < |d.keys| && 0 <= j < |r.keys| ==> d.keys[i] < r.keys[j])
      && (Size(donor) >= 2 ==> Size(d) >= 1 && Size(r) >= 1)
  {
    var s := SplitPoint(|donor.keys|);
    var d, r := LeafMoveHalfTo(donor, recipient).0, LeafMoveHalfTo(donor, recipient).1;
    assert d.keys == donor.keys[..s] && r.keys == donor.keys[s..];
    SortedSlice(donor.keys, 0, s);
    SortedSlice(donor.keys, s, |donor.keys|);
    assert donor.keys[..s] == donor.keys[0..s] && donor.keys[s..] == donor.keys[s..|donor.keys|];
  }

  // ---------------------------------------------------------------------
  // Internal page
  // ---------------------------------------------------------------------

  /** The scan of internal Lookup from key position `i`: the child before
      the first key greater than `key`, or the last child. */
  function ChildIndexFrom(keys: seq<Key>, key: Key, i: nat): (c: nat)
    requires 1 <= i <= |keys|
    requires forall j :: 1 <= j < i ==> keys[j] <= key
    ensures c < |keys|
    ensures c == 0 || keys[c] <= key
    ensures c + 1 < |keys| ==> key < keys[c + 1]
    decreases |keys| - i
  {
    if i == |keys| then |keys| - 1
    else if keys[i] > key then i - 1
    else ChildIndexFrom(keys, key, i + 1)
  }

  /** The position of the child internal Lookup follows for `key`. */
  function ChildIndex(p: Page, key: Key): (c: nat)
    requires WellFormedInternal(p)
    ensures c < |p.children|
  {
    ChildIndexFrom(p.keys, key, 1)
  }

  /** Internal Lookup: the child whose key range holds `key`. */
  function InternalLookup(p: Page, key: Key): (c: PageId)
    requires WellFormedInternal(p)
    ensures c in p.children
  {
    p.children[ChildIndex(p, key)]
  }

  /** The child Lookup returns covers `key`: it is the child `c` with
      `keys[c] <= key < keys[c+1]`, with no lower bound for the first child
      and no upper bound for the last; in a sorted page no other child does. */
  lemma {:induction false} InternalLookupRange(p: Page, key: Key, c: nat)
    requires WellFormedInternal(p) && c < |p.children|
    ensures c == ChildIndex(p, key) <==>
      (c == 0 || p.keys[c] <= key) && (c + 1 == |p.children| || key < p.keys[c + 1])
  {
  }

  /** InsertNodeAfter: inserts `(key, newId)` right after the entry of
      `oldId` and answers the new size.  A page without `oldId` is left as
      it is (the tree always passes a child of the page). */
  function InsertNodeAfter(p: Page, oldId: PageId, key: Key, newId: PageId): (r: (Page, nat))
    requires p.InternalPage? && |p.keys| == |p.children|
    ensures r.0.InternalPage? && |r.0.keys| == |r.0.children| && r.1 == Size(r.0)
    ensures r.0.pageId == p.pageId && r.0.parentPageId == p.parentPageId && r.0.maxSize == p.maxSize
    ensures oldId !in p.children ==> r.0 == p
    ensures oldId in p.children ==> r.1 == Size(p) + 1
  {
    match IndexOf(p.children, oldId)
    case None => (p, |p.children|)
    case Some(i) =>
      var q := p.(keys := p.keys[..i + 1] + [key] + p.keys[i + 1..],
                  children := p.children[..i + 1] + [newId] + p.children[i + 1..]);
      (q, |q.children|)
  }

  /** InsertNodeAfter places the new child directly after the old one, the
      key beside it, and keeps every other entry in order. */
  lemma InsertNodeAfterPlacement(p: Page, oldId: PageId, key: Key, newId: PageId)
    requires p.InternalPage? && |p.keys| == |p.children| && oldId in p.children
    ensures var q := InsertNodeAfter(p, oldId, key, newId).0;
      var i := IndexOf(p.children, oldId).value;
      && q.children[i] == oldId && q.children[i + 1] == newId && q.keys[i + 1] == key
      && q.children[..i + 1] + q.children[i + 2..] == p.children
      && q.keys[..i + 1] + q.keys[i + 2..] == p.keys
  {
    var i := IndexOf(p.children, oldId).value;
    SpliceAfter(p.children, i, newId);
    SpliceAfter(p.keys, i, key);
    assert InsertNodeAfter(p, oldId, key, newId).0
        == p.(keys := p.keys[..i + 1] + [key] + p.keys[i + 1..],
              children := p.children[..i + 1] + [newId] + p.children[i + 1..]);
  }

  /** `x` spliced in after position `i` of `s` sits at `i + 1`, and taking
      it out again gives `s`. */
  lemma SpliceAfter<T>(s: seq<T>, i: nat, x: T)
    requires i < |s|
    ensures var t := s[..i + 1] + [x] + s[i + 1..];
      && |t| == |s| + 1 && t[i] == s[i] && t[i + 1] == x && t[..i + 1] + t[i + 2..] == s
  {
    var t := s[..i + 1] + [x] + s[i + 1..];
    assert t[..i + 1] == s[..i + 1];
    assert t[i + 2..] == s[i + 1..];
  }

  /** PopulateNewRoot: the two children `left` and `right` separated by
      `key`.  The unused first key is 0, as on a zeroed page. */
  function PopulateNewRoot(p: Page, left: PageId, key: Key, right: PageId): (r: Page)
    requires p.InternalPage?
    ensures WellFormedInternal(r) && Size(r) == 2 && r.children == [left, right]
    ensures r.pageId == p.pageId && r.parentPageId == p.parentPageId
  {
    p.(keys := [0, key], children := [left, right])
  }

  /** A new root routes keys below the separator to the left child and the
      others to the right child. */
  lemma NewRootRouting(p: Page, left: PageId, key: Key, right: PageId, k: Key)
    requires p.InternalPage?
    ensures InternalLookup(PopulateNewRoot(p, left, key, right), k) == (if k < key then left else right)
  {
  }

  /** Internal MoveHalfTo on the two pages: the upper half of the donor's
      children, with their keys, is appended to the recipient. */
  function InternalMoveHalfTo(donor: Page, recipient: Page): (r: (Page, Page))
    requires donor.InternalPage? && |donor.keys| == |donor.children|
    requires recipient.InternalPage? && |recipient.keys| == |recipient.children|
    ensures r.0.InternalPage? && r.1.InternalPage?
    ensures |r.0.keys| == |r.0.children| && |r.1.keys| == |r.1.children| >= |recipient.children|
    ensures r.0.children + r.1.children[|recipient.children|..] == donor.children
    ensures r.0.keys + r.1.keys[|recipient.keys|..] == donor.keys
    ensures r.1.children[..|recipient.children|] == recipient.children
    ensures Size(r.0) == SplitPoint(Size(donor))
    ensures r.0.pageId == donor.pageId && r.0.parentPageId == donor.parentPageId
    ensures r.1.pageId == recipient.pageId && r.1.parentPageId == recipient.parentPageId
  {
    var s := SplitPoint(|donor.children|);
    assert donor.keys[..s] + donor.keys[s..] == donor.keys;
    assert donor.children[..s] + donor.children[s..] == donor.children;
    (donor.(keys := donor.keys[..s], children := donor.children[..s]),
     recipient.(keys := recipient.keys + donor.keys[s..], children := recipient.children + donor.children[s..]))
  }

  /** The page store after internal MoveHalfTo re-parents every moved
      child to the recipient (the fetch and dirty unpin of each child go
      through the buffer pool inside the page class). */
  function Reparented(pages: map<PageId, Page>, moved: seq<PageId>, parent: PageId): (r: map<PageId, Page>)
    ensures r.Keys == pages.Keys
    ensures forall id :: id in pages && id in moved && IsTreePage(pages[id]) ==> r[id] == WithParent(pages[id], parent)
    ensures forall id :: id in pages && (id !in moved || !IsTreePage(pages[id])) ==> r[id] == pages[id]
  {
    map id | id in pages :: if id in moved && IsTreePage(pages[id]) then WithParent(pages[id], parent) else pages[id]
  }

  /** A page keeps its entries through the re-parenting; at most its
      parent changes. */
  lemma ReparentedEntries(pages: map<PageId, Page>, moved: seq<PageId>, parent: PageId, id: PageId)
    requires id in pages && pages[id].InternalPage?
    ensures var r := Reparented(pages, moved, parent);
      && r[id].InternalPage? && r[id].pageId == pages[id].pageId
      && r[id].keys == pages[id].keys && r[id].children == pages[id].children
  {
  }

  // ---------------------------------------------------------------------
  // Header page
  // ---------------------------------------------------------------------

  /** HeaderPage InsertRecord: adds a record for a name not yet registered. */
  function InsertRecord(p: Page, name: string, root: PageId): (r: Page)
    requires p.HeaderPage?
    ensures r.HeaderPage?
    ensures name !in p.records ==> r.records == p.records[name := root]
    ensures name in p.records ==> r == p
  {
    if name in p.records then p else p.(records := p.records[name := root])
  }

  /** HeaderPage UpdateRecord: changes the record of a registered name. */
  function UpdateRecord(p: Page, name: string, root: PageId): (r: Page)
    requires p.HeaderPage?
    ensures r.HeaderPage?
    ensures name in p.records ==> r.records == p.records[name := root]
    ensures name !in p.records ==> r == p
  {
    if name in p.records then p.(records := p.records[name := root]) else p
  }
}
