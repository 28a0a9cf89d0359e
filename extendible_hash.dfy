/**
 * The extendible hash table that the buffer pool uses as its page table
 * (src/include/hash/extendible_hash.h, src/hash/extendible_hash.cpp).
 *
 * The directory is a vector of shared bucket pointers: several slots may
 * point at one bucket, and a change made through one slot is seen through
 * all of them.  The model keeps the buckets in an arena (`buckets`, a
 * sequence of Bucket objects) and the directory as a sequence of arena
 * indices, so the aliasing of the source is the aliasing of indices.
 *
 * The table is specified in two layers.  `TableView` is the value of the
 * whole table (depth, directory, one `BucketView` per arena bucket, the
 * bucket counter); the functions FindSpec, RemoveSpec, SplitSpec and
 * InsertSpec say what each operation of the source does to that value,
 * and the lemmas below prove what the source promises about them.  The
 * class ExtendibleHash holds the mutable state, and each of its methods is
 * proved to move its View() exactly as the matching function says.
 *
 * std::hash is not visible; the table takes its hash function as a
 * constant `hashKey: K -> nat` chosen at construction.
 */
module ExtendibleHashing {
  import opened Options

  /** 2 to the power n. */
  function Pow2(n: nat): (r: nat)
    ensures r >= 1
  {
    if n == 0 then 1 else 2 * Pow2(n - 1)
  }

  /** GetBucketIndexFromHash (cpp:36-40): `hash & ((1 << depth) - 1)`, the
      low `depth` bits of the hash, taken one bit at a time. */
  function BucketIndex(hash: nat, depth: nat): (n: nat)
    ensures n < Pow2(depth)
  {
    if depth == 0 then 0 else 2 * BucketIndex(hash / 2, depth - 1) + hash % 2
  }

  /** Euclidean division has one remainder. */
  lemma {:induction false} ModUnique(h: nat, q: nat, m: nat, s: nat)
    requires m > 0 && h == q * m + s && s < m
    ensures h % m == s
  {
    var q', s' := h / m, h % m;
    if q' >= q {
      assert (q' - q) * m == s - s';
      SmallMultiple(q' - q, m);
    } else {
      assert (q - q') * m == s' - s;
      SmallMultiple(q - q', m);
    }
  }

  /** A multiple of m below m is 0. */
  lemma {:induction false} SmallMultiple(k: nat, m: nat)
    requires k * m < m
    ensures k == 0
  {
    if k >= 1 {
      MulAtLeast(k, m);
    }
  }

  lemma {:induction false} MulAtLeast(k: nat, m: nat)
    requires k >= 1
    ensures k * m >= m
    decreases k
  {
    if k > 1 {
      MulAtLeast(k - 1, m);
      assert k * m == (k - 1) * m + m;
    }
  }

  /** The hash without its low `depth` bits. */
  function HighBits(hash: nat, depth: nat): nat
  {
    if depth == 0 then hash else HighBits(hash / 2, depth - 1)
  }

  /** The low bits and the high bits make up the hash. */
  lemma {:induction false} LowHighSplit(h: nat, d: nat)
    ensures h == Pow2(d) * HighBits(h, d) + BucketIndex(h, d)
  {
    if d > 0 {
      LowHighSplit(h / 2, d - 1);
      Recombine(h, h / 2, h % 2, Pow2(d), Pow2(d - 1), HighBits(h / 2, d - 1), BucketIndex(h / 2, d - 1));
    }
  }

  /** One step of LowHighSplit, on plain numbers. */
  lemma Recombine(h: nat, half: nat, bit: nat, pow: nat, p: nat, high: nat, low: nat)
    requires h == 2 * half + bit && half == p * high + low && pow == 2 * p
    ensures h == pow * high + (2 * low + bit)
  {
  }

  /** The bit-by-bit index is the hash modulo 2^depth: the directory slot
      the source computes with a mask. */
  lemma BucketIndexIsMod(h: nat, d: nat)
    ensures BucketIndex(h, d) == h % Pow2(d)
  {
    LowHighSplit(h, d);
    ModUnique(h, HighBits(h, d), Pow2(d), BucketIndex(h, d));
  }

  /** One more index bit either keeps the slot or adds 2^depth to it: the
      low `depth` bits of the longer index are the shorter index. */
  lemma {:induction false} LowBitsExtend(h: nat, d: nat)
    ensures BucketIndex(h, d + 1) == BucketIndex(h, d)
         || BucketIndex(h, d + 1) == BucketIndex(h, d) + Pow2(d)
  {
    if d > 0 {
      LowBitsExtend(h / 2, d - 1);
    }
  }

  /** Directory doubling preserves index correctness (cpp:134-141): after
      the directory is appended to itself and one more hash bit is used,
      every hash reaches the same bucket as before. */
  lemma {:induction false} DoublingKeepsLookups(dir: seq<nat>, d: nat, h: nat)
    requires |dir| == Pow2(d)
    ensures |dir + dir| == Pow2(d + 1)
    ensures (dir + dir)[BucketIndex(h, d + 1)] == dir[BucketIndex(h, d)]
  {
    LowBitsExtend(h, d);
  }

  // ---------------------------------------------------------------------
  // Value of the table
  // ---------------------------------------------------------------------

  /** The fields of one Bucket (h:49-54). */
  datatype BucketView<K(==), V> = BucketView(capacity: nat, localDepth: nat, id: nat, dataMap: map<K, V>)

  /** The fields of the table: mDepth, mDirectory (arena indices), the
      buckets the pointers refer to, and mBucketCount. */
  datatype TableView<K(==), V> = TableView(depth: nat, directory: seq<nat>, buckets: seq<BucketView<K, V>>, bucketCount: nat)

  /** What indexing needs: 2^depth slots, each naming an arena bucket. */
  ghost predicate Indexable<K, V>(t: TableView<K, V>)
  {
    && |t.directory| == Pow2(t.depth)
    && (forall i :: 0 <= i < |t.directory| ==> t.directory[i] < |t.buckets|)
  }

  /** The invariant the table keeps: global depth at least 1, every arena
      bucket with local depth between 1 and the global depth, an id that
      names a slot, the table-wide capacity, and a counter equal to the
      number of buckets ever created. */
  ghost predicate ValidTable<K, V>(t: TableView<K, V>, bucketDataSize: nat)
  {
    && t.depth >= 1
    && Indexable(t)
    && (forall j :: 0 <= j < |t.buckets| ==>
          && t.buckets[j].capacity == bucketDataSize
          && 1 <= t.buckets[j].localDepth <= t.depth
          && t.buckets[j].id < |t.directory|)
    && t.bucketCount == |t.buckets|
  }

  /** The table the constructor builds (cpp:20-25): depth 1 and two buckets
      of local depth 1 with ids 0 and 1, one per slot. */
  function InitialTable<K(==), V>(bucketDataSize: nat): TableView<K, V>
  {
    TableView(1, [0, 1],
              [BucketView(bucketDataSize, 1, 0, map[]), BucketView(bucketDataSize, 1, 1, map[])],
              2)
  }

  /** The arena index of the bucket the slot of `key` points at. */
  function SlotBucket<K(==), V>(t: TableView<K, V>, hash: K -> nat, key: K): (b: nat)
    requires Indexable(t)
    ensures b < |t.buckets|
  {
    t.directory[BucketIndex(hash(key), t.depth)]
  }

  /** Find (cpp:94-106): the value stored for `key` in its slot's bucket. */
  function FindSpec<K(==), V>(t: TableView<K, V>, hash: K -> nat, key: K): Option<V>
    requires Indexable(t)
  {
    var m := t.buckets[SlotBucket(t, hash, key)].dataMap;
    if key in m then Some(m[key]) else None
  }

  /** The table with the entries of arena bucket `b` replaced by `m`. */
  function WithEntries<K(==), V>(t: TableView<K, V>, b: nat, m: map<K, V>): TableView<K, V>
    requires b < |t.buckets|
  {
    t.(buckets := t.buckets[b := t.buckets[b].(dataMap := m)])
  }

  /** Remove (cpp:113-125): erase `key` from its slot's bucket if it is there. */
  function RemoveSpec<K(==), V>(t: TableView<K, V>, hash: K -> nat, key: K): (bool, TableView<K, V>)
    requires Indexable(t)
  {
    var b := SlotBucket(t, hash, key);
    var m := t.buckets[b].dataMap;
    if key in m then (true, WithEntries(t, b, m - {key})) else (false, t)
  }

  /** The entries of a split bucket that stay: their index under the new
      depth equals the bucket's id (cpp:158-160). */
  function KeptEntries<K(==), V>(m: map<K, V>, hash: K -> nat, depth: nat, id: nat): map<K, V>
  {
    map k | k in m && BucketIndex(hash(k), depth) == id :: m[k]
  }

  /** The entries of a split bucket that move to the new bucket (cpp:160-165). */
  function MovedEntries<K(==), V>(m: map<K, V>, hash: K -> nat, depth: nat, id: nat): map<K, V>
  {
    map k | k in m && BucketIndex(hash(k), depth) != id :: m[k]
  }

  /** The directory doubling of cpp:129-141: the directory appended to
      itself and one more hash bit in use. */
  function DoubledTable<K(==), V>(t: TableView<K, V>): TableView<K, V>
  {
    t.(depth := t.depth + 1, directory := t.directory + t.directory)
  }

  /** The table with the local depth of arena bucket `b` set to `d`. */
  function WithLocalDepth<K(==), V>(t: TableView<K, V>, b: nat, d: nat): TableView<K, V>
    requires b < |t.buckets|
  {
    t.(buckets := t.buckets[b := t.buckets[b].(localDepth := d)])
  }

  /** The table with bucket `nb` appended to the arena, slot `slot`
      pointing at it, and the bucket counter incremented (cpp:155-156). */
  function WithNewBucket<K(==), V>(t: TableView<K, V>, slot: nat, nb: BucketView<K, V>): TableView<K, V>
    requires slot < |t.directory|
  {
    t.(directory := t.directory[slot := |t.buckets|], buckets := t.buckets + [nb], bucketCount := t.bucketCount + 1)
  }

  /** Split (cpp:127-167) on the value of the table, step by step as the
      source does it: doubling when the local depth equals the global depth,
      the local depth increment, the new empty bucket at slot
      `mId + len/2`, and the move of the entries whose new index is not the
      split bucket's id.  The first component says whether that slot lies
      inside the directory; when it does not, the source writes past the
      end of the vector, and the model stops there, after the doubling and
      the local depth increment that precede the write. */
  function SplitSpec<K(==), V>(t: TableView<K, V>, hash: K -> nat, index: nat, bucketDataSize: nat): (bool, TableView<K, V>)
    requires Indexable(t) && index < |t.directory|
  {
    var bi := t.directory[index];
    var b := t.buckets[bi];
    var t1 := if b.localDepth == t.depth then DoubledTable(t) else t;
    var t2 := WithLocalDepth(t1, bi, b.localDepth + 1);
    var newId := b.id + |t2.directory| / 2;
    if newId >= |t2.directory| then
      (false, t2)
    else
      var t3 := WithNewBucket(t2, newId, BucketView(bucketDataSize, b.localDepth + 1, newId, map[]));
      var si := t3.directory[b.id];
      var src := t3.buckets[si];
      var t4 := WithEntries(t3, si, KeptEntries(src.dataMap, hash, t3.depth, src.id));
      (true, WithEntries(t4, |t2.buckets|, MovedEntries(src.dataMap, hash, t3.depth, src.id)))
  }

  /** The first two steps of SplitSpec: the optional doubling and the
      local depth increment of the split bucket. */
  function SplitGrown<K(==), V>(t: TableView<K, V>, index: nat): TableView<K, V>
    requires Indexable(t) && index < |t.directory|
  {
    var bi := t.directory[index];
    var b := t.buckets[bi];
    WithLocalDepth(if b.localDepth == t.depth then DoubledTable(t) else t, bi, b.localDepth + 1)
  }

  lemma SplitSpecSteps<K, V>(t: TableView<K, V>, hash: K -> nat, index: nat, bucketDataSize: nat)
    requires Indexable(t) && index < |t.directory|
    ensures var b := t.buckets[t.directory[index]];
      var t2 := SplitGrown(t, index);
      var newId := b.id + |t2.directory| / 2;
      if newId >= |t2.directory| then SplitSpec(t, hash, index, bucketDataSize) == (false, t2)
      else
        var t3 := WithNewBucket(t2, newId, BucketView(bucketDataSize, b.localDepth + 1, newId, map[]));
        && b.id < |t3.directory| && t3.directory[b.id] < |t3.buckets|
        && var si := t3.directory[b.id];
           var src := t3.buckets[si];
           SplitSpec(t, hash, index, bucketDataSize)
             == (true, WithEntries(WithEntries(t3, si, KeptEntries(src.dataMap, hash, t3.depth, src.id)),
                                   |t2.buckets|, MovedEntries(src.dataMap, hash, t3.depth, src.id)))
  {
  }

  /** How an Insert ended.  The source returns nothing; the outcome names
      the branch it took: stored at once (cpp:191-192), stored after one
      split (cpp:207-208), split a second time without storing the key
      (cpp:210-214), or stopped at a split whose new slot lies outside the
      directory. */
  datatype InsertOutcome = Stored | StoredAfterSplit | SplitAgain | SlotOutOfRange

  /** Insert (cpp:174-217) on the value of the table. */
  function InsertSpec<K(==), V>(t: TableView<K, V>, hash: K -> nat, key: K, value: V, bucketDataSize: nat): (InsertOutcome, TableView<K, V>)
    requires Indexable(t)
  {
    var index := BucketIndex(hash(key), t.depth);
    var b := t.directory[index];
    var m := t.buckets[b].dataMap;
    if |m| < bucketDataSize then
      (Stored, WithEntries(t, b, m[key := value]))
    else
      var (inRange, t1) := SplitSpec(t, hash, index, bucketDataSize);
      if !inRange then (SlotOutOfRange, t1)
      else
        SplitPreservesIndexable(t, hash, index, bucketDataSize);
        RetrySpec(t1, hash, key, value, bucketDataSize)
  }

  /** The second attempt of Insert, after the first split (cpp:196-214):
      store if the key's bucket now has room, otherwise split once more
      and give up on the key. */
  function RetrySpec<K(==), V>(t: TableView<K, V>, hash: K -> nat, key: K, value: V, bucketDataSize: nat): (InsertOutcome, TableView<K, V>)
    requires Indexable(t)
  {
    var index := BucketIndex(hash(key), t.depth);
    var b := t.directory[index];
    var m := t.buckets[b].dataMap;
    if |m| < bucketDataSize then
      (StoredAfterSplit, WithEntries(t, b, m[key := value]))
    else
      var (inRange, t1) := SplitSpec(t, hash, index, bucketDataSize);
      (if inRange then SplitAgain else SlotOutOfRange, t1)
  }

  /** GetLocalDepth (cpp:56-71): -1 for a slot outside the directory or a
      slot whose bucket is empty, otherwise that bucket's local depth. */
  function LocalDepthSpec<K(==), V>(t: TableView<K, V>, slot: int): int
    requires Indexable(t)
  {
    if slot < 0 || slot >= |t.directory| then -1
    else if |t.buckets[t.directory[slot]].dataMap| == 0 then -1
    else t.buckets[t.directory[slot]].localDepth
  }

  /** The bucket of slot `i` holds at least one entry. */
  predicate SlotInUse<K, V>(t: TableView<K, V>, i: nat)
    requires Indexable(t) && i < |t.directory|
  {
    |t.buckets[t.directory[i]].dataMap| > 0
  }

  /** One flag per directory slot: whether its bucket holds an entry. */
  function UsedFlags<K, V>(t: TableView<K, V>): (f: seq<bool>)
    requires Indexable(t)
    ensures |f| == |t.directory|
    ensures forall i :: 0 <= i < |f| ==> f[i] == SlotInUse(t, i)
  {
    seq(|t.directory|, i requires 0 <= i < |t.directory| => SlotInUse(t, i))
  }

  /** The positions below `n` whose flag is set. */
  ghost function SetBelow(f: seq<bool>, n: nat): set<nat>
    requires n <= |f|
  {
    set i: nat | i < n && f[i]
  }

  /** The number of flags set below `n`, counted one position at a time. */
  function CountBelow(f: seq<bool>, n: nat): nat
    requires n <= |f|
  {
    if n == 0 then 0 else CountBelow(f, n - 1) + (if f[n - 1] then 1 else 0)
  }

  lemma SetBelowStep(f: seq<bool>, i: nat)
    requires i < |f|
    ensures SetBelow(f, i + 1) == SetBelow(f, i) + (if f[i] then {i} else {})
    ensures i !in SetBelow(f, i)
  {
  }

  /** Counting flag by flag gives the size of the set of flagged positions. */
  lemma {:induction false} CountBelowIsSize(f: seq<bool>, n: nat)
    requires n <= |f|
    ensures CountBelow(f, n) == |SetBelow(f, n)|
  {
    if n > 0 {
      CountBelowIsSize(f, n - 1);
      SetBelowStep(f, n - 1);
    } else {
      assert SetBelow(f, 0) == {};
    }
  }

  /** The directory slots whose bucket holds at least one entry. */
  ghost function NonEmptySlots<K, V>(t: TableView<K, V>): set<nat>
    requires Indexable(t)
  {
    SetBelow(UsedFlags(t), |t.directory|)
  }

  // ---------------------------------------------------------------------
  // Properties of the operations
  // ---------------------------------------------------------------------

  /** Construction yields global depth 1 and a directory of two distinct
      buckets with local depth 1 and ids 0 and 1 (cpp:20-25). */
  lemma InitialTableShape<K, V>(bucketDataSize: nat)
    ensures var t: TableView<K, V> := InitialTable(bucketDataSize);
      && ValidTable(t, bucketDataSize)
      && t.depth == 1 && |t.directory| == 2 && t.directory[0] != t.directory[1]
      && t.buckets[t.directory[0]].id == 0 && t.buckets[t.directory[1]].id == 1
      && t.buckets[t.directory[0]].localDepth == 1 && t.buckets[t.directory[1]].localDepth == 1
      && t.buckets[0].dataMap == map[] && t.buckets[1].dataMap == map[]
  {
    assert Pow2(1) == 2;
  }

  /** The split keeps the directory length 2^depth and every slot inside the arena. */
  lemma SplitPreservesIndexable<K, V>(t: TableView<K, V>, hash: K -> nat, index: nat, bucketDataSize: nat)
    requires Indexable(t) && index < |t.directory|
    ensures Indexable(SplitSpec(t, hash, index, bucketDataSize).1)
  {
    assert Pow2(t.depth + 1) == 2 * Pow2(t.depth);
  }

  /** Split keeps the table invariant: in particular no local depth ever
      exceeds the global depth, and the counter tracks the bucket count. */
  lemma {:induction false} SplitPreservesValid<K, V>(t: TableView<K, V>, hash: K -> nat, index: nat, bucketDataSize: nat)
    requires ValidTable(t, bucketDataSize) && index < |t.directory|
    ensures ValidTable(SplitSpec(t, hash, index, bucketDataSize).1, bucketDataSize)
  {
    assert Pow2(t.depth + 1) == 2 * Pow2(t.depth);
  }

  /** The directory doubles exactly when the overflowing bucket's local
      depth equals the global depth; then its length doubles, the depth
      grows by one, and every slot `i + oldLen` refers to the bucket of slot
      `i`, except the one slot the split rewires (cpp:129-141).  Without
      doubling only that slot changes (cpp:148-154).  The split bucket's
      local depth grows by one (cpp:147). */
  lemma SplitDirectory<K, V>(t: TableView<K, V>, hash: K -> nat, index: nat, bucketDataSize: nat)
    requires ValidTable(t, bucketDataSize) && index < |t.directory|
    ensures var (inRange, t') := SplitSpec(t, hash, index, bucketDataSize);
      var b := t.buckets[t.directory[index]];
      var n := |t.directory|;
      var newSlot := b.id + |t'.directory| / 2;
      && t'.buckets[t.directory[index]].localDepth == b.localDepth + 1
      && (b.localDepth == t.depth ==>
            && t'.depth == t.depth + 1 && |t'.directory| == 2 * n
            && (forall i :: 0 <= i < n && i != newSlot ==> t'.directory[i] == t.directory[i])
            && (forall i :: 0 <= i < n && i + n != newSlot ==> t'.directory[i + n] == t.directory[i]))
      && (b.localDepth != t.depth ==>
            && t'.depth == t.depth && |t'.directory| == n
            && (forall i :: 0 <= i < n && i != newSlot ==> t'.directory[i] == t.directory[i]))
      && inRange == (newSlot < |t'.directory|)
      && (inRange ==> t'.directory[newSlot] == |t.buckets| && t'.directory[newSlot] == |t'.buckets| - 1)
  {
    assert Pow2(t.depth + 1) == 2 * Pow2(t.depth);
  }

  /** The new bucket of a split (cpp:146-155): it is appended to the arena,
      has the incremented local depth and id `mId + len/2`, and receives
      exactly the entries of the source bucket whose new index is not the
      source's id; the source keeps the others; no entry is lost or
      duplicated, and every other bucket keeps its entries (cpp:157-166). */
  lemma {:induction false} SplitPartition<K, V>(t: TableView<K, V>, hash: K -> nat, index: nat, bucketDataSize: nat)
    requires ValidTable(t, bucketDataSize) && index < |t.directory|
    requires SplitSpec(t, hash, index, bucketDataSize).0
    ensures var t' := SplitSpec(t, hash, index, bucketDataSize).1;
      var b := t.buckets[t.directory[index]];
      var si := t.directory[b.id];
      var old_ := t.buckets[si].dataMap;
      var nb := t'.buckets[|t.buckets|];
      && |t'.buckets| == |t.buckets| + 1
      && nb.localDepth == b.localDepth + 1 && nb.id == b.id + |t'.directory| / 2
      && nb.dataMap.Keys !! t'.buckets[si].dataMap.Keys
      && nb.dataMap.Keys + t'.buckets[si].dataMap.Keys == old_.Keys
      && (forall k :: k in nb.dataMap ==> nb.dataMap[k] == old_[k] && BucketIndex(hash(k), t'.depth) != t.buckets[si].id)
      && (forall k :: k in t'.buckets[si].dataMap ==> t'.buckets[si].dataMap[k] == old_[k] && BucketIndex(hash(k), t'.depth) == t.buckets[si].id)
      && (forall j :: 0 <= j < |t.buckets| && j != si ==> t'.buckets[j].dataMap == t.buckets[j].dataMap)
  {
    var t' := SplitSpec(t, hash, index, bucketDataSize).1;
    var b := t.buckets[t.directory[index]];
    var doubled := b.localDepth == t.depth;
    var dir1 := if doubled then t.directory + t.directory else t.directory;
    assert dir1[b.id] == t.directory[b.id];
  }

  /** Insert into a bucket holding fewer than mBucketDataSize entries stores
      `key -> value` there and changes nothing else: no split, the same
      depth and directory, every other key found as before (cpp:188-195). */
  lemma InsertWithoutSplit<K, V>(t: TableView<K, V>, hash: K -> nat, key: K, value: V, bucketDataSize: nat, other: K)
    requires ValidTable(t, bucketDataSize)
    requires |t.buckets[SlotBucket(t, hash, key)].dataMap| < bucketDataSize
    requires other != key
    ensures var (outcome, t') := InsertSpec(t, hash, key, value, bucketDataSize);
      && outcome == Stored
      && t'.depth == t.depth && t'.directory == t.directory && |t'.buckets| == |t.buckets|
      && FindSpec(t', hash, key) == Some(value)
      && FindSpec(t', hash, other) == FindSpec(t, hash, other)
  {
  }

  /** After an Insert that stored the key, with or without a split, Find
      returns the inserted value (cpp:191-192, 207-208). */
  lemma {:induction false} InsertThenFind<K, V>(t: TableView<K, V>, hash: K -> nat, key: K, value: V, bucketDataSize: nat)
    requires ValidTable(t, bucketDataSize)
    ensures var (outcome, t') := InsertSpec(t, hash, key, value, bucketDataSize);
      && Indexable(t')
      && (outcome == Stored || outcome == StoredAfterSplit ==> FindSpec(t', hash, key) == Some(value))
  {
    var index := BucketIndex(hash(key), t.depth);
    if |t.buckets[t.directory[index]].dataMap| >= bucketDataSize {
      SplitPreservesValid(t, hash, index, bucketDataSize);
      var (inRange, t1) := SplitSpec(t, hash, index, bucketDataSize);
      if inRange {
        var index2 := BucketIndex(hash(key), t1.depth);
        if |t1.buckets[t1.directory[index2]].dataMap| >= bucketDataSize {
          SplitPreservesValid(t1, hash, index2, bucketDataSize);
        }
      }
    }
  }

  /** Insert keeps the table invariant, and the global depth never
      decreases: it grows by at most one per split, two per Insert
      (cpp:196-214). */
  lemma {:induction false} InsertPreservesValid<K, V>(t: TableView<K, V>, hash: K -> nat, key: K, value: V, bucketDataSize: nat)
    requires ValidTable(t, bucketDataSize)
    ensures var t' := InsertSpec(t, hash, key, value, bucketDataSize).1;
      ValidTable(t', bucketDataSize) && t.depth <= t'.depth <= t.depth + 2
  {
    var index := BucketIndex(hash(key), t.depth);
    if |t.buckets[t.directory[index]].dataMap| >= bucketDataSize {
      SplitPreservesValid(t, hash, index, bucketDataSize);
      var (inRange, t1) := SplitSpec(t, hash, index, bucketDataSize);
      if inRange {
        var index2 := BucketIndex(hash(key), t1.depth);
        if |t1.buckets[t1.directory[index2]].dataMap| >= bucketDataSize {
          SplitPreservesValid(t1, hash, index2, bucketDataSize);
        }
      }
    }
  }

  /** No bucket of the table holds `key`. */
  ghost predicate KeyAbsent<K, V>(t: TableView<K, V>, key: K)
  {
    forall j :: 0 <= j < |t.buckets| ==> key !in t.buckets[j].dataMap
  }

  /** A split only moves entries between buckets: a key that no bucket
      held before is held by no bucket afterwards. */
  lemma SplitAddsNoKey<K, V>(t: TableView<K, V>, hash: K -> nat, index: nat, bucketDataSize: nat, key: K)
    requires ValidTable(t, bucketDataSize) && index < |t.directory|
    requires KeyAbsent(t, key)
    ensures KeyAbsent(SplitSpec(t, hash, index, bucketDataSize).1, key)
  {
    SplitSpecSteps(t, hash, index, bucketDataSize);
    if SplitSpec(t, hash, index, bucketDataSize).0 {
      SplitPartition(t, hash, index, bucketDataSize);
    }
  }

  /** When the target bucket is still full after the first split, Insert
      splits again and does not store the key (cpp:210-214): Insert's
      final table is the second split, and a key that no bucket held
      before is still held by none, so Find does not answer it. */
  lemma {:induction false} SecondOverflowDropsKey<K, V>(t: TableView<K, V>, hash: K -> nat, key: K, value: V, bucketDataSize: nat)
    requires ValidTable(t, bucketDataSize)
    requires InsertSpec(t, hash, key, value, bucketDataSize).0 == SplitAgain
    ensures var index := BucketIndex(hash(key), t.depth);
      var (inRange, t1) := SplitSpec(t, hash, index, bucketDataSize);
      && inRange && Indexable(t1)
      && |t1.buckets[SlotBucket(t1, hash, key)].dataMap| >= bucketDataSize
      && InsertSpec(t, hash, key, value, bucketDataSize).1
           == SplitSpec(t1, hash, BucketIndex(hash(key), t1.depth), bucketDataSize).1
    ensures var t' := InsertSpec(t, hash, key, value, bucketDataSize).1;
      && Indexable(t')
      && (KeyAbsent(t, key) ==> KeyAbsent(t', key) && FindSpec(t', hash, key) == None)
  {
    var index := BucketIndex(hash(key), t.depth);
    SplitPreservesIndexable(t, hash, index, bucketDataSize);
    SplitPreservesValid(t, hash, index, bucketDataSize);
    var t1 := SplitSpec(t, hash, index, bucketDataSize).1;
    var index1 := BucketIndex(hash(key), t1.depth);
    SplitPreservesIndexable(t1, hash, index1, bucketDataSize);
    if KeyAbsent(t, key) {
      SplitAddsNoKey(t, hash, index, bucketDataSize, key);
      SplitAddsNoKey(t1, hash, index1, bucketDataSize, key);
    }
  }

  /** Remove answers whether the key was in its slot's bucket and erases
      only that entry; depth, directory and every other key's lookup are
      unchanged, and the table invariant holds (cpp:113-125). */
  lemma RemoveSpecProperties<K, V>(t: TableView<K, V>, hash: K -> nat, key: K, bucketDataSize: nat, other: K)
    requires ValidTable(t, bucketDataSize)
    requires other != key
    ensures var (found, t') := RemoveSpec(t, hash, key);
      && ValidTable(t', bucketDataSize)
      && found == FindSpec(t, hash, key).Some?
      && t'.depth == t.depth && t'.directory == t.directory && |t'.buckets| == |t.buckets|
      && FindSpec(t', hash, key) == None
      && FindSpec(t', hash, other) == FindSpec(t, hash, other)
      && (forall j :: 0 <= j < |t.buckets| ==>
            (t'.buckets[j].dataMap == t.buckets[j].dataMap - {key} || t'.buckets[j] == t.buckets[j]))
  {
  }

  /** Slots share buckets as `shared_ptr`s do (h:66): a store made through
      the key's slot is seen through another slot exactly when that slot
      refers to the same bucket, and the buckets seen through the other
      slots are unchanged.  The directory itself is not touched. */
  lemma StoreVisibleThroughAliases<K, V>(t: TableView<K, V>, hash: K -> nat, key: K, value: V, bucketDataSize: nat, other: nat)
    requires ValidTable(t, bucketDataSize)
    requires |t.buckets[SlotBucket(t, hash, key)].dataMap| < bucketDataSize
    requires other < |t.directory| && other != BucketIndex(hash(key), t.depth)
    ensures var t' := InsertSpec(t, hash, key, value, bucketDataSize).1;
      var slot := BucketIndex(hash(key), t.depth);
      && t'.directory == t.directory
      && (t.directory[other] == t.directory[slot] ==>
            t'.buckets[t'.directory[other]].dataMap == t.buckets[t.directory[other]].dataMap[key := value])
      && (t.directory[other] != t.directory[slot] ==>
            t'.buckets[t'.directory[other]] == t.buckets[t.directory[other]])
  {
  }

  /** GetLocalDepth answers -1 or a depth between 1 and the global depth. */
  lemma LocalDepthBounds<K, V>(t: TableView<K, V>, bucketDataSize: nat, slot: int)
    requires ValidTable(t, bucketDataSize)
    ensures var d := LocalDepthSpec(t, slot); d == -1 || 1 <= d <= t.depth
    ensures LocalDepthSpec(t, slot) == -1 <==> slot < 0 || slot >= |t.directory| || |t.buckets[t.directory[slot]].dataMap| == 0
  {
  }

  // ---------------------------------------------------------------------
  // A split that does not double the directory
  // ---------------------------------------------------------------------

  /** The hash the example below uses: every key is its own hash. */
  const KeyHash: nat -> nat := (k: nat) => k

  /** A bucket of the example, of capacity 2. */
  function Bucket2(localDepth: nat, id: nat, m: map<nat, nat>): BucketView<nat, nat>
  {
    BucketView(2, localDepth, id, m)
  }

  /** The tables that inserting 0, 2, 4, 8, 3 and 7 in that order, each
      with the value key + 100, builds from InitialTable(2).  Each is named
      by the keys inserted so far; a `SplitFor…` table is the one between
      the first split of an Insert and its retry. */
  function TableAfter0(): TableView<nat, nat>
  {
    TableView(1, [0, 1], [Bucket2(1, 0, map[0 := 100]), Bucket2(1, 1, map[])], 2)
  }

  function TableAfter02(): TableView<nat, nat>
  {
    TableView(1, [0, 1], [Bucket2(1, 0, map[0 := 100, 2 := 102]), Bucket2(1, 1, map[])], 2)
  }

  /** The Insert of 4 splits bucket 0: the directory doubles to
      [0, 1, 0, 1], slot 2 gets a new bucket, and 2 moves there. */
  function SplitFor4(): TableView<nat, nat>
  {
    TableView(2, [0, 1, 2, 1], [Bucket2(2, 0, map[0 := 100]), Bucket2(1, 1, map[]), Bucket2(2, 2, map[2 := 102])], 3)
  }

  function TableAfter024(): TableView<nat, nat>
  {
    TableView(2, [0, 1, 2, 1], [Bucket2(2, 0, map[0 := 100, 4 := 104]), Bucket2(1, 1, map[]), Bucket2(2, 2, map[2 := 102])], 3)
  }

  /** The Insert of 8 splits bucket 0 again: the directory doubles to 8
      slots, slot 4 gets a new bucket, and 4 moves there. */
  function SplitFor8(): TableView<nat, nat>
  {
    TableView(3, [0, 1, 2, 1, 3, 1, 2, 1],
              [Bucket2(3, 0, map[0 := 100]), Bucket2(1, 1, map[]),
               Bucket2(2, 2, map[2 := 102]), Bucket2(3, 4, map[4 := 104])], 4)
  }

  /** Global depth 3; bucket 1 still has local depth 1 and is shared by
      slots 1, 3, 5 and 7. */
  function TableAfter0248(): TableView<nat, nat>
  {
    TableView(3, [0, 1, 2, 1, 3, 1, 2, 1],
              [Bucket2(3, 0, map[0 := 100, 8 := 108]), Bucket2(1, 1, map[]),
               Bucket2(2, 2, map[2 := 102]), Bucket2(3, 4, map[4 := 104])], 4)
  }

  function TableAfter02483(): TableView<nat, nat>
  {
    TableView(3, [0, 1, 2, 1, 3, 1, 2, 1],
              [Bucket2(3, 0, map[0 := 100, 8 := 108]), Bucket2(1, 1, map[3 := 103]),
               Bucket2(2, 2, map[2 := 102]), Bucket2(3, 4, map[4 := 104])], 4)
  }

  /** Bucket 1 now holds 3 and 7. */
  function TableAfter024837(): TableView<nat, nat>
  {
    TableView(3, [0, 1, 2, 1, 3, 1, 2, 1],
              [Bucket2(3, 0, map[0 := 100, 8 := 108]), Bucket2(1, 1, map[3 := 103, 7 := 107]),
               Bucket2(2, 2, map[2 := 102]), Bucket2(3, 4, map[4 := 104])], 4)
  }

  /** 0 and 2 are stored at once, in bucket 0. */
  lemma {:induction false} InsertsWithoutSplit02()
    ensures InsertSpec(InitialTable(2), KeyHash, 0, 100, 2) == (Stored, TableAfter0())
    ensures InsertSpec(TableAfter0(), KeyHash, 2, 102, 2) == (Stored, TableAfter02())
  {
    assert Pow2(1) == 2;
    assert BucketIndex(0, 1) == 0 && BucketIndex(2, 1) == 0;
    var t0: TableView<nat, nat> := InitialTable(2);
    var r1 := WithEntries(t0, 0, map[][0 := 100]);
    assert InsertSpec(t0, KeyHash, 0, 100, 2) == (Stored, r1);
    assert r1.buckets == TableAfter0().buckets;
    var r2 := WithEntries(TableAfter0(), 0, map[0 := 100][2 := 102]);
    assert InsertSpec(TableAfter0(), KeyHash, 2, 102, 2) == (Stored, r2);
    assert r2.buckets == TableAfter02().buckets;
  }

  lemma {:induction false} SplitFor4Step()
    ensures SplitSpec(TableAfter02(), KeyHash, 0, 2) == (true, SplitFor4())
  {
    var t := TableAfter02();
    assert Pow2(1) == 2;
    assert BucketIndex(0, 2) == 0 && BucketIndex(2, 2) == 2;
    var m: map<nat, nat> := map[0 := 100, 2 := 102];
    assert KeptEntries(m, KeyHash, 2, 0) == map[0 := 100];
    assert MovedEntries(m, KeyHash, 2, 0) == map[2 := 102];
    var t2 := WithLocalDepth(DoubledTable(t), 0, 2);
    assert SplitGrown(t, 0) == t2;
    var t3 := WithNewBucket(t2, 2, BucketView(2, 2, 2, map[]));
    assert t3.directory[0] == 0 && t3.buckets[0] == Bucket2(2, 0, m);
    var t5 := WithEntries(WithEntries(t3, 0, map[0 := 100]), 2, map[2 := 102]);
    SplitSpecSteps(t, KeyHash, 0, 2);
    assert SplitSpec(t, KeyHash, 0, 2) == (true, t5);
    assert t5.directory == SplitFor4().directory;
    assert t5.buckets == SplitFor4().buckets;
  }

  /** The retry of the Insert of 4 finds room in bucket 0. */
  lemma {:induction false} RetryFor4()
    ensures RetrySpec(SplitFor4(), KeyHash, 4, 104, 2) == (StoredAfterSplit, TableAfter024())
  {
    var s3 := SplitFor4();
    assert Pow2(2) == 4;
    assert BucketIndex(4, 2) == 0;
    var t3 := WithEntries(s3, 0, map[0 := 100][4 := 104]);
    assert RetrySpec(s3, KeyHash, 4, 104, 2) == (StoredAfterSplit, t3);
    assert t3.buckets == TableAfter024().buckets;
  }

  /** 4 is stored after one split that doubles the directory. */
  lemma {:induction false} InsertWithSplit4()
    ensures InsertSpec(TableAfter02(), KeyHash, 4, 104, 2) == (StoredAfterSplit, TableAfter024())
  {
    assert Pow2(1) == 2;
    assert BucketIndex(4, 1) == 0;
    SplitFor4Step();
    RetryFor4();
  }

  lemma {:induction false} SplitFor8Step()
    ensures SplitSpec(TableAfter024(), KeyHash, 0, 2) == (true, SplitFor8())
  {
    var t := TableAfter024();
    assert Pow2(2) == 4;
    assert BucketIndex(0, 3) == 0 && BucketIndex(4, 3) == 4;
    var m: map<nat, nat> := map[0 := 100, 4 := 104];
    assert KeptEntries(m, KeyHash, 3, 0) == map[0 := 100];
    assert MovedEntries(m, KeyHash, 3, 0) == map[4 := 104];
    var t2 := WithLocalDepth(DoubledTable(t), 0, 3);
    assert SplitGrown(t, 0) == t2;
    var t3 := WithNewBucket(t2, 4, BucketView(2, 3, 4, map[]));
    assert t3.directory[0] == 0 && t3.buckets[0] == Bucket2(3, 0, m);
    var t5 := WithEntries(WithEntries(t3, 0, map[0 := 100]), 3, map[4 := 104]);
    SplitSpecSteps(t, KeyHash, 0, 2);
    assert SplitSpec(t, KeyHash, 0, 2) == (true, t5);
    assert t5.directory == SplitFor8().directory;
    assert t5.buckets == SplitFor8().buckets;
  }

  /** The retry of the Insert of 8 finds room in bucket 0. */
  lemma {:induction false} RetryFor8()
    ensures RetrySpec(SplitFor8(), KeyHash, 8, 108, 2) == (StoredAfterSplit, TableAfter0248())
  {
    var s4 := SplitFor8();
    assert Pow2(3) == 8;
    assert BucketIndex(8, 3) == 0;
    var t4 := WithEntries(s4, 0, map[0 := 100][8 := 108]);
    assert RetrySpec(s4, KeyHash, 8, 108, 2) == (StoredAfterSplit, t4);
    assert t4.buckets == TableAfter0248().buckets;
  }

  /** 8 is stored after one split that doubles the directory. */
  lemma {:induction false} InsertWithSplit8()
    ensures InsertSpec(TableAfter024(), KeyHash, 8, 108, 2) == (StoredAfterSplit, TableAfter0248())
  {
    assert Pow2(2) == 4;
    assert BucketIndex(8, 2) == 0;
    SplitFor8Step();
    RetryFor8();
  }

  /** 3 and 7 are stored at once, in bucket 1, which slots 1, 3, 5 and 7
      share. */
  lemma {:induction false} InsertsWithoutSplit37()
    ensures InsertSpec(TableAfter0248(), KeyHash, 3, 103, 2) == (Stored, TableAfter02483())
    ensures InsertSpec(TableAfter02483(), KeyHash, 7, 107, 2) == (Stored, TableAfter024837())
  {
    assert Pow2(3) == 8;
    ExampleIndices();
    var r5 := WithEntries(TableAfter0248(), 1, map[][3 := 103]);
    assert InsertSpec(TableAfter0248(), KeyHash, 3, 103, 2) == (Stored, r5);
    assert r5.buckets == TableAfter02483().buckets;
    var r6 := WithEntries(TableAfter02483(), 1, map[3 := 103][7 := 107]);
    assert InsertSpec(TableAfter02483(), KeyHash, 7, 107, 2) == (Stored, r6);
    assert r6.buckets == TableAfter024837().buckets;
  }

  /** The table after the first split of the Insert of 5: slot 5 names the
      new bucket 4, which holds 3 and 7; bucket 1 is empty. */
  function SplitFor5(): TableView<nat, nat>
  {
    TableView(3, [0, 1, 2, 1, 3, 4, 2, 1],
              [Bucket2(3, 0, map[0 := 100, 8 := 108]), Bucket2(2, 1, map[]),
               Bucket2(2, 2, map[2 := 102]), Bucket2(3, 4, map[4 := 104]),
               Bucket2(2, 5, map[3 := 103, 7 := 107])], 5)
  }

  /** The low three bits of the keys the example looks up. */
  lemma ExampleIndices()
    ensures BucketIndex(3, 3) == 3 && BucketIndex(5, 3) == 5 && BucketIndex(7, 3) == 7
  {
    assert BucketIndex(0, 0) == 0;
    assert BucketIndex(1, 1) == 1 && BucketIndex(1, 2) == 1 && BucketIndex(2, 2) == 2 && BucketIndex(3, 2) == 3;
  }

  /** The first split of the Insert of 5: bucket 1 has local depth 1 < 3,
      so the directory does not double, and only slot 1 + 8/2 = 5 is
      rewired, to the new bucket 4.  Both 3 and 7 have a new index other
      than the bucket's id 1, so both move there. */
  lemma {:induction false} SplitFor5Step()
    ensures SplitSpec(TableAfter024837(), KeyHash, 5, 2) == (true, SplitFor5())
  {
    var t := TableAfter024837();
    ExampleIndices();
    assert Pow2(3) == 8;
    var m: map<nat, nat> := map[3 := 103, 7 := 107];
    assert KeptEntries(m, KeyHash, 3, 1) == map[];
    assert MovedEntries(m, KeyHash, 3, 1) == m;
    var t2 := WithLocalDepth(t, 1, 2);
    assert SplitGrown(t, 5) == t2;
    var t3 := WithNewBucket(t2, 5, BucketView(2, 2, 5, map[]));
    assert t3.directory[1] == 1 && t3.buckets[1] == Bucket2(2, 1, m);
    var t5 := WithEntries(WithEntries(t3, 1, map[]), 4, m);
    SplitSpecSteps(t, KeyHash, 5, 2);
    assert SplitSpec(t, KeyHash, 5, 2) == (true, t5);
    assert t5.directory == SplitFor5().directory;
    assert t5.buckets == SplitFor5().buckets;
  }

  /** That split loses keys (extendible_hash.cpp:147-165): before it, Find
      sees 3 and 7 in a table that keeps the table invariant; after it,
      slots 3 and 7 still name bucket 1, which the split emptied, so Find
      sees neither. */
  lemma {:induction false} SplitWithoutDoublingLosesKeys()
    ensures var t := TableAfter024837();
      && ValidTable(t, 2)
      && FindSpec(t, KeyHash, 3) == Some(103) && FindSpec(t, KeyHash, 7) == Some(107)
      && (var (inRange, t') := SplitSpec(t, KeyHash, BucketIndex(5, 3), 2);
          && inRange && t' == SplitFor5()
          && t'.depth == t.depth && t'.directory == t.directory[5 := 4]
          && FindSpec(t', KeyHash, 3) == None && FindSpec(t', KeyHash, 7) == None)
  {
    ExampleIndices();
    assert Pow2(3) == 8;
    SplitFor5Step();
    assert SplitFor5().directory == TableAfter024837().directory[5 := 4];
  }

  /** The table the Insert of 5 leaves: SplitFor5 with the local depth of
      the new bucket raised to 3. */
  function TableAfterInsertOf5(): TableView<nat, nat>
  {
    TableView(3, [0, 1, 2, 1, 3, 4, 2, 1],
              [Bucket2(3, 0, map[0 := 100, 8 := 108]), Bucket2(2, 1, map[]),
               Bucket2(2, 2, map[2 := 102]), Bucket2(3, 4, map[4 := 104]),
               Bucket2(3, 5, map[3 := 103, 7 := 107])], 5)
  }

  /** The retry of the Insert of 5: its slot 5 now names the new bucket,
      which is full, and the second split, of a bucket with id 5 at local
      depth 2, stops at the new slot 9, past the directory of 8 slots,
      after raising that bucket's local depth. */
  lemma {:induction false} RetryFor5()
    ensures RetrySpec(SplitFor5(), KeyHash, 5, 105, 2) == (SlotOutOfRange, TableAfterInsertOf5())
  {
    var t1 := SplitFor5();
    ExampleIndices();
    assert Pow2(3) == 8;
    assert |t1.buckets[4].dataMap| == 2;
    var t2 := WithLocalDepth(t1, 4, 3);
    assert SplitSpec(t1, KeyHash, 5, 2) == (false, t2);
    assert t2.buckets == TableAfterInsertOf5().buckets;
  }

  /** So the Insert of 5 that causes the split ends at the second split,
      without storing 5. */
  lemma {:induction false} InsertOf5()
    ensures InsertSpec(TableAfter024837(), KeyHash, 5, 105, 2) == (SlotOutOfRange, TableAfterInsertOf5())
  {
    ExampleIndices();
    assert Pow2(3) == 8;
    SplitFor5Step();
    RetryFor5();
  }

  /** After that Insert, 3 and 7 are still out of Find's reach, and 5 is
      not found either. */
  lemma {:induction false} InsertAfterLostKeys()
    ensures Indexable(TableAfterInsertOf5())
    ensures FindSpec(TableAfterInsertOf5(), KeyHash, 3) == None
    ensures FindSpec(TableAfterInsertOf5(), KeyHash, 7) == None
    ensures FindSpec(TableAfterInsertOf5(), KeyHash, 5) == None
  {
    ExampleIndices();
    assert Pow2(3) == 8;
  }

  // ---------------------------------------------------------------------
  // The mutable objects
  // ---------------------------------------------------------------------

  /** Bucket (h:40-55).  mCapacity and mId are never written after
      construction, so they are constants here. */
  class Bucket<K(==), V> {
    const capacity: nat
    var localDepth: nat
    const id: nat
    var dataMap: map<K, V>

    /** Bucket(size, depth, id) (h:42-45): stores the three arguments and
        starts with no entries. */
    constructor (size: nat, depth: nat, id: nat)
      ensures capacity == size && localDepth == depth && this.id == id && dataMap == map[]
    {
      capacity := size;
      localDepth := depth;
      this.id := id;
      dataMap := map[];
    }

    /** isFull (h:47): the entry count has reached mCapacity. */
    predicate IsFull()
      reads this
    {
      |dataMap| >= capacity
    }

    function View(): BucketView<K, V>
      reads this
    {
      BucketView(capacity, localDepth, id, dataMap)
    }
  }

  /** The loop of Split (cpp:158-166) on the two buckets it touches: every
      entry of `source` whose index under `depth` is not the source's id
      moves into `target`.  The source erases entries from the map it is
      iterating over; the model iterates over the key set the map had when
      the loop began. */
  method PartitionBucket<K(==), V>(source: Bucket<K, V>, target: Bucket<K, V>, hash: K -> nat, depth: nat)
    requires source != target && target.dataMap == map[]
    modifies source, target
    ensures source.dataMap == KeptEntries(old(source.dataMap), hash, depth, source.id)
    ensures target.dataMap == MovedEntries(old(source.dataMap), hash, depth, source.id)
    ensures source.localDepth == old(source.localDepth) && target.localDepth == old(target.localDepth)
  {
    ghost var m0 := source.dataMap;
    var pending := source.dataMap.Keys;
    while pending != {}
      invariant pending <= m0.Keys
      invariant source.dataMap == map k | k in m0 && (k in pending || BucketIndex(hash(k), depth) == source.id) :: m0[k]
      invariant target.dataMap == map k | k in m0 && k !in pending && BucketIndex(hash(k), depth) != source.id :: m0[k]
      invariant source.localDepth == old(source.localDepth) && target.localDepth == old(target.localDepth)
      decreases pending
    {
      var k :| k in pending;
      if BucketIndex(hash(k), depth) != source.id {
        target.dataMap := target.dataMap[k := source.dataMap[k]];
        source.dataMap := source.dataMap - {k};
      }
      pending := pending - {k};
    }
  }

  /** ExtendibleHash (h:24-69 with the fields the .cpp uses). */
  class ExtendibleHash<K(==), V> {
    const hashKey: K -> nat        // HashKey, std::hash<K>
    const bucketDataSize: nat      // mBucketDataSize, the constructor's size
    var depth: nat                 // mDepth
    var directory: seq<nat>        // mDirectory, as arena indices
    var buckets: seq<Bucket<K, V>> // the buckets the shared pointers own
    var bucketCount: nat           // mBucketCount

    function View(): TableView<K, V>
      reads this, buckets
    {
      var bs := buckets;
      TableView(depth, directory, seq(|bs|, j requires 0 <= j < |bs| reads bs => bs[j].View()), bucketCount)
    }

    ghost predicate Valid()
      reads this, buckets
    {
      && ValidTable(View(), bucketDataSize)
      && (forall i, j :: 0 <= i < j < |buckets| ==> buckets[i] != buckets[j])
    }

    /** ExtendibleHash(size) (cpp:20-25).  The source passes two arguments
        to the three-argument Bucket constructor; the model passes the
        table's bucketDataSize as the capacity. */
    constructor (size: nat, hashKey: K -> nat)
      ensures Valid()
      ensures this.hashKey == hashKey && bucketDataSize == size
      ensures View() == InitialTable(size)
    {
      this.hashKey := hashKey;
      bucketDataSize := size;
      depth := 1;
      var b0 := new Bucket(size, 1, 0);
      var b1 := new Bucket(size, 1, 1);
      directory := [0, 1];
      buckets := [b0, b1];
      bucketCount := 2;
      new;
      assert Pow2(1) == 2;
      assert View().buckets == InitialTable<K, V>(size).buckets;
    }

    /** GetGlobalDepth (cpp:46-50). */
    method GetGlobalDepth() returns (d: nat)
      requires Valid()
      ensures d == View().depth && d >= 1
    {
      d := depth;
    }

    /** GetLocalDepth (cpp:56-71), indexed by directory slot as in the source. */
    method GetLocalDepth(slot: int) returns (d: int)
      requires Valid()
      ensures d == LocalDepthSpec(View(), slot)
      ensures d == -1 || 1 <= d <= View().depth
    {
      LocalDepthBounds(View(), bucketDataSize, slot);
      if slot < 0 || slot >= |directory| {
        return -1;
      }
      var b := buckets[directory[slot]];
      if |b.dataMap| == 0 {
        return -1;
      }
      d := b.localDepth;
    }

    /** GetNumBuckets (cpp:76-88): counts directory slots whose bucket is
        not empty; a bucket shared by several slots is counted once per slot. */
    method GetNumBuckets() returns (count: nat)
      requires Valid()
      ensures count == |NonEmptySlots(View())|
    {
      var t := View();
      var used := UsedFlags(t);
      count := 0;
      var i := 0;
      while i < |t.directory|
        invariant 0 <= i <= |t.directory|
        invariant count == CountBelow(used, i)
      {
        if |t.buckets[t.directory[i]].dataMap| > 0 {
          count := count + 1;
        }
        i := i + 1;
      }
      CountBelowIsSize(used, i);
    }

    /** Find (cpp:94-106).  The range test at cpp:97-99 never fires:
        the index is below 2^depth, the directory length. */
    method Find(key: K) returns (r: Option<V>)
      requires Valid()
      ensures r == FindSpec(View(), hashKey, key)
      ensures r.Some? <==> key in View().buckets[SlotBucket(View(), hashKey, key)].dataMap
    {
      var index := BucketIndex(hashKey(key), depth);
      var b := buckets[directory[index]];
      if key in b.dataMap {
        r := Some(b.dataMap[key]);
      } else {
        r := None;
      }
    }

    /** Replaces the entries of one arena bucket, as `dataMap[k] = v` and
        `dataMap.erase(k)` do through a shared pointer. */
    method SetEntries(bi: nat, m: map<K, V>)
      requires Valid() && bi < |buckets|
      modifies buckets[bi]
      ensures Valid()
      ensures View() == WithEntries(old(View()), bi, m)
    {
      buckets[bi].dataMap := m;
      assert View().buckets == WithEntries(old(View()), bi, m).buckets;
    }

    /** Remove (cpp:113-125). */
    method Remove(key: K) returns (found: bool)
      requires Valid()
      modifies buckets
      ensures Valid() && buckets == old(buckets)
      ensures (found, View()) == RemoveSpec(old(View()), hashKey, key)
    {
      var index := BucketIndex(hashKey(key), depth);
      var bi := directory[index];
      if key in buckets[bi].dataMap {
        SetEntries(bi, buckets[bi].dataMap - {key});
        found := true;
      } else {
        found := false;
      }
    }

    /** The directory doubling of Split (cpp:134-141): resize to twice the
        length, one more depth bit, and a loop that makes slot `i` refer to
        the bucket of slot `i - preSize`.  The source's loop runs to the
        vector's capacity(); the model runs it to the directory length. */
    method DoubleDirectory()
      requires Valid()
      modifies this
      ensures Valid() && buckets == old(buckets)
      ensures View() == DoubledTable(old(View()))
    {
      ghost var t0 := View();
      var preSize := |directory|;
      directory := directory + seq(preSize, _ => 0); // the new slots are all overwritten below
      depth := depth + 1;
      var i := preSize;
      while i < |directory|
        invariant preSize <= i <= |directory| == 2 * preSize
        invariant directory[..preSize] == t0.directory
        invariant forall k :: preSize <= k < i ==> directory[k] == directory[k - preSize]
        invariant buckets == old(buckets) && depth == t0.depth + 1 && bucketCount == t0.bucketCount
        modifies this
      {
        directory := directory[i := directory[i - preSize]];
        i := i + 1;
      }
      assert directory == t0.directory + t0.directory;
      assert View().buckets == t0.buckets;
      assert Pow2(t0.depth + 1) == 2 * Pow2(t0.depth);
    }

    /** `bucket->mLocalDepth++` of Split (cpp:147), through the shared pointer. */
    method IncrementLocalDepth(bi: nat)
      requires Valid() && bi < |buckets| && buckets[bi].localDepth < depth
      modifies buckets[bi]
      ensures Valid()
      ensures View() == WithLocalDepth(old(View()), bi, old(buckets[bi].localDepth) + 1)
    {
      ghost var t0 := View();
      assert forall j :: 0 <= j < |buckets| ==> buckets[j].View() == t0.buckets[j];
      buckets[bi].localDepth := buckets[bi].localDepth + 1;
      forall j | 0 <= j < |buckets| && j != bi
        ensures View().buckets[j] == t0.buckets[j]
      {
        assert buckets[j] != buckets[bi];
      }
      assert View().buckets == WithLocalDepth(t0, bi, t0.buckets[bi].localDepth + 1).buckets;
    }

    /** `mDirectory[newBucketId] = make_shared<Bucket>(...)` and
        `mBucketCount++` of Split (cpp:155-156): a fresh empty bucket
        appended to the arena and installed in one slot. */
    method AddBucket(slot: nat, localDepth: nat) returns (nb: Bucket<K, V>)
      requires Valid() && slot < |directory| && 1 <= localDepth <= depth
      modifies this
      ensures Valid() && fresh(nb) && buckets == old(buckets) + [nb]
      ensures nb.View() == BucketView(bucketDataSize, localDepth, slot, map[])
      ensures View() == WithNewBucket(old(View()), slot, BucketView(bucketDataSize, localDepth, slot, map[]))
    {
      ghost var t0 := View();
      nb := new Bucket(bucketDataSize, localDepth, slot);
      buckets := buckets + [nb];
      directory := directory[slot := |buckets| - 1];
      bucketCount := bucketCount + 1;
      assert View().buckets == t0.buckets + [nb.View()];
    }

    /** The loop of Split that moves to the new bucket every entry whose
        index under the new depth is not the split bucket's id
        (cpp:158-166), on the table's value. */
    method MoveEntries(si: nat, ni: nat)
      requires Valid() && si < |buckets| && ni < |buckets| && si != ni && buckets[ni].dataMap == map[]
      modifies buckets[si], buckets[ni]
      ensures Valid()
      ensures var src := old(View()).buckets[si];
        View() == WithEntries(WithEntries(old(View()), si, KeptEntries(src.dataMap, hashKey, depth, src.id)),
                              ni, MovedEntries(src.dataMap, hashKey, depth, src.id))
    {
      ghost var t0 := View();
      var source := buckets[si];
      var nb := buckets[ni];
      assert forall j :: 0 <= j < |buckets| ==> buckets[j].View() == t0.buckets[j];
      PartitionBucket(source, nb, hashKey, depth);
      ghost var spec := WithEntries(WithEntries(t0, si, KeptEntries(t0.buckets[si].dataMap, hashKey, depth, source.id)),
                                    ni, MovedEntries(t0.buckets[si].dataMap, hashKey, depth, source.id));
      forall j | 0 <= j < |buckets|
        ensures View().buckets[j] == spec.buckets[j]
      {
        if j != si && j != ni {
          assert buckets[j] != source && buckets[j] != nb;
        }
      }
      assert View().buckets == spec.buckets;
    }

    /** The steps of Split before the new bucket (cpp:129-147): the
        doubling when the bucket's local depth equals the global depth, then
        the bucket's local depth increment. */
    method GrowForSplit(index: nat) returns (bucket: Bucket<K, V>)
      requires Valid() && index < |directory|
      modifies this, buckets
      ensures Valid() && buckets == old(buckets) && bucket == buckets[old(directory[index])]
      ensures View() == SplitGrown(old(View()), index)
      ensures bucket.View() == View().buckets[old(directory[index])]
    {
      ghost var t0 := View();
      var bi := directory[index];
      bucket := buckets[bi];
      assert bucket.View() == t0.buckets[bi];
      if bucket.localDepth == depth {
        DoubleDirectory();
      }
      IncrementLocalDepth(bi);
    }

    /** The steps of Split from the new bucket on (cpp:148-166): a fresh
        bucket at slot `newBucketId`, then the move of the entries of the
        bucket at slot `splitBucketId`. */
    method SplitInto(newBucketId: nat, splitBucketId: nat, localDepth: nat)
      requires Valid() && newBucketId < |directory| && splitBucketId < |directory| && newBucketId != splitBucketId
      requires 1 <= localDepth <= depth
      modifies this, buckets
      ensures Valid() && |buckets| == |old(buckets)| + 1 && buckets[..|old(buckets)|] == old(buckets) && fresh(buckets[|old(buckets)|])
      ensures var t3 := WithNewBucket(old(View()), newBucketId, BucketView(bucketDataSize, localDepth, newBucketId, map[]));
        var si := t3.directory[splitBucketId];
        var src := t3.buckets[si];
        View() == WithEntries(WithEntries(t3, si, KeptEntries(src.dataMap, hashKey, t3.depth, src.id)),
                              |old(buckets)|, MovedEntries(src.dataMap, hashKey, t3.depth, src.id))
    {
      var nb := AddBucket(newBucketId, localDepth);
      MoveEntries(directory[splitBucketId], |buckets| - 1);
    }

    /** Split (cpp:127-167). */
    method Split(index: nat) returns (inRange: bool)
      requires Valid() && index < |directory|
      modifies this, buckets
      ensures Valid()
      ensures (inRange, View()) == SplitSpec(old(View()), hashKey, index, bucketDataSize)
      ensures |buckets| >= |old(buckets)| && buckets[..|old(buckets)|] == old(buckets)
      ensures forall j :: |old(buckets)| <= j < |buckets| ==> fresh(buckets[j])
    {
      SplitSpecSteps(View(), hashKey, index, bucketDataSize);
      var bucket := GrowForSplit(index);
      var newBucketId := bucket.id + |directory| / 2;
      var splitBucketId := bucket.id;
      if newBucketId >= |directory| {
        // the source writes mDirectory[newBucketId] past the end here
        return false;
      }
      inRange := true;
      SplitInto(newBucketId, splitBucketId, bucket.localDepth);
    }

    /** The bucket of a key's slot is full (isFull) exactly when Insert's
        own capacity test, against the table's mBucketDataSize, fails:
        every bucket is built with that capacity. */
    lemma IsFullMatchesInsertTest(key: K)
      requires Valid()
      ensures buckets[directory[BucketIndex(hashKey(key), depth)]].IsFull()
          <==> |View().buckets[SlotBucket(View(), hashKey, key)].dataMap| >= bucketDataSize
    {
      var bi := directory[BucketIndex(hashKey(key), depth)];
      assert View().buckets[bi] == buckets[bi].View();
    }

    /** Insert (cpp:174-217).  The null-bucket tests at cpp:182-186 and
        201-205 never fire: every slot names a bucket. */
    method Insert(key: K, value: V) returns (outcome: InsertOutcome)
      requires Valid()
      modifies this, buckets
      ensures Valid()
      ensures (outcome, View()) == InsertSpec(old(View()), hashKey, key, value, bucketDataSize)
      ensures |buckets| >= |old(buckets)| && buckets[..|old(buckets)|] == old(buckets)
    {
      var index := BucketIndex(hashKey(key), depth);
      var bi := directory[index];
      assert View().buckets[bi] == buckets[bi].View();
      if |buckets[bi].dataMap| < bucketDataSize {
        SetEntries(bi, buckets[bi].dataMap[key := value]);
        outcome := Stored;
      } else {
        outcome := SplitThenRetry(index, key, value);
      }
    }

    /** The branch of Insert for a full bucket (cpp:196-216): split the
        key's slot, give up if the split fails, otherwise retry. */
    method SplitThenRetry(index: nat, key: K, value: V) returns (outcome: InsertOutcome)
      requires Valid() && index == BucketIndex(hashKey(key), depth)
      requires |buckets[directory[index]].dataMap| >= bucketDataSize
      modifies this, buckets
      ensures Valid()
      ensures (outcome, View()) == InsertSpec(old(View()), hashKey, key, value, bucketDataSize)
      ensures |buckets| >= |old(buckets)| && buckets[..|old(buckets)|] == old(buckets)
    {
      ghost var t0 := View();
      assert t0.buckets[directory[index]] == buckets[directory[index]].View();
      var inRange := Split(index);
      if !inRange {
        outcome := SlotOutOfRange;
        return;
      }
      SplitPreservesIndexable(t0, hashKey, index, bucketDataSize);
      outcome := Retry(key, value);
    }

    /** The second attempt of Insert (cpp:196-214). */
    method Retry(key: K, value: V) returns (outcome: InsertOutcome)
      requires Valid()
      modifies this, buckets
      ensures Valid()
      ensures (outcome, View()) == RetrySpec(old(View()), hashKey, key, value, bucketDataSize)
      ensures |buckets| >= |old(buckets)| && buckets[..|old(buckets)|] == old(buckets)
    {
      var index := BucketIndex(hashKey(key), depth);
      var bi := directory[index];
      if |buckets[bi].dataMap| < bucketDataSize {
        SetEntries(bi, buckets[bi].dataMap[key := value]);
        outcome := StoredAfterSplit;
      } else {
        var inRange := Split(index);
        outcome := if inRange then SplitAgain else SlotOutOfRange;
      }
    }
  }
}
