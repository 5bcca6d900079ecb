/** The shape of bulk-loaded trees: leaves of 63 entries each, and levels of internal nodes over
    groups of 64 entries of the level below. */
module BulkLoad {
  import opened BPlusTree
  import opened BPlusTreeInsert
  import opened BPlusTreeNodes
  import opened BPlusTreeDescent

  // ---------- leaves ----------

  function Min(a: int, b: int): int {
    if a < b then a else b
  }

  function LeafTotal(n: nat): nat {
    (n + MAX_KEYS - 1) / MAX_KEYS
  }

  /** The entries of leaf j. */
  function Chunk(data: seq<Entry>, j: nat): (es: seq<Entry>)
    requires j < LeafTotal(|data|)
    ensures 0 < |es| <= MAX_KEYS && MAX_KEYS * j + |es| <= |data|
    ensures forall i :: 0 <= i < |es| ==> es[i] == data[MAX_KEYS * j + i]
  {
    data[MAX_KEYS * j..Min(MAX_KEYS * j + MAX_KEYS, |data|)]
  }

  function KeysOf(es: seq<Entry>): (keys: seq<Key>)
    ensures |keys| == |es|
  {
    seq(|es|, i requires 0 <= i < |es| => es[i].key)
  }

  function ValuesOf(es: seq<Entry>): (values: seq<seq<int>>)
    ensures |values| == |es|
  {
    seq(|es|, i requires 0 <= i < |es| => es[i].values)
  }

  lemma OneEntryMore(data: seq<Entry>, start: nat, i: nat)
    requires start <= i < |data|
    ensures KeysOf(data[start..i + 1]) == KeysOf(data[start..i]) + [data[i].key]
    ensures ValuesOf(data[start..i + 1]) == ValuesOf(data[start..i]) + [data[i].values]
  {
    assert data[start..i + 1] == data[start..i] + [data[i]];
  }

  function LeafTree(data: seq<Entry>, j: nat): Tree
    requires j < LeafTotal(|data|)
  {
    Leaf(j, KeysOf(Chunk(data, j)), ValuesOf(Chunk(data, j)))
  }

  function LeafAt(data: seq<Entry>, j: nat, next: int): Node
    requires j < LeafTotal(|data|)
  {
    LeafNode(KeysOf(Chunk(data, j)), ValuesOf(Chunk(data, j)), next)
  }

  // ---------- levels of internal nodes ----------

  /** The smallest key a node is listed under, and its offset. */
  type ParentEntry = (Key, int)

  function LeafEntries(data: seq<Entry>): (es: seq<ParentEntry>)
    ensures |es| == LeafTotal(|data|)
  {
    seq(LeafTotal(|data|), j requires 0 <= j < LeafTotal(|data|) => (data[MAX_KEYS * j].key, j))
  }

  function GroupTotal(m: nat): nat {
    (m + BPTREE_ORDER - 1) / BPTREE_ORDER
  }

  function Group(es: seq<ParentEntry>, g: nat): (r: seq<ParentEntry>)
    requires g < GroupTotal(|es|)
    ensures 0 < |r| <= BPTREE_ORDER && BPTREE_ORDER * g + |r| <= |es|
    ensures forall i :: 0 <= i < |r| ==> r[i] == es[BPTREE_ORDER * g + i]
  {
    es[BPTREE_ORDER * g..Min(BPTREE_ORDER * g + BPTREE_ORDER, |es|)]
  }

  function ParentKeys(es: seq<ParentEntry>): (keys: seq<Key>)
    ensures |keys| == |es|
  {
    seq(|es|, i requires 0 <= i < |es| => es[i].0)
  }

  function Offsets(es: seq<ParentEntry>): (offsets: seq<int>)
    ensures |offsets| == |es|
  {
    seq(|es|, i requires 0 <= i < |es| => es[i].1)
  }

  /** The node over a group: every entry a child, every entry but the first a separator. */
  function GroupNode(r: seq<ParentEntry>): Node
    requires r != []
  {
    InternalNode(ParentKeys(r[1..]), Offsets(r))
  }

  /** Groups of at least two; a last group of one entry makes a node that no level lists. */
  function Survivors(m: nat): nat {
    (m + BPTREE_ORDER - 2) / BPTREE_ORDER
  }

  /** The next level lists each node under its first separator. */
  function NextLevel(es: seq<ParentEntry>, base: int): (next: seq<ParentEntry>)
    ensures |next| == Survivors(|es|)
  {
    seq(Survivors(|es|), g requires 0 <= g < Survivors(|es|) => (es[BPTREE_ORDER * g + 1].0, base + g))
  }

  lemma OneListedMore(es: seq<ParentEntry>, base: int, g: nat)
    requires g < Survivors(|es|)
    ensures NextLevel(es, base)[..g + 1] == NextLevel(es, base)[..g] + [(es[BPTREE_ORDER * g + 1].0, base + g)]
  {
  }

  ghost predicate LevelBuilt(cache: Cache, es: seq<ParentEntry>, base: int) {
    forall g: nat :: g < GroupTotal(|es|) ==> GroupBuilt(cache, es, base, g)
  }

  ghost predicate GroupBuilt(cache: Cache, es: seq<ParentEntry>, base: int, g: nat)
    requires g < GroupTotal(|es|)
  {
    base + g in cache && cache[base + g] == GroupNode(Group(es, g))
  }

  ghost predicate FirstGroupsBuilt(cache: Cache, es: seq<ParentEntry>, base: int, n: nat)
    requires n <= GroupTotal(|es|)
  {
    forall g: nat :: g < n ==> GroupBuilt(cache, es, base, g)
  }

  lemma MoreBuilt(cache: Cache, cache': Cache, es: seq<ParentEntry>, base: int, n: nat)
    requires n < GroupTotal(|es|) && FirstGroupsBuilt(cache, es, base, n) && Extends(cache, cache')
    requires base + n in cache' && cache'[base + n] == GroupNode(Group(es, n))
    ensures FirstGroupsBuilt(cache', es, base, n + 1)
  {
    forall g: nat | g < n + 1
      ensures GroupBuilt(cache', es, base, g)
    {
      assert g < n ==> GroupBuilt(cache, es, base, g);
    }
  }

  ghost predicate LeavesBuilt(cache: Cache, data: seq<Entry>) {
    FirstLeavesBuilt(cache, data, LeafTotal(|data|))
  }

  ghost predicate FirstLeavesBuilt(cache: Cache, data: seq<Entry>, n: nat)
    requires n <= LeafTotal(|data|)
  {
    forall j: nat :: j < n ==> LeafBuilt(cache, data, j, n, -1)
  }

  /** Leaf j of n, the last of which is linked to `next`. */
  ghost predicate LeafBuilt(cache: Cache, data: seq<Entry>, j: nat, n: nat, next: int)
    requires j < LeafTotal(|data|)
  {
    j in cache && cache[j] == LeafAt(data, j, if j + 1 < n then j + 1 else next)
  }

  /** The next chunk of the data. */
  lemma ChunkBounds(data: seq<Entry>, j: nat)
    requires MAX_KEYS * j < |data|
    ensures j < LeafTotal(|data|) && |Chunk(data, j)| == Min(MAX_KEYS, |data| - MAX_KEYS * j)
    ensures LeafEntries(data)[..j] + [(data[MAX_KEYS * j].key, j)] == LeafEntries(data)[..j + 1]
  {
  }

  lemma AllChunks(n: nat, j: nat)
    requires j <= LeafTotal(n) && n <= MAX_KEYS * j
    ensures j == LeafTotal(n)
  {
  }

  /** Linking the leaf before and adding the next one. */
  lemma LeafAdded(cache: Cache, data: seq<Entry>, n: nat)
    requires n < LeafTotal(|data|) && FirstLeavesBuilt(cache, data, n)
    ensures n > 0 ==> n - 1 in cache && cache[n - 1].LeafNode?
    ensures var linked := if n > 0 then cache[n - 1 := cache[n - 1].(nextLeaf := n)] else cache;
      FirstLeavesBuilt(linked[n := LeafAt(data, n, -1)], data, n + 1)
  {
    assert n > 0 ==> LeafBuilt(cache, data, n - 1, n, -1);
    var linked := if n > 0 then cache[n - 1 := cache[n - 1].(nextLeaf := n)] else cache;
    var cache', m := linked[n := LeafAt(data, n, -1)], n + 1;
    forall j: nat | j < m
      ensures LeafBuilt(cache', data, j, m, -1)
    {
      if j < n {
        assert LeafBuilt(cache, data, j, n, -1);
      }
    }
  }

  /** The next group of a level. */
  lemma GroupBounds(es: seq<ParentEntry>, g: nat)
    requires BPTREE_ORDER * g < |es|
    ensures g < GroupTotal(|es|) && |Group(es, g)| == Min(BPTREE_ORDER, |es| - BPTREE_ORDER * g)
    ensures |Group(es, g)| > 1 <==> g < Survivors(|es|)
    ensures g <= Survivors(|es|)
  {
  }

  lemma AllGroups(m: nat, g: nat)
    requires g <= GroupTotal(m) && m <= BPTREE_ORDER * g
    ensures g == GroupTotal(m) && Survivors(m) <= g
  {
  }

  // ---------- up to 64 leaves: a well-formed tree with exactly the data ----------

  function LeafTrees(data: seq<Entry>, n: nat): (ts: seq<Tree>)
    requires n <= LeafTotal(|data|)
    ensures |ts| == n
  {
    seq(n, j requires 0 <= j < n => LeafTree(data, j))
  }

  function BulkTree(data: seq<Entry>): Tree
    requires data != []
  {
    var n := LeafTotal(|data|);
    if n == 1 then LeafTree(data, 0)
    else Inner(n, ParentKeys(LeafEntries(data)[1..]), LeafTrees(data, n))
  }

  lemma {:induction false} LeafTreesEntries(data: seq<Entry>, n: nat)
    requires n <= LeafTotal(|data|)
    ensures AllEntries(LeafTrees(data, n)) == data[..Min(MAX_KEYS * n, |data|)]
  {
    if n > 0 {
      LeafTreesEntries(data, n - 1);
      var leaf := LeafTree(data, n - 1);
      assert LeafTrees(data, n) == LeafTrees(data, n - 1) + [leaf];
      AllEntriesConcat(LeafTrees(data, n - 1), [leaf]);
      AllEntriesOne(leaf);
      assert Entries(leaf) == Chunk(data, n - 1);
      assert data[..Min(MAX_KEYS * n, |data|)] == data[..MAX_KEYS * (n - 1)] + Chunk(data, n - 1);
    }
  }

  lemma {:induction false} LeafTreesIds(data: seq<Entry>, n: nat)
    requires n <= LeafTotal(|data|)
    ensures AllIds(LeafTrees(data, n)) == Range(0, n) && AllDistinct(LeafTrees(data, n))
  {
    if n > 0 {
      LeafTreesIds(data, n - 1);
      var leaf := LeafTree(data, n - 1);
      assert LeafTrees(data, n) == LeafTrees(data, n - 1) + [leaf];
      AllIdsConcat(LeafTrees(data, n - 1), [leaf]);
      AllDistinctConcat(LeafTrees(data, n - 1), [leaf]);
      OneTree(leaf);
    }
  }

  lemma {:induction false} LeafTreesStored(cache: Cache, data: seq<Entry>, n: nat, next: int)
    requires n <= LeafTotal(|data|)
    requires forall j: nat :: j < n ==> LeafBuilt(cache, data, j, n, next)
    ensures AllStored(cache, LeafTrees(data, n), next)
  {
    if n > 0 {
      var front, leaf := LeafTrees(data, n - 1), LeafTree(data, n - 1);
      assert LeafBuilt(cache, data, n - 1, n, next);
      var m := n - 1;
      forall j: nat | j < m
        ensures LeafBuilt(cache, data, j, m, m)
      {
        assert LeafBuilt(cache, data, j, n, next);
      }
      LeafTreesStored(cache, data, n - 1, n - 1);
      assert LeafTrees(data, n) == front + [leaf];
      AllStoredConcat(cache, front, [leaf], next);
      OneStored(cache, leaf, next);
    }
  }

  lemma LeafWithin(data: seq<Entry>, j: nat)
    requires SortedEntries(data) && j < LeafTotal(|data|)
    ensures var n := LeafTotal(|data|);
      WellFormed(LeafTree(data, j), 0, if j == 0 then Unbounded else At(data[MAX_KEYS * j].key),
                 if j == n - 1 then Unbounded else At(data[MAX_KEYS * (j + 1)].key))
  {
    var es := Chunk(data, j);
    assert forall i :: 0 <= i < |es| ==> KeysOf(es)[i] == data[MAX_KEYS * j + i].key;
    assert Ascending(KeysOf(es));
  }

  lemma LeafSeparators(data: seq<Entry>)
    requires SortedEntries(data) && data != []
    ensures var keys := ParentKeys(LeafEntries(data)[1..]);
      && |keys| == LeafTotal(|data|) - 1 && Separators(keys, Unbounded, Unbounded)
      && forall i :: 0 <= i < |keys| ==> keys[i] == data[MAX_KEYS * (i + 1)].key
  {
  }

  lemma LeafOfBulk(data: seq<Entry>, i: nat)
    requires SortedEntries(data) && i < LeafTotal(|data|)
    ensures var keys := ParentKeys(LeafEntries(data)[1..]);
      |keys| == LeafTotal(|data|) - 1 && WellFormed(LeafTree(data, i), 0, Low(keys, Unbounded, i), High(keys, Unbounded, i))
  {
    LeafSeparators(data);
    LeafWithin(data, i);
  }

  lemma BulkWellFormed(data: seq<Entry>)
    requires SortedEntries(data) && 1 < LeafTotal(|data|) <= BPTREE_ORDER
    ensures WellFormed(BulkTree(data), 1, Unbounded, Unbounded)
  {
    var n := LeafTotal(|data|);
    LeafSeparators(data);
    var keys, kids := ParentKeys(LeafEntries(data)[1..]), LeafTrees(data, n);
    forall i: nat | i < n
      ensures WellFormed(kids[i], 0, Low(keys, Unbounded, i), High(keys, Unbounded, i))
    {
      LeafOfBulk(data, i);
    }
  }

  function BulkHeight(data: seq<Entry>): nat {
    if LeafTotal(|data|) == 1 then 0 else 1
  }

  function BulkNodes(data: seq<Entry>): nat {
    if LeafTotal(|data|) == 1 then 1 else LeafTotal(|data|) + 1
  }

  lemma BulkSound(data: seq<Entry>)
    requires SortedEntries(data) && 0 < LeafTotal(|data|) <= BPTREE_ORDER
    ensures Sound(BulkTree(data), BulkHeight(data), BulkNodes(data))
  {
    if LeafTotal(|data|) == 1 {
      LeafWithin(data, 0);
    } else {
      BulkWellFormed(data);
      LeafTreesIds(data, LeafTotal(|data|));
    }
  }

  lemma BulkEntries(data: seq<Entry>)
    requires 0 < LeafTotal(|data|)
    ensures Entries(BulkTree(data)) == data
  {
    var n := LeafTotal(|data|);
    LeafTreesEntries(data, n);
    assert data[..|data|] == data;
    if n == 1 {
      assert LeafTrees(data, 1) == [LeafTree(data, 0)];
      AllEntriesOne(LeafTree(data, 0));
    }
  }

  lemma ManyLeaves(n: nat)
    ensures LeafTotal(n) <= BPTREE_ORDER <==> n <= MAX_KEYS * BPTREE_ORDER
    ensures n > 0 ==> LeafTotal(n) > 0
  {
  }

  lemma BulkStored(cache: Cache, data: seq<Entry>)
    requires 0 < LeafTotal(|data|) <= BPTREE_ORDER && LeavesBuilt(cache, data)
    requires LeafTotal(|data|) > 1 ==> OverLeaves(cache, data)
    ensures Stored(cache, BulkTree(data), -1)
  {
    var n := LeafTotal(|data|);
    LeafTreesStored(cache, data, n, -1);
    if n == 1 {
      assert LeafTrees(data, 1) == [LeafTree(data, 0)];
      OneStored(cache, LeafTree(data, 0), -1);
    } else {
      assert Roots(LeafTrees(data, n)) == Offsets(LeafEntries(data));
    }
  }

  // ---------- more than 64 leaves: the first key of the 65th leaf is lost ----------

  /** The search for k from this node goes down n levels to a leaf that does not have k. */
  ghost predicate Misses(cache: Cache, offset: int, k: Key, n: nat)
    decreases n
  {
    offset in cache &&
    match cache[offset]
    case LeafNode(_, _, _) => n == 0 && LookUp(cache[offset], k) == NotFound
    case InternalNode(keys, children) =>
      n > 0 && ChildIndex(keys, k) < |children| && Misses(cache, children[ChildIndex(keys, k)], k, n - 1)
  }

  lemma {:induction false} MissedSearch(cache: Cache, offset: int, k: Key, n: nat, depth: nat)
    requires Misses(cache, offset, k, n)
    ensures match Descend(cache, offset, k, depth)
            case NoNode => true
            case NodeAt(leaf) => leaf in cache && LookUp(cache[leaf], k) == NotFound
    decreases n
  {
    if n > 0 && depth > 0 {
      MissedSearch(cache, cache[offset].children[ChildIndex(cache[offset].keys, k)], k, n - 1, depth - 1);
    }
  }

  /** New nodes do not change the way. */
  lemma {:induction false} MissesFrame(cache: Cache, cache': Cache, offset: int, k: Key, n: nat)
    requires Misses(cache, offset, k, n) && Extends(cache, cache')
    ensures Misses(cache', offset, k, n)
    decreases n
  {
    if n > 0 {
      MissesFrame(cache, cache', cache[offset].children[ChildIndex(cache[offset].keys, k)], k, n - 1);
    }
  }

  /** Every search for k goes to the first of these nodes, and misses. */
  ghost predicate LeadsAstray(cache: Cache, es: seq<ParentEntry>, k: Key, n: nat) {
    && es != [] && Misses(cache, es[0].1, k, n)
    && forall i :: 1 <= i < |es| ==> k < es[i].0
  }

  lemma {:induction false} PositionOf(keys: seq<Key>, k: Key)
    ensures (forall i :: 0 <= i < |keys| ==> k < keys[i]) ==> ChildIndex(keys, k) == 0
    ensures (forall i :: 0 <= i < |keys| ==> keys[i] < k) ==> ChildIndex(keys, k) == |keys|
  {
  }

  /** One level up, the searches for k still go to the first node. */
  lemma AstrayLevel(cache: Cache, es: seq<ParentEntry>, base: int, k: Key, n: nat)
    requires |es| > 1 && LevelBuilt(cache, es, base) && LeadsAstray(cache, es, k, n)
    ensures LeadsAstray(cache, NextLevel(es, base), k, n + 1)
  {
    assert GroupBuilt(cache, es, base, 0);
    var node := cache[base];
    PositionOf(node.keys, k);
  }

  /** The level above the leaves sends the 65th leaf's first key to the 64th leaf. */
  lemma AstrayFirstLevel(cache: Cache, data: seq<Entry>, base: int)
    requires SortedEntries(data) && LeafTotal(|data|) > BPTREE_ORDER
    requires LeavesBuilt(cache, data) && LevelBuilt(cache, LeafEntries(data), base)
    ensures LeadsAstray(cache, NextLevel(LeafEntries(data), base), data[MAX_KEYS * BPTREE_ORDER].key, 1)
  {
    var es, k := LeafEntries(data), data[MAX_KEYS * BPTREE_ORDER].key;
    assert GroupBuilt(cache, es, base, 0);
    FirstGroup(data);
    PositionOf(cache[base].keys, k);
    LastLeafMisses(cache, data);
    LaterGroups(data, base);
  }

  lemma LaterGroups(data: seq<Entry>, base: int)
    requires SortedEntries(data) && LeafTotal(|data|) > BPTREE_ORDER
    ensures var next := NextLevel(LeafEntries(data), base);
      && next != [] && next[0].1 == base
      && forall g :: 1 <= g < |next| ==> data[MAX_KEYS * BPTREE_ORDER].key < next[g].0
  {
  }

  lemma FirstGroup(data: seq<Entry>)
    requires LeafTotal(|data|) > BPTREE_ORDER && SortedEntries(data)
    ensures var node := GroupNode(Group(LeafEntries(data), 0));
      && |node.keys| == MAX_KEYS && |node.children| == BPTREE_ORDER && node.children[MAX_KEYS] == MAX_KEYS
      && forall i :: 0 <= i < MAX_KEYS ==> node.keys[i] < data[MAX_KEYS * BPTREE_ORDER].key
  {
  }

  lemma LastLeafMisses(cache: Cache, data: seq<Entry>)
    requires SortedEntries(data) && LeafTotal(|data|) > BPTREE_ORDER && LeavesBuilt(cache, data)
    ensures Misses(cache, MAX_KEYS, data[MAX_KEYS * BPTREE_ORDER].key, 0)
  {
    assert LeafBuilt(cache, data, MAX_KEYS, LeafTotal(|data|), -1);
  }

  // ---------- one level more ----------

  /** The leaves and the one node over them. */
  ghost predicate OverLeaves(cache: Cache, data: seq<Entry>) {
    LeavesBuilt(cache, data) && LeafTotal(|data|) in cache && LeafEntries(data) != []
    && cache[LeafTotal(|data|)] == GroupNode(LeafEntries(data))
  }

  ghost predicate Extends(cache: Cache, cache': Cache) {
    forall x :: x in cache ==> x in cache' && cache'[x] == cache[x]
  }

  lemma LeavesFrame(cache: Cache, cache': Cache, data: seq<Entry>)
    requires LeavesBuilt(cache, data) && Extends(cache, cache')
    ensures LeavesBuilt(cache', data)
  {
    var n := LeafTotal(|data|);
    forall j: nat | j < n
      ensures LeafBuilt(cache', data, j, n, -1)
    {
      assert LeafBuilt(cache, data, j, n, -1);
    }
  }

  lemma LevelShrinks(m: nat)
    requires m > 1
    ensures 0 < Survivors(m) < m && (m <= BPTREE_ORDER ==> Survivors(m) == GroupTotal(m) == 1)
  {
  }

  /** The level over at most 64 leaves is one node. */
  lemma OneGroup(cache: Cache, data: seq<Entry>)
    requires 1 < LeafTotal(|data|) <= BPTREE_ORDER && LeavesBuilt(cache, data)
    requires LevelBuilt(cache, LeafEntries(data), LeafTotal(|data|))
    ensures OverLeaves(cache, data)
  {
    assert GroupBuilt(cache, LeafEntries(data), LeafTotal(|data|), 0);
    assert Group(LeafEntries(data), 0) == LeafEntries(data);
  }
}
