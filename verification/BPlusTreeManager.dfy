/** The index manager. */
module BPlusTreeManager {
  // Insert, search, remove and bulk load over nodes addressed by offset.

  import opened Wrappers
  import opened BPlusTree
  import opened BPlusTreeInsert
  import opened BPlusTreeNodes
  import opened BPlusTreeDescent
  import opened BulkLoad

  datatype Held = Nothing | Root(tree: Tree, height: nat)

  class BPTreeManager {
    var nodeCache: Cache
    var rootOffset: int
    var nodeCount: int
    ghost var held: Held

    ghost predicate Valid()
      reads this
    {
      && 0 <= nodeCount <= INT_MAX
      && match held
         case Nothing => rootOffset == -1
         case Root(t, h) => rootOffset == t.id && Stored(nodeCache, t, -1) && Sound(t, h, nodeCount)
    }

    /** What the index maps to what, in key order. */
    ghost function Contents(): seq<Entry>
      reads this
    {
      if held.Root? then Entries(held.tree) else []
    }

    constructor ()
      ensures Valid() && Contents() == []
    {
      nodeCache, rootOffset, nodeCount, held := map[], -1, 0, Nothing;
    }

    method AllocateNode() returns (offset: int)
      modifies this`nodeCount
      ensures offset == old(nodeCount) && nodeCount == offset + 1
    {
      offset := nodeCount;
      nodeCount := nodeCount + 1;
    }

    method SplitLeafNode(offset: int, ghost t: Tree, ghost next: int) returns (splitKey: Key, splitChild: int)
      requires t.Leaf? && t.id == offset && |t.keys| == |t.values| && |t.keys| > MAX_KEYS
      requires Stored(nodeCache, t, next) && offset < nodeCount
      modifies this`nodeCache, this`nodeCount
      ensures var r := SplitLeaf(t, old(nodeCount));
        && r.split.Halves? && nodeCount == r.next && SplitStored(nodeCache, r.split, next)
        && splitKey == r.split.key && splitChild == r.split.right.id
      ensures Kept(old(nodeCache), nodeCache, {offset}, old(nodeCount))
    {
      var node := nodeCache[offset];
      splitChild := AllocateNode();
      var mid := (|node.keys| + 1) / 2;
      nodeCache := nodeCache[splitChild := LeafNode(node.keys[mid..], node.values[mid..], node.nextLeaf)];
      nodeCache := nodeCache[offset := LeafNode(node.keys[..mid], node.values[..mid], splitChild)];
      splitKey := nodeCache[splitChild].keys[0];
    }

    method SplitInternalNode(offset: int, ghost t: Tree, ghost next: int) returns (splitKey: Key, splitChild: int)
      requires t.Inner? && t.id == offset && |t.kids| == |t.keys| + 1 && |t.keys| > MAX_KEYS
      requires Stored(nodeCache, t, next) && Distinct(t) && AllUnder(NodeIds(t), nodeCount)
      modifies this`nodeCache, this`nodeCount
      ensures var r := SplitInner(t, old(nodeCount));
        && r.split.Halves? && nodeCount == r.next && SplitStored(nodeCache, r.split, next)
        && splitKey == r.split.key && splitChild == r.split.right.id
      ensures Kept(old(nodeCache), nodeCache, {offset}, old(nodeCount))
    {
      HalvesStored(nodeCache, t, next, nodeCount);
      var node := nodeCache[offset];
      splitChild := AllocateNode();
      var mid := |node.keys| / 2;
      splitKey := node.keys[mid];
      nodeCache := nodeCache[splitChild := InternalNode(node.keys[mid + 1..], node.children[mid + 1..])];
      nodeCache := nodeCache[offset := InternalNode(node.keys[..mid], node.children[..mid + 1])];
    }

    /** The value is added to the key's, or the key is inserted. */
    method PutIntoLeaf(offset: int, key: Key, value: int) returns (keyCount: nat)
      requires offset in nodeCache && nodeCache[offset].LeafNode? && |nodeCache[offset].keys| == |nodeCache[offset].values|
      modifies this`nodeCache
      ensures var node := old(nodeCache)[offset];
        var t := LeafPut(offset, node.keys, node.values, key, value);
        nodeCache == old(nodeCache)[offset := LeafNode(t.keys, t.values, node.nextLeaf)] && keyCount == |t.keys|
    {
      var node := nodeCache[offset];
      var pos := Position(node.keys, key);
      var keys, values := node.keys, node.values;
      if pos < |keys| && keys[pos] == key {
        values := values[pos := values[pos] + [value]];
      } else {
        keys := keys[..pos] + [key] + keys[pos..];
        values := values[..pos] + [[value]] + values[pos..];
      }
      nodeCache := nodeCache[offset := LeafNode(keys, values, node.nextLeaf)];
      keyCount := |keys|;
    }

    method InsertIntoLeaf(offset: int, key: Key, value: int, ghost t: Tree, ghost next: int)
      returns (splitKey: Key, splitChild: int)
      requires t.Leaf? && t.id == offset && Shaped(t) && Stored(nodeCache, t, next) && 0 <= offset < nodeCount
      modifies this`nodeCache, this`nodeCount
      ensures Inserted(PutTree(t, key, value, old(nodeCount)), next, splitKey, splitChild)
      ensures Kept(old(nodeCache), nodeCache, {offset}, old(nodeCount))
    {
      var keyCount := PutIntoLeaf(offset, key, value);
      splitKey, splitChild := 0.0, -1;
      if keyCount > MAX_KEYS {
        splitKey, splitChild := SplitLeafNode(offset, LeafPut(offset, t.keys, t.values, key, value), next);
      }
    }

    /** The store has the result of the insert, and the out-parameters name its split. */
    ghost predicate Inserted(r: PutResult, next: int, splitKey: Key, splitChild: int)
      reads this
    {
      && nodeCount == r.next && SplitStored(nodeCache, r.split, next)
      && match r.split
         case Whole(_) => splitChild == -1
         case Halves(_, key, right) => splitChild == right.id >= 0 && splitKey == key
    }

    /** The key and the new child go in beside the child that was split. */
    method PutIntoNode(offset: int, childIndex: nat, childKey: Key, childSplit: int, ghost t: Tree, ghost split: Split)
      returns (keyCount: nat)
      requires t.Inner? && |t.kids| == |t.keys| + 1 && childIndex < |t.kids| && split.Halves?
      requires childKey == split.key && childSplit == split.right.id && t.kids[childIndex].id == split.left.id
      requires offset in nodeCache && nodeCache[offset] == InternalNode(t.keys, Roots(t.kids))
      modifies this`nodeCache
      ensures var t' := WithKid(t, childIndex, split);
        nodeCache == old(nodeCache)[offset := InternalNode(t'.keys, Roots(t'.kids))] && keyCount == |t'.keys|
    {
      ghost var t' := WithKid(t, childIndex, split);
      var node := nodeCache[offset];
      node := InternalNode(node.keys[..childIndex] + [childKey] + node.keys[childIndex..],
                           node.children[..childIndex + 1] + [childSplit] + node.children[childIndex + 1..]);
      assert node == InternalNode(t'.keys, Roots(t'.kids));
      nodeCache := nodeCache[offset := node];
      keyCount := |node.keys|;
    }

    /** A child's split goes into this node, which may split too. */
    method PlaceSplit(offset: int, childIndex: nat, childKey: Key, childSplit: int, ghost t: Tree, ghost next: int, ghost split: Split)
      returns (splitKey: Key, splitChild: int)
      requires t.Inner? && t.id == offset && |t.kids| == |t.keys| + 1 && childIndex < |t.kids| && split.Halves?
      requires childKey == split.key && childSplit == split.right.id && t.kids[childIndex].id == split.left.id
      requires offset in nodeCache && nodeCache[offset] == InternalNode(t.keys, Roots(t.kids)) && 0 <= nodeCount
      requires var t' := WithKid(t, childIndex, split);
        && Stored(nodeCache[offset := InternalNode(t'.keys, Roots(t'.kids))], t', next)
        && Distinct(t') && AllUnder(NodeIds(t'), nodeCount)
      modifies this`nodeCache, this`nodeCount
      ensures Inserted(SplitInner(WithKid(t, childIndex, split), old(nodeCount)), next, splitKey, splitChild)
      ensures Kept(old(nodeCache), nodeCache, {offset}, old(nodeCount))
    {
      var keyCount := PutIntoNode(offset, childIndex, childKey, childSplit, t, split);
      splitKey, splitChild := 0.0, -1;
      if keyCount > MAX_KEYS {
        splitKey, splitChild := SplitInternalNode(offset, WithKid(t, childIndex, split), next);
      }
    }

    method InsertInternal(offset: int, key: Key, value: int, ghost t: Tree, ghost next: int)
      returns (splitKey: Key, splitChild: int)
      requires t.id == offset && Shaped(t) && Stored(nodeCache, t, next) && Distinct(t)
      requires 0 <= nodeCount && forall x :: x in NodeIds(t) ==> 0 <= x < nodeCount
      modifies this`nodeCache, this`nodeCount
      ensures Inserted(PutTree(t, key, value, old(nodeCount)), next, splitKey, splitChild)
      ensures Kept(old(nodeCache), nodeCache, NodeIds(t), old(nodeCount))
      decreases t, 1
    {
      assert offset in NodeIds(t);
      if nodeCache[offset].LeafNode? {
        splitKey, splitChild := InsertIntoLeaf(offset, key, value, t, next);
      } else {
        splitKey, splitChild := InsertBelow(offset, key, value, t, next);
      }
    }

    /** The branch of an internal node. */
    method InsertBelow(offset: int, key: Key, value: int, ghost t: Tree, ghost next: int)
      returns (splitKey: Key, splitChild: int)
      requires t.Inner? && t.id == offset && Shaped(t) && Stored(nodeCache, t, next) && Distinct(t)
      requires 0 <= nodeCount && forall x :: x in NodeIds(t) ==> 0 <= x < nodeCount
      modifies this`nodeCache, this`nodeCount
      ensures Inserted(PutTree(t, key, value, old(nodeCount)), next, splitKey, splitChild)
      ensures Kept(old(nodeCache), nodeCache, NodeIds(t), old(nodeCount))
      decreases t, 0
    {
      var node := nodeCache[offset];
      var childIndex := ChildIndex(node.keys, key);
      ghost var kid, before, unused := t.kids[childIndex], nodeCache, nodeCount;
      KidReady(nodeCache, t, next, key, value, nodeCount);
      var childKey, childSplit := InsertInternal(node.children[childIndex], key, value, kid, FirstOf(t.kids[childIndex + 1..], next));
      KidDone(before, nodeCache, t, next, key, value, unused);
      splitKey, splitChild := 0.0, -1;
      if childSplit != -1 {
        splitKey, splitChild := PlaceSplit(offset, childIndex, childKey, childSplit, t, next, PutTree(kid, key, value, unused).split);
      } else {
        assert nodeCache[offset := node] == nodeCache;
      }
    }

    /** An insert appends the value to the key's values and changes nothing else. */
    method Insert(key: Key, value: int)
      requires Valid() && nodeCount + ROOM <= INT_MAX
      modifies this
      ensures Valid() && Contents() == PutEntry(old(Contents()), key, value)
    {
      if rootOffset == -1 {
        PlantRoot(key, value);
      } else {
        InsertAtRoot(key, value);
      }
    }

    /** An empty tree gets a root leaf. */
    method PlantRoot(key: Key, value: int)
      requires Valid() && nodeCount + ROOM <= INT_MAX && held.Nothing?
      modifies this
      ensures Valid() && Contents() == PutEntry([], key, value)
    {
      rootOffset := AllocateNode();
      nodeCache := nodeCache[rootOffset := LeafNode([key], [[value]], -1)];
      OneLeafSound(key, value, rootOffset);
      held := Root(Leaf(rootOffset, [key], [[value]]), 0);
    }

    method InsertAtRoot(key: Key, value: int)
      requires Valid() && nodeCount + ROOM <= INT_MAX && held.Root?
      modifies this
      ensures Valid() && Contents() == PutEntry(old(Contents()), key, value)
    {
      ghost var t, h := held.tree, held.height;
      SoundFacts(t, h, nodeCount);
      ghost var r := PutTree(t, key, value, nodeCount);
      InsertSound(t, h, nodeCount, key, value);
      InsertKeepsRoot(t, key, value, nodeCount);
      var splitKey, splitChild := InsertInternal(rootOffset, key, value, t, -1);
      held := Root(Grown(r.split, r.next), if splitChild != -1 then h + 1 else h);
      if splitChild != -1 {
        GrowRoot(splitKey, splitChild, r.split);
      }
    }

    /** A new root over the two halves of the old one. */
    method GrowRoot(splitKey: Key, splitChild: int, ghost split: Split)
      requires split.Halves? && SplitStored(nodeCache, split, -1) && forall x :: x in SplitIds(split) ==> x < nodeCount
      requires splitKey == split.key && splitChild == split.right.id && rootOffset == split.left.id
      modifies this`nodeCache, this`nodeCount, this`rootOffset
      ensures nodeCount == old(nodeCount) + 1 && rootOffset == old(nodeCount)
      ensures Stored(nodeCache, Grown(split, old(nodeCount)), -1)
    {
      RootStored(nodeCache, split, nodeCount);
      var newRoot := AllocateNode();
      nodeCache := nodeCache[newRoot := InternalNode([splitKey], [rootOffset, splitChild])];
      rootOffset := newRoot;
    }

    method FindLeaf(key: Key) returns (leaf: Offset)
      ensures leaf == if rootOffset == -1 then NoNode else Descend(nodeCache, rootOffset, key, MAX_DEPTH)
    {
      if rootOffset == -1 {
        return NoNode;
      }
      var current := rootOffset;
      var depth := 0;
      while depth < MAX_DEPTH
        invariant 0 <= depth <= MAX_DEPTH
        invariant Descend(nodeCache, current, key, MAX_DEPTH - depth) == Descend(nodeCache, rootOffset, key, MAX_DEPTH)
      {
        if current !in nodeCache {
          return NoNode;
        }
        var node := nodeCache[current];
        if node.LeafNode? {
          return NodeAt(current);
        }
        var childIndex := ChildIndex(node.keys, key);
        if childIndex >= |node.children| {
          return NoNode;
        }
        current := node.children[childIndex];
        depth := depth + 1;
      }
      return NoNode;
    }

    /** On any store of nodes, what the descent finds. */
    method Search(key: Key) returns (found: bool, values: seq<int>)
      ensures SearchFrom(nodeCache, rootOffset, key) == if found then Values(values) else NotFound
      ensures !found ==> values == []
    {
      var leaf := FindLeaf(key);
      if leaf == NoNode || leaf.offset !in nodeCache {
        return false, [];
      }
      var node := nodeCache[leaf.offset];
      if node.InternalNode? {
        return false, [];
      }
      var pos := Position(node.keys, key);
      if pos < |node.keys| && pos < |node.values| && node.keys[pos] == key {
        return true, node.values[pos];
      }
      return false, [];
    }

    /** On the trees inserts and removes make, exactly what the index maps the key to. */
    lemma SearchIsExact(key: Key)
      requires Valid()
      ensures SearchFrom(nodeCache, rootOffset, key) == Listed(Contents(), key)
    {
      if held.Root? {
        var t, h := held.tree, held.height;
        SoundFacts(t, h, nodeCount);
        DescendStored(nodeCache, t, -1, key, h, Unbounded, Unbounded, MAX_DEPTH);
        SearchFinds(t, h, Unbounded, Unbounded, key);
      }
    }

    /** A remove takes the value from the key's values, and the key when none is left. */
    method Remove(key: Key, value: int)
      requires Valid()
      modifies this
      ensures Valid() && Contents() == RemoveEntry(old(Contents()), key, value)
    {
      var leaf := FindLeaf(key);
      if leaf == NoNode {
        assert held.Nothing? by {
          if held.Root? {
            SoundFacts(held.tree, held.height, nodeCount);
            DescendStored(nodeCache, held.tree, -1, key, held.height, Unbounded, Unbounded, MAX_DEPTH);
          }
        }
        return;
      }
      ghost var t, h := held.tree, held.height;
      SoundFacts(t, h, nodeCount);
      DescendStored(nodeCache, t, -1, key, h, Unbounded, Unbounded, MAX_DEPTH);
      RemoveSound(t, h, nodeCount, nodeCache, key, value);
      RemoveStored(nodeCache, t, -1, key, value);
      var node := nodeCache[leaf.offset];
      var pos := Position(node.keys, key);
      if pos < |node.keys| && node.keys[pos] == key {
        var left := Erase(node.values[pos], value);
        if left == [] {
          node := LeafNode(node.keys[..pos] + node.keys[pos + 1..], node.values[..pos] + node.values[pos + 1..], node.nextLeaf);
        } else {
          node := LeafNode(node.keys, node.values[pos := left], node.nextLeaf);
        }
      }
      nodeCache := nodeCache[leaf.offset := node];
      held := Root(RemoveTree(t, key, value), h);
    }

    /** The erase-remove loop. */
    static method Erase(values: seq<int>, value: int) returns (left: seq<int>)
      ensures left == Without(values, value)
    {
      left := [];
      var i := 0;
      while i < |values|
        invariant 0 <= i <= |values| && left + Without(values[i..], value) == Without(values, value)
      {
        assert values[i..][1..] == values[i + 1..];
        if values[i] != value {
          left := left + [values[i]];
        }
        i := i + 1;
      }
    }

    /** Walking the leaf links from the first leaf meets every entry, in key order. */
    lemma LeavesAreChained()
      requires Valid() && held.Root?
      ensures Chained(nodeCache, FirstLeaf(held.tree), Leaves(held.tree), -1)
      ensures AllEntries(Leaves(held.tree)) == Contents() && SortedEntries(Contents())
    {
      SoundFacts(held.tree, held.height, nodeCount);
      LeafChain(nodeCache, held.tree, -1);
    }

    // ---------- bulk load ----------

    ghost predicate AllAllocated()
      reads this
    {
      forall x :: x in nodeCache ==> x < nodeCount
    }

    method FillLeaf(data: seq<Entry>, start: nat, ghost j: nat) returns (keys: seq<Key>, values: seq<seq<int>>)
      requires start == MAX_KEYS * j && start < |data|
      ensures j < LeafTotal(|data|) && keys == KeysOf(Chunk(data, j)) && values == ValuesOf(Chunk(data, j))
    {
      keys, values := [], [];
      var i := start;
      while i < |data| && |keys| < MAX_KEYS
        invariant start <= i <= |data| && |keys| == i - start <= MAX_KEYS
        invariant keys == KeysOf(data[start..i]) && values == ValuesOf(data[start..i])
      {
        OneEntryMore(data, start, i);
        keys, values := keys + [data[i].key], values + [data[i].values];
        i := i + 1;
      }
      ChunkBounds(data, j);
      assert Chunk(data, j) == data[start..i];
    }

    method BuildLeafLevel(data: seq<Entry>) returns (parents: seq<ParentEntry>)
      requires nodeCache == map[] && nodeCount == 0
      modifies this`nodeCache, this`nodeCount
      ensures parents == LeafEntries(data) && nodeCount == LeafTotal(|data|) && LeavesBuilt(nodeCache, data)
      ensures AllAllocated()
    {
      parents := [];
      var i := 0;
      var prev := -1;
      while i < |data|
        invariant i == Min(MAX_KEYS * nodeCount, |data|) && 0 <= nodeCount <= LeafTotal(|data|) && prev == nodeCount - 1
        invariant parents == LeafEntries(data)[..nodeCount]
        invariant FirstLeavesBuilt(nodeCache, data, nodeCount) && AllAllocated()
        decreases |data| - i
      {
        ChunkBounds(data, nodeCount);
        LeafAdded(nodeCache, data, nodeCount);
        var offset := AllocateNode();
        var keys, values := FillLeaf(data, i, offset);
        i := i + |keys|;
        if prev != -1 {
          nodeCache := nodeCache[prev := nodeCache[prev].(nextLeaf := offset)];
        }
        parents := parents + [(keys[0], offset)];
        nodeCache := nodeCache[offset := LeafNode(keys, values, -1)];
        prev := offset;
      }
      AllChunks(|data|, nodeCount);
    }

    method FillNode(entries: seq<ParentEntry>, start: nat, ghost g: nat) returns (keys: seq<Key>, children: seq<int>)
      requires start == BPTREE_ORDER * g && start < |entries|
      ensures g < GroupTotal(|entries|) && InternalNode(keys, children) == GroupNode(Group(entries, g))
    {
      keys, children := [], [entries[start].1];
      var i := start + 1;
      while i < |entries| && |keys| < MAX_KEYS
        invariant start + 1 <= i <= |entries| && |keys| == i - start - 1 <= MAX_KEYS
        invariant keys == ParentKeys(entries[start + 1..i]) && children == Offsets(entries[start..i])
      {
        keys, children := keys + [entries[i].0], children + [entries[i].1];
        i := i + 1;
      }
      GroupBounds(entries, g);
      assert Group(entries, g) == entries[start..i];
      assert entries[start..i][1..] == entries[start + 1..i];
    }

    method BuildNode(entries: seq<ParentEntry>, start: nat, ghost g: nat) returns (keys: seq<Key>, children: seq<int>, offset: int)
      requires start == BPTREE_ORDER * g && start < |entries| && AllAllocated()
      modifies this`nodeCache, this`nodeCount
      ensures g < GroupTotal(|entries|) && InternalNode(keys, children) == GroupNode(Group(entries, g))
      ensures offset == old(nodeCount) && nodeCount == offset + 1
      ensures nodeCache == old(nodeCache)[offset := InternalNode(keys, children)]
      ensures Extends(old(nodeCache), nodeCache) && AllAllocated()
      ensures start + |children| == Min(BPTREE_ORDER * (g + 1), |entries|)
      ensures if keys != [] then g < Survivors(|entries|) && keys[0] == entries[BPTREE_ORDER * g + 1].0 else g == Survivors(|entries|)
    {
      GroupBounds(entries, g);
      offset := AllocateNode();
      keys, children := FillNode(entries, start, g);
      nodeCache := nodeCache[offset := InternalNode(keys, children)];
    }

    /** The nodes over one level. */
    method BuildLevel(entries: seq<ParentEntry>) returns (next: seq<ParentEntry>)
      requires AllAllocated()
      modifies this`nodeCache, this`nodeCount
      ensures next == NextLevel(entries, old(nodeCount)) && nodeCount == old(nodeCount) + GroupTotal(|entries|)
      ensures LevelBuilt(nodeCache, entries, old(nodeCount))
      ensures Extends(old(nodeCache), nodeCache) && AllAllocated()
    {
      next := [];
      var i := 0;
      ghost var g: nat := 0;
      while i < |entries|
        invariant i == Min(BPTREE_ORDER * g, |entries|) && g <= GroupTotal(|entries|) && nodeCount == old(nodeCount) + g
        invariant |next| == Min(g, Survivors(|entries|)) && next == NextLevel(entries, old(nodeCount))[..|next|]
        invariant FirstGroupsBuilt(nodeCache, entries, old(nodeCount), g)
        invariant Extends(old(nodeCache), nodeCache) && AllAllocated()
        decreases |entries| - i
      {
        ghost var before := nodeCache;
        var keys, children, offset := BuildNode(entries, i, g);
        i := i + |children|;
        if keys != [] {
          OneListedMore(entries, old(nodeCount), g);
          next := next + [(keys[0], offset)];
        }
        MoreBuilt(before, nodeCache, entries, old(nodeCount), g);
        g := g + 1;
      }
      AllGroups(|entries|, g);
    }

    /** The levels, up to the root. Over at most 64 leaves there is one node; over more, searches
        for the first key of the 65th leaf go astray. */
    method BuildInternalLevel(parents: seq<ParentEntry>, ghost data: seq<Entry>) returns (root: int)
      requires SortedEntries(data) && data != [] && parents == LeafEntries(data)
      requires nodeCount == LeafTotal(|data|) && LeavesBuilt(nodeCache, data) && AllAllocated()
      modifies this`nodeCache, this`nodeCount
      ensures LeafTotal(|data|) <= BPTREE_ORDER ==>
        root == BulkTree(data).id && nodeCount == BulkNodes(data) && Stored(nodeCache, BulkTree(data), -1)
      ensures LeafTotal(|data|) > BPTREE_ORDER ==>
        exists n: nat :: Misses(nodeCache, root, data[MAX_KEYS * BPTREE_ORDER].key, n)
    {
      var entries := parents;
      ghost var levels: nat := 0;
      while |entries| > 1
        invariant AllAllocated()
        invariant levels == 0 ==>
          entries == parents && nodeCount == LeafTotal(|data|) && LeavesBuilt(nodeCache, data)
        invariant levels > 0 && |parents| <= BPTREE_ORDER ==>
          |parents| > 1 && |entries| == 1 && entries[0].1 == |parents| && nodeCount == |parents| + 1 && OverLeaves(nodeCache, data)
        invariant levels > 0 && |parents| > BPTREE_ORDER ==>
          LeadsAstray(nodeCache, entries, data[MAX_KEYS * BPTREE_ORDER].key, levels)
        decreases |entries|
      {
        entries := RaiseLevel(entries, levels, data);
        levels := levels + 1;
      }
      root := if entries == [] then -1 else entries[0].1;
      if |parents| <= BPTREE_ORDER {
        BulkStored(nodeCache, data);
      }
    }

    /** One round of the loop. */
    method RaiseLevel(entries: seq<ParentEntry>, ghost levels: nat, ghost data: seq<Entry>) returns (next: seq<ParentEntry>)
      requires SortedEntries(data) && data != [] && |entries| > 1 && AllAllocated()
      requires levels == 0 ==>
        entries == LeafEntries(data) && nodeCount == LeafTotal(|data|) && LeavesBuilt(nodeCache, data)
      requires levels > 0 ==>
        LeafTotal(|data|) > BPTREE_ORDER && LeadsAstray(nodeCache, entries, data[MAX_KEYS * BPTREE_ORDER].key, levels)
      modifies this`nodeCache, this`nodeCount
      ensures |next| < |entries| && AllAllocated()
      ensures LeafTotal(|data|) <= BPTREE_ORDER ==>
        var n := LeafTotal(|data|); |next| == 1 && next[0].1 == n && nodeCount == n + 1 && OverLeaves(nodeCache, data)
      ensures LeafTotal(|data|) > BPTREE_ORDER ==>
        LeadsAstray(nodeCache, next, data[MAX_KEYS * BPTREE_ORDER].key, levels + 1)
    {
      ghost var before, base := nodeCache, nodeCount;
      next := BuildLevel(entries);
      LevelShrinks(|entries|);
      if levels > 0 {
        MissesFrame(before, nodeCache, entries[0].1, data[MAX_KEYS * BPTREE_ORDER].key, levels);
        AstrayLevel(nodeCache, entries, base, data[MAX_KEYS * BPTREE_ORDER].key, levels);
      } else {
        LeavesFrame(before, nodeCache, data);
        if LeafTotal(|data|) <= BPTREE_ORDER {
          OneGroup(nodeCache, data);
        } else {
          AstrayFirstLevel(nodeCache, data, base);
        }
      }
    }

    /** Bulk load of strictly sorted data. Every key can be found with its values if and only if
        there are at most 64 full leaves of data; the tree is then well-formed. */
    method BuildTree(data: seq<Entry>)
      requires SortedEntries(data)
      modifies this
      ensures |data| <= MAX_KEYS * BPTREE_ORDER ==> Valid() && Contents() == data
      ensures (forall e :: e in data ==> SearchFrom(nodeCache, rootOffset, e.key) == Values(e.values))
        <==> |data| <= MAX_KEYS * BPTREE_ORDER
    {
      if data == [] {
        rootOffset, nodeCount, held := -1, 0, Nothing;
        return;
      }
      BuildLevels(data);
      if |data| <= MAX_KEYS * BPTREE_ORDER {
        FindsAll();
      } else {
        ghost var n: nat :| Misses(nodeCache, rootOffset, data[MAX_KEYS * BPTREE_ORDER].key, n);
        LosesOne(data, n);
      }
    }

    method BuildLevels(data: seq<Entry>)
      requires SortedEntries(data) && data != []
      modifies this
      ensures |data| <= MAX_KEYS * BPTREE_ORDER ==> Valid() && Contents() == data
      ensures |data| > MAX_KEYS * BPTREE_ORDER ==>
        exists n: nat :: Misses(nodeCache, rootOffset, data[MAX_KEYS * BPTREE_ORDER].key, n)
    {
      nodeCache, nodeCount := map[], 0;
      var parents := BuildLeafLevel(data);
      rootOffset := BuildInternalLevel(parents, data);
      ManyLeaves(|data|);
      if |data| <= MAX_KEYS * BPTREE_ORDER {
        HoldBulk(data);
      } else {
        ghost var n: nat :| Misses(nodeCache, rootOffset, data[MAX_KEYS * BPTREE_ORDER].key, n);
      }
    }

    /** What was built is what the index holds. */
    ghost method HoldBulk(data: seq<Entry>)
      requires SortedEntries(data) && 0 < LeafTotal(|data|) <= BPTREE_ORDER
      requires rootOffset == BulkTree(data).id && nodeCount == BulkNodes(data) && Stored(nodeCache, BulkTree(data), -1)
      modifies this`held
      ensures Valid() && Contents() == data
    {
      BulkSound(data);
      BulkEntries(data);
      held := Root(BulkTree(data), BulkHeight(data));
    }

    lemma FindsAll()
      requires Valid()
      ensures forall e :: e in Contents() ==> SearchFrom(nodeCache, rootOffset, e.key) == Values(e.values)
    {
      forall e | e in Contents()
        ensures SearchFrom(nodeCache, rootOffset, e.key) == Values(e.values)
      {
        SoundFacts(held.tree, held.height, nodeCount);
        SearchIsExact(e.key);
        FindMember(Contents(), e);
      }
    }

    lemma LosesOne(data: seq<Entry>, n: nat)
      requires |data| > MAX_KEYS * BPTREE_ORDER
      requires Misses(nodeCache, rootOffset, data[MAX_KEYS * BPTREE_ORDER].key, n)
      ensures exists e :: e in data && SearchFrom(nodeCache, rootOffset, e.key) != Values(e.values)
    {
      var lost := data[MAX_KEYS * BPTREE_ORDER];
      MissedSearch(nodeCache, rootOffset, lost.key, n, MAX_DEPTH);
      assert lost in data;
    }
  }
}
