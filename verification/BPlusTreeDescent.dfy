/** Descending to a leaf in a store of nodes, and what inserts and removes do to a stored tree. */
module BPlusTreeDescent {
  import opened Wrappers
  import opened BPlusTree
  import opened BPlusTreeInsert
  import opened BPlusTreeNodes

  const MAX_DEPTH: nat := 100

  // ---------- descending to a leaf ----------

  datatype Offset = NoNode | NodeAt(offset: int)

  /** The search for a leaf, which gives up after `depth` nodes. */
  function Descend(cache: Cache, offset: int, k: Key, depth: nat): Offset
    decreases depth
  {
    if depth == 0 || offset !in cache then NoNode
    else
      match cache[offset]
      case LeafNode(_, _, _) => NodeAt(offset)
      case InternalNode(keys, children) =>
        var c := ChildIndex(keys, k);
        if c < |children| then Descend(cache, children[c], k, depth - 1) else NoNode
  }

  function LookUp(node: Node, k: Key): Found {
    match node
    case LeafNode(keys, values, _) =>
      var pos := Position(keys, k);
      if pos < |keys| && pos < |values| && keys[pos] == k then Values(values[pos]) else NotFound
    case InternalNode(_, _) => NotFound
  }

  function SearchFrom(cache: Cache, root: int, k: Key): Found {
    if root == -1 then NotFound
    else
      match Descend(cache, root, k, MAX_DEPTH)
      case NoNode => NotFound
      case NodeAt(offset) => if offset in cache then LookUp(cache[offset], k) else NotFound
  }

  function LeafFor(t: Tree, k: Key): Tree
    requires Shaped(t)
    decreases t
  {
    if t.Leaf? then t else LeafFor(t.kids[ChildIndex(t.keys, k)], k)
  }

  /** A stored tree that is not too high is searched as the tree it is. */
  lemma {:induction false} DescendStored(cache: Cache, t: Tree, next: int, k: Key, h: nat, lo: Bound, hi: Bound, depth: nat)
    requires Stored(cache, t, next) && WellFormed(t, h, lo, hi) && Shaped(t) && h < depth
    ensures Descend(cache, t.id, k, depth) == NodeAt(LeafFor(t, k).id)
    ensures LeafFor(t, k).id in cache && LookUp(cache[LeafFor(t, k).id], k) == SearchTree(t, k)
    ensures LeafFor(t, k).Leaf? && cache[LeafFor(t, k).id].LeafNode?
    ensures cache[LeafFor(t, k).id].keys == LeafFor(t, k).keys && cache[LeafFor(t, k).id].values == LeafFor(t, k).values
    decreases t
  {
    if t.Inner? {
      var c := ChildIndex(t.keys, k);
      StoredAround(cache, t, c, next);
      assert Roots(t.kids)[c] == t.kids[c].id;
      assert Descend(cache, t.id, k, depth) == Descend(cache, t.kids[c].id, k, depth - 1);
      DescendStored(cache, t.kids[c], FirstOf(t.kids[c + 1..], next), k, h - 1, Low(t.keys, lo, c), High(t.keys, hi, c), depth - 1);
    }
  }

  /** Changing the leaf in place is removing from the tree. */
  lemma {:induction false} RemoveStored(cache: Cache, t: Tree, next: int, k: Key, v: int)
    requires Stored(cache, t, next) && Shaped(t) && Distinct(t)
    ensures var leaf := LeafFor(t, k);
      && leaf.Leaf? && Shaped(leaf) && leaf.id in NodeIds(t) && leaf.id in cache && cache[leaf.id].LeafNode?
      && var leaf' := LeafRemove(leaf.id, leaf.keys, leaf.values, k, v);
         Stored(cache[leaf.id := LeafNode(leaf'.keys, leaf'.values, cache[leaf.id].nextLeaf)], RemoveTree(t, k, v), next)
    ensures RemoveTree(t, k, v).id == t.id && NodeIds(RemoveTree(t, k, v)) == NodeIds(t) && Distinct(RemoveTree(t, k, v))
    ensures FirstLeaf(RemoveTree(t, k, v)) == FirstLeaf(t)
    decreases t
  {
    if t.Inner? {
      var c := ChildIndex(t.keys, k);
      var kid := t.kids[c];
      KidIds(t, c);
      SplitAt(t.kids, c);
      IdsOfThree(t.kids[..c], kid, t.kids[c + 1..]);
      StoredAround(cache, t, c, next);
      RemoveStored(cache, kid, FirstOf(t.kids[c + 1..], next), k, v);
      RemoveInKid(cache, t, next, c, RemoveTree(kid, k, v), LeafFor(kid, k).id,
                  LeafRemove(LeafFor(kid, k).id, LeafFor(kid, k).keys, LeafFor(kid, k).values, k, v));
    }
  }

  lemma RemoveInKid(cache: Cache, t: Tree, next: int, c: nat, kid': Tree, id: int, leaf: Tree)
    requires t.Inner? && Shaped(t) && Distinct(t) && Stored(cache, t, next) && c < |t.kids|
    requires id in NodeIds(t.kids[c]) && id in cache && cache[id].LeafNode? && leaf.Leaf?
    requires Stored(cache[id := LeafNode(leaf.keys, leaf.values, cache[id].nextLeaf)], kid', FirstOf(t.kids[c + 1..], next))
    requires NodeIds(kid') == NodeIds(t.kids[c]) && Distinct(kid') && FirstLeaf(kid') == FirstLeaf(t.kids[c]) && kid'.id == t.kids[c].id
    ensures var t' := WithKid(t, c, Whole(kid'));
      && Stored(cache[id := LeafNode(leaf.keys, leaf.values, cache[id].nextLeaf)], t', next)
      && NodeIds(t') == NodeIds(t) && Distinct(t') && FirstLeaf(t') == FirstLeaf(t)
  {
    var cache' := cache[id := LeafNode(leaf.keys, leaf.values, cache[id].nextLeaf)];
    SplitAt(t.kids, c);
    IdsOfThree(t.kids[..c], t.kids[c], t.kids[c + 1..]);
    StoredAround(cache, t, c, next);
    AllStoredFrame(cache, cache', t.kids[..c], FirstLeaf(t.kids[c]));
    AllStoredFrame(cache, cache', t.kids[c + 1..], next);
    WithKidStored(cache', t, c, Whole(kid'), next);
    WithKidIds(t, c, Whole(kid'));
    WithKidDistinct(t, c, Whole(kid'));
    assert Roots(t.kids[c := kid']) == Roots(t.kids);
  }

  // ---------- putting a kid's result in place ----------

  /** The other nodes are as they were. */
  ghost predicate Kept(cache: Cache, cache': Cache, touched: set<int>, unused: int) {
    forall x :: x in cache && x !in touched && x < unused ==> x in cache' && cache'[x] == cache[x]
  }

  /** Once the kid's result is stored and the node's keys and children are updated, the node is stored. */
  lemma NodeStored(before: Cache, after: Cache, t: Tree, next: int, c: nat, unused: int, r: PutResult)
    requires t.Inner? && Shaped(t) && Distinct(t) && AllUnder(NodeIds(t), unused) && c < |t.kids|
    requires Stored(before, t, next) && Kept(before, after, NodeIds(t.kids[c]), unused) && IdsAfter(t.kids[c], unused, r)
    requires SplitStored(after, r.split, FirstOf(t.kids[c + 1..], next)) && SplitFirst(r.split) == FirstLeaf(t.kids[c])
    ensures var t' := WithKid(t, c, r.split);
      Stored(after[t.id := InternalNode(t'.keys, Roots(t'.kids))], t', next)
  {
    var t' := WithKid(t, c, r.split);
    var cache := after[t.id := InternalNode(t'.keys, Roots(t'.kids))];
    SplitAt(t.kids, c);
    IdsOfThree(t.kids[..c], t.kids[c], t.kids[c + 1..]);
    KidIds(t, c);
    StoredAround(before, t, c, next);
    AllStoredFrame(before, cache, t.kids[..c], FirstLeaf(t.kids[c]));
    AllStoredFrame(before, cache, t.kids[c + 1..], next);
    SplitFrame(after, cache, r.split, FirstOf(t.kids[c + 1..], next));
    WithKidStored(cache, t, c, r.split, next);
  }

  /** The kid to go on with, and what its insert will come to. */
  lemma KidReady(cache: Cache, t: Tree, next: int, k: Key, v: int, unused: int)
    requires t.Inner? && Shaped(t) && Distinct(t) && AllUnder(NodeIds(t), unused) && Stored(cache, t, next)
    ensures var c := ChildIndex(t.keys, k);
      var kid := t.kids[c];
      && cache[t.id] == InternalNode(t.keys, Roots(t.kids)) && Roots(t.kids)[c] == kid.id
      && Stored(cache, kid, FirstOf(t.kids[c + 1..], next)) && Shaped(kid) && Distinct(kid)
      && NodeIds(kid) <= NodeIds(t) && t.id !in NodeIds(kid)
      && IdsAfter(kid, unused, PutTree(kid, k, v, unused))
      && SplitFirst(PutTree(kid, k, v, unused).split) == FirstLeaf(kid)
  {
    var c := ChildIndex(t.keys, k);
    KidIds(t, c);
    StoredAround(cache, t, c, next);
    PutIds(t.kids[c], k, v, unused);
    PutFirst(t.kids[c], k, v, unused);
  }

  /** The kid's insert is done: the node with the result in place is stored once it is written. */
  lemma KidDone(before: Cache, after: Cache, t: Tree, next: int, k: Key, v: int, unused: int)
    requires t.Inner? && Shaped(t) && Distinct(t) && AllUnder(NodeIds(t), unused) && Stored(before, t, next)
    requires var c := ChildIndex(t.keys, k);
      && Kept(before, after, NodeIds(t.kids[c]), unused)
      && SplitStored(after, PutTree(t.kids[c], k, v, unused).split, FirstOf(t.kids[c + 1..], next))
    ensures var c := ChildIndex(t.keys, k);
      var r := PutTree(t.kids[c], k, v, unused);
      var t' := WithKid(t, c, r.split);
      && Stored(after[t.id := InternalNode(t'.keys, Roots(t'.kids))], t', next)
      && Distinct(t') && NodeIds(t') == NodeIds(t) + Range(unused, r.next) && t'.id == t.id && unused <= r.next
      && t.id in after && after[t.id] == InternalNode(t.keys, Roots(t.kids))
      && (r.split.Whole? ==> Roots(t'.kids) == Roots(t.kids) && t'.keys == t.keys)
      && (r.split.Halves? ==> r.split.left.id == t.kids[c].id)
  {
    var c := ChildIndex(t.keys, k);
    var r := PutTree(t.kids[c], k, v, unused);
    KidReady(before, t, next, k, v, unused);
    NodeStored(before, after, t, next, c, unused, r);
    WithKidAfter(t, c, unused, r);
    if r.split.Whole? {
      assert Roots(t.kids[c := r.split.tree]) == Roots(t.kids);
    }
  }

  lemma SplitFrame(cache: Cache, cache': Cache, split: Split, next: int)
    requires SplitStored(cache, split, next) && SameOn(cache, cache', SplitIds(split))
    ensures SplitStored(cache', split, next)
  {
    match split
    case Whole(t) => StoredFrame(cache, cache', t, next);
    case Halves(left, _, right) =>
      StoredFrame(cache, cache', left, FirstLeaf(right));
      StoredFrame(cache, cache', right, next);
  }

  lemma RootsSplit(ts: seq<Tree>, n: nat)
    requires n <= |ts|
    ensures ts[..n] + ts[n..] == ts && Roots(ts[..n]) == Roots(ts)[..n] && Roots(ts[n..]) == Roots(ts)[n..]
  {
    assert forall i :: 0 <= i < |ts| - n ==> Roots(ts[n..])[i] == ts[n..][i].id == ts[n + i].id;
  }

  /** The two halves of a stored node. */
  lemma HalvesStored(cache: Cache, t: Tree, next: int, unused: int)
    requires t.Inner? && |t.kids| == |t.keys| + 1 && |t.keys| > MAX_KEYS
    requires Stored(cache, t, next) && Distinct(t) && AllUnder(NodeIds(t), unused)
    ensures var mid := |t.keys| / 2;
      var left := InternalNode(t.keys[..mid], Roots(t.kids)[..mid + 1]);
      var right := InternalNode(t.keys[mid + 1..], Roots(t.kids)[mid + 1..]);
      SplitStored(cache[unused := right][t.id := left], SplitInner(t, unused).split, next)
  {
    var mid := |t.keys| / 2;
    var a, b := t.kids[..mid + 1], t.kids[mid + 1..];
    var left := InternalNode(t.keys[..mid], Roots(t.kids)[..mid + 1]);
    var right := InternalNode(t.keys[mid + 1..], Roots(t.kids)[mid + 1..]);
    var cache' := cache[unused := right][t.id := left];
    RootsSplit(t.kids, mid + 1);
    AllStoredConcat(cache, a, b, next);
    AllIdsConcat(a, b);
    assert AllIds(a) <= NodeIds(t) && AllIds(b) <= NodeIds(t) && unused !in NodeIds(t) && t.id !in AllIds(a) + AllIds(b);
    AllStoredFrame(cache, cache', a, FirstOf(b, next));
    AllStoredFrame(cache, cache', b, next);
  }

  // ---------- trees the index may hold ----------

  /** A tree the index may hold. */
  ghost predicate Sound(t: Tree, h: nat, nodeCount: int) {
    && 0 <= t.id && WellFormed(t, h, Unbounded, Unbounded) && Distinct(t) && Packed(t)
    && forall x :: x in NodeIds(t) ==> 0 <= x < nodeCount
  }

  lemma {:induction false} PutCount(t: Tree, h: nat, lo: Bound, hi: Bound, k: Key, v: int, unused: int)
    requires WellFormed(t, h, lo, hi) && Shaped(t)
    ensures unused <= PutTree(t, k, v, unused).next <= unused + h + 1
    decreases t
  {
    if t.Inner? {
      var c := ChildIndex(t.keys, k);
      PutCount(t.kids[c], h - 1, Low(t.keys, lo, c), High(t.keys, hi, c), k, v, unused);
    }
  }

  /** Facts about the tree the index holds. */
  lemma SoundFacts(t: Tree, h: nat, nodeCount: int)
    requires Sound(t, h, nodeCount) && 0 <= nodeCount <= INT_MAX
    ensures Shaped(t) && h <= 6 && SortedEntries(Entries(t))
  {
    WellFormedIsShaped(t, h, Unbounded, Unbounded);
    HeightBound(t, h, Unbounded, Unbounded, nodeCount);
    EntriesSorted(t, h, Unbounded, Unbounded);
  }

  /** The tree once a split root has its new parent. */
  function Grown(split: Split, id: int): Tree {
    match split
    case Whole(t) => t
    case Halves(left, key, right) => Inner(id, [key], [left, right])
  }

  lemma PutSound(t: Tree, h: nat, nodeCount: int, k: Key, v: int)
    requires Sound(t, h, nodeCount) && Shaped(t) && 0 <= nodeCount
    ensures var r := PutTree(t, k, v, nodeCount);
      && nodeCount <= r.next <= nodeCount + h + 1
      && SplitSound(r.split, h, r.next)
      && SplitEntries(r.split) == PutEntry(Entries(t), k, v)
  {
    var r := PutTree(t, k, v, nodeCount);
    PutCount(t, h, Unbounded, Unbounded, k, v, nodeCount);
    PutKeepsWellFormed(t, h, Unbounded, Unbounded, k, v, nodeCount);
    PutKeepsPacked(t, k, v, nodeCount, true);
    PutIds(t, k, v, nodeCount);
    PutEntriesOf(t, h, Unbounded, Unbounded, k, v, nodeCount);
  }

  ghost predicate SplitSound(split: Split, h: nat, next: int) {
    && SplitWellFormed(split, h, Unbounded, Unbounded) && SplitPacked(split, true) && SplitDistinct(split)
    && forall x :: x in SplitIds(split) ==> 0 <= x < next
  }

  /** The tree after an insert, with a new root when the old one split. */
  lemma GrownSound(split: Split, h: nat, next: int)
    requires SplitSound(split, h, next) && 0 <= next
    ensures split.Whole? ==> Sound(split.tree, h, next)
    ensures split.Halves? ==> Sound(Grown(split, next), h + 1, next + 1)
    ensures Entries(Grown(split, next)) == SplitEntries(split)
  {
    if split.Whole? {
      assert split.tree.id in NodeIds(split.tree) && SplitIds(split) == NodeIds(split.tree);
    } else {
      RootSound(split, h, next);
    }
  }

  lemma TwoKids(left: Tree, right: Tree)
    ensures AllEntries([left, right]) == Entries(left) + Entries(right)
    ensures AllIds([left, right]) == NodeIds(left) + NodeIds(right)
    ensures AllDistinct([left, right]) <==> Distinct(left) && Distinct(right) && NodeIds(left) !! NodeIds(right)
  {
    assert [left] + [right] == [left, right];
    AllEntriesConcat([left], [right]);
    AllEntriesOne(left);
    AllEntriesOne(right);
    AllIdsConcat([left], [right]);
    AllDistinctConcat([left], [right]);
    OneTree(left);
    OneTree(right);
  }

  lemma RootWellFormed(split: Split, h: nat, id: int)
    requires split.Halves? && SplitWellFormed(split, h, Unbounded, Unbounded)
    ensures WellFormed(Grown(split, id), h + 1, Unbounded, Unbounded)
  {
    var keys, kids := [split.key], [split.left, split.right];
    forall i: nat | i < |kids|
      ensures WellFormed(kids[i], h, Low(keys, Unbounded, i), High(keys, Unbounded, i))
    {
    }
  }

  lemma RootSound(split: Split, h: nat, id: int)
    requires split.Halves? && SplitSound(split, h, id) && 0 <= id
    ensures Sound(Grown(split, id), h + 1, id + 1)
    ensures Entries(Grown(split, id)) == SplitEntries(split)
  {
    TwoKids(split.left, split.right);
    RootWellFormed(split, h, id);
    assert NodeIds(Grown(split, id)) == SplitIds(split) + {id};
  }

  /** An insert adds at most one node a level, and a root. */
  const ROOM: int := 8

  /** The tree after an insert at the root. */
  lemma InsertSound(t: Tree, h: nat, nodeCount: int, k: Key, v: int)
    requires Sound(t, h, nodeCount) && Shaped(t) && h <= 6 && 0 <= nodeCount && nodeCount + ROOM <= INT_MAX
    ensures var r := PutTree(t, k, v, nodeCount);
      && 0 <= r.next < INT_MAX && (forall x :: x in SplitIds(r.split) ==> 0 <= x < r.next)
      && (r.split.Whole? ==> Sound(Grown(r.split, r.next), h, r.next))
      && (r.split.Halves? ==> Sound(Grown(r.split, r.next), h + 1, r.next + 1))
      && Entries(Grown(r.split, r.next)) == PutEntry(Entries(t), k, v)
  {
    PutSound(t, h, nodeCount, k, v);
    GrownSound(PutTree(t, k, v, nodeCount).split, h, PutTree(t, k, v, nodeCount).next);
  }

  lemma InsertKeepsRoot(t: Tree, k: Key, v: int, nodeCount: int)
    requires Shaped(t) && Distinct(t) && AllUnder(NodeIds(t), nodeCount)
    ensures SplitRoot(PutTree(t, k, v, nodeCount).split) == t.id
  {
    PutIds(t, k, v, nodeCount);
  }

  lemma RootStored(cache: Cache, split: Split, id: int)
    requires split.Halves? && SplitStored(cache, split, -1) && forall x :: x in SplitIds(split) ==> x < id
    ensures Stored(cache[id := InternalNode([split.key], [split.left.id, split.right.id])], Grown(split, id), -1)
  {
    var left, right := split.left, split.right;
    var cache' := cache[id := InternalNode([split.key], [left.id, right.id])];
    SplitFrame(cache, cache', split, -1);
    assert [left] + [right] == [left, right];
    AllStoredConcat(cache', [left], [right], -1);
    OneStored(cache', left, FirstLeaf(right));
    OneStored(cache', right, -1);
    assert Roots([left, right]) == [left.id, right.id];
  }

  lemma OneLeafSound(key: Key, value: int, id: int)
    requires 0 <= id
    ensures Sound(Leaf(id, [key], [[value]]), 0, id + 1)
    ensures Entries(Leaf(id, [key], [[value]])) == PutEntry([], key, value)
  {
  }

  lemma RemoveSound(t: Tree, h: nat, nodeCount: int, cache: Cache, k: Key, v: int)
    requires Sound(t, h, nodeCount) && Shaped(t) && Stored(cache, t, -1)
    ensures Sound(RemoveTree(t, k, v), h, nodeCount)
    ensures Entries(RemoveTree(t, k, v)) == RemoveEntry(Entries(t), k, v)
  {
    RemoveKeepsWellFormed(t, h, Unbounded, Unbounded, k, v);
    RemoveKeepsPacked(t, k, v, true);
    RemoveStored(cache, t, -1, k, v);
    RemoveEntriesOf(t, h, Unbounded, Unbounded, k, v);
  }
}
