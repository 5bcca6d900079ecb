/** Trees in a store of nodes addressed by offset, and how many nodes a tree of some height has. */
module BPlusTreeNodes {
  import opened Wrappers
  import opened Collections
  import opened BPlusTree
  import opened BPlusTreeInsert

  datatype Node =
    | LeafNode(keys: seq<Key>, values: seq<seq<int>>, nextLeaf: int)
    | InternalNode(keys: seq<Key>, children: seq<int>)

  type Cache = map<int, Node>

  // ---------- the offsets of a tree ----------

  function NodeIds(t: Tree): set<int>
    decreases t
  {
    match t
    case Leaf(id, _, _) => {id}
    case Inner(id, _, kids) => {id} + AllIds(kids)
  }

  function AllIds(ts: seq<Tree>): set<int>
    decreases ts
  {
    if ts == [] then {} else NodeIds(ts[0]) + AllIds(ts[1..])
  }

  /** No node is shared. */
  predicate Distinct(t: Tree)
    decreases t
  {
    t.Inner? ==> t.id !in AllIds(t.kids) && AllDistinct(t.kids)
  }

  predicate AllDistinct(ts: seq<Tree>)
    decreases ts
  {
    ts == [] || (Distinct(ts[0]) && NodeIds(ts[0]) !! AllIds(ts[1..]) && AllDistinct(ts[1..]))
  }

  lemma {:induction false} AllIdsConcat(a: seq<Tree>, b: seq<Tree>)
    ensures AllIds(a + b) == AllIds(a) + AllIds(b)
  {
    if a == [] {
      assert a + b == b;
    } else {
      assert (a + b)[1..] == a[1..] + b;
      AllIdsConcat(a[1..], b);
    }
  }

  lemma {:induction false} AllDistinctConcat(a: seq<Tree>, b: seq<Tree>)
    ensures AllDistinct(a + b) <==> AllDistinct(a) && AllDistinct(b) && AllIds(a) !! AllIds(b)
  {
    if a == [] {
      assert a + b == b;
    } else {
      assert (a + b)[1..] == a[1..] + b;
      AllDistinctConcat(a[1..], b);
      AllIdsConcat(a[1..], b);
    }
  }

  lemma OneTree(t: Tree)
    ensures AllIds([t]) == NodeIds(t) && (AllDistinct([t]) <==> Distinct(t))
  {
    assert [t][1..] == [];
  }

  lemma IdsOfThree(a: seq<Tree>, t: Tree, b: seq<Tree>)
    ensures AllIds(a + [t] + b) == AllIds(a) + NodeIds(t) + AllIds(b)
    ensures AllDistinct(a + [t] + b) <==>
      && AllDistinct(a) && Distinct(t) && AllDistinct(b)
      && AllIds(a) !! NodeIds(t) && AllIds(a) + NodeIds(t) !! AllIds(b)
  {
    OneTree(t);
    AllIdsConcat(a + [t], b);
    AllIdsConcat(a, [t]);
    AllDistinctConcat(a + [t], b);
    AllDistinctConcat(a, [t]);
  }

  function SplitIds(split: Split): set<int> {
    match split
    case Whole(t) => NodeIds(t)
    case Halves(left, _, right) => NodeIds(left) + NodeIds(right)
  }

  predicate SplitDistinct(split: Split) {
    match split
    case Whole(t) => Distinct(t)
    case Halves(left, _, right) => Distinct(left) && Distinct(right) && NodeIds(left) !! NodeIds(right)
  }

  function SplitRoot(split: Split): int {
    match split
    case Whole(t) => t.id
    case Halves(left, _, _) => left.id
  }

  function Range(a: int, b: int): (r: set<int>)
    ensures forall x :: x in r <==> a <= x < b
    decreases b - a
  {
    if b <= a then {} else Range(a, b - 1) + {b - 1}
  }

  ghost predicate AllUnder(ids: set<int>, n: int) {
    forall x :: x in ids ==> x < n
  }

  lemma WithKidIds(t: Tree, c: nat, split: Split)
    requires t.Inner? && |t.kids| == |t.keys| + 1 && c < |t.kids|
    ensures AllIds(t.kids) == AllIds(t.kids[..c]) + NodeIds(t.kids[c]) + AllIds(t.kids[c + 1..])
    ensures AllIds(WithKid(t, c, split).kids) == AllIds(t.kids[..c]) + SplitIds(split) + AllIds(t.kids[c + 1..])
  {
    var a, b := t.kids[..c], t.kids[c + 1..];
    SplitAt(t.kids, c);
    IdsOfThree(a, t.kids[c], b);
    match split
    case Whole(kid) =>
      assert t.kids[c := kid] == a + [kid] + b;
      IdsOfThree(a, kid, b);
    case Halves(left, _, right) =>
      IdsOfThree(a + [left], right, b);
      AllIdsConcat(a, [left]);
      OneTree(left);
  }

  lemma WithKidDistinct(t: Tree, c: nat, split: Split)
    requires t.Inner? && |t.kids| == |t.keys| + 1 && c < |t.kids|
    requires AllDistinct(t.kids) && SplitDistinct(split)
    requires SplitIds(split) * AllIds(t.kids) <= NodeIds(t.kids[c])
    ensures AllDistinct(WithKid(t, c, split).kids)
  {
    var a, b := t.kids[..c], t.kids[c + 1..];
    SplitAt(t.kids, c);
    IdsOfThree(a, t.kids[c], b);
    match split
    case Whole(kid) =>
      assert t.kids[c := kid] == a + [kid] + b;
      IdsOfThree(a, kid, b);
    case Halves(left, _, right) =>
      IdsOfThree(a + [left], right, b);
      AllIdsConcat(a, [left]);
      AllDistinctConcat(a, [left]);
      OneTree(left);
  }

  /** The offsets after an insert: the tree's own, and the unused ones in order. */
  ghost predicate IdsAfter(t: Tree, unused: int, r: PutResult) {
    && SplitIds(r.split) == NodeIds(t) + Range(unused, r.next)
    && SplitDistinct(r.split)
    && SplitRoot(r.split) == t.id
    && unused <= r.next
    && (r.split.Halves? ==> unused <= r.split.right.id < r.next)
  }

  lemma SplitInnerIds(t: Tree, unused: int)
    requires t.Inner? && |t.kids| == |t.keys| + 1 && Distinct(t) && AllUnder(NodeIds(t), unused)
    ensures IdsAfter(t, unused, SplitInner(t, unused))
  {
    if |t.keys| > MAX_KEYS {
      var mid := |t.keys| / 2;
      assert t.kids[..mid + 1] + t.kids[mid + 1..] == t.kids;
      AllIdsConcat(t.kids[..mid + 1], t.kids[mid + 1..]);
      AllDistinctConcat(t.kids[..mid + 1], t.kids[mid + 1..]);
    }
  }

  lemma KidIds(t: Tree, c: nat)
    requires t.Inner? && c < |t.kids|
    ensures NodeIds(t.kids[c]) <= NodeIds(t) && t.id in NodeIds(t)
    ensures Distinct(t) ==> Distinct(t.kids[c]) && t.id !in NodeIds(t.kids[c])
  {
    SplitAt(t.kids, c);
    IdsOfThree(t.kids[..c], t.kids[c], t.kids[c + 1..]);
  }

  /** The node with its kid's result in place, before it is split itself. */
  lemma WithKidAfter(t: Tree, c: nat, unused: int, r: PutResult)
    requires t.Inner? && |t.kids| == |t.keys| + 1 && c < |t.kids| && Distinct(t) && AllUnder(NodeIds(t), unused)
    requires IdsAfter(t.kids[c], unused, r)
    ensures var t' := WithKid(t, c, r.split);
      NodeIds(t') == NodeIds(t) + Range(unused, r.next) && Distinct(t') && t'.id == t.id
  {
    WithKidIds(t, c, r.split);
    assert SplitIds(r.split) * AllIds(t.kids) <= NodeIds(t.kids[c]) by {
      assert AllIds(t.kids) <= NodeIds(t);
    }
    WithKidDistinct(t, c, r.split);
  }

  lemma {:induction false} PutIds(t: Tree, k: Key, v: int, unused: int)
    requires Shaped(t) && Distinct(t) && AllUnder(NodeIds(t), unused)
    ensures IdsAfter(t, unused, PutTree(t, k, v, unused))
    decreases t
  {
    if t.Inner? {
      var c := ChildIndex(t.keys, k);
      KidIds(t, c);
      PutIds(t.kids[c], k, v, unused);
      var r := PutTree(t.kids[c], k, v, unused);
      WithKidAfter(t, c, unused, r);
      if r.split.Halves? {
        SplitInnerIds(WithKid(t, c, r.split), r.next);
      }
    }
  }

  // ---------- a tree in the node store ----------

  function FirstLeaf(t: Tree): int
    decreases t
  {
    if t.Inner? && t.kids != [] then FirstLeaf(t.kids[0]) else t.id
  }

  /** The first leaf of ts, or `next` without any. */
  function FirstOf(ts: seq<Tree>, next: int): int {
    if ts == [] then next else FirstLeaf(ts[0])
  }

  function Roots(ts: seq<Tree>): (ids: seq<int>)
    ensures |ids| == |ts|
  {
    seq(|ts|, i requires 0 <= i < |ts| => ts[i].id)
  }

  /** Every node of t is in the store, and its last leaf is linked to `next`. */
  ghost predicate Stored(cache: Cache, t: Tree, next: int)
    decreases t
  {
    t.id in cache &&
    match t
    case Leaf(id, keys, values) => cache[id] == LeafNode(keys, values, next)
    case Inner(id, keys, kids) => cache[id] == InternalNode(keys, Roots(kids)) && AllStored(cache, kids, next)
  }

  ghost predicate AllStored(cache: Cache, ts: seq<Tree>, next: int)
    decreases ts
  {
    ts == [] || (Stored(cache, ts[0], FirstOf(ts[1..], next)) && AllStored(cache, ts[1..], next))
  }

  lemma {:induction false} AllStoredConcat(cache: Cache, a: seq<Tree>, b: seq<Tree>, next: int)
    ensures AllStored(cache, a + b, next) <==> AllStored(cache, a, FirstOf(b, next)) && AllStored(cache, b, next)
  {
    if a == [] {
      assert a + b == b;
    } else {
      assert (a + b)[1..] == a[1..] + b;
      AllStoredConcat(cache, a[1..], b, next);
    }
  }

  lemma OneStored(cache: Cache, t: Tree, next: int)
    ensures AllStored(cache, [t], next) <==> Stored(cache, t, next)
  {
    assert [t][1..] == [];
  }

  lemma StoredOfThree(cache: Cache, a: seq<Tree>, t: Tree, b: seq<Tree>, next: int)
    ensures AllStored(cache, a + [t] + b, next) <==>
      AllStored(cache, a, FirstLeaf(t)) && Stored(cache, t, FirstOf(b, next)) && AllStored(cache, b, next)
  {
    AllStoredConcat(cache, a + [t], b, next);
    AllStoredConcat(cache, a, [t], FirstOf(b, next));
    OneStored(cache, t, FirstOf(b, next));
  }

  /** The stores agree on the given offsets. */
  ghost predicate SameOn(cache: Cache, cache': Cache, ids: set<int>) {
    forall x :: x in ids && x in cache ==> x in cache' && cache'[x] == cache[x]
  }

  lemma {:induction false} StoredFrame(cache: Cache, cache': Cache, t: Tree, next: int)
    requires Stored(cache, t, next) && SameOn(cache, cache', NodeIds(t))
    ensures Stored(cache', t, next)
    decreases t
  {
    if t.Inner? {
      AllStoredFrame(cache, cache', t.kids, next);
    }
  }

  lemma {:induction false} AllStoredFrame(cache: Cache, cache': Cache, ts: seq<Tree>, next: int)
    requires AllStored(cache, ts, next) && SameOn(cache, cache', AllIds(ts))
    ensures AllStored(cache', ts, next)
    decreases ts
  {
    if ts != [] {
      StoredFrame(cache, cache', ts[0], FirstOf(ts[1..], next));
      AllStoredFrame(cache, cache', ts[1..], next);
    }
  }

  ghost predicate SplitStored(cache: Cache, split: Split, next: int) {
    match split
    case Whole(t) => Stored(cache, t, next)
    case Halves(left, _, right) => Stored(cache, left, FirstLeaf(right)) && Stored(cache, right, next)
  }

  function SplitFirst(split: Split): int {
    match split
    case Whole(t) => FirstLeaf(t)
    case Halves(left, _, _) => FirstLeaf(left)
  }

  /** Inserting leaves the first leaf in place. */
  lemma {:induction false} PutFirst(t: Tree, k: Key, v: int, unused: int)
    requires Shaped(t)
    ensures SplitFirst(PutTree(t, k, v, unused).split) == FirstLeaf(t)
    decreases t
  {
    if t.Inner? {
      var c := ChildIndex(t.keys, k);
      PutFirst(t.kids[c], k, v, unused);
    }
  }

  /** The kids are stored once the result for kid c is, next to the other ones. */
  lemma WithKidStored(cache: Cache, t: Tree, c: nat, split: Split, next: int)
    requires t.Inner? && |t.kids| == |t.keys| + 1 && c < |t.kids|
    requires AllStored(cache, t.kids[..c], FirstLeaf(t.kids[c])) && AllStored(cache, t.kids[c + 1..], next)
    requires SplitStored(cache, split, FirstOf(t.kids[c + 1..], next)) && SplitFirst(split) == FirstLeaf(t.kids[c])
    ensures AllStored(cache, WithKid(t, c, split).kids, next)
  {
    var a, b := t.kids[..c], t.kids[c + 1..];
    match split
    case Whole(kid) =>
      assert t.kids[c := kid] == a + [kid] + b;
      StoredOfThree(cache, a, kid, b, next);
    case Halves(left, _, right) =>
      StoredOfThree(cache, a + [left], right, b, next);
      AllStoredConcat(cache, a, [left], FirstLeaf(right));
      OneStored(cache, left, FirstLeaf(right));
  }

  /** The kids around kid c, and kid c itself, as the store has them. */
  lemma StoredAround(cache: Cache, t: Tree, c: nat, next: int)
    requires t.Inner? && c < |t.kids| && Stored(cache, t, next)
    ensures AllStored(cache, t.kids[..c], FirstLeaf(t.kids[c])) && AllStored(cache, t.kids[c + 1..], next)
    ensures Stored(cache, t.kids[c], FirstOf(t.kids[c + 1..], next))
    ensures cache[t.id] == InternalNode(t.keys, Roots(t.kids))
  {
    SplitAt(t.kids, c);
    StoredOfThree(cache, t.kids[..c], t.kids[c], t.kids[c + 1..], next);
  }

  // ---------- the chain of leaves ----------

  function Leaves(t: Tree): seq<Tree>
    decreases t
  {
    match t
    case Leaf(_, _, _) => [t]
    case Inner(_, _, kids) => AllLeaves(kids)
  }

  function AllLeaves(ts: seq<Tree>): seq<Tree>
    decreases ts
  {
    if ts == [] then [] else Leaves(ts[0]) + AllLeaves(ts[1..])
  }

  /** What a walk along the leaf links from `id` meets, up to `next`. */
  ghost predicate Chained(cache: Cache, id: int, leaves: seq<Tree>, next: int)
    decreases |leaves|
  {
    if leaves == [] then id == next
    else
      var leaf := leaves[0];
      && leaf.Leaf? && leaf.id == id && id in cache && cache[id].LeafNode?
      && cache[id].keys == leaf.keys && cache[id].values == leaf.values
      && Chained(cache, cache[id].nextLeaf, leaves[1..], next)
  }

  lemma {:induction false} ChainedConcat(cache: Cache, id: int, a: seq<Tree>, mid: int, b: seq<Tree>, next: int)
    requires Chained(cache, id, a, mid) && Chained(cache, mid, b, next)
    ensures Chained(cache, id, a + b, next)
    decreases |a|
  {
    if a == [] {
      assert a + b == b;
    } else {
      assert (a + b)[1..] == a[1..] + b;
      ChainedConcat(cache, cache[id].nextLeaf, a[1..], mid, b, next);
    }
  }

  lemma {:induction false} LeafChain(cache: Cache, t: Tree, next: int)
    requires Stored(cache, t, next) && Shaped(t)
    ensures Chained(cache, FirstLeaf(t), Leaves(t), next) && AllEntries(Leaves(t)) == Entries(t)
    decreases t
  {
    if t.Leaf? {
      assert [t][1..] == [];
    } else {
      AllLeafChain(cache, t.kids, next);
    }
  }

  lemma {:induction false} AllLeafChain(cache: Cache, ts: seq<Tree>, next: int)
    requires AllStored(cache, ts, next) && forall i :: 0 <= i < |ts| ==> Shaped(ts[i])
    ensures Chained(cache, FirstOf(ts, next), AllLeaves(ts), next) && AllEntries(AllLeaves(ts)) == AllEntries(ts)
    decreases ts
  {
    if ts != [] {
      LeafChain(cache, ts[0], FirstOf(ts[1..], next));
      AllLeafChain(cache, ts[1..], next);
      ChainedConcat(cache, FirstLeaf(ts[0]), Leaves(ts[0]), FirstOf(ts[1..], next), AllLeaves(ts[1..]), next);
      AllEntriesConcat(Leaves(ts[0]), AllLeaves(ts[1..]));
    }
  }

  // ---------- height ----------

  /** Every internal node but the root has at least MIN_KEYS keys. */
  ghost predicate Packed(t: Tree)
    decreases t
  {
    t.Inner? ==> forall i :: 0 <= i < |t.kids| ==> Full(t.kids[i])
  }

  ghost predicate Full(t: Tree)
    decreases t
  {
    t.Inner? ==> |t.keys| >= MIN_KEYS && forall i :: 0 <= i < |t.kids| ==> Full(t.kids[i])
  }

  ghost predicate SplitPacked(split: Split, root: bool) {
    match split
    case Whole(t) => if root then Packed(t) else Full(t)
    case Halves(left, _, right) => Full(left) && Full(right)
  }

  ghost predicate AllFull(ts: seq<Tree>) {
    forall i :: 0 <= i < |ts| ==> Full(ts[i])
  }

  lemma WithKidFull(t: Tree, c: nat, split: Split)
    requires t.Inner? && |t.kids| == |t.keys| + 1 && c < |t.kids| && AllFull(t.kids) && SplitPacked(split, false)
    ensures AllFull(WithKid(t, c, split).kids)
  {
    var kids := WithKid(t, c, split).kids;
    forall i | 0 <= i < |kids|
      ensures Full(kids[i])
    {
      if i < c {
        assert kids[i] == t.kids[i];
      } else if split.Halves? && i > c + 1 {
        assert kids[i] == t.kids[i - 1];
      }
    }
  }

  lemma SplitInnerFull(t: Tree, unused: int, root: bool)
    requires t.Inner? && |t.kids| == |t.keys| + 1 && AllFull(t.kids) && (root || |t.keys| >= MIN_KEYS)
    ensures SplitPacked(SplitInner(t, unused).split, root)
  {
  }

  lemma {:induction false} PutKeepsPacked(t: Tree, k: Key, v: int, unused: int, root: bool)
    requires Shaped(t) && (if root then Packed(t) else Full(t))
    ensures SplitPacked(PutTree(t, k, v, unused).split, root)
    decreases t
  {
    if t.Inner? {
      var c := ChildIndex(t.keys, k);
      PutKeepsPacked(t.kids[c], k, v, unused, false);
      var PutResult(split, next) := PutTree(t.kids[c], k, v, unused);
      assert AllFull(t.kids);
      WithKidFull(t, c, split);
      SplitInnerFull(WithKid(t, c, split), next, root);
    }
  }

  lemma {:induction false} RemoveKeepsPacked(t: Tree, k: Key, v: int, root: bool)
    requires Shaped(t) && (if root then Packed(t) else Full(t))
    ensures var t' := RemoveTree(t, k, v); if root then Packed(t') else Full(t')
    decreases t
  {
    if t.Inner? {
      RemoveKeepsPacked(t.kids[ChildIndex(t.keys, k)], k, v, false);
    }
  }

  function Power(b: nat, e: nat): nat {
    if e == 0 then 1 else b * Power(b, e - 1)
  }

  lemma MoreOf(n: nat, m: nat, x: nat)
    requires n >= m
    ensures n * x >= m * x
  {
  }

  lemma OneMore(n: nat, x: nat, a: nat, b: nat)
    requires n > 0 && a >= x && b >= (n - 1) * x
    ensures a + b >= n * x
  {
  }

  lemma FirstOfAll(ts: seq<Tree>)
    requires ts != [] && AllDistinct(ts)
    ensures |AllIds(ts)| == |NodeIds(ts[0])| + |AllIds(ts[1..])|
    ensures |AllLeaves(ts)| == |Leaves(ts[0])| + |AllLeaves(ts[1..])|
  {
  }

  /** A full tree of height h has at least 32^h leaves, hence as many nodes. */
  lemma {:induction false} FullTreeSize(t: Tree, h: nat, lo: Bound, hi: Bound)
    requires WellFormed(t, h, lo, hi) && Full(t) && Distinct(t)
    ensures |NodeIds(t)| >= Power(MIN_KEYS + 1, h) && |Leaves(t)| >= Power(MIN_KEYS + 1, h)
    decreases t, |Kids(t)| + 1
  {
    if t.Inner? {
      assert AllFull(t.kids);
      AllFullSize(t, h, lo, hi, 0);
      assert t.kids[0..] == t.kids;
      MoreOf(|t.kids|, MIN_KEYS + 1, Power(MIN_KEYS + 1, h - 1));
    }
  }

  function Kids(t: Tree): seq<Tree> {
    if t.Inner? then t.kids else []
  }

  /** One kid more of at least x nodes and x leaves. */
  lemma KidsAddUp(kids: seq<Tree>, x: nat)
    requires kids != [] && AllDistinct(kids) && |NodeIds(kids[0])| >= x && |Leaves(kids[0])| >= x
    requires |AllIds(kids[1..])| >= (|kids| - 1) * x && |AllLeaves(kids[1..])| >= (|kids| - 1) * x
    ensures |AllIds(kids)| >= |kids| * x && |AllLeaves(kids)| >= |kids| * x
  {
    FirstOfAll(kids);
    OneMore(|kids|, x, |NodeIds(kids[0])|, |AllIds(kids[1..])|);
    OneMore(|kids|, x, |Leaves(kids[0])|, |AllLeaves(kids[1..])|);
  }

  lemma {:induction false} AllFullSize(t: Tree, h: nat, lo: Bound, hi: Bound, n: nat)
    requires t.Inner? && WellFormed(t, h, lo, hi) && n <= |t.kids| && AllDistinct(t.kids[n..]) && AllFull(t.kids)
    ensures |AllIds(t.kids[n..])| >= (|t.kids| - n) * Power(MIN_KEYS + 1, h - 1)
    ensures |AllLeaves(t.kids[n..])| >= (|t.kids| - n) * Power(MIN_KEYS + 1, h - 1)
    decreases t, |t.kids| - n
  {
    if n < |t.kids| {
      var kids, x := t.kids[n..], Power(MIN_KEYS + 1, h - 1);
      assert kids[1..] == t.kids[n + 1..] && |kids| - 1 == |t.kids| - (n + 1);
      FullTreeSize(kids[0], h - 1, Low(t.keys, lo, n), High(t.keys, hi, n));
      AllFullSize(t, h, lo, hi, n + 1);
      KidsAddUp(kids, x);
    }
  }

  /** With d >= 1 internal levels there are at least 2 * 32^(d - 1) leaves. */
  lemma LeafCount(t: Tree, d: nat, lo: Bound, hi: Bound)
    requires WellFormed(t, d, lo, hi) && Packed(t) && Distinct(t) && d >= 1
    ensures |Leaves(t)| >= 2 * Power(MIN_KEYS + 1, d - 1) && |NodeIds(t)| >= 2 * Power(MIN_KEYS + 1, d - 1)
  {
    assert AllFull(t.kids) && t.kids[0..] == t.kids;
    AllFullSize(t, d, lo, hi, 0);
    MoreOf(|t.kids|, 2, Power(MIN_KEYS + 1, d - 1));
    assert t.id !in AllIds(t.kids);
  }

  lemma {:induction false} PowerGrows(b: nat, d: nat, e: nat)
    requires b >= 1 && d <= e
    ensures 1 <= Power(b, d) <= Power(b, e)
  {
    if d < e {
      PowerGrows(b, d, e - 1);
      MoreOf(b, 1, Power(b, e - 1));
    } else if d > 0 {
      PowerGrows(b, d - 1, d - 1);
    }
  }

  lemma {:induction false} RangeSize(a: int, b: int)
    requires a <= b
    ensures |Range(a, b)| == b - a
    decreases b - a
  {
    if a < b {
      RangeSize(a, b - 1);
    }
  }

  lemma UnderCount(ids: set<int>, n: nat)
    requires forall x :: x in ids ==> 0 <= x < n
    ensures |ids| <= n
  {
    RangeSize(0, n);
    SubsetSize(ids, Range(0, n));
  }

  /** Offsets fit in 31 bits, so trees stay far from the 100 levels after which a search gives up. */
  lemma HeightBound(t: Tree, d: nat, lo: Bound, hi: Bound, nodeCount: nat)
    requires WellFormed(t, d, lo, hi) && Packed(t) && Distinct(t)
    requires nodeCount <= INT_MAX && forall x :: x in NodeIds(t) ==> 0 <= x < nodeCount
    ensures d <= 6
  {
    if d > 6 {
      LeafCount(t, d, lo, hi);
      UnderCount(NodeIds(t), nodeCount);
      PowerGrows(MIN_KEYS + 1, 6, d - 1);
      SixthPower();
    }
  }

  lemma SixthPower()
    ensures Power(32, 6) == 0x4000_0000
  {
    assert Power(32, 1) == 32 && Power(32, 2) == 1024 && Power(32, 3) == 32768;
    assert Power(32, 4) == 1048576 && Power(32, 5) == 33554432;
  }
}
