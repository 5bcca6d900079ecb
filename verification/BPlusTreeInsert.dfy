/** Well-formed B+ trees. */
module BPlusTreeInsert {
  // Inserting, removing and searching in them.

  import opened BPlusTree

  // ---------- well-formed trees ----------

  datatype Bound = Unbounded | At(key: Key)

  predicate AtLeast(lo: Bound, k: Key) {
    lo.Unbounded? || lo.key <= k
  }

  predicate Above(lo: Bound, k: Key) {
    lo.Unbounded? || lo.key < k
  }

  predicate Below(k: Key, hi: Bound) {
    hi.Unbounded? || k < hi.key
  }

  /** The bounds of kid i. */
  function Low(keys: seq<Key>, lo: Bound, i: nat): Bound
    requires i <= |keys|
  {
    if i == 0 then lo else At(keys[i - 1])
  }

  function High(keys: seq<Key>, hi: Bound, i: nat): Bound
    requires i <= |keys|
  {
    if i == |keys| then hi else At(keys[i])
  }

  ghost predicate LeafKeys(keys: seq<Key>, lo: Bound, hi: Bound) {
    Ascending(keys) && forall i :: 0 <= i < |keys| ==> AtLeast(lo, keys[i]) && Below(keys[i], hi)
  }

  ghost predicate Separators(keys: seq<Key>, lo: Bound, hi: Bound) {
    Ascending(keys) && forall i :: 0 <= i < |keys| ==> Above(lo, keys[i]) && Below(keys[i], hi)
  }

  /** All leaves at depth h; keys sorted and left of the separator or at and right of it. */
  ghost predicate WellFormed(t: Tree, h: nat, lo: Bound, hi: Bound)
    decreases t
  {
    match t
    case Leaf(_, keys, values) =>
      h == 0 && |values| == |keys| <= MAX_KEYS && LeafKeys(keys, lo, hi)
    case Inner(_, keys, kids) =>
      && h > 0 && |kids| == |keys| + 1 && 1 <= |keys| <= MAX_KEYS && Separators(keys, lo, hi)
      && forall i: nat :: i < |kids| ==> WellFormed(kids[i], h - 1, Low(keys, lo, i), High(keys, hi, i))
  }

  // ---------- searching ----------

  /** The first index whose key is not smaller, or the length. */
  function Position(keys: seq<Key>, k: Key): (pos: nat)
    ensures pos <= |keys|
    ensures forall i :: 0 <= i < pos ==> keys[i] < k
    ensures pos < |keys| ==> keys[pos] >= k
  {
    if keys == [] || keys[0] >= k then 0
    else
      var rest := Position(keys[1..], k);
      assert forall i :: 0 < i < rest + 1 ==> keys[i] == keys[1..][i - 1];
      1 + rest
  }

  function ChildIndex(keys: seq<Key>, k: Key): (c: nat)
    ensures c <= |keys|
  {
    var pos := Position(keys, k);
    if pos < |keys| && k >= keys[pos] then pos + 1 else pos
  }

  /** k is within the bounds of the child it leads to. */
  lemma ChildBounds(keys: seq<Key>, k: Key, lo: Bound, hi: Bound)
    requires Ascending(keys) && AtLeast(lo, k) && Below(k, hi)
    ensures var c := ChildIndex(keys, k); AtLeast(Low(keys, lo, c), k) && Below(k, High(keys, hi, c))
  {
  }

  lemma {:induction false} EntriesWithin(t: Tree, h: nat, lo: Bound, hi: Bound, e: Entry)
    requires WellFormed(t, h, lo, hi) && e in Entries(t)
    ensures AtLeast(lo, e.key) && Below(e.key, hi)
    decreases t
  {
    if t.Inner? {
      var i := EntryOfKid(t.kids, e);
      EntriesWithin(t.kids[i], h - 1, Low(t.keys, lo, i), High(t.keys, hi, i), e);
    }
  }

  lemma {:induction false} EntryOfKid(ts: seq<Tree>, e: Entry) returns (i: nat)
    requires e in AllEntries(ts)
    ensures i < |ts| && e in Entries(ts[i])
  {
    if e in Entries(ts[0]) {
      i := 0;
    } else {
      i := EntryOfKid(ts[1..], e);
      i := i + 1;
    }
  }

  lemma EntryOfKidWithin(t: Tree, h: nat, lo: Bound, hi: Bound, i: nat, e: Entry)
    requires t.Inner? && WellFormed(t, h, lo, hi) && i < |t.kids| && e in Entries(t.kids[i])
    ensures AtLeast(Low(t.keys, lo, i), e.key) && Below(e.key, High(t.keys, hi, i))
  {
    EntriesWithin(t.kids[i], h - 1, Low(t.keys, lo, i), High(t.keys, hi, i), e);
  }

  lemma EntryLeft(t: Tree, h: nat, lo: Bound, hi: Bound, k: Key, e: Entry)
    requires t.Inner? && WellFormed(t, h, lo, hi) && e in AllEntries(t.kids[..ChildIndex(t.keys, k)])
    ensures e.key < k
  {
    var i := EntryOfKid(t.kids[..ChildIndex(t.keys, k)], e);
    EntryOfKidWithin(t, h, lo, hi, i, e);
    LeftOfChild(t.keys, k, i);
  }

  lemma EntryRight(t: Tree, h: nat, lo: Bound, hi: Bound, k: Key, e: Entry)
    requires t.Inner? && WellFormed(t, h, lo, hi) && e in AllEntries(t.kids[ChildIndex(t.keys, k) + 1..])
    ensures k < e.key
  {
    var c := ChildIndex(t.keys, k);
    var i := EntryOfKid(t.kids[c + 1..], e);
    var n := c + 1 + i;
    assert t.kids[c + 1..][i] == t.kids[n];
    EntryOfKidWithin(t, h, lo, hi, n, e);
    RightOfChild(t.keys, k, n);
    assert Low(t.keys, lo, n) == At(t.keys[n - 1]);
  }

  /** Entries left of the child k leads to are smaller, those right of it larger. */
  lemma Neighbours(t: Tree, h: nat, lo: Bound, hi: Bound, k: Key)
    requires t.Inner? && WellFormed(t, h, lo, hi)
    ensures var c := ChildIndex(t.keys, k);
      KeysBelow(AllEntries(t.kids[..c]), k) && KeysAbove(AllEntries(t.kids[c + 1..]), k)
  {
    var c := ChildIndex(t.keys, k);
    forall e | e in AllEntries(t.kids[..c])
      ensures e.key < k
    {
      EntryLeft(t, h, lo, hi, k, e);
    }
    forall e | e in AllEntries(t.kids[c + 1..])
      ensures k < e.key
    {
      EntryRight(t, h, lo, hi, k, e);
    }
  }

  lemma LeftOfChild(keys: seq<Key>, k: Key, i: nat)
    requires Ascending(keys) && i < ChildIndex(keys, k)
    ensures keys[i] <= k
  {
  }

  lemma RightOfChild(keys: seq<Key>, k: Key, i: nat)
    requires Ascending(keys) && ChildIndex(keys, k) < i <= |keys|
    ensures k < keys[i - 1]
  {
  }

  datatype Found = NotFound | Values(values: seq<int>)

  function SearchTree(t: Tree, k: Key): Found
    decreases t
  {
    match t
    case Leaf(_, keys, values) =>
      var pos := Position(keys, k);
      if pos < |keys| && pos < |values| && keys[pos] == k then Values(values[pos]) else NotFound
    case Inner(_, keys, kids) =>
      var c := ChildIndex(keys, k);
      if c < |kids| then SearchTree(kids[c], k) else NotFound
  }

  function Listed(es: seq<Entry>, k: Key): Found {
    if Has(es, k) then Values(Find(es, k)) else NotFound
  }

  lemma {:induction false} LeafSearch(keys: seq<Key>, values: seq<seq<int>>, k: Key)
    requires |keys| == |values| && Ascending(keys)
    ensures var pos := Position(keys, k);
      Listed(Zip(keys, values), k) == if pos < |keys| && keys[pos] == k then Values(values[pos]) else NotFound
  {
    if keys != [] {
      assert Zip(keys, values)[1..] == Zip(keys[1..], values[1..]);
      if keys[0] < k {
        LeafSearch(keys[1..], values[1..], k);
      } else if keys[0] > k {
        FindAbsent(Zip(keys, values), k);
      }
    }
  }

  /** Searching a well-formed tree finds exactly what its entries list. */
  lemma {:induction false} SearchFinds(t: Tree, h: nat, lo: Bound, hi: Bound, k: Key)
    requires WellFormed(t, h, lo, hi)
    ensures SearchTree(t, k) == Listed(Entries(t), k)
    decreases t
  {
    match t
    case Leaf(_, keys, values) =>
      LeafSearch(keys, values, k);
    case Inner(_, keys, kids) =>
      var c := ChildIndex(keys, k);
      SearchFinds(kids[c], h - 1, Low(keys, lo, c), High(keys, hi, c), k);
      Neighbours(t, h, lo, hi, k);
      EntriesAround(kids, c);
      FindIn(AllEntries(kids[..c]), Entries(kids[c]), AllEntries(kids[c + 1..]), k);
  }

  // ---------- inserting ----------

  /** A node after an insert: itself, or its two halves and the separator between them. */
  datatype Split = Whole(tree: Tree) | Halves(left: Tree, key: Key, right: Tree)

  /** The result and the next unused offset. */
  datatype PutResult = PutResult(split: Split, next: int)

  function LeafPut(id: int, keys: seq<Key>, values: seq<seq<int>>, k: Key, v: int): (t: Tree)
    requires |keys| == |values|
    ensures t.Leaf? && |t.keys| == |t.values|
  {
    var pos := Position(keys, k);
    if pos < |keys| && keys[pos] == k then
      Leaf(id, keys, values[pos := values[pos] + [v]])
    else
      Leaf(id, keys[..pos] + [k] + keys[pos..], values[..pos] + [[v]] + values[pos..])
  }

  function SplitLeaf(t: Tree, unused: int): PutResult
    requires t.Leaf? && |t.keys| == |t.values|
  {
    if |t.keys| > MAX_KEYS then
      var mid := (|t.keys| + 1) / 2;
      PutResult(Halves(Leaf(t.id, t.keys[..mid], t.values[..mid]), t.keys[mid], Leaf(unused, t.keys[mid..], t.values[mid..])), unused + 1)
    else PutResult(Whole(t), unused)
  }

  function SplitInner(t: Tree, unused: int): PutResult
    requires t.Inner? && |t.kids| == |t.keys| + 1
  {
    if |t.keys| > MAX_KEYS then
      var mid := |t.keys| / 2;
      PutResult(Halves(Inner(t.id, t.keys[..mid], t.kids[..mid + 1]), t.keys[mid],
                 Inner(unused, t.keys[mid + 1..], t.kids[mid + 1..])), unused + 1)
    else PutResult(Whole(t), unused)
  }

  /** The node once the result of inserting into kid c is in place. */
  function WithKid(t: Tree, c: nat, split: Split): (t': Tree)
    requires t.Inner? && |t.kids| == |t.keys| + 1 && c < |t.kids|
    ensures t'.Inner? && |t'.kids| == |t'.keys| + 1
  {
    match split
    case Whole(kid) => Inner(t.id, t.keys, t.kids[c := kid])
    case Halves(left, key, right) =>
      Inner(t.id, t.keys[..c] + [key] + t.keys[c..], t.kids[..c] + [left] + [right] + t.kids[c + 1..])
  }

  ghost predicate Shaped(t: Tree)
    decreases t
  {
    match t
    case Leaf(_, keys, values) => |values| == |keys|
    case Inner(_, keys, kids) => |kids| == |keys| + 1 && forall i :: 0 <= i < |kids| ==> Shaped(kids[i])
  }

  function PutTree(t: Tree, k: Key, v: int, unused: int): PutResult
    requires Shaped(t)
    decreases t
  {
    match t
    case Leaf(id, keys, values) => SplitLeaf(LeafPut(id, keys, values, k, v), unused)
    case Inner(_, keys, kids) =>
      var c := ChildIndex(keys, k);
      var PutResult(split, next) := PutTree(kids[c], k, v, unused);
      var t' := WithKid(t, c, split);
      if split.Halves? then SplitInner(t', next) else PutResult(Whole(t'), next)
  }

  function SplitEntries(split: Split): seq<Entry> {
    match split
    case Whole(t) => Entries(t)
    case Halves(left, _, right) => Entries(left) + Entries(right)
  }

  ghost predicate SplitWellFormed(split: Split, h: nat, lo: Bound, hi: Bound) {
    match split
    case Whole(t) => WellFormed(t, h, lo, hi)
    case Halves(left, key, right) =>
      Above(lo, key) && Below(key, hi) && WellFormed(left, h, lo, At(key)) && WellFormed(right, h, At(key), hi)
  }

  lemma {:induction false} WellFormedIsShaped(t: Tree, h: nat, lo: Bound, hi: Bound)
    requires WellFormed(t, h, lo, hi)
    ensures Shaped(t)
    decreases t
  {
    if t.Inner? {
      forall i: nat | i < |t.kids|
        ensures Shaped(t.kids[i])
      {
        WellFormedIsShaped(t.kids[i], h - 1, Low(t.keys, lo, i), High(t.keys, hi, i));
      }
    }
  }

  // ---------- an insert keeps the tree well-formed ----------

  lemma LeafPutKeys(keys: seq<Key>, values: seq<seq<int>>, k: Key, v: int, lo: Bound, hi: Bound)
    requires |keys| == |values| && LeafKeys(keys, lo, hi) && AtLeast(lo, k) && Below(k, hi)
    ensures LeafKeys(LeafPut(0, keys, values, k, v).keys, lo, hi)
    ensures |LeafPut(0, keys, values, k, v).keys| <= |keys| + 1
  {
  }

  lemma LeafKeysSplit(keys: seq<Key>, mid: nat, lo: Bound, hi: Bound)
    requires LeafKeys(keys, lo, hi) && 0 < mid < |keys|
    ensures LeafKeys(keys[..mid], lo, At(keys[mid])) && LeafKeys(keys[mid..], At(keys[mid]), hi)
    ensures Above(lo, keys[mid]) && Below(keys[mid], hi)
  {
    assert keys[0] < keys[mid];
  }

  lemma SplitLeafKeeps(t: Tree, unused: int, lo: Bound, hi: Bound)
    requires t.Leaf? && |t.keys| == |t.values| <= MAX_KEYS + 1 && LeafKeys(t.keys, lo, hi)
    ensures SplitWellFormed(SplitLeaf(t, unused).split, 0, lo, hi)
  {
    if |t.keys| > MAX_KEYS {
      LeafKeysSplit(t.keys, (|t.keys| + 1) / 2, lo, hi);
    }
  }

  lemma WholeKidKeeps(t: Tree, h: nat, lo: Bound, hi: Bound, c: nat, kid: Tree)
    requires t.Inner? && WellFormed(t, h, lo, hi) && c < |t.kids|
    requires WellFormed(kid, h - 1, Low(t.keys, lo, c), High(t.keys, hi, c))
    ensures WellFormed(WithKid(t, c, Whole(kid)), h, lo, hi)
  {
  }

  /** A node with one key too many at most. */
  ghost predicate Overfull(t: Tree, h: nat, lo: Bound, hi: Bound) {
    && t.Inner? && h > 0 && |t.kids| == |t.keys| + 1 && 1 <= |t.keys| <= MAX_KEYS + 1 && Separators(t.keys, lo, hi)
    && forall i: nat :: i < |t.kids| ==> WellFormed(t.kids[i], h - 1, Low(t.keys, lo, i), High(t.keys, hi, i))
  }

  lemma BoundsWith(keys: seq<Key>, c: nat, key: Key, lo: Bound, hi: Bound, i: nat)
    requires c <= |keys| && i <= |keys| + 1
    ensures var keys' := keys[..c] + [key] + keys[c..];
      && Low(keys', lo, i) == (if i <= c then Low(keys, lo, i) else if i == c + 1 then At(key) else Low(keys, lo, i - 1))
      && High(keys', hi, i) == (if i < c then High(keys, hi, i) else if i == c then At(key) else High(keys, hi, i - 1))
  {
  }

  lemma SplitKidKeeps(t: Tree, h: nat, lo: Bound, hi: Bound, c: nat, split: Split)
    requires t.Inner? && WellFormed(t, h, lo, hi) && c < |t.kids| && split.Halves?
    requires SplitWellFormed(split, h - 1, Low(t.keys, lo, c), High(t.keys, hi, c))
    ensures Overfull(WithKid(t, c, split), h, lo, hi)
  {
    var t' := WithKid(t, c, split);
    SeparatorsWith(t.keys, c, split.key, lo, hi);
    forall i: nat | i < |t'.kids|
      ensures WellFormed(t'.kids[i], h - 1, Low(t'.keys, lo, i), High(t'.keys, hi, i))
    {
      BoundsWith(t.keys, c, split.key, lo, hi, i);
      if i < c {
        assert t'.kids[i] == t.kids[i];
      } else if i > c + 1 {
        assert t'.kids[i] == t.kids[i - 1];
      }
    }
  }

  lemma SeparatorsWith(keys: seq<Key>, c: nat, key: Key, lo: Bound, hi: Bound)
    requires Separators(keys, lo, hi) && c <= |keys|
    requires Above(Low(keys, lo, c), key) && Below(key, High(keys, hi, c))
    ensures Separators(keys[..c] + [key] + keys[c..], lo, hi)
  {
  }

  lemma SeparatorsSplit(keys: seq<Key>, mid: nat, lo: Bound, hi: Bound)
    requires Separators(keys, lo, hi) && mid < |keys|
    ensures Separators(keys[..mid], lo, At(keys[mid])) && Separators(keys[mid + 1..], At(keys[mid]), hi)
    ensures Above(lo, keys[mid]) && Below(keys[mid], hi)
  {
  }

  lemma BoundsSplit(keys: seq<Key>, mid: nat, lo: Bound, hi: Bound, i: nat)
    requires mid < |keys| && i <= |keys|
    ensures i <= mid ==> Low(keys[..mid], lo, i) == Low(keys, lo, i) && High(keys[..mid], At(keys[mid]), i) == High(keys, hi, i)
    ensures i > mid ==> Low(keys[mid + 1..], At(keys[mid]), i - mid - 1) == Low(keys, lo, i)
    ensures i > mid ==> High(keys[mid + 1..], hi, i - mid - 1) == High(keys, hi, i)
  {
  }

  lemma LeftHalf(t: Tree, h: nat, mid: nat, lo: Bound, hi: Bound)
    requires Overfull(t, h, lo, hi) && 1 <= mid < |t.keys|
    ensures WellFormed(Inner(t.id, t.keys[..mid], t.kids[..mid + 1]), h, lo, At(t.keys[mid]))
  {
    SeparatorsSplit(t.keys, mid, lo, hi);
    forall i: nat | i < mid + 1
      ensures WellFormed(t.kids[..mid + 1][i], h - 1, Low(t.keys[..mid], lo, i), High(t.keys[..mid], At(t.keys[mid]), i))
    {
      BoundsSplit(t.keys, mid, lo, hi, i);
    }
  }

  lemma RightHalf(t: Tree, h: nat, id: int, mid: nat, lo: Bound, hi: Bound)
    requires Overfull(t, h, lo, hi) && 1 <= mid < |t.keys| - 1
    ensures WellFormed(Inner(id, t.keys[mid + 1..], t.kids[mid + 1..]), h, At(t.keys[mid]), hi)
  {
    SeparatorsSplit(t.keys, mid, lo, hi);
    var keys, kids := t.keys[mid + 1..], t.kids[mid + 1..];
    forall i: nat | i < |kids|
      ensures WellFormed(kids[i], h - 1, Low(keys, At(t.keys[mid]), i), High(keys, hi, i))
    {
      BoundsSplit(t.keys, mid, lo, hi, mid + 1 + i);
      assert kids[i] == t.kids[mid + 1 + i];
    }
  }

  lemma SplitInnerKeeps(t: Tree, h: nat, unused: int, lo: Bound, hi: Bound)
    requires Overfull(t, h, lo, hi)
    ensures SplitWellFormed(SplitInner(t, unused).split, h, lo, hi)
  {
    if |t.keys| > MAX_KEYS {
      var mid := |t.keys| / 2;
      SeparatorsSplit(t.keys, mid, lo, hi);
      LeftHalf(t, h, mid, lo, hi);
      RightHalf(t, h, unused, mid, lo, hi);
    }
  }

  lemma {:induction false} PutKeepsWellFormed(t: Tree, h: nat, lo: Bound, hi: Bound, k: Key, v: int, unused: int)
    requires WellFormed(t, h, lo, hi) && Shaped(t) && AtLeast(lo, k) && Below(k, hi)
    ensures SplitWellFormed(PutTree(t, k, v, unused).split, h, lo, hi)
    decreases t
  {
    match t
    case Leaf(id, keys, values) =>
      LeafPutKeys(keys, values, k, v, lo, hi);
      SplitLeafKeeps(LeafPut(id, keys, values, k, v), unused, lo, hi);
    case Inner(_, keys, kids) =>
      var c := ChildIndex(keys, k);
      ChildBounds(keys, k, lo, hi);
      PutKeepsWellFormed(kids[c], h - 1, Low(keys, lo, c), High(keys, hi, c), k, v, unused);
      var PutResult(split, next) := PutTree(kids[c], k, v, unused);
      if split.Whole? {
        WholeKidKeeps(t, h, lo, hi, c, split.tree);
      } else {
        SplitKidKeeps(t, h, lo, hi, c, split);
        SplitInnerKeeps(WithKid(t, c, split), h, next, lo, hi);
      }
  }

  // ---------- an insert appends to one key's values ----------

  lemma ZipConcat(ka: seq<Key>, kb: seq<Key>, va: seq<seq<int>>, vb: seq<seq<int>>)
    requires |ka| == |va| && |kb| == |vb|
    ensures Zip(ka + kb, va + vb) == Zip(ka, va) + Zip(kb, vb)
  {
  }

  /** Putting before or into the first entry of the rest. */
  lemma PutBetween(a: seq<Entry>, b: seq<Entry>, k: Key, v: int)
    requires KeysBelow(a, k) && (b != [] ==> k < b[0].key)
    ensures PutEntry(a + b, k, v) == a + [Entry(k, [v])] + b
  {
    PutAfter(a, b, k, v);
    assert a + ([Entry(k, [v])] + b) == a + [Entry(k, [v])] + b;
  }

  lemma PutInto(a: seq<Entry>, e: Entry, b: seq<Entry>, v: int)
    requires KeysBelow(a, e.key)
    ensures PutEntry(a + [e] + b, e.key, v) == a + [Entry(e.key, e.values + [v])] + b
  {
    assert a + [e] + b == a + ([e] + b) && ([e] + b)[1..] == b;
    PutAfter(a, [e] + b, e.key, v);
    assert a + ([Entry(e.key, e.values + [v])] + b) == a + [Entry(e.key, e.values + [v])] + b;
  }

  lemma LeafPutEntries(id: int, keys: seq<Key>, values: seq<seq<int>>, k: Key, v: int)
    requires |keys| == |values|
    ensures Entries(LeafPut(id, keys, values, k, v)) == PutEntry(Zip(keys, values), k, v)
  {
    var pos := Position(keys, k);
    if pos < |keys| && keys[pos] == k {
      LeafHit(id, keys, values, pos, v);
    } else {
      LeafMiss(id, keys, values, k, v);
    }
  }

  lemma LeafHit(id: int, keys: seq<Key>, values: seq<seq<int>>, pos: nat, v: int)
    requires |keys| == |values| && pos < |keys| && forall i :: 0 <= i < pos ==> keys[i] < keys[pos]
    ensures Entries(Leaf(id, keys, values[pos := values[pos] + [v]])) == PutEntry(Zip(keys, values), keys[pos], v)
  {
    var es := Zip(keys, values);
    PutInto(es[..pos], es[pos], es[pos + 1..], v);
    assert es == es[..pos] + [es[pos]] + es[pos + 1..];
    assert Zip(keys, values[pos := values[pos] + [v]]) == es[..pos] + [Entry(keys[pos], values[pos] + [v])] + es[pos + 1..];
  }

  lemma LeafMiss(id: int, keys: seq<Key>, values: seq<seq<int>>, k: Key, v: int)
    requires var pos := Position(keys, k); |keys| == |values| && (pos < |keys| ==> keys[pos] != k)
    ensures Entries(LeafPut(id, keys, values, k, v)) == PutEntry(Zip(keys, values), k, v)
  {
    var pos := Position(keys, k);
    var es := Zip(keys, values);
    PutBetween(es[..pos], es[pos..], k, v);
    assert es == es[..pos] + es[pos..];
    ZipConcat(keys[..pos] + [k], keys[pos..], values[..pos] + [[v]], values[pos..]);
    assert Zip(keys[..pos] + [k], values[..pos] + [[v]]) == es[..pos] + [Entry(k, [v])];
    assert Zip(keys[pos..], values[pos..]) == es[pos..];
  }

  lemma SplitLeafEntries(t: Tree, unused: int)
    requires t.Leaf? && |t.keys| == |t.values|
    ensures SplitEntries(SplitLeaf(t, unused).split) == Entries(t)
  {
    if |t.keys| > MAX_KEYS {
      var mid := (|t.keys| + 1) / 2;
      assert t.keys[..mid] + t.keys[mid..] == t.keys && t.values[..mid] + t.values[mid..] == t.values;
      ZipConcat(t.keys[..mid], t.keys[mid..], t.values[..mid], t.values[mid..]);
    }
  }

  lemma SplitInnerEntries(t: Tree, unused: int)
    requires t.Inner? && |t.kids| == |t.keys| + 1
    ensures SplitEntries(SplitInner(t, unused).split) == Entries(t)
  {
    if |t.keys| > MAX_KEYS {
      var mid := |t.keys| / 2;
      assert t.kids[..mid + 1] + t.kids[mid + 1..] == t.kids;
      AllEntriesConcat(t.kids[..mid + 1], t.kids[mid + 1..]);
    }
  }

  lemma WithKidEntries(t: Tree, c: nat, split: Split)
    requires t.Inner? && |t.kids| == |t.keys| + 1 && c < |t.kids|
    ensures Entries(WithKid(t, c, split)) == AllEntries(t.kids[..c]) + SplitEntries(split) + AllEntries(t.kids[c + 1..])
  {
    var a, b := t.kids[..c], t.kids[c + 1..];
    match split
    case Whole(kid) =>
      assert t.kids[c := kid] == a + [kid] + b;
      EntriesOfThree(a, kid, b);
    case Halves(left, _, right) =>
      assert a + [left] + [right] + b == (a + [left]) + [right] + b;
      EntriesOfThree(a + [left], right, b);
      AllEntriesConcat(a, [left]);
      AllEntriesOne(left);
  }

  lemma {:induction false} PutEntriesOf(t: Tree, h: nat, lo: Bound, hi: Bound, k: Key, v: int, unused: int)
    requires WellFormed(t, h, lo, hi) && Shaped(t)
    ensures SplitEntries(PutTree(t, k, v, unused).split) == PutEntry(Entries(t), k, v)
    decreases t
  {
    match t
    case Leaf(id, keys, values) =>
      LeafPutEntries(id, keys, values, k, v);
      SplitLeafEntries(LeafPut(id, keys, values, k, v), unused);
    case Inner(_, keys, kids) =>
      var c := ChildIndex(keys, k);
      PutEntriesOf(kids[c], h - 1, Low(keys, lo, c), High(keys, hi, c), k, v, unused);
      var PutResult(split, next) := PutTree(kids[c], k, v, unused);
      WithKidEntries(t, c, split);
      Neighbours(t, h, lo, hi, k);
      EntriesAround(kids, c);
      PutEntryIn(AllEntries(kids[..c]), Entries(kids[c]), AllEntries(kids[c + 1..]), k, v);
      if split.Halves? {
        SplitInnerEntries(WithKid(t, c, split), next);
      }
  }

  /** The entries of a well-formed tree are sorted by key. */
  lemma {:induction false} EntriesSorted(t: Tree, h: nat, lo: Bound, hi: Bound)
    requires WellFormed(t, h, lo, hi)
    ensures SortedEntries(Entries(t))
    decreases t
  {
    if t.Inner? {
      forall i: nat | i < |t.kids|
        ensures SortedEntries(Entries(t.kids[i]))
      {
        EntriesSorted(t.kids[i], h - 1, Low(t.keys, lo, i), High(t.keys, hi, i));
      }
      KidsSorted(t, h, lo, hi, |t.kids|);
      assert t.kids[..|t.kids|] == t.kids;
    }
  }

  lemma EarlierKid(t: Tree, h: nat, lo: Bound, hi: Bound, n: nat, e: Entry, f: Entry)
    requires t.Inner? && WellFormed(t, h, lo, hi) && n < |t.kids|
    requires e in AllEntries(t.kids[..n]) && f in Entries(t.kids[n])
    ensures e.key < f.key
  {
    var i := EntryOfKid(t.kids[..n], e);
    EntryOfKidWithin(t, h, lo, hi, i, e);
    EntryOfKidWithin(t, h, lo, hi, n, f);
    assert t.keys[i] <= t.keys[n - 1];
  }

  lemma {:induction false} KidsSorted(t: Tree, h: nat, lo: Bound, hi: Bound, n: nat)
    requires t.Inner? && WellFormed(t, h, lo, hi) && n <= |t.kids|
    requires forall i: nat :: i < |t.kids| ==> SortedEntries(Entries(t.kids[i]))
    ensures SortedEntries(AllEntries(t.kids[..n]))
  {
    if n > 0 {
      KidsSorted(t, h, lo, hi, n - 1);
      assert t.kids[..n] == t.kids[..n - 1] + [t.kids[n - 1]];
      AllEntriesConcat(t.kids[..n - 1], [t.kids[n - 1]]);
      AllEntriesOne(t.kids[n - 1]);
      forall e, f | e in AllEntries(t.kids[..n - 1]) && f in Entries(t.kids[n - 1])
        ensures e.key < f.key
      {
        EarlierKid(t, h, lo, hi, n - 1, e, f);
      }
      SortedJoin(AllEntries(t.kids[..n - 1]), Entries(t.kids[n - 1]));
    }
  }

  lemma SortedJoin(a: seq<Entry>, b: seq<Entry>)
    requires SortedEntries(a) && SortedEntries(b) && forall e, f :: e in a && f in b ==> e.key < f.key
    ensures SortedEntries(a + b)
  {
    forall i, j | 0 <= i < j < |a + b|
      ensures (a + b)[i].key < (a + b)[j].key
    {
      if i < |a| <= j {
        assert a[i] in a && b[j - |a|] in b;
      }
    }
  }

  // ---------- removing ----------

  function LeafRemove(id: int, keys: seq<Key>, values: seq<seq<int>>, k: Key, v: int): (t: Tree)
    requires |keys| == |values|
    ensures t.Leaf? && |t.keys| == |t.values| <= |keys|
  {
    var pos := Position(keys, k);
    if pos < |keys| && keys[pos] == k then
      var left := Without(values[pos], v);
      if left == [] then Leaf(id, keys[..pos] + keys[pos + 1..], values[..pos] + values[pos + 1..])
      else Leaf(id, keys, values[pos := left])
    else Leaf(id, keys, values)
  }

  /** Only the leaf changes: nothing is merged or rebalanced. */
  function RemoveTree(t: Tree, k: Key, v: int): Tree
    requires Shaped(t)
    decreases t
  {
    match t
    case Leaf(id, keys, values) => LeafRemove(id, keys, values, k, v)
    case Inner(id, keys, kids) =>
      var c := ChildIndex(keys, k);
      Inner(id, keys, kids[c := RemoveTree(kids[c], k, v)])
  }

  lemma {:induction false} RemoveKeepsWellFormed(t: Tree, h: nat, lo: Bound, hi: Bound, k: Key, v: int)
    requires WellFormed(t, h, lo, hi) && Shaped(t)
    ensures WellFormed(RemoveTree(t, k, v), h, lo, hi)
    decreases t
  {
    if t.Inner? {
      var c := ChildIndex(t.keys, k);
      RemoveKeepsWellFormed(t.kids[c], h - 1, Low(t.keys, lo, c), High(t.keys, hi, c), k, v);
      WholeKidKeeps(t, h, lo, hi, c, RemoveTree(t.kids[c], k, v));
    }
  }

  lemma RemoveFrom(a: seq<Entry>, e: Entry, b: seq<Entry>, v: int)
    requires KeysBelow(a, e.key)
    ensures RemoveEntry(a + [e] + b, e.key, v) ==
      a + (if Without(e.values, v) == [] then [] else [Entry(e.key, Without(e.values, v))]) + b
  {
    var left := Without(e.values, v);
    assert a + [e] + b == a + ([e] + b) && ([e] + b)[1..] == b;
    RemoveAfter(a, [e] + b, e.key, v);
    assert a + ([Entry(e.key, left)] + b) == a + [Entry(e.key, left)] + b;
    assert a + [] + b == a + b;
  }

  lemma LeafRemoveEntries(id: int, keys: seq<Key>, values: seq<seq<int>>, k: Key, v: int)
    requires |keys| == |values| && Ascending(keys)
    ensures Entries(LeafRemove(id, keys, values, k, v)) == RemoveEntry(Zip(keys, values), k, v)
  {
    var pos := Position(keys, k);
    if pos < |keys| && keys[pos] == k {
      LeafRemoveHit(id, keys, values, pos, v);
    } else {
      RemoveAbsent(Zip(keys, values), k, v);
    }
  }

  /** The list of entries without one key, or with other values for it. */
  lemma ZipAround(keys: seq<Key>, values: seq<seq<int>>, pos: nat, left: seq<int>)
    requires |keys| == |values| && pos < |keys|
    ensures var es := Zip(keys, values);
      && es == es[..pos] + [es[pos]] + es[pos + 1..]
      && Zip(keys[..pos] + keys[pos + 1..], values[..pos] + values[pos + 1..]) == es[..pos] + [] + es[pos + 1..]
      && Zip(keys, values[pos := left]) == es[..pos] + [Entry(keys[pos], left)] + es[pos + 1..]
  {
  }

  lemma LeafRemoveHit(id: int, keys: seq<Key>, values: seq<seq<int>>, pos: nat, v: int)
    requires |keys| == |values| && pos < |keys| && forall i :: 0 <= i < pos ==> keys[i] < keys[pos]
    ensures var left := Without(values[pos], v);
      RemoveEntry(Zip(keys, values), keys[pos], v) ==
      if left == [] then Zip(keys[..pos] + keys[pos + 1..], values[..pos] + values[pos + 1..])
      else Zip(keys, values[pos := left])
  {
    var es := Zip(keys, values);
    ZipAround(keys, values, pos, Without(values[pos], v));
    RemoveFrom(es[..pos], es[pos], es[pos + 1..], v);
  }

  lemma {:induction false} RemoveEntriesOf(t: Tree, h: nat, lo: Bound, hi: Bound, k: Key, v: int)
    requires WellFormed(t, h, lo, hi) && Shaped(t)
    ensures Entries(RemoveTree(t, k, v)) == RemoveEntry(Entries(t), k, v)
    decreases t
  {
    match t
    case Leaf(id, keys, values) =>
      LeafRemoveEntries(id, keys, values, k, v);
    case Inner(_, keys, kids) =>
      var c := ChildIndex(keys, k);
      RemoveEntriesOf(kids[c], h - 1, Low(keys, lo, c), High(keys, hi, c), k, v);
      WithKidEntries(t, c, Whole(RemoveTree(kids[c], k, v)));
      Neighbours(t, h, lo, hi, k);
      EntriesAround(kids, c);
      RemoveEntryIn(AllEntries(kids[..c]), Entries(kids[c]), AllEntries(kids[c + 1..]), k, v);
  }
}
