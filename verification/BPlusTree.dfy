/** B+ trees as values. */
module BPlusTree {
  // Their shape, what they hold, and what inserting and removing one pair does. Keys are strings of
  // bytes in the source. Only their order matters to the tree, and lexicographic order embeds into
  // that of the reals (see StringKeys).

  type Key = real

  const BPTREE_ORDER: nat := 64
  const MIN_KEYS: nat := (BPTREE_ORDER - 1) / 2
  const MAX_KEYS: nat := BPTREE_ORDER - 1

  /** `id` is the node's offset. */
  datatype Tree =
    | Leaf(id: int, keys: seq<Key>, values: seq<seq<int>>)
    | Inner(id: int, keys: seq<Key>, kids: seq<Tree>)

  // ---------- what a tree holds ----------

  datatype Entry = Entry(key: Key, values: seq<int>)

  function Zip(keys: seq<Key>, values: seq<seq<int>>): (es: seq<Entry>)
    requires |keys| == |values|
    ensures |es| == |keys|
  {
    seq(|keys|, i requires 0 <= i < |keys| => Entry(keys[i], values[i]))
  }

  /** Every key once, in the order of the leaves. */
  function Entries(t: Tree): seq<Entry>
    decreases t
  {
    match t
    case Leaf(_, keys, values) => if |keys| == |values| then Zip(keys, values) else []
    case Inner(_, _, kids) => AllEntries(kids)
  }

  function AllEntries(ts: seq<Tree>): seq<Entry>
    decreases ts
  {
    if ts == [] then [] else Entries(ts[0]) + AllEntries(ts[1..])
  }

  lemma {:induction false} AllEntriesConcat(a: seq<Tree>, b: seq<Tree>)
    ensures AllEntries(a + b) == AllEntries(a) + AllEntries(b)
  {
    if a == [] {
      assert a + b == b;
    } else {
      assert (a + b)[1..] == a[1..] + b;
      AllEntriesConcat(a[1..], b);
    }
  }

  lemma AllEntriesOne(t: Tree)
    ensures AllEntries([t]) == Entries(t)
  {
    assert [t][1..] == [];
  }

  lemma EntriesOfThree(a: seq<Tree>, t: Tree, b: seq<Tree>)
    ensures AllEntries(a + [t] + b) == AllEntries(a) + Entries(t) + AllEntries(b)
  {
    AllEntriesConcat(a + [t], b);
    AllEntriesConcat(a, [t]);
    AllEntriesOne(t);
  }

  lemma SplitAt(kids: seq<Tree>, c: nat)
    requires c < |kids|
    ensures kids == kids[..c] + [kids[c]] + kids[c + 1..]
  {
  }

  /** The entries left of kid c, in it, and right of it. */
  lemma EntriesAround(kids: seq<Tree>, c: nat)
    requires c < |kids|
    ensures AllEntries(kids) == AllEntries(kids[..c]) + Entries(kids[c]) + AllEntries(kids[c + 1..])
  {
    SplitAt(kids, c);
    EntriesOfThree(kids[..c], kids[c], kids[c + 1..]);
  }

  // ---------- multimaps as sorted lists ----------

  ghost predicate Ascending(keys: seq<Key>) {
    forall i, j :: 0 <= i < j < |keys| ==> keys[i] < keys[j]
  }

  ghost predicate SortedEntries(es: seq<Entry>) {
    forall i, j :: 0 <= i < j < |es| ==> es[i].key < es[j].key
  }

  /** k's values; none when k is absent. */
  function Find(es: seq<Entry>, k: Key): seq<int> {
    if es == [] then [] else if es[0].key == k then es[0].values else Find(es[1..], k)
  }

  predicate Has(es: seq<Entry>, k: Key) {
    es != [] && (es[0].key == k || Has(es[1..], k))
  }

  function PutEntry(es: seq<Entry>, k: Key, v: int): seq<Entry> {
    if es == [] then [Entry(k, [v])]
    else if es[0].key < k then [es[0]] + PutEntry(es[1..], k, v)
    else if es[0].key == k then [Entry(k, es[0].values + [v])] + es[1..]
    else [Entry(k, [v])] + es
  }

  /** All values but v, in their order. */
  function Without(values: seq<int>, v: int): seq<int> {
    if values == [] then []
    else if values[0] == v then Without(values[1..], v)
    else [values[0]] + Without(values[1..], v)
  }

  function RemoveEntry(es: seq<Entry>, k: Key, v: int): seq<Entry> {
    if es == [] then []
    else if es[0].key == k then
      var left := Without(es[0].values, v);
      if left == [] then es[1..] else [Entry(k, left)] + es[1..]
    else [es[0]] + RemoveEntry(es[1..], k, v)
  }

  ghost predicate KeysBelow(es: seq<Entry>, k: Key) {
    forall e :: e in es ==> e.key < k
  }

  ghost predicate KeysAbove(es: seq<Entry>, k: Key) {
    forall e :: e in es ==> k < e.key
  }

  lemma {:induction false} PutAfter(a: seq<Entry>, b: seq<Entry>, k: Key, v: int)
    requires KeysBelow(a, k)
    ensures PutEntry(a + b, k, v) == a + PutEntry(b, k, v)
  {
    if a == [] {
      assert a + b == b && a + PutEntry(b, k, v) == PutEntry(b, k, v);
    } else {
      assert (a + b)[1..] == a[1..] + b && a[0] in a;
      PutAfter(a[1..], b, k, v);
      assert a == [a[0]] + a[1..];
    }
  }

  lemma {:induction false} PutBefore(b: seq<Entry>, c: seq<Entry>, k: Key, v: int)
    requires KeysAbove(c, k)
    ensures PutEntry(b + c, k, v) == PutEntry(b, k, v) + c
  {
    if b == [] {
      assert b + c == c && (c != [] ==> c[0] in c);
    } else {
      assert (b + c)[1..] == b[1..] + c;
      PutBefore(b[1..], c, k, v);
    }
  }

  lemma PutEntryIn(a: seq<Entry>, b: seq<Entry>, c: seq<Entry>, k: Key, v: int)
    requires KeysBelow(a, k) && KeysAbove(c, k)
    ensures PutEntry(a + b + c, k, v) == a + PutEntry(b, k, v) + c
  {
    PutBefore(a + b, c, k, v);
    PutAfter(a, b, k, v);
  }

  lemma {:induction false} FindIn(a: seq<Entry>, b: seq<Entry>, c: seq<Entry>, k: Key)
    requires KeysBelow(a, k) && KeysAbove(c, k)
    ensures Find(a + b + c, k) == Find(b, k) && (Has(a + b + c, k) <==> Has(b, k))
    decreases |a| + |b|
  {
    if a != [] {
      assert (a + b + c)[1..] == a[1..] + b + c;
      assert a[0] in a;
      FindIn(a[1..], b, c, k);
    } else if b != [] {
      assert a + b + c == b + c && (b + c)[1..] == b[1..] + c;
      assert [] + b[1..] + c == b[1..] + c;
      FindIn([], b[1..], c, k);
    } else {
      assert a + b + c == c;
      FindAbsent(c, k);
    }
  }

  lemma {:induction false} FindMember(es: seq<Entry>, e: Entry)
    requires SortedEntries(es) && e in es
    ensures Has(es, e.key) && Find(es, e.key) == e.values
  {
    assert es == [es[0]] + es[1..];
    SortedCons(es[0], es[1..]);
    if e != es[0] {
      FindMember(es[1..], e);
    }
  }

  lemma {:induction false} FindAbsent(es: seq<Entry>, k: Key)
    requires forall e :: e in es ==> e.key != k
    ensures Find(es, k) == [] && !Has(es, k)
  {
    if es != [] {
      assert es[0] in es;
      FindAbsent(es[1..], k);
    }
  }

  lemma {:induction false} RemoveAfter(a: seq<Entry>, b: seq<Entry>, k: Key, v: int)
    requires KeysBelow(a, k)
    ensures RemoveEntry(a + b, k, v) == a + RemoveEntry(b, k, v)
  {
    if a == [] {
      assert a + b == b && a + RemoveEntry(b, k, v) == RemoveEntry(b, k, v);
    } else {
      assert (a + b)[1..] == a[1..] + b && a[0] in a;
      RemoveAfter(a[1..], b, k, v);
      assert a == [a[0]] + a[1..];
    }
  }

  lemma {:induction false} RemoveBefore(b: seq<Entry>, c: seq<Entry>, k: Key, v: int)
    requires KeysAbove(c, k)
    ensures RemoveEntry(b + c, k, v) == RemoveEntry(b, k, v) + c
  {
    if b == [] {
      assert b + c == c;
      RemoveAbsent(c, k, v);
    } else {
      assert (b + c)[1..] == b[1..] + c;
      RemoveBefore(b[1..], c, k, v);
    }
  }

  lemma RemoveEntryIn(a: seq<Entry>, b: seq<Entry>, c: seq<Entry>, k: Key, v: int)
    requires KeysBelow(a, k) && KeysAbove(c, k)
    ensures RemoveEntry(a + b + c, k, v) == a + RemoveEntry(b, k, v) + c
  {
    RemoveBefore(a + b, c, k, v);
    RemoveAfter(a, b, k, v);
  }

  lemma {:induction false} RemoveAbsent(es: seq<Entry>, k: Key, v: int)
    requires forall e :: e in es ==> e.key != k
    ensures RemoveEntry(es, k, v) == es
  {
    if es != [] {
      assert es[0] in es;
      RemoveAbsent(es[1..], k, v);
      assert es == [es[0]] + es[1..];
    }
  }

  lemma {:induction false} PutFinds(es: seq<Entry>, k: Key, v: int, other: Key)
    requires SortedEntries(es)
    ensures Find(PutEntry(es, k, v), other) == if other == k then Find(es, k) + [v] else Find(es, other)
    ensures Has(PutEntry(es, k, v), other) <==> other == k || Has(es, other)
  {
    var put := PutEntry(es, k, v);
    if es == [] {
      assert put[1..] == [];
    } else if es[0].key < k {
      PutFinds(es[1..], k, v, other);
      assert put[1..] == PutEntry(es[1..], k, v);
    } else if es[0].key == k {
      assert put[1..] == es[1..];
    } else {
      assert put[1..] == es;
      assert forall e :: e in es ==> e.key != k;
      FindAbsent(es, k);
    }
  }

  /** Each key of the result is k or was there before. */
  lemma {:induction false} PutKeys(es: seq<Entry>, k: Key, v: int, low: Key)
    requires KeysAbove(es, low) && low < k
    ensures KeysAbove(PutEntry(es, k, v), low)
  {
    if es != [] {
      assert es[0] in es;
      if es[0].key < k {
        PutKeys(es[1..], k, v, low);
      }
    }
  }

  lemma SortedCons(e: Entry, es: seq<Entry>)
    ensures SortedEntries([e] + es) <==> SortedEntries(es) && KeysAbove(es, e.key)
  {
    var all := [e] + es;
    if SortedEntries(all) {
      forall i, j | 0 <= i < j < |es|
        ensures es[i].key < es[j].key
      {
        assert all[i + 1].key < all[j + 1].key;
      }
      forall f | f in es
        ensures e.key < f.key
      {
        var j :| 0 <= j < |es| && es[j] == f;
        assert all[0].key < all[j + 1].key;
      }
    }
  }

  lemma {:induction false} PutSorted(es: seq<Entry>, k: Key, v: int)
    requires SortedEntries(es)
    ensures SortedEntries(PutEntry(es, k, v))
  {
    if es != [] {
      assert es == [es[0]] + es[1..];
      SortedCons(es[0], es[1..]);
      if es[0].key < k {
        PutSorted(es[1..], k, v);
        PutKeys(es[1..], k, v, es[0].key);
        SortedCons(es[0], PutEntry(es[1..], k, v));
      } else if es[0].key == k {
        SortedCons(Entry(k, es[0].values + [v]), es[1..]);
      } else {
        SortedCons(Entry(k, [v]), es);
      }
    }
  }

  /** Putting appends v to k's values and changes nothing else. */
  lemma PutIsMultimap(es: seq<Entry>, k: Key, v: int)
    requires SortedEntries(es)
    ensures SortedEntries(PutEntry(es, k, v))
    ensures Find(PutEntry(es, k, v), k) == Find(es, k) + [v] && Has(PutEntry(es, k, v), k)
    ensures forall other :: other != k ==>
      Find(PutEntry(es, k, v), other) == Find(es, other) && (Has(PutEntry(es, k, v), other) <==> Has(es, other))
  {
    PutSorted(es, k, v);
    PutFinds(es, k, v, k);
    forall other | other != k
      ensures Find(PutEntry(es, k, v), other) == Find(es, other) && (Has(PutEntry(es, k, v), other) <==> Has(es, other))
    {
      PutFinds(es, k, v, other);
    }
  }

  // ---------- removing ----------

  lemma {:induction false} RemoveFinds(es: seq<Entry>, k: Key, v: int, other: Key)
    requires SortedEntries(es)
    ensures Find(RemoveEntry(es, k, v), other) == if other == k then Without(Find(es, k), v) else Find(es, other)
    ensures Has(RemoveEntry(es, k, v), other) <==>
      Has(es, other) && (other == k ==> Without(Find(es, k), v) != [])
  {
    var rest := RemoveEntry(es, k, v);
    if es != [] {
      assert es == [es[0]] + es[1..];
      SortedCons(es[0], es[1..]);
      if es[0].key == k {
        FindAbsent(es[1..], k);
        if Without(es[0].values, v) != [] {
          assert rest[1..] == es[1..];
        }
      } else {
        RemoveFinds(es[1..], k, v, other);
        assert rest[1..] == RemoveEntry(es[1..], k, v);
      }
    }
  }

  lemma {:induction false} RemoveKeys(es: seq<Entry>, k: Key, v: int, low: Key)
    requires KeysAbove(es, low)
    ensures KeysAbove(RemoveEntry(es, k, v), low)
  {
    if es != [] {
      assert es[0] in es;
      if es[0].key != k {
        RemoveKeys(es[1..], k, v, low);
      }
    }
  }

  lemma {:induction false} RemoveSorted(es: seq<Entry>, k: Key, v: int)
    requires SortedEntries(es)
    ensures SortedEntries(RemoveEntry(es, k, v))
  {
    if es != [] {
      assert es == [es[0]] + es[1..];
      SortedCons(es[0], es[1..]);
      if es[0].key == k {
        SortedCons(Entry(k, Without(es[0].values, v)), es[1..]);
      } else {
        RemoveSorted(es[1..], k, v);
        RemoveKeys(es[1..], k, v, es[0].key);
        SortedCons(es[0], RemoveEntry(es[1..], k, v));
      }
    }
  }

  /** Removing takes every v from k's values, drops k when none is left, and changes nothing else. */
  lemma RemoveIsMultimap(es: seq<Entry>, k: Key, v: int)
    requires SortedEntries(es)
    ensures SortedEntries(RemoveEntry(es, k, v))
    ensures Find(RemoveEntry(es, k, v), k) == Without(Find(es, k), v)
    ensures Has(RemoveEntry(es, k, v), k) <==> Without(Find(es, k), v) != []
    ensures forall other :: other != k ==>
      Find(RemoveEntry(es, k, v), other) == Find(es, other) && (Has(RemoveEntry(es, k, v), other) <==> Has(es, other))
  {
    RemoveSorted(es, k, v);
    RemoveFinds(es, k, v, k);
    FindOnlyHeld(es, k);
    forall other | other != k
      ensures Find(RemoveEntry(es, k, v), other) == Find(es, other) && (Has(RemoveEntry(es, k, v), other) <==> Has(es, other))
    {
      RemoveFinds(es, k, v, other);
    }
  }

  lemma {:induction false} FindOnlyHeld(es: seq<Entry>, k: Key)
    ensures !Has(es, k) ==> Find(es, k) == []
  {
    if es != [] {
      FindOnlyHeld(es[1..], k);
    }
  }

  lemma {:induction false} WithoutKeepsOthers(values: seq<int>, v: int)
    ensures v !in Without(values, v)
    ensures forall x :: x != v ==> multiset(Without(values, v))[x] == multiset(values)[x]
  {
    if values != [] {
      WithoutKeepsOthers(values[1..], v);
      assert values == [values[0]] + values[1..];
    }
  }
}
