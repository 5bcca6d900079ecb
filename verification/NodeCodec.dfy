/** Index nodes as bytes: what is written at a node's place in the file is read back. */
module NodeCodec {
  import opened Binary
  import opened TypedBytes
  import BPlusTree

  type Values = vs: seq<Int64> | |vs| < U32

  const MAX_KEYS: nat := BPlusTree.MAX_KEYS

  /** A node in memory. A leaf has one list of values for each key, an internal node one child more
      than keys. */
  datatype Node =
    | Leaf(keys: seq<Str>, values: seq<Values>, nextLeaf: Int64)
    | Internal(keys: seq<Str>, children: seq<Int64>, nextLeaf: Int64)

  predicate Shaped(node: Node) {
    match node
    case Leaf(keys, values, _) => |values| == |keys| <= MAX_KEYS
    case Internal(keys, children, _) => |children| == |keys| + 1 && |keys| <= MAX_KEYS
  }

  // ---------- writing ----------

  function WriteValues(vs: Values): Bytes {
    WriteList(WriteInt64, vs)
  }

  function WritePayload(node: Node): Bytes {
    match node
    case Leaf(_, values, _) => WriteMany(WriteValues, values)
    case Internal(_, children, _) => WriteMany(WriteInt64, children)
  }

  function WriteKeyCount(n: nat): Bytes
    requires n <= MAX_KEYS
  {
    Powers();
    WriteSigned(n, 4)
  }

  function WriteNode(node: Node): Bytes
    requires Shaped(node)
  {
    [if node.Leaf? then 1 else 0] + WriteKeyCount(|node.keys|) + WriteInt64(node.nextLeaf)
    + WriteMany(WriteStr, node.keys) + WritePayload(node)
  }

  // ---------- reading ----------

  function ReadValues(s: Bytes): Read<Values> {
    var (count, s1) :- ReadUnsigned(4, s);
    var (vs, s2) :- ReadMany(ReadInt64, count, s1);
    if |vs| < U32 then Got(vs, s2) else Fail
  }

  /** A type byte, a key count that is refused when out of range, then the lists. */
  function ReadNode(s: Bytes): Read<Node> {
    var (kind, s1) :- ReadUnsigned(1, s);
    var (count, s2) :- ReadSigned(4, s1);
    if count < 0 || count > MAX_KEYS then Fail
    else
      var (nextLeaf, s3) :- ReadInt64(s2);
      var (keys, s4) :- ReadMany(ReadStr, count, s3);
      ReadPayload(kind, keys, nextLeaf, s4)
  }

  /** One list of values a key, or one child more than keys. */
  function ReadPayload(kind: nat, keys: seq<Str>, nextLeaf: Int64, s: Bytes): Read<Node> {
    if kind == 1 then
      var (values, s1) :- ReadMany(ReadValues, |keys|, s);
      Got(Leaf(keys, values, nextLeaf), s1)
    else
      var (children, s1) :- ReadMany(ReadInt64, |keys| + 1, s);
      Got(Internal(keys, children, nextLeaf), s1)
  }

  // ---------- round trip ----------

  lemma PartsRoundTrip()
    ensures forall x :: RoundTrips(WriteStr, ReadStr, x)
    ensures forall x :: RoundTrips(WriteInt64, ReadInt64, x)
    ensures forall x :: RoundTrips(WriteValues, ReadValues, x)
  {
    forall x: Str, rest
      ensures ReadStr(WriteStr(x) + rest) == Got(x, rest)
    {
      StrRoundTrip(x, rest);
    }
    forall x: Int64, rest
      ensures ReadInt64(WriteInt64(x) + rest) == Got(x, rest)
    {
      Int64RoundTrip(x, rest);
    }
    forall x: Values, rest
      ensures ReadValues(WriteValues(x) + rest) == Got(x, rest)
    {
      ListRoundTrip(WriteInt64, ReadInt64, x, rest);
    }
  }

  lemma HeadRoundTrip(kind: Byte, count: nat, nextLeaf: Int64, rest: Bytes)
    requires count <= MAX_KEYS
    ensures var s2 := WriteInt64(nextLeaf) + rest;
      var s1 := WriteKeyCount(count) + s2;
      && ReadUnsigned(1, [kind] + s1) == Got(kind, s1)
      && ReadSigned(4, s1) == Got(count, s2)
      && ReadInt64(s2) == Got(nextLeaf, rest)
  {
    Powers();
    var s2 := WriteInt64(nextLeaf) + rest;
    var s1 := WriteKeyCount(count) + s2;
    assert ([kind] + s1)[..1] == [kind] && ([kind] + s1)[1..] == s1 && [kind][1..] == [];
    assert FromLittleEndian([kind]) == kind;
    SignedRoundTrip(count, 4, s2);
    Int64RoundTrip(nextLeaf, rest);
  }

  lemma PayloadRoundTrip(node: Node, rest: Bytes)
    requires Shaped(node)
    ensures ReadPayload(if node.Leaf? then 1 else 0, node.keys, node.nextLeaf, WritePayload(node) + rest) == Got(node, rest)
  {
    PartsRoundTrip();
    match node
    case Leaf(_, values, _) => ManyRoundTrip(WriteValues, ReadValues, values, rest);
    case Internal(_, children, _) => ManyRoundTrip(WriteInt64, ReadInt64, children, rest);
  }

  /** A node of at most MAX_KEYS keys is read back, whatever follows it. */
  lemma NodeRoundTrip(node: Node, rest: Bytes)
    requires Shaped(node)
    ensures ReadNode(WriteNode(node) + rest) == Got(node, rest)
  {
    var s4 := WritePayload(node) + rest;
    var s3 := WriteMany(WriteStr, node.keys) + s4;
    var s2 := WriteInt64(node.nextLeaf) + s3;
    var s1 := WriteKeyCount(|node.keys|) + s2;
    var kind: Byte := if node.Leaf? then 1 else 0;
    Regroup6([kind], WriteKeyCount(|node.keys|), WriteInt64(node.nextLeaf), WriteMany(WriteStr, node.keys), WritePayload(node), rest);
    HeadRoundTrip(kind, |node.keys|, node.nextLeaf, s3);
    PartsRoundTrip();
    ManyRoundTrip(WriteStr, ReadStr, node.keys, s4);
    PayloadRoundTrip(node, rest);
  }

  /** A node with more keys, as an overfull one not yet split would be, is refused. */
  lemma OverfullIsRefused(kind: Byte, count: int, rest: Bytes)
    requires MAX_KEYS < count < 0x8000_0000
    ensures Fits(count, 4) && ReadNode([kind] + WriteSigned(count, 4) + rest).Fail?
  {
    Powers();
    var s1 := WriteSigned(count, 4) + rest;
    assert [kind] + WriteSigned(count, 4) + rest == [kind] + s1;
    assert ([kind] + s1)[1..] == s1;
    SignedRoundTrip(count, 4, rest);
  }
}
