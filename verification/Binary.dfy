/** Reading and writing bytes: little-endian integers, length-prefixed strings, and lists. */
module Binary {
  type Byte = b: int | 0 <= b < 256
  type Bytes = seq<Byte>

  /** A read from the front of a stream. It fails when bytes are missing. */
  datatype Read<+T> = Fail | Got(value: T, rest: Bytes) {
    predicate IsFailure() {
      Fail?
    }

    function PropagateFailure<U>(): Read<U>
      requires Fail?
    {
      Fail
    }

    function Extract(): (T, Bytes)
      requires Got?
    {
      (value, rest)
    }
  }

  /** Bytes written one after the other, seen as the first and the rest. */
  lemma Regroup(a: Bytes, b: Bytes, c: Bytes)
    ensures a + b + c == a + (b + c)
  {
  }

  lemma Regroup4(a: Bytes, b: Bytes, c: Bytes, d: Bytes)
    ensures a + b + c + d == a + b + (c + d)
  {
  }

  lemma Regroup5(a: Bytes, b: Bytes, c: Bytes, d: Bytes, e: Bytes)
    ensures a + b + c + d + e == a + b + (c + (d + e))
  {
  }

  lemma Regroup6(a: Bytes, b: Bytes, c: Bytes, d: Bytes, e: Bytes, f: Bytes)
    ensures a + b + c + d + e + f == a + (b + (c + (d + (e + f))))
  {
  }

  lemma Cut(a: Bytes, b: Bytes, n: nat)
    requires n <= |a| + |b|
    ensures (a + b)[..n] == if n < |a| then a[..n] else a + b[..n - |a|]
  {
  }

  // ---------- integers ----------

  function Power256(w: nat): (p: nat)
    ensures p > 0
  {
    if w == 0 then 1 else 256 * Power256(w - 1)
  }

  function LittleEndian(n: nat, w: nat): (s: Bytes)
    ensures |s| == w
  {
    if w == 0 then [] else [n % 256] + LittleEndian(n / 256, w - 1)
  }

  function FromLittleEndian(s: Bytes): nat {
    if s == [] then 0 else s[0] + 256 * FromLittleEndian(s[1..])
  }

  lemma {:induction false} LittleEndianRoundTrip(n: nat, w: nat)
    requires n < Power256(w)
    ensures FromLittleEndian(LittleEndian(n, w)) == n
  {
    if w > 0 {
      LittleEndianRoundTrip(n / 256, w - 1);
      assert LittleEndian(n, w)[1..] == LittleEndian(n / 256, w - 1);
    }
  }

  /** The lowest byte comes first. */
  lemma {:induction false} ByteAt(n: nat, w: nat, i: nat)
    requires i < w
    ensures LittleEndian(n, w)[i] == n / Power256(i) % 256
  {
    if i > 0 {
      ByteAt(n / 256, w - 1, i - 1);
      DivideTwice(n, Power256(i - 1));
    }
  }

  lemma DivideTwice(n: nat, p: nat)
    requires p > 0
    ensures n / 256 / p == n / (256 * p)
  {
    var q, r := n / 256, n % 256;
    var a, b := q / p, q % p;
    assert n == 256 * (a * p + b) + r == (256 * p) * a + (256 * b + r);
    assert 0 <= 256 * b + r < 256 * p;
    Quotient(n, 256 * p, a, 256 * b + r);
  }

  lemma LessByOne(d: nat, a: int, b: int)
    ensures a < b ==> d * (a + 1) <= d * b
  {
    if a < b {
      var c := b - a - 1;
      assert d * b == d * (a + 1) + d * c;
    }
  }

  lemma Quotient(n: nat, d: nat, a: nat, r: nat)
    requires d > 0 && n == d * a + r && r < d
    ensures n / d == a
  {
    assert n == d * (n / d) + n % d;
    LessByOne(d, n / d, a);
    LessByOne(d, a, n / d);
  }

  lemma {:induction false} FromLittleEndianRange(s: Bytes)
    ensures FromLittleEndian(s) < Power256(|s|)
  {
    if s != [] {
      FromLittleEndianRange(s[1..]);
    }
  }

  function ReadBytes(w: nat, s: Bytes): Read<Bytes> {
    if |s| < w then Fail else Got(s[..w], s[w..])
  }

  function ReadUnsigned(w: nat, s: Bytes): Read<nat> {
    if |s| < w then Fail else Got(FromLittleEndian(s[..w]), s[w..])
  }

  /** A signed integer of w bytes in two's complement. */
  predicate Fits(n: int, w: nat) {
    0 <= 2 * n + Power256(w) && 2 * n < Power256(w)
  }

  function WriteSigned(n: int, w: nat): Bytes
    requires Fits(n, w)
  {
    LittleEndian(if n < 0 then n + Power256(w) else n, w)
  }

  function ReadSigned(w: nat, s: Bytes): Read<int> {
    if |s| < w then Fail
    else
      var n: int := FromLittleEndian(s[..w]);
      Got(if 2 * n < Power256(w) then n else n - Power256(w), s[w..])
  }

  lemma UnsignedRoundTrip(n: nat, w: nat, rest: Bytes)
    requires n < Power256(w)
    ensures ReadUnsigned(w, LittleEndian(n, w) + rest) == Got(n, rest)
  {
    LittleEndianRoundTrip(n, w);
    assert (LittleEndian(n, w) + rest)[..w] == LittleEndian(n, w);
  }

  lemma SignedRoundTrip(n: int, w: nat, rest: Bytes)
    requires Fits(n, w)
    ensures ReadSigned(w, WriteSigned(n, w) + rest) == Got(n, rest)
  {
    LittleEndianRoundTrip(if n < 0 then n + Power256(w) else n, w);
    assert (WriteSigned(n, w) + rest)[..w] == WriteSigned(n, w);
  }

  lemma BytesRoundTrip(b: Bytes, rest: Bytes)
    ensures ReadBytes(|b|, b + rest) == Got(b, rest)
  {
  }

  // ---------- a successful read does not look beyond what it takes ----------

  ghost predicate Extends<T>(short: Read<T>, long: Read<T>, s: Bytes, more: Bytes) {
    short.Got? ==> |short.rest| <= |s| && long == Got(short.value, short.rest + more)
  }

  lemma FixedExtends(w: nat, s: Bytes, more: Bytes)
    ensures Extends(ReadUnsigned(w, s), ReadUnsigned(w, s + more), s, more)
    ensures Extends(ReadSigned(w, s), ReadSigned(w, s + more), s, more)
    ensures Extends(ReadBytes(w, s), ReadBytes(w, s + more), s, more)
  {
    if |s| >= w {
      assert (s + more)[..w] == s[..w] && (s + more)[w..] == s[w..] + more;
    }
  }

  // ---------- strings ----------

  const U32: nat := 0x1_0000_0000

  lemma Powers()
    ensures Power256(1) == 256 && Power256(4) == U32 && Power256(8) == U32 * U32
  {
    assert Power256(2) == 0x1_0000 && Power256(3) == 0x100_0000;
    assert Power256(5) == U32 * 0x100 && Power256(6) == U32 * 0x1_0000 && Power256(7) == U32 * 0x100_0000;
  }

  function WriteString(str: Bytes): Bytes {
    LittleEndian(|str|, 4) + str
  }

  function ReadString(s: Bytes): Read<Bytes> {
    var (len, s1) :- ReadUnsigned(4, s);
    ReadBytes(len, s1)
  }

  lemma StringRoundTrip(str: Bytes, rest: Bytes)
    requires |str| < U32
    ensures ReadString(WriteString(str) + rest) == Got(str, rest)
  {
    Powers();
    assert WriteString(str) + rest == LittleEndian(|str|, 4) + (str + rest);
    UnsignedRoundTrip(|str|, 4, str + rest);
    BytesRoundTrip(str, rest);
  }

  lemma StringExtends(s: Bytes, more: Bytes)
    ensures Extends(ReadString(s), ReadString(s + more), s, more)
  {
    FixedExtends(4, s, more);
    if ReadUnsigned(4, s).Got? {
      FixedExtends(ReadUnsigned(4, s).value, ReadUnsigned(4, s).rest, more);
    }
  }

  // ---------- lists ----------

  function WriteMany<T>(write: T -> Bytes, xs: seq<T>): Bytes {
    if xs == [] then [] else write(xs[0]) + WriteMany(write, xs[1..])
  }

  function ReadMany<T>(read: Bytes -> Read<T>, count: nat, s: Bytes): Read<seq<T>> {
    if count == 0 then Got([], s)
    else
      var (x, s1) :- read(s);
      var (xs, s2) :- ReadMany(read, count - 1, s1);
      Got([x] + xs, s2)
  }

  /** What is written is read back, whatever follows. */
  ghost predicate RoundTrips<T(!new)>(write: T -> Bytes, read: Bytes -> Read<T>, x: T) {
    forall rest :: read(write(x) + rest) == Got(x, rest)
  }

  ghost predicate Local<T(!new)>(read: Bytes -> Read<T>) {
    forall s, more :: Extends(read(s), read(s + more), s, more)
  }

  lemma {:induction false} ManyRoundTrip<T(!new)>(write: T -> Bytes, read: Bytes -> Read<T>, xs: seq<T>, rest: Bytes)
    requires forall x :: x in xs ==> RoundTrips(write, read, x)
    ensures ReadMany(read, |xs|, WriteMany(write, xs) + rest) == Got(xs, rest)
  {
    if xs == [] {
      assert WriteMany(write, xs) + rest == rest;
    } else {
      var tail := WriteMany(write, xs[1..]) + rest;
      assert WriteMany(write, xs) + rest == write(xs[0]) + tail;
      assert RoundTrips(write, read, xs[0]);
      ManyRoundTrip(write, read, xs[1..], rest);
      assert [xs[0]] + xs[1..] == xs;
    }
  }

  lemma {:induction false} ManyExtends<T(!new)>(read: Bytes -> Read<T>, count: nat, s: Bytes, more: Bytes)
    requires Local(read)
    ensures Extends(ReadMany(read, count, s), ReadMany(read, count, s + more), s, more)
  {
    if count > 0 && read(s).Got? {
      assert Extends(read(s), read(s + more), s, more);
      ManyExtends(read, count - 1, read(s).rest, more);
    }
  }

  lemma {:induction false} WriteManySnoc<T>(write: T -> Bytes, xs: seq<T>, x: T)
    ensures WriteMany(write, xs + [x]) == WriteMany(write, xs) + write(x)
  {
    if xs == [] {
      assert (xs + [x])[1..] == [] && xs + [x] == [x];
    } else {
      assert (xs + [x])[1..] == xs[1..] + [x];
      WriteManySnoc(write, xs[1..], x);
      Regroup(write(xs[0]), WriteMany(write, xs[1..]), write(x));
    }
  }

  /** What has been read before a read. */
  function After<T>(done: seq<T>, r: Read<seq<T>>): Read<seq<T>> {
    match r
    case Fail => Fail
    case Got(xs, rest) => Got(done + xs, rest)
  }

  lemma ReadManyStep<T>(read: Bytes -> Read<T>, count: nat, s: Bytes, done: seq<T>)
    requires count > 0
    ensures After(done, ReadMany(read, count, s)) ==
      match read(s)
      case Fail => Fail
      case Got(x, rest) => After(done + [x], ReadMany(read, count - 1, rest))
  {
    if read(s).Got? && ReadMany(read, count - 1, read(s).rest).Got? {
      var x, xs := read(s).value, ReadMany(read, count - 1, read(s).rest).value;
      assert done + ([x] + xs) == done + [x] + xs;
    }
  }

  /** A list behind its length. */
  function WriteList<T>(write: T -> Bytes, xs: seq<T>): Bytes {
    LittleEndian(|xs|, 4) + WriteMany(write, xs)
  }

  function ReadList<T>(read: Bytes -> Read<T>, s: Bytes): Read<seq<T>> {
    var (count, s1) :- ReadUnsigned(4, s);
    ReadMany(read, count, s1)
  }

  lemma ListRoundTrip<T(!new)>(write: T -> Bytes, read: Bytes -> Read<T>, xs: seq<T>, rest: Bytes)
    requires |xs| < U32 && forall x :: x in xs ==> RoundTrips(write, read, x)
    ensures ReadList(read, WriteList(write, xs) + rest) == Got(xs, rest)
  {
    Powers();
    assert WriteList(write, xs) + rest == LittleEndian(|xs|, 4) + (WriteMany(write, xs) + rest);
    UnsignedRoundTrip(|xs|, 4, WriteMany(write, xs) + rest);
    ManyRoundTrip(write, read, xs, rest);
  }

  lemma ListExtends<T(!new)>(read: Bytes -> Read<T>, s: Bytes, more: Bytes)
    requires Local(read)
    ensures Extends(ReadList(read, s), ReadList(read, s + more), s, more)
  {
    FixedExtends(4, s, more);
    if ReadUnsigned(4, s).Got? {
      ManyExtends(read, ReadUnsigned(4, s).value, ReadUnsigned(4, s).rest, more);
    }
  }

  // ---------- maps, in whatever order they are enumerated ----------

  ghost predicate Enumerates<K, V>(order: seq<K>, m: map<K, V>) {
    && (forall k :: k in order ==> k in m)
    && (forall k :: k in m ==> k in order)
    && forall i, j :: 0 <= i < j < |order| ==> order[i] != order[j]
  }

  function Pairs<K, V>(order: seq<K>, m: map<K, V>): (ps: seq<(K, V)>)
    requires forall k :: k in order ==> k in m
    ensures |ps| == |order|
  {
    seq(|order|, i requires 0 <= i < |order| => (order[i], m[order[i]]))
  }

  /** A later pair overwrites an earlier one. */
  function FromPairs<K, V>(ps: seq<(K, V)>): map<K, V> {
    if ps == [] then map[] else FromPairs(ps[..|ps| - 1])[ps[|ps| - 1].0 := ps[|ps| - 1].1]
  }

  lemma FromPairsSnoc<K, V>(ps: seq<(K, V)>, p: (K, V))
    ensures FromPairs(ps + [p]) == FromPairs(ps)[p.0 := p.1]
  {
    assert (ps + [p])[..|ps|] == ps;
  }

  lemma {:induction false} FromPairsPrefix<K, V>(order: seq<K>, m: map<K, V>, n: nat)
    requires (forall k :: k in order ==> k in m) && n <= |order|
    ensures FromPairs(Pairs(order, m)[..n]) == map k | k in order[..n] :: m[k]
  {
    if n > 0 {
      var ps := Pairs(order, m);
      assert ps[..n][..n - 1] == ps[..n - 1];
      FromPairsPrefix(order, m, n - 1);
      assert order[..n] == order[..n - 1] + [order[n - 1]];
    }
  }

  lemma PairsRoundTrip<K, V>(order: seq<K>, m: map<K, V>)
    requires Enumerates(order, m)
    ensures FromPairs(Pairs(order, m)) == m
  {
    FromPairsPrefix(order, m, |order|);
    assert Pairs(order, m)[..|order|] == Pairs(order, m) && order[..|order|] == order;
  }

  function MapOf<K, V>(r: Read<seq<(K, V)>>): Read<map<K, V>> {
    match r
    case Fail => Fail
    case Got(ps, rest) => Got(FromPairs(ps), rest)
  }

  /** The loop that reads pairs into a map. */
  method ReadPairs<K(==), V>(read: Bytes -> Read<(K, V)>, count: nat, s: Bytes) returns (r: Read<map<K, V>>)
    ensures r == MapOf(ReadMany(read, count, s))
  {
    var left, rest := count, s;
    var m: map<K, V> := map[];
    ghost var done: seq<(K, V)> := [];
    ghost var all := ReadMany(read, count, s);
    assert all.Got? ==> done + all.value == all.value;
    while left > 0
      invariant m == FromPairs(done) && After(done, ReadMany(read, left, rest)) == all
    {
      ReadManyStep(read, left, rest, done);
      var p := read(rest);
      if p.Fail? {
        return Fail;
      }
      FromPairsSnoc(done, p.value);
      m := m[p.value.0 := p.value.1];
      done := done + [p.value];
      left, rest := left - 1, p.rest;
    }
    assert done + [] == done;
    return Got(m, rest);
  }

  // ---------- files: blocks one after the other ----------

  ghost predicate Progress<T>(read: Bytes -> Read<T>) {
    forall s :: read(s).Got? ==> |read(s).rest| < |s|
  }

  /** Everything up to the end of the file or the first block that cannot be read. */
  function ReadAll<T>(read: Bytes -> Read<T>, s: Bytes): seq<T>
    requires Progress(read)
    decreases |s|
  {
    if s == [] then []
    else
      match read(s)
      case Fail => []
      case Got(x, rest) => [x] + ReadAll(read, rest)
  }

  function Concat(blocks: seq<Bytes>): Bytes {
    if blocks == [] then [] else blocks[0] + Concat(blocks[1..])
  }

  /** The loop that appends blocks to a file. */
  method AppendBlocks(file: Bytes, blocks: seq<Bytes>) returns (file': Bytes)
    ensures file' == file + Concat(blocks)
  {
    file' := file;
    var i := 0;
    while i < |blocks|
      invariant 0 <= i <= |blocks| && file' + Concat(blocks[i..]) == file + Concat(blocks)
    {
      assert blocks[i..][1..] == blocks[i + 1..];
      Regroup(file', blocks[i], Concat(blocks[i + 1..]));
      file' := file' + blocks[i];
      i := i + 1;
    }
  }

  /** How many blocks lie wholly within the first n bytes. */
  function Whole(blocks: seq<Bytes>, n: nat): (k: nat)
    ensures k <= |blocks|
  {
    if blocks == [] || n < |blocks[0]| then 0 else 1 + Whole(blocks[1..], n - |blocks[0]|)
  }

  lemma ConcatFirst(blocks: seq<Bytes>, k: nat)
    requires k < |blocks|
    ensures Concat(blocks[..k + 1]) == blocks[0] + Concat(blocks[1..][..k])
  {
    assert blocks[..k + 1][1..] == blocks[1..][..k];
  }

  lemma {:induction false} WholeIsWhole(blocks: seq<Bytes>, n: nat)
    ensures var k := Whole(blocks, n);
      |Concat(blocks[..k])| <= n && (k < |blocks| ==> n < |Concat(blocks[..k + 1])|)
  {
    if blocks != [] {
      if n >= |blocks[0]| {
        var k := Whole(blocks[1..], n - |blocks[0]|);
        WholeIsWhole(blocks[1..], n - |blocks[0]|);
        ConcatFirst(blocks, k);
        if k + 1 < |blocks| {
          ConcatFirst(blocks, k + 1);
        }
      } else {
        ConcatFirst(blocks, 0);
      }
    }
  }

  lemma {:induction false} AllWhole(blocks: seq<Bytes>)
    ensures Whole(blocks, |Concat(blocks)|) == |blocks|
  {
    if blocks != [] {
      AllWhole(blocks[1..]);
    }
  }

  /** The block is read as x, whatever follows. */
  ghost predicate ReadsAs<T>(read: Bytes -> Read<T>, block: Bytes, x: T) {
    block != [] && forall rest :: read(block + rest) == Got(x, rest)
  }

  /** A proper prefix of a block cannot be read. */
  lemma TornBlock<T(!new)>(read: Bytes -> Read<T>, block: Bytes, x: T, n: nat)
    requires ReadsAs(read, block, x) && Local(read) && n < |block|
    ensures read(block[..n]).Fail?
  {
    var p, q := block[..n], block[n..];
    assert p + q == block == block + [];
    assert read(block + []) == Got(x, []);
    assert Extends(read(p), read(p + q), p, q);
  }

  /** After a whole block the rest of the file is read. */
  lemma ReadAllStep<T(!new)>(read: Bytes -> Read<T>, block: Bytes, x: T, rest: Bytes)
    requires Progress(read) && ReadsAs(read, block, x)
    ensures ReadAll(read, block + rest) == [x] + ReadAll(read, rest)
  {
    assert read(block + rest) == Got(x, rest);
  }

  /** Within the first block nothing is read. */
  lemma TornFirst<T(!new)>(read: Bytes -> Read<T>, block: Bytes, x: T, tail: Bytes, n: nat)
    requires Progress(read) && Local(read) && ReadsAs(read, block, x) && n < |block|
    ensures ReadAll(read, (block + tail)[..n]) == []
  {
    Cut(block, tail, n);
    TornBlock(read, block, x, n);
  }

  /** Behind it the block has been read. */
  lemma TornLater<T(!new)>(read: Bytes -> Read<T>, block: Bytes, x: T, tail: Bytes, n: nat)
    requires Progress(read) && ReadsAs(read, block, x) && |block| <= n <= |block| + |tail|
    ensures ReadAll(read, (block + tail)[..n]) == [x] + ReadAll(read, tail[..n - |block|])
  {
    Cut(block, tail, n);
    ReadAllStep(read, block, x, tail[..n - |block|]);
  }

  /** Reading any prefix of a file returns exactly the blocks that lie wholly within it. */
  lemma {:induction false} TornFile<T(!new)>(read: Bytes -> Read<T>, blocks: seq<Bytes>, xs: seq<T>, n: nat)
    requires Progress(read) && Local(read) && |xs| == |blocks| && n <= |Concat(blocks)|
    requires forall i :: 0 <= i < |blocks| ==> ReadsAs(read, blocks[i], xs[i])
    ensures ReadAll(read, Concat(blocks)[..n]) == xs[..Whole(blocks, n)]
  {
    if blocks != [] {
      var block, tail := blocks[0], Concat(blocks[1..]);
      if n < |block| {
        TornFirst(read, block, xs[0], tail, n);
      } else {
        TornLater(read, block, xs[0], tail, n);
        TornFile(read, blocks[1..], xs[1..], n - |block|);
        assert xs == [xs[0]] + xs[1..];
      }
    }
  }
}
