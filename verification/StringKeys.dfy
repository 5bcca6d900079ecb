/** Index keys are strings of bytes, compared byte by byte. Their order is that of some reals, so
    what the tree does with reals it does with strings. */
module StringKeys {
  type Byte = b: int | 0 <= b < 256

  /** The order of std::string. */
  predicate Less(a: seq<Byte>, b: seq<Byte>) {
    b != [] && (a == [] || a[0] < b[0] || (a[0] == b[0] && Less(a[1..], b[1..])))
  }

  function Embed(s: seq<Byte>): real {
    if s == [] then 0.0 else (s[0] as real + 1.0 + Embed(s[1..])) / 257.0
  }

  lemma {:induction false} EmbedRange(s: seq<Byte>)
    ensures 0.0 <= Embed(s) < 1.0
    ensures s != [] ==> 0.0 < Embed(s)
  {
    if s != [] {
      EmbedRange(s[1..]);
    }
  }

  /** Strings are as their embeddings: equal, or in the same order. */
  lemma {:induction false} EmbedOrder(a: seq<Byte>, b: seq<Byte>)
    ensures Less(a, b) <==> Embed(a) < Embed(b)
    ensures a == b <==> Embed(a) == Embed(b)
  {
    EmbedRange(a);
    EmbedRange(b);
    if a != [] && b != [] {
      EmbedRange(a[1..]);
      EmbedRange(b[1..]);
      EmbedOrder(a[1..], b[1..]);
      assert a == [a[0]] + a[1..] && b == [b[0]] + b[1..];
      EmbedStep(a[0], Embed(a[1..]), b[0], Embed(b[1..]));
    }
  }

  lemma EmbedStep(x: Byte, u: real, y: Byte, v: real)
    requires 0.0 <= u < 1.0 && 0.0 <= v < 1.0
    ensures (x as real + 1.0 + u) / 257.0 < (y as real + 1.0 + v) / 257.0 <==> x < y || (x == y && u < v)
    ensures (x as real + 1.0 + u) / 257.0 == (y as real + 1.0 + v) / 257.0 <==> x == y && u == v
  {
    var p, q := x as real + 1.0 + u, y as real + 1.0 + v;
    assert x < y ==> x as real + 1.0 + 1.0 <= y as real + 1.0;
    assert y < x ==> y as real + 1.0 + 1.0 <= x as real + 1.0;
    assert p < q <==> p / 257.0 < q / 257.0;
  }
}
