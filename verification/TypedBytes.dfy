/** Integers, floats and strings of the source as bytes. */
module TypedBytes {
  // Strings are below 2^32 bytes, integers 32 or 64 bits wide; a float is its four bytes.

  import opened Binary

  type Str = s: Bytes | |s| < U32
  type Int32 = n: int | -0x8000_0000 <= n < 0x8000_0000
  type Int64 = n: int | -0x8000_0000_0000_0000 <= n < 0x8000_0000_0000_0000
  type Float = s: Bytes | |s| == 4 witness [0, 0, 0, 0]

  function WriteInt32(n: Int32): Bytes {
    Powers();
    WriteSigned(n, 4)
  }

  function ReadInt32(s: Bytes): Read<Int32> {
    var (n, rest) :- ReadSigned(4, s);
    FromLittleEndianRange(s[..4]);
    Powers();
    Got(n, rest)
  }

  function WriteInt64(n: Int64): Bytes {
    Powers();
    WriteSigned(n, 8)
  }

  function ReadInt64(s: Bytes): Read<Int64> {
    var (n, rest) :- ReadSigned(8, s);
    FromLittleEndianRange(s[..8]);
    Powers();
    Got(n, rest)
  }

  function WriteStr(str: Str): Bytes {
    WriteString(str)
  }

  function ReadStr(s: Bytes): Read<Str> {
    var (str, rest) :- ReadString(s);
    FromLittleEndianRange(s[..4]);
    Powers();
    Got(str, rest)
  }

  function ReadFloat(s: Bytes): Read<Float> {
    var (raw, rest) :- ReadBytes(4, s);
    Got(raw, rest)
  }

  lemma Int32RoundTrip(n: Int32, rest: Bytes)
    ensures ReadInt32(WriteInt32(n) + rest) == Got(n, rest)
  {
    Powers();
    SignedRoundTrip(n, 4, rest);
  }

  lemma Int64RoundTrip(n: Int64, rest: Bytes)
    ensures ReadInt64(WriteInt64(n) + rest) == Got(n, rest)
  {
    Powers();
    SignedRoundTrip(n, 8, rest);
  }

  lemma StrRoundTrip(str: Str, rest: Bytes)
    ensures ReadStr(WriteStr(str) + rest) == Got(str, rest)
  {
    StringRoundTrip(str, rest);
  }

  lemma FloatRoundTrip(raw: Float, rest: Bytes)
    ensures ReadFloat(raw + rest) == Got(raw, rest)
  {
    BytesRoundTrip(raw, rest);
  }

  lemma Int32Extends(s: Bytes, more: Bytes)
    ensures Extends(ReadInt32(s), ReadInt32(s + more), s, more)
  {
    FixedExtends(4, s, more);
  }

  lemma Int64Extends(s: Bytes, more: Bytes)
    ensures Extends(ReadInt64(s), ReadInt64(s + more), s, more)
  {
    FixedExtends(8, s, more);
  }

  lemma StrExtends(s: Bytes, more: Bytes)
    ensures Extends(ReadStr(s), ReadStr(s + more), s, more)
  {
    StringExtends(s, more);
  }

  lemma FloatExtends(s: Bytes, more: Bytes)
    ensures Extends(ReadFloat(s), ReadFloat(s + more), s, more)
  {
    FixedExtends(4, s, more);
  }
}
