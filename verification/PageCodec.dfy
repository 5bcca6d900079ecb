/** Table pages as bytes. */
module PageCodec {
  // Rows one after the other, then zeros up to the page size. A row is its columns in schema order,
  // without a length; a zero where a row would start is padding.

  import opened Wrappers
  import opened Binary
  import opened TypedBytes

  const PAGE_SIZE: nat := 4096

  datatype DataType = INTEGER | FLOAT | CHAR | VARCHAR

  datatype Value = IntValue(n: Int32) | FloatValue(raw: Float) | TextValue(str: Str)

  type Row = map<string, Value>

  datatype Column = Column(name: string, kind: DataType)

  type Schema = seq<Column>

  predicate HasType(v: Value, kind: DataType) {
    match kind
    case INTEGER => v.IntValue?
    case FLOAT => v.FloatValue?
    case _ => v.TextValue?
  }

  /** The row has exactly the schema's columns, each of its type. */
  ghost predicate Complete(row: Row, schema: Schema) {
    && (forall c :: c in schema ==> c.name in row && HasType(row[c.name], c.kind))
    && (forall name :: name in row ==> exists c :: c in schema && c.name == name)
  }

  // ---------- one row ----------

  function WriteValue(v: Value): Bytes {
    match v
    case IntValue(n) => WriteInt32(n)
    case FloatValue(raw) => raw
    case TextValue(str) => WriteStr(str)
  }

  /** The loop over the schema; it throws when a column is missing or of another type. */
  function WriteRow(row: Row, schema: Schema): Option<Bytes> {
    if schema == [] then Some([])
    else
      var c := schema[0];
      if c.name !in row || !HasType(row[c.name], c.kind) then None
      else
        match WriteRow(row, schema[1..])
        case None => None
        case Some(rest) => Some(WriteValue(row[c.name]) + rest)
  }

  function ValueSize(v: Value, kind: DataType): nat {
    if kind == INTEGER || kind == FLOAT then 4
    else if v.TextValue? then 4 + |v.str|
    else 4
  }

  /** The size the storage engine reckons with; columns that are missing do not count. */
  function EstimateRowSize(row: Row, schema: Schema): nat {
    if schema == [] then 0
    else
      (if schema[0].name in row then ValueSize(row[schema[0].name], schema[0].kind) else 0)
      + EstimateRowSize(row, schema[1..])
  }

  function ReadValue(kind: DataType, s: Bytes): Read<Value> {
    match kind
    case INTEGER =>
      var (n, s1) :- ReadInt32(s);
      Got(IntValue(n), s1)
    case FLOAT =>
      var (raw, s1) :- ReadFloat(s);
      Got(FloatValue(raw), s1)
    case _ =>
      var (str, s1) :- ReadStr(s);
      Got(TextValue(str), s1)
  }

  function ReadRow(row: Row, schema: Schema, s: Bytes): (r: Read<Row>)
    ensures r.Got? ==> |r.rest| + 4 * |schema| <= |s| && row.Keys <= r.value.Keys
    ensures r.Got? && schema != [] ==> schema[0].name in r.value
    decreases |schema|
  {
    if schema == [] then Got(row, s)
    else
      var (v, s1) :- ReadValue(schema[0].kind, s);
      ReadRow(row[schema[0].name := v], schema[1..], s1)
  }

  lemma ValueRoundTrip(v: Value, kind: DataType, rest: Bytes)
    requires HasType(v, kind)
    ensures ReadValue(kind, WriteValue(v) + rest) == Got(v, rest)
    ensures |WriteValue(v)| == ValueSize(v, kind) >= 4
  {
    Powers();
    match v
    case IntValue(n) => Int32RoundTrip(n, rest);
    case FloatValue(raw) => FloatRoundTrip(raw, rest);
    case TextValue(str) => StrRoundTrip(str, rest);
  }

  /** Reading a value, or a row, does not look beyond it. */
  lemma ValueExtends(kind: DataType, s: Bytes, more: Bytes)
    ensures Extends(ReadValue(kind, s), ReadValue(kind, s + more), s, more)
  {
    Int32Extends(s, more);
    FloatExtends(s, more);
    StrExtends(s, more);
  }

  lemma {:induction false} RowExtends(row: Row, schema: Schema, s: Bytes, more: Bytes)
    ensures Extends(ReadRow(row, schema, s), ReadRow(row, schema, s + more), s, more)
    decreases |schema|
  {
    if schema != [] {
      ValueExtends(schema[0].kind, s, more);
      match ReadValue(schema[0].kind, s)
      case Fail =>
      case Got(v, s1) => RowExtends(row[schema[0].name := v], schema[1..], s1, more);
    }
  }

  /** The part of the row under the given columns. */
  ghost function Under(row: Row, schema: Schema): Row {
    map name | name in row && (exists c :: c in schema && c.name == name) :: row[name]
  }

  ghost predicate TypedFor(row: Row, schema: Schema) {
    forall c :: c in schema ==> c.name in row && HasType(row[c.name], c.kind)
  }

  lemma {:induction false} RowRoundTrip(acc: Row, row: Row, schema: Schema, rest: Bytes)
    requires TypedFor(row, schema)
    ensures WriteRow(row, schema).Some?
    ensures ReadRow(acc, schema, WriteRow(row, schema).value + rest) == Got(acc + Under(row, schema), rest)
    decreases |schema|
  {
    if schema == [] {
      assert acc + Under(row, schema) == acc;
      assert [] + rest == rest;
    } else {
      var c := schema[0];
      assert c in schema && forall d :: d in schema[1..] ==> d in schema;
      var acc' := acc[c.name := row[c.name]];
      RowRoundTrip(acc', row, schema[1..], rest);
      var tail := WriteRow(row, schema[1..]).value;
      Regroup(WriteValue(row[c.name]), tail, rest);
      ValueRoundTrip(row[c.name], c.kind, tail + rest);
      UnderCons(acc, row, schema);
    }
  }

  lemma UnderCons(acc: Row, row: Row, schema: Schema)
    requires schema != [] && schema[0].name in row
    ensures acc[schema[0].name := row[schema[0].name]] + Under(row, schema[1..]) == acc + Under(row, schema)
  {
    var c := schema[0];
    var a, b := acc[c.name := row[c.name]] + Under(row, schema[1..]), acc + Under(row, schema);
    assert forall d :: d in schema <==> d == c || d in schema[1..];
    assert a.Keys == b.Keys;
    assert forall name :: name in a ==> a[name] == b[name];
  }

  /** For a complete row, the size reckoned with is the size written. */
  lemma {:induction false} EstimateIsExact(row: Row, schema: Schema)
    requires TypedFor(row, schema)
    ensures WriteRow(row, schema).Some? && |WriteRow(row, schema).value| == EstimateRowSize(row, schema)
    ensures EstimateRowSize(row, schema) >= 4 * |schema|
  {
    if schema != [] {
      assert schema[0] in schema && forall d :: d in schema[1..] ==> d in schema;
      EstimateIsExact(row, schema[1..]);
      ValueRoundTrip(row[schema[0].name], schema[0].kind, []);
    }
  }

  /** A complete row is read back, whatever follows it. */
  lemma CompleteRoundTrip(row: Row, schema: Schema, rest: Bytes)
    requires Complete(row, schema)
    ensures WriteRow(row, schema).Some?
    ensures ReadRow(map[], schema, WriteRow(row, schema).value + rest) == Got(row, rest)
  {
    RowRoundTrip(map[], row, schema, rest);
    var empty: Row := map[];
    assert Under(row, schema) == row;
    assert empty + row == row;
  }

  // ---------- pages ----------

  function WriteRows(rows: seq<Row>, schema: Schema): Option<Bytes> {
    if rows == [] then Some([])
    else
      match (WriteRow(rows[0], schema), WriteRows(rows[1..], schema))
      case (Some(row), Some(rest)) => Some(row + rest)
      case _ => None
  }

  function Zeros(n: nat): (s: Bytes)
    ensures |s| == n && forall i :: 0 <= i < n ==> s[i] == 0
  {
    if n == 0 then [] else [0] + Zeros(n - 1)
  }

  /** Padded with zeros, or cut off. */
  function WritePage(rows: seq<Row>, schema: Schema): (page: Option<Bytes>)
    ensures page.Some? ==> |page.value| == PAGE_SIZE
  {
    match WriteRows(rows, schema)
    case None => None
    case Some(s) => Some(if |s| < PAGE_SIZE then s + Zeros(PAGE_SIZE - |s|) else s[..PAGE_SIZE])
  }

  predicate IsPadding(s: Bytes) {
    forall i :: 0 <= i < 4 && i < |s| ==> s[i] == 0
  }

  /** Rows up to padding, to bytes that are no row, or to the end. */
  function ReadPage(schema: Schema, s: Bytes): seq<Row>
    decreases |s|
  {
    if IsPadding(s) || |s| < 4 then []
    else
      match ReadRow(map[], schema, s)
      case Fail => []
      case Got(row, rest) => if row == map[] then [] else [row] + ReadPage(schema, rest)
  }

  /** The loop over the rows of a page. */
  method SerialiseRows(rows: seq<Row>, schema: Schema) returns (buffer: Option<Bytes>)
    ensures buffer == WriteRows(rows, schema)
  {
    var s: Bytes := [];
    var i := 0;
    assert rows[0..] == rows;
    assert WriteRows(rows, schema).Some? ==> s + WriteRows(rows, schema).value == WriteRows(rows, schema).value;
    while i < |rows|
      invariant 0 <= i <= |rows|
      invariant WriteRows(rows, schema) == Behind(s, WriteRows(rows[i..], schema))
    {
      assert rows[i..][1..] == rows[i + 1..];
      var row := WriteRow(rows[i], schema);
      if row.None? {
        return None;
      }
      if WriteRows(rows[i + 1..], schema).Some? {
        Regroup(s, row.value, WriteRows(rows[i + 1..], schema).value);
      }
      s := s + row.value;
      i := i + 1;
    }
    assert s + [] == s;
    return Some(s);
  }

  function Behind(s: Bytes, rest: Option<Bytes>): Option<Bytes> {
    match rest
    case None => None
    case Some(t) => Some(s + t)
  }

  /** The loop over a page's bytes. */
  method DeserialiseRows(schema: Schema, page: Bytes) returns (rows: seq<Row>)
    ensures rows == ReadPage(schema, page)
  {
    rows := [];
    var s := page;
    while s != []
      invariant rows + ReadPage(schema, s) == ReadPage(schema, page)
      decreases |s|
    {
      if IsPadding(s) || |s| < 4 {
        return;
      }
      var r := ReadRow(map[], schema, s);
      if r.Fail? || r.value == map[] {
        return;
      }
      rows := rows + [r.value];
      s := r.rest;
    }
  }

  // ---------- round trip ----------

  function Size(rows: seq<Row>, schema: Schema): nat {
    if rows == [] then 0 else EstimateRowSize(rows[0], schema) + Size(rows[1..], schema)
  }

  ghost predicate AllComplete(rows: seq<Row>, schema: Schema) {
    forall i :: 0 <= i < |rows| ==> Complete(rows[i], schema)
  }

  /** The first column is 0, 0.0 or empty. */
  predicate StartsWithZero(row: Row, schema: Schema) {
    schema != [] && schema[0].name in row &&
    match row[schema[0].name]
    case IntValue(n) => n == 0
    case FloatValue(raw) => raw == [0, 0, 0, 0]
    case TextValue(str) => str == []
  }

  /** The rows before the first one that starts with zero. */
  function Visible(rows: seq<Row>, schema: Schema): seq<Row> {
    if rows == [] || StartsWithZero(rows[0], schema) then [] else [rows[0]] + Visible(rows[1..], schema)
  }

  lemma ZeroInteger(n: nat)
    requires n < U32
    ensures (forall i :: 0 <= i < 4 ==> LittleEndian(n, 4)[i] == 0) <==> n == 0
  {
    Powers();
    LittleEndianRoundTrip(n, 4);
    LittleEndianRoundTrip(0, 4);
    ZeroBytes(4);
    if forall i :: 0 <= i < 4 ==> LittleEndian(n, 4)[i] == 0 {
      assert LittleEndian(n, 4) == LittleEndian(0, 4);
    }
  }

  lemma {:induction false} ZeroBytes(w: nat)
    ensures forall i :: 0 <= i < w ==> LittleEndian(0, w)[i] == 0
  {
    if w > 0 {
      ZeroBytes(w - 1);
    }
  }

  lemma ZeroValue(v: Value, kind: DataType, rest: Bytes)
    requires HasType(v, kind)
    ensures IsPadding(WriteValue(v) + rest) <==>
      match v case IntValue(n) => n == 0 case FloatValue(raw) => raw == [0, 0, 0, 0] case TextValue(str) => str == []
  {
    Powers();
    var s := WriteValue(v) + rest;
    ValueRoundTrip(v, kind, rest);
    match v
    case IntValue(n) =>
      ZeroInteger(if n < 0 then n + U32 else n);
      assert forall i :: 0 <= i < 4 ==> s[i] == WriteValue(v)[i];
    case FloatValue(raw) =>
      assert forall i :: 0 <= i < 4 ==> s[i] == raw[i];
    case TextValue(str) =>
      ZeroInteger(|str|);
      assert forall i :: 0 <= i < 4 ==> s[i] == LittleEndian(|str|, 4)[i];
  }

  /** A row looks like padding if and only if its first column is 0, 0.0 or empty. */
  lemma ZeroRow(row: Row, schema: Schema, rest: Bytes)
    requires Complete(row, schema) && schema != []
    ensures WriteRow(row, schema).Some?
    ensures IsPadding(WriteRow(row, schema).value + rest) <==> StartsWithZero(row, schema)
    ensures |WriteRow(row, schema).value| >= 4 && row != map[]
  {
    EstimateIsExact(row, schema);
    var c := schema[0];
    assert c in schema;
    var tail := WriteRow(row, schema[1..]).value;
    Regroup(WriteValue(row[c.name]), tail, rest);
    ZeroValue(row[c.name], c.kind, tail + rest);
  }

  lemma {:induction false} RowsSize(rows: seq<Row>, schema: Schema)
    requires AllComplete(rows, schema)
    ensures WriteRows(rows, schema).Some? && |WriteRows(rows, schema).value| == Size(rows, schema)
  {
    if rows != [] {
      RowsSize(rows[1..], schema);
      EstimateIsExact(rows[0], schema);
    }
  }

  lemma {:induction false} RowsRoundTrip(rows: seq<Row>, schema: Schema, padding: nat)
    requires AllComplete(rows, schema) && schema != []
    ensures WriteRows(rows, schema).Some?
    ensures ReadPage(schema, WriteRows(rows, schema).value + Zeros(padding)) == Visible(rows, schema)
  {
    if rows != [] {
      RowsRoundTrip(rows[1..], schema, padding);
      CompleteRoundTrip(rows[0], schema, WriteRows(rows[1..], schema).value + Zeros(padding));
      ZeroRow(rows[0], schema, WriteRows(rows[1..], schema).value + Zeros(padding));
      Regroup(WriteRow(rows[0], schema).value, WriteRows(rows[1..], schema).value, Zeros(padding));
    } else {
      assert [] + Zeros(padding) == Zeros(padding);
    }
  }

  ghost predicate NoneStartsWithZero(rows: seq<Row>, schema: Schema) {
    forall row :: row in rows ==> !StartsWithZero(row, schema)
  }

  lemma {:induction false} VisibleIsAll(rows: seq<Row>, schema: Schema)
    ensures Visible(rows, schema) == rows <==> NoneStartsWithZero(rows, schema)
  {
    if rows != [] {
      VisibleIsAll(rows[1..], schema);
      assert rows == [rows[0]] + rows[1..];
      assert forall row :: row in rows <==> row == rows[0] || row in rows[1..];
    }
  }

  lemma PageReads(rows: seq<Row>, schema: Schema)
    requires AllComplete(rows, schema) && schema != [] && Size(rows, schema) <= PAGE_SIZE
    ensures WritePage(rows, schema).Some?
    ensures ReadPage(schema, WritePage(rows, schema).value) == Visible(rows, schema)
  {
    var n := PaddedPage(rows, schema);
    RowsRoundTrip(rows, schema, n);
  }

  /** How many rows lie wholly within the first n bytes. */
  function Fitting(rows: seq<Row>, schema: Schema, n: nat): (k: nat)
    ensures k <= |rows|
    ensures Size(rows, schema) <= n ==> k == |rows|
    ensures k == |rows| ==> Size(rows, schema) <= n
  {
    if rows == [] || EstimateRowSize(rows[0], schema) > n then 0
    else 1 + Fitting(rows[1..], schema, n - EstimateRowSize(rows[0], schema))
  }

  /** A row that is cut off is not read. */
  lemma TornRow(row: Row, schema: Schema, n: nat)
    requires Complete(row, schema)
    ensures WriteRow(row, schema).Some?
    ensures n < |WriteRow(row, schema).value| ==> ReadPage(schema, WriteRow(row, schema).value[..n]) == []
  {
    CompleteRoundTrip(row, schema, []);
    var s := WriteRow(row, schema).value;
    if n < |s| {
      RowExtends(map[], schema, s[..n], s[n..]);
      assert s[..n] + s[n..] == s == s + [];
    }
  }

  /** Reading rows that are cut off anywhere returns the rows before the cut, up to the first that
      starts with zero. */
  lemma {:induction false} TornRows(rows: seq<Row>, schema: Schema, n: nat)
    requires AllComplete(rows, schema) && schema != [] && n <= Size(rows, schema)
    ensures WriteRows(rows, schema).Some? && |WriteRows(rows, schema).value| == Size(rows, schema)
    ensures ReadPage(schema, WriteRows(rows, schema).value[..n]) == Visible(rows[..Fitting(rows, schema, n)], schema)
  {
    RowsSize(rows, schema);
    if rows != [] {
      var size := EstimateRowSize(rows[0], schema);
      EstimateIsExact(rows[0], schema);
      TornRow(rows[0], schema, n);
      RowsSize(rows[1..], schema);
      var row, rest := WriteRow(rows[0], schema).value, WriteRows(rows[1..], schema).value;
      Cut(row, rest, n);
      if size <= n {
        TornRows(rows[1..], schema, n - size);
        CompleteRoundTrip(rows[0], schema, rest[..n - size]);
        ZeroRow(rows[0], schema, rest[..n - size]);
        FirstVisible(rows, schema, Fitting(rows, schema, n));
      }
    }
  }

  lemma FirstVisible(rows: seq<Row>, schema: Schema, k: nat)
    requires 1 <= k <= |rows|
    ensures Visible(rows[..k], schema) ==
      if StartsWithZero(rows[0], schema) then [] else [rows[0]] + Visible(rows[1..][..k - 1], schema)
  {
    assert rows[..k][1..] == rows[1..][..k - 1];
  }

  /** Loading a page after flushing it returns the rows that fit the page, up to the first that
      starts with zero; so it returns the rows if and only if they fit and none starts with zero. */
  lemma PageRoundTrip(rows: seq<Row>, schema: Schema)
    requires AllComplete(rows, schema) && schema != []
    ensures WritePage(rows, schema).Some?
    ensures ReadPage(schema, WritePage(rows, schema).value) == Visible(rows[..Fitting(rows, schema, PAGE_SIZE)], schema)
    ensures ReadPage(schema, WritePage(rows, schema).value) == rows <==>
      Size(rows, schema) <= PAGE_SIZE && NoneStartsWithZero(rows, schema)
  {
    var k := Fitting(rows, schema, PAGE_SIZE);
    if Size(rows, schema) <= PAGE_SIZE {
      PageReads(rows, schema);
      assert rows[..k] == rows;
    } else {
      TornRows(rows, schema, PAGE_SIZE);
    }
    VisibleSize(rows[..k], schema);
    VisibleIsAll(rows, schema);
  }

  lemma {:induction false} VisibleSize(rows: seq<Row>, schema: Schema)
    ensures |Visible(rows, schema)| <= |rows|
  {
    if rows != [] {
      VisibleSize(rows[1..], schema);
    }
  }

  lemma PaddedPage(rows: seq<Row>, schema: Schema) returns (n: nat)
    requires AllComplete(rows, schema) && Size(rows, schema) <= PAGE_SIZE
    ensures WriteRows(rows, schema).Some?
    ensures WritePage(rows, schema) == Some(WriteRows(rows, schema).value + Zeros(n))
  {
    RowsSize(rows, schema);
    n := PAGE_SIZE - Size(rows, schema);
    var s := WriteRows(rows, schema).value;
    if |s| == PAGE_SIZE {
      assert s + Zeros(0) == s == s[..PAGE_SIZE];
    }
  }

  // ---------- pages that survive ----------

  /** A page that can be flushed and loaded again without loss. */
  ghost predicate PageFits(rows: seq<Row>, schema: Schema) {
    && AllComplete(rows, schema) && schema != [] && Size(rows, schema) <= PAGE_SIZE
    && NoneStartsWithZero(rows, schema)
  }

  lemma {:induction false} SizeConcat(a: seq<Row>, b: seq<Row>, schema: Schema)
    ensures Size(a + b, schema) == Size(a, schema) + Size(b, schema)
  {
    if a == [] {
      assert a + b == b;
    } else {
      assert (a + b)[1..] == a[1..] + b;
      SizeConcat(a[1..], b, schema);
    }
  }

  /** The insert guard keeps the page within its size. */
  lemma InsertFits(rows: seq<Row>, row: Row, schema: Schema)
    requires PageFits(rows, schema) && Complete(row, schema) && !StartsWithZero(row, schema)
    requires Size(rows, schema) + EstimateRowSize(row, schema) <= PAGE_SIZE
    ensures PageFits(rows + [row], schema)
  {
    SizeConcat(rows, [row], schema);
    assert [row][1..] == [];
  }
}
