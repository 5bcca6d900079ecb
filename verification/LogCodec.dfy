/** The binary log. */
module LogCodec {
  // Entries as bytes, and what reading a log file, or a torn one, returns.

  import opened Wrappers
  import opened Collections
  import opened Binary
  import opened TypedBytes
  import opened Operations

  /** A column's value; `NoValue` is an empty std::any. */
  datatype AnyValue = NoValue | IntValue(n: Int32) | FloatValue(raw: Float) | StringValue(str: Str)

  datatype Row = Row(tableName: Str, columns: map<Str, AnyValue>, rowId: Int32)

  datatype TableSchema = TableSchema(
    tableName: Str, columnNames: seq<Str>, columnTypes: seq<Int32>, columnSizes: seq<Int32>, primaryKey: Str,
    foreignKeys: map<Str, Str>)

  datatype LogEntry = LogEntry(
    logId: Int32, transactionId: Int32, timestamp: Int64, operation: Operation, tableName: Str, oldValue: Row,
    newValue: Row, query: Str, createdSchema: Option<TableSchema>, droppedSchema: Option<TableSchema>)

  // ---------- values ----------

  const TYPE_INT: nat := 1
  const TYPE_FLOAT: nat := 2
  const TYPE_STRING: nat := 3

  function WriteAny(v: AnyValue): Bytes {
    match v
    case NoValue => []
    case IntValue(n) => LittleEndian(TYPE_INT, 4) + WriteInt32(n)
    case FloatValue(raw) => LittleEndian(TYPE_FLOAT, 4) + raw
    case StringValue(str) => LittleEndian(TYPE_STRING, 4) + WriteStr(str)
  }

  function ReadAny(s: Bytes): Read<AnyValue> {
    var (tag, s1) :- ReadUnsigned(4, s);
    if tag == TYPE_INT then
      var (n, s2) :- ReadInt32(s1);
      Got(IntValue(n), s2)
    else if tag == TYPE_FLOAT then
      var (raw, s2) :- ReadFloat(s1);
      Got(FloatValue(raw), s2)
    else if tag == TYPE_STRING then
      var (str, s2) :- ReadStr(s1);
      Got(StringValue(str), s2)
    else Got(NoValue, s1)
  }

  lemma TagRoundTrip(tag: nat, body: Bytes, rest: Bytes)
    requires tag < U32
    ensures ReadUnsigned(4, LittleEndian(tag, 4) + body + rest) == Got(tag, body + rest)
  {
    Powers();
    assert LittleEndian(tag, 4) + body + rest == LittleEndian(tag, 4) + (body + rest);
    UnsignedRoundTrip(tag, 4, body + rest);
  }

  lemma AnyRoundTrip(v: AnyValue, rest: Bytes)
    requires v != NoValue
    ensures ReadAny(WriteAny(v) + rest) == Got(v, rest)
  {
    match v
    case IntValue(n) =>
      TagRoundTrip(TYPE_INT, WriteInt32(n), rest);
      Int32RoundTrip(n, rest);
    case FloatValue(raw) =>
      TagRoundTrip(TYPE_FLOAT, raw, rest);
      FloatRoundTrip(raw, rest);
    case StringValue(str) =>
      TagRoundTrip(TYPE_STRING, WriteStr(str), rest);
      StrRoundTrip(str, rest);
  }

  lemma AnyExtends(s: Bytes, more: Bytes)
    ensures Extends(ReadAny(s), ReadAny(s + more), s, more)
  {
    FixedExtends(4, s, more);
    if ReadUnsigned(4, s).Got? {
      var s1 := ReadUnsigned(4, s).rest;
      Int32Extends(s1, more);
      FloatExtends(s1, more);
      StrExtends(s1, more);
    }
  }

  // ---------- columns and rows ----------

  type Column = (Str, AnyValue)

  function WriteColumn(c: Column): Bytes {
    WriteStr(c.0) + WriteAny(c.1)
  }

  function ReadColumn(s: Bytes): Read<Column> {
    var (name, s1) :- ReadStr(s);
    var (v, s2) :- ReadAny(s1);
    Got((name, v), s2)
  }

  lemma ColumnRoundTrips(c: Column)
    requires c.1 != NoValue
    ensures RoundTrips(WriteColumn, ReadColumn, c)
  {
    forall rest
      ensures ReadColumn(WriteColumn(c) + rest) == Got(c, rest)
    {
      assert WriteColumn(c) + rest == WriteStr(c.0) + (WriteAny(c.1) + rest);
      StrRoundTrip(c.0, WriteAny(c.1) + rest);
      AnyRoundTrip(c.1, rest);
    }
  }

  lemma ColumnIsLocal()
    ensures Local(ReadColumn)
  {
    forall s, more
      ensures Extends(ReadColumn(s), ReadColumn(s + more), s, more)
    {
      StrExtends(s, more);
      if ReadStr(s).Got? {
        AnyExtends(ReadStr(s).rest, more);
      }
    }
  }

  /** The loop over a row's hash map, in whatever order it is enumerated. */
  method WriteColumns(columns: map<Str, AnyValue>) returns (out: Bytes, ghost order: seq<Str>)
    ensures Enumerates(order, columns) && |order| == |columns|
    ensures out == WriteList(WriteColumn, Pairs(order, columns))
  {
    out, order := LittleEndian(|columns|, 4), [];
    var todo := columns.Keys;
    while todo != {}
      invariant todo <= columns.Keys && |order| + |todo| == |columns|
      invariant forall k :: k in order <==> k in columns && k !in todo
      invariant forall i, j :: 0 <= i < j < |order| ==> order[i] != order[j]
      invariant out == LittleEndian(|columns|, 4) + WriteMany(WriteColumn, Pairs(order, columns))
      decreases todo
    {
      var k := Pick(todo);
      todo := todo - {k};
      var c := (k, columns[k]);
      assert Pairs(order + [k], columns) == Pairs(order, columns) + [c];
      WriteManySnoc(WriteColumn, Pairs(order, columns), c);
      Regroup(LittleEndian(|columns|, 4), WriteMany(WriteColumn, Pairs(order, columns)), WriteColumn(c));
      order := order + [k];
      out := out + WriteColumn(c);
    }
  }

  /** The loop that reads the columns back into a map. */
  method ReadColumns(s: Bytes) returns (r: Read<map<Str, AnyValue>>)
    ensures r == MapOf(ReadList(ReadColumn, s))
  {
    var head := ReadUnsigned(4, s);
    if head.Fail? {
      return Fail;
    }
    r := ReadPairs(ReadColumn, head.value, head.rest);
  }

  /** A row whose columns fit a count. */
  ghost predicate Countable(row: Row, order: seq<Str>) {
    Enumerates(order, row.columns) && |order| < U32
  }

  predicate HasValues(row: Row) {
    forall k :: k in row.columns ==> row.columns[k] != NoValue
  }

  /** A row whose columns fit a count and all have a value. */
  ghost predicate Storable(row: Row, order: seq<Str>) {
    Countable(row, order) && HasValues(row)
  }

  function WriteRow(row: Row, order: seq<Str>): Bytes
    requires forall k :: k in order ==> k in row.columns
  {
    WriteStr(row.tableName) + WriteList(WriteColumn, Pairs(order, row.columns)) + WriteInt32(row.rowId)
  }

  function ReadRow(s: Bytes): Read<Row> {
    var (tableName, s1) :- ReadStr(s);
    var (columns, s2) :- ReadList(ReadColumn, s1);
    var (rowId, s3) :- ReadInt32(s2);
    Got(Row(tableName, FromPairs(columns), rowId), s3)
  }

  lemma ColumnsRoundTrip(row: Row, order: seq<Str>, rest: Bytes)
    requires Storable(row, order)
    ensures ReadList(ReadColumn, WriteList(WriteColumn, Pairs(order, row.columns)) + rest) == Got(Pairs(order, row.columns), rest)
  {
    forall c | c in Pairs(order, row.columns)
      ensures RoundTrips(WriteColumn, ReadColumn, c)
    {
      ColumnRoundTrips(c);
    }
    ListRoundTrip(WriteColumn, ReadColumn, Pairs(order, row.columns), rest);
  }

  lemma RowBytes(row: Row, order: seq<Str>, rest: Bytes)
    requires forall k :: k in order ==> k in row.columns
    ensures WriteRow(row, order) + rest ==
      WriteStr(row.tableName) + (WriteList(WriteColumn, Pairs(order, row.columns)) + (WriteInt32(row.rowId) + rest))
  {
  }

  lemma RowRoundTrip(row: Row, order: seq<Str>, rest: Bytes)
    requires Storable(row, order)
    ensures ReadRow(WriteRow(row, order) + rest) == Got(row, rest)
  {
    var s3 := WriteInt32(row.rowId) + rest;
    RowBytes(row, order, rest);
    StrRoundTrip(row.tableName, WriteList(WriteColumn, Pairs(order, row.columns)) + s3);
    ColumnsRoundTrip(row, order, s3);
    Int32RoundTrip(row.rowId, rest);
    PairsRoundTrip(order, row.columns);
  }

  lemma RowExtends(s: Bytes, more: Bytes)
    ensures Extends(ReadRow(s), ReadRow(s + more), s, more)
  {
    StrExtends(s, more);
    if ReadStr(s).Got? {
      var s1 := ReadStr(s).rest;
      ColumnIsLocal();
      ListExtends(ReadColumn, s1, more);
      if ReadList(ReadColumn, s1).Got? {
        Int32Extends(ReadList(ReadColumn, s1).rest, more);
      }
    }
  }

  // ---------- schemas ----------

  type ForeignKey = (Str, Str)

  function WriteForeignKey(f: ForeignKey): Bytes {
    WriteStr(f.0) + WriteStr(f.1)
  }

  function ReadForeignKey(s: Bytes): Read<ForeignKey> {
    var (column, s1) :- ReadStr(s);
    var (reference, s2) :- ReadStr(s1);
    Got((column, reference), s2)
  }

  lemma SchemaPartsRoundTrip()
    ensures forall x :: RoundTrips(WriteStr, ReadStr, x)
    ensures forall x :: RoundTrips(WriteInt32, ReadInt32, x)
    ensures forall x :: RoundTrips(WriteForeignKey, ReadForeignKey, x)
  {
    forall x: Str, rest
      ensures ReadStr(WriteStr(x) + rest) == Got(x, rest)
    {
      StrRoundTrip(x, rest);
    }
    forall x: Int32, rest
      ensures ReadInt32(WriteInt32(x) + rest) == Got(x, rest)
    {
      Int32RoundTrip(x, rest);
    }
    forall x: ForeignKey, rest
      ensures ReadForeignKey(WriteForeignKey(x) + rest) == Got(x, rest)
    {
      assert WriteForeignKey(x) + rest == WriteStr(x.0) + (WriteStr(x.1) + rest);
      StrRoundTrip(x.0, WriteStr(x.1) + rest);
      StrRoundTrip(x.1, rest);
    }
  }

  lemma SchemaPartsAreLocal()
    ensures Local(ReadStr) && Local(ReadInt32) && Local(ReadForeignKey)
  {
    forall s, more
      ensures Extends(ReadStr(s), ReadStr(s + more), s, more)
      ensures Extends(ReadInt32(s), ReadInt32(s + more), s, more)
    {
      StrExtends(s, more);
      Int32Extends(s, more);
    }
    forall s, more
      ensures Extends(ReadForeignKey(s), ReadForeignKey(s + more), s, more)
    {
      StrExtends(s, more);
      if ReadStr(s).Got? {
        StrExtends(ReadStr(s).rest, more);
      }
    }
  }

  ghost predicate StorableSchema(schema: TableSchema, order: seq<Str>) {
    Enumerates(order, schema.foreignKeys) && |order| < U32
    && |schema.columnNames| < U32 && |schema.columnTypes| < U32 && |schema.columnSizes| < U32
  }

  function WriteSchemaColumns(schema: TableSchema): Bytes {
    WriteStr(schema.tableName) + WriteList(WriteStr, schema.columnNames) + WriteList(WriteInt32, schema.columnTypes)
    + WriteList(WriteInt32, schema.columnSizes)
  }

  function WriteSchema(schema: TableSchema, order: seq<Str>): Bytes
    requires forall k :: k in order ==> k in schema.foreignKeys
  {
    WriteSchemaColumns(schema) + WriteStr(schema.primaryKey) + WriteList(WriteForeignKey, Pairs(order, schema.foreignKeys))
  }

  /** All but the keys. */
  function ReadSchemaColumns(s: Bytes): Read<TableSchema> {
    var (tableName, s1) :- ReadStr(s);
    var (names, s2) :- ReadList(ReadStr, s1);
    var (types, s3) :- ReadList(ReadInt32, s2);
    var (sizes, s4) :- ReadList(ReadInt32, s3);
    Got(TableSchema(tableName, names, types, sizes, [], map[]), s4)
  }

  function ReadSchema(s: Bytes): Read<TableSchema> {
    var (schema, s1) :- ReadSchemaColumns(s);
    var (primaryKey, s2) :- ReadStr(s1);
    var (keys, s3) :- ReadList(ReadForeignKey, s2);
    Got(schema.(primaryKey := primaryKey, foreignKeys := FromPairs(keys)), s3)
  }

  lemma SchemaColumnsBytes(schema: TableSchema, rest: Bytes)
    ensures WriteSchemaColumns(schema) + rest ==
      WriteStr(schema.tableName) + (WriteList(WriteStr, schema.columnNames)
      + (WriteList(WriteInt32, schema.columnTypes) + (WriteList(WriteInt32, schema.columnSizes) + rest)))
  {
  }

  lemma SchemaColumnsRoundTrip(schema: TableSchema, rest: Bytes)
    requires |schema.columnNames| < U32 && |schema.columnTypes| < U32 && |schema.columnSizes| < U32
    ensures ReadSchemaColumns(WriteSchemaColumns(schema) + rest) == Got(schema.(primaryKey := [], foreignKeys := map[]), rest)
  {
    var s3 := WriteList(WriteInt32, schema.columnSizes) + rest;
    var s2 := WriteList(WriteInt32, schema.columnTypes) + s3;
    var s1 := WriteList(WriteStr, schema.columnNames) + s2;
    SchemaColumnsBytes(schema, rest);
    SchemaPartsRoundTrip();
    StrRoundTrip(schema.tableName, s1);
    ListRoundTrip(WriteStr, ReadStr, schema.columnNames, s2);
    ListRoundTrip(WriteInt32, ReadInt32, schema.columnTypes, s3);
    ListRoundTrip(WriteInt32, ReadInt32, schema.columnSizes, rest);
  }

  lemma SchemaRoundTrip(schema: TableSchema, order: seq<Str>, rest: Bytes)
    requires StorableSchema(schema, order)
    ensures ReadSchema(WriteSchema(schema, order) + rest) == Got(schema, rest)
  {
    var keys := Pairs(order, schema.foreignKeys);
    var s2 := WriteList(WriteForeignKey, keys) + rest;
    var s1 := WriteStr(schema.primaryKey) + s2;
    assert WriteSchema(schema, order) + rest == WriteSchemaColumns(schema) + s1;
    SchemaColumnsRoundTrip(schema, s1);
    StrRoundTrip(schema.primaryKey, s2);
    SchemaPartsRoundTrip();
    ListRoundTrip(WriteForeignKey, ReadForeignKey, keys, rest);
    PairsRoundTrip(order, schema.foreignKeys);
  }

  lemma SchemaColumnsExtends(s: Bytes, more: Bytes)
    ensures Extends(ReadSchemaColumns(s), ReadSchemaColumns(s + more), s, more)
  {
    SchemaPartsAreLocal();
    StrExtends(s, more);
    if ReadSchemaColumns(s).Got? {
      var s1 := ReadStr(s).rest;
      ListExtends(ReadStr, s1, more);
      var s2 := ReadList(ReadStr, s1).rest;
      ListExtends(ReadInt32, s2, more);
      ListExtends(ReadInt32, ReadList(ReadInt32, s2).rest, more);
    }
  }

  lemma SchemaExtends(s: Bytes, more: Bytes)
    ensures Extends(ReadSchema(s), ReadSchema(s + more), s, more)
  {
    SchemaColumnsExtends(s, more);
    if ReadSchema(s).Got? {
      SchemaPartsAreLocal();
      var s1 := ReadSchemaColumns(s).rest;
      StrExtends(s1, more);
      ListExtends(ReadForeignKey, ReadStr(s1).rest, more);
    }
  }

  // ---------- entries ----------

  const EMPTY_ROW: Row := Row([], map[], -1)

  /** The orders in which the hash maps of an entry are enumerated. */
  datatype Orders = Orders(oldValue: seq<Str>, newValue: seq<Str>, foreignKeys: seq<Str>)

  function WriteHeader(e: LogEntry): Bytes {
    WriteInt32(e.logId) + WriteInt32(e.transactionId) + WriteInt64(e.timestamp) + WriteInt32(Code(e.operation))
  }

  function WriteOptional(schema: Option<TableSchema>, order: seq<Str>): Bytes
    requires schema.Some? ==> forall k :: k in order ==> k in schema.value.foreignKeys
  {
    match schema
    case None => [0]
    case Some(value) => [1] + WriteSchema(value, order)
  }

  ghost predicate StorableOptional(schema: Option<TableSchema>, order: seq<Str>) {
    schema.Some? ==> StorableSchema(schema.value, order)
  }

  predicate StoresOldValue(op: Operation) {
    op == DELETE || op == UPDATE
  }

  predicate StoresNewValue(op: Operation) {
    op == INSERT || op == UPDATE
  }

  /** What the operation stores of the entry fits its counts. */
  ghost predicate WritableEntry(e: LogEntry, o: Orders) {
    && !e.operation.Unknown?
    && (StoresOldValue(e.operation) ==> Countable(e.oldValue, o.oldValue))
    && (StoresNewValue(e.operation) ==> Countable(e.newValue, o.newValue))
    && (e.operation == CREATE_TABLE ==> StorableOptional(e.createdSchema, o.foreignKeys))
    && (e.operation == DROP_TABLE ==> StorableOptional(e.droppedSchema, o.foreignKeys))
  }

  /** What the operation stores of the entry has all its values. */
  predicate StoresValues(e: LogEntry) {
    (StoresOldValue(e.operation) ==> HasValues(e.oldValue)) && (StoresNewValue(e.operation) ==> HasValues(e.newValue))
  }

  ghost predicate StorableEntry(e: LogEntry, o: Orders) {
    WritableEntry(e, o) && StoresValues(e)
  }

  /** Which fields go to the file depends on the operation; an ABORT has its header only. */
  function WriteBody(e: LogEntry, o: Orders): Bytes
    requires WritableEntry(e, o)
  {
    match e.operation
    case BEGIN => WriteStr(e.query)
    case COMMIT => WriteStr(e.query)
    case INSERT => WriteStr(e.tableName) + WriteRow(e.newValue, o.newValue) + WriteStr(e.query)
    case DELETE => WriteStr(e.tableName) + WriteRow(e.oldValue, o.oldValue) + WriteStr(e.query)
    case UPDATE =>
      WriteStr(e.tableName) + WriteRow(e.newValue, o.newValue) + WriteRow(e.oldValue, o.oldValue) + WriteStr(e.query)
    case CHECKPOINT => WriteStr(e.tableName) + WriteStr(e.query)
    case CREATE_TABLE => WriteStr(e.tableName) + WriteStr(e.query) + WriteOptional(e.createdSchema, o.foreignKeys)
    case DROP_TABLE => WriteStr(e.tableName) + WriteStr(e.query) + WriteOptional(e.droppedSchema, o.foreignKeys)
    case _ => []
  }

  function WriteEntry(e: LogEntry, o: Orders): Bytes
    requires WritableEntry(e, o)
  {
    WriteHeader(e) + WriteBody(e, o)
  }

  /** A new entry, with nothing but its header. */
  function Blank(logId: Int32, transactionId: Int32, timestamp: Int64, op: Operation): LogEntry {
    LogEntry(logId, transactionId, timestamp, op, [], EMPTY_ROW, EMPTY_ROW, [], None, None)
  }

  function ReadHeader(s: Bytes): Read<LogEntry> {
    var (logId, s1) :- ReadInt32(s);
    var (transactionId, s2) :- ReadInt32(s1);
    var (timestamp, s3) :- ReadInt64(s2);
    var (code, s4) :- ReadInt32(s3);
    Got(Blank(logId, transactionId, timestamp, OperationOf(code)), s4)
  }

  function ReadOptional(s: Bytes): Read<Option<TableSchema>> {
    if s == [] then Fail
    else if s[0] == 0 then Got(None, s[1..])
    else
      var (schema, s1) :- ReadSchema(s[1..]);
      Got(Some(schema), s1)
  }

  function ReadBody(e: LogEntry, s: Bytes): Read<LogEntry> {
    match e.operation
    case BEGIN =>
      var (query, s1) :- ReadStr(s);
      Got(e.(query := query), s1)
    case COMMIT =>
      var (query, s1) :- ReadStr(s);
      Got(e.(query := query), s1)
    case INSERT =>
      var (tableName, s1) :- ReadStr(s);
      var (row, s2) :- ReadRow(s1);
      var (query, s3) :- ReadStr(s2);
      Got(e.(tableName := tableName, newValue := row, query := query), s3)
    case DELETE =>
      var (tableName, s1) :- ReadStr(s);
      var (row, s2) :- ReadRow(s1);
      var (query, s3) :- ReadStr(s2);
      Got(e.(tableName := tableName, oldValue := row, query := query), s3)
    case UPDATE =>
      var (tableName, s1) :- ReadStr(s);
      var (after, s2) :- ReadRow(s1);
      var (before, s3) :- ReadRow(s2);
      var (query, s4) :- ReadStr(s3);
      Got(e.(tableName := tableName, newValue := after, oldValue := before, query := query), s4)
    case CHECKPOINT =>
      var (tableName, s1) :- ReadStr(s);
      var (query, s2) :- ReadStr(s1);
      Got(e.(tableName := tableName, query := query), s2)
    case CREATE_TABLE =>
      var (tableName, s1) :- ReadStr(s);
      var (query, s2) :- ReadStr(s1);
      var (schema, s3) :- ReadOptional(s2);
      Got(e.(tableName := tableName, query := query, createdSchema := schema), s3)
    case DROP_TABLE =>
      var (tableName, s1) :- ReadStr(s);
      var (query, s2) :- ReadStr(s1);
      var (schema, s3) :- ReadOptional(s2);
      Got(e.(tableName := tableName, query := query, droppedSchema := schema), s3)
    case _ => Got(e, s)
  }

  function ReadEntry(s: Bytes): Read<LogEntry> {
    var (e, s1) :- ReadHeader(s);
    ReadBody(e, s1)
  }

  /** The entry as it comes back: the fields its operation stores. */
  function Stored(e: LogEntry): LogEntry {
    var blank := Blank(e.logId, e.transactionId, e.timestamp, e.operation);
    match e.operation
    case BEGIN => blank.(query := e.query)
    case COMMIT => blank.(query := e.query)
    case INSERT => blank.(tableName := e.tableName, newValue := e.newValue, query := e.query)
    case DELETE => blank.(tableName := e.tableName, oldValue := e.oldValue, query := e.query)
    case UPDATE => blank.(tableName := e.tableName, newValue := e.newValue, oldValue := e.oldValue, query := e.query)
    case CHECKPOINT => blank.(tableName := e.tableName, query := e.query)
    case CREATE_TABLE => blank.(tableName := e.tableName, query := e.query, createdSchema := e.createdSchema)
    case DROP_TABLE => blank.(tableName := e.tableName, query := e.query, droppedSchema := e.droppedSchema)
    case _ => blank
  }

  lemma HeaderBytes(e: LogEntry, rest: Bytes)
    ensures WriteHeader(e) + rest ==
      WriteInt32(e.logId) + (WriteInt32(e.transactionId) + (WriteInt64(e.timestamp) + (WriteInt32(Code(e.operation)) + rest)))
  {
  }

  lemma HeaderRoundTrip(e: LogEntry, rest: Bytes)
    requires !e.operation.Unknown?
    ensures ReadHeader(WriteHeader(e) + rest) == Got(Blank(e.logId, e.transactionId, e.timestamp, e.operation), rest)
  {
    Powers();
    var s3 := WriteInt32(Code(e.operation)) + rest;
    var s2 := WriteInt64(e.timestamp) + s3;
    var s1 := WriteInt32(e.transactionId) + s2;
    HeaderBytes(e, rest);
    Int32RoundTrip(e.logId, s1);
    Int32RoundTrip(e.transactionId, s2);
    Int64RoundTrip(e.timestamp, s3);
    Int32RoundTrip(Code(e.operation), rest);
  }

  lemma OptionalRoundTrip(schema: Option<TableSchema>, order: seq<Str>, rest: Bytes)
    requires StorableOptional(schema, order)
    ensures ReadOptional(WriteOptional(schema, order) + rest) == Got(schema, rest)
  {
    if schema.Some? {
      assert (WriteOptional(schema, order) + rest)[1..] == WriteSchema(schema.value, order) + rest;
      SchemaRoundTrip(schema.value, order, rest);
    }
  }

  lemma RowBodyRoundTrip(e: LogEntry, row: Row, order: seq<Str>, tail: Bytes)
    requires Storable(row, order)
    ensures var s := WriteStr(e.tableName) + WriteRow(row, order) + tail;
      ReadStr(s) == Got(e.tableName, WriteRow(row, order) + tail) && ReadRow(WriteRow(row, order) + tail) == Got(row, tail)
  {
    Regroup(WriteStr(e.tableName), WriteRow(row, order), tail);
    StrRoundTrip(e.tableName, WriteRow(row, order) + tail);
    RowRoundTrip(row, order, tail);
  }

  lemma TextBodyRoundTrip(e: LogEntry, tail: Bytes)
    ensures var s := WriteStr(e.tableName) + WriteStr(e.query) + tail;
      ReadStr(s) == Got(e.tableName, WriteStr(e.query) + tail) && ReadStr(WriteStr(e.query) + tail) == Got(e.query, tail)
  {
    Regroup(WriteStr(e.tableName), WriteStr(e.query), tail);
    StrRoundTrip(e.tableName, WriteStr(e.query) + tail);
    StrRoundTrip(e.query, tail);
  }

  ghost predicate BodyReadsBack(e: LogEntry, o: Orders, rest: Bytes)
    requires StorableEntry(e, o)
  {
    ReadBody(Blank(e.logId, e.transactionId, e.timestamp, e.operation), WriteBody(e, o) + rest) == Got(Stored(e), rest)
  }

  lemma InsertRoundTrip(e: LogEntry, o: Orders, rest: Bytes)
    requires StorableEntry(e, o) && e.operation == INSERT
    ensures BodyReadsBack(e, o, rest)
  {
    var query := WriteStr(e.query) + rest;
    StrRoundTrip(e.query, rest);
    RowBodyRoundTrip(e, e.newValue, o.newValue, query);
    Regroup4(WriteStr(e.tableName), WriteRow(e.newValue, o.newValue), WriteStr(e.query), rest);
  }

  lemma DeleteRoundTrip(e: LogEntry, o: Orders, rest: Bytes)
    requires StorableEntry(e, o) && e.operation == DELETE
    ensures BodyReadsBack(e, o, rest)
  {
    var query := WriteStr(e.query) + rest;
    StrRoundTrip(e.query, rest);
    RowBodyRoundTrip(e, e.oldValue, o.oldValue, query);
    Regroup4(WriteStr(e.tableName), WriteRow(e.oldValue, o.oldValue), WriteStr(e.query), rest);
  }

  lemma UpdateRoundTrip(e: LogEntry, o: Orders, rest: Bytes)
    requires StorableEntry(e, o) && e.operation == UPDATE
    ensures BodyReadsBack(e, o, rest)
  {
    var query := WriteStr(e.query) + rest;
    var tail := WriteRow(e.oldValue, o.oldValue) + query;
    StrRoundTrip(e.query, rest);
    RowBodyRoundTrip(e, e.newValue, o.newValue, tail);
    RowRoundTrip(e.oldValue, o.oldValue, query);
    Regroup5(WriteStr(e.tableName), WriteRow(e.newValue, o.newValue), WriteRow(e.oldValue, o.oldValue), WriteStr(e.query), rest);
  }

  /** What the readers of the parts say about the body of a DDL entry. */
  lemma ReadSchemaBody(e: LogEntry, s: Bytes, s1: Bytes, s2: Bytes, schema: Option<TableSchema>, rest: Bytes)
    requires e.operation == CREATE_TABLE || e.operation == DROP_TABLE
    requires ReadStr(s) == Got(e.tableName, s1) && ReadStr(s1) == Got(e.query, s2) && ReadOptional(s2) == Got(schema, rest)
    requires schema == if e.operation == CREATE_TABLE then e.createdSchema else e.droppedSchema
    ensures ReadBody(Blank(e.logId, e.transactionId, e.timestamp, e.operation), s) == Got(Stored(e), rest)
  {
  }

  lemma SchemaBodyRoundTrip(e: LogEntry, o: Orders, rest: Bytes)
    requires StorableEntry(e, o) && (e.operation == CREATE_TABLE || e.operation == DROP_TABLE)
    ensures BodyReadsBack(e, o, rest)
  {
    var schema := if e.operation == CREATE_TABLE then e.createdSchema else e.droppedSchema;
    var bytes := WriteOptional(schema, o.foreignKeys);
    var s2 := bytes + rest;
    var s1 := WriteStr(e.query) + s2;
    OptionalRoundTrip(schema, o.foreignKeys, rest);
    TextBodyRoundTrip(e, s2);
    Regroup4(WriteStr(e.tableName), WriteStr(e.query), bytes, rest);
    ReadSchemaBody(e, WriteBody(e, o) + rest, s1, s2, schema, rest);
  }

  lemma ShortRoundTrip(e: LogEntry, o: Orders, rest: Bytes)
    requires StorableEntry(e, o)
    requires e.operation == BEGIN || e.operation == COMMIT || e.operation == ABORT || e.operation == CHECKPOINT
    ensures BodyReadsBack(e, o, rest)
  {
    StrRoundTrip(e.query, rest);
    TextBodyRoundTrip(e, rest);
  }

  lemma BodyRoundTrip(e: LogEntry, o: Orders, rest: Bytes)
    requires StorableEntry(e, o)
    ensures BodyReadsBack(e, o, rest)
  {
    match e.operation
    case INSERT => InsertRoundTrip(e, o, rest);
    case DELETE => DeleteRoundTrip(e, o, rest);
    case UPDATE => UpdateRoundTrip(e, o, rest);
    case CREATE_TABLE => SchemaBodyRoundTrip(e, o, rest);
    case DROP_TABLE => SchemaBodyRoundTrip(e, o, rest);
    case _ => ShortRoundTrip(e, o, rest);
  }

  /** An entry is read back as what its operation stores, whatever follows. */
  lemma EntryRoundTrip(e: LogEntry, o: Orders, rest: Bytes)
    requires StorableEntry(e, o)
    ensures ReadEntry(WriteEntry(e, o) + rest) == Got(Stored(e), rest)
  {
    Regroup(WriteHeader(e), WriteBody(e, o), rest);
    HeaderRoundTrip(e, WriteBody(e, o) + rest);
    BodyRoundTrip(e, o, rest);
  }

  // ---------- reading does not look ahead ----------

  lemma HeaderExtends(s: Bytes, more: Bytes)
    ensures Extends(ReadHeader(s), ReadHeader(s + more), s, more)
    ensures ReadHeader(s).Got? ==> |ReadHeader(s).rest| + 20 == |s|
  {
    Int32Extends(s, more);
    if ReadHeader(s).Got? {
      var s1 := ReadInt32(s).rest;
      Int32Extends(s1, more);
      var s2 := ReadInt32(s1).rest;
      Int64Extends(s2, more);
      Int32Extends(ReadInt64(s2).rest, more);
    }
  }

  lemma OptionalExtends(s: Bytes, more: Bytes)
    ensures Extends(ReadOptional(s), ReadOptional(s + more), s, more)
  {
    if s != [] {
      assert (s + more)[1..] == s[1..] + more;
      SchemaExtends(s[1..], more);
    }
  }

  lemma UpdateBodyExtends(e: LogEntry, s: Bytes, more: Bytes)
    requires e.operation == UPDATE
    ensures Extends(ReadBody(e, s), ReadBody(e, s + more), s, more)
  {
    StrExtends(s, more);
    if ReadBody(e, s).Got? {
      var s1 := ReadStr(s).rest;
      RowExtends(s1, more);
      var s2 := ReadRow(s1).rest;
      RowExtends(s2, more);
      StrExtends(ReadRow(s2).rest, more);
    }
  }

  lemma TextBodyExtends(e: LogEntry, s: Bytes, more: Bytes)
    requires e.operation == CHECKPOINT || e.operation == CREATE_TABLE || e.operation == DROP_TABLE
    ensures Extends(ReadBody(e, s), ReadBody(e, s + more), s, more)
  {
    StrExtends(s, more);
    if ReadBody(e, s).Got? {
      var s1 := ReadStr(s).rest;
      StrExtends(s1, more);
      OptionalExtends(ReadStr(s1).rest, more);
    }
  }

  lemma RowKindExtends(e: LogEntry, s: Bytes, more: Bytes)
    requires e.operation == INSERT || e.operation == DELETE
    ensures Extends(ReadBody(e, s), ReadBody(e, s + more), s, more)
  {
    StrExtends(s, more);
    if ReadBody(e, s).Got? {
      var s1 := ReadStr(s).rest;
      RowExtends(s1, more);
      StrExtends(ReadRow(s1).rest, more);
    }
  }

  lemma BodyExtends(e: LogEntry, s: Bytes, more: Bytes)
    ensures Extends(ReadBody(e, s), ReadBody(e, s + more), s, more)
  {
    match e.operation
    case INSERT => RowKindExtends(e, s, more);
    case DELETE => RowKindExtends(e, s, more);
    case UPDATE => UpdateBodyExtends(e, s, more);
    case BEGIN => StrExtends(s, more);
    case COMMIT => StrExtends(s, more);
    case CHECKPOINT => TextBodyExtends(e, s, more);
    case CREATE_TABLE => TextBodyExtends(e, s, more);
    case DROP_TABLE => TextBodyExtends(e, s, more);
    case _ =>
  }

  lemma EntryExtends(s: Bytes, more: Bytes)
    ensures Extends(ReadEntry(s), ReadEntry(s + more), s, more)
  {
    HeaderExtends(s, more);
    if ReadHeader(s).Got? {
      BodyExtends(ReadHeader(s).value, ReadHeader(s).rest, more);
    }
  }

  // ---------- whole files ----------

  lemma EntriesAreLocal()
    ensures Local(ReadEntry) && Progress(ReadEntry)
  {
    forall s, more
      ensures Extends(ReadEntry(s), ReadEntry(s + more), s, more)
    {
      EntryExtends(s, more);
    }
    forall s | ReadEntry(s).Got?
      ensures |ReadEntry(s).rest| < |s|
    {
      Shrinks(s);
    }
  }

  lemma Shrinks(s: Bytes)
    ensures ReadEntry(s).Got? ==> |ReadEntry(s).rest| < |s|
  {
    HeaderExtends(s, []);
    if ReadHeader(s).Got? {
      BodyExtends(ReadHeader(s).value, ReadHeader(s).rest, []);
    }
  }

  function ReadLog(file: Bytes): seq<LogEntry> {
    EntriesAreLocal();
    ReadAll(ReadEntry, file)
  }

  /** The loop over a log file. */
  method ReadAllLogs(file: Bytes) returns (logs: seq<LogEntry>)
    ensures logs == ReadLog(file)
  {
    logs := [];
    var s := file;
    while s != []
      invariant logs + ReadLog(s) == ReadLog(file)
      decreases |s|
    {
      EntriesAreLocal();
      var r := ReadEntry(s);
      if r.Fail? {
        break;
      }
      logs := logs + [r.value];
      s := r.rest;
    }
  }

  type Written = (LogEntry, Orders)

  ghost predicate AllWritable(es: seq<Written>) {
    forall i :: 0 <= i < |es| ==> WritableEntry(es[i].0, es[i].1)
  }

  ghost predicate AllStorable(es: seq<Written>) {
    forall i :: 0 <= i < |es| ==> StorableEntry(es[i].0, es[i].1)
  }

  function Blocks(es: seq<Written>): (blocks: seq<Bytes>)
    requires AllWritable(es)
    ensures |blocks| == |es|
  {
    seq(|es|, i requires 0 <= i < |es| => WriteEntry(es[i].0, es[i].1))
  }

  function AllStored(es: seq<Written>): (logs: seq<LogEntry>)
    ensures |logs| == |es|
  {
    seq(|es|, i requires 0 <= i < |es| => Stored(es[i].0))
  }

  lemma EntryReadsAs(e: LogEntry, o: Orders)
    requires StorableEntry(e, o)
    ensures ReadsAs(ReadEntry, WriteEntry(e, o), Stored(e))
  {
    assert |WriteHeader(e)| == 20;
    forall rest
      ensures ReadEntry(WriteEntry(e, o) + rest) == Got(Stored(e), rest)
    {
      EntryRoundTrip(e, o, rest);
    }
  }

  lemma BlocksReadAs(es: seq<Written>)
    requires AllStorable(es)
    ensures forall i :: 0 <= i < |es| ==> ReadsAs(ReadEntry, Blocks(es)[i], AllStored(es)[i])
  {
    forall i | 0 <= i < |es|
      ensures ReadsAs(ReadEntry, Blocks(es)[i], AllStored(es)[i])
    {
      EntryReadsAs(es[i].0, es[i].1);
    }
  }

  /** Reading any prefix of a log file returns exactly the entries that lie wholly within it, each
      with the fields its operation stores. */
  lemma TornLog(es: seq<Written>, n: nat)
    requires AllStorable(es) && n <= |Concat(Blocks(es))|
    ensures var k := Whole(Blocks(es), n);
      && ReadLog(Concat(Blocks(es))[..n]) == AllStored(es)[..k]
      && |Concat(Blocks(es)[..k])| <= n && (k < |es| ==> n < |Concat(Blocks(es)[..k + 1])|)
  {
    var blocks, logs := Blocks(es), AllStored(es);
    EntriesAreLocal();
    BlocksReadAs(es);
    TornFile(ReadEntry, blocks, logs, n);
    WholeIsWhole(blocks, n);
  }

  /** The whole file is read back. */
  lemma LogRoundTrip(es: seq<Written>)
    requires AllStorable(es)
    ensures ReadLog(Concat(Blocks(es))) == AllStored(es)
  {
    var file := Concat(Blocks(es));
    TornLog(es, |file|);
    assert file[..|file|] == file;
    AllWhole(Blocks(es));
    assert AllStored(es)[..|es|] == AllStored(es);
  }
}
