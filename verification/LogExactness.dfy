/** Exactly when the log is read back. */
module LogExactness {
  // A column without a value is written as nothing, but at least its type is read for it. So its row,
  // its entry and its log file take more bytes to read than there are.

  import opened Wrappers
  import opened Binary
  import opened TypedBytes
  import opened Operations
  import opened LogCodec

  // ---------- how many bytes a read takes ----------

  function Total<T>(weigh: T -> nat, xs: seq<T>): nat {
    if xs == [] then 0 else weigh(xs[0]) + Total(weigh, xs[1..])
  }

  /** Reading x takes at least as many bytes as x weighs. */
  ghost predicate Takes<T(!new)>(read: Bytes -> Read<T>, weigh: T -> nat) {
    forall s :: read(s).Got? ==> |s| >= |read(s).rest| + weigh(read(s).value)
  }

  lemma {:induction false} ManyTakes<T(!new)>(read: Bytes -> Read<T>, weigh: T -> nat, count: nat, s: Bytes)
    requires Takes(read, weigh)
    ensures var r := ReadMany(read, count, s); r.Got? ==> |s| >= |r.rest| + Total(weigh, r.value)
  {
    if count > 0 && ReadMany(read, count, s).Got? {
      ManyTakes(read, weigh, count - 1, read(s).rest);
      var x, xs := read(s).value, ReadMany(read, count - 1, read(s).rest).value;
      assert ([x] + xs)[1..] == xs;
    }
  }

  lemma {:induction false} WrittenTotal<T>(write: T -> Bytes, weigh: T -> nat, xs: seq<T>)
    requires forall x :: weigh(x) == |write(x)|
    ensures |WriteMany(write, xs)| == Total(weigh, xs)
  {
    if xs != [] {
      WrittenTotal(write, weigh, xs[1..]);
    }
  }

  /** A list whose elements weigh what is written of them takes what is written of it. */
  lemma ListTakes<T(!new)>(read: Bytes -> Read<T>, write: T -> Bytes, weigh: T -> nat, s: Bytes)
    requires Takes(read, weigh) && forall x :: weigh(x) == |write(x)|
    ensures var r := ReadList(read, s); r.Got? ==> |s| >= |r.rest| + |WriteList(write, r.value)|
  {
    if ReadList(read, s).Got? {
      ManyTakes(read, weigh, ReadUnsigned(4, s).value, s[4..]);
      WrittenTotal(write, weigh, ReadList(read, s).value);
    }
  }

  // ---------- maps that are read from pairs ----------

  lemma {:induction false} TotalWithout<T>(weigh: T -> nat, xs: seq<T>, i: nat)
    requires i < |xs|
    ensures Total(weigh, xs) == weigh(xs[i]) + Total(weigh, xs[..i] + xs[i + 1..])
  {
    if i == 0 {
      assert xs[..0] + xs[1..] == xs[1..];
    } else {
      TotalWithout(weigh, xs[1..], i - 1);
      var ys := xs[..i] + xs[i + 1..];
      assert ys[1..] == xs[1..][..i - 1] + xs[1..][i..];
    }
  }

  lemma {:induction false} FromPairsFrom<K, V>(ps: seq<(K, V)>)
    ensures forall k :: k in FromPairs(ps) ==> (k, FromPairs(ps)[k]) in ps
  {
    if ps != [] {
      var front, last := ps[..|ps| - 1], ps[|ps| - 1];
      FromPairsFrom(front);
      assert ps == front + [last];
    }
  }

  /** A map weighs no more than the pairs it is read from. */
  lemma {:induction false} Contained<K, V>(weigh: ((K, V)) -> nat, order: seq<K>, m: map<K, V>, ps: seq<(K, V)>)
    requires forall k :: k in order ==> k in m && (k, m[k]) in ps
    requires forall i, j :: 0 <= i < j < |order| ==> order[i] != order[j]
    ensures Total(weigh, Pairs(order, m)) <= Total(weigh, ps)
  {
    if order != [] {
      var k, rest := order[0], order[1..];
      var i :| 0 <= i < |ps| && ps[i] == (k, m[k]);
      var ps' := ps[..i] + ps[i + 1..];
      forall x | x in rest
        ensures (x, m[x]) in ps'
      {
        var j :| 0 <= j < |ps| && ps[j] == (x, m[x]);
        assert j != i;
        assert ps'[if j < i then j else j - 1] == ps[j];
      }
      TotalWithout(weigh, ps, i);
      Contained(weigh, rest, m, ps');
      assert Pairs(order, m)[1..] == Pairs(rest, m);
    }
  }

  /** The pairs of a map, in whatever order, weigh no more than what it is read from. */
  lemma MapTakes<K(!new), V(!new)>(read: Bytes -> Read<(K, V)>, weigh: ((K, V)) -> nat, order: seq<K>, s: Bytes)
    requires Takes(read, weigh)
    requires var r := ReadList(read, s); r.Got? ==> Enumerates(order, FromPairs(r.value))
    ensures var r := ReadList(read, s); r.Got? ==>
      |s| >= |r.rest| + 4 + Total(weigh, Pairs(order, FromPairs(r.value)))
  {
    if ReadList(read, s).Got? {
      var ps := ReadList(read, s).value;
      ManyTakes(read, weigh, ReadUnsigned(4, s).value, s[4..]);
      FromPairsFrom(ps);
      Contained(weigh, order, FromPairs(ps), ps);
    }
  }

  // ---------- values and columns ----------

  /** What is written of the value, and the type of one that is missing. */
  function AnyWeight(v: AnyValue): nat {
    |WriteAny(v)| + if v == NoValue then 4 else 0
  }

  function ColumnWeight(c: Column): nat {
    |WriteStr(c.0)| + AnyWeight(c.1)
  }

  function StrWeight(str: Str): nat {
    |WriteStr(str)|
  }

  function Int32Weight(n: Int32): nat {
    |WriteInt32(n)|
  }

  function ForeignKeyWeight(f: ForeignKey): nat {
    |WriteForeignKey(f)|
  }

  lemma PartsTake()
    ensures Takes(ReadStr, StrWeight) && Takes(ReadInt32, Int32Weight) && Takes(ReadForeignKey, ForeignKeyWeight)
  {
  }

  lemma AnyTakes()
    ensures Takes(ReadAny, AnyWeight)
  {
    forall s | ReadAny(s).Got?
      ensures |s| >= |ReadAny(s).rest| + AnyWeight(ReadAny(s).value)
    {
      PartsTake();
      assert ReadInt32(s[4..]).Got? ==> |s[4..]| >= |ReadInt32(s[4..]).rest| + Int32Weight(ReadInt32(s[4..]).value);
      assert ReadStr(s[4..]).Got? ==> |s[4..]| >= |ReadStr(s[4..]).rest| + StrWeight(ReadStr(s[4..]).value);
    }
  }

  lemma ColumnTakes()
    ensures Takes(ReadColumn, ColumnWeight)
  {
    PartsTake();
    AnyTakes();
    forall s | ReadColumn(s).Got?
      ensures |s| >= |ReadColumn(s).rest| + ColumnWeight(ReadColumn(s).value)
    {
      var s1 := ReadStr(s).rest;
      assert |s| >= |s1| + StrWeight(ReadStr(s).value);
      assert |s1| >= |ReadAny(s1).rest| + AnyWeight(ReadAny(s1).value);
    }
  }

  lemma {:induction false} ColumnsWritten(cs: seq<Column>)
    ensures |WriteMany(WriteColumn, cs)| <= Total(ColumnWeight, cs)
    ensures |WriteMany(WriteColumn, cs)| == Total(ColumnWeight, cs) <==> forall c :: c in cs ==> c.1 != NoValue
  {
    if cs != [] {
      ColumnsWritten(cs[1..]);
      assert cs == [cs[0]] + cs[1..];
    }
  }

  // ---------- rows ----------

  function RowWeight(row: Row, order: seq<Str>): nat
    requires forall k :: k in order ==> k in row.columns
  {
    StrWeight(row.tableName) + 4 + Total(ColumnWeight, Pairs(order, row.columns)) + 4
  }

  lemma RowTakes(s: Bytes, row: Row, order: seq<Str>, rest: Bytes)
    requires Enumerates(order, row.columns) && ReadRow(s) == Got(row, rest)
    ensures |s| >= |rest| + RowWeight(row, order)
  {
    PartsTake();
    ColumnTakes();
    var s1 := ReadStr(s).rest;
    assert |s| >= |s1| + StrWeight(row.tableName);
    MapTakes(ReadColumn, ColumnWeight, order, s1);
  }

  lemma RowWritten(row: Row, order: seq<Str>)
    requires Enumerates(order, row.columns)
    ensures |WriteRow(row, order)| <= RowWeight(row, order)
    ensures |WriteRow(row, order)| == RowWeight(row, order) <==> HasValues(row)
  {
    var cs := Pairs(order, row.columns);
    ColumnsWritten(cs);
    if HasValues(row) {
      assert forall c :: c in cs ==> c.1 != NoValue;
    } else {
      var k :| k in row.columns && row.columns[k] == NoValue;
      var i :| 0 <= i < |order| && order[i] == k;
      assert cs[i] in cs && cs[i].1 == NoValue;
    }
  }

  /** Whatever follows it, a row is read back if and only if each of its columns has a value. */
  lemma WhenRowIsReadBack(row: Row, order: seq<Str>, rest: Bytes)
    requires Countable(row, order)
    ensures ReadRow(WriteRow(row, order) + rest) == Got(row, rest) <==> HasValues(row)
  {
    RowWritten(row, order);
    if HasValues(row) {
      RowRoundTrip(row, order, rest);
    } else if ReadRow(WriteRow(row, order) + rest) == Got(row, rest) {
      RowTakes(WriteRow(row, order) + rest, row, order, rest);
    }
  }

  // ---------- entries ----------

  lemma SchemaColumnsTake(s: Bytes)
    ensures var r := ReadSchemaColumns(s); r.Got? ==> |s| >= |r.rest| + |WriteSchemaColumns(r.value)|
  {
    if ReadSchemaColumns(s).Got? {
      PartsTake();
      var s1 := ReadStr(s).rest;
      assert |s| >= |s1| + StrWeight(ReadStr(s).value);
      ListTakes(ReadStr, WriteStr, StrWeight, s1);
      var s2 := ReadList(ReadStr, s1).rest;
      ListTakes(ReadInt32, WriteInt32, Int32Weight, s2);
      ListTakes(ReadInt32, WriteInt32, Int32Weight, ReadList(ReadInt32, s2).rest);
    }
  }

  lemma SchemaTakes(s: Bytes, schema: TableSchema, order: seq<Str>, rest: Bytes)
    requires Enumerates(order, schema.foreignKeys) && ReadSchema(s) == Got(schema, rest)
    ensures |s| >= |rest| + |WriteSchema(schema, order)|
  {
    PartsTake();
    SchemaColumnsTake(s);
    var s1 := ReadSchemaColumns(s).rest;
    assert |s1| >= |ReadStr(s1).rest| + StrWeight(schema.primaryKey);
    MapTakes(ReadForeignKey, ForeignKeyWeight, order, ReadStr(s1).rest);
    WrittenTotal(WriteForeignKey, ForeignKeyWeight, Pairs(order, schema.foreignKeys));
  }

  lemma OptionalTakes(s: Bytes, schema: Option<TableSchema>, order: seq<Str>, rest: Bytes)
    requires StorableOptional(schema, order) && ReadOptional(s) == Got(schema, rest)
    ensures |s| >= |rest| + |WriteOptional(schema, order)|
  {
    if schema.Some? {
      SchemaTakes(s[1..], schema.value, order, rest);
    }
  }

  /** The body, with the types of missing values. */
  ghost function BodyWeight(e: LogEntry, o: Orders): nat
    requires WritableEntry(e, o)
  {
    match e.operation
    case INSERT => StrWeight(e.tableName) + RowWeight(e.newValue, o.newValue) + StrWeight(e.query)
    case DELETE => StrWeight(e.tableName) + RowWeight(e.oldValue, o.oldValue) + StrWeight(e.query)
    case UPDATE =>
      StrWeight(e.tableName) + RowWeight(e.newValue, o.newValue) + RowWeight(e.oldValue, o.oldValue) + StrWeight(e.query)
    case _ => |WriteBody(e, o)|
  }

  lemma BodyWritten(e: LogEntry, o: Orders)
    requires WritableEntry(e, o)
    ensures |WriteBody(e, o)| <= BodyWeight(e, o)
    ensures |WriteBody(e, o)| == BodyWeight(e, o) <==> StoresValues(e)
  {
    match e.operation
    case INSERT => RowWritten(e.newValue, o.newValue);
    case DELETE => RowWritten(e.oldValue, o.oldValue);
    case UPDATE =>
      RowWritten(e.newValue, o.newValue);
      RowWritten(e.oldValue, o.oldValue);
    case _ =>
  }

  /** What follows is about the body of e as it is read. */
  ghost predicate BodyIsRead(e: LogEntry, s: Bytes, rest: Bytes) {
    ReadBody(Blank(e.logId, e.transactionId, e.timestamp, e.operation), s) == Got(Stored(e), rest)
  }

  lemma RowBodyTakes(e: LogEntry, o: Orders, s: Bytes, rest: Bytes)
    requires WritableEntry(e, o) && BodyIsRead(e, s, rest) && (e.operation == INSERT || e.operation == DELETE)
    ensures |s| >= |rest| + BodyWeight(e, o)
  {
    PartsTake();
    var s1 := ReadStr(s).rest;
    var s2 := ReadRow(s1).rest;
    assert |s| >= |s1| + StrWeight(e.tableName) && |s2| >= |rest| + StrWeight(e.query);
    if e.operation == INSERT {
      RowTakes(s1, e.newValue, o.newValue, s2);
    } else {
      RowTakes(s1, e.oldValue, o.oldValue, s2);
    }
  }

  lemma UpdateBodyTakes(e: LogEntry, o: Orders, s: Bytes, rest: Bytes)
    requires WritableEntry(e, o) && BodyIsRead(e, s, rest) && e.operation == UPDATE
    ensures |s| >= |rest| + BodyWeight(e, o)
  {
    PartsTake();
    var s1 := ReadStr(s).rest;
    var s2 := ReadRow(s1).rest;
    var s3 := ReadRow(s2).rest;
    assert |s| >= |s1| + StrWeight(e.tableName) && |s3| >= |rest| + StrWeight(e.query);
    RowTakes(s1, e.newValue, o.newValue, s2);
    RowTakes(s2, e.oldValue, o.oldValue, s3);
  }

  predicate IsTextual(op: Operation) {
    op == CHECKPOINT || op == CREATE_TABLE || op == DROP_TABLE
  }

  lemma TextBodyTakes(e: LogEntry, o: Orders, s: Bytes, rest: Bytes)
    requires WritableEntry(e, o) && BodyIsRead(e, s, rest) && IsTextual(e.operation)
    ensures |s| >= |rest| + BodyWeight(e, o)
  {
    PartsTake();
    var s1 := ReadStr(s).rest;
    var s2 := ReadStr(s1).rest;
    assert |s| >= |s1| + StrWeight(e.tableName) && |s1| >= |s2| + StrWeight(e.query);
    if e.operation == CREATE_TABLE {
      OptionalTakes(s2, e.createdSchema, o.foreignKeys, rest);
    } else if e.operation == DROP_TABLE {
      OptionalTakes(s2, e.droppedSchema, o.foreignKeys, rest);
    }
  }

  lemma BodyTakes(e: LogEntry, o: Orders, s: Bytes, rest: Bytes)
    requires WritableEntry(e, o) && BodyIsRead(e, s, rest)
    ensures |s| >= |rest| + BodyWeight(e, o)
  {
    if e.operation == INSERT || e.operation == DELETE {
      RowBodyTakes(e, o, s, rest);
    } else if e.operation == UPDATE {
      UpdateBodyTakes(e, o, s, rest);
    } else if IsTextual(e.operation) {
      TextBodyTakes(e, o, s, rest);
    } else {
      PartsTake();
      assert ReadStr(s).Got? ==> |s| >= |ReadStr(s).rest| + StrWeight(ReadStr(s).value);
    }
  }

  ghost predicate SameHeader(d: LogEntry, e: LogEntry) {
    && d.logId == e.logId && d.transactionId == e.transactionId && d.timestamp == e.timestamp && d.operation == e.operation
  }

  lemma RowsKeepHeader(e: LogEntry, s: Bytes)
    requires e.operation == INSERT || e.operation == DELETE || e.operation == UPDATE
    ensures var r := ReadBody(e, s); r.Got? ==> SameHeader(r.value, e)
  {
    if e.operation == INSERT {
    } else if e.operation == DELETE {
    } else {
      assert e.operation == UPDATE;
    }
  }

  /** Reading the body leaves the header as it is. */
  lemma BodyKeepsHeader(e: LogEntry, s: Bytes)
    ensures var r := ReadBody(e, s); r.Got? ==> SameHeader(r.value, e)
  {
    if e.operation == INSERT || e.operation == DELETE || e.operation == UPDATE {
      RowsKeepHeader(e, s);
    } else if e.operation == CREATE_TABLE || e.operation == DROP_TABLE {
    } else if e.operation == BEGIN || e.operation == COMMIT || e.operation == CHECKPOINT {
    } else {
    }
  }

  lemma EntryTakes(e: LogEntry, o: Orders, s: Bytes, rest: Bytes)
    requires WritableEntry(e, o) && ReadEntry(s) == Got(Stored(e), rest)
    ensures |s| >= |rest| + |WriteEntry(e, o)|
    ensures |s| == |rest| + |WriteEntry(e, o)| ==> StoresValues(e)
  {
    HeaderExtends(s, []);
    var header := ReadHeader(s);
    BodyKeepsHeader(header.value, header.rest);
    BodyTakes(e, o, header.rest, rest);
    BodyWritten(e, o);
  }

  /** Whatever follows it, an entry is read back if and only if the rows it stores have all their values. */
  lemma WhenEntryIsReadBack(e: LogEntry, o: Orders, rest: Bytes)
    requires WritableEntry(e, o)
    ensures ReadEntry(WriteEntry(e, o) + rest) == Got(Stored(e), rest) <==> StoresValues(e)
  {
    if StoresValues(e) {
      EntryRoundTrip(e, o, rest);
    } else if ReadEntry(WriteEntry(e, o) + rest) == Got(Stored(e), rest) {
      EntryTakes(e, o, WriteEntry(e, o) + rest, rest);
    }
  }

  // ---------- log files ----------

  lemma FirstIsRead(es: seq<Written>, s: Bytes) returns (rest: Bytes)
    requires es != [] && AllStored(es) <= ReadLog(s)
    ensures ReadEntry(s) == Got(Stored(es[0].0), rest) && AllStored(es[1..]) <= ReadLog(rest)
  {
    EntriesAreLocal();
    assert |ReadLog(s)| >= |AllStored(es)| > 0;
    rest := ReadEntry(s).rest;
    assert ReadLog(s) == [ReadEntry(s).value] + ReadLog(rest);
    assert ReadLog(s)[0] == AllStored(es)[0] && ReadLog(s)[1..] == ReadLog(rest);
    assert AllStored(es)[1..] == AllStored(es[1..]);
  }

  lemma BlocksRest(es: seq<Written>)
    requires AllWritable(es) && es != []
    ensures AllWritable(es[1..]) && Blocks(es)[1..] == Blocks(es[1..])
  {
    forall i | 0 <= i < |es| - 1
      ensures Blocks(es)[1..][i] == Blocks(es[1..])[i]
    {
      assert es[1..][i] == es[i + 1];
    }
  }

  lemma BlocksFirst(es: seq<Written>)
    requires AllWritable(es) && es != []
    ensures AllWritable(es[1..]) && Concat(Blocks(es)) == WriteEntry(es[0].0, es[0].1) + Concat(Blocks(es[1..]))
  {
    BlocksRest(es);
  }

  lemma {:induction false} LogTakes(es: seq<Written>, s: Bytes)
    requires AllWritable(es) && AllStored(es) <= ReadLog(s)
    ensures |s| >= |Concat(Blocks(es))|
    ensures |s| == |Concat(Blocks(es))| ==> AllStorable(es)
  {
    if es != [] {
      var rest := FirstIsRead(es, s);
      BlocksFirst(es);
      EntryTakes(es[0].0, es[0].1, s, rest);
      LogTakes(es[1..], rest);
      assert forall i :: 0 < i < |es| ==> es[i] == es[1..][i - 1];
    }
  }

  /** A log file is read back if and only if the rows of all its entries have all their values. */
  lemma WhenLogIsReadBack(es: seq<Written>)
    requires AllWritable(es)
    ensures ReadLog(Concat(Blocks(es))) == AllStored(es) <==> AllStorable(es)
  {
    if AllStorable(es) {
      LogRoundTrip(es);
    } else if ReadLog(Concat(Blocks(es))) == AllStored(es) {
      LogTakes(es, Concat(Blocks(es)));
    }
  }
}
