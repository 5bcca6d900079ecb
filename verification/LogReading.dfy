/** What a stored entry says. */
module LogReading {
  // Recovery finds the row of an entry by its primary key: the column that the catalog names, or else
  // the first of a few common names. Texts and values are opaque to it; here they are numbered.

  import opened Wrappers
  import opened KeyedStore
  import opened RecoveryLog
  import B = Binary
  import Codec = LogCodec
  import TypedBytes

  /** What recovery takes a stored entry for; it looks only at what is stored. */
  type Reading = Codec.LogEntry -> Entry

  ghost predicate LooksAtStored(reading: Reading) {
    forall e :: reading(Codec.Stored(e)) == reading(e)
  }

  // ---------- texts and values ----------

  function Text(s: B.Bytes): (text: string)
    ensures |text| == |s|
  {
    seq(|s|, i requires 0 <= i < |s| => s[i] as char)
  }

  function BytesOf(text: string): (s: B.Bytes)
    ensures |s| == |text|
  {
    seq(|text|, i requires 0 <= i < |text| => text[i] as int % 256)
  }

  lemma TextRoundTrip(s: B.Bytes)
    ensures BytesOf(Text(s)) == s
  {
  }

  /** Every sequence of bytes has its own number. */
  function Number(s: B.Bytes): nat {
    if s == [] then 0 else 1 + s[0] + 256 * Number(s[1..])
  }

  lemma {:induction false} NumbersDiffer(a: B.Bytes, b: B.Bytes)
    ensures Number(a) == Number(b) ==> a == b
  {
    if a != [] && b != [] && Number(a) == Number(b) {
      assert (Number(a) - 1) % 256 == a[0] && (Number(b) - 1) % 256 == b[0];
      NumbersDiffer(a[1..], b[1..]);
      assert a == [a[0]] + a[1..] && b == [b[0]] + b[1..];
    }
  }

  function ValueNumber(v: Codec.AnyValue): int {
    Number(Codec.WriteAny(v))
  }

  lemma ValuesDiffer(v: Codec.AnyValue, u: Codec.AnyValue)
    ensures ValueNumber(v) == ValueNumber(u) ==> v == u
  {
    NumbersDiffer(Codec.WriteAny(v), Codec.WriteAny(u));
    if v != Codec.NoValue {
      Codec.AnyRoundTrip(v, []);
    }
    if u != Codec.NoValue {
      Codec.AnyRoundTrip(u, []);
    }
  }

  // ---------- rows ----------

  type Values = map<TypedBytes.Str, Codec.AnyValue>

  function RowOf(columns: Values): Row {
    map text | text in (set k | k in columns :: Text(k)) && BytesOf(text) in columns :: ValueNumber(columns[BytesOf(text)])
  }

  lemma RowAt(columns: Values, k: TypedBytes.Str)
    ensures k in columns <==> Text(k) in RowOf(columns)
    ensures k in columns ==> RowOf(columns)[Text(k)] == ValueNumber(columns[k])
  {
    TextRoundTrip(k);
  }

  lemma RowsDiffer(a: Values, b: Values)
    ensures RowOf(a) == RowOf(b) ==> a == b
  {
    if RowOf(a) == RowOf(b) {
      forall k: TypedBytes.Str
        ensures (k in a <==> k in b) && (k in a ==> a[k] == b[k])
      {
        RowAt(a, k);
        RowAt(b, k);
        if k in a {
          ValuesDiffer(a[k], b[k]);
        }
      }
    }
  }

  /** The first of these columns that the row has. */
  function FirstOf(names: seq<B.Bytes>, columns: Values): (name: Option<TypedBytes.Str>)
    ensures name.Some? ==> name.value in columns
  {
    if names == [] then None
    else if |names[0]| < B.U32 && names[0] in columns then Some(names[0])
    else FirstOf(names[1..], columns)
  }

  const ID: B.Bytes := [105, 100]
  const UPPER_ID: B.Bytes := [73, 68]
  const MIXED_ID: B.Bytes := [73, 100]
  const STUDENT_ID: B.Bytes := [83, 116, 117, 100, 101, 110, 116, 73, 68]
  const COURSE_ID: B.Bytes := [67, 111, 117, 114, 115, 101, 73, 68]
  const UNDERSCORE: B.Bytes := [95]

  function CommonNames(table: B.Bytes): seq<B.Bytes> {
    [ID, UPPER_ID, MIXED_ID, STUDENT_ID, COURSE_ID, table + UNDERSCORE + ID, table + UPPER_ID]
  }

  /** The primary keys that the catalog names, by table. */
  type PrimaryKeys = map<B.Bytes, TypedBytes.Str>

  function KeyColumn(keys: PrimaryKeys, table: B.Bytes, columns: Values): (name: Option<TypedBytes.Str>)
    ensures name.Some? ==> name.value in columns
  {
    if table !in keys then None
    else if keys[table] != [] && keys[table] in columns then Some(keys[table])
    else FirstOf(CommonNames(table), columns)
  }

  /** The column that the catalog names, or else the first of the common names that the row has. */
  ghost predicate IsKeyColumn(keys: PrimaryKeys, table: B.Bytes, columns: Values, name: TypedBytes.Str) {
    && table in keys && name in columns
    && if keys[table] != [] && keys[table] in columns then name == keys[table]
       else exists i :: 0 <= i < 7 && FirstCommon(Text(table), columns, i, Text(name))
  }

  function CommonTexts(table: string): (names: seq<string>)
    ensures |names| == 7
  {
    ["id", "ID", "Id", "StudentID", "CourseID", table + "_id", table + "ID"]
  }

  ghost predicate FirstCommon(table: string, columns: Values, i: int, text: string)
    requires 0 <= i < 7
  {
    && text == CommonTexts(table)[i]
    && forall j, k :: 0 <= j < i && k in columns ==> Text(k) != CommonTexts(table)[j]
  }

  lemma TextConcat(a: B.Bytes, b: B.Bytes)
    ensures Text(a + b) == Text(a) + Text(b)
  {
  }

  lemma CommonNamesSpelled(table: B.Bytes)
    ensures |CommonNames(table)| == 7
    ensures forall i :: 0 <= i < 7 ==> Text(CommonNames(table)[i]) == CommonTexts(Text(table))[i]
  {
    assert Text(ID) == "id" && Text(UPPER_ID) == "ID" && Text(MIXED_ID) == "Id";
    assert Text(STUDENT_ID) == "StudentID" && Text(COURSE_ID) == "CourseID" && Text(UNDERSCORE) == "_";
    TextConcat(table, UNDERSCORE);
    TextConcat(table + UNDERSCORE, ID);
    TextConcat(table, UPPER_ID);
    assert Text(table) + "_" + "id" == Text(table) + "_id";
  }

  ghost predicate IsFirstThere(names: seq<B.Bytes>, columns: Values, i: int, name: TypedBytes.Str) {
    0 <= i < |names| && names[i] == name && forall j, k :: 0 <= j < i && k in columns ==> k != names[j]
  }

  ghost predicate NoneThere(names: seq<B.Bytes>, columns: Values) {
    forall i, k :: 0 <= i < |names| && k in columns ==> k != names[i]
  }

  lemma {:induction false} FirstIsThere(names: seq<B.Bytes>, columns: Values)
    ensures FirstOf(names, columns).None? ==> NoneThere(names, columns)
    ensures FirstOf(names, columns).Some? ==> exists i :: IsFirstThere(names, columns, i, FirstOf(names, columns).value)
  {
    if names != [] {
      var name := names[0];
      if |name| < B.U32 && name in columns {
        assert IsFirstThere(names, columns, 0, name);
      } else {
        FirstIsThere(names[1..], columns);
        var first := FirstOf(names[1..], columns);
        assert FirstOf(names, columns) == first && forall k :: k in columns ==> k != name;
        assert forall j :: 0 < j < |names| ==> names[j] == names[1..][j - 1];
        if first.Some? {
          var i :| IsFirstThere(names[1..], columns, i, first.value);
          assert IsFirstThere(names, columns, i + 1, first.value);
        }
      }
    }
  }

  lemma SameText(a: B.Bytes, b: B.Bytes)
    ensures Text(a) == Text(b) <==> a == b
  {
    TextRoundTrip(a);
    TextRoundTrip(b);
  }

  lemma CommonIsFirst(table: B.Bytes, columns: Values, name: TypedBytes.Str)
    requires name in columns
    ensures FirstOf(CommonNames(table), columns) == Some(name) <==>
      exists i :: 0 <= i < 7 && FirstCommon(Text(table), columns, i, Text(name))
  {
    var names := CommonNames(table);
    CommonNamesSpelled(table);
    FirstIsThere(names, columns);
    forall i, k | 0 <= i < 7 && k in columns
      ensures k == names[i] <==> Text(k) == CommonTexts(Text(table))[i]
    {
      SameText(k, names[i]);
    }
    SameText(name, name);
    var first := FirstOf(names, columns);
    if i :| 0 <= i < 7 && FirstCommon(Text(table), columns, i, Text(name)) {
      assert name == names[i];
      var j :| IsFirstThere(names, columns, j, first.value);
      assert j == i;
    }
    if first == Some(name) {
      var j :| IsFirstThere(names, columns, j, name);
      assert FirstCommon(Text(table), columns, j, Text(name));
    }
  }

  lemma KeyColumnIs(keys: PrimaryKeys, table: B.Bytes, columns: Values, name: TypedBytes.Str)
    ensures KeyColumn(keys, table, columns) == Some(name) <==> IsKeyColumn(keys, table, columns, name)
  {
    if name in columns {
      CommonIsFirst(table, columns, name);
    }
  }

  // ---------- entries ----------

  function LoggedChange(e: Codec.LogEntry): Change
    requires e.operation.INSERT? || e.operation.DELETE? || e.operation.UPDATE?
  {
    match e.operation
    case INSERT => Insert(RowOf(e.newValue.columns))
    case DELETE => Delete(RowOf(e.oldValue.columns))
    case UPDATE => Update(RowOf(e.oldValue.columns), RowOf(e.newValue.columns))
  }

  /** A change to the row that `row` is a version of. */
  function ChangeOf(keys: PrimaryKeys, e: Codec.LogEntry, row: Codec.Row, change: Change): Entry {
    match KeyColumn(keys, e.tableName, row.columns)
    case None => Other(e.transactionId)
    case Some(name) => Changed(e.transactionId, Key(Text(e.tableName), ValueNumber(row.columns[name])), change)
  }

  function ReadBy(keys: PrimaryKeys, e: Codec.LogEntry): Entry {
    match e.operation
    case BEGIN => Begin(e.transactionId)
    case COMMIT => Commit(e.transactionId)
    case ABORT => Abort(e.transactionId)
    case CHECKPOINT => Checkpoint(Text(e.query))
    case INSERT => ChangeOf(keys, e, e.newValue, LoggedChange(e))
    case DELETE => ChangeOf(keys, e, e.oldValue, LoggedChange(e))
    case UPDATE => ChangeOf(keys, e, e.newValue, LoggedChange(e))
    case _ => Other(e.transactionId)
  }

  function ReadingBy(keys: PrimaryKeys): Reading {
    e => ReadBy(keys, e)
  }

  lemma StoredIsEnough(keys: PrimaryKeys)
    ensures LooksAtStored(ReadingBy(keys))
  {
    forall e
      ensures ReadBy(keys, Codec.Stored(e)) == ReadBy(keys, e)
    {
      StoredIsEnoughFor(keys, e);
    }
  }

  lemma StoredIsEnoughFor(keys: PrimaryKeys, e: Codec.LogEntry)
    ensures ReadBy(keys, Codec.Stored(e)) == ReadBy(keys, e)
  {
    match e.operation
    case INSERT =>
    case DELETE =>
    case UPDATE =>
    case _ =>
  }

  lemma ChangeIs(keys: PrimaryKeys, e: Codec.LogEntry)
    requires ReadBy(keys, e).Changed?
    ensures e.operation.INSERT? || e.operation.DELETE? || e.operation.UPDATE?
    ensures var c := ReadBy(keys, e);
      c.t == e.transactionId && c.key.table == Text(e.tableName) && c.change == LoggedChange(e)
  {
  }

  /** Nothing of a change is lost: who did what in which table, with which values. */
  lemma ChangesDiffer(keys: PrimaryKeys, a: Codec.LogEntry, b: Codec.LogEntry)
    requires ReadBy(keys, a).Changed? && ReadBy(keys, a) == ReadBy(keys, b)
    ensures a.transactionId == b.transactionId && a.operation == b.operation && a.tableName == b.tableName
    ensures !a.operation.DELETE? ==> a.newValue.columns == b.newValue.columns
    ensures !a.operation.INSERT? ==> a.oldValue.columns == b.oldValue.columns
  {
    ChangeIs(keys, a);
    ChangeIs(keys, b);
    TextRoundTrip(a.tableName);
    TextRoundTrip(b.tableName);
    RowsDiffer(a.newValue.columns, b.newValue.columns);
    RowsDiffer(a.oldValue.columns, b.oldValue.columns);
  }

  /** The row that a change is about: the new one, or the old one if there is no new one. */
  function ChangedRow(e: Codec.LogEntry): Codec.Row {
    if e.operation.DELETE? then e.oldValue else e.newValue
  }

  /** With a key column an insert, update or delete is read as one, of the row with that key. */
  lemma ChangeIsRead(keys: PrimaryKeys, e: Codec.LogEntry, name: TypedBytes.Str)
    requires e.operation.INSERT? || e.operation.DELETE? || e.operation.UPDATE?
    requires IsKeyColumn(keys, e.tableName, ChangedRow(e).columns, name)
    ensures var c, before, after := ReadBy(keys, e), RowOf(e.oldValue.columns), RowOf(e.newValue.columns);
      && c.Changed? && c.t == e.transactionId
      && c.key == Key(Text(e.tableName), ValueNumber(ChangedRow(e).columns[name]))
      && c.change == (if e.operation.INSERT? then Insert(after) else if e.operation.DELETE? then Delete(before) else Update(before, after))
  {
    KeyColumnIs(keys, e.tableName, ChangedRow(e).columns, name);
  }
}
