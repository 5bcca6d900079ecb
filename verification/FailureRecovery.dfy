/** The failure recovery manager. */
module FailureRecovery {
  // The log buffer and file, the cache of active transactions, commit, abort, checkpoints and
  // recovery from a crash. A log entry and the effect of its operation on the row are one step.
  // Whatever the caller does, the manager's state is that of a run of the steps in RecoveryRuns; when
  // the caller's transactions are strict, it is that of a possible run.

  import opened Wrappers
  import opened KeyedStore
  import opened CheckpointList
  import opened RecoveryLog
  import opened CrashRecovery
  import opened Operations
  import opened RecoveryRuns
  import opened RecoverySteps

  const MAX_BUFFER_SIZE: nat := 50

  // ---------- log entries ----------

  datatype KeyedRow = KeyedRow(key: Key, columns: Row)

  datatype LogEntry = LogEntry(
    logId: int, transactionId: Tid, operation: Operation, oldValue: Option<KeyedRow>, newValue: Option<KeyedRow>, query: string)

  datatype ExecutionResult = ExecutionResult(success: bool, transactionId: Tid, query: string, rows: seq<KeyedRow>)

  /** The characters up to the first blank. */
  function UpToBlank(s: string): string {
    if s == "" || IsSpace(s[0]) then "" else [s[0]] + UpToBlank(s[1..])
  }

  function ToUpper(s: string): string {
    if s == "" then ""
    else [if 'a' <= s[0] <= 'z' then (s[0] as int - 32) as char else s[0]] + ToUpper(s[1..])
  }

  /** The operation named by the first word; anything unknown is a BEGIN, a SELECT is a COMMIT. */
  function OperationNamed(query: string): Operation {
    match ToUpper(UpToBlank(SkipSpaces(query)))
    case "COMMIT" => COMMIT
    case "ROLLBACK" => ABORT
    case "ABORT" => ABORT
    case "INSERT" => INSERT
    case "UPDATE" => UPDATE
    case "DELETE" => DELETE
    case "SELECT" => COMMIT
    case "CREATE" => CREATE_TABLE
    case "DROP" => DROP_TABLE
    case _ => BEGIN
  }

  function Meaning(e: LogEntry): Entry {
    match e.operation
    case BEGIN => Begin(e.transactionId)
    case COMMIT => Commit(e.transactionId)
    case ABORT => Abort(e.transactionId)
    case CHECKPOINT => Checkpoint(e.query)
    case INSERT =>
      if e.newValue.Some? then Changed(e.transactionId, e.newValue.value.key, Insert(e.newValue.value.columns))
      else Other(e.transactionId)
    case DELETE =>
      if e.oldValue.Some? then Changed(e.transactionId, e.oldValue.value.key, Delete(e.oldValue.value.columns))
      else Other(e.transactionId)
    case UPDATE =>
      if e.oldValue.Some? && e.newValue.Some? then
        Changed(e.transactionId, e.newValue.value.key, Update(e.oldValue.value.columns, e.newValue.value.columns))
      else Other(e.transactionId)
    case _ => Other(e.transactionId)
  }

  function Meanings(entries: seq<LogEntry>): (log: Log)
    ensures |log| == |entries|
  {
    seq(|entries|, i requires 0 <= i < |entries| => Meaning(entries[i]))
  }

  lemma MeaningsConcat(a: seq<LogEntry>, b: seq<LogEntry>)
    ensures Meanings(a + b) == Meanings(a) + Meanings(b)
  {
  }

  predicate IsDataOperation(op: Operation) {
    op == INSERT || op == UPDATE || op == DELETE
  }

  /** The entry logged for a result; an update without both of its rows is dropped. */
  function EntryFor(info: ExecutionResult, logId: int): Option<LogEntry> {
    var op := OperationNamed(info.query);
    var first := if info.rows != [] then Some(info.rows[0]) else None;
    match op
    case INSERT => Some(LogEntry(logId, info.transactionId, op, None, first, info.query))
    case DELETE => Some(LogEntry(logId, info.transactionId, op, first, None, info.query))
    case UPDATE =>
      if |info.rows| >= 2 then
        Some(LogEntry(logId, info.transactionId, op, first, Some(info.rows[1]), info.query))
      else None
    case _ => Some(LogEntry(logId, info.transactionId, op, None, None, info.query))
  }

  function Ending(logId: int, t: Tid, op: Operation, query: string): LogEntry {
    LogEntry(logId, t, op, None, None, query)
  }

  function ApplyIf(store: Store, e: Entry): Store {
    if e.Changed? then RedoEntry(store, e) else store
  }

  // ---------- the manager's state as a value ----------

  datatype State = State(file: seq<LogEntry>, buffer: seq<LogEntry>, active: set<Tid>, store: Store, disk: Store)

  function Running(s: State): System {
    System(s.store, s.disk, Meanings(s.file), Meanings(s.buffer), None)
  }

  /** It is the state of a run whose checkpoints are completed, and `active` has what is begun and not
      finished. */
  ghost predicate IsStateOf(s: State, init: Store, actions: seq<Action>) {
    && Completed(actions)
    && Perform(init, actions) == Running(s)
    && s.active == Unfinished(Meanings(s.file) + Meanings(s.buffer))
  }

  function Recorded(s: State, e: LogEntry): State {
    s.(buffer := s.buffer + [e], active := Advance(s.active, Meaning(e)), store := ApplyIf(s.store, Meaning(e)))
  }

  function Written(s: State): State {
    s.(file := s.file + s.buffer, buffer := [])
  }

  /** The run goes on with steps that are possible under `ok`. */
  ghost predicate Extends(init: Store, before: seq<Action>, after: seq<Action>, ok: bool, columns: Columns) {
    Possible(init, before, columns) && ok ==> Possible(init, after, columns)
  }

  lemma RecordSteps(s: State, e: LogEntry, init: Store, actions: seq<Action>, columns: Columns) returns (actions': seq<Action>)
    requires IsStateOf(s, init, actions)
    ensures IsStateOf(Recorded(s, e), init, actions')
    ensures Extends(init, actions, actions', Enabled(init, Running(s), Append(Meaning(e)), columns), columns)
  {
    Performed(init, actions, Running(s), Append(Meaning(e)), columns);
    actions' := actions + [Append(Meaning(e))];
    CompletedSnoc(actions, Append(Meaning(e)));
    RecordMeans(s.file, s.buffer, e);
  }

  /** The log once e is in the buffer. */
  lemma RecordMeans(file: seq<LogEntry>, buffer: seq<LogEntry>, e: LogEntry)
    ensures Meanings(buffer + [e]) == Meanings(buffer) + [Meaning(e)]
    ensures Unfinished(Meanings(file) + Meanings(buffer + [e])) == Advance(Unfinished(Meanings(file) + Meanings(buffer)), Meaning(e))
  {
    MeaningsConcat(buffer, [e]);
    assert Meanings([e]) == [Meaning(e)];
    LogSnoc(Meanings(file) + Meanings(buffer), Meaning(e));
    assert Meanings(file) + Meanings(buffer + [e]) == (Meanings(file) + Meanings(buffer)) + [Meaning(e)];
  }

  lemma WriteSteps(s: State, init: Store, actions: seq<Action>, columns: Columns) returns (actions': seq<Action>)
    requires IsStateOf(s, init, actions)
    ensures IsStateOf(Written(s), init, actions')
    ensures Extends(init, actions, actions', true, columns)
  {
    FlushAll(init, actions, Running(s), columns);
    actions' := actions + Flushes(|Running(s).buffer|);
    FlushesKeepCompleted(actions, |Running(s).buffer|);
    MeaningsConcat(s.file, s.buffer);
    assert Meanings([]) == [];
    assert Meanings(s.file + s.buffer) + [] == Meanings(s.file) + Meanings(s.buffer);
  }

  lemma PagesSteps(s: State, init: Store, actions: seq<Action>, columns: Columns) returns (actions': seq<Action>)
    requires IsStateOf(s, init, actions) && s.buffer == []
    ensures IsStateOf(s.(disk := s.store), init, actions')
    ensures Extends(init, actions, actions', true, columns)
  {
    Performed(init, actions, Running(s), FlushData, columns);
    actions' := actions + [FlushData];
    CompletedSnoc(actions, FlushData);
  }

  /** The entry in the file, then the pages on disk. */
  function CommittedNow(s: State, t: Tid, e: LogEntry): State {
    State(s.file + s.buffer + [e], [], s.active - {t}, s.store, s.store)
  }

  lemma CommitWrites(s: State, t: Tid, e: LogEntry, init: Store, actions: seq<Action>, columns: Columns)
    requires IsStateOf(s, init, actions) && Meaning(e) == Commit(t)
    ensures Written(Recorded(s, e)).(disk := s.store) == CommittedNow(s, t, e)
    ensures t in s.active ==> Enabled(init, Running(s), Append(Meaning(e)), columns)
  {
    assert s.file + (s.buffer + [e]) == s.file + s.buffer + [e];
  }

  /** The log file once the buffer and e are in it. */
  lemma EndingMeans(s: State, e: LogEntry)
    ensures Meanings(s.file + s.buffer + [e]) == Meanings(s.file) + Meanings(s.buffer) + [Meaning(e)] && Meanings([]) == []
    ensures Unfinished(Meanings(s.file + s.buffer + [e]) + Meanings([])) ==
      Advance(Unfinished(Meanings(s.file) + Meanings(s.buffer)), Meaning(e))
  {
    var log := Meanings(s.file) + Meanings(s.buffer);
    MeaningsConcat(s.file, s.buffer);
    MeaningsConcat(s.file + s.buffer, [e]);
    assert Meanings([e]) == [Meaning(e)] && Meanings([]) == [];
    assert log + [Meaning(e)] + [] == log + [Meaning(e)];
    LogSnoc(log, Meaning(e));
  }

  // ---------- what a result is logged as ----------

  /** The first word, in capitals, is what stands between the leading blanks and the next blank. */
  ghost predicate HasFirstWord(query: string, word: string) {
    exists i, j :: 0 <= i <= j <= |query| && IsFirstWord(query, i, j, word)
  }

  predicate IsFirstWord(query: string, i: nat, j: nat, word: string)
    requires i <= j <= |query|
  {
    && (forall k :: 0 <= k < i ==> IsSpace(query[k]))
    && (forall k :: i <= k < j ==> !IsSpace(query[k]))
    && (j < |query| ==> IsSpace(query[j]))
    && (i == j ==> j == |query|)
    && |word| == j - i
    && forall k :: 0 <= k < j - i ==>
         word[k] == if 'a' <= query[i + k] <= 'z' then query[i + k] - 'a' + 'A' else query[i + k]
  }

  lemma {:induction false} SkippedSpaces(query: string, i: nat)
    requires i <= |query| && (forall k :: 0 <= k < i ==> IsSpace(query[k])) && (i < |query| ==> !IsSpace(query[i]))
    ensures SkipSpaces(query) == query[i..]
  {
    if i > 0 {
      SkippedSpaces(query[1..], i - 1);
    }
  }

  lemma {:induction false} UpToNextBlank(s: string, n: nat)
    requires n <= |s| && (forall k :: 0 <= k < n ==> !IsSpace(s[k])) && (n < |s| ==> IsSpace(s[n]))
    ensures UpToBlank(s) == s[..n]
  {
    if n > 0 {
      UpToNextBlank(s[1..], n - 1);
      assert s[..n] == [s[0]] + s[1..][..n - 1];
    }
  }

  lemma {:induction false} InCapitals(s: string, word: string)
    requires |word| == |s| && forall k :: 0 <= k < |s| ==> word[k] == if 'a' <= s[k] <= 'z' then s[k] - 'a' + 'A' else s[k]
    ensures ToUpper(s) == word
  {
    if s != "" {
      InCapitals(s[1..], word[1..]);
      assert word == [word[0]] + word[1..];
    }
  }

  lemma FirstWord(query: string, word: string)
    requires HasFirstWord(query, word)
    ensures word == ToUpper(UpToBlank(SkipSpaces(query)))
  {
    var i, j :| 0 <= i <= j <= |query| && IsFirstWord(query, i, j, word);
    SkippedSpaces(query, i);
    UpToNextBlank(query[i..], j - i);
    assert query[i..][..j - i] == query[i..j];
    InCapitals(query[i..j], word);
  }

  /** What a first word asks for; an unknown one is a BEGIN. */
  predicate Names(word: string, op: Operation) {
    match op
    case INSERT => word == "INSERT"
    case UPDATE => word == "UPDATE"
    case DELETE => word == "DELETE"
    case COMMIT => word == "COMMIT" || word == "SELECT"
    case ABORT => word == "ROLLBACK" || word == "ABORT"
    case CREATE_TABLE => word == "CREATE"
    case DROP_TABLE => word == "DROP"
    case BEGIN => word !in ["INSERT", "UPDATE", "DELETE", "COMMIT", "SELECT", "ROLLBACK", "ABORT", "CREATE", "DROP"]
    case _ => false
  }

  ghost predicate AsksFor(query: string, op: Operation) {
    exists word :: HasFirstWord(query, word) && Names(word, op)
  }

  lemma NamedOperation(word: string, query: string, op: Operation)
    requires word == ToUpper(UpToBlank(SkipSpaces(query))) && Names(word, op)
    ensures OperationNamed(query) == op
  {
  }

  lemma AskedFor(query: string, op: Operation)
    requires AsksFor(query, op)
    ensures OperationNamed(query) == op
  {
    var word :| HasFirstWord(query, word) && Names(word, op);
    FirstWord(query, word);
    NamedOperation(word, query, op);
  }

  lemma {:induction false} SpacesSkipped(query: string) returns (i: nat)
    ensures i <= |query| && SkipSpaces(query) == query[i..]
    ensures (forall k :: 0 <= k < i ==> IsSpace(query[k])) && (i < |query| ==> !IsSpace(query[i]))
  {
    if query != "" && IsSpace(query[0]) {
      var n := SpacesSkipped(query[1..]);
      i := n + 1;
    } else {
      i := 0;
    }
  }

  lemma {:induction false} WordEnds(s: string)
    ensures var n := |UpToBlank(s)|;
      && n <= |s| && UpToBlank(s) == s[..n]
      && (forall k :: 0 <= k < n ==> !IsSpace(s[k])) && (n < |s| ==> IsSpace(s[n]))
  {
    if s != "" && !IsSpace(s[0]) {
      WordEnds(s[1..]);
      assert UpToBlank(s) == [s[0]] + UpToBlank(s[1..]);
    }
  }

  lemma {:induction false} Capitals(s: string)
    ensures |ToUpper(s)| == |s|
    ensures forall k :: 0 <= k < |s| ==> ToUpper(s)[k] == if 'a' <= s[k] <= 'z' then s[k] - 'a' + 'A' else s[k]
  {
    if s != "" {
      Capitals(s[1..]);
    }
  }

  /** Every query asks for something, and for one thing only. */
  lemma EveryQueryAsks(query: string)
    ensures exists op :: AsksFor(query, op) && forall other :: AsksFor(query, other) ==> other == op
  {
    var i := SpacesSkipped(query);
    var rest := query[i..];
    WordEnds(rest);
    var n := |UpToBlank(rest)|;
    Capitals(rest[..n]);
    var word := ToUpper(rest[..n]);
    assert IsFirstWord(query, i, i + n, word);
    WordIsAsked(query, word);
    forall other | AsksFor(query, other)
      ensures other == OperationNamed(query)
    {
      AskedFor(query, other);
    }
  }

  lemma WordIsAsked(query: string, word: string)
    requires HasFirstWord(query, word)
    ensures AsksFor(query, OperationNamed(query))
  {
    FirstWord(query, word);
    assert Names(word, OperationNamed(query));
  }

  /** What a successful result adds to the log. */
  ghost predicate LogsAs(op: Operation, info: ExecutionResult, log: Log, log': Log) {
    var t, rows := info.transactionId, info.rows;
    match op
    case INSERT => log' == log + [if rows != [] then Changed(t, rows[0].key, Insert(rows[0].columns)) else Other(t)]
    case DELETE => log' == log + [if rows != [] then Changed(t, rows[0].key, Delete(rows[0].columns)) else Other(t)]
    case UPDATE =>
      log' == if |rows| >= 2 then log + [Changed(t, rows[1].key, Update(rows[0].columns, rows[1].columns))] else log
    case COMMIT => log' == log + [Commit(t)]
    case ABORT => log' == log + [Abort(t)]
    case BEGIN => log' == log + [Begin(t)]
    case _ => log' == log + [Other(t)]
  }

  lemma EntryLogs(op: Operation, info: ExecutionResult, logId: int, log: Log)
    requires AsksFor(info.query, op)
    ensures var entry := EntryFor(info, logId);
      LogsAs(op, info, log, if entry.None? then log else log + [Meaning(entry.value)])
  {
    AskedFor(info.query, op);
  }

  /** The result is of what a strict transaction may do: begin once, end while active, abort through here
      only without changes, and change a key that no other active one has changed, as the store has it. */
  ghost predicate Ran(op: Operation, info: ExecutionResult, s: State, columns: Columns) {
    var t, log := info.transactionId, Meanings(s.file) + Meanings(s.buffer);
    match op
    case BEGIN => IsInt(t) && forall i :: 0 <= i < |log| ==> log[i] != Begin(t)
    case COMMIT => t in s.active
    case ABORT => t in s.active && NeverChanged(log, t)
    case CREATE_TABLE => true
    case DROP_TABLE => true
    case _ => t in s.active && info.rows != [] && NobodyElseChanged(log, s.active, t, info.rows[0].key) && RanOnRow(op, info, s, columns)
  }

  ghost predicate RanOnRow(op: Operation, info: ExecutionResult, s: State, columns: Columns)
    requires info.rows != []
  {
    var k, row, table := info.rows[0].key, info.rows[0].columns, columns(info.rows[0].key.table);
    match op
    case INSERT => k !in s.store && row.Keys == table
    case DELETE => k in s.store && s.store[k] == row
    case UPDATE =>
      |info.rows| >= 2 && info.rows[1].key == k && info.rows[1].columns.Keys == table && k in s.store && s.store[k] == row
    case _ => false
  }

  ghost predicate NobodyElseChanged(log: Log, active: set<Tid>, t: Tid, k: Key) {
    forall i :: 0 <= i < |log| && log[i].Changed? && log[i].key == k && log[i].t in active ==> log[i].t == t
  }

  /** The store with the change. */
  ghost predicate HasResult(op: Operation, info: ExecutionResult, store: Store, store': Store) {
    match op
    case INSERT => info.rows != [] && store' == store[info.rows[0].key := info.rows[0].columns]
    case DELETE => info.rows != [] && store' == store - {info.rows[0].key}
    case UPDATE => |info.rows| >= 2 && store' == store[info.rows[0].key := info.rows[1].columns]
    case _ => store' == store
  }

  lemma {:induction false} NoneByOthers(log: Log, active: set<Tid>, t: Tid, k: Key, u: Tid)
    requires NobodyElseChanged(log, active, t, k) && u in active && u != t
    ensures On(log, k, {u}) == []
  {
    if log != [] {
      var front := log[..|log| - 1];
      assert forall i :: 0 <= i < |front| ==> front[i] == log[i];
      NoneByOthers(front, active, t, k, u);
    }
  }

  lemma LiveNow(s: State, init: Store, actions: seq<Action>, columns: Columns)
    requires IsStateOf(s, init, actions) && Possible(init, actions, columns) && HasTables(init, columns)
    ensures var log := Meanings(s.file) + Meanings(s.buffer);
      s.store == Live(init, log) && forall k :: HasColumns(Lookup(s.store, k), columns(k.table))
  {
    var log := Meanings(s.file) + Meanings(s.buffer);
    RunsAreSound(init, actions, columns);
    assert FullLog(Running(s)) == log;
    forall k
      ensures HasColumns(Lookup(Live(init, log), k), columns(k.table))
    {
      RunSettles(init, log, k, columns);
      ChainHasColumns(Lookup(init, k), On(log, k, Committed(log)) + On(log, k, Unfinished(log)), columns(k.table));
    }
  }

  /** The entry is of the change that was made. */
  ghost predicate IsChange(op: Operation, info: ExecutionResult, s: State, e: Entry, columns: Columns) {
    && info.rows != [] && e.Changed? && e.t == info.transactionId && e.key == info.rows[0].key
    && Fits(Lookup(s.store, e.key), e.change, columns(e.key.table))
    && HasResult(op, info, s.store, ApplyIf(s.store, e))
  }

  lemma RanFits(op: Operation, info: ExecutionResult, logId: int, s: State, columns: Columns)
    requires AsksFor(info.query, op) && info.rows != [] && RanOnRow(op, info, s, columns)
    requires HasColumns(Lookup(s.store, info.rows[0].key), columns(info.rows[0].key.table))
    ensures EntryFor(info, logId).Some? && IsChange(op, info, s, Meaning(EntryFor(info, logId).value), columns)
  {
    AskedFor(info.query, op);
    var k := info.rows[0].key;
    assert op == UPDATE ==> info.rows[0].columns + info.rows[1].columns == info.rows[1].columns;
  }

  predicate ChangesRow(op: Operation) {
    op == INSERT || op == DELETE || op == UPDATE
  }

  lemma RowIsEnabled(op: Operation, info: ExecutionResult, logId: int, s: State, init: Store, actions: seq<Action>, columns: Columns)
    requires IsStateOf(s, init, actions) && Possible(init, actions, columns) && HasTables(init, columns)
    requires AsksFor(info.query, op) && Ran(op, info, s, columns) && ChangesRow(op)
    ensures var entry := EntryFor(info, logId);
      && entry.Some? && Enabled(init, Running(s), Append(Meaning(entry.value)), columns)
      && HasResult(op, info, s.store, ApplyIf(s.store, Meaning(entry.value)))
  {
    var log, k := Meanings(s.file) + Meanings(s.buffer), info.rows[0].key;
    LiveNow(s, init, actions, columns);
    RanFits(op, info, logId, s, columns);
    assert FullLog(Running(s)) == log;
    forall u | u in Unfinished(log) && u != info.transactionId
      ensures On(log, k, {u}) == []
    {
      NoneByOthers(log, s.active, info.transactionId, k, u);
    }
  }

  lemma {:induction false} NotBegun(log: Log, t: Tid)
    requires forall i :: 0 <= i < |log| ==> log[i] != Begin(t)
    ensures t !in Begun(log)
  {
    if log != [] {
      NotBegun(log[..|log| - 1], t);
    }
  }

  lemma ControlIsEnabled(op: Operation, info: ExecutionResult, logId: int, s: State, init: Store, actions: seq<Action>, columns: Columns)
    requires IsStateOf(s, init, actions)
    requires AsksFor(info.query, op) && Ran(op, info, s, columns) && !ChangesRow(op)
    ensures var entry := EntryFor(info, logId);
      && entry.Some? && Enabled(init, Running(s), Append(Meaning(entry.value)), columns)
      && HasResult(op, info, s.store, ApplyIf(s.store, Meaning(entry.value)))
  {
    var log := Meanings(s.file) + Meanings(s.buffer);
    AskedFor(info.query, op);
    assert FullLog(Running(s)) == log;
    if op == BEGIN {
      NotBegun(log, info.transactionId);
    } else if op == COMMIT {
    } else if op == ABORT {
    } else {
      assert op == CREATE_TABLE || op == DROP_TABLE;
    }
  }

  /** What ran may be logged, and has the effect that it had. */
  lemma RanIsEnabled(op: Operation, info: ExecutionResult, logId: int, s: State, init: Store, actions: seq<Action>, columns: Columns)
    requires IsStateOf(s, init, actions) && Possible(init, actions, columns) && HasTables(init, columns)
    requires AsksFor(info.query, op) && Ran(op, info, s, columns)
    ensures var entry := EntryFor(info, logId);
      && entry.Some? && Enabled(init, Running(s), Append(Meaning(entry.value)), columns)
      && HasResult(op, info, s.store, ApplyIf(s.store, Meaning(entry.value)))
  {
    if ChangesRow(op) {
      RowIsEnabled(op, info, logId, s, init, actions, columns);
    } else {
      ControlIsEnabled(op, info, logId, s, init, actions, columns);
    }
  }

  /** A result is logged as what its first word asks for. */
  ghost predicate LogsResult(info: ExecutionResult, log: Log, log': Log) {
    forall op :: AsksFor(info.query, op) ==> LogsAs(op, info, log, log')
  }

  /** What a strict transaction did in s is in the store, and the run is still one of strict transactions. */
  ghost predicate KeepsResult(info: ExecutionResult, s: State, store: Store, strict: bool, columns: Columns) {
    forall op :: AsksFor(info.query, op) && Ran(op, info, s, columns) ==> strict && HasResult(op, info, s.store, store)
  }

  /** The entry for a result, if there is one, is in the buffer or with all of it in the file. */
  ghost predicate EntryWritten(info: ExecutionResult, logId: int, s: State, s': State, init: Store, actions: seq<Action>, actions': seq<Action>, columns: Columns) {
    match EntryFor(info, logId)
    case None => s' == s && actions' == actions
    case Some(e) =>
      && s' == (if |s.buffer| + 1 < MAX_BUFFER_SIZE then Recorded(s, e) else Written(Recorded(s, e)))
      && Extends(init, actions, actions', Enabled(init, Running(s), Append(Meaning(e)), columns), columns)
  }

  lemma RecordedLog(file: seq<LogEntry>, buffer: seq<LogEntry>, e: LogEntry)
    ensures Meanings(file) + Meanings(buffer + [e]) == Meanings(file) + Meanings(buffer) + [Meaning(e)]
    ensures Meanings(file + (buffer + [e])) + Meanings([]) == Meanings(file) + Meanings(buffer) + [Meaning(e)]
  {
    RecordMeans(file, buffer, e);
    MeaningsConcat(file, buffer + [e]);
  }

  lemma ResultIsLogged(info: ExecutionResult, logId: int, s: State, s': State, init: Store, actions: seq<Action>, actions': seq<Action>, columns: Columns)
    requires EntryWritten(info, logId, s, s', init, actions, actions', columns)
    ensures LogsResult(info, Meanings(s.file) + Meanings(s.buffer), Meanings(s'.file) + Meanings(s'.buffer))
  {
    var entry, log := EntryFor(info, logId), Meanings(s.file) + Meanings(s.buffer);
    if entry.Some? {
      RecordedLog(s.file, s.buffer, entry.value);
    }
    forall op | AsksFor(info.query, op)
      ensures LogsAs(op, info, log, Meanings(s'.file) + Meanings(s'.buffer))
    {
      EntryLogs(op, info, logId, log);
    }
  }

  lemma ResultIsKept(info: ExecutionResult, logId: int, s: State, s': State, init: Store, actions: seq<Action>, actions': seq<Action>, columns: Columns)
    requires IsStateOf(s, init, actions) && Possible(init, actions, columns) && HasTables(init, columns)
    requires EntryWritten(info, logId, s, s', init, actions, actions', columns)
    ensures KeepsResult(info, s, s'.store, Possible(init, actions', columns), columns)
  {
    forall op | AsksFor(info.query, op) && Ran(op, info, s, columns)
      ensures Possible(init, actions', columns) && HasResult(op, info, s.store, s'.store)
    {
      RanIsEnabled(op, info, logId, s, init, actions, columns);
    }
  }

  /** From s to s' the result has been logged, and kept if the run was one of strict transactions. */
  ghost predicate Logged(info: ExecutionResult, s: State, s': State, init: Store, actions: seq<Action>, actions': seq<Action>, columns: Columns) {
    && LogsResult(info, Meanings(s.file) + Meanings(s.buffer), Meanings(s'.file) + Meanings(s'.buffer))
    && (Possible(init, actions, columns) && HasTables(init, columns) ==>
          KeepsResult(info, s, s'.store, Possible(init, actions', columns), columns))
  }

  lemma ResultIsWritten(info: ExecutionResult, logId: int, s: State, s': State, init: Store, actions: seq<Action>, actions': seq<Action>, columns: Columns)
    requires IsStateOf(s, init, actions) && EntryWritten(info, logId, s, s', init, actions, actions', columns)
    ensures Logged(info, s, s', init, actions, actions', columns)
  {
    ResultIsLogged(info, logId, s, s', init, actions, actions', columns);
    if Possible(init, actions, columns) && HasTables(init, columns) {
      ResultIsKept(info, logId, s, s', init, actions, actions', columns);
    }
  }

  lemma EndedLog(s: State, e: LogEntry)
    ensures Meanings(s.file + s.buffer + [e]) + Meanings([]) == Meanings(s.file) + Meanings(s.buffer) + [Meaning(e)]
  {
    EndingMeans(s, e);
    assert Meanings(s.file + s.buffer + [e]) + [] == Meanings(s.file + s.buffer + [e]);
  }

  lemma CheckpointedLog(s: State, start: LogEntry, end: LogEntry)
    ensures Meanings(s.file + s.buffer + [start] + [end]) + Meanings([]) ==
      Meanings(s.file) + Meanings(s.buffer) + [Meaning(start), Meaning(end)]
  {
    EndingMeans(s, start);
    MeaningsConcat(s.file + s.buffer + [start], [end]);
    assert Meanings([end]) == [Meaning(end)] && Meanings([]) == [];
  }

  predicate ChangesNothing(entries: seq<LogEntry>, t: Tid) {
    forall i :: 0 <= i < |entries| ==> !(entries[i].transactionId == t && IsDataOperation(entries[i].operation))
  }

  lemma ChangesNothingConcat(a: seq<LogEntry>, b: seq<LogEntry>, t: Tid)
    ensures ChangesNothing(a + b, t) <==> ChangesNothing(a, t) && ChangesNothing(b, t)
  {
    if ChangesNothing(a + b, t) {
      assert forall i :: 0 <= i < |a| ==> a[i] == (a + b)[i];
      assert forall i :: 0 <= i < |b| ==> b[i] == (a + b)[|a| + i];
    }
  }

  lemma ChangedNothing(entries: seq<LogEntry>, t: Tid)
    requires ChangesNothing(entries, t)
    ensures NeverChanged(Meanings(entries), t)
  {
  }

  function Aborted(s: State, t: Tid, e: LogEntry): State {
    var store := UndoTxn(s.store, Meanings(s.file + s.buffer), t);
    State(s.file + s.buffer + [e], [], s.active - {t}, store, store)
  }

  lemma AbortedSteps(s: State, t: Tid, e: LogEntry, init: Store, actions: seq<Action>, columns: Columns)
    returns (actions': seq<Action>)
    requires IsStateOf(s, init, actions) && Meaning(e) == Abort(t)
    ensures IsStateOf(Aborted(s, t, e), init, actions')
    ensures Extends(init, actions, actions', t in s.active, columns)
  {
    var log := Meanings(s.file) + Meanings(s.buffer);
    AbortSteps(init, actions, Running(s), t, columns);
    actions' := actions + AbortActions(|s.buffer|, |log|, t);
    AbortKeepsCompleted(actions, |s.buffer|, |log|, t);
    MeaningsConcat(s.file, s.buffer);
    EndingMeans(s, e);
  }

  function QuietlyAborted(s: State, t: Tid, e: LogEntry): State {
    s.(file := s.file + s.buffer + [e], buffer := [], active := s.active - {t})
  }

  lemma QuietAbortCompletes(actions: seq<Action>, t: Tid, n: nat)
    requires Completed(actions)
    ensures Completed(actions + ([Append(Abort(t))] + Flushes(n)))
  {
    CompletedSnoc(actions, Append(Abort(t)));
    FlushesKeepCompleted(actions + [Append(Abort(t))], n);
    assert actions + ([Append(Abort(t))] + Flushes(n)) == actions + [Append(Abort(t))] + Flushes(n);
  }

  lemma QuietSteps(s: State, t: Tid, e: LogEntry, init: Store, actions: seq<Action>, columns: Columns)
    returns (actions': seq<Action>)
    requires IsStateOf(s, init, actions) && Meaning(e) == Abort(t) && ChangesNothing(s.file + s.buffer, t)
    ensures IsStateOf(QuietlyAborted(s, t, e), init, actions')
    ensures Extends(init, actions, actions', t in s.active, columns)
    ensures UndoTxn(s.store, Meanings(s.file + s.buffer), t) == s.store
  {
    var log := Meanings(s.file) + Meanings(s.buffer);
    MeaningsConcat(s.file, s.buffer);
    ChangedNothing(s.file + s.buffer, t);
    NothingToUndo(s.store, log, t);
    QuietAbortSteps(init, actions, Running(s), t, columns);
    actions' := actions + ([Append(Abort(t))] + Flushes(|s.buffer| + 1));
    QuietAbortCompletes(actions, t, |s.buffer| + 1);
    EndingMeans(s, e);
  }

  function Checkpointed(s: State, start: LogEntry, end: LogEntry): State {
    s.(file := s.file + s.buffer + [start] + [end], buffer := [], disk := s.store)
  }

  lemma CheckpointedSteps(s: State, start: LogEntry, end: LogEntry, init: Store, actions: seq<Action>, columns: Columns)
    returns (actions': seq<Action>)
    requires IsStateOf(s, init, actions)
    requires Meaning(start) == Checkpoint(START_QUERY) && Meaning(end) == Checkpoint(EndQuery(s.active))
    ensures IsStateOf(Checkpointed(s, start, end), init, actions')
    ensures Extends(init, actions, actions', true, columns)
  {
    CheckpointSteps(init, actions, Running(s), columns);
    actions' := actions + CheckpointActions(|s.buffer|);
    CheckpointIsCompleted(actions, |s.buffer|);
    CheckpointMeans(s, start, end);
  }

  lemma CheckpointMeans(s: State, start: LogEntry, end: LogEntry)
    requires Meaning(start) == Checkpoint(START_QUERY) && Meaning(end) == Checkpoint(EndQuery(s.active))
    requires s.active == Unfinished(Meanings(s.file) + Meanings(s.buffer))
    ensures Running(Checkpointed(s, start, end)) == AfterCheckpoint(Running(s))
    ensures Unfinished(Meanings(Checkpointed(s, start, end).file) + Meanings([])) == s.active
  {
    var log := Meanings(s.file) + Meanings(s.buffer);
    MeaningsConcat(s.file, s.buffer);
    MeaningsConcat(s.file + s.buffer, [start]);
    MeaningsConcat(s.file + s.buffer + [start], [end]);
    assert Meanings([start]) == [Meaning(start)] && Meanings([end]) == [Meaning(end)] && Meanings([]) == [];
    var log' := log + [Meaning(start)] + [Meaning(end)];
    assert log' + [] == log';
    LogSnoc(log, Meaning(start));
    LogSnoc(log + [Meaning(start)], Meaning(end));
  }

  // ---------- the loops of an abort ----------

  function OwnEntries(entries: seq<LogEntry>, t: Tid): seq<LogEntry> {
    if entries == [] then []
    else
      var rest, e := OwnEntries(entries[..|entries| - 1], t), entries[|entries| - 1];
      if e.transactionId == t then rest + [e] else rest
  }

  lemma UndoTxnSnoc(store: Store, entries: seq<LogEntry>, e: LogEntry, t: Tid)
    ensures UndoTxn(store, Meanings(entries + [e]), t) == UndoTxn(UndoIf(store, Meaning(e), t), Meanings(entries), t)
  {
    MeaningsConcat(entries, [e]);
    assert Meanings(entries + [e])[..|entries|] == Meanings(entries);
  }

  lemma UndoTxnAtOwn(store: Store, mine: seq<LogEntry>, i: nat, t: Tid)
    requires i < |mine| && mine[i].transactionId == t
    ensures UndoTxn(store, Meanings(mine[..i + 1]), t) ==
      UndoTxn(if Meaning(mine[i]).Changed? then UndoEntry(store, Meaning(mine[i])) else store, Meanings(mine[..i]), t)
  {
    assert mine[..i + 1] == mine[..i] + [mine[i]];
    UndoTxnSnoc(store, mine[..i], mine[i], t);
  }

  /** Undoing t's own entries is undoing t. */
  lemma {:induction false} UndoOwn(store: Store, entries: seq<LogEntry>, t: Tid)
    ensures UndoTxn(store, Meanings(OwnEntries(entries, t)), t) == UndoTxn(store, Meanings(entries), t)
    decreases |entries|
  {
    if entries != [] {
      var front, e := entries[..|entries| - 1], entries[|entries| - 1];
      assert entries == front + [e];
      UndoTxnSnoc(store, front, e, t);
      if e.transactionId == t {
        UndoTxnSnoc(store, OwnEntries(front, t), e, t);
      }
      UndoOwn(UndoIf(store, Meaning(e), t), front, t);
    }
  }

  lemma {:induction false} OwnEntriesAreOwn(entries: seq<LogEntry>, t: Tid)
    ensures forall e :: e in OwnEntries(entries, t) ==> e.transactionId == t
  {
    if entries != [] {
      OwnEntriesAreOwn(entries[..|entries| - 1], t);
    }
  }

  // ---------- the loops of crash recovery ----------

  /** Entry i is the last checkpoint. */
  lemma {:induction false} LastCheckpoint(log: Log, i: nat)
    requires i < |log| && log[i].Checkpoint? && forall j :: i < j < |log| ==> !log[j].Checkpoint?
    ensures Start(log) == i && Listed(log) == ParseList(log[i].query)
  {
    if i < |log| - 1 {
      LastCheckpoint(log[..|log| - 1], i);
    }
  }

  lemma {:induction false} NoCheckpointAtAll(log: Log)
    requires forall j :: 0 <= j < |log| ==> !log[j].Checkpoint?
    ensures Start(log) == 0 && Listed(log) == {}
  {
    if log != [] {
      NoCheckpointAtAll(log[..|log| - 1]);
    }
  }

  lemma ScanStep(undo: set<Tid>, log: Log, start: nat, i: nat)
    requires start <= i < |log|
    ensures Scan(undo, log[start..i + 1]) == Advance(Scan(undo, log[start..i]), log[i])
    ensures Committed(log[start..i + 1]) == Committed(log[start..i]) + (if log[i].Commit? then {log[i].t} else {})
  {
    var more := log[start..i + 1];
    assert more[..|more| - 1] == log[start..i] && more[|more| - 1] == log[i];
  }

  lemma RedoStep(store: Store, log: Log, start: nat, i: nat, who: set<Tid>)
    requires start <= i < |log|
    ensures var s := RedoScan(store, log[start..i], who);
      RedoScan(store, log[start..i + 1], who) == if log[i].Changed? && log[i].t in who then RedoEntry(s, log[i]) else s
  {
    var more := log[start..i + 1];
    assert more[..|more| - 1] == log[start..i] && more[|more| - 1] == log[i];
  }

  // ---------- the manager ----------

  datatype CheckpointInfo = CheckpointInfo(checkpointId: int, activeTransactions: set<Tid>)

  class FailureRecoveryManager {
    var logBuffer: seq<LogEntry>
    var logFile: seq<LogEntry>
    var activeTransactionsCache: set<Tid>
    var checkpoints: seq<CheckpointInfo>
    var nextLogId: int
    var nextCheckpointId: int
    var store: Store  // the storage engine: rows as readers see them
    var disk: Store   // and as a crash leaves them

    ghost const init: Store
    ghost const columns: Columns
    ghost var actions: seq<Action>

    ghost function Now(): State
      reads this
    {
      State(logFile, logBuffer, activeTransactionsCache, store, disk)
    }

    ghost predicate Valid()
      reads this
    {
      IsStateOf(Now(), init, actions) && |logBuffer| < MAX_BUFFER_SIZE
    }

    /** What the file and the buffer say. */
    ghost function Log(): Log
      reads this
    {
      Meanings(logFile) + Meanings(logBuffer)
    }

    /** The run is that of strict transactions. */
    ghost predicate Strict()
      reads this
    {
      Possible(init, actions, columns)
    }

    constructor (init: Store, ghost columns: Columns)
      ensures Valid() && Strict() && this.init == init && this.columns == columns
      ensures logFile == [] && logBuffer == [] && store == init && disk == init
    {
      logBuffer, logFile, activeTransactionsCache, checkpoints := [], [], {}, [];
      nextLogId, nextCheckpointId := 1, 1;
      store, disk := init, init;
      this.init, this.columns := init, columns;
      actions := [];
    }

    /** The loop that appends the buffer to the file. */
    method AppendToFile()
      modifies this`logBuffer, this`logFile
      ensures logBuffer == [] && logFile == old(logFile) + old(logBuffer)
    {
      var i := 0;
      while i < |logBuffer|
        invariant 0 <= i <= |logBuffer| && logBuffer == old(logBuffer) && logFile == old(logFile) + logBuffer[..i]
      {
        logFile := logFile + [logBuffer[i]];
        i := i + 1;
      }
      logBuffer := [];
    }

    method AppendOne(e: LogEntry)
      requires logBuffer == []
      modifies this`logBuffer, this`logFile
      ensures logBuffer == [] && logFile == old(logFile) + [e]
    {
      logBuffer := logBuffer + [e];
      AppendToFile();
    }

    method FlushBuffer()
      requires IsStateOf(Now(), init, actions)
      modifies this`logBuffer, this`logFile, this`actions
      ensures IsStateOf(Now(), init, actions) && Now() == Written(old(Now()))
      ensures Extends(init, old(actions), actions, true, columns)
    {
      actions := WriteSteps(Now(), init, actions, columns);
      AppendToFile();
    }

    method UpdateCache(e: LogEntry)
      modifies this`activeTransactionsCache
      ensures activeTransactionsCache == Advance(old(activeTransactionsCache), Meaning(e))
    {
      if e.operation == BEGIN {
        activeTransactionsCache := activeTransactionsCache + {e.transactionId};
      } else if e.operation == COMMIT || e.operation == ABORT {
        activeTransactionsCache := activeTransactionsCache - {e.transactionId};
      }
    }

    /** One entry into the buffer, with the effect its operation has had. */
    method Push(e: LogEntry)
      requires IsStateOf(Now(), init, actions)
      modifies this`activeTransactionsCache, this`logBuffer, this`store, this`actions
      ensures IsStateOf(Now(), init, actions) && Now() == Recorded(old(Now()), e)
      ensures Extends(init, old(actions), actions, Enabled(init, Running(old(Now())), Append(Meaning(e)), columns), columns)
    {
      actions := RecordSteps(Now(), e, init, actions, columns);
      UpdateCache(e);
      store := ApplyIf(store, Meaning(e));
      logBuffer := logBuffer + [e];
      assert Now() == Recorded(old(Now()), e);
    }

    /** One entry into the buffer, and a full buffer to the file. */
    method LogEntryFor(e: LogEntry)
      requires Valid()
      modifies this`activeTransactionsCache, this`logBuffer, this`logFile, this`store, this`actions
      ensures Valid()
      ensures var s := Recorded(old(Now()), e); Now() == if |s.buffer| < MAX_BUFFER_SIZE then s else Written(s)
      ensures Extends(init, old(actions), actions, Enabled(init, Running(old(Now())), Append(Meaning(e)), columns), columns)
    {
      Push(e);
      if |logBuffer| >= MAX_BUFFER_SIZE {
        FlushBuffer();
      }
    }

    method WriteEntry(info: ExecutionResult, logId: int)
      requires Valid()
      modifies this`activeTransactionsCache, this`logBuffer, this`logFile, this`store, this`actions
      ensures Valid() && EntryWritten(info, logId, old(Now()), Now(), init, old(actions), actions, columns)
    {
      var entry := EntryFor(info, logId);
      if entry.Some? {
        LogEntryFor(entry.value);
      }
    }

    /** Logs a result as what its first word asks for. A failed one and an update without both of its rows
        leave the log alone. */
    method WriteLog(info: ExecutionResult)
      requires Valid()
      modifies this
      ensures Valid() && checkpoints == old(checkpoints) && nextCheckpointId == old(nextCheckpointId)
      ensures nextLogId == old(nextLogId) + (if info.success then 1 else 0)
      ensures if info.success then EntryWritten(info, old(nextLogId), old(Now()), Now(), init, old(actions), actions, columns)
        else Now() == old(Now()) && actions == old(actions)
      ensures info.success ==> Logged(info, old(Now()), Now(), init, old(actions), actions, columns)
    {
      if !info.success {
        return;
      }
      ghost var s, before := Now(), actions;
      nextLogId := nextLogId + 1;
      WriteEntry(info, nextLogId - 1);
      ResultIsWritten(info, nextLogId - 1, s, Now(), init, before, actions, columns);
    }

    method WriteCommit(t: Tid, e: LogEntry)
      requires IsStateOf(Now(), init, actions) && Meaning(e) == Commit(t)
      modifies this`logBuffer, this`logFile, this`activeTransactionsCache, this`store, this`disk, this`actions
      ensures IsStateOf(Now(), init, actions) && Now() == CommittedNow(old(Now()), t, e)
      ensures Extends(init, old(actions), actions, t in old(activeTransactionsCache), columns)
    {
      CommitWrites(Now(), t, e, init, actions, columns);
      Push(e);
      FlushBuffer();
      FlushPages();
    }

    /** Write-ahead commit: the COMMIT entry reaches the file, then the pages reach the disk. */
    method CommitTransaction(t: Tid)
      requires Valid()
      modifies this
      ensures Valid() && checkpoints == old(checkpoints) && nextCheckpointId == old(nextCheckpointId)
      ensures nextLogId == old(nextLogId) + 1
      ensures Now() == CommittedNow(old(Now()), t, Ending(old(nextLogId), t, COMMIT, "COMMIT"))
      ensures Log() == old(Log()) + [Commit(t)] && logBuffer == [] && disk == store == old(store)
      ensures Extends(init, old(actions), actions, t in old(activeTransactionsCache), columns)
    {
      var e := Ending(nextLogId, t, COMMIT, "COMMIT");
      EndedLog(Now(), e);
      nextLogId := nextLogId + 1;
      WriteCommit(t, e);
    }

    /** The storage engine writes all its pages. */
    method FlushPages()
      requires IsStateOf(Now(), init, actions) && logBuffer == []
      modifies this`disk, this`actions
      ensures IsStateOf(Now(), init, actions) && disk == store
      ensures Extends(init, old(actions), actions, true, columns)
    {
      actions := PagesSteps(Now(), init, actions, columns);
      disk := store;
    }

    method UndoOperation(e: LogEntry)
      modifies this`store
      ensures store == if Meaning(e).Changed? then UndoEntry(old(store), Meaning(e)) else old(store)
    {
      match e.operation {
        case INSERT =>
          if e.newValue.Some? {
            store := DeleteRow(store, e.newValue.value.key);
          }
        case DELETE =>
          if e.oldValue.Some? {
            store := InsertRow(store, e.oldValue.value.key, e.oldValue.value.columns);
          }
        case UPDATE =>
          if e.oldValue.Some? && e.newValue.Some? {
            store := UpdateRow(store, e.newValue.value.key, e.oldValue.value.columns);
          }
        case _ =>
      }
    }

    method RedoOperation(e: LogEntry)
      modifies this`store
      ensures store == ApplyIf(old(store), Meaning(e))
    {
      match e.operation {
        case INSERT =>
          if e.newValue.Some? {
            store := InsertRow(store, e.newValue.value.key, e.newValue.value.columns);
          }
        case DELETE =>
          if e.oldValue.Some? {
            store := DeleteRow(store, e.oldValue.value.key);
          }
        case UPDATE =>
          if e.oldValue.Some? && e.newValue.Some? {
            store := UpdateRow(store, e.newValue.value.key, e.newValue.value.columns);
          }
        case _ =>
      }
    }

    method PickOwn(t: Tid) returns (mine: seq<LogEntry>)
      ensures mine == OwnEntries(logFile, t)
    {
      mine := [];
      var i := 0;
      while i < |logFile|
        invariant 0 <= i <= |logFile| && mine == OwnEntries(logFile[..i], t)
      {
        assert logFile[..i + 1][..i] == logFile[..i];
        if logFile[i].transactionId == t {
          mine := mine + [logFile[i]];
        }
        i := i + 1;
      }
      assert logFile[..i] == logFile;
    }

    /** The loops of an abort: pick t's entries, then undo them from the last to the first. */
    method UndoTransaction(t: Tid)
      modifies this`store
      ensures store == UndoTxn(old(store), Meanings(logFile), t)
    {
      var mine := PickOwn(t);
      OwnEntriesAreOwn(logFile, t);
      UndoOwn(store, logFile, t);
      var i := |mine|;
      assert mine[..i] == mine;
      while i > 0
        invariant 0 <= i <= |mine|
        invariant UndoTxn(store, Meanings(mine[..i]), t) == UndoTxn(old(store), Meanings(mine), t)
      {
        i := i - 1;
        assert mine[i] in mine;
        UndoTxnAtOwn(store, mine, i, t);
        UndoOperation(mine[i]);
      }
    }

    method HasDataModifications(entries: seq<LogEntry>, t: Tid) returns (found: bool)
      ensures found <==> !ChangesNothing(entries, t)
    {
      var i := 0;
      while i < |entries|
        invariant 0 <= i <= |entries|
        invariant ChangesNothing(entries[..i], t)
      {
        if entries[i].transactionId == t && IsDataOperation(entries[i].operation) {
          return true;
        }
        i := i + 1;
      }
      assert entries[..i] == entries;
      return false;
    }

    /** The buffer first, then the file. */
    method HasModified(t: Tid) returns (found: bool)
      ensures found <==> !ChangesNothing(logFile + logBuffer, t)
    {
      found := HasDataModifications(logBuffer, t);
      if !found {
        found := HasDataModifications(logFile, t);
      }
      ChangesNothingConcat(logFile, logBuffer, t);
    }

    /** The branch of an abort that undoes. */
    method UndoAndEnd(t: Tid, e: LogEntry)
      requires IsStateOf(Now(), init, actions) && Meaning(e) == Abort(t)
      modifies this`logBuffer, this`logFile, this`activeTransactionsCache, this`store, this`disk, this`actions
      ensures IsStateOf(Now(), init, actions) && Now() == Aborted(old(Now()), t, e)
      ensures Extends(init, old(actions), actions, t in old(activeTransactionsCache), columns)
    {
      actions := AbortedSteps(Now(), t, e, init, actions, columns);
      AppendToFile();
      UndoTransaction(t);
      disk := store;
      logBuffer := logBuffer + [e];
      AppendToFile();
      activeTransactionsCache := activeTransactionsCache - {t};
      assert Now() == Aborted(old(Now()), t, e);
    }

    /** The branch that only ends. */
    method End(t: Tid, e: LogEntry)
      requires IsStateOf(Now(), init, actions) && Meaning(e) == Abort(t) && ChangesNothing(logFile + logBuffer, t)
      modifies this`logBuffer, this`logFile, this`activeTransactionsCache, this`actions
      ensures IsStateOf(Now(), init, actions) && Now() == QuietlyAborted(old(Now()), t, e)
      ensures Extends(init, old(actions), actions, t in old(activeTransactionsCache), columns)
      ensures UndoTxn(store, Meanings(old(logFile + logBuffer)), t) == store
    {
      actions := QuietSteps(Now(), t, e, init, actions, columns);
      logBuffer := logBuffer + [e];
      AppendToFile();
      activeTransactionsCache := activeTransactionsCache - {t};
      assert Now() == QuietlyAborted(old(Now()), t, e);
    }

    /** Abort: unless t is unknown, its changes are undone from its last to its first, on disk
        too, and then the ABORT entry is written. A transaction without changes only gets its entry. */
    method AbortTransaction(t: Tid)
      requires Valid()
      modifies this
      ensures Valid() && checkpoints == old(checkpoints) && nextCheckpointId == old(nextCheckpointId)
      ensures t !in old(activeTransactionsCache) ==>
        Now() == old(Now()) && actions == old(actions) && nextLogId == old(nextLogId)
      ensures t in old(activeTransactionsCache) ==>
        var e := Ending(old(nextLogId), t, ABORT, "ABORT");
        && nextLogId == old(nextLogId) + 1
        && Now() == (if ChangesNothing(old(logFile + logBuffer), t) then QuietlyAborted(old(Now()), t, e) else Aborted(old(Now()), t, e))
        && store == UndoTxn(old(store), Meanings(old(logFile + logBuffer)), t)
        && Log() == old(Log()) + [Abort(t)] && logBuffer == []
      ensures Extends(init, old(actions), actions, true, columns)
    {
      if t !in activeTransactionsCache {
        return;
      }
      var e := Ending(nextLogId, t, ABORT, "ABORT");
      EndedLog(Now(), e);
      nextLogId := nextLogId + 1;
      var found := HasModified(t);
      if found {
        UndoAndEnd(t, e);
      } else {
        End(t, e);
      }
    }

    /** A checkpoint's writes: the log, the start entry, the pages, the end entry. */
    method WriteCheckpoint(start: LogEntry, end: LogEntry)
      requires IsStateOf(Now(), init, actions)
      requires Meaning(start) == Checkpoint(START_QUERY) && Meaning(end) == Checkpoint(EndQuery(activeTransactionsCache))
      modifies this`logBuffer, this`logFile, this`disk, this`actions
      ensures IsStateOf(Now(), init, actions) && Now() == Checkpointed(old(Now()), start, end)
      ensures Extends(init, old(actions), actions, true, columns)
    {
      actions := CheckpointedSteps(Now(), start, end, init, actions, columns);
      AppendToFile();
      AppendOne(start);
      disk := store;
      AppendOne(end);
    }

    method CheckpointEntries() returns (start: LogEntry, end: LogEntry)
      ensures start == Ending(nextLogId, -1, CHECKPOINT, START_QUERY) && Meaning(start) == Checkpoint(START_QUERY)
      ensures end == Ending(nextLogId + 1, -1, CHECKPOINT, EndQuery(activeTransactionsCache))
      ensures Meaning(end) == Checkpoint(EndQuery(activeTransactionsCache))
    {
      var list := PrintList(activeTransactionsCache);
      start := Ending(nextLogId, -1, CHECKPOINT, START_QUERY);
      end := Ending(nextLogId + 1, -1, CHECKPOINT, END_PREFIX + list);
    }

    /** Checkpoint: the end entry lists the active transactions. */
    method SaveCheckpoint()
      requires Valid()
      modifies this
      ensures Valid() && nextLogId == old(nextLogId) + 2
      ensures Now() == Checkpointed(old(Now()), Ending(old(nextLogId), -1, CHECKPOINT, START_QUERY),
                                    Ending(old(nextLogId) + 1, -1, CHECKPOINT, EndQuery(old(activeTransactionsCache))))
      ensures checkpoints == old(checkpoints) + [CheckpointInfo(old(nextCheckpointId), activeTransactionsCache)]
      ensures nextCheckpointId == old(nextCheckpointId) + 1
      ensures Log() == old(Log()) + [Checkpoint(START_QUERY), Checkpoint(EndQuery(old(activeTransactionsCache)))]
      ensures logBuffer == [] && disk == store == old(store)
      ensures Extends(init, old(actions), actions, true, columns)
    {
      var start, end := CheckpointEntries();
      CheckpointedLog(Now(), start, end);
      nextLogId := nextLogId + 2;
      WriteCheckpoint(start, end);
      checkpoints := checkpoints + [CheckpointInfo(nextCheckpointId, activeTransactionsCache)];
      nextCheckpointId := nextCheckpointId + 1;
    }

    /** The first phase of crash recovery: the last checkpoint, then the entries from it on. */
    method Analyse() returns (undoList: set<Tid>, committed: set<Tid>, start: nat)
      ensures var log := Meanings(logFile);
        start == Start(log) && undoList == Losers(log) && committed == Winners(log)
    {
      undoList, start := FindCheckpoint();
      ghost var log := Meanings(logFile);
      committed := {};
      assert log[start..start] == [];
      var i := start;
      while i < |logFile|
        invariant start <= i <= |logFile|
        invariant undoList == Scan(Listed(log), log[start..i]) && committed == Committed(log[start..i])
      {
        ScanStep(Listed(log), log, start, i);
        var e := logFile[i];
        if e.operation == BEGIN {
          undoList := undoList + {e.transactionId};
        } else if e.operation == COMMIT {
          undoList := undoList - {e.transactionId};
          committed := committed + {e.transactionId};
        } else if e.operation == ABORT {
          undoList := undoList - {e.transactionId};
        }
        i := i + 1;
      }
      assert log[start..i] == log[start..];
    }

    method FindCheckpoint() returns (undoList: set<Tid>, start: nat)
      ensures start == Start(Meanings(logFile)) && undoList == Listed(Meanings(logFile))
    {
      ghost var log := Meanings(logFile);
      var i := |logFile|;
      while i > 0
        invariant 0 <= i <= |logFile|
        invariant forall j :: i <= j < |log| ==> !log[j].Checkpoint?
      {
        i := i - 1;
        if logFile[i].operation == CHECKPOINT {
          LastCheckpoint(log, i);
          undoList := ParseCheckpointList(logFile[i].query);
          return undoList, i;
        }
      }
      NoCheckpointAtAll(log);
      return {}, 0;
    }

    /** The second phase, forwards. */
    method RedoPhase(committed: set<Tid>, start: nat)
      requires start <= |logFile|
      modifies this`store
      ensures store == RedoScan(old(store), Meanings(logFile)[start..], committed)
    {
      ghost var log := Meanings(logFile);
      if committed == {} {
        RedoNobody(store, log[start..]);
        return;
      }
      assert log[start..start] == [];
      var i := start;
      while i < |logFile|
        invariant start <= i <= |logFile|
        invariant store == RedoScan(old(store), log[start..i], committed)
      {
        RedoStep(old(store), log, start, i, committed);
        if logFile[i].transactionId in committed && IsDataOperation(logFile[i].operation) {
          RedoOperation(logFile[i]);
        }
        i := i + 1;
      }
      assert log[start..i] == log[start..];
    }

    /** The third phase, backwards, until every transaction's BEGIN has been met. */
    method UndoPhase(undoList: set<Tid>)
      modifies this`store
      ensures store == UndoScan(old(store), Meanings(logFile), undoList)
    {
      ghost var log := Meanings(logFile);
      var todo := undoList;
      var i := |logFile|;
      assert log[..i] == log;
      while i > 0 && todo != {}
        invariant 0 <= i <= |logFile|
        invariant UndoScan(store, log[..i], todo) == UndoScan(old(store), log, undoList)
      {
        i := i - 1;
        assert log[..i + 1][..i] == log[..i];
        var e := logFile[i];
        if e.transactionId in todo {
          if e.operation == BEGIN {
            todo := todo - {e.transactionId};
          } else if IsDataOperation(e.operation) {
            UndoOperation(e);
          }
        } else {
          assert todo - {e.transactionId} == todo;
        }
      }
    }

    method RecoverFromCrash()
      modifies this`store, this`disk
      ensures store == Recover(old(store), Meanings(logFile))
      ensures disk == if logFile == [] then old(disk) else store
    {
      if logFile == [] {
        return;
      }
      var undoList, committed, start := Analyse();
      RedoPhase(committed, start);
      UndoPhase(undoList);
      disk := store;
    }

    /** A new process after a crash: what was in memory is gone. */
    constructor Restart(disk: Store, file: seq<LogEntry>, ghost init: Store, ghost columns: Columns)
      ensures logFile == file && logBuffer == [] && activeTransactionsCache == {} && checkpoints == []
      ensures this.store == this.disk == Recover(disk, Meanings(file))
      ensures nextLogId == if file == [] then 1 else file[|file| - 1].logId + 1
    {
      logBuffer, logFile, activeTransactionsCache, checkpoints := [], file, {}, [];
      nextLogId, nextCheckpointId := if file == [] then 1 else file[|file| - 1].logId + 1, 1;
      store, this.disk := disk, disk;
      this.init, this.columns, actions := init, columns, [];
      new;
      RecoverFromCrash();
    }

    /** The buffer pool writes one key's page. */
    method EvictPage(k: Key)
      requires Valid()
      modifies this`disk, this`actions
      ensures Valid()
      ensures disk == if k in store then old(disk)[k := store[k]] else old(disk) - {k}
      ensures Extends(init, old(actions), actions, Enabled(init, Running(old(Now())), Evict(k), columns), columns)
    {
      Performed(init, actions, Running(Now()), Evict(k), columns);
      CompletedSnoc(actions, Evict(k));
      actions := actions + [Evict(k)];
      disk := if k in store then disk[k := store[k]] else disk - {k};
    }
  }

  /** Whatever the manager has done for strict transactions, the process after a crash between two of
      its calls has exactly the committed store; crashing again and recovering again changes nothing. */
  method CrashAndRestart(m: FailureRecoveryManager) returns (next: FailureRecoveryManager, again: FailureRecoveryManager)
    requires m.Valid() && m.Strict() && HasTables(m.init, m.columns)
    ensures next.logFile == m.logFile
    ensures next.store == next.disk == CommittedStore(m.init, Meanings(m.logFile))
    ensures again.store == again.disk == next.disk
  {
    CompletedIsClosed(m.init, m.actions, m.columns);
    EveryCrashIsRecovered(m.init, m.actions, m.columns);
    next := new FailureRecoveryManager.Restart(m.disk, m.logFile, m.init, m.columns);
    again := new FailureRecoveryManager.Restart(next.disk, next.logFile, m.init, m.columns);
  }
}
