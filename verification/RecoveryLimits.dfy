/** The limits of crash recovery. */
module RecoveryLimits {
  // Three crashes from which recovery does not find the committed store: the row of a transaction
  // that never committed survives, or that of a committed one is lost.

  import opened Wrappers
  import opened KeyedStore
  import opened CheckpointList
  import opened RecoveryLog
  import opened CrashRecovery
  import opened RecoveryRuns
  import opened RecoverySteps

  lemma Step(init: Store, actions: seq<Action>, a: Action, columns: Columns)
    requires Possible(init, actions, columns) && Enabled(init, Perform(init, actions), a, columns)
    ensures Perform(init, actions + [a]) == After(Perform(init, actions), a) && Possible(init, actions + [a], columns)
  {
    assert (actions + [a])[..|actions|] == actions;
  }

  function Inserted(k: Key, row: Row): Log {
    [Begin(1), Changed(1, k, Insert(row))]
  }

  lemma InsertedMeans(k: Key, row: Row)
    ensures Unfinished(Inserted(k, row)) == {1} && Committed(Inserted(k, row)) == {}
    ensures Live(map[], [Begin(1)]) == map[] && Unfinished([Begin(1)]) == {1}
  {
    var begin: Log := [Begin(1)];
    assert begin[..0] == [] && Inserted(k, row)[..1] == begin;
  }

  lemma BeginOne(init: Store, columns: Columns) returns (actions: seq<Action>)
    requires HasTables(init, columns)
    ensures Possible(init, actions, columns)
    ensures Perform(init, actions) == System(init, init, [], [Begin(1)], None)
  {
    var none: Log := [];
    assert FullLog(Fresh(init)) == none && none + [Begin(1)] == [Begin(1)];
    Step(init, [], Append(Begin(1)), columns);
    actions := [] + [Append(Begin(1))];
  }

  /** A transaction begins and inserts a row. */
  lemma InsertARow(k: Key, row: Row, columns: Columns) returns (actions: seq<Action>)
    requires row.Keys == columns(k.table)
    ensures Possible(map[], actions, columns)
    ensures Perform(map[], actions) == System(map[k := row], map[], [], Inserted(k, row), None)
  {
    var one: Log := [Begin(1)];
    var a := Append(Changed(1, k, Insert(row)));
    InsertedMeans(k, row);
    actions := BeginOne(map[], columns);
    assert FullLog(Perform(map[], actions)) == one && one + [a.e] == Inserted(k, row);
    Step(map[], actions, a, columns);
    actions := actions + [a];
  }

  /** The whole buffer reaches the log file and a checkpoint starts. */
  lemma FlushAndStart(actions: seq<Action>, s: System, columns: Columns) returns (actions': seq<Action>)
    requires Possible(map[], actions, columns) && Perform(map[], actions) == s
    requires s.durable == [] && s.aborting.None?
    ensures Possible(map[], actions', columns)
    ensures Perform(map[], actions') == System(s.store, s.disk, s.buffer + [Checkpoint(START_QUERY)], [], None)
  {
    FlushAll(map[], actions, s, columns);
    actions' := actions + Flushes(|s.buffer|);
    assert FullLog(s) == s.buffer;
    Step(map[], actions', CheckpointStart, columns);
    actions' := actions' + [CheckpointStart];
  }

  /** Both entries reach the log file, a checkpoint starts and writes all pages. */
  lemma ReachCheckpointStart(k: Key, row: Row, columns: Columns) returns (actions: seq<Action>)
    requires row.Keys == columns(k.table)
    ensures Possible(map[], actions, columns)
    ensures var s := Perform(map[], actions);
      s.disk == map[k := row] && s.durable == Inserted(k, row) + [Checkpoint(START_QUERY)]
  {
    actions := InsertARow(k, row, columns);
    actions := FlushAndStart(actions, Perform(map[], actions), columns);
    Step(map[], actions, FlushData, columns);
    actions := actions + [FlushData];
  }

  /** What the log file of that run means. */
  lemma InsertedAtStart(k: Key, row: Row, disk: Store)
    ensures var log := Inserted(k, row) + [Checkpoint(START_QUERY)];
      && Losers(log) == {} && Unfinished(log) == {1}
      && Recover(disk, log) == disk && CommittedStore(map[], log) == map[]
  {
    var log := Inserted(k, row) + [Checkpoint(START_QUERY)];
    NobodyAtStart(Inserted(k, row), Checkpoint(START_QUERY));
    RecoverNobody(disk, log);
    LogSnoc(Inserted(k, row), Checkpoint(START_QUERY));
    InsertedMeans(k, row);
    RedoNobody(map[], log);
  }

  /** The row of a transaction that never committed survives a crash before the checkpoint's end:
      the start entry parses to nobody, so nobody is undone. */
  lemma CrashWithinCheckpoint(k: Key, row: Row, columns: Columns) returns (actions: seq<Action>)
    requires row.Keys == columns(k.table)
    ensures Possible(map[], actions, columns)
    ensures var s := Perform(map[], actions);
      && Losers(s.durable) == {} && Unfinished(s.durable) == {1}
      && Recover(s.disk, s.durable) == map[k := row] && CommittedStore(map[], s.durable) == map[]
  {
    actions := ReachCheckpointStart(k, row, columns);
    InsertedAtStart(k, row, map[k := row]);
  }

  /** Eviction writes a page without looking at the log. When the page is ahead of the log file,
      the row of a transaction that never committed survives the crash. */
  lemma EvictionAheadOfLog(k: Key, row: Row, columns: Columns) returns (actions: seq<Action>)
    requires row.Keys == columns(k.table)
    ensures Possible(map[], actions, columns)
    ensures var s := After(Perform(map[], actions), Evict(k));
      Recover(s.disk, s.durable) == map[k := row] && CommittedStore(map[], s.durable) == map[]
  {
    actions := InsertARow(k, row, columns);
  }

  lemma CommittedMeans(k: Key, row: Row)
    ensures var log := Inserted(k, row) + [Commit(1)] + [Checkpoint(START_QUERY)];
      Committed(log) == {1} && Unfinished(log) == {} && CommittedStore(map[], log) == map[k := row]
  {
    var log := Inserted(k, row) + [Commit(1)];
    var begin: Log := [Begin(1)];
    InsertedMeans(k, row);
    LogSnoc(Inserted(k, row), Commit(1));
    LogSnoc(log, Checkpoint(START_QUERY));
    assert (log + [Checkpoint(START_QUERY)])[..|log|] == log && log[..2] == Inserted(k, row);
    assert Inserted(k, row)[..1] == begin && begin[..0] == [];
    assert RedoScan(map[], begin, {1}) == map[] && RedoScan(map[], Inserted(k, row), {1}) == map[k := row];
    assert RedoScan(map[], log, {1}) == map[k := row];
  }

  /** Its COMMIT entry alone does not protect a transaction: when a checkpoint starts before the pages
      are written, redo begins at the start entry and the committed row is lost. Nobody was active. */
  lemma CommitBeforeCheckpoint(k: Key, row: Row, columns: Columns) returns (actions: seq<Action>)
    requires row.Keys == columns(k.table)
    ensures Possible(map[], actions, columns)
    ensures var s := Perform(map[], actions);
      && Losers(s.durable) == Unfinished(s.durable) == {}
      && Recover(s.disk, s.durable) == map[] && CommittedStore(map[], s.durable) == map[k := row]
  {
    actions := InsertARow(k, row, columns);
    InsertedMeans(k, row);
    assert FullLog(Perform(map[], actions)) == Inserted(k, row);
    Step(map[], actions, Append(Commit(1)), columns);
    actions := actions + [Append(Commit(1))];
    actions := FlushAndStart(actions, Perform(map[], actions), columns);
    CommittedMeans(k, row);
    NobodyAtStart(Inserted(k, row) + [Commit(1)], Checkpoint(START_QUERY));
    RecoverNobody(map[], Inserted(k, row) + [Commit(1)] + [Checkpoint(START_QUERY)]);
  }
}
