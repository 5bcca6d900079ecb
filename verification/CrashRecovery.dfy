/** Aborts and crash recovery. */
module CrashRecovery {
  // Abort is as if the transaction never ran, and crash recovery restores the committed store.

  import opened KeyedStore
  import opened CheckpointList
  import opened RecoveryLog

  // ---------- abort ----------

  /** The live store is what the transactions that did not abort made of the initial one. */
  lemma LiveIsReplay(init: Store, log: Log, columns: Columns)
    requires IsRun(init, log, columns)
    ensures Live(init, log) == RedoScan(init, log, Committed(log) + Unfinished(log))
  {
    forall k
      ensures Lookup(Live(init, log), k) == Lookup(RedoScan(init, log, Committed(log) + Unfinished(log)), k)
    {
      RunSettles(init, log, k, columns);
      RedoScanAt(init, log, Committed(log) + Unfinished(log), k);
    }
    SameStore(Live(init, log), RedoScan(init, log, Committed(log) + Unfinished(log)));
  }

  /** Undoing t's entries, latest first, leaves what the other transactions' entries alone would have made. */
  lemma AbortAsIfNeverRan(init: Store, log: Log, t: Tid, columns: Columns)
    requires IsRun(init, log, columns) && t in Unfinished(log)
    ensures UndoTxn(Live(init, log), log, t) ==
      RedoScan(init, log, (Committed(log) + Unfinished(log)) - {t})
  {
    var log' := log + [Abort(t)];
    assert log'[..|log|] == log;
    LogSnoc(log, Abort(t));
    RunLifecycle(init, log, columns);
    LiveIsReplay(init, log', columns);
    var others := (Committed(log) + Unfinished(log)) - {t};
    assert Committed(log') + Unfinished(log') == others;
  }

  // ---------- analysis ----------

  /** The index of the last CHECKPOINT entry, 0 without any. */
  function Start(log: Log): (i: nat)
    ensures i <= |log| && (log != [] ==> i < |log|)
  {
    if log == [] then 0
    else if log[|log| - 1].Checkpoint? then |log| - 1
    else Start(log[..|log| - 1])
  }

  function Listed(log: Log): set<Tid> {
    if Start(log) < |log| && log[Start(log)].Checkpoint? then ParseList(log[Start(log)].query) else {}
  }

  function Scan(undo: set<Tid>, log: Log): set<Tid> {
    if log == [] then undo else Advance(Scan(undo, log[..|log| - 1]), log[|log| - 1])
  }

  /** The transactions recovery undoes: the last checkpoint's list, brought up to date. */
  function Losers(log: Log): set<Tid> {
    Scan(Listed(log), log[Start(log)..])
  }

  /** The transactions recovery redoes. */
  function Winners(log: Log): set<Tid> {
    Committed(log[Start(log)..])
  }

  lemma {:induction false} ScanIsUnfinished(a: Log, b: Log)
    ensures Scan(Unfinished(a), b) == Unfinished(a + b)
  {
    if b == [] {
      assert a + b == a;
    } else {
      var n := |b| - 1;
      assert a + b == (a + b[..n]) + [b[n]];
      LogSnoc(a + b[..n], b[n]);
      ScanIsUnfinished(a, b[..n]);
    }
  }

  /** If the last checkpoint lists the transactions active at it, analysis finds exactly the
      transactions begun and not finished. */
  lemma AnalysisFindsLosers(log: Log)
    requires Listed(log) == Unfinished(log[..Start(log)])
    ensures Losers(log) == Unfinished(log)
  {
    ScanIsUnfinished(log[..Start(log)], log[Start(log)..]);
    assert log[..Start(log)] + log[Start(log)..] == log;
  }

  lemma {:induction false} CommittedConcat(a: Log, b: Log)
    ensures Committed(a + b) == Committed(a) + Committed(b)
  {
    if b == [] {
      assert a + b == a;
    } else {
      var n := |b| - 1;
      assert a + b == (a + b[..n]) + [b[n]] && b == b[..n] + [b[n]];
      LogSnoc(a + b[..n], b[n]);
      LogSnoc(b[..n], b[n]);
      CommittedConcat(a, b[..n]);
    }
  }

  lemma {:induction false} RunPrefix(init: Store, log: Log, n: nat, columns: Columns)
    requires IsRun(init, log, columns) && n <= |log|
    ensures IsRun(init, log[..n], columns)
  {
    if n < |log| {
      RunPrefix(init, log[..|log| - 1], n, columns);
      assert log[..|log| - 1][..n] == log[..n];
    } else {
      assert log[..n] == log;
    }
  }

  /** The log ends in a checkpoint that was begun and not completed. */
  predicate CheckpointOpen(log: Log) {
    Start(log) < |log| && log[Start(log)].Checkpoint? && log[Start(log)].query == START_QUERY
  }

  /** A scan that starts from nobody misses whoever was unfinished before it. */
  lemma {:induction false} ScanFromNobody(init: Store, a: Log, b: Log, columns: Columns)
    requires IsRun(init, a + b, columns)
    ensures Scan({}, b) == Unfinished(a + b) - Unfinished(a)
    ensures Unfinished(a) <= Begun(a + b)
  {
    if b == [] {
      assert a + b == a;
      RunLifecycle(init, a, columns);
    } else {
      var n := |b| - 1;
      assert a + b == (a + b[..n]) + [b[n]];
      assert (a + b)[..|a + b| - 1] == a + b[..n] && (a + b)[|a + b| - 1] == b[n];
      ScanFromNobody(init, a, b[..n], columns);
      LogSnoc(a + b[..n], b[n]);
    }
  }

  /** After a crash within a checkpoint, analysis finds the unfinished transactions if and only if
      all of those active when the checkpoint started have finished since. */
  lemma AnalysisInOpenCheckpoint(init: Store, log: Log, columns: Columns)
    requires IsRun(init, log, columns) && CheckpointOpen(log)
    ensures Losers(log) == Unfinished(log) - Unfinished(log[..Start(log)])
    ensures Losers(log) == Unfinished(log) <==> Unfinished(log[..Start(log)]) !! Unfinished(log)
  {
    var a, b := log[..Start(log)], log[Start(log)..];
    assert a + b == log;
    OpenListsNobody(log);
    ScanFromNobody(init, a, b, columns);
    AllOrDisjoint(Unfinished(log), Unfinished(a));
  }

  lemma OpenListsNobody(log: Log)
    requires CheckpointOpen(log)
    ensures Listed(log) == {}
  {
    StartParsesToNobody();
  }

  lemma AllOrDisjoint(all: set<Tid>, some: set<Tid>)
    ensures all - some == all <==> some !! all
  {
    assert forall t :: t in some && t in all ==> t !in all - some;
  }

  /** A transaction committed in a is silent in b. */
  lemma {:induction false} SilentAfterCommit(init: Store, a: Log, b: Log, t: Tid, k: Key, columns: Columns)
    requires IsRun(init, a + b, columns) && t in Committed(a)
    ensures On(b, k, {t}) == []
  {
    if b != [] {
      var n := |b| - 1;
      assert (a + b)[..|a + b| - 1] == a + b[..n] && (a + b)[|a + b| - 1] == b[n];
      SilentAfterCommit(init, a, b[..n], t, k, columns);
      RunLifecycle(init, a + b[..n], columns);
      CommittedConcat(a, b[..n]);
    }
  }

  // ---------- crash recovery ----------

  /** Redo from the last checkpoint on, then undo back through the whole log. */
  function Recover(disk: Store, log: Log): Store {
    UndoScan(RedoScan(disk, log[Start(log)..], Winners(log)), log, Losers(log))
  }

  function CommittedStore(init: Store, log: Log): Store {
    RedoScan(init, log, Committed(log))
  }

  /** The changes to k that the disk may or may not have seen: those that were committed and
      logged after the checkpoint, and those of the transaction left open. */
  function Pending(log: Log, k: Key): seq<Change> {
    On(log[Start(log)..], k, Winners(log)) + On(log, k, Unfinished(log))
  }

  /** The disk has every change committed and logged before the last checkpoint, and on each key
      some prefix of the later ones. */
  ghost predicate DiskMayHold(init: Store, log: Log, disk: Store) {
    forall k :: KeyMayHold(init, log, disk, k)
  }

  ghost predicate KeyMayHold(init: Store, log: Log, disk: Store, k: Key) {
    exists p: nat :: DiskAt(init, log, disk, k, p)
  }

  ghost predicate DiskAt(init: Store, log: Log, disk: Store, k: Key, p: nat) {
    var early := On(log[..Start(log)], k, Committed(log));
    p <= |Pending(log, k)| && Lookup(disk, k) == At(Replay(Lookup(init, k), early), Pending(log, k), p)
  }

  lemma CommittedSplit(init: Store, log: Log, k: Key, columns: Columns)
    requires IsRun(init, log, columns)
    ensures On(log, k, Committed(log)) ==
      On(log[..Start(log)], k, Committed(log)) + On(log[Start(log)..], k, Winners(log))
  {
    var a, b := log[..Start(log)], log[Start(log)..];
    assert a + b == log;
    OnConcat(a, b, k, Committed(log));
    CommittedConcat(a, b);
    forall t | (t in Committed(log)) != (t in Winners(log))
      ensures On(b, k, {t}) == []
    {
      SilentAfterCommit(init, a, b, t, k, columns);
    }
    OnSame(b, k, Committed(log), Winners(log));
  }

  /** What redo and undo do to k, and what the committed store has of it, as sequences of changes. */
  lemma RecoverAt(init: Store, log: Log, disk: Store, k: Key, columns: Columns)
    requires IsRun(init, log, columns)
    ensures Lookup(Recover(disk, log), k) ==
      UndoAll(Replay(Lookup(disk, k), On(log[Start(log)..], k, Winners(log))), On(log, k, Losers(log)))
    ensures Lookup(CommittedStore(init, log), k) == Replay(Lookup(init, k), On(log, k, Committed(log)))
  {
    RunLifecycle(init, log, columns);
    RedoScanAt(disk, log[Start(log)..], Winners(log), k);
    UndoScanAt(RedoScan(disk, log[Start(log)..], Winners(log)), log, Losers(log), k);
    RedoScanAt(init, log, Committed(log), k);
  }

  /** Recovery of one key whose disk state has `early` and some prefix of the later changes. */
  lemma RecoverCell(c: Cell, early: seq<Change>, won: seq<Change>, lost: seq<Change>, p: nat, columns: set<string>)
    requires Chain(c, (early + won) + lost, columns) && p <= |won + lost|
    ensures UndoAll(Replay(At(Replay(c, early), won + lost, p), won), lost) == Replay(c, early + won)
  {
    assert (early + won) + lost == early + (won + lost);
    ChainSuffix(c, early, won + lost, columns);
    CellRecovery(Replay(c, early), won, lost, p, columns);
    ReplayConcat(c, early, won);
  }

  lemma RecoverKey(init: Store, log: Log, disk: Store, k: Key, p: nat, columns: Columns)
    requires IsRun(init, log, columns) && Losers(log) == Unfinished(log) && DiskAt(init, log, disk, k, p)
    ensures Lookup(Recover(disk, log), k) == Lookup(CommittedStore(init, log), k)
  {
    var early, won, lost := On(log[..Start(log)], k, Committed(log)), On(log[Start(log)..], k, Winners(log)), On(log, k, Unfinished(log));
    RunSettles(init, log, k, columns);
    CommittedSplit(init, log, k, columns);
    RecoverAt(init, log, disk, k, columns);
    RecoverCell(Lookup(init, k), early, won, lost, p, columns(k.table));
  }

  /** Recovery restores exactly the committed store. */
  lemma RecoveryRestoresCommitted(init: Store, log: Log, disk: Store, columns: Columns)
    requires IsRun(init, log, columns) && DiskMayHold(init, log, disk)
    requires Losers(log) == Unfinished(log)
    ensures Recover(disk, log) == CommittedStore(init, log)
  {
    forall k
      ensures Lookup(Recover(disk, log), k) == Lookup(CommittedStore(init, log), k)
    {
      assert KeyMayHold(init, log, disk, k);
      var p: nat :| DiskAt(init, log, disk, k, p);
      RecoverKey(init, log, disk, k, p, columns);
    }
    SameStore(Recover(disk, log), CommittedStore(init, log));
  }

  /** The committed store is itself a state the disk may have, so recovering again, or after a
      crash during recovery's final flush, changes nothing. */
  lemma RecoveryIsIdempotent(init: Store, log: Log, disk: Store, columns: Columns)
    requires IsRun(init, log, columns) && DiskMayHold(init, log, disk)
    requires Losers(log) == Unfinished(log)
    ensures Recover(Recover(disk, log), log) == Recover(disk, log)
  {
    RecoveryRestoresCommitted(init, log, disk, columns);
    var restored := CommittedStore(init, log);
    forall k
      ensures KeyMayHold(init, log, restored, k)
    {
      var early, won := On(log[..Start(log)], k, Committed(log)), On(log[Start(log)..], k, Winners(log));
      RedoScanAt(init, log, Committed(log), k);
      CommittedSplit(init, log, k, columns);
      ReplayConcat(Lookup(init, k), early, won);
      assert Pending(log, k)[..|won|] == won;
      assert DiskAt(init, log, restored, k, |won|);
    }
    RecoveryRestoresCommitted(init, log, restored, columns);
  }

  ghost predicate NoCheckpoints(log: Log) {
    forall i :: 0 <= i < |log| ==> !log[i].Checkpoint?
  }

  /** Other entries neither open a checkpoint nor close it. */
  lemma {:induction false} OpenAsBefore(a: Log, b: Log)
    requires NoCheckpoints(b)
    ensures CheckpointOpen(a + b) <==> CheckpointOpen(a)
  {
    if b == [] {
      assert a + b == a;
    } else {
      var front, e := b[..|b| - 1], b[|b| - 1];
      assert a + b == (a + front) + [e];
      OpenAsBefore(a, front);
      OpenSnoc(a + front, e);
    }
  }

  lemma OpenSnoc(log: Log, e: Entry)
    ensures CheckpointOpen(log + [e]) <==> if e.Checkpoint? then e.query == START_QUERY else CheckpointOpen(log)
  {
    assert (log + [e])[..|log|] == log;
  }

  // ---------- a checkpoint's start alone ----------

  /** A log that ends in a checkpoint's start has no losers and no winners for analysis. */
  lemma NobodyAtStart(log: Log, e: Entry)
    requires e == Checkpoint(START_QUERY)
    ensures Start(log + [e]) == |log| && Losers(log + [e]) == {} && Winners(log + [e]) == {}
  {
    StartParsesToNobody();
    assert (log + [e])[|log|..] == [e];
    OneEntry({}, e);
  }

  lemma OneEntry(undo: set<Tid>, e: Entry)
    requires e.Checkpoint?
    ensures Scan(undo, [e]) == undo && Committed([e]) == {}
  {
    assert [e][..0] == [];
  }

  lemma RecoverNobody(disk: Store, log: Log)
    requires Losers(log) == {} && Winners(log) == {}
    ensures Recover(disk, log) == disk
  {
    RedoNobody(disk, log[Start(log)..]);
  }

  // ---------- exactly when recovery succeeds ----------

  ghost predicate RowsOfTables(store: Store, columns: Columns) {
    forall k :: HasColumns(Lookup(store, k), columns(k.table))
  }

  /** What recovery redoes and undoes on k repairs whatever the disk has of k. */
  ghost predicate Repairable(init: Store, log: Log, disk: Store, k: Key) {
    RecoveryRepairs(
      Lookup(disk, k), Replay(Lookup(init, k), On(log[..Start(log)], k, Committed(log))),
      On(log[Start(log)..], k, Winners(log)), On(log, k, Losers(log)))
  }

  /** The losers' changes to a key are all of those of the open transactions, or none. */
  lemma AllOrNothingLost(init: Store, log: Log, k: Key, columns: Columns)
    requires IsRun(init, log, columns) && Losers(log) <= Unfinished(log)
    ensures On(log, k, Losers(log)) == On(log, k, Unfinished(log)) || On(log, k, Losers(log)) == []
  {
    RunSettles(init, log, k, columns);
    if t :| t in Losers(log) && On(log, k, {t}) != [] {
      OwnerAlone(init, log, t, k, columns);
      OnSame(log, k, Losers(log), {t});
    } else {
      OnSame(log, k, Losers(log), {});
      OnNobody(log, k);
    }
  }

  /** Recovery of one key from any disk state x, where the losers' changes are all the open ones or none. */
  lemma CellIsDecided(x: Cell, c: Cell, early: seq<Change>, won: seq<Change>, open: seq<Change>, lost: seq<Change>, columns: set<string>)
    requires HasColumns(x, columns) && Chain(c, (early + won) + open, columns) && (lost == open || lost == [])
    ensures UndoAll(Replay(x, won), lost) == Replay(c, early + won) <==> RecoveryRepairs(x, Replay(c, early), won, lost)
  {
    assert (early + won) + open == early + (won + open);
    ChainSuffix(c, early, won + open, columns);
    ReplayConcat(c, early, won);
    if lost == [] {
      ChainSuffix(Replay(c, early), won, open, columns);
      assert won + lost == won;
    }
    CellIsRecovered(x, Replay(c, early), won, lost, columns);
  }

  lemma KeyIsDecided(init: Store, log: Log, disk: Store, k: Key, columns: Columns)
    requires IsRun(init, log, columns) && Losers(log) <= Unfinished(log) && HasColumns(Lookup(disk, k), columns(k.table))
    ensures Lookup(Recover(disk, log), k) == Lookup(CommittedStore(init, log), k) <==> Repairable(init, log, disk, k)
  {
    var early, won, open := On(log[..Start(log)], k, Committed(log)), On(log[Start(log)..], k, Winners(log)), On(log, k, Unfinished(log));
    RunSettles(init, log, k, columns);
    CommittedSplit(init, log, k, columns);
    RecoverAt(init, log, disk, k, columns);
    AllOrNothingLost(init, log, k, columns);
    CellIsDecided(Lookup(disk, k), Lookup(init, k), early, won, open, On(log, k, Losers(log)), columns(k.table));
  }

  /** From any disk whatever, recovery gives the committed store if and only if what it redoes and
      undoes repairs every key. */
  lemma RecoveryIsDecided(init: Store, log: Log, disk: Store, columns: Columns)
    requires IsRun(init, log, columns) && Losers(log) <= Unfinished(log) && RowsOfTables(disk, columns)
    ensures Recover(disk, log) == CommittedStore(init, log) <==> forall k :: Repairable(init, log, disk, k)
  {
    forall k
      ensures Lookup(Recover(disk, log), k) == Lookup(CommittedStore(init, log), k) <==> Repairable(init, log, disk, k)
    {
      KeyIsDecided(init, log, disk, k, columns);
    }
    if forall k :: Repairable(init, log, disk, k) {
      forall k
        ensures Lookup(Recover(disk, log), k) == Lookup(CommittedStore(init, log), k)
      {
        assert Repairable(init, log, disk, k);
      }
      SameStore(Recover(disk, log), CommittedStore(init, log));
    }
  }
}
