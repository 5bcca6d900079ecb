/** Exactly when recovery finds the committed store. */
module RecoveryExactness {
  // Over every run, also those in which a page is evicted ahead of the log, and wherever the run
  // crashes, also within a checkpoint.

  import opened Wrappers
  import opened KeyedStore
  import opened CheckpointList
  import opened RecoveryLog
  import opened CrashRecovery
  import opened RecoveryRuns

  // ---------- runs in which eviction does not look at the log ----------

  ghost predicate CanHappen(init: Store, s: System, a: Action, columns: Columns) {
    a.Evict? || Enabled(init, s, a, columns)
  }

  ghost predicate CanRun(init: Store, actions: seq<Action>, columns: Columns) {
    actions == [] ||
    var front := actions[..|actions| - 1];
    CanRun(init, front, columns) && CanHappen(init, Perform(init, front), actions[|actions| - 1], columns)
  }

  lemma {:induction false} PossibleCanRun(init: Store, actions: seq<Action>, columns: Columns)
    requires Possible(init, actions, columns)
    ensures CanRun(init, actions, columns)
  {
    if actions != [] {
      PossibleCanRun(init, actions[..|actions| - 1], columns);
    }
  }

  lemma LogKeeps(init: Store, s: System, a: Action, columns: Columns)
    requires LogOk(init, s, columns) && CanHappen(init, s, a, columns)
    ensures LogOk(init, After(s, a), columns)
  {
    match a
    case Append(e) => AppendLog(init, s, e, columns);
    case FlushEntry => FlushEntryLog(init, s, columns);
    case FlushData =>
    case Evict(_) =>
    case StartAbort(t) => StartAbortLog(init, s, t, columns);
    case UndoOne => UndoOneLog(init, s, columns);
    case FinishAbort => FinishAbortLog(init, s, columns);
    case CheckpointStart => CheckpointLog(init, s, START_QUERY, columns);
    case CheckpointEnd => CheckpointLog(init, s, EndQuery(Unfinished(s.durable)), columns);
  }

  lemma KeptHasColumns(init: Store, log: Log, k: Key, p: nat, columns: Columns)
    requires IsRun(init, log, columns) && p <= |On(log, k, Kept(log))|
    ensures HasColumns(At(Lookup(init, k), On(log, k, Kept(log)), p), columns(k.table))
  {
    RunSettles(init, log, k, columns);
    ChainPrefix(Lookup(init, k), On(log, k, Kept(log)), p, columns(k.table));
    ChainHasColumns(Lookup(init, k), On(log, k, Kept(log))[..p], columns(k.table));
  }

  lemma LiveHasColumns(init: Store, log: Log, k: Key, columns: Columns)
    requires IsRun(init, log, columns)
    ensures HasColumns(Lookup(Live(init, log), k), columns(k.table))
  {
    var all := On(log, k, Kept(log));
    LiveAtKey(init, log, k, columns);
    assert all[..|all|] == all;
    KeptHasColumns(init, log, k, |all|, columns);
  }

  /** Part of the changes of t undone. */
  lemma UndoneHasColumns(init: Store, log: Log, t: Tid, n: nat, k: Key, columns: Columns)
    requires IsRun(init, log, columns) && t in Unfinished(log) && n <= |log|
    ensures HasColumns(Lookup(UndoTxn(Live(init, log), log[n..], t), k), columns(k.table))
  {
    var a, b := log[..n], log[n..];
    assert a + b == log;
    UndoTxnAt(Live(init, log), b, t, k);
    OnConcat(a, b, k, {t});
    if On(log, k, {t}) == [] {
      assert On(b, k, {t}) == [];
      LiveHasColumns(init, log, k, columns);
    } else {
      UndoneKey(init, log, t, n, k, columns);
      KeptHasColumns(init, log, k, |On(log, k, Committed(log))| + |On(a, k, {t})|, columns);
    }
  }

  /** What readers see are rows of their tables, also while an abort is undoing. */
  lemma StoreHasRows(init: Store, s: System, columns: Columns)
    requires LogOk(init, s, columns)
    ensures RowsOfTables(s.store, columns)
  {
    forall k
      ensures HasColumns(Lookup(s.store, k), columns(k.table))
    {
      match s.aborting
      case None => LiveHasColumns(init, FullLog(s), k, columns);
      case Some(Undoing(t, n)) =>
        assert FullLog(s) == s.durable;
        UndoneHasColumns(init, s.durable, t, n, k, columns);
    }
  }

  lemma DiskKeepsRows(s: System, a: Action, columns: Columns)
    requires RowsOfTables(s.store, columns) && RowsOfTables(s.disk, columns)
    ensures RowsOfTables(After(s, a).disk, columns)
  {
    forall k
      ensures HasColumns(Lookup(After(s, a).disk, k), columns(k.table))
    {
      assert Lookup(After(s, a).disk, k) == Lookup(s.disk, k) || Lookup(After(s, a).disk, k) == Lookup(s.store, k);
    }
  }

  lemma {:induction false} RunsKeepLog(init: Store, actions: seq<Action>, columns: Columns)
    requires HasTables(init, columns) && CanRun(init, actions, columns)
    ensures var s := Perform(init, actions); LogOk(init, s, columns) && RowsOfTables(s.disk, columns)
  {
    if actions == [] {
      FreshIsSound(init, columns);
    } else {
      var front, a := actions[..|actions| - 1], actions[|actions| - 1];
      RunsKeepLog(init, front, columns);
      LogKeeps(init, Perform(init, front), a, columns);
      StoreHasRows(init, Perform(init, front), columns);
      DiskKeepsRows(Perform(init, front), a, columns);
    }
  }

  /** Analysis never takes a finished transaction for a loser. */
  lemma LosersAreOpen(init: Store, s: System, columns: Columns)
    requires LogOk(init, s, columns)
    ensures IsRun(init, s.durable, columns) && Losers(s.durable) <= Unfinished(s.durable)
  {
    assert FullLog(s)[..|s.durable|] == s.durable;
    RunPrefix(init, FullLog(s), |s.durable|, columns);
    if CheckpointOpen(s.durable) {
      AnalysisInOpenCheckpoint(init, s.durable, columns);
    } else {
      ListsAreExact(init, s, columns);
      AnalysisFindsLosers(s.durable);
    }
  }

  // ---------- every run, every crash ----------

  /** Wherever a run crashes, recovery finds the committed store if and only if what the log has it
      redo and undo repairs what the disk has of every key. */
  lemma WhenRecoveryFindsCommitted(init: Store, actions: seq<Action>, columns: Columns)
    requires HasTables(init, columns) && CanRun(init, actions, columns)
    ensures var s := Perform(init, actions);
      Recover(s.disk, s.durable) == CommittedStore(init, s.durable) <==> forall k :: Repairable(init, s.durable, s.disk, k)
  {
    var s := Perform(init, actions);
    RunsKeepLog(init, actions, columns);
    LosersAreOpen(init, s, columns);
    RecoveryIsDecided(init, s.durable, s.disk, columns);
  }

  // ---------- eviction ahead of the log ----------

  /** After a run that kept to the write-ahead rule, one page evicted at any time does no harm if and
      only if recovery repairs that key; and if the log file has nothing to redo or undo on the key,
      if and only if what was written is the committed value. */
  lemma WhenEvictionIsSafe(init: Store, actions: seq<Action>, k: Key, columns: Columns)
    requires HasTables(init, columns) && Possible(init, actions, columns)
    requires !CheckpointOpen(Perform(init, actions).durable)
    ensures var s := Perform(init, actions);
      var s' := After(s, Evict(k));
      && (Recover(s'.disk, s.durable) == CommittedStore(init, s.durable) <==> Repairable(init, s.durable, s'.disk, k))
      && (Pending(s.durable, k) == [] ==>
            (Recover(s'.disk, s.durable) == CommittedStore(init, s.durable) <==>
             Lookup(s.store, k) == Lookup(CommittedStore(init, s.durable), k)))
  {
    var s := Perform(init, actions);
    var s' := After(s, Evict(k));
    EveryCrashIsRecovered(init, actions, columns);
    PossibleCanRun(init, actions, columns);
    RunsKeepLog(init, actions, columns);
    LosersAreOpen(init, s, columns);
    StoreHasRows(init, s, columns);
    assert Lookup(s'.disk, k) == Lookup(s.store, k);
    KeyIsDecided(init, s.durable, s'.disk, k, columns);
    if Repairable(init, s.durable, s'.disk, k) {
      OnlyKeyMatters(init, s, k, columns);
    }
    if Pending(s.durable, k) == [] {
      RecoverAt(init, s.durable, s'.disk, k, columns);
    }
  }

  /** The other keys are recovered as they were. */
  lemma OnlyKeyMatters(init: Store, s: System, k: Key, columns: Columns)
    requires IsRun(init, s.durable, columns) && Recover(s.disk, s.durable) == CommittedStore(init, s.durable)
    requires Lookup(Recover(After(s, Evict(k)).disk, s.durable), k) == Lookup(CommittedStore(init, s.durable), k)
    ensures Recover(After(s, Evict(k)).disk, s.durable) == CommittedStore(init, s.durable)
  {
    var disk' := After(s, Evict(k)).disk;
    forall other
      ensures Lookup(Recover(disk', s.durable), other) == Lookup(CommittedStore(init, s.durable), other)
    {
      if other != k {
        assert Lookup(disk', other) == Lookup(s.disk, other);
        RecoverAt(init, s.durable, disk', other, columns);
        RecoverAt(init, s.durable, s.disk, other, columns);
      }
    }
    SameStore(Recover(disk', s.durable), CommittedStore(init, s.durable));
  }

  // ---------- crashes within a checkpoint ----------

  /** A crash within a checkpoint is recovered when nobody active at its start is still unfinished,
      and what was committed before its start is on disk. */
  lemma OpenCheckpointIsRecovered(init: Store, actions: seq<Action>, columns: Columns)
    requires HasTables(init, columns) && CanRun(init, actions, columns)
    requires var s := Perform(init, actions);
      && CheckpointOpen(s.durable) && Unfinished(s.durable[..Start(s.durable)]) !! Unfinished(s.durable)
      && DiskMayHold(init, s.durable, s.disk)
    ensures var s := Perform(init, actions); Recover(s.disk, s.durable) == CommittedStore(init, s.durable)
  {
    var s := Perform(init, actions);
    RunsKeepLog(init, actions, columns);
    LosersAreOpen(init, s, columns);
    AnalysisInOpenCheckpoint(init, s.durable, columns);
    RecoveryRestoresCommitted(init, s.durable, s.disk, columns);
  }

  /** Between the pages of a checkpoint and its end entry, a crash is recovered if and only if no key
      changed by a transaction active at the start differs from its committed value. */
  lemma WhenCheckpointPagesAreSafe(init: Store, actions: seq<Action>, before: Log, columns: Columns)
    requires HasTables(init, columns) && CanRun(init, actions, columns)
    requires var s := Perform(init, actions);
      && s.durable == before + [Checkpoint(START_QUERY)]
      && s.buffer == [] && s.aborting.None? && s.disk == s.store
    ensures var s := Perform(init, actions);
      Recover(s.disk, s.durable) == CommittedStore(init, s.durable) <==>
      forall k :: On(s.durable, k, Unfinished(s.durable)) != [] ==>
        Lookup(Live(init, s.durable), k) == Lookup(CommittedStore(init, s.durable), k)
  {
    var s := Perform(init, actions);
    RunsKeepLog(init, actions, columns);
    LosersAreOpen(init, s, columns);
    assert FullLog(s) == s.durable;
    NobodyAtStart(before, Checkpoint(START_QUERY));
    RecoverNobody(s.disk, s.durable);
    LiveIsCommitted(init, s.durable, columns);
  }

  /** Only keys that open transactions have changed can differ from their committed values. */
  lemma LiveIsCommitted(init: Store, log: Log, columns: Columns)
    requires IsRun(init, log, columns)
    ensures Live(init, log) == CommittedStore(init, log) <==>
      forall k :: On(log, k, Unfinished(log)) != [] ==> Lookup(Live(init, log), k) == Lookup(CommittedStore(init, log), k)
  {
    forall k | On(log, k, Unfinished(log)) == []
      ensures Lookup(Live(init, log), k) == Lookup(CommittedStore(init, log), k)
    {
      RunSettles(init, log, k, columns);
      RedoScanAt(init, log, Committed(log), k);
      assert On(log, k, Committed(log)) + [] == On(log, k, Committed(log));
    }
    if forall k :: On(log, k, Unfinished(log)) != [] ==> Lookup(Live(init, log), k) == Lookup(CommittedStore(init, log), k) {
      SameStore(Live(init, log), CommittedStore(init, log));
    }
  }
}
