/** The steps between two crashes. */
module RecoveryRuns {
  // Every step the recovery manager and the buffer pool take, and what all of them keep: the disk
  // always is a state from which recovery finds the committed store.

  import opened Wrappers
  import opened KeyedStore
  import opened CheckpointList
  import opened RecoveryLog
  import opened CrashRecovery

  /** `store` is what readers see, `disk` what a crash leaves, `durable` the log file, `buffer`
      the log entries not yet in it. An abort in progress has still to look at the first n entries. */
  datatype System = System(store: Store, disk: Store, durable: Log, buffer: Log, aborting: Option<Undoing>)

  datatype Undoing = Undoing(t: Tid, n: nat)

  function FullLog(s: System): Log {
    s.durable + s.buffer
  }

  predicate Buffered(e: Entry) {
    !e.Checkpoint?
  }

  ghost predicate NeverChanged(log: Log, t: Tid) {
    forall i :: 0 <= i < |log| && log[i].Changed? ==> log[i].t != t
  }

  /** Only a transaction that changed nothing is aborted through the buffer. */
  ghost predicate QuietAbort(log: Log, e: Entry) {
    e.Abort? ==> NeverChanged(log, e.t)
  }

  datatype Action =
    | Append(e: Entry)         // an entry into the buffer; a change takes effect in the store
    | FlushEntry               // the oldest buffered entry into the log file
    | FlushData                // every page to disk
    | Evict(k: Key)            // one key's page to disk
    | StartAbort(t: Tid)
    | UndoOne                  // one entry looked at, latest first
    | FinishAbort              // the ABORT entry into the log file
    | CheckpointStart
    | CheckpointEnd

  /** When an action may happen. Eviction obeys the write-ahead rule. */
  ghost predicate Enabled(init: Store, s: System, a: Action, columns: Columns) {
    match a
    case Append(e) =>
      s.aborting.None? && Buffered(e) && (e.Begin? ==> IsInt(e.t)) && QuietAbort(FullLog(s), e)
      && MayAppend(init, FullLog(s), e, columns)
    case FlushEntry => s.buffer != []
    case FlushData => s.buffer == []
    case Evict(k) => forall i :: 0 <= i < |s.buffer| && s.buffer[i].Changed? ==> s.buffer[i].key != k
    case StartAbort(t) => s.aborting.None? && s.buffer == [] && t in Unfinished(s.durable)
    case UndoOne => s.aborting.Some? && 0 < s.aborting.value.n <= |s.durable|
    case FinishAbort => s.aborting.Some? && s.aborting.value.n == 0 && s.disk == s.store
    case CheckpointStart => s.aborting.None? && s.buffer == []
    case CheckpointEnd => s.aborting.None? && s.buffer == [] && s.disk == s.store
  }

  function UndoIf(store: Store, e: Entry, t: Tid): Store {
    if e.Changed? && e.t == t then UndoEntry(store, e) else store
  }

  function After(s: System, a: Action): System {
    match a
    case Append(e) => s.(buffer := s.buffer + [e], store := if e.Changed? then RedoEntry(s.store, e) else s.store)
    case FlushEntry => if s.buffer == [] then s else s.(durable := s.durable + [s.buffer[0]], buffer := s.buffer[1..])
    case FlushData => s.(disk := s.store)
    case Evict(k) => s.(disk := if k in s.store then s.disk[k := s.store[k]] else s.disk - {k})
    case StartAbort(t) => s.(aborting := Some(Undoing(t, |s.durable|)))
    case UndoOne =>
      if s.aborting.Some? && 0 < s.aborting.value.n <= |s.durable| then
        var Undoing(t, n) := s.aborting.value;
        s.(store := UndoIf(s.store, s.durable[n - 1], t), aborting := Some(Undoing(t, n - 1)))
      else s
    case FinishAbort =>
      if s.aborting.Some? then s.(durable := s.durable + [Abort(s.aborting.value.t)], aborting := None) else s
    case CheckpointStart => s.(durable := s.durable + [Checkpoint(START_QUERY)])
    case CheckpointEnd => s.(durable := s.durable + [Checkpoint(EndQuery(Unfinished(s.durable)))])
  }

  // ---------- the invariant ----------

  /** The index of the last completed checkpoint, 0 without any. */
  function LastEnd(log: Log): (i: nat)
    ensures i <= |log|
  {
    if log == [] then 0
    else
      var e := log[|log| - 1];
      if e.Checkpoint? && e.query != START_QUERY then |log| - 1 else LastEnd(log[..|log| - 1])
  }

  function Kept(log: Log): set<Tid> {
    Committed(log) + Unfinished(log)
  }

  /** Checkpoints print what is unfinished, or mark a start. */
  ghost predicate HonestLists(log: Log) {
    forall i :: 0 <= i < |log| && log[i].Checkpoint? ==>
      log[i].query == START_QUERY || log[i].query == EndQuery(Unfinished(log[..i]))
  }

  ghost predicate DiskPoint(init: Store, log: Log, disk: Store, k: Key, least: nat, p: nat) {
    var all := On(log, k, Kept(log));
    least <= p <= |all| && Lookup(disk, k) == At(Lookup(init, k), all, p)
  }

  /** What the disk has of k: everything up to the last completed checkpoint and some prefix of
      the rest. Of a key that is being undone it has at least what is committed. */
  ghost predicate DiskKey(init: Store, s: System, k: Key) {
    || (exists p: nat :: DiskPoint(init, s.durable, s.disk, k, |On(s.durable[..LastEnd(s.durable)], k, Kept(s.durable))|, p))
    || (s.aborting.Some? && On(s.durable, k, {s.aborting.value.t}) != []
        && exists p: nat :: DiskPoint(init, s.durable, s.disk, k, |On(s.durable, k, Committed(s.durable))|, p))
  }

  ghost predicate StoreOk(init: Store, s: System) {
    match s.aborting
    case None => s.store == Live(init, FullLog(s))
    case Some(Undoing(t, n)) =>
      s.buffer == [] && t in Unfinished(s.durable) && n <= |s.durable|
      && s.store == UndoTxn(Live(init, s.durable), s.durable[n..], t)
  }

  predicate IsInt(t: Tid) {
    INT_MIN <= t <= INT_MAX
  }

  ghost predicate BufferedAt(durable: Log, buffer: Log, i: nat)
    requires i < |buffer|
  {
    Buffered(buffer[i]) && QuietAbort(durable + buffer[..i], buffer[i])
  }

  ghost predicate BufferOk(durable: Log, buffer: Log) {
    forall i :: 0 <= i < |buffer| ==> BufferedAt(durable, buffer, i)
  }

  ghost predicate LogOk(init: Store, s: System, columns: Columns) {
    && IsRun(init, FullLog(s), columns)
    && (forall t :: t in Begun(FullLog(s)) ==> IsInt(t))
    && BufferOk(s.durable, s.buffer)
    && HonestLists(s.durable)
    && StoreOk(init, s)
  }

  ghost predicate Sound(init: Store, s: System, columns: Columns) {
    LogOk(init, s, columns) && forall k :: DiskKey(init, s, k)
  }

  // ---------- facts about extending the durable log ----------

  lemma {:induction false} OnSubset(log: Log, k: Key, a: set<Tid>, b: set<Tid>)
    requires a <= b
    ensures |On(log, k, a)| <= |On(log, k, b)|
  {
    if log != [] {
      OnSubset(log[..|log| - 1], k, a, b);
    }
  }

  lemma EarlyIsPrefix(log: Log, n: nat, k: Key, who: set<Tid>)
    requires n <= |log|
    ensures |On(log[..n], k, who)| <= |On(log, k, who)|
  {
    OnConcat(log[..n], log[n..], k, who);
    assert log[..n] + log[n..] == log;
  }

  /** A buffered entry reaching the log file moves nothing among the kept changes. */
  lemma KeptGrows(init: Store, log: Log, e: Entry, n: nat, k: Key, columns: Columns)
    requires IsRun(init, log, columns) && Buffered(e) && QuietAbort(log, e) && MayAppend(init, log, e, columns) && n <= |log|
    ensures On(log, k, Kept(log)) <= On(log + [e], k, Kept(log + [e]))
    ensures On((log + [e])[..n], k, Kept(log + [e])) == On(log[..n], k, Kept(log))
    ensures LastEnd(log + [e]) == LastEnd(log)
  {
    assert (log + [e])[..|log|] == log && (log + [e])[..n] == log[..n];
    LogSnoc(log, e);
    RunLifecycle(init, log, columns);
    OnSnoc(log, e, k, Kept(log + [e]));
    if e.Begin? {
      NothingYet(log, k, e.t);
      assert log[..n] + log[n..] == log;
      OnConcat(log[..n], log[n..], k, {e.t});
      OnSame(log, k, Kept(log), Kept(log + [e]));
      OnSame(log[..n], k, Kept(log), Kept(log + [e]));
    } else if e.Abort? {
      NoChanges(log, k, e.t);
      NoChanges(log[..n], k, e.t);
      OnSame(log, k, Kept(log), Kept(log + [e]));
      OnSame(log[..n], k, Kept(log), Kept(log + [e]));
    } else {
      assert Kept(log + [e]) == Kept(log);
    }
  }

  lemma LiveAtKey(init: Store, log: Log, k: Key, columns: Columns)
    requires IsRun(init, log, columns)
    ensures Lookup(Live(init, log), k) == Replay(Lookup(init, k), On(log, k, Kept(log)))
    ensures |On(log, k, Committed(log))| <= |On(log, k, Kept(log))|
  {
    RunSettles(init, log, k, columns);
  }

  lemma BufferOkInit(durable: Log, buffer: Log)
    requires BufferOk(durable, buffer) && buffer != []
    ensures BufferOk(durable, buffer[..|buffer| - 1])
  {
    var front := buffer[..|buffer| - 1];
    forall i: nat | i < |front|
      ensures BufferedAt(durable, front, i)
    {
      assert BufferedAt(durable, buffer, i) && front[..i] == buffer[..i];
    }
  }

  lemma BufferOkSnoc(durable: Log, buffer: Log, e: Entry)
    requires BufferOk(durable, buffer) && Buffered(e) && QuietAbort(durable + buffer, e)
    ensures BufferOk(durable, buffer + [e])
  {
    var buffer' := buffer + [e];
    forall i: nat | i < |buffer'|
      ensures BufferedAt(durable, buffer', i)
    {
      if i < |buffer| {
        assert BufferedAt(durable, buffer, i) && buffer'[..i] == buffer[..i];
      } else {
        assert buffer'[..i] == buffer;
      }
    }
  }

  lemma BufferOkShift(durable: Log, buffer: Log)
    requires BufferOk(durable, buffer) && buffer != []
    ensures BufferOk(durable + [buffer[0]], buffer[1..])
    ensures QuietAbort(durable, buffer[0]) && Buffered(buffer[0])
  {
    assert BufferedAt(durable, buffer, 0) && durable + buffer[..0] == durable;
    forall i: nat | i < |buffer[1..]|
      ensures BufferedAt(durable + [buffer[0]], buffer[1..], i)
    {
      assert BufferedAt(durable, buffer, i + 1);
      assert durable + [buffer[0]] + buffer[1..][..i] == durable + buffer[..i + 1];
    }
  }

  lemma {:induction false} NothingToUndo(store: Store, log: Log, t: Tid)
    requires NeverChanged(log, t)
    ensures UndoTxn(store, log, t) == store
  {
    if log != [] {
      NothingToUndo(store, log[..|log| - 1], t);
    }
  }

  /** The live store has all of the durable log's changes to a key that is not buffered. */
  lemma {:induction false} NotBuffered(init: Store, durable: Log, buffer: Log, k: Key, columns: Columns)
    requires IsRun(init, durable + buffer, columns)
    requires BufferOk(durable, buffer)
    requires forall i :: 0 <= i < |buffer| && buffer[i].Changed? ==> buffer[i].key != k
    ensures Lookup(Live(init, durable + buffer), k) == Lookup(Live(init, durable), k)
  {
    if buffer == [] {
      assert durable + buffer == durable;
    } else {
      var n := |buffer| - 1;
      var front := durable + buffer[..n];
      assert durable + buffer == front + [buffer[n]];
      assert (durable + buffer)[..|durable + buffer| - 1] == front;
      BufferOkInit(durable, buffer);
      NotBuffered(init, durable, buffer[..n], k, columns);
      assert BufferedAt(durable, buffer, n);
      if buffer[n].Abort? {
        NothingToUndo(Live(init, front), front, buffer[n].t);
      }
      if buffer[n].Changed? {
        EntryAt(Live(init, front), buffer[n], k);
      }
    }
  }

  // ---------- every action keeps the system sound ----------

  lemma AppendStore(init: Store, log: Log, e: Entry)
    requires Buffered(e) && QuietAbort(log, e)
    ensures Live(init, log + [e]) == if e.Changed? then RedoEntry(Live(init, log), e) else Live(init, log)
  {
    assert (log + [e])[..|log|] == log;
    if e.Abort? {
      NothingToUndo(Live(init, log), log, e.t);
    }
  }

  lemma AppendLog(init: Store, s: System, e: Entry, columns: Columns)
    requires LogOk(init, s, columns) && Enabled(init, s, Append(e), columns)
    ensures LogOk(init, After(s, Append(e)), columns)
  {
    var s' := After(s, Append(e));
    assert FullLog(s') == FullLog(s) + [e];
    assert FullLog(s')[..|FullLog(s)|] == FullLog(s);
    LogSnoc(FullLog(s), e);
    AppendStore(init, FullLog(s), e);
    BufferOkSnoc(s.durable, s.buffer, e);
  }

  lemma AppendKeeps(init: Store, s: System, e: Entry, columns: Columns)
    requires Sound(init, s, columns) && Enabled(init, s, Append(e), columns)
    ensures Sound(init, After(s, Append(e)), columns)
  {
    AppendLog(init, s, e, columns);
    forall k
      ensures DiskKey(init, After(s, Append(e)), k)
    {
      assert DiskKey(init, s, k);
    }
  }

  lemma FlushEntryKey(init: Store, s: System, k: Key, columns: Columns)
    requires Sound(init, s, columns) && s.buffer != []
    ensures DiskKey(init, After(s, FlushEntry), k)
  {
    var e, log := s.buffer[0], s.durable;
    var log' := log + [e];
    assert FullLog(s)[..|log|] == log && FullLog(s)[..|log'|] == log';
    BufferOkShift(log, s.buffer);
    RunPrefix(init, FullLog(s), |log|, columns);
    RunPrefix(init, FullLog(s), |log'|, columns);
    assert log'[..|log|] == log;
    KeptGrows(init, log, e, LastEnd(log), k, columns);
    assert DiskKey(init, s, k);
    var least := |On(log[..LastEnd(log)], k, Kept(log))|;
    var p: nat :| DiskPoint(init, log, s.disk, k, least, p);
    var all, all' := On(log, k, Kept(log)), On(log', k, Kept(log'));
    assert all'[..p] == all[..p];
    assert DiskPoint(init, log', s.disk, k, least, p);
  }

  lemma FlushEntryLog(init: Store, s: System, columns: Columns)
    requires LogOk(init, s, columns) && s.buffer != []
    ensures LogOk(init, After(s, FlushEntry), columns)
  {
    var s' := After(s, FlushEntry);
    assert FullLog(s') == FullLog(s);
    BufferOkShift(s.durable, s.buffer);
    assert forall i :: 0 <= i < |s.durable| ==> s'.durable[i] == s.durable[i] && s'.durable[..i] == s.durable[..i];
  }

  lemma FlushEntryKeeps(init: Store, s: System, columns: Columns)
    requires Sound(init, s, columns) && Enabled(init, s, FlushEntry, columns)
    ensures Sound(init, After(s, FlushEntry), columns)
  {
    var s' := After(s, FlushEntry);
    FlushEntryLog(init, s, columns);
    forall k
      ensures DiskKey(init, s', k)
    {
      FlushEntryKey(init, s, k, columns);
    }
  }

  /** Writing one key's live value to disk, when nothing is being undone. */
  lemma WrittenLive(init: Store, s: System, disk: Store, k: Key, columns: Columns)
    requires LogOk(init, s, columns) && s.aborting.None? && Lookup(disk, k) == Lookup(s.store, k)
    requires forall i :: 0 <= i < |s.buffer| && s.buffer[i].Changed? ==> s.buffer[i].key != k
    ensures DiskKey(init, s.(disk := disk), k)
  {
    var log := s.durable;
    NotBuffered(init, log, s.buffer, k, columns);
    assert FullLog(s)[..|log|] == log;
    RunPrefix(init, FullLog(s), |log|, columns);
    LiveAtKey(init, log, k, columns);
    EarlyIsPrefix(log, LastEnd(log), k, Kept(log));
    var all := On(log, k, Kept(log));
    assert all[..|all|] == all;
    assert DiskPoint(init, log, disk, k, |On(log[..LastEnd(log)], k, Kept(log))|, |all|);
  }

  /** Writing one key's live value to disk, when t is being undone. */
  lemma WrittenUndoing(init: Store, s: System, disk: Store, k: Key, columns: Columns)
    requires LogOk(init, s, columns) && s.aborting.Some? && Lookup(disk, k) == Lookup(s.store, k)
    ensures DiskKey(init, s.(disk := disk), k)
  {
    var log, t, n := s.durable, s.aborting.value.t, s.aborting.value.n;
    assert FullLog(s) == log && log[..n] + log[n..] == log;
    UndoTxnAt(Live(init, log), log[n..], t, k);
    if On(log, k, {t}) == [] {
      OnConcat(log[..n], log[n..], k, {t});
      LiveAtKey(init, log, k, columns);
      EarlyIsPrefix(log, LastEnd(log), k, Kept(log));
      var all := On(log, k, Kept(log));
      assert all[..|all|] == all;
      assert DiskPoint(init, log, disk, k, |On(log[..LastEnd(log)], k, Kept(log))|, |all|);
    } else {
      UndoneKey(init, log, t, n, k, columns);
      assert DiskPoint(init, log, disk, k, |On(log, k, Committed(log))|, |On(log, k, Committed(log))| + |On(log[..n], k, {t})|);
    }
  }

  lemma WrittenKey(init: Store, s: System, disk: Store, k: Key, columns: Columns)
    requires LogOk(init, s, columns) && Lookup(disk, k) == Lookup(s.store, k)
    requires forall i :: 0 <= i < |s.buffer| && s.buffer[i].Changed? ==> s.buffer[i].key != k
    ensures DiskKey(init, s.(disk := disk), k)
  {
    if s.aborting.None? {
      WrittenLive(init, s, disk, k, columns);
    } else {
      WrittenUndoing(init, s, disk, k, columns);
    }
  }

  lemma UndoTail(c: Cell, front: seq<Change>, back: seq<Change>, columns: set<string>)
    requires Chain(c, front + back, columns)
    ensures UndoAll(Replay(c, front + back), back) == At(c, front + back, |front|)
  {
    ChainSuffix(c, front, back, columns);
    ReplayConcat(c, front, back);
    assert back[..|back|] == back;
    UndoFromAnyPoint(Replay(c, front), back, |back|, columns);
    assert (front + back)[..|front|] == front;
  }

  /** Part of t's changes to k undone: a prefix of them remains. */
  lemma UndoneKey(init: Store, log: Log, t: Tid, n: nat, k: Key, columns: Columns)
    requires IsRun(init, log, columns) && t in Unfinished(log) && n <= |log| && On(log, k, {t}) != []
    ensures var p := |On(log, k, Committed(log))| + |On(log[..n], k, {t})|;
      p <= |On(log, k, Kept(log))|
      && UndoAll(Lookup(Live(init, log), k), On(log[n..], k, {t})) == At(Lookup(init, k), On(log, k, Kept(log)), p)
  {
    RunSettles(init, log, k, columns);
    OwnerAlone(init, log, t, k, columns);
    var done, front, back := On(log, k, Committed(log)), On(log[..n], k, {t}), On(log[n..], k, {t});
    OnConcat(log[..n], log[n..], k, {t});
    assert log[..n] + log[n..] == log;
    assert done + (front + back) == (done + front) + back;
    UndoTail(Lookup(init, k), done + front, back, columns(k.table));
  }

  lemma FlushDataKeeps(init: Store, s: System, columns: Columns)
    requires Sound(init, s, columns) && Enabled(init, s, FlushData, columns)
    ensures Sound(init, After(s, FlushData), columns)
  {
    var s' := After(s, FlushData);
    forall k
      ensures DiskKey(init, s', k)
    {
      WrittenKey(init, s, s.store, k, columns);
    }
  }

  lemma EvictKeeps(init: Store, s: System, k: Key, columns: Columns)
    requires Sound(init, s, columns) && Enabled(init, s, Evict(k), columns)
    ensures Sound(init, After(s, Evict(k)), columns)
  {
    var s' := After(s, Evict(k));
    forall k'
      ensures DiskKey(init, s', k')
    {
      assert DiskKey(init, s, k');
      if k' == k {
        WrittenKey(init, s, s'.disk, k, columns);
      } else {
        assert Lookup(s'.disk, k') == Lookup(s.disk, k');
        assert forall least: nat, p: nat :: DiskPoint(init, s.durable, s.disk, k', least, p) ==> DiskPoint(init, s.durable, s'.disk, k', least, p);
      }
    }
  }

  lemma {:induction false} UndoTxnCons(store: Store, e: Entry, rest: Log, t: Tid)
    ensures UndoTxn(store, [e] + rest, t) == UndoIf(UndoTxn(store, rest, t), e, t)
    decreases |rest|
  {
    if rest == [] {
      assert ([e] + rest)[..0] == [];
    } else {
      var n := |rest| - 1;
      assert ([e] + rest)[..|rest|] == [e] + rest[..n] && ([e] + rest)[|rest|] == rest[n];
      UndoTxnCons(UndoIf(store, rest[n], t), e, rest[..n], t);
    }
  }

  lemma StartAbortLog(init: Store, s: System, t: Tid, columns: Columns)
    requires LogOk(init, s, columns) && Enabled(init, s, StartAbort(t), columns)
    ensures LogOk(init, After(s, StartAbort(t)), columns)
  {
    assert FullLog(s) == s.durable && s.durable[|s.durable|..] == [];
  }

  lemma StartAbortKeeps(init: Store, s: System, t: Tid, columns: Columns)
    requires Sound(init, s, columns) && Enabled(init, s, StartAbort(t), columns)
    ensures Sound(init, After(s, StartAbort(t)), columns)
  {
    StartAbortLog(init, s, t, columns);
    forall k
      ensures DiskKey(init, After(s, StartAbort(t)), k)
    {
      assert DiskKey(init, s, k);
    }
  }

  lemma UndoOneLog(init: Store, s: System, columns: Columns)
    requires LogOk(init, s, columns) && Enabled(init, s, UndoOne, columns)
    ensures LogOk(init, After(s, UndoOne), columns)
  {
    var Undoing(t, n) := s.aborting.value;
    assert s.durable[n - 1..] == [s.durable[n - 1]] + s.durable[n..];
    UndoTxnCons(Live(init, s.durable), s.durable[n - 1], s.durable[n..], t);
  }

  lemma UndoOneKeeps(init: Store, s: System, columns: Columns)
    requires Sound(init, s, columns) && Enabled(init, s, UndoOne, columns)
    ensures Sound(init, After(s, UndoOne), columns)
  {
    UndoOneLog(init, s, columns);
    forall k
      ensures DiskKey(init, After(s, UndoOne), k)
    {
      assert DiskKey(init, s, k);
    }
  }

  lemma FinishAbortLog(init: Store, s: System, columns: Columns)
    requires LogOk(init, s, columns) && Enabled(init, s, FinishAbort, columns)
    ensures LogOk(init, After(s, FinishAbort), columns)
  {
    var s' := After(s, FinishAbort);
    assert FullLog(s) == s.durable && FullLog(s') == s'.durable;
    assert s'.durable[..|s.durable|] == s.durable && s.durable[0..] == s.durable;
    assert forall i :: 0 <= i < |s.durable| ==> s'.durable[i] == s.durable[i] && s'.durable[..i] == s.durable[..i];
    LogSnoc(s.durable, Abort(s.aborting.value.t));
  }

  lemma FinishAbortKeeps(init: Store, s: System, columns: Columns)
    requires Sound(init, s, columns) && Enabled(init, s, FinishAbort, columns)
    ensures Sound(init, After(s, FinishAbort), columns)
  {
    var s' := After(s, FinishAbort);
    FinishAbortLog(init, s, columns);
    forall k
      ensures DiskKey(init, s', k)
    {
      WrittenKey(init, s', s'.store, k, columns);
    }
  }

  lemma CheckpointLog(init: Store, s: System, query: string, columns: Columns)
    requires LogOk(init, s, columns) && s.aborting.None? && s.buffer == []
    requires query == START_QUERY || query == EndQuery(Unfinished(s.durable))
    ensures LogOk(init, s.(durable := s.durable + [Checkpoint(query)]), columns)
    ensures Kept(s.durable + [Checkpoint(query)]) == Kept(s.durable)
    ensures forall k, who :: On(s.durable + [Checkpoint(query)], k, who) == On(s.durable, k, who)
  {
    var e := Checkpoint(query);
    var log' := s.durable + [e];
    assert s.durable + [] == s.durable && log' + [] == log' && log'[..|s.durable|] == s.durable;
    assert forall i :: 0 <= i < |s.durable| ==> log'[i] == s.durable[i] && log'[..i] == s.durable[..i];
    LogSnoc(s.durable, e);
    forall k, who
      ensures On(log', k, who) == On(s.durable, k, who)
    {
      OnSnoc(s.durable, e, k, who);
    }
  }

  lemma CheckpointStartKeeps(init: Store, s: System, columns: Columns)
    requires Sound(init, s, columns) && Enabled(init, s, CheckpointStart, columns)
    ensures Sound(init, After(s, CheckpointStart), columns)
  {
    var s' := After(s, CheckpointStart);
    CheckpointLog(init, s, START_QUERY, columns);
    assert s'.durable[..|s.durable|] == s.durable;
    assert LastEnd(s'.durable) == LastEnd(s.durable);
    assert s'.durable[..LastEnd(s.durable)] == s.durable[..LastEnd(s.durable)];
    forall k
      ensures DiskKey(init, s', k)
    {
      assert DiskKey(init, s, k);
      var least := |On(s.durable[..LastEnd(s.durable)], k, Kept(s.durable))|;
      var p: nat :| DiskPoint(init, s.durable, s.disk, k, least, p);
      assert DiskPoint(init, s'.durable, s'.disk, k, least, p);
    }
  }

  lemma CheckpointEndKeeps(init: Store, s: System, columns: Columns)
    requires Sound(init, s, columns) && Enabled(init, s, CheckpointEnd, columns)
    ensures Sound(init, After(s, CheckpointEnd), columns)
  {
    var s' := After(s, CheckpointEnd);
    CheckpointLog(init, s, EndQuery(Unfinished(s.durable)), columns);
    forall k
      ensures DiskKey(init, s', k)
    {
      WrittenKey(init, s', s'.store, k, columns);
    }
  }

  lemma ActionKeeps(init: Store, s: System, a: Action, columns: Columns)
    requires Sound(init, s, columns) && Enabled(init, s, a, columns)
    ensures Sound(init, After(s, a), columns)
  {
    match a
    case Append(e) => AppendKeeps(init, s, e, columns);
    case FlushEntry => FlushEntryKeeps(init, s, columns);
    case FlushData => FlushDataKeeps(init, s, columns);
    case Evict(k) => EvictKeeps(init, s, k, columns);
    case StartAbort(t) => StartAbortKeeps(init, s, t, columns);
    case UndoOne => UndoOneKeeps(init, s, columns);
    case FinishAbort => FinishAbortKeeps(init, s, columns);
    case CheckpointStart => CheckpointStartKeeps(init, s, columns);
    case CheckpointEnd => CheckpointEndKeeps(init, s, columns);
  }

  // ---------- whole runs ----------

  function Fresh(init: Store): System {
    System(init, init, [], [], None)
  }

  function Perform(init: Store, actions: seq<Action>): System {
    if actions == [] then Fresh(init) else After(Perform(init, actions[..|actions| - 1]), actions[|actions| - 1])
  }

  /** Each action was enabled when it happened. */
  ghost predicate Possible(init: Store, actions: seq<Action>, columns: Columns) {
    actions == [] ||
    var front := actions[..|actions| - 1];
    Possible(init, front, columns) && Enabled(init, Perform(init, front), actions[|actions| - 1], columns)
  }

  ghost predicate HasTables(init: Store, columns: Columns) {
    forall k :: HasColumns(Lookup(init, k), columns(k.table))
  }

  lemma FreshIsSound(init: Store, columns: Columns)
    requires HasTables(init, columns)
    ensures Sound(init, Fresh(init), columns)
  {
    var s := Fresh(init);
    assert FullLog(s) == [];
    forall k
      ensures DiskKey(init, s, k)
    {
      assert On(s.durable, k, Kept(s.durable))[..0] == [];
      assert |On(s.durable[..LastEnd(s.durable)], k, Kept(s.durable))| == 0;
      assert DiskPoint(init, s.durable, s.disk, k, 0, 0);
    }
  }

  lemma {:induction false} RunsAreSound(init: Store, actions: seq<Action>, columns: Columns)
    requires HasTables(init, columns) && Possible(init, actions, columns)
    ensures Sound(init, Perform(init, actions), columns)
  {
    if actions == [] {
      FreshIsSound(init, columns);
    } else {
      var front := actions[..|actions| - 1];
      RunsAreSound(init, front, columns);
      ActionKeeps(init, Perform(init, front), actions[|actions| - 1], columns);
    }
  }

  // ---------- crashes ----------

  lemma {:induction false} LastEndIsStart(log: Log)
    requires !CheckpointOpen(log)
    ensures LastEnd(log) == Start(log)
  {
    if log != [] && !log[|log| - 1].Checkpoint? {
      var front := log[..|log| - 1];
      assert Start(front) < |front| ==> front[Start(front)] == log[Start(front)];
      LastEndIsStart(front);
    }
  }

  /** A disk that has everything up to the last checkpoint has everything committed by then. */
  lemma CrashKey(init: Store, s: System, k: Key, columns: Columns)
    requires Sound(init, s, columns) && !CheckpointOpen(s.durable)
    ensures KeyMayHold(init, s.durable, s.disk, k)
  {
    var log := s.durable;
    assert FullLog(s)[..|log|] == log;
    RunPrefix(init, FullLog(s), |log|, columns);
    LastEndIsStart(log);
    assert DiskKey(init, s, k);
    OnSubset(log[..Start(log)], k, Committed(log), Kept(log));
    CommittedSplit(init, log, k, columns);
    var p: nat :| |On(log[..Start(log)], k, Committed(log))| <= p <= |On(log, k, Kept(log))|
      && Lookup(s.disk, k) == At(Lookup(init, k), On(log, k, Kept(log)), p);
    PointAfterCheckpoint(init, log, s.disk, k, p, columns);
  }

  lemma PointAfterEarly(c: Cell, early: seq<Change>, won: seq<Change>, open: seq<Change>, p: nat)
    requires |early| <= p <= |(early + won) + open|
    ensures At(c, (early + won) + open, p) == At(Replay(c, early), won + open, p - |early|)
  {
    assert (early + won) + open == early + (won + open);
    AmongLosers(c, early, won + open, p);
  }

  lemma PointAfterCheckpoint(init: Store, log: Log, disk: Store, k: Key, p: nat, columns: Columns)
    requires IsRun(init, log, columns)
    requires |On(log[..Start(log)], k, Committed(log))| <= p <= |On(log, k, Kept(log))|
    requires Lookup(disk, k) == At(Lookup(init, k), On(log, k, Kept(log)), p)
    ensures KeyMayHold(init, log, disk, k)
  {
    var early, won := On(log[..Start(log)], k, Committed(log)), On(log[Start(log)..], k, Winners(log));
    var open := On(log, k, Unfinished(log));
    assert On(log, k, Kept(log)) == (early + won) + open by {
      RunSettles(init, log, k, columns);
      CommittedSplit(init, log, k, columns);
    }
    PointAfterEarly(Lookup(init, k), early, won, open, p);
    assert DiskAt(init, log, disk, k, p - |early|);
  }

  lemma ListsAreExact(init: Store, s: System, columns: Columns)
    requires LogOk(init, s, columns) && !CheckpointOpen(s.durable)
    ensures Listed(s.durable) == Unfinished(s.durable[..Start(s.durable)])
  {
    var log, i := s.durable, Start(s.durable);
    if i < |log| && log[i].Checkpoint? {
      assert FullLog(s)[..i] == log[..i] && FullLog(s)[..|FullLog(s)|] == FullLog(s);
      RunPrefix(init, FullLog(s), i, columns);
      RunLifecycle(init, log[..i], columns);
      BegunConcat(log[..i], FullLog(s)[i..]);
      assert log[..i] + FullLog(s)[i..] == FullLog(s);
      ListRoundTrip(Unfinished(log[..i]));
    } else {
      NoCheckpoint(log);
    }
  }

  lemma {:induction false} NoCheckpoint(log: Log)
    requires !(Start(log) < |log| && log[Start(log)].Checkpoint?)
    ensures Start(log) == 0
  {
    if log != [] {
      var front := log[..|log| - 1];
      if Start(front) < |front| {
        assert front[Start(front)] == log[Start(front)];
      }
      NoCheckpoint(front);
    }
  }

  lemma {:induction false} BegunConcat(a: Log, b: Log)
    ensures Begun(a) <= Begun(a + b)
  {
    if b == [] {
      assert a + b == a;
    } else {
      assert a + b == (a + b[..|b| - 1]) + [b[|b| - 1]];
      LogSnoc(a + b[..|b| - 1], b[|b| - 1]);
      BegunConcat(a, b[..|b| - 1]);
    }
  }

  /** Wherever the run is when the system crashes, unless a checkpoint was begun and not
      completed, analysis finds the unfinished transactions of the log file and recovery turns
      what is on disk into exactly the committed store; recovering again changes nothing. */
  lemma EveryCrashIsRecovered(init: Store, actions: seq<Action>, columns: Columns)
    requires HasTables(init, columns) && Possible(init, actions, columns)
    requires !CheckpointOpen(Perform(init, actions).durable)
    ensures var s := Perform(init, actions);
      && Losers(s.durable) == Unfinished(s.durable)
      && Recover(s.disk, s.durable) == CommittedStore(init, s.durable)
      && Recover(Recover(s.disk, s.durable), s.durable) == Recover(s.disk, s.durable)
  {
    var s := Perform(init, actions);
    RunsAreSound(init, actions, columns);
    assert FullLog(s)[..|s.durable|] == s.durable;
    RunPrefix(init, FullLog(s), |s.durable|, columns);
    ListsAreExact(init, s, columns);
    AnalysisFindsLosers(s.durable);
    forall k
      ensures KeyMayHold(init, s.durable, s.disk, k)
    {
      CrashKey(init, s, k, columns);
    }
    RecoveryRestoresCommitted(init, s.durable, s.disk, columns);
    RecoveryIsIdempotent(init, s.durable, s.disk, columns);
  }

  /** Over every run, wherever it crashes: analysis finds exactly the unfinished transactions of
      the log file if and only if no checkpoint is open or all of the transactions active when it
      started have finished. */
  lemma WhenAnalysisIsExact(init: Store, actions: seq<Action>, columns: Columns)
    requires HasTables(init, columns) && Possible(init, actions, columns)
    ensures var log := Perform(init, actions).durable;
      Losers(log) == Unfinished(log) <==>
      (CheckpointOpen(log) ==> Unfinished(log[..Start(log)]) !! Unfinished(log))
  {
    var s := Perform(init, actions);
    RunsAreSound(init, actions, columns);
    assert FullLog(s)[..|s.durable|] == s.durable;
    RunPrefix(init, FullLog(s), |s.durable|, columns);
    if CheckpointOpen(s.durable) {
      AnalysisInOpenCheckpoint(init, s.durable, columns);
    } else {
      ListsAreExact(init, s, columns);
      AnalysisFindsLosers(s.durable);
    }
  }
}
