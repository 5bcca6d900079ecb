/** What a log means for the store. */
module RecoveryLog {
  // The live store of a run, the committed store, aborting a transaction, and recovering from a crash.

  import opened KeyedStore
  import opened CheckpointList

  type Tid = int

  datatype Entry =
    | Begin(t: Tid)
    | Commit(t: Tid)
    | Abort(t: Tid)
    | Changed(t: Tid, key: Key, change: Change)
    | Checkpoint(query: string)
    | Other(t: Tid)  // without effect on rows

  type Log = seq<Entry>

  // ---------- who did what ----------

  /** The transactions begun and not finished. */
  function Unfinished(log: Log): set<Tid> {
    if log == [] then {}
    else Advance(Unfinished(log[..|log| - 1]), log[|log| - 1])
  }

  function Advance(unfinished: set<Tid>, e: Entry): set<Tid> {
    match e
    case Begin(t) => unfinished + {t}
    case Commit(t) => unfinished - {t}
    case Abort(t) => unfinished - {t}
    case _ => unfinished
  }

  function Committed(log: Log): set<Tid> {
    if log == [] then {}
    else
      var rest := Committed(log[..|log| - 1]);
      match log[|log| - 1]
      case Commit(t) => rest + {t}
      case _ => rest
  }

  function Begun(log: Log): set<Tid> {
    if log == [] then {}
    else
      var rest := Begun(log[..|log| - 1]);
      match log[|log| - 1]
      case Begin(t) => rest + {t}
      case _ => rest
  }

  /** The changes to k by the transactions in `who`, in log order. */
  function On(log: Log, k: Key, who: set<Tid>): seq<Change> {
    if log == [] then []
    else
      var rest := On(log[..|log| - 1], k, who);
      match log[|log| - 1]
      case Changed(t, key, change) => if key == k && t in who then rest + [change] else rest
      case _ => rest
  }

  lemma LogSnoc(log: Log, e: Entry)
    ensures Unfinished(log + [e]) == Advance(Unfinished(log), e)
    ensures Committed(log + [e]) == Committed(log) + (if e.Commit? then {e.t} else {})
    ensures Begun(log + [e]) == Begun(log) + (if e.Begin? then {e.t} else {})
  {
    assert (log + [e])[..|log|] == log;
  }

  lemma OnSnoc(log: Log, e: Entry, k: Key, who: set<Tid>)
    ensures On(log + [e], k, who) ==
      if e.Changed? && e.key == k && e.t in who then On(log, k, who) + [e.change] else On(log, k, who)
  {
    assert (log + [e])[..|log|] == log;
  }

  lemma {:induction false} OnConcat(a: Log, b: Log, k: Key, who: set<Tid>)
    ensures On(a + b, k, who) == On(a, k, who) + On(b, k, who)
  {
    if b == [] {
      assert a + b == a;
    } else {
      var n := |b| - 1;
      assert a + b == (a + b[..n]) + [b[n]] && b == b[..n] + [b[n]];
      OnSnoc(a + b[..n], b[n], k, who);
      OnSnoc(b[..n], b[n], k, who);
      OnConcat(a, b[..n], k, who);
    }
  }

  /** Transactions without a change on k do not matter for k. */
  lemma {:induction false} OnSame(log: Log, k: Key, a: set<Tid>, b: set<Tid>)
    requires forall t :: (t in a) != (t in b) ==> On(log, k, {t}) == []
    ensures On(log, k, a) == On(log, k, b)
  {
    if log != [] {
      var front, e := log[..|log| - 1], log[|log| - 1];
      assert log == front + [e];
      forall t | (t in a) != (t in b)
        ensures On(front, k, {t}) == []
      {
        OnSnoc(front, e, k, {t});
      }
      OnSame(front, k, a, b);
      if e.Changed? && e.key == k && (e.t in a) != (e.t in b) {
        OnSnoc(front, e, k, {e.t});
      }
    }
  }

  lemma {:induction false} OnNobody(log: Log, k: Key)
    ensures On(log, k, {}) == []
  {
    if log != [] {
      OnNobody(log[..|log| - 1], k);
    }
  }

  // ---------- stores ----------

  function RedoEntry(store: Store, e: Entry): Store
    requires e.Changed?
  {
    match e.change
    case Insert(row) => InsertRow(store, e.key, row)
    case Delete(_) => DeleteRow(store, e.key)
    case Update(_, after) => UpdateRow(store, e.key, after)
  }

  function UndoEntry(store: Store, e: Entry): Store
    requires e.Changed?
  {
    match e.change
    case Insert(_) => DeleteRow(store, e.key)
    case Delete(row) => InsertRow(store, e.key, row)
    case Update(before, _) => UpdateRow(store, e.key, before)
  }

  lemma EntryAt(store: Store, e: Entry, k: Key)
    requires e.Changed?
    ensures Lookup(RedoEntry(store, e), k) == if e.key == k then Redo(Lookup(store, k), e.change) else Lookup(store, k)
    ensures Lookup(UndoEntry(store, e), k) == if e.key == k then Undo(Lookup(store, k), e.change) else Lookup(store, k)
  {
  }

  lemma SameStore(a: Store, b: Store)
    requires forall k :: Lookup(a, k) == Lookup(b, k)
    ensures a == b
  {
    forall k
      ensures (k in a <==> k in b) && (k in a ==> a[k] == b[k])
    {
      assert Lookup(a, k) == Lookup(b, k);
    }
  }

  /** Redoing, forwards, the changes of the transactions in `who`. */
  function RedoScan(store: Store, log: Log, who: set<Tid>): Store {
    if log == [] then store
    else
      var s, e := RedoScan(store, log[..|log| - 1], who), log[|log| - 1];
      if e.Changed? && e.t in who then RedoEntry(s, e) else s
  }

  /** Undoing, backwards, the changes of t. */
  function UndoTxn(store: Store, log: Log, t: Tid): Store
    decreases |log|
  {
    if log == [] then store
    else
      var front, e := log[..|log| - 1], log[|log| - 1];
      UndoTxn(if e.Changed? && e.t == t then UndoEntry(store, e) else store, front, t)
  }

  /** Undoing, backwards, the changes of the transactions in `todo`, each down to its BEGIN. */
  function UndoScan(store: Store, log: Log, todo: set<Tid>): Store
    decreases |log|
  {
    if log == [] || todo == {} then store
    else
      var front, e := log[..|log| - 1], log[|log| - 1];
      match e
      case Begin(t) => UndoScan(store, front, todo - {t})
      case Changed(t, _, _) => UndoScan(if t in todo then UndoEntry(store, e) else store, front, todo)
      case _ => UndoScan(store, front, todo)
  }

  lemma {:induction false} RedoNobody(store: Store, log: Log)
    ensures RedoScan(store, log, {}) == store
  {
    if log != [] {
      RedoNobody(store, log[..|log| - 1]);
    }
  }

  lemma {:induction false} RedoScanAt(store: Store, log: Log, who: set<Tid>, k: Key)
    ensures Lookup(RedoScan(store, log, who), k) == Replay(Lookup(store, k), On(log, k, who))
  {
    if log != [] {
      var front, e := log[..|log| - 1], log[|log| - 1];
      RedoScanAt(store, front, who, k);
      if e.Changed? {
        EntryAt(RedoScan(store, front, who), e, k);
      }
    }
  }

  lemma {:induction false} UndoTxnAt(store: Store, log: Log, t: Tid, k: Key)
    ensures Lookup(UndoTxn(store, log, t), k) == UndoAll(Lookup(store, k), On(log, k, {t}))
    decreases |log|
  {
    if log != [] {
      var front, e := log[..|log| - 1], log[|log| - 1];
      if e.Changed? {
        EntryAt(store, e, k);
      }
      UndoTxnAt(if e.Changed? && e.t == t then UndoEntry(store, e) else store, front, t, k);
    }
  }

  /** No transaction changes anything before it begins. */
  ghost predicate BeginsFirst(log: Log) {
    forall i, j :: 0 <= i < j < |log| && log[i].Changed? && log[j].Begin? ==> log[i].t != log[j].t
  }

  lemma {:induction false} NoChanges(log: Log, k: Key, t: Tid)
    requires forall i :: 0 <= i < |log| && log[i].Changed? ==> log[i].t != t
    ensures On(log, k, {t}) == []
  {
    if log != [] {
      NoChanges(log[..|log| - 1], k, t);
    }
  }

  lemma {:induction false} UndoScanAt(store: Store, log: Log, todo: set<Tid>, k: Key)
    requires BeginsFirst(log)
    ensures Lookup(UndoScan(store, log, todo), k) == UndoAll(Lookup(store, k), On(log, k, todo))
    decreases |log|
  {
    if todo == {} {
      OnNobody(log, k);
    } else if log != [] {
      var front, e := log[..|log| - 1], log[|log| - 1];
      match e
      case Begin(t) =>
        assert forall i :: 0 <= i < |front| ==> front[i] == log[i];
        NoChanges(front, k, t);
        OnSame(front, k, todo, todo - {t});
        UndoScanAt(store, front, todo - {t}, k);
      case Changed(t, _, _) =>
        EntryAt(store, e, k);
        UndoScanAt(if t in todo then UndoEntry(store, e) else store, front, todo, k);
      case _ =>
        UndoScanAt(store, front, todo, k);
    }
  }

  // ---------- runs ----------

  /** The live store after a run: changes take effect at once, an abort undoes. */
  function Live(init: Store, log: Log): Store {
    if log == [] then init
    else
      var front, e := log[..|log| - 1], log[|log| - 1];
      match e
      case Changed(_, _, _) => RedoEntry(Live(init, front), e)
      case Abort(t) => UndoTxn(Live(init, front), front, t)
      case _ => Live(init, front)
  }

  type Columns = string -> set<string>  // the columns of each table

  /** The next entry of a run of strict transactions: identifiers are used once, only unfinished
      transactions act, a key is changed by one unfinished transaction at a time, and the logged
      values are those the operation met in the live store. */
  ghost predicate MayAppend(init: Store, log: Log, e: Entry, columns: Columns) {
    match e
    case Begin(t) => t !in Begun(log)
    case Commit(t) => t in Unfinished(log)
    case Abort(t) => t in Unfinished(log)
    case Changed(t, k, change) =>
      && t in Unfinished(log)
      && (forall u :: u in Unfinished(log) && u != t ==> On(log, k, {u}) == [])
      && Fits(Lookup(Live(init, log), k), change, columns(k.table))
    case _ => true
  }

  ghost predicate IsRun(init: Store, log: Log, columns: Columns) {
    if log == [] then forall k :: HasColumns(Lookup(init, k), columns(k.table))
    else
      IsRun(init, log[..|log| - 1], columns) && MayAppend(init, log[..|log| - 1], log[|log| - 1], columns)
  }

  // ---------- what a run leaves on one key ----------

  /** The committed changes to k, then those of the one unfinished transaction that has any. */
  ghost predicate Settled(init: Store, log: Log, k: Key, columns: Columns) {
    var done, open := On(log, k, Committed(log)), On(log, k, Unfinished(log));
    && On(log, k, Committed(log) + Unfinished(log)) == done + open
    && Chain(Lookup(init, k), done + open, columns(k.table))
    && Lookup(Live(init, log), k) == Replay(Lookup(init, k), done + open)
    && forall t, u :: t in Unfinished(log) && u in Unfinished(log) && t != u ==>
         On(log, k, {t}) == [] || On(log, k, {u}) == []
  }

  ghost predicate Lifecycle(log: Log) {
    && Committed(log) <= Begun(log) && Unfinished(log) <= Begun(log)
    && Committed(log) !! Unfinished(log)
    && BeginsFirst(log)
    && forall i :: 0 <= i < |log| && log[i].Changed? ==> log[i].t in Begun(log)
  }

  lemma {:induction false} RunLifecycle(init: Store, log: Log, columns: Columns)
    requires IsRun(init, log, columns)
    ensures Lifecycle(log)
  {
    if log != [] {
      var front, e := log[..|log| - 1], log[|log| - 1];
      RunLifecycle(init, front, columns);
      assert log == front + [e];
      assert forall i :: 0 <= i < |front| ==> log[i] == front[i];
    }
  }

  lemma NothingYet(log: Log, k: Key, t: Tid)
    requires Lifecycle(log) && t !in Begun(log)
    ensures On(log, k, {t}) == []
  {
    NoChanges(log, k, t);
  }

  lemma SettledBegin(init: Store, log: Log, t: Tid, k: Key, columns: Columns)
    requires Lifecycle(log) && t !in Begun(log) && Settled(init, log, k, columns)
    ensures Settled(init, log + [Begin(t)], k, columns)
  {
    var e := Begin(t);
    assert (log + [e])[..|log|] == log;
    LogSnoc(log, e);
    NothingYet(log, k, t);
    forall who
      ensures On(log + [e], k, who) == On(log, k, who)
    {
      OnSnoc(log, e, k, who);
    }
    OnSame(log, k, Unfinished(log), Unfinished(log) + {t});
    OnSame(log, k, Committed(log) + Unfinished(log), Committed(log) + (Unfinished(log) + {t}));
  }

  /** When t has changed k, it is alone in that among the unfinished ones. */
  lemma OwnerAlone(init: Store, log: Log, t: Tid, k: Key, columns: Columns)
    requires Settled(init, log, k, columns) && t in Unfinished(log) && On(log, k, {t}) != []
    ensures On(log, k, Unfinished(log) - {t}) == []
    ensures On(log, k, Unfinished(log)) == On(log, k, {t})
  {
    OnSame(log, k, Unfinished(log), {t});
    OnSame(log, k, Unfinished(log) - {t}, {});
    OnNobody(log, k);
  }

  lemma SettledCommit(init: Store, log: Log, t: Tid, k: Key, columns: Columns)
    requires Lifecycle(log) && t in Unfinished(log) && Settled(init, log, k, columns)
    ensures Settled(init, log + [Commit(t)], k, columns)
  {
    var e := Commit(t);
    assert (log + [e])[..|log|] == log;
    LogSnoc(log, e);
    forall who
      ensures On(log + [e], k, who) == On(log, k, who)
    {
      OnSnoc(log, e, k, who);
    }
    assert Committed(log) + {t} + (Unfinished(log) - {t}) == Committed(log) + Unfinished(log);
    if On(log, k, {t}) == [] {
      OnSame(log, k, Unfinished(log), Unfinished(log) - {t});
      OnSame(log, k, Committed(log), Committed(log) + {t});
    } else {
      OwnerAlone(init, log, t, k, columns);
      OnSame(log, k, Committed(log) + Unfinished(log), Committed(log) + {t});
    }
  }

  lemma SettledAbort(init: Store, log: Log, t: Tid, k: Key, columns: Columns)
    requires Lifecycle(log) && t in Unfinished(log) && Settled(init, log, k, columns)
    ensures Settled(init, log + [Abort(t)], k, columns)
  {
    var e := Abort(t);
    assert (log + [e])[..|log|] == log;
    LogSnoc(log, e);
    forall who
      ensures On(log + [e], k, who) == On(log, k, who)
    {
      OnSnoc(log, e, k, who);
    }
    UndoTxnAt(Live(init, log), log, t, k);
    if On(log, k, {t}) == [] {
      OnSame(log, k, Unfinished(log), Unfinished(log) - {t});
      OnSame(log, k, Committed(log) + Unfinished(log), Committed(log) + (Unfinished(log) - {t}));
    } else {
      OwnerAlone(init, log, t, k, columns);
      AbortedKey(init, log, t, k, columns);
      OnSame(log, k, Committed(log), Committed(log) + (Unfinished(log) - {t}));
      assert On(log, k, Committed(log)) + [] == On(log, k, Committed(log));
    }
  }

  lemma AbortedKey(init: Store, log: Log, t: Tid, k: Key, columns: Columns)
    requires Settled(init, log, k, columns) && On(log, k, Unfinished(log)) == On(log, k, {t})
    ensures Chain(Lookup(init, k), On(log, k, Committed(log)), columns(k.table))
    ensures UndoAll(Lookup(Live(init, log), k), On(log, k, {t})) == Replay(Lookup(init, k), On(log, k, Committed(log)))
  {
    var c, done, open := Lookup(init, k), On(log, k, Committed(log)), On(log, k, {t});
    ChainSuffix(c, done, open, columns(k.table));
    ReplayConcat(c, done, open);
    assert open[..|open|] == open;
    UndoFromAnyPoint(Replay(c, done), open, |open|, columns(k.table));
  }

  lemma SettledChange(init: Store, log: Log, e: Entry, k: Key, columns: Columns)
    requires Lifecycle(log) && e.Changed? && MayAppend(init, log, e, columns) && Settled(init, log, k, columns)
    ensures Settled(init, log + [e], k, columns)
  {
    assert (log + [e])[..|log|] == log;
    LogSnoc(log, e);
    EntryAt(Live(init, log), e, k);
    forall who
      ensures On(log + [e], k, who) == if e.key == k && e.t in who then On(log, k, who) + [e.change] else On(log, k, who)
    {
      OnSnoc(log, e, k, who);
    }
    if e.key == k {
      var done, open := On(log, k, Committed(log)), On(log, k, Unfinished(log));
      assert done + (open + [e.change]) == (done + open) + [e.change];
      ChainSnoc(Lookup(init, k), done + open, e.change, columns(k.table));
    }
  }

  lemma {:induction false} RunSettles(init: Store, log: Log, k: Key, columns: Columns)
    requires IsRun(init, log, columns)
    ensures Settled(init, log, k, columns)
  {
    if log != [] {
      var front, e := log[..|log| - 1], log[|log| - 1];
      assert log == front + [e];
      RunSettles(init, front, k, columns);
      RunLifecycle(init, front, columns);
      match e
      case Begin(t) => SettledBegin(init, front, t, k, columns);
      case Commit(t) => SettledCommit(init, front, t, k, columns);
      case Abort(t) => SettledAbort(init, front, t, k, columns);
      case Changed(_, _, _) => SettledChange(init, front, e, k, columns);
      case _ =>
        LogSnoc(front, e);
        forall who
          ensures On(log, k, who) == On(front, k, who)
        {
          OnSnoc(front, e, k, who);
        }
    }
  }
}
