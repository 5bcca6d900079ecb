/** The steps of RecoveryRuns that each operation of the failure recovery manager consists of. */
module RecoverySteps {
  import opened Wrappers
  import opened KeyedStore
  import opened CheckpointList
  import opened RecoveryLog
  import opened CrashRecovery
  import opened RecoveryRuns

  /** `more` leads from a run that ends in s to one that ends in s', and stays possible under `ok`. */
  ghost predicate Leads(init: Store, actions: seq<Action>, s: System, more: seq<Action>, s': System, ok: bool, columns: Columns) {
    Perform(init, actions) == s ==>
      && Perform(init, actions + more) == s'
      && (ok && Possible(init, actions, columns) ==> Possible(init, actions + more, columns))
  }

  lemma LeadsOn(init: Store, actions: seq<Action>, s: System, a: seq<Action>, s1: System, b: seq<Action>, s2: System,
                ok: bool, columns: Columns)
    requires Leads(init, actions, s, a, s1, ok, columns) && Leads(init, actions + a, s1, b, s2, ok, columns)
    ensures Leads(init, actions, s, a + b, s2, ok, columns)
  {
    assert actions + (a + b) == (actions + a) + b;
  }

  lemma Performed(init: Store, actions: seq<Action>, s: System, a: Action, columns: Columns)
    ensures Leads(init, actions, s, [a], After(s, a), Enabled(init, s, a, columns), columns)
  {
    assert (actions + [a])[..|actions|] == actions;
  }

  // ---------- checkpoints, completed ----------

  /** No checkpoint was begun and not completed. */
  ghost predicate Completed(actions: seq<Action>) {
    actions == [] ||
    match actions[|actions| - 1]
    case CheckpointStart => false
    case CheckpointEnd => true
    case _ => Completed(actions[..|actions| - 1])
  }

  lemma CompletedSnoc(actions: seq<Action>, a: Action)
    ensures Completed(actions + [a]) <==> !a.CheckpointStart? && (a.CheckpointEnd? || Completed(actions))
  {
    assert (actions + [a])[..|actions|] == actions;
  }

  lemma EndQueryIsNoStart(active: set<Tid>)
    ensures EndQuery(active) != START_QUERY
  {
    assert EndQuery(active)[11] == 'E' && START_QUERY[11] == 'S';
  }

  /** What one action makes of the log file, as far as checkpoints go. */
  lemma StaysClosed(init: Store, s: System, a: Action, columns: Columns)
    requires LogOk(init, s, columns) && !CheckpointOpen(s.durable) && !a.CheckpointStart?
    ensures !CheckpointOpen(After(s, a).durable)
  {
    if a == FlushEntry && s.buffer != [] {
      assert BufferedAt(s.durable, s.buffer, 0);
      OpenSnoc(s.durable, s.buffer[0]);
    } else if a == FinishAbort && s.aborting.Some? {
      OpenSnoc(s.durable, Abort(s.aborting.value.t));
    } else if a == CheckpointEnd {
      EndCloses(s);
    }
  }

  lemma EndCloses(s: System)
    ensures !CheckpointOpen(After(s, CheckpointEnd).durable)
  {
    EndQueryIsNoStart(Unfinished(s.durable));
    OpenSnoc(s.durable, Checkpoint(EndQuery(Unfinished(s.durable))));
  }

  /** When every checkpoint of a run is completed, the log file is closed. */
  lemma {:induction false} CompletedIsClosed(init: Store, actions: seq<Action>, columns: Columns)
    requires HasTables(init, columns) && Possible(init, actions, columns) && Completed(actions)
    ensures !CheckpointOpen(Perform(init, actions).durable)
  {
    if actions != [] {
      var front, a := actions[..|actions| - 1], actions[|actions| - 1];
      if a.CheckpointEnd? {
        EndCloses(Perform(init, front));
      } else {
        RunsAreSound(init, front, columns);
        CompletedIsClosed(init, front, columns);
        StaysClosed(init, Perform(init, front), a, columns);
      }
    }
  }

  // ---------- flushing ----------

  function Flushes(n: nat): seq<Action> {
    if n == 0 then [] else Flushes(n - 1) + [FlushEntry]
  }

  lemma {:induction false} FlushesKeepCompleted(actions: seq<Action>, n: nat)
    requires Completed(actions)
    ensures Completed(actions + Flushes(n))
  {
    if n == 0 {
      assert actions + [] == actions;
    } else {
      FlushesKeepCompleted(actions, n - 1);
      assert actions + Flushes(n) == (actions + Flushes(n - 1)) + [FlushEntry];
      CompletedSnoc(actions + Flushes(n - 1), FlushEntry);
    }
  }

  function Flushed(s: System): System {
    s.(durable := FullLog(s), buffer := [])
  }

  lemma FlushOneMore(s: System, n: nat)
    requires n < |s.buffer|
    ensures After(s.(durable := s.durable + s.buffer[..n], buffer := s.buffer[n..]), FlushEntry) ==
      s.(durable := s.durable + s.buffer[..n + 1], buffer := s.buffer[n + 1..])
  {
    assert s.buffer[..n + 1] == s.buffer[..n] + [s.buffer[n]];
  }

  lemma {:induction false} FlushSome(init: Store, actions: seq<Action>, s: System, n: nat, columns: Columns)
    requires n <= |s.buffer|
    ensures Leads(init, actions, s, Flushes(n), s.(durable := s.durable + s.buffer[..n], buffer := s.buffer[n..]), true, columns)
  {
    if n == 0 {
      assert actions + Flushes(0) == actions;
      assert s.durable + s.buffer[..0] == s.durable && s.buffer[0..] == s.buffer;
    } else {
      var mid := s.(durable := s.durable + s.buffer[..n - 1], buffer := s.buffer[n - 1..]);
      FlushSome(init, actions, s, n - 1, columns);
      Performed(init, actions + Flushes(n - 1), mid, FlushEntry, columns);
      FlushOneMore(s, n - 1);
      LeadsOn(init, actions, s, Flushes(n - 1), mid, [FlushEntry], After(mid, FlushEntry), true, columns);
    }
  }

  lemma FlushAll(init: Store, actions: seq<Action>, s: System, columns: Columns)
    ensures Leads(init, actions, s, Flushes(|s.buffer|), Flushed(s), true, columns)
  {
    FlushSome(init, actions, s, |s.buffer|, columns);
    assert s.buffer[..|s.buffer|] == s.buffer && s.buffer[|s.buffer|..] == [];
  }

  // ---------- abort ----------

  lemma QuietAbortSteps(init: Store, actions: seq<Action>, s: System, t: Tid, columns: Columns)
    requires s.aborting.None? && NeverChanged(FullLog(s), t)
    ensures var s' := s.(durable := FullLog(s) + [Abort(t)], buffer := []);
      Leads(init, actions, s, [Append(Abort(t))] + Flushes(|s.buffer| + 1), s', t in Unfinished(FullLog(s)), columns)
  {
    var ok := t in Unfinished(FullLog(s));
    var s1 := After(s, Append(Abort(t)));
    Performed(init, actions, s, Append(Abort(t)), columns);
    FlushAll(init, actions + [Append(Abort(t))], s1, columns);
    LeadsOn(init, actions, s, [Append(Abort(t))], s1, Flushes(|s1.buffer|), Flushed(s1), ok, columns);
    assert FullLog(s1) == FullLog(s) + [Abort(t)];
  }

  function Undos(n: nat): seq<Action> {
    if n == 0 then [] else Undos(n - 1) + [UndoOne]
  }

  lemma {:induction false} UndosKeepCompleted(actions: seq<Action>, n: nat)
    requires Completed(actions)
    ensures Completed(actions + Undos(n))
  {
    if n == 0 {
      assert actions + [] == actions;
    } else {
      UndosKeepCompleted(actions, n - 1);
      assert actions + Undos(n) == (actions + Undos(n - 1)) + [UndoOne];
      CompletedSnoc(actions + Undos(n - 1), UndoOne);
    }
  }

  function Undone(s: System, t: Tid, m: nat): System
    requires m <= |s.durable|
  {
    s.(store := UndoTxn(s.store, s.durable[m..], t), aborting := Some(Undoing(t, m)))
  }

  /** Looking at the last n entries of the log. */
  lemma {:induction false} UndoSome(init: Store, actions: seq<Action>, s: System, t: Tid, n: nat, columns: Columns)
    requires s.aborting == Some(Undoing(t, |s.durable|)) && n <= |s.durable|
    ensures Leads(init, actions, s, Undos(n), Undone(s, t, |s.durable| - n), true, columns)
  {
    var m := |s.durable| - n;
    if n == 0 {
      assert actions + Undos(0) == actions;
      assert s.durable[m..] == [];
    } else {
      var mid := Undone(s, t, m + 1);
      UndoSome(init, actions, s, t, n - 1, columns);
      Performed(init, actions + Undos(n - 1), mid, UndoOne, columns);
      assert After(mid, UndoOne) == Undone(s, t, m) by {
        assert s.durable[m..] == [s.durable[m]] + s.durable[m + 1..];
        UndoTxnCons(s.store, s.durable[m], s.durable[m + 1..], t);
      }
      LeadsOn(init, actions, s, Undos(n - 1), mid, [UndoOne], After(mid, UndoOne), true, columns);
    }
  }

  function AbortActions(buffered: nat, logged: nat, t: Tid): seq<Action> {
    Flushes(buffered) + [StartAbort(t)] + Undos(logged) + [FlushData] + [FinishAbort]
  }

  lemma AbortKeepsCompleted(actions: seq<Action>, buffered: nat, logged: nat, t: Tid)
    requires Completed(actions)
    ensures Completed(actions + AbortActions(buffered, logged, t))
  {
    var a := actions + Flushes(buffered);
    FlushesKeepCompleted(actions, buffered);
    CompletedSnoc(a, StartAbort(t));
    var b := a + [StartAbort(t)] + Undos(logged);
    UndosKeepCompleted(a + [StartAbort(t)], logged);
    CompletedSnoc(b, FlushData);
    CompletedSnoc(b + [FlushData], FinishAbort);
    assert actions + AbortActions(buffered, logged, t) == b + [FlushData] + [FinishAbort];
  }

  function AfterAbort(s: System, t: Tid): System {
    var store := UndoTxn(s.store, FullLog(s), t);
    System(store, store, FullLog(s) + [Abort(t)], [], None)
  }

  /** The log to the file, the undo from its last entry to its first, the pages to disk, the ABORT
      entry. */
  lemma AbortSteps(init: Store, actions: seq<Action>, s: System, t: Tid, columns: Columns)
    requires s.aborting.None?
    ensures Leads(init, actions, s, AbortActions(|s.buffer|, |FullLog(s)|, t), AfterAbort(s, t), t in Unfinished(FullLog(s)), columns)
  {
    var ok := t in Unfinished(FullLog(s));
    var s1 := Flushed(s);
    var s2 := After(s1, StartAbort(t));
    var a1 := Flushes(|s.buffer|);
    var a2 := a1 + [StartAbort(t)];
    FlushAll(init, actions, s, columns);
    Performed(init, actions + a1, s1, StartAbort(t), columns);
    LeadsOn(init, actions, s, a1, s1, [StartAbort(t)], s2, ok, columns);
    var n := |FullLog(s)|;
    var s3 := Undone(s2, t, 0);
    UndoSome(init, actions + a2, s2, t, n, columns);
    LeadsOn(init, actions, s, a2, s2, Undos(n), s3, ok, columns);
    assert s2.durable[0..] == s2.durable;
    FinishSteps(init, actions, s, a2 + Undos(n), s3, ok, columns);
  }

  lemma FinishSteps(init: Store, actions: seq<Action>, s: System, a: seq<Action>, s3: System, ok: bool, columns: Columns)
    requires Leads(init, actions, s, a, s3, ok, columns)
    requires s3.aborting.Some? && s3.aborting.value.n == 0 && s3.buffer == []
    ensures Leads(init, actions, s, a + [FlushData] + [FinishAbort], After(After(s3, FlushData), FinishAbort), ok, columns)
  {
    var s4 := After(s3, FlushData);
    Performed(init, actions + a, s3, FlushData, columns);
    LeadsOn(init, actions, s, a, s3, [FlushData], s4, ok, columns);
    Performed(init, actions + (a + [FlushData]), s4, FinishAbort, columns);
    LeadsOn(init, actions, s, a + [FlushData], s4, [FinishAbort], After(s4, FinishAbort), ok, columns);
  }

  // ---------- checkpoint ----------

  function CheckpointActions(buffered: nat): seq<Action> {
    Flushes(buffered) + [CheckpointStart] + [FlushData] + [CheckpointEnd]
  }

  lemma CheckpointIsCompleted(actions: seq<Action>, buffered: nat)
    ensures Completed(actions + CheckpointActions(buffered))
  {
    var front := actions + (Flushes(buffered) + [CheckpointStart] + [FlushData]);
    CompletedSnoc(front, CheckpointEnd);
    assert actions + CheckpointActions(buffered) == front + [CheckpointEnd];
  }

  function AfterCheckpoint(s: System): System {
    s.(disk := s.store, buffer := [],
       durable := FullLog(s) + [Checkpoint(START_QUERY)] + [Checkpoint(EndQuery(Unfinished(FullLog(s))))])
  }

  lemma CheckpointSteps(init: Store, actions: seq<Action>, s: System, columns: Columns)
    requires s.aborting.None?
    ensures Leads(init, actions, s, CheckpointActions(|s.buffer|), AfterCheckpoint(s), true, columns)
  {
    var s1 := Flushed(s);
    var a1 := Flushes(|s.buffer|);
    FlushAll(init, actions, s, columns);
    Performed(init, actions + a1, s1, CheckpointStart, columns);
    LeadsOn(init, actions, s, a1, s1, [CheckpointStart], After(s1, CheckpointStart), true, columns);
    LogSnoc(FullLog(s), Checkpoint(START_QUERY));
    CheckpointRest(init, actions, s, a1 + [CheckpointStart], After(s1, CheckpointStart), columns);
  }

  lemma CheckpointRest(init: Store, actions: seq<Action>, s: System, a: seq<Action>, s2: System, columns: Columns)
    requires Leads(init, actions, s, a, s2, true, columns) && s2.aborting.None? && s2.buffer == []
    ensures Leads(init, actions, s, a + [FlushData] + [CheckpointEnd], After(After(s2, FlushData), CheckpointEnd), true, columns)
  {
    var s3 := After(s2, FlushData);
    Performed(init, actions + a, s2, FlushData, columns);
    LeadsOn(init, actions, s, a, s2, [FlushData], s3, true, columns);
    Performed(init, actions + (a + [FlushData]), s3, CheckpointEnd, columns);
    LeadsOn(init, actions, s, a + [FlushData], s3, [CheckpointEnd], After(s3, CheckpointEnd), true, columns);
  }
}
