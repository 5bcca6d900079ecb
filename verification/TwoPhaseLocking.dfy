/** The two-phase locking manager. */
module TwoPhaseLocking {
  // An object whose public calls, each under the mutex and so atomic, update the tables in place.

  import opened Histories
  import opened WaitForGraph
  import opened Collections
  import opened LockTable
  import Safety = TwoPhaseLockingSafety

  /** Of the locks of t, those in `left` are still held. */
  ghost predicate PartlyReleased(m: Manager, t: Tid, left: set<Rec>, xLocks: map<Rec, Tid>, sLocks: map<Rec, set<Tid>>) {
    && (forall r :: r in xLocks <==> r in m.xLocks && (m.xLocks[r] == t ==> r in left))
    && (forall r :: r in xLocks ==> xLocks[r] == m.xLocks[r])
    && (forall r :: r in sLocks <==> r in m.sLocks && (m.sLocks[r] - {t} == {} ==> r in left))
    && (forall r :: r in sLocks ==> sLocks[r] == if r in left then m.sLocks[r] else m.sLocks[r] - {t})
  }

  lemma NothingReleased(m: Manager, t: Tid)
    requires LocksOk(m) && t in m.txns
    ensures PartlyReleased(m, t, m.txns[t].locked, m.xLocks, m.sLocks)
  {
    forall r
      ensures r in m.xLocks && m.xLocks[r] == t ==> r in m.txns[t].locked
      ensures r in m.sLocks && r !in m.txns[t].locked ==> m.sLocks[r] - {t} == m.sLocks[r] != {}
    {
      assert Holds(m, t, r) <==> r in m.txns[t].locked;
    }
  }

  lemma OneReleased(m: Manager, t: Tid, left: set<Rec>, xLocks: map<Rec, Tid>, sLocks: map<Rec, set<Tid>>, r: Rec)
    requires LocksOk(m) && PartlyReleased(m, t, left, xLocks, sLocks) && r in left
    ensures PartlyReleased(m, t, left - {r}, WithoutX(xLocks, t, r), WithoutS(sLocks, t, r))
  {
  }

  lemma AllReleased(m: Manager, t: Tid, xLocks: map<Rec, Tid>, sLocks: map<Rec, set<Tid>>)
    requires t in m.txns && PartlyReleased(m, t, {}, xLocks, sLocks)
    ensures xLocks == Release(m, t).xLocks && sLocks == Release(m, t).sLocks
  {
    var n := Release(m, t);
    assert forall r :: r in n.xLocks <==> r in xLocks;
    assert forall r :: r in n.sLocks <==> r in sLocks;
    assert xLocks.Keys == n.xLocks.Keys && sLocks.Keys == n.sLocks.Keys;
    assert forall r :: r in xLocks ==> n.xLocks[r] == xLocks[r];
    assert forall r :: r in sLocks ==> n.sLocks[r] == sLocks[r];
  }

  function WithoutX(xLocks: map<Rec, Tid>, t: Tid, r: Rec): map<Rec, Tid> {
    if r in xLocks && xLocks[r] == t then xLocks - {r} else xLocks
  }

  function WithoutS(sLocks: map<Rec, set<Tid>>, t: Tid, r: Rec): map<Rec, set<Tid>> {
    if r !in sLocks || t !in sLocks[r] then sLocks
    else if sLocks[r] == {t} then sLocks - {r}
    else sLocks[r := sLocks[r] - {t}]
  }

  lemma RemoveAddedEdge(g: Graph, t: Tid, holder: Tid)
    ensures RemoveNode(AddEdge(g, t, holder), t) == RemoveNode(g, t)
  {
  }

  lemma ReAddEdge(g: Graph, t: Tid, holder: Tid)
    ensures AddEdge(RemoveEdge(AddEdge(g, t, holder), t, holder), t, holder) == AddEdge(g, t, holder)
  {
    var waits := Successors(g, t) + {holder};
    assert Successors(RemoveEdge(AddEdge(g, t, holder), t, holder), t) == waits - {holder};
    assert waits - {holder} + {holder} == waits;
  }

  class TwoPhaseLockingCCManager {
    var xLockTable: map<Rec, Tid>
    var sLockTable: map<Rec, set<Tid>>
    var transactions: map<Tid, TxnInfo>
    var waitForGraph: Graph
    var lockWaitQueue: map<Rec, seq<Tid>>
    var currentTransactionId: int
    ghost var history: History  // the accesses granted so far, the commits and the aborts

    ghost function State(): Manager
      reads this
    {
      Manager(xLockTable, sLockTable, transactions, waitForGraph, lockWaitQueue, currentTransactionId)
    }

    ghost predicate Valid()
      reads this
    {
      Consistent(State()) && Remembers(State(), history) && currentTransactionId >= 0
    }

    constructor ()
      ensures Valid() && State() == Empty && history == []
    {
      xLockTable, sLockTable, transactions := map[], map[], map[];
      waitForGraph, lockWaitQueue, currentTransactionId := map[], map[], 0;
      history := [];
      new;
      Safety.EmptyIsConsistent();
    }

    method BeginTransaction() returns (tid: Tid)
      requires Valid()
      modifies this
      ensures Valid() && tid == old(currentTransactionId) + 1 && tid !in old(transactions)
      ensures State() == Next(old(State()), Begin) && history == old(history)
    {
      Safety.CallKeepsConsistent(State(), Begin);
      Safety.CallRemembers(State(), history, Begin);
      assert history + [] == history;
      currentTransactionId := currentTransactionId + 1;
      tid := currentTransactionId;
      transactions := transactions[tid := TxnInfo(ACTIVE, GROWING, {})];
    }

    method ValidateObject(t: Tid, r: Rec, action: Action) returns (allowed: bool)
      requires Valid()
      modifies this
      ensures Valid()
      ensures AnswerTo(old(State()), t, r, action) == Answer(State(), allowed)
      ensures history == old(history) + Emits(old(State()), Validate(t, r, action))
    {
      ghost var m := State();
      Safety.CallKeepsConsistent(m, Validate(t, r, action));
      Safety.CallRemembers(m, history, Validate(t, r, action));
      history := history + Emits(m, Validate(t, r, action));
      if t !in transactions {
        return false;
      }
      var info := transactions[t];
      if info.status == ABORTED || info.status == FAILED {
        return false;
      }
      if info.status == COMMITTED {
        return false;
      }
      if info.phase == SHRINKING {
        AbortTransaction(t);
        return false;
      }
      if action == READ {
        allowed := AcquireSLock(t, r);
      } else {
        allowed := AcquireXLock(t, r);
      }
    }

    method EndTransaction(t: Tid)
      requires Valid()
      modifies this
      ensures Valid()
      ensures State() == Next(old(State()), End(t))
      ensures history == old(history) + Emits(old(State()), End(t))
    {
      ghost var m := State();
      Safety.CallKeeps(m, history, End(t));
      history := history + Emits(m, End(t));
      if t !in transactions {
        return;
      }
      var info := transactions[t];
      transactions := transactions[t := info.(phase := SHRINKING)];
      if info.status == ABORTED {
        return;
      }
      Commit(t, m);
    }

    /** The end of a transaction that has not been aborted. */
    method Commit(t: Tid, ghost m: Manager)
      requires Consistent(m) && t in m.txns && State() == m.(txns := m.txns[t := m.txns[t].(phase := SHRINKING)])
      modifies this
      ensures State() == Release(m.(txns := m.txns[t := m.txns[t].(phase := SHRINKING, status := COMMITTED)]), t)
      ensures history == old(history)
    {
      transactions := transactions[t := transactions[t].(status := COMMITTED)];
      assert transactions == m.txns[t := m.txns[t].(phase := SHRINKING, status := COMMITTED)];
      ReleaseAllLocks(t, m);
    }

    // ---------- acquiring ----------

    method AcquireSLock(t: Tid, r: Rec) returns (acquired: bool)
      requires Consistent(State()) && Active(State(), t)
      modifies this
      ensures AcquireS(old(State()), t, r) == Answer(State(), acquired) && history == old(history)
    {
      if r in lockWaitQueue && lockWaitQueue[r] != [] && lockWaitQueue[r][0] != t {
        JoinQueue(t, r);
        return false;
      }
      if r in transactions[t].locked {
        return true;
      }
      if r in xLockTable {
        var holder := xLockTable[r];
        if holder != t {
          WaitOrAbort(t, holder, r);
          return false;
        }
      }
      sLockTable := sLockTable[r := (if r in sLockTable then sLockTable[r] else {}) + {t}];
      RecordGrant(t, r);
      return true;
    }

    method AcquireXLock(t: Tid, r: Rec) returns (acquired: bool)
      requires Consistent(State()) && Active(State(), t)
      modifies this
      ensures AcquireX(old(State()), t, r) == Answer(State(), acquired) && history == old(history)
    {
      if r in lockWaitQueue && lockWaitQueue[r] != [] && lockWaitQueue[r][0] != t {
        JoinQueue(t, r);
        return false;
      }
      if r in xLockTable && xLockTable[r] == t {
        return true;
      }
      if r in xLockTable {
        WaitOrAbort(t, xLockTable[r], r);
        return false;
      }
      if r in sLockTable {
        var other, found := FirstOther(sLockTable[r], t);
        if found {
          WaitOrAbort(t, other, r);
          return false;
        }
        var rest := sLockTable[r] - {t};
        assert rest == {};
        sLockTable := sLockTable[r := rest];
        if sLockTable[r] == {} {
          sLockTable := sLockTable - {r};
        }
      }
      xLockTable := xLockTable[r := t];
      RecordGrant(t, r);
      return true;
    }

    /** The first holder other than t, in ascending order. */
    static method FirstOther(holders: set<Tid>, t: Tid) returns (other: Tid, found: bool)
      ensures found <==> holders - {t} != {}
      ensures found ==> other == Least(holders - {t})
    {
      var todo := holders;
      while todo != {}
        invariant todo <= holders && holders - todo <= {t}
        invariant forall x, y :: x in holders - todo && y in todo ==> x < y
        decreases todo
      {
        other := Least(todo);
        todo := todo - {other};
        if other != t {
          assert IsLeast(holders - {t}, other);
          return other, true;
        }
      }
      assert holders - {t} == {};
      return t, false;
    }

    method JoinQueue(t: Tid, r: Rec)
      modifies this`lockWaitQueue
      ensures lockWaitQueue == Enqueue(old(lockWaitQueue), t, r)
    {
      var queue := if r in lockWaitQueue then lockWaitQueue[r] else [];
      var i := 0;
      var isQueued := false;
      while i < |queue| && !isQueued
        invariant 0 <= i <= |queue|
        invariant isQueued ==> t in queue
        invariant !isQueued ==> t !in queue[..i]
        decreases |queue| - i, !isQueued
      {
        if queue[i] == t {
          isQueued := true;
        } else {
          i := i + 1;
        }
      }
      if !isQueued {
        assert queue[..i] == queue;
        lockWaitQueue := lockWaitQueue[r := queue + [t]];
      }
    }

    method WaitOrAbort(t: Tid, holder: Tid, r: Rec)
      requires Consistent(State()) && Active(State(), t)
      modifies this
      ensures State() == WaitFor(old(State()), t, holder, r) && history == old(history)
    {
      var deadlock := DetectDeadlock(t, holder);
      assert forall u, s :: Holds(State(), u, s) <==> Holds(old(State()), u, s);
      if deadlock {
        RemoveAddedEdge(old(waitForGraph), t, holder);
        AbortTransaction(t);
      } else {
        ReAddEdge(old(waitForGraph), t, holder);
        waitForGraph := AddEdge(waitForGraph, t, holder);
        JoinQueue(t, r);
      }
    }

    method DetectDeadlock(waiter: Tid, holder: Tid) returns (deadlock: bool)
      modifies this`waitForGraph
      ensures deadlock <==> CycleReachable(AddEdge(old(waitForGraph), waiter, holder), waiter)
      ensures waitForGraph ==
        if deadlock then AddEdge(old(waitForGraph), waiter, holder)
        else RemoveEdge(AddEdge(old(waitForGraph), waiter, holder), waiter, holder)
    {
      waitForGraph := AddEdge(waitForGraph, waiter, holder);
      deadlock := HasCycleFrom(waitForGraph, waiter);
      if !deadlock {
        waitForGraph := RemoveEdge(waitForGraph, waiter, holder);
      }
    }

    method RecordGrant(t: Tid, r: Rec)
      requires t in transactions
      modifies this`transactions, this`waitForGraph, this`lockWaitQueue
      ensures State() == Granted(old(State()), t, r)
    {
      transactions := transactions[t := transactions[t].(locked := transactions[t].locked + {r})];
      waitForGraph := waitForGraph - {t};
      if r in lockWaitQueue && lockWaitQueue[r] != [] {
        if lockWaitQueue[r][0] == t {
          lockWaitQueue := lockWaitQueue[r := lockWaitQueue[r][1..]];
          if lockWaitQueue[r] == [] {
            lockWaitQueue := lockWaitQueue - {r};
          }
        }
      }
    }

    // ---------- releasing ----------

    method AbortTransaction(t: Tid)
      requires LocksOk(State())
      modifies this
      ensures State() == AbortTxn(old(State()), t) && history == old(history)
    {
      if t !in transactions {
        return;
      }
      ghost var m := State();
      transactions := transactions[t := transactions[t].(status := ABORTED)];
      ReleaseAllLocks(t, m);
    }

    method ReleaseSLock(t: Tid, r: Rec)
      requires t in transactions
      modifies this`sLockTable, this`transactions
      ensures sLockTable == WithoutS(old(sLockTable), t, r)
      ensures transactions == if t !in Holders(old(State()), r) then old(transactions)
                              else old(transactions)[t := old(transactions)[t].(locked := old(transactions)[t].locked - {r})]
    {
      if r in sLockTable {
        if t !in sLockTable[r] {
          return;
        }
        sLockTable := sLockTable[r := sLockTable[r] - {t}];
        if sLockTable[r] == {} {
          sLockTable := sLockTable - {r};
        }
        transactions := transactions[t := transactions[t].(locked := transactions[t].locked - {r})];
      }
    }

    method ReleaseXLock(t: Tid, r: Rec)
      modifies this`xLockTable, this`transactions
      ensures xLockTable == WithoutX(old(xLockTable), t, r)
      ensures transactions == if !HoldsX(old(State()), t, r) || t !in old(transactions) then old(transactions)
                              else old(transactions)[t := old(transactions)[t].(locked := old(transactions)[t].locked - {r})]
    {
      if r in xLockTable && xLockTable[r] == t {
        xLockTable := xLockTable - {r};
        if t in transactions {
          transactions := transactions[t := transactions[t].(locked := transactions[t].locked - {r})];
        }
      }
    }

    /** `m` is the state in which t's final status had not been set. */
    method ReleaseAllLocks(t: Tid, ghost m: Manager)
      requires t in transactions && LocksOk(m)
      requires xLockTable == m.xLocks && sLockTable == m.sLocks && t in m.txns
      requires transactions[t].locked == m.txns[t].locked
      modifies this
      ensures State() == Release(old(State()), t) && history == old(history)
    {
      ReleaseHeld(t, m);
      waitForGraph := DropFromGraph(waitForGraph, t);
      lockWaitQueue := DropFromQueues(lockWaitQueue, t);
    }

    /** One record, in either table. */
    method ReleaseBoth(t: Tid, r: Rec)
      requires t in transactions && (r in transactions[t].locked ==> t in Holders(State(), r) || HoldsX(State(), t, r))
      modifies this`xLockTable, this`sLockTable, this`transactions
      ensures xLockTable == WithoutX(old(xLockTable), t, r) && sLockTable == WithoutS(old(sLockTable), t, r)
      ensures transactions == old(transactions)[t := old(transactions)[t].(locked := old(transactions)[t].locked - {r})]
    {
      ghost var info := transactions[t];
      ReleaseSLock(t, r);
      ReleaseXLock(t, r);
      assert info.locked - {r} - {r} == info.locked - {r};
      assert r !in info.locked ==> info.locked - {r} == info.locked;
    }

    method ReleaseHeld(t: Tid, ghost m: Manager)
      requires t in transactions && LocksOk(m)
      requires xLockTable == m.xLocks && sLockTable == m.sLocks && t in m.txns
      requires transactions[t].locked == m.txns[t].locked
      modifies this`xLockTable, this`sLockTable, this`transactions
      ensures var n := Release(old(State()), t);
        xLockTable == n.xLocks && sLockTable == n.sLocks && transactions == n.txns
    {
      ghost var before := transactions;
      var toRelease := transactions[t].locked;
      NothingReleased(m, t);
      while toRelease != {}
        invariant toRelease <= m.txns[t].locked && PartlyReleased(m, t, toRelease, xLockTable, sLockTable)
        invariant transactions == before[t := before[t].(locked := toRelease)]
        decreases toRelease
      {
        var r := Pick(toRelease);
        assert Holds(m, t, r);
        OneReleased(m, t, toRelease, xLockTable, sLockTable, r);
        ReleaseBoth(t, r);
        toRelease := toRelease - {r};
      }
      AllReleased(old(State()), t, xLockTable, sLockTable);
    }

    static method DropFromGraph(graph: Graph, t: Tid) returns (g: Graph)
      ensures g == RemoveNode(graph, t)
    {
      g := graph - {t};
      var todo := g.Keys;
      while todo != {}
        invariant todo <= g.Keys <= graph.Keys - {t}
        invariant forall n :: n in todo ==> g[n] == graph[n]
        invariant forall n :: n in graph && n != t && n !in todo ==>
          if graph[n] - {t} == {} then n !in g else n in g && g[n] == graph[n] - {t}
        decreases todo
      {
        var n := Pick(todo);
        todo := todo - {n};
        g := g[n := g[n] - {t}];
        if g[n] == {} {
          g := g - {n};
        }
      }
      assert forall n :: n in g <==> n in RemoveNode(graph, t);
      assert g == RemoveNode(graph, t);
    }

    static method DropFromQueues(queues: map<Rec, seq<Tid>>, t: Tid) returns (q: map<Rec, seq<Tid>>)
      ensures q == map r | r in queues && Without(queues[r], t) != [] :: Without(queues[r], t)
    {
      q := queues;
      var todo := q.Keys;
      while todo != {}
        invariant todo <= q.Keys <= queues.Keys
        invariant forall r :: r in todo ==> q[r] == queues[r]
        invariant forall r :: r in queues && r !in todo ==>
          if Without(queues[r], t) == [] then r !in q else r in q && q[r] == Without(queues[r], t)
        decreases todo
      {
        var r := Pick(todo);
        todo := todo - {r};
        var kept := Remove(q[r], t);
        q := if kept == [] then q - {r} else q[r := kept];
      }
      ghost var kept := map r | r in queues && Without(queues[r], t) != [] :: Without(queues[r], t);
      assert forall r :: r in q <==> r in kept;
      assert q.Keys == kept.Keys;
      assert forall r :: r in q ==> q[r] == kept[r];
    }

    static method Remove(queue: seq<Tid>, t: Tid) returns (kept: seq<Tid>)
      ensures kept == Without(queue, t)
    {
      kept := [];
      var i := 0;
      while i < |queue|
        invariant 0 <= i <= |queue| && kept + Without(queue[i..], t) == Without(queue, t)
      {
        if queue[i] != t {
          kept := kept + [queue[i]];
        }
        i := i + 1;
      }
    }
  }
}
