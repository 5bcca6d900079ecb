/** What runs of two-phase locking keep. */
module TwoPhaseLockingSafety {
  // Consistent tables, an acyclic wait-for graph, and a strict and therefore serialisable history.

  import opened Histories
  import opened WaitForGraph
  import opened LockTable
  import Collections
  import Serialisability

  // ---------- queues ----------

  lemma {:induction false} WithoutFacts(q: seq<Tid>, t: Tid)
    ensures forall u :: u in Without(q, t) <==> u in q && u != t
    ensures NoDuplicates(q) ==> NoDuplicates(Without(q, t))
    ensures |Without(q, t)| <= |q|
  {
    if q != [] {
      WithoutFacts(q[1..], t);
      assert forall u :: u in q <==> u == q[0] || u in q[1..];
      if NoDuplicates(q) {
        assert NoDuplicates(q[1..]) by {
          assert forall i :: 0 <= i < |q| - 1 ==> q[1..][i] == q[i + 1];
        }
        assert q[0] !in q[1..] by {
          assert forall i :: 0 <= i < |q| - 1 ==> q[1..][i] == q[i + 1] != q[0];
        }
      }
    }
  }

  lemma QueueFacts(queues: map<Rec, seq<Tid>>, t: Tid, r: Rec)
    ensures forall s, u :: u in Queue(Enqueue(queues, t, r), s) <==> u in Queue(queues, s) || (u == t && s == r)
    ensures forall s, u :: u != t && u in Queue(queues, s) ==> u in Queue(Dequeue(queues, t, r), s)
    ensures forall s, u :: u in Queue(Dequeue(queues, t, r), s) ==> u in Queue(queues, s)
  {
    var q := Queue(queues, r);
    if q != [] {
      assert forall u :: u in q <==> u == q[0] || u in q[1..];
    }
  }

  lemma EnqueueKeepsQueues(m: Manager, t: Tid, r: Rec)
    requires QueuesOk(m) && Active(m, t)
    ensures QueuesOk(m.(queues := Enqueue(m.queues, t, r)))
  {
    var q := Queue(m.queues, r);
    if t !in q {
      assert NoDuplicates(q);
      assert NoDuplicates(q + [t]);
    }
  }

  lemma DequeueKeepsQueues(m: Manager, t: Tid, r: Rec)
    requires QueuesOk(m)
    ensures QueuesOk(m.(queues := Dequeue(m.queues, t, r)))
  {
    var q := Queue(m.queues, r);
    if q != [] {
      assert forall u :: u in q[1..] ==> u in q;
      assert forall i :: 0 <= i < |q| - 1 ==> q[1..][i] == q[i + 1];
      assert NoDuplicates(q[1..]);
    }
  }

  // ---------- waiting ----------

  lemma AddEdgeFacts(m: Manager, t: Tid, h: Tid, r: Rec)
    requires Consistent(m) && Active(m, t) && Holds(m, h, r) && !Deadlock(m, t, h)
    ensures Consistent(WaitFor(m, t, h, r))
  {
    var n := WaitFor(m, t, h, r);
    AddEdgeKeepsAcyclic(m.waits, t, h);
    QueueFacts(m.queues, t, r);
    EnqueueKeepsQueues(m, t, r);
    assert forall u, s :: Holds(n, u, s) <==> Holds(m, u, s);
    assert Holds(n, h, r) && t in Queue(n.queues, r);
    forall u, k | u in n.waits && k in n.waits[u]
      ensures Justified(n, u, k)
    {
      if u in m.waits && k in m.waits[u] {
        var s :| Holds(m, k, s) && u in Queue(m.queues, s);
        assert Holds(n, k, s) && u in Queue(n.queues, s);
      }
    }
  }

  lemma EnqueueKeeps(m: Manager, t: Tid, r: Rec)
    requires Consistent(m) && Active(m, t)
    ensures Consistent(m.(queues := Enqueue(m.queues, t, r)))
  {
    var n := m.(queues := Enqueue(m.queues, t, r));
    QueueFacts(m.queues, t, r);
    EnqueueKeepsQueues(m, t, r);
    assert forall u, s :: Holds(n, u, s) <==> Holds(m, u, s);
    forall u, k | u in n.waits && k in n.waits[u]
      ensures Justified(n, u, k)
    {
      var s :| Holds(m, k, s) && u in Queue(m.queues, s);
      assert Holds(n, k, s) && u in Queue(n.queues, s);
    }
  }

  // ---------- releasing ----------

  /** `m` with t given its final status, before its locks are released. */
  ghost predicate Leaving(m: Manager, m': Manager, t: Tid) {
    && t in m.txns && t in m'.txns
    && m'.txns[t].status in {COMMITTED, ABORTED}
    && m'.txns[t].locked == m.txns[t].locked
    && m' == m.(txns := m.txns[t := m'.txns[t]])
  }

  lemma ReleaseLocks(m: Manager, m': Manager, t: Tid)
    requires Consistent(m) && Leaving(m, m', t)
    ensures var n := Release(m', t); forall u, r :: Holds(n, u, r) <==> Holds(m, u, r) && u != t
    ensures LocksOk(Release(m', t)) && TxnsOk(Release(m', t))
  {
    var n := Release(m', t);
    forall u, r
      ensures Holds(n, u, r) <==> Holds(m, u, r) && u != t
    {
    }
  }

  lemma ReleaseKeeps(m: Manager, m': Manager, t: Tid)
    requires Consistent(m) && Leaving(m, m', t)
    ensures Consistent(Release(m', t))
  {
    var n := Release(m', t);
    ReleaseLocks(m, m', t);
    forall r | r in m.queues
      ensures r in n.queues ==> n.queues[r] == Without(m.queues[r], t)
      ensures forall u :: u in Queue(n.queues, r) <==> u in m.queues[r] && u != t
      ensures NoDuplicates(Queue(n.queues, r))
    {
      WithoutFacts(m.queues[r], t);
    }
    assert SubGraph(n.waits, m.waits);
    SubGraphAcyclic(n.waits, m.waits);
    forall u, k | u in n.waits && k in n.waits[u]
      ensures Justified(n, u, k)
    {
      var s :| Holds(m, k, s) && u in Queue(m.queues, s);
      assert Holds(n, k, s) && u in Queue(n.queues, s);
    }
  }

  lemma AbortKeeps(m: Manager, t: Tid)
    requires Consistent(m)
    ensures Consistent(AbortTxn(m, t))
  {
    if t in m.txns {
      var m' := m.(txns := m.txns[t := m.txns[t].(status := ABORTED)]);
      ReleaseKeeps(m, m', t);
    }
  }

  lemma WaitForKeeps(m: Manager, t: Tid, h: Tid, r: Rec)
    requires Consistent(m) && Active(m, t) && Holds(m, h, r)
    ensures Consistent(WaitFor(m, t, h, r))
  {
    if Deadlock(m, t, h) {
      AbortKeeps(m, t);
    } else {
      AddEdgeFacts(m, t, h, r);
    }
  }

  // ---------- granting ----------

  ghost predicate GainsOnly(m: Manager, n: Manager, t: Tid, r: Rec) {
    && LocksOk(n) && TxnsOk(n)
    && forall u, s :: Holds(n, u, s) <==> Holds(m, u, s) || (u == t && s == r)
  }

  lemma GrantSLocks(m: Manager, t: Tid, r: Rec)
    requires LocksOk(m) && TxnsOk(m) && Active(m, t) && r !in m.xLocks
    ensures GainsOnly(m, GrantS(m, t, r), t, r)
  {
    var n := GrantS(m, t, r);
    forall u, s
      ensures Holds(n, u, s) <==> Holds(m, u, s) || (u == t && s == r)
    {
    }
  }

  lemma GrantXLocks(m: Manager, t: Tid, r: Rec)
    requires LocksOk(m) && TxnsOk(m) && Active(m, t) && r !in m.xLocks && Holders(m, r) <= {t}
    ensures GainsOnly(m, GrantX(m, t, r), t, r)
  {
    var n := GrantX(m, t, r);
    forall u, s
      ensures Holds(n, u, s) <==> Holds(m, u, s) || (u == t && s == r)
    {
    }
  }

  lemma GrantKeeps(m: Manager, n: Manager, t: Tid, r: Rec)
    requires Consistent(m) && LocksOk(n) && TxnsOk(n) && Active(m, t)
    requires n.waits == m.waits - {t} && n.queues == Dequeue(m.queues, t, r)
    requires forall u :: Active(n, u) <==> Active(m, u)
    requires forall u, s :: Holds(m, u, s) ==> Holds(n, u, s)
    ensures Consistent(n)
  {
    QueueFacts(m.queues, t, r);
    DequeueKeepsQueues(m, t, r);
    assert SubGraph(n.waits, m.waits);
    SubGraphAcyclic(n.waits, m.waits);
    forall u, k | u in n.waits && k in n.waits[u]
      ensures Justified(n, u, k)
    {
      var s :| Holds(m, k, s) && u in Queue(m.queues, s);
      assert Holds(n, k, s) && u in Queue(n.queues, s);
    }
  }

  lemma AcquireKeeps(m: Manager, t: Tid, r: Rec)
    requires Consistent(m) && Active(m, t)
    ensures Consistent(AcquireS(m, t, r).m) && Consistent(AcquireX(m, t, r).m)
  {
    if MustQueue(m, t, r) {
      EnqueueKeeps(m, t, r);
    } else {
      if r in m.xLocks {
        WaitForKeeps(m, t, m.xLocks[r], r);
      } else {
        GrantSLocks(m, t, r);
        GrantKeeps(m, GrantS(m, t, r), t, r);
        if Holders(m, r) - {t} != {} {
          var h := Collections.Least(Holders(m, r) - {t});
          WaitForKeeps(m, t, h, r);
        } else {
          GrantXLocks(m, t, r);
          GrantKeeps(m, GrantX(m, t, r), t, r);
        }
      }
    }
  }

  lemma BeginKeeps(m: Manager)
    requires Consistent(m) && m.current >= 0
    ensures Consistent(Next(m, Begin))
  {
    var n := Next(m, Begin);
    var t := m.current + 1;
    assert t !in m.txns;
    assert forall u, s :: Holds(n, u, s) <==> Holds(m, u, s);
    assert forall u :: Active(m, u) ==> Active(n, u);
    forall u, k | u in n.waits && k in n.waits[u]
      ensures Justified(n, u, k)
    {
      var s :| Holds(m, k, s) && u in Queue(m.queues, s);
      assert Holds(n, k, s) && u in Queue(n.queues, s);
    }
  }

  /** An aborted transaction ends for good. */
  lemma ShrinkKeeps(m: Manager, t: Tid)
    requires Consistent(m) && t in m.txns && m.txns[t].status == ABORTED
    ensures Consistent(Ended(m, t))
  {
    var n := Ended(m, t);
    assert forall u, s :: Holds(n, u, s) <==> Holds(m, u, s);
    assert forall u :: Active(m, u) ==> Active(n, u);
    forall u, k | u in n.waits && k in n.waits[u]
      ensures Justified(n, u, k)
    {
      var s :| Holds(m, k, s) && u in Queue(m.queues, s);
      assert Holds(n, k, s) && u in Queue(n.queues, s);
    }
  }

  lemma EndKeeps(m: Manager, t: Tid)
    requires Consistent(m)
    ensures Consistent(Ended(m, t))
  {
    if t in m.txns {
      if m.txns[t].status == ABORTED {
        ShrinkKeeps(m, t);
      } else {
        ReleaseKeeps(m, m.(txns := m.txns[t := m.txns[t].(phase := SHRINKING, status := COMMITTED)]), t);
      }
    }
  }

  lemma ValidateKeeps(m: Manager, t: Tid, r: Rec, action: Action)
    requires Consistent(m)
    ensures Consistent(AnswerTo(m, t, r, action).m) && AnswerTo(m, t, r, action).m.current == m.current
  {
    if Active(m, t) {
      if m.txns[t].phase == SHRINKING {
        AbortKeeps(m, t);
      } else {
        AcquireKeeps(m, t, r);
      }
    }
  }

  /** Every call keeps the tables consistent and the wait-for graph acyclic. */
  lemma CallKeepsConsistent(m: Manager, c: Call)
    requires Consistent(m) && m.current >= 0
    ensures Consistent(Next(m, c)) && Next(m, c).current >= 0
  {
    match c
    case Begin => BeginKeeps(m);
    case Validate(t, r, action) => ValidateKeeps(m, t, r, action);
    case End(t) => EndKeeps(m, t);
  }

  // ---------- the history ----------

  ghost predicate KeepsHolding(m: Manager, n: Manager, t: Tid) {
    forall r :: (Holds(m, t, r) ==> Holds(n, t, r)) && (HoldsX(m, t, r) ==> HoldsX(n, t, r))
  }

  /** The lock tables let an access happen only where strictness does. */
  lemma TablesImplyStrictness(m: Manager, n: Manager, h: History, e: Event)
    requires LocksOk(n) && Remembers(m, h) && Active(m, e.t) && e.Access?
    requires forall t :: KeepsHolding(m, n, t)
    requires Holds(n, e.t, e.r) && (e.action == WRITE ==> HoldsX(n, e.t, e.r))
    ensures MayFollow(h, e)
  {
    assert RemembersTxn(m, h, e.t);
    forall u | u != e.t && u !in Finished(h)
      ensures e.r !in Written(h, u)
      ensures e.action == WRITE ==> e.r !in Touched(h, u)
    {
      assert KeepsHolding(m, n, u) && RemembersTxn(m, h, u);
    }
  }

  /** Extending the history by one event that the tables allow. */
  lemma RememberEvent(m: Manager, n: Manager, h: History, e: Event)
    requires LocksOk(n) && Remembers(m, h) && Active(m, e.t)
    requires forall t :: Over(n, t) <==> Over(m, t) || (t == e.t && !e.Access?)
    requires forall t :: t != e.t || e.Access? ==> KeepsHolding(m, n, t)
    requires e.Access? ==> Holds(n, e.t, e.r) && (e.action == WRITE ==> HoldsX(n, e.t, e.r))
    ensures Remembers(n, h + [e])
  {
    if e.Access? {
      TablesImplyStrictness(m, n, h, e);
    }
    assert RemembersTxn(m, h, e.t);
    StrictSnoc(h, e);
    Snoc(h, e);
    forall t
      ensures RemembersTxn(n, h + [e], t)
    {
      assert RemembersTxn(m, h, t);
      assert t != e.t || e.Access? ==> KeepsHolding(m, n, t);
    }
  }

  lemma RememberNothing(m: Manager, n: Manager, h: History)
    requires Remembers(m, h)
    requires forall t :: Over(n, t) <==> Over(m, t)
    requires n.xLocks == m.xLocks && n.sLocks == m.sLocks
    ensures Remembers(n, h)
  {
    forall t
      ensures RemembersTxn(n, h, t)
    {
      assert RemembersTxn(m, h, t);
    }
  }

  lemma ReleaseRemembers(m: Manager, m': Manager, h: History, t: Tid, e: Event)
    requires Consistent(m) && Remembers(m, h) && Active(m, t) && Leaving(m, m', t)
    requires !e.Access? && e.t == t
    ensures Remembers(Release(m', t), h + [e])
  {
    var n := Release(m', t);
    ReleaseLocks(m, m', t);
    forall u | u != t
      ensures KeepsHolding(m, n, u)
    {
    }
    RememberEvent(m, n, h, e);
  }

  lemma AbortRemembers(m: Manager, h: History, t: Tid)
    requires Consistent(m) && Remembers(m, h) && Active(m, t)
    ensures Remembers(AbortTxn(m, t), h + [Abort(t)])
  {
    ReleaseRemembers(m, m.(txns := m.txns[t := m.txns[t].(status := ABORTED)]), h, t, Abort(t));
  }

  lemma EndActiveRemembers(m: Manager, h: History, t: Tid)
    requires Consistent(m) && Remembers(m, h) && Active(m, t)
    ensures Remembers(Ended(m, t), h + [Commit(t)])
  {
    var info := m.txns[t].(phase := SHRINKING, status := COMMITTED);
    ReleaseRemembers(m, m.(txns := m.txns[t := info]), h, t, Commit(t));
  }

  /** Ending a transaction that has ended before releases nothing. */
  lemma NothingToRelease(m: Manager, t: Tid)
    requires LocksOk(m) && TxnsOk(m) && t in m.txns && !Active(m, t)
    ensures Ended(m, t).xLocks == m.xLocks && Ended(m, t).sLocks == m.sLocks
  {
    var n := Ended(m, t);
    forall r
      ensures r in m.xLocks ==> m.xLocks[r] != t
      ensures r in m.sLocks ==> m.sLocks[r] - {t} == m.sLocks[r] != {}
    {
      assert !Holds(m, t, r);
    }
    assert n.xLocks == m.xLocks;
    assert n.sLocks.Keys == m.sLocks.Keys;
  }

  lemma EndAgain(m: Manager, h: History, t: Tid)
    requires LocksOk(m) && TxnsOk(m) && Remembers(m, h) && !Active(m, t)
    ensures Remembers(Ended(m, t), h)
  {
    if t in m.txns {
      NothingToRelease(m, t);
      RememberNothing(m, Ended(m, t), h);
    }
  }

  lemma WaitForRemembers(m: Manager, h: History, t: Tid, holder: Tid, r: Rec)
    requires Consistent(m) && Remembers(m, h) && Active(m, t)
    ensures Remembers(WaitFor(m, t, holder, r), if Active(WaitFor(m, t, holder, r), t) then h else h + [Abort(t)])
  {
    if Deadlock(m, t, holder) {
      AbortRemembers(m, h, t);
    } else {
      RememberNothing(m, WaitFor(m, t, holder, r), h);
    }
  }

  lemma GrantRemembers(m: Manager, n: Manager, h: History, t: Tid, r: Rec, action: Action)
    requires LocksOk(m) && Remembers(m, h) && Active(m, t)
    requires n == m || GainsOnly(m, n, t, r)
    requires forall u :: Over(n, u) <==> Over(m, u)
    requires forall u, s :: HoldsX(m, u, s) ==> HoldsX(n, u, s)
    requires Holds(n, t, r) && (action == WRITE ==> HoldsX(n, t, r))
    ensures Remembers(n, h + [Access(t, r, action)])
  {
    forall u
      ensures KeepsHolding(m, n, u)
    {
    }
    RememberEvent(m, n, h, Access(t, r, action));
  }

  lemma AcquireSRemembers(m: Manager, h: History, t: Tid, r: Rec)
    requires Consistent(m) && Remembers(m, h) && Active(m, t)
    ensures var answer := AcquireS(m, t, r);
      Remembers(answer.m, if answer.allowed then h + [Access(t, r, READ)]
                          else if Active(answer.m, t) then h else h + [Abort(t)])
  {
    var answer := AcquireS(m, t, r);
    if answer.allowed {
      if r !in m.txns[t].locked {
        assert !Holds(m, t, r);
        GrantSLocks(m, t, r);
      }
      GrantRemembers(m, answer.m, h, t, r, READ);
    } else if MustQueue(m, t, r) {
      RememberNothing(m, answer.m, h);
    } else {
      WaitForRemembers(m, h, t, m.xLocks[r], r);
    }
  }

  lemma AcquireXRemembers(m: Manager, h: History, t: Tid, r: Rec)
    requires Consistent(m) && Remembers(m, h) && Active(m, t)
    ensures var answer := AcquireX(m, t, r);
      Remembers(answer.m, if answer.allowed then h + [Access(t, r, WRITE)]
                          else if Active(answer.m, t) then h else h + [Abort(t)])
  {
    var answer := AcquireX(m, t, r);
    if answer.allowed {
      if !HoldsX(m, t, r) {
        GrantXLocks(m, t, r);
      }
      GrantRemembers(m, answer.m, h, t, r, WRITE);
    } else if MustQueue(m, t, r) {
      RememberNothing(m, answer.m, h);
    } else if r in m.xLocks {
      WaitForRemembers(m, h, t, m.xLocks[r], r);
    } else {
      WaitForRemembers(m, h, t, Collections.Least(Holders(m, r) - {t}), r);
    }
  }

  /** Every call keeps the tables and the history in step. */
  lemma CallRemembers(m: Manager, h: History, c: Call)
    requires Consistent(m) && Remembers(m, h) && m.current >= 0
    ensures Remembers(Next(m, c), h + Emits(m, c))
  {
    assert h + [] == h;
    match c
    case Begin =>
      assert m.current + 1 !in m.txns;
      RememberNothing(m, Next(m, c), h);
    case Validate(t, r, action) =>
      if Active(m, t) && action == READ {
        AcquireSRemembers(m, h, t, r);
      } else if Active(m, t) {
        AcquireXRemembers(m, h, t, r);
      }
    case End(t) =>
      if Active(m, t) {
        EndActiveRemembers(m, h, t);
      } else {
        EndAgain(m, h, t);
      }
  }

  lemma CallKeeps(m: Manager, h: History, c: Call)
    requires Consistent(m) && Remembers(m, h) && m.current >= 0
    ensures Consistent(Next(m, c)) && Next(m, c).current >= 0 && Remembers(Next(m, c), h + Emits(m, c))
  {
    CallKeepsConsistent(m, c);
    CallRemembers(m, h, c);
  }

  // ---------- whole runs ----------

  lemma EmptyIsConsistent()
    ensures Consistent(Empty) && Remembers(Empty, [])
  {
    forall p
      ensures !IsCycle(Empty.waits, p)
    {
      assert |p| >= 2 ==> p[0 + 1] !in Successors(Empty.waits, p[0]);
    }
  }

  lemma {:induction false} RunInvariant(calls: seq<Call>)
    ensures var (m, h) := Run(calls); Consistent(m) && Remembers(m, h) && m.current >= 0
  {
    if calls == [] {
      EmptyIsConsistent();
    } else {
      var front, c := calls[..|calls| - 1], calls[|calls| - 1];
      RunInvariant(front);
      var (m, h) := Run(front);
      CallKeepsConsistent(m, c);
      CallRemembers(m, h, c);
    }
  }

  /** In every run, executing the granted accesses as they were interleaved gives every committed
      transaction the reads, and the records the values, of the serial run in commit order. */
  lemma RunsAreSerialisable(calls: seq<Call>, store: map<Rec, Value>, prog: Program)
    ensures Strict(Run(calls).1)
    ensures Serialisability.IsSerial(Serialisability.Serial(Run(calls).1))
    ensures Serialisability.EquivalentToSerial(Run(calls).1, store, prog)
  {
    RunInvariant(calls);
    Serialisability.SerialIsSerial(Run(calls).1);
    Serialisability.SerialEquivalence(Run(calls).1, store, prog);
  }

  /** A transaction that is not active holds no lock, no place in a queue and no edge. */
  lemma InactiveHoldNothing(m: Manager, t: Tid)
    requires Consistent(m) && !Active(m, t)
    ensures forall r :: !Holds(m, t, r) && t !in Queue(m.queues, r)
    ensures t !in m.waits && forall u :: t !in Successors(m.waits, u)
  {
    forall r
      ensures !Holds(m, t, r)
    {
    }
    forall u | u in m.waits && t in m.waits[u]
      ensures !Justified(m, u, t)
    {
    }
    if t in m.waits {
      var h := Collections.AnElement(m.waits[t]);
      assert Justified(m, t, h);
    }
  }

  /** In every reachable state an exclusively locked record has one holder, what is not active
      holds nothing, and every edge of the acyclic wait-for graph has a record that explains it. */
  lemma RunsKeepTables(calls: seq<Call>)
    ensures var m := Run(calls).0;
      && Acyclic(m.waits)
      && (forall t, u, r :: HoldsX(m, t, r) && Holds(m, u, r) ==> u == t)
      && (forall t, r :: !Active(m, t) ==> !Holds(m, t, r) && t !in Queue(m.queues, r))
      && (forall t, u :: !Active(m, t) ==> t !in m.waits && t !in Successors(m.waits, u))
      && (forall t, h :: h in Successors(m.waits, t) ==> Justified(m, t, h))
  {
    RunInvariant(calls);
    var m := Run(calls).0;
    forall t | !Active(m, t)
      ensures forall r :: !Holds(m, t, r) && t !in Queue(m.queues, r)
      ensures t !in m.waits && forall u :: t !in Successors(m.waits, u)
    {
      InactiveHoldNothing(m, t);
    }
  }

  // ---------- first come, first served ----------

  ghost predicate Before(q: seq<Tid>, a: Tid, b: Tid) {
    exists i, j :: 0 <= i < j < |q| && q[i] == a && q[j] == b
  }

  lemma {:induction false} WithoutKeepsOrder(q: seq<Tid>, t: Tid, a: Tid, b: Tid)
    requires Before(Without(q, t), a, b)
    ensures Before(q, a, b)
  {
    var w := Without(q, t);
    WithoutFacts(q[1..], t);
    if q[0] == t {
      WithoutKeepsOrder(q[1..], t, a, b);
      var i, j :| 0 <= i < j < |q[1..]| && q[1..][i] == a && q[1..][j] == b;
      assert q[i + 1] == a && q[j + 1] == b;
    } else {
      var rest := Without(q[1..], t);
      var i, j :| 0 <= i < j < |w| && w[i] == a && w[j] == b;
      if i == 0 {
        assert rest[j - 1] == b && b in q[1..];
        var k :| 0 <= k < |q[1..]| && q[1..][k] == b;
        assert q[0] == a && q[k + 1] == b;
      } else {
        assert rest[i - 1] == a && rest[j - 1] == b;
        WithoutKeepsOrder(q[1..], t, a, b);
        var i', j' :| 0 <= i' < j' < |q[1..]| && q[1..][i'] == a && q[1..][j'] == b;
        assert q[i' + 1] == a && q[j' + 1] == b;
      }
    }
  }

  /** What a call can do to the queue of a record. */
  ghost predicate QueueStep(q: seq<Tid>, q': seq<Tid>) {
    || q' == q
    || (exists t :: t !in q && q' == q + [t])
    || (q != [] && q' == q[1..])
    || (exists t :: q' == Without(q, t))
  }

  lemma ReleaseQueueStep(m: Manager, t: Tid, r: Rec)
    requires t in m.txns
    ensures Queue(Release(m, t).queues, r) == Without(Queue(m.queues, r), t)
  {
  }

  lemma AbortQueueStep(m: Manager, t: Tid, r: Rec)
    ensures QueueStep(Queue(m.queues, r), Queue(AbortTxn(m, t).queues, r))
  {
    if t in m.txns {
      ReleaseQueueStep(m.(txns := m.txns[t := m.txns[t].(status := ABORTED)]), t, r);
      assert Queue(AbortTxn(m, t).queues, r) == Without(Queue(m.queues, r), t);
    }
  }

  lemma WaitForQueueStep(m: Manager, t: Tid, holder: Tid, s: Rec, r: Rec)
    ensures QueueStep(Queue(m.queues, r), Queue(WaitFor(m, t, holder, s).queues, r))
  {
    AbortQueueStep(m, t, r);
  }

  lemma AcquireSQueueStep(m: Manager, t: Tid, s: Rec, r: Rec)
    requires t in m.txns
    ensures QueueStep(Queue(m.queues, r), Queue(AcquireS(m, t, s).m.queues, r))
  {
    if !MustQueue(m, t, s) && s in m.xLocks {
      WaitForQueueStep(m, t, m.xLocks[s], s, r);
    }
  }

  lemma AcquireXQueueStep(m: Manager, t: Tid, s: Rec, r: Rec)
    requires t in m.txns
    ensures QueueStep(Queue(m.queues, r), Queue(AcquireX(m, t, s).m.queues, r))
  {
    if !MustQueue(m, t, s) && s in m.xLocks {
      WaitForQueueStep(m, t, m.xLocks[s], s, r);
    } else if !MustQueue(m, t, s) && Holders(m, s) - {t} != {} {
      WaitForQueueStep(m, t, Collections.Least(Holders(m, s) - {t}), s, r);
    }
  }

  lemma EndQueueStep(m: Manager, t: Tid, r: Rec)
    ensures QueueStep(Queue(m.queues, r), Queue(Ended(m, t).queues, r))
  {
    if t in m.txns && m.txns[t].status != ABORTED {
      ReleaseQueueStep(m.(txns := m.txns[t := m.txns[t].(phase := SHRINKING, status := COMMITTED)]), t, r);
      assert Queue(Ended(m, t).queues, r) == Without(Queue(m.queues, r), t);
    }
  }

  lemma CallQueueStep(m: Manager, c: Call, r: Rec)
    ensures QueueStep(Queue(m.queues, r), Queue(Next(m, c).queues, r))
  {
    match c
    case Begin =>
    case End(t) => EndQueueStep(m, t, r);
    case Validate(t, s, action) =>
      AbortQueueStep(m, t, r);
      if t in m.txns {
        AcquireSQueueStep(m, t, s, r);
        AcquireXQueueStep(m, t, s, r);
      }
  }

  /** Those who stay in a queue stay in order, and a newcomer goes behind everyone. */
  lemma QueuesAreFair(m: Manager, c: Call, r: Rec, a: Tid, b: Tid)
    requires Before(Queue(Next(m, c).queues, r), a, b)
    ensures a in Queue(m.queues, r)
    ensures b in Queue(m.queues, r) ==> Before(Queue(m.queues, r), a, b)
  {
    var q, q' := Queue(m.queues, r), Queue(Next(m, c).queues, r);
    CallQueueStep(m, c, r);
    if q' == q {
    } else if t :| t !in q && q' == q + [t] {
      if b in q {
        assert Before(q, a, b) by {
          var i, j :| 0 <= i < j < |q'| && q'[i] == a && q'[j] == b;
          assert j < |q|;
          assert q[i] == a && q[j] == b;
        }
      }
    } else if q != [] && q' == q[1..] {
      var i, j :| 0 <= i < j < |q'| && q'[i] == a && q'[j] == b;
      assert q[i + 1] == a && q[j + 1] == b;
    } else {
      var t :| q' == Without(q, t);
      WithoutKeepsOrder(q, t, a, b);
    }
  }

  /** An access is granted only to the first of the queue, or when nobody queues. */
  lemma GrantsGoToTheHead(m: Manager, t: Tid, r: Rec, action: Action)
    requires Consistent(m) && AnswerTo(m, t, r, action).allowed
    ensures r in m.queues ==> m.queues[r][0] == t
    ensures Active(m, t) && Holds(AnswerTo(m, t, r, action).m, t, r)
    ensures action == WRITE ==> HoldsX(AnswerTo(m, t, r, action).m, t, r)
  {
    if !Holds(m, t, r) && action == READ {
      GrantSLocks(m, t, r);
    }
  }
}
