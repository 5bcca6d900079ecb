/** When a lock is granted, and what a refusal leaves. */
module LockGrants {
  // In every consistent state, and so in every state of a run.

  import opened Histories
  import opened WaitForGraph
  import opened LockTable
  import opened Collections
  import opened TwoPhaseLockingSafety

  /** Nobody queues for r, or t does first. */
  predicate IsFirst(m: Manager, t: Tid, r: Rec) {
    r in m.queues && m.queues[r] != [] ==> m.queues[r][0] == t
  }

  /** u holds r in X, or at all if the access is a write. */
  predicate Conflicting(m: Manager, u: Tid, r: Rec, action: Action) {
    || (r in m.xLocks && m.xLocks[r] == u)
    || (action == WRITE && r in m.sLocks && u in m.sLocks[r])
  }

  ghost predicate NobodyConflicts(m: Manager, t: Tid, r: Rec, action: Action) {
    forall u :: u != t ==> !Conflicting(m, u, r, action)
  }

  /** The holder that t waits for: the one in X, else the least of the others. */
  ghost predicate WaitsFor(m: Manager, t: Tid, r: Rec, action: Action, holder: Tid) {
    && holder != t && Conflicting(m, holder, r, action)
    && (r !in m.xLocks ==> forall u :: u != t && Conflicting(m, u, r, action) ==> holder <= u)
  }

  lemma NobodyElse(m: Manager, t: Tid, r: Rec, action: Action)
    requires LocksOk(m)
    ensures NobodyConflicts(m, t, r, action) <==>
      && (r in m.xLocks ==> m.xLocks[r] == t)
      && (action == WRITE ==> Holders(m, r) - {t} == {})
  {
    if r in m.xLocks && m.xLocks[r] != t {
      assert Conflicting(m, m.xLocks[r], r, action);
    } else if action == WRITE && Holders(m, r) - {t} != {} {
      var u := AnElement(Holders(m, r) - {t});
      assert Conflicting(m, u, r, action);
    } else {
      assert forall u :: u in Holders(m, r) && u != t ==> u in Holders(m, r) - {t};
    }
  }

  /** An active transaction gets the lock if and only if nobody else queues first and nobody else's lock
      conflicts: S locks do not exclude each other. */
  lemma WhenGranted(m: Manager, t: Tid, r: Rec, action: Action)
    requires Consistent(m)
    ensures AnswerTo(m, t, r, action).allowed <==> Active(m, t) && IsFirst(m, t, r) && NobodyConflicts(m, t, r, action)
  {
    NobodyElse(m, t, r, action);
    if Active(m, t) {
      assert Holds(m, t, r) <==> r in m.txns[t].locked;
    }
  }

  lemma EveryRunGrants(calls: seq<Call>, t: Tid, r: Rec, action: Action)
    ensures var m := Run(calls).0;
      AnswerTo(m, t, r, action).allowed <==> Active(m, t) && IsFirst(m, t, r) && NobodyConflicts(m, t, r, action)
  {
    RunInvariant(calls);
    WhenGranted(Run(calls).0, t, r, action);
  }

  /** A grant gives that lock, exclusively for a write, and no other; nobody loses one. */
  lemma WhatGrantGives(m: Manager, t: Tid, r: Rec, action: Action)
    requires Consistent(m) && AnswerTo(m, t, r, action).allowed
    ensures var n := AnswerTo(m, t, r, action).m;
      && (forall u, s :: Holds(n, u, s) <==> Holds(m, u, s) || (u == t && s == r))
      && (forall u, s :: HoldsX(n, u, s) <==> HoldsX(m, u, s) || (u == t && s == r && action == WRITE))
      && (forall u :: Active(n, u) <==> Active(m, u))
  {
    WhenGranted(m, t, r, action);
    NobodyElse(m, t, r, action);
    if action == READ && r !in m.txns[t].locked {
      assert !Holds(m, t, r);
      GrantSLocks(m, t, r);
    } else if action == WRITE && !HoldsX(m, t, r) {
      GrantXLocks(m, t, r);
    }
  }

  ghost predicate Dequeued(m: Manager, n: Manager, t: Tid, r: Rec) {
    && (forall u, h :: h in Successors(n.waits, u) <==> u != t && h in Successors(m.waits, u))
    && (if r in m.queues then [t] + Queue(n.queues, r) == m.queues[r] else r !in n.queues)
    && (forall s :: s != r ==> Queue(n.queues, s) == Queue(m.queues, s))
    && (forall u :: u != t ==> (u in n.txns <==> u in m.txns) && (u in m.txns ==> n.txns[u] == m.txns[u]))
  }

  lemma GrantDequeues(m: Manager, t: Tid, r: Rec)
    requires QueuesOk(m) && t in m.txns && IsFirst(m, t, r)
    ensures Dequeued(m, Granted(m, t, r), t, r)
  {
  }

  /** A lock that is held already changes nothing. A new one takes t from the front of the queue, and t
      waits for nobody any more. */
  lemma WhatGrantChanges(m: Manager, t: Tid, r: Rec, action: Action)
    requires Consistent(m) && AnswerTo(m, t, r, action).allowed
    ensures var n := AnswerTo(m, t, r, action).m;
      if Holds(m, t, r) && (action == WRITE ==> HoldsX(m, t, r)) then n == m
      else Dequeued(m, n, t, r)
  {
    WhenGranted(m, t, r, action);
    GrantDequeues(m, t, r);
    assert Holds(m, t, r) <==> r in m.txns[t].locked;
  }

  // ---------- a refusal ----------

  ghost predicate SameLocks(m: Manager, n: Manager) {
    n.xLocks == m.xLocks && n.sLocks == m.sLocks && n.txns == m.txns
  }

  /** t is where it was in the queue of r, or behind everyone; the other queues are as they were. */
  ghost predicate QueuedOn(m: Manager, n: Manager, t: Tid, r: Rec) {
    && r in n.queues && t in n.queues[r]
    && (if r in m.queues then n.queues[r] == m.queues[r] || n.queues[r] == m.queues[r] + [t] else n.queues[r] == [t])
    && forall s :: s != r ==> (s in n.queues <==> s in m.queues) && (s in m.queues ==> n.queues[s] == m.queues[s])
  }

  /** Nothing of t is left, and nothing of the others is gone. */
  ghost predicate GoneFrom(m: Manager, n: Manager, t: Tid) {
    && (forall u, s :: Holds(n, u, s) <==> u != t && Holds(m, u, s))
    && (forall u, s :: HoldsX(n, u, s) <==> u != t && HoldsX(m, u, s))
    && (forall u, s :: u in Queue(n.queues, s) <==> u != t && u in Queue(m.queues, s))
    && (forall u, h :: h in Successors(n.waits, u) <==> u != t && h != t && h in Successors(m.waits, u))
    && (forall u :: u != t ==> (u in n.txns <==> u in m.txns) && (u in m.txns ==> n.txns[u] == m.txns[u]))
  }

  ghost predicate PlusEdge(g: Graph, g': Graph, a: Node, b: Node) {
    forall u, h :: h in Successors(g', u) <==> h in Successors(g, u) || (u == a && h == b)
  }

  lemma QueuesWithout(m: Manager, t: Tid, u: Tid, s: Rec)
    requires t in m.txns
    ensures u in Queue(Release(m, t).queues, s) <==> u != t && u in Queue(m.queues, s)
  {
    ReleaseQueueStep(m, t, s);
    WithoutFacts(Queue(m.queues, s), t);
  }

  lemma EdgesWithout(g: Graph, t: Tid, u: Tid, h: Tid)
    ensures h in Successors(RemoveNode(g, t), u) <==> u != t && h != t && h in Successors(g, u)
  {
  }

  lemma ReleaseIsGone(m: Manager, m': Manager, t: Tid)
    requires Consistent(m) && Leaving(m, m', t)
    ensures GoneFrom(m, Release(m', t), t)
  {
    ReleaseLocks(m, m', t);
    forall u, s
      ensures u in Queue(Release(m', t).queues, s) <==> u != t && u in Queue(m.queues, s)
    {
      QueuesWithout(m', t, u, s);
    }
    forall u, h
      ensures h in Successors(Release(m', t).waits, u) <==> u != t && h != t && h in Successors(m.waits, u)
    {
      EdgesWithout(m.waits, t, u, h);
    }
  }

  lemma DeadlockIsCycle(m: Manager, t: Tid, holder: Tid)
    requires Acyclic(m.waits)
    ensures Deadlock(m, t, holder) <==> !Acyclic(AddEdge(m.waits, t, holder))
  {
    var g := AddEdge(m.waits, t, holder);
    if CycleReachable(g, t) {
      var p, c :| CycleVia(g, t, p, c);
      assert IsCycle(g, c);
    } else {
      AddEdgeKeepsAcyclic(m.waits, t, holder);
    }
  }

  lemma WaitingOrGone(m: Manager, t: Tid, r: Rec, holder: Tid)
    requires Consistent(m) && Active(m, t)
    ensures var n := WaitFor(m, t, holder, r);
      if Acyclic(AddEdge(m.waits, t, holder)) then SameLocks(m, n) && QueuedOn(m, n, t, r) && n.waits == AddEdge(m.waits, t, holder)
      else n.txns.Keys == m.txns.Keys && n.txns[t].status == ABORTED && GoneFrom(m, n, t)
  {
    DeadlockIsCycle(m, t, holder);
    if Deadlock(m, t, holder) {
      ReleaseIsGone(m, m.(txns := m.txns[t := m.txns[t].(status := ABORTED)]), t);
    }
  }

  /** With the edges of g the transaction waits, or is gone if they close a cycle. */
  ghost predicate WaitsIn(m: Manager, n: Manager, t: Tid, r: Rec, g: Graph) {
    if Acyclic(g) then SameLocks(m, n) && QueuedOn(m, n, t, r) && n.waits == g
    else t in n.txns && n.txns[t].status == ABORTED && GoneFrom(m, n, t)
  }

  lemma TheHolder(m: Manager, t: Tid, r: Rec, action: Action) returns (holder: Tid)
    requires Consistent(m) && Active(m, t) && IsFirst(m, t, r) && !NobodyConflicts(m, t, r, action)
    ensures WaitsFor(m, t, r, action, holder) && AnswerTo(m, t, r, action).m == WaitFor(m, t, holder, r)
  {
    NobodyElse(m, t, r, action);
    holder := if r in m.xLocks then m.xLocks[r] else Least(Holders(m, r) - {t});
    assert Holds(m, t, r) <==> r in m.txns[t].locked;
    assert forall u :: u in Holders(m, r) && u != t ==> u in Holders(m, r) - {t};
    assert r !in m.xLocks ==> action == WRITE && holder in Holders(m, r) - {t};
  }

  /** Behind others a refused transaction only queues. Otherwise it waits for the holder, queued and with
      an edge, unless that closes a cycle: then it is aborted and gone. */
  lemma WhatRefusalLeaves(m: Manager, t: Tid, r: Rec, action: Action)
    requires Consistent(m) && Active(m, t) && !AnswerTo(m, t, r, action).allowed
    ensures var n := AnswerTo(m, t, r, action).m;
      if !IsFirst(m, t, r) then SameLocks(m, n) && QueuedOn(m, n, t, r) && n.waits == m.waits
      else exists holder, g :: WaitsFor(m, t, r, action, holder) && PlusEdge(m.waits, g, t, holder) && WaitsIn(m, n, t, r, g)
  {
    WhenGranted(m, t, r, action);
    if IsFirst(m, t, r) {
      var holder := TheHolder(m, t, r, action);
      assert PlusEdge(m.waits, AddEdge(m.waits, t, holder), t, holder);
      WaitingOrGone(m, t, r, holder);
    }
  }

  // ---------- the history ----------

  /** An access is in the history if and only if it was granted. */
  lemma GrantsAreTheHistory(calls: seq<Call>, t: Tid, r: Rec, action: Action)
    ensures var m, h, h' := Run(calls).0, Run(calls).1, Run(calls + [Validate(t, r, action)]).1;
      if Active(m, t) && IsFirst(m, t, r) && NobodyConflicts(m, t, r, action) then h' == h + [Access(t, r, action)]
      else h' == h || h' == h + [Abort(t)]
  {
    var all := calls + [Validate(t, r, action)];
    assert all[..|all| - 1] == calls;
    EveryRunGrants(calls, t, r, action);
    assert Run(calls).1 + [] == Run(calls).1;
  }

  /** A commit is in the history when an active transaction ends, and a begin is not. */
  lemma EndsAreTheHistory(calls: seq<Call>, t: Tid)
    ensures var m, h := Run(calls).0, Run(calls).1;
      && Run(calls + [End(t)]).1 == (if Active(m, t) then h + [Commit(t)] else h)
      && Run(calls + [Begin]).1 == h
  {
    assert (calls + [End(t)])[..|calls|] == calls && (calls + [Begin])[..|calls|] == calls;
    assert Run(calls).1 + [] == Run(calls).1;
  }

  // ---------- an end ----------

  /** A commit leaves nothing of the transaction, and the others as they were. */
  lemma WhatEndLeaves(m: Manager, t: Tid)
    requires Consistent(m) && Active(m, t)
    ensures var n := Next(m, End(t)); n.txns[t].status == COMMITTED && GoneFrom(m, n, t)
  {
    ReleaseIsGone(m, m.(txns := m.txns[t := m.txns[t].(phase := SHRINKING, status := COMMITTED)]), t);
  }

  /** Locks, queues and edges are as they were, and so are all transactions but for the phase of t. */
  ghost predicate NothingGone(m: Manager, n: Manager, t: Tid) {
    && (forall u, s :: (Holds(n, u, s) <==> Holds(m, u, s)) && (HoldsX(n, u, s) <==> HoldsX(m, u, s)))
    && (forall s :: Queue(n.queues, s) == Queue(m.queues, s))
    && (forall u :: Successors(n.waits, u) == Successors(m.waits, u))
    && n.txns.Keys == m.txns.Keys && (t in m.txns ==> n.txns[t].status == m.txns[t].status)
    && (forall u :: u != t && u in m.txns ==> n.txns[u] == m.txns[u])
  }

  lemma {:induction false} NothingWithout(q: seq<Tid>, t: Tid)
    requires t !in q
    ensures Without(q, t) == q
  {
    if q != [] {
      assert q[0] in q;
      NothingWithout(q[1..], t);
    }
  }

  lemma NothingReleased(m: Manager, m': Manager, t: Tid)
    requires Consistent(m) && !Active(m, t) && Leaving(m, m', t) && m'.txns[t].status == m.txns[t].status
    ensures NothingGone(m, Release(m', t), t)
  {
    InactiveHoldNothing(m, t);
    ReleaseIsGone(m, m', t);
    forall s
      ensures Queue(Release(m', t).queues, s) == Queue(m.queues, s)
    {
      ReleaseQueueStep(m', t, s);
      NothingWithout(Queue(m.queues, s), t);
    }
    forall u
      ensures Successors(Release(m', t).waits, u) == Successors(m.waits, u)
    {
    }
  }

  /** Ending what is not active leaves everything as it is. */
  lemma WhatLateEndLeaves(m: Manager, t: Tid)
    requires Consistent(m) && !Active(m, t)
    ensures NothingGone(m, Next(m, End(t)), t)
  {
    if t in m.txns && m.txns[t].status == COMMITTED {
      NothingReleased(m, m.(txns := m.txns[t := m.txns[t].(phase := SHRINKING, status := COMMITTED)]), t);
    }
  }
}
