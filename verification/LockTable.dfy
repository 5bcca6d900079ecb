/** Two-phase locking as a state machine: lock tables, per-record queues and wait-for graph, and
    what one call of the manager makes of them. */
module LockTable {
  import opened Histories
  import opened WaitForGraph
  import opened Collections

  datatype Phase = GROWING | SHRINKING

  datatype TxnInfo = TxnInfo(status: Status, phase: Phase, locked: set<Rec>)

  datatype Manager = Manager(
    xLocks: map<Rec, Tid>,
    sLocks: map<Rec, set<Tid>>,
    txns: map<Tid, TxnInfo>,
    waits: Graph,
    queues: map<Rec, seq<Tid>>,
    current: int)

  const Empty := Manager(map[], map[], map[], map[], map[], 0)

  function Holders(m: Manager, r: Rec): set<Tid> {
    if r in m.sLocks then m.sLocks[r] else {}
  }

  predicate HoldsX(m: Manager, t: Tid, r: Rec) {
    r in m.xLocks && m.xLocks[r] == t
  }

  predicate Holds(m: Manager, t: Tid, r: Rec) {
    HoldsX(m, t, r) || t in Holders(m, r)
  }

  predicate Active(m: Manager, t: Tid) {
    t in m.txns && m.txns[t].status == ACTIVE
  }

  // ---------- queues ----------

  /** The queue of r without t, the others in their order. */
  function Without(q: seq<Tid>, t: Tid): seq<Tid> {
    if q == [] then []
    else if q[0] == t then Without(q[1..], t)
    else [q[0]] + Without(q[1..], t)
  }

  function Queue(queues: map<Rec, seq<Tid>>, r: Rec): seq<Tid> {
    if r in queues then queues[r] else []
  }

  /** Someone else is first in the queue of r. */
  predicate MustQueue(m: Manager, t: Tid, r: Rec) {
    var q := Queue(m.queues, r);
    q != [] && q[0] != t
  }

  function Enqueue(queues: map<Rec, seq<Tid>>, t: Tid, r: Rec): map<Rec, seq<Tid>> {
    var q := Queue(queues, r);
    if t in q then queues else queues[r := q + [t]]
  }

  function Dequeue(queues: map<Rec, seq<Tid>>, t: Tid, r: Rec): map<Rec, seq<Tid>> {
    var q := Queue(queues, r);
    if q == [] || q[0] != t then queues
    else if |q| == 1 then queues - {r}
    else queues[r := q[1..]]
  }

  // ---------- locks ----------

  /** Everything t holds, waits for and is waited for is gone. */
  function Release(m: Manager, t: Tid): Manager
    requires t in m.txns
  {
    Manager(
      map r | r in m.xLocks && m.xLocks[r] != t :: m.xLocks[r],
      map r | r in m.sLocks && m.sLocks[r] - {t} != {} :: m.sLocks[r] - {t},
      m.txns[t := m.txns[t].(locked := {})],
      RemoveNode(m.waits, t),
      map r | r in m.queues && Without(m.queues[r], t) != [] :: Without(m.queues[r], t),
      m.current)
  }

  function AbortTxn(m: Manager, t: Tid): Manager {
    if t !in m.txns then m
    else Release(m.(txns := m.txns[t := m.txns[t].(status := ABORTED)]), t)
  }

  ghost predicate Deadlock(m: Manager, waiter: Tid, holder: Tid) {
    CycleReachable(AddEdge(m.waits, waiter, holder), waiter)
  }

  /** t finds r held by `holder`: it aborts if waiting would close a cycle, and waits otherwise. */
  ghost function WaitFor(m: Manager, t: Tid, holder: Tid, r: Rec): Manager {
    if Deadlock(m, t, holder) then AbortTxn(m, t)
    else m.(waits := AddEdge(m.waits, t, holder), queues := Enqueue(m.queues, t, r))
  }

  function Granted(m: Manager, t: Tid, r: Rec): Manager
    requires t in m.txns
  {
    m.(txns := m.txns[t := m.txns[t].(locked := m.txns[t].locked + {r})],
       waits := m.waits - {t},
       queues := Dequeue(m.queues, t, r))
  }

  function GrantS(m: Manager, t: Tid, r: Rec): Manager
    requires t in m.txns
  {
    Granted(m, t, r).(sLocks := m.sLocks[r := Holders(m, r) + {t}])
  }

  function GrantX(m: Manager, t: Tid, r: Rec): Manager
    requires t in m.txns
  {
    Granted(m, t, r).(xLocks := m.xLocks[r := t], sLocks := m.sLocks - {r})
  }

  datatype Answer = Answer(m: Manager, allowed: bool)

  ghost function AcquireS(m: Manager, t: Tid, r: Rec): Answer
    requires t in m.txns
  {
    if MustQueue(m, t, r) then Answer(m.(queues := Enqueue(m.queues, t, r)), false)
    else if r in m.txns[t].locked then Answer(m, true)
    else if r in m.xLocks && m.xLocks[r] != t then Answer(WaitFor(m, t, m.xLocks[r], r), false)
    else Answer(GrantS(m, t, r), true)
  }

  ghost function AcquireX(m: Manager, t: Tid, r: Rec): Answer
    requires t in m.txns
  {
    if MustQueue(m, t, r) then Answer(m.(queues := Enqueue(m.queues, t, r)), false)
    else if HoldsX(m, t, r) then Answer(m, true)
    else if r in m.xLocks then Answer(WaitFor(m, t, m.xLocks[r], r), false)
    else if Holders(m, r) - {t} != {} then
      Answer(WaitFor(m, t, Least(Holders(m, r) - {t}), r), false)
    else Answer(GrantX(m, t, r), true)
  }

  // ---------- calls ----------

  datatype Call = Begin | Validate(t: Tid, r: Rec, action: Action) | End(t: Tid)

  ghost function AnswerTo(m: Manager, t: Tid, r: Rec, action: Action): Answer {
    if t !in m.txns || m.txns[t].status in {ABORTED, FAILED, COMMITTED} then Answer(m, false)
    else if m.txns[t].phase == SHRINKING then Answer(AbortTxn(m, t), false)
    else if action == READ then AcquireS(m, t, r)
    else AcquireX(m, t, r)
  }

  function Ended(m: Manager, t: Tid): Manager {
    if t !in m.txns then m
    else if m.txns[t].status == ABORTED then m.(txns := m.txns[t := m.txns[t].(phase := SHRINKING)])
    else Release(m.(txns := m.txns[t := m.txns[t].(phase := SHRINKING, status := COMMITTED)]), t)
  }

  ghost function Next(m: Manager, c: Call): Manager {
    match c
    case Begin => m.(current := m.current + 1, txns := m.txns[m.current + 1 := TxnInfo(ACTIVE, GROWING, {})])
    case Validate(t, r, action) => AnswerTo(m, t, r, action).m
    case End(t) => Ended(m, t)
  }

  /** What a call adds to the history. */
  ghost function Emits(m: Manager, c: Call): History {
    match c
    case Begin => []
    case Validate(t, r, action) =>
      var answer := AnswerTo(m, t, r, action);
      if answer.allowed then [Access(t, r, action)]
      else if Active(m, t) && !Active(answer.m, t) then [Abort(t)]
      else []
    case End(t) => if Active(m, t) then [Commit(t)] else []
  }

  ghost function Run(calls: seq<Call>): (Manager, History) {
    if calls == [] then (Empty, [])
    else
      var (m, h) := Run(calls[..|calls| - 1]);
      var c := calls[|calls| - 1];
      (Next(m, c), h + Emits(m, c))
  }

  // ---------- the invariant ----------

  ghost predicate LocksOk(m: Manager) {
    && (forall r :: r in m.xLocks ==> r !in m.sLocks)
    && (forall r :: r in m.sLocks ==> m.sLocks[r] != {})
    && (forall t, r :: Holds(m, t, r) <==> t in m.txns && r in m.txns[t].locked)
  }

  ghost predicate TxnsOk(m: Manager) {
    forall t :: t in m.txns ==>
      && 1 <= t <= m.current
      && m.txns[t].status in {ACTIVE, COMMITTED, ABORTED}
      && (m.txns[t].status != ACTIVE ==> m.txns[t].locked == {})
      && (m.txns[t].phase == SHRINKING ==> m.txns[t].status != ACTIVE)
  }

  ghost predicate NoDuplicates(q: seq<Tid>) {
    forall i, j :: 0 <= i < j < |q| ==> q[i] != q[j]
  }

  ghost predicate QueuesOk(m: Manager) {
    forall r :: r in m.queues ==>
      && m.queues[r] != [] && NoDuplicates(m.queues[r])
      && forall t :: t in m.queues[r] ==> Active(m, t)
  }

  /** The edge T -> H stands for a record that H holds and T is queued on. */
  ghost predicate Justified(m: Manager, t: Tid, h: Tid) {
    exists r :: Holds(m, h, r) && t in Queue(m.queues, r)
  }

  ghost predicate WaitsOk(m: Manager) {
    && Acyclic(m.waits)
    && forall t :: t in m.waits ==>
         m.waits[t] != {} && forall h :: h in m.waits[t] ==> Justified(m, t, h)
  }

  ghost predicate Consistent(m: Manager) {
    LocksOk(m) && TxnsOk(m) && QueuesOk(m) && WaitsOk(m)
  }

  predicate Over(m: Manager, t: Tid) {
    t in m.txns && m.txns[t].status != ACTIVE
  }

  ghost predicate RemembersTxn(m: Manager, h: History, t: Tid) {
    && (t in Finished(h) <==> Over(m, t))
    && (t !in Finished(h) ==>
          && (forall r :: r in Touched(h, t) ==> Holds(m, t, r))
          && (forall r :: r in Written(h, t) ==> HoldsX(m, t, r)))
  }

  /** The history as the lock tables remember it: an unfinished transaction still holds
      everything it touched, exclusively what it wrote. */
  ghost predicate Remembers(m: Manager, h: History) {
    Strict(h) && forall t :: RemembersTxn(m, h, t)
  }
}
