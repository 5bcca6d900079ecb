/** Concurrency control by timestamp ordering. */
module TimestampOrdering {
  // The granted accesses can be reordered by timestamp without changing any read or the final store.

  import opened Wrappers
  import opened Histories
  import opened Serialisability

  datatype Transaction = Transaction(timestamp: int, state: Status)

  datatype ObjectTimestamp = ObjectTimestamp(readTs: int, writeTs: int)

  // ---------- the invariant ----------

  /** The largest timestamp among the granted accesses of one kind to r, 0 without any. */
  function MaxTs(h: History, r: Rec, action: Action): int {
    if h == [] then 0
    else
      var rest := MaxTs(h[..|h| - 1], r, action);
      var e := h[|h| - 1];
      if e.Access? && e.r == r && e.action == action && e.t > rest then e.t else rest
  }

  lemma MaxTsSnoc(h: History, e: Event, r: Rec, action: Action)
    ensures MaxTs(h + [e], r, action) ==
      if e.Access? && e.r == r && e.action == action && e.t > MaxTs(h, r, action) then e.t else MaxTs(h, r, action)
  {
    assert (h + [e])[..|h|] == h;
  }

  lemma {:induction false} MaxTsIsMax(h: History, r: Rec, action: Action)
    ensures forall i :: 0 <= i < |h| && h[i].Access? && h[i].r == r && h[i].action == action ==>
      h[i].t <= MaxTs(h, r, action)
  {
    if h != [] {
      MaxTsIsMax(h[..|h| - 1], r, action);
    }
  }

  /** Conflicting accesses are granted in timestamp order. */
  ghost predicate TimestampOrdered(h: History) {
    && (forall i :: 0 <= i < |h| ==> h[i].Access?)
    && forall i, j :: 0 <= i < j < |h| && Conflict(h[i], h[j]) ==> h[i].t < h[j].t
  }

  ghost predicate Tracked(objects: map<Rec, ObjectTimestamp>, h: History) {
    && TimestampOrdered(h)
    && (forall i :: 0 <= i < |h| ==> h[i].r in objects)
    && forall r :: r in objects ==>
         objects[r].readTs == MaxTs(h, r, READ) && objects[r].writeTs == MaxTs(h, r, WRITE)
  }

  /** The protocol's test admits an access only after every conflicting access of a smaller timestamp. */
  lemma GrantKeepsOrder(objects: map<Rec, ObjectTimestamp>, h: History, e: Event)
    requires Tracked(objects, h) && e.Access? && e.r in objects
    requires objects[e.r].writeTs <= e.t && (e.action == WRITE ==> objects[e.r].readTs <= e.t)
    ensures TimestampOrdered(h + [e])
  {
    var g := h + [e];
    MaxTsIsMax(h, e.r, READ);
    MaxTsIsMax(h, e.r, WRITE);
    forall i, j | 0 <= i < j < |g| && Conflict(g[i], g[j])
      ensures g[i].t < g[j].t
    {
      if j == |h| {
        assert h[i].action == READ || h[i].action == WRITE;
      } else {
        assert Conflict(h[i], h[j]);
      }
    }
  }

  lemma {:induction false} UnseenHasNoTs(h: History, r: Rec)
    requires forall i :: 0 <= i < |h| ==> h[i].Access? && h[i].r != r
    ensures MaxTs(h, r, READ) == 0 && MaxTs(h, r, WRITE) == 0
  {
    if h != [] {
      UnseenHasNoTs(h[..|h| - 1], r);
    }
  }

  lemma {:induction false} MaxTsIsAttained(h: History, r: Rec, action: Action)
    ensures MaxTs(h, r, action) == 0 ||
      exists i :: 0 <= i < |h| && h[i] == Access(MaxTs(h, r, action), r, action)
  {
    if h != [] {
      var g, e := h[..|h| - 1], h[|h| - 1];
      MaxTsIsAttained(g, r, action);
      if MaxTs(h, r, action) != MaxTs(g, r, action) {
        assert h[|h| - 1] == Access(MaxTs(h, r, action), r, action);
      } else if i :| 0 <= i < |g| && g[i] == Access(MaxTs(g, r, action), r, action) {
        assert h[i] == g[i];
      }
    }
  }

  /** The test on the two stored timestamps decides the question about the whole history. */
  lemma TestDecidesConflicts(objects: map<Rec, ObjectTimestamp>, h: History, e: Event)
    requires Tracked(objects, h) && e.Access? && e.r in objects && e.t >= 1
    ensures (objects[e.r].writeTs <= e.t && (e.action == WRITE ==> objects[e.r].readTs <= e.t)) <==>
      forall i :: 0 <= i < |h| && Conflict(h[i], e) ==> h[i].t < e.t
  {
    MaxTsIsMax(h, e.r, READ);
    MaxTsIsMax(h, e.r, WRITE);
    MaxTsIsAttained(h, e.r, READ);
    MaxTsIsAttained(h, e.r, WRITE);
    if objects[e.r].writeTs > e.t {
      var i :| 0 <= i < |h| && h[i] == Access(MaxTs(h, e.r, WRITE), e.r, WRITE);
      assert Conflict(h[i], e) && h[i].t > e.t;
    } else if e.action == WRITE && objects[e.r].readTs > e.t {
      var i :| 0 <= i < |h| && h[i] == Access(MaxTs(h, e.r, READ), e.r, READ);
      assert Conflict(h[i], e) && h[i].t > e.t;
    }
    forall i | 0 <= i < |h| && Conflict(h[i], e)
      ensures h[i].t <= (if h[i].action == WRITE then objects[e.r].writeTs else objects[e.r].readTs)
    {
      assert h[i].action == READ || h[i].action == WRITE;
    }
  }

  function Bump(ts: ObjectTimestamp, e: Event): ObjectTimestamp
    requires e.Access?
  {
    if e.action == READ then ts.(readTs := if ts.readTs < e.t then e.t else ts.readTs) else ts.(writeTs := e.t)
  }

  lemma GrantIsTracked(objects: map<Rec, ObjectTimestamp>, h: History, e: Event)
    requires Tracked(objects, h) && e.Access? && e.r in objects && e.t >= 1
    requires objects[e.r].writeTs <= e.t && (e.action == WRITE ==> objects[e.r].readTs <= e.t)
    ensures Tracked(objects[e.r := Bump(objects[e.r], e)], h + [e])
  {
    GrantKeepsOrder(objects, h, e);
    var objects' := objects[e.r := Bump(objects[e.r], e)];
    forall r | r in objects'
      ensures objects'[r].readTs == MaxTs(h + [e], r, READ) && objects'[r].writeTs == MaxTs(h + [e], r, WRITE)
    {
      MaxTsSnoc(h, e, r, READ);
      MaxTsSnoc(h, e, r, WRITE);
    }
  }

  // ---------- equivalence to the serial order ----------

  /** e goes behind everything that is not younger. */
  function Insert(s: History, e: Event): History {
    if s == [] || s[|s| - 1].t <= e.t then s + [e]
    else Insert(s[..|s| - 1], e) + [s[|s| - 1]]
  }

  /** The history, stably reordered by timestamp. */
  function ByTimestamp(h: History): History {
    if h == [] then [] else Insert(ByTimestamp(h[..|h| - 1]), h[|h| - 1])
  }

  ghost predicate Sorted(h: History) {
    forall i, j :: 0 <= i < j < |h| ==> h[i].t <= h[j].t
  }

  lemma CommuteReads(w: World, a: Event, b: Event, prog: Program)
    requires a.Access? && b.Access? && a.t != b.t && a.action == READ && b.action == READ
    ensures Step(Step(w, a, prog), b, prog) == Step(Step(w, b, prog), a, prog)
  {
    assert Step(Step(w, a, prog), b, prog).logs == Step(Step(w, b, prog), a, prog).logs;
  }

  lemma SwapUpdates<K, V>(m: map<K, V>, k: K, v: V, k': K, v': V)
    requires k != k'
    ensures m[k := v][k' := v'] == m[k' := v'][k := v]
  {
  }

  lemma CommuteReadWrite(w: World, a: Event, b: Event, prog: Program)
    requires a.Access? && b.Access? && a.t != b.t && a.r != b.r && a.action == READ && b.action == WRITE
    ensures Step(Step(w, a, prog), b, prog) == Step(Step(w, b, prog), a, prog)
  {
    var read, written := Log(w, a.t) + [Lookup(w.store, a.r)], Log(w, b.t) + [Some(prog(b.t, Log(w, b.t)))];
    SwapUpdates(w.logs, a.t, read, b.t, written);
    assert Log(Step(w, a, prog), b.t) == Log(w, b.t) && Log(Step(w, b, prog), a.t) == Log(w, a.t);
    assert Lookup(Step(w, b, prog).store, a.r) == Lookup(w.store, a.r);
  }

  function AddImage(images: map<Tid, map<Rec, Option<Value>>>, t: Tid, r: Rec, v: Option<Value>): map<Tid, map<Rec, Option<Value>>> {
    var own := if t in images then images[t] else map[];
    if r in own then images else images[t := own[r := v]]
  }

  lemma AddImagesCommute(images: map<Tid, map<Rec, Option<Value>>>, t: Tid, r: Rec, v: Option<Value>, t': Tid, r': Rec, v': Option<Value>)
    requires t != t'
    ensures AddImage(AddImage(images, t, r, v), t', r', v') == AddImage(AddImage(images, t', r', v'), t, r, v)
  {
  }

  lemma WriteThenWrite(w: World, a: Event, b: Event, prog: Program)
    requires a.Access? && b.Access? && a.t != b.t && a.r != b.r && a.action == WRITE && b.action == WRITE
    ensures var va, vb := prog(a.t, Log(w, a.t)), prog(b.t, Log(w, b.t));
      Step(Step(w, a, prog), b, prog) == World(
        w.store[a.r := va][b.r := vb],
        w.logs[a.t := Log(w, a.t) + [Some(va)]][b.t := Log(w, b.t) + [Some(vb)]],
        AddImage(AddImage(w.images, a.t, a.r, Lookup(w.store, a.r)), b.t, b.r, Lookup(w.store, b.r)))
  {
    var x := Step(w, a, prog);
    assert Log(x, b.t) == Log(w, b.t) && Lookup(x.store, b.r) == Lookup(w.store, b.r);
    assert x.images == AddImage(w.images, a.t, a.r, Lookup(w.store, a.r));
  }

  lemma CommuteWrites(w: World, a: Event, b: Event, prog: Program)
    requires a.Access? && b.Access? && a.t != b.t && a.r != b.r && a.action == WRITE && b.action == WRITE
    ensures Step(Step(w, a, prog), b, prog) == Step(Step(w, b, prog), a, prog)
  {
    WriteThenWrite(w, a, b, prog);
    WriteThenWrite(w, b, a, prog);
    AddImagesCommute(w.images, a.t, a.r, Lookup(w.store, a.r), b.t, b.r, Lookup(w.store, b.r));
    SwapUpdates(w.store, a.r, prog(a.t, Log(w, a.t)), b.r, prog(b.t, Log(w, b.t)));
    SwapUpdates(w.logs, a.t, Log(w, a.t) + [Some(prog(a.t, Log(w, a.t)))], b.t, Log(w, b.t) + [Some(prog(b.t, Log(w, b.t)))]);
  }

  /** Accesses of different transactions that do not conflict can be swapped. */
  lemma Commute(w: World, a: Event, b: Event, prog: Program)
    requires a.Access? && b.Access? && a.t != b.t && !Conflict(a, b)
    ensures Step(Step(w, a, prog), b, prog) == Step(Step(w, b, prog), a, prog)
  {
    match (a.action, b.action)
    case (READ, READ) => CommuteReads(w, a, b, prog);
    case (READ, WRITE) => CommuteReadWrite(w, a, b, prog);
    case (WRITE, READ) => CommuteReadWrite(w, b, a, prog);
    case (WRITE, WRITE) => CommuteWrites(w, a, b, prog);
  }

  lemma {:induction false} InsertFacts(s: History, e: Event)
    requires Sorted(s)
    ensures Sorted(Insert(s, e)) && |Insert(s, e)| == |s| + 1
    ensures forall x :: x in Insert(s, e) <==> x in s || x == e
  {
    if s != [] && s[|s| - 1].t > e.t {
      var front, last := s[..|s| - 1], s[|s| - 1];
      InsertFacts(front, e);
      assert s == front + [last];
      var ins := Insert(front, e);
      forall i | 0 <= i < |ins|
        ensures ins[i].t <= last.t
      {
        assert ins[i] in ins;
      }
    }
  }

  lemma {:induction false} InsertKeepsExec(w: World, s: History, e: Event, prog: Program)
    requires e.Access? && forall i :: 0 <= i < |s| ==> s[i].Access? && (s[i].t > e.t ==> !Conflict(s[i], e))
    ensures Exec(w, Insert(s, e), prog) == Exec(w, s + [e], prog)
  {
    if s != [] && s[|s| - 1].t > e.t {
      var front, last := s[..|s| - 1], s[|s| - 1];
      InsertKeepsExec(w, front, e, prog);
      ExecSnoc(w, Insert(front, e), last, prog);
      ExecSnoc(w, front, e, prog);
      ExecSnoc(w, s, e, prog);
      assert Conflict(e, last) == Conflict(last, e);
      Commute(Exec(w, front, prog), last, e, prog);
    }
  }

  lemma {:induction false} ByTimestampFacts(h: History)
    ensures Sorted(ByTimestamp(h)) && |ByTimestamp(h)| == |h|
    ensures forall x :: x in ByTimestamp(h) <==> x in h
  {
    if h != [] {
      ByTimestampFacts(h[..|h| - 1]);
      assert h == h[..|h| - 1] + [h[|h| - 1]];
      InsertFacts(ByTimestamp(h[..|h| - 1]), h[|h| - 1]);
    }
  }

  lemma {:induction false} InsertKeepsOps(s: History, e: Event, t: Tid)
    requires e.Access? && forall i :: 0 <= i < |s| ==> s[i].Access?
    ensures Ops(Insert(s, e), t) == Ops(s + [e], t)
  {
    OpsSnoc(s, e, t);
    if s != [] && s[|s| - 1].t > e.t {
      var front, last := s[..|s| - 1], s[|s| - 1];
      assert s == front + [last];
      InsertKeepsOps(front, e, t);
      OpsSnoc(front, e, t);
      OpsSnoc(front, last, t);
      OpsSnoc(Insert(front, e), last, t);
    }
  }

  /** Sorting by timestamp gives a serial history in which every transaction keeps its own order. */
  lemma {:induction false} ByTimestampIsSerial(h: History, t: Tid)
    requires forall i :: 0 <= i < |h| ==> h[i].Access?
    ensures Sorted(ByTimestamp(h)) && IsSerial(ByTimestamp(h))
    ensures Ops(ByTimestamp(h), t) == Ops(h, t)
  {
    ByTimestampFacts(h);
    if h != [] {
      var g, e := h[..|h| - 1], h[|h| - 1];
      assert h == g + [e];
      ByTimestampIsSerial(g, t);
      ByTimestampFacts(g);
      forall i | 0 <= i < |ByTimestamp(g)|
        ensures ByTimestamp(g)[i].Access?
      {
        assert ByTimestamp(g)[i] in g;
      }
      InsertKeepsOps(ByTimestamp(g), e, t);
      OpsSnoc(ByTimestamp(g), e, t);
      OpsSnoc(g, e, t);
    }
  }

  /** The granted accesses, run as granted or run serially in timestamp order, leave the same
      store and give every transaction the same reads. */
  lemma {:induction false} TimestampOrderIsSerial(h: History, w: World, prog: Program)
    requires TimestampOrdered(h)
    ensures Exec(w, ByTimestamp(h), prog) == Exec(w, h, prog)
  {
    if h != [] {
      var g, e := h[..|h| - 1], h[|h| - 1];
      assert h == g + [e] && h[|g|] == e;
      assert forall i :: 0 <= i < |g| ==> g[i] == h[i];
      TimestampOrderIsSerial(g, w, prog);
      ByTimestampFacts(g);
      var s := ByTimestamp(g);
      forall i | 0 <= i < |s|
        ensures s[i].Access? && (s[i].t > e.t ==> !Conflict(s[i], e))
      {
        assert s[i] in g;
        var j :| 0 <= j < |g| && g[j] == s[i];
        assert Conflict(h[j], h[|g|]) ==> h[j].t < h[|g|].t;
      }
      InsertKeepsExec(w, s, e, prog);
      ExecSnoc(w, s, e, prog);
      ExecSnoc(w, g, e, prog);
    }
  }

  // ---------- the manager ----------

  class TimestampCCManager {
    var transactions: map<Tid, Transaction>
    var objectTimestamps: map<Rec, ObjectTimestamp>
    var currentTimestamp: int
    ghost var history: History  // the accesses granted so far

    ghost predicate Valid()
      reads this
    {
      && currentTimestamp >= 0
      && (forall t :: t in transactions ==>
            1 <= t <= currentTimestamp && transactions[t].timestamp == t)
      && Tracked(objectTimestamps, history)
    }

    constructor ()
      ensures Valid() && transactions == map[] && objectTimestamps == map[] && currentTimestamp == 0
      ensures history == []
    {
      transactions, objectTimestamps, currentTimestamp, history := map[], map[], 0, [];
    }

    method BeginTransaction() returns (tid: Tid)
      requires Valid()
      modifies this`transactions, this`currentTimestamp
      ensures Valid() && tid == old(currentTimestamp) + 1 == currentTimestamp && tid !in old(transactions)
      ensures transactions == old(transactions)[tid := Transaction(tid, ACTIVE)]
    {
      currentTimestamp := currentTimestamp + 1;
      tid := currentTimestamp;
      transactions := transactions[tid := Transaction(currentTimestamp, ACTIVE)];
    }

    /** The source throws for an unknown transaction; here the answer says so. */
    method LogObject(t: Tid, r: Rec) returns (known: bool)
      requires Valid()
      modifies this`objectTimestamps
      ensures Valid() && (known <==> t in transactions)
      ensures objectTimestamps ==
        if known && r !in old(objectTimestamps) then old(objectTimestamps)[r := ObjectTimestamp(0, 0)]
        else old(objectTimestamps)
    {
      if t !in transactions {
        return false;
      }
      if r !in objectTimestamps {
        UnseenHasNoTs(history, r);
        objectTimestamps := objectTimestamps[r := ObjectTimestamp(0, 0)];
      }
      return true;
    }

    /** Granted exactly when no conflicting access of a larger timestamp was granted before. */
    method ValidateObject(t: Tid, r: Rec, action: Action) returns (allowed: bool)
      requires Valid()
      modifies this`transactions, this`objectTimestamps, this`history
      ensures Valid()
      ensures allowed <==>
        && t in old(transactions) && old(transactions)[t].state != FAILED && r in old(objectTimestamps)
        && forall i :: 0 <= i < |old(history)| && Conflict(old(history)[i], Access(t, r, action)) ==> old(history)[i].t < t
      ensures history == if allowed then old(history) + [Access(t, r, action)] else old(history)
      ensures objectTimestamps.Keys == old(objectTimestamps).Keys
      ensures transactions ==
        if t in old(transactions) && r in old(objectTimestamps) && !allowed
        then old(transactions)[t := old(transactions)[t].(state := FAILED)]
        else old(transactions)
    {
      var e := Access(t, r, action);
      if t !in transactions {
        return false;
      }
      var transaction := transactions[t];
      if transaction.state == FAILED {
        assert transactions[t := transaction.(state := FAILED)] == transactions;
        return false;
      }
      if r !in objectTimestamps {
        return false;
      }
      TestDecidesConflicts(objectTimestamps, history, e);
      var ts := objectTimestamps[r];
      if action == READ {
        if transaction.timestamp < ts.writeTs {
          transactions := transactions[t := transaction.(state := FAILED)];
          return false;
        }
        objectTimestamps := objectTimestamps[r := ts.(readTs := if ts.readTs < transaction.timestamp then transaction.timestamp else ts.readTs)];
      } else {
        if transaction.timestamp < ts.readTs || transaction.timestamp < ts.writeTs {
          transactions := transactions[t := transaction.(state := FAILED)];
          return false;
        }
        objectTimestamps := objectTimestamps[r := ts.(writeTs := transaction.timestamp)];
      }
      GrantIsTracked(old(objectTimestamps), history, e);
      history := history + [e];
      return true;
    }

    method EndTransaction(t: Tid)
      requires Valid()
      modifies this`transactions
      ensures Valid() && transactions == old(transactions) - {t}
    {
      if t !in transactions {
        return;
      }
      var transaction := transactions[t];
      if transaction.state == FAILED {
        transactions := transactions[t := transaction.(state := ABORTED)];
        transactions := transactions[t := transaction.(state := TERMINATED)];
      } else if transaction.state == ABORTED {
        transactions := transactions[t := transaction.(state := TERMINATED)];
      } else if transaction.state == ACTIVE {
        transactions := transactions[t := transaction.(state := PARTIALLY_COMMITTED)];
        transactions := transactions[t := transaction.(state := COMMITTED)];
        transactions := transactions[t := transaction.(state := TERMINATED)];
      } else if transaction.state == PARTIALLY_COMMITTED {
        transactions := transactions[t := transaction.(state := COMMITTED)];
        transactions := transactions[t := transaction.(state := TERMINATED)];
      } else {
        transactions := transactions[t := transaction.(state := TERMINATED)];
      }
      transactions := transactions - {t};
    }

    /** Whatever was granted, run as granted or run serially in timestamp order, leaves the same store
        and the same reads. */
    lemma RunsAreSerial(w: World, prog: Program)
      requires Valid()
      ensures Exec(w, ByTimestamp(history), prog) == Exec(w, history, prog)
      ensures Sorted(ByTimestamp(history)) && IsSerial(ByTimestamp(history))
      ensures forall t :: Ops(ByTimestamp(history), t) == Ops(history, t)
    {
      TimestampOrderIsSerial(history, w, prog);
      forall t
        ensures Sorted(ByTimestamp(history)) && IsSerial(ByTimestamp(history)) && Ops(ByTimestamp(history), t) == Ops(history, t)
      {
        ByTimestampIsSerial(history, t);
      }
      ByTimestampIsSerial(history, 0);
    }
  }
}
