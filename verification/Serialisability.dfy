/** Strict histories are serialisable. */
module Serialisability {
  // They are equivalent to running the committed transactions one after the other, in the order in
  // which they committed.

  import opened Histories

  /** The accesses of transaction t, in order. */
  function Ops(h: History, t: Tid): History {
    if h == [] then []
    else
      var rest := Ops(h[..|h| - 1], t);
      var e := h[|h| - 1];
      if e.Access? && e.t == t then rest + [e] else rest
  }

  /** The serial history: at each commit, all of that transaction's accesses and its commit. */
  function Serial(h: History): History {
    if h == [] then []
    else
      var rest := Serial(h[..|h| - 1]);
      match h[|h| - 1]
      case Commit(t) => rest + Ops(h[..|h| - 1], t) + [Commit(t)]
      case _ => rest
  }

  lemma OpsSnoc(h: History, e: Event, t: Tid)
    ensures Ops(h + [e], t) == if e.Access? && e.t == t then Ops(h, t) + [e] else Ops(h, t)
  {
    assert (h + [e])[..|h|] == h;
  }

  lemma SerialSnoc(h: History, e: Event)
    ensures Serial(h + [e]) ==
      if e.Commit? then Serial(h) + Ops(h, e.t) + [e] else Serial(h)
  {
    assert (h + [e])[..|h|] == h;
  }

  /** `ops` are accesses of t: to the records of `touched`, of which those in `written` are written. */
  predicate Alone(ops: History, t: Tid, touched: set<Rec>, written: set<Rec>) {
    forall i :: 0 <= i < |ops| ==>
      && ops[i].Access? && ops[i].t == t && ops[i].r in touched
      && (ops[i].action == WRITE ==> ops[i].r in written)
  }

  lemma {:induction false} OpsAreAlone(h: History, t: Tid)
    ensures Alone(Ops(h, t), t, Touched(h, t), Written(h, t))
  {
    if h != [] {
      var g, e := h[..|h| - 1], h[|h| - 1];
      assert h == g + [e];
      Snoc(g, e);
      OpsAreAlone(g, t);
    }
  }

  /** One access changes at most its own record, and only its own log. */
  lemma StepFrame(w: World, e: Event, prog: Program)
    requires e.Access?
    ensures forall r :: r != e.r || e.action == READ ==>
      Lookup(Step(w, e, prog).store, r) == Lookup(w.store, r)
    ensures forall u :: u != e.t ==>
      Log(Step(w, e, prog), u) == Log(w, u) && Images(Step(w, e, prog), u) == Images(w, u)
  {
  }

  /** Only the first write of a record adds a before-image. */
  lemma ImageAdded(w: World, e: Event, prog: Program)
    requires e.Access?
    ensures Images(Step(w, e, prog), e.t) ==
      if e.action == WRITE && e.r !in Images(w, e.t) then Images(w, e.t)[e.r := Lookup(w.store, e.r)] else Images(w, e.t)
  {
  }

  /** A commit forgets the before-images. */
  lemma Forgotten(w: World, t: Tid, prog: Program)
    ensures var w' := Step(w, Commit(t), prog);
      w'.logs == w.logs && w'.store == w.store && forall u :: u != t ==> Images(w', u) == Images(w, u)
  {
  }

  /** What undoing t makes of a world. */
  lemma Restored(v: World, t: Tid, prog: Program)
    ensures var v' := Step(v, Abort(t), prog);
      && v'.logs == v.logs && (forall u :: u != t ==> Images(v', u) == Images(v, u))
      && forall r :: Lookup(v'.store, r) == if r in Images(v, t) then Images(v, t)[r] else Lookup(v.store, r)
  {
  }

  /** Running t alone changes no record but those t writes, and no other log. */
  lemma {:induction false} AloneFrame(w: World, ops: History, t: Tid, touched: set<Rec>, written: set<Rec>, prog: Program)
    requires Alone(ops, t, touched, written)
    ensures forall r :: r !in written ==> Lookup(Exec(w, ops, prog).store, r) == Lookup(w.store, r)
    ensures forall u :: u != t ==> Log(Exec(w, ops, prog), u) == Log(w, u)
  {
    if ops != [] {
      var front, e := ops[..|ops| - 1], ops[|ops| - 1];
      AloneFrame(w, front, t, touched, written, prog);
      StepFrame(Exec(w, front, prog), e, prog);
    }
  }

  /** One access sees, and leaves, the same in two worlds that agree on its record and its log. */
  lemma StepDepends(w: World, w': World, e: Event, prog: Program)
    requires e.Access? && Log(w, e.t) == Log(w', e.t) && Lookup(w.store, e.r) == Lookup(w'.store, e.r)
    ensures Log(Step(w, e, prog), e.t) == Log(Step(w', e, prog), e.t)
    ensures forall r :: Lookup(w.store, r) == Lookup(w'.store, r) ==>
      Lookup(Step(w, e, prog).store, r) == Lookup(Step(w', e, prog).store, r)
  {
  }

  /** Running t alone depends only on the records t touches and on t's log so far. */
  lemma {:induction false} AloneDepends(w: World, w': World, ops: History, t: Tid, touched: set<Rec>, written: set<Rec>, prog: Program)
    requires Alone(ops, t, touched, written)
    requires Log(w, t) == Log(w', t)
    requires forall r :: r in touched ==> Lookup(w.store, r) == Lookup(w'.store, r)
    ensures Log(Exec(w, ops, prog), t) == Log(Exec(w', ops, prog), t)
    ensures forall r :: r in touched ==>
      Lookup(Exec(w, ops, prog).store, r) == Lookup(Exec(w', ops, prog).store, r)
  {
    if ops != [] {
      var front, e := ops[..|ops| - 1], ops[|ops| - 1];
      AloneDepends(w, w', front, t, touched, written, prog);
      StepDepends(Exec(w, front, prog), Exec(w', front, prog), e, prog);
    }
  }

  // ---------- the simulation ----------

  /** What an unfinished transaction has seen is what it would see running alone after the
      committed ones, and its before-images are their values. */
  ghost predicate Tracks(h: History, w: World, s: World, t: Tid, prog: Program) {
    var alone := Exec(s, Ops(h, t), prog);
    && Log(s, t) == []
    && Log(alone, t) == Log(w, t)
    && (forall r :: r in Touched(h, t) ==> Lookup(alone.store, r) == Lookup(w.store, r))
    && Images(w, t).Keys == Written(h, t)
    && (forall r :: r in Written(h, t) ==> Images(w, t)[r] == Lookup(s.store, r))
  }

  ghost predicate Untouched(h: History, r: Rec) {
    forall t :: t !in Finished(h) ==> r !in Written(h, t)
  }

  /** The interleaved world w, after history h, against the serial world s. */
  ghost predicate Simulates(h: History, w: World, s: World, prog: Program) {
    && (forall t :: t !in Finished(h) ==> Tracks(h, w, s, t, prog))
    && (forall r :: Untouched(h, r) ==> Lookup(w.store, r) == Lookup(s.store, r))
    && (forall t :: t in Committed(h) ==> Log(w, t) == Log(s, t))
  }

  lemma OtherTracksAccess(h: History, w: World, s: World, e: Event, u: Tid, prog: Program)
    requires MayFollow(h, e) && e.Access? && u != e.t && u !in Finished(h)
    requires Tracks(h, w, s, u, prog)
    ensures Tracks(h + [e], Step(w, e, prog), s, u, prog)
  {
    Snoc(h, e);
    OpsSnoc(h, e, u);
    StepFrame(w, e, prog);
  }

  /** The accessing transaction sees what it would see alone. */
  lemma SameRecord(h: History, w: World, s: World, e: Event, prog: Program)
    requires MayFollow(h, e) && e.Access? && Simulates(h, w, s, prog)
    ensures Lookup(Exec(s, Ops(h, e.t), prog).store, e.r) == Lookup(w.store, e.r)
    ensures e.r !in Written(h, e.t) ==> Lookup(w.store, e.r) == Lookup(s.store, e.r)
  {
    assert Tracks(h, w, s, e.t, prog);
    Memberships(h);
    OpsAreAlone(h, e.t);
    AloneFrame(s, Ops(h, e.t), e.t, Touched(h, e.t), Written(h, e.t), prog);
    assert e.r !in Written(h, e.t) ==> Untouched(h, e.r);
  }

  lemma OwnImages(h: History, w: World, s: World, e: Event, prog: Program)
    requires e.Access? && Images(w, e.t).Keys == Written(h, e.t)
    requires forall r :: r in Written(h, e.t) ==> Images(w, e.t)[r] == Lookup(s.store, r)
    requires e.r !in Written(h, e.t) ==> Lookup(w.store, e.r) == Lookup(s.store, e.r)
    ensures Images(Step(w, e, prog), e.t).Keys == Written(h + [e], e.t)
    ensures forall r :: r in Written(h + [e], e.t) ==> Images(Step(w, e, prog), e.t)[r] == Lookup(s.store, r)
  {
    Snoc(h, e);
    ImageAdded(w, e, prog);
  }

  lemma OwnTracksAccess(h: History, w: World, s: World, e: Event, prog: Program)
    requires MayFollow(h, e) && e.Access? && Simulates(h, w, s, prog)
    ensures Tracks(h + [e], Step(w, e, prog), s, e.t, prog)
  {
    assert Tracks(h, w, s, e.t, prog);
    SameRecord(h, w, s, e, prog);
    OwnImages(h, w, s, e, prog);
    Snoc(h, e);
    OpsSnoc(h, e, e.t);
    ExecSnoc(s, Ops(h, e.t), e, prog);
    StepDepends(Exec(s, Ops(h, e.t), prog), w, e, prog);
  }

  lemma SimulateAccess(h: History, w: World, s: World, e: Event, prog: Program)
    requires MayFollow(h, e) && e.Access? && Simulates(h, w, s, prog)
    ensures Simulates(h + [e], Step(w, e, prog), s, prog)
  {
    Snoc(h, e);
    StepFrame(w, e, prog);
    var g, w' := h + [e], Step(w, e, prog);
    forall u | u !in Finished(g)
      ensures Tracks(g, w', s, u, prog)
    {
      if u == e.t {
        OwnTracksAccess(h, w, s, e, prog);
      } else {
        OtherTracksAccess(h, w, s, e, u, prog);
      }
    }
    CommittedAreFinished(h);
    forall r | Untouched(g, r)
      ensures Lookup(w'.store, r) == Lookup(s.store, r)
    {
      assert Untouched(h, r);
      assert r !in Written(g, e.t);
    }
  }

  lemma {:induction false} CommittedAreFinished(h: History)
    ensures Committed(h) <= Finished(h)
  {
    if h != [] {
      CommittedAreFinished(h[..|h| - 1]);
    }
  }

  /** The other transactions do not notice that t's effects became part of the serial store. */
  lemma OtherTracksCommit(h: History, w: World, s: World, t: Tid, u: Tid, prog: Program)
    requires Strict(h) && u != t && t !in Finished(h) && u !in Finished(h)
    requires Tracks(h, w, s, u, prog)
    ensures Tracks(h + [Commit(t)], Step(w, Commit(t), prog), Step(Exec(s, Ops(h, t), prog), Commit(t), prog), u, prog)
  {
    var e, mid := Commit(t), Exec(s, Ops(h, t), prog);
    Snoc(h, e);
    OpsSnoc(h, e, u);
    Forgotten(w, t, prog);
    Forgotten(mid, t, prog);
    OthersUnnoticed(h, s, t, u, prog);
    AloneDepends(s, Step(mid, e, prog), Ops(h, u), u, Touched(h, u), Written(h, u), prog);
  }

  /** t running alone changes nothing that u touches. */
  lemma OthersUnnoticed(h: History, s: World, t: Tid, u: Tid, prog: Program)
    requires Strict(h) && u != t && t !in Finished(h) && u !in Finished(h)
    ensures Alone(Ops(h, u), u, Touched(h, u), Written(h, u)) && Written(h, u) <= Touched(h, u)
    ensures var mid := Exec(s, Ops(h, t), prog);
      Log(mid, u) == Log(s, u) && forall r :: r in Touched(h, u) ==> Lookup(mid.store, r) == Lookup(s.store, r)
  {
    OpsAreAlone(h, t);
    OpsAreAlone(h, u);
    Memberships(h);
    UnfinishedAreDisjoint(h, t, u);
    AloneFrame(s, Ops(h, t), t, Touched(h, t), Written(h, t), prog);
  }

  lemma CommitStore(h: History, w: World, s: World, t: Tid, prog: Program)
    requires t !in Finished(h) && Simulates(h, w, s, prog)
    ensures forall r :: Untouched(h + [Commit(t)], r) ==>
      Lookup(w.store, r) == Lookup(Exec(s, Ops(h, t), prog).store, r)
  {
    Snoc(h, Commit(t));
    OpsAreAlone(h, t);
    AloneFrame(s, Ops(h, t), t, Touched(h, t), Written(h, t), prog);
    Memberships(h);
    assert Tracks(h, w, s, t, prog);
    forall r | Untouched(h + [Commit(t)], r) && r !in Written(h, t)
      ensures Lookup(w.store, r) == Lookup(s.store, r)
    {
      assert Untouched(h, r);
    }
  }

  lemma CommitLogs(h: History, w: World, s: World, t: Tid, prog: Program)
    requires t !in Finished(h) && Simulates(h, w, s, prog)
    ensures forall u :: u in Committed(h + [Commit(t)]) ==> Log(w, u) == Log(Exec(s, Ops(h, t), prog), u)
  {
    Snoc(h, Commit(t));
    OpsAreAlone(h, t);
    AloneFrame(s, Ops(h, t), t, Touched(h, t), Written(h, t), prog);
    assert Tracks(h, w, s, t, prog);
  }

  lemma SimulateCommit(h: History, w: World, s: World, t: Tid, prog: Program)
    requires Strict(h) && t !in Finished(h) && Simulates(h, w, s, prog)
    ensures Simulates(h + [Commit(t)], Step(w, Commit(t), prog),
                      Step(Exec(s, Ops(h, t), prog), Commit(t), prog), prog)
  {
    var g, w', s' := h + [Commit(t)], Step(w, Commit(t), prog), Step(Exec(s, Ops(h, t), prog), Commit(t), prog);
    CommitStore(h, w, s, t, prog);
    CommitLogs(h, w, s, t, prog);
    Snoc(h, Commit(t));
    forall u | u !in Finished(g)
      ensures Tracks(g, w', s', u, prog)
    {
      OtherTracksCommit(h, w, s, t, u, prog);
    }
  }

  lemma OtherTracksAbort(h: History, w: World, s: World, t: Tid, u: Tid, prog: Program)
    requires Strict(h) && u != t && t !in Finished(h) && u !in Finished(h)
    requires Tracks(h, w, s, u, prog) && Images(w, t).Keys == Written(h, t)
    ensures Tracks(h + [Abort(t)], Step(w, Abort(t), prog), s, u, prog)
  {
    Snoc(h, Abort(t));
    OpsSnoc(h, Abort(t), u);
    Restored(w, t, prog);
    UnfinishedAreDisjoint(h, t, u);
  }

  lemma SimulateAbort(h: History, w: World, s: World, t: Tid, prog: Program)
    requires Strict(h) && t !in Finished(h) && Simulates(h, w, s, prog)
    ensures Simulates(h + [Abort(t)], Step(w, Abort(t), prog), s, prog)
  {
    var g, w' := h + [Abort(t)], Step(w, Abort(t), prog);
    Snoc(h, Abort(t));
    assert Tracks(h, w, s, t, prog);
    forall u | u !in Finished(g)
      ensures Tracks(g, w', s, u, prog)
    {
      assert Tracks(h, w, s, u, prog);
      OtherTracksAbort(h, w, s, t, u, prog);
    }
    Restored(w, t, prog);
    forall r | Untouched(g, r)
      ensures Lookup(w'.store, r) == Lookup(s.store, r)
    {
      if r !in Written(h, t) {
        assert Untouched(h, r);
      }
    }
  }

  lemma {:induction false} Simulation(h: History, store: map<Rec, Value>, prog: Program)
    requires Strict(h)
    ensures Simulates(h, Exec(Initially(store), h, prog), Exec(Initially(store), Serial(h), prog), prog)
  {
    var w0 := Initially(store);
    if h != [] {
      var g, e := h[..|h| - 1], h[|h| - 1];
      assert h == g + [e];
      StrictSnoc(g, e);
      Simulation(g, store, prog);
      SerialSnoc(g, e);
      var w, s := Exec(w0, g, prog), Exec(w0, Serial(g), prog);
      match e
      case Access(_, _, _) => SimulateAccess(g, w, s, e, prog);
      case Abort(t) => SimulateAbort(g, w, s, t, prog);
      case Commit(t) =>
        SimulateCommit(g, w, s, t, prog);
        ExecSnoc(w0, Serial(g) + Ops(g, t), e, prog);
        ExecConcat(w0, Serial(g), Ops(g, t), prog);
    }
  }

  /** Every committed transaction reads the same in the interleaved and in the serial run, and
      a record that no unfinished transaction has written ends up with the same value; for the
      others the before-image is the serial value. */
  ghost predicate EquivalentToSerial(h: History, store: map<Rec, Value>, prog: Program) {
    var w, s := Exec(Initially(store), h, prog), Exec(Initially(store), Serial(h), prog);
    && (forall t :: t in Committed(h) ==> Log(w, t) == Log(s, t))
    && (forall r :: Untouched(h, r) ==> Lookup(w.store, r) == Lookup(s.store, r))
    && (forall t, r :: t !in Finished(h) && r in Written(h, t) ==>
          r in Images(w, t) && Images(w, t)[r] == Lookup(s.store, r))
  }

  lemma SerialEquivalence(h: History, store: map<Rec, Value>, prog: Program)
    requires Strict(h)
    ensures EquivalentToSerial(h, store, prog)
  {
    Simulation(h, store, prog);
    var w, s := Exec(Initially(store), h, prog), Exec(Initially(store), Serial(h), prog);
    forall t | t !in Finished(h)
      ensures Tracks(h, w, s, t, prog)
    {
    }
  }

  /** Once every transaction has ended, the two stores are equal. */
  lemma SerialEquivalenceAtRest(h: History, store: map<Rec, Value>, prog: Program)
    requires Strict(h)
    requires forall e :: e in h ==> e.t in Finished(h)
    ensures Exec(Initially(store), h, prog).store == Exec(Initially(store), Serial(h), prog).store
  {
    SerialEquivalence(h, store, prog);
    var a, b := Exec(Initially(store), h, prog).store, Exec(Initially(store), Serial(h), prog).store;
    Memberships(h);
    forall r
      ensures Lookup(a, r) == Lookup(b, r)
    {
      assert Untouched(h, r);
    }
    forall r
      ensures (r in a <==> r in b) && (r in a ==> a[r] == b[r])
    {
      assert Lookup(a, r) == Lookup(b, r);
    }
  }

  // ---------- the serial history is serial and complete ----------

  lemma {:induction false} OpsConcat(g: History, h: History, t: Tid)
    ensures Ops(g + h, t) == Ops(g, t) + Ops(h, t)
  {
    if h == [] {
      assert g + h == g;
    } else {
      var k := |h| - 1;
      assert g + h == (g + h[..k]) + [h[k]] && h == h[..k] + [h[k]];
      OpsSnoc(g + h[..k], h[k], t);
      OpsSnoc(h[..k], h[k], t);
      OpsConcat(g, h[..k], t);
    }
  }

  lemma {:induction false} OpsOfOps(h: History, t: Tid, u: Tid)
    ensures Ops(Ops(h, t), u) == if t == u then Ops(h, t) else []
  {
    if h != [] {
      var g, e := h[..|h| - 1], h[|h| - 1];
      OpsOfOps(g, t, u);
      OpsSnoc(Ops(g, t), e, u);
    }
  }

  /** The serial history holds every access of every committed transaction, in order, and
      nothing else. */
  lemma {:induction false} SerialKeepsOps(h: History, t: Tid)
    requires Strict(h)
    ensures Ops(Serial(h), t) == if t in Committed(h) then Ops(h, t) else []
  {
    if h != [] {
      var g, e := h[..|h| - 1], h[|h| - 1];
      assert h == g + [e];
      StrictSnoc(g, e);
      SerialKeepsOps(g, t);
      SerialSnoc(g, e);
      OpsSnoc(g, e, t);
      Snoc(g, e);
      CommittedAreFinished(g);
      if e.Commit? {
        OpsSnoc(Serial(g) + Ops(g, e.t), e, t);
        OpsConcat(Serial(g), Ops(g, e.t), t);
        OpsOfOps(g, e.t, t);
      }
    }
  }

  /** Transactions of a serial history do not interleave. */
  ghost predicate IsSerial(h: History) {
    forall i, j, k :: 0 <= i < j < k < |h| && h[i].t == h[k].t ==> h[j].t == h[i].t
  }

  lemma {:induction false} SerialEvents(h: History)
    ensures forall i :: 0 <= i < |Serial(h)| ==> Serial(h)[i].t in Committed(h)
  {
    if h != [] {
      var g, e := h[..|h| - 1], h[|h| - 1];
      SerialEvents(g);
      if e.Commit? {
        OpsAreAlone(g, e.t);
      }
    }
  }

  lemma {:induction false} SerialIsSerial(h: History)
    requires Strict(h)
    ensures IsSerial(Serial(h))
  {
    if h != [] {
      var g, e := h[..|h| - 1], h[|h| - 1];
      assert h == g + [e];
      StrictSnoc(g, e);
      SerialIsSerial(g);
      SerialEvents(g);
      SerialSnoc(g, e);
      CommittedAreFinished(g);
      if e.Commit? {
        OpsAreAlone(g, e.t);
        var s, s' := Serial(g), Serial(h);
        assert forall i :: 0 <= i < |s| ==> s'[i] == s[i] && s'[i].t != e.t;
        assert forall i :: |s| <= i < |s'| ==> s'[i].t == e.t;
      }
    }
  }
}
