/** Failed transactions under timestamp ordering. */
module TimestampFailures {
  // The protocol grants an access to what an unfinished transaction wrote, and that transaction can
  // still fail and be undone. As long as nobody overwrites what another one that fails has written and
  // not yet undone, whatever the transactions do the others are serial if and only if none of them
  // reads it.

  import opened Wrappers
  import opened Histories
  import opened Serialisability
  import opened ReadsFrom
  import opened TimestampOrdering
  import opened DelayedUndo

  /** What t has written and what is not undone. */
  function Unsettled(s: Schedule, t: Tid): set<Rec> {
    if s == [] then {}
    else
      var rest := Unsettled(s[..|s| - 1], t);
      match s[|s| - 1]
      case Granted(e) => if e.Access? && e.t == t && e.action == WRITE then rest + {e.r} else rest
      case Undo(u) => if u == t then {} else rest
  }

  ghost predicate Settled(s: Schedule, failed: set<Tid>, r: Rec) {
    forall u :: u in failed ==> r !in Unsettled(s, u)
  }

  /** Only the failed are undone, and nobody overwrites what another of them wrote until then. */
  ghost predicate Undisturbed(s: Schedule, failed: set<Tid>) {
    s == [] ||
    var front := s[..|s| - 1];
    && Undisturbed(front, failed)
    && match s[|s| - 1]
       case Granted(e) =>
         e.Access? && (e.action == WRITE ==> forall u :: u in failed && u != e.t ==> e.r !in Unsettled(front, u))
       case Undo(t) => t in failed
  }

  /** Nobody reads what another one that fails wrote, unless failing as well. */
  ghost predicate NoFailedRead(s: Schedule, failed: set<Tid>) {
    s == [] ||
    var front := s[..|s| - 1];
    && NoFailedRead(front, failed)
    && match s[|s| - 1]
       case Granted(e) => e.Access? && e.action == READ && e.t !in failed ==> Settled(front, failed, e.r)
       case Undo(_) => true
  }

  /** The accesses of those that do not fail. */
  function Unfailed(h: History, failed: set<Tid>): History {
    if h == [] then []
    else Unfailed(h[..|h| - 1], failed) + (if h[|h| - 1].t in failed then [] else [h[|h| - 1]])
  }

  // ---------- simulation ----------

  /** The before-images of the failed are what the world without them has there. */
  ghost predicate KeepsFailed(s: Schedule, failed: set<Tid>, w: World, v: World) {
    && (forall u :: u in failed ==> Images(w, u).Keys == Unsettled(s, u))
    && (forall u, r :: u in failed && r in Images(w, u) ==> Images(w, u)[r] == Lookup(v.store, r))
    && (forall t, u :: t in failed && u in failed && t != u ==> Unsettled(s, t) !! Unsettled(s, u))
  }

  /** The world w of the schedule against the world v in which the failed do nothing. */
  ghost predicate Mirrors(s: Schedule, failed: set<Tid>, w: World, v: World) {
    && KeepsFailed(s, failed, w, v)
    && (forall t :: t !in failed ==> Log(w, t) == Log(v, t))
    && (forall r :: Settled(s, failed, r) ==> Lookup(w.store, r) == Lookup(v.store, r))
  }

  lemma UnsettledSnoc(s: Schedule, stage: Stage)
    ensures stage.Granted? && stage.e.Access? ==>
      forall t ::
        Unsettled(s + [stage], t) == Unsettled(s, t) + (if stage.e.t == t && stage.e.action == WRITE then {stage.e.r} else {})
    ensures stage.Undo? ==>
      forall t :: Unsettled(s + [stage], t) == (if stage.t == t then {} else Unsettled(s, t))
  {
    assert (s + [stage])[..|s|] == s;
  }

  lemma UnfailedKeeps(s: Schedule, failed: set<Tid>, w: World, v: World, e: Event, prog: Program)
    requires KeepsFailed(s, failed, w, v) && e.Access? && e.t !in failed && Settled(s, failed, e.r)
    ensures KeepsFailed(s + [Granted(e)], failed, Step(w, e, prog), Step(v, e, prog))
    ensures forall u :: u in failed ==> Unsettled(s + [Granted(e)], u) == Unsettled(s, u)
  {
    UnsettledSnoc(s, Granted(e));
    StepFrame(w, e, prog);
    StepFrame(v, e, prog);
    assert forall u :: u in failed ==> Unsettled(s + [Granted(e)], u) == Unsettled(s, u);
  }

  lemma UnfailedAccess(s: Schedule, failed: set<Tid>, w: World, v: World, e: Event, prog: Program)
    requires Mirrors(s, failed, w, v) && e.Access? && e.t !in failed && Settled(s, failed, e.r)
    ensures Mirrors(s + [Granted(e)], failed, Step(w, e, prog), Step(v, e, prog))
  {
    UnfailedKeeps(s, failed, w, v, e, prog);
    StepFrame(w, e, prog);
    StepFrame(v, e, prog);
    StepDepends(w, v, e, prog);
  }

  lemma FailedImages(s: Schedule, failed: set<Tid>, w: World, v: World, e: Event, prog: Program)
    requires Mirrors(s, failed, w, v) && e.Access? && e.t in failed
    requires e.action == WRITE ==> forall u :: u in failed && u != e.t ==> e.r !in Unsettled(s, u)
    ensures Images(Step(w, e, prog), e.t).Keys == Unsettled(s + [Granted(e)], e.t)
    ensures forall r :: r in Images(Step(w, e, prog), e.t) ==> Images(Step(w, e, prog), e.t)[r] == Lookup(v.store, r)
  {
    UnsettledSnoc(s, Granted(e));
    ImageAdded(w, e, prog);
    if e.action == WRITE && e.r !in Unsettled(s, e.t) {
      assert Settled(s, failed, e.r);
    }
  }

  lemma FailedKeeps(s: Schedule, failed: set<Tid>, w: World, v: World, e: Event, prog: Program)
    requires Mirrors(s, failed, w, v) && e.Access? && e.t in failed
    requires e.action == WRITE ==> forall u :: u in failed && u != e.t ==> e.r !in Unsettled(s, u)
    ensures KeepsFailed(s + [Granted(e)], failed, Step(w, e, prog), v)
  {
    FailedImages(s, failed, w, v, e, prog);
    UnsettledSnoc(s, Granted(e));
    var w' := Step(w, e, prog);
    forall u | u in failed && u != e.t
      ensures Images(w', u) == Images(w, u) && Unsettled(s + [Granted(e)], u) == Unsettled(s, u)
    {
      StepFrame(w, e, prog);
    }
  }

  lemma FailedAccess(s: Schedule, failed: set<Tid>, w: World, v: World, e: Event, prog: Program)
    requires Mirrors(s, failed, w, v) && e.Access? && e.t in failed
    requires e.action == WRITE ==> forall u :: u in failed && u != e.t ==> e.r !in Unsettled(s, u)
    ensures Mirrors(s + [Granted(e)], failed, Step(w, e, prog), v)
  {
    UnsettledSnoc(s, Granted(e));
    StepFrame(w, e, prog);
    FailedKeeps(s, failed, w, v, e, prog);
    forall r | Settled(s + [Granted(e)], failed, r)
      ensures Settled(s, failed, r) && (r == e.r ==> e.action == READ)
    {
      assert e.action == WRITE ==> e.r in Unsettled(s + [Granted(e)], e.t);
    }
  }

  lemma UndoneKeeps(s: Schedule, failed: set<Tid>, w: World, v: World, t: Tid, prog: Program)
    requires KeepsFailed(s, failed, w, v) && t in failed
    ensures KeepsFailed(s + [Undo(t)], failed, Step(w, Abort(t), prog), v)
  {
    UnsettledSnoc(s, Undo(t));
    Restored(w, t, prog);
  }

  lemma FailedUndone(s: Schedule, failed: set<Tid>, w: World, v: World, t: Tid, prog: Program)
    requires Mirrors(s, failed, w, v) && t in failed
    ensures Mirrors(s + [Undo(t)], failed, Step(w, Abort(t), prog), v)
  {
    UnsettledSnoc(s, Undo(t));
    Restored(w, t, prog);
    UndoneKeeps(s, failed, w, v, t, prog);
    forall r | Settled(s + [Undo(t)], failed, r)
      ensures Lookup(Step(w, Abort(t), prog).store, r) == Lookup(v.store, r)
    {
      if r !in Unsettled(s, t) {
        assert Settled(s, failed, r);
      }
    }
  }

  /** Undone late, but undisturbed, is as good as never done. */
  lemma {:induction false} FailedLeaveNoTrace(s: Schedule, failed: set<Tid>, store: map<Rec, Value>, prog: Program)
    requires Undisturbed(s, failed) && NoFailedRead(s, failed)
    ensures Mirrors(s, failed, PerformAll(Initially(store), s, failed, prog),
                    Exec(Initially(store), Unfailed(Grants(s), failed), prog))
  {
    if s != [] {
      var front, stage := s[..|s| - 1], s[|s| - 1];
      assert s == front + [stage];
      FailedLeaveNoTrace(front, failed, store, prog);
      var w, v := PerformAll(Initially(store), front, failed, prog), Exec(Initially(store), Unfailed(Grants(front), failed), prog);
      match stage
      case Undo(t) => FailedUndone(front, failed, w, v, t, prog);
      case Granted(e) =>
        assert Grants(s)[..|Grants(front)|] == Grants(front);
        if e.t in failed {
          FailedAccess(front, failed, w, v, e, prog);
          assert Unfailed(Grants(s), failed) == Unfailed(Grants(front), failed);
        } else {
          assert Settled(front, failed, e.r);
          ExecSnoc(Initially(store), Unfailed(Grants(front), failed), e, prog);
          UnfailedAccess(front, failed, w, v, e, prog);
        }
    }
  }

  // ---------- runs of the manager ----------

  lemma {:induction false} UnfailedMembers(h: History, failed: set<Tid>)
    ensures forall x :: x in Unfailed(h, failed) <==> x in h && x.t !in failed
  {
    if h != [] {
      UnfailedMembers(h[..|h| - 1], failed);
      assert h == h[..|h| - 1] + [h[|h| - 1]];
    }
  }

  lemma OrderedSnoc(h: History, e: Event)
    ensures TimestampOrdered(h + [e]) <==>
      TimestampOrdered(h) && e.Access? && forall x :: x in h && Conflict(x, e) ==> x.t < e.t
  {
    var g := h + [e];
    assert g[|h|] == e && forall i :: 0 <= i < |h| ==> g[i] == h[i];
    if TimestampOrdered(g) {
      forall x | x in h && Conflict(x, e)
        ensures x.t < e.t
      {
        var i :| 0 <= i < |h| && h[i] == x;
        assert Conflict(g[i], g[|h|]);
      }
      assert forall i, j :: 0 <= i < j < |h| && Conflict(h[i], h[j]) ==> Conflict(g[i], g[j]);
    }
  }

  lemma {:induction false} UnfailedKeepsOrder(h: History, failed: set<Tid>)
    requires TimestampOrdered(h)
    ensures TimestampOrdered(Unfailed(h, failed))
  {
    if h != [] {
      var g, e := h[..|h| - 1], h[|h| - 1];
      assert h == g + [e];
      OrderedSnoc(g, e);
      UnfailedKeepsOrder(g, failed);
      UnfailedMembers(g, failed);
      OrderedSnoc(Unfailed(g, failed), e);
      assert Unfailed(g, failed) + [] == Unfailed(g, failed);
    }
  }

  /** The others read as in the serial run of their accesses in timestamp order, and so do the settled
      records end. */
  ghost predicate UnfailedAsSerial(s: Schedule, failed: set<Tid>, store: map<Rec, Value>, prog: Program) {
    var w := PerformAll(Initially(store), s, failed, prog);
    var serial := Exec(Initially(store), ByTimestamp(Unfailed(Grants(s), failed)), prog);
    && (forall t :: t !in failed ==> Log(w, t) == Log(serial, t))
    && (forall r :: Settled(s, failed, r) ==> Lookup(w.store, r) == Lookup(serial.store, r))
  }

  lemma CleanIsSerial(s: Schedule, failed: set<Tid>, store: map<Rec, Value>, prog: Program)
    requires TimestampOrdered(Grants(s)) && Undisturbed(s, failed) && NoFailedRead(s, failed)
    ensures UnfailedAsSerial(s, failed, store, prog)
  {
    FailedLeaveNoTrace(s, failed, store, prog);
    UnfailedKeepsOrder(Grants(s), failed);
    TimestampOrderIsSerial(Unfailed(Grants(s), failed), Initially(store), prog);
  }

  // ---------- a dirty read shows ----------

  ghost predicate MarkedUnsettled(s: Schedule, w: World, u: Tid) {
    forall r :: r in Unsettled(s, u) ==> Lookup(w.store, r) == MARK
  }

  /** Until it is undone, what u wrote stays marked. */
  lemma {:induction false} MarkStaysUnsettled(s: Schedule, failed: set<Tid>, u: Tid)
    requires Undisturbed(s, failed) && NoFailedRead(s, failed) && u in failed
    ensures MarkedUnsettled(s, PerformAll(Initially(map[]), s, failed, Marking(u)), u)
  {
    if s != [] {
      var front, stage := s[..|s| - 1], s[|s| - 1];
      assert s == front + [stage];
      MarkStaysUnsettled(front, failed, u);
      UnsettledSnoc(front, stage);
      var w := PerformAll(Initially(map[]), front, failed, Marking(u));
      match stage
      case Granted(e) => StepFrame(w, e, Marking(u));
      case Undo(t) =>
        FailedLeaveNoTrace(front, failed, map[], Marking(u));
        Restored(w, t, Marking(u));
    }
  }

  lemma {:induction false} FailedReadMarks(s: Schedule, failed: set<Tid>) returns (u: Tid, t: Tid)
    requires Undisturbed(s, failed) && !NoFailedRead(s, failed)
    ensures u in failed && t !in failed && ReadsMark(s, failed, u, t)
  {
    var front, stage := s[..|s| - 1], s[|s| - 1];
    if NoFailedRead(front, failed) {
      t := stage.e.t;
      u :| u in failed && stage.e.r in Unsettled(front, u);
      MarkStaysUnsettled(front, failed, u);
      var w := PerformAll(Initially(map[]), front, failed, Marking(u));
      assert Log(Perform(w, stage, failed, Marking(u)), t) == Log(w, t) + [MARK];
    } else {
      u, t := FailedReadMarks(front, failed);
      LogGrows(PerformAll(Initially(map[]), front, failed, Marking(u)), stage, failed, Marking(u), t);
    }
  }

  /** Some transactions tell the difference. */
  lemma FailedReadShows(s: Schedule, failed: set<Tid>)
    requires Undisturbed(s, failed) && !NoFailedRead(s, failed)
    ensures exists store, prog :: !UnfailedAsSerial(s, failed, store, prog)
  {
    var h := Unfailed(Grants(s), failed);
    var u, t := FailedReadMarks(s, failed);
    UnfailedMembers(Grants(s), failed);
    ByTimestampFacts(h);
    forall i | 0 <= i < |ByTimestamp(h)|
      ensures ByTimestamp(h)[i].t != u
    {
      assert ByTimestamp(h)[i] in h;
    }
    UnmarkedRun(ByTimestamp(h), u);
    assert !UnfailedAsSerial(s, failed, map[], Marking(u));
  }

  /** Whatever the manager granted, and whenever the failed were undone, with nobody overwriting what is
      still to be undone: whatever the transactions do the others are as in the serial run, if and only
      if none of them has read what was still to be undone. */
  lemma UnfailedAreSerial(m: TimestampCCManager, s: Schedule, failed: set<Tid>)
    requires m.Valid() && Grants(s) == m.history && Undisturbed(s, failed)
    ensures var serial := ByTimestamp(Unfailed(m.history, failed)); Sorted(serial) && IsSerial(serial)
    ensures (forall store, prog :: UnfailedAsSerial(s, failed, store, prog)) <==> NoFailedRead(s, failed)
  {
    UnfailedKeepsOrder(m.history, failed);
    ByTimestampIsSerial(Unfailed(m.history, failed), 0);
    if NoFailedRead(s, failed) {
      forall store, prog
        ensures UnfailedAsSerial(s, failed, store, prog)
      {
        CleanIsSerial(s, failed, store, prog);
      }
    } else {
      FailedReadShows(s, failed);
    }
  }

  // ---------- every schedule ----------

  lemma {:induction false} UnfailedOps(h: History, failed: set<Tid>, t: Tid)
    ensures Ops(Unfailed(h, failed), t) == if t in failed then [] else Ops(h, t)
  {
    if h != [] {
      UnfailedOps(h[..|h| - 1], failed, t);
      OpsSnoc(Unfailed(h[..|h| - 1], failed), h[|h| - 1], t);
      assert Unfailed(h[..|h| - 1], failed) + [] == Unfailed(h[..|h| - 1], failed);
    }
  }

  /** Those that do not fail, and the settled records. */
  ghost function Remaining(s: Schedule, failed: set<Tid>): Scope {
    Scope(t => t !in failed, r => Settled(s, failed, r))
  }

  lemma UnfailedIsComparable(s: Schedule, failed: set<Tid>)
    requires TimestampOrdered(Grants(s))
    ensures Comparable(Effects(s, failed), ByTimestamp(Unfailed(Grants(s), failed)), Remaining(s, failed))
  {
    UnfailedKeepsOrder(Grants(s), failed);
    forall t
      ensures Ops(Effects(s, failed), t) == Ops(Grants(s), t)
      ensures Ops(ByTimestamp(Unfailed(Grants(s), failed)), t) == if t in failed then [] else Ops(Grants(s), t)
    {
      EffectsKeepOps(s, failed, t);
      UnfailedOps(Grants(s), failed, t);
      ByTimestampIsSerial(Unfailed(Grants(s), failed), t);
    }
  }

  /** Whatever the manager granted and whoever is undone at whatever time, also when overwritten before:
      whatever the transactions do the unfailed are as in the serial run, if and only if they read from
      whom they read there, and the settled records were last written by whom they were there. */
  lemma EveryFailureIsDecided(m: TimestampCCManager, s: Schedule, failed: set<Tid>)
    requires m.Valid() && Grants(s) == m.history
    ensures (forall store, prog :: UnfailedAsSerial(s, failed, store, prog)) <==>
      SameView(Effects(s, failed), ByTimestamp(Unfailed(m.history, failed)), Remaining(s, failed))
  {
    var serial := ByTimestamp(Unfailed(m.history, failed));
    UnfailedIsComparable(s, failed);
    ViewDecides(Effects(s, failed), serial, Remaining(s, failed));
    forall store, prog
      ensures UnfailedAsSerial(s, failed, store, prog) <==>
        SameOutcome(Effects(s, failed), serial, Remaining(s, failed), store, prog)
    {
      EffectsArePerformed(Initially(store), s, failed, prog);
    }
  }

  // ---------- the manager grants it ----------

  function DirtyHistory(p: Rec, q: Rec): History {
    [Access(1, p, WRITE), Access(2, p, READ), Access(2, q, READ)]
  }

  method Permit(m: TimestampCCManager, t: Tid, r: Rec, action: Action)
    requires m.Valid() && t in m.transactions && m.transactions[t].state == ACTIVE && r in m.objectTimestamps
    requires forall x :: x in m.history && Conflict(x, Access(t, r, action)) ==> x.t < t
    modifies m`transactions, m`objectTimestamps, m`history
    ensures m.Valid() && m.history == old(m.history) + [Access(t, r, action)]
    ensures m.transactions == old(m.transactions) && m.objectTimestamps.Keys == old(m.objectTimestamps).Keys
  {
    var granted := m.ValidateObject(t, r, action);
  }

  method Refuse(m: TimestampCCManager, t: Tid, r: Rec, action: Action)
    requires m.Valid() && t in m.transactions && m.transactions[t].state == ACTIVE && r in m.objectTimestamps
    requires exists x :: x in m.history && Conflict(x, Access(t, r, action)) && x.t > t
    modifies m`transactions, m`objectTimestamps, m`history
    ensures m.Valid() && m.history == old(m.history)
    ensures m.transactions == old(m.transactions)[t := old(m.transactions)[t].(state := FAILED)]
  {
    var granted := m.ValidateObject(t, r, action);
  }

  method BeginTwo(p: Rec, q: Rec) returns (m: TimestampCCManager)
    requires p != q
    ensures fresh(m) && m.Valid() && m.history == []
    ensures m.transactions == map[1 := Transaction(1, ACTIVE), 2 := Transaction(2, ACTIVE)]
    ensures m.objectTimestamps.Keys == {p, q}
  {
    m := new TimestampCCManager();
    var t := m.BeginTransaction();
    var u := m.BeginTransaction();
    var known := m.LogObject(t, p);
    known := m.LogObject(u, q);
  }

  method GrantUnfinished(p: Rec, q: Rec) returns (m: TimestampCCManager)
    requires p != q
    ensures fresh(m) && m.Valid() && m.history == DirtyHistory(p, q)[..2]
    ensures m.transactions == map[1 := Transaction(1, ACTIVE), 2 := Transaction(2, ACTIVE)]
    ensures m.objectTimestamps.Keys == {p, q}
  {
    m := BeginTwo(p, q);
    Permit(m, 1, p, WRITE);
    Permit(m, 2, p, READ);
  }

  /** The manager lets 2 read what 1 wrote and fails 1 afterwards. */
  method GrantDirtyRead(p: Rec, q: Rec) returns (m: TimestampCCManager)
    requires p != q
    ensures fresh(m) && m.Valid() && m.history == DirtyHistory(p, q)
    ensures m.transactions == map[1 := Transaction(1, FAILED), 2 := Transaction(2, ACTIVE)]
  {
    m := GrantUnfinished(p, q);
    Permit(m, 2, q, READ);
    assert m.history == DirtyHistory(p, q);
    assert DirtyHistory(p, q)[2] in m.history;
    Refuse(m, 1, q, WRITE);
  }

  function DirtySchedule(p: Rec, q: Rec, n: nat): Schedule {
    [Granted(Access(1, p, WRITE)), Granted(Access(2, p, READ)), Granted(Access(2, q, READ)), Undo(1)][..if n < 4 then n else 4]
  }

  lemma DirtyPrefix(p: Rec, q: Rec, n: nat)
    requires n < 4
    ensures DirtySchedule(p, q, n + 1)[..n] == DirtySchedule(p, q, n) && |DirtySchedule(p, q, n + 1)| == n + 1
  {
  }

  lemma DirtyLog(p: Rec, q: Rec, prog: Program)
    requires p != q
    ensures Log(PerformAll(Initially(map[]), DirtySchedule(p, q, 4), {1}, prog), 2) == [Some(prog(1, [])), None]
  {
    var w0 := Initially(map[]);
    assert DirtySchedule(p, q, 0) == [] && PerformAll(w0, DirtySchedule(p, q, 0), {1}, prog) == w0;
    DirtyPrefix(p, q, 0);
    var w1 := PerformAll(w0, DirtySchedule(p, q, 1), {1}, prog);
    assert w1 == Step(w0, Access(1, p, WRITE), prog);
    DirtyPrefix(p, q, 1);
    var w2 := PerformAll(w0, DirtySchedule(p, q, 2), {1}, prog);
    assert w2 == Step(w1, Access(2, p, READ), prog) && Log(w2, 2) == [Some(prog(1, []))];
    DirtyPrefix(p, q, 2);
    var w3 := PerformAll(w0, DirtySchedule(p, q, 3), {1}, prog);
    assert w3 == Step(w2, Access(2, q, READ), prog) && Log(w3, 2) == [Some(prog(1, [])), None];
    DirtyPrefix(p, q, 3);
  }

  lemma DirtyGrants(p: Rec, q: Rec)
    ensures Grants(DirtySchedule(p, q, 4)) == DirtyHistory(p, q)
    ensures Unsettled(DirtySchedule(p, q, 4), 1) == {}
  {
    assert DirtySchedule(p, q, 0) == [];
    DirtyPrefix(p, q, 0);
    assert Grants(DirtySchedule(p, q, 1)) == [Access(1, p, WRITE)];
    DirtyPrefix(p, q, 1);
    assert Grants(DirtySchedule(p, q, 2)) == [Access(1, p, WRITE), Access(2, p, READ)];
    DirtyPrefix(p, q, 2);
    DirtyPrefix(p, q, 3);
  }

  lemma UnfailedSnoc(h: History, e: Event, failed: set<Tid>)
    ensures Unfailed(h + [e], failed) == Unfailed(h, failed) + if e.t in failed then [] else [e]
  {
    assert (h + [e])[..|h|] == h;
  }

  lemma LatestGoesLast(h: History, e: Event)
    requires forall x :: x in h ==> x.t <= e.t
    ensures ByTimestamp(h + [e]) == ByTimestamp(h) + [e]
  {
    assert (h + [e])[..|h|] == h;
    ByTimestampFacts(h);
    var s := ByTimestamp(h);
    assert s != [] ==> s[|s| - 1] in h;
  }

  lemma UnfailedThree(a: Event, b: Event, c: Event, failed: set<Tid>)
    requires a.t in failed && b.t !in failed && c.t !in failed
    ensures Unfailed([] + [a] + [b] + [c], failed) == [] + [b] + [c]
  {
    var none: History := [];
    UnfailedSnoc(none, a, failed);
    UnfailedSnoc(none + [a], b, failed);
    UnfailedSnoc(none + [a] + [b], c, failed);
  }

  lemma InOrder(b: Event, c: Event)
    requires b.t <= c.t
    ensures ByTimestamp([] + [b] + [c]) == [] + [b] + [c]
  {
    var none: History := [];
    LatestGoesLast(none, b);
    LatestGoesLast(none + [b], c);
  }

  /** What 2 does is all that is left without 1. */
  lemma WithoutFailed(p: Rec, q: Rec)
    ensures ByTimestamp(Unfailed(DirtyHistory(p, q), {1})) == [Access(2, p, READ), Access(2, q, READ)]
  {
    var a, b, c := Access(1, p, WRITE), Access(2, p, READ), Access(2, q, READ);
    assert DirtyHistory(p, q) == [] + [a] + [b] + [c];
    UnfailedThree(a, b, c, {1});
    InOrder(b, c);
  }

  lemma DirtyIsUndisturbed(p: Rec, q: Rec)
    ensures Undisturbed(DirtySchedule(p, q, 4), {1})
  {
    assert DirtySchedule(p, q, 0) == [] && Undisturbed(DirtySchedule(p, q, 0), {1});
    DirtyPrefix(p, q, 0);
    assert Undisturbed(DirtySchedule(p, q, 1), {1});
    DirtyPrefix(p, q, 1);
    assert Undisturbed(DirtySchedule(p, q, 2), {1});
    DirtyPrefix(p, q, 2);
    assert Undisturbed(DirtySchedule(p, q, 3), {1});
    DirtyPrefix(p, q, 3);
  }

  lemma CleanLog(p: Rec, q: Rec, prog: Program)
    ensures Log(Exec(Initially(map[]), [Access(2, p, READ), Access(2, q, READ)], prog), 2) == [None, None]
  {
    ExecSnoc(Initially(map[]), [], Access(2, p, READ), prog);
    assert [] + [Access(2, p, READ)] == [Access(2, p, READ)];
    ExecSnoc(Initially(map[]), [Access(2, p, READ)], Access(2, q, READ), prog);
    assert [Access(2, p, READ)] + [Access(2, q, READ)] == [Access(2, p, READ), Access(2, q, READ)];
  }

  /** With 1 undone, 2 has read what it reads in no run without 1. */
  lemma DirtyReadStays(p: Rec, q: Rec, prog: Program)
    requires p != q
    ensures var s := DirtySchedule(p, q, 4);
      && Grants(s) == DirtyHistory(p, q) && Undisturbed(s, {1}) && (forall r :: Settled(s, {1}, r))
      && Log(PerformAll(Initially(map[]), s, {1}, prog), 2) == [Some(prog(1, [])), None]
      && Log(Exec(Initially(map[]), ByTimestamp(Unfailed(DirtyHistory(p, q), {1})), prog), 2) == [None, None]
  {
    DirtyGrants(p, q);
    DirtyIsUndisturbed(p, q);
    DirtyLog(p, q, prog);
    WithoutFailed(p, q);
    CleanLog(p, q, prog);
  }
}
