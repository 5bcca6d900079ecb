/** Undoing after the locks are gone. */
module DelayedUndo {
  // A transaction that is rolled back first ends in the lock manager, as a commit or as an abort, and
  // its changes are undone later. In between others may lock what it wrote. As long as none of them
  // overwrites it, whatever the transactions do they read and end as if the undo had come at once if
  // and only if nobody who stays reads it.

  import opened Wrappers
  import opened Histories
  import Locks = LockTable
  import opened ReadsFrom
  import Safety = TwoPhaseLockingSafety
  import opened Serialisability

  datatype Stage = Granted(e: Event) | Undo(t: Tid)

  type Schedule = seq<Stage>

  /** What the lock manager sees of a schedule. */
  function Grants(s: Schedule): History {
    if s == [] then []
    else
      match s[|s| - 1]
      case Granted(e) => Grants(s[..|s| - 1]) + [e]
      case Undo(_) => Grants(s[..|s| - 1])
  }

  /** How an end turns out. */
  function Outcome(e: Event, rolledBack: set<Tid>): Event {
    if e.Access? then e else if e.t in rolledBack then Abort(e.t) else Commit(e.t)
  }

  /** The history in which every rollback undoes at once. */
  function AtOnce(h: History, rolledBack: set<Tid>): History {
    if h == [] then [] else AtOnce(h[..|h| - 1], rolledBack) + [Outcome(h[|h| - 1], rolledBack)]
  }

  /** The before-images of a transaction to be rolled back outlive its end. */
  function Perform(w: World, stage: Stage, rolledBack: set<Tid>, prog: Program): World {
    match stage
    case Granted(e) => if !e.Access? && e.t in rolledBack then w else Step(w, Outcome(e, rolledBack), prog)
    case Undo(t) => Step(w, Abort(t), prog)
  }

  function PerformAll(w: World, s: Schedule, rolledBack: set<Tid>, prog: Program): World {
    if s == [] then w else Perform(PerformAll(w, s[..|s| - 1], rolledBack, prog), s[|s| - 1], rolledBack, prog)
  }

  /** The transactions that have ended and are still to be undone. */
  function Pending(s: Schedule, rolledBack: set<Tid>): set<Tid> {
    if s == [] then {}
    else
      var rest := Pending(s[..|s| - 1], rolledBack);
      match s[|s| - 1]
      case Granted(e) => if !e.Access? && e.t in rolledBack then rest + {e.t} else rest
      case Undo(t) => rest - {t}
  }

  ghost predicate Dirty(h: History, pending: set<Tid>, r: Rec) {
    exists u :: u in pending && r in Written(h, u)
  }

  /** Only what is pending is undone, and nobody overwrites what a pending transaction wrote. */
  ghost predicate Orderly(s: Schedule, rolledBack: set<Tid>) {
    s == [] ||
    var front := s[..|s| - 1];
    && Orderly(front, rolledBack)
    && match s[|s| - 1]
       case Granted(e) => e.Access? && e.action == WRITE ==> !Dirty(Grants(front), Pending(front, rolledBack), e.r)
       case Undo(t) => t in Pending(front, rolledBack)
  }

  /** Nobody of `kept` reads what a pending transaction wrote. */
  ghost predicate NoDirtyRead(s: Schedule, rolledBack: set<Tid>, kept: set<Tid>) {
    s == [] ||
    var front := s[..|s| - 1];
    && NoDirtyRead(front, rolledBack, kept)
    && match s[|s| - 1]
       case Granted(e) =>
         e.Access? && e.action == READ && e.t in kept ==> !Dirty(Grants(front), Pending(front, rolledBack), e.r)
       case Undo(_) => true
  }

  /** The transactions that have ended and are not rolled back. */
  function Staying(s: Schedule, rolledBack: set<Tid>): set<Tid> {
    Finished(Grants(s)) - rolledBack
  }

  // ---------- the outcomes do not matter to strictness ----------

  lemma {:induction false} SameRecords(h: History, rolledBack: set<Tid>)
    ensures Finished(AtOnce(h, rolledBack)) == Finished(h)
    ensures forall t :: Touched(AtOnce(h, rolledBack), t) == Touched(h, t) && Written(AtOnce(h, rolledBack), t) == Written(h, t)
    ensures forall t :: t in Committed(AtOnce(h, rolledBack)) <==> t in Finished(h) && t !in rolledBack
  {
    if h != [] {
      var front, e := h[..|h| - 1], h[|h| - 1];
      assert h == front + [e];
      SameRecords(front, rolledBack);
      Snoc(front, e);
      Snoc(AtOnce(front, rolledBack), Outcome(e, rolledBack));
    }
  }

  lemma {:induction false} AtOnceIsStrict(h: History, rolledBack: set<Tid>)
    requires Strict(h)
    ensures Strict(AtOnce(h, rolledBack))
  {
    if h != [] {
      var front, e := h[..|h| - 1], h[|h| - 1];
      assert h == front + [e];
      StrictSnoc(front, e);
      AtOnceIsStrict(front, rolledBack);
      SameRecords(front, rolledBack);
      StrictSnoc(AtOnce(front, rolledBack), Outcome(e, rolledBack));
    }
  }

  // ---------- simulation ----------

  /** Who has not ended has the same before-images in both worlds, of what it wrote. */
  ghost predicate SameImages(h: History, w: World, v: World) {
    forall t :: t !in Finished(h) ==> Images(w, t) == Images(v, t) && Images(w, t).Keys == Written(h, t)
  }

  /** The before-images still to be put back are what the other world has there. */
  ghost predicate KeepsImages(h: History, w: World, v: World, pending: set<Tid>) {
    && (forall u :: u in pending ==> Images(w, u).Keys == Written(h, u))
    && forall u, r :: u in pending && r in Written(h, u) ==> r in Images(w, u) && Images(w, u)[r] == Lookup(v.store, r)
  }

  ghost predicate Apart(h: History, pending: set<Tid>) {
    && pending <= Finished(h)
    && forall t, u :: u in pending && t != u && (t in pending || t !in Finished(h)) ==> Written(h, t) !! Written(h, u)
  }

  /** Waiting for an undo, or being written by somebody who does not stay. */
  ghost predicate Spoiled(h: History, pending: set<Tid>, kept: set<Tid>, r: Rec) {
    Dirty(h, pending, r) || exists t :: t !in kept && t !in Finished(h) && r in Written(h, t)
  }

  ghost predicate SameWhereClean(h: History, w: World, v: World, pending: set<Tid>, kept: set<Tid>) {
    forall r :: !Spoiled(h, pending, kept, r) ==> Lookup(w.store, r) == Lookup(v.store, r)
  }

  /** The delayed world w against the world v in which undoing comes at once. */
  ghost predicate Lags(h: History, w: World, v: World, pending: set<Tid>, kept: set<Tid>) {
    && (forall t :: t in kept ==> Log(w, t) == Log(v, t))
    && SameImages(h, w, v) && KeepsImages(h, w, v, pending)
    && Apart(h, pending) && SameWhereClean(h, w, v, pending, kept)
  }

  // ---------- an access ----------

  /** What an access may touch is spoiled only if it is dirty, or the accessing transaction's own. */
  lemma CleanForAccess(h: History, pending: set<Tid>, kept: set<Tid>, e: Event)
    requires MayFollow(h, e) && e.Access? && !Dirty(h, pending, e.r)
    ensures e.t in kept || e.r !in Written(h, e.t) ==> !Spoiled(h, pending, kept, e.r)
  {
  }

  lemma AccessImages(h: History, w: World, v: World, e: Event, prog: Program)
    requires SameImages(h, w, v) && e.Access? && e.t !in Finished(h)
    requires e.action == WRITE && e.r !in Written(h, e.t) ==> Lookup(w.store, e.r) == Lookup(v.store, e.r)
    ensures SameImages(h + [e], Step(w, e, prog), Step(v, e, prog))
  {
    Snoc(h, e);
    ImageAdded(w, e, prog);
    ImageAdded(v, e, prog);
    StepFrame(w, e, prog);
    StepFrame(v, e, prog);
    var w', v' := Step(w, e, prog), Step(v, e, prog);
    forall t | t !in Finished(h + [e])
      ensures Images(w', t) == Images(v', t) && Images(w', t).Keys == Written(h + [e], t)
    {
      if t != e.t {
        assert Images(w', t) == Images(w, t) && Images(v', t) == Images(v, t);
      }
    }
  }

  lemma AccessKeeps(h: History, w: World, v: World, pending: set<Tid>, e: Event, prog: Program)
    requires KeepsImages(h, w, v, pending) && Apart(h, pending)
    requires e.Access? && e.t !in Finished(h) && (e.action == WRITE ==> !Dirty(h, pending, e.r))
    ensures KeepsImages(h + [e], Step(w, e, prog), Step(v, e, prog), pending) && Apart(h + [e], pending)
  {
    Snoc(h, e);
    StepFrame(w, e, prog);
    StepFrame(v, e, prog);
    assert forall u :: u in pending ==> u != e.t && Written(h + [e], u) == Written(h, u);
    assert e.action == WRITE ==> forall u :: u in pending ==> e.r !in Written(h, u);
  }

  lemma SpoiledStays(h: History, e: Event, pending: set<Tid>, kept: set<Tid>, r: Rec)
    requires e.Access? || e.t in kept
    ensures Spoiled(h, pending, kept, r) ==> Spoiled(h + [e], pending, kept, r)
  {
    Snoc(h, e);
    if u :| u in pending && r in Written(h, u) {
      assert r in Written(h + [e], u);
    } else if t :| t !in kept && t !in Finished(h) && r in Written(h, t) {
      assert r in Written(h + [e], t);
    }
  }

  lemma WriteLags(h: History, w: World, v: World, pending: set<Tid>, kept: set<Tid>, e: Event, prog: Program)
    requires Lags(h, w, v, pending, kept) && MayFollow(h, e) && e.Access? && e.action == WRITE && !Dirty(h, pending, e.r)
    ensures Lags(h + [e], Step(w, e, prog), Step(v, e, prog), pending, kept)
  {
    CleanForAccess(h, pending, kept, e);
    AccessImages(h, w, v, e, prog);
    AccessKeeps(h, w, v, pending, e, prog);
    StepFrame(w, e, prog);
    StepFrame(v, e, prog);
    var w', v' := Step(w, e, prog), Step(v, e, prog);
    if e.t in kept {
      StepDepends(w, v, e, prog);
    }
    forall r | !Spoiled(h + [e], pending, kept, r)
      ensures Lookup(w'.store, r) == Lookup(v'.store, r)
    {
      SpoiledStays(h, e, pending, kept, r);
      Snoc(h, e);
      assert r == e.r ==> r in Written(h + [e], e.t) && e.t in kept;
    }
  }

  lemma ReadLags(h: History, w: World, v: World, pending: set<Tid>, kept: set<Tid>, e: Event, prog: Program)
    requires Lags(h, w, v, pending, kept) && MayFollow(h, e) && e.Access? && e.action == READ
    requires e.t in kept ==> !Dirty(h, pending, e.r)
    ensures Lags(h + [e], Step(w, e, prog), Step(v, e, prog), pending, kept)
  {
    AccessImages(h, w, v, e, prog);
    AccessKeeps(h, w, v, pending, e, prog);
    StepFrame(w, e, prog);
    StepFrame(v, e, prog);
    if e.t in kept {
      CleanForAccess(h, pending, kept, e);
      StepDepends(w, v, e, prog);
    }
    forall r | !Spoiled(h + [e], pending, kept, r)
      ensures Lookup(w.store, r) == Lookup(v.store, r)
    {
      SpoiledStays(h, e, pending, kept, r);
    }
  }

  // ---------- an end ----------

  lemma CommitKeeps(h: History, w: World, v: World, pending: set<Tid>, e: Event, prog: Program)
    requires SameImages(h, w, v) && KeepsImages(h, w, v, pending) && Apart(h, pending) && !e.Access? && e.t !in Finished(h)
    ensures SameImages(h + [e], Step(w, Commit(e.t), prog), Step(v, Commit(e.t), prog))
    ensures KeepsImages(h + [e], Step(w, Commit(e.t), prog), Step(v, Commit(e.t), prog), pending) && Apart(h + [e], pending)
  {
    Snoc(h, e);
    Forgotten(w, e.t, prog);
    Forgotten(v, e.t, prog);
  }

  lemma CommitLags(h: History, w: World, v: World, pending: set<Tid>, kept: set<Tid>, e: Event, prog: Program)
    requires Lags(h, w, v, pending, kept) && !e.Access? && e.t !in Finished(h) && e.t in kept
    ensures Lags(h + [e], Step(w, Commit(e.t), prog), Step(v, Commit(e.t), prog), pending, kept)
  {
    CommitKeeps(h, w, v, pending, e, prog);
    Forgotten(w, e.t, prog);
    Forgotten(v, e.t, prog);
    forall r | !Spoiled(h + [e], pending, kept, r)
      ensures Lookup(w.store, r) == Lookup(v.store, r)
    {
      SpoiledStays(h, e, pending, kept, r);
    }
  }

  /** A transaction that has just ended wrote nothing that others are in the middle of writing. */
  lemma ReleaseApart(h: History, pending: set<Tid>, e: Event)
    requires Strict(h) && Apart(h, pending) && !e.Access? && e.t !in Finished(h)
    ensures Apart(h + [e], pending + {e.t})
  {
    Snoc(h, e);
    forall u | u !in Finished(h) && u != e.t
      ensures Written(h, u) !! Written(h, e.t)
    {
      UnfinishedAreDisjoint(h, e.t, u);
      Memberships(h);
    }
  }

  lemma ReleaseKeeps(h: History, w: World, v: World, pending: set<Tid>, e: Event, prog: Program)
    requires SameImages(h, w, v) && KeepsImages(h, w, v, pending) && Apart(h, pending) && !e.Access? && e.t !in Finished(h)
    ensures KeepsImages(h + [e], w, Step(v, Abort(e.t), prog), pending + {e.t})
    ensures SameImages(h + [e], w, Step(v, Abort(e.t), prog))
  {
    Snoc(h, e);
    Restored(v, e.t, prog);
  }

  lemma SpoiledAfterRelease(h: History, e: Event, pending: set<Tid>, kept: set<Tid>, r: Rec)
    requires !e.Access?
    ensures Spoiled(h, pending, kept, r) || r in Written(h, e.t) ==> Spoiled(h + [e], pending + {e.t}, kept, r)
  {
    Snoc(h, e);
    if r in Written(h, e.t) {
      assert e.t in pending + {e.t} && r in Written(h + [e], e.t);
    } else if u :| u in pending && r in Written(h, u) {
      assert u in pending + {e.t} && r in Written(h + [e], u);
    } else if t :| t !in kept && t !in Finished(h) && r in Written(h, t) {
      assert t != e.t && t !in Finished(h + [e]) && r in Written(h + [e], t);
    }
  }

  /** The locks go, the changes stay. */
  lemma ReleaseLags(h: History, w: World, v: World, pending: set<Tid>, kept: set<Tid>, e: Event, prog: Program)
    requires Strict(h) && Lags(h, w, v, pending, kept) && !e.Access? && e.t !in Finished(h)
    ensures Lags(h + [e], w, Step(v, Abort(e.t), prog), pending + {e.t}, kept)
  {
    var v' := Step(v, Abort(e.t), prog);
    ReleaseApart(h, pending, e);
    ReleaseKeeps(h, w, v, pending, e, prog);
    Restored(v, e.t, prog);
    forall r | !Spoiled(h + [e], pending + {e.t}, kept, r)
      ensures Lookup(w.store, r) == Lookup(v'.store, r)
    {
      SpoiledAfterRelease(h, e, pending, kept, r);
    }
  }

  // ---------- the undo ----------

  lemma UndoLags(h: History, w: World, v: World, pending: set<Tid>, kept: set<Tid>, t: Tid, prog: Program)
    requires Lags(h, w, v, pending, kept) && t in pending
    ensures Lags(h, Step(w, Abort(t), prog), v, pending - {t}, kept)
  {
    Restored(w, t, prog);
    forall r | !Spoiled(h, pending - {t}, kept, r)
      ensures Lookup(Step(w, Abort(t), prog).store, r) == Lookup(v.store, r)
    {
      if r !in Written(h, t) {
        assert forall u :: u in pending && r in Written(h, u) ==> u in pending - {t};
        assert !Spoiled(h, pending, kept, r);
      }
    }
  }

  /** All who end and are not rolled back are kept. */
  ghost predicate KeepsTheRest(h: History, rolledBack: set<Tid>, kept: set<Tid>) {
    Finished(h) - rolledBack <= kept
  }

  lemma {:induction false} DelayedSimulation(s: Schedule, rolledBack: set<Tid>, kept: set<Tid>, store: map<Rec, Value>, prog: Program)
    requires Strict(Grants(s)) && Orderly(s, rolledBack) && NoDirtyRead(s, rolledBack, kept)
    requires KeepsTheRest(Grants(s), rolledBack, kept)
    ensures Lags(Grants(s), PerformAll(Initially(store), s, rolledBack, prog),
                 Exec(Initially(store), AtOnce(Grants(s), rolledBack), prog), Pending(s, rolledBack), kept)
  {
    if s != [] {
      var front, h := s[..|s| - 1], Grants(s[..|s| - 1]);
      var w, v := PerformAll(Initially(store), front, rolledBack, prog), Exec(Initially(store), AtOnce(h, rolledBack), prog);
      match s[|s| - 1]
      case Undo(t) =>
        DelayedSimulation(front, rolledBack, kept, store, prog);
        UndoLags(h, w, v, Pending(front, rolledBack), kept, t, prog);
      case Granted(e) =>
        assert Grants(s) == h + [e] && (h + [e])[..|h|] == h;
        StrictSnoc(h, e);
        Snoc(h, e);
        DelayedSimulation(front, rolledBack, kept, store, prog);
        ExecSnoc(Initially(store), AtOnce(h, rolledBack), Outcome(e, rolledBack), prog);
        GrantLags(h, w, v, Pending(front, rolledBack), rolledBack, kept, e, prog);
    }
  }

  /** One event that the lock manager grants. */
  lemma GrantLags(h: History, w: World, v: World, pending: set<Tid>, rolledBack: set<Tid>, kept: set<Tid>, e: Event, prog: Program)
    requires Strict(h) && MayFollow(h, e) && Lags(h, w, v, pending, kept)
    requires e.Access? ==> (e.action == WRITE || e.t in kept ==> !Dirty(h, pending, e.r))
    requires !e.Access? ==> e.t in kept || e.t in rolledBack
    ensures Lags(h + [e], Perform(w, Granted(e), rolledBack, prog), Step(v, Outcome(e, rolledBack), prog),
                 if !e.Access? && e.t in rolledBack then pending + {e.t} else pending, kept)
  {
    if !e.Access? {
      if e.t in rolledBack {
        ReleaseLags(h, w, v, pending, kept, e, prog);
      } else {
        CommitLags(h, w, v, pending, kept, e, prog);
      }
    } else if e.action == WRITE {
      WriteLags(h, w, v, pending, kept, e, prog);
    } else {
      ReadLags(h, w, v, pending, kept, e, prog);
    }
  }

  // ---------- runs of the lock manager ----------

  /** Everyone who is not rolled back reads as in the serial run of those transactions in the order of
      their ends, and so do the records end that nobody is still to undo or to finish writing. */
  ghost predicate EquivalentWhenDelayed(s: Schedule, rolledBack: set<Tid>, store: map<Rec, Value>, prog: Program) {
    var h := Grants(s);
    var w := PerformAll(Initially(store), s, rolledBack, prog);
    var serial := Exec(Initially(store), Serial(AtOnce(h, rolledBack)), prog);
    && (forall t :: t in Finished(h) && t !in rolledBack ==> Log(w, t) == Log(serial, t))
    && (forall r :: Untouched(h, r) && !Dirty(h, Pending(s, rolledBack), r) ==> Lookup(w.store, r) == Lookup(serial.store, r))
  }

  /** Without overwriting and reading of what is still to be undone, whatever the transactions do. */
  lemma CleanIsEquivalent(s: Schedule, rolledBack: set<Tid>, store: map<Rec, Value>, prog: Program)
    requires Strict(Grants(s)) && Orderly(s, rolledBack) && NoDirtyRead(s, rolledBack, Staying(s, rolledBack))
    ensures EquivalentWhenDelayed(s, rolledBack, store, prog)
  {
    var h := Grants(s);
    DelayedSimulation(s, rolledBack, Staying(s, rolledBack), store, prog);
    SameRecords(h, rolledBack);
    AtOnceIsStrict(h, rolledBack);
    SerialEquivalence(AtOnce(h, rolledBack), store, prog);
    forall r | Untouched(h, r)
      ensures Untouched(AtOnce(h, rolledBack), r)
    {
    }
  }

  // ---------- a dirty read shows ----------

  /** u writes 1, everybody else 0. */
  function Marking(u: Tid): Program {
    (t, _) => if t == u then 1 else 0
  }

  const MARK: Option<Value> := Some(1)

  /** Without u there is no mark. */
  ghost predicate Unmarked(w: World) {
    && (forall r :: Lookup(w.store, r) != MARK)
    && (forall t, r :: r in Images(w, t) ==> Images(w, t)[r] != MARK)
    && (forall t :: MARK !in Log(w, t))
  }

  lemma UnmarkedAccess(w: World, e: Event, u: Tid)
    requires Unmarked(w) && e.Access? && e.t != u
    ensures Unmarked(Step(w, e, Marking(u)))
  {
    var w' := Step(w, e, Marking(u));
    var added := if e.action == READ then Lookup(w.store, e.r) else Some(0);
    ImageAdded(w, e, Marking(u));
    StepFrame(w, e, Marking(u));
    assert Log(w', e.t) == Log(w, e.t) + [added] && added != MARK;
    forall t
      ensures MARK !in Log(w', t)
    {
      assert t != e.t ==> Log(w', t) == Log(w, t);
    }
  }

  lemma UnmarkedStep(w: World, e: Event, u: Tid)
    requires Unmarked(w) && e.t != u
    ensures Unmarked(Step(w, e, Marking(u)))
  {
    var w' := Step(w, e, Marking(u));
    if e.Access? {
      UnmarkedAccess(w, e, u);
    } else {
      Forgotten(w, e.t, Marking(u));
      Restored(w, e.t, Marking(u));
      assert Images(w', e.t) == map[] && forall t :: Log(w', t) == Log(w, t);
    }
  }

  lemma {:induction false} UnmarkedRun(h: History, u: Tid)
    requires forall i :: 0 <= i < |h| ==> h[i].t != u
    ensures Unmarked(Exec(Initially(map[]), h, Marking(u)))
  {
    if h != [] {
      UnmarkedRun(h[..|h| - 1], u);
      UnmarkedStep(Exec(Initially(map[]), h[..|h| - 1], Marking(u)), h[|h| - 1], u);
    }
  }

  ghost predicate Marked(h: History, w: World, u: Tid) {
    forall r :: r in Written(h, u) ==> Lookup(w.store, r) == MARK
  }

  /** Until it is undone, what u wrote stays marked. */
  lemma {:induction false} MarkStays(s: Schedule, rolledBack: set<Tid>, kept: set<Tid>, u: Tid)
    requires Strict(Grants(s)) && Orderly(s, rolledBack) && NoDirtyRead(s, rolledBack, kept)
    requires KeepsTheRest(Grants(s), rolledBack, kept) && u in rolledBack
    requires u in Pending(s, rolledBack) || u !in Finished(Grants(s))
    ensures Marked(Grants(s), PerformAll(Initially(map[]), s, rolledBack, Marking(u)), u)
  {
    if s != [] {
      var front, h := s[..|s| - 1], Grants(s[..|s| - 1]);
      var w := PerformAll(Initially(map[]), front, rolledBack, Marking(u));
      match s[|s| - 1]
      case Undo(t) =>
        DelayedSimulation(front, rolledBack, kept, map[], Marking(u));
        MarkStays(front, rolledBack, kept, u);
        Restored(w, t, Marking(u));
      case Granted(e) =>
        assert Grants(s) == h + [e] && (h + [e])[..|h|] == h;
        StrictSnoc(h, e);
        Snoc(h, e);
        MarkStays(front, rolledBack, kept, u);
        if e.Access? {
          StepFrame(w, e, Marking(u));
          assert e.t != u && e.action == WRITE ==> e.r !in Written(h, u);
        } else {
          Forgotten(w, e.t, Marking(u));
        }
    }
  }

  /** Logs only grow. */
  lemma LogGrows(w: World, stage: Stage, rolledBack: set<Tid>, prog: Program, t: Tid)
    ensures Log(w, t) <= Log(Perform(w, stage, rolledBack, prog), t)
  {
  }

  /** Somebody who stays has read the mark. */
  ghost predicate ReadsMark(s: Schedule, rolledBack: set<Tid>, u: Tid, t: Tid) {
    MARK in Log(PerformAll(Initially(map[]), s, rolledBack, Marking(u)), t)
  }

  lemma {:induction false} DirtyReadMarks(s: Schedule, rolledBack: set<Tid>, kept: set<Tid>) returns (u: Tid, t: Tid)
    requires Strict(Grants(s)) && Orderly(s, rolledBack) && !NoDirtyRead(s, rolledBack, kept)
    requires KeepsTheRest(Grants(s), rolledBack, kept)
    ensures u in rolledBack && t in kept && ReadsMark(s, rolledBack, u, t)
  {
    var front, stage := s[..|s| - 1], s[|s| - 1];
    var h := Grants(front);
    if stage.Granted? {
      assert Grants(s) == h + [stage.e];
      StrictSnoc(h, stage.e);
      Snoc(h, stage.e);
    }
    if NoDirtyRead(front, rolledBack, kept) {
      t := stage.e.t;
      u :| u in Pending(front, rolledBack) && stage.e.r in Written(h, u);
      PendingAreRolledBack(front, rolledBack);
      MarkStays(front, rolledBack, kept, u);
      var w := PerformAll(Initially(map[]), front, rolledBack, Marking(u));
      assert Log(Perform(w, stage, rolledBack, Marking(u)), t) == Log(w, t) + [MARK];
    } else {
      u, t := DirtyReadMarks(front, rolledBack, kept);
      LogGrows(PerformAll(Initially(map[]), front, rolledBack, Marking(u)), stage, rolledBack, Marking(u), t);
    }
  }

  lemma {:induction false} PendingAreRolledBack(s: Schedule, rolledBack: set<Tid>)
    ensures Pending(s, rolledBack) <= rolledBack
  {
    if s != [] {
      PendingAreRolledBack(s[..|s| - 1], rolledBack);
    }
  }

  /** Some transactions tell the difference. */
  lemma DirtyReadShows(s: Schedule, rolledBack: set<Tid>)
    requires Strict(Grants(s)) && Orderly(s, rolledBack) && !NoDirtyRead(s, rolledBack, Staying(s, rolledBack))
    ensures exists store, prog :: !EquivalentWhenDelayed(s, rolledBack, store, prog)
  {
    var h := AtOnce(Grants(s), rolledBack);
    var u, t := DirtyReadMarks(s, rolledBack, Staying(s, rolledBack));
    SameRecords(Grants(s), rolledBack);
    SerialEvents(h);
    forall i | 0 <= i < |Serial(h)|
      ensures Serial(h)[i].t != u
    {
      assert Serial(h)[i].t in Committed(h);
    }
    UnmarkedRun(Serial(h), u);
    assert !EquivalentWhenDelayed(s, rolledBack, map[], Marking(u));
  }

  /** In every run of the lock manager, with rollbacks undone at any time after their locks are gone
      and nobody overwriting what is still to be undone: whatever the transactions do the run is
      equivalent to the serial one, if and only if none of those that stay has read what was still to
      be undone. */
  lemma DelayedRunsAreSerialisable(calls: seq<Locks.Call>, s: Schedule, rolledBack: set<Tid>)
    requires Grants(s) == Locks.Run(calls).1 && Orderly(s, rolledBack)
    ensures IsSerial(Serial(AtOnce(Grants(s), rolledBack)))
    ensures (forall store, prog :: EquivalentWhenDelayed(s, rolledBack, store, prog)) <==>
      NoDirtyRead(s, rolledBack, Staying(s, rolledBack))
  {
    Safety.RunInvariant(calls);
    AtOnceIsStrict(Grants(s), rolledBack);
    SerialIsSerial(AtOnce(Grants(s), rolledBack));
    if NoDirtyRead(s, rolledBack, Staying(s, rolledBack)) {
      forall store, prog
        ensures EquivalentWhenDelayed(s, rolledBack, store, prog)
      {
        CleanIsEquivalent(s, rolledBack, store, prog);
      }
    } else {
      DirtyReadShows(s, rolledBack);
    }
  }

  // ---------- every schedule ----------

  /** What a schedule does to the store and the logs. */
  function Effects(s: Schedule, rolledBack: set<Tid>): History {
    if s == [] then []
    else
      var rest := Effects(s[..|s| - 1], rolledBack);
      match s[|s| - 1]
      case Granted(e) => if !e.Access? && e.t in rolledBack then rest else rest + [Outcome(e, rolledBack)]
      case Undo(t) => rest + [Abort(t)]
  }

  lemma {:induction false} EffectsArePerformed(w: World, s: Schedule, rolledBack: set<Tid>, prog: Program)
    ensures Exec(w, Effects(s, rolledBack), prog) == PerformAll(w, s, rolledBack, prog)
  {
    if s != [] {
      var rest := Effects(s[..|s| - 1], rolledBack);
      EffectsArePerformed(w, s[..|s| - 1], rolledBack, prog);
      match s[|s| - 1]
      case Granted(e) => ExecSnoc(w, rest, Outcome(e, rolledBack), prog);
      case Undo(t) => ExecSnoc(w, rest, Abort(t), prog);
    }
  }

  lemma {:induction false} EffectsKeepOps(s: Schedule, rolledBack: set<Tid>, t: Tid)
    ensures Ops(Effects(s, rolledBack), t) == Ops(Grants(s), t)
  {
    if s != [] {
      var front := s[..|s| - 1];
      EffectsKeepOps(front, rolledBack, t);
      match s[|s| - 1]
      case Granted(e) =>
        OpsSnoc(Effects(front, rolledBack), Outcome(e, rolledBack), t);
        OpsSnoc(Grants(front), e, t);
      case Undo(u) => OpsSnoc(Effects(front, rolledBack), Abort(u), t);
    }
  }

  lemma {:induction false} AtOnceKeepsOps(h: History, rolledBack: set<Tid>, t: Tid)
    ensures Ops(AtOnce(h, rolledBack), t) == Ops(h, t)
  {
    if h != [] {
      AtOnceKeepsOps(h[..|h| - 1], rolledBack, t);
      OpsSnoc(AtOnce(h[..|h| - 1], rolledBack), Outcome(h[|h| - 1], rolledBack), t);
    }
  }

  /** Those that stay, and the records that nobody is still to undo or to finish writing. */
  ghost function Lasting(s: Schedule, rolledBack: set<Tid>): Scope {
    Scope(t => t in Staying(s, rolledBack),
          r => Untouched(Grants(s), r) && !Dirty(Grants(s), Pending(s, rolledBack), r))
  }

  lemma DelayedIsComparable(s: Schedule, rolledBack: set<Tid>)
    requires Strict(Grants(s))
    ensures Comparable(Effects(s, rolledBack), Serial(AtOnce(Grants(s), rolledBack)), Lasting(s, rolledBack))
  {
    var h := Grants(s);
    SameRecords(h, rolledBack);
    AtOnceIsStrict(h, rolledBack);
    forall t
      ensures Ops(Effects(s, rolledBack), t) == Ops(h, t)
      ensures Ops(Serial(AtOnce(h, rolledBack)), t) == if t in Staying(s, rolledBack) then Ops(h, t) else []
    {
      EffectsKeepOps(s, rolledBack, t);
      AtOnceKeepsOps(h, rolledBack, t);
      SerialKeepsOps(AtOnce(h, rolledBack), t);
    }
  }

  /** In every run of the lock manager with whatever undone at whatever time, also when it is overwritten
      before: whatever the transactions do the run is equivalent to the serial one, if and only if those
      that stay read from whom they read there, and the records were last written by whom they were there. */
  lemma EveryScheduleIsDecided(calls: seq<Locks.Call>, s: Schedule, rolledBack: set<Tid>)
    requires Grants(s) == Locks.Run(calls).1
    ensures (forall store, prog :: EquivalentWhenDelayed(s, rolledBack, store, prog)) <==>
      SameView(Effects(s, rolledBack), Serial(AtOnce(Grants(s), rolledBack)), Lasting(s, rolledBack))
  {
    var serial := Serial(AtOnce(Grants(s), rolledBack));
    Safety.RunInvariant(calls);
    DelayedIsComparable(s, rolledBack);
    ViewDecides(Effects(s, rolledBack), serial, Lasting(s, rolledBack));
    forall store, prog
      ensures EquivalentWhenDelayed(s, rolledBack, store, prog) <==>
        SameOutcome(Effects(s, rolledBack), serial, Lasting(s, rolledBack), store, prog)
    {
      EffectsArePerformed(Initially(store), s, rolledBack, prog);
    }
  }
}
