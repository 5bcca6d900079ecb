/** Histories of granted accesses. */
module Histories {
  // Both protocols (two-phase locking and timestamp ordering) grant accesses to records; the
  // sequence of grants, commits and aborts is the history. Transactions are arbitrary
  // deterministic programs: what a transaction writes is a function of everything it has
  // read and written so far.

  import opened Wrappers

  type Tid = int
  type Rec = int    // the hash that identifies a record
  type Value = int  // an opaque stored value

  /** A transaction's, as both managers know it. */
  datatype Status = ACTIVE | PARTIALLY_COMMITTED | COMMITTED | FAILED | ABORTED | TERMINATED

  datatype Action = READ | WRITE

  datatype Event =
    | Access(t: Tid, r: Rec, action: Action)
    | Commit(t: Tid)
    | Abort(t: Tid)

  type History = seq<Event>

  predicate Ends(e: Event, t: Tid) {
    e == Commit(t) || e == Abort(t)
  }

  /** The transactions that committed or aborted. */
  function Finished(h: History): set<Tid> {
    if h == [] then {}
    else
      var e := h[|h| - 1];
      Finished(h[..|h| - 1]) + (if e.Access? then {} else {e.t})
  }

  function Committed(h: History): set<Tid> {
    if h == [] then {}
    else
      var e := h[|h| - 1];
      Committed(h[..|h| - 1]) + (if e.Commit? then {e.t} else {})
  }

  /** The records that t has read or written. */
  function Touched(h: History, t: Tid): set<Rec> {
    if h == [] then {}
    else
      var e := h[|h| - 1];
      Touched(h[..|h| - 1], t) + (if e.Access? && e.t == t then {e.r} else {})
  }

  /** The records that t has written. */
  function Written(h: History, t: Tid): set<Rec> {
    if h == [] then {}
    else
      var e := h[|h| - 1];
      Written(h[..|h| - 1], t) + (if e.Access? && e.t == t && e.action == WRITE then {e.r} else {})
  }

  lemma Snoc(h: History, e: Event)
    ensures Finished(h + [e]) == Finished(h) + if e.Access? then {} else {e.t}
    ensures Committed(h + [e]) == Committed(h) + if e.Commit? then {e.t} else {}
    ensures forall t :: Touched(h + [e], t) == (Touched(h, t) + if e.Access? && e.t == t then {e.r} else {})
    ensures forall t ::
      Written(h + [e], t) == (Written(h, t) + if e.Access? && e.t == t && e.action == WRITE then {e.r} else {})
  {
    assert (h + [e])[..|h|] == h;
  }

  lemma {:induction false} Memberships(h: History)
    ensures forall t :: t in Finished(h) <==> exists i :: 0 <= i < |h| && Ends(h[i], t)
    ensures forall t, r :: r in Touched(h, t) <==> exists i, a :: 0 <= i < |h| && h[i] == Access(t, r, a)
    ensures forall t, r :: r in Written(h, t) <==> exists i :: 0 <= i < |h| && h[i] == Access(t, r, WRITE)
    ensures forall t :: Written(h, t) <= Touched(h, t)
  {
    if h != [] {
      var g, e := h[..|h| - 1], h[|h| - 1];
      assert h == g + [e];
      Snoc(g, e);
      Memberships(g);
      assert h[|g|] == e && forall i :: 0 <= i < |g| ==> h[i] == g[i];
    }
  }

  /** Two accesses conflict when they are by different transactions, on one record, and one writes. */
  predicate Conflict(a: Event, b: Event) {
    && a.Access? && b.Access?
    && a.t != b.t && a.r == b.r
    && (a.action.WRITE? || b.action.WRITE?)
  }

  ghost predicate EndedWithin(h: History, t: Tid, i: int, j: int)
    requires 0 <= i <= j <= |h|
  {
    exists k :: i <= k < j && Ends(h[k], t)
  }

  /** Strictness: of two conflicting accesses the earlier transaction ended in between, and a
      transaction does nothing after its end. */
  ghost predicate Strict(h: History) {
    && (forall i, j :: 0 <= i < j < |h| && Conflict(h[i], h[j]) ==> EndedWithin(h, h[i].t, i, j))
    && (forall i, j :: 0 <= i < j < |h| && h[i].t == h[j].t ==> !Ends(h[i], h[i].t))
  }

  /** Strictness, one event at a time. */
  ghost predicate MayFollow(h: History, e: Event) {
    && e.t !in Finished(h)
    && (e.Access? ==> forall u :: u != e.t && u !in Finished(h) ==>
          e.r !in Written(h, u) && (e.action == WRITE ==> e.r !in Touched(h, u)))
  }

  lemma StrictSnoc(h: History, e: Event)
    ensures Strict(h + [e]) <==> Strict(h) && MayFollow(h, e)
  {
    var g := h + [e];
    assert forall i :: 0 <= i < |h| ==> g[i] == h[i];
    assert g[|h|] == e;
    Memberships(h);
    if Strict(g) {
      forall i, j | 0 <= i < j < |h| && Conflict(h[i], h[j])
        ensures EndedWithin(h, h[i].t, i, j)
      {
        assert EndedWithin(g, g[i].t, i, j);
        var k :| i <= k < j && Ends(g[k], g[i].t);
        assert Ends(h[k], h[i].t);
      }
      forall i | 0 <= i < |h| && Conflict(h[i], e)
        ensures h[i].t in Finished(h)
      {
        assert EndedWithin(g, g[i].t, i, |h|);
        var k :| i <= k < |h| && Ends(g[k], g[i].t);
        assert Ends(h[k], h[i].t);
      }
      forall i | 0 <= i < |h|
        ensures !Ends(h[i], e.t)
      {
        assert g[i].t == g[|h|].t ==> !Ends(g[i], g[i].t);
      }
    }
    if Strict(h) && MayFollow(h, e) {
      forall i, j | 0 <= i < j < |g| && Conflict(g[i], g[j])
        ensures EndedWithin(g, g[i].t, i, j)
      {
        if j < |h| {
          assert EndedWithin(h, h[i].t, i, j);
          var k :| i <= k < j && Ends(h[k], h[i].t);
          assert Ends(g[k], g[i].t);
        } else {
          assert h[i] == Access(h[i].t, e.r, h[i].action);
          assert e.r in Touched(h, h[i].t) && h[i].t in Finished(h);
          var k :| 0 <= k < |h| && Ends(h[k], h[i].t);
          assert k < i ==> h[k].t != h[i].t;
          assert Ends(g[k], g[i].t);
        }
      }
    }
  }

  /** Of two unfinished transactions of a strict history, neither touches what the other wrote. */
  lemma {:induction false} UnfinishedAreDisjoint(h: History, t: Tid, u: Tid)
    requires Strict(h) && t != u && t !in Finished(h) && u !in Finished(h)
    ensures Written(h, t) !! Touched(h, u)
  {
    if h != [] {
      var g, e := h[..|h| - 1], h[|h| - 1];
      assert h == g + [e];
      Snoc(g, e);
      StrictSnoc(g, e);
      UnfinishedAreDisjoint(g, t, u);
      Memberships(g);
    }
  }

  // ---------- execution ----------

  /** `store` holds the records in place, `logs` what each transaction has read and written
      so far, and `images` the before-images of what each unfinished transaction overwrote. */
  datatype World = World(
    store: map<Rec, Value>,
    logs: map<Tid, seq<Option<Value>>>,
    images: map<Tid, map<Rec, Option<Value>>>)

  type Program = (Tid, seq<Option<Value>>) -> Value

  function Lookup(store: map<Rec, Value>, r: Rec): Option<Value> {
    if r in store then Some(store[r]) else None
  }

  function Log(w: World, t: Tid): seq<Option<Value>> {
    if t in w.logs then w.logs[t] else []
  }

  function Images(w: World, t: Tid): map<Rec, Option<Value>> {
    if t in w.images then w.images[t] else map[]
  }

  function Restore(store: map<Rec, Value>, images: map<Rec, Option<Value>>): map<Rec, Value> {
    map r | r in store.Keys + images.Keys && (r in images ==> images[r].Some?)
      :: if r in images then images[r].value else store[r]
  }

  /** One event: a read observes the store, a write changes it in place, and an abort puts
      the before-images back. */
  function Step(w: World, e: Event, prog: Program): World {
    match e
    case Access(t, r, READ) => w.(logs := w.logs[t := Log(w, t) + [Lookup(w.store, r)]])
    case Access(t, r, WRITE) =>
      var v := prog(t, Log(w, t));
      var images := Images(w, t);
      World(
        w.store[r := v],
        w.logs[t := Log(w, t) + [Some(v)]],
        if r in images then w.images else w.images[t := images[r := Lookup(w.store, r)]])
    case Commit(t) => w.(images := w.images - {t})
    case Abort(t) => w.(store := Restore(w.store, Images(w, t)), images := w.images - {t})
  }

  function Exec(w: World, h: History, prog: Program): World {
    if h == [] then w else Step(Exec(w, h[..|h| - 1], prog), h[|h| - 1], prog)
  }

  function Initially(store: map<Rec, Value>): World {
    World(store, map[], map[])
  }

  lemma ExecSnoc(w: World, h: History, e: Event, prog: Program)
    ensures Exec(w, h + [e], prog) == Step(Exec(w, h, prog), e, prog)
  {
    assert (h + [e])[..|h|] == h;
  }

  lemma {:induction false} ExecConcat(w: World, g: History, h: History, prog: Program)
    ensures Exec(w, g + h, prog) == Exec(Exec(w, g, prog), h, prog)
  {
    if h == [] {
      assert g + h == g;
    } else {
      var k := |h| - 1;
      assert g + h == (g + h[..k]) + [h[k]];
      ExecSnoc(w, g + h[..k], h[k], prog);
      ExecConcat(w, g, h[..k], prog);
    }
  }
}
