/** Who reads what from whom. */
module ReadsFrom {
  // Two histories in which the same transactions do the same accesses let them read and leave the same,
  // whatever they are, if and only if each read is of the same write in both.

  import opened Wrappers
  import opened Histories
  import opened Serialisability

  /** Where a value comes from: it was there before, or is the n-th access of t. */
  datatype Source = Before | By(t: Tid, n: nat)

  /** A world with sources in place of values. */
  datatype View = View(store: map<Rec, Source>, seen: map<Tid, seq<Source>>, images: map<Tid, map<Rec, Source>>)

  function Origin(v: View, r: Rec): Source {
    if r in v.store then v.store[r] else Before
  }

  function Seen(v: View, t: Tid): seq<Source> {
    if t in v.seen then v.seen[t] else []
  }

  function Saved(v: View, t: Tid): map<Rec, Source> {
    if t in v.images then v.images[t] else map[]
  }

  function Look(v: View, e: Event): View {
    match e
    case Access(t, r, READ) => v.(seen := v.seen[t := Seen(v, t) + [Origin(v, r)]])
    case Access(t, r, WRITE) =>
      var own := By(t, |Seen(v, t)|);
      View(
        v.store[r := own],
        v.seen[t := Seen(v, t) + [own]],
        if r in Saved(v, t) then v.images else v.images[t := Saved(v, t)[r := Origin(v, r)]])
    case Commit(t) => v.(images := v.images - {t})
    case Abort(t) =>
      View(
        map r | r in v.store.Keys + Saved(v, t).Keys :: if r in Saved(v, t) then Saved(v, t)[r] else v.store[r],
        v.seen, v.images - {t})
  }

  function Views(h: History): View {
    if h == [] then View(map[], map[], map[]) else Look(Views(h[..|h| - 1]), h[|h| - 1])
  }

  lemma ViewsSnoc(h: History, e: Event)
    ensures Views(h + [e]) == Look(Views(h), e)
  {
    assert (h + [e])[..|h|] == h;
  }

  // ---------- what a source means ----------

  function Meaning(source: Source, r: Rec, w: World, store: map<Rec, Value>): Option<Value> {
    match source
    case Before => Lookup(store, r)
    case By(t, n) => if n < |Log(w, t)| then Log(w, t)[n] else None
  }

  /** A write of h, or nothing. */
  predicate IsWrite(h: History, source: Source) {
    source.By? ==>
      source.n < |Ops(h, source.t)| && Ops(h, source.t)[source.n].Access? && Ops(h, source.t)[source.n].action == WRITE
  }

  ghost predicate Lengths(h: History, v: View, w: World) {
    forall t :: |Seen(v, t)| == |Log(w, t)| == |Ops(h, t)|
  }

  ghost predicate StoreMeans(h: History, v: View, w: World, store: map<Rec, Value>) {
    forall r :: IsWrite(h, Origin(v, r)) && Lookup(w.store, r) == Meaning(Origin(v, r), r, w, store)
  }

  ghost predicate ImagesMean(h: History, v: View, w: World, store: map<Rec, Value>) {
    && (forall t :: Images(w, t).Keys == Saved(v, t).Keys)
    && forall t, r :: r in Saved(v, t) ==>
         IsWrite(h, Saved(v, t)[r]) && r in Images(w, t) && Images(w, t)[r] == Meaning(Saved(v, t)[r], r, w, store)
  }

  /** A write is what the program makes of the accesses before it, a read is of its source. */
  ghost predicate EntryMeans(h: History, v: View, w: World, store: map<Rec, Value>, prog: Program, t: Tid, i: nat)
    requires i < |Seen(v, t)| && i < |Log(w, t)| && i < |Ops(h, t)|
  {
    var source, value, op := Seen(v, t)[i], Log(w, t)[i], Ops(h, t)[i];
    && op.Access? && IsWrite(h, source)
    && if op.action == WRITE then source == By(t, i) && value == Some(prog(t, Log(w, t)[..i]))
       else value == Meaning(source, op.r, w, store)
  }

  ghost predicate LogsMean(h: History, v: View, w: World, store: map<Rec, Value>, prog: Program)
    requires Lengths(h, v, w)
  {
    forall t, i :: 0 <= i < |Seen(v, t)| ==> EntryMeans(h, v, w, store, prog, t, i)
  }

  ghost predicate Explains(h: History, v: View, w: World, store: map<Rec, Value>, prog: Program) {
    Lengths(h, v, w) && StoreMeans(h, v, w, store) && ImagesMean(h, v, w, store) && LogsMean(h, v, w, store, prog)
  }

  // ---------- one event ----------

  function ValueOf(w: World, e: Event, prog: Program): Option<Value>
    requires e.Access?
  {
    if e.action == READ then Lookup(w.store, e.r) else Some(prog(e.t, Log(w, e.t)))
  }

  function SourceOf(v: View, e: Event): Source
    requires e.Access?
  {
    if e.action == READ then Origin(v, e.r) else By(e.t, |Seen(v, e.t)|)
  }

  lemma LogAfter(w: World, e: Event, t: Tid, prog: Program)
    ensures Log(Step(w, e, prog), t) == Log(w, t) + (if e.Access? && e.t == t then [ValueOf(w, e, prog)] else [])
  {
  }

  lemma SeenAfter(v: View, e: Event, t: Tid)
    ensures Seen(Look(v, e), t) == Seen(v, t) + (if e.Access? && e.t == t then [SourceOf(v, e)] else [])
  {
  }

  lemma OneMore(h: History, v: View, w: World, e: Event, t: Tid, prog: Program)
    ensures var own := e.Access? && e.t == t;
      && Ops(h + [e], t) == Ops(h, t) + (if own then [e] else [])
      && Log(Step(w, e, prog), t) == Log(w, t) + (if own then [ValueOf(w, e, prog)] else [])
      && Seen(Look(v, e), t) == Seen(v, t) + (if own then [SourceOf(v, e)] else [])
  {
    OpsSnoc(h, e, t);
    LogAfter(w, e, t, prog);
    SeenAfter(v, e, t);
  }

  lemma LengthsStay(h: History, v: View, w: World, e: Event, prog: Program)
    requires Lengths(h, v, w)
    ensures Lengths(h + [e], Look(v, e), Step(w, e, prog))
  {
    forall t
      ensures |Seen(Look(v, e), t)| == |Log(Step(w, e, prog), t)| == |Ops(h + [e], t)|
    {
      OneMore(h, v, w, e, t, prog);
    }
  }

  /** What was there before means what it meant. */
  lemma MeaningStays(h: History, v: View, w: World, e: Event, source: Source, r: Rec, store: map<Rec, Value>, prog: Program)
    requires Lengths(h, v, w) && IsWrite(h, source)
    ensures IsWrite(h + [e], source) && Meaning(source, r, Step(w, e, prog), store) == Meaning(source, r, w, store)
  {
    if source.By? {
      OneMore(h, v, w, e, source.t, prog);
    }
  }

  lemma OwnMeaning(h: History, v: View, w: World, e: Event, r: Rec, store: map<Rec, Value>, prog: Program)
    requires Lengths(h, v, w) && e.Access? && e.action == WRITE
    ensures IsWrite(h + [e], By(e.t, |Seen(v, e.t)|))
    ensures Meaning(By(e.t, |Seen(v, e.t)|), r, Step(w, e, prog), store) == ValueOf(w, e, prog)
  {
    OneMore(h, v, w, e, e.t, prog);
  }

  lemma OriginAfter(v: View, w: World, e: Event, r: Rec, prog: Program)
    ensures Origin(Look(v, e), r) ==
      if e.Access? && e.action == WRITE && e.r == r then By(e.t, |Seen(v, e.t)|)
      else if e.Abort? && r in Saved(v, e.t) then Saved(v, e.t)[r]
      else Origin(v, r)
    ensures Lookup(Step(w, e, prog).store, r) ==
      if e.Access? && e.action == WRITE && e.r == r then ValueOf(w, e, prog)
      else if e.Abort? && r in Images(w, e.t) then Images(w, e.t)[r]
      else Lookup(w.store, r)
  {
  }

  lemma StoreStep(h: History, v: View, w: World, e: Event, store: map<Rec, Value>, prog: Program)
    requires Explains(h, v, w, store, prog)
    ensures StoreMeans(h + [e], Look(v, e), Step(w, e, prog), store)
  {
    var v', w' := Look(v, e), Step(w, e, prog);
    forall r
      ensures IsWrite(h + [e], Origin(v', r)) && Lookup(w'.store, r) == Meaning(Origin(v', r), r, w', store)
    {
      OriginAfter(v, w, e, r, prog);
      if e.Access? && e.action == WRITE && e.r == r {
        OwnMeaning(h, v, w, e, r, store, prog);
      } else {
        MeaningStays(h, v, w, e, Origin(v', r), r, store, prog);
      }
    }
  }

  lemma SavedAfter(v: View, e: Event, t: Tid)
    ensures Saved(Look(v, e), t) ==
      if e.t != t then Saved(v, t)
      else if !e.Access? then map[]
      else if e.action == WRITE && e.r !in Saved(v, t) then Saved(v, t)[e.r := Origin(v, e.r)]
      else Saved(v, t)
  {
  }

  lemma ImagesAfter(w: World, e: Event, t: Tid, prog: Program)
    ensures Images(Step(w, e, prog), t) ==
      if e.t != t then Images(w, t)
      else if !e.Access? then map[]
      else if e.action == WRITE && e.r !in Images(w, t) then Images(w, t)[e.r := Lookup(w.store, e.r)]
      else Images(w, t)
  {
    if e.Access? {
      ImageAdded(w, e, prog);
      StepFrame(w, e, prog);
    }
  }

  lemma ImagesStep(h: History, v: View, w: World, e: Event, store: map<Rec, Value>, prog: Program)
    requires Explains(h, v, w, store, prog)
    ensures ImagesMean(h + [e], Look(v, e), Step(w, e, prog), store)
  {
    var v', w' := Look(v, e), Step(w, e, prog);
    forall t
      ensures Images(w', t).Keys == Saved(v', t).Keys
    {
      SavedAfter(v, e, t);
      ImagesAfter(w, e, t, prog);
    }
    forall t, r | r in Saved(v', t)
      ensures IsWrite(h + [e], Saved(v', t)[r]) && Images(w', t)[r] == Meaning(Saved(v', t)[r], r, w', store)
    {
      SavedAfter(v, e, t);
      ImagesAfter(w, e, t, prog);
      MeaningStays(h, v, w, e, Saved(v', t)[r], r, store, prog);
    }
  }

  lemma OldEntry(h: History, v: View, w: World, e: Event, store: map<Rec, Value>, prog: Program, t: Tid, i: nat)
    requires Lengths(h, v, w) && i < |Seen(v, t)| && EntryMeans(h, v, w, store, prog, t, i)
    ensures Lengths(h + [e], Look(v, e), Step(w, e, prog)) && i < |Seen(Look(v, e), t)|
    ensures EntryMeans(h + [e], Look(v, e), Step(w, e, prog), store, prog, t, i)
  {
    LengthsStay(h, v, w, e, prog);
    OneMore(h, v, w, e, t, prog);
    MeaningStays(h, v, w, e, Seen(v, t)[i], Ops(h, t)[i].r, store, prog);
    assert Log(Step(w, e, prog), t)[..i] == Log(w, t)[..i];
  }

  lemma NewEntry(h: History, v: View, w: World, e: Event, store: map<Rec, Value>, prog: Program)
    requires Explains(h, v, w, store, prog) && e.Access?
    ensures Lengths(h + [e], Look(v, e), Step(w, e, prog)) && |Seen(v, e.t)| < |Seen(Look(v, e), e.t)|
    ensures EntryMeans(h + [e], Look(v, e), Step(w, e, prog), store, prog, e.t, |Seen(v, e.t)|)
  {
    LengthsStay(h, v, w, e, prog);
    OneMore(h, v, w, e, e.t, prog);
    assert Log(Step(w, e, prog), e.t)[..|Log(w, e.t)|] == Log(w, e.t);
    if e.action == WRITE {
      OwnMeaning(h, v, w, e, e.r, store, prog);
    } else {
      MeaningStays(h, v, w, e, Origin(v, e.r), e.r, store, prog);
    }
  }

  lemma LogsStep(h: History, v: View, w: World, e: Event, store: map<Rec, Value>, prog: Program)
    requires Explains(h, v, w, store, prog)
    ensures Lengths(h + [e], Look(v, e), Step(w, e, prog))
    ensures LogsMean(h + [e], Look(v, e), Step(w, e, prog), store, prog)
  {
    LengthsStay(h, v, w, e, prog);
    var h', v', w' := h + [e], Look(v, e), Step(w, e, prog);
    forall t, i | 0 <= i < |Seen(v', t)|
      ensures EntryMeans(h', v', w', store, prog, t, i)
    {
      OneMore(h, v, w, e, t, prog);
      if i < |Seen(v, t)| {
        OldEntry(h, v, w, e, store, prog, t, i);
      } else {
        NewEntry(h, v, w, e, store, prog);
      }
    }
  }

  lemma {:induction false} ViewsExplain(h: History, store: map<Rec, Value>, prog: Program)
    ensures Explains(h, Views(h), Exec(Initially(store), h, prog), store, prog)
  {
    if h != [] {
      var g, e := h[..|h| - 1], h[|h| - 1];
      assert h == g + [e];
      ViewsExplain(g, store, prog);
      var v, w := Views(g), Exec(Initially(store), g, prog);
      LogsStep(g, v, w, e, store, prog);
      StoreStep(g, v, w, e, store, prog);
      ImagesStep(g, v, w, e, store, prog);
    }
  }

  // ---------- the same views ----------

  lemma {:induction false} ViewsGrow(h: History, k: nat, t: Tid)
    requires k <= |h|
    ensures Ops(h[..k], t) <= Ops(h, t) && Seen(Views(h[..k]), t) <= Seen(Views(h), t)
  {
    if k == |h| {
      assert h[..k] == h;
    } else {
      var g := h[..|h| - 1];
      assert g[..k] == h[..k];
      ViewsGrow(g, k, t);
      SeenAfter(Views(g), h[|h| - 1], t);
    }
  }

  /** Which transactions, and which records, are compared. */
  datatype Scope = Scope(txns: Tid -> bool, recs: Rec -> bool)

  /** g and h let those of the scope do the same, and in h nobody else does anything. */
  ghost predicate Comparable(g: History, h: History, scope: Scope) {
    && (forall t :: scope.txns(t) ==> Ops(g, t) == Ops(h, t))
    && (forall t :: !scope.txns(t) ==> Ops(h, t) == [])
  }

  /** Every read is of the same write, and every record was last written by the same. */
  ghost predicate SameView(g: History, h: History, scope: Scope) {
    && (forall t :: scope.txns(t) ==> Seen(Views(g), t) == Seen(Views(h), t))
    && (forall r :: scope.recs(r) ==> Origin(Views(g), r) == Origin(Views(h), r))
  }

  /** Every transaction reads and writes the same, and every record ends the same. */
  ghost predicate SameOutcome(g: History, h: History, scope: Scope, store: map<Rec, Value>, prog: Program) {
    var w, v := Exec(Initially(store), g, prog), Exec(Initially(store), h, prog);
    && (forall t :: scope.txns(t) ==> Log(w, t) == Log(v, t))
    && (forall r :: scope.recs(r) ==> Lookup(w.store, r) == Lookup(v.store, r))
  }

  /** What a source means in h it means in g, once the logs agree as far as h goes. */
  lemma SameMeaning(g: History, h: History, scope: Scope, source: Source, r: Rec, w: World, v: World, store: map<Rec, Value>)
    requires IsWrite(h, source) && forall t :: !scope.txns(t) ==> Ops(h, t) == []
    requires forall t :: |Log(v, t)| == |Ops(h, t)|
    requires forall t :: scope.txns(t) ==> Log(v, t) <= Log(w, t)
    ensures Meaning(source, r, w, store) == Meaning(source, r, v, store)
  {
  }

  /** Along h, every entry of a log is that of g. */
  lemma {:induction false} SameLogs(g: History, h: History, k: nat, scope: Scope, store: map<Rec, Value>, prog: Program)
    requires Comparable(g, h, scope) && SameView(g, h, scope) && k <= |h|
    ensures forall t :: scope.txns(t) ==>
      Log(Exec(Initially(store), h[..k], prog), t) <= Log(Exec(Initially(store), g, prog), t)
  {
    if k > 0 {
      var p, e := h[..k - 1], h[k - 1];
      assert h[..k] == p + [e];
      SameLogs(g, h, k - 1, scope, store, prog);
      var w, v := Exec(Initially(store), g, prog), Exec(Initially(store), p, prog);
      ExecSnoc(Initially(store), p, e, prog);
      forall t | scope.txns(t)
        ensures Log(Step(v, e, prog), t) <= Log(w, t)
      {
        LogAfter(v, e, t, prog);
        if e.Access? && e.t == t {
          SameEntry(g, h, k, scope, store, prog);
        }
      }
    }
  }

  lemma SameEntry(g: History, h: History, k: nat, scope: Scope, store: map<Rec, Value>, prog: Program)
    requires Comparable(g, h, scope) && SameView(g, h, scope) && 0 < k <= |h|
    requires h[k - 1].Access? && scope.txns(h[k - 1].t)
    requires forall t :: scope.txns(t) ==>
      Log(Exec(Initially(store), h[..k - 1], prog), t) <= Log(Exec(Initially(store), g, prog), t)
    ensures var e := h[k - 1];
      var w, v := Exec(Initially(store), g, prog), Exec(Initially(store), h[..k - 1], prog);
      |Log(v, e.t)| < |Log(w, e.t)| && Log(w, e.t)[|Log(v, e.t)|] == ValueOf(v, e, prog)
  {
    var p, e := h[..k - 1], h[k - 1];
    var w, v := Exec(Initially(store), g, prog), Exec(Initially(store), p, prog);
    assert h[..k] == p + [e];
    ViewsExplain(g, store, prog);
    ViewsExplain(p, store, prog);
    OneMore(p, Views(p), v, e, e.t, prog);
    ViewsSnoc(p, e);
    ViewsGrow(h, k, e.t);
    var i := |Log(v, e.t)|;
    assert EntryMeans(g, Views(g), w, store, prog, e.t, i);
    assert Ops(g, e.t)[i] == e && Seen(Views(g), e.t)[i] == SourceOf(Views(p), e);
    if e.action == WRITE {
      assert Log(w, e.t)[..i] == Log(v, e.t);
    } else {
      forall t | !scope.txns(t)
        ensures Ops(p, t) == []
      {
        ViewsGrow(h, k - 1, t);
      }
      SameMeaning(g, p, scope, Origin(Views(p), e.r), e.r, w, v, store);
    }
  }

  lemma SameViewSameOutcome(g: History, h: History, scope: Scope, store: map<Rec, Value>, prog: Program)
    requires Comparable(g, h, scope) && SameView(g, h, scope)
    ensures SameOutcome(g, h, scope, store, prog)
  {
    var w, v := Exec(Initially(store), g, prog), Exec(Initially(store), h, prog);
    assert h[..|h|] == h;
    SameLogs(g, h, |h|, scope, store, prog);
    ViewsExplain(g, store, prog);
    ViewsExplain(h, store, prog);
    forall t | scope.txns(t)
      ensures Log(w, t) == Log(v, t)
    {
      assert |Ops(g, t)| == |Ops(h, t)|;
    }
    forall r | scope.recs(r)
      ensures Lookup(w.store, r) == Lookup(v.store, r)
    {
      SameMeaning(g, h, scope, Origin(Views(h), r), r, w, v, store);
    }
  }

  // ---------- different views ----------

  /** One write is of 1, all others are of 0. */
  function MarkOne(t: Tid, n: nat): Program {
    (u, log) => if u == t && |log| == n then 1 else 0
  }

  lemma MarkedMeaning(h: History, source: Source, r: Rec, t: Tid, n: nat)
    requires IsWrite(h, source)
    ensures Meaning(source, r, Exec(Initially(map[]), h, MarkOne(t, n)), map[]) ==
      if source == Before then None else if source == By(t, n) then Some(1) else Some(0)
  {
    var w := Exec(Initially(map[]), h, MarkOne(t, n));
    ViewsExplain(h, map[], MarkOne(t, n));
    if source.By? {
      assert EntryMeans(h, Views(h), w, map[], MarkOne(t, n), source.t, source.n);
    }
  }

  /** Two sources are told apart. */
  lemma SourcesShow(g: History, h: History, a: Source, b: Source, r: Rec) returns (prog: Program)
    requires IsWrite(g, a) && IsWrite(h, b) && a != b
    ensures Meaning(a, r, Exec(Initially(map[]), g, prog), map[]) != Meaning(b, r, Exec(Initially(map[]), h, prog), map[])
  {
    var mark := if a.By? then a else b;
    prog := MarkOne(mark.t, mark.n);
    MarkedMeaning(g, a, r, mark.t, mark.n);
    MarkedMeaning(h, b, r, mark.t, mark.n);
  }

  lemma DifferentReadShows(g: History, h: History, scope: Scope, t: Tid, i: nat)
    requires Comparable(g, h, scope) && scope.txns(t)
    requires i < |Seen(Views(g), t)| && i < |Seen(Views(h), t)| && Seen(Views(g), t)[i] != Seen(Views(h), t)[i]
    ensures exists prog :: !SameOutcome(g, h, scope, map[], prog)
  {
    var any := MarkOne(0, 0);
    ViewsExplain(g, map[], any);
    ViewsExplain(h, map[], any);
    assert EntryMeans(g, Views(g), Exec(Initially(map[]), g, any), map[], any, t, i);
    assert EntryMeans(h, Views(h), Exec(Initially(map[]), h, any), map[], any, t, i);
    var prog := SourcesShow(g, h, Seen(Views(g), t)[i], Seen(Views(h), t)[i], Ops(g, t)[i].r);
    ViewsExplain(g, map[], prog);
    ViewsExplain(h, map[], prog);
    assert EntryMeans(g, Views(g), Exec(Initially(map[]), g, prog), map[], prog, t, i);
    assert EntryMeans(h, Views(h), Exec(Initially(map[]), h, prog), map[], prog, t, i);
    assert !SameOutcome(g, h, scope, map[], prog);
  }

  lemma DifferentOriginShows(g: History, h: History, scope: Scope, r: Rec)
    requires scope.recs(r) && Origin(Views(g), r) != Origin(Views(h), r)
    ensures exists prog :: !SameOutcome(g, h, scope, map[], prog)
  {
    ViewsExplain(g, map[], MarkOne(0, 0));
    ViewsExplain(h, map[], MarkOne(0, 0));
    var prog := SourcesShow(g, h, Origin(Views(g), r), Origin(Views(h), r), r);
    ViewsExplain(g, map[], prog);
    ViewsExplain(h, map[], prog);
    assert !SameOutcome(g, h, scope, map[], prog);
  }

  lemma DifferentViewShows(g: History, h: History, scope: Scope)
    requires Comparable(g, h, scope) && !SameView(g, h, scope)
    ensures exists prog :: !SameOutcome(g, h, scope, map[], prog)
  {
    if t :| scope.txns(t) && Seen(Views(g), t) != Seen(Views(h), t) {
      ViewsExplain(g, map[], MarkOne(0, 0));
      ViewsExplain(h, map[], MarkOne(0, 0));
      assert |Seen(Views(g), t)| == |Ops(g, t)| == |Ops(h, t)| == |Seen(Views(h), t)|;
      var i :| 0 <= i < |Seen(Views(g), t)| && Seen(Views(g), t)[i] != Seen(Views(h), t)[i];
      DifferentReadShows(g, h, scope, t, i);
    } else {
      var r :| scope.recs(r) && Origin(Views(g), r) != Origin(Views(h), r);
      DifferentOriginShows(g, h, scope, r);
    }
  }

  /** Whatever the transactions are, they read, write and leave the same in two histories, if and only if
      every read is of the same write in both and every record was last written by the same. */
  lemma ViewDecides(g: History, h: History, scope: Scope)
    requires Comparable(g, h, scope)
    ensures (forall store, prog :: SameOutcome(g, h, scope, store, prog)) <==> SameView(g, h, scope)
  {
    if SameView(g, h, scope) {
      forall store, prog
        ensures SameOutcome(g, h, scope, store, prog)
      {
        SameViewSameOutcome(g, h, scope, store, prog);
      }
    } else {
      DifferentViewShows(g, h, scope);
    }
  }
}
