/** The three passes over a plan. */
module PlanRewriting {
  // Split, reorder, push down, in this order.

  import opened PlanTrees
  import opened PushdownSelection
  import opened PushdownTargets
  import opened SelectionChains
  import opened ReorderSelections

  // ---------- no conjunction is left after the first pass ----------

  /** No selection's text has a conjunction. */
  ghost predicate Plain(p: Plan)
    decreases p
  {
    (p.kind == SELECT ==> AndIndex(p.value) < 0) && AllPlain(p.kids)
  }

  ghost predicate AllPlain(ps: seq<Plan>)
    decreases ps
  {
    ps == [] || (Plain(ps[0]) && AllPlain(ps[1..]))
  }

  lemma OnePlain(p: Plan)
    ensures AllPlain([p]) <==> Plain(p)
  {
    assert [p][1..] == [];
  }

  lemma {:induction false} SplitIsPlain(p: Plan)
    ensures Plain(Split(p))
    decreases TextSize(p), p
  {
    SplitAllIsPlain(p.kids);
    if p.kind == SELECT && AndIndex(p.value) >= 0 {
      var lower := Plan(SELECT, RightText(p.value), SplitAll(p.kids));
      OneText(lower);
      SplitIsPlain(Plan(SELECT, LeftText(p.value), [lower]));
    }
  }

  lemma {:induction false} SplitAllIsPlain(ps: seq<Plan>)
    ensures AllPlain(SplitAll(ps))
    decreases TextSizes(ps), ps
  {
    if ps != [] {
      SplitIsPlain(ps[0]);
      SplitAllIsPlain(ps[1..]);
      assert SplitAll(ps)[1..] == SplitAll(ps[1..]);
    }
  }

  // ---------- reordering adds none ----------

  lemma {:induction false} PlainChain(p: Plan)
    requires Plain(p)
    ensures NoAnds(Chain(p)) && Plain(Bottom(p))
    decreases p
  {
    if p.kind == SELECT && |p.kids| == 1 {
      assert p.kids == [p.kids[0]];
      OnePlain(p.kids[0]);
      PlainChain(p.kids[0]);
    }
  }

  lemma {:induction false} InsertMembers(conds: seq<Condition>, v: string, vs: seq<string>)
    ensures forall w :: w in Insert(conds, v, vs) ==> w == v || w in vs
  {
    if vs != [] && Score(conds, vs[0]) > Score(conds, v) {
      InsertMembers(conds, v, vs[1..]);
    }
  }

  lemma {:induction false} SortMembers(conds: seq<Condition>, vs: seq<string>)
    ensures forall w :: w in Sort(conds, vs) ==> w in vs
  {
    if vs != [] {
      SortMembers(conds, vs[1..]);
      InsertMembers(conds, vs[0], Sort(conds, vs[1..]));
    }
  }

  lemma {:induction false} RebuiltPlain(vs: seq<string>, bottom: Plan)
    requires NoAnds(vs) && Plain(bottom)
    ensures Plain(Rebuild(vs, bottom))
  {
    if vs != [] {
      assert vs[0] in vs;
      RebuiltPlain(vs[1..], bottom);
      OnePlain(Rebuild(vs[1..], bottom));
    }
  }

  lemma {:induction false} ReorderIsPlain(conds: seq<Condition>, p: Plan)
    requires Plain(p)
    ensures Plain(Reorder(conds, p))
    decreases p
  {
    ReorderAllIsPlain(conds, p.kids);
    var q := Plan(p.kind, p.value, ReorderAll(conds, p.kids));
    PlainChain(q);
    SortMembers(conds, Chain(q));
    RebuiltPlain(Sort(conds, Chain(q)), Bottom(q));
  }

  lemma {:induction false} ReorderAllIsPlain(conds: seq<Condition>, ps: seq<Plan>)
    requires AllPlain(ps)
    ensures AllPlain(ReorderAll(conds, ps))
    decreases ps
  {
    if ps != [] {
      ReorderIsPlain(conds, ps[0]);
      ReorderAllIsPlain(conds, ps[1..]);
      assert ReorderAll(conds, ps)[1..] == ReorderAll(conds, ps[1..]);
    }
  }

  // ---------- the three passes ----------

  /** A text without a conjunction is about the one table of the condition found for it. */
  ghost predicate AtomsOnTables(env: Env, conds: seq<Condition>) {
    forall v :: AndIndex(v) < 0 ==> TextOnTable(env, conds, v)
  }

  lemma {:induction false} PlainOneTable(env: Env, conds: seq<Condition>, p: Plan)
    requires AtomsOnTables(env, conds) && Plain(p)
    ensures OneTable(env, conds, p)
    decreases p
  {
    AllPlainOneTables(env, conds, p.kids);
  }

  lemma {:induction false} AllPlainOneTables(env: Env, conds: seq<Condition>, ps: seq<Plan>)
    requires AtomsOnTables(env, conds) && AllPlain(ps)
    ensures OneTables(env, conds, ps)
    decreases ps
  {
    if ps != [] {
      PlainOneTable(env, conds, ps[0]);
      AllPlainOneTables(env, conds, ps[1..]);
    }
  }

  /** Split, reordered and pushed down, a plan yields the same sequence of rows, and no selection is
      left that could be pushed. */
  lemma RewritingKeepsMeaning(env: Env, conds: seq<Condition>, p: Plan)
    requires TableWise(env) && Conjunctive(env) && AtomsOnTables(env, conds) && OneChild(p)
    ensures var r := Pushdown(conds, Reorder(conds, Split(p)));
      && Meaning(env, r) == Meaning(env, p) && NonePushable(conds, r)
      && forall q :: Within(q, r) ==> !Misplaced(conds, q)
  {
    SplitKeepsMeaning(env, p);
    SplitIsPlain(p);
    ReorderKeepsMeaning(env, conds, Split(p));
    ReorderIsPlain(conds, Split(p));
    PlainOneTable(env, conds, Reorder(conds, Split(p)));
    PushdownKeepsMeaning(env, conds, Reorder(conds, Split(p)));
    PushdownIsComplete(conds, Reorder(conds, Split(p)));
    forall q | Within(q, Pushdown(conds, Reorder(conds, Split(p))))
      ensures !Misplaced(conds, q)
    {
      NothingIsMisplaced(conds, Reorder(conds, Split(p)), q);
    }
  }
}
