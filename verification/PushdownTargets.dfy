/** What is pushed below a join. */
module PushdownTargets {
  // Said of the plan and the texts: the first condition a selection speaks of, the table of its column,
  // and the scans on either side of the join.

  import opened Wrappers
  import opened PlanTrees
  import opened QueryTexts
  import opened PushdownSelection

  /** q is p, or below it. */
  ghost predicate Within(q: Plan, p: Plan)
    decreases p
  {
    q == p || WithinAny(q, p.kids)
  }

  ghost predicate WithinAny(q: Plan, ps: seq<Plan>)
    decreases ps
  {
    ps != [] && (Within(q, ps[0]) || WithinAny(q, ps[1..]))
  }

  /** Some scan within p reads a table under the alias t. */
  ghost predicate Scans(p: Plan, t: string) {
    exists q :: Within(q, p) && q.kind == SCAN && IsAlias(q.value, t)
  }

  lemma {:induction false} TablesAreScanned(p: Plan, t: string)
    ensures t in Tables(p) <==> Scans(p, t)
    decreases p
  {
    AnyTablesScanned(p.kids, t);
    AliasIs(p.value, t);
    if p.kind == SCAN && IsAlias(p.value, t) {
      assert Within(p, p);
    } else if q :| WithinAny(q, p.kids) && q.kind == SCAN && IsAlias(q.value, t) {
      assert Within(q, p);
    }
  }

  lemma {:induction false} AnyTablesScanned(ps: seq<Plan>, t: string)
    ensures t in TablesAll(ps) <==> exists q :: WithinAny(q, ps) && q.kind == SCAN && IsAlias(q.value, t)
    decreases ps
  {
    if ps != [] {
      TablesAreScanned(ps[0], t);
      AnyTablesScanned(ps[1..], t);
      if q :| Within(q, ps[0]) && q.kind == SCAN && IsAlias(q.value, t) {
        assert WithinAny(q, ps);
      } else if q :| WithinAny(q, ps[1..]) && q.kind == SCAN && IsAlias(q.value, t) {
        assert WithinAny(q, ps);
      }
    }
  }

  /** The first condition of the text is about a table that side scans and the other side does not. */
  ghost predicate BelongsTo(conds: seq<Condition>, v: string, side: Plan, other: Plan) {
    exists i, t :: IsFirstMatch(conds, v, i) && IsTableOf(conds[i].column, t) && Scans(side, t) && !Scans(other, t)
  }

  /** A selection is pushed to a side if and only if it belongs there. */
  lemma WhenPushed(conds: seq<Condition>, v: string, left: Plan, right: Plan)
    ensures SideOf(conds, v, left, right) == Left <==> BelongsTo(conds, v, left, right)
    ensures SideOf(conds, v, left, right) == Right <==> BelongsTo(conds, v, right, left)
  {
    MatchIsFirst(conds, v);
    if i :| IsFirstMatch(conds, v, i) {
      var t := TableOfColumn(conds[i].column);
      FirstMatchIs(conds, v, i);
      TableIs(conds[i].column, t);
      TablesAreScanned(left, t);
      TablesAreScanned(right, t);
      forall j, u | IsFirstMatch(conds, v, j) && IsTableOf(conds[j].column, u)
        ensures u == t
      {
        FirstMatchIs(conds, v, j);
        TableIs(conds[j].column, u);
      }
    }
  }

  /** A selection right above a join of two, which belongs to one side. */
  ghost predicate Misplaced(conds: seq<Condition>, q: Plan) {
    && q.kind == SELECT && |q.kids| == 1 && q.kids[0].kind == JOIN && |q.kids[0].kids| == 2
    && var left, right := q.kids[0].kids[0], q.kids[0].kids[1];
       BelongsTo(conds, q.value, left, right) || BelongsTo(conds, q.value, right, left)
  }

  lemma {:induction false} NoneMisplaced(conds: seq<Condition>, p: Plan, q: Plan)
    requires NonePushable(conds, p) && Within(q, p)
    ensures !Misplaced(conds, q)
    decreases p
  {
    if q == p {
      if OverJoin(q) {
        WhenPushed(conds, q.value, q.kids[0].kids[0], q.kids[0].kids[1]);
      }
    } else {
      NoneMisplacedIn(conds, p.kids, q);
    }
  }

  lemma {:induction false} NoneMisplacedIn(conds: seq<Condition>, ps: seq<Plan>, q: Plan)
    requires NonePushableIn(conds, ps) && WithinAny(q, ps)
    ensures !Misplaced(conds, q)
    decreases ps
  {
    if Within(q, ps[0]) {
      NoneMisplaced(conds, ps[0], q);
    } else {
      NoneMisplacedIn(conds, ps[1..], q);
    }
  }

  /** In the rewritten plan no selection stands right above a join that belongs to one side of it. */
  lemma NothingIsMisplaced(conds: seq<Condition>, p: Plan, q: Plan)
    requires Within(q, Pushdown(conds, p))
    ensures !Misplaced(conds, q)
  {
    PushdownIsComplete(conds, p);
    NoneMisplaced(conds, Pushdown(conds, p), q);
  }
}
