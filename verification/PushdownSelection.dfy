/** Pushing selections below joins. */
module PushdownSelection {
  import opened Wrappers
  import opened PlanTrees

  // ---------- where a selection belongs ----------

  datatype Side = Stay | Left | Right

  /** The side of the join below that alone has the condition's table. */
  function SideOf(conds: seq<Condition>, v: string, left: Plan, right: Plan): Side {
    match MatchingCondition(conds, v)
    case None => Stay
    case Some(cond) =>
      var t := TableOfColumn(cond.column);
      if t in Tables(left) && t !in Tables(right) then Left
      else if t in Tables(right) && t !in Tables(left) then Right
      else Stay
  }

  predicate OverJoin(p: Plan) {
    p.kind == SELECT && |p.kids| == 1 && p.kids[0].kind == JOIN && |p.kids[0].kids| == 2
  }

  /** A selection above a join that belongs on one side of it. */
  predicate Pushable(conds: seq<Condition>, p: Plan) {
    OverJoin(p) && SideOf(conds, p.value, p.kids[0].kids[0], p.kids[0].kids[1]) != Stay
  }

  // ---------- the rewriting ----------

  lemma OneSize(a: Plan)
    ensures SizeAll([a]) == Size(a) && TablesAll([a]) == Tables(a)
  {
    assert [a][1..] == [];
  }

  lemma TwoSizes(a: Plan, b: Plan)
    ensures SizeAll([a, b]) == Size(a) + Size(b) && TablesAll([a, b]) == Tables(a) + Tables(b)
  {
    var ps := [a, b];
    assert ps[1..] == [b];
    OneSize(b);
  }

  /** A selection on a. */
  function Select(v: string, a: Plan): (p: Plan)
    ensures Size(p) == 1 + Size(a) && Tables(p) == Tables(a)
  {
    OneSize(a);
    Plan(SELECT, v, [a])
  }

  lemma SelectOnly(p: Plan)
    requires p.kind == SELECT && |p.kids| == 1
    ensures p == Select(p.value, p.kids[0])
  {
    assert p.kids == [p.kids[0]];
  }

  function JoinOf(v: string, a: Plan, b: Plan): (p: Plan)
    ensures Size(p) == 1 + Size(a) + Size(b) && Tables(p) == Tables(a) + Tables(b)
  {
    TwoSizes(a, b);
    Plan(JOIN, v, [a, b])
  }

  lemma JoinOnly(p: Plan)
    requires p.kind == JOIN && |p.kids| == 2
    ensures p == JoinOf(p.value, p.kids[0], p.kids[1])
  {
    assert p.kids == [p.kids[0], p.kids[1]];
  }

  /** The children first; then the node itself, whose selection is rewritten once more on its side. */
  function Pushdown(conds: seq<Condition>, p: Plan): (r: Plan)
    ensures Size(r) == Size(p) && Tables(r) == Tables(p)
    decreases Size(p), 0, 0
  {
    PushNode(conds, Plan(p.kind, p.value, PushdownAll(conds, p.kids)), p)
  }

  /** The node whose children are rewritten. */
  function PushNode(conds: seq<Condition>, q: Plan, ghost p: Plan): (r: Plan)
    requires SizeAll(q.kids) < Size(p)
    ensures Size(r) == Size(q) && Tables(r) == Tables(q)
    decreases SizeAll(q.kids), 2, 0
  {
    if OverJoin(q) then
      var join := q.kids[0];
      SelectOnly(q);
      JoinOnly(join);
      var left, right := join.kids[0], join.kids[1];
      match SideOf(conds, q.value, left, right)
      case Stay => q
      case Left => JoinOf(join.value, Pushdown(conds, Select(q.value, left)), right)
      case Right => JoinOf(join.value, left, Pushdown(conds, Select(q.value, right)))
    else q
  }

  function PushdownAll(conds: seq<Condition>, ps: seq<Plan>): (r: seq<Plan>)
    ensures |r| == |ps| && SizeAll(r) == SizeAll(ps) && TablesAll(r) == TablesAll(ps)
    decreases SizeAll(ps), 1, |ps|
  {
    if ps == [] then [] else
      var first, rest := Pushdown(conds, ps[0]), PushdownAll(conds, ps[1..]);
      assert ([first] + rest)[1..] == rest;
      [first] + rest
  }

  // ---------- the rewritten plan means the same ----------

  /** The rows have the same record of the table, or both none. */
  ghost predicate Agree(row: Row, row': Row, t: string) {
    (t in row <==> t in row') && (t in row ==> row[t] == row'[t])
  }

  /** What holds of a row depends on its record of t. */
  ghost predicate OnTable(env: Env, v: string, t: string) {
    forall row, row' :: Agree(row, row', t) ==> env.holds(v, row) == env.holds(v, row')
  }

  /** The text is about the one table that the condition found for it is about. */
  ghost predicate TextOnTable(env: Env, conds: seq<Condition>, v: string) {
    match MatchingCondition(conds, v)
    case None => true
    case Some(cond) => OnTable(env, v, TableOfColumn(cond.column))
  }

  /** Every selection of the plan is. */
  ghost predicate OneTable(env: Env, conds: seq<Condition>, p: Plan)
    decreases p
  {
    (p.kind == SELECT ==> TextOnTable(env, conds, p.value)) && OneTables(env, conds, p.kids)
  }

  ghost predicate OneTables(env: Env, conds: seq<Condition>, ps: seq<Plan>)
    decreases ps
  {
    ps == [] || (OneTable(env, conds, ps[0]) && OneTables(env, conds, ps[1..]))
  }

  lemma KidsOneTable(env: Env, conds: seq<Condition>, a: Plan, b: Plan)
    ensures OneTables(env, conds, [a]) <==> OneTable(env, conds, a)
    ensures OneTables(env, conds, [a, b]) <==> OneTable(env, conds, a) && OneTable(env, conds, b)
  {
    var ps := [a, b];
    assert ps[1..] == [b] && [a][1..] == [] && [b][1..] == [];
    assert OneTables(env, conds, [b]) <==> OneTable(env, conds, b);
  }

  lemma {:induction false} FilterOneLeft(env: Env, v: string, jv: string, l: Row, right: seq<Row>, t: string, tables: set<string>)
    requires OnTable(env, v, t) && From(right, tables) && t !in tables
    ensures Filter(env, v, JoinOne(env, jv, l, right)) == if env.holds(v, l) then JoinOne(env, jv, l, right) else []
  {
    if right != [] {
      var row := l + right[0];
      assert right == [right[0]] + right[1..];
      assert right[0] in right && Agree(l, row, t);
      FilterOneLeft(env, v, jv, l, right[1..], t, tables);
      var first: seq<Row> := if env.joins(jv, l, right[0]) then [row] else [];
      FilterConcat(env, v, first, JoinOne(env, jv, l, right[1..]));
      assert [row][1..] == [];
    }
  }

  lemma {:induction false} FilterLeft(env: Env, v: string, jv: string, left: seq<Row>, right: seq<Row>, t: string, tables: set<string>)
    requires OnTable(env, v, t) && From(right, tables) && t !in tables
    ensures Filter(env, v, Join(env, jv, left, right)) == Join(env, jv, Filter(env, v, left), right)
  {
    if left != [] {
      FilterOneLeft(env, v, jv, left[0], right, t, tables);
      FilterConcat(env, v, JoinOne(env, jv, left[0], right), Join(env, jv, left[1..], right));
      FilterLeft(env, v, jv, left[1..], right, t, tables);
      JoinFirst(env, jv, left[0], Filter(env, v, left[1..]), right);
    }
  }

  lemma JoinFirst(env: Env, jv: string, l: Row, rest: seq<Row>, right: seq<Row>)
    ensures Join(env, jv, [l] + rest, right) == JoinOne(env, jv, l, right) + Join(env, jv, rest, right)
    ensures Join(env, jv, [] + rest, right) == [] + Join(env, jv, rest, right)
  {
    assert ([l] + rest)[1..] == rest && [] + rest == rest;
  }

  lemma {:induction false} FilterOneRight(env: Env, v: string, jv: string, l: Row, right: seq<Row>, t: string)
    requires OnTable(env, v, t) && t !in l
    ensures Filter(env, v, JoinOne(env, jv, l, right)) == JoinOne(env, jv, l, Filter(env, v, right))
  {
    if right != [] {
      var row, rest := l + right[0], Filter(env, v, right[1..]);
      assert Agree(right[0], row, t);
      FilterOneRight(env, v, jv, l, right[1..], t);
      var first: seq<Row> := if env.joins(jv, l, right[0]) then [row] else [];
      FilterConcat(env, v, first, JoinOne(env, jv, l, right[1..]));
      assert [row][1..] == [];
      assert ([right[0]] + rest)[1..] == rest && [] + rest == rest;
    }
  }

  lemma {:induction false} FilterRight(env: Env, v: string, jv: string, left: seq<Row>, right: seq<Row>, t: string, tables: set<string>)
    requires OnTable(env, v, t) && From(left, tables) && t !in tables
    ensures Filter(env, v, Join(env, jv, left, right)) == Join(env, jv, left, Filter(env, v, right))
  {
    if left != [] {
      assert left == [left[0]] + left[1..];
      assert left[0] in left;
      FilterOneRight(env, v, jv, left[0], right, t);
      FilterConcat(env, v, JoinOne(env, jv, left[0], right), Join(env, jv, left[1..], right));
      FilterRight(env, v, jv, left[1..], right, t, tables);
    }
  }

  lemma SelectMeans(env: Env, v: string, a: Plan)
    ensures Meaning(env, Select(v, a)) == Filter(env, v, Meaning(env, a))
  {
    assert [a][1..] == [];
  }

  lemma JoinMeans(env: Env, v: string, a: Plan, b: Plan)
    ensures Meaning(env, JoinOf(v, a, b)) == Join(env, v, Meaning(env, a), Meaning(env, b))
  {
    var ps := [a, b];
    assert ps[1..] == [b] && [b][1..] == [];
    assert Meanings(env, [b]) == [Meaning(env, b)];
  }

  /** Moving a selection to the side of the join that alone has its table. */
  lemma SwapKeeps(env: Env, conds: seq<Condition>, v: string, jv: string, left: Plan, right: Plan)
    requires TableWise(env) && TextOnTable(env, conds, v)
    ensures SideOf(conds, v, left, right) == Left ==>
      Meaning(env, JoinOf(jv, Select(v, left), right)) == Meaning(env, Select(v, JoinOf(jv, left, right)))
    ensures SideOf(conds, v, left, right) == Right ==>
      Meaning(env, JoinOf(jv, left, Select(v, right))) == Meaning(env, Select(v, JoinOf(jv, left, right)))
  {
    SelectMeans(env, v, JoinOf(jv, left, right));
    JoinMeans(env, jv, left, right);
    MeaningFrom(env, left);
    MeaningFrom(env, right);
    if MatchingCondition(conds, v).Some? {
      var t := TableOfColumn(MatchingCondition(conds, v).value.column);
      if t !in Tables(right) {
        JoinMeans(env, jv, Select(v, left), right);
        SelectMeans(env, v, left);
        FilterLeft(env, v, jv, Meaning(env, left), Meaning(env, right), t, Tables(right));
      }
      if t !in Tables(left) {
        JoinMeans(env, jv, left, Select(v, right));
        SelectMeans(env, v, right);
        FilterRight(env, v, jv, Meaning(env, left), Meaning(env, right), t, Tables(left));
      }
    }
  }

  /** The rewritten plan yields the same sequence of rows. */
  lemma {:induction false} PushdownKeepsMeaning(env: Env, conds: seq<Condition>, p: Plan)
    requires TableWise(env) && OneTable(env, conds, p)
    ensures Meaning(env, Pushdown(conds, p)) == Meaning(env, p) && OneTable(env, conds, Pushdown(conds, p))
    decreases Size(p), 0, 0
  {
    PushdownAllKeeps(env, conds, p.kids);
    PushNodeKeeps(env, conds, Plan(p.kind, p.value, PushdownAll(conds, p.kids)), p);
  }

  lemma {:induction false} PushNodeKeeps(env: Env, conds: seq<Condition>, q: Plan, p: Plan)
    requires TableWise(env) && OneTable(env, conds, q) && SizeAll(q.kids) < Size(p)
    ensures Meaning(env, PushNode(conds, q, p)) == Meaning(env, q) && OneTable(env, conds, PushNode(conds, q, p))
    decreases SizeAll(q.kids), 2, 0
  {
    if OverJoin(q) {
      var join := q.kids[0];
      SelectOnly(q);
      JoinOnly(join);
      var left, right := join.kids[0], join.kids[1];
      SwapKeeps(env, conds, q.value, join.value, left, right);
      KidsOneTable(env, conds, join, join);
      KidsOneTable(env, conds, left, right);
      match SideOf(conds, q.value, left, right)
      case Stay =>
      case Left => PushLeftKeeps(env, conds, q.value, join.value, left, right);
      case Right => PushRightKeeps(env, conds, q.value, join.value, left, right);
    }
  }

  lemma {:induction false} PushLeftKeeps(env: Env, conds: seq<Condition>, v: string, jv: string, left: Plan, right: Plan)
    requires TableWise(env) && TextOnTable(env, conds, v) && OneTable(env, conds, left) && OneTable(env, conds, right)
    ensures var r := JoinOf(jv, Pushdown(conds, Select(v, left)), right);
      Meaning(env, r) == Meaning(env, JoinOf(jv, Select(v, left), right)) && OneTable(env, conds, r)
    decreases 1 + Size(left), 1, 0
  {
    KidsOneTable(env, conds, left, left);
    PushdownKeepsMeaning(env, conds, Select(v, left));
    JoinMeans(env, jv, Pushdown(conds, Select(v, left)), right);
    JoinMeans(env, jv, Select(v, left), right);
    KidsOneTable(env, conds, Pushdown(conds, Select(v, left)), right);
  }

  lemma {:induction false} PushRightKeeps(env: Env, conds: seq<Condition>, v: string, jv: string, left: Plan, right: Plan)
    requires TableWise(env) && TextOnTable(env, conds, v) && OneTable(env, conds, left) && OneTable(env, conds, right)
    ensures var r := JoinOf(jv, left, Pushdown(conds, Select(v, right)));
      Meaning(env, r) == Meaning(env, JoinOf(jv, left, Select(v, right))) && OneTable(env, conds, r)
    decreases 1 + Size(right), 1, 0
  {
    KidsOneTable(env, conds, right, right);
    PushdownKeepsMeaning(env, conds, Select(v, right));
    JoinMeans(env, jv, left, Pushdown(conds, Select(v, right)));
    JoinMeans(env, jv, left, Select(v, right));
    KidsOneTable(env, conds, left, Pushdown(conds, Select(v, right)));
  }

  lemma {:induction false} PushdownAllKeeps(env: Env, conds: seq<Condition>, ps: seq<Plan>)
    requires TableWise(env) && OneTables(env, conds, ps)
    ensures Meanings(env, PushdownAll(conds, ps)) == Meanings(env, ps) && OneTables(env, conds, PushdownAll(conds, ps))
    decreases SizeAll(ps), 1, |ps|
  {
    if ps != [] {
      PushdownKeepsMeaning(env, conds, ps[0]);
      PushdownAllKeeps(env, conds, ps[1..]);
      assert PushdownAll(conds, ps)[1..] == PushdownAll(conds, ps[1..]);
    }
  }

  // ---------- nothing is left to push ----------

  ghost predicate NonePushable(conds: seq<Condition>, p: Plan)
    decreases p
  {
    !Pushable(conds, p) && NonePushableIn(conds, p.kids)
  }

  ghost predicate NonePushableIn(conds: seq<Condition>, ps: seq<Plan>)
    decreases ps
  {
    ps == [] || (NonePushable(conds, ps[0]) && NonePushableIn(conds, ps[1..]))
  }

  lemma TwoNonePushable(conds: seq<Condition>, a: Plan, b: Plan)
    ensures NonePushableIn(conds, [a, b]) <==> NonePushable(conds, a) && NonePushable(conds, b)
  {
    var ps := [a, b];
    assert ps[1..] == [b] && [b][1..] == [];
    assert NonePushableIn(conds, [b]) <==> NonePushable(conds, b);
  }

  /** No selection that belongs on one side stands directly above a join any more. */
  lemma {:induction false} PushdownIsComplete(conds: seq<Condition>, p: Plan)
    ensures NonePushable(conds, Pushdown(conds, p))
    decreases Size(p), 0, 0
  {
    PushdownAllIsComplete(conds, p.kids);
    PushNodeIsComplete(conds, Plan(p.kind, p.value, PushdownAll(conds, p.kids)), p);
  }

  lemma {:induction false} PushNodeIsComplete(conds: seq<Condition>, q: Plan, p: Plan)
    requires SizeAll(q.kids) < Size(p) && NonePushableIn(conds, q.kids)
    ensures NonePushable(conds, PushNode(conds, q, p))
    decreases SizeAll(q.kids), 2, 0
  {
    if OverJoin(q) {
      var join := q.kids[0];
      SelectOnly(q);
      JoinOnly(join);
      var left, right := join.kids[0], join.kids[1];
      assert NonePushable(conds, join);
      TwoNonePushable(conds, left, right);
      match SideOf(conds, q.value, left, right)
      case Stay =>
      case Left =>
        PushdownIsComplete(conds, Select(q.value, left));
        TwoNonePushable(conds, Pushdown(conds, Select(q.value, left)), right);
      case Right =>
        PushdownIsComplete(conds, Select(q.value, right));
        TwoNonePushable(conds, left, Pushdown(conds, Select(q.value, right)));
    }
  }

  lemma {:induction false} PushdownAllIsComplete(conds: seq<Condition>, ps: seq<Plan>)
    ensures NonePushableIn(conds, PushdownAll(conds, ps))
    decreases SizeAll(ps), 1, |ps|
  {
    if ps != [] {
      PushdownIsComplete(conds, ps[0]);
      PushdownAllIsComplete(conds, ps[1..]);
      assert PushdownAll(conds, ps)[1..] == PushdownAll(conds, ps[1..]);
    }
  }

  // ---------- the pass over the tree ----------

  lemma {:induction false} PushdownAllSnoc(conds: seq<Condition>, ps: seq<Plan>, i: nat)
    requires i < |ps|
    ensures PushdownAll(conds, ps[..i + 1]) == PushdownAll(conds, ps[..i]) + [Pushdown(conds, ps[i])]
    ensures Size(ps[i]) <= SizeAll(ps)
    decreases i
  {
    if i == 0 {
      assert ps[..1][1..] == [] && ps[..0] == [];
    } else {
      assert ps[..i + 1][1..] == ps[1..][..i] && ps[..i][1..] == ps[1..][..i - 1];
      PushdownAllSnoc(conds, ps[1..], i - 1);
    }
  }

  lemma KidStep(a: seq<Plan>, b: seq<Plan>, kid: Plan)
    requires b != []
    ensures var all := a + b; all[|a|] == b[0] && all[|a| := kid] == (a + [kid]) + b[1..]
  {
  }

  /** The children are rewritten in a loop; then the node itself. */
  method PushdownPass(conds: seq<Condition>, p: Plan) returns (r: Plan)
    ensures r == Pushdown(conds, p)
    decreases Size(p), 0
  {
    var kids := PushdownKids(conds, p.kids);
    r := PushHere(conds, Plan(p.kind, p.value, kids), p);
  }

  method PushdownKids(conds: seq<Condition>, ps: seq<Plan>) returns (kids: seq<Plan>)
    ensures kids == PushdownAll(conds, ps)
    decreases SizeAll(ps), 1
  {
    kids := ps;
    var i := 0;
    ghost var done: seq<Plan> := [];
    while i < |ps|
      invariant 0 <= i <= |ps| && |done| == i
      invariant done == PushdownAll(conds, ps[..i]) && kids == done + ps[i..]
    {
      PushdownAllSnoc(conds, ps, i);
      var kid := PushdownPass(conds, ps[i]);
      KidStep(done, ps[i..], kid);
      kids := kids[i := kid];
      done := done + [kid];
      i := i + 1;
    }
    assert ps[..i] == ps;
  }

  /** The selection, if it can be pushed, moves below the join, and the pass is run once more on the
      child it moved to. */
  method PushHere(conds: seq<Condition>, q: Plan, ghost p: Plan) returns (r: Plan)
    requires SizeAll(q.kids) < Size(p)
    ensures r == PushNode(conds, q, p)
    decreases SizeAll(q.kids), 2
  {
    if !OverJoin(q) {
      return q;
    }
    var join := q.kids[0];
    SelectOnly(q);
    JoinOnly(join);
    var left, right := join.kids[0], join.kids[1];
    var side := SideOf(conds, q.value, left, right);
    if side == Left {
      var kid := PushdownPass(conds, Select(q.value, left));
      return Plan(JOIN, join.value, join.kids[0 := kid]);
    }
    if side == Right {
      var kid := PushdownPass(conds, Select(q.value, right));
      return Plan(JOIN, join.value, join.kids[1 := kid]);
    }
    return q;
  }
}
