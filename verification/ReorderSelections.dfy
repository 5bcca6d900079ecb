/** Reordering chains of selections by their estimated selectivity. */
module ReorderSelections {
  import opened Wrappers
  import opened PlanTrees
  import opened QueryTexts
  import opened SelectionChains

  // ---------- the order ----------

  function EstimateSelectivity(cond: Condition): (score: int)
    ensures score > 0
  {
    match cond.operation
    case "=" => 100
    case "!=" => 10
    case "<" => 50
    case ">" => 50
    case "<=" => 40
    case ">=" => 40
    case "LIKE" => 20
    case _ => 30
  }

  /** Selections without a condition come after all others. */
  function Score(conds: seq<Condition>, v: string): int {
    match MatchingCondition(conds, v)
    case Some(cond) => EstimateSelectivity(cond)
    case None => -1
  }

  /** In front of everything that does not score higher. */
  function Insert(conds: seq<Condition>, v: string, vs: seq<string>): seq<string> {
    if vs == [] || Score(conds, vs[0]) <= Score(conds, v) then [v] + vs
    else [vs[0]] + Insert(conds, v, vs[1..])
  }

  /** A stable sort by falling score. */
  function Sort(conds: seq<Condition>, vs: seq<string>): (r: seq<string>)
    ensures |r| >= |vs|
  {
    if vs == [] then [] else
      var rest := Sort(conds, vs[1..]);
      InsertSize(conds, vs[0], rest);
      Insert(conds, vs[0], rest)
  }

  lemma {:induction false} InsertSize(conds: seq<Condition>, v: string, vs: seq<string>)
    ensures |Insert(conds, v, vs)| == |vs| + 1
  {
    if vs != [] && Score(conds, vs[0]) > Score(conds, v) {
      InsertSize(conds, v, vs[1..]);
    }
  }

  ghost predicate Falling(conds: seq<Condition>, vs: seq<string>) {
    forall i, j :: 0 <= i < j < |vs| ==> Score(conds, vs[i]) >= Score(conds, vs[j])
  }

  /** The texts of one score, in order. */
  function Scoring(conds: seq<Condition>, vs: seq<string>, score: int): seq<string> {
    if vs == [] then []
    else (if Score(conds, vs[0]) == score then [vs[0]] else []) + Scoring(conds, vs[1..], score)
  }

  lemma ScoringCons(conds: seq<Condition>, v: string, vs: seq<string>, score: int)
    ensures Scoring(conds, [v] + vs, score) == (if Score(conds, v) == score then [v] else []) + Scoring(conds, vs, score)
  {
    assert ([v] + vs)[1..] == vs;
  }

  lemma {:induction false} NoneScoring(conds: seq<Condition>, vs: seq<string>, score: int)
    requires forall i :: 0 <= i < |vs| ==> Score(conds, vs[i]) != score
    ensures Scoring(conds, vs, score) == []
  {
    if vs != [] {
      NoneScoring(conds, vs[1..], score);
    }
  }

  lemma {:induction false} InsertFalling(conds: seq<Condition>, v: string, vs: seq<string>)
    requires Falling(conds, vs)
    ensures Falling(conds, Insert(conds, v, vs))
    ensures forall w :: w in Insert(conds, v, vs) ==> w == v || w in vs
  {
    if vs != [] && Score(conds, vs[0]) > Score(conds, v) {
      var rest := Insert(conds, v, vs[1..]);
      InsertFalling(conds, v, vs[1..]);
      forall j | 0 <= j < |rest|
        ensures Score(conds, vs[0]) >= Score(conds, rest[j])
      {
        assert rest[j] in rest;
      }
    }
  }

  lemma {:induction false} InsertScoring(conds: seq<Condition>, v: string, vs: seq<string>, score: int)
    ensures Scoring(conds, Insert(conds, v, vs), score) == Scoring(conds, [v] + vs, score)
  {
    ScoringCons(conds, v, vs, score);
    if vs != [] && Score(conds, vs[0]) > Score(conds, v) {
      InsertScoring(conds, v, vs[1..], score);
      ScoringCons(conds, v, vs[1..], score);
      ScoringCons(conds, vs[0], Insert(conds, v, vs[1..]), score);
    }
  }

  /** The sort is by falling score and keeps the order of equal scores. */
  lemma {:induction false} SortIsStable(conds: seq<Condition>, vs: seq<string>, score: int)
    ensures Falling(conds, Sort(conds, vs))
    ensures Scoring(conds, Sort(conds, vs), score) == Scoring(conds, vs, score)
  {
    if vs != [] {
      SortIsStable(conds, vs[1..], score);
      InsertFalling(conds, vs[0], Sort(conds, vs[1..]));
      InsertScoring(conds, vs[0], Sort(conds, vs[1..]), score);
      ScoringCons(conds, vs[0], Sort(conds, vs[1..]), score);
      ScoringCons(conds, vs[0], vs[1..], score);
      assert [vs[0]] + vs[1..] == vs;
    }
  }

  // ---------- the order, by operators ----------

  /** Equality first, then strict and loose comparisons, what is unknown, LIKE, and inequality. */
  predicate OperatorRank(operation: string, n: int) {
    || (n == 0 && operation == "=")
    || (n == 1 && (operation == "<" || operation == ">"))
    || (n == 2 && (operation == "<=" || operation == ">="))
    || (n == 3 && operation !in ["=", "<", ">", "<=", ">=", "LIKE", "!="])
    || (n == 4 && operation == "LIKE")
    || (n == 5 && operation == "!=")
  }

  /** A text ranks by the operator of the first condition it speaks of, and last without one. */
  ghost predicate Ranks(conds: seq<Condition>, v: string, n: int) {
    if NoMatch(conds, v) then n == 6 else exists i :: IsFirstMatch(conds, v, i) && OperatorRank(conds[i].operation, n)
  }

  /** The scores, from rank 0 on. */
  function ScoreAt(n: int): int {
    match n
    case 0 => 100
    case 1 => 50
    case 2 => 40
    case 3 => 30
    case 4 => 20
    case 5 => 10
    case _ => -1
  }

  lemma OperatorScore(cond: Condition, n: int)
    requires OperatorRank(cond.operation, n)
    ensures EstimateSelectivity(cond) == ScoreAt(n)
  {
  }

  lemma RankedScore(conds: seq<Condition>, v: string) returns (n: int)
    ensures 0 <= n <= 6 && Score(conds, v) == ScoreAt(n) && forall m :: Ranks(conds, v, m) <==> m == n
  {
    MatchIsFirst(conds, v);
    if NoMatch(conds, v) {
      n := 6;
    } else {
      var i :| IsFirstMatch(conds, v, i);
      FirstMatchIs(conds, v, i);
      n := OneRank(conds[i].operation);
      OperatorScore(conds[i], n);
    }
  }

  lemma OneRank(operation: string) returns (n: int)
    ensures 0 <= n <= 5 && forall m :: OperatorRank(operation, m) <==> m == n
  {
    n := if operation == "=" then 0 else if operation == "<" || operation == ">" then 1
      else if operation == "<=" || operation == ">=" then 2 else if operation == "LIKE" then 4
      else if operation == "!=" then 5 else 3;
  }

  /** The texts of one rank, in order. */
  ghost function Ranking(conds: seq<Condition>, vs: seq<string>, n: int): seq<string> {
    if vs == [] then [] else (if Ranks(conds, vs[0], n) then [vs[0]] else []) + Ranking(conds, vs[1..], n)
  }

  lemma RankIsScore(conds: seq<Condition>, v: string, n: int)
    requires 0 <= n <= 6
    ensures Ranks(conds, v, n) <==> Score(conds, v) == ScoreAt(n)
  {
    var m := RankedScore(conds, v);
  }

  lemma {:induction false} RankingIsScoring(conds: seq<Condition>, vs: seq<string>, n: int)
    requires 0 <= n <= 6
    ensures Ranking(conds, vs, n) == Scoring(conds, vs, ScoreAt(n))
  {
    if vs != [] {
      RankIsScore(conds, vs[0], n);
      RankingIsScoring(conds, vs[1..], n);
    }
  }

  lemma RanksFall(conds: seq<Condition>, v: string, w: string, n: int, m: int)
    requires Score(conds, v) >= Score(conds, w) && Ranks(conds, v, n) && Ranks(conds, w, m)
    ensures n <= m
  {
    var a := RankedScore(conds, v);
    var b := RankedScore(conds, w);
  }

  /** The sort puts lower ranks first, and keeps the order within each. */
  lemma SortIsByOperator(conds: seq<Condition>, vs: seq<string>)
    ensures var sorted := Sort(conds, vs);
      && (forall i, j, n, m :: 0 <= i < j < |sorted| && Ranks(conds, sorted[i], n) && Ranks(conds, sorted[j], m) ==> n <= m)
      && (forall n :: 0 <= n <= 6 ==> Ranking(conds, sorted, n) == Ranking(conds, vs, n))
  {
    var sorted := Sort(conds, vs);
    SortIsStable(conds, vs, 0);
    forall i, j, n, m | 0 <= i < j < |sorted| && Ranks(conds, sorted[i], n) && Ranks(conds, sorted[j], m)
      ensures n <= m
    {
      RanksFall(conds, sorted[i], sorted[j], n, m);
    }
    forall n | 0 <= n <= 6
      ensures Ranking(conds, sorted, n) == Ranking(conds, vs, n)
    {
      SortIsStable(conds, vs, ScoreAt(n));
      RankingIsScoring(conds, sorted, n);
      RankingIsScoring(conds, vs, n);
    }
  }

  /** Nothing else is both. */
  lemma StableSortIsUnique(conds: seq<Condition>, vs: seq<string>, ws: seq<string>)
    requires Falling(conds, ws) && forall score :: Scoring(conds, ws, score) == Scoring(conds, vs, score)
    ensures ws == Sort(conds, vs)
  {
    forall score
      ensures Scoring(conds, Sort(conds, vs), score) == Scoring(conds, ws, score) && Falling(conds, Sort(conds, vs))
    {
      SortIsStable(conds, vs, score);
    }
    SortIsStable(conds, vs, 0);
    SameFalling(conds, ws, Sort(conds, vs));
  }

  lemma ScoringTail(conds: seq<Condition>, v: string, a: seq<string>, b: seq<string>, score: int)
    requires Scoring(conds, [v] + a, score) == Scoring(conds, [v] + b, score)
    ensures Scoring(conds, a, score) == Scoring(conds, b, score)
  {
    var first := if Score(conds, v) == score then [v] else [];
    ScoringCons(conds, v, a, score);
    ScoringCons(conds, v, b, score);
    assert (first + Scoring(conds, a, score))[|first|..] == Scoring(conds, a, score);
    assert (first + Scoring(conds, b, score))[|first|..] == Scoring(conds, b, score);
  }

  lemma {:induction false} SameFalling(conds: seq<Condition>, a: seq<string>, b: seq<string>)
    requires Falling(conds, a) && Falling(conds, b) && forall score :: Scoring(conds, a, score) == Scoring(conds, b, score)
    ensures a == b
  {
    var score := if a != [] then Score(conds, a[0]) else if b != [] then Score(conds, b[0]) else 0;
    assert Scoring(conds, a, score) == Scoring(conds, b, score);
    if a != [] && b != [] {
      SameHead(conds, a, b);
      SameHead(conds, b, a);
      assert a == [a[0]] + a[1..] && b == [b[0]] + b[1..];
      forall score
        ensures Scoring(conds, a[1..], score) == Scoring(conds, b[1..], score)
      {
        ScoringTail(conds, a[0], a[1..], b[1..], score);
      }
      SameFalling(conds, a[1..], b[1..]);
    }
  }

  /** b has something of a's highest score, so its own highest score is no lower; of equal highest
      scores the first texts are the same. */
  lemma SameHead(conds: seq<Condition>, a: seq<string>, b: seq<string>)
    requires a != [] && b != [] && Falling(conds, b)
    requires Scoring(conds, a, Score(conds, a[0])) == Scoring(conds, b, Score(conds, a[0]))
    ensures Score(conds, a[0]) <= Score(conds, b[0])
    ensures Score(conds, a[0]) == Score(conds, b[0]) ==> a[0] == b[0]
  {
    var score := Score(conds, a[0]);
    assert Scoring(conds, a, score)[0] == a[0];
    if forall i :: 0 <= i < |b| ==> Score(conds, b[i]) != score {
      NoneScoring(conds, b, score);
    }
  }

  lemma {:induction false} SortOfFalling(conds: seq<Condition>, vs: seq<string>)
    requires Falling(conds, vs)
    ensures Sort(conds, vs) == vs
  {
    if vs != [] {
      SortOfFalling(conds, vs[1..]);
      assert vs == [vs[0]] + vs[1..];
      if |vs| > 1 {
        assert Score(conds, vs[0]) >= Score(conds, vs[1]);
      }
    }
  }

  // ---------- the rewriting ----------

  function Rebuild(vs: seq<string>, bottom: Plan): Plan {
    if vs == [] then bottom else Plan(SELECT, vs[0], [Rebuild(vs[1..], bottom)])
  }

  /** The children first; then the chain that starts here. */
  function Reorder(conds: seq<Condition>, p: Plan): Plan
    decreases p
  {
    ReorderHere(conds, Plan(p.kind, p.value, ReorderAll(conds, p.kids)))
  }

  function ReorderHere(conds: seq<Condition>, q: Plan): Plan {
    if |Chain(q)| > 1 then Rebuild(Sort(conds, Chain(q)), Bottom(q)) else q
  }

  function ReorderAll(conds: seq<Condition>, ps: seq<Plan>): (r: seq<Plan>)
    ensures |r| == |ps|
    decreases ps
  {
    if ps == [] then [] else [Reorder(conds, ps[0])] + ReorderAll(conds, ps[1..])
  }

  // ---------- every chain is sorted ----------

  lemma {:induction false} BottomIsNoSelect(p: Plan)
    requires OneChild(p)
    ensures Bottom(p).kind != SELECT && OneChild(Bottom(p))
    decreases p
  {
    if p.kind == SELECT {
      OneText(p.kids[0]);
      assert p.kids == [p.kids[0]];
      BottomIsNoSelect(p.kids[0]);
    }
  }

  lemma {:induction false} RebuiltChain(vs: seq<string>, bottom: Plan)
    requires bottom.kind != SELECT
    ensures Chain(Rebuild(vs, bottom)) == vs && Bottom(Rebuild(vs, bottom)) == bottom
    ensures OneChild(bottom) ==> OneChild(Rebuild(vs, bottom))
  {
    if vs != [] {
      RebuiltChain(vs[1..], bottom);
      assert vs == [vs[0]] + vs[1..];
      OneText(Rebuild(vs[1..], bottom));
    }
  }

  lemma {:induction false} ReorderOneChild(conds: seq<Condition>, p: Plan)
    requires OneChild(p)
    ensures OneChild(Reorder(conds, p))
    decreases p
  {
    ReorderAllOneChild(conds, p.kids);
    var q := Plan(p.kind, p.value, ReorderAll(conds, p.kids));
    BottomIsNoSelect(q);
    RebuiltChain(Sort(conds, Chain(q)), Bottom(q));
  }

  lemma {:induction false} ReorderAllOneChild(conds: seq<Condition>, ps: seq<Plan>)
    requires AllOneChild(ps)
    ensures AllOneChild(ReorderAll(conds, ps))
    decreases ps
  {
    if ps != [] {
      ReorderOneChild(conds, ps[0]);
      ReorderAllOneChild(conds, ps[1..]);
      assert ReorderAll(conds, ps)[1..] == ReorderAll(conds, ps[1..]);
    }
  }

  /** Every maximal chain becomes its stable sort, on the same bottom with its children reordered. */
  lemma {:induction false} ReorderSortsChains(conds: seq<Condition>, p: Plan)
    requires OneChild(p)
    ensures Chain(Reorder(conds, p)) == Sort(conds, Chain(p))
    ensures var b := Bottom(p); Bottom(Reorder(conds, p)) == Plan(b.kind, b.value, ReorderAll(conds, b.kids))
    decreases p
  {
    if p.kind == SELECT {
      var kid := p.kids[0];
      assert p.kids == [kid] && p.kids[1..] == [];
      OneText(kid);
      ReorderSortsChains(conds, kid);
      ReorderOneChild(conds, kid);
      assert ReorderAll(conds, p.kids) == [Reorder(conds, kid)];
      SortedAgain(conds, p.value, Chain(kid));
      var q := Plan(SELECT, p.value, [Reorder(conds, kid)]);
      OneText(Reorder(conds, kid));
      BottomIsNoSelect(q);
      RebuiltChain(Sort(conds, Chain(q)), Bottom(q));
    }
  }

  /** Sorting with a sorted tail is sorting. */
  lemma SortedAgain(conds: seq<Condition>, v: string, vs: seq<string>)
    ensures Sort(conds, [v] + Sort(conds, vs)) == Sort(conds, [v] + vs)
    ensures vs == [] ==> Sort(conds, [v] + vs) == [v]
    ensures vs != [] ==> |[v] + Sort(conds, vs)| > 1
  {
    assert ([v] + Sort(conds, vs))[1..] == Sort(conds, vs) && ([v] + vs)[1..] == vs;
    SortIsStable(conds, vs, 0);
    SortOfFalling(conds, Sort(conds, vs));
  }

  // ---------- the reordered plan means the same ----------

  function FilterAll(env: Env, vs: seq<string>, rows: seq<PlanTrees.Row>): seq<PlanTrees.Row> {
    if vs == [] then rows else Filter(env, vs[0], FilterAll(env, vs[1..], rows))
  }

  lemma {:induction false} FiltersCommute(env: Env, a: string, b: string, rows: seq<PlanTrees.Row>)
    ensures Filter(env, a, Filter(env, b, rows)) == Filter(env, b, Filter(env, a, rows))
  {
    if rows != [] {
      FiltersCommute(env, a, b, rows[1..]);
      var ra, rb := Filter(env, a, rows[1..]), Filter(env, b, rows[1..]);
      assert ([rows[0]] + ra)[1..] == ra && ([rows[0]] + rb)[1..] == rb && [] + ra == ra && [] + rb == rb;
    }
  }

  lemma {:induction false} FilterInsert(env: Env, conds: seq<Condition>, v: string, vs: seq<string>, rows: seq<PlanTrees.Row>)
    ensures FilterAll(env, Insert(conds, v, vs), rows) == Filter(env, v, FilterAll(env, vs, rows))
  {
    if vs != [] && Score(conds, vs[0]) > Score(conds, v) {
      var rest := Insert(conds, v, vs[1..]);
      FilterInsert(env, conds, v, vs[1..], rows);
      assert ([vs[0]] + rest)[1..] == rest;
      FiltersCommute(env, vs[0], v, FilterAll(env, vs[1..], rows));
    } else {
      assert ([v] + vs)[1..] == vs;
    }
  }

  lemma {:induction false} FilterSort(env: Env, conds: seq<Condition>, vs: seq<string>, rows: seq<PlanTrees.Row>)
    ensures FilterAll(env, Sort(conds, vs), rows) == FilterAll(env, vs, rows)
  {
    if vs != [] {
      FilterSort(env, conds, vs[1..], rows);
      FilterInsert(env, conds, vs[0], Sort(conds, vs[1..]), rows);
    }
  }

  lemma {:induction false} ChainMeans(env: Env, p: Plan)
    requires OneChild(p)
    ensures Meaning(env, p) == FilterAll(env, Chain(p), Meaning(env, Bottom(p)))
    decreases p
  {
    if p.kind == SELECT {
      var kid := p.kids[0];
      assert p == Plan(SELECT, p.value, [kid]);
      OneText(kid);
      ChainMeans(env, kid);
      OneMeaning(env, SELECT, p.value, kid);
      assert ([p.value] + Chain(kid))[1..] == Chain(kid);
    }
  }

  lemma {:induction false} RebuildMeans(env: Env, vs: seq<string>, bottom: Plan)
    ensures Meaning(env, Rebuild(vs, bottom)) == FilterAll(env, vs, Meaning(env, bottom))
  {
    if vs != [] {
      RebuildMeans(env, vs[1..], bottom);
      OneMeaning(env, SELECT, vs[0], Rebuild(vs[1..], bottom));
    }
  }

  /** The reordered plan yields the same sequence of rows. */
  lemma {:induction false} ReorderKeepsMeaning(env: Env, conds: seq<Condition>, p: Plan)
    requires OneChild(p)
    ensures Meaning(env, Reorder(conds, p)) == Meaning(env, p)
    decreases p
  {
    ReorderAllKeeps(env, conds, p.kids);
    ReorderAllOneChild(conds, p.kids);
    var q := Plan(p.kind, p.value, ReorderAll(conds, p.kids));
    ChainMeans(env, q);
    FilterSort(env, conds, Chain(q), Meaning(env, Bottom(q)));
    RebuildMeans(env, Sort(conds, Chain(q)), Bottom(q));
  }

  lemma {:induction false} ReorderAllKeeps(env: Env, conds: seq<Condition>, ps: seq<Plan>)
    requires AllOneChild(ps)
    ensures Meanings(env, ReorderAll(conds, ps)) == Meanings(env, ps)
    decreases ps
  {
    if ps != [] {
      ReorderKeepsMeaning(env, conds, ps[0]);
      ReorderAllKeeps(env, conds, ps[1..]);
      assert ReorderAll(conds, ps)[1..] == ReorderAll(conds, ps[1..]);
    }
  }

  // ---------- the pass over the tree ----------

  lemma {:induction false} ReorderAllSnoc(conds: seq<Condition>, ps: seq<Plan>, i: nat)
    requires i < |ps|
    ensures ReorderAll(conds, ps[..i + 1]) == ReorderAll(conds, ps[..i]) + [Reorder(conds, ps[i])]
    decreases i
  {
    if i == 0 {
      assert ps[..1][1..] == [] && ps[..0] == [];
    } else {
      assert ps[..i + 1][1..] == ps[1..][..i] && ps[..i][1..] == ps[1..][..i - 1];
      ReorderAllSnoc(conds, ps[1..], i - 1);
    }
  }

  lemma ChainStep(vs: seq<string>, p: Plan)
    requires p.kind == SELECT
    ensures vs + Chain(p) == (vs + [p.value]) + (if |p.kids| == 1 then Chain(p.kids[0]) else [])
  {
  }

  /** The loop down the chain. */
  method CollectChain(p: Plan) returns (vs: seq<string>, bottom: Plan)
    ensures vs == Chain(p) && bottom == Bottom(p)
  {
    vs, bottom := [], p;
    while bottom.kind == SELECT
      invariant vs + Chain(bottom) == Chain(p) && Bottom(bottom) == Bottom(p)
      decreases bottom
    {
      ChainStep(vs, bottom);
      vs := vs + [bottom.value];
      if |bottom.kids| != 1 {
        return;
      }
      bottom := bottom.kids[0];
    }
  }

  /** The loop that puts the sorted selections on the bottom again, lowest first. */
  method RebuildChain(vs: seq<string>, bottom: Plan) returns (chain: Plan)
    ensures chain == Rebuild(vs, bottom)
  {
    chain := bottom;
    var i := |vs|;
    while i > 0
      invariant 0 <= i <= |vs| && chain == Rebuild(vs[i..], bottom)
    {
      i := i - 1;
      assert vs[i..][1..] == vs[i + 1..];
      chain := Plan(SELECT, vs[i], [chain]);
    }
  }

  method ReorderPass(conds: seq<Condition>, p: Plan) returns (r: Plan)
    ensures r == Reorder(conds, p)
    decreases p
  {
    var kids: seq<Plan> := [];
    var i := 0;
    while i < |p.kids|
      invariant 0 <= i <= |p.kids| && kids == ReorderAll(conds, p.kids[..i])
    {
      ReorderAllSnoc(conds, p.kids, i);
      var kid := ReorderPass(conds, p.kids[i]);
      kids := kids + [kid];
      i := i + 1;
    }
    assert p.kids[..i] == p.kids;
    var q := Plan(p.kind, p.value, kids);
    var vs, bottom := CollectChain(q);
    if |vs| <= 1 {
      return q;
    }
    r := RebuildChain(Sort(conds, vs), bottom);
  }
}
