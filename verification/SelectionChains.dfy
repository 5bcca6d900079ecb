/** Splitting conjunctions into chains of selections. */
module SelectionChains {
  import opened PlanTrees
  import opened QueryTexts

  const AND: string := " AND "

  /** Where the text's first conjunction is, and what stands on its sides. */
  function AndIndex(v: string): (i: int)
    ensures i >= 0 ==> i + 5 <= |v|
  {
    var i := IndexOf(v, AND);
    assert i >= 0 ==> |AND| <= |v[i..]|;
    i
  }

  function LeftText(v: string): (t: string)
    requires AndIndex(v) >= 0
    ensures |t| + 5 <= |v|
  {
    Trim(v[..AndIndex(v)])
  }

  function RightText(v: string): (t: string)
    requires AndIndex(v) >= 0
    ensures |LeftText(v)| + |t| + 5 <= |v|
  {
    Trim(v[AndIndex(v) + 5..])
  }

  // ---------- chains ----------

  /** The texts of the selections on top of a plan, topmost first. */
  function Chain(p: Plan): seq<string>
    decreases p
  {
    if p.kind != SELECT then []
    else [p.value] + if |p.kids| == 1 then Chain(p.kids[0]) else []
  }

  /** What the selections stand on. */
  function Bottom(p: Plan): Plan
    decreases p
  {
    if p.kind == SELECT && |p.kids| == 1 then Bottom(p.kids[0]) else p
  }

  /** Selections stand on one child. */
  predicate OneChild(p: Plan)
    decreases p
  {
    (p.kind == SELECT ==> |p.kids| == 1) && AllOneChild(p.kids)
  }

  predicate AllOneChild(ps: seq<Plan>)
    decreases ps
  {
    ps == [] || (OneChild(ps[0]) && AllOneChild(ps[1..]))
  }

  // ---------- splitting ----------

  function TextSize(p: Plan): nat
    decreases p
  {
    |p.value| + TextSizes(p.kids)
  }

  function TextSizes(ps: seq<Plan>): nat
    decreases ps
  {
    if ps == [] then 0 else TextSize(ps[0]) + TextSizes(ps[1..])
  }

  lemma OneText(p: Plan)
    ensures TextSizes([p]) == TextSize(p) && (AllOneChild([p]) <==> OneChild(p))
  {
    assert [p][1..] == [];
  }

  /** A selection with a conjunction becomes two; the upper one is gone through once more. */
  function Split(p: Plan): (r: Plan)
    ensures TextSize(r) <= TextSize(p)
    decreases TextSize(p), p
  {
    var kids := SplitAll(p.kids);
    if p.kind == SELECT && AndIndex(p.value) >= 0 then
      var lower := Plan(SELECT, RightText(p.value), kids);
      OneText(lower);
      Split(Plan(SELECT, LeftText(p.value), [lower]))
    else Plan(p.kind, p.value, kids)
  }

  function SplitAll(ps: seq<Plan>): (r: seq<Plan>)
    ensures |r| == |ps| && TextSizes(r) <= TextSizes(ps)
    decreases TextSizes(ps), ps
  {
    if ps == [] then []
    else
      var first, rest := Split(ps[0]), SplitAll(ps[1..]);
      assert ([first] + rest)[1..] == rest;
      [first] + rest
  }

  /** A text with a conjunction holds where both sides hold. */
  ghost predicate Conjunctive(env: Env) {
    forall v, row :: AndIndex(v) >= 0 ==> (env.holds(v, row) <==> env.holds(LeftText(v), row) && env.holds(RightText(v), row))
  }

  lemma {:induction false} FilterBoth(env: Env, v: string, rows: seq<Row>)
    requires Conjunctive(env) && AndIndex(v) >= 0
    ensures Filter(env, v, rows) == Filter(env, LeftText(v), Filter(env, RightText(v), rows))
  {
    if rows != [] {
      var rest := Filter(env, RightText(v), rows[1..]);
      FilterBoth(env, v, rows[1..]);
      assert ([rows[0]] + rest)[1..] == rest && [] + rest == rest;
    }
  }

  lemma OneMeaning(env: Env, kind: Kind, v: string, p: Plan)
    ensures Meaning(env, Plan(kind, v, [p])) == Operate(env, kind, v, [Meaning(env, p)])
  {
    assert [p][1..] == [];
    assert Meanings(env, [p]) == [Meaning(env, p)];
  }

  /** The split plan yields the same sequence of rows. */
  lemma {:induction false} SplitKeepsMeaning(env: Env, p: Plan)
    requires Conjunctive(env) && OneChild(p)
    ensures Meaning(env, Split(p)) == Meaning(env, p) && OneChild(Split(p))
    decreases TextSize(p), p
  {
    SplitAllKeeps(env, p.kids);
    var kids := SplitAll(p.kids);
    if p.kind == SELECT && AndIndex(p.value) >= 0 {
      var lower := Plan(SELECT, RightText(p.value), kids);
      var upper := Plan(SELECT, LeftText(p.value), [lower]);
      OneText(lower);
      SplitKeepsMeaning(env, upper);
      OneMeaning(env, SELECT, LeftText(p.value), lower);
      FilterBoth(env, p.value, Meanings(env, kids)[0]);
    }
  }

  lemma {:induction false} SplitAllKeeps(env: Env, ps: seq<Plan>)
    requires Conjunctive(env) && AllOneChild(ps)
    ensures Meanings(env, SplitAll(ps)) == Meanings(env, ps) && AllOneChild(SplitAll(ps))
    decreases TextSizes(ps), ps
  {
    if ps != [] {
      SplitKeepsMeaning(env, ps[0]);
      SplitAllKeeps(env, ps[1..]);
      assert SplitAll(ps)[1..] == SplitAll(ps[1..]);
    }
  }

  // ---------- every conjunct becomes one selection ----------

  /** The conjuncts of a text, from left to right. */
  function Conjuncts(v: string): seq<string>
    decreases |v|
  {
    if AndIndex(v) >= 0 then [LeftText(v)] + Conjuncts(RightText(v)) else [v]
  }

  function AllConjuncts(vs: seq<string>): seq<string> {
    if vs == [] then [] else Conjuncts(vs[0]) + AllConjuncts(vs[1..])
  }

  // ---------- the conjuncts, by the text ----------

  /** a, the first " AND ", and b. */
  ghost predicate CutAtAnd(v: string, a: string, b: string) {
    v == a + " AND " + b && forall i :: 0 <= i < |a| ==> !(" AND " <= v[i..])
  }

  /** Both sides of the first " AND ", without their outer blanks. */
  ghost predicate CutInto(v: string, first: string, rest: string) {
    exists a, b :: CutAtAnd(v, a, b) && IsTrimmed(a, first) && IsTrimmed(b, rest)
  }

  /** The text is cut at its first " AND ", and the right side is gone through in the same way. */
  ghost predicate AreConjuncts(v: string, parts: seq<string>)
    decreases |parts|
  {
    if !Occurs(" AND ", v) then parts == [v]
    else parts != [] && exists rest :: CutInto(v, parts[0], rest) && AreConjuncts(rest, parts[1..])
  }

  lemma CutIs(v: string, a: string, b: string)
    requires AndIndex(v) >= 0
    ensures CutAtAnd(v, a, b) <==> a == v[..AndIndex(v)] && b == v[AndIndex(v) + 5..]
  {
    var i := AndIndex(v);
    assert v[i..][..5] == AND && v == v[..i] + AND + v[i + 5..];
    if CutAtAnd(v, a, b) {
      assert v[|a|..] == " AND " + b;
      assert v[..|a|] == a && v[|a| + 5..] == b;
    }
  }

  lemma CutIntoIs(v: string, first: string, rest: string)
    requires AndIndex(v) >= 0
    ensures CutInto(v, first, rest) <==> first == LeftText(v) && rest == RightText(v)
  {
    var a, b := v[..AndIndex(v)], v[AndIndex(v) + 5..];
    CutIs(v, a, b);
    TrimmedIs(a, first);
    TrimmedIs(b, rest);
    if CutInto(v, first, rest) {
      var a', b' :| CutAtAnd(v, a', b') && IsTrimmed(a', first) && IsTrimmed(b', rest);
      CutIs(v, a', b');
    }
  }

  lemma CutConjuncts(v: string, parts: seq<string>)
    requires AndIndex(v) >= 0
    ensures AreConjuncts(v, parts) <==> parts != [] && parts[0] == LeftText(v) && AreConjuncts(RightText(v), parts[1..])
  {
    OccursAt(AND, v);
    if parts != [] {
      forall rest
        ensures CutInto(v, parts[0], rest) <==> parts[0] == LeftText(v) && rest == RightText(v)
      {
        CutIntoIs(v, parts[0], rest);
      }
    }
  }

  lemma {:induction false} ConjunctsByText(v: string, parts: seq<string>)
    ensures AreConjuncts(v, parts) <==> parts == Conjuncts(v)
    decreases |v|
  {
    if AndIndex(v) >= 0 {
      CutConjuncts(v, parts);
      if parts != [] {
        ConjunctsByText(RightText(v), parts[1..]);
        assert parts == [parts[0]] + parts[1..];
      }
    } else {
      OccursAt(AND, v);
    }
  }

  /** The parts of several texts, one after the other. */
  ghost predicate AllPartsOf(vs: seq<string>, parts: seq<string>)
    decreases vs
  {
    if vs == [] then parts == []
    else exists n :: 0 <= n <= |parts| && AreConjuncts(vs[0], parts[..n]) && AllPartsOf(vs[1..], parts[n..])
  }

  lemma {:induction false} AllConjunctsByText(vs: seq<string>)
    ensures AllPartsOf(vs, AllConjuncts(vs))
  {
    if vs != [] {
      var first, rest := Conjuncts(vs[0]), AllConjuncts(vs[1..]);
      ConjunctsByText(vs[0], first);
      AllConjunctsByText(vs[1..]);
      var parts, n := first + rest, |first|;
      assert parts[..n] == first && parts[n..] == rest;
    }
  }

  lemma {:induction false} TrimLeftPart(s: string) returns (k: nat)
    ensures k <= |s| && TrimLeft(s) == s[k..]
  {
    if s != "" && IsBlank(s[0]) {
      k := TrimLeftPart(s[1..]);
      k := k + 1;
    } else {
      k := 0;
    }
  }

  lemma {:induction false} TrimRightPart(s: string) returns (n: nat)
    ensures n <= |s| && TrimRight(s) == s[..n]
  {
    if s != "" && IsBlank(s[|s| - 1]) {
      n := TrimRightPart(s[..|s| - 1]);
    } else {
      n := |s|;
    }
  }

  /** An occurrence in a part is one in the whole. */
  lemma OccursIn(v: string, k: nat, n: nat, j: nat)
    requires k + n <= |v| && j <= n
    ensures AND <= v[k..k + n][j..] ==> AND <= v[k + j..] && j + 5 <= n
  {
    var t := v[k..k + n];
    assert t[j..] == v[k + j..][..n - j];
  }

  lemma PartHasNoAnd(v: string, k: nat, n: nat)
    requires AndIndex(v) >= 0 && k + n <= AndIndex(v)
    ensures AndIndex(v[k..k + n]) < 0
  {
    var j := AndIndex(v[k..k + n]);
    OccursIn(v, k, n, if j < 0 then 0 else j);
  }

  /** Left of the first conjunction there is none. */
  lemma LeftHasNoAnd(v: string)
    requires AndIndex(v) >= 0
    ensures AndIndex(LeftText(v)) < 0
  {
    var i := AndIndex(v);
    var k := TrimLeftPart(v[..i]);
    var n := TrimRightPart(v[..i][k..]);
    assert LeftText(v) == v[k..k + n];
    PartHasNoAnd(v, k, n);
  }

  ghost predicate NoAnds(vs: seq<string>) {
    forall v :: v in vs ==> AndIndex(v) < 0
  }

  lemma {:induction false} ConjunctsHaveNoAnd(v: string)
    ensures NoAnds(Conjuncts(v))
    decreases |v|
  {
    if AndIndex(v) >= 0 {
      LeftHasNoAnd(v);
      ConjunctsHaveNoAnd(RightText(v));
    }
  }

  lemma {:induction false} AllConjunctsHaveNoAnd(vs: seq<string>)
    ensures NoAnds(AllConjuncts(vs))
  {
    if vs != [] {
      ConjunctsHaveNoAnd(vs[0]);
      AllConjunctsHaveNoAnd(vs[1..]);
    }
  }

  lemma {:induction false} NothingToSplit(vs: seq<string>)
    requires NoAnds(vs)
    ensures AllConjuncts(vs) == vs
  {
    if vs != [] {
      assert vs == [vs[0]] + vs[1..];
      assert vs[0] in vs;
      NothingToSplit(vs[1..]);
    }
  }

  lemma AllConjunctsCons(v: string, vs: seq<string>)
    ensures AllConjuncts([v] + vs) == Conjuncts(v) + AllConjuncts(vs)
  {
    assert ([v] + vs)[1..] == vs;
  }

  lemma {:induction false} SplitOneChild(p: Plan)
    requires OneChild(p)
    ensures OneChild(Split(p))
    decreases TextSize(p), p
  {
    SplitAllOneChild(p.kids);
    if p.kind == SELECT && AndIndex(p.value) >= 0 {
      var lower := Plan(SELECT, RightText(p.value), SplitAll(p.kids));
      OneText(lower);
      SplitOneChild(Plan(SELECT, LeftText(p.value), [lower]));
    }
  }

  lemma {:induction false} SplitAllOneChild(ps: seq<Plan>)
    requires AllOneChild(ps)
    ensures AllOneChild(SplitAll(ps))
    decreases TextSizes(ps), ps
  {
    if ps != [] {
      SplitOneChild(ps[0]);
      SplitAllOneChild(ps[1..]);
      assert SplitAll(ps)[1..] == SplitAll(ps[1..]);
    }
  }

  lemma OnlyKid(p: Plan)
    requires p.kind == SELECT && OneChild(p)
    ensures p.kids == [p.kids[0]] && OneChild(p.kids[0]) && TextSize(p.kids[0]) <= TextSize(p)
    ensures SplitAll(p.kids) == [Split(p.kids[0])]
  {
    OneText(p.kids[0]);
    assert p.kids[1..] == [];
  }

  /** Splitting turns each selection of a chain into one for each of its conjuncts, in order. */
  lemma {:induction false} SplitChain(p: Plan)
    requires OneChild(p)
    ensures Chain(Split(p)) == AllConjuncts(Chain(p))
    decreases TextSize(p), p, 1
  {
    if p.kind == SELECT {
      OnlyKid(p);
      SplitChain(p.kids[0]);
      var rest := Chain(p.kids[0]);
      AllConjunctsCons(p.value, rest);
      if AndIndex(p.value) >= 0 {
        SplitOneChild(p.kids[0]);
        SplitUpper(p, Split(p.kids[0]));
        SplitTexts(p.value, rest);
      } else {
        assert Split(p) == Plan(SELECT, p.value, [Split(p.kids[0])]);
      }
    }
  }

  /** Conjuncts of what is split already are left alone. */
  lemma SplitTexts(v: string, rest: seq<string>)
    requires AndIndex(v) >= 0
    ensures AllConjuncts([LeftText(v)] + ([RightText(v)] + AllConjuncts(rest))) == Conjuncts(v) + AllConjuncts(rest)
  {
    AllConjunctsHaveNoAnd(rest);
    NothingToSplit(AllConjuncts(rest));
    AllConjunctsCons(RightText(v), AllConjuncts(rest));
    AllConjunctsCons(LeftText(v), [RightText(v)] + AllConjuncts(rest));
    LeftHasNoAnd(v);
  }

  /** The second run over a selection that has been split. */
  lemma {:induction false} SplitUpper(p: Plan, kid: Plan)
    requires p.kind == SELECT && AndIndex(p.value) >= 0 && OneChild(kid)
    requires SplitAll(p.kids) == [kid] && TextSize(kid) <= TextSizes(p.kids)
    ensures Chain(Split(p)) == AllConjuncts([LeftText(p.value)] + ([RightText(p.value)] + Chain(kid)))
    decreases TextSize(p), p, 0
  {
    var lower := Plan(SELECT, RightText(p.value), [kid]);
    var upper := Plan(SELECT, LeftText(p.value), [lower]);
    OneText(kid);
    OneText(lower);
    SplitChain(upper);
  }

  /** The split chain is, by the text, the parts of the chain's texts in order. */
  lemma SplitChainByText(p: Plan)
    requires OneChild(p)
    ensures AllPartsOf(Chain(p), Chain(Split(p)))
  {
    SplitChain(p);
    AllConjunctsByText(Chain(p));
  }

  // ---------- the pass over the tree ----------

  lemma {:induction false} SplitAllSnoc(ps: seq<Plan>, i: nat)
    requires i < |ps|
    ensures SplitAll(ps[..i + 1]) == SplitAll(ps[..i]) + [Split(ps[i])]
    ensures TextSize(ps[i]) <= TextSizes(ps)
    decreases i
  {
    if i == 0 {
      assert ps[..1][1..] == [] && ps[..0] == [];
    } else {
      assert ps[..i + 1][1..] == ps[1..][..i] && ps[..i][1..] == ps[1..][..i - 1];
      SplitAllSnoc(ps[1..], i - 1);
    }
  }

  /** The children in a loop; then the selection gives its right conjunct to a new node below it and
      the pass is run once more from the same node. */
  method SplitPass(p: Plan) returns (r: Plan)
    ensures r == Split(p)
    decreases TextSize(p), p
  {
    var kids: seq<Plan> := [];
    var i := 0;
    while i < |p.kids|
      invariant 0 <= i <= |p.kids| && kids == SplitAll(p.kids[..i])
    {
      SplitAllSnoc(p.kids, i);
      var kid := SplitPass(p.kids[i]);
      kids := kids + [kid];
      i := i + 1;
    }
    assert p.kids[..i] == p.kids;
    if p.kind == SELECT && AndIndex(p.value) >= 0 {
      var lower := Plan(SELECT, RightText(p.value), kids);
      OneText(lower);
      r := SplitPass(Plan(SELECT, LeftText(p.value), [lower]));
    } else {
      r := Plan(p.kind, p.value, kids);
    }
  }
}
