/** Query plans and what they mean. */
module PlanTrees {
  // A SELECT filters, a JOIN is an inner nested loop, a SCAN reads a table; every other operator is an
  // arbitrary function of its inputs. A row of a plan is one record for each table it comes from.

  import opened Wrappers

  datatype Kind = SELECT | JOIN | SCAN | Operator(name: string)

  datatype Plan = Plan(kind: Kind, value: string, kids: seq<Plan>)

  datatype Condition = Condition(column: string, operation: string)

  // ---------- strings ----------

  /** The first index at which t occurs in s, or -1. */
  function IndexOf(s: string, t: string): (i: int)
    ensures -1 <= i <= |s| && (i >= 0 ==> t <= s[i..])
    ensures forall j :: 0 <= j <= |s| && t <= s[j..] ==> 0 <= i <= j
  {
    if t <= s then
      assert s[0..] == s;
      0
    else if s == "" then
      assert s[0..] == s;
      -1
    else
      var i := IndexOf(s[1..], t);
      assert forall j :: 0 < j <= |s| ==> s[j..] == s[1..][j - 1..];
      assert s[0..] == s;
      if i < 0 then -1 else i + 1
  }

  predicate IsBlank(c: char) {
    c == ' ' || c == '\t' || c == '\n' || c == '\r'
  }

  function TrimLeft(s: string): (t: string)
    ensures |t| <= |s|
  {
    if s != "" && IsBlank(s[0]) then TrimLeft(s[1..]) else s
  }

  function TrimRight(s: string): (t: string)
    ensures |t| <= |s|
  {
    if s != "" && IsBlank(s[|s| - 1]) then TrimRight(s[..|s| - 1]) else s
  }

  function Trim(s: string): (t: string)
    ensures |t| <= |s|
  {
    TrimRight(TrimLeft(s))
  }

  /** What stands before the first dot; nothing without one. */
  function TableOfColumn(column: string): string {
    var i := IndexOf(column, ".");
    if i < 0 then "" else column[..i]
  }

  function AfterLastSpace(s: string): string {
    if s == "" || s[|s| - 1] == ' ' then "" else AfterLastSpace(s[..|s| - 1]) + [s[|s| - 1]]
  }

  /** A table's alias: the last word of "table alias", or the table itself. */
  function TableAlias(s: string): string {
    if ' ' in s then Trim(AfterLastSpace(s)) else s
  }

  /** The first condition whose column and operator occur in the selection's text. */
  function MatchingCondition(conds: seq<Condition>, v: string): Option<Condition> {
    if conds == [] then None
    else if IndexOf(v, conds[0].column + " " + conds[0].operation) >= 0 then Some(conds[0])
    else MatchingCondition(conds[1..], v)
  }

  // ---------- trees ----------

  function Size(p: Plan): (n: nat)
    ensures n >= 1
    decreases p
  {
    1 + SizeAll(p.kids)
  }

  function SizeAll(ps: seq<Plan>): nat
    decreases ps
  {
    if ps == [] then 0 else Size(ps[0]) + SizeAll(ps[1..])
  }

  function Tables(p: Plan): set<string>
    decreases p
  {
    (if p.kind == SCAN then {TableAlias(p.value)} else {}) + TablesAll(p.kids)
  }

  function TablesAll(ps: seq<Plan>): set<string>
    decreases ps
  {
    if ps == [] then {} else Tables(ps[0]) + TablesAll(ps[1..])
  }

  // ---------- meaning ----------

  type Record = map<string, int>

  type Row = map<string, Record>

  /** What the atoms, tables, join conditions and other operators are. */
  datatype Env = Env(
    holds: (string, Row) -> bool,
    scan: string -> seq<Row>,
    joins: (string, Row, Row) -> bool,
    operator: (Kind, string, seq<seq<Row>>) -> seq<Row>)

  function Filter(env: Env, v: string, rows: seq<Row>): seq<Row> {
    if rows == [] then []
    else (if env.holds(v, rows[0]) then [rows[0]] else []) + Filter(env, v, rows[1..])
  }

  /** One row of the left side with every row of the right side. */
  function JoinOne(env: Env, v: string, l: Row, right: seq<Row>): seq<Row> {
    if right == [] then []
    else (if env.joins(v, l, right[0]) then [l + right[0]] else []) + JoinOne(env, v, l, right[1..])
  }

  function Join(env: Env, v: string, left: seq<Row>, right: seq<Row>): seq<Row> {
    if left == [] then [] else JoinOne(env, v, left[0], right) + Join(env, v, left[1..], right)
  }

  function Operate(env: Env, kind: Kind, v: string, inputs: seq<seq<Row>>): seq<Row> {
    if kind == SELECT && |inputs| == 1 then Filter(env, v, inputs[0])
    else if kind == JOIN && |inputs| == 2 then Join(env, v, inputs[0], inputs[1])
    else if kind == SCAN then env.scan(v)
    else env.operator(kind, v, inputs)
  }

  function Meaning(env: Env, p: Plan): seq<Row>
    decreases p
  {
    Operate(env, p.kind, p.value, Meanings(env, p.kids))
  }

  function Meanings(env: Env, ps: seq<Plan>): (r: seq<seq<Row>>)
    ensures |r| == |ps|
    decreases ps
  {
    if ps == [] then [] else [Meaning(env, ps[0])] + Meanings(env, ps[1..])
  }

  lemma {:induction false} FilterConcat(env: Env, v: string, a: seq<Row>, b: seq<Row>)
    ensures Filter(env, v, a + b) == Filter(env, v, a) + Filter(env, v, b)
  {
    if a == [] {
      assert a + b == b;
    } else {
      assert (a + b)[1..] == a[1..] + b;
      FilterConcat(env, v, a[1..], b);
    }
  }

  // ---------- which tables a row comes from ----------

  ghost predicate From(rows: seq<Row>, tables: set<string>) {
    forall row :: row in rows ==> row.Keys <= tables
  }

  /** Scans return rows of their table, and no operator adds tables. */
  ghost predicate TableWise(env: Env) {
    && (forall v :: From(env.scan(v), {TableAlias(v)}))
    && forall kind, v, inputs, tables: set<string> ::
         (forall i :: 0 <= i < |inputs| ==> From(inputs[i], tables)) ==> From(env.operator(kind, v, inputs), tables)
  }

  lemma {:induction false} FilterFrom(env: Env, v: string, rows: seq<Row>, tables: set<string>)
    requires From(rows, tables)
    ensures From(Filter(env, v, rows), tables)
  {
    if rows != [] {
      assert rows == [rows[0]] + rows[1..];
      FilterFrom(env, v, rows[1..], tables);
    }
  }

  lemma {:induction false} JoinOneFrom(env: Env, v: string, l: Row, right: seq<Row>, tables: set<string>)
    requires l.Keys <= tables && From(right, tables)
    ensures From(JoinOne(env, v, l, right), tables)
  {
    if right != [] {
      assert right == [right[0]] + right[1..];
      assert right[0] in right && (l + right[0]).Keys == l.Keys + right[0].Keys;
      JoinOneFrom(env, v, l, right[1..], tables);
    }
  }

  lemma {:induction false} JoinFrom(env: Env, v: string, left: seq<Row>, right: seq<Row>, tables: set<string>)
    requires From(left, tables) && From(right, tables)
    ensures From(Join(env, v, left, right), tables)
  {
    if left != [] {
      assert left == [left[0]] + left[1..];
      assert left[0] in left;
      JoinOneFrom(env, v, left[0], right, tables);
      JoinFrom(env, v, left[1..], right, tables);
    }
  }

  lemma {:induction false} MeaningFrom(env: Env, p: Plan)
    requires TableWise(env)
    ensures From(Meaning(env, p), Tables(p))
    decreases p
  {
    var inputs := Meanings(env, p.kids);
    MeaningsFrom(env, p.kids, Tables(p));
    if p.kind == SELECT && |inputs| == 1 {
      FilterFrom(env, p.value, inputs[0], Tables(p));
    } else if p.kind == JOIN && |inputs| == 2 {
      JoinFrom(env, p.value, inputs[0], inputs[1], Tables(p));
    }
  }

  lemma {:induction false} MeaningsFrom(env: Env, ps: seq<Plan>, tables: set<string>)
    requires TableWise(env) && TablesAll(ps) <= tables
    ensures forall i :: 0 <= i < |ps| ==> From(Meanings(env, ps)[i], tables)
    decreases ps
  {
    if ps != [] {
      MeaningFrom(env, ps[0]);
      MeaningsFrom(env, ps[1..], tables);
    }
  }
}
