/** What the texts of a query say. */
module QueryTexts {
  // The functions on texts that the passes compute with, said of the texts themselves.

  import opened Wrappers
  import opened PlanTrees

  ghost predicate Occurs(t: string, s: string) {
    exists i :: 0 <= i <= |s| && t <= s[i..]
  }

  lemma OccursAt(t: string, s: string)
    ensures Occurs(t, s) <==> IndexOf(s, t) >= 0
  {
    if IndexOf(s, t) >= 0 {
      assert t <= s[IndexOf(s, t)..];
    }
  }

  /** t is s without the blanks at its ends. */
  ghost predicate IsTrimmed(s: string, t: string) {
    && (t != "" ==> !IsBlank(t[0]) && !IsBlank(t[|t| - 1]))
    && exists i, j :: 0 <= i <= j <= |s| && TrimmedAt(s, t, i, j)
  }

  predicate TrimmedAt(s: string, t: string, i: nat, j: nat)
    requires i <= j <= |s|
  {
    s[i..j] == t && (forall k :: 0 <= k < i ==> IsBlank(s[k])) && forall k :: j <= k < |s| ==> IsBlank(s[k])
  }

  lemma {:induction false} LeftTrimmed(s: string)
    ensures var t := TrimLeft(s); var i := |s| - |t|;
      s[i..] == t && (forall k :: 0 <= k < i ==> IsBlank(s[k])) && (t != "" ==> !IsBlank(t[0]))
  {
    if s != "" && IsBlank(s[0]) {
      LeftTrimmed(s[1..]);
    }
  }

  lemma {:induction false} RightTrimmed(s: string)
    ensures var t := TrimRight(s);
      s[..|t|] == t && (forall k :: |t| <= k < |s| ==> IsBlank(s[k])) && (t != "" ==> !IsBlank(t[|t| - 1]))
  {
    if s != "" && IsBlank(s[|s| - 1]) {
      RightTrimmed(s[..|s| - 1]);
    }
  }

  /** Trimmed first on the left, to l, and then on the right, to t. */
  lemma TrimmedTwice(s: string, l: string, t: string)
    requires |l| <= |s| && s[|s| - |l|..] == l && (forall k :: 0 <= k < |s| - |l| ==> IsBlank(s[k]))
    requires |t| <= |l| && l[..|t|] == t && (forall k :: |t| <= k < |l| ==> IsBlank(l[k]))
    requires (l != "" ==> !IsBlank(l[0])) && (t != "" ==> !IsBlank(t[|t| - 1]))
    ensures IsTrimmed(s, t)
  {
    var i := |s| - |l|;
    assert s[i..i + |t|] == s[i..][..|t|];
    forall k | i + |t| <= k < |s|
      ensures IsBlank(s[k])
    {
      assert s[k] == l[k - i];
    }
    assert TrimmedAt(s, t, i, i + |t|);
    assert t != "" ==> t[0] == l[0];
  }

  lemma TrimIsTrimmed(s: string)
    ensures IsTrimmed(s, Trim(s))
  {
    var l := TrimLeft(s);
    LeftTrimmed(s);
    RightTrimmed(l);
    TrimmedTwice(s, l, TrimRight(l));
  }

  lemma TrimmedOnce(s: string, t: string, u: string)
    requires IsTrimmed(s, t) && IsTrimmed(s, u)
    ensures t == u
  {
    var i, j :| 0 <= i <= j <= |s| && TrimmedAt(s, t, i, j);
    var k, l :| 0 <= k <= l <= |s| && TrimmedAt(s, u, k, l);
    if t != "" {
      assert !IsBlank(s[i]) && !IsBlank(s[j - 1]);
      assert k <= i && j <= l;
    }
    if u != "" {
      assert !IsBlank(s[k]) && !IsBlank(s[l - 1]);
      assert i <= k && l <= j;
    }
  }

  lemma TrimmedIs(s: string, t: string)
    ensures IsTrimmed(s, t) <==> t == Trim(s)
  {
    TrimIsTrimmed(s);
    if IsTrimmed(s, t) {
      TrimmedOnce(s, t, Trim(s));
    }
  }

  // ---------- tables ----------

  /** The column is written "t.name"; without a dot it has no table. */
  ghost predicate IsTableOf(column: string, t: string) {
    if '.' in column then '.' !in t && exists name :: column == t + "." + name else t == ""
  }

  lemma FirstDot(column: string)
    ensures var i := IndexOf(column, ".");
      && (i < 0 <==> '.' !in column)
      && (i >= 0 ==> i < |column| && column[i] == '.' && forall k :: 0 <= k < i ==> column[k] != '.')
  {
    forall k | 0 <= k < |column|
      ensures column[k] == '.' <==> "." <= column[k..]
    {
    }
    var i := IndexOf(column, ".");
    assert i >= 0 ==> |"."| <= |column[i..]|;
  }

  lemma UpToDot(column: string, t: string, name: string)
    requires column == t + "." + name && '.' !in t
    ensures IndexOf(column, ".") == |t| && column[..|t|] == t
  {
    FirstDot(column);
    assert column[|t|] == '.';
    assert forall k :: 0 <= k < |t| ==> column[k] == t[k];
  }

  lemma TableIs(column: string, t: string)
    ensures IsTableOf(column, t) <==> t == TableOfColumn(column)
  {
    var i := IndexOf(column, ".");
    FirstDot(column);
    if i >= 0 {
      assert column == column[..i] + "." + column[i + 1..] && '.' !in column[..i];
      if IsTableOf(column, t) {
        var name :| column == t + "." + name;
        UpToDot(column, t, name);
      }
    }
  }

  ghost predicate IsLastSpace(s: string, i: int) {
    0 <= i < |s| && s[i] == ' ' && forall k :: i < k < |s| ==> s[k] != ' '
  }

  /** The alias stands behind the last space, if there is one. */
  ghost predicate IsAlias(table: string, t: string) {
    if ' ' in table then exists i :: IsLastSpace(table, i) && IsTrimmed(table[i + 1..], t) else t == table
  }

  lemma {:induction false} LastSpace(s: string) returns (i: int)
    requires ' ' in s
    ensures IsLastSpace(s, i) && AfterLastSpace(s) == s[i + 1..]
  {
    var front, c := s[..|s| - 1], s[|s| - 1];
    if c == ' ' {
      i := |s| - 1;
    } else {
      assert s == front + [c];
      i := LastSpace(front);
      assert s[i + 1..] == front[i + 1..] + [c];
    }
  }

  lemma AliasIs(table: string, t: string)
    ensures IsAlias(table, t) <==> t == TableAlias(table)
  {
    if ' ' in table {
      var i := LastSpace(table);
      TrimmedIs(table[i + 1..], t);
      assert forall j :: IsLastSpace(table, j) ==> j == i;
    }
  }

  // ---------- the condition of a text ----------

  ghost predicate SpeaksOf(v: string, cond: Condition) {
    Occurs(cond.column + " " + cond.operation, v)
  }

  /** Condition i is the first that the text speaks of. */
  ghost predicate IsFirstMatch(conds: seq<Condition>, v: string, i: int) {
    0 <= i < |conds| && SpeaksOf(v, conds[i]) && forall j :: 0 <= j < i ==> !SpeaksOf(v, conds[j])
  }

  ghost predicate NoMatch(conds: seq<Condition>, v: string) {
    forall i :: 0 <= i < |conds| ==> !SpeaksOf(v, conds[i])
  }

  lemma {:induction false} MatchIsFirst(conds: seq<Condition>, v: string)
    ensures match MatchingCondition(conds, v)
      case None => NoMatch(conds, v)
      case Some(cond) => exists i :: IsFirstMatch(conds, v, i) && conds[i] == cond
  {
    if conds != [] {
      OccursAt(conds[0].column + " " + conds[0].operation, v);
      if SpeaksOf(v, conds[0]) {
        assert IsFirstMatch(conds, v, 0);
      } else {
        MatchIsFirst(conds[1..], v);
        if MatchingCondition(conds, v).Some? {
          var i :| IsFirstMatch(conds[1..], v, i) && conds[1..][i] == MatchingCondition(conds, v).value;
          assert forall j :: 0 < j < |conds| ==> conds[1..][j - 1] == conds[j];
          assert IsFirstMatch(conds, v, i + 1);
        }
      }
    }
  }

  lemma FirstMatchIs(conds: seq<Condition>, v: string, i: int)
    requires IsFirstMatch(conds, v, i)
    ensures MatchingCondition(conds, v) == Some(conds[i])
  {
    MatchIsFirst(conds, v);
    assert SpeaksOf(v, conds[i]) && !NoMatch(conds, v);
    var j :| IsFirstMatch(conds, v, j) && conds[j] == MatchingCondition(conds, v).value;
    assert i == j;
  }
}
