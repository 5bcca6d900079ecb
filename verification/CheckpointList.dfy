/** The list of active transactions that a checkpoint prints into the log and that crash
    recovery reads back. */
module CheckpointList {
  import opened Wrappers
  import opened Collections

  datatype Parse<+T> = NoParse | Parsed(value: T)

  // ---------- printing ----------

  function Digit(d: nat): char
    requires d < 10
  {
    "0123456789"[d]
  }

  function PrintNat(n: nat): string {
    if n < 10 then [Digit(n)] else PrintNat(n / 10) + [Digit(n % 10)]
  }

  function PrintInt(n: int): string {
    if n < 0 then "-" + PrintNat(-n) else PrintNat(n)
  }

  /** The elements in ascending order, separated by commas. */
  function Join(s: set<int>): string {
    if s == {} then ""
    else
      var m := Least(s);
      PrintInt(m) + if s - {m} == {} then "" else "," + Join(s - {m})
  }

  const START_QUERY: string := "CHECKPOINT_START"
  const END_PREFIX: string := "CHECKPOINT_END:"

  function EndQuery(active: set<int>): string {
    END_PREFIX + "[" + Join(active) + "]"
  }

  /** The loop that builds the list. */
  method PrintList(active: set<int>) returns (list: string)
    ensures END_PREFIX + list == EndQuery(active)
  {
    list := "[";
    var first := true;
    var todo := active;
    while todo != {}
      invariant todo <= active
      invariant list + Rest(first, todo) == "[" + Join(active)
      decreases todo
    {
      var tid := Least(todo);
      PrintStep(list, first, todo);
      if !first {
        list := list + ",";
      }
      todo := todo - {tid};
      list := list + PrintInt(tid);
      first := false;
    }
    list := list + "]";
    ListInQuery(active);
  }

  lemma PrintStep(list: string, first: bool, todo: set<int>)
    requires todo != {}
    ensures var m := Least(todo);
      list + Rest(first, todo) == (if first then list else list + ",") + PrintInt(m) + Rest(false, todo - {m})
  {
    var m := Least(todo);
    var text, tail := PrintInt(m), Rest(false, todo - {m});
    assert Join(todo) == text + tail;
    Regroup(list, "", text, tail);
    Regroup(list, ",", text, tail);
    assert list + "" == list && "" + (text + tail) == text + tail;
  }

  lemma Regroup(a: string, b: string, c: string, d: string)
    ensures a + (b + (c + d)) == a + b + c + d
  {
  }

  lemma ListInQuery(active: set<int>)
    ensures END_PREFIX + ("[" + Join(active) + "]") == EndQuery(active)
  {
  }

  /** What the loop has still to print. */
  function Rest(first: bool, todo: set<int>): string {
    if todo == {} then "" else if first then Join(todo) else "," + Join(todo)
  }

  // ---------- parsing ----------

  predicate IsDigit(c: char) {
    48 <= c as int <= 57
  }

  function DigitValue(c: char): nat
    requires IsDigit(c)
  {
    c as int - 48
  }

  predicate IsSpace(c: char) {
    c == ' ' || c == '\t' || c == '\n' || c == '\r' || c as int == 11 || c as int == 12
  }

  /** The index of the first c, or the length. */
  function Find(s: string, c: char): (i: nat)
    ensures i <= |s| && c !in s[..i] && (i < |s| ==> s[i] == c)
  {
    if s == "" || s[0] == c then 0
    else
      var i := 1 + Find(s[1..], c);
      assert s[..i] == [s[0]] + s[1..][..i - 1];
      i
  }

  function SkipSpaces(s: string): string {
    if s != "" && IsSpace(s[0]) then SkipSpaces(s[1..]) else s
  }

  function DigitsValue(s: string, value: nat): nat {
    if s != "" && IsDigit(s[0]) then DigitsValue(s[1..], 10 * value + DigitValue(s[0])) else value
  }

  /** The standard conversion: blanks, a sign, digits; whatever follows the digits is ignored. */
  function Stoi(token: string): Parse<int> {
    var s := SkipSpaces(token);
    var negative := s != "" && s[0] == '-';
    var digits := if s != "" && (s[0] == '-' || s[0] == '+') then s[1..] else s;
    if digits == "" || !IsDigit(digits[0]) then NoParse
    else
      var magnitude: int := DigitsValue(digits, 0);
      var n := if negative then -magnitude else magnitude;
      if INT_MIN <= n <= INT_MAX then Parsed(n) else NoParse
  }

  /** Pieces between commas; nothing follows a trailing comma. */
  function Tokens(s: string): seq<string>
    decreases |s|
  {
    if s == "" then []
    else
      var i := Find(s, ',');
      [s[..i]] + if i < |s| then Tokens(s[i + 1..]) else []
  }

  function Values(tokens: seq<string>): set<int> {
    if tokens == [] then {}
    else Values(tokens[1..]) + match Stoi(tokens[0]) case Parsed(n) => {n} case NoParse => {}
  }

  /** What stands between the first '[' and the first ']'. */
  function ParseList(query: string): set<int> {
    var start, end := Find(query, '['), Find(query, ']');
    if start == |query| || end == |query| || end <= start then {}
    else Values(Tokens(query[start + 1..end]))
  }

  method ParseCheckpointList(query: string) returns (activeTids: set<int>)
    ensures activeTids == ParseList(query)
  {
    activeTids := {};
    var start, end := Find(query, '['), Find(query, ']');
    if start == |query| || end == |query| || end <= start {
      return;
    }
    var rest := query[start + 1..end];
    while rest != ""
      invariant activeTids + Values(Tokens(rest)) == Values(Tokens(query[start + 1..end]))
      decreases |rest|
    {
      var i := Find(rest, ',');
      var token := rest[..i];
      var tail := if i < |rest| then rest[i + 1..] else "";
      assert Tokens(rest)[1..] == Tokens(tail);
      match Stoi(token) {
        case Parsed(tid) => activeTids := activeTids + {tid};
        case NoParse =>
      }
      rest := tail;
    }
  }

  // ---------- round trip ----------

  lemma {:induction false} NatDigits(n: nat)
    ensures PrintNat(n) != "" && forall c :: c in PrintNat(n) ==> IsDigit(c)
  {
    if n >= 10 {
      NatDigits(n / 10);
    }
  }

  lemma {:induction false} DigitsValueConcat(a: string, b: string, value: nat)
    requires forall c :: c in a ==> IsDigit(c)
    ensures DigitsValue(a + b, value) == DigitsValue(b, DigitsValue(a, value))
  {
    if a == "" {
      assert a + b == b;
    } else {
      assert (a + b)[1..] == a[1..] + b;
      DigitsValueConcat(a[1..], b, 10 * value + DigitValue(a[0]));
    }
  }

  lemma LastDigit(value: nat, d: nat)
    requires d < 10
    ensures DigitsValue([Digit(d)], value) == 10 * value + d
  {
    assert [Digit(d)][1..] == "";
  }

  lemma {:induction false} NatRoundTrip(n: nat)
    ensures DigitsValue(PrintNat(n), 0) == n
  {
    if n >= 10 {
      NatDigits(n / 10);
      NatRoundTrip(n / 10);
      DigitsValueConcat(PrintNat(n / 10), [Digit(n % 10)], 0);
      LastDigit(n / 10, n % 10);
    }
  }

  lemma IntRoundTrip(n: int)
    requires INT_MIN <= n <= INT_MAX
    ensures Stoi(PrintInt(n)) == Parsed(n)
    ensures PrintInt(n) != "" && forall c :: c in PrintInt(n) ==> IsDigit(c) || c == '-'
  {
    var m := if n < 0 then -n else n;
    NatDigits(m);
    NatRoundTrip(m);
    assert PrintNat(m)[0] in PrintNat(m);
    if n < 0 {
      assert PrintInt(n)[1..] == PrintNat(m);
    }
  }

  lemma {:induction false} FindIn(a: string, b: string, c: char)
    requires c !in a
    ensures Find(a + [c] + b, c) == |a|
  {
    var s := a + [c] + b;
    if a != "" {
      assert s[0] == a[0] && s[1..] == a[1..] + [c] + b;
      FindIn(a[1..], b, c);
    }
  }

  lemma FindNone(a: string, c: char)
    requires c !in a
    ensures Find(a, c) == |a|
  {
  }

  lemma TokensStep(a: string, b: string)
    requires ',' !in a
    ensures Tokens(a + "," + b) == [a] + Tokens(b)
    ensures a != "" ==> Tokens(a) == [a]
  {
    FindIn(a, b, ',');
    FindNone(a, ',');
    var s := a + "," + b;
    assert s[..|a|] == a && s[|a| + 1..] == b;
    assert a[..|a|] == a;
  }

  predicate ListChar(c: char) {
    IsDigit(c) || c == '-' || c == ','
  }

  lemma {:induction false} JoinIsPlain(s: set<int>)
    requires forall x :: x in s ==> INT_MIN <= x <= INT_MAX
    ensures forall c :: c in Join(s) ==> ListChar(c)
  {
    if s != {} {
      IntRoundTrip(Least(s));
      JoinIsPlain(s - {Least(s)});
    }
  }

  lemma ValuesStep(token: string, tokens: seq<string>, n: int)
    requires Stoi(token) == Parsed(n)
    ensures Values([token] + tokens) == Values(tokens) + {n}
  {
    assert ([token] + tokens)[1..] == tokens;
  }

  lemma Regroup3(a: string, b: string, c: string)
    ensures a + (b + c) == a + b + c
  {
  }

  lemma TokensFirst(text: string, rest: string)
    requires ',' !in text
    ensures Tokens(text + ("," + rest)) == [text] + Tokens(rest)
  {
    Regroup3(text, ",", rest);
    TokensStep(text, rest);
  }

  lemma TokensOfJoin(s: set<int>)
    requires s != {} && INT_MIN <= Least(s) <= INT_MAX
    ensures Tokens(Join(s)) == [PrintInt(Least(s))] + Tokens(Join(s - {Least(s)}))
  {
    var text, others := PrintInt(Least(s)), s - {Least(s)};
    IntRoundTrip(Least(s));
    if others == {} {
      TokensStep(text, "");
      assert Join(s) == text;
    } else {
      TokensFirst(text, Join(others));
      assert Join(s) == text + ("," + Join(others));
    }
  }

  lemma {:induction false} JoinRoundTrip(s: set<int>)
    requires forall x :: x in s ==> INT_MIN <= x <= INT_MAX
    ensures Values(Tokens(Join(s))) == s
  {
    if s != {} {
      var m := Least(s);
      var text, tokens := PrintInt(m), Tokens(Join(s - {m}));
      TokensOfJoin(s);
      JoinRoundTrip(s - {m});
      IntRoundTrip(m);
      ValuesStep(text, tokens, m);
    }
  }

  /** The printed list of a checkpoint parses back to the active transactions. */
  lemma ListRoundTrip(active: set<int>)
    requires forall t :: t in active ==> INT_MIN <= t <= INT_MAX
    ensures ParseList(EndQuery(active)) == active
  {
    JoinRoundTrip(active);
    JoinIsPlain(active);
    PrefixIsPlain();
    assert ']' !in Join(active);
    Brackets(END_PREFIX, Join(active));
  }

  lemma PrefixIsPlain()
    ensures '[' !in END_PREFIX && ']' !in END_PREFIX
  {
  }

  lemma Brackets(prefix: string, list: string)
    requires '[' !in prefix && ']' !in prefix && ']' !in list
    ensures ParseList(prefix + "[" + list + "]") == Values(Tokens(list))
  {
    var query := prefix + "[" + list + "]";
    assert query == prefix + "[" + (list + "]");
    FindIn(prefix, list + "]", '[');
    assert query == (prefix + "[" + list) + "]" + "";
    FindIn(prefix + "[" + list, "", ']');
    assert query[|prefix| + 1..|query| - 1] == list;
  }

  /** The query of a checkpoint's start has no list, and parses to nobody. */
  lemma StartParsesToNobody()
    ensures ParseList(START_QUERY) == {}
  {
    FindNone(START_QUERY, '[');
  }

  // ---------- what is parsed, by the text ----------

  function Decimal(digits: string): int
    requires forall c :: c in digits ==> IsDigit(c)
  {
    if digits == "" then 0 else 10 * Decimal(digits[..|digits| - 1]) + digits[|digits| - 1] as int - 48
  }

  /** Blanks up to i, a sign up to d, and digits up to j; what follows is no digit. */
  ghost predicate NumberAt(t: string, i: int, d: int, j: int) {
    && 0 <= i <= d < j <= |t|
    && (forall k :: 0 <= k < i ==> IsSpace(t[k]))
    && (d == i || (d == i + 1 && (t[i] == '-' || t[i] == '+')))
    && (forall c :: c in t[d..j] ==> IsDigit(c)) && (j < |t| ==> !IsDigit(t[j]))
  }

  function ValueAt(t: string, i: int, d: int, j: int): int
    requires 0 <= i < |t| && 0 <= d <= j <= |t| && forall c :: c in t[d..j] ==> IsDigit(c)
  {
    if t[i] == '-' then -Decimal(t[d..j]) else Decimal(t[d..j])
  }

  /** The text starts with the 32-bit integer n. */
  ghost predicate Says(t: string, n: int) {
    && INT_MIN <= n <= INT_MAX
    && exists i, d, j :: NumberAt(t, i, d, j) && n == ValueAt(t, i, d, j)
  }

  lemma {:induction false} DecimalIs(digits: string)
    requires forall c :: c in digits ==> IsDigit(c)
    ensures DigitsValue(digits, 0) == Decimal(digits)
  {
    if digits != "" {
      var front, last := digits[..|digits| - 1], digits[|digits| - 1];
      assert digits == front + [last] && [last][1..] == "";
      DecimalIs(front);
      DigitsValueConcat(front, [last], 0);
    }
  }

  lemma {:induction false} DigitsEnd(s: string, value: nat) returns (j: nat)
    ensures j <= |s| && (forall c :: c in s[..j] ==> IsDigit(c)) && (j < |s| ==> !IsDigit(s[j]))
    ensures DigitsValue(s, value) == DigitsValue(s[..j], value)
    ensures s != "" && IsDigit(s[0]) ==> j > 0
  {
    if s != "" && IsDigit(s[0]) {
      var n := DigitsEnd(s[1..], 10 * value + DigitValue(s[0]));
      j := n + 1;
      assert s[..j] == [s[0]] + s[1..][..n] && s[..j][1..] == s[1..][..n];
    } else {
      j := 0;
    }
  }

  lemma {:induction false} SpacesEnd(s: string) returns (i: nat)
    ensures i <= |s| && SkipSpaces(s) == s[i..] && (forall k :: 0 <= k < i ==> IsSpace(s[k])) && (i < |s| ==> !IsSpace(s[i]))
  {
    if s != "" && IsSpace(s[0]) {
      var n := SpacesEnd(s[1..]);
      i := n + 1;
    } else {
      i := 0;
    }
  }

  /** Where a number can stand is settled. */
  lemma OneNumber(t: string, i: int, d: int, j: int, i': int, d': int, j': int)
    requires NumberAt(t, i, d, j) && NumberAt(t, i', d', j')
    ensures i == i' && d == d' && j == j'
  {
    assert forall k :: d <= k < j ==> t[k] in t[d..j];
    assert forall k :: d' <= k < j' ==> t[k] in t[d'..j'];
    assert !IsSpace(t[i]) && !IsSpace(t[i']);
  }

  /** Where the conversion finds the number, if there is one. */
  lemma NumberFound(t: string) returns (i: int, d: int, j: int)
    ensures 0 <= i <= d <= j <= |t| && (forall k :: 0 <= k < i ==> IsSpace(t[k])) && (i < |t| ==> !IsSpace(t[i]))
    ensures d == if i < |t| && (t[i] == '-' || t[i] == '+') then i + 1 else i
    ensures d < j ==> NumberAt(t, i, d, j) && Stoi(t) == Bounded(ValueAt(t, i, d, j))
    ensures d == j ==> Stoi(t).NoParse? && (d < |t| ==> !IsDigit(t[d]))
  {
    i := SpacesEnd(t);
    d := if i < |t| && (t[i] == '-' || t[i] == '+') then i + 1 else i;
    var digits := t[d..];
    var n := DigitsEnd(digits, 0);
    j := d + n;
    assert digits[..n] == t[d..j];
    DecimalIs(t[d..j]);
  }

  function Bounded(n: int): Parse<int> {
    if INT_MIN <= n <= INT_MAX then Parsed(n) else NoParse
  }

  lemma NumberStarts(t: string, i: int, d: int, i': int, d': int, j': int)
    requires 0 <= i <= d <= |t| && (forall k :: 0 <= k < i ==> IsSpace(t[k])) && (i < |t| ==> !IsSpace(t[i]))
    requires d == (if i < |t| && (t[i] == '-' || t[i] == '+') then i + 1 else i)
    ensures NumberAt(t, i', d', j') ==> i' == i && d' == d < |t| && IsDigit(t[d])
  {
    if NumberAt(t, i', d', j') {
      assert t[d'] in t[d'..j'] && !IsSpace(t[i']);
    }
  }

  lemma NoNumber(t: string, i: int, d: int)
    requires 0 <= i <= d <= |t| && (forall k :: 0 <= k < i ==> IsSpace(t[k])) && (i < |t| ==> !IsSpace(t[i]))
    requires d == (if i < |t| && (t[i] == '-' || t[i] == '+') then i + 1 else i) && (d < |t| ==> !IsDigit(t[d]))
    ensures forall i', d', j' :: !NumberAt(t, i', d', j')
  {
    forall i', d', j'
      ensures NumberAt(t, i', d', j') ==> d' == d < |t| && IsDigit(t[d])
    {
      NumberStarts(t, i, d, i', d', j');
    }
  }

  lemma ParsedIsSaid(t: string, n: int)
    ensures Stoi(t) == Parsed(n) <==> Says(t, n)
  {
    var i, d, j := NumberFound(t);
    if d < j {
      forall i', d', j' | NumberAt(t, i', d', j')
        ensures i' == i && d' == d && j' == j
      {
        OneNumber(t, i, d, j, i', d', j');
      }
    } else {
      NoNumber(t, i, d);
    }
  }

  /** A stretch of the list without commas, between commas or ends. */
  predicate IsPiece(list: string, a: int, b: int) {
    && 0 <= a <= b <= |list| && (a == 0 || list[a - 1] == ',') && (b == |list| || list[b] == ',') && ',' !in list[a..b]
  }

  ghost predicate Lists(list: string, n: int) {
    exists a, b :: IsPiece(list, a, b) && Says(list[a..b], n)
  }

  lemma NothingInNothing(n: int)
    ensures !Lists("", n)
  {
    assert forall a, b :: IsPiece("", a, b) ==> ""[a..b] == "";
  }

  lemma {:induction false} ValuesAreListed(list: string, n: int)
    ensures n in Values(Tokens(list)) <==> Lists(list, n)
    decreases |list|
  {
    if list == "" {
      NothingInNothing(n);
    } else {
      var i := Find(list, ',');
      var tail := if i < |list| then list[i + 1..] else "";
      assert Tokens(list)[1..] == Tokens(tail) && Tokens(list)[0] == list[..i];
      ParsedIsSaid(list[..i], n);
      ValuesAreListed(tail, n);
      PiecesFromFirst(list, i, n);
    }
  }

  lemma LaterPieces(list: string, i: nat, a: int, b: int)
    requires i < |list| && list[i] == ','
    ensures IsPiece(list[i + 1..], a, b) ==> IsPiece(list, i + 1 + a, i + 1 + b) && list[i + 1 + a..i + 1 + b] == list[i + 1..][a..b]
    ensures a > 0 && IsPiece(list, i + a, b) ==>
      IsPiece(list[i + 1..], a - 1, b - i - 1) && list[i + a..b] == list[i + 1..][a - 1..b - i - 1]
  {
    var tail := list[i + 1..];
    if IsPiece(tail, a, b) {
      assert list[i + 1 + a..i + 1 + b] == tail[a..b];
    }
    if a > 0 && IsPiece(list, i + a, b) {
      assert list[i + a..b] == tail[a - 1..b - i - 1];
    }
  }

  lemma FirstPiece(list: string, i: nat, a: int, b: int)
    requires i == Find(list, ',') && IsPiece(list, a, b)
    ensures (a == 0 && b == i) || a > i
  {
    assert forall k :: a <= k < b ==> list[k] in list[a..b];
    assert forall k :: 0 <= k < i ==> list[k] in list[..i];
  }

  lemma FromTail(list: string, i: nat, n: int)
    requires i < |list| && list[i] == ',' && Lists(list[i + 1..], n)
    ensures Lists(list, n)
  {
    var tail := list[i + 1..];
    var a, b :| IsPiece(tail, a, b) && Says(tail[a..b], n);
    LaterPieces(list, i, a, b);
    assert IsPiece(list, i + 1 + a, i + 1 + b);
  }

  lemma FirstOrTail(list: string, i: nat, n: int)
    requires i == Find(list, ',') && Lists(list, n)
    ensures Says(list[..i], n) || (i < |list| && Lists(list[i + 1..], n))
  {
    var a, b :| IsPiece(list, a, b) && Says(list[a..b], n);
    FirstPiece(list, i, a, b);
    if a > i {
      LaterPieces(list, i, a - i, b);
      assert IsPiece(list[i + 1..], a - i - 1, b - i - 1);
    } else {
      assert list[0..i] == list[..i];
    }
  }

  /** The first piece, or one of the rest. */
  lemma PiecesFromFirst(list: string, i: nat, n: int)
    requires list != "" && i == Find(list, ',')
    ensures Lists(list, n) <==> Says(list[..i], n) || (i < |list| && Lists(list[i + 1..], n))
  {
    assert list[0..i] == list[..i] && IsPiece(list, 0, i);
    if i < |list| && Lists(list[i + 1..], n) {
      FromTail(list, i, n);
    }
    if Lists(list, n) {
      FirstOrTail(list, i, n);
    }
  }

  /** Parsed are the integers listed between the first '[' and the first ']', if these come in that order. */
  lemma ParsedAreListed(query: string, i: int, j: int)
    requires 0 <= i < j < |query| && query[i] == '[' && query[j] == ']' && '[' !in query[..i] && ']' !in query[..j]
    ensures forall n :: n in ParseList(query) <==> Lists(query[i + 1..j], n)
  {
    FindIn(query[..i], query[i + 1..], '[');
    FindIn(query[..j], query[j + 1..], ']');
    assert query == query[..i] + "[" + query[i + 1..] && query == query[..j] + "]" + query[j + 1..];
    forall n
      ensures n in ParseList(query) <==> Lists(query[i + 1..j], n)
    {
      ValuesAreListed(query[i + 1..j], n);
    }
  }
}
