/** Rows under their primary keys. */
module KeyedStore {
  // What redoing and undoing a logged change does to one row. A row keeps its primary key, and all
  // rows under one key have the columns of their table.

  import opened Wrappers

  type Row = map<string, int>  // column name to an opaque value

  datatype Key = Key(table: string, primaryKey: int)

  type Store = map<Key, Row>

  /** What a key holds: its row, if there is one. */
  type Cell = Option<Row>

  datatype Change =
    | Insert(row: Row)
    | Delete(row: Row)
    | Update(before: Row, after: Row)

  function Lookup(store: Store, k: Key): Cell {
    if k in store then Some(store[k]) else None
  }

  // ---------- the storage engine, as recovery uses it ----------

  function InsertRow(store: Store, k: Key, row: Row): Store {
    if k in store then store else store[k := row]
  }

  function DeleteRow(store: Store, k: Key): Store {
    store - {k}
  }

  /** Overwrites the given columns of the matching row, if there is one. */
  function UpdateRow(store: Store, k: Key, columns: Row): Store {
    if k in store then store[k := store[k] + columns] else store
  }

  // ---------- one key ----------

  function Redo(c: Cell, change: Change): Cell {
    match change
    case Insert(row) => if c.Some? then c else Some(row)
    case Delete(_) => None
    case Update(_, after) => if c.Some? then Some(c.value + after) else None
  }

  function Undo(c: Cell, change: Change): Cell {
    match change
    case Insert(_) => None
    case Delete(row) => if c.Some? then c else Some(row)
    case Update(before, _) => if c.Some? then Some(c.value + before) else None
  }

  function Replay(c: Cell, changes: seq<Change>): Cell {
    if changes == [] then c
    else Redo(Replay(c, changes[..|changes| - 1]), changes[|changes| - 1])
  }

  /** The latest change is undone first. */
  function UndoAll(c: Cell, changes: seq<Change>): Cell
    decreases |changes|
  {
    if changes == [] then c
    else UndoAll(Undo(c, changes[|changes| - 1]), changes[..|changes| - 1])
  }

  predicate HasColumns(c: Cell, columns: set<string>) {
    c.Some? ==> c.value.Keys == columns
  }

  /** The change was logged by an operation that really ran on c. */
  predicate Fits(c: Cell, change: Change, columns: set<string>) {
    match change
    case Insert(row) => c.None? && row.Keys == columns
    case Delete(row) => c == Some(row)
    case Update(before, after) => c == Some(before) && after.Keys == columns
  }

  /** The changes ran one after the other, starting from c. */
  predicate Chain(c: Cell, changes: seq<Change>, columns: set<string>) {
    && HasColumns(c, columns)
    && (changes == [] ||
        var front := changes[..|changes| - 1];
        Chain(c, front, columns) && Fits(Replay(c, front), changes[|changes| - 1], columns))
  }

  lemma {:induction false} ReplayConcat(c: Cell, a: seq<Change>, b: seq<Change>)
    ensures Replay(c, a + b) == Replay(Replay(c, a), b)
  {
    if b == [] {
      assert a + b == a;
    } else {
      var n := |b| - 1;
      assert (a + b)[..|a + b| - 1] == a + b[..n];
      ReplayConcat(c, a, b[..n]);
    }
  }

  lemma {:induction false} UndoAllConcat(c: Cell, a: seq<Change>, b: seq<Change>)
    ensures UndoAll(c, a + b) == UndoAll(UndoAll(c, b), a)
    decreases |b|
  {
    if b == [] {
      assert a + b == a;
    } else {
      var n := |b| - 1;
      assert (a + b)[..|a + b| - 1] == a + b[..n];
      UndoAllConcat(Undo(c, b[n]), a, b[..n]);
    }
  }

  lemma {:induction false} ChainHasColumns(c: Cell, changes: seq<Change>, columns: set<string>)
    requires Chain(c, changes, columns)
    ensures HasColumns(Replay(c, changes), columns)
  {
    if changes != [] {
      ChainHasColumns(c, changes[..|changes| - 1], columns);
    }
  }

  lemma {:induction false} ChainPrefix(c: Cell, changes: seq<Change>, n: nat, columns: set<string>)
    requires Chain(c, changes, columns) && n <= |changes|
    ensures Chain(c, changes[..n], columns)
  {
    if n < |changes| {
      ChainPrefix(c, changes[..|changes| - 1], n, columns);
      assert changes[..|changes| - 1][..n] == changes[..n];
    } else {
      assert changes[..n] == changes;
    }
  }

  lemma {:induction false} ChainSuffix(c: Cell, a: seq<Change>, b: seq<Change>, columns: set<string>)
    requires Chain(c, a + b, columns)
    ensures Chain(c, a, columns) && Chain(Replay(c, a), b, columns)
  {
    if b == [] {
      assert a + b == a;
      ChainHasColumns(c, a, columns);
    } else {
      var n := |b| - 1;
      assert (a + b)[..|a + b| - 1] == a + b[..n] && (a + b)[|a + b| - 1] == b[n];
      ChainSuffix(c, a, b[..n], columns);
      ReplayConcat(c, a, b[..n]);
    }
  }

  lemma ChainSnoc(c: Cell, changes: seq<Change>, change: Change, columns: set<string>)
    ensures Chain(c, changes + [change], columns) <==>
      Chain(c, changes, columns) && Fits(Replay(c, changes), change, columns)
    ensures Replay(c, changes + [change]) == Redo(Replay(c, changes), change)
  {
    assert (changes + [change])[..|changes|] == changes;
  }

  /** The state after the first p changes. */
  function At(c: Cell, changes: seq<Change>, p: nat): Cell
    requires p <= |changes|
  {
    Replay(c, changes[..p])
  }

  /** Undoing every change, whichever prefix of them has taken effect, leads back to the start. */
  lemma {:induction false} UndoFromAnyPoint(c: Cell, changes: seq<Change>, p: nat, columns: set<string>)
    requires Chain(c, changes, columns) && p <= |changes|
    ensures UndoAll(At(c, changes, p), changes) == c
  {
    if changes == [] {
    } else {
      var n := |changes| - 1;
      var front, last := changes[..n], changes[n];
      var now := At(c, changes, p);
      ChainPrefix(c, changes, p, columns);
      ChainHasColumns(c, changes[..p], columns);
      ChainHasColumns(c, front, columns);
      assert changes[..|changes|] == changes;
      if p <= n && (match last case Insert(_) => false case _ => now.Some? == last.Delete?) {
        assert front[..p] == changes[..p];
        UndoFromAnyPoint(c, front, p, columns);
      } else {
        UndoOnePastState(now, Replay(c, front), last, columns, p == |changes|);
        assert front[..n] == front;
        UndoFromAnyPoint(c, front, n, columns);
      }
    }
  }

  /** Undoing a change gives the state before it, from the state after it and from any other
      state in which the undo is not a no-op. */
  lemma UndoOnePastState(now: Cell, before: Cell, change: Change, columns: set<string>, applied: bool)
    requires HasColumns(now, columns) && HasColumns(before, columns) && Fits(before, change, columns)
    requires applied ==> now == Redo(before, change)
    requires !applied && !change.Insert? ==> now.Some? != change.Delete?
    ensures Undo(now, change) == before
  {
    if change.Update? {
      assert now.value + change.before == change.before;
    }
  }

  /** Redoing a change gives the state after it, from any state in which the redo is not a no-op. */
  lemma RedoReaches(now: Cell, before: Cell, change: Change, columns: set<string>)
    requires HasColumns(now, columns) && HasColumns(before, columns) && Fits(before, change, columns)
    requires now == before || (if change.Insert? then now.None? else change.Update? ==> now.Some?)
    ensures Redo(now, change) == Redo(before, change)
  {
    if change.Update? {
      assert now.value + change.after == change.after == before.value + change.after;
    }
  }

  /** Redoing the first j changes from any point leads to a point at or past j. */
  lemma {:induction false} RedoFromAnyPoint(c: Cell, changes: seq<Change>, p: nat, j: nat, columns: set<string>) returns (q: nat)
    requires Chain(c, changes, columns) && p <= |changes| && j <= |changes|
    ensures j <= q <= |changes|
    ensures Replay(At(c, changes, p), changes[..j]) == At(c, changes, q)
  {
    if j == 0 {
      q := p;
    } else {
      var q' := RedoFromAnyPoint(c, changes, p, j - 1, columns);
      assert changes[..j][..j - 1] == changes[..j - 1];
      ChainPrefix(c, changes, j, columns);
      ChainPrefix(c, changes, q', columns);
      ChainHasColumns(c, changes[..q'], columns);
      var now, change := At(c, changes, q'), changes[j - 1];
      if q' >= j && (if change.Insert? then now.Some? else change.Update? && now.None?) {
        q := q';
      } else {
        q := j;
        var front := changes[..j][..j - 1];
        ChainHasColumns(c, front, columns);
        RedoReaches(now, Replay(c, front), change, columns);
      }
    }
  }

  /** A point at or past the winners is a point among the losers. */
  lemma AmongLosers(c: Cell, winners: seq<Change>, losers: seq<Change>, q: nat)
    requires |winners| <= q <= |winners| + |losers|
    ensures At(c, winners + losers, q) == At(Replay(c, winners), losers, q - |winners|)
  {
    assert (winners + losers)[..q] == winners + losers[..q - |winners|];
    ReplayConcat(c, winners, losers[..q - |winners|]);
  }

  /** Recovery of one key: redo the winners' changes, then undo the losers', from any state the
      disk can have between the checkpoint and the crash. */
  lemma CellRecovery(c: Cell, winners: seq<Change>, losers: seq<Change>, p: nat, columns: set<string>)
    requires Chain(c, winners + losers, columns) && p <= |winners| + |losers|
    ensures UndoAll(Replay(At(c, winners + losers, p), winners), losers) == Replay(c, winners)
  {
    var q := RedoFromAnyPoint(c, winners + losers, p, |winners|, columns);
    assert (winners + losers)[..|winners|] == winners;
    AmongLosers(c, winners, losers, q);
    ChainSuffix(c, winners, losers, columns);
    UndoFromAnyPoint(Replay(c, winners), losers, q - |winners|, columns);
  }

  // ---------- when recovery of one key succeeds, from any state at all ----------

  /** Whether a row is there after the redo, given whether one was there before. */
  predicate PresentAfter(present: bool, changes: seq<Change>) {
    if changes == [] then present
    else
      match changes[|changes| - 1]
      case Insert(_) => true
      case Delete(_) => false
      case Update(_, _) => PresentAfter(present, changes[..|changes| - 1])
  }

  /** Whether a row is there after the undo, given whether one was there before. */
  predicate PresentBefore(present: bool, changes: seq<Change>) {
    if changes == [] then present
    else
      match changes[0]
      case Insert(_) => false
      case Delete(_) => true
      case Update(_, _) => PresentBefore(present, changes[1..])
  }

  /** The redo makes up for x not being c: its last change is a delete, or an update of some row, or
      an insert that does not find another row. */
  predicate RedoRepairs(x: Cell, c: Cell, changes: seq<Change>) {
    if changes == [] then x == c
    else
      match changes[|changes| - 1]
      case Insert(row) => |changes| > 1 || x.None? || x == Some(row)
      case Delete(_) => true
      case Update(_, _) => PresentAfter(x.Some?, changes[..|changes| - 1])
  }

  /** Redo then undo makes up for x not being c. What counts is the losers' first change, undone last. */
  predicate RecoveryRepairs(x: Cell, c: Cell, winners: seq<Change>, losers: seq<Change>) {
    if losers == [] then RedoRepairs(x, c, winners)
    else
      match losers[0]
      case Insert(_) => true
      case Delete(_) => |losers| > 1 || !PresentAfter(x.Some?, winners) || RedoRepairs(x, c, winners)
      case Update(_, _) => PresentBefore(PresentAfter(x.Some?, winners), losers[1..])
  }

  /** Redone from any state whatever, the changes lead where they led from c if and only if they
      repair it. */
  lemma {:induction false} RedoFromAnyState(x: Cell, c: Cell, changes: seq<Change>, columns: set<string>)
    requires HasColumns(x, columns) && Chain(c, changes, columns)
    ensures HasColumns(Replay(x, changes), columns) && HasColumns(Replay(c, changes), columns)
    ensures Replay(x, changes).Some? <==> PresentAfter(x.Some?, changes)
    ensures Replay(x, changes) == Replay(c, changes) <==> RedoRepairs(x, c, changes)
  {
    if changes != [] {
      var n := |changes| - 1;
      var front, change := changes[..n], changes[n];
      RedoFromAnyState(x, c, front, columns);
      var now, before := Replay(x, front), Replay(c, front);
      match change
      case Delete(_) =>
      case Update(_, after) =>
        assert now.Some? ==> now.value + after == after;
        assert before.value + after == after;
      case Insert(_) =>
        if front != [] {
          assert front[n - 1].Delete?;
        }
    }
  }

  /** The same for the undo: only its last step, the first change, matters. */
  lemma {:induction false} UndoFromAnyState(y: Cell, c: Cell, changes: seq<Change>, columns: set<string>)
    requires HasColumns(y, columns) && Chain(c, changes, columns)
    ensures HasColumns(UndoAll(y, changes), columns)
    ensures UndoAll(y, changes).Some? <==> PresentBefore(y.Some?, changes)
    ensures changes != [] ==> (UndoAll(y, changes) == c <==>
      match changes[0]
      case Insert(_) => true
      case Delete(_) => |changes| > 1 || y.None? || y == c
      case Update(_, _) => PresentBefore(y.Some?, changes[1..]))
    decreases |changes|
  {
    if changes != [] {
      var first, rest := changes[..1], changes[1..];
      assert changes == first + rest && first[..0] == [];
      ChainSuffix(c, first, rest, columns);
      var next := Replay(c, first);
      assert next == Redo(c, changes[0]) && Fits(c, changes[0], columns) by {
        assert Chain(c, first[..0], columns) && Replay(c, first[..0]) == c;
      }
      UndoFromAnyState(y, next, rest, columns);
      UndoAllFirst(y, changes);
      var now := UndoAll(y, rest);
      match changes[0]
      case Insert(_) =>
      case Update(before, _) =>
        assert now.Some? ==> now.value + before == before;
      case Delete(_) =>
        if rest != [] {
          assert Fits(next, rest[0], columns) by {
            ChainPrefix(next, rest, 1, columns);
            assert rest[..1][..0] == [];
          }
        }
    }
  }

  lemma UndoAllFirst(y: Cell, changes: seq<Change>)
    requires changes != []
    ensures UndoAll(y, changes) == Undo(UndoAll(y, changes[1..]), changes[0])
  {
    UndoAllConcat(y, changes[..1], changes[1..]);
    assert changes == changes[..1] + changes[1..];
    var now := UndoAll(y, changes[1..]);
    assert UndoAll(now, changes[..1]) == UndoAll(Undo(now, changes[0]), changes[..1][..0]);
  }

  /** Recovery of one key, from any state whatever: it gives the winners' value if and only if it
      repairs that state. */
  lemma CellIsRecovered(x: Cell, c: Cell, winners: seq<Change>, losers: seq<Change>, columns: set<string>)
    requires HasColumns(x, columns) && Chain(c, winners + losers, columns)
    ensures UndoAll(Replay(x, winners), losers) == Replay(c, winners) <==> RecoveryRepairs(x, c, winners, losers)
  {
    ChainSuffix(c, winners, losers, columns);
    RedoFromAnyState(x, c, winners, columns);
    UndoFromAnyState(Replay(x, winners), Replay(c, winners), losers, columns);
  }
}
