/** Tables as lists of rows. */
module PagedTable {
  // What insert, update, delete and scan do page by page over the buffer pool is what they would do
  // to one list.

  import opened Binary
  import opened Collections
  import opened PageCodec
  import opened BufferPool

  // ---------- operations on one list of rows ----------

  function Project(row: Row, columns: seq<string>): Row {
    if "*" in columns then row else map c | c in columns && c in row :: row[c]
  }

  /** The named columns for which there is a new value. */
  function Overwrite(row: Row, columns: seq<string>, newValue: Row): Row {
    row + map c | c in columns && c in newValue :: newValue[c]
  }

  /** What an operation makes of each row. */
  type PerRow = Row -> seq<Row>

  function Deleting(matches: Row -> bool): PerRow {
    row => if matches(row) then [] else [row]
  }

  function Updated(matches: Row -> bool, columns: seq<string>, newValue: Row, row: Row): Row {
    if matches(row) then Overwrite(row, columns, newValue) else row
  }

  function Updating(matches: Row -> bool, columns: seq<string>, newValue: Row): PerRow {
    row => [Updated(matches, columns, newValue, row)]
  }

  function Scanning(matches: Row -> bool, columns: seq<string>): PerRow {
    row => if matches(row) then [Project(row, columns)] else []
  }

  function Each(f: PerRow, rows: seq<Row>): seq<Row> {
    if rows == [] then [] else Each(f, rows[..|rows| - 1]) + f(rows[|rows| - 1])
  }

  function Count(matches: Row -> bool, rows: seq<Row>): nat {
    if rows == [] then 0 else Count(matches, rows[..|rows| - 1]) + if matches(rows[|rows| - 1]) then 1 else 0
  }

  lemma {:induction false} EachConcat(f: PerRow, a: seq<Row>, b: seq<Row>)
    ensures Each(f, a + b) == Each(f, a) + Each(f, b)
  {
    if b == [] {
      assert a + b == a;
    } else {
      assert (a + b)[..|a + b| - 1] == a + b[..|b| - 1];
      EachConcat(f, a, b[..|b| - 1]);
    }
  }

  lemma {:induction false} CountConcat(matches: Row -> bool, a: seq<Row>, b: seq<Row>)
    ensures Count(matches, a + b) == Count(matches, a) + Count(matches, b)
  {
    if b == [] {
      assert a + b == a;
    } else {
      assert (a + b)[..|a + b| - 1] == a + b[..|b| - 1];
      CountConcat(matches, a, b[..|b| - 1]);
    }
  }

  lemma EachSnoc(f: PerRow, matches: Row -> bool, rows: seq<Row>, i: nat)
    requires i < |rows|
    ensures Each(f, rows[..i + 1]) == Each(f, rows[..i]) + f(rows[i])
    ensures Count(matches, rows[..i + 1]) == Count(matches, rows[..i]) + if matches(rows[i]) then 1 else 0
  {
    assert rows[..i + 1][..i] == rows[..i];
  }

  lemma EachCons(f: PerRow, matches: Row -> bool, row: Row, rows: seq<Row>)
    ensures Each(f, [row] + rows) == f(row) + Each(f, rows)
    ensures Count(matches, [row] + rows) == (if matches(row) then 1 else 0) + Count(matches, rows)
  {
    EachConcat(f, [row], rows);
    CountConcat(matches, [row], rows);
    assert [row][..0] == [];
    assert [] + f(row) == f(row);
  }

  lemma {:induction false} DeleteKeepsFit(matches: Row -> bool, rows: seq<Row>, schema: Schema)
    requires PageFits(rows, schema)
    ensures PageFits(Each(Deleting(matches), rows), schema)
  {
    DeletedSize(matches, rows, schema);
    var left := Each(Deleting(matches), rows);
    forall i | 0 <= i < |left|
      ensures Complete(left[i], schema)
    {
      assert left[i] in rows;
    }
  }

  lemma {:induction false} DeletedSize(matches: Row -> bool, rows: seq<Row>, schema: Schema)
    ensures Size(Each(Deleting(matches), rows), schema) <= Size(rows, schema)
    ensures forall row :: row in Each(Deleting(matches), rows) <==> row in rows && !matches(row)
  {
    if rows != [] {
      var front, row := rows[..|rows| - 1], rows[|rows| - 1];
      assert rows == front + [row];
      SizeConcat(front, [row], schema);
      DeletedSize(matches, front, schema);
      SizeConcat(Each(Deleting(matches), front), Deleting(matches)(row), schema);
    }
  }

  // ---------- the operations, row by row ----------

  /** The named columns that have a new value have it; the other columns are as they were. */
  ghost predicate RowUpdated(row: Row, row': Row, columns: seq<string>, newValue: Row) {
    forall c :: if c in columns && c in newValue then c in row' && row'[c] == newValue[c]
                else (c in row' <==> c in row) && (c in row ==> row'[c] == row[c])
  }

  /** The matching rows are updated in their places. */
  ghost predicate ListUpdated(matches: Row -> bool, columns: seq<string>, newValue: Row, rows: seq<Row>, rows': seq<Row>) {
    && |rows'| == |rows|
    && forall i :: 0 <= i < |rows| ==>
         if matches(rows[i]) then RowUpdated(rows[i], rows'[i], columns, newValue) else rows'[i] == rows[i]
  }

  /** places[i] says how many of the first i rows match, or how many do not. */
  ghost predicate Places(matches: Row -> bool, wanted: bool, rows: seq<Row>, places: seq<nat>) {
    && |places| == |rows| + 1 && places[0] == 0
    && forall i :: 0 <= i < |rows| ==> places[i + 1] == places[i] + if matches(rows[i]) == wanted then 1 else 0
  }

  ghost predicate Counted(matches: Row -> bool, rows: seq<Row>, count: int) {
    exists places :: Places(matches, true, rows, places) && count == places[|rows|]
  }

  /** The rows that do not match are left, in their order. */
  ghost predicate ListDeleted(matches: Row -> bool, rows: seq<Row>, rows': seq<Row>) {
    exists places :: DeletedAt(matches, rows, rows', places)
  }

  ghost predicate DeletedAt(matches: Row -> bool, rows: seq<Row>, rows': seq<Row>, places: seq<nat>) {
    && Places(matches, false, rows, places) && |rows'| == places[|rows|]
    && forall i :: 0 <= i < |rows| && !matches(rows[i]) ==> places[i] < |rows'| && rows'[places[i]] == rows[i]
  }

  /** The row itself, or those of the columns that it has. */
  ghost predicate RowProjected(row: Row, row': Row, columns: seq<string>) {
    if "*" in columns then row' == row
    else forall c :: (c in row' <==> c in columns && c in row) && (c in row' ==> row'[c] == row[c])
  }

  /** The rows that match, projected, in their order. */
  ghost predicate ListScanned(matches: Row -> bool, columns: seq<string>, rows: seq<Row>, found: seq<Row>) {
    exists places :: ScannedAt(matches, columns, rows, found, places)
  }

  ghost predicate ScannedAt(matches: Row -> bool, columns: seq<string>, rows: seq<Row>, found: seq<Row>, places: seq<nat>) {
    && Places(matches, true, rows, places) && |found| == places[|rows|]
    && forall i :: 0 <= i < |rows| && matches(rows[i]) ==>
         places[i] < |found| && RowProjected(rows[i], found[places[i]], columns)
  }

  lemma {:induction false} UpdatingUpdates(matches: Row -> bool, columns: seq<string>, newValue: Row, rows: seq<Row>)
    ensures ListUpdated(matches, columns, newValue, rows, Each(Updating(matches, columns, newValue), rows))
  {
    if rows != [] {
      UpdatingUpdates(matches, columns, newValue, rows[..|rows| - 1]);
    }
  }

  /** One row more at the end. */
  lemma OnePlaceMore(matches: Row -> bool, wanted: bool, rows: seq<Row>, places: seq<nat>, row: Row) returns (places': seq<nat>)
    requires Places(matches, wanted, rows, places)
    ensures Places(matches, wanted, rows + [row], places') && places'[..|places|] == places
  {
    places' := places + [places[|rows|] + if matches(row) == wanted then 1 else 0];
  }

  lemma DeletedMore(matches: Row -> bool, rows: seq<Row>, left: seq<Row>, places: seq<nat>, row: Row) returns (places': seq<nat>)
    requires DeletedAt(matches, rows, left, places)
    ensures DeletedAt(matches, rows + [row], if matches(row) then left else left + [row], places')
  {
    places' := OnePlaceMore(matches, false, rows, places, row);
    assert forall i :: 0 <= i <= |rows| ==> places'[i] == places[i];
  }

  lemma {:induction false} DeletingDeletes(matches: Row -> bool, rows: seq<Row>) returns (places: seq<nat>)
    ensures DeletedAt(matches, rows, Each(Deleting(matches), rows), places)
  {
    if rows == [] {
      places := [0];
    } else {
      var front, row := rows[..|rows| - 1], rows[|rows| - 1];
      var left := Each(Deleting(matches), front);
      places := DeletingDeletes(matches, front);
      places := DeletedMore(matches, front, left, places, row);
      assert rows == front + [row] && left + [] == left;
    }
  }

  lemma ProjectProjects(row: Row, columns: seq<string>)
    ensures RowProjected(row, Project(row, columns), columns)
  {
  }

  lemma ScannedMore(matches: Row -> bool, columns: seq<string>, rows: seq<Row>, found: seq<Row>, places: seq<nat>, row: Row, row': Row)
    returns (places': seq<nat>)
    requires ScannedAt(matches, columns, rows, found, places) && RowProjected(row, row', columns)
    ensures ScannedAt(matches, columns, rows + [row], if matches(row) then found + [row'] else found, places')
  {
    places' := OnePlaceMore(matches, true, rows, places, row);
    assert forall i :: 0 <= i <= |rows| ==> places'[i] == places[i];
  }

  lemma {:induction false} ScanningScans(matches: Row -> bool, columns: seq<string>, rows: seq<Row>) returns (places: seq<nat>)
    ensures ScannedAt(matches, columns, rows, Each(Scanning(matches, columns), rows), places)
  {
    if rows == [] {
      places := [0];
    } else {
      var front, row := rows[..|rows| - 1], rows[|rows| - 1];
      var found := Each(Scanning(matches, columns), front);
      places := ScanningScans(matches, columns, front);
      ProjectProjects(row, columns);
      places := ScannedMore(matches, columns, front, found, places, row, Project(row, columns));
      assert rows == front + [row] && found + [] == found;
    }
  }

  lemma {:induction false} CountCounts(matches: Row -> bool, rows: seq<Row>) returns (places: seq<nat>)
    ensures Places(matches, true, rows, places) && Count(matches, rows) == places[|rows|]
  {
    if rows == [] {
      places := [0];
    } else {
      var front, row := rows[..|rows| - 1], rows[|rows| - 1];
      places := CountCounts(matches, front);
      places := OnePlaceMore(matches, true, front, places, row);
      assert rows == front + [row];
    }
  }

  lemma DeleteIsDone(matches: Row -> bool, rows: seq<Row>)
    ensures ListDeleted(matches, rows, Each(Deleting(matches), rows)) && Counted(matches, rows, Count(matches, rows))
  {
    var places := DeletingDeletes(matches, rows);
    var counts := CountCounts(matches, rows);
  }

  lemma UpdateIsDone(matches: Row -> bool, columns: seq<string>, newValue: Row, rows: seq<Row>)
    ensures ListUpdated(matches, columns, newValue, rows, Each(Updating(matches, columns, newValue), rows))
    ensures Counted(matches, rows, Count(matches, rows))
  {
    UpdatingUpdates(matches, columns, newValue, rows);
    var counts := CountCounts(matches, rows);
  }

  lemma ScanIsDone(matches: Row -> bool, columns: seq<string>, rows: seq<Row>)
    ensures ListScanned(matches, columns, rows, Each(Scanning(matches, columns), rows))
  {
    var places := ScanningScans(matches, columns, rows);
  }

  // ---------- one page ----------

  lemma EraseMiddle(a: seq<Row>, row: Row, b: seq<Row>)
    ensures var all := a + [row] + b; all[|a|] == row && all[..|a|] + all[|a| + 1..] == a + b && a + ([row] + b) == all
  {
  }

  lemma UpdateStep(done: seq<Row>, rows: seq<Row>, i: nat, row: Row)
    requires |done| == i < |rows|
    ensures var all := done + rows[i..];
      all[i] == rows[i] && all[i := row] == (done + [row]) + rows[i + 1..] && all == (done + [rows[i]]) + rows[i + 1..]
  {
  }

  /** The loop backwards over a page's rows that erases the matches. */
  method DeleteFromPage(rows: seq<Row>, matches: Row -> bool) returns (left: seq<Row>, count: nat)
    ensures left == Each(Deleting(matches), rows) && count == Count(matches, rows)
    ensures ListDeleted(matches, rows, left) && Counted(matches, rows, count)
  {
    left, count := rows, 0;
    ghost var f := Deleting(matches);
    var i := |rows|;
    assert rows[..i] == rows && rows[i..] == [];
    while i > 0
      invariant 0 <= i <= |rows| && left == rows[..i] + Each(f, rows[i..]) && count == Count(matches, rows[i..])
    {
      i := i - 1;
      assert rows[i..] == [rows[i]] + rows[i + 1..] && rows[..i + 1] == rows[..i] + [rows[i]];
      EachCons(f, matches, rows[i], rows[i + 1..]);
      EraseMiddle(rows[..i], rows[i], Each(f, rows[i + 1..]));
      if matches(left[i]) {
        left := left[..i] + left[i + 1..];
        count := count + 1;
      }
    }
    DeleteIsDone(matches, rows);
  }

  /** The loop forwards that overwrites the matches in place. */
  method UpdatePage(rows: seq<Row>, matches: Row -> bool, columns: seq<string>, newValue: Row)
    returns (updated: seq<Row>, count: nat)
    ensures updated == Each(Updating(matches, columns, newValue), rows) && count == Count(matches, rows)
    ensures ListUpdated(matches, columns, newValue, rows, updated) && Counted(matches, rows, count)
  {
    updated, count := rows, 0;
    ghost var f := Updating(matches, columns, newValue);
    ghost var done: seq<Row> := [];
    var i := 0;
    while i < |rows|
      invariant 0 <= i <= |rows| && |done| == i && done == Each(f, rows[..i])
      invariant updated == done + rows[i..] && count == Count(matches, rows[..i])
    {
      EachSnoc(f, matches, rows, i);
      ghost var row := Updated(matches, columns, newValue, rows[i]);
      UpdateStep(done, rows, i, row);
      if matches(updated[i]) {
        updated := updated[i := Overwrite(updated[i], columns, newValue)];
        count := count + 1;
      }
      done := done + [row];
      i := i + 1;
    }
    assert rows[..i] == rows;
    UpdateIsDone(matches, columns, newValue, rows);
  }

  method ScanPage(rows: seq<Row>, matches: Row -> bool, columns: seq<string>) returns (found: seq<Row>)
    ensures found == Each(Scanning(matches, columns), rows) && ListScanned(matches, columns, rows, found)
  {
    found := [];
    ghost var f := Scanning(matches, columns);
    var i := 0;
    while i < |rows|
      invariant 0 <= i <= |rows| && found == Each(f, rows[..i])
    {
      EachSnoc(f, matches, rows, i);
      if matches(rows[i]) {
        found := found + [Project(rows[i], columns)];
      }
      i := i + 1;
    }
    assert rows[..i] == rows;
    ScanIsDone(matches, columns, rows);
  }

  method TotalSize(rows: seq<Row>, schema: Schema) returns (size: nat)
    ensures size == Size(rows, schema)
  {
    size := 0;
    var i := 0;
    while i < |rows|
      invariant 0 <= i <= |rows| && size + Size(rows[i..], schema) == Size(rows, schema)
    {
      assert rows[i..][1..] == rows[i + 1..];
      size := size + EstimateRowSize(rows[i], schema);
      i := i + 1;
    }
  }

  // ---------- the table as one list ----------

  /** The rows of the first n pages. */
  ghost function RowsUpTo(view: View, table: string, n: nat): seq<Row> {
    if n == 0 then [] else RowsUpTo(view, table, n - 1) + view(PageKey(table, n - 1))
  }

  ghost predicate NothingFrom(view: View, table: string, n: int) {
    forall id: int :: n <= id ==> view(PageKey(table, id)) == []
  }

  /** The table's rows are those of its first n pages, and there are no others. */
  ghost predicate Holds(view: View, table: string, rows: seq<Row>, n: nat) {
    rows == RowsUpTo(view, table, n) && NothingFrom(view, table, n)
  }

  lemma {:induction false} RowsBeyond(view: View, table: string, m: nat, n: nat)
    requires m <= n && NothingFrom(view, table, m)
    ensures RowsUpTo(view, table, n) == RowsUpTo(view, table, m)
  {
    if m < n {
      RowsBeyond(view, table, m, n - 1);
    }
  }

  /** The rows do not depend on how far one reads, once beyond the last page. */
  lemma RowsAt(view: View, table: string, rows: seq<Row>, n: nat, m: nat)
    requires Holds(view, table, rows, n) && NothingFrom(view, table, m)
    ensures rows == RowsUpTo(view, table, m)
  {
    if n < m {
      RowsBeyond(view, table, n, m);
    } else {
      RowsBeyond(view, table, m, n);
    }
  }

  /** A table holds one list. */
  lemma HoldsOneList(view: View, table: string, rows: seq<Row>, n: nat, rows': seq<Row>, n': nat)
    requires Holds(view, table, rows, n) && Holds(view, table, rows', n')
    ensures rows == rows'
  {
    RowsAt(view, table, rows, n, n');
  }

  /** The first p pages of the table are as the operation makes them, all else is as before. */
  ghost predicate PagesChanged(view: View, view': View, table: string, p: nat, f: PerRow) {
    forall k :: view'(k) == if k.table == table && 0 <= k.id < p then Each(f, view(k)) else view(k)
  }

  ghost predicate OtherTables(view: View, view': View, table: string) {
    forall k: PageKey :: k.table != table ==> view'(k) == view(k)
  }

  /** The first p pages are changed, and the count is of their matches. */
  ghost predicate Swept(view: View, view': View, table: string, p: nat, f: PerRow, matches: Row -> bool, count: nat) {
    PagesChanged(view, view', table, p, f) && count == Count(matches, RowsUpTo(view, table, p))
  }

  /** What a scan of the first p pages finds. */
  ghost predicate ScannedUpTo(view: View, table: string, f: PerRow, p: nat, found: seq<Row>) {
    found == Each(f, RowsUpTo(view, table, p))
  }

  lemma NothingScanned(view: View, table: string, f: PerRow)
    ensures ScannedUpTo(view, table, f, 0, [])
  {
  }

  ghost predicate RowAdded(view: View, view': View, k: PageKey, row: Row) {
    forall other :: view'(other) == if other == k then view(k) + [row] else view(other)
  }

  lemma RowIsAdded(view: View, k: PageKey, row: Row)
    ensures RowAdded(view, WithRows(view, k, view(k) + [row]), k, row)
  {
  }

  lemma NothingSwept(view: View, table: string, f: PerRow, matches: Row -> bool)
    ensures Swept(view, view, table, 0, f, matches, 0)
  {
  }

  ghost predicate PageChanged(view: View, view': View, k: PageKey, f: PerRow) {
    forall other :: view'(other) == if other == k then Each(f, view(k)) else view(other)
  }

  /** One page is changed and its matches counted, or nothing is. */
  ghost predicate PageDone(view: View, view': View, k: PageKey, f: PerRow, matches: Row -> bool, count: nat, ok: bool) {
    if ok then PageChanged(view, view', k, f) && count == Count(matches, view(k)) else view' == view && count == 0
  }

  lemma NextPage(view: View, view1: View, view2: View, table: string, p: nat, f: PerRow, matches: Row -> bool, count: nat, more: nat, ok: bool)
    requires Swept(view, view1, table, p, f, matches, count) && PageDone(view1, view2, PageKey(table, p), f, matches, more, ok)
    ensures Swept(view, view2, table, if ok then p + 1 else p, f, matches, count + more)
  {
    if ok {
      NextChanged(view, view1, view2, table, p, f);
      AtPage(view, view1, table, p, f, matches, count);
      CountConcat(matches, RowsUpTo(view, table, p), view(PageKey(table, p)));
    }
  }

  lemma NextChanged(view: View, view1: View, view2: View, table: string, p: nat, f: PerRow)
    requires PagesChanged(view, view1, table, p, f) && PageChanged(view1, view2, PageKey(table, p), f)
    ensures PagesChanged(view, view2, table, p + 1, f)
  {
    forall k
      ensures view2(k) == if k.table == table && 0 <= k.id < p + 1 then Each(f, view(k)) else view(k)
    {
      assert k.table == table && k.id == p ==> k == PageKey(table, p);
    }
  }

  lemma AtPage(view: View, view1: View, table: string, p: nat, f: PerRow, matches: Row -> bool, count: nat)
    requires Swept(view, view1, table, p, f, matches, count)
    ensures view1(PageKey(table, p)) == view(PageKey(table, p))
  {
  }

  lemma {:induction false} EachPage(view: View, view': View, table: string, f: PerRow, n: nat)
    requires forall id: nat :: id < n ==> view'(PageKey(table, id)) == Each(f, view(PageKey(table, id)))
    ensures RowsUpTo(view', table, n) == Each(f, RowsUpTo(view, table, n))
  {
    if n > 0 {
      EachPage(view, view', table, f, n - 1);
      EachConcat(f, RowsUpTo(view, table, n - 1), view(PageKey(table, n - 1)));
    }
  }

  /** An operation on every page is the operation on the list. */
  lemma AllPages(view: View, view': View, table: string, p: nat, f: PerRow, matches: Row -> bool, count: nat, rows: seq<Row>, n: nat)
    requires Swept(view, view', table, p, f, matches, count) && NothingFrom(view, table, p) && Holds(view, table, rows, n)
    ensures Holds(view', table, Each(f, rows), p) && count == Count(matches, rows)
  {
    RowsAt(view, table, rows, n, p);
    EachPage(view, view', table, f, p);
  }

  /** One row more on the last page, or on a new page behind it. */
  lemma OneMore(view: View, table: string, row: Row, last: nat, rows: seq<Row>, n: nat)
    requires Holds(view, table, rows, n) && NothingFrom(view, table, last + 1)
    ensures Holds(WithRows(view, PageKey(table, last), view(PageKey(table, last)) + [row]), table, rows + [row], last + 1)
  {
    var k := PageKey(table, last);
    var view' := WithRows(view, k, view(k) + [row]);
    RowsAt(view, table, rows, n, last + 1);
    SameUpTo(view, view', table, last);
    assert RowsUpTo(view, table, last) + (view(k) + [row]) == RowsUpTo(view, table, last) + view(k) + [row];
  }

  lemma {:induction false} SameUpTo(view: View, view': View, table: string, n: nat)
    requires forall id: nat :: id < n ==> view'(PageKey(table, id)) == view(PageKey(table, id))
    ensures RowsUpTo(view', table, n) == RowsUpTo(view, table, n)
  {
    if n > 0 {
      SameUpTo(view, view', table, n - 1);
    }
  }

  lemma {:induction false} NothingDeleted(matches: Row -> bool, rows: seq<Row>)
    requires Count(matches, rows) == 0
    ensures Each(Deleting(matches), rows) == rows
  {
    if rows != [] {
      NothingDeleted(matches, rows[..|rows| - 1]);
      assert rows == rows[..|rows| - 1] + [rows[|rows| - 1]];
    }
  }

  lemma {:induction false} NothingUpdated(matches: Row -> bool, columns: seq<string>, newValue: Row, rows: seq<Row>)
    requires Count(matches, rows) == 0
    ensures Each(Updating(matches, columns, newValue), rows) == rows
  {
    if rows != [] {
      NothingUpdated(matches, columns, newValue, rows[..|rows| - 1]);
      assert rows == rows[..|rows| - 1] + [rows[|rows| - 1]];
    }
  }

  // ---------- pins and fit ----------

  function Pins(pool: Pool, k: PageKey): int {
    if k in pool then pool[k].pinCount else 0
  }

  ghost predicate SamePins(pool: Pool, pool': Pool) {
    forall k :: Pins(pool', k) == Pins(pool, k)
  }

  /** k is pinned d times more. */
  ghost predicate PinnedAt(pool: Pool, pool': Pool, k: PageKey, d: int) {
    forall other :: Pins(pool', other) == Pins(pool, other) + if other == k then d else 0
  }

  lemma GotPage(pool: Pool, pool': Pool, k: PageKey)
    requires k in pool' && pool'[k].pinCount == Pins(pool, k) + 1 && OthersKept(pool, pool', k)
    ensures PinnedAt(pool, pool', k, 1)
  {
  }

  lemma PinnedAndBack(pool: Pool, pool1: Pool, pool2: Pool, k: PageKey)
    requires PinnedAt(pool, pool1, k, 1) && PinnedAt(pool1, pool2, k, -1)
    ensures SamePins(pool, pool2)
  {
  }

  // ---------- when a page cannot be had ----------

  /** The pool is full, and all its pages are pinned. */
  ghost predicate Stuck(pool: Pool, capacity: nat) {
    |pool| >= capacity && forall k :: k in pool ==> pool[k].pinCount != 0
  }

  ghost predicate Obtainable(pool: Pool, capacity: nat, k: PageKey) {
    k in pool || !Stuck(pool, capacity)
  }

  lemma {:induction false} FullSubset<T>(a: set<T>, b: set<T>)
    requires a <= b && |a| >= |b|
    ensures a == b
  {
    if a != b {
      var x :| x in b && x !in a;
      SubsetSize(a, b - {x});
    }
  }

  lemma StuckStays(pool: Pool, pool': Pool, capacity: nat)
    requires SamePins(pool, pool') && Stuck(pool, capacity) && |pool'| <= capacity
    ensures Stuck(pool', capacity) && pool'.Keys == pool.Keys
  {
    forall k | k in pool
      ensures k in pool'
    {
      assert Pins(pool', k) == Pins(pool, k) != 0;
    }
    FullSubset(pool.Keys, pool'.Keys);
    forall k | k in pool'
      ensures pool'[k].pinCount != 0
    {
      assert k in pool && Pins(pool', k) == Pins(pool, k);
    }
  }

  /** While the pins stay, so does what can be had. */
  lemma SameObtainable(pool: Pool, pool': Pool, capacity: nat, k: PageKey)
    requires SamePins(pool, pool') && |pool| <= capacity && |pool'| <= capacity
    ensures Stuck(pool, capacity) <==> Stuck(pool', capacity)
    ensures Obtainable(pool, capacity, k) <==> Obtainable(pool', capacity, k)
  {
    if Stuck(pool, capacity) {
      StuckStays(pool, pool', capacity);
    } else if Stuck(pool', capacity) {
      StuckStays(pool', pool, capacity);
    }
  }

  ghost predicate AllObtainable(pool: Pool, capacity: nat, table: string, n: int) {
    forall id :: 0 <= id < n ==> Obtainable(pool, capacity, PageKey(table, id))
  }

  /** The pages before id could be had, and id could not if `ok` is false. */
  ghost predicate Reached(pool: Pool, pool': Pool, capacity: nat, table: string, id: int, ok: bool) {
    && SamePins(pool, pool') && |pool| <= capacity
    && AllObtainable(pool, capacity, table, id) && (!ok ==> !Obtainable(pool, capacity, PageKey(table, id)))
  }

  lemma NextReached(pool: Pool, pool1: Pool, pool2: Pool, capacity: nat, table: string, id: int, ok: bool)
    requires Reached(pool, pool1, capacity, table, id, true) && SamePins(pool1, pool2) && |pool1| <= capacity
    requires ok <==> Obtainable(pool1, capacity, PageKey(table, id))
    ensures Reached(pool, pool2, capacity, table, if ok then id + 1 else id, ok)
  {
    SameObtainable(pool, pool1, capacity, PageKey(table, id));
    forall k
      ensures Pins(pool2, k) == Pins(pool, k)
    {
      assert Pins(pool1, k) == Pins(pool, k);
    }
  }

  lemma AllReached(pool: Pool, pool': Pool, capacity: nat, table: string, id: int, last: int, ok: bool)
    requires Reached(pool, pool', capacity, table, id, ok) && 0 <= id && (if ok then id == last + 1 else id <= last)
    ensures ok <==> AllObtainable(pool, capacity, table, last + 1)
  {
  }

  /** The table has a page of this number, or a later one. */
  ghost predicate HasPage(pool: Pool, files: Files, table: string, id: int) {
    0 <= id && (id < |PagesOf(files, table)| || exists later :: id <= later && PageKey(table, later) in pool)
  }

  ghost predicate TableObtainable(pool: Pool, files: Files, capacity: nat, table: string) {
    forall id :: HasPage(pool, files, table, id) ==> Obtainable(pool, capacity, PageKey(table, id))
  }

  lemma PagesAreUpToLast(pool: Pool, files: Files, table: string, last: int)
    requires IsLast(pool, files, table, last)
    ensures forall id :: HasPage(pool, files, table, id) <==> 0 <= id <= last
  {
    forall id | 0 <= id <= last
      ensures HasPage(pool, files, table, id)
    {
      assert last == |PagesOf(files, table)| - 1 || PageKey(table, last) in pool;
    }
    forall later | PageKey(table, later) in pool
      ensures later <= last
    {
    }
  }

  lemma LastIsOne(pool: Pool, files: Files, table: string, last: int)
    requires IsLast(pool, files, table, last)
    ensures forall other :: IsLast(pool, files, table, other) ==> other == last
  {
  }

  lemma TableUpToLast(pool: Pool, files: Files, capacity: nat, table: string, last: int)
    requires IsLast(pool, files, table, last)
    ensures TableObtainable(pool, files, capacity, table) <==> AllObtainable(pool, capacity, table, last + 1)
  {
    PagesAreUpToLast(pool, files, table, last);
  }

  /** Every page of every table can be flushed and loaded again. */
  ghost predicate TablesFit(view: View, schemas: Catalog) {
    forall k: PageKey :: k.table in schemas ==> PageFits(view(k), schemas[k.table])
  }

  lemma SetFits(view: View, schemas: Catalog, k: PageKey, rows: seq<Row>)
    requires TablesFit(view, schemas) && (k.table in schemas ==> PageFits(rows, schemas[k.table]))
    ensures TablesFit(WithRows(view, k, rows), schemas)
  {
  }

  /** The row the insert guard lets onto a page leaves the page within its size. */
  lemma MoreFits(page: seq<Row>, row: Row, schema: Schema)
    requires PageFits(page, schema) && PageFits([row], schema)
    requires page == [] || Size(page, schema) + EstimateRowSize(row, schema) <= PAGE_SIZE
    ensures PageFits(page + [row], schema)
  {
    if page == [] {
      assert page + [row] == [row];
    } else {
      assert row in [row] && [row][0] == row;
      InsertFits(page, row, schema);
    }
  }

  /** After the update every page still fits. */
  ghost predicate UpdateFits(view: View, schemas: Catalog, table: string, f: PerRow)
    requires table in schemas
  {
    forall id: int :: PageFits(Each(f, view(PageKey(table, id))), schemas[table])
  }

  // ---------- the storage engine ----------

  class StorageEngine {
    const buffer: BufferManager
    const schemas: Catalog

    ghost predicate Valid()
      reads this, buffer
    {
      && buffer.Valid() && buffer.catalog == schemas
      && (forall t :: t in schemas ==> schemas[t] != [])
      && TablesFit(buffer.view, schemas)
    }

    constructor (buffer: BufferManager, schemas: Catalog)
      requires buffer.Valid() && buffer.catalog == schemas && forall t :: t in schemas ==> schemas[t] != []
      requires TablesFit(buffer.view, schemas)
      ensures Valid() && this.buffer == buffer && this.schemas == schemas
    {
      this.buffer, this.schemas := buffer, schemas;
    }

    /** The page in the pool, pinned once more. */
    method Open(k: PageKey, now: int) returns (ok: bool)
      requires Valid() && k.table in schemas && now < MAX_TIME
      modifies buffer`pool, buffer`files
      ensures Valid()
      ensures ok ==> k in buffer.pool && buffer.pool[k].pinCount > 0 && buffer.MayUnpin(k, false) && buffer.pool[k].rows == buffer.view(k)
      ensures PinnedAt(old(buffer.pool), buffer.pool, k, if ok then 1 else 0)
      ensures ok <==> Obtainable(old(buffer.pool), buffer.capacity, k)
    {
      ok := buffer.GetPage(k.table, k.id, schemas[k.table], now);
      if ok {
        GotPage(old(buffer.pool), buffer.pool, k);
      }
    }

    /** Back in the pool as its holder leaves it. */
    method PutBack(k: PageKey, rows: seq<Row>, modified: bool)
      requires Valid() && k in buffer.pool && buffer.pool[k].pinCount > 0
      requires if modified then Flushable(buffer.schemaCache, k, rows) else buffer.MayUnpin(k, false)
      modifies buffer`pool, buffer`view
      ensures Valid() && buffer.view == (if modified then WithRows(old(buffer.view), k, rows) else old(buffer.view))
      ensures PinnedAt(old(buffer.pool), buffer.pool, k, -1)
    {
      if modified {
        buffer.SetRows(k, rows);
        SetFits(old(buffer.view), schemas, k, rows);
      }
      buffer.UnpinPage(k.table, k.id, modified);
    }

    method DeleteOnePage(k: PageKey, matches: Row -> bool, now: int) returns (ok: bool, count: nat)
      requires Valid() && k.table in schemas && k.table in buffer.schemaCache && k.id >= 0 && now < MAX_TIME
      modifies buffer`pool, buffer`files, buffer`view
      ensures Valid() && SamePins(old(buffer.pool), buffer.pool)
      ensures PageDone(old(buffer.view), buffer.view, k, Deleting(matches), matches, count, ok)
      ensures ok <==> Obtainable(old(buffer.pool), buffer.capacity, k)
    {
      count := 0;
      ok := Open(k, now);
      if ok {
        ghost var pool1 := buffer.pool;
        var rows := buffer.pool[k].rows;
        var left;
        left, count := DeleteFromPage(rows, matches);
        DeleteKeepsFit(matches, rows, schemas[k.table]);
        if count == 0 {
          NothingDeleted(matches, rows);
        }
        PutBack(k, left, count > 0);
        PinnedAndBack(old(buffer.pool), pool1, buffer.pool, k);
      }
    }

    method UpdateOnePage(k: PageKey, matches: Row -> bool, columns: seq<string>, newValue: Row, now: int)
      returns (ok: bool, count: nat)
      requires Valid() && k.table in schemas && k.table in buffer.schemaCache && k.id >= 0 && now < MAX_TIME
      requires PageFits(Each(Updating(matches, columns, newValue), buffer.view(k)), schemas[k.table])
      modifies buffer`pool, buffer`files, buffer`view
      ensures Valid() && SamePins(old(buffer.pool), buffer.pool)
      ensures PageDone(old(buffer.view), buffer.view, k, Updating(matches, columns, newValue), matches, count, ok)
      ensures ok <==> Obtainable(old(buffer.pool), buffer.capacity, k)
    {
      count := 0;
      ok := Open(k, now);
      if ok {
        ghost var pool1 := buffer.pool;
        var rows := buffer.pool[k].rows;
        var updated;
        updated, count := UpdatePage(rows, matches, columns, newValue);
        if count == 0 {
          NothingUpdated(matches, columns, newValue, rows);
        }
        PutBack(k, updated, count > 0);
        PinnedAndBack(old(buffer.pool), pool1, buffer.pool, k);
      }
    }

    method ScanOnePage(k: PageKey, matches: Row -> bool, columns: seq<string>, now: int) returns (ok: bool, found: seq<Row>)
      requires Valid() && k.table in schemas && now < MAX_TIME
      modifies buffer`pool, buffer`files, buffer`view
      ensures Valid() && SamePins(old(buffer.pool), buffer.pool) && buffer.view == old(buffer.view)
      ensures ok ==> found == Each(Scanning(matches, columns), buffer.view(k))
      ensures ok <==> Obtainable(old(buffer.pool), buffer.capacity, k)
    {
      found := [];
      ok := Open(k, now);
      if ok {
        ghost var pool1 := buffer.pool;
        var rows := buffer.pool[k].rows;
        found := ScanPage(rows, matches, columns);
        PutBack(k, rows, false);
        PinnedAndBack(old(buffer.pool), pool1, buffer.pool, k);
      }
    }

    /** One round of the loop over the pages, with `count` matches met so far. */
    method DeleteNext(table: string, matches: Row -> bool, id: nat, count: nat, now: int, ghost view: View, ghost pool: Pool)
      returns (ok: bool, id': nat, count': nat)
      requires Valid() && table in schemas && table in buffer.schemaCache && now < MAX_TIME
      requires Swept(view, buffer.view, table, id, Deleting(matches), matches, count)
      requires Reached(pool, buffer.pool, buffer.capacity, table, id, true)
      modifies buffer`pool, buffer`files, buffer`view
      ensures Valid() && Reached(pool, buffer.pool, buffer.capacity, table, id', ok)
      ensures Swept(view, buffer.view, table, id', Deleting(matches), matches, count') && id' == if ok then id + 1 else id
    {
      var more;
      AtPage(view, buffer.view, table, id, Deleting(matches), matches, count);
      ok, more := DeleteOnePage(PageKey(table, id), matches, now);
      NextPage(view, old(buffer.view), buffer.view, table, id, Deleting(matches), matches, count, more, ok);
      NextReached(pool, old(buffer.pool), buffer.pool, buffer.capacity, table, id, ok);
      id', count' := if ok then id + 1 else id, count + more;
    }

    method DeletePages(table: string, matches: Row -> bool, last: int, now: int) returns (ok: bool, count: nat, id: nat)
      requires Valid() && table in schemas && table in buffer.schemaCache && last >= -1 && now < MAX_TIME
      modifies buffer`pool, buffer`files, buffer`view
      ensures Valid() && SamePins(old(buffer.pool), buffer.pool) && (ok ==> id == last + 1)
      ensures Swept(old(buffer.view), buffer.view, table, id, Deleting(matches), matches, count)
      ensures ok <==> AllObtainable(old(buffer.pool), buffer.capacity, table, last + 1)
    {
      ok, count, id := true, 0, 0;
      ghost var view, pool := buffer.view, buffer.pool;
      NothingSwept(view, table, Deleting(matches), matches);
      while ok && id <= last
        invariant id <= last + 1 && (!ok ==> id <= last) && Valid()
        invariant Reached(pool, buffer.pool, buffer.capacity, table, id, ok)
        invariant Swept(view, buffer.view, table, id, Deleting(matches), matches, count)
        decreases last + 1 - id, ok
      {
        ok, id, count := DeleteNext(table, matches, id, count, now, view, pool);
      }
      AllReached(pool, buffer.pool, buffer.capacity, table, id, last, ok);
    }

    /** Where the table holds `rows`, it then holds those that do not match. When a page cannot be
        loaded the operation stops, with the pages before it done. */
    method DeleteBlock(table: string, matches: Row -> bool, now: int, ghost rows: seq<Row>, ghost n: nat)
      returns (ok: bool, count: nat)
      requires Valid() && now < MAX_TIME && Holds(buffer.view, table, rows, n)
      modifies buffer`pool, buffer`files, buffer`view, buffer`schemaCache
      ensures Valid() && SamePins(old(buffer.pool), buffer.pool) && OtherTables(old(buffer.view), buffer.view, table)
      ensures table !in schemas ==> ok && count == 0 && buffer.view == old(buffer.view)
      ensures table in schemas && ok ==>
        && count == Count(matches, rows) && Counted(matches, rows, count)
        && (exists m :: Holds(buffer.view, table, Each(Deleting(matches), rows), m))
        && ListDeleted(matches, rows, Each(Deleting(matches), rows))
      ensures table in schemas ==> (ok <==> old(TableObtainable(buffer.pool, buffer.files, buffer.capacity, table)))
    {
      if table !in schemas {
        return true, 0;
      }
      buffer.RegisterSchema(table, schemas[table]);
      var last := LastPage(table);
      var p;
      TableUpToLast(buffer.pool, buffer.files, buffer.capacity, table, last);
      DeleteIsDone(matches, rows);
      ok, count, p := DeletePages(table, matches, last, now);
      if ok {
        AllPages(old(buffer.view), buffer.view, table, p, Deleting(matches), matches, count, rows, n);
      }
    }

    /** One round of the loop over the pages, with `count` matches met so far. */
    method UpdateNext(table: string, matches: Row -> bool, columns: seq<string>, newValue: Row, id: nat, count: nat, now: int, ghost view: View, ghost pool: Pool)
      returns (ok: bool, id': nat, count': nat)
      requires Valid() && table in schemas && table in buffer.schemaCache && now < MAX_TIME
      requires UpdateFits(view, schemas, table, Updating(matches, columns, newValue))
      requires Swept(view, buffer.view, table, id, Updating(matches, columns, newValue), matches, count)
      requires Reached(pool, buffer.pool, buffer.capacity, table, id, true)
      modifies buffer`pool, buffer`files, buffer`view
      ensures Valid() && Reached(pool, buffer.pool, buffer.capacity, table, id', ok)
      ensures Swept(view, buffer.view, table, id', Updating(matches, columns, newValue), matches, count') && id' == if ok then id + 1 else id
    {
      var more;
      AtPage(view, buffer.view, table, id, Updating(matches, columns, newValue), matches, count);
      ok, more := UpdateOnePage(PageKey(table, id), matches, columns, newValue, now);
      NextPage(view, old(buffer.view), buffer.view, table, id, Updating(matches, columns, newValue), matches, count, more, ok);
      NextReached(pool, old(buffer.pool), buffer.pool, buffer.capacity, table, id, ok);
      id', count' := if ok then id + 1 else id, count + more;
    }

    method UpdatePages(table: string, matches: Row -> bool, columns: seq<string>, newValue: Row, last: int, now: int) returns (ok: bool, count: nat, id: nat)
      requires Valid() && table in schemas && table in buffer.schemaCache && last >= -1 && now < MAX_TIME
      requires UpdateFits(buffer.view, schemas, table, Updating(matches, columns, newValue))
      modifies buffer`pool, buffer`files, buffer`view
      ensures Valid() && SamePins(old(buffer.pool), buffer.pool) && (ok ==> id == last + 1)
      ensures Swept(old(buffer.view), buffer.view, table, id, Updating(matches, columns, newValue), matches, count)
      ensures ok <==> AllObtainable(old(buffer.pool), buffer.capacity, table, last + 1)
    {
      ok, count, id := true, 0, 0;
      ghost var view, pool := buffer.view, buffer.pool;
      NothingSwept(view, table, Updating(matches, columns, newValue), matches);
      while ok && id <= last
        invariant id <= last + 1 && (!ok ==> id <= last) && Valid()
        invariant Reached(pool, buffer.pool, buffer.capacity, table, id, ok)
        invariant Swept(view, buffer.view, table, id, Updating(matches, columns, newValue), matches, count)
        decreases last + 1 - id, ok
      {
        ok, id, count := UpdateNext(table, matches, columns, newValue, id, count, now, view, pool);
      }
      AllReached(pool, buffer.pool, buffer.capacity, table, id, last, ok);
    }

    /** Every matching row is overwritten. The rows must still fit their pages. */
    method UpdateBlock(table: string, matches: Row -> bool, columns: seq<string>, newValue: Row, now: int, ghost rows: seq<Row>, ghost n: nat)
      returns (ok: bool, count: nat)
      requires Valid() && now < MAX_TIME && Holds(buffer.view, table, rows, n)
      requires table in schemas ==> UpdateFits(buffer.view, schemas, table, Updating(matches, columns, newValue))
      modifies buffer`pool, buffer`files, buffer`view, buffer`schemaCache
      ensures Valid() && SamePins(old(buffer.pool), buffer.pool) && OtherTables(old(buffer.view), buffer.view, table)
      ensures table !in schemas ==> ok && count == 0 && buffer.view == old(buffer.view)
      ensures table in schemas && ok ==>
        && count == Count(matches, rows) && Counted(matches, rows, count)
        && (exists m :: Holds(buffer.view, table, Each(Updating(matches, columns, newValue), rows), m))
        && ListUpdated(matches, columns, newValue, rows, Each(Updating(matches, columns, newValue), rows))
      ensures table in schemas ==> (ok <==> old(TableObtainable(buffer.pool, buffer.files, buffer.capacity, table)))
    {
      if table !in schemas {
        return true, 0;
      }
      buffer.RegisterSchema(table, schemas[table]);
      var last := LastPage(table);
      var p;
      TableUpToLast(buffer.pool, buffer.files, buffer.capacity, table, last);
      UpdateIsDone(matches, columns, newValue, rows);
      ok, count, p := UpdatePages(table, matches, columns, newValue, last, now);
      if ok {
        AllPages(old(buffer.view), buffer.view, table, p, Updating(matches, columns, newValue), matches, count, rows, n);
      }
    }

    /** One round of the loop over the pages. */
    method ScanNext(table: string, matches: Row -> bool, columns: seq<string>, id: nat, found: seq<Row>, now: int, ghost pool: Pool)
      returns (ok: bool, id': nat, found': seq<Row>)
      requires Valid() && table in schemas && now < MAX_TIME
      requires ScannedUpTo(buffer.view, table, Scanning(matches, columns), id, found)
      requires Reached(pool, buffer.pool, buffer.capacity, table, id, true)
      modifies buffer`pool, buffer`files, buffer`view
      ensures Valid() && Reached(pool, buffer.pool, buffer.capacity, table, id', ok) && buffer.view == old(buffer.view)
      ensures id' == if ok then id + 1 else id
      ensures ScannedUpTo(buffer.view, table, Scanning(matches, columns), id', found')
    {
      var more;
      ok, more := ScanOnePage(PageKey(table, id), matches, columns, now);
      NextReached(pool, old(buffer.pool), buffer.pool, buffer.capacity, table, id, ok);
      EachConcat(Scanning(matches, columns), RowsUpTo(buffer.view, table, id), buffer.view(PageKey(table, id)));
      id', found' := if ok then id + 1 else id, if ok then found + more else found;
    }

    method ScanPages(table: string, matches: Row -> bool, columns: seq<string>, last: int, now: int)
      returns (ok: bool, found: seq<Row>, id: nat)
      requires Valid() && table in schemas && last >= -1 && now < MAX_TIME
      modifies buffer`pool, buffer`files, buffer`view
      ensures Valid() && SamePins(old(buffer.pool), buffer.pool) && buffer.view == old(buffer.view) && (ok ==> id == last + 1)
      ensures ScannedUpTo(old(buffer.view), table, Scanning(matches, columns), id, found)
      ensures ok <==> AllObtainable(old(buffer.pool), buffer.capacity, table, last + 1)
    {
      ghost var view, pool := buffer.view, buffer.pool;
      ok, found, id := true, [], 0;
      NothingScanned(view, table, Scanning(matches, columns));
      while ok && id <= last
        invariant id <= last + 1 && (!ok ==> id <= last) && Valid() && buffer.view == view
        invariant Reached(pool, buffer.pool, buffer.capacity, table, id, ok)
        invariant ScannedUpTo(view, table, Scanning(matches, columns), id, found)
        decreases last + 1 - id, ok
      {
        ok, id, found := ScanNext(table, matches, columns, id, found, now, pool);
      }
      AllReached(pool, buffer.pool, buffer.capacity, table, id, last, ok);
    }

    /** The matching rows, projected, in the table's order; nothing changes. */
    method FullScan(table: string, matches: Row -> bool, columns: seq<string>, now: int, ghost rows: seq<Row>, ghost n: nat)
      returns (ok: bool, found: seq<Row>)
      requires Valid() && now < MAX_TIME && Holds(buffer.view, table, rows, n)
      modifies buffer`pool, buffer`files, buffer`view
      ensures Valid() && SamePins(old(buffer.pool), buffer.pool) && buffer.view == old(buffer.view)
      ensures table !in schemas ==> ok && found == []
      ensures table in schemas && ok ==> found == Each(Scanning(matches, columns), rows) && ListScanned(matches, columns, rows, found)
      ensures table in schemas ==> (ok <==> old(TableObtainable(buffer.pool, buffer.files, buffer.capacity, table)))
    {
      ok, found := true, [];
      if table !in schemas {
        return;
      }
      var last := LastPage(table);
      RowsAt(buffer.view, table, rows, n, last + 1);
      TableUpToLast(buffer.pool, buffer.files, buffer.capacity, table, last);
      ScanIsDone(matches, columns, rows);
      var p;
      ok, found, p := ScanPages(table, matches, columns, last, now);
    }

    /** The table's last page; there is nothing behind it. */
    method LastPage(table: string) returns (last: int)
      requires Valid()
      ensures last >= -1 && NothingFrom(buffer.view, table, last + 1) && IsLast(buffer.pool, buffer.files, table, last)
    {
      last := buffer.GetMaxPageId(table);
    }

    /** The page is pinned, and can take the row. */
    ghost predicate Chosen(pool: Pool, k: PageKey, row: Row)
      requires k.table in schemas
      reads buffer
    {
      && k.id >= 0 && k in buffer.pool && buffer.pool[k].pinCount > 0 && buffer.pool[k].rows == buffer.view(k)
      && PinnedAt(pool, buffer.pool, k, 1)
      && (buffer.view(k) == [] || Size(buffer.view(k), schemas[k.table]) + EstimateRowSize(row, schemas[k.table]) <= PAGE_SIZE)
    }

    /** The last page, if the row fits there. */
    method OpenIfFits(k: PageKey, row: Row, now: int) returns (ok: bool, fits: bool)
      requires Valid() && k.table in schemas && k.id >= 0 && now < MAX_TIME
      modifies buffer`pool, buffer`files, buffer`view
      ensures Valid() && buffer.view == old(buffer.view)
      ensures if ok && fits then Chosen(old(buffer.pool), k, row) else SamePins(old(buffer.pool), buffer.pool)
      ensures ok <==> Obtainable(old(buffer.pool), buffer.capacity, k)
      ensures ok ==> (fits <==> Size(buffer.view(k), schemas[k.table]) + EstimateRowSize(row, schemas[k.table]) <= PAGE_SIZE)
    {
      fits := false;
      ok := Open(k, now);
      if ok {
        ghost var pool1 := buffer.pool;
        var size := TotalSize(buffer.pool[k].rows, schemas[k.table]);
        fits := size + EstimateRowSize(row, schemas[k.table]) <= PAGE_SIZE;
        if !fits {
          PutBack(k, buffer.pool[k].rows, false);
          PinnedAndBack(old(buffer.pool), pool1, buffer.pool, k);
        }
      }
    }

    /** The last page is in the pool and can take the row. */
    ghost predicate RoomOnLast(table: string, row: Row)
      requires table in schemas
      reads buffer`pool, buffer`files, buffer`view
    {
      exists last :: IsLast(buffer.pool, buffer.files, table, last) && RoomOn(table, last, row)
    }

    ghost predicate RoomOn(table: string, last: int, row: Row)
      requires table in schemas
      reads buffer`pool, buffer`files, buffer`view
    {
      && last >= 0 && PageKey(table, last) in buffer.pool
      && Size(buffer.view(PageKey(table, last)), schemas[table]) + EstimateRowSize(row, schemas[table]) <= PAGE_SIZE
    }

    lemma RoomDecides(table: string, last: int, row: Row)
      requires table in schemas && IsLast(buffer.pool, buffer.files, table, last)
      ensures RoomOnLast(table, row) <==> RoomOn(table, last, row)
    {
      LastIsOne(buffer.pool, buffer.files, table, last);
    }

    /** The page for the row: the last one if the row fits there, else an empty one behind all rows. */
    ghost predicate IsTarget(table: string, row: Row, id: int)
      requires table in schemas
      reads buffer`pool, buffer`files, buffer`view
    {
      exists last :: IsLast(buffer.pool, buffer.files, table, last) &&
        if FitsOn(table, last, row) then id == last else NothingFrom(buffer.view, table, id)
    }

    ghost predicate FitsOn(table: string, last: int, row: Row)
      requires table in schemas
      reads buffer`pool, buffer`files, buffer`view
    {
      last >= 0 && Size(buffer.view(PageKey(table, last)), schemas[table]) + EstimateRowSize(row, schemas[table]) <= PAGE_SIZE
    }

    /** The page an inserted row goes to, pinned: the last one if the row fits, else a new one. */
    method ChoosePage(table: string, row: Row, now: int) returns (ok: bool, id: int)
      requires Valid() && table in schemas && table in buffer.schemaCache && now < MAX_TIME
      modifies buffer`pool, buffer`files, buffer`view
      ensures Valid() && buffer.view == old(buffer.view)
      ensures ok ==> Chosen(old(buffer.pool), PageKey(table, id), row) && NothingFrom(buffer.view, table, id + 1)
      ensures !ok ==> SamePins(old(buffer.pool), buffer.pool)
      ensures ok <==> !Stuck(old(buffer.pool), buffer.capacity) || old(RoomOnLast(table, row))
      ensures ok ==> old(IsTarget(table, row, id))
    {
      id := LastPage(table);
      RoomDecides(table, id, row);
      if id >= 0 {
        var fits;
        ok, fits := OpenIfFits(PageKey(table, id), row, now);
        if !ok || fits {
          return;
        }
        SameObtainable(old(buffer.pool), buffer.pool, buffer.capacity, PageKey(table, id));
      }
      ok, id := NewEmptyPage(table, row, now);
    }

    method NewEmptyPage(table: string, row: Row, now: int) returns (ok: bool, id: int)
      requires Valid() && table in schemas && table in buffer.schemaCache && now < MAX_TIME
      modifies buffer`pool, buffer`files
      ensures Valid()
      ensures ok ==> Chosen(old(buffer.pool), PageKey(table, id), row) && NothingFrom(buffer.view, table, id + 1)
      ensures !ok ==> SamePins(old(buffer.pool), buffer.pool)
      ensures ok <==> !Stuck(old(buffer.pool), buffer.capacity)
      ensures ok ==> NothingFrom(buffer.view, table, id)
    {
      ok, id := buffer.NewPage(table, now);
      if ok {
        GotPage(old(buffer.pool), buffer.pool, PageKey(table, id));
      }
    }

    /** The row goes onto the chosen page, which is unpinned. */
    method AppendRow(k: PageKey, row: Row, ghost pool: Pool)
      requires Valid() && k.table in schemas && k.table in buffer.schemaCache && PageFits([row], schemas[k.table])
      requires Chosen(pool, k, row)
      modifies buffer`pool, buffer`view
      ensures Valid() && SamePins(pool, buffer.pool)
      ensures buffer.view == WithRows(old(buffer.view), k, old(buffer.view)(k) + [row]) && RowAdded(old(buffer.view), buffer.view, k, row)
    {
      ghost var pool1 := buffer.pool;
      var page := buffer.pool[k].rows;
      MoreFits(page, row, schemas[k.table]);
      RowIsAdded(buffer.view, k, row);
      PutBack(k, page + [row], true);
      PinnedAndBack(pool, pool1, buffer.pool, k);
    }

    /** One row more at the end. */
    method InsertBlock(table: string, row: Row, now: int, ghost rows: seq<Row>, ghost n: nat) returns (ok: bool, count: nat)
      requires Valid() && now < MAX_TIME && Holds(buffer.view, table, rows, n)
      requires table in schemas ==> PageFits([row], schemas[table])
      modifies buffer`pool, buffer`files, buffer`view, buffer`schemaCache
      ensures Valid() && SamePins(old(buffer.pool), buffer.pool) && OtherTables(old(buffer.view), buffer.view, table)
      ensures table !in schemas || !ok ==> count == 0 && buffer.view == old(buffer.view)
      ensures table in schemas && ok ==> count == 1 && exists m :: Holds(buffer.view, table, rows + [row], m)
      ensures table in schemas ==> (ok <==> old(!Stuck(buffer.pool, buffer.capacity) || RoomOnLast(table, row)))
      ensures table in schemas && ok ==> exists id :: old(IsTarget(table, row, id)) && RowAdded(old(buffer.view), buffer.view, PageKey(table, id), row)
    {
      ok, count := true, 0;
      if table !in schemas {
        return;
      }
      buffer.RegisterSchema(table, schemas[table]);
      var id;
      ok, id := ChoosePage(table, row, now);
      if !ok {
        return;
      }
      var k := PageKey(table, id);
      OneMore(buffer.view, table, row, id, rows, n);
      AppendRow(k, row, old(buffer.pool));
      count := 1;
    }
  }
}
