/** A read of what is still to be undone. */
module DirtyReads {
  // Transaction 1 writes a record, is rolled back and loses its locks; 2 reads the record before the
  // undo. The lock manager grants it all.

  import opened Wrappers
  import opened Histories
  import opened LockTable
  import opened Serialisability
  import opened DelayedUndo

  lemma OneCall(calls: seq<Call>, c: Call, m: Manager, h: History, m': Manager, added: History)
    requires Run(calls) == (m, h) && Next(m, c) == m' && Emits(m, c) == added
    ensures Run(calls + [c]) == (m', h + added)
  {
    assert (calls + [c])[..|calls|] == calls;
  }

  const BEGUN := TxnInfo(ACTIVE, GROWING, {})

  const ONE_BEGUN := Manager(map[], map[], map[1 := BEGUN], map[], map[], 1)

  const TWO_BEGUN := Manager(map[], map[], map[1 := BEGUN, 2 := BEGUN], map[], map[], 2)

  lemma BeginTwice() returns (calls: seq<Call>)
    ensures Run(calls) == (TWO_BEGUN, [])
  {
    var none: History := [];
    assert Run([]) == (Empty, none) && none + none == none;
    assert Next(Empty, Begin) == ONE_BEGUN && Next(ONE_BEGUN, Begin) == TWO_BEGUN;
    OneCall([], Begin, Empty, none, ONE_BEGUN, none);
    OneCall([] + [Begin], Begin, ONE_BEGUN, none, TWO_BEGUN, none);
    calls := [] + [Begin] + [Begin];
  }

  lemma WriteGranted(r: Rec)
    ensures AnswerTo(TWO_BEGUN, 1, r, WRITE) == Answer(GrantX(TWO_BEGUN, 1, r), true)
  {
    assert Holders(TWO_BEGUN, r) - {1} == {};
  }

  function Ended1(r: Rec): Manager {
    Ended(GrantX(TWO_BEGUN, 1, r), 1)
  }

  lemma ReadGranted(r: Rec)
    ensures AnswerTo(Ended1(r), 2, r, READ) == Answer(GrantS(Ended1(r), 2, r), true)
    ensures Active(GrantX(TWO_BEGUN, 1, r), 1) && Active(GrantS(Ended1(r), 2, r), 2)
  {
    var m := Ended1(r);
    assert 2 in m.txns && m.txns[2] == BEGUN && r !in m.xLocks && r !in m.queues;
  }

  lemma WriteThenRead(r: Rec) returns (calls: seq<Call>)
    ensures Run(calls).1 == [Access(1, r, WRITE)] + [Commit(1)] + [Access(2, r, READ)] + [Commit(2)]
  {
    WriteGranted(r);
    ReadGranted(r);
    calls := BeginTwice();
    var m1, m2, m3 := GrantX(TWO_BEGUN, 1, r), Ended1(r), GrantS(Ended1(r), 2, r);
    var h1: History := [] + [Access(1, r, WRITE)];
    OneCall(calls, Validate(1, r, WRITE), TWO_BEGUN, [], m1, [Access(1, r, WRITE)]);
    calls := calls + [Validate(1, r, WRITE)];
    OneCall(calls, End(1), m1, h1, m2, [Commit(1)]);
    calls := calls + [End(1)];
    OneCall(calls, Validate(2, r, READ), m2, h1 + [Commit(1)], m3, [Access(2, r, READ)]);
    calls := calls + [Validate(2, r, READ)];
    OneCall(calls, End(2), m3, h1 + [Commit(1)] + [Access(2, r, READ)], Ended(m3, 2), [Commit(2)]);
    calls := calls + [End(2)];
    assert h1 == [Access(1, r, WRITE)];
  }

  // ---------- what the two transactions read ----------

  function Late(r: Rec, n: nat): Schedule {
    [Granted(Access(1, r, WRITE)), Granted(Commit(1)), Granted(Access(2, r, READ)), Granted(Commit(2)), Undo(1)]
      [..if n < 5 then n else 5]
  }

  lemma LatePrefix(r: Rec, n: nat)
    requires n < 5
    ensures Late(r, n + 1)[..n] == Late(r, n) && |Late(r, n + 1)| == n + 1
  {
  }

  lemma LateRead(r: Rec, prog: Program)
    ensures Log(PerformAll(Initially(map[]), Late(r, 5), {1}, prog), 2) == [Some(prog(1, []))]
  {
    var w0 := Initially(map[]);
    assert Late(r, 0) == [] && PerformAll(w0, Late(r, 0), {1}, prog) == w0;
    LatePrefix(r, 0);
    var w1 := PerformAll(w0, Late(r, 1), {1}, prog);
    assert w1 == Step(w0, Access(1, r, WRITE), prog);
    LatePrefix(r, 1);
    assert PerformAll(w0, Late(r, 2), {1}, prog) == w1;
    LatePrefix(r, 2);
    var w3 := PerformAll(w0, Late(r, 3), {1}, prog);
    assert w3 == Step(w1, Access(2, r, READ), prog) && Log(w3, 2) == [Some(prog(1, []))];
    LatePrefix(r, 3);
    LatePrefix(r, 4);
  }

  lemma LateGrants(r: Rec)
    ensures Grants(Late(r, 5)) == [Access(1, r, WRITE)] + [Commit(1)] + [Access(2, r, READ)] + [Commit(2)]
    ensures Pending(Late(r, 5), {1}) == {}
  {
    LatePrefix(r, 0);
    LatePrefix(r, 1);
    LatePrefix(r, 2);
    LatePrefix(r, 3);
    LatePrefix(r, 4);
    assert Late(r, 0) == [] && Grants(Late(r, 1)) == [] + [Access(1, r, WRITE)] == [Access(1, r, WRITE)];
    assert Grants(Late(r, 2)) == [Access(1, r, WRITE)] + [Commit(1)];
    assert Grants(Late(r, 3)) == [Access(1, r, WRITE)] + [Commit(1)] + [Access(2, r, READ)];
    assert Pending(Late(r, 1), {1}) == {} && Pending(Late(r, 2), {1}) == {1} && Pending(Late(r, 4), {1}) == {1};
  }

  /** The undo is of what is pending, and nothing is overwritten. */
  lemma LateIsOrderly(r: Rec)
    ensures Orderly(Late(r, 5), {1})
  {
    assert Late(r, 0) == [] && Orderly(Late(r, 0), {1}) && Pending(Late(r, 0), {1}) == {};
    LatePrefix(r, 0);
    assert Orderly(Late(r, 1), {1}) && Pending(Late(r, 1), {1}) == {};
    LatePrefix(r, 1);
    assert Orderly(Late(r, 2), {1}) && Pending(Late(r, 2), {1}) == {1};
    LatePrefix(r, 2);
    assert Orderly(Late(r, 3), {1}) && Pending(Late(r, 3), {1}) == {1};
    LatePrefix(r, 3);
    assert Orderly(Late(r, 4), {1}) && Pending(Late(r, 4), {1}) == {1};
    LatePrefix(r, 4);
  }

  lemma AtOnceSnoc(h: History, e: Event)
    ensures AtOnce(h + [e], {1}) == AtOnce(h, {1}) + [Outcome(e, {1})]
  {
    assert (h + [e])[..|h|] == h;
  }

  /** Without the first, the second transaction is alone in the serial run. */
  lemma SerialRead(r: Rec, prog: Program)
    ensures var h: History := [Access(1, r, WRITE)] + [Commit(1)] + [Access(2, r, READ)] + [Commit(2)];
      Log(Exec(Initially(map[]), Serial(AtOnce(h, {1})), prog), 2) == [None]
  {
    var g0: History := [];
    var g1 := g0 + [Access(1, r, WRITE)];
    var g2 := g1 + [Abort(1)];
    var g3 := g2 + [Access(2, r, READ)];
    AtOnceSnoc([], Access(1, r, WRITE));
    AtOnceSnoc([] + [Access(1, r, WRITE)], Commit(1));
    AtOnceSnoc([] + [Access(1, r, WRITE)] + [Commit(1)], Access(2, r, READ));
    AtOnceSnoc([] + [Access(1, r, WRITE)] + [Commit(1)] + [Access(2, r, READ)], Commit(2));
    assert [] + [Access(1, r, WRITE)] == [Access(1, r, WRITE)];
    SerialSnoc(g0, Access(1, r, WRITE));
    SerialSnoc(g1, Abort(1));
    SerialSnoc(g2, Access(2, r, READ));
    SerialSnoc(g3, Commit(2));
    OpsSnoc(g0, Access(1, r, WRITE), 2);
    OpsSnoc(g1, Abort(1), 2);
    OpsSnoc(g2, Access(2, r, READ), 2);
    ExecSnoc(Initially(map[]), g0, Access(2, r, READ), prog);
    ExecSnoc(Initially(map[]), g0 + [Access(2, r, READ)], Commit(2), prog);
    assert g0 + (g0 + [Access(2, r, READ)]) + [Commit(2)] == g0 + [Access(2, r, READ)] + [Commit(2)];
  }

  /** In a run of the lock manager, with everyone ended and undone in the end, 2 has read what 1 wrote
      and what it reads in no serial run without 1. */
  lemma DirtyRead(r: Rec, prog: Program) returns (calls: seq<Call>, s: Schedule)
    ensures Grants(s) == Run(calls).1 && Orderly(s, {1}) && Pending(s, {1}) == {}
    ensures Log(PerformAll(Initially(map[]), s, {1}, prog), 2) == [Some(prog(1, []))]
    ensures Log(Exec(Initially(map[]), Serial(AtOnce(Grants(s), {1})), prog), 2) == [None]
  {
    calls := WriteThenRead(r);
    s := Late(r, 5);
    LateGrants(r);
    LateIsOrderly(r);
    LateRead(r, prog);
    SerialRead(r, prog);
  }
}
