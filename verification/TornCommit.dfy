/** A reachable torn commit: a run of two sessions over two tables after which the
    first session's commit is refused although half of it has been published. */
module TornCommit {
  import opened Values
  import opened Catalog
  import opened Rows
  import Tx = Transactions
  import opened Engine
  import opened EngineInvariant
  import opened Snapshots

  const COLUMN := Column([97], VectorType(1), true, None, false, false)
  const TABLE := TableDef([116], [COLUMN], [])
  const OTHER := TableDef([117], [COLUMN], [])
  const EMPTY := Store(TABLE, [], 1)
  const FILLED := Store(OTHER, [Row(1, [Vector([7])])], 2)
  const GONE := Store(OTHER, [], 2)
  const ADDED := Store(TABLE, [Row(1, [Vector([5])])], 2)
  const ORIGIN := [EMPTY, FILLED]

  // Session 1 inserts into table 0 and deletes from table 1; session 2 deletes the
  // same row of table 1 and commits first.
  const CONFLICT := [
    Begin(1), StageInsert(1, 0, [Vector([5])]), StageDelete(1, 1, 1),
    Begin(2), StageDelete(2, 1, 1), Commit(2)]

  lemma RowFits(table: TableDef, i: U32)
    requires table.columns == [COLUMN]
    ensures CheckRow(table, [Vector([i])]).Ok?
  {
    assert CheckValue(COLUMN, Vector([i])).Ok?;
    assert [COLUMN][1..] == [] && [Vector([i])][1..] == [];
    assert CheckValues([COLUMN], [Vector([i])]).Ok?;
  }

  lemma TableBuilds(name: Bytes)
    ensures Built(TableDef(name, [COLUMN], [])) && Rebuildable(TableDef(name, [COLUMN], []))
  {
    var spec := TableSpec(name, [COLUMN], []);
    assert InitColumn(COLUMN) == Ok(COLUMN);
    assert InitColumns(spec.columns, 0) == Ok([]);
    assert InitColumns(spec.columns, 1) == Ok([] + [COLUMN]);
    assert InitTable(spec) == Ok(TableDef(name, [COLUMN], [])) by {
      assert ValidateColumns(spec.columns, 0).Ok?;
      assert ValidateColumns(spec.columns, 1).Ok?;
      assert KeyColumns([] + [COLUMN], []) == [COLUMN];
      assert InitIndexes(spec.indexes, 0) == Ok([]);
    }
  }

  lemma OriginOk()
    ensures StoresOk(ORIGIN) && AllRebuildable(ORIGIN)
    ensures StoresOk([EMPTY, GONE]) && AllRebuildable([EMPTY, GONE])
    ensures StoresOk([ADDED, GONE]) && AllRebuildable([ADDED, GONE])
  {
    hide StoreOk, Built, Rebuildable;
    TableBuilds([116]);
    TableBuilds([117]);
    OneRowOk(TABLE, 5);
    OneRowOk(OTHER, 7);
  }

  lemma OneRowOk(table: TableDef, i: U32)
    requires table.columns == [COLUMN]
    ensures StoreOk(Store(table, [Row(1, [Vector([i])])], 2)) && StoreOk(Store(table, [], 2))
            && StoreOk(Store(table, [], 1))
  {
    RowFits(table, i);
  }

  const INSERTED := TableTx(0, Tx.Tx(Tx.Active, 2, [Row(1, [Vector([5])])], [], []))
  const DELETED := TableTx(1, Tx.Tx(Tx.Active, 2, [], [], [1]))

  function InTransaction(generation: nat, txs: seq<TableTx>): Session {
    Session(true, generation, txs, None)
  }

  // A state over the original stores.
  function At(q: nat, r: nat, holders: nat, sessions: map<nat, Session>): State {
    Open(ORIGIN, q, r).(registry := Registry(r, [ActiveGeneration(0, holders)], []), sessions := sessions)
  }

  lemma StepBegin(q: nat, r: nat)
    ensures Step(Open(ORIGIN, q, r), CONFLICT[0]).0 == At(q, r, 1, map[1 := InTransaction(0, [])])
  {}

  lemma StepInsert(q: nat, r: nat)
    ensures Step(At(q, r, 1, map[1 := InTransaction(0, [])]), CONFLICT[1]).0 ==
            At(q, r, 1, map[1 := InTransaction(0, [INSERTED])])
  {
    RowFits(TABLE, 5);
    var entries := [TableTx(0, Tx.Begin(EMPTY))];
    assert WithEntry(ORIGIN, [], 0) == entries;
    assert EntryFor(entries, 0) == Some(0);
    assert [] + [Row(1, [Vector([5])])] == INSERTED.tx.inserts;
    assert Tx.Insert(entries[0].tx, TABLE, [Vector([5])]) == Ok(INSERTED.tx);
    assert entries[0 := INSERTED] == [INSERTED];
    assert map[1 := InTransaction(0, [])][1 := InTransaction(0, [INSERTED])] == map[1 := InTransaction(0, [INSERTED])];
  }

  // Opening table 1 behind any entries for table 0 and deleting its row.
  lemma Deletes(txs: seq<TableTx>)
    requires txs == [] || txs == [INSERTED]
    ensures var entries := WithEntry(ORIGIN, txs, 1);
            && EntryFor(entries, 1) == Some(|txs|)
            && Tx.Delete(entries[|txs|].tx, FILLED, 1) == Ok(DELETED.tx)
            && entries[|txs| := DELETED] == txs + [DELETED]
  {
    assert HasId(FILLED.rows, 1) by { assert FILLED.rows[0].id == 1; }
    var added := TableTx(1, Tx.Begin(FILLED));
    assert EntryFor(txs, 1).None?;
    assert WithEntry(ORIGIN, txs, 1) == txs + [added];
    assert EntryFor([added], 1) == Some(0);
    assert [] + [1] == DELETED.tx.deletes;
    assert Tx.Delete(added.tx, FILLED, 1) == Ok(DELETED.tx);
    if txs == [INSERTED] {
      assert (txs + [added])[1..] == [added];
    } else {
      assert txs + [added] == [added];
    }
  }

  lemma StepDelete(q: nat, r: nat)
    ensures Step(At(q, r, 1, map[1 := InTransaction(0, [INSERTED])]), CONFLICT[2]).0 ==
            At(q, r, 1, map[1 := InTransaction(0, [INSERTED, DELETED])])
  {
    Deletes([INSERTED]);
    var s := InTransaction(0, [INSERTED, DELETED]);
    assert [INSERTED] + [DELETED] == s.txs;
    assert map[1 := InTransaction(0, [INSERTED])][1 := s] == map[1 := s];
  }

  const WRITER := Session(true, 0, [INSERTED, DELETED], None)

  lemma StepRival(q: nat, r: nat)
    ensures var st := Step(At(q, r, 1, map[1 := WRITER]), CONFLICT[3]).0;
            Step(st, CONFLICT[4]).0 == At(q, r, 2, map[1 := WRITER, 2 := InTransaction(0, [DELETED])])
  {
    Deletes([]);
    var st := Step(At(q, r, 1, map[1 := WRITER]), CONFLICT[3]).0;
    assert st == At(q, r, 2, map[1 := WRITER, 2 := InTransaction(0, [])]);
    assert [] + [DELETED] == [DELETED];
    assert st.sessions[2 := InTransaction(0, [DELETED])] == map[1 := WRITER, 2 := InTransaction(0, [DELETED])];
  }

  lemma PublishDelete()
    ensures PublishAll(ORIGIN, [DELETED]) ==
            Published([EMPTY, GONE], [TableTx(1, Tx.Close(DELETED.tx, Tx.Committed))], None)
  {
    assert HasId(FILLED.rows, 1) by { assert FILLED.rows[0].id == 1; }
    assert RemoveId(FILLED.rows, 1) == [];
    assert DeleteRow(FILLED, 1) == Ok(GONE);
    assert DELETED.tx.deletes[1..] == [];
    assert Tx.ApplyDeletes(FILLED, [1]) == Ok(GONE);
    assert Tx.Publish(DELETED.tx, FILLED) == Ok(GONE);
    assert [DELETED][1..] == [];
    assert ORIGIN[1 := GONE] == [EMPTY, GONE];
  }

  lemma StepCommit(q: nat, r: nat)
    requires q > 0 && r > 0
    ensures var st := Step(At(q, r, 2, map[1 := WRITER, 2 := InTransaction(0, [DELETED])]), CONFLICT[5]).0;
            && st.stores == [EMPTY, GONE] && st.sequence == 1
            && st.sessions == map[1 := WRITER, 2 := Session(false, 0, [], Some(1))]
            && st.queue == Queue(q, 0, 1)
            && st.registry == Registry(r, [ActiveGeneration(0, 1)], [Retained(0, ORIGIN)])
            && Step(At(q, r, 2, map[1 := WRITER, 2 := InTransaction(0, [DELETED])]), CONFLICT[5]).1 == Done
  {
    hide PublishAll, RecordAll, Cells, Capture;
    OriginOk();
    CaptureExact(ORIGIN);
    PublishDelete();
    var st := At(q, r, 2, map[1 := WRITER, 2 := InTransaction(0, [DELETED])]);
    var (registry, failed) := RetainCurrent(st, st.sessions[2]);
    assert Sweep([], registry.active) == [];
    assert [] + [Retained(0, ORIGIN)] == [Retained(0, ORIGIN)];
    assert failed.None? && registry == Registry(r, [ActiveGeneration(0, 2)], [Retained(0, ORIGIN)]);
    assert Sweep([Retained(0, ORIGIN)], [ActiveGeneration(0, 1)]) == [Retained(0, ORIGIN)];
    var over := Session(false, 0, [], Some(1));
    assert st.sessions[2 := over] == map[1 := WRITER, 2 := over];
  }

  lemma {:induction false} RunConcat(st: State, a: seq<Command>, b: Command)
    ensures Run(st, a + [b]) == Step(Run(st, a), b).0
    decreases |a|
  {
    hide Step;
    if a == [] {
      assert a + [b] == [b] && [b][1..] == [];
    } else {
      assert (a + [b])[1..] == a[1..] + [b];
      RunConcat(Step(st, a[0]).0, a[1..], b);
    }
  }

  lemma BeforeRival(q: nat, r: nat)
    ensures Run(Open(ORIGIN, q, r), CONFLICT[..5]) == At(q, r, 2, map[1 := WRITER, 2 := InTransaction(0, [DELETED])])
  {
    var st := Open(ORIGIN, q, r);
    forall i | 0 <= i < 5 ensures Run(st, CONFLICT[..i + 1]) == Step(Run(st, CONFLICT[..i]), CONFLICT[i]).0 {
      assert CONFLICT[..i] + [CONFLICT[i]] == CONFLICT[..i + 1];
      RunConcat(st, CONFLICT[..i], CONFLICT[i]);
    }
    StepBegin(q, r);
    StepInsert(q, r);
    StepDelete(q, r);
    StepRival(q, r);
    hide Step, At, Open;
    assert Run(st, CONFLICT[..0]) == st;
    assert Run(st, CONFLICT[..1]) == At(q, r, 1, map[1 := InTransaction(0, [])]);
    assert Run(st, CONFLICT[..2]) == At(q, r, 1, map[1 := InTransaction(0, [INSERTED])]);
    assert Run(st, CONFLICT[..3]) == At(q, r, 1, map[1 := WRITER]);
    assert Run(st, CONFLICT[..4]) == Step(Run(st, CONFLICT[..3]), CONFLICT[3]).0;
    assert Run(st, CONFLICT[..5]) == Step(Run(st, CONFLICT[..4]), CONFLICT[4]).0;
  }

  lemma ConflictRuns(q: nat, r: nat)
    ensures Run(Open(ORIGIN, q, r), CONFLICT) ==
            Step(At(q, r, 2, map[1 := WRITER, 2 := InTransaction(0, [DELETED])]), CONFLICT[5]).0
  {
    hide Step, At, Open;
    BeforeRival(q, r);
    RunConcat(Open(ORIGIN, q, r), CONFLICT[..5], CONFLICT[5]);
    assert CONFLICT[..5] + [CONFLICT[5]] == CONFLICT;
  }

  lemma PublishHalf()
    ensures var p := PublishAll([EMPTY, GONE], WRITER.txs);
            p.error == Some(UnknownRow) && p.stores == [ADDED, GONE]
  {
    RowFits(TABLE, 5);
    assert [] + ADDED.rows == ADDED.rows;
    assert InsertWithId(EMPTY, 1, [Vector([5])]) == Ok(ADDED);
    assert INSERTED.tx.inserts[1..] == [];
    assert Tx.ApplyInserts(EMPTY, INSERTED.tx.inserts) == Ok(ADDED);
    assert Tx.Publish(INSERTED.tx, EMPTY) == Ok(ADDED);
    var next := [EMPTY, GONE][0 := ADDED];
    assert WRITER.txs[1..] == [DELETED];
    assert next == [ADDED, GONE];
    assert Tx.Publish(DELETED.tx, GONE) == Err(UnknownRow);
  }

  /** The run reaches a state in which the commit of session 1 tears: it is refused,
      its insert is committed all the same, and no generation accounts for it. */
  lemma TornCommitIsReachable(q: nat, r: nat)
    requires q > 0 && r > 0
    ensures var st := Run(Open(ORIGIN, q, r), CONFLICT);
            var (st1, outcome) := Step(st, Commit(1));
            && Tears(st, 1) && outcome == Refused(UnknownRow)
            && st.stores == [EMPTY, GONE] && st1.stores == [ADDED, GONE]
            && st1.sequence == st.sequence == 1
  {
    hide Run, Step, PublishAll, At, Tears;
    ConflictRuns(q, r);
    StepCommit(q, r);
    PublishHalf();
    var st := Run(Open(ORIGIN, q, r), CONFLICT);
    NobodyOnCurrent(st);
    WriterTears(st);
  }

  // The writer's commit once the rival is through, whoever else has joined since.
  lemma WriterTears(st: State)
    requires st.stores == [EMPTY, GONE] && st.sequence == 1
    requires SessionOf(st, 1) == WRITER && st.queue.limit > 0 && st.queue.pending == 0
    requires RetainCurrent(st, WRITER).1.None?
    ensures Tears(st, 1)
    ensures Step(st, Commit(1)).1 == Refused(UnknownRow)
    ensures Step(st, Commit(1)).0.stores == PublishAll(st.stores, WRITER.txs).stores
    ensures Step(st, Commit(1)).0.sequence == 1
    ensures Step(st, Commit(1)).0.registry == RetainCurrent(st, WRITER).0
    ensures Step(st, Commit(1)).0.overlay == st.overlay
    ensures Step(st, Commit(1)).0.sessions.Keys == st.sessions.Keys + {1}
  {
    PublishHalf();
    hide PublishAll, RetainCurrent;
    assert !CanPublish(st.stores, WRITER.txs[1]) by {
      assert !HasId(st.stores[1].rows, 1);
      assert DELETED.tx.deletes[0] == 1;
    }
    assert Tx.RowsStillLive(INSERTED.tx, EMPTY);
  }

  lemma NobodyOnCurrent(st: State)
    requires st.sequence == 1 && st.registry.active == [ActiveGeneration(0, 1)]
    ensures RetainCurrent(st, WRITER) == (st.registry, None)
  {
    assert RefCount(st.registry.active, 1) == 0;
  }

  // A reader of the current generation joins, so the tear retains that generation first.
  lemma ReaderOnCurrent(st: State, r: nat)
    requires st.stores == [EMPTY, GONE] && st.sequence == 1 && r > 1
    requires st.registry == Registry(r, [ActiveGeneration(0, 1), ActiveGeneration(1, 1)], [Retained(0, ORIGIN)])
    ensures RetainCurrent(st, WRITER) ==
            (Registry(r, st.registry.active, [Retained(0, ORIGIN), Retained(1, [EMPTY, GONE])]), None)
  {
    hide Capture;
    OriginOk();
    CaptureExact([EMPTY, GONE]);
    var active := st.registry.active;
    assert active[1..] == [ActiveGeneration(1, 1)];
    assert RefCount(active, 0) == 1 && RefCount(active, 1) == 1;
    assert [Retained(0, ORIGIN)][1..] == [];
    assert Sweep([Retained(0, ORIGIN)], active) == [Retained(0, ORIGIN)];
    assert FindRetained([Retained(0, ORIGIN)], 1).None?;
    assert [Retained(0, ORIGIN)] + [Retained(1, [EMPTY, GONE])] == [Retained(0, ORIGIN), Retained(1, [EMPTY, GONE])];
  }

  const JOINED := CONFLICT + [Begin(3)]

  lemma JoinedRuns(q: nat, r: nat)
    requires q > 0 && r > 1
    ensures var st := Run(Open(ORIGIN, q, r), JOINED);
            && st.stores == [EMPTY, GONE] && st.sequence == 1
            && SessionOf(st, 1) == WRITER && st.queue == Queue(q, 0, 1)
            && st.registry == Registry(r, [ActiveGeneration(0, 1), ActiveGeneration(1, 1)], [Retained(0, ORIGIN)])
            && st.sessions.Keys == {1, 2, 3}
  {
    hide Run, At;
    ConflictRuns(q, r);
    StepCommit(q, r);
    RunConcat(Open(ORIGIN, q, r), CONFLICT, Begin(3));
    var st := Run(Open(ORIGIN, q, r), CONFLICT);
    assert [ActiveGeneration(0, 1)][1..] == [];
    assert AddRef([ActiveGeneration(0, 1)], 1) == [ActiveGeneration(0, 1), ActiveGeneration(1, 1)];
  }

  /** The same tear with a reader of the current generation around: the rows of that
      generation stay retained as they were before the tear. */
  lemma TornWithReader(q: nat, r: nat)
    requires q > 0 && r > 1
    ensures var st := Run(Open(ORIGIN, q, r), JOINED + [Commit(1)]);
            && st.stores == [ADDED, GONE] && st.sequence == 1
            && FindRetained(st.registry.retained, 1) == Some([EMPTY, GONE])
            && st.sessions.Keys == {1, 2, 3}
  {
    hide Run, Step, PublishAll;
    var st := Run(Open(ORIGIN, q, r), JOINED);
    JoinedRuns(q, r);
    RunConcat(Open(ORIGIN, q, r), JOINED, Commit(1));
    ReaderOnCurrent(st, r);
    WriterTears(st);
    PublishHalf();
    assert [Retained(0, ORIGIN), Retained(1, [EMPTY, GONE])][1..] == [Retained(1, [EMPTY, GONE])];
  }
}
