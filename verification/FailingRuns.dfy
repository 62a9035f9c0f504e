/** Promises that fail, each shown on one reachable run. After a torn commit: a BEGIN that
    does not see the committed rows, an index that misses a committed vector, a file that
    holds the state of no generation. Without one: a cell drained twice that nobody wrote,
    a vector write that is never handed out, a row id that is given out again, and a
    completed checkpoint that wrote no file. */
module FailingRuns {
  import opened Values
  import opened Catalog
  import opened Rows
  import Tx = Transactions
  import opened Engine
  import opened EngineInvariant
  import opened Snapshots
  import opened Replay
  import opened Generations
  import Eager = EagerRefinement
  import Vectors = VectorOverlay
  import opened VectorWrites
  import Log = VectorLog
  import opened Rounds
  import opened TornCommit
  import opened Durability
  import Limits = SnapshotLimits
  import File = SnapshotFile

  // ---- A BEGIN after a tear -------------------------------------------------

  /** After a tear that had retained the current generation first, that generation is
      unsettled: a session that begins now reads no row of table 0, although one is
      committed there and a full clone would show it. */
  lemma BeginMissesCommittedRow(q: nat, r: nat)
    requires q > 0 && r > 1
    ensures var st := Run(Open(ORIGIN, q, r), JOINED + [Commit(1)]);
            && Inv(st) && !Eager.Settled(st) && st.stores == [ADDED, GONE]
            && ReadTable(Step(st, Begin(4)).0, 4, 0) == Ok([])
            && Eager.EagerRead(Eager.EagerStep(Eager.Abs(st), Begin(4)).0, 4, 0) == Ok(ADDED.rows)
  {
    hide Run, Step, Eager.EagerStep, Inv, Eager.Settled, Eager.Abs, ReadTable, Eager.EagerRead, StoresOk;
    TornWithReader(q, r);
    OriginOk();
    OpenInv(ORIGIN, q, r);
    RunKeeps(Open(ORIGIN, q, r), JOINED + [Commit(1)]);
    UnsettledBegin(Run(Open(ORIGIN, q, r), JOINED + [Commit(1)]));
  }

  lemma UnsettledBegin(st: State)
    requires Inv(st) && st.stores == [ADDED, GONE] && st.sequence == 1 && 4 !in st.sessions
    requires FindRetained(st.registry.retained, 1) == Some([EMPTY, GONE])
    ensures !Eager.Settled(st)
    ensures ReadTable(Step(st, Begin(4)).0, 4, 0) == Ok([])
    ensures Eager.EagerRead(Eager.EagerStep(Eager.Abs(st), Begin(4)).0, 4, 0) == Ok(ADDED.rows)
  {
    hide Step, Eager.EagerStep, Inv, Eager.Abs;
    assert Base(st, 1) == [EMPTY, GONE];
    assert Base(st, 1)[0].rows != st.stores[0].rows;
    Eager.AbsShadows(st);
    Eager.BeginView(st, Eager.Abs(st), 4);
    StepKeeps(st, Begin(4));
    hide Base, Eager.Settled;
    BaseIsWhatIsRead(Step(st, Begin(4)).0, 4, 0);
    assert EntryFor([], 0).None?;
    assert [EMPTY, GONE][0] == EMPTY;
    EagerStores(st);
  }

  lemma EagerStores(st: State)
    ensures Eager.EagerStep(Eager.Abs(st), Begin(4)).0.stores == st.stores
  {}

  // ---- The history of the tear ----------------------------------------------

  lemma ConflictHistory(q: nat, r: nat)
    requires q > 0 && r > 0
    ensures var h := FollowAll(Opened(ORIGIN, q, r), CONFLICT);
            && HistoryOk(h) && h.states == [ORIGIN, [EMPTY, GONE]]
            && h.st == Run(Open(ORIGIN, q, r), CONFLICT)
  {
    OriginOk();
    OpenedOk(ORIGIN, q, r);
    hide HistoryOk, FollowAll, Follow, Run, Step, Intact, At, StoresOk;
    var h0 := Opened(ORIGIN, q, r);
    var first := CONFLICT[..5];
    assert first + [CONFLICT[5]] == CONFLICT;
    RunsKeepHistory(h0, first);
    RunsKeepHistory(h0, CONFLICT);
    FollowLast(h0, first, CONFLICT[5]);
    FollowRuns(h0, first);
    FollowRuns(h0, CONFLICT);
    RivalPublishes(q, r);
    ConflictRuns(q, r);
    StepCommit(q, r);
    FollowKeeps(FollowAll(h0, first), CONFLICT[5]);
    TwoStates(h0, FollowAll(h0, CONFLICT));
  }

  lemma RivalPublishes(q: nat, r: nat)
    requires q > 0 && r > 0
    ensures PublishesBatch(Run(Open(ORIGIN, q, r), CONFLICT[..5]), CONFLICT[5])
  {
    hide Run, Step, At;
    BeforeRival(q, r);
    StepCommit(q, r);
    assert SessionOf(At(q, r, 2, map[1 := WRITER, 2 := InTransaction(0, [DELETED])]), 2).txs == [DELETED] by {
      RivalSession(q, r);
    }
  }

  lemma RivalSession(q: nat, r: nat)
    ensures SessionOf(At(q, r, 2, map[1 := WRITER, 2 := InTransaction(0, [DELETED])]), 2).txs == [DELETED]
  {}

  lemma TwoStates(h0: History, h: History)
    requires HistoryOk(h) && Intact(h) && h0.states == [ORIGIN] && h0.states <= h.states
    requires h.st.sequence == 1 && h.st.stores == [EMPTY, GONE]
    ensures h.states == [ORIGIN, [EMPTY, GONE]]
  {
    hide Inv, StoresOk;
  }

  /** After the tear: two generations on record, and stores that are neither's. */
  lemma TornHistory(q: nat, r: nat)
    requires q > 0 && r > 0
    ensures var h := FollowAll(Opened(ORIGIN, q, r), CONFLICT + [Commit(1)]);
            && HistoryOk(h) && h.states == [ORIGIN, [EMPTY, GONE]]
            && h.st.stores == [ADDED, GONE] && h.st.sequence == 1
  {
    hide HistoryOk, FollowAll, Run, Step, Intact, Tears;
    ConflictHistory(q, r);
    TornCommitIsReachable(q, r);
    var h := FollowAll(Opened(ORIGIN, q, r), CONFLICT);
    FollowLast(Opened(ORIGIN, q, r), CONFLICT, Commit(1));
    FollowKeeps(h, Commit(1));
  }

  // ---- The index ------------------------------------------------------------

  const TORN_CELL := Key(0, 0, 1)

  lemma TornCellLive()
    ensures Vectors.Live([ADDED, GONE], TORN_CELL, [5])
    ensures !Vectors.Live([EMPTY, GONE], TORN_CELL, [5])
  {
    assert ADDED.rows[0].id == 1 && Vectors.RowHolds(ADDED.rows[0], 0, [5]);
  }

  /** After the tear a committed vector is missing from the index, however much of the
      overlay has been drained. */
  lemma IndexMissesTornVector(q: nat, r: nat)
    requires q > 0 && r > 0
    ensures var h := FollowAll(Opened(ORIGIN, q, r), CONFLICT + [Commit(1)]);
            && Vectors.Live(h.st.stores, TORN_CELL, [5])
            && Vectors.Indexed(h, TORN_CELL) != Some(Delta(h.st.sequence, TORN_CELL, [5]))
            && !Vectors.IndexCurrent(h)
  {
    hide HistoryOk, FollowAll, Vectors.Live, Vectors.OverlayOk, Vectors.Indexed;
    TornHistory(q, r);
    TornCellLive();
    OriginOk();
    OpenedOk(ORIGIN, q, r);
    Vectors.OpenedOverlay(ORIGIN, q, r);
    Vectors.RunsKeepOverlay(Opened(ORIGIN, q, r), CONFLICT + [Commit(1)]);
    var h := FollowAll(Opened(ORIGIN, q, r), CONFLICT + [Commit(1)]);
    Vectors.IndexHoldsLastPublished(h, TORN_CELL, [5]);
  }

  // ---- A cell nobody wrote --------------------------------------------------

  lemma FilledCells()
    ensures StoresOk([FILLED]) && Cells([FILLED]) == [Cell(Key(0, 0, 1), [7])]
  {
    TableBuilds([117]);
    RowFits(OTHER, 7);
    OneCell(OTHER, 7);
  }

  lemma OneCell(table: TableDef, i: U32)
    ensures Cells([Store(table, [Row(1, [Vector([i])])], 2)]) == [Cell(Key(0, 0, 1), [i])]
  {
    var row := Row(1, [Vector([i])]);
    var s := Store(table, [row], 2);
    assert RowCells(0, row, 1) == [];
    assert RowCells(0, row, 0) == [Cell(Key(0, 0, 1), [i])] + [];
    assert s.rows[1..] == [];
    assert RowsCells(0, s.rows) == RowCells(0, row, 0) + [];
    assert CellsFrom([s], 1) == [];
  }

  /** One stored vector, two transactions that write nothing, two drains: the vector is
      handed out twice. */
  lemma DrainedTwice(q: nat, r: nat)
    requires q > 0
    ensures StoresOk([FILLED])
    ensures var st1 := Run(Open([FILLED], q, r), Vectors.ROUND);
            var (st2, first) := Step(st1, Drain(1, 1));
            var (st4, second) := Step(Run(st2, Vectors.ROUND), Drain(2, 1));
            && first == Drained([Delta(1, Key(0, 0, 1), [7])])
            && second == Drained([Delta(2, Key(0, 0, 1), [7])])
            && st4.stores == [FILLED]
  {
    hide Run, Step, Cells;
    FilledCells();
    Vectors.DrainedWithoutAWrite([FILLED], Cell(Key(0, 0, 1), [7]), q, r);
  }

  // ---- A write nobody gets --------------------------------------------------

  const CHANGED := Store(TABLE, [Row(1, [Vector([6])])], 2)
  const CLEARED := Store(TABLE, [], 2)
  const UPDATED := TableTx(0, Tx.Tx(Tx.Active, 2, [], [Row(1, [Vector([6])])], []))

  lemma SmallStoresOk()
    ensures StoresOk([EMPTY]) && StoresOk([ADDED]) && StoresOk([CHANGED]) && StoresOk([CLEARED])
    ensures Rebuildable(TABLE)
  {
    hide StoreOk, Built, Rebuildable;
    TableBuilds([116]);
    OneRowOk(TABLE, 5);
    OneRowOk(TABLE, 6);
  }

  lemma PublishesInsert()
    ensures Tx.Insert(Tx.Begin(EMPTY), TABLE, [Vector([5])]) == Ok(INSERTED.tx)
    ensures Tx.Publish(INSERTED.tx, EMPTY) == Ok(ADDED)
  {
    RowFits(TABLE, 5);
    assert [] + [Row(1, [Vector([5])])] == INSERTED.tx.inserts;
    assert [] + ADDED.rows == ADDED.rows;
    assert InsertWithId(EMPTY, 1, [Vector([5])]) == Ok(ADDED);
    assert INSERTED.tx.inserts[1..] == [];
    assert Tx.ApplyInserts(EMPTY, INSERTED.tx.inserts) == Ok(ADDED);
  }

  lemma PublishesUpdate()
    ensures HasId(ADDED.rows, 1)
    ensures Tx.Update(Tx.Begin(ADDED), ADDED, 1, [Vector([6])]) == Ok(UPDATED.tx)
    ensures Tx.Publish(UPDATED.tx, ADDED) == Ok(CHANGED)
  {
    assert ADDED.rows[0].id == 1;
    RowFits(TABLE, 6);
    assert [] + [Row(1, [Vector([6])])] == UPDATED.tx.updates;
    assert UPDATED.tx.updates[1..] == [];
    assert ReplaceId(ADDED.rows, 1, [Vector([6])]) == [Row(1, [Vector([6])])] + ADDED.rows[1..] == CHANGED.rows;
    assert UpdateRow(ADDED, 1, [Vector([6])]) == Ok(CHANGED);
    assert Tx.ApplyUpdates(ADDED, UPDATED.tx.updates) == Ok(CHANGED);
  }

  const INSERTS := [Begin(1), StageInsert(1, 0, [Vector([5])]), Commit(1)]
  const UPDATES := [Begin(1), StageUpdate(1, 0, 1, [Vector([6])]), Commit(1)]

  lemma InsertRound(q: nat, r: nat)
    requires q > 0 && r > 1
    ensures var st := Run(Open([EMPTY], q, r), INSERTS);
            && Inv(st) && Idle(st, 1) && Roomy(st, 1) && st.stores == [ADDED] && st.sequence == 1
            && st.overlay == [Delta(1, Key(0, 0, 1), [5])] && st.sessions.Keys == {1}
  {
    hide Run, Tx.Publish, StoresOk, Rebuildable, Inv;
    SmallStoresOk();
    PublishesInsert();
    var st0 := Open([EMPTY], q, r);
    OpenInv([EMPTY], q, r);
    RunKeeps(st0, INSERTS);
    OneRound(st0, 1, INSERTS[1], INSERTED.tx, ADDED);
    assert [EMPTY][0 := ADDED] == [ADDED];
    OneCell(TABLE, 5);
    assert [Cell(Key(0, 0, 1), [5])][1..] == [];
  }

  lemma UpdateRound(st: State)
    requires Inv(st) && Idle(st, 1) && Roomy(st, 1) && st.stores == [ADDED] && st.sequence == 1
    requires st.overlay == [Delta(1, Key(0, 0, 1), [5])] && st.sessions.Keys == {1}
    ensures Run(st, UPDATES).stores == [CHANGED]
    ensures Run(st, UPDATES).overlay == [Delta(2, Key(0, 0, 1), [6])]
  {
    hide Run, Step, Tx.Publish, StoresOk, AllRebuildable, Inv, ReadTable;
    PublishesUpdate();
    SeesLive(st, 1);
    OneRound(st, 1, UPDATES[1], UPDATED.tx, CHANGED);
    assert [ADDED][0 := CHANGED] == [CHANGED];
    OneCell(TABLE, 6);
    assert [Cell(Key(0, 0, 1), [6])][1..] == [];
    assert [Delta(1, Key(0, 0, 1), [5])][1..] == [];
  }

  lemma {:induction false} NothingDrained(h: History, commands: seq<Command>)
    requires forall i :: 0 <= i < |commands| ==> !commands[i].Drain?
    ensures FollowAll(h, commands).drained == h.drained
    decreases |commands|
  {
    hide Step;
    if commands != [] {
      DrainsNothing(h.st, commands[0]);
      NothingDrained(Follow(h, commands[0]), commands[1..]);
    }
  }

  lemma DrainsNothing(st: State, c: Command)
    requires !c.Drain?
    ensures !Step(st, c).1.Drained?
  {
    hide RetainCurrent, PublishAll, RollbackAll, EntryFor, Release, ReadTable, RecordAll, Cells;
  }

  lemma BothTouch()
    ensures BatchTouches([EMPTY], [INSERTED]) && BatchTouches([ADDED], [UPDATED])
    ensures Writes([EMPTY], [INSERTED], Key(0, 0, 1), [5])
  {
    assert HasId(UPDATED.tx.updates, 1) by { assert UPDATED.tx.updates[0].id == 1; }
    assert TouchedIn([UPDATED], 0, 1) by { assert [UPDATED][0].table == 0; }
    PublishesInsert();
    assert WrittenRows(INSERTED.tx, EMPTY) == ADDED.rows by {
      hide Tx.Publish;
      assert Tx.Edited(INSERTED.tx, EMPTY).rows == [];
      assert [] + ADDED.rows[0..] == ADDED.rows;
    }
    hide WrittenRows;
    assert ADDED.rows[0].id == 1 && Vectors.RowHolds(ADDED.rows[0], 0, [5]);
    assert RowsHold(ADDED.rows, 1, 0, [5]);
    assert [INSERTED][0] == INSERTED && [EMPTY][0] == EMPTY;
  }

  /** Two commits that touch everything they should, and no drain between them: the vector
      the first one wrote is neither drained nor waiting. */
  lemma WriteIsReplaced(q: nat, r: nat)
    requires q > 0 && r > 1
    ensures var h := FollowAll(Opened([EMPTY], q, r), INSERTS + UPDATES);
            && h.st.stores == [CHANGED] && Log.Stream(h) == [Delta(2, Key(0, 0, 1), [6])]
    ensures BatchTouches([EMPTY], [INSERTED]) && BatchTouches([ADDED], [UPDATED])
    ensures Writes([EMPTY], [INSERTED], Key(0, 0, 1), [5])
  {
    hide Run, Inv, Roomy, Idle, FollowAll, BatchTouches, Writes;
    BothTouch();
    InsertRound(q, r);
    UpdateRound(Run(Open([EMPTY], q, r), INSERTS));
    RunJoins(Open([EMPTY], q, r), INSERTS, UPDATES);
    FollowRuns(Opened([EMPTY], q, r), INSERTS + UPDATES);
    NothingDrained(Opened([EMPTY], q, r), INSERTS + UPDATES);
    var d := Delta(2, Key(0, 0, 1), [6]);
    assert [] + [d] == [d];
  }

  // ---- A row id given out again ---------------------------------------------

  const DROPPED := Tx.Tx(Tx.Active, 2, [], [], [1])
  const LATE := Tx.Tx(Tx.Active, 2, [Row(1, [Vector([6])])], [], [])

  lemma PublishesDelete()
    ensures HasId(ADDED.rows, 1)
    ensures Tx.Delete(Tx.Begin(ADDED), ADDED, 1) == Ok(DROPPED)
    ensures Tx.Publish(DROPPED, ADDED) == Ok(CLEARED)
  {
    assert ADDED.rows[0].id == 1;
    assert [] + [1] == DROPPED.deletes && DROPPED.deletes[1..] == [];
    assert ADDED.rows[1..] == [] && RemoveId(ADDED.rows, 1) == [];
    assert DeleteRow(ADDED, 1) == Ok(CLEARED);
    assert Tx.ApplyDeletes(ADDED, [1]) == Ok(CLEARED);
  }

  lemma PublishesLate()
    ensures Tx.Insert(Tx.Begin(EMPTY), TABLE, [Vector([6])]) == Ok(LATE)
    ensures Tx.Publish(LATE, CLEARED) == Ok(CHANGED)
  {
    RowFits(TABLE, 6);
    assert [] + [Row(1, [Vector([6])])] == LATE.inserts;
    assert [] + CHANGED.rows == CHANGED.rows;
    assert InsertWithId(CLEARED, 1, [Vector([6])]) == Ok(CHANGED);
    assert LATE.inserts[1..] == [];
    assert Tx.ApplyInserts(CLEARED, LATE.inserts) == Ok(CHANGED);
  }

  // Session 1 opens its entry and pauses; session 2 inserts a row, then deletes it;
  // session 1 goes on.
  const OPENS := [Begin(1), Touch(1, 0)]
  const ADDS := [Begin(2), StageInsert(2, 0, [Vector([5])]), Commit(2)]
  const DROPS := [Begin(2), StageDelete(2, 0, 1), Commit(2)]
  const GOES_ON := [StageInsert(1, 0, [Vector([6])]), Commit(1)]

  // Session 1 is in the middle of its transaction, at generation 0.
  ghost predicate Paused(st: State) {
    && Inv(st) && st.sessions.Keys <= {1, 2} && Idle(st, 2)
    && SessionOf(st, 1) == InTransaction(0, [TableTx(0, Tx.Begin(EMPTY))])
  }

  lemma Opens(q: nat, r: nat)
    requires q > 0 && r > 2
    ensures var st := Run(Open([EMPTY], q, r), OPENS);
            Paused(st) && Roomy(st, 3) && st.stores == [EMPTY] && st.sequence == 0
  {
    hide Tx.Publish, StoresOk, Rebuildable, Inv, ReadTable, Step;
    SmallStoresOk();
    var st0 := Open([EMPTY], q, r);
    OpenInv([EMPTY], q, r);
    RunKeeps(st0, OPENS);
    SeesLive(st0, 1);
    Begins(st0, 1);
    var st1 := Step(st0, Begin(1)).0;
    StagesFirst(st1, 1, Touch(1, 0), Tx.Begin(EMPTY));
    TwoSteps(st0, OPENS[0], OPENS[1]);
  }

  lemma Adds(st: State)
    requires Paused(st) && Roomy(st, 3) && st.stores == [EMPTY]
    ensures var st1 := Run(st, ADDS);
            Paused(st1) && Roomy(st1, 2) && st1.stores == [ADDED] && st1.sequence == st.sequence + 1
  {
    hide Run, Step, Tx.Publish, StoresOk, Rebuildable, Inv, ReadTable;
    SmallStoresOk();
    PublishesInsert();
    RunKeeps(st, ADDS);
    OneRound(st, 2, ADDS[1], INSERTED.tx, ADDED);
    assert [EMPTY][0 := ADDED] == [ADDED];
  }

  lemma Drops(st: State)
    requires Paused(st) && Roomy(st, 2) && st.stores == [ADDED] && st.sequence > 0
    ensures var st1 := Run(st, DROPS);
            Paused(st1) && Roomy(st1, 1) && st1.stores == [CLEARED]
  {
    hide Run, Step, Tx.Publish, StoresOk, Rebuildable, Inv, ReadTable;
    SmallStoresOk();
    PublishesDelete();
    RunKeeps(st, DROPS);
    SeesLive(st, 2);
    OneRound(st, 2, DROPS[1], DROPPED, CLEARED);
    assert [ADDED][0 := CLEARED] == [CLEARED];
  }

  lemma GoesOn(st: State)
    requires Paused(st) && Roomy(st, 1) && st.stores == [CLEARED]
    ensures Run(st, GOES_ON).stores == [CHANGED]
  {
    hide Step, Tx.Publish, StoresOk, Rebuildable, Inv, ReadTable;
    PublishesLate();
    StagesAgain(st, 1, GOES_ON[0], Tx.Begin(EMPTY), LATE);
    Commits(Step(st, GOES_ON[0]).0, 1, LATE, CHANGED);
    TwoSteps(st, GOES_ON[0], GOES_ON[1]);
    assert [CLEARED][0 := CHANGED] == [CHANGED];
  }

  /** A committed row is deleted, and the next committed row takes its id: the first is gone
      for good, and whoever remembered its id now finds another row. */
  lemma RowIdComesBack(q: nat, r: nat)
    requires q > 0 && r > 2
    ensures var st := Open([EMPTY], q, r);
            && Run(st, OPENS + ADDS).stores == [ADDED]
            && Run(st, OPENS + ADDS + DROPS).stores == [CLEARED]
            && Run(st, OPENS + ADDS + DROPS + GOES_ON).stores == [CHANGED]
    ensures ADDED.rows[0].id == CHANGED.rows[0].id < CLEARED.nextId && CLEARED.rows == []
  {
    hide Run, Paused, Roomy;
    var st := Open([EMPTY], q, r);
    Opens(q, r);
    Adds(Run(st, OPENS));
    RunJoins(st, OPENS, ADDS);
    Drops(Run(st, OPENS + ADDS));
    RunJoins(st, OPENS + ADDS, DROPS);
    RunJoins(st, OPENS + ADDS + DROPS, GOES_ON);
    GoesOn(Run(st, OPENS + ADDS + DROPS));
  }

  // ---- The file -------------------------------------------------------------

  function Events(commands: seq<Command>): (r: seq<Event>)
    ensures |r| == |commands|
  {
    seq(|commands|, i requires 0 <= i < |commands| => Db(commands[i]))
  }

  lemma {:induction false} EventsFollow(m: Machine, commands: seq<Command>)
    ensures After(m, Events(commands)) == m.(h := FollowAll(m.h, commands))
    decreases |commands|
  {
    hide Follow;
    if commands != [] {
      assert Events(commands)[1..] == Events(commands[1..]);
      EventsFollow(m.(h := Follow(m.h, commands[0])), commands[1..]);
    }
  }

  const ORIGINAL := Running(ORIGIN, [], [])

  lemma OriginNames()
    ensures File.NamesApart(OnFile(ORIGINAL))
  {
    assert Folded([116])[0] != Folded([117])[0];
    assert !NamesEqual([116], [117]);
  }

  lemma TornDatabaseFits(m: Machine)
    requires m.views == [] && m.procedures == []
    ensures Limits.Fits(OnFile(With(m, [ADDED, GONE])))
  {
    assert Written([]) == [];
    assert Limits.ColumnFits(COLUMN);
    assert Limits.RowFits(Row(1, [Vector([5])]));
    assert Limits.TableFits(ADDED) && Limits.TableFits(GONE);
  }

  /** A checkpoint installed after the tear: the file holds committed rows, and the state
      of no generation. */
  lemma FileHoldsNoGeneration(q: nat, r: nat)
    requires q > 0 && r > 0
    ensures var m := After(Launch(ORIGINAL, q, r), Events(CONFLICT + [Commit(1)]));
            var m1 := Next(m, Save(true));
            && SaveBytes(m).Ok? && m1.saved == Some(Saved(1, [ADDED, GONE]))
            && !HoldsGeneration(m1)
            && forall g :: 0 <= g < |m1.h.states| ==> m1.h.states[g] != m1.saved.value.stores
  {
    hide HistoryOk, FollowAll, SaveBytes, Kept, File.NamesApart, After, StoresOk, AllRebuildable, Limits.Fits;
    OriginOk();
    OriginNames();
    TornHistory(q, r);
    LaunchKept(ORIGINAL, q, r);
    FileIsACommittedState(Launch(ORIGINAL, q, r), Events(CONFLICT + [Commit(1)]));
    EventsFollow(Launch(ORIGINAL, q, r), CONFLICT + [Commit(1)]);
    var m := After(Launch(ORIGINAL, q, r), Events(CONFLICT + [Commit(1)]));
    TornDatabaseFits(m);
    Limits.SavesExactly(m);
    Distinct();
  }

  // ---- A checkpoint without a file ------------------------------------------

  const TICKET := [CheckpointBegin, CheckpointComplete]

  /** The ticket of a checkpoint is not tied to the file: generation 1 is reported complete,
      and nothing was ever written. */
  lemma CompletedWithoutAFile(q: nat, r: nat)
    requires q > 0 && r > 0
    ensures var m := After(Launch(ORIGINAL, q, r), Events(CONFLICT + TICKET));
            m.h.st.worker.lastCompleted == m.h.st.sequence == 1 && m.file.None?
  {
    hide Run, Step, FollowAll, After;
    EventsFollow(Launch(ORIGINAL, q, r), CONFLICT + TICKET);
    FollowRuns(Opened(ORIGIN, q, r), CONFLICT + TICKET);
    TornCommitIsReachable(q, r);
    var st := Run(Open(ORIGIN, q, r), CONFLICT);
    RunJoins(Open(ORIGIN, q, r), CONFLICT, TICKET);
    OriginOk();
    OpenInv(ORIGIN, q, r);
    RunKeeps(Open(ORIGIN, q, r), CONFLICT);
    ConflictLeavesTicket(q, r);
    TwoSteps(st, TICKET[0], TICKET[1]);
    TicketSteps(st);
  }

  lemma TicketSteps(st: State)
    requires st.worker.running.None?
    ensures var st1 := Step(Step(st, CheckpointBegin).0, CheckpointComplete).0;
            st1.worker.lastCompleted == st.sequence && st1.sequence == st.sequence
  {}

  lemma ConflictLeavesTicket(q: nat, r: nat)
    requires q > 0 && r > 0
    ensures Run(Open(ORIGIN, q, r), CONFLICT).worker.running.None?
  {
    hide Step;
    NoTicketTaken(Open(ORIGIN, q, r), CONFLICT);
  }

  lemma {:induction false} NoTicketTaken(st: State, commands: seq<Command>)
    requires st.worker.running.None?
    requires forall i :: 0 <= i < |commands| ==>
               !commands[i].CheckpointBegin? && !commands[i].CheckpointComplete? && !commands[i].CheckpointFail?
    ensures Run(st, commands).worker.running.None?
    decreases |commands|
  {
    hide Step;
    if commands != [] {
      OthersKeepWorker(st, commands[0]);
      NoTicketTaken(Step(st, commands[0]).0, commands[1..]);
    }
  }

  lemma Distinct()
    ensures ORIGIN != [ADDED, GONE] && [EMPTY, GONE] != [ADDED, GONE]
  {
    assert ORIGIN[0].rows != [ADDED, GONE][0].rows;
    assert [EMPTY, GONE][0].rows != [ADDED, GONE][0].rows;
  }
}
