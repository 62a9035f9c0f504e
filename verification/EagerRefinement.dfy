/** The two snapshot designs: clone every table at BEGIN, or take a generation
    handle and keep rows only when a writer moves on. The engine does the second;
    here it is shown to do what the first would. */
module EagerRefinement {
  import opened Values
  import opened Rows
  import Tx = Transactions
  import opened Engine
  import opened EngineInvariant
  import opened Snapshots
  import opened Replay

  datatype EagerSession = EagerSession(
    active: bool, snapshot: seq<Store>, txs: seq<TableTx>, lastCommit: Option<nat>)

  /** The simple machine: no registry, no queue, no retention. */
  datatype Eager = Eager(stores: seq<Store>, sequence: nat, sessions: map<nat, EagerSession>)

  const NoEagerSession := EagerSession(false, [], [], None)

  function EagerOf(e: Eager, sid: nat): EagerSession {
    if sid in e.sessions then e.sessions[sid] else NoEagerSession
  }

  function Put(e: Eager, sid: nat, s: EagerSession): Eager {
    e.(sessions := e.sessions[sid := s])
  }

  function EagerStage(e: Eager, sid: nat, table: nat, op: (Tx.Tx, Store) -> Result<Tx.Tx>): (Eager, Outcome) {
    var s := EagerOf(e, sid);
    if !s.active then (e, Refused(TransactionRequired))
    else if table >= |e.stores| then (e, Refused(UnknownObject))
    else
      var txs := WithEntry(e.stores, s.txs, table);
      var at := EntryFor(txs, table);
      if at.None? then (e, Refused(UnknownObject))
      else
        match op(txs[at.value].tx, e.stores[table])
        case Err(err) => (Put(e, sid, s.(txs := txs)), Refused(err))
        case Ok(tx) => (Put(e, sid, s.(txs := txs[at.value := TableTx(table, tx)])), Done)
  }

  function EagerCommit(e: Eager, sid: nat): (Eager, Outcome) {
    var s := EagerOf(e, sid);
    if !s.active then (e, Refused(NoActiveTransaction))
    else if s.txs == [] then (Put(e, sid, EagerSession(false, [], [], Some(e.sequence))), Done)
    else
      var p := PublishAll(e.stores, s.txs);
      if p.error.Some? then (Put(e.(stores := p.stores), sid, s.(txs := p.txs)), Refused(p.error.value))
      else (Put(e.(stores := p.stores, sequence := e.sequence + 1), sid,
                EagerSession(false, [], [], Some(e.sequence + 1))), Done)
  }

  function EagerRollback(e: Eager, sid: nat): (Eager, Outcome) {
    var s := EagerOf(e, sid);
    if !s.active then (e, Refused(NoActiveTransaction))
    else
      var (txs, failed) := RollbackAll(s.txs);
      if failed.Some? then (Put(e, sid, s.(txs := txs)), Refused(failed.value))
      else (Put(e, sid, EagerSession(false, [], [], s.lastCommit)), Done)
  }

  function EagerRead(e: Eager, sid: nat, table: nat): Result<seq<Row>> {
    if table >= |e.stores| then Err(UnknownObject)
    else
      var s := EagerOf(e, sid);
      if s.active && table >= |s.snapshot| then Err(SnapshotRetentionExceeded)
      else
        var base := if s.active then s.snapshot[table] else e.stores[table];
        var entry := EntryFor(s.txs, table);
        if entry.Some? then Tx.Scan(s.txs[entry.value].tx, base) else Ok(base.rows)
  }

  function EagerStep(e: Eager, c: Command): (Eager, Outcome) {
    match c
    case Begin(sid) =>
      var s := EagerOf(e, sid);
      if s.active then (e, Refused(TransactionActive))
      else (Put(e, sid, s.(active := true, snapshot := e.stores)), Done)
    case Touch(sid, t) => EagerStage(e, sid, t, TouchOp(EagerRead(e, sid, t)))
    case StageInsert(sid, t, vs) => EagerStage(e, sid, t, InsertOp(vs))
    case StageUpdate(sid, t, id, vs) => EagerStage(e, sid, t, UpdateOp(EagerRead(e, sid, t), id, vs))
    case StageDelete(sid, t, id) => EagerStage(e, sid, t, DeleteOp(EagerRead(e, sid, t), id))
    case Commit(sid) => EagerCommit(e, sid)
    case Rollback(sid) => EagerRollback(e, sid)
    case CloseSession(sid) => (Put(e, sid, NoEagerSession), Done)
    case Read(sid, t) =>
      (match EagerRead(e, sid, t)
       case Ok(rows) => (e, Seen(rows))
       case Err(err) => (e, Refused(err)))
    case _ => (e, Done)
  }

  // ---- The relation ---------------------------------------------------------

  /** A session of the engine and its clone-on-BEGIN counterpart can tell nothing apart:
      same writes, and the same base rows for every table the session can still read. */
  ghost predicate SameView(st: State, s: Session, e: EagerSession) {
    && s.active == e.active && s.txs == e.txs && s.lastCommit == e.lastCommit
    && (s.active ==>
          var base := Base(st, s.generation);
          && |e.snapshot| == |st.stores| == |base|
          && forall t :: 0 <= t < |base| && OpenFor(s.txs, t) ==> e.snapshot[t].rows == base[t].rows)
  }

  ghost predicate Shadows(st: State, e: Eager) {
    && e.stores == st.stores && e.sequence == st.sequence && e.sessions.Keys == st.sessions.Keys
    && forall sid :: sid in st.sessions ==> SameView(st, st.sessions[sid], e.sessions[sid])
  }

  /** The eager state a lazy state stands for. */
  function Abs(st: State): Eager {
    Eager(st.stores, st.sequence, map sid | sid in st.sessions ::
      var s := st.sessions[sid];
      EagerSession(s.active, if s.active then Base(st, s.generation) else [], s.txs, s.lastCommit))
  }

  lemma AbsShadows(st: State)
    requires Inv(st)
    ensures Shadows(st, Abs(st))
  {
    forall sid | sid in st.sessions ensures SameView(st, st.sessions[sid], Abs(st).sessions[sid]) {
      assert SessionOk(st, st.sessions[sid]);
      if st.sessions[sid].active { BaseOlder(st, st.sessions[sid].generation); }
    }
  }

  ghost predicate ReadsEqual(st: State, e: Eager) {
    forall sid: nat, t: nat :: ReadTable(st, sid, t) == EagerRead(e, sid, t)
  }

  /** Related states read alike, session by session and table by table. */
  lemma ShadowsRead(st: State, e: Eager)
    requires Inv(st) && Shadows(st, e)
    ensures ReadsEqual(st, e)
  {
    hide Inv;
    forall sid: nat, t: nat ensures ReadTable(st, sid, t) == EagerRead(e, sid, t) {
      if t < |st.stores| && sid in st.sessions && st.sessions[sid].active {
        BaseIsWhatIsRead(st, sid, t);
      }
    }
  }

  // ---- Entries --------------------------------------------------------------

  lemma {:induction false} EntryForTables(a: seq<TableTx>, b: seq<TableTx>, t: nat)
    requires |a| == |b| && forall i :: 0 <= i < |a| ==> a[i].table == b[i].table
    ensures EntryFor(a, t) == EntryFor(b, t)
  {
    if a != [] && a[0].table != t { EntryForTables(a[1..], b[1..], t); }
  }

  lemma {:induction false} EntryForAppend(txs: seq<TableTx>, x: TableTx, t: nat)
    ensures EntryFor(txs + [x], t) ==
            if EntryFor(txs, t).Some? then EntryFor(txs, t) else if x.table == t then Some(|txs|) else None
  {
    if txs == [] {
      assert txs + [x] == [x] && [x][1..] == [];
    } else if txs[0].table != t {
      assert (txs + [x])[1..] == txs[1..] + [x];
      EntryForAppend(txs[1..], x, t);
    }
  }

  // Entry lists over the same tables, in which nothing that was over is open again.
  ghost predicate Closes(a: seq<TableTx>, b: seq<TableTx>) {
    && |a| == |b| && (forall i :: 0 <= i < |a| ==> a[i].table == b[i].table)
    && forall i :: 0 <= i < |a| && b[i].tx.state.Active? ==> a[i].tx.state.Active?
  }

  lemma ClosesOpen(a: seq<TableTx>, b: seq<TableTx>, t: nat)
    requires Closes(a, b) && OpenFor(b, t)
    ensures OpenFor(a, t)
  {
    EntryForTables(a, b, t);
  }

  lemma WithEntryOpen(stores: seq<Store>, txs: seq<TableTx>, table: nat, t: nat)
    requires table < |stores| && OpenFor(WithEntry(stores, txs, table), t)
    ensures OpenFor(txs, t)
  {
    if EntryFor(txs, table).None? {
      EntryForAppend(txs, TableTx(table, Tx.Begin(stores[table])), t);
    }
  }

  // ---- Everybody but the actor ----------------------------------------------

  lemma InactiveUntouched(st: State, c: Command, o: nat)
    requires o in st.sessions && Actor(c) != Some(o)
    ensures o in Step(st, c).0.sessions && Step(st, c).0.sessions[o] == st.sessions[o]
  {
    hide RetainCurrent, PublishAll, RollbackAll, EntryFor, Release, ReadTable, RecordAll;
  }

  lemma OthersSame(st: State, e: Eager, c: Command, o: nat)
    requires Inv(st) && Shadows(st, e) && o in st.sessions && Actor(c) != Some(o)
    ensures o in Step(st, c).0.sessions && SameView(Step(st, c).0, Step(st, c).0.sessions[o], e.sessions[o])
  {
    hide Inv, Step, Base, OpenFor;
    if st.sessions[o].active {
      OtherReadersUndisturbed(st, c, o, 0);
    } else {
      InactiveUntouched(st, c, o);
    }
  }

  // The two machines meet again when they agree on the stores and on the actor.
  lemma Meet(st: State, e: Eager, c: Command, sid: nat, es: EagerSession, e1: Eager)
    requires Inv(st) && Shadows(st, e) && Actor(c) == Some(sid)
    requires e1.sessions == e.sessions[sid := es]
    requires var st1 := Step(st, c).0;
             && e1.stores == st1.stores && e1.sequence == st1.sequence
             && st1.sessions.Keys == st.sessions.Keys + {sid}
             && SameView(st1, st1.sessions[sid], es)
    ensures Shadows(Step(st, c).0, e1)
  {
    hide Inv, Step, SameView;
    var st1 := Step(st, c).0;
    forall o | o in st1.sessions ensures SameView(st1, st1.sessions[o], e1.sessions[o]) {
      if o != sid { OthersSame(st, e, c, o); }
    }
  }

  // ---- One step -------------------------------------------------------------

  predicate SessionCommand(c: Command) {
    !(c.CheckpointBegin? || c.CheckpointComplete? || c.CheckpointFail? || c.Drain?)
  }

  ghost predicate Simulates(st: State, e: Eager, c: Command) {
    && Shadows(Step(st, c).0, EagerStep(e, c).0)
    && (SessionCommand(c) ==> Step(st, c).1 == EagerStep(e, c).1)
  }

  lemma SameSession(st: State, e: Eager, sid: nat)
    requires Shadows(st, e)
    ensures var s := SessionOf(st, sid); var es := EagerOf(e, sid);
            && s.active == es.active && s.txs == es.txs && s.lastCommit == es.lastCommit
            && (sid in st.sessions <==> sid in e.sessions)
  {}

  lemma SameBase(st: State, st1: State, s: Session, s1: Session, e: EagerSession)
    requires SameView(st, s, e) && s.active && s1.active && s1.generation == s.generation
             && s1.lastCommit == s.lastCommit
    requires st1.registry.retained == st.registry.retained && st1.stores == st.stores
    requires forall t: nat :: OpenFor(s1.txs, t) ==> OpenFor(s.txs, t)
    ensures SameView(st1, s1, e.(txs := s1.txs))
  {}

  lemma SimulatesStage(st: State, e: Eager, c: Command, sid: nat, table: nat, op: (Tx.Tx, Store) -> Result<Tx.Tx>)
    requires Inv(st) && Shadows(st, e) && Actor(c) == Some(sid) && InertWhenOver(op)
    requires Step(st, c) == StageStep(st, sid, table, op)
    requires EagerStep(e, c) == EagerStage(e, sid, table, op)
    ensures Simulates(st, e, c)
  {
    hide Inv, Step, EagerStep, SameView, EntryFor, OpenFor;
    SameSession(st, e, sid);
    var s := SessionOf(st, sid);
    if s.active && table < |st.stores| {
      var txs := WithEntry(st.stores, s.txs, table);
      var at := EntryFor(txs, table);
      if at.Some? {
        var st1 := Step(st, c).0;
        var s1 := st1.sessions[sid];
        forall t: nat | OpenFor(s1.txs, t) ensures OpenFor(s.txs, t) {
          assert Closes(txs, s1.txs);
          ClosesOpen(txs, s1.txs, t);
          WithEntryOpen(st.stores, s.txs, table, t);
        }
        SameBase(st, st1, s, s1, e.sessions[sid]);
        Meet(st, e, c, sid, e.sessions[sid].(txs := s1.txs), EagerStep(e, c).0);
      }
    }
  }

  /** Reading the current generation means reading the live rows: it is not retained, or
      it was retained with the rows the stores still have. */
  ghost predicate Settled(st: State) {
    var base := Base(st, st.sequence);
    |base| == |st.stores| && forall t :: 0 <= t < |base| ==> base[t].rows == st.stores[t].rows
  }

  lemma BeginView(st: State, e: Eager, sid: nat)
    requires Inv(st) && Shadows(st, e) && !SessionOf(st, sid).active
    ensures var st1 := Step(st, Begin(sid)).0; var e1 := EagerStep(e, Begin(sid)).0;
            && Step(st, Begin(sid)).1 == EagerStep(e, Begin(sid)).1 == Done
            && ActiveIn(st1, sid) && st1.sessions[sid].txs == [] && st1.sessions[sid].generation == st.sequence
            && st1.stores == st.stores && Base(st1, st.sequence) == Base(st, st.sequence)
            && sid in e1.sessions && e1.sessions[sid].active && e1.sessions[sid].snapshot == st.stores
            && e1.sessions[sid].txs == []
            && |Base(st, st.sequence)| == |st.stores|
            && st1.sequence == st.sequence && st1.sessions.Keys == st.sessions.Keys + {sid}
            && e1 == Put(e, sid, e1.sessions[sid]) && e1.sessions[sid].lastCommit == st1.sessions[sid].lastCommit
  {
    SameSession(st, e, sid);
    BaseOlder(st, st.sequence);
    assert sid in st.sessions ==> SessionOk(st, st.sessions[sid]);
    hide Inv, AddRef;
  }

  /** BEGIN on an idle session does what a full clone would, for every later read of that
      session, if and only if the current generation is settled. */
  lemma BeginRefinesExactly(st: State, e: Eager, sid: nat)
    requires Inv(st) && Shadows(st, e) && !SessionOf(st, sid).active
    ensures Settled(st) ==> Simulates(st, e, Begin(sid))
    ensures ReadsEqual(Step(st, Begin(sid)).0, EagerStep(e, Begin(sid)).0) <==> Settled(st)
  {
    hide Inv, Step, EagerStep, Base;
    BeginView(st, e, sid);
    StepKeeps(st, Begin(sid));
    var st1, e1 := Step(st, Begin(sid)).0, EagerStep(e, Begin(sid)).0;
    if Settled(st) {
      Meet(st, e, Begin(sid), sid, e1.sessions[sid], e1);
      ShadowsRead(st1, e1);
    }
    if ReadsEqual(st1, e1) {
      forall t: nat | t < |st.stores| ensures Base(st, st.sequence)[t].rows == st.stores[t].rows {
        assert ReadTable(st1, sid, t) == EagerRead(e1, sid, t);
        BaseIsWhatIsRead(st1, sid, t);
        assert EntryFor([], t).None?;
      }
    }
  }

  /** The commit is turned away for capacity before it publishes anything. The eager
      machine has no such limits. */
  predicate OverCapacity(st: State, c: Command) {
    && c.Commit?
    && var s := SessionOf(st, c.sid);
       s.active && s.txs != [] && !Publishes(st, c.sid)
  }

  lemma OverCapacityIsInvisible(st: State, sid: nat)
    requires Inv(st) && OverCapacity(st, Commit(sid))
    ensures CommitStep(st, sid).0 == st
  {
    if st.queue.limit != 0 && st.queue.pending < st.queue.limit {
      RetainKeeps(st, sid);
      assert st.(registry := st.registry) == st;
    }
  }

  // What a commit does to the parts the eager machine has.
  lemma CommitParts(st: State, e: Eager, sid: nat)
    requires Inv(st) && Shadows(st, e) && !OverCapacity(st, Commit(sid)) && ActiveIn(st, sid)
    ensures var (st1, outcome) := CommitStep(st, sid);
            var (e1, eagerOutcome) := EagerCommit(e, sid);
            && outcome == eagerOutcome && (outcome.Done? || outcome.Refused?)
            && st1.stores == e1.stores && st1.sequence == e1.sequence
            && st1.sessions.Keys == st.sessions.Keys && sid in e1.sessions
            && e1.sessions == e.sessions[sid := e1.sessions[sid]]
            && (outcome.Done? ==> SameView(st1, st1.sessions[sid], e1.sessions[sid]))
            && (outcome.Refused? ==>
                  && Publishes(st, sid)
                  && var p := PublishAll(st.stores, st.sessions[sid].txs);
                     && st1.stores == p.stores && st1.registry == RetainCurrent(st, st.sessions[sid]).0
                     && st1.sessions[sid] == st.sessions[sid].(txs := p.txs)
                     && e1.sessions[sid] == e.sessions[sid].(txs := p.txs))
  {
    hide Inv, Base, Tears, RetainCurrent, PublishAll, RecordAll, Cells, Release;
    InvQueue(st);
    SameSession(st, e, sid);
  }

  // A table the session can still read after a refused commit has kept its store.
  lemma OpenTablesKept(st: State, sid: nat, t: nat)
    requires Inv(st) && ActiveIn(st, sid) && t < |st.stores|
    requires OpenFor(PublishAll(st.stores, st.sessions[sid].txs).txs, t)
    ensures OpenFor(st.sessions[sid].txs, t)
    ensures PublishAll(st.stores, st.sessions[sid].txs).stores[t] == st.stores[t]
  {
    var txs := st.sessions[sid].txs;
    SessionEntries(st, sid);
    PublishKeeps(st.stores, txs);
    var p := PublishAll(st.stores, txs);
    hide Inv, PublishAll, StoresOk, EntriesOk, Older, TxsOk, Tx.Close;
    assert forall i :: 0 <= i < |txs| ==> SameEntry(txs[i], p.txs[i]);
    EntryForTables(txs, p.txs, t);
    if EntryFor(txs, t).Some? {
      var i := EntryFor(txs, t).value;
      assert SameEntry(txs[i], p.txs[i]);
      CloseIsOver(txs[i].tx);
    } else {
      PublishLeaves(st.stores, txs, t);
    }
  }

  lemma CloseIsOver(tx: Tx.Tx)
    ensures !Tx.Close(tx, Tx.Committed).state.Active? && !Tx.Close(tx, Tx.RolledBack).state.Active?
  {}

  lemma RefusedView(st: State, e: Eager, sid: nat)
    requires Inv(st) && Shadows(st, e) && !OverCapacity(st, Commit(sid)) && ActiveIn(st, sid)
    requires CommitStep(st, sid).1.Refused?
    ensures SameView(CommitStep(st, sid).0, CommitStep(st, sid).0.sessions[sid], EagerCommit(e, sid).0.sessions[sid])
  {
    hide Inv, CommitStep, EagerCommit, OverCapacity, PublishAll, RetainCurrent, OpenFor, Publishes;
    CommitParts(st, e, sid);
    RetainKeeps(st, sid);
    var s := st.sessions[sid];
    var mid := st.(registry := RetainCurrent(st, s).0);
    var st1 := CommitStep(st, sid).0;
    var g := s.generation;
    assert Base(mid, g) == Base(st, g);
    assert SameView(st, s, e.sessions[sid]);
    forall t | 0 <= t < |st.stores| && OpenFor(st1.sessions[sid].txs, t)
      ensures OpenFor(s.txs, t) && Base(st1, g)[t].rows == Base(st, g)[t].rows
    {
      OpenTablesKept(st, sid, t);
    }
  }

  lemma IdleCommit(st: State, e: Eager, sid: nat)
    requires Shadows(st, e) && !ActiveIn(st, sid)
    ensures CommitStep(st, sid) == (st, Refused(NoActiveTransaction))
    ensures EagerCommit(e, sid) == (e, Refused(NoActiveTransaction))
  {
    SameSession(st, e, sid);
  }

  // Commits, torn ones included.
  lemma SimulatesCommit(st: State, e: Eager, sid: nat)
    requires Inv(st) && Shadows(st, e) && !OverCapacity(st, Commit(sid))
    ensures Simulates(st, e, Commit(sid))
  {
    hide Inv, OverCapacity, Step, CommitStep, EagerCommit, SameView, Publishes, PublishAll, RetainCurrent;
    StepIsCommit(st, sid);
    if ActiveIn(st, sid) {
      CommitParts(st, e, sid);
      if CommitStep(st, sid).1.Refused? { RefusedView(st, e, sid); }
      Meet(st, e, Commit(sid), sid, EagerCommit(e, sid).0.sessions[sid], EagerCommit(e, sid).0);
    } else {
      IdleCommit(st, e, sid);
    }
  }

  lemma RollbackCloses(txs: seq<TableTx>)
    ensures Closes(txs, RollbackAll(txs).0)
  {
    RollbackEntries(txs);
  }

  lemma SimulatesRollback(st: State, e: Eager, sid: nat)
    requires Inv(st) && Shadows(st, e)
    ensures Simulates(st, e, Rollback(sid))
  {
    hide Inv, RollbackAll, Release, Base, OpenFor;
    SameSession(st, e, sid);
    var s := SessionOf(st, sid);
    if s.active {
      var st1, e1 := Step(st, Rollback(sid)).0, EagerStep(e, Rollback(sid)).0;
      var txs := RollbackAll(s.txs).0;
      if RollbackAll(s.txs).1.Some? {
        RollbackCloses(s.txs);
        forall t: nat | OpenFor(txs, t) ensures OpenFor(s.txs, t) { ClosesOpen(s.txs, txs, t); }
        SameBase(st, st1, s, s.(txs := txs), e.sessions[sid]);
      }
      Meet(st, e, Rollback(sid), sid, e1.sessions[sid], e1);
    }
  }

  lemma SimulatesClose(st: State, e: Eager, sid: nat)
    requires Inv(st) && Shadows(st, e)
    ensures Simulates(st, e, CloseSession(sid))
  {
    hide Inv, Release, Base;
    var e1 := EagerStep(e, CloseSession(sid)).0;
    Meet(st, e, CloseSession(sid), sid, e1.sessions[sid], e1);
  }

  lemma SimulatesBackground(st: State, e: Eager, c: Command)
    requires Inv(st) && Shadows(st, e) && (!SessionCommand(c) || c.Read?)
    ensures Simulates(st, e, c)
  {
    ShadowKeeps(st, c);
    ShadowsRead(st, e);
    hide Inv, ReadTable, EagerRead, DrainReady, OpenFor;
    var st1 := Step(st, c).0;
    if c.Read? { assert ReadTable(st, c.sid, c.table) == EagerRead(e, c.sid, c.table); }
    forall sid | sid in st1.sessions ensures SameView(st1, st1.sessions[sid], e.sessions[sid]) {
      assert SameView(st, st.sessions[sid], e.sessions[sid]);
      assert Base(st1, st.sessions[sid].generation) == Base(st, st.sessions[sid].generation);
    }
  }

  // The only step that can go wrong: BEGIN while the current generation is unsettled.
  ghost predicate WellTimed(st: State, c: Command) {
    c.Begin? && !SessionOf(st, c.sid).active ==> Settled(st)
  }

  /** One step of the engine, a torn commit included, is one step of the clone-on-BEGIN
      machine with the same outcome, or a commit turned away for capacity that changes
      nothing; the one exception is a BEGIN while the current generation is unsettled. */
  lemma StepRefinesEager(st: State, e: Eager, c: Command)
    requires Inv(st) && Shadows(st, e) && WellTimed(st, c)
    ensures if OverCapacity(st, c) then Step(st, c).0 == st else Simulates(st, e, c)
  {
    hide Inv, Shadows, Simulates, StageStep, EagerStage, CommitStep, Settled, InertWhenOver, ReadTable, EagerRead,
      TouchOp, UpdateOp, DeleteOp, InsertOp;
    match c {
      case Begin(sid) =>
        if SessionOf(st, sid).active { BeginTwice(st, e, sid); } else { BeginRefinesExactly(st, e, sid); }
      case Touch(sid, t) =>
        SameScan(st, e, sid, t);
        InertOps(ReadTable(st, sid, t), [], 0);
        SimulatesStage(st, e, c, sid, t, TouchOp(ReadTable(st, sid, t)));
      case StageInsert(sid, t, vs) =>
        InertOps(ReadTable(st, sid, t), vs, 0);
        SimulatesStage(st, e, c, sid, t, InsertOp(vs));
      case StageUpdate(sid, t, id, vs) =>
        SameScan(st, e, sid, t);
        InertOps(ReadTable(st, sid, t), vs, id);
        SimulatesStage(st, e, c, sid, t, UpdateOp(ReadTable(st, sid, t), id, vs));
      case StageDelete(sid, t, id) =>
        SameScan(st, e, sid, t);
        InertOps(ReadTable(st, sid, t), [], id);
        SimulatesStage(st, e, c, sid, t, DeleteOp(ReadTable(st, sid, t), id));
      case Commit(sid) =>
        if OverCapacity(st, c) { OverCapacityIsInvisible(st, sid); } else { SimulatesCommit(st, e, sid); }
      case Rollback(sid) => SimulatesRollback(st, e, sid);
      case CloseSession(sid) => SimulatesClose(st, e, sid);
      case _ => SimulatesBackground(st, e, c);
    }
  }

  lemma BeginTwice(st: State, e: Eager, sid: nat)
    requires Shadows(st, e) && SessionOf(st, sid).active
    ensures Simulates(st, e, Begin(sid))
  {
    SameSession(st, e, sid);
  }

  lemma SameScan(st: State, e: Eager, sid: nat, t: nat)
    requires Inv(st) && Shadows(st, e)
    ensures ReadTable(st, sid, t) == EagerRead(e, sid, t)
  {
    hide Inv, Shadows, ReadTable, EagerRead;
    ShadowsRead(st, e);
  }

  lemma InertOps(seen: Result<seq<Row>>, values: seq<Value>, id: nat)
    ensures InertWhenOver(TouchOp(seen)) && InertWhenOver(InsertOp(values))
    ensures InertWhenOver(UpdateOp(seen, id, values)) && InertWhenOver(DeleteOp(seen, id))
  {}

  // ---- Whole runs -----------------------------------------------------------

  // The eager machine's move for a command: none if the engine was over capacity.
  function Mirror(st: State, e: Eager, c: Command): Eager {
    if OverCapacity(st, c) then e else EagerStep(e, c).0
  }

  function MirrorAll(st: State, e: Eager, commands: seq<Command>): Eager
    decreases |commands|
  {
    if commands == [] then e
    else MirrorAll(Step(st, commands[0]).0, Mirror(st, e, commands[0]), commands[1..])
  }

  /** Every BEGIN of the run finds its generation settled. */
  ghost predicate AllWellTimed(st: State, commands: seq<Command>)
    decreases |commands|
  {
    commands != [] ==> WellTimed(st, commands[0]) && AllWellTimed(Step(st, commands[0]).0, commands[1..])
  }

  /** At every point of the run every session reads in both machines the same rows, or
      the same error, of every table. */
  ghost predicate AgreeThroughout(st: State, e: Eager, commands: seq<Command>)
    decreases |commands|
  {
    ReadsEqual(st, e) &&
    (commands != [] ==> AgreeThroughout(Step(st, commands[0]).0, Mirror(st, e, commands[0]), commands[1..]))
  }

  lemma MirrorShadows(st: State, e: Eager, c: Command)
    requires Inv(st) && Shadows(st, e) && WellTimed(st, c)
    ensures Shadows(Step(st, c).0, Mirror(st, e, c))
  {
    hide Inv, Shadows, WellTimed, Step, OverCapacity, EagerStep;
    StepRefinesEager(st, e, c);
  }

  lemma IllTimedParts(st: State, e: Eager, c: Command)
    requires Inv(st) && Shadows(st, e) && !WellTimed(st, c)
    ensures !ReadsEqual(Step(st, c).0, Mirror(st, e, c))
  {
    hide Inv, Shadows, Settled, Step, EagerStep, ReadsEqual, Simulates;
    BeginRefinesExactly(st, e, c.sid);
  }

  /** Generation handles refine full clones, over every run, torn commits included: all
      reads agree throughout the run if and only if every BEGIN of it finds its
      generation settled, and the engine then stands where the clone-on-BEGIN machine
      stands. */
  lemma {:induction false} LazyRefinesEager(st: State, e: Eager, commands: seq<Command>)
    requires Inv(st) && Shadows(st, e)
    ensures AgreeThroughout(st, e, commands) <==> AllWellTimed(st, commands)
    ensures AllWellTimed(st, commands) ==> Shadows(Run(st, commands), MirrorAll(st, e, commands))
    decreases |commands|
  {
    hide Inv, Shadows, WellTimed, Step, Mirror, ReadsEqual;
    ShadowsRead(st, e);
    if commands != [] {
      var c := commands[0];
      StepKeeps(st, c);
      if WellTimed(st, c) {
        MirrorShadows(st, e, c);
        LazyRefinesEager(Step(st, c).0, Mirror(st, e, c), commands[1..]);
      } else {
        IllTimedParts(st, e, c);
      }
    }
  }

  lemma SerializableSettled(w: World)
    requires Serializable(w)
    ensures Settled(w.st)
  {
    BaseIsPrefix(w, w.st.sequence);
    assert w.log[..w.st.sequence] == w.log;
  }

  /** In a run of harmless steps every BEGIN is well timed. */
  lemma {:induction false} HarmlessIsWellTimed(w: World, commands: seq<Command>)
    requires Serializable(w) && AllHarmless(w.st, commands)
    ensures AllWellTimed(w.st, commands)
    decreases |commands|
  {
    hide Serializable, Settled, Harmless, Step;
    if commands != [] {
      SerializableSettled(w);
      StepSerialExactly(w, commands[0]);
      HarmlessIsWellTimed(Advance(w, commands[0]), commands[1..]);
    }
  }

  lemma HarmlessRunsRefine(stores: seq<Store>, q: nat, r: nat, commands: seq<Command>)
    requires StoresOk(stores) && AllHarmless(Open(stores, q, r), commands)
    ensures AgreeThroughout(Open(stores, q, r), Abs(Open(stores, q, r)), commands)
  {
    hide StoresOk, AllHarmless, AgreeThroughout, AllWellTimed, Abs, Open;
    StartIsSerializable(stores, q, r);
    assert Inv(Open(stores, q, r)) by { OpenInv(stores, q, r); }
    assert Start(stores, q, r).st == Open(stores, q, r);
    HarmlessIsWellTimed(Start(stores, q, r), commands);
    AbsShadows(Open(stores, q, r));
    LazyRefinesEager(Open(stores, q, r), Abs(Open(stores, q, r)), commands);
  }
}
