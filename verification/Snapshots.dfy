/** Snapshot stability and refused commits: what readers see over whole runs, what a
    refused commit leaves behind, and what a torn one does to its session. */
module Snapshots {
  import opened Values
  import opened Rows
  import Tx = Transactions
  import opened Engine
  import opened EngineInvariant

  function Actor(c: Command): Option<nat> {
    match c
    case CheckpointBegin | CheckpointComplete | CheckpointFail | Drain(_, _) => None
    case _ => Some(c.sid)
  }

  ghost predicate ActiveIn(st: State, sid: nat) {
    sid in st.sessions && st.sessions[sid].active
  }

  // ---- A reader's view does not move ----------------------------------------

  // Same session, same base: same reads.
  ghost predicate SameReader(a: State, b: State, o: nat) {
    && ActiveIn(a, o) && ActiveIn(b, o)
    && a.sessions[o] == b.sessions[o]
    && |a.stores| == |b.stores|
    && Base(a, a.sessions[o].generation) == Base(b, b.sessions[o].generation)
  }

  lemma BaseIsWhatIsRead(st: State, o: nat, t: nat)
    requires Inv(st) && ActiveIn(st, o) && t < |st.stores|
    ensures |Base(st, st.sessions[o].generation)| == |st.stores|
    ensures BaseFor(st, st.sessions[o], t) == Ok(Base(st, st.sessions[o].generation)[t])
  {
    assert SessionOk(st, st.sessions[o]);
    BaseOlder(st, st.sessions[o].generation);
  }

  lemma SameReaderSameRows(a: State, b: State, o: nat, t: nat)
    requires Inv(a) && Inv(b) && SameReader(a, b, o)
    ensures ReadTable(a, o, t) == ReadTable(b, o, t)
  {
    if t < |a.stores| {
      BaseIsWhatIsRead(a, o, t);
      BaseIsWhatIsRead(b, o, t);
    }
  }

  // Ending one session does not disturb another.
  lemma EndIsLocal(st: State, sid: nat, last: Option<nat>, o: nat)
    requires Inv(st) && ActiveIn(st, sid) && ActiveIn(st, o) && o != sid
    ensures SameReader(st, EndSession(st, sid, last), o)
  {
    hide Inv;
    var g := st.sessions[o].generation;
    assert o in Holders(st.sessions, g) - {sid};
    ReleaseKeepsOthers(st, sid, g);
  }

  lemma CommitIsLocal(st: State, sid: nat, o: nat)
    requires Inv(st) && ActiveIn(st, o) && o != sid
    ensures SameReader(st, CommitStep(st, sid).0, o)
  {
    var s := SessionOf(st, sid);
    if s.active {
      if s.txs == [] {
        EndIsLocal(st, sid, Some(st.sequence), o);
      } else if st.queue.limit != 0 {
        RetainKeeps(st, sid);
        var (reg, failed) := RetainCurrent(st, s);
        var mid := st.(registry := reg);
        assert SameReader(st, mid, o);
        if failed.None? {
          var g := st.sessions[o].generation;
          assert o in Holders(mid.sessions, g) - {sid};
          ReleaseKeepsOthers(mid, sid, g);
        }
      }
    }
  }

  /** Other sessions' steps, checkpoints and drains never change what an active
      session reads: in every reachable state, for every command, torn commits
      included. */
  lemma OtherReadersUndisturbed(st: State, c: Command, o: nat, t: nat)
    requires Inv(st) && ActiveIn(st, o) && Actor(c) != Some(o)
    ensures SameReader(st, Step(st, c).0, o)
    ensures ReadTable(Step(st, c).0, o, t) == ReadTable(st, o, t)
  {
    hide SessionOk, RegistryOk, RetainedOk, StoresOk, TouchOp, InsertOp, UpdateOp, DeleteOp, CommitStep, DrainReady;
    StepKeeps(st, c);
    assert SameReader(st, Step(st, c).0, o) by {
      match c {
        case Commit(sid) => CommitIsLocal(st, sid, o);
        case Rollback(sid) =>
          if SessionOf(st, sid).active { EndIsLocal(st, sid, SessionOf(st, sid).lastCommit, o); }
        case CloseSession(sid) =>
          if SessionOf(st, sid).active { EndIsLocal(st, sid, None, o); }
        case _ =>
      }
    }
    SameReaderSameRows(st, Step(st, c).0, o, t);
  }

  ghost predicate Quiet(commands: seq<Command>, o: nat) {
    forall i :: 0 <= i < |commands| ==> Actor(commands[i]) != Some(o)
  }

  /** Over any run in which it does nothing itself, a session reads the same rows at
      the end as at the start, however many writers, checkpoints and drains ran. */
  lemma {:induction false} SnapshotStaysStable(st: State, commands: seq<Command>, o: nat, t: nat)
    requires Inv(st) && ActiveIn(st, o) && Quiet(commands, o)
    ensures ActiveIn(Run(st, commands), o)
    ensures ReadTable(Run(st, commands), o, t) == ReadTable(st, o, t)
    decreases |commands|
  {
    if commands != [] {
      var st1 := Step(st, commands[0]).0;
      OtherReadersUndisturbed(st, commands[0], o, t);
      StepKeeps(st, commands[0]);
      assert Quiet(commands[1..], o);
      SnapshotStaysStable(st1, commands[1..], o, t);
    }
  }

  // The session's entry for the table, if it has one, is still open.
  predicate OpenFor(txs: seq<TableTx>, t: nat) {
    var e := EntryFor(txs, t);
    e.Some? ==> txs[e.value].tx.state.Active?
  }

  /** An active session's read is never refused for want of retained rows: it succeeds,
      showing no row id twice, exactly when the session's entry for the table is not
      already over, and is refused with that entry's error otherwise. */
  lemma ActiveReadsExactly(st: State, o: nat, t: nat)
    requires Inv(st) && ActiveIn(st, o) && t < |st.stores|
    ensures ReadTable(st, o, t).Ok? <==> OpenFor(st.sessions[o].txs, t)
    ensures ReadTable(st, o, t).Ok? ==> UniqueIds(ReadTable(st, o, t).value)
    ensures ReadTable(st, o, t).Err? ==> ReadTable(st, o, t).error in {AlreadyCommitted, AlreadyRolledBack}
  {
    var s := st.sessions[o];
    assert SessionOk(st, s);
    BaseIsWhatIsRead(st, o, t);
    BaseOlder(st, s.generation);
    var base := Base(st, s.generation);
    var e := EntryFor(s.txs, t);
    if e.Some? && s.txs[e.value].tx.state.Active? {
      Tx.ScanHasUniqueIds(s.txs[e.value].tx, base[t]);
    }
  }

  /** The rows of an old generation are kept exactly while some active session reads
      it, and never more generations than the configured limit. */
  lemma RetainedExactlyWhileHeld(st: State, g: nat)
    requires Inv(st) && g != st.sequence
    ensures FindRetained(st.registry.retained, g).Some? <==>
            exists sid :: ActiveIn(st, sid) && st.sessions[sid].generation == g
    ensures |st.registry.retained| <= st.registry.limit
  {
    if FindRetained(st.registry.retained, g).Some? {
      FindRetainedIn(st.registry.retained, g);
      var sid :| sid in Holders(st.sessions, g);
      assert ActiveIn(st, sid);
    }
    if sid :| ActiveIn(st, sid) && st.sessions[sid].generation == g {
      assert SessionOk(st, st.sessions[sid]);
    }
  }

  // ---- Torn commits ---------------------------------------------------------

  // The commit gets past the queue and the retention step and starts publishing.
  predicate Publishes(st: State, sid: nat) {
    var s := SessionOf(st, sid);
    s.active && s.txs != [] && st.queue.limit != 0 && st.queue.pending < st.queue.limit
    && RetainCurrent(st, s).1.None?
  }

  /** The guard of a torn commit: the first entry can be published and a later one
      cannot. */
  predicate Tears(st: State, sid: nat) {
    && Publishes(st, sid)
    && var txs := SessionOf(st, sid).txs;
       && Tx.EnsureActive(txs[0].tx).Ok?
       && (txs[0].table < |st.stores| && Tx.RowsStillLive(txs[0].tx, st.stores[txs[0].table]))
       && exists i :: 1 <= i < |txs| && txs[i].table < |st.stores| && !CanPublish(st.stores, txs[i])
  }

  predicate CanPublish(stores: seq<Store>, e: TableTx)
    requires e.table < |stores|
  {
    Tx.EnsureActive(e.tx).Ok? && Tx.RowsStillLive(e.tx, stores[e.table])
  }

  lemma CanPublishExactly(stores: seq<Store>, e: TableTx)
    requires StoresOk(stores) && e.table < |stores| && Tx.TxOk(e.tx, stores[e.table].table)
    ensures Tx.Publish(e.tx, stores[e.table]).Ok? <==> CanPublish(stores, e)
  {
    if e.tx.state.Active? { Tx.CommitMeaning(e.tx, stores[e.table]); }
  }

  // All entries publish, or the first that cannot stops the rest.
  lemma {:induction false} PublishExactly(stores: seq<Store>, txs: seq<TableTx>)
    requires StoresOk(stores) && EntriesOk(stores, txs)
    ensures PublishAll(stores, txs).error.None? <==> forall i :: 0 <= i < |txs| ==> CanPublish(stores, txs[i])
    decreases |txs|
  {
    if txs != [] {
      var t := txs[0].table;
      CanPublishExactly(stores, txs[0]);
      if Tx.Publish(txs[0].tx, stores[t]).Ok? {
        PublishOne(stores, txs);
        var stores1 := stores[t := Tx.Publish(txs[0].tx, stores[t]).value];
        hide StoresOk, Tx.TxOk, Tx.Publish, Tx.RowsStillLive;
        PublishExactly(stores1, txs[1..]);
        forall i | 1 <= i < |txs| ensures CanPublish(stores, txs[i]) == CanPublish(stores1, txs[1..][i - 1]) {
          assert txs[i] == txs[1..][i - 1];
          assert stores1[txs[i].table] == stores[txs[i].table];
        }
        if forall i :: 0 <= i < |txs[1..]| ==> CanPublish(stores1, txs[1..][i]) {
          forall i | 0 <= i < |txs| ensures CanPublish(stores, txs[i]) {
            if i > 0 { assert CanPublish(stores1, txs[1..][i - 1]); }
          }
        }
        if forall i :: 0 <= i < |txs| ==> CanPublish(stores, txs[i]) {
          forall i | 0 <= i < |txs[1..]| ensures CanPublish(stores1, txs[1..][i]) {
            assert CanPublish(stores, txs[i + 1]);
          }
        }
      }
    }
  }

  // What a refused commit leaves behind, as far as anybody can observe.
  ghost predicate NothingHappened(a: State, b: State) {
    && a.stores == b.stores && a.sequence == b.sequence && a.queue == b.queue
    && a.overlay == b.overlay && a.worker == b.worker && a.sessions == b.sessions
    && forall o, t :: ActiveIn(a, o) ==> ReadTable(a, o, t) == ReadTable(b, o, t)
  }

  // Same stores, sessions and bases: same reads for everybody.
  lemma SameReadsAfterRetain(st: State, sid: nat)
    requires Inv(st) && ActiveIn(st, sid)
    ensures NothingHappened(st, st.(registry := RetainCurrent(st, st.sessions[sid]).0))
  {
    RetainKeeps(st, sid);
    var st1 := st.(registry := RetainCurrent(st, st.sessions[sid]).0);
    forall o, t: nat | ActiveIn(st, o) ensures ReadTable(st, o, t) == ReadTable(st1, o, t) {
      SameReaderSameRows(st, st1, o, t);
    }
  }

  // Whether the first entry goes through decides whether anything does.
  lemma FirstEntryDecides(stores: seq<Store>, txs: seq<TableTx>)
    requires txs != [] && txs[0].table < |stores|
    ensures var p := PublishAll(stores, txs);
            if Tx.Publish(txs[0].tx, stores[txs[0].table]).Ok? then p.txs[0].tx.state.Committed?
            else p.stores == stores && p.txs == txs
  {
    hide Tx.Publish;
  }

  lemma ActiveEntries(st: State, sid: nat)
    requires Inv(st) && SessionOf(st, sid).active
    ensures ActiveIn(st, sid) && StoresOk(st.stores) && EntriesOk(st.stores, SessionOf(st, sid).txs)
  {
    assert SessionOk(st, SessionOf(st, sid));
  }

  lemma PublishingRefused(st: State, sid: nat)
    requires Publishes(st, sid) && CommitStep(st, sid).1.Refused?
    ensures var s := SessionOf(st, sid); var p := PublishAll(st.stores, s.txs);
            && p.error.Some?
            && CommitStep(st, sid).0 ==
               WithSession(st.(registry := RetainCurrent(st, s).0, stores := p.stores), sid, s.(txs := p.txs))
  {
    hide RetainCurrent, PublishAll, RecordAll, Cells, Release;
  }

  lemma PublishesFirst(st: State, sid: nat)
    requires Publishes(st, sid)
    ensures SessionOf(st, sid).active && SessionOf(st, sid).txs != []
  {}

  // A commit that gets to its entries tears exactly when the first can be published and a
  // later one cannot.
  lemma TearsFirst(st: State, sid: nat)
    requires Publishes(st, sid)
    ensures var txs := SessionOf(st, sid).txs;
            (forall i :: 0 <= i < |txs| ==> txs[i].table < |st.stores|) ==>
              (Tears(st, sid) <==>
               CanPublish(st.stores, txs[0]) && exists i :: 1 <= i < |txs| && !CanPublish(st.stores, txs[i]))
  {
    hide RetainCurrent, Tx.RowsStillLive;
  }

  lemma RefusedInPublishing(st: State, sid: nat)
    requires Inv(st) && Publishes(st, sid) && CommitStep(st, sid).1.Refused?
    ensures NothingHappened(st, CommitStep(st, sid).0) <==> !Tears(st, sid)
    ensures st.sequence == CommitStep(st, sid).0.sequence
  {
    hide Inv, ReadTable, RetainCurrent, StoresOk, EntriesOk, PublishAll, Tx.Publish, CommitStep, CanPublish, Tx.TxOk,
      Tx.RowsStillLive, Publishes;
    PublishingRefused(st, sid);
    PublishesFirst(st, sid);
    TearsFirst(st, sid);
    var s := SessionOf(st, sid);
    ActiveEntries(st, sid);
    SameReadsAfterRetain(st, sid);
    PublishExactly(st.stores, s.txs);
    FirstTable(st.stores, s.txs);
    CanPublishExactly(st.stores, s.txs[0]);
    FirstEntryDecides(st.stores, s.txs);
    var st1 := CommitStep(st, sid).0;
    if Tx.Publish(s.txs[0].tx, st.stores[s.txs[0].table]).Ok? {
      assert st1.sessions[sid].txs != s.txs;
    } else {
      assert st.sessions[sid := s] == st.sessions;
    }
  }

  lemma FirstTable(stores: seq<Store>, txs: seq<TableTx>)
    requires EntriesOk(stores, txs) && txs != []
    ensures txs[0].table < |stores| && Tx.TxOk(txs[0].tx, stores[txs[0].table].table)
  {}

  /** A refused commit changes nothing anybody can observe, its own staged writes
      included, exactly when it is not torn: a full queue, exhausted retention, an
      uncopyable table or a conflict in the first entry all leave everything as
      it was; a conflict in a later entry never does. */
  lemma RefusedCommitExactly(st: State, sid: nat)
    requires Inv(st) && CommitStep(st, sid).1.Refused?
    ensures NothingHappened(st, CommitStep(st, sid).0) <==> !Tears(st, sid)
    ensures st.sequence == CommitStep(st, sid).0.sequence
  {
    hide Inv, ReadTable, RetainCurrent, PublishAll, RecordAll, Cells, Release;
    if Publishes(st, sid) {
      RefusedInPublishing(st, sid);
    } else if SessionOf(st, sid).active {
      SameReadsAfterRetain(st, sid);
    }
  }

  // A session whose first entry was published without the commit completing.
  ghost predicate Stuck(st: State, sid: nat) {
    ActiveIn(st, sid) && st.sessions[sid].txs != [] && st.sessions[sid].txs[0].tx.state.Committed?
  }

  predicate SameHandle(a: State, b: State, sid: nat) {
    SessionOf(a, sid).generation == SessionOf(b, sid).generation
  }

  lemma TearLeavesStuck(st: State, sid: nat)
    requires Inv(st) && Tears(st, sid)
    ensures CommitStep(st, sid).1.Refused? && Stuck(CommitStep(st, sid).0, sid)
            && SameHandle(st, CommitStep(st, sid).0, sid)
  {
    var s := SessionOf(st, sid);
    assert SessionOk(st, s);
    PublishExactly(st.stores, s.txs);
    CanPublishExactly(st.stores, s.txs[0]);
  }

  // An operation does nothing to a transaction that is over.
  ghost predicate InertWhenOver(op: (Tx.Tx, Store) -> Result<Tx.Tx>) {
    forall tx: Tx.Tx, live: Store :: !tx.state.Active? && op(tx, live).Ok? ==> op(tx, live).value == tx
  }

  lemma StuckStages(st: State, sid: nat, table: nat, op: (Tx.Tx, Store) -> Result<Tx.Tx>)
    requires Stuck(st, sid) && InertWhenOver(op)
    ensures Stuck(StageStep(st, sid, table, op).0, sid) && SameHandle(st, StageStep(st, sid, table, op).0, sid)
  {
    hide EntryFor;
  }

  lemma StuckCannotEnd(st: State, sid: nat)
    requires Stuck(st, sid)
    ensures CommitStep(st, sid).1.Refused? && Stuck(CommitStep(st, sid).0, sid)
            && SameHandle(st, CommitStep(st, sid).0, sid)
    ensures RollbackStep(st, sid).1.Refused? && Stuck(RollbackStep(st, sid).0, sid)
            && SameHandle(st, RollbackStep(st, sid).0, sid)
  {
    hide RetainCurrent;
  }

  lemma StuckStays(st: State, sid: nat, c: Command)
    requires Inv(st) && Stuck(st, sid) && c != CloseSession(sid)
    ensures Stuck(Step(st, c).0, sid) && SameHandle(st, Step(st, c).0, sid)
  {
    hide Inv, CommitStep, RollbackStep, ReadTable, StageStep, CloseStep;
    if Actor(c) != Some(sid) {
      OtherReadersUndisturbed(st, c, sid, 0);
    } else {
      match c {
        case Begin(_) => assert Step(st, c).0 == st;
        case Read(_, _) => assert Step(st, c).0 == st;
        case Touch(_, t) => StuckStages(st, sid, t, TouchOp(ReadTable(st, sid, t)));
        case StageInsert(_, t, vs) => StuckStages(st, sid, t, InsertOp(vs));
        case StageUpdate(_, t, id, vs) => StuckStages(st, sid, t, UpdateOp(ReadTable(st, sid, t), id, vs));
        case StageDelete(_, t, id) => StuckStages(st, sid, t, DeleteOp(ReadTable(st, sid, t), id));
        case Commit(_) => StuckCannotEnd(st, sid);
        case Rollback(_) => StuckCannotEnd(st, sid);
        case _ =>
      }
    }
  }

  lemma {:induction false} StuckForever(st: State, sid: nat, commands: seq<Command>)
    requires Inv(st) && Stuck(st, sid)
    requires forall i :: 0 <= i < |commands| ==> commands[i] != CloseSession(sid)
    ensures Stuck(Run(st, commands), sid) && SameHandle(st, Run(st, commands), sid)
    ensures CommitStep(Run(st, commands), sid).1.Refused? && RollbackStep(Run(st, commands), sid).1.Refused?
    decreases |commands|
  {
    hide Inv, Stuck, Step, CommitStep, RollbackStep;
    if commands == [] {
      StuckCannotEnd(st, sid);
    } else {
      StuckStays(st, sid, commands[0]);
      StepKeeps(st, commands[0]);
      StuckForever(Step(st, commands[0]).0, sid, commands[1..]);
    }
  }

  lemma StepIsCommit(st: State, sid: nat)
    ensures Step(st, Commit(sid)) == CommitStep(st, sid)
  {}

  /** A torn commit wedges its session: in every run after it, until the session is
      destroyed, the session stays active, holds on to its generation, and neither
      COMMIT nor ROLLBACK ends it. */
  lemma TornSessionNeverEnds(st: State, sid: nat, commands: seq<Command>)
    requires Inv(st) && Tears(st, sid)
    requires forall i :: 0 <= i < |commands| ==> commands[i] != CloseSession(sid)
    ensures var later := Run(Step(st, Commit(sid)).0, commands);
            && ActiveIn(later, sid) && SameHandle(st, later, sid)
            && CommitStep(later, sid).1.Refused? && RollbackStep(later, sid).1.Refused?
  {
    hide Inv, Step, CommitStep, RollbackStep, Tears, Run;
    StepIsCommit(st, sid);
    StepKeeps(st, Commit(sid));
    TearLeavesStuck(st, sid);
    StuckForever(CommitStep(st, sid).0, sid, commands);
  }
}
