/** The running database as one object with its registry, queue and overlay: every
    operation updates it in place, takes exactly the state machine's step, and keeps
    its invariant. */
module DatabaseObject {
  import opened Values
  import opened Rows
  import Tx = Transactions
  import opened Engine
  import opened EngineInvariant
  import opened Objects

  // Entries published so far, and what publishing the rest would give.
  ghost predicate PublishesFrom(stores: seq<Store>, done: seq<TableTx>, rest: seq<TableTx>, whole: Published) {
    var p := PublishAll(stores, rest);
    whole == Published(p.stores, done + p.txs, p.error)
  }

  lemma PublishTurn(stores: seq<Store>, done: seq<TableTx>, rest: seq<TableTx>, whole: Published)
    requires rest != [] && rest[0].table < |stores| && PublishesFrom(stores, done, rest, whole)
    ensures match Tx.Publish(rest[0].tx, stores[rest[0].table])
            case Err(e) => whole == Published(stores, done + rest, Some(e))
            case Ok(s) =>
              PublishesFrom(stores[rest[0].table := s],
                            done + [TableTx(rest[0].table, Tx.Close(rest[0].tx, Tx.Committed))], rest[1..], whole)
  {
    hide Tx.Publish, Tx.Close;
    var t := rest[0].table;
    if Tx.Publish(rest[0].tx, stores[t]).Ok? {
      var closed := TableTx(t, Tx.Close(rest[0].tx, Tx.Committed));
      var p := PublishAll(stores[t := Tx.Publish(rest[0].tx, stores[t]).value], rest[1..]);
      assert done + ([closed] + p.txs) == done + [closed] + p.txs;
    }
  }

  lemma RollbackTurn(left: seq<TableTx>, rest: seq<TableTx>)
    requires rest != []
    ensures Tx.EnsureActive(rest[0].tx).Err? ==>
              RollbackAll(rest) == (rest, Some(Tx.EnsureActive(rest[0].tx).error))
    ensures Tx.EnsureActive(rest[0].tx).Ok? ==>
              var closed := TableTx(rest[0].table, Tx.Close(rest[0].tx, Tx.RolledBack));
              && left + RollbackAll(rest).0 == left + [closed] + RollbackAll(rest[1..]).0
              && RollbackAll(rest).1 == RollbackAll(rest[1..]).1
  {
    hide Tx.Close;
  }

  class Database {
    const registry: SnapshotRegistry
    const queue: CommitQueue
    const overlay: Overlay
    var stores: seq<Store>
    var sequence: nat
    var worker: Worker
    var sessions: map<nat, Session>

    function Abs(): State reads this, registry, queue, overlay {
      State(stores, sequence, queue.Abs(), registry.Abs(), worker, overlay.deltas, sessions)
    }

    constructor (stores: seq<Store>, queueLimit: nat, retentionLimit: nat)
      requires StoresOk(stores)
      ensures fresh(registry) && fresh(queue) && fresh(overlay)
      ensures Abs() == Open(stores, queueLimit, retentionLimit) && Inv(Abs())
    {
      this.stores, this.sequence, this.worker, this.sessions := stores, 0, Worker(None, 0), map[];
      registry := new SnapshotRegistry(retentionLimit);
      queue := new CommitQueue(queueLimit);
      overlay := new Overlay();
      new;
      OpenInv(stores, queueLimit, retentionLimit);
    }

    function SessionFor(sid: nat): Session reads this {
      if sid in sessions then sessions[sid] else NoSession
    }

    method Begin(sid: nat) returns (outcome: Outcome)
      requires Inv(Abs())
      modifies this`sessions, registry
      ensures (Abs(), outcome) == Step(old(Abs()), Command.Begin(sid)) && Inv(Abs())
    {
      StepKeeps(Abs(), Command.Begin(sid));
      var s := SessionFor(sid);
      if s.active { return Refused(TransactionActive); }
      registry.Acquire(sequence);
      sessions := sessions[sid := s.(active := true, generation := sequence)];
      return Done;
    }

    // Keeps the current generation for the sessions that still read it.
    method RetainCurrentGeneration(committer: Session) returns (failed: Option<Error>)
      modifies registry`retained
      ensures (registry.Abs(), failed) == RetainCurrent(old(Abs()), committer)
    {
      hide Capture, Sweep;
      var refs := registry.CountRefs(sequence);
      if committer.generation == sequence && refs > 0 { refs := refs - 1; }
      var kept := registry.IsRetained(sequence);
      if refs == 0 || kept { return None; }
      failed := registry.RetainGeneration(sequence, stores);
    }

    // Publishes the entries in order, stopping at the first that fails.
    method PublishEntries(txs: seq<TableTx>) returns (published: seq<TableTx>, failed: Option<Error>)
      requires forall i :: 0 <= i < |txs| ==> txs[i].table < |stores|
      modifies this`stores
      ensures Published(stores, published, failed) == PublishAll(old(stores), txs)
    {
      ghost var whole := PublishAll(stores, txs);
      published := [];
      var k := 0;
      assert PublishesFrom(stores, published, txs[0..], whole) by {
        assert txs[0..] == txs && [] + whole.txs == whole.txs;
      }
      while k < |txs|
        invariant 0 <= k <= |txs| && |stores| == |old(stores)|
        invariant PublishesFrom(stores, published, txs[k..], whole)
      {
        hide PublishesFrom, PublishAll, Tx.Publish;
        PublishTurn(stores, published, txs[k..], whole);
        assert txs[k..][1..] == txs[k + 1..];
        var next := PublishTransaction(txs[k].tx, stores[txs[k].table]);
        if next.Err? {
          return published + txs[k..], Some(next.error);
        }
        stores := stores[txs[k].table := next.value];
        published := published + [TableTx(txs[k].table, Tx.Close(txs[k].tx, Tx.Committed))];
        k := k + 1;
      }
      assert txs[k..] == [] && published + [] == published;
      return published, None;
    }

    method RecordOverlay(g: nat)
      modifies overlay
      ensures overlay.deltas == RecordAll(old(overlay.deltas), g, Cells(stores))
    {
      var t := 0;
      while t < |stores|
        invariant 0 <= t <= |stores|
        invariant RecordAll(overlay.deltas, g, CellsFrom(stores, t)) == RecordAll(old(overlay.deltas), g, Cells(stores))
      {
        RecordConcat(overlay.deltas, g, RowsCells(t, stores[t].rows), CellsFrom(stores, t + 1));
        overlay.RecordCommittedStore(g, t, stores[t]);
        t := t + 1;
      }
    }

    // Ends the session's transaction: entries dropped, handle released.
    method End(sid: nat, last: Option<nat>)
      requires forall k :: 0 <= k < |registry.active| ==> registry.active[k].refs > 0
      modifies this`sessions, registry
      ensures Abs() == EndSession(old(Abs()), sid, last)
    {
      ListedExactly(registry.active, SessionFor(sid).generation);
      registry.ReleaseGeneration(SessionFor(sid).generation);
      sessions := sessions[sid := Session(false, 0, [], last)];
    }

    method Commit(sid: nat) returns (outcome: Outcome)
      requires Inv(Abs())
      modifies this, registry, queue, overlay
      ensures (Abs(), outcome) == Step(old(Abs()), Command.Commit(sid)) && Inv(Abs())
    {
      hide Inv, RecordAll, Cells, PublishAll, RetainCurrent, Release;
      StepKeeps(Abs(), Command.Commit(sid));
      HandlesHeld(Abs());
      var s := SessionFor(sid);
      if !s.active { return Refused(NoActiveTransaction); }
      if s.txs != [] {
        EntriesInRange(Abs(), sid);
        RetainKeepsHandles(Abs(), s);
        var failed := queue.Enqueue();
        if failed.Some? { return Refused(failed.value); }
        RetainIgnoresQueue(old(Abs()), queue.Abs(), s);
        assert Abs() == old(Abs()).(queue := queue.Abs());
        failed := RetainCurrentGeneration(s);
        if failed.Some? {
          queue.Abort();
          return Refused(failed.value);
        }
        var published;
        published, failed := PublishEntries(s.txs);
        if failed.Some? {
          sessions := sessions[sid := s.(txs := published)];
          queue.Abort();
          return Refused(failed.value);
        }
        sequence := queue.Complete();
        RecordOverlay(sequence);
      }
      End(sid, Some(sequence));
      return Done;
    }

    // The session's entry for the table, opened on the live store if there is none.
    method EntryIndex(sid: nat, table: nat) returns (at: nat)
      requires SessionFor(sid).active && table < |stores|
      modifies this`sessions
      ensures var s := old(SessionFor(sid)); var txs := WithEntry(stores, s.txs, table);
              sessions == old(sessions)[sid := s.(txs := txs)] && EntryFor(txs, table) == Some(at)
    {
      var s := SessionFor(sid);
      assert sessions[sid := s] == sessions;
      at := 0;
      while at < |s.txs|
        invariant 0 <= at <= |s.txs| && forall k :: 0 <= k < at ==> s.txs[k].table != table
      {
        if s.txs[at].table == table {
          FirstEntry(s.txs, table, at);
          return;
        }
        at := at + 1;
      }
      var opening := TableTx(table, Tx.Begin(stores[table]));
      FirstEntry(s.txs + [opening], table, at);
      assert EntryFor(s.txs, table).None?;
      sessions := sessions[sid := s.(txs := s.txs + [opening])];
    }

    // Stages one row operation in the session's transaction for the table.
    method Stage(sid: nat, table: nat, op: (Tx.Tx, Store) -> Result<Tx.Tx>) returns (outcome: Outcome)
      modifies this`sessions
      ensures (Abs(), outcome) == StageStep(old(Abs()), sid, table, op)
    {
      if !SessionFor(sid).active { return Refused(TransactionRequired); }
      if table >= |stores| { return Refused(UnknownObject); }
      var at := EntryIndex(sid, table);
      var s := sessions[sid];
      var staged := op(s.txs[at].tx, stores[table]);
      if staged.Err? { return Refused(staged.error); }
      sessions := sessions[sid := s.(txs := s.txs[at := TableTx(table, staged.value)])];
      assert sessions == old(sessions)[sid := old(SessionFor(sid)).(txs := s.txs[at := TableTx(table, staged.value)])];
      return Done;
    }

    method Insert(sid: nat, table: nat, values: seq<Value>) returns (outcome: Outcome)
      requires Inv(Abs())
      modifies this`sessions
      ensures (Abs(), outcome) == Step(old(Abs()), StageInsert(sid, table, values)) && Inv(Abs())
    {
      hide Inv, StageStep;
      StepKeeps(Abs(), StageInsert(sid, table, values));
      outcome := Stage(sid, table, InsertOp(values));
    }

    // The rows a statement of the session sees: its snapshot under its own writes.
    method Scan(sid: nat, table: nat) returns (seen: Result<seq<Row>>)
      ensures seen == ReadTable(Abs(), sid, table)
    {
      if table >= |stores| { return Err(UnknownObject); }
      var s := SessionFor(sid);
      var base := stores[table];
      if s.active {
        match FindRetained(registry.retained, s.generation) {
          case Some(kept) =>
            if table >= |kept| { return Err(SnapshotRetentionExceeded); }
            base := kept[table];
          case None =>
            if s.generation != sequence { return Err(SnapshotRetentionExceeded); }
        }
      }
      var entry := EntryFor(s.txs, table);
      seen := if entry.Some? then Tx.Scan(s.txs[entry.value].tx, base) else Ok(base.rows);
    }

    // A statement that matches no row.
    method Touch(sid: nat, table: nat) returns (outcome: Outcome)
      requires Inv(Abs())
      modifies this`sessions
      ensures (Abs(), outcome) == Step(old(Abs()), Command.Touch(sid, table)) && Inv(Abs())
    {
      hide Inv, StageStep, ReadTable;
      StepKeeps(Abs(), Command.Touch(sid, table));
      var seen := Scan(sid, table);
      outcome := Stage(sid, table, TouchOp(seen));
    }

    method Update(sid: nat, table: nat, id: nat, values: seq<Value>) returns (outcome: Outcome)
      requires Inv(Abs())
      modifies this`sessions
      ensures (Abs(), outcome) == Step(old(Abs()), StageUpdate(sid, table, id, values)) && Inv(Abs())
    {
      hide Inv, StageStep, ReadTable;
      StepKeeps(Abs(), StageUpdate(sid, table, id, values));
      var seen := Scan(sid, table);
      outcome := Stage(sid, table, UpdateOp(seen, id, values));
    }

    method Delete(sid: nat, table: nat, id: nat) returns (outcome: Outcome)
      requires Inv(Abs())
      modifies this`sessions
      ensures (Abs(), outcome) == Step(old(Abs()), StageDelete(sid, table, id)) && Inv(Abs())
    {
      hide Inv, StageStep, ReadTable;
      StepKeeps(Abs(), StageDelete(sid, table, id));
      var seen := Scan(sid, table);
      outcome := Stage(sid, table, DeleteOp(seen, id));
    }

    // Rolls the entries back in order, stopping at one that is already over.
    method RollbackEntries(txs: seq<TableTx>) returns (left: seq<TableTx>, failed: Option<Error>)
      ensures (left, failed) == RollbackAll(txs)
    {
      ghost var whole := RollbackAll(txs);
      left := [];
      var k := 0;
      assert txs[0..] == txs;
      assert [] + whole.0 == whole.0;
      while k < |txs|
        invariant 0 <= k <= |txs|
        invariant whole == (left + RollbackAll(txs[k..]).0, RollbackAll(txs[k..]).1)
      {
        hide RollbackAll, Tx.Close;
        RollbackTurn(left, txs[k..]);
        assert txs[k..][1..] == txs[k + 1..];
        var active := Tx.EnsureActive(txs[k].tx);
        if active.Err? { return left + txs[k..], Some(active.error); }
        left := left + [TableTx(txs[k].table, Tx.Close(txs[k].tx, Tx.RolledBack))];
        k := k + 1;
      }
      assert left + [] == left;
      return left, None;
    }

    method Rollback(sid: nat) returns (outcome: Outcome)
      requires Inv(Abs())
      modifies this`sessions, registry
      ensures (Abs(), outcome) == Step(old(Abs()), Command.Rollback(sid)) && Inv(Abs())
    {
      hide Inv, RollbackAll, Release;
      StepKeeps(Abs(), Command.Rollback(sid));
      HandlesHeld(Abs());
      var s := SessionFor(sid);
      if !s.active { return Refused(NoActiveTransaction); }
      var left, failed := RollbackEntries(s.txs);
      if failed.Some? {
        sessions := sessions[sid := s.(txs := left)];
        return Refused(failed.value);
      }
      End(sid, s.lastCommit);
      return Done;
    }

    // What the session sees of a table: its writes over its snapshot, or the live rows.
    method Read(sid: nat, table: nat) returns (outcome: Outcome)
      ensures (Abs(), outcome) == Step(Abs(), Command.Read(sid, table))
    {
      var r := ReadTable(Abs(), sid, table);
      outcome := if r.Ok? then Seen(r.value) else Refused(r.error);
    }

    method BeginCheckpoint() returns (outcome: Outcome)
      requires Inv(Abs())
      modifies this`worker
      ensures (Abs(), outcome) == Step(old(Abs()), CheckpointBegin) && Inv(Abs())
    {
      StepKeeps(Abs(), CheckpointBegin);
      if worker.running.Some? { return Refused(CheckpointAlreadyRunning); }
      worker := worker.(running := Some(sequence));
      return Done;
    }

    // The ticket of the running checkpoint is closed, for better or worse; one that is
    // closed already stays as it is.
    method CompleteCheckpoint() returns (outcome: Outcome)
      requires Inv(Abs())
      modifies this`worker
      ensures (Abs(), outcome) == Step(old(Abs()), CheckpointComplete) && Inv(Abs())
    {
      StepKeeps(Abs(), CheckpointComplete);
      if worker.running.Some? { worker := Worker(None, worker.running.value); }
      return Done;
    }

    method FailCheckpoint() returns (outcome: Outcome)
      requires Inv(Abs())
      modifies this`worker
      ensures (Abs(), outcome) == Step(old(Abs()), CheckpointFail) && Inv(Abs())
    {
      StepKeeps(Abs(), CheckpointFail);
      if worker.running.Some? { worker := worker.(running := None); }
      return Done;
    }

    method DrainOverlay(through: nat, max: nat) returns (outcome: Outcome)
      requires Inv(Abs())
      modifies overlay
      ensures (Abs(), outcome) == Step(old(Abs()), Command.Drain(through, max)) && Inv(Abs())
    {
      hide Inv, DrainReady;
      StepKeeps(Abs(), Command.Drain(through, max));
      var taken := overlay.Drain(through, max);
      return Drained(taken);
    }
  }

  lemma {:induction false} FirstEntry(txs: seq<TableTx>, table: nat, i: nat)
    requires i < |txs| && txs[i].table == table && forall k :: 0 <= k < i ==> txs[k].table != table
    ensures EntryFor(txs, table) == Some(i)
  {
    if i > 0 { FirstEntry(txs[1..], table, i - 1); }
  }

  lemma HandlesHeld(st: State)
    requires Inv(st)
    ensures forall k :: 0 <= k < |st.registry.active| ==> st.registry.active[k].refs > 0
  {}

  lemma EntriesInRange(st: State, sid: nat)
    requires Inv(st) && SessionOf(st, sid).active
    ensures forall i :: 0 <= i < |SessionOf(st, sid).txs| ==> SessionOf(st, sid).txs[i].table < |st.stores|
  {
    assert SessionOk(st, SessionOf(st, sid));
  }

  lemma RetainIgnoresQueue(st: State, q: Queue, s: Session)
    ensures RetainCurrent(st.(queue := q), s) == RetainCurrent(st, s)
  {}

  lemma RetainKeepsHandles(st: State, s: Session)
    ensures RetainCurrent(st, s).0.active == st.registry.active
  {
    hide Capture, Sweep;
  }
}
