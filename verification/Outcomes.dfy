/** How transactions end: the exact outcome of every COMMIT, what a rollback leaves, what
    each command does to its session and which last commit a session knows of. */
module Outcomes {
  import opened Values
  import opened Rows
  import Tx = Transactions
  import opened Engine
  import opened EngineInvariant
  import opened Snapshots

  // ---- The outcome of a commit ----------------------------------------------

  /** Another active session reads the current generation and its rows are not kept yet. */
  ghost predicate OthersNeedRows(st: State, sid: nat) {
    && (exists o :: o != sid && ActiveIn(st, o) && st.sessions[o].generation == st.sequence)
    && FindRetained(st.registry.retained, st.sequence).None?
  }

  lemma NeedsRetentionExactly(st: State, sid: nat)
    requires Inv(st) && ActiveIn(st, sid)
    ensures NeedsRetention(st, st.sessions[sid]) <==> OthersNeedRows(st, sid)
  {
    hide Inv;
    var g := st.sequence;
    CountsHolders(st, g);
    var holders := Holders(st.sessions, g);
    var others := holders - {sid};
    SetMinus(holders, sid);
    assert sid in holders <==> st.sessions[sid].generation == g;
    assert others == {} <==> !exists o :: o != sid && ActiveIn(st, o) && st.sessions[o].generation == g by {
      if o :| o in others { assert o != sid && ActiveIn(st, o) && st.sessions[o].generation == g; }
      if o :| o != sid && ActiveIn(st, o) && st.sessions[o].generation == g { assert o in others; }
    }
  }

  lemma CountsHolders(st: State, g: nat)
    requires Inv(st)
    ensures RefCount(st.registry.active, g) == |Holders(st.sessions, g)|
  {}

  lemma SetMinus(s: set<nat>, x: nat)
    ensures |s - {x}| == |s| - if x in s then 1 else 0
  {
    if x in s { assert s == s - {x} + {x}; } else { assert s == s - {x}; }
  }

  lemma RetentionExactly(st: State, sid: nat)
    requires Inv(st) && ActiveIn(st, sid)
    ensures var failed := RetainCurrent(st, st.sessions[sid]).1;
            if !OthersNeedRows(st, sid) then failed.None?
            else if |st.registry.retained| >= st.registry.limit then failed == Some(SnapshotRetentionExceeded)
            else if AllRebuildable(st.stores) then failed.None?
            else failed.Some? && failed.value in {TypeMismatch, DuplicateObject}
  {
    NeedsRetentionExactly(st, sid);
    SweepsNothing(st);
    CaptureExact(st.stores);
    CaptureErrors(st.stores);
    hide Inv, NeedsRetention, OthersNeedRows, AllRebuildable, Capture, Sweep;
  }

  lemma SweepsNothing(st: State)
    requires Inv(st)
    ensures Sweep(st.registry.retained, st.registry.active) == st.registry.retained && StoresOk(st.stores)
  {
    forall i | 0 <= i < |st.registry.retained|
      ensures RefCount(st.registry.active, st.registry.retained[i].generation) != 0
    {}
    SweepNothing(st.registry.retained, st.registry.active);
  }

  lemma {:induction false} CaptureErrors(stores: seq<Store>)
    requires StoresOk(stores)
    ensures Capture(stores).Err? ==> Capture(stores).error in {TypeMismatch, DuplicateObject}
  {
    if stores != [] {
      CloneExactly(stores[0]);
      hide StoreOk, Clone;
      CaptureErrors(stores[1..]);
    }
  }

  // The first entry that cannot be published, and why.
  ghost predicate FirstConflict(stores: seq<Store>, txs: seq<TableTx>, k: nat, e: Error) {
    && (forall i :: 0 <= i < |txs| ==> txs[i].table < |stores|)
    && k < |txs| && !CanPublish(stores, txs[k]) && (forall i :: 0 <= i < k ==> CanPublish(stores, txs[i]))
    && e == match txs[k].tx.state
            case Active => UnknownRow
            case Committed => AlreadyCommitted
            case RolledBack => AlreadyRolledBack
  }

  lemma {:induction false} ConflictExactly(stores: seq<Store>, txs: seq<TableTx>)
    requires StoresOk(stores) && EntriesOk(stores, txs)
    ensures PublishAll(stores, txs).error.None? <==> forall i :: 0 <= i < |txs| ==> CanPublish(stores, txs[i])
    ensures PublishAll(stores, txs).error.Some? ==>
              exists k: nat :: FirstConflict(stores, txs, k, PublishAll(stores, txs).error.value)
    decreases |txs|
  {
    hide StoresOk, EntriesOk, Tx.Publish, Tx.TxOk, CanPublish, FirstConflict, PublishAll;
    EntriesWithin(stores, txs);
    PublishExactly(stores, txs);
    if txs == [] {
      NothingPublished(stores);
    } else {
      FirstTable(stores, txs);
      CanPublishExactly(stores, txs[0]);
      PublishHead(stores, txs);
      if CanPublish(stores, txs[0]) {
        PublishOne(stores, txs);
        var t := txs[0].table;
        var stores1 := stores[t := Tx.Publish(txs[0].tx, stores[t]).value];
        ConflictExactly(stores1, txs[1..]);
        if PublishAll(stores, txs).error.Some? {
          var e := PublishAll(stores, txs).error.value;
          var k: nat :| FirstConflict(stores1, txs[1..], k, e);
          ConflictLater(stores, stores1, txs, k, e);
        }
      } else {
        StoreSound(stores, txs[0].table);
        EntryError(txs[0].tx, stores[txs[0].table]);
        ConflictFirst(stores, txs, PublishAll(stores, txs).error.value);
      }
    }
  }

  lemma EntriesWithin(stores: seq<Store>, txs: seq<TableTx>)
    requires EntriesOk(stores, txs)
    ensures forall i :: 0 <= i < |txs| ==> txs[i].table < |stores|
  {}

  lemma StoreSound(stores: seq<Store>, t: nat)
    requires StoresOk(stores) && t < |stores|
    ensures StoreOk(stores[t])
  {}

  lemma NothingPublished(stores: seq<Store>)
    ensures PublishAll(stores, []).error.None?
  {}

  lemma PublishHead(stores: seq<Store>, txs: seq<TableTx>)
    requires txs != [] && txs[0].table < |stores|
    ensures var p := Tx.Publish(txs[0].tx, stores[txs[0].table]);
            PublishAll(stores, txs).error ==
            if p.Err? then Some(p.error) else PublishAll(stores[txs[0].table := p.value], txs[1..]).error
  {
    hide Tx.Publish;
  }

  lemma ConflictFirst(stores: seq<Store>, txs: seq<TableTx>, e: Error)
    requires txs != [] && (forall i :: 0 <= i < |txs| ==> txs[i].table < |stores|) && !CanPublish(stores, txs[0])
    requires e == match txs[0].tx.state
                  case Active => UnknownRow
                  case Committed => AlreadyCommitted
                  case RolledBack => AlreadyRolledBack
    ensures FirstConflict(stores, txs, 0, e)
  {}

  lemma EntryError(tx: Tx.Tx, s: Store)
    requires Tx.TxOk(tx, s.table) && StoreOk(s) && Tx.Publish(tx, s).Err?
    ensures Tx.Publish(tx, s).error == match tx.state
                                       case Active => UnknownRow
                                       case Committed => AlreadyCommitted
                                       case RolledBack => AlreadyRolledBack
  {
    if tx.state.Active? { Tx.CommitMeaning(tx, s); }
  }

  lemma ConflictLater(stores: seq<Store>, stores1: seq<Store>, txs: seq<TableTx>, k: nat, e: Error)
    requires EntriesOk(stores, txs) && txs != [] && CanPublish(stores, txs[0]) && |stores1| == |stores|
    requires forall t :: 0 <= t < |stores| && t != txs[0].table ==> stores1[t] == stores[t]
    requires FirstConflict(stores1, txs[1..], k, e)
    ensures FirstConflict(stores, txs, k + 1, e)
  {
    hide Tx.TxOk, Tx.RowsStillLive;
    forall i | 0 < i < |txs|
      ensures txs[i] == txs[1..][i - 1] && CanPublish(stores, txs[i]) == CanPublish(stores1, txs[i])
    {
      assert txs[i].table != txs[0].table;
    }
  }

  /** The outcome of COMMIT, for every state the engine can be in. In this order: no
      transaction; nothing written; a queue of no length; rows other sessions still read that
      cannot be kept, for want of room or because a table cannot be rebuilt; the first entry
      that cannot be published; and otherwise it goes through. */
  lemma CommitOutcomeExactly(st: State, sid: nat)
    requires Inv(st)
    ensures var s, outcome := SessionOf(st, sid), Step(st, Commit(sid)).1;
            if !s.active then outcome == Refused(NoActiveTransaction)
            else if s.txs == [] then outcome == Done
            else if st.queue.limit == 0 then outcome == Refused(InvalidCommitQueueLimit)
            else if OthersNeedRows(st, sid) && |st.registry.retained| >= st.registry.limit
            then outcome == Refused(SnapshotRetentionExceeded)
            else if OthersNeedRows(st, sid) && !AllRebuildable(st.stores)
            then outcome.Refused? && outcome.error in {TypeMismatch, DuplicateObject}
            else if exists k: nat, e :: FirstConflict(st.stores, s.txs, k, e)
            then outcome.Refused? && exists k: nat :: FirstConflict(st.stores, s.txs, k, outcome.error)
            else outcome == Done
  {
    var s := SessionOf(st, sid);
    if s.active {
      ActiveEntries(st, sid);
      NoneQueued(st);
      RetentionExactly(st, sid);
      ConflictExactly(st.stores, s.txs);
      CommitParts(st, sid);
      hide Inv, CommitStep, RetainCurrent, PublishAll, AllRebuildable, OthersNeedRows, StoresOk, EntriesOk;
      if k: nat, e :| FirstConflict(st.stores, s.txs, k, e) { hide CanPublish; }
    }
  }

  lemma NoneQueued(st: State)
    requires Inv(st)
    ensures st.queue.pending == 0
  {}

  lemma CommitParts(st: State, sid: nat)
    requires SessionOf(st, sid).active && st.queue.pending == 0
    ensures var s, outcome := SessionOf(st, sid), Step(st, Commit(sid)).1;
            var failed, error := RetainCurrent(st, s).1, PublishAll(st.stores, s.txs).error;
            outcome == if s.txs == [] then Done
                       else if st.queue.limit == 0 then Refused(InvalidCommitQueueLimit)
                       else if failed.Some? then Refused(failed.value)
                       else if error.Some? then Refused(error.value) else Done
  {
    hide RetainCurrent, PublishAll, RecordAll, Cells, Release;
  }

  predicate IsStatement(c: Command) { c.Touch? || c.StageInsert? || c.StageUpdate? || c.StageDelete? }

  /** The other refusals, each before anything is touched. */
  lemma RefusedEarly(st: State, c: Command)
    ensures c.Begin? && SessionOf(st, c.sid).active ==> Step(st, c) == (st, Refused(TransactionActive))
    ensures c.Begin? && !SessionOf(st, c.sid).active ==> Step(st, c).1 == Done
    ensures IsStatement(c) && !SessionOf(st, c.sid).active ==> Step(st, c) == (st, Refused(TransactionRequired))
    ensures IsStatement(c) && SessionOf(st, c.sid).active && c.table >= |st.stores| ==>
              Step(st, c) == (st, Refused(UnknownObject))
    ensures c.Read? && c.table >= |st.stores| ==> Step(st, c) == (st, Refused(UnknownObject))
    ensures (c.Commit? || c.Rollback?) && !SessionOf(st, c.sid).active ==>
              Step(st, c) == (st, Refused(NoActiveTransaction))
    ensures c.CloseSession? ==> Step(st, c).1 == Done
    ensures c.Commit? && SessionOf(st, c.sid).active && SessionOf(st, c.sid).txs != [] && st.queue.limit > 0
            && st.queue.pending >= st.queue.limit ==>
              Step(st, c) == (st, Refused(CommitQueueFull))
  {
    hide RetainCurrent, PublishAll, RollbackAll, EntryFor, WithEntry, Release, RecordAll, Cells, DrainReady, AddRef,
      TouchOp, InsertOp, UpdateOp, DeleteOp;
  }

  // ---- The end of a transaction ---------------------------------------------

  /** A rollback of the entries stops at the first one that is already over: those before it
      are rolled back with nothing staged, it and those behind it are as they were. */
  lemma {:induction false} RollbackExactly(txs: seq<TableTx>)
    ensures var (left, failed) := RollbackAll(txs);
            && |left| == |txs|
            && (failed.None? <==> forall i :: 0 <= i < |txs| ==> txs[i].tx.state.Active?)
            && (failed.Some? ==> exists k :: Stops(txs, left, k, failed.value))
            && (failed.None? ==> Stopped(txs, left, |txs|))
  {
    if txs != [] && txs[0].tx.state.Active? {
      RollbackExactly(txs[1..]);
      var (rest, failed) := RollbackAll(txs[1..]);
      var left := RollbackAll(txs).0;
      assert left[1..] == rest;
      if failed.Some? {
        var k :| Stops(txs[1..], rest, k, failed.value);
        StopsLater(txs, left, k, failed.value);
      } else {
        StoppedLater(txs, left, |txs| - 1);
        forall i | 0 <= i < |txs| ensures txs[i].tx.state.Active? {
          if i > 0 { assert txs[i] == txs[1..][i - 1]; }
        }
      }
    } else if txs != [] {
      assert Stops(txs, txs, 0, RollbackAll(txs).1.value);
    }
  }

  ghost predicate Stopped(txs: seq<TableTx>, left: seq<TableTx>, k: int) {
    && |left| == |txs| && 0 <= k <= |txs|
    && (forall i :: 0 <= i < k ==>
          txs[i].tx.state.Active?
          && left[i] == TableTx(txs[i].table, Tx.Tx(Tx.RolledBack, txs[i].tx.nextId, [], [], [])))
    && (forall i :: k <= i < |txs| ==> left[i] == txs[i])
  }

  ghost predicate Stops(txs: seq<TableTx>, left: seq<TableTx>, k: int, e: Error) {
    && 0 <= k < |txs| && Stopped(txs, left, k)
    && e == (if txs[k].tx.state.Committed? then AlreadyCommitted else AlreadyRolledBack)
    && !txs[k].tx.state.Active?
  }

  lemma StoppedLater(txs: seq<TableTx>, left: seq<TableTx>, k: int)
    requires txs != [] && txs[0].tx.state.Active? && |left| == |txs|
    requires left[0] == TableTx(txs[0].table, Tx.Tx(Tx.RolledBack, txs[0].tx.nextId, [], [], []))
    requires Stopped(txs[1..], left[1..], k)
    ensures Stopped(txs, left, k + 1)
  {
    forall i | 0 < i < |txs| ensures txs[i] == txs[1..][i - 1] && left[i] == left[1..][i - 1] {}
  }

  lemma StopsLater(txs: seq<TableTx>, left: seq<TableTx>, k: int, e: Error)
    requires txs != [] && txs[0].tx.state.Active? && |left| == |txs|
    requires left[0] == TableTx(txs[0].table, Tx.Tx(Tx.RolledBack, txs[0].tx.nextId, [], [], []))
    requires Stops(txs[1..], left[1..], k, e)
    ensures Stops(txs, left, k + 1, e)
  {
    StoppedLater(txs, left, k);
  }

  // ---- The last commit a session knows of -----------------------------------

  /** What each command does to a session between and in its transactions: COMMIT and ROLLBACK
      end it or leave it active, a commit that goes through tells it the sequence, and closing
      it forgets everything. */
  lemma SessionMoves(st: State, c: Command, sid: nat)
    ensures var (st1, outcome) := Step(st, c);
            var before, after := SessionOf(st, sid), SessionOf(st1, sid);
            && (c == Begin(sid) ==>
                  after.active && after.txs == before.txs
                  && after.generation == if before.active then before.generation else st.sequence)
            && (c == Commit(sid) && outcome == Done ==> after == Session(false, 0, [], Some(st1.sequence)))
            && (c == Rollback(sid) && outcome == Done ==> after == Session(false, 0, [], before.lastCommit))
            && (c == CloseSession(sid) ==> after == Session(false, 0, [], None))
            && (c !in {Begin(sid), CloseSession(sid)} && !(c in {Commit(sid), Rollback(sid)} && outcome == Done) ==>
                  after.active == before.active && after.generation == before.generation)
            && (c != CloseSession(sid) && !(c == Commit(sid) && outcome == Done) ==>
                  after.lastCommit == before.lastCommit)
  {
    hide RetainCurrent, PublishAll, RollbackAll, EntryFor, WithEntry, Release, ReadTable, RecordAll, Cells, DrainReady,
      TouchOp, InsertOp, UpdateOp, DeleteOp, AddRef;
    match c {
      case Commit(o) => CommitMoves(st, o, sid);
      case _ =>
    }
  }

  lemma CommitMoves(st: State, o: nat, sid: nat)
    ensures var (st1, outcome) := CommitStep(st, o);
            var before, after := SessionOf(st, sid), SessionOf(st1, sid);
            && (o == sid && outcome == Done ==> after == Session(false, 0, [], Some(st1.sequence)))
            && (!(o == sid && outcome == Done) ==>
                  after.active == before.active && after.generation == before.generation
                  && after.lastCommit == before.lastCommit)
  {
    hide RetainCurrent, PublishAll, Release, RecordAll, Cells;
  }

  /** The i-th command of the run is a commit of the session that went through, at this
      sequence. */
  predicate CommitsAt(st: State, commands: seq<Command>, sid: nat, i: nat, g: nat)
    requires i < |commands|
  {
    var (st1, outcome) := Step(Run(st, commands[..i]), commands[i]);
    commands[i] == Commit(sid) && outcome == Done && st1.sequence == g
  }

  // The i-th command gives the session another last commit, or none.
  ghost predicate Reports(st: State, commands: seq<Command>, sid: nat, i: nat)
    requires i < |commands|
  {
    commands[i] == CloseSession(sid) || exists g :: CommitsAt(st, commands, sid, i, g)
  }

  ghost predicate LastReport(st: State, commands: seq<Command>, sid: nat, g: nat) {
    exists i :: 0 <= i < |commands| && CommitsAt(st, commands, sid, i, g)
      && forall k :: i < k < |commands| ==> !Reports(st, commands, sid, k)
  }

  lemma ReportsBefore(st: State, commands: seq<Command>, sid: nat, i: nat)
    requires i + 1 < |commands|
    ensures var front := commands[..|commands| - 1];
            && Reports(st, front, sid, i) == Reports(st, commands, sid, i)
            && forall g :: CommitsAt(st, front, sid, i, g) == CommitsAt(st, commands, sid, i, g)
  {
    hide Run, Step;
    var front := commands[..|commands| - 1];
    assert front[..i] == commands[..i];
    forall g ensures CommitsAt(st, front, sid, i, g) == CommitsAt(st, commands, sid, i, g) {}
  }

  lemma ReportedBefore(st: State, commands: seq<Command>, sid: nat, g: nat)
    requires commands != []
    ensures var n := |commands| - 1;
            LastReport(st, commands, sid, g) <==>
            CommitsAt(st, commands, sid, n, g)
            || (LastReport(st, commands[..n], sid, g) && !Reports(st, commands, sid, n))
  {
    hide CommitsAt, Reports;
    var n := |commands| - 1;
    var front := commands[..n];
    forall i: nat | i < n
      ensures Reports(st, front, sid, i) == Reports(st, commands, sid, i)
      ensures CommitsAt(st, front, sid, i, g) == CommitsAt(st, commands, sid, i, g)
    {
      ReportsBefore(st, commands, sid, i);
    }
    if LastReport(st, commands, sid, g) {
      var i :| 0 <= i < |commands| && CommitsAt(st, commands, sid, i, g)
        && forall k :: i < k < |commands| ==> !Reports(st, commands, sid, k);
      if i < n {
        assert CommitsAt(st, front, sid, i, g);
        assert forall k :: i < k < |front| ==> !Reports(st, front, sid, k);
      }
    }
    if LastReport(st, front, sid, g) && !Reports(st, commands, sid, n) {
      var i :| 0 <= i < |front| && CommitsAt(st, front, sid, i, g)
        && forall k :: i < k < |front| ==> !Reports(st, front, sid, k);
      assert CommitsAt(st, commands, sid, i, g);
      forall k | i < k < |commands| ensures !Reports(st, commands, sid, k) {}
    }
  }

  /** From opening a database, after every run: the last commit a session knows of is the
      sequence its own last commit that went through left behind, unless it was closed since. */
  lemma {:induction false} LastCommitExactly(
      stores: seq<Store>, q: nat, r: nat, commands: seq<Command>, sid: nat, g: nat)
    ensures var st := Open(stores, q, r);
            SessionOf(Run(st, commands), sid).lastCommit == Some(g) <==> LastReport(st, commands, sid, g)
    decreases |commands|
  {
    var st := Open(stores, q, r);
    if commands != [] {
      var n := |commands| - 1;
      RunLast(st, commands);
      LastCommitExactly(stores, q, r, commands[..n], sid, g);
      ReportedBefore(st, commands, sid, g);
      SessionMoves(Run(st, commands[..n]), commands[n], sid);
      LastStep(st, commands, sid, g);
      hide Run, Step, LastReport, Reports, CommitsAt;
    }
  }

  lemma LastStep(st: State, commands: seq<Command>, sid: nat, g: nat)
    requires commands != []
    ensures var n := |commands| - 1;
            var (st1, outcome) := Step(Run(st, commands[..n]), commands[n]);
            && (CommitsAt(st, commands, sid, n, g) <==>
                  commands[n] == Commit(sid) && outcome == Done && st1.sequence == g)
            && (Reports(st, commands, sid, n) <==>
                  commands[n] == CloseSession(sid) || (commands[n] == Commit(sid) && outcome == Done))
  {
    hide Run, Step;
    var n := |commands| - 1;
    var (st1, outcome) := Step(Run(st, commands[..n]), commands[n]);
    if commands[n] == Commit(sid) && outcome == Done { assert CommitsAt(st, commands, sid, n, st1.sequence); }
  }
}
