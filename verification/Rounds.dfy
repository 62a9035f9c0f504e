/** Small runs put together step by step: a session begins, runs one statement on the
    first table and commits, whatever other sessions are in the middle of. */
module Rounds {
  import opened Values
  import opened Rows
  import Tx = Transactions
  import opened Engine
  import opened EngineInvariant

  /** The session is between transactions. */
  predicate Idle(st: State, sid: nat) {
    !SessionOf(st, sid).active && SessionOf(st, sid).txs == []
  }

  /** There is room for n more retained generations, and nothing else stands in the way of
      a commit. */
  ghost predicate Roomy(st: State, n: nat) {
    && st.queue.limit > 0 && st.queue.pending == 0 && st.queue.lastAssigned == st.sequence
    && |st.registry.retained| + n <= st.registry.limit
    && |st.stores| > 0 && StoresOk(st.stores) && AllRebuildable(st.stores)
  }

  // The other sessions are as they were.
  predicate Alongside(st: State, st1: State, sid: nat) {
    && st1.sessions.Keys == st.sessions.Keys + {sid}
    && forall o :: o in st.sessions && o != sid ==> st1.sessions[o] == st.sessions[o]
  }

  // What the one statement makes of a fresh entry.
  function Op(st: State, c: Command): (Tx.Tx, Store) -> Result<Tx.Tx>
    requires c.Touch? || c.StageInsert? || c.StageUpdate? || c.StageDelete?
  {
    match c
    case Touch(sid, t) => TouchOp(ReadTable(st, sid, t))
    case StageInsert(_, _, vs) => InsertOp(vs)
    case StageUpdate(sid, t, id, vs) => UpdateOp(ReadTable(st, sid, t), id, vs)
    case StageDelete(sid, t, id) => DeleteOp(ReadTable(st, sid, t), id)
  }

  predicate Statement(c: Command, sid: nat) {
    (c.Touch? || c.StageInsert? || c.StageUpdate? || c.StageDelete?) && c.sid == sid && c.table == 0
  }

  lemma Begins(st: State, sid: nat)
    requires Idle(st, sid)
    ensures var (st1, outcome) := Step(st, Begin(sid));
            && outcome == Done && Alongside(st, st1, sid)
            && SessionOf(st1, sid) == SessionOf(st, sid).(active := true, generation := st.sequence)
            && st1 == st.(registry := st.registry.(active := AddRef(st.registry.active, st.sequence)),
                          sessions := st1.sessions)
  {}

  // A session that begins while nobody reads the current generation sees the live rows.
  lemma SeesLive(st: State, sid: nat)
    requires Inv(st) && Idle(st, sid) && |st.stores| > 0
    requires forall o :: o in st.sessions && st.sessions[o].active ==> st.sessions[o].generation != st.sequence
    ensures ReadTable(Step(st, Begin(sid)).0, sid, 0) == Ok(st.stores[0].rows)
  {
    FindRetainedIn(st.registry.retained, st.sequence);
    assert Holders(st.sessions, st.sequence) == {};
    assert FindRetained(st.registry.retained, st.sequence).None?;
    hide Inv;
    assert EntryFor([], 0).None?;
  }

  // The first statement of a transaction opens its entry.
  lemma StagesFirst(st: State, sid: nat, c: Command, tx: Tx.Tx)
    requires |st.stores| > 0 && Statement(c, sid) && SessionOf(st, sid).active && SessionOf(st, sid).txs == []
    requires Op(st, c)(Tx.Begin(st.stores[0]), st.stores[0]) == Ok(tx)
    ensures var (st1, outcome) := Step(st, c);
            && outcome == Done && Alongside(st, st1, sid)
            && st1 == WithSession(st, sid, SessionOf(st, sid).(txs := [TableTx(0, tx)]))
  {
    hide ReadTable, UpdateOp, DeleteOp, InsertOp, TouchOp;
    var started := TableTx(0, Tx.Begin(st.stores[0]));
    assert [] + [started] == [started] && EntryFor([started], 0) == Some(0);
    assert [started][0 := TableTx(0, tx)] == [TableTx(0, tx)];
  }

  lemma StagesAgain(st: State, sid: nat, c: Command, before: Tx.Tx, tx: Tx.Tx)
    requires |st.stores| > 0 && Statement(c, sid)
    requires SessionOf(st, sid).active && SessionOf(st, sid).txs == [TableTx(0, before)]
    requires Op(st, c)(before, st.stores[0]) == Ok(tx)
    ensures var (st1, outcome) := Step(st, c);
            && outcome == Done && Alongside(st, st1, sid)
            && st1 == WithSession(st, sid, SessionOf(st, sid).(txs := [TableTx(0, tx)]))
  {
    hide ReadTable, UpdateOp, DeleteOp, InsertOp, TouchOp;
    assert EntryFor([TableTx(0, before)], 0) == Some(0);
    assert [TableTx(0, before)][0 := TableTx(0, tx)] == [TableTx(0, tx)];
  }

  lemma {:induction false} SweepShrinks(retained: seq<Retained>, active: seq<ActiveGeneration>)
    ensures |Sweep(retained, active)| <= |retained|
  {
    if retained != [] { SweepShrinks(retained[1..], active); }
  }

  lemma RetainFits(st: State, committer: Session)
    requires Roomy(st, 1)
    ensures var (registry, failed) := RetainCurrent(st, committer);
            failed.None? && |registry.retained| <= |st.registry.retained| + 1 && registry.limit == st.registry.limit
  {
    hide StoresOk, AllRebuildable, Capture, Sweep;
    SweepShrinks(st.registry.retained, st.registry.active);
    CaptureExact(st.stores);
  }

  lemma ReleaseShrinks(reg: Registry, g: nat)
    ensures |Release(reg, g).retained| <= |reg.retained| && Release(reg, g).limit == reg.limit
  {
    SweepShrinks(reg.retained, DropRef(reg.active, g));
  }

  lemma PublishesOne(stores: seq<Store>, tx: Tx.Tx, s: Store)
    requires |stores| > 0 && Tx.Publish(tx, stores[0]) == Ok(s)
    ensures PublishAll(stores, [TableTx(0, tx)]).stores == stores[0 := s]
    ensures PublishAll(stores, [TableTx(0, tx)]).error.None?
  {
    assert [TableTx(0, tx)][1..] == [];
  }

  lemma Commits(st: State, sid: nat, tx: Tx.Tx, s: Store)
    requires Roomy(st, 1) && SessionOf(st, sid).active && SessionOf(st, sid).txs == [TableTx(0, tx)]
    requires Tx.Publish(tx, st.stores[0]) == Ok(s)
    ensures var (st1, outcome) := Step(st, Commit(sid));
            && outcome == Done && Idle(st1, sid) && Alongside(st, st1, sid)
            && st1.stores == st.stores[0 := s] && st1.sequence == st.sequence + 1
            && st1.queue == Queue(st.queue.limit, 0, st.sequence + 1)
            && st1.registry.limit == st.registry.limit && |st1.registry.retained| <= |st.registry.retained| + 1
            && st1.overlay == RecordAll(st.overlay, st.sequence + 1, Cells(st1.stores))
            && st1.worker == st.worker
  {
    PublishesOne(st.stores, tx, s);
    RetainFits(st, SessionOf(st, sid));
    var (registry, failed) := RetainCurrent(st, SessionOf(st, sid));
    ReleaseShrinks(registry, SessionOf(st, sid).generation);
    hide RetainCurrent, PublishAll, RecordAll, Cells, Release, StoresOk, AllRebuildable, Tx.Publish;
  }

  lemma TwoSteps(st: State, a: Command, b: Command)
    ensures Run(st, [a, b]) == Step(Step(st, a).0, b).0
  {
    hide Step;
    assert [a, b][1..] == [b] && [b][1..] == [];
    var st1 := Step(st, a).0;
    assert Run(Step(st1, b).0, []) == Step(st1, b).0;
    assert Run(st1, [b]) == Step(st1, b).0;
  }

  lemma ThreeSteps(st: State, a: Command, b: Command, c: Command)
    ensures Run(st, [a, b, c]) == Step(Step(Step(st, a).0, b).0, c).0
  {
    hide Step;
    assert [a, b, c][1..] == [b, c] && [b, c][1..] == [c] && [c][1..] == [];
    var st1 := Step(st, a).0;
    var st2 := Step(st1, b).0;
    assert Run(st, [a, b, c]) == Run(st1, [b, c]) == Run(st2, [c]);
    assert Run(Step(st2, c).0, []) == Step(st2, c).0;
  }

  /** A whole transaction of one statement. */
  lemma OneRound(st: State, sid: nat, c: Command, tx: Tx.Tx, s: Store)
    requires Idle(st, sid) && Roomy(st, 1) && Statement(c, sid)
    requires Op(Step(st, Begin(sid)).0, c)(Tx.Begin(st.stores[0]), st.stores[0]) == Ok(tx)
    requires Tx.Publish(tx, st.stores[0]) == Ok(s)
    ensures var st1 := Run(st, [Begin(sid), c, Commit(sid)]);
            && Idle(st1, sid) && Alongside(st, st1, sid)
            && st1.stores == st.stores[0 := s] && st1.sequence == st.sequence + 1
            && st1.queue == Queue(st.queue.limit, 0, st.sequence + 1)
            && st1.registry.limit == st.registry.limit && |st1.registry.retained| <= |st.registry.retained| + 1
            && st1.overlay == RecordAll(st.overlay, st.sequence + 1, Cells(st1.stores))
  {
    hide Step, Op, Tx.Publish, StoresOk, AllRebuildable, RecordAll, Cells;
    Begins(st, sid);
    var st1 := Step(st, Begin(sid)).0;
    StagesFirst(st1, sid, c, tx);
    var st2 := Step(st1, c).0;
    Commits(st2, sid, tx, s);
    ThreeSteps(st, Begin(sid), c, Commit(sid));
  }

  lemma {:induction false} RunJoins(st: State, a: seq<Command>, b: seq<Command>)
    ensures Run(st, a + b) == Run(Run(st, a), b)
    decreases |a|
  {
    hide Step;
    if a == [] {
      assert a + b == b;
    } else {
      assert (a + b)[1..] == a[1..] + b;
      RunJoins(Step(st, a[0]).0, a[1..], b);
    }
  }
}
