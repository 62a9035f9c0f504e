/** Serial replay: the committed stores are the published batches applied one after
    another, and every reader's snapshot is a prefix of that replay, in exactly the runs
    in which no torn commit publishes anything with an effect. */
module Replay {
  import opened Values
  import opened Catalog
  import opened Rows
  import Tx = Transactions
  import opened Engine
  import opened EngineInvariant
  import opened Snapshots
  import opened Effects

  type Batch = seq<TableTx>

  /** The stores after publishing the batches one by one. */
  function Serial(origin: seq<Store>, log: seq<Batch>): seq<Store>
    decreases |log|
  {
    if log == [] then origin
    else PublishAll(Serial(origin, log[..|log| - 1]), log[|log| - 1]).stores
  }

  /** The engine together with what has been published so far. */
  datatype World = World(st: State, origin: seq<Store>, log: seq<Batch>)

  function Start(stores: seq<Store>, queueLimit: nat, retentionLimit: nat): World {
    World(Open(stores, queueLimit, retentionLimit), stores, [])
  }

  predicate PublishesBatch(st: State, c: Command) {
    c.Commit? && Step(st, c).1.Done? && SessionOf(st, c.sid).txs != []
  }

  function Advance(w: World, c: Command): World {
    World(Step(w.st, c).0, w.origin,
          if PublishesBatch(w.st, c) then w.log + [SessionOf(w.st, c.sid).txs] else w.log)
  }

  function Play(w: World, commands: seq<Command>): World
    decreases |commands|
  {
    if commands == [] then w else Play(Advance(w, commands[0]), commands[1..])
  }

  predicate Torn(st: State, c: Command) {
    c.Commit? && Tears(st, c.sid)
  }

  /** The command is not a torn commit, or one whose entries before the first conflict
      have no effect. */
  predicate Harmless(st: State, c: Command) {
    Torn(st, c) ==>
      && (forall i :: 0 <= i < |SessionOf(st, c.sid).txs| ==> SessionOf(st, c.sid).txs[i].table < |st.stores|)
      && Silent(st.stores, SessionOf(st, c.sid).txs)
  }

  predicate AllHarmless(st: State, commands: seq<Command>)
    decreases |commands|
  {
    commands == [] || (Harmless(st, commands[0]) && AllHarmless(Step(st, commands[0]).0, commands[1..]))
  }

  // ---- The invariant of such runs --------------------------------------

  ghost predicate RetainedReplays(w: World) {
    forall i :: 0 <= i < |w.st.registry.retained| ==>
      var r := w.st.registry.retained[i];
      r.generation <= |w.log| && r.stores == Serial(w.origin, w.log[..r.generation])
  }

  ghost predicate Serializable(w: World) {
    && Inv(w.st)
    && |w.log| == w.st.sequence
    && w.st.stores == Serial(w.origin, w.log)
    && RetainedReplays(w)
  }

  // A step that publishes nothing may keep, drop or add retained generations, as
  // long as what it adds is the current stores.
  lemma QuietStep(w: World, st: State)
    requires Serializable(w) && Inv(st)
    requires st.stores == w.st.stores && st.sequence == w.st.sequence
    requires forall i :: 0 <= i < |st.registry.retained| ==>
               st.registry.retained[i] in w.st.registry.retained
               || st.registry.retained[i] == Retained(w.st.sequence, w.st.stores)
    ensures Serializable(w.(st := st))
  {
    assert w.log[..|w.log|] == w.log;
  }

  lemma RetainedAfterRetain(st: State, sid: nat)
    requires Inv(st) && ActiveIn(st, sid)
    ensures forall i :: 0 <= i < |RetainCurrent(st, st.sessions[sid]).0.retained| ==>
              var r := RetainCurrent(st, st.sessions[sid]).0.retained[i];
              r in st.registry.retained || r == Retained(st.sequence, st.stores)
  {
    RetainCases(st, st.sessions[sid]);
  }

  // Either the batch is published in full, or the stores are untouched.
  lemma CommitOutcomes(st: State, sid: nat)
    requires Inv(st) && !Tears(st, sid)
    ensures var (st1, outcome) := CommitStep(st, sid);
            if PublishesBatch(st, Commit(sid))
            then && Publishes(st, sid)
                 && st1.stores == PublishAll(st.stores, SessionOf(st, sid).txs).stores
                 && st1.sequence == st.sequence + 1
            else st1.stores == st.stores && st1.sequence == st.sequence
  {
    hide Inv, Tears, RetainCurrent, PublishAll, RecordAll, Cells, Release, ReadTable;
    InvQueue(st);
    if CommitStep(st, sid).1.Refused? {
      RefusedCommitExactly(st, sid);
    }
  }

  lemma CommitRetained(st: State, sid: nat)
    requires Inv(st)
    ensures var st1 := CommitStep(st, sid).0;
            forall i :: 0 <= i < |st1.registry.retained| ==>
              st1.registry.retained[i] in st.registry.retained
              || st1.registry.retained[i] == Retained(st.sequence, st.stores)
  {
    hide Inv, PublishAll, RecordAll, Cells, Release;
    var s := SessionOf(st, sid);
    if s.active {
      if s.txs == [] {
        ReleaseKeepsRegistry(st, sid, Some(st.sequence));
      } else if st.queue.limit != 0 {
        RetainedAfterRetain(st, sid);
        RetainKeeps(st, sid);
        var mid := st.(registry := RetainCurrent(st, s).0);
        ReleaseKeepsRegistry(mid, sid, None);
      }
    }
  }

  lemma PublishingStep(w: World, sid: nat)
    requires Serializable(w) && !Tears(w.st, sid)
    requires PublishesBatch(w.st, Commit(sid))
    ensures Serializable(Advance(w, Commit(sid)))
  {
    hide Inv, Step, CommitStep, PublishAll, Tears, Publishes, PublishesBatch;
    StepIsCommit(w.st, sid);
    CommitOutcomes(w.st, sid);
    CommitRetained(w.st, sid);
    StepKeeps(w.st, Commit(sid));
    var w1 := Advance(w, Commit(sid));
    assert w1.log[..|w1.log| - 1] == w.log;
    forall i | 0 <= i < |w1.st.registry.retained|
      ensures var r := w1.st.registry.retained[i];
              r.generation <= |w1.log| && r.stores == Serial(w1.origin, w1.log[..r.generation])
    {
      var r := w1.st.registry.retained[i];
      if r == Retained(w.st.sequence, w.st.stores) {
        assert w1.log[..r.generation] == w.log;
      } else {
        assert r in w.st.registry.retained;
        assert w1.log[..r.generation] == w.log[..r.generation];
      }
    }
  }

  // Every other step publishes nothing.
  lemma OtherStepsPublishNothing(st: State, c: Command)
    requires Inv(st) && !c.Commit?
    ensures var st1 := Step(st, c).0;
            && st1.stores == st.stores && st1.sequence == st.sequence
            && forall i :: 0 <= i < |st1.registry.retained| ==>
                 st1.registry.retained[i] in st.registry.retained
  {
    hide Inv, StoreOk, RegistryOk, SessionOk, RetainedOk;
    match c {
      case Rollback(sid) =>
        var s := SessionOf(st, sid);
        if s.active { ReleaseKeepsRegistry(st, sid, s.lastCommit); }
      case CloseSession(sid) =>
        if SessionOf(st, sid).active { ReleaseKeepsRegistry(st, sid, None); }
      case _ =>
    }
  }

  lemma UntornKeeps(w: World, c: Command)
    requires Serializable(w) && !Torn(w.st, c)
    ensures Serializable(Advance(w, c))
  {
    hide Inv, Step, Tears, RetainedReplays, Serial;
    if PublishesBatch(w.st, c) {
      PublishingStep(w, c.sid);
    } else {
      StepKeeps(w.st, c);
      var st := Step(w.st, c).0;
      if c.Commit? {
        CommitOutcomes(w.st, c.sid);
        CommitRetained(w.st, c.sid);
        assert Step(w.st, c) == CommitStep(w.st, c.sid) by { StepIsCommit(w.st, c.sid); }
      } else {
        OtherStepsPublishNothing(w.st, c);
      }
      QuietStep(w, st);
      assert Advance(w, c) == w.(st := st);
    }
  }

  lemma StartIsSerializable(stores: seq<Store>, queueLimit: nat, retentionLimit: nat)
    requires StoresOk(stores)
    ensures Serializable(Start(stores, queueLimit, retentionLimit))
  {
    OpenInv(stores, queueLimit, retentionLimit);
  }

  lemma BaseIsPrefix(w: World, g: nat)
    requires Serializable(w) && g <= w.st.sequence
    requires g == w.st.sequence || FindRetained(w.st.registry.retained, g).Some?
    ensures Base(w.st, g) == Serial(w.origin, w.log[..g])
  {
    hide Inv;
    FindRetainedIn(w.st.registry.retained, g);
    if FindRetained(w.st.registry.retained, g).None? {
      assert w.log[..g] == w.log;
    }
  }

  /** Snapshot isolation: an active session that captured generation g reads the
      serial replay of the first g published batches, under its own staged writes
      and nothing else. */
  lemma SnapshotIsSerialPrefix(w: World, sid: nat, t: nat)
    requires Serializable(w) && ActiveIn(w.st, sid) && t < |w.st.stores|
    ensures var s := w.st.sessions[sid]; var e := EntryFor(s.txs, t);
            && s.generation <= |w.log|
            && |Serial(w.origin, w.log[..s.generation])| == |w.st.stores|
            && var base := Serial(w.origin, w.log[..s.generation])[t];
               ReadTable(w.st, sid, t) == if e.Some? then Tx.Scan(s.txs[e.value].tx, base) else Ok(base.rows)
  {
    var s := w.st.sessions[sid];
    assert SessionOk(w.st, s);
    BaseIsWhatIsRead(w.st, sid, t);
    BaseIsPrefix(w, s.generation);
  }

  /** The commit can go through: it gets past queue and retention, and every one of its
      entries, of which there is at least one, can be published to the live stores. */
  predicate CommitsCleanly(st: State, c: Command) {
    && c.Commit? && Publishes(st, c.sid)
    && forall i :: 0 <= i < |SessionOf(st, c.sid).txs| ==>
         SessionOf(st, c.sid).txs[i].table < |st.stores| && CanPublish(st.stores, SessionOf(st, c.sid).txs[i])
  }

  lemma CommitsCleanlyExactly(st: State, c: Command)
    requires Inv(st)
    ensures PublishesBatch(st, c) <==> CommitsCleanly(st, c)
  {
    hide Inv, CanPublish, RetainCurrent, PublishAll, RecordAll, Cells, Release, StoresOk;
    if c.Commit? && SessionOf(st, c.sid).active {
      SessionEntries(st, c.sid);
      PublishExactly(st.stores, SessionOf(st, c.sid).txs);
    }
  }

  /** The sequence grows by one exactly when a commit with at least one entry, even one
      that staged nothing, can go through; nothing else moves it. */
  lemma SequenceAdvancesExactly(st: State, c: Command)
    requires Inv(st)
    ensures Step(st, c).0.sequence == st.sequence + if CommitsCleanly(st, c) then 1 else 0
  {
    CommitsCleanlyExactly(st, c);
    hide CommitsCleanly;
    BatchAdvances(st, c);
  }

  lemma BatchAdvances(st: State, c: Command)
    requires Inv(st)
    ensures Step(st, c).0.sequence == st.sequence + if PublishesBatch(st, c) then 1 else 0
  {
    hide Inv, RetainCurrent, RecordAll, Cells, PublishAll, Release;
    if c.Commit? {
      InvQueue(st);
    } else {
      OtherStepsPublishNothing(st, c);
    }
  }

  lemma InvQueue(st: State)
    requires Inv(st)
    ensures st.queue.lastAssigned == st.sequence && st.queue.pending == 0
  {}

  /** A commit of entries that stage nothing changes no row and still takes a
      commit sequence number. */
  lemma EmptyCommitStillAdvances(st: State, sid: nat, table: nat)
    requires Inv(st) && ActiveIn(st, sid) && table < |st.stores| && st.queue.limit > 0
    requires st.sessions[sid].txs == [TableTx(table, Tx.Begin(st.stores[table]))]
    requires RetainCurrent(st, st.sessions[sid]).1.None?
    ensures var st1 := CommitStep(st, sid).0;
            st1.stores == st.stores && st1.sequence == st.sequence + 1
  {
    InvQueue(st);
    hide Inv, RetainCurrent, RecordAll, Release;
    var tx := Tx.Begin(st.stores[table]);
    assert Tx.Publish(tx, st.stores[table]) == Ok(st.stores[table]);
    assert st.stores[table := st.stores[table]] == st.stores;
    var p := PublishAll(st.stores, [TableTx(table, tx)]);
    assert [TableTx(table, tx)][1..] == [];
    assert PublishAll(st.stores, []) == Published(st.stores, [], None);
    assert p.stores == st.stores && p.error.None?;
  }

  /** Through sessions the commit queue never fills: the sequencer's slot is taken
      and given back inside one commit, so with a positive limit no reachable commit
      is refused with CommitQueueFull. */
  lemma QueueNeverFills(st: State, sid: nat)
    requires Inv(st)
    ensures CommitStep(st, sid).1 != Refused(CommitQueueFull)
    ensures CommitStep(st, sid).1 == Refused(InvalidCommitQueueLimit) <==>
            ActiveIn(st, sid) && st.sessions[sid].txs != [] && st.queue.limit == 0
  {
    var s := SessionOf(st, sid);
    if s.active && s.txs != [] && st.queue.limit != 0 {
      assert SessionOk(st, s);
      RetainErrors(st, s);
      PublishErrors(st.stores, s.txs);
    }
  }

  lemma RetainErrors(st: State, s: Session)
    requires Inv(st)
    ensures var failed := RetainCurrent(st, s).1;
            failed.Some? ==> failed.value in {SnapshotRetentionExceeded, TypeMismatch, DuplicateObject}
  {
    CaptureErrors(st.stores);
  }

  lemma {:induction false} CaptureErrors(stores: seq<Store>)
    requires StoresOk(stores)
    ensures Capture(stores).Err? ==> Capture(stores).error in {TypeMismatch, DuplicateObject}
  {
    if stores != [] {
      CloneExactly(stores[0]);
      hide Clone, Built, StoreOk;
      CaptureErrors(stores[1..]);
    }
  }

  lemma {:induction false} PublishErrors(stores: seq<Store>, txs: seq<TableTx>)
    requires StoresOk(stores) && EntriesOk(stores, txs)
    ensures var e := PublishAll(stores, txs).error;
            e.Some? ==> e.value in {UnknownRow, AlreadyCommitted, AlreadyRolledBack}
    decreases |txs|
  {
    if txs != [] {
      var t := txs[0].table;
      if txs[0].tx.state.Active? { Tx.CommitMeaning(txs[0].tx, stores[t]); }
      if Tx.Publish(txs[0].tx, stores[t]).Ok? {
        PublishOne(stores, txs);
        hide StoresOk, EntriesOk, Tx.Publish;
        PublishErrors(stores[t := Tx.Publish(txs[0].tx, stores[t]).value], txs[1..]);
      }
    }
  }

  lemma SessionEntries(st: State, sid: nat)
    requires Inv(st) && SessionOf(st, sid).active
    ensures StoresOk(st.stores) && EntriesOk(st.stores, SessionOf(st, sid).txs)
  {
    assert SessionOk(st, SessionOf(st, sid));
  }

  /** What a torn commit costs: the replay still describes the stores if and only if the
      entries before the first conflict have no effect on the live stores. */
  lemma TornStepExactly(w: World, c: Command)
    requires Serializable(w) && Torn(w.st, c)
    ensures Serializable(Advance(w, c)) <==> Harmless(w.st, c)
  {
    TornCommitLeaves(w.st, c.sid);
    SessionEntries(w.st, c.sid);
    BatchChangesNothingExactly(w.st.stores, SessionOf(w.st, c.sid).txs);
    StepIsCommit(w.st, c.sid);
    StepKeeps(w.st, c);
    CommitRetained(w.st, c.sid);
    hide Inv, Step, CommitStep, Tears, PublishAll, RetainedReplays, Serial, Silent;
    var w1 := Advance(w, c);
    if w1.st.stores == w.st.stores {
      QuietStep(w, w1.st);
      assert w1 == w.(st := w1.st);
    }
  }

  /** One step keeps serial replay if and only if it is harmless. */
  lemma StepSerialExactly(w: World, c: Command)
    requires Serializable(w)
    ensures Serializable(Advance(w, c)) <==> Harmless(w.st, c)
  {
    hide Serializable, Advance, Tears, Silent;
    if Torn(w.st, c) { TornStepExactly(w, c); } else { UntornKeeps(w, c); }
  }

  /** Serial replay holds at every point of the run. */
  ghost predicate SerialThroughout(w: World, commands: seq<Command>)
    decreases |commands|
  {
    Serializable(w) && (commands != [] ==> SerialThroughout(Advance(w, commands[0]), commands[1..]))
  }

  /** At every point of a run the committed stores equal the serial replay of the
      published batches, the commit sequence counts exactly those batches, and every
      retained generation is the replay of its prefix, if and only if every step of the
      run is harmless. */
  lemma {:induction false} RunsAreSerializable(w: World, commands: seq<Command>)
    requires Serializable(w)
    ensures SerialThroughout(w, commands) <==> AllHarmless(w.st, commands)
    ensures AllHarmless(w.st, commands) ==> Serializable(Play(w, commands))
    ensures Play(w, commands).origin == w.origin && w.log <= Play(w, commands).log
    ensures Play(w, commands).st == Run(w.st, commands)
    decreases |commands|
  {
    hide Serializable, Step, Harmless, PublishesBatch;
    PlayKeepsLog(w, commands);
    if commands != [] {
      StepSerialExactly(w, commands[0]);
      if Harmless(w.st, commands[0]) {
        RunsAreSerializable(Advance(w, commands[0]), commands[1..]);
      } else {
        NotSerialThroughout(w, commands);
      }
    }
  }

  lemma NotSerialThroughout(w: World, commands: seq<Command>)
    requires commands != [] && !Serializable(Advance(w, commands[0]))
    ensures !SerialThroughout(w, commands)
  {
    hide Serializable, Advance;
  }

  lemma {:induction false} PlayKeepsLog(w: World, commands: seq<Command>)
    ensures Play(w, commands).origin == w.origin && w.log <= Play(w, commands).log
    ensures Play(w, commands).st == Run(w.st, commands)
    decreases |commands|
  {
    hide Step, PublishesBatch;
    if commands != [] { PlayKeepsLog(Advance(w, commands[0]), commands[1..]); }
  }

  lemma TornCommitLeaves(st: State, sid: nat)
    requires Inv(st) && Tears(st, sid)
    ensures var (st1, outcome) := CommitStep(st, sid);
            && outcome.Refused? && st1.sequence == st.sequence
            && st1.stores == PublishAll(st.stores, SessionOf(st, sid).txs).stores
  {
    var s := SessionOf(st, sid);
    assert SessionOk(st, s);
    PublishExactly(st.stores, s.txs);
    hide Inv, SessionOk, PublishAll, RecordAll, Cells, Release;
  }
}
